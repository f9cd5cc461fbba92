/** The engine's scene bookkeeping and input edges, from `mope::game_engine`
    (src/game_engine.cxx). Scenes are identified by the `unique_ptr` the
    engine holds; what a scene's virtual hooks return (`is_done`,
    `on_close`) is code of the game, so each such answer is a parameter. */
module Engine {

  /** A scene, as the pointer the engine owns. */
  type SceneId = nat

  /** A key: one bit of the 256-bit key sets. */
  type Key = k: nat | k < 256

  /** A `std::bitset<256>` of keys. */
  type KeySet = set<Key>

  /** The key part of `input_state` as a tick sees it. */
  datatype InputState = InputState(pressed: KeySet, released: KeySet, held: KeySet)

  /** A call the engine makes into a scene. */
  datatype Hook =
    | SetLogger(scene: SceneId)
    | OnLoad(scene: SceneId)
    | OnUnload(scene: SceneId)
    | OnClose(scene: SceneId)
    | Ticked(scene: SceneId, inputs: InputState)

  /** A close request to the window: `Close(false)` withdraws one (game_engine.cxx:388),
      `Close(true)` is the plain `close()` of game_engine.cxx:236. */
  datatype WindowCall = Close(shouldClose: bool)

  /** Keys that went down since the previous sample: `held & ~previous`. */
  function NewlyPressed(held: KeySet, previous: KeySet): (r: KeySet)
    ensures forall k: Key :: k in r <==> k in held && k !in previous
  {
    held - previous
  }

  /** Keys that went up since the previous sample: `~held & previous`. */
  function NewlyReleased(held: KeySet, previous: KeySet): (r: KeySet)
    ensures forall k: Key :: k in r <==> k !in held && k in previous
  {
    previous - held
  }

  /** A key cannot go both down and up between two samples, and the keys that
      changed are exactly those that went down or up. */
  lemma EdgesPartition(held: KeySet, previous: KeySet)
    ensures NewlyPressed(held, previous) * NewlyReleased(held, previous) == {}
    ensures forall k: Key :: (k in held) != (k in previous) <==>
      k in NewlyPressed(held, previous) + NewlyReleased(held, previous)
  {
  }

  /** Sampling with the same keys twice reports no new edge the second time. */
  lemma NoEdgesWithoutChange(held: KeySet)
    ensures NewlyPressed(held, held) == {} && NewlyReleased(held, held) == {}
  {
  }

  /** The inputs after reading `key_states()` into a sample: the edges
      accumulate until a tick consumes them (lines 189-191). */
  function Sampled(inputs: InputState, keys: KeySet, previous: KeySet): (r: InputState)
    ensures r.held == keys
    ensures inputs.pressed <= r.pressed && inputs.released <= r.released
    ensures forall k: Key :: k in r.pressed <==> k in inputs.pressed || k in NewlyPressed(keys, previous)
    ensures forall k: Key :: k in r.released <==> k in inputs.released || k in NewlyReleased(keys, previous)
  {
    InputState(inputs.pressed + NewlyPressed(keys, previous), inputs.released + NewlyReleased(keys, previous), keys)
  }

  /** The inputs after a tick has seen them: the edges are reset, the held
      keys stay. */
  function Consumed(inputs: InputState): (r: InputState)
    ensures r.pressed == {} && r.released == {} && r.held == inputs.held
  {
    InputState({}, {}, inputs.held)
  }

  /** `SetLogger` then `OnLoad` for each scene, in order. */
  function LoadHooks(s: seq<SceneId>): (h: seq<Hook>)
    ensures |h| == 2 * |s|
    ensures forall i | 0 <= i < |s| :: h[2 * i] == SetLogger(s[i]) && h[2 * i + 1] == OnLoad(s[i])
    decreases |s|
  {
    if s == [] then [] else LoadHooks(s[..|s| - 1]) + [SetLogger(s[|s| - 1]), OnLoad(s[|s| - 1])]
  }

  /** The scenes that are not done, in their original order. */
  function Survivors(s: seq<SceneId>, isDone: SceneId -> bool): (r: seq<SceneId>)
    ensures |r| <= |s|
    decreases |s|
  {
    if s == [] then []
    else Survivors(s[..|s| - 1], isDone) + (if isDone(s[|s| - 1]) then [] else [s[|s| - 1]])
  }

  /** `OnUnload` for each done scene, in order. */
  function UnloadHooks(s: seq<SceneId>, isDone: SceneId -> bool): (h: seq<Hook>)
    decreases |s|
  {
    if s == [] then []
    else UnloadHooks(s[..|s| - 1], isDone) + (if isDone(s[|s| - 1]) then [OnUnload(s[|s| - 1])] else [])
  }

  /** A scene survives exactly when it was there and is not done. */
  lemma {:induction false} SurvivorsMembers(s: seq<SceneId>, isDone: SceneId -> bool, x: SceneId)
    ensures x in Survivors(s, isDone) <==> x in s && !isDone(x)
    decreases |s|
  {
    if s != [] {
      var n := |s| - 1;
      SurvivorsMembers(s[..n], isDone, x);
      assert s == s[..n] + [s[n]];
    }
  }

  /** Every scene is either kept or unloaded: the two counts add up. */
  lemma {:induction false} SurvivorsCount(s: seq<SceneId>, isDone: SceneId -> bool)
    ensures |Survivors(s, isDone)| + |UnloadHooks(s, isDone)| == |s|
    decreases |s|
  {
    if s != [] {
      SurvivorsCount(s[..|s| - 1], isDone);
    }
  }

  /** Unloading is stable: it treats the parts of a list independently and
      keeps each part's order. */
  lemma {:induction false} SurvivorsAppend(a: seq<SceneId>, b: seq<SceneId>, isDone: SceneId -> bool)
    ensures Survivors(a + b, isDone) == Survivors(a, isDone) + Survivors(b, isDone)
    decreases |b|
  {
    if b == [] {
      assert a + b == a;
    } else {
      var n := |b| - 1;
      assert (a + b)[..|a + b| - 1] == a + b[..n];
      assert (a + b)[|a + b| - 1] == b[n];
      SurvivorsAppend(a, b[..n], isDone);
    }
  }

  /** A second unload with the same answers removes nothing more. */
  lemma {:induction false} SurvivorsIdempotent(s: seq<SceneId>, isDone: SceneId -> bool)
    ensures Survivors(Survivors(s, isDone), isDone) == Survivors(s, isDone)
    decreases |s|
  {
    if s != [] {
      var n := |s| - 1;
      SurvivorsIdempotent(s[..n], isDone);
      var tail := if isDone(s[n]) then [] else [s[n]];
      SurvivorsAppend(Survivors(s[..n], isDone), tail, isDone);
      if tail != [] {
        assert tail[..0] == [];
      }
    }
  }

  /** `OnClose` for every scene, in order. */
  function CloseHooks(s: seq<SceneId>): (h: seq<Hook>)
    ensures |h| == |s| && forall i | 0 <= i < |s| :: h[i] == OnClose(s[i])
  {
    seq(|s|, i requires 0 <= i < |s| => OnClose(s[i]))
  }

  /** Some scene refuses to close. */
  predicate Rejects(s: seq<SceneId>, onClose: SceneId -> bool)
  {
    exists i | 0 <= i < |s| :: !onClose(s[i])
  }

  /** Each scene ticked once with the same inputs. */
  function TickHooks(s: seq<SceneId>, inputs: InputState): (h: seq<Hook>)
    ensures |h| == |s| && forall i | 0 <= i < |s| :: h[i] == Ticked(s[i], inputs)
  {
    seq(|s|, i requires 0 <= i < |s| => Ticked(s[i], inputs))
  }

  /** `n` copies of `h`. */
  function Repeat<T>(h: seq<T>, n: nat): (r: seq<T>)
    ensures |r| == n * |h|
    decreases n
  {
    if n == 0 then [] else Repeat(h, n - 1) + h
  }

  /** `finally`: a guard that runs its cleanup when asked and again from
      its destructor, but only the first time. */
  class Finally {
    /** `cleaned_up`. */
    var cleanedUp: bool
    /** How many times the cleanup function has been invoked. */
    ghost var runs: nat

    ghost predicate Valid()
      reads this
    {
      runs == if cleanedUp then 1 else 0
    }

    constructor ()
      ensures Valid() && !cleanedUp && runs == 0
    {
      cleanedUp := false;
      runs := 0;
    }

    /** `cleanup()`: `run` says whether the function is invoked by this
        call. */
    method Cleanup() returns (run: bool)
      requires Valid()
      modifies this
      ensures Valid() && cleanedUp && runs == 1
      ensures run == !old(cleanedUp)
      ensures runs == old(runs) + (if run then 1 else 0)
    {
      run := false;
      if !cleanedUp {
        run := true;
        runs := runs + 1;
        cleanedUp := true;
      }
    }
  }

  class GameEngine {
    /** `m_new_scenes`: added, not yet loaded. */
    var newScenes: seq<SceneId>
    /** `m_scenes`: loaded and ticking. */
    var scenes: seq<SceneId>
    /** `inputs` in `run`: what the next tick will see. */
    var inputs: InputState
    /** `previous_key_states` in `run`. */
    var previous: KeySet
    /** Every call into a scene so far, in order. */
    ghost var hooks: seq<Hook>
    /** Every call into the window's `close` so far, in order. */
    ghost var windowCalls: seq<WindowCall>

    /** The engine as constructed, with `run`'s inputs initialised to no
        keys (lines 158-161). */
    constructor ()
      ensures newScenes == [] && scenes == [] && hooks == [] && windowCalls == []
      ensures inputs == InputState({}, {}, {}) && previous == {}
    {
      newScenes := [];
      scenes := [];
      inputs := InputState({}, {}, {});
      previous := {};
      hooks := [];
      windowCalls := [];
    }

    /** `add_scene`: appended to the pending list. */
    method AddScene(s: SceneId)
      modifies this
      ensures newScenes == old(newScenes) + [s]
      ensures scenes == old(scenes) && inputs == old(inputs) && previous == old(previous)
      ensures hooks == old(hooks) && windowCalls == old(windowCalls)
    {
      newScenes := newScenes + [s];
    }

    /** `load_scenes`: every pending scene, in order, gets the logger and
        `on_load`, then moves to the end of the active list. */
    method LoadScenes()
      modifies this
      ensures scenes == old(scenes) + old(newScenes) && newScenes == []
      ensures hooks == old(hooks) + LoadHooks(old(newScenes))
      ensures inputs == old(inputs) && previous == old(previous) && windowCalls == old(windowCalls)
    {
      if |newScenes| > 0 {
        var pending := newScenes;
        for i := 0 to |pending|
          invariant scenes == old(scenes) + pending[..i]
          invariant hooks == old(hooks) + LoadHooks(pending[..i])
          invariant newScenes == pending && inputs == old(inputs) && previous == old(previous)
          invariant windowCalls == old(windowCalls)
        {
          assert pending[..i + 1][..i] == pending[..i];
          hooks := hooks + [SetLogger(pending[i]), OnLoad(pending[i])];
          scenes := scenes + [pending[i]];
        }
        assert pending[..|pending|] == pending;
        newScenes := [];
      }
    }

    /** `unload_scenes`: the stable partition keeps the scenes that are not
        done, in order; each done scene gets `on_unload` and is erased.
        `isDone` is what each scene's `is_done()` returns. */
    method UnloadScenes(isDone: SceneId -> bool)
      modifies this
      ensures scenes == Survivors(old(scenes), isDone)
      ensures hooks == old(hooks) + UnloadHooks(old(scenes), isDone)
      ensures newScenes == old(newScenes) && inputs == old(inputs) && previous == old(previous)
      ensures windowCalls == old(windowCalls)
    {
      var all := scenes;
      var kept := [];
      for i := 0 to |all|
        invariant kept == Survivors(all[..i], isDone)
        invariant hooks == old(hooks) + UnloadHooks(all[..i], isDone)
        invariant scenes == all && newScenes == old(newScenes) && inputs == old(inputs) && previous == old(previous)
        invariant windowCalls == old(windowCalls)
      {
        assert all[..i + 1][..i] == all[..i];
        if isDone(all[i]) {
          hooks := hooks + [OnUnload(all[i])];
        } else {
          kept := kept + [all[i]];
        }
      }
      assert all[..|all|] == all;
      scenes := kept;
    }

    /** `keep_alive`: when the window wants to close, every scene is asked
        through `on_close` (no short-circuit); if any refused, the window
        is told not to close. The loop goes on unless the window wants to
        close and nobody refused. `onClose` is what each scene's
        `on_close()` returns. */
    method KeepAlive(wantsToClose: bool, onClose: SceneId -> bool) returns (alive: bool)
      modifies this
      ensures alive == (!wantsToClose || Rejects(scenes, onClose))
      ensures hooks == old(hooks) + (if wantsToClose then CloseHooks(scenes) else [])
      ensures windowCalls == old(windowCalls) + (if wantsToClose && Rejects(scenes, onClose) then [Close(false)] else [])
      ensures scenes == old(scenes) && newScenes == old(newScenes) && inputs == old(inputs) && previous == old(previous)
    {
      var rejected := false;
      if wantsToClose {
        for i := 0 to |scenes|
          invariant scenes == old(scenes) && newScenes == old(newScenes) && inputs == old(inputs) && previous == old(previous)
          invariant rejected == Rejects(scenes[..i], onClose)
          invariant hooks == old(hooks) + CloseHooks(scenes[..i])
          invariant windowCalls == old(windowCalls)
        {
          assert forall j | 0 <= j < i :: scenes[..i + 1][j] == scenes[..i][j];
          assert scenes[..i + 1][i] == scenes[i];
          var accepted := onClose(scenes[i]);
          hooks := hooks + [OnClose(scenes[i])];
          rejected := !accepted || rejected;
        }
        assert scenes[..|scenes|] == scenes;
      }
      if wantsToClose && rejected {
        windowCalls := windowCalls + [Close(false)];
      }
      alive := !wantsToClose || rejected;
    }

    /** Reading `key_states()` into the inputs (lines 189-191). */
    method Sample(keys: KeySet)
      modifies this
      ensures inputs == Sampled(old(inputs), keys, previous)
      ensures scenes == old(scenes) && newScenes == old(newScenes) && previous == old(previous)
      ensures hooks == old(hooks) && windowCalls == old(windowCalls)
    {
      inputs := InputState(inputs.pressed + (keys - previous), inputs.released + (previous - keys), keys);
    }

    /** One pass of the `do ... while` over the time steps: every scene
        ticks with the current inputs, then the edges are reset so that a
        later pass does not see them again (lines 211-218). */
    method TickScenes()
      modifies this
      ensures hooks == old(hooks) + TickHooks(scenes, old(inputs))
      ensures inputs == Consumed(old(inputs))
      ensures scenes == old(scenes) && newScenes == old(newScenes) && previous == old(previous)
      ensures windowCalls == old(windowCalls)
    {
      for i := 0 to |scenes|
        invariant hooks == old(hooks) + TickHooks(scenes[..i], inputs)
        invariant inputs == old(inputs) && scenes == old(scenes) && newScenes == old(newScenes) && previous == old(previous)
        invariant windowCalls == old(windowCalls)
      {
        assert TickHooks(scenes[..i + 1], inputs) == TickHooks(scenes[..i], inputs) + [Ticked(scenes[i], inputs)];
        hooks := hooks + [Ticked(scenes[i], inputs)];
      }
      assert scenes[..|scenes|] == scenes;
      inputs := InputState({}, {}, inputs.held);
    }

    /** The time steps of one frame: `ticks` passes (at least one), then the
        held keys become the previous ones. Only the first pass sees the
        edges; the others see none. */
    method TickLoop(ticks: nat)
      requires ticks >= 1
      modifies this
      ensures hooks == old(hooks) + TickHooks(scenes, old(inputs)) + Repeat(TickHooks(scenes, Consumed(old(inputs))), ticks - 1)
      ensures inputs == Consumed(old(inputs)) && previous == inputs.held
      ensures scenes == old(scenes) && newScenes == old(newScenes) && windowCalls == old(windowCalls)
    {
      TickScenes();
      var n := 1;
      while n < ticks
        invariant 1 <= n <= ticks
        invariant hooks == old(hooks) + TickHooks(scenes, old(inputs)) + Repeat(TickHooks(scenes, Consumed(old(inputs))), n - 1)
        invariant inputs == Consumed(old(inputs))
        invariant scenes == old(scenes) && newScenes == old(newScenes) && previous == old(previous)
        invariant windowCalls == old(windowCalls)
      {
        TickScenes();
        n := n + 1;
      }
      previous := inputs.held;
    }

    /** The part of a frame after the loop condition: sample the keys, run
        `ticks` time steps (how many the clock allows; none leaves the edges
        to accumulate), unload the done scenes, and ask the window to close
        once no scene is left (lines 187-237). */
    method Advance(keys: KeySet, ticks: nat, isDone: SceneId -> bool)
      modifies this
      ensures newScenes == old(newScenes)
      ensures ticks == 0 ==>
        scenes == old(scenes) && inputs == Sampled(old(inputs), keys, old(previous)) && previous == old(previous)
      ensures ticks > 0 ==>
        && scenes == Survivors(old(scenes), isDone)
        && inputs == InputState({}, {}, keys) && previous == keys
      ensures windowCalls == old(windowCalls) + (if ticks > 0 && scenes == [] && newScenes == [] then [Close(true)] else [])
    {
      Sample(keys);
      if ticks > 0 {
        TickLoop(ticks);
        UnloadScenes(isDone);
        if scenes == [] && newScenes == [] {
          windowCalls := windowCalls + [Close(true)];
        }
      }
    }

    /** One iteration of `run`'s main loop with its condition: load the
        pending scenes, ask whether to keep going, and if so advance. */
    method Frame(wantsToClose: bool, onClose: SceneId -> bool, keys: KeySet, ticks: nat, isDone: SceneId -> bool)
      returns (alive: bool)
      modifies this
      ensures newScenes == []
      ensures alive == (!wantsToClose || Rejects(old(scenes) + old(newScenes), onClose))
      ensures !alive ==> scenes == old(scenes) + old(newScenes) && inputs == old(inputs) && previous == old(previous)
      ensures alive && ticks == 0 ==>
        scenes == old(scenes) + old(newScenes) && inputs == Sampled(old(inputs), keys, old(previous)) && previous == old(previous)
      ensures alive && ticks > 0 ==>
        scenes == Survivors(old(scenes) + old(newScenes), isDone) && inputs == InputState({}, {}, keys) && previous == keys
      ensures windowCalls == old(windowCalls)
        + (if wantsToClose && Rejects(old(scenes) + old(newScenes), onClose) then [Close(false)] else [])
        + (if alive && ticks > 0 && scenes == [] then [Close(true)] else [])
    {
      LoadScenes();
      alive := KeepAlive(wantsToClose, onClose);
      if alive {
        Advance(keys, ticks, isDone);
      }
    }

    /** The function `run` guards with `finally`: every active scene gets
        `on_unload` and the list is cleared (lines 144-150). */
    method ReleaseScenes()
      modifies this
      ensures scenes == [] && hooks == old(hooks) + UnloadHooks(old(scenes), _ => true)
      ensures newScenes == old(newScenes) && inputs == old(inputs) && previous == old(previous)
      ensures windowCalls == old(windowCalls)
    {
      UnloadScenes(_ => true);
      AllDoneLeavesNone(old(scenes));
    }

    /** `resources.cleanup()`, and the guard's destructor after it: the
        scenes are released by the first call only. */
    method Shutdown(guard: Finally)
      requires guard.Valid()
      modifies this, guard
      ensures guard.Valid() && guard.cleanedUp && guard.runs == 1
      ensures !old(guard.cleanedUp) ==> scenes == [] && hooks == old(hooks) + UnloadHooks(old(scenes), _ => true)
      ensures old(guard.cleanedUp) ==> scenes == old(scenes) && hooks == old(hooks)
      ensures newScenes == old(newScenes) && windowCalls == old(windowCalls)
    {
      var run := guard.Cleanup();
      if run {
        ReleaseScenes();
      }
      var again := guard.Cleanup();
      assert !again;
    }
  }

  /** When every scene answers that it is done, none survives. */
  lemma {:induction false} AllDoneLeavesNone(s: seq<SceneId>)
    ensures Survivors(s, _ => true) == []
    decreases |s|
  {
    if s != [] {
      AllDoneLeavesNone(s[..|s| - 1]);
    }
  }
}
