/** A scene, `mope::game_scene` (include/mope_game_engine/game_scene.hxx and
    src/game_scene.cxx): it hands out entity ids, owns the component registry,
    keeps the systems subscribed to each event type and drains the event
    queue once per tick. */
module Scene {
  import opened Wrappers
  import opened Components
  import opened ComponentRegistry
  import opened Query
  import opened Events

  /** The type tag of `tick_event`, which `tick` seeds the queue with. */
  const TickTag: EventTag := 0

  /** A game system subscribed to one event type. Its `operator()` is code
      of the game, not of the engine; the model keeps what the engine can
      observe of it: an identity, and the events it pushes back into the
      scene when called with an event. */
  datatype System<!P> = System(id: nat, react: Event<P> -> seq<Event<P>>)

  /** One invocation of a system on an event. */
  datatype Call<P> = Call(system: nat, event: Event<P>)

  /** `m_game_systems[tag]`, reading a missing entry as the empty list that
      `operator[]` would insert. */
  function HandlersIn<P>(systems: map<EventTag, seq<System<P>>>, tag: EventTag): (hs: seq<System<P>>)
    ensures tag in systems ==> hs == systems[tag]
    ensures tag !in systems ==> hs == []
  {
    if tag in systems then systems[tag] else []
  }

  /** The events the handlers `hs` push, in order, when each is called on
      `ev` in turn. */
  function Reactions<P>(hs: seq<System<P>>, ev: Event<P>): (r: seq<Event<P>>)
    decreases |hs|
  {
    if hs == [] then [] else Reactions(hs[..|hs| - 1], ev) + hs[|hs| - 1].react(ev)
  }

  /** The invocations of `hs` on `ev`: each handler once, in list order. */
  function HandlerCalls<P>(hs: seq<System<P>>, ev: Event<P>): (c: seq<Call<P>>)
    ensures |c| == |hs|
    ensures forall j | 0 <= j < |hs| :: c[j] == Call(hs[j].id, ev)
  {
    seq(|hs|, j requires 0 <= j < |hs| => Call(hs[j].id, ev))
  }

  /** The events spawned by processing each event of `s` in order. */
  function Spawned<P>(systems: map<EventTag, seq<System<P>>>, s: seq<Event<P>>): (r: seq<Event<P>>)
    decreases |s|
  {
    if s == [] then []
    else Spawned(systems, s[..|s| - 1]) + Reactions(HandlersIn(systems, s[|s| - 1].tag), s[|s| - 1])
  }

  /** The invocations made while processing each event of `s` in order. */
  function CallsOf<P>(systems: map<EventTag, seq<System<P>>>, s: seq<Event<P>>): (r: seq<Call<P>>)
    decreases |s|
  {
    if s == [] then []
    else CallsOf(systems, s[..|s| - 1]) + HandlerCalls(HandlersIn(systems, s[|s| - 1].tag), s[|s| - 1])
  }

  /** What a prefix of the queue spawns, and the calls it makes, come first:
      processing later events only appends. */
  lemma {:induction false} SpawnedPrefix<P>(systems: map<EventTag, seq<System<P>>>, s: seq<Event<P>>, i: nat)
    requires i <= |s|
    ensures Spawned(systems, s[..i]) <= Spawned(systems, s)
    ensures CallsOf(systems, s[..i]) <= CallsOf(systems, s)
    decreases |s| - i
  {
    if i < |s| {
      SpawnedPrefix(systems, s, i + 1);
      assert s[..i + 1][..i] == s[..i];
      if i + 1 == |s| {
        assert s[..i + 1] == s;
      }
    } else {
      assert s[..i] == s;
    }
  }

  /** Every event any subscribed system pushes has a strictly smaller
      potential than the event it reacts to. The source's drain loop runs
      until the queue stops growing; this is a sufficient condition for that,
      stated over every event of a subscribed type, reachable or not. */
  ghost predicate Ranked<P(!new)>(systems: map<EventTag, seq<System<P>>>, potential: Event<P> -> nat)
  {
    forall t, j, ev: Event<P>, r | t in systems && 0 <= j < |systems[t]| && ev.tag == t && r in systems[t][j].react(ev) ::
      potential(r) < potential(ev)
  }

  /** Every event pushed in reaction to `ev` comes from one of the handlers. */
  lemma {:induction false} ReactionsFrom<P>(hs: seq<System<P>>, ev: Event<P>, x: Event<P>)
    requires x in Reactions(hs, ev)
    ensures exists j :: 0 <= j < |hs| && x in hs[j].react(ev)
    decreases |hs|
  {
    var n := |hs| - 1;
    if x in Reactions(hs[..n], ev) {
      ReactionsFrom(hs[..n], ev, x);
      var j :| 0 <= j < n && x in hs[..n][j].react(ev);
      assert hs[..n][j] == hs[j];
    } else {
      assert x in hs[n].react(ev);
    }
  }

  /** Under a ranking, every reaction has a smaller potential. */
  lemma ReactionsRanked<P(!new)>(systems: map<EventTag, seq<System<P>>>, potential: Event<P> -> nat, ev: Event<P>)
    requires Ranked(systems, potential)
    ensures forall x | x in Reactions(HandlersIn(systems, ev.tag), ev) :: potential(x) < potential(ev)
  {
    forall x | x in Reactions(HandlersIn(systems, ev.tag), ev)
      ensures potential(x) < potential(ev)
    {
      ReactionsFrom(HandlersIn(systems, ev.tag), ev, x);
    }
  }

  /** How many events processing `ev` takes: itself, and everything its
      reactions take in turn. */
  ghost function Weight<P(!new)>(systems: map<EventTag, seq<System<P>>>, potential: Event<P> -> nat, ev: Event<P>): (w: nat)
    requires Ranked(systems, potential)
    ensures w >= 1
    decreases potential(ev), 1
  {
    ReactionsRanked(systems, potential, ev);
    1 + WeightBelow(systems, potential, potential(ev), Reactions(HandlersIn(systems, ev.tag), ev))
  }

  /** The summed weights of events all of whose potentials are below `b`. */
  ghost function WeightBelow<P(!new)>(systems: map<EventTag, seq<System<P>>>, potential: Event<P> -> nat, b: nat, s: seq<Event<P>>): (w: nat)
    requires Ranked(systems, potential)
    requires forall x | x in s :: potential(x) < b
    ensures s != [] ==> w >= 1
    decreases b, 0, |s|
  {
    if s == [] then 0
    else WeightBelow(systems, potential, b, s[..|s| - 1]) + Weight(systems, potential, s[|s| - 1])
  }

  /** The summed weights of a queue: how many events draining it takes. */
  ghost function QueueWeight<P(!new)>(systems: map<EventTag, seq<System<P>>>, potential: Event<P> -> nat, s: seq<Event<P>>): (w: nat)
    requires Ranked(systems, potential)
    ensures w >= |s|
    decreases |s|
  {
    if s == [] then 0
    else QueueWeight(systems, potential, s[..|s| - 1]) + Weight(systems, potential, s[|s| - 1])
  }

  /** Any bound on the potentials gives the same sum. */
  lemma {:induction false} WeightBelowIsQueueWeight<P(!new)>(systems: map<EventTag, seq<System<P>>>, potential: Event<P> -> nat, b: nat, s: seq<Event<P>>)
    requires Ranked(systems, potential)
    requires forall x | x in s :: potential(x) < b
    ensures WeightBelow(systems, potential, b, s) == QueueWeight(systems, potential, s)
    decreases |s|
  {
    if s != [] {
      WeightBelowIsQueueWeight(systems, potential, b, s[..|s| - 1]);
    }
  }

  /** Queue weight is additive. */
  lemma {:induction false} QueueWeightAppend<P(!new)>(systems: map<EventTag, seq<System<P>>>, potential: Event<P> -> nat, a: seq<Event<P>>, b: seq<Event<P>>)
    requires Ranked(systems, potential)
    ensures QueueWeight(systems, potential, a + b) == QueueWeight(systems, potential, a) + QueueWeight(systems, potential, b)
    decreases |b|
  {
    if b == [] {
      assert a + b == a;
    } else {
      var n := |b| - 1;
      assert (a + b)[..|a + b| - 1] == a + b[..n];
      assert (a + b)[|a + b| - 1] == b[n];
      QueueWeightAppend(systems, potential, a, b[..n]);
    }
  }

  /** Processing the head of a queue replaces its weight by that of its
      reactions: the queue's weight drops by exactly one. */
  lemma QueueWeightStep<P(!new)>(systems: map<EventTag, seq<System<P>>>, potential: Event<P> -> nat, ev: Event<P>, rest: seq<Event<P>>)
    requires Ranked(systems, potential)
    ensures QueueWeight(systems, potential, [ev] + rest)
         == 1 + QueueWeight(systems, potential, rest + Reactions(HandlersIn(systems, ev.tag), ev))
  {
    var r := Reactions(HandlersIn(systems, ev.tag), ev);
    ReactionsRanked(systems, potential, ev);
    WeightBelowIsQueueWeight(systems, potential, potential(ev), r);
    QueueWeightAppend(systems, potential, [ev], rest);
    QueueWeightAppend(systems, potential, rest, r);
    assert [ev][..0] == [];
    assert QueueWeight(systems, potential, [ev]) == Weight(systems, potential, ev);
  }

  /** Processing one more event extends the spawned events by its
      reactions. */
  lemma SpawnedStep<P>(systems: map<EventTag, seq<System<P>>>, q: seq<Event<P>>, i: nat)
    requires i < |q|
    ensures Spawned(systems, q[..i + 1]) == Spawned(systems, q[..i]) + Reactions(HandlersIn(systems, q[i].tag), q[i])
    ensures CallsOf(systems, q[..i + 1]) == CallsOf(systems, q[..i]) + HandlerCalls(HandlersIn(systems, q[i].tag), q[i])
  {
    assert q[..i + 1][..i] == q[..i];
  }

  /** One iteration of the drain loop keeps the queue's shape: what is
      queued is the seed followed by what the processed events spawned. */
  lemma DrainStep<P>(systems: map<EventTag, seq<System<P>>>, q0: seq<Event<P>>, before: seq<Event<P>>, after: seq<Event<P>>, i: nat)
    requires i < |before| && before == q0 + Spawned(systems, before[..i])
    requires after == before + Reactions(HandlersIn(systems, before[i].tag), before[i])
    ensures i + 1 <= |after| && after == q0 + Spawned(systems, after[..i + 1])
    ensures CallsOf(systems, after[..i + 1]) == CallsOf(systems, before[..i]) + HandlerCalls(HandlersIn(systems, before[i].tag), before[i])
  {
    var r := Reactions(HandlersIn(systems, before[i].tag), before[i]);
    var sp := Spawned(systems, before[..i]);
    TakeDropAppend(before, r, i);
    SpawnedStep(systems, before, i);
    assert Spawned(systems, after[..i + 1]) == sp + r;
    Associative(q0, sp, r);
  }

  /** One iteration of the drain loop lowers the weight still to be drained
      by exactly one. */
  lemma DrainWeightStep<P(!new)>(systems: map<EventTag, seq<System<P>>>, potential: Event<P> -> nat,
                                 before: seq<Event<P>>, after: seq<Event<P>>, i: nat)
    requires Ranked(systems, potential) && i < |before|
    requires after == before + Reactions(HandlersIn(systems, before[i].tag), before[i])
    ensures QueueWeight(systems, potential, before[i..]) == 1 + QueueWeight(systems, potential, after[i + 1..])
  {
    var ev, r := before[i], Reactions(HandlersIn(systems, before[i].tag), before[i]);
    TakeDropAppend(before, r, i);
    QueueWeightStep(systems, potential, ev, before[i + 1..]);
  }

  /** Once the drain loop has run off the end of the queue, the queue is the
      seed followed by everything it spawned, and its length is the seed's
      weight. */
  lemma DrainFinish<P(!new)>(systems: map<EventTag, seq<System<P>>>, potential: Event<P> -> nat,
                             q0: seq<Event<P>>, c0: seq<Call<P>>, q: seq<Event<P>>, c: seq<Call<P>>)
    requires Ranked(systems, potential)
    requires q == q0 + Spawned(systems, q[..|q|]) && c == c0 + CallsOf(systems, q[..|q|])
    requires |q| + QueueWeight(systems, potential, q[|q|..]) == QueueWeight(systems, potential, q0)
    ensures q == q0 + Spawned(systems, q) && c == c0 + CallsOf(systems, q)
    ensures |q| == QueueWeight(systems, potential, q0)
  {
    assert q[..|q|] == q && q[|q|..] == [];
  }

  /** Concatenation is associative. */
  lemma Associative<T>(a: seq<T>, b: seq<T>, c: seq<T>)
    ensures (a + b) + c == a + (b + c)
  {
  }

  /** Slicing a concatenation whose first part is longer than the cut. */
  lemma TakeDropAppend<T>(a: seq<T>, b: seq<T>, i: nat)
    requires i < |a|
    ensures (a + b)[..i + 1] == a[..i + 1]
    ensures (a + b)[i + 1..] == a[i + 1..] + b
    ensures a[i..] == [a[i]] + a[i + 1..]
  {
  }

  /** The id `create_entity` hands out as the `n`-th, counting from 1:
      `m_last_entity` is a 64-bit unsigned counter and wraps. */
  function NthEntity(n: nat): (e: EntityId)
    ensures 0 < n < EntityIdLimit ==> e == n && e != NoEntity
    ensures n == EntityIdLimit ==> e == NoEntity
  {
    n % EntityIdLimit
  }

  /** The ids of the first 2^64 - 1 calls are distinct, strictly increasing
      and never the reserved `NoEntity`. */
  lemma EntitiesIncrease(a: nat, b: nat)
    requires 0 < a < b < EntityIdLimit
    ensures NoEntity < NthEntity(a) < NthEntity(b)
  {
  }

  class GameScene<V, P(!new)> {
    /** `m_last_entity`: the last id handed out, 0 before the first. */
    var lastEntity: EntityId
    /** How many ids have been handed out. */
    ghost var created: nat
    /** `m_game_systems`: the systems subscribed to each event type, in
        registration order. */
    var systems: map<EventTag, seq<System<P>>>
    /** `m_event_pool`. */
    var pool: EventPool<P>
    /** The component registry the scene derives from. */
    var manager: ComponentManager<V>
    /** `m_done`. */
    var done: bool
    /** Every handler invocation so far, in order. */
    ghost var calls: seq<Call<P>>

    ghost predicate Valid()
      reads this, manager, manager.owner.Keys
    {
      && manager.Valid()
      && this !in manager.owner && pool !in manager.owner
      && lastEntity == NthEntity(created)
    }

    constructor ()
      ensures Valid() && fresh(pool) && fresh(manager)
      ensures lastEntity == NoEntity && created == 0 && !IsDone()
      ensures systems == map[] && pool.events == [] && calls == []
      ensures manager.entityStores == map[] && manager.singletonStores == map[]
    {
      lastEntity := 0;
      created := 0;
      systems := map[];
      pool := new EventPool();
      manager := new ComponentManager();
      done := false;
      calls := [];
    }

    /** `set_done`. */
    method SetDone(d: bool)
      modifies this
      ensures IsDone() == d
      ensures lastEntity == old(lastEntity) && created == old(created) && systems == old(systems)
      ensures pool == old(pool) && manager == old(manager) && calls == old(calls)
    {
      done := d;
    }

    /** `is_done`. */
    function IsDone(): (d: bool)
      reads this
      ensures d == done
    {
      done
    }

    /** `create_entity`: pre-increments the counter and returns it, so the
        ids run 1, 2, 3, ... and 0 stays free until the counter wraps. */
    method CreateEntity() returns (e: EntityId)
      requires Valid()
      modifies this
      ensures Valid() && created == old(created) + 1
      ensures e == lastEntity == NthEntity(created)
      ensures created < EntityIdLimit ==> e == old(lastEntity) + 1 && e != NoEntity
      ensures systems == old(systems) && pool == old(pool) && manager == old(manager)
      ensures done == old(done) && calls == old(calls)
    {
      lastEntity := (lastEntity + 1) % EntityIdLimit;
      created := created + 1;
      e := lastEntity;
    }

    /** `destroy_entity`: `remove(e)` on every entity-component storage. */
    method DestroyEntity(e: EntityId)
      requires Valid()
      modifies manager.owner.Keys
      ensures Valid()
      ensures forall k: TypeKey | k.Kind().Some? :: manager.ViewAt(k) == RemovedFrom(old(manager.ViewAt(k)), e)
    {
      manager.RemoveEntity(e);
    }

    /** `add_game_system(unique_ptr<System>)`: appends to the list of the
        system's event type. */
    method AddGameSystem(tag: EventTag, s: System<P>)
      modifies this
      ensures systems == old(systems)[tag := HandlersIn(old(systems), tag) + [s]]
      ensures forall t | t != tag :: HandlersIn(systems, t) == HandlersIn(old(systems), t)
      ensures lastEntity == old(lastEntity) && created == old(created) && pool == old(pool)
      ensures manager == old(manager) && done == old(done) && calls == old(calls)
    {
      systems := systems[tag := HandlersIn(systems, tag) + [s]];
    }

    /** `add_game_system<Event>(F&& f)`: wraps the invocable in a proxy
        system and registers that. */
    method AddInvocable(tag: EventTag, id: nat, f: Event<P> -> seq<Event<P>>)
      modifies this
      ensures systems == old(systems)[tag := HandlersIn(old(systems), tag) + [System(id, f)]]
      ensures lastEntity == old(lastEntity) && created == old(created) && pool == old(pool)
      ensures manager == old(manager) && done == old(done) && calls == old(calls)
    {
      AddGameSystem(tag, System(id, f));
    }

    /** `push_event`: the event goes to the back of the queue. */
    method PushEvent(ev: Event<P>)
      modifies pool
      ensures pool.events == old(pool.events) + [ev]
    {
      pool.Store(ev);
    }

    /** `emplace_event<Event>(args...)`: an event of type `tag` built from
        `payload` goes to the back of the queue. */
    method EmplaceEvent(tag: EventTag, payload: P)
      modifies pool
      ensures pool.events == old(pool.events) + [Event(tag, payload)]
      ensures pool.events[|pool.events| - 1].tag == tag
    {
      pool.Store(Event(tag, payload));
    }

    /** One call `system(scene, event)`: recorded, and its events pushed in
        order. */
    method Invoke(s: System<P>, ev: Event<P>)
      modifies this, pool
      ensures pool == old(pool)
      ensures pool.events == old(pool.events) + s.react(ev)
      ensures calls == old(calls) + [Call(s.id, ev)]
      ensures lastEntity == old(lastEntity) && created == old(created) && systems == old(systems)
      ensures manager == old(manager) && done == old(done)
    {
      calls := calls + [Call(s.id, ev)];
      var out := s.react(ev);
      for j := 0 to |out|
        invariant pool == old(pool)
        invariant pool.events == old(pool.events) + out[..j]
        invariant calls == old(calls) + [Call(s.id, ev)]
        invariant lastEntity == old(lastEntity) && created == old(created) && systems == old(systems)
        invariant manager == old(manager) && done == old(done)
      {
        assert out[..j + 1] == out[..j] + [out[j]];
        PushEvent(out[j]);
      }
      assert out[..|out|] == out;
    }

    /** `event_pool::process_event<Event>`: looks up the event type's list
        (inserting an empty one if there is none) and calls each system in
        it once, in registration order. */
    method ProcessEvent(ev: Event<P>)
      modifies this, pool
      ensures pool == old(pool)
      ensures systems == if ev.tag in old(systems) then old(systems) else old(systems)[ev.tag := []]
      ensures pool.events == old(pool.events) + Reactions(HandlersIn(old(systems), ev.tag), ev)
      ensures calls == old(calls) + HandlerCalls(HandlersIn(old(systems), ev.tag), ev)
      ensures lastEntity == old(lastEntity) && created == old(created)
      ensures manager == old(manager) && done == old(done)
    {
      if ev.tag !in systems {
        systems := systems[ev.tag := []];
      }
      var hs := systems[ev.tag];
      for i := 0 to |hs|
        invariant pool == old(pool) && systems == if ev.tag in old(systems) then old(systems) else old(systems)[ev.tag := []]
        invariant pool.events == old(pool.events) + Reactions(hs[..i], ev)
        invariant calls == old(calls) + HandlerCalls(hs[..i], ev)
        invariant lastEntity == old(lastEntity) && created == old(created)
        invariant manager == old(manager) && done == old(done)
      {
        assert hs[..i + 1][..i] == hs[..i];
        assert HandlerCalls(hs[..i + 1], ev) == HandlerCalls(hs[..i], ev) + [Call(hs[i].id, ev)];
        Invoke(hs[i], ev);
      }
      assert hs[..|hs|] == hs;
    }

    /** What the drain loop keeps after processing `i` events of a queue
        seeded with `q0`, with the systems `h0` subscribed and `c0` the
        invocations before it started. */
    ghost predicate Draining(h0: map<EventTag, seq<System<P>>>, potential: Event<P> -> nat,
                             q0: seq<Event<P>>, c0: seq<Call<P>>, i: nat)
      reads this, pool
    {
      && Ranked(h0, potential) && i <= |pool.events|
      && (forall t :: HandlersIn(systems, t) == HandlersIn(h0, t))
      && pool.events == q0 + Spawned(h0, pool.events[..i])
      && calls == c0 + CallsOf(h0, pool.events[..i])
      && i + QueueWeight(h0, potential, pool.events[i..]) == QueueWeight(h0, potential, q0)
    }

    /** One iteration of the drain loop: the `i`-th event is copied out and
        processed. */
    method DrainOne(i: nat, ghost h0: map<EventTag, seq<System<P>>>, ghost potential: Event<P> -> nat,
                    ghost q0: seq<Event<P>>, ghost c0: seq<Call<P>>)
      requires Draining(h0, potential, q0, c0, i) && i < |pool.events|
      modifies this, pool
      ensures pool == old(pool) && Draining(h0, potential, q0, c0, i + 1)
      ensures QueueWeight(h0, potential, pool.events[i + 1..]) < old(QueueWeight(h0, potential, pool.events[i..]))
      ensures lastEntity == old(lastEntity) && created == old(created)
      ensures manager == old(manager) && done == old(done)
    {
      ghost var before := pool.events;
      var ev := pool.events[i];
      ghost var hs := HandlersIn(systems, ev.tag);
      assert hs == HandlersIn(h0, ev.tag);
      ProcessEvent(ev);
      DrainStep(h0, q0, before, pool.events, i);
      DrainWeightStep(h0, potential, before, pool.events, i);
      Associative(c0, CallsOf(h0, before[..i]), HandlerCalls(hs, ev));
    }

    /** The drain loop of `tick`: processes the queue by index while it
        grows. Each event is processed once, in queue order, and every event
        its systems push is processed after it. `processed` is the queue as
        drained; it is left in the pool. */
    method Drain(ghost potential: Event<P> -> nat) returns (ghost processed: seq<Event<P>>)
      requires Ranked(systems, potential)
      modifies this, pool
      ensures pool == old(pool) && pool.events == processed
      ensures processed == old(pool.events) + Spawned(old(systems), processed)
      ensures calls == old(calls) + CallsOf(old(systems), processed)
      ensures |processed| == QueueWeight(old(systems), potential, old(pool.events))
      ensures forall t :: HandlersIn(systems, t) == HandlersIn(old(systems), t)
      ensures lastEntity == old(lastEntity) && created == old(created)
      ensures manager == old(manager) && done == old(done)
    {
      ghost var h0, q0 := systems, pool.events;
      assert pool.events[..0] == [] && pool.events[0..] == q0;
      DrainFrom(0, h0, potential, q0, calls);
      processed := pool.events;
      DrainFinish(h0, potential, q0, old(calls), processed, calls);
    }

    /** The loop itself, from the `i`-th event on: it runs off the end of
        the queue with the loop's invariant intact. */
    method DrainFrom(i0: nat, ghost h0: map<EventTag, seq<System<P>>>, ghost potential: Event<P> -> nat,
                     ghost q0: seq<Event<P>>, ghost c0: seq<Call<P>>)
      requires Draining(h0, potential, q0, c0, i0)
      modifies this, pool
      ensures pool == old(pool) && Draining(h0, potential, q0, c0, |pool.events|)
      ensures lastEntity == old(lastEntity) && created == old(created)
      ensures manager == old(manager) && done == old(done)
    {
      var i: nat := i0;
      ghost var l0, n0, m0, d0 := lastEntity, created, manager, done;
      while i < |pool.events|
        invariant pool == old(pool)
        // The queue is the seed plus what the first i events spawned, every call so far
        // came from those events, and i plus the remaining weight is the seed's weight.
        invariant Draining(h0, potential, q0, c0, i) == true
        invariant lastEntity == l0 && created == n0 && manager == m0 && done == d0
        decreases QueueWeight(h0, potential, pool.events[i..])
      {
        DrainOne(i, h0, potential, q0, c0);
        i := i + 1;
      }
    }

    /** `tick`: seeds the queue with a tick event, drains it and clears it.
        Events queued before the tick are processed first, then the tick
        event, then what they spawn. */
    method Tick(tickPayload: P, ghost potential: Event<P> -> nat) returns (ghost processed: seq<Event<P>>)
      requires Ranked(systems, potential)
      modifies this, pool
      ensures pool == old(pool) && pool.events == []
      ensures |processed| > |old(pool.events)|
      ensures processed[..|old(pool.events)| + 1] == old(pool.events) + [Event(TickTag, tickPayload)]
      ensures processed == old(pool.events) + [Event(TickTag, tickPayload)] + Spawned(old(systems), processed)
      ensures calls == old(calls) + CallsOf(old(systems), processed)
      ensures |processed| == QueueWeight(old(systems), potential, old(pool.events) + [Event(TickTag, tickPayload)])
      ensures forall t :: HandlersIn(systems, t) == HandlersIn(old(systems), t)
      ensures lastEntity == old(lastEntity) && created == old(created)
      ensures manager == old(manager) && done == old(done)
    {
      EmplaceEvent(TickTag, tickPayload);
      processed := Drain(potential);
      pool.Clear();
    }

    /** The tables the registry currently holds for `keys`. */
    ghost function TablesAt(keys: seq<TypeKey>): (ts: seq<Table<V>>)
      reads this, manager, manager.owner.Keys
      requires Valid() && forall j | 0 <= j < |keys| :: keys[j].Kind().Some?
      ensures |ts| == |keys| && ExtrasWellFormed(ts)
      ensures forall j | 0 <= j < |keys| :: ts[j] == Table(keys[j], manager.RowsAt(keys[j]))
      decreases |keys|
    {
      if keys == [] then []
      else TablesAt(keys[..|keys| - 1]) + [Table(keys[|keys| - 1], manager.RowsAt(keys[|keys| - 1]))]
    }

    /** `query<C...>()`: the gather of the primary type's rows with the
        extras, over this scene's storages. */
    method Query(primary: TypeKey, extras: seq<TypeKey>) returns (r: seq<Val<V>>)
      requires Valid() && primary.Kind().Some? && forall j | 0 <= j < |extras| :: extras[j].Kind().Some?
      requires primary.Kind() == Some(SingletonCategory) ==>
        forall j | 0 <= j < |extras| :: extras[j].Kind() == Some(SingletonCategory)
      modifies manager
      ensures Valid() && fresh(manager.owner.Keys - old(manager.owner.Keys))
      ensures r == QueryComponents(Table(primary, manager.RowsAt(primary)), TablesAt(extras))
      ensures forall k: TypeKey | k.Kind().Some? :: manager.ViewAt(k) == old(manager.ViewAt(k))
    {
      var t := TableOf(manager, primary);
      var ts: seq<Table<V>> := [];
      for j := 0 to |extras|
        invariant Valid() && fresh(manager.owner.Keys - old(manager.owner.Keys))
        invariant t == Table(primary, manager.RowsAt(primary)) && t.WellFormed()
        invariant ts == TablesAt(extras[..j])
        invariant forall k: TypeKey | k.Kind().Some? :: manager.ViewAt(k) == old(manager.ViewAt(k))
      {
        var x := TableOf(manager, extras[j]);
        assert extras[..j + 1][..j] == extras[..j];
        ts := ts + [x];
      }
      assert extras[..|extras|] == extras;
      r := QueryComponents(t, ts);
    }
  }
}
