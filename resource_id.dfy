/** The reference-counted OpenGL handle `mope::gl::resource_id`
    (include/mope_game_engine/resource_id.hxx, src/resource_id.cxx). Copies
    share one heap-allocated use counter; the last one to go calls the
    release function on the id. A file-wide count of handles created but not
    yet released is kept for diagnostics. */
module ResourceHandle {
  import opened Wrappers

  /** `unsigned int`, the OpenGL object name. */
  type GLuint = x: int | 0 <= x < 0x1_0000_0000

  /** The identity of a `void (*)(unsigned int)` release function. */
  type ReleaseFn = nat

  /** One call `release(id)`. */
  datatype Release = Release(fn: ReleaseFn, id: GLuint)

  /** The file-wide state of src/resource_id.cxx: `OutstandingCount`, the
      number of handles constructed (ghost), and the release calls made so
      far. */
  class Globals {
    /** `OutstandingCount`. */
    var outstanding: int
    ghost var made: nat
    ghost var released: seq<Release>

    /** Every constructed handle is outstanding until its id is released. */
    ghost predicate Valid()
      reads this
    {
      outstanding == made - |released|
    }

    constructor ()
      ensures Valid()
      ensures outstanding == 0 && made == 0 && released == []
    {
      outstanding := 0;
      made := 0;
      released := [];
    }

    /** `outstanding_count()`: the handles constructed so far whose id has
        not been released. */
    function OutstandingCount(): (n: int)
      reads this
      ensures Valid() ==> n == made - |released|
      ensures Valid() ==> n <= made
    {
      outstanding
    }
  }

  /** The shared `long` use counter. `holders` are the handles that point to
      it; `deleted` records `delete m_use_count`. */
  class UseCount {
    var value: int
    ghost var holders: multiset<object>
    ghost var deleted: bool

    constructor (h: object)
      ensures value == 1 && holders == multiset{h} && !deleted
    {
      value := 1;
      holders := multiset{h};
      deleted := false;
    }

    /** Hands one share from `from` to `to`; the count is untouched. */
    method Rehold(from: object, to: object)
      requires from in holders
      modifies this
      ensures holders == old(holders) - multiset{from} + multiset{to}
      ensures |holders| == |old(holders)| && to in holders
      ensures value == old(value) && deleted == old(deleted)
    {
      holders := holders - multiset{from} + multiset{to};
    }
  }

  class ResourceId {
    /** `m_id`. */
    var id: GLuint
    /** `m_release`; `None` is a null function pointer. */
    var release: Option<ReleaseFn>
    /** `m_use_count`; `null` for an empty handle. */
    var useCount: UseCount?

    /** An empty handle has no id and no release function; a non-empty one
        is among its live counter's holders, and the counter counts them. */
    ghost predicate Valid()
      reads this, useCount
    {
      && (useCount == null ==> id == 0 && release == None)
      && (useCount != null ==>
            this in useCount.holders && useCount.value == |useCount.holders| && !useCount.deleted)
    }

    /** `resource_id()`: the empty handle. */
    constructor Default()
      ensures Valid() && id == 0 && release == None && useCount == null
      ensures !AsBool() && AsId() == 0
    {
      id := 0;
      release := None;
      useCount := null;
    }

    /** `resource_id(id, release)`: a new counter at 1, and one more
        outstanding handle, whatever the id and the function. */
    constructor Make(i: GLuint, r: Option<ReleaseFn>, g: Globals)
      modifies g
      ensures Valid() && id == i && release == r
      ensures useCount != null && fresh(useCount) && useCount.value == 1
      ensures g.outstanding == old(g.outstanding) + 1 && g.released == old(g.released)
      ensures g.made == old(g.made) + 1 && (old(g.Valid()) ==> g.Valid())
    {
      id := i;
      release := r;
      new;
      useCount := new UseCount(this);
      g.outstanding := g.outstanding + 1;
      g.made := g.made + 1;
    }

    /** `resource_id(resource_id const&)`: shares the counter and bumps it. */
    constructor Copy(that: ResourceId)
      requires that.Valid()
      modifies that.useCount
      ensures Valid() && that.Valid()
      ensures id == that.id && release == that.release && useCount == that.useCount
      ensures old(that.useCount) != null ==>
        && useCount.value == old(that.useCount.value) + 1
        && useCount.holders == old(that.useCount.holders) + multiset{this}
    {
      id := that.id;
      release := that.release;
      useCount := that.useCount;
      new;
      if useCount != null {
        useCount.value := useCount.value + 1;
        useCount.holders := useCount.holders + multiset{this};
      }
    }

    /** `resource_id(resource_id&&)`: starts empty and swaps, so the source
        is left empty. No use count changes. */
    constructor Move(that: ResourceId)
      requires that.Valid()
      modifies that, that.useCount
      ensures Valid() && that.Valid()
      ensures id == old(that.id) && release == old(that.release) && useCount == old(that.useCount)
      ensures that.id == 0 && that.release == None && that.useCount == null
      ensures old(that.useCount) != null ==> useCount.value == old(that.useCount.value)
    {
      id := 0;
      release := None;
      useCount := null;
      new;
      Swap(this, that);
    }

    /** `operator unsigned int`: the id; an empty handle converts to 0. */
    function AsId(): (i: GLuint)
      reads this, useCount
      ensures Valid() && useCount == null ==> i == 0
    {
      id
    }

    /** `operator bool`: whether the handle names an object. */
    function AsBool(): (b: bool)
      reads this, useCount
      ensures b <==> AsId() != 0
    {
      0 != id
    }

    /** `~resource_id()`: drops this handle's share. The last share frees the
        counter, and calls `release(id)` and lowers the outstanding count only
        when there is both an id and a function. */
    method Destroy(g: Globals)
      requires Valid()
      modifies useCount, g
      ensures useCount == old(useCount)
      ensures g.made == old(g.made) && (old(g.Valid()) ==> g.Valid())
      ensures useCount == null ==> g.outstanding == old(g.outstanding) && g.released == old(g.released)
      ensures useCount != null ==>
        && useCount.value == old(useCount.value) - 1
        && useCount.holders == old(useCount.holders) - multiset{this}
        && useCount.value == |useCount.holders|
        && (useCount.deleted <==> useCount.value == 0)
      ensures useCount != null && useCount.value == 0 && id != 0 && release.Some? ==>
        g.outstanding == old(g.outstanding) - 1 && g.released == old(g.released) + [Release(release.value, id)]
      ensures !(useCount != null && useCount.value == 0 && id != 0 && release.Some?) ==>
        g.outstanding == old(g.outstanding) && g.released == old(g.released)
    {
      if useCount != null {
        useCount.value := useCount.value - 1;
        useCount.holders := useCount.holders - multiset{this};
        if 0 == useCount.value {
          if 0 != id && release.Some? {
            g.released := g.released + [Release(release.value, id)];
            g.outstanding := g.outstanding - 1;
          }
          useCount.deleted := true;
        }
      }
    }

    /** `operator=(resource_id that)`: copy-and-swap. The caller has built
        `that` (by copy or move); this handle takes its contents, and `that`,
        now holding the old contents, is destroyed on return. */
    method Assign(that: ResourceId, g: Globals)
      requires Valid() && that.Valid() && this != that
      modifies this, that, useCount, that.useCount, g
      ensures Valid()
      ensures id == old(that.id) && release == old(that.release) && useCount == old(that.useCount)
      ensures that.id == old(id) && that.release == old(release) && that.useCount == old(useCount)
      ensures old(useCount) != null && old(useCount) != old(that.useCount) ==>
        old(useCount).value == old(useCount.value) - 1
      ensures old(useCount) != null && old(useCount) == old(that.useCount) ==>
        old(useCount).value == old(useCount.value) - 1 && useCount.value >= 1
      ensures useCount != null && useCount != old(useCount) ==> useCount.value == old(that.useCount.value)
      ensures g.made == old(g.made) && (old(g.Valid()) ==> g.Valid())
      // The old contents are released exactly when this handle held their last share.
      ensures old(useCount) != null && old(useCount) != old(that.useCount) && old(useCount.value) == 1
              && old(id) != 0 && old(release).Some? ==>
        g.outstanding == old(g.outstanding) - 1 && g.released == old(g.released) + [Release(old(release).value, old(id))]
      ensures !(old(useCount) != null && old(useCount) != old(that.useCount) && old(useCount.value) == 1
                && old(id) != 0 && old(release).Some?) ==>
        g.outstanding == old(g.outstanding) && g.released == old(g.released)
    {
      Swap(this, that);
      that.Destroy(g);
    }

    /** `swap(a, b)`: exchanges id, release function and counter. No use
        count changes; each counter's holder moves to the other handle. */
    static method Swap(a: ResourceId, b: ResourceId)
      requires a.Valid() && b.Valid()
      modifies a, b, a.useCount, b.useCount
      ensures a.Valid() && b.Valid()
      ensures a.id == old(b.id) && a.release == old(b.release) && a.useCount == old(b.useCount)
      ensures b.id == old(a.id) && b.release == old(a.release) && b.useCount == old(a.useCount)
      ensures old(a.useCount) != null ==> old(a.useCount).value == old(a.useCount.value)
      ensures old(b.useCount) != null ==> old(b.useCount).value == old(b.useCount.value)
    {
      var ca, cb := a.useCount, b.useCount;
      a.id, b.id := b.id, a.id;
      a.release, b.release := b.release, a.release;
      a.useCount, b.useCount := cb, ca;
      if ca != cb {
        if ca != null {
          ca.Rehold(a, b);
        }
        if cb != null {
          cb.Rehold(b, a);
        }
      }
    }
  }

  /** Swapping twice restores both handles. */
  method SwapTwice(a: ResourceId, b: ResourceId)
    requires a.Valid() && b.Valid()
    modifies a, b, a.useCount, b.useCount
    ensures a.Valid() && b.Valid()
    ensures a.id == old(a.id) && a.release == old(a.release) && a.useCount == old(a.useCount)
    ensures b.id == old(b.id) && b.release == old(b.release) && b.useCount == old(b.useCount)
    ensures old(a.useCount) != null ==> a.useCount.value == old(a.useCount.value)
  {
    ResourceId.Swap(a, b);
    ResourceId.Swap(a, b);
  }

  /** A handle made and destroyed with an id and a release function leaves
      the outstanding count as it was and releases the id once. */
  method MakeThenDestroy(i: GLuint, fn: ReleaseFn, g: Globals)
    requires i != 0
    modifies g
    ensures g.outstanding == old(g.outstanding)
    ensures g.released == old(g.released) + [Release(fn, i)]
    ensures g.made == old(g.made) + 1 && (old(g.Valid()) ==> g.Valid())
  {
    var h := new ResourceId.Make(i, Some(fn), g);
    h.Destroy(g);
  }

  /** The constructor counts every handle it makes, but the destructor
      uncounts only those with an id and a function: a handle made with id
      0 stays outstanding after it is gone, and nothing is released. */
  method ZeroIdStaysOutstanding(r: Option<ReleaseFn>, g: Globals)
    modifies g
    ensures g.outstanding == old(g.outstanding) + 1
    ensures g.released == old(g.released)
    ensures g.made == old(g.made) + 1 && (old(g.Valid()) ==> g.Valid())
  {
    var h := new ResourceId.Make(0, r, g);
    h.Destroy(g);
  }
}
