/** The three storage specialisations of `detail::component_storage`
    (include/mope_game_engine/component_manager.hxx, lines 41-243). */
module ComponentStorage {
  import opened Wrappers
  import opened Components
  import opened IterableBox

  /** The singleton slot's variant: empty, a value it owns, or a pointer to
      data owned by someone else. */
  datatype Slot<V> = Empty | Owned(value: V) | External(ptr: Ptr<V>)

  /** The value `get()` hands out for a slot. */
  function SlotPointer<V>(s: Slot<V>): Ptr<V>
  {
    match s
    case Empty => Null
    case Owned(v) => Ref(v)
    case External(p) => p
  }

  /** Storage of one singleton component type. */
  class SingletonStorage<V> {
    var data: Slot<V>

    constructor ()
      ensures data == Empty
    {
      data := Empty;
    }

    /** `add_or_set(T&&)`: the slot now owns `v`, whatever it held before. */
    method AddOrSet(v: V)
      modifies this
      ensures data == Owned(v)
      ensures Get() == Ref(v)
    {
      data := Owned(v);
    }

    /** `add_or_set(Component*)`: the slot now refers to external data. */
    method AddOrSetExternal(p: Ptr<V>)
      modifies this
      ensures data == External(p)
      ensures Get() == p
    {
      data := External(p);
    }

    /** `remove()`: the slot is empty again. */
    method Remove()
      modifies this
      ensures data == Empty
      ensures Get() == Null
    {
      data := Empty;
    }

    /** `get()`: null when empty (or when the external pointer is null),
        otherwise the held value. */
    function Get(): (p: Ptr<V>)
      reads this
      ensures p.Null? <==> data.Empty? || data == External(Null)
      ensures data.Owned? ==> p == Ref(data.value)
      ensures data.External? ==> p == data.ptr
    {
      SlotPointer(data)
    }

    /** `all()`: a box around `get()`, so at most one element. */
    function All(): (b: Box<V>)
      reads this
      ensures |b.Elements()| <= 1
      ensures |b.Elements()| == 1 <==> Get().Ref?
      ensures Get().Ref? ==> b.Elements() == [Get().target]
    {
      Box(Get())
    }
  }

  /** The dense array after swap-remove of position `i`: the last row takes
      the place of row `i` and the array shrinks by one. */
  function SwapRemove<T>(s: seq<T>, i: nat): (r: seq<T>)
    requires i < |s|
    ensures |r| == |s| - 1
    ensures forall j | 0 <= j < |r| :: r[j] == if j == i then s[|s| - 1] else s[j]
    ensures multiset(r) == multiset(s) - multiset{s[i]}
  {
    var r := s[i := s[|s| - 1]][..|s| - 1];
    assert s == s[..|s| - 1] + [s[|s| - 1]];
    if i < |s| - 1 then
      assert s[..|s| - 1] == s[..i] + [s[i]] + s[i + 1..|s| - 1];
      assert r == s[..i] + [s[|s| - 1]] + s[i + 1..|s| - 1];
      r
    else
      assert r == s[..|s| - 1];
      r
  }

  /** The index map is a bijection between the stored entities and the
      positions of the dense array. */
  ghost predicate DenseIndexing<V>(data: seq<Entry<V>>, index: map<EntityId, nat>)
  {
    && |index| == |data|
    && (forall e | e in index :: index[e] < |data| && data[index[e]].entity == e)
    && (forall i | 0 <= i < |data| :: data[i].entity in index && index[data[i].entity] == i)
  }

  /** Each stored entity's component data. */
  ghost function DenseContents<V>(data: seq<Entry<V>>, index: map<EntityId, nat>): map<EntityId, V>
    requires DenseIndexing(data, index)
  {
    map e | e in index :: data[index[e]].payload
  }

  lemma {:induction false} DenseOverwrite<V>(data: seq<Entry<V>>, index: map<EntityId, nat>, c: Entry<V>)
    requires DenseIndexing(data, index) && c.entity in index
    ensures DenseIndexing(data[index[c.entity] := c], index)
    ensures DenseContents(data[index[c.entity] := c], index) == DenseContents(data, index)[c.entity := c.payload]
  {
    var d := data[index[c.entity] := c];
    assert DenseIndexing(d, index);
    var after, expected := DenseContents(d, index), DenseContents(data, index)[c.entity := c.payload];
    forall k | k in after ensures after[k] == expected[k] {
      if k != c.entity {
        assert index[k] != index[c.entity];
      }
    }
  }

  lemma {:induction false} DenseAppend<V>(data: seq<Entry<V>>, index: map<EntityId, nat>, c: Entry<V>)
    requires DenseIndexing(data, index) && c.entity !in index
    ensures DenseIndexing(data + [c], index[c.entity := |data|])
    ensures DenseContents(data + [c], index[c.entity := |data|]) == DenseContents(data, index)[c.entity := c.payload]
  {
    var d, m := data + [c], index[c.entity := |data|];
    forall i | 0 <= i < |d| ensures d[i].entity in m && m[d[i].entity] == i {
      if i < |data| {
        assert d[i] == data[i];
      }
    }
    assert DenseIndexing(d, m);
    var after, expected := DenseContents(d, m), DenseContents(data, index)[c.entity := c.payload];
    forall k | k in after ensures after[k] == expected[k] {
      if k != c.entity {
        assert d[m[k]] == data[index[k]];
      }
    }
  }

  /** Swap-remove of the entity's row, with the moved row repointed and the
      entity's index dropped, keeps the bijection and removes exactly that
      entity's data. */
  lemma {:induction false} DenseSwapRemove<V>(data: seq<Entry<V>>, index: map<EntityId, nat>, e: EntityId)
    requires DenseIndexing(data, index) && e in index
    ensures DenseIndexing(SwapRemove(data, index[e]), index[data[|data| - 1].entity := index[e]] - {e})
    ensures DenseContents(SwapRemove(data, index[e]), index[data[|data| - 1].entity := index[e]] - {e})
         == DenseContents(data, index) - {e}
  {
    var i, last := index[e], |data| - 1;
    var d, m := SwapRemove(data, i), index[data[last].entity := i] - {e};
    assert m.Keys == index.Keys - {e};
    forall k | k in m ensures m[k] < |d| && d[m[k]] == data[index[k]] {
      if k == data[last].entity {
        assert i != last;
      } else {
        assert m[k] == index[k];
        assert index[k] != i && index[k] != last;
      }
    }
    forall j | 0 <= j < |d| ensures d[j].entity in m && m[d[j].entity] == j {
      if j == i {
        assert d[j] == data[last];
      } else {
        assert d[j] == data[j];
      }
    }
    assert DenseIndexing(d, m);
    var after, expected := DenseContents(d, m), DenseContents(data, index) - {e};
    assert after.Keys == expected.Keys;
  }

  lemma {:induction false} DenseCovers<V>(data: seq<Entry<V>>, index: map<EntityId, nat>)
    requires DenseIndexing(data, index)
    ensures |data| == |DenseContents(data, index)|
    ensures forall i | 0 <= i < |data| ::
      data[i].entity in DenseContents(data, index) && DenseContents(data, index)[data[i].entity] == data[i].payload
    ensures forall e | e in DenseContents(data, index) :: Entry(e, DenseContents(data, index)[e]) in data
  {
    var contents := DenseContents(data, index);
    assert contents.Keys == index.Keys;
    forall e | e in contents ensures Entry(e, contents[e]) in data {
      assert data[index[e]] == Entry(e, contents[e]);
    }
  }

  /** Storage of one (non-relationship) entity component type: a dense array
      of rows and a map from entity to row index. */
  class EntityStorage<V> {
    var data: seq<Entry<V>>
    var index: map<EntityId, nat>

    ghost predicate Valid()
      reads this
    {
      DenseIndexing(data, index)
    }

    /** What the storage holds: each stored entity's component data. */
    ghost function Contents(): map<EntityId, V>
      reads this
      requires Valid()
    {
      DenseContents(data, index)
    }

    constructor ()
      ensures Valid() && data == [] && index == map[]
      ensures Contents() == map[]
    {
      data := [];
      index := map[];
    }

    /** `add_or_set`: overwrite the entity's row in place, or append a row
        and index it at the new last position. */
    method AddOrSet(c: Entry<V>)
      requires Valid()
      modifies this
      ensures Valid()
      ensures Contents() == old(Contents())[c.entity := c.payload]
      ensures c.entity in old(index) ==>
        index == old(index) && data == old(data)[old(index)[c.entity] := c]
      ensures c.entity !in old(index) ==>
        data == old(data) + [c] && index == old(index)[c.entity := |data| - 1]
    {
      if c.entity in index {
        DenseOverwrite(data, index, c);
        data := data[index[c.entity] := c];
      } else {
        DenseAppend(data, index, c);
        data := data + [c];
        index := index[c.entity := |data| - 1];
      }
    }

    /** `remove`: swap the entity's row with the last one, repoint the moved
        row's index, drop the last row and the entity's index. */
    method Remove(e: EntityId)
      requires Valid()
      modifies this
      ensures Valid()
      ensures Contents() == old(Contents()) - {e}
      ensures e in old(index) ==> data == SwapRemove(old(data), old(index)[e])
      ensures e !in old(index) ==> data == old(data) && index == old(index)
    {
      if e in index {
        DenseSwapRemove(data, index, e);
        var i := index[e];
        var last := |data| - 1;
        ghost var data0 := data;
        data := data[i := data[last]][last := data[i]];
        index := index[data[i].entity := i];
        data := data[..last];
        index := index - {e};
        assert data == SwapRemove(data0, i);
      }
    }

    /** `get(e)`: a pointer to the entity's row, or null when it has none. */
    function Get(e: EntityId): (p: Ptr<Entry<V>>)
      reads this
      requires Valid()
      ensures p.Ref? <==> e in Contents()
      ensures p.Ref? ==> p.target == Entry(e, Contents()[e])
    {
      if e in index then Ref(data[index[e]]) else Null
    }

    /** `all()`: the dense array, one row per stored entity. */
    function All(): (rows: seq<Entry<V>>)
      reads this
      requires Valid()
      ensures |rows| == |Contents()|
      ensures forall i | 0 <= i < |rows| ::
        rows[i].entity in Contents() && Contents()[rows[i].entity] == rows[i].payload
      ensures forall e | e in Contents() :: Entry(e, Contents()[e]) in rows
    {
      DenseCovers(data, index);
      data
    }
  }

  /** The rows of `rows` owned by `e`, in order. */
  function OwnedBy<V>(rows: seq<Relation<V>>, e: EntityId): (r: seq<Relation<V>>)
    ensures |r| <= |rows|
    ensures r == [] <==> forall x | x in rows :: x.entity != e
    ensures forall x | x in r :: x in rows && x.entity == e
    ensures forall x | x in rows && x.entity == e :: x in r
  {
    if rows == [] then []
    else (if rows[0].entity == e then [rows[0]] else []) + OwnedBy(rows[1..], e)
  }

  /** Rows with pairwise distinct (owner, related) keys. */
  ghost predicate DistinctKeys<V>(rows: seq<Relation<V>>)
  {
    forall i, j | 0 <= i < j < |rows| ::
      rows[i].entity != rows[j].entity || rows[i].related != rows[j].related
  }

  lemma {:induction false} OwnedByDistinct<V>(rows: seq<Relation<V>>, e: EntityId)
    requires DistinctKeys(rows)
    ensures DistinctKeys(OwnedBy(rows, e))
  {
    if rows != [] {
      assert DistinctKeys(rows[1..]) by {
        forall i, j | 0 <= i < j < |rows[1..]|
          ensures rows[1..][i].entity != rows[1..][j].entity || rows[1..][i].related != rows[1..][j].related
        {
          assert rows[1..][i] == rows[i + 1] && rows[1..][j] == rows[j + 1];
        }
      }
      OwnedByDistinct(rows[1..], e);
      var tail := OwnedBy(rows[1..], e);
      if rows[0].entity == e {
        forall j | 0 <= j < |tail| ensures rows[0].entity != tail[j].entity || rows[0].related != tail[j].related {
          assert tail[j] in rows[1..];
          var k :| 0 <= k < |rows[1..]| && rows[1..][k] == tail[j];
          assert rows[k + 1] == tail[j];
        }
        assert OwnedBy(rows, e) == [rows[0]] + tail;
      } else {
        assert OwnedBy(rows, e) == tail;
      }
    }
  }

  /** A sequence whose elements are told apart by `key` has as many elements
      as it has keys. */
  lemma {:induction false} DistinctCount<T, K>(s: seq<T>, key: T -> K, keys: set<K>)
    requires forall i, j | 0 <= i < j < |s| :: key(s[i]) != key(s[j])
    requires keys == set x | x in s :: key(x)
    ensures |s| == |keys|
  {
    if s != [] {
      var rest := set x | x in s[1..] :: key(x);
      forall i, j | 0 <= i < j < |s[1..]| ensures key(s[1..][i]) != key(s[1..][j]) {
        assert s[1..][i] == s[i + 1] && s[1..][j] == s[j + 1];
      }
      DistinctCount(s[1..], key, rest);
      forall x | x in s[1..] ensures key(x) != key(s[0]) {
        var k :| 0 <= k < |s[1..]| && s[1..][k] == x;
        assert s[k + 1] == x;
      }
      assert keys == rest + {key(s[0])} by {
        forall y | y in keys ensures y in rest + {key(s[0])} {
          var x :| x in s && key(x) == y;
          if x != s[0] {
            var k :| 0 <= k < |s| && s[k] == x;
            assert s[1..][k - 1] == x;
          }
        }
        forall x | x in s[1..] ensures key(x) in keys {
          var k :| 0 <= k < |s[1..]| && s[1..][k] == x;
          assert s[k + 1] == x;
        }
      }
    }
  }

  /** The relationship index: owner -> (related -> row index). */
  type RelIndex = map<EntityId, map<EntityId, nat>>

  /** Row `i` is found at its own position through both levels of the map. */
  ghost predicate RowIndexed<V>(data: seq<Relation<V>>, index: RelIndex, i: int)
    requires 0 <= i < |data|
  {
    data[i].entity in index && data[i].related in index[data[i].entity]
    && index[data[i].entity][data[i].related] == i
  }

  /** Every index entry points at a row with that owner and related entity,
      and every row is indexed at its own position. */
  ghost predicate Indexing<V>(data: seq<Relation<V>>, index: RelIndex)
  {
    && (forall o, r | o in index && r in index[o] :: Points(data, index, o, r))
    && (forall i | 0 <= i < |data| :: RowIndexed(data, index, i))
  }

  /** The index entry of (o, r) exists and points at a row with that owner
      and related entity. */
  ghost predicate Points<V>(data: seq<Relation<V>>, index: RelIndex, o: EntityId, r: EntityId)
  {
    o in index && r in index[o] && index[o][r] < |data|
    && data[index[o][r]].entity == o && data[index[o][r]].related == r
  }

  /** The row of (o, r) is still below `dataEnd`, unchanged since the start. */
  ghost predicate Kept<V>(data0: seq<Relation<V>>, index0: RelIndex, data: seq<Relation<V>>, index: RelIndex,
                          dataEnd: int, o: EntityId, r: EntityId)
  {
    o in index0 && r in index0[o] && o in index && r in index[o]
    && index[o][r] < dataEnd && index[o][r] < |data| && index0[o][r] < |data0|
    && data[index[o][r]] == data0[index0[o][r]]
  }

  /** For each owner with an inner map, the data of its relationship to each
      related entity. */
  ghost function ContentsOf<V>(data: seq<Relation<V>>, index: RelIndex): map<EntityId, map<EntityId, V>>
    requires Indexing(data, index)
  {
    map o | o in index :: map r | r in index[o] :: data[index[o][r]].payload
  }

  /** The owner's inner map, empty when it has none. */
  function InnerOf<K, R>(m: map<EntityId, map<K, R>>, o: EntityId): map<K, R>
  {
    if o in m then m[o] else map[]
  }

  /** `m` with owner `o`'s inner map (created if missing) mapping `r` to `v`. */
  function SetInner<R>(m: map<EntityId, map<EntityId, R>>, o: EntityId, r: EntityId, v: R): map<EntityId, map<EntityId, R>>
  {
    var inner: map<EntityId, R> := InnerOf(m, o)[r := v];
    m[o := inner]
  }

  lemma {:induction false} OverwriteKeepsIndexing<V>(data: seq<Relation<V>>, index: RelIndex, c: Relation<V>)
    requires Indexing(data, index)
    requires c.entity in index && c.related in index[c.entity]
    ensures Indexing(data[index[c.entity][c.related] := c], index)
    ensures ContentsOf(data[index[c.entity][c.related] := c], index)
         == SetInner(ContentsOf(data, index), c.entity, c.related, c.payload)
  {
    var p := index[c.entity][c.related];
    var d := data[p := c];
    forall i | 0 <= i < |d| ensures RowIndexed(d, index, i) {
      assert RowIndexed(data, index, i);
    }
    var before, after := ContentsOf(data, index), ContentsOf(d, index);
    var expected := SetInner(before, c.entity, c.related, c.payload);
    assert after.Keys == expected.Keys;
    forall o | o in after ensures after[o] == expected[o] {
      assert after[o].Keys == expected[o].Keys;
      forall r | r in after[o] ensures after[o][r] == expected[o][r] {
        if o != c.entity || r != c.related {
          assert index[o][r] != p;
        }
      }
    }
  }

  lemma {:induction false} AppendKeepsIndexing<V>(data: seq<Relation<V>>, index: RelIndex, c: Relation<V>,
                                                  inner: map<EntityId, nat>)
    requires Indexing(data, index)
    requires inner == InnerOf(index, c.entity) && c.related !in inner
    ensures Indexing(data + [c], index[c.entity := inner[c.related := |data|]])
    ensures ContentsOf(data + [c], index[c.entity := inner[c.related := |data|]])
         == SetInner(ContentsOf(data, index), c.entity, c.related, c.payload)
  {
    var d, m := data + [c], index[c.entity := inner[c.related := |data|]];
    forall o, r | o in m && r in m[o] ensures Points(d, m, o, r) {
      if o != c.entity || r != c.related {
        assert Points(data, index, o, r);
        assert m[o][r] == index[o][r];
      }
    }
    forall i | 0 <= i < |d| ensures RowIndexed(d, m, i) {
      if i < |data| {
        assert d[i] == data[i];
        assert RowIndexed(data, index, i);
      }
    }
    AppendContents(data, index, c, inner);
  }

  lemma {:induction false} AppendContents<V>(data: seq<Relation<V>>, index: RelIndex, c: Relation<V>,
                                             inner: map<EntityId, nat>)
    requires Indexing(data, index)
    requires inner == InnerOf(index, c.entity) && c.related !in inner
    requires Indexing(data + [c], index[c.entity := inner[c.related := |data|]])
    ensures ContentsOf(data + [c], index[c.entity := inner[c.related := |data|]])
         == SetInner(ContentsOf(data, index), c.entity, c.related, c.payload)
  {
    var d, m := data + [c], index[c.entity := inner[c.related := |data|]];
    var after, expected := ContentsOf(d, m), SetInner(ContentsOf(data, index), c.entity, c.related, c.payload);
    assert after.Keys == expected.Keys;
    forall o | o in after ensures after[o] == expected[o] {
      AppendContentsAt(data, index, c, inner, o);
    }
  }

  lemma {:induction false} AppendContentsAt<V>(data: seq<Relation<V>>, index: RelIndex, c: Relation<V>,
                                               inner: map<EntityId, nat>, o: EntityId)
    requires Indexing(data, index)
    requires inner == InnerOf(index, c.entity) && c.related !in inner
    requires Indexing(data + [c], index[c.entity := inner[c.related := |data|]])
    requires o in index[c.entity := inner[c.related := |data|]]
    ensures ContentsOf(data + [c], index[c.entity := inner[c.related := |data|]])[o]
         == SetInner(ContentsOf(data, index), c.entity, c.related, c.payload)[o]
  {
    var d, m := data + [c], index[c.entity := inner[c.related := |data|]];
    var after, expected := ContentsOf(d, m)[o], SetInner(ContentsOf(data, index), c.entity, c.related, c.payload)[o];
    assert after.Keys == expected.Keys;
    forall r | r in after ensures after[r] == expected[r] {
      assert after[r] == d[m[o][r]].payload;
      if o != c.entity || r != c.related {
        assert m[o][r] == index[o][r];
        assert Points(data, index, o, r);
        assert d[index[o][r]] == data[index[o][r]];
      }
    }
  }

  /** The state of `remove(e)`'s loop: rows below `dataEnd` are indexed at
      their place and those owned by `e` are still to be processed; every row
      not yet removed is still below `dataEnd`, unchanged; the key sets of the
      index never change. */
  ghost predicate RemoveInvariant<V>(data0: seq<Relation<V>>, index0: RelIndex, e: EntityId,
                                     data: seq<Relation<V>>, index: RelIndex, todo: set<EntityId>, dataEnd: int)
  {
    && e in index0 && Indexing(data0, index0)
    && |data| == |data0| && 0 <= dataEnd <= |data|
    && todo <= index0[e].Keys
    && index.Keys == index0.Keys
    && (forall o | o in index :: index[o].Keys == index0[o].Keys)
    && (forall i | 0 <= i < dataEnd ::
          RowIndexed(data, index, i) && (data[i].entity == e ==> data[i].related in todo))
    && (forall o, r | o in index0 && r in index0[o] && (o != e || r in todo) ::
          Kept(data0, index0, data, index, dataEnd, o, r))
  }

  lemma {:induction false} RemoveStart<V>(data: seq<Relation<V>>, index: RelIndex, e: EntityId)
    requires Indexing(data, index) && e in index
    ensures RemoveInvariant(data, index, e, data, index, index[e].Keys, |data|)
  {
    forall o, r | o in index && r in index[o] ensures Kept(data, index, data, index, |data|, o, r) {
      assert Points(data, index, o, r);
    }
    forall i | 0 <= i < |data| ensures data[i].entity == e ==> data[i].related in index[e].Keys {
      assert RowIndexed(data, index, i);
    }
  }

  /** One iteration's swap: the row of (e, r), at `i`, trades places with the
      row just below `dataEnd`, and the row that moved is repointed to `i`. */
  ghost predicate RemoveStepArgs<V>(data0: seq<Relation<V>>, index0: RelIndex, e: EntityId,
                                    data: seq<Relation<V>>, index: RelIndex, todo: set<EntityId>, dataEnd: int,
                                    r: EntityId, i: nat, data': seq<Relation<V>>, index': RelIndex)
  {
    && RemoveInvariant(data0, index0, e, data, index, todo, dataEnd)
    && r in todo && i == index[e][r]
    && 0 < dataEnd && i < |data| && data' == data[i := data[dataEnd - 1]][dataEnd - 1 := data[i]]
    && data'[i].entity in index
    && index' == index[data'[i].entity := index[data'[i].entity][data'[i].related := i]]
  }

  lemma {:induction false} RemoveStep<V>(data0: seq<Relation<V>>, index0: RelIndex, e: EntityId,
                                         data: seq<Relation<V>>, index: RelIndex, todo: set<EntityId>, dataEnd: int,
                                         r: EntityId, i: nat, data': seq<Relation<V>>, index': RelIndex)
    requires RemoveStepArgs(data0, index0, e, data, index, todo, dataEnd, r, i, data', index')
    ensures RemoveInvariant(data0, index0, e, data', index', todo - {r}, dataEnd - 1)
  {
    var last := dataEnd - 1;
    var moved := data[last];
    assert RowIndexed(data, index, last);
    forall o | o in index' ensures index'[o].Keys == index0[o].Keys {
      if o == moved.entity {
        assert index'[o].Keys == index[o].Keys;
      }
    }
    forall j | 0 <= j < last
      ensures RowIndexed(data', index', j) && (data'[j].entity == e ==> data'[j].related in todo - {r})
    {
      RemoveStepRow(data0, index0, e, data, index, todo, dataEnd, r, i, data', index', j);
    }
    forall o, r' | o in index0 && r' in index0[o] && (o != e || r' in todo - {r})
      ensures Kept(data0, index0, data', index', last, o, r')
    {
      RemoveStepKept(data0, index0, e, data, index, todo, dataEnd, r, i, data', index', o, r');
    }
  }

  lemma {:induction false} RemoveStepRow<V>(data0: seq<Relation<V>>, index0: RelIndex, e: EntityId,
                                            data: seq<Relation<V>>, index: RelIndex, todo: set<EntityId>, dataEnd: int,
                                            r: EntityId, i: nat, data': seq<Relation<V>>, index': RelIndex, j: int)
    requires RemoveStepArgs(data0, index0, e, data, index, todo, dataEnd, r, i, data', index')
    requires 0 <= j < dataEnd - 1
    ensures RowIndexed(data', index', j) && (data'[j].entity == e ==> data'[j].related in todo - {r})
  {
    var last := dataEnd - 1;
    var moved := data[last];
    assert Kept(data0, index0, data, index, dataEnd, e, r);
    assert Points(data0, index0, e, r);
    assert RowIndexed(data, index, last);
    if j == i {
      assert data'[j] == moved;
      assert i != last;
    } else {
      assert data'[j] == data[j];
      assert RowIndexed(data, index, j);
      assert data[j].entity != moved.entity || data[j].related != moved.related;
      if data[j].entity == e {
        assert data[j].related != r;
      }
    }
  }

  lemma {:induction false} RemoveStepKept<V>(data0: seq<Relation<V>>, index0: RelIndex, e: EntityId,
                                             data: seq<Relation<V>>, index: RelIndex, todo: set<EntityId>, dataEnd: int,
                                             r: EntityId, i: nat, data': seq<Relation<V>>, index': RelIndex,
                                             o: EntityId, r': EntityId)
    requires RemoveStepArgs(data0, index0, e, data, index, todo, dataEnd, r, i, data', index')
    requires o in index0 && r' in index0[o] && (o != e || r' in todo - {r})
    ensures Kept(data0, index0, data', index', dataEnd - 1, o, r')
  {
    var last := dataEnd - 1;
    assert Kept(data0, index0, data, index, dataEnd, e, r);
    assert Points(data0, index0, e, r);
    assert RowIndexed(data, index, last);
    assert Kept(data0, index0, data, index, dataEnd, o, r');
    assert Points(data0, index0, o, r');
    var p := index[o][r'];
    if p == last {
      assert data'[i] == data[p];
    } else {
      assert index'[o][r'] == p;
      assert p != i;
    }
  }

  lemma {:induction false} RemoveFinish<V>(data0: seq<Relation<V>>, index0: RelIndex, e: EntityId,
                                           data: seq<Relation<V>>, index: RelIndex, dataEnd: int)
    requires RemoveInvariant(data0, index0, e, data, index, {}, dataEnd)
    ensures Indexing(data[..dataEnd], index[e := map[]])
    ensures ContentsOf(data[..dataEnd], index[e := map[]]) == ContentsOf(data0, index0)[e := map[]]
  {
    var d, m := data[..dataEnd], index[e := map[]];
    forall o, r | o in m && r in m[o] ensures Points(d, m, o, r) {
      assert o != e && r in index0[o];
      assert Kept(data0, index0, data, index, dataEnd, o, r);
      assert Points(data0, index0, o, r);
    }
    forall i | 0 <= i < |d| ensures RowIndexed(d, m, i) {
      assert RowIndexed(data, index, i);
      assert d[i] == data[i] && data[i].entity != e;
    }
    RemoveFinishContents(data0, index0, e, data, index, dataEnd);
  }

  lemma {:induction false} RemoveFinishContents<V>(data0: seq<Relation<V>>, index0: RelIndex, e: EntityId,
                                                   data: seq<Relation<V>>, index: RelIndex, dataEnd: int)
    requires RemoveInvariant(data0, index0, e, data, index, {}, dataEnd)
    requires Indexing(data[..dataEnd], index[e := map[]])
    ensures ContentsOf(data[..dataEnd], index[e := map[]]) == ContentsOf(data0, index0)[e := map[]]
  {
    var d, m := data[..dataEnd], index[e := map[]];
    var after, expected := ContentsOf(d, m), ContentsOf(data0, index0)[e := map[]];
    assert after.Keys == expected.Keys;
    forall o | o in after ensures after[o] == expected[o] {
      assert after[o].Keys == expected[o].Keys;
      if o != e {
        forall r | r in after[o] ensures after[o][r] == expected[o][r] {
          assert Kept(data0, index0, data, index, dataEnd, o, r);
        }
      }
    }
  }

  /** Each row owned by `e` is the row its index entry points at. */
  lemma {:induction false} OwnedRowsIndexed<V>(data: seq<Relation<V>>, index: RelIndex, e: EntityId)
    requires Indexing(data, index)
    ensures forall x | x in OwnedBy(data, e) ::
      x.entity == e && e in index && x.related in index[e] && data[index[e][x.related]] == x
  {
    forall x | x in OwnedBy(data, e)
      ensures x.entity == e && e in index && x.related in index[e] && data[index[e][x.related]] == x
    {
      var k :| 0 <= k < |data| && data[k] == x;
      assert RowIndexed(data, index, k);
    }
  }

  /** The owner's rows are as many as its inner map has entries. */
  lemma {:induction false} OwnedRowsCount<V>(data: seq<Relation<V>>, index: RelIndex, e: EntityId)
    requires Indexing(data, index) && e in index
    ensures |OwnedBy(data, e)| == |index[e].Keys|
  {
    var rows := OwnedBy(data, e);
    assert DistinctKeys(data) by {
      forall i, j | 0 <= i < j < |data| ensures data[i].entity != data[j].entity || data[i].related != data[j].related {
        assert RowIndexed(data, index, i) && RowIndexed(data, index, j);
      }
    }
    OwnedByDistinct(data, e);
    OwnedRowsIndexed(data, index, e);
    var related := (x: Relation<V>) => x.related;
    forall r | r in index[e] ensures r in set x | x in rows :: related(x) {
      assert Points(data, index, e, r);
      assert data[index[e][r]] in rows;
    }
    assert index[e].Keys == set x | x in rows :: related(x);
    forall i, j | 0 <= i < j < |rows| ensures related(rows[i]) != related(rows[j]) {
      assert rows[i] in rows && rows[j] in rows;
    }
    DistinctCount(rows, related, index[e].Keys);
  }

  /** The rows owned by `e` are exactly its entries in the contents, each
      once. */
  lemma {:induction false} OwnedRowsMatchContents<V>(data: seq<Relation<V>>, index: RelIndex, e: EntityId)
    requires Indexing(data, index)
    ensures forall i | 0 <= i < |OwnedBy(data, e)| ::
      OwnedBy(data, e)[i].entity == e && e in ContentsOf(data, index)
      && OwnedBy(data, e)[i].related in ContentsOf(data, index)[e]
      && ContentsOf(data, index)[e][OwnedBy(data, e)[i].related] == OwnedBy(data, e)[i].payload
    ensures e in ContentsOf(data, index) ==>
      forall r | r in ContentsOf(data, index)[e] :: Relation(e, r, ContentsOf(data, index)[e][r]) in OwnedBy(data, e)
    ensures |OwnedBy(data, e)| == if e in ContentsOf(data, index) then |ContentsOf(data, index)[e]| else 0
  {
    var rows, contents := OwnedBy(data, e), ContentsOf(data, index);
    OwnedRowsIndexed(data, index, e);
    forall i | 0 <= i < |rows|
      ensures rows[i].entity == e && e in contents && rows[i].related in contents[e]
        && contents[e][rows[i].related] == rows[i].payload
    {
      assert rows[i] in rows;
    }
    if e in index {
      forall r | r in contents[e] ensures Relation(e, r, contents[e][r]) in rows {
        assert Points(data, index, e, r);
        assert data[index[e][r]] == Relation(e, r, contents[e][r]);
      }
      OwnedRowsCount(data, index, e);
      assert contents[e].Keys == index[e].Keys;
    } else {
      forall x | x in data ensures x.entity != e {
        var k :| 0 <= k < |data| && data[k] == x;
        assert RowIndexed(data, index, k);
      }
    }
  }

  lemma {:induction false} RowsMatchContents<V>(data: seq<Relation<V>>, index: RelIndex)
    requires Indexing(data, index)
    ensures forall i | 0 <= i < |data| ::
      data[i].entity in ContentsOf(data, index) && data[i].related in ContentsOf(data, index)[data[i].entity]
      && ContentsOf(data, index)[data[i].entity][data[i].related] == data[i].payload
    ensures forall o, r | o in ContentsOf(data, index) && r in ContentsOf(data, index)[o] ::
      Relation(o, r, ContentsOf(data, index)[o][r]) in data
  {
    forall o, r | o in ContentsOf(data, index) && r in ContentsOf(data, index)[o]
      ensures Relation(o, r, ContentsOf(data, index)[o][r]) in data
    {
      assert Points(data, index, o, r);
    }
    forall i | 0 <= i < |data|
      ensures data[i].entity in ContentsOf(data, index) && data[i].related in ContentsOf(data, index)[data[i].entity]
        && ContentsOf(data, index)[data[i].entity][data[i].related] == data[i].payload
    {
      assert RowIndexed(data, index, i);
    }
  }

  /** The loop of `remove(e)` on a relationship storage: each of the
      owner's rows is swapped behind a shrinking end marker (repointing the
      index entry of the row moved into its place), then the tail is cut off
      and the owner's inner map cleared. */
  method RemoveOwned<V>(data: seq<Relation<V>>, index: RelIndex, e: EntityId)
    returns (data': seq<Relation<V>>, index': RelIndex)
    requires Indexing(data, index) && e in index
    ensures Indexing(data', index')
    ensures ContentsOf(data', index') == ContentsOf(data, index)[e := map[]]
    ensures |data'| == |data| - |index[e]|
  {
    var rows: seq<Relation<V>>, idx: RelIndex := data, index;
    var dataEnd := |rows|;
    var todo := idx[e].Keys;
    ghost var processed := 0;
    RemoveStart(rows, idx, e);
    while todo != {}
      invariant RemoveInvariant(data, index, e, rows, idx, todo, dataEnd)
      invariant dataEnd == |data| - processed && processed + |todo| == |index[e].Keys|
      decreases todo
    {
      var r :| r in todo;
      var i := idx[e][r];
      dataEnd := dataEnd - 1;
      ghost var before, idxBefore := rows, idx;
      rows := rows[i := rows[dataEnd]][dataEnd := rows[i]];
      var moved := rows[i];
      assert moved == before[dataEnd];
      var movedInner: map<EntityId, nat> := idx[moved.entity];
      idx := idx[moved.entity := movedInner[moved.related := i]];
      RemoveStep(data, index, e, before, idxBefore, todo, dataEnd + 1, r, i, rows, idx);
      todo := todo - {r};
      processed := processed + 1;
    }
    RemoveFinish(data, index, e, rows, idx, dataEnd);
    data', index' := rows[..dataEnd], idx[e := map[]];
  }

  /** Storage of one relationship type: a dense array of rows and a nested
      map owner -> (related -> row index). */
  class RelationshipStorage<V> {
    var data: seq<Relation<V>>
    var index: RelIndex

    ghost predicate Valid()
      reads this
    {
      Indexing(data, index)
    }

    ghost function Contents(): map<EntityId, map<EntityId, V>>
      reads this
      requires Valid()
    {
      ContentsOf(data, index)
    }

    constructor ()
      ensures Valid() && data == [] && index == map[]
      ensures Contents() == map[]
    {
      data := [];
      index := map[];
    }

    /** `add_or_set`: the same (owner, related) pair is overwritten in place;
        a new related entity appends a row, so an owner can hold many. The
        owner's inner map is created if missing. */
    method AddOrSet(c: Relation<V>)
      requires Valid()
      modifies this
      ensures Valid()
      ensures Contents() == SetInner(old(Contents()), c.entity, c.related, c.payload)
      ensures c.entity in old(index) && c.related in old(index)[c.entity] ==>
        index == old(index) && data == old(data)[old(index)[c.entity][c.related] := c]
      ensures !(c.entity in old(index) && c.related in old(index)[c.entity]) ==>
        data == old(data) + [c] && c.entity in index && c.related in index[c.entity]
        && index[c.entity][c.related] == |data| - 1
    {
      // `m_index_map[entity]`: the owner's inner map, empty if it had none.
      var inner: map<EntityId, nat> := InnerOf(index, c.entity);
      if c.related in inner {
        OverwriteKeepsIndexing(data, index, c);
        data := data[inner[c.related] := c];
      } else {
        AppendKeepsIndexing(data, index, c, inner);
        var pos: nat := |data|;
        index := index[c.entity := inner[c.related := pos]];
        data := data + [c];
      }
    }

    /** `remove(e)`: every row owned by `e` is swapped behind a shrinking
        end marker, each displaced row is repointed, the tail is erased and
        the owner's inner map is cleared but kept. */
    method Remove(e: EntityId)
      requires Valid()
      modifies this
      ensures Valid()
      ensures e in old(index) ==>
        Contents() == old(Contents())[e := map[]] && |data| == |old(data)| - |old(index)[e]|
      ensures e !in old(index) ==> data == old(data) && index == old(index)
    {
      if e in index {
        data, index := RemoveOwned(data, index, e);
      }
    }

    /** `get(e)`: the rows owned by `e` (none when it has no inner map). */
    function Get(e: EntityId): (rows: seq<Relation<V>>)
      reads this
      requires Valid()
      ensures forall x | x in rows :: x in data && x.entity == e
      ensures forall x | x in data && x.entity == e :: x in rows
      ensures forall i | 0 <= i < |rows| ::
        rows[i].entity == e && e in Contents() && rows[i].related in Contents()[e]
        && Contents()[e][rows[i].related] == rows[i].payload
      ensures e in Contents() ==> forall r | r in Contents()[e] :: Relation(e, r, Contents()[e][r]) in rows
      ensures |rows| == if e in Contents() then |Contents()[e]| else 0
    {
      OwnedRowsMatchContents(data, index, e);
      OwnedBy(data, e)
    }

    /** `all()`: the dense array. */
    function All(): (rows: seq<Relation<V>>)
      reads this
      requires Valid()
      ensures forall i | 0 <= i < |rows| ::
        rows[i].entity in Contents() && rows[i].related in Contents()[rows[i].entity]
        && Contents()[rows[i].entity][rows[i].related] == rows[i].payload
      ensures forall o, r | o in Contents() && r in Contents()[o] :: Relation(o, r, Contents()[o][r]) in rows
    {
      RowsMatchContents(data, index);
      data
    }
  }
}
