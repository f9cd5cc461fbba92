/** Queries over the registry (include/mope_game_engine/query.hxx): a primary
    component's rows, each extended by lookups of further components for the
    row's entity, filtered to the rows whose lookups all succeed, and joins
    that take the cartesian product of two such results. The source composes
    lazy range adaptors; the model computes the same sequences eagerly. */
module Query {
  import opened Wrappers
  import opened Components
  import opened IterableBox
  import opened ComponentStorage
  import opened ComponentRegistry

  /** One element of a query tuple: a singleton's value, an entity
      component's row, a relationship row, or (as the lookup of a
      relationship type for an entity) the range of that entity's rows. */
  datatype Item<V> =
    | SingletonItem(value: V)
    | EntryItem(entry: Entry<V>)
    | RelationItem(relation: Relation<V>)
    | RelationsItem(relations: seq<Relation<V>>)

  /** What `get_from_manager` returns: a pointer (singleton and plain entity
      components) or a range (relationships), which is never null. */
  datatype Looked<V> = PointerResult(p: Ptr<Item<V>>) | RangeResult(range: Item<V>)

  /** The storage of one component type as a query reads it: its key and
      the rows `get_components` returns. */
  datatype Table<V> = Table(key: TypeKey, rows: Rows<V>)
  {
    predicate WellFormed()
    {
      && key.Kind().Some?
      && (rows.SingletonRows? <==> key.Kind() == Some(SingletonCategory))
      && (rows.EntityRows? <==> key.Kind() == Some(EntityCategory))
      && (rows.RelationRows? <==> key.Kind() == Some(RelationshipCategory))
    }

    predicate IsSingleton() { key.Kind() == Some(SingletonCategory) }
  }

  /** The first row of entity `e`, as `get(e)` finds it through the index. */
  function FindEntry<V>(entries: seq<Entry<V>>, e: EntityId): (p: Ptr<Entry<V>>)
    ensures p.Ref? <==> exists i | 0 <= i < |entries| :: entries[i].entity == e
    ensures p.Ref? ==> p.target in entries && p.target.entity == e
  {
    if entries == [] then Null
    else if entries[0].entity == e then Ref(entries[0])
    else FindEntry(entries[1..], e)
  }

  /** `get_from_manager`: an entity component is looked up by the entity, a
      singleton ignores it. */
  function GetFromManager<V>(t: Table<V>, e: EntityId): (r: Looked<V>)
    requires t.WellFormed()
    ensures t.rows.SingletonRows? ==>
      r.PointerResult? && (r.p.Ref? <==> t.rows.box.t.Ref?)
      && (r.p.Ref? ==> r.p.target == SingletonItem(t.rows.box.t.target))
    ensures t.rows.EntityRows? ==>
      r.PointerResult? && (r.p.Ref? <==> exists i | 0 <= i < |t.rows.entries| :: t.rows.entries[i].entity == e)
      && (r.p.Ref? ==> r.p.target.EntryItem? && r.p.target.entry in t.rows.entries && r.p.target.entry.entity == e)
    ensures t.rows.RelationRows? ==>
      r.RangeResult? && r.range.RelationsItem?
      && (forall x | x in r.range.relations :: x in t.rows.relations && x.entity == e)
      && (forall x | x in t.rows.relations && x.entity == e :: x in r.range.relations)
  {
    match t.rows
    case SingletonRows(box) =>
      PointerResult(if box.t.Ref? then Ref(SingletonItem(box.t.target)) else Null)
    case EntityRows(entries) =>
      var p := FindEntry(entries, e);
      PointerResult(if p.Ref? then Ref(EntryItem(p.target)) else Null)
    case RelationRows(relations) =>
      RangeResult(RelationsItem(OwnedBy(relations, e)))
  }

  /** A singleton lookup does not depend on the entity it is asked for. */
  lemma SingletonLookupIgnoresEntity<V>(t: Table<V>, e1: EntityId, e2: EntityId)
    requires t.WellFormed() && t.IsSingleton()
    ensures GetFromManager(t, e1) == GetFromManager(t, e2)
  {
  }

  /** A plain entity lookup through a table of the registry finds exactly
      the component the registry stores for that entity. */
  lemma EntityLookupMatchesRegistry<V>(m: ComponentManager<V>, k: TypeKey, e: EntityId)
    requires m.Valid() && k.Kind() == Some(EntityCategory)
    ensures var r := GetFromManager(Table(k, m.RowsAt(k)), e);
      && r.PointerResult?
      && (r.p.Ref? <==> e in m.ViewAt(k).entries)
      && (r.p.Ref? ==> r.p.target == EntryItem(Entry(e, m.ViewAt(k).entries[e])))
  {
    m.RowsMatchView(k);
    var entries := m.RowsAt(k).entries;
    var r := GetFromManager(Table(k, m.RowsAt(k)), e);
    if e in m.ViewAt(k).entries {
      var i :| 0 <= i < |entries| && entries[i] == Entry(e, m.ViewAt(k).entries[e]);
      assert entries[i].entity == e;
    }
    if r.p.Ref? {
      var i :| 0 <= i < |entries| && entries[i] == r.p.target.entry;
      assert entries[i].entity in m.ViewAt(k).entries;
    }
  }

  /** `is_not_null`: pointers must be non-null, anything else passes. */
  predicate IsNotNull<V>(l: Looked<V>): (b: bool)
    ensures !b <==> l.PointerResult? && l.p == Null
  {
    match l
    case PointerResult(p) => p.Ref?
    case RangeResult(_) => true
  }

  /** `deref`: a pointer is dereferenced, anything else is passed through.
      A range is taken as a copy (see GatherComponents under "Left out"). */
  function Deref<V>(l: Looked<V>): (x: Item<V>)
    requires IsNotNull(l)
    ensures l.PointerResult? ==> Ref(x) == l.p
    ensures l.RangeResult? ==> x == l.range
  {
    match l
    case PointerResult(p) => p.target
    case RangeResult(x) => x
  }

  /** A query result: a bare row (a query with no extra components yields
      the rows themselves) or a tuple. */
  datatype Val<V> = Single(item: Item<V>) | Tuple(items: seq<Item<V>>)

  /** `wrap`: a tuple is kept as it is, anything else becomes a 1-tuple. */
  function Wrap<V>(v: Val<V>): (s: seq<Item<V>>)
    ensures v.Single? ==> s == [v.item]
    ensures v.Tuple? ==> s == v.items
  {
    match v
    case Single(x) => [x]
    case Tuple(xs) => xs
  }

  /** `make_flat_tuple`: the concatenation of the wrapped arguments. */
  function MakeFlatTuple<V>(vs: seq<Val<V>>): (t: seq<Item<V>>)
    ensures |vs| == 1 ==> t == Wrap(vs[0])
    decreases |vs|
  {
    if vs == [] then [] else MakeFlatTuple(vs[..|vs| - 1]) + Wrap(vs[|vs| - 1])
  }

  /** Flattening two values puts the elements of the first before those of
      the second, unwrapping tuples one level only. */
  lemma {:induction false} MakeFlatTuplePair<V>(a: Val<V>, b: Val<V>)
    ensures MakeFlatTuple([a, b]) == Wrap(a) + Wrap(b)
    ensures |MakeFlatTuple([a, b])| == |Wrap(a)| + |Wrap(b)|
  {
    assert [a, b][..1] == [a];
    assert [a][..0] == [];
    assert MakeFlatTuple([a]) == MakeFlatTuple([]) + Wrap(a) == Wrap(a);
  }

  /** Flattening distributes over concatenating argument lists. */
  lemma {:induction false} MakeFlatTupleAppend<V>(vs: seq<Val<V>>, ws: seq<Val<V>>)
    ensures MakeFlatTuple(vs + ws) == MakeFlatTuple(vs) + MakeFlatTuple(ws)
    decreases |ws|
  {
    if ws == [] {
      assert vs + ws == vs;
    } else {
      var n := |ws| - 1;
      var all, front := vs + ws, vs + ws[..n];
      assert all[..|all| - 1] == front && all[|all| - 1] == ws[n];
      assert MakeFlatTuple(all) == MakeFlatTuple(front) + Wrap(ws[n]);
      assert MakeFlatTuple(ws) == MakeFlatTuple(ws[..n]) + Wrap(ws[n]);
      MakeFlatTupleAppend(vs, ws[..n]);
    }
  }

  /** An item is in the flattened tuple exactly when it is an element of
      one of the wrapped arguments. */
  lemma {:induction false} MakeFlatTupleMembers<V>(vs: seq<Val<V>>, x: Item<V>)
    ensures x in MakeFlatTuple(vs) <==> exists i | 0 <= i < |vs| :: x in Wrap(vs[i])
    decreases |vs|
  {
    if vs != [] {
      var n := |vs| - 1;
      var pre := vs[..n];
      assert MakeFlatTuple(vs) == MakeFlatTuple(pre) + Wrap(vs[n]);
      MakeFlatTupleMembers(pre, x);
      if x in MakeFlatTuple(pre) {
        var i :| 0 <= i < n && x in Wrap(pre[i]);
        assert pre[i] == vs[i];
      }
      if exists i | 0 <= i < |vs| :: x in Wrap(vs[i]) {
        var i :| 0 <= i < |vs| && x in Wrap(vs[i]);
        if i < n {
          assert pre[i] == vs[i];
          assert x in MakeFlatTuple(pre);
        }
      }
    }
  }

  /** The rows of the primary component, as `get_components` yields them. */
  function PrimaryRows<V>(t: Table<V>): (rows: seq<Item<V>>)
    requires t.WellFormed()
    ensures t.rows.SingletonRows? ==>
      |rows| == |t.rows.box.Elements()| && forall i | 0 <= i < |rows| :: rows[i] == SingletonItem(t.rows.box.Elements()[i])
    ensures t.rows.EntityRows? ==>
      |rows| == |t.rows.entries| && forall i | 0 <= i < |rows| :: rows[i] == EntryItem(t.rows.entries[i])
    ensures t.rows.RelationRows? ==>
      |rows| == |t.rows.relations| && forall i | 0 <= i < |rows| :: rows[i] == RelationItem(t.rows.relations[i])
  {
    match t.rows
    case SingletonRows(box) => seq(|box.Elements()|, i requires 0 <= i < |box.Elements()| => SingletonItem(box.Elements()[i]))
    case EntityRows(entries) => seq(|entries|, i requires 0 <= i < |entries| => EntryItem(entries[i]))
    case RelationRows(relations) => seq(|relations|, i requires 0 <= i < |relations| => RelationItem(relations[i]))
  }

  /** The entity a primary row belongs to; a singleton row has none, and
      its extras (all singletons) ignore the entity. */
  function EntityOf<V>(x: Item<V>): EntityId
  {
    match x
    case EntryItem(c) => c.entity
    case RelationItem(c) => c.entity
    case _ => NoEntity
  }

  /** The first transform: the lookups of every extra component for one
      primary row. */
  function Lookups<V>(extras: seq<Table<V>>, e: EntityId): (ls: seq<Looked<V>>)
    requires forall j | 0 <= j < |extras| :: extras[j].WellFormed()
    ensures |ls| == |extras|
    ensures forall j | 0 <= j < |extras| :: ls[j] == GetFromManager(extras[j], e)
  {
    seq(|extras|, j requires 0 <= j < |extras| => GetFromManager(extras[j], e))
  }

  /** The filter: every lookup of the tuple is non-null. */
  predicate AllFound<V>(ls: seq<Looked<V>>)
  {
    forall j | 0 <= j < |ls| :: IsNotNull(ls[j])
  }

  /** The second transform: every lookup dereferenced. */
  function Derefs<V>(ls: seq<Looked<V>>): (xs: seq<Item<V>>)
    requires AllFound(ls)
    ensures |xs| == |ls|
    ensures forall j | 0 <= j < |ls| :: xs[j] == Deref(ls[j])
  {
    seq(|ls|, j requires 0 <= j < |ls| && AllFound(ls) => Deref(ls[j]))
  }

  predicate ExtrasWellFormed<V>(extras: seq<Table<V>>)
  {
    forall j | 0 <= j < |extras| :: extras[j].WellFormed()
  }

  /** Does primary row `x` pass the filter? */
  predicate Found<V>(x: Item<V>, extras: seq<Table<V>>)
    requires ExtrasWellFormed(extras)
  {
    AllFound(Lookups(extras, EntityOf(x)))
  }

  /** The tuple a passing primary row yields: the row, then each extra. */
  function TupleFor<V>(x: Item<V>, extras: seq<Table<V>>): (v: Val<V>)
    requires ExtrasWellFormed(extras) && Found(x, extras)
    ensures v.Tuple? && |v.items| == 1 + |extras| && v.items[0] == x
  {
    Tuple([x] + Derefs(Lookups(extras, EntityOf(x))))
  }

  /** After the primary row, a passing tuple holds each extra component's
      dereferenced lookup for the row's entity, in the query's order. */
  lemma TupleItems<V>(x: Item<V>, extras: seq<Table<V>>, j: nat)
    requires ExtrasWellFormed(extras) && Found(x, extras) && j < |extras|
    ensures IsNotNull(GetFromManager(extras[j], EntityOf(x)))
    ensures TupleFor(x, extras).items[j + 1] == Deref(GetFromManager(extras[j], EntityOf(x)))
  {
    assert Lookups(extras, EntityOf(x))[j] == GetFromManager(extras[j], EntityOf(x));
  }

  /** What the filter and the second transform make of one primary row:
      its tuple when every lookup succeeds, nothing otherwise. */
  function Candidate<V>(x: Item<V>, extras: seq<Table<V>>): (c: Option<Val<V>>)
    requires ExtrasWellFormed(extras)
    ensures c.Some? <==> Found(x, extras)
  {
    if Found(x, extras) then Some(TupleFor(x, extras)) else None
  }

  function Candidates<V>(rows: seq<Item<V>>, extras: seq<Table<V>>): (cs: seq<Option<Val<V>>>)
    requires ExtrasWellFormed(extras)
    ensures |cs| == |rows|
    ensures forall i | 0 <= i < |rows| :: cs[i] == Candidate(rows[i], extras)
  {
    seq(|rows|, i requires 0 <= i < |rows| => Candidate(rows[i], extras))
  }

  /** The filtered, dereferenced rows, in primary order. */
  function Select<V>(rows: seq<Item<V>>, extras: seq<Table<V>>): (r: seq<Val<V>>)
    requires ExtrasWellFormed(extras)
    ensures |r| <= |rows|
  {
    Somes(Candidates(rows, extras))
  }

  /** A tuple is a result of the filter exactly when it is the tuple of a
      passing primary row. */
  lemma SelectMembers<V>(rows: seq<Item<V>>, extras: seq<Table<V>>, v: Val<V>)
    requires ExtrasWellFormed(extras)
    ensures v in Select(rows, extras) <==>
      exists i | 0 <= i < |rows| :: Found(rows[i], extras) && v == TupleFor(rows[i], extras)
  {
    var cs := Candidates(rows, extras);
    SomesMembers(cs, v);
    if v in Select(rows, extras) {
      var i :| 0 <= i < |cs| && cs[i] == Some(v);
      assert Found(rows[i], extras) && v == TupleFor(rows[i], extras);
    }
    if exists i | 0 <= i < |rows| :: Found(rows[i], extras) && v == TupleFor(rows[i], extras) {
      var i :| 0 <= i < |rows| && Found(rows[i], extras) && v == TupleFor(rows[i], extras);
      assert cs[i] == Some(v);
    }
  }

  /** The filter keeps the primary order: filtering a concatenation is the
      concatenation of the filtered parts. */
  lemma SelectAppend<V>(a: seq<Item<V>>, b: seq<Item<V>>, extras: seq<Table<V>>)
    requires ExtrasWellFormed(extras)
    ensures Select(a + b, extras) == Select(a, extras) + Select(b, extras)
  {
    var ca, cb, cab := Candidates(a, extras), Candidates(b, extras), Candidates(a + b, extras);
    forall i | 0 <= i < |cab| ensures cab[i] == (ca + cb)[i] {
      if i < |a| {
        assert (a + b)[i] == a[i];
      } else {
        assert (a + b)[i] == b[i - |a|];
      }
    }
    assert cab == ca + cb;
    SomesAppend(ca, cb);
  }

  /** A single row yields its tuple when it passes and nothing otherwise. */
  lemma SelectOne<V>(x: Item<V>, extras: seq<Table<V>>)
    requires ExtrasWellFormed(extras)
    ensures Select([x], extras) == if Found(x, extras) then [TupleFor(x, extras)] else []
  {
    assert Candidates([x], extras) == [Candidate(x, extras)];
    assert [Candidate(x, extras)][..0] == [];
  }

  /** `gather_components`: with no extras, the primary rows themselves;
      otherwise one tuple per primary row whose lookups all succeed. A
      singleton primary admits only singleton extras (the source rejects
      any other combination at compile time). */
  function GatherComponents<V>(primary: Table<V>, extras: seq<Table<V>>): (r: seq<Val<V>>)
    requires primary.WellFormed() && ExtrasWellFormed(extras)
    requires primary.IsSingleton() ==> forall j | 0 <= j < |extras| :: extras[j].IsSingleton()
    ensures extras == [] ==>
      |r| == |PrimaryRows(primary)| && forall i | 0 <= i < |r| :: r[i] == Single(PrimaryRows(primary)[i])
    ensures extras != [] ==> r == Select(PrimaryRows(primary), extras)
  {
    var rows := PrimaryRows(primary);
    if extras == [] then seq(|rows|, i requires 0 <= i < |rows| => Single(rows[i]))
    else Select(rows, extras)
  }

  /** With extras, a tuple is in the result exactly when it is the tuple of
      a primary row all of whose extras exist; entity extras come from the
      primary row's own entity. */
  lemma GatherMembers<V>(primary: Table<V>, extras: seq<Table<V>>, v: Val<V>)
    requires primary.WellFormed() && ExtrasWellFormed(extras) && extras != []
    requires primary.IsSingleton() ==> forall j | 0 <= j < |extras| :: extras[j].IsSingleton()
    ensures v in GatherComponents(primary, extras) <==>
      exists i | 0 <= i < |PrimaryRows(primary)| ::
        Found(PrimaryRows(primary)[i], extras) && v == TupleFor(PrimaryRows(primary)[i], extras)
  {
    SelectMembers(PrimaryRows(primary), extras, v);
  }

  /** One row of the cartesian product: `x` paired with every gathered value. */
  function JoinRow<V>(x: Val<V>, g: seq<Val<V>>): (r: seq<Val<V>>)
    ensures |r| == |g|
    ensures forall j | 0 <= j < |g| :: r[j] == Tuple(MakeFlatTuple([x, g[j]]))
  {
    seq(|g|, j requires 0 <= j < |g| => Tuple(MakeFlatTuple([x, g[j]])))
  }

  /** `make_view` of `query_join`: the cartesian product of the previous
      results (outer) and the new gather (inner), each pair flattened. */
  function Product<V>(prev: seq<Val<V>>, g: seq<Val<V>>): (r: seq<Val<V>>)
    ensures r == [] <==> prev == [] || g == []
    decreases |prev|
  {
    if prev == [] then [] else Product(prev[..|prev| - 1], g) + JoinRow(prev[|prev| - 1], g)
  }

  /** `a <= b` scales by a non-negative factor. */
  lemma MulMonotone(a: nat, b: nat, n: nat)
    requires a <= b
    ensures a * n <= b * n
  {
    assert b * n == a * n + (b - a) * n;
  }

  /** The position of pair (i, j) in a row-major product with rows of
      length n and m rows. */
  function Cell(i: nat, j: nat, n: nat, m: nat): (c: nat)
    requires i < m && j < n
    ensures c < m * n
  {
    MulMonotone(i + 1, m, n);
    i * n + j
  }

  /** The product has |prev|·|g| elements. */
  lemma {:induction false} ProductLength<V>(prev: seq<Val<V>>, g: seq<Val<V>>)
    ensures |Product(prev, g)| == |prev| * |g|
    decreases |prev|
  {
    if prev != [] {
      var n := |prev| - 1;
      ProductLength(prev[..n], g);
      assert |prev| * |g| == n * |g| + |g|;
    }
  }

  /** The cell of (i, j) pairs prev[i] with g[j]. */
  lemma {:induction false} ProductCell<V>(prev: seq<Val<V>>, g: seq<Val<V>>, i: nat, j: nat)
    requires i < |prev| && j < |g|
    ensures |Product(prev, g)| == |prev| * |g|
    ensures Product(prev, g)[Cell(i, j, |g|, |prev|)] == Tuple(MakeFlatTuple([prev[i], g[j]]))
    decreases |prev|
  {
    ProductLength(prev, g);
    var n := |prev| - 1;
    var front := prev[..n];
    ProductLength(front, g);
    var c := Cell(i, j, |g|, |prev|);
    assert Product(prev, g) == Product(front, g) + JoinRow(prev[n], g);
    if i < n {
      assert c == Cell(i, j, |g|, n) && c < |Product(front, g)|;
      ProductCell(front, g, i, j);
      assert front[i] == prev[i];
    } else {
      assert c == |Product(front, g)| + j;
    }
  }

  /** The product has |prev|·|g| elements; the cell of (i, j) pairs prev[i]
      with g[j]. */
  lemma ProductShape<V>(prev: seq<Val<V>>, g: seq<Val<V>>)
    ensures |Product(prev, g)| == |prev| * |g|
    ensures forall i, j | 0 <= i < |prev| && 0 <= j < |g| ::
      Product(prev, g)[Cell(i, j, |g|, |prev|)] == Tuple(MakeFlatTuple([prev[i], g[j]]))
  {
    ProductLength(prev, g);
    forall i, j | 0 <= i < |prev| && 0 <= j < |g|
      ensures Product(prev, g)[Cell(i, j, |g|, |prev|)] == Tuple(MakeFlatTuple([prev[i], g[j]]))
    {
      ProductCell(prev, g, i, j);
    }
  }

  /** Every element of the product is some pair flattened: its index is the
      cell of a unique pair. */
  lemma ProductIndex<V>(prev: seq<Val<V>>, g: seq<Val<V>>, k: nat)
    requires k < |Product(prev, g)|
    ensures |g| > 0 && k / |g| < |prev|
    ensures Product(prev, g)[k] == Tuple(MakeFlatTuple([prev[k / |g|], g[k % |g|]]))
  {
    ProductLength(prev, g);
    var n := |g|;
    CellOfIndex(k, n, |prev|);
    var i, j := k / n, k % n;
    ProductCell(prev, g, i, j);
    assert Cell(i, j, n, |prev|) == k;
  }

  /** Every index below m·n is the cell of its quotient and remainder by n. */
  lemma CellOfIndex(k: nat, n: nat, m: nat)
    requires k < m * n
    ensures n > 0 && 0 <= k / n < m && 0 <= k % n < n
    ensures Cell(k / n, k % n, n, m) == k
  {
    var i, j := k / n, k % n;
    assert k == i * n + j;
    assert i < m by {
      if i >= m {
        MulMonotone(m, i, n);
      }
    }
  }

  /** `query_components<C...>`: the gather of its components. */
  function QueryComponents<V>(primary: Table<V>, extras: seq<Table<V>>): (r: seq<Val<V>>)
    requires primary.WellFormed() && ExtrasWellFormed(extras)
    requires primary.IsSingleton() ==> forall j | 0 <= j < |extras| :: extras[j].IsSingleton()
    ensures extras == [] ==> |r| == |PrimaryRows(primary)|
    ensures extras != [] ==> |r| <= |PrimaryRows(primary)|
    ensures extras != [] ==> forall v | v in r ::
      exists i | 0 <= i < |PrimaryRows(primary)| ::
        Found(PrimaryRows(primary)[i], extras) && v == TupleFor(PrimaryRows(primary)[i], extras)
    ensures extras != [] ==> forall i | 0 <= i < |PrimaryRows(primary)| ::
      Found(PrimaryRows(primary)[i], extras) ==> TupleFor(PrimaryRows(primary)[i], extras) in r
  {
    if extras != [] then GatherBothWays(primary, extras); GatherComponents(primary, extras)
    else GatherComponents(primary, extras)
  }

  /** GatherMembers for every result and every passing row at once. */
  lemma GatherBothWays<V>(primary: Table<V>, extras: seq<Table<V>>)
    requires primary.WellFormed() && ExtrasWellFormed(extras) && extras != []
    requires primary.IsSingleton() ==> forall j | 0 <= j < |extras| :: extras[j].IsSingleton()
    ensures forall v | v in GatherComponents(primary, extras) ::
      exists i | 0 <= i < |PrimaryRows(primary)| ::
        Found(PrimaryRows(primary)[i], extras) && v == TupleFor(PrimaryRows(primary)[i], extras)
    ensures forall i | 0 <= i < |PrimaryRows(primary)| ::
      Found(PrimaryRows(primary)[i], extras) ==> TupleFor(PrimaryRows(primary)[i], extras) in GatherComponents(primary, extras)
  {
    var rows, g := PrimaryRows(primary), GatherComponents(primary, extras);
    forall v | v in g
      ensures exists i | 0 <= i < |rows| :: Found(rows[i], extras) && v == TupleFor(rows[i], extras)
    {
      GatherMembers(primary, extras, v);
    }
    forall i | 0 <= i < |rows| && Found(rows[i], extras) ensures TupleFor(rows[i], extras) in g {
      GatherMembers(primary, extras, TupleFor(rows[i], extras));
    }
  }

  /** `join<C...>()` (through `join_mixin` and `query_join`): the product of
      the current results with the gather of the joined components. */
  function Join<V>(prev: seq<Val<V>>, primary: Table<V>, extras: seq<Table<V>>): (r: seq<Val<V>>)
    requires primary.WellFormed() && ExtrasWellFormed(extras)
    requires primary.IsSingleton() ==> forall j | 0 <= j < |extras| :: extras[j].IsSingleton()
    ensures r == [] <==> prev == [] || GatherComponents(primary, extras) == []
  {
    Product(prev, GatherComponents(primary, extras))
  }

  /** The joined result's size and element order. */
  lemma JoinShape<V>(prev: seq<Val<V>>, primary: Table<V>, extras: seq<Table<V>>)
    requires primary.WellFormed() && ExtrasWellFormed(extras)
    requires primary.IsSingleton() ==> forall j | 0 <= j < |extras| :: extras[j].IsSingleton()
    ensures var g := GatherComponents(primary, extras);
      && |Join(prev, primary, extras)| == |prev| * |g|
      && forall i, j | 0 <= i < |prev| && 0 <= j < |g| ::
           Join(prev, primary, extras)[Cell(i, j, |g|, |prev|)] == Tuple(Wrap(prev[i]) + Wrap(g[j]))
  {
    var g := GatherComponents(primary, extras);
    ProductShape(prev, g);
    forall i, j | 0 <= i < |prev| && 0 <= j < |g|
      ensures MakeFlatTuple([prev[i], g[j]]) == Wrap(prev[i]) + Wrap(g[j])
    {
      MakeFlatTuplePair(prev[i], g[j]);
    }
  }

  /** `get_components` on the registry, read as a table. */
  method TableOf<V>(m: ComponentManager<V>, k: TypeKey) returns (t: Table<V>)
    requires m.Valid() && k.Kind().Some?
    modifies m
    ensures m.Valid() && fresh(m.owner.Keys - old(m.owner.Keys))
    ensures t.WellFormed() && t == Table(k, m.RowsAt(k))
    ensures forall k': TypeKey | k'.Kind().Some? :: m.ViewAt(k') == old(m.ViewAt(k'))
    ensures forall k': TypeKey | k'.Kind().Some? :: m.RowsAt(k') == old(m.RowsAt(k'))
  {
    var rows := m.GetComponents(k);
    t := Table(k, rows);
  }
}
