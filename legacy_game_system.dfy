/** The earlier query path of `game_system` (include/mope_game_engine/game_system.hxx).
    Each row of the primary component is paired, through a cartesian
    product, with one 0-or-1-element box per further component and one
    single-element sub-view per `relationship<...>`; the products of all rows
    are joined. The source composes lazy views; the model computes the same
    sequences eagerly. */
module LegacySystems {
  import opened Wrappers
  import opened Components
  import opened ComponentRegistry
  import opened Query
  import opened LegacyComponents

  /** A storage of the legacy registry: a singleton or a plain entity
      component (the legacy registry has no relationship storage). */
  predicate LegacyTable<V>(t: Table<V>)
  {
    t.WellFormed() && t.key.Kind() != Some(RelationshipCategory)
  }

  predicate EntityTable<V>(t: Table<V>)
  {
    t.WellFormed() && t.key.Kind() == Some(EntityCategory)
  }

  /** One requested type after the primary one: a component with the
      storage it reads, or `relationship<P, A...>` (the types P, A...) with
      the sub-view `additional_component_view` computed for it. */
  datatype Column<V> =
    | Lookup(table: Table<V>)
    | Related(related: seq<TypeTraits>, view: seq<Val<V>>)
  {
    predicate WellFormed()
    {
      match this
      case Lookup(t) => LegacyTable(t)
      case Related(r, _) => WellFormedRelationship(r)
    }

    /** The requested type, as `component.hxx` classifies it. */
    function Request(): Requested
    {
      match this
      case Lookup(t) => ComponentType(t.key.traits)
      case Related(r, _) => RelationshipType(r)
    }
  }

  predicate ColumnsWellFormed<V>(cols: seq<Column<V>>)
  {
    forall j | 0 <= j < |cols| :: cols[j].WellFormed()
  }

  /** The traits of the tables' types. */
  function TraitsOf<V>(ts: seq<Table<V>>): (r: seq<TypeTraits>)
    ensures |r| == |ts| && forall j | 0 <= j < |ts| :: r[j] == ts[j].key.traits
  {
    seq(|ts|, j requires 0 <= j < |ts| => ts[j].key.traits)
  }

  /** `additional_component_view<relationship<P, A...>>::get`: the gather
      of P with A..., wrapped as a single sub-view. It reads only the
      storages of P and A..., never the primary row. */
  function RelationshipColumn<V>(p: Table<V>, es: seq<Table<V>>): (c: Column<V>)
    requires EntityTable(p) && ExtrasWellFormed(es) && forall j | 0 <= j < |es| :: EntityTable(es[j])
    ensures c.WellFormed() && c.Related?
    ensures c.related == [p.key.traits] + TraitsOf(es)
    ensures c.view == GatherComponents(p, es)
  {
    var r := [p.key.traits] + TraitsOf(es);
    forall i | 0 <= i < |r| ensures DerivedFromEntityComponent(r[i]) {
      if i > 0 {
        assert EntityTable(es[i - 1]) && r[i] == es[i - 1].key.traits;
        assert Classify(r[i]) == Some(EntityCategory);
      } else {
        assert Classify(r[0]) == Some(EntityCategory);
      }
    }
    Related(r, GatherComponents(p, es))
  }

  /** A well-formed column requests a singleton, an entity component or a
      relationship, as its storages say. */
  lemma ColumnRequest<V>(c: Column<V>)
    requires c.WellFormed()
    ensures c.Lookup? && c.table.IsSingleton() ==> TreatmentOf(c.Request()) == Some(SingletonLookup)
    ensures c.Lookup? && !c.table.IsSingleton() ==> TreatmentOf(c.Request()) == Some(EntityLookup)
    ensures c.Related? ==> TreatmentOf(c.Request()) == Some(SubViewLookup)
  {
  }

  /** An element of a result tuple: a component, or a sub-view computed by
      a relationship column. */
  datatype Part<V> = Component(item: Item<V>) | SubView(view: seq<Val<V>>)

  /** A result: a bare primary row (no further columns) or a tuple. */
  datatype Out<V> = Row(item: Item<V>) | Combo(parts: seq<Part<V>>)

  /** `get_single_component_helper`: a singleton is fetched as such, an
      entity component by the primary row's entity. */
  function SingleComponent<V>(t: Table<V>, c0: Item<V>): (p: Ptr<Item<V>>)
    requires LegacyTable(t)
    ensures t.IsSingleton() ==>
      (p.Ref? <==> t.rows.box.t.Ref?) && (p.Ref? ==> p.target == SingletonItem(t.rows.box.t.target))
    ensures !t.IsSingleton() ==>
      (p.Ref? <==> exists i | 0 <= i < |t.rows.entries| :: t.rows.entries[i].entity == EntityOf(c0))
      && (p.Ref? ==> p.target.EntryItem? && p.target.entry in t.rows.entries && p.target.entry.entity == EntityOf(c0))
  {
    GetFromManager(t, EntityOf(c0)).p
  }

  /** Does column `c` contribute an element for primary row `c0`? */
  predicate Present<V>(c: Column<V>, c0: Item<V>)
    requires c.WellFormed()
  {
    c.Related? || SingleComponent(c.table, c0).Ref?
  }

  /** `additional_component_view<C>::get`: a box around the helper's
      pointer; for a relationship, one sub-view: the gather of its own
      components, which does not depend on the primary row. */
  function AdditionalView<V>(c: Column<V>, c0: Item<V>): (r: seq<Part<V>>)
    requires c.WellFormed()
    ensures |r| <= 1 && (|r| == 1 <==> Present(c, c0))
    ensures c.Lookup? && |r| == 1 ==> r[0] == Component(SingleComponent(c.table, c0).target)
    ensures c.Related? ==> r == [SubView(c.view)]
  {
    match c
    case Lookup(t) =>
      var p := SingleComponent(t, c0);
      if p.Ref? then [Component(p.target)] else []
    case Related(_, v) => [SubView(v)]
  }

  /** A relationship's sub-view is the same whatever the primary row. */
  lemma SubViewIndependent<V>(c: Column<V>, x: Item<V>, y: Item<V>)
    requires c.WellFormed() && c.Related?
    ensures AdditionalView(c, x) == AdditionalView(c, y) && Present(c, x)
  {
  }

  /** `[x] + t` for every `t`. */
  function Prepend<T>(x: T, ts: seq<seq<T>>): (r: seq<seq<T>>)
    ensures |r| == |ts| && forall j | 0 <= j < |ts| :: r[j] == [x] + ts[j]
  {
    seq(|ts|, j requires 0 <= j < |ts| => [x] + ts[j])
  }

  /** `cartesian_product_view` over `cols`: every choice of one element per
      column, the first column outermost. */
  function Cartesian<T>(cols: seq<seq<T>>): (r: seq<seq<T>>)
    ensures cols == [] ==> r == [[]]
    ensures cols != [] && cols[0] == [] ==> r == []
    decreases |cols|
  {
    if cols == [] then [[]]
    else
      var rest := Cartesian(cols[1..]);
      Flatten(seq(|cols[0]|, i requires 0 <= i < |cols[0]| => Prepend(cols[0][i], rest)))
  }

  /** The first element of every column. */
  function Heads<T>(cols: seq<seq<T>>): (h: seq<T>)
    requires forall i | 0 <= i < |cols| :: |cols[i]| >= 1
    ensures |h| == |cols| && forall i | 0 <= i < |cols| :: h[i] == cols[i][0]
  {
    seq(|cols|, i requires 0 <= i < |cols| => cols[i][0])
  }

  /** The product of columns of at most one element each: the one tuple of
      their elements when none is empty, nothing otherwise. */
  lemma {:induction false} CartesianOfSmall<T>(cols: seq<seq<T>>)
    requires forall i | 0 <= i < |cols| :: |cols[i]| <= 1
    ensures (forall i | 0 <= i < |cols| :: |cols[i]| == 1) ==> Cartesian(cols) == [Heads(cols)]
    ensures (exists i | 0 <= i < |cols| :: |cols[i]| == 0) ==> Cartesian(cols) == []
    decreases |cols|
  {
    if cols != [] {
      var tail := cols[1..];
      CartesianOfSmall(tail);
      var rest := Cartesian(tail);
      var rows := seq(|cols[0]|, i requires 0 <= i < |cols[0]| => Prepend(cols[0][i], rest));
      assert Cartesian(cols) == Flatten(rows);
      if |cols[0]| == 0 {
        assert rows == [];
      } else {
        assert rows == [Prepend(cols[0][0], rest)];
        assert rows[..0] == [];
        assert Flatten(rows) == Prepend(cols[0][0], rest);
        if forall i | 0 <= i < |cols| :: |cols[i]| == 1 {
          assert forall i | 0 <= i < |tail| :: |tail[i]| == 1 by {
            forall i | 0 <= i < |tail| ensures |tail[i]| == 1 {
              assert tail[i] == cols[i + 1];
            }
          }
          assert Heads(cols) == [cols[0][0]] + Heads(tail);
        } else {
          var i :| 0 <= i < |cols| && |cols[i]| == 0;
          assert tail[i - 1] == cols[i];
        }
      }
    }
  }

  /** Every tuple of the product picks one element of each column, in
      column order. */
  lemma {:induction false} CartesianPicks<T>(cols: seq<seq<T>>, t: seq<T>)
    requires t in Cartesian(cols)
    ensures |t| == |cols| && forall c | 0 <= c < |cols| :: t[c] in cols[c]
    decreases |cols|
  {
    if cols != [] {
      var rest := Cartesian(cols[1..]);
      var rows := seq(|cols[0]|, i requires 0 <= i < |cols[0]| => Prepend(cols[0][i], rest));
      assert Cartesian(cols) == Flatten(rows);
      FlattenMembers(rows, t);
      var i :| 0 <= i < |rows| && t in rows[i];
      var j :| 0 <= j < |rest| && rows[i][j] == t;
      assert t == [cols[0][i]] + rest[j];
      CartesianPicks(cols[1..], rest[j]);
      forall c | 0 <= c < |cols| ensures t[c] in cols[c] {
        if c > 0 {
          assert t[c] == rest[j][c - 1] && cols[1..][c - 1] == cols[c];
        }
      }
    }
  }

  /** The columns of one primary row's product: the row itself, then each
      further column's view. */
  function RowColumns<V>(c0: Item<V>, cols: seq<Column<V>>): (r: seq<seq<Part<V>>>)
    requires ColumnsWellFormed(cols)
    ensures |r| == |cols| + 1 && r[0] == [Component(c0)]
    ensures forall j | 0 <= j < |cols| :: r[j + 1] == AdditionalView(cols[j], c0)
  {
    [[Component(c0)]] + seq(|cols|, j requires 0 <= j < |cols| => AdditionalView(cols[j], c0))
  }

  /** The tuple a row yields when every column is present. */
  function RowTuple<V>(c0: Item<V>, cols: seq<Column<V>>): (t: seq<Part<V>>)
    requires ColumnsWellFormed(cols) && forall j | 0 <= j < |cols| :: Present(cols[j], c0)
    ensures |t| == |cols| + 1 && t[0] == Component(c0)
    ensures forall j | 0 <= j < |cols| :: t[j + 1] == AdditionalView(cols[j], c0)[0]
  {
    RowColumnsSmall(c0, cols);
    Heads(RowColumns(c0, cols))
  }

  /** The lambda of `get_all_components_helper`: the product for one row. */
  function RowProduct<V>(c0: Item<V>, cols: seq<Column<V>>): seq<seq<Part<V>>>
    requires ColumnsWellFormed(cols)
  {
    Cartesian(RowColumns(c0, cols))
  }

  /** Every column of a row's product has at most one element, and one
      exactly when its component is present. */
  lemma RowColumnsSmall<V>(c0: Item<V>, cols: seq<Column<V>>)
    requires ColumnsWellFormed(cols)
    ensures forall i | 0 <= i < |RowColumns(c0, cols)| :: |RowColumns(c0, cols)[i]| <= 1
    ensures forall j | 0 <= j < |cols| :: |RowColumns(c0, cols)[j + 1]| == 1 <==> Present(cols[j], c0)
  {
    var rc := RowColumns(c0, cols);
    forall i | 0 <= i < |rc| ensures |rc[i]| <= 1 {
      if i > 0 {
        assert rc[i] == AdditionalView(cols[i - 1], c0);
      }
    }
  }

  /** A row whose further components are all present yields exactly its
      tuple. */
  lemma RowContributionPresent<V>(c0: Item<V>, cols: seq<Column<V>>)
    requires ColumnsWellFormed(cols) && forall j | 0 <= j < |cols| :: Present(cols[j], c0)
    ensures RowProduct(c0, cols) == [RowTuple(c0, cols)]
    ensures RowOuts(c0, cols) == [Combo(RowTuple(c0, cols))]
  {
    var rc := RowColumns(c0, cols);
    RowColumnsSmall(c0, cols);
    forall i | 0 <= i < |rc| ensures |rc[i]| == 1 {
      if i > 0 {
        assert |rc[(i - 1) + 1]| == 1;
      }
    }
    CartesianOfSmall(rc);
  }

  /** A row missing one of its further components yields nothing. */
  lemma RowContributionAbsent<V>(c0: Item<V>, cols: seq<Column<V>>, j: nat)
    requires ColumnsWellFormed(cols) && j < |cols| && !Present(cols[j], c0)
    ensures RowProduct(c0, cols) == [] && RowOuts(c0, cols) == []
  {
    var rc := RowColumns(c0, cols);
    RowColumnsSmall(c0, cols);
    assert |rc[j + 1]| == 0;
    CartesianOfSmall(rc);
  }

  /** Each primary row yields exactly one tuple when every further
      component exists for it (relationships always do), and none
      otherwise. */
  lemma RowContribution<V>(c0: Item<V>, cols: seq<Column<V>>)
    requires ColumnsWellFormed(cols)
    ensures (forall j | 0 <= j < |cols| :: Present(cols[j], c0)) ==> RowProduct(c0, cols) == [RowTuple(c0, cols)]
    ensures (exists j | 0 <= j < |cols| :: !Present(cols[j], c0)) ==> RowProduct(c0, cols) == []
  {
    if forall j | 0 <= j < |cols| :: Present(cols[j], c0) {
      RowContributionPresent(c0, cols);
    } else {
      var j :| 0 <= j < |cols| && !Present(cols[j], c0);
      RowContributionAbsent(c0, cols, j);
    }
  }

  /** The results of the rows, each product's tuples as combinations
      (`views::join` of the transform). */
  function ProductsOf<V>(rows: seq<Item<V>>, cols: seq<Column<V>>): (r: seq<Out<V>>)
    requires ColumnsWellFormed(cols)
  {
    Flatten(RowsOuts(rows, cols))
  }

  function RowsOuts<V>(rows: seq<Item<V>>, cols: seq<Column<V>>): (r: seq<seq<Out<V>>>)
    requires ColumnsWellFormed(cols)
    ensures |r| == |rows| && forall i | 0 <= i < |rows| :: r[i] == RowOuts(rows[i], cols)
  {
    seq(|rows|, i requires 0 <= i < |rows| => RowOuts(rows[i], cols))
  }

  /** One row's product, each tuple as a combination. */
  function RowOuts<V>(x: Item<V>, cols: seq<Column<V>>): (r: seq<Out<V>>)
    requires ColumnsWellFormed(cols)
  {
    var p := RowProduct(x, cols);
    seq(|p|, i requires 0 <= i < |p| => Combo(p[i]))
  }

  /** The primary component table may be a singleton only when every
      further lookup is a singleton too (the source's `static_assert`). */
  predicate Admissible<V>(primary: Table<V>, cols: seq<Column<V>>)
  {
    && LegacyTable(primary)
    && ColumnsWellFormed(cols)
    && (primary.IsSingleton() ==> forall j | 0 <= j < |cols| :: cols[j].Lookup? ==> cols[j].table.IsSingleton())
  }

  /** `get_all_components_helper<Primary, Additional...>`. */
  function GetAllComponents<V>(primary: Table<V>, cols: seq<Column<V>>): (r: seq<Out<V>>)
    requires Admissible(primary, cols)
    ensures cols == [] ==>
      |r| == |PrimaryRows(primary)| && forall i | 0 <= i < |r| :: r[i] == Row(PrimaryRows(primary)[i])
  {
    var rows := PrimaryRows(primary);
    if cols == [] then seq(|rows|, i requires 0 <= i < |rows| => Row(rows[i]))
    else ProductsOf(rows, cols)
  }

  /** A result tuple as the legacy path represents it. */
  function AsOut<V>(v: Val<V>): (o: Out<V>)
  {
    match v
    case Single(x) => Row(x)
    case Tuple(xs) => Combo(seq(|xs|, i requires 0 <= i < |xs| => Component(xs[i])))
  }

  function AsOuts<V>(vs: seq<Val<V>>): (os: seq<Out<V>>)
    ensures |os| == |vs| && forall i | 0 <= i < |vs| :: os[i] == AsOut(vs[i])
  {
    seq(|vs|, i requires 0 <= i < |vs| => AsOut(vs[i]))
  }

  /** Lookup columns over the given tables. */
  function Lookups<V>(tables: seq<Table<V>>): (cols: seq<Column<V>>)
    ensures |cols| == |tables| && forall j | 0 <= j < |tables| :: cols[j] == Lookup(tables[j])
  {
    seq(|tables|, j requires 0 <= j < |tables| => Lookup(tables[j]))
  }

  lemma LookupsWellFormed<V>(tables: seq<Table<V>>)
    requires forall j | 0 <= j < |tables| :: LegacyTable(tables[j])
    ensures ExtrasWellFormed(tables) && ColumnsWellFormed(Lookups(tables))
  {
    var cols := Lookups(tables);
    forall j | 0 <= j < |cols| ensures cols[j].WellFormed() {
      assert cols[j] == Lookup(tables[j]);
    }
  }

  /** Further column `j` of plain lookups is present for `x` exactly when
      the current query's lookup succeeds, and then holds what that lookup
      dereferences to. */
  lemma LookupColumn<V>(x: Item<V>, tables: seq<Table<V>>, j: nat)
    requires (forall k | 0 <= k < |tables| :: LegacyTable(tables[k])) && j < |tables|
    ensures Lookups(tables)[j].WellFormed()
    ensures Present(Lookups(tables)[j], x) <==> IsNotNull(GetFromManager(tables[j], EntityOf(x)))
    ensures Present(Lookups(tables)[j], x) ==>
      AdditionalView(Lookups(tables)[j], x) == [Component(Deref(GetFromManager(tables[j], EntityOf(x))))]
  {
    assert Lookups(tables)[j] == Lookup(tables[j]);
  }

  /** A row that passes the current filter has every plain column present. */
  lemma FoundPresent<V>(x: Item<V>, tables: seq<Table<V>>)
    requires forall j | 0 <= j < |tables| :: LegacyTable(tables[j])
    requires ExtrasWellFormed(tables) && ColumnsWellFormed(Lookups(tables)) && Found(x, tables)
    ensures forall j | 0 <= j < |tables| :: Present(Lookups(tables)[j], x)
  {
    forall j | 0 <= j < |tables| ensures Present(Lookups(tables)[j], x) {
      LookupColumn(x, tables, j);
      TupleItems(x, tables, j);
    }
  }

  /** A passing row's legacy tuple is its current tuple. */
  lemma TupleAgrees<V>(x: Item<V>, tables: seq<Table<V>>)
    requires forall j | 0 <= j < |tables| :: LegacyTable(tables[j])
    requires ExtrasWellFormed(tables) && ColumnsWellFormed(Lookups(tables)) && Found(x, tables)
    requires forall j | 0 <= j < |tables| :: Present(Lookups(tables)[j], x)
    ensures Combo(RowTuple(x, Lookups(tables))) == AsOut(TupleFor(x, tables))
  {
    var v := TupleFor(x, tables);
    var t := RowTuple(x, Lookups(tables));
    var parts := seq(|v.items|, i requires 0 <= i < |v.items| => Component(v.items[i]));
    forall i | 0 <= i < |t| ensures i < |parts| && t[i] == parts[i] {
      TupleItemAgrees(x, tables, i);
    }
    assert t == parts;
  }

  /** Item `i` of a passing row's legacy tuple is item `i` of its current
      tuple. */
  lemma TupleItemAgrees<V>(x: Item<V>, tables: seq<Table<V>>, i: nat)
    requires forall j | 0 <= j < |tables| :: LegacyTable(tables[j])
    requires ExtrasWellFormed(tables) && ColumnsWellFormed(Lookups(tables)) && Found(x, tables)
    requires forall j | 0 <= j < |tables| :: Present(Lookups(tables)[j], x)
    requires i < |RowTuple(x, Lookups(tables))|
    ensures i < |TupleFor(x, tables).items|
    ensures RowTuple(x, Lookups(tables))[i] == Component(TupleFor(x, tables).items[i])
  {
    if i > 0 {
      var ls := Lookups(tables);
      var j := i - 1;
      var p := GetFromManager(tables[j], EntityOf(x));
      LookupColumn(x, tables, j);
      assert Present(ls[j], x);
      assert AdditionalView(ls[j], x) == [Component(Deref(p))];
      assert RowTuple(x, ls)[j + 1] == AdditionalView(ls[j], x)[0];
      TupleItems(x, tables, j);
      assert TupleFor(x, tables).items[j + 1] == Deref(p);
    }
  }

  /** A row that passes the current filter yields its current tuple. */
  lemma RowAgreesFound<V>(x: Item<V>, tables: seq<Table<V>>)
    requires forall j | 0 <= j < |tables| :: LegacyTable(tables[j])
    requires ExtrasWellFormed(tables) && ColumnsWellFormed(Lookups(tables)) && Found(x, tables)
    ensures RowOuts(x, Lookups(tables)) == [AsOut(TupleFor(x, tables))]
  {
    FoundPresent(x, tables);
    RowContributionPresent(x, Lookups(tables));
    TupleAgrees(x, tables);
  }

  /** A row the current filter drops yields nothing. */
  lemma RowAgreesMissing<V>(x: Item<V>, tables: seq<Table<V>>)
    requires forall j | 0 <= j < |tables| :: LegacyTable(tables[j])
    requires ExtrasWellFormed(tables) && ColumnsWellFormed(Lookups(tables)) && !Found(x, tables)
    ensures RowOuts(x, Lookups(tables)) == []
  {
    var ls := Query.Lookups(tables, EntityOf(x));
    var j :| 0 <= j < |ls| && !IsNotNull(ls[j]);
    LookupColumn(x, tables, j);
    RowContributionAbsent(x, Lookups(tables), j);
  }

  /** For one row and plain lookups, the legacy product agrees with the
      filter-then-dereference of the current query. */
  lemma RowAgrees<V>(x: Item<V>, tables: seq<Table<V>>)
    requires forall j | 0 <= j < |tables| :: LegacyTable(tables[j])
    ensures ExtrasWellFormed(tables) && ColumnsWellFormed(Lookups(tables))
    ensures RowOuts(x, Lookups(tables)) == AsOuts(Select([x], tables))
  {
    LookupsWellFormed(tables);
    SelectOne(x, tables);
    if Found(x, tables) {
      RowAgreesFound(x, tables);
    } else {
      RowAgreesMissing(x, tables);
    }
  }

  /** With only plain further components, the legacy query yields exactly
      what `gather_components` of the current query yields, in the same
      order: one tuple per primary row whose lookups all succeed. */
  lemma {:induction false} ProductsAgree<V>(rows: seq<Item<V>>, tables: seq<Table<V>>)
    requires forall j | 0 <= j < |tables| :: LegacyTable(tables[j])
    ensures ExtrasWellFormed(tables) && ColumnsWellFormed(Lookups(tables))
    ensures ProductsOf(rows, Lookups(tables)) == AsOuts(Select(rows, tables))
    decreases |rows|
  {
    LookupsWellFormed(tables);
    if rows != [] {
      var n := |rows| - 1;
      ProductsAgree(rows[..n], tables);
      RowAgrees(rows[n], tables);
      ProductsSnoc(rows, Lookups(tables));
      SplitLast(rows);
      SelectAppend(rows[..n], [rows[n]], tables);
      AsOutsAppend(Select(rows[..n], tables), Select([rows[n]], tables));
    }
  }

  /** The products of some rows then one more: the first rows' results, then
      the last row's. */
  lemma ProductsSnoc<V>(rows: seq<Item<V>>, cols: seq<Column<V>>)
    requires ColumnsWellFormed(cols) && rows != []
    ensures ProductsOf(rows, cols) == ProductsOf(rows[..|rows| - 1], cols) + RowOuts(rows[|rows| - 1], cols)
  {
    var n := |rows| - 1;
    assert RowsOuts(rows, cols)[..n] == RowsOuts(rows[..n], cols);
  }

  lemma AsOutsAppend<V>(a: seq<Val<V>>, b: seq<Val<V>>)
    ensures AsOuts(a + b) == AsOuts(a) + AsOuts(b)
  {
  }

  /** Row `x` passes (every further component is present for it) and
      `o` is its tuple. */
  ghost predicate Yields<V>(x: Item<V>, cols: seq<Column<V>>, o: Out<V>)
    requires ColumnsWellFormed(cols)
  {
    (forall j | 0 <= j < |cols| :: Present(cols[j], x)) && o == Combo(RowTuple(x, cols))
  }

  /** The results one row adds: its tuple when it passes, nothing otherwise. */
  lemma RowYields<V>(x: Item<V>, cols: seq<Column<V>>, o: Out<V>)
    requires ColumnsWellFormed(cols)
    ensures o in RowOuts(x, cols) <==> Yields(x, cols, o)
  {
    if forall j | 0 <= j < |cols| :: Present(cols[j], x) {
      RowContributionPresent(x, cols);
    } else {
      var j :| 0 <= j < |cols| && !Present(cols[j], x);
      RowContributionAbsent(x, cols, j);
    }
  }

  /** A result is produced exactly for the primary rows whose further
      components all exist, as the tuple of that row. */
  lemma ProductsMembers<V>(rows: seq<Item<V>>, cols: seq<Column<V>>, o: Out<V>)
    requires ColumnsWellFormed(cols)
    ensures o in ProductsOf(rows, cols) <==> exists i | 0 <= i < |rows| :: Yields(rows[i], cols, o)
  {
    var ss := RowsOuts(rows, cols);
    FlattenMembers(ss, o);
    forall i | 0 <= i < |rows| ensures o in ss[i] <==> Yields(rows[i], cols, o) {
      RowYields(rows[i], cols, o);
    }
  }

  /** With further components, the system sees one tuple for each primary
      row whose components all exist, and nothing else. */
  lemma GetAllMembers<V>(primary: Table<V>, cols: seq<Column<V>>, o: Out<V>)
    requires Admissible(primary, cols) && cols != []
    ensures o in GetAllComponents(primary, cols) <==>
      exists i | 0 <= i < |PrimaryRows(primary)| :: Yields(PrimaryRows(primary)[i], cols, o)
  {
    ProductsMembers(PrimaryRows(primary), cols, o);
  }

  /** With plain further components only, the legacy path yields what the
      current `gather_components` yields. */
  lemma PlainColumnsAgree<V>(primary: Table<V>, tables: seq<Table<V>>)
    requires LegacyTable(primary) && forall j | 0 <= j < |tables| :: LegacyTable(tables[j])
    requires primary.IsSingleton() ==> forall j | 0 <= j < |tables| :: tables[j].IsSingleton()
    ensures ExtrasWellFormed(tables) && Admissible(primary, Lookups(tables))
    ensures GetAllComponents(primary, Lookups(tables)) == AsOuts(GatherComponents(primary, tables))
  {
    LookupsWellFormed(tables);
    if tables != [] {
      ProductsAgree(PrimaryRows(primary), tables);
    }
  }

  /** `game_system::tick`: `process_tick` receives the time step and the
      view computed for the system's components. */
  datatype ProcessTick<V> = ProcessTick(timeStep: real, view: seq<Out<V>>)

  function Tick<V>(timeStep: real, primary: Table<V>, cols: seq<Column<V>>): (call: ProcessTick<V>)
    requires Admissible(primary, cols)
    ensures call.timeStep == timeStep && call.view == GetAllComponents(primary, cols)
  {
    ProcessTick(timeStep, GetAllComponents(primary, cols))
  }
}
