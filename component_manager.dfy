/** The type-keyed registry of component storages, `mope::component_manager`
    (include/mope_game_engine/component_manager.hxx, lines 246-343). */
module ComponentRegistry {
  import opened Wrappers
  import opened Components
  import opened IterableBox
  import opened ComponentStorage

  /** An entity-component storage as the registry holds it: the plain or the
      relationship specialisation, chosen by the type's category. */
  datatype EntityStore<V> = PlainStore(plain: EntityStorage<V>) | RelationStore(rel: RelationshipStorage<V>)
  {
    function Obj(): object
    {
      if PlainStore? then plain else rel
    }

    /** The specialisation that a type of this key selects. */
    predicate Matches(k: TypeKey)
    {
      k.Kind() == Some(if PlainStore? then EntityCategory else RelationshipCategory)
    }

    ghost predicate Valid()
      reads Obj()
    {
      match this
      case PlainStore(s) => s.Valid()
      case RelationStore(r) => r.Valid()
    }
  }

  /** What one storage holds, whichever kind it is. */
  datatype StoreView<V> =
    | SingletonView(slot: Ptr<V>)
    | EntityView(entries: map<EntityId, V>)
    | RelationView(relations: map<EntityId, map<EntityId, V>>)

  /** The view of a freshly created storage of the key's kind. */
  function EmptyView<V>(k: TypeKey): (v: StoreView<V>)
    requires k.Kind().Some?
  {
    match k.Kind().value
    case SingletonCategory => SingletonView(Null)
    case EntityCategory => EntityView(map[])
    case RelationshipCategory => RelationView(map[])
  }

  /** What `get_components` hands out: the storage's `all()`. */
  datatype Rows<V> =
    | SingletonRows(box: Box<V>)
    | EntityRows(entries: seq<Entry<V>>)
    | RelationRows(relations: seq<Relation<V>>)

  /** The rows of a freshly created storage of the key's kind. */
  function EmptyRows<V>(k: TypeKey): (r: Rows<V>)
    requires k.Kind().Some?
  {
    match k.Kind().value
    case SingletonCategory => SingletonRows(Box(Null))
    case EntityCategory => EntityRows([])
    case RelationshipCategory => RelationRows([])
  }

  /** The effect of `remove(e)` on an entity or relationship storage's view:
      the entity's component is gone, or its relationships are cleared. */
  function RemovedFrom<V>(v: StoreView<V>, e: EntityId): (w: StoreView<V>)
  {
    match v
    case SingletonView(_) => v
    case EntityView(m) => EntityView(m - {e})
    case RelationView(m) => RelationView(if e in m then m[e := map[]] else m)
  }

  class ComponentManager<V> {
    /** `m_entity_component_stores`: `None` is an empty `unique_ptr`. */
    var entityStores: map<TypeKey, Option<EntityStore<V>>>
    /** `m_singleton_component_stores`. */
    var singletonStores: map<TypeKey, Option<SingletonStorage<V>>>
    /** The storage objects, each mapped to the one type it is registered
        under. */
    ghost var owner: map<object, TypeKey>

    ghost predicate Valid()
      reads this, owner.Keys
    {
      && (forall k | k in entityStores && entityStores[k].Some? ::
            && entityStores[k].value.Matches(k)
            && entityStores[k].value.Obj() in owner && owner[entityStores[k].value.Obj()] == k
            && entityStores[k].value.Valid())
      && (forall k | k in singletonStores && singletonStores[k].Some? ::
            k.Kind() == Some(SingletonCategory) && singletonStores[k].value in owner && owner[singletonStores[k].value] == k)
    }

    constructor ()
      ensures Valid() && owner == map[]
      ensures entityStores == map[] && singletonStores == map[]
    {
      entityStores := map[];
      singletonStores := map[];
      owner := map[];
    }

    /** What the storage of type `k` holds; a type with no storage (or a null
        one) reads as empty, as `ensure_storage` would create it. */
    ghost function ViewAt(k: TypeKey): (v: StoreView<V>)
      reads this, owner.Keys
      requires Valid() && k.Kind().Some?
    {
      match k.Kind().value
      case SingletonCategory =>
        SingletonView(if k in singletonStores && singletonStores[k].Some? then singletonStores[k].value.Get() else Null)
      case EntityCategory =>
        EntityView(if k in entityStores && entityStores[k].Some? then entityStores[k].value.plain.Contents() else map[])
      case RelationshipCategory =>
        RelationView(if k in entityStores && entityStores[k].Some? then entityStores[k].value.rel.Contents() else map[])
    }

    /** `all()` of the storage of type `k`, or the empty rows of its kind. */
    function RowsAt(k: TypeKey): (r: Rows<V>)
      reads this, owner.Keys
      requires Valid() && k.Kind().Some?
      ensures r.SingletonRows? <==> k.Kind() == Some(SingletonCategory)
      ensures r.EntityRows? <==> k.Kind() == Some(EntityCategory)
      ensures r.RelationRows? <==> k.Kind() == Some(RelationshipCategory)
    {
      match k.Kind().value
      case SingletonCategory =>
        if k in singletonStores && singletonStores[k].Some? then SingletonRows(singletonStores[k].value.All()) else EmptyRows(k)
      case EntityCategory =>
        if k in entityStores && entityStores[k].Some? then EntityRows(entityStores[k].value.plain.All()) else EmptyRows(k)
      case RelationshipCategory =>
        if k in entityStores && entityStores[k].Some? then RelationRows(entityStores[k].value.rel.All()) else EmptyRows(k)
    }

    /** The rows agree with the view: a singleton's box holds its value, and
        every entity or relationship row is one of the stored entries. */
    lemma RowsMatchView(k: TypeKey)
      requires Valid() && k.Kind().Some?
      ensures RowsAt(k).SingletonRows? ==> RowsAt(k).box.t == ViewAt(k).slot
      ensures RowsAt(k).EntityRows? ==>
        |RowsAt(k).entries| == |ViewAt(k).entries|
        && (forall i | 0 <= i < |RowsAt(k).entries| ::
              RowsAt(k).entries[i].entity in ViewAt(k).entries
              && ViewAt(k).entries[RowsAt(k).entries[i].entity] == RowsAt(k).entries[i].payload)
        && (forall e | e in ViewAt(k).entries :: Entry(e, ViewAt(k).entries[e]) in RowsAt(k).entries)
      ensures RowsAt(k).RelationRows? ==>
        forall i | 0 <= i < |RowsAt(k).relations| ::
          var x := RowsAt(k).relations[i];
          x.entity in ViewAt(k).relations && x.related in ViewAt(k).relations[x.entity]
          && ViewAt(k).relations[x.entity][x.related] == x.payload
      ensures RowsAt(k).RelationRows? ==>
        forall o, r | o in ViewAt(k).relations && r in ViewAt(k).relations[o] ::
          Relation(o, r, ViewAt(k).relations[o][r]) in RowsAt(k).relations
    {
    }

    /** After a step that changed no registry field and no storage but `o`,
        the storage registered under `k`, the registry is still valid (given
        that `o` still is) and every other type's view is as it was. */
    twostate lemma OnlyStoreChanged(k: TypeKey, new o: object)
      requires old(Valid()) && unchanged(this)
      requires o in old(owner) && old(owner)[o] == k
      requires forall p | p in old(owner) && p != o :: unchanged(p)
      requires k in entityStores && entityStores[k].Some? && entityStores[k].value.Obj() == o ==>
        entityStores[k].value.Valid()
      ensures Valid()
      ensures forall k': TypeKey | k'.Kind().Some? && k' != k :: ViewAt(k') == old(ViewAt(k'))
    {
      forall k2 | k2 in entityStores && entityStores[k2].Some?
        ensures entityStores[k2].value.Valid()
      {
        var st := entityStores[k2].value;
        if st.Obj() != o {
          assert unchanged(st.Obj());
          assert old(st.Valid()) == st.Valid();
        }
      }
      forall k': TypeKey | k'.Kind().Some? && k' != k
        ensures ViewAt(k') == old(ViewAt(k'))
      {
        if k' in entityStores && entityStores[k'].Some? {
          var st := entityStores[k'].value;
          assert st.Obj() != o && unchanged(st.Obj());
        }
        if k' in singletonStores && singletonStores[k'].Some? {
          var s := singletonStores[k'].value;
          assert s != o && unchanged(s);
        }
      }
    }

    /** Registering a new, empty singleton storage under `k` keeps the
        registry valid and changes no type's view. */
    twostate lemma SingletonStoreAdded(k: TypeKey, new s: SingletonStorage<V>)
      requires old(Valid()) && k.Kind() == Some(SingletonCategory)
      requires fresh(s) && s.data == Empty
      requires !(k in old(singletonStores) && old(singletonStores[k]).Some?)
      requires singletonStores == old(singletonStores)[k := Some(s)] && entityStores == old(entityStores)
      requires owner == old(owner)[s := k]
      requires forall p | p in old(owner) && p != this :: unchanged(p)
      ensures Valid()
      ensures forall k': TypeKey | k'.Kind().Some? :: ViewAt(k') == old(ViewAt(k'))
      ensures forall k': TypeKey | k'.Kind().Some? :: RowsAt(k') == old(RowsAt(k'))
    {
      forall k2 | k2 in entityStores && entityStores[k2].Some?
        ensures entityStores[k2].value.Valid() && owner[entityStores[k2].value.Obj()] == k2
      {
        assert unchanged(entityStores[k2].value.Obj());
      }
      forall k': TypeKey | k'.Kind().Some? && k' != k
        ensures ViewAt(k') == old(ViewAt(k')) && RowsAt(k') == old(RowsAt(k'))
      {
        if k' in singletonStores && singletonStores[k'].Some? {
          assert unchanged(singletonStores[k'].value);
        }
        if k' in entityStores && entityStores[k'].Some? {
          assert unchanged(entityStores[k'].value.Obj());
        }
      }
      assert RowsAt(k) == SingletonRows(Box(Null)) == old(RowsAt(k));
    }

    /** Registering a new, empty entity-component storage under `k` keeps
        the registry valid and changes no type's view. */
    twostate lemma EntityStoreAdded(k: TypeKey, new st: EntityStore<V>)
      requires old(Valid()) && st.Matches(k) && st.Valid()
      requires fresh(st.Obj())
      requires !(k in old(entityStores) && old(entityStores[k]).Some?)
      requires st.PlainStore? ==> st.plain.Contents() == map[] && st.plain.data == []
      requires st.RelationStore? ==> st.rel.Contents() == map[] && st.rel.data == []
      requires entityStores == old(entityStores)[k := Some(st)] && singletonStores == old(singletonStores)
      requires owner == old(owner)[st.Obj() := k]
      requires forall p | p in old(owner) && p != this :: unchanged(p)
      ensures Valid()
      ensures forall k': TypeKey | k'.Kind().Some? :: ViewAt(k') == old(ViewAt(k'))
      ensures forall k': TypeKey | k'.Kind().Some? :: RowsAt(k') == old(RowsAt(k'))
    {
      forall k2 | k2 in entityStores && entityStores[k2].Some? && k2 != k
        ensures entityStores[k2].value.Valid() && owner[entityStores[k2].value.Obj()] == k2
      {
        assert unchanged(entityStores[k2].value.Obj());
      }
      forall k': TypeKey | k'.Kind().Some? && k' != k
        ensures ViewAt(k') == old(ViewAt(k')) && RowsAt(k') == old(RowsAt(k'))
      {
        if k' in singletonStores && singletonStores[k'].Some? {
          assert unchanged(singletonStores[k'].value);
        }
        if k' in entityStores && entityStores[k'].Some? {
          assert unchanged(entityStores[k'].value.Obj());
        }
      }
      if st.PlainStore? {
        assert RowsAt(k) == EntityRows([]) == old(RowsAt(k));
      } else {
        assert RowsAt(k) == RelationRows([]) == old(RowsAt(k));
      }
    }

    /** Creates a storage for the singleton type `k` unless a non-null one is
        already registered; either way returns the registered one. No type's
        view changes: a new storage is empty. */
    method EnsureSingletonStorage(k: TypeKey) returns (s: SingletonStorage<V>)
      requires Valid() && k.Kind() == Some(SingletonCategory)
      modifies this
      ensures Valid()
      ensures singletonStores == old(singletonStores)[k := Some(s)]
      ensures entityStores == old(entityStores)
      ensures owner == old(owner)[s := k]
      ensures old(k in singletonStores && singletonStores[k].Some?) ==> s == old(singletonStores[k].value)
      ensures !old(k in singletonStores && singletonStores[k].Some?) ==> fresh(s) && s.data == Empty
      ensures forall k': TypeKey | k'.Kind().Some? :: ViewAt(k') == old(ViewAt(k'))
      ensures forall k': TypeKey | k'.Kind().Some? :: RowsAt(k') == old(RowsAt(k'))
    {
      if k in singletonStores && singletonStores[k].Some? {
        s := singletonStores[k].value;
        assert singletonStores == singletonStores[k := Some(s)];
        assert owner == owner[s := k];
      } else {
        s := new SingletonStorage();
        singletonStores := singletonStores[k := Some(s)];
        owner := owner[s := k];
        SingletonStoreAdded(k, s);
      }
    }

    /** Creates an entity-component storage of the key's specialisation. */
    static method NewEntityStore(k: TypeKey) returns (st: EntityStore<V>)
      requires k.Kind() == Some(EntityCategory) || k.Kind() == Some(RelationshipCategory)
      ensures st.Matches(k) && st.Valid() && fresh(st.Obj())
      ensures st.PlainStore? ==> st.plain.Contents() == map[] && st.plain.data == []
      ensures st.RelationStore? ==> st.rel.Contents() == map[] && st.rel.data == []
    {
      if k.Kind() == Some(EntityCategory) {
        var s := new EntityStorage();
        st := PlainStore(s);
      } else {
        var r := new RelationshipStorage();
        st := RelationStore(r);
      }
    }

    /** Creates a storage for the entity or relationship type `k` unless a
        non-null one is already registered; either way returns the
        registered one. No type's view changes: a new storage is empty. */
    method EnsureEntityStorage(k: TypeKey) returns (st: EntityStore<V>)
      requires Valid() && (k.Kind() == Some(EntityCategory) || k.Kind() == Some(RelationshipCategory))
      modifies this
      ensures Valid() && st.Matches(k) && st.Valid()
      ensures entityStores == old(entityStores)[k := Some(st)]
      ensures singletonStores == old(singletonStores)
      ensures owner == old(owner)[st.Obj() := k]
      ensures old(k in entityStores && entityStores[k].Some?) ==> st == old(entityStores[k].value)
      ensures !old(k in entityStores && entityStores[k].Some?) ==> fresh(st.Obj())
      ensures forall k': TypeKey | k'.Kind().Some? :: ViewAt(k') == old(ViewAt(k'))
      ensures forall k': TypeKey | k'.Kind().Some? :: RowsAt(k') == old(RowsAt(k'))
    {
      if k in entityStores && entityStores[k].Some? {
        st := entityStores[k].value;
        assert entityStores == entityStores[k := Some(st)];
        assert owner == owner[st.Obj() := k];
      } else {
        st := NewEntityStore(k);
        entityStores := entityStores[k := Some(st)];
        owner := owner[st.Obj() := k];
        EntityStoreAdded(k, st);
      }
    }

    /** `add_or_set(c)` on the entity storage registered under `k`; only
        that type's view changes. */
    method UpsertEntry(k: TypeKey, st: EntityStore<V>, c: Entry<V>)
      requires Valid() && k in entityStores && entityStores[k] == Some(st) && st.PlainStore?
      modifies st.plain
      ensures Valid()
      ensures forall k': TypeKey | k'.Kind().Some? ::
        ViewAt(k') == if k' == k then EntityView(old(ViewAt(k)).entries[c.entity := c.payload]) else old(ViewAt(k'))
    {
      st.plain.AddOrSet(c);
      OnlyStoreChanged(k, st.plain);
    }

    /** `add_or_set(c)` on the relationship storage registered under `k`;
        only that type's view changes. */
    method UpsertRelation(k: TypeKey, st: EntityStore<V>, c: Relation<V>)
      requires Valid() && k in entityStores && entityStores[k] == Some(st) && st.RelationStore?
      modifies st.rel
      ensures Valid()
      ensures forall k': TypeKey | k'.Kind().Some? ::
        ViewAt(k') == if k' == k then RelationView(SetInner(old(ViewAt(k)).relations, c.entity, c.related, c.payload))
                      else old(ViewAt(k'))
    {
      st.rel.AddOrSet(c);
      OnlyStoreChanged(k, st.rel);
    }

    /** `remove(e)` on the entity or relationship storage registered under
        `k`; only that type's view changes. */
    method RemoveFromStore(k: TypeKey, st: EntityStore<V>, e: EntityId)
      requires Valid() && k in entityStores && entityStores[k] == Some(st)
      modifies st.Obj()
      ensures Valid()
      ensures entityStores == old(entityStores) && singletonStores == old(singletonStores) && owner == old(owner)
      ensures forall k': TypeKey | k'.Kind().Some? ::
        ViewAt(k') == if k' == k then RemovedFrom(old(ViewAt(k)), e) else old(ViewAt(k'))
    {
      if st.PlainStore? {
        st.plain.Remove(e);
      } else {
        st.rel.Remove(e);
      }
      OnlyStoreChanged(k, st.Obj());
    }

    /** `set_component` for a singleton type: the slot now owns `v`. */
    method SetSingleton(k: TypeKey, v: V)
      requires Valid() && k.Kind() == Some(SingletonCategory)
      modifies this, owner.Keys
      ensures Valid() && fresh(owner.Keys - old(owner.Keys))
      ensures forall k': TypeKey | k'.Kind().Some? ::
        ViewAt(k') == if k' == k then SingletonView(Ref(v)) else old(ViewAt(k'))
    {
      var s := EnsureSingletonStorage(k);
      s.AddOrSet(v);
    }

    /** `set_external_component`: the singleton slot now refers to data owned
        elsewhere. */
    method SetExternalComponent(k: TypeKey, p: Ptr<V>)
      requires Valid() && k.Kind() == Some(SingletonCategory)
      modifies this, owner.Keys
      ensures Valid() && fresh(owner.Keys - old(owner.Keys))
      ensures forall k': TypeKey | k'.Kind().Some? ::
        ViewAt(k') == if k' == k then SingletonView(p) else old(ViewAt(k'))
    {
      var s := EnsureSingletonStorage(k);
      s.AddOrSetExternal(p);
    }

    /** `set_component` for an entity component type: upsert by entity. */
    method SetComponent(k: TypeKey, c: Entry<V>)
      requires Valid() && k.Kind() == Some(EntityCategory)
      modifies this, owner.Keys
      ensures Valid() && fresh(owner.Keys - old(owner.Keys))
      ensures forall k': TypeKey | k'.Kind().Some? ::
        ViewAt(k') == if k' == k then EntityView(old(ViewAt(k)).entries[c.entity := c.payload]) else old(ViewAt(k'))
    {
      var st := EnsureEntityStorage(k);
      UpsertEntry(k, st, c);
    }

    /** `set_component` for a relationship type: upsert by (owner, related). */
    method SetRelationship(k: TypeKey, c: Relation<V>)
      requires Valid() && k.Kind() == Some(RelationshipCategory)
      modifies this, owner.Keys
      ensures Valid() && fresh(owner.Keys - old(owner.Keys))
      ensures forall k': TypeKey | k'.Kind().Some? ::
        ViewAt(k') == if k' == k then RelationView(SetInner(old(ViewAt(k)).relations, c.entity, c.related, c.payload))
                      else old(ViewAt(k'))
    {
      var st := EnsureEntityStorage(k);
      UpsertRelation(k, st, c);
    }

    /** `get_component()` for a singleton type. */
    method GetSingleton(k: TypeKey) returns (p: Ptr<V>)
      requires Valid() && k.Kind() == Some(SingletonCategory)
      modifies this
      ensures Valid() && fresh(owner.Keys - old(owner.Keys))
      ensures p == ViewAt(k).slot
      ensures forall k': TypeKey | k'.Kind().Some? :: ViewAt(k') == old(ViewAt(k'))
    {
      var s := EnsureSingletonStorage(k);
      p := s.Get();
    }

    /** `get_component(entity)` for an entity component type. */
    method GetComponent(k: TypeKey, e: EntityId) returns (p: Ptr<Entry<V>>)
      requires Valid() && k.Kind() == Some(EntityCategory)
      modifies this
      ensures Valid() && fresh(owner.Keys - old(owner.Keys))
      ensures p.Ref? <==> e in ViewAt(k).entries
      ensures p.Ref? ==> p.target == Entry(e, ViewAt(k).entries[e])
      ensures forall k': TypeKey | k'.Kind().Some? :: ViewAt(k') == old(ViewAt(k'))
    {
      var st := EnsureEntityStorage(k);
      p := st.plain.Get(e);
    }

    /** `get_component(entity)` for a relationship type: the owner's rows. */
    method GetRelationships(k: TypeKey, e: EntityId) returns (rows: seq<Relation<V>>)
      requires Valid() && k.Kind() == Some(RelationshipCategory)
      modifies this
      ensures Valid() && fresh(owner.Keys - old(owner.Keys))
      ensures rows == OwnedBy(RowsAt(k).relations, e)
      ensures forall k': TypeKey | k'.Kind().Some? :: ViewAt(k') == old(ViewAt(k'))
    {
      var st := EnsureEntityStorage(k);
      rows := st.rel.Get(e);
    }

    /** `get_components`: all rows of the type's storage. */
    method GetComponents(k: TypeKey) returns (rows: Rows<V>)
      requires Valid() && k.Kind().Some?
      modifies this
      ensures Valid() && fresh(owner.Keys - old(owner.Keys))
      ensures rows == RowsAt(k)
      ensures forall k': TypeKey | k'.Kind().Some? :: ViewAt(k') == old(ViewAt(k'))
      ensures forall k': TypeKey | k'.Kind().Some? :: RowsAt(k') == old(RowsAt(k'))
    {
      if k.Kind() == Some(SingletonCategory) {
        var s := EnsureSingletonStorage(k);
        rows := SingletonRows(s.All());
      } else {
        var st := EnsureEntityStorage(k);
        if st.PlainStore? {
          rows := EntityRows(st.plain.All());
        } else {
          rows := RelationRows(st.rel.All());
        }
      }
    }

    /** `remove_component(entity)` for an entity or relationship type. */
    method RemoveComponent(k: TypeKey, e: EntityId)
      requires Valid() && (k.Kind() == Some(EntityCategory) || k.Kind() == Some(RelationshipCategory))
      modifies this, owner.Keys
      ensures Valid() && fresh(owner.Keys - old(owner.Keys))
      ensures forall k': TypeKey | k'.Kind().Some? ::
        ViewAt(k') == if k' == k then RemovedFrom(old(ViewAt(k)), e) else old(ViewAt(k'))
    {
      var st := EnsureEntityStorage(k);
      RemoveFromStore(k, st, e);
    }

    /** `remove_component()` for a singleton type: the slot is emptied. The
        source passes `NoEntity` to a `remove` that takes no argument; this is
        the call it means. */
    method RemoveSingleton(k: TypeKey)
      requires Valid() && k.Kind() == Some(SingletonCategory)
      modifies this, owner.Keys
      ensures Valid() && fresh(owner.Keys - old(owner.Keys))
      ensures forall k': TypeKey | k'.Kind().Some? ::
        ViewAt(k') == if k' == k then SingletonView(Null) else old(ViewAt(k'))
    {
      var s := EnsureSingletonStorage(k);
      s.Remove();
    }

    /** The loop of `game_scene::destroy_entity` over the registry's
        entity-component storages: `remove(e)` on each. Null storages are
        skipped (the source would dereference them). */
    method RemoveEntity(e: EntityId)
      requires Valid()
      modifies owner.Keys
      ensures Valid()
      ensures entityStores == old(entityStores) && singletonStores == old(singletonStores) && owner == old(owner)
      ensures forall k: TypeKey | k.Kind().Some? :: ViewAt(k) == RemovedFrom(old(ViewAt(k)), e)
    {
      var todo := entityStores.Keys;
      while todo != {}
        invariant Valid() && todo <= entityStores.Keys
        invariant entityStores == old(entityStores) && singletonStores == old(singletonStores) && owner == old(owner)
        invariant forall k: TypeKey | k.Kind().Some? ::
          ViewAt(k) == if k in entityStores && k !in todo then RemovedFrom(old(ViewAt(k)), e) else old(ViewAt(k))
        decreases todo
      {
        var k :| k in todo;
        if entityStores[k].Some? {
          RemoveFromStore(k, entityStores[k].value, e);
        }
        todo := todo - {k};
      }
    }
  }
}
