/** The earlier entity-component registry `mope::ecs_manager`
    (include/mope_game_engine/ecs_manager.hxx, src/ecs_manager.cxx). One
    storage per component type, created on first use; entities are numbered
    by a counter; game systems are kept in a list and ticked in order. The
    storages are those of the current registry (singleton slot and dense
    entity array), except the entity `remove` as the legacy header writes
    it, which is modelled on its own below. */
module LegacyEcs {
  import opened Wrappers
  import opened Components
  import opened ComponentStorage
  import opened ComponentRegistry
  import opened Scene

  /** A component type of the legacy registry: its key, and whether it
      derives from `ecs_manager` (a scene type). */
  datatype LegacyType = LegacyType(key: TypeKey, fromEcsManager: bool)
  {
    /** A component of the legacy vocabulary (which has no relationship
        components); `ecs_manager` is a singleton component, so every type
        derived from it is one, and only such types share its key. */
    predicate WellFormed()
    {
      && key.Kind().Some? && key.Kind() != Some(RelationshipCategory)
      && (fromEcsManager ==> key.Kind() == Some(SingletonCategory))
      && (key == EcsManagerKey ==> fromEcsManager)
    }
  }

  /** The key of `ecs_manager` itself: a singleton component. */
  const EcsManagerKey: TypeKey := TypeKey(0, TypeTraits(true, false, false))

  /** `ManagedComponent<Component>`: every type derived from `ecs_manager`
      is stored as `ecs_manager`; every other type as itself. */
  function Managed(t: LegacyType): (k: TypeKey)
    requires t.WellFormed()
    ensures k.Kind() == t.key.Kind()
    ensures k == EcsManagerKey <==> t.fromEcsManager
    ensures !t.fromEcsManager ==> k == t.key
  {
    if t.fromEcsManager then EcsManagerKey else t.key
  }

  /** Two types share a storage exactly when both derive from `ecs_manager`
      or they are the same non-scene type. */
  lemma ManagedShared(a: LegacyType, b: LegacyType)
    requires a.WellFormed() && b.WellFormed()
    ensures Managed(a) == Managed(b) <==>
      (a.fromEcsManager && b.fromEcsManager) || (!a.fromEcsManager && !b.fromEcsManager && a.key == b.key)
  {
  }

  /** `component_manager<entity>::remove` exactly as the legacy header
      writes it. After the swap the removed row is the last one, so the
      index assignment meant for the moved row rewrites the removed
      entity's own index; the moved entity keeps pointing at the old last
      position. */
  function RemoveAsWritten<V>(data: seq<Entry<V>>, index: map<EntityId, nat>, e: EntityId)
    : (r: (seq<Entry<V>>, map<EntityId, nat>))
    requires e in index ==> index[e] < |data|
    ensures e !in index ==> r == (data, index)
    ensures e in index ==> |r.0| == |data| - 1 && e !in r.1
    ensures e in index ==> r.0 == SwapRemove(data, index[e])
  {
    if e in index then
      var i, last := index[e], |data| - 1;
      var swapped := data[i := data[last]][last := data[i]];
      var repointed := index[swapped[last].entity := i];
      var popped := swapped[..last];
      (popped, repointed - {e})
    else (data, index)
  }

  /** Removing any row but the last leaves the moved entity indexed one past
      the end of the array: the bijection is broken. */
  lemma RemoveAsWrittenBreaksIndexing<V>(data: seq<Entry<V>>, index: map<EntityId, nat>, e: EntityId)
    requires DenseIndexing(data, index) && e in index && index[e] < |data| - 1
    ensures data[|data| - 1].entity in RemoveAsWritten(data, index, e).1
    ensures RemoveAsWritten(data, index, e).1[data[|data| - 1].entity] == |RemoveAsWritten(data, index, e).0|
    ensures !DenseIndexing(RemoveAsWritten(data, index, e).0, RemoveAsWritten(data, index, e).1)
  {
    var moved := data[|data| - 1].entity;
    assert moved != e;
    var r := RemoveAsWritten(data, index, e);
    assert r.1[moved] == index[moved] == |data| - 1;
  }

  /** Removing the last row is where the written code and the corrected
      `EntityStorage.Remove` agree. */
  lemma RemoveAsWrittenLastRow<V>(data: seq<Entry<V>>, index: map<EntityId, nat>, e: EntityId)
    requires DenseIndexing(data, index) && e in index && index[e] == |data| - 1
    ensures RemoveAsWritten(data, index, e) == (SwapRemove(data, index[e]), index[data[|data| - 1].entity := index[e]] - {e})
    ensures DenseIndexing(RemoveAsWritten(data, index, e).0, RemoveAsWritten(data, index, e).1)
  {
    DenseSwapRemove(data, index, e);
  }

  /** Two entities 1 and 2; removing 1 leaves entity 2 in row 0 but indexed
      at 1, so a later `get(2)` reads past the end of the array. */
  lemma RemoveAsWrittenExample(x: int)
    ensures DenseIndexing([Entry(1, x), Entry(2, x)], map[1 := 0, 2 := 1])
    ensures RemoveAsWritten([Entry(1, x), Entry(2, x)], map[1 := 0, 2 := 1], 1) == ([Entry(2, x)], map[2 := 1])
    ensures !DenseIndexing([Entry(2, x)], map[2 := 1])
  {
    var data, index := [Entry(1, x), Entry(2, x)], map[1 := 0, 2 := 1];
    assert index.Keys == {1, 2};
    var r := RemoveAsWritten(data, index, 1);
    assert r.0 == [Entry(2, x)];
    assert r.1 == map[2 := 1];
  }

  /** One call `system->tick(*this, time_step)`. */
  datatype TickCall = TickCall(system: nat, timeStep: real)

  /** The calls `run_systems(time_step)` makes: every system once, in the
      order they were added. */
  function TickCalls(systems: seq<nat>, timeStep: real): (r: seq<TickCall>)
    ensures |r| == |systems|
    ensures forall i | 0 <= i < |systems| :: r[i].system == systems[i] && r[i].timeStep == timeStep
  {
    seq(|systems|, i requires 0 <= i < |systems| => TickCall(systems[i], timeStep))
  }

  /** Ticking the first systems then one more is ticking them all. */
  lemma TickCallsSnoc(systems: seq<nat>, s: nat, timeStep: real)
    ensures TickCalls(systems + [s], timeStep) == TickCalls(systems, timeStep) + [TickCall(s, timeStep)]
  {
    var a, b := TickCalls(systems + [s], timeStep), TickCalls(systems, timeStep) + [TickCall(s, timeStep)];
    forall i | 0 <= i < |a| ensures a[i] == b[i] {
      if i < |systems| {
        assert (systems + [s])[i] == systems[i];
      }
    }
  }

  class EcsManager<V> {
    /** `m_next_entity`: the last id handed out, 0 before the first. */
    var nextEntity: EntityId
    /** How many ids have been handed out. */
    ghost var created: nat
    /** `m_component_managers`. */
    var manager: ComponentManager<V>
    /** `m_game_systems`, each system by its identity. */
    var systems: seq<nat>
    /** Every `tick` call so far, in order. */
    ghost var ticks: seq<TickCall>

    ghost predicate Valid()
      reads this, manager, manager.owner.Keys
    {
      && manager.Valid()
      && this !in manager.owner
      && nextEntity == NthEntity(created)
    }

    /** `ecs_manager()`: the counter at 0, no storages, no systems. */
    constructor ()
      ensures Valid() && fresh(manager)
      ensures nextEntity == NoEntity && created == 0
      ensures manager.entityStores == map[] && manager.singletonStores == map[]
      ensures systems == [] && ticks == []
    {
      nextEntity := 0;
      created := 0;
      manager := new ComponentManager();
      systems := [];
      ticks := [];
    }

    /** `create_entity`: pre-increments the counter and returns it; 0 is
        never handed out until the counter wraps. */
    method CreateEntity() returns (e: EntityId)
      requires Valid()
      modifies this
      ensures Valid() && created == old(created) + 1
      ensures e == nextEntity == NthEntity(created)
      ensures created < EntityIdLimit ==> e == old(nextEntity) + 1 && e != NoEntity
      ensures manager == old(manager) && systems == old(systems) && ticks == old(ticks)
    {
      nextEntity := (nextEntity + 1) % EntityIdLimit;
      created := created + 1;
      e := nextEntity;
    }

    /** `destroy_entity`: `remove(e)` on every storage. A singleton storage
        inherits the no-op `remove` of the base class, so singletons are
        untouched; every entity storage loses the entity's component. */
    method DestroyEntity(e: EntityId)
      requires Valid()
      modifies manager.owner.Keys
      ensures Valid()
      ensures forall k: TypeKey | k.Kind() == Some(SingletonCategory) :: manager.ViewAt(k) == old(manager.ViewAt(k))
      ensures forall k: TypeKey | k.Kind() == Some(EntityCategory) ::
        manager.ViewAt(k).entries == old(manager.ViewAt(k)).entries - {e}
    {
      manager.RemoveEntity(e);
    }

    /** `set_component(c)` for an entity component type: upsert by entity,
        returning a pointer to the stored row. */
    method SetComponent(t: LegacyType, c: Entry<V>) returns (p: Ptr<Entry<V>>)
      requires Valid() && t.WellFormed() && t.key.Kind() == Some(EntityCategory)
      modifies manager, manager.owner.Keys
      ensures Valid() && fresh(manager.owner.Keys - old(manager.owner.Keys))
      ensures forall k: TypeKey | k.Kind().Some? ::
        manager.ViewAt(k) == if k == t.key then EntityView(old(manager.ViewAt(k)).entries[c.entity := c.payload])
                             else old(manager.ViewAt(k))
      ensures p.Ref? && p.target == Entry(c.entity, manager.ViewAt(t.key).entries[c.entity])
    {
      manager.SetComponent(Managed(t), c);
      p := Ref(c);
    }

    /** `set_component(c)` for a singleton type: the storage of its managed
        type now owns the value; the returned pointer points at it. */
    method SetSingleton(t: LegacyType, v: V) returns (p: Ptr<V>)
      requires Valid() && t.WellFormed() && t.key.Kind() == Some(SingletonCategory)
      modifies manager, manager.owner.Keys
      ensures Valid() && fresh(manager.owner.Keys - old(manager.owner.Keys))
      ensures forall k: TypeKey | k.Kind().Some? ::
        manager.ViewAt(k) == if k == Managed(t) then SingletonView(Ref(v)) else old(manager.ViewAt(k))
      ensures p == manager.ViewAt(Managed(t)).slot && p == Ref(v)
    {
      manager.SetSingleton(Managed(t), v);
      p := Ref(v);
    }

    /** `set_external_component(component)`: the singleton storage refers to
        data owned elsewhere, and the pointer is handed back. */
    method SetExternalComponent(t: LegacyType, q: Ptr<V>) returns (p: Ptr<V>)
      requires Valid() && t.WellFormed() && t.key.Kind() == Some(SingletonCategory)
      modifies manager, manager.owner.Keys
      ensures Valid() && fresh(manager.owner.Keys - old(manager.owner.Keys))
      ensures forall k: TypeKey | k.Kind().Some? ::
        manager.ViewAt(k) == if k == Managed(t) then SingletonView(q) else old(manager.ViewAt(k))
      ensures p == manager.ViewAt(Managed(t)).slot && p == q
    {
      manager.SetExternalComponent(Managed(t), q);
      p := q;
    }

    /** `get_component()` for a singleton type: what the managed type's
        storage holds (creating an empty storage when there is none). */
    method GetSingleton(t: LegacyType) returns (p: Ptr<V>)
      requires Valid() && t.WellFormed() && t.key.Kind() == Some(SingletonCategory)
      modifies manager
      ensures Valid() && fresh(manager.owner.Keys - old(manager.owner.Keys))
      ensures p == manager.ViewAt(Managed(t)).slot
      ensures forall k: TypeKey | k.Kind().Some? :: manager.ViewAt(k) == old(manager.ViewAt(k))
    {
      p := manager.GetSingleton(Managed(t));
    }

    /** `get_component(en)` for an entity component type. */
    method GetComponent(t: LegacyType, e: EntityId) returns (p: Ptr<Entry<V>>)
      requires Valid() && t.WellFormed() && t.key.Kind() == Some(EntityCategory)
      modifies manager
      ensures Valid() && fresh(manager.owner.Keys - old(manager.owner.Keys))
      ensures p.Ref? <==> e in manager.ViewAt(t.key).entries
      ensures p.Ref? ==> p.target == Entry(e, manager.ViewAt(t.key).entries[e])
      ensures forall k: TypeKey | k.Kind().Some? :: manager.ViewAt(k) == old(manager.ViewAt(k))
    {
      p := manager.GetComponent(Managed(t), e);
    }

    /** `get_components()`: `all()` of the managed type's storage. */
    method GetComponents(t: LegacyType) returns (rows: Rows<V>)
      requires Valid() && t.WellFormed()
      modifies manager
      ensures Valid() && fresh(manager.owner.Keys - old(manager.owner.Keys))
      ensures rows == manager.RowsAt(Managed(t))
      ensures rows.SingletonRows? <==> t.key.Kind() == Some(SingletonCategory)
      ensures forall k: TypeKey | k.Kind().Some? :: manager.ViewAt(k) == old(manager.ViewAt(k))
    {
      rows := manager.GetComponents(Managed(t));
    }

    /** `add_game_system(system)`: appended to the list. */
    method AddGameSystem(s: nat)
      modifies this
      ensures systems == old(systems) + [s]
      ensures nextEntity == old(nextEntity) && created == old(created)
      ensures manager == old(manager) && ticks == old(ticks)
    {
      systems := systems + [s];
    }

    /** `run_systems(time_step)`: every system is ticked once, in the order
        it was added. */
    method RunSystems(timeStep: real)
      modifies this
      ensures ticks == old(ticks) + TickCalls(systems, timeStep)
      ensures systems == old(systems) && nextEntity == old(nextEntity)
      ensures created == old(created) && manager == old(manager)
    {
      for i := 0 to |systems|
        invariant ticks == old(ticks) + TickCalls(systems[..i], timeStep)
        invariant systems == old(systems) && nextEntity == old(nextEntity)
        invariant created == old(created) && manager == old(manager)
      {
        TickCallsSnoc(systems[..i], systems[i], timeStep);
        assert systems[..i + 1] == systems[..i] + [systems[i]];
        ticks := ticks + [TickCall(systems[i], timeStep)];
      }
      assert systems[..|systems|] == systems;
    }
  }

  /** A scene type stores itself as `ecs_manager`: once any scene type's
      singleton is set, asking for `ecs_manager` (or any other scene type)
      yields the same value. */
  method SceneSingletonShared<V>(m: EcsManager<V>, scene: LegacyType, other: LegacyType, v: V)
      returns (p: Ptr<V>)
    requires m.Valid() && scene.WellFormed() && other.WellFormed()
    requires scene.fromEcsManager && other.fromEcsManager
    modifies m.manager, m.manager.owner.Keys
    ensures m.Valid() && p == Ref(v)
  {
    var _ := m.SetSingleton(scene, v);
    p := m.GetSingleton(other);
  }
}
