/** Entity ids, the component categories and the records every storage holds
    (include/mope_game_engine/components/component.hxx). */
module Components {
  import opened Wrappers

  /** `entity_id` is a 64-bit unsigned integer. */
  const EntityIdLimit: int := 0x1_0000_0000_0000_0000

  type EntityId = x: int | 0 <= x < EntityIdLimit

  /** The reserved "no entity" id. */
  const NoEntity: EntityId := 0

  /** The derivation facts about a C++ type that the component concepts test:
      does it derive from `singleton_component`, from `entity_component`,
      from `relationship`? */
  datatype TypeTraits = TypeTraits(fromSingleton: bool, fromEntity: bool, fromRelationship: bool)
  {
    /** `relationship` itself derives from `entity_component`. */
    predicate WellFormed() { fromRelationship ==> fromEntity }
  }

  predicate DerivedFromSingletonComponent(t: TypeTraits) { t.fromSingleton && !t.fromEntity }

  predicate DerivedFromEntityComponent(t: TypeTraits) { t.fromEntity && !t.fromSingleton }

  /** The `component` concept: a singleton or an entity component. */
  predicate IsComponent(t: TypeTraits) { DerivedFromSingletonComponent(t) || DerivedFromEntityComponent(t) }

  /** Which storage specialisation a component type selects. */
  datatype Category = SingletonCategory | EntityCategory | RelationshipCategory

  /** The storage specialisation chosen for a type, or None when the type is not a component. */
  function Classify(t: TypeTraits): (c: Option<Category>)
    ensures c.Some? <==> IsComponent(t)
    ensures c == Some(SingletonCategory) <==> DerivedFromSingletonComponent(t)
    ensures c == Some(EntityCategory) <==> DerivedFromEntityComponent(t) && !t.fromRelationship
    ensures c == Some(RelationshipCategory) <==> DerivedFromEntityComponent(t) && t.fromRelationship
  {
    if DerivedFromSingletonComponent(t) then Some(SingletonCategory)
    else if DerivedFromEntityComponent(t) then
      (if t.fromRelationship then Some(RelationshipCategory) else Some(EntityCategory))
    else None
  }

  /** No type satisfies both the singleton and the entity concept, and every
      component satisfies exactly one of them. */
  lemma ConceptsExclusive(t: TypeTraits)
    ensures !(DerivedFromSingletonComponent(t) && DerivedFromEntityComponent(t))
    ensures IsComponent(t) ==> (DerivedFromSingletonComponent(t) != DerivedFromEntityComponent(t))
  {
  }

  /** A relationship type is an entity component (it derives from `relationship`,
      which derives from `entity_component`), unless it also derives from
      `singleton_component`, in which case it is no component at all. */
  lemma RelationshipIsEntityComponent(t: TypeTraits)
    requires t.WellFormed() && t.fromRelationship
    ensures IsComponent(t) ==> Classify(t) == Some(RelationshipCategory)
    ensures !IsComponent(t) <==> t.fromSingleton
  {
  }

  /** A row of an entity component: the owning entity and the component's own data. */
  datatype Entry<V> = Entry(entity: EntityId, payload: V)

  /** A row of a relationship: the owning entity, the entity it is related to, and its data. */
  datatype Relation<V> = Relation(entity: EntityId, related: EntityId, payload: V)
  {
    /** The `entity_component` base of a relationship. */
    function AsEntityComponent(): (c: Entry<V>)
      ensures c.entity == entity && c.payload == payload
    {
      Entry(entity, payload)
    }
  }

  /** The static identity of a component type, as `std::type_index` gives it:
      a name plus the derivation facts of that type. */
  datatype TypeKey = TypeKey(name: nat, traits: TypeTraits)
  {
    function Kind(): Option<Category> { Classify(traits) }
  }
}
