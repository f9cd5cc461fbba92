/** The earlier component vocabulary (include/mope_game_engine/component.hxx).
    The two component concepts are the same as in the current header and
    reuse its predicates; what differs is `relationship<...>`, which here is
    no storage type but a marker a legacy `game_system` lists among its
    requested components to receive a sub-view of other entity components. */
module LegacyComponents {
  import opened Wrappers
  import opened Components

  /** An `entity_component` of the legacy header holds only its entity. */
  datatype EntityComponent = EntityComponent(en: EntityId)

  /** `entity_component(en)`. */
  function MakeEntityComponent(en: EntityId): (c: EntityComponent)
    ensures c.en == en
  {
    EntityComponent(en)
  }

  /** A type a legacy system may request: a component type (its derivation
      facts), or a specialisation `relationship<P, A...>` of entity
      component types. */
  datatype Requested =
    | ComponentType(traits: TypeTraits)
    | RelationshipType(related: seq<TypeTraits>)

  /** `relationship`'s template parameters must all be entity components
      (`relationship<derived_from_entity_component...>`). The header's concept
      also admits the empty pack `relationship<>`, but the only
      `additional_component_view` specialisation for relationships
      (game_system.hxx:48-51) takes a primary parameter first, so a system
      cannot request `relationship<>`; the model requires that primary one. */
  predicate WellFormedRelationship(related: seq<TypeTraits>)
  {
    |related| >= 1 && forall i | 0 <= i < |related| :: DerivedFromEntityComponent(related[i])
  }

  /** `is_specialization<T, relationship>`, for the specialisations a system
      can request (see WellFormedRelationship). */
  predicate IsRelationshipSpecialization(r: Requested)
  {
    r.RelationshipType? && WellFormedRelationship(r.related)
  }

  /** `component_or_relationship`: a requested type is a component exactly
      when its traits classify it, and a relationship exactly when it is a
      specialisation of `relationship` a system can request. */
  predicate ComponentOrRelationship(r: Requested): (b: bool)
    ensures r.ComponentType? ==> (b <==> Classify(r.traits).Some?)
    ensures r.RelationshipType? ==> (b <==> IsRelationshipSpecialization(r))
  {
    (r.ComponentType? && IsComponent(r.traits)) || IsRelationshipSpecialization(r)
  }

  /** How a system's query treats a requested type. */
  datatype Treatment = SingletonLookup | EntityLookup | SubViewLookup

  /** The treatment of a requested type, or None when it is not requestable.
      `relationship` is a `final` struct deriving from nothing, so it is
      neither kind of component. */
  function TreatmentOf(r: Requested): (t: Option<Treatment>)
    ensures t.Some? <==> ComponentOrRelationship(r)
    ensures t == Some(SubViewLookup) <==> IsRelationshipSpecialization(r)
    ensures t == Some(SingletonLookup) <==> r.ComponentType? && DerivedFromSingletonComponent(r.traits)
    ensures t == Some(EntityLookup) <==> r.ComponentType? && DerivedFromEntityComponent(r.traits)
  {
    match r
    case ComponentType(traits) =>
      if DerivedFromSingletonComponent(traits) then Some(SingletonLookup)
      else if DerivedFromEntityComponent(traits) then Some(EntityLookup)
      else None
    case RelationshipType(related) =>
      if WellFormedRelationship(related) then Some(SubViewLookup) else None
  }
}
