/** `map_type`: the rewrite from the authoring type vocabulary to the schema vocabulary. */
module TypeNormalizer {
  import opened EventModel

  const EXTERNAL: string := "EXTERNAL"

  /** A tag that `map_type` leaves alone: no authoring-only tag. */
  predicate IsSchemaTag(t: TypeTag) {
    !t.DomainEvent? && !t.IntegrationEvent? && !t.ReadModel?
  }

  /** The schema tag of a tag. */
  function SchemaTag(t: TypeTag): (r: TypeTag)
    ensures IsSchemaTag(r)
    ensures IsSchemaTag(t) ==> r == t
  {
    match t
    case DomainEvent => SchemaEvent
    case IntegrationEvent => SchemaEvent
    case ReadModel => SchemaReadModel
    case _ => t
  }

  /** `map_type(el)`: DOMAIN_EVENT becomes EVENT; INTEGRATION_EVENT becomes EVENT and its
      context EXTERNAL; READ_MODEL becomes READMODEL; nothing else changes. */
  function MapType(e: Element): (r: Element)
    ensures e.kind == DomainEvent ==> r == e.(kind := SchemaEvent)
    ensures e.kind == IntegrationEvent ==> r == e.(kind := SchemaEvent, context := Some(EXTERNAL))
    ensures e.kind == ReadModel ==> r == e.(kind := SchemaReadModel)
    ensures IsSchemaTag(e.kind) ==> r == e
    ensures IsSchemaTag(r.kind)
  {
    match e.kind
    case IntegrationEvent => e.(kind := SchemaEvent, context := Some(EXTERNAL))
    case _ => e.(kind := SchemaTag(e.kind))
  }

  /** A second application of `map_type` changes nothing. */
  lemma MapTypeIdempotent(e: Element)
    ensures MapType(MapType(e)) == MapType(e)
  {
  }
}
