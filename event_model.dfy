/** The event-model graph shared by the fix and the audit pipelines: slices hold six
    buckets of typed elements, and elements hold INBOUND/OUTBOUND dependency edges. */
module EventModel {

  datatype Option<T> = None | Some(value: T)

  /** The tag in an element's `type` field or in a dependency's `elementType` field.
      Screen, Command and Automation belong to both vocabularies; DomainEvent,
      IntegrationEvent and ReadModel ("DOMAIN_EVENT", "INTEGRATION_EVENT", "READ_MODEL")
      are authoring tags only; SchemaEvent and SchemaReadModel ("EVENT", "READMODEL") are
      schema tags only; Other carries any other string. */
  datatype TypeTag =
    | Screen
    | Command
    | Automation
    | DomainEvent
    | IntegrationEvent
    | ReadModel
    | SchemaEvent
    | SchemaReadModel
    | Other(name: string)

  const KNOWN_TAG_NAMES: set<string> :=
    {"SCREEN", "COMMAND", "AUTOMATION", "DOMAIN_EVENT", "INTEGRATION_EVENT",
     "READ_MODEL", "EVENT", "READMODEL"}

  /** The string the JSON document carries for a tag. */
  function Name(t: TypeTag): string {
    match t
    case Screen => "SCREEN"
    case Command => "COMMAND"
    case Automation => "AUTOMATION"
    case DomainEvent => "DOMAIN_EVENT"
    case IntegrationEvent => "INTEGRATION_EVENT"
    case ReadModel => "READ_MODEL"
    case SchemaEvent => "EVENT"
    case SchemaReadModel => "READMODEL"
    case Other(n) => n
  }

  /** A tag whose Other name is not one of the known strings: every tag read from a
      document is canonical, so tag equality is string equality. */
  predicate Canonical(t: TypeTag) {
    t.Other? ==> t.name !in KNOWN_TAG_NAMES
  }

  /** Reads a tag string; the scripts compare tags only by string equality. */
  function TagOf(s: string): (t: TypeTag)
    ensures Name(t) == s && Canonical(t)
  {
    if s == "SCREEN" then Screen
    else if s == "COMMAND" then Command
    else if s == "AUTOMATION" then Automation
    else if s == "DOMAIN_EVENT" then DomainEvent
    else if s == "INTEGRATION_EVENT" then IntegrationEvent
    else if s == "READ_MODEL" then ReadModel
    else if s == "EVENT" then SchemaEvent
    else if s == "READMODEL" then SchemaReadModel
    else Other(s)
  }

  /** Reading back the name of a canonical tag gives the tag: the datatype loses nothing
      of the string comparisons the scripts make. */
  lemma TagOfName(t: TypeTag)
    requires Canonical(t)
    ensures TagOf(Name(t)) == t
  {
  }

  /** The `type` field of a dependency: INBOUND, OUTBOUND, or anything else (absent). */
  datatype Direction = Inbound | Outbound | Unmarked

  /** A dependency edge: the id of the element at the other end, its direction, its
      optional title and the (optional) type tag of the element at the other end. */
  datatype Dependency = Dependency(
    id: string,
    direction: Direction,
    title: Option<string>,
    elementType: Option<TypeTag>)

  /** An element. `context` is the optional context field ("EXTERNAL" for a former
      integration event); `sliceId` and `sliceIndex` are the transient `_slice_id` and
      `_slice_index` fields the fix pipeline adds and removes again. An absent
      `dependencies` field is the empty sequence. */
  datatype Element = Element(
    id: string,
    title: string,
    kind: TypeTag,
    context: Option<string>,
    dependencies: seq<Dependency>,
    sliceId: Option<string>,
    sliceIndex: Option<nat>)

  /** A slice with its six buckets; an absent bucket is the empty sequence. */
  datatype Slice = Slice(
    id: string,
    commands: seq<Element>,
    events: seq<Element>,
    readmodels: seq<Element>,
    screens: seq<Element>,
    processors: seq<Element>,
    integrationEvents: seq<Element>)

  /** The elements of a slice in the order both scripts visit them. */
  function Members(s: Slice): seq<Element> {
    s.commands + s.events + s.readmodels + s.screens + s.processors + s.integrationEvents
  }

  /** All elements of all slices, slice by slice in bucket order. */
  function AllElements(slices: seq<Slice>): seq<Element>
    decreases |slices|
  {
    if slices == [] then []
    else AllElements(slices[..|slices| - 1]) + Members(slices[|slices| - 1])
  }

  /** The ids of a sequence of elements. */
  function Ids(es: seq<Element>): (r: seq<string>)
    ensures |r| == |es|
    ensures forall j :: 0 <= j < |es| ==> r[j] == es[j].id
  {
    seq(|es|, j requires 0 <= j < |es| => es[j].id)
  }

  predicate Distinct(xs: seq<string>) {
    forall i, j :: 0 <= i < j < |xs| ==> xs[i] != xs[j]
  }

  /** Element ids are unique across the whole graph. */
  predicate UniqueIds(slices: seq<Slice>) {
    Distinct(Ids(AllElements(slices)))
  }
}
