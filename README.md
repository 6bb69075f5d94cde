# Event-model fixer and pattern audit, in Dafny

This project models the two scripts that maintain the Weavr self-model. The self-model is an
event-modelling document: a list of slices, each holding six buckets of elements (commands,
events, readmodels, screens, processors, integrationEvents). Each element has a type and
dependency edges marked INBOUND or OUTBOUND.

- `fix_model` (public/examples/fix_weavr_model.py) first gives up on a document without
  slices. Otherwise it runs four phases over an id→element dictionary:
  1. it collects every bucket entry into `element_map`, rewriting its type with `map_type`
     and tagging it with `_slice_id` and `_slice_index`;
  2. for every INBOUND edge on E from a known S it appends an OUTBOUND edge S→E, unless S
     already has an OUTBOUND edge to E, and counts the appended edges in `count_fixed`;
  3. it drops every edge that is not OUTBOUND;
  4. it computes a layout entry per element and removes the two transient fields.
- `audit_patterns` (public/examples/audit_patterns.py) reads the document and lists one
  diagnostic for every COMMAND, DOMAIN_EVENT, READ_MODEL or AUTOMATION element that has
  no INBOUND edge from an allowed type of predecessor.

Modules, one per file:

- `EventModel` (event_model.dfy) holds the document as values:
  - the closed `TypeTag` datatype, with the internal tags, the schema tags and `Other`;
  - `Dependency`, whose `Direction` is `Inbound`, `Outbound` or `Unmarked` (absent or any
    other string);
  - `Element` and `Slice`.
- `TypeNormalizer` (type_normalizer.dfy) is `map_type`.
- `EdgeSynthesis` (edge_synthesis.dfy) holds the specification functions of phases 2 and
  3 and the lemmas about them.
- `LayoutEngine` (layout_engine.dfy) holds the specification of phase 4: the constants,
  `TypeX`, `Place`, `LayoutRow` and `LayoutAll`.
- `FixWeavrModel` (fix_weavr_model.dfy) holds the class `ModelFixer`:
  - its fields are `element_map` (a `map` plus its key order, since phases 2 and 3
    visit the dictionary in insertion order), `count_fixed` and `layout`; phase 4 walks
    the slices and their buckets, not the dictionary;
  - each phase is a method with loops, proved equal to a specification function;
  - `Fix` composes those functions into the whole run.
- `FixProperties` (fix_properties.dfy) states what `fix_model` promises about its output,
  in terms of the input slices.
- `FixRerun` (fix_rerun.dfy) proves that a second run on the written document changes
  nothing.
- `PatternAudit` (audit_patterns.dfy) holds the audit: a recursive specification
  `Violations` and the loop methods proved equal to it.

Where the code does not promise what one might expect, the model follows the code:

- Layout coordinates are not unique across types. EVENT and AUTOMATION share column 500
  with separate counters, so the first of each in a slice land on the same cell
  (`LayoutEngine.EventAndAutomationShareCell`). Only elements of one type in one slice are
  kept apart (`LayoutEngine.RankIncreasing`).
- Slice bands are kept apart, but slices are not a slice width apart. The x values of
  slice i lie in `[i*1300, i*1300 + 750]`, inside the band `[i*1300, i*1300 + 1200)`, and
  consecutive bands are separated by the 100 gap (`LayoutEngine.PlaceBand`). A READMODEL
  at `i*1300 + 750` and a SCREEN of the next slice at `(i+1)*1300` are only 550 apart
  (`LayoutEngine.NeighbourSlicesGap`).
- The audit consults the internal type names (DOMAIN_EVENT, READ_MODEL, …) both for the
  element and for the edge's `elementType`. Schema types such as EVENT or READMODEL never
  trigger a rule and never satisfy one.

## Model

| member | source | states |
|---|---|---|
| EventModel.TagOf | public/examples/fix_weavr_model.py:31 | reading a `type` string gives the tag whose name is that string, in canonical form |
| EventModel.TagOfName | public/examples/fix_weavr_model.py:31 | reading back the name of a canonical tag gives the tag again |
| EventModel.Members | public/examples/fix_weavr_model.py:47-53 | the elements of a slice in the order both scripts visit them: commands, events, readmodels, screens, processors, integrationEvents |
| TypeNormalizer.MapType | public/examples/fix_weavr_model.py:30-41 | DOMAIN_EVENT becomes EVENT; INTEGRATION_EVENT becomes EVENT with context EXTERNAL; READ_MODEL becomes READMODEL; every other element is returned unchanged; the result always has a schema type |
| TypeNormalizer.MapTypeIdempotent | public/examples/fix_weavr_model.py:30-41 | a second `map_type` changes nothing |
| TypeNormalizer.SchemaTag | public/examples/fix_weavr_model.py:32-38 | the tag rewrite yields a schema tag and fixes schema tags |
| EdgeSynthesis.Keep | public/examples/fix_weavr_model.py:96 | the filtered list holds exactly the edges of the given direction, and is no longer than the input |
| EdgeSynthesis.OutTargets | public/examples/fix_weavr_model.py:83 | the ids of a list's OUTBOUND edges, the list the guard at line 83 searches |
| EdgeSynthesis.TitleOr | public/examples/fix_weavr_model.py:87 | an edge's title, or the empty string when it has none |
| EdgeSynthesis.KeepAppend | public/examples/fix_weavr_model.py:96 | filtering distributes over concatenation, so relative order is kept |
| EdgeSynthesis.KeepIdempotent | public/examples/fix_weavr_model.py:96 | filtering twice is filtering once |
| EdgeSynthesis.KeepNone | public/examples/fix_weavr_model.py:76 | a list without edges of a direction filters to empty |
| EdgeSynthesis.CountOutZero | public/examples/fix_weavr_model.py:83 | a target has no OUTBOUND edge in a list exactly when it is not among the list's OUTBOUND targets |
| EdgeSynthesis.OutTargetsAppend | public/examples/fix_weavr_model.py:83-84 | appending an OUTBOUND edge adds its target to the OUTBOUND targets, and nothing else does |
| EdgeSynthesis.NewEdge | public/examples/fix_weavr_model.py:84-89 | the appended edge targets E, is OUTBOUND, carries E's type, and copies the INBOUND edge's title, or the empty string when that edge has none |
| EdgeSynthesis.AddEdge | public/examples/fix_weavr_model.py:79-90 | one INBOUND edge changes at most its source's entry, and only that entry's list: the old list is a prefix of the new one, with at most one more edge; afterwards the source has an OUTBOUND edge to E, and `count_fixed` has grown by the number of edges appended; an unknown source changes nothing |
| EdgeSynthesis.AddEdges | public/examples/fix_weavr_model.py:78-90 | the inner loop keeps the keys and raises `count_fixed` by at most the number of INBOUND edges |
| EdgeSynthesis.SynthesizeFrom | public/examples/fix_weavr_model.py:70-90 | the outer loop keeps the keys and never lowers `count_fixed` |
| EdgeSynthesis.Synthesize | public/examples/fix_weavr_model.py:69-90 | phase 2 neither adds nor removes a key |
| EdgeSynthesis.FirstFromSpec | public/examples/fix_weavr_model.py:83-87 | an element has a first INBOUND edge from S exactly when some INBOUND edge names S, and that first edge is one of them |
| EdgeSynthesis.FirstFromAt | public/examples/fix_weavr_model.py:83-87 | an INBOUND edge is the first from its source when no earlier INBOUND edge names that source |
| EdgeSynthesis.InboundStable | public/examples/fix_weavr_model.py:76-89 | appending synthesised edges never changes an element's INBOUND edges, sources or type |
| EdgeSynthesis.AppendExtends | public/examples/fix_weavr_model.py:83-90 | one guarded append keeps the extension invariant: same keys and fields, old lists are prefixes, appended edges are synthesised, at most one new edge per target |
| EdgeSynthesis.AppendCounts | public/examples/fix_weavr_model.py:83-90 | after one guarded append, each target's OUTBOUND count either stays the same or goes from 0 to 1 |
| EdgeSynthesis.AppendSynthesized | public/examples/fix_weavr_model.py:84-89 | after one append, every edge past the original list is a synthesised edge |
| EdgeSynthesis.AddEdgeTargets | public/examples/fix_weavr_model.py:79-90 | one INBOUND edge adds E to the OUTBOUND targets of its source and changes no other target set |
| EdgeSynthesis.AddEdgeFirst | public/examples/fix_weavr_model.py:79-90 | once every earlier INBOUND edge of E has given its source an edge to E, an edge is appended only for the first INBOUND edge from a source, so the invariant holds |
| EdgeSynthesis.AddEdgeExtends | public/examples/fix_weavr_model.py:79-90 | one INBOUND edge keeps the invariant; it adds E to its source's OUTBOUND targets, when the source is known, and adds nothing else; the sources of the edges handled so far all have an edge to E |
| EdgeSynthesis.AddEdgesExtends | public/examples/fix_weavr_model.py:78-90 | the rest of the inner loop, once the earlier edges are handled, keeps the invariant and adds exactly E to the OUTBOUND targets of its known sources |
| EdgeSynthesis.SynthesizeFromExtends | public/examples/fix_weavr_model.py:70-90 | the outer loop over any key order keeps the invariant and adds exactly the dependents of each source among the visited keys |
| EdgeSynthesis.StepExtends | public/examples/fix_weavr_model.py:70-90 | one turn of the outer loop keeps the invariant and adds that element to the targets of its known sources |
| EdgeSynthesis.SynthesizeTargets | public/examples/fix_weavr_model.py:69-90 | after phase 2, each element's OUTBOUND targets are its old ones plus every element with an INBOUND edge from it. A new edge S→E carries E's type and the title of E's first INBOUND edge from S. Each (source, target) pair gains at most one edge |
| EdgeSynthesis.SynthesizeSymmetric | public/examples/fix_weavr_model.py:78-89 | every INBOUND edge E←S with S a key gets an OUTBOUND edge S→E |
| EdgeSynthesis.AppendedIsOwed | public/examples/fix_weavr_model.py:83-89 | every appended edge is owed: its target names the source in an INBOUND edge, the source had no OUTBOUND edge to it, and it carries the target's type and the title of the target's first INBOUND edge from the source |
| EdgeSynthesis.OwedIsAppended | public/examples/fix_weavr_model.py:83-89 | an owed edge whose target the source now has an OUTBOUND edge to has been appended |
| EdgeSynthesis.AppendedOwed | public/examples/fix_weavr_model.py:69-90 | an extension that gives each source exactly its dependents as new targets has appended exactly the owed edges |
| EdgeSynthesis.SynthesizeAppended | public/examples/fix_weavr_model.py:69-90 | phase 2 keeps each source's old list as a prefix and appends exactly the owed edges: one per element naming the source in an INBOUND edge that it had no OUTBOUND edge to, typed as that element and titled after its first INBOUND edge from the source |
| EdgeSynthesis.SynthesizeConfluent | public/examples/fix_weavr_model.py:69-90 | the keys, the OUTBOUND target sets and, for every source, the set of edges appended after its old list do not depend on the visiting order |
| EdgeSynthesis.AddEdgesClosed | public/examples/fix_weavr_model.py:83 | on a map whose INBOUND edges are already answered, the inner loop appends nothing |
| EdgeSynthesis.SynthesizeFromClosed | public/examples/fix_weavr_model.py:70-90 | on such a map, the outer loop changes nothing and counts nothing |
| EdgeSynthesis.SynthesizeClosedNoop | public/examples/fix_weavr_model.py:69-90 | on such a map, phase 2 is the identity with `count_fixed` 0 |
| EdgeSynthesis.SynthesizeNoInbound | public/examples/fix_weavr_model.py:69-90 | without INBOUND edges, phase 2 changes nothing and `count_fixed` is 0 |
| EdgeSynthesis.SynthesizeIdempotent | public/examples/fix_weavr_model.py:73-83 | a second phase 2 over the result, in any order, appends nothing |
| EdgeSynthesis.AddEdgeCount | public/examples/fix_weavr_model.py:84-90 | one INBOUND edge raises `count_fixed` by exactly the number of edges it appends |
| EdgeSynthesis.AddEdgesCount | public/examples/fix_weavr_model.py:78-90 | the inner loop raises `count_fixed` by exactly the number of edges it appends |
| EdgeSynthesis.SynthesizeFromCount | public/examples/fix_weavr_model.py:70-90 | the outer loop raises `count_fixed` by exactly the number of edges it appends |
| EdgeSynthesis.SynthesizeCount | public/examples/fix_weavr_model.py:69-90 | `count_fixed` equals the number of appended edges |
| EdgeSynthesis.PurgeInbound | public/examples/fix_weavr_model.py:95-96 | phase 3 keeps the keys and every field but the dependency list, and leaves only OUTBOUND edges |
| EdgeSynthesis.PurgeInboundSpec | public/examples/fix_weavr_model.py:95-96 | phase 3 keeps every element's OUTBOUND targets |
| EdgeSynthesis.PurgeInboundIdempotent | public/examples/fix_weavr_model.py:95-96 | purging twice is purging once |
| LayoutEngine.TypeX | public/examples/fix_weavr_model.py:109-140 | a column offset is at most 750, inside the slice width, and it is 0 exactly for SCREEN and the types TYPE_X does not list |
| LayoutEngine.Place | public/examples/fix_weavr_model.py:145-151 | an entry records the element's type and title and height 120; its x lies in slice i's band [1300i, 1300i+1200), and its y is at least 100 |
| LayoutEngine.CountKind | public/examples/fix_weavr_model.py:141-142 | a per-type counter never exceeds the number of elements seen |
| FixWeavrModel.Counter | public/examples/fix_weavr_model.py:141-142 | the counter of a type, 0 when the type has none yet |
| LayoutEngine.LayoutRow | public/examples/fix_weavr_model.py:137-151 | one slice's layout has one entry per id in the slice |
| LayoutEngine.LayoutAll | public/examples/fix_weavr_model.py:117-151 | the whole layout has an entry for every element of every slice, and only for those |
| LayoutEngine.LayoutRowAt | public/examples/fix_weavr_model.py:137-151 | with distinct ids in a slice, element j's entry is placed from its slice index and the number of same-type elements before it |
| LayoutEngine.LayoutAllAt | public/examples/fix_weavr_model.py:117-151 | with distinct ids, element j of slice i gets x = i*1300 + TYPE_X[T], y = 100 + 180*k with k its same-type predecessors in the slice, and height 120 |
| LayoutEngine.DistinctRowsPrefix | public/examples/fix_weavr_model.py:145 | ids distinct across all slices stay distinct across a prefix of the slices |
| LayoutEngine.NotInLastRow | public/examples/fix_weavr_model.py:145 | with distinct ids, no later slice overwrites an earlier slice's entry |
| LayoutEngine.CountKindMonotone | public/examples/fix_weavr_model.py:141-142 | a per-type counter never decreases along a slice |
| LayoutEngine.RankIncreasing | public/examples/fix_weavr_model.py:129-142 | two same-type elements of one slice get strictly increasing y values, at least 180 apart |
| LayoutEngine.PlaceBand | public/examples/fix_weavr_model.py:117-146 | every x of slice i lies in [1300i, 1300i+750]; x div 1300 is the slice index, x mod 1300 the type's column offset, and (y - 100) div 180 the rank |
| LayoutEngine.NeighbourSlicesGap | public/examples/fix_weavr_model.py:117-146 | the READMODEL column of slice i and the SCREEN column of slice i+1 are 550 apart, less than the slice width |
| LayoutEngine.EventAndAutomationShareCell | public/examples/fix_weavr_model.py:109-142 | the first EVENT and the first AUTOMATION of a slice get the same x and y |
| FixWeavrModel.Prepare | public/examples/fix_weavr_model.py:55-66 | an element is prepared by changing only its type and context, as `map_type` does, and setting `_slice_id` and `_slice_index` |
| FixWeavrModel.Prepared | public/examples/fix_weavr_model.py:44-66 | each prepared element carries the index of a visited slice and that slice's id |
| FixWeavrModel.MapOf | public/examples/fix_weavr_model.py:59 | every entry of `element_map` is filed under its own id |
| FixWeavrModel.InsertionOrder | public/examples/fix_weavr_model.py:59 | the key order is no longer than the sequence of filed elements, and lists only keys of `element_map` |
| FixWeavrModel.ClearTemp | public/examples/fix_weavr_model.py:153-155 | removing the transient fields clears `_slice_id` and `_slice_index` and changes nothing else |
| FixWeavrModel.MapOfShape | public/examples/fix_weavr_model.py:59 | `element_map` is keyed by exactly the filed ids, and its key order lists every key once and nothing else |
| FixWeavrModel.MapOfUnique | public/examples/fix_weavr_model.py:59 | with unique ids, each entry is filed under its own id |
| FixWeavrModel.InsertionOrderUnique | public/examples/fix_weavr_model.py:59 | with unique ids, the key order is the ids in visiting order |
| FixWeavrModel.PreparedIds | public/examples/fix_weavr_model.py:45-59 | phase 1 visits the document's ids slice by slice, in bucket order |
| FixWeavrModel.CollectedShape | public/examples/fix_weavr_model.py:44-66 | after phase 1 the map is keyed by exactly the document's ids, each entry under its own id, and the key order lists each key once |
| FixWeavrModel.FileSlice | public/examples/fix_weavr_model.py:47-66 | filing one slice's entries extends the map and key order to cover that slice too |
| FixWeavrModel.AddOutbound | public/examples/fix_weavr_model.py:78-90 | the inner synthesis loop over one element's INBOUND edges computes the specified appends and count, and keeps the keys |
| FixWeavrModel.LayoutSlice | public/examples/fix_weavr_model.py:117-155 | one slice's pass adds exactly that slice's layout entries, and clears the transient fields of exactly that slice's entries |
| FixWeavrModel.Fix | public/examples/fix_weavr_model.py:21-155 | the run gives up exactly on an empty slice list, and otherwise leaves no entry with a transient field |
| FixWeavrModel.ModelFixer.constructor | public/examples/fix_weavr_model.py:21-24 | a fresh fixer holds the slices, an empty map, a zero count and an empty layout |
| FixWeavrModel.ModelFixer.CollectElements | public/examples/fix_weavr_model.py:44-66 | phase 1 leaves the map and key order of the prepared entries, in visiting order, and establishes the key invariant |
| FixWeavrModel.ModelFixer.SynthesizeEdges | public/examples/fix_weavr_model.py:69-90 | phase 2 leaves the synthesised map and `count_fixed` from the phase-1 map, in key order |
| FixWeavrModel.ModelFixer.PurgeInboundEdges | public/examples/fix_weavr_model.py:95-96 | phase 3 leaves each entry with its list filtered to OUTBOUND edges |
| FixWeavrModel.ModelFixer.GenerateLayout | public/examples/fix_weavr_model.py:99-155 | phase 4 leaves the layout of all slices' rows, and every map entry without its transient fields |
| FixWeavrModel.ModelFixer.FixModel | public/examples/fix_weavr_model.py:21-155 | an empty slice list aborts with nothing changed; otherwise the four phases leave exactly the state `Fix` specifies |
| FixWeavrModel.PurgeSomeAll | public/examples/fix_weavr_model.py:95-96 | purging key by key over a key order that covers the map is the whole purge |
| FixWeavrModel.PlacedEnd | public/examples/fix_weavr_model.py:117-155 | after the last slice, the layout is the layout of all rows and the whole map is cleared of transient fields |
| FixProperties.AllElementsAt | public/examples/fix_weavr_model.py:45-55 | element j of slice i sits at the position counted over the earlier slices |
| FixProperties.UniqueRows | public/examples/fix_weavr_model.py:145 | with unique ids, no id occurs twice among the rows phase 4 walks |
| FixProperties.PreparedAgrees | public/examples/fix_weavr_model.py:55-66 | each prepared entry is the matching document element after `map_type`, apart from the transient fields |
| FixProperties.Phase1Value | public/examples/fix_weavr_model.py:59 | every value of the phase-1 map is some document element with that id, normalised |
| FixProperties.Phase1At | public/examples/fix_weavr_model.py:57-59 | with unique ids, element j of slice i is filed under its id, normalised |
| FixProperties.DependentsAreRequesters | public/examples/fix_weavr_model.py:76-81 | with unique ids, the elements phase 2 sees naming s in an INBOUND edge are exactly the document's elements that do |
| FixProperties.CountOutKeep | public/examples/fix_weavr_model.py:96 | the purge keeps every OUTBOUND count |
| FixProperties.PurgedExtension | public/examples/fix_weavr_model.py:84-96 | after phases 2 and 3, an element's list is its own OUTBOUND edges in order, followed by synthesised edges |
| FixProperties.FixKeys | public/examples/fix_weavr_model.py:44-155 | the output map has one entry per document id, each under its own id; its key order lists each key once, and with unique ids it is the document order |
| FixProperties.FixOutboundOnly | public/examples/fix_weavr_model.py:95-96 | no output edge is INBOUND or unmarked |
| FixProperties.FixElement | public/examples/fix_weavr_model.py:30-155 | with unique ids, the output entry of element j of slice i has these properties: it is the element after `map_type` without transient fields; its list is the element's own OUTBOUND edges followed by synthesised edges; its OUTBOUND targets are its old ones plus every element naming it in an INBOUND edge; no target gains more than one edge |
| FixProperties.FixLayoutKeys | public/examples/fix_weavr_model.py:117-151 | the layout has one entry per document id |
| FixProperties.FixLayout | public/examples/fix_weavr_model.py:117-151 | with unique ids, element j of slice i gets x = i*1300 + TYPE_X[T] and y = 100 + 180*k, where T is its type after `map_type` and k the number of earlier type-T elements in its slice; its height is 120, and its type and title are recorded |
| FixProperties.NoInboundSynth | public/examples/fix_weavr_model.py:76-90 | without INBOUND edges in the document, phase 2 changes nothing |
| FixProperties.FixNoInbound | public/examples/fix_weavr_model.py:76-96 | without INBOUND edges in the document, `count_fixed` is 0, and each element only loses its unmarked edges |
| FixRerun.RefreshAllElements | public/examples/fix_weavr_model.py:44-163 | replacing every bucket entry by the map's entry for its id, which is how a document with unique ids is written, gives the input's elements in visiting order, each replaced |
| FixRerun.Phase1Schema | public/examples/fix_weavr_model.py:30-59 | every entry of the phase-1 map has a schema type |
| FixRerun.FixKindKept | public/examples/fix_weavr_model.py:69-155 | phases 2 to 4 keep every entry's type |
| FixRerun.FixEntryKind | public/examples/fix_weavr_model.py:30-155 | every output entry has a schema type |
| FixRerun.FixEntryClean | public/examples/fix_weavr_model.py:30-155 | every output entry has a schema type, no transient fields and OUTBOUND edges only |
| FixRerun.FixAllClean | public/examples/fix_weavr_model.py:30-155 | every entry of the output map is clean |
| FixRerun.RefreshClean | public/examples/fix_weavr_model.py:157-163 | a document whose entries are replaced from a map of clean entries, each under its own id and covering its ids, keeps its ids and holds only clean elements |
| FixRerun.Displaced | public/examples/fix_weavr_model.py:53-155 | a bucket entry that a later entry with its id displaced from `element_map` keeps its id, title and edges, has the type and context `map_type` gives, and no transient fields |
| FixRerun.Output | public/examples/fix_weavr_model.py:157-163 | the written document has one slice per input slice, each with the input slice's id |
| FixRerun.WriteAllElements | public/examples/fix_weavr_model.py:53-163 | in visiting order, each written entry whose id comes back later is displaced, and every other is the map's entry for its id |
| FixRerun.WriteShape | public/examples/fix_weavr_model.py:153-163 | writing from a covering map of clean entries, each under its own id, keeps the ids; an entry that is not displaced becomes clean, and the others are displaced |
| FixRerun.WriteAllRefresh | public/examples/fix_weavr_model.py:59-163 | when no id comes back later, writing replaces every entry by the map's entry for its id |
| FixRerun.OutputIsRefresh | public/examples/fix_weavr_model.py:59-163 | with unique ids no entry is displaced: the written document is the input with every entry replaced by the map's entry for its id |
| FixRerun.OutputShape | public/examples/fix_weavr_model.py:157-163 | the written document keeps the input's ids in order; an entry whose id does not come back later in the document is clean, and one whose id comes back later is written with its `map_type` type, no transient fields and the edges it was read with |
| FixRerun.OutputClean | public/examples/fix_weavr_model.py:157-163 | with unique ids, every element of the written document is clean |
| FixRerun.FixClean | public/examples/fix_weavr_model.py:21-155 | a document of clean elements with unique ids passes through unchanged, with `count_fixed` 0 |
| FixRerun.OutputRow | public/examples/fix_weavr_model.py:157-163 | with unique ids, each slice of the written document holds its input entries' map entries: same ids and titles, types already normalised |
| FixRerun.OutputMember | public/examples/fix_weavr_model.py:44-163 | with unique ids, the map entry of element j of slice i has its id and title and a type `map_type` leaves unchanged, equal to the element's type after `map_type` |
| FixRerun.RerunPlacement | public/examples/fix_weavr_model.py:117-151 | with unique ids, each element's layout entry is the same in both runs |
| FixRerun.RerunEntry | public/examples/fix_weavr_model.py:44-96 | with unique ids, each element's map entry is the same in both runs |
| FixRerun.RerunCount | public/examples/fix_weavr_model.py:69-90 | with unique ids, the second run appends no edge |
| FixRerun.FixIdempotent | public/examples/fix_weavr_model.py:21-157 | with unique ids, `fix_model` on the document it wrote reproduces the element map, the key order and the layout, with `count_fixed` 0 |
| PatternAudit.Allowed | public/examples/audit_patterns.py:38-79 | exactly COMMAND, DOMAIN_EVENT, READ_MODEL and AUTOMATION have a rule |
| PatternAudit.Fits | public/examples/audit_patterns.py:42-75 | an edge fits a rule when it has an `elementType` and that type is one the rule allows |
| PatternAudit.Message | public/examples/audit_patterns.py:46-79 | a diagnostic starts with `[<slice id>] ` and ends with ` parent.` |
| PatternAudit.Violation | public/examples/audit_patterns.py:36-79 | an element is reported exactly when its type has a rule and none of its INBOUND edges has an allowed `elementType`; the report starts with its slice's tag |
| PatternAudit.AsSeq | public/examples/audit_patterns.py:45-79 | an element contributes at most one diagnostic |
| PatternAudit.FindParent | public/examples/audit_patterns.py:40-44 | the flag loop with `break` is set exactly when some predecessor has an allowed `elementType` |
| PatternAudit.CheckElement | public/examples/audit_patterns.py:31-79 | the four rule blocks append exactly the element's diagnostic, if it has one |
| PatternAudit.AuditSlice | public/examples/audit_patterns.py:30-79 | the element loop of one slice appends that slice's diagnostics in order |
| PatternAudit.AuditPatterns | public/examples/audit_patterns.py:17-79 | the returned list is the specified list of diagnostics |
| PatternAudit.HasParentInbound | public/examples/audit_patterns.py:36 | an allowed predecessor among the INBOUND edges is an INBOUND edge of the element with an allowed `elementType` |
| PatternAudit.CommandRule | public/examples/audit_patterns.py:39-46 | a COMMAND is reported iff none of its INBOUND edges has `elementType` SCREEN or AUTOMATION, and the report is `[<slice>] COMMAND '<title>' (<id>) missing SCREEN or AUTOMATION parent.` |
| PatternAudit.DomainEventRule | public/examples/audit_patterns.py:49-58 | a DOMAIN_EVENT is reported iff no INBOUND edge has `elementType` COMMAND, with its "missing COMMAND parent." text |
| PatternAudit.ReadModelRule | public/examples/audit_patterns.py:61-69 | a READ_MODEL is reported iff no INBOUND edge has `elementType` DOMAIN_EVENT or INTEGRATION_EVENT, with its "missing EVENT parent." text |
| PatternAudit.AutomationRule | public/examples/audit_patterns.py:72-79 | an AUTOMATION is reported iff no INBOUND edge has `elementType` DOMAIN_EVENT, INTEGRATION_EVENT or READ_MODEL, with its "missing EVENT or READ_MODEL parent." text |
| PatternAudit.OtherTypesSilent | public/examples/audit_patterns.py:38-79 | elements of any other type, the schema types included, are never reported |
| PatternAudit.OnlyInboundConsulted | public/examples/audit_patterns.py:36 | the verdict depends only on the INBOUND edges |
| PatternAudit.SliceViolationsAppend | public/examples/audit_patterns.py:30 | a slice's diagnostics for a concatenation are the diagnostics of each part, in order |
| PatternAudit.SliceViolationsSnoc | public/examples/audit_patterns.py:30-79 | one more element appends its own diagnostic, if any |
| PatternAudit.BucketOrder | public/examples/audit_patterns.py:22-28 | a slice reports its commands, then events, readmodels, screens, processors and integrationEvents |
| PatternAudit.ViolationsAppend | public/examples/audit_patterns.py:19 | diagnostics come in slice order |
| PatternAudit.ViolationsSnoc | public/examples/audit_patterns.py:19-79 | one more slice appends that slice's diagnostics |
| PatternAudit.SliceViolations | public/examples/audit_patterns.py:30-79 | a slice yields no more diagnostics than elements |
| PatternAudit.Violations | public/examples/audit_patterns.py:19-79 | the audit yields no more diagnostics than the document has elements |
| PatternAudit.ProducedBySnoc | public/examples/audit_patterns.py:30-79 | a text is produced by a list with one more element iff it was produced before or is that element's diagnostic |
| PatternAudit.SliceViolationsMembers | public/examples/audit_patterns.py:30-79 | a text is among a slice's diagnostics iff some element of the slice produces it |
| PatternAudit.ReportedSnoc | public/examples/audit_patterns.py:19-79 | a text is reported for one more slice iff it was reported before or that slice produces it |
| PatternAudit.ViolationsMembers | public/examples/audit_patterns.py:19-79 | a text is in the audit's list iff some element of some slice produces it |

## Left out

- File reading and writing, JSON parsing, `os.makedirs`, every `print` and the `__main__` entry points are not modelled. The input is the in-memory slice list (an absent `eventModel` or `slices` is the empty list). The outputs are the fixer's final state and the audit's returned list.
- The document-level fields other than the slices are not modelled, and neither is the `data['layout']` assignment (line 157). The layout is the fixer's `layout` field. The written document's slices are `FixRerun.Output` (lines 162-163).
- The unused `existing_outbound` set (line 74) is not modelled: it is never read, and the duplicate check is the one at line 83.
- Elements without an `id` or `title`, edges without an `id` and slices without an `id` are not modelled: every `Element`, `Dependency` and `Slice` value carries these fields. In the source they behave as follows.
  - An element without `id` raises `KeyError` in the fixer (line 59). The audit reads the id with `.get` (audit_patterns.py line 32) and prints `None`.
  - An element without `title` raises `KeyError` in phase 4 (line 150). The audit raises only when it reports the element (audit_patterns.py lines 46, 58, 69, 79).
  - An INBOUND edge without `id` raises in phase 2 (line 79), and so does an OUTBOUND edge without `id` (lines 74 and 83). An unmarked edge without `id` never raises in either script.
  - A slice without `id` raises in the audit for every slice (audit_patterns.py line 20), and in the fixer for any slice that holds elements (line 65).
- An element without a `type` is not modelled: every `Element` carries a `TypeTag`. In the source, phase 4 places it as a COMMAND (line 138) and the audit ignores it. Phase 2 raises `KeyError` at line 88 when such an element is the target of a synthesised edge.
- Type tags are the values `EventModel.TagOf` produces when a type string is read, so they are canonical: `Other(n)` never carries a known name such as "COMMAND". The lemmas about the fixer and the audit are meant for such documents. For a non-canonical `Other("COMMAND")` the model applies no rule, whereas the source's string comparison would.
- A missing `dependencies` list is modelled as the empty list. The source adds the key during phase 1 (lines 61-62).
- `_slice_index` is set to the slice's position in the loop. The source computes `slices.index(s)` (line 66), which finds the first structurally equal slice. The value is never read and is removed in phase 4.
- Some lemmas assume that ids are unique across the document, because they follow one element from input to output. With duplicate ids, `element_map` keeps the last entry per id (line 59) while the buckets keep every entry. The fixer, its specification `Fix` and the written document `FixRerun.Output` do model duplicates: the map keeps the last entry per id, the layout keeps the last placement per id, and an earlier entry is written as `FixRerun.Displaced`. The lemmas that require unique ids (or distinct rows, which unique ids give) are:
  - FixWeavrModel.MapOfUnique and FixWeavrModel.InsertionOrderUnique;
  - LayoutEngine.LayoutRowAt (distinct ids within one slice), LayoutEngine.LayoutAllAt, LayoutEngine.DistinctRowsPrefix and LayoutEngine.NotInLastRow;
  - FixProperties.UniqueRows, Phase1AtPos, Phase1At, DependentsAreRequesters, FixElement, FixLayout and FixNoInbound;
  - FixRerun.FixClean, OutputIsRefresh, OutputClean, OutputRow, OutputMember, OutputUnique, RerunPlacement, RerunEntry, RerunElements, RerunLayout, RerunCount and FixIdempotent.
  The lemmas about phases 2 and 3 in EdgeSynthesis require only that the key order lists each key once, which the key order of a dictionary always does (`FixWeavrModel.MapOfShape`).
- FixRerun.RerunCount: proved for unique ids only. With a duplicate id, the displaced entries keep their INBOUND edges. But the second run's phases 2 and 3 again walk only its map, whose entries are clean, so `count_fixed` is 0 in that case too. The model does not prove that case.
- `FixRerun.Output` is the written document, duplicates included. It relies on each bucket entry being its own dictionary, as `json.load` makes them. A bucket dictionary that stays in `element_map` is written as the map's entry for its id, since both are the same dictionary. A dictionary that a later one with the same id displaced is written as `FixRerun.Displaced`: phases 2 and 3 never reach it (`FixRerun.OutputShape`). Aliasing is otherwise not modelled: phase 4 reads each entry as phase 1 left it (type and title), which phases 2 and 3 do not change.
- Dictionary insertion order is modelled as an explicit key sequence next to the map.
- `count_fixed` is an unbounded natural number. Python integers do not wrap.
