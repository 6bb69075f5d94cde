/** `fix_model`: the four phases over the id -> element map, as a class whose methods
    mutate the map, the visiting order, `count_fixed` and the layout map in loops, each
    proved equal to the value-level definition of its phase. */
module FixWeavrModel {
  import opened EventModel
  import opened TypeNormalizer
  import opened EdgeSynthesis
  import opened LayoutEngine

  /** An element as lines 55-66 leave it: type normalised, `_slice_id` and
      `_slice_index` set. `_slice_index` is `slices.index(s)`, which is the loop index
      whenever the slice holds an element and ids are unique. */
  function Prepare(e: Element, sliceId: string, sliceIndex: nat): (r: Element)
    ensures r.(kind := e.kind, context := e.context, sliceId := e.sliceId, sliceIndex := e.sliceIndex) == e
    ensures r.kind == MapType(e).kind && r.context == MapType(e).context
    ensures r.sliceId == Some(sliceId) && r.sliceIndex == Some(sliceIndex)
  {
    MapType(e).(sliceId := Some(sliceId), sliceIndex := Some(sliceIndex))
  }

  function PrepareAll(es: seq<Element>, sliceId: string, sliceIndex: nat): (r: seq<Element>)
    ensures |r| == |es|
    ensures forall j | 0 <= j < |es| :: r[j] == Prepare(es[j], sliceId, sliceIndex)
  {
    seq(|es|, j requires 0 <= j < |es| => Prepare(es[j], sliceId, sliceIndex))
  }

  /** The prepared elements of the first n slices, in visiting order. */
  function Prepared(slices: seq<Slice>, n: nat): (r: seq<Element>)
    requires n <= |slices|
    ensures forall j | 0 <= j < |r| ::
      && r[j].sliceIndex.Some? && r[j].sliceIndex.value < n
      && r[j].sliceId == Some(slices[r[j].sliceIndex.value].id)
    decreases n
  {
    if n == 0 then []
    else Prepared(slices, n - 1) + PrepareAll(Members(slices[n - 1]), slices[n - 1].id, n - 1)
  }

  /** `element_map[el['id']] = el` over a sequence of elements: later ones overwrite. */
  function MapOf(es: seq<Element>): (r: map<string, Element>)
    ensures forall k | k in r :: r[k].id == k
    decreases |es|
  {
    if es == [] then map[]
    else MapOf(es[..|es| - 1])[es[|es| - 1].id := es[|es| - 1]]
  }

  /** The key order of that dictionary: a key keeps the position of its first insertion. */
  function InsertionOrder(es: seq<Element>): (r: seq<string>)
    ensures |r| <= |es|
    ensures forall j | 0 <= j < |r| :: r[j] in MapOf(es)
    decreases |es|
  {
    if es == [] then []
    else
      var pre := es[..|es| - 1];
      if es[|es| - 1].id in MapOf(pre) then InsertionOrder(pre)
      else InsertionOrder(pre) + [es[|es| - 1].id]
  }

  /** Lines 153-155: the transient fields removed. */
  function ClearTemp(e: Element): (r: Element)
    ensures r.sliceId.None? && r.sliceIndex.None?
    ensures r.(sliceId := e.sliceId, sliceIndex := e.sliceIndex) == e
  {
    e.(sliceId := None, sliceIndex := None)
  }

  function ClearAll(m: map<string, Element>): map<string, Element> {
    map k | k in m :: ClearTemp(m[k])
  }

  /** Line 141 onwards reads a bucket entry's type and title. Phase 1 normalised the type
      of that very dict, and phases 2 and 3 change only dependencies, so a bucket entry
      is seen as `map_type` of the input element. */
  function Normalised(es: seq<Element>): (r: seq<Element>)
    ensures |r| == |es|
    ensures forall j | 0 <= j < |es| :: r[j] == MapType(es[j])
  {
    seq(|es|, j requires 0 <= j < |es| => MapType(es[j]))
  }

  /** The rows phase 4 walks: slice by slice, the entries in bucket order. */
  function Rows(slices: seq<Slice>): (r: seq<seq<Element>>)
    ensures |r| == |slices|
    ensures forall i | 0 <= i < |slices| :: r[i] == Normalised(Members(slices[i]))
  {
    seq(|slices|, i requires 0 <= i < |slices| => Normalised(Members(slices[i])))
  }

  /** The map with the transient fields of the entries under ids removed. */
  function ClearIds(m: map<string, Element>, ids: set<string>): (r: map<string, Element>)
    ensures r.Keys == m.Keys
  {
    map k | k in m :: if k in ids then ClearTemp(m[k]) else m[k]
  }

  /** What `fix_model` leaves behind: the element map (whose values are the output
      document's elements), its key order, the layout map and `count_fixed`. */
  datatype Fixed = Fixed(
    elements: map<string, Element>,
    order: seq<string>,
    layout: map<string, Placement>,
    countFixed: nat)

  /** The four phases composed; None is the early return on an empty slice list. */
  function Fix(slices: seq<Slice>): (r: Option<Fixed>)
    ensures r.None? <==> slices == []
    ensures r.Some? ==> forall k | k in r.value.elements ::
      r.value.elements[k].sliceId.None? && r.value.elements[k].sliceIndex.None?
  {
    if slices == [] then None
    else
      var prepared := Prepared(slices, |slices|);
      var order := InsertionOrder(prepared);
      var st := Synthesize(MapOf(prepared), order);
      var purged := PurgeInbound(st.elements);
      Some(Fixed(ClearAll(purged), order, LayoutAll(Rows(slices)), st.added))
  }

  /** The dictionary built from es maps each key to an element with that id, its key
      order lists every key exactly once, and every element's id is a key. */
  lemma {:induction false} MapOfShape(es: seq<Element>)
    ensures MapOf(es).Keys == IdSet(es)
    ensures Distinct(InsertionOrder(es))
    ensures forall k :: k in InsertionOrder(es) <==> k in MapOf(es)
    decreases |es|
  {
    if es != [] {
      var pre := es[..|es| - 1];
      var last := es[|es| - 1];
      MapOfShape(pre);
      assert es == pre + [last];
      assert IdSet(es) == IdSet(pre) + {last.id};
    }
  }

  lemma {:induction false} MapOfUnique(es: seq<Element>, p: nat)
    requires Distinct(Ids(es)) && p < |es|
    ensures es[p].id in MapOf(es) && MapOf(es)[es[p].id] == es[p]
    decreases |es|
  {
    var pre := es[..|es| - 1];
    if p < |es| - 1 {
      assert pre[p] == es[p];
      assert Distinct(Ids(pre)) by {
        forall a, b | 0 <= a < b < |pre| ensures Ids(pre)[a] != Ids(pre)[b] {
          assert Ids(es)[a] != Ids(es)[b];
        }
      }
      MapOfUnique(pre, p);
      assert Ids(es)[p] != Ids(es)[|es| - 1];
    }
  }

  lemma {:induction false} InsertionOrderUnique(es: seq<Element>)
    requires Distinct(Ids(es))
    ensures InsertionOrder(es) == Ids(es)
    decreases |es|
  {
    if es != [] {
      var pre := es[..|es| - 1];
      var last := es[|es| - 1];
      assert Distinct(Ids(pre)) by {
        forall a, b | 0 <= a < b < |pre| ensures Ids(pre)[a] != Ids(pre)[b] {
          assert Ids(es)[a] != Ids(es)[b];
        }
      }
      InsertionOrderUnique(pre);
      MapOfShape(pre);
      assert last.id !in MapOf(pre) by {
        forall p | 0 <= p < |pre| ensures pre[p].id != last.id {
          assert Ids(es)[p] != Ids(es)[|es| - 1];
        }
      }
      assert Ids(es) == Ids(pre) + [last.id];
    }
  }

  lemma IdsAppend(a: seq<Element>, b: seq<Element>)
    ensures Ids(a + b) == Ids(a) + Ids(b)
  {
  }

  lemma PrepareAllIds(es: seq<Element>, sliceId: string, i: nat)
    ensures Ids(PrepareAll(es, sliceId, i)) == Ids(es)
  {
  }

  /** Preparing keeps ids, so the prepared sequence has the ids of the elements. */
  lemma {:induction false} PreparedIds(slices: seq<Slice>, n: nat)
    requires n <= |slices|
    ensures Ids(Prepared(slices, n)) == Ids(AllElements(slices[..n]))
    decreases n
  {
    if n > 0 {
      PreparedIds(slices, n - 1);
      var pre := slices[..n - 1];
      assert slices[..n][..n - 1] == pre;
      var ms := Members(slices[n - 1]);
      var ps := PrepareAll(ms, slices[n - 1].id, n - 1);
      assert Prepared(slices, n) == Prepared(slices, n - 1) + ps;
      assert AllElements(slices[..n]) == AllElements(pre) + ms;
      PrepareAllIds(ms, slices[n - 1].id, n - 1);
      IdsAppend(Prepared(slices, n - 1), ps);
      IdsAppend(AllElements(pre), ms);
    }
  }

  lemma IdSetOfIds(a: seq<Element>, b: seq<Element>)
    requires Ids(a) == Ids(b)
    ensures IdSet(a) == IdSet(b)
  {
    forall x | x in IdSet(a) ensures x in IdSet(b) {
      var e :| e in a && e.id == x;
      var p :| 0 <= p < |a| && a[p] == e;
      assert Ids(b)[p] == x;
    }
    forall x | x in IdSet(b) ensures x in IdSet(a) {
      var e :| e in b && e.id == x;
      var p :| 0 <= p < |b| && b[p] == e;
      assert Ids(a)[p] == x;
    }
  }

  /** Phase 1 leaves a map keyed by exactly the document's element ids, each key mapped
      to an element with that id, with a key order that lists each key once. */
  lemma CollectedShape(slices: seq<Slice>, m: map<string, Element>, ord: seq<string>)
    requires m == MapOf(Prepared(slices, |slices|)) && ord == InsertionOrder(Prepared(slices, |slices|))
    ensures Distinct(ord)
    ensures forall k :: k in ord <==> k in m
    ensures m.Keys == IdSet(AllElements(slices))
    ensures forall k | k in m :: m[k].id == k
  {
    var es := Prepared(slices, |slices|);
    MapOfShape(es);
    PreparedIds(slices, |slices|);
    assert slices[..|slices|] == slices;
    IdSetOfIds(es, AllElements(slices));
  }

  /** Preparing one more element of a slice appends it. */
  lemma PrepareAllStep(all: seq<Element>, sliceId: string, i: nat, j: nat)
    requires j < |all|
    ensures PrepareAll(all[..j + 1], sliceId, i) == PrepareAll(all[..j], sliceId, i) + [Prepare(all[j], sliceId, i)]
  {
  }

  /** Filing one more element: the map gains (or overwrites) its id, and the key order
      gains the id only if it is new. */
  lemma CollectStep(before: seq<Element>, el: Element)
    ensures MapOf(before + [el]) == MapOf(before)[el.id := el]
    ensures InsertionOrder(before + [el])
      == if el.id in MapOf(before) then InsertionOrder(before) else InsertionOrder(before) + [el.id]
  {
    assert (before + [el])[..|before|] == before;
  }

  /** The elements phase 1 has filed once it has seen j elements of slice i. */
  function Collected(slices: seq<Slice>, i: nat, j: nat): seq<Element>
    requires i < |slices| && j <= |Members(slices[i])|
  {
    Prepared(slices, i) + PrepareAll(Members(slices[i])[..j], slices[i].id, i)
  }

  /** m and ord are the dictionary and its key order after those elements. */
  ghost predicate CollectedUpTo(slices: seq<Slice>, i: nat, j: nat, m: map<string, Element>, ord: seq<string>)
    requires i < |slices| && j <= |Members(slices[i])|
  {
    m == MapOf(Collected(slices, i, j)) && ord == InsertionOrder(Collected(slices, i, j))
  }

  lemma CollectedStep(slices: seq<Slice>, i: nat, j: nat, m: map<string, Element>, ord: seq<string>)
    requires i < |slices| && j < |Members(slices[i])|
    requires CollectedUpTo(slices, i, j, m, ord)
    ensures var el := Prepare(Members(slices[i])[j], slices[i].id, i);
      CollectedUpTo(slices, i, j + 1, m[el.id := el], if el.id in m then ord else ord + [el.id])
  {
    var el := Prepare(Members(slices[i])[j], slices[i].id, i);
    PrepareAllStep(Members(slices[i]), slices[i].id, i, j);
    assert Collected(slices, i, j + 1) == Collected(slices, i, j) + [el];
    CollectStep(Collected(slices, i, j), el);
  }

  lemma CollectedEnds(slices: seq<Slice>, i: nat)
    requires i < |slices|
    ensures Collected(slices, i, 0) == Prepared(slices, i)
    ensures Collected(slices, i, |Members(slices[i])|) == Prepared(slices, i + 1)
  {
    assert Members(slices[i])[..0] == [];
    assert Members(slices[i])[..|Members(slices[i])|] == Members(slices[i]);
  }

  lemma SynthesizeFromStep(st: Synth, order: seq<string>, i: nat)
    requires i < |order| && order[i] in st.elements
    ensures SynthesizeFrom(st, order[i..])
      == SynthesizeFrom(AddEdges(st, order[i], st.elements[order[i]].kind,
                                 Keep(st.elements[order[i]].dependencies, Inbound)), order[i + 1..])
  {
    assert order[i..][1..] == order[i + 1..];
  }

  lemma AddEdgesStep(st: Synth, target: string, kind: TypeTag, inbound: seq<Dependency>, j: nat)
    requires j < |inbound|
    ensures AddEdges(st, target, kind, inbound[j..])
      == AddEdges(AddEdge(st, target, kind, inbound[j]), target, kind, inbound[j + 1..])
  {
    assert inbound[j..][1..] == inbound[j + 1..];
  }

  /** The counter of type t, `counters.get(t, 0)`. */
  function Counter(counters: map<TypeTag, nat>, t: TypeTag): nat {
    if t in counters then counters[t] else 0
  }

  lemma LayoutRowStep(i: nat, row: seq<Element>, j: nat, start: map<string, Placement>)
    requires j < |row|
    ensures start + LayoutRow(i, row[..j + 1])
      == (start + LayoutRow(i, row[..j]))[row[j].id := Place(i, CountKind(row[..j], row[j].kind), row[j])]
  {
    assert row[..j + 1][..j] == row[..j];
    MapUnionUpdate(start, LayoutRow(i, row[..j]), row[j].id, Place(i, CountKind(row[..j], row[j].kind), row[j]));
  }

  /** The counters hold, for every type, the number of entries of that type in es. */
  ghost predicate Counts(counters: map<TypeTag, nat>, es: seq<Element>) {
    forall t :: Counter(counters, t) == CountKind(es, t)
  }

  /** Bumping the counter of an entry's type keeps the counters equal to the counts. */
  lemma CounterStep(row: seq<Element>, j: nat, counters: map<TypeTag, nat>, k: TypeTag)
    requires j < |row| && k == row[j].kind
    requires Counts(counters, row[..j])
    ensures Counts(counters[k := Counter(counters, k) + 1], row[..j + 1])
  {
    assert row[..j + 1][..j] == row[..j];
    var next := counters[k := Counter(counters, k) + 1];
    forall t ensures Counter(next, t) == CountKind(row[..j + 1], t) {
      assert CountKind(row[..j + 1], t) == CountKind(row[..j], t) + if k == t then 1 else 0;
    }
  }

  /** Phase 4 has placed the first j entries of row i on top of lay0, cleared their
      transient fields in m0, and counted them by type. */
  ghost predicate LaidOut(i: nat, row: seq<Element>, j: nat, counters: map<TypeTag, nat>,
                          lay0: map<string, Placement>, m0: map<string, Element>,
                          lay: map<string, Placement>, m: map<string, Element>)
    requires j <= |row|
  {
    && lay == lay0 + LayoutRow(i, row[..j])
    && Counts(counters, row[..j])
    && m == ClearIds(m0, IdSet(row[..j]))
  }

  /** One turn of the inner loop of phase 4: the entry's placement, its counter bump and
      the removal of its transient fields keep the loop facts. */
  lemma {:induction false} LayoutTurn(i: nat, row: seq<Element>, j: nat, el: Element, counters: map<TypeTag, nat>,
                   lay0: map<string, Placement>, m0: map<string, Element>,
                   lay: map<string, Placement>, m: map<string, Element>, place: Placement)
    requires j < |row| && el == row[j] && el.id in m0
    requires LaidOut(i, row, j, counters, lay0, m0, lay, m)
    requires place == Placement(i * (SLICE_WIDTH + SLICE_GAP) + TypeX(el.kind),
                                BASE_Y + Counter(counters, el.kind) * ROW_HEIGHT, HEIGHT, el.kind, el.title)
    ensures el.id in m
    ensures LaidOut(i, row, j + 1, counters[el.kind := Counter(counters, el.kind) + 1], lay0, m0,
                    lay[el.id := place], m[el.id := ClearTemp(m[el.id])])
  {
    LayoutRowStep(i, row, j, lay0);
    IdSetStep(row, j);
    ClearIdsStep(m0, IdSet(row[..j]), el.id, m);
    CounterStep(row, j, counters, el.kind);
    assert place == Place(i, CountKind(row[..j], el.kind), el) by {
      assert Counter(counters, el.kind) == CountKind(row[..j], el.kind);
    }
  }

  /** Before the first entry of a row nothing is placed, cleared or counted. */
  lemma LayoutStart(i: nat, row: seq<Element>, lay0: map<string, Placement>, m0: map<string, Element>)
    ensures LaidOut(i, row, 0, map[Screen := 0, Command := 0, Automation := 0, SchemaEvent := 0, SchemaReadModel := 0],
                    lay0, m0, lay0, m0)
  {
    assert row[..0] == [];
  }

  lemma IdSetStep(row: seq<Element>, j: nat)
    requires j < |row|
    ensures IdSet(row[..j + 1]) == IdSet(row[..j]) + {row[j].id}
  {
    assert row[..j + 1] == row[..j] + [row[j]];
  }

  lemma ClearIdsStep(m: map<string, Element>, ids: set<string>, k: string, cur: map<string, Element>)
    requires k in m && cur == ClearIds(m, ids)
    ensures cur[k := ClearTemp(cur[k])] == ClearIds(m, ids + {k})
  {
  }

  lemma ClearIdsTwice(m: map<string, Element>, a: set<string>, b: set<string>)
    ensures ClearIds(ClearIds(m, a), b) == ClearIds(m, a + b)
  {
  }

  /** Slice i's row adds its layout on top of the earlier slices'. */
  lemma LayoutAllStep(rows: seq<seq<Element>>, i: nat)
    requires i < |rows|
    ensures LayoutAll(rows[..i + 1]) == LayoutAll(rows[..i]) + LayoutRow(i, rows[i])
  {
    assert rows[..i + 1][..i] == rows[..i];
  }

  /** A slice's row has the ids of its bucket entries. */
  lemma RowIds(slices: seq<Slice>, i: nat)
    requires i < |slices|
    ensures IdSet(Normalised(Members(slices[i]))) == IdSet(Members(slices[i]))
    ensures IdSet(AllElements(slices[..i + 1])) == IdSet(AllElements(slices[..i])) + IdSet(Members(slices[i]))
  {
    RowIdsOf(slices[i]);
    assert slices[..i + 1][..i] == slices[..i];
    assert AllElements(slices[..i + 1]) == AllElements(slices[..i]) + Members(slices[i]);
  }

  lemma MapUnionUpdate<K, V>(a: map<K, V>, b: map<K, V>, k: K, v: V)
    ensures (a + b)[k := v] == a + b[k := v]
  {
  }

  /** Lines 55-66 for slice i: its elements, bucket by bucket, normalised, tagged with the
      slice and filed under their ids. */
  method FileSlice(slices: seq<Slice>, i: nat, m: map<string, Element>, ord: seq<string>)
    returns (m': map<string, Element>, ord': seq<string>)
    requires i < |slices|
    requires m == MapOf(Prepared(slices, i)) && ord == InsertionOrder(Prepared(slices, i))
    ensures m' == MapOf(Prepared(slices, i + 1)) && ord' == InsertionOrder(Prepared(slices, i + 1))
  {
    var s := slices[i];
    var all := s.commands + s.events + s.readmodels + s.screens + s.processors + s.integrationEvents;
    CollectedEnds(slices, i);
    m', ord' := m, ord;
    for j := 0 to |all|
      invariant CollectedUpTo(slices, i, j, m', ord')
    {
      var el := MapType(all[j]);
      CollectedStep(slices, i, j, m', ord');
      if el.id !in m' {
        ord' := ord' + [el.id];
      }
      el := el.(sliceId := Some(s.id), sliceIndex := Some(i));
      assert el == Prepare(Members(slices[i])[j], slices[i].id, i);
      m' := m'[el.id := el];
    }
  }

  /** Lines 76-88 for one element: the OUTBOUND counterparts of its INBOUND edges. */
  method AddOutbound(m: map<string, Element>, added: nat, elId: string, kind: TypeTag, inbound: seq<Dependency>)
    returns (m': map<string, Element>, added': nat)
    ensures m'.Keys == m.Keys
    ensures Synth(m', added') == AddEdges(Synth(m, added), elId, kind, inbound)
  {
    m', added' := m, added;
    for j := 0 to |inbound|
      invariant m'.Keys == m.Keys
      invariant AddEdges(Synth(m, added), elId, kind, inbound)
        == AddEdges(Synth(m', added'), elId, kind, inbound[j..])
    {
      var dep := inbound[j];
      AddEdgesStep(Synth(m', added'), elId, kind, inbound, j);
      var sourceId := dep.id;
      if sourceId in m' {
        var source := m'[sourceId];
        if elId !in OutTargets(source.dependencies) {
          m' := m'[sourceId := source.(dependencies := source.dependencies + [NewEdge(elId, kind, dep)])];
          added' := added' + 1;
        }
      }
    }
    assert inbound[|inbound|..] == [];
  }

  /** Lines 117-155 for slice i: place each bucket entry with the per-type counters of
      the slice, and remove the entry's transient fields. */
  method LayoutSlice(i: nat, s: Slice, lay: map<string, Placement>, m: map<string, Element>)
    returns (lay': map<string, Placement>, m': map<string, Element>)
    requires IdSet(Members(s)) <= m.Keys
    ensures lay' == lay + LayoutRow(i, Normalised(Members(s)))
    ensures m' == ClearIds(m, IdSet(Members(s)))
  {
    var sElements := s.commands + s.events + s.readmodels + s.screens + s.processors + s.integrationEvents;
    assert sElements == Members(s);
    ghost var row := Normalised(sElements);
    var counters: map<TypeTag, nat> :=
      map[Screen := 0, Command := 0, Automation := 0, SchemaEvent := 0, SchemaReadModel := 0];
    lay', m' := lay, m;
    LayoutStart(i, row, lay, m);
    for j := 0 to |sElements|
      invariant LaidOut(i, row, j, counters, lay, m, lay', m')
    {
      var el := MapType(sElements[j]);
      MemberKey(s, j, m);
      var etype := el.kind;
      var xOffset := TypeX(etype);
      var yOffset := Counter(counters, etype) * ROW_HEIGHT;
      var place := Placement(i * (SLICE_WIDTH + SLICE_GAP) + xOffset, BASE_Y + yOffset, HEIGHT, etype, el.title);
      LayoutTurn(i, row, j, el, counters, lay, m, lay', m', place);
      counters := counters[etype := Counter(counters, etype) + 1];
      lay' := lay'[el.id := place];
      m' := m'[el.id := ClearTemp(m'[el.id])];
    }
    LayoutEnd(i, s, row, counters, lay, m, lay', m');
  }

  lemma MemberKey(s: Slice, j: nat, m: map<string, Element>)
    requires IdSet(Members(s)) <= m.Keys && j < |Members(s)|
    ensures MapType(Members(s)[j]).id in m
  {
    assert Members(s)[j] in Members(s);
  }

  /** After the last entry of slice i, the loop facts are the method's postconditions. */
  lemma LayoutEnd(i: nat, s: Slice, row: seq<Element>, counters: map<TypeTag, nat>,
                  lay0: map<string, Placement>, m0: map<string, Element>,
                  lay: map<string, Placement>, m: map<string, Element>)
    requires row == Normalised(Members(s))
    requires LaidOut(i, row, |row|, counters, lay0, m0, lay, m)
    ensures lay == lay0 + LayoutRow(i, row)
    ensures m == ClearIds(m0, IdSet(Members(s)))
  {
    assert row[..|row|] == row;
    RowIdsOf(s);
  }

  lemma RowIdsOf(s: Slice)
    ensures IdSet(Normalised(Members(s))) == IdSet(Members(s))
  {
    var ms := Members(s);
    var row := Normalised(ms);
    forall x | x in IdSet(ms) ensures x in IdSet(row) {
      var p :| 0 <= p < |ms| && ms[p].id == x;
      assert row[p].id == x;
    }
  }

  class ModelFixer {
    /** The input document's `eventModel.slices` (an absent list is empty). */
    const slices: seq<Slice>
    /** `element_map`. */
    var elementMap: map<string, Element>
    /** The key order of `element_map`, which is the order the later phases visit it in. */
    var order: seq<string>
    /** `count_fixed`. */
    var countFixed: nat
    /** `layout`. */
    var layout: map<string, Placement>

    /** Phase 1 has run: the map is keyed by exactly the ids of the document's elements,
        and `order` lists every key once. A fresh fixer does not satisfy it (its map is
        empty); CollectElements establishes it and the later phases keep it. */
    ghost predicate Filed()
      reads this
    {
      && Distinct(order)
      && (forall k :: k in order <==> k in elementMap)
      && elementMap.Keys == IdSet(AllElements(slices))
    }

    constructor (slices: seq<Slice>)
      ensures this.slices == slices
      ensures elementMap == map[] && order == [] && countFixed == 0 && layout == map[]
    {
      this.slices := slices;
      elementMap := map[];
      order := [];
      countFixed := 0;
      layout := map[];
    }

    /** Lines 44-66: normalise every element, tag it with its slice and file it under its
        id, slice by slice and bucket by bucket. */
    method CollectElements()
      modifies this`elementMap, this`order
      ensures Filed()
      ensures elementMap == MapOf(Prepared(slices, |slices|))
      ensures order == InsertionOrder(Prepared(slices, |slices|))
    {
      var sl := slices;
      var m: map<string, Element> := map[];
      var ord: seq<string> := [];
      for i := 0 to |sl|
        invariant m == MapOf(Prepared(sl, i)) && ord == InsertionOrder(Prepared(sl, i))
        modifies {}
      {
        m, ord := FileSlice(sl, i, m, ord);
      }
      CollectedShape(sl, m, ord);
      elementMap, order := m, ord;
    }

    /** Lines 69-90: for each element, in key order, and each of its INBOUND edges from
        a known source, append the OUTBOUND counterpart to the source unless the source
        already has an OUTBOUND edge to the element. */
    method SynthesizeEdges()
      requires Filed()
      modifies this`elementMap, this`countFixed
      ensures Filed()
      ensures elementMap == Synthesize(old(elementMap), order).elements
      ensures countFixed == Synthesize(old(elementMap), order).added
    {
      var ord := order;
      var m := elementMap;
      ghost var m0 := m;
      var added := 0;
      for i := 0 to |ord|
        invariant m.Keys == m0.Keys
        invariant Synthesize(m0, ord) == SynthesizeFrom(Synth(m, added), ord[i..])
        modifies {}
      {
        var elId := ord[i];
        var el := m[elId];
        var inbound := Keep(el.dependencies, Inbound);
        SynthesizeFromStep(Synth(m, added), ord, i);
        m, added := AddOutbound(m, added, elId, el.kind, inbound);
      }
      assert ord[|ord|..] == [];
      elementMap, countFixed := m, added;
    }

    /** Lines 95-96: keep only the OUTBOUND edges of every element. */
    method PurgeInboundEdges()
      requires Filed()
      modifies this`elementMap
      ensures Filed()
      ensures elementMap == PurgeInbound(old(elementMap))
    {
      var ord := order;
      var m := elementMap;
      ghost var m0 := m;
      for i := 0 to |ord|
        invariant m == PurgeSome(m0, ord[..i])
      {
        var elId := ord[i];
        assert ord[..i + 1] == ord[..i] + [elId];
        PurgeSomeStep(m0, ord[..i], elId, m);
        var el := m[elId];
        m := m[elId := el.(dependencies := Keep(el.dependencies, Outbound))];
      }
      PurgeSomeAll(m0, ord);
      elementMap := m;
    }

    /** Lines 99-155: place every bucket entry of every slice and remove its transient
        fields. */
    method GenerateLayout()
      requires Filed()
      modifies this`elementMap, this`layout
      ensures Filed()
      ensures layout == LayoutAll(Rows(slices))
      ensures elementMap == ClearAll(old(elementMap))
    {
      var sl := slices;
      var m := elementMap;
      ghost var m0 := m;
      var lay: map<string, Placement> := map[];
      assert sl[..0] == [];
      for sIdx := 0 to |sl|
        invariant Placed(sl, sIdx, m0, lay, m)
        modifies {}
      {
        var s := sl[sIdx];
        ghost var lay0, mBefore := lay, m;
        PlacedKeys(sl, sIdx, m0, lay, m);
        lay, m := LayoutSlice(sIdx, s, lay, m);
        PlacedStep(sl, sIdx, m0, lay0, mBefore, lay, m);
      }
      PlacedEnd(sl, m0, lay, m);
      layout, elementMap := lay, m;
    }

    /** `fix_model` on the in-memory slices: abort before any change when there are no
        slices, otherwise run the four phases in order. */
    method FixModel() returns (ok: bool)
      modifies this
      ensures ok <==> slices != []
      ensures !ok ==> unchanged(this)
      ensures ok ==> Filed() && Fix(slices) == Some(Fixed(elementMap, order, layout, countFixed))
    {
      if slices == [] {
        return false;
      }
      CollectElements();
      SynthesizeEdges();
      PurgeInboundEdges();
      GenerateLayout();
      ok := true;
    }
  }

  /** The map with the edges of the entries under the keys in done filtered to OUTBOUND. */
  function PurgeSome(m: map<string, Element>, done: seq<string>): (r: map<string, Element>)
    ensures r.Keys == m.Keys
  {
    map k | k in m :: if k in done then m[k].(dependencies := Keep(m[k].dependencies, Outbound)) else m[k]
  }

  /** Filtering the edges of one more key. */
  lemma {:induction false} PurgeSomeStep(m0: map<string, Element>, done: seq<string>, k: string, m: map<string, Element>)
    requires k in m0 && m == PurgeSome(m0, done)
    ensures k in m
    ensures m[k := m[k].(dependencies := Keep(m[k].dependencies, Outbound))] == PurgeSome(m0, done + [k])
  {
    KeepIdempotent(m0[k].dependencies, Outbound);
  }

  /** Once every key has been visited, every element is filtered. */
  lemma PurgeSomeAll(m0: map<string, Element>, ord: seq<string>)
    requires forall k | k in m0 :: k in ord
    ensures PurgeSome(m0, ord[..|ord|]) == PurgeInbound(m0)
  {
    assert ord[..|ord|] == ord;
  }

  /** Phase 4 has laid out the first n slices and cleared the transient fields of their
      entries in m0. */
  ghost predicate Placed(slices: seq<Slice>, n: nat, m0: map<string, Element>,
                         lay: map<string, Placement>, m: map<string, Element>)
    requires n <= |slices|
  {
    && lay == LayoutAll(Rows(slices)[..n])
    && m == ClearIds(m0, IdSet(AllElements(slices[..n])))
  }

  /** The entries of the next slice are keys of the map. */
  lemma PlacedKeys(slices: seq<Slice>, n: nat, m0: map<string, Element>,
                   lay: map<string, Placement>, m: map<string, Element>)
    requires n < |slices| && m0.Keys == IdSet(AllElements(slices))
    requires Placed(slices, n, m0, lay, m)
    ensures IdSet(Members(slices[n])) <= m.Keys
  {
    MembersInAll(slices, n);
  }

  /** Laying out slice n extends the facts to n + 1 slices. */
  lemma {:induction false} PlacedStep(slices: seq<Slice>, n: nat, m0: map<string, Element>,
                   lay: map<string, Placement>, m: map<string, Element>,
                   lay': map<string, Placement>, m': map<string, Element>)
    requires n < |slices| && Placed(slices, n, m0, lay, m)
    requires lay' == lay + LayoutRow(n, Normalised(Members(slices[n])))
    requires m' == ClearIds(m, IdSet(Members(slices[n])))
    ensures Placed(slices, n + 1, m0, lay', m')
  {
    var rows := Rows(slices);
    RowIds(slices, n);
    LayoutAllStep(rows, n);
    assert rows[..n + 1][..n] == rows[..n];
    ClearIdsTwice(m0, IdSet(AllElements(slices[..n])), IdSet(Members(slices[n])));
  }

  /** Once every slice is laid out, the layout is that of all rows and every element of
      the map has lost its transient fields. */
  lemma {:induction false} PlacedEnd(slices: seq<Slice>, m0: map<string, Element>, lay: map<string, Placement>, m: map<string, Element>)
    requires m0.Keys == IdSet(AllElements(slices))
    requires Placed(slices, |slices|, m0, lay, m)
    ensures lay == LayoutAll(Rows(slices))
    ensures m == ClearAll(m0)
  {
    assert slices[..|slices|] == slices;
    assert Rows(slices)[..|slices|] == Rows(slices);
    ClearIdsAll(m0, IdSet(AllElements(slices)));
  }

  lemma ClearIdsAll(m: map<string, Element>, ids: set<string>)
    requires m.Keys <= ids
    ensures ClearIds(m, ids) == ClearAll(m)
  {
  }

  /** Every element of slice i is an element of the document. */
  lemma MembersInAll(slices: seq<Slice>, i: nat)
    requires i < |slices|
    ensures forall e | e in Members(slices[i]) :: e in AllElements(slices)
    ensures IdSet(Members(slices[i])) <= IdSet(AllElements(slices))
  {
    AllElementsPrefix(slices, i + 1, |slices|);
    assert slices[..i + 1][..i] == slices[..i];
    assert slices[..|slices|] == slices;
  }

  lemma {:induction false} AllElementsPrefix(slices: seq<Slice>, n: nat, n': nat)
    requires n <= n' <= |slices|
    ensures AllElements(slices[..n]) <= AllElements(slices[..n'])
    decreases n' - n
  {
    if n < n' {
      AllElementsPrefix(slices, n, n' - 1);
      assert slices[..n'][..n' - 1] == slices[..n' - 1];
    }
  }
}
