/** Running `fix_model` on the document it wrote. The bucket entries of the written
    document are the very dicts that `element_map` holds, so each entry of the output is
    the map's entry for its id. With unique ids, a second run reproduces the map, its key
    order and the layout, and fixes no edge: the guard at line 83 and the purge at lines
    95-96 leave nothing to do. */
module FixRerun {
  import opened EventModel
  import opened TypeNormalizer
  import opened EdgeSynthesis
  import opened LayoutEngine
  import opened FixWeavrModel
  import opened FixProperties

  /** Each entry replaced by the map's entry for its id, where there is one. */
  function Refresh(es: seq<Element>, out: map<string, Element>): (r: seq<Element>)
    ensures |r| == |es|
    ensures forall j | 0 <= j < |es| :: r[j] == (if es[j].id in out then out[es[j].id] else es[j])
  {
    seq(|es|, j requires 0 <= j < |es| => if es[j].id in out then out[es[j].id] else es[j])
  }

  function RefreshSlice(s: Slice, out: map<string, Element>): Slice {
    s.(commands := Refresh(s.commands, out), events := Refresh(s.events, out),
       readmodels := Refresh(s.readmodels, out), screens := Refresh(s.screens, out),
       processors := Refresh(s.processors, out), integrationEvents := Refresh(s.integrationEvents, out))
  }

  function RefreshAll(slices: seq<Slice>, out: map<string, Element>): (r: seq<Slice>)
    ensures |r| == |slices|
    ensures forall i | 0 <= i < |slices| :: r[i] == RefreshSlice(slices[i], out)
  {
    seq(|slices|, i requires 0 <= i < |slices| => RefreshSlice(slices[i], out))
  }

  /** A bucket entry whose id a later entry of the visiting order takes over in
      `element_map` (line 59). Phases 2 and 3 walk only the map, so it keeps the edges it
      was read with; phase 1 gave it the type `map_type` gives (line 56), and phase 4
      removed its transient fields (lines 153-155). */
  function Displaced(e: Element): (r: Element)
    ensures r.id == e.id && r.title == e.title && r.dependencies == e.dependencies
    ensures r.kind == MapType(e).kind && r.context == MapType(e).context
    ensures r.sliceId.None? && r.sliceIndex.None?
  {
    MapType(e).(sliceId := None, sliceIndex := None)
  }

  /** Entry j's id comes back later in es. */
  predicate RecursLater(es: seq<Element>, j: nat)
    requires j < |es|
  {
    es[j].id in IdSet(es[j + 1..])
  }

  /** How `fix_model` writes each of es when the ids in `after` come back later in the
      visiting order: the map's entry for its id, which is the very same dict, unless a
      later entry took the id over. */
  function Write(es: seq<Element>, out: map<string, Element>, after: set<string>): (r: seq<Element>)
    ensures |r| == |es|
  {
    seq(|es|, j requires 0 <= j < |es| =>
      if RecursLater(es, j) || es[j].id in after then Displaced(es[j])
      else if es[j].id in out then out[es[j].id] else es[j])
  }

  function WriteSlice(s: Slice, out: map<string, Element>, after: set<string>): Slice {
    var a5 := IdSet(s.integrationEvents) + after;
    var a4 := IdSet(s.processors) + a5;
    var a3 := IdSet(s.screens) + a4;
    var a2 := IdSet(s.readmodels) + a3;
    var a1 := IdSet(s.events) + a2;
    s.(commands := Write(s.commands, out, a1), events := Write(s.events, out, a2),
       readmodels := Write(s.readmodels, out, a3), screens := Write(s.screens, out, a4),
       processors := Write(s.processors, out, a5), integrationEvents := Write(s.integrationEvents, out, after))
  }

  function WriteAll(slices: seq<Slice>, out: map<string, Element>, after: set<string>): (r: seq<Slice>)
    ensures |r| == |slices|
    ensures forall i | 0 <= i < |slices| :: r[i].id == slices[i].id
    decreases |slices|
  {
    if slices == [] then []
    else
      var n := |slices| - 1;
      WriteAll(slices[..n], out, IdSet(Members(slices[n])) + after) + [WriteSlice(slices[n], out, after)]
  }

  /** The slices of the document `fix_model` writes (lines 162-163). */
  function Output(slices: seq<Slice>): (r: seq<Slice>)
    requires slices != []
    ensures |r| == |slices|
    ensures forall i | 0 <= i < |slices| :: r[i].id == slices[i].id
  {
    WriteAll(slices, Fix(slices).value.elements, {})
  }

  /** An element already in the form `fix_model` leaves: a schema type, no transient
      fields, OUTBOUND edges only. */
  predicate Clean(e: Element) {
    && IsSchemaTag(e.kind)
    && e.sliceId.None? && e.sliceIndex.None?
    && forall d | d in e.dependencies :: d.direction == Outbound
  }

  lemma RefreshAppend(a: seq<Element>, b: seq<Element>, out: map<string, Element>)
    ensures Refresh(a + b, out) == Refresh(a, out) + Refresh(b, out)
  {
    var l := Refresh(a + b, out);
    var r := Refresh(a, out) + Refresh(b, out);
    forall q | 0 <= q < |l| ensures l[q] == r[q] {
      if q < |a| {
        assert (a + b)[q] == a[q];
      } else {
        assert (a + b)[q] == b[q - |a|];
      }
    }
  }

  lemma RefreshMembers(s: Slice, out: map<string, Element>)
    ensures Members(RefreshSlice(s, out)) == Refresh(Members(s), out)
  {
    var c, e, r, sc, p := s.commands, s.events, s.readmodels, s.screens, s.processors;
    RefreshAppend(c, e, out);
    RefreshAppend(c + e, r, out);
    RefreshAppend(c + e + r, sc, out);
    RefreshAppend(c + e + r + sc, p, out);
    RefreshAppend(c + e + r + sc + p, s.integrationEvents, out);
  }

  /** The written document's elements are the input's, each replaced by its map entry. */
  lemma {:induction false} RefreshAllElements(slices: seq<Slice>, out: map<string, Element>)
    ensures AllElements(RefreshAll(slices, out)) == Refresh(AllElements(slices), out)
    decreases |slices|
  {
    if slices != [] {
      var n := |slices| - 1;
      var rs := RefreshAll(slices, out);
      assert rs[..n] == RefreshAll(slices[..n], out);
      RefreshAllElements(slices[..n], out);
      RefreshMembers(slices[n], out);
      RefreshAppend(AllElements(slices[..n]), Members(slices[n]), out);
    }
  }

  lemma IdSetAppend(a: seq<Element>, b: seq<Element>)
    ensures IdSet(a + b) == IdSet(a) + IdSet(b)
  {
    assert forall e :: e in a + b <==> e in a || e in b;
  }

  /** Writing distributes over concatenation: the ids of b come back after every entry
      of a. */
  lemma WriteAppend(a: seq<Element>, b: seq<Element>, out: map<string, Element>, after: set<string>)
    ensures Write(a + b, out, after) == Write(a, out, IdSet(b) + after) + Write(b, out, after)
  {
    var l := Write(a + b, out, after);
    var r := Write(a, out, IdSet(b) + after) + Write(b, out, after);
    forall q | 0 <= q < |l| ensures l[q] == r[q] {
      if q < |a| {
        assert (a + b)[q + 1..] == a[q + 1..] + b;
        IdSetAppend(a[q + 1..], b);
      } else {
        assert (a + b)[q + 1..] == b[q - |a| + 1..];
      }
    }
  }

  lemma WriteMembers(s: Slice, out: map<string, Element>, after: set<string>)
    ensures Members(WriteSlice(s, out, after)) == Write(Members(s), out, after)
  {
    var c, e, r, sc, p, ie := s.commands, s.events, s.readmodels, s.screens, s.processors, s.integrationEvents;
    var a5 := IdSet(ie) + after;
    var a4 := IdSet(p) + a5;
    var a3 := IdSet(sc) + a4;
    var a2 := IdSet(r) + a3;
    WriteAppend(c + e + r + sc + p, ie, out, after);
    WriteAppend(c + e + r + sc, p, out, a5);
    WriteAppend(c + e + r, sc, out, a4);
    WriteAppend(c + e, r, out, a3);
    WriteAppend(c, e, out, a2);
  }

  /** The written document's elements, in visiting order: an entry is displaced exactly
      when its id comes back later in the document. */
  lemma {:induction false} WriteAllElements(slices: seq<Slice>, out: map<string, Element>, after: set<string>)
    ensures AllElements(WriteAll(slices, out, after)) == Write(AllElements(slices), out, after)
    decreases |slices|
  {
    if slices != [] {
      var n := |slices| - 1;
      var pre := slices[..n];
      var a := IdSet(Members(slices[n])) + after;
      var rs := WriteAll(slices, out, after);
      assert rs[..n] == WriteAll(pre, out, a);
      WriteAllElements(pre, out, a);
      WriteMembers(slices[n], out, after);
      WriteAppend(AllElements(pre), Members(slices[n]), out, after);
    }
  }

  /** With distinct ids no entry's id comes back later. */
  lemma DistinctNotLater(es: seq<Element>, j: nat)
    requires Distinct(Ids(es)) && j < |es|
    ensures !RecursLater(es, j)
  {
    var later := es[j + 1..];
    forall e | e in later ensures e.id != es[j].id {
      var k :| 0 <= k < |later| && later[k] == e;
      assert Ids(es)[j + 1 + k] == e.id;
    }
  }

  lemma WriteRefresh(es: seq<Element>, out: map<string, Element>, after: set<string>)
    requires Distinct(Ids(es)) && IdSet(es) !! after
    ensures Write(es, out, after) == Refresh(es, out)
  {
    forall j | 0 <= j < |es| ensures !RecursLater(es, j) && es[j].id !in after {
      DistinctNotLater(es, j);
      assert es[j] in es;
    }
  }

  lemma DistinctSplit(a: seq<Element>, b: seq<Element>)
    requires Distinct(Ids(a + b))
    ensures Distinct(Ids(a)) && Distinct(Ids(b)) && IdSet(a) !! IdSet(b)
  {
    var ab := Ids(a + b);
    forall i, j | 0 <= i < j < |a| ensures a[i].id != a[j].id {
      assert ab[i] == a[i].id && ab[j] == a[j].id;
    }
    forall i, j | 0 <= i < j < |b| ensures b[i].id != b[j].id {
      assert ab[|a| + i] == b[i].id && ab[|a| + j] == b[j].id;
    }
    forall x | x in IdSet(a) ensures x !in IdSet(b) {
      var e :| e in a && e.id == x;
      var i :| 0 <= i < |a| && a[i] == e;
      forall f | f in b ensures f.id != x {
        var j :| 0 <= j < |b| && b[j] == f;
        assert ab[i] == x && ab[|a| + j] == f.id;
      }
    }
  }

  lemma WriteSliceRefresh(s: Slice, out: map<string, Element>, after: set<string>)
    requires Distinct(Ids(Members(s))) && IdSet(Members(s)) !! after
    ensures WriteSlice(s, out, after) == RefreshSlice(s, out)
  {
    var c, e, r, sc, p, ie := s.commands, s.events, s.readmodels, s.screens, s.processors, s.integrationEvents;
    DistinctSplit(c + e + r + sc + p, ie);
    DistinctSplit(c + e + r + sc, p);
    DistinctSplit(c + e + r, sc);
    DistinctSplit(c + e, r);
    DistinctSplit(c, e);
    IdSetAppend(c + e + r + sc + p, ie);
    IdSetAppend(c + e + r + sc, p);
    IdSetAppend(c + e + r, sc);
    IdSetAppend(c + e, r);
    IdSetAppend(c, e);
    var a5 := IdSet(ie) + after;
    var a4 := IdSet(p) + a5;
    var a3 := IdSet(sc) + a4;
    var a2 := IdSet(r) + a3;
    var a1 := IdSet(e) + a2;
    WriteRefresh(ie, out, after);
    WriteRefresh(p, out, a5);
    WriteRefresh(sc, out, a4);
    WriteRefresh(r, out, a3);
    WriteRefresh(e, out, a2);
    WriteRefresh(c, out, a1);
  }

  lemma {:induction false} WriteAllRefresh(slices: seq<Slice>, out: map<string, Element>, after: set<string>)
    requires Distinct(Ids(AllElements(slices))) && IdSet(AllElements(slices)) !! after
    ensures WriteAll(slices, out, after) == RefreshAll(slices, out)
    decreases |slices|
  {
    if slices != [] {
      var n := |slices| - 1;
      var pre := slices[..n];
      DistinctSplit(AllElements(pre), Members(slices[n]));
      IdSetAppend(AllElements(pre), Members(slices[n]));
      WriteAllRefresh(pre, out, IdSet(Members(slices[n])) + after);
      WriteSliceRefresh(slices[n], out, after);
      assert RefreshAll(slices, out) == RefreshAll(pre, out) + [RefreshSlice(slices[n], out)];
    }
  }

  /** With unique ids no entry is displaced, and every bucket entry is written as the
      map's entry for its id. */
  lemma OutputIsRefresh(slices: seq<Slice>)
    requires slices != [] && UniqueIds(slices)
    ensures Output(slices) == RefreshAll(slices, Fix(slices).value.elements)
  {
    WriteAllRefresh(slices, Fix(slices).value.elements, {});
  }

  /** Every entry of the output map has a schema type. */
  lemma FixEntryKind(slices: seq<Slice>, k: string)
    requires slices != [] && k in Fix(slices).value.elements
    ensures IsSchemaTag(Fix(slices).value.elements[k].kind)
  {
    FixKindKept(slices, k);
    Phase1Schema(slices, k);
  }

  /** Phases 2 to 4 keep every entry's type. */
  lemma FixKindKept(slices: seq<Slice>, k: string)
    requires slices != [] && k in Fix(slices).value.elements
    ensures k in Phase1(slices) && Fix(slices).value.elements[k].kind == Phase1(slices)[k].kind
  {
    var prepared := Prepared(slices, |slices|);
    var m := MapOf(prepared);
    var order := InsertionOrder(prepared);
    CollectedShape(slices, m, order);
    SynthesizeTargets(m, order);
  }

  /** Phase 1 leaves every entry with a schema type. */
  lemma Phase1Schema(slices: seq<Slice>, k: string)
    requires k in Phase1(slices)
    ensures IsSchemaTag(Phase1(slices)[k].kind)
  {
    Phase1Value(slices, k);
    var p :| 0 <= p < |AllElements(slices)| && NormalisedFrom(Phase1(slices)[k], AllElements(slices)[p]);
    NormalisedFields(Phase1(slices)[k], AllElements(slices)[p]);
  }

  /** Every entry of the output map is clean. */
  lemma FixEntryClean(slices: seq<Slice>, k: string)
    requires slices != [] && k in Fix(slices).value.elements
    ensures Clean(Fix(slices).value.elements[k])
  {
    FixEntryKind(slices, k);
    FixOutboundOnly(slices);
  }

  lemma FixAllClean(slices: seq<Slice>)
    requires slices != []
    ensures forall k | k in Fix(slices).value.elements :: Clean(Fix(slices).value.elements[k])
  {
    forall k | k in Fix(slices).value.elements ensures Clean(Fix(slices).value.elements[k]) {
      FixEntryClean(slices, k);
    }
  }

  /** Refreshing from a map of clean entries, each under its own id and covering every
      id of es, keeps the ids and leaves only clean elements. */
  lemma RefreshClean(es: seq<Element>, out: map<string, Element>)
    requires forall k | k in out :: out[k].id == k && Clean(out[k])
    requires IdSet(es) <= out.Keys
    ensures Ids(Refresh(es, out)) == Ids(es)
    ensures forall e | e in Refresh(es, out) :: Clean(e)
  {
    var r := Refresh(es, out);
    forall q | 0 <= q < |es| ensures es[q].id in out {
      assert es[q] in es;
    }
  }

  /** The written document has the input's ids, in the same order. An entry whose id
      does not come back later in the document is the map's entry and is clean; an entry
      whose id comes back later is written as `Displaced`, with the edges it was read
      with. */
  lemma OutputShape(slices: seq<Slice>)
    requires slices != []
    ensures Ids(AllElements(Output(slices))) == Ids(AllElements(slices))
    ensures forall p | 0 <= p < |AllElements(slices)| && !RecursLater(AllElements(slices), p) ::
      Clean(AllElements(Output(slices))[p])
    ensures forall p | 0 <= p < |AllElements(slices)| && RecursLater(AllElements(slices), p) ::
      AllElements(Output(slices))[p] == Displaced(AllElements(slices)[p])
  {
    var out := Fix(slices).value.elements;
    WriteAllElements(slices, out, {});
    FixKeys(slices);
    FixAllClean(slices);
    WriteShape(AllElements(slices), out);
  }

  /** Writing from a map of clean entries, each under its own id and covering every id of
      es, keeps the ids; an entry whose id does not come back later becomes clean, and
      the others are displaced. */
  lemma WriteShape(es: seq<Element>, out: map<string, Element>)
    requires forall k | k in out :: out[k].id == k && Clean(out[k])
    requires IdSet(es) <= out.Keys
    ensures Ids(Write(es, out, {})) == Ids(es)
    ensures forall p | 0 <= p < |es| && !RecursLater(es, p) :: Clean(Write(es, out, {})[p])
    ensures forall p | 0 <= p < |es| && RecursLater(es, p) :: Write(es, out, {})[p] == Displaced(es[p])
  {
    var w := Write(es, out, {});
    forall p | 0 <= p < |es| ensures w[p].id == es[p].id && (!RecursLater(es, p) ==> Clean(w[p])) {
      assert es[p] in es;
    }
  }

  /** With unique ids, every element of the written document is clean. */
  lemma OutputClean(slices: seq<Slice>)
    requires slices != [] && UniqueIds(slices)
    ensures forall e | e in AllElements(Output(slices)) :: Clean(e)
  {
    var out := Fix(slices).value.elements;
    OutputIsRefresh(slices);
    RefreshAllElements(slices, out);
    FixKeys(slices);
    FixAllClean(slices);
    RefreshClean(AllElements(slices), out);
  }

  /** A document of clean elements with unique ids passes through unchanged. */
  lemma FixClean(slices: seq<Slice>, p: nat)
    requires slices != [] && UniqueIds(slices) && p < |AllElements(slices)|
    requires forall e | e in AllElements(slices) :: Clean(e)
    ensures Fix(slices).value.countFixed == 0
    ensures AllElements(slices)[p].id in Fix(slices).value.elements
    ensures Fix(slices).value.elements[AllElements(slices)[p].id] == AllElements(slices)[p]
  {
    var e := AllElements(slices)[p];
    assert e in AllElements(slices);
    FixNoInbound(slices, p);
    KeepAll(e.dependencies, Outbound);
  }

  /** Ranks depend only on the types of the elements. */
  lemma {:induction false} CountKindSame(a: seq<Element>, b: seq<Element>, t: TypeTag)
    requires |a| == |b| && forall q | 0 <= q < |a| :: a[q].kind == b[q].kind
    ensures CountKind(a, t) == CountKind(b, t)
    decreases |a|
  {
    if a != [] {
      CountKindSame(a[..|a| - 1], b[..|b| - 1], t);
    }
  }

  /** Two rows whose types agree after `map_type`, the second already normalised, give
      element j the same entry. */
  lemma PlaceSame(i: nat, ms: seq<Element>, ms2: seq<Element>, j: nat)
    requires |ms| == |ms2| && j < |ms|
    requires forall q | 0 <= q < |ms| :: ms2[q].kind == MapType(ms[q]).kind && MapType(ms2[q]) == ms2[q]
    requires ms2[j].title == ms[j].title
    ensures Place(i, Rank(Normalised(ms), j), MapType(ms[j])) == Place(i, Rank(Normalised(ms2), j), MapType(ms2[j]))
  {
    var row := Normalised(ms);
    var row2 := Normalised(ms2);
    CountKindSame(row[..j], row2[..j], row[j].kind);
  }

  /** Slice i of the written document holds the map entries of slice i's elements: same
      ids and titles, types already normalised. */
  lemma OutputRow(slices: seq<Slice>, i: nat)
    requires UniqueIds(slices) && i < |slices|
    ensures var ms := Members(slices[i]);
      var ms2 := Members(Output(slices)[i]);
      && |ms2| == |ms|
      && forall q | 0 <= q < |ms| :: && ms2[q].id == ms[q].id && ms2[q].title == ms[q].title
                                     && ms2[q].kind == MapType(ms[q]).kind && MapType(ms2[q]) == ms2[q]
  {
    OutputIsRefresh(slices);
    RefreshMembers(slices[i], Fix(slices).value.elements);
    var ms := Members(slices[i]);
    var ms2 := Members(Output(slices)[i]);
    forall q | 0 <= q < |ms| ensures && ms2[q].id == ms[q].id && ms2[q].title == ms[q].title
                                     && ms2[q].kind == MapType(ms[q]).kind && MapType(ms2[q]) == ms2[q] {
      OutputMember(slices, i, q);
    }
  }

  lemma OutputMember(slices: seq<Slice>, i: nat, q: nat)
    requires UniqueIds(slices) && i < |slices| && q < |Members(slices[i])|
    ensures Fix(slices).Some? && Members(slices[i])[q].id in Fix(slices).value.elements
    ensures var e := Members(slices[i])[q];
      var e2 := Fix(slices).value.elements[e.id];
      e2.id == e.id && e2.title == e.title && e2.kind == MapType(e).kind && MapType(e2) == e2
  {
    FixElement(slices, i, q);
  }

  /** The layout entry of element j of slice i is the same in both runs. */
  lemma RerunPlacement(slices: seq<Slice>, i: nat, j: nat)
    requires UniqueIds(slices) && i < |slices| && j < |Members(slices[i])|
    requires UniqueIds(Output(slices))
    ensures var k := Members(slices[i])[j].id;
      && k in Fix(slices).value.layout && k in Fix(Output(slices)).value.layout
      && Fix(Output(slices)).value.layout[k] == Fix(slices).value.layout[k]
  {
    var os := Output(slices);
    OutputRow(slices, i);
    PlaceSame(i, Members(slices[i]), Members(os[i]), j);
    FixLayout(slices, i, j);
    FixLayout(os, i, j);
  }

  /** Element p of the document has the same map entry in both runs. */
  lemma RerunEntry(slices: seq<Slice>, p: nat)
    requires slices != [] && UniqueIds(slices) && p < |AllElements(slices)|
    requires UniqueIds(Output(slices))
    requires forall e | e in AllElements(Output(slices)) :: Clean(e)
    ensures var k := AllElements(slices)[p].id;
      && k in Fix(slices).value.elements && k in Fix(Output(slices)).value.elements
      && Fix(Output(slices)).value.elements[k] == Fix(slices).value.elements[k]
  {
    var r := Fix(slices).value.elements;
    var all := AllElements(slices);
    OutputIsRefresh(slices);
    RefreshAllElements(slices, r);
    FixKeys(slices);
    assert all[p] in all;
    FixClean(Output(slices), p);
  }

  lemma MapExt<K, V>(a: map<K, V>, b: map<K, V>)
    requires a.Keys == b.Keys && forall k | k in b :: a[k] == b[k]
    ensures a == b
  {
  }

  /** A position of an id in a sequence of elements. */
  lemma IdAt(es: seq<Element>, k: string) returns (p: nat)
    requires k in IdSet(es)
    ensures p < |es| && es[p].id == k
  {
    var e :| e in es && e.id == k;
    p :| 0 <= p < |es| && es[p] == e;
  }

  /** The written document keeps unique ids. */
  lemma OutputUnique(slices: seq<Slice>)
    requires slices != [] && UniqueIds(slices)
    ensures UniqueIds(Output(slices))
    ensures IdSet(AllElements(Output(slices))) == IdSet(AllElements(slices))
  {
    OutputShape(slices);
    IdSetOfIds(AllElements(slices), AllElements(Output(slices)));
  }

  lemma RerunElements(slices: seq<Slice>)
    requires slices != [] && UniqueIds(slices)
    ensures Output(slices) != [] && Fix(Output(slices)).value.elements == Fix(slices).value.elements
  {
    var os := Output(slices);
    var r := Fix(slices).value.elements;
    var all := AllElements(slices);
    OutputClean(slices);
    OutputUnique(slices);
    FixKeys(slices);
    FixKeys(os);
    var r2 := Fix(os).value.elements;
    forall k | k in r ensures r2[k] == r[k] {
      var p := IdAt(all, k);
      RerunEntry(slices, p);
    }
    MapExt(r2, r);
  }

  lemma RerunLayout(slices: seq<Slice>)
    requires slices != [] && UniqueIds(slices)
    ensures Output(slices) != [] && Fix(Output(slices)).value.layout == Fix(slices).value.layout
  {
    var os := Output(slices);
    var lay := Fix(slices).value.layout;
    var all := AllElements(slices);
    OutputUnique(slices);
    FixLayoutKeys(slices);
    FixLayoutKeys(os);
    var lay2 := Fix(os).value.layout;
    forall k | k in lay ensures lay2[k] == lay[k] {
      var p := IdAt(all, k);
      var i, j := SliceOf(slices, p);
      RerunPlacement(slices, i, j);
    }
    MapExt(lay2, lay);
  }

  lemma RerunCount(slices: seq<Slice>)
    requires slices != [] && UniqueIds(slices)
    ensures Output(slices) != [] && Fix(Output(slices)).value.countFixed == 0
  {
    var all2 := AllElements(Output(slices));
    OutputClean(slices);
    assert forall e, d | e in all2 && d in e.dependencies :: d.direction != Inbound;
    NoInboundSynth(Output(slices));
  }

  /** `fix_model` run on the document it wrote: the same element map, key order and
      layout, and `count_fixed` is 0. */
  lemma FixIdempotent(slices: seq<Slice>)
    requires slices != [] && UniqueIds(slices)
    ensures Output(slices) != [] && Fix(Output(slices)).Some?
    ensures Fix(Output(slices)).value.elements == Fix(slices).value.elements
    ensures Fix(Output(slices)).value.order == Fix(slices).value.order
    ensures Fix(Output(slices)).value.layout == Fix(slices).value.layout
    ensures Fix(Output(slices)).value.countFixed == 0
  {
    OutputShape(slices);
    OutputUnique(slices);
    FixKeys(slices);
    FixKeys(Output(slices));
    RerunElements(slices);
    RerunLayout(slices);
    RerunCount(slices);
  }

  /** The slice and bucket position of the element at position p of the document. */
  lemma {:induction false} SliceOf(slices: seq<Slice>, p: nat) returns (i: nat, j: nat)
    requires p < |AllElements(slices)|
    ensures i < |slices| && j < |Members(slices[i])|
    ensures Members(slices[i])[j] == AllElements(slices)[p]
    decreases |slices|
  {
    var n := |slices| - 1;
    var pre := slices[..n];
    if p < |AllElements(pre)| {
      i, j := SliceOf(pre, p);
      assert pre[i] == slices[i];
    } else {
      i, j := n, p - |AllElements(pre)|;
    }
  }
}
