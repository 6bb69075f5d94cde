/** What `fix_model` promises about its output, stated over the input slices: the keys
    and key order of the element map, each element's fields, its dependency list and
    OUTBOUND targets, and its layout entry. */
module FixProperties {
  import opened EventModel
  import opened TypeNormalizer
  import opened EdgeSynthesis
  import opened LayoutEngine
  import opened FixWeavrModel

  /** The element map as phase 1 leaves it. */
  function Phase1(slices: seq<Slice>): map<string, Element> {
    MapOf(Prepared(slices, |slices|))
  }

  /** The ids of the document's elements that name s as the source of an INBOUND edge. */
  function Requesters(slices: seq<Slice>, s: string): set<string> {
    set e | e in AllElements(slices) && s in Sources(e) :: e.id
  }

  /** x is e after `map_type`, up to the transient `_slice_id` and `_slice_index`. */
  predicate NormalisedFrom(x: Element, e: Element) {
    ClearTemp(x) == ClearTemp(MapType(e))
  }

  /** The position of element j of slice i in the document's element sequence. */
  function Pos(slices: seq<Slice>, i: nat, j: nat): nat
    requires i <= |slices|
  {
    |AllElements(slices[..i])| + j
  }

  lemma {:induction false} AllElementsAt(slices: seq<Slice>, i: nat, j: nat)
    requires i < |slices| && j < |Members(slices[i])|
    ensures Pos(slices, i, j) < |AllElements(slices)|
    ensures AllElements(slices)[Pos(slices, i, j)] == Members(slices[i])[j]
    ensures Pos(slices, i, j) < |AllElements(slices[..i + 1])|
  {
    assert slices[..i + 1][..i] == slices[..i];
    assert AllElements(slices[..i + 1]) == AllElements(slices[..i]) + Members(slices[i]);
    AllElementsPrefix(slices, i + 1, |slices|);
    assert slices[..|slices|] == slices;
  }

  /** Elements of earlier slices come earlier in the document's element sequence. */
  lemma {:induction false} PosOrder(slices: seq<Slice>, i: nat, j: nat, i': nat, j': nat)
    requires i < i' < |slices| && j < |Members(slices[i])|
    ensures Pos(slices, i, j) < Pos(slices, i', j')
  {
    AllElementsAt(slices, i, j);
    AllElementsPrefix(slices, i + 1, i');
  }

  /** With unique ids, no id occurs twice among the rows phase 4 walks. */
  lemma {:induction false} UniqueRows(slices: seq<Slice>)
    requires UniqueIds(slices)
    ensures DistinctRows(Rows(slices))
  {
    var rows: seq<seq<Element>> := Rows(slices);
    var all: seq<Element> := AllElements(slices);
    forall i: nat, j: nat, i': nat, j': nat |
      && 0 <= i < |rows| && 0 <= j < |rows[i]|
      && 0 <= i' < |rows| && 0 <= j' < |rows[i']|
      && (i != i' || j != j')
      ensures rows[i][j].id != rows[i'][j'].id
    {
      AllElementsAt(slices, i, j);
      AllElementsAt(slices, i', j');
      if i < i' {
        PosOrder(slices, i, j, i', j');
      } else if i' < i {
        PosOrder(slices, i', j', i, j);
      }
      var p, q := Pos(slices, i, j), Pos(slices, i', j');
      assert p != q;
      if p < q {
        assert Ids(all)[p] != Ids(all)[q];
      } else {
        assert Ids(all)[q] != Ids(all)[p];
      }
    }
  }

  /** Phase 1 files, position by position, the document's elements normalised and tagged. */
  lemma {:induction false} PreparedAgrees(slices: seq<Slice>, n: nat)
    requires n <= |slices|
    ensures |Prepared(slices, n)| == |AllElements(slices[..n])|
    ensures forall p | 0 <= p < |Prepared(slices, n)| ::
      NormalisedFrom(Prepared(slices, n)[p], AllElements(slices[..n])[p])
    decreases n
  {
    if n > 0 {
      PreparedAgrees(slices, n - 1);
      var pre := slices[..n - 1];
      assert slices[..n][..n - 1] == pre;
      var ms := Members(slices[n - 1]);
      var front := Prepared(slices, n - 1);
      var ps := PrepareAll(ms, slices[n - 1].id, n - 1);
      assert Prepared(slices, n) == front + ps;
      assert AllElements(slices[..n]) == AllElements(pre) + ms;
      forall p | 0 <= p < |Prepared(slices, n)|
        ensures NormalisedFrom(Prepared(slices, n)[p], AllElements(slices[..n])[p])
      {
        if p >= |front| {
          assert Prepared(slices, n)[p] == ps[p - |front|];
          assert AllElements(slices[..n])[p] == ms[p - |front|];
        } else {
          assert Prepared(slices, n)[p] == front[p];
          assert AllElements(slices[..n])[p] == AllElements(pre)[p];
        }
      }
    }
  }

  /** Every value of the dictionary built from es is one of the elements of es. */
  lemma {:induction false} MapOfValue(es: seq<Element>, k: string)
    requires k in MapOf(es)
    ensures exists p :: 0 <= p < |es| && MapOf(es)[k] == es[p]
    decreases |es|
  {
    var pre := es[..|es| - 1];
    if k != es[|es| - 1].id {
      MapOfValue(pre, k);
      var p :| 0 <= p < |pre| && MapOf(pre)[k] == pre[p];
      assert es[p] == pre[p];
    }
  }

  /** Each value of the phase 1 map is some document element with that id, normalised. */
  lemma Phase1Value(slices: seq<Slice>, k: string)
    requires k in Phase1(slices)
    ensures exists p :: 0 <= p < |AllElements(slices)| && AllElements(slices)[p].id == k
                        && NormalisedFrom(Phase1(slices)[k], AllElements(slices)[p])
  {
    var es := Prepared(slices, |slices|);
    MapOfValue(es, k);
    MapOfShape(es);
    PreparedAgrees(slices, |slices|);
    assert slices[..|slices|] == slices;
    var p :| 0 <= p < |es| && Phase1(slices)[k] == es[p];
    assert NormalisedFrom(es[p], AllElements(slices)[p]);
  }

  /** With unique ids, the element at position p is filed, normalised, under its id. */
  lemma Phase1AtPos(slices: seq<Slice>, p: nat)
    requires UniqueIds(slices) && p < |AllElements(slices)|
    ensures AllElements(slices)[p].id in Phase1(slices)
    ensures NormalisedFrom(Phase1(slices)[AllElements(slices)[p].id], AllElements(slices)[p])
  {
    var es := Prepared(slices, |slices|);
    PreparedIds(slices, |slices|);
    PreparedAgrees(slices, |slices|);
    assert slices[..|slices|] == slices;
    assert Ids(es)[p] == AllElements(slices)[p].id;
    MapOfUnique(es, p);
  }

  /** With unique ids, element j of slice i is filed, normalised, under its id. */
  lemma Phase1At(slices: seq<Slice>, i: nat, j: nat)
    requires UniqueIds(slices) && i < |slices| && j < |Members(slices[i])|
    ensures Members(slices[i])[j].id in Phase1(slices)
    ensures NormalisedFrom(Phase1(slices)[Members(slices[i])[j].id], Members(slices[i])[j])
  {
    AllElementsAt(slices, i, j);
    Phase1AtPos(slices, Pos(slices, i, j));
  }

  lemma NormalisedFields(x: Element, e: Element)
    requires NormalisedFrom(x, e)
    ensures x.dependencies == e.dependencies && Sources(x) == Sources(e)
    ensures x.id == e.id && x.title == e.title && x.kind == MapType(e).kind && IsSchemaTag(x.kind)
  {
    assert ClearTemp(x).dependencies == ClearTemp(MapType(e)).dependencies;
    assert ClearTemp(x).kind == ClearTemp(MapType(e)).kind;
  }

  /** With unique ids, the elements phase 2 sees naming s as a source are exactly the
      document's elements that do. */
  lemma DependentsAreRequesters(slices: seq<Slice>, s: string)
    requires UniqueIds(slices)
    ensures Dependents(Phase1(slices), s) == Requesters(slices, s)
  {
    var m := Phase1(slices);
    var all := AllElements(slices);
    forall x | x in Dependents(m, s) ensures x in Requesters(slices, s) {
      Phase1Value(slices, x);
      var p :| 0 <= p < |all| && all[p].id == x && NormalisedFrom(m[x], all[p]);
      NormalisedFields(m[x], all[p]);
      assert all[p] in all;
    }
    forall x | x in Requesters(slices, s) ensures x in Dependents(m, s) {
      var e :| e in all && s in Sources(e) && e.id == x;
      var p :| 0 <= p < |all| && all[p] == e;
      Phase1AtPos(slices, p);
      NormalisedFields(m[x], e);
    }
  }

  /** A list whose edges all have one direction keeps all of them. */
  lemma {:induction false} KeepAll(deps: seq<Dependency>, dir: Direction)
    requires forall d | d in deps :: d.direction == dir
    ensures Keep(deps, dir) == deps
    decreases |deps|
  {
    if deps != [] {
      var rest := deps[..|deps| - 1];
      var last := deps[|deps| - 1];
      assert deps == rest + [last];
      assert last in deps;
      KeepAll(rest, dir);
      assert Keep(deps, dir) == Keep(rest, dir) + [last];
    }
  }

  /** Dropping the edges of other directions keeps every OUTBOUND count. */
  lemma {:induction false} CountOutKeep(deps: seq<Dependency>, t: string)
    ensures CountOut(Keep(deps, Outbound), t) == CountOut(deps, t)
    decreases |deps|
  {
    if deps != [] {
      var rest := deps[..|deps| - 1];
      var last := deps[|deps| - 1];
      CountOutKeep(rest, t);
      var kept := Keep(rest, Outbound);
      if last.direction == Outbound {
        assert Keep(deps, Outbound) == kept + [last];
        assert (kept + [last])[..|kept|] == kept;
      } else {
        assert Keep(deps, Outbound) == kept;
      }
    }
  }

  /** The phase 3 list of an element that phase 2 extended: its own OUTBOUND edges, in
      order, then the edges phase 2 appended. */
  lemma {:induction false} PurgedExtension(m0: map<string, Element>, m: map<string, Element>, k: string)
    requires Extends(m0, m) && k in m0
    ensures Keep(m0[k].dependencies, Outbound) <= Keep(m[k].dependencies, Outbound)
    ensures forall q | |Keep(m0[k].dependencies, Outbound)| <= q < |Keep(m[k].dependencies, Outbound)| ::
      Synthesized(m0, k, Keep(m[k].dependencies, Outbound)[q])
  {
    var before := m0[k].dependencies;
    var after := m[k].dependencies;
    var suffix := after[|before|..];
    assert after == before + suffix;
    forall d | d in suffix ensures d.direction == Outbound {
      var q :| 0 <= q < |suffix| && suffix[q] == d;
      assert Synthesized(m0, k, after[|before| + q]);
    }
    KeepAll(suffix, Outbound);
    KeepAppend(before, suffix, Outbound);
    var kept := Keep(before, Outbound);
    forall q | |kept| <= q < |Keep(after, Outbound)|
      ensures Synthesized(m0, k, Keep(after, Outbound)[q])
    {
      assert Keep(after, Outbound)[q] == after[|before| + (q - |kept|)];
    }
  }

  /** Keys, ids and key order of the output map: one entry per document id, each under
      its own id; the key order lists every key once, in document order when ids are
      unique. */
  lemma FixKeys(slices: seq<Slice>)
    requires slices != []
    ensures Fix(slices).Some?
    ensures Fix(slices).value.elements.Keys == IdSet(AllElements(slices))
    ensures forall k | k in Fix(slices).value.elements :: Fix(slices).value.elements[k].id == k
    ensures Distinct(Fix(slices).value.order)
    ensures forall k :: k in Fix(slices).value.order <==> k in Fix(slices).value.elements
    ensures UniqueIds(slices) ==> Fix(slices).value.order == Ids(AllElements(slices))
  {
    var prepared := Prepared(slices, |slices|);
    var m := MapOf(prepared);
    var order := InsertionOrder(prepared);
    CollectedShape(slices, m, order);
    SynthesizeTargets(m, order);
    var st := Synthesize(m, order);
    PurgeInboundSpec(st.elements);
    if UniqueIds(slices) {
      PreparedIds(slices, |slices|);
      assert slices[..|slices|] == slices;
      InsertionOrderUnique(prepared);
    }
  }

  /** After `fix_model` no INBOUND edge (and no edge without a direction) remains. */
  lemma FixOutboundOnly(slices: seq<Slice>)
    requires slices != []
    ensures forall k, d | k in Fix(slices).value.elements && d in Fix(slices).value.elements[k].dependencies ::
      d.direction == Outbound
  {
    var prepared := Prepared(slices, |slices|);
    var st := Synthesize(MapOf(prepared), InsertionOrder(prepared));
    PurgeInboundSpec(st.elements);
  }

  /** With unique ids, element j of slice i leaves `fix_model` normalised by `map_type`,
      without `_slice_id` and `_slice_index`, with its own OUTBOUND edges in their order
      followed by edges synthesised for it, with OUTBOUND targets its old ones plus every
      element naming it in an INBOUND edge, and with at most one new edge per target, and
      only to a target it had no OUTBOUND edge to. */
  lemma FixElement(slices: seq<Slice>, i: nat, j: nat)
    requires UniqueIds(slices) && i < |slices| && j < |Members(slices[i])|
    ensures Fix(slices).Some?
    ensures var e := Members(slices[i])[j];
      var out := Fix(slices).value.elements;
      && e.id in out
      && out[e.id] == ClearTemp(MapType(e)).(dependencies := out[e.id].dependencies)
      && Keep(e.dependencies, Outbound) <= out[e.id].dependencies
      && (forall q | |Keep(e.dependencies, Outbound)| <= q < |out[e.id].dependencies| ::
            Synthesized(Phase1(slices), e.id, out[e.id].dependencies[q]))
      && OutTargets(out[e.id].dependencies) == OutTargets(e.dependencies) + Requesters(slices, e.id)
      && (forall t :: AtMostOneMore(CountOut(e.dependencies, t), CountOut(out[e.id].dependencies, t)))
  {
    var e := Members(slices[i])[j];
    var k := e.id;
    var prepared := Prepared(slices, |slices|);
    var m := MapOf(prepared);
    var order := InsertionOrder(prepared);
    CollectedShape(slices, m, order);
    Phase1At(slices, i, j);
    NormalisedFields(m[k], e);
    SynthesizeTargets(m, order);
    var sm := Synthesize(m, order).elements;
    PurgeInboundSpec(sm);
    PurgedExtension(m, sm, k);
    DependentsAreRequesters(slices, k);
    var out := Fix(slices).value.elements;
    assert out[k] == ClearTemp(PurgeInbound(sm)[k]);
    assert out[k].dependencies == Keep(sm[k].dependencies, Outbound);
    forall t ensures AtMostOneMore(CountOut(e.dependencies, t), CountOut(out[k].dependencies, t)) {
      CountOutKeep(sm[k].dependencies, t);
    }
  }

  /** The layout has one entry per document id. */
  lemma FixLayoutKeys(slices: seq<Slice>)
    requires slices != []
    ensures Fix(slices).value.layout.Keys == IdSet(AllElements(slices))
  {
    LayoutKeysUpTo(slices, |slices|);
    assert Rows(slices)[..|slices|] == Rows(slices);
    assert slices[..|slices|] == slices;
  }

  lemma {:induction false} LayoutKeysUpTo(slices: seq<Slice>, n: nat)
    requires n <= |slices|
    ensures LayoutAll(Rows(slices)[..n]).Keys == IdSet(AllElements(slices[..n]))
  {
    if n > 0 {
      LayoutKeysUpTo(slices, n - 1);
      LayoutAllStep(Rows(slices), n - 1);
      RowIds(slices, n - 1);
    }
  }

  /** With unique ids, element j of slice i is placed at x = i * 1300 + TYPE_X[T] and
      y = 100 + k * 180, where T is its type after `map_type` and k the number of earlier
      elements of type T in the slice, with height 120 and its type and title. */
  lemma FixLayout(slices: seq<Slice>, i: nat, j: nat)
    requires UniqueIds(slices) && i < |slices| && j < |Members(slices[i])|
    ensures Fix(slices).Some?
    ensures var e := Members(slices[i])[j];
      var row := Normalised(Members(slices[i]));
      var lay := Fix(slices).value.layout;
      && e.id in lay
      && lay[e.id] == Place(i, Rank(row, j), MapType(e))
      && lay[e.id].x == i * 1300 + TypeX(MapType(e).kind)
      && lay[e.id].y == 100 + CountKind(row[..j], MapType(e).kind) * 180
      && lay[e.id].height == 120
      && lay[e.id].kind == MapType(e).kind
      && lay[e.id].title == e.title
  {
    UniqueRows(slices);
    LayoutAllAt(Rows(slices), i, j);
  }

  /** Without INBOUND edges in the document, phase 2 changes nothing. */
  lemma NoInboundSynth(slices: seq<Slice>)
    requires forall e, d | e in AllElements(slices) && d in e.dependencies :: d.direction != Inbound
    ensures Synthesize(Phase1(slices), InsertionOrder(Prepared(slices, |slices|))) == Synth(Phase1(slices), 0)
  {
    var prepared := Prepared(slices, |slices|);
    var m := MapOf(prepared);
    forall k | k in m ensures Keep(m[k].dependencies, Inbound) == [] {
      Phase1Value(slices, k);
      var p :| 0 <= p < |AllElements(slices)| && AllElements(slices)[p].id == k
               && NormalisedFrom(m[k], AllElements(slices)[p]);
      NormalisedFields(m[k], AllElements(slices)[p]);
      assert AllElements(slices)[p] in AllElements(slices);
      KeepNone(m[k].dependencies, Inbound);
    }
    SynthesizeNoInbound(m, InsertionOrder(prepared));
  }

  /** Without INBOUND edges in the document, `count_fixed` is 0 and, with unique ids,
      each element only loses its unmarked edges: its list is its own OUTBOUND edges. */
  lemma FixNoInbound(slices: seq<Slice>, p: nat)
    requires slices != [] && UniqueIds(slices) && p < |AllElements(slices)|
    requires forall e, d | e in AllElements(slices) && d in e.dependencies :: d.direction != Inbound
    ensures Fix(slices).value.countFixed == 0
    ensures var e := AllElements(slices)[p];
      && e.id in Fix(slices).value.elements
      && Fix(slices).value.elements[e.id] == ClearTemp(MapType(e)).(dependencies := Keep(e.dependencies, Outbound))
  {
    var e := AllElements(slices)[p];
    var m := Phase1(slices);
    NoInboundSynth(slices);
    Phase1AtPos(slices, p);
    NormalisedFields(m[e.id], e);
    PurgeInboundSpec(m);
  }
}
