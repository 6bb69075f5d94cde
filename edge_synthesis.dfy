/** Phases 2 and 3 of `fix_model`: every INBOUND edge on E from a known element S yields
    an OUTBOUND edge on S to E unless S already has one to E; then every INBOUND edge is
    dropped. The id -> element map is a value here; the class in FixWeavrModel mutates
    its own copy with loops proved equal to these functions. */
module EdgeSynthesis {
  import opened EventModel

  /** `[d for d in deps if d.get('type') == dir]`: the edges of one direction, in their
      original order. */
  function Keep(deps: seq<Dependency>, dir: Direction): (r: seq<Dependency>)
    ensures forall d :: d in r <==> d in deps && d.direction == dir
    ensures |r| <= |deps|
    decreases |deps|
  {
    if deps == [] then []
    else
      var last := deps[|deps| - 1];
      assert deps == deps[..|deps| - 1] + [last];
      Keep(deps[..|deps| - 1], dir) + (if last.direction == dir then [last] else [])
  }

  /** Filtering distributes over concatenation: together with the one-element case this
      says Keep keeps exactly the matching edges in their relative order. */
  lemma {:induction false} KeepAppend(a: seq<Dependency>, b: seq<Dependency>, dir: Direction)
    ensures Keep(a + b, dir) == Keep(a, dir) + Keep(b, dir)
    decreases |b|
  {
    if b == [] {
      assert a + b == a;
    } else {
      var b' := b[..|b| - 1];
      var last := b[|b| - 1];
      assert (a + b)[..|a + b| - 1] == a + b';
      assert b[..|b| - 1] == b';
      KeepAppend(a, b', dir);
    }
  }

  lemma KeepSingle(d: Dependency, dir: Direction)
    ensures Keep([d], dir) == if d.direction == dir then [d] else []
  {
    assert [d][..0] == [];
  }

  /** Filtering twice filters once. */
  lemma {:induction false} KeepIdempotent(deps: seq<Dependency>, dir: Direction)
    ensures Keep(Keep(deps, dir), dir) == Keep(deps, dir)
    decreases |deps|
  {
    if deps != [] {
      var rest := deps[..|deps| - 1];
      var last := deps[|deps| - 1];
      KeepIdempotent(rest, dir);
      KeepAppend(Keep(rest, dir), if last.direction == dir then [last] else [], dir);
      if last.direction == dir {
        KeepSingle(last, dir);
      }
    }
  }

  /** A list with no edge of a direction keeps none. */
  lemma KeepNone(deps: seq<Dependency>, dir: Direction)
    requires forall j :: 0 <= j < |deps| ==> deps[j].direction != dir
    ensures Keep(deps, dir) == []
  {
  }

  /** The targets of a list's OUTBOUND edges (the id list checked at line 83). */
  function OutTargets(deps: seq<Dependency>): set<string> {
    set d | d in deps && d.direction == Outbound :: d.id
  }

  /** The ids a list of edges names. */
  function EdgeIds(deps: seq<Dependency>): set<string> {
    set d | d in deps :: d.id
  }

  lemma EdgeIdsCons(deps: seq<Dependency>)
    requires deps != []
    ensures EdgeIds(deps) == {deps[0].id} + EdgeIds(deps[1..])
  {
    forall x | x in EdgeIds(deps) ensures x == deps[0].id || x in EdgeIds(deps[1..]) {
      var d :| d in deps && d.id == x;
      if d != deps[0] {
        assert d in deps[1..];
      }
    }
  }

  /** Ids of the INBOUND edges of an element: the elements it names as its sources. */
  function Sources(e: Element): set<string> {
    EdgeIds(Keep(e.dependencies, Inbound))
  }

  /** Number of OUTBOUND edges targeting t. */
  function CountOut(deps: seq<Dependency>, t: string): nat
    decreases |deps|
  {
    if deps == [] then 0
    else
      var last := deps[|deps| - 1];
      CountOut(deps[..|deps| - 1], t) + (if last.direction == Outbound && last.id == t then 1 else 0)
  }

  lemma {:induction false} CountOutZero(deps: seq<Dependency>, t: string)
    ensures CountOut(deps, t) == 0 <==> t !in OutTargets(deps)
    decreases |deps|
  {
    if deps != [] {
      var rest := deps[..|deps| - 1];
      var last := deps[|deps| - 1];
      CountOutZero(rest, t);
      assert deps == rest + [last];
      assert OutTargets(deps) == OutTargets(rest) + (if last.direction == Outbound then {last.id} else {});
    }
  }

  lemma OutTargetsAppend(deps: seq<Dependency>, e: Dependency)
    ensures OutTargets(deps + [e]) == OutTargets(deps) + (if e.direction == Outbound then {e.id} else {})
  {
  }

  /** `dep.get('title', '')`. */
  function TitleOr(t: Option<string>): string {
    match t
    case Some(s) => s
    case None => ""
  }

  /** The OUTBOUND edge appended to the source of INBOUND edge d on element `target`. */
  function NewEdge(target: string, kind: TypeTag, d: Dependency): (r: Dependency)
    ensures r.id == target && r.direction == Outbound && r.elementType == Some(kind)
    ensures r.title == if d.title.Some? then d.title else Some("")
  {
    Dependency(target, Outbound, Some(TitleOr(d.title)), Some(kind))
  }

  /** The element map together with `count_fixed`. */
  datatype Synth = Synth(elements: map<string, Element>, added: nat)

  /** Lines 79-90 for one INBOUND edge d of element `target`. */
  function AddEdge(st: Synth, target: string, kind: TypeTag, d: Dependency): (r: Synth)
    ensures r.elements.Keys == st.elements.Keys
    ensures forall k | k in st.elements && k != d.id :: r.elements[k] == st.elements[k]
    ensures d.id !in st.elements ==> r == st
    ensures d.id in st.elements ==>
      var before := st.elements[d.id].dependencies;
      var after := r.elements[d.id].dependencies;
      && before <= after && |after| <= |before| + 1
      && r.elements[d.id] == st.elements[d.id].(dependencies := after)
      && target in OutTargets(after)
      && r.added == st.added + (|after| - |before|)
  {
    if d.id in st.elements && target !in OutTargets(st.elements[d.id].dependencies) then
      var src := st.elements[d.id];
      Synth(st.elements[d.id := src.(dependencies := src.dependencies + [NewEdge(target, kind, d)])],
            st.added + 1)
    else
      st
  }

  /** Lines 78-90: the INBOUND edges of `target`, in order. */
  function AddEdges(st: Synth, target: string, kind: TypeTag, inbound: seq<Dependency>): (r: Synth)
    ensures r.elements.Keys == st.elements.Keys
    ensures st.added <= r.added <= st.added + |inbound|
    decreases |inbound|
  {
    if inbound == [] then st
    else
      EdgeIdsCons(inbound);
      AddEdges(AddEdge(st, target, kind, inbound[0]), target, kind, inbound[1..])
  }

  /** Lines 70-90 from a given state: each element in `order` contributes its INBOUND
      edges, read (with its type) when its turn comes. */
  function SynthesizeFrom(st: Synth, order: seq<string>): (r: Synth)
    ensures r.elements.Keys == st.elements.Keys && st.added <= r.added
    decreases |order|
  {
    if order == [] then st
    else
      var e := order[0];
      var next :=
        if e in st.elements then
          AddEdges(st, e, st.elements[e].kind, Keep(st.elements[e].dependencies, Inbound))
        else st;
      SynthesizeFrom(next, order[1..])
  }

  /** Phase 2 on element map m visited in dictionary order `order`, count starting at 0. */
  function Synthesize(m: map<string, Element>, order: seq<string>): (r: Synth)
    ensures r.elements.Keys == m.Keys
  {
    SynthesizeFrom(Synth(m, 0), order)
  }

  /** The ids of the elements that name s as the source of an INBOUND edge. */
  function Dependents(m: map<string, Element>, s: string): set<string> {
    set e | e in m && s in Sources(m[e])
  }

  /** The first edge of `inbound` naming `s`: the one whose title line 87 copies, since
      once it has been handled the check at line 83 skips every later edge from `s`. */
  function FirstFrom(inbound: seq<Dependency>, s: string): Option<Dependency>
    decreases |inbound|
  {
    if inbound == [] then None
    else if inbound[0].id == s then Some(inbound[0])
    else FirstFrom(inbound[1..], s)
  }

  /** There is a first edge from s exactly when some edge names s, and it is one of them. */
  lemma {:induction false} FirstFromSpec(inbound: seq<Dependency>, s: string)
    ensures FirstFrom(inbound, s).Some? <==> s in EdgeIds(inbound)
    ensures FirstFrom(inbound, s).Some? ==> FirstFrom(inbound, s).value in inbound && FirstFrom(inbound, s).value.id == s
    decreases |inbound|
  {
    if inbound != [] {
      EdgeIdsCons(inbound);
      FirstFromSpec(inbound[1..], s);
    }
  }

  /** FirstFrom picks the edge at position j when no earlier edge names its source. */
  lemma {:induction false} FirstFromAt(inbound: seq<Dependency>, j: nat)
    requires j < |inbound|
    requires forall q | 0 <= q < j :: inbound[q].id != inbound[j].id
    ensures FirstFrom(inbound, inbound[j].id) == Some(inbound[j])
    decreases j
  {
    if j > 0 {
      assert inbound[1..][j - 1] == inbound[j];
      forall q | 0 <= q < j - 1 ensures inbound[1..][q].id != inbound[j].id {
        assert inbound[1..][q] == inbound[q + 1];
      }
      FirstFromAt(inbound[1..], j - 1);
    }
  }

  /** An edge that synthesis may append to source `src`: it targets a known element E,
      carries E's type, and copies the title of the first of E's INBOUND edges from src. */
  ghost predicate Synthesized(m0: map<string, Element>, src: string, edge: Dependency) {
    && edge.id in m0
    && var first := FirstFrom(Keep(m0[edge.id].dependencies, Inbound), src);
       first.Some? && edge == NewEdge(edge.id, m0[edge.id].kind, first.value)
  }

  lemma SynthesizedOutbound(m0: map<string, Element>, src: string, edge: Dependency)
    requires Synthesized(m0, src, edge)
    ensures edge.direction == Outbound && edge.id in m0 && src in Sources(m0[edge.id])
  {
    FirstFromSpec(Keep(m0[edge.id].dependencies, Inbound), src);
  }

  predicate AtMostOneMore(before: nat, after: nat) {
    after == before || (before == 0 && after == 1)
  }

  /** m is m0 after some appends of synthesised edges: same keys, same fields except the
      dependency lists, each old list a prefix of the new one, every appended edge
      synthesised, and no target gaining an OUTBOUND edge unless it had none. */
  ghost predicate Extends(m0: map<string, Element>, m: map<string, Element>) {
    && m.Keys == m0.Keys
    && (forall k | k in m0 :: m[k] == m0[k].(dependencies := m[k].dependencies))
    && (forall k | k in m0 :: m0[k].dependencies <= m[k].dependencies)
    && (forall k, j | k in m0 && |m0[k].dependencies| <= j < |m[k].dependencies| ::
          Synthesized(m0, k, m[k].dependencies[j]))
    && (forall k, t | k in m0 :: AtMostOneMore(CountOut(m0[k].dependencies, t), CountOut(m[k].dependencies, t)))
  }

  lemma ExtendsReflexive(m: map<string, Element>)
    ensures Extends(m, m)
  {
  }

  /** Appending synthesised edges never adds or removes an INBOUND edge. */
  lemma {:induction false} InboundStable(m0: map<string, Element>, m: map<string, Element>, k: string)
    requires Extends(m0, m) && k in m0
    ensures Keep(m[k].dependencies, Inbound) == Keep(m0[k].dependencies, Inbound)
    ensures Sources(m[k]) == Sources(m0[k])
    ensures m[k].kind == m0[k].kind
  {
    var before := m0[k].dependencies;
    var after := m[k].dependencies;
    var suffix := after[|before|..];
    assert after == before + suffix;
    SuffixOutbound(m0, m, k);
    KeepNone(suffix, Inbound);
    KeepAppend(before, suffix, Inbound);
  }

  /** Every edge appended to an element is OUTBOUND. */
  lemma SuffixOutbound(m0: map<string, Element>, m: map<string, Element>, k: string)
    requires Extends(m0, m) && k in m0
    ensures forall j | 0 <= j < |m[k].dependencies| - |m0[k].dependencies| ::
      m[k].dependencies[|m0[k].dependencies|..][j].direction == Outbound
  {
    var before := m0[k].dependencies;
    var after := m[k].dependencies;
    forall j | 0 <= j < |after| - |before| ensures after[|before|..][j].direction == Outbound {
      assert Synthesized(m0, k, after[|before| + j]);
      SynthesizedOutbound(m0, k, after[|before| + j]);
    }
  }

  /** Appending one synthesised OUTBOUND edge to a source without an OUTBOUND edge to
      that target keeps the extension facts. */
  lemma {:induction false} AppendExtends(m0: map<string, Element>, m: map<string, Element>, src: string, e: Dependency)
    requires Extends(m0, m) && src in m
    requires Synthesized(m0, src, e) && e.direction == Outbound
    requires e.id !in OutTargets(m[src].dependencies)
    ensures Extends(m0, m[src := m[src].(dependencies := m[src].dependencies + [e])])
  {
    AppendCounts(m0, m, src, e);
    AppendSynthesized(m0, m, src, e);
  }

  lemma {:induction false} AppendCounts(m0: map<string, Element>, m: map<string, Element>, src: string, e: Dependency)
    requires Extends(m0, m) && src in m
    requires e.direction == Outbound && e.id !in OutTargets(m[src].dependencies)
    ensures var m' := m[src := m[src].(dependencies := m[src].dependencies + [e])];
      forall k, t | k in m0 :: AtMostOneMore(CountOut(m0[k].dependencies, t), CountOut(m'[k].dependencies, t))
  {
    var before := m[src].dependencies;
    var m' := m[src := m[src].(dependencies := before + [e])];
    CountOutZero(before, e.id);
    forall k, t | k in m0
      ensures AtMostOneMore(CountOut(m0[k].dependencies, t), CountOut(m'[k].dependencies, t))
    {
      if k == src {
        CountOutSnoc(before, e, t);
      }
    }
  }

  lemma CountOutSnoc(deps: seq<Dependency>, e: Dependency, t: string)
    requires e.direction == Outbound
    ensures CountOut(deps + [e], t) == CountOut(deps, t) + (if t == e.id then 1 else 0)
  {
    assert (deps + [e])[..|deps|] == deps;
  }

  lemma {:induction false} AppendSynthesized(m0: map<string, Element>, m: map<string, Element>, src: string, e: Dependency)
    requires Extends(m0, m) && src in m
    requires Synthesized(m0, src, e)
    ensures var m' := m[src := m[src].(dependencies := m[src].dependencies + [e])];
      forall k, j | k in m0 && |m0[k].dependencies| <= j < |m'[k].dependencies| ::
        Synthesized(m0, k, m'[k].dependencies[j])
  {
    var before := m[src].dependencies;
    var m' := m[src := m[src].(dependencies := before + [e])];
    forall k, j | k in m0 && |m0[k].dependencies| <= j < |m'[k].dependencies|
      ensures Synthesized(m0, k, m'[k].dependencies[j])
    {
      if k == src && j == |before| {
        assert m'[k].dependencies[j] == e;
      } else {
        assert m'[k].dependencies[j] == m[k].dependencies[j];
      }
    }
  }

  /** Handled(m0, st, target, j): every known source among the first j INBOUND edges of
      `target` already has an OUTBOUND edge to it. */
  ghost predicate Handled(m0: map<string, Element>, st: Synth, target: string, j: nat)
    requires target in m0 && st.elements.Keys == m0.Keys
  {
    var inbound := Keep(m0[target].dependencies, Inbound);
    forall q | 0 <= q < j && q < |inbound| && inbound[q].id in m0 ::
      target in OutTargets(st.elements[inbound[q].id].dependencies)
  }

  /** One INBOUND edge gives its source, when known, an OUTBOUND edge to `target`. */
  lemma AddEdgeTargets(st: Synth, target: string, kind: TypeTag, d: Dependency)
    ensures forall s | s in st.elements ::
      OutTargets(AddEdge(st, target, kind, d).elements[s].dependencies)
        == OutTargets(st.elements[s].dependencies) + (if s == d.id then {target} else {})
  {
    if d.id in st.elements && target !in OutTargets(st.elements[d.id].dependencies) {
      OutTargetsAppend(st.elements[d.id].dependencies, NewEdge(target, kind, d));
    }
  }

  /** Edge j of `target`'s INBOUND list: an edge is appended only for the first edge from
      its source, since every earlier one has already given the source its edge. */
  lemma {:induction false} AddEdgeExtends(m0: map<string, Element>, st: Synth, target: string, j: nat)
    requires Extends(m0, st.elements)
    requires target in m0 && j < |Keep(m0[target].dependencies, Inbound)|
    requires Handled(m0, st, target, j)
    ensures var d := Keep(m0[target].dependencies, Inbound)[j];
      var st' := AddEdge(st, target, m0[target].kind, d);
      && Extends(m0, st'.elements)
      && (forall s | s in m0 ::
            OutTargets(st'.elements[s].dependencies)
              == OutTargets(st.elements[s].dependencies) + (if s == d.id then {target} else {}))
      && Handled(m0, st', target, j + 1)
  {
    var kind := m0[target].kind;
    var inbound := Keep(m0[target].dependencies, Inbound);
    var d := inbound[j];
    AddEdgeFirst(m0, st, target, j);
    AddEdgeTargets(st, target, kind, d);
    HandledStep(m0, st, AddEdge(st, target, kind, d), target, j);
  }

  lemma {:induction false} AddEdgeFirst(m0: map<string, Element>, st: Synth, target: string, j: nat)
    requires Extends(m0, st.elements)
    requires target in m0 && j < |Keep(m0[target].dependencies, Inbound)|
    requires Handled(m0, st, target, j)
    ensures Extends(m0, AddEdge(st, target, m0[target].kind, Keep(m0[target].dependencies, Inbound)[j]).elements)
  {
    var m := st.elements;
    var kind := m0[target].kind;
    var inbound := Keep(m0[target].dependencies, Inbound);
    var d := inbound[j];
    var st' := AddEdge(st, target, kind, d);
    if d.id in m && target !in OutTargets(m[d.id].dependencies) {
      var src := d.id;
      var e := NewEdge(target, kind, d);
      forall q | 0 <= q < j ensures inbound[q].id != src {
      }
      FirstFromAt(inbound, j);
      assert Synthesized(m0, src, e);
      assert st'.elements == m[src := m[src].(dependencies := m[src].dependencies + [e])];
      AppendExtends(m0, m, src, e);
    } else {
      assert st' == st;
    }
  }

  lemma HandledStep(m0: map<string, Element>, st: Synth, st': Synth, target: string, j: nat)
    requires target in m0 && st.elements.Keys == m0.Keys && st'.elements.Keys == m0.Keys
    requires j < |Keep(m0[target].dependencies, Inbound)|
    requires Handled(m0, st, target, j)
    requires forall s | s in m0 ::
      OutTargets(st'.elements[s].dependencies)
        == OutTargets(st.elements[s].dependencies) + (if s == Keep(m0[target].dependencies, Inbound)[j].id then {target} else {})
    ensures Handled(m0, st', target, j + 1)
  {
  }

  /** The INBOUND edges of `target` from position j on. */
  lemma {:induction false} AddEdgesExtends(m0: map<string, Element>, st: Synth, target: string, j: nat)
    requires Extends(m0, st.elements)
    requires target in m0 && j <= |Keep(m0[target].dependencies, Inbound)|
    requires Handled(m0, st, target, j)
    ensures var inbound := Keep(m0[target].dependencies, Inbound)[j..];
      var r := AddEdges(st, target, m0[target].kind, inbound);
      && Extends(m0, r.elements)
      && forall s | s in m0 ::
           OutTargets(r.elements[s].dependencies)
             == OutTargets(st.elements[s].dependencies) + (if s in EdgeIds(inbound) then {target} else {})
    decreases |Keep(m0[target].dependencies, Inbound)| - j
  {
    var all := Keep(m0[target].dependencies, Inbound);
    var inbound := all[j..];
    if inbound != [] {
      var kind := m0[target].kind;
      assert inbound[0] == all[j];
      assert inbound[1..] == all[j + 1..];
      var st1 := AddEdge(st, target, kind, inbound[0]);
      AddEdgeExtends(m0, st, target, j);
      var r := AddEdges(st, target, kind, inbound);
      assert r == AddEdges(st1, target, kind, inbound[1..]);
      AddEdgesExtends(m0, st1, target, j + 1);
      EdgeIdsCons(inbound);
      forall s | s in m0
        ensures OutTargets(r.elements[s].dependencies)
          == OutTargets(st.elements[s].dependencies) + (if s in EdgeIds(inbound) then {target} else {})
      {
        UnionStep(OutTargets(st.elements[s].dependencies), OutTargets(st1.elements[s].dependencies),
                  OutTargets(r.elements[s].dependencies), target, s == inbound[0].id, s in EdgeIds(inbound[1..]));
      }
    }
  }

  lemma UnionStep(start: set<string>, mid: set<string>, end: set<string>, x: string, here: bool, later: bool)
    requires mid == start + (if here then {x} else {})
    requires end == mid + (if later then {x} else {})
    ensures end == start + (if here || later then {x} else {})
  {
  }

  lemma SetUnionStep(start: set<string>, mid: set<string>, end: set<string>, a: set<string>, b: set<string>)
    requires mid == start + a
    requires end == mid + b
    ensures end == start + (b + a)
  {
  }

  /** The elements listed in `order` that name s as a source. */
  function DependentsIn(m0: map<string, Element>, s: string, order: seq<string>): set<string> {
    set e | e in order && e in m0 && s in Sources(m0[e])
  }

  lemma DependentsInCons(m0: map<string, Element>, s: string, order: seq<string>)
    requires order != []
    ensures DependentsIn(m0, s, order)
      == DependentsIn(m0, s, order[1..]) + (if order[0] in m0 && s in Sources(m0[order[0]]) then {order[0]} else {})
  {
    forall x | x in DependentsIn(m0, s, order) && x != order[0] ensures x in order[1..] {
      var i :| 0 <= i < |order| && order[i] == x;
      assert order[1..][i - 1] == x;
    }
  }

  lemma {:induction false} SynthesizeFromExtends(m0: map<string, Element>, st: Synth, order: seq<string>)
    requires Extends(m0, st.elements)
    ensures Extends(m0, SynthesizeFrom(st, order).elements)
    ensures forall s | s in m0 ::
      OutTargets(SynthesizeFrom(st, order).elements[s].dependencies)
        == OutTargets(st.elements[s].dependencies) + DependentsIn(m0, s, order)
    decreases |order|
  {
    if order != [] {
      var m := st.elements;
      var e := order[0];
      var next := StepExtends(m0, st, e);
      assert SynthesizeFrom(st, order) == SynthesizeFrom(next, order[1..]);
      SynthesizeFromExtends(m0, next, order[1..]);
      var r := SynthesizeFrom(next, order[1..]);
      forall s | s in m0
        ensures OutTargets(r.elements[s].dependencies)
          == OutTargets(m[s].dependencies) + DependentsIn(m0, s, order)
      {
        DependentsInCons(m0, s, order);
        SetUnionStep(OutTargets(m[s].dependencies), OutTargets(next.elements[s].dependencies),
                     OutTargets(r.elements[s].dependencies),
                     if e in m0 && s in Sources(m0[e]) then {e} else {}, DependentsIn(m0, s, order[1..]));
      }
    }
  }

  /** One turn of the loop at line 70, for element e. */
  lemma StepExtends(m0: map<string, Element>, st: Synth, e: string) returns (next: Synth)
    requires Extends(m0, st.elements)
    ensures next == if e in st.elements then
        AddEdges(st, e, st.elements[e].kind, Keep(st.elements[e].dependencies, Inbound))
      else st
    ensures Extends(m0, next.elements)
    ensures forall s | s in m0 ::
      OutTargets(next.elements[s].dependencies)
        == OutTargets(st.elements[s].dependencies) + (if e in m0 && s in Sources(m0[e]) then {e} else {})
  {
    var m := st.elements;
    next := st;
    if e in m {
      InboundStable(m0, m, e);
      var inbound := Keep(m[e].dependencies, Inbound);
      assert inbound[0..] == inbound;
      AddEdgesExtends(m0, st, e, 0);
      next := AddEdges(st, e, m[e].kind, inbound);
    }
  }

  /** After phase 2, S's OUTBOUND targets are exactly its old ones plus every known
      element that names S in an INBOUND edge, whatever the visiting order; every other
      field is unchanged, every appended edge is a synthesised one and each (S, E) pair
      gains at most one edge, and only if it had none. */
  lemma SynthesizeTargets(m: map<string, Element>, order: seq<string>)
    requires forall k | k in m :: k in order
    ensures Extends(m, Synthesize(m, order).elements)
    ensures forall s | s in m ::
      OutTargets(Synthesize(m, order).elements[s].dependencies)
        == OutTargets(m[s].dependencies) + Dependents(m, s)
  {
    ExtendsReflexive(m);
    SynthesizeFromExtends(m, Synth(m, 0), order);
    forall s | s in m ensures DependentsIn(m, s, order) == Dependents(m, s) {
    }
  }

  /** Symmetry: for every INBOUND edge on E naming a known S, S has an OUTBOUND edge to E. */
  lemma SynthesizeSymmetric(m: map<string, Element>, order: seq<string>, e: string, d: Dependency)
    requires forall k | k in m :: k in order
    requires e in m && d in m[e].dependencies && d.direction == Inbound && d.id in m
    ensures d.id in Synthesize(m, order).elements
    ensures e in OutTargets(Synthesize(m, order).elements[d.id].dependencies)
  {
    SynthesizeTargets(m, order);
    assert d in Keep(m[e].dependencies, Inbound);
    assert e in Dependents(m, d.id);
  }

  /** The edges appended to a list: those after its old length. */
  function Appended(before: seq<Dependency>, after: seq<Dependency>): set<Dependency>
    requires |before| <= |after|
  {
    set d | d in after[|before|..]
  }

  /** The edges phase 2 owes source s: one for each element E naming s in an INBOUND edge
      that s had no OUTBOUND edge to, typed as E and titled as E's first INBOUND edge
      from s. */
  function Owed(m: map<string, Element>, s: string): set<Dependency>
    requires s in m
  {
    set t | t in Dependents(m, s) && t !in OutTargets(m[s].dependencies)
              && FirstFrom(Keep(m[t].dependencies, Inbound), s).Some?
      :: NewEdge(t, m[t].kind, FirstFrom(Keep(m[t].dependencies, Inbound), s).value)
  }

  lemma {:induction false} CountOutAppend(a: seq<Dependency>, b: seq<Dependency>, t: string)
    ensures CountOut(a + b, t) == CountOut(a, t) + CountOut(b, t)
    decreases |b|
  {
    if b == [] {
      assert a + b == a;
    } else {
      var b' := b[..|b| - 1];
      assert (a + b)[..|a + b| - 1] == a + b';
      CountOutAppend(a, b', t);
    }
  }

  /** An appended edge is owed: its target names s and s had no OUTBOUND edge to it. */
  lemma {:induction false} AppendedIsOwed(m0: map<string, Element>, m: map<string, Element>, s: string, j: nat)
    requires Extends(m0, m) && s in m0
    requires |m0[s].dependencies| <= j < |m[s].dependencies|
    ensures m[s].dependencies[j] in Owed(m0, s)
  {
    var before := m0[s].dependencies;
    var after := m[s].dependencies;
    var suffix := after[|before|..];
    var x := after[j];
    assert after == before + suffix;
    assert Synthesized(m0, s, x);
    SynthesizedOutbound(m0, s, x);
    var t := x.id;
    assert suffix[j - |before|] == x;
    assert t in OutTargets(suffix);
    CountOutZero(suffix, t);
    CountOutAppend(before, suffix, t);
    assert AtMostOneMore(CountOut(before, t), CountOut(after, t));
    CountOutZero(before, t);
    assert t in Dependents(m0, s);
  }

  /** An owed edge whose target s now has an OUTBOUND edge to has been appended. */
  lemma {:induction false} OwedIsAppended(m0: map<string, Element>, m: map<string, Element>, s: string, t: string)
    requires Extends(m0, m) && s in m0
    requires t in m0 && t !in OutTargets(m0[s].dependencies) && t in OutTargets(m[s].dependencies)
    requires FirstFrom(Keep(m0[t].dependencies, Inbound), s).Some?
    ensures NewEdge(t, m0[t].kind, FirstFrom(Keep(m0[t].dependencies, Inbound), s).value)
      in Appended(m0[s].dependencies, m[s].dependencies)
  {
    var before := m0[s].dependencies;
    var after := m[s].dependencies;
    var z :| z in after && z.direction == Outbound && z.id == t;
    var q :| 0 <= q < |after| && after[q] == z;
    assert z !in before;
    assert Synthesized(m0, s, after[q]);
    assert after[|before|..][q - |before|] == z;
  }

  /** An extension whose OUTBOUND targets for s grew by the dependents of s appended
      exactly the edges owed to s. */
  lemma {:induction false} AppendedOwed(m0: map<string, Element>, m: map<string, Element>, s: string)
    requires Extends(m0, m) && s in m0
    requires OutTargets(m[s].dependencies) == OutTargets(m0[s].dependencies) + Dependents(m0, s)
    ensures Appended(m0[s].dependencies, m[s].dependencies) == Owed(m0, s)
  {
    var before := m0[s].dependencies;
    var after := m[s].dependencies;
    forall x | x in Appended(before, after) ensures x in Owed(m0, s) {
      var q :| 0 <= q < |after| - |before| && after[|before|..][q] == x;
      AppendedIsOwed(m0, m, s, |before| + q);
    }
    forall t | t in Dependents(m0, s) && t !in OutTargets(before)
                 && FirstFrom(Keep(m0[t].dependencies, Inbound), s).Some?
      ensures NewEdge(t, m0[t].kind, FirstFrom(Keep(m0[t].dependencies, Inbound), s).value) in Appended(before, after)
    {
      OwedIsAppended(m0, m, s, t);
    }
  }

  /** Phase 2 appends to each source exactly the edges it owes, one per element naming it
      that it had no OUTBOUND edge to, titled after that element's first INBOUND edge
      from it. */
  lemma SynthesizeAppended(m: map<string, Element>, order: seq<string>, s: string)
    requires forall k | k in m :: k in order
    requires s in m
    ensures s in Synthesize(m, order).elements
    ensures m[s].dependencies <= Synthesize(m, order).elements[s].dependencies
    ensures Appended(m[s].dependencies, Synthesize(m, order).elements[s].dependencies) == Owed(m, s)
  {
    SynthesizeTargets(m, order);
    AppendedOwed(m, Synthesize(m, order).elements, s);
  }

  /** The result does not depend on the visiting order: the same keys, the same OUTBOUND
      target sets, and for every source the same old list followed by the same set of
      appended edges. */
  lemma SynthesizeConfluent(m: map<string, Element>, order1: seq<string>, order2: seq<string>)
    requires forall k | k in m :: k in order1 && k in order2
    ensures Synthesize(m, order1).elements.Keys == Synthesize(m, order2).elements.Keys == m.Keys
    ensures forall s | s in m ::
      OutTargets(Synthesize(m, order1).elements[s].dependencies)
        == OutTargets(Synthesize(m, order2).elements[s].dependencies)
    ensures forall s | s in m ::
      && m[s].dependencies <= Synthesize(m, order1).elements[s].dependencies
      && m[s].dependencies <= Synthesize(m, order2).elements[s].dependencies
      && Appended(m[s].dependencies, Synthesize(m, order1).elements[s].dependencies)
           == Appended(m[s].dependencies, Synthesize(m, order2).elements[s].dependencies)
  {
    SynthesizeTargets(m, order1);
    SynthesizeTargets(m, order2);
    forall s | s in m
      ensures Appended(m[s].dependencies, Synthesize(m, order1).elements[s].dependencies)
           == Appended(m[s].dependencies, Synthesize(m, order2).elements[s].dependencies)
    {
      SynthesizeAppended(m, order1, s);
      SynthesizeAppended(m, order2, s);
    }
  }

  /** Every INBOUND edge from a known element already has its OUTBOUND counterpart. */
  ghost predicate Closed(m: map<string, Element>) {
    forall e, s | e in m && s in Sources(m[e]) && s in m :: e in OutTargets(m[s].dependencies)
  }

  lemma {:induction false} AddEdgesClosed(m: map<string, Element>, n: nat, e: string, inbound: seq<Dependency>)
    requires Closed(m) && e in m
    requires forall d | d in inbound :: d in Keep(m[e].dependencies, Inbound)
    ensures AddEdges(Synth(m, n), e, m[e].kind, inbound) == Synth(m, n)
    decreases |inbound|
  {
    if inbound != [] {
      var d := inbound[0];
      assert d.id in Sources(m[e]);
      assert AddEdge(Synth(m, n), e, m[e].kind, d) == Synth(m, n);
      AddEdgesClosed(m, n, e, inbound[1..]);
    }
  }

  lemma {:induction false} SynthesizeFromClosed(m: map<string, Element>, n: nat, order: seq<string>)
    requires Closed(m)
    ensures SynthesizeFrom(Synth(m, n), order) == Synth(m, n)
    decreases |order|
  {
    if order != [] {
      if order[0] in m {
        AddEdgesClosed(m, n, order[0], Keep(m[order[0]].dependencies, Inbound));
      }
      SynthesizeFromClosed(m, n, order[1..]);
    }
  }

  /** On a graph where every INBOUND edge already has its counterpart, phase 2 changes
      nothing and counts nothing. */
  lemma SynthesizeClosedNoop(m: map<string, Element>, order: seq<string>)
    requires Closed(m)
    ensures Synthesize(m, order) == Synth(m, 0)
  {
    SynthesizeFromClosed(m, 0, order);
  }

  /** On input without INBOUND edges phase 2 changes nothing and `count_fixed` is 0. */
  lemma SynthesizeNoInbound(m: map<string, Element>, order: seq<string>)
    requires forall k | k in m :: Keep(m[k].dependencies, Inbound) == []
    ensures Synthesize(m, order) == Synth(m, 0)
  {
    assert Closed(m);
    SynthesizeClosedNoop(m, order);
  }

  /** Phase 2 is idempotent: a second run, in any order, appends nothing. */
  lemma SynthesizeIdempotent(m: map<string, Element>, order1: seq<string>, order2: seq<string>)
    requires forall k | k in m :: k in order1
    ensures Synthesize(Synthesize(m, order1).elements, order2) == Synth(Synthesize(m, order1).elements, 0)
  {
    var r := Synthesize(m, order1).elements;
    SynthesizeTargets(m, order1);
    forall e, s | e in r && s in Sources(r[e]) && s in r
      ensures e in OutTargets(r[s].dependencies)
    {
      InboundStable(m, r, e);
      assert e in Dependents(m, s);
    }
    SynthesizeClosedNoop(r, order2);
  }

  /** Total number of dependencies of the elements listed in ids. */
  function TotalDeps(m: map<string, Element>, ids: seq<string>): nat
    decreases |ids|
  {
    if ids == [] then 0
    else (if ids[0] in m then |m[ids[0]].dependencies| else 0) + TotalDeps(m, ids[1..])
  }

  lemma {:induction false} TotalDepsOther(m: map<string, Element>, ids: seq<string>, s: string, x: Element)
    requires s in m && s !in ids
    ensures TotalDeps(m[s := x], ids) == TotalDeps(m, ids)
    decreases |ids|
  {
    if ids != [] {
      TotalDepsOther(m, ids[1..], s, x);
    }
  }

  lemma {:induction false} TotalDepsGrow(m: map<string, Element>, ids: seq<string>, s: string, x: Element)
    requires Distinct(ids) && s in ids && s in m
    requires |x.dependencies| == |m[s].dependencies| + 1
    ensures TotalDeps(m[s := x], ids) == TotalDeps(m, ids) + 1
    decreases |ids|
  {
    if ids[0] == s {
      assert s !in ids[1..] by {
        forall i | 0 <= i < |ids[1..]| ensures ids[1..][i] != s {
          assert ids[1..][i] == ids[i + 1];
        }
      }
      TotalDepsOther(m, ids[1..], s, x);
    } else {
      assert s in ids[1..];
      TotalDepsGrow(m, ids[1..], s, x);
    }
  }

  /** Every increment of the count is one appended dependency. */
  lemma AddEdgeCount(st: Synth, target: string, kind: TypeTag, d: Dependency, ids: seq<string>)
    requires Distinct(ids) && forall k | k in st.elements :: k in ids
    ensures AddEdge(st, target, kind, d).added + TotalDeps(st.elements, ids)
      == st.added + TotalDeps(AddEdge(st, target, kind, d).elements, ids)
  {
    if d.id in st.elements && target !in OutTargets(st.elements[d.id].dependencies) {
      var src := st.elements[d.id];
      TotalDepsGrow(st.elements, ids, d.id, src.(dependencies := src.dependencies + [NewEdge(target, kind, d)]));
    }
  }

  lemma {:induction false} AddEdgesCount(st: Synth, target: string, kind: TypeTag, inbound: seq<Dependency>, ids: seq<string>)
    requires Distinct(ids) && forall k | k in st.elements :: k in ids
    ensures AddEdges(st, target, kind, inbound).elements.Keys == st.elements.Keys
    ensures AddEdges(st, target, kind, inbound).added + TotalDeps(st.elements, ids)
      == st.added + TotalDeps(AddEdges(st, target, kind, inbound).elements, ids)
    decreases |inbound|
  {
    if inbound != [] {
      AddEdgeCount(st, target, kind, inbound[0], ids);
      AddEdgesCount(AddEdge(st, target, kind, inbound[0]), target, kind, inbound[1..], ids);
    }
  }

  lemma {:induction false} SynthesizeFromCount(st: Synth, order: seq<string>, ids: seq<string>)
    requires Distinct(ids) && forall k | k in st.elements :: k in ids
    ensures SynthesizeFrom(st, order).elements.Keys == st.elements.Keys
    ensures SynthesizeFrom(st, order).added + TotalDeps(st.elements, ids)
      == st.added + TotalDeps(SynthesizeFrom(st, order).elements, ids)
    decreases |order|
  {
    if order != [] {
      var e := order[0];
      var next := st;
      if e in st.elements {
        var inbound := Keep(st.elements[e].dependencies, Inbound);
        AddEdgesCount(st, e, st.elements[e].kind, inbound, ids);
        next := AddEdges(st, e, st.elements[e].kind, inbound);
      }
      SynthesizeFromCount(next, order[1..], ids);
    }
  }

  /** `count_fixed` is the number of dependencies phase 2 appended. */
  lemma SynthesizeCount(m: map<string, Element>, order: seq<string>)
    requires Distinct(order) && forall k | k in m :: k in order
    ensures Synthesize(m, order).added == TotalDeps(Synthesize(m, order).elements, order) - TotalDeps(m, order)
  {
    SynthesizeFromCount(Synth(m, 0), order, order);
  }

  /** Phase 3 (lines 95-96): every dependency list filtered to its OUTBOUND edges. */
  function PurgeInbound(m: map<string, Element>): (r: map<string, Element>)
    ensures r.Keys == m.Keys
    ensures forall k, d | k in m && d in r[k].dependencies :: d.direction == Outbound
    ensures forall k | k in m :: r[k].(dependencies := m[k].dependencies) == m[k]
  {
    map k | k in m :: m[k].(dependencies := Keep(m[k].dependencies, Outbound))
  }

  /** Phase 3 keeps each element's OUTBOUND targets. */
  lemma PurgeInboundSpec(m: map<string, Element>)
    ensures forall k | k in m :: OutTargets(PurgeInbound(m)[k].dependencies) == OutTargets(m[k].dependencies)
  {
  }

  /** Phase 3 is idempotent. */
  lemma PurgeInboundIdempotent(m: map<string, Element>)
    ensures PurgeInbound(PurgeInbound(m)) == PurgeInbound(m)
  {
    forall k | k in m ensures Keep(Keep(m[k].dependencies, Outbound), Outbound) == Keep(m[k].dependencies, Outbound) {
      KeepIdempotent(m[k].dependencies, Outbound);
    }
  }
}
