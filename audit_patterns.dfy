/** `audit_patterns`: the read-only rule check over the authoring vocabulary. Each element
    whose type has a rule must have an INBOUND edge whose `elementType` is one of the
    allowed parent types; otherwise one diagnostic line is reported for it. */
module PatternAudit {
  import opened EventModel
  import opened EdgeSynthesis

  /** `p.get('elementType') in allowed`: an absent element type is never allowed. */
  predicate Fits(p: Dependency, allowed: seq<TypeTag>) {
    p.elementType.Some? && p.elementType.value in allowed
  }

  /** Some predecessor has an allowed type. */
  predicate HasParent(predecessors: seq<Dependency>, allowed: seq<TypeTag>) {
    exists p :: p in predecessors && Fits(p, allowed)
  }

  /** The parent types a rule accepts, for the four types that have a rule. */
  function Allowed(t: TypeTag): (r: Option<seq<TypeTag>>)
    ensures r.Some? <==> t in {Command, DomainEvent, ReadModel, Automation}
  {
    match t
    case Command => Some([Screen, Automation])
    case DomainEvent => Some([Command])
    case ReadModel => Some([DomainEvent, IntegrationEvent])
    case Automation => Some([DomainEvent, IntegrationEvent, ReadModel])
    case _ => None
  }

  /** The text after "missing " in the diagnostic of a rule. */
  function MissingText(t: TypeTag): string {
    match t
    case Command => "SCREEN or AUTOMATION"
    case DomainEvent => "COMMAND"
    case ReadModel => "EVENT"
    case _ => "EVENT or READ_MODEL"
  }

  /** The f-string of lines 46, 58, 69 and 79:
      `[<slice>] <TYPE> '<title>' (<id>) missing <parents> parent.` */
  function Message(sliceId: string, typeName: string, e: Element, parents: string): (r: string)
    ensures "[" + sliceId + "] " <= r
    ensures |r| >= 8 && r[|r| - 8..] == " parent."
  {
    var head := "[" + sliceId + "] ";
    var tail := typeName + " '" + e.title + "' (" + e.id + ") missing " + parents + " parent.";
    assert head + tail == "[" + sliceId + "] " + typeName + " '" + e.title + "' (" + e.id + ") missing " + parents + " parent.";
    head + tail
  }

  /** The diagnostic of element e of slice `sliceId`, if it breaks its rule. */
  function Violation(sliceId: string, e: Element): (r: Option<string>)
    ensures r.Some? <==> Allowed(e.kind).Some? && !HasParent(Keep(e.dependencies, Inbound), Allowed(e.kind).value)
    ensures r.Some? ==> "[" + sliceId + "] " <= r.value
  {
    match Allowed(e.kind)
    case None => None
    case Some(allowed) =>
      if HasParent(Keep(e.dependencies, Inbound), allowed) then None
      else Some(Message(sliceId, Name(e.kind), e, MissingText(e.kind)))
  }

  function AsSeq(v: Option<string>): (r: seq<string>)
    ensures |r| <= 1
  {
    match v
    case None => []
    case Some(x) => [x]
  }

  /** The diagnostics of a sequence of elements of one slice, in order. */
  function SliceViolations(sliceId: string, es: seq<Element>): (r: seq<string>)
    ensures |r| <= |es|
    decreases |es|
  {
    if es == [] then []
    else SliceViolations(sliceId, es[..|es| - 1]) + AsSeq(Violation(sliceId, es[|es| - 1]))
  }

  /** Lines 19-79: the diagnostics of every slice, slice by slice, each in bucket order. */
  function Violations(slices: seq<Slice>): (r: seq<string>)
    ensures |r| <= |AllElements(slices)|
    decreases |slices|
  {
    if slices == [] then []
    else
      var s := slices[|slices| - 1];
      Violations(slices[..|slices| - 1]) + SliceViolations(s.id, Members(s))
  }

  /** Lines 41-44: scan the predecessors for an allowed type, stopping at the first. */
  method FindParent(predecessors: seq<Dependency>, allowed: seq<TypeTag>) returns (validParent: bool)
    ensures validParent <==> HasParent(predecessors, allowed)
  {
    validParent := false;
    for k := 0 to |predecessors|
      invariant forall q | 0 <= q < k :: !Fits(predecessors[q], allowed)
    {
      if Fits(predecessors[k], allowed) {
        validParent := true;
        break;
      }
    }
  }

  /** Lines 36-79 for one element: the predecessors, then the rule of its type. */
  method CheckElement(sliceId: string, el: Element) returns (found: seq<string>)
    ensures found == AsSeq(Violation(sliceId, el))
  {
    found := [];
    var predecessors := Keep(el.dependencies, Inbound);
    if el.kind == Command {
      var validParent := FindParent(predecessors, [Screen, Automation]);
      if !validParent {
        found := found + [Message(sliceId, "COMMAND", el, "SCREEN or AUTOMATION")];
      }
    }
    if el.kind == DomainEvent {
      var validParent := FindParent(predecessors, [Command]);
      if !validParent {
        found := found + [Message(sliceId, "DOMAIN_EVENT", el, "COMMAND")];
      }
    }
    if el.kind == ReadModel {
      var validParent := FindParent(predecessors, [DomainEvent, IntegrationEvent]);
      if !validParent {
        found := found + [Message(sliceId, "READ_MODEL", el, "EVENT")];
      }
    }
    if el.kind == Automation {
      var validParent := FindParent(predecessors, [DomainEvent, IntegrationEvent, ReadModel]);
      if !validParent {
        found := found + [Message(sliceId, "AUTOMATION", el, "EVENT or READ_MODEL")];
      }
    }
  }

  /** Lines 30-79 for the elements of one slice, in order. */
  method AuditSlice(sliceId: string, elements: seq<Element>) returns (found: seq<string>)
    ensures found == SliceViolations(sliceId, elements)
  {
    found := [];
    for j := 0 to |elements|
      invariant found == SliceViolations(sliceId, elements[..j])
    {
      var more := CheckElement(sliceId, elements[j]);
      assert elements[..j + 1][..j] == elements[..j];
      found := found + more;
    }
    assert elements[..|elements|] == elements;
  }

  /** Lines 19-79: every slice's elements in bucket order, appending each diagnostic. */
  method AuditPatterns(slices: seq<Slice>) returns (violations: seq<string>)
    ensures violations == Violations(slices)
  {
    violations := [];
    for i := 0 to |slices|
      invariant violations == Violations(slices[..i])
    {
      var s := slices[i];
      var elements := s.commands + s.events + s.readmodels + s.screens + s.processors + s.integrationEvents;
      var found := AuditSlice(s.id, elements);
      assert slices[..i + 1][..i] == slices[..i];
      violations := violations + found;
    }
    assert slices[..|slices|] == slices;
  }

  /** Filtering to INBOUND and then looking for an allowed type is looking for an INBOUND
      edge of an allowed type. */
  lemma {:induction false} HasParentInbound(deps: seq<Dependency>, allowed: seq<TypeTag>)
    ensures HasParent(Keep(deps, Inbound), allowed)
      <==> exists d :: d in deps && d.direction == Inbound && Fits(d, allowed)
  {
    var preds := Keep(deps, Inbound);
    if HasParent(preds, allowed) {
      var p :| p in preds && Fits(p, allowed);
      assert p in deps && p.direction == Inbound;
    }
    if exists d :: d in deps && d.direction == Inbound && Fits(d, allowed) {
      var d :| d in deps && d.direction == Inbound && Fits(d, allowed);
      assert d in preds;
    }
  }

  /** Rule 1 (lines 39-46): a COMMAND is reported, with exactly this text, if and only if
      none of its INBOUND edges has element type SCREEN or AUTOMATION. */
  lemma {:induction false} CommandRule(sliceId: string, e: Element)
    requires e.kind == Command
    ensures Violation(sliceId, e).Some?
      <==> !exists d :: d in e.dependencies && d.direction == Inbound
                        && (d.elementType == Some(Screen) || d.elementType == Some(Automation))
    ensures Violation(sliceId, e).Some? ==>
      Violation(sliceId, e).value
        == Message(sliceId, "COMMAND", e, "SCREEN or AUTOMATION")
  {
    HasParentInbound(e.dependencies, [Screen, Automation]);
  }

  /** Rule 2 (lines 49-58): a DOMAIN_EVENT needs an INBOUND edge from a COMMAND. */
  lemma {:induction false} DomainEventRule(sliceId: string, e: Element)
    requires e.kind == DomainEvent
    ensures Violation(sliceId, e).Some?
      <==> !exists d :: d in e.dependencies && d.direction == Inbound && d.elementType == Some(Command)
    ensures Violation(sliceId, e).Some? ==>
      Violation(sliceId, e).value
        == Message(sliceId, "DOMAIN_EVENT", e, "COMMAND")
  {
    HasParentInbound(e.dependencies, [Command]);
  }

  /** Rule 3 (lines 61-69): a READ_MODEL needs an INBOUND edge from a DOMAIN_EVENT or an
      INTEGRATION_EVENT. */
  lemma {:induction false} ReadModelRule(sliceId: string, e: Element)
    requires e.kind == ReadModel
    ensures Violation(sliceId, e).Some?
      <==> !exists d :: d in e.dependencies && d.direction == Inbound
                        && (d.elementType == Some(DomainEvent) || d.elementType == Some(IntegrationEvent))
    ensures Violation(sliceId, e).Some? ==>
      Violation(sliceId, e).value
        == Message(sliceId, "READ_MODEL", e, "EVENT")
  {
    HasParentInbound(e.dependencies, [DomainEvent, IntegrationEvent]);
  }

  /** Rule 4 (lines 72-79): an AUTOMATION needs an INBOUND edge from a DOMAIN_EVENT, an
      INTEGRATION_EVENT or a READ_MODEL. */
  lemma {:induction false} AutomationRule(sliceId: string, e: Element)
    requires e.kind == Automation
    ensures Violation(sliceId, e).Some?
      <==> !exists d :: d in e.dependencies && d.direction == Inbound
                        && (d.elementType == Some(DomainEvent) || d.elementType == Some(IntegrationEvent)
                            || d.elementType == Some(ReadModel))
    ensures Violation(sliceId, e).Some? ==>
      Violation(sliceId, e).value
        == Message(sliceId, "AUTOMATION", e, "EVENT or READ_MODEL")
  {
    HasParentInbound(e.dependencies, [DomainEvent, IntegrationEvent, ReadModel]);
  }

  /** Types without a rule, including SCREEN, INTEGRATION_EVENT and the schema types EVENT
      and READMODEL, are never reported. */
  lemma OtherTypesSilent(sliceId: string, e: Element)
    requires e.kind !in {Command, DomainEvent, ReadModel, Automation}
    ensures Violation(sliceId, e) == None
  {
  }

  /** Only INBOUND edges are consulted (line 36): replacing the dependency list by any
      list with the same INBOUND edges leaves the verdict unchanged. */
  lemma OnlyInboundConsulted(sliceId: string, e: Element, deps: seq<Dependency>)
    requires forall d :: (d in deps && d.direction == Inbound) <==> (d in e.dependencies && d.direction == Inbound)
    ensures Violation(sliceId, e.(dependencies := deps)) == Violation(sliceId, e)
  {
    assert HasParent(Keep(deps, Inbound), []) == HasParent(Keep(e.dependencies, Inbound), []);
  }

  /** Diagnostics of a concatenation are the diagnostics of its parts, in order. */
  lemma {:induction false} SliceViolationsAppend(sliceId: string, xs: seq<Element>, ys: seq<Element>)
    ensures SliceViolations(sliceId, xs + ys) == SliceViolations(sliceId, xs) + SliceViolations(sliceId, ys)
    decreases |ys|
  {
    if ys == [] {
      assert xs + ys == xs;
    } else {
      var pre := ys[..|ys| - 1];
      var last := ys[|ys| - 1];
      SliceViolationsAppend(sliceId, xs, pre);
      SnocSplit(xs, ys);
      SliceViolationsSnoc(sliceId, xs + pre, last);
      SliceViolationsSnoc(sliceId, pre, last);
      ConcatAssoc(SliceViolations(sliceId, xs), SliceViolations(sliceId, pre), AsSeq(Violation(sliceId, last)));
    }
  }

  lemma SnocSplit<T>(xs: seq<T>, ys: seq<T>)
    requires ys != []
    ensures xs + ys == (xs + ys[..|ys| - 1]) + [ys[|ys| - 1]]
    ensures ys == ys[..|ys| - 1] + [ys[|ys| - 1]]
  {
  }

  lemma ConcatAssoc<T>(a: seq<T>, b: seq<T>, c: seq<T>)
    ensures (a + b) + c == a + (b + c)
  {
  }

  lemma {:induction false} SliceViolationsSnoc(sliceId: string, es: seq<Element>, e: Element)
    ensures SliceViolations(sliceId, es + [e]) == SliceViolations(sliceId, es) + AsSeq(Violation(sliceId, e))
  {
    assert (es + [e])[..|es|] == es;
  }

  /** Within a slice the diagnostics come bucket by bucket: commands, events, readmodels,
      screens, processors, integrationEvents (lines 22-28). */
  lemma {:induction false} BucketOrder(s: Slice)
    ensures SliceViolations(s.id, Members(s))
      == SliceViolations(s.id, s.commands) + SliceViolations(s.id, s.events)
         + SliceViolations(s.id, s.readmodels) + SliceViolations(s.id, s.screens)
         + SliceViolations(s.id, s.processors) + SliceViolations(s.id, s.integrationEvents)
  {
    var a := s.commands;
    var b := a + s.events;
    var c := b + s.readmodels;
    var d := c + s.screens;
    var e := d + s.processors;
    SliceViolationsAppend(s.id, a, s.events);
    SliceViolationsAppend(s.id, b, s.readmodels);
    SliceViolationsAppend(s.id, c, s.screens);
    SliceViolationsAppend(s.id, d, s.processors);
    SliceViolationsAppend(s.id, e, s.integrationEvents);
  }

  /** Across slices the diagnostics come slice by slice. */
  lemma {:induction false} ViolationsAppend(xs: seq<Slice>, ys: seq<Slice>)
    ensures Violations(xs + ys) == Violations(xs) + Violations(ys)
    decreases |ys|
  {
    if ys == [] {
      assert xs + ys == xs;
    } else {
      var pre := ys[..|ys| - 1];
      var last := ys[|ys| - 1];
      ViolationsAppend(xs, pre);
      SnocSplit(xs, ys);
      ViolationsSnoc(xs + pre, last);
      ViolationsSnoc(pre, last);
      ConcatAssoc(Violations(xs), Violations(pre), SliceViolations(last.id, Members(last)));
    }
  }

  lemma {:induction false} ViolationsSnoc(slices: seq<Slice>, s: Slice)
    ensures Violations(slices + [s]) == Violations(slices) + SliceViolations(s.id, Members(s))
  {
    assert (slices + [s])[..|slices|] == slices;
  }

  /** Some element of es produces diagnostic v. */
  ghost predicate ProducedBy(sliceId: string, es: seq<Element>, v: string) {
    exists j :: 0 <= j < |es| && Violation(sliceId, es[j]) == Some(v)
  }

  lemma {:induction false} ProducedBySnoc(sliceId: string, pre: seq<Element>, e: Element, v: string)
    ensures ProducedBy(sliceId, pre + [e], v) <==> ProducedBy(sliceId, pre, v) || Violation(sliceId, e) == Some(v)
  {
    var es := pre + [e];
    if ProducedBy(sliceId, es, v) {
      var j :| 0 <= j < |es| && Violation(sliceId, es[j]) == Some(v);
      if j < |pre| {
        assert pre[j] == es[j];
      }
    }
    if ProducedBy(sliceId, pre, v) {
      var j :| 0 <= j < |pre| && Violation(sliceId, pre[j]) == Some(v);
      assert es[j] == pre[j];
    }
    assert es[|pre|] == e;
  }

  /** A line is among a slice's diagnostics exactly when one of its elements produces it. */
  lemma {:induction false} SliceViolationsMembers(sliceId: string, es: seq<Element>, v: string)
    ensures v in SliceViolations(sliceId, es) <==> ProducedBy(sliceId, es, v)
    decreases |es|
  {
    if es != [] {
      SliceViolationsMembers(sliceId, es[..|es| - 1], v);
      SnocSplit([], es);
      ProducedBySnoc(sliceId, es[..|es| - 1], es[|es| - 1], v);
    }
  }

  /** Some element of some slice produces diagnostic v. */
  ghost predicate Reported(slices: seq<Slice>, v: string) {
    exists i :: 0 <= i < |slices| && ProducedBy(slices[i].id, Members(slices[i]), v)
  }

  lemma {:induction false} ReportedSnoc(pre: seq<Slice>, s: Slice, v: string)
    ensures Reported(pre + [s], v) <==> Reported(pre, v) || ProducedBy(s.id, Members(s), v)
  {
    var slices := pre + [s];
    if Reported(slices, v) {
      var i :| 0 <= i < |slices| && ProducedBy(slices[i].id, Members(slices[i]), v);
      if i < |pre| {
        assert pre[i] == slices[i];
      }
    }
    if Reported(pre, v) {
      var i :| 0 <= i < |pre| && ProducedBy(pre[i].id, Members(pre[i]), v);
      assert slices[i] == pre[i];
    }
    assert slices[|pre|] == s;
  }

  /** Soundness and completeness: a line is reported exactly when some element of some
      slice breaks its rule with that text. */
  lemma {:induction false} ViolationsMembers(slices: seq<Slice>, v: string)
    ensures v in Violations(slices) <==> Reported(slices, v)
    decreases |slices|
  {
    if slices != [] {
      var last := slices[|slices| - 1];
      ViolationsMembers(slices[..|slices| - 1], v);
      SliceViolationsMembers(last.id, Members(last), v);
      SnocSplit([], slices);
      ReportedSnoc(slices[..|slices| - 1], last, v);
    }
  }
}
