/**
 Extracting a selection with other calls in between: when the reusable step, called at one place of the
 plan, may stand for selected calls that were scattered over it.
 */
module ScatteredExtraction {
  import opened Outcomes
  import opened Values
  import opened ReusableExtraction

  /** The call whose value call `i` reads: the last one before it that produces the variable. */
  function Source(calls: seq<Call>, i: nat, r: string): (source: Option<nat>)
    requires i <= |calls|
    ensures source.Some? ==> source.value < i && r in Produced(calls[source.value])
  {
    if i == 0 then None else if r in Produced(calls[i - 1]) then Some(i - 1) else Source(calls, i - 1, r)
  }

  predicate SameStep(c: Call, d: Call) {
    && c.body.stepId == d.body.stepId && c.body.inputs == d.body.inputs
    && c.body.scope == d.body.scope && c.body.completion == d.body.completion
  }

  /**
   Call `i` of one list and call `j` of another read a variable alike: both from the store, or from calls of
   the same step on the same arguments which, in turn, read all their variables alike.
   */
  predicate ReadAlike(a: seq<Call>, i: nat, b: seq<Call>, j: nat, r: string)
    requires i <= |a| && j <= |b|
    decreases i
  {
    var (source, other) := (Source(a, i, r), Source(b, j, r));
    if source.None? || other.None? then source == other
    else
      var (k, l) := (source.value, other.value);
      SameStep(a[k], b[l]) && forall q | q in CallRoots(a[k]) :: ReadAlike(a, k, b, l, q)
  }

  /** Every call of both lists reads all its variables alike in both. */
  predicate SameReads(a: seq<Call>, b: seq<Call>) {
    forall i, j | 0 <= i < |a| && 0 <= j < |b| && a[i] == b[j] ::
      forall r | r in CallRoots(a[i]) :: ReadAlike(a, i, b, j, r)
  }

  /** A call of both lists is observed alike in both. */
  ghost predicate Alike(a: seq<Call>, seenInA: seq<Observation>, b: seq<Call>, seenInB: seq<Observation>)
    requires |seenInA| == |a| && |seenInB| == |b|
  {
    forall i, j | 0 <= i < |a| && 0 <= j < |b| && a[i] == b[j] :: seenInA[i] == seenInB[j]
  }

  // ----- runs in parts

  lemma {:induction false} RunAppend(a: seq<Call>, b: seq<Call>, store: Store, act: Action)
    ensures After(a + b, store, act) == After(b, After(a, store, act), act)
    ensures Observed(a + b, store, act) == Observed(a, store, act) + Observed(b, After(a, store, act), act)
    decreases a
  {
    hide Step;
    if a == [] {
      assert a + b == b;
    } else {
      assert (a + b)[1..] == a[1..] + b && (a + b)[0] == a[0];
      RunAppend(a[1..], b, store + Step(a[0], store, act).wrote, act);
    }
  }

  lemma AfterOneMore(calls: seq<Call>, store: Store, act: Action, i: nat)
    requires i < |calls|
    ensures After(calls[..i + 1], store, act) == After(calls[..i], store, act) + Observed(calls, store, act)[i].wrote
  {
    hide Step, After, Observed;
    assert calls[..i + 1] == calls[..i] + [calls[i]];
    RunAppend(calls[..i], [calls[i]], store, act);
    ObservedAt(calls, store, act, i);
    AfterOne(calls[i], After(calls[..i], store, act), act);
  }

  lemma AfterOne(call: Call, store: Store, act: Action)
    ensures After([call], store, act) == store + Step(call, store, act).wrote
  {
    hide Step;
    assert [call][1..] == [];
  }

  lemma StepWrote(call: Call, store: Store, act: Action, r: string)
    ensures var wrote := Step(call, store, act).wrote;
      && (r in wrote <==> r in Produced(call))
      && (r in wrote ==> wrote[r] == act(call.body.stepId, SeenBy(call, store), r))
  {
    hide SeenBy;
  }

  /** What a read sees is what its source wrote. */
  lemma {:induction false} SourceWrote(calls: seq<Call>, store: Store, act: Action, i: nat, r: string)
    requires i <= |calls|
    ensures var (source, seen) := (Source(calls, i, r), Lookup(After(calls[..i], store, act), r));
      if source.None? then seen == Lookup(store, r)
      else var (call, before) := (calls[source.value], After(calls[..source.value], store, act));
        seen == Some(act(call.body.stepId, SeenBy(call, before), r))
    decreases i
  {
    hide Observed, Produced, SeenBy, Step;
    if i > 0 {
      hide After;
      var before := After(calls[..i - 1], store, act);
      AfterOneMore(calls, store, act, i - 1);
      ObservedAt(calls, store, act, i - 1);
      StepWrote(calls[i - 1], before, act, r);
      if r !in Produced(calls[i - 1]) {
        SourceWrote(calls, store, act, i - 1, r);
      }
    }
  }

  // ----- two orders of the same calls

  /** What is read alike has the same value, on every store and for every action. */
  lemma {:induction false} AlikeReadsSee(a: seq<Call>, i: nat, b: seq<Call>, j: nat, r: string, store: Store, act: Action)
    requires i <= |a| && j <= |b| && ReadAlike(a, i, b, j, r)
    ensures Lookup(After(a[..i], store, act), r) == Lookup(After(b[..j], store, act), r)
    decreases i
  {
    hide After, CallRoots, SeenBy, Lookup;
    SourceWrote(a, store, act, i, r);
    SourceWrote(b, store, act, j, r);
    if Source(a, i, r).Some? {
      var (k, l) := (Source(a, i, r).value, Source(b, j, r).value);
      var (before, before') := (After(a[..k], store, act), After(b[..l], store, act));
      forall q | q in CallRoots(a[k]) ensures Lookup(before, q) == Lookup(before', q) {
        AlikeReadsSee(a, k, b, l, q, store, act);
      }
      SeenByAlikeIffAgree(a[k], before, before');
      SameStepSees(a[k], b[l], before');
    }
  }

  lemma SameStepSees(c: Call, d: Call, store: Store)
    requires SameStep(c, d)
    ensures SeenBy(c, store) == SeenBy(d, store)
  {
  }

  /** What a call sees tells what it was asked to see. */
  lemma {:induction false} SeenTellsArgument(x: Arg, y: Arg, a: Store, b: Store)
    requires Seen(x, a) == Seen(y, b)
    ensures x == y
    decreases x
  {
    match x
    case Ref(_) =>
    case Literal(_) =>
    case Fields(fields) =>
      var (left, right) := (Seen(x, a).fieldViews, Seen(y, b).fieldViews);
      assert left.Keys == fields.Keys && right.Keys == y.fields.Keys;
      forall k | k in fields ensures k in y.fields && fields[k] == y.fields[k] {
        assert k in left.Keys && left[k] == right[k];
        SeenTellsArgument(fields[k], y.fields[k], a, b);
      }
      assert fields == y.fields;
    case Items(items) =>
      var (left, right) := (Seen(x, a).itemViews, Seen(y, b).itemViews);
      forall i | 0 <= i < |items| ensures items[i] == y.items[i] {
        assert left[i] == right[i];
        SeenTellsArgument(items[i], y.items[i], a, b);
      }
      assert items == y.items;
  }

  lemma SameStepIfSeenAlike(c: Call, d: Call, a: Store, b: Store)
    requires c.body.stepId == d.body.stepId && SeenBy(c, a) == SeenBy(d, b)
    ensures SameStep(c, d)
  {
    SeenTellsArgument(c.body.inputs, d.body.inputs, a, b);
    SeenTellsArgument(c.body.scope, d.body.scope, a, b);
    SeenTellsArgument(c.body.completion, d.body.completion, a, b);
  }

  /** A view written down as a value. */
  function Told(view: View): Value {
    match view
    case Found(path, value) => Arr([Str(path)] + if value.Some? then [value.value] else [])
    case Given(literal) => Obj(map["given" := literal])
    case FieldViews(fieldViews) => Obj(map["fields" := Obj(map k | k in fieldViews :: Told(fieldViews[k]))])
    case ItemViews(itemViews) => Obj(map["items" := Arr(seq(|itemViews|, i requires 0 <= i < |itemViews| => Told(itemViews[i])))])
  }

  lemma {:induction false} ToldTells(a: View, b: View)
    requires Told(a) == Told(b)
    ensures a == b
  {
    match a
    case Found(_, _) =>
      assert Told(a).items[0] == Told(b).items[0];
      assert a.value.Some? ==> Told(a).items[1] == Told(b).items[1];
    case Given(_) =>
      assert "given" in Told(a).fields.Keys;
      assert Told(a).fields["given"] == Told(b).fields["given"];
    case FieldViews(fieldViews) =>
      assert "fields" in Told(a).fields.Keys;
      var (left, right) := (Told(a).fields["fields"].fields, Told(b).fields["fields"].fields);
      assert left.Keys == fieldViews.Keys && right.Keys == b.fieldViews.Keys;
      forall k | k in fieldViews ensures fieldViews[k] == b.fieldViews[k] {
        assert left[k] == right[k];
        ToldTells(fieldViews[k], b.fieldViews[k]);
      }
      assert fieldViews == b.fieldViews;
    case ItemViews(itemViews) =>
      assert "items" in Told(a).fields.Keys;
      var (left, right) := (Told(a).fields["items"].items, Told(b).fields["items"].items);
      forall i | 0 <= i < |itemViews| ensures itemViews[i] == b.itemViews[i] {
        assert left[i] == right[i];
        ToldTells(itemViews[i], b.itemViews[i]);
      }
      assert itemViews == b.itemViews;
  }

  /** An action that writes down its step and all it sees. */
  function Telling(stepId: string, view: CallView, variable: string): Value {
    Arr([Str(stepId), Told(view.inputs), Told(view.scope), Told(view.completion)])
  }

  lemma TellingTells(c: Call, d: Call, a: Store, b: Store, r: string)
    requires Telling(c.body.stepId, SeenBy(c, a), r) == Telling(d.body.stepId, SeenBy(d, b), r)
    ensures SameStep(c, d) && SeenBy(c, a) == SeenBy(d, b)
  {
    hide Told, Seen;
    var (left, right) := (Telling(c.body.stepId, SeenBy(c, a), r).items, Telling(d.body.stepId, SeenBy(d, b), r).items);
    assert left[0] == right[0] && left[1] == right[1] && left[2] == right[2] && left[3] == right[3];
    ToldTells(SeenBy(c, a).inputs, SeenBy(d, b).inputs);
    ToldTells(SeenBy(c, a).scope, SeenBy(d, b).scope);
    ToldTells(SeenBy(c, a).completion, SeenBy(d, b).completion);
    SameStepIfSeenAlike(c, d, a, b);
  }

  /** With such an action, a read that is not alike shows. */
  lemma {:induction false} OtherReadShows(a: seq<Call>, i: nat, b: seq<Call>, j: nat, r: string)
    requires i <= |a| && j <= |b| && !ReadAlike(a, i, b, j, r)
    ensures Lookup(After(a[..i], map[], Telling), r) != Lookup(After(b[..j], map[], Telling), r)
    decreases i
  {
    hide After, CallRoots, SeenBy, Telling, SameStep;
    SourceWrote(a, map[], Telling, i, r);
    SourceWrote(b, map[], Telling, j, r);
    if Source(a, i, r).Some? && Source(b, j, r).Some? {
      var (k, l) := (Source(a, i, r).value, Source(b, j, r).value);
      var (before, before') := (After(a[..k], map[], Telling), After(b[..l], map[], Telling));
      if Telling(a[k].body.stepId, SeenBy(a[k], before), r) == Telling(b[l].body.stepId, SeenBy(b[l], before'), r) {
        TellingTells(a[k], b[l], before, before', r);
        var q :| q in CallRoots(a[k]) && !ReadAlike(a, k, b, l, q);
        OtherReadShows(a, k, b, l, q);
        SeenByAlikeIffAgree(a[k], before, before');
        SameStepSees(a[k], b[l], before');
        assert false;
      }
    }
  }

  /**
   Two lists of calls give every call of both the same view and the same effect, on every store and for every
   action, exactly when every call reads its variables alike in both.
   */
  lemma AlikeIffSameReads(a: seq<Call>, b: seq<Call>)
    ensures SameReads(a, b) <==>
            forall store, act :: Alike(a, Observed(a, store, act), b, Observed(b, store, act))
  {
    hide Observed, After, CallRoots, ReadAlike, SeenBy;
    if SameReads(a, b) {
      forall store, act, i, j | 0 <= i < |a| && 0 <= j < |b| && a[i] == b[j]
        ensures Observed(a, store, act)[i] == Observed(b, store, act)[j]
      {
        var (before, before') := (After(a[..i], store, act), After(b[..j], store, act));
        forall r | r in CallRoots(a[i]) ensures Lookup(before, r) == Lookup(before', r) {
          AlikeReadsSee(a, i, b, j, r, store, act);
        }
        ObservedAt(a, store, act, i);
        ObservedAt(b, store, act, j);
        SeenByAlikeIffAgree(a[i], before, before');
      }
    } else {
      var i, j :| 0 <= i < |a| && 0 <= j < |b| && a[i] == b[j] && !forall r | r in CallRoots(a[i]) :: ReadAlike(a, i, b, j, r);
      var r :| r in CallRoots(a[i]) && !ReadAlike(a, i, b, j, r);
      OtherReadShows(a, i, b, j, r);
      ObservedAt(a, map[], Telling, i);
      ObservedAt(b, map[], Telling, j);
      SeenByAlikeIffAgree(a[i], After(a[..i], map[], Telling), After(b[..j], map[], Telling));
      assert !Alike(a, Observed(a, map[], Telling), b, Observed(b, map[], Telling));
    }
  }

  // ----- the step in place of scattered calls

  /**
   The plan with the reusable step between the outside calls `before` and `rest`: all of them, and the
   selected calls inside the step, see and do what they did in the plan.
   */
  ghost predicate ReplacesAt(plan: Plan, step: ReusableStep, selected: seq<Call>, before: seq<Call>, rest: seq<Call>,
                             store: Store, act: Action)
    requires |step.plan.steps| == |selected|
  {
    var whole := Observed(plan.steps, store, act);
    var there := After(before, store, act);
    var inside := Restricted(there, step.inputs.Keys);
    var back := there + Restricted(After(step.plan.steps, inside, act), step.outputs.Keys);
    && Alike(plan.steps, whole, before, Observed(before, store, act))
    && Alike(plan.steps, whole, selected, Observed(step.plan.steps, inside, act))
    && Alike(plan.steps, whole, rest, Observed(rest, back, act))
  }

  lemma AlikeInTwo(m: seq<Call>, seen: seq<Observation>, a: seq<Call>, b: seq<Call>,
                   seenInA: seq<Observation>, seenInB: seq<Observation>)
    requires |seen| == |m| && |seenInA| == |a| && |seenInB| == |b|
    ensures Alike(m, seen, a + b, seenInA + seenInB) <==> Alike(m, seen, a, seenInA) && Alike(m, seen, b, seenInB)
  {
    var (all, seenInAll) := (a + b, seenInA + seenInB);
    assert forall j | 0 <= j < |a| :: all[j] == a[j] && seenInAll[j] == seenInA[j];
    forall j | 0 <= j < |b| ensures all[|a| + j] == b[j] && seenInAll[|a| + j] == seenInB[j] {}
    if Alike(m, seen, all, seenInAll) {
      forall i, j | 0 <= i < |m| && 0 <= j < |b| && m[i] == b[j] ensures seen[i] == seenInB[j] {
        assert m[i] == all[|a| + j];
      }
    }
    if Alike(m, seen, a, seenInA) && Alike(m, seen, b, seenInB) {
      forall i, j | 0 <= i < |m| && 0 <= j < |all| && m[i] == all[j] ensures seen[i] == seenInAll[j] {
        if j >= |a| {
          assert m[i] == b[j - |a|];
        }
      }
    }
  }

  /** Without an early read, the plan with the step is the plan with the selected calls gathered in its place. */
  lemma StepIsGathering(plan: Plan, nodeIds: Option<seq<string>>, group: Option<string>, before: seq<Call>, rest: seq<Call>,
                        store: Store, act: Action)
    requires Extract(plan, nodeIds, group).Success? && NoEarlyRead(SelectCalls(plan, nodeIds, group).value)
    requires forall c | c in rest :: c in plan.steps && c.nodeId !in Ids(SelectCalls(plan, nodeIds, group).value)
    ensures var step, selected := Extract(plan, nodeIds, group).value, SelectCalls(plan, nodeIds, group).value;
      var gathered := before + selected + rest;
      ReplacesAt(plan, step, selected, before, rest, store, act) <==>
      Alike(plan.steps, Observed(plan.steps, store, act), gathered, Observed(gathered, store, act))
  {
    hide SelectCalls, Observed, After, InputRoots, NoEarlyRead, OutputRoots, Restricted, Alike;
    var step, selected := Extract(plan, nodeIds, group).value, SelectCalls(plan, nodeIds, group).value;
    var there := After(before, store, act);
    var inside := Restricted(there, step.inputs.Keys);
    RunAppend(before + selected, rest, store, act);
    RunAppend(before, selected, store, act);
    StepReplacesCalls(plan, nodeIds, group, rest, there, act);
    assert step.inputs.Keys == InputRoots(selected);
    ExtractedCallsBehave(selected, Ids(selected), inside, act);
    InputsSuffice(selected, there, act);
    var whole := Observed(plan.steps, store, act);
    AlikeInTwo(plan.steps, whole, before, selected, Observed(before, store, act), Observed(selected, there, act));
    AlikeInTwo(plan.steps, whole, before + selected, rest, Observed(before + selected, store, act),
               Observed(rest, After(selected, there, act), act));
  }

  /** An early read shows: inside the step the variable is missing, in the plan it is not. */
  lemma EarlyReadInStep(plan: Plan, nodeIds: Option<seq<string>>, group: Option<string>, before: seq<Call>, rest: seq<Call>,
                        act: Action) returns (store: Store)
    requires Extract(plan, nodeIds, group).Success? && !NoEarlyRead(SelectCalls(plan, nodeIds, group).value)
    ensures !ReplacesAt(plan, Extract(plan, nodeIds, group).value, SelectCalls(plan, nodeIds, group).value, before, rest, store, act)
  {
    hide SelectCalls, Observed, After, CallRoots, Produced, SeenBy, OutputRoots, RefsOf;
    var step, selected := Extract(plan, nodeIds, group).value, SelectCalls(plan, nodeIds, group).value;
    var j, r :| 0 <= j < |selected| && r in CallRoots(selected[j]) && r in ProducedBy(selected) && r !in ProducedBy(selected[..j]);
    store := map[r := Null];
    SelectedAreSteps(plan, nodeIds, group, selected[j]);
    var i :| 0 <= i < |plan.steps| && plan.steps[i] == selected[j];
    var inside := Restricted(After(before, store, act), step.inputs.Keys);
    assert r !in inside;
    UnproducedUntouched(selected[..j], inside, act, r);
    ProducedPresent(plan.steps[..i], store, act, r);
    ObservedAt(plan.steps, store, act, i);
    ObservedAt(selected, inside, act, j);
    ExtractedCallsBehave(selected, Ids(selected), inside, act);
    SeenByAlikeIffAgree(selected[j], After(plan.steps[..i], store, act), After(selected[..j], inside, act));
    assert Observed(plan.steps, store, act)[i] != Observed(step.plan.steps, inside, act)[j];
  }

  lemma SelectedAreSteps(plan: Plan, nodeIds: Option<seq<string>>, group: Option<string>, call: Call)
    requires SelectCalls(plan, nodeIds, group).Success?
    ensures call in SelectCalls(plan, nodeIds, group).value ==> call in plan.steps
  {
    if group.Some? {
      FilterMember(plan.steps, (c: Call) => c.group == group.value, call);
    } else {
      FilterMember(plan.steps, (c: Call) => c.nodeId in nodeIds.value, call);
    }
  }

  /**
   The reusable step may stand for the selected calls at one place of the plan, for every store and every
   action, exactly when no selected call reads early and every call of the plan reads its variables alike once
   the selected calls are gathered there.
   */
  lemma StepReplacesScatteredIff(plan: Plan, nodeIds: Option<seq<string>>, group: Option<string>, before: seq<Call>, rest: seq<Call>)
    requires Extract(plan, nodeIds, group).Success?
    requires before + rest == Outside(plan.steps, Ids(SelectCalls(plan, nodeIds, group).value))
    ensures var step, selected := Extract(plan, nodeIds, group).value, SelectCalls(plan, nodeIds, group).value;
      NoEarlyRead(selected) && SameReads(plan.steps, before + selected + rest) <==>
      forall store, act :: ReplacesAt(plan, step, selected, before, rest, store, act)
  {
    hide SelectCalls, Observed, NoEarlyRead, SameReads, ReplacesAt;
    var step, selected := Extract(plan, nodeIds, group).value, SelectCalls(plan, nodeIds, group).value;
    var gathered := before + selected + rest;
    assert forall c | c in rest :: c in before + rest;
    if NoEarlyRead(selected) {
      AlikeIffSameReads(plan.steps, gathered);
      if SameReads(plan.steps, gathered) {
        forall store, act ensures ReplacesAt(plan, step, selected, before, rest, store, act) {
          StepIsGathering(plan, nodeIds, group, before, rest, store, act);
        }
      } else {
        var store, act :| !Alike(plan.steps, Observed(plan.steps, store, act), gathered, Observed(gathered, store, act));
        StepIsGathering(plan, nodeIds, group, before, rest, store, act);
      }
    } else {
      var act: Action := (_, _, _) => Null;
      var store := EarlyReadInStep(plan, nodeIds, group, before, rest, act);
    }
  }

  /**
   Where an outside call carries a value from one selected call to another, the step fits neither before nor
   after it.
   */
  lemma NoPlaceAroundCarrier(a: Call, carrier: Call, b: Call, x: string, y: string)
    requires x in Produced(a) && x in CallRoots(carrier) && y in Produced(carrier) && y in CallRoots(b)
    requires y !in Produced(a)
    ensures !SameReads([a, carrier, b], [a, b, carrier]) && !SameReads([a, carrier, b], [carrier, a, b])
  {
    hide CallRoots, Produced;
    var (plan, after, before) := ([a, carrier, b], [a, b, carrier], [carrier, a, b]);
    assert plan[2] == after[1] && plan[1] == before[0];
    assert Source(plan, 2, y) == Some(1) && Source(after, 0, y) == None && Source(after, 1, y) == None;
    assert !ReadAlike(plan, 2, after, 1, y);
    assert Source(plan, 1, x) == Some(0) && Source(before, 0, x) == None;
    assert !ReadAlike(plan, 1, before, 0, x);
  }
}
