/**
 Extracting some of a plan's calls into a reusable step, with the inputs and outputs it infers, and what
 running the extracted calls on those inputs alone preserves.
 */
module ReusableExtraction {
  import opened Outcomes
  import Text
  import opened Values

  /** A call's argument: values with references to plan variables inside. */
  datatype Arg =
    | Ref(path: string)
    | Literal(value: Value)
    | Fields(fields: map<string, Arg>)
    | Items(items: seq<Arg>)

  datatype Body = Body(stepId: string, inputs: Arg, scope: Arg, completion: Arg, outputs: map<string, string>)

  datatype Call = Call(nodeId: string, group: string, dependsOn: seq<string>, body: Body)

  datatype Plan = Plan(variables: map<string, Value>, steps: seq<Call>)

  datatype InputContract = Required | Optional(typeName: string, default: Value)

  datatype ReusableStep =
    ReusableStep(plan: Plan, inputs: map<string, InputContract>, outputs: map<string, string>)

  datatype ExtractionError =
    | BothModes
    | NoMode
    | EmptyGroup(group: string)
    | NoIds
    | UnknownIds(ids: set<string>)

  // ----- references

  function Root(path: string): string {
    Text.BeforeFirst(path, '.')
  }

  function Roots(paths: set<string>): set<string> {
    set p | p in paths :: Root(p)
  }

  /** `_variable_refs`. */
  function VariableRefs(arg: Arg): set<string> {
    match arg
    case Ref(path) => {path}
    case Literal(_) => {}
    case Fields(fields) => set k, p | k in fields && p in VariableRefs(fields[k]) :: p
    case Items(items) => set i, p | 0 <= i < |items| && p in VariableRefs(items[i]) :: p
  }

  function CallRefs(call: Call): set<string> {
    VariableRefs(call.body.inputs) + VariableRefs(call.body.scope) + VariableRefs(call.body.completion)
  }

  function CallRoots(call: Call): set<string> {
    Roots(CallRefs(call))
  }

  function Produced(call: Call): set<string> {
    set k | k in call.body.outputs && call.body.outputs[k] != "" :: call.body.outputs[k]
  }

  function ProducedBy(calls: seq<Call>): set<string> {
    set c, v | c in calls && v in Produced(c) :: v
  }

  function RefsOf(calls: seq<Call>): set<string> {
    set c, p | c in calls && p in CallRefs(c) :: p
  }

  function Ids(calls: seq<Call>): set<string> {
    set c | c in calls :: c.nodeId
  }

  // ----- selecting and extracting

  function MissingIds(requested: seq<string>, known: set<string>): set<string> {
    set id | id in requested && id !in known
  }

  /** `_select_calls`. */
  function SelectCalls(plan: Plan, nodeIds: Option<seq<string>>, group: Option<string>): Result<seq<Call>, ExtractionError> {
    if nodeIds.Some? && group.Some? then Failure(BothModes)
    else if nodeIds.None? && group.None? then Failure(NoMode)
    else if group.Some? then
      var selected := Filter(plan.steps, (c: Call) => c.group == group.value);
      if selected == [] then Failure(EmptyGroup(group.value)) else Success(selected)
    else if nodeIds.value == [] then Failure(NoIds)
    else
      var missing := MissingIds(nodeIds.value, Ids(plan.steps));
      if missing != {} then Failure(UnknownIds(missing))
      else Success(Filter(plan.steps, (c: Call) => c.nodeId in nodeIds.value))
  }

  function InputRoots(calls: seq<Call>): set<string> {
    Roots(RefsOf(calls)) - ProducedBy(calls)
  }

  predicate ReadAs(path: string, variable: string) {
    path == variable || variable + "." <= path
  }

  function OutputRoots(calls: seq<Call>, outside: seq<Call>): set<string> {
    set v | v in ProducedBy(calls) && exists p :: p in RefsOf(outside) && ReadAs(p, v)
  }

  function TypeName(value: Value): string {
    match value
    case Null => "any"
    case Bool(_) => "bool"
    case Int(_) => "int"
    case Float(_) => "float"
    case Str(_) => "str"
    case Obj(_) => "dict"
    case Arr(_) => "list"
  }

  function Inside(dependsOn: seq<string>, selected: set<string>): (kept: seq<string>)
    ensures forall d :: d in kept <==> d in dependsOn && d in selected
    ensures kept == dependsOn <==> forall d | d in dependsOn :: d in selected
  {
    var isInside := (d: string) => d in selected;
    assert forall d :: d in Filter(dependsOn, isInside) <==> d in dependsOn && d in selected by {
      forall d ensures d in Filter(dependsOn, isInside) <==> d in dependsOn && d in selected {
        FilterMember(dependsOn, isInside, d);
      }
    }
    FilterAll(dependsOn, isInside);
    Filter(dependsOn, isInside)
  }

  function ExtractedCall(call: Call, selected: set<string>): Call {
    call.(group := "", dependsOn := Inside(call.dependsOn, selected))
  }

  function Outside(steps: seq<Call>, selected: set<string>): (rest: seq<Call>)
    ensures forall c :: c in rest <==> c in steps && c.nodeId !in selected
    ensures rest == [] <==> forall c | c in steps :: c.nodeId in selected
  {
    var isOutside := (c: Call) => c.nodeId !in selected;
    assert forall c :: c in Filter(steps, isOutside) <==> c in steps && c.nodeId !in selected by {
      forall c ensures c in Filter(steps, isOutside) <==> c in steps && c.nodeId !in selected {
        FilterMember(steps, isOutside, c);
      }
    }
    var rest := Filter(steps, isOutside);
    assert rest != [] ==> rest[0] in rest;
    rest
  }

  function ExtractedCalls(calls: seq<Call>, selected: set<string>): (extracted: seq<Call>)
    ensures |extracted| == |calls| && forall i | 0 <= i < |calls| :: extracted[i] == ExtractedCall(calls[i], selected)
  {
    if calls == [] then [] else [ExtractedCall(calls[0], selected)] + ExtractedCalls(calls[1..], selected)
  }

  /** `extract_reusable_step`. */
  function Extract(plan: Plan, nodeIds: Option<seq<string>>, group: Option<string>): Result<ReusableStep, ExtractionError> {
    var selection := SelectCalls(plan, nodeIds, group);
    if selection.Failure? then Failure(selection.error)
    else Success(Extracted(plan, selection.value))
  }

  function Extracted(plan: Plan, selected: seq<Call>): ReusableStep {
    var ids := Ids(selected);
    var roots := InputRoots(selected);
    var outside := Outside(plan.steps, ids);
    ReusableStep(
      Plan(map r | r in roots && r in plan.variables :: plan.variables[r], ExtractedCalls(selected, ids)),
      map r | r in roots :: if r in plan.variables then Optional(TypeName(plan.variables[r]), plan.variables[r]) else Required,
      map v | v in OutputRoots(selected, outside) :: v)
  }

  // ----- what a call sees, and what a run does

  type Store = map<string, Value>

  function Lookup(store: Store, root: string): Option<Value> {
    if root in store then Some(store[root]) else None
  }

  /** An argument with every reference next to the value of its root, into which the path then leads. */
  datatype View =
    | Found(path: string, value: Option<Value>)
    | Given(literal: Value)
    | FieldViews(fieldViews: map<string, View>)
    | ItemViews(itemViews: seq<View>)

  function Seen(arg: Arg, store: Store): View {
    match arg
    case Ref(path) => Found(path, Lookup(store, Root(path)))
    case Literal(value) => Given(value)
    case Fields(fields) => FieldViews(map k | k in fields :: Seen(fields[k], store))
    case Items(items) => ItemViews(seq(|items|, i requires 0 <= i < |items| => Seen(items[i], store)))
  }

  datatype CallView = CallView(inputs: View, scope: View, completion: View)

  function SeenBy(call: Call, store: Store): CallView {
    CallView(Seen(call.body.inputs, store), Seen(call.body.scope, store), Seen(call.body.completion, store))
  }

  predicate AgreeOn(a: Store, b: Store, roots: set<string>) {
    forall r | r in roots :: Lookup(a, r) == Lookup(b, r)
  }

  /** The references found in an argument are all that it depends on, and it depends on each of them. */
  lemma {:induction false} SeenAlikeIffAgree(arg: Arg, a: Store, b: Store)
    ensures Seen(arg, a) == Seen(arg, b) <==> AgreeOn(a, b, Roots(VariableRefs(arg)))
    decreases arg
  {
    match arg
    case Ref(path) =>
      assert Roots({path}) == {Root(path)};
    case Literal(_) =>
    case Fields(fields) =>
      forall k | k in fields
        ensures Seen(fields[k], a) == Seen(fields[k], b) <==> AgreeOn(a, b, Roots(VariableRefs(fields[k])))
      {
        SeenAlikeIffAgree(fields[k], a, b);
      }
      FieldsAlike(fields, a, b);
    case Items(items) =>
      forall i | 0 <= i < |items|
        ensures Seen(items[i], a) == Seen(items[i], b) <==> AgreeOn(a, b, Roots(VariableRefs(items[i])))
      {
        SeenAlikeIffAgree(items[i], a, b);
      }
      ItemsAlike(items, a, b);
  }

  lemma FieldsAlike(fields: map<string, Arg>, a: Store, b: Store)
    requires forall k | k in fields ::
               Seen(fields[k], a) == Seen(fields[k], b) <==> AgreeOn(a, b, Roots(VariableRefs(fields[k])))
    ensures Seen(Fields(fields), a) == Seen(Fields(fields), b) <==>
            AgreeOn(a, b, Roots(VariableRefs(Fields(fields))))
  {
    var all := Roots(VariableRefs(Fields(fields)));
    if Seen(Fields(fields), a) == Seen(Fields(fields), b) {
      forall r | r in all ensures Lookup(a, r) == Lookup(b, r) {
        var p :| p in VariableRefs(Fields(fields)) && Root(p) == r;
        var k :| k in fields && p in VariableRefs(fields[k]);
        assert Seen(Fields(fields), a).fieldViews[k] == Seen(Fields(fields), b).fieldViews[k];
        assert r in Roots(VariableRefs(fields[k]));
      }
    }
    if AgreeOn(a, b, all) {
      forall k | k in fields ensures Seen(fields[k], a) == Seen(fields[k], b) {
        forall r | r in Roots(VariableRefs(fields[k])) ensures Lookup(a, r) == Lookup(b, r) {
          assert r in all;
        }
      }
    }
  }

  lemma ItemsAlike(items: seq<Arg>, a: Store, b: Store)
    requires forall i | 0 <= i < |items| ::
               Seen(items[i], a) == Seen(items[i], b) <==> AgreeOn(a, b, Roots(VariableRefs(items[i])))
    ensures Seen(Items(items), a) == Seen(Items(items), b) <==>
            AgreeOn(a, b, Roots(VariableRefs(Items(items))))
  {
    var all := Roots(VariableRefs(Items(items)));
    if Seen(Items(items), a) == Seen(Items(items), b) {
      forall r | r in all ensures Lookup(a, r) == Lookup(b, r) {
        var p :| p in VariableRefs(Items(items)) && Root(p) == r;
        var i :| 0 <= i < |items| && p in VariableRefs(items[i]);
        assert Seen(Items(items), a).itemViews[i] == Seen(Items(items), b).itemViews[i];
        assert r in Roots(VariableRefs(items[i]));
      }
    }
    if AgreeOn(a, b, all) {
      forall i | 0 <= i < |items| ensures Seen(items[i], a) == Seen(items[i], b) {
        forall r | r in Roots(VariableRefs(items[i])) ensures Lookup(a, r) == Lookup(b, r) {
          assert r in all;
        }
      }
    }
  }

  lemma SeenByAlikeIffAgree(call: Call, a: Store, b: Store)
    ensures SeenBy(call, a) == SeenBy(call, b) <==> AgreeOn(a, b, CallRoots(call))
  {
    hide Seen, VariableRefs, Lookup;
    var (inputs, scope, completion) := (call.body.inputs, call.body.scope, call.body.completion);
    SeenAlikeIffAgree(inputs, a, b);
    SeenAlikeIffAgree(scope, a, b);
    SeenAlikeIffAgree(completion, a, b);
    forall r ensures r in CallRoots(call) <==>
      || r in Roots(VariableRefs(inputs))
      || r in Roots(VariableRefs(scope))
      || r in Roots(VariableRefs(completion))
    {
    }
  }

  /** What a step does: from its id and what the call sees, the value of each variable the call names. */
  type Action = (string, CallView, string) -> Value

  datatype Observation = Observation(view: CallView, wrote: Store)

  /** Running a call binds each of its outputs to the variable it names, if it names one. */
  function Bound(call: Call, view: CallView, act: Action): (wrote: Store)
    ensures wrote.Keys == Produced(call)
    ensures forall v | v in wrote :: wrote[v] == act(call.body.stepId, view, v)
  {
    var outputs := call.body.outputs;
    map k | k in outputs && outputs[k] != "" :: outputs[k] := act(call.body.stepId, view, outputs[k])
  }

  function Step(call: Call, store: Store, act: Action): Observation {
    var view := SeenBy(call, store);
    Observation(view, Bound(call, view, act))
  }

  function Observed(calls: seq<Call>, store: Store, act: Action): (seen: seq<Observation>)
    ensures |seen| == |calls|
  {
    if calls == [] then []
    else [Step(calls[0], store, act)] + Observed(calls[1..], store + Step(calls[0], store, act).wrote, act)
  }

  function After(calls: seq<Call>, store: Store, act: Action): Store {
    if calls == [] then store else After(calls[1..], store + Step(calls[0], store, act).wrote, act)
  }

  /** Every variable a call reads is among `known` or written by a call before it. */
  predicate Closed(calls: seq<Call>, known: set<string>) {
    calls == [] || (CallRoots(calls[0]) <= known && Closed(calls[1..], known + Produced(calls[0])))
  }

  lemma {:induction false} ClosedRunsAgree(calls: seq<Call>, known: set<string>, a: Store, b: Store, act: Action)
    requires Closed(calls, known) && AgreeOn(a, b, known)
    ensures Observed(calls, a, act) == Observed(calls, b, act)
    ensures AgreeOn(After(calls, a, act), After(calls, b, act), known + ProducedBy(calls))
    decreases calls
  {
    hide SeenBy, CallRoots, Produced;
    if calls == [] {
      assert known + ProducedBy(calls) == known;
    } else {
      var call := calls[0];
      SeenByAlikeIffAgree(call, a, b);
      var wrote := Step(call, a, act).wrote;
      assert Step(call, a, act) == Step(call, b, act);
      assert AgreeOn(a + wrote, b + wrote, known + Produced(call));
      ClosedRunsAgree(calls[1..], known + Produced(call), a + wrote, b + wrote, act);
      assert known + Produced(call) + ProducedBy(calls[1..]) == known + ProducedBy(calls);
    }
  }

  function Restricted(store: Store, roots: set<string>): Store {
    map r | r in store && r in roots :: store[r]
  }

  /** No call reads a variable that the selection produces before a call ahead of it has produced it. */
  ghost predicate NoEarlyRead(calls: seq<Call>) {
    forall i, r | 0 <= i < |calls| && r in CallRoots(calls[i]) && r in ProducedBy(calls) :: r in ProducedBy(calls[..i])
  }

  lemma RootsOfCalls(calls: seq<Call>, i: nat)
    requires i < |calls|
    ensures CallRoots(calls[i]) <= Roots(RefsOf(calls))
  {
    forall r | r in CallRoots(calls[i]) ensures r in Roots(RefsOf(calls)) {
      var p :| p in CallRefs(calls[i]) && Root(p) == r;
      assert p in RefsOf(calls);
    }
  }

  lemma {:induction false} ClosedFrom(calls: seq<Call>, i: nat)
    requires NoEarlyRead(calls) && i <= |calls|
    ensures Closed(calls[i..], InputRoots(calls) + ProducedBy(calls[..i]))
    decreases |calls| - i
  {
    hide CallRoots, Produced;
    if i < |calls| {
      RootsOfCalls(calls, i);
      ClosedFrom(calls, i + 1);
      assert calls[..i + 1] == calls[..i] + [calls[i]];
      assert ProducedBy(calls[..i + 1]) == ProducedBy(calls[..i]) + Produced(calls[i]);
      assert InputRoots(calls) + ProducedBy(calls[..i]) + Produced(calls[i]) == InputRoots(calls) + ProducedBy(calls[..i + 1]);
      assert calls[i..][1..] == calls[i + 1..];
    }
  }

  /** The state before call `i`, and what the call does there. */
  lemma {:induction false} ObservedAt(calls: seq<Call>, store: Store, act: Action, i: nat)
    requires i < |calls|
    ensures Observed(calls, store, act)[i] == Step(calls[i], After(calls[..i], store, act), act)
    decreases calls
  {
    hide Step;
    if i > 0 {
      var next := store + Step(calls[0], store, act).wrote;
      ObservedAt(calls[1..], next, act, i - 1);
      assert calls[..i][1..] == calls[1..][..i - 1];
      assert After(calls[..i], store, act) == After(calls[1..][..i - 1], next, act);
    }
  }

  lemma {:induction false} UnproducedUntouched(calls: seq<Call>, store: Store, act: Action, v: string)
    requires v !in ProducedBy(calls)
    ensures Lookup(After(calls, store, act), v) == Lookup(store, v)
    decreases calls
  {
    if calls != [] {
      var wrote := Step(calls[0], store, act).wrote;
      assert v !in Produced(calls[0]);
      UnproducedUntouched(calls[1..], store + wrote, act, v);
    }
  }

  /**
   Running the selected calls on the inferred inputs alone gives every call the same view and the same
   effect as running them on the whole store, whatever the store, exactly when no selected call reads an
   internally produced variable too early.
   */
  lemma InputsSufficeIffNoEarlyRead(calls: seq<Call>, act: Action)
    ensures NoEarlyRead(calls) <==>
            forall store :: Observed(calls, store, act) == Observed(calls, Restricted(store, InputRoots(calls)), act)
  {
    if NoEarlyRead(calls) {
      forall store ensures Observed(calls, store, act) == Observed(calls, Restricted(store, InputRoots(calls)), act) {
        InputsSuffice(calls, store, act);
      }
    } else {
      var i, r :| 0 <= i < |calls| && r in CallRoots(calls[i]) && r in ProducedBy(calls) && r !in ProducedBy(calls[..i]);
      EarlyReadShows(calls, act, i, r);
    }
  }

  lemma InputsSuffice(calls: seq<Call>, store: Store, act: Action)
    requires NoEarlyRead(calls)
    ensures var inside := Restricted(store, InputRoots(calls));
      && Observed(calls, store, act) == Observed(calls, inside, act)
      && AgreeOn(After(calls, store, act), After(calls, inside, act), InputRoots(calls) + ProducedBy(calls))
  {
    hide InputRoots, Closed, NoEarlyRead, Observed, After;
    ClosedFrom(calls, 0);
    assert calls[0..] == calls;
    assert ProducedBy(calls[..0]) == {};
    assert InputRoots(calls) + {} == InputRoots(calls);
    ClosedRunsAgree(calls, InputRoots(calls), store, Restricted(store, InputRoots(calls)), act);
  }

  lemma EarlyReadShows(calls: seq<Call>, act: Action, i: nat, r: string)
    requires i < |calls| && r in CallRoots(calls[i]) && r in ProducedBy(calls) && r !in ProducedBy(calls[..i])
    ensures var store := map[r := Null];
      Observed(calls, store, act)[i] != Observed(calls, Restricted(store, InputRoots(calls)), act)[i]
  {
    hide CallRoots, SeenBy, Produced, Observed, After;
    var store: Store := map[r := Null];
    var inside := Restricted(store, InputRoots(calls));
    ObservedAt(calls, store, act, i);
    ObservedAt(calls, inside, act, i);
    UnproducedUntouched(calls[..i], store, act, r);
    UnproducedUntouched(calls[..i], inside, act, r);
    SeenByAlikeIffAgree(calls[i], After(calls[..i], store, act), After(calls[..i], inside, act));
  }

  // ----- outputs

  /** For a variable whose name has no dot, a path reads it exactly when the variable is the path's root. */
  lemma RootIffRead(path: string, variable: string)
    requires '.' !in variable
    ensures ReadAs(path, variable) <==> Root(path) == variable
  {
    var root := Root(path);
    if path == variable {
      assert '.' !in path;
    } else if variable + "." <= path {
      assert path[..|variable|] == variable && path[|variable|] == '.';
      assert '.' in path;
      assert root == path[..|root|];
    }
    if root == variable && '.' in path {
      assert path[..|root| + 1] == root + ".";
    }
  }

  /** A variable is an output exactly when the selection produces it and a call outside reads it. */
  lemma OutputIffReadOutside(calls: seq<Call>, outside: seq<Call>, v: string)
    requires '.' !in v
    ensures v in OutputRoots(calls, outside) <==> v in ProducedBy(calls) && v in Roots(RefsOf(outside))
  {
    if v in ProducedBy(calls) {
      forall p | p in RefsOf(outside) ensures ReadAs(p, v) <==> Root(p) == v {
        RootIffRead(p, v);
      }
    }
  }

  lemma {:induction false} RootsKnownClosed(calls: seq<Call>, known: set<string>)
    requires Roots(RefsOf(calls)) <= known
    ensures Closed(calls, known)
    decreases calls
  {
    if calls != [] {
      RootsOfCalls(calls, 0);
      forall r | r in Roots(RefsOf(calls[1..])) ensures r in known {
        var p :| p in RefsOf(calls[1..]) && Root(p) == r;
        var c :| c in calls[1..] && p in CallRefs(c);
        assert c in calls;
        assert p in RefsOf(calls) && r in Roots(RefsOf(calls));
      }
      RootsKnownClosed(calls[1..], known + Produced(calls[0]));
    }
  }

  /**
   Calling the reusable step in place of the selected calls: run it on its inputs alone, copy back its
   declared outputs alone, and the calls that follow see and do what they did after the selected calls.
   */
  lemma StepStandsForCalls(selected: seq<Call>, outside: seq<Call>, after: seq<Call>, store: Store, act: Action)
    requires NoEarlyRead(selected)
    requires forall c | c in after :: c in outside
    ensures var produced := After(selected, Restricted(store, InputRoots(selected)), act);
      Observed(after, After(selected, store, act), act) ==
      Observed(after, store + Restricted(produced, OutputRoots(selected, outside)), act)
  {
    hide InputRoots, Observed, After, OutputRoots, RefsOf, ProducedBy, NoEarlyRead, Closed;
    var inside := After(selected, Restricted(store, InputRoots(selected)), act);
    var whole := After(selected, store, act);
    var back := store + Restricted(inside, OutputRoots(selected, outside));
    var known := Roots(RefsOf(after));
    InputsSuffice(selected, store, act);
    forall r | r in known ensures Lookup(whole, r) == Lookup(back, r) {
      OutputIffReadOutside(selected, outside, r);
      RefsOfPart(after, outside, r);
      if r in ProducedBy(selected) {
        ProducedPresent(selected, store, act, r);
      } else {
        UnproducedUntouched(selected, store, act, r);
      }
    }
    RootsKnownClosed(after, known);
    ClosedRunsAgree(after, known, whole, back, act);
  }

  lemma RefsOfPart(part: seq<Call>, calls: seq<Call>, r: string)
    requires forall c | c in part :: c in calls
    requires r in Roots(RefsOf(part))
    ensures r in Roots(RefsOf(calls))
  {
    var p :| p in RefsOf(part) && Root(p) == r;
    assert p in RefsOf(calls);
  }

  lemma {:induction false} ProducedPresent(calls: seq<Call>, store: Store, act: Action, v: string)
    requires v in ProducedBy(calls) || v in store
    ensures v in After(calls, store, act)
    decreases calls
  {
    if calls != [] {
      ProducedPresent(calls[1..], store + Step(calls[0], store, act).wrote, act, v);
    }
  }

  // ----- the extracted step

  lemma {:induction false} ExtractedCallsBehave(calls: seq<Call>, selected: set<string>, store: Store, act: Action)
    ensures var extracted := ExtractedCalls(calls, selected);
      && Observed(extracted, store, act) == Observed(calls, store, act)
      && After(extracted, store, act) == After(calls, store, act)
    decreases calls
  {
    hide Seen;
    if calls != [] {
      assert Step(ExtractedCall(calls[0], selected), store, act) == Step(calls[0], store, act);
      ExtractedCallsBehave(calls[1..], selected, store + Step(calls[0], store, act).wrote, act);
    }
  }

  /**
   The extracted step, run on the part of any store its inputs name, does what the selected calls do on the
   whole store, exactly when no selected call reads early; on its own defaults, what they do on the plan's
   variables.
   */
  lemma ExtractionPreservesBehaviour(plan: Plan, nodeIds: Option<seq<string>>, group: Option<string>, act: Action)
    requires Extract(plan, nodeIds, group).Success?
    ensures var step, selected := Extract(plan, nodeIds, group).value, SelectCalls(plan, nodeIds, group).value;
      && (NoEarlyRead(selected) <==>
            forall store :: Observed(selected, store, act) == Observed(step.plan.steps, Restricted(store, step.inputs.Keys), act))
      && (NoEarlyRead(selected) ==>
            Observed(selected, plan.variables, act) == Observed(step.plan.steps, step.plan.variables, act))
  {
    hide SelectCalls, Observed, After, InputRoots, NoEarlyRead, OutputRoots;
    var step, selected := Extract(plan, nodeIds, group).value, SelectCalls(plan, nodeIds, group).value;
    forall store ensures Observed(step.plan.steps, store, act) == Observed(selected, store, act) {
      ExtractedCallsBehave(selected, Ids(selected), store, act);
    }
    assert step.inputs.Keys == InputRoots(selected);
    assert step.plan.variables == Restricted(plan.variables, InputRoots(selected));
    InputsSufficeIffNoEarlyRead(selected, act);
  }

  /**
   Whatever follows the selected calls in the plan sees and does the same after the reusable step, called
   with its inputs and giving back its outputs and nothing else, as after the calls themselves.
   */
  lemma StepReplacesCalls(plan: Plan, nodeIds: Option<seq<string>>, group: Option<string>, after: seq<Call>, store: Store, act: Action)
    requires Extract(plan, nodeIds, group).Success? && NoEarlyRead(SelectCalls(plan, nodeIds, group).value)
    requires forall c | c in after :: c in plan.steps && c.nodeId !in Ids(SelectCalls(plan, nodeIds, group).value)
    ensures var step, selected := Extract(plan, nodeIds, group).value, SelectCalls(plan, nodeIds, group).value;
      var result := After(step.plan.steps, Restricted(store, step.inputs.Keys), act);
      Observed(after, After(selected, store, act), act) ==
      Observed(after, store + Restricted(result, step.outputs.Keys), act)
  {
    hide SelectCalls, Observed, After, InputRoots, NoEarlyRead, OutputRoots, Restricted;
    var step, selected := Extract(plan, nodeIds, group).value, SelectCalls(plan, nodeIds, group).value;
    ExtractedCallsBehave(selected, Ids(selected), Restricted(store, InputRoots(selected)), act);
    assert step.inputs.Keys == InputRoots(selected);
    var outside := Outside(plan.steps, Ids(selected));
    assert step.outputs.Keys == OutputRoots(selected, outside);
    StepStandsForCalls(selected, outside, after, store, act);
  }

  /** A dependency survives exactly when both its ends are selected, so the extracted plan's are all inside it. */
  lemma DependenciesStayInside(plan: Plan, selected: seq<Call>, call: Call, dependency: string)
    requires call in selected
    ensures var extracted := ExtractedCall(call, Ids(selected));
      && extracted in Extracted(plan, selected).plan.steps
      && (dependency in extracted.dependsOn <==>
            dependency in call.dependsOn && exists c :: c in Extracted(plan, selected).plan.steps && c.nodeId == dependency)
  {
    var steps := Extracted(plan, selected).plan.steps;
    var i :| 0 <= i < |selected| && selected[i] == call;
    assert steps[i] == ExtractedCall(call, Ids(selected));
    if dependency in Ids(selected) {
      var c :| c in selected && c.nodeId == dependency;
      var j :| 0 <= j < |selected| && selected[j] == c;
      assert steps[j] == ExtractedCall(c, Ids(selected));
    }
  }

  /** Naming a group's calls one by one selects what naming the group does, when ids tell the calls apart. */
  lemma SelectionModesAgree(plan: Plan, group: string, nodeIds: seq<string>)
    requires forall c, d | c in plan.steps && d in plan.steps && c.nodeId == d.nodeId :: c == d
    requires forall id :: id in nodeIds <==> exists c :: c in plan.steps && c.group == group && c.nodeId == id
    ensures SelectCalls(plan, Some(nodeIds), None).Success? == SelectCalls(plan, None, Some(group)).Success?
    ensures SelectCalls(plan, None, Some(group)).Success? ==>
      SelectCalls(plan, Some(nodeIds), None) == SelectCalls(plan, None, Some(group))
  {
    var inGroup := (c: Call) => c.group == group;
    FilterSame(plan.steps, (c: Call) => c.nodeId in nodeIds, inGroup);
    if nodeIds == [] {
      if Filter(plan.steps, inGroup) != [] {
        var c := Filter(plan.steps, inGroup)[0];
        FilterMember(plan.steps, inGroup, c);
      }
    } else {
      assert nodeIds[0] in nodeIds;
      var c :| c in plan.steps && c.group == group && c.nodeId == nodeIds[0];
      FilterMember(plan.steps, inGroup, c);
      assert MissingIds(nodeIds, Ids(plan.steps)) == {};
    }
  }

  lemma {:induction false} SameReads(calls: seq<Call>, ids: set<string>)
    ensures var extracted := ExtractedCalls(calls, ids);
      Ids(extracted) == Ids(calls) && RefsOf(extracted) == RefsOf(calls) && ProducedBy(extracted) == ProducedBy(calls)
  {
    hide CallRefs, Produced;
    if calls != [] {
      SameReads(calls[1..], ids);
      OneMore(calls);
      OneMore(ExtractedCalls(calls, ids));
      SameBodyReads(calls[0], ExtractedCall(calls[0], ids));
      assert ExtractedCalls(calls, ids)[1..] == ExtractedCalls(calls[1..], ids);
    }
  }

  lemma OneMore(calls: seq<Call>)
    requires calls != []
    ensures Ids(calls) == {calls[0].nodeId} + Ids(calls[1..])
    ensures RefsOf(calls) == CallRefs(calls[0]) + RefsOf(calls[1..])
    ensures ProducedBy(calls) == Produced(calls[0]) + ProducedBy(calls[1..])
  {
  }

  lemma SameBodyReads(a: Call, b: Call)
    requires a.body == b.body
    ensures CallRefs(a) == CallRefs(b) && Produced(a) == Produced(b)
  {
  }

  lemma SelectionIsNotEmpty(plan: Plan, nodeIds: Option<seq<string>>, group: Option<string>)
    requires SelectCalls(plan, nodeIds, group).Success?
    ensures SelectCalls(plan, nodeIds, group).value != []
  {
    if group.None? {
      var id := nodeIds.value[0];
      assert id in nodeIds.value && id !in MissingIds(nodeIds.value, Ids(plan.steps));
      var c :| c in plan.steps && c.nodeId == id;
      FilterMember(plan.steps, (c: Call) => c.nodeId in nodeIds.value, c);
    }
  }

  lemma ExtractedCallsStay(calls: seq<Call>, ids: set<string>)
    ensures ExtractedCalls(ExtractedCalls(calls, ids), ids) == ExtractedCalls(calls, ids)
  {
    var extracted := ExtractedCalls(calls, ids);
    forall i | 0 <= i < |calls| ensures ExtractedCalls(extracted, ids)[i] == extracted[i] {
      var dependsOn := Inside(calls[i].dependsOn, ids);
      assert extracted[i].dependsOn == dependsOn;
      assert forall d | d in dependsOn :: d in ids;
      assert Inside(dependsOn, ids) == dependsOn;
    }
  }

  /**
   Extracting the whole extracted plan again gives the same step, inputs and defaults included, without the
   outputs: nothing outside is left to read them.
   */
  lemma ExtractingAgain(plan: Plan, nodeIds: Option<seq<string>>, group: Option<string>)
    requires Extract(plan, nodeIds, group).Success?
    ensures var step := Extract(plan, nodeIds, group).value;
      Extract(step.plan, None, Some("")) == Success(step.(outputs := map[]))
  {
    hide SelectCalls, RefsOf, ProducedBy, Inside, Outside, Root;
    var step, selected := Extract(plan, nodeIds, group).value, SelectCalls(plan, nodeIds, group).value;
    var steps, ids := step.plan.steps, Ids(selected);
    ExtractedCallsStay(selected, ids);
    SameReads(selected, ids);
    SelectionIsNotEmpty(plan, nodeIds, group);
    WholeIsSelected(step.plan);
    assert forall c | c in steps :: c.nodeId in ids;
    RefsOfNone();
    assert OutputRoots(steps, []) == {};
    assert Extracted(step.plan, steps) == step.(outputs := map[]);
  }

  lemma RefsOfNone()
    ensures RefsOf([]) == {}
  {
  }

  lemma WholeIsSelected(plan: Plan)
    requires plan.steps != [] && forall c | c in plan.steps :: c.group == ""
    ensures SelectCalls(plan, None, Some("")) == Success(plan.steps)
  {
    FilterAll(plan.steps, (c: Call) => c.group == "");
  }
}
