/** What the extracted step's inputs and outputs promise its callers, and which calls a selection is. */
module ExtractionContract {
  import opened Outcomes
  import opened Values
  import opened ReusableExtraction

  // ----- the selection

  /** The calls a request is for. */
  predicate Wanted(nodeIds: Option<seq<string>>, group: Option<string>, call: Call) {
    if group.Some? then call.group == group.value else nodeIds.Some? && call.nodeId in nodeIds.value
  }

  /** A selection succeeds for one mode that names something known, and then it is every wanted call in plan order. */
  lemma SelectionIff(plan: Plan, nodeIds: Option<seq<string>>, group: Option<string>)
    ensures var r := SelectCalls(plan, nodeIds, group);
      && (r.Success? <==>
            && (nodeIds.Some? <==> group.None?)
            && (nodeIds.Some? ==> nodeIds.value != [] && forall id | id in nodeIds.value :: exists c :: c in plan.steps && c.nodeId == id)
            && (group.Some? ==> exists c :: c in plan.steps && c.group == group.value))
      && (r.Success? ==> r.value == Filter(plan.steps, (c: Call) => Wanted(nodeIds, group, c)))
  {
    var r := SelectCalls(plan, nodeIds, group);
    if group.Some? && nodeIds.None? {
      FilterSame(plan.steps, (c: Call) => c.group == group.value, (c: Call) => Wanted(nodeIds, group, c));
      var selected := Filter(plan.steps, (c: Call) => c.group == group.value);
      if selected != [] {
        FilterMember(plan.steps, (c: Call) => c.group == group.value, selected[0]);
      } else {
        forall c | c in plan.steps ensures c.group != group.value {
          FilterMember(plan.steps, (c: Call) => c.group == group.value, c);
        }
      }
    }
    if group.None? && nodeIds.Some? {
      FilterSame(plan.steps, (c: Call) => c.nodeId in nodeIds.value, (c: Call) => Wanted(nodeIds, group, c));
      IdsKnown(plan, nodeIds.value);
    }
  }

  lemma IdsKnown(plan: Plan, ids: seq<string>)
    ensures MissingIds(ids, Ids(plan.steps)) == {} <==> forall id | id in ids :: exists c :: c in plan.steps && c.nodeId == id
  {
    forall id | id in ids ensures id in Ids(plan.steps) <==> exists c :: c in plan.steps && c.nodeId == id {}
    if MissingIds(ids, Ids(plan.steps)) == {} {
      forall id | id in ids ensures id in Ids(plan.steps) {
        assert id !in MissingIds(ids, Ids(plan.steps));
      }
    }
  }

  /** Why a selection fails; unknown ids are all reported. */
  lemma SelectionErrors(plan: Plan, nodeIds: Option<seq<string>>, group: Option<string>)
    requires SelectCalls(plan, nodeIds, group).Failure?
    ensures match SelectCalls(plan, nodeIds, group).error
      case BothModes => nodeIds.Some? && group.Some?
      case NoMode => nodeIds.None? && group.None?
      case EmptyGroup(g) => group == Some(g) && forall c | c in plan.steps :: c.group != g
      case NoIds => nodeIds == Some([])
      case UnknownIds(ids) => nodeIds.Some? && forall id :: id in ids <==> id in nodeIds.value && forall c | c in plan.steps :: c.nodeId != id
  {
    if group.Some? && nodeIds.None? {
      forall c | c in plan.steps ensures c.group != group.value {
        FilterMember(plan.steps, (c: Call) => c.group == group.value, c);
      }
    }
  }

  // ----- inputs and outputs

  /** The values a declared type stands for. */
  predicate OfType(typeName: string, value: Value) {
    match typeName
    case "bool" => value.Bool?
    case "int" => value.Int?
    case "float" => value.Float?
    case "str" => value.Str?
    case "list" => value.Arr?
    case "dict" => value.Obj?
    case "any" => value.Null?
    case _ => false
  }

  /** Every value has one type, and its name is the declared one. */
  lemma TypeNameIff(typeName: string, value: Value)
    ensures TypeName(value) == typeName <==> OfType(typeName, value)
  {
  }

  predicate Reads(calls: seq<Call>, r: string) {
    exists i | 0 <= i < |calls| :: r in CallRoots(calls[i])
  }

  predicate Writes(calls: seq<Call>, v: string) {
    v != "" && exists i | 0 <= i < |calls| :: v in calls[i].body.outputs.Values
  }

  lemma ReadsIff(calls: seq<Call>, r: string)
    ensures r in Roots(RefsOf(calls)) <==> Reads(calls, r)
  {
    if r in Roots(RefsOf(calls)) {
      var p :| p in RefsOf(calls) && Root(p) == r;
      var c :| c in calls && p in CallRefs(c);
      var i :| 0 <= i < |calls| && calls[i] == c;
      assert r in CallRoots(calls[i]);
    }
    if i :| 0 <= i < |calls| && r in CallRoots(calls[i]) {
      RootsOfCalls(calls, i);
    }
  }

  lemma WritesIff(calls: seq<Call>, v: string)
    ensures v in ProducedBy(calls) <==> Writes(calls, v)
  {
    if v in ProducedBy(calls) {
      var c :| c in calls && v in Produced(c);
      var i :| 0 <= i < |calls| && calls[i] == c;
      assert v in calls[i].body.outputs.Values;
    }
    if Writes(calls, v) {
      var i :| 0 <= i < |calls| && v in calls[i].body.outputs.Values;
      assert calls[i] in calls && v in Produced(calls[i]);
    }
  }

  lemma ContractAt(plan: Plan, selected: seq<Call>, r: string)
    ensures var step := Extracted(plan, selected);
      && (r in step.inputs <==> r in InputRoots(selected))
      && (r in step.inputs ==>
            step.inputs[r] == if r in plan.variables then Optional(TypeName(plan.variables[r]), plan.variables[r]) else Required)
      && (r in step.outputs <==> r in OutputRoots(selected, Outside(plan.steps, Ids(selected))))
      && (r in step.outputs ==> step.outputs[r] == r)
  {
    hide InputRoots, OutputRoots, Outside, Ids, TypeName, ExtractedCalls;
  }

  /**
   The contract, name by name. An input is what a selected call reads and none writes: required exactly when the
   plan has no such variable, otherwise with that variable as its default and the default's type. An output is
   what a selected call writes and another call of the plan reads, under its own name.
   */
  lemma ContractDescribes(plan: Plan, nodeIds: Option<seq<string>>, group: Option<string>, r: string)
    requires Extract(plan, nodeIds, group).Success?
    ensures var step, selected := Extract(plan, nodeIds, group).value, SelectCalls(plan, nodeIds, group).value;
      && (r in step.inputs <==> Reads(selected, r) && !Writes(selected, r))
      && (r in step.inputs ==> (step.inputs[r] == Required <==> r !in plan.variables))
      && (r in step.inputs && r in plan.variables ==>
            step.inputs[r].default == plan.variables[r] && OfType(step.inputs[r].typeName, plan.variables[r]))
      && (r in step.outputs ==> Writes(selected, r) && step.outputs[r] == r)
      && ('.' !in r ==> (r in step.outputs <==>
            Writes(selected, r) && exists c :: c in plan.steps && c.nodeId !in Ids(selected) && r in CallRoots(c)))
  {
    hide SelectCalls, CallRoots, Produced, TypeName, OfType, Extracted, Outside;
    var step, selected := Extract(plan, nodeIds, group).value, SelectCalls(plan, nodeIds, group).value;
    var outside := Outside(plan.steps, Ids(selected));
    ContractAt(plan, selected, r);
    ReadsIff(selected, r);
    WritesIff(selected, r);
    if r in plan.variables {
      TypeNameIff(TypeName(plan.variables[r]), plan.variables[r]);
    }
    if '.' !in r {
      OutputIffReadOutside(selected, outside, r);
      ReadsIff(outside, r);
      if c :| c in plan.steps && c.nodeId !in Ids(selected) && r in CallRoots(c) {
        var i :| 0 <= i < |outside| && outside[i] == c;
      }
    }
  }

  // ----- calling the step

  /** What the contract supplies by itself. */
  function Defaults(inputs: map<string, InputContract>): Store {
    map r | r in inputs && inputs[r].Optional? :: inputs[r].default
  }

  predicate CoversRequired(inputs: map<string, InputContract>, args: Store) {
    forall r | r in inputs && inputs[r] == Required :: r in args
  }

  /** The step's own variables are its defaults, and agree with the plan on whatever its calls read. */
  lemma OwnVariables(plan: Plan, selected: seq<Call>)
    ensures var step := Extracted(plan, selected);
      && step.plan.variables == Defaults(step.inputs)
      && step.plan.steps == ExtractedCalls(selected, Ids(selected))
      && forall r | r in InputRoots(selected) :: Lookup(Defaults(step.inputs), r) == Lookup(plan.variables, r)
  {
    hide InputRoots, OutputRoots, Outside, Ids, TypeName, ExtractedCalls;
  }

  /**
   Whatever arguments a caller gives, on the contract's own defaults overlaid with them the step does what the
   selected calls do on the plan's variables overlaid with them.
   */
  lemma ContractSuffices(plan: Plan, nodeIds: Option<seq<string>>, group: Option<string>, args: Store, act: Action)
    requires Extract(plan, nodeIds, group).Success? && NoEarlyRead(SelectCalls(plan, nodeIds, group).value)
    ensures var step, selected := Extract(plan, nodeIds, group).value, SelectCalls(plan, nodeIds, group).value;
      && step.plan.variables == Defaults(step.inputs)
      && Observed(step.plan.steps, Defaults(step.inputs) + args, act) == Observed(selected, plan.variables + args, act)
  {
    hide SelectCalls, Observed, After, InputRoots, NoEarlyRead, Extracted, Defaults, Closed;
    var step, selected := Extract(plan, nodeIds, group).value, SelectCalls(plan, nodeIds, group).value;
    var own, whole := Defaults(step.inputs) + args, plan.variables + args;
    OwnVariables(plan, selected);
    ExtractedCallsBehave(selected, Ids(selected), own, act);
    ClosedFrom(selected, 0);
    assert selected[0..] == selected && ProducedBy(selected[..0]) == {};
    assert InputRoots(selected) + {} == InputRoots(selected);
    ClosedRunsAgree(selected, InputRoots(selected), own, whole, act);
  }

  /** No reference in a view is without a value. */
  predicate NothingMissing(view: View) {
    match view
    case Found(_, value) => value.Some?
    case Given(_) => true
    case FieldViews(fieldViews) => forall k | k in fieldViews :: NothingMissing(fieldViews[k])
    case ItemViews(itemViews) => forall i | 0 <= i < |itemViews| :: NothingMissing(itemViews[i])
  }

  predicate Supplied(view: CallView) {
    NothingMissing(view.inputs) && NothingMissing(view.scope) && NothingMissing(view.completion)
  }

  lemma {:induction false} NothingMissingIff(arg: Arg, store: Store)
    ensures NothingMissing(Seen(arg, store)) <==> Roots(VariableRefs(arg)) <= store.Keys
  {
    match arg
    case Ref(path) => assert Roots({path}) == {Root(path)};
    case Literal(_) =>
    case Fields(fields) =>
      forall k | k in fields ensures NothingMissing(Seen(fields[k], store)) <==> Roots(VariableRefs(fields[k])) <= store.Keys {
        NothingMissingIff(fields[k], store);
      }
      FieldsMissing(fields, store);
    case Items(items) =>
      forall i | 0 <= i < |items| ensures NothingMissing(Seen(items[i], store)) <==> Roots(VariableRefs(items[i])) <= store.Keys {
        NothingMissingIff(items[i], store);
      }
      ItemsMissing(items, store);
  }

  lemma FieldsMissing(fields: map<string, Arg>, store: Store)
    requires forall k | k in fields :: NothingMissing(Seen(fields[k], store)) <==> Roots(VariableRefs(fields[k])) <= store.Keys
    ensures NothingMissing(Seen(Fields(fields), store)) <==> Roots(VariableRefs(Fields(fields))) <= store.Keys
  {
    var views := Seen(Fields(fields), store).fieldViews;
    if NothingMissing(Seen(Fields(fields), store)) {
      forall r | r in Roots(VariableRefs(Fields(fields))) ensures r in store {
        var p :| p in VariableRefs(Fields(fields)) && Root(p) == r;
        var k :| k in fields && p in VariableRefs(fields[k]);
        assert k in views && NothingMissing(views[k]);
        assert r in Roots(VariableRefs(fields[k]));
      }
    }
    if Roots(VariableRefs(Fields(fields))) <= store.Keys {
      forall k | k in views ensures NothingMissing(views[k]) {
        forall r | r in Roots(VariableRefs(fields[k])) ensures r in store {
          var p :| p in VariableRefs(fields[k]) && Root(p) == r;
          assert p in VariableRefs(Fields(fields)) && r in Roots(VariableRefs(Fields(fields)));
        }
      }
    }
  }

  lemma ItemsMissing(items: seq<Arg>, store: Store)
    requires forall i | 0 <= i < |items| :: NothingMissing(Seen(items[i], store)) <==> Roots(VariableRefs(items[i])) <= store.Keys
    ensures NothingMissing(Seen(Items(items), store)) <==> Roots(VariableRefs(Items(items))) <= store.Keys
  {
    var views := Seen(Items(items), store).itemViews;
    if NothingMissing(Seen(Items(items), store)) {
      forall r | r in Roots(VariableRefs(Items(items))) ensures r in store {
        var p :| p in VariableRefs(Items(items)) && Root(p) == r;
        var i :| 0 <= i < |items| && p in VariableRefs(items[i]);
        assert NothingMissing(views[i]);
        assert r in Roots(VariableRefs(items[i]));
      }
    }
    if Roots(VariableRefs(Items(items))) <= store.Keys {
      forall i | 0 <= i < |views| ensures NothingMissing(views[i]) {
        forall r | r in Roots(VariableRefs(items[i])) ensures r in store {
          var p :| p in VariableRefs(items[i]) && Root(p) == r;
          assert p in VariableRefs(Items(items)) && r in Roots(VariableRefs(Items(items)));
        }
      }
    }
  }

  lemma SuppliedIff(call: Call, store: Store)
    ensures Supplied(SeenBy(call, store)) <==> CallRoots(call) <= store.Keys
  {
    hide Seen, VariableRefs, NothingMissing;
    var (inputs, scope, completion) := (call.body.inputs, call.body.scope, call.body.completion);
    NothingMissingIff(inputs, store);
    NothingMissingIff(scope, store);
    NothingMissingIff(completion, store);
    assert CallRoots(call) == Roots(VariableRefs(inputs)) + Roots(VariableRefs(scope)) + Roots(VariableRefs(completion));
  }

  /** Every reference of every call inside the step finds a value exactly when the caller gives the required inputs. */
  lemma RequiredIsWhatIsMissing(plan: Plan, nodeIds: Option<seq<string>>, group: Option<string>, args: Store, act: Action)
    requires Extract(plan, nodeIds, group).Success? && NoEarlyRead(SelectCalls(plan, nodeIds, group).value)
    requires args.Keys <= Extract(plan, nodeIds, group).value.inputs.Keys
    ensures var step := Extract(plan, nodeIds, group).value;
      var seen := Observed(step.plan.steps, Defaults(step.inputs) + args, act);
      CoversRequired(step.inputs, args) <==> forall i | 0 <= i < |seen| :: Supplied(seen[i].view)
  {
    hide SelectCalls, Observed, After, CallRoots, Produced, Supplied, SeenBy, OutputRoots, TypeName;
    var step, selected := Extract(plan, nodeIds, group).value, SelectCalls(plan, nodeIds, group).value;
    var own := Defaults(step.inputs) + args;
    var seen := Observed(step.plan.steps, own, act);
    ExtractedCallsBehave(selected, Ids(selected), own, act);
    assert step.inputs.Keys == InputRoots(selected);
    assert CoversRequired(step.inputs, args) <==> InputRoots(selected) <= own.Keys;
    forall i | 0 <= i < |selected| ensures Supplied(seen[i].view) <==> CallRoots(selected[i]) <= After(selected[..i], own, act).Keys {
      ObservedAt(selected, own, act, i);
      SuppliedIff(selected[i], After(selected[..i], own, act));
    }
    if InputRoots(selected) <= own.Keys {
      forall i | 0 <= i < |selected| ensures CallRoots(selected[i]) <= After(selected[..i], own, act).Keys {
        ReadsAreThere(selected, own, act, i);
      }
    } else {
      var r :| r in InputRoots(selected) && r !in own;
      MissingIsRead(selected, own, act, r);
    }
  }

  lemma ReadsAreThere(selected: seq<Call>, own: Store, act: Action, i: nat)
    requires NoEarlyRead(selected) && InputRoots(selected) <= own.Keys && i < |selected|
    ensures CallRoots(selected[i]) <= After(selected[..i], own, act).Keys
  {
    hide CallRoots, Produced, After;
    forall r | r in CallRoots(selected[i]) ensures r in After(selected[..i], own, act) {
      RootsOfCalls(selected, i);
      ProducedPresent(selected[..i], own, act, r);
    }
  }

  lemma MissingIsRead(selected: seq<Call>, own: Store, act: Action, r: string)
    requires r in InputRoots(selected) && r !in own
    ensures exists i | 0 <= i < |selected| :: !(CallRoots(selected[i]) <= After(selected[..i], own, act).Keys)
  {
    hide CallRoots, Produced, After;
    ReadsIff(selected, r);
    var i :| 0 <= i < |selected| && r in CallRoots(selected[i]);
    assert r !in ProducedBy(selected[..i]);
    UnproducedUntouched(selected[..i], own, act, r);
  }
}
