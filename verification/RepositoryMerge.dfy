/**
 Merging one repository into another. The target stays canonical: its aliases, ids and owners survive,
 and compatible source definitions add resolver alternatives and metadata to them.
 */
module RepositoryMerge {
  import opened Outcomes
  import Values
  import opened Ownership
  import opened Text
  import opened ComponentRepository
  import opened RepositoryEdits

  datatype MergeError = IncompatibleTypes | Rejected

  datatype Stats = Stats(added: nat, merged: nat, same: nat) {
    function Plus(other: Stats): Stats {
      Stats(added + other.added, merged + other.merged, same + other.same)
    }
  }

  // ----- merging two definitions

  const CUSTOM := "custom"

  /** The source definition as a framework-agnostic logical object. */
  function Logical(d: Definition): Definition {
    d.(body := d.body.(framework := None, nativeClass := None))
  }

  function MergedType(target: string, source: string): Option<string> {
    if target == source || source == CUSTOM then Some(target)
    else if target == CUSTOM then Some(source)
    else None
  }

  function AppendNew(target: seq<Strategy>, source: seq<Strategy>): seq<Strategy>
    decreases |source|
  {
    if source == [] then target
    else AppendNew(if source[0] in target then target else target + [source[0]], source[1..])
  }

  function JoinDescriptions(target: string, source: string): string {
    if target == "" then source
    else if source == "" || source == target then target
    else target + " / " + source
  }

  predicate Shows(visual: Option<map<string, Values.Value>>) {
    visual.Some? && visual.value != map[]
  }

  function MergedBody(t: Body, s: Body, objectType: string): Body {
    t.(strategies := AppendNew(t.strategies, s.strategies),
       actions := t.actions + s.actions,
       properties := s.properties + t.properties,
       subobjects := s.subobjects + t.subobjects,
       expectedStates := s.expectedStates + t.expectedStates,
       actionCompletion := s.actionCompletion + t.actionCompletion,
       scope := s.scope + t.scope,
       objectType := objectType,
       description := JoinDescriptions(t.description, s.description),
       visual := if Shows(t.visual) then t.visual else s.visual,
       framework := None,
       nativeClass := None,
       revision := (if t.revision > s.revision then t.revision else s.revision) + 1)
  }

  predicate BodyChanges(t: Body, s: Body, objectType: string) {
    var m := MergedBody(t, s, objectType);
    || m.strategies != t.strategies || m.actions != t.actions || m.properties != t.properties
    || m.subobjects != t.subobjects || m.expectedStates != t.expectedStates
    || m.actionCompletion != t.actionCompletion || m.scope != t.scope || m.objectType != t.objectType
    || t.framework.Some? || t.nativeClass.Some? || (!Shows(t.visual) && Shows(s.visual))
  }

  /** `_merge_definition_or`; `None` when the semantic types are incompatible. */
  function MergeDefinition(t: Definition, s: Definition): Option<Definition> {
    var objectType := MergedType(t.body.objectType, s.body.objectType);
    if objectType.None? then None
    else if BodyChanges(t.body, s.body, objectType.value) then Some(t.(body := MergedBody(t.body, s.body, objectType.value)))
    else Some(t)
  }

  /** The target already says everything the source says. */
  ghost predicate Absorbed(t: Body, s: Body) {
    && (s.objectType == t.objectType || s.objectType == CUSTOM)
    && (forall x | x in s.strategies :: x in t.strategies)
    && s.actions <= t.actions
    && s.properties.Keys <= t.properties.Keys
    && s.subobjects.Keys <= t.subobjects.Keys
    && s.expectedStates.Keys <= t.expectedStates.Keys
    && s.actionCompletion.Keys <= t.actionCompletion.Keys
    && s.scope.Keys <= t.scope.Keys
    && t.framework.None? && t.nativeClass.None?
    && (Shows(s.visual) ==> Shows(t.visual))
  }

  lemma {:induction false} AppendNewContents(t: seq<Strategy>, s: seq<Strategy>)
    ensures t <= AppendNew(t, s)
    ensures forall x :: x in AppendNew(t, s) <==> x in t || x in s
    ensures AppendNew(t, s) == t <==> forall x | x in s :: x in t
    decreases |s|
  {
    if s != [] {
      AppendNewContents(if s[0] in t then t else t + [s[0]], s[1..]);
      assert s == [s[0]] + s[1..];
    }
  }

  lemma KeysAdded<V>(t: map<string, V>, s: map<string, V>)
    ensures s + t == t <==> s.Keys <= t.Keys
  {
    if s + t == t {
      assert (s + t).Keys == t.Keys;
    }
  }

  /** The merge leaves the target alone exactly when it has absorbed the source already. */
  lemma UnchangedIffAbsorbed(t: Body, s: Body)
    ensures Absorbed(t, s) <==>
      MergedType(t.objectType, s.objectType) == Some(t.objectType) && !BodyChanges(t, s, t.objectType)
  {
    AppendNewContents(t.strategies, s.strategies);
    KeysAdded(t.properties, s.properties);
    KeysAdded(t.subobjects, s.subobjects);
    KeysAdded(t.expectedStates, s.expectedStates);
    KeysAdded(t.actionCompletion, s.actionCompletion);
    KeysAdded(t.scope, s.scope);
    assert t.actions + s.actions == t.actions <==> s.actions <= t.actions;
  }

  lemma MergeResult(t: Definition, s: Definition)
    requires MergeDefinition(t, s).Some?
    ensures var m := MergeDefinition(t, s).value;
      && m.componentId == t.componentId && m.objectId == t.objectId && m.owner == t.owner
      && (m == t <==> Absorbed(t.body, s.body))
      && (m == t || m.body == MergedBody(t.body, s.body, MergedType(t.body.objectType, s.body.objectType).value))
  {
    UnchangedIffAbsorbed(t.body, s.body);
  }

  ghost predicate Joins<V>(m: map<string, V>, t: map<string, V>, s: map<string, V>) {
    m.Keys == t.Keys + s.Keys && forall k | k in m :: m[k] == if k in t then t[k] else s[k]
  }

  /** `m` holds what either side holds, the target's word first, and nothing else. */
  ghost predicate Joined(m: Body, t: Body, s: Body) {
    && (forall x :: x in m.strategies <==> x in t.strategies || x in s.strategies)
    && m.actions == t.actions + s.actions
    && Joins(m.properties, t.properties, s.properties)
    && Joins(m.subobjects, t.subobjects, s.subobjects)
    && Joins(m.expectedStates, t.expectedStates, s.expectedStates)
    && Joins(m.actionCompletion, t.actionCompletion, s.actionCompletion)
    && Joins(m.scope, t.scope, s.scope)
    && m.objectType == (if t.objectType == CUSTOM then s.objectType else t.objectType)
    && (Shows(m.visual) <==> Shows(t.visual) || Shows(s.visual))
    && m.framework.None? && m.nativeClass.None?
  }

  lemma AbsorbedJoined(t: Body, s: Body)
    requires Absorbed(t, s)
    ensures Joined(t, t, s)
  {
  }

  lemma MergedJoined(t: Body, s: Body)
    requires MergedType(t.objectType, s.objectType).Some?
    ensures Joined(MergedBody(t, s, MergedType(t.objectType, s.objectType).value), t, s)
  {
    hide Joins, AppendNew;
    AppendNewContents(t.strategies, s.strategies);
    PlusJoins(t.properties, s.properties);
    PlusJoins(t.subobjects, s.subobjects);
    PlusJoins(t.expectedStates, s.expectedStates);
    PlusJoins(t.actionCompletion, s.actionCompletion);
    PlusJoins(t.scope, s.scope);
  }

  lemma PlusJoins<V>(t: map<string, V>, s: map<string, V>)
    ensures Joins(s + t, t, s)
  {
  }

  /** A merge invents nothing and drops nothing. */
  lemma MergeJoins(t: Definition, s: Definition)
    requires MergeDefinition(t, s).Some?
    ensures Joined(MergeDefinition(t, s).value.body, t.body, s.body)
  {
    hide Joined, Absorbed, MergedBody;
    MergeResult(t, s);
    if Absorbed(t.body, s.body) {
      AbsorbedJoined(t.body, s.body);
    }
    if MergedType(t.body.objectType, s.body.objectType).Some? {
      MergedJoined(t.body, s.body);
    }
  }

  lemma MergedAbsorbs(t: Body, s: Body)
    requires MergedType(t.objectType, s.objectType).Some?
    ensures Absorbed(MergedBody(t, s, MergedType(t.objectType, s.objectType).value), s)
  {
    AppendNewContents(t.strategies, s.strategies);
  }

  /** Merging more never loses what was absorbed before, nor anything the target held. */
  lemma AbsorptionPersists(t: Body, s: Body, earlier: Body)
    requires MergedType(t.objectType, s.objectType).Some?
    requires Absorbed(t, earlier)
    ensures Absorbed(MergedBody(t, s, MergedType(t.objectType, s.objectType).value), earlier)
  {
    AppendNewContents(t.strategies, s.strategies);
  }

  // ----- merging repositories

  /** `_canonical_target_name`: the entry with the same id, else the one with the same alias. */
  function CanonicalTarget(c: Components, d: Definition): (name: Option<string>)
    requires DistinctIds(c)
    ensures name.Some? ==> name.value in c
  {
    if exists n | n in c :: c[n].objectId == d.objectId then
      var n :| n in c && c[n].objectId == d.objectId; Some(n)
    else if d.componentId in c then Some(d.componentId)
    else None
  }

  /** One round of the merge loop. */
  ghost function MergeStep(c: Components, d: Definition): Result<(Components, Stats), MergeError>
    requires Valid(c)
  {
    var name := CanonicalTarget(c, d);
    if name.None? then
      if Valid(Updated(c, Logical(d))) then Success((Updated(c, Logical(d)), Stats(1, 0, 0)))
      else Failure(Rejected)
    else
      var merged := MergeDefinition(c[name.value], Logical(d));
      if merged.None? then Failure(IncompatibleTypes)
      else if merged.value == c[name.value] then Success((c, Stats(0, 0, 1)))
      else Success((c[name.value := merged.value], Stats(0, 1, 0)))
  }

  lemma MergeStepValid(c: Components, d: Definition)
    requires Valid(c) && MergeStep(c, d).Success?
    ensures Valid(MergeStep(c, d).value.0)
  {
    hide Canonical, Graph;
    var name := CanonicalTarget(c, d);
    if name.Some? {
      var merged := MergeDefinition(c[name.value], Logical(d));
      MergeResult(c[name.value], Logical(d));
      SameIdentityValid(c, merged.value);
    }
  }

  lemma SameIdentityValid(c: Components, d: Definition)
    requires Valid(c) && d.componentId in c
    requires d.objectId == c[d.componentId].objectId && d.owner == c[d.componentId].owner
    ensures Valid(c[d.componentId := d]) && Updated(c, d) == c[d.componentId := d]
  {
    hide Canonical, Graph;
    assert Updated(c, d) == c[d.componentId := d];
    assert forall n | n in Updated(c, d) :: Updated(c, d)[n].objectId == c[n].objectId;
    UpdatedGraph(c, d);
    GraphAt(c, d.componentId);
    assert Graph(c)[d.objectId := d.owner] == Graph(c);
  }

  /** The repository and the tally after merging the definitions in order. */
  ghost function MergeAll(c: Components, ds: seq<Definition>): (r: Result<(Components, Stats), MergeError>)
    requires Valid(c)
    ensures r.Success? ==> Valid(r.value.0)
  {
    if ds == [] then Success((c, Stats(0, 0, 0)))
    else
      var before := MergeAll(c, ds[..|ds| - 1]);
      if before.Failure? then before
      else
        var step := MergeStep(before.value.0, ds[|ds| - 1]);
        if step.Failure? then step
        else
          MergeStepValid(before.value.0, ds[|ds| - 1]);
          Success((step.value.0, before.value.1.Plus(step.value.1)))
  }

  /** The definitions of a repository, each once, in some order. */
  ghost predicate Lists(ds: seq<Definition>, source: Components) {
    && |ds| == |source|
    && (forall d | d in ds :: d.componentId in source && source[d.componentId] == d)
    && (forall i, j | 0 <= i < j < |ds| :: ds[i].componentId != ds[j].componentId && ds[i].objectId != ds[j].objectId)
  }

  lemma MergeAllPrefix(c: Components, ds: seq<Definition>, i: nat)
    requires Valid(c) && i <= |ds|
    ensures MergeAll(c, ds[..i]).Failure? ==> MergeAll(c, ds) == MergeAll(c, ds[..i])
    decreases |ds|
  {
    if i < |ds| {
      assert ds[..|ds| - 1][..i] == ds[..i];
      MergeAllPrefix(c, ds[..|ds| - 1], i);
    } else {
      assert ds[..i] == ds;
    }
  }

  /**
   `merge_repository_or`, over the source definitions in the order of their aliases. The constructor may
   refuse an addition, never the update of an entry.
   */
  method MergeRepositoryOr(target: Components, ds: seq<Definition>) returns (r: Result<(Components, Stats), MergeError>)
    requires Valid(target)
    ensures r == MergeAll(target, ds)
  {
    hide Canonical, Graph, MergeDefinition, CanonicalTarget, Updated;
    var result := target;
    var stats := Stats(0, 0, 0);
    for i := 0 to |ds|
      invariant Valid(result) && MergeAll(target, ds[..i]) == Success((result, stats))
    {
      assert ds[..i + 1][..i] == ds[..i];
      MergeAllPrefix(target, ds, i + 1);
      StepResultValid(result, ds[i]);
      var name := CanonicalTarget(result, ds[i]);
      var logical := Logical(ds[i]);
      if name.None? {
        var added := WithComponent(result, logical);
        if added.Failure? {
          return Failure(Rejected);
        }
        result := added.value;
        stats := stats.Plus(Stats(1, 0, 0));
        continue;
      }
      var current := result[name.value];
      var merged := MergeDefinition(current, logical);
      if merged.None? {
        return Failure(IncompatibleTypes);
      }
      if merged.value == current {
        stats := stats.Plus(Stats(0, 0, 1));
        continue;
      }
      MergeResult(current, logical);
      SameIdentityValid(result, merged.value);
      var updated := WithComponent(result, merged.value);
      result := updated.value;
      stats := stats.Plus(Stats(0, 1, 0));
    }
    assert ds[..|ds|] == ds;
    return Success((result, stats));
  }

  lemma StepResultValid(c: Components, d: Definition)
    requires Valid(c)
    ensures MergeStep(c, d).Success? ==> Valid(MergeStep(c, d).value.0)
  {
    if MergeStep(c, d).Success? {
      MergeStepValid(c, d);
    }
  }

  // ----- what merging conserves

  predicate Grown<V(==)>(later: map<string, V>, earlier: map<string, V>) {
    forall k | k in earlier :: k in later && later[k] == earlier[k]
  }

  /** Identity and owner stay; locators, actions and metadata only grow. */
  ghost predicate Extends(later: Definition, earlier: Definition) {
    && later.objectId == earlier.objectId && later.owner == earlier.owner
    && earlier.body.strategies <= later.body.strategies
    && earlier.body.actions <= later.body.actions
    && Grown(later.body.properties, earlier.body.properties)
    && Grown(later.body.subobjects, earlier.body.subobjects)
    && Grown(later.body.expectedStates, earlier.body.expectedStates)
    && Grown(later.body.actionCompletion, earlier.body.actionCompletion)
    && Grown(later.body.scope, earlier.body.scope)
  }

  /** Every entry of `c` is still in `r` under its alias. */
  ghost predicate Survives(c: Components, r: Components) {
    forall n | n in c :: n in r && Extends(r[n], c[n])
  }

  lemma MergedExtends(t: Definition, s: Definition)
    requires MergeDefinition(t, s).Some?
    ensures Extends(MergeDefinition(t, s).value, t)
  {
    AppendNewContents(t.body.strategies, s.body.strategies);
  }

  lemma PutConserves(c: Components, n: string, d: Definition)
    requires n in c ==> Extends(d, c[n])
    ensures Survives(c, c[n := d]) && |c[n := d]| == |c| + if n in c then 0 else 1
  {
    hide Extends;
    forall m | m in c ensures Extends(c[m], c[m]) {
      ExtendsSelf(c[m]);
    }
    assert c[n := d].Keys == c.Keys + {n};
    assert |c[n := d].Keys| == |c[n := d]| && |c.Keys| == |c|;
  }

  lemma MergeStepConserves(c: Components, d: Definition)
    requires Valid(c) && MergeStep(c, d).Success?
    ensures var (r, stats) := MergeStep(c, d).value;
      Survives(c, r) && |r| == |c| + stats.added && stats.added + stats.merged + stats.same == 1
  {
    hide Canonical, Graph, Extends, Survives, MergeDefinition;
    SurvivesSelf(c);
    var name := CanonicalTarget(c, d);
    if name.Some? {
      MergedExtends(c[name.value], Logical(d));
      PutConserves(c, name.value, MergeDefinition(c[name.value], Logical(d)).value);
    } else {
      PutConserves(c, d.componentId, Logical(d));
    }
  }

  lemma ExtendsSelf(d: Definition)
    ensures Extends(d, d)
  {
  }

  lemma {:induction false} MergeConserves(c: Components, ds: seq<Definition>)
    requires Valid(c) && MergeAll(c, ds).Success?
    ensures var (r, stats) := MergeAll(c, ds).value;
      Survives(c, r) && |r| == |c| + stats.added && stats.added + stats.merged + stats.same == |ds|
  {
    hide MergeStep, Survives, Valid;
    if ds == [] {
      SurvivesSelf(c);
    } else {
      var before := MergeAll(c, ds[..|ds| - 1]);
      MergeConserves(c, ds[..|ds| - 1]);
      MergeStepConserves(before.value.0, ds[|ds| - 1]);
      SurvivesTransitive(c, before.value.0, MergeAll(c, ds).value.0);
    }
  }

  lemma SurvivesSelf(c: Components)
    ensures Survives(c, c)
  {
  }

  lemma SurvivesTransitive(a: Components, b: Components, c: Components)
    requires Survives(a, b) && Survives(b, c)
    ensures Survives(a, c)
  {
  }

  // ----- merging again

  /** The repository has an entry for `d` that already says everything `d` says. */
  ghost predicate Holds(c: Components, d: Definition) {
    Valid(c) && CanonicalTarget(c, d).Some? && Absorbed(c[CanonicalTarget(c, d).value].body, Logical(d).body)
  }

  lemma HeldIsUnchanged(c: Components, d: Definition)
    requires Holds(c, d)
    ensures MergeStep(c, d) == Success((c, Stats(0, 0, 1)))
  {
    hide Canonical, Graph;
    UnchangedIffAbsorbed(c[CanonicalTarget(c, d).value].body, Logical(d).body);
  }

  lemma MergeStepHolds(c: Components, d: Definition)
    requires Valid(c) && MergeStep(c, d).Success?
    ensures Holds(MergeStep(c, d).value.0, d)
  {
    hide Canonical, Graph;
    MergeStepValid(c, d);
    var r := MergeStep(c, d).value.0;
    var name := CanonicalTarget(c, d);
    if name.None? {
      assert r[d.componentId] == Logical(d);
      TargetById(r, d.componentId, d);
    } else {
      var n := name.value;
      MergeResult(c[n], Logical(d));
      MergedAbsorbs(c[n].body, Logical(d).body);
      SameIdentityTarget(c, r, d);
    }
  }

  lemma TargetById(c: Components, n: string, d: Definition)
    requires Valid(c) && n in c && c[n].objectId == d.objectId
    ensures CanonicalTarget(c, d) == Some(n)
  {
    hide Canonical;
  }

  lemma SameIdentityTarget(c: Components, r: Components, d: Definition)
    requires Valid(c) && Valid(r) && r.Keys == c.Keys && forall n | n in c :: r[n].objectId == c[n].objectId
    ensures CanonicalTarget(r, d) == CanonicalTarget(c, d)
  {
    hide Canonical;
    if n :| n in c && c[n].objectId == d.objectId {
      TargetById(c, n, d);
      TargetById(r, n, d);
    } else {
      assert forall n | n in r :: r[n].objectId != d.objectId;
    }
  }

  /** A later round keeps what an earlier one merged, for definitions of one source. */
  lemma MergeStepKeepsHolding(c: Components, d: Definition, earlier: Definition)
    requires Holds(c, earlier) && MergeStep(c, d).Success?
    requires d.objectId != earlier.objectId && d.componentId != earlier.componentId
    ensures Holds(MergeStep(c, d).value.0, earlier)
  {
    hide Canonical, Graph;
    MergeStepValid(c, d);
    var r := MergeStep(c, d).value.0;
    var name := CanonicalTarget(c, d);
    var held := CanonicalTarget(c, earlier).value;
    if name.None? {
      assert r[d.componentId].objectId == d.objectId;
      assert held in r && r[held] == c[held];
      AdditionKeepsTarget(c, r, d, earlier);
    } else {
      var n := name.value;
      MergeResult(c[n], Logical(d));
      SameIdentityTarget(c, r, earlier);
      if held == n && r[n] != c[n] {
        AbsorptionPersists(c[n].body, Logical(d).body, Logical(earlier).body);
      }
    }
  }

  lemma AdditionKeepsTarget(c: Components, r: Components, d: Definition, earlier: Definition)
    requires Valid(c) && Valid(r) && CanonicalTarget(c, earlier).Some? && CanonicalTarget(c, d).None?
    requires d.componentId != earlier.componentId && d.objectId != earlier.objectId
    requires r == c[d.componentId := Logical(d)]
    ensures CanonicalTarget(r, earlier) == CanonicalTarget(c, earlier)
  {
    hide Canonical, Graph, Valid;
    if n :| n in c && c[n].objectId == earlier.objectId {
      assert r[n] == c[n];
      TargetById(c, n, earlier);
      TargetById(r, n, earlier);
    } else {
      assert forall n | n in r :: r[n].objectId != earlier.objectId;
    }
  }

  lemma {:induction false} MergedAllHeld(c: Components, ds: seq<Definition>, i: nat)
    requires Valid(c) && MergeAll(c, ds).Success? && i < |ds|
    requires forall i, j | 0 <= i < j < |ds| :: ds[i].componentId != ds[j].componentId && ds[i].objectId != ds[j].objectId
    ensures Holds(MergeAll(c, ds).value.0, ds[i])
  {
    hide Valid, MergeStep, Holds;
    var before := MergeAll(c, ds[..|ds| - 1]).value.0;
    var last := ds[|ds| - 1];
    if i == |ds| - 1 {
      MergeStepHolds(before, last);
    } else {
      MergedAllHeld(c, ds[..|ds| - 1], i);
      MergeStepKeepsHolding(before, last, ds[i]);
    }
  }

  lemma {:induction false} AllHeldUnchanged(c: Components, ds: seq<Definition>)
    requires Valid(c) && forall d | d in ds :: Holds(c, d)
    ensures MergeAll(c, ds) == Success((c, Stats(0, 0, |ds|)))
  {
    hide Valid, MergeStep, Holds;
    if ds != [] {
      AllHeldUnchanged(c, ds[..|ds| - 1]);
      HeldIsUnchanged(c, ds[|ds| - 1]);
    }
  }

  /** Merging the same source a second time returns an equal repository and counts every entry unchanged. */
  lemma MergingAgainChangesNothing(c: Components, source: Components, ds: seq<Definition>)
    requires Valid(c) && Lists(ds, source) && MergeAll(c, ds).Success?
    ensures var r := MergeAll(c, ds).value.0;
      MergeAll(r, ds) == Success((r, Stats(0, 0, |ds|)))
  {
    hide Valid, MergeStep, Holds;
    var r := MergeAll(c, ds).value.0;
    forall d | d in ds ensures Holds(r, d) {
      var i :| 0 <= i < |ds| && ds[i] == d;
      MergedAllHeld(c, ds, i);
    }
    AllHeldUnchanged(r, ds);
  }

  // ----- when a merge succeeds

  /** Semantic types that merge. */
  predicate Fits(a: string, b: string) {
    a == b || a == CUSTOM || b == CUSTOM
  }

  /** The target knows the object neither by alias nor by id. */
  predicate Absent(c: Components, d: Definition) {
    d.componentId !in c && d.objectId !in Ids(c)
  }

  predicate Targets(c: Components, d: Definition, n: string)
    requires DistinctIds(c)
  {
    CanonicalTarget(c, d) == Some(n)
  }

  /** What the definitions of every valid repository satisfy among each other. */
  ghost predicate Mergeable(ds: seq<Definition>) {
    && (forall d | d in ds :: Canonical(d.objectId).Some? && d.owner != Some(d.objectId))
    && (forall i, j | 0 <= i < j < |ds| ::
          ds[i].componentId != ds[j].componentId && Canonical(ds[i].objectId) != Canonical(ds[j].objectId))
  }

  lemma ListedMergeable(ds: seq<Definition>, source: Components)
    requires Valid(source) && Lists(ds, source)
    ensures Mergeable(ds)
  {
    hide Canonical, Graph;
    forall d | d in ds ensures Canonical(d.objectId).Some? && d.owner != Some(d.objectId) {
      GraphAt(source, d.componentId);
      if d.owner.Some? {
        RootedClosed(Graph(source), d.objectId);
      }
    }
    forall i, j | 0 <= i < j < |ds| ensures Canonical(ds[i].objectId) != Canonical(ds[j].objectId) {
      assert ds[i] in ds && ds[j] in ds;
    }
  }

  /** Everything merged into one entry, the entry included, is of pairwise fitting type. */
  ghost predicate TypesFit(c: Components, ds: seq<Definition>)
    requires DistinctIds(c)
  {
    && (forall d, n | d in ds && n in c && Targets(c, d, n) :: Fits(c[n].body.objectType, d.body.objectType))
    && (forall d, e, n | d in ds && e in ds && n in c && Targets(c, d, n) && Targets(c, e, n) ::
          Fits(d.body.objectType, e.body.objectType))
  }

  /** No object is added whose id the target has in another spelling. */
  ghost predicate NoSecondSpelling(c: Components, ds: seq<Definition>) {
    forall d, n | d in ds && Absent(c, d) && n in c :: Canonical(c[n].objectId) != Canonical(d.objectId)
  }

  /** An added object has no owner, one of the target's, or one that was added before it under its own id. */
  ghost predicate OwnerReached(c: Components, ds: seq<Definition>, i: nat)
    requires i < |ds|
  {
    || !Absent(c, ds[i]) || ds[i].owner.None? || ds[i].owner.value in Ids(c)
    || exists j | 0 <= j < i :: Absent(c, ds[j]) && ds[j].objectId == ds[i].owner.value
  }

  ghost predicate OwnersReached(c: Components, ds: seq<Definition>) {
    forall i | 0 <= i < |ds| :: OwnerReached(c, ds, i)
  }

  // ----- the repository in the middle of a merge

  /** The target's entries with their ids, and the added objects under their own aliases. */
  ghost predicate Shaped(c: Components, ds: seq<Definition>, r: Components) {
    && (forall n | n in c :: n in r && r[n].objectId == c[n].objectId)
    && (forall n | n in r && n !in c :: exists d :: d in ds && Absent(c, d) && d.componentId == n)
    && (forall d | d in ds && Absent(c, d) :: d.componentId in r && r[d.componentId] == Logical(d))
  }

  /** An entry's type fits what its old type and all that was merged into it fit. */
  ghost predicate Typed(c: Components, ds: seq<Definition>, r: Components, n: string)
    requires DistinctIds(c) && n in c && n in r
  {
    forall t :: Fits(r[n].body.objectType, t) <==>
      Fits(c[n].body.objectType, t) && forall d | d in ds && Targets(c, d, n) :: Fits(d.body.objectType, t)
  }

  /** What nothing was merged into is as it was. */
  ghost predicate Untouched(c: Components, ds: seq<Definition>, r: Components)
    requires DistinctIds(c)
  {
    forall n | n in c && n in r && (forall d | d in ds :: !Targets(c, d, n)) :: r[n] == c[n]
  }

  ghost predicate Merging(c: Components, ds: seq<Definition>, r: Components)
    requires DistinctIds(c)
  {
    Shaped(c, ds, r) && Untouched(c, ds, r) && forall n | n in c && n in r :: Typed(c, ds, r, n)
  }

  lemma AbsentHasNoTarget(c: Components, d: Definition)
    requires DistinctIds(c)
    ensures Absent(c, d) <==> CanonicalTarget(c, d).None?
  {
    hide Canonical;
  }

  lemma ShapedIds(c: Components, ds: seq<Definition>, r: Components, id: string)
    requires Shaped(c, ds, r)
    ensures id in Ids(r) <==> id in Ids(c) || exists j | 0 <= j < |ds| :: Absent(c, ds[j]) && ds[j].objectId == id
  {
    hide Absent;
    if id in Ids(c) {
      var n :| n in c && c[n].objectId == id;
      assert r[n].objectId == id;
    }
    if j :| 0 <= j < |ds| && Absent(c, ds[j]) && ds[j].objectId == id {
      assert r[ds[j].componentId].objectId == id;
    }
    if id in Ids(r) && id !in Ids(c) {
      var n :| n in r && r[n].objectId == id;
      var d :| d in ds && Absent(c, d) && d.componentId == n;
      var j :| 0 <= j < |ds| && ds[j] == d;
    }
  }

  /** A definition finds the same entry before and in the middle of a merge of other definitions. */
  lemma TargetStays(c: Components, ds: seq<Definition>, r: Components, d: Definition)
    requires DistinctIds(c) && Valid(c) && Valid(r) && Shaped(c, ds, r)
    requires forall e | e in ds :: e.componentId != d.componentId && e.objectId != d.objectId
    ensures CanonicalTarget(r, d) == CanonicalTarget(c, d)
  {
    hide Canonical, Graph;
    if n :| n in c && c[n].objectId == d.objectId {
      TargetById(c, n, d);
      TargetById(r, n, d);
    } else {
      ShapedIds(c, ds, r, d.objectId);
      assert d.objectId !in Ids(r);
      assert d.componentId in r <==> d.componentId in c;
    }
  }

  lemma LastApart(ds: seq<Definition>)
    requires Mergeable(ds) && ds != []
    ensures var init, last := ds[..|ds| - 1], ds[|ds| - 1];
      && Mergeable(init) && Canonical(last.objectId).Some? && last.owner != Some(last.objectId) && ds == init + [last]
      && forall e | e in init :: e.componentId != last.componentId && e.objectId != last.objectId
                                 && Canonical(e.objectId) != Canonical(last.objectId)
  {
    hide Canonical;
    assert ds[|ds| - 1] in ds;
  }

  /** An addition in the middle of a merge. */
  lemma AdditionAccepted(c: Components, init: seq<Definition>, r: Components, last: Definition)
    requires Valid(c) && Valid(r) && Shaped(c, init, r) && Absent(c, last) && CanonicalTarget(r, last).None?
    requires Canonical(last.objectId).Some? && forall e | e in init :: Canonical(e.objectId) != Canonical(last.objectId)
    ensures MergeStep(r, last).Success? <==>
      && (forall n | n in c :: Canonical(c[n].objectId) != Canonical(last.objectId))
      && (last.owner.None? || last.owner.value in Ids(r))
    ensures MergeStep(r, last).Success? ==> MergeStep(r, last).value.0 == r[last.componentId := Logical(last)]
  {
    hide Canonical, Graph;
    AbsentHasNoTarget(r, last);
    hide Valid;
    PutAcceptedIff(r, Logical(last));
    forall n | n in r && n !in c ensures Canonical(r[n].objectId) != Canonical(last.objectId) {
      var e :| e in init && Absent(c, e) && e.componentId == n;
    }
  }

  lemma FitsMerged(a: string, b: string, t: string)
    requires Fits(a, b)
    ensures Fits(if a == CUSTOM then b else a, t) <==> Fits(a, t) && Fits(b, t)
  {
  }

  /** The merge of one definition into an entry in the middle of a merge. */
  lemma MergeAccepted(r: Components, last: Definition, n: string)
    requires Valid(r) && n in r && CanonicalTarget(r, last) == Some(n)
    ensures MergeStep(r, last).Success? <==> Fits(r[n].body.objectType, last.body.objectType)
    ensures MergeStep(r, last).Success? ==>
      var next := MergeStep(r, last).value.0;
      && next.Keys == r.Keys && (forall m | m in r && m != n :: next[m] == r[m])
      && next[n].objectId == r[n].objectId
      && forall t :: Fits(next[n].body.objectType, t) <==> Fits(r[n].body.objectType, t) && Fits(last.body.objectType, t)
  {
    hide Canonical, Graph, Valid, BodyChanges, MergedBody;
    var merged := MergeDefinition(r[n], Logical(last));
    if merged.Some? {
      MergeResult(r[n], Logical(last));
      MergeJoins(r[n], Logical(last));
      forall t ensures Fits(merged.value.body.objectType, t) <==> Fits(r[n].body.objectType, t) && Fits(last.body.objectType, t) {
        FitsMerged(r[n].body.objectType, last.body.objectType, t);
      }
    }
  }

  // ----- one more definition

  lemma TypesFitStep(c: Components, init: seq<Definition>, last: Definition)
    requires Valid(c)
    ensures TypesFit(c, init + [last]) <==>
      && TypesFit(c, init)
      && forall n | n in c && Targets(c, last, n) ::
           Fits(c[n].body.objectType, last.body.objectType)
           && forall d | d in init && Targets(c, d, n) :: Fits(d.body.objectType, last.body.objectType)
  {
    hide Targets, CanonicalTarget, Canonical, Graph, Identified, Rooted;
    var ds := init + [last];
    assert forall d :: d in ds <==> d in init || d == last;
  }

  lemma NoSecondSpellingStep(c: Components, init: seq<Definition>, last: Definition)
    ensures NoSecondSpelling(c, init + [last]) <==>
      NoSecondSpelling(c, init) && (Absent(c, last) ==> forall n | n in c :: Canonical(c[n].objectId) != Canonical(last.objectId))
  {
    hide Canonical, Absent;
    assert forall d :: d in init + [last] <==> d in init || d == last;
  }

  lemma OwnersReachedStep(c: Components, init: seq<Definition>, last: Definition)
    ensures OwnersReached(c, init + [last]) <==> OwnersReached(c, init) && OwnerReached(c, init + [last], |init|)
  {
    hide Absent;
    var ds := init + [last];
    forall i | 0 <= i < |init| ensures OwnerReached(c, init, i) <==> OwnerReached(c, ds, i) {
      assert forall j | 0 <= j < i :: init[j] == ds[j];
    }
  }

  lemma LastOwnerReached(c: Components, init: seq<Definition>, last: Definition, r: Components)
    requires Shaped(c, init, r) && Absent(c, last)
    ensures OwnerReached(c, init + [last], |init|) <==> last.owner.None? || last.owner.value in Ids(r)
  {
    hide Absent, Shaped;
    var ds := init + [last];
    assert forall j | 0 <= j < |init| :: init[j] == ds[j];
    if last.owner.Some? {
      ShapedIds(c, init, r, last.owner.value);
    }
  }

  lemma MergingAfterAddition(c: Components, init: seq<Definition>, last: Definition, r: Components)
    requires DistinctIds(c) && Merging(c, init, r) && Absent(c, last)
    requires forall e | e in init :: e.componentId != last.componentId
    ensures Merging(c, init + [last], r[last.componentId := Logical(last)])
  {
    hide Canonical, CanonicalTarget, Fits, Merging, Logical, Shaped, Typed, Untouched;
    var ds, next := init + [last], r[last.componentId := Logical(last)];
    AbsentHasNoTarget(c, last);
    assert forall d :: d in ds <==> d in init || d == last;
    assert Shaped(c, init, r) && Untouched(c, init, r) && forall n | n in c && n in r :: Typed(c, init, r, n) by {
      MergingParts(c, init, r);
    }
    ShapedAfterAddition(c, init, last, r);
    forall n | n in c && n in next ensures n in r && next[n] == r[n] && Typed(c, ds, next, n) {
      EntryIn(c, init, r, n);
      TypedAlike(c, init, r, ds, next, n);
    }
    UntouchedAlike(c, init, r, ds, next);
    MergingParts(c, ds, next);
  }

  lemma MergingParts(c: Components, ds: seq<Definition>, r: Components)
    requires DistinctIds(c)
    ensures Merging(c, ds, r) <==> Shaped(c, ds, r) && Untouched(c, ds, r) && forall n | n in c && n in r :: Typed(c, ds, r, n)
  {
  }

  lemma EntryIn(c: Components, ds: seq<Definition>, r: Components, n: string)
    requires Shaped(c, ds, r) && n in c
    ensures n in r
  {
  }

  lemma ShapedAfterAddition(c: Components, init: seq<Definition>, last: Definition, r: Components)
    requires Shaped(c, init, r) && Absent(c, last) && forall e | e in init :: e.componentId != last.componentId
    ensures Shaped(c, init + [last], r[last.componentId := Logical(last)])
  {
    hide Logical, Ids;
    assert forall d :: d in init + [last] <==> d in init || d == last;
  }

  /** Definitions that go into other entries leave the typing of this one alone. */
  lemma TypedAlike(c: Components, init: seq<Definition>, r: Components, ds: seq<Definition>, next: Components, n: string)
    requires DistinctIds(c) && n in c && n in r && n in next && Typed(c, init, r, n) && next[n] == r[n]
    requires forall d | Targets(c, d, n) :: d in ds <==> d in init
    ensures Typed(c, ds, next, n)
  {
    hide Canonical, CanonicalTarget, Fits, Targets;
  }

  lemma UntouchedAlike(c: Components, init: seq<Definition>, r: Components, ds: seq<Definition>, next: Components)
    requires DistinctIds(c) && Untouched(c, init, r) && forall d | d in init :: d in ds
    requires forall n | n in c && n in next && (forall d | d in ds :: !Targets(c, d, n)) :: n in r && next[n] == r[n]
    ensures Untouched(c, ds, next)
  {
    hide Canonical, CanonicalTarget, Targets;
  }

  lemma MergingAfterMerge(c: Components, init: seq<Definition>, last: Definition, r: Components, next: Components, n: string)
    requires DistinctIds(c) && Merging(c, init, r) && n in c && n in r && Targets(c, last, n)
    requires next.Keys == r.Keys && (forall m | m in r && m != n :: next[m] == r[m]) && next[n].objectId == r[n].objectId
    requires forall t :: Fits(next[n].body.objectType, t) <==> Fits(r[n].body.objectType, t) && Fits(last.body.objectType, t)
    ensures Merging(c, init + [last], next)
  {
    hide Canonical, CanonicalTarget, Fits, Merging, Shaped, Typed, Untouched;
    var ds := init + [last];
    AbsentHasNoTarget(c, last);
    assert forall d :: d in ds <==> d in init || d == last;
    assert Shaped(c, init, r) && Untouched(c, init, r) && forall m | m in c && m in r :: Typed(c, init, r, m) by {
      MergingParts(c, init, r);
    }
    ShapedAfterMerge(c, init, last, r, next, n);
    forall m | m in c && m in next ensures Typed(c, ds, next, m) {
      if m == n {
        TypedAfterMerge(c, init, last, r, next, n);
      } else {
        TypedAlike(c, init, r, ds, next, m);
      }
    }
    UntouchedAlike(c, init, r, ds, next);
    MergingParts(c, ds, next);
  }

  lemma ShapedAfterMerge(c: Components, init: seq<Definition>, last: Definition, r: Components, next: Components, n: string)
    requires Shaped(c, init, r) && n in c && !Absent(c, last)
    requires next.Keys == r.Keys && n in r && (forall m | m in r && m != n :: next[m] == r[m]) && next[n].objectId == r[n].objectId
    ensures Shaped(c, init + [last], next)
  {
    hide Logical, Ids;
    assert forall d :: d in init + [last] <==> d in init || d == last;
  }

  lemma TypedAfterMerge(c: Components, init: seq<Definition>, last: Definition, r: Components, next: Components, n: string)
    requires DistinctIds(c) && n in c && n in r && n in next && Typed(c, init, r, n) && Targets(c, last, n)
    requires forall t :: Fits(next[n].body.objectType, t) <==> Fits(r[n].body.objectType, t) && Fits(last.body.objectType, t)
    ensures Typed(c, init + [last], next, n)
  {
    hide Canonical, CanonicalTarget, Fits, Targets;
    assert forall d :: d in init + [last] <==> d in init || d == last;
  }

  /**
   When a merge succeeds, for the definitions of any valid source: exactly when everything that meets in one
   entry is of fitting type, no added id is the target's in another spelling, and every added object's owner
   is in the target or was added before it. An owner that was merged into an entry of another id is neither.
   */
  lemma {:induction false} MergeSucceedsIff(c: Components, ds: seq<Definition>)
    requires Valid(c) && Mergeable(ds)
    ensures MergeAll(c, ds).Success? <==> TypesFit(c, ds) && NoSecondSpelling(c, ds) && OwnersReached(c, ds)
    ensures MergeAll(c, ds).Success? ==> Merging(c, ds, MergeAll(c, ds).value.0)
    decreases |ds|
  {
    hide Canonical, Graph, Valid, CanonicalTarget, MergeStep, Shaped, Untouched, Typed, Fits, Mergeable,
         TypesFit, NoSecondSpelling, OwnersReached, OwnerReached, Absent, Ids, Logical;
    if ds == [] {
      NothingMerged(c);
    } else {
      var init, last := ds[..|ds| - 1], ds[|ds| - 1];
      LastApart(ds);
      MergeSucceedsIff(c, init);
      TypesFitStep(c, init, last);
      NoSecondSpellingStep(c, init, last);
      OwnersReachedStep(c, init, last);
      if MergeAll(c, init).Success? {
        LastMerged(c, init, last, MergeAll(c, init).value.0);
      }
    }
  }

  lemma NothingMerged(c: Components)
    requires Valid(c)
    ensures TypesFit(c, []) && NoSecondSpelling(c, []) && OwnersReached(c, []) && Merging(c, [], c)
  {
    hide Canonical, Graph, Ids, Rooted;
  }

  lemma LastMerged(c: Components, init: seq<Definition>, last: Definition, r: Components)
    requires Valid(c) && Valid(r) && Merging(c, init, r) && Canonical(last.objectId).Some?
    requires forall e | e in init :: e.componentId != last.componentId && e.objectId != last.objectId
                                     && Canonical(e.objectId) != Canonical(last.objectId)
    ensures MergeStep(r, last).Success? <==>
      && (forall n | n in c && Targets(c, last, n) ::
            Fits(c[n].body.objectType, last.body.objectType)
            && forall d | d in init && Targets(c, d, n) :: Fits(d.body.objectType, last.body.objectType))
      && (Absent(c, last) ==> forall n | n in c :: Canonical(c[n].objectId) != Canonical(last.objectId))
      && OwnerReached(c, init + [last], |init|)
    ensures MergeStep(r, last).Success? ==> Merging(c, init + [last], MergeStep(r, last).value.0)
  {
    hide Canonical, Graph, CanonicalTarget, MergeStep, Fits, Ids, Logical, Rooted;
    TargetStays(c, init, r, last);
    AbsentHasNoTarget(c, last);
    if Absent(c, last) {
      hide Absent, OwnerReached;
      AdditionAccepted(c, init, r, last);
      LastOwnerReached(c, init, last, r);
      MergingAfterAddition(c, init, last, r);
    } else {
      var n := CanonicalTarget(c, last).value;
      MergeAccepted(r, last, n);
      assert Typed(c, init, r, n);
      if MergeStep(r, last).Success? {
        MergingAfterMerge(c, init, last, r, MergeStep(r, last).value.0, n);
      }
    }
  }

  /**
   An added object whose owner meets the target by alias only is refused in every order: the owner was merged
   into that alias, and its own id is nowhere.
   */
  lemma AliasMatchedOwnerRefused(c: Components, ds: seq<Definition>, i: nat, j: nat)
    requires Valid(c) && Mergeable(ds) && i < |ds| && j < |ds|
    requires ds[j].componentId in c && ds[j].objectId !in Ids(c)
    requires Absent(c, ds[i]) && ds[i].owner == Some(ds[j].objectId)
    ensures MergeAll(c, ds).Failure?
  {
    hide Canonical, Graph, MergeAll;
    MergeSucceedsIff(c, ds);
    assert !OwnerReached(c, ds, i) by {
      forall k | 0 <= k < i && ds[k].objectId == ds[j].objectId ensures k == j {}
    }
  }

  function Panel(body: Body): Definition {
    Definition("Panel", SampleId('b'), None, body)
  }

  function Save(body: Body): Definition {
    Definition("Panel.Save", SampleId('c'), Some(SampleId('b')), body)
  }

  lemma PanelSource(body: Body)
    ensures var source: Components := map["Panel" := Panel(body), "Panel.Save" := Save(body)];
      Valid(source) && Lists([Panel(body), Save(body)], source) && Lists([Save(body), Panel(body)], source)
  {
    hide Canonical, SampleId, Graph;
    SampleIdSpellings('b');
    SampleIdSpellings('c');
    var source: Components := map["Panel" := Panel(body), "Panel.Save" := Save(body)];
    assert source["Panel"] == Panel(body) && source["Panel.Save"] == Save(body);
    GraphAt(source, "Panel");
    GraphAt(source, "Panel.Save");
    var g := Graph(source);
    assert EndsIn(g, Some(SampleId('b')), 1) && EndsIn(g, Some(SampleId('c')), 2);
    forall id | id in g ensures Ends(g, Some(id)) {
      var n := NameOf(source, id);
    }
  }

  /** Such an owner in a valid source: "Panel" is known under another id, and its child is refused in both orders. */
  lemma AliasMatchedOwnerOccurs(body: Body)
    ensures var c := Alone("Panel", SampleId('a'), body);
      var source: Components := map["Panel" := Panel(body), "Panel.Save" := Save(body)];
      && Valid(c) && Valid(source)
      && Lists([Panel(body), Save(body)], source) && MergeAll(c, [Panel(body), Save(body)]).Failure?
      && Lists([Save(body), Panel(body)], source) && MergeAll(c, [Save(body), Panel(body)]).Failure?
  {
    hide Canonical, SampleId, Graph, MergeAll, Lists, Mergeable, Rooted, Identified;
    SampleIdSpellings('a');
    SampleIdSpellings('b');
    SampleIdSpellings('c');
    var c := Alone("Panel", SampleId('a'), body);
    var source: Components := map["Panel" := Panel(body), "Panel.Save" := Save(body)];
    AloneValid("Panel", SampleId('a'), body);
    PanelSource(body);
    ListedMergeable([Panel(body), Save(body)], source);
    ListedMergeable([Save(body), Panel(body)], source);
    AliasMatchedOwnerRefused(c, [Panel(body), Save(body)], 1, 0);
    AliasMatchedOwnerRefused(c, [Save(body), Panel(body)], 0, 1);
  }

  // ----- merging new objects only

  /** Objects the target knows neither by alias nor by id, and that differ among each other in both. */
  ghost predicate AllNew(c: Components, ds: seq<Definition>) {
    && Mergeable(ds)
    && (forall d | d in ds :: d.componentId !in c)
    && (forall d, n | d in ds && n in c :: Canonical(c[n].objectId) != Canonical(d.objectId))
  }

  /** The owner of every object is in the target or comes earlier in the order. */
  ghost predicate InOwnerOrder(c: Components, ds: seq<Definition>) {
    forall i | 0 <= i < |ds| ::
      ds[i].owner.None? || ds[i].owner.value in Ids(c) || exists j | 0 <= j < i :: ds[j].objectId == ds[i].owner.value
  }

  /**
   For a source of new objects only, owner order is the whole condition: a child whose alias sorts before
   its absent owner's is refused. The target then keeps its entries as they are.
   */
  lemma NewObjectsMergeInOwnerOrder(c: Components, ds: seq<Definition>)
    requires Valid(c) && AllNew(c, ds)
    ensures MergeAll(c, ds).Success? <==> InOwnerOrder(c, ds)
    ensures MergeAll(c, ds).Success? ==>
      var r := MergeAll(c, ds).value.0;
      && (forall n | n in r :: n in c || exists d :: d in ds && d.componentId == n)
      && (forall n | n in c :: n in r && r[n] == c[n])
      && (forall d | d in ds :: d.componentId in r && r[d.componentId] == Logical(d))
  {
    hide Canonical, Graph, MergeAll, Mergeable, CanonicalTarget, Logical;
    MergeSucceedsIff(c, ds);
    forall d | d in ds ensures Absent(c, d) && forall n :: !Targets(c, d, n) {
      AbsentHasNoTarget(c, d);
    }
    forall i | 0 <= i < |ds| ensures Absent(c, ds[i]) {}
    assert TypesFit(c, ds);
    forall i | 0 <= i < |ds|
      ensures OwnerReached(c, ds, i) <==>
        ds[i].owner.None? || ds[i].owner.value in Ids(c) || exists j | 0 <= j < i :: ds[j].objectId == ds[i].owner.value
    {
      NewOwnerReached(c, ds, i);
    }
  }

  lemma NewOwnerReached(c: Components, ds: seq<Definition>, i: nat)
    requires i < |ds| && forall j | 0 <= j < |ds| :: Absent(c, ds[j])
    ensures OwnerReached(c, ds, i) <==>
      ds[i].owner.None? || ds[i].owner.value in Ids(c) || exists j | 0 <= j < i :: ds[j].objectId == ds[i].owner.value
  {
    hide Absent, Ids;
  }
}
