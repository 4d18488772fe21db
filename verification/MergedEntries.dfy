/** What a whole merge makes of each entry, field by field, from the target's entry and the sources that go into it. */
module MergedEntries {
  import opened Outcomes
  import Values
  import opened Text
  import opened Ownership
  import opened ComponentRepository
  import opened RepositoryMerge

  // ----- which sources go into an entry

  /** A source goes into the entry with its id; failing that, into the entry under its alias. */
  lemma TargetsIff(c: Components, d: Definition, n: string)
    requires Valid(c)
    ensures Targets(c, d, n) <==>
      n in c && (c[n].objectId == d.objectId || (n == d.componentId && forall m | m in c :: c[m].objectId != d.objectId))
  {
    hide Canonical, Graph, Rooted;
    if m :| m in c && c[m].objectId == d.objectId {
      TargetById(c, m, d);
    }
  }

  /** The sources that go into an entry, in order. */
  ghost function Into(c: Components, ds: seq<Definition>, n: string): seq<Definition>
    requires DistinctIds(c)
  {
    if ds == [] then []
    else
      var before, last := Into(c, ds[..|ds| - 1], n), ds[|ds| - 1];
      if Targets(c, last, n) then before + [last] else before
  }

  /** The target's entry after merging these sources into it one by one. */
  function Folded(t: Definition, ss: seq<Definition>): Definition {
    if ss == [] then t
    else
      var before := Folded(t, ss[..|ss| - 1]);
      var merged := MergeDefinition(before, Logical(ss[|ss| - 1]));
      if merged.None? then before else merged.value
  }

  /** None of the merges into the entry fails. */
  predicate Foldable(t: Definition, ss: seq<Definition>) {
    ss == [] ||
    (Foldable(t, ss[..|ss| - 1]) && MergeDefinition(Folded(t, ss[..|ss| - 1]), Logical(ss[|ss| - 1])).Some?)
  }

  lemma StepInto(r: Components, d: Definition, n: string)
    requires Valid(r) && MergeStep(r, d).Success? && n in r
    ensures n in MergeStep(r, d).value.0
    ensures if CanonicalTarget(r, d) == Some(n)
            then MergeDefinition(r[n], Logical(d)) == Some(MergeStep(r, d).value.0[n])
            else MergeStep(r, d).value.0[n] == r[n]
  {
    hide Canonical, Graph, MergeDefinition, Rooted, KeysMatch, IdsParse;
    if CanonicalTarget(r, d).None? {
      AbsentHasNoTarget(r, d);
    }
  }

  /** Each entry of the target is merged with exactly the sources that go into it. */
  lemma {:induction false} EntryIsFolded(c: Components, ds: seq<Definition>, n: string)
    requires Valid(c) && Mergeable(ds) && MergeAll(c, ds).Success? && n in c
    ensures n in MergeAll(c, ds).value.0
    ensures Foldable(c[n], Into(c, ds, n)) && MergeAll(c, ds).value.0[n] == Folded(c[n], Into(c, ds, n))
    decreases |ds|
  {
    hide Canonical, Graph, CanonicalTarget, MergeStep, MergeDefinition, Mergeable, Logical, Typed, Untouched, Rooted, KeysMatch, IdsParse,
         DistinctIds;
    if ds != [] {
      var init, last := ds[..|ds| - 1], ds[|ds| - 1];
      LastApart(ds);
      EntryIsFolded(c, init, n);
      MergeSucceedsIff(c, init);
      var r := MergeAll(c, init).value.0;
      TargetStays(c, init, r, last);
      StepInto(r, last, n);
      var before := Into(c, init, n);
      assert (before + [last])[..|before|] == before;
    }
  }

  // ----- layers

  /** The first layer that has a key decides its value, and there is nothing else. */
  ghost predicate FirstWins<V(!new)>(m: map<string, V>, layers: seq<map<string, V>>) {
    && (forall k :: k in m <==> exists i :: 0 <= i < |layers| && k in layers[i])
    && forall i, k | 0 <= i < |layers| && k in layers[i] && (forall j | 0 <= j < i :: k !in layers[j]) :: m[k] == layers[i][k]
  }

  lemma FirstWinsStep<V(!new)>(m: map<string, V>, layers: seq<map<string, V>>, s: map<string, V>, next: map<string, V>)
    requires FirstWins(m, layers) && Joins(next, m, s)
    ensures FirstWins(next, layers + [s])
  {
    var more := layers + [s];
    forall k ensures k in next <==> exists i :: 0 <= i < |more| && k in more[i] {
      if k in m {
        var i :| 0 <= i < |layers| && k in layers[i];
        assert k in more[i];
      }
      if k in s {
        assert k in more[|layers|];
      }
    }
    forall i, k | 0 <= i < |more| && k in more[i] && (forall j | 0 <= j < i :: k !in more[j]) ensures next[k] == more[i][k] {
      if i < |layers| {
        assert forall j | 0 <= j < i :: layers[j] == more[j];
        assert k in m && m[k] == layers[i][k];
      } else {
        assert forall j | 0 <= j < |layers| :: layers[j] == more[j];
        assert k !in m;
      }
    }
  }

  lemma FirstWinsAlone<V(!new)>(m: map<string, V>)
    ensures FirstWins(m, [m])
  {
    assert forall k | k in m :: k in [m][0];
  }

  type Picture = Option<map<string, Values.Value>>

  predicate Blank(picture: Picture) {
    picture == None || picture == Some(map[])
  }

  /** The first visual that shows anything is shown; otherwise none is. */
  predicate FirstShown(m: Picture, layers: seq<Picture>) {
    && (!Blank(m) <==> exists i | 0 <= i < |layers| :: !Blank(layers[i]))
    && forall i | 0 <= i < |layers| && !Blank(layers[i]) && (forall j | 0 <= j < i :: Blank(layers[j])) :: m == layers[i]
  }

  lemma FirstShownStep(m: Picture, layers: seq<Picture>, s: Picture, next: Picture)
    requires FirstShown(m, layers)
    requires !Blank(m) ==> next == m
    requires Blank(m) ==> if !Blank(s) then next == s else Blank(next)
    ensures FirstShown(next, layers + [s])
  {
    var more := layers + [s];
    assert forall j | 0 <= j < |layers| :: layers[j] == more[j];
    assert more[|layers|] == s;
    assert (exists i | 0 <= i < |more| :: !Blank(more[i])) <==> (exists i | 0 <= i < |layers| :: !Blank(layers[i])) || !Blank(s);
  }

  /**
   Every strategy of the layers once, in the order of first occurrence: `places` says where each is found, the
   first `own` of them being the target's.
   */
  ghost predicate InOrderOnce(m: seq<Strategy>, all: seq<Strategy>, own: nat, places: seq<nat>) {
    && |places| == |m| && own <= |m| && (forall x | x in all :: x in m)
    && (forall i | 0 <= i < |m| :: places[i] < |all| && all[places[i]] == m[i])
    && (forall i, j | 0 <= i < j < |m| :: places[i] < places[j])
    && (forall i | 0 <= i < own :: places[i] == i)
    && (forall i, q | own <= i < |m| && 0 <= q < places[i] :: all[q] != m[i])
  }

  lemma {:induction false} InOrderStep(m: seq<Strategy>, all: seq<Strategy>, own: nat, places: seq<nat>, s: seq<Strategy>)
      returns (more: seq<nat>)
    requires InOrderOnce(m, all, own, places)
    ensures InOrderOnce(AppendNew(m, s), all + s, own, more)
    decreases |s|
  {
    if s == [] {
      more := places;
      assert all + s == all;
    } else {
      var x := s[0];
      assert all + s == (all + [x]) + s[1..];
      if x in m {
        OldStrategy(m, all, own, places, x);
        more := InOrderStep(m, all + [x], own, places, s[1..]);
      } else {
        NewStrategy(m, all, own, places, x);
        more := InOrderStep(m + [x], all + [x], own, places + [|all|], s[1..]);
      }
    }
  }

  lemma OldStrategy(m: seq<Strategy>, all: seq<Strategy>, own: nat, places: seq<nat>, x: Strategy)
    requires InOrderOnce(m, all, own, places) && x in m
    ensures InOrderOnce(m, all + [x], own, places)
  {
    assert forall q | 0 <= q < |all| :: (all + [x])[q] == all[q];
  }

  lemma NewStrategy(m: seq<Strategy>, all: seq<Strategy>, own: nat, places: seq<nat>, x: Strategy)
    requires InOrderOnce(m, all, own, places) && x !in m
    ensures InOrderOnce(m + [x], all + [x], own, places + [|all|])
  {
    assert forall q | 0 <= q < |all| :: (all + [x])[q] == all[q] && all[q] in all;
  }

  function Strategies(layers: seq<Body>): seq<Strategy> {
    if layers == [] then [] else Strategies(layers[..|layers| - 1]) + layers[|layers| - 1].strategies
  }

  /** All of the layers' strategies, once each, the first layer's own before the others'. */
  ghost predicate StrategiesInOrder(m: Body, layers: seq<Body>) {
    |layers| > 0 && exists places :: InOrderOnce(m.strategies, Strategies(layers), |layers[0].strategies|, places)
  }

  // ----- a whole entry

  function Layers(t: Body, ss: seq<Definition>): (layers: seq<Body>)
    ensures |layers| == |ss| + 1 && layers[0] == t && forall i | 0 <= i < |ss| :: layers[i + 1] == ss[i].body
  {
    [t] + seq(|ss|, i requires 0 <= i < |ss| => ss[i].body)
  }

  function Each<V>(layers: seq<Body>, field: Body -> V): (values: seq<V>)
    ensures |values| == |layers| && forall i | 0 <= i < |layers| :: values[i] == field(layers[i])
  {
    seq(|layers|, i requires 0 <= i < |layers| => field(layers[i]))
  }

  /** What the first layer and those merged into it come to, but for description and revision. */
  ghost predicate Layered(m: Body, layers: seq<Body>) {
    && StrategiesInOrder(m, layers)
    && (forall x :: x in m.actions <==> exists i :: 0 <= i < |layers| && x in layers[i].actions)
    && FirstWins(m.properties, Each(layers, (b: Body) => b.properties))
    && FirstWins(m.subobjects, Each(layers, (b: Body) => b.subobjects))
    && FirstWins(m.expectedStates, Each(layers, (b: Body) => b.expectedStates))
    && FirstWins(m.actionCompletion, Each(layers, (b: Body) => b.actionCompletion))
    && FirstWins(m.scope, Each(layers, (b: Body) => b.scope))
    && FirstShown(m.visual, Each(layers, (b: Body) => b.visual))
    && (m.objectType == "custom" <==> forall i | 0 <= i < |layers| :: layers[i].objectType == "custom")
    && (forall i | 0 <= i < |layers| && layers[i].objectType != "custom" :: m.objectType == layers[i].objectType)
    && (|layers| > 1 ==> m.framework.None? && m.nativeClass.None?)
  }

  lemma LayeredAlone(t: Body)
    ensures Layered(t, [t])
  {
    FirstWinsAlone(t.properties);
    FirstWinsAlone(t.subobjects);
    FirstWinsAlone(t.expectedStates);
    FirstWinsAlone(t.actionCompletion);
    FirstWinsAlone(t.scope);
    EachAlone(t, (b: Body) => b.properties);
    EachAlone(t, (b: Body) => b.subobjects);
    EachAlone(t, (b: Body) => b.expectedStates);
    EachAlone(t, (b: Body) => b.actionCompletion);
    EachAlone(t, (b: Body) => b.scope);
    EachAlone(t, (b: Body) => b.visual);
    StrategiesAlone(t);
    hide FirstWins, StrategiesInOrder;
    assert [t][0] == t;
  }

  lemma EachAlone<V>(t: Body, field: Body -> V)
    ensures Each([t], field) == [field(t)]
  {
  }

  lemma StrategiesAlone(t: Body)
    ensures StrategiesInOrder(t, [t])
  {
    assert Strategies([t]) == t.strategies;
    assert InOrderOnce(t.strategies, t.strategies, |t.strategies|, seq(|t.strategies|, i => i));
  }

  lemma EachMore<V>(layers: seq<Body>, s: Body, field: Body -> V)
    ensures Each(layers + [s], field) == Each(layers, field) + [field(s)]
  {
  }

  lemma StrategiesStep(m: Body, layers: seq<Body>, s: Body, next: Body)
    requires StrategiesInOrder(m, layers) && next.strategies == AppendNew(m.strategies, s.strategies)
    ensures StrategiesInOrder(next, layers + [s])
  {
    var own := |layers[0].strategies|;
    var places :| InOrderOnce(m.strategies, Strategies(layers), own, places);
    var more := InOrderStep(m.strategies, Strategies(layers), own, places, s.strategies);
    assert (layers + [s])[..|layers|] == layers;
    assert Strategies(layers + [s]) == Strategies(layers) + s.strategies;
  }

  lemma LayeredStep(m: Body, layers: seq<Body>, s: Body, next: Body)
    requires Layered(m, layers) && Joined(next, m, s) && next.strategies == AppendNew(m.strategies, s.strategies)
    requires !Blank(m.visual) ==> next.visual == m.visual
    requires Blank(m.visual) ==> if !Blank(s.visual) then next.visual == s.visual else Blank(next.visual)
    requires Fits(m.objectType, s.objectType)
    ensures Layered(next, layers + [s])
  {
    hide FirstWins, Joins, FirstShown, StrategiesInOrder, AppendNew;
    var more := layers + [s];
    StrategiesStep(m, layers, s, next);
    EachMore(layers, s, (b: Body) => b.properties);
    EachMore(layers, s, (b: Body) => b.subobjects);
    EachMore(layers, s, (b: Body) => b.expectedStates);
    EachMore(layers, s, (b: Body) => b.actionCompletion);
    EachMore(layers, s, (b: Body) => b.scope);
    EachMore(layers, s, (b: Body) => b.visual);
    FirstWinsStep(m.properties, Each(layers, (b: Body) => b.properties), s.properties, next.properties);
    FirstWinsStep(m.subobjects, Each(layers, (b: Body) => b.subobjects), s.subobjects, next.subobjects);
    FirstWinsStep(m.expectedStates, Each(layers, (b: Body) => b.expectedStates), s.expectedStates, next.expectedStates);
    FirstWinsStep(m.actionCompletion, Each(layers, (b: Body) => b.actionCompletion), s.actionCompletion, next.actionCompletion);
    FirstWinsStep(m.scope, Each(layers, (b: Body) => b.scope), s.scope, next.scope);
    FirstShownStep(m.visual, Each(layers, (b: Body) => b.visual), s.visual, next.visual);
    ActionsStep(m, layers, s, next);
    TypeStep(m, layers, s, next);
  }

  lemma ActionsStep(m: Body, layers: seq<Body>, s: Body, next: Body)
    requires forall x :: x in m.actions <==> exists i :: 0 <= i < |layers| && x in layers[i].actions
    requires next.actions == m.actions + s.actions
    ensures forall x :: x in next.actions <==> exists i :: 0 <= i < |layers + [s]| && x in (layers + [s])[i].actions
  {
    var more := layers + [s];
    forall x ensures x in next.actions <==> exists i :: 0 <= i < |more| && x in more[i].actions {
      if x in m.actions {
        var i :| 0 <= i < |layers| && x in layers[i].actions;
        assert x in more[i].actions;
      }
      if x in s.actions {
        assert x in more[|layers|].actions;
      }
    }
  }

  lemma TypeStep(m: Body, layers: seq<Body>, s: Body, next: Body)
    requires m.objectType == "custom" <==> forall i | 0 <= i < |layers| :: layers[i].objectType == "custom"
    requires forall i | 0 <= i < |layers| && layers[i].objectType != "custom" :: m.objectType == layers[i].objectType
    requires Fits(m.objectType, s.objectType)
    requires next.objectType == if m.objectType == "custom" then s.objectType else m.objectType
    ensures next.objectType == "custom" <==> forall i | 0 <= i < |layers + [s]| :: (layers + [s])[i].objectType == "custom"
    ensures forall i | 0 <= i < |layers + [s]| && (layers + [s])[i].objectType != "custom" :: next.objectType == (layers + [s])[i].objectType
  {
    var more := layers + [s];
    assert more[|layers|] == s && forall i | 0 <= i < |layers| :: more[i] == layers[i];
  }

  // ----- descriptions, revisions

  /** The non-empty ones of two descriptions, once. */
  predicate Told(parts: seq<string>, a: string, b: string) {
    parts == (if a == "" then [] else [a]) + if b == "" || b == a then [] else [b]
  }

  /** One merge, where it changes the entry: the new description, and the least revision above both. */
  lemma ChangedEntry(t: Definition, s: Definition)
    requires MergeDefinition(t, s).Some? && MergeDefinition(t, s).value != t
    ensures var m := MergeDefinition(t, s).value;
      && (forall parts | Told(parts, t.body.description, s.body.description) :: m.body.description == Join(parts, " / "))
      && m.body.revision > t.body.revision && m.body.revision > s.body.revision
      && (m.body.revision == t.body.revision + 1 || m.body.revision == s.body.revision + 1)
  {
    var (a, b) := (t.body.description, s.body.description);
    assert [a, b][1..] == [b];
    hide BodyChanges;
    assert Join([a, b], " / ") == a + " / " + b;
    forall parts | Told(parts, a, b) ensures JoinDescriptions(a, b) == Join(parts, " / ") {
      if a != "" && b != "" && b != a {
        assert parts == [a, b];
      }
    }
  }

  lemma MergedVisual(t: Definition, s: Definition)
    requires MergeDefinition(t, s).Some?
    ensures var m := MergeDefinition(t, s).value;
      && (!Blank(t.body.visual) ==> m.body.visual == t.body.visual)
      && (Blank(t.body.visual) ==> if !Blank(s.body.visual) then m.body.visual == s.body.visual else Blank(m.body.visual))
      && m.body.strategies == AppendNew(t.body.strategies, s.body.strategies)
      && t.body.description <= m.body.description && Fits(t.body.objectType, s.body.objectType)
  {
    AppendNewContents(t.body.strategies, s.body.strategies);
  }

  lemma MergeKeepsIdentity(t: Definition, s: Definition)
    requires MergeDefinition(t, s).Some?
    ensures var m := MergeDefinition(t, s).value;
      m.componentId == t.componentId && m.objectId == t.objectId && m.owner == t.owner && (m == t <==> Absorbed(t.body, s.body))
  {
    MergeResult(t, s);
  }

  /** A whole entry. */
  ghost predicate EntryMerged(m: Definition, t: Definition, ss: seq<Definition>) {
    && m.componentId == t.componentId && m.objectId == t.objectId && m.owner == t.owner
    && Layered(m.body, Layers(t.body, ss))
    && t.body.description <= m.body.description
    && m.body.revision >= t.body.revision
    && (m == t || m.body.revision > t.body.revision)
  }

  lemma {:induction false} FoldedLayers(t: Definition, ss: seq<Definition>)
    requires Foldable(t, ss)
    ensures EntryMerged(Folded(t, ss), t, ss)
    decreases |ss|
  {
    hide EntryMerged, MergeDefinition;
    if ss == [] {
      EntryAlone(t);
    } else {
      var (init, last) := (ss[..|ss| - 1], ss[|ss| - 1]);
      FoldedLayers(t, init);
      EntryMergedStep(Folded(t, init), t, init, last);
      assert ss == init + [last];
    }
  }

  lemma EntryAlone(t: Definition)
    ensures EntryMerged(t, t, [])
  {
    hide Layered;
    LayeredAlone(t.body);
    assert Layers(t.body, []) == [t.body];
  }

  lemma EntryMergedStep(m: Definition, t: Definition, ss: seq<Definition>, last: Definition)
    requires EntryMerged(m, t, ss) && MergeDefinition(m, Logical(last)).Some?
    ensures EntryMerged(MergeDefinition(m, Logical(last)).value, t, ss + [last])
  {
    hide Layered, MergeDefinition;
    var s := Logical(last);
    var next := MergeDefinition(m, s).value;
    MergeKeepsIdentity(m, s);
    MergedVisual(m, s);
    MergeJoins(m, s);
    if next != m {
      ChangedEntry(m, s);
    }
    JoinedLogical(next.body, m.body, last);
    LayeredStep(m.body, Layers(t.body, ss), last.body, next.body);
    LayersMore(t.body, ss, last);
  }

  lemma LayersMore(t: Body, init: seq<Definition>, last: Definition)
    ensures Layers(t, init + [last]) == Layers(t, init) + [last.body]
  {
  }

  /** A source's framework and native class, which the merge drops, make no difference. */
  lemma JoinedLogical(m: Body, t: Body, d: Definition)
    requires Joined(m, t, Logical(d).body)
    ensures Joined(m, t, d.body)
  {
    hide Joins;
  }

  /**
   A whole merge, entry by entry. What was in the target is the target's entry with the sources that go into it as
   layers: of each mapping the first layer with a key has its value, the first visual shown stays, strategies come
   once in order, the one specific type wins, the description is extended and the revision never falls. Everything
   else is a source that goes into nothing, as it was but for framework and native class.
   */
  lemma MergedEntry(c: Components, ds: seq<Definition>, n: string)
    requires Valid(c) && Mergeable(ds) && MergeAll(c, ds).Success?
    ensures var r := MergeAll(c, ds).value.0;
      && (n in c ==> n in r && EntryMerged(r[n], c[n], Into(c, ds, n)))
      && (n in r && n !in c ==> exists d | d in ds && d.componentId == n && (forall m :: !Targets(c, d, m)) ::
            r[n] == d.(body := d.body.(framework := None, nativeClass := None)))
      && (forall d | d in ds && (forall m :: !Targets(c, d, m)) :: d.componentId in r && d.componentId !in c)
  {
    hide Canonical, Graph, MergeStep, MergeAll, EntryMerged, CanonicalTarget, Mergeable, Typed, Untouched, Rooted, KeysMatch, IdsParse,
         DistinctIds, Ids;
    MergeSucceedsIff(c, ds);
    if n in c {
      EntryIsFolded(c, ds, n);
      FoldedLayers(c[n], Into(c, ds, n));
    }
    forall d | d in ds ensures Absent(c, d) <==> forall m :: !Targets(c, d, m) {
      AbsentHasNoTarget(c, d);
      if CanonicalTarget(c, d).Some? {
        assert Targets(c, d, CanonicalTarget(c, d).value);
      }
    }
  }

  /** An entry is left alone exactly when it says already what each of its sources says. */
  lemma {:induction false} FoldedUnchangedIff(t: Definition, ss: seq<Definition>)
    requires Foldable(t, ss)
    ensures Folded(t, ss) == t <==> forall s | s in ss :: Absorbed(t.body, Logical(s).body)
    decreases |ss|
  {
    hide Layered, MergeDefinition, Absorbed, EntryMerged;
    if ss != [] {
      var init, last := ss[..|ss| - 1], ss[|ss| - 1];
      assert ss == init + [last];
      FoldedUnchangedIff(t, init);
      MergeKeepsIdentity(Folded(t, init), Logical(last));
      FoldedRevision(t, init);
      if Folded(t, ss) != Folded(t, init) {
        ChangedEntry(Folded(t, init), Logical(last));
      }
    }
  }

  lemma FoldedRevision(t: Definition, ss: seq<Definition>)
    requires Foldable(t, ss)
    ensures Folded(t, ss).body.revision >= t.body.revision && (Folded(t, ss) == t || Folded(t, ss).body.revision > t.body.revision)
  {
    FoldedLayers(t, ss);
  }

  /** The revision also exceeds that of every source that changed the entry. */
  lemma {:induction false} RevisionExceedsSources(t: Definition, ss: seq<Definition>, i: nat)
    requires Foldable(t, ss) && i < |ss|
    requires Folded(t, ss[..i + 1]) != Folded(t, ss[..i])
    ensures Folded(t, ss).body.revision > ss[i].body.revision
    decreases |ss|
  {
    hide MergeDefinition;
    var init, last := ss[..|ss| - 1], ss[|ss| - 1];
    if i == |ss| - 1 {
      assert ss[..i + 1] == ss && ss[..i] == init;
      ChangedEntry(Folded(t, init), Logical(last));
    } else {
      assert init[..i + 1] == ss[..i + 1] && init[..i] == ss[..i];
      RevisionExceedsSources(t, init, i);
      if Folded(t, ss) != Folded(t, init) {
        ChangedEntry(Folded(t, init), Logical(last));
      }
    }
  }
}
