/** Opening a repository whose entries parse one by one but do not fit together. */
module RepositoryRecovery {
  import opened Outcomes
  import opened Ownership
  import opened Text
  import opened ComponentRepository
  import RepositoryEdits

  type Recovered = Result<(Components, seq<string>), RepositoryError>

  /** Entries as the per-entry parser leaves them: keyed by their own alias, ids and owners normalized. */
  ghost predicate Parsed(c: Components) {
    KeysMatch(c) && CanonicallySpelled(c)
  }

  ghost predicate RepairedBy(c: Components, n: string) {
    n in c && Valid(c - {n})
  }

  /** The names of a dictionary in its order. */
  ghost predicate Lists(names: seq<string>, c: Components) {
    (forall n :: n in names <==> n in c) && forall i, j | 0 <= i < j < |names| :: names[i] != names[j]
  }

  /** `n` is the first of the names whose removal repairs the repository. */
  ghost predicate FirstRepairing(c: Components, names: seq<string>, n: string) {
    RepairedBy(c, n) && exists i | 0 <= i < |names| :: names[i] == n && forall j | 0 <= j < i :: !RepairedBy(c, names[j])
  }

  /** The first entry whose removal leaves a repository the constructor accepts. */
  method FindRemovable(c: Components, names: seq<string>) returns (removable: Option<string>)
    requires CanonicallySpelled(c) && Lists(names, c)
    ensures removable.Some? ==> FirstRepairing(c, names, removable.value)
    ensures removable.None? ==> forall n :: !RepairedBy(c, n)
  {
    hide Valid, Canonical;
    for i := 0 to |names|
      invariant forall j | 0 <= j < i :: !RepairedBy(c, names[j])
    {
      assert names[i] in names;
      var candidate := Construct(c - {names[i]});
      assert candidate != Failure(OwnerLookupCrash);  // the loop catches repository errors only
      if candidate.Success? {
        return Some(names[i]);
      }
    }
    assert forall n | n in c :: n in names;
    return None;
  }

  /**
   The recovery loop of `load_recoverable`. It keeps a valid repository whole, otherwise drops the first entry
   whose removal repairs it, and gives up exactly when no single entry's removal does.
   */
  method Recover(parsed: Components, names: seq<string>) returns (r: Recovered)
    requires Parsed(parsed) && Lists(names, parsed)
    ensures Valid(parsed) ==> r == Success((parsed, []))
    ensures r.Failure? <==> !Valid(parsed) && forall n :: !RepairedBy(parsed, n)
    ensures r.Success? && !Valid(parsed) ==>
      exists n | FirstRepairing(parsed, names, n) :: r.value == (parsed - {n}, [n])
    ensures r.Success? ==> Valid(r.value.0)
  {
    hide Valid, Lists, Rooted, Graph;
    var merged := parsed;
    var issues: seq<string> := [];
    while true
      invariant issues == [] ==> merged == parsed
      invariant issues != [] ==>
        && !Valid(parsed) && Valid(merged)
        && |issues| == 1 && FirstRepairing(parsed, names, issues[0]) && merged == parsed - {issues[0]}
      decreases 1 - |issues|
    {
      var attempt := Construct(merged);
      assert attempt != Failure(OwnerLookupCrash);
      if attempt.Success? {
        assert issues != [] ==> issues == [issues[0]];
        return Success((merged, issues));
      }
      assert issues == [] && merged == parsed;
      var removable := FindRemovable(merged, names);
      if removable.None? {
        return Failure(Irrecoverable);
      }
      merged := merged - {removable.value};
      issues := issues + [removable.value];
    }
  }

  // ----- which repositories are recovered

  ghost predicate Recoverable(c: Components) {
    Valid(c) || exists n :: RepairedBy(c, n)
  }

  /** The owner chain of the entry leaves the repository or runs in a circle. */
  ghost predicate Unrooted(c: Components, n: string)
    requires DistinctIds(c)
  {
    n in c && !Ends(Graph(c), Some(c[n].objectId))
  }

  lemma RemovedEntry(c: Components, n: string)
    requires Parsed(c) && DistinctIds(c) && n in c
    ensures Identified(c - {n}) && Graph(c - {n}) == Without(Graph(c), {c[n].objectId})
  {
    hide Canonical, Graph;
    assert RepositoryEdits.Kept(c, {c[n].objectId}) == c - {n};
    RepositoryEdits.KeptGraph(c, {c[n].objectId});
  }

  // ----- aliases that share an id

  /** Two aliases have one id. */
  predicate Clash(c: Components, a: string, b: string) {
    a in c && b in c && a != b && c[a].objectId == c[b].objectId
  }

  /** At most one id is shared, and by two aliases only. */
  ghost predicate OneClash(c: Components) {
    forall a, b, x, y | Clash(c, a, b) && Clash(c, x, y) :: x == a || x == b
  }

  lemma DistinctIffNoClash(c: Components)
    requires Parsed(c)
    ensures DistinctIds(c) <==> forall a, b :: !Clash(c, a, b)
  {
    hide Canonical;
    if DistinctIds(c) {
      forall a, b ensures !Clash(c, a, b) {}
    }
    if forall a, b :: !Clash(c, a, b) {
      forall a, b | a in c && b in c && Canonical(c[a].objectId) == Canonical(c[b].objectId) ensures a == b {
        assert !Clash(c, a, b);
      }
    }
  }

  lemma RepairedIsDistinct(c: Components, n: string)
    requires Parsed(c) && RepairedBy(c, n)
    ensures forall a, b | Clash(c, a, b) :: a == n || b == n
  {
    hide Canonical, Graph;
    DistinctIffNoClash(c - {n});
    forall a, b | Clash(c, a, b) ensures a == n || b == n {
      assert !Clash(c - {n}, a, b);
    }
  }

  /** One of a single clashing pair removed leaves distinct ids. */
  lemma PairBroken(c: Components, n: string, k: string)
    requires Parsed(c) && OneClash(c) && Clash(c, n, k)
    ensures DistinctIds(c - {n}) && Identified(c - {n})
  {
    hide Canonical;
    forall a, b ensures !Clash(c - {n}, a, b) {
      assert Clash(c - {n}, a, b) ==> Clash(c, a, b) && Clash(c, b, a);
    }
    DistinctIffNoClash(c - {n});
  }

  lemma RepairBreaksOnlyClash(c: Components, n: string)
    requires Parsed(c) && RepairedBy(c, n)
    ensures OneClash(c)
  {
    RepairedIsDistinct(c, n);
    hide RepairedBy, Parsed;
    forall a, b, x, y | Clash(c, a, b) && Clash(c, x, y) ensures x == a || x == b {
      var k := if a == n then b else a;
      assert !Clash(c, k, x) || k == n || x == n;
    }
  }

  /**
   What the loop repairs among objects without owners, which are all that a load hands to it: at most one id
   may be shared, by at most two aliases.
   */
  lemma RootsRecoverableIffOneClash(c: Components)
    requires Parsed(c) && forall n | n in c :: c[n].owner.None?
    ensures Recoverable(c) <==> OneClash(c)
  {
    hide Canonical, Graph;
    DistinctIffNoClash(c);
    if n :| RepairedBy(c, n) {
      RepairBreaksOnlyClash(c, n);
    }
    if OneClash(c) {
      if a, b :| Clash(c, a, b) {
        PairBroken(c, a, b);
        OwnerlessRooted(c - {a});
        assert RepairedBy(c, a);
      } else {
        IdentifiedIfDistinct(c);
        OwnerlessRooted(c);
      }
    }
  }

  lemma IdentifiedIfDistinct(c: Components)
    requires Parsed(c) && DistinctIds(c)
    ensures Identified(c)
  {
    hide Canonical;
  }

  lemma OwnerlessRooted(c: Components)
    requires DistinctIds(c) && forall n | n in c :: c[n].owner.None?
    ensures Rooted(Graph(c))
  {
    hide Canonical, Graph;
    forall id | id in Graph(c) ensures Ends(Graph(c), Some(id)) {
      var n := NameOf(c, id);
      assert EndsIn(Graph(c), Some(id), 1);
    }
  }

  /** Three aliases of one id are never recovered. */
  lemma ThreeAliasesNeverRecovered(c: Components, a: string, b: string, d: string)
    requires Parsed(c) && Clash(c, a, b) && Clash(c, a, d) && Clash(c, b, d)
    ensures !Recoverable(c)
  {
    hide Canonical, Graph;
    DistinctIffNoClash(c);
    if n :| RepairedBy(c, n) {
      RepairBreaksOnlyClash(c, n);
    }
  }

  // ----- chains without a root

  /**
   The loop on any parsed entries. With distinct ids at most one chain may fail to reach a root; otherwise
   one id is shared by two aliases, and without one of the two every chain reaches a root.
   */
  lemma RecoverableIff(c: Components)
    requires Parsed(c)
    ensures Recoverable(c) <==>
      if DistinctIds(c) then forall m, n | Unrooted(c, m) && Unrooted(c, n) :: m == n
      else OneClash(c) && exists n, k :: Clash(c, n, k) && DistinctIds(c - {n}) && forall m :: !Unrooted(c - {n}, m)
  {
    hide Canonical, Graph;
    DistinctIffNoClash(c);
    if DistinctIds(c) {
      RecoverableIffOneUnrooted(c);
    } else {
      var a, b :| Clash(c, a, b);
      if n :| RepairedBy(c, n) {
        RepairBreaksOnlyClash(c, n);
        RepairedIsDistinct(c, n);
        assert Clash(c, n, if a == n then b else a);
        RootedIffNoneUnrooted(c - {n});
      }
      if n, k :| OneClash(c) && Clash(c, n, k) && DistinctIds(c - {n}) && forall m :: !Unrooted(c - {n}, m) {
        PairBroken(c, n, k);
        RootedIffNoneUnrooted(c - {n});
        assert RepairedBy(c, n);
      }
    }
  }

  lemma RootedIffNoneUnrooted(c: Components)
    requires DistinctIds(c)
    ensures Rooted(Graph(c)) <==> forall m :: !Unrooted(c, m)
  {
    hide Canonical, Graph;
    if Rooted(Graph(c)) {
      forall m ensures !Unrooted(c, m) {
        if m in c { GraphAt(c, m); }
      }
    }
    if forall m :: !Unrooted(c, m) {
      forall id | id in Graph(c) ensures Ends(Graph(c), Some(id)) {
        var m := NameOf(c, id);
        assert !Unrooted(c, m);
      }
    }
  }

  /** With distinct ids, recovery succeeds exactly when at most one entry's chain fails to reach a root. */
  lemma RecoverableIffOneUnrooted(c: Components)
    requires Parsed(c) && DistinctIds(c)
    ensures Recoverable(c) <==> forall m, n | Unrooted(c, m) && Unrooted(c, n) :: m == n
  {
    hide Canonical, Graph;
    var g := Graph(c);
    if Valid(c) {
      forall n | n in c ensures !Unrooted(c, n) { GraphAt(c, n); }
    }
    forall n, m | RepairedBy(c, n) && Unrooted(c, m) ensures m == n {
      if m != n {
        RemovedEntry(c, n);
        GraphAt(c - {n}, m);
        var k: nat :| EndsIn(Graph(c - {n}), Some(c[m].objectId), k);
        EndsInExtends(Graph(c - {n}), g, Some(c[m].objectId), k);
      }
    }
    if forall m, n | Unrooted(c, m) && Unrooted(c, n) :: m == n {
      if n :| Unrooted(c, n) {
        LoneUnrootedRemoved(c, n);
        assert RepairedBy(c, n);
      } else {
        forall id | id in g ensures Ends(g, Some(id)) {
          var n := NameOf(c, id);
          assert !Unrooted(c, n);
        }
      }
    }
  }

  /** The one entry without a root owns nothing, so the chains of the others avoid it. */
  lemma LoneUnrootedRemoved(c: Components, n: string)
    requires Parsed(c) && DistinctIds(c) && Unrooted(c, n)
    requires forall m | Unrooted(c, m) :: m == n
    ensures Valid(c - {n})
  {
    hide Canonical, Graph;
    var g := Graph(c);
    var id := c[n].objectId;
    RemovedEntry(c, n);
    GraphAt(c, n);
    forall v | v in g && v != id ensures Ends(g, Some(v)) && g[v] != Some(id) {
      var m := NameOf(c, v);
      assert !Unrooted(c, m);
      EndsStep(g, v);
    }
    forall v | v in Without(g, {id}) ensures Ends(Without(g, {id}), Some(v)) {
      var k: nat :| EndsIn(g, Some(v), k);
      assert g[id] == Some(id) || g[id] != Some(id);
      ChainAvoidsLeaf(g, id, v, k);
    }
  }

  lemma {:induction false} ChainAvoidsLeaf(g: Owners, id: string, v: string, n: nat)
    requires forall w | w in g && w != id :: g[w] != Some(id)
    requires v in g && v != id && EndsIn(g, Some(v), n)
    ensures EndsIn(Without(g, {id}), Some(v), n)
    decreases n
  {
    if g[v].Some? {
      ChainAvoidsLeaf(g, id, g[v].value, n - 1);
    }
  }

  /** Every member has an owner, and whatever has the owner's id is a member too: no chain leaves the set. */
  ghost predicate Stuck(c: Components, members: set<string>) {
    forall n | n in members ::
      && n in c && c[n].owner.Some?
      && forall h | h in c && c[h].objectId == c[n].owner.value :: h in members
  }

  lemma {:induction false} StuckNeverEnds(c: Components, members: set<string>, n: string, steps: nat)
    requires DistinctIds(c) && Stuck(c, members) && n in members
    ensures !EndsIn(Graph(c), Some(c[n].objectId), steps)
    decreases steps
  {
    hide Canonical, Graph;
    GraphAt(c, n);
    if EndsIn(Graph(c), Some(c[n].objectId), steps) {
      assert EndsIn(Graph(c), c[n].owner, steps - 1);
      var h := NameOf(c, c[n].owner.value);
      StuckNeverEnds(c, members, h, steps - 1);
    }
  }

  lemma StuckNotValid(c: Components, members: set<string>)
    requires Stuck(c, members) && members != {}
    ensures !Valid(c)
  {
    hide Canonical, Graph;
    if Valid(c) {
      var n :| n in members;
      assert n in c;
      GraphAt(c, n);
      var steps: nat :| EndsIn(Graph(c), Some(c[n].objectId), steps);
      StuckNeverEnds(c, members, n, steps);
    }
  }

  /** Two entries whose chains cannot leave them are never recovered, whatever ids are shared. */
  lemma StuckNeverRecovered(c: Components, members: set<string>, m: string, n: string)
    requires Stuck(c, members) && m in members && n in members && m != n
    ensures !Recoverable(c)
  {
    hide Valid;
    StuckNotValid(c, members);
    forall x ensures !RepairedBy(c, x) {
      var rest := members - {x};
      assert m in rest || n in rest;
      assert Stuck(c - {x}, rest);
      StuckNotValid(c - {x}, rest);
    }
  }

  /** With distinct ids nothing else stands in the way. */
  lemma RecoverableIffNoneStuck(c: Components)
    requires Parsed(c) && DistinctIds(c)
    ensures Recoverable(c) <==>
      !exists members, m, n :: Stuck(c, members) && m in members && n in members && m != n
  {
    hide Canonical, Graph, Recoverable;
    forall members, m, n | Stuck(c, members) && m in members && n in members && m != n ensures !Recoverable(c) {
      StuckNeverRecovered(c, members, m, n);
    }
    if !Recoverable(c) {
      RecoverableIffOneUnrooted(c);
      var members := set n | n in c && Unrooted(c, n);
      forall n | n in members
        ensures c[n].owner.Some? && forall h | h in c && c[h].objectId == c[n].owner.value :: h in members
      {
        GraphAt(c, n);
        EndsStep(Graph(c), c[n].objectId);
        assert c[n].owner.None? ==> EndsIn(Graph(c), c[n].owner, 0);
      }
      var m, n :| Unrooted(c, m) && Unrooted(c, n) && m != n;
      assert Stuck(c, members) && m in members && n in members;
    }
  }

  /** No other entry has this entry's id. */
  predicate Unshared(c: Components, n: string) {
    n in c && forall h | h in c && c[h].objectId == c[n].objectId :: h == n
  }

  predicate Owns(c: Components, m: string, n: string) {
    m in c && n in c && c[n].owner == Some(c[m].objectId)
  }

  /** An ownership cycle is never recovered, if no id on it is shared. */
  lemma CycleNeverRecovered(c: Components, cycle: seq<string>)
    requires |cycle| >= 2 && cycle[0] != cycle[1]
    requires forall n | n in cycle :: Unshared(c, n)
    requires forall i | 0 <= i < |cycle| :: Owns(c, cycle[if i + 1 < |cycle| then i + 1 else 0], cycle[i])
    ensures !Recoverable(c)
  {
    var members := set n | n in cycle;
    forall n | n in members
      ensures n in c && c[n].owner.Some? && forall h | h in c && c[h].objectId == c[n].owner.value :: h in members
    {
      var i :| 0 <= i < |cycle| && cycle[i] == n;
      var next := cycle[if i + 1 < |cycle| then i + 1 else 0];
      assert Owns(c, next, n) && next in cycle && Unshared(c, next);
    }
    StuckNeverRecovered(c, members, cycle[0], cycle[1]);
  }

  /** A missing owner is not recovered when the object that names it owns another, if its id is not shared. */
  lemma DanglingOwnerWithDependentsNeverRecovered(c: Components, m: string, n: string)
    requires Unshared(c, n) && Owns(c, n, m) && m != n
    requires c[n].owner.Some? && c[n].owner.value !in Ids(c)
    ensures !Recoverable(c)
  {
    assert Stuck(c, {m, n});
    StuckNeverRecovered(c, {m, n}, m, n);
  }

  /**
   Sharing an id can save both: here "Loop" is owned in a circle or by nothing known, "Part" is owned by it,
   and removing "Loop" repairs the repository, since "Spare" has its id.
   */
  lemma SharedIdIsRecovered(owner: string, body: Body)
    requires Canonical(owner) == Some(owner)
    ensures var c: Components := map[
        "Part" := Definition("Part", SampleId('b'), Some(SampleId('a')), body),
        "Loop" := Definition("Loop", SampleId('a'), Some(owner), body),
        "Spare" := Definition("Spare", SampleId('a'), None, body)];
      Parsed(c) && Recoverable(c)
  {
    hide Canonical, SampleId, Graph;
    SampleIdSpellings('a');
    SampleIdSpellings('b');
    var c: Components := map[
      "Part" := Definition("Part", SampleId('b'), Some(SampleId('a')), body),
      "Loop" := Definition("Loop", SampleId('a'), Some(owner), body),
      "Spare" := Definition("Spare", SampleId('a'), None, body)];
    assert Parsed(c);
    var rest := c - {"Loop"};
    assert rest["Part"] == c["Part"] && rest["Spare"] == c["Spare"];
    assert Identified(rest);
    var g := Graph(rest);
    GraphAt(rest, "Part");
    GraphAt(rest, "Spare");
    assert EndsIn(g, Some(SampleId('a')), 1) && EndsIn(g, Some(SampleId('b')), 2);
    forall id | id in g ensures Ends(g, Some(id)) {
      var n := NameOf(rest, id);
    }
    assert RepairedBy(c, "Loop");
  }

  // ----- the whole recoverable load

  /** An entry of a repository file: its alias, and what parsing its value gives, if it parses. */
  datatype Entry = Entry(name: string, parsed: Option<Definition>)

  /** Parsed definitions carry their alias and canonical spellings. */
  predicate ParserOutput(entries: seq<Entry>) {
    forall e | e in entries && e.parsed.Some? ::
      var d := e.parsed.value;
      && d.componentId == e.name && Canonical(d.objectId) == Some(d.objectId)
      && (d.owner.Some? ==> Canonical(d.owner.value) == d.owner)
  }

  /** A repository of this one definition is valid: the test every entry is put to by itself. */
  ghost predicate StandsAlone(e: Entry) {
    e.parsed.Some? && Valid(map[e.name := e.parsed.value])
  }

  /** Parsing one entry as a repository of its own refuses every object that has an owner. */
  lemma StandsAloneIffRoot(e: Entry)
    requires ParserOutput([e])
    ensures StandsAlone(e) <==> e.parsed.Some? && e.parsed.value.owner.None?
  {
    hide Canonical, Graph;
    assert e in [e];
    if e.parsed.Some? {
      var c: Components := map[e.name := e.parsed.value];
      GraphAt(c, e.name);
      GraphIds(c);
      assert Ids(c) == {e.parsed.value.objectId};
      if Valid(c) && e.parsed.value.owner.Some? {
        RootedClosed(Graph(c), e.parsed.value.objectId);
        assert false;
      }
      if e.parsed.value.owner.None? {
        assert EndsIn(Graph(c), Some(e.parsed.value.objectId), 1);
      }
    }
  }

  /** A later entry under a known alias takes over the known id. */
  function Adopted(merged: Components, d: Definition): Definition {
    if d.componentId in merged then d.(objectId := merged[d.componentId].objectId) else d
  }

  ghost function Merged(entries: seq<Entry>): Components {
    if entries == [] then map[]
    else
      var before, e := Merged(entries[..|entries| - 1]), entries[|entries| - 1];
      if StandsAlone(e) then before[e.name := Adopted(before, e.parsed.value)] else before
  }

  /** The dictionary order of the merged entries: a known alias keeps its place. */
  ghost function MergedOrder(entries: seq<Entry>): seq<string> {
    if entries == [] then []
    else
      var init, e := entries[..|entries| - 1], entries[|entries| - 1];
      if StandsAlone(e) && e.name !in Merged(init) then MergedOrder(init) + [e.name] else MergedOrder(init)
  }

  lemma {:induction false} MergedOrderLists(entries: seq<Entry>)
    ensures Lists(MergedOrder(entries), Merged(entries))
  {
    hide StandsAlone;
    if entries != [] {
      MergedOrderLists(entries[..|entries| - 1]);
    }
  }

  ghost function Refused(entries: seq<Entry>): seq<string> {
    if entries == [] then []
    else
      var before, e := Refused(entries[..|entries| - 1]), entries[|entries| - 1];
      if StandsAlone(e) then before else before + [e.name]
  }

  /** `load_recoverable`, once the files are read: the entries one by one, then the recovery loop. */
  method LoadRecoverable(entries: seq<Entry>) returns (r: Recovered)
    requires ParserOutput(entries)
    ensures r.Failure? <==> !OneClash(Merged(entries))
    ensures r.Success? ==> Valid(r.value.0)
    ensures Valid(Merged(entries)) ==> r == Success((Merged(entries), Refused(entries)))
    ensures r.Success? && !Valid(Merged(entries)) ==>
      exists n | FirstRepairing(Merged(entries), MergedOrder(entries), n) ::
        r.value == (Merged(entries) - {n}, Refused(entries) + [n])
    ensures r.Success? ==> forall n | n in r.value.0 :: r.value.0[n].owner.None?
  {
    hide Valid, Canonical, OneClash, FirstRepairing, Lists;
    var merged: Components := map[];
    var names: seq<string> := [];
    var issues: seq<string> := [];
    for i := 0 to |entries|
      invariant merged == Merged(entries[..i]) && names == MergedOrder(entries[..i]) && issues == Refused(entries[..i])
    {
      assert entries[..i + 1][..i] == entries[..i];
      var e := entries[i];
      if e.parsed.None? {
        issues := issues + [e.name];
      } else {
        var alone := Construct(map[e.name := e.parsed.value]);
        if alone.Failure? {
          issues := issues + [e.name];
        } else {
          names := if e.name in merged then names else names + [e.name];
          merged := merged[e.name := Adopted(merged, e.parsed.value)];
        }
      }
    }
    assert entries[..|entries|] == entries;
    MergedAreRoots(entries);
    RootsRecoverableIffOneClash(merged);
    MergedOrderLists(entries);
    var recovered := Recover(merged, names);
    if recovered.Failure? {
      return recovered;
    }
    assert Refused(entries) + [] == Refused(entries);
    return Success((recovered.value.0, issues + recovered.value.1));
  }

  /** No owned object reaches the recovery loop. */
  lemma {:induction false} MergedAreRoots(entries: seq<Entry>)
    requires ParserOutput(entries)
    ensures Parsed(Merged(entries)) && forall n | n in Merged(entries) :: Merged(entries)[n].owner.None?
  {
    hide Valid, Canonical;
    if entries != [] {
      var e := entries[|entries| - 1];
      MergedAreRoots(entries[..|entries| - 1]);
      assert e in entries;
      StandsAloneIffRoot(e);
    }
  }

  /** Entry `i` is one that stands alone under this alias. */
  ghost predicate Standing(entries: seq<Entry>, i: int, n: string) {
    0 <= i < |entries| && entries[i].name == n && StandsAlone(entries[i])
  }

  lemma StandingInit(entries: seq<Entry>, n: string)
    requires entries != []
    ensures forall i | i < |entries| - 1 :: Standing(entries[..|entries| - 1], i, n) <==> Standing(entries, i, n)
  {
    hide StandsAlone;
  }

  lemma OneMoreMerged(entries: seq<Entry>, n: string)
    requires entries != [] && ParserOutput(entries)
    ensures var (before, e) := (Merged(entries[..|entries| - 1]), entries[|entries| - 1]);
      && ParserOutput(entries[..|entries| - 1])
      && (Standing(entries, |entries| - 1, n) ==> n in Merged(entries))
      && (Standing(entries, |entries| - 1, n) ==>
            Merged(entries)[n] == if n in before then e.parsed.value.(objectId := before[n].objectId) else e.parsed.value)
      && (!Standing(entries, |entries| - 1, n) ==> (n in Merged(entries) <==> n in before) && (n in before ==> Merged(entries)[n] == before[n]))
  {
    hide Canonical, Valid;
    assert entries[|entries| - 1] in entries;
  }

  /** An alias keeps the id of the first entry that stands alone under it. */
  lemma {:induction false} FirstIdKept(entries: seq<Entry>, n: string)
    requires ParserOutput(entries)
    ensures n in Merged(entries) <==> exists i :: Standing(entries, i, n)
    ensures n in Merged(entries) ==> exists i | Standing(entries, i, n) ::
      (forall k | k < i :: !Standing(entries, k, n)) && Merged(entries)[n].objectId == entries[i].parsed.value.objectId
  {
    hide Standing, Merged, ParserOutput;
    if entries == [] {
      NoneStands(n);
    } else {
      OneMoreMerged(entries, n);
      StandingInit(entries, n);
      StandingInside(entries, n);
      var init := entries[..|entries| - 1];
      FirstIdKept(init, n);
      StandingInside(init, n);
      if i :| Standing(entries, i, n) {
        assert i < |entries| - 1 ==> Standing(init, i, n);
      }
      if i :| Standing(init, i, n) {
        assert Standing(entries, i, n);
      }
    }
  }

  /** Otherwise it keeps the definition of the last one. */
  lemma {:induction false} LastDefinitionKept(entries: seq<Entry>, n: string)
    requires ParserOutput(entries) && n in Merged(entries)
    ensures exists j | Standing(entries, j, n) ::
      (forall k | k > j :: !Standing(entries, k, n)) && Merged(entries)[n] == entries[j].parsed.value.(objectId := Merged(entries)[n].objectId)
  {
    hide Standing, Merged, ParserOutput;
    if entries == [] {
      NoneStands(n);
      FirstIdKept(entries, n);
    } else {
      OneMoreMerged(entries, n);
      StandingInit(entries, n);
      StandingInside(entries, n);
      if !Standing(entries, |entries| - 1, n) {
        LastDefinitionKept(entries[..|entries| - 1], n);
        StandingInside(entries[..|entries| - 1], n);
      }
    }
  }

  lemma StandingInside(entries: seq<Entry>, n: string)
    ensures forall i | Standing(entries, i, n) :: 0 <= i < |entries| && entries[i].parsed.Some?
  {
    hide Valid;
  }

  lemma NoneStands(n: string)
    ensures forall i :: !Standing([], i, n)
    ensures n !in Merged([])
  {
  }

  /** The issues are the aliases of the refused entries, in reading order. */
  lemma {:induction false} RefusedIs(entries: seq<Entry>)
    ensures Refused(entries) == Map(Filter(entries, (e: Entry) => e.parsed.None? || e.parsed.value.owner.Some?), (e: Entry) => e.name)
      || !ParserOutput(entries)
  {
    hide StandsAlone;
    if entries != [] && ParserOutput(entries) {
      var (init, e) := (entries[..|entries| - 1], entries[|entries| - 1]);
      var (refused, name) := ((e: Entry) => e.parsed.None? || e.parsed.value.owner.Some?, (e: Entry) => e.name);
      assert entries == init + [e] && e in entries;
      RefusedIs(init);
      StandsAloneIffRoot(e);
      FilterAppend(init, [e], refused);
      assert [e][1..] == [];
      MapAppend(Filter(init, refused), Filter([e], refused), name);
      assert Filter([e], refused) == if refused(e) then [e] else [];
      assert Map([e], name) == [e.name];
    }
  }

  function NamesOf(entries: seq<Entry>): set<string> {
    set e | e in entries :: e.name
  }

  /** Entries of the repository's own definitions, no alias twice. */
  ghost predicate EntriesOf(entries: seq<Entry>, c: Components) {
    && (forall i, j | 0 <= i < j < |entries| :: entries[i].name != entries[j].name)
    && (forall e | e in entries :: e.name in c && e.parsed == Some(c[e.name]))
  }

  function RootsAmong(c: Components, names: set<string>): Components {
    map n | n in c && n in names && c[n].owner.None? :: c[n]
  }

  /**
   Loaded recoverably, a valid repository loses every object that has an owner: each is reported as an
   issue, and exactly the roots are kept. A strict load keeps them all.
   */
  lemma RecoverableLoadKeepsOnlyRoots(c: Components, entries: seq<Entry>)
    requires Valid(c) && CanonicallySpelled(c) && EntriesOf(entries, c) && NamesOf(entries) == c.Keys
    ensures ParserOutput(entries) && Valid(Merged(entries))
    ensures Merged(entries) == map n | n in c && c[n].owner.None? :: c[n]
    ensures forall n :: n in Refused(entries) <==> n in c && c[n].owner.Some?
  {
    hide Canonical, Graph;
    forall e | e in entries ensures e.parsed.value.componentId == e.name {
      assert c[e.name].componentId == e.name;
    }
    MergedRoots(c, entries);
    RootsValid(c);
  }

  /** Whether a file can be loaded recoverably at all, read off its entries: no more than two roots share an id, once. */
  lemma FileRecoverableIffOneClash(c: Components, entries: seq<Entry>)
    requires Parsed(c) && EntriesOf(entries, c) && NamesOf(entries) == c.Keys
    ensures ParserOutput(entries) && Merged(entries) == RootsAmong(c, c.Keys)
    ensures Recoverable(Merged(entries)) <==> OneClash(RootsAmong(c, c.Keys))
  {
    hide Canonical, Recoverable, OneClash;
    forall e | e in entries ensures e.parsed.value.componentId == e.name {
      assert c[e.name].componentId == e.name;
    }
    MergedRoots(c, entries);
    RootsRecoverableIffOneClash(RootsAmong(c, c.Keys));
  }

  lemma RootsValid(c: Components)
    requires Valid(c)
    ensures Valid(RootsAmong(c, c.Keys))
  {
    hide Canonical, Graph;
    var r := RootsAmong(c, c.Keys);
    forall id | id in Graph(r) ensures Ends(Graph(r), Some(id)) {
      var n := NameOf(r, id);
      assert EndsIn(Graph(r), Some(id), 1);
    }
  }

  lemma LastEntry(c: Components, entries: seq<Entry>)
    requires EntriesOf(entries, c) && ParserOutput(entries) && entries != []
    ensures var init, e := entries[..|entries| - 1], entries[|entries| - 1];
      && EntriesOf(init, c) && ParserOutput(init) && ParserOutput([e])
      && e.name in c && e.parsed == Some(c[e.name]) && c[e.name].componentId == e.name
      && NamesOf(entries) == NamesOf(init) + {e.name} && e.name !in NamesOf(init)
  {
    hide Canonical;
    var init, e := entries[..|entries| - 1], entries[|entries| - 1];
    assert entries == init + [e];
    assert e in entries;
  }

  lemma {:induction false} MergedRoots(c: Components, entries: seq<Entry>)
    requires EntriesOf(entries, c) && ParserOutput(entries)
    ensures Merged(entries) == RootsAmong(c, NamesOf(entries))
    ensures forall n :: n in Refused(entries) <==> n in NamesOf(entries) && c[n].owner.Some?
    decreases |entries|
  {
    hide StandsAlone, ParserOutput, EntriesOf;
    if entries != [] {
      var init, e := entries[..|entries| - 1], entries[|entries| - 1];
      LastEntry(c, entries);
      MergedRoots(c, init);
      StandsAloneIffRoot(e);
      hide NamesOf;
    } else {
      assert RootsAmong(c, NamesOf(entries)) == map[];
    }
  }
}
