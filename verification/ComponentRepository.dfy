/**
 The Object Repository: an immutable mapping from aliases to definitions. Object ids are unique,
 every owner is a repository object and every owner chain reaches a root.
 */
module ComponentRepository {
  import opened Outcomes
  import opened Values
  import opened Ownership
  import opened Text

  datatype Strategy = Strategy(kind: string, options: map<string, Value>)

  /** Everything a definition says about its object besides identity and ownership. */
  datatype Body = Body(
    revision: int,
    objectType: string,
    strategies: seq<Strategy>,
    actions: set<string>,
    properties: map<string, Value>,
    subobjects: map<string, Value>,
    expectedStates: map<string, Value>,
    actionCompletion: map<string, Value>,
    scope: map<string, Value>,
    description: string,
    visual: Option<map<string, Value>>,
    framework: Option<string>,
    nativeClass: Option<string>)

  datatype Definition = Definition(componentId: string, objectId: string, owner: Option<string>, body: Body)

  type Components = map<string, Definition>

  datatype RepositoryError =
    | KeyMismatch(name: string)
    | BadObjectId(name: string)
    | DuplicateId(name: string)
    | BadOwner(name: string)
    | SelfOwned(name: string)
    | UnknownOwner(name: string)
    | CyclicOwnership(name: string)
    | OwnerLookupCrash        // a KeyError, not one of the repository's own errors
    | EmptyName
    | AlreadyExists(name: string)
    | UnknownComponent(reference: string)
    | HasChildren(name: string)
    | NameConflict(name: string)
    | IdConflict(id: string)
    | OwnParent
    | NotARenderingSurface
    | NotALeaf(name: string)
    | Irrecoverable

  type Outcome = Result<Components, RepositoryError>

  // ----- what a valid repository is

  predicate KeysMatch(c: Components) {
    forall n | n in c :: c[n].componentId == n
  }

  predicate IdsParse(c: Components) {
    forall n | n in c :: Canonical(c[n].objectId).Some?
  }

  predicate DistinctIds(c: Components) {
    forall m, n | m in c && n in c && Canonical(c[m].objectId) == Canonical(c[n].objectId) :: m == n
  }

  /** Who owns whom, by object id. */
  function Graph(c: Components): Owners
    requires DistinctIds(c)
  {
    map n | n in c :: c[n].objectId := c[n].owner
  }

  function Ids(c: Components): set<string> {
    set n | n in c :: c[n].objectId
  }

  ghost predicate Identified(c: Components) {
    KeysMatch(c) && IdsParse(c) && DistinctIds(c)
  }

  ghost predicate Valid(c: Components) {
    Identified(c) && Rooted(Graph(c))
  }

  /** Every id and owner is written the way parsed documents write it. */
  predicate CanonicallySpelled(c: Components) {
    forall n | n in c ::
      Canonical(c[n].objectId) == Some(c[n].objectId)
      && (c[n].owner.Some? ==> Canonical(c[n].owner.value) == c[n].owner)
  }

  lemma GraphAt(c: Components, n: string)
    requires DistinctIds(c) && n in c
    ensures c[n].objectId in Graph(c) && Graph(c)[c[n].objectId] == c[n].owner
  {
    hide Canonical;
  }

  lemma GraphIds(c: Components)
    requires DistinctIds(c)
    ensures Graph(c).Keys == Ids(c)
  {
    hide Canonical;
  }

  lemma NameOf(c: Components, id: string) returns (n: string)
    requires DistinctIds(c) && id in Graph(c)
    ensures n in c && c[n].objectId == id && Graph(c)[id] == c[n].owner
  {
    hide Canonical;
    n :| n in c && c[n].objectId == id;
  }

  // ----- the constructor

  /** No object owns itself, directly or through others. */
  ghost predicate Acyclic(c: Components)
    requires DistinctIds(c)
  {
    forall v :: !Ancestor(Graph(c), v, v)
  }

  /** One owner walk of the cycle check: the chain from `n` ends, repeats an object, or leaves the repository. */
  datatype WalkOutcome = ReachedRoot | Repeated | Left

  method WalkOwners(c: Components, n: string) returns (outcome: WalkOutcome)
    requires DistinctIds(c) && n in c
    ensures outcome.ReachedRoot? <==> Ends(Graph(c), Some(c[n].objectId))
    ensures outcome.Left? ==> exists m | m in c :: c[m].owner.Some? && c[m].owner.value !in Ids(c)
    ensures outcome.Repeated? ==> !Acyclic(c)
  {
    hide Canonical, Graph;
    var byId := Graph(c);
    var visited := {c[n].objectId};
    var owner := c[n].owner;
    ghost var path := [c[n].objectId];
    GraphAt(c, n);
    EndsStep(byId, c[n].objectId);
    while owner.Some?
      invariant |path| > 0 && path[0] == c[n].objectId
      invariant visited == set v | v in path
      invariant visited <= byId.Keys
      invariant forall i | 0 <= i < |path| - 1 :: byId[path[i]] == Some(path[i + 1])
      invariant byId[path[|path| - 1]] == owner
      invariant Ends(byId, Some(path[0])) <==> Ends(byId, owner)
      decreases byId.Keys - visited
    {
      if owner.value in visited {
        RepeatNeverEnds(byId, path);
        return Repeated;
      }
      if owner.value !in byId {
        assert forall k: nat :: !EndsIn(byId, owner, k);
        ghost var m := NameOf(c, path[|path| - 1]);
        GraphIds(c);
        return Left;
      }
      path := path + [owner.value];
      visited := visited + {owner.value};
      EndsStep(byId, owner.value);
      owner := byId[owner.value];
    }
    assert EndsIn(byId, None, 0);
    return ReachedRoot;
  }

  /** A walk whose last owner is already on it never ends. */
  lemma RepeatNeverEnds(g: Owners, path: seq<string>)
    requires |path| > 0 && forall i | 0 <= i < |path| :: path[i] in g
    requires forall i | 0 <= i < |path| - 1 :: g[path[i]] == Some(path[i + 1])
    requires g[path[|path| - 1]].Some? && g[path[|path| - 1]].value in path
    ensures !Ends(g, g[path[|path| - 1]])
    ensures Ancestor(g, path[|path| - 1], path[|path| - 1])
  {
    var last := path[|path| - 1];
    var i :| 0 <= i < |path| && path[i] == g[last].value;
    WalkPasses(g, path, i, |path| - 1);
    assert Passes(g, g[last], path[i], 0);
    PassesJoin(g, g[last], path[i], 0, last, |path| - 1 - i);
    if Ends(g, g[last]) {
      EndsStep(g, last);
      NoSelfAncestor(g, last);
    }
  }

  lemma {:induction false} WalkPasses(g: Owners, path: seq<string>, i: nat, j: nat)
    requires i <= j < |path| && forall k | 0 <= k < |path| :: path[k] in g
    requires forall k | 0 <= k < |path| - 1 :: g[path[k]] == Some(path[k + 1])
    ensures Passes(g, Some(path[i]), path[j], j - i)
    decreases j - i
  {
    if i < j {
      WalkPasses(g, path, i + 1, j);
    }
  }

  /** What the loop over the owners checks before any walk. */
  predicate OwnerAccepted(c: Components, n: string)
    requires n in c
  {
    c[n].owner.None?
    || (var id := Canonical(c[n].owner.value);
        id.Some? && id.value != c[n].objectId && exists m | m in c :: Canonical(c[m].objectId) == id)
  }

  predicate OwnersAccepted(c: Components) {
    forall n | n in c :: OwnerAccepted(c, n)
  }

  lemma ValidOwnersAccepted(c: Components, n: string)
    requires Valid(c) && n in c
    ensures OwnerAccepted(c, n)
  {
    hide Canonical, Graph;
    if c[n].owner.Some? {
      GraphAt(c, n);
      RootedClosed(Graph(c), c[n].objectId);
      var m := NameOf(c, c[n].owner.value);
      assert Canonical(c[m].objectId) == Canonical(c[n].owner.value);
      CanonicalIdempotent(c[m].objectId);
    }
  }

  predicate Recorded(c: Components, seen: map<string, string>, n: string)
    requires n in c
  {
    var id := Canonical(c[n].objectId);
    c[n].componentId == n && id.Some? && id.value in seen && seen[id.value] == n
  }

  lemma RecordedIdentified(c: Components, seen: map<string, string>)
    requires forall n | n in c :: Recorded(c, seen, n)
    ensures Identified(c)
  {
    forall m, n | m in c && n in c && Canonical(c[m].objectId) == Canonical(c[n].objectId) ensures m == n {
      assert Recorded(c, seen, m) && Recorded(c, seen, n);
    }
    forall n | n in c ensures c[n].componentId == n && Canonical(c[n].objectId).Some? {
      assert Recorded(c, seen, n);
    }
  }

  /** What an error of the constructor says of the entry it names. */
  ghost predicate Blames(c: Components, error: RepositoryError) {
    match error
    case KeyMismatch(n) => n in c && c[n].componentId != n
    case BadObjectId(n) => n in c && Canonical(c[n].objectId).None?
    case DuplicateId(n) => n in c && exists m | m in c :: m != n && Canonical(c[m].objectId) == Canonical(c[n].objectId) != None
    case BadOwner(n) => n in c && c[n].owner.Some? && Canonical(c[n].owner.value).None?
    case SelfOwned(n) => n in c && c[n].owner.Some? && Canonical(c[n].owner.value) == Some(c[n].objectId)
    case UnknownOwner(n) => n in c && c[n].owner.Some? && Canonical(c[n].owner.value).Some?
                            && forall m | m in c :: Canonical(c[m].objectId) != Canonical(c[n].owner.value)
    case CyclicOwnership(n) => n in c && DistinctIds(c) && !Ends(Graph(c), Some(c[n].objectId)) && !Acyclic(c)
    case OwnerLookupCrash => exists n | n in c :: c[n].owner.Some? && c[n].owner.value !in Ids(c)
    case _ => false
  }

  lemma OwnersAcceptedIff(c: Components)
    ensures OwnersAccepted(c) <==>
            forall n :: !Blames(c, BadOwner(n)) && !Blames(c, SelfOwned(n)) && !Blames(c, UnknownOwner(n))
  {
    hide Canonical;
    forall n ensures (n in c ==> OwnerAccepted(c, n)) <==>
      !Blames(c, BadOwner(n)) && !Blames(c, SelfOwned(n)) && !Blames(c, UnknownOwner(n))
    {
    }
  }

  /** The first loop of the constructor; `seen` maps every normalized id to its alias. */
  method CheckIdentities(c: Components) returns (r: Result<map<string, string>, RepositoryError>)
    ensures r.Success? <==> Identified(c)
    ensures r.Success? ==> forall id | id in r.value :: r.value[id] in c && Canonical(c[r.value[id]].objectId) == Some(id)
    ensures r.Success? ==> forall n | n in c :: Recorded(c, r.value, n)
    ensures r.Failure? ==> (r.error.KeyMismatch? || r.error.BadObjectId? || r.error.DuplicateId?) && Blames(c, r.error)
  {
    hide Canonical;
    var seen: map<string, string> := map[];
    var todo := c.Keys;
    while todo != {}
      invariant todo <= c.Keys
      invariant forall n | n in c && n !in todo :: Recorded(c, seen, n)
      invariant forall id | id in seen :: seen[id] in c && seen[id] !in todo && Canonical(c[seen[id]].objectId) == Some(id)
    {
      var n :| n in todo;
      if n != c[n].componentId {
        return Failure(KeyMismatch(n));
      }
      var id := Canonical(c[n].objectId);
      if id.None? {
        return Failure(BadObjectId(n));
      }
      if id.value in seen && seen[id.value] != n {
        assert !DistinctIds(c);
        return Failure(DuplicateId(n));
      }
      seen := seen[id.value := n];
      todo := todo - {n};
    }
    RecordedIdentified(c, seen);
    return Success(seen);
  }

  /** The second loop of the constructor. */
  method CheckOwners(c: Components, seen: map<string, string>) returns (error: Option<RepositoryError>)
    requires forall id | id in seen :: seen[id] in c && Canonical(c[seen[id]].objectId) == Some(id)
    requires forall n | n in c :: Recorded(c, seen, n)
    ensures error.None? <==> forall n | n in c :: OwnerAccepted(c, n)
    ensures error.Some? ==>
      (error.value.BadOwner? || error.value.SelfOwned? || error.value.UnknownOwner?) && Blames(c, error.value)
  {
    hide Canonical;
    var todo := c.Keys;
    while todo != {}
      invariant forall n | n in c && n !in todo :: OwnerAccepted(c, n)
    {
      var n :| n in todo;
      todo := todo - {n};
      if c[n].owner.Some? {
        var id := Canonical(c[n].owner.value);
        if id.None? || id.value == c[n].objectId || id.value !in seen {
          assert !OwnerAccepted(c, n);
          return Some(if id.None? then BadOwner(n) else if id.value == c[n].objectId then SelfOwned(n) else UnknownOwner(n));
        }
        assert Canonical(c[seen[id.value]].objectId) == id;
      }
    }
    return None;
  }

  method ValidateOwnershipCycles(c: Components) returns (error: Option<RepositoryError>)
    requires Identified(c)
    ensures error.None? <==> Rooted(Graph(c))
    ensures error == Some(OwnerLookupCrash) ==> exists n | n in c :: c[n].owner.Some? && c[n].owner.value !in Ids(c)
    ensures error.Some? ==> (error.value.CyclicOwnership? || error.value == OwnerLookupCrash) && Blames(c, error.value)
    ensures error.Some? && error.value.CyclicOwnership? ==> !Acyclic(c)
  {
    hide Canonical, Graph;
    var todo := c.Keys;
    while todo != {}
      invariant forall n | n in c && n !in todo :: Ends(Graph(c), Some(c[n].objectId))
    {
      var n :| n in todo;
      todo := todo - {n};
      GraphAt(c, n);
      var outcome := WalkOwners(c, n);
      if outcome.Repeated? {
        return Some(CyclicOwnership(n));
      }
      if outcome.Left? {
        return Some(OwnerLookupCrash);
      }
    }
    forall id | id in Graph(c) ensures Ends(Graph(c), Some(id)) {
      var n := NameOf(c, id);
    }
    return None;
  }

  /**
   `ComponentRepository(components)`. It accepts exactly the valid mappings, and its three checks refuse in
   turn. Without a cycle the walk crashes exactly on an owner that is some object's id in another spelling:
   it passes the membership check, which normalizes, and fails the walk's lookup, which does not. With both a
   cycle and such an owner the dictionary's order decides.
   */
  method Construct(c: Components) returns (r: Outcome)
    ensures r.Success? <==> Valid(c)
    ensures r.Success? ==> r.value == c
    ensures r.Failure? ==> Blames(c, r.error)
    ensures !Identified(c) <==> r.Failure? && (r.error.KeyMismatch? || r.error.BadObjectId? || r.error.DuplicateId?)
    ensures Identified(c) && !OwnersAccepted(c) <==> r.Failure? && (r.error.BadOwner? || r.error.SelfOwned? || r.error.UnknownOwner?)
    ensures r.Failure? && r.error.CyclicOwnership? ==> Identified(c) && OwnersAccepted(c) && !Acyclic(c)
    ensures r == Failure(OwnerLookupCrash) ==> Identified(c) && MisspelledOwner(c)
    ensures Identified(c) && OwnersAccepted(c) && Acyclic(c) ==> (r == Failure(OwnerLookupCrash) <==> MisspelledOwner(c))
    ensures CanonicallySpelled(c) ==> r != Failure(OwnerLookupCrash)
  {
    hide Canonical, Graph, Acyclic;
    var identities := CheckIdentities(c);
    if identities.Failure? {
      return Failure(identities.error);
    }
    var error := CheckOwners(c, identities.value);
    if error.Some? {
      if Valid(c) {
        forall n | n in c ensures OwnerAccepted(c, n) { ValidOwnersAccepted(c, n); }
      }
      return Failure(error.value);
    }
    error := ValidateOwnershipCycles(c);
    if error.Some? {
      return Failure(error.value);
    }
    GraphIds(c);
    forall n | n in c && c[n].owner.Some? ensures c[n].owner.value in Ids(c) {
      GraphAt(c, n);
      RootedClosed(Graph(c), c[n].objectId);
    }
    return Success(c);
  }

  /** A repository of two objects, the second owned by the first under an id written without hyphens. */
  function Misspelled(body: Body): Components {
    map["Surface" := Definition("Surface", SampleId('a'), None, body),
        "Track" := Definition("Track", SampleId('b'), Some(Unhyphenated('a')), body)]
  }

  /** The crash occurs: every check before the walk passes, there is no cycle, and the lookup fails. */
  method MisspelledOwnerCrashes(body: Body) returns (r: Outcome)
    ensures r == Failure(OwnerLookupCrash)
  {
    hide Canonical, Graph, SampleId, Unhyphenated;
    var c := Misspelled(body);
    SampleIdSpellings('a');
    SampleIdSpellings('b');
    assert OwnerAccepted(c, "Track") by {
      assert Canonical(c["Surface"].objectId) == Canonical(c["Track"].owner.value);
    }
    assert Acyclic(c) by {
      MisspelledAcyclic(body);
    }
    assert Unhyphenated('a') !in Ids(c);
    r := Construct(c);
  }

  lemma MisspelledAcyclic(body: Body)
    ensures DistinctIds(Misspelled(body)) && Acyclic(Misspelled(body))
  {
    hide Canonical;
    SampleIdSpellings('a');
    SampleIdSpellings('b');
    var c := Misspelled(body);
    var g := Graph(c);
    hide SampleId, Unhyphenated;
    forall v, n: nat | v in g ensures !Passes(g, g[v], v, n) {
      assert v == SampleId('a') || v == SampleId('b');
      if v == SampleId('a') {
        GraphAt(c, "Surface");
      } else {
        GraphAt(c, "Track");
      }
    }
  }

  /** Some owner is an object's id in another spelling, and no object's id as written. */
  ghost predicate MisspelledOwner(c: Components) {
    exists n | n in c :: c[n].owner.Some? && c[n].owner.value !in Ids(c) && OwnerAccepted(c, n)
  }
}
