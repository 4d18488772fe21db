/**
 Normalization of a legacy repository for authoring: layout-only containers are marked hidden, visible
 objects are re-owned by their nearest visible ancestor and get readable aliases. Ids never change.
 */
module RepositoryNormalization {
  import opened Outcomes
  import opened Values
  import opened Ownership
  import opened Text
  import opened ComponentRepository
  import opened RepositoryEdits
  import opened SortOrder

  /** The two judgements normalization takes from elsewhere: what is layout only, and what an object is called. */
  datatype Policy = Policy(
    hides: (string, Option<string>, seq<Strategy>) -> bool,
    nameOf: Definition -> string)
  {
    predicate Hides(d: Definition) {
      hides(d.body.objectType, d.body.nativeClass, d.body.strategies)
    }

    /** Semantic names are never empty: without any text they are the name of the object's type. */
    ghost predicate Named() {
      forall d :: nameOf(d) != ""
    }
  }

  datatype Plan = Plan(
    repository: Components,
    renames: map<string, string>,
    structuralOnly: set<string>,
    reparented: set<(string, Option<string>, Option<string>)>,
    unchangedCount: int)
  {
    predicate Changed() {
      renames != map[] || structuralOnly != {} || reparented != {}
    }
  }

  // ----- repositories by id

  function ById(c: Components): map<string, Definition>
    requires DistinctIds(c)
  {
    map n | n in c :: c[n].objectId := c[n]
  }

  lemma ByIdAt(c: Components)
    requires DistinctIds(c)
    ensures forall n | n in c :: c[n].objectId in ById(c) && ById(c)[c[n].objectId] == c[n]
    ensures forall id | id in ById(c) :: id in Graph(c) && ById(c)[id].objectId == id && Graph(c)[id] == ById(c)[id].owner
    ensures KeysMatch(c) ==> forall id | id in ById(c) :: ById(c)[id].componentId in c && c[ById(c)[id].componentId] == ById(c)[id]
    ensures ById(c).Keys == Graph(c).Keys
  {
    hide Canonical;
  }

  predicate DistinctAliases(m: map<string, Definition>) {
    forall i, j | i in m && j in m && m[i].componentId == m[j].componentId :: i == j
  }

  /** Keying definitions by alias again loses none of them when the aliases are distinct. */
  function Rekeyed(m: map<string, Definition>): Components
    requires DistinctAliases(m)
  {
    map id | id in m :: m[id].componentId := m[id]
  }

  lemma RekeyedAt(m: map<string, Definition>)
    requires DistinctAliases(m) && forall id | id in m :: m[id].objectId == id
    ensures forall n | n in Rekeyed(m) :: Rekeyed(m)[n].componentId == n
    ensures forall n | n in Rekeyed(m) :: Rekeyed(m)[n].objectId in m && m[Rekeyed(m)[n].objectId] == Rekeyed(m)[n]
    ensures forall id | id in m :: m[id].componentId in Rekeyed(m) && Rekeyed(m)[m[id].componentId] == m[id]
  {
  }

  lemma IdsIdentify(c: Components)
    requires Identified(c)
    ensures forall i | i in ById(c) :: Canonical(i).Some?
    ensures forall i, j | i in ById(c) && j in ById(c) && Canonical(i) == Canonical(j) :: i == j
  {
    hide Canonical, ById;
    ByIdAt(c);
    forall i, j | i in ById(c) && j in ById(c) && Canonical(i) == Canonical(j) ensures i == j {
      var m, n := ById(c)[i].componentId, ById(c)[j].componentId;
      assert c[m].objectId == i && c[n].objectId == j;
    }
  }

  lemma RekeyedById(c: Components, m: map<string, Definition>)
    requires Identified(c) && DistinctAliases(m) && m.Keys == ById(c).Keys
    requires forall id | id in m :: m[id].objectId == id
    ensures Identified(Rekeyed(m)) && ById(Rekeyed(m)) == m
  {
    hide Canonical, ById, Rekeyed;
    var r := Rekeyed(m);
    IdsIdentify(c);
    RekeyedAt(m);
    forall a, b | a in r && b in r && Canonical(r[a].objectId) == Canonical(r[b].objectId) ensures a == b {
      assert r[a].objectId == r[b].objectId;
    }
    assert Identified(r);
    ByIdAt(r);
    MapsEqual(ById(r), m);
  }

  lemma MapsEqual(a: map<string, Definition>, b: map<string, Definition>)
    requires forall k | k in a :: k in b && a[k] == b[k]
    requires forall k | k in b :: k in a
    ensures a == b
  {
  }

  // ----- hidden and visible objects

  function StructuralIds(c: Components, policy: Policy): set<string> {
    set n | n in c && policy.Hides(c[n]) :: c[n].objectId
  }

  predicate MarkedStructural(d: Definition) {
    "authoring_visibility" in d.body.properties && d.body.properties["authoring_visibility"] == Str("structural_only")
  }

  function Unmarked(properties: map<string, Value>): map<string, Value> {
    properties - {"authoring_visibility", "structural_reason"}
  }

  /** A hidden object after normalization; its alias, owner and locators stay. */
  function HiddenForm(d: Definition): Definition {
    if MarkedStructural(d) then d
    else d.(body := d.body.(
      properties := d.body.properties["authoring_visibility" := Str("structural_only")]["structural_reason" := Str("legacy_layout_container")],
      revision := d.body.revision + 1))
  }

  /** A visible object after normalization, under its new alias and owner. */
  function VisibleForm(d: Definition, name: string, owner: Option<string>): Definition {
    var properties := Unmarked(d.body.properties);
    var changed := name != d.componentId || owner != d.owner || properties != d.body.properties;
    d.(componentId := name, owner := owner,
       body := d.body.(properties := properties, revision := if changed then d.body.revision + 1 else d.body.revision))
  }

  lemma FormsRevise(d: Definition, name: string, owner: Option<string>)
    ensures HiddenForm(d) == d <==> MarkedStructural(d)
    ensures VisibleForm(d, name, owner) == d <==>
      name == d.componentId && owner == d.owner && Unmarked(d.body.properties) == d.body.properties
  {
  }

  /** The visible owner the id is listed under while authoring. */
  ghost function VisibleOwner(c: Components, skipped: set<string>, id: string): Option<string>
    requires Valid(c) && id in ById(c)
  {
    ByIdAt(c);
    EndsStep(Graph(c), id);
    Nearest(Graph(c), skipped, Graph(c)[id])
  }

  lemma NotVisited(parents: Owners, owner: Option<string>, n: nat, visited: set<string>)
    requires owner.Some? && EndsIn(parents, owner, n)
    requires forall v | v in visited :: exists k: nat :: n < k && EndsIn(parents, Some(v), k)
    ensures owner.value !in visited
  {
    if owner.value in visited {
      var k: nat :| n < k && EndsIn(parents, owner, k);
      EndsInUnique(parents, owner, n, k);
    }
  }

  /** `_nearest_visible_owner`. */
  method NearestVisibleOwner(c: Components, parents: Owners, structuralIds: set<string>, id: string) returns (r: Option<string>)
    requires Valid(c) && parents == Graph(c) && id in ById(c)
    ensures r == VisibleOwner(c, structuralIds, id)
    ensures r.Some? ==> r.value in ById(c) && r.value !in structuralIds
  {
    hide Canonical, Graph, ById;
    ByIdAt(c);
    hide Identified, Rooted;
    EndsStep(parents, id);
    var owner := parents[id];
    var visited: set<string> := {};
    ghost var n: nat := Length(parents, owner);
    ghost var start := owner;
    SkipIsFirst(parents, structuralIds, start, Length(parents, start));
    while owner.Some?
      invariant EndsIn(parents, owner, n)
      invariant Skip(parents, structuralIds, owner, n) == Nearest(parents, structuralIds, start)
      invariant forall v | v in visited :: exists k: nat :: n < k && EndsIn(parents, Some(v), k)
      decreases n
    {
      NotVisited(parents, owner, n, visited);
      if owner.value in visited {
        assert false;
      }
      visited := visited + {owner.value};
      if owner.value !in structuralIds {
        return owner;
      }
      owner := parents[owner.value];
      n := n - 1;
    }
    return None;
  }

  // ----- what normalization produces

  /** How `after`, keyed by id, arises from `c`. */
  ghost predicate NormalForm(c: Components, policy: Policy, after: map<string, Definition>) {
    && Valid(c) && after.Keys == ById(c).Keys
    && var structural := StructuralIds(c, policy);
       forall id | id in after ::
         var before := ById(c)[id];
         after[id] == if id in structural then HiddenForm(before)
                      else VisibleForm(before, after[id].componentId, VisibleOwner(c, structural, id))
  }

  /** `name` is what allocation gives an object called `base` when some of the other aliases are taken. */
  ghost predicate Allocated(name: string, base: string, others: set<string>) {
    exists taken :: taken <= others && name == UniqueName(base, " ", taken)
  }

  lemma AllocatedAmongMore(name: string, base: string, others: set<string>, more: set<string>)
    requires Allocated(name, base, others) && others <= more
    ensures Allocated(name, base, more)
  {
    hide UniqueName;
  }

  lemma AllocatedFacts(name: string, base: string, others: set<string>)
    requires Allocated(name, base, others)
    ensures base !in others ==> name == base
    ensures base != "" ==> name != ""
  {
  }

  function OtherAliases(m: map<string, Definition>, id: string): set<string> {
    set j | j in m && j != id :: m[j].componentId
  }

  /** Every visible alias is the object's semantic name, or a numbered variant where another object has that name. */
  ghost predicate SemanticallyNamed(c: Components, policy: Policy, after: map<string, Definition>)
    requires DistinctIds(c)
  {
    forall id | id in after && id in ById(c) && !policy.Hides(ById(c)[id]) ::
      Allocated(after[id].componentId, policy.nameOf(ById(c)[id]), OtherAliases(after, id))
  }

  lemma HidesById(c: Components, policy: Policy)
    requires Identified(c)
    ensures forall id | id in ById(c) :: id in StructuralIds(c, policy) <==> policy.Hides(ById(c)[id])
    ensures StructuralIds(c, policy) <= ById(c).Keys
  {
    hide Canonical, ById;
    ByIdAt(c);
  }

  lemma NormalFormGraph(c: Components, policy: Policy, r: Components)
    requires Identified(r) && NormalForm(c, policy, ById(r))
    ensures Graph(r).Keys == Graph(c).Keys
    ensures Bypasses(Graph(c), StructuralIds(c, policy), Graph(r))
    ensures forall v | v in Graph(c) && v in StructuralIds(c, policy) :: Graph(r)[v] == Graph(c)[v]
  {
    hide Canonical, Graph, ById, StructuralIds;
    ByIdAt(c);
    ByIdAt(r);
    forall v | v in Graph(c) ensures Ends(Graph(c), Graph(c)[v]) {
      EndsStep(Graph(c), v);
    }
  }

  /** The constructor accepts the normalized repository: every chain still reaches a root. */
  lemma NormalFormValid(c: Components, policy: Policy, r: Components)
    requires Identified(r) && NormalForm(c, policy, ById(r))
    ensures Valid(r)
  {
    hide Canonical, Graph, ById, StructuralIds, NormalForm;
    assert Valid(c) by { NormalFormSource(c, policy, r); }
    NormalFormGraph(c, policy, r);
    forall v | v in Graph(r) ensures Ends(Graph(r), Some(v)) {
      KeptOwnerEnds(Graph(c), StructuralIds(c, policy), Graph(r), Some(v), Length(Graph(c), Some(v)));
    }
  }

  lemma NormalFormSource(c: Components, policy: Policy, r: Components)
    requires Identified(r) && NormalForm(c, policy, ById(r))
    ensures Valid(c)
  {
  }

  /** Among visible objects "is an ancestor of" is the same before and after. */
  lemma NormalizationKeepsVisibleAncestors(c: Components, policy: Policy, r: Components, v: string, a: string)
    requires Identified(r) && NormalForm(c, policy, ById(r))
    requires v in ById(c) && !policy.Hides(ById(c)[v]) && a in ById(c) && !policy.Hides(ById(c)[a])
    ensures Ancestor(Graph(r), v, a) <==> Ancestor(Graph(c), v, a)
  {
    hide Canonical, Graph, ById, StructuralIds;
    NormalFormGraph(c, policy, r);
    HidesById(c, policy);
    ByIdAt(c);
    BypassKeepsAncestors(Graph(c), StructuralIds(c, policy), Graph(r), v, a);
  }

  // ----- planning

  /** The aliases that are not for `id`: those hidden objects keep and those given to others. */
  function TakenFrom(kept: set<string>, nameById: map<string, string>, id: string): set<string> {
    kept + set j | j in nameById && j != id :: nameById[j]
  }

  /** The renames that giving these aliases amounts to, by old alias. */
  function RenamesTo(byId: map<string, Definition>, nameById: map<string, string>): map<string, string>
    requires DistinctAliases(byId)
  {
    map id | id in byId && id in nameById && nameById[id] != byId[id].componentId :: byId[id].componentId := nameById[id]
  }

  function RenamedOne(byId: map<string, Definition>, renames: map<string, string>, id: string, name: string): map<string, string>
    requires id in byId
  {
    if name != byId[id].componentId then renames[byId[id].componentId := name] else renames
  }

  lemma RenamesToStep(byId: map<string, Definition>, nameById: map<string, string>, id: string, name: string)
    requires DistinctAliases(byId) && id in byId && id !in nameById
    ensures RenamesTo(byId, nameById[id := name]) == RenamedOne(byId, RenamesTo(byId, nameById), id, name)
  {
    var renames, more := RenamesTo(byId, nameById), RenamesTo(byId, nameById[id := name]);
    RenamedAliases(byId, nameById[id := name]);
    RenamedAliases(byId, nameById);
    assert forall k | k in RenamedOne(byId, renames, id, name) :: k in renames || k == byId[id].componentId;
    hide RenamesTo, DistinctAliases, RenamedOne, SameAt;
    forall i | i in byId ensures SameAt(more, RenamedOne(byId, renames, id, name), byId[i].componentId) {
      RenamesStepAt(byId, nameById, id, name, i);
    }
    SameOnAliases(byId, more, RenamedOne(byId, renames, id, name));
  }

  lemma SameOnAliases(byId: map<string, Definition>, a: map<string, string>, b: map<string, string>)
    requires forall k | k in a || k in b :: exists i :: i in byId && byId[i].componentId == k
    requires forall i | i in byId :: SameAt(a, b, byId[i].componentId)
    ensures a == b
  {
    hide SameAt;
    forall k | k in a || k in b ensures SameAt(a, b, k) {}
    SameMaps(a, b);
  }

  lemma RenamesStepAt(byId: map<string, Definition>, nameById: map<string, string>, id: string, name: string, i: string)
    requires DistinctAliases(byId) && id in byId && id !in nameById && i in byId
    ensures SameAt(RenamesTo(byId, nameById[id := name]), RenamedOne(byId, RenamesTo(byId, nameById), id, name), byId[i].componentId)
  {
    hide RenamesTo;
    RenameOf(byId, nameById[id := name], i);
    RenameOf(byId, nameById, i);
    assert byId[i].componentId == byId[id].componentId ==> i == id;
  }

  predicate SameAt(a: map<string, string>, b: map<string, string>, k: string) {
    (k in a <==> k in b) && (k in a ==> a[k] == b[k])
  }

  lemma SameMaps(a: map<string, string>, b: map<string, string>)
    requires forall k | k in a || k in b :: SameAt(a, b, k)
    ensures a == b
  {
  }

  lemma RenameOf(byId: map<string, Definition>, nameById: map<string, string>, i: string)
    requires DistinctAliases(byId) && i in byId
    ensures var renames, k := RenamesTo(byId, nameById), byId[i].componentId;
      && (k in renames <==> i in nameById && nameById[i] != k)
      && (k in renames ==> renames[k] == nameById[i])
  {
  }

  lemma RenamedAliases(byId: map<string, Definition>, nameById: map<string, string>)
    requires DistinctAliases(byId)
    ensures forall k | k in RenamesTo(byId, nameById) :: exists i :: i in byId && byId[i].componentId == k
  {
  }

  lemma TakenStep(kept: set<string>, nameById: map<string, string>, id: string, name: string)
    requires id !in nameById
    ensures TakenFrom(kept, nameById[id := name], id) == kept + nameById.Values
    ensures forall j | j in nameById :: TakenFrom(kept, nameById, j) <= TakenFrom(kept, nameById[id := name], j)
    ensures nameById[id := name].Values == nameById.Values + {name}
  {
    var more := nameById[id := name];
    forall j | j in nameById ensures TakenFrom(kept, nameById, j) <= TakenFrom(kept, more, j) {
      forall k | k in nameById ensures k in more && more[k] == nameById[k] {}
    }
    forall v ensures v in more.Values <==> v in nameById.Values || v == name {
      if v in nameById.Values {
        var j :| j in nameById && nameById[j] == v;
        assert more[j] == v;
      }
      assert more[id] == name;
    }
    forall v | v in nameById.Values ensures v in TakenFrom(kept, more, id) {
      var j :| j in nameById && nameById[j] == v;
      assert j != id && more[j] == v;
    }
  }

  /** The aliases that are taken when the object's turn comes: those hidden objects keep and those given before. */
  function TakenInTurn(visible: map<string, Definition>, kept: set<string>, nameById: map<string, string>, id: string): set<string>
    requires id in visible
  {
    kept + set j | j in nameById && j in visible && Precedes(visible[j], visible[id]) :: nameById[j]
  }

  /** Every object has the name that was free when its turn came. */
  ghost predicate NamedInTurn(visible: map<string, Definition>, policy: Policy, kept: set<string>, nameById: map<string, string>) {
    forall id | id in nameById && id in visible ::
      nameById[id] == UniqueName(policy.nameOf(visible[id]), " ", TakenInTurn(visible, kept, nameById, id))
  }

  lemma NextInTurn(visible: map<string, Definition>, policy: Policy, kept: set<string>, nameById: map<string, string>,
                   id: string, name: string)
    requires NamedInTurn(visible, policy, kept, nameById) && nameById.Keys <= visible.Keys
    requires id in visible && id !in nameById && forall j | j in nameById :: Precedes(visible[j], visible[id])
    requires name == UniqueName(policy.nameOf(visible[id]), " ", kept + nameById.Values)
    ensures NamedInTurn(visible, policy, kept, nameById[id := name])
  {
    hide UniqueName, Precedes;
    var more := nameById[id := name];
    if Precedes(visible[id], visible[id]) { PrecedesAsymmetric(visible[id], visible[id]); }
    assert TakenInTurn(visible, kept, more, id) == kept + nameById.Values;
    forall j | j in nameById ensures TakenInTurn(visible, kept, more, j) == TakenInTurn(visible, kept, nameById, j) {
      PrecedesAsymmetric(visible[j], visible[id]);
    }
  }

  /** Every alias is its object's name, or a numbered variant where others have the lower ones. */
  ghost predicate AllAllocated(visible: map<string, Definition>, policy: Policy, kept: set<string>, nameById: map<string, string>) {
    forall id | id in nameById && id in visible :: Allocated(nameById[id], policy.nameOf(visible[id]), TakenFrom(kept, nameById, id))
  }

  lemma NoneAllocated(visible: map<string, Definition>, policy: Policy, kept: set<string>)
    ensures AllAllocated(visible, policy, kept, map[])
  {
  }

  lemma NextAllocated(visible: map<string, Definition>, policy: Policy, kept: set<string>, nameById: map<string, string>,
                      id: string, name: string)
    requires AllAllocated(visible, policy, kept, nameById) && id in visible && id !in nameById
    requires name == UniqueName(policy.nameOf(visible[id]), " ", kept + nameById.Values)
    ensures AllAllocated(visible, policy, kept, nameById[id := name])
  {
    hide UniqueName, TakenFrom, Allocated;
    TakenStep(kept, nameById, id, name);
    AllocatedNow(name, policy.nameOf(visible[id]), kept + nameById.Values);
    forall j | j in nameById && j in visible
      ensures Allocated(nameById[j], policy.nameOf(visible[j]), TakenFrom(kept, nameById[id := name], j))
    {
      AllocatedAmongMore(nameById[j], policy.nameOf(visible[j]), TakenFrom(kept, nameById, j), TakenFrom(kept, nameById[id := name], j));
    }
  }

  /** Allocates an alias for every visible object, in their order, around the aliases hidden objects keep and each other. */
  method AllocateNames(visible: map<string, Definition>, policy: Policy, kept: set<string>)
      returns (nameById: map<string, string>, renames: map<string, string>)
    requires DistinctAliases(visible) && Keyed(visible)
    ensures nameById.Keys == visible.Keys && NamedInTurn(visible, policy, kept, nameById)
    ensures forall id | id in nameById :: nameById[id] !in kept
    ensures AllAllocated(visible, policy, kept, nameById)
    ensures forall i, j | i in nameById && j in nameById && nameById[i] == nameById[j] :: i == j
    ensures renames == RenamesTo(visible, nameById)
  {
    hide AllAllocated, UniqueName, Allocated, TakenFrom, DistinctAliases, RenamesTo, NamedInTurn, Precedes;
    var reserved := kept;
    var todo := visible.Keys;
    nameById, renames := map[], map[];
    RenamesToNothing(visible);
    NoneInTurn(visible, policy, kept);
    NoneAllocated(visible, policy, kept);
    while todo != {}
      invariant todo <= visible.Keys && nameById.Keys == visible.Keys - todo
      invariant reserved == kept + nameById.Values && NamedInTurn(visible, policy, kept, nameById)
      invariant forall j, k | j in nameById && k in todo :: Precedes(visible[j], visible[k])
      invariant forall id | id in nameById :: nameById[id] !in kept
      invariant AllAllocated(visible, policy, kept, nameById)
      invariant forall i, j | i in nameById && j in nameById && nameById[i] == nameById[j] :: i == j
      invariant renames == RenamesTo(visible, nameById)
    {
      ghost var first := FirstOf(visible, todo);
      var id :| id in todo && forall j | j in todo && j != id :: Precedes(visible[id], visible[j]);
      NextInTurn(visible, policy, kept, nameById, id, UniqueName(policy.nameOf(visible[id]), " ", reserved));
      var candidate := AllocateName(policy.nameOf(visible[id]), " ", reserved);
      UniqueNameIsFree(policy.nameOf(visible[id]), " ", reserved);
      TakenStep(kept, nameById, id, candidate);
      RenamesToStep(visible, nameById, id, candidate);
      NextAllocated(visible, policy, kept, nameById, id, candidate);
      forall j | j in nameById ensures nameById[j] != candidate {
        assert nameById[j] in nameById.Values;
      }
      reserved := reserved + {candidate};
      nameById := nameById[id := candidate];
      if candidate != visible[id].componentId {
        renames := renames[visible[id].componentId := candidate];
      }
      todo := todo - {id};
    }
  }

  lemma NoneInTurn(visible: map<string, Definition>, policy: Policy, kept: set<string>)
    ensures NamedInTurn(visible, policy, kept, map[])
  {
  }

  lemma RenamesToNothing(byId: map<string, Definition>)
    requires DistinctAliases(byId)
    ensures RenamesTo(byId, map[]) == map[]
  {
  }

  lemma AllocatedNow(name: string, base: string, taken: set<string>)
    requires name == UniqueName(base, " ", taken)
    ensures Allocated(name, base, taken)
  {
    hide UniqueName;
  }

  method Hide(d: Definition) returns (r: Definition, changed: bool)
    ensures r == HiddenForm(d)
    ensures changed <==> r != d
  {
    FormsRevise(d, "", None);
    changed := !MarkedStructural(d);
    r := d;
    if changed {
      var properties := d.body.properties;
      properties := properties["authoring_visibility" := Str("structural_only")];
      properties := properties["structural_reason" := Str("legacy_layout_container")];
      r := d.(body := d.body.(properties := properties, revision := d.body.revision + 1));
    }
  }

  method Show(d: Definition, name: string, owner: Option<string>) returns (r: Definition, changed: bool)
    ensures r == VisibleForm(d, name, owner)
    ensures changed <==> r != d
  {
    FormsRevise(d, name, owner);
    var properties := d.body.properties - {"authoring_visibility"};
    properties := properties - {"structural_reason"};
    assert properties == Unmarked(d.body.properties);
    changed := name != d.componentId || owner != d.owner || properties != d.body.properties;
    r := d.(componentId := name, owner := owner,
            body := d.body.(properties := properties, revision := if changed then d.body.revision + 1 else d.body.revision));
  }

  function Differing(before: map<string, Definition>, after: map<string, Definition>): set<string> {
    set id | id in before && id in after && after[id] != before[id]
  }

  lemma DifferingStep(before: map<string, Definition>, after: map<string, Definition>, id: string, d: Definition)
    requires id in before && id !in after
    ensures Differing(before, after[id := d]) == Differing(before, after) + if d != before[id] then {id} else {}
  {
  }

  lemma DifferingNothing(before: map<string, Definition>)
    ensures Differing(before, map[]) == {}
  {
  }

  lemma DifferingPart(before: map<string, Definition>, ids: set<string>, after: map<string, Definition>)
    requires ids <= before.Keys && after.Keys <= ids
    ensures Differing(map id | id in ids :: before[id], after) == Differing(before, after)
  {
  }

  lemma DifferingJoined(before: map<string, Definition>, a: map<string, Definition>, b: map<string, Definition>)
    requires a.Keys !! b.Keys
    ensures Differing(before, a + b) == Differing(before, a) + Differing(before, b)
  {
  }

  method HideContainers(hidden: map<string, Definition>) returns (final: map<string, Definition>, changedIds: set<string>)
    ensures final.Keys == hidden.Keys && forall id | id in final :: final[id] == HiddenForm(hidden[id])
    ensures changedIds == Differing(hidden, final)
  {
    hide HiddenForm, Differing;
    var todo := hidden.Keys;
    final, changedIds := map[], {};
    DifferingNothing(hidden);
    while todo != {}
      invariant todo <= hidden.Keys
      invariant final.Keys == hidden.Keys - todo && forall id | id in final :: final[id] == HiddenForm(hidden[id])
      invariant changedIds == Differing(hidden, final)
    {
      var id :| id in todo;
      todo := todo - {id};
      var definition, changed := Hide(hidden[id]);
      DifferingStep(hidden, final, id, definition);
      if changed {
        changedIds := changedIds + {id};
      }
      final := final[id := definition];
    }
  }

  /** An entry of the plan's list of reparented objects: new alias, old parent's alias, new parent's alias. */
  function Move(before: map<string, Definition>, after: map<string, Definition>, id: string): (string, Option<string>, Option<string>)
    requires id in before && id in after
  {
    var from, to := before[id].owner, after[id].owner;
    (after[id].componentId,
     if from.Some? && from.value in before then Some(before[from.value].componentId) else None,
     if to.Some? && to.value in after then Some(after[to.value].componentId) else None)
  }

  /** What the loop over the visible objects makes of one of them. */
  ghost function Shown(c: Components, structuralIds: set<string>, nameById: map<string, string>, id: string): Definition
    requires Valid(c) && id in ById(c) && id in nameById
  {
    VisibleForm(ById(c)[id], nameById[id], VisibleOwner(c, structuralIds, id))
  }

  /** What the loop reports for an object that gets another owner: its new alias, the old and the new owner's alias. */
  function Relocation(byId: map<string, Definition>, nameById: map<string, string>, id: string, to: Option<string>)
      : (string, Option<string>, Option<string>)
    requires id in byId && id in nameById
  {
    var from := byId[id].owner;
    (nameById[id],
     if from.Some? && from.value in byId then Some(byId[from.value].componentId) else None,
     if to.Some? && to.value in nameById then Some(nameById[to.value]) else None)
  }

  /** The reports for all of `ids` that get another owner. */
  ghost function Relocations(c: Components, structuralIds: set<string>, nameById: map<string, string>, ids: set<string>)
      : set<(string, Option<string>, Option<string>)>
    requires Valid(c) && ids <= nameById.Keys <= ById(c).Keys
  {
    set id | id in ids && Rehomed(c, structuralIds, id) :: Relocation(ById(c), nameById, id, VisibleOwner(c, structuralIds, id))
  }

  lemma RelocationsStep(c: Components, structuralIds: set<string>, nameById: map<string, string>, ids: set<string>, id: string)
    requires Valid(c) && ids <= nameById.Keys <= ById(c).Keys && id in nameById
    ensures Relocations(c, structuralIds, nameById, ids + {id}) ==
      if Rehomed(c, structuralIds, id)
      then Relocations(c, structuralIds, nameById, ids) + {Relocation(ById(c), nameById, id, VisibleOwner(c, structuralIds, id))}
      else Relocations(c, structuralIds, nameById, ids)
  {
    hide Canonical, ById, Graph, VisibleOwner, Relocation, Valid, Rehomed;
  }

  lemma RelocationsNone(c: Components, structuralIds: set<string>, nameById: map<string, string>)
    requires Valid(c) && nameById.Keys <= ById(c).Keys
    ensures Relocations(c, structuralIds, nameById, {}) == {}
  {
  }

  lemma ShownAs(c: Components, structuralIds: set<string>, nameById: map<string, string>, id: string)
    requires Valid(c) && id in ById(c) && id in nameById
    ensures Shown(c, structuralIds, nameById, id) == VisibleForm(ById(c)[id], nameById[id], VisibleOwner(c, structuralIds, id))
    ensures Rehomed(c, structuralIds, id) <==> VisibleOwner(c, structuralIds, id) != ById(c)[id].owner
  {
  }

  ghost predicate Rehomed(c: Components, structuralIds: set<string>, id: string)
    requires Valid(c) && id in ById(c)
  {
    VisibleOwner(c, structuralIds, id) != ById(c)[id].owner
  }

  /**
   The loop over the visible objects. The alias it reports for a new owner falls back to whatever definition
   that owner has at the time if its new alias is empty, which names are not.
   */
  method RehomeVisible(c: Components, structuralIds: set<string>, nameById: map<string, string>)
      returns (final: map<string, Definition>, changedIds: set<string>, reparented: set<(string, Option<string>, Option<string>)>)
    requires Valid(c) && nameById.Keys == ById(c).Keys - structuralIds
    ensures final.Keys == nameById.Keys && forall id | id in final :: final[id] == Shown(c, structuralIds, nameById, id)
    ensures changedIds == Differing(ById(c), final)
    ensures (reparented == {}) <==> forall id | id in nameById :: !Rehomed(c, structuralIds, id)
    ensures (forall id | id in nameById :: nameById[id] != "") ==>
      reparented == Relocations(c, structuralIds, nameById, nameById.Keys)
  {
    hide Canonical, ById, Graph, VisibleForm, VisibleOwner, Relocation, Relocations, Rehomed, Shown, Differing;
    DifferingNothing(ById(c));
    RelocationsNone(c, structuralIds, nameById);
    var todo := nameById.Keys;
    var byId, parents := ById(c), Graph(c);
    hide Valid;
    final, changedIds, reparented := map[], {}, {};
    assert final.Keys == {};
    while todo != {}
      invariant todo <= nameById.Keys
      invariant final.Keys == nameById.Keys - todo && forall id | id in final :: final[id] == Shown(c, structuralIds, nameById, id)
      invariant changedIds == Differing(byId, final)
      invariant reparented == {} <==> forall id | id in final :: !Rehomed(c, structuralIds, id)
      invariant (forall id | id in nameById :: nameById[id] != "") ==>
        reparented == Relocations(c, structuralIds, nameById, final.Keys)
    {
      var id :| id in todo;
      todo := todo - {id};
      var desired := NearestVisibleOwner(c, parents, structuralIds, id);
      var definition, changed := Show(byId[id], nameById[id], desired);
      ShownAs(c, structuralIds, nameById, id);
      DifferingStep(byId, final, id, definition);
      RelocationsStep(c, structuralIds, nameById, final.Keys, id);
      if changed {
        changedIds := changedIds + {id};
      }
      if desired != byId[id].owner {
        var entry := Report(byId, nameById, final, id, desired);
        reparented := reparented + {entry};
      }
      assert final[id := definition].Keys == final.Keys + {id};
      final := final[id := definition];
    }
  }

  method Report(byId: map<string, Definition>, nameById: map<string, string>, final: map<string, Definition>,
                id: string, desired: Option<string>)
      returns (entry: (string, Option<string>, Option<string>))
    requires id in byId && id in nameById && (desired.Some? ==> desired.value in byId && desired.value in nameById)
    ensures (forall j | j in nameById :: nameById[j] != "") ==> entry == Relocation(byId, nameById, id, desired)
  {
    var current := byId[id].owner;
    var oldParent := if current.Some? && current.value in byId then Some(byId[current.value].componentId) else None;
    var newParent: Option<string> := None;
    if desired.Some? {
      newParent := Some(nameById[desired.value]);
      if nameById[desired.value] == "" {
        var known := if desired.value in final then final[desired.value] else byId[desired.value];
        newParent := Some(known.componentId);
      }
    }
    return (nameById[id], oldParent, newParent);
  }

  function Moves(before: map<string, Definition>, after: map<string, Definition>): set<(string, Option<string>, Option<string>)> {
    set id | id in before && id in after && after[id].owner != before[id].owner :: Move(before, after, id)
  }

  function Renames(before: map<string, Definition>, after: map<string, Definition>): map<string, string>
    requires DistinctAliases(before)
  {
    map id | id in before && id in after && after[id].componentId != before[id].componentId ::
      before[id].componentId := after[id].componentId
  }

  function Visible(byId: map<string, Definition>, structuralIds: set<string>): map<string, Definition> {
    map id | id in byId && id !in structuralIds :: byId[id]
  }

  function KeptAliases(byId: map<string, Definition>, structuralIds: set<string>): set<string> {
    set id | id in byId && id in structuralIds :: byId[id].componentId
  }

  /** The aliases allocation hands out, around those the hidden objects keep. */
  ghost predicate WellNamed(byId: map<string, Definition>, policy: Policy, structuralIds: set<string>, nameById: map<string, string>) {
    && nameById.Keys == byId.Keys - structuralIds
    && (forall id | id in nameById :: Allocated(nameById[id], policy.nameOf(byId[id]), TakenFrom(KeptAliases(byId, structuralIds), nameById, id)))
    && (forall i, j | i in nameById && j in nameById && nameById[i] == nameById[j] :: i == j)
    && (forall i, j | i in nameById && j in byId && j in structuralIds :: nameById[i] != byId[j].componentId)
  }

  ghost predicate Assembled(c: Components, structuralIds: set<string>, nameById: map<string, string>, final: map<string, Definition>) {
    && Valid(c) && final.Keys == ById(c).Keys && nameById.Keys == ById(c).Keys - structuralIds
    && forall id | id in final ::
         final[id] == if id in structuralIds then HiddenForm(ById(c)[id]) else Shown(c, structuralIds, nameById, id)
  }

  lemma FormsKeepIdentity(d: Definition, name: string, owner: Option<string>)
    ensures HiddenForm(d).objectId == VisibleForm(d, name, owner).objectId == d.objectId
    ensures HiddenForm(d).componentId == d.componentId && VisibleForm(d, name, owner).componentId == name
  {
  }

  lemma AssembledIdentities(c: Components, structuralIds: set<string>, nameById: map<string, string>, final: map<string, Definition>)
    requires Assembled(c, structuralIds, nameById, final)
    ensures forall id | id in final :: final[id].objectId == id
    ensures forall id | id in final :: final[id].componentId == if id in structuralIds then ById(c)[id].componentId else nameById[id]
  {
    hide Canonical, ById, Graph, VisibleOwner, HiddenForm, VisibleForm;
    ByIdAt(c);
    forall id | id in final
      ensures final[id].objectId == id
      ensures final[id].componentId == if id in structuralIds then ById(c)[id].componentId else nameById[id]
    {
      if id in structuralIds {
        FormsKeepIdentity(ById(c)[id], "", None);
      } else {
        FormsKeepIdentity(ById(c)[id], nameById[id], VisibleOwner(c, structuralIds, id));
      }
    }
  }

  lemma AssembledAliases(c: Components, policy: Policy, structuralIds: set<string>, nameById: map<string, string>, final: map<string, Definition>)
    requires Assembled(c, structuralIds, nameById, final) && WellNamed(ById(c), policy, structuralIds, nameById)
    ensures DistinctAliases(ById(c)) && DistinctAliases(final)
  {
    hide Canonical, ById, Graph, Shown, HiddenForm, Assembled, Allocated;
    AssembledKeys(c, structuralIds, nameById, final);
    AssembledIdentities(c, structuralIds, nameById, final);
    ByIdAt(c);
  }

  lemma AssembledKeys(c: Components, structuralIds: set<string>, nameById: map<string, string>, final: map<string, Definition>)
    requires Assembled(c, structuralIds, nameById, final)
    ensures Valid(c) && final.Keys == ById(c).Keys && nameById.Keys == ById(c).Keys - structuralIds
  {
  }

  lemma AssembledNormalForm(c: Components, policy: Policy, nameById: map<string, string>, final: map<string, Definition>)
    requires Assembled(c, StructuralIds(c, policy), nameById, final) && WellNamed(ById(c), policy, StructuralIds(c, policy), nameById)
    ensures NormalForm(c, policy, final) && SemanticallyNamed(c, policy, final)
  {
    hide Canonical, ById, Graph, VisibleOwner, StructuralIds, HiddenForm, VisibleForm, Allocated, TakenFrom, OtherAliases;
    AssembledIdentities(c, StructuralIds(c, policy), nameById, final);
    HidesById(c, policy);
    forall id | id in final && !policy.Hides(ById(c)[id])
      ensures Allocated(final[id].componentId, policy.nameOf(ById(c)[id]), OtherAliases(final, id))
    {
      TakenByOthers(c, StructuralIds(c, policy), nameById, final, id);
      AllocatedAmongMore(nameById[id], policy.nameOf(ById(c)[id]),
                         TakenFrom(KeptAliases(ById(c), StructuralIds(c, policy)), nameById, id), OtherAliases(final, id));
    }
  }

  /** Every visible object has the name that was free when its turn came, the others following the sort order. */
  ghost predicate NamedInOrder(c: Components, policy: Policy, after: map<string, Definition>)
    requires DistinctIds(c)
  {
    var structuralIds := StructuralIds(c, policy);
    NamedInTurn(Visible(ById(c), structuralIds), policy, KeptAliases(ById(c), structuralIds), Aliases(after))
  }

  function Aliases(m: map<string, Definition>): map<string, string> {
    map id | id in m :: m[id].componentId
  }

  lemma AssembledInOrder(c: Components, policy: Policy, nameById: map<string, string>, final: map<string, Definition>)
    requires var structuralIds := StructuralIds(c, policy);
      && Assembled(c, structuralIds, nameById, final)
      && NamedInTurn(Visible(ById(c), structuralIds), policy, KeptAliases(ById(c), structuralIds), nameById)
    ensures NamedInOrder(c, policy, final)
  {
    hide Canonical, ById, Graph, HiddenForm, Shown, StructuralIds, UniqueName, Precedes, KeptAliases;
    var structuralIds := StructuralIds(c, policy);
    AssembledIdentities(c, structuralIds, nameById, final);
    InTurnAlike(Visible(ById(c), structuralIds), policy, KeptAliases(ById(c), structuralIds), nameById, Aliases(final));
  }

  lemma InTurnAlike(visible: map<string, Definition>, policy: Policy, kept: set<string>, a: map<string, string>, b: map<string, string>)
    requires NamedInTurn(visible, policy, kept, a)
    requires forall id | id in visible :: id in a && id in b && a[id] == b[id]
    ensures NamedInTurn(visible, policy, kept, b)
  {
    hide UniqueName, Precedes;
    forall id | id in visible ensures TakenInTurn(visible, kept, a, id) == TakenInTurn(visible, kept, b, id) {}
  }

  lemma TakenByOthers(c: Components, structuralIds: set<string>, nameById: map<string, string>, final: map<string, Definition>, id: string)
    requires Assembled(c, structuralIds, nameById, final) && id in nameById
    ensures TakenFrom(KeptAliases(ById(c), structuralIds), nameById, id) <= OtherAliases(final, id)
  {
    hide Canonical, ById, Graph, Shown, HiddenForm;
    AssembledIdentities(c, structuralIds, nameById, final);
    forall j | j in nameById && j != id ensures nameById[j] in OtherAliases(final, id) {
      assert final[j].componentId == nameById[j];
    }
    forall j | j in ById(c) && j in structuralIds ensures ById(c)[j].componentId in OtherAliases(final, id) {
      assert final[j].componentId == ById(c)[j].componentId;
    }
  }

  /** What the two loops report is what differs between the repository before and after. */
  lemma ReportsAreExact(c: Components, structuralIds: set<string>, nameById: map<string, string>, final: map<string, Definition>)
    requires Assembled(c, structuralIds, nameById, final) && DistinctAliases(ById(c))
    ensures RenamesTo(ById(c), nameById) == Renames(ById(c), final)
    ensures Relocations(c, structuralIds, nameById, nameById.Keys) == Moves(ById(c), final)
    ensures (forall id | id in nameById :: !Rehomed(c, structuralIds, id)) <==> Moves(ById(c), final) == {}
  {
    hide Canonical, ById, Graph, VisibleOwner, Assembled, Rehomed, Relocations, Moves, RenamesTo, Renames;
    AssembledKeys(c, structuralIds, nameById, final);
    AssembledIdentities(c, structuralIds, nameById, final);
    RenamesToAre(ById(c), structuralIds, nameById, final);
    forall id | id in ById(c) ensures ReportedAsMoved(c, structuralIds, nameById, final, id) {
      RelocationIsMove(c, structuralIds, nameById, final, id);
    }
    RelocationsAreMoves(c, structuralIds, nameById, final);
  }

  /** An object is reported as moved exactly when its owner differs, and then as what it is. */
  ghost predicate ReportedAsMoved(c: Components, structuralIds: set<string>, nameById: map<string, string>, final: map<string, Definition>, id: string)
    requires Valid(c) && id in ById(c) && id in final
  {
    && (final[id].owner != ById(c)[id].owner <==> id in nameById && Rehomed(c, structuralIds, id))
    && (id in nameById ==> Relocation(ById(c), nameById, id, VisibleOwner(c, structuralIds, id)) == Move(ById(c), final, id))
  }

  lemma RelocationsAreMoves(c: Components, structuralIds: set<string>, nameById: map<string, string>, final: map<string, Definition>)
    requires Valid(c) && final.Keys == ById(c).Keys && nameById.Keys <= ById(c).Keys
    requires forall id | id in ById(c) :: ReportedAsMoved(c, structuralIds, nameById, final, id)
    ensures Relocations(c, structuralIds, nameById, nameById.Keys) == Moves(ById(c), final)
    ensures (forall id | id in nameById :: !Rehomed(c, structuralIds, id)) <==> Moves(ById(c), final) == {}
  {
    hide Canonical, ById, Graph, VisibleOwner, Rehomed, Relocation, Move, Rooted;
    var relocations, moves := Relocations(c, structuralIds, nameById, nameById.Keys), Moves(ById(c), final);
    forall entry | entry in relocations ensures entry in moves {
      var id :| id in nameById && Rehomed(c, structuralIds, id) && entry == Relocation(ById(c), nameById, id, VisibleOwner(c, structuralIds, id));
      assert ReportedAsMoved(c, structuralIds, nameById, final, id);
    }
    forall entry | entry in moves ensures entry in relocations {
      var id :| id in ById(c) && id in final && final[id].owner != ById(c)[id].owner && entry == Move(ById(c), final, id);
      assert ReportedAsMoved(c, structuralIds, nameById, final, id);
    }
    if id :| id in nameById && Rehomed(c, structuralIds, id) {
      assert ReportedAsMoved(c, structuralIds, nameById, final, id);
      assert Move(ById(c), final, id) in moves;
    }
  }

  lemma RenamesToAre(byId: map<string, Definition>, structuralIds: set<string>, nameById: map<string, string>, final: map<string, Definition>)
    requires DistinctAliases(byId) && final.Keys == byId.Keys && nameById.Keys == byId.Keys - structuralIds
    requires forall id | id in final :: final[id].componentId == if id in structuralIds then byId[id].componentId else nameById[id]
    ensures RenamesTo(byId, nameById) == Renames(byId, final)
  {
    RenamedAliases(byId, nameById);
    RenamedTo(byId, final);
    hide RenamesTo, Renames, DistinctAliases;
    forall i | i in byId ensures SameAt(RenamesTo(byId, nameById), Renames(byId, final), byId[i].componentId) {
      RenameOf(byId, nameById, i);
      RenameTo(byId, final, i);
    }
    SameOnAliases(byId, RenamesTo(byId, nameById), Renames(byId, final));
  }

  lemma RenameTo(before: map<string, Definition>, after: map<string, Definition>, i: string)
    requires DistinctAliases(before) && i in before
    ensures var renames, k := Renames(before, after), before[i].componentId;
      && (k in renames <==> i in after && after[i].componentId != k)
      && (k in renames ==> renames[k] == after[i].componentId)
  {
  }

  lemma RenamedTo(before: map<string, Definition>, after: map<string, Definition>)
    requires DistinctAliases(before)
    ensures forall k | k in Renames(before, after) :: exists i :: i in before && before[i].componentId == k
  {
  }

  lemma AssembledOwner(c: Components, structuralIds: set<string>, nameById: map<string, string>, final: map<string, Definition>, id: string)
    requires Assembled(c, structuralIds, nameById, final) && id in final
    ensures id in ById(c) && (id in structuralIds <==> id !in nameById)
    ensures final[id].owner == if id in nameById then VisibleOwner(c, structuralIds, id) else ById(c)[id].owner
  {
    hide Canonical, ById, Graph, VisibleOwner;
  }

  lemma RelocationIsMove(c: Components, structuralIds: set<string>, nameById: map<string, string>, final: map<string, Definition>, id: string)
    requires Assembled(c, structuralIds, nameById, final) && id in ById(c)
    ensures ReportedAsMoved(c, structuralIds, nameById, final, id)
  {
    hide Canonical, ById, Graph, VisibleOwner;
    AssembledKeys(c, structuralIds, nameById, final);
    AssembledIdentities(c, structuralIds, nameById, final);
    AssembledOwner(c, structuralIds, nameById, final, id);
    if id in nameById {
      VisibleOwnerIsVisible(c, structuralIds, id);
      var to := VisibleOwner(c, structuralIds, id);
      if to.Some? {
        AssembledOwner(c, structuralIds, nameById, final, to.value);
      }
    }
    hide Assembled;
  }

  /** What a plan says about the repository it was made for. */
  ghost predicate Planned(c: Components, policy: Policy, plan: Plan) {
    && Valid(c) && Valid(plan.repository)
    && NormalForm(c, policy, ById(plan.repository)) && SemanticallyNamed(c, policy, ById(plan.repository))
    && NamedInOrder(c, policy, ById(plan.repository))
    && DistinctAliases(ById(c)) && plan.renames == Renames(ById(c), ById(plan.repository))
    && plan.structuralOnly == (set n | n in c && policy.Hides(c[n]))
    && (plan.reparented == {} <==> Moves(ById(c), ById(plan.repository)) == {})
    && (policy.Named() ==> plan.reparented == Moves(ById(c), ById(plan.repository)))
    && plan.unchangedCount == |c| - |Differing(ById(c), ById(plan.repository))|
  }

  /** `plan_repository_normalization`. The constructor it ends with never refuses the result. */
  method Normalize(c: Components, policy: Policy) returns (plan: Plan)
    requires Valid(c)
    ensures Planned(c, policy, plan)
  {
    hide Canonical, ById, Graph, NormalForm, SemanticallyNamed, Rekeyed, Moves, Renames, StructuralIds, DistinctAliases,
         Differing, policy.Named, policy.Hides, Rooted, Planned, NamedInOrder;
    var final, changedIds, renames, reparented := NormalDefinitions(c, policy);
    var repository := Rekeyed(final);
    RekeyedById(c, final);
    NormalFormValid(c, policy, repository);
    var accepted := Construct(repository);
    var structuralIds := StructuralIds(c, policy);
    var structuralOnly := set id | id in structuralIds && id in final :: final[id].componentId;
    HiddenAliases(c, policy, final);
    plan := Plan(accepted.value, renames, structuralOnly, reparented, |c| - |changedIds|);
    PlannedWith(c, policy, plan, final);
  }

  lemma PlannedWith(c: Components, policy: Policy, plan: Plan, final: map<string, Definition>)
    requires Valid(c) && Valid(plan.repository) && ById(plan.repository) == final
    requires NormalForm(c, policy, final) && SemanticallyNamed(c, policy, final) && NamedInOrder(c, policy, final)
    requires DistinctAliases(ById(c)) && plan.renames == Renames(ById(c), final)
    requires plan.structuralOnly == set n | n in c && policy.Hides(c[n])
    requires (plan.reparented == {}) <==> Moves(ById(c), final) == {}
    requires policy.Named() ==> plan.reparented == Moves(ById(c), final)
    requires plan.unchangedCount == |c| - |Differing(ById(c), final)|
    ensures Planned(c, policy, plan)
  {
    hide Canonical, ById, Graph, NormalForm, SemanticallyNamed, NamedInOrder, Moves, Renames, DistinctAliases, Differing, policy.Named,
         policy.Hides, Rooted;
  }

  lemma HiddenAliases(c: Components, policy: Policy, final: map<string, Definition>)
    requires NormalForm(c, policy, final)
    ensures (set id | id in StructuralIds(c, policy) && id in final :: final[id].componentId) == set n | n in c && policy.Hides(c[n])
  {
    hide Canonical, Graph, ById, VisibleForm, VisibleOwner, HiddenForm;
    ByIdAt(c);
    HidesById(c, policy);
    forall id | id in StructuralIds(c, policy) ensures id in final && final[id].componentId == ById(c)[id].componentId {
      FormsKeepIdentity(ById(c)[id], "", None);
    }
    forall n | n in c && policy.Hides(c[n])
      ensures c[n].objectId in StructuralIds(c, policy) && final[c[n].objectId].componentId == n
    {
    }
  }

  lemma AllocatedAround(byId: map<string, Definition>, policy: Policy, structuralIds: set<string>,
                        nameById: map<string, string>, kept: set<string>)
    requires nameById.Keys == byId.Keys - structuralIds
    requires kept == KeptAliases(byId, structuralIds) && forall id | id in nameById :: nameById[id] !in kept
    requires AllAllocated(Visible(byId, structuralIds), policy, kept, nameById)
    requires forall i, j | i in nameById && j in nameById && nameById[i] == nameById[j] :: i == j
    ensures WellNamed(byId, policy, structuralIds, nameById)
  {
    hide Allocated;
  }

  lemma JoinedDefinitions(c: Components, structuralIds: set<string>, nameById: map<string, string>,
                          hidden: map<string, Definition>, shown: map<string, Definition>)
    requires Valid(c) && structuralIds <= ById(c).Keys && nameById.Keys == ById(c).Keys - structuralIds
    requires hidden.Keys == structuralIds && forall id | id in hidden :: hidden[id] == HiddenForm(ById(c)[id])
    requires shown.Keys == nameById.Keys && forall id | id in shown :: shown[id] == Shown(c, structuralIds, nameById, id)
    ensures Assembled(c, structuralIds, nameById, hidden + shown)
  {
    hide Canonical, ById, Graph, HiddenForm, Shown, Valid;
  }

  /** The loops over hidden and visible definitions. */
  method ReformDefinitions(c: Components, structuralIds: set<string>, nameById: map<string, string>)
      returns (final: map<string, Definition>, changedIds: set<string>, reparented: set<(string, Option<string>, Option<string>)>)
    requires Valid(c) && structuralIds <= ById(c).Keys && nameById.Keys == ById(c).Keys - structuralIds
    ensures Assembled(c, structuralIds, nameById, final)
    ensures changedIds == Differing(ById(c), final)
    ensures (reparented == {}) <==> forall id | id in nameById :: !Rehomed(c, structuralIds, id)
    ensures (forall id | id in nameById :: nameById[id] != "") ==>
      reparented == Relocations(c, structuralIds, nameById, nameById.Keys)
  {
    hide Canonical, ById, Graph, HiddenForm, Shown, Assembled, Differing, Relocation, Relocations, VisibleOwner, Rehomed;
    var byId := ById(c);
    var hidden := map id | id in structuralIds :: byId[id];
    var hiddenFinal, hiddenChanged := HideContainers(hidden);
    var visibleFinal, visibleChanged, moved := RehomeVisible(c, structuralIds, nameById);
    final := hiddenFinal + visibleFinal;
    changedIds := hiddenChanged + visibleChanged;
    reparented := moved;
    JoinedDefinitions(c, structuralIds, nameById, hiddenFinal, visibleFinal);
    DifferingJoined(byId, hiddenFinal, visibleFinal);
    DifferingPart(byId, structuralIds, hiddenFinal);
  }

  /** Everything before the re-keying: the definitions by id, the ids of those that changed, and the reports. */
  method NormalDefinitions(c: Components, policy: Policy)
      returns (final: map<string, Definition>, changedIds: set<string>, renames: map<string, string>,
               reparented: set<(string, Option<string>, Option<string>)>)
    requires Valid(c)
    ensures NormalForm(c, policy, final) && SemanticallyNamed(c, policy, final) && NamedInOrder(c, policy, final)
    ensures final.Keys == ById(c).Keys && forall id | id in final :: final[id].objectId == id
    ensures DistinctAliases(ById(c)) && DistinctAliases(final)
    ensures changedIds == Differing(ById(c), final)
    ensures renames == Renames(ById(c), final)
    ensures reparented == {} <==> Moves(ById(c), final) == {}
    ensures policy.Named() ==> reparented == Moves(ById(c), final)
  {
    hide Canonical, ById, Graph, Allocated, NormalForm, SemanticallyNamed, StructuralIds, DistinctAliases, Assembled, WellNamed,
         Differing, Rehomed, Relocation, Relocations, VisibleOwner, RenamesTo, Renames, Moves, TakenFrom, policy.Hides,
         NamedInTurn, NamedInOrder, AllAllocated;
    HidesById(c, policy);
    AliasesDistinct(c);
    var byId := ById(c);
    var structuralIds := StructuralIds(c, policy);
    var visible := Visible(byId, structuralIds);
    VisibleAliases(byId, structuralIds);
    ByIdAt(c);
    var kept := KeptAliases(byId, structuralIds);
    var nameById, given := AllocateNames(visible, policy, kept);
    renames := given;
    AllocatedAround(byId, policy, structuralIds, nameById, kept);
    final, changedIds, reparented := ReformDefinitions(c, structuralIds, nameById);
    AssembledKeys(c, structuralIds, nameById, final);
    AssembledIdentities(c, structuralIds, nameById, final);
    AssembledAliases(c, policy, structuralIds, nameById, final);
    AssembledNormalForm(c, policy, nameById, final);
    AssembledInOrder(c, policy, nameById, final);
    VisibleRenames(byId, structuralIds, nameById);
    ReportsAreExact(c, structuralIds, nameById, final);
    if policy.Named() {
      forall id | id in nameById ensures nameById[id] != "" {
        NameNotEmpty(visible, policy, kept, nameById, id);
      }
    }
  }

  lemma NameNotEmpty(visible: map<string, Definition>, policy: Policy, kept: set<string>, nameById: map<string, string>, id: string)
    requires AllAllocated(visible, policy, kept, nameById) && id in nameById && id in visible && policy.nameOf(visible[id]) != ""
    ensures nameById[id] != ""
  {
    AllocatedFacts(nameById[id], policy.nameOf(visible[id]), TakenFrom(kept, nameById, id));
  }

  lemma AliasesDistinct(c: Components)
    requires Identified(c)
    ensures DistinctAliases(ById(c))
  {
    hide Canonical, ById;
    ByIdAt(c);
  }

  lemma VisibleAliases(byId: map<string, Definition>, structuralIds: set<string>)
    requires DistinctAliases(byId)
    ensures DistinctAliases(Visible(byId, structuralIds))
  {
  }

  lemma VisibleRenames(byId: map<string, Definition>, structuralIds: set<string>, nameById: map<string, string>)
    requires DistinctAliases(byId) && nameById.Keys == byId.Keys - structuralIds
    ensures DistinctAliases(Visible(byId, structuralIds))
    ensures RenamesTo(Visible(byId, structuralIds), nameById) == RenamesTo(byId, nameById)
  {
  }

  // ----- the authoring tree

  function MarkedIds(c: Components): set<string> {
    set n | n in c && MarkedStructural(c[n]) :: c[n].objectId
  }

  /** Authoring parents: hidden objects are left out and skipped. */
  ghost function AuthoringParents(c: Components): Owners
    requires Valid(c)
  {
    map id | id in ById(c) && id !in MarkedIds(c) :: VisibleOwner(c, MarkedIds(c), id)
  }

  method ClimbHidden(c: Components, byId: map<string, Definition>, id: string) returns (owner: Option<string>)
    requires Valid(c) && byId == ById(c) && id in byId
    ensures owner == VisibleOwner(c, MarkedIds(c), id)
  {
    hide Canonical, ById, Graph;
    ByIdAt(c);
    ghost var g, marked := Graph(c), MarkedIds(c);
    EndsStep(g, id);
    owner := byId[id].owner;
    ghost var n: nat := Length(g, owner);
    var visited: set<string> := {};
    while owner.Some? && owner.value in byId && MarkedStructural(byId[owner.value])
      invariant EndsIn(g, owner, n)
      invariant Skip(g, marked, owner, n) == VisibleOwner(c, marked, id)
      invariant forall v | v in visited :: exists k: nat :: n < k && EndsIn(g, Some(v), k)
      decreases n
    {
      if owner.value in visited {
        ghost var k: nat :| n < k && EndsIn(g, owner, k);
        EndsInUnique(g, owner, n, k);
        assert false;
      }
      visited := visited + {owner.value};
      owner := byId[owner.value].owner;
      n := n - 1;
    }
  }

  /** `authoring_parent_ids`. */
  method AuthoringParentIds(c: Components) returns (result: Owners)
    requires Valid(c)
    ensures result == AuthoringParents(c)
  {
    hide Canonical, ById, Graph, VisibleOwner;
    var byId := ById(c);
    MarkedById(c);
    var todo := byId.Keys;
    result := map[];
    while todo != {}
      invariant todo <= byId.Keys
      invariant result.Keys == byId.Keys - todo - MarkedIds(c)
      invariant forall id | id in result :: result[id] == VisibleOwner(c, MarkedIds(c), id)
    {
      var id :| id in todo;
      todo := todo - {id};
      if !MarkedStructural(byId[id]) {
        var owner := ClimbHidden(c, byId, id);
        result := result[id := owner];
      }
    }
  }

  lemma MarkedById(c: Components)
    requires Identified(c)
    ensures forall id | id in ById(c) :: id in MarkedIds(c) <==> MarkedStructural(ById(c)[id])
    ensures MarkedIds(c) <= ById(c).Keys
  {
    hide Canonical, ById;
    ByIdAt(c);
  }

  /** The visible owner is visible, so from a visible object's own owner there is nothing left to skip. */
  lemma VisibleOwnerIsVisible(c: Components, skipped: set<string>, id: string)
    requires Valid(c) && id in ById(c)
    ensures var o := VisibleOwner(c, skipped, id); o.Some? ==> o.value in ById(c) && o.value !in skipped
    ensures Graph(c)[id].None? || Graph(c)[id].value !in skipped ==> VisibleOwner(c, skipped, id) == Graph(c)[id]
  {
    hide Canonical, ById, Graph;
    ByIdAt(c);
    var g := Graph(c);
    EndsStep(g, id);
    SkipIsFirst(g, skipped, g[id], Length(g, g[id]));
  }

  lemma FormFacts(d: Definition, name: string, owner: Option<string>)
    ensures MarkedStructural(HiddenForm(d)) && HiddenForm(d).owner == d.owner
    ensures !MarkedStructural(VisibleForm(d, name, owner)) && VisibleForm(d, name, owner).owner == owner
    ensures Unmarked(VisibleForm(d, name, owner).body.properties) == VisibleForm(d, name, owner).body.properties
  {
  }

  lemma FormsKeepTraits(d: Definition, name: string, owner: Option<string>, policy: Policy)
    ensures policy.Hides(HiddenForm(d)) == policy.Hides(VisibleForm(d, name, owner)) == policy.Hides(d)
  {
  }

  /** One object before and after. */
  lemma NormalAt(c: Components, policy: Policy, after: map<string, Definition>, id: string)
    requires NormalForm(c, policy, after) && id in ById(c)
    ensures Valid(c) && id in after
    ensures policy.Hides(after[id]) == policy.Hides(ById(c)[id]) == MarkedStructural(after[id])
    ensures !policy.Hides(ById(c)[id]) ==>
      && after[id].owner == VisibleOwner(c, StructuralIds(c, policy), id)
      && after[id] == VisibleForm(ById(c)[id], after[id].componentId, after[id].owner)
      && Unmarked(after[id].body.properties) == after[id].body.properties
    ensures policy.Hides(ById(c)[id]) ==> after[id] == HiddenForm(ById(c)[id])
  {
    hide Canonical, Graph, ById, VisibleOwner, StructuralIds, HiddenForm, VisibleForm, MarkedStructural, Unmarked;
    HidesById(c, policy);
    FormFacts(ById(c)[id], after[id].componentId, VisibleOwner(c, StructuralIds(c, policy), id));
    FormsKeepTraits(ById(c)[id], after[id].componentId, VisibleOwner(c, StructuralIds(c, policy), id), policy);
  }

  lemma NormalFormIds(c: Components, policy: Policy, r: Components)
    requires Identified(r) && NormalForm(c, policy, ById(r))
    ensures Valid(c) && Valid(r) && ById(r).Keys == ById(c).Keys
    ensures MarkedIds(r) == StructuralIds(r, policy) == StructuralIds(c, policy)
  {
    hide Canonical, Graph, ById, StructuralIds, MarkedIds, NormalForm;
    NormalFormValid(c, policy, r);
    NormalFormKeys(c, policy, ById(r));
    NormalizedVisibility(c, policy, r);
    assert MarkedIds(r) == StructuralIds(r, policy);
    assert StructuralIds(r, policy) == StructuralIds(c, policy);
  }

  lemma NormalizedVisibility(c: Components, policy: Policy, r: Components)
    requires Identified(r) && Valid(c) && NormalForm(c, policy, ById(r))
    ensures forall id :: id in MarkedIds(r) <==> id in StructuralIds(r, policy)
    ensures forall id :: id in StructuralIds(r, policy) <==> id in StructuralIds(c, policy)
  {
    hide Canonical, Graph, ById, VisibleOwner, StructuralIds, MarkedIds, MarkedStructural, NormalForm;
    NormalFormKeys(c, policy, ById(r));
    MarkedById(r);
    HidesById(r, policy);
    HidesById(c, policy);
    forall id | id in ById(r) ensures MarkedStructural(ById(r)[id]) == policy.Hides(ById(r)[id]) == policy.Hides(ById(c)[id]) {
      NormalAt(c, policy, ById(r), id);
    }
  }

  lemma NormalFormKeys(c: Components, policy: Policy, after: map<string, Definition>)
    requires NormalForm(c, policy, after)
    ensures Valid(c) && after.Keys == ById(c).Keys
  {
  }

  /** What authors see of a normalized repository is each visible object under its nearest visible ancestor of before. */
  lemma NormalizedAuthoringParents(c: Components, policy: Policy, r: Components)
    requires Identified(r) && NormalForm(c, policy, ById(r))
    ensures Valid(c) && Valid(r)
    ensures AuthoringParents(r).Keys == ById(c).Keys - StructuralIds(c, policy)
    ensures forall id | id in AuthoringParents(r) :: AuthoringParents(r)[id] == VisibleOwner(c, StructuralIds(c, policy), id)
  {
    hide Canonical, Graph, ById, VisibleOwner, StructuralIds, MarkedIds, HiddenForm, VisibleForm, MarkedStructural, Unmarked, NormalForm;
    NormalFormIds(c, policy, r);
    ByIdAt(r);
    HidesById(c, policy);
    forall id | id in ById(r) && id !in StructuralIds(c, policy)
      ensures VisibleOwner(r, MarkedIds(r), id) == VisibleOwner(c, StructuralIds(c, policy), id)
    {
      NormalAt(c, policy, ById(r), id);
      VisibleOwnerIsVisible(c, StructuralIds(c, policy), id);
      VisibleOwnerIsVisible(r, MarkedIds(r), id);
    }
  }

  /** A second pass changes no owner, no marker and no locator: only aliases, and revisions with them. */
  lemma SecondPassOnlyRenames(c: Components, policy: Policy, r: Components, r2: Components, id: string)
    requires Identified(r) && NormalForm(c, policy, ById(r)) && Valid(c)
    requires Identified(r2) && NormalForm(r, policy, ById(r2)) && id in ById(c)
    ensures id in ById(r) && id in ById(r2)
    ensures var first, second := ById(r)[id], ById(r2)[id];
      && second.owner == first.owner
      && second == if second.componentId == first.componentId then first
                   else first.(componentId := second.componentId, body := first.body.(revision := first.body.revision + 1))
  {
    hide Canonical, Graph, ById, VisibleOwner, StructuralIds, MarkedIds, NormalForm, MarkedStructural, Unmarked;
    NormalFormIds(c, policy, r);
    NormalFormIds(r, policy, r2);
    NormalAt(c, policy, ById(r), id);
    NormalAt(r, policy, ById(r2), id);
    HidesById(c, policy);
    ByIdAt(r);
    if policy.Hides(ById(c)[id]) {
      FormsRevise(ById(r)[id], "", None);
    } else {
      VisibleOwnerIsVisible(c, StructuralIds(c, policy), id);
      VisibleOwnerIsVisible(r, StructuralIds(c, policy), id);
    }
  }

  /**
   A plan that reports no change may still hold one: stale visibility markers are dropped without notice.
   Exactly the objects that carry such a marker differ.
   */
  lemma QuietPlanDropsMarkers(c: Components, policy: Policy, plan: Plan)
    requires Planned(c, policy, plan) && !plan.Changed()
    ensures Differing(ById(c), ById(plan.repository)) ==
      set id | id in ById(c) && Unmarked(ById(c)[id].body.properties) != ById(c)[id].body.properties
  {
    hide Canonical, Graph, ById, NormalForm, Unmarked, Rooted, KeysMatch, IdsParse, Moves, Renames, NamedInOrder, SemanticallyNamed;
    var before, after := ById(c), ById(plan.repository);
    NormalFormKeys(c, policy, after);
    forall id | id in before
      ensures after[id] != before[id] <==> Unmarked(before[id].body.properties) != before[id].body.properties
    {
      QuietAt(c, policy, plan, id);
    }
  }

  lemma QuietAt(c: Components, policy: Policy, plan: Plan, id: string)
    requires Planned(c, policy, plan) && !plan.Changed() && id in ById(c)
    ensures id in ById(plan.repository)
    ensures ById(plan.repository)[id] != ById(c)[id] <==> Unmarked(ById(c)[id].body.properties) != ById(c)[id].body.properties
  {
    hide Canonical, Graph, ById, VisibleOwner, StructuralIds, NormalForm, HiddenForm, VisibleForm, Unmarked, SemanticallyNamed, NamedInOrder,
         Rooted, IdsParse;
    var before, after := ById(c), ById(plan.repository);
    NormalFormKeys(c, policy, after);
    HidesById(c, policy);
    ByIdAt(c);
    NormalAt(c, policy, after, id);
    assert before[id].componentId !in Renames(before, after);
    assert Move(before, after, id) !in Moves(before, after);
    assert before[id].componentId !in plan.structuralOnly;
    FormsRevise(before[id], after[id].componentId, after[id].owner);
  }

  const STALE: map<string, Value> := map["authoring_visibility" := Str("visible")]

  /** Such a plan exists: one root under its own name, with a marker that says it is visible. */
  method QuietPlanOccurs(body: Body) returns (policy: Policy, plan: Plan)
    ensures Planned(Alone("Surface", SampleId('a'), body.(properties := STALE)), policy, plan)
    ensures !plan.Changed() && plan.repository != Alone("Surface", SampleId('a'), body.(properties := STALE))
  {
    hide Canonical, Graph, SampleId, NormalForm, Planned;
    SampleIdSpellings('a');
    var c := Alone("Surface", SampleId('a'), body.(properties := STALE));
    AloneValid("Surface", SampleId('a'), body.(properties := STALE));
    policy := Policy((_, _, _) => false, _ => "Surface");
    plan := Normalize(c, policy);
    QuietPlan(body, policy, plan);
  }

  lemma QuietPlan(body: Body, policy: Policy, plan: Plan)
    requires var c := Alone("Surface", SampleId('a'), body.(properties := STALE)); Planned(c, policy, plan)
    requires forall d :: !policy.Hides(d) && policy.nameOf(d) == "Surface"
    ensures !plan.Changed() && plan.repository != Alone("Surface", SampleId('a'), body.(properties := STALE))
  {
    hide Canonical, Graph, SampleId, Planned;
    var c := Alone("Surface", SampleId('a'), body.(properties := STALE));
    var before, id := c["Surface"], SampleId('a');
    LoneObject(c, policy, plan, id);
    var after := ById(plan.repository)[id];
    FormsRevise(before, after.componentId, after.owner);
    assert "authoring_visibility" !in Unmarked(STALE);
  }

  /** A lone visible object keeps its name, if that is its semantic name, and its missing owner. */
  lemma LoneObject(c: Components, policy: Policy, plan: Plan, id: string)
    requires Planned(c, policy, plan) && c.Keys == {"Surface"} && c["Surface"].objectId == id && c["Surface"].owner.None?
    requires c["Surface"].componentId == "Surface"
    requires forall d :: !policy.Hides(d) && policy.nameOf(d) == "Surface"
    ensures Valid(plan.repository) && id in ById(plan.repository)
    ensures ById(plan.repository)[id] == VisibleForm(c["Surface"], "Surface", None)
    ensures !plan.Changed()
  {
    hide Canonical, Graph, ById, VisibleOwner, HiddenForm, VisibleForm, StructuralIds, NormalForm, Rooted, SemanticallyNamed,
         Differing, Moves, Renames, DistinctAliases;
    var before, after := ById(c), ById(plan.repository);
    ByIdAt(c);
    NormalFormKeys(c, policy, after);
    assert before.Keys == {id} by {
      forall k | k in before ensures k == id {
        assert before[k].componentId in c;
      }
    }
    LoneForm(c, policy, after, id);
    UnmovedEntries(before, after);
  }

  lemma LoneForm(c: Components, policy: Policy, after: map<string, Definition>, id: string)
    requires NormalForm(c, policy, after) && SemanticallyNamed(c, policy, after)
    requires id in ById(c) && after.Keys == {id} && ById(c)[id].owner.None? && ById(c)[id].componentId == "Surface"
    requires forall d :: !policy.Hides(d) && policy.nameOf(d) == "Surface"
    ensures after[id] == VisibleForm(ById(c)[id], "Surface", None)
    ensures after[id].owner == None && after[id].componentId == "Surface"
  {
    hide Canonical, Graph, ById, VisibleOwner, HiddenForm, StructuralIds, NormalForm, Rooted, Allocated;
    NormalAt(c, policy, after, id);
    assert OtherAliases(after, id) == {};
    AllocatedFacts(after[id].componentId, "Surface", {});
    ByIdAt(c);
    VisibleOwnerIsVisible(c, StructuralIds(c, policy), id);
  }

  lemma UnmovedEntries(before: map<string, Definition>, after: map<string, Definition>)
    requires DistinctAliases(before)
    requires forall id | id in before && id in after :: after[id].owner == before[id].owner && after[id].componentId == before[id].componentId
    ensures Renames(before, after) == map[] && Moves(before, after) == {}
  {
  }
}
