/** What normalization changes of one object, field by field. */
module NormalizedObjects {
  import opened Outcomes
  import opened Values
  import opened Ownership
  import opened ComponentRepository
  import opened RepositoryNormalization

  /** Nothing but alias, owner, properties and revision differs. */
  predicate OnlyPlaced(before: Definition, after: Definition) {
    && after.objectId == before.objectId
    && after.body == before.body.(properties := after.body.properties, revision := after.body.revision)
  }

  /** All properties but the two markers are as they were. */
  ghost predicate OwnPropertiesKept(before: Definition, after: Definition) {
    forall k | k != "authoring_visibility" && k != "structural_reason" ::
      && (k in after.body.properties <==> k in before.body.properties)
      && (k in before.body.properties ==> after.body.properties[k] == before.body.properties[k])
  }

  predicate HasProperty(d: Definition, key: string, value: string) {
    key in d.body.properties && d.body.properties[key] == Str(value)
  }

  lemma HiddenObject(d: Definition)
    ensures var after := HiddenForm(d);
      && OnlyPlaced(d, after) && OwnPropertiesKept(d, after)
      && after.componentId == d.componentId && after.owner == d.owner
      && HasProperty(after, "authoring_visibility", "structural_only")
      && (if HasProperty(d, "authoring_visibility", "structural_only") then after == d
          else HasProperty(after, "structural_reason", "legacy_layout_container"))
      && after.body.revision == d.body.revision + if after == d then 0 else 1
  {
  }

  lemma VisibleObject(d: Definition, name: string, owner: Option<string>)
    ensures var after := VisibleForm(d, name, owner);
      && OnlyPlaced(d, after) && OwnPropertiesKept(d, after)
      && after.componentId == name && after.owner == owner
      && "authoring_visibility" !in after.body.properties && "structural_reason" !in after.body.properties
      && after.body.revision == d.body.revision + if after == d then 0 else 1
  {
  }

  /**
   Every object of a normalized repository. It differs from the one before in alias, owner, the two markers and
   the revision only; a hidden one keeps alias and owner and carries both markers, or the ones it had if it was
   marked; a visible one carries none; and the revision rises by one exactly when anything differs.
   */
  lemma ObjectAfterNormalization(c: Components, policy: Policy, plan: Plan, id: string)
    requires Planned(c, policy, plan) && id in ById(c)
    ensures id in ById(plan.repository)
    ensures var (before, after) := (ById(c)[id], ById(plan.repository)[id]);
      && OnlyPlaced(before, after) && OwnPropertiesKept(before, after)
      && (policy.Hides(before) ==>
            && after.componentId == before.componentId && after.owner == before.owner
            && HasProperty(after, "authoring_visibility", "structural_only")
            && if HasProperty(before, "authoring_visibility", "structural_only") then after == before
               else HasProperty(after, "structural_reason", "legacy_layout_container"))
      && (!policy.Hides(before) ==>
            "authoring_visibility" !in after.body.properties && "structural_reason" !in after.body.properties)
      && after.body.revision == before.body.revision + if after == before then 0 else 1
  {
    hide Graph, ById, NormalForm, VisibleOwner, StructuralIds, HiddenForm, VisibleForm, SemanticallyNamed, NamedInOrder, Rooted,
         OnlyPlaced, OwnPropertiesKept, HasProperty, Moves, Renames, Differing, DistinctAliases, MarkedStructural, Unmarked,
         policy.Hides, policy.Named;
    NormalAt(c, policy, ById(plan.repository), id);
    var (before, after) := (ById(c)[id], ById(plan.repository)[id]);
    HiddenObject(before);
    VisibleObject(before, after.componentId, after.owner);
  }

  // ----- what the plan reports

  /** The alias of an owner, if it is an object of the repository. */
  function AliasOf(objects: map<string, Definition>, owner: Option<string>): Option<string> {
    if owner.Some? && owner.value in objects then Some(objects[owner.value].componentId) else None
  }

  /** The renames are the aliases that changed, each with the new one. */
  ghost predicate ReportsRenames(renames: map<string, string>, before: map<string, Definition>, after: map<string, Definition>) {
    && (forall id | id in before && id in after && after[id].componentId != before[id].componentId ::
          before[id].componentId in renames && renames[before[id].componentId] == after[id].componentId)
    && (forall k | k in renames :: exists id :: id in before && id in after && before[id].componentId == k && after[id].componentId != k)
  }

  /** The moves are the objects that changed owners, by their new alias and the aliases of the old and the new owner. */
  ghost predicate ReportsMoves(moves: set<(string, Option<string>, Option<string>)>, before: map<string, Definition>, after: map<string, Definition>) {
    forall n, from, to :: (n, from, to) in moves <==>
      exists id :: id in before && id in after && after[id].owner != before[id].owner && after[id].componentId == n
        && from == AliasOf(before, before[id].owner) && to == AliasOf(after, after[id].owner)
  }

  function Unchanged(before: map<string, Definition>, after: map<string, Definition>): set<string> {
    set id | id in before && id in after && after[id] == before[id]
  }

  /** The plan reports renames and moves, the aliases of all hidden objects, and how many objects did not change. */
  lemma ReportIs(c: Components, policy: Policy, plan: Plan)
    requires Planned(c, policy, plan) && policy.Named()
    ensures ReportsRenames(plan.renames, ById(c), ById(plan.repository))
    ensures ReportsMoves(plan.reparented, ById(c), ById(plan.repository))
    ensures forall n :: n in plan.structuralOnly <==> n in c && policy.Hides(c[n])
    ensures plan.unchangedCount == |Unchanged(ById(c), ById(plan.repository))|
  {
    hide Graph, ById, NormalForm, SemanticallyNamed, NamedInOrder, Rooted, policy.Hides, policy.Named, KeysMatch, IdsParse,
         ReportsRenames, ReportsMoves, Unchanged;
    var (before, after) := (ById(c), ById(plan.repository));
    NormalFormKeys(c, policy, after);
    RenamesAre(before, after);
    MovesAre(before, after);
    ByIdSize(c);
    UnchangedSize(before, after);
  }

  lemma RenamesAre(before: map<string, Definition>, after: map<string, Definition>)
    requires DistinctAliases(before)
    ensures ReportsRenames(Renames(before, after), before, after)
  {
  }

  lemma MovesAre(before: map<string, Definition>, after: map<string, Definition>)
    ensures ReportsMoves(Moves(before, after), before, after)
  {
  }

  lemma UnchangedSize(before: map<string, Definition>, after: map<string, Definition>)
    requires after.Keys == before.Keys
    ensures |Unchanged(before, after)| == |before.Keys| - |Differing(before, after)|
  {
    assert Unchanged(before, after) == before.Keys - Differing(before, after);
  }

  lemma ByIdSize(c: Components)
    requires Valid(c)
    ensures |ById(c).Keys| == |c|
  {
    hide Graph, ById, Rooted;
    ByIdAt(c);
    SameSize(c.Keys, ById(c).Keys, c, ById(c));
  }

  /** Aliases and ids of a repository are in one-to-one correspondence. */
  lemma {:induction false} SameSize(names: set<string>, ids: set<string>, c: Components, byId: map<string, Definition>)
    requires forall n | n in names :: n in c && c[n].objectId in ids
    requires forall id | id in ids :: id in byId && byId[id].componentId in names && byId[id].objectId == id
    requires forall n | n in names :: byId[c[n].objectId] == c[n] && c[n].componentId == n
    requires forall id | id in ids :: c[byId[id].componentId] == byId[id]
    ensures |names| == |ids|
  {
    if names != {} {
      var n :| n in names;
      SameSize(names - {n}, ids - {c[n].objectId}, c, byId);
    }
  }
}
