/** Runs of edits: what every sequence of successful edits keeps. */
module RepositoryRuns {
  import opened Outcomes
  import opened Ownership
  import opened Text
  import opened ComponentRepository
  import opened RepositoryEdits
  import ObjectReparenting

  datatype Edit =
    | RenameEdit(reference: string, newName: string)
    | RemoveEdit(reference: string, reparentChildren: bool)
    | DeleteEdit(reference: string)
    | MoveEdit(child: string, parent: string)
    | PutEdit(definition: Definition)
    | OverlayEdit(other: Components)

  /** One successful edit takes `c` to `d`. */
  ghost predicate Step(c: Components, e: Edit, d: Components) {
    DistinctIds(c) &&
    match e
    case RenameEdit(reference, newName) => RenameSpec(c, reference, newName) == Success(d)
    case RemoveEdit(reference, reparentChildren) => RemoveSpec(c, reference, reparentChildren) == Success(d)
    case DeleteEdit(reference) => Find(c, reference).Some? && d == Kept(c, Doomed(c, Find(c, reference).value.objectId))
    case MoveEdit(child, parent) =>
      var moved := ObjectReparenting.ReparentSpec(c, child, parent);
      moved.Success? && moved.value.0 == d
    case PutEdit(definition) => d == Updated(c, definition) && PutAccepted(c, definition)
    case OverlayEdit(other) =>
      Valid(other) && NamesAgree(c, other) && IdsAgree(c, other) && DistinctIds(c + other) && d == c + other
  }

  ghost predicate Run(states: seq<Components>, edits: seq<Edit>) {
    |states| == |edits| + 1 && forall i | 0 <= i < |edits| :: Step(states[i], edits[i], states[i + 1])
  }

  lemma StepStaysValid(c: Components, e: Edit, d: Components)
    requires Valid(c) && Step(c, e, d)
    ensures Valid(d)
  {
    hide Canonical, Graph, Strip;
    match e
    case RenameEdit(reference, newName) =>
      FindAlias(c, reference);
      RenamedKeepsOwnership(c, Find(c, reference).value.componentId, Strip(newName));
    case RemoveEdit(reference, _) =>
      if Find(c, reference).Some? {
        FindAlias(c, reference);
        ReparentedValid(c, Find(c, reference).value);
      }
    case DeleteEdit(reference) =>
      SubtreeOwnsDownward(Graph(c), Find(c, reference).value.objectId);
      KeptValid(c, Doomed(c, Find(c, reference).value.objectId));
    case MoveEdit(child, parent) =>
      MoveStaysValid(c, child, parent);
    case PutEdit(definition) =>
      PutAcceptedIff(c, definition);
    case OverlayEdit(other) =>
      OverlayRooted(c, other);
  }

  lemma MoveStaysValid(c: Components, child: string, parent: string)
    requires Valid(c) && ObjectReparenting.ReparentSpec(c, child, parent).Success?
    ensures Valid(ObjectReparenting.ReparentSpec(c, child, parent).value.0)
  {
    hide Canonical, Graph, Strip;
    FindAlias(c, child);
    GraphAt(c, Find(c, child).value.componentId);
    ObjectReparenting.MoveChangesOneLineage(c, child, parent, Find(c, child).value.objectId, "");
  }

  /** No run of edits leaves the valid repositories. */
  lemma {:induction false} RunStaysValid(states: seq<Components>, edits: seq<Edit>, i: nat)
    requires Run(states, edits) && Valid(states[0]) && i < |states|
    ensures Valid(states[i])
  {
    hide Valid, Step;
    if i > 0 {
      RunStaysValid(states, edits, i - 1);
      StepStaysValid(states[i - 1], edits[i - 1], states[i]);
    }
  }

  // ----- edits that only prune

  predicate Prunes(e: Edit) {
    e.RenameEdit? || e.DeleteEdit? || (e.RemoveEdit? && e.reparentChildren)
  }

  /** `d` has no new object, and the objects it has are owned as they were in `c`. */
  ghost predicate OwnedAsIn(d: Components, c: Components) {
    && Valid(d) && Valid(c)
    && Graph(d).Keys <= Graph(c).Keys
    && forall v, a | v in Graph(d) && a in Graph(d) :: Ancestor(Graph(d), v, a) <==> Ancestor(Graph(c), v, a)
  }

  lemma PruningStep(c: Components, e: Edit, d: Components)
    requires Valid(c) && Step(c, e, d) && Prunes(e)
    ensures OwnedAsIn(d, c)
  {
    hide Canonical, Graph, Strip;
    StepStaysValid(c, e, d);
    match e
    case RenameEdit(reference, newName) =>
      FindAlias(c, reference);
      RenamedKeepsOwnership(c, Find(c, reference).value.componentId, Strip(newName));
    case RemoveEdit(reference, _) =>
      if Find(c, reference).Some? {
        FindAlias(c, reference);
        var t := Find(c, reference).value;
        ReparentedBypasses(c, t);
        forall v, a | v in Graph(d) && a in Graph(d) ensures Ancestor(Graph(d), v, a) <==> Ancestor(Graph(c), v, a) {
          RemovalKeepsAncestors(c, t, v, a);
        }
      }
    case DeleteEdit(reference) =>
      var gone := Doomed(c, Find(c, reference).value.objectId);
      SubtreeOwnsDownward(Graph(c), Find(c, reference).value.objectId);
      KeptGraph(c, gone);
      forall v, a | v in Graph(d) && a in Graph(d) ensures Ancestor(Graph(d), v, a) <==> Ancestor(Graph(c), v, a) {
        WithoutKeepsAncestors(Graph(c), gone, v, a);
      }
  }

  /** Over a whole run of renames, removals and subtree deletions the survivors keep their ancestor relation exactly. */
  lemma {:induction false} PruningRunKeepsOwnership(states: seq<Components>, edits: seq<Edit>, i: nat)
    requires Run(states, edits) && Valid(states[0]) && i < |states|
    requires forall e | e in edits :: Prunes(e)
    ensures OwnedAsIn(states[i], states[0])
  {
    hide Canonical, Graph, Step;
    if i > 0 {
      PruningRunKeepsOwnership(states, edits, i - 1);
      PruningStep(states[i - 1], edits[i - 1], states[i]);
    }
  }
}
