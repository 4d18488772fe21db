/** Moving one repository leaf beneath another object while its id stays. */
module ObjectReparenting {
  import opened Outcomes
  import opened Values
  import opened Ownership
  import opened Text
  import opened ComponentRepository
  import opened RepositoryEdits

  type MoveOutcome = Result<(Components, string, string), RepositoryError>

  predicate IsVisual(d: Definition) {
    exists i | 0 <= i < |d.body.strategies| :: d.body.strategies[i].kind == "anchored_visual"
  }

  predicate SupportsVisualChildren(d: Definition) {
    || (d.body.framework.Some? && Fold(d.body.framework.value) in {"jogl", "batik", "custom-render"})
    || (&& "capture_boundary" in d.body.properties
        && d.body.properties["capture_boundary"].Obj?
        && var boundary := d.body.properties["capture_boundary"].fields;
           "supports_visual_children" in boundary && boundary["supports_visual_children"] == Bool(true))
  }

  /** The objects that make `source` more than a leaf, by ownership or by qualified alias. */
  function Descendants(c: Components, source: Definition): set<string> {
    set n | n in c && (c[n].owner == Some(source.objectId) || source.componentId + "." <= n)
  }

  /** The definition of `source` under its new alias and owner; moved visual geometry must be recaptured. */
  function Moved(source: Definition, parent: Definition, newName: string): Definition {
    var stale := map[
      "locator_status" := Str("needs_recapture"),
      "recapture_reason" := Str("rendering_surface_owner_changed"),
      "previous_owner_object_id" := if source.owner.Some? then Str(source.owner.value) else Null];
    source.(
      componentId := newName,
      owner := Some(parent.objectId),
      body := source.body.(
        revision := source.body.revision + 1,
        properties := if IsVisual(source) then source.body.properties + stale else source.body.properties))
  }

  function QualifiedName(source: Definition, parent: Definition): string {
    parent.componentId + "." + AfterLast(source.componentId, '.')
  }

  function ReparentSpec(c: Components, childReference: string, parentReference: string): MoveOutcome
    requires DistinctIds(c)
  {
    var child, parent := Find(c, childReference), Find(c, parentReference);
    if child.None? then Failure(UnknownComponent(childReference))
    else if parent.None? then Failure(UnknownComponent(parentReference))
    else
      var s, p := child.value, parent.value;
      var oldName, newName := s.componentId, QualifiedName(s, p);
      if s.objectId == p.objectId then Failure(OwnParent)
      else if IsVisual(s) && !SupportsVisualChildren(p) then Failure(NotARenderingSurface)
      else if Descendants(c, s) != {} then Failure(NotALeaf(oldName))
      else if s.owner == Some(p.objectId) then Success((c, oldName, oldName))
      else if newName != oldName && newName in c then Failure(AlreadyExists(newName))
      else if Strip(newName) != oldName && Strip(newName) in c then Failure(AlreadyExists(Strip(newName)))
      else if Strip(newName) != newName then Failure(UnknownComponent(newName))
      else Success((MovedTo(c, s, p, newName), oldName, newName))
  }

  /**
   `reparent_leaf`. Once past its explicit checks the constructor never refuses the result; the one other
   failure is a new alias that `rename` trims, which the lookup that follows then cannot find.
   */
  method ReparentLeaf(c: Components, childReference: string, parentReference: string) returns (r: MoveOutcome)
    requires Valid(c)
    ensures r == ReparentSpec(c, childReference, parentReference)
    ensures r.Success? ==> Valid(r.value.0)
  {
    hide Canonical, Graph, Strip, QualifiedName, IsVisual, SupportsVisualChildren, Moved;
    var child := Find(c, childReference);
    if child.None? {
      return Failure(UnknownComponent(childReference));
    }
    var parent := Find(c, parentReference);
    if parent.None? {
      return Failure(UnknownComponent(parentReference));
    }
    FindAlias(c, childReference);
    FindAlias(c, parentReference);
    var s, p := child.value, parent.value;
    var oldName := s.componentId;
    if s.objectId == p.objectId {
      return Failure(OwnParent);
    }
    if IsVisual(s) && !SupportsVisualChildren(p) {
      return Failure(NotARenderingSurface);
    }
    if Descendants(c, s) != {} {
      return Failure(NotALeaf(oldName));
    }
    if s.owner == Some(p.objectId) {
      return Success((c, oldName, oldName));
    }
    var newName := QualifiedName(s, p);
    if newName != oldName && newName in c {
      return Failure(AlreadyExists(newName));
    }
    QualifiedNameStrips(s, p);
    assert Find(c, oldName) == Some(s);
    var renamed := Rename(c, oldName, newName);
    if renamed.Failure? {
      return Failure(renamed.error);
    }
    var updated := renamed.value;
    QualifiedNameIsNoId(updated, s, p);
    var found := Find(updated, newName);
    if found.None? {
      return Failure(UnknownComponent(newName));
    }
    var moved := Moved(s, p, newName);
    MoveAccepted(c, s, p, newName);
    var final := WithComponent(updated, moved);
    return Success((final.value, oldName, newName));
  }

  lemma QualifiedNameStrips(s: Definition, p: Definition)
    ensures Strip(QualifiedName(s, p)) != ""
  {
    var n := QualifiedName(s, p);
    assert n[|p.componentId|] == '.';
    StripKeeps(n, |p.componentId|);
  }

  lemma QualifiedNameIsNoId(c: Components, s: Definition, p: Definition)
    requires Valid(c)
    ensures QualifiedName(s, p) !in Ids(c)
  {
    var n := QualifiedName(s, p);
    assert n[|p.componentId|] == '.';
    if n in Ids(c) {
      CanonicalLetters(n, |p.componentId|);
    }
  }

  ghost predicate Movable(c: Components, s: Definition, p: Definition) {
    && Valid(c) && s.componentId in c && c[s.componentId] == s && p.componentId in c && c[p.componentId] == p
    && s.objectId != p.objectId && Descendants(c, s) == {}
  }

  lemma MovableIsLeaf(c: Components, s: Definition, p: Definition)
    requires Movable(c, s, p)
    ensures Leaf(Graph(c), s.objectId) && s.objectId in Graph(c) && p.objectId in Graph(c)
  {
    hide Canonical, Graph;
    GraphAt(c, s.componentId);
    GraphAt(c, p.componentId);
    forall w | w in Graph(c) ensures Graph(c)[w] != Some(s.objectId) {
      var n := NameOf(c, w);
      assert n !in Descendants(c, s);
    }
  }

  /** The repository after a move. */
  function MovedTo(c: Components, s: Definition, p: Definition, newName: string): Components {
    (c - {s.componentId})[newName := Moved(s, p, newName)]
  }

  lemma MoveIdentified(c: Components, s: Definition, p: Definition, newName: string)
    requires Movable(c, s, p) && (newName == s.componentId || newName !in c)
    ensures var updated := Renamed(c, s.componentId, newName);
      && Valid(updated) && Graph(updated) == Graph(c)
      && newName in updated && updated[newName].objectId == s.objectId
      && Updated(updated, Moved(s, p, newName)) == MovedTo(c, s, p, newName)
      && Identified(MovedTo(c, s, p, newName))
  {
    hide Canonical, Graph, Moved;
    var updated := Renamed(c, s.componentId, newName);
    RenamedKeepsOwnership(c, s.componentId, newName);
    MovedKeepsId(s, p, newName);
    var final := MovedTo(c, s, p, newName);
    assert final.Keys == updated.Keys;
    assert forall n | n in final :: final[n].objectId == updated[n].objectId;
  }

  lemma MovedKeepsId(s: Definition, p: Definition, newName: string)
    ensures var moved := Moved(s, p, newName);
      moved.componentId == newName && moved.objectId == s.objectId && moved.owner == Some(p.objectId)
  {
  }

  lemma MoveAccepted(c: Components, s: Definition, p: Definition, newName: string)
    requires Movable(c, s, p) && (newName == s.componentId || newName !in c)
    ensures var updated := Renamed(c, s.componentId, newName);
      && Valid(updated) && Updated(updated, Moved(s, p, newName)) == MovedTo(c, s, p, newName)
    ensures Valid(MovedTo(c, s, p, newName))
    ensures Graph(MovedTo(c, s, p, newName)) == Graph(c)[s.objectId := Some(p.objectId)]
  {
    hide Canonical, Graph, Moved, MovedTo, Renamed, Updated, Rooted, Leaf;
    var updated := Renamed(c, s.componentId, newName);
    MoveIdentified(c, s, p, newName);
    MovedKeepsId(s, p, newName);
    MovableIsLeaf(c, s, p);
    UpdatedGraph(updated, Moved(s, p, newName));
    AttachLeaf(Graph(c), s.objectId, Some(p.objectId));
  }

  /** What success means: the child is a leaf that may be moved, and the result is the move, or nothing if it is there. */
  lemma SuccessfulMove(c: Components, childReference: string, parentReference: string) returns (s: Definition, p: Definition)
    requires Valid(c) && ReparentSpec(c, childReference, parentReference).Success?
    ensures Find(c, childReference) == Some(s) && Find(c, parentReference) == Some(p) && Movable(c, s, p)
    ensures var newName := QualifiedName(s, p);
      ReparentSpec(c, childReference, parentReference).value ==
        if s.owner == Some(p.objectId) then (c, s.componentId, s.componentId)
        else (MovedTo(c, s, p, newName), s.componentId, newName)
    ensures s.owner == Some(p.objectId) || QualifiedName(s, p) == s.componentId || QualifiedName(s, p) !in c
  {
    hide Canonical, Graph, Moved, Descendants, SupportsVisualChildren, IsVisual, QualifiedName, Strip, Rooted;
    FindAlias(c, childReference);
    FindAlias(c, parentReference);
    s, p := Find(c, childReference).value, Find(c, parentReference).value;
  }

  lemma SameOwnerSameGraph(c: Components, n: string)
    requires DistinctIds(c) && n in c
    ensures Graph(c)[c[n].objectId := c[n].owner] == Graph(c)
  {
    hide Canonical, Graph;
    GraphAt(c, n);
  }

  /** What a successful move does to ownership: the leaf's ancestors become its new parent and that parent's. */
  lemma MoveChangesOneLineage(c: Components, childReference: string, parentReference: string, w: string, a: string)
    requires Valid(c) && ReparentSpec(c, childReference, parentReference).Success? && w in Graph(c)
    ensures Find(c, childReference).Some? && Find(c, parentReference).Some?
    ensures var r := ReparentSpec(c, childReference, parentReference).value.0;
      var s, p := Find(c, childReference).value, Find(c, parentReference).value;
      && Valid(r) && Ids(r) == Ids(c)
      && (Ancestor(Graph(r), w, a) <==>
            if w == s.objectId then a == p.objectId || Ancestor(Graph(c), p.objectId, a) else Ancestor(Graph(c), w, a))
  {
    hide Canonical, Graph, ReparentSpec, Find, Moved, MovedTo, Leaf, Rooted, QualifiedName, KeysMatch, IdsParse, DistinctIds, Ids;
    var s, p := SuccessfulMove(c, childReference, parentReference);
    MovableIsLeaf(c, s, p);
    MovedLeafAncestors(Graph(c), s.objectId, p.objectId, w, a);
    GraphIds(c);
    if s.owner == Some(p.objectId) {
      SameOwnerSameGraph(c, s.componentId);
    } else {
      MoveAccepted(c, s, p, QualifiedName(s, p));
      GraphIds(MovedTo(c, s, p, QualifiedName(s, p)));
    }
  }

  const STALE: set<string> := {"locator_status", "recapture_reason", "previous_owner_object_id"}

  /** The moved definition differs in alias, owner and revision; a visual one is marked for recapture besides. */
  ghost predicate OnlyMoved(moved: Definition, s: Definition, p: Definition) {
    && moved.objectId == s.objectId && moved.owner == Some(p.objectId)
    && moved.body.revision == s.body.revision + 1
    && moved.body == s.body.(revision := moved.body.revision, properties := moved.body.properties)
    && moved.body.properties - STALE == s.body.properties - STALE
    && (if IsVisual(s) then STALE <= moved.body.properties.Keys else moved.body.properties == s.body.properties)
  }

  lemma MovedOnly(s: Definition, p: Definition, newName: string)
    ensures OnlyMoved(Moved(s, p, newName), s, p)
  {
  }

  /** A move leaves every other object as it was, and changes of the moved one only what moving means. */
  lemma MoveKeepsTheRest(c: Components, childReference: string, parentReference: string)
    requires Valid(c) && ReparentSpec(c, childReference, parentReference).Success?
    ensures Find(c, childReference).Some? && Find(c, parentReference).Some?
    ensures var (r, oldName, newName) := ReparentSpec(c, childReference, parentReference).value;
      var s, p := Find(c, childReference).value, Find(c, parentReference).value;
      && s.componentId == oldName
      && if s.owner == Some(p.objectId) then r == c && newName == oldName
         else r.Keys == c.Keys - {oldName} + {newName} && OnlyMoved(r[newName], s, p)
              && forall n | n in c && n != oldName :: n in r && r[n] == c[n]
  {
    hide Canonical, Graph, OnlyMoved, Moved, ReparentSpec, Find, QualifiedName, Rooted, Descendants;
    var s, p := SuccessfulMove(c, childReference, parentReference);
    MovedOnly(s, p, QualifiedName(s, p));
  }

  function Padded(body: Body): Components {
    map["P" := Definition("P", SampleId('a'), None, body),
        "S " := Definition("S ", SampleId('b'), None, body)]
  }

  lemma PaddedValid(body: Body)
    ensures Valid(Padded(body))
  {
    hide Canonical, SampleId, Graph;
    SampleIdSpellings('a');
    SampleIdSpellings('b');
    var c := Padded(body);
    assert c["P"].objectId == SampleId('a') && c["S "].objectId == SampleId('b');
    forall id | id in Graph(c) ensures Ends(Graph(c), Some(id)) {
      var n := NameOf(c, id);
      assert EndsIn(Graph(c), Some(id), 1);
    }
  }

  lemma PaddedLeafName()
    ensures AfterLast("S ", '.') == "S "
  {
    var name := "S ";
    assert name[1..] == " " && '.' !in name[1..] && name[0] != '.';
  }

  lemma PaddedNameTrimmed()
    ensures Strip("P.S ") == "P.S"
  {
    var name := "P.S";
    assert "P.S " == name + " ";
    assert !IsSpace(name[0]) && !IsSpace(name[2]);
    hide Strip, TrimLeft, TrimRight;
    StripPadding(name);
  }

  /** The trimmed alias occurs: a leaf whose alias ends in a space cannot be moved. */
  lemma PaddedAliasNotMoved(body: Body)
    requires body.strategies == []
    ensures Valid(Padded(body))
    ensures ReparentSpec(Padded(body), "S ", "P") == Failure(UnknownComponent("P.S "))
  {
    hide Canonical, SampleId, Graph, Valid, Strip, AfterLast;
    PaddedValid(body);
    PaddedLeafName();
    PaddedNameTrimmed();
    var c := Padded(body);
    SampleIdSpellings('a');
    SampleIdSpellings('b');
    assert !IsVisual(c["S "]);
    assert Descendants(c, c["S "]) == {};
    assert QualifiedName(c["S "], c["P"]) == "P.S ";
  }
}
