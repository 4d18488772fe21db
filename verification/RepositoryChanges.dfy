/** What each edit changes of a repository, entry by entry, and what it refuses. */
module RepositoryChanges {
  import opened Outcomes
  import opened Values
  import opened Ownership
  import opened Text
  import opened ComponentRepository
  import opened RepositoryEdits
  import opened ObjectReparenting

  /** The aliases that a reference means: the alias itself, or else one whose object has it as id. */
  ghost predicate Means(c: Components, reference: string, n: string) {
    n in c && (n == reference || (reference !in c && c[n].objectId == reference))
  }

  lemma FindIff(c: Components, reference: string)
    requires Valid(c)
    ensures Find(c, reference).None? <==> forall n :: !Means(c, reference, n)
    ensures Find(c, reference).Some? ==> exists n :: Means(c, reference, n) && c[n] == Find(c, reference).value
    ensures forall n | Means(c, reference, n) :: Find(c, reference) == Some(c[n]) && c[n].componentId == n
  {
    hide Canonical, Graph, Rooted;
    if reference in c {
      assert Means(c, reference, reference);
    } else if n :| n in c && c[n].objectId == reference {
      assert Means(c, reference, n);
    }
  }

  /** Nothing of these entries differs but what `of` leaves out. */
  predicate EntriesKept(before: Components, after: Components, but: set<string>) {
    forall n | n in before && n !in but :: n in after && after[n] == before[n]
  }

  /** A rename moves one definition to the trimmed alias and changes nothing else. */
  lemma RenameIs(c: Components, reference: string, newName: string)
    requires Valid(c)
    ensures var (r, name) := (RenameSpec(c, reference, newName), Strip(newName));
      && (r.Success? <==> name != "" && exists n :: Means(c, reference, n) && (name == n || name !in c))
      && (r.Success? ==> exists n | Means(c, reference, n) ::
            r.value.Keys == c.Keys - {n} + {name} && EntriesKept(c, r.value, {n}) && r.value[name] == c[n].(componentId := name))
      && (r.Failure? ==> match r.error
            case EmptyName => name == ""
            case UnknownComponent(what) => what == reference && forall n :: !Means(c, reference, n)
            case AlreadyExists(what) => what == name && name in c
            case _ => false)
  {
    hide Canonical, Graph, Strip, Rooted, IdsParse;
    FindIff(c, reference);
    if Find(c, reference).Some? {
      var n :| Means(c, reference, n) && c[n] == Find(c, reference).value;
      assert forall m | Means(c, reference, m) :: m == n;
    }
  }

  /** Removing an object changes nothing but the owner of its children, which becomes its own. */
  lemma RemovalIs(c: Components, reference: string, reparentChildren: bool)
    requires Valid(c)
    ensures var r := RemoveSpec(c, reference, reparentChildren);
      && ((forall n :: !Means(c, reference, n)) ==> r == Success(c))
      && forall n | Means(c, reference, n) ::
           && (r.Failure? <==> !reparentChildren && exists m :: m in c && c[m].owner == Some(c[n].objectId))
           && (r.Failure? ==> r.error == HasChildren(n))
           && (r.Success? ==> r.value.Keys == c.Keys - {n})
           && (r.Success? ==> forall m | m in r.value ::
                 if c[m].owner == Some(c[n].objectId) then r.value[m] == c[m].(owner := c[n].owner) else r.value[m] == c[m])
  {
    hide Canonical, Graph, Rooted, IdsParse;
    FindIff(c, reference);
    forall n | Means(c, reference, n)
      ensures Children(c, c[n]) != {} <==> exists m :: m in c && c[m].owner == Some(c[n].objectId)
    {
      if m :| m in c && c[m].owner == Some(c[n].objectId) {
        assert m in Children(c, c[n]);
      }
    }
  }

  /** Deleting a subtree keeps every other entry as it is. */
  lemma DeletionIs(c: Components, gone: set<string>)
    ensures forall n :: n in Kept(c, gone) <==> n in c && c[n].objectId !in gone
    ensures forall n | n in Kept(c, gone) :: Kept(c, gone)[n] == c[n]
  {
  }

  /** A put writes one entry, which keeps the id its alias has, and leaves the others alone. */
  lemma PutIs(c: Components, d: Definition)
    ensures var r := Updated(c, d);
      && r.Keys == c.Keys + {d.componentId} && EntriesKept(c, r, {d.componentId})
      && r[d.componentId] == d.(objectId := if d.componentId in c then c[d.componentId].objectId else d.objectId)
  {
  }

  // ----- moving a leaf

  /** A visual object: some strategy of it is anchored in a picture. */
  predicate Visual(d: Definition) {
    exists s | s in d.body.strategies :: s.kind == "anchored_visual"
  }

  /** A surface that renders visual objects, by its framework or by its capture boundary. */
  predicate Surface(d: Definition) {
    || (d.body.framework.Some? && Fold(d.body.framework.value) in ["jogl", "batik", "custom-render"])
    || (&& "capture_boundary" in d.body.properties && d.body.properties["capture_boundary"].Obj?
        && "supports_visual_children" in d.body.properties["capture_boundary"].fields
        && d.body.properties["capture_boundary"].fields["supports_visual_children"] == Bool(true))
  }

  /** Nothing is owned by the object, and no alias is qualified with its own. */
  ghost predicate Childless(c: Components, n: string)
    requires n in c
  {
    forall m | m in c :: c[m].owner != Some(c[n].objectId) && !(n + "." <= m)
  }

  lemma VisualIff(d: Definition)
    ensures IsVisual(d) <==> Visual(d)
  {
    if IsVisual(d) {
      var i :| 0 <= i < |d.body.strategies| && d.body.strategies[i].kind == "anchored_visual";
      assert d.body.strategies[i] in d.body.strategies;
    }
  }

  lemma ChildlessIff(c: Components, n: string)
    requires n in c && c[n].componentId == n
    ensures Descendants(c, c[n]) == {} <==> Childless(c, n)
  {
    forall m | m in c ensures m in Descendants(c, c[n]) <==> c[m].owner == Some(c[n].objectId) || n + "." <= m {}
  }

  /** The alias of a moved object: the new parent's, a dot, and the last part of its own. */
  predicate Qualified(newName: string, n: string, parent: string) {
    exists i | 0 <= i <= |n| :: newName == parent + "." + n[i..] && '.' !in n[i..] && (i > 0 ==> n[i - 1] == '.')
  }

  lemma {:induction false} LastPart(s: string) returns (i: nat)
    ensures i <= |s| && AfterLast(s, '.') == s[i..] && '.' !in s[i..] && (i > 0 ==> s[i - 1] == '.')
  {
    if s == "" {
      i := 0;
    } else if '.' in s[1..] {
      var k := LastPart(s[1..]);
      i := k + 1;
      if k == 0 {
        assert false;
      }
    } else {
      i := if s[0] == '.' then 1 else 0;
    }
  }

  lemma QualifiedIs(s: Definition, p: Definition)
    ensures Qualified(QualifiedName(s, p), s.componentId, p.componentId)
  {
    var i := LastPart(s.componentId);
  }

  /**
   When a move is refused, and why: the child or the parent is unknown, they are one object, a visual child would
   get a parent that is no rendering surface, the child is no leaf, or its new alias is taken or not trimmed.
   */
  lemma MoveRefusedIff(c: Components, childReference: string, parentReference: string, n: string, p: string)
    requires Valid(c) && Means(c, childReference, n) && Means(c, parentReference, p)
    ensures var (r, newName) := (ReparentSpec(c, childReference, parentReference), QualifiedName(c[n], c[p]));
      && Qualified(newName, n, p)
      && (r.Success? <==>
            && n != p && (Visual(c[n]) ==> Surface(c[p])) && Childless(c, n)
            && (c[n].owner == Some(c[p].objectId) || ((newName == n || newName !in c) && Strip(newName) == newName)))
      && (r.Failure? ==> match r.error
            case OwnParent => n == p
            case NotARenderingSurface => n != p && Visual(c[n]) && !Surface(c[p])
            case NotALeaf(name) => name == n && !Childless(c, n)
            case AlreadyExists(name) => name in c && (name == newName || name == Strip(newName)) && name != n
            case UnknownComponent(name) => name == newName && Strip(newName) != newName
            case _ => false)
  {
    hide Canonical, Graph, Strip, Rooted, IdsParse, QualifiedName, IsVisual, Visual, Descendants, Childless, Qualified;
    FindIff(c, childReference);
    FindIff(c, parentReference);
    QualifiedIs(c[n], c[p]);
    VisualIff(c[n]);
    ChildlessIff(c, n);
    assert c[n].objectId == c[p].objectId <==> n == p;
    assert SupportsVisualChildren(c[p]) <==> Surface(c[p]);
  }

  /** A reference that means nothing is reported, the child's before the parent's. */
  lemma MoveUnknown(c: Components, childReference: string, parentReference: string)
    requires Valid(c)
    ensures var r := ReparentSpec(c, childReference, parentReference);
      && ((forall n :: !Means(c, childReference, n)) ==> r == Failure(UnknownComponent(childReference)))
      && ((exists n :: Means(c, childReference, n)) && (forall p :: !Means(c, parentReference, p)) ==>
            r == Failure(UnknownComponent(parentReference)))
  {
    FindIff(c, childReference);
    FindIff(c, parentReference);
  }

  /**
   What a move changes of the leaf: alias, owner and revision; and of a visual one three properties, which say
   that it must be captured again and what owned it.
   */
  lemma MovedLeafIs(s: Definition, p: Definition, newName: string)
    ensures var m := Moved(s, p, newName);
      && m == s.(componentId := newName, owner := Some(p.objectId),
                 body := s.body.(revision := s.body.revision + 1, properties := m.body.properties))
      && (!Visual(s) ==> m.body.properties == s.body.properties)
      && (Visual(s) ==>
            && (forall k :: k in m.body.properties <==>
                  k in s.body.properties || k in ["locator_status", "recapture_reason", "previous_owner_object_id"])
            && m.body.properties["locator_status"] == Str("needs_recapture")
            && m.body.properties["recapture_reason"] == Str("rendering_surface_owner_changed")
            && m.body.properties["previous_owner_object_id"] == (if s.owner.Some? then Str(s.owner.value) else Null)
            && forall k | k in s.body.properties && k !in ["locator_status", "recapture_reason", "previous_owner_object_id"] ::
                 m.body.properties[k] == s.body.properties[k])
  {
    VisualIff(s);
  }
}
