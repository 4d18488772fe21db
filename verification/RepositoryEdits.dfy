/**
 Edits of a repository. Each starts from a valid repository, makes the checks it names, and hands the
 changed mapping to the constructor. The specification functions never consult the constructor, so a
 method that meets one shows which edits the constructor cannot refuse.
 */
module RepositoryEdits {
  import opened Outcomes
  import opened Ownership
  import opened Text
  import opened ComponentRepository

  /** `get`: by alias, else by object id. */
  function Find(c: Components, reference: string): Option<Definition>
    requires DistinctIds(c)
  {
    if reference in c then Some(c[reference])
    else if exists n | n in c :: c[n].objectId == reference then
      var n :| n in c && c[n].objectId == reference;
      Some(c[n])
    else None
  }

  lemma FindAlias(c: Components, reference: string)
    requires Valid(c) && Find(c, reference).Some?
    ensures var d := Find(c, reference).value; d.componentId in c && c[d.componentId] == d
  {
  }

  // ----- rename

  function Renamed(c: Components, oldName: string, newName: string): Components
    requires oldName in c
  {
    (c - {oldName})[newName := c[oldName].(componentId := newName)]
  }

  lemma RenamedKeepsOwnership(c: Components, oldName: string, newName: string)
    requires Valid(c) && oldName in c && (newName == oldName || newName !in c)
    ensures Valid(Renamed(c, oldName, newName))
    ensures Graph(Renamed(c, oldName, newName)) == Graph(c)
  {
    hide Canonical, Graph;
    var r := Renamed(c, oldName, newName);
    assert r[newName].objectId == c[oldName].objectId;
    assert DistinctIds(r) by {
      forall m, n | m in r && n in r && Canonical(r[m].objectId) == Canonical(r[n].objectId) ensures m == n {
        var m0 := if m == newName then oldName else m;
        var n0 := if n == newName then oldName else n;
        assert m0 == n0;
      }
    }
    forall id | id in Graph(r) ensures id in Graph(c) && Graph(c)[id] == Graph(r)[id] {
      var n := NameOf(r, id);
      GraphAt(c, if n == newName then oldName else n);
    }
    forall id | id in Graph(c) ensures id in Graph(r) {
      var n := NameOf(c, id);
      GraphAt(r, if n == oldName then newName else n);
    }
    assert Graph(r) == Graph(c);
  }

  function RenameSpec(c: Components, reference: string, newName: string): Outcome
    requires DistinctIds(c)
  {
    var name := Strip(newName);
    var found := Find(c, reference);
    if name == "" then Failure(EmptyName)
    else if found.None? then Failure(UnknownComponent(reference))
    else if name != found.value.componentId && name in c then Failure(AlreadyExists(name))
    else if found.value.componentId !in c then Failure(UnknownComponent(reference))
    else Success(Renamed(c, found.value.componentId, name))
  }

  method Rename(c: Components, reference: string, newName: string) returns (r: Outcome)
    requires Valid(c)
    ensures r == RenameSpec(c, reference, newName)
    ensures r.Success? ==> Valid(r.value) && Graph(r.value) == Graph(c)
  {
    hide Canonical, Graph;
    var name := Strip(newName);
    if name == "" {
      return Failure(EmptyName);
    }
    var found := Find(c, reference);
    if found.None? {
      return Failure(UnknownComponent(reference));
    }
    FindAlias(c, reference);
    var definition := found.value;
    if name != definition.componentId && name in c {
      return Failure(AlreadyExists(name));
    }
    var merged := c - {definition.componentId};
    merged := merged[name := definition.(componentId := name)];
    RenamedKeepsOwnership(c, definition.componentId, name);
    r := Construct(merged);
  }

  /** Renaming back restores the repository exactly, provided the old alias is one that renaming can give. */
  lemma RenameUndone(c: Components, reference: string, newName: string)
    requires Valid(c) && RenameSpec(c, reference, newName).Success?
    ensures Find(c, reference).Some? && Valid(RenameSpec(c, reference, newName).value)
    ensures var former, name, r := Find(c, reference).value.componentId, Strip(newName), RenameSpec(c, reference, newName).value;
      RenameSpec(r, name, former) == Success(c) <==> former != "" && Trimmed(former)
  {
    hide Canonical, Graph, Strip;
    FindAlias(c, reference);
    var former, name := Find(c, reference).value.componentId, Strip(newName);
    var r := Renamed(c, former, name);
    RenamedKeepsOwnership(c, former, name);
    StripIsTrimmed(newName);
    StripIsTrimmed(former);
    assert Find(r, name) == Some(r[name]);
    if former != "" && Trimmed(former) {
      assert Renamed(r, name, former) == c;
    } else if RenameSpec(r, name, former).Success? {
      assert Strip(former) in RenameSpec(r, name, former).value && Strip(former) != former;
      assert former !in RenameSpec(r, name, former).value || RenameSpec(r, name, former).value != c;
    }
  }

  // ----- deleting a subtree

  function Kept(c: Components, gone: set<string>): Components {
    map n | n in c && c[n].objectId !in gone :: c[n]
  }

  lemma KeptGraph(c: Components, gone: set<string>)
    requires Identified(c)
    ensures Identified(Kept(c, gone))
    ensures Graph(Kept(c, gone)) == Without(Graph(c), gone)
  {
    hide Canonical, Graph;
    var k := Kept(c, gone);
    forall id | id in Graph(k) ensures id in Without(Graph(c), gone) && Graph(k)[id] == Graph(c)[id] {
      var n := NameOf(k, id);
      GraphAt(c, n);
    }
    forall id | id in Without(Graph(c), gone) ensures id in Graph(k) {
      var n := NameOf(c, id);
      GraphAt(k, n);
    }
  }

  lemma KeptValid(c: Components, gone: set<string>)
    requires Valid(c) && OwnsDownward(Graph(c), gone)
    ensures Valid(Kept(c, gone))
  {
    hide Canonical, Graph;
    KeptGraph(c, gone);
    WithoutRooted(Graph(c), gone);
  }

  ghost function Doomed(c: Components, root: string): set<string>
    requires DistinctIds(c)
  {
    Subtree(Graph(c), root)
  }

  /** A set of ids that holds the root, only subtree members, and every object owned from it, is the subtree. */
  lemma ClosedIsSubtree(c: Components, root: string, removed: set<string>)
    requires Valid(c) && root in Graph(c) && root in removed && removed <= Doomed(c, root)
    requires OwnsDownward(Graph(c), removed)
    ensures removed == Doomed(c, root)
  {
    hide Canonical, Graph;
    var g := Graph(c);
    forall v | v in Doomed(c, root) ensures v in removed {
      if v != root {
        var n: nat :| Passes(g, g[v], root, n);
        PassesFromInside(g, removed, v, root, n);
      }
    }
  }

  /** One sweep of the chaotic iteration, over the definitions in any order. */
  method SweepOwned(c: Components, ghost root: string, removed: set<string>) returns (grown: set<string>)
    requires Valid(c) && root in Graph(c) && removed <= Doomed(c, root)
    ensures removed <= grown <= Doomed(c, root)
    ensures grown == removed ==> OwnsDownward(Graph(c), removed)
  {
    hide Canonical, Graph;
    grown := removed;
    var todo := c.Keys;
    while todo != {}
      invariant removed <= grown <= Doomed(c, root)
      invariant grown == removed ==> forall n | n in c && n !in todo && c[n].owner.Some? && c[n].owner.value in removed :: c[n].objectId in removed
    {
      var n :| n in todo;
      todo := todo - {n};
      if c[n].owner.Some? && c[n].owner.value in grown && c[n].objectId !in grown {
        SubtreeOwnsDownward(Graph(c), root);
        GraphAt(c, n);
        grown := grown + {c[n].objectId};
      }
    }
    if grown == removed {
      forall v | v in Graph(c) && Graph(c)[v].Some? && Graph(c)[v].value in removed ensures v in removed {
        var n := NameOf(c, v);
      }
    }
  }

  method DeleteSubtree(c: Components, reference: string) returns (r: Result<(Components, set<string>), RepositoryError>)
    requires Valid(c)
    ensures r.Failure? <==> Find(c, reference).None?
    ensures r.Success? ==>
      var gone := Doomed(c, Find(c, reference).value.objectId);
      r.value.0 == Kept(c, gone) && r.value.1 == (set n | n in c && c[n].objectId in gone) && Valid(r.value.0)
    ensures r.Failure? ==> r.error == UnknownComponent(reference)
  {
    hide Canonical, Graph;
    var found := Find(c, reference);
    if found.None? {
      return Failure(UnknownComponent(reference));
    }
    FindAlias(c, reference);
    var root := found.value.objectId;
    GraphAt(c, found.value.componentId);
    var removed := {root};
    var changed := true;
    while changed
      invariant root in removed && removed <= Doomed(c, root)
      invariant !changed ==> OwnsDownward(Graph(c), removed)
      decreases Doomed(c, root) - removed, changed
    {
      var grown := SweepOwned(c, root, removed);
      changed := grown != removed;
      removed := grown;
    }
    ClosedIsSubtree(c, root, removed);
    KeptValid(c, removed);
    var removedNames := set n | n in c && c[n].objectId in removed;
    var rest := Construct(Kept(c, removed));
    return Success((rest.value, removedNames));
  }

  // ----- removing one object

  function Reparented(c: Components, target: Definition): Components {
    map n | n in c && n != target.componentId :: Rehomed(c[n], target)
  }

  function Rehomed(d: Definition, target: Definition): Definition {
    if d.owner == Some(target.objectId) then d.(owner := target.owner) else d
  }

  function Children(c: Components, target: Definition): set<string> {
    set n | n in c && c[n].owner == Some(target.objectId)
  }

  lemma ReparentedBypasses(c: Components, t: Definition)
    requires Valid(c) && t.componentId in c && c[t.componentId] == t
    ensures Identified(Reparented(c, t))
    ensures Graph(Reparented(c, t)).Keys == Graph(c).Keys - {t.objectId}
    ensures Bypasses(Graph(c), {t.objectId}, Graph(Reparented(c, t)))
  {
    hide Canonical, Graph;
    var r := Reparented(c, t);
    var g := Graph(c);
    forall id ensures id in Graph(r) <==> id in g && id != t.objectId {
      if id in Graph(r) {
        var n := NameOf(r, id);
        GraphAt(c, n);
      }
      if id in g && id != t.objectId {
        var n := NameOf(c, id);
        GraphAt(r, n);
      }
    }
    GraphAt(c, t.componentId);
    forall v | v in g && v != t.objectId
      ensures v in Graph(r) && Ends(g, g[v]) && Graph(r)[v] == Nearest(g, {t.objectId}, g[v])
    {
      var n := NameOf(c, v);
      GraphAt(r, n);
      EndsStep(g, v);
      if g[v].Some? {
        RootedClosed(g, v);
        NearestStep(g, {t.objectId}, g[v].value);
        if g[v] == Some(t.objectId) && t.owner.Some? {
          RootedClosed(g, t.objectId);
          NearestStep(g, {t.objectId}, t.owner.value);
        }
      }
    }
  }

  /** Removing an object with its children reparented keeps "is an ancestor of" among the survivors exactly. */
  lemma RemovalKeepsAncestors(c: Components, t: Definition, v: string, a: string)
    requires Valid(c) && t.componentId in c && c[t.componentId] == t
    requires v in Graph(c) && v != t.objectId && a != t.objectId
    ensures Valid(Reparented(c, t))
    ensures Ancestor(Graph(Reparented(c, t)), v, a) <==> Ancestor(Graph(c), v, a)
  {
    hide Canonical, Graph;
    ReparentedBypasses(c, t);
    var g, h := Graph(c), Graph(Reparented(c, t));
    forall w | w in h ensures Ends(h, Some(w)) {
      BypassRooted(g, {t.objectId}, h, w);
    }
    BypassKeepsAncestors(g, {t.objectId}, h, v, a);
  }

  lemma ReparentedValid(c: Components, t: Definition)
    requires Valid(c) && t.componentId in c && c[t.componentId] == t
    ensures Valid(Reparented(c, t))
  {
    hide Canonical, Graph;
    ReparentedBypasses(c, t);
    forall w | w in Graph(Reparented(c, t)) ensures Ends(Graph(Reparented(c, t)), Some(w)) {
      BypassRooted(Graph(c), {t.objectId}, Graph(Reparented(c, t)), w);
    }
  }

  function RemoveSpec(c: Components, reference: string, reparentChildren: bool): Outcome
    requires DistinctIds(c)
  {
    var found := Find(c, reference);
    if found.None? then Success(c)
    else if Children(c, found.value) != {} && !reparentChildren then Failure(HasChildren(found.value.componentId))
    else Success(Reparented(c, found.value))
  }

  method ReparentChildren(c: Components, target: Definition, children: set<string>) returns (merged: Components)
    requires children == Children(c, target) && target.componentId !in children
    ensures merged == Reparented(c, target)
  {
    merged := c - {target.componentId};
    var todo := children;
    while todo != {}
      invariant todo <= children
      invariant merged.Keys == c.Keys - {target.componentId}
      invariant forall n | n in merged :: merged[n] == if n in todo then c[n] else Rehomed(c[n], target)
    {
      var n :| n in todo;
      todo := todo - {n};
      merged := merged[n := c[n].(owner := target.owner)];
    }
    assert merged.Keys == Reparented(c, target).Keys;
  }

  method WithoutComponent(c: Components, reference: string, reparentChildren: bool) returns (r: Outcome)
    requires Valid(c)
    ensures r == RemoveSpec(c, reference, reparentChildren)
    ensures r.Success? ==> Valid(r.value)
  {
    hide Canonical, Graph;
    var found := Find(c, reference);
    if found.None? {
      return Success(c);
    }
    FindAlias(c, reference);
    var target := found.value;
    var children := Children(c, target);
    if children != {} && !reparentChildren {
      return Failure(HasChildren(target.componentId));
    }
    TargetIsNoChild(c, target);
    var merged := ReparentChildren(c, target, children);
    ReparentedValid(c, target);
    r := Construct(merged);
  }

  lemma TargetIsNoChild(c: Components, target: Definition)
    requires Valid(c) && target.componentId in c && c[target.componentId] == target
    ensures target.componentId !in Children(c, target)
  {
    hide Canonical, Graph;
    GraphAt(c, target.componentId);
    if target.owner.Some? {
      RootedClosed(Graph(c), target.objectId);
    }
  }

  // ----- adding or replacing a definition

  /** The mapping `with_component` hands to the constructor: an existing alias keeps its object id. */
  function Updated(c: Components, d: Definition): Components {
    c[d.componentId := if d.componentId in c then d.(objectId := c[d.componentId].objectId) else d]
  }

  method WithComponent(c: Components, d: Definition) returns (r: Outcome)
    requires Valid(c)
    ensures r.Success? <==> Valid(Updated(c, d))
    ensures r.Success? <==> PutAccepted(c, d)
    ensures r.Success? ==> r.value == Updated(c, d)
  {
    PutAcceptedIff(c, d);
    hide Valid, PutAccepted;
    var definition := d;
    if d.componentId in c && c[d.componentId].objectId != d.objectId {
      definition := d.(objectId := c[d.componentId].objectId);
    }
    r := Construct(c[definition.componentId := definition]);
  }

  /** When a definition with a new alias and a new id is accepted. */
  lemma FreshDefinitionAccepted(c: Components, d: Definition)
    requires Valid(c) && d.componentId !in c && d.objectId !in Ids(c) && d.owner != Some(d.objectId)
    ensures Valid(Updated(c, d)) <==>
      && Canonical(d.objectId).Some?
      && (forall n | n in c :: Canonical(c[n].objectId) != Canonical(d.objectId))
      && (d.owner.None? || d.owner.value in Ids(c))
    ensures Valid(Updated(c, d)) ==> Graph(Updated(c, d)) == Graph(c)[d.objectId := d.owner]
  {
    hide Canonical, Graph;
    var u := Updated(c, d);
    var g := Graph(c);
    GraphIds(c);
    if Identified(u) {
      forall n | n in c ensures Canonical(c[n].objectId) != Canonical(d.objectId) {
        assert u[n] == c[n] && u[d.componentId] == d;
      }
      assert Canonical(u[d.componentId].objectId).Some?;
    }
    if Canonical(d.objectId).Some? && forall n | n in c :: Canonical(c[n].objectId) != Canonical(d.objectId) {
      assert Identified(u);
      UpdatedGraph(c, d);
      forall w | w in g ensures g[w] != Some(d.objectId) {
        if g[w].Some? { RootedClosed(g, w); }
      }
      AttachLeaf(g, d.objectId, d.owner);
    }
  }

  /**
   When `with_component` succeeds. A new alias needs an id no entry has in any spelling, and a known owner;
   a known alias needs an owner that the object does not own itself, directly or through others.
   */
  ghost predicate PutAccepted(c: Components, d: Definition)
    requires DistinctIds(c)
  {
    if d.componentId in c then
      d.owner.None? || (d.owner.value in Ids(c) && !InSubtree(Graph(c), d.owner.value, c[d.componentId].objectId))
    else
      && Canonical(d.objectId).Some?
      && (forall n | n in c :: Canonical(c[n].objectId) != Canonical(d.objectId))
      && (d.owner.None? || d.owner.value in Ids(c))
  }

  lemma PutAcceptedIff(c: Components, d: Definition)
    requires Valid(c)
    ensures Valid(Updated(c, d)) <==> PutAccepted(c, d)
  {
    hide Canonical, Graph;
    if d.componentId in c {
      var kept := d.(objectId := c[d.componentId].objectId);
      assert Updated(c, kept) == Updated(c, d);
      OwnerReplaced(c, kept);
    } else if d.objectId in Ids(c) {
      var n :| n in c && c[n].objectId == d.objectId;
      var u := Updated(c, d);
      assert u[n] == c[n] && u[d.componentId] == d;
      assert !DistinctIds(u);
    } else if d.owner == Some(d.objectId) {
      if Valid(Updated(c, d)) {
        GraphAt(Updated(c, d), d.componentId);
        RootedClosed(Graph(Updated(c, d)), d.objectId);
      }
    } else {
      FreshDefinitionAccepted(c, d);
    }
  }

  /** Replacing a definition is accepted exactly when its new owner is outside the object's own subtree. */
  lemma OwnerReplaced(c: Components, d: Definition)
    requires Valid(c) && d.componentId in c && d.objectId == c[d.componentId].objectId
    ensures Valid(Updated(c, d)) <==> d.owner.None? || (d.owner.value in Ids(c) && !InSubtree(Graph(c), d.owner.value, d.objectId))
  {
    hide Canonical, Graph;
    var u := Updated(c, d);
    assert Identified(u) by {
      assert forall n | n in u :: n in c && u[n].objectId == c[n].objectId;
    }
    GraphIds(c);
    GraphAt(c, d.componentId);
    UpdatedGraph(c, d);
    NewOwnerRooted(Graph(c), d.objectId, d.owner);
  }

  lemma UpdatedGraph(c: Components, d: Definition)
    requires Identified(c) && Identified(Updated(c, d))
    requires d.componentId in c ==> c[d.componentId].objectId == d.objectId
    ensures Graph(Updated(c, d)) == Graph(c)[d.objectId := d.owner]
  {
    hide Canonical, Graph;
    var u := Updated(c, d);
    forall id | id in Graph(u) ensures id in Graph(c)[d.objectId := d.owner] && Graph(u)[id] == Graph(c)[d.objectId := d.owner][id] {
      var n := NameOf(u, id);
      if n != d.componentId {
        assert Canonical(u[n].objectId) != Canonical(u[d.componentId].objectId);
        GraphAt(c, n);
      }
    }
    forall id | id in Graph(c)[d.objectId := d.owner] ensures id in Graph(u) {
      if id == d.objectId {
        GraphAt(u, d.componentId);
      } else {
        var n := NameOf(c, id);
        GraphAt(u, n);
      }
    }
  }

  // ----- composing two repositories

  predicate NamesAgree(a: Components, b: Components) {
    forall n | n in a && n in b :: a[n] == b[n]
  }

  predicate IdsAgree(a: Components, b: Components) {
    forall m, n | m in a && n in b && a[m].objectId == b[n].objectId :: m == n
  }

  lemma OverlayRooted(a: Components, b: Components)
    requires Valid(a) && Valid(b) && NamesAgree(a, b) && IdsAgree(a, b)
    ensures Valid(a + b) <==> DistinctIds(a + b)
  {
    hide Canonical, Graph;
    if DistinctIds(a + b) {
      var g, h, u := Graph(a), Graph(b), Graph(a + b);
      forall id | id in g && id in h ensures g[id] == h[id] {
        var m := NameOf(a, id);
        var n := NameOf(b, id);
      }
      RootedUnion(g, h);
      forall id | id in u ensures id in g + h && u[id] == (g + h)[id] {
        var n := NameOf(a + b, id);
        if n in b { GraphAt(b, n); } else { GraphAt(a, n); }
        if id in h {
          var m := NameOf(b, id);
          GraphAt(a + b, m);
        }
      }
      forall id | id in g + h ensures id in u {
        if id in h {
          var n := NameOf(b, id);
          GraphAt(a + b, n);
        } else {
          var n := NameOf(a, id);
          GraphAt(a + b, n);
        }
      }
      assert u == g + h;
    }
  }

  /** `d` may stand under the alias `n` of `c`: no other definition is there, and no other alias has its id. */
  predicate Composable(c: Components, n: string, d: Definition) {
    (n in c ==> c[n] == d) && forall m | m in c && c[m].objectId == d.objectId :: m == n
  }

  method FindConflict(c: Components, n: string, d: Definition) returns (error: Option<RepositoryError>)
    ensures error.None? <==> Composable(c, n, d)
    ensures error.Some? ==>
      if n in c && c[n] != d then error.value == NameConflict(n)
      else error.value == IdConflict(d.objectId) && exists m :: m in c && m != n && c[m].objectId == d.objectId
  {
    if n in c && c[n] != d {
      return Some(NameConflict(n));
    }
    var todo := c.Keys;
    while todo != {}
      invariant forall m | m in c && m !in todo && c[m].objectId == d.objectId :: m == n
    {
      var m :| m in todo;
      todo := todo - {m};
      if m != n && c[m].objectId == d.objectId {
        return Some(IdConflict(d.objectId));
      }
    }
    return None;
  }

  /** What a conflict names: an alias with two definitions, or an id under two aliases. */
  predicate Conflicting(a: Components, b: Components, error: RepositoryError) {
    match error
    case NameConflict(n) => n in a && n in b && a[n] != b[n]
    case IdConflict(id) => exists m, n | m in a && n in b :: m != n && a[m].objectId == b[n].objectId == id
    case _ => false
  }

  lemma ConflictIsReal(a: Components, b: Components, todo: set<string>, n: string, error: RepositoryError)
    requires IdsAgree(b, b) && n in b && n in todo
    requires forall m | m in b && m !in todo :: Composable(a, m, b[m])
    requires var c := a + Copied(b, todo);
      if n in c && c[n] != b[n] then error == NameConflict(n)
      else error == IdConflict(b[n].objectId) && exists m :: m in c && m != n && c[m].objectId == b[n].objectId
    ensures Conflicting(a, b, error)
  {
    var c := a + Copied(b, todo);
    if !(n in c && c[n] != b[n]) {
      var m :| m in c && m != n && c[m].objectId == b[n].objectId;
      if m in b && m !in todo {
        assert false;
      }
      assert m in a && a[m] == c[m];
    }
  }

  /** The loop of `overlay`, before the constructor sees its result. */
  method Compose(a: Components, b: Components) returns (r: Outcome)
    requires IdsAgree(b, b)
    ensures r.Success? <==> NamesAgree(a, b) && IdsAgree(a, b)
    ensures r.Success? ==> r.value == a + b
    ensures r.Failure? ==> Conflicting(a, b, r.error)
  {
    hide Composable, Copied, NamesAgree, IdsAgree, Conflicting;
    var merged := a;
    var todo := b.Keys;
    CopiedSteps(a, b, todo);
    while todo != {}
      invariant todo <= b.Keys
      invariant merged == a + Copied(b, todo)
      invariant forall n | n in b && n !in todo :: Composable(a, n, b[n])
    {
      var n :| n in todo;
      MergedConflicts(a, b, todo, n);
      var error := FindConflict(merged, n, b[n]);
      if error.Some? {
        ConflictIsReal(a, b, todo, n, error.value);
        AllComposable(a, b);
        return Failure(error.value);
      }
      CopiedSteps(a, b, todo);
      merged := merged[n := b[n]];
      todo := todo - {n};
    }
    AllComposable(a, b);
    CopiedSteps(a, b, {});
    return Success(merged);
  }

  /** What the loop of `overlay` has copied from `b` when `todo` is left. */
  function Copied(b: Components, todo: set<string>): Components {
    map n | n in b && n !in todo :: b[n]
  }

  lemma CopiedSteps(a: Components, b: Components, todo: set<string>)
    ensures a + Copied(b, b.Keys) == a && a + Copied(b, {}) == a + b
    ensures forall n | n in todo && n in b :: (a + Copied(b, todo))[n := b[n]] == a + Copied(b, todo - {n})
  {
    assert Copied(b, b.Keys) == map[] && Copied(b, {}) == b;
  }

  lemma AllComposable(a: Components, b: Components)
    ensures (forall n | n in b :: Composable(a, n, b[n])) <==> NamesAgree(a, b) && IdsAgree(a, b)
  {
  }

  lemma MergedConflicts(a: Components, b: Components, todo: set<string>, n: string)
    requires IdsAgree(b, b) && n in b && n in todo
    requires forall m | m in b && m !in todo :: Composable(a, m, b[m])
    ensures Composable(a + Copied(b, todo), n, b[n]) <==> Composable(a, n, b[n])
  {
    var merged := a + Copied(b, todo);
    forall m | m in a ensures m in merged && merged[m] == a[m] {
      assert m in b && m !in todo ==> Composable(a, m, b[m]);
    }
  }

  /**
   `overlay`. Past its own two checks it fails only when the same id is written in two spellings;
   canonically spelled repositories never reach that failure.
   */
  method Overlay(a: Components, b: Components) returns (r: Outcome)
    requires Valid(a) && Valid(b)
    ensures r.Success? <==> NamesAgree(a, b) && IdsAgree(a, b) && DistinctIds(a + b)
    ensures r.Success? ==> r.value == a + b && Valid(a + b)
    ensures r.Failure? && !(NamesAgree(a, b) && IdsAgree(a, b)) ==> Conflicting(a, b, r.error)
    ensures CanonicallySpelled(a) && CanonicallySpelled(b) ==> (r.Success? <==> NamesAgree(a, b) && IdsAgree(a, b))
  {
    hide Canonical, Graph;
    assert IdsAgree(b, b);
    r := Compose(a, b);
    if r.Failure? {
      return;
    }
    OverlayRooted(a, b);
    SpelledApart(a, b);
    r := Construct(r.value);
  }

  lemma SpelledApart(a: Components, b: Components)
    requires Valid(a) && Valid(b) && NamesAgree(a, b) && IdsAgree(a, b)
    ensures CanonicallySpelled(a) && CanonicallySpelled(b) ==> DistinctIds(a + b)
  {
    hide Canonical, Graph;
  }

  function Alone(name: string, id: string, body: Body): Components {
    map[name := Definition(name, id, None, body)]
  }

  lemma AloneValid(name: string, id: string, body: Body)
    requires Canonical(id).Some?
    ensures Valid(Alone(name, id, body))
  {
    hide Canonical;
    var c := Alone(name, id, body);
    assert EndsIn(Graph(c), Some(id), 1);
  }

  /** Two repositories that agree on every alias and id as written, and still do not overlay. */
  lemma SpellingsClash(body: Body)
    ensures var a, b := Alone("Surface", SampleId('a'), body), Alone("Track", Unhyphenated('a'), body);
      Valid(a) && Valid(b) && NamesAgree(a, b) && IdsAgree(a, b) && !DistinctIds(a + b)
  {
    hide Canonical, SampleId, Unhyphenated;
    SampleIdSpellings('a');
    var a, b := Alone("Surface", SampleId('a'), body), Alone("Track", Unhyphenated('a'), body);
    AloneValid("Surface", SampleId('a'), body);
    AloneValid("Track", Unhyphenated('a'), body);
    var both := a + b;
    assert both["Surface"].objectId == SampleId('a') && both["Track"].objectId == Unhyphenated('a');
  }
}
