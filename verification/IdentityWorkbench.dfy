/**
 The workbench's way of editing an identity: flatten it to leaves, then assign every leaf into an
 initially empty mapping, creating the containers on its path.
 */
module IdentityWorkbench {
  import opened Outcomes
  import opened Values
  import opened LeafPaths

  datatype PathError = LeadingIndex | NotAList

  type Fields = map<string, Value>

  const EMPTY: Value := Obj(map[])

  /** A list made at least `size` long with empty mappings. */
  function Padded(items: seq<Value>, size: nat): (r: seq<Value>)
    ensures |r| == if |items| < size then size else |items|
    ensures forall i | 0 <= i < |r| :: r[i] == if i < |items| then items[i] else EMPTY
    decreases size - |items|
  {
    if |items| < size then Padded(items + [EMPTY], size) else items
  }

  /** `_assign_path`, on values. */
  function Assign(root: Fields, path: Path, value: Value): Result<Fields, PathError>
    requires path != []
    decreases |path|
  {
    if path[0].Index? then Failure(LeadingIndex)
    else
      var key := path[0].name;
      if |path| == 1 then Success(root[key := value])
      else if path[1].Index? then
        var at := path[1].place;
        var existing := if key in root then root[key] else Arr([]);
        if !existing.Arr? then Failure(NotAList)
        else
          var items := Padded(existing.items, at + 1);
          if |path| == 2 then Success(root[key := Arr(items[at := value])])
          else
            var deeper := Assign(if items[at].Obj? then items[at].fields else map[], path[2..], value);
            if deeper.Failure? then deeper else Success(root[key := Arr(items[at := Obj(deeper.value)])])
      else
        var deeper := Assign(if key in root && root[key].Obj? then root[key].fields else map[], path[1..], value);
        if deeper.Failure? then deeper else Success(root[key := Obj(deeper.value)])
  }

  function Rebuilt(root: Fields, leaves: seq<(Path, Value)>): Result<Fields, PathError> {
    if leaves == [] then Success(root)
    else
      var before := Rebuilt(root, leaves[..|leaves| - 1]);
      var (path, value) := leaves[|leaves| - 1];
      if before.Failure? || path == [] then before else Assign(before.value, path, value)
  }

  /** `_rebuild_from_paths`, over the leaves in whatever order they come. */
  method RebuildFromPaths(leaves: seq<(Path, Value)>) returns (r: Result<Fields, PathError>)
    ensures r == Rebuilt(map[], leaves)
  {
    var root: Fields := map[];
    for i := 0 to |leaves|
      invariant Rebuilt(map[], leaves[..i]) == Success(root)
    {
      assert leaves[..i + 1][..i] == leaves[..i];
      var (path, value) := leaves[i];
      if path != [] {
        var updated := Assign(root, path, value);
        if updated.Failure? {
          RebuiltFails(leaves, i + 1);
          return updated;
        }
        root := updated.value;
      }
    }
    assert leaves[..|leaves|] == leaves;
    return Success(root);
  }

  lemma {:induction false} RebuiltFails(leaves: seq<(Path, Value)>, i: nat)
    requires i <= |leaves| && Rebuilt(map[], leaves[..i]).Failure?
    ensures Rebuilt(map[], leaves) == Rebuilt(map[], leaves[..i])
  {
    if i < |leaves| {
      assert leaves[..|leaves| - 1][..i] == leaves[..i];
      RebuiltFails(leaves[..|leaves| - 1], i);
    } else {
      assert leaves[..i] == leaves;
    }
  }

  // ----- what a set of assigned leaves builds

  /** One more than the last place under which something is assigned. */
  function Extent(size: nat, paths: set<Path>): (n: nat)
    ensures n <= size
    ensures n > 0 ==> Below(paths, Index(n - 1)) != {}
    ensures forall i | n <= i < size :: Below(paths, Index(i)) == {}
  {
    if size == 0 then 0
    else if Below(paths, Index(size - 1)) != {} then size
    else Extent(size - 1, paths)
  }

  /** The part of `v` that the leaves under `paths` build, in any order. */
  function Part(v: Value, paths: set<Path>): Value {
    match v
    case Obj(fields) => Obj(map k | k in fields && Below(paths, Key(k)) != {} :: Part(fields[k], Below(paths, Key(k))))
    case Arr(items) =>
      Arr(seq(Extent(|items|, paths), i requires 0 <= i < |items| =>
        if Below(paths, Index(i)) != {} then Part(items[i], Below(paths, Index(i))) else EMPTY))
    case _ => v
  }

  /** No index follows an index, and the path begins with a key: the paths that can be assigned. */
  predicate Assignable(path: Path) {
    path != [] && path[0].Key? && forall j | 0 <= j < |path| - 1 :: !(path[j].Index? && path[j + 1].Index?)
  }

  lemma PartOfNothing(v: Value)
    ensures v.Obj? ==> Part(v, {}) == EMPTY
    ensures v.Arr? ==> Part(v, {}) == Arr([])
  {
    if v.Obj? {
      forall k | k in v.fields ensures Below({}, Key(k)) == {} {}
      assert Part(v, {}).fields == map[];
    }
    if v.Arr? {
      assert Extent(|v.items|, {}) == 0;
    }
  }

  /** A field of a part after one more leaf below that field. */
  lemma PartField(fields: Fields, paths: set<Path>, path: Path)
    requires path != [] && path[0].Key? && path[0].name in fields
    ensures var k := path[0].name;
      Part(Obj(fields), paths + {path}).fields ==
        Part(Obj(fields), paths).fields[k := Part(fields[k], Below(paths, Key(k)) + {path[1..]})]
  {
    hide Below;
    forall t ensures Below(paths + {path}, t) == if path[0] == t then Below(paths, t) + {path[1..]} else Below(paths, t) {
      BelowAdd(paths, path, t);
    }
  }

  lemma ExtentAdd(size: nat, paths: set<Path>, path: Path)
    requires path != [] && path[0].Index? && path[0].place < size
    ensures var n := Extent(size, paths);
      Extent(size, paths + {path}) == if n <= path[0].place then path[0].place + 1 else n
  {
    forall t ensures Below(paths + {path}, t) == if path[0] == t then Below(paths, t) + {path[1..]} else Below(paths, t) {
      BelowAdd(paths, path, t);
    }
  }

  /** One item of a list's part; an empty mapping holds the place of an item without leaves. */
  function PartElement(items: seq<Value>, paths: set<Path>, i: nat): Value
    requires i < |items|
  {
    if Below(paths, Index(i)) != {} then Part(items[i], Below(paths, Index(i))) else EMPTY
  }

  lemma PartElements(items: seq<Value>, paths: set<Path>)
    ensures Part(Arr(items), paths).Arr?
    ensures var part := Part(Arr(items), paths).items;
      && |part| == Extent(|items|, paths)
      && (forall i | 0 <= i < |part| :: part[i] == PartElement(items, paths, i))
      && (forall i | |part| <= i < |items| :: PartElement(items, paths, i) == EMPTY)
  {
  }

  /** A list of a part after one more leaf below one of its items. */
  lemma PartItem(items: seq<Value>, paths: set<Path>, path: Path)
    requires path != [] && path[0].Index? && path[0].place < |items|
    ensures var i := path[0].place;
      var padded := Padded(Part(Arr(items), paths).items, i + 1);
      && Part(Arr(items), paths + {path}).items == padded[i := Part(items[i], Below(paths, Index(i)) + {path[1..]})]
      && padded[i] == if Below(paths, Index(i)) != {} then Part(items[i], Below(paths, Index(i))) else EMPTY
  {
    hide Below, Part, Extent;
    forall j | 0 <= j < |items|
      ensures Below(paths + {path}, Index(j)) == if path[0].place == j then Below(paths, Index(j)) + {path[1..]} else Below(paths, Index(j))
    {
      BelowAdd(paths, path, Index(j));
    }
    ExtentAdd(|items|, paths, path);
    PartElements(items, paths);
    PartElements(items, paths + {path});
  }

  /** The container a field's part is continued in, whether or not anything is there yet. */
  lemma PartContinues(fields: Fields, paths: set<Path>, k: string)
    requires k in fields
    ensures var root, part := Part(Obj(fields), paths).fields, Part(fields[k], Below(paths, Key(k)));
      && (fields[k].Obj? ==> part.Obj? && part.fields == if k in root && root[k].Obj? then root[k].fields else map[])
      && (fields[k].Arr? ==> part.Arr? && part == if k in root then root[k] else Arr([]))
  {
    PartOfNothing(fields[k]);
  }

  lemma PartOfScalar(v: Value, paths: set<Path>)
    requires !v.Container()
    ensures Part(v, paths) == v
  {
  }

  /** Assigning a leaf of `v` to what some leaves of `v` have built gives what those leaves and it build. */
  lemma {:induction false} AssignExtendsPart(v: Value, paths: set<Path>, path: Path)
    requires v.Obj? && LeafPath(v, path) && Assignable(path)
    ensures Assign(Part(v, paths).fields, path, Leaf(v, path)) == Success(Part(v, paths + {path}).fields)
    decreases |path|
  {
    hide Part, Below;
    var k := path[0].name;
    var w := v.fields[k];
    var below := Below(paths, Key(k));
    PartField(v.fields, paths, path);
    PartContinues(v.fields, paths, k);
    if |path| == 1 {
      PartOfScalar(w, below + {path[1..]});
    } else if path[1].Key? {
      AssignExtendsPart(w, below, path[1..]);
      PartIsObj(w, below + {path[1..]});
    } else {
      PartIsArr(w, below + {path[1..]});
      AssignExtendsItems(w.items, below, path[1..]);
      assert path[1..][0] == path[1] && |path[1..]| == |path| - 1 && path[1..][1..] == path[2..];
    }
  }

  lemma PartIsObj(v: Value, paths: set<Path>)
    requires v.Obj?
    ensures Part(v, paths).Obj?
  {
  }

  lemma PartIsArr(v: Value, paths: set<Path>)
    requires v.Arr?
    ensures Part(v, paths).Arr?
  {
  }

  /** The same below a list: the padded item takes the leaf, or continues the mapping it is on. */
  lemma {:induction false} AssignExtendsItems(items: seq<Value>, paths: set<Path>, path: Path)
    requires LeafPath(Arr(items), path) && forall j | 0 <= j < |path| - 1 :: !(path[j].Index? && path[j + 1].Index?)
    ensures var i := path[0].place;
      var padded := Padded(Part(Arr(items), paths).items, i + 1);
      var next := Part(Arr(items), paths + {path}).items;
      if |path| == 1 then next == padded[i := Leaf(Arr(items), path)]
      else
        var deeper := Assign(if padded[i].Obj? then padded[i].fields else map[], path[1..], Leaf(Arr(items), path));
        deeper.Success? && next == padded[i := Obj(deeper.value)]
    decreases |path|
  {
    hide Part, Below, Assign;
    var i := path[0].place;
    var item, below := items[i], Below(paths, Index(i));
    PartItem(items, paths, path);
    if |path| == 1 {
      PartOfScalar(item, below + {path[1..]});
    } else {
      assert !(path[0].Index? && path[1].Index?);
      PartOfNothing(item);
      PartIsObj(item, below);
      PartIsObj(item, below + {path[1..]});
      AssignExtendsPart(item, below, path[1..]);
    }
  }

  // ----- flattening

  /** `leaves` are the leaves of `value`, their paths continuing `path`. */
  ghost predicate Flattened(leaves: seq<(Path, Value)>, value: Value, path: Path) {
    && (forall l | l in leaves :: path <= l.0 && LeafPath(value, l.0[|path|..]) && l.1 == Leaf(value, l.0[|path|..]))
    && (forall q | LeafPath(value, q) :: (path + q, Leaf(value, q)) in leaves)
  }

  /** What the children under `done` contribute to the leaves of a container. */
  ghost predicate FlattenedBelow(leaves: seq<(Path, Value)>, value: Value, path: Path, done: set<Token>) {
    && (forall l | l in leaves ::
          path < l.0 && l.0[|path|] in done && LeafPath(value, l.0[|path|..]) && l.1 == Leaf(value, l.0[|path|..]))
    && (forall q | LeafPath(value, q) && q != [] && q[0] in done :: (path + q, Leaf(value, q)) in leaves)
  }

  lemma FlattenedChild(leaves: seq<(Path, Value)>, more: seq<(Path, Value)>, value: Value, path: Path, done: set<Token>, t: Token)
    requires FlattenedBelow(leaves, value, path, done) && Enters(value, t) && Flattened(more, Child(value, t), path + [t])
    ensures FlattenedBelow(leaves + more, value, path, done + {t})
  {
    forall l | l in more
      ensures path < l.0 && l.0[|path|] == t && LeafPath(value, l.0[|path|..]) && l.1 == Leaf(value, l.0[|path|..])
    {
      assert l.0[|path|..][1..] == l.0[|path| + 1..];
    }
    forall q | LeafPath(value, q) && q != [] && q[0] == t ensures (path + q, Leaf(value, q)) in more {
      assert path + [t] + q[1..] == path + q;
    }
  }

  /** `_flatten`: the leaves, mappings in any order and lists in theirs. */
  method Flatten(value: Value, path: Path) returns (leaves: seq<(Path, Value)>)
    ensures Flattened(leaves, value, path)
    decreases value
  {
    leaves := [];
    match value {
      case Obj(fields) =>
        var todo := fields.Keys;
        ghost var done: set<Token> := {};
        while todo != {}
          invariant todo <= fields.Keys
          invariant forall k :: Key(k) in done <==> k in fields && k !in todo
          invariant FlattenedBelow(leaves, value, path, done)
        {
          var k :| k in todo;
          todo := todo - {k};
          var more := Flatten(fields[k], path + [Key(k)]);
          FlattenedChild(leaves, more, value, path, done, Key(k));
          leaves := leaves + more;
          done := done + {Key(k)};
        }
      case Arr(items) =>
        ghost var done: set<Token> := {};
        for i := 0 to |items|
          invariant forall j: nat :: Index(j) in done <==> j < i
          invariant FlattenedBelow(leaves, value, path, done)
        {
          var more := Flatten(items[i], path + [Index(i)]);
          FlattenedChild(leaves, more, value, path, done, Index(i));
          leaves := leaves + more;
          done := done + {Index(i)};
        }
      case _ =>
        leaves := [(path, value)];
        assert forall q :: LeafPath(value, q) <==> q == [];
        assert path + [] == path;
    }
  }

  // ----- flatten, then rebuild

  function PathsOf(leaves: seq<(Path, Value)>): set<Path> {
    set l | l in leaves :: l.0
  }

  /** Rebuilding from leaves of one mapping depends on which leaves there are and not on their order. */
  lemma {:induction false} RebuiltIsPart(v: Value, leaves: seq<(Path, Value)>)
    requires v.Obj? && forall l | l in leaves :: LeafPath(v, l.0) && l.1 == Leaf(v, l.0) && Assignable(l.0)
    ensures Rebuilt(map[], leaves) == Success(Part(v, PathsOf(leaves)).fields)
    decreases |leaves|
  {
    if leaves == [] {
      PartOfNothing(v);
    } else {
      var init, last := leaves[..|leaves| - 1], leaves[|leaves| - 1];
      assert leaves == init + [last];
      RebuiltIsPart(v, init);
      AssignExtendsPart(v, PathsOf(init), last.0);
      assert PathsOf(leaves) == PathsOf(init) + {last.0};
    }
  }

  lemma {:induction false} UnassignableFails(root: Fields, path: Path, value: Value)
    requires path != [] && !Assignable(path)
    ensures Assign(root, path, value).Failure?
    decreases |path|
  {
    if path[0].Key? && |path| > 1 {
      var rest := if path[1].Key? then path[1..] else path[2..];
      var j :| 0 <= j < |path| - 1 && path[j].Index? && path[j + 1].Index?;
      var from := |path| - |rest|;
      assert rest != [];
      assert rest[0] == path[from];
      assert j >= from ==> rest[j - from] == path[j] && rest[j - from + 1] == path[j + 1];
      forall child: Fields ensures Assign(child, rest, value).Failure? {
        UnassignableFails(child, rest, value);
      }
    }
  }

  lemma {:induction false} OneUnassignableFails(leaves: seq<(Path, Value)>, i: nat)
    requires i < |leaves| && leaves[i].0 != [] && !Assignable(leaves[i].0)
    ensures Rebuilt(map[], leaves).Failure?
    decreases |leaves|
  {
    if i < |leaves| - 1 {
      OneUnassignableFails(leaves[..|leaves| - 1], i);
    } else if Rebuilt(map[], leaves[..|leaves| - 1]).Success? {
      UnassignableFails(Rebuilt(map[], leaves[..|leaves| - 1]).value, leaves[i].0, leaves[i].1);
    }
  }

  ghost predicate AllLeaves(v: Value, paths: set<Path>) {
    forall path :: path in paths <==> LeafPath(v, path)
  }

  lemma AllLeavesBelow(v: Value, paths: set<Path>, t: Token)
    requires AllLeaves(v, paths) && Enters(v, t)
    ensures AllLeaves(Child(v, t), Below(paths, t))
    ensures Below(paths, t) != {} <==> HasLeaf(Child(v, t))
  {
    forall rest ensures rest in Below(paths, t) <==> LeafPath(Child(v, t), rest) {
      BelowMember(paths, t, rest);
      assert ([t] + rest)[1..] == rest;
    }
    if HasLeaf(Child(v, t)) {
      var rest :| LeafPath(Child(v, t), rest);
      assert rest in Below(paths, t);
    }
  }

  /**
   Every field has a leaf, every list ends in an item with a leaf, and so on inside. An item without any
   leaf is restored only if it is an empty mapping: those are what lists are padded with.
   */
  ghost predicate Whole(v: Value) {
    match v
    case Obj(fields) => forall k | k in fields :: HasLeaf(fields[k]) && Whole(fields[k])
    case Arr(items) =>
      && (items == [] || HasLeaf(items[|items| - 1]))
      && forall i | 0 <= i < |items| :: if HasLeaf(items[i]) then Whole(items[i]) else items[i] == EMPTY
    case _ => true
  }

  /** One child under all its leaves. */
  ghost predicate Matched(v: Value, paths: set<Path>, t: Token)
    requires Enters(v, t)
  {
    && (Below(paths, t) != {} <==> HasLeaf(Child(v, t)))
    && (Part(Child(v, t), Below(paths, t)) == Child(v, t) <==> Whole(Child(v, t)))
  }

  lemma FieldsAreWhole(fields: Fields, paths: set<Path>)
    requires forall k | k in fields :: Matched(Obj(fields), paths, Key(k))
    ensures Part(Obj(fields), paths) == Obj(fields) <==> Whole(Obj(fields))
  {
    hide Below;
    var part := Part(Obj(fields), paths).fields;
    assert forall k | k in fields :: Matched(Obj(fields), paths, Key(k)) && Child(Obj(fields), Key(k)) == fields[k];
    if part == fields {
      forall k | k in fields ensures HasLeaf(fields[k]) && Whole(fields[k]) {
        assert k in part && part[k] == fields[k];
      }
    }
    if Whole(Obj(fields)) {
      assert part == fields;
    }
  }

  /** An item of a list that is restored. */
  ghost predicate ItemRestored(item: Value) {
    if HasLeaf(item) then Whole(item) else item == EMPTY
  }

  lemma ItemIsRestored(items: seq<Value>, paths: set<Path>, i: nat)
    requires i < |items| && Matched(Arr(items), paths, Index(i))
    ensures Below(paths, Index(i)) != {} <==> HasLeaf(items[i])
    ensures PartElement(items, paths, i) == items[i] <==> ItemRestored(items[i])
  {
    hide Below, Part, Whole;
    assert Child(Arr(items), Index(i)) == items[i];
  }

  lemma WholeItems(items: seq<Value>)
    ensures Whole(Arr(items)) <==>
      (items == [] || HasLeaf(items[|items| - 1])) && forall i | 0 <= i < |items| :: ItemRestored(items[i])
  {
  }

  lemma ItemsAreWhole(items: seq<Value>, paths: set<Path>)
    requires forall i | 0 <= i < |items| :: Matched(Arr(items), paths, Index(i))
    ensures Part(Arr(items), paths) == Arr(items) <==> Whole(Arr(items))
  {
    PartElements(items, paths);
    WholeItems(items);
    ExtentWhole(|items|, paths);
    var part := Part(Arr(items), paths).items;
    hide Below, Part, Whole, PartElement, Matched, HasLeaf, ItemRestored, Extent;
    forall i | 0 <= i < |items|
      ensures Below(paths, Index(i)) != {} <==> HasLeaf(items[i])
      ensures PartElement(items, paths, i) == items[i] <==> ItemRestored(items[i])
    {
      ItemIsRestored(items, paths, i);
    }
    SameItems(part, items);
  }

  lemma ExtentWhole(size: nat, paths: set<Path>)
    ensures Extent(size, paths) == size <==> size == 0 || Below(paths, Index(size - 1)) != {}
  {
    hide Below;
  }

  lemma SameItems(a: seq<Value>, b: seq<Value>)
    ensures a == b <==> |a| == |b| && forall i | 0 <= i < |a| :: a[i] == b[i]
  {
  }

  lemma {:induction false} PartIsWhole(v: Value, paths: set<Path>)
    requires AllLeaves(v, paths)
    ensures Part(v, paths) == v <==> Whole(v)
    decreases v
  {
    if v.Container() {
      forall t | Enters(v, t) ensures Matched(v, paths, t) {
        AllLeavesBelow(v, paths, t);
        PartIsWhole(Child(v, t), Below(paths, t));
      }
      hide Part, Whole, Below, AllLeaves, Matched;
      if v.Obj? {
        FieldsAreWhole(v.fields, paths);
      } else {
        ItemsAreWhole(v.items, paths);
      }
    }
  }

  /**
   Flattening a mapping and rebuilding it, with the leaves in any order, gives the mapping back exactly
   when no index follows an index on a leaf's path and nothing without a leaf is inside, save padding.
   */
  lemma RebuildRestoresIffWhole(v: Value, leaves: seq<(Path, Value)>)
    requires v.Obj? && Flattened(leaves, v, [])
    ensures Rebuilt(map[], leaves) == Success(v.fields) <==> Whole(v) && forall path | LeafPath(v, path) :: Assignable(path)
  {
    hide Part, Whole, Rebuilt, Assignable;
    forall l | l in leaves ensures LeafPath(v, l.0) && l.1 == Leaf(v, l.0) {
      assert l.0[0..] == l.0;
    }
    assert AllLeaves(v, PathsOf(leaves)) by {
      forall path | LeafPath(v, path) ensures path in PathsOf(leaves) {
        assert [] + path == path;
        assert (path, Leaf(v, path)) in leaves;
      }
    }
    if forall path | LeafPath(v, path) :: Assignable(path) {
      RebuiltIsPart(v, leaves);
      PartIsWhole(v, PathsOf(leaves));
      PartIsObj(v, PathsOf(leaves));
    } else {
      var path :| LeafPath(v, path) && !Assignable(path);
      assert path in PathsOf(leaves);
      var l :| l in leaves && l.0 == path;
      var i :| 0 <= i < |leaves| && leaves[i] == l;
      OneUnassignableFails(leaves, i);
    }
  }
}
