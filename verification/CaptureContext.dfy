/**
 The authoring view of a captured window: a raw node tree rewritten to its interaction boundaries, with
 the structural context above them, and the choice of the node the capture stands for.
 */
module CaptureContext {
  import opened Outcomes

  /** A serialized node; whether it is an interaction boundary or named context is decided elsewhere. */
  datatype Raw = Raw(ref: string, semantic: bool, structural: bool, children: seq<Raw>)

  datatype ContextNode = ContextNode(payload: Raw, isTarget: bool, isSemantic: bool, children: seq<ContextNode>)

  predicate Marked(raw: Raw, target: string) {
    raw.ref == target || raw.semantic
  }

  /** `_semanticize`. */
  method Semanticize(raw: Raw, target: string, underBoundary: bool) returns (forest: seq<ContextNode>)
    ensures forest == Rewritten(raw, target, underBoundary)
    decreases raw
  {
    var isTarget := raw.ref == target;
    var semantic := isTarget || raw.semantic;
    var inherited := underBoundary || semantic;
    var promoted: seq<ContextNode> := [];
    for i := 0 to |raw.children|
      invariant RewrittenAll(raw.children, target, inherited) == promoted + RewrittenAll(raw.children[i..], target, inherited)
    {
      var below := Semanticize(raw.children[i], target, inherited);
      assert raw.children[i..][1..] == raw.children[i + 1..];
      promoted := promoted + below;
    }
    assert RewrittenAll(raw.children, target, inherited) == promoted;
    var structural := raw.structural && !underBoundary;
    if !semantic && !structural {
      return promoted;
    }
    return [ContextNode(raw, isTarget, semantic, promoted)];
  }

  function Rewritten(raw: Raw, target: string, underBoundary: bool): seq<ContextNode>
    decreases raw
  {
    var below := RewrittenAll(raw.children, target, underBoundary || Marked(raw, target));
    if Marked(raw, target) || (raw.structural && !underBoundary) then
      [ContextNode(raw, raw.ref == target, Marked(raw, target), below)]
    else below
  }

  function RewrittenAll(children: seq<Raw>, target: string, underBoundary: bool): seq<ContextNode>
    decreases children
  {
    if children == [] then []
    else Rewritten(children[0], target, underBoundary) + RewrittenAll(children[1..], target, underBoundary)
  }

  // ----- trees as the preorder lists of their root-to-node paths

  type RawPath = seq<Raw>

  function RawPaths(raw: Raw, above: RawPath): (paths: seq<RawPath>)
    ensures forall p | p in paths :: above < p
    decreases raw
  {
    [above + [raw]] + RawPathsAll(raw.children, above + [raw])
  }

  function RawPathsAll(children: seq<Raw>, above: RawPath): (paths: seq<RawPath>)
    ensures forall p | p in paths :: above < p
    decreases children
  {
    if children == [] then [] else RawPaths(children[0], above) + RawPathsAll(children[1..], above)
  }

  /** The same for a rewritten forest, a path being the raw nodes the nodes on it show. */
  function ShownPaths(forest: seq<ContextNode>, above: RawPath): seq<RawPath>
    decreases forest
  {
    if forest == [] then []
    else
      var here := above + [forest[0].payload];
      [here] + ShownPaths(forest[0].children, here) + ShownPaths(forest[1..], above)
  }

  lemma {:induction false} ShownPathsAppend(a: seq<ContextNode>, b: seq<ContextNode>, above: RawPath)
    ensures ShownPaths(a + b, above) == ShownPaths(a, above) + ShownPaths(b, above)
    decreases |a|
  {
    if a == [] {
      assert a + b == b;
    } else {
      assert (a + b)[0] == a[0] && (a + b)[1..] == a[1..] + b;
      ShownPathsAppend(a[1..], b, above);
    }
  }

  // ----- what the rewriting keeps

  /** The target, the boundaries, and the named context that is below no boundary. */
  predicate Kept(path: RawPath, i: nat, target: string)
    requires i < |path|
  {
    || path[i].ref == target || path[i].semantic
    || (path[i].structural && forall j | 0 <= j < i :: path[j].ref != target && !path[j].semantic)
  }

  predicate EndKept(path: RawPath, target: string) {
    path != [] && Kept(path, |path| - 1, target)
  }

  function KeptPart(path: RawPath, target: string): RawPath {
    if path == [] then []
    else
      var before := KeptPart(path[..|path| - 1], target);
      if EndKept(path, target) then before + [path[|path| - 1]] else before
  }

  predicate Bounded(path: RawPath, target: string) {
    exists j :: 0 <= j < |path| && (path[j].ref == target || path[j].semantic)
  }

  lemma KeptStep(above: RawPath, raw: Raw, target: string)
    ensures var path := above + [raw];
      && (EndKept(path, target) <==> Marked(raw, target) || (raw.structural && !Bounded(above, target)))
      && (Bounded(path, target) <==> Bounded(above, target) || Marked(raw, target))
      && KeptPart(path, target) == KeptPart(above, target) + if EndKept(path, target) then [raw] else []
  {
    var path := above + [raw];
    assert path[..|path| - 1] == above;
    assert forall j | 0 <= j < |above| :: path[j] == above[j];
    assert path[|above|] == raw;
    if Bounded(above, target) {
      var j :| 0 <= j < |above| && (above[j].ref == target || above[j].semantic);
      assert path[j] == above[j];
    }
  }

  function ShownOf(paths: seq<RawPath>, target: string): seq<RawPath> {
    Map(Filter(paths, (p: RawPath) => EndKept(p, target)), (p: RawPath) => KeptPart(p, target))
  }

  lemma ShownOfAppend(a: seq<RawPath>, b: seq<RawPath>, target: string)
    ensures ShownOf(a + b, target) == ShownOf(a, target) + ShownOf(b, target)
  {
    var keep, show := (p: RawPath) => EndKept(p, target), (p: RawPath) => KeptPart(p, target);
    FilterAppend(a, b, keep);
    MapAppend(Filter(a, keep), Filter(b, keep), show);
  }

  lemma ShownOfOne(path: RawPath, target: string)
    ensures ShownOf([path], target) == if EndKept(path, target) then [KeptPart(path, target)] else []
  {
    hide EndKept, KeptPart;
    var keep, show := (p: RawPath) => EndKept(p, target), (p: RawPath) => KeptPart(p, target);
    assert [path][1..] == [];
    assert Filter([path], keep) == if keep(path) then [path] else [];
    assert Map([path], show) == [show(path)];
  }

  /**
   The rewritten tree shows, in preorder, exactly the kept nodes, and the ancestors of each are exactly the
   kept ones among the raw ancestors, in their order.
   */
  lemma {:induction false} RewritingKeepsAncestry(raw: Raw, target: string, above: RawPath)
    ensures ShownPaths(Rewritten(raw, target, Bounded(above, target)), KeptPart(above, target)) ==
            ShownOf(RawPaths(raw, above), target)
    decreases raw
  {
    hide KeptPart, EndKept, Bounded, ShownOf;
    var path := above + [raw];
    KeptStep(above, raw, target);
    RewritingAllKeepsAncestry(raw.children, target, path);
    ShownOfAppend([path], RawPathsAll(raw.children, path), target);
    ShownOfOne(path, target);
    var below := RewrittenAll(raw.children, target, Bounded(path, target));
    if EndKept(path, target) {
      var node := ContextNode(raw, raw.ref == target, Marked(raw, target), below);
      assert [node][1..] == [];
      assert KeptPart(above, target) + [raw] == KeptPart(path, target);
    } else {
      assert Rewritten(raw, target, Bounded(above, target)) == below;
      assert KeptPart(above, target) + [] == KeptPart(above, target);
    }
  }

  lemma {:induction false} RewritingAllKeepsAncestry(children: seq<Raw>, target: string, above: RawPath)
    ensures ShownPaths(RewrittenAll(children, target, Bounded(above, target)), KeptPart(above, target)) ==
            ShownOf(RawPathsAll(children, above), target)
    decreases children
  {
    hide KeptPart, Bounded, Rewritten, RawPaths, EndKept;
    if children == [] {
      assert ShownPaths([], KeptPart(above, target)) == [] && ShownOf([], target) == [];
    } else {
      hide ShownOf, ShownPaths;
      RewritingKeepsAncestry(children[0], target, above);
      RewritingAllKeepsAncestry(children[1..], target, above);
      ShownPathsAppend(Rewritten(children[0], target, Bounded(above, target)),
                       RewrittenAll(children[1..], target, Bounded(above, target)), KeptPart(above, target));
      ShownOfAppend(RawPaths(children[0], above), RawPathsAll(children[1..], above), target);
    }
  }

  /** Every node says of itself whether it is the target and whether it is a boundary. */
  predicate FlagsAgree(forest: seq<ContextNode>, target: string)
    decreases forest
  {
    forall n | n in forest ::
      n.isTarget == (n.payload.ref == target) && n.isSemantic == (n.payload.ref == target || n.payload.semantic)
      && FlagsAgree(n.children, target)
  }

  lemma {:induction false} RewrittenFlagsAgree(raw: Raw, target: string, underBoundary: bool)
    ensures FlagsAgree(Rewritten(raw, target, underBoundary), target)
    decreases raw
  {
    RewrittenAllFlagsAgree(raw.children, target, underBoundary || Marked(raw, target));
  }

  lemma {:induction false} RewrittenAllFlagsAgree(children: seq<Raw>, target: string, underBoundary: bool)
    ensures FlagsAgree(RewrittenAll(children, target, underBoundary), target)
    decreases children
  {
    if children != [] {
      RewrittenFlagsAgree(children[0], target, underBoundary);
      RewrittenAllFlagsAgree(children[1..], target, underBoundary);
    }
  }

  /** `_semantic_children`: the rewritten forest below the window's root, which the root itself does not bound. */
  method SemanticChildren(raw: Raw, target: string) returns (forest: seq<ContextNode>)
    ensures FlagsAgree(forest, target)
    ensures ShownPaths(forest, []) == ShownOf(RawPathsAll(raw.children, []), target)
  {
    forest := [];
    for i := 0 to |raw.children|
      invariant RewrittenAll(raw.children, target, false) == forest + RewrittenAll(raw.children[i..], target, false)
    {
      var below := Semanticize(raw.children[i], target, false);
      assert raw.children[i..][1..] == raw.children[i + 1..];
      forest := forest + below;
    }
    assert forest == RewrittenAll(raw.children, target, false);
    RewrittenAllFlagsAgree(raw.children, target, false);
    RewritingAllKeepsAncestry(raw.children, target, []);
    assert !Bounded([], target) && KeptPart([], target) == [];
  }

  // ----- which node a capture stands for

  predicate EndsAt(path: RawPath, ref: string) {
    path != [] && path[|path| - 1].ref == ref
  }

  /** The first path, in preorder, that ends at the reference. */
  function Hit(paths: seq<RawPath>, ref: string): Option<RawPath> {
    if paths == [] then None else if EndsAt(paths[0], ref) then Some(paths[0]) else Hit(paths[1..], ref)
  }

  lemma {:induction false} HitAppend(a: seq<RawPath>, b: seq<RawPath>, ref: string)
    ensures Hit(a + b, ref) == if Hit(a, ref).Some? then Hit(a, ref) else Hit(b, ref)
  {
    if a == [] {
      assert a + b == b;
    } else {
      assert (a + b)[1..] == a[1..] + b;
      HitAppend(a[1..], b, ref);
    }
  }

  lemma {:induction false} HitIsFirst(paths: seq<RawPath>, ref: string)
    ensures Hit(paths, ref).None? ==> forall p | p in paths :: !EndsAt(p, ref)
    ensures Hit(paths, ref).Some? ==>
      exists i :: 0 <= i < |paths| && Hit(paths, ref).value == paths[i] && EndsAt(paths[i], ref)
        && forall j | 0 <= j < i :: !EndsAt(paths[j], ref)
  {
    if paths != [] && !EndsAt(paths[0], ref) {
      HitIsFirst(paths[1..], ref);
      if Hit(paths, ref).Some? {
        var i :| 0 <= i < |paths[1..]| && Hit(paths, ref).value == paths[1..][i] && EndsAt(paths[1..][i], ref)
          && forall j | 0 <= j < i :: !EndsAt(paths[1..][j], ref);
        assert paths[i + 1] == paths[1..][i];
        forall j | 0 <= j < i + 1 ensures !EndsAt(paths[j], ref) {
          assert j > 0 ==> paths[j] == paths[1..][j - 1];
        }
      }
    }
  }

  /** The walk of `_resolved_semantic_ref`, which shares one path between all its calls. */
  class PathSearch {
    var path: RawPath

    constructor ()
      ensures path == []
    {
      path := [];
    }

    method Visit(node: Raw, target: string) returns (found: bool)
      modifies this
      ensures found == Hit(RawPaths(node, old(path)), target).Some?
      ensures path == if found then Hit(RawPaths(node, old(path)), target).value else old(path)
      decreases node
    {
      ghost var above := path;
      path := path + [node];
      if node.ref == target {
        return true;
      }
      ghost var here := path;
      for i := 0 to |node.children|
        invariant path == here
        invariant Hit(RawPathsAll(node.children, here), target) == Hit(RawPathsAll(node.children[i..], here), target)
      {
        found := Visit(node.children[i], target);
        assert node.children[i..][1..] == node.children[i + 1..];
        HitAppend(RawPaths(node.children[i], here), RawPathsAll(node.children[i + 1..], here), target);
        if found {
          return true;
        }
      }
      path := path[..|path| - 1];
      assert path == above;
      return false;
    }
  }

  /** The deepest boundary on a path, or the target where there is none. */
  ghost predicate DeepestBoundary(path: RawPath, target: string, ref: string) {
    if exists i :: 0 <= i < |path| && path[i].semantic then
      exists i :: 0 <= i < |path| && path[i].semantic && path[i].ref == ref && forall j | i < j < |path| :: !path[j].semantic
    else ref == target
  }

  /** `_resolved_semantic_ref`. */
  method ResolvedSemanticRef(root: Raw, target: string) returns (ref: string)
    ensures Hit(RawPaths(root, []), target).None? ==> ref == target
    ensures Hit(RawPaths(root, []), target).Some? ==> DeepestBoundary(Hit(RawPaths(root, []), target).value, target, ref)
  {
    var search := new PathSearch();
    var found := search.Visit(root, target);
    if !found {
      return target;
    }
    var path := search.path;
    for i := |path| downto 0
      invariant forall j | i <= j < |path| :: !path[j].semantic
    {
      if path[i].semantic {
        return path[i].ref;
      }
    }
    return target;
  }

  // ----- the resolved node is shown

  /** How many paths end at a node with the reference. */
  function Ends(paths: seq<RawPath>, ref: string): nat {
    if paths == [] then 0 else (if EndsAt(paths[0], ref) then 1 else 0) + Ends(paths[1..], ref)
  }

  lemma {:induction false} EndsAppend(a: seq<RawPath>, b: seq<RawPath>, ref: string)
    ensures Ends(a + b, ref) == Ends(a, ref) + Ends(b, ref)
  {
    if a == [] {
      assert a + b == b;
    } else {
      assert (a + b)[1..] == a[1..] + b;
      EndsAppend(a[1..], b, ref);
    }
  }

  lemma {:induction false} EndsSome(paths: seq<RawPath>, p: RawPath, ref: string)
    requires p in paths && EndsAt(p, ref)
    ensures Ends(paths, ref) >= 1
  {
    if paths[0] != p {
      EndsSome(paths[1..], p, ref);
    }
  }

  /** Where a tree hangs does not change which nodes it has. */
  lemma {:induction false} EndsAnywhere(raw: Raw, a: RawPath, b: RawPath, ref: string)
    ensures Ends(RawPaths(raw, a), ref) == Ends(RawPaths(raw, b), ref)
    decreases raw
  {
    EndsAnywhereAll(raw.children, a + [raw], b + [raw], ref);
    EndsAppend([a + [raw]], RawPathsAll(raw.children, a + [raw]), ref);
    EndsAppend([b + [raw]], RawPathsAll(raw.children, b + [raw]), ref);
  }

  lemma {:induction false} EndsAnywhereAll(children: seq<Raw>, a: RawPath, b: RawPath, ref: string)
    ensures Ends(RawPathsAll(children, a), ref) == Ends(RawPathsAll(children, b), ref)
    decreases children
  {
    if children != [] {
      EndsAnywhere(children[0], a, b, ref);
      EndsAnywhereAll(children[1..], a, b, ref);
      EndsAppend(RawPaths(children[0], a), RawPathsAll(children[1..], a), ref);
      EndsAppend(RawPaths(children[0], b), RawPathsAll(children[1..], b), ref);
    }
  }

  /** No node with the target's reference is dropped. */
  lemma {:induction false} TargetsShown(paths: seq<RawPath>, target: string)
    ensures Ends(ShownOf(paths, target), target) == Ends(paths, target)
    decreases |paths|
  {
    if paths != [] {
      var p := paths[0];
      assert paths == [p] + paths[1..];
      ShownOfAppend([p], paths[1..], target);
      ShownOfOne(p, target);
      EndsAppend(ShownOf([p], target), ShownOf(paths[1..], target), target);
      TargetsShown(paths[1..], target);
      if EndKept(p, target) {
        assert KeptPart(p, target)[|KeptPart(p, target)| - 1] == p[|p| - 1];
      }
    }
  }

  lemma {:induction false} PrefixIsPath(raw: Raw, above: RawPath, p: RawPath, n: nat)
    requires p in RawPaths(raw, above) && |above| < n <= |p|
    ensures p[..n] in RawPaths(raw, above)
    decreases raw
  {
    if p == above + [raw] {
      assert p[..n] == p;
    } else if n == |above| + 1 {
      PathsStart(raw.children, above + [raw], p);
      assert p[..n] == above + [raw];
    } else {
      PrefixIsPathAll(raw.children, above + [raw], p, n);
    }
  }

  lemma PathsStart(children: seq<Raw>, above: RawPath, p: RawPath)
    requires p in RawPathsAll(children, above)
    ensures p[..|above|] == above
  {
  }

  lemma {:induction false} PrefixIsPathAll(children: seq<Raw>, above: RawPath, p: RawPath, n: nat)
    requires p in RawPathsAll(children, above) && |above| < n <= |p|
    ensures p[..n] in RawPathsAll(children, above)
    decreases children
  {
    if p in RawPaths(children[0], above) {
      PrefixIsPath(children[0], above, p, n);
    } else {
      PrefixIsPathAll(children[1..], above, p, n);
    }
  }

  /**
   When the capture's target is in the window and resolves to some node other than the root, the rewritten
   forest shows that node as the target: as many times as the window has nodes with that reference, so once
   where references are unique.
   */
  lemma ResolvedTargetIsShown(root: Raw, target: string, ref: string)
    requires var hit := Hit(RawPaths(root, []), target); hit.Some? && DeepestBoundary(hit.value, target, ref)
    requires ref != root.ref
    ensures 1 <= Ends(RawPaths(root, []), ref) == Ends(ShownOf(RawPathsAll(root.children, []), ref), ref)
  {
    hide ShownOf, KeptPart, EndKept;
    var paths := RawPaths(root, []);
    HitIsFirst(paths, target);
    var path := Hit(paths, target).value;
    var i := if exists i :: 0 <= i < |path| && path[i].semantic then
        var i :| 0 <= i < |path| && path[i].semantic && path[i].ref == ref; i
      else |path| - 1;
    PrefixIsPath(root, [], path, i + 1);
    EndsSome(paths, path[..i + 1], ref);
    EndsAppend([[root]], RawPathsAll(root.children, [root]), ref);
    assert [] + [root] == [root];
    EndsAnywhereAll(root.children, [root], [], ref);
    TargetsShown(RawPathsAll(root.children, []), ref);
  }
}
