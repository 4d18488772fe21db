/**
 The ownership graph of a repository: every object id names its owner's id, or none.
 Chains of owners, what it means for them to end at a root, and what removing or skipping
 objects does to them.
 */
module Ownership {
  import opened Outcomes

  type Owners = map<string, Option<string>>

  /** The chain of owners that starts with `o` meets exactly `n` objects of `g` and then ends. */
  ghost predicate EndsIn(g: Owners, o: Option<string>, n: nat)
    decreases n
  {
    match o
    case None => n == 0
    case Some(v) => n > 0 && v in g && EndsIn(g, g[v], n - 1)
  }

  ghost predicate Ends(g: Owners, o: Option<string>) {
    exists n: nat :: EndsIn(g, o, n)
  }

  /** Every owner chain stays in the graph and reaches a root. */
  ghost predicate Rooted(g: Owners) {
    forall v | v in g :: Ends(g, Some(v))
  }

  /** The chain that starts with `o` is at `a` after exactly `n` steps. */
  ghost predicate Passes(g: Owners, o: Option<string>, a: string, n: nat)
    decreases n
  {
    o.Some? && if n == 0 then o.value == a else o.value in g && Passes(g, g[o.value], a, n - 1)
  }

  ghost predicate OnChain(g: Owners, o: Option<string>, a: string) {
    exists n: nat :: Passes(g, o, a, n)
  }

  /** `a` owns `v`, directly or through other objects. */
  ghost predicate Ancestor(g: Owners, v: string, a: string) {
    v in g && OnChain(g, g[v], a)
  }

  lemma {:induction false} EndsInUnique(g: Owners, o: Option<string>, m: nat, n: nat)
    requires EndsIn(g, o, m) && EndsIn(g, o, n)
    ensures m == n
    decreases m
  {
    if o.Some? {
      EndsInUnique(g, g[o.value], m - 1, n - 1);
    }
  }

  lemma {:induction false} PassesEndsIn(g: Owners, o: Option<string>, a: string, k: nat, n: nat)
    requires EndsIn(g, o, n) && Passes(g, o, a, k)
    ensures k < n && EndsIn(g, Some(a), n - k)
    decreases k
  {
    if k > 0 {
      PassesEndsIn(g, g[o.value], a, k - 1, n - 1);
    }
  }

  lemma {:induction false} PassesJoin(g: Owners, o: Option<string>, a: string, k: nat, b: string, m: nat)
    requires Passes(g, o, a, k) && Passes(g, Some(a), b, m)
    ensures Passes(g, o, b, k + m)
    decreases k
  {
    if k > 0 {
      PassesJoin(g, g[o.value], a, k - 1, b, m);
    }
  }

  lemma OnChainStep(g: Owners, v: string, a: string)
    requires v in g
    ensures OnChain(g, Some(v), a) <==> a == v || Ancestor(g, v, a)
  {
    if Ancestor(g, v, a) {
      var n: nat :| Passes(g, g[v], a, n);
      assert Passes(g, Some(v), a, n + 1);
    }
    if OnChain(g, Some(v), a) && a != v {
      var n: nat :| Passes(g, Some(v), a, n);
      assert Passes(g, g[v], a, n - 1);
    }
    assert Passes(g, Some(v), v, 0);
  }

  lemma EndsStep(g: Owners, v: string)
    requires v in g
    ensures Ends(g, Some(v)) <==> Ends(g, g[v])
  {
    if Ends(g, g[v]) {
      var n: nat :| EndsIn(g, g[v], n);
      assert EndsIn(g, Some(v), n + 1);
    }
    if Ends(g, Some(v)) {
      var n: nat :| EndsIn(g, Some(v), n);
      assert EndsIn(g, g[v], n - 1);
    }
  }

  /** An object whose chain ends is not its own ancestor. */
  lemma NoSelfAncestor(g: Owners, v: string)
    requires v in g && Ends(g, Some(v))
    ensures !Ancestor(g, v, v)
  {
    if Ancestor(g, v, v) {
      var n: nat :| EndsIn(g, Some(v), n);
      var k: nat :| Passes(g, g[v], v, k);
      PassesEndsIn(g, Some(v), v, k + 1, n);
      EndsInUnique(g, Some(v), n, n - (k + 1));
    }
  }

  /** A rooted graph names only owners it contains. */
  lemma RootedClosed(g: Owners, v: string)
    requires Rooted(g) && v in g && g[v].Some?
    ensures g[v].value in g && g[v].value != v
  {
    var n: nat :| EndsIn(g, Some(v), n);
    assert EndsIn(g, g[v], n - 1);
    NoSelfAncestor(g, v);
    assert Passes(g, g[v], g[v].value, 0);
  }

  /** A chain that lies in a smaller graph lies in every larger one that agrees with it. */
  lemma {:induction false} EndsInExtends(g: Owners, h: Owners, o: Option<string>, n: nat)
    requires forall v | v in g :: v in h && h[v] == g[v]
    requires EndsIn(g, o, n)
    ensures EndsIn(h, o, n)
    decreases n
  {
    if o.Some? {
      EndsInExtends(g, h, g[o.value], n - 1);
    }
  }

  lemma RootedUnion(g: Owners, h: Owners)
    requires Rooted(g) && Rooted(h)
    requires forall v | v in g && v in h :: g[v] == h[v]
    ensures Rooted(g + h)
  {
    forall v | v in g + h ensures Ends(g + h, Some(v)) {
      if v in h {
        var n: nat :| EndsIn(h, Some(v), n);
        EndsInExtends(h, g + h, Some(v), n);
      } else {
        var n: nat :| EndsIn(g, Some(v), n);
        EndsInExtends(g, g + h, Some(v), n);
      }
    }
  }

  // ----- removing a set of objects together with everything they own

  ghost predicate OwnsDownward(g: Owners, gone: set<string>) {
    forall v | v in g && g[v].Some? && g[v].value in gone :: v in gone
  }

  function Without(g: Owners, gone: set<string>): Owners {
    map v | v in g && v !in gone :: g[v]
  }

  lemma {:induction false} ChainAvoids(g: Owners, gone: set<string>, v: string, n: nat)
    requires OwnsDownward(g, gone) && v in g && v !in gone && EndsIn(g, Some(v), n)
    ensures EndsIn(Without(g, gone), Some(v), n)
    decreases n
  {
    if g[v].Some? {
      ChainAvoids(g, gone, g[v].value, n - 1);
    }
  }

  lemma WithoutRooted(g: Owners, gone: set<string>)
    requires Rooted(g) && OwnsDownward(g, gone)
    ensures Rooted(Without(g, gone))
  {
    var h := Without(g, gone);
    forall v | v in h ensures Ends(h, Some(v)) {
      var n: nat :| EndsIn(g, Some(v), n);
      ChainAvoids(g, gone, v, n);
    }
  }

  /** A chain that passes through a downward-closed set began in it. */
  lemma {:induction false} PassesFromInside(g: Owners, gone: set<string>, v: string, a: string, n: nat)
    requires OwnsDownward(g, gone) && v in g && Passes(g, g[v], a, n) && a in gone
    ensures v in gone
    decreases n
  {
    if n > 0 {
      PassesFromInside(g, gone, g[v].value, a, n - 1);
    }
  }

  /** What remains after such a removal has the same ancestors as before. */
  lemma {:induction false} PassesOutside(g: Owners, gone: set<string>, v: string, a: string, n: nat)
    requires OwnsDownward(g, gone) && v in g && v !in gone
    ensures Passes(Without(g, gone), g[v], a, n) <==> Passes(g, g[v], a, n)
    decreases n
  {
    if n > 0 && g[v].Some? && g[v].value in g {
      PassesOutside(g, gone, g[v].value, a, n - 1);
    }
  }

  lemma WithoutKeepsAncestors(g: Owners, gone: set<string>, v: string, a: string)
    requires OwnsDownward(g, gone) && v in g && v !in gone
    ensures Ancestor(Without(g, gone), v, a) <==> Ancestor(g, v, a)
  {
    forall n: nat ensures Passes(Without(g, gone), g[v], a, n) <==> Passes(g, g[v], a, n) {
      PassesOutside(g, gone, v, a, n);
    }
  }

  /** The object and everything it owns. */
  ghost predicate InSubtree(g: Owners, v: string, root: string) {
    v == root || Ancestor(g, v, root)
  }

  ghost function Subtree(g: Owners, root: string): set<string> {
    set v | v in g && InSubtree(g, v, root)
  }

  lemma SubtreeOwnsDownward(g: Owners, root: string)
    ensures OwnsDownward(g, Subtree(g, root))
  {
    forall v | v in g && g[v].Some? && g[v].value in Subtree(g, root)
      ensures InSubtree(g, v, root)
    {
      OnChainStep(g, g[v].value, root);
    }
  }

  // ----- skipping objects

  /** The first object on the chain from `o` that is not in `skipped`. */
  ghost function Skip(g: Owners, skipped: set<string>, o: Option<string>, n: nat): Option<string>
    requires EndsIn(g, o, n)
    decreases n
  {
    match o
    case None => None
    case Some(v) => if v in skipped then Skip(g, skipped, g[v], n - 1) else o
  }

  ghost function Length(g: Owners, o: Option<string>): (n: nat)
    requires Ends(g, o)
    ensures EndsIn(g, o, n)
  {
    var n: nat :| EndsIn(g, o, n); n
  }

  ghost function Nearest(g: Owners, skipped: set<string>, o: Option<string>): Option<string>
    requires Ends(g, o)
  {
    Skip(g, skipped, o, Length(g, o))
  }

  lemma NearestStep(g: Owners, skipped: set<string>, v: string)
    requires v in g && Ends(g, Some(v))
    ensures Ends(g, g[v])
    ensures Nearest(g, skipped, Some(v)) == if v in skipped then Nearest(g, skipped, g[v]) else Some(v)
  {
    EndsStep(g, v);
    EndsInUnique(g, g[v], Length(g, Some(v)) - 1, Length(g, g[v]));
  }

  /** `r` is the first object on the chain from `o` that is not skipped, `None` when there is no such object. */
  ghost predicate IsFirstUnskipped(g: Owners, skipped: set<string>, o: Option<string>, r: Option<string>) {
    && (r.None? ==> forall a | OnChain(g, o, a) :: a in skipped)
    && (r.Some? ==>
          r.value in g && r.value !in skipped && OnChain(g, o, r.value)
          && forall a | OnChain(g, o, a) && a !in skipped :: a == r.value || Ancestor(g, r.value, a))
  }

  lemma {:induction false} SkipIsFirst(g: Owners, skipped: set<string>, o: Option<string>, n: nat)
    requires EndsIn(g, o, n)
    ensures IsFirstUnskipped(g, skipped, o, Skip(g, skipped, o, n))
    decreases n
  {
    if o.Some? {
      forall a ensures OnChain(g, o, a) <==> a == o.value || OnChain(g, g[o.value], a) {
        OnChainStep(g, o.value, a);
      }
      if o.value in skipped {
        SkipIsFirst(g, skipped, g[o.value], n - 1);
      }
    }
  }

  /** `h` re-owns every unskipped object of `g` by its nearest unskipped ancestor. */
  ghost predicate Bypasses(g: Owners, skipped: set<string>, h: Owners) {
    Rooted(g) && forall v | v in g && v !in skipped :: v in h && Ends(g, g[v]) && h[v] == Nearest(g, skipped, g[v])
  }

  lemma {:induction false} BypassEnds(g: Owners, skipped: set<string>, h: Owners, o: Option<string>, n: nat)
    requires Bypasses(g, skipped, h) && EndsIn(g, o, n)
    ensures Ends(h, Skip(g, skipped, o, n))
    decreases n
  {
    if o.None? {
      assert EndsIn(h, None, 0);
    } else {
      var v := o.value;
      BypassEnds(g, skipped, h, g[v], n - 1);
      if v !in skipped {
        EndsInUnique(g, g[v], n - 1, Length(g, g[v]));
        EndsStep(h, v);
      }
    }
  }

  lemma {:induction false} BypassOnChain(g: Owners, skipped: set<string>, h: Owners, o: Option<string>, n: nat, a: string)
    requires Bypasses(g, skipped, h) && EndsIn(g, o, n) && a !in skipped
    ensures OnChain(h, Skip(g, skipped, o, n), a) <==> OnChain(g, o, a)
    decreases n
  {
    if o.Some? {
      var v := o.value;
      BypassOnChain(g, skipped, h, g[v], n - 1, a);
      OnChainStep(g, v, a);
      if v !in skipped {
        EndsInUnique(g, g[v], n - 1, Length(g, g[v]));
        OnChainStep(h, v, a);
      }
    }
  }

  /** Skipping objects keeps the ancestor relation among the others exactly. */
  lemma BypassKeepsAncestors(g: Owners, skipped: set<string>, h: Owners, v: string, a: string)
    requires Bypasses(g, skipped, h) && v in g && v !in skipped && a !in skipped
    ensures Ancestor(h, v, a) <==> Ancestor(g, v, a)
  {
    BypassOnChain(g, skipped, h, g[v], Length(g, g[v]), a);
  }

  lemma BypassRooted(g: Owners, skipped: set<string>, h: Owners, v: string)
    requires Bypasses(g, skipped, h) && v in g && v !in skipped
    ensures Ends(h, Some(v))
  {
    BypassEnds(g, skipped, h, g[v], Length(g, g[v]));
    EndsStep(h, v);
  }

  /** Objects that keep their owner while others are bypassed still reach a root. */
  lemma {:induction false} KeptOwnerEnds(g: Owners, skipped: set<string>, h: Owners, o: Option<string>, n: nat)
    requires Bypasses(g, skipped, h) && EndsIn(g, o, n)
    requires forall v | v in g && v in skipped :: v in h && h[v] == g[v]
    ensures Ends(h, o)
    decreases n
  {
    if o.None? {
      assert EndsIn(h, None, 0);
    } else if o.value in skipped {
      KeptOwnerEnds(g, skipped, h, g[o.value], n - 1);
      EndsStep(h, o.value);
    } else {
      BypassRooted(g, skipped, h, o.value);
    }
  }

  // ----- attaching one leaf

  ghost predicate Leaf(g: Owners, v: string) {
    forall w | w in g :: g[w] != Some(v)
  }

  /** Owning a leaf, new or old, by another object or by nothing keeps every chain. */
  lemma AttachLeaf(g: Owners, v: string, o: Option<string>)
    requires Rooted(g) && Leaf(g, v) && o != Some(v)
    ensures Rooted(g[v := o]) <==> o.None? || o.value in g
  {
    var h := g[v := o];
    var rest := Without(g, {v});
    WithoutRooted(g, {v});
    forall w | w in rest ensures Ends(h, Some(w)) {
      var n: nat :| EndsIn(rest, Some(w), n);
      EndsInExtends(rest, h, Some(w), n);
    }
    EndsStep(h, v);
    assert EndsIn(h, None, 0);
    if Rooted(h) && o.Some? {
      RootedClosed(h, v);
    }
  }

  /** Moving a leaf changes the ancestors of nothing else. */
  lemma {:induction false} PassesUnmoved(g: Owners, v: string, o: Option<string>, w: Option<string>, a: string, n: nat)
    requires Leaf(g, v) && w != Some(v)
    ensures Passes(g[v := o], w, a, n) <==> Passes(g, w, a, n)
    decreases n
  {
    if n > 0 && w.Some? && w.value in g {
      PassesUnmoved(g, v, o, g[w.value], a, n - 1);
    }
  }

  lemma MovedLeafAncestors(g: Owners, v: string, p: string, w: string, a: string)
    requires Rooted(g) && Leaf(g, v) && v in g && p in g && p != v && w in g
    ensures Ancestor(g[v := Some(p)], w, a) <==> if w == v then a == p || Ancestor(g, p, a) else Ancestor(g, w, a)
  {
    var h := g[v := Some(p)];
    if w == v {
      OnChainStep(g, p, a);
    }
    var start := if w == v then Some(p) else g[w];
    forall n: nat ensures Passes(h, start, a, n) <==> Passes(g, start, a, n) {
      PassesUnmoved(g, v, Some(p), start, a, n);
    }
  }

  // ----- changing one owner

  lemma {:induction false} EndsWithNewOwner(g: Owners, v: string, o: Option<string>, w: Option<string>, n: nat)
    requires EndsIn(g, w, n) && (OnChain(g, w, v) ==> Ends(g[v := o], Some(v)))
    ensures Ends(g[v := o], w)
    decreases n
  {
    var h := g[v := o];
    if w.None? {
      assert EndsIn(h, None, 0);
    } else if w != Some(v) {
      assert h[w.value] == g[w.value];
      OnChainStep(g, w.value, v);
      EndsWithNewOwner(g, v, o, g[w.value], n - 1);
      EndsStep(h, w.value);
    } else {
      assert Passes(g, w, v, 0);
    }
  }

  /** A chain leads to `v` as before, whatever `v` itself is owned by now. */
  lemma {:induction false} OnChainWithNewOwner(g: Owners, v: string, o: Option<string>, w: Option<string>, n: nat)
    requires Passes(g, w, v, n)
    ensures OnChain(g[v := o], w, v)
    decreases n
  {
    var h := g[v := o];
    if w == Some(v) {
      assert Passes(h, w, v, 0);
    } else {
      OnChainWithNewOwner(g, v, o, g[w.value], n - 1);
      OnChainStep(h, w.value, v);
    }
  }

  /** Another owner for an object of the graph: nothing, or an object that it does not own itself. */
  lemma NewOwnerRooted(g: Owners, v: string, o: Option<string>)
    requires Rooted(g) && v in g
    ensures Rooted(g[v := o]) <==> o.None? || (o.value in g && !InSubtree(g, o.value, v))
  {
    var h := g[v := o];
    EndsStep(h, v);
    assert EndsIn(h, None, 0);
    if o.Some? && o.value in g {
      OnChainStep(g, o.value, v);
      if InSubtree(g, o.value, v) {
        var k: nat :| Passes(g, o, v, k);
        OnChainWithNewOwner(g, v, o, o, k);
        if Ends(h, Some(v)) {
          NoSelfAncestor(h, v);
        }
      } else {
        var k: nat :| EndsIn(g, o, k);
        EndsWithNewOwner(g, v, o, o, k);
      }
    }
    if o.None? || (o.value in g && !InSubtree(g, o.value, v)) {
      forall w | w in h ensures Ends(h, Some(w)) {
        var k: nat :| EndsIn(g, Some(w), k);
        EndsWithNewOwner(g, v, o, Some(w), k);
      }
    }
    if Rooted(h) && o.Some? {
      RootedClosed(h, v);
    }
  }
}
