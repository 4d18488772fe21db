/**
 The visual region under a click: a flood fill over the foreground pixels of an anchor, whose tight
 bounding box is offered as the captured object. Which pixels are foreground is a parameter.
 */
module VisualRegion {
  import opened Outcomes

  type Pixel = (int, int)

  datatype Box = Box(left: int, top: int, width: int, height: int) {
    predicate Contains(p: Pixel) {
      left <= p.0 < left + width && top <= p.1 < top + height
    }
  }

  function Abs(n: int): nat {
    if n < 0 then -n else n
  }

  function Min(a: int, b: int): int {
    if a < b then a else b
  }

  function Max(a: int, b: int): int {
    if a > b then a else b
  }

  /** A cropped anchor image: its size and which of its pixels stand out from the background. */
  datatype Image = Image(width: int, height: int, foreground: Pixel -> bool) {
    predicate Lit(p: Pixel) {
      0 <= p.0 < width && 0 <= p.1 < height && foreground(p)
    }
  }

  /** One step of the fill bridges gaps of up to two pixels. */
  predicate Adjacent(p: Pixel, q: Pixel) {
    0 < Abs(q.0 - p.0) + Abs(q.1 - p.1) <= 3
  }

  /** `path` leads from `p` to `q` over lit pixels. */
  ghost predicate Connects(image: Image, p: Pixel, q: Pixel, path: seq<Pixel>) {
    && |path| > 0 && path[0] == p && path[|path| - 1] == q
    && (forall i | 0 <= i < |path| :: image.Lit(path[i]))
    && (forall i | 0 <= i < |path| - 1 :: Adjacent(path[i], path[i + 1]))
  }

  ghost predicate Connected(image: Image, p: Pixel, q: Pixel) {
    exists path :: Connects(image, p, q, path)
  }

  function AllPixels(image: Image): set<Pixel> {
    set x, y | 0 <= x < image.width && 0 <= y < image.height :: (x, y)
  }

  /** The connected region of a pixel. */
  ghost function Region(image: Image, seed: Pixel): set<Pixel> {
    set p | p in AllPixels(image) && Connected(image, seed, p)
  }

  lemma ConnectedSelf(image: Image, p: Pixel)
    requires image.Lit(p)
    ensures Connected(image, p, p)
  {
    assert Connects(image, p, p, [p]);
  }

  lemma ConnectedStep(image: Image, seed: Pixel, p: Pixel, q: Pixel)
    requires Connected(image, seed, p) && Adjacent(p, q) && image.Lit(q)
    ensures Connected(image, seed, q)
  {
    var path :| Connects(image, seed, p, path);
    assert Connects(image, seed, q, path + [q]);
  }

  /** A set of pixels that holds the seed and every lit neighbour of its members holds the whole region. */
  lemma {:induction false} ClosedHoldsPath(image: Image, seed: Pixel, s: set<Pixel>, path: seq<Pixel>, i: nat)
    requires |path| > 0 && Connects(image, seed, path[|path| - 1], path) && i < |path|
    requires seed in s && forall p, q | p in s && Adjacent(p, q) && image.Lit(q) :: q in s
    ensures path[i] in s
  {
    if i > 0 {
      ClosedHoldsPath(image, seed, s, path, i - 1);
    }
  }

  lemma ClosedIsRegion(image: Image, seed: Pixel, s: set<Pixel>)
    requires seed in s && s <= Region(image, seed)
    requires forall p, q | p in s && Adjacent(p, q) && image.Lit(q) :: q in s
    ensures s == Region(image, seed)
  {
    forall p | p in Region(image, seed) ensures p in s {
      var path :| Connects(image, seed, p, path);
      ClosedHoldsPath(image, seed, s, path, |path| - 1);
    }
  }

  /** The smallest box around a set of pixels: it contains them, and each side touches one of them. */
  ghost predicate Tight(s: set<Pixel>, minX: int, maxX: int, minY: int, maxY: int) {
    && (forall p | p in s :: minX <= p.0 <= maxX && minY <= p.1 <= maxY)
    && (exists p :: p in s && p.0 == minX) && (exists p :: p in s && p.0 == maxX)
    && (exists p :: p in s && p.1 == minY) && (exists p :: p in s && p.1 == maxY)
  }

  /** Visits the neighbours of `p` and returns the lit ones not seen before. */
  method VisitNeighbours(image: Image, p: Pixel, seen: set<Pixel>) returns (found: seq<Pixel>)
    ensures forall q :: q in found <==> Adjacent(p, q) && image.Lit(q) && q !in seen
    ensures forall i, j | 0 <= i < j < |found| :: found[i] != found[j]
  {
    found := [];
    for dx := -3 to 4
      invariant forall q :: q in found <==> Adjacent(p, q) && image.Lit(q) && q !in seen && q.0 - p.0 < dx
      invariant forall i, j | 0 <= i < j < |found| :: found[i] != found[j]
    {
      for dy := -3 to 4
        invariant forall q :: q in found <==>
          Adjacent(p, q) && image.Lit(q) && q !in seen && (q.0 - p.0 < dx || (q.0 - p.0 == dx && q.1 - p.1 < dy))
        invariant forall i, j | 0 <= i < j < |found| :: found[i] != found[j]
      {
        var q := (p.0 + dx, p.1 + dy);
        if 0 < Abs(dx) + Abs(dy) <= 3 && q !in seen && 0 <= q.0 < image.width && 0 <= q.1 < image.height && image.foreground(q) {
          found := found + [q];
        }
      }
    }
  }

  /** The loop's invariant: what was popped is closed up to what is seen, and what is seen but not popped is pending, once. */
  ghost predicate Filling(image: Image, seed: Pixel, pending: seq<Pixel>, popped: set<Pixel>, seen: set<Pixel>) {
    && seed in seen && seen <= Region(image, seed) && popped <= seen
    && (forall p :: p in seen <==> p in popped || p in pending)
    && (forall i | 0 <= i < |pending| :: pending[i] !in popped)
    && (forall i, j | 0 <= i < j < |pending| :: pending[i] != pending[j])
    && (forall p, q | p in popped && Adjacent(p, q) && image.Lit(q) :: q in seen)
  }

  lemma FillingStarts(image: Image, seed: Pixel)
    requires image.Lit(seed)
    ensures Filling(image, seed, [seed], {}, {seed})
  {
    ConnectedSelf(image, seed);
  }

  /** A list with its element `k` moved to the end. */
  function Moved<T>(s: seq<T>, k: nat): (moved: seq<T>)
    requires k < |s|
    ensures |moved| == |s|
    ensures forall i | 0 <= i < |s| :: moved[i] == s[if i < k then i else if i == |s| - 1 then k else i + 1]
  {
    s[..k] + s[k + 1..] + [s[k]]
  }

  lemma MovedHolds<T>(s: seq<T>, k: nat, x: T)
    requires k < |s|
    ensures x in Moved(s, k) <==> x in s
  {
    if i :| 0 <= i < |s| && s[i] == x {
      assert Moved(s, k)[if i < k then i else if i == k then |s| - 1 else i - 1] == x;
    }
  }

  /** Which of the pending pixels comes last does not matter. */
  lemma FillingReordered(image: Image, seed: Pixel, pending: seq<Pixel>, popped: set<Pixel>, seen: set<Pixel>, k: nat)
    requires Filling(image, seed, pending, popped, seen) && k < |pending|
    ensures Filling(image, seed, Moved(pending, k), popped, seen)
  {
    hide Region, Adjacent;
    forall p ensures p in Moved(pending, k) <==> p in pending {
      MovedHolds(pending, k, p);
    }
  }

  lemma FillingStep(image: Image, seed: Pixel, pending: seq<Pixel>, popped: set<Pixel>, seen: set<Pixel>, p: Pixel, found: seq<Pixel>)
    requires Filling(image, seed, pending + [p], popped, seen)
    requires forall q :: q in found <==> Adjacent(p, q) && image.Lit(q) && q !in seen
    requires forall i, j | 0 <= i < j < |found| :: found[i] != found[j]
    ensures Filling(image, seed, pending + found, popped + {p}, seen + set q | q in found)
    ensures p in Region(image, seed) && p !in popped
  {
    hide Adjacent;
    var all := pending + [p];
    assert all[|pending|] == p && p in seen;
    assert forall i | 0 <= i < |pending| :: all[i] == pending[i];
    forall q | q in found ensures q in Region(image, seed) {
      ConnectedStep(image, seed, p, q);
    }
    var seen' := seen + set q | q in found;
    forall q ensures q in seen' <==> q in popped + {p} || q in pending + found {
      assert q in all <==> q in pending || q == p;
    }
    forall i | 0 <= i < |found| ensures found[i] in found && found[i] !in seen {}
    forall i | 0 <= i < |pending| ensures pending[i] in seen && pending[i] != p && pending[i] !in popped {
      assert all[i] == pending[i] && pending[i] in all;
    }
  }

  lemma TightGrows(s: set<Pixel>, minX: int, maxX: int, minY: int, maxY: int, p: Pixel)
    requires Tight(s, minX, maxX, minY, maxY)
    ensures Tight(s + {p}, Min(minX, p.0), Max(maxX, p.0), Min(minY, p.1), Max(maxY, p.1))
  {
    var t := s + {p};
    assert p in t && forall q | q in s :: q in t;
    var a :| a in s && a.0 == minX;
    assert exists q :: q in t && q.0 == Min(minX, p.0) by { assert a in t; }
    var b :| b in s && b.0 == maxX;
    assert exists q :: q in t && q.0 == Max(maxX, p.0) by { assert b in t; }
    var c :| c in s && c.1 == minY;
    assert exists q :: q in t && q.1 == Min(minY, p.1) by { assert c in t; }
    var d :| d in s && d.1 == maxY;
    assert exists q :: q in t && q.1 == Max(maxY, p.1) by { assert d in t; }
  }

  /**
   The fill from a lit seed: everything it has seen, and that set's box. The source pops the pixel pushed
   last; here any pending pixel may be popped, so the outcome is the same in every order.
   */
  method Flood(image: Image, seed: Pixel) returns (seen: set<Pixel>, minX: int, maxX: int, minY: int, maxY: int)
    requires image.Lit(seed)
    ensures seen == Region(image, seed)
    ensures Tight(seen, minX, maxX, minY, maxY)
  {
    hide Adjacent, Region, Tight, Filling;
    FillingStarts(image, seed);
    var pending := [seed];
    seen := {seed};
    minX, maxX, minY, maxY := seed.0, seed.0, seed.1, seed.1;
    ghost var popped: set<Pixel> := {};
    SingletonTight(seed);
    while pending != []
      invariant Filling(image, seed, pending, popped, seen)
      invariant Tight(popped + {seed}, minX, maxX, minY, maxY)
      decreases Region(image, seed) - popped
    {
      var k :| 0 <= k < |pending|;
      var p := pending[k];
      FillingReordered(image, seed, pending, popped, seen, k);
      assert Moved(pending, k) == pending[..k] + pending[k + 1..] + [p];
      pending := pending[..k] + pending[k + 1..];
      TightGrows(popped + {seed}, minX, maxX, minY, maxY, p);
      assert popped + {seed} + {p} == popped + {p} + {seed};
      minX, maxX := Min(minX, p.0), Max(maxX, p.0);
      minY, maxY := Min(minY, p.1), Max(maxY, p.1);
      var found := VisitNeighbours(image, p, seen);
      FillingStep(image, seed, pending, popped, seen, p, found);
      popped := popped + {p};
      seen := seen + set q | q in found;
      pending := pending + found;
    }
    FillingEnds(image, seed, popped, seen);
  }

  lemma SingletonTight(p: Pixel)
    ensures Tight({} + {p}, p.0, p.0, p.1, p.1)
  {
    assert p in {} + {p};
  }

  lemma FillingEnds(image: Image, seed: Pixel, popped: set<Pixel>, seen: set<Pixel>)
    requires Filling(image, seed, [], popped, seen)
    ensures seen == Region(image, seed) && popped + {seed} == seen
  {
    ClosedIsRegion(image, seed, seen);
  }

  // ----- from a click to a region

  /** The pixels tried, in order, when the clicked pixel itself is background. */
  function Probes(p: Pixel, radius: nat): seq<Pixel> {
    if radius == 0 then []
    else Probes(p, radius - 1) + [(p.0 - radius, p.1), (p.0 + radius, p.1), (p.0, p.1 - radius), (p.0, p.1 + radius)]
  }

  /** The first lit pixel of a list. */
  function FirstLit(image: Image, ps: seq<Pixel>): (seed: Option<Pixel>)
    ensures seed.Some? ==> image.Lit(seed.value)
    ensures seed.None? <==> forall p | p in ps :: !image.Lit(p)
  {
    if ps == [] then None
    else if image.Lit(ps[0]) then Some(ps[0])
    else FirstLit(image, ps[1..])
  }

  /** The clicked pixel when it is foreground, else the first foreground pixel of a cross of radius 8. */
  function Seed(image: Image, click: Pixel): (seed: Option<Pixel>)
    requires 0 <= click.0 < image.width && 0 <= click.1 < image.height
    ensures seed.Some? ==> image.Lit(seed.value)
  {
    if image.foreground(click) then Some(click) else FirstLit(image, Probes(click, 8))
  }

  method FindSeed(image: Image, click: Pixel) returns (seed: Option<Pixel>)
    requires 0 <= click.0 < image.width && 0 <= click.1 < image.height
    ensures seed == Seed(image, click)
  {
    if image.foreground(click) {
      return Some(click);
    }
    for radius := 1 to 9
      invariant FirstLit(image, Probes(click, radius - 1)).None?
    {
      ghost var tried := Probes(click, radius - 1);
      var cross := [(click.0 - radius, click.1), (click.0 + radius, click.1), (click.0, click.1 - radius), (click.0, click.1 + radius)];
      assert Probes(click, radius) == tried + cross;
      FirstLitAppend(image, tried, cross);
      var hit := FirstLit(image, cross);
      if hit.Some? {
        ProbesPrefix(click, radius, 8);
        FirstLitAppend(image, Probes(click, radius), Probes(click, 8)[|Probes(click, radius)|..]);
        assert Probes(click, radius) + Probes(click, 8)[|Probes(click, radius)|..] == Probes(click, 8);
        return hit;
      }
    }
    return None;
  }

  lemma {:induction false} FirstLitAppend(image: Image, a: seq<Pixel>, b: seq<Pixel>)
    ensures FirstLit(image, a + b) == if FirstLit(image, a).Some? then FirstLit(image, a) else FirstLit(image, b)
  {
    if a == [] {
      assert a + b == b;
    } else {
      assert (a + b)[1..] == a[1..] + b;
      FirstLitAppend(image, a[1..], b);
    }
  }

  lemma {:induction false} ProbesPrefix(p: Pixel, small: nat, large: nat)
    requires small <= large
    ensures Probes(p, small) <= Probes(p, large)
  {
    if small < large {
      ProbesPrefix(p, small, large - 1);
    }
  }

  /** `_visual_region_at_point`, given the cropped image of the anchor. */
  method RegionAtPoint(anchor: Box, x: int, y: int, foreground: Pixel -> bool) returns (region: Option<Box>)
    ensures var image := Image(anchor.width, anchor.height, foreground);
      var click := (x - anchor.left, y - anchor.top);
      if !anchor.Contains((x, y)) || Seed(image, click).None? then region == None
      else IsRegionBox(anchor, image, Seed(image, click).value, region)
  {
    if !anchor.Contains((x, y)) {
      return None;
    }
    var image := Image(anchor.width, anchor.height, foreground);
    var seed := FindSeed(image, (x - anchor.left, y - anchor.top));
    if seed.None? {
      return None;
    }
    var seen, minX, maxX, minY, maxY := Flood(image, seed.value);
    var width, height := maxX - minX + 1, maxY - minY + 1;
    assert Tight(Region(image, seed.value), minX, maxX, minY, maxY);
    if width < 6 || height < 6 {
      return None;
    }
    return Some(Box(anchor.left + minX, anchor.top + minY, width, height));
  }

  /** The outcome for a seed: the tight box of its region in screen coordinates, or nothing when that box is too small. */
  ghost predicate IsRegionBox(anchor: Box, image: Image, seed: Pixel, region: Option<Box>) {
    exists minX, maxX, minY, maxY | Tight(Region(image, seed), minX, maxX, minY, maxY) ::
      region == if maxX - minX + 1 < 6 || maxY - minY + 1 < 6 then None
                else Some(Box(anchor.left + minX, anchor.top + minY, maxX - minX + 1, maxY - minY + 1))
  }

  /** The outcome is determined: a set of pixels has one tight box. */
  lemma TightUnique(s: set<Pixel>, a: int, b: int, c: int, d: int, a': int, b': int, c': int, d': int)
    requires Tight(s, a, b, c, d) && Tight(s, a', b', c', d')
    ensures a == a' && b == b' && c == c' && d == d'
  {
  }

  /** A captured region lies inside its anchor and is at least six pixels wide and high. */
  lemma RegionInsideAnchor(anchor: Box, image: Image, seed: Pixel, region: Box)
    requires image.width == anchor.width && image.height == anchor.height && image.Lit(seed)
    requires IsRegionBox(anchor, image, seed, Some(region))
    ensures anchor.left <= region.left && region.left + region.width <= anchor.left + anchor.width
    ensures anchor.top <= region.top && region.top + region.height <= anchor.top + anchor.height
    ensures region.width >= 6 && region.height >= 6
    ensures region.Contains((anchor.left + seed.0, anchor.top + seed.1))
  {
    ConnectedSelf(image, seed);
    assert seed in Region(image, seed);
  }

  // ----- whether the region holds the click

  /** `p` is not on the seed's side of the click, neither across nor down. */
  predicate Across(seed: Pixel, click: Pixel, p: Pixel) {
    && (seed.0 < click.0 ==> p.0 >= click.0) && (seed.0 > click.0 ==> p.0 <= click.0)
    && (seed.1 < click.1 ==> p.1 >= click.1) && (seed.1 > click.1 ==> p.1 <= click.1)
  }

  lemma {:induction false} ProbeOnCross(click: Pixel, radius: nat, p: Pixel)
    requires p in Probes(click, radius)
    ensures p.0 == click.0 || p.1 == click.1
  {
    if p in Probes(click, radius - 1) {
      ProbeOnCross(click, radius - 1, p);
    }
  }

  lemma {:induction false} FirstLitListed(image: Image, ps: seq<Pixel>)
    requires FirstLit(image, ps).Some?
    ensures FirstLit(image, ps).value in ps
  {
    if !image.Lit(ps[0]) {
      FirstLitListed(image, ps[1..]);
    }
  }

  lemma SeedInRegion(image: Image, seed: Pixel)
    requires image.Lit(seed)
    ensures seed in Region(image, seed)
  {
    ConnectedSelf(image, seed);
  }

  /** A captured region holds the click exactly when it reaches past the click, as seen from its seed. */
  lemma RegionHoldsClickIff(anchor: Box, image: Image, click: Pixel, seed: Pixel, region: Box)
    requires image.width == anchor.width && image.height == anchor.height
    requires 0 <= click.0 < image.width && 0 <= click.1 < image.height && Seed(image, click) == Some(seed)
    requires IsRegionBox(anchor, image, seed, Some(region))
    ensures region.Contains((anchor.left + click.0, anchor.top + click.1)) <==>
            exists p :: p in Region(image, seed) && Across(seed, click, p)
  {
    SeedInRegion(image, seed);
    if seed != click {
      FirstLitListed(image, Probes(click, 8));
      ProbeOnCross(click, 8, seed);
    }
    hide Region, Seed;
  }

  const RIGHT_OF_CLICK := Image(7, 6, (p: Pixel) => p.0 >= 1)

  /** Background was clicked, and the probe to its right is the first lit one. */
  lemma SeedRightOfClick()
    ensures Seed(RIGHT_OF_CLICK, (0, 0)) == Some((1, 0))
  {
    var cross: seq<Pixel> := [(-1, 0), (1, 0), (0, -1), (0, 1)];
    assert Probes((0, 0), 1) == Probes((0, 0), 0) + cross == cross;
    assert cross[1..][0] == (1, 0);
    ProbesPrefix((0, 0), 1, 8);
    var all := Probes((0, 0), 8);
    hide Probes;
    assert cross + all[|cross|..] == all;
    FirstLitAppend(RIGHT_OF_CLICK, cross, all[|cross|..]);
  }

  lemma OppositeCornersConnected()
    ensures (1, 0) in Region(RIGHT_OF_CLICK, (1, 0)) && (6, 5) in Region(RIGHT_OF_CLICK, (1, 0))
  {
    var seed: Pixel := (1, 0);
    hide Connected;
    ConnectedSelf(RIGHT_OF_CLICK, seed);
    ConnectedStep(RIGHT_OF_CLICK, seed, seed, (3, 1));
    ConnectedStep(RIGHT_OF_CLICK, seed, (3, 1), (5, 2));
    ConnectedStep(RIGHT_OF_CLICK, seed, (5, 2), (6, 4));
    ConnectedStep(RIGHT_OF_CLICK, seed, (6, 4), (6, 5));
  }

  lemma RegionIsLit(image: Image, seed: Pixel)
    ensures forall p | p in Region(image, seed) :: image.Lit(p)
  {
    forall p | p in Region(image, seed) ensures image.Lit(p) {
      var path :| Connects(image, seed, p, path);
      assert image.Lit(path[|path| - 1]);
    }
  }

  /** It may miss the click: here the column that was clicked is background, and all that is right of it is lit. */
  lemma RegionMissesClick(anchor: Box)
    requires anchor.width == 7 && anchor.height == 6
    ensures Seed(RIGHT_OF_CLICK, (0, 0)) == Some((1, 0))
    ensures var region := Box(anchor.left + 1, anchor.top, 6, 6);
      IsRegionBox(anchor, RIGHT_OF_CLICK, (1, 0), Some(region)) && !region.Contains((anchor.left, anchor.top))
  {
    SeedRightOfClick();
    OppositeCornersConnected();
    RegionIsLit(RIGHT_OF_CLICK, (1, 0));
    hide Region, Seed;
    assert Tight(Region(RIGHT_OF_CLICK, (1, 0)), 1, 6, 0, 5);
  }

  // ----- the seed and the steps, pixel by pixel

  /** The pixel at a distance on one side of the click: left, right, above, below. */
  function Probe(click: Pixel, distance: nat, side: nat): Pixel {
    if side == 0 then (click.0 - distance, click.1)
    else if side == 1 then (click.0 + distance, click.1)
    else if side == 2 then (click.0, click.1 - distance)
    else (click.0, click.1 + distance)
  }

  lemma {:induction false} ProbesAt(click: Pixel, radius: nat)
    ensures |Probes(click, radius)| == 4 * radius
    ensures forall i | 0 <= i < 4 * radius :: Probes(click, radius)[i] == Probe(click, i / 4 + 1, i % 4)
  {
    if radius > 0 {
      ProbesAt(click, radius - 1);
      var last := [(click.0 - radius, click.1), (click.0 + radius, click.1), (click.0, click.1 - radius), (click.0, click.1 + radius)];
      forall side: nat | side < 4 ensures last[side] == Probe(click, radius, side) {}
    }
  }

  lemma {:induction false} FirstLitAt(image: Image, ps: seq<Pixel>) returns (i: nat)
    requires FirstLit(image, ps).Some?
    ensures i < |ps| && ps[i] == FirstLit(image, ps).value && forall j | 0 <= j < i :: !image.Lit(ps[j])
  {
    if image.Lit(ps[0]) {
      i := 0;
    } else {
      var k := FirstLitAt(image, ps[1..]);
      i := k + 1;
    }
  }

  /**
   The seed is the click itself when it is lit, else the nearest lit pixel in line with it, at most eight away,
   the left one before the right, the upper and the lower one; there is none exactly when all of these are dark.
   */
  lemma SeedIs(image: Image, click: Pixel)
    requires 0 <= click.0 < image.width && 0 <= click.1 < image.height
    ensures Seed(image, click).None? <==>
      !image.Lit(click) && forall d: nat, side: nat | 1 <= d <= 8 && side < 4 :: !image.Lit(Probe(click, d, side))
    ensures image.Lit(click) ==> Seed(image, click) == Some(click)
    ensures !image.Lit(click) && Seed(image, click).Some? ==>
      exists d: nat, side: nat | 1 <= d <= 8 && side < 4 ::
        && Seed(image, click).value == Probe(click, d, side) && image.Lit(Probe(click, d, side))
        && forall e: nat, other: nat | 1 <= e <= d && other < 4 && (e < d || other < side) :: !image.Lit(Probe(click, e, other))
  {
    hide Probes, Probe;
    var ps := Probes(click, 8);
    ProbesAt(click, 8);
    if !image.Lit(click) && Seed(image, click).Some? {
      var i := FirstLitAt(image, ps);
      var (d, side) := (i / 4 + 1, i % 4);
      forall e: nat, other: nat | 1 <= e <= d && other < 4 && (e < d || other < side) ensures !image.Lit(Probe(click, e, other)) {
        ProbeNumber(click, e, other);
        assert !image.Lit(ps[4 * (e - 1) + other]);
      }
    }
    if Seed(image, click).None? {
      forall d: nat, side: nat | 1 <= d <= 8 && side < 4 ensures !image.Lit(Probe(click, d, side)) {
        ProbeNumber(click, d, side);
        assert ps[4 * (d - 1) + side] in ps;
      }
    }
  }

  lemma ProbeNumber(click: Pixel, d: nat, side: nat)
    requires 1 <= d <= 8 && side < 4
    ensures |Probes(click, 8)| == 32 && Probes(click, 8)[4 * (d - 1) + side] == Probe(click, d, side)
  {
    hide Probes, Probe;
    ProbesAt(click, 8);
    var i := 4 * (d - 1) + side;
    assert i / 4 + 1 == d && i % 4 == side;
  }

  /** The fill bridges a gap of two dark pixels and no more: two lonely pixels are connected up to distance three. */
  lemma BridgesTwoPixels(image: Image, p: Pixel, q: Pixel)
    requires p != q && forall r :: image.Lit(r) <==> r == p || r == q
    ensures Connected(image, p, q) <==> Abs(q.0 - p.0) + Abs(q.1 - p.1) <= 3
  {
    if Abs(q.0 - p.0) + Abs(q.1 - p.1) <= 3 {
      assert Connects(image, p, q, [p, q]);
    }
    if Connected(image, p, q) {
      var path :| Connects(image, p, q, path);
      assert Adjacent(path[0], path[1]) && image.Lit(path[1]);
    }
  }
}
