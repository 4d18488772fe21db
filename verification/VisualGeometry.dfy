/**
 Regions stored relative to their owning surface, and their way back to screen coordinates.
 Coordinates are exact reals; rounding is to the nearest integer, halves to the even one.
 */
module VisualGeometry {
  import opened Outcomes
  import opened VisualRegion

  datatype Relative = Relative(x: real, y: real, w: real, h: real)

  datatype GeometryError = DivisionByZero | OutsideOwner

  /** The repository's condition on stored bounds, with its small tolerance. */
  predicate Accepted(r: Relative) {
    !(r.x < 0.0 || r.y < 0.0 || r.w < 0.0 || r.h < 0.0 || r.w <= 0.0 || r.h <= 0.0 || r.x + r.w > 1.0001 || r.y + r.h > 1.0001)
  }

  function Round(x: real): int {
    var below := x.Floor;
    var part := x - below as real;
    if part < 0.5 || (part == 0.5 && below % 2 == 0) then below else below + 1
  }

  lemma RoundNearest(x: real)
    ensures x - 0.5 <= Round(x) as real <= x + 0.5
  {
  }

  lemma RoundBounded(x: real, n: int)
    ensures n as real <= x ==> n <= Round(x)
    ensures x <= n as real ==> Round(x) <= n
  {
  }

  lemma RoundInteger(n: int)
    ensures Round(n as real) == n
  {
  }

  function Fraction(part: int, whole: int): real
    requires whole != 0
  {
    part as real / whole as real
  }

  function Scale(fraction: real, size: int): real {
    fraction * size as real
  }

  lemma FractionScales(a: int, w: int)
    requires w > 0
    ensures Scale(Fraction(a, w), w) == a as real
    ensures a >= 0 ==> Fraction(a, w) >= 0.0
    ensures a > 0 ==> Fraction(a, w) > 0.0
  {
  }

  lemma ScaleSum(f: real, g: real, bound: real, size: int)
    requires 0.0 <= f && 0.0 < g && size > 0
    ensures 0.0 <= Scale(f, size) && 0.0 < Scale(g, size)
    ensures f + g <= bound ==> Scale(f, size) + Scale(g, size) <= Scale(bound, size)
  {
    assert Scale(f, size) + Scale(g, size) == (f + g) * size as real;
    if f + g <= bound {
      ScaleMonotone(f + g, bound, size);
    }
  }

  lemma ScaleMonotone(f: real, g: real, size: int)
    requires f <= g && size >= 0
    ensures Scale(f, size) <= Scale(g, size)
  {
  }

  lemma FractionSum(a: int, b: int, w: int)
    requires w > 0 && a + b <= w
    ensures Fraction(a, w) + Fraction(b, w) <= 1.0
  {
    assert Fraction(a, w) + Fraction(b, w) == (a + b) as real / w as real;
    assert (a + b) as real / w as real <= w as real / w as real == 1.0;
  }

  // ----- storing a region

  /** A region of `surface` as fractions of the surface. */
  function RelativeTo(surface: Box, region: Box): Relative
    requires surface.width != 0 && surface.height != 0
  {
    Relative(Fraction(region.left - surface.left, surface.width), Fraction(region.top - surface.top, surface.height),
             Fraction(region.width, surface.width), Fraction(region.height, surface.height))
  }

  /** The square around a click, clamped to the surface. */
  function ClampedRegion(surface: Box, click: Pixel, regionSize: int): Box {
    var size := Max(8, regionSize);
    var x := Max(surface.left, Min(click.0 - size / 2, surface.left + surface.width - 1));
    var y := Max(surface.top, Min(click.1 - size / 2, surface.top + surface.height - 1));
    Box(x, y, Max(1, Min(size, surface.left + surface.width - x)), Max(1, Min(size, surface.top + surface.height - y)))
  }

  /** The arithmetic of `surface_relative_visual_capture`. */
  function SurfaceRelative(surface: Box, click: Pixel, regionSize: int): Result<(Box, Relative), GeometryError> {
    if surface.width == 0 || surface.height == 0 then Failure(DivisionByZero)
    else
      var region := ClampedRegion(surface, click, regionSize);
      Success((region, RelativeTo(surface, region)))
  }

  predicate Inside(region: Box, surface: Box) {
    && surface.left <= region.left && region.left + region.width <= surface.left + surface.width && region.width >= 1
    && surface.top <= region.top && region.top + region.height <= surface.top + surface.height && region.height >= 1
  }

  // ----- resolving a region

  /** `owner_relative_bounds`. */
  function OwnerRelativeBounds(owner: Box, r: Relative): Result<Box, GeometryError> {
    if !Accepted(r) then Failure(OutsideOwner)
    else Success(Box(
      owner.left + Round(Scale(r.x, owner.width)), owner.top + Round(Scale(r.y, owner.height)),
      Max(1, Round(Scale(r.w, owner.width))), Max(1, Round(Scale(r.h, owner.height)))))
  }

  /** Whatever the click, the region lies inside a surface of positive size; it contains a click that does. */
  lemma SurfaceRegionInside(surface: Box, click: Pixel, regionSize: int)
    requires surface.width > 0 && surface.height > 0
    ensures Inside(ClampedRegion(surface, click, regionSize), surface)
    ensures surface.Contains(click) ==> ClampedRegion(surface, click, regionSize).Contains(click)
  {
  }

  /** With room on all sides the region is a full square, of at least eight pixels, centred on the click. */
  lemma SurfaceRegionSize(surface: Box, click: Pixel, regionSize: int)
    requires var size := Max(8, regionSize);
      && surface.left + size <= click.0 < surface.left + surface.width - size
      && surface.top + size <= click.1 < surface.top + surface.height - size
    ensures var region, size := ClampedRegion(surface, click, regionSize), Max(8, regionSize);
      && region.width == region.height == size
      && 0 <= 2 * (click.0 - region.left) - size + 1 <= 1 && 0 <= 2 * (click.1 - region.top) - size + 1 <= 1
  {
  }

  /** A stored region passes the validator and resolves to the same pixels while its owner keeps its size. */
  lemma StoredRegionResolves(surface: Box, region: Box, moved: Box)
    requires surface.width > 0 && surface.height > 0 && Inside(region, surface)
    requires moved.width == surface.width && moved.height == surface.height
    ensures var r := RelativeTo(surface, region);
      && Accepted(r) && r.x + r.w <= 1.0 && r.y + r.h <= 1.0
      && OwnerRelativeBounds(moved, r) ==
           Success(Box(moved.left + region.left - surface.left, moved.top + region.top - surface.top, region.width, region.height))
  {
    hide Fraction, Scale, Round;
    FractionScales(region.left - surface.left, surface.width);
    FractionScales(region.top - surface.top, surface.height);
    FractionScales(region.width, surface.width);
    FractionScales(region.height, surface.height);
    FractionSum(region.left - surface.left, region.width, surface.width);
    FractionSum(region.top - surface.top, region.height, surface.height);
    RoundInteger(region.left - surface.left);
    RoundInteger(region.top - surface.top);
    RoundInteger(region.width);
    RoundInteger(region.height);
  }

  /** A captured surface region, end to end. */
  lemma SurfaceCaptureRoundTrip(surface: Box, click: Pixel, regionSize: int)
    requires surface.width > 0 && surface.height > 0
    ensures SurfaceRelative(surface, click, regionSize).Success?
    ensures var (region, r) := SurfaceRelative(surface, click, regionSize).value;
      Accepted(r) && OwnerRelativeBounds(surface, r) == Success(region)
  {
    SurfaceRegionInside(surface, click, regionSize);
    StoredRegionResolves(surface, ClampedRegion(surface, click, regionSize), surface);
  }

  /** The region a flood fill found, stored relative to its anchor, passes the validator and resolves to itself. */
  lemma FloodCaptureRoundTrip(anchor: Box, image: Image, seed: Pixel, region: Box)
    requires image.width == anchor.width && image.height == anchor.height && image.Lit(seed)
    requires IsRegionBox(anchor, image, seed, Some(region))
    ensures Accepted(RelativeTo(anchor, region)) && OwnerRelativeBounds(anchor, RelativeTo(anchor, region)) == Success(region)
  {
    RegionInsideAnchor(anchor, image, seed, region);
    StoredRegionResolves(anchor, region, anchor);
  }

  lemma RoundedEdge(a: real, b: real, size: int)
    requires 0.0 <= a && 0.0 < b && size > 0
    ensures 0 <= Round(a)
    ensures a + b <= size as real ==> Round(a) + Max(1, Round(b)) <= size + 1
    ensures a + b <= 1.0001 * size as real ==> (Round(a) + Max(1, Round(b))) as real <= 1.0001 * size as real + 1.5
  {
    RoundNearest(a);
    RoundNearest(b);
    RoundBounded(a, 0);
    RoundBounded(a, size);
  }

  /** Along one axis, the resolved far edge passes the owner's by at most one pixel. */
  lemma FarEdge(offset: real, extent: real, size: int)
    requires 0.0 <= offset && 0.0 < extent && size > 0
    ensures 0 <= Round(Scale(offset, size))
    ensures offset + extent <= 1.0 ==> Round(Scale(offset, size)) + Max(1, Round(Scale(extent, size))) <= size + 1
    ensures offset + extent <= 1.0001 ==>
      (Round(Scale(offset, size)) + Max(1, Round(Scale(extent, size)))) as real <= 1.0001 * size as real + 1.5
  {
    ScaleSum(offset, extent, 1.0, size);
    ScaleSum(offset, extent, 1.0001, size);
    hide Round;
    RoundedEdge(Scale(offset, size), Scale(extent, size), size);
  }

  /** At any other positive owner size a region within its owner overshoots it by at most one pixel. */
  lemma OvershootAtMostOnePixel(owner: Box, r: Relative)
    requires owner.width > 0 && owner.height > 0 && Accepted(r) && r.x + r.w <= 1.0 && r.y + r.h <= 1.0
    ensures OwnerRelativeBounds(owner, r).Success?
    ensures var b := OwnerRelativeBounds(owner, r).value;
      && owner.left <= b.left && b.left + b.width <= owner.left + owner.width + 1 && b.width >= 1
      && owner.top <= b.top && b.top + b.height <= owner.top + owner.height + 1 && b.height >= 1
  {
    hide Round, Scale;
    FarEdge(r.x, r.w, owner.width);
    FarEdge(r.y, r.h, owner.height);
  }

  /** With the validator's tolerance, everything it accepts stays within that tolerance and a pixel and a half. */
  lemma AcceptedOvershoot(owner: Box, r: Relative)
    requires owner.width > 0 && owner.height > 0 && Accepted(r)
    ensures OwnerRelativeBounds(owner, r).Success?
    ensures var b := OwnerRelativeBounds(owner, r).value;
      && (b.left + b.width - owner.left) as real <= 1.0001 * owner.width as real + 1.5
      && (b.top + b.height - owner.top) as real <= 1.0001 * owner.height as real + 1.5
  {
    hide Round, Scale;
    FarEdge(r.x, r.w, owner.width);
    FarEdge(r.y, r.h, owner.height);
  }

  /** The pixel of overshoot does occur: the right half of a surface of width 2, resolved at width 3. */
  lemma OvershootOccurs()
    ensures var r := RelativeTo(Box(0, 0, 2, 2), Box(1, 1, 1, 1));
      && Accepted(r) && r.x + r.w <= 1.0
      && OwnerRelativeBounds(Box(0, 0, 3, 3), r) == Success(Box(2, 2, 2, 2))
  {
  }

  /** Enlarging the owner by a whole factor enlarges the region by the same factor, with no overshoot. */
  lemma WholeFactorScalesExactly(surface: Box, region: Box, k: int)
    requires surface.width > 0 && surface.height > 0 && Inside(region, surface) && k >= 1
    ensures OwnerRelativeBounds(Box(surface.left, surface.top, k * surface.width, k * surface.height), RelativeTo(surface, region)) ==
      Success(Box(surface.left + k * (region.left - surface.left), surface.top + k * (region.top - surface.top),
                  k * region.width, k * region.height))
  {
    hide Round, Scale, Fraction;
    StoredRegionResolves(surface, region, surface);
    ScaledFraction(region.left - surface.left, surface.width, k);
    ScaledFraction(region.top - surface.top, surface.height, k);
    ScaledFraction(region.width, surface.width, k);
    ScaledFraction(region.height, surface.height, k);
    assert k * region.width >= 1 && k * region.height >= 1;
  }

  lemma ScaledFraction(a: int, w: int, k: int)
    requires w > 0
    ensures Round(Scale(Fraction(a, w), k * w)) == k * a
  {
    FractionScales(a, w);
    assert Scale(Fraction(a, w), k * w) == k as real * Scale(Fraction(a, w), w);
    assert k as real * a as real == (k * a) as real;
    RoundInteger(k * a);
  }

  // ----- rounding and clamping, told outright

  /** The nearest integer, and of two that are equally near the even one. */
  lemma RoundIff(x: real, n: int)
    ensures n == Round(x) <==>
      x - 0.5 <= n as real <= x + 0.5 && (n as real == x - 0.5 || n as real == x + 0.5 ==> n % 2 == 0)
  {
  }

  /** A relative region resolves to the pixels nearest to its exact place and size, of which it has at least one each way. */
  lemma BoundsNearest(owner: Box, r: Relative)
    requires OwnerRelativeBounds(owner, r).Success?
    ensures var b := OwnerRelativeBounds(owner, r).value;
      && r.x * owner.width as real - 0.5 <= (b.left - owner.left) as real <= r.x * owner.width as real + 0.5
      && r.y * owner.height as real - 0.5 <= (b.top - owner.top) as real <= r.y * owner.height as real + 0.5
      && b.width >= 1 && b.height >= 1
      && (b.width > 1 ==> r.w * owner.width as real - 0.5 <= b.width as real <= r.w * owner.width as real + 0.5)
      && (b.height > 1 ==> r.h * owner.height as real - 0.5 <= b.height as real <= r.h * owner.height as real + 0.5)
      && (b.width == 1 ==> r.w * owner.width as real <= 1.5) && (b.height == 1 ==> r.h * owner.height as real <= 1.5)
  {
    RoundNearest(Scale(r.x, owner.width));
    RoundNearest(Scale(r.y, owner.height));
    RoundNearest(Scale(r.w, owner.width));
    RoundNearest(Scale(r.h, owner.height));
    hide Round;
  }

  /** Bounds are refused exactly when they begin before the owner, have no extent, or end a ten-thousandth beyond it. */
  lemma AcceptedIff(owner: Box, r: Relative)
    ensures OwnerRelativeBounds(owner, r).Failure? <==>
      r.x < 0.0 || r.y < 0.0 || r.w <= 0.0 || r.h <= 0.0 || r.x + r.w > 1.0001 || r.y + r.h > 1.0001
  {
  }

  /** Along one axis: where the square around the click begins on the surface, and where it ends. */
  predicate ClampedAxis(from: int, extent: int, click: int, size: int, start: int, length: int) {
    var wanted := click - size / 2;
    && start == (if wanted < from then from else if wanted >= from + extent then from + extent - 1 else wanted)
    && start + length == (if start + size <= from + extent then start + size else from + extent)
  }

  /** The region begins half its size before the click, or at the nearest column and row of the surface, and ends with the surface. */
  lemma ClampedRegionIs(surface: Box, click: Pixel, regionSize: int)
    requires surface.width > 0 && surface.height > 0
    ensures var (region, size) := (ClampedRegion(surface, click, regionSize), if regionSize < 8 then 8 else regionSize);
      && ClampedAxis(surface.left, surface.width, click.0, size, region.left, region.width)
      && ClampedAxis(surface.top, surface.height, click.1, size, region.top, region.height)
  {
  }
}
