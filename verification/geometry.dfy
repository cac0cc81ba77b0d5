/** Axis-aligned rectangles and the intersection-over-union measure that both
    decoders (corner form and centre form) reduce their boxes to. */
module Geometry {

  /** A rectangle given by its edges, in the order `calc_area` takes them. */
  datatype Rect = Rect(xmin: real, xmax: real, ymin: real, ymax: real)

  function Max(a: real, b: real): real { if a >= b then a else b }

  function Min(a: real, b: real): real { if a <= b then a else b }

  /** Side length clamped at zero: `max(hi - lo, 0)`. */
  function Extent(lo: real, hi: real): (e: real)
    ensures e >= 0.0
    ensures e == 0.0 <==> hi <= lo
  {
    Max(hi - lo, 0.0)
  }

  /** calc_area: the product of the two clamped side lengths. An inverted or
      flat rectangle has no area. */
  function Area(r: Rect): (a: real)
    ensures a >= 0.0
    ensures a == 0.0 <==> r.xmax <= r.xmin || r.ymax <= r.ymin
  {
    var w := Extent(r.xmin, r.xmax);
    var h := Extent(r.ymin, r.ymax);
    assert w > 0.0 && h > 0.0 ==> w * h > 0.0 by {
      if w > 0.0 && h > 0.0 { PositiveProduct(w, h); }
    }
    w * h
  }

  /** A rectangle whose edges are in order measures width times height. */
  lemma AreaOfOrderedEdges(r: Rect)
    requires r.xmin <= r.xmax && r.ymin <= r.ymax
    ensures Area(r) == (r.xmax - r.xmin) * (r.ymax - r.ymin)
  {
    assert Extent(r.xmin, r.xmax) == r.xmax - r.xmin;
    assert Extent(r.ymin, r.ymax) == r.ymax - r.ymin;
  }

  lemma PositiveProduct(a: real, b: real)
    requires a > 0.0 && b > 0.0
    ensures a * b > 0.0
  {}

  /** The rectangle `calc_overlap` builds from the larger lower edges and the
      smaller upper edges; it may be inverted when the boxes do not meet. */
  function Intersection(r1: Rect, r2: Rect): Rect
  {
    Rect(Max(r1.xmin, r2.xmin), Min(r1.xmax, r2.xmax), Max(r1.ymin, r2.ymin), Min(r1.ymax, r2.ymax))
  }

  /** Each edge of the intersection lies inside both rectangles and is an
      edge of one of them. */
  lemma IntersectionEdges(r1: Rect, r2: Rect)
    ensures var i := Intersection(r1, r2);
      && i.xmin >= r1.xmin && i.xmin >= r2.xmin && i.xmax <= r1.xmax && i.xmax <= r2.xmax
      && i.ymin >= r1.ymin && i.ymin >= r2.ymin && i.ymax <= r1.ymax && i.ymax <= r2.ymax
      && (i.xmin == r1.xmin || i.xmin == r2.xmin) && (i.xmax == r1.xmax || i.xmax == r2.xmax)
      && (i.ymin == r1.ymin || i.ymin == r2.ymin) && (i.ymax == r1.ymax || i.ymax == r2.ymax)
  {}

  /** The denominator of `calc_overlap`: area_1 + area_2 - area_in. */
  function UnionArea(r1: Rect, r2: Rect): real
  {
    Area(r1) + Area(r2) - Area(Intersection(r1, r2))
  }

  lemma ProductMonotone(a: real, b: real, c: real, d: real)
    requires 0.0 <= a <= c && 0.0 <= b <= d
    ensures a * b <= c * d
  {
    assert a * b <= c * b;
    assert c * b <= c * d;
  }

  /** The intersection is never larger than either rectangle. */
  lemma IntersectionAreaBound(r1: Rect, r2: Rect)
    ensures Area(Intersection(r1, r2)) <= Area(r1)
    ensures Area(Intersection(r1, r2)) <= Area(r2)
  {
    var i := Intersection(r1, r2);
    ProductMonotone(Extent(i.xmin, i.xmax), Extent(i.ymin, i.ymax), Extent(r1.xmin, r1.xmax), Extent(r1.ymin, r1.ymax));
    ProductMonotone(Extent(i.xmin, i.xmax), Extent(i.ymin, i.ymax), Extent(r2.xmin, r2.xmax), Extent(r2.ymin, r2.ymax));
  }

  /** The union is at least as large as each rectangle, so it is positive
      exactly when one of the two rectangles has positive area. */
  lemma UnionAreaBounds(r1: Rect, r2: Rect)
    ensures UnionArea(r1, r2) >= Area(r1) && UnionArea(r1, r2) >= Area(r2)
    ensures UnionArea(r1, r2) > 0.0 <==> Area(r1) > 0.0 || Area(r2) > 0.0
  {
    IntersectionAreaBound(r1, r2);
  }

  /** calc_overlap on two rectangles: intersection over union. The source
      divides by the union, so both rectangles having no area is excluded. */
  function Iou(r1: Rect, r2: Rect): (v: real)
    requires UnionArea(r1, r2) > 0.0
    ensures 0.0 <= v <= 1.0
    ensures v == 0.0 <==> Area(Intersection(r1, r2)) == 0.0
  {
    IntersectionAreaBound(r1, r2);
    QuotientBounds(Area(Intersection(r1, r2)), UnionArea(r1, r2));
    Area(Intersection(r1, r2)) / UnionArea(r1, r2)
  }

  /** A part over a positive whole lies in [0, 1] and is zero only when the
      part is. */
  lemma QuotientBounds(a: real, u: real)
    requires 0.0 <= a <= u && u > 0.0
    ensures 0.0 <= a / u <= 1.0
    ensures a / u == 0.0 <==> a == 0.0
  {
    assert a / u * u == a;
  }

  /** `iou > t` as the suppression loop evaluates it. A zero union is read
      as "does not exceed": the quotient is then 0/0, NaN on numpy floats,
      and NaN compares false. When both boxes are inverted on both axes the
      areas are all the integer 0 and the source raises instead; that raise
      is not modelled. */
  predicate OverlapExceeds(r1: Rect, r2: Rect, t: real)
  {
    UnionArea(r1, r2) > 0.0 && Iou(r1, r2) > t
  }

  lemma IntersectionSymmetric(r1: Rect, r2: Rect)
    ensures Intersection(r1, r2) == Intersection(r2, r1)
  {}

  /** The overlap does not depend on the order of its arguments. */
  lemma IouSymmetric(r1: Rect, r2: Rect)
    requires UnionArea(r1, r2) > 0.0
    ensures UnionArea(r2, r1) > 0.0
    ensures Iou(r1, r2) == Iou(r2, r1)
  {
    IntersectionSymmetric(r1, r2);
  }

  lemma ExceedsSymmetric(r1: Rect, r2: Rect, t: real)
    ensures OverlapExceeds(r1, r2, t) <==> OverlapExceeds(r2, r1, t)
  {
    IntersectionSymmetric(r1, r2);
  }

  /** A rectangle with area overlaps itself completely. */
  lemma IouSelf(r: Rect)
    requires Area(r) > 0.0
    ensures UnionArea(r, r) > 0.0
    ensures Iou(r, r) == 1.0
  {
    assert Intersection(r, r) == r;
  }

  /** Rectangles that are apart or only share an edge do not overlap. */
  lemma IouSeparated(r1: Rect, r2: Rect)
    requires UnionArea(r1, r2) > 0.0
    requires r1.xmax <= r2.xmin || r2.xmax <= r1.xmin || r1.ymax <= r2.ymin || r2.ymax <= r1.ymin
    ensures Iou(r1, r2) == 0.0
  {}

  /** If a < c and both are positive, multiplying by b <= d keeps it strict. */
  lemma ProductStrict(a: real, b: real, c: real, d: real)
    requires 0.0 <= a < c && 0.0 < b <= d
    ensures a * b < c * d
  {
    assert a * b < c * b;
    assert c * b <= c * d;
  }

  /** An intersection as large as the rectangle it lies in has the same edges. */
  lemma FullIntersection(r: Rect, i: Rect)
    requires r.xmin <= i.xmin && i.xmax <= r.xmax && r.ymin <= i.ymin && i.ymax <= r.ymax
    requires Area(r) > 0.0 && Area(i) == Area(r)
    ensures i == r
  {
    var ex, ey := Extent(i.xmin, i.xmax), Extent(i.ymin, i.ymax);
    var rx, ry := Extent(r.xmin, r.xmax), Extent(r.ymin, r.ymax);
    assert ex <= rx && ey <= ry;
    assert ex > 0.0 && ey > 0.0;
    if ex < rx {
      ProductStrict(ex, ey, rx, ry);
    }
    if ey < ry {
      ProductStrict(ey, ex, ry, rx);
    }
  }

  /** Two rectangles with area overlap completely exactly when they are the
      same rectangle. */
  lemma IouOneIffSame(r1: Rect, r2: Rect)
    requires Area(r1) > 0.0 && Area(r2) > 0.0
    ensures UnionArea(r1, r2) > 0.0
    ensures Iou(r1, r2) == 1.0 <==> r1 == r2
  {
    UnionAreaBounds(r1, r2);
    IntersectionAreaBound(r1, r2);
    var i := Intersection(r1, r2);
    if Iou(r1, r2) == 1.0 {
      assert Area(i) == UnionArea(r1, r2);
      FullIntersection(r1, i);
      FullIntersection(r2, i);
    }
    if r1 == r2 {
      IouSelf(r1);
    }
  }

  /** Multiplying by a positive factor keeps strict order and equality. */
  lemma MultiplyKeepsOrder(a: real, b: real, s: real)
    requires s > 0.0
    ensures a * s > b * s <==> a > b
    ensures a * s == b * s <==> a == b
  {
    if a > b { assert (a - b) * s > 0.0; }
    if b > a { assert (b - a) * s > 0.0; }
  }

  /** Stretching both axes by positive factors, as the rescaling step does. */
  function ScaleRect(r: Rect, sx: real, sy: real): Rect
  {
    Rect(r.xmin * sx, r.xmax * sx, r.ymin * sy, r.ymax * sy)
  }

  lemma ScaledExtent(lo: real, hi: real, s: real)
    requires s > 0.0
    ensures Extent(lo * s, hi * s) == Extent(lo, hi) * s
  {
    if hi > lo {
      assert hi * s - lo * s == (hi - lo) * s;
      assert (hi - lo) * s > 0.0;
    } else {
      assert hi * s <= lo * s;
    }
  }

  lemma ScaledMaxMin(a: real, b: real, s: real)
    requires s > 0.0
    ensures Max(a * s, b * s) == Max(a, b) * s
    ensures Min(a * s, b * s) == Min(a, b) * s
  {
    if a >= b { assert a * s >= b * s; } else { assert a * s < b * s; }
  }

  /** An area measured after the axes are stretched by `sx` and `sy`. */
  function Stretched(a: real, sx: real, sy: real): real
  {
    a * (sx * sy)
  }

  lemma ScaledArea(r: Rect, sx: real, sy: real)
    requires sx > 0.0 && sy > 0.0
    ensures Area(ScaleRect(r, sx, sy)) == Stretched(Area(r), sx, sy)
  {
    ScaledExtent(r.xmin, r.xmax, sx);
    ScaledExtent(r.ymin, r.ymax, sy);
    var ex, ey := Extent(r.xmin, r.xmax), Extent(r.ymin, r.ymax);
    assert (ex * sx) * (ey * sy) == (ex * ey) * (sx * sy);
  }

  lemma ScaledIntersection(r1: Rect, r2: Rect, sx: real, sy: real)
    requires sx > 0.0 && sy > 0.0
    ensures Intersection(ScaleRect(r1, sx, sy), ScaleRect(r2, sx, sy)) == ScaleRect(Intersection(r1, r2), sx, sy)
  {
    ScaledMaxMin(r1.xmin, r2.xmin, sx);
    ScaledMaxMin(r1.xmax, r2.xmax, sx);
    ScaledMaxMin(r1.ymin, r2.ymin, sy);
    ScaledMaxMin(r1.ymax, r2.ymax, sy);
  }

  lemma ScaledIntersectionArea(r1: Rect, r2: Rect, sx: real, sy: real)
    requires sx > 0.0 && sy > 0.0
    ensures Area(Intersection(ScaleRect(r1, sx, sy), ScaleRect(r2, sx, sy))) == Stretched(Area(Intersection(r1, r2)), sx, sy)
  {
    ScaledIntersection(r1, r2, sx, sy);
    ScaledArea(Intersection(r1, r2), sx, sy);
  }

  /** Stretching both rectangles stretches their union alike. */
  lemma ScaledUnionArea(r1: Rect, r2: Rect, sx: real, sy: real)
    requires sx > 0.0 && sy > 0.0
    ensures UnionArea(ScaleRect(r1, sx, sy), ScaleRect(r2, sx, sy)) == Stretched(UnionArea(r1, r2), sx, sy)
  {
    ScaledArea(r1, sx, sy);
    ScaledArea(r2, sx, sy);
    ScaledIntersectionArea(r1, r2, sx, sy);
    UnionOfScaledParts(r1, r2, ScaleRect(r1, sx, sy), ScaleRect(r2, sx, sy), sx, sy);
  }

  /** The union of two rectangles whose areas and intersection are the
      stretched ones of another pair is the stretched union of that pair. */
  lemma UnionOfScaledParts(r1: Rect, r2: Rect, s1: Rect, s2: Rect, sx: real, sy: real)
    requires Area(s1) == Stretched(Area(r1), sx, sy) && Area(s2) == Stretched(Area(r2), sx, sy)
    requires Area(Intersection(s1, s2)) == Stretched(Area(Intersection(r1, r2)), sx, sy)
    ensures UnionArea(s1, s2) == Stretched(UnionArea(r1, r2), sx, sy)
  {
  }

  /** Intersection over union does not change when both rectangles are
      stretched by the same positive factors along each axis, and the union
      stays positive exactly when it was. */
  lemma IouScaleInvariant(r1: Rect, r2: Rect, sx: real, sy: real)
    requires sx > 0.0 && sy > 0.0
    ensures UnionArea(ScaleRect(r1, sx, sy), ScaleRect(r2, sx, sy)) == Stretched(UnionArea(r1, r2), sx, sy)
    ensures UnionArea(ScaleRect(r1, sx, sy), ScaleRect(r2, sx, sy)) > 0.0 <==> UnionArea(r1, r2) > 0.0
    ensures UnionArea(r1, r2) > 0.0 ==> Iou(ScaleRect(r1, sx, sy), ScaleRect(r2, sx, sy)) == Iou(r1, r2)
  {
    ScaledUnionArea(r1, r2, sx, sy);
    ScaledSign(UnionArea(r1, r2), sx, sy);
    if UnionArea(r1, r2) > 0.0 {
      ScaledIntersectionArea(r1, r2, sx, sy);
      IouOfScaledParts(r1, r2, ScaleRect(r1, sx, sy), ScaleRect(r2, sx, sy), sx, sy);
    }
  }

  /** When intersection and union are both stretched alike, the quotient is
      the same. */
  lemma IouOfScaledParts(r1: Rect, r2: Rect, s1: Rect, s2: Rect, sx: real, sy: real)
    requires sx > 0.0 && sy > 0.0 && UnionArea(r1, r2) > 0.0
    requires Area(Intersection(s1, s2)) == Stretched(Area(Intersection(r1, r2)), sx, sy)
    requires UnionArea(s1, s2) == Stretched(UnionArea(r1, r2), sx, sy)
    ensures UnionArea(s1, s2) > 0.0 && Iou(s1, s2) == Iou(r1, r2)
  {
    QuotientScale(Area(Intersection(r1, r2)), UnionArea(r1, r2), Area(Intersection(s1, s2)), UnionArea(s1, s2), sx, sy);
  }

  /** Stretching both parts of a quotient by positive factors keeps it, and
      keeps the denominator positive. */
  lemma QuotientScale(a: real, u: real, sa: real, su: real, sx: real, sy: real)
    requires u > 0.0 && sx > 0.0 && sy > 0.0
    requires sa == Stretched(a, sx, sy) && su == Stretched(u, sx, sy)
    ensures su > 0.0
    ensures sa / su == a / u
  {
    var k := sx * sy;
    PositiveProduct(sx, sy);
    PositiveProduct(u, k);
    assert sa / su * su == sa;
  }

  /** The positive factors neither create nor destroy an exceeding pair. */
  lemma ExceedsScaleInvariant(r1: Rect, r2: Rect, sx: real, sy: real, t: real)
    requires sx > 0.0 && sy > 0.0
    ensures OverlapExceeds(ScaleRect(r1, sx, sy), ScaleRect(r2, sx, sy), t) <==> OverlapExceeds(r1, r2, t)
  {
    IouScaleInvariant(r1, r2, sx, sy);
  }

  /** Stretching by positive factors keeps the sign of an area. */
  lemma ScaledSign(u: real, sx: real, sy: real)
    requires sx > 0.0 && sy > 0.0
    ensures Stretched(u, sx, sy) > 0.0 <==> u > 0.0
  {
    var k := sx * sy;
    PositiveProduct(sx, sy);
    if u > 0.0 { PositiveProduct(u, k); }
    if u <= 0.0 { assert u * k <= 0.0; }
  }

  /** Exchanging the two axes of a rectangle. */
  function Transpose(r: Rect): Rect
  {
    Rect(r.ymin, r.ymax, r.xmin, r.xmax)
  }

  /** Intersection over union is the same with the axes exchanged. */
  lemma IouTransposeInvariant(r1: Rect, r2: Rect, t: real)
    ensures UnionArea(Transpose(r1), Transpose(r2)) == UnionArea(r1, r2)
    ensures UnionArea(r1, r2) > 0.0 ==> Iou(Transpose(r1), Transpose(r2)) == Iou(r1, r2)
    ensures OverlapExceeds(Transpose(r1), Transpose(r2), t) <==> OverlapExceeds(r1, r2, t)
  {
    var i := Intersection(r1, r2);
    assert Intersection(Transpose(r1), Transpose(r2)) == Transpose(i);
    TransposeArea(i);
    TransposeArea(r1);
    TransposeArea(r2);
  }

  lemma TransposeArea(r: Rect)
    ensures Area(Transpose(r)) == Area(r)
  {
    var w, h := Extent(r.xmin, r.xmax), Extent(r.ymin, r.ymax);
    assert Area(Transpose(r)) == h * w;
    assert Area(r) == w * h;
  }
}
