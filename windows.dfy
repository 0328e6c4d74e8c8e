/**
 * The cyclic walk shared by the three contour drivers: indices taken
 * modulo the length, the eligibility of a point (selected, or the whole
 * glyph is worked on), the on, off, off, on pattern of a cubic segment
 * starting at a point, and the on-curve and selection flags that the
 * coordinate-only drivers leave alone.
 */
module Windows {
  import opened Geometry
  import opened Contours

  /** The plug-in's cyclic index `(j + d) % l`, its value spelled out for offsets below 3 l. */
  function Ix(l: int, j: int, d: int): (r: int)
    requires 0 <= j < l && 0 <= d
    ensures 0 <= r < l
    ensures j + d < l ==> r == j + d
    ensures l <= j + d < 2 * l ==> r == j + d - l
    ensures 2 * l <= j + d < 3 * l ==> r == j + d - 2 * l
  {
    ModRanges(j + d, l);
    (j + d) % l
  }

  lemma ModRanges(n: int, l: int)
    requires 0 <= n && 0 < l
    ensures n < l ==> n % l == n
    ensures l <= n < 2 * l ==> n % l == n - l
    ensures 2 * l <= n < 3 * l ==> n % l == n - 2 * l
  {
    if n < l {
    } else if n < 2 * l {
      assert n == l * 1 + (n - l);
    } else if n < 3 * l {
      assert n == l * 2 + (n - 2 * l);
    }
  }

  /** Moving `a` then `b` places is moving `a + b` places. */
  lemma IxAdd(l: int, j: int, a: int, b: int)
    requires 0 <= j < l && 0 <= a <= l && 0 <= b <= l
    ensures Ix(l, Ix(l, j, a), b) == Ix(l, j, a + b)
  {
  }

  /** Moving `d + l` places is moving `d` places. */
  lemma IxPeriod(l: int, j: int, d: int)
    requires 0 <= j < l && 0 <= d <= l
    ensures Ix(l, j, d + l) == Ix(l, j, d)
  {
  }

  /** Different starts are different after the same move. */
  lemma IxInjective(l: int, a: int, b: int, d: int)
    requires 0 <= a < l && 0 <= b < l && 0 <= d <= l
    ensures Ix(l, a, d) == Ix(l, b, d) ==> a == b
  {
  }

  /** A point the driver may work on: it is selected, or nothing in the glyph is. */
  predicate Eligible(p: Point, glyphVariant: bool) {
    p.selected || glyphVariant
  }

  /**
   * The test the drivers apply at point `j`: `j` eligible, the next two
   * points off-curve, the third one on-curve and eligible, and that third
   * point not `j` itself.
   */
  predicate SegmentAt(pts: seq<Point>, j: int, glyphVariant: bool)
    requires 0 <= j < |pts|
  {
    var l := |pts|;
    && Eligible(pts[j], glyphVariant)
    && !pts[Ix(l, j, 1)].onCurve && !pts[Ix(l, j, 2)].onCurve
    && pts[Ix(l, j, 3)].onCurve && Eligible(pts[Ix(l, j, 3)], glyphVariant)
    && Ix(l, j, 3) != j
  }

  /** A segment is only found on a contour of at least four points. */
  lemma SegmentLength(pts: seq<Point>, j: int, glyphVariant: bool)
    requires 0 <= j < |pts| && SegmentAt(pts, j, glyphVariant)
    ensures |pts| >= 4
  {
  }

  /**
   * Two segments found by the test do not start one or two points apart:
   * the points after a segment's start are handles, but the point three
   * after it is a node.
   */
  lemma SegmentsApart(pts: seq<Point>, j: int, glyphVariant: bool)
    requires 0 <= j < |pts| && SegmentAt(pts, j, glyphVariant)
    ensures !SegmentAt(pts, Ix(|pts|, j, 1), glyphVariant)
    ensures !SegmentAt(pts, Ix(|pts|, j, 2), glyphVariant)
  {
    var l := |pts|;
    SegmentLength(pts, j, glyphVariant);
    IxAdd(l, j, 1, 2);
    IxAdd(l, j, 2, 1);
  }

  /** The same number of points, with the same on-curve and selection flags. */
  predicate SameFlags(a: seq<Point>, b: seq<Point>) {
    && |a| == |b|
    && forall k :: 0 <= k < |a| ==> a[k].onCurve == b[k].onCurve && a[k].selected == b[k].selected
  }

  /** The segment test reads only the flags. */
  lemma SegmentAtFlags(a: seq<Point>, b: seq<Point>, j: int, glyphVariant: bool)
    requires SameFlags(a, b) && 0 <= j < |a|
    ensures SegmentAt(a, j, glyphVariant) == SegmentAt(b, j, glyphVariant)
  {
  }

  /** `psMat.translate(dx, dy)` applied to a point: it moves, its flags stay. */
  function Translate(p: Point, dx: real, dy: real): (r: Point)
    ensures r.onCurve == p.onCurve && r.selected == p.selected
    ensures Pos(r) == Coord(p.x + dx, p.y + dy)
  {
    p.(x := p.x + dx, y := p.y + dy)
  }
}
