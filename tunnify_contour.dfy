/**
 * `tunnify_contour`: walks a closed contour and tunnifies every cubic
 * segment it finds. The segments found never share a handle and the
 * walk never rereads a handle it has moved, so the outcome is the same as
 * tunnifying every segment of the original contour, each on its own.
 */
module TunnifyContours {
  import opened Geometry
  import opened Balance
  import opened Contours
  import opened Windows

  /** A rule giving the new handles of a segment from its four points. */
  type HandleRule = (Coord, Coord, Coord, Coord) -> (Coord, Coord)

  /** `tunnify` as such a rule. */
  function TunnifyRule(sqrt: real -> real): HandleRule {
    (a0: Coord, a1: Coord, a2: Coord, a3: Coord) => Tunnify(sqrt, a0, a1, a2, a3)
  }

  /** The handles `rule` gives the segment starting at point `j`. */
  function SegmentHandles(rule: HandleRule, pts: seq<Point>, j: int): (Coord, Coord)
    requires 0 <= j < |pts|
  {
    var l := |pts|;
    rule(Pos(pts[j]), Pos(pts[Ix(l, j, 1)]), Pos(pts[Ix(l, j, 2)]), Pos(pts[Ix(l, j, 3)]))
  }

  /**
   * The start of the segment found whose handle the point `k` is: the
   * point before `k` (`k` is its first handle) or the point two before
   * (`k` is its second handle); -1 when `k` is no such handle.
   */
  function HandleOwner(pts: seq<Point>, glyphVariant: bool, k: int): (w: int)
    requires 0 <= k < |pts|
    ensures -1 <= w < |pts|
    ensures w >= 0 ==> SegmentAt(pts, w, glyphVariant) && (k == Ix(|pts|, w, 1) || k == Ix(|pts|, w, 2))
  {
    var l := |pts|;
    if l >= 2 && SegmentAt(pts, Ix(l, k, l - 1), glyphVariant) then
      IxAdd(l, k, l - 1, 1);
      Ix(l, k, l - 1)
    else if l >= 2 && SegmentAt(pts, Ix(l, k, l - 2), glyphVariant) then
      IxAdd(l, k, l - 2, 2);
      Ix(l, k, l - 2)
    else
      -1
  }

  /** The point `k` once the segments found at the points before `n` are tunnified. */
  function TunnifiedPoint(rule: HandleRule, pts: seq<Point>, glyphVariant: bool, n: int, k: int): Point
    requires 0 <= k < |pts|
  {
    var w := HandleOwner(pts, glyphVariant, k);
    if 0 <= w < n then
      var h := SegmentHandles(rule, pts, w);
      MovedTo(pts[k], if k == Ix(|pts|, w, 1) then h.0 else h.1)
    else
      pts[k]
  }

  /** The contour once the segments found at the points before `n` are tunnified. */
  function TunnifiedUpTo(rule: HandleRule, pts: seq<Point>, glyphVariant: bool, n: int): (r: seq<Point>)
    ensures |r| == |pts|
  {
    seq(|pts|, k requires 0 <= k < |pts| => TunnifiedPoint(rule, pts, glyphVariant, n, k))
  }

  /** Every segment found on `pts`, tunnified from the original points. */
  function Tunnified(rule: HandleRule, pts: seq<Point>, glyphVariant: bool): (r: seq<Point>)
    ensures |r| == |pts|
  {
    TunnifiedUpTo(rule, pts, glyphVariant, |pts|)
  }

  // ---------------------------------------------------------------------
  // The walk

  /**
   * Walks the points of `c`; at every segment found it replaces the
   * handles by those `tunnify` computes and jumps to the segment's end.
   */
  method TunnifyContour(sqrt: real -> real, c: Contour, glyphVariant: bool)
    modifies c
    ensures c.points == Tunnified(TunnifyRule(sqrt), old(c.points), glyphVariant)
  {
    ghost var orig := c.points;
    var l := |c.points|;
    var j := 0;
    while j < l
      invariant l == |orig| && 0 <= j <= l + 2
      invariant c.points == TunnifiedUpTo(TunnifyRule(sqrt), orig, glyphVariant, j)
      decreases l - j
    {
      TunnifiedFlags(TunnifyRule(sqrt), orig, glyphVariant, j);
      SegmentAtFlags(c.points, orig, j, glyphVariant);
      if SegmentAt(c.points, j, glyphVariant) {
        TunnifyStep(TunnifyRule(sqrt), orig, glyphVariant, j);
        var h := Tunnify(sqrt, Pos(c.points[j]), Pos(c.points[Ix(l, j, 1)]),
                         Pos(c.points[Ix(l, j, 2)]), Pos(c.points[Ix(l, j, 3)]));
        c.points := c.points[Ix(l, j, 1) := MovedTo(c.points[Ix(l, j, 1)], h.0)];
        c.points := c.points[Ix(l, j, 2) := MovedTo(c.points[Ix(l, j, 2)], h.1)];
        j := j + 2;
      } else {
        TunnifySkip(TunnifyRule(sqrt), orig, glyphVariant, j);
      }
      j := j + 1;
    }
    TunnifiedBeyond(TunnifyRule(sqrt), orig, glyphVariant, j);
  }

  /** Tunnifying moves points and keeps every flag. */
  lemma TunnifiedFlags(rule: HandleRule, pts: seq<Point>, glyphVariant: bool, n: int)
    ensures SameFlags(TunnifiedUpTo(rule, pts, glyphVariant, n), pts)
  {
  }

  /** A point where no segment is found adds nothing. */
  lemma TunnifySkip(rule: HandleRule, pts: seq<Point>, glyphVariant: bool, j: int)
    requires 0 <= j < |pts| && !SegmentAt(pts, j, glyphVariant)
    ensures TunnifiedUpTo(rule, pts, glyphVariant, j + 1) == TunnifiedUpTo(rule, pts, glyphVariant, j)
  {
    var r, s := TunnifiedUpTo(rule, pts, glyphVariant, j + 1), TunnifiedUpTo(rule, pts, glyphVariant, j);
    assert forall k | 0 <= k < |pts| :: r[k] == s[k];
  }

  /** Which segments own the four points of a segment found at `j`. */
  lemma SegmentOwners(pts: seq<Point>, glyphVariant: bool, j: int)
    requires 0 <= j < |pts| && SegmentAt(pts, j, glyphVariant)
    ensures var l := |pts|;
      && HandleOwner(pts, glyphVariant, j) == -1
      && HandleOwner(pts, glyphVariant, Ix(l, j, 1)) == j
      && HandleOwner(pts, glyphVariant, Ix(l, j, 2)) == j
      && HandleOwner(pts, glyphVariant, Ix(l, j, 3)) == -1
  {
    var l := |pts|;
    SegmentLength(pts, j, glyphVariant);
    SegmentsApart(pts, j, glyphVariant);
    IxAdd(l, j, 1, l - 1);
    IxAdd(l, j, 2, l - 1);
    IxAdd(l, j, 2, l - 2);
    IxPeriod(l, j, 1);
    var w1, w2 := Ix(l, j, l - 1), Ix(l, j, l - 2);
    IxAdd(l, w1, 1, 2);
    IxAdd(l, j, l - 1, 3);
    IxPeriod(l, j, 2);
    IxAdd(l, w2, 2, 1);
    IxAdd(l, j, l - 2, 3);
    IxAdd(l, j, l - 2, 1);
    IxPeriod(l, j, 1);
  }

  /** One point, before and after the segment found at `j` is tunnified. */
  lemma TunnifyStepPoint(rule: HandleRule, pts: seq<Point>, glyphVariant: bool, j: int, k: int)
    requires 0 <= j < |pts| && SegmentAt(pts, j, glyphVariant) && 0 <= k < |pts|
    ensures var l, h := |pts|, SegmentHandles(rule, pts, j);
      TunnifiedPoint(rule, pts, glyphVariant, j + 3, k)
      == if k == Ix(l, j, 1) then MovedTo(pts[k], h.0)
         else if k == Ix(l, j, 2) then MovedTo(pts[k], h.1)
         else TunnifiedPoint(rule, pts, glyphVariant, j, k)
  {
    var l := |pts|;
    SegmentOwners(pts, glyphVariant, j);
    SegmentsApart(pts, j, glyphVariant);
    SegmentLength(pts, j, glyphVariant);
    var w := HandleOwner(pts, glyphVariant, k);
    assert !(j < w < j + 3) by {
      if j + 1 < l {
        assert Ix(l, j, 1) == j + 1;
      }
      if j + 2 < l {
        assert Ix(l, j, 2) == j + 2;
      }
    }
  }

  /**
   * At a segment found at `j`, its four points are still the original
   * ones, and replacing its two handles by the handles `rule` gives
   * those points tunnifies every segment found up to `j + 2`.
   */
  lemma TunnifyStep(rule: HandleRule, pts: seq<Point>, glyphVariant: bool, j: int)
    requires 0 <= j < |pts| && SegmentAt(pts, j, glyphVariant)
    ensures var l, s := |pts|, TunnifiedUpTo(rule, pts, glyphVariant, j);
      var h := SegmentHandles(rule, pts, j);
      && s[j] == pts[j] && s[Ix(l, j, 1)] == pts[Ix(l, j, 1)]
      && s[Ix(l, j, 2)] == pts[Ix(l, j, 2)] && s[Ix(l, j, 3)] == pts[Ix(l, j, 3)]
      && TunnifiedUpTo(rule, pts, glyphVariant, j + 3)
         == s[Ix(l, j, 1) := MovedTo(pts[Ix(l, j, 1)], h.0)][Ix(l, j, 2) := MovedTo(pts[Ix(l, j, 2)], h.1)]
  {
    var l := |pts|;
    SegmentOwners(pts, glyphVariant, j);
    var h := SegmentHandles(rule, pts, j);
    var s := TunnifiedUpTo(rule, pts, glyphVariant, j);
    var r := TunnifiedUpTo(rule, pts, glyphVariant, j + 3);
    var u := s[Ix(l, j, 1) := MovedTo(pts[Ix(l, j, 1)], h.0)][Ix(l, j, 2) := MovedTo(pts[Ix(l, j, 2)], h.1)];
    forall k | 0 <= k < l
      ensures r[k] == u[k]
    {
      TunnifyStepPoint(rule, pts, glyphVariant, j, k);
    }
  }

  /** Past the last point, nothing more is tunnified. */
  lemma TunnifiedBeyond(rule: HandleRule, pts: seq<Point>, glyphVariant: bool, n: int)
    requires n >= |pts|
    ensures TunnifiedUpTo(rule, pts, glyphVariant, n) == Tunnified(rule, pts, glyphVariant)
  {
    var r, s := TunnifiedUpTo(rule, pts, glyphVariant, n), Tunnified(rule, pts, glyphVariant);
    assert forall k | 0 <= k < |pts| :: r[k] == s[k];
  }

  // ---------------------------------------------------------------------
  // What the walk achieves

  /**
   * Every segment found on the original contour gets the handles the rule
   * gives for its original four points; its nodes stay.
   */
  lemma TunnifiedSegment(rule: HandleRule, pts: seq<Point>, glyphVariant: bool, j: int)
    requires 0 <= j < |pts| && SegmentAt(pts, j, glyphVariant)
    ensures var l, r, h := |pts|, Tunnified(rule, pts, glyphVariant), SegmentHandles(rule, pts, j);
      && r[j] == pts[j] && r[Ix(l, j, 3)] == pts[Ix(l, j, 3)]
      && r[Ix(l, j, 1)] == MovedTo(pts[Ix(l, j, 1)], h.0)
      && r[Ix(l, j, 2)] == MovedTo(pts[Ix(l, j, 2)], h.1)
  {
    SegmentOwners(pts, glyphVariant, j);
    SegmentLength(pts, j, glyphVariant);
  }

  /**
   * Tunnifying keeps the number of points and every flag, never moves a
   * node, and moves only handles of segments found.
   */
  lemma TunnifiedFrame(rule: HandleRule, pts: seq<Point>, glyphVariant: bool, k: int)
    requires 0 <= k < |pts|
    ensures SameFlags(Tunnified(rule, pts, glyphVariant), pts)
    ensures pts[k].onCurve ==> Tunnified(rule, pts, glyphVariant)[k] == pts[k]
    ensures Tunnified(rule, pts, glyphVariant)[k] != pts[k] ==>
      exists w :: 0 <= w < |pts| && SegmentAt(pts, w, glyphVariant)
                  && (k == Ix(|pts|, w, 1) || k == Ix(|pts|, w, 2))
  {
    TunnifiedFlags(rule, pts, glyphVariant, |pts|);
    var w := HandleOwner(pts, glyphVariant, k);
    if w >= 0 {
      assert 0 <= w < |pts| && SegmentAt(pts, w, glyphVariant);
    }
  }

  /**
   * With the exact square root, at every segment found where `tunnify`
   * applies, the two new handles are moved from their nodes by one and the
   * same fraction t >= 0 of the way toward the corner point, t the mean of
   * the original depths; where it does not apply, the handles stay.
   */
  lemma TunnifiedBalanced(sqrt: real -> real, pts: seq<Point>, glyphVariant: bool, j: int)
    requires IsSqrt(sqrt) && 0 <= j < |pts| && SegmentAt(pts, j, glyphVariant)
    ensures var l, r := |pts|, Tunnified(TunnifyRule(sqrt), pts, glyphVariant);
      var a0, a1, a2, a3 := Pos(pts[j]), Pos(pts[Ix(l, j, 1)]), Pos(pts[Ix(l, j, 2)]), Pos(pts[Ix(l, j, 3)]);
      && (!TunnifyApplies(sqrt, a0, a1, a2, a3) ==> r[Ix(l, j, 1)] == pts[Ix(l, j, 1)] && r[Ix(l, j, 2)] == pts[Ix(l, j, 2)])
      && (TunnifyApplies(sqrt, a0, a1, a2, a3) ==>
           var c, t := CornerPoint(a0, a1, a2, a3).value, TunniDepth(sqrt, a0, a1, a2, a3, CornerPoint(a0, a1, a2, a3).value);
           && 0.0 <= t
           && Sub(Pos(r[Ix(l, j, 1)]), a0) == Scale(Sub(c, a0), t)
           && Sub(Pos(r[Ix(l, j, 2)]), a3) == Scale(Sub(c, a3), t)
           && Distance(sqrt, Pos(r[Ix(l, j, 1)]), a0) / Distance(sqrt, c, a0) == t
           && Distance(sqrt, Pos(r[Ix(l, j, 2)]), a3) / Distance(sqrt, c, a3) == t)
  {
    var l := |pts|;
    var a0, a1, a2, a3 := Pos(pts[j]), Pos(pts[Ix(l, j, 1)]), Pos(pts[Ix(l, j, 2)]), Pos(pts[Ix(l, j, 3)]);
    TunnifiedSegment(TunnifyRule(sqrt), pts, glyphVariant, j);
    assert SegmentHandles(TunnifyRule(sqrt), pts, j) == Tunnify(sqrt, a0, a1, a2, a3);
    if TunnifyApplies(sqrt, a0, a1, a2, a3) {
      TunnifyBalanced(sqrt, a0, a1, a2, a3);
    }
  }
}
