/**
 * `tunnify` and `harmonize`: the two recomputations of handle and node
 * positions of the plug-in, from corner points, distances and the
 * inflection test.
 */
module Balance {
  import opened Geometry
  import opened Inflections

  // ---------------------------------------------------------------------
  // tunnify

  /**
   * The conditions under which `tunnify` moves the handles of the segment
   * a0, a1, a2, a3: both handles strictly on the same side of the chord
   * a0--a3, no inflection as the plug-in's `inflection` computes it (its
   * linear branch as written), a corner point of the handle lines a0--a1
   * and a2--a3, and that corner distinct from both nodes.
   */
  predicate TunnifyApplies(sqrt: real -> real, a0: Coord, a1: Coord, a2: Coord, a3: Coord) {
    && Side(a1, a0, a3) * Side(a2, a0, a3) > 0
    && InflectionAsWritten(sqrt, a0, a1, a2, a3).None?
    && CornerPoint(a0, a1, a2, a3).Some?
    && Distance(sqrt, CornerPoint(a0, a1, a2, a3).value, a0) != 0.0
    && Distance(sqrt, CornerPoint(a0, a1, a2, a3).value, a3) != 0.0
  }

  /**
   * The common relative depth the handles are moved to: the mean of the
   * two handles' distances from their nodes, each relative to the
   * distance from that node to the corner `c`.
   */
  function TunniDepth(sqrt: real -> real, a0: Coord, a1: Coord, a2: Coord, a3: Coord, c: Coord): (r: real)
    requires Distance(sqrt, c, a0) != 0.0 && Distance(sqrt, c, a3) != 0.0
    ensures var t1, t2 := Distance(sqrt, a1, a0) / Distance(sqrt, c, a0), Distance(sqrt, a2, a3) / Distance(sqrt, c, a3);
      r - t1 == t2 - r && (t1 <= r <= t2 || t2 <= r <= t1)
  {
    var t1 := Distance(sqrt, a1, a0) / Distance(sqrt, c, a0);
    var t2 := Distance(sqrt, a2, a3) / Distance(sqrt, c, a3);
    0.5 * (t1 + t2)
  }

  /**
   * Moves the handles a1 and a2 toward the corner point along their own
   * lines, both to the same relative depth; returns them unchanged when
   * `TunnifyApplies` fails.
   */
  function Tunnify(sqrt: real -> real, a0: Coord, a1: Coord, a2: Coord, a3: Coord): (r: (Coord, Coord))
    ensures !TunnifyApplies(sqrt, a0, a1, a2, a3) ==> r == (a1, a2)
    ensures TunnifyApplies(sqrt, a0, a1, a2, a3) ==>
      Cross(r.0, a0, a1) == 0.0 && Cross(r.1, a2, a3) == 0.0
  {
    if TunnifyApplies(sqrt, a0, a1, a2, a3) then
      var c := CornerPoint(a0, a1, a2, a3).value;
      var t := TunniDepth(sqrt, a0, a1, a2, a3, c);
      CrossOfEndpoint(a0, a1);
      CrossOfLerpOnLine(a0, c, t, a0, a1);
      CrossOfEndpoint(a2, a3);
      CrossOfLerpOnLine(a3, c, t, a2, a3);
      (Lerp(a0, c, t), Lerp(a3, c, t))
    else
      (a1, a2)
  }

  lemma QuotientNonnegative(x: real, d: real)
    requires 0.0 <= x && 0.0 < d
    ensures 0.0 <= x / d
  {
  }

  /** With the exact square root, the depth is not negative. */
  lemma TunniDepthNonnegative(sqrt: real -> real, a0: Coord, a1: Coord, a2: Coord, a3: Coord, c: Coord)
    requires IsSqrt(sqrt)
    requires Distance(sqrt, c, a0) != 0.0 && Distance(sqrt, c, a3) != 0.0
    ensures 0.0 <= TunniDepth(sqrt, a0, a1, a2, a3, c)
  {
    QuotientNonnegative(Distance(sqrt, a1, a0), Distance(sqrt, c, a0));
    QuotientNonnegative(Distance(sqrt, a2, a3), Distance(sqrt, c, a3));
  }

  lemma ScaledQuotient(x: real, t: real, d: real)
    requires d != 0.0 && x == t * d
    ensures x / d == t
  {
  }

  /** The point at fraction `t >= 0` from `a` toward `c` is at relative depth `t`. */
  lemma DepthAlongLerp(sqrt: real -> real, a: Coord, c: Coord, t: real, h: Coord)
    requires IsSqrt(sqrt)
    requires 0.0 <= t && h == Lerp(a, c, t) && Distance(sqrt, c, a) != 0.0
    ensures Distance(sqrt, h, a) / Distance(sqrt, c, a) == t
  {
    DistanceAlongLerp(sqrt, a, c, t);
    ScaledQuotient(Distance(sqrt, h, a), t, Distance(sqrt, c, a));
  }

  /**
   * With the exact square root, the tunnified handles sit at one and the
   * same fraction t >= 0 of the way from their nodes toward the corner
   * point, so at one relative depth, and t is the mean of the relative
   * depths of the original handles.
   */
  lemma TunnifyBalanced(sqrt: real -> real, a0: Coord, a1: Coord, a2: Coord, a3: Coord)
    requires IsSqrt(sqrt)
    requires TunnifyApplies(sqrt, a0, a1, a2, a3)
    ensures var c := CornerPoint(a0, a1, a2, a3).value;
      var r, t := Tunnify(sqrt, a0, a1, a2, a3), TunniDepth(sqrt, a0, a1, a2, a3, c);
      && 0.0 <= t
      && Sub(r.0, a0) == Scale(Sub(c, a0), t) && Sub(r.1, a3) == Scale(Sub(c, a3), t)
      && Distance(sqrt, r.0, a0) / Distance(sqrt, c, a0) == t
      && Distance(sqrt, r.1, a3) / Distance(sqrt, c, a3) == t
  {
    var c := CornerPoint(a0, a1, a2, a3).value;
    var t := TunniDepth(sqrt, a0, a1, a2, a3, c);
    var r := Tunnify(sqrt, a0, a1, a2, a3);
    assert r == (Lerp(a0, c, t), Lerp(a3, c, t));
    TunniDepthNonnegative(sqrt, a0, a1, a2, a3, c);
    LerpAsScale(a0, c, t);
    LerpAsScale(a3, c, t);
    DepthAlongLerp(sqrt, a0, c, t, r.0);
    DepthAlongLerp(sqrt, a3, c, t, r.1);
  }

  // ---------------------------------------------------------------------
  // harmonize

  /**
   * The conditions under which `harmonize` moves the node a3 = b0 between
   * the segments a0, a1, a2, a3 and b0, b1, b2, b3: the handle lines
   * a1--a2 and b1--b2 meet in a corner point `c`, `c` is not a2, and b1 is
   * not b2.
   */
  predicate HarmonizeApplies(sqrt: real -> real, a1: Coord, a2: Coord, b1: Coord, b2: Coord) {
    && CornerPoint(a1, a2, b1, b2).Some?
    && Distance(sqrt, CornerPoint(a1, a2, b1, b2).value, a2) != 0.0
    && Distance(sqrt, b1, b2) != 0.0
  }

  /** The ratio |a1 a2| / |a2 c|, in the plug-in's `pa`. */
  function RatioBefore(sqrt: real -> real, a1: Coord, a2: Coord, c: Coord): real
    requires Distance(sqrt, c, a2) != 0.0
  {
    Distance(sqrt, a1, a2) / Distance(sqrt, c, a2)
  }

  /** The ratio |c b1| / |b1 b2|, in the plug-in's `pb`. */
  function RatioAfter(sqrt: real -> real, b1: Coord, b2: Coord, c: Coord): real
    requires Distance(sqrt, b1, b2) != 0.0
  {
    Distance(sqrt, c, b1) / Distance(sqrt, b1, b2)
  }

  /** `p`, the geometric mean of the two ratios. */
  function HarmonyRatio(sqrt: real -> real, a1: Coord, a2: Coord, b1: Coord, b2: Coord, c: Coord): (p: real)
    requires IsSqrt(sqrt)
    requires Distance(sqrt, c, a2) != 0.0 && Distance(sqrt, b1, b2) != 0.0
    ensures 0.0 <= p
    ensures p * p == RatioBefore(sqrt, a1, a2, c) * RatioAfter(sqrt, b1, b2, c)
  {
    var pa, pb := RatioBefore(sqrt, a1, a2, c), RatioAfter(sqrt, b1, b2, c);
    QuotientNonnegative(Distance(sqrt, a1, a2), Distance(sqrt, c, a2));
    QuotientNonnegative(Distance(sqrt, c, b1), Distance(sqrt, b1, b2));
    MulNonnegative(pa, pb);
    Root(sqrt, pa * pb)
  }

  /**
   * The harmonized position of the node a3: the point that divides a2--b1
   * in the ratio p : 1, at fraction p / (p + 1) from a2; a3 itself when
   * `HarmonizeApplies` fails.
   */
  function Harmonize(sqrt: real -> real, a1: Coord, a2: Coord, a3: Coord, b1: Coord, b2: Coord): (r: Coord)
    requires IsSqrt(sqrt)
    ensures !HarmonizeApplies(sqrt, a1, a2, b1, b2) ==> r == a3
    ensures HarmonizeApplies(sqrt, a1, a2, b1, b2) ==> Cross(r, a2, b1) == 0.0
  {
    if HarmonizeApplies(sqrt, a1, a2, b1, b2) then
      var c := CornerPoint(a1, a2, b1, b2).value;
      var p := HarmonyRatio(sqrt, a1, a2, b1, b2, c);
      CrossOfLerp(a2, b1, p / (p + 1.0));
      Lerp(a2, b1, p / (p + 1.0))
    else
      a3
  }

  lemma HarmonyFractions(p: real, k: real, u: real)
    requires 0.0 <= p && k == p / (p + 1.0) && u == 1.0 - k
    ensures 0.0 <= k && 0.0 <= u && k == p * u
  {
    assert u == 1.0 / (p + 1.0);
  }

  /** The step from the two lengths `x = k d` and `y = u d'` (with d = d') to the ratio and the sum. */
  lemma SegmentParts(k: real, p: real, u: real, d: real, d': real, x: real, y: real)
    requires k == p * u && u == 1.0 - k && d == d'
    requires x == k * d && y == u * d'
    ensures x == p * y && x + y == d'
  {
  }

  /**
   * With the exact square root, the point at fraction `k` from `a` toward
   * `b`, where k = p (1 - k) with both fractions non-negative, lies on the
   * segment a--b and divides it in the ratio p : 1.
   */
  lemma DividesInRatio(sqrt: real -> real, a: Coord, b: Coord, p: real, k: real, u: real, r: Coord)
    requires IsSqrt(sqrt)
    requires 0.0 <= k && 0.0 <= u && u == 1.0 - k && k == p * u && r == Lerp(a, b, k)
    ensures Distance(sqrt, r, a) + Distance(sqrt, r, b) == Distance(sqrt, a, b)
    ensures Distance(sqrt, r, a) == p * Distance(sqrt, r, b)
  {
    DistanceAlongLerp(sqrt, a, b, k);
    DistanceRestOfLerp(sqrt, a, b, k, u);
    DistanceSymmetric(sqrt, a, b);
    SegmentParts(k, p, u, Distance(sqrt, b, a), Distance(sqrt, a, b), Distance(sqrt, r, a), Distance(sqrt, r, b));
  }

  /**
   * With the exact square root, the harmonized node lies on the segment
   * a2--b1 and divides it in the ratio p : 1, where p is the geometric
   * mean of the ratio |a1 a2| / |a2 c| and the ratio |c b1| / |b1 b2|.
   */
  lemma HarmonizeDivides(sqrt: real -> real, a1: Coord, a2: Coord, a3: Coord, b1: Coord, b2: Coord,
                         r: Coord, p: real)
    requires IsSqrt(sqrt)
    requires HarmonizeApplies(sqrt, a1, a2, b1, b2)
    requires r == Harmonize(sqrt, a1, a2, a3, b1, b2)
    requires p == HarmonyRatio(sqrt, a1, a2, b1, b2, CornerPoint(a1, a2, b1, b2).value)
    ensures Distance(sqrt, r, a2) + Distance(sqrt, r, b1) == Distance(sqrt, a2, b1)
    ensures Distance(sqrt, r, a2) == p * Distance(sqrt, r, b1)
  {
    var k := p / (p + 1.0);
    var u := 1.0 - k;
    assert r == Lerp(a2, b1, k);
    HarmonyFractions(p, k, u);
    DividesInRatio(sqrt, a2, b1, p, k, u, r);
  }
}
