/**
 * Contours as the plug-in edits them: a closed cyclic sequence of points,
 * each with coordinates, an on-curve flag and a selection flag, held by a
 * `Contour` object whose point list the operations rewrite in place.
 * `split` subdivides one cubic segment at a parameter by De Casteljau's
 * construction.
 */
module Contours {
  import opened Geometry

  datatype Point = Point(x: real, y: real, onCurve: bool, selected: bool)

  function Pos(p: Point): Coord {
    Coord(p.x, p.y)
  }

  /** The point `p` moved to `c`, with its flags kept. */
  function MovedTo(p: Point, c: Coord): Point {
    p.(x := c.x, y := c.y)
  }

  /** A point created by the plug-in: FontForge creates points unselected. */
  function NewPoint(c: Coord, onCurve: bool): Point {
    Point(c.x, c.y, onCurve, false)
  }

  /** A closed FontForge contour. */
  class Contour {
    var points: seq<Point>

    constructor (points: seq<Point>)
      ensures this.points == points
    {
      this.points := points;
    }
  }

  // ---------------------------------------------------------------------
  // split

  /** What `split` does: rewrites the segment, ignores the call, or raises IndexError. */
  datatype SplitOutcome = Done | Ignored | IndexOutOfRange

  /**
   * The guard of `split`, evaluated left to right as in the plug-in: the
   * two handle reads `c[i+1]` and `c[i+2]` are not taken modulo the length,
   * so they raise IndexError when they run past the end.
   */
  function SplitCheck(pts: seq<Point>, i: int, t: real): (r: SplitOutcome)
    ensures r == Done <==>
      && 0.0 < t < 1.0 && 0 <= i && i + 2 < |pts|
      && pts[i].onCurve && !pts[i + 1].onCurve && !pts[i + 2].onCurve
      && pts[(i + 3) % |pts|].onCurve
    ensures r == IndexOutOfRange <==>
      && 0.0 < t < 1.0 && 0 <= i < |pts| && pts[i].onCurve
      && (i + 1 == |pts| || (!pts[i + 1].onCurve && i + 2 == |pts|))
  {
    var l := |pts|;
    if !(0.0 < t < 1.0 && 0 <= i < l && pts[i].onCurve) then Ignored
    else if i + 1 >= l then IndexOutOfRange
    else if pts[i + 1].onCurve then Ignored
    else if i + 2 >= l then IndexOutOfRange
    else if pts[i + 2].onCurve then Ignored
    else if !pts[(i + 3) % l].onCurve then Ignored
    else Done
  }

  /**
   * The two segments the plug-in builds from p0, p1, p2, p3 split at `t`:
   * p0, q1, q2, q3 and q3, r1, r2, p3, all new points.
   */
  function DoubleSegment(p0: Coord, p1: Coord, p2: Coord, p3: Coord, t: real): (ds: seq<Point>)
    ensures |ds| == 7
  {
    var q1 := Lerp(p0, p1, t);
    var m := Lerp(p1, p2, t);
    var r2 := Lerp(p2, p3, t);
    var r1 := Lerp(m, r2, t);
    var q2 := Lerp(q1, m, t);
    var q3 := Lerp(q2, r1, t);
    [NewPoint(p0, true), NewPoint(q1, false), NewPoint(q2, false), NewPoint(q3, true),
     NewPoint(r1, false), NewPoint(r2, false), NewPoint(p3, true)]
  }

  /** `makeFirst(k)`: rotate so that the point at index `k` comes first. */
  function MakeFirst(s: seq<Point>, k: int): (r: seq<Point>)
    requires 0 <= k <= |s|
    ensures |r| == |s|
    ensures forall n :: 0 <= n < |s| - k ==> r[n] == s[n + k]
    ensures forall n :: |s| - k <= n < |s| ==> r[n] == s[n + k - |s|]
  {
    s[k..] + s[..k]
  }

  /** The slice assignment `c[0:4] = ds`, which replaces at most the first four points. */
  function ReplaceFront(s: seq<Point>, ds: seq<Point>): (r: seq<Point>)
    ensures |s| >= 4 ==> r == ds + s[4..]
    ensures |s| < 4 ==> r == ds
  {
    if |s| <= 4 then ds else ds + s[4..]
  }

  /** The two new segments for the segment starting at point `i`. */
  function SegmentSplit(pts: seq<Point>, i: int, t: real): (ds: seq<Point>)
    requires SplitCheck(pts, i, t) == Done
    ensures |ds| == 7
  {
    DoubleSegment(Pos(pts[i]), Pos(pts[i + 1]), Pos(pts[i + 2]), Pos(pts[(i + 3) % |pts|]), t)
  }

  /**
   * The rewrite of the four points from `i` on by the seven points `ds`:
   * rotate, replace the front, rotate back when the segment closes the
   * contour, and replace the slice i .. i + 4 otherwise.
   */
  function Splice(pts: seq<Point>, i: int, ds: seq<Point>): (r: seq<Point>)
    requires 0 <= i && i + 3 <= |pts| && |ds| == 7
    ensures |pts| >= 4 ==> |r| == |pts| + 3
    ensures |pts| < 4 ==> |r| == 7
  {
    var l := |pts|;
    if i + 3 == l then
      MakeFirst(ReplaceFront(MakeFirst(pts, i), ds), l + 3 - i)
    else
      pts[..i] + ds + pts[i + 4..]
  }

  /** The point list after a `split` that does its work. */
  function SplitResult(pts: seq<Point>, i: int, t: real): (r: seq<Point>)
    requires SplitCheck(pts, i, t) == Done
    ensures |pts| >= 4 ==> |r| == |pts| + 3
    ensures |pts| == 3 ==> |r| == 7
  {
    Splice(pts, i, SegmentSplit(pts, i, t))
  }

  /**
   * Splits the segment starting at point `i` of `c` at parameter `t`,
   * replacing its four points by the seven of the two halves. When the
   * segment closes the contour (i + 3 == l) the point list is rotated so that
   * the segment comes first, rewritten, and rotated back.
   */
  method Split(c: Contour, i: int, t: real) returns (outcome: SplitOutcome)
    modifies c
    ensures outcome == SplitCheck(old(c.points), i, t)
    ensures outcome == Done ==> c.points == SplitResult(old(c.points), i, t)
    ensures outcome != Done ==> c.points == old(c.points)
  {
    var l := |c.points|;
    outcome := SplitCheck(c.points, i, t);
    if outcome != Done {
      return;
    }
    var a, b, e, g := c.points[i], c.points[i + 1], c.points[i + 2], c.points[(i + 3) % l];
    // De Casteljau, with the plug-in's reuse of q2 for the middle point
    var q1 := Lerp(Pos(a), Pos(b), t);
    var q2 := Lerp(Pos(b), Pos(e), t);
    var r2 := Lerp(Pos(e), Pos(g), t);
    var r1 := Lerp(q2, r2, t);
    q2 := Lerp(q1, q2, t);
    var q3 := Lerp(q2, r1, t);
    var doublesegment := [
      NewPoint(Pos(a), true), NewPoint(q1, false), NewPoint(q2, false), NewPoint(q3, true),
      NewPoint(r1, false), NewPoint(r2, false), NewPoint(Pos(g), true)];
    assert doublesegment == SegmentSplit(c.points, i, t);
    if i + 3 == l {
      c.points := MakeFirst(c.points, i);
      c.points := ReplaceFront(c.points, doublesegment);
      c.points := MakeFirst(c.points, l + 3 - i);
    } else {
      c.points := c.points[..i] + doublesegment + c.points[i + 4..];
    }
  }

  // ---------------------------------------------------------------------
  // What split computes

  /** One coordinate of the linear interpolation `Lerp`. */
  function Mix(a: real, b: real, t: real): real {
    a + t * (b - a)
  }

  /** One coordinate of the cubic Bezier curve with control values a, b, c, d, in Bernstein form. */
  function BezierAt(a: real, b: real, c: real, d: real, t: real): real {
    (1.0 - t) * (1.0 - t) * (1.0 - t) * a + 3.0 * (1.0 - t) * (1.0 - t) * t * b
    + 3.0 * (1.0 - t) * t * t * c + t * t * t * d
  }

  /** The point at parameter `t` of the segment p0, p1, p2, p3. */
  function BezierPoint(p0: Coord, p1: Coord, p2: Coord, p3: Coord, t: real): Coord {
    Coord(BezierAt(p0.x, p1.x, p2.x, p3.x, t), BezierAt(p0.y, p1.y, p2.y, p3.y, t))
  }

  lemma QuadraticDeCasteljau(a: real, b: real, c: real, t: real)
    ensures Mix(Mix(a, b, t), Mix(b, c, t), t) == (1.0 - t) * (1.0 - t) * a + 2.0 * (1.0 - t) * t * b + t * t * c
  {
  }

  lemma CubicDeCasteljau(a: real, b: real, c: real, d: real, t: real)
    ensures Mix(Mix(Mix(a, b, t), Mix(b, c, t), t), Mix(Mix(b, c, t), Mix(c, d, t), t), t) == BezierAt(a, b, c, d, t)
  {
    QuadraticDeCasteljau(a, b, c, t);
    QuadraticDeCasteljau(b, c, d, t);
  }

  lemma LerpByCoordinates(a: Coord, b: Coord, t: real)
    ensures Lerp(a, b, t) == Coord(Mix(a.x, b.x, t), Mix(a.y, b.y, t))
  {
  }

  /** De Casteljau's construction at `t` yields the point of the curve at `t`. */
  lemma DeCasteljauPoint(p0: Coord, p1: Coord, p2: Coord, p3: Coord, t: real)
    ensures Lerp(Lerp(Lerp(p0, p1, t), Lerp(p1, p2, t), t), Lerp(Lerp(p1, p2, t), Lerp(p2, p3, t), t), t)
         == BezierPoint(p0, p1, p2, p3, t)
  {
    var q1, m, r2 := Lerp(p0, p1, t), Lerp(p1, p2, t), Lerp(p2, p3, t);
    var q2, r1 := Lerp(q1, m, t), Lerp(m, r2, t);
    LerpByCoordinates(p0, p1, t);
    LerpByCoordinates(p1, p2, t);
    LerpByCoordinates(p2, p3, t);
    LerpByCoordinates(q1, m, t);
    LerpByCoordinates(m, r2, t);
    LerpByCoordinates(q2, r1, t);
    CubicDeCasteljau(p0.x, p1.x, p2.x, p3.x, t);
    CubicDeCasteljau(p0.y, p1.y, p2.y, p3.y, t);
  }

  /**
   * The seven points of the double segment: the flags read on, off, off,
   * on, off, off, on, none is selected, the two ends keep the positions of
   * the original nodes, the outer handles lie at fraction `t` along the
   * original handle lines, and the shared node q3 is the point of the
   * original curve at `t`, with its two handles on one line through it.
   */
  lemma DoubleSegmentShape(p0: Coord, p1: Coord, p2: Coord, p3: Coord, t: real)
    ensures var ds := DoubleSegment(p0, p1, p2, p3, t);
      && ds[0].onCurve && !ds[1].onCurve && !ds[2].onCurve && ds[3].onCurve
      && !ds[4].onCurve && !ds[5].onCurve && ds[6].onCurve
      && (forall n :: 0 <= n < 7 ==> !ds[n].selected)
      && Pos(ds[0]) == p0 && Pos(ds[6]) == p3
      && Pos(ds[1]) == Lerp(p0, p1, t) && Pos(ds[5]) == Lerp(p2, p3, t)
      && Pos(ds[2]) == Lerp(Pos(ds[1]), Lerp(p1, p2, t), t)
      && Pos(ds[4]) == Lerp(Lerp(p1, p2, t), Pos(ds[5]), t)
      && Pos(ds[3]) == BezierPoint(p0, p1, p2, p3, t)
      && Cross(Pos(ds[3]), Pos(ds[2]), Pos(ds[4])) == 0.0
  {
    var ds := DoubleSegment(p0, p1, p2, p3, t);
    DeCasteljauPoint(p0, p1, p2, p3, t);
    CrossOfLerp(Pos(ds[2]), Pos(ds[4]), t);
    assert Pos(ds[3]) == Lerp(Pos(ds[2]), Pos(ds[4]), t);
    SideRotated(Pos(ds[3]), Pos(ds[2]), Pos(ds[4]));
  }

  /** A cubic in the power basis, with coefficients `e1`, `e2`, `e3` over its value `a` at 0. */
  function PowerForm(a: real, e1: real, e2: real, e3: real, x: real): real {
    a + 3.0 * e1 * x + 3.0 * e2 * x * x + e3 * x * x * x
  }

  /** The power-basis coefficients of the control values a, b, c, d. */
  function Coef1(a: real, b: real): real {
    b - a
  }

  function Coef2(a: real, b: real, c: real): real {
    c - 2.0 * b + a
  }

  function Coef3(a: real, b: real, c: real, d: real): real {
    d - 3.0 * c + 3.0 * b - a
  }

  lemma BezierAsPowerForm(a: real, b: real, c: real, d: real, x: real)
    ensures BezierAt(a, b, c, d, x) == PowerForm(a, Coef1(a, b), Coef2(a, b, c), Coef3(a, b, c, d), x)
  {
  }

  /** Evaluating at `s t` is evaluating the cubic with coefficients scaled by t, t^2, t^3 at `s`. */
  lemma PowerFormScaled(a: real, e1: real, e2: real, e3: real, s: real, t: real)
    ensures PowerForm(a, e1, e2, e3, s * t) == PowerForm(a, e1 * t, e2 * (t * t), e3 * (t * t * t), s)
  {
    var x := s * t;
    assert x * x == (s * s) * (t * t);
    assert x * x * x == (s * s * s) * (t * t * t);
  }

  /**
   * The six interpolations of De Casteljau's construction at `t`: q1, m, r2
   * on the control polygon a, b, c, d, then q2 and r1, then q3.
   */
  predicate DeCasteljau(a: real, b: real, c: real, d: real, t: real,
                        q1: real, m: real, r2: real, q2: real, r1: real, q3: real) {
    && q1 == Mix(a, b, t) && m == Mix(b, c, t) && r2 == Mix(c, d, t)
    && q2 == Mix(q1, m, t) && r1 == Mix(m, r2, t) && q3 == Mix(q2, r1, t)
  }

  /** The power-basis coefficients of a, q1, q2, q3 are those of a, b, c, d scaled by t, t^2, t^3. */
  predicate ScaledCoefficients(a: real, b: real, c: real, d: real, t: real, q1: real, q2: real, q3: real) {
    && Coef1(a, q1) == Coef1(a, b) * t
    && Coef2(a, q1, q2) == Coef2(a, b, c) * (t * t)
    && Coef3(a, q1, q2, q3) == Coef3(a, b, c, d) * (t * t * t)
  }

  /** `q` is the linear polynomial a + e1 t. */
  predicate LinearIn(a: real, e1: real, t: real, q: real) {
    q == a + e1 * t
  }

  /** `q` is the quadratic polynomial a + 2 e1 t + e2 t^2. */
  predicate QuadraticIn(a: real, e1: real, e2: real, t: real, q: real) {
    q == a + 2.0 * e1 * t + e2 * (t * t)
  }

  /** The coefficients of b, c, d in terms of those of a, b, c, d. */
  predicate Shifted(a: real, b: real, c: real, d: real) {
    && b == a + Coef1(a, b)
    && Coef1(b, c) == Coef1(a, b) + Coef2(a, b, c)
    && Coef2(b, c, d) == Coef2(a, b, c) + Coef3(a, b, c, d)
  }

  /** The first half a, q1, q2, q3 of De Casteljau's construction has those coefficients. */
  lemma DeCasteljauCoefficients(a: real, b: real, c: real, d: real, t: real,
                                q1: real, m: real, r2: real, q2: real, r1: real, q3: real)
    requires DeCasteljau(a, b, c, d, t, q1, m, r2, q2, r1, q3)
    ensures ScaledCoefficients(a, b, c, d, t, q1, q2, q3)
  {
    LinearPower(a, b, t, q1);
    QuadraticPower(a, b, c, t, q1, m, q2);
    QuadraticPower(b, c, d, t, m, r2, r1);
    ShiftedCoefficients(a, b, c, d);
    CubicPower(a, b, c, d, t, q1, q2, r1, q3);
  }

  lemma LinearPower(a: real, b: real, t: real, q1: real)
    requires q1 == Mix(a, b, t)
    ensures LinearIn(a, Coef1(a, b), t, q1)
  {
  }

  lemma QuadraticPower(a: real, b: real, c: real, t: real, q1: real, m: real, q2: real)
    requires q1 == Mix(a, b, t) && m == Mix(b, c, t) && q2 == Mix(q1, m, t)
    ensures QuadraticIn(a, Coef1(a, b), Coef2(a, b, c), t, q2)
  {
  }

  lemma ShiftedCoefficients(a: real, b: real, c: real, d: real)
    ensures Shifted(a, b, c, d)
  {
  }

  /** The last interpolation q3 of q2 and r1, both quadratic, gives the three coefficients. */
  lemma CubicPower(a: real, b: real, c: real, d: real, t: real, q1: real, q2: real, r1: real, q3: real)
    requires Shifted(a, b, c, d)
    requires LinearIn(a, Coef1(a, b), t, q1)
    requires QuadraticIn(a, Coef1(a, b), Coef2(a, b, c), t, q2)
    requires QuadraticIn(b, Coef1(b, c), Coef2(b, c, d), t, r1)
    requires q3 == Mix(q2, r1, t)
    ensures ScaledCoefficients(a, b, c, d, t, q1, q2, q3)
  {
    LowerPower(a, b, c, t, q1, q2);
    ThirdPower(a, b, c, d, t, q1, q2, r1, q3);
  }

  lemma LowerPower(a: real, b: real, c: real, t: real, q1: real, q2: real)
    requires LinearIn(a, Coef1(a, b), t, q1)
    requires QuadraticIn(a, Coef1(a, b), Coef2(a, b, c), t, q2)
    ensures Coef1(a, q1) == Coef1(a, b) * t && Coef2(a, q1, q2) == Coef2(a, b, c) * (t * t)
  {
    LowerCoefficients(a, Coef1(a, b), Coef2(a, b, c), t, q1, q2);
  }

  lemma ThirdPower(a: real, b: real, c: real, d: real, t: real, q1: real, q2: real, r1: real, q3: real)
    requires Shifted(a, b, c, d)
    requires LinearIn(a, Coef1(a, b), t, q1)
    requires QuadraticIn(a, Coef1(a, b), Coef2(a, b, c), t, q2)
    requires QuadraticIn(b, Coef1(b, c), Coef2(b, c, d), t, r1)
    requires q3 == Mix(q2, r1, t)
    ensures Coef3(a, q1, q2, q3) == Coef3(a, b, c, d) * (t * t * t)
  {
    ThirdCoefficient(a, b, Coef1(a, b), Coef2(a, b, c), Coef3(a, b, c, d), Coef1(b, c), Coef2(b, c, d), t, q1, q2, r1, q3);
  }

  lemma LowerCoefficients(a: real, e1: real, e2: real, t: real, q1: real, q2: real)
    requires q1 == a + e1 * t && q2 == a + 2.0 * e1 * t + e2 * (t * t)
    ensures q1 - a == e1 * t && q2 - 2.0 * q1 + a == e2 * (t * t)
  {
  }

  lemma ThirdCoefficient(a: real, b: real, e1: real, e2: real, e3: real, f1: real, f2: real, t: real,
                         q1: real, q2: real, r1: real, q3: real)
    requires b == a + e1 && f1 == e1 + e2 && f2 == e2 + e3
    requires q1 == a + e1 * t
    requires q2 == a + 2.0 * e1 * t + e2 * (t * t)
    requires r1 == b + 2.0 * f1 * t + f2 * (t * t)
    requires q3 == q2 + t * (r1 - q2)
    ensures q3 - 3.0 * q2 + 3.0 * q1 - a == e3 * (t * t * t)
  {
  }

  /** A control polygon with those coefficients traces the curve a, b, c, d on [0, t]. */
  lemma ScaledCubic(a: real, b: real, c: real, d: real, q1: real, q2: real, q3: real, t: real, s: real)
    requires ScaledCoefficients(a, b, c, d, t, q1, q2, q3)
    ensures BezierAt(a, q1, q2, q3, s) == BezierAt(a, b, c, d, s * t)
  {
    BezierAsPowerForm(a, q1, q2, q3, s);
    PowerFormScaled(a, Coef1(a, b), Coef2(a, b, c), Coef3(a, b, c, d), s, t);
    BezierAsPowerForm(a, b, c, d, s * t);
  }

  /** One coordinate of the first half of De Casteljau's subdivision at `t` traces the curve on [0, t]. */
  lemma FirstHalfAt(a: real, b: real, c: real, d: real, t: real, s: real,
                    q1: real, m: real, r2: real, q2: real, r1: real, q3: real)
    requires DeCasteljau(a, b, c, d, t, q1, m, r2, q2, r1, q3)
    ensures BezierAt(a, q1, q2, q3, s) == BezierAt(a, b, c, d, s * t)
  {
    DeCasteljauCoefficients(a, b, c, d, t, q1, m, r2, q2, r1, q3);
    ScaledCubic(a, b, c, d, q1, q2, q3, t, s);
  }

  lemma MixReversed(a: real, b: real, t: real)
    ensures Mix(a, b, t) == Mix(b, a, 1.0 - t)
  {
  }

  /** Reversed, De Casteljau's construction at `t` is the one of the reversed polygon at `1 - t`. */
  lemma DeCasteljauReversed(a: real, b: real, c: real, d: real, t: real,
                            q1: real, m: real, r2: real, q2: real, r1: real, q3: real)
    requires DeCasteljau(a, b, c, d, t, q1, m, r2, q2, r1, q3)
    ensures DeCasteljau(d, c, b, a, 1.0 - t, r2, m, q1, r1, q2, q3)
  {
    MixReversed(c, d, t);
    MixReversed(b, c, t);
    MixReversed(a, b, t);
    MixReversed(m, r2, t);
    MixReversed(q1, m, t);
    MixReversed(q2, r1, t);
  }

  /** A cubic read backwards: the control values reversed, at `y = 1 - x`. */
  lemma BezierReversedAt(a: real, b: real, c: real, d: real, x: real, y: real)
    requires x + y == 1.0
    ensures BezierAt(a, b, c, d, x) == BezierAt(d, c, b, a, y)
  {
  }

  /**
   * The parameters of the reversal: `u = 1 - t` and `w = 1 - s`; `x` on the
   * original curve and `y` on the reversed one name the same point.
   */
  predicate Reparameterized(t: real, s: real, u: real, w: real, x: real, y: real) {
    u == 1.0 - t && w == 1.0 - s && x == t + s * u && y == w * u
  }

  lemma ReparameterizedHolds(t: real, s: real)
    ensures Reparameterized(t, s, 1.0 - t, 1.0 - s, t + s * (1.0 - t), (1.0 - s) * (1.0 - t))
  {
  }

  lemma ReparameterizedSum(t: real, s: real, u: real, w: real, x: real, y: real)
    requires u == 1.0 - t && w == 1.0 - s && x == t + s * u && y == w * u
    ensures x + y == 1.0
  {
  }

  /** The second half, with the parameters of the reversal named. */
  lemma SecondHalfAtParams(a: real, b: real, c: real, d: real, t: real, s: real, u: real, w: real, x: real, y: real,
                           q1: real, m: real, r2: real, q2: real, r1: real, q3: real)
    requires Reparameterized(t, s, u, w, x, y)
    requires DeCasteljau(a, b, c, d, t, q1, m, r2, q2, r1, q3)
    ensures BezierAt(q3, r1, r2, d, s) == BezierAt(a, b, c, d, x)
  {
    DeCasteljauReversed(a, b, c, d, t, q1, m, r2, q2, r1, q3);
    FirstHalfAt(d, c, b, a, u, w, r2, m, q1, r1, q2, q3);
    BezierReversedAt(q3, r1, r2, d, s, w);
    ReparameterizedSum(t, s, u, w, x, y);
    BezierReversedAt(a, b, c, d, x, y);
  }

  /** One coordinate of the second half q3, r1, r2, d traces the curve on [t, 1]. */
  lemma SecondHalfAt(a: real, b: real, c: real, d: real, t: real, s: real,
                     q1: real, m: real, r2: real, q2: real, r1: real, q3: real)
    requires DeCasteljau(a, b, c, d, t, q1, m, r2, q2, r1, q3)
    ensures BezierAt(q3, r1, r2, d, s) == BezierAt(a, b, c, d, t + s * (1.0 - t))
  {
    ReparameterizedHolds(t, s);
    SecondHalfAtParams(a, b, c, d, t, s, 1.0 - t, 1.0 - s, t + s * (1.0 - t), (1.0 - s) * (1.0 - t), q1, m, r2, q2, r1, q3);
  }

  /**
   * The two segments `split` builds at `t` are the original curve cut at
   * `t`: the first traces it on [0, t], the second on [t, 1].
   */
  lemma DoubleSegmentHalves(p0: Coord, p1: Coord, p2: Coord, p3: Coord, t: real, s: real)
    ensures var ds := DoubleSegment(p0, p1, p2, p3, t);
      && BezierPoint(Pos(ds[0]), Pos(ds[1]), Pos(ds[2]), Pos(ds[3]), s) == BezierPoint(p0, p1, p2, p3, s * t)
      && BezierPoint(Pos(ds[3]), Pos(ds[4]), Pos(ds[5]), Pos(ds[6]), s) == BezierPoint(p0, p1, p2, p3, t + s * (1.0 - t))
  {
    var q1, m, r2 := Lerp(p0, p1, t), Lerp(p1, p2, t), Lerp(p2, p3, t);
    var q2, r1 := Lerp(q1, m, t), Lerp(m, r2, t);
    var q3 := Lerp(q2, r1, t);
    LerpByCoordinates(p0, p1, t);
    LerpByCoordinates(p1, p2, t);
    LerpByCoordinates(p2, p3, t);
    LerpByCoordinates(q1, m, t);
    LerpByCoordinates(m, r2, t);
    LerpByCoordinates(q2, r1, t);
    assert DeCasteljau(p0.x, p1.x, p2.x, p3.x, t, q1.x, m.x, r2.x, q2.x, r1.x, q3.x);
    assert DeCasteljau(p0.y, p1.y, p2.y, p3.y, t, q1.y, m.y, r2.y, q2.y, r1.y, q3.y);
    FirstHalfAt(p0.x, p1.x, p2.x, p3.x, t, s, q1.x, m.x, r2.x, q2.x, r1.x, q3.x);
    FirstHalfAt(p0.y, p1.y, p2.y, p3.y, t, s, q1.y, m.y, r2.y, q2.y, r1.y, q3.y);
    SecondHalfAt(p0.x, p1.x, p2.x, p3.x, t, s, q1.x, m.x, r2.x, q2.x, r1.x, q3.x);
    SecondHalfAt(p0.y, p1.y, p2.y, p3.y, t, s, q1.y, m.y, r2.y, q2.y, r1.y, q3.y);
  }

  // ---------------------------------------------------------------------
  // What split does to the point list

  /** The number of on-curve points, that is, of nodes. */
  function OnCurveCount(s: seq<Point>): nat {
    if |s| == 0 then 0
    else (if s[0].onCurve then 1 else 0) + OnCurveCount(s[1..])
  }

  lemma {:induction false} OnCurveCountAppend(s: seq<Point>, u: seq<Point>)
    ensures OnCurveCount(s + u) == OnCurveCount(s) + OnCurveCount(u)
  {
    if |s| == 0 {
      assert s + u == u;
    } else {
      assert (s + u)[1..] == s[1..] + u;
      OnCurveCountAppend(s[1..], u);
    }
  }

  /** The on, off, off, on, off, off, on pattern of two cubic segments. */
  predicate DoubleSegmentFlags(ds: seq<Point>) {
    && |ds| == 7
    && ds[0].onCurve && !ds[1].onCurve && !ds[2].onCurve && ds[3].onCurve
    && !ds[4].onCurve && !ds[5].onCurve && ds[6].onCurve
  }

  /** The count of a sequence is its first point's share plus the count of the rest. */
  lemma OnCurveCountStep(s: seq<Point>, k: int)
    requires 0 <= k < |s|
    ensures OnCurveCount(s[k..]) == (if s[k].onCurve then 1 else 0) + OnCurveCount(s[k + 1..])
  {
    assert s[k..][1..] == s[k + 1..];
  }

  lemma OnCurveCountOfDoubleSegment(ds: seq<Point>)
    requires DoubleSegmentFlags(ds)
    ensures OnCurveCount(ds) == 3
  {
    assert ds[7..] == [];
    OnCurveCountStep(ds, 6);
    OnCurveCountStep(ds, 5);
    OnCurveCountStep(ds, 4);
    OnCurveCountStep(ds, 3);
    OnCurveCountStep(ds, 2);
    OnCurveCountStep(ds, 1);
    OnCurveCountStep(ds, 0);
    assert ds[0..] == ds;
  }

  /** The count of the four points of an on, off, off, on segment. */
  lemma OnCurveCountOfSegment(s: seq<Point>)
    requires |s| == 4 && s[0].onCurve && !s[1].onCurve && !s[2].onCurve && s[3].onCurve
    ensures OnCurveCount(s) == 2
  {
    assert s[4..] == [];
    OnCurveCountStep(s, 3);
    OnCurveCountStep(s, 2);
    OnCurveCountStep(s, 1);
    OnCurveCountStep(s, 0);
    assert s[0..] == s;
  }

  lemma SegmentSplitFlags(pts: seq<Point>, i: int, t: real)
    requires SplitCheck(pts, i, t) == Done
    ensures DoubleSegmentFlags(SegmentSplit(pts, i, t))
  {
  }

  // Splice, for any seven points

  lemma SpliceGeneric(pts: seq<Point>, i: int, ds: seq<Point>)
    requires 0 <= i && i + 3 < |pts| && |ds| == 7
    ensures var r := Splice(pts, i, ds);
      |r| == |pts| + 3 && r[..i] == pts[..i] && r[i..i + 7] == ds && r[i + 7..] == pts[i + 4..]
  {
    var r := Splice(pts, i, ds);
    assert r == pts[..i] + ds + pts[i + 4..];
    assert r[i..i + 7] == ds;
    assert r[i + 7..] == pts[i + 4..];
  }

  lemma SpliceWrap(pts: seq<Point>, i: int, ds: seq<Point>)
    requires 1 <= i && i + 3 == |pts| && |ds| == 7
    ensures Splice(pts, i, ds) == [ds[6]] + pts[1..i] + ds[..6]
  {
    var rotated := MakeFirst(pts, i);
    assert rotated[4..] == pts[1..i];
    var front := ReplaceFront(rotated, ds);
    assert front == ds + pts[1..i];
    assert MakeFirst(front, 6) == [ds[6]] + pts[1..i] + ds[..6];
  }

  lemma SpliceWrapCount(pts: seq<Point>, i: int, ds: seq<Point>)
    requires 1 <= i && i + 3 == |pts| && DoubleSegmentFlags(ds)
    requires pts[0].onCurve && pts[i].onCurve && !pts[i + 1].onCurve && !pts[i + 2].onCurve
    ensures OnCurveCount(Splice(pts, i, ds)) == OnCurveCount(pts) + 1
  {
    SpliceWrap(pts, i, ds);
    var head, mid, tail := [ds[6]], pts[1..i], ds[..6];
    OnCurveCountAppend(head, mid);
    OnCurveCountAppend(head + mid, tail);
    OnCurveCountOfDoubleSegment(ds);
    OnCurveCountSplit(ds, 6);
    OnCurveCountStep(ds, 6);
    assert ds[7..] == [] && ds[6..] == head;
    var front := pts[..i];
    OnCurveCountSplit(pts, i);
    OnCurveCountStep(front, 0);
    assert front[1..] == mid && front[0..] == front;
    OnCurveCountStep(pts, i);
    OnCurveCountStep(pts, i + 1);
    OnCurveCountStep(pts, i + 2);
    assert pts[i + 3..] == [];
  }

  /** The count of a sequence is the sum of the counts of its two parts at `k`. */
  lemma OnCurveCountSplit(s: seq<Point>, k: int)
    requires 0 <= k <= |s|
    ensures OnCurveCount(s) == OnCurveCount(s[..k]) + OnCurveCount(s[k..])
  {
    assert s == s[..k] + s[k..];
    OnCurveCountAppend(s[..k], s[k..]);
  }

  lemma SpliceGenericCount(pts: seq<Point>, i: int, ds: seq<Point>)
    requires 0 <= i && i + 3 < |pts| && DoubleSegmentFlags(ds)
    requires pts[i].onCurve && !pts[i + 1].onCurve && !pts[i + 2].onCurve && pts[i + 3].onCurve
    ensures OnCurveCount(Splice(pts, i, ds)) == OnCurveCount(pts) + 1
  {
    var before, window, after := pts[..i], pts[i..i + 4], pts[i + 4..];
    OnCurveCountOfDoubleSegment(ds);
    OnCurveCountOfSegment(window);
    OnCurveCountAppend(before, ds);
    OnCurveCountAppend(before + ds, after);
    var front := pts[..i + 4];
    OnCurveCountSplit(pts, i + 4);
    OnCurveCountSplit(front, i);
    assert front[..i] == before && front[i..] == window;
  }

  // split

  /**
   * In the generic case (the segment does not close the contour) the seven
   * new points take the place of the four old ones: the points before `i`
   * stay where they were and the points after the segment shift by three.
   */
  lemma SplitGeneric(pts: seq<Point>, i: int, t: real)
    requires SplitCheck(pts, i, t) == Done && i + 3 < |pts|
    ensures var r := SplitResult(pts, i, t);
      && |r| == |pts| + 3
      && r[..i] == pts[..i]
      && r[i..i + 7] == DoubleSegment(Pos(pts[i]), Pos(pts[i + 1]), Pos(pts[i + 2]), Pos(pts[i + 3]), t)
      && r[i + 7..] == pts[i + 4..]
  {
    assert (i + 3) % |pts| == i + 3;
    SpliceGeneric(pts, i, SegmentSplit(pts, i, t));
  }

  /**
   * In the wrap case (the segment ends at point 0, i + 3 == l, l >= 4) the
   * contour still starts at the position of its old point 0, now a new
   * on-curve point, the points 1 .. i - 1 are untouched, and the first six
   * points of the double segment follow them.
   */
  lemma SplitWrap(pts: seq<Point>, i: int, t: real)
    requires SplitCheck(pts, i, t) == Done && i + 3 == |pts| && |pts| >= 4
    ensures var r := SplitResult(pts, i, t);
      var ds := DoubleSegment(Pos(pts[i]), Pos(pts[i + 1]), Pos(pts[i + 2]), Pos(pts[0]), t);
      && |r| == |pts| + 3
      && r[0] == ds[6]
      && r[1..i] == pts[1..i]
      && r[i..] == ds[..6]
  {
    assert (i + 3) % |pts| == 0;
    SpliceWrap(pts, i, SegmentSplit(pts, i, t));
  }

  /**
   * On a contour of three points, one segment that closes on itself, the
   * slice assignment replaces only three points: the contour grows by four
   * and its node appears twice, at index 0 and index 1.
   */
  lemma SplitSingleSegment(pts: seq<Point>, t: real)
    requires SplitCheck(pts, 0, t) == Done && |pts| == 3
    ensures var r := SplitResult(pts, 0, t);
      |r| == 7 && r[0].onCurve && r[1].onCurve && Pos(r[0]) == Pos(r[1])
  {
    var ds := SegmentSplit(pts, 0, t);
    DoubleSegmentShape(Pos(pts[0]), Pos(pts[1]), Pos(pts[2]), Pos(pts[0]), t);
    assert SplitResult(pts, 0, t) == [ds[6]] + ds[..6];
  }

  /** Away from the three-point contour, a split adds three points, one of them a node. */
  lemma SplitGrowth(pts: seq<Point>, i: int, t: real)
    requires SplitCheck(pts, i, t) == Done && |pts| >= 4
    ensures |SplitResult(pts, i, t)| == |pts| + 3
    ensures OnCurveCount(SplitResult(pts, i, t)) == OnCurveCount(pts) + 1
  {
    if i + 3 == |pts| {
      SplitWrapCount(pts, i, t);
    } else {
      SplitGenericCount(pts, i, t);
    }
  }

  lemma SplitWrapCount(pts: seq<Point>, i: int, t: real)
    requires SplitCheck(pts, i, t) == Done && i + 3 == |pts| && |pts| >= 4
    ensures OnCurveCount(SplitResult(pts, i, t)) == OnCurveCount(pts) + 1
  {
    SegmentSplitFlags(pts, i, t);
    ModSelf(i + 3, |pts|);
    SpliceWrapCount(pts, i, SegmentSplit(pts, i, t));
  }

  lemma SplitGenericCount(pts: seq<Point>, i: int, t: real)
    requires SplitCheck(pts, i, t) == Done && i + 3 < |pts|
    ensures OnCurveCount(SplitResult(pts, i, t)) == OnCurveCount(pts) + 1
  {
    SegmentSplitFlags(pts, i, t);
    ModBelow(i + 3, |pts|);
    SpliceGenericCount(pts, i, SegmentSplit(pts, i, t));
  }

  lemma ModSelf(n: int, l: int)
    requires 0 < n == l
    ensures n % l == 0
  {
  }

  lemma ModBelow(n: int, l: int)
    requires 0 <= n < l
    ensures n % l == n
  {
  }
}
