/**
 * The `inflection` function of the plug-in: the parameter, strictly
 * inside (0.001, 0.999), at which a cubic Bezier segment p0, p1, p2, p3
 * changes the sense of its bending, or None.
 *
 * The curvature of the segment at `t` has the sign of the wedge product of
 * its velocity and acceleration, and that product is 18 times the
 * quadratic `AA t^2 + BB t + CC` whose coefficients the plug-in writes out.
 */
module Inflections {
  import opened Geometry

  /** The z-component of the cross product of two plane vectors. */
  function Wedge(u: Coord, v: Coord): real {
    u.x * v.y - u.y * v.x
  }

  /** 0.001 < t < 0.999: the open range the plug-in accepts, excluding the end nodes. */
  predicate Interior(t: real) {
    0.001 < t < 0.999
  }

  // ---------------------------------------------------------------------
  // The coefficients, in the plug-in's naming: p0 = (a, b), p1 = (c, d),
  // p2 = (e, f), p3 = (g, h).

  function AA(p0: Coord, p1: Coord, p2: Coord, p3: Coord): real {
    var a, b, c, d, e, f, g, h := p0.x, p0.y, p1.x, p1.y, p2.x, p2.y, p3.x, p3.y;
    e * h - 2.0 * c * h + a * h - f * g + 2.0 * d * g - b * g + 3.0 * c * f
    - 2.0 * a * f - 3.0 * d * e + 2.0 * b * e + a * d - b * c
  }

  function BB(p0: Coord, p1: Coord, p2: Coord, p3: Coord): real {
    var a, b, c, d, e, f, g, h := p0.x, p0.y, p1.x, p1.y, p2.x, p2.y, p3.x, p3.y;
    c * h - a * h - d * g + b * g - 3.0 * c * f + 3.0 * a * f + 3.0 * d * e
    - 3.0 * b * e - 2.0 * a * d + 2.0 * b * c
  }

  function CC(p0: Coord, p1: Coord, p2: Coord, p3: Coord): real {
    var a, b, c, d, e, f, g, h := p0.x, p0.y, p1.x, p1.y, p2.x, p2.y, p3.x, p3.y;
    c * f - a * f - d * e + b * e + a * d - b * c
  }

  // ---------------------------------------------------------------------
  // The derivatives of the segment, in Bernstein form

  /** One coordinate of B'(t) for the control values a, b, c, d. */
  function VelocityAt(a: real, b: real, c: real, d: real, t: real): real {
    3.0 * ((1.0 - t) * (1.0 - t) * (b - a) + 2.0 * (1.0 - t) * t * (c - b) + t * t * (d - c))
  }

  /** One coordinate of B''(t) for the control values a, b, c, d. */
  function AccelerationAt(a: real, b: real, c: real, d: real, t: real): real {
    6.0 * ((1.0 - t) * (c - 2.0 * b + a) + t * (d - 2.0 * c + b))
  }

  function Velocity(p0: Coord, p1: Coord, p2: Coord, p3: Coord, t: real): Coord {
    Coord(VelocityAt(p0.x, p1.x, p2.x, p3.x, t), VelocityAt(p0.y, p1.y, p2.y, p3.y, t))
  }

  function Acceleration(p0: Coord, p1: Coord, p2: Coord, p3: Coord, t: real): Coord {
    Coord(AccelerationAt(p0.x, p1.x, p2.x, p3.x, t), AccelerationAt(p0.y, p1.y, p2.y, p3.y, t))
  }

  /**
   * B'(t) x B''(t), the numerator of the signed curvature: the segment has
   * an inflection where it changes sign.
   */
  function CurvatureNumerator(p0: Coord, p1: Coord, p2: Coord, p3: Coord, t: real): real {
    Wedge(Velocity(p0, p1, p2, p3, t), Acceleration(p0, p1, p2, p3, t))
  }

  // The power-basis differences of the control points.

  function FirstDifference(p0: Coord, p1: Coord): Coord {
    Coord(p1.x - p0.x, p1.y - p0.y)
  }

  function SecondDifference(p0: Coord, p1: Coord, p2: Coord): Coord {
    Coord(p2.x - 2.0 * p1.x + p0.x, p2.y - 2.0 * p1.y + p0.y)
  }

  function ThirdDifference(p0: Coord, p1: Coord, p2: Coord, p3: Coord): Coord {
    Coord(p3.x - 3.0 * p2.x + 3.0 * p1.x - p0.x, p3.y - 3.0 * p2.y + 3.0 * p1.y - p0.y)
  }

  /** The plug-in's expanded coefficients are wedge products of the differences. */
  lemma CoefficientsAsWedges(p0: Coord, p1: Coord, p2: Coord, p3: Coord)
    ensures AA(p0, p1, p2, p3) == Wedge(SecondDifference(p0, p1, p2), ThirdDifference(p0, p1, p2, p3))
    ensures BB(p0, p1, p2, p3) == Wedge(FirstDifference(p0, p1), ThirdDifference(p0, p1, p2, p3))
    ensures CC(p0, p1, p2, p3) == Wedge(FirstDifference(p0, p1), SecondDifference(p0, p1, p2))
  {
  }

  lemma VelocityPowerForm(a: real, b: real, c: real, d: real, t: real, u: real, v: real, w: real)
    requires u == b - a && v == c - 2.0 * b + a && w == d - 3.0 * c + 3.0 * b - a
    ensures VelocityAt(a, b, c, d, t) == 3.0 * (u + 2.0 * t * v + t * t * w)
  {
  }

  lemma AccelerationPowerForm(a: real, b: real, c: real, d: real, t: real, v: real, w: real)
    requires v == c - 2.0 * b + a && w == d - 3.0 * c + 3.0 * b - a
    ensures AccelerationAt(a, b, c, d, t) == 6.0 * (v + t * w)
  {
  }

  lemma WedgeExpansion(u: Coord, v: Coord, w: Coord, t: real, p: Coord, q: Coord, aa: real, bb: real, cc: real)
    requires p.x == 3.0 * (u.x + 2.0 * t * v.x + t * t * w.x) && p.y == 3.0 * (u.y + 2.0 * t * v.y + t * t * w.y)
    requires q.x == 6.0 * (v.x + t * w.x) && q.y == 6.0 * (v.y + t * w.y)
    requires aa == Wedge(v, w) && bb == Wedge(u, w) && cc == Wedge(u, v)
    ensures Wedge(p, q) == 18.0 * (aa * t * t + bb * t + cc)
  {
  }

  lemma HodographPowerForm(p0: Coord, p1: Coord, p2: Coord, p3: Coord, t: real,
                           u: Coord, v: Coord, w: Coord, p: Coord, q: Coord)
    requires u == FirstDifference(p0, p1) && v == SecondDifference(p0, p1, p2)
    requires w == ThirdDifference(p0, p1, p2, p3)
    requires p == Velocity(p0, p1, p2, p3, t) && q == Acceleration(p0, p1, p2, p3, t)
    ensures p.x == 3.0 * (u.x + 2.0 * t * v.x + t * t * w.x) && p.y == 3.0 * (u.y + 2.0 * t * v.y + t * t * w.y)
    ensures q.x == 6.0 * (v.x + t * w.x) && q.y == 6.0 * (v.y + t * w.y)
  {
    VelocityPowerForm(p0.x, p1.x, p2.x, p3.x, t, u.x, v.x, w.x);
    VelocityPowerForm(p0.y, p1.y, p2.y, p3.y, t, u.y, v.y, w.y);
    AccelerationPowerForm(p0.x, p1.x, p2.x, p3.x, t, v.x, w.x);
    AccelerationPowerForm(p0.y, p1.y, p2.y, p3.y, t, v.y, w.y);
  }

  lemma CoefficientNames(p0: Coord, p1: Coord, p2: Coord, p3: Coord,
                         u: Coord, v: Coord, w: Coord, aa: real, bb: real, cc: real)
    requires u == FirstDifference(p0, p1) && v == SecondDifference(p0, p1, p2)
    requires w == ThirdDifference(p0, p1, p2, p3)
    requires aa == AA(p0, p1, p2, p3) && bb == BB(p0, p1, p2, p3) && cc == CC(p0, p1, p2, p3)
    ensures aa == Wedge(v, w) && bb == Wedge(u, w) && cc == Wedge(u, v)
  {
    CoefficientsAsWedges(p0, p1, p2, p3);
  }

  /**
   * The quadratic the plug-in solves is the curvature numerator divided by
   * 18; `aa`, `bb`, `cc` name its coefficients.
   */
  lemma CurvatureIdentity(p0: Coord, p1: Coord, p2: Coord, p3: Coord, t: real, aa: real, bb: real, cc: real)
    requires aa == AA(p0, p1, p2, p3) && bb == BB(p0, p1, p2, p3) && cc == CC(p0, p1, p2, p3)
    ensures CurvatureNumerator(p0, p1, p2, p3, t) == 18.0 * (aa * t * t + bb * t + cc)
  {
    var u, v, w := FirstDifference(p0, p1), SecondDifference(p0, p1, p2), ThirdDifference(p0, p1, p2, p3);
    var p, q := Velocity(p0, p1, p2, p3, t), Acceleration(p0, p1, p2, p3, t);
    HodographPowerForm(p0, p1, p2, p3, t, u, v, w, p, q);
    CoefficientNames(p0, p1, p2, p3, u, v, w, aa, bb, cc);
    WedgeExpansion(u, v, w, t, p, q, aa, bb, cc);
  }

  // ---------------------------------------------------------------------
  // Roots of a quadratic

  lemma ZeroProduct(a: real, b: real)
    requires a * b == 0.0
    ensures a == 0.0 || b == 0.0
  {
  }

  lemma NonzeroProduct(a: real, b: real)
    requires a != 0.0 && b != 0.0
    ensures a * b != 0.0
  {
  }

  /** Both values of the quadratic formula solve the equation. */
  lemma QuadraticRoot(aa: real, bb: real, cc: real, s: real, t: real)
    requires aa != 0.0 && s * s == bb * bb - 4.0 * aa * cc
    requires t == (-bb + s) / (2.0 * aa) || t == (-bb - s) / (2.0 * aa)
    ensures aa * t * t + bb * t + cc == 0.0
  {
    var u := 2.0 * aa * t + bb;
    assert u == s || u == -s;
    assert u * u == s * s;
    assert 4.0 * aa * (aa * t * t + bb * t + cc) == u * u - (bb * bb - 4.0 * aa * cc);
  }

  /** ... and no other value does. */
  lemma QuadraticRootsOnly(aa: real, bb: real, cc: real, s: real, t: real)
    requires aa != 0.0 && s * s == bb * bb - 4.0 * aa * cc
    requires aa * t * t + bb * t + cc == 0.0
    ensures t == (-bb + s) / (2.0 * aa) || t == (-bb - s) / (2.0 * aa)
  {
    var u := 2.0 * aa * t + bb;
    assert u * u == 4.0 * aa * (aa * t * t + bb * t + cc) + (bb * bb - 4.0 * aa * cc);
    assert u * u == s * s;
    var m, p := u - s, u + s;
    assert m * p == 0.0;
    ZeroProduct(m, p);
  }

  /**
   * With `aa` zero the equation is linear: no interior root if `bb` is not
   * zero and `-cc / bb` is outside the range, or if only `cc` is not zero.
   */
  lemma LinearNoRoot(aa: real, bb: real, cc: real, t: real)
    requires aa == 0.0 && Interior(t)
    requires bb != 0.0 ==> !Interior(-cc / bb)
    requires bb == 0.0 ==> cc != 0.0
    ensures aa * t * t + bb * t + cc != 0.0
  {
    assert aa * t * t == 0.0;
    if bb != 0.0 {
      var r := -cc / bb;
      assert t != r;
      var d := t - r;
      assert bb * t + cc == bb * d;
      NonzeroProduct(bb, d);
    }
  }

  /** A quadratic with negative discriminant has no real root. */
  lemma NoRealRoot(aa: real, bb: real, cc: real, t: real)
    requires bb * bb - 4.0 * aa * cc < 0.0
    ensures aa * t * t + bb * t + cc != 0.0
  {
    var u := 2.0 * aa * t + bb;
    assert 0.0 <= u * u;
    assert u * u - (bb * bb - 4.0 * aa * cc) == 4.0 * aa * (aa * t * t + bb * t + cc);
  }

  // ---------------------------------------------------------------------
  // inflection

  /**
   * The inflection parameter of the segment, as the plug-in intends it:
   * when AA is zero the root `-CC / BB` of the linear equation; otherwise
   * the root `(-BB + sqrt(D)) / (2 AA)` of the quadratic if it is in the
   * interior range, else `(-BB - sqrt(D)) / (2 AA)` if that one is; None
   * when no candidate is in the range.
   */
  function Inflection(sqrt: real -> real, p0: Coord, p1: Coord, p2: Coord, p3: Coord): (r: Option<real>)
    ensures r.Some? ==> Interior(r.value)
    ensures AA(p0, p1, p2, p3) == 0.0 ==>
      (r.Some? <==> BB(p0, p1, p2, p3) != 0.0 && Interior(-CC(p0, p1, p2, p3) / BB(p0, p1, p2, p3)))
  {
    var aa, bb, cc := AA(p0, p1, p2, p3), BB(p0, p1, p2, p3), CC(p0, p1, p2, p3);
    if aa == 0.0 && bb != 0.0 && Interior(-cc / bb) then
      Some(-cc / bb)
    else
      QuadraticBranch(sqrt, aa, bb, cc)
  }

  /** The quadratic branch, shared by both versions of `inflection`. */
  function QuadraticBranch(sqrt: real -> real, aa: real, bb: real, cc: real): (r: Option<real>)
    ensures r.Some? ==> Interior(r.value) && aa != 0.0
  {
    var discriminant := bb * bb - 4.0 * aa * cc;
    if discriminant >= 0.0 && aa != 0.0 then
      var t1 := (-bb + Root(sqrt, discriminant)) / (2.0 * aa);
      var t2 := (-bb - Root(sqrt, discriminant)) / (2.0 * aa);
      if Interior(t1) then Some(t1)
      else if Interior(t2) then Some(t2)
      else None
    else
      None
  }

  /** With the exact square root, a value of the quadratic branch solves the quadratic. */
  lemma QuadraticBranchIsRoot(sqrt: real -> real, aa: real, bb: real, cc: real, t: real)
    requires IsSqrt(sqrt)
    requires QuadraticBranch(sqrt, aa, bb, cc) == Some(t)
    ensures aa * t * t + bb * t + cc == 0.0
  {
    var discriminant := bb * bb - 4.0 * aa * cc;
    var s := Root(sqrt, discriminant);
    assert s * s == discriminant;
    QuadraticRoot(aa, bb, cc, s, t);
  }

  /**
   * With the exact square root, when the quadratic branch yields nothing
   * and AA is not zero, no interior parameter solves the quadratic.
   */
  lemma QuadraticBranchComplete(sqrt: real -> real, aa: real, bb: real, cc: real, t: real)
    requires IsSqrt(sqrt)
    requires aa != 0.0 && QuadraticBranch(sqrt, aa, bb, cc).None? && Interior(t)
    ensures aa * t * t + bb * t + cc != 0.0
  {
    var discriminant := bb * bb - 4.0 * aa * cc;
    if discriminant < 0.0 {
      NoRealRoot(aa, bb, cc, t);
    } else if aa * t * t + bb * t + cc == 0.0 {
      var s := Root(sqrt, discriminant);
      assert s * s == discriminant;
      QuadraticRootsOnly(aa, bb, cc, s, t);
      assert false;
    }
  }

  /**
   * With the exact square root, the parameter `inflection` returns is a
   * zero of the curvature: an inflection of the segment.
   */
  lemma InflectionIsRoot(sqrt: real -> real, p0: Coord, p1: Coord, p2: Coord, p3: Coord, t: real)
    requires IsSqrt(sqrt)
    requires Inflection(sqrt, p0, p1, p2, p3) == Some(t)
    ensures Interior(t) && CurvatureNumerator(p0, p1, p2, p3, t) == 0.0
  {
    var aa, bb, cc := AA(p0, p1, p2, p3), BB(p0, p1, p2, p3), CC(p0, p1, p2, p3);
    if aa == 0.0 && bb != 0.0 && Interior(-cc / bb) {
      assert t * bb == -cc;
    } else {
      QuadraticBranchIsRoot(sqrt, aa, bb, cc, t);
    }
    CurvatureIdentity(p0, p1, p2, p3, t, aa, bb, cc);
  }

  /**
   * With the exact square root, when `inflection` returns None the
   * curvature vanishes nowhere in the interior range, unless it is
   * identically zero (AA, BB and CC all zero, as for a straight segment).
   */
  lemma InflectionComplete(sqrt: real -> real, p0: Coord, p1: Coord, p2: Coord, p3: Coord, t: real)
    requires IsSqrt(sqrt)
    requires Inflection(sqrt, p0, p1, p2, p3).None? && Interior(t)
    requires AA(p0, p1, p2, p3) != 0.0 || BB(p0, p1, p2, p3) != 0.0 || CC(p0, p1, p2, p3) != 0.0
    ensures CurvatureNumerator(p0, p1, p2, p3, t) != 0.0
  {
    var aa, bb, cc := AA(p0, p1, p2, p3), BB(p0, p1, p2, p3), CC(p0, p1, p2, p3);
    if aa != 0.0 {
      QuadraticBranchComplete(sqrt, aa, bb, cc, t);
    } else {
      LinearNoRoot(aa, bb, cc, t);
    }
    CurvatureIdentity(p0, p1, p2, p3, t, aa, bb, cc);
  }

  // ---------------------------------------------------------------------
  // inflection as written

  /**
   * `inflection` exactly as the plug-in writes it: its linear branch
   * divides the x coordinate of the first handle, `-c / bb`, where the
   * root of `bb t + cc = 0` is `-cc / bb`. Off the linear branch it agrees
   * with `Inflection`.
   */
  function InflectionAsWritten(sqrt: real -> real, p0: Coord, p1: Coord, p2: Coord, p3: Coord): (r: Option<real>)
    ensures r.Some? ==> Interior(r.value)
    ensures AA(p0, p1, p2, p3) == 0.0 ==>
      (r.Some? <==> BB(p0, p1, p2, p3) != 0.0 && Interior(-p1.x / BB(p0, p1, p2, p3)))
    ensures AA(p0, p1, p2, p3) == 0.0 && r.Some? ==> r.value == -p1.x / BB(p0, p1, p2, p3)
    ensures AA(p0, p1, p2, p3) != 0.0 ==> r == Inflection(sqrt, p0, p1, p2, p3)
  {
    var aa, bb, cc := AA(p0, p1, p2, p3), BB(p0, p1, p2, p3), CC(p0, p1, p2, p3);
    var c := p1.x;
    if aa == 0.0 && bb != 0.0 && Interior(-c / bb) then
      Some(-c / bb)
    else
      QuadraticBranch(sqrt, aa, bb, cc)
  }

  /**
   * The segment (0, 0), (-2, 3), (0, 2), (3, 0) has AA = 0, BB = 3 and
   * CC = -4: its curvature numerator 18 (3 t - 4) is negative on the whole
   * segment, so it has no inflection, and `Inflection` says None. The
   * plug-in's linear branch reports the spurious inflection t = 2/3.
   */
  lemma InflectionAsWrittenSpurious(sqrt: real -> real)
    ensures var p0, p1, p2, p3 := Coord(0.0, 0.0), Coord(-2.0, 3.0), Coord(0.0, 2.0), Coord(3.0, 0.0);
      && InflectionAsWritten(sqrt, p0, p1, p2, p3) == Some(2.0 / 3.0)
      && CurvatureNumerator(p0, p1, p2, p3, 2.0 / 3.0) != 0.0
      && Inflection(sqrt, p0, p1, p2, p3) == None
  {
    var p0, p1, p2, p3 := Coord(0.0, 0.0), Coord(-2.0, 3.0), Coord(0.0, 2.0), Coord(3.0, 0.0);
    assert AA(p0, p1, p2, p3) == 0.0;
    assert BB(p0, p1, p2, p3) == 3.0;
    assert CC(p0, p1, p2, p3) == -4.0;
    CurvatureIdentity(p0, p1, p2, p3, 2.0 / 3.0, 0.0, 3.0, -4.0);
  }
}
