/**
 * Planar primitives of the harmonize / tunnify / inflection plug-in:
 * distance, the orientation test `side`, the approximate collinearity test
 * `on_same_line` and the line intersection `corner_point`.
 *
 * Coordinates are exact reals. The two irrational library calls of the
 * plug-in, `x ** .5` and `math.atan2`, are passed in as functions.
 */
module Geometry {

  datatype Option<T> = None | Some(value: T)

  /** A position in the plane. */
  datatype Coord = Coord(x: real, y: real)

  /** The vector from `a` to `b`. */
  function Sub(b: Coord, a: Coord): Coord {
    Coord(b.x - a.x, b.y - a.y)
  }

  function Scale(v: Coord, k: real): Coord {
    Coord(k * v.x, k * v.y)
  }

  /** The point at fraction `t` of the way from `a` to `b`. */
  function Lerp(a: Coord, b: Coord, t: real): Coord {
    Coord(a.x + t * (b.x - a.x), a.y + t * (b.y - a.y))
  }

  function Abs(x: real): real {
    if x < 0.0 then -x else x
  }

  // ---------------------------------------------------------------------
  // side

  /** The cross product that `side(p, q, r)` takes the sign of. */
  function Cross(p: Coord, q: Coord, r: Coord): real {
    (r.x - q.x) * (q.y - p.y) - (r.y - q.y) * (q.x - p.x)
  }

  /** Which side of the line from `q` through `r` the point `p` lies on. */
  function Side(p: Coord, q: Coord, r: Coord): (s: int)
    ensures s == -1 || s == 0 || s == 1
    ensures s == 1 <==> Cross(p, q, r) > 0.0
    ensures s == -1 <==> Cross(p, q, r) < 0.0
    ensures s == 0 <==> Cross(p, q, r) == 0.0
  {
    var crossproduct := Cross(p, q, r);
    if crossproduct > 0.0 then 1
    else if crossproduct < 0.0 then -1
    else 0
  }

  /** Reversing the line flips the side. */
  lemma SideReversed(p: Coord, q: Coord, r: Coord)
    ensures Side(p, r, q) == -Side(p, q, r)
  {
    assert Cross(p, r, q) == -Cross(p, q, r) by {
      var u, v := Sub(q, p), Sub(r, p);
      assert Cross(p, q, r) == v.x * u.y - v.y * u.x;
      assert Cross(p, r, q) == u.x * v.y - u.y * v.x;
    }
  }

  /**
   * The side test is the orientation of the triangle p, q, r, so it does not
   * depend on which corner the triangle is read from.
   */
  lemma SideRotated(p: Coord, q: Coord, r: Coord)
    ensures Side(q, r, p) == Side(p, q, r)
  {
    var u, v := Sub(q, p), Sub(r, p);
    assert Cross(p, q, r) == v.x * u.y - v.y * u.x;
    assert Cross(q, r, p) == v.x * u.y - v.y * u.x;
  }

  /** Both endpoints of a line lie on it. */
  lemma CrossOfEndpoint(q: Coord, r: Coord)
    ensures Cross(q, q, r) == 0.0 && Cross(r, q, r) == 0.0
  {
  }

  /** Every point of the line through `a` and `b` is collinear with them. */
  lemma CrossOfLerp(a: Coord, b: Coord, t: real)
    ensures Cross(Lerp(a, b, t), a, b) == 0.0
  {
    var p := Lerp(a, b, t);
    assert a.y - p.y == -t * (b.y - a.y);
    assert a.x - p.x == -t * (b.x - a.x);
    assert Cross(p, a, b) == (b.x - a.x) * (-t * (b.y - a.y)) - (b.y - a.y) * (-t * (b.x - a.x));
  }

  /**
   * A point between `a` and a point `c` of the line q--r is itself on that
   * line when `a` is.
   */
  lemma CrossOfLerpOnLine(a: Coord, c: Coord, t: real, q: Coord, r: Coord)
    requires Cross(a, q, r) == 0.0 && Cross(c, q, r) == 0.0
    ensures Cross(Lerp(a, c, t), q, r) == 0.0
  {
    var p := Lerp(a, c, t);
    calc {
      Cross(p, q, r);
      (r.x - q.x) * (q.y - a.y - t * (c.y - a.y)) - (r.y - q.y) * (q.x - a.x - t * (c.x - a.x));
      (1.0 - t) * Cross(a, q, r) + t * Cross(c, q, r);
    }
  }

  // ---------------------------------------------------------------------
  // distance

  /**
   * The plug-in computes square roots as `x ** .5`; the model takes the
   * root function as a parameter. `IsSqrt` says it is the exact real square
   * root on the non-negative reals.
   */
  ghost predicate IsSqrt(sqrt: real -> real) {
    && sqrt(0.0) == 0.0
    && forall x: real :: 0.0 < x ==> 0.0 < sqrt(x) && sqrt(x) * sqrt(x) == x
  }

  /** `s ** .5` */
  function Root(sqrt: real -> real, s: real): (r: real)
    ensures IsSqrt(sqrt) && s == 0.0 ==> r == 0.0
    ensures IsSqrt(sqrt) && 0.0 < s ==> 0.0 < r
    ensures IsSqrt(sqrt) && 0.0 <= s ==> r * r == s
  {
    sqrt(s)
  }

  /** Two non-negative numbers with the same square are equal. */
  lemma SquareRootUnique(m: real, r: real)
    requires 0.0 <= m && 0.0 <= r && m * m == r * r
    ensures m == r
  {
    assert (m - r) * (m + r) == 0.0;
    if m + r != 0.0 {
      assert m - r == ((m - r) * (m + r)) / (m + r);
    }
  }

  lemma MulNonnegative(a: real, b: real)
    requires 0.0 <= a && 0.0 <= b
    ensures 0.0 <= a * b
  {
  }

  lemma SquareNonnegative(x: real)
    ensures 0.0 <= x * x
  {
  }

  lemma SquarePositive(x: real)
    requires x != 0.0
    ensures 0.0 < x * x
  {
  }

  /** The squared length of a vector is non-negative, and positive unless the vector is zero. */
  lemma SquaredNormSign(v: Coord)
    ensures 0.0 <= v.x * v.x + v.y * v.y
    ensures v != Coord(0.0, 0.0) ==> 0.0 < v.x * v.x + v.y * v.y
  {
    SquareNonnegative(v.x);
    SquareNonnegative(v.y);
    if v.x != 0.0 {
      SquarePositive(v.x);
    }
    if v.y != 0.0 {
      SquarePositive(v.y);
    }
  }

  /** The length of the vector `v`. */
  function Norm(sqrt: real -> real, v: Coord): (n: real)
    ensures IsSqrt(sqrt) ==> 0.0 <= n
    ensures IsSqrt(sqrt) ==> (n == 0.0 <==> v == Coord(0.0, 0.0))
    ensures IsSqrt(sqrt) ==> n * n == v.x * v.x + v.y * v.y
  {
    SquaredNormSign(v);
    var n := Root(sqrt, v.x * v.x + v.y * v.y);
    n
  }

  /** The Euclidean distance between `a` and `b`: zero exactly when they coincide. */
  function Distance(sqrt: real -> real, a: Coord, b: Coord): (d: real)
    ensures IsSqrt(sqrt) ==> 0.0 <= d
    ensures IsSqrt(sqrt) ==> (d == 0.0 <==> a == b)
  {
    Norm(sqrt, Sub(a, b))
  }

  /** `m` is the non-negative root of `k^2 n^2` for `k, n >= 0`, so it is `k n`. */
  lemma ScaledSquareRoot(m: real, n: real, k: real)
    requires 0.0 <= m && 0.0 <= n && 0.0 <= k
    requires m * m == k * k * (n * n)
    ensures m == k * n
  {
    var r := k * n;
    MulNonnegative(k, n);
    assert r * r == k * k * (n * n);
    SquareRootUnique(m, r);
  }

  lemma ScaledNormSquares(v: Coord, w: Coord, k: real, m: real, n: real)
    requires w.x == k * v.x && w.y == k * v.y
    requires m * m == w.x * w.x + w.y * w.y && n * n == v.x * v.x + v.y * v.y
    ensures m * m == k * k * (n * n)
  {
  }

  lemma ScaledNorm(sqrt: real -> real, v: Coord, w: Coord, k: real, m: real, n: real)
    requires 0.0 <= k && w.x == k * v.x && w.y == k * v.y
    requires m == Norm(sqrt, w) && n == Norm(sqrt, v) && 0.0 <= m && 0.0 <= n
    requires m * m == w.x * w.x + w.y * w.y && n * n == v.x * v.x + v.y * v.y
    ensures Norm(sqrt, w) == k * Norm(sqrt, v)
  {
    ScaledNormSquares(v, w, k, m, n);
    ScaledSquareRoot(m, n, k);
  }

  /** With the exact square root, scaling a vector by `k >= 0` scales its length by `k`. */
  lemma NormScale(sqrt: real -> real, v: Coord, w: Coord, k: real)
    requires IsSqrt(sqrt)
    requires 0.0 <= k && w.x == k * v.x && w.y == k * v.y
    ensures Norm(sqrt, w) == k * Norm(sqrt, v)
  {
    var n, m := Norm(sqrt, v), Norm(sqrt, w);
    ScaledNorm(sqrt, v, w, k, m, n);
  }

  lemma DistanceOfScaledNorm(sqrt: real -> real, p: Coord, a: Coord, b: Coord, v: Coord, w: Coord, k: real)
    requires v == Sub(b, a) && w == Sub(p, a)
    requires Norm(sqrt, w) == k * Norm(sqrt, v)
    ensures Distance(sqrt, p, a) == k * Distance(sqrt, b, a)
  {
  }

  /** The point at fraction `t` from `a` toward `b` is `a` moved by `t` times `b - a`. */
  lemma LerpAsScale(a: Coord, b: Coord, t: real)
    ensures Sub(Lerp(a, b, t), a) == Scale(Sub(b, a), t)
  {
  }

  lemma LerpOffset(a: Coord, b: Coord, t: real, p: Coord, v: Coord, w: Coord)
    requires p == Lerp(a, b, t) && v == Sub(b, a) && w == Sub(p, a)
    ensures w.x == t * v.x && w.y == t * v.y
  {
    LerpAsScale(a, b, t);
  }

  lemma LerpRemainder(a: Coord, b: Coord, t: real, u: real, p: Coord, v: Coord, w: Coord)
    requires p == Lerp(a, b, t) && v == Sub(a, b) && w == Sub(p, b) && u == 1.0 - t
    ensures w.x == u * v.x && w.y == u * v.y
  {
  }

  lemma NegatedNormSquares(v: Coord, w: Coord, m: real, n: real)
    requires w.x == -v.x && w.y == -v.y
    requires m * m == w.x * w.x + w.y * w.y && n * n == v.x * v.x + v.y * v.y
    ensures m * m == n * n
  {
  }

  /** With the exact square root, distance is symmetric. */
  lemma DistanceSymmetric(sqrt: real -> real, a: Coord, b: Coord)
    requires IsSqrt(sqrt)
    ensures Distance(sqrt, a, b) == Distance(sqrt, b, a)
  {
    var v, w := Sub(a, b), Sub(b, a);
    var n, m := Norm(sqrt, v), Norm(sqrt, w);
    NegatedNormSquares(v, w, m, n);
    SquareRootUnique(m, n);
  }

  /**
   * With the exact square root, the point at fraction `t >= 0` from `a`
   * toward `b` is `t` times the distance from `a` to `b` away from `a`.
   */
  lemma DistanceAlongLerp(sqrt: real -> real, a: Coord, b: Coord, t: real)
    requires IsSqrt(sqrt)
    requires 0.0 <= t
    ensures Distance(sqrt, Lerp(a, b, t), a) == t * Distance(sqrt, b, a)
  {
    var p := Lerp(a, b, t);
    var v, w := Sub(b, a), Sub(p, a);
    LerpOffset(a, b, t, p, v, w);
    NormScale(sqrt, v, w, t);
    DistanceOfScaledNorm(sqrt, p, a, b, v, w, t);
  }

  /** With the exact square root, the rest of the way, `u = 1 - t`, is `u` times the distance. */
  lemma DistanceRestOfLerp(sqrt: real -> real, a: Coord, b: Coord, t: real, u: real)
    requires IsSqrt(sqrt)
    requires u == 1.0 - t && 0.0 <= u
    ensures Distance(sqrt, Lerp(a, b, t), b) == u * Distance(sqrt, a, b)
  {
    var p := Lerp(a, b, t);
    var v, w := Sub(a, b), Sub(p, b);
    LerpRemainder(a, b, t, u, p, v, w);
    NormScale(sqrt, v, w, u);
    DistanceOfScaledNorm(sqrt, p, b, a, v, w, u);
  }

  // ---------------------------------------------------------------------
  // on_same_line

  /** `math.atan2(y, x)`, left abstract. */
  type Atan2Fn = (real, real) -> real

  /** The direction angle of the vector `v`, as `atan2(v.y, v.x)`. */
  function Heading(atan2: Atan2Fn, v: Coord): real {
    atan2(v.y, v.x)
  }

  /** The one property of `atan2` used below: it sees only the direction of a vector. */
  ghost predicate ScaleInvariant(atan2: Atan2Fn) {
    forall v: Coord, k: real :: 0.0 < k ==> Heading(atan2, Scale(v, k)) == Heading(atan2, v)
  }

  const AngleTolerance: real := 0.05

  /**
   * Whether `a`, `b`, `c` are approximately on one line with `b` in between:
   * the directions a->b and b->c differ by less than 0.05 radians.
   */
  predicate OnSameLine(atan2: Atan2Fn, a: Coord, b: Coord, c: Coord) {
    Abs(Heading(atan2, Sub(b, a)) - Heading(atan2, Sub(c, b))) < AngleTolerance
  }

  /**
   * Points that are exactly collinear, `b` strictly between `a` and `c`,
   * pass the test for every `atan2` that depends on direction only.
   */
  lemma OnSameLineWhenAligned(atan2: Atan2Fn, a: Coord, b: Coord, c: Coord, k: real)
    requires ScaleInvariant(atan2)
    requires 0.0 < k
    requires Sub(c, b) == Scale(Sub(b, a), k)
    ensures OnSameLine(atan2, a, b, c)
  {
    assert Heading(atan2, Scale(Sub(b, a), k)) == Heading(atan2, Sub(b, a));
  }

  // ---------------------------------------------------------------------
  // corner_point

  /**
   * The determinant of the 2x2 system solved by `corner_point`, in the
   * source's expanded form; it is the cross product of a1 - a2 and b1 - b2.
   */
  function Determinant(a1: Coord, a2: Coord, b1: Coord, b2: Coord): real {
    (a1.x * b1.y) - (a1.x * b2.y) - (a1.y * b1.x) + (a1.y * b2.x)
    - (a2.x * b1.y) + (a2.x * b2.y) + (a2.y * b1.x) - (a2.y * b2.x)
  }

  /** The numerator of the parameter of the intersection along a1 -> a2. */
  function CornerNumerator(a1: Coord, a2: Coord, b1: Coord, b2: Coord): real {
    (a1.x * b1.y) - (a1.x * b2.y) - (a1.y * b1.x) + (a1.y * b2.x)
    + (b1.x * b2.y) - (b1.y * b2.x)
  }

  /**
   * The intersection of the line a1--a2 with the line b1--b2, or None when
   * the determinant is exactly zero (parallel or degenerate lines).
   */
  function CornerPoint(a1: Coord, a2: Coord, b1: Coord, b2: Coord): (r: Option<Coord>)
    ensures r.None? <==> Determinant(a1, a2, b1, b2) == 0.0
    ensures r.Some? ==> Cross(r.value, a1, a2) == 0.0 && Cross(r.value, b1, b2) == 0.0
  {
    var det := Determinant(a1, a2, b1, b2);
    if det == 0.0 then None
    else
      var num := CornerNumerator(a1, a2, b1, b2);
      var r := Coord(((-a1.x) + a2.x) * num / det + a1.x, ((-a1.y) + a2.y) * num / det + a1.y);
      CornerPointOnBothLines(a1, a2, b1, b2, r);
      Some(r)
  }

  lemma CornerPointOnBothLines(a1: Coord, a2: Coord, b1: Coord, b2: Coord, r: Coord)
    requires Determinant(a1, a2, b1, b2) != 0.0
    requires r == Coord(((-a1.x) + a2.x) * CornerNumerator(a1, a2, b1, b2) / Determinant(a1, a2, b1, b2) + a1.x,
                        ((-a1.y) + a2.y) * CornerNumerator(a1, a2, b1, b2) / Determinant(a1, a2, b1, b2) + a1.y)
    ensures Cross(r, a1, a2) == 0.0 && Cross(r, b1, b2) == 0.0
  {
    var det, num := Determinant(a1, a2, b1, b2), CornerNumerator(a1, a2, b1, b2);
    var s := num / det;
    assert s * det == num;
    assert r == Lerp(a1, a2, s);
    CrossOfLerp(a1, a2, s);
    // r - b1 = (a1 - b1) + s (a2 - a1); its cross product with b2 - b1
    // is num' + s * det, where num' = -num.
    var u, v := Sub(a2, a1), Sub(b2, b1);
    assert det == u.x * v.y - u.y * v.x;
    assert (a1.x - b1.x) * v.y - (a1.y - b1.y) * v.x == -num;
    calc {
      Cross(r, b1, b2);
      v.x * (b1.y - r.y) - v.y * (b1.x - r.x);
      v.x * (b1.y - a1.y - s * u.y) - v.y * (b1.x - a1.x - s * u.x);
      -((a1.x - b1.x) * v.y - (a1.y - b1.y) * v.x) - s * (u.x * v.y - u.y * v.x);
      num - s * det;
    }
  }

  /** When the lines are not parallel, the corner point is their only common point. */
  lemma CornerPointUnique(a1: Coord, a2: Coord, b1: Coord, b2: Coord, p: Coord)
    requires Determinant(a1, a2, b1, b2) != 0.0
    requires Cross(p, a1, a2) == 0.0 && Cross(p, b1, b2) == 0.0
    ensures CornerPoint(a1, a2, b1, b2) == Some(p)
  {
    var r := CornerPoint(a1, a2, b1, b2).value;
    var u, v, d := Sub(a2, a1), Sub(b2, b1), Sub(p, r);
    var det := u.x * v.y - u.y * v.x;
    assert det == Determinant(a1, a2, b1, b2);
    // Both p and r are on both lines, so d = p - r is parallel to u and to v.
    assert d.x * u.y - d.y * u.x == 0.0 by {
      assert Cross(p, a1, a2) == u.x * (a1.y - p.y) - u.y * (a1.x - p.x);
      assert Cross(r, a1, a2) == u.x * (a1.y - r.y) - u.y * (a1.x - r.x);
      assert Cross(r, a1, a2) - Cross(p, a1, a2) == u.x * d.y - u.y * d.x;
    }
    assert d.x * v.y - d.y * v.x == 0.0 by {
      assert Cross(p, b1, b2) == v.x * (b1.y - p.y) - v.y * (b1.x - p.x);
      assert Cross(r, b1, b2) == v.x * (b1.y - r.y) - v.y * (b1.x - r.x);
      assert Cross(r, b1, b2) - Cross(p, b1, b2) == v.x * d.y - v.y * d.x;
    }
    assert d.x * det == 0.0 by {
      assert d.x * det == u.x * (d.x * v.y - d.y * v.x) - v.x * (d.x * u.y - d.y * u.x);
    }
    assert d.y * det == 0.0 by {
      assert d.y * det == u.y * (d.x * v.y - d.y * v.x) - v.y * (d.x * u.y - d.y * u.x);
    }
    assert d.x == 0.0 && d.y == 0.0;
  }
}
