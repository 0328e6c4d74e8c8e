/**
 * `inflection_contour`: walks a closed contour and splits every cubic
 * segment found at its inflection, so that the contour gains a node there.
 * The walk grows the point list as it goes: after a split it jumps over
 * the two new segments and raises its bound `l` by three by hand. A split
 * of a segment that wraps past the end of the list by one or two points
 * raises IndexError, which ends the walk with the splits made so far.
 *
 * The walk relies on the contour being a cubic one: no three cyclically
 * consecutive off-curve points. Then every segment found starts at a node,
 * so every split attempted is done or raises, and `l` stays the length.
 */
module InflectionContours {
  import opened Geometry
  import opened Inflections
  import opened Contours
  import opened Windows

  /** A rule giving the split parameter of the segment p0, p1, p2, p3, or None. */
  type TimeRule = (Coord, Coord, Coord, Coord) -> Option<real>

  /** The rule only gives parameters strictly between 0 and 1, which `split` accepts. */
  ghost predicate TimesInterior(rule: TimeRule) {
    forall p0: Coord, p1: Coord, p2: Coord, p3: Coord ::
      rule(p0, p1, p2, p3).Some? ==> 0.0 < rule(p0, p1, p2, p3).value < 1.0
  }

  /** `inflection`, as the plug-in writes it, as such a rule. */
  function InflectionRule(sqrt: real -> real): (rule: TimeRule)
    ensures TimesInterior(rule)
  {
    (p0: Coord, p1: Coord, p2: Coord, p3: Coord) => InflectionAsWritten(sqrt, p0, p1, p2, p3)
  }

  /** A cubic contour: among any three cyclically consecutive points there is a node. */
  predicate NoOffCurveRun(pts: seq<Point>) {
    forall k :: 0 <= k < |pts| ==>
      pts[k].onCurve || pts[Ix(|pts|, k, 1)].onCurve || pts[Ix(|pts|, k, 2)].onCurve
  }

  /** The parameter the rule gives the segment found at `j`. */
  function WindowTime(rule: TimeRule, pts: seq<Point>, j: int): Option<real>
    requires 0 <= j < |pts|
  {
    var l := |pts|;
    rule(Pos(pts[j]), Pos(pts[Ix(l, j, 1)]), Pos(pts[Ix(l, j, 2)]), Pos(pts[Ix(l, j, 3)]))
  }

  /** `c[k].selected = True`. */
  function Mark(pts: seq<Point>, k: int): (r: seq<Point>)
    requires 0 <= k < |pts|
    ensures |r| == |pts| && r[k].selected
    ensures forall n :: 0 <= n < |pts| ==> r[n].onCurve == pts[n].onCurve && Pos(r[n]) == Pos(pts[n])
    ensures forall n :: 0 <= n < |pts| && n != k ==> r[n] == pts[n]
  {
    pts[k := pts[k].(selected := true)]
  }

  /** How the walk ends: the point list, and whether IndexError was raised. */
  datatype Inflected = Inflected(points: seq<Point>, raised: bool)

  /**
   * The walk from point `j` on: at a segment found with a parameter the
   * segment is split there, the point at the old `(j + 3) % l` is marked
   * unless the whole glyph is worked on, and the walk goes on six points
   * further on the longer list; at a segment found without one it goes on
   * three points further; elsewhere one point further. A split that raises
   * ends the walk.
   */
  function InflectedFrom(rule: TimeRule, pts: seq<Point>, glyphVariant: bool, j: nat): (w: Inflected)
    requires TimesInterior(rule) && NoOffCurveRun(pts)
    ensures NoOffCurveRun(w.points) && |w.points| >= |pts|
    decreases |pts| + 6 - j
  {
    if j >= |pts| then Inflected(pts, false)
    else if !SegmentAt(pts, j, glyphVariant) then InflectedFrom(rule, pts, glyphVariant, j + 1)
    else match WindowTime(rule, pts, j)
      case None => InflectedFrom(rule, pts, glyphVariant, j + 3)
      case Some(t) =>
        SplitNotIgnored(pts, j, t, glyphVariant);
        if SplitCheck(pts, j, t) == IndexOutOfRange then Inflected(pts, true)
        else
          SplitKeepsCubic(pts, j, t, glyphVariant);
          var m := Marked(SplitResult(pts, j, t), |pts|, j, glyphVariant);
          InflectedFrom(rule, m, glyphVariant, j + 6)
  }

  /** The list after a split at `j`, with the old `(j + 3) % l` marked unless the glyph variant. */
  function Marked(r: seq<Point>, l: int, j: int, glyphVariant: bool): seq<Point>
    requires 0 <= j < l <= |r|
  {
    if glyphVariant then r else Mark(r, Ix(l, j, 3))
  }

  // ---------------------------------------------------------------------
  // The walk

  /**
   * Walks the points of `c`, splitting each segment found at the parameter
   * `inflection` gives it. Returns true when a split raised IndexError,
   * leaving `c` as the splits before it made it.
   */
  method InflectionContour(sqrt: real -> real, c: Contour, glyphVariant: bool) returns (raised: bool)
    requires NoOffCurveRun(c.points)
    modifies c
    ensures Inflected(c.points, raised) == InflectedFrom(InflectionRule(sqrt), old(c.points), glyphVariant, 0)
  {
    ghost var orig, rule := c.points, InflectionRule(sqrt);
    var l := |c.points|;
    var j := 0;
    while j < l
      invariant l == |c.points| && 0 <= j && NoOffCurveRun(c.points)
      invariant InflectedFrom(rule, c.points, glyphVariant, j) == InflectedFrom(rule, orig, glyphVariant, 0)
      decreases l + 6 - j
    {
      InflectedStep(rule, c.points, glyphVariant, j);
      if SegmentAt(c.points, j, glyphVariant) {
        var t := InflectionAsWritten(sqrt, Pos(c.points[j]), Pos(c.points[Ix(l, j, 1)]),
                                     Pos(c.points[Ix(l, j, 2)]), Pos(c.points[Ix(l, j, 3)]));
        assert t == WindowTime(rule, c.points, j);
        if t.Some? {
          var outcome := SplitAndMark(c, j, t.value, glyphVariant);
          if outcome == IndexOutOfRange {
            return true;
          }
          j := j + 3;
          l := l + 3;
        }
        j := j + 2;
      }
      j := j + 1;
    }
    return false;
  }

  /**
   * The work at a segment found at `j` with parameter `t`: split it, and
   * mark the point at the old `(j + 3) % l` unless the glyph variant.
   */
  method SplitAndMark(c: Contour, j: int, t: real, glyphVariant: bool) returns (outcome: SplitOutcome)
    requires NoOffCurveRun(c.points) && 0 <= j < |c.points| && SegmentAt(c.points, j, glyphVariant) && 0.0 < t < 1.0
    modifies c
    ensures outcome == SplitCheck(old(c.points), j, t) && outcome != Ignored
    ensures outcome == IndexOutOfRange ==> c.points == old(c.points)
    ensures outcome == Done ==> c.points == Marked(SplitResult(old(c.points), j, t), |old(c.points)|, j, glyphVariant)
  {
    ghost var s := c.points;
    var l := |c.points|;
    SplitNotIgnored(s, j, t, glyphVariant);
    outcome := Split(c, j, t);
    if outcome == Done {
      SplitKeepsCubic(s, j, t, glyphVariant);
      if !glyphVariant {
        c.points := c.points[Ix(l, j, 3) := c.points[Ix(l, j, 3)].(selected := true)];
      }
    }
  }

  /** One step of the walk at `j`, case by case. */
  lemma InflectedStep(rule: TimeRule, pts: seq<Point>, glyphVariant: bool, j: nat)
    requires TimesInterior(rule) && NoOffCurveRun(pts) && j < |pts|
    ensures !SegmentAt(pts, j, glyphVariant) ==>
      InflectedFrom(rule, pts, glyphVariant, j) == InflectedFrom(rule, pts, glyphVariant, j + 1)
    ensures SegmentAt(pts, j, glyphVariant) && WindowTime(rule, pts, j).None? ==>
      InflectedFrom(rule, pts, glyphVariant, j) == InflectedFrom(rule, pts, glyphVariant, j + 3)
    ensures SegmentAt(pts, j, glyphVariant) && WindowTime(rule, pts, j).Some? ==>
      var t := WindowTime(rule, pts, j).value;
      && 0.0 < t < 1.0 && SplitCheck(pts, j, t) != Ignored
      && (j + 3 > |pts| ==> InflectedFrom(rule, pts, glyphVariant, j) == Inflected(pts, true))
      && (j + 3 <= |pts| ==> SplitCheck(pts, j, t) == Done)
      && (SplitCheck(pts, j, t) == Done ==>
           && |SplitResult(pts, j, t)| == |pts| + 3
           && NoOffCurveRun(Marked(SplitResult(pts, j, t), |pts|, j, glyphVariant))
           && InflectedFrom(rule, pts, glyphVariant, j)
              == InflectedFrom(rule, Marked(SplitResult(pts, j, t), |pts|, j, glyphVariant), glyphVariant, j + 6))
  {
    if SegmentAt(pts, j, glyphVariant) && WindowTime(rule, pts, j).Some? {
      var t := WindowTime(rule, pts, j).value;
      SplitNotIgnored(pts, j, t, glyphVariant);
      if SplitCheck(pts, j, t) == Done {
        SplitKeepsCubic(pts, j, t, glyphVariant);
      }
    }
  }

  // ---------------------------------------------------------------------
  // Splits on a cubic contour

  /** On a cubic contour every segment found starts at a node, so `split` never ignores it. */
  lemma SplitNotIgnored(pts: seq<Point>, j: int, t: real, glyphVariant: bool)
    requires NoOffCurveRun(pts) && 0 <= j < |pts| && SegmentAt(pts, j, glyphVariant) && 0.0 < t < 1.0
    ensures SplitCheck(pts, j, t) != Ignored
    ensures SplitCheck(pts, j, t) == IndexOutOfRange <==> j + 3 > |pts|
  {
    var l := |pts|;
    assert pts[j].onCurve;
    if j + 1 < l {
      assert Ix(l, j, 1) == j + 1;
    }
    if j + 2 < l {
      assert Ix(l, j, 2) == j + 2;
    }
  }

  /** A split, and the mark after it, keep the contour cubic. */
  lemma SplitKeepsCubic(pts: seq<Point>, j: int, t: real, glyphVariant: bool)
    requires NoOffCurveRun(pts) && 0 <= j < |pts| && SegmentAt(pts, j, glyphVariant)
    requires SplitCheck(pts, j, t) == Done
    ensures |SplitResult(pts, j, t)| == |pts| + 3
    ensures NoOffCurveRun(Marked(SplitResult(pts, j, t), |pts|, j, glyphVariant))
  {
    var l := |pts|;
    SegmentLength(pts, j, glyphVariant);
    var r := SplitResult(pts, j, t);
    SplitGrowth(pts, j, t);
    if j + 3 < l {
      SplitGeneric(pts, j, t);
      DoubleSegmentShape(Pos(pts[j]), Pos(pts[j + 1]), Pos(pts[j + 2]), Pos(pts[j + 3]), t);
      CubicAfterGenericSplice(pts, r, j);
    } else {
      SplitWrap(pts, j, t);
      DoubleSegmentShape(Pos(pts[j]), Pos(pts[j + 1]), Pos(pts[j + 2]), Pos(pts[0]), t);
      CubicAfterWrapSplice(pts, r, j);
    }
    CubicOnSameNodes(r, Marked(r, l, j, glyphVariant));
  }

  /** Whether a list is cubic depends on its on-curve flags only. */
  lemma CubicOnSameNodes(a: seq<Point>, b: seq<Point>)
    requires |a| == |b| && forall n :: 0 <= n < |a| ==> a[n].onCurve == b[n].onCurve
    ensures NoOffCurveRun(a) ==> NoOffCurveRun(b)
  {
  }

  /** Seven points on, off, off, on, off, off, on put in place of an on, off, off, on window. */
  lemma CubicAfterGenericSplice(pts: seq<Point>, r: seq<Point>, i: int)
    requires NoOffCurveRun(pts) && 0 <= i && i + 3 < |pts| && |r| == |pts| + 3
    requires r[..i] == pts[..i] && r[i + 7..] == pts[i + 4..]
    requires r[i].onCurve && r[i + 3].onCurve && r[i + 6].onCurve
    ensures NoOffCurveRun(r)
  {
    var l, n := |pts|, |r|;
    forall k | 0 <= k < n
      ensures r[k].onCurve || r[Ix(n, k, 1)].onCurve || r[Ix(n, k, 2)].onCurve
    {
      if k + 2 < i {
        assert r[k] == pts[k] && r[k + 1] == pts[k + 1] && r[k + 2] == pts[k + 2];
        assert Ix(l, k, 1) == k + 1 && Ix(l, k, 2) == k + 2;
      } else if k < i {
        assert k + 1 == i || k + 2 == i;
      } else if k <= i + 6 {
        assert k == i || k == i + 3 || k == i + 6 || k + 1 == i + 3 || k + 2 == i + 3 || k + 1 == i + 6 || k + 2 == i + 6;
      } else {
        CubicAfterGenericTail(pts, r, i, k);
      }
    }
  }

  /** A window starting past the seven new points, read on the old list three points back. */
  lemma CubicAfterGenericTail(pts: seq<Point>, r: seq<Point>, i: int, k: int)
    requires NoOffCurveRun(pts) && 0 <= i && i + 3 < |pts| && |r| == |pts| + 3
    requires r[..i] == pts[..i] && r[i + 7..] == pts[i + 4..]
    requires r[i].onCurve && i + 7 <= k < |r|
    ensures r[k].onCurve || r[Ix(|r|, k, 1)].onCurve || r[Ix(|r|, k, 2)].onCurve
  {
    var l, n := |pts|, |r|;
    var k' := k - 3;
    assert r[k] == pts[k'];
    assert pts[k'].onCurve || pts[Ix(l, k', 1)].onCurve || pts[Ix(l, k', 2)].onCurve;
    forall d | 1 <= d <= 2
      ensures Ix(n, k, d) < i ==> r[Ix(n, k, d)] == pts[Ix(l, k', d)]
      ensures Ix(n, k, d) >= i + 7 ==> r[Ix(n, k, d)] == pts[Ix(l, k', d)]
    {
      if Ix(n, k, d) < i {
        assert r[..i][Ix(n, k, d)] == pts[..i][Ix(n, k, d)];
      }
      if Ix(n, k, d) >= i + 7 {
        assert r[i + 7..][Ix(n, k, d) - (i + 7)] == pts[i + 4..][Ix(n, k, d) - (i + 7)];
      }
    }
  }

  /** The wrap case: the list reads node, the old points 1 .. i - 1, then six new points. */
  lemma CubicAfterWrapSplice(pts: seq<Point>, r: seq<Point>, i: int)
    requires NoOffCurveRun(pts) && 1 <= i && i + 3 == |pts| && |r| == |pts| + 3
    requires r[1..i] == pts[1..i]
    requires r[0].onCurve && r[i].onCurve && r[i + 3].onCurve
    ensures NoOffCurveRun(r)
  {
    var l, n := |pts|, |r|;
    forall k | 0 <= k < n
      ensures r[k].onCurve || r[Ix(n, k, 1)].onCurve || r[Ix(n, k, 2)].onCurve
    {
      if k == 0 {
      } else if k + 2 < i {
        assert r[k] == pts[k] && r[k + 1] == pts[k + 1] && r[k + 2] == pts[k + 2] by {
          assert r[1..i][k - 1] == pts[1..i][k - 1];
          assert r[1..i][k] == pts[1..i][k];
          assert r[1..i][k + 1] == pts[1..i][k + 1];
        }
        assert Ix(l, k, 1) == k + 1 && Ix(l, k, 2) == k + 2;
      } else if k < i {
        assert k + 1 == i || k + 2 == i;
      } else if k < i + 4 {
        assert k == i || k == i + 3 || k + 1 == i + 3 || k + 2 == i + 3;
      } else if k == n - 2 {
        assert Ix(n, k, 2) == 0;
      } else {
        assert Ix(n, k, 1) == 0;
      }
    }
  }

  // ---------------------------------------------------------------------
  // What the walk achieves

  /** Marking changes no on-curve flag, so no count of nodes. */
  lemma {:induction false} OnCurveCountSameNodes(a: seq<Point>, b: seq<Point>)
    requires |a| == |b| && forall n :: 0 <= n < |a| ==> a[n].onCurve == b[n].onCurve
    ensures OnCurveCount(a) == OnCurveCount(b)
  {
    if |a| > 0 {
      OnCurveCountSameNodes(a[1..], b[1..]);
    }
  }

  /**
   * `b` is `a` with some number of nodes added, three points for each,
   * and is `a` itself when no node was added.
   */
  predicate GrowsBySplits(a: seq<Point>, b: seq<Point>) {
    && OnCurveCount(a) <= OnCurveCount(b)
    && |b| == |a| + 3 * (OnCurveCount(b) - OnCurveCount(a))
    && (OnCurveCount(b) == OnCurveCount(a) ==> b == a)
  }

  /** One split, three points and one node, followed by growth from there. */
  lemma GrowsAfterSplit(a: seq<Point>, m: seq<Point>, b: seq<Point>)
    requires |m| == |a| + 3 && OnCurveCount(m) == OnCurveCount(a) + 1
    requires GrowsBySplits(m, b)
    ensures GrowsBySplits(a, b)
  {
  }

  /**
   * Every split adds three points of which one is a node, and nothing else
   * changes the length: the walk adds three points per node it adds, and
   * when it adds no node it leaves the list as it was.
   */
  lemma {:induction false} InflectedGrowth(rule: TimeRule, pts: seq<Point>, glyphVariant: bool, j: nat)
    requires TimesInterior(rule) && NoOffCurveRun(pts)
    ensures GrowsBySplits(pts, InflectedFrom(rule, pts, glyphVariant, j).points)
    decreases |pts| + 6 - j
  {
    if j < |pts| {
      InflectedStep(rule, pts, glyphVariant, j);
      if !SegmentAt(pts, j, glyphVariant) {
        InflectedGrowth(rule, pts, glyphVariant, j + 1);
      } else if WindowTime(rule, pts, j).None? {
        InflectedGrowth(rule, pts, glyphVariant, j + 3);
      } else {
        var t := WindowTime(rule, pts, j).value;
        if SplitCheck(pts, j, t) == Done {
          var r := SplitResult(pts, j, t);
          var m := Marked(r, |pts|, j, glyphVariant);
          SegmentLength(pts, j, glyphVariant);
          SplitGrowth(pts, j, t);
          OnCurveCountSameNodes(r, m);
          InflectedGrowth(rule, m, glyphVariant, j + 6);
          GrowsAfterSplit(pts, m, InflectedFrom(rule, m, glyphVariant, j + 6).points);
        }
      }
    }
  }

  /** A split and its mark keep the on-curve flag of point 0. */
  lemma SplitKeepsFirstNode(pts: seq<Point>, j: int, t: real, glyphVariant: bool)
    requires 0 <= j < |pts| && SegmentAt(pts, j, glyphVariant) && SplitCheck(pts, j, t) == Done
    ensures var m := Marked(SplitResult(pts, j, t), |pts|, j, glyphVariant);
      |m| > 0 && m[0].onCurve == pts[0].onCurve
  {
    var l := |pts|;
    SegmentLength(pts, j, glyphVariant);
    SplitGrowth(pts, j, t);
    var r := SplitResult(pts, j, t);
    if j + 3 < l {
      SplitGeneric(pts, j, t);
      DoubleSegmentShape(Pos(pts[j]), Pos(pts[j + 1]), Pos(pts[j + 2]), Pos(pts[j + 3]), t);
      if j > 0 {
        assert r[..j][0] == pts[..j][0];
      } else {
        assert r[0] == r[j..j + 7][0];
      }
    } else {
      SplitWrap(pts, j, t);
      DoubleSegmentShape(Pos(pts[j]), Pos(pts[j + 1]), Pos(pts[j + 2]), Pos(pts[0]), t);
    }
  }

  /**
   * The walk raises IndexError only on a contour whose point 0 is a handle:
   * only then can a segment found run past the end of the list by one or
   * two points, and no split changes what point 0 is.
   */
  lemma {:induction false} InflectedRaised(rule: TimeRule, pts: seq<Point>, glyphVariant: bool, j: nat)
    requires TimesInterior(rule) && NoOffCurveRun(pts)
    ensures InflectedFrom(rule, pts, glyphVariant, j).raised ==> |pts| > 0 && !pts[0].onCurve
    decreases |pts| + 6 - j
  {
    if j < |pts| {
      InflectedStep(rule, pts, glyphVariant, j);
      if !SegmentAt(pts, j, glyphVariant) {
        InflectedRaised(rule, pts, glyphVariant, j + 1);
      } else if WindowTime(rule, pts, j).None? {
        InflectedRaised(rule, pts, glyphVariant, j + 3);
      } else {
        var l, t := |pts|, WindowTime(rule, pts, j).value;
        if j + 3 > l {
          if j + 1 == l {
            assert Ix(l, j, 1) == 0;
          } else {
            assert Ix(l, j, 2) == 0;
          }
        } else {
          SplitKeepsFirstNode(pts, j, t, glyphVariant);
          InflectedRaised(rule, Marked(SplitResult(pts, j, t), l, j, glyphVariant), glyphVariant, j + 6);
        }
      }
    }
  }

  /** A contour none of whose segments found has a parameter is left as it is. */
  lemma {:induction false} InflectedNothingFound(rule: TimeRule, pts: seq<Point>, glyphVariant: bool, j: nat)
    requires TimesInterior(rule) && NoOffCurveRun(pts)
    requires forall k :: 0 <= k < |pts| && SegmentAt(pts, k, glyphVariant) ==> WindowTime(rule, pts, k).None?
    ensures InflectedFrom(rule, pts, glyphVariant, j) == Inflected(pts, false)
    decreases |pts| + 6 - j
  {
    if j < |pts| {
      InflectedStep(rule, pts, glyphVariant, j);
      if !SegmentAt(pts, j, glyphVariant) {
        InflectedNothingFound(rule, pts, glyphVariant, j + 1);
      } else {
        InflectedNothingFound(rule, pts, glyphVariant, j + 3);
      }
    }
  }

  /**
   * A split inside the list. The walk goes on six points further on the
   * longer list, in which the segment found at `j` is replaced by its two
   * halves at `t`: the new node at `j + 3` is the point of the original
   * curve at `t` (an inflection when the square root is exact and AA is
   * not zero; on the linear branch `t` is the plug-in's `-x1 / BB`), and is
   * marked unless the glyph variant; the two end nodes keep their
   * positions but are new, unselected points; nothing else moves.
   */
  lemma InflectedSplitInside(sqrt: real -> real, pts: seq<Point>, glyphVariant: bool, j: nat, t: real)
    requires NoOffCurveRun(pts) && j + 3 < |pts| && SegmentAt(pts, j, glyphVariant)
    requires WindowTime(InflectionRule(sqrt), pts, j) == Some(t)
    ensures var p0, p1, p2, p3 := Pos(pts[j]), Pos(pts[j + 1]), Pos(pts[j + 2]), Pos(pts[j + 3]);
      && InflectionAsWritten(sqrt, p0, p1, p2, p3) == Some(t) && SplitCheck(pts, j, t) == Done
      && var r := Marked(SplitResult(pts, j, t), |pts|, j, glyphVariant);
      && NoOffCurveRun(r)
      && InflectedFrom(InflectionRule(sqrt), pts, glyphVariant, j)
         == InflectedFrom(InflectionRule(sqrt), r, glyphVariant, j + 6)
      && |r| == |pts| + 3 && r[..j] == pts[..j] && r[j + 7..] == pts[j + 4..]
      && r[j + 3].onCurve && r[j + 3].selected == !glyphVariant
      && Pos(r[j + 3]) == BezierPoint(p0, p1, p2, p3, t)
      && (AA(p0, p1, p2, p3) == 0.0 ==> t == -p1.x / BB(p0, p1, p2, p3))
      && (IsSqrt(sqrt) && AA(p0, p1, p2, p3) != 0.0 ==> CurvatureNumerator(p0, p1, p2, p3, t) == 0.0)
      && Pos(r[j]) == p0 && !r[j].selected && Pos(r[j + 6]) == p3 && !r[j + 6].selected
  {
    var l := |pts|;
    var p0, p1, p2, p3 := Pos(pts[j]), Pos(pts[j + 1]), Pos(pts[j + 2]), Pos(pts[j + 3]);
    assert Ix(l, j, 1) == j + 1 && Ix(l, j, 2) == j + 2 && Ix(l, j, 3) == j + 3;
    InflectedStep(InflectionRule(sqrt), pts, glyphVariant, j);
    SplitGeneric(pts, j, t);
    DoubleSegmentShape(p0, p1, p2, p3, t);
    var r0 := SplitResult(pts, j, t);
    var ds := DoubleSegment(p0, p1, p2, p3, t);
    assert r0[j] == ds[0] && r0[j + 3] == ds[3] && r0[j + 6] == ds[6] by {
      assert r0[j..j + 7][0] == r0[j] && r0[j..j + 7][3] == r0[j + 3] && r0[j..j + 7][6] == r0[j + 6];
    }
    var r := Marked(r0, l, j, glyphVariant);
    assert r[..j] == r0[..j] && r[j + 7..] == r0[j + 7..];
    if IsSqrt(sqrt) && AA(p0, p1, p2, p3) != 0.0 {
      InflectionIsRoot(sqrt, p0, p1, p2, p3, t);
    }
  }

  /**
   * A split of the segment that closes the contour (j + 3 == l) ends the
   * walk. Point 0 is a new node at the old position of point 0, marked
   * unless the glyph variant, because the mark goes to the old
   * `(j + 3) % l`; the new node at the inflection, at `j + 3` of the
   * longer list, is left unmarked.
   */
  lemma InflectedSplitClosing(sqrt: real -> real, pts: seq<Point>, glyphVariant: bool, j: nat, t: real)
    requires NoOffCurveRun(pts) && j + 3 == |pts| && SegmentAt(pts, j, glyphVariant)
    requires WindowTime(InflectionRule(sqrt), pts, j) == Some(t)
    ensures var p0, p1, p2, p3 := Pos(pts[j]), Pos(pts[j + 1]), Pos(pts[j + 2]), Pos(pts[0]);
      && InflectionAsWritten(sqrt, p0, p1, p2, p3) == Some(t) && SplitCheck(pts, j, t) == Done
      && var r := Marked(SplitResult(pts, j, t), |pts|, j, glyphVariant);
      && InflectedFrom(InflectionRule(sqrt), pts, glyphVariant, j) == Inflected(r, false)
      && |r| == |pts| + 3 && r[1..j] == pts[1..j]
      && r[0].onCurve && Pos(r[0]) == p3 && r[0].selected == !glyphVariant
      && r[j + 3].onCurve && !r[j + 3].selected && Pos(r[j + 3]) == BezierPoint(p0, p1, p2, p3, t)
      && (AA(p0, p1, p2, p3) == 0.0 ==> t == -p1.x / BB(p0, p1, p2, p3))
      && (IsSqrt(sqrt) && AA(p0, p1, p2, p3) != 0.0 ==> CurvatureNumerator(p0, p1, p2, p3, t) == 0.0)
  {
    var l := |pts|;
    var p0, p1, p2, p3 := Pos(pts[j]), Pos(pts[j + 1]), Pos(pts[j + 2]), Pos(pts[0]);
    SegmentLength(pts, j, glyphVariant);
    assert Ix(l, j, 1) == j + 1 && Ix(l, j, 2) == j + 2 && Ix(l, j, 3) == 0;
    InflectedStep(InflectionRule(sqrt), pts, glyphVariant, j);
    SplitWrap(pts, j, t);
    DoubleSegmentShape(p0, p1, p2, p3, t);
    var r0 := SplitResult(pts, j, t);
    var ds := DoubleSegment(p0, p1, p2, p3, t);
    assert r0[j + 3] == ds[3] by {
      assert r0[j..][3] == r0[j + 3];
    }
    var r := Marked(r0, l, j, glyphVariant);
    assert r[1..j] == r0[1..j];
    assert InflectedFrom(InflectionRule(sqrt), r, glyphVariant, j + 6) == Inflected(r, false);
    if IsSqrt(sqrt) && AA(p0, p1, p2, p3) != 0.0 {
      InflectionIsRoot(sqrt, p0, p1, p2, p3, t);
    }
  }

  // ---------------------------------------------------------------------
  // The mark on a closing segment

  /**
   * The mark as the comment `# mark new points` means it: the new far node
   * `(j + 3) % l` with `l` the length after the split.
   */
  function MarkedIntended(r: seq<Point>, j: int, glyphVariant: bool): seq<Point>
    requires 0 <= j < |r|
  {
    if glyphVariant then r else Mark(r, Ix(|r|, j, 3))
  }

  /** After a split of the closing segment: point 0 and the new node at `j + 3`, both unselected. */
  lemma ClosingSplitNodes(pts: seq<Point>, j: int, t: real)
    requires SplitCheck(pts, j, t) == Done && j + 3 == |pts| && |pts| >= 4
    ensures var r := SplitResult(pts, j, t);
      && |r| == |pts| + 3
      && r[0].onCurve && !r[0].selected && Pos(r[0]) == Pos(pts[0])
      && r[j + 3].onCurve && !r[j + 3].selected
      && Pos(r[j + 3]) == BezierPoint(Pos(pts[j]), Pos(pts[j + 1]), Pos(pts[j + 2]), Pos(pts[0]), t)
  {
    var p0, p1, p2, p3 := Pos(pts[j]), Pos(pts[j + 1]), Pos(pts[j + 2]), Pos(pts[0]);
    SplitWrap(pts, j, t);
    DoubleSegmentShape(p0, p1, p2, p3, t);
    var r := SplitResult(pts, j, t);
    assert r[j + 3] == DoubleSegment(p0, p1, p2, p3, t)[3] by {
      assert r[j..][3] == r[j + 3];
    }
  }

  /**
   * As written, the mark on a closing segment goes to point 0, the
   * segment's end node, and the new node at the split stays unselected.
   */
  lemma MarkedClosingAsWritten(pts: seq<Point>, j: int, t: real, glyphVariant: bool)
    requires SplitCheck(pts, j, t) == Done && j + 3 == |pts| && |pts| >= 4
    ensures var r := Marked(SplitResult(pts, j, t), |pts|, j, glyphVariant);
      r[0].selected == !glyphVariant && !r[j + 3].selected
  {
    ClosingSplitNodes(pts, j, t);
    assert Ix(|pts|, j, 3) == 0;
  }

  /**
   * Marked as intended, the closing segment's new node at the split is
   * selected unless the glyph variant, and point 0 is left unselected.
   */
  lemma MarkedIntendedClosing(pts: seq<Point>, j: int, t: real, glyphVariant: bool)
    requires SplitCheck(pts, j, t) == Done && j + 3 == |pts| && |pts| >= 4
    ensures var r := MarkedIntended(SplitResult(pts, j, t), j, glyphVariant);
      && r[j + 3].onCurve && r[j + 3].selected == !glyphVariant
      && Pos(r[j + 3]) == BezierPoint(Pos(pts[j]), Pos(pts[j + 1]), Pos(pts[j + 2]), Pos(pts[0]), t)
      && r[0].onCurve && !r[0].selected && Pos(r[0]) == Pos(pts[0])
  {
    ClosingSplitNodes(pts, j, t);
    assert Ix(|pts| + 3, j, 3) == j + 3;
  }

  /** Inside the list the intended mark and the mark as written are the same. */
  lemma MarkedIntendedInside(pts: seq<Point>, j: int, t: real, glyphVariant: bool)
    requires SplitCheck(pts, j, t) == Done && j + 3 < |pts|
    ensures MarkedIntended(SplitResult(pts, j, t), j, glyphVariant)
      == Marked(SplitResult(pts, j, t), |pts|, j, glyphVariant)
  {
    SplitGrowth(pts, j, t);
    assert Ix(|pts|, j, 3) == j + 3 == Ix(|pts| + 3, j, 3);
  }
}
