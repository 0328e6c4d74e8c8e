/**
 * `harmonize_contour`: walks a closed contour and, at every node joining
 * two cubic segments smoothly, moves the node to its harmonized position
 * (the node variant) or moves its two handles by the opposite amount (the
 * handles variant). In the node variant the joins found never overlap in
 * what they read and write, so the outcome is that of harmonizing each join
 * of the original contour on its own; in the handles variant a join reads a
 * handle the previous join moved, so the outcome is the sequential one.
 */
module HarmonizeContours {
  import opened Geometry
  import opened Balance
  import opened Contours
  import opened Windows

  /** A rule giving the ideal position of the node a3 = b0 from a1, a2, a3, b1, b2. */
  type NodeRule = (Coord, Coord, Coord, Coord, Coord) -> Coord

  /** `harmonize` as such a rule. */
  function HarmonizeRule(sqrt: real -> real): NodeRule
    requires IsSqrt(sqrt)
  {
    (a1: Coord, a2: Coord, a3: Coord, b1: Coord, b2: Coord) => Harmonize(sqrt, a1, a2, a3, b1, b2)
  }

  /** The ideal node position of the join at `j` under `harmonize`. */
  lemma IdealNodeOfHarmonize(sqrt: real -> real, pts: seq<Point>, j: int)
    requires IsSqrt(sqrt) && 0 <= j < |pts|
    ensures var l := |pts|;
      IdealNode(HarmonizeRule(sqrt), pts, j)
      == Harmonize(sqrt, Pos(pts[Ix(l, j, 1)]), Pos(pts[Ix(l, j, 2)]), Pos(pts[Ix(l, j, 3)]),
                   Pos(pts[Ix(l, j, 4)]), Pos(pts[Ix(l, j, 5)]))
  {
  }

  /**
   * The flag part of the driver's test at `j`: a segment found at `j`, then
   * two more off-curve points and an eligible node that is not `j`.
   */
  predicate JoinPattern(pts: seq<Point>, j: int, glyphVariant: bool)
    requires 0 <= j < |pts|
  {
    var l := |pts|;
    && SegmentAt(pts, j, glyphVariant)
    && !pts[Ix(l, j, 4)].onCurve && !pts[Ix(l, j, 5)].onCurve
    && pts[Ix(l, j, 6)].onCurve && Eligible(pts[Ix(l, j, 6)], glyphVariant)
    && Ix(l, j, 6) != j
  }

  /** The whole test: the pattern, and the node with its two handles approximately on one line. */
  predicate JoinAt(atan2: Atan2Fn, pts: seq<Point>, j: int, glyphVariant: bool)
    requires 0 <= j < |pts|
  {
    var l := |pts|;
    && JoinPattern(pts, j, glyphVariant)
    && OnSameLine(atan2, Pos(pts[Ix(l, j, 2)]), Pos(pts[Ix(l, j, 3)]), Pos(pts[Ix(l, j, 4)]))
  }

  /** A join is two segments that follow each other, the second starting at the node `j + 3`. */
  lemma JoinSegments(atan2: Atan2Fn, pts: seq<Point>, j: int, glyphVariant: bool)
    requires 0 <= j < |pts| && JoinAt(atan2, pts, j, glyphVariant)
    ensures SegmentAt(pts, j, glyphVariant) && SegmentAt(pts, Ix(|pts|, j, 3), glyphVariant)
  {
    SegmentLength(pts, j, glyphVariant);
  }

  /** The pattern part of the test reads only the flags. */
  lemma JoinPatternFlags(a: seq<Point>, b: seq<Point>, j: int, glyphVariant: bool)
    requires SameFlags(a, b) && 0 <= j < |a|
    ensures JoinPattern(a, j, glyphVariant) == JoinPattern(b, j, glyphVariant)
  {
    SegmentAtFlags(a, b, j, glyphVariant);
  }

  /** The ideal node position `rule` gives the join at `j + 3`. */
  function IdealNode(rule: NodeRule, pts: seq<Point>, j: int): Coord
    requires 0 <= j < |pts|
  {
    var l := |pts|;
    rule(Pos(pts[Ix(l, j, 1)]), Pos(pts[Ix(l, j, 2)]), Pos(pts[Ix(l, j, 3)]),
         Pos(pts[Ix(l, j, 4)]), Pos(pts[Ix(l, j, 5)]))
  }

  /** The plug-in's `deltax, deltay`: the ideal node position minus the current one. */
  function Delta(rule: NodeRule, pts: seq<Point>, j: int): (d: (real, real))
    requires 0 <= j < |pts|
    ensures Pos(Translate(pts[Ix(|pts|, j, 3)], d.0, d.1)) == IdealNode(rule, pts, j)
  {
    var ideal, node := IdealNode(rule, pts, j), pts[Ix(|pts|, j, 3)];
    (ideal.x - node.x, ideal.y - node.y)
  }

  // ---------------------------------------------------------------------
  // The node variant

  /** The node translated by the delta of the join at `j`. */
  function NodeMoved(rule: NodeRule, pts: seq<Point>, j: int): Point
    requires 0 <= j < |pts|
  {
    var d := Delta(rule, pts, j);
    Translate(pts[Ix(|pts|, j, 3)], d.0, d.1)
  }

  /** The start of the join found whose node is `k`, three points before it; -1 if none. */
  function NodeOwner(atan2: Atan2Fn, pts: seq<Point>, glyphVariant: bool, k: int): (w: int)
    requires 0 <= k < |pts|
    ensures -1 <= w < |pts|
    ensures w >= 0 ==> JoinAt(atan2, pts, w, glyphVariant) && k == Ix(|pts|, w, 3)
  {
    var l := |pts|;
    if l >= 3 && JoinAt(atan2, pts, Ix(l, k, l - 3), glyphVariant) then
      IxAdd(l, k, l - 3, 3);
      Ix(l, k, l - 3)
    else
      -1
  }

  /** The point `k` once the joins found at the points before `n` are harmonized. */
  function NodesPoint(rule: NodeRule, atan2: Atan2Fn, pts: seq<Point>, glyphVariant: bool, n: int, k: int): Point
    requires 0 <= k < |pts|
  {
    var w := NodeOwner(atan2, pts, glyphVariant, k);
    if 0 <= w < n then NodeMoved(rule, pts, w) else pts[k]
  }

  /** The contour once the joins found at the points before `n` are harmonized. */
  function NodesUpTo(rule: NodeRule, atan2: Atan2Fn, pts: seq<Point>, glyphVariant: bool, n: int): (r: seq<Point>)
    ensures |r| == |pts|
  {
    seq(|pts|, k requires 0 <= k < |pts| => NodesPoint(rule, atan2, pts, glyphVariant, n, k))
  }

  /** Every join found on `pts` harmonized, each from the original points. */
  function NodesHarmonized(rule: NodeRule, atan2: Atan2Fn, pts: seq<Point>, glyphVariant: bool): (r: seq<Point>)
    ensures |r| == |pts|
  {
    NodesUpTo(rule, atan2, pts, glyphVariant, |pts|)
  }

  // ---------------------------------------------------------------------
  // The handles variant

  /** The two handles of the join at `j` translated by the negated delta. */
  function HandlesMoved(rule: NodeRule, s: seq<Point>, j: int): (r: seq<Point>)
    requires 0 <= j < |s|
    ensures |r| == |s|
  {
    var d := Delta(rule, s, j);
    HandlesShifted(s, j, d.0, d.1)
  }

  /** The handles `j + 2` and `j + 4` translated by `-dx, -dy`, one after the other. */
  function HandlesShifted(s: seq<Point>, j: int, dx: real, dy: real): (r: seq<Point>)
    requires 0 <= j < |s|
    ensures |r| == |s|
  {
    var l := |s|;
    var s' := s[Ix(l, j, 2) := Translate(s[Ix(l, j, 2)], -dx, -dy)];
    s'[Ix(l, j, 4) := Translate(s'[Ix(l, j, 4)], -dx, -dy)]
  }

  /**
   * The contour once the joins at the points before `n` are visited in
   * order, each tested and moved on the contour as the previous ones left
   * it. Its flags stay and so do its nodes.
   */
  function HandlesUpTo(rule: NodeRule, atan2: Atan2Fn, pts: seq<Point>, glyphVariant: bool, n: nat): (r: seq<Point>)
    ensures KeepsNodes(r, pts)
  {
    if n == 0 then pts
    else
      var s := HandlesUpTo(rule, atan2, pts, glyphVariant, n - 1);
      var r := HandlesNext(rule, atan2, s, glyphVariant, n - 1);
      KeepsNodesTrans(pts, s, r);
      r
  }

  /** The visit of point `j`: the handles of the join found there moved, or nothing. */
  function HandlesNext(rule: NodeRule, atan2: Atan2Fn, s: seq<Point>, glyphVariant: bool, j: int): (r: seq<Point>)
    requires 0 <= j
    ensures KeepsNodes(r, s)
  {
    if j < |s| && JoinAt(atan2, s, j, glyphVariant) then
      HandlesMovedFrame(rule, atan2, s, j, glyphVariant);
      HandlesMoved(rule, s, j)
    else
      s
  }

  /** `r` has the flags of `s`, and every node of `s` is where it was. */
  predicate KeepsNodes(r: seq<Point>, s: seq<Point>) {
    && SameFlags(r, s)
    && forall k :: 0 <= k < |s| && s[k].onCurve ==> r[k] == s[k]
  }

  lemma KeepsNodesTrans(a: seq<Point>, b: seq<Point>, c: seq<Point>)
    requires KeepsNodes(b, a) && KeepsNodes(c, b)
    ensures KeepsNodes(c, a)
  {
  }

  /** Moving the handles of a join found keeps the flags and the nodes. */
  lemma HandlesMovedFrame(rule: NodeRule, atan2: Atan2Fn, s: seq<Point>, j: int, glyphVariant: bool)
    requires 0 <= j < |s| && JoinAt(atan2, s, j, glyphVariant)
    ensures KeepsNodes(HandlesMoved(rule, s, j), s)
  {
  }

  function HandlesHarmonized(rule: NodeRule, atan2: Atan2Fn, pts: seq<Point>, glyphVariant: bool): (r: seq<Point>)
    ensures SameFlags(r, pts)
  {
    HandlesUpTo(rule, atan2, pts, glyphVariant, |pts|)
  }

  // ---------------------------------------------------------------------
  // The walk

  /**
   * Walks the points of `c`; at every join found it either translates the
   * node by `ideal - current` or translates both handles by
   * `current - ideal`, and jumps to the join's second segment.
   */
  method HarmonizeContour(sqrt: real -> real, atan2: Atan2Fn, c: Contour, glyphVariant: bool, handlesVariant: bool)
    requires IsSqrt(sqrt)
    modifies c
    ensures !handlesVariant ==> c.points == NodesHarmonized(HarmonizeRule(sqrt), atan2, old(c.points), glyphVariant)
    ensures handlesVariant ==> c.points == HandlesHarmonized(HarmonizeRule(sqrt), atan2, old(c.points), glyphVariant)
  {
    ghost var orig := c.points;
    var rule := HarmonizeRule(sqrt);
    var l := |c.points|;
    var j := 0;
    while j < l
      invariant l == |orig| == |c.points| && 0 <= j <= l + 2
      invariant !handlesVariant ==> c.points == NodesUpTo(rule, atan2, orig, glyphVariant, j)
      invariant handlesVariant ==> c.points == HandlesUpTo(rule, atan2, orig, glyphVariant, j)
      decreases l - j
    {
      if !handlesVariant {
        NodesCurrent(rule, atan2, orig, glyphVariant, j);
      }
      if JoinAt(atan2, c.points, j, glyphVariant) {
        if handlesVariant {
          MoveHandles(rule, c, j);
          HandlesStep(rule, atan2, orig, glyphVariant, j);
        } else {
          MoveNode(rule, c, j);
          NodesStep(rule, atan2, orig, glyphVariant, j);
        }
        j := j + 3;
      } else {
        if handlesVariant {
          HandlesSkip(rule, atan2, orig, glyphVariant, j);
        } else {
          NodesSkip(rule, atan2, orig, glyphVariant, j);
        }
        j := j + 1;
      }
    }
    if !handlesVariant {
      NodesBeyond(rule, atan2, orig, glyphVariant, j);
    } else {
      HandlesBeyond(rule, atan2, orig, glyphVariant, j);
    }
  }

  /**
   * The node variant's work at a join found at `j`: the ideal node
   * position from the rule, and the node translated by its difference to
   * the node's current position.
   */
  method MoveNode(rule: NodeRule, c: Contour, j: int)
    requires 0 <= j < |c.points|
    modifies c
    ensures c.points == old(c.points)[Ix(|old(c.points)|, j, 3) := NodeMoved(rule, old(c.points), j)]
  {
    var l := |c.points|;
    var ideal := IdealNode(rule, c.points, j);
    var node := c.points[Ix(l, j, 3)];
    c.points := c.points[Ix(l, j, 3) := Translate(node, ideal.x - node.x, ideal.y - node.y)];
  }

  /**
   * The handles variant's work at a join found at `j`: the same
   * difference, and both handles around the node translated by its
   * opposite, first `j + 2`, then `j + 4`.
   */
  method MoveHandles(rule: NodeRule, c: Contour, j: int)
    requires 0 <= j < |c.points|
    modifies c
    ensures c.points == HandlesMoved(rule, old(c.points), j)
  {
    var s, l := c.points, |c.points|;
    var ideal := IdealNode(rule, s, j);
    var dx, dy := ideal.x - s[Ix(l, j, 3)].x, ideal.y - s[Ix(l, j, 3)].y;
    assert (dx, dy) == Delta(rule, s, j);
    var s' := s[Ix(l, j, 2) := Translate(s[Ix(l, j, 2)], -dx, -dy)];
    c.points := s'[Ix(l, j, 4) := Translate(s'[Ix(l, j, 4)], -dx, -dy)];
  }

  // ---------------------------------------------------------------------
  // The node variant, step by step

  /** Harmonizing nodes moves points and keeps every flag. */
  lemma NodesFlags(rule: NodeRule, atan2: Atan2Fn, pts: seq<Point>, glyphVariant: bool, n: int)
    ensures SameFlags(NodesUpTo(rule, atan2, pts, glyphVariant, n), pts)
  {
  }

  /**
   * When the pattern holds at `j`, the points `j + 1` .. `j + 5` are still
   * the original ones: four of them are handles, which no join moves, and
   * the node is moved only by the join at `j`.
   */
  lemma NodesIntact(rule: NodeRule, atan2: Atan2Fn, pts: seq<Point>, glyphVariant: bool, j: int, d: int)
    requires 0 <= j < |pts| && JoinPattern(pts, j, glyphVariant) && 1 <= d <= 5
    ensures NodesUpTo(rule, atan2, pts, glyphVariant, j)[Ix(|pts|, j, d)] == pts[Ix(|pts|, j, d)]
  {
    var l := |pts|;
    SegmentLength(pts, j, glyphVariant);
    var w := NodeOwner(atan2, pts, glyphVariant, Ix(l, j, d));
    if d == 3 && w >= 0 {
      IxInjective(l, w, j, 3);
    }
  }

  /** The test on the partly harmonized contour at `j` agrees with the test on the original. */
  lemma NodesCurrent(rule: NodeRule, atan2: Atan2Fn, pts: seq<Point>, glyphVariant: bool, j: int)
    requires 0 <= j < |pts|
    ensures var s := NodesUpTo(rule, atan2, pts, glyphVariant, j);
      && JoinAt(atan2, s, j, glyphVariant) == JoinAt(atan2, pts, j, glyphVariant)
      && (JoinAt(atan2, pts, j, glyphVariant) ==> NodeMoved(rule, s, j) == NodeMoved(rule, pts, j))
  {
    var s := NodesUpTo(rule, atan2, pts, glyphVariant, j);
    NodesFlags(rule, atan2, pts, glyphVariant, j);
    JoinPatternFlags(s, pts, j, glyphVariant);
    if JoinPattern(pts, j, glyphVariant) {
      NodesIntact(rule, atan2, pts, glyphVariant, j, 1);
      NodesIntact(rule, atan2, pts, glyphVariant, j, 2);
      NodesIntact(rule, atan2, pts, glyphVariant, j, 3);
      NodesIntact(rule, atan2, pts, glyphVariant, j, 4);
      NodesIntact(rule, atan2, pts, glyphVariant, j, 5);
      assert IdealNode(rule, s, j) == IdealNode(rule, pts, j);
    }
  }

  /** A point where no join is found adds nothing. */
  lemma NodesSkip(rule: NodeRule, atan2: Atan2Fn, pts: seq<Point>, glyphVariant: bool, j: int)
    requires 0 <= j < |pts| && !JoinAt(atan2, pts, j, glyphVariant)
    ensures NodesUpTo(rule, atan2, pts, glyphVariant, j + 1) == NodesUpTo(rule, atan2, pts, glyphVariant, j)
  {
    var r, s := NodesUpTo(rule, atan2, pts, glyphVariant, j + 1), NodesUpTo(rule, atan2, pts, glyphVariant, j);
    assert forall k | 0 <= k < |pts| :: r[k] == s[k];
  }

  /** The node of a join found at `j` belongs to that join. */
  lemma NodeOwnerOfJoin(atan2: Atan2Fn, pts: seq<Point>, glyphVariant: bool, j: int)
    requires 0 <= j < |pts| && JoinAt(atan2, pts, j, glyphVariant)
    ensures NodeOwner(atan2, pts, glyphVariant, Ix(|pts|, j, 3)) == j
  {
    var l := |pts|;
    SegmentLength(pts, j, glyphVariant);
    IxAdd(l, j, 3, l - 3);
  }

  /** Two joins found do not start one or two points apart. */
  lemma JoinsApart(atan2: Atan2Fn, pts: seq<Point>, glyphVariant: bool, j: int, w: int)
    requires 0 <= j < |pts| && JoinAt(atan2, pts, j, glyphVariant)
    requires 0 <= w < |pts| && JoinAt(atan2, pts, w, glyphVariant)
    ensures !(j < w < j + 3)
  {
    var l := |pts|;
    SegmentLength(pts, j, glyphVariant);
    SegmentsApart(pts, j, glyphVariant);
    if j + 1 < l {
      assert Ix(l, j, 1) == j + 1;
    }
    if j + 2 < l {
      assert Ix(l, j, 2) == j + 2;
    }
  }

  /** One point, before and after the join found at `j` is harmonized. */
  lemma NodesStepPoint(rule: NodeRule, atan2: Atan2Fn, pts: seq<Point>, glyphVariant: bool, j: int, k: int)
    requires 0 <= j < |pts| && JoinAt(atan2, pts, j, glyphVariant) && 0 <= k < |pts|
    ensures NodesPoint(rule, atan2, pts, glyphVariant, j + 3, k)
      == if k == Ix(|pts|, j, 3) then NodeMoved(rule, pts, j) else NodesPoint(rule, atan2, pts, glyphVariant, j, k)
  {
    var w := NodeOwner(atan2, pts, glyphVariant, k);
    if w >= 0 {
      JoinsApart(atan2, pts, glyphVariant, j, w);
    }
    if k == Ix(|pts|, j, 3) {
      NodeOwnerOfJoin(atan2, pts, glyphVariant, j);
    }
  }

  /** Translating the node of the join found at `j` harmonizes every join found up to `j + 2`. */
  lemma NodesStep(rule: NodeRule, atan2: Atan2Fn, pts: seq<Point>, glyphVariant: bool, j: int)
    requires 0 <= j < |pts| && JoinAt(atan2, pts, j, glyphVariant)
    ensures NodesUpTo(rule, atan2, pts, glyphVariant, j + 3)
      == NodesUpTo(rule, atan2, pts, glyphVariant, j)[Ix(|pts|, j, 3) := NodeMoved(rule, pts, j)]
  {
    var r := NodesUpTo(rule, atan2, pts, glyphVariant, j + 3);
    var u := NodesUpTo(rule, atan2, pts, glyphVariant, j)[Ix(|pts|, j, 3) := NodeMoved(rule, pts, j)];
    forall k | 0 <= k < |pts|
      ensures r[k] == u[k]
    {
      NodesStepPoint(rule, atan2, pts, glyphVariant, j, k);
    }
  }

  /** Past the last point, nothing more is harmonized. */
  lemma NodesBeyond(rule: NodeRule, atan2: Atan2Fn, pts: seq<Point>, glyphVariant: bool, n: int)
    requires n >= |pts|
    ensures NodesUpTo(rule, atan2, pts, glyphVariant, n) == NodesHarmonized(rule, atan2, pts, glyphVariant)
  {
    var r, s := NodesUpTo(rule, atan2, pts, glyphVariant, n), NodesHarmonized(rule, atan2, pts, glyphVariant);
    assert forall k | 0 <= k < |pts| :: r[k] == s[k];
  }

  // ---------------------------------------------------------------------
  // The handles variant, step by step

  /**
   * After moving the handles of the join found at `j`, the next two
   * points start no join, so the walk may jump over them.
   */
  lemma HandlesStep(rule: NodeRule, atan2: Atan2Fn, pts: seq<Point>, glyphVariant: bool, j: nat)
    requires j < |pts|
    requires JoinAt(atan2, HandlesUpTo(rule, atan2, pts, glyphVariant, j), j, glyphVariant)
    ensures HandlesUpTo(rule, atan2, pts, glyphVariant, j + 3)
      == HandlesMoved(rule, HandlesUpTo(rule, atan2, pts, glyphVariant, j), j)
  {
    var s := HandlesUpTo(rule, atan2, pts, glyphVariant, j);
    var s1 := HandlesUpTo(rule, atan2, pts, glyphVariant, j + 1);
    assert s1 == HandlesNext(rule, atan2, s, glyphVariant, j) == HandlesMoved(rule, s, j);
    SegmentAtFlags(s, s1, j, glyphVariant);
    HandlesIdleAfter(rule, atan2, s1, glyphVariant, j, 1);
    assert HandlesUpTo(rule, atan2, pts, glyphVariant, j + 2) == s1;
    HandlesIdleAfter(rule, atan2, s1, glyphVariant, j, 2);
  }

  /** The two points after a segment found start no join, so their visits move nothing. */
  lemma HandlesIdleAfter(rule: NodeRule, atan2: Atan2Fn, s: seq<Point>, glyphVariant: bool, j: nat, d: int)
    requires j < |s| && SegmentAt(s, j, glyphVariant) && 1 <= d <= 2
    ensures HandlesNext(rule, atan2, s, glyphVariant, j + d) == s
  {
    var l := |s|;
    if j + d < l {
      assert Ix(l, j, d) == j + d;
      SegmentsApart(s, j, glyphVariant);
    }
  }

  /** A point where no join is found moves nothing. */
  lemma HandlesSkip(rule: NodeRule, atan2: Atan2Fn, pts: seq<Point>, glyphVariant: bool, j: nat)
    requires j < |pts| && !JoinAt(atan2, HandlesUpTo(rule, atan2, pts, glyphVariant, j), j, glyphVariant)
    ensures HandlesUpTo(rule, atan2, pts, glyphVariant, j + 1) == HandlesUpTo(rule, atan2, pts, glyphVariant, j)
  {
  }

  /** Past the last point, nothing more is moved. */
  lemma HandlesBeyond(rule: NodeRule, atan2: Atan2Fn, pts: seq<Point>, glyphVariant: bool, n: nat)
    requires |pts| <= n <= |pts| + 2
    ensures HandlesUpTo(rule, atan2, pts, glyphVariant, n) == HandlesHarmonized(rule, atan2, pts, glyphVariant)
  {
    var l := |pts|;
    var s := HandlesUpTo(rule, atan2, pts, glyphVariant, l);
    if n > l {
      assert HandlesUpTo(rule, atan2, pts, glyphVariant, l + 1) == HandlesNext(rule, atan2, s, glyphVariant, l) == s;
    }
    if n > l + 1 {
      assert HandlesUpTo(rule, atan2, pts, glyphVariant, l + 2) == HandlesNext(rule, atan2, s, glyphVariant, l + 1) == s;
    }
  }

  // ---------------------------------------------------------------------
  // What the walk achieves

  /** The node of a join found at `j` ends at the ideal position `rule` gives it, with its flags. */
  lemma NodesHarmonizedAt(rule: NodeRule, atan2: Atan2Fn, pts: seq<Point>, glyphVariant: bool, j: int)
    requires 0 <= j < |pts| && JoinAt(atan2, pts, j, glyphVariant)
    ensures var n := NodesHarmonized(rule, atan2, pts, glyphVariant)[Ix(|pts|, j, 3)];
      && n.onCurve == pts[Ix(|pts|, j, 3)].onCurve && n.selected == pts[Ix(|pts|, j, 3)].selected
      && Pos(n) == IdealNode(rule, pts, j)
  {
    NodeOwnerOfJoin(atan2, pts, glyphVariant, j);
  }

  /**
   * In the node variant, the node of every join found on the original
   * contour moves to the position `harmonize` computes from the original
   * points, keeping its flags; where `harmonize` does not apply it stays.
   * `Balance.HarmonizeDivides` says where that position lies.
   */
  lemma NodesHarmonizedJoin(sqrt: real -> real, atan2: Atan2Fn, pts: seq<Point>, glyphVariant: bool, j: int)
    requires IsSqrt(sqrt) && 0 <= j < |pts| && JoinAt(atan2, pts, j, glyphVariant)
    ensures var l, r := |pts|, NodesHarmonized(HarmonizeRule(sqrt), atan2, pts, glyphVariant);
      var a1, a2, a3 := Pos(pts[Ix(l, j, 1)]), Pos(pts[Ix(l, j, 2)]), Pos(pts[Ix(l, j, 3)]);
      var b1, b2 := Pos(pts[Ix(l, j, 4)]), Pos(pts[Ix(l, j, 5)]);
      var n := r[Ix(l, j, 3)];
      && n.onCurve == pts[Ix(l, j, 3)].onCurve && n.selected == pts[Ix(l, j, 3)].selected
      && Pos(n) == Harmonize(sqrt, a1, a2, a3, b1, b2)
      && (!HarmonizeApplies(sqrt, a1, a2, b1, b2) ==> Pos(n) == a3)
  {
    NodesHarmonizedAt(HarmonizeRule(sqrt), atan2, pts, glyphVariant, j);
    IdealNodeOfHarmonize(sqrt, pts, j);
  }

  /**
   * The node variant keeps the number of points and every flag, never
   * moves a handle, and moves only nodes of joins found.
   */
  lemma NodesHarmonizedFrame(rule: NodeRule, atan2: Atan2Fn, pts: seq<Point>, glyphVariant: bool, k: int)
    requires 0 <= k < |pts|
    ensures SameFlags(NodesHarmonized(rule, atan2, pts, glyphVariant), pts)
    ensures !pts[k].onCurve ==> NodesHarmonized(rule, atan2, pts, glyphVariant)[k] == pts[k]
    ensures NodesHarmonized(rule, atan2, pts, glyphVariant)[k] != pts[k] ==>
      exists w :: 0 <= w < |pts| && JoinAt(atan2, pts, w, glyphVariant) && k == Ix(|pts|, w, 3)
  {
    NodesFlags(rule, atan2, pts, glyphVariant, |pts|);
    var w := NodeOwner(atan2, pts, glyphVariant, k);
    if w >= 0 {
      assert 0 <= w < |pts| && JoinAt(atan2, pts, w, glyphVariant);
    }
  }

  /** The handle `k` is one of the two handles of a join pattern at `w`. */
  predicate Touches(pts: seq<Point>, w: int, glyphVariant: bool, k: int) {
    && 0 <= w < |pts|
    && JoinPattern(pts, w, glyphVariant)
    && (k == Ix(|pts|, w, 2) || k == Ix(|pts|, w, 4))
  }

  /**
   * One step of the handles walk, on a contour `s` with the flags of
   * `pts`, changes only the handles of a join pattern at `j` on `pts`.
   */
  lemma HandlesNextTouches(rule: NodeRule, atan2: Atan2Fn, pts: seq<Point>, s: seq<Point>, glyphVariant: bool,
                           j: int, k: int)
    requires SameFlags(s, pts) && 0 <= j && 0 <= k < |s|
    ensures HandlesNext(rule, atan2, s, glyphVariant, j)[k] != s[k] ==> Touches(pts, j, glyphVariant, k)
  {
    if j < |s| {
      JoinPatternFlags(s, pts, j, glyphVariant);
    }
  }

  /**
   * The handles variant moves only the handles `j + 2` and `j + 4` of joins
   * found, the pattern of each read off the original flags.
   */
  lemma {:induction false} HandlesHarmonizedFrame(rule: NodeRule, atan2: Atan2Fn, pts: seq<Point>, glyphVariant: bool,
                                                  n: nat, k: int)
    requires 0 <= k < |pts|
    ensures HandlesUpTo(rule, atan2, pts, glyphVariant, n)[k] != pts[k] ==>
      exists w :: Touches(pts, w, glyphVariant, k)
  {
    if n > 0 {
      var s := HandlesUpTo(rule, atan2, pts, glyphVariant, n - 1);
      var r := HandlesNext(rule, atan2, s, glyphVariant, n - 1);
      assert HandlesUpTo(rule, atan2, pts, glyphVariant, n) == r;
      if s[k] != pts[k] {
        HandlesHarmonizedFrame(rule, atan2, pts, glyphVariant, n - 1, k);
      } else if r[k] != s[k] {
        HandlesNextTouches(rule, atan2, pts, s, glyphVariant, n - 1, k);
        assert Touches(pts, n - 1, glyphVariant, k);
      }
    }
  }

  lemma LerpShifted(a: Coord, b: Coord, k: real, dx: real, dy: real)
    ensures Lerp(Coord(a.x - dx, a.y - dy), Coord(b.x - dx, b.y - dy), k)
         == Coord(Lerp(a, b, k).x - dx, Lerp(a, b, k).y - dy)
  {
    assert (b.x - dx) - (a.x - dx) == b.x - a.x;
    assert (b.y - dy) - (a.y - dy) == b.y - a.y;
  }

  /**
   * Shifting the handles of a join: the node stays, the handles `j + 2`
   * and `j + 4` move by the same `-dx, -dy`, and a zero shift changes
   * nothing.
   */
  lemma HandlesShiftedShape(s: seq<Point>, j: int, dx: real, dy: real)
    requires 0 <= j < |s| && |s| >= 4
    ensures var l, r := |s|, HandlesShifted(s, j, dx, dy);
      && r[Ix(l, j, 3)] == s[Ix(l, j, 3)]
      && Pos(r[Ix(l, j, 2)]) == Coord(s[Ix(l, j, 2)].x - dx, s[Ix(l, j, 2)].y - dy)
      && Pos(r[Ix(l, j, 4)]) == Coord(s[Ix(l, j, 4)].x - dx, s[Ix(l, j, 4)].y - dy)
      && (dx == 0.0 && dy == 0.0 ==> r == s)
  {
    var l, r := |s|, HandlesShifted(s, j, dx, dy);
    if dx == 0.0 && dy == 0.0 {
      assert forall k | 0 <= k < l :: r[k] == s[k];
    }
  }

  /**
   * One join in the handles variant: the node stays, both handles move by
   * the same amount, and with the exact square root, where `harmonize`
   * applies the node sits at fraction p / (p + 1) of the line between
   * the moved handles, the place `harmonize` would give it between the
   * original ones; where it does not apply, nothing moves.
   */
  lemma HandlesMovedJoin(sqrt: real -> real, atan2: Atan2Fn, s: seq<Point>, j: int, glyphVariant: bool)
    requires IsSqrt(sqrt) && 0 <= j < |s| && JoinAt(atan2, s, j, glyphVariant)
    ensures var l, r := |s|, HandlesMoved(HarmonizeRule(sqrt), s, j);
      var a1, a2, a3 := Pos(s[Ix(l, j, 1)]), Pos(s[Ix(l, j, 2)]), Pos(s[Ix(l, j, 3)]);
      var b1, b2 := Pos(s[Ix(l, j, 4)]), Pos(s[Ix(l, j, 5)]);
      && r[Ix(l, j, 3)] == s[Ix(l, j, 3)]
      && Sub(Pos(r[Ix(l, j, 2)]), a2) == Sub(Pos(r[Ix(l, j, 4)]), b1)
      && (!HarmonizeApplies(sqrt, a1, a2, b1, b2) ==> r == s)
      && (HarmonizeApplies(sqrt, a1, a2, b1, b2) ==>
           var p := HarmonyRatio(sqrt, a1, a2, b1, b2, CornerPoint(a1, a2, b1, b2).value);
           a3 == Lerp(Pos(r[Ix(l, j, 2)]), Pos(r[Ix(l, j, 4)]), p / (p + 1.0)))
  {
    var l := |s|;
    SegmentLength(s, j, glyphVariant);
    var a1, a2, a3 := Pos(s[Ix(l, j, 1)]), Pos(s[Ix(l, j, 2)]), Pos(s[Ix(l, j, 3)]);
    var b1, b2 := Pos(s[Ix(l, j, 4)]), Pos(s[Ix(l, j, 5)]);
    IdealNodeOfHarmonize(sqrt, s, j);
    var ideal := Harmonize(sqrt, a1, a2, a3, b1, b2);
    var d := Delta(HarmonizeRule(sqrt), s, j);
    assert d == (ideal.x - a3.x, ideal.y - a3.y);
    HandlesShiftedShape(s, j, d.0, d.1);
    if HarmonizeApplies(sqrt, a1, a2, b1, b2) {
      var p := HarmonyRatio(sqrt, a1, a2, b1, b2, CornerPoint(a1, a2, b1, b2).value);
      assert ideal == Lerp(a2, b1, p / (p + 1.0));
      LerpShifted(a2, b1, p / (p + 1.0), d.0, d.1);
    }
  }
}
