# harmonize / tunnify / inflection, modelled in Dafny

This project models the FontForge plug-in `harmonize_tunnify_inflection.py`:
  - Its geometry helpers: `distance`, `side`, `on_same_line`,
    `corner_point`, `inflection`, `tunnify` and `harmonize`.
  - Its in-place cubic subdivision `split`.
  - Its three contour walks: `inflection_contour`, `tunnify_contour` and
    `harmonize_contour` (node and handles variants).
  - The scan in `modify_contours` that decides whether the whole glyph is
    worked on.

Data model and layout:
  - A contour is a `class Contour` whose one field, `points: seq<Point>`,
    the walks reassign.
  - A `Point` holds its `x`, `y` coordinates as `real` and its `onCurve`
    and `selected` flags.
  - Modules follow the plug-in's layers:
    - `Geometry`: points, cross products, distances, the corner point.
    - `Inflections`: the inflection parameter and the curvature it solves
      for.
    - `Balance`: what `tunnify` and `harmonize` compute.
    - `Contours`: points, contours, `split`.
    - `Windows`: the cyclic index `(j + d) % l` and the segment test the
      walks share.
    - `TunnifyContours`, `HarmonizeContours`, `InflectionContours`: the
      three walks.
    - `Selection`: the scan.

Functions passed in as parameters:
  - `x ** .5` is a parameter, `sqrt: real -> real`.
    - Properties that need the exact root assume `IsSqrt(sqrt)`.
    - The others hold for any `sqrt`.
  - `math.atan2` is a parameter, `atan2`.
    - `on_same_line` keeps the plug-in's 0.05 threshold on the difference
      of the two directions.

How each walk is specified:
  - Each walk is a `method` with the plug-in's `while j < l` loop and its
    jumps.
  - Each is proved equal to a function of the original point list:
    - `Tunnified`: every segment found is tunnified from its original
      points.
    - `NodesHarmonized`: every join found moves its node, each from the
      original points.
    - `HandlesUpTo`: the joins are visited in order, each on the list as
      the previous visits left it.
    - `InflectedFrom`: the recursive walk over the growing list.
  - Lemmas then state what those functions do.

Behaviours of the code as it stands, which the model follows:
- `split` reads `c[i+1]` and `c[i+2]` without `% l`.
  - A segment that starts one or two points before the end of the list
    raises IndexError.
  - The model returns `IndexOutOfRange` and leaves the list unchanged.
  - `InflectionContour` returns `true` for it and stops.
- FontForge creates the seven points of the split segment unselected.
  - So both end nodes of a split segment come back as new, unselected
    points at their old positions.
- `inflection_contour` marks `c[(j+3)%l]` with `l` the length before the
  split.
  - Usually that is the new node.
  - When the split segment closes the contour (`j + 3 == l`), it is point
    0, the segment's end node. The new node at the inflection stays
    unmarked.
  - The walk models this as written. `MarkedIntended` is the corrected mark;
    see "## Findings".
- On a contour of three points (one segment closing on itself), `split`'s
  `c[0:4]` replaces three points. The contour grows by four and its node
  appears twice.
  - The segment test (`(j+3)%l != j`) keeps every walk away from this
    case.
- The linear branch of `inflection` divides the wrong value; see
  "## Findings".
  - `InflectionAsWritten` is that code as written. `tunnify` and
    `inflection_contour` call it, and so does the model.
  - `Inflection` is the corrected definition. The properties of the
    inflection parameter are proved about it.

## Model

| member | source | states |
|---|---|---|
| `Geometry.Side` | harmonize_tunnify_inflection.py:42-49 | result is 1, 0 or -1, and 1 / -1 / 0 exactly when the cross product is positive / negative / zero |
| `Geometry.SideReversed` | harmonize_tunnify_inflection.py:42-49 | swapping the two points of the line negates the side |
| `Geometry.SideRotated` | harmonize_tunnify_inflection.py:42-49 | the side is an orientation of three points, unchanged by rotating them |
| `Geometry.CrossOfLerp` | harmonize_tunnify_inflection.py:42-49 | every point on the line through a and b has cross product 0 with a and b |
| `Geometry.Root` | harmonize_tunnify_inflection.py:36 | with the exact root: `s ** .5` is 0 at 0, positive on positive s, and squares back to s |
| `Geometry.Norm` | harmonize_tunnify_inflection.py:36 | with the exact root: a length is non-negative, zero only for the zero vector, and squares to the sum of squares |
| `Geometry.Distance` | harmonize_tunnify_inflection.py:35-36 | with the exact root: `distance` is non-negative and zero exactly when the two points coincide |
| `Geometry.DistanceSymmetric` | harmonize_tunnify_inflection.py:35-36 | with the exact root: `distance(a, b) == distance(b, a)` |
| `Geometry.NormScale` | harmonize_tunnify_inflection.py:35-36 | with the exact root: scaling a vector by k >= 0 scales its length by k |
| `Geometry.DistanceAlongLerp` | harmonize_tunnify_inflection.py:35-36 | with the exact root: the point at fraction t >= 0 from a toward b is t times the distance from a to b away from a |
| `Geometry.DistanceRestOfLerp` | harmonize_tunnify_inflection.py:35-36 | with the exact root: that point is (1 - t) times the distance from a to b away from b |
| `Geometry.OnSameLine` | harmonize_tunnify_inflection.py:53-54 | a, b, c pass when the directions a->b and b->c differ by less than 0.05; `OnSameLineWhenAligned` is its partner |
| `Geometry.OnSameLineWhenAligned` | harmonize_tunnify_inflection.py:53-54 | exactly collinear points with b strictly between a and c pass `on_same_line`, for any `atan2` that sees only directions |
| `Geometry.CornerPoint` | harmonize_tunnify_inflection.py:90-102 | None exactly when the determinant (tested once) is 0; otherwise the point lies on the line a1--a2 and on the line b1--b2 |
| `Geometry.CornerPointOnBothLines` | harmonize_tunnify_inflection.py:97-102 | the closed-form point of lines 97-102 is collinear with a1, a2 and with b1, b2 |
| `Geometry.CornerPointUnique` | harmonize_tunnify_inflection.py:90-102 | when the determinant is not 0, every point on both lines is the returned corner: the intersection is unique |
| `Geometry.LerpAsScale` | harmonize_tunnify_inflection.py:171 | `(1 - t) a + t c` is a moved by t times c - a, so for t >= 0 it lies from a toward c |
| `Geometry.CrossOfLerpOnLine` | harmonize_tunnify_inflection.py:171 | a point between two points of a line is on the line (the tunnified handles stay on their lines) |
| `Inflections.AA` | harmonize_tunnify_inflection.py:109 | `aa`, the code's expression term by term; `CoefficientsAsWedges` and `CurvatureIdentity` give its meaning |
| `Inflections.BB` | harmonize_tunnify_inflection.py:110 | `bb`, likewise |
| `Inflections.CC` | harmonize_tunnify_inflection.py:111 | `cc`, likewise |
| `Inflections.CoefficientsAsWedges` | harmonize_tunnify_inflection.py:109-111 | the expanded `aa`, `bb`, `cc` are cross products of the first, second and third differences of the control points |
| `Inflections.CurvatureIdentity` | harmonize_tunnify_inflection.py:108-111 | B'(t) x B''(t) equals 18 (aa t^2 + bb t + cc): the quadratic is the curvature numerator |
| `Inflections.QuadraticRoot` | harmonize_tunnify_inflection.py:115-118 | both values of the quadratic formula solve aa t^2 + bb t + cc = 0 |
| `Inflections.QuadraticRootsOnly` | harmonize_tunnify_inflection.py:115-118 | no other value solves it |
| `Inflections.LinearNoRoot` | harmonize_tunnify_inflection.py:112-113 | with aa = 0 there is no interior root when -cc/bb is outside the range, or bb = 0 and cc != 0 |
| `Inflections.NoRealRoot` | harmonize_tunnify_inflection.py:115-116 | a negative discriminant means no real root |
| `Inflections.Inflection` | harmonize_tunnify_inflection.py:107-123 | a result is always in (0.001, 0.999); when aa = 0 it returns a value exactly when bb != 0 and -cc/bb is in that range, so never through the quadratic branch |
| `Inflections.QuadraticBranch` | harmonize_tunnify_inflection.py:115-122 | a value of the quadratic branch is interior and needs aa != 0 |
| `Inflections.QuadraticBranchIsRoot` | harmonize_tunnify_inflection.py:115-122 | with the exact root, the value it returns solves the quadratic |
| `Inflections.QuadraticBranchComplete` | harmonize_tunnify_inflection.py:115-123 | with the exact root, when it returns None (aa != 0), no interior t solves the quadratic |
| `Inflections.InflectionIsRoot` | harmonize_tunnify_inflection.py:107-123 | with the exact root, a returned t is interior and a zero of the curvature: an inflection |
| `Inflections.InflectionComplete` | harmonize_tunnify_inflection.py:107-123 | with the exact root, None means the curvature vanishes nowhere in the interior (unless it is identically zero) |
| `Inflections.InflectionAsWritten` | harmonize_tunnify_inflection.py:107-123 | the code as written: with aa = 0 it returns a value exactly when bb != 0 and -c/bb (c the first handle's x) is interior; otherwise it agrees with `Inflection` |
| `Inflections.InflectionAsWrittenSpurious` | harmonize_tunnify_inflection.py:112-113 | on (0,0), (-2,3), (0,2), (3,0) the code returns 2/3, where the curvature is not 0, while `Inflection` returns None |
| `Balance.Tunnify` | harmonize_tunnify_inflection.py:157-172 | the handles come back unchanged unless all of these hold: both handles are strictly on one side of a0--a3; `inflection` as written returns None; the corner exists and is distinct from both nodes. Otherwise each new handle stays on its own handle line |
| `Balance.TunniDepth` | harmonize_tunnify_inflection.py:168-170 | the common depth lies between the two handles' relative depths t1 and t2, at equal distance from both |
| `Balance.TunniDepthNonnegative` | harmonize_tunnify_inflection.py:168-170 | with the exact root, the common depth t = (t1 + t2) / 2 is non-negative |
| `Balance.DepthAlongLerp` | harmonize_tunnify_inflection.py:171 | with the exact root, the point at fraction t from a node toward the corner has relative depth t |
| `Balance.TunnifyApplies` | harmonize_tunnify_inflection.py:160-167 | the guards of `tunnify`, in order: both handles strictly on one side of a0--a3 (product of the sides > 0); `inflection` as written returns None; the corner exists; it is distinct from a0 and from a3. `Tunnify` and `TunnifyBalanced` state what follows from them |
| `Balance.TunnifyBalanced` | harmonize_tunnify_inflection.py:157-171 | with the exact root and with t the common depth: t >= 0; each new handle is its node moved by t times (corner - node), so it lies toward the corner; each sits at relative depth t, the mean of the two original depths |
| `Balance.HarmonizeApplies` | harmonize_tunnify_inflection.py:213-217 | the guards of `harmonize`: the corner of a1--a2 and b1--b2 exists, it is distinct from a2, and b1 is distinct from b2; `Harmonize` returns a3 when one fails |
| `Balance.RatioBefore` | harmonize_tunnify_inflection.py:218 | `pa`, the distance a1--a2 over the distance corner--a2; `HarmonyRatio` and `HarmonizeDivides` use it |
| `Balance.RatioAfter` | harmonize_tunnify_inflection.py:219 | `pb`, the distance corner--b1 over the distance b1--b2; `HarmonyRatio` and `HarmonizeDivides` use it |
| `Balance.HarmonyRatio` | harmonize_tunnify_inflection.py:218-220 | with the exact root, p is non-negative and p^2 = pa * pb |
| `Balance.Harmonize` | harmonize_tunnify_inflection.py:212-225 | returns a3 when the corner is missing or a distance is 0; otherwise a point on the line a2--b1 |
| `Balance.DividesInRatio` | harmonize_tunnify_inflection.py:221 | with the exact root, the point at fraction p / (p + 1) from a2 toward b1 lies on the segment and divides it in the ratio p : 1 |
| `Balance.HarmonizeDivides` | harmonize_tunnify_inflection.py:212-221 | with the exact root, the harmonized node lies on the segment a2--b1 and divides it in the ratio p : 1, p the geometric mean of pa and pb |
| `Contours.SplitCheck` | harmonize_tunnify_inflection.py:62-64 | the split happens exactly when 0 < t < 1, 0 <= i, i + 2 < l, c[i] on-curve, c[i+1], c[i+2] off-curve and c[(i+3)%l] on-curve; IndexError exactly when the unreduced reads c[i+1] or c[i+2] run past the end |
| `Contours.DoubleSegment` | harmonize_tunnify_inflection.py:77-80 | the two new segments are seven points |
| `Contours.MakeFirst` | harmonize_tunnify_inflection.py:82-84 | `makeFirst(k)` is the rotation that brings point k to the front |
| `Contours.ReplaceFront` | harmonize_tunnify_inflection.py:83 | `c[0:4] = ds` replaces the first four points, or all points of a shorter list |
| `Contours.SegmentSplit` | harmonize_tunnify_inflection.py:65-80 | the doublesegment built for the segment at i has seven points |
| `Contours.Split` | harmonize_tunnify_inflection.py:60-86 | the outcome is the guard's; when it splits the list becomes `SplitResult`; otherwise it is unchanged |
| `Contours.QuadraticDeCasteljau` | harmonize_tunnify_inflection.py:65-74 | two interpolation steps give the quadratic Bernstein form |
| `Contours.CubicDeCasteljau` | harmonize_tunnify_inflection.py:65-76 | three steps give the cubic Bernstein form |
| `Contours.DeCasteljauPoint` | harmonize_tunnify_inflection.py:65-76 | the construction at t gives the point of the curve at t |
| `Contours.DoubleSegmentShape` | harmonize_tunnify_inflection.py:65-80 | flags on, off, off, on, off, off, on, all unselected; ends at the old nodes; outer handles at fraction t on the old handle lines; inner handles at fraction t between those and the point at t on the middle handle line; new node the curve point at t, collinear with its two handles |
| `Contours.FirstHalfAt` | harmonize_tunnify_inflection.py:65-76 | in one coordinate: the first half's cubic at s is the old cubic at s t |
| `Contours.SecondHalfAt` | harmonize_tunnify_inflection.py:65-76 | in one coordinate: the second half's cubic at s is the old cubic at t + s (1 - t) |
| `Contours.BezierReversedAt` | harmonize_tunnify_inflection.py:65-76 | a cubic read backwards: control points reversed, parameter 1 - x |
| `Contours.DoubleSegmentHalves` | harmonize_tunnify_inflection.py:65-80 | the two new segments trace the old one: the first half at s is the old curve at s t, the second half at s is the old curve at t + s (1 - t) |
| `Contours.OnCurveCountOfDoubleSegment` | harmonize_tunnify_inflection.py:77-80 | the double segment has three nodes |
| `Contours.Splice` | harmonize_tunnify_inflection.py:81-86 | putting seven points in place of a four-point window makes the list three longer, or seven long on a list of three; `SpliceGeneric` and `SpliceWrap` give the contents |
| `Contours.SplitResult` | harmonize_tunnify_inflection.py:60-86 | the list after a split is three points longer, or seven long on a three-point contour; `SplitGeneric` and `SplitWrap` give the contents |
| `Contours.SpliceGeneric` | harmonize_tunnify_inflection.py:85-86 | generic case: the seven points replace the window i .. i + 3, the rest kept in place |
| `Contours.SpliceWrap` | harmonize_tunnify_inflection.py:81-84 | wrap case: the list reads the seventh new point, the old points 1 .. i - 1, then the first six new points |
| `Contours.SplitGeneric` | harmonize_tunnify_inflection.py:85-86 | generic case: points before i unchanged, the window replaced by the seven points, points after i + 3 shifted by three |
| `Contours.SplitWrap` | harmonize_tunnify_inflection.py:81-84 | wrap case (i + 3 == l, l >= 4): point 0 is the new end node at old point 0's position, points 1 .. i - 1 untouched, the first six new points after them |
| `Contours.SplitSingleSegment` | harmonize_tunnify_inflection.py:81-84 | a three-point contour grows to seven with its node at both index 0 and index 1 |
| `Contours.SplitGrowth` | harmonize_tunnify_inflection.py:60-86 | away from three points, a split adds exactly three points, exactly one of them a node |
| `Windows.Ix` | harmonize_tunnify_inflection.py:138-142 | `(j + d) % l` is an index, spelled out for offsets below 3 l |
| `Windows.IxAdd` | harmonize_tunnify_inflection.py:138-142 | moving a then b places is moving a + b places |
| `Windows.IxInjective` | harmonize_tunnify_inflection.py:138-142 | different starts stay different after the same move |
| `Windows.SegmentAt` | harmonize_tunnify_inflection.py:137-142 | the shared segment test: j eligible, the next two off-curve, the third on-curve, eligible and not j; its partners are `SegmentLength`, `SegmentsApart` and `SegmentAtFlags` |
| `Windows.SegmentLength` | harmonize_tunnify_inflection.py:137-142 | a segment is only found on a contour of at least four points |
| `Windows.SegmentsApart` | harmonize_tunnify_inflection.py:137-142 | no segment is found one or two points after a segment found |
| `Windows.SegmentAtFlags` | harmonize_tunnify_inflection.py:186-191 | the segment test reads only the flags |
| `Windows.Translate` | harmonize_tunnify_inflection.py:261-264 | `transform(psMat.translate(dx, dy))` adds (dx, dy) and keeps the flags |
| `TunnifyContours.TunnifyContour` | harmonize_tunnify_inflection.py:177-196 | the walk leaves c as `Tunnified` of the original points: every segment found tunnified from its original four points |
| `TunnifyContours.HandleOwner` | harmonize_tunnify_inflection.py:186-192 | a point has an owner only when it is the first or second handle of a segment found there |
| `TunnifyContours.SegmentOwners` | harmonize_tunnify_inflection.py:186-195 | of a segment found, exactly the two handles belong to it; the nodes belong to none |
| `TunnifyContours.TunnifiedFlags` | harmonize_tunnify_inflection.py:192-194 | the length and every flag are kept |
| `TunnifyContours.TunnifyStep` | harmonize_tunnify_inflection.py:186-195 | at a segment found the walk reads the original four points and writes just its two handles |
| `TunnifyContours.TunnifySkip` | harmonize_tunnify_inflection.py:196 | a point where no segment is found adds nothing |
| `TunnifyContours.TunnifiedSegment` | harmonize_tunnify_inflection.py:192-194 | every segment found keeps its nodes and gets the handles `tunnify` gives its original points |
| `TunnifyContours.TunnifiedFrame` | harmonize_tunnify_inflection.py:192-194 | length and flags kept, no node moves, and a changed point is a handle of a segment found |
| `TunnifyContours.TunnifiedBalanced` | harmonize_tunnify_inflection.py:157-172 | with the exact root, on the final contour each segment found either keeps its handles where `tunnify` does not apply, or has both handles moved from their nodes by the same fraction t >= 0 of the way toward the corner, the common relative depth |
| `HarmonizeContours.IdealNodeOfHarmonize` | harmonize_tunnify_inflection.py:254-258 | the ideal position is `harmonize` of the points j + 1 .. j + 5 |
| `HarmonizeContours.JoinAt` | harmonize_tunnify_inflection.py:241-253 | the join test: j eligible; j + 1, j + 2, j + 4, j + 5 off-curve; j + 3 and j + 6 on-curve and eligible; neither of them is j; and the handles j + 2, j + 4 on one line with the node j + 3. `JoinSegments` is its partner |
| `HarmonizeContours.JoinSegments` | harmonize_tunnify_inflection.py:241-253 | a join is two segments found one after the other, the second starting at the node j + 3 |
| `HarmonizeContours.Delta` | harmonize_tunnify_inflection.py:259 | the translation by (deltax, deltay) carries the node exactly onto its ideal position |
| `HarmonizeContours.JoinPatternFlags` | harmonize_tunnify_inflection.py:241-251 | the flag part of the join test reads only the flags |
| `HarmonizeContours.NodeOwner` | harmonize_tunnify_inflection.py:241-253 | a point has an owner only when it is the node j + 3 of a join found at j |
| `HarmonizeContours.HarmonizeContour` | harmonize_tunnify_inflection.py:232-267 | node variant: c becomes `NodesHarmonized` of the original points; handles variant: c becomes `HandlesHarmonized`, the joins visited in order |
| `HarmonizeContours.MoveNode` | harmonize_tunnify_inflection.py:254-259 | only point (j+3)%l changes, translated by ideal minus current |
| `HarmonizeContours.MoveHandles` | harmonize_tunnify_inflection.py:254-262 | only points (j+2)%l and (j+4)%l change, each translated by current minus ideal |
| `HarmonizeContours.HandlesMoved` | harmonize_tunnify_inflection.py:259-262 | moving the handles keeps the length |
| `HarmonizeContours.HandlesUpTo` | harmonize_tunnify_inflection.py:232-267 | visiting the joins in order keeps every flag and every node |
| `HarmonizeContours.HandlesNext` | harmonize_tunnify_inflection.py:241-262 | one visit keeps every flag and every node |
| `HarmonizeContours.HandlesMovedFrame` | harmonize_tunnify_inflection.py:260-262 | moving the handles of a join found keeps every flag and node |
| `HarmonizeContours.HandlesHarmonized` | harmonize_tunnify_inflection.py:232-267 | the handles variant keeps the length and every flag |
| `HarmonizeContours.NodesFlags` | harmonize_tunnify_inflection.py:263-264 | the node variant keeps the length and every flag |
| `HarmonizeContours.NodesIntact` | harmonize_tunnify_inflection.py:241-258 | when the join is reached, its points j + 1 .. j + 5 are still the original ones |
| `HarmonizeContours.NodesCurrent` | harmonize_tunnify_inflection.py:241-259 | the test and the moved node on the partly harmonized contour are those on the original |
| `HarmonizeContours.NodesSkip` | harmonize_tunnify_inflection.py:266-267 | a point where no join is found adds nothing |
| `HarmonizeContours.NodeOwnerOfJoin` | harmonize_tunnify_inflection.py:241-253 | the node of a join found belongs to that join |
| `HarmonizeContours.JoinsApart` | harmonize_tunnify_inflection.py:241-253 | two joins found do not start one or two points apart |
| `HarmonizeContours.NodesStepPoint` | harmonize_tunnify_inflection.py:263-265 | after a join at j, only the point (j+3)%l differs |
| `HarmonizeContours.NodesStep` | harmonize_tunnify_inflection.py:263-265 | translating the node of the join at j and jumping by 3 harmonizes every join found up to j + 2 |
| `HarmonizeContours.NodesBeyond` | harmonize_tunnify_inflection.py:235 | past the last point nothing more is harmonized |
| `HarmonizeContours.HandlesStep` | harmonize_tunnify_inflection.py:260-265 | the two points after a join visited start no join, so the jump by 3 skips no work |
| `HarmonizeContours.HandlesIdleAfter` | harmonize_tunnify_inflection.py:241-246 | the visits of the two points after a segment found move nothing |
| `HarmonizeContours.HandlesSkip` | harmonize_tunnify_inflection.py:266-267 | a point where no join is found moves nothing |
| `HarmonizeContours.HandlesBeyond` | harmonize_tunnify_inflection.py:235 | the walk may end up to two points past the end, with nothing more moved |
| `HarmonizeContours.NodesHarmonizedAt` | harmonize_tunnify_inflection.py:254-264 | the node of each join found ends at the ideal position from the original points, flags kept |
| `HarmonizeContours.NodesHarmonizedJoin` | harmonize_tunnify_inflection.py:254-264 | with the exact root, the node of every join found moves to `harmonize` of the original points and stays where `harmonize` does not apply |
| `HarmonizeContours.NodesHarmonizedFrame` | harmonize_tunnify_inflection.py:263-264 | node variant: flags kept, no handle moves, and a changed point is the node of a join found |
| `HarmonizeContours.HandlesNextTouches` | harmonize_tunnify_inflection.py:260-262 | one visit changes only the handles j + 2, j + 4 of a join pattern at j |
| `HarmonizeContours.HandlesHarmonizedFrame` | harmonize_tunnify_inflection.py:260-262 | handles variant: a changed point is a handle j + 2 or j + 4 of a join pattern on the original flags |
| `HarmonizeContours.HandlesShiftedShape` | harmonize_tunnify_inflection.py:261-262 | the node stays, both handles move by the same (-dx, -dy), and a zero shift changes nothing |
| `HarmonizeContours.HandlesMovedJoin` | harmonize_tunnify_inflection.py:254-262 | with the exact root, the node stays, both handles move by the same vector, nothing moves where `harmonize` does not apply, and otherwise the node lies at fraction p / (p + 1) between the moved handles |
| `InflectionContours.InflectionRule` | harmonize_tunnify_inflection.py:143-146 | `inflection` as written only hands `split` parameters strictly between 0 and 1 |
| `InflectionContours.WindowTime` | harmonize_tunnify_inflection.py:143-144 | the time rule applied to the window c[j], c[(j+1)%l], c[(j+2)%l], c[(j+3)%l]; `InflectionRule` says its values are interior |
| `InflectionContours.Marked` | harmonize_tunnify_inflection.py:147-148 | after a split, `c[(j+3)%l].selected = True` with the old l, skipped in the glyph variant; `MarkedClosingAsWritten` and `MarkedIntendedInside` state where it lands |
| `InflectionContours.Mark` | harmonize_tunnify_inflection.py:147-148 | `c[k].selected = True` selects k and changes nothing else |
| `InflectionContours.InflectedFrom` | harmonize_tunnify_inflection.py:128-152 | the walk keeps the contour cubic and never shortens it |
| `InflectionContours.InflectionContour` | harmonize_tunnify_inflection.py:128-152 | the loop, calling `inflection` as written, leaves c and the IndexError flag as `InflectedFrom` of the original points |
| `InflectionContours.SplitAndMark` | harmonize_tunnify_inflection.py:146-148 | split then mark the old (j+3)%l unless the glyph variant; an IndexError leaves c unchanged; `split` never ignores a segment found on a cubic contour |
| `InflectionContours.InflectedStep` | harmonize_tunnify_inflection.py:137-152 | each iteration: +1 where no segment, +3 where no inflection, and after a split +6 on a list three longer, still cubic; IndexError exactly when j + 3 > l |
| `InflectionContours.SplitNotIgnored` | harmonize_tunnify_inflection.py:62-64 | on a cubic contour `split` never ignores a segment found, and raises IndexError exactly when j + 3 > l |
| `InflectionContours.SplitKeepsCubic` | harmonize_tunnify_inflection.py:146-150 | a split and its mark keep the contour cubic, three points longer |
| `InflectionContours.CubicOnSameNodes` | harmonize_tunnify_inflection.py:147-148 | marking keeps the contour cubic |
| `InflectionContours.OnCurveCountSameNodes` | harmonize_tunnify_inflection.py:147-148 | marking changes no node count |
| `InflectionContours.InflectedGrowth` | harmonize_tunnify_inflection.py:128-152 | final length = initial length + 3 x (nodes added), one node per split; with no node added nothing changes |
| `InflectionContours.SplitKeepsFirstNode` | harmonize_tunnify_inflection.py:81-86 | a split and its mark keep the on-curve flag of point 0 |
| `InflectionContours.InflectedRaised` | harmonize_tunnify_inflection.py:62-63 | the walk raises IndexError only on a contour whose point 0 is off-curve |
| `InflectionContours.InflectedNothingFound` | harmonize_tunnify_inflection.py:137-152 | when no segment found has an inflection, the contour is left as it is |
| `InflectionContours.InflectedSplitInside` | harmonize_tunnify_inflection.py:143-151 | inside the list: t is what `inflection` as written returns, and the segment is replaced by its halves at t. The new node at j + 3 is the curve point at t, selected unless the glyph variant; it is a curvature zero when aa != 0, and t = -x1 / bb when aa = 0. End nodes are unselected at their old positions, the rest is kept, and the walk resumes at j + 6 |
| `InflectionContours.InflectedSplitClosing` | harmonize_tunnify_inflection.py:143-152 | closing segment: the walk ends. Point 0 is a node at its old position, marked unless the glyph variant. The new node at j + 3 is the curve point at t, unselected; it is a curvature zero when aa != 0, and t = -x1 / bb when aa = 0 |
| `InflectionContours.MarkedIntended` | harmonize_tunnify_inflection.py:147-148 | the corrected mark: `(j+3)` modulo the length after the split |
| `InflectionContours.ClosingSplitNodes` | harmonize_tunnify_inflection.py:81-84 | after splitting the closing segment, point 0 is an unselected node at its old position and the node at j + 3 is the unselected curve point at t |
| `InflectionContours.MarkedClosingAsWritten` | harmonize_tunnify_inflection.py:147-148 | as written, on a closing segment the mark selects point 0 (unless the glyph variant) and the new node at j + 3 stays unselected |
| `InflectionContours.MarkedIntendedClosing` | harmonize_tunnify_inflection.py:147-148 | with the corrected mark, the new node at j + 3 (the curve point at t) is selected unless the glyph variant, and point 0 stays unselected |
| `InflectionContours.MarkedIntendedInside` | harmonize_tunnify_inflection.py:147-148 | inside the list the corrected mark is the mark as written |
| `Selection.GlyphVariant` | harmonize_tunnify_inflection.py:279-284 | `is_glyph_variant` is true exactly when no point of any contour in the layer is selected |

## Left out

- The FontForge object model (lines 77-84, 274-275, 294) is not modelled.
  - `fontforge.contour()`, `moveTo`, `cubicTo`, layers, `activeLayer` and
    `preserveLayerAsUndo` are outside it.
  - A contour is a point list.
  - `makeFirst` is an explicit rotation.
  - The doublesegment is an explicit list of seven new points.
- Open contours are not modelled: every contour is treated as closed.
  - So `split` always takes the rotate path when `i + 3 == l` (line 81).
  - The open-contour path of line 81 is not modelled.
- `modify_contours`' action dispatch (lines 285-293), `modify_glyphs`, the
  menu registration and its enablement predicates (lines 300-336) are not
  modelled. They are host glue that only selects which walk runs on which
  contour.
- Floating-point rounding is not modelled; all arithmetic is exact over
  `real`.
  - `** .5` and `math.atan2` are parameters, not computed.
  - Properties about roots and lengths hold under `IsSqrt`.
  - Nothing is proved about `atan2` beyond the collinear case of
    `Geometry.OnSameLineWhenAligned`.
- The numerical values of `inflection`'s quadratic roots, and any
  idempotence of `tunnify`, are not stated.
- `InflectionContours.InflectedSplitInside`: the curvature zero at the new
  node is stated only when aa != 0.
  - When aa = 0 the code returns `-x1 / bb` (see "## Findings"), which is in
    general no zero of the curvature.
  - The lemma states that value instead.
- `InflectionContours.InflectedSplitClosing`: the same holds for the closing
  segment.
- `InflectionContours.InflectionContour`: the model only covers cubic
  contours (`NoOffCurveRun`, no three cyclically consecutive off-curve
  points).
  - On a contour that is not cubic, `split` could ignore a segment found
    while the walk still bumps `j` and `l` by three.
  - That desynchronised walk is not modelled.
- `HarmonizeContours.NodesHarmonizedJoin` does not state where the node
  lands. `Balance.HarmonizeDivides` states it for the same `Harmonize`
  value: on a2--b1, in the ratio p : 1.
- `HarmonizeContours.HandlesMovedJoin`: the handles variant is stated join
  by join, on the contour as the earlier visits left it.
  - The next join's inputs include handles the previous visit moved, which
    is why there is no statement about the original points.
- `Contours.SplitSingleSegment`: the three-point contour is modelled as the
  code handles it, though no walk reaches it.

## Findings

| source | as written | input that shows it | evidently intended | confidence | as-written member | corrected member |
|---|---|---|---|---|---|---|
| harmonize_tunnify_inflection.py:112-113 | the linear branch (`aa == 0`) tests and returns `-c/bb`, where `c` is the x coordinate of the first handle | segment (0,0), (-2,3), (0,2), (3,0): aa = 0, bb = 3, cc = -4, the code returns t = 2/3, but the curvature numerator 18 (3 t - 4) is never 0 on the segment | the root of `bb t + cc = 0`, `-cc/bb` | not executed | `Inflections.InflectionAsWrittenSpurious` | `Inflections.InflectionIsRoot` |
| harmonize_tunnify_inflection.py:147-148 | after a split the walk marks `c[(j+3)%l]` with `l` the length before the split | a six-point contour on, off, off, on, off, off with both nodes selected, whose segment 3, 4, 5, 0 has an interior inflection: the mark selects point 0 and the new node at index 6 stays unselected | mark the new node, `(j+3) % (l+3)`, as the comment `# mark new points` says and as the mark does inside the list | not executed | `InflectionContours.MarkedClosingAsWritten` | `InflectionContours.MarkedIntendedClosing` |
