# OpenMOBA geometry kernel and sector transform, in Dafny

This project models four parts of OpenMOBA's terrain code and proves properties of them:

- **The exact-integer geometry kernel.**
  - `IntVector2`: dot product, squared norm, the componentwise operators, equality and the truncating `LossyProjectOnto`.
  - `IntLineSegment2`: construction, `Contains`, the four-orientation `Intersects`, `ToBoundingBox`, equality and `ComputeMidpoint`.
  - `IntLineSegment3.IntersectsXY`.
- **Polygon-tree flattening** (`PolygonOperations.FlattenToPolygons`). It is written two ways:
  - as a function of the tree, with a pre-order reference definition;
  - as the source does it: a recursive helper appending to a shared list.
- **The offset builder** (`OffsetOperation`). It records erosion and dilation deltas and then runs one Clipper offset pass per delta. The fixed delta sequences of `CleanPolygons` and `PunchOperation.Execute` are modelled too.
- **The sector's world transform.** This covers the `Sector.WorldTransform` setter and getter, the `Version` counter and the initial state of `SectorInstanceMetadata`.

## Model choices

**Integers.** All integers are unbounded.

- C#'s truncating `/` is `CSharpInt.TruncDiv`, because Dafny's `/` is Euclidean.
- The source computes in 32-bit `int` and wraps on overflow; the model does not. The range lemmas give input ranges in which no intermediate value of the source leaves `int`, so that there the two agree:
  - `IntVectors.DotFitsInt32`: `Dot` and `SquaredNorm2` for components below 2^15 in magnitude;
  - `IntVectors.LossyProjectOntoFitsInt32`: `LossyProjectOnto` for components below 2^10, since it multiplies a component by a dot product;
  - `Segments.ContainsFitsInt32`, `Segments.IntersectsFitsInt32` and `Segments.IntersectsXYFitsInt32`: coordinates below 2^14, since these take products of coordinate differences;
  - `Segments.ToBoundingBoxFitsInt32` and `Segments.MidpointFitsInt32`: coordinates below 2^30.
- Outside those ranges the source can answer differently from the model:
  - `IntVectors.LossyProjectOntoSelfOverflows`: the vector (1291, 0) projected onto itself wraps in C#, which gives (−1285, 0);
  - `Segments.ContainsLengthOverflows`: for the endpoints (−23171, 0) and (23171, 0) the squared length wraps, so C#'s `Contains(p1, p2, p2)` is false, whereas `SegmentGeometry.ContainsEndpoints` proves it true in the model.
- Coordinates around ±3000, as in a commented-out example in the development tool, fit the ranges of `Dot`, `Contains`, `Intersects`, `IntersectsXY`, `ToBoundingBox` and `ComputeMidpoint`. They do not fit `LossyProjectOnto`'s: there the source wraps.

**Orientation.** `GeometryOperations.Clockness` and `IntVector2.To` are not part of this model. They are assumed:

- `Clockness(a, b, q)` is the sign of the cross product (b − a) × (q − a), with 0 meaning `Clockness.Neither`;
- `p.To(q)` is `q − p`.

The code only asks whether two orientations are equal and whether one is zero, so this choice of sign convention does not matter.

**Foreign code.** Clipper is foreign.

- One offset pass (`ClipperOffset.AddPath` for every polygon's points, then `Execute(ref tree, delta)`) is a function parameter.
- So is the difference of `PunchOperation`.
- `Matrix4x4.Invert` is a function parameter returning the success flag together with the value it writes to its out parameter. C# writes that parameter on failure too.
- `Matrix4x4` itself is a value with exact equality.

**Exceptions.** Thrown exceptions are `Result`/`Outcome` failures.

**Geometric meaning.** `SegmentGeometry` gives reference definitions:

- `OnSegment`: a point on a closed segment;
- `SegmentsMeet`: two closed segments sharing a point.

Both are stated with integer witnesses for rational parameters in [0, 1]. For proper segments, `Contains` and `Intersects` are proved to agree with them exactly.

**Findings about what the code does.** Three are proved from the code:

- `IntersectsXY` is a different test from `Intersects`. It accepts all collinear configurations, even disjoint ones. It rejects touching ones, such as a T-junction or a shared endpoint.
- A failed assignment of a non-invertible transform still stores the transform. Assigning the same value again then passes silently.
- Runs of the debug build of `Intersects` (`Segments.IntersectsDebug`) throw for every zero-length first segment. Its two orientations o1 and o2 are then both zero, so the crossing test fails and the first endpoint test constructs the segment. With a proper first segment, a zero-length second segment makes them throw exactly when its point is not on the first segment, because only then is the third endpoint test reached.

**Behaviour worth knowing.**

- The world-transform setter does not invalidate the cached snapshot. It leaves `CachedSnapshotVersion` and `CachedSnapshot` alone and changes only the transform, its inverse and `Version`.
- A non-invertible transform raises InvalidOperation only after the new transform and its would-be inverse have been stored. `Version` is not bumped.
- The punch's extra erosion/dilation is always run, as a third offset pass, even when its delta is 0.

## Model

| member | source | states |
|---|---|---|
| CSharpInt.TruncDiv | OpenMOBA/Geometry/IntLineSegment2.cs:138 | C# `/`: the remainder is smaller than the divisor in magnitude and is zero or has the dividend's sign, and the quotient never overshoots the dividend |
| CSharpInt.TruncDivExact | OpenMOBA/Geometry/IntVector2.cs:108-109 | dividing an exact multiple k·b by b gives k |
| IntVectors.Dot | OpenMOBA/Geometry/IntVector2.cs:85 | no contract of its own; see `DotCommutative`, `SquaredNorm2IsSelfDot` and `DotFitsInt32` |
| IntVectors.SquaredNorm2 | OpenMOBA/Geometry/IntVector2.cs:87 | the squared norm is never negative and is zero exactly for the zero vector |
| IntVectors.SquaredNorm2IsSelfDot | OpenMOBA/Geometry/IntVector2.cs:87 | `SquaredNorm2(v)` is `Dot(v, v)` and is at least 0 |
| IntVectors.DotCommutative | OpenMOBA/Geometry/IntVector2.cs:85 | the dot product is commutative |
| IntVectors.DotFitsInt32 | OpenMOBA/Geometry/IntVector2.cs:85 | components below 2^15 in magnitude keep both products and the dot product inside C#'s `int` |
| IntVectors.Add | OpenMOBA/Geometry/IntVector2.cs:126 | no contract of its own; see `AddSubCancel` |
| IntVectors.Sub | OpenMOBA/Geometry/IntVector2.cs:127 | no contract of its own; see `AddSubCancel` |
| IntVectors.MulLeft | OpenMOBA/Geometry/IntVector2.cs:124 | no contract of its own; see `MulRight` and `MulCommutes` |
| IntVectors.AddSubCancel | OpenMOBA/Geometry/IntVector2.cs:120-127 | (a + b) − b == a and (a − b) + b == a; `To` leads from p to q; `Zero` is the additive identity |
| IntVectors.MulRight | OpenMOBA/Geometry/IntVector2.cs:125 | v * k is the same vector as k * v |
| IntVectors.MulCommutes | OpenMOBA/Geometry/IntVector2.cs:124-125 | k * v == v * k, and both are componentwise |
| IntVectors.Eq | OpenMOBA/Geometry/IntVector2.cs:128 | `==` holds exactly when the two vectors are equal |
| IntVectors.NotEq | OpenMOBA/Geometry/IntVector2.cs:129 | `!=` is exactly the negation of `==` |
| IntVectors.Equals | OpenMOBA/Geometry/IntVector2.cs:131 | `Equals` agrees with `==` |
| IntVectors.LossyProjectOnto | OpenMOBA/Geometry/IntVector2.cs:104-110 | requires a non-zero target (C# divides by zero otherwise); each component falls short of the exact projection by less than one unit, toward zero |
| IntVectors.LossyProjectOntoSelf | OpenMOBA/Geometry/IntVector2.cs:104-110 | a non-zero vector projects onto itself exactly |
| IntVectors.LossyProjectOntoMultiple | OpenMOBA/Geometry/IntVector2.cs:104-110 | every multiple of the target projects onto itself exactly |
| IntVectors.LossyProjectOntoFitsInt32 | OpenMOBA/Geometry/IntVector2.cs:104-110 | with components below 2^10 the dot product, the squared norm, both products `other.c * numerator` and both quotients fit in C#'s `int` |
| IntVectors.LossyProjectOntoSelfOverflows | OpenMOBA/Geometry/IntVector2.cs:108 | for (x, 0) with x ≥ 1291, `other.X * numerator` leaves C#'s `int` |
| IntVectors.LossyProjectOntoOrthogonal | OpenMOBA/Geometry/IntVector2.cs:104-110 | a vector with zero dot product with the target projects to `Zero` |
| Segments.NewSegment | OpenMOBA/Geometry/IntLineSegment2.cs:12-20 | construction fails exactly when the endpoints are equal (debug build); on success the fields are the arguments |
| Segments.NewSegmentXY | OpenMOBA/Geometry/IntLineSegment2.cs:24-32 | the coordinate constructor behaves as the point constructor |
| Segments.Contains | OpenMOBA/Geometry/IntLineSegment2.cs:64-81 | no contract of its own; see `SegmentGeometry.ContainsFacts` and `SegmentGeometry.ContainsIffOnSegment` |
| Segments.SegmentContains | OpenMOBA/Geometry/IntLineSegment2.cs:58-60 | no contract of its own; it is `Contains` on the segment's endpoints |
| Segments.Intersects | OpenMOBA/Geometry/IntLineSegment2.cs:84-101 | no contract of its own; see `SegmentGeometry.IntersectsIffSegmentsMeet` |
| Segments.SegmentIntersects | OpenMOBA/Geometry/IntLineSegment2.cs:45-56 | no contract of its own; it is `Intersects` on the two segments' endpoints |
| Segments.IntersectsXY | OpenMOBA/Geometry/IntLineSegment2.cs:174-185 | no contract of its own; see `SegmentsXY.IntersectsXYCases` |
| Segments.ContainsFitsInt32 | OpenMOBA/Geometry/IntLineSegment2.cs:64-81 | with coordinates below 2^14, every difference, product and sum `Contains` computes fits in C#'s `int` |
| Segments.IntersectsFitsInt32 | OpenMOBA/Geometry/IntLineSegment2.cs:84-101 | with coordinates below 2^14, neither the four orientations nor the four endpoint tests leave C#'s `int` |
| Segments.ContainsLengthOverflows | OpenMOBA/Geometry/IntLineSegment2.cs:72 | endpoints 46341 or more apart in x have a squared length outside C#'s `int` |
| Segments.ToBoundingBoxFitsInt32 | OpenMOBA/Geometry/IntLineSegment2.cs:103-110 | with coordinates below 2^30, the differences, the width and the height fit in C#'s `int` |
| Segments.MidpointFitsInt32 | OpenMOBA/Geometry/IntLineSegment2.cs:137-139 | with coordinates below 2^30, the coordinate sums fit in C#'s `int` |
| Segments.IntersectsXYFitsInt32 | OpenMOBA/Geometry/IntLineSegment2.cs:174-185 | with X and Y below 2^14, each of the four sign terms and its differences and products fit in C#'s `int` |
| Segments.IntersectsDebug | OpenMOBA/Geometry/IntLineSegment2.cs:84-101 | the debug build never throws for two proper segments; it always throws for a zero-length first segment; with a proper first segment and a zero-length second one, it throws exactly when the second segment's point is not on the first; whenever it answers, the answer is the release build's |
| Segments.ToBoundingBox | OpenMOBA/Geometry/IntLineSegment2.cs:103-110 | width and height are at least 1; both endpoints lie in [x, x + width) × [y, y + height); the box is tight, with its first and last cells at endpoint coordinates |
| Segments.SegEq | OpenMOBA/Geometry/IntLineSegment2.cs:125-127 | `==` holds exactly when both ordered endpoints are equal |
| Segments.SegNotEq | OpenMOBA/Geometry/IntLineSegment2.cs:129-131 | `!=` is exactly the negation of `==` |
| Segments.SegEquals | OpenMOBA/Geometry/IntLineSegment2.cs:121-123 | `Equals` agrees with `==` |
| Segments.ReversedSegmentUnequal | OpenMOBA/Geometry/IntLineSegment2.cs:120-127 | a proper segment is unequal to its reversal |
| Segments.ComputeMidpoint | OpenMOBA/Geometry/IntLineSegment2.cs:137-139 | each coordinate lies between the endpoints' coordinates and is half their sum rounded toward zero (off by at most one half, never beyond it in magnitude) |
| Segments.MidpointSymmetric | OpenMOBA/Geometry/IntLineSegment2.cs:137-139 | the midpoint does not depend on the segment's direction |
| Segments.MidpointOfPoint | OpenMOBA/Geometry/IntLineSegment2.cs:137-139 | the midpoint of (p, p) is p |
| SegmentGeometry.ContainsFacts | OpenMOBA/Geometry/IntLineSegment2.cs:64-81 | `Contains(p1, p2, q)` holds exactly when q − p1 is parallel to p2 − p1 and 0 ≤ (p2 − p1)·(q − p1) ≤ \|p2 − p1\|² |
| SegmentGeometry.ContainsIffOnSegment | OpenMOBA/Geometry/IntLineSegment2.cs:64-81 | for a proper segment, `Contains` holds exactly for the points of the closed segment |
| SegmentGeometry.ContainsEndpoints | OpenMOBA/Geometry/IntLineSegment2.cs:64-81 | both endpoints are contained |
| SegmentGeometry.ContainsOnDegenerateSegment | OpenMOBA/Geometry/IntLineSegment2.cs:64-81 | on a zero-length segment every point passes the test |
| SegmentGeometry.IntersectsSymmetric | OpenMOBA/Geometry/IntLineSegment2.cs:84-101 | `Intersects(a, b, c, d) == Intersects(c, d, a, b)` |
| SegmentGeometry.EndpointOnOtherIntersects | OpenMOBA/Geometry/IntLineSegment2.cs:95-98 | an endpoint of either segment on the other segment makes `Intersects` true |
| SegmentGeometry.SharedEndpointIntersects | OpenMOBA/Geometry/IntLineSegment2.cs:95-98 | segments sharing an endpoint intersect |
| SegmentGeometry.IntersectsIffSegmentsMeet | OpenMOBA/Geometry/IntLineSegment2.cs:84-101 | for proper segments, `Intersects` holds exactly when the closed segments have a common point, collinear and touching cases included |
| SegmentGeometry.IntersectsImpliesMeet | OpenMOBA/Geometry/IntLineSegment2.cs:93-98 | every `true` answer has a common point: the crossing point for differing orientations, an endpoint otherwise |
| SegmentGeometry.MeetImpliesIntersects | OpenMOBA/Geometry/IntLineSegment2.cs:88-100 | every common point of two proper segments makes `Intersects` true |
| SegmentGeometry.IntersectsReversal | OpenMOBA/Geometry/IntLineSegment2.cs:84-101 | for proper segments, reversing the first segment does not change the answer |
| SegmentsXY.IntersectsXYOrientations | OpenMOBA/Geometry/IntLineSegment2.cs:174-185 | the four signs are the orientations of the XY projections, so the test is "o1 = −o2 and o3 = −o4"; Z plays no part |
| SegmentsXY.IntersectsXYCases | OpenMOBA/Geometry/IntLineSegment2.cs:179-184 | the test holds exactly when all four points are collinear or the segments cross properly |
| SegmentsXY.CrossesProperlyMeets | OpenMOBA/Geometry/IntLineSegment2.cs:179-184 | a proper crossing involves two proper segments that do intersect |
| SegmentsXY.CollinearDisjointAccepted | OpenMOBA/Geometry/IntLineSegment2.cs:179-184 | two disjoint segments one after the other on a horizontal line pass the test |
| SegmentsXY.TouchingRejected | OpenMOBA/Geometry/IntLineSegment2.cs:179-184 | when an endpoint of one segment lies on the other and its far end is off that line, the segments meet but the test fails |
| PolygonOps.Flatten | OpenMOBA/Geometry/PolygonOperations.cs:34-42 | no contract of its own; see `FlattenIsEmittedPreOrder` |
| PolygonOps.FlattenChildren | OpenMOBA/Geometry/PolygonOperations.cs:38-41 | no contract of its own; see `FlattenChildrenIsEmittedPreOrder` |
| PolygonOps.FlattenIsEmittedPreOrder | OpenMOBA/Geometry/PolygonOperations.cs:34-42 | the helper's output from a node at depth d is the pre-order listing of the subtree, keeping non-empty contours at depth ≥ filter, with the hole flag negated per level |
| PolygonOps.FlattenChildrenIsEmittedPreOrder | OpenMOBA/Geometry/PolygonOperations.cs:38-41 | the same for the children visited in list order |
| PolygonOps.FlattenToPolygonsIsEmittedPreOrder | OpenMOBA/Geometry/PolygonOperations.cs:27-42 | flattening from the root emits, in pre-order, the nodes with a non-empty contour; without the outer polygons, only those of depth ≥ 2 |
| PolygonOps.DepthFilter | OpenMOBA/Geometry/PolygonOperations.cs:29 | the depth filter is 0 or 2 |
| PolygonOps.EmittedSkips | OpenMOBA/Geometry/PolygonOperations.cs:35 | visits above the filter depth or with empty contours emit nothing |
| PolygonOps.EmittedAll | OpenMOBA/Geometry/PolygonOperations.cs:35-36 | when every visit qualifies, exactly one polygon is emitted per visit, with its contour and its depth's hole flag |
| PolygonOps.PreOrder | OpenMOBA/Geometry/PolygonOperations.cs:35-41 | the listing starts with the node itself at its depth |
| PolygonOps.PolygonList.constructor | OpenMOBA/Geometry/PolygonOperations.cs:28 | the results list starts empty |
| PolygonOps.PolygonList.Add | OpenMOBA/Geometry/PolygonOperations.cs:36 | appends one polygon |
| PolygonOps.FlattenHelper | OpenMOBA/Geometry/PolygonOperations.cs:34-42 | appends exactly `Flatten(current, isHole, depthFilter)` to the shared list, leaving earlier entries alone |
| PolygonOps.FlattenToPolygons | OpenMOBA/Geometry/PolygonOperations.cs:27-32 | returns the filtered pre-order listing of the tree |
| PolygonOps.FlattenAll | OpenMOBA/Geometry/PolygonOperations.cs:90 | no contract of its own; the default-argument call `FlattenToPolygons(polytree)`, also at line 145; see `FlattenAllIsEmittedPreOrder` |
| PolygonOps.FlattenAllIsEmittedPreOrder | OpenMOBA/Geometry/PolygonOperations.cs:27-42 | with the default `includeOuterPolygon = true`, every node with a non-empty contour is emitted, in pre-order |
| PolygonOps.Paths | OpenMOBA/Geometry/PolygonOperations.cs:138-140 | the paths handed to Clipper are the polygons' points, one path per polygon, in order |
| PolygonOps.PassInputs | OpenMOBA/Geometry/PolygonOperations.cs:134-145 | one input per pass plus one, starting with the included polygons |
| PolygonOps.RunPasses | OpenMOBA/Geometry/PolygonOperations.cs:134-148 | no contract of its own; see `RunPassesTrace` and `RunPassesSnoc` |
| PolygonOps.ExecuteResult | OpenMOBA/Geometry/PolygonOperations.cs:133-149 | no contract of its own; it fails exactly when no delta is recorded, and `OffsetOperation.Execute` is proved equal to it |
| PolygonOps.RunPassesTrace | OpenMOBA/Geometry/PolygonOperations.cs:133-149 | one pass per delta, in order; each input after the first is the flattened output of the pass before; the result is the last pass's tree |
| PolygonOps.RunPassesSnoc | OpenMOBA/Geometry/PolygonOperations.cs:133-149 | recording one more delta adds exactly one pass on the flattened previous result |
| PolygonOps.OffsetOperation.constructor | OpenMOBA/Geometry/PolygonOperations.cs:99-100 | no polygons and no deltas recorded |
| PolygonOps.OffsetOperation.ErodeOrDilate | OpenMOBA/Geometry/PolygonOperations.cs:103-106 | appends the delta unchanged and leaves the polygons alone |
| PolygonOps.OffsetOperation.Erode | OpenMOBA/Geometry/PolygonOperations.cs:108-115 | a negative delta fails with ArgumentOutOfRange and records nothing; otherwise appends −delta |
| PolygonOps.OffsetOperation.Dilate | OpenMOBA/Geometry/PolygonOperations.cs:117-124 | a negative delta fails with ArgumentOutOfRange and records nothing; otherwise appends delta |
| PolygonOps.OffsetOperation.Include | OpenMOBA/Geometry/PolygonOperations.cs:128-131 | appends the polygons in order and leaves the deltas alone |
| PolygonOps.OffsetOperation.Execute | OpenMOBA/Geometry/PolygonOperations.cs:133-149 | fails with ArgumentException when no delta is recorded; otherwise returns the passes' result as above |
| PolygonOps.CleanPolygons | OpenMOBA/Geometry/PolygonOperations.cs:20-25 | runs the deltas [−0.05, +0.05] on the given polygons |
| PolygonOps.CleanPolygonsTwoPasses | OpenMOBA/Geometry/PolygonOperations.cs:20-25 | that is always a success: the dilation by 0.05 of the flattened erosion by 0.05 |
| PolygonOps.PunchOperation.constructor | OpenMOBA/Geometry/PolygonOperations.cs:64 | no subject and no clip paths |
| PolygonOps.PunchOperation.Include | OpenMOBA/Geometry/PolygonOperations.cs:68-73 | appends the polygons' points as subject paths |
| PolygonOps.PunchOperation.Exclude | OpenMOBA/Geometry/PolygonOperations.cs:77-82 | appends the polygons' points as clip paths |
| PolygonOps.PunchOperation.Execute | OpenMOBA/Geometry/PolygonOperations.cs:84-95 | runs the deltas [−0.05, +0.05, additional] on the flattened difference, and always succeeds |
| Sectors.Assign | OpenMOBA/Foundation/Terrain/Sector.cs:42-48 | no contract of its own; see `AssignSameIsNoOp`, `AssignDifferent` and `AssignTwice` |
| Sectors.AssignAll | OpenMOBA/Foundation/Terrain/Sector.cs:42-48 | no contract of its own; a run of assignments stopping at the first that raises; see `VersionMonotone` and `LastAssignedIsCurrent` |
| Sectors.AssignSameIsNoOp | OpenMOBA/Foundation/Terrain/Sector.cs:42 | assigning the current transform changes nothing and passes |
| Sectors.AssignDifferent | OpenMOBA/Foundation/Terrain/Sector.cs:42-48 | a different value is always stored together with the inverter's output. An invertible value bumps the version by exactly one; a non-invertible one fails with InvalidOperation and leaves the version alone |
| Sectors.AssignTwice | OpenMOBA/Foundation/Terrain/Sector.cs:42-47 | assigning the same value a second time changes nothing and passes, even after a failed first assignment |
| Sectors.VersionMonotone | OpenMOBA/Foundation/Terrain/Sector.cs:33-48 | over any sequence of assignments the version never decreases and rises by at most one per assignment |
| Sectors.LastAssignedIsCurrent | OpenMOBA/Foundation/Terrain/Sector.cs:40-46 | after a sequence of assignments that all pass, the getter returns the last value assigned; a sequence that stops at a failure ends with one of the values stored, and the inverter refuses that value |
| Sectors.SectorInstanceMetadata.constructor | OpenMOBA/Foundation/Terrain/Sector.cs:15-22 | identity transform and inverse, cached version 0, no cached snapshot |
| Sectors.Sector.constructor | OpenMOBA/Foundation/Terrain/Sector.cs:27-35 | version 0, the given static metadata, fresh instance metadata in its initial state |
| Sectors.Sector.WorldTransform | OpenMOBA/Foundation/Terrain/Sector.cs:40 | no contract of its own; it returns the instance metadata's transform, and `SetWorldTransform` ensures it returns the value assigned |
| Sectors.Sector.SetWorldTransform | OpenMOBA/Foundation/Terrain/Sector.cs:38-51 | the new transform, inverse and version are `Assign` of the old ones and the getter returns the value assigned; the static metadata, the cached snapshot version and the cached snapshot are untouched |

## Left out

- C# 32-bit wrap-around is not modelled, and neither are the `(int)` casts of `ToBoundingBox`. Every property proved here holds for unbounded integers. It carries over to the source only inside the ranges of the range lemmas listed under "Model choices": below 2^10 for `LossyProjectOnto`, below 2^14 for `Contains`, `Intersects` and `IntersectsXY`. Outside them the source wraps and can answer differently. The same holds for `Sector.Version`, a 32-bit `int` raised by `Version++`: `VersionMonotone` holds in C# only while the version stays below Int32.MaxValue.
- `GeometryOperations.Clockness` and `IntVector2.To` are not part of this model. They are assumed as stated above.
- These members are not modelled:
  - `GetHashCode`, `ToString` and `Equals(object)`, which boxes its argument;
  - `Points`, `Deconstruct` and `Create`, which is the same as the constructor;
  - `UnitX`/`UnitY`.
- The instance `Contains`/`Intersects` overloads are modelled as `Segments.SegmentContains` and `Segments.SegmentIntersects`, without contracts of their own. They pass their arguments on to the static versions, which carry the lemmas.
- Floating-point code is not modelled: `PointAt`, `Norm2F`, `ProjectOntoComponentD`, `ToDoubleVector2`, `FromRadiusAngle` and `DoubleVector2`.
- Offset deltas are exact reals. The double 0.05 is not exactly representable. A NaN delta would pass `Erode`/`Dilate`'s sign check; that is not modelled.
- These Clipper internals are not modelled:
  - what a pass or the difference computes;
  - `IsClosed`, the join/end types, the fill types and `StrictlySimple`;
  - how `PolyNode.IsHole` is computed, which is taken as a field of the tree.
- `UnionOperation`, `ToOpenMobaPointD` and the `Union()`/`Punch()`/`Offset()` factories are outside the modelled core. The factories amount to the constructors.
- The default arguments `includeOuterPolygon = true` of `FlattenToPolygons` and `additionalErosionDilation = 0.0` of `PunchOperation.Execute` are not modelled. Both are explicit parameters here, so a call without them is the call with `true` or `0.0`.
- `Sectors.AssignAll` stops at the first assignment that raises, as a caller that lets the exception propagate would. A caller that catches InvalidOperation and goes on assigning is covered only by the one-step lemmas `AssignDifferent` and `AssignTwice`, not by `VersionMonotone` or `LastAssignedIsCurrent`.
- The builder methods of the source return `this` for chaining. Here they return nothing, or an `Outcome` for the checks that can fail.
- `OffsetOperation.Execute` throws with the message "Must specify some polygons to include!" even though it throws only when no delta is recorded. The message text is not modelled.
- `Matrix4x4` numerics are not modelled: inversion itself, and NaN entries, which make a matrix unequal to itself so that re-assigning it re-inverts and bumps the version.
- The sector's `TerrainService` reference is not modelled. `SectorSnapshot` contents are reduced to a token, and `TerrainStaticMetadata` is a plain value.
- The release build's `Intersects` is `Segments.Intersects`, with no precondition. It is used as is on zero-length segments: every point passes `Contains` on them (`SegmentGeometry.ContainsOnDegenerateSegment`).
