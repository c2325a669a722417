# voxelraytrace in Dafny

A model of the Go package `voxelraytrace`: the Amanatides & Woo voxel
traversal ("A Fast Voxel Traversal Algorithm for Ray Tracing", 1987).
`BetweenPoints(start, end)` walks the straight segment from `start` to `end`
and returns the integer grid cells (voxels) it passes through, in order.
`InDirection(start, direction, maxDistance)` computes the end point and
delegates to `BetweenPoints`. The work is done by three per-axis helpers:
`compareTo` (the sign, which becomes the step), `rayTraceDistanceToBoundary`
(the parameter at which an axis first reaches a cell wall) and `findDelta`
(the parameter needed to cross one whole cell). A greedy loop feeds on them.
Each pass emits the current voxel and picks the axis whose next wall crossing
`tMax` is smallest, with ties going to the later axis. It stops once that
crossing lies beyond the radius; otherwise it steps one cell on that axis.

Files:

- `real_floor.dfy` (module `RealFloor`): facts about `.Floor`, the model's
  `math.Floor`, and about exact division.
- `raytrace.dfy` (module `VoxelRaytrace`): the data model and the operations.
  `Vec3` is `mgl64.Vec3` as a triple of reals. `Ext = Fin(v) | Inf` is a
  float64 that is finite or `+Inf`, with Go's `<`, `>` and `+=` on it.
  `CompareTo`, `FindDelta` and `DistanceToBoundary` are functions. The
  stepping loop is the method `BetweenPoints`, with a `while` loop, invariants
  and a `decreases` measure (the number of wall crossings still within the
  radius). The recursive function `Walk` says what the loop emits, and
  `InDirection` is a method that calls `BetweenPoints`.
- `properties.dfy` (module `RaytraceProperties`): what the traversal
  guarantees, proved about `Walk` and `Segment`.

How the square roots are handled: the source normalises `end - start` to a
unit vector `u` and uses the Euclidean distance `L` as the radius. Dafny reals
have no square root. So `BetweenPoints` walks along `end - start` itself with
radius 1: every `tMax`, every `tDelta` and the radius are then divided by `L`,
and no comparison changes. The lemma `Normalised` proves this. For any `u` and
`L > 0` with `L * u == end - start` and `|u| = 1`, two things hold: `L * L` is
the squared `distance(start, end)`, and the voxels are exactly those of the
walk along `u` with radius `L`, which is what the source computes.

One might expect a segment whose two ends lie in the same unit cube to yield
exactly one voxel. The code does not do this when the segment ends exactly on
the lower wall of that cube while moving down on that axis. From
`(0.5, 0.5, 0.5)` to `(0, 0.5, 0.5)` the radius is 0.5, and the wall at
`x = 0` is crossed at t = 0.5 along the unit direction (t = 1 in the model's
rescaled parameter). That is not beyond the radius, so the code steps once
more and also emits the voxel below: `WallEndExample` gives
`(0,0,0), (-1,0,0)`. The model follows the code: `SameVoxel` excludes exactly
that case. `WallStartExample` shows the related effect of starting on a wall
while moving down. Reversing a segment reverses its voxels in
`NegationExample`, but not in general. A start on a wall breaks it
(`WallStartExample`). So do two axes crossing walls at the same parameter,
even with both ends inside cells: the tie goes to Y in both directions, so
`DiagonalTieReversed` passes through `(0,1,0)` one way and `(1,0,0)` the
other.

That the voxels are the ones the segment passes through is proved by
carrying a per-axis invariant (`Tracks`) through the loop. On a moving axis
the next crossing tMax lies on the wall ahead of the current cell, and the
crossing before it is not after the parameter at which the current voxel was
entered. `SegmentPassesThrough` concludes that every returned voxel's closed
cube holds a point `start + s * (end - start)` with `0 <= s <= 1`.

## Model

| member | source | states |
|---|---|---|
| VoxelRaytrace.Less | raytrace.go:43-55 | Go's `<` on float64 with +Inf; ExtOrder states that it is a strict total order with +Inf above every finite value |
| VoxelRaytrace.Exceeds | raytrace.go:44-56 | Go's `tMax > radius`, true for +Inf; ExtOrder states that it is `radius < tMax` |
| VoxelRaytrace.Plus | raytrace.go:48-60 | Go's `tMax += tDelta`, which keeps +Inf; ExtOrder states that +Inf stays +Inf and that a crossing beyond the radius stays beyond it |
| RaytraceProperties.ExtOrder | raytrace.go:43-60 | Less is irreflexive, asymmetric, transitive and total, agrees with `<` on finite values and puts +Inf above them; Exceeds(t, r) is Less(Fin(r), t); Plus keeps +Inf and never brings a crossing back within the radius |
| VoxelRaytrace.FloorVec | raytrace.go:19 | the starting voxel, math.Floor on every axis; FloorVecHolds states what it is |
| RaytraceProperties.FloorVecHolds | raytrace.go:19 | every coordinate of FloorVec(p) is a whole number at most p's and within one of it: the voxel that holds p |
| VoxelRaytrace.SqrDistance | raytrace.go:107-111 | the square of distance(a, b); NormalisedLength states that L * L equals it for the radius L the source computes |
| VoxelRaytrace.CompareTo | raytrace.go:97-105 | returns 0 exactly when the two are equal, -1 exactly when the first is smaller, 1 exactly when it is larger |
| VoxelRaytrace.FindDelta | raytrace.go:67-73 | 0 for a zero component; otherwise a value that, multiplied by the component, gives the step (second / first) |
| RaytraceProperties.DeltaCrossesOneCell | raytrace.go:36-38 | with the sign of the component as the step, as at the call sites, tDelta is strictly positive and tDelta * abs(component) == 1: one tDelta crosses exactly one cell |
| VoxelRaytrace.DistanceToBoundary | raytrace.go:77-92 | +Inf exactly when the component is 0; for a positive component a value in (0, 1/c]; for a negative component 0 when the coordinate is a whole number and otherwise a value in (0, 1/abs(c)) |
| RaytraceProperties.BoundaryIsWall | raytrace.go:77-92 | moving the coordinate by the component times the returned distance lands exactly on a cell wall (a whole number) |
| RaytraceProperties.NoWallBefore | raytrace.go:77-92 | at any smaller non-negative parameter the coordinate is still in its starting cell, so the returned distance is the first wall crossing |
| VoxelRaytrace.Choose | raytrace.go:43-55 | the axis the loop steps on; ChooseIsLastMinimum characterises it in both directions |
| RaytraceProperties.ChooseIsLastMinimum | raytrace.go:43-60 | the axis stepped on is the one the tie-break rule picks, in both directions: no axis has a strictly smaller tMax, and every later axis (X before Y before Z) has a strictly larger one; so X only when strictly below both others, Y when below Z, Z on ties |
| RaytraceProperties.StopsOnlyWhenDone | raytrace.go:43-61 | the loop breaks only when no axis has a wall crossing left within the radius |
| VoxelRaytrace.CrossingsStep | raytrace.go:48 | adding tDelta to a tMax within the radius removes exactly one of that axis's remaining crossings |
| VoxelRaytrace.PendingStep | raytrace.go:43-61 | a step keeps the per-axis invariants (steps are signs, tMax is +Inf exactly for a zero step, tDelta positive) and decreases the number of crossings left by one, which is why the loop terminates |
| VoxelRaytrace.Signs | raytrace.go:28-30 | stepX, stepY, stepZ: compareTo of each direction component with 0, so by CompareTo each is -1, 0 or 1 and 0 exactly for a zero component; SegmentSteps states that the voxels move by them |
| VoxelRaytrace.Setup | raytrace.go:28-38 | stepX.. and tDeltaX..; SetupValid and DeltaCrossesOneCell state their invariants |
| VoxelRaytrace.FirstBounds | raytrace.go:32-34 | tMaxX.. before the loop; DistanceToBoundary, BoundaryIsWall and NoWallBefore state that each is the first wall crossing |
| VoxelRaytrace.SetupValid | raytrace.go:28-38 | the initial steps, tMax and tDelta satisfy those per-axis invariants |
| VoxelRaytrace.Walk | raytrace.go:40-62 | what the loop emits from a voxel and its next crossings; WalkUnfold, WalkChain, WalkLength and WalkLast state its properties |
| VoxelRaytrace.WalkUnfold | raytrace.go:40-62 | one pass of the loop: emit the current voxel, then stop if the chosen axis's crossing is beyond the radius, otherwise step on that axis and continue |
| VoxelRaytrace.WalkAppend | raytrace.go:41-61 | a pass that does not stop appends the current voxel and leaves the rest of the walk to the next state |
| VoxelRaytrace.Segment | raytrace.go:18-65 | what BetweenPoints returns; SegmentFails, SegmentEnds, SegmentSteps, SameVoxel and Normalised state its properties |
| VoxelRaytrace.RayVoxels | raytrace.go:19-62 | the loop for a given direction and radius; Normalised states that with the unit direction and the Euclidean radius it gives Segment's voxels, and RayVoxelsScaled that rescaling the direction leaves it unchanged |
| VoxelRaytrace.BetweenPoints | raytrace.go:18-65 | the loop returns Segment(start, end): the error for a zero direction, otherwise exactly the voxels of the walk from floor(start) along end - start up to the radius |
| VoxelRaytrace.InDirection | raytrace.go:11-13 | equals BetweenPoints(start, start + direction * maxDistance), and fails exactly when the direction is zero or maxDistance is 0 |
| RaytraceProperties.SegmentFails | raytrace.go:21-24 | BetweenPoints fails exactly when start == end |
| RaytraceProperties.SegmentEnds | raytrace.go:19-62 | the result is never empty; its first voxel is floor(start); its last voxel is the cell holding end (for an axis moving down and ending on a wall, the cell below that wall); it has one voxel more than the grid (Manhattan) distance between first and last |
| RaytraceProperties.SegmentSteps | raytrace.go:43-61 | each voxel is the previous one moved by the sign of end - start on exactly one axis; no voxel repeats; every coordinate moves only towards end; an axis with a zero component never changes |
| RaytraceProperties.SameVoxel | raytrace.go:19-62 | start and end in one voxel (and not ending on a wall moved down onto) give exactly that voxel |
| RaytraceProperties.WalkChain | raytrace.go:40-62 | the walk starts at the current voxel and each voxel is one step from the previous |
| RaytraceProperties.WalkLength | raytrace.go:40-62 | the walk has one voxel more than the wall crossings still within the radius |
| RaytraceProperties.WalkLast | raytrace.go:40-62 | the last voxel is the current one moved, on every axis, by the step times that axis's remaining crossings |
| RaytraceProperties.ChainProgress | raytrace.go:47-59 | along a chain of steps the n-th voxel lies exactly n steps from the first |
| RaytraceProperties.ChainDistinct | raytrace.go:47-59 | a chain of steps never visits a voxel twice |
| RaytraceProperties.ChainMonotone | raytrace.go:47-59 | along a chain each coordinate moves only in its step's direction, and not at all for a zero step |
| RaytraceProperties.AxisCrossings | raytrace.go:32-38 | on one axis, from p over the segment to p + c, the number of crossings is the distance between floor(p) and the end cell, and the steps take floor(p) to that cell |
| RaytraceProperties.AxisEnd | raytrace.go:28-38 | per axis, the crossings of the segment take floor(start) to the end voxel's coordinate |
| RaytraceProperties.TracksStart | raytrace.go:28-38 | before the first pass, on a moving axis tMax lies on the wall ahead of floor(start) (floor + 1 moving up, floor moving down) and is at most one tDelta away; a still axis sits in floor(start)'s cell |
| RaytraceProperties.WallBelow | raytrace.go:82-91 | moving down, the coordinate moved by the component times the returned distance is exactly floor(p), the lower wall of p's cell |
| RaytraceProperties.TracksStep | raytrace.go:47-48 | stepping on an axis moves the current cell by the step and tMax by tDelta, and tMax is again on the wall ahead |
| RaytraceProperties.TracksInCell | raytrace.go:43-61 | on a tracking axis, the ray at the parameter where the current voxel was entered lies in the current cell |
| RaytraceProperties.FollowingStep | raytrace.go:43-61 | a pass that steps keeps every axis tracking, with the new voxel entered at the chosen axis's tMax, which is not before the previous entry |
| RaytraceProperties.WalkTouches | raytrace.go:40-62 | every voxel the loop emits from a tracking state holds a point of the ray with parameter in [0, radius] |
| RaytraceProperties.SegmentPassesThrough | raytrace.go:15-65 | every voxel BetweenPoints returns holds a point of the segment from start to end in its closed cube |
| RaytraceProperties.WalkScaled | raytrace.go:21-26 | dividing every tMax, every tDelta and the radius by the same k > 0 leaves the voxels unchanged |
| RaytraceProperties.RayVoxelsScaled | raytrace.go:21-38 | multiplying the direction by k > 0 and dividing the radius by k leaves the voxels unchanged |
| RaytraceProperties.NormalisedLength | raytrace.go:107-111 | for L > 0 and unit u with L * u == end - start, L * L is the squared distance(start, end) and the direction is not zero |
| RaytraceProperties.Normalised | raytrace.go:18-38 | the voxels of Segment are those of the walk along the unit direction u with radius L = distance(start, end), as the source computes them |
| RaytraceProperties.InDirectionUnit | raytrace.go:11-13 | InDirection with a unit direction walks exactly maxDistance along it |
| RaytraceProperties.StraightOnX | raytrace.go:43-48 | a ray moving along X alone, with n crossings within the radius, visits n + 1 cells in a row |
| RaytraceProperties.StraightSegment | raytrace.go:18-65 | an axis-aligned segment with n crossings yields n + 1 cells in a row from floor(start) |
| RaytraceProperties.TieOnXY | raytrace.go:43-54 | when X and Y cross walls at the same t with equal tDelta, and that shared crossing is the last one within the radius, Y steps first, then X (the general tie rule is ChooseIsLastMinimum) |
| RaytraceProperties.AxisAlignedExample | raytrace.go:18-65 | (0.5,0.5,0.5) to (3.5,0.5,0.5) gives the four voxels x = 0, 1, 2, 3 |
| RaytraceProperties.DiagonalTieExample | raytrace.go:43-54 | (0.5,0.5,0.5) to (1.5,1.5,0.5) passes through the grid edge by Y first: (0,0,0), (0,1,0), (1,1,0) |
| RaytraceProperties.WallStartExample | raytrace.go:82-88 | (2,0.5,0.5) to (0,0.5,0.5) gives x = 2, 1, 0, -1, while the reverse segment gives x = 0, 1, 2 |
| RaytraceProperties.DiagonalTieReversed | raytrace.go:43-55 | (0.5,0.5,0.5) to (1.5,1.5,0.5) gives (0,0,0), (0,1,0), (1,1,0), and the reverse segment gives (1,1,0), (1,0,0), (0,0,0): the tie goes to Y both ways |
| RaytraceProperties.WallEndExample | raytrace.go:43-48 | (0.5,0.5,0.5) to (0,0.5,0.5) lies in one voxel yet gives (0,0,0), (-1,0,0): the crossing at the end point is not beyond the radius |
| RaytraceProperties.NegationExample | raytrace.go:18-65 | (2.5,2.5,2.5) to (-1.5,2.5,2.5) gives x = 2, 1, 0, -1, -2, and the reverse segment gives the same voxels in reverse order |

## Left out

- Floating point: coordinates are exact reals. Rounding drift in the repeated `tMax += tDelta`, NaN, and `math.Inf` as a float are not modelled; `+Inf` is the `Inf` case of `Ext`.
- Square roots: `distance` and `Normalize` are not computed. `BetweenPoints` walks along `end - start` with radius 1, and `Normalised` proves this gives the voxels of the unit-direction walk with the Euclidean radius. Only the square of `distance` appears in the model (`SqrDistance`).
- `mgl64` internals: `Normalize`, `Add`, `Sub`, `Mul` and `LenSqr` come from `github.com/go-gl/mathgl/mgl64`, which is not part of this model. What `Normalize` returns for a zero vector is unknown, so the zero-direction test is made on `end - start == 0` directly.
- Error value: the error message text is not modelled; the single error kind is `ZeroDirection`.
- Go slice mechanics: `append` growth and the named-result plumbing are a `seq` that grows one voxel per pass.
- InDirection: modelled as a method, not a function, because it calls the method `BetweenPoints`; `Segment` is the function that specifies both.
- SameVoxel: excludes segments that end exactly on the lower wall of their cell while moving down on that axis, because the code emits a second voxel there (see above).
- StraightSegment: takes the initial steps, tMax and tDelta as hypotheses instead of deriving them from an axis-aligned start and end; the examples supply them.
- Symmetry under reversal is shown on examples only, because it does not hold in general.
- SegmentPassesThrough: proves that every returned voxel meets the segment; the converse is not proved, and with closed cubes it does not hold: the diagonal of `DiagonalTieExample` passes through the point (1, 1, 0.5), which lies in the closed cube of (1, 0, 0), a voxel the code does not return.
