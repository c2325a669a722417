/**
 * The voxel traversal of raytrace.go (Amanatides & Woo, "A Fast Voxel
 * Traversal Algorithm for Ray Tracing", 1987) over exact reals.
 *
 * Coordinates are reals, math.Floor is `.Floor`, and the float64 +Inf that
 * marks an axis the ray never crosses is the `Inf` case of `Ext`.
 * The loop of BetweenPoints is the method `BetweenPoints`; the recursive
 * function `Walk` states what that loop emits, and RaytraceProperties proves
 * what the emitted voxels look like.
 */
module VoxelRaytrace {
  import opened RealFloor

  /** mgl64.Vec3: a point, a direction or (holding whole numbers) a voxel. */
  datatype Vec3 = Vec3(x: real, y: real, z: real)
  {
    function At(a: Axis): real {
      match a
      case X => x
      case Y => y
      case Z => z
    }

    /** This vector moved by d on axis a only, as `currentPoint.Add(Vec3{..})` does. */
    function Shift(a: Axis, d: real): (r: Vec3)
      ensures r.At(a) == At(a) + d
      ensures forall b :: b != a ==> r.At(b) == At(b)
    {
      match a
      case X => this.(x := x + d)
      case Y => this.(y := y + d)
      case Z => this.(z := z + d)
    }
  }

  datatype Axis = X | Y | Z

  const Zero := Vec3(0.0, 0.0, 0.0)

  function Add(a: Vec3, b: Vec3): Vec3 {
    Vec3(a.x + b.x, a.y + b.y, a.z + b.z)
  }

  function Sub(a: Vec3, b: Vec3): Vec3 {
    Vec3(a.x - b.x, a.y - b.y, a.z - b.z)
  }

  function Scale(v: Vec3, k: real): Vec3 {
    Vec3(v.x * k, v.y * k, v.z * k)
  }

  function Dot(a: Vec3, b: Vec3): real {
    a.x * b.x + a.y * b.y + a.z * b.z
  }

  /** The square of `distance(a, b)`; the square root itself is not taken. */
  function SqrDistance(a: Vec3, b: Vec3): real {
    Dot(Sub(b, a), Sub(b, a))
  }

  /** The voxel holding p: math.Floor on every axis. */
  function FloorVec(p: Vec3): Vec3 {
    Vec3(p.x.Floor as real, p.y.Floor as real, p.z.Floor as real)
  }

  /** A float64 that is finite or +Inf (the source never produces -Inf or NaN here). */
  datatype Ext = Fin(v: real) | Inf

  /** Go's `<` on such values: +Inf is never below anything. */
  predicate Less(a: Ext, b: Ext) {
    match a
    case Inf => false
    case Fin(x) => b.Inf? || x < b.v
  }

  /** Go's `t > radius`: +Inf exceeds every radius. */
  predicate Exceeds(t: Ext, radius: real) {
    t.Inf? || t.v > radius
  }

  /** Go's `t += d`; +Inf stays +Inf. */
  function Plus(t: Ext, d: real): Ext {
    match t
    case Inf => Inf
    case Fin(v) => Fin(v + d)
  }

  /** tMaxX, tMaxY, tMaxZ: where the ray next crosses a cell wall on each axis. */
  datatype Bounds = Bounds(x: Ext, y: Ext, z: Ext)
  {
    function At(a: Axis): Ext {
      match a
      case X => x
      case Y => y
      case Z => z
    }

    /** `tMaxA += d` on axis a only. */
    function Advance(a: Axis, d: real): (r: Bounds)
      ensures r.At(a) == Plus(At(a), d)
      ensures forall b :: b != a ==> r.At(b) == At(b)
    {
      match a
      case X => this.(x := Plus(x, d))
      case Y => this.(y := Plus(y, d))
      case Z => this.(z := Plus(z, d))
    }
  }

  datatype Error = ZeroDirection
  datatype Result<T> = Ok(value: T) | Err(error: Error)

  /** compareTo: the sign of first - second, as -1, 0 or 1. */
  function CompareTo(first: real, second: real): (r: real)
    ensures r == 0.0 <==> first == second
    ensures r == -1.0 <==> first < second
    ensures r == 1.0 <==> first > second
  {
    if first == second then 0.0
    else if first < second then -1.0
    else 1.0
  }

  /** findDelta: 0 for a zero component, otherwise second / first. */
  function FindDelta(first: real, second: real): (r: real)
    ensures first == 0.0 ==> r == 0.0
    ensures first != 0.0 ==> r * first == second
  {
    if first == 0.0 then 0.0 else second / first
  }

  /**
   * rayTraceDistanceToBoundary: how far along the ray (in units of the
   * direction component `second`) the coordinate `first` first reaches a cell
   * wall. +Inf when the component is 0; 0 when moving down from a wall.
   */
  function DistanceToBoundary(first: real, second: real): (r: Ext)
    ensures r == Inf <==> second == 0.0
    ensures second > 0.0 ==> 0.0 < r.v <= 1.0 / second
    ensures second < 0.0 && IsInteger(first) ==> r == Fin(0.0)
    ensures second < 0.0 && !IsInteger(first) ==> 0.0 < r.v < 1.0 / -second
  {
    if second == 0.0 then Inf
    else if second < 0.0 then
      IntegerNegate(first);
      var first, second := -first, -second;
      if first.Floor as real == first then Fin(0.0)
      else
        FracBounds(first);
        QuotientBounds(1.0 - (first - first.Floor as real), second);
        Fin((1.0 - (first - first.Floor as real)) / second)
    else
      FracBounds(first);
      QuotientBounds(1.0 - (first - first.Floor as real), second);
      Fin((1.0 - (first - first.Floor as real)) / second)
  }

  /**
   * The axis the loop steps on: X only when tMaxX is strictly below both
   * others, else Y when tMaxY < tMaxZ, else Z (Z wins every tie).
   */
  function Choose(t: Bounds): Axis {
    if Less(t.x, t.y) && Less(t.x, t.z) then X
    else if Less(t.y, t.z) then Y
    else Z
  }

  /**
   * How many more cell walls an axis crosses with its next crossing at t,
   * one crossing every d, up to and including radius.
   */
  function Crossings(t: Ext, d: real, radius: real): nat {
    match t
    case Inf => 0
    case Fin(v) =>
      if v > radius || d <= 0.0 then 0
      else
        assert (radius - v) / d >= 0.0;
        ((radius - v) / d).Floor + 1
  }

  /** An axis's next crossing moves on by d: one crossing fewer remains. */
  lemma CrossingsStep(v: real, d: real, radius: real)
    requires v <= radius && d > 0.0
    ensures Crossings(Fin(v + d), d, radius) + 1 == Crossings(Fin(v), d, radius)
  {
    var q := (radius - v) / d;
    DivExact(radius - v, q, d);
    assert q * d == radius - v;
    DivExact(radius - (v + d), q - 1.0, d);
    if v + d > radius {
      assert q < 1.0;
      FloorOfFraction(q);
    } else {
      FloorShift(q, -1);
    }
  }

  /** The per-axis constants of one traversal: stepX.., tDeltaX.., radius. */
  datatype Ray = Ray(step: Vec3, delta: Vec3, radius: real)
  {
    /**
     * What holds of every axis throughout the loop: the step is a sign, an
     * axis is at +Inf exactly when its step is 0, and a moving axis has a
     * positive tDelta.
     */
    predicate AxisOk(t: Bounds, a: Axis) {
      && (step.At(a) == -1.0 || step.At(a) == 0.0 || step.At(a) == 1.0)
      && (t.At(a) == Inf <==> step.At(a) == 0.0)
      && (step.At(a) != 0.0 ==> delta.At(a) > 0.0)
    }

    predicate Valid(t: Bounds) {
      AxisOk(t, X) && AxisOk(t, Y) && AxisOk(t, Z)
    }

    /** The crossings still ahead within the radius, on all axes together. */
    function Pending(t: Bounds): nat {
      Crossings(t.x, delta.x, radius) + Crossings(t.y, delta.y, radius) + Crossings(t.z, delta.z, radius)
    }

    function Count(t: Bounds, a: Axis): nat {
      Crossings(t.At(a), delta.At(a), radius)
    }
  }

  /** Taking a step on an axis within the radius uses up one crossing and keeps Valid. */
  lemma PendingStep(ray: Ray, t: Bounds, a: Axis)
    requires ray.Valid(t) && !Exceeds(t.At(a), ray.radius)
    ensures ray.step.At(a) != 0.0
    ensures ray.Valid(t.Advance(a, ray.delta.At(a)))
    ensures ray.Count(t.Advance(a, ray.delta.At(a)), a) + 1 == ray.Count(t, a)
    ensures ray.Pending(t.Advance(a, ray.delta.At(a))) + 1 == ray.Pending(t)
  {
    assert ray.AxisOk(t, a);
    CrossingsStep(t.At(a).v, ray.delta.At(a), ray.radius);
    var t' := t.Advance(a, ray.delta.At(a));
    assert ray.Pending(t) == ray.Count(t, X) + ray.Count(t, Y) + ray.Count(t, Z);
    assert ray.Pending(t') == ray.Count(t', X) + ray.Count(t', Y) + ray.Count(t', Z);
    assert ray.AxisOk(t', a);
  }

  /**
   * The voxels the loop of BetweenPoints emits from voxel `cur` with next
   * crossings `t`: emit `cur`; pick an axis by Choose; stop if its crossing
   * lies beyond the radius, otherwise step one cell on it and go on.
   */
  function Walk(ray: Ray, cur: Vec3, t: Bounds): seq<Vec3>
    requires ray.Valid(t)
    decreases ray.Pending(t)
  {
    var a := Choose(t);
    if Exceeds(t.At(a), ray.radius) then [cur]
    else
      PendingStep(ray, t, a);
      [cur] + Walk(ray, cur.Shift(a, ray.step.At(a)), t.Advance(a, ray.delta.At(a)))
  }

  /** One pass of the loop: emit cur, then stop or go on from the next crossing. */
  lemma WalkUnfold(ray: Ray, cur: Vec3, t: Bounds)
    requires ray.Valid(t)
    ensures var a := Choose(t);
      if Exceeds(t.At(a), ray.radius) then Walk(ray, cur, t) == [cur]
      else
        && ray.Valid(t.Advance(a, ray.delta.At(a)))
        && ray.Pending(t.Advance(a, ray.delta.At(a))) < ray.Pending(t)
        && Walk(ray, cur, t) == [cur] + Walk(ray, cur.Shift(a, ray.step.At(a)), t.Advance(a, ray.delta.At(a)))
  {
    var a := Choose(t);
    if !Exceeds(t.At(a), ray.radius) {
      PendingStep(ray, t, a);
    }
  }

  /** One pass of the loop that does not stop: emit cur and go on from the next crossing. */
  lemma WalkAppend(ray: Ray, cur: Vec3, t: Bounds, a: Axis, was: seq<Vec3>)
    requires ray.Valid(t) && a == Choose(t) && !Exceeds(t.At(a), ray.radius)
    ensures ray.Valid(t.Advance(a, ray.delta.At(a)))
    ensures ray.Pending(t.Advance(a, ray.delta.At(a))) < ray.Pending(t)
    ensures (was + [cur]) + Walk(ray, cur.Shift(a, ray.step.At(a)), t.Advance(a, ray.delta.At(a)))
         == was + Walk(ray, cur, t)
  {
    WalkUnfold(ray, cur, t);
  }

  /** The sign of each component: stepX, stepY, stepZ. */
  function Signs(d: Vec3): Vec3 {
    Vec3(CompareTo(d.x, 0.0), CompareTo(d.y, 0.0), CompareTo(d.z, 0.0))
  }

  /** stepX.., tDeltaX.. for direction dir and the given radius. */
  function Setup(dir: Vec3, radius: real): Ray {
    var step := Signs(dir);
    Ray(step, Vec3(FindDelta(dir.x, step.x), FindDelta(dir.y, step.y), FindDelta(dir.z, step.z)), radius)
  }

  /** tMaxX.. before the first pass of the loop. */
  function FirstBounds(start: Vec3, dir: Vec3): Bounds {
    Bounds(DistanceToBoundary(start.x, dir.x), DistanceToBoundary(start.y, dir.y), DistanceToBoundary(start.z, dir.z))
  }

  /** One axis of Setup and FirstBounds satisfies AxisOk. */
  lemma SetupAxisOk(p: real, c: real)
    ensures var s := CompareTo(c, 0.0);
      && (s == -1.0 || s == 0.0 || s == 1.0)
      && (DistanceToBoundary(p, c) == Inf <==> s == 0.0)
      && (s != 0.0 ==> FindDelta(c, s) > 0.0)
  {
    var s := CompareTo(c, 0.0);
    if c != 0.0 {
      assert FindDelta(c, s) * c == s;
    }
  }

  lemma SetupValid(start: Vec3, dir: Vec3, radius: real)
    ensures Setup(dir, radius).Valid(FirstBounds(start, dir))
  {
    SetupAxisOk(start.x, dir.x);
    SetupAxisOk(start.y, dir.y);
    SetupAxisOk(start.z, dir.z);
  }

  /**
   * The voxels of the ray from start along dir, stopping once the next wall
   * crossing lies beyond radius (measured in units of dir).
   */
  function RayVoxels(start: Vec3, dir: Vec3, radius: real): seq<Vec3> {
    SetupValid(start, dir, radius);
    Walk(Setup(dir, radius), FloorVec(start), FirstBounds(start, dir))
  }

  /**
   * What BetweenPoints returns: an error for a zero direction, otherwise the
   * voxels of the segment, walked along end - start with the parameter
   * running over [0, 1] (see RaytraceProperties.Normalised for the unit
   * direction and Euclidean radius the source computes).
   */
  function Segment(start: Vec3, end: Vec3): Result<seq<Vec3>> {
    if Sub(end, start) == Zero then Err(ZeroDirection)
    else Ok(RayVoxels(start, Sub(end, start), 1.0))
  }

  /** BetweenPoints: the stepping loop over the voxels from start to end. */
  method BetweenPoints(start: Vec3, end: Vec3) returns (r: Result<seq<Vec3>>)
    ensures r == Segment(start, end)
  {
    var currentPoint := FloorVec(start);

    // end - start rather than its normalisation: every tMax, tDelta and the
    // radius are divided by the segment's length, which keeps each comparison.
    var directionVector := Sub(end, start);
    if directionVector == Zero {
      return Err(ZeroDirection);
    }
    var radius := 1.0;

    var stepX := CompareTo(directionVector.x, 0.0);
    var stepY := CompareTo(directionVector.y, 0.0);
    var stepZ := CompareTo(directionVector.z, 0.0);

    var tMaxX := DistanceToBoundary(start.x, directionVector.x);
    var tMaxY := DistanceToBoundary(start.y, directionVector.y);
    var tMaxZ := DistanceToBoundary(start.z, directionVector.z);

    var tDeltaX := FindDelta(directionVector.x, stepX);
    var tDeltaY := FindDelta(directionVector.y, stepY);
    var tDeltaZ := FindDelta(directionVector.z, stepZ);

    ghost var ray := Ray(Vec3(stepX, stepY, stepZ), Vec3(tDeltaX, tDeltaY, tDeltaZ), radius);
    assert ray == Setup(directionVector, radius);
    SetupValid(start, directionVector, radius);

    var vectors: seq<Vec3> := [];
    while true
      invariant ray.Valid(Bounds(tMaxX, tMaxY, tMaxZ))
      invariant vectors + Walk(ray, currentPoint, Bounds(tMaxX, tMaxY, tMaxZ)) == RayVoxels(start, directionVector, radius)
      decreases ray.Pending(Bounds(tMaxX, tMaxY, tMaxZ))
    {
      ghost var t, was, cur := Bounds(tMaxX, tMaxY, tMaxZ), vectors, currentPoint;
      vectors := vectors + [currentPoint];

      if Less(tMaxX, tMaxY) && Less(tMaxX, tMaxZ) {
        if Exceeds(tMaxX, radius) {
          WalkUnfold(ray, cur, t);
          break;
        }
        WalkAppend(ray, cur, t, X, was);
        currentPoint := Vec3(currentPoint.x + stepX, currentPoint.y, currentPoint.z);
        tMaxX := Plus(tMaxX, tDeltaX);
        assert currentPoint == cur.Shift(X, ray.step.x) && Bounds(tMaxX, tMaxY, tMaxZ) == t.Advance(X, ray.delta.x);
      } else if Less(tMaxY, tMaxZ) {
        if Exceeds(tMaxY, radius) {
          WalkUnfold(ray, cur, t);
          break;
        }
        WalkAppend(ray, cur, t, Y, was);
        currentPoint := Vec3(currentPoint.x, currentPoint.y + stepY, currentPoint.z);
        tMaxY := Plus(tMaxY, tDeltaY);
        assert currentPoint == cur.Shift(Y, ray.step.y) && Bounds(tMaxX, tMaxY, tMaxZ) == t.Advance(Y, ray.delta.y);
      } else {
        if Exceeds(tMaxZ, radius) {
          WalkUnfold(ray, cur, t);
          break;
        }
        WalkAppend(ray, cur, t, Z, was);
        currentPoint := Vec3(currentPoint.x, currentPoint.y, currentPoint.z + stepZ);
        tMaxZ := Plus(tMaxZ, tDeltaZ);
        assert currentPoint == cur.Shift(Z, ray.step.z) && Bounds(tMaxX, tMaxY, tMaxZ) == t.Advance(Z, ray.delta.z);
      }
    }

    return Ok(vectors);
  }

  /** InDirection: the voxels from start to start + directionVector * maxDistance. */
  method InDirection(start: Vec3, directionVector: Vec3, maxDistance: real) returns (r: Result<seq<Vec3>>)
    ensures r == Segment(start, Add(start, Scale(directionVector, maxDistance)))
    ensures r.Err? <==> directionVector == Zero || maxDistance == 0.0
  {
    var end := Add(start, Scale(directionVector, maxDistance));
    assert Sub(end, start) == Scale(directionVector, maxDistance);
    r := BetweenPoints(start, end);
  }
}
