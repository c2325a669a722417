/**
 * What the traversal of raytrace.go guarantees, proved about the model in
 * VoxelRaytrace: the per-axis helpers, the tie-break, the shape of the voxel
 * sequence, where it ends, how long it is, and that walking along end - start
 * gives the same voxels as walking along the normalised direction for the
 * Euclidean distance.
 */
module RaytraceProperties {
  import opened RealFloor
  import opened VoxelRaytrace

  // ---------------------------------------------------------------------
  // The per-axis helpers
  // ---------------------------------------------------------------------

  /** With the step the source passes (the sign of c), findDelta is 1 / |c| > 0. */
  lemma DeltaCrossesOneCell(c: real)
    requires c != 0.0
    ensures var d := FindDelta(c, CompareTo(c, 0.0));
      d > 0.0 && d * Abs(c) == 1.0
  {
    var d := FindDelta(c, CompareTo(c, 0.0));
    assert d * c == CompareTo(c, 0.0);
  }

  /** Multiplying back by the divisor undoes a division. */
  lemma MulDiv(n: real, c: real)
    requires c != 0.0
    ensures c * (n / c) == n
  {
  }

  /** Moving up by (1 - frac(p)) / c with c > 0 reaches the wall floor(p) + 1. */
  lemma WallAbove(p: real, c: real, v: real)
    requires c > 0.0 && v == (1.0 - (p - p.Floor as real)) / c
    ensures p + c * v == (p.Floor + 1) as real
  {
    MulDiv(1.0 - (p - p.Floor as real), c);
  }

  /** Moving by the boundary distance v lands exactly on a cell wall. */
  lemma BoundaryIsWall(p: real, c: real, v: real)
    requires c != 0.0 && Fin(v) == DistanceToBoundary(p, c)
    ensures IsInteger(p + c * v)
  {
    var k;
    if c > 0.0 {
      WallAbove(p, c, v);
      k := p.Floor + 1;
    } else {
      IntegerNegate(p);
      if IsInteger(-p) {
        assert v == 0.0;
        k := p.Floor;
      } else {
        var q := -p;
        WallAbove(q, -c, v);
        k := -q.Floor - 1;
      }
    }
    assert p + c * v == k as real;
    FloorUnique(p + c * v, k);
  }

  /** Before the boundary distance, the coordinate stays in the cell it started in. */
  lemma NoWallBefore(p: real, c: real, s: real)
    requires c != 0.0 && 0.0 <= s < DistanceToBoundary(p, c).v
    ensures (p + c * s).Floor == p.Floor
  {
    var v := DistanceToBoundary(p, c).v;
    if c > 0.0 {
      MulDiv(1.0 - (p - p.Floor as real), c);
      assert c * v == 1.0 - (p - p.Floor as real);
      assert c * s < c * v;
      FloorUnique(p + c * s, p.Floor);
    } else {
      IntegerNegate(p);
      var q := -p;
      assert !IsInteger(q);
      MulDiv(1.0 - (q - q.Floor as real), -c);
      assert -c * v == 1.0 - (q - q.Floor as real);
      assert -c * s < -c * v;
      FloorNegate(q);
      FloorUnique(p + c * s, p.Floor);
    }
  }

  /** FloorVec gives the voxel holding p: whole numbers at most p, within one of it. */
  lemma FloorVecHolds(p: Vec3)
    ensures var v := FloorVec(p);
      && IsInteger(v.x) && v.x <= p.x < v.x + 1.0
      && IsInteger(v.y) && v.y <= p.y < v.y + 1.0
      && IsInteger(v.z) && v.z <= p.z < v.z + 1.0
  {
    FracBounds(p.x);
    FracBounds(p.y);
    FracBounds(p.z);
  }

  // ---------------------------------------------------------------------
  // Comparisons with +Inf, and the tie-break
  // ---------------------------------------------------------------------

  /**
   * Go's `<`, `>` and `+=` with +Inf: Less is a strict total order with +Inf
   * above every finite value, Exceeds is `radius < t`, and adding a
   * non-negative tDelta never brings a crossing back within the radius.
   */
  lemma ExtOrder(a: Ext, b: Ext, c: Ext, r: real, d: real)
    ensures !Less(a, a)
    ensures Less(a, b) ==> !Less(b, a)
    ensures Less(a, b) && Less(b, c) ==> Less(a, c)
    ensures a == b || Less(a, b) || Less(b, a)
    ensures !Less(Inf, a) && (a.Fin? ==> Less(a, Inf))
    ensures a.Fin? && b.Fin? ==> (Less(a, b) <==> a.v < b.v)
    ensures Exceeds(a, r) <==> Less(Fin(r), a)
    ensures Plus(a, d) == Inf <==> a == Inf
    ensures d >= 0.0 && Exceeds(a, r) ==> Exceeds(Plus(a, d), r)
  {
  }

  /** Position of an axis in the X, Y, Z order of the comparisons. */
  function Rank(a: Axis): nat {
    match a
    case X => 0
    case Y => 1
    case Z => 2
  }

  /**
   * Choose picks the LAST of the axes whose next crossing is smallest: no
   * axis is strictly below the chosen one, and every later axis is strictly
   * above it. Both directions, so this determines Choose.
   */
  lemma ChooseIsLastMinimum(t: Bounds, a: Axis)
    ensures Choose(t) == a <==>
      && (forall b :: !Less(t.At(b), t.At(a)))
      && (forall b :: Rank(a) < Rank(b) ==> Less(t.At(a), t.At(b)))
  {
    var c := Choose(t);
    assert forall b :: !Less(t.At(b), t.At(c));
    assert forall b :: Rank(c) < Rank(b) ==> Less(t.At(c), t.At(b));
    if c != a {
      if Rank(a) < Rank(c) {
        assert !Less(t.At(a), t.At(c));
      } else {
        assert Less(t.At(c), t.At(a));
      }
    }
  }

  /**
   * The loop stops only when no axis has a crossing left within the radius:
   * if the chosen axis's next crossing lies beyond it, so does every axis's.
   */
  lemma StopsOnlyWhenDone(ray: Ray, t: Bounds)
    requires ray.Valid(t) && Exceeds(t.At(Choose(t)), ray.radius)
    ensures forall b :: ray.Count(t, b) == 0
  {
    ChooseIsLastMinimum(t, Choose(t));
    forall b ensures ray.Count(t, b) == 0 {
      assert !Less(t.At(b), t.At(Choose(t)));
      assert Exceeds(t.At(b), ray.radius);
    }
  }

  // ---------------------------------------------------------------------
  // Chains of face-adjacent voxels
  // ---------------------------------------------------------------------

  /** Every step component is -1, 0 or 1. */
  predicate UnitSteps(step: Vec3) {
    forall a :: step.At(a) == -1.0 || step.At(a) == 0.0 || step.At(a) == 1.0
  }

  /** v is u moved one cell, on a single axis, by that axis's non-zero step. */
  predicate Adjacent(u: Vec3, v: Vec3, step: Vec3) {
    exists a :: step.At(a) != 0.0 && v == u.Shift(a, step.At(a))
  }

  predicate Chain(s: seq<Vec3>, step: Vec3) {
    forall i :: 0 <= i < |s| - 1 ==> Adjacent(s[i], s[i + 1], step)
  }

  /** How far v lies from origin, counted in steps along the step directions. */
  function Progress(step: Vec3, origin: Vec3, v: Vec3): real {
    Signed(step.x, v.x, origin.x) + Signed(step.y, v.y, origin.y) + Signed(step.z, v.z, origin.z)
  }

  /** The distance from ob to vb along an axis, counted in direction s. */
  function Signed(s: real, vb: real, ob: real): real {
    s * (vb - ob)
  }

  /** y is reached from x by moving only in direction sign (not at all for 0). */
  predicate MovesWith(sign: real, x: real, y: real) {
    if sign > 0.0 then x <= y else if sign < 0.0 then y <= x else x == y
  }

  /** One axis of a step: a moved coordinate gains one unit of progress. */
  lemma AxisProgress(s: real, ub: real, vb: real, ob: real, moved: bool)
    requires s == -1.0 || s == 0.0 || s == 1.0
    requires moved ==> s != 0.0 && vb == ub + s
    requires !moved ==> vb == ub
    ensures Signed(s, vb, ob) == Signed(s, ub, ob) + (if moved then 1.0 else 0.0)
    ensures MovesWith(s, ub, vb)
  {
    if s == 1.0 {
    } else if s == -1.0 {
    }
  }

  lemma AdjacentProgress(step: Vec3, origin: Vec3, u: Vec3, v: Vec3)
    requires UnitSteps(step) && Adjacent(u, v, step)
    ensures Progress(step, origin, v) == Progress(step, origin, u) + 1.0
  {
    var a :| step.At(a) != 0.0 && v == u.Shift(a, step.At(a));
    AxisProgress(step.At(X), u.At(X), v.At(X), origin.At(X), X == a);
    AxisProgress(step.At(Y), u.At(Y), v.At(Y), origin.At(Y), Y == a);
    AxisProgress(step.At(Z), u.At(Z), v.At(Z), origin.At(Z), Z == a);
  }

  /** A step never moves a coordinate against its step, nor one whose step is 0. */
  lemma AdjacentMonotone(step: Vec3, u: Vec3, v: Vec3, b: Axis)
    requires UnitSteps(step) && Adjacent(u, v, step)
    ensures MovesWith(step.At(b), u.At(b), v.At(b))
  {
    var a :| step.At(a) != 0.0 && v == u.Shift(a, step.At(a));
    AxisProgress(step.At(b), u.At(b), v.At(b), 0.0, b == a);
  }

  /** The n-th voxel of a chain lies exactly n steps from the first. */
  lemma {:induction false} ChainProgress(s: seq<Vec3>, step: Vec3, n: nat)
    requires UnitSteps(step) && Chain(s, step) && n < |s|
    ensures Progress(step, s[0], s[n]) == n as real
  {
    if n > 0 {
      ChainProgress(s, step, n - 1);
      AdjacentProgress(step, s[0], s[n - 1], s[n]);
    }
  }

  /** A chain never visits a voxel twice. */
  lemma ChainDistinct(s: seq<Vec3>, step: Vec3)
    requires UnitSteps(step) && Chain(s, step)
    ensures forall i, j :: 0 <= i < j < |s| ==> s[i] != s[j]
  {
    forall i, j | 0 <= i < j < |s| ensures s[i] != s[j] {
      ChainProgress(s, step, i);
      ChainProgress(s, step, j);
    }
  }

  /**
   * Along a chain every coordinate moves only in its step's direction, and a
   * coordinate whose step is 0 never changes.
   */
  lemma {:induction false} ChainMonotone(s: seq<Vec3>, step: Vec3, a: Axis, i: nat, j: nat)
    requires UnitSteps(step) && Chain(s, step) && i <= j < |s|
    ensures MovesWith(step.At(a), s[i].At(a), s[j].At(a))
    decreases j - i
  {
    if i < j {
      ChainMonotone(s, step, a, i + 1, j);
      AdjacentMonotone(step, s[i], s[i + 1], a);
    }
  }

  // ---------------------------------------------------------------------
  // The walk
  // ---------------------------------------------------------------------

  /** The walk starts at cur and each voxel is one step from the previous. */
  lemma {:induction false} WalkChain(ray: Ray, cur: Vec3, t: Bounds)
    requires ray.Valid(t)
    ensures var r := Walk(ray, cur, t); r[0] == cur && Chain(r, ray.step)
    decreases ray.Pending(t)
  {
    WalkUnfold(ray, cur, t);
    var a := Choose(t);
    if !Exceeds(t.At(a), ray.radius) {
      PendingStep(ray, t, a);
      var cur', t' := cur.Shift(a, ray.step.At(a)), t.Advance(a, ray.delta.At(a));
      WalkChain(ray, cur', t');
      var r, r' := Walk(ray, cur, t), Walk(ray, cur', t');
      assert r == [cur] + r';
      forall i | 0 <= i < |r| - 1 ensures Adjacent(r[i], r[i + 1], ray.step) {
        if i == 0 {
          assert r[1] == cur';
        } else {
          assert r[i] == r'[i - 1] && r[i + 1] == r'[i];
        }
      }
    }
  }

  /** A coordinate x after n steps of s. */
  function Reach(x: real, s: real, n: nat): real {
    x + s * n as real
  }

  lemma ReachZero(x: real, s: real)
    ensures Reach(x, s, 0) == x
  {
  }

  lemma ReachStep(x: real, s: real, n: nat)
    ensures Reach(x + s, s, n) == Reach(x, s, n + 1)
  {
    assert s * (n + 1) as real == s * n as real + s;
  }

  /** Steps of positive size only move forward. */
  lemma ReachAtLeast(x: real, s: real, n: nat)
    requires s > 0.0
    ensures x <= Reach(x, s, n)
  {
  }

  /** The walk takes exactly the crossings still ahead within the radius, plus its first voxel. */
  lemma {:induction false} WalkLength(ray: Ray, cur: Vec3, t: Bounds)
    requires ray.Valid(t)
    ensures |Walk(ray, cur, t)| == 1 + ray.Pending(t)
    decreases ray.Pending(t)
  {
    WalkUnfold(ray, cur, t);
    var a := Choose(t);
    if Exceeds(t.At(a), ray.radius) {
      StopsOnlyWhenDone(ray, t);
    } else {
      PendingStep(ray, t, a);
      WalkLength(ray, cur.Shift(a, ray.step.At(a)), t.Advance(a, ray.delta.At(a)));
    }
  }

  /** One more step on axis a: the last voxel moves on by the number of remaining crossings. */
  lemma LastAxis(ray: Ray, cur: Vec3, t: Bounds, a: Axis, b: Axis, last: real)
    requires ray.Valid(t) && !Exceeds(t.At(a), ray.radius)
    requires last == Reach(cur.Shift(a, ray.step.At(a)).At(b), ray.step.At(b), ray.Count(t.Advance(a, ray.delta.At(a)), b))
    ensures last == Reach(cur.At(b), ray.step.At(b), ray.Count(t, b))
  {
    PendingStep(ray, t, a);
    var t' := t.Advance(a, ray.delta.At(a));
    if b == a {
      ReachStep(cur.At(b), ray.step.At(b), ray.Count(t', b));
    } else {
      assert ray.Count(t', b) == ray.Count(t, b);
    }
  }

  /**
   * The last voxel of the walk is cur moved by step times the number of
   * crossings still ahead, on every axis.
   */
  lemma {:induction false} WalkLast(ray: Ray, cur: Vec3, t: Bounds)
    requires ray.Valid(t)
    ensures var r := Walk(ray, cur, t);
      forall a :: r[|r| - 1].At(a) == Reach(cur.At(a), ray.step.At(a), ray.Count(t, a))
    decreases ray.Pending(t)
  {
    WalkUnfold(ray, cur, t);
    var a := Choose(t);
    var r := Walk(ray, cur, t);
    if Exceeds(t.At(a), ray.radius) {
      StopsOnlyWhenDone(ray, t);
      forall b ensures Reach(cur.At(b), ray.step.At(b), ray.Count(t, b)) == cur.At(b) {
        assert ray.Count(t, b) == 0;
        ReachZero(cur.At(b), ray.step.At(b));
      }
    } else {
      PendingStep(ray, t, a);
      var cur', t' := cur.Shift(a, ray.step.At(a)), t.Advance(a, ray.delta.At(a));
      WalkLast(ray, cur', t');
      var r' := Walk(ray, cur', t');
      assert r[|r| - 1] == r'[|r'| - 1];
      forall b ensures r[|r| - 1].At(b) == Reach(cur.At(b), ray.step.At(b), ray.Count(t, b)) {
        LastAxis(ray, cur, t, a, b, r'[|r'| - 1].At(b));
      }
    }
  }

  // ---------------------------------------------------------------------
  // Positive rescaling: the same walk in other units
  // ---------------------------------------------------------------------

  function ScaleExt(t: Ext, k: real): Ext
    requires k > 0.0
  {
    match t
    case Inf => Inf
    case Fin(v) => Fin(v / k)
  }

  function ScaleBounds(t: Bounds, k: real): Bounds
    requires k > 0.0
  {
    Bounds(ScaleExt(t.x, k), ScaleExt(t.y, k), ScaleExt(t.z, k))
  }

  /** The same ray with the direction multiplied by k: times and radius divided by k. */
  function ScaleRay(ray: Ray, k: real): Ray
    requires k > 0.0
  {
    Ray(ray.step, Vec3(ray.delta.x / k, ray.delta.y / k, ray.delta.z / k), ray.radius / k)
  }

  lemma ScaleExtOrder(s: Ext, t: Ext, d: real, radius: real, k: real)
    requires k > 0.0
    ensures Less(ScaleExt(s, k), ScaleExt(t, k)) <==> Less(s, t)
    ensures Exceeds(ScaleExt(s, k), radius / k) <==> Exceeds(s, radius)
    ensures ScaleExt(Plus(s, d), k) == Plus(ScaleExt(s, k), d / k)
  {
    if s.Fin? {
      DivExact(s.v, s.v / k, k);
      DivExact(radius, radius / k, k);
      assert s.v / k > radius / k <==> s.v > radius;
      if t.Fin? {
        DivExact(t.v, t.v / k, k);
        assert s.v / k < t.v / k <==> s.v < t.v;
      }
      DivExact(s.v + d, s.v / k + d / k, k);
    }
  }

  lemma ScaleBoundsStep(ray: Ray, t: Bounds, k: real)
    requires k > 0.0 && ray.Valid(t)
    ensures ScaleRay(ray, k).Valid(ScaleBounds(t, k))
    ensures Choose(ScaleBounds(t, k)) == Choose(t)
    ensures var a := Choose(t);
      && (Exceeds(ScaleBounds(t, k).At(a), ray.radius / k) <==> Exceeds(t.At(a), ray.radius))
      && ScaleBounds(t.Advance(a, ray.delta.At(a)), k) == ScaleBounds(t, k).Advance(a, ScaleRay(ray, k).delta.At(a))
  {
    var a := Choose(t);
    ScaleExtOrder(t.x, t.y, ray.delta.x, ray.radius, k);
    ScaleExtOrder(t.x, t.z, ray.delta.x, ray.radius, k);
    ScaleExtOrder(t.y, t.z, ray.delta.y, ray.radius, k);
    ScaleExtOrder(t.z, t.x, ray.delta.z, ray.radius, k);
    assert ray.delta.x > 0.0 ==> ray.delta.x / k > 0.0;
    assert ray.delta.y > 0.0 ==> ray.delta.y / k > 0.0;
    assert ray.delta.z > 0.0 ==> ray.delta.z / k > 0.0;
  }

  /** Dividing every time and the radius by the same k > 0 leaves the walk unchanged. */
  lemma {:induction false} WalkScaled(ray: Ray, cur: Vec3, t: Bounds, k: real)
    requires k > 0.0 && ray.Valid(t)
    ensures ScaleRay(ray, k).Valid(ScaleBounds(t, k))
    ensures Walk(ScaleRay(ray, k), cur, ScaleBounds(t, k)) == Walk(ray, cur, t)
    decreases ray.Pending(t)
  {
    ScaleBoundsStep(ray, t, k);
    var sray, st := ScaleRay(ray, k), ScaleBounds(t, k);
    WalkUnfold(ray, cur, t);
    WalkUnfold(sray, cur, st);
    var a := Choose(t);
    if !Exceeds(t.At(a), ray.radius) {
      PendingStep(ray, t, a);
      WalkScaled(ray, cur.Shift(a, ray.step.At(a)), t.Advance(a, ray.delta.At(a)), k);
    }
  }

  lemma SetupAt(start: Vec3, dir: Vec3, radius: real, a: Axis)
    ensures Setup(dir, radius).step.At(a) == CompareTo(dir.At(a), 0.0)
    ensures Setup(dir, radius).delta.At(a) == FindDelta(dir.At(a), CompareTo(dir.At(a), 0.0))
    ensures FirstBounds(start, dir).At(a) == DistanceToBoundary(start.At(a), dir.At(a))
  {
  }

  /** Per axis: a direction component multiplied by k > 0 keeps the step and divides tDelta by k. */
  lemma StepScaled(c: real, ck: real, k: real)
    requires k > 0.0 && ck == c * k
    ensures CompareTo(ck, 0.0) == CompareTo(c, 0.0)
    ensures FindDelta(ck, CompareTo(ck, 0.0)) == FindDelta(c, CompareTo(c, 0.0)) / k
  {
    var s := CompareTo(c, 0.0);
    if c != 0.0 {
      DivExact(s, FindDelta(c, s) / k, ck);
    }
  }

  /** Dividing by c * k is dividing by c, then by k. */
  lemma QuotientScaled(n: real, c: real, k: real)
    requires c > 0.0 && k > 0.0
    ensures n / (c * k) == (n / c) / k
  {
    DivExact(n, (n / c) / k, c * k);
  }

  /** Per axis: a direction component multiplied by k > 0 divides the boundary distance by k. */
  lemma BoundaryScaled(p: real, c: real, ck: real, k: real)
    requires k > 0.0 && ck == c * k
    ensures DistanceToBoundary(p, ck) == ScaleExt(DistanceToBoundary(p, c), k)
  {
    if c > 0.0 {
      var n := 1.0 - (p - p.Floor as real);
      QuotientScaled(n, c, k);
      assert DistanceToBoundary(p, c) == Fin(n / c);
      assert DistanceToBoundary(p, ck) == Fin(n / ck);
    } else if c < 0.0 {
      IntegerNegate(p);
      if !IsInteger(-p) {
        var q := -p;
        var n := 1.0 - (q - q.Floor as real);
        QuotientScaled(n, -c, k);
        assert -ck == -c * k;
        assert DistanceToBoundary(p, c) == Fin(n / -c);
        assert DistanceToBoundary(p, ck) == Fin(n / -ck);
      }
    }
  }

  lemma SetupScaled(dir: Vec3, radius: real, k: real)
    requires k > 0.0
    ensures Setup(Scale(dir, k), radius / k) == ScaleRay(Setup(dir, radius), k)
  {
    var sd := Scale(dir, k);
    StepScaled(dir.x, sd.x, k);
    StepScaled(dir.y, sd.y, k);
    StepScaled(dir.z, sd.z, k);
  }

  lemma FirstBoundsScaledAt(start: Vec3, dir: Vec3, k: real, a: Axis)
    requires k > 0.0
    ensures FirstBounds(start, Scale(dir, k)).At(a) == ScaleExt(FirstBounds(start, dir).At(a), k)
  {
    BoundaryScaled(start.At(a), dir.At(a), Scale(dir, k).At(a), k);
  }

  lemma FirstBoundsScaled(start: Vec3, dir: Vec3, k: real)
    requires k > 0.0
    ensures FirstBounds(start, Scale(dir, k)) == ScaleBounds(FirstBounds(start, dir), k)
  {
    FirstBoundsScaledAt(start, dir, k, X);
    FirstBoundsScaledAt(start, dir, k, Y);
    FirstBoundsScaledAt(start, dir, k, Z);
  }

  lemma RayVoxelsScaled(start: Vec3, dir: Vec3, radius: real, k: real)
    requires k > 0.0
    ensures RayVoxels(start, Scale(dir, k), radius / k) == RayVoxels(start, dir, radius)
  {
    SetupValid(start, dir, radius);
    SetupScaled(dir, radius, k);
    FirstBoundsScaled(start, dir, k);
    WalkScaled(Setup(dir, radius), FloorVec(start), FirstBounds(start, dir), k);
  }

  lemma ScaledLength(u: Vec3, L: real)
    ensures Dot(Scale(u, L), Scale(u, L)) == (L * L) * Dot(u, u)
  {
    assert (u.x * L) * (u.x * L) == (L * L) * (u.x * u.x);
    assert (u.y * L) * (u.y * L) == (L * L) * (u.y * u.y);
    assert (u.z * L) * (u.z * L) == (L * L) * (u.z * u.z);
  }

  /** L is the Euclidean length of end - start, which is therefore not zero. */
  lemma NormalisedLength(start: Vec3, end: Vec3, u: Vec3, L: real)
    requires L > 0.0 && Dot(u, u) == 1.0 && Scale(u, L) == Sub(end, start)
    ensures L * L == SqrDistance(start, end)
    ensures Sub(end, start) != Zero
  {
    ScaledLength(u, L);
    assert L * L > 0.0;
  }

  /**
   * The source walks along the unit direction u = (end - start) / |end - start|
   * up to the radius L = |end - start|. For any such u and L the voxels are
   * those of Segment, which walks along end - start up to 1.
   */
  lemma Normalised(start: Vec3, end: Vec3, u: Vec3, L: real)
    requires L > 0.0 && Dot(u, u) == 1.0 && Scale(u, L) == Sub(end, start)
    ensures L * L == SqrDistance(start, end)
    ensures Segment(start, end) == Ok(RayVoxels(start, u, L))
  {
    NormalisedLength(start, end, u, L);
    DivExact(L, 1.0, L);
    RayVoxelsScaled(start, u, L, L);
    assert RayVoxels(start, Sub(end, start), 1.0) == RayVoxels(start, Scale(u, L), L / L);
  }

  /** InDirection with a unit direction walks exactly maxDistance along it. */
  lemma InDirectionUnit(start: Vec3, u: Vec3, maxDistance: real)
    requires Dot(u, u) == 1.0 && maxDistance > 0.0
    ensures Segment(start, Add(start, Scale(u, maxDistance))) == Ok(RayVoxels(start, u, maxDistance))
  {
    var end := Add(start, Scale(u, maxDistance));
    assert Scale(u, maxDistance) == Sub(end, start);
    Normalised(start, end, u, maxDistance);
  }

  // ---------------------------------------------------------------------
  // The voxels of a segment
  // ---------------------------------------------------------------------

  /**
   * The cell a coordinate moving in direction c ends in at e: the cell
   * [k, k + 1) holding e when moving up or not at all, and the cell
   * (k, k + 1] holding e when moving down.
   */
  function EndCell(e: real, c: real): (k: int)
    ensures c < 0.0 ==> k as real < e <= k as real + 1.0
    ensures c >= 0.0 ==> k as real <= e < k as real + 1.0
  {
    if c < 0.0 then -((-e).Floor) - 1 else e.Floor
  }

  /** The voxel the traversal from start ends in at end. */
  function EndVoxel(start: Vec3, end: Vec3): Vec3 {
    Vec3(EndCell(end.x, end.x - start.x) as real,
         EndCell(end.y, end.y - start.y) as real,
         EndCell(end.z, end.z - start.z) as real)
  }

  function Abs(x: real): real {
    if x < 0.0 then -x else x
  }

  /** The number of face steps between two voxels. */
  function GridDistance(u: Vec3, v: Vec3): real {
    Abs(v.x - u.x) + Abs(v.y - u.y) + Abs(v.z - u.z)
  }

  /** Crossings a moving-up axis makes from q within [0, 1]: floor(q + c) - floor(q). */
  lemma UpwardCrossings(q: real, c: real)
    requires c > 0.0
    ensures Crossings(Fin((1.0 - (q - q.Floor as real)) / c), 1.0 / c, 1.0) == (q + c).Floor - q.Floor
  {
    var f := q - q.Floor as real;
    FracBounds(q);
    var t0 := (1.0 - f) / c;
    DivExact(1.0 - f, t0, c);
    if t0 > 1.0 {
      assert t0 * c > c;
      FloorUnique(q + c, q.Floor);
    } else {
      DivExact(1.0 - t0, (1.0 - t0) * c, 1.0 / c);
      assert (1.0 - t0) * c == c + f - 1.0;
      FloorShift(c + f, -1);
      FloorShift(c + f, q.Floor);
      assert c + f + q.Floor as real == q + c;
    }
  }

  /**
   * On one axis, over the segment from p to p + c, the traversal makes
   * |EndCell - floor(p)| crossings, each by the step, and so ends in EndCell.
   */
  lemma AxisCrossings(p: real, c: real)
    ensures var s := CompareTo(c, 0.0);
      var n := Crossings(DistanceToBoundary(p, c), FindDelta(c, s), 1.0);
      && Reach(p.Floor as real, s, n) == EndCell(p + c, c) as real
      && n as real == Abs(EndCell(p + c, c) as real - p.Floor as real)
  {
    if c > 0.0 {
      assert FindDelta(c, 1.0) == 1.0 / c;
      UpwardCrossings(p, c);
    } else if c < 0.0 {
      var q, c' := -p, -c;
      assert FindDelta(c, -1.0) == 1.0 / c';
      IntegerNegate(p);
      if IsInteger(q) {
        DivExact(1.0, c', 1.0 / c');
        FloorShift(c', q.Floor);
        assert c' + q.Floor as real == q + c';
      } else {
        assert DistanceToBoundary(p, c) == Fin((1.0 - (q - q.Floor as real)) / c');
        UpwardCrossings(q, c');
        FloorNegate(q);
      }
      assert -(p + c) == q + c';
    }
  }

  lemma AtExtensional(u: Vec3, v: Vec3)
    requires forall a :: u.At(a) == v.At(a)
    ensures u == v
  {
    assert u.At(X) == v.At(X) && u.At(Y) == v.At(Y) && u.At(Z) == v.At(Z);
  }

  /** BetweenPoints fails exactly when start == end. */
  lemma SegmentFails(start: Vec3, end: Vec3)
    ensures Segment(start, end).Err? <==> start == end
  {
    if Sub(end, start) == Zero {
      assert end.x == start.x && end.y == start.y && end.z == start.z;
    }
  }

  /** A non-degenerate segment's voxels are the walk from floor(start). */
  lemma SegmentIsWalk(start: Vec3, end: Vec3)
    requires start != end
    ensures var d := Sub(end, start);
      && Setup(d, 1.0).Valid(FirstBounds(start, d))
      && Segment(start, end) == Ok(Walk(Setup(d, 1.0), FloorVec(start), FirstBounds(start, d)))
  {
    SegmentFails(start, end);
    SetupValid(start, Sub(end, start), 1.0);
  }

  /** On each axis the walk's crossings take floor(start) to EndVoxel(start, end). */
  lemma AxisEnd(start: Vec3, end: Vec3, a: Axis)
    ensures var d := Sub(end, start);
      var ray, t := Setup(d, 1.0), FirstBounds(start, d);
      && Reach(FloorVec(start).At(a), ray.step.At(a), ray.Count(t, a)) == EndVoxel(start, end).At(a)
      && ray.Count(t, a) as real == Abs(EndVoxel(start, end).At(a) - FloorVec(start).At(a))
  {
    var d := Sub(end, start);
    var ray, t := Setup(d, 1.0), FirstBounds(start, d);
    var p, c := start.At(a), d.At(a);
    var s := CompareTo(c, 0.0);
    var n := Crossings(DistanceToBoundary(p, c), FindDelta(c, s), 1.0);
    SetupAt(start, d, 1.0, a);
    assert ray.step.At(a) == s;
    assert ray.Count(t, a) == n;
    AxisCrossings(p, c);
    var k := EndCell(p + c, c) as real;
    assert p + c == end.At(a);
    assert EndVoxel(start, end).At(a) == k;
    assert FloorVec(start).At(a) == p.Floor as real;
  }

  /**
   * The voxels of a non-degenerate segment start at floor(start) and end in
   * EndVoxel(start, end); there are one more of them than the grid distance
   * between the two.
   */
  lemma SegmentEnds(start: Vec3, end: Vec3)
    requires start != end
    ensures Segment(start, end).Ok?
    ensures var r := Segment(start, end).value;
      && r[0] == FloorVec(start)
      && r[|r| - 1] == EndVoxel(start, end)
      && |r| as real == 1.0 + GridDistance(FloorVec(start), EndVoxel(start, end))
  {
    var d := Sub(end, start);
    var ray, t, cur := Setup(d, 1.0), FirstBounds(start, d), FloorVec(start);
    SegmentIsWalk(start, end);
    WalkChain(ray, cur, t);
    WalkLength(ray, cur, t);
    WalkLast(ray, cur, t);
    var r, e := Walk(ray, cur, t), EndVoxel(start, end);
    AxisEnd(start, end, X);
    AxisEnd(start, end, Y);
    AxisEnd(start, end, Z);
    AtExtensional(r[|r| - 1], e);
    assert ray.Pending(t) == ray.Count(t, X) + ray.Count(t, Y) + ray.Count(t, Z);
  }

  /** The steps of a traversal are signs. */
  lemma SignsAreUnit(d: Vec3)
    ensures UnitSteps(Signs(d))
  {
    forall a ensures Signs(d).At(a) == -1.0 || Signs(d).At(a) == 0.0 || Signs(d).At(a) == 1.0 {
      assert Signs(d).At(a) == CompareTo(d.At(a), 0.0);
    }
  }

  lemma ChainMonotoneAll(s: seq<Vec3>, step: Vec3)
    requires UnitSteps(step) && Chain(s, step)
    ensures forall i, j, a :: 0 <= i <= j < |s| ==> MovesWith(step.At(a), s[i].At(a), s[j].At(a))
  {
    forall i, j, a | 0 <= i <= j < |s| ensures MovesWith(step.At(a), s[i].At(a), s[j].At(a)) {
      ChainMonotone(s, step, a, i, j);
    }
  }

  /**
   * Each voxel of a segment is the previous one moved by ±1 on a single axis
   * (by the sign of end - start on that axis), no voxel repeats, each
   * coordinate moves only towards end, and an axis on which start and end
   * agree never changes.
   */
  lemma SegmentSteps(start: Vec3, end: Vec3)
    requires start != end
    ensures Segment(start, end).Ok?
    ensures var r, step := Segment(start, end).value, Signs(Sub(end, start));
      && Chain(r, step)
      && (forall i, j :: 0 <= i < j < |r| ==> r[i] != r[j])
      && (forall i, j, a :: 0 <= i <= j < |r| ==> MovesWith(step.At(a), r[i].At(a), r[j].At(a)))
  {
    var d := Sub(end, start);
    var ray, t, cur := Setup(d, 1.0), FirstBounds(start, d), FloorVec(start);
    SegmentIsWalk(start, end);
    WalkChain(ray, cur, t);
    var r := Walk(ray, cur, t);
    assert ray.step == Signs(d);
    SignsAreUnit(d);
    ChainDistinct(r, ray.step);
    ChainMonotoneAll(r, ray.step);
  }

  /**
   * On one axis: a coordinate that stays in its cell ends there, unless it
   * moves down onto the cell's lower wall.
   */
  lemma SameCellAxis(p: real, e: real)
    requires p.Floor == e.Floor
    requires e < p ==> !IsInteger(e)
    ensures EndCell(e, e - p) == p.Floor
  {
    if e < p {
      FloorNegate(e);
    }
  }

  /**
   * A segment that stays in one voxel, and that does not end exactly on a
   * wall it moves down onto, yields that voxel alone.
   */
  lemma SameVoxel(start: Vec3, end: Vec3)
    requires start != end && FloorVec(start) == FloorVec(end)
    requires end.x < start.x ==> !IsInteger(end.x)
    requires end.y < start.y ==> !IsInteger(end.y)
    requires end.z < start.z ==> !IsInteger(end.z)
    ensures Segment(start, end) == Ok([FloorVec(start)])
  {
    SameCellAxis(start.x, end.x);
    SameCellAxis(start.y, end.y);
    SameCellAxis(start.z, end.z);
    var e := EndVoxel(start, end);
    assert e == FloorVec(start);
    assert GridDistance(FloorVec(start), e) == 0.0;
    SegmentEnds(start, end);
    var r := Segment(start, end).value;
    assert |r| == 1 && r[0] == FloorVec(start);
    assert r == [FloorVec(start)];
  }

  // ---------------------------------------------------------------------
  // The voxels are the ones the segment passes through
  // ---------------------------------------------------------------------

  /** The point at parameter s of the ray from start along dir. */
  function Along(start: Vec3, dir: Vec3, s: real): Vec3 {
    Add(start, Scale(dir, s))
  }

  /** The closed unit cube of voxel v holds q. */
  predicate InCube(q: Vec3, v: Vec3) {
    && v.x <= q.x <= v.x + 1.0
    && v.y <= q.y <= v.y + 1.0
    && v.z <= q.z <= v.z + 1.0
  }

  /** Some point of the ray with parameter in [0, radius] lies in voxel v. */
  ghost predicate Touches(start: Vec3, dir: Vec3, radius: real, v: Vec3) {
    exists s :: 0.0 <= s <= radius && InCube(Along(start, dir, s), v)
  }

  /**
   * What one axis keeps through the loop, for the voxel coordinate cur that
   * the ray entered at parameter now. The step s is the sign of the component
   * c and tDelta d turns c into s. A moving axis's next crossing t lies on the
   * wall ahead of cur (cur + 1 moving up, cur moving down), and the crossing
   * before it, t - d, is not after now. A still axis stays in the cell of its
   * start p.
   */
  predicate Tracks(p: real, c: real, s: real, d: real, t: Ext, cur: real, now: real) {
    && s == CompareTo(c, 0.0)
    && if s == 0.0 then cur == p.Floor as real
       else d > 0.0 && d * c == s && t.Fin? && p + c * t.v == cur + (1.0 + s) / 2.0 && t.v - d <= now <= t.v
  }

  /** Tracks on every axis: the loop state follows the ray from start along dir. */
  predicate Following(start: Vec3, dir: Vec3, ray: Ray, cur: Vec3, t: Bounds, now: real) {
    forall a :: Tracks(start.At(a), dir.At(a), ray.step.At(a), ray.delta.At(a), t.At(a), cur.At(a), now)
  }

  /** 0 <= k * u <= k * d for k > 0 and 0 <= u <= d. */
  lemma MulBetween(k: real, u: real, d: real)
    requires k > 0.0 && 0.0 <= u <= d
    ensures 0.0 <= k * u <= k * d
  {
    assert k * d - k * u == k * (d - u);
  }

  /** On a tracking axis, the ray at parameter now is inside the current cell. */
  lemma TracksInCell(p: real, c: real, s: real, d: real, t: Ext, cur: real, now: real)
    requires Tracks(p, c, s, d, t, cur, now)
    ensures cur <= p + c * now <= cur + 1.0
  {
    if s == 0.0 {
      FracBounds(p);
      assert c * now == 0.0;
    } else {
      var u := t.v - now;
      assert p + c * now == p + c * t.v - c * u;
      if c > 0.0 {
        MulBetween(c, u, d);
      } else {
        MulBetween(-c, u, d);
      }
    }
  }

  /** Before the first pass every axis tracks the ray from its start, at parameter 0. */
  lemma TracksStart(p: real, c: real)
    ensures var s := CompareTo(c, 0.0);
      Tracks(p, c, s, FindDelta(c, s), DistanceToBoundary(p, c), p.Floor as real, 0.0)
  {
    if c != 0.0 {
      var d := FindDelta(c, CompareTo(c, 0.0));
      DeltaCrossesOneCell(c);
      DivExact(1.0, d, Abs(c));
      if c > 0.0 {
        WallAbove(p, c, DistanceToBoundary(p, c).v);
      } else {
        WallBelow(p, c, DistanceToBoundary(p, c).v);
      }
    }
  }

  /** Moving down, the boundary distance reaches the lower wall floor(p) of p's cell. */
  lemma WallBelow(p: real, c: real, v: real)
    requires c < 0.0 && Fin(v) == DistanceToBoundary(p, c)
    ensures p + c * v == p.Floor as real
  {
    IntegerNegate(p);
    if !IsInteger(p) {
      var q := -p;
      WallAbove(q, -c, v);
      FloorNegate(q);
    }
  }

  /** Stepping on a moving axis: cur moves by s and the next crossing by d. */
  lemma TracksStep(p: real, c: real, s: real, d: real, v: real, cur: real, now: real)
    requires Tracks(p, c, s, d, Fin(v), cur, now) && s != 0.0
    ensures Tracks(p, c, s, d, Fin(v + d), cur + s, v)
  {
    assert c * (v + d) == c * v + d * c;
  }

  /** An axis not stepped on keeps tracking at any later parameter up to its next crossing. */
  lemma TracksWait(p: real, c: real, s: real, d: real, t: Ext, cur: real, now: real, later: real)
    requires Tracks(p, c, s, d, t, cur, now) && now <= later && (t.Fin? ==> later <= t.v)
    ensures Tracks(p, c, s, d, t, cur, later)
  {
  }

  /** The state before the loop follows the ray, at parameter 0. */
  lemma FollowingStart(start: Vec3, dir: Vec3, radius: real)
    ensures Following(start, dir, Setup(dir, radius), FloorVec(start), FirstBounds(start, dir), 0.0)
  {
    forall a
      ensures Tracks(start.At(a), dir.At(a), Setup(dir, radius).step.At(a), Setup(dir, radius).delta.At(a),
                     FirstBounds(start, dir).At(a), FloorVec(start).At(a), 0.0)
    {
      SetupAt(start, dir, radius, a);
      TracksStart(start.At(a), dir.At(a));
      assert FloorVec(start).At(a) == start.At(a).Floor as real;
    }
  }

  /**
   * A pass that steps keeps the state following the ray; the new voxel is
   * entered at the chosen axis's crossing, which is not before the old one's.
   */
  lemma FollowingStep(start: Vec3, dir: Vec3, ray: Ray, cur: Vec3, t: Bounds, now: real, a: Axis)
    requires ray.Valid(t) && Following(start, dir, ray, cur, t, now)
    requires a == Choose(t) && !Exceeds(t.At(a), ray.radius)
    ensures now <= t.At(a).v
    ensures Following(start, dir, ray, cur.Shift(a, ray.step.At(a)), t.Advance(a, ray.delta.At(a)), t.At(a).v)
  {
    PendingStep(ray, t, a);
    ChooseIsLastMinimum(t, a);
    var v := t.At(a).v;
    var cur', t' := cur.Shift(a, ray.step.At(a)), t.Advance(a, ray.delta.At(a));
    assert Tracks(start.At(a), dir.At(a), ray.step.At(a), ray.delta.At(a), t.At(a), cur.At(a), now);
    forall b
      ensures Tracks(start.At(b), dir.At(b), ray.step.At(b), ray.delta.At(b), t'.At(b), cur'.At(b), v)
    {
      var p, c, s, d := start.At(b), dir.At(b), ray.step.At(b), ray.delta.At(b);
      assert Tracks(p, c, s, d, t.At(b), cur.At(b), now);
      if b == a {
        TracksStep(p, c, s, d, v, cur.At(b), now);
      } else {
        assert !Less(t.At(b), t.At(a));
        TracksWait(p, c, s, d, t.At(b), cur.At(b), now, v);
      }
    }
  }

  /** The current voxel holds the ray's point at parameter now. */
  lemma FollowingInCube(start: Vec3, dir: Vec3, ray: Ray, cur: Vec3, t: Bounds, now: real)
    requires Following(start, dir, ray, cur, t, now)
    ensures InCube(Along(start, dir, now), cur)
  {
    assert Tracks(start.At(X), dir.At(X), ray.step.At(X), ray.delta.At(X), t.At(X), cur.At(X), now);
    assert Tracks(start.At(Y), dir.At(Y), ray.step.At(Y), ray.delta.At(Y), t.At(Y), cur.At(Y), now);
    assert Tracks(start.At(Z), dir.At(Z), ray.step.At(Z), ray.delta.At(Z), t.At(Z), cur.At(Z), now);
    TracksInCell(start.x, dir.x, ray.step.x, ray.delta.x, t.x, cur.x, now);
    TracksInCell(start.y, dir.y, ray.step.y, ray.delta.y, t.y, cur.y, now);
    TracksInCell(start.z, dir.z, ray.step.z, ray.delta.z, t.z, cur.z, now);
  }

  /** Every voxel the walk emits holds a point of the ray with parameter in [now, radius]. */
  lemma {:induction false} WalkTouches(start: Vec3, dir: Vec3, ray: Ray, cur: Vec3, t: Bounds, now: real)
    requires ray.Valid(t) && Following(start, dir, ray, cur, t, now) && 0.0 <= now <= ray.radius
    ensures forall v :: v in Walk(ray, cur, t) ==> Touches(start, dir, ray.radius, v)
    decreases ray.Pending(t)
  {
    FollowingInCube(start, dir, ray, cur, t, now);
    assert Touches(start, dir, ray.radius, cur);
    var a := Choose(t);
    WalkUnfold(ray, cur, t);
    if !Exceeds(t.At(a), ray.radius) {
      FollowingStep(start, dir, ray, cur, t, now, a);
      WalkTouches(start, dir, ray, cur.Shift(a, ray.step.At(a)), t.Advance(a, ray.delta.At(a)), t.At(a).v);
    }
  }

  /**
   * Every voxel BetweenPoints returns holds a point of the segment: some
   * start + s * (end - start) with 0 <= s <= 1 lies in its closed cube.
   */
  lemma SegmentPassesThrough(start: Vec3, end: Vec3)
    requires start != end
    ensures var r := Segment(start, end).value;
      forall i :: 0 <= i < |r| ==> Touches(start, Sub(end, start), 1.0, r[i])
  {
    var d := Sub(end, start);
    SegmentIsWalk(start, end);
    FollowingStart(start, d, 1.0);
    WalkTouches(start, d, Setup(d, 1.0), FloorVec(start), FirstBounds(start, d), 0.0);
  }

  // ---------------------------------------------------------------------
  // Worked cases
  // ---------------------------------------------------------------------

  /** m voxels in a row along X from v, each one cell further in direction s. */
  function LineOnX(v: Vec3, s: real, m: nat): seq<Vec3>
    decreases m
  {
    if m == 0 then [] else [v] + LineOnX(Vec3(v.x + s, v.y, v.z), s, m - 1)
  }

  /**
   * A ray moving along X alone, with its X crossings at t0, t0 + d, ... of
   * which exactly n lie within the radius, visits the n + 1 cells in a row
   * from its first voxel.
   */
  lemma {:induction false} StraightOnX(ray: Ray, v0: Vec3, t0: real, n: nat)
    requires ray.step.y == 0.0 && ray.step.z == 0.0
    requires ray.step.x == 1.0 || ray.step.x == -1.0
    requires ray.delta.x > 0.0
    requires n > 0 ==> Reach(t0, ray.delta.x, n - 1) <= ray.radius
    requires Reach(t0, ray.delta.x, n) > ray.radius
    ensures ray.Valid(Bounds(Fin(t0), Inf, Inf))
    ensures Walk(ray, v0, Bounds(Fin(t0), Inf, Inf)) == LineOnX(v0, ray.step.x, n + 1)
    decreases n
  {
    var d := ray.delta.x;
    var t := Bounds(Fin(t0), Inf, Inf);
    assert ray.Valid(t);
    assert Choose(t) == X;
    WalkUnfold(ray, v0, t);
    if n == 0 {
      ReachZero(t0, d);
    } else {
      ReachAtLeast(t0, d, n - 1);
      ReachStep(t0, d, n - 1);
      if n > 1 {
        ReachStep(t0, d, n - 2);
      }
      StraightOnX(ray, v0.Shift(X, ray.step.x), t0 + d, n - 1);
      assert v0.Shift(X, ray.step.x) == Vec3(v0.x + ray.step.x, v0.y, v0.z);
      assert t.Advance(X, d) == Bounds(Fin(t0 + d), Inf, Inf);
    }
  }

  /**
   * A segment whose Setup moves along X alone, with n of its X crossings
   * within the segment, visits n + 1 cells in a row.
   */
  lemma StraightSegment(start: Vec3, end: Vec3, s: real, dl: real, t0: real, n: nat)
    requires start != end && (s == 1.0 || s == -1.0) && dl > 0.0
    requires Setup(Sub(end, start), 1.0) == Ray(Vec3(s, 0.0, 0.0), Vec3(dl, 0.0, 0.0), 1.0)
    requires FirstBounds(start, Sub(end, start)) == Bounds(Fin(t0), Inf, Inf)
    requires n > 0 ==> Reach(t0, dl, n - 1) <= 1.0
    requires Reach(t0, dl, n) > 1.0
    ensures Segment(start, end) == Ok(LineOnX(FloorVec(start), s, n + 1))
  {
    SegmentIsWalk(start, end);
    StraightOnX(Setup(Sub(end, start), 1.0), FloorVec(start), t0, n);
  }

  /** An axis-aligned segment steps exactly one cell per wall on X only. */
  lemma AxisAlignedExample(start: Vec3, end: Vec3)
    requires start == Vec3(0.5, 0.5, 0.5) && end == Vec3(3.5, 0.5, 0.5)
    ensures Segment(start, end)
         == Ok([Vec3(0.0, 0.0, 0.0), Vec3(1.0, 0.0, 0.0), Vec3(2.0, 0.0, 0.0), Vec3(3.0, 0.0, 0.0)])
  {
    var d := Sub(end, start);
    AxisAlignedSetup(start, d);
    AxisAlignedLine();
    StraightSegment(start, end, 1.0, 1.0 / 3.0, 1.0 / 6.0, 3);
  }

  lemma AxisAlignedLine()
    ensures LineOnX(Vec3(0.0, 0.0, 0.0), 1.0, 4)
         == [Vec3(0.0, 0.0, 0.0), Vec3(1.0, 0.0, 0.0), Vec3(2.0, 0.0, 0.0), Vec3(3.0, 0.0, 0.0)]
  {
  }

  lemma AxisAlignedSetup(start: Vec3, d: Vec3)
    requires start == Vec3(0.5, 0.5, 0.5) && d == Vec3(3.0, 0.0, 0.0)
    ensures Setup(d, 1.0) == Ray(Vec3(1.0, 0.0, 0.0), Vec3(1.0 / 3.0, 0.0, 0.0), 1.0)
    ensures FirstBounds(start, d) == Bounds(Fin(1.0 / 6.0), Inf, Inf)
    ensures FloorVec(start) == Vec3(0.0, 0.0, 0.0)
    ensures Reach(1.0 / 6.0, 1.0 / 3.0, 2) <= 1.0 < Reach(1.0 / 6.0, 1.0 / 3.0, 3)
  {
    assert DistanceToBoundary(0.5, 3.0) == Fin(1.0 / 6.0);
  }

  /**
   * A diagonal through a grid edge: X and Y reach their walls together and
   * the tie goes to Y, the later axis.
   */
  lemma DiagonalTieExample(start: Vec3, end: Vec3)
    requires start == Vec3(0.5, 0.5, 0.5) && end == Vec3(1.5, 1.5, 0.5)
    ensures Segment(start, end)
         == Ok([Vec3(0.0, 0.0, 0.0), Vec3(0.0, 1.0, 0.0), Vec3(1.0, 1.0, 0.0)])
  {
    var d := Sub(end, start);
    DiagonalTieSetup(start, d);
    SegmentIsWalk(start, end);
    TieOnXY(Setup(d, 1.0), FloorVec(start), 0.5);
  }

  lemma DiagonalTieSetup(start: Vec3, d: Vec3)
    requires start == Vec3(0.5, 0.5, 0.5) && d == Vec3(1.0, 1.0, 0.0)
    ensures Setup(d, 1.0) == Ray(Vec3(1.0, 1.0, 0.0), Vec3(1.0, 1.0, 0.0), 1.0)
    ensures FirstBounds(start, d) == Bounds(Fin(0.5), Fin(0.5), Inf)
    ensures FloorVec(start) == Vec3(0.0, 0.0, 0.0)
  {
    assert DistanceToBoundary(0.5, 1.0) == Fin(0.5);
  }

  /**
   * The same diagonal walked back: the tie again goes to Y, so the middle
   * voxel is (1, 0, 0) and not (0, 1, 0). Reversing a segment whose ends lie
   * inside cells does not reverse its voxels when two axes cross together.
   */
  lemma DiagonalTieReversed(start: Vec3, end: Vec3)
    requires start == Vec3(0.5, 0.5, 0.5) && end == Vec3(1.5, 1.5, 0.5)
    ensures Segment(start, end)
         == Ok([Vec3(0.0, 0.0, 0.0), Vec3(0.0, 1.0, 0.0), Vec3(1.0, 1.0, 0.0)])
    ensures Segment(end, start)
         == Ok([Vec3(1.0, 1.0, 0.0), Vec3(1.0, 0.0, 0.0), Vec3(0.0, 0.0, 0.0)])
  {
    DiagonalTieExample(start, end);
    DiagonalTieBack(end, start);
  }

  lemma DiagonalTieBack(start: Vec3, end: Vec3)
    requires start == Vec3(1.5, 1.5, 0.5) && end == Vec3(0.5, 0.5, 0.5)
    ensures Segment(start, end)
         == Ok([Vec3(1.0, 1.0, 0.0), Vec3(1.0, 0.0, 0.0), Vec3(0.0, 0.0, 0.0)])
  {
    var d := Sub(end, start);
    DiagonalTieBackSetup(start, d);
    SegmentIsWalk(start, end);
    TieOnXY(Setup(d, 1.0), FloorVec(start), 0.5);
  }

  lemma DiagonalTieBackSetup(start: Vec3, d: Vec3)
    requires start == Vec3(1.5, 1.5, 0.5) && d == Vec3(-1.0, -1.0, 0.0)
    ensures Setup(d, 1.0) == Ray(Vec3(-1.0, -1.0, 0.0), Vec3(1.0, 1.0, 0.0), 1.0)
    ensures FirstBounds(start, d) == Bounds(Fin(0.5), Fin(0.5), Inf)
    ensures FloorVec(start) == Vec3(1.0, 1.0, 0.0)
  {
    assert DistanceToBoundary(1.5, -1.0) == Fin(0.5);
  }

  /**
   * Two passes of the loop with X and Y crossing together at t0 and again at
   * t0 + d beyond the radius: Y steps first, then X.
   */
  lemma TieOnXY(ray: Ray, v0: Vec3, t0: real)
    requires ray.step.z == 0.0
    requires ray.step.x == 1.0 || ray.step.x == -1.0
    requires ray.step.y == 1.0 || ray.step.y == -1.0
    requires ray.delta.x == ray.delta.y > 0.0 && 0.0 <= t0 <= ray.radius < t0 + ray.delta.x
    ensures ray.Valid(Bounds(Fin(t0), Fin(t0), Inf))
    ensures Walk(ray, v0, Bounds(Fin(t0), Fin(t0), Inf))
         == [v0, v0.Shift(Y, ray.step.y), v0.Shift(Y, ray.step.y).Shift(X, ray.step.x)]
  {
    var d := ray.delta.x;
    var t1 := Bounds(Fin(t0), Fin(t0), Inf);
    var t2 := t1.Advance(Y, d);
    var t3 := t2.Advance(X, d);
    var v1 := v0.Shift(Y, ray.step.y);
    var v2 := v1.Shift(X, ray.step.x);
    assert ray.Valid(t1);
    assert Choose(t1) == Y && !Exceeds(t1.y, ray.radius);
    WalkUnfold(ray, v0, t1);
    assert Choose(t2) == X && !Exceeds(t2.x, ray.radius);
    WalkUnfold(ray, v1, t2);
    assert Choose(t3) == Y && Exceeds(t3.y, ray.radius);
    WalkUnfold(ray, v2, t3);
  }

  /**
   * Starting exactly on a wall and moving down crosses it at once: the start
   * voxel is emitted, then the ones below down to the cell whose top wall is
   * the end. Walked the other way the same segment yields one voxel fewer, so
   * reversing a segment does not in general reverse its voxels.
   */
  lemma WallStartExample(start: Vec3, end: Vec3)
    requires start == Vec3(2.0, 0.5, 0.5) && end == Vec3(0.0, 0.5, 0.5)
    ensures Segment(start, end)
         == Ok([Vec3(2.0, 0.0, 0.0), Vec3(1.0, 0.0, 0.0), Vec3(0.0, 0.0, 0.0), Vec3(-1.0, 0.0, 0.0)])
    ensures Segment(end, start)
         == Ok([Vec3(0.0, 0.0, 0.0), Vec3(1.0, 0.0, 0.0), Vec3(2.0, 0.0, 0.0)])
  {
    WallStartDown(start, end);
    WallStartUp(end, start);
  }

  lemma WallStartDown(start: Vec3, end: Vec3)
    requires start == Vec3(2.0, 0.5, 0.5) && end == Vec3(0.0, 0.5, 0.5)
    ensures Segment(start, end)
         == Ok([Vec3(2.0, 0.0, 0.0), Vec3(1.0, 0.0, 0.0), Vec3(0.0, 0.0, 0.0), Vec3(-1.0, 0.0, 0.0)])
  {
    WallStartSetup(start, Sub(end, start));
    WallStartLine();
    StraightSegment(start, end, -1.0, 0.5, 0.0, 3);
  }

  lemma WallStartUp(start: Vec3, end: Vec3)
    requires start == Vec3(0.0, 0.5, 0.5) && end == Vec3(2.0, 0.5, 0.5)
    ensures Segment(start, end) == Ok([Vec3(0.0, 0.0, 0.0), Vec3(1.0, 0.0, 0.0), Vec3(2.0, 0.0, 0.0)])
  {
    WallEndSetup(start, Sub(end, start));
    WallEndLine();
    StraightSegment(start, end, 1.0, 0.5, 0.5, 2);
  }

  lemma WallStartLine()
    ensures LineOnX(Vec3(2.0, 0.0, 0.0), -1.0, 4)
         == [Vec3(2.0, 0.0, 0.0), Vec3(1.0, 0.0, 0.0), Vec3(0.0, 0.0, 0.0), Vec3(-1.0, 0.0, 0.0)]
  {
  }

  lemma WallStartSetup(start: Vec3, d: Vec3)
    requires start == Vec3(2.0, 0.5, 0.5) && d == Vec3(-2.0, 0.0, 0.0)
    ensures Setup(d, 1.0) == Ray(Vec3(-1.0, 0.0, 0.0), Vec3(0.5, 0.0, 0.0), 1.0)
    ensures FirstBounds(start, d) == Bounds(Fin(0.0), Inf, Inf)
    ensures FloorVec(start) == Vec3(2.0, 0.0, 0.0)
    ensures Reach(0.0, 0.5, 2) <= 1.0 < Reach(0.0, 0.5, 3)
  {
    assert DistanceToBoundary(2.0, -2.0) == Fin(0.0);
  }

  lemma WallEndLine()
    ensures LineOnX(Vec3(0.0, 0.0, 0.0), 1.0, 3) == [Vec3(0.0, 0.0, 0.0), Vec3(1.0, 0.0, 0.0), Vec3(2.0, 0.0, 0.0)]
  {
  }

  /**
   * Ending exactly on the lower wall of the start cell while moving down
   * crosses that wall at the end point itself, so the cell below is emitted
   * too: a segment inside one cell gives two voxels here.
   */
  lemma WallEndExample(start: Vec3, end: Vec3)
    requires start == Vec3(0.5, 0.5, 0.5) && end == Vec3(0.0, 0.5, 0.5)
    ensures FloorVec(start) == FloorVec(end)
    ensures Segment(start, end) == Ok([Vec3(0.0, 0.0, 0.0), Vec3(-1.0, 0.0, 0.0)])
  {
    WallEndDownSetup(start, Sub(end, start));
    WallEndDownLine();
    StraightSegment(start, end, -1.0, 2.0, 1.0, 1);
  }

  lemma WallEndDownLine()
    ensures LineOnX(Vec3(0.0, 0.0, 0.0), -1.0, 2) == [Vec3(0.0, 0.0, 0.0), Vec3(-1.0, 0.0, 0.0)]
  {
  }

  lemma WallEndDownSetup(start: Vec3, d: Vec3)
    requires start == Vec3(0.5, 0.5, 0.5) && d == Vec3(-0.5, 0.0, 0.0)
    ensures Setup(d, 1.0) == Ray(Vec3(-1.0, 0.0, 0.0), Vec3(2.0, 0.0, 0.0), 1.0)
    ensures FirstBounds(start, d) == Bounds(Fin(1.0), Inf, Inf)
    ensures FloorVec(start) == Vec3(0.0, 0.0, 0.0)
    ensures Reach(1.0, 2.0, 0) <= 1.0 < Reach(1.0, 2.0, 1)
  {
    assert DistanceToBoundary(0.5, -0.5) == Fin(1.0);
  }

  lemma WallEndSetup(start: Vec3, d: Vec3)
    requires start == Vec3(0.0, 0.5, 0.5) && d == Vec3(2.0, 0.0, 0.0)
    ensures Setup(d, 1.0) == Ray(Vec3(1.0, 0.0, 0.0), Vec3(0.5, 0.0, 0.0), 1.0)
    ensures FirstBounds(start, d) == Bounds(Fin(0.5), Inf, Inf)
    ensures FloorVec(start) == Vec3(0.0, 0.0, 0.0)
    ensures Reach(0.5, 0.5, 1) <= 1.0 < Reach(0.5, 0.5, 2)
  {
    assert DistanceToBoundary(0.0, 2.0) == Fin(0.5);
  }

  /**
   * A segment whose ends both lie inside cells: walked either way it covers
   * the same cells, in opposite orders.
   */
  lemma NegationExample(start: Vec3, end: Vec3)
    requires start == Vec3(2.5, 2.5, 2.5) && end == Vec3(-1.5, 2.5, 2.5)
    ensures Segment(start, end)
         == Ok([Vec3(2.0, 2.0, 2.0), Vec3(1.0, 2.0, 2.0), Vec3(0.0, 2.0, 2.0), Vec3(-1.0, 2.0, 2.0), Vec3(-2.0, 2.0, 2.0)])
    ensures Segment(end, start)
         == Ok([Vec3(-2.0, 2.0, 2.0), Vec3(-1.0, 2.0, 2.0), Vec3(0.0, 2.0, 2.0), Vec3(1.0, 2.0, 2.0), Vec3(2.0, 2.0, 2.0)])
  {
    NegationDown(start, end);
    NegationUp(end, start);
  }

  lemma NegationDown(start: Vec3, end: Vec3)
    requires start == Vec3(2.5, 2.5, 2.5) && end == Vec3(-1.5, 2.5, 2.5)
    ensures Segment(start, end)
         == Ok([Vec3(2.0, 2.0, 2.0), Vec3(1.0, 2.0, 2.0), Vec3(0.0, 2.0, 2.0), Vec3(-1.0, 2.0, 2.0), Vec3(-2.0, 2.0, 2.0)])
  {
    NegationSetup(start, Sub(end, start));
    NegationLine();
    StraightSegment(start, end, -1.0, 0.25, 1.0 / 8.0, 4);
  }

  lemma NegationUp(start: Vec3, end: Vec3)
    requires start == Vec3(-1.5, 2.5, 2.5) && end == Vec3(2.5, 2.5, 2.5)
    ensures Segment(start, end)
         == Ok([Vec3(-2.0, 2.0, 2.0), Vec3(-1.0, 2.0, 2.0), Vec3(0.0, 2.0, 2.0), Vec3(1.0, 2.0, 2.0), Vec3(2.0, 2.0, 2.0)])
  {
    NegationUpSetup(start, Sub(end, start));
    NegationUpLine();
    StraightSegment(start, end, 1.0, 0.25, 1.0 / 8.0, 4);
  }

  lemma NegationSetup(start: Vec3, d: Vec3)
    requires start == Vec3(2.5, 2.5, 2.5) && d == Vec3(-4.0, 0.0, 0.0)
    ensures Setup(d, 1.0) == Ray(Vec3(-1.0, 0.0, 0.0), Vec3(0.25, 0.0, 0.0), 1.0)
    ensures FirstBounds(start, d) == Bounds(Fin(1.0 / 8.0), Inf, Inf)
    ensures FloorVec(start) == Vec3(2.0, 2.0, 2.0)
    ensures Reach(1.0 / 8.0, 0.25, 3) <= 1.0 < Reach(1.0 / 8.0, 0.25, 4)
  {
    assert DistanceToBoundary(2.5, -4.0) == Fin(1.0 / 8.0);
  }

  lemma NegationLine()
    ensures LineOnX(Vec3(2.0, 2.0, 2.0), -1.0, 5)
         == [Vec3(2.0, 2.0, 2.0), Vec3(1.0, 2.0, 2.0), Vec3(0.0, 2.0, 2.0), Vec3(-1.0, 2.0, 2.0), Vec3(-2.0, 2.0, 2.0)]
  {
  }

  lemma NegationUpLine()
    ensures LineOnX(Vec3(-2.0, 2.0, 2.0), 1.0, 5)
         == [Vec3(-2.0, 2.0, 2.0), Vec3(-1.0, 2.0, 2.0), Vec3(0.0, 2.0, 2.0), Vec3(1.0, 2.0, 2.0), Vec3(2.0, 2.0, 2.0)]
  {
  }

  lemma NegationUpSetup(start: Vec3, d: Vec3)
    requires start == Vec3(-1.5, 2.5, 2.5) && d == Vec3(4.0, 0.0, 0.0)
    ensures Setup(d, 1.0) == Ray(Vec3(1.0, 0.0, 0.0), Vec3(0.25, 0.0, 0.0), 1.0)
    ensures FirstBounds(start, d) == Bounds(Fin(1.0 / 8.0), Inf, Inf)
    ensures FloorVec(start) == Vec3(-2.0, 2.0, 2.0)
    ensures Reach(1.0 / 8.0, 0.25, 3) <= 1.0 < Reach(1.0 / 8.0, 0.25, 4)
  {
    assert DistanceToBoundary(-1.5, 4.0) == Fin(1.0 / 8.0);
  }
}
