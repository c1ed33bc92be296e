/**
 The swept collision step of a box against voxels. Every arithmetic operation goes through a
 rounding of its exact result, so that the same step can be read in exact or in machine arithmetic.
 */
module Collision {

  datatype Vec3 = Vec3(x: real, y: real, z: real)
  {
    function Axis(a: nat): real { if a == 0 then x else if a == 1 then y else z }
    function With(a: nat, v: real): Vec3 {
      if a == 0 then Vec3(v, y, z) else if a == 1 then Vec3(x, v, z) else Vec3(x, y, v)
    }
  }

  datatype WorldOffset = WorldOffset(x: int, y: int, z: int)

  type Solid = (int, int, int) -> bool

  /** The machine result of an operation, from its exact result. */
  type Rounding = real -> real

  /** Monotone and true at zero, as every IEEE 754 rounding mode is. */
  ghost predicate IsRounding(fl: Rounding) {
    fl(0.0) == 0.0 && forall a, b :: a <= b ==> fl(a) <= fl(b)
  }

  ghost predicate IsExact(fl: Rounding) {
    forall a :: fl(a) == a
  }

  const WORLD_BOUND := 8388608.0

  /** Substeps are at most 1/16 long. */
  const SUBSTEPS_PER_UNIT := 16.0

  function Times(a: real, b: real): real { a * b }

  /* ----- branch-deterministic helpers ----- */

  function TruncToInt(f: real): int {
    if f >= 0.0 then f.Floor else -(-f).Floor
  }

  /** Truncate, then step down if that went up. */
  function DetFloorToInt(f: real): (r: int)
    ensures r as real <= f < (r + 1) as real
  {
    var t := TruncToInt(f);
    if t as real > f then t - 1 else t
  }

  function DetClamp(v: real, lo: real, hi: real): real {
    if v < lo then lo else if v > hi then hi else v
  }

  /** Clamping gives the nearest value of the interval. */
  lemma ClampIsNearest(v: real, lo: real, hi: real, w: real)
    requires lo <= w <= hi
    ensures lo <= DetClamp(v, lo, hi) <= hi
    ensures var c := DetClamp(v, lo, hi);
            (if c < v then v - c else c - v) <= (if w < v then v - w else w - v)
  {
  }

  /* ----- which voxels a box overlaps ----- */

  datatype AxisRange = AxisRange(lo: int, hi: int)
  {
    predicate Has(i: int) { lo <= i <= hi }
  }

  /** Voxels overlapped by the half-open interval from lo to hi. */
  function OverlapRange(minCoord: real, maxCoord: real): AxisRange {
    var hi := DetFloorToInt(maxCoord);
    AxisRange(DetFloorToInt(minCoord), if hi as real == maxCoord then hi - 1 else hi)
  }

  /** A voxel is in range exactly when its open interval meets the box's. */
  lemma RangeMeets(minCoord: real, maxCoord: real, i: int)
    ensures OverlapRange(minCoord, maxCoord).Has(i) <==> i as real < maxCoord && minCoord < (i + 1) as real
  {
  }

  function RangeOn(fl: Rounding, center: real, half: real): AxisRange {
    OverlapRange(fl(center - half), fl(center + half))
  }

  predicate CoversOn(fl: Rounding, pos: Vec3, half: Vec3, axis: nat, i: int) {
    RangeOn(fl, pos.Axis(axis), half.Axis(axis)).Has(i)
  }

  predicate Covers(fl: Rounding, pos: Vec3, half: Vec3, x: int, y: int, z: int) {
    CoversOn(fl, pos, half, 0, x) && CoversOn(fl, pos, half, 1, y) && CoversOn(fl, pos, half, 2, z)
  }

  predicate SolidAt(solid: Solid, o: WorldOffset, x: int, y: int, z: int) {
    solid(x + o.x, y + o.y, z + o.z)
  }

  /** Some voxel that the box overlaps is solid. */
  ghost predicate Touches(fl: Rounding, pos: Vec3, half: Vec3, o: WorldOffset, solid: Solid) {
    exists x, y, z :: Covers(fl, pos, half, x, y, z) && SolidAt(solid, o, x, y, z)
  }

  /** One row of the overlap scan. */
  method RowIsSolid(r: AxisRange, y: int, z: int, o: WorldOffset, solid: Solid) returns (hit: bool)
    ensures hit <==> exists x :: r.Has(x) && SolidAt(solid, o, x, y, z)
  {
    var x := r.lo;
    while x <= r.hi
      invariant r.lo <= x
      invariant forall i :: r.lo <= i < x ==> !SolidAt(solid, o, i, y, z)
      decreases r.hi - x
    {
      if SolidAt(solid, o, x, y, z) {
        return true;
      }
      x := x + 1;
    }
    return false;
  }

  /** One layer of the overlap scan. */
  method LayerIsSolid(rx: AxisRange, ry: AxisRange, z: int, o: WorldOffset, solid: Solid) returns (hit: bool)
    ensures hit <==> exists x, y :: rx.Has(x) && ry.Has(y) && SolidAt(solid, o, x, y, z)
  {
    var y := ry.lo;
    while y <= ry.hi
      invariant ry.lo <= y
      invariant forall i, j :: rx.Has(i) && ry.lo <= j < y ==> !SolidAt(solid, o, i, j, z)
      decreases ry.hi - y
    {
      var row := RowIsSolid(rx, y, z, o, solid);
      if row {
        return true;
      }
      y := y + 1;
    }
    return false;
  }

  method RangesAreSolid(rx: AxisRange, ry: AxisRange, rz: AxisRange, o: WorldOffset,
                        solid: Solid) returns (hit: bool)
    ensures hit <==> exists x, y, z :: rx.Has(x) && ry.Has(y) && rz.Has(z) && SolidAt(solid, o, x, y, z)
  {
    var z := rz.lo;
    while z <= rz.hi
      invariant rz.lo <= z
      invariant forall i, j, k :: rx.Has(i) && ry.Has(j) && rz.lo <= k < z ==> !SolidAt(solid, o, i, j, k)
      decreases rz.hi - z
    {
      var layer := LayerIsSolid(rx, ry, z, o, solid);
      if layer {
        return true;
      }
      z := z + 1;
    }
    return false;
  }

  /** Scans the overlapped voxels; the order cannot matter. */
  method BoxOverlapsSolid(fl: Rounding, pos: Vec3, half: Vec3, o: WorldOffset, solid: Solid) returns (hit: bool)
    ensures hit <==> Touches(fl, pos, half, o, solid)
  {
    hit := RangesAreSolid(RangeOn(fl, pos.x, half.x), RangeOn(fl, pos.y, half.y), RangeOn(fl, pos.z, half.z), o, solid);
  }

  /** A test of box positions. */
  type Probe = Vec3 -> bool

  ghost function ProbeOf(fl: Rounding, half: Vec3, o: WorldOffset, solid: Solid): Probe {
    (p: Vec3) => Touches(fl, p, half, o, solid)
  }

  /* ----- one axis ----- */

  datatype Swept = Swept(pos: Vec3, blocked: bool)

  /** The coordinate that puts the leading face on the boundary of the voxel it entered. */
  function Flush(fl: Rounding, c: real, he: real, positive: bool): real {
    var cell := DetFloorToInt(fl(if positive then c + he else c - he));
    fl(if positive then cell as real - he else (cell + 1) as real + he)
  }

  /** Blocked on the way from prev to next: flush if that separates the box, else back to prev. */
  ghost function Stopped(fl: Rounding, touches: Probe, he: real, prev: Vec3, next: Vec3, axis: nat,
                         positive: bool): Vec3 {
    var q := next.With(axis, Flush(fl, next.Axis(axis), he, positive));
    if touches(q) then prev else q
  }

  ghost function SweepFrom(fl: Rounding, touches: Probe, he: real, pos: Vec3, axis: nat, positive: bool,
                           sub: real, n: nat): Swept
    decreases n
  {
    if n == 0 then Swept(pos, false)
    else
      var next := pos.With(axis, fl(pos.Axis(axis) + sub));
      if touches(next) then Swept(Stopped(fl, touches, he, pos, next, axis, positive), true)
      else SweepFrom(fl, touches, he, next, axis, positive, sub, n - 1)
  }

  function Magnitude(delta: real): real {
    if delta > 0.0 then delta else -delta
  }

  function SubstepCount(fl: Rounding, delta: real): int {
    TruncToInt(fl(Magnitude(delta) * SUBSTEPS_PER_UNIT)) + 1
  }

  lemma SubstepCountPositive(fl: Rounding, delta: real)
    requires IsRounding(fl)
    ensures SubstepCount(fl, delta) >= 1
  {
    assert fl(0.0) <= fl(Magnitude(delta) * SUBSTEPS_PER_UNIT);
  }

  ghost function SweepOf(fl: Rounding, touches: Probe, he: real, pos: Vec3, axis: nat, delta: real): Swept
    requires IsRounding(fl)
  {
    if delta == 0.0 then Swept(pos, false)
    else
      SubstepCountPositive(fl, delta);
      var n := SubstepCount(fl, delta);
      SweepFrom(fl, touches, he, pos, axis, delta > 0.0, fl(delta / n as real), n)
  }

  /* ----- one step ----- */

  datatype StepParams = StepParams(dt: real, gravity: real, damping: real, maxSpeed: real)

  datatype Body = Body(pos: Vec3, vel: Vec3, half: Vec3, onGround: bool)

  function ClampPos(p: Vec3): Vec3 {
    Vec3(DetClamp(p.x, -WORLD_BOUND, WORLD_BOUND), DetClamp(p.y, -WORLD_BOUND, WORLD_BOUND),
         DetClamp(p.z, -WORLD_BOUND, WORLD_BOUND))
  }

  predicate InBound(p: Vec3) {
    -WORLD_BOUND <= p.x <= WORLD_BOUND && -WORLD_BOUND <= p.y <= WORLD_BOUND && -WORLD_BOUND <= p.z <= WORLD_BOUND
  }

  function NewVelocity(fl: Rounding, v: Vec3, params: StepParams): Vec3 {
    var vy := fl(v.y + fl(Times(params.gravity, params.dt)));
    Vec3(DetClamp(fl(Times(v.x, params.damping)), -params.maxSpeed, params.maxSpeed),
         DetClamp(fl(Times(vy, params.damping)), -params.maxSpeed, params.maxSpeed),
         DetClamp(fl(Times(v.z, params.damping)), -params.maxSpeed, params.maxSpeed))
  }

  /** The three sweeps of a step, in order Y, X, Z. */
  datatype Trajectory = Trajectory(y: Swept, x: Swept, z: Swept)

  ghost function Sweeps(fl: Rounding, touches: Probe, half: Vec3, start: Vec3, v: Vec3, dt: real): Trajectory
    requires IsRounding(fl)
  {
    var y := SweepOf(fl, touches, half.y, start, 1, fl(Times(v.y, dt)));
    var x := SweepOf(fl, touches, half.x, y.pos, 0, fl(Times(v.x, dt)));
    var z := SweepOf(fl, touches, half.z, x.pos, 2, fl(Times(v.z, dt)));
    Trajectory(y, x, z)
  }

  ghost function StepOf(fl: Rounding, b: Body, params: StepParams, o: WorldOffset, solid: Solid): Body
    requires IsRounding(fl)
  {
    var v := NewVelocity(fl, b.vel, params);
    var t := Sweeps(fl, ProbeOf(fl, b.half, o, solid), b.half, ClampPos(b.pos), v, params.dt);
    Body(ClampPos(t.z.pos),
         Vec3(if t.x.blocked then 0.0 else v.x, if t.y.blocked then 0.0 else v.y, if t.z.blocked then 0.0 else v.z),
         b.half,
         t.y.blocked && v.y < 0.0)
  }

  /** One substep: move, and if that lands in a solid voxel clamp flush, or restore when that does not help. */
  method Substep(fl: Rounding, prev: Vec3, half: Vec3, axis: nat, positive: bool, sub: real, o: WorldOffset,
                 solid: Solid)
    returns (pos: Vec3, blocked: bool)
    requires axis < 3
    ensures var next := prev.With(axis, fl(prev.Axis(axis) + sub));
            && blocked == Touches(fl, next, half, o, solid)
            && pos == if !blocked then next
                      else Stopped(fl, ProbeOf(fl, half, o, solid), half.Axis(axis), prev, next, axis, positive)
  {
    pos := prev.With(axis, fl(prev.Axis(axis) + sub));
    blocked := BoxOverlapsSolid(fl, pos, half, o, solid);
    if blocked {
      pos := pos.With(axis, Flush(fl, pos.Axis(axis), half.Axis(axis), positive));
      var still := BoxOverlapsSolid(fl, pos, half, o, solid);
      if still {
        pos := pos.With(axis, prev.Axis(axis));
      }
    }
  }

  /** All substeps of an axis; the first one that lands in a solid voxel stops it. */
  method Substeps(fl: Rounding, start: Vec3, half: Vec3, axis: nat, positive: bool, sub: real, count: nat,
                  o: WorldOffset, solid: Solid)
    returns (pos: Vec3, blocked: bool)
    requires axis < 3
    ensures Swept(pos, blocked) ==
        SweepFrom(fl, ProbeOf(fl, half, o, solid), half.Axis(axis), start, axis, positive, sub, count)
  {
    ghost var touches, he := ProbeOf(fl, half, o, solid), half.Axis(axis);
    pos, blocked := start, false;
    for i := 0 to count
      invariant SweepFrom(fl, touches, he, pos, axis, positive, sub, count - i) ==
          SweepFrom(fl, touches, he, start, axis, positive, sub, count)
    {
      pos, blocked := Substep(fl, pos, half, axis, positive, sub, o, solid);
      if blocked {
        return;
      }
    }
  }

  /** The velocity update of a step. */
  method Integrate(fl: Rounding, vel: Vec3, params: StepParams) returns (v: Vec3)
    ensures v == NewVelocity(fl, vel, params)
  {
    v := vel.(y := fl(vel.y + fl(Times(params.gravity, params.dt))));
    v := Vec3(fl(Times(v.x, params.damping)), fl(Times(v.y, params.damping)), fl(Times(v.z, params.damping)));
    v := Vec3(DetClamp(v.x, -params.maxSpeed, params.maxSpeed),
              DetClamp(v.y, -params.maxSpeed, params.maxSpeed),
              DetClamp(v.z, -params.maxSpeed, params.maxSpeed));
  }

  class Entity {
    var pos: Vec3
    var vel: Vec3
    var halfExtents: Vec3
    var onGround: bool

    function State(): Body
      reads this
    {
      Body(pos, vel, halfExtents, onGround)
    }

    constructor (pos: Vec3, vel: Vec3, halfExtents: Vec3)
      ensures State() == Body(pos, vel, halfExtents, false)
    {
      this.pos, this.vel, this.halfExtents, this.onGround := pos, vel, halfExtents, false;
    }

    /** Moves along one axis by delta, or until something solid stops it. */
    method SweepAxis(fl: Rounding, axis: nat, delta: real, o: WorldOffset, solid: Solid) returns (blocked: bool)
      requires IsRounding(fl) && axis < 3
      modifies this`pos, this`vel
      ensures Swept(pos, blocked) ==
          SweepOf(fl, ProbeOf(fl, halfExtents, o, solid), halfExtents.Axis(axis), old(pos), axis, delta)
      ensures vel == if blocked then old(vel).With(axis, 0.0) else old(vel)
    {
      if delta == 0.0 {
        return false;
      }
      SubstepCountPositive(fl, delta);
      var count := SubstepCount(fl, delta);
      var sub := fl(delta / count as real);
      var p;
      p, blocked := Substeps(fl, pos, halfExtents, axis, delta > 0.0, sub, count, o, solid);
      pos := p;
      if blocked {
        vel := vel.With(axis, 0.0);
      }
    }

    /** One step: integrate velocity, then sweep Y, X and Z. */
    method CollisionStep(fl: Rounding, params: StepParams, o: WorldOffset, solid: Solid)
      requires IsRounding(fl)
      modifies this`pos, this`vel, this`onGround
      ensures State() == StepOf(fl, old(State()), params, o, solid)
    {
      pos := ClampPos(pos);
      vel := Integrate(fl, vel, params);
      ghost var start, v := pos, vel;
      var movingDown := vel.y < 0.0;
      var blockedY := SweepAxis(fl, 1, fl(Times(vel.y, params.dt)), o, solid);
      ghost var afterY := pos;
      var blockedX := SweepAxis(fl, 0, fl(Times(vel.x, params.dt)), o, solid);
      ghost var afterX := pos;
      var blockedZ := SweepAxis(fl, 2, fl(Times(vel.z, params.dt)), o, solid);
      assert Sweeps(fl, ProbeOf(fl, halfExtents, o, solid), halfExtents, start, v, params.dt)
          == Trajectory(Swept(afterY, blockedY), Swept(afterX, blockedX), Swept(pos, blockedZ));
      onGround := blockedY && movingDown;
      pos := ClampPos(pos);
    }
  }
}
