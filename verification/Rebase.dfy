/**
 Origin rebasing in step with the collision kernel. In exact arithmetic the frame is invisible: any
 schedule of rebases leaves origin plus local position where a run without rebases puts it.
 */
module Rebase {
  import opened Collision
  import CollisionProofs

  function Plus(a: WorldOffset, b: WorldOffset): WorldOffset {
    WorldOffset(a.x + b.x, a.y + b.y, a.z + b.z)
  }

  /** Rebasing one position by d: the origin grows by d, the local position shrinks by d. */
  function ShiftPos(fl: Rounding, p: Vec3, d: WorldOffset): Vec3 {
    Vec3(fl(p.x - d.x as real), fl(p.y - d.y as real), fl(p.z - d.z as real))
  }

  function ShiftBody(fl: Rounding, b: Body, d: WorldOffset): Body {
    b.(pos := ShiftPos(fl, b.pos, d))
  }

  /** Does adding d back give p? Axes that did not move are not looked at. */
  predicate AddsBack(fl: Rounding, q: Vec3, p: Vec3, d: WorldOffset) {
    && (d.x != 0 ==> fl(q.x + d.x as real) == p.x)
    && (d.y != 0 ==> fl(q.y + d.y as real) == p.y)
    && (d.z != 0 ==> fl(q.z + d.z as real) == p.z)
  }

  /* ----- one step commutes with a rebase ----- */

  function Along(d: WorldOffset, axis: nat): int {
    if axis == 0 then d.x else if axis == 1 then d.y else d.z
  }

  lemma ShiftAxis(fl: Rounding, p: Vec3, d: WorldOffset, axis: nat)
    requires IsExact(fl)
    ensures ShiftPos(fl, p, d).Axis(axis) == p.Axis(axis) - Along(d, axis) as real
    ensures forall s :: ShiftPos(fl, p.With(axis, s), d) == ShiftPos(fl, p, d).With(axis, s - Along(d, axis) as real)
  {
    assert fl(p.x - d.x as real) == p.x - d.x as real;
    assert fl(p.y - d.y as real) == p.y - d.y as real;
    assert fl(p.z - d.z as real) == p.z - d.z as real;
    forall s
      ensures ShiftPos(fl, p.With(axis, s), d) == ShiftPos(fl, p, d).With(axis, s - Along(d, axis) as real)
    {
      assert fl(s - Along(d, axis) as real) == s - Along(d, axis) as real;
    }
  }

  lemma CoversOnShift(fl: Rounding, p: Vec3, half: Vec3, d: WorldOffset, axis: nat, i: int)
    requires IsExact(fl)
    ensures CoversOn(fl, ShiftPos(fl, p, d), half, axis, i - Along(d, axis)) <==> CoversOn(fl, p, half, axis, i)
  {
    ShiftAxis(fl, p, d, axis);
    CollisionProofs.CoversMeets(fl, ShiftPos(fl, p, d), half, axis, i - Along(d, axis));
    CollisionProofs.CoversMeets(fl, p, half, axis, i);
  }

  /** Voxel v seen from a frame d further on. */
  predicate SameVoxel(x: int, y: int, z: int, x': int, y': int, z': int, d: WorldOffset) {
    x' == x - d.x && y' == y - d.y && z' == z - d.z
  }

  lemma SolidShift(solid: Solid, o: WorldOffset, d: WorldOffset, x: int, y: int, z: int, x': int, y': int,
                   z': int)
    requires SameVoxel(x, y, z, x', y', z', d)
    ensures SolidAt(solid, Plus(o, d), x', y', z') == SolidAt(solid, o, x, y, z)
  {
    assert x' + Plus(o, d).x == x + o.x;
    assert y' + Plus(o, d).y == y + o.y;
    assert z' + Plus(o, d).z == z + o.z;
  }

  lemma CoversShift(fl: Rounding, p: Vec3, half: Vec3, d: WorldOffset, x: int, y: int, z: int, x': int,
                    y': int, z': int)
    requires IsExact(fl) && SameVoxel(x, y, z, x', y', z', d)
    ensures Covers(fl, ShiftPos(fl, p, d), half, x', y', z') == Covers(fl, p, half, x, y, z)
  {
    CoversOnShift(fl, p, half, d, 0, x);
    CoversOnShift(fl, p, half, d, 1, y);
    CoversOnShift(fl, p, half, d, 2, z);
  }

  ghost function HitsOf(fl: Rounding, p: Vec3, half: Vec3, o: WorldOffset, solid: Solid): (int, int,
                        int) -> bool {
    (x: int, y: int, z: int) => Covers(fl, p, half, x, y, z) && SolidAt(solid, o, x, y, z)
  }

  lemma HitsAgree(fl: Rounding, p: Vec3, p': Vec3, half: Vec3, o: WorldOffset, o': WorldOffset, solid: Solid,
                  x: int, y: int, z: int, x': int, y': int, z': int)
    requires Covers(fl, p', half, x', y', z') == Covers(fl, p, half, x, y, z)
    requires SolidAt(solid, o', x', y', z') == SolidAt(solid, o, x, y, z)
    ensures HitsOf(fl, p', half, o', solid)(x', y', z') == HitsOf(fl, p, half, o, solid)(x, y, z)
  {
  }

  lemma HitsShift(fl: Rounding, p: Vec3, half: Vec3, o: WorldOffset, d: WorldOffset, solid: Solid,
                  x: int, y: int, z: int, x': int, y': int, z': int)
    requires IsExact(fl) && SameVoxel(x, y, z, x', y', z', d)
    ensures HitsOf(fl, ShiftPos(fl, p, d), half, Plus(o, d), solid)(x', y', z') ==
        HitsOf(fl, p, half, o, solid)(x, y, z)
  {
    CoversShift(fl, p, half, d, x, y, z, x', y', z');
    SolidShift(solid, o, d, x, y, z, x', y', z');
    HitsAgree(fl, p, ShiftPos(fl, p, d), half, o, Plus(o, d), solid, x, y, z, x', y', z');
  }

  lemma TouchedVoxel(fl: Rounding, p: Vec3, half: Vec3, o: WorldOffset, solid: Solid) returns (x: int,
                     y: int, z: int)
    requires ProbeOf(fl, half, o, solid)(p)
    ensures HitsOf(fl, p, half, o, solid)(x, y, z)
  {
    assert Touches(fl, p, half, o, solid);
    x, y, z :| Covers(fl, p, half, x, y, z) && SolidAt(solid, o, x, y, z);
  }

  lemma Witness(fl: Rounding, p: Vec3, half: Vec3, o: WorldOffset, solid: Solid, x: int, y: int, z: int)
    requires HitsOf(fl, p, half, o, solid)(x, y, z)
    ensures ProbeOf(fl, half, o, solid)(p)
  {
    assert Covers(fl, p, half, x, y, z) && SolidAt(solid, o, x, y, z);
    assert Touches(fl, p, half, o, solid);
  }

  lemma TouchesShiftOne(fl: Rounding, p: Vec3, half: Vec3, o: WorldOffset, d: WorldOffset, solid: Solid)
    requires IsExact(fl) && ProbeOf(fl, half, o, solid)(p)
    ensures ProbeOf(fl, half, Plus(o, d), solid)(ShiftPos(fl, p, d))
  {
    var x, y, z := TouchedVoxel(fl, p, half, o, solid);
    var x', y', z' := x - d.x, y - d.y, z - d.z;
    HitsShift(fl, p, half, o, d, solid, x, y, z, x', y', z');
    Witness(fl, ShiftPos(fl, p, d), half, Plus(o, d), solid, x', y', z');
  }

  function Negated(d: WorldOffset): WorldOffset {
    WorldOffset(-d.x, -d.y, -d.z)
  }

  lemma ShiftBack(fl: Rounding, p: Vec3, d: WorldOffset)
    requires IsExact(fl)
    ensures ShiftPos(fl, ShiftPos(fl, p, d), Negated(d)) == p
  {
  }

  /** The box meets the same world voxels in either frame. */
  lemma TouchesShift(fl: Rounding, p: Vec3, half: Vec3, o: WorldOffset, d: WorldOffset, solid: Solid)
    requires IsExact(fl)
    ensures ProbeOf(fl, half, Plus(o, d), solid)(ShiftPos(fl, p, d)) == ProbeOf(fl, half, o, solid)(p)
  {
    if ProbeOf(fl, half, o, solid)(p) {
      TouchesShiftOne(fl, p, half, o, d, solid);
    }
    if ProbeOf(fl, half, Plus(o, d), solid)(ShiftPos(fl, p, d)) {
      TouchesShiftOne(fl, ShiftPos(fl, p, d), half, Plus(o, d), Negated(d), solid);
      ShiftBack(fl, p, d);
      assert Plus(Plus(o, d), Negated(d)) == o;
    }
  }

  lemma FlushShift(fl: Rounding, c: real, h: real, positive: bool, d: int)
    requires IsExact(fl)
    ensures Flush(fl, c - d as real, h, positive) == Flush(fl, c, h, positive) - d as real
  {
    CollisionProofs.FlushIsExact(fl, c, h, positive);
    CollisionProofs.FlushIsExact(fl, c - d as real, h, positive);
    var lead := if positive then c + h else c - h;
    FloorShift(lead, d);
    assert lead - d as real == if positive then (c - d as real) + h else (c - d as real) - h;
  }

  lemma FloorShift(f: real, d: int)
    ensures DetFloorToInt(f - d as real) == DetFloorToInt(f) - d
  {
  }

  /** Two probes of the same world from frames d apart. */
  ghost predicate SameWorld(fl: Rounding, touches: Probe, touches': Probe, d: WorldOffset) {
    forall p: Vec3 :: touches'(ShiftPos(fl, p, d)) == touches(p)
  }

  function ShiftSwept(fl: Rounding, s: Swept, d: WorldOffset): Swept {
    s.(pos := ShiftPos(fl, s.pos, d))
  }

  lemma StoppedShift(fl: Rounding, touches: Probe, touches': Probe, h: real, prev: Vec3, next: Vec3,
                     axis: nat, positive: bool, d: WorldOffset)
    requires IsExact(fl) && SameWorld(fl, touches, touches', d)
    ensures Stopped(fl, touches', h, ShiftPos(fl, prev, d), ShiftPos(fl, next, d), axis, positive)
         == ShiftPos(fl, Stopped(fl, touches, h, prev, next, axis, positive), d)
  {
    ShiftAxis(fl, next, d, axis);
    FlushShift(fl, next.Axis(axis), h, positive, Along(d, axis));
    var q := next.With(axis, Flush(fl, next.Axis(axis), h, positive));
    assert touches'(ShiftPos(fl, q, d)) == touches(q);
  }

  lemma NextShift(fl: Rounding, pos: Vec3, axis: nat, sub: real, d: WorldOffset)
    requires IsExact(fl)
    ensures ShiftPos(fl, pos, d).With(axis, fl(ShiftPos(fl, pos, d).Axis(axis) + sub)) ==
        ShiftPos(fl, pos.With(axis, fl(pos.Axis(axis) + sub)), d)
  {
    ShiftAxis(fl, pos, d, axis);
    assert fl(pos.Axis(axis) + sub) == pos.Axis(axis) + sub;
    assert fl(pos.Axis(axis) - Along(d, axis) as real + sub) == pos.Axis(axis) - Along(d, axis) as real + sub;
  }

  lemma {:induction false} SweepFromShift(fl: Rounding, touches: Probe, touches': Probe, h: real, pos: Vec3,
                                          axis: nat, positive: bool, sub: real, n: nat, d: WorldOffset)
    requires IsExact(fl) && SameWorld(fl, touches, touches', d)
    ensures SweepFrom(fl, touches', h, ShiftPos(fl, pos, d), axis, positive, sub, n)
         == ShiftSwept(fl, SweepFrom(fl, touches, h, pos, axis, positive, sub, n), d)
    decreases n
  {
    if n > 0 {
      var next := pos.With(axis, fl(pos.Axis(axis) + sub));
      NextShift(fl, pos, axis, sub, d);
      assert touches'(ShiftPos(fl, next, d)) == touches(next);
      if touches(next) {
        StoppedShift(fl, touches, touches', h, pos, next, axis, positive, d);
      } else {
        SweepFromShift(fl, touches, touches', h, next, axis, positive, sub, n - 1, d);
      }
    }
  }

  lemma SweepShift(fl: Rounding, touches: Probe, touches': Probe, h: real, pos: Vec3, axis: nat,
                   delta: real, d: WorldOffset, r: Swept, r': Swept)
    requires IsRounding(fl) && IsExact(fl) && SameWorld(fl, touches, touches', d)
    requires r == SweepOf(fl, touches, h, pos, axis, delta)
    requires r' == SweepOf(fl, touches', h, ShiftPos(fl, pos, d), axis, delta)
    ensures r' == ShiftSwept(fl, r, d)
  {
    if delta != 0.0 {
      SubstepCountPositive(fl, delta);
      var n := SubstepCount(fl, delta);
      SweepFromShift(fl, touches, touches', h, pos, axis, delta > 0.0, fl(delta / n as real), n, d);
    }
  }

  lemma SweepsShift(fl: Rounding, touches: Probe, touches': Probe, half: Vec3, start: Vec3, v: Vec3,
                    dt: real, d: WorldOffset)
    requires IsRounding(fl) && IsExact(fl) && SameWorld(fl, touches, touches', d)
    ensures var t := Sweeps(fl, touches, half, start, v, dt);
            var t' := Sweeps(fl, touches', half, ShiftPos(fl, start, d), v, dt);
            t' == Trajectory(ShiftSwept(fl, t.y, d), ShiftSwept(fl, t.x, d), ShiftSwept(fl, t.z, d))
  {
    var t, t' := Sweeps(fl, touches, half, start, v, dt), Sweeps(fl, touches', half, ShiftPos(fl, start, d), v, dt);
    SweepShift(fl, touches, touches', half.y, start, 1, fl(Times(v.y, dt)), d, t.y, t'.y);
    SweepShift(fl, touches, touches', half.x, t.y.pos, 0, fl(Times(v.x, dt)), d, t.x, t'.x);
    SweepShift(fl, touches, touches', half.z, t.x.pos, 2, fl(Times(v.z, dt)), d, t.z, t'.z);
  }

  /** The step without its two bound clamps. */
  ghost function FreeStep(fl: Rounding, b: Body, params: StepParams, o: WorldOffset, solid: Solid): Body
    requires IsRounding(fl)
  {
    var v := NewVelocity(fl, b.vel, params);
    var t := Sweeps(fl, ProbeOf(fl, b.half, o, solid), b.half, b.pos, v, params.dt);
    Body(t.z.pos,
         Vec3(if t.x.blocked then 0.0 else v.x, if t.y.blocked then 0.0 else v.y, if t.z.blocked then 0.0 else v.z),
         b.half,
         t.y.blocked && v.y < 0.0)
  }

  /** Neither bound clamp of the step moves the body. */
  ghost predicate ClampsIdle(fl: Rounding, b: Body, params: StepParams, o: WorldOffset, solid: Solid)
    requires IsRounding(fl)
  {
    InBound(b.pos) && InBound(FreeStep(fl, b, params, o, solid).pos)
  }

  lemma IdleStepIsFree(fl: Rounding, b: Body, params: StepParams, o: WorldOffset, solid: Solid)
    requires IsRounding(fl) && ClampsIdle(fl, b, params, o, solid)
    ensures StepOf(fl, b, params, o, solid) == FreeStep(fl, b, params, o, solid)
  {
    CollisionProofs.BoundIsIdle(b.pos);
    CollisionProofs.BoundIsIdle(FreeStep(fl, b, params, o, solid).pos);
  }

  /** Exact stepping is frame-blind: stepping then rebasing is rebasing then stepping. */
  lemma StepCommutesWithRebase(fl: Rounding, b: Body, b': Body, params: StepParams, o: WorldOffset,
                               o': WorldOffset, d: WorldOffset, solid: Solid)
    requires IsRounding(fl) && IsExact(fl)
    requires b' == ShiftBody(fl, b, d) && o' == Plus(o, d)
    ensures FreeStep(fl, b', params, o', solid) == ShiftBody(fl, FreeStep(fl, b, params, o, solid), d)
  {
    forall p: Vec3 {
      TouchesShift(fl, p, b.half, o, d, solid);
    }
    SweepsShift(fl, ProbeOf(fl, b.half, o, solid), ProbeOf(fl, b.half, o', solid), b.half, b.pos,
                NewVelocity(fl, b.vel, params), params.dt, d);
  }

  /** The whole step, clamps included, commutes with a rebase while its clamps are idle in both frames. */
  lemma ClampedStepCommutes(fl: Rounding, b: Body, b': Body, params: StepParams, o: WorldOffset,
                            o': WorldOffset, d: WorldOffset, solid: Solid)
    requires IsRounding(fl) && IsExact(fl)
    requires b' == ShiftBody(fl, b, d) && o' == Plus(o, d)
    requires ClampsIdle(fl, b, params, o, solid) && ClampsIdle(fl, b', params, o', solid)
    ensures StepOf(fl, b', params, o', solid) == ShiftBody(fl, StepOf(fl, b, params, o, solid), d)
  {
    IdleStepIsFree(fl, b, params, o, solid);
    IdleStepIsFree(fl, b', params, o', solid);
    StepCommutesWithRebase(fl, b, b', params, o, o', d, solid);
  }
}
