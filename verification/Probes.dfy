/** The positions at which a step asks the world, and how far from its start they can lie. */
module Probes {
  import opened Collision
  import opened CollisionProofs

  /** The positions a sweep tests, in order. */
  ghost function ProbesFrom(fl: Rounding, touches: Probe, he: real, pos: Vec3, axis: nat, positive: bool,
                            sub: real, n: nat): (ps: seq<Vec3>)
    decreases n
  {
    if n == 0 then []
    else
      var next := pos.With(axis, fl(pos.Axis(axis) + sub));
      if touches(next) then [next, next.With(axis, Flush(fl, next.Axis(axis), he, positive))]
      else [next] + ProbesFrom(fl, touches, he, next, axis, positive, sub, n - 1)
  }

  ghost function SweepProbes(fl: Rounding, touches: Probe, he: real, pos: Vec3, axis: nat,
                             delta: real): (ps: seq<Vec3>)
    requires IsRounding(fl)
  {
    if delta == 0.0 then []
    else
      SubstepCountPositive(fl, delta);
      var n := SubstepCount(fl, delta);
      ProbesFrom(fl, touches, he, pos, axis, delta > 0.0, fl(delta / n as real), n)
  }

  /** The positions tested by the three sweeps of a step, whose ends are given. */
  ghost function LegProbes(fl: Rounding, touches: Probe, half: Vec3, start: Vec3, v: Vec3, dt: real,
                           t: Trajectory): (ps: seq<Vec3>)
    requires IsRounding(fl)
  {
    SweepProbes(fl, touches, half.y, start, 1, fl(Times(v.y, dt)))
    + SweepProbes(fl, touches, half.x, t.y.pos, 0, fl(Times(v.x, dt)))
    + SweepProbes(fl, touches, half.z, t.x.pos, 2, fl(Times(v.z, dt)))
  }

  /** Every position tested by a step. */
  ghost function StepProbes(fl: Rounding, b: Body, params: StepParams, o: WorldOffset,
                            solid: Solid): (ps: seq<Vec3>)
    requires IsRounding(fl)
  {
    LegProbes(fl, ProbeOf(fl, b.half, o, solid), b.half, ClampPos(b.pos), NewVelocity(fl, b.vel, params), params.dt,
              Legs(fl, b, params, o, solid))
  }

  /** A sweep depends on the world through its probes alone. */
  lemma {:induction false} ProbesDecide(fl: Rounding, touches: Probe, touches': Probe, he: real, pos: Vec3,
                                        axis: nat, positive: bool, sub: real, n: nat)
    requires forall p :: p in ProbesFrom(fl, touches, he, pos, axis, positive, sub, n) ==> touches'(p) == touches(p)
    ensures SweepFrom(fl, touches', he, pos, axis, positive, sub, n)
         == SweepFrom(fl, touches, he, pos, axis, positive, sub, n)
    decreases n
  {
    if n > 0 {
      var next := pos.With(axis, fl(pos.Axis(axis) + sub));
      var ps := ProbesFrom(fl, touches, he, pos, axis, positive, sub, n);
      assert ps[0] in ps;
      if touches(next) {
        assert ps[1] in ps;
      } else {
        forall p | p in ProbesFrom(fl, touches, he, next, axis, positive, sub, n - 1)
          ensures touches'(p) == touches(p)
        {
          assert p in ps;
        }
        ProbesDecide(fl, touches, touches', he, next, axis, positive, sub, n - 1);
      }
    }
  }

  /** A sweep ends where it started or at one of its probes. */
  lemma {:induction false} EndsAtProbe(fl: Rounding, touches: Probe, he: real, pos: Vec3, axis: nat,
                                       positive: bool, sub: real, n: nat)
    ensures var end := SweepFrom(fl, touches, he, pos, axis, positive, sub, n).pos;
            end == pos || end in ProbesFrom(fl, touches, he, pos, axis, positive, sub, n)
    decreases n
  {
    if n > 0 {
      var next := pos.With(axis, fl(pos.Axis(axis) + sub));
      if !touches(next) {
        EndsAtProbe(fl, touches, he, next, axis, positive, sub, n - 1);
      }
    }
  }

  /** Whatever it touches, a flush position is less than a voxel behind the attempted one. */
  lemma FlushIsNear(fl: Rounding, c: real, h: real, positive: bool)
    requires IsExact(fl)
    ensures var q := Flush(fl, c, h, positive); if positive then c - 1.0 < q <= c else c < q <= c + 1.0
  {
    FlushIsExact(fl, c, h, positive);
  }

  /* ----- where the probes of a leg lie ----- */

  /** Positions on the line through pos. */
  function On(pos: Vec3, axis: nat, s: real): Vec3 {
    pos.With(axis, s)
  }

  /** The coordinates after each substep, and every flush position a blocked substep tests, are near. */
  ghost predicate SubstepIsNear(fl: Rounding, touches: Probe, h: real, pos: Vec3, axis: nat, positive: bool, sub: real,
                                at: nat -> real, near: real -> bool, k: nat) {
    && fl(at(k) + sub) == at(k + 1)
    && near(at(k + 1))
    && (touches(On(pos, axis, at(k + 1))) && (k > 0 ==> !touches(On(pos, axis, at(k)))) ==>
          near(Flush(fl, at(k + 1), h, positive)))
  }

  lemma FirstProbe(fl: Rounding, touches: Probe, h: real, pos: Vec3, axis: nat, positive: bool, sub: real, n: nat,
                   c: real, d: real, p: Vec3)
    requires p in ProbesFrom(fl, touches, h, On(pos, axis, c), axis, positive, sub, n) && d == fl(c + sub)
    ensures n > 0
    ensures var next := On(pos, axis, d);
            p == next || (if touches(next) then p == On(pos, axis, Flush(fl, d, h, positive))
                          else p in ProbesFrom(fl, touches, h, next, axis, positive, sub, n - 1))
  {
    WithSelf(pos, axis);
  }

  /** The probes of the substeps from j on are on the line and near. */
  lemma {:induction false} ProbesAreNear(fl: Rounding, touches: Probe, h: real, pos: Vec3, axis: nat, positive: bool,
                                         sub: real, n: nat, at: nat -> real, near: real -> bool, j: nat, p: Vec3)
    requires forall k: nat :: k < n ==> SubstepIsNear(fl, touches, h, pos, axis, positive, sub, at, near, k)
    requires j <= n && (j > 0 ==> !touches(On(pos, axis, at(j))))
    requires p in ProbesFrom(fl, touches, h, On(pos, axis, at(j)), axis, positive, sub, n - j)
    ensures p == On(pos, axis, p.Axis(axis)) && near(p.Axis(axis))
    decreases n - j
  {
    FirstProbe(fl, touches, h, pos, axis, positive, sub, n - j, at(j), fl(at(j) + sub), p);
    assert SubstepIsNear(fl, touches, h, pos, axis, positive, sub, at, near, j);
    WithSelf(pos, axis);
    if p != On(pos, axis, at(j + 1)) && !touches(On(pos, axis, at(j + 1))) {
      ProbesAreNear(fl, touches, h, pos, axis, positive, sub, n, at, near, j + 1, p);
    }
  }

  /** The substep from b to c of a leg that starts at a and stays within r of it. */
  predicate SubstepOfLeg(a: real, b: real, c: real, positive: bool, r: real) {
    Ahead(b, c, positive) && Within(a, b, r) && Within(a, c, r) && (if positive then a <= b else b <= a)
  }

  lemma AdvanceWithin(a: real, sub: real, positive: bool, n: nat, k: nat, r: real)
    requires SubstepFits(sub, positive) && k <= n && Within(0.0, Advance(0.0, sub, n), r)
    ensures Within(a, Advance(a, sub, k), r)
    ensures if positive then a <= Advance(a, sub, k) else Advance(a, sub, k) <= a
  {
    AdvanceAhead(a, sub, k, positive);
    AdvanceAhead(Advance(0.0, sub, k), sub, n - k, positive);
    assert Advance(0.0, sub, n) == Advance(Advance(0.0, sub, k), sub, n - k);
    assert Advance(a, sub, k) - a == Advance(0.0, sub, k);
  }

  lemma AdvanceIsLeg(a: real, sub: real, positive: bool, n: nat, k: nat, r: real)
    requires SubstepFits(sub, positive) && k < n && Within(0.0, Advance(0.0, sub, n), r)
    ensures var b, c := Advance(a, sub, k), Advance(a, sub, k + 1);
            SubstepOfLeg(a, b, c, positive, r) && c == b + sub && (k == 0 ==> b == a)
  {
    AdvanceWithin(a, sub, positive, n, k, r);
    AdvanceWithin(a, sub, positive, n, k + 1, r);
    assert Advance(a, sub, k + 1) == Advance(a, sub, k) + sub;
  }

  /** A free box stops between two positions of its leg; any other is pushed back by less than a voxel. */
  lemma PushIsNear(fl: Rounding, half: Vec3, o: WorldOffset, solid: Solid, pos: Vec3, axis: nat, positive: bool,
                   b: real, c: real)
    requires IsExact(fl) && Ahead(b, c, positive) && Touches(fl, On(pos, axis, c), half, o, solid)
    ensures var q := Flush(fl, c, half.Axis(axis), positive);
            if positive then c - 1.0 < q <= c else c <= q <= c + 1.0
    ensures !Touches(fl, On(pos, axis, b), half, o, solid) ==>
              StopsShort(b, Flush(fl, c, half.Axis(axis), positive), c, positive)
  {
    FlushIsNear(fl, c, half.Axis(axis), positive);
    WithSelf(pos, axis);
    if !Touches(fl, On(pos, axis, b), half, o, solid) {
      StoppedIsFlush(fl, half, o, solid, ProbeOf(fl, half, o, solid), On(pos, axis, b), axis, c, positive);
    }
  }

  lemma PushWithin(a: real, b: real, c: real, q: real, r: real, positive: bool, free: bool)
    requires SubstepOfLeg(a, b, c, positive, r)
    requires if positive then c - 1.0 < q <= c else c <= q <= c + 1.0
    requires if free then StopsShort(b, q, c, positive) else r >= 1.0
    ensures Within(a, q, r)
  {
  }

  lemma LegPush(fl: Rounding, half: Vec3, o: WorldOffset, solid: Solid, touches: Probe, pos: Vec3, axis: nat,
                positive: bool, r: real, a: real, b: real, c: real, q: real)
    requires IsExact(fl) && touches == ProbeOf(fl, half, o, solid) && SubstepOfLeg(a, b, c, positive, r)
    requires q == Flush(fl, c, half.Axis(axis), positive)
    requires touches(On(pos, axis, c)) && (r >= 1.0 || !touches(On(pos, axis, b)))
    ensures Within(a, q, r)
  {
    PushIsNear(fl, half, o, solid, pos, axis, positive, b, c);
    PushWithin(a, b, c, q, r, positive, !touches(On(pos, axis, b)));
  }

  /** Same position but for this axis, where it is at most r away. */
  predicate OnLeg(pos: Vec3, p: Vec3, axis: nat, r: real) {
    p == On(pos, axis, p.Axis(axis)) && Within(pos.Axis(axis), p.Axis(axis), r)
  }

  lemma LegSubsteps(fl: Rounding, half: Vec3, o: WorldOffset, solid: Solid, touches: Probe, pos: Vec3, axis: nat,
                    positive: bool, sub: real, n: nat, r: real, a: real, at: nat -> real, near: real -> bool, k: nat)
    requires IsExact(fl) && touches == ProbeOf(fl, half, o, solid) && a == pos.Axis(axis)
    requires SubstepFits(sub, positive) && k < n && Within(0.0, Advance(0.0, sub, n), r)
    requires r >= 1.0 || !touches(pos)
    requires at(k) == Advance(a, sub, k) && at(k + 1) == Advance(a, sub, k + 1)
    requires forall s :: near(s) == Within(a, s, r)
    ensures SubstepIsNear(fl, touches, half.Axis(axis), pos, axis, positive, sub, at, near, k)
  {
    var b, c := at(k), at(k + 1);
    AdvanceIsLeg(a, sub, positive, n, k, r);
    assert fl(b + sub) == c;
    if touches(On(pos, axis, c)) && (k > 0 ==> !touches(On(pos, axis, b))) {
      WithSelf(pos, axis);
      LegPush(fl, half, o, solid, touches, pos, axis, positive, r, a, b, c, Flush(fl, c, half.Axis(axis), positive));
    }
  }

  lemma LegProbe(fl: Rounding, half: Vec3, o: WorldOffset, solid: Solid, touches: Probe, pos: Vec3, axis: nat,
                 delta: real, r: real, p: Vec3)
    requires IsRounding(fl) && IsExact(fl) && touches == ProbeOf(fl, half, o, solid)
    requires Within(0.0, delta, r) && (r >= 1.0 || !touches(pos))
    requires p in SweepProbes(fl, touches, half.Axis(axis), pos, axis, delta)
    ensures OnLeg(pos, p, axis, r)
  {
    var a, n, positive := pos.Axis(axis), SubstepCount(fl, delta), delta > 0.0;
    var sub := fl(delta / n as real);
    var at, near := (m: nat) => Advance(a, sub, m), (s: real) => Within(a, s, r);
    SubstepSize(fl, 0.0, delta);
    forall k: nat | k < n
      ensures SubstepIsNear(fl, touches, half.Axis(axis), pos, axis, positive, sub, at, near, k)
    {
      LegSubsteps(fl, half, o, solid, touches, pos, axis, positive, sub, n, r, a, at, near, k);
    }
    WithSelf(pos, axis);
    assert at(0) == a && On(pos, axis, a) == pos;
    ProbesAreNear(fl, touches, half.Axis(axis), pos, axis, positive, sub, n, at, near, 0, p);
  }

  /** Probes and end of a leg no longer than r, from a free start unless r is a voxel or more. */
  lemma SweepStaysNear(fl: Rounding, half: Vec3, o: WorldOffset, solid: Solid, touches: Probe, pos: Vec3,
                       axis: nat, delta: real, r: real)
    requires IsRounding(fl) && IsExact(fl) && touches == ProbeOf(fl, half, o, solid)
    requires Within(0.0, delta, r) && (r >= 1.0 || !touches(pos))
    ensures forall p :: p in SweepProbes(fl, touches, half.Axis(axis), pos, axis, delta) ==> OnLeg(pos, p, axis, r)
    ensures var end := SweepOf(fl, touches, half.Axis(axis), pos, axis, delta).pos;
            OnLeg(pos, end, axis, r) && (!touches(pos) ==> !touches(end))
  {
    forall p | p in SweepProbes(fl, touches, half.Axis(axis), pos, axis, delta)
      ensures OnLeg(pos, p, axis, r)
    {
      LegProbe(fl, half, o, solid, touches, pos, axis, delta, r, p);
    }
    WithSelf(pos, axis);
    SweepEndsFree'(fl, touches, half.Axis(axis), pos, axis, delta);
    if delta != 0.0 {
      SubstepCountPositive(fl, delta);
      var n := SubstepCount(fl, delta);
      EndsAtProbe(fl, touches, half.Axis(axis), pos, axis, delta > 0.0, fl(delta / n as real), n);
    }
  }

  lemma SweepEndsFree'(fl: Rounding, touches: Probe, he: real, pos: Vec3, axis: nat, delta: real)
    requires IsRounding(fl)
    ensures !touches(pos) ==> !touches(SweepOf(fl, touches, he, pos, axis, delta).pos)
  {
    if !touches(pos) {
      SweepEndsFree(fl, touches, he, pos, axis, delta);
    }
  }

  predicate Near(a: Vec3, p: Vec3, r: real) {
    Within(a.x, p.x, r) && Within(a.y, p.y, r) && Within(a.z, p.z, r)
  }

  lemma LegProbesStayNear(fl: Rounding, touches: Probe, half: Vec3, o: WorldOffset, solid: Solid, start: Vec3,
                          v: Vec3, dt: real, r: real, t: Trajectory, p: Vec3)
    requires IsRounding(fl) && IsExact(fl) && touches == ProbeOf(fl, half, o, solid)
    requires SlowerThan(v, dt, r) && (r >= 1.0 || !touches(start))
    requires t == Sweeps(fl, touches, half, start, v, dt) && p in LegProbes(fl, touches, half, start, v, dt, t)
    ensures Near(start, p, r)
  {
    var dy, dx, dz := fl(Times(v.y, dt)), fl(Times(v.x, dt)), fl(Times(v.z, dt));
    assert dy == Times(v.y, dt) && dx == Times(v.x, dt) && dz == Times(v.z, dt);
    SweepStaysNear(fl, half, o, solid, touches, start, 1, dy, r);
    SweepStaysNear(fl, half, o, solid, touches, t.y.pos, 0, dx, r);
    SweepStaysNear(fl, half, o, solid, touches, t.x.pos, 2, dz, r);
    if p in SweepProbes(fl, touches, half.y, start, 1, dy) {
      assert OnLeg(start, p, 1, r);
    } else if p in SweepProbes(fl, touches, half.x, t.y.pos, 0, dx) {
      assert OnLeg(t.y.pos, p, 0, r);
    } else {
      assert OnLeg(t.x.pos, p, 2, r);
    }
  }

  /**
   No position tested by a step is further from its start, on any axis, than the speed limit allows; a
   step that starts inside something may look up to one voxel away.
   */
  lemma StepProbesStayNear(fl: Rounding, b: Body, params: StepParams, o: WorldOffset, solid: Solid, r: real, p: Vec3)
    requires IsRounding(fl) && IsExact(fl) && params.maxSpeed >= 0.0 && params.dt >= 0.0
    requires r >= Times(params.maxSpeed, params.dt)
    requires r >= 1.0 || !ProbeOf(fl, b.half, o, solid)(ClampPos(b.pos))
    requires p in StepProbes(fl, b, params, o, solid)
    ensures Near(ClampPos(b.pos), p, r)
  {
    VelocityIsClamped(fl, b.vel, params);
    LegProbesStayNear(fl, ProbeOf(fl, b.half, o, solid), b.half, o, solid, ClampPos(b.pos),
                      NewVelocity(fl, b.vel, params), params.dt, r, Legs(fl, b, params, o, solid), p);
  }

  /* ----- every position in reach is tested by some step ----- */

  lemma {:induction false} EmptyWorldProbes(fl: Rounding, touches: Probe, he: real, pos: Vec3, axis: nat,
                                            positive: bool, sub: real, n: nat)
    requires IsExact(fl) && n > 0 && forall p :: !touches(p)
    ensures pos.With(axis, Advance(pos.Axis(axis), sub, n))
         in ProbesFrom(fl, touches, he, pos, axis, positive, sub, n)
    decreases n
  {
    var c := pos.Axis(axis) + sub;
    assert fl(c) == c;
    WithSelf(pos, axis);
    AdvanceStep(pos.Axis(axis), sub, n);
    var ps := ProbesFrom(fl, touches, he, pos, axis, positive, sub, n);
    if n == 1 {
      assert Advance(pos.Axis(axis), sub, n) == c;
      assert ps[0] == pos.With(axis, c);
    } else {
      EmptyWorldProbes(fl, touches, he, pos.With(axis, c), axis, positive, sub, n - 1);
      assert ps == [pos.With(axis, c)] + ProbesFrom(fl, touches, he, pos.With(axis, c), axis, positive, sub, n - 1);
    }
  }

  /** A leg of at most r, from a free start within the bound, tests p on this axis. */
  ghost predicate LegTests(fl: Rounding, half: Vec3, o: WorldOffset, axis: nat, r: real, solid: Solid,
                           pos: Vec3, delta: real, p: Vec3)
    requires IsRounding(fl)
  {
    && -WORLD_BOUND <= pos.Axis(axis) <= WORLD_BOUND
    && Within(0.0, delta, r)
    && !Touches(fl, pos, half, o, solid)
    && p in SweepProbes(fl, ProbeOf(fl, half, o, solid), half.Axis(axis), pos, axis, delta)
  }

  /** Some leg of at most r, from a free start within the bound, asks about voxel i of this axis. */
  ghost predicate Asked(fl: Rounding, half: Vec3, o: WorldOffset, axis: nat, r: real, i: int)
    requires IsRounding(fl)
  {
    exists solid, pos, delta, p ::
      LegTests(fl, half, o, axis, r, solid, pos, delta, p) && CoversOn(fl, p, half, axis, i)
  }

  /** The voxels that the interval of half-width h meets on its way from r before the bound to r after it. */
  function ReachRange(r: real, h: real): AxisRange {
    OverlapRange(-(WORLD_BOUND + r) - h, WORLD_BOUND + r + h)
  }

  /** Where a leg of at most r that ends at c can start within the bound. */
  function LegStart(c: real, r: real): (a: real)
    requires r > 0.0 && -(WORLD_BOUND + r) <= c <= WORLD_BOUND + r
    ensures -WORLD_BOUND <= a <= WORLD_BOUND && a != c && Within(0.0, c - a, r)
  {
    var short := if r < 1.0 then r else 1.0;
    if c > WORLD_BOUND then WORLD_BOUND else if c > 0.0 then c - short
    else if c >= -WORLD_BOUND then c + short else -WORLD_BOUND
  }

  /** A leg in the empty world tests its end. */
  lemma EmptyLegTestsEnd(fl: Rounding, half: Vec3, o: WorldOffset, solid: Solid, axis: nat, pos: Vec3, delta: real)
    requires IsRounding(fl) && IsExact(fl) && delta != 0.0 && (forall x, y, z :: !solid(x, y, z))
    ensures !Touches(fl, pos, half, o, solid)
    ensures pos.With(axis, pos.Axis(axis) + delta)
         in SweepProbes(fl, ProbeOf(fl, half, o, solid), half.Axis(axis), pos, axis, delta)
  {
    var touches := ProbeOf(fl, half, o, solid);
    assert forall q :: !Touches(fl, q, half, o, solid);
    SubstepSize(fl, pos.Axis(axis), delta);
    var n := SubstepCount(fl, delta);
    EmptyWorldProbes(fl, touches, half.Axis(axis), pos, axis, delta > 0.0, fl(delta / n as real), n);
  }

  lemma ReachIsAsked(fl: Rounding, half: Vec3, o: WorldOffset, axis: nat, r: real, i: int)
    requires IsRounding(fl) && IsExact(fl) && r > 0.0 && half.Axis(axis) >= 0.0
    requires ReachRange(r, half.Axis(axis)).Has(i)
    ensures Asked(fl, half, o, axis, r, i)
  {
    var edge := WORLD_BOUND + r;
    RangeMeets(-edge - half.Axis(axis), edge + half.Axis(axis), i);
    var c := DetClamp(i as real + 0.5, -edge, edge);
    var solid: Solid := (x, y, z) => false;
    var zero := Vec3(0.0, 0.0, 0.0);
    var pos, delta := zero.With(axis, LegStart(c, r)), c - LegStart(c, r);
    var p := pos.With(axis, pos.Axis(axis) + delta);
    WithSelf(zero, axis);
    WithSelf(pos, axis);
    EmptyLegTestsEnd(fl, half, o, solid, axis, pos, delta);
    CoversMeets(fl, p, half, axis, i);
    assert LegTests(fl, half, o, axis, r, solid, pos, delta, p);
  }

  lemma AskedIsInReach(fl: Rounding, half: Vec3, o: WorldOffset, axis: nat, r: real, solid: Solid, pos: Vec3,
                       delta: real, p: Vec3, i: int)
    requires IsRounding(fl) && IsExact(fl)
    requires LegTests(fl, half, o, axis, r, solid, pos, delta, p) && CoversOn(fl, p, half, axis, i)
    ensures ReachRange(r, half.Axis(axis)).Has(i)
  {
    var edge := WORLD_BOUND + r;
    SweepStaysNear(fl, half, o, solid, ProbeOf(fl, half, o, solid), pos, axis, delta, r);
    CoversMeets(fl, p, half, axis, i);
    RangeMeets(-edge - half.Axis(axis), edge + half.Axis(axis), i);
  }

  /** Exactly the voxels of the reach range are asked about. */
  lemma AskedIff(fl: Rounding, half: Vec3, o: WorldOffset, axis: nat, r: real, i: int)
    requires IsRounding(fl) && IsExact(fl) && r > 0.0 && half.Axis(axis) >= 0.0
    ensures Asked(fl, half, o, axis, r, i) <==> ReachRange(r, half.Axis(axis)).Has(i)
  {
    if Asked(fl, half, o, axis, r, i) {
      var solid, pos, delta, p :|
        LegTests(fl, half, o, axis, r, solid, pos, delta, p) && CoversOn(fl, p, half, axis, i);
      AskedIsInReach(fl, half, o, axis, r, solid, pos, delta, p, i);
    }
    if ReachRange(r, half.Axis(axis)).Has(i) {
      ReachIsAsked(fl, half, o, axis, r, i);
    }
  }
}
