/**
 What the collision step guarantees: it never ends inside a solid voxel in any arithmetic, and in
 exact arithmetic each axis sweep is the continuous sweep to first contact.
 */
module CollisionProofs {
  import opened Collision

  /* ----- in any arithmetic ----- */

  lemma {:induction false} SweepFromEndsFree(fl: Rounding, touches: Probe, he: real, pos: Vec3, axis: nat,
                                             positive: bool, sub: real, n: nat)
    requires !touches(pos)
    ensures !touches(SweepFrom(fl, touches, he, pos, axis, positive, sub, n).pos)
    decreases n
  {
    if n > 0 {
      var next := pos.With(axis, fl(pos.Axis(axis) + sub));
      if !touches(next) {
        SweepFromEndsFree(fl, touches, he, next, axis, positive, sub, n - 1);
      }
    }
  }

  lemma SweepEndsFree(fl: Rounding, touches: Probe, he: real, pos: Vec3, axis: nat, delta: real)
    requires IsRounding(fl) && !touches(pos)
    ensures !touches(SweepOf(fl, touches, he, pos, axis, delta).pos)
  {
    if delta != 0.0 {
      SubstepCountPositive(fl, delta);
      var n := SubstepCount(fl, delta);
      SweepFromEndsFree(fl, touches, he, pos, axis, delta > 0.0, fl(delta / n as real), n);
    }
  }

  lemma SweepsEndFree(fl: Rounding, touches: Probe, half: Vec3, start: Vec3, v: Vec3, dt: real)
    requires IsRounding(fl) && !touches(start)
    ensures !touches(Sweeps(fl, touches, half, start, v, dt).z.pos)
  {
    var t := Sweeps(fl, touches, half, start, v, dt);
    SweepEndsFree(fl, touches, half.y, start, 1, fl(Times(v.y, dt)));
    SweepEndsFree(fl, touches, half.x, t.y.pos, 0, fl(Times(v.x, dt)));
    SweepEndsFree(fl, touches, half.z, t.x.pos, 2, fl(Times(v.z, dt)));
  }

  /** The three legs of a step. */
  ghost function Legs(fl: Rounding, b: Body, params: StepParams, o: WorldOffset, solid: Solid): Trajectory
    requires IsRounding(fl)
  {
    Sweeps(fl, ProbeOf(fl, b.half, o, solid), b.half, ClampPos(b.pos), NewVelocity(fl, b.vel, params), params.dt)
  }

  lemma BoundIsIdle(p: Vec3)
    ensures InBound(p) <==> ClampPos(p) == p
  {
  }

  /** In any arithmetic: a step that starts free of solid voxels ends free, unless the bound clamp moves it. */
  lemma StepEndsFree(fl: Rounding, b: Body, params: StepParams, o: WorldOffset, solid: Solid)
    requires IsRounding(fl) && !Touches(fl, ClampPos(b.pos), b.half, o, solid)
    requires InBound(Legs(fl, b, params, o, solid).z.pos)
    ensures !Touches(fl, StepOf(fl, b, params, o, solid).pos, b.half, o, solid)
  {
    var end := Legs(fl, b, params, o, solid).z.pos;
    SweepsEndFree(fl, ProbeOf(fl, b.half, o, solid), b.half, ClampPos(b.pos),
                  NewVelocity(fl, b.vel, params), params.dt);
    BoundIsIdle(end);
    assert StepOf(fl, b, params, o, solid).pos == end;
  }

  /* ----- exact arithmetic: one dimension ----- */

  /** Does the interval of half-width h around c meet voxel i? */
  predicate Meets(c: real, h: real, i: int) {
    i as real < c + h && c - h < (i + 1) as real
  }

  lemma CoversMeets(fl: Rounding, pos: Vec3, half: Vec3, axis: nat, i: int)
    requires IsExact(fl)
    ensures CoversOn(fl, pos, half, axis, i) <==> Meets(pos.Axis(axis), half.Axis(axis), i)
  {
    var c, h := pos.Axis(axis), half.Axis(axis);
    RangeMeets(c - h, c + h, i);
    assert fl(c - h) == c - h && fl(c + h) == c + h;
  }

  /** Between two positions less than a voxel apart, nothing is met that neither end meets. */
  lemma MeetsBetween(a: real, b: real, s: real, h: real, i: int)
    requires h >= 0.0 && -1.0 < b - a < 1.0 && Between(a, s, b)
    requires Meets(s, h, i)
    ensures Meets(a, h, i) || Meets(b, h, i)
  {
  }

  function ExactFlush(c: real, h: real, positive: bool): real {
    var cell := DetFloorToInt(if positive then c + h else c - h);
    if positive then cell as real - h else (cell + 1) as real + h
  }

  lemma FlushIsExact(fl: Rounding, c: real, h: real, positive: bool)
    requires IsExact(fl)
    ensures Flush(fl, c, h, positive) == ExactFlush(c, h, positive)
  {
    var cell := DetFloorToInt(if positive then c + h else c - h);
    assert fl(c + h) == c + h && fl(c - h) == c - h;
    assert fl(cell as real - h) == cell as real - h && fl((cell + 1) as real + h) == (cell + 1) as real + h;
  }

  predicate Ahead(a: real, b: real, positive: bool) {
    if positive then 0.0 < b - a < 1.0 else -1.0 < b - a < 0.0
  }

  /** At least as far as a, and short of b. */
  predicate StopsShort(a: real, q: real, b: real, positive: bool) {
    if positive then a <= q < b else b < q <= a
  }

  predicate FaceAt(c: real, h: real, positive: bool, i: int) {
    if positive then c + h == i as real else c - h == (i + 1) as real
  }

  lemma EntersUp(a: real, b: real, h: real, i: int)
    requires 0.0 < b - a < 1.0 && Meets(b, h, i) && !Meets(a, h, i)
    ensures DetFloorToInt(b + h) == i && a + h <= i as real < b + h
  {
  }

  lemma EntersDown(a: real, b: real, h: real, i: int)
    requires -1.0 < b - a < 0.0 && Meets(b, h, i) && !Meets(a, h, i)
    ensures DetFloorToInt(b - h) == i && b - h < (i + 1) as real <= a - h
  {
  }

  /** The flush position lies on the face of the voxel entered, short of next. */
  lemma FlushMeets(a: real, b: real, h: real, positive: bool, i: int)
    requires Ahead(a, b, positive) && Meets(b, h, i) && !Meets(a, h, i)
    ensures var q := ExactFlush(b, h, positive); StopsShort(a, q, b, positive) && FaceAt(q, h, positive, i)
  {
    if positive {
      EntersUp(a, b, h, i);
    } else {
      EntersDown(a, b, h, i);
    }
  }

  lemma NothingNewUp(a: real, q: real, s: real, h: real, i: int, j: int)
    requires a <= s <= q < a + 1.0 && q + h == i as real && Meets(s, h, j)
    ensures Meets(a, h, j)
  {
    assert j as real < i as real;
    assert j <= i - 1;
  }

  lemma NothingNewDown(a: real, q: real, s: real, h: real, i: int, j: int)
    requires a - 1.0 < q <= s <= a && q - h == (i + 1) as real && Meets(s, h, j)
    ensures Meets(a, h, j)
  {
    assert (i + 1) as real < (j + 1) as real;
    assert i + 1 <= j;
  }

  /** On the way to a flush position less than a voxel away nothing new is met. */
  lemma NothingNewBefore(a: real, q: real, s: real, h: real, positive: bool, i: int, j: int)
    requires if positive then a <= q < a + 1.0 else a - 1.0 < q <= a
    requires FaceAt(q, h, positive, i) && Between(a, s, q) && Meets(s, h, j)
    ensures Meets(a, h, j)
  {
    if positive {
      NothingNewUp(a, q, s, h, i, j);
    } else {
      NothingNewDown(a, q, s, h, i, j);
    }
  }

  /* ----- exact arithmetic: one axis ----- */

  ghost predicate FreeAt(touches: Probe, pos: Vec3, axis: nat, s: real) {
    !touches(pos.With(axis, s))
  }

  predicate Between(a: real, s: real, b: real) {
    a <= s <= b || b <= s <= a
  }

  /** Every position between the present one and coordinate b on this axis is free. */
  ghost predicate PathFree(touches: Probe, pos: Vec3, axis: nat, b: real) {
    forall s :: Between(pos.Axis(axis), s, b) ==> FreeAt(touches, pos, axis, s)
  }

  function Pick(axis: nat, x: int, y: int, z: int): int {
    if axis == 0 then x else if axis == 1 then y else z
  }

  predicate CrossSection(fl: Rounding, pos: Vec3, half: Vec3, axis: nat, x: int, y: int, z: int) {
    && (axis != 0 ==> CoversOn(fl, pos, half, 0, x))
    && (axis != 1 ==> CoversOn(fl, pos, half, 1, y))
    && (axis == 0 || axis == 1 ==> CoversOn(fl, pos, half, 2, z))
  }

  /** The leading face lies on the near face of a solid voxel in front of the box. */
  ghost predicate RestsAgainst(fl: Rounding, pos: Vec3, half: Vec3, axis: nat, positive: bool,
                               o: WorldOffset, solid: Solid) {
    exists x, y, z ::
      && SolidAt(solid, o, x, y, z)
      && CrossSection(fl, pos, half, axis, x, y, z)
      && FaceAt(pos.Axis(axis), half.Axis(axis), positive, Pick(axis, x, y, z))
  }

  ghost function ContactOf(fl: Rounding, half: Vec3, axis: nat, positive: bool, o: WorldOffset,
                           solid: Solid): Probe {
    (p: Vec3) => RestsAgainst(fl, p, half, axis, positive, o, solid)
  }

  lemma CoversSplit(fl: Rounding, pos: Vec3, half: Vec3, axis: nat, s: real, x: int, y: int, z: int)
    requires IsExact(fl)
    ensures Covers(fl, pos.With(axis, s), half, x, y, z)
       <==> CrossSection(fl, pos, half, axis, x, y, z) && Meets(s, half.Axis(axis), Pick(axis, x, y, z))
  {
    CoversMeets(fl, pos.With(axis, s), half, axis, Pick(axis, x, y, z));
    if axis > 2 {
      CoversMeets(fl, pos.With(axis, s), half, 2, z);
    }
  }

  lemma WithSelf(pos: Vec3, axis: nat)
    ensures pos.With(axis, pos.Axis(axis)) == pos
    ensures forall s, t :: pos.With(axis, s).With(axis, t) == pos.With(axis, t)
    ensures forall s :: pos.With(axis, s).Axis(axis) == s
  {
  }

  /** A position that meets no more on this axis than two free ones is free. */
  lemma FreeByMeets(fl: Rounding, half: Vec3, o: WorldOffset, solid: Solid, pos: Vec3, axis: nat, a: real,
                    b: real, s: real)
    requires IsExact(fl)
    requires FreeAt(ProbeOf(fl, half, o, solid), pos, axis, a) && FreeAt(ProbeOf(fl, half, o, solid), pos, axis, b)
    requires forall i :: Meets(s, half.Axis(axis), i) ==> Meets(a, half.Axis(axis), i) || Meets(b, half.Axis(axis), i)
    ensures FreeAt(ProbeOf(fl, half, o, solid), pos, axis, s)
  {
    forall x, y, z | Covers(fl, pos.With(axis, s), half, x, y, z)
      ensures !SolidAt(solid, o, x, y, z)
    {
      CoversSplit(fl, pos, half, axis, s, x, y, z);
      CoversSplit(fl, pos, half, axis, a, x, y, z);
      CoversSplit(fl, pos, half, axis, b, x, y, z);
    }
  }

  lemma ShortPathIsFree(fl: Rounding, half: Vec3, o: WorldOffset, solid: Solid, touches: Probe, pos: Vec3,
                        axis: nat, b: real)
    requires IsExact(fl) && touches == ProbeOf(fl, half, o, solid)
    requires half.Axis(axis) >= 0.0 && -1.0 < b - pos.Axis(axis) < 1.0
    requires !touches(pos) && FreeAt(touches, pos, axis, b)
    ensures PathFree(touches, pos, axis, b)
  {
    var a := pos.Axis(axis);
    WithSelf(pos, axis);
    forall s | Between(a, s, b)
      ensures FreeAt(touches, pos, axis, s)
    {
      forall i | Meets(s, half.Axis(axis), i)
        ensures Meets(a, half.Axis(axis), i) || Meets(b, half.Axis(axis), i)
      {
        MeetsBetween(a, b, s, half.Axis(axis), i);
      }
      FreeByMeets(fl, half, o, solid, pos, axis, a, b, s);
    }
  }

  /** The voxel that a substep entered. */
  lemma EnteredVoxel(fl: Rounding, pos: Vec3, half: Vec3, axis: nat, b: real, o: WorldOffset,
                     solid: Solid) returns (x: int, y: int, z: int)
    requires IsExact(fl) && !Touches(fl, pos, half, o, solid) && Touches(fl, pos.With(axis, b), half, o, solid)
    ensures SolidAt(solid, o, x, y, z) && CrossSection(fl, pos, half, axis, x, y, z)
    ensures var i := Pick(axis, x, y, z); Meets(b, half.Axis(axis), i) && !Meets(pos.Axis(axis), half.Axis(axis), i)
  {
    x, y, z :| Covers(fl, pos.With(axis, b), half, x, y, z) && SolidAt(solid, o, x, y, z);
    CoversSplit(fl, pos, half, axis, b, x, y, z);
    CoversSplit(fl, pos, half, axis, pos.Axis(axis), x, y, z);
    WithSelf(pos, axis);
  }

  /** A substep that enters something solid stops flush with it: the restore branch never acts. */
  lemma StoppedIsFlush(fl: Rounding, half: Vec3, o: WorldOffset, solid: Solid, touches: Probe, pos: Vec3,
                       axis: nat, b: real, positive: bool)
    requires IsExact(fl) && touches == ProbeOf(fl, half, o, solid)
    requires Ahead(pos.Axis(axis), b, positive) && !touches(pos) && touches(pos.With(axis, b))
    ensures var q := Flush(fl, b, half.Axis(axis), positive);
            && Stopped(fl, touches, half.Axis(axis), pos, pos.With(axis, b), axis, positive) == pos.With(axis, q)
            && StopsShort(pos.Axis(axis), q, b, positive)
            && PathFree(touches, pos, axis, q)
            && RestsAgainst(fl, pos.With(axis, q), half, axis, positive, o, solid)
  {
    var a, h := pos.Axis(axis), half.Axis(axis);
    var q := Flush(fl, b, h, positive);
    FlushIsExact(fl, b, h, positive);
    var x, y, z := EnteredVoxel(fl, pos, half, axis, b, o, solid);
    WithSelf(pos, axis);
    FlushMeets(a, b, h, positive, Pick(axis, x, y, z));
    forall s | Between(a, s, q)
      ensures FreeAt(touches, pos, axis, s)
    {
      forall j | Meets(s, h, j)
        ensures Meets(a, h, j)
      {
        NothingNewBefore(a, q, s, h, positive, Pick(axis, x, y, z), j);
      }
      FreeByMeets(fl, half, o, solid, pos, axis, a, a, s);
    }
    assert FreeAt(touches, pos, axis, q);
    assert CrossSection(fl, pos.With(axis, q), half, axis, x, y, z);
  }

  lemma JoinPaths(touches: Probe, pos: Vec3, axis: nat, b: real, c: real)
    requires PathFree(touches, pos, axis, b) && PathFree(touches, pos.With(axis, b), axis, c)
    ensures PathFree(touches, pos, axis, c)
  {
    WithSelf(pos, axis);
    forall s | Between(pos.Axis(axis), s, c)
      ensures FreeAt(touches, pos, axis, s)
    {
      if !Between(pos.Axis(axis), s, b) {
        assert FreeAt(touches, pos.With(axis, b), axis, s);
      }
    }
  }

  /** The path to the end is free; a sweep that was blocked stopped short, in contact. */
  ghost predicate FirstContact(touches: Probe, contact: Probe, pos: Vec3, axis: nat, positive: bool,
                               target: real, r: Swept) {
    && r.pos == pos.With(axis, r.pos.Axis(axis))
    && PathFree(touches, pos, axis, r.pos.Axis(axis))
    && (if r.blocked then StopsShort(pos.Axis(axis), r.pos.Axis(axis), target, positive) && contact(r.pos)
        else r.pos.Axis(axis) == target)
  }

  predicate SubstepFits(sub: real, positive: bool) {
    if positive then 0.0 < sub < 1.0 else -1.0 < sub < 0.0
  }

  function Advance(a: real, sub: real, n: nat): real {
    a + n as real * sub
  }

  lemma AdvanceStep(a: real, sub: real, n: nat)
    requires n > 0
    ensures Advance(a, sub, n) == Advance(a + sub, sub, n - 1)
  {
  }

  lemma {:induction false} AdvanceAhead(a: real, sub: real, n: nat, positive: bool)
    requires SubstepFits(sub, positive)
    ensures if positive then Advance(a, sub, n) >= a else Advance(a, sub, n) <= a
    decreases n
  {
    if n > 0 {
      AdvanceStep(a, sub, n);
      AdvanceAhead(a + sub, sub, n - 1, positive);
    }
  }

  /** Contact in the first substep, seen from a target at or beyond it. */
  lemma ContactNow(touches: Probe, contact: Probe, pos: Vec3, axis: nat, positive: bool, q: real, b: real,
                   target: real)
    requires StopsShort(pos.Axis(axis), q, b, positive) && (if positive then b <= target else target <= b)
    requires PathFree(touches, pos, axis, q) && contact(pos.With(axis, q))
    ensures FirstContact(touches, contact, pos, axis, positive, target, Swept(pos.With(axis, q), true))
  {
    WithSelf(pos, axis);
  }

  /** Contact in a later substep. */
  lemma ContactLater(touches: Probe, contact: Probe, pos: Vec3, axis: nat, positive: bool, b: real,
                     target: real, r: Swept)
    requires if positive then pos.Axis(axis) <= b else b <= pos.Axis(axis)
    requires PathFree(touches, pos, axis, b)
    requires FirstContact(touches, contact, pos.With(axis, b), axis, positive, target, r)
    ensures FirstContact(touches, contact, pos, axis, positive, target, r)
  {
    WithSelf(pos, axis);
    JoinPaths(touches, pos, axis, b, r.pos.Axis(axis));
  }

  /** What one substep from a free position does: stop in contact on a free path, or pass along one. */
  ghost predicate SoundTo(fl: Rounding, touches: Probe, contact: Probe, h: real, p: Vec3, axis: nat,
                          positive: bool, b: real) {
    if touches(p.With(axis, b)) then
      var q := Flush(fl, b, h, positive);
      && Stopped(fl, touches, h, p, p.With(axis, b), axis, positive) == p.With(axis, q)
      && StopsShort(p.Axis(axis), q, b, positive)
      && PathFree(touches, p, axis, q)
      && contact(p.With(axis, q))
    else PathFree(touches, p, axis, b)
  }

  ghost predicate SubstepSound(fl: Rounding, touches: Probe, contact: Probe, h: real, p: Vec3, axis: nat,
                               positive: bool, sub: real) {
    SoundTo(fl, touches, contact, h, p, axis, positive, p.Axis(axis) + sub)
  }

  /** Every substep from a free position is sound. */
  ghost predicate AllSound(fl: Rounding, touches: Probe, contact: Probe, h: real, axis: nat, positive: bool,
                           sub: real) {
    forall p: Vec3 {:trigger SubstepSound(fl, touches, contact, h, p, axis, positive, sub)} ::
      !touches(p) ==> SubstepSound(fl, touches, contact, h, p, axis, positive, sub)
  }

  lemma SubstepIsSound(fl: Rounding, half: Vec3, o: WorldOffset, solid: Solid, p: Vec3, axis: nat,
                       positive: bool, b: real)
    requires IsExact(fl) && half.Axis(axis) >= 0.0
    requires Ahead(p.Axis(axis), b, positive) && !Touches(fl, p, half, o, solid)
    ensures SoundTo(fl, ProbeOf(fl, half, o, solid), ContactOf(fl, half, axis, positive, o, solid),
                    half.Axis(axis), p, axis, positive, b)
  {
    var touches := ProbeOf(fl, half, o, solid);
    if touches(p.With(axis, b)) {
      StoppedIsFlush(fl, half, o, solid, touches, p, axis, b, positive);
    } else {
      ShortPathIsFree(fl, half, o, solid, touches, p, axis, b);
    }
  }

  lemma SubstepsAreSound(fl: Rounding, half: Vec3, o: WorldOffset, solid: Solid, axis: nat, positive: bool,
                         sub: real)
    requires IsExact(fl) && half.Axis(axis) >= 0.0 && SubstepFits(sub, positive)
    ensures AllSound(fl, ProbeOf(fl, half, o, solid), ContactOf(fl, half, axis, positive, o, solid), half.Axis(axis),
                     axis, positive, sub)
  {
    forall p: Vec3 | !Touches(fl, p, half, o, solid) {
      SubstepIsSound(fl, half, o, solid, p, axis, positive, p.Axis(axis) + sub);
    }
  }

  lemma {:induction false} SweepFromIsFirstContact(fl: Rounding, touches: Probe, contact: Probe, h: real,
                                                   pos: Vec3, axis: nat, positive: bool, sub: real, n: nat)
    requires IsExact(fl) && SubstepFits(sub, positive) && !touches(pos)
    requires AllSound(fl, touches, contact, h, axis, positive, sub)
    ensures FirstContact(touches, contact, pos, axis, positive, Advance(pos.Axis(axis), sub, n),
                         SweepFrom(fl, touches, h, pos, axis, positive, sub, n))
    decreases n
  {
    var a := pos.Axis(axis);
    WithSelf(pos, axis);
    if n > 0 {
      var next, target := pos.With(axis, a + sub), Advance(a, sub, n);
      assert fl(a + sub) == a + sub;
      AdvanceStep(a, sub, n);
      AdvanceAhead(a + sub, sub, n - 1, positive);
      assert SubstepSound(fl, touches, contact, h, pos, axis, positive, sub);
      if touches(next) {
        ContactNow(touches, contact, pos, axis, positive, Flush(fl, a + sub, h, positive), a + sub, target);
      } else {
        SweepFromIsFirstContact(fl, touches, contact, h, next, axis, positive, sub, n - 1);
        ContactLater(touches, contact, pos, axis, positive, a + sub, target,
                     SweepFrom(fl, touches, h, next, axis, positive, sub, n - 1));
      }
    }
  }

  lemma TimesOrder(a: real, b: real, n: real)
    requires n > 0.0
    ensures a < b <==> a * n < b * n
  {
    assert (b - a) * n == b * n - a * n;
  }

  lemma DivSmall(d: real, n: real)
    requires n > 0.0 && -n < d * 16.0 < n
    ensures n * (d / n) == d
    ensures -1.0 / 16.0 < d / n < 1.0 / 16.0
    ensures d > 0.0 ==> d / n > 0.0
    ensures d < 0.0 ==> d / n < 0.0
  {
    assert (d / n) * n == d;
    SmallFactor(d / n, n, d);
  }

  lemma SmallFactor(q: real, n: real, d: real)
    requires n > 0.0 && q * n == d && -n < d * 16.0 < n
    ensures -1.0 / 16.0 < q < 1.0 / 16.0
    ensures (d > 0.0 ==> q > 0.0) && (d < 0.0 ==> q < 0.0)
  {
    Sixteen(q, n);
    TimesOrder(q * 16.0, 1.0, n);
    TimesOrder(-1.0, q * 16.0, n);
    TimesOrder(0.0, q, n);
    TimesOrder(q, 0.0, n);
  }

  lemma Sixteen(q: real, n: real)
    ensures (q * 16.0) * n == (q * n) * 16.0
  {
  }

  /** Substeps are shorter than 1/16 and add up to the whole displacement. */
  lemma SubstepSize(fl: Rounding, a: real, delta: real)
    requires IsExact(fl) && delta != 0.0
    ensures var n := SubstepCount(fl, delta);
            && n >= 1
            && SubstepFits(fl(delta / n as real), delta > 0.0)
            && -1.0 / 16.0 < fl(delta / n as real) < 1.0 / 16.0
            && Advance(a, fl(delta / n as real), n) == a + delta
  {
    var n := SubstepCount(fl, delta);
    assert fl(Magnitude(delta) * SUBSTEPS_PER_UNIT) == Magnitude(delta) * SUBSTEPS_PER_UNIT;
    assert Magnitude(delta) * 16.0 < n as real;
    DivSmall(delta, n as real);
    assert fl(delta / n as real) == delta / n as real;
  }

  /** The least whole number not below m. */
  predicate IsCeiling(m: real, c: int) {
    (c - 1) as real < m <= c as real
  }

  /**
   The substep count against the documented ceiling of 16 |delta|, wherever scaling by 16 is exact, as it
   is in any binary format: the ceiling off the multiples of 1/16, and one more on them.
   */
  lemma SubstepCountVersusCeiling(fl: Rounding, delta: real, m: real, c: int)
    requires m == Magnitude(delta) * SUBSTEPS_PER_UNIT && fl(m) == m && IsCeiling(m, c)
    ensures SubstepCount(fl, delta) == c <==> m != c as real
    ensures SubstepCount(fl, delta) == c + 1 <==> m == c as real
  {
    assert SubstepCount(fl, delta) == TruncToInt(m) + 1;
  }

  /** A delta of 1/16 takes two substeps where the ceiling says one. */
  lemma OneSubstepTooMany(fl: Rounding)
    requires IsExact(fl)
    ensures SubstepCount(fl, 1.0 / 16.0) == 2 && IsCeiling((1.0 / 16.0) * SUBSTEPS_PER_UNIT, 1)
  {
    assert fl(1.0) == 1.0;
    SubstepCountVersusCeiling(fl, 1.0 / 16.0, 1.0, 1);
  }

  /** Just past a contact the box touches. */
  lemma PastContact(fl: Rounding, half: Vec3, o: WorldOffset, solid: Solid, pos: Vec3, axis: nat,
                    positive: bool, s: real)
    requires IsExact(fl) && half.Axis(axis) >= 0.0 && RestsAgainst(fl, pos, half, axis, positive, o, solid)
    requires Ahead(pos.Axis(axis), s, positive)
    ensures !FreeAt(ProbeOf(fl, half, o, solid), pos, axis, s)
  {
    var x, y, z :|
      && SolidAt(solid, o, x, y, z)
      && CrossSection(fl, pos, half, axis, x, y, z)
      && FaceAt(pos.Axis(axis), half.Axis(axis), positive, Pick(axis, x, y, z));
    CoversSplit(fl, pos, half, axis, s, x, y, z);
    assert Covers(fl, pos.With(axis, s), half, x, y, z) && SolidAt(solid, o, x, y, z);
  }

  /** A position between q and the target, less than a voxel past q. */
  function JustPast(q: real, target: real, positive: bool): real {
    if positive then (if target - q < 0.5 then target else q + 0.5)
    else if q - target < 0.5 then target else q - 0.5
  }

  /** Nothing can move on in the direction of a contact. */
  lemma ContactHolds(fl: Rounding, half: Vec3, o: WorldOffset, solid: Solid, pos: Vec3, axis: nat,
                     positive: bool, target: real)
    requires IsExact(fl) && half.Axis(axis) >= 0.0 && RestsAgainst(fl, pos, half, axis, positive, o, solid)
    requires if positive then pos.Axis(axis) < target else target < pos.Axis(axis)
    ensures !PathFree(ProbeOf(fl, half, o, solid), pos, axis, target)
  {
    var s := JustPast(pos.Axis(axis), target, positive);
    PastContact(fl, half, o, solid, pos, axis, positive, s);
    assert Between(pos.Axis(axis), s, target);
  }

  lemma ContactBlocks(fl: Rounding, half: Vec3, o: WorldOffset, solid: Solid, pos: Vec3, axis: nat,
                      positive: bool, target: real, r: Swept)
    requires IsExact(fl) && half.Axis(axis) >= 0.0
    requires FirstContact(ProbeOf(fl, half, o, solid), ContactOf(fl, half, axis, positive, o, solid), pos, axis,
                          positive, target, r)
    ensures r.blocked <==> !PathFree(ProbeOf(fl, half, o, solid), pos, axis, target)
  {
    if r.blocked {
      ContactHolds(fl, half, o, solid, r.pos, axis, positive, target);
      LaterPath(ProbeOf(fl, half, o, solid), pos, axis, positive, r.pos.Axis(axis), target);
    }
  }

  lemma LaterPath(touches: Probe, pos: Vec3, axis: nat, positive: bool, q: real, target: real)
    requires StopsShort(pos.Axis(axis), q, target, positive) && !PathFree(touches, pos.With(axis, q), axis, target)
    ensures !PathFree(touches, pos, axis, target)
  {
    WithSelf(pos, axis);
    var s :| Between(q, s, target) && !FreeAt(touches, pos.With(axis, q), axis, s);
    assert !FreeAt(touches, pos, axis, s);
  }

  /**
   The axis sweep, for any displacement, is the continuous sweep: it goes all the way if the whole
   segment is free and otherwise stops at the first contact, flush with a solid voxel.
   */
  lemma SweepIsFirstContact(fl: Rounding, half: Vec3, o: WorldOffset, solid: Solid, pos: Vec3, axis: nat,
                            delta: real)
    requires IsRounding(fl) && IsExact(fl) && half.Axis(axis) >= 0.0 && !Touches(fl, pos, half, o, solid)
    ensures var touches := ProbeOf(fl, half, o, solid);
            var r, target := SweepOf(fl, touches, half.Axis(axis), pos, axis, delta), pos.Axis(axis) + delta;
            && FirstContact(touches, ContactOf(fl, half, axis, delta > 0.0, o, solid), pos, axis, delta > 0.0,
                            target, r)
            && (r.blocked <==> !PathFree(touches, pos, axis, target))
  {
    var touches, contact := ProbeOf(fl, half, o, solid), ContactOf(fl, half, axis, delta > 0.0, o, solid);
    var target := pos.Axis(axis) + delta;
    if delta == 0.0 {
      StaysPut(touches, contact, pos, axis, false, target);
    } else {
      SubstepSize(fl, pos.Axis(axis), delta);
      var n := SubstepCount(fl, delta);
      var sub := fl(delta / n as real);
      SubstepsAreSound(fl, half, o, solid, axis, delta > 0.0, sub);
      SweepFromIsFirstContact(fl, touches, contact, half.Axis(axis), pos, axis, delta > 0.0, sub, n);
    }
    ContactBlocks(fl, half, o, solid, pos, axis, delta > 0.0, target,
                  SweepOf(fl, touches, half.Axis(axis), pos, axis, delta));
  }

  lemma StaysPut(touches: Probe, contact: Probe, pos: Vec3, axis: nat, positive: bool, target: real)
    requires !touches(pos) && target == pos.Axis(axis)
    ensures FirstContact(touches, contact, pos, axis, positive, target, Swept(pos, false))
  {
    WithSelf(pos, axis);
  }

  /** One leg of a step: a straight move along an axis, free all the way. */
  ghost predicate FreeLeg(touches: Probe, a: Vec3, axis: nat, b: Vec3) {
    b == a.With(axis, b.Axis(axis)) && PathFree(touches, a, axis, b.Axis(axis))
  }

  lemma LegIsFree(fl: Rounding, half: Vec3, o: WorldOffset, solid: Solid, pos: Vec3, axis: nat, delta: real)
    requires IsRounding(fl) && IsExact(fl) && half.Axis(axis) >= 0.0 && !Touches(fl, pos, half, o, solid)
    ensures var touches := ProbeOf(fl, half, o, solid);
            var r := SweepOf(fl, touches, half.Axis(axis), pos, axis, delta);
            FreeLeg(touches, pos, axis, r.pos) && !touches(r.pos)
  {
    SweepIsFirstContact(fl, half, o, solid, pos, axis, delta);
    SweepEndsFree(fl, ProbeOf(fl, half, o, solid), half.Axis(axis), pos, axis, delta);
  }

  /** In exact arithmetic a step that starts free is free all along its three legs, at any speed. */
  lemma StepPathIsFree(fl: Rounding, b: Body, params: StepParams, o: WorldOffset, solid: Solid)
    requires IsRounding(fl) && IsExact(fl)
    requires b.half.x >= 0.0 && b.half.y >= 0.0 && b.half.z >= 0.0
    requires !Touches(fl, ClampPos(b.pos), b.half, o, solid)
    ensures var touches, t := ProbeOf(fl, b.half, o, solid), Legs(fl, b, params, o, solid);
            && FreeLeg(touches, ClampPos(b.pos), 1, t.y.pos)
            && FreeLeg(touches, t.y.pos, 0, t.x.pos)
            && FreeLeg(touches, t.x.pos, 2, t.z.pos)
  {
    var v, t := NewVelocity(fl, b.vel, params), Legs(fl, b, params, o, solid);
    LegIsFree(fl, b.half, o, solid, ClampPos(b.pos), 1, fl(Times(v.y, params.dt)));
    LegIsFree(fl, b.half, o, solid, t.y.pos, 0, fl(Times(v.x, params.dt)));
    LegIsFree(fl, b.half, o, solid, t.x.pos, 2, fl(Times(v.z, params.dt)));
  }

  predicate Within(a: real, b: real, bound: real) {
    -bound <= b - a <= bound
  }

  lemma ClampedSpeed(v: real, maxSpeed: real, dt: real)
    requires maxSpeed >= 0.0 && dt >= 0.0
    ensures Within(0.0, Times(DetClamp(v, -maxSpeed, maxSpeed), dt), Times(maxSpeed, dt))
  {
    var c := DetClamp(v, -maxSpeed, maxSpeed);
    assert Times(maxSpeed, dt) - Times(c, dt) == Times(maxSpeed - c, dt);
    assert Times(maxSpeed, dt) + Times(c, dt) == Times(maxSpeed + c, dt);
  }

  lemma LegIsShort(fl: Rounding, half: Vec3, o: WorldOffset, solid: Solid, pos: Vec3, axis: nat,
                   delta: real, bound: real)
    requires IsRounding(fl) && IsExact(fl) && half.Axis(axis) >= 0.0 && !Touches(fl, pos, half, o, solid)
    requires Within(0.0, delta, bound)
    ensures Within(pos.Axis(axis),
                   SweepOf(fl, ProbeOf(fl, half, o, solid), half.Axis(axis), pos, axis, delta).pos.Axis(axis), bound)
  {
    SweepIsFirstContact(fl, half, o, solid, pos, axis, delta);
  }

  /** No displacement of a step exceeds the speed limit. */
  predicate SlowerThan(v: Vec3, dt: real, bound: real) {
    Within(0.0, Times(v.x, dt), bound) && Within(0.0, Times(v.y, dt), bound) && Within(0.0, Times(v.z, dt), bound)
  }

  lemma VelocityIsClamped(fl: Rounding, vel: Vec3, params: StepParams)
    requires params.maxSpeed >= 0.0 && params.dt >= 0.0
    ensures SlowerThan(NewVelocity(fl, vel, params), params.dt, Times(params.maxSpeed, params.dt))
  {
    var vy := fl(vel.y + fl(Times(params.gravity, params.dt)));
    ClampedSpeed(fl(Times(vel.x, params.damping)), params.maxSpeed, params.dt);
    ClampedSpeed(fl(Times(vy, params.damping)), params.maxSpeed, params.dt);
    ClampedSpeed(fl(Times(vel.z, params.damping)), params.maxSpeed, params.dt);
  }

  /** Every coordinate ends near where it started. */
  predicate NearEnd(start: Vec3, t: Trajectory, bound: real) {
    Within(start.x, t.x.pos.x, bound) && Within(start.y, t.y.pos.y, bound) && Within(start.z, t.z.pos.z, bound)
  }

  lemma LegsAreShort(fl: Rounding, half: Vec3, o: WorldOffset, solid: Solid, start: Vec3, v: Vec3, dt: real,
                     bound: real, t: Trajectory)
    requires IsRounding(fl) && IsExact(fl) && half.x >= 0.0 && half.y >= 0.0 && half.z >= 0.0
    requires !Touches(fl, start, half, o, solid) && SlowerThan(v, dt, bound)
    requires t == Sweeps(fl, ProbeOf(fl, half, o, solid), half, start, v, dt)
    ensures NearEnd(start, t, bound)
  {
    assert fl(Times(v.x, dt)) == Times(v.x, dt) && fl(Times(v.y, dt)) == Times(v.y, dt) &&
        fl(Times(v.z, dt)) == Times(v.z, dt);
    LegIsFree(fl, half, o, solid, start, 1, fl(Times(v.y, dt)));
    LegIsShort(fl, half, o, solid, start, 1, fl(Times(v.y, dt)), bound);
    LegIsFree(fl, half, o, solid, t.y.pos, 0, fl(Times(v.x, dt)));
    LegIsShort(fl, half, o, solid, t.y.pos, 0, fl(Times(v.x, dt)), bound);
    LegIsShort(fl, half, o, solid, t.x.pos, 2, fl(Times(v.z, dt)), bound);
  }

  /** No leg of a step is longer than the speed limit allows. */
  lemma StepIsShort(fl: Rounding, b: Body, params: StepParams, o: WorldOffset, solid: Solid)
    requires IsRounding(fl) && IsExact(fl) && params.maxSpeed >= 0.0 && params.dt >= 0.0
    requires b.half.x >= 0.0 && b.half.y >= 0.0 && b.half.z >= 0.0
    requires !Touches(fl, ClampPos(b.pos), b.half, o, solid)
    ensures NearEnd(ClampPos(b.pos), Legs(fl, b, params, o, solid), Times(params.maxSpeed, params.dt))
  {
    VelocityIsClamped(fl, b.vel, params);
    LegsAreShort(fl, b.half, o, solid, ClampPos(b.pos), NewVelocity(fl, b.vel, params), params.dt,
                 Times(params.maxSpeed, params.dt), Legs(fl, b, params, o, solid));
  }

  /* ----- what a step makes of the velocity ----- */

  /** Velocity of one axis after gravity (along y only), damping and the speed limit, in exact arithmetic. */
  function FlightVelocity(vel: Vec3, params: StepParams, axis: nat): real {
    var push := if axis == 1 then Times(params.gravity, params.dt) else 0.0;
    DetClamp(Times(vel.Axis(axis) + push, params.damping), -params.maxSpeed, params.maxSpeed)
  }

  lemma VelocityIsFlight(fl: Rounding, vel: Vec3, params: StepParams, axis: nat)
    requires IsExact(fl) && axis < 3
    ensures NewVelocity(fl, vel, params).Axis(axis) == FlightVelocity(vel, params, axis)
  {
    var push := Times(params.gravity, params.dt);
    assert fl(push) == push && fl(vel.y + push) == vel.y + push;
    assert fl(Times(vel.x, params.damping)) == Times(vel.x, params.damping);
    assert fl(Times(vel.y + push, params.damping)) == Times(vel.y + push, params.damping);
    assert fl(Times(vel.z, params.damping)) == Times(vel.z, params.damping);
  }

  /** Where one axis ends if nothing is in the way. */
  function FlightEnd(start: Vec3, vel: Vec3, params: StepParams, axis: nat): real {
    start.Axis(axis) + Times(FlightVelocity(vel, params, axis), params.dt)
  }

  /** A sweep over a free segment goes all the way. */
  lemma FreeSweep(fl: Rounding, half: Vec3, o: WorldOffset, solid: Solid, touches: Probe, pos: Vec3, axis: nat,
                  delta: real, target: real, r: Swept)
    requires IsRounding(fl) && IsExact(fl) && half.Axis(axis) >= 0.0 && touches == ProbeOf(fl, half, o, solid)
    requires target == pos.Axis(axis) + delta && PathFree(touches, pos, axis, target)
    requires r == SweepOf(fl, touches, half.Axis(axis), pos, axis, delta)
    ensures r == Swept(pos.With(axis, target), false)
  {
    WithSelf(pos, axis);
    assert FreeAt(touches, pos, axis, pos.Axis(axis));
    SweepIsFirstContact(fl, half, o, solid, pos, axis, delta);
  }

  /** The free straight legs along y, x and z from a start, and the positions they end at. */
  ghost predicate FreePath(touches: Probe, start: Vec3, afterY: Vec3, afterX: Vec3, end: Vec3) {
    && afterY == start.With(1, end.y) && afterX == afterY.With(0, end.x) && end == afterX.With(2, end.z)
    && PathFree(touches, start, 1, end.y) && PathFree(touches, afterY, 0, end.x)
    && PathFree(touches, afterX, 2, end.z)
  }

  lemma FreeLegs(fl: Rounding, half: Vec3, o: WorldOffset, solid: Solid, touches: Probe, start: Vec3, v: Vec3,
                 dt: real, afterY: Vec3, afterX: Vec3, end: Vec3, t: Trajectory)
    requires IsRounding(fl) && IsExact(fl) && half.x >= 0.0 && half.y >= 0.0 && half.z >= 0.0
    requires touches == ProbeOf(fl, half, o, solid) && FreePath(touches, start, afterY, afterX, end)
    requires end.x == start.x + Times(v.x, dt) && end.y == start.y + Times(v.y, dt)
    requires end.z == start.z + Times(v.z, dt) && t == Sweeps(fl, touches, half, start, v, dt)
    ensures t == Trajectory(Swept(afterY, false), Swept(afterX, false), Swept(end, false))
  {
    var dy, dx, dz := fl(Times(v.y, dt)), fl(Times(v.x, dt)), fl(Times(v.z, dt));
    assert dy == Times(v.y, dt) && dx == Times(v.x, dt) && dz == Times(v.z, dt);
    FreeSweep(fl, half, o, solid, touches, start, 1, dy, end.y, t.y);
    FreeSweep(fl, half, o, solid, touches, afterY, 0, dx, end.x, t.x);
    FreeSweep(fl, half, o, solid, touches, afterX, 2, dz, end.z, t.z);
  }

  /** Where a step ends, and with which velocity, if nothing is in its way. */
  function FlightPos(start: Vec3, vel: Vec3, params: StepParams): Vec3 {
    Vec3(FlightEnd(start, vel, params, 0), FlightEnd(start, vel, params, 1), FlightEnd(start, vel, params, 2))
  }

  function FlightVel(vel: Vec3, params: StepParams): Vec3 {
    Vec3(FlightVelocity(vel, params, 0), FlightVelocity(vel, params, 1), FlightVelocity(vel, params, 2))
  }

  lemma NewVelocityIsFlight(fl: Rounding, vel: Vec3, params: StepParams)
    requires IsExact(fl)
    ensures NewVelocity(fl, vel, params) == FlightVel(vel, params)
  {
    VelocityIsFlight(fl, vel, params, 0);
    VelocityIsFlight(fl, vel, params, 1);
    VelocityIsFlight(fl, vel, params, 2);
  }

  /**
   A step with nothing in its way along y, then x, then z: every axis moves by its own new velocity times
   dt, and keeps that velocity.
   */
  lemma FreeFlightLaw(fl: Rounding, b: Body, params: StepParams, o: WorldOffset, solid: Solid, afterY: Vec3,
                      afterX: Vec3, end: Vec3)
    requires IsRounding(fl) && IsExact(fl) && InBound(b.pos) && InBound(end)
    requires b.half.x >= 0.0 && b.half.y >= 0.0 && b.half.z >= 0.0
    requires end == FlightPos(b.pos, b.vel, params)
    requires FreePath(ProbeOf(fl, b.half, o, solid), b.pos, afterY, afterX, end)
    ensures StepOf(fl, b, params, o, solid) == Body(end, FlightVel(b.vel, params), b.half, false)
  {
    var v, touches := NewVelocity(fl, b.vel, params), ProbeOf(fl, b.half, o, solid);
    BoundIsIdle(b.pos);
    BoundIsIdle(end);
    NewVelocityIsFlight(fl, b.vel, params);
    FreeLegs(fl, b.half, o, solid, touches, b.pos, v, params.dt, afterY, afterX, end,
             Sweeps(fl, touches, b.half, b.pos, v, params.dt));
  }

  /** The leg of a step along an axis. */
  ghost function LegOf(t: Trajectory, axis: nat): Swept {
    if axis == 0 then t.x else if axis == 1 then t.y else t.z
  }

  /** In exact arithmetic an axis keeps its new velocity exactly when its leg is not blocked, and stops otherwise. */
  lemma StepVelocity(fl: Rounding, b: Body, params: StepParams, o: WorldOffset, solid: Solid, axis: nat)
    requires IsRounding(fl) && IsExact(fl) && axis < 3
    ensures StepOf(fl, b, params, o, solid).vel.Axis(axis)
         == if LegOf(Legs(fl, b, params, o, solid), axis).blocked then 0.0 else FlightVelocity(b.vel, params, axis)
  {
    VelocityIsFlight(fl, b.vel, params, axis);
  }

  /** In any rounding the new velocity of an axis that is not blocked depends on its own old velocity alone. */
  lemma AxesAreIndependent(fl: Rounding, b: Body, b': Body, params: StepParams, o: WorldOffset, o': WorldOffset,
                           solid: Solid, solid': Solid, axis: nat)
    requires IsRounding(fl) && axis < 3 && b.vel.Axis(axis) == b'.vel.Axis(axis)
    requires !LegOf(Legs(fl, b, params, o, solid), axis).blocked
    requires !LegOf(Legs(fl, b', params, o', solid'), axis).blocked
    ensures StepOf(fl, b, params, o, solid).vel.Axis(axis) == StepOf(fl, b', params, o', solid').vel.Axis(axis)
  {
    UnblockedKeeps(fl, b, params, o, solid, axis);
    UnblockedKeeps(fl, b', params, o', solid', axis);
    OwnVelocity(fl, b.vel, b'.vel, params, axis);
  }

  lemma UnblockedKeeps(fl: Rounding, b: Body, params: StepParams, o: WorldOffset, solid: Solid, axis: nat)
    requires IsRounding(fl) && axis < 3 && !LegOf(Legs(fl, b, params, o, solid), axis).blocked
    ensures StepOf(fl, b, params, o, solid).vel.Axis(axis) == NewVelocity(fl, b.vel, params).Axis(axis)
  {
  }

  lemma OwnVelocity(fl: Rounding, v: Vec3, w: Vec3, params: StepParams, axis: nat)
    requires axis < 3 && v.Axis(axis) == w.Axis(axis)
    ensures NewVelocity(fl, v, params).Axis(axis) == NewVelocity(fl, w, params).Axis(axis)
  {
  }

  /** Wherever it starts, a step ends inside the world bound. */
  lemma StepEndsInBound(fl: Rounding, b: Body, params: StepParams, o: WorldOffset, solid: Solid)
    requires IsRounding(fl)
    ensures InBound(StepOf(fl, b, params, o, solid).pos)
  {
    BoundIsIdle(StepOf(fl, b, params, o, solid).pos);
  }

  /* ----- at rest on a floor ----- */

  lemma FallIsBlocked(fl: Rounding, half: Vec3, o: WorldOffset, solid: Solid, touches: Probe, pos: Vec3,
                      delta: real, r: Swept)
    requires IsRounding(fl) && IsExact(fl) && half.y >= 0.0 && delta < 0.0 && touches == ProbeOf(fl, half, o, solid)
    requires !touches(pos) && RestsAgainst(fl, pos, half, 1, false, o, solid)
    requires r == SweepOf(fl, touches, half.y, pos, 1, delta)
    ensures r == Swept(pos, true)
  {
    SweepIsFirstContact(fl, half, o, solid, pos, 1, delta);
    ContactHolds(fl, half, o, solid, pos, 1, false, pos.y + delta);
    if r.pos.y < pos.y {
      ContactHolds(fl, half, o, solid, pos, 1, false, r.pos.y);
    }
    HeldInContact(touches, ContactOf(fl, half, 1, false, o, solid), pos, pos.y + delta, r);
  }

  lemma DownIsBlockedByGround(fl: Rounding, half: Vec3, o: WorldOffset, solid: Solid, pos: Vec3,
                              delta: real, r: Swept)
    requires IsRounding(fl) && IsExact(fl) && half.y >= 0.0 && delta < 0.0 && !Touches(fl, pos, half, o, solid)
    requires r == SweepOf(fl, ProbeOf(fl, half, o, solid), half.y, pos, 1, delta)
    ensures r.blocked ==> RestsAgainst(fl, r.pos, half, 1, false, o, solid)
    ensures r.blocked <==> !PathFree(ProbeOf(fl, half, o, solid), pos, 1, pos.y + delta)
  {
    SweepIsFirstContact(fl, half, o, solid, pos, 1, delta);
  }

  /** The ground flag is true exactly when the downward leg was obstructed; then the box stood on something solid. */
  lemma GroundIsReal(fl: Rounding, b: Body, params: StepParams, o: WorldOffset, solid: Solid, start: Vec3,
                     fall: real, leg: Swept, after: Body)
    requires IsRounding(fl) && IsExact(fl) && b.half.y >= 0.0 && params.dt > 0.0
    requires start == ClampPos(b.pos) && fall == Times(NewVelocity(fl, b.vel, params).y, params.dt)
    requires leg == Legs(fl, b, params, o, solid).y && after == StepOf(fl, b, params, o, solid)
    requires !Touches(fl, start, b.half, o, solid)
    ensures after.onGround <==> fall < 0.0 && !PathFree(ProbeOf(fl, b.half, o, solid), start, 1, start.y + fall)
    ensures after.onGround ==> RestsAgainst(fl, leg.pos, b.half, 1, false, o, solid)
  {
    SameSign(NewVelocity(fl, b.vel, params).y, params.dt);
    assert fl(fall) == fall;
    if fall < 0.0 {
      DownIsBlockedByGround(fl, b.half, o, solid, start, fall, leg);
    }
  }

  lemma SameSign(a: real, b: real)
    requires b > 0.0
    ensures Times(a, b) < 0.0 <==> a < 0.0
  {
    TimesOrder(a, 0.0, b);
  }

  lemma HeldInContact(touches: Probe, contact: Probe, pos: Vec3, target: real, r: Swept)
    requires FirstContact(touches, contact, pos, 1, false, target, r) && r.blocked
    requires r.pos.y < pos.y ==> !PathFree(touches, pos, 1, r.pos.y)
    ensures r == Swept(pos, true)
  {
    WithSelf(pos, 1);
  }

  lemma Opposite(a: real, b: real)
    requires a < 0.0 && b > 0.0
    ensures Times(a, b) < 0.0
  {
  }

  /** The velocity of a box at rest after the pull of gravity. */
  lemma FallVelocity(fl: Rounding, params: StepParams)
    requires IsExact(fl) && params.gravity < 0.0 && params.dt > 0.0 && params.damping > 0.0 && params.maxSpeed > 0.0
    ensures var v := NewVelocity(fl, Vec3(0.0, 0.0, 0.0), params);
            v.x == 0.0 && v.z == 0.0 && v.y < 0.0 && Times(v.y, params.dt) < 0.0 && Times(0.0, params.dt) == 0.0
  {
    var g := Times(params.gravity, params.dt);
    Opposite(params.gravity, params.dt);
    Opposite(g, params.damping);
    assert fl(g) == g && fl(0.0 + g) == g && fl(Times(g, params.damping)) == Times(g, params.damping);
    assert Times(0.0, params.damping) == 0.0;
    Opposite(NewVelocity(fl, Vec3(0.0, 0.0, 0.0), params).y, params.dt);
  }

  /** A box at rest on a floor stays exactly where it is, on the ground, under any downward pull. */
  lemma RestIsFixpoint(fl: Rounding, b: Body, params: StepParams, o: WorldOffset, solid: Solid)
    requires IsRounding(fl) && IsExact(fl) && b.half.y >= 0.0
    requires params.gravity < 0.0 && params.dt > 0.0 && params.damping > 0.0 && params.maxSpeed > 0.0
    requires b.vel == Vec3(0.0, 0.0, 0.0) && InBound(b.pos)
    requires !Touches(fl, b.pos, b.half, o, solid) && RestsAgainst(fl, b.pos, b.half, 1, false, o, solid)
    ensures StepOf(fl, b, params, o, solid) == b.(onGround := true)
  {
    var v := NewVelocity(fl, b.vel, params);
    FallVelocity(fl, params);
    BoundIsIdle(b.pos);
    FallIsBlocked(fl, b.half, o, solid, ProbeOf(fl, b.half, o, solid), b.pos, fl(Times(v.y, params.dt)),
                  Legs(fl, b, params, o, solid).y);
  }
}
