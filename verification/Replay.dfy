/**
 The rebased replay loop: kick, step every entity in the frame's local space, then rebase as the
 schedule says. In exact arithmetic no schedule can be told from another in virtual space.
 */
module Replay {
  import Arithmetic
  import opened Collision
  import opened Rebase

  class Frame {
    var origin: WorldOffset

    constructor ()
      ensures origin == WorldOffset(0, 0, 0)
    {
      origin := WorldOffset(0, 0, 0);
    }
  }

  /** The rebase applies after this 1-based step. */
  datatype RebaseEvent = RebaseEvent(step: int, dx: int)

  /** New velocity of the entity kicked after this many steps. */
  type Kick = (int, Vec3) -> Vec3

  const KICK_INTERVAL := 16

  ghost predicate Distinct(es: seq<Entity>) {
    forall i, j :: 0 <= i < j < |es| ==> es[i] != es[j]
  }

  ghost function Bodies(es: seq<Entity>): (bs: seq<Body>)
    reads es
    ensures |bs| == |es|
  {
    seq(|es|, i requires 0 <= i < |es| reads es => es[i].State())
  }

  /* ----- what each loop does to all entities ----- */

  ghost function RebasedAll(fl: Rounding, bs: seq<Body>, d: WorldOffset): (r: seq<Body>)
    ensures |r| == |bs|
  {
    seq(|bs|, i requires 0 <= i < |bs| => ShiftBody(fl, bs[i], d))
  }

  ghost predicate AllAddBack(fl: Rounding, bs: seq<Body>, d: WorldOffset) {
    forall i :: 0 <= i < |bs| ==> AddsBack(fl, ShiftPos(fl, bs[i].pos, d), bs[i].pos, d)
  }

  ghost function SteppedAll(fl: Rounding, bs: seq<Body>, params: StepParams, o: WorldOffset,
                            solid: Solid): (r: seq<Body>)
    requires IsRounding(fl)
    ensures |r| == |bs|
  {
    seq(|bs|, i requires 0 <= i < |bs| => StepOf(fl, bs[i], params, o, solid))
  }

  function KickedIndex(n: nat, step: nat): nat
    requires n > 0
  {
    (step / KICK_INTERVAL) % n
  }

  ghost function Kicked(kick: Kick, bs: seq<Body>, step: nat): (r: seq<Body>)
    requires |bs| > 0
    ensures |r| == |bs|
  {
    if step % KICK_INTERVAL == 0 then
      var i := KickedIndex(|bs|, step);
      bs[i := bs[i].(vel := kick(step, bs[i].vel))]
    else bs
  }

  method RebaseFrame(fl: Rounding, frame: Frame, es: seq<Entity>, d: WorldOffset) returns (allExact: bool)
    requires Distinct(es)
    modifies frame, es
    ensures frame.origin == Plus(old(frame.origin), d)
    ensures Bodies(es) == RebasedAll(fl, old(Bodies(es)), d)
    ensures allExact <==> AllAddBack(fl, old(Bodies(es)), d)
  {
    ghost var before := Bodies(es);
    allExact := true;
    for i := 0 to |es|
      invariant frame.origin == old(frame.origin)
      invariant forall j :: 0 <= j < |es| ==> es[j].State() == if j < i then ShiftBody(fl, before[j], d) else before[j]
      invariant allExact <==> AllAddBack(fl, before[..i], d)
    {
      var p := es[i].pos;
      var q := ShiftPos(fl, p, d);
      es[i].pos := q;
      allExact := allExact && AddsBack(fl, q, p, d);
      assert before[..i + 1] == before[..i] + [before[i]];
    }
    assert before[..|es|] == before;
    frame.origin := Plus(frame.origin, d);
  }

  method StepOne(fl: Rounding, e: Entity, ghost before: Body, params: StepParams, o: WorldOffset,
                 solid: Solid, ghost after: Body)
    requires IsRounding(fl) && e.State() == before && after == StepOf(fl, before, params, o, solid)
    modifies e
    ensures e.State() == after
  {
    e.CollisionStep(fl, params, o, solid);
  }

  /** Stepping each of these bodies gives those. */
  ghost predicate StepsTo(fl: Rounding, before: seq<Body>, params: StepParams, o: WorldOffset, solid: Solid,
                          after: seq<Body>)
    requires IsRounding(fl)
  {
    |after| == |before| && forall i :: 0 <= i < |before| ==> after[i] == StepOf(fl, before[i], params, o, solid)
  }

  method StepEach(fl: Rounding, es: seq<Entity>, ghost before: seq<Body>, params: StepParams, o: WorldOffset,
                  solid: Solid, ghost after: seq<Body>)
    requires IsRounding(fl) && Distinct(es) && before == Bodies(es)
    requires StepsTo(fl, before, params, o, solid, after)
    modifies es
    ensures Bodies(es) == after
  {
    for i := 0 to |es|
      invariant forall j :: 0 <= j < |es| ==> es[j].State() == if j < i then after[j] else before[j]
    {
      StepOne(fl, es[i], before[i], params, o, solid, after[i]);
    }
  }

  method StepAll(fl: Rounding, es: seq<Entity>, params: StepParams, o: WorldOffset, solid: Solid)
    requires IsRounding(fl) && Distinct(es)
    modifies es
    ensures Bodies(es) == SteppedAll(fl, old(Bodies(es)), params, o, solid)
  {
    StepEach(fl, es, Bodies(es), params, o, solid, SteppedAll(fl, Bodies(es), params, o, solid));
  }

  /* ----- the run as a function ----- */

  datatype Rig = Rig(frame: WorldOffset, bodies: seq<Body>)

  datatype Progress = Progress(rig: Rig, next: nat, exact: bool)

  ghost function RebaseOnce(fl: Rounding, p: Progress, dx: int): Progress {
    var d := WorldOffset(dx, 0, 0);
    Progress(Rig(Plus(p.rig.frame, d), RebasedAll(fl, p.rig.bodies, d)), p.next + 1,
             AllAddBack(fl, p.rig.bodies, d) && p.exact)
  }

  /** Applies the pending events of this step. */
  ghost function ApplyEvents(fl: Rounding, p: Progress, schedule: seq<RebaseEvent>, step: nat): (r: Progress)
    ensures |r.rig.bodies| == |p.rig.bodies|
    decreases |schedule| - p.next
  {
    if p.next < |schedule| && schedule[p.next].step == step then
      ApplyEvents(fl, RebaseOnce(fl, p, schedule[p.next].dx), schedule, step)
    else p
  }

  ghost function OneStep(fl: Rounding, kick: Kick, params: StepParams, solid: Solid, p: Progress,
                         step: nat): Progress
    requires IsRounding(fl) && |p.rig.bodies| > 0
  {
    p.(rig := Rig(p.rig.frame, SteppedAll(fl, Kicked(kick, p.rig.bodies, step), params, p.rig.frame, solid)))
  }

  ghost function ReplayAt(fl: Rounding, kick: Kick, params: StepParams, solid: Solid,
                          schedule: seq<RebaseEvent>, start: Rig, step: nat): (p: Progress)
    requires IsRounding(fl) && |start.bodies| > 0
    ensures |p.rig.bodies| == |start.bodies|
  {
    if step == 0 then Progress(start, 0, true)
    else
      var before := ReplayAt(fl, kick, params, solid, schedule, start, step - 1);
      ApplyEvents(fl, OneStep(fl, kick, params, solid, before, step), schedule, step)
  }

  ghost function RigOf(frame: Frame, es: seq<Entity>): Rig
    reads frame, es
  {
    Rig(frame.origin, Bodies(es))
  }

  method KickOne(kick: Kick, es: seq<Entity>, step: nat)
    requires Distinct(es) && |es| > 0
    modifies es
    ensures Bodies(es) == Kicked(kick, old(Bodies(es)), step)
  {
    if step % KICK_INTERVAL == 0 {
      var e := es[KickedIndex(|es|, step)];
      e.vel := kick(step, e.vel);
    }
  }

  /** Applies the events scheduled for this step, from the next pending one. */
  method RebaseAfter(fl: Rounding, frame: Frame, es: seq<Entity>, schedule: seq<RebaseEvent>, step: nat,
                     nextEvent: nat, exact: bool)
    returns (nextEvent': nat, exact': bool)
    requires Distinct(es)
    modifies frame, es
    ensures Progress(RigOf(frame, es), nextEvent', exact') ==
        ApplyEvents(fl, Progress(old(RigOf(frame, es)), nextEvent, exact), schedule, step)
  {
    nextEvent', exact' := nextEvent, exact;
    ghost var all := ApplyEvents(fl, Progress(RigOf(frame, es), nextEvent, exact), schedule, step);
    while nextEvent' < |schedule| && schedule[nextEvent'].step == step
      invariant ApplyEvents(fl, Progress(RigOf(frame, es), nextEvent', exact'), schedule, step) == all
      decreases |schedule| - nextEvent'
    {
      var ok := RebaseFrame(fl, frame, es, WorldOffset(schedule[nextEvent'].dx, 0, 0));
      exact' := ok && exact';
      nextEvent' := nextEvent' + 1;
    }
  }

  /** The replay loop over a population that was just spawned. */
  method RunRebasedReplay(fl: Rounding, kick: Kick, params: StepParams, solid: Solid,
                          schedule: seq<RebaseEvent>, es: seq<Entity>, steps: nat)
    returns (frame: Frame, allRebasesExact: bool)
    requires IsRounding(fl) && Distinct(es) && |es| > 0
    modifies es
    ensures fresh(frame)
    ensures var p := ReplayAt(fl, kick, params, solid, schedule, Rig(WorldOffset(0, 0, 0), old(Bodies(es))), steps);
            RigOf(frame, es) == p.rig && allRebasesExact == p.exact
  {
    ghost var start := Rig(WorldOffset(0, 0, 0), Bodies(es));
    frame := new Frame();
    allRebasesExact := true;
    var nextEvent := 0;
    for step := 0 to steps
      invariant fresh(frame)
      invariant Progress(RigOf(frame, es), nextEvent, allRebasesExact) ==
          ReplayAt(fl, kick, params, solid, schedule, start, step)
    {
      KickOne(kick, es, step + 1);
      StepAll(fl, es, params, frame.origin, solid);
      nextEvent, allRebasesExact := RebaseAfter(fl, frame, es, schedule, step + 1, nextEvent, allRebasesExact);
    }
  }

  /* ----- every event is applied once, and every entity has its turn ----- */

  /** Ascending by step, and none before the first step. */
  ghost predicate InOrder(schedule: seq<RebaseEvent>) {
    && (forall i :: 0 <= i < |schedule| ==> schedule[i].step >= 1)
    && (forall i, j :: 0 <= i < j < |schedule| ==> schedule[i].step <= schedule[j].step)
  }

  /** The first n events shift the origin by this much. */
  function ShiftOf(schedule: seq<RebaseEvent>, n: nat): int
    requires n <= |schedule|
  {
    if n == 0 then 0 else ShiftOf(schedule, n - 1) + schedule[n - 1].dx
  }

  lemma {:induction false} EventsShiftFrame(fl: Rounding, p: Progress, schedule: seq<RebaseEvent>, step: nat)
    requires p.next <= |schedule|
    ensures var q := ApplyEvents(fl, p, schedule, step);
            && p.next <= q.next <= |schedule|
            && (forall i :: p.next <= i < q.next ==> schedule[i].step == step)
            && (q.next < |schedule| ==> schedule[q.next].step != step)
            && q.rig.frame == p.rig.frame.(x := p.rig.frame.x + ShiftOf(schedule, q.next) - ShiftOf(schedule, p.next))
    decreases |schedule| - p.next
  {
    if p.next < |schedule| && schedule[p.next].step == step {
      EventsShiftFrame(fl, RebaseOnce(fl, p, schedule[p.next].dx), schedule, step);
    }
  }

  /** The first next events are exactly those scheduled up to step n. */
  ghost predicate AppliedUpTo(schedule: seq<RebaseEvent>, next: nat, n: nat) {
    next <= |schedule| && forall i :: 0 <= i < |schedule| ==> (schedule[i].step <= n <==> i < next)
  }

  lemma AppliedNext(schedule: seq<RebaseEvent>, next: nat, next': nat, n: nat)
    requires InOrder(schedule) && n > 0 && AppliedUpTo(schedule, next, n - 1) && next <= next' <= |schedule|
    requires forall i :: next <= i < next' ==> schedule[i].step == n
    requires next' < |schedule| ==> schedule[next'].step != n
    ensures AppliedUpTo(schedule, next', n)
  {
  }

  /** After n steps the origin has moved by exactly the events scheduled up to step n. */
  lemma {:induction false} FrameFollowsSchedule(fl: Rounding, kick: Kick, params: StepParams, solid: Solid,
                                                schedule: seq<RebaseEvent>, start: Rig, n: nat)
    requires IsRounding(fl) && |start.bodies| > 0 && InOrder(schedule)
    ensures var p := ReplayAt(fl, kick, params, solid, schedule, start, n);
            && AppliedUpTo(schedule, p.next, n)
            && p.rig.frame == start.frame.(x := start.frame.x + ShiftOf(schedule, p.next))
  {
    if n > 0 {
      FrameFollowsSchedule(fl, kick, params, solid, schedule, start, n - 1);
      var p := ReplayAt(fl, kick, params, solid, schedule, start, n - 1);
      var q := ReplayAt(fl, kick, params, solid, schedule, start, n);
      EventsShiftFrame(fl, OneStep(fl, kick, params, solid, p, n), schedule, n);
      AppliedNext(schedule, p.next, q.next, n);
    }
  }

  /** It is entity i's turn: the kicks, one every 16 steps, go round n entities. */
  ghost predicate IsTurn(n: nat, step: nat, i: nat) {
    exists round: nat :: step == 16 * (n * round + i)
  }

  lemma TurnIsIndex(n: nat, step: nat, i: nat)
    requires i < n
    ensures step % 16 == 0 && KickedIndex(n, step) == i <==> IsTurn(n, step, i)
  {
    if step % 16 == 0 && KickedIndex(n, step) == i {
      assert step == 16 * (n * (step / 16 / n) + i);
    }
    if round: nat :| step == 16 * (n * round + i) {
      Arithmetic.DivUnique(step / 16, n, round, i);
    }
  }

  /** Only the velocity of the entity whose turn it is changes. */
  lemma KicksGoRound(kick: Kick, bs: seq<Body>, step: nat, i: nat)
    requires i < |bs|
    ensures Kicked(kick, bs, step)[i] ==
        if IsTurn(|bs|, step, i) then bs[i].(vel := kick(step, bs[i].vel)) else bs[i]
  {
    TurnIsIndex(|bs|, step, i);
  }

  /* ----- the frame is invisible ----- */

  /** Where everything is in world space. */
  ghost function Virtual(fl: Rounding, rig: Rig): (bs: seq<Body>)
    ensures |bs| == |rig.bodies|
  {
    RebasedAll(fl, rig.bodies, Negated(rig.frame))
  }

  ghost function FreeAll(fl: Rounding, bs: seq<Body>, params: StepParams, o: WorldOffset,
                         solid: Solid): (r: seq<Body>)
    requires IsRounding(fl)
    ensures |r| == |bs|
  {
    seq(|bs|, i requires 0 <= i < |bs| => FreeStep(fl, bs[i], params, o, solid))
  }

  /** The run that never rebases: kicks and free steps in world space. */
  ghost function Drift(fl: Rounding, kick: Kick, params: StepParams, solid: Solid, bs: seq<Body>,
                       step: nat): (r: seq<Body>)
    requires IsRounding(fl) && |bs| > 0
    ensures |r| == |bs|
  {
    if step == 0 then bs
    else FreeAll(fl, Kicked(kick, Drift(fl, kick, params, solid, bs, step - 1), step), params, WorldOffset(0, 0, 0),
                 solid)
  }

  ghost predicate AllIdle(fl: Rounding, bs: seq<Body>, params: StepParams, o: WorldOffset, solid: Solid)
    requires IsRounding(fl)
  {
    forall i :: 0 <= i < |bs| ==> ClampsIdle(fl, bs[i], params, o, solid)
  }

  /** No bound clamp acts in the first n steps of a run. */
  ghost predicate RunIsIdle(fl: Rounding, kick: Kick, params: StepParams, solid: Solid,
                            schedule: seq<RebaseEvent>, start: Rig, n: nat)
    requires IsRounding(fl) && |start.bodies| > 0
  {
    forall k: nat :: k < n ==>
      var rig := ReplayAt(fl, kick, params, solid, schedule, start, k).rig;
      AllIdle(fl, Kicked(kick, rig.bodies, k + 1), params, rig.frame, solid)
  }

  lemma PosBack(fl: Rounding, p: Vec3, o: WorldOffset, d: WorldOffset)
    requires IsExact(fl)
    ensures ShiftPos(fl, ShiftPos(fl, p, d), Negated(Plus(o, d))) == ShiftPos(fl, p, Negated(o))
    ensures AddsBack(fl, ShiftPos(fl, p, d), p, d)
  {
  }

  /** An exact rebase moves nothing in world space, and reports that it was exact. */
  lemma RebaseIsInvisible(fl: Rounding, p: Progress, dx: int)
    requires IsExact(fl)
    ensures Virtual(fl, RebaseOnce(fl, p, dx).rig) == Virtual(fl, p.rig)
    ensures RebaseOnce(fl, p, dx).exact == p.exact
  {
    var d := WorldOffset(dx, 0, 0);
    forall i | 0 <= i < |p.rig.bodies|
      ensures Virtual(fl, RebaseOnce(fl, p, dx).rig)[i] == Virtual(fl, p.rig)[i]
      ensures AddsBack(fl, ShiftPos(fl, p.rig.bodies[i].pos, d), p.rig.bodies[i].pos, d)
    {
      PosBack(fl, p.rig.bodies[i].pos, p.rig.frame, d);
    }
  }

  lemma {:induction false} EventsAreInvisible(fl: Rounding, p: Progress, schedule: seq<RebaseEvent>, step: nat)
    requires IsExact(fl)
    ensures Virtual(fl, ApplyEvents(fl, p, schedule, step).rig) == Virtual(fl, p.rig)
    ensures ApplyEvents(fl, p, schedule, step).exact == p.exact
    decreases |schedule| - p.next
  {
    if p.next < |schedule| && schedule[p.next].step == step {
      RebaseIsInvisible(fl, p, schedule[p.next].dx);
      EventsAreInvisible(fl, RebaseOnce(fl, p, schedule[p.next].dx), schedule, step);
    }
  }

  lemma FreeStepInWorldSpace(fl: Rounding, b: Body, b': Body, params: StepParams, o: WorldOffset,
                             zero: WorldOffset, solid: Solid)
    requires IsRounding(fl) && IsExact(fl) && zero == Plus(o, Negated(o)) && b' == ShiftBody(fl, b, Negated(o))
    ensures ShiftBody(fl, FreeStep(fl, b, params, o, solid), Negated(o)) == FreeStep(fl, b', params, zero, solid)
  {
    StepCommutesWithRebase(fl, b, b', params, o, zero, Negated(o), solid);
  }

  lemma StepInWorldSpace(fl: Rounding, b: Body, params: StepParams, o: WorldOffset, solid: Solid, after: Body)
    requires IsRounding(fl) && IsExact(fl) && ClampsIdle(fl, b, params, o, solid)
    requires after == StepOf(fl, b, params, o, solid)
    ensures ShiftBody(fl, after, Negated(o)) ==
        FreeStep(fl, ShiftBody(fl, b, Negated(o)), params, WorldOffset(0, 0, 0), solid)
  {
    IdleStepIsFree(fl, b, params, o, solid);
    FreeStepInWorldSpace(fl, b, ShiftBody(fl, b, Negated(o)), params, o, WorldOffset(0, 0, 0), solid);
  }

  lemma StepsInWorldSpace(fl: Rounding, bs: seq<Body>, params: StepParams, o: WorldOffset, solid: Solid)
    requires IsRounding(fl) && IsExact(fl) && AllIdle(fl, bs, params, o, solid)
    ensures RebasedAll(fl, SteppedAll(fl, bs, params, o, solid), Negated(o))
         == FreeAll(fl, RebasedAll(fl, bs, Negated(o)), params, WorldOffset(0, 0, 0), solid)
  {
    forall i | 0 <= i < |bs|
      ensures RebasedAll(fl, SteppedAll(fl, bs, params, o, solid), Negated(o))[i]
           == FreeAll(fl, RebasedAll(fl, bs, Negated(o)), params, WorldOffset(0, 0, 0), solid)[i]
    {
      StepInWorldSpace(fl, bs[i], params, o, solid, SteppedAll(fl, bs, params, o, solid)[i]);
    }
  }

  lemma KickInWorldSpace(fl: Rounding, kick: Kick, bs: seq<Body>, step: nat, d: WorldOffset)
    requires |bs| > 0
    ensures RebasedAll(fl, Kicked(kick, bs, step), d) == Kicked(kick, RebasedAll(fl, bs, d), step)
  {
  }

  /** While no clamp acts, the run with rebases is the run without them, seen from its frame. */
  lemma {:induction false} RebasesAreInvisible(fl: Rounding, kick: Kick, params: StepParams, solid: Solid,
                                               schedule: seq<RebaseEvent>, start: Rig, n: nat)
    requires IsRounding(fl) && IsExact(fl) && |start.bodies| > 0
    requires RunIsIdle(fl, kick, params, solid, schedule, start, n)
    ensures var p := ReplayAt(fl, kick, params, solid, schedule, start, n);
            p.exact && Virtual(fl, p.rig) == Drift(fl, kick, params, solid, Virtual(fl, start), n)
  {
    if n > 0 {
      RebasesAreInvisible(fl, kick, params, solid, schedule, start, n - 1);
      var p := ReplayAt(fl, kick, params, solid, schedule, start, n - 1);
      EventsAreInvisible(fl, OneStep(fl, kick, params, solid, p, n), schedule, n);
      StepsInWorldSpace(fl, Kicked(kick, p.rig.bodies, n), params, p.rig.frame, solid);
      KickInWorldSpace(fl, kick, p.rig.bodies, n, Negated(p.rig.frame));
    }
  }

  /** Any two schedules give the same trajectory of origin plus local position, and every rebase is exact. */
  lemma SchedulesAgree(fl: Rounding, kick: Kick, params: StepParams, solid: Solid, a: seq<RebaseEvent>,
                       b: seq<RebaseEvent>, start: Rig, n: nat)
    requires IsRounding(fl) && IsExact(fl) && |start.bodies| > 0
    requires RunIsIdle(fl, kick, params, solid, a, start, n) && RunIsIdle(fl, kick, params, solid, b, start, n)
    ensures var p, q := ReplayAt(fl, kick, params, solid, a, start, n), ReplayAt(fl, kick, params, solid, b, start, n);
            p.exact && q.exact && Virtual(fl, p.rig) == Virtual(fl, q.rig)
  {
    RebasesAreInvisible(fl, kick, params, solid, a, start, n);
    RebasesAreInvisible(fl, kick, params, solid, b, start, n);
  }
}
