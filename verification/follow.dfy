/** Crumb popping in `CNavEngine::FollowCrumbs`: each tick the crumbs the
    player has already reached (or skipped past, or dropped from) are taken
    off the front of the trail, at most 32 of them; an empty trail resets
    the engine's path state. */
module CrumbFollow {
  import opened Util
  import opened Nav
  import opened Crumbs
  import opened Engine

  /** Crumbs examined per tick (`iLoopLimit`). */
  const LOOP_LIMIT: nat := 32
  /** The reach radius of an ordinary crumb, 50 units, squared. */
  const REACH_RADIUS_SQ: real := 2500.0
  /** How far above or below an ordinary crumb still counts as reaching it:
      three quarters of the 50-unit jump height, clamped to 26..42. */
  const VERTICAL_TOLERANCE: real := 37.5
  /** `PLAYER_JUMP_HEIGHT`: the vertical slack when skipping to the next crumb. */
  const PLAYER_JUMP_HEIGHT: real := 50.0
  /** A drop counts as done once the player is this far below the crumb
      (or half the drop height, if larger). */
  const DROP_SKIP_FLOOR: real := 18.0

  /** What one call observes: the player's origin, whether it has stood
      still on a building long enough for heights to be ignored
      (`bResetHeight`), its area, and whether the off-mesh timer has run
      out (`Check(6000)`, a count of seconds like the timer's other checks). */
  datatype FollowInput = FollowInput(origin: Vec3, resetHeight: bool,
                                     localArea: Option<nat>, offMeshExpired: bool)

  /** The engine after the call, and whether the inactivity timer was reset
      because the player made progress along the trail. */
  datatype FollowOutcome = FollowOutcome(e: Engine, progressed: bool)

  /** Squared distance in the horizontal plane. */
  function PlanarSq(a: Vec3, b: Vec3): (r: real)
    ensures r >= 0.0
  {
    (a.x - b.x) * (a.x - b.x) + (a.y - b.y) * (a.y - b.y)
  }

  /** An ordinary crumb is reached: within 50 units in the plane and within
      the vertical tolerance; with heights reset the crumb is taken at the
      player's height. */
  predicate Reached(c: Crumb, inp: FollowInput) {
    var z := if inp.resetHeight then inp.origin.z else c.pos.z;
    && PlanarSq(c.pos, inp.origin) < REACH_RADIUS_SQ
    && Abs(z - inp.origin.z) <= VERTICAL_TOLERANCE
  }

  /** The crumb after the next one is already within reach: 50 units in the
      plane and a jump height vertically. */
  predicate NearNext(next: Crumb, inp: FollowInput) {
    PlanarSq(next.pos, inp.origin) < REACH_RADIUS_SQ && Abs(next.pos.z - inp.origin.z) <= PLAYER_JUMP_HEIGHT
  }

  /** A drop crumb is done: the player is far enough below it, or has
      landed in another area after a real drop, or is within reach of the
      following crumb in the plane. */
  predicate DropDone(crumbs: seq<Crumb>, inp: FollowInput)
    requires |crumbs| > 0
  {
    var c := crumbs[0];
    || c.pos.z - inp.origin.z >= Max(DROP_SKIP_FLOOR, c.dropHeight * 0.5)
    || (inp.localArea.Some? && inp.localArea != c.area && c.dropHeight > DROP_SKIP_FLOOR)
    || (|crumbs| > 1 && PlanarSq(crumbs[1].pos, inp.origin) < REACH_RADIUS_SQ)
  }


  /** What one pass of the loop does with the front crumb. */
  datatype Step = ReachFront | SkipFront | DropFront | Stay

  /** The first test that passes, in the loop's order: reaching an ordinary
      crumb, skipping an ordinary crumb when the next one is near, finishing
      a drop; otherwise the loop stops. */
  function StepOf(crumbs: seq<Crumb>, inp: FollowInput): (r: Step)
    requires |crumbs| > 0
    ensures r == ReachFront ==> !crumbs[0].requiresDrop && Reached(crumbs[0], inp)
    ensures r == SkipFront ==> !crumbs[0].requiresDrop && |crumbs| > 1 && NearNext(crumbs[1], inp)
    ensures r == DropFront <==> crumbs[0].requiresDrop && DropDone(crumbs, inp)
    ensures r == Stay <==>
      (if crumbs[0].requiresDrop then !DropDone(crumbs, inp)
       else !Reached(crumbs[0], inp) && !(|crumbs| > 1 && NearNext(crumbs[1], inp)))
  {
    var c := crumbs[0];
    if !c.requiresDrop && Reached(c, inp) then ReachFront
    else if !c.requiresDrop && |crumbs| > 1 && NearNext(crumbs[1], inp) then SkipFront
    else if c.requiresDrop && DropDone(crumbs, inp) then DropFront
    else Stay
  }

  /** The loop's test as a function of the remaining trail (an empty trail
      ends the loop). */
  function Test(inp: FollowInput): seq<Crumb> -> Step {
    (cs: seq<Crumb>) => if |cs| == 0 then Stay else StepOf(cs, inp)
  }

  /** The crumb recorded as the last one reached when the front is popped:
      the popped crumb itself, except that a skip records the crumb after
      it, which stays on the trail as its new front. */
  function Landmark(crumbs: seq<Crumb>, test: seq<Crumb> -> Step): (c: Crumb)
    requires |crumbs| > 0
    ensures c == crumbs[0] || (|crumbs| > 1 && c == crumbs[1])
  {
    if test(crumbs) == SkipFront && |crumbs| > 1 then crumbs[1] else crumbs[0]
  }

  /** The popping loop with `budget` passes left, for any per-crumb test:
      the remaining trail, the last crumb and how many crumbs were popped,
      never more than the budget nor the trail. */
  function Pop(crumbs: seq<Crumb>, last: Crumb, test: seq<Crumb> -> Step, budget: nat): (r: (seq<Crumb>, Crumb, nat))
    ensures r.2 <= budget && |r.0| + r.2 == |crumbs|
    decreases budget
  {
    if budget == 0 || |crumbs| == 0 || test(crumbs) == Stay then (crumbs, last, 0)
    else
      var rest := Pop(crumbs[1..], Landmark(crumbs, test), test, budget - 1);
      (rest.0, rest.1, rest.2 + 1)
  }

  /** The loop pops from the front: what remains is the trail without its
      first popped crumbs. */
  lemma {:induction false} PopSuffix(crumbs: seq<Crumb>, last: Crumb, test: seq<Crumb> -> Step, budget: nat)
    ensures var r := Pop(crumbs, last, test, budget); r.0 == crumbs[r.2..]
    decreases budget
  {
    if budget == 0 || |crumbs| == 0 || test(crumbs) == Stay {
    } else {
      PopSuffix(crumbs[1..], Landmark(crumbs, test), test, budget - 1);
    }
  }

  /** Every popped crumb passed the test, the loop stopped at the first
      crumb that fails it unless the budget or the trail ran out, and the
      last crumb is the one recorded by the final pop. */
  lemma {:induction false} PopExact(crumbs: seq<Crumb>, last: Crumb, test: seq<Crumb> -> Step, budget: nat)
    ensures var r := Pop(crumbs, last, test, budget);
      && (forall i | 0 <= i < r.2 :: test(crumbs[i..]) != Stay)
      && (r.2 < budget && r.2 < |crumbs| ==> test(crumbs[r.2..]) == Stay)
      && (r.2 == 0 ==> r.1 == last)
      && (r.2 > 0 ==> r.1 == Landmark(crumbs[r.2 - 1..], test))
    decreases budget
  {
    if budget == 0 || |crumbs| == 0 || test(crumbs) == Stay {
    } else {
      var tail := crumbs[1..];
      PopExact(tail, Landmark(crumbs, test), test, budget - 1);
      assert forall i | 1 <= i <= |crumbs| :: tail[i - 1..] == crumbs[i..];
    }
  }

  /** Popping is the same whether it happens in one loop or across ticks:
      a loop of `b + c` passes ends where a loop of `b` passes followed by
      one of `c` passes from its result ends, having popped as many. */
  lemma {:induction false} PopCompose(crumbs: seq<Crumb>, last: Crumb, test: seq<Crumb> -> Step, b: nat, c: nat)
    ensures var r := Pop(crumbs, last, test, b);
      var s := Pop(r.0, r.1, test, c);
      Pop(crumbs, last, test, b + c) == (s.0, s.1, r.2 + s.2)
    decreases b
  {
    if b == 0 || |crumbs| == 0 || test(crumbs) == Stay {
    } else {
      PopCompose(crumbs[1..], Landmark(crumbs, test), test, b - 1, c);
    }
  }

  /** A trail loses the crumbs the player is done with, at most 32 of
      them, from the front; nothing but the trail and the last crumb
      changes. */
  function PopTrail(e: Engine, inp: FollowInput): (r: FollowOutcome)
    requires |e.crumbs| > 0
    ensures r.e == e.(crumbs := r.e.crumbs, lastCrumb := r.e.lastCrumb)
    ensures |r.e.crumbs| <= |e.crumbs| <= |r.e.crumbs| + LOOP_LIMIT
    ensures r.e.crumbs == e.crumbs[|e.crumbs| - |r.e.crumbs|..]
    ensures r.progressed <==> |r.e.crumbs| < |e.crumbs|
  {
    var p := Pop(e.crumbs, e.lastCrumb, Test(inp), LOOP_LIMIT);
    PopSuffix(e.crumbs, e.lastCrumb, Test(inp), LOOP_LIMIT);
    FollowOutcome(e.(crumbs := p.0, lastCrumb := p.1), p.2 > 0)
  }

  /** `FollowCrumbs` without movement, looking and jumping: an empty trail
      with the off-mesh timer run out falls back to patrol priority, an
      empty trail otherwise forgets the last crumb's area, the repath flag
      and the priority; a trail is popped. */
  function FollowCrumbs(e: Engine, inp: FollowInput): (r: FollowOutcome)
    ensures |e.crumbs| == 0 && inp.offMeshExpired ==> r == FollowOutcome(e.(priority := Patrol), false)
    ensures |e.crumbs| == 0 && !inp.offMeshExpired ==>
      && r.e == e.(lastCrumb := r.e.lastCrumb, repathOnFail := false, priority := NoPriority)
      && r.e.lastCrumb == e.lastCrumb.(area := None) && !r.progressed
    ensures |e.crumbs| > 0 ==> r == PopTrail(e, inp)
  {
    if |e.crumbs| == 0 then
      if inp.offMeshExpired then FollowOutcome(e.(priority := Patrol), false)
      else FollowOutcome(e.(lastCrumb := e.lastCrumb.(area := None), repathOnFail := false,
                            priority := NoPriority), false)
    else PopTrail(e, inp)
  }

  /** What a call on a trail pops: the crumbs it drops each passed one of
      the loop's tests, and the loop stopped at the first that passes none
      unless 32 were popped or the trail ran out. */
  lemma FollowPasses(e: Engine, inp: FollowInput)
    requires |e.crumbs| > 0
    ensures var n := |e.crumbs| - |PopTrail(e, inp).e.crumbs|;
      && (forall i | 0 <= i < n :: StepOf(e.crumbs[i..], inp) != Stay)
      && (n < LOOP_LIMIT && n < |e.crumbs| ==> StepOf(e.crumbs[n..], inp) == Stay)
  {
    var test := Test(inp);
    PopExact(e.crumbs, e.lastCrumb, test, LOOP_LIMIT);
    var n := |e.crumbs| - |PopTrail(e, inp).e.crumbs|;
    forall i | 0 <= i < n ensures StepOf(e.crumbs[i..], inp) != Stay {
      assert test(e.crumbs[i..]) != Stay;
    }
  }

  /** The last crumb after a call on a trail: unchanged when nothing was
      popped, otherwise the final popped crumb or, after a skip, the new
      front. */
  lemma FollowLast(e: Engine, inp: FollowInput)
    requires |e.crumbs| > 0
    ensures var r := PopTrail(e, inp).e;
      var n := |e.crumbs| - |r.crumbs|;
      && (n == 0 ==> r.lastCrumb == e.lastCrumb)
      && (n > 0 ==> r.lastCrumb == (if StepOf(e.crumbs[n - 1..], inp) == SkipFront
                                     then e.crumbs[n] else e.crumbs[n - 1]))
  {
    PopLast(e.crumbs, e.lastCrumb, inp, LOOP_LIMIT);
  }

  /** The last crumb after popping, in terms of the loop's own tests. */
  lemma PopLast(crumbs: seq<Crumb>, last: Crumb, inp: FollowInput, budget: nat)
    ensures var r := Pop(crumbs, last, Test(inp), budget);
      && (r.2 == 0 ==> r.1 == last)
      && (r.2 > 0 ==> r.1 == (if StepOf(crumbs[r.2 - 1..], inp) == SkipFront
                              then crumbs[r.2] else crumbs[r.2 - 1]))
  {
    var r := Pop(crumbs, last, Test(inp), budget);
    PopExact(crumbs, last, Test(inp), budget);
    if r.2 > 0 {
      var cs := crumbs[r.2 - 1..];
      assert Test(inp)(cs) == StepOf(cs, inp);
      if StepOf(cs, inp) == SkipFront {
        assert cs[1] == crumbs[r.2];
      }
    }
  }

  /** A placed trail stays placed, and a call that pops leaves a placed
      last crumb, so the stuck detector always finds the areas it keys on. */
  lemma FollowPlaced(e: Engine, inp: FollowInput)
    requires |e.crumbs| > 0 && Placed(e.crumbs)
    ensures var r := PopTrail(e, inp).e;
      && Placed(r.crumbs)
      && (|r.crumbs| < |e.crumbs| ==> r.lastCrumb.area.Some?)
  {
    var r := PopTrail(e, inp).e;
    var n := |e.crumbs| - |r.crumbs|;
    if n > 0 {
      FollowLast(e, inp);
    }
  }

  /** Once the loop stops on a crumb it cannot pass (rather than on its
      budget), a second call with the same observation changes nothing. */
  lemma FollowSettles(e: Engine, inp: FollowInput)
    requires |e.crumbs| > 0
    requires |e.crumbs| - |PopTrail(e, inp).e.crumbs| < LOOP_LIMIT
    requires |PopTrail(e, inp).e.crumbs| > 0
    ensures FollowCrumbs(FollowCrumbs(e, inp).e, inp) == FollowOutcome(FollowCrumbs(e, inp).e, false)
  {
    FollowPasses(e, inp);
    FollowLast(e, inp);
  }
}
