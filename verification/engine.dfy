/** The navigation engine's path-request state (`CNavEngine`): the request
    priorities, the crumb trail and the last crumb reached, the repath
    bookkeeping, the strict-failure counter behind the emergency fallback,
    and the two ways a path ends early, `AbandonPath` and `CancelPath`. */
module Engine {
  import opened Util
  import opened Nav
  import opened Connection
  import opened Crumbs
  import opened CrumbCache
  import opened NavMap

  // ---------------------------------------------------------------------
  // Priorities (`PriorityList`)

  datatype Priority =
    | NoPriority | Patrol | LowPrioGetHealth | StayNear | RunReload | RunSafeReload
    | SnipeSentry | Capture | GetAmmo | MeleeAttack | Engineer | GetHealth
    | EscapeSpawn | EscapeDanger | Followbot

  /** The enumerator's value: none is 0, patrol 5, and each later one the
      next integer. */
  function Rank(p: Priority): (r: nat)
    ensures p == NoPriority <==> r == 0
    ensures p != NoPriority ==> 5 <= r <= 18
  {
    match p
    case NoPriority => 0
    case Patrol => 5
    case LowPrioGetHealth => 6
    case StayNear => 7
    case RunReload => 8
    case RunSafeReload => 9
    case SnipeSentry => 10
    case Capture => 11
    case GetAmmo => 12
    case MeleeAttack => 13
    case Engineer => 14
    case GetHealth => 15
    case EscapeSpawn => 16
    case EscapeDanger => 17
    case Followbot => 18
  }

  /** The priorities in declaration order. */
  const Declared: seq<Priority> :=
    [NoPriority, Patrol, LowPrioGetHealth, StayNear, RunReload, RunSafeReload,
     SnipeSentry, Capture, GetAmmo, MeleeAttack, Engineer, GetHealth,
     EscapeSpawn, EscapeDanger, Followbot]

  /** Every priority is declared once, and a later declaration outranks an
      earlier one, so distinct priorities have distinct values. */
  lemma PriorityOrder()
    ensures forall p: Priority :: p in Declared
    ensures forall i, j | 0 <= i < j < |Declared| :: Rank(Declared[i]) < Rank(Declared[j])
    ensures forall p: Priority, q: Priority :: Rank(p) == Rank(q) ==> p == q
  {
    forall p: Priority ensures p in Declared && Declared[Position(p)] == p {
      DeclaredAt(p);
    }
    forall i | 0 <= i < |Declared| ensures Rank(Declared[i]) == if i == 0 then 0 else i + 4 {
      RankAt(i);
    }
  }

  lemma DeclaredAt(p: Priority)
    ensures Declared[Position(p)] == p
  {
    match p
    case NoPriority => case Patrol => case LowPrioGetHealth => case StayNear =>
    case RunReload => case RunSafeReload => case SnipeSentry => case Capture =>
    case GetAmmo => case MeleeAttack => case Engineer => case GetHealth =>
    case EscapeSpawn => case EscapeDanger => case Followbot =>
  }

  lemma RankAt(i: nat)
    requires i < |Declared|
    ensures Rank(Declared[i]) == if i == 0 then 0 else i + 4
  {
  }

  /** Where a priority sits in the declaration. */
  function Position(p: Priority): (i: nat)
    ensures i < |Declared|
  {
    if p == NoPriority then 0 else Rank(p) - 4
  }

  // ---------------------------------------------------------------------
  // The engine's state

  /** The strict-failure record: where and when the last failure with
      traces on happened, and how many in a row. */
  datatype Strict = Strict(dest: Vec3, tick: int, count: int)

  /** Why the last request failed (`m_sLastFailureReason`); `Pending` is a
      strict failure below its threshold, `Fallback` one that retries with
      traces off, `Abandoned` the reason given to `AbandonPath`. */
  datatype Failure =
    | NoFailure | Warping | NotReady | PriorityTooLow | NoLocalArea | NoDestinationArea
    | NoSolution | StartEndSame | EngineError | DisconnectedAreas
    | Pending(cause: string, count: int, threshold: int)
    | Fallback(cause: string)
    | Abandoned(reason: string)

  datatype Engine = Engine(
    nav: Option<MapState>,
    crumbs: seq<Crumb>,
    lastCrumb: Crumb,
    priority: Priority,
    lastDestination: Vec3,
    navToLocal: bool,
    repathOnFail: bool,
    repathRequested: bool,
    ignoreTraces: bool,
    nextRepathTick: int,
    strict: Strict,
    cache: Cache,
    cacheDirty: bool,
    pathDir: Vec3,
    lookTarget: Vec3,
    failure: Failure)

  /** Whether a path is being followed. */
  function IsPathing(e: Engine): (r: bool)
    ensures r <==> e.crumbs != []
  {
    |e.crumbs| > 0
  }

  /** Every crumb of the trail belongs to an area. */
  predicate Placed(crumbs: seq<Crumb>) {
    forall k | 0 <= k < |crumbs| :: crumbs[k].area.Some?
  }

  // ---------------------------------------------------------------------
  // The emergency fallback (`ShouldUseEmergencyFallback` in `NavTo`)

  /** Two destinations within 650 units count as the same. */
  const SAME_DESTINATION_RADIUS_SQ: real := 422500.0

  /** A patrol falls back after its first strict failure, anything else
      after its second. */
  function Threshold(p: Priority): (r: int)
    ensures 1 <= r <= 2
    ensures r == 1 <==> p == Patrol
  {
    if p == Patrol then 1 else 2
  }

  /** A failure repeats the previous one: the same destination, and a
      previous failure no more than `windowTicks` ago. */
  predicate Repeats(s: Strict, dest: Vec3, now: int, windowTicks: int) {
    DistSq(s.dest, dest) <= SAME_DESTINATION_RADIUS_SQ && s.tick > 0 && now - s.tick <= windowTicks
  }

  /** Records a failure with traces on and says whether to retry with
      traces off. With traces already off nothing is recorded and there is
      no retry, so a request retries at most once. */
  function StrictFallback(s: Strict, dest: Vec3, p: Priority, ignoreTraces: bool,
                          now: int, windowTicks: int): (r: (bool, Strict))
    ensures ignoreTraces ==> r == (false, s)
    ensures !ignoreTraces ==> r.1.dest == dest && r.1.tick == now
    ensures s.count >= 0 ==>
      (r.0 <==> !ignoreTraces && (p == Patrol || (Repeats(s, dest, now, windowTicks) && s.count >= 1)))
    ensures r.0 ==> r.1.count == 0
    ensures !r.0 && !ignoreTraces && s.count >= 0 ==> 1 <= r.1.count < Threshold(p)
  {
    if ignoreTraces then (false, s)
    else
      var count := if Repeats(s, dest, now, windowTicks) then s.count + 1 else 1;
      if count < Threshold(p) then (false, Strict(dest, now, count))
      else (true, Strict(dest, now, 0))
  }

  /** The count never leaves {0, 1}. */
  lemma StrictCountBounded(s: Strict, dest: Vec3, p: Priority, ignoreTraces: bool,
                           now: int, windowTicks: int)
    requires 0 <= s.count <= 1
    ensures 0 <= StrictFallback(s, dest, p, ignoreTraces, now, windowTicks).1.count <= 1
  {
  }

  /** From a clean record, a non-patrol request falls back on its second
      failure at the same destination within the window, not its first. */
  lemma SecondFailureFallsBack(s: Strict, dest: Vec3, p: Priority, t1: int, t2: int, windowTicks: int)
    requires s.count == 0 && p != Patrol
    requires 0 < t1 <= t2 <= t1 + windowTicks
    ensures var first := StrictFallback(s, dest, p, false, t1, windowTicks);
      && !first.0
      && StrictFallback(first.1, dest, p, false, t2, windowTicks).0
  {
    assert StrictFallback(s, dest, p, false, t1, windowTicks) == (false, Strict(dest, t1, 1));
    assert Sub(dest, dest) == Vec3(0.0, 0.0, 0.0);
    assert Repeats(Strict(dest, t1, 1), dest, t2, windowTicks);
  }

  /** A failure at another destination, or after the window, starts the
      count over: a non-patrol request does not fall back on it. */
  lemma FreshFailureWaits(s: Strict, dest: Vec3, p: Priority, now: int, windowTicks: int)
    requires p != Patrol && !Repeats(s, dest, now, windowTicks)
    ensures StrictFallback(s, dest, p, false, now, windowTicks) == (false, Strict(dest, now, 1))
  {
  }

  // ---------------------------------------------------------------------
  // Searching a reason (`std::string::find`)

  /** `t` occurs in `s` at position `i`. */
  predicate OccursAt(s: string, t: string, i: nat) {
    i + |t| <= |s| && s[i..i + |t|] == t
  }

  /** `t` occurs somewhere in `s`. */
  predicate Mentions(s: string, t: string) {
    exists i: nat | i <= |s| :: OccursAt(s, t, i)
  }

  /** The first position at or after `from` where `t` occurs in `s`. */
  function FindFrom(s: string, t: string, from: nat): (r: Option<nat>)
    ensures r.Some? ==> from <= r.value && OccursAt(s, t, r.value)
    ensures r.Some? ==> forall i: nat | from <= i < r.value :: !OccursAt(s, t, i)
    ensures r.None? ==> forall i: nat | from <= i :: !OccursAt(s, t, i)
    decreases |s| + 1 - from
  {
    if from + |t| > |s| then None
    else if s[from..from + |t|] == t then Some(from)
    else FindFrom(s, t, from + 1)
  }

  /** `find`: the first position where `t` occurs in `s`, if any. */
  function Find(s: string, t: string): (r: Option<nat>)
    ensures r.Some? <==> Mentions(s, t)
    ensures r.Some? ==> OccursAt(s, t, r.value) && forall i: nat | i < r.value :: !OccursAt(s, t, i)
  {
    FindFrom(s, t, 0)
  }

  // ---------------------------------------------------------------------
  // Ending a path early

  /** How long to wait before repathing after abandoning a path: longer
      when the reason names a blacklist or being stuck. */
  function RepathDelay(reason: string): (d: real)
    ensures d == (if Mentions(reason, "Blacklisted") || Mentions(reason, "Stuck") then 0.45 else 0.2)
  {
    if Find(reason, "Blacklisted").Some? || Find(reason, "Stuck").Some? then 0.45 else 0.2
  }

  function MaxInt(a: int, b: int): int { if a >= b then a else b }

  /** `AbandonPath`: drops the trail and forgets the last crumb's area.
      With repath-on-fail set, it consumes the flag and asks for one
      repath, never earlier than one already scheduled; otherwise the
      request's priority is dropped. Without a map nothing happens. */
  function AbandonPath(e: Engine, reason: string, tick: int, interval: real): (r: Engine)
    requires interval > 0.0
    ensures e.nav.None? ==> r == e
    ensures e.nav.Some? ==>
      && !IsPathing(r) && r.crumbs == [] && r.lastCrumb == e.lastCrumb.(area := None)
      && r.failure == Abandoned(reason)
    ensures e.nav.Some? && e.repathOnFail ==>
      && r.repathRequested && !r.repathOnFail && r.priority == e.priority
      && r.nextRepathTick >= e.nextRepathTick && r.nextRepathTick >= tick
      && (r.nextRepathTick == e.nextRepathTick
          || r.nextRepathTick == TickcountTimestamp(RepathDelay(reason), tick, interval))
    ensures e.nav.Some? && !e.repathOnFail ==>
      && r.priority == NoPriority && !r.repathOnFail
      && r.repathRequested == e.repathRequested && r.nextRepathTick == e.nextRepathTick
    ensures r == e.(crumbs := r.crumbs, lastCrumb := r.lastCrumb, failure := r.failure,
                    repathRequested := r.repathRequested, repathOnFail := r.repathOnFail,
                    nextRepathTick := r.nextRepathTick, priority := r.priority)
  {
    if e.nav.None? then e
    else
      var dropped := e.(failure := Abandoned(reason), crumbs := [], lastCrumb := e.lastCrumb.(area := None));
      if e.repathOnFail then
        var at := TickcountTimestamp(RepathDelay(reason), tick, interval);
        dropped.(repathRequested := true, nextRepathTick := MaxInt(e.nextRepathTick, at), repathOnFail := false)
      else dropped.(priority := NoPriority)
  }

  /** Being stuck waits 0.45 s before the repath, at least the whole
      number of ticks in it. */
  lemma StuckWaitsLonger(e: Engine, tick: int, interval: real)
    requires interval > 0.0 && e.nav.Some? && e.repathOnFail
    ensures AbandonPath(e, "Stuck", tick, interval).nextRepathTick
            >= TickcountTimestamp(0.45, tick, interval)
  {
    assert OccursAt("Stuck", "Stuck", 0);
  }

  /** Any other reason, one that names neither a blacklist nor being stuck,
      waits 0.2 s. */
  lemma OtherReasonWaitsShorter(e: Engine, reason: string, tick: int, interval: real)
    requires interval > 0.0 && e.nav.Some? && e.repathOnFail
    requires !Mentions(reason, "Blacklisted") && !Mentions(reason, "Stuck")
    ensures AbandonPath(e, reason, tick, interval).nextRepathTick
            == MaxInt(e.nextRepathTick, TickcountTimestamp(0.2, tick, interval))
  {
  }

  /** A second abandonment right after the first changes nothing more
      about the trail, and with the flag consumed it drops the priority. */
  lemma AbandonTwice(e: Engine, reason: string, tick: int, interval: real)
    requires interval > 0.0 && e.nav.Some?
    ensures var once := AbandonPath(e, reason, tick, interval);
      var twice := AbandonPath(once, reason, tick, interval);
      && !IsPathing(twice) && twice.crumbs == once.crumbs && twice.lastCrumb == once.lastCrumb
      && twice.priority == NoPriority
  {
  }

  /** `CancelPath`: drops the trail, the last crumb's area, the path
      direction and the look target, the priority, ignore-traces and any
      scheduled repath. */
  function CancelPath(e: Engine): (r: Engine)
    ensures !IsPathing(r) && r.crumbs == [] && r.lastCrumb == e.lastCrumb.(area := None)
    ensures r.pathDir == Zero && r.lookTarget == Zero
    ensures r.priority == NoPriority && !r.ignoreTraces && r.nextRepathTick == 0
    ensures r == e.(crumbs := [], lastCrumb := r.lastCrumb, pathDir := Zero, lookTarget := Zero,
                    priority := NoPriority, ignoreTraces := false, nextRepathTick := 0)
  {
    e.(crumbs := [], lastCrumb := e.lastCrumb.(area := None), pathDir := Zero,
       priority := NoPriority, ignoreTraces := false, nextRepathTick := 0, lookTarget := Zero)
  }

  /** Cancelling is idempotent and leaves nothing to follow. */
  lemma CancelIdempotent(e: Engine)
    ensures CancelPath(CancelPath(e)) == CancelPath(e)
    ensures !IsPathing(CancelPath(e))
  {
  }
}
