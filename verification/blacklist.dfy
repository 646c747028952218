/** The free blacklist of the path graph: areas marked with a reason (a
    nearby sentry, a sticky, an enemy, ...) and a time. Each reason has a
    fixed penalty; a new mark replaces an old one of a different reason
    only when its penalty is at least as high, and renews one of the same
    reason to the later time. */
module Blacklist {
  import opened Util
  import opened Nav
  import opened Connection

  datatype Reason =
    | Init | Sentry | SentryMedium | SentryLow | Sticky
    | EnemyNormal | EnemyDormant | EnemyInvuln | BadBuildSpot

  datatype Entry = Entry(reason: Reason, time: int)

  /** A default-constructed entry. */
  const DefaultEntry: Entry := Entry(Init, 0)

  type FreeBlacklist = map<nat, Entry>

  predicate IsSentry(r: Reason) {
    r == Sentry || r == SentryMedium || r == SentryLow
  }

  /** The penalty table; sentry reasons weigh nothing while sentries are
      being ignored. Every value is finite, so the engine's checks for a
      non-finite penalty never fire. */
  function Penalty(e: Entry, ignoreSentry: bool): (p: real)
    ensures 0.0 <= p <= 3500.0
    ensures ignoreSentry && IsSentry(e.reason) ==> p == 0.0
    ensures e.reason == Init ==> p == 0.0
  {
    if ignoreSentry && IsSentry(e.reason) then 0.0
    else
      match e.reason
      case Sentry => 3500.0
      case EnemyInvuln => 1500.0
      case Sticky => 1000.0
      case SentryMedium => 800.0
      case SentryLow => 400.0
      case EnemyDormant => 200.0
      case EnemyNormal => 300.0
      case BadBuildSpot => 100.0
      case Init => 0.0
  }

  /** Outside of ignored sentries, every real reason has a positive penalty
      and the table ranks them: sentry, invulnerable enemy, sticky, medium
      sentry, low sentry, normal enemy, dormant enemy, bad build spot. */
  lemma PenaltyRanking(t: int)
    ensures forall r: Reason :: r != Init ==> Penalty(Entry(r, t), false) > 0.0
    ensures Penalty(Entry(Sentry, t), false) > Penalty(Entry(EnemyInvuln, t), false)
      > Penalty(Entry(Sticky, t), false) > Penalty(Entry(SentryMedium, t), false)
      > Penalty(Entry(SentryLow, t), false) > Penalty(Entry(EnemyNormal, t), false)
      > Penalty(Entry(EnemyDormant, t), false) > Penalty(Entry(BadBuildSpot, t), false)
  {
  }

  /** A mark of the same reason always wins; otherwise the incoming one wins
      when its penalty is at least the current one's. */
  function ShouldOverride(current: Entry, incoming: Entry, ignoreSentry: bool): (r: bool)
    ensures r <==> incoming.reason == current.reason
                   || Penalty(incoming, ignoreSentry) >= Penalty(current, ignoreSentry)
  {
    if incoming.reason == current.reason then true
    else Penalty(incoming, ignoreSentry) >= Penalty(current, ignoreSentry)
  }

  /** The override relation is total and transitive: it ranks marks by
      penalty. */
  lemma OverrideIsPreorder(a: Entry, b: Entry, c: Entry, ignoreSentry: bool)
    ensures ShouldOverride(a, b, ignoreSentry) || ShouldOverride(b, a, ignoreSentry)
    ensures ShouldOverride(a, b, ignoreSentry) && ShouldOverride(b, c, ignoreSentry)
            ==> ShouldOverride(a, c, ignoreSentry)
  {
  }

  /** One area's entry after a new mark: a same-reason mark keeps the later
      time, a weaker mark of another reason is ignored, anything else
      replaces the entry. */
  function Merge(existing: Option<Entry>, incoming: Entry, ignoreSentry: bool): (r: Entry)
    ensures r.reason == incoming.reason || (existing.Some? && r == existing.value)
    ensures existing.None? ==> r == incoming
  {
    match existing
    case None => incoming
    case Some(e) =>
      if e.reason == incoming.reason then e.(time := if e.time >= incoming.time then e.time else incoming.time)
      else if !ShouldOverride(e, incoming, ignoreSentry) then e
      else incoming
  }

  /** Renewing a mark keeps the later of the two times, and a mark never
      lowers an area's penalty. */
  lemma MergeKeepsMax(e: Entry, incoming: Entry, ignoreSentry: bool)
    ensures var r := Merge(Some(e), incoming, ignoreSentry);
      && (e.reason == incoming.reason ==>
            r.reason == e.reason && r.time >= e.time && r.time >= incoming.time
            && (r.time == e.time || r.time == incoming.time))
      && Penalty(r, ignoreSentry) >= Penalty(e, ignoreSentry)
  {
  }

  /** Applying the same mark twice is applying it once. */
  lemma MergeIdempotent(existing: Option<Entry>, incoming: Entry, ignoreSentry: bool)
    ensures var once := Merge(existing, incoming, ignoreSentry);
      Merge(Some(once), incoming, ignoreSentry) == once
  {
  }

  function Lookup(bl: FreeBlacklist, a: nat): Option<Entry> {
    if a in bl then Some(bl[a]) else None
  }

  /** Marks each area of `targets` in turn. */
  function MarkAll(bl: FreeBlacklist, targets: seq<nat>, incoming: Entry, ignoreSentry: bool): (r: FreeBlacklist)
    ensures r.Keys == bl.Keys + set k | k in targets
    ensures forall a | a in bl && a !in targets :: r[a] == bl[a]
    decreases |targets|
  {
    if |targets| == 0 then bl
    else
      var a := targets[0];
      MarkAll(bl[a := Merge(Lookup(bl, a), incoming, ignoreSentry)], targets[1..], incoming, ignoreSentry)
  }

  /** Each target ends up marked exactly once, repeats included, because a
      second mark changes nothing. */
  lemma {:induction false} MarkAllMerges(bl: FreeBlacklist, targets: seq<nat>, incoming: Entry, ignoreSentry: bool, a: nat)
    requires a in targets
    ensures MarkAll(bl, targets, incoming, ignoreSentry)[a] == Merge(Lookup(bl, a), incoming, ignoreSentry)
    decreases |targets|
  {
    var h := targets[0];
    var bl1 := bl[h := Merge(Lookup(bl, h), incoming, ignoreSentry)];
    assert MarkAll(bl, targets, incoming, ignoreSentry) == MarkAll(bl1, targets[1..], incoming, ignoreSentry);
    if a in targets[1..] {
      MarkAllMerges(bl1, targets[1..], incoming, ignoreSentry, a);
      if a == h {
        MergeIdempotent(Lookup(bl, h), incoming, ignoreSentry);
      }
    } else {
      assert a == h;
    }
  }

  /** The areas a mark around `origin` reaches: candidates whose center,
      raised to crouched-jump height, lies within `radius`, and that the
      origin can see when sight is required. */
  function Reached(areas: seq<Area>, candidates: seq<nat>, origin: Vec3, radius: real,
                   requireLOS: bool, visible: Vec3 -> bool): (r: seq<nat>)
    requires forall i | 0 <= i < |candidates| :: candidates[i] < |areas|
    ensures forall a :: a in r <==>
      && a in candidates
      && var p := areas[a].center.(z := areas[a].center.z + PLAYER_CROUCHED_JUMP_HEIGHT);
         Dot(Sub(p, origin), Sub(p, origin)) <= radius * radius
         && (requireLOS ==> visible(p))
  {
    if |candidates| == 0 then []
    else
      var a := candidates[0];
      var p := areas[a].center.(z := areas[a].center.z + PLAYER_CROUCHED_JUMP_HEIGHT);
      var rest := Reached(areas, candidates[1..], origin, radius, requireLOS, visible);
      assert forall b :: b in candidates <==> b == a || b in candidates[1..];
      if Dot(Sub(p, origin), Sub(p, origin)) <= radius * radius && (!requireLOS || visible(p))
      then [a] + rest
      else rest
  }

  /** `ApplyBlacklistAround` once the areas near the origin are collected. */
  function ApplyAround(bl: FreeBlacklist, areas: seq<Area>, candidates: seq<nat>, origin: Vec3,
                       radius: real, incoming: Entry, requireLOS: bool, visible: Vec3 -> bool,
                       ignoreSentry: bool): (r: FreeBlacklist)
    requires forall i | 0 <= i < |candidates| :: candidates[i] < |areas|
  {
    MarkAll(bl, Reached(areas, candidates, origin, radius, requireLOS, visible), incoming, ignoreSentry)
  }

  /** Areas the mark reaches are merged with it once; every other entry is
      left as it was, and no other area gains an entry. */
  lemma ApplyAroundEffect(bl: FreeBlacklist, areas: seq<Area>, candidates: seq<nat>, origin: Vec3,
                          radius: real, incoming: Entry, requireLOS: bool, visible: Vec3 -> bool,
                          ignoreSentry: bool, a: nat)
    requires forall i | 0 <= i < |candidates| :: candidates[i] < |areas|
    ensures var reached := Reached(areas, candidates, origin, radius, requireLOS, visible);
      var r := ApplyAround(bl, areas, candidates, origin, radius, incoming, requireLOS, visible, ignoreSentry);
      && (a in reached ==> a in r && r[a] == Merge(Lookup(bl, a), incoming, ignoreSentry))
      && (a !in reached ==> Lookup(r, a) == Lookup(bl, a))
  {
    var reached := Reached(areas, candidates, origin, radius, requireLOS, visible);
    if a in reached {
      MarkAllMerges(bl, reached, incoming, ignoreSentry, a);
    }
  }

  /** The entries of one reason (`GetFreeBlacklist(reason)`). */
  function OfReason(bl: FreeBlacklist, reason: Reason): (r: FreeBlacklist)
    ensures forall a :: a in r <==> a in bl && bl[a].reason == reason
    ensures forall a | a in r :: r[a] == bl[a]
  {
    map a | a in bl && bl[a].reason == reason :: bl[a]
  }

  /** The blacklist without the entries of one reason (`ClearFreeBlacklist(reason)`). */
  function ClearReason(bl: FreeBlacklist, reason: Reason): (r: FreeBlacklist)
    ensures forall a :: a in r <==> a in bl && bl[a].reason != reason
    ensures forall a | a in r :: r[a] == bl[a]
  {
    map a | a in bl && bl[a].reason != reason :: bl[a]
  }

  /** Clearing a reason and selecting it split the blacklist in two. */
  lemma ClearAndSelectPartition(bl: FreeBlacklist, reason: Reason)
    ensures ClearReason(bl, reason).Keys !! OfReason(bl, reason).Keys
    ensures ClearReason(bl, reason).Keys + OfReason(bl, reason).Keys == bl.Keys
    ensures ClearReason(ClearReason(bl, reason), reason) == ClearReason(bl, reason)
    ensures OfReason(ClearReason(bl, reason), reason) == map[]
  {
  }
}
