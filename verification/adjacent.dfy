/** Neighbour expansion for the path solver (`AdjacentCost`): for each
    connection of an area, the filters that drop it, the cached or freshly
    evaluated crossing geometry, and the cost of the emitted edge. The
    traces, the danger map and the area addresses are world inputs. */
module Adjacent {
  import opened Util
  import opened Nav
  import opened Connection
  import opened Blacklist
  import opened Solver
  import opened NavMap

  /** The engine state one expansion reads besides the map. */
  datatype Settings = Settings(
    now: int,
    interval: real,
    cacheSeconds: int,
    ignoreTraces: bool,
    hasLocal: bool,
    team: Team,
    entIndex: bv64,
    randomize: bool)

  /** What one expansion asks the game: square roots, ground heights, the
      danger of an area, whether a player fits through between two points,
      and where an area lives in memory. */
  datatype World = World(
    sqrt: real -> real,
    ground: Vec3 -> Option<real>,
    danger: nat -> real,
    passable: (Vec3, Vec3) -> bool,
    address: nat -> bv64)

  predicate ValidSettings(s: Settings) {
    s.interval > 0.0
  }

  /** When a freshly checked connection expires: the configured time, at
      most 45 seconds, from now. */
  function CacheExpiry(s: Settings): int
    requires ValidSettings(s)
  {
    TickcountTimestamp((if s.cacheSeconds < 45 then s.cacheSeconds else 45) as real, s.now, s.interval)
  }

  /** When a connection found unreachable expires: 90 seconds from now. */
  function UnreachableExpiry(s: Settings): int
    requires ValidSettings(s)
  {
    TickcountTimestamp(90.0, s.now, s.interval)
  }

  /** The team the cost model sees: none without a local player. */
  function EffectiveTeam(s: Settings): Team {
    if s.hasLocal then s.team else Unassigned
  }

  /** A single-precision value that has not overflowed. */
  predicate IsFinite(x: real) {
    -FLT_MAX <= x <= FLT_MAX
  }

  /** An area whose own cache entry marks it, for now, as a stuck spot. */
  predicate StuckBlocked(cache: Vischeck, n: nat, now: int) {
    && (n, n) in cache
    && cache[(n, n)].vischeck == NotVisible
    && Unexpired(cache[(n, n)].expireTick, now)
    && cache[(n, n)].stuckBlacklist
  }

  /** Cached geometry that the expansion reuses belongs to its connection:
      it starts at the first area's center and ends at the second's. */
  predicate CacheSane(areas: seq<Area>, cache: Vischeck) {
    forall k | k in cache && cache[k].passable && cache[k].vischeck == Visible ::
      && k.0 < |areas| && k.1 < |areas|
      && cache[k].points.current == areas[k.0].center
      && cache[k].points.next == areas[k.1].center
  }

  /** The caches of a fresh or reset map are sane. */
  lemma EmptyCacheSane(areas: seq<Area>)
    ensures CacheSane(areas, map[])
  {
  }

  // ---------------------------------------------------------------------
  // Vertical checks

  /** How far a connection rises at the crossing point, and whether it
      looks like a jump onto a stacked area or a jump too high to make. */
  datatype Vertical = Vertical(up: real, suspicious: bool, unreachable: bool)

  function Classify(cur: Area, next: Area, p: NavPoints, oneWay: bool, sqrt: real -> real): (v: Vertical)
    ensures v.up == p.centerNext.z - p.center.z
    ensures v.suspicious ==> !oneWay && v.up > PLAYER_CROUCHED_JUMP_HEIGHT * 0.8
    ensures v.unreachable ==> !oneWay && v.up > PLAYER_JUMP_HEIGHT * 1.35
    ensures !oneWay && v.up > PLAYER_CROUCHED_JUMP_HEIGHT + 10.0 ==> v.unreachable
  {
    var up := p.centerNext.z - p.center.z;
    var planar := Length(Flat(Sub(p.centerNext, p.center)), sqrt);
    var centerPlanar := Length(Flat(Sub(next.center, cur.center)), sqrt);
    var overlapX := Min(cur.se.x, next.se.x) - Max(cur.nw.x, next.nw.x);
    var overlapY := Min(cur.se.y, next.se.y) - Max(cur.nw.y, next.nw.y);
    var stacked := overlapX > PLAYER_WIDTH * 1.2 && overlapY > PLAYER_WIDTH * 1.2;
    var suspicious :=
      !oneWay && up > Max(PLAYER_CROUCHED_JUMP_HEIGHT * 0.8, 36.0) && stacked
      && centerPlanar < PLAYER_WIDTH * 0.75 && planar < PLAYER_WIDTH * 0.4;
    var unreachable :=
      !oneWay && (up > PLAYER_CROUCHED_JUMP_HEIGHT + 10.0
                  || (up > PLAYER_JUMP_HEIGHT * 1.35 && planar < PLAYER_WIDTH * 1.1));
    Vertical(up, suspicious, unreachable)
  }

  /** A connection the vertical checks refuse without a trace. */
  predicate Rejected(v: Vertical) {
    v.up > PLAYER_CROUCHED_JUMP_HEIGHT || v.suspicious || v.unreachable
  }

  // ---------------------------------------------------------------------
  // One connection's cache entry

  /** A cache entry the expansion may use as it is. */
  predicate Reusable(e: CachedConnection, now: int) {
    Unexpired(e.expireTick, now) && e.vischeck == Visible && e.passable
  }

  /** The entry for a connection checked afresh: the crossing points with
      the drop-down adjustment, then either a refusal by the vertical
      checks (or by the trace probe of a suspicious link) or an accepted
      connection with its evaluated cost. */
  function Recompute(areas: seq<Area>, s: Settings, w: World, cur: nat, n: nat,
                     entry: CachedConnection): (r: CachedConnection)
    requires ValidSettings(s) && cur < |areas| && n < |areas|
    ensures r.points.current == areas[cur].center && r.points.next == areas[n].center
    ensures r.stuckBlacklist == entry.stuckBlacklist
    ensures r.passable ==> r.vischeck == Visible && r.cachedCost >= 1.0 && r.expireTick == CacheExpiry(s)
    ensures !r.passable ==> r.vischeck == NotVisible && r.cachedCost == FLT_MAX
    ensures s.ignoreTraces ==> r.passable
  {
    var oneWay := IsOneWay(areas, Some(cur), Some(n));
    var p0 := DeterminePoints(areas[cur], areas[n]);
    var dd := HandleDropdown(p0.center, p0.next, oneWay, w.sqrt, w.ground);
    var p := p0.(center := dd.adjustedPos);
    var v := Classify(areas[cur], areas[n], p, oneWay, w.sqrt);
    var expiry := CacheExpiry(s);
    var unreachableExpiry := UnreachableExpiry(s);
    var refused := entry.(vischeck := NotVisible, passable := false, cachedCost := FLT_MAX,
                          points := p, dropdown := dd);
    if !s.ignoreTraces && Rejected(v) then
      refused.(expireTick := if v.unreachable then unreachableExpiry else expiry)
    else if !s.ignoreTraces && s.hasLocal && v.suspicious
            && !(w.passable(p.current, p.center) && w.passable(p.center, p.next)) then
      refused.(expireTick := unreachableExpiry)
    else
      var base := EvaluateConnectionCost(areas[n], p, dd, EffectiveTeam(s), w.sqrt);
      entry.(expireTick := expiry, vischeck := Visible, passable := true,
             points := p, dropdown := dd, cachedCost := base)
  }

  /** The trace probe of a suspicious link is never consulted: every
      suspicious link is refused by the vertical checks before it, so the
      outcome does not depend on the probe at all. */
  lemma ProbeNeverConsulted(areas: seq<Area>, s: Settings, w: World, cur: nat, n: nat,
                            entry: CachedConnection, probe: (Vec3, Vec3) -> bool)
    requires ValidSettings(s) && cur < |areas| && n < |areas|
    ensures Recompute(areas, s, w.(passable := probe), cur, n, entry) == Recompute(areas, s, w, cur, n, entry)
  {
    var w2 := w.(passable := probe);
    var oneWay := IsOneWay(areas, Some(cur), Some(n));
    var p0 := DeterminePoints(areas[cur], areas[n]);
    var dd := HandleDropdown(p0.center, p0.next, oneWay, w.sqrt, w.ground);
    var p := p0.(center := dd.adjustedPos);
    var v := Classify(areas[cur], areas[n], p, oneWay, w.sqrt);
    assert v.suspicious ==> Rejected(v);
  }

  /** A one-way connection is refused only for a rise above crouched-jump
      height, and no connection is refused for a rise of at most 80% of it. */
  lemma RefusalNeedsRise(cur: Area, next: Area, p: NavPoints, oneWay: bool, sqrt: real -> real)
    ensures var v := Classify(cur, next, p, oneWay, sqrt);
      && (oneWay ==> (Rejected(v) <==> v.up > PLAYER_CROUCHED_JUMP_HEIGHT))
      && (v.up <= PLAYER_CROUCHED_JUMP_HEIGHT * 0.8 ==> !Rejected(v))
  {
  }

  /** The entry after the cache has been consulted: reused as it is, or
      checked afresh. */
  function Settle(areas: seq<Area>, s: Settings, w: World, cur: nat, n: nat,
                  entry: CachedConnection): (r: CachedConnection)
    requires ValidSettings(s) && cur < |areas| && n < |areas|
    ensures Reusable(entry, s.now) ==> r == entry
    ensures !Reusable(entry, s.now) ==> r == Recompute(areas, s, w, cur, n, entry)
    ensures r.passable ==> r.vischeck == Visible
  {
    if Reusable(entry, s.now) then entry else Recompute(areas, s, w, cur, n, entry)
  }

  /** A base cost that is not a finite positive value is evaluated again
      from the entry's own geometry. */
  function Rebase(e: CachedConnection, next: Area, s: Settings, w: World): (r: CachedConnection)
    ensures r == e.(cachedCost := r.cachedCost)
    ensures IsFinite(e.cachedCost) && e.cachedCost > 0.0 ==> r == e
    ensures !(IsFinite(e.cachedCost) && e.cachedCost > 0.0) ==> r.cachedCost >= 1.0
  {
    if IsFinite(e.cachedCost) && e.cachedCost > 0.0 then e
    else e.(cachedCost := EvaluateConnectionCost(next, e.points, e.dropdown, EffectiveTeam(s), w.sqrt))
  }

  // ---------------------------------------------------------------------
  // The cost of an emitted edge

  /** The surcharges on top of the distance, when traces are not ignored. */
  function Surcharge(m: MapState, s: Settings, w: World, key: Key, penalty: real): (c: real)
    ensures 0.0 <= c <= 350.0 + 220.0 + 160.0
    ensures key in m.stuckTime && Unexpired(m.stuckTime[key].expireTick, s.now) ==> c >= 12.0
  {
    var blacklist :=
      if !m.freeBlacklistBlocked && penalty > 0.0 && IsFinite(penalty) then Clamp(penalty * 0.2, 0.0, 350.0) else 0.0;
    var danger := Clamp(w.danger(key.1) * 0.02, 0.0, 220.0);
    var stuck :=
      if key in m.stuckTime && Unexpired(m.stuckTime[key].expireTick, s.now)
      then Clamp(m.stuckTime[key].timeStuck as real * 18.0, 12.0, 160.0)
      else 0.0;
    blacklist + danger + stuck
  }

  /** The edge cost before jitter: the distance between the two centers
      (at least 1) plus the surcharges, or 1.2 times the distance when
      traces are ignored. */
  function FinalCost(m: MapState, s: Settings, w: World, key: Key, p: NavPoints, penalty: real): (c: real)
    ensures var d := Max(Length(Sub(p.next, p.current), w.sqrt), 1.0);
      && c >= d
      && (s.ignoreTraces ==> c == d * 1.2)
      && (!s.ignoreTraces ==> c <= d + 730.0)
      && (!s.ignoreTraces && key in m.stuckTime && Unexpired(m.stuckTime[key].expireTick, s.now) ==> c >= d + 12.0)
  {
    var d := Max(Length(Sub(p.next, p.current), w.sqrt), 1.0);
    if s.ignoreTraces then d * 1.2 else d + Surcharge(m, s, w, key, penalty)
  }

  /** The deterministic noise of path randomisation: the low 16 bits of a
      64-bit linear congruential step over the area's address and the
      local player's index, as a fraction of 65536. The low 16 bits of a
      product and sum depend only on the low 16 bits of their operands, so
      the step is taken modulo 65536. */
  function Noise(address: bv64, entIndex: bv64): (r: real)
    ensures 0.0 <= r < 1.0
  {
    var x := ((address ^ entIndex) ^ 0xDEAD_BEEF) as int;
    var low := (x * 1664525 + 1013904223) % 65536;
    low as real / 65536.0
  }

  /** The jitter factor lies in [1, 1.15). */
  function Jitter(s: Settings, w: World, n: nat): (f: real)
    ensures 1.0 <= f < 1.15
    ensures !s.randomize ==> f == 1.0
  {
    if s.randomize then 1.0 + Noise(w.address(n), if s.hasLocal then s.entIndex else 0) * 0.15 else 1.0
  }

  // ---------------------------------------------------------------------
  // One connection, then all of them

  /** The outcome for one connection: the cost of the edge it emits, if
      any, and the cache afterwards. */
  datatype Step = Step(cost: Option<real>, cache: Vischeck)

  /** The blacklist penalty of entering `n`, unless the blacklist is
      switched off. */
  function PenaltyOf(m: MapState, s: Settings, n: nat): (p: real)
    ensures 0.0 <= p <= 3500.0
  {
    if !m.freeBlacklistBlocked && !s.ignoreTraces && n in m.freeBlacklist
    then Penalty(m.freeBlacklist[n], m.ignoreSentry)
    else 0.0
  }

  /** A cost within the float range, jittered, grows by less than 15%. */
  function Jittered(cost: real, f: real): (r: real)
    requires 1.0 <= cost <= FLT_MAX && 1.0 <= f < 1.15
    ensures cost <= r <= FLT_MAX * 1.15
  {
    MulNonNeg(cost, f - 1.0);
    MulNonNeg(cost, 1.15 - f);
    MulNonNeg(FLT_MAX - cost, 1.15);
    cost * f
  }

  /** The last part of a passable connection: the edge cost, jittered by
      `f`, and the entry stored back with a renewed expiry when the edge is
      emitted. */
  function Finish(m: MapState, s: Settings, w: World, cur: nat, n: nat, f: real,
                  e: CachedConnection, cache: Vischeck): (r: Step)
    requires ValidSettings(s) && 1.0 <= f < 1.15
    ensures (cur, n) in r.cache && r.cache == cache[(cur, n) := r.cache[(cur, n)]]
    ensures r.cache[(cur, n)] == e.(expireTick := r.cache[(cur, n)].expireTick)
    ensures r.cost.None? ==> r.cache[(cur, n)] == e
    ensures r.cost.Some? ==>
      && r.cache[(cur, n)].expireTick == CacheExpiry(s)
      && 1.0 <= r.cost.value <= FLT_MAX * 1.15
      && r.cost.value >= Max(Length(Sub(e.points.next, e.points.current), w.sqrt), 1.0)
  {
    var cost := FinalCost(m, s, w, (cur, n), e.points, PenaltyOf(m, s, n));
    if !IsFinite(cost) || cost <= 0.0 then Step(None, cache[(cur, n) := e])
    else
      Step(Some(Jittered(cost, f)), cache[(cur, n) := e.(expireTick := CacheExpiry(s))])
  }

  /** One connection to another valid area it links to, past the stuck
      check: the cache entry is consulted or filled, and a passable
      connection yields an edge unless its cost overflowed. An edge costs
      at least 1 and at most 1.15 times the largest float, and is never
      emitted along a connection cached as stuck. Only the connection's
      own entry changes; with a sane cache the edge costs at least the
      distance between the two centers and the cache stays sane. */
  function ExpandTo(m: MapState, s: Settings, w: World, cur: nat, n: nat,
                    cache: Vischeck): (r: Step)
    requires ValidSettings(s) && cur < |m.areas| && n < |m.areas|
    ensures r.cost.Some? ==>
      && 1.0 <= r.cost.value <= FLT_MAX * 1.15
      && !((cur, n) in cache
           && Unexpired(cache[(cur, n)].expireTick, s.now)
           && !cache[(cur, n)].passable
           && cache[(cur, n)].stuckBlacklist)
    ensures (cur, n) in r.cache && r.cache == cache[(cur, n) := r.cache[(cur, n)]]
    ensures CacheSane(m.areas, cache) ==>
      && CacheSane(m.areas, r.cache)
      && (r.cost.Some? ==>
            r.cost.value >= Max(Length(Sub(m.areas[n].center, m.areas[cur].center), w.sqrt), 1.0))
  {
    var key := (cur, n);
    var entry := if key in cache then cache[key] else DefaultConnection;
    if Unexpired(entry.expireTick, s.now) && !entry.passable && entry.stuckBlacklist then
      Step(None, cache[key := entry])
    else
      var e1 := Settle(m.areas, s, w, cur, n, entry);
      SettleSane(m.areas, s, w, cur, n, entry, cache);
      if !e1.passable then Step(None, cache[key := e1])
      else Finish(m, s, w, cur, n, Jitter(s, w, n), Rebase(e1, m.areas[n], s, w), cache)
  }

  /** `AdjacentCost` for one connection: null and self links, invalid or
      unconnected areas and stuck spots yield nothing. An edge leads to
      another valid area the current one links to, never into a stuck
      spot. Only entries keyed from the current area to another change. */
  function Expand(m: MapState, s: Settings, w: World, cur: nat, link: Link,
                  cache: Vischeck): (r: Step)
    requires ValidSettings(s) && cur < |m.areas|
    ensures r.cost.Some? ==>
      && link.area.Some? && link.area.value != cur && link.area.value < |m.areas|
      && HasDirectConnection(m.areas, Some(cur), link.area)
      && !StuckBlocked(cache, link.area.value, s.now)
      && 1.0 <= r.cost.value <= FLT_MAX * 1.15
    ensures OwnEntriesOnly(cur, cache, r.cache)
    ensures forall a: nat :: StuckBlocked(r.cache, a, s.now) == StuckBlocked(cache, a, s.now)
    ensures CacheSane(m.areas, cache) ==>
      && CacheSane(m.areas, r.cache)
      && (r.cost.Some? ==>
            r.cost.value >= Max(Length(Sub(m.areas[link.area.value].center, m.areas[cur].center), w.sqrt), 1.0))
  {
    var next := link.area;
    if next.None? || next.value == cur then Step(None, cache)
    else if !IsAreaValid(m, Some(cur)) || !IsAreaValid(m, next)
            || !HasDirectConnection(m.areas, Some(cur), next) then Step(None, cache)
    else if StuckBlocked(cache, next.value, s.now) then Step(None, cache)
    else ExpandTo(m, s, w, cur, next.value, cache)
  }

  // ---------------------------------------------------------------------
  // What the expansion records in the cache

  /** The configured cache time, at most 45 seconds, lasts at least one
      tick, so a freshly checked entry outlives the current tick
      (`LiveExpiry`). */
  predicate Live(s: Settings) {
    ValidSettings(s) && s.interval <= (if s.cacheSeconds < 45 then s.cacheSeconds else 45) as real
  }

  /** The cache time lasts a tick exactly when a fresh entry's expiry is
      after the current tick. */
  lemma LiveExpiry(s: Settings)
    requires ValidSettings(s)
    ensures Live(s) <==> CacheExpiry(s) > s.now
  {
    var secs := (if s.cacheSeconds < 45 then s.cacheSeconds else 45) as real;
    if s.interval <= secs {
      QuotientAtLeastOne(secs, s.interval);
    } else if secs >= 0.0 {
      QuotientBelowOne(secs, s.interval);
    }
  }

  lemma QuotientAtLeastOne(a: real, b: real)
    requires 0.0 < b <= a
    ensures a / b >= 1.0
  {
    assert a / b * b == a;
  }

  lemma QuotientBelowOne(a: real, b: real)
    requires 0.0 <= a < b
    ensures a / b < 1.0
  {
    assert a / b * b == a;
  }

  /** The entry of the connection from a to b says checked, visible and
      passable until the expiry of a fresh check. */
  predicate Recorded(s: Settings, cache: Vischeck, a: nat, b: nat)
    requires ValidSettings(s)
  {
    && (a, b) in cache && cache[(a, b)].passable && cache[(a, b)].vischeck == Visible
    && cache[(a, b)].expireTick == CacheExpiry(s)
  }

  /** Every pair recorded in `cache` is still recorded in `cache'`. */
  ghost predicate KeepsRecords(s: Settings, cache: Vischeck, cache': Vischeck)
    requires ValidSettings(s)
  {
    forall x: nat, y: nat | Recorded(s, cache, x, y) :: Recorded(s, cache', x, y)
  }

  /** A connection that yields an edge is left recorded, and once fresh
      entries outlive the tick, a recorded connection stays recorded: its
      entry is reused as it is and stored back with the same expiry. */
  lemma ExpandToRecords(m: MapState, s: Settings, w: World, cur: nat, n: nat, cache: Vischeck)
    requires ValidSettings(s) && cur < |m.areas| && n < |m.areas|
    ensures var r := ExpandTo(m, s, w, cur, n, cache);
      && (r.cost.Some? ==> Recorded(s, r.cache, cur, n))
      && (Live(s) && Recorded(s, cache, cur, n) ==> Recorded(s, r.cache, cur, n))
  {
    var key := (cur, n);
    var entry := if key in cache then cache[key] else DefaultConnection;
    LiveExpiry(s);
    if !(Unexpired(entry.expireTick, s.now) && !entry.passable && entry.stuckBlacklist) {
      var e1 := Settle(m.areas, s, w, cur, n, entry);
      if e1.passable {
        var e := Rebase(e1, m.areas[n], s, w);
        assert e.passable && e.vischeck == Visible && e.expireTick == e1.expireTick;
        if Live(s) && Recorded(s, cache, cur, n) {
          assert Reusable(entry, s.now);
        }
      }
    }
  }

  /** The same for one link of the current area: an emitted edge leaves
      its connection recorded, and with live fresh entries every recorded
      connection stays recorded. */
  lemma ExpandRecords(m: MapState, s: Settings, w: World, cur: nat, link: Link, cache: Vischeck)
    requires ValidSettings(s) && cur < |m.areas|
    ensures var r := Expand(m, s, w, cur, link, cache);
      && (r.cost.Some? ==> Recorded(s, r.cache, cur, link.area.value))
      && (Live(s) ==> KeepsRecords(s, cache, r.cache))
  {
    var next := link.area;
    if next.Some? && next.value != cur && IsAreaValid(m, Some(cur)) && IsAreaValid(m, next)
       && HasDirectConnection(m.areas, Some(cur), next) && !StuckBlocked(cache, next.value, s.now) {
      ExpandToRecords(m, s, w, cur, next.value, cache);
    }
  }

  /** A link of the tail is a link of the list. */
  lemma LinksToTail(links: seq<Link>)
    requires |links| > 0
    ensures forall t: nat :: LinksTo(links[1..], t) ==> LinksTo(links, t)
  {
    forall t: nat | LinksTo(links[1..], t) ensures LinksTo(links, t) {
      var k :| 0 <= k < |links[1..]| && links[1..][k].area == Some(t);
      assert links[k + 1].area == Some(t);
    }
  }

  /** An edge `AdjacentCost` may emit out of `cur` after scanning `links`
      against `cache`: to another area of the mesh that `cur` links to
      directly, not into a stuck spot, at a cost of at least 1. */
  predicate Admissible(m: MapState, now: int, cur: nat, links: seq<Link>,
                       cache: Vischeck, e: Edge)
    requires cur < |m.areas|
  {
    && e.to != cur && e.to < |m.areas|
    && LinksTo(links, e.to)
    && HasDirectConnection(m.areas, Some(cur), Some(e.to))
    && !StuckBlocked(cache, e.to, now)
    && 1.0 <= e.cost <= FLT_MAX * 1.15
  }

  /** Edges admissible for the tail of the links, scanned against a cache
      that agrees on every stuck spot, are admissible for the whole list. */
  lemma AdmissibleConcat(m: MapState, now: int, cur: nat, links: seq<Link>,
                         cache: Vischeck, cache': Vischeck,
                         head: seq<Edge>, tail: seq<Edge>)
    requires |links| > 0 && cur < |m.areas|
    requires forall a: nat :: StuckBlocked(cache', a, now) == StuckBlocked(cache, a, now)
    requires forall i | 0 <= i < |head| :: Admissible(m, now, cur, links, cache, head[i])
    requires forall i | 0 <= i < |tail| :: Admissible(m, now, cur, links[1..], cache', tail[i])
    ensures forall i | 0 <= i < |head + tail| :: Admissible(m, now, cur, links, cache, (head + tail)[i])
  {
    LinksToTail(links);
    forall i | 0 <= i < |head + tail| ensures Admissible(m, now, cur, links, cache, (head + tail)[i]) {
      if i >= |head| {
        assert (head + tail)[i] == tail[i - |head|];
      }
    }
  }

  /** The connections of `links` in order, threading the cache. */
  function ExpandAll(m: MapState, s: Settings, w: World, cur: nat, links: seq<Link>,
                     cache: Vischeck): (r: (seq<Edge>, Vischeck))
    requires ValidSettings(s) && cur < |m.areas|
    ensures forall i | 0 <= i < |r.0| :: Admissible(m, s.now, cur, links, cache, r.0[i])
    ensures OwnEntriesOnly(cur, cache, r.1)
    decreases |links|
  {
    if |links| == 0 then ([], cache)
    else
      var st := Expand(m, s, w, cur, links[0], cache);
      var rest := ExpandAll(m, s, w, cur, links[1..], st.cache);
      var head := if st.cost.Some? then [Edge(links[0].area.value, st.cost.value)] else [];
      ExpandHead(m, s, w, cur, links, cache);
      AdmissibleConcat(m, s.now, cur, links, cache, st.cache, head, rest.0);
      OwnEntriesTrans(cur, cache, st.cache, rest.1);
      (head + rest.0, rest.1)
  }

  /** The edge the first link yields, if any, is admissible. */
  lemma ExpandHead(m: MapState, s: Settings, w: World, cur: nat, links: seq<Link>, cache: Vischeck)
    requires ValidSettings(s) && cur < |m.areas| && |links| > 0
    ensures var st := Expand(m, s, w, cur, links[0], cache);
      var head := if st.cost.Some? then [Edge(links[0].area.value, st.cost.value)] else [];
      forall i | 0 <= i < |head| :: Admissible(m, s.now, cur, links, cache, head[i])
  {
    var st := Expand(m, s, w, cur, links[0], cache);
    if st.cost.Some? {
      assert links[0].area == Some(links[0].area.value);
      assert LinksTo(links, links[0].area.value);
    }
  }

  /** Only the entries from `cur` to another area differ. */
  ghost predicate OwnEntriesOnly(cur: nat, c: Vischeck, c': Vischeck) {
    forall k: Key | k.0 != cur || k.1 == cur :: (k in c' <==> k in c) && (k in c ==> c'[k] == c[k])
  }

  lemma OwnEntriesTrans(cur: nat, c0: Vischeck, c1: Vischeck, c2: Vischeck)
    requires OwnEntriesOnly(cur, c0, c1) && OwnEntriesOnly(cur, c1, c2)
    ensures OwnEntriesOnly(cur, c0, c2)
  {
  }

  /** With a sane cache, the cache stays sane. */
  lemma {:induction false} ExpandAllSane(m: MapState, s: Settings, w: World, cur: nat, links: seq<Link>,
                                         cache: Vischeck)
    requires ValidSettings(s) && cur < |m.areas| && CacheSane(m.areas, cache)
    ensures CacheSane(m.areas, ExpandAll(m, s, w, cur, links, cache).1)
    decreases |links|
  {
    if |links| > 0 {
      var st := Expand(m, s, w, cur, links[0], cache);
      ExpandAllSane(m, s, w, cur, links[1..], st.cache);
    }
  }

  /** Scanning all connections keeps every connection recorded before,
      whenever fresh entries outlive the tick. */
  lemma {:induction false} ExpandAllKeeps(m: MapState, s: Settings, w: World, cur: nat, links: seq<Link>,
                                          cache: Vischeck)
    requires Live(s) && cur < |m.areas|
    ensures KeepsRecords(s, cache, ExpandAll(m, s, w, cur, links, cache).1)
    decreases |links|
  {
    if |links| > 0 {
      var st := Expand(m, s, w, cur, links[0], cache);
      ExpandRecords(m, s, w, cur, links[0], cache);
      ExpandAllKeeps(m, s, w, cur, links[1..], st.cache);
    }
  }

  /** Scanning all connections leaves every emitted edge's connection
      recorded, and keeps every connection recorded before, whenever fresh
      entries outlive the tick. */
  lemma {:induction false} ExpandAllRecords(m: MapState, s: Settings, w: World, cur: nat, links: seq<Link>,
                                            cache: Vischeck)
    requires Live(s) && cur < |m.areas|
    ensures var r := ExpandAll(m, s, w, cur, links, cache);
      && (forall i | 0 <= i < |r.0| :: Recorded(s, r.1, cur, r.0[i].to))
      && KeepsRecords(s, cache, r.1)
    decreases |links|
  {
    ExpandAllKeeps(m, s, w, cur, links, cache);
    if |links| > 0 {
      var st := Expand(m, s, w, cur, links[0], cache);
      var rest := ExpandAll(m, s, w, cur, links[1..], st.cache);
      var head := if st.cost.Some? then [Edge(links[0].area.value, st.cost.value)] else [];
      ExpandRecords(m, s, w, cur, links[0], cache);
      ExpandAllKeeps(m, s, w, cur, links[1..], st.cache);
      ExpandAllRecords(m, s, w, cur, links[1..], st.cache);
      assert ExpandAll(m, s, w, cur, links, cache) == (head + rest.0, rest.1);
      RecordedConcat(s, rest.1, cur, head, rest.0);
    }
  }

  lemma RecordedConcat(s: Settings, c: Vischeck, cur: nat, head: seq<Edge>, tail: seq<Edge>)
    requires ValidSettings(s)
    requires forall i | 0 <= i < |head| :: Recorded(s, c, cur, head[i].to)
    requires forall i | 0 <= i < |tail| :: Recorded(s, c, cur, tail[i].to)
    ensures forall i | 0 <= i < |head + tail| :: Recorded(s, c, cur, (head + tail)[i].to)
  {
    forall i | 0 <= i < |head + tail| ensures Recorded(s, c, cur, (head + tail)[i].to) {
      if i >= |head| {
        assert (head + tail)[i] == tail[i - |head|];
      }
    }
  }

  /** An edge that costs at least the distance between the centers of
      the two areas. */
  predicate Spans(m: MapState, w: World, cur: nat, e: Edge)
    requires cur < |m.areas|
  {
    e.to < |m.areas| && e.cost >= Max(Length(Sub(m.areas[e.to].center, m.areas[cur].center), w.sqrt), 1.0)
  }

  predicate AllSpan(m: MapState, w: World, cur: nat, edges: seq<Edge>)
    requires cur < |m.areas|
  {
    forall i | 0 <= i < |edges| :: Spans(m, w, cur, edges[i])
  }

  lemma SpansConcat(m: MapState, w: World, cur: nat, head: seq<Edge>, tail: seq<Edge>)
    requires cur < |m.areas| && AllSpan(m, w, cur, head) && AllSpan(m, w, cur, tail)
    ensures AllSpan(m, w, cur, head + tail)
  {
    forall i | 0 <= i < |head + tail| ensures Spans(m, w, cur, (head + tail)[i]) {
      if i >= |head| {
        assert (head + tail)[i] == tail[i - |head|];
      }
    }
  }

  /** With a sane cache, every edge costs at least the distance between
      the two centers. */
  lemma {:induction false} ExpandAllDistance(m: MapState, s: Settings, w: World, cur: nat, links: seq<Link>,
                                             cache: Vischeck)
    requires ValidSettings(s) && cur < |m.areas| && CacheSane(m.areas, cache)
    ensures AllSpan(m, w, cur, ExpandAll(m, s, w, cur, links, cache).0)
    decreases |links|
  {
    if |links| > 0 {
      var st := Expand(m, s, w, cur, links[0], cache);
      var rest := ExpandAll(m, s, w, cur, links[1..], st.cache);
      var head := if st.cost.Some? then [Edge(links[0].area.value, st.cost.value)] else [];
      ExpandAllDistance(m, s, w, cur, links[1..], st.cache);
      SpansConcat(m, w, cur, head, rest.0);
      assert ExpandAll(m, s, w, cur, links, cache).0 == head + rest.0;
    }
  }

  /** `AdjacentCost`: the edges out of an area and the connection cache
      afterwards; nothing from a null area. Every edge leads to another
      valid area that the area links to directly, never into a stuck spot,
      and costs at least 1 (at least the distance between the centers when
      the cache is sane). Only entries from the area to another change.
      Every edge's connection is left recorded as checked and passable,
      and once fresh entries outlive the tick nothing recorded is undone. */
  function AdjacentCost(m: MapState, s: Settings, w: World, cur: Option<nat>): (r: (seq<Edge>, MapState))
    requires ValidSettings(s) && (cur.Some? ==> cur.value < |m.areas|)
    ensures cur.None? ==> r == ([], m)
    ensures r.1 == m.(vischeck := r.1.vischeck)
    ensures cur.Some? ==> forall i | 0 <= i < |r.0| ::
      && r.0[i].to != cur.value && IsAreaValid(m, Some(r.0[i].to))
      && LinksTo(m.areas[cur.value].connections, r.0[i].to)
      && HasDirectConnection(m.areas, cur, Some(r.0[i].to))
      && !StuckBlocked(m.vischeck, r.0[i].to, s.now)
      && 1.0 <= r.0[i].cost <= FLT_MAX * 1.15
    ensures cur.Some? ==> OwnEntriesOnly(cur.value, m.vischeck, r.1.vischeck)
    ensures cur.Some? && Live(s) ==>
      && (forall i | 0 <= i < |r.0| :: Recorded(s, r.1.vischeck, cur.value, r.0[i].to))
      && KeepsRecords(s, m.vischeck, r.1.vischeck)
    ensures cur.Some? && CacheSane(m.areas, m.vischeck) ==>
      && CacheSane(m.areas, r.1.vischeck)
      && AllSpan(m, w, cur.value, r.0)
  {
    if cur.None? then ([], m)
    else
      var out := ExpandAll(m, s, w, cur.value, m.areas[cur.value].connections, m.vischeck);
      assert Live(s) ==> KeepsRecords(s, m.vischeck, out.1) by {
        if Live(s) {
          ExpandAllRecords(m, s, w, cur.value, m.areas[cur.value].connections, m.vischeck);
        }
      }
      assert Live(s) ==> forall i | 0 <= i < |out.0| :: Recorded(s, out.1, cur.value, out.0[i].to) by {
        if Live(s) {
          ExpandAllRecords(m, s, w, cur.value, m.areas[cur.value].connections, m.vischeck);
        }
      }
      if CacheSane(m.areas, m.vischeck) then
        ExpandAllSane(m, s, w, cur.value, m.areas[cur.value].connections, m.vischeck);
        ExpandAllDistance(m, s, w, cur.value, m.areas[cur.value].connections, m.vischeck);
        (out.0, m.(vischeck := out.1))
      else (out.0, m.(vischeck := out.1))
  }

  // ---------------------------------------------------------------------
  // The graph the solver searches

  /** One expansion of the search: the edges out of area `a` and the
      cache as the cost model leaves it. Only the entries from `a` to
      another area are written; an index outside the mesh, which the
      search never expands, emits nothing. */
  function ExpandArea(m: MapState, s: Settings, w: World, c: Vischeck, a: nat): (r: (seq<Edge>, Vischeck))
    requires ValidSettings(s)
    ensures a >= |m.areas| ==> r == ([], c)
    ensures OwnEntriesOnly(a, c, r.1)
  {
    if a < |m.areas| then
      var x := AdjacentCost(m.(vischeck := c), s, w, Some(a));
      (x.0, x.1.vischeck)
    else ([], c)
  }

  /** The graph the solver searches: each expansion runs the cost model
      against the cache as the search has left it so far, and hands the
      cache it writes on to the next; no expansion touches an area's
      entries to itself, where stuck spots live. */
  function Neighbours(m: MapState, s: Settings, w: World): (r: (Vischeck, nat) -> (seq<Edge>, Vischeck))
    requires ValidSettings(s)
    ensures forall c: Vischeck, a: nat :: OwnEntriesOnly(a, c, r(c, a).1)
  {
    (c: Vischeck, a: nat) => ExpandArea(m, s, w, c, a)
  }

  /** A step of the search in the cache at hand: to another area of the
      mesh that the first links to directly, not into a stuck spot, and,
      once fresh entries outlive the tick, recorded as checked and
      passable. */
  predicate SearchStep(m: MapState, s: Settings, c: Vischeck, a: nat, b: nat) {
    && a < |m.areas| && b < |m.areas| && b != a
    && LinksTo(m.areas[a].connections, b)
    && HasDirectConnection(m.areas, Some(a), Some(b))
    && !StuckBlocked(c, b, s.now)
    && (Live(s) ==> Recorded(s, c, a, b))
  }

  ghost function StepOf(m: MapState, s: Settings): (Vischeck, nat, nat) -> bool {
    (c: Vischeck, a: nat, b: nat) => SearchStep(m, s, c, a, b)
  }

  /** The entries of an area to itself, where stuck spots live, are as in
      `c0`. */
  ghost predicate SameDiagonal(c0: Vischeck, c: Vischeck) {
    forall k: Key | k.0 == k.1 :: (k in c <==> k in c0) && (k in c0 ==> c[k] == c0[k])
  }

  ghost function InvOf(c0: Vischeck): Vischeck -> bool {
    (c: Vischeck) => SameDiagonal(c0, c)
  }

  /** Writing only an area's entries to other areas keeps the diagonal and
      every stuck spot. */
  lemma DiagonalKept(a: nat, now: int, c0: Vischeck, c: Vischeck, c': Vischeck)
    requires SameDiagonal(c0, c) && OwnEntriesOnly(a, c, c')
    ensures SameDiagonal(c0, c')
    ensures forall x: nat :: StuckBlocked(c', x, now) == StuckBlocked(c, x, now)
  {
    forall x: nat ensures StuckBlocked(c', x, now) == StuckBlocked(c, x, now) {
      var k: Key := (x, x);
      assert k.0 != a || k.1 == a;
    }
    forall k: Key | k.0 == k.1 ensures (k in c' <==> k in c0) && (k in c0 ==> c'[k] == c0[k]) {
      assert k.0 != a || k.1 == a;
    }
  }

  /** One expansion of the graph: it keeps the entries of every area to
      itself, its edges lead into the mesh, cost something and are search
      steps in the cache it leaves, and every step that held before still
      holds. */
  lemma NeighbourExpansion(m: MapState, s: Settings, w: World, c0: Vischeck, c: Vischeck, a: nat)
    requires ValidSettings(s) && SameDiagonal(c0, c)
    ensures var r := Neighbours(m, s, w)(c, a);
      && SameDiagonal(c0, r.1)
      && (forall k | 0 <= k < |r.0| :: r.0[k].to < |m.areas| && r.0[k].cost > 0.0 && SearchStep(m, s, r.1, a, r.0[k].to))
      && (forall x: nat, y: nat | SearchStep(m, s, c, x, y) :: SearchStep(m, s, r.1, x, y))
  {
    var r := Neighbours(m, s, w)(c, a);
    if a < |m.areas| {
      var ac := AdjacentCost(m.(vischeck := c), s, w, Some(a));
      assert r == (ac.0, ac.1.vischeck);
      DiagonalKept(a, s.now, c0, c, r.1);
    }
  }

  /** The graph, the search step and the kept diagonal fit the solver's
      requirements. */
  lemma NeighboursValid(m: MapState, s: Settings, w: World, c0: Vischeck)
    requires ValidSettings(s)
    ensures Graph(|m.areas|, Neighbours(m, s, w), StepOf(m, s), InvOf(c0))
  {
    var adj := Neighbours(m, s, w);
    var step := StepOf(m, s);
    var inv := InvOf(c0);
    forall c: Vischeck, a: nat | inv(c)
      ensures inv(adj(c, a).1)
      ensures forall k | 0 <= k < |adj(c, a).0| ::
        && adj(c, a).0[k].to < |m.areas| && adj(c, a).0[k].cost > 0.0
        && step(adj(c, a).1, a, adj(c, a).0[k].to)
      ensures forall x: nat, y: nat | step(c, x, y) :: step(adj(c, a).1, x, y)
    {
      NeighbourExpansion(m, s, w, c0, c, a);
    }
  }

  /** One step of a path: to a different area of the mesh that the
      previous one links to directly, and not into a stuck spot. */
  predicate ConnectedStep(m: MapState, a: Option<nat>, b: Option<nat>, now: int) {
    && a.Some? && b.Some? && a.value < |m.areas| && b.value != a.value
    && LinksTo(m.areas[a.value].connections, b.value)
    && !StuckBlocked(m.vischeck, b.value, now)
  }

  predicate FollowsConnections(m: MapState, path: seq<Option<nat>>, now: int) {
    forall i | 0 <= i < |path| - 1 :: ConnectedStep(m, path[i], path[i + 1], now)
  }

  /** The path search over this graph: what `FindPath` is handed. */
  function SearchPath(m: MapState, s: Settings, w: World, start: Option<nat>, end: Option<nat>,
                      sqrt: real -> real, fuel: nat): (r: (seq<Option<nat>>, Option<nat>, MapState))
    requires ValidSettings(s) && ValidPather(m.pather)
    ensures r.2 == m.(pather := r.2.pather, vischeck := r.2.vischeck)
    ensures SameDiagonal(m.vischeck, r.2.vischeck) && ValidPather(r.2.pather)
  {
    NeighboursValid(m, s, w, m.vischeck);
    FindPath(m, start, end, Neighbours(m, s, w), StepOf(m, s), InvOf(m.vischeck), sqrt, fuel)
  }

  /** A path found over this graph follows the connections of the mesh,
      as they stood before the search: the search writes no stuck spot. */
  lemma PathFollowsConnections(m: MapState, s: Settings, w: World, start: Option<nat>, end: Option<nat>,
                               sqrt: real -> real, fuel: nat)
    requires ValidSettings(s) && ValidPather(m.pather)
    ensures var r := SearchPath(m, s, w, start, end, sqrt, fuel);
      r.1 == Some(0) ==> FollowsConnections(m, r.0, s.now)
  {
    var r := SearchPath(m, s, w, start, end, sqrt, fuel);
    NeighboursValid(m, s, w, m.vischeck);
    if r.1 == Some(0) {
      var path := r.0;
      forall i | 0 <= i < |path| - 1 ensures ConnectedStep(m, path[i], path[i + 1], s.now) {
        assert SearchStep(m, s, r.2.vischeck, path[i].value, path[i + 1].value);
        var k: Key := (path[i + 1].value, path[i + 1].value);
        assert k.0 == k.1;
      }
    }
  }

  /** What the search hands back, code by code: nothing (and no code) on
      an inactive map, the start alone for an invalid start or end, no
      path when there is no solution, and otherwise a path of areas of the
      mesh from the start to the end, each step along a direct connection
      to another area. */
  lemma SearchPathShape(m: MapState, s: Settings, w: World, start: Option<nat>, end: Option<nat>,
                        sqrt: real -> real, fuel: nat)
    requires ValidSettings(s) && ValidPather(m.pather)
    ensures var r := SearchPath(m, s, w, start, end, sqrt, fuel);
      && (r.1.None? <==> m.state != Active)
      && (r.1.None? ==> r.0 == [] && r.2 == m)
      && (r.1.Some? ==> r.1.value <= 2)
      && (r.1 == Some(2) <==> m.state == Active && (!IsAreaValid(m, start) || !IsAreaValid(m, end)))
      && (r.1 == Some(2) ==> r.0 == [start] && r.2.vischeck == m.vischeck)
      && (r.1 == Some(1) ==> r.0 == [])
      && (r.1 == Some(0) ==>
            && |r.0| >= 1 && r.0[0] == start && r.0[|r.0| - 1] == end
            && (forall i | 0 <= i < |r.0| :: r.0[i].Some? && r.0[i].value < |m.areas|)
            && (forall i | 0 <= i < |r.0| - 1 ::
                  r.0[i + 1].value != r.0[i].value && LinksTo(m.areas[r.0[i].value].connections, r.0[i + 1].value)))
  {
    var r := SearchPath(m, s, w, start, end, sqrt, fuel);
    NeighboursValid(m, s, w, m.vischeck);
    PathFollowsConnections(m, s, w, start, end, sqrt, fuel);
    if r.1 == Some(0) {
      assert Located(m, StepOf(m, s), r.2.vischeck, r.0, start, end);
      forall i | 0 <= i < |r.0| - 1
        ensures r.0[i + 1].value != r.0[i].value && LinksTo(m.areas[r.0[i].value].connections, r.0[i + 1].value)
      {
        assert ConnectedStep(m, r.0[i], r.0[i + 1], s.now);
      }
    }
  }

  /** When fresh entries outlive the tick, the cache the search leaves
      records every step of the path it found as checked and passable
      until the expiry of a fresh check: a later check of the same
      connections finds live, passable entries and traces nothing. */
  lemma PathRecorded(m: MapState, s: Settings, w: World, start: Option<nat>, end: Option<nat>,
                     sqrt: real -> real, fuel: nat)
    requires Live(s) && ValidPather(m.pather)
    ensures var r := SearchPath(m, s, w, start, end, sqrt, fuel);
      r.1 == Some(0) ==> forall i | 0 <= i < |r.0| - 1 :: LiveStep(r.2.vischeck, r.0[i], r.0[i + 1], s.now)
  {
    var r := SearchPath(m, s, w, start, end, sqrt, fuel);
    NeighboursValid(m, s, w, m.vischeck);
    LiveExpiry(s);
    if r.1 == Some(0) {
      forall i | 0 <= i < |r.0| - 1 ensures LiveStep(r.2.vischeck, r.0[i], r.0[i + 1], s.now) {
        assert SearchStep(m, s, r.2.vischeck, r.0[i].value, r.0[i + 1].value);
      }
    }
  }

  /** The entry of the step from `a` to `b` is passable and outlives `now`. */
  predicate LiveStep(cache: Vischeck, a: Option<nat>, b: Option<nat>, now: int) {
    && a.Some? && b.Some? && (a.value, b.value) in cache
    && cache[(a.value, b.value)].passable && cache[(a.value, b.value)].expireTick > now
  }

  /** The settled entry of a connection starts and ends at the two centers
      whenever the cache it came from is sane. */
  lemma SettleSane(areas: seq<Area>, s: Settings, w: World, cur: nat, n: nat,
                   entry: CachedConnection, cache: Vischeck)
    requires ValidSettings(s) && cur < |areas| && n < |areas|
    requires entry == (if (cur, n) in cache then cache[(cur, n)] else DefaultConnection)
    ensures var e := Settle(areas, s, w, cur, n, entry);
      CacheSane(areas, cache) && e.passable ==>
        e.points.current == areas[cur].center && e.points.next == areas[n].center
  {
  }
}
