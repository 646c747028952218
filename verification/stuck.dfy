/** Stuck detection (`CNavEngine::UpdateStuckTime`): while the player has
    not moved for long enough, the connection it is trying to cross gathers
    stuck ticks; past the detection threshold the connection, the area of
    the crumb ahead and the areas around it are blacklisted in the vischeck
    cache and the path is abandoned; on the way there the bot jumps. */
module StuckDetect {
  import opened Util
  import opened Nav
  import opened Connection
  import opened Crumbs
  import opened NavMap
  import opened Engine

  /** What one call observes, as inputs: whether movement is locked, the
      inactivity timer (whether it has run for the given seconds), the
      stuck-time setting in seconds, the expiry ticks of a stuck count and
      of a blacklist entry, the detection threshold in ticks and the extra
      ticks a drop crumb is granted, the areas within 120 units of the
      crumb ahead (as the map collects them), the local area, whether the
      player stands on solid ground, its origin, and the tick clock. */
  datatype StuckInput = StuckInput(
    locked: bool, inactiveFor: real -> bool, stuckTime: real,
    stuckExpireTick: int, blacklistExpireTick: int,
    detectTicks: int, dropExtraTicks: int,
    nearby: seq<nat>, localArea: Option<nat>, onSolid: bool, origin: Vec3,
    tick: int, interval: real)

  /** The engine after the call, whether the inactivity timer was reset and
      whether the jump button is pressed. */
  datatype StuckOutcome = StuckOutcome(e: Engine, resetTimer: bool, jump: bool)

  /** The inputs make sense for the engine: a map is loaded, the trail is
      placed, the nearby areas are areas of the mesh and ticks have a
      positive length. */
  predicate InputOk(e: Engine, s: StuckInput) {
    && e.nav.Some? && Placed(e.crumbs) && s.interval > 0.0
    && forall i | 0 <= i < |s.nearby| :: s.nearby[i] < |e.nav.value.areas|
  }

  /** How long the player must stand still: half the setting, the whole
      setting in front of a drop. */
  function Trigger(e: Engine, s: StuckInput): real
    requires |e.crumbs| > 0
  {
    if e.crumbs[0].requiresDrop then s.stuckTime else s.stuckTime / 2.0
  }

  /** The call counts a stuck tick. */
  predicate Fires(e: Engine, s: StuckInput) {
    !s.locked && |e.crumbs| > 0 && s.inactiveFor(Trigger(e, s))
  }

  /** The connection being crossed: from the last crumb's area to the next
      crumb's, or the next crumb's area to itself when no crumb was reached. */
  function StuckKey(e: Engine): Key
    requires |e.crumbs| > 0 && Placed(e.crumbs)
  {
    var to := e.crumbs[0].area.value;
    if e.lastCrumb.area.Some? then (e.lastCrumb.area.value, to) else (to, to)
  }

  /** The stuck ticks recorded for a connection (an absent entry counts 0). */
  function StuckCount(m: MapState, k: Key): int {
    if k in m.stuckTime then m.stuckTime[k].timeStuck else 0
  }

  /** The stuck-time cache after an update of `k` alone: its entry now
      expires at `expire`, and every other entry is kept. */
  predicate StuckWritten(before: map<Key, CachedStucktime>, after: map<Key, CachedStucktime>,
                         k: Key, expire: int) {
    && after.Keys == before.Keys + {k}
    && after[k].expireTick == expire
    && forall j | j in before && j != k :: after[j] == before[j]
  }

  /** Writing one stuck-time entry changes that key's count alone. */
  lemma StuckUpdate(m: MapState, m2: MapState, k: Key, entry: CachedStucktime)
    requires m2.stuckTime == m.stuckTime[k := entry]
    ensures StuckWritten(m.stuckTime, m2.stuckTime, k, entry.expireTick)
    ensures StuckCount(m2, k) == entry.timeStuck
    ensures forall j | j != k :: StuckCount(m2, j) == StuckCount(m, j)
  {
  }

  /** The threshold: a drop crumb is granted extra ticks. */
  function Detect(e: Engine, s: StuckInput): int
    requires |e.crumbs| > 0
  {
    s.detectTicks + if e.crumbs[0].requiresDrop then s.dropExtraTicks else 0
  }

  /** Integer division by two rounding toward zero, as C++ does. */
  function Half(x: int): (r: int)
    ensures x >= 0 ==> 2 * r <= x <= 2 * r + 1
    ensures x < 0 ==> 2 * r - 1 <= x <= 2 * r
  {
    if x >= 0 then x / 2 else -((-x) / 2)
  }

  /** A vischeck entry written by the blacklist: blocked and flagged as a
      stuck blacklist until `expire`. */
  predicate Blacklisted(vis: map<Key, CachedConnection>, k: Key, expire: int) {
    && k in vis && vis[k].expireTick == expire && vis[k].vischeck == NotVisible
    && !vis[k].passable && vis[k].stuckBlacklist
  }

  /** Blacklists one key, keeping the entry's cost and dropdown. */
  function Mark(vis: map<Key, CachedConnection>, k: Key, expire: int, points: NavPoints): (r: map<Key, CachedConnection>)
    ensures Blacklisted(r, k, expire) && r[k].points == points
    ensures k in vis ==> r[k].cachedCost == vis[k].cachedCost && r[k].dropdown == vis[k].dropdown
    ensures r.Keys == vis.Keys + {k}
    ensures forall j | j in vis && j != k :: r[j] == vis[j]
  {
    var prior := if k in vis then vis[k] else DefaultConnection;
    vis[k := prior.(expireTick := expire, vischeck := NotVisible, passable := false,
                    stuckBlacklist := true, points := points)]
  }

  /** The point-sized entry for an area: all four points at `p`. */
  function Spot(p: Vec3): NavPoints {
    NavPoints(p, p, p, p)
  }

  /** Blacklists each nearby area's key to itself, skipping the local area. */
  function MarkNearby(vis: map<Key, CachedConnection>, areas: seq<Area>, nearby: seq<nat>,
                      local: Option<nat>, expire: int): (r: map<Key, CachedConnection>)
    requires forall i | 0 <= i < |nearby| :: nearby[i] < |areas|
    ensures forall i | 0 <= i < |nearby| && local != Some(nearby[i]) ::
              Blacklisted(r, (nearby[i], nearby[i]), expire)
    ensures forall k | Blacklisted(vis, k, expire) :: Blacklisted(r, k, expire)
    ensures forall k | k in vis :: k in r
    ensures forall k | k in r && k !in vis :: k.0 == k.1 && k.0 in nearby
    ensures forall k | k in vis && !(k.0 == k.1 && k.0 in nearby) :: r[k] == vis[k]
    decreases |nearby|
  {
    if |nearby| == 0 then vis
    else
      var a := nearby[0];
      var v := if local == Some(a) then vis else Mark(vis, (a, a), expire, Spot(areas[a].center));
      MarkNearby(v, areas, nearby[1..], local, expire)
  }

  /** The vischeck cache once the crossing is blacklisted: the connection
      (its points from the last crumb, or the player, to the crumb ahead),
      the crumb's area and every nearby area but the local one. */
  function BlacklistAround(e: Engine, s: StuckInput): (r: map<Key, CachedConnection>)
    requires InputOk(e, s) && |e.crumbs| > 0
    ensures Blacklisted(r, StuckKey(e), s.blacklistExpireTick)
    ensures Blacklisted(r, (e.crumbs[0].area.value, e.crumbs[0].area.value), s.blacklistExpireTick)
    ensures forall i | 0 <= i < |s.nearby| && s.localArea != Some(s.nearby[i]) ::
              Blacklisted(r, (s.nearby[i], s.nearby[i]), s.blacklistExpireTick)
    ensures forall k | k in e.nav.value.vischeck :: k in r
    ensures forall k | k in r && k !in e.nav.value.vischeck ::
              k == StuckKey(e) || k == (e.crumbs[0].area.value, e.crumbs[0].area.value)
              || (k.0 == k.1 && k.0 in s.nearby)
    ensures forall k | k in e.nav.value.vischeck && k != StuckKey(e)
                       && k != (e.crumbs[0].area.value, e.crumbs[0].area.value)
                       && !(k.0 == k.1 && k.0 in s.nearby) ::
              r[k] == e.nav.value.vischeck[k]
  {
    var m := e.nav.value;
    var front := e.crumbs[0];
    var from := if e.lastCrumb.area.Some? then e.lastCrumb.pos else s.origin;
    var expire := s.blacklistExpireTick;
    var v1 := Mark(m.vischeck, StuckKey(e), expire, NavPoints(from, front.pos, front.pos, front.pos));
    var v2 := Mark(v1, (front.area.value, front.area.value), expire, Spot(front.pos));
    MarkNearby(v2, m.areas, s.nearby, s.localArea, expire)
  }

  /** One more stuck tick on the crossing, below the threshold: the count
      goes up and the bot jumps past half the threshold on solid ground. */
  function CountTick(e: Engine, s: StuckInput): (r: StuckOutcome)
    requires InputOk(e, s) && |e.crumbs| > 0
    requires StuckCount(e.nav.value, StuckKey(e)) + 1 <= Detect(e, s)
    ensures r.e.nav.Some? && r.e == e.(nav := r.e.nav)
    ensures r.e.nav.value == e.nav.value.(stuckTime := r.e.nav.value.stuckTime)
    ensures StuckCount(r.e.nav.value, StuckKey(e)) == StuckCount(e.nav.value, StuckKey(e)) + 1
    ensures StuckWritten(e.nav.value.stuckTime, r.e.nav.value.stuckTime, StuckKey(e), s.stuckExpireTick)
    ensures forall k | k != StuckKey(e) :: StuckCount(r.e.nav.value, k) == StuckCount(e.nav.value, k)
    ensures !r.resetTimer
    ensures r.jump <==> StuckCount(r.e.nav.value, StuckKey(e)) > Half(Detect(e, s)) && s.onSolid
  {
    var m := e.nav.value;
    var key := StuckKey(e);
    var count := StuckCount(m, key) + 1;
    var entry := CachedStucktime(s.stuckExpireTick, count);
    var m2 := m.(stuckTime := m.stuckTime[key := entry]);
    StuckUpdate(m, m2, key, entry);
    StuckOutcome(e.(nav := Some(m2)), false, count > Half(Detect(e, s)) && s.onSolid)
  }

  /** Stuck past the threshold: the crossing and its surroundings are
      blacklisted, the count starts over and the path is abandoned. */
  function GiveUp(e: Engine, s: StuckInput): (r: StuckOutcome)
    requires InputOk(e, s) && |e.crumbs| > 0
    ensures r.e.nav.Some? && r.e.nav.value.areas == e.nav.value.areas
    ensures r.e.crumbs == [] && r.e.failure == Abandoned("Stuck")
    ensures r.resetTimer && !r.jump
    ensures StuckCount(r.e.nav.value, StuckKey(e)) == 0
    ensures StuckWritten(e.nav.value.stuckTime, r.e.nav.value.stuckTime, StuckKey(e), s.stuckExpireTick)
    ensures forall k | k != StuckKey(e) :: StuckCount(r.e.nav.value, k) == StuckCount(e.nav.value, k)
    ensures r.e.nav.value.vischeck == BlacklistAround(e, s)
    ensures r.e.nav.value == e.nav.value.(stuckTime := r.e.nav.value.stuckTime, vischeck := r.e.nav.value.vischeck)
    ensures r.e == AbandonPath(e.(nav := r.e.nav), "Stuck", s.tick, s.interval)
  {
    var m := e.nav.value;
    var key := StuckKey(e);
    var entry := CachedStucktime(s.stuckExpireTick, 0);
    var m2 := m.(stuckTime := m.stuckTime[key := entry], vischeck := BlacklistAround(e, s));
    var e1 := e.(nav := Some(m2));
    var abandoned := AbandonPath(e1, "Stuck", s.tick, s.interval);
    assert abandoned.nav == e1.nav;
    StuckUpdate(m, abandoned.nav.value, key, entry);
    StuckOutcome(abandoned, true, false)
  }

  /** `UpdateStuckTime`: nothing but a timer reset while movement is
      locked, nothing without a trail or before the inactivity trigger,
      otherwise a stuck tick on the crossing, and past the threshold the
      blacklist and the end of the path. */
  function UpdateStuckTime(e: Engine, s: StuckInput): (r: StuckOutcome)
    requires InputOk(e, s)
    ensures s.locked ==> r == StuckOutcome(e, true, false)
    ensures !s.locked && !Fires(e, s) ==> r == StuckOutcome(e, false, false)
    ensures r.e.nav.Some? && r.e.nav.value.areas == e.nav.value.areas
    ensures Fires(e, s) && StuckCount(e.nav.value, StuckKey(e)) + 1 <= Detect(e, s) ==> r == CountTick(e, s)
    ensures Fires(e, s) && StuckCount(e.nav.value, StuckKey(e)) + 1 > Detect(e, s) ==> r == GiveUp(e, s)
  {
    if s.locked then StuckOutcome(e, true, false)
    else if !Fires(e, s) then StuckOutcome(e, false, false)
    else if StuckCount(e.nav.value, StuckKey(e)) + 1 > Detect(e, s) then GiveUp(e, s)
    else CountTick(e, s)
  }

  /** The engine after `n` calls with the same inputs. */
  function Repeat(e: Engine, s: StuckInput, n: nat): (r: Engine)
    requires InputOk(e, s)
    ensures InputOk(r, s)
    decreases n
  {
    if n == 0 then e
    else
      var next := UpdateStuckTime(e, s).e;
      assert Placed(next.crumbs) by {
        assert next.crumbs == e.crumbs || next.crumbs == [];
      }
      Repeat(next, s, n - 1)
  }

  /** Standing still in front of the same crumb ends in the blacklist: from
      `c` recorded stuck ticks, `Detect - c + 1` further inactive calls
      abandon the path and leave the connection blacklisted. */
  lemma {:induction false} StuckLeadsToBlacklist(e: Engine, s: StuckInput, n: nat)
    requires InputOk(e, s) && Fires(e, s)
    requires StuckCount(e.nav.value, StuckKey(e)) <= Detect(e, s)
    requires n == Detect(e, s) - StuckCount(e.nav.value, StuckKey(e)) + 1
    ensures Repeat(e, s, n).crumbs == []
    ensures Blacklisted(Repeat(e, s, n).nav.value.vischeck, StuckKey(e), s.blacklistExpireTick)
    decreases n
  {
    var next := UpdateStuckTime(e, s).e;
    if StuckCount(e.nav.value, StuckKey(e)) + 1 > Detect(e, s) {
      assert Repeat(e, s, n) == Repeat(next, s, n - 1);
      assert n - 1 == 0;
    } else {
      assert next.crumbs == e.crumbs && next.lastCrumb == e.lastCrumb;
      assert StuckKey(next) == StuckKey(e);
      assert Trigger(next, s) == Trigger(e, s) && Detect(next, s) == Detect(e, s);
      StuckLeadsToBlacklist(next, s, n - 1);
    }
  }
}
