/** A path request (`CNavEngine::NavTo`): the gates a request must pass,
    reuse of the path being followed, the search, the crumb trail built
    from the found path, the trim of its head, the validation of the trail
    by traces with the emergency fallback that retries with traces off,
    and what a successful request commits. */
module PathRequest {
  import opened Util
  import opened Nav
  import opened Connection
  import opened Crumbs
  import opened CrumbCache
  import opened NavMap
  import opened Engine
  import Solver
  import Adjacent

  /** The arguments of a request. */
  datatype Request = Request(dest: Vec3, priority: Priority, shouldRepath: bool,
                             navToLocal: bool, ignoreTraces: bool)

  /** What the map's path search hands back: the path as area pointers,
      the solver's code (-1 when the search never ran, 0 solved, 1 no
      solution, 2 start and end the same) and the map as the search left
      it, with its scratch nodes and the vischeck cache its cost model
      wrote. */
  datatype Search = Search(path: seq<Option<nat>>, code: int, after: MapState)

  /** What a request observes of the game and the map, as inputs: whether
      there is a local player and whether it is alive, its origin, whether
      a warp or double tap is under way, whether the engine is ready, the
      local and destination areas, the state the search's cost model reads
      (the tick count among it) and what it asks the game (square roots,
      ground heights, the movement trace between two points), the solver's
      bound on queue pops, the fallback window in ticks and the vector
      normalisation. */
  datatype Env = Env(
    hasPlayer: bool, alive: bool, origin: Vec3,
    warping: bool, ready: bool,
    localArea: Option<nat>, destArea: Option<nat>,
    costs: Adjacent.Settings, world: Adjacent.World, fuel: nat,
    windowTicks: int, normalize: Vec3 -> Vec3)

  /** The local area, when there is one, is an area of the loaded mesh;
      the map's scratch nodes are consistent; the tick interval is
      positive. */
  predicate EnvOk(e: Engine, env: Env) {
    && (e.nav.Some? && env.localArea.Some? ==> env.localArea.value < |e.nav.value.areas|)
    && (e.nav.Some? ==> Solver.ValidPather(e.nav.value.pather))
    && Adjacent.ValidSettings(env.costs)
  }

  /** A fresh trace result expires when a fresh check of the cost model
      does: the configured time, at most 45 seconds, from now. */
  function TraceExpiry(env: Env): int
    requires Adjacent.ValidSettings(env.costs)
  {
    Adjacent.CacheExpiry(env.costs)
  }

  /** The state the cost model reads during the search: the request's
      ignore-traces flag, as the engine has recorded it, and the rest from
      the game. */
  function Costs(e: Engine, env: Env): Adjacent.Settings {
    env.costs.(ignoreTraces := e.ignoreTraces)
  }

  /** The map's path search from the local area to the destination area
      (`NavMap.FindPath` over the graph of `Adjacent.SearchPath`): the
      path, the solver's code, -1 when the map is not active, and the map
      as the search left it. */
  function Found(e: Engine, env: Env): (r: Search)
    requires EnvOk(e, env) && e.nav.Some?
    ensures r.after == e.nav.value.(pather := r.after.pather, vischeck := r.after.vischeck)
    ensures Solver.ValidPather(r.after.pather)
    ensures r.code == -1 || 0 <= r.code <= 2
  {
    var x := Adjacent.SearchPath(e.nav.value, Costs(e, env), env.world, env.localArea, env.destArea,
                                 env.world.sqrt, env.fuel);
    Search(x.0, if x.1.Some? then x.1.value else -1, x.2)
  }

  // ---------------------------------------------------------------------
  // Reuse

  /** A new destination within 160 units of the last counts as the same. */
  const REUSE_RADIUS_SQ: real := 25600.0

  /** The path being followed already answers the request. */
  predicate CanReuse(e: Engine, req: Request) {
    && IsPathing(e) && !e.repathRequested && req.priority == e.priority
    && req.navToLocal == e.navToLocal && req.ignoreTraces == e.ignoreTraces
    && DistSq(e.lastDestination, req.dest) <= REUSE_RADIUS_SQ
  }

  /** Every gate before the search passes. */
  predicate GatesPass(e: Engine, env: Env, req: Request) {
    && e.nav.Some? && env.hasPlayer && !env.warping && env.ready
    && Rank(req.priority) >= Rank(e.priority)
    && env.localArea.Some? && env.destArea.Some?
  }

  /** The engine once the request's arguments are recorded. */
  function Recorded(e: Engine, req: Request): Engine {
    e.(lastDestination := req.dest, navToLocal := req.navToLocal,
       repathOnFail := req.shouldRepath, ignoreTraces := req.ignoreTraces,
       failure := NoFailure)
  }

  /** The search a request runs once its arguments are recorded. */
  function SearchFor(e: Engine, env: Env, req: Request): Search
    requires EnvOk(e, env) && e.nav.Some?
  {
    Found(Recorded(e, req), env)
  }

  // ---------------------------------------------------------------------
  // The trail

  /** Both ends are areas of the mesh and directly connected. */
  predicate Hop(areas: seq<Area>, from: Option<nat>, to: Option<nat>) {
    && from.Some? && to.Some? && from.value < |areas| && to.value < |areas|
    && HasDirectConnection(areas, from, to)
  }

  /** Every step of the path is a hop. */
  predicate Connected(areas: seq<Area>, path: seq<Option<nat>>) {
    forall j | 0 <= j < |path| - 1 :: Hop(areas, path[j], path[j + 1])
  }

  /** The crumb that ends a multi-area trail: the destination itself. */
  function EndCrumb(area: Option<nat>, dest: Vec3): Crumb {
    DefaultCrumb.(area := area, pos := dest)
  }

  /** The trail, crumb cache and dirty flag after walking the path from
      index `i`: each connection's crumbs come from the cache when it holds
      a non-empty entry and are generated by `entry` and stored otherwise;
      the last area contributes the destination. */
  function BuildTrail(areas: seq<Area>, path: seq<Option<nat>>, i: nat, dest: Vec3,
                      trail: seq<Crumb>, cache: Cache, dirty: bool,
                      entry: (nat, nat) -> seq<CachedCrumb>): (r: (seq<Crumb>, Cache, bool))
    requires i <= |path| && Connected(areas, path)
    ensures |trail| <= |r.0| && r.0[..|trail|] == trail
    ensures Placed(trail) ==> Placed(r.0)
    ensures i < |path| && path[|path| - 1].Some? ==>
              |r.0| > 0 && r.0[|r.0| - 1] == EndCrumb(path[|path| - 1], dest)
    ensures dirty ==> r.2
    ensures !r.2 ==> r.1 == cache
    ensures NonEmptyEntries(cache) ==> NonEmptyEntries(r.1)
    decreases |path| - i
  {
    if i == |path| then (trail, cache, dirty)
    else if path[i].None? then BuildTrail(areas, path, i + 1, dest, trail, cache, dirty, entry)
    else if i == |path| - 1 then
      BuildTrail(areas, path, i + 1, dest, trail + [EndCrumb(path[i], dest)], cache, dirty, entry)
    else
      assert Hop(areas, path[i], path[i + 1]);
      var s := Connect(areas, path[i].value, path[i + 1].value, trail, cache, dirty, entry);
      BuildTrail(areas, path, i + 1, dest, s.0, s.1, s.2, entry)
  }

  /** Every entry of the cache holds crumbs. */
  predicate NonEmptyEntries(cache: Cache) {
    forall k | k in cache :: |cache[k]| > 0
  }

  /** The crumbs of the connection from `a` to `b`: the cached entry when
      it holds crumbs, otherwise a generated entry, stored in the cache
      (which becomes dirty) unless it is empty. */
  function Connect(areas: seq<Area>, a: nat, b: nat, trail: seq<Crumb>, cache: Cache, dirty: bool,
                   entry: (nat, nat) -> seq<CachedCrumb>): (r: (seq<Crumb>, Cache, bool))
    requires a < |areas| && b < |areas|
    ensures |trail| <= |r.0| && r.0[..|trail|] == trail
    ensures Placed(trail) ==> Placed(r.0)
    ensures dirty ==> r.2
    ensures !r.2 ==> r.1 == cache
    ensures NonEmptyEntries(cache) ==> NonEmptyEntries(r.1)
    ensures var k := MakeKey(areas[a].id, areas[b].id);
            k in r.1 ==> r.0 == AppendCached(trail, Some(a), r.1[k])
  {
    var k := MakeKey(areas[a].id, areas[b].id);
    var found := FindEntry(cache, Some(areas[a]), Some(areas[b]));
    if found.Some? && |found.value| > 0 then
      PlacedAppend(trail, a, found.value);
      (AppendCached(trail, Some(a), found.value), cache, dirty)
    else
      var gen := entry(a, b);
      if |gen| == 0 then
        assert k !in cache || |cache[k]| == 0;
        (trail, cache, dirty)
      else
        PlacedAppend(trail, a, gen);
        (AppendCached(trail, Some(a), gen), cache[k := gen], true)
  }

  /** Appending an entry under an area keeps every crumb placed. */
  lemma PlacedAppend(trail: seq<Crumb>, area: nat, cached: seq<CachedCrumb>)
    ensures Placed(trail) ==> Placed(AppendCached(trail, Some(area), cached))
  {
    var r := AppendCached(trail, Some(area), cached);
    if Placed(trail) {
      forall k | 0 <= k < |r| ensures r[k].area.Some? {
        if k < |trail| {
          assert r[k] == r[..|trail|][k];
        } else {
          assert r[k] in Restored(cached, area);
        }
      }
    }
  }

  /** The trail of a request: between the start and the destination inside
      one area, or along the found path. The start is the local area's
      center, or the player's origin while it is alive. */
  function Trail(areas: seq<Area>, single: bool, local: nat, path: seq<Option<nat>>, env: Env,
                 dest: Vec3, cache: Cache, dirty: bool): (r: (seq<Crumb>, Cache, bool))
    requires local < |areas|
    requires !single ==> Connected(areas, path)
    ensures Placed(r.0)
    ensures single ==> r.1 == cache && r.2 == dirty
    ensures dirty ==> r.2
    ensures NonEmptyEntries(cache) ==> NonEmptyEntries(r.1)
    ensures !single && |path| > 0 && path[|path| - 1].Some? ==>
              |r.0| > 0 && r.0[|r.0| - 1] == EndCrumb(path[|path| - 1], dest)
  {
    if single then
      var start := if env.hasPlayer && env.alive then env.origin else areas[local].center;
      (IntraAreaCrumbs(start, dest, Some(local), env.world.sqrt), cache, dirty)
    else
      var sqrt, ground, normalize := env.world.sqrt, env.world.ground, env.normalize;
      var entry := (a: nat, b: nat) => EntryAt(areas, sqrt, ground, normalize, a, b);
      BuildTrail(areas, path, 0, dest, [], cache, dirty, entry)
  }

  // ---------------------------------------------------------------------
  // Trimming the head of a new trail

  /** The player is already past the first crumb, heading to the second. */
  predicate Ahead(crumbs: seq<Crumb>, origin: Vec3) {
    && |crumbs| >= 2
    && Dot(Sub(crumbs[1].pos, crumbs[0].pos), Sub(crumbs[1].pos, crumbs[0].pos)) > 0.001
    && Dot(Sub(origin, crumbs[0].pos), Sub(crumbs[1].pos, crumbs[0].pos)) > 0.0
  }

  /** Drops the first crumb when it repeats the last crumb reached, then
      drops the (new) first crumb when the player is already ahead of it. */
  function Trim(crumbs: seq<Crumb>, last: Crumb, origin: Vec3): (r: seq<Crumb>)
    ensures |crumbs| - 2 <= |r| <= |crumbs| && r == crumbs[|crumbs| - |r|..]
    ensures |crumbs| >= 2 ==> |r| >= 1 && r[|r| - 1] == crumbs[|crumbs| - 1]
    ensures last.area.None? && !Ahead(crumbs, origin) ==> r == crumbs
    ensures |r| < |crumbs| ==>
              (|crumbs| > 0 && last.area.Some? && DistSq(crumbs[0].pos, last.pos) < 1.0)
              || Ahead(crumbs, origin)
  {
    var kept := if |crumbs| > 0 && last.area.Some? && DistSq(crumbs[0].pos, last.pos) < 1.0
                then crumbs[1..] else crumbs;
    if Ahead(kept, origin) then kept[1..] else kept
  }

  // ---------------------------------------------------------------------
  // Validation by traces

  /** The vischeck key of the pair of crumbs `j` and `j + 1`. */
  function KeyAt(crumbs: seq<Crumb>, j: nat): Key
    requires Placed(crumbs) && j + 1 < |crumbs|
  {
    (crumbs[j].area.value, crumbs[j + 1].area.value)
  }

  /** The keys of the pairs from `i` on. */
  function PairKeys(crumbs: seq<Crumb>, i: nat): (r: set<Key>)
    requires Placed(crumbs)
    ensures forall j | i <= j < |crumbs| - 1 :: KeyAt(crumbs, j) in r
    decreases |crumbs| - i
  {
    if i + 1 >= |crumbs| then {} else {KeyAt(crumbs, i)} + PairKeys(crumbs, i + 1)
  }

  /** Every unexpired entry of the cache says passable. */
  predicate NoLiveBlock(vis: Vischeck, now: int) {
    forall k | k in vis && vis[k].expireTick > now :: vis[k].passable
  }

  /** The entry of `k` has not expired and says passable. */
  predicate LivePassable(vis: Vischeck, k: Key, now: int) {
    k in vis && vis[k].expireTick > now && vis[k].passable
  }

  /** The entry of `k` has not expired and says blocked. */
  predicate LiveBlocked(vis: Vischeck, k: Key, now: int) {
    k in vis && vis[k].expireTick > now && !vis[k].passable
  }

  /** The trail from pair `i` on, checked against the vischeck cache: an
      entry that has not expired decides its pair, otherwise the trace
      does and its outcome is cached until `expire`. The first blocked
      pair ends the check. */
  function Validate(crumbs: seq<Crumb>, i: nat, vis: Vischeck,
                    passable: (Vec3, Vec3) -> bool, now: int, expire: int): (r: (bool, Vischeck))
    requires Placed(crumbs)
    ensures r.0 ==> forall j | i <= j < |crumbs| - 1 :: KeyAt(crumbs, j) in r.1 && r.1[KeyAt(crumbs, j)].passable
    ensures r.0 ==> forall k | k in vis && vis[k].passable :: k in r.1 && r.1[k].passable
    ensures !r.0 ==> exists k | k in PairKeys(crumbs, i) :: k in r.1 && !r.1[k].passable
    ensures forall k | k !in PairKeys(crumbs, i) :: (k in r.1 <==> k in vis) && (k in vis ==> r.1[k] == vis[k])
    ensures ((forall j | i <= j < |crumbs| - 1 :: passable(crumbs[j].pos, crumbs[j + 1].pos))
             && NoLiveBlock(vis, now)) ==> r.0
    decreases |crumbs| - i
  {
    if i + 1 >= |crumbs| then (true, vis)
    else
      var key := KeyAt(crumbs, i);
      if key in vis && vis[key].expireTick > now then
        if !vis[key].passable then
          assert key in PairKeys(crumbs, i);
          (false, vis)
        else Validate(crumbs, i + 1, vis, passable, now, expire)
      else if !passable(crumbs[i].pos, crumbs[i + 1].pos) then
        assert key in PairKeys(crumbs, i);
        (false, vis[key := DefaultConnection.(expireTick := expire, vischeck := NotVisible,
                                             passable := false, cachedCost := FLT_MAX)])
      else
        var prior := if key in vis then vis[key] else DefaultConnection;
        Validate(crumbs, i + 1, vis[key := prior.(expireTick := expire, vischeck := Visible, passable := true)],
                 passable, now, expire)
  }

  /** Pairs from `i` on that the cache already records live and passable
      need no trace: the trail passes and the cache is left as it was. */
  lemma {:induction false} ValidateTrusted(crumbs: seq<Crumb>, i: nat, vis: Vischeck,
                                           passable: (Vec3, Vec3) -> bool, now: int, expire: int)
    requires Placed(crumbs)
    requires forall j | i <= j < |crumbs| - 1 :: LivePassable(vis, KeyAt(crumbs, j), now)
    ensures Validate(crumbs, i, vis, passable, now, expire) == (true, vis)
    decreases |crumbs| - i
  {
    if i + 1 < |crumbs| {
      ValidateTrusted(crumbs, i + 1, vis, passable, now, expire);
    }
  }

  /** A trail passes whenever no pair from `i` on has a live blocking
      entry and every pair without a live passable entry traces passable:
      a live passable entry stands in for the trace. */
  lemma {:induction false} ValidatePasses(crumbs: seq<Crumb>, i: nat, vis: Vischeck,
                                          passable: (Vec3, Vec3) -> bool, now: int, expire: int)
    requires Placed(crumbs)
    requires forall j | i <= j < |crumbs| - 1 ::
               && !LiveBlocked(vis, KeyAt(crumbs, j), now)
               && (LivePassable(vis, KeyAt(crumbs, j), now) || passable(crumbs[j].pos, crumbs[j + 1].pos))
    ensures Validate(crumbs, i, vis, passable, now, expire).0
    decreases |crumbs| - i
  {
    if i + 1 < |crumbs| {
      var key := KeyAt(crumbs, i);
      if key in vis && vis[key].expireTick > now {
        ValidatePasses(crumbs, i + 1, vis, passable, now, expire);
      } else {
        var prior := if key in vis then vis[key] else DefaultConnection;
        var vis' := vis[key := prior.(expireTick := expire, vischeck := Visible, passable := true)];
        forall j | i + 1 <= j < |crumbs| - 1
          ensures !LiveBlocked(vis', KeyAt(crumbs, j), now)
          ensures LivePassable(vis', KeyAt(crumbs, j), now) || passable(crumbs[j].pos, crumbs[j + 1].pos)
        {
          if KeyAt(crumbs, j) == key {
            assert !LivePassable(vis, KeyAt(crumbs, j), now);
          }
        }
        ValidatePasses(crumbs, i + 1, vis', passable, now, expire);
      }
    }
  }

  // ---------------------------------------------------------------------
  // The request

  /** How deep the fallback may still recurse: a request that already
      ignores traces never retries. */
  function Depth(req: Request): nat {
    if req.ignoreTraces then 0 else 1
  }

  /** Every pair of the trail is recorded passable in the vischeck cache. */
  predicate Validated(e: Engine) {
    && e.nav.Some? && Placed(e.crumbs)
    && forall j | 0 <= j < |e.crumbs| - 1 ::
         KeyAt(e.crumbs, j) in e.nav.value.vischeck && e.nav.value.vischeck[KeyAt(e.crumbs, j)].passable
  }

  /** The strict counter is 0 or 1. */
  predicate StrictOk(s: Strict) {
    0 <= s.count <= 1
  }

  /** The part of the engine a request never writes: the map apart from
      its vischeck cache and the search's scratch nodes, the last crumb
      reached, the repath request and its tick, and the movement and look
      directions. */
  function Untouched(e: Engine): (Option<MapState>, Crumb, bool, int, Vec3, Vec3) {
    (if e.nav.Some? then Some(e.nav.value.(vischeck := map[], pather := Solver.Pather([], 0))) else None,
     e.lastCrumb, e.repathRequested, e.nextRepathTick, e.pathDir, e.lookTarget)
  }

  /** What every outcome of a request keeps: the untouched part, placed
      trails, the strict counter's range, non-empty cache entries and a
      dirty cache; a request that already ignores traces leaves the strict
      bookkeeping alone. */
  predicate Keeps(e: Engine, req: Request, r: Engine) {
    && Untouched(r) == Untouched(e)
    && (Placed(e.crumbs) ==> Placed(r.crumbs))
    && (StrictOk(e.strict) ==> StrictOk(r.strict))
    && (NonEmptyEntries(e.cache) ==> NonEmptyEntries(r.cache))
    && (e.cacheDirty ==> r.cacheDirty)
    && (req.ignoreTraces ==> r.strict == e.strict)
  }

  /** Keeping is transitive, and a step that already ignores traces
      passes the strict bookkeeping through. */
  lemma KeepsTrans(a: Engine, b: Engine, c: Engine, req: Request, req': Request)
    requires Keeps(a, req, b) && Keeps(b, req', c)
    requires req.ignoreTraces ==> req'.ignoreTraces
    ensures Keeps(a, req, c)
  {
  }

  /** The failure of the first gate after the map and player checks that
      refuses the request, if any. */
  function Gate(e: Engine, env: Env, req: Request): (g: Option<Failure>)
    ensures g.None? <==> !env.warping && env.ready && Rank(req.priority) >= Rank(e.priority)
                          && env.localArea.Some? && env.destArea.Some?
    ensures env.warping ==> g == Some(Warping)
    ensures !env.warping && env.ready && Rank(req.priority) < Rank(e.priority) ==> g == Some(PriorityTooLow)
  {
    if env.warping then Some(Warping)
    else if !env.ready then Some(NotReady)
    else if Rank(req.priority) < Rank(e.priority) then Some(PriorityTooLow)
    else if env.localArea.None? then Some(NoLocalArea)
    else if env.destArea.None? then Some(NoDestinationArea)
    else None
  }

  /** `NavTo`: records the request, applies the gates in order (no map or
      player, warp, not ready, lower priority than the current one, no
      local area, no destination area), keeps the current path when it
      already answers the request, and searches otherwise. */
  method NavTo(e: Engine, env: Env, req: Request) returns (r: Engine, ok: bool)
    requires EnvOk(e, env)
    ensures e.nav.None? || !env.hasPlayer ==> r == e && !ok
    ensures ok ==> GatesPass(e, env, req) && r.priority == req.priority
    ensures !ok ==> r.priority == e.priority
    ensures Keeps(e, req, r)
    ensures ok && !CanReuse(e, req) && !r.ignoreTraces ==> Validated(r)
    ensures GatesPass(e, env, req) && CanReuse(e, req) ==> r == Recorded(e, req) && ok
    ensures e.nav.Some? && env.hasPlayer && Gate(e, env, req).Some? ==>
              r == Recorded(e, req).(failure := Gate(e, env, req).value) && !ok
    ensures ok && req.ignoreTraces ==> r.ignoreTraces
    ensures ok && !req.ignoreTraces && !CanReuse(e, req) ==> r.strict.count == 0
    ensures GatesPass(e, env, req) && !CanReuse(e, req) ==>
              var found := SearchFor(e, env, req);
              |found.path| > 0 && !Connected(e.nav.value.areas, found.path) ==>
                !ok && r == Searched(Recorded(e, req), found).(failure := DisconnectedAreas)
    decreases Depth(req), 7
  {
    if e.nav.None? || !env.hasPlayer {
      return e, false;
    }
    var e1 := Recorded(e, req);
    var gate := Gate(e, env, req);
    if gate.Some? {
      return e1.(failure := gate.value), false;
    }
    if CanReuse(e, req) {
      return e1, true;
    }
    assert Keeps(e, req, e1);
    r, ok := Route(e1, env, req);
    KeepsTrans(e, e1, r, req, req);
  }

  /** The search and the trail: the map takes the scratch nodes and the
      vischeck cache the search left, then the found path is dispatched. */
  method Route(e: Engine, env: Env, req: Request) returns (r: Engine, ok: bool)
    requires EnvOk(e, env) && e.nav.Some? && env.localArea.Some? && env.destArea.Some?
    requires e.ignoreTraces == req.ignoreTraces
    ensures ok ==> r.priority == req.priority
    ensures !ok ==> r.priority == e.priority
    ensures Keeps(e, req, r)
    ensures ok && !r.ignoreTraces ==> Validated(r)
    ensures req.ignoreTraces ==> r.ignoreTraces
    ensures ok && !req.ignoreTraces ==> r.strict.count == 0
    ensures var found := Found(e, env);
            |found.path| == 0 && env.localArea != env.destArea && found.code != 1 ==>
              !ok && r == Searched(e, found).(failure := if found.code == 2 then StartEndSame else EngineError)
    ensures var found := Found(e, env);
            |found.path| > 0 && !Connected(e.nav.value.areas, found.path) ==>
              !ok && r == Searched(e, found).(failure := DisconnectedAreas)
    decreases Depth(req), 6
  {
    var found := Found(e, env);
    var e0 := Searched(e, found);
    r, ok := Dispatch(e0, env, req, found.path, found.code);
    KeepsTrans(e, e0, r, req, req);
  }

  /** What follows the search: an empty path is a single-area trail when
      the local area is the destination's and a failure otherwise; a path
      with a broken step fails; otherwise the trail is built, trimmed and
      validated. */
  method Dispatch(e: Engine, env: Env, req: Request, path: seq<Option<nat>>, code: int) returns (r: Engine, ok: bool)
    requires EnvOk(e, env) && e.nav.Some? && env.localArea.Some? && env.destArea.Some?
    requires e.ignoreTraces == req.ignoreTraces
    ensures ok ==> r.priority == req.priority
    ensures !ok ==> r.priority == e.priority
    ensures Keeps(e, req, r)
    ensures ok && !r.ignoreTraces ==> Validated(r)
    ensures req.ignoreTraces ==> r.ignoreTraces
    ensures ok && !req.ignoreTraces ==> r.strict.count == 0
    ensures |path| == 0 && env.localArea != env.destArea && code != 1 ==>
              !ok && r == e.(failure := if code == 2 then StartEndSame else EngineError)
    ensures |path| > 0 && !Connected(e.nav.value.areas, path) ==> !ok && r == e.(failure := DisconnectedAreas)
    decreases Depth(req), 5
  {
    var single := |path| == 0;
    if single && env.localArea != env.destArea {
      r, ok := NoPath(e, env, req, code);
    } else if !single && !Connected(e.nav.value.areas, path) {
      r, ok := e.(failure := DisconnectedAreas), false;
    } else {
      r, ok := Follow(e, env, req, single, path);
    }
  }

  /** The engine once the search has run: the map is as the search left
      it, and the trail built next is checked against its vischeck cache. */
  function Searched(e: Engine, found: Search): Engine {
    e.(nav := Some(found.after))
  }

  /** What the search hands the request, code by code: -1 exactly on an
      inactive map and 2 exactly for a local or destination area outside
      the mesh, neither with a path to follow; no path with code 1; with
      code 0 a path from the local area to the destination area. Every
      path it hands back follows direct connections, so the request's
      check for disconnected areas never fires on it. */
  lemma FoundShape(e: Engine, env: Env)
    requires EnvOk(e, env) && e.nav.Some?
    ensures var f := Found(e, env);
      && (f.code == -1 <==> e.nav.value.state != Active)
      && (f.code == 2 <==> e.nav.value.state == Active
                           && (!IsAreaValid(e.nav.value, env.localArea) || !IsAreaValid(e.nav.value, env.destArea)))
      && (f.code == -1 || f.code == 1 ==> f.path == [])
      && (f.code == 2 ==> f.path == [env.localArea])
      && (f.code == 0 ==> |f.path| >= 1 && f.path[0] == env.localArea && f.path[|f.path| - 1] == env.destArea)
      && (|f.path| > 0 ==> Connected(e.nav.value.areas, f.path))
  {
    var m := e.nav.value;
    var f := Found(e, env);
    Adjacent.SearchPathShape(m, Costs(e, env), env.world, env.localArea, env.destArea, env.world.sqrt, env.fuel);
    if f.code == 0 {
      forall j | 0 <= j < |f.path| - 1 ensures Hop(m.areas, f.path[j], f.path[j + 1]) {
        assert f.path[j].Some? && f.path[j + 1].Some? && f.path[j + 1].value < |m.areas|;
        assert LinksTo(m.areas[f.path[j].value].connections, f.path[j + 1].value);
      }
    }
  }

  /** Every step of the path has a live, passable vischeck entry. */
  predicate StepsLive(path: seq<Option<nat>>, vis: Vischeck, now: int) {
    forall i | 0 <= i < |path| - 1 :: Adjacent.LiveStep(vis, path[i], path[i + 1], now)
  }

  /** When fresh entries outlive the tick, the map the search leaves holds
      a live, passable vischeck entry for every step of the path found. */
  lemma FoundRecorded(e: Engine, env: Env)
    requires EnvOk(e, env) && e.nav.Some? && Adjacent.Live(env.costs)
    ensures Found(e, env).code == 0 ==> StepsLive(Found(e, env).path, Found(e, env).after.vischeck, env.costs.now)
  {
    Adjacent.PathRecorded(e.nav.value, Costs(e, env), env.world, env.localArea, env.destArea, env.world.sqrt, env.fuel);
  }

  /** `k` is the key of the step from `a` to `b`. */
  predicate StepKey(a: Option<nat>, b: Option<nat>, k: Key) {
    a.Some? && b.Some? && k == (a.value, b.value)
  }

  /** `k` is the key of some step of the path. */
  predicate OnPath(path: seq<Option<nat>>, k: Key) {
    exists i | 0 <= i < |path| - 1 :: StepKey(path[i], path[i + 1], k)
  }

  /** The key of a step of a path whose steps are all live and passable
      is live and passable. */
  lemma OnPathLive(path: seq<Option<nat>>, vis: Vischeck, now: int, k: Key)
    requires StepsLive(path, vis, now) && OnPath(path, k)
    ensures LivePassable(vis, k, now)
  {
    var i :| 0 <= i < |path| - 1 && StepKey(path[i], path[i + 1], k);
    assert Adjacent.LiveStep(vis, path[i], path[i + 1], now);
  }

  /** A trail whose every pair of crumbs is a step of the path the search
      found passes the check against the map the search left without a
      single trace, and the check leaves the cache as it was. */
  lemma SearchedTrailTrusted(e: Engine, env: Env, crumbs: seq<Crumb>)
    requires EnvOk(e, env) && e.nav.Some? && Adjacent.Live(env.costs) && Placed(crumbs)
    requires Found(e, env).code == 0
    requires forall j | 0 <= j < |crumbs| - 1 :: OnPath(Found(e, env).path, KeyAt(crumbs, j))
    ensures var vis := Found(e, env).after.vischeck;
      Validate(crumbs, 0, vis, env.world.passable, env.costs.now, TraceExpiry(env)) == (true, vis)
  {
    var f := Found(e, env);
    FoundRecorded(e, env);
    forall j | 0 <= j < |crumbs| - 1 ensures LivePassable(f.after.vischeck, KeyAt(crumbs, j), env.costs.now) {
      OnPathLive(f.path, f.after.vischeck, env.costs.now, KeyAt(crumbs, j));
    }
    ValidateTrusted(crumbs, 0, f.after.vischeck, env.world.passable, env.costs.now, TraceExpiry(env));
  }

  /** A usable path: the trail is built, trimmed and validated. */
  method Follow(e: Engine, env: Env, req: Request, single: bool, path: seq<Option<nat>>) returns (r: Engine, ok: bool)
    requires EnvOk(e, env) && e.nav.Some? && env.localArea.Some?
    requires !single ==> Connected(e.nav.value.areas, path)
    requires e.ignoreTraces == req.ignoreTraces
    ensures ok ==> r.priority == req.priority
    ensures !ok ==> r.priority == e.priority
    ensures Keeps(e, req, r)
    ensures ok && !r.ignoreTraces ==> Validated(r)
    ensures req.ignoreTraces ==> r.ignoreTraces
    ensures ok && !req.ignoreTraces ==> r.strict.count == 0
    decreases Depth(req), 4
  {
    var e1 := Rebuild(e, env, req, single, path);
    r, ok := Check(e1, env, req);
    KeepsTrans(e, e1, r, req, req);
  }

  /** An empty path between different areas: the solver's code names the
      failure, and "no solution" may fall back to a request with traces
      off. */
  method NoPath(e: Engine, env: Env, req: Request, code: int) returns (r: Engine, ok: bool)
    requires EnvOk(e, env) && e.ignoreTraces == req.ignoreTraces
    ensures ok ==> r.priority == req.priority
    ensures !ok ==> r.priority == e.priority
    ensures Keeps(e, req, r)
    ensures ok ==> r.ignoreTraces
    ensures code != 1 ==> r == e.(failure := if code == 2 then StartEndSame else EngineError) && !ok
    ensures req.ignoreTraces ==> r.ignoreTraces
    ensures ok && !req.ignoreTraces ==> r.strict.count == 0
    decreases Depth(req), 3
  {
    if code != 1 {
      return e.(failure := if code == 2 then StartEndSame else EngineError), false;
    }
    var (fires, s) := StrictFallback(e.strict, req.dest, req.priority, req.ignoreTraces,
                                     env.costs.now, env.windowTicks);
    if !fires {
      return e.(strict := s, failure := NoSolution), false;
    }
    r, ok := Retry(e.(strict := s, failure := Fallback("No solution found")), env, req);
  }

  /** The emergency fallback: the same request with traces off. */
  method Retry(e: Engine, env: Env, req: Request) returns (r: Engine, ok: bool)
    requires EnvOk(e, env) && !req.ignoreTraces && StrictOk(e.strict)
    ensures ok ==> r.priority == req.priority
    ensures !ok ==> r.priority == e.priority
    ensures Keeps(e, req, r)
    ensures ok ==> r.ignoreTraces
    ensures r.strict == e.strict
    decreases Depth(req), 1
  {
    var ok1;
    r, ok1 := NavTo(e, env, req.(ignoreTraces := true));
    ok := ok1;
  }

  /** The engine with the trail of the found path, trimmed, and the crumb
      cache as building it left it. */
  method Rebuild(e: Engine, env: Env, req: Request, single: bool, path: seq<Option<nat>>) returns (r: Engine)
    requires e.nav.Some? && env.localArea.Some? && env.localArea.value < |e.nav.value.areas|
    requires !single ==> Connected(e.nav.value.areas, path)
    ensures r == e.(crumbs := r.crumbs, cache := r.cache, cacheDirty := r.cacheDirty)
    ensures Placed(r.crumbs)
    ensures Keeps(e, req, r)
  {
    var built := Trail(e.nav.value.areas, single, env.localArea.value, path, env, req.dest, e.cache, e.cacheDirty);
    TrimPlaced(built.0, e.lastCrumb, env.origin);
    r := e.(crumbs := Trim(built.0, e.lastCrumb, env.origin), cache := built.1, cacheDirty := built.2);
  }

  /** The trail checked by traces against the map's vischeck cache, and
      the engine with the cache as the check left it. */
  method Revalidate(e: Engine, env: Env) returns (valid: bool, r: Engine)
    requires e.nav.Some? && Placed(e.crumbs) && Adjacent.ValidSettings(env.costs)
    ensures r.nav.Some? && r == e.(nav := Some(e.nav.value.(vischeck := r.nav.value.vischeck)))
    ensures valid ==> Validated(r)
    ensures (forall j | 0 <= j < |e.crumbs| - 1 :: LivePassable(e.nav.value.vischeck, KeyAt(e.crumbs, j), env.costs.now))
              ==> valid && r == e
    ensures (forall j | 0 <= j < |e.crumbs| - 1 ::
               && !LiveBlocked(e.nav.value.vischeck, KeyAt(e.crumbs, j), env.costs.now)
               && (LivePassable(e.nav.value.vischeck, KeyAt(e.crumbs, j), env.costs.now)
                   || env.world.passable(e.crumbs[j].pos, e.crumbs[j + 1].pos))) ==> valid
  {
    var m := e.nav.value;
    var v := Validate(e.crumbs, 0, m.vischeck, env.world.passable, env.costs.now, TraceExpiry(env));
    RevalidateFacts(e.crumbs, m.vischeck, env);
    valid, r := v.0, e.(nav := Some(m.(vischeck := v.1)));
  }

  /** The two ways a check of the trail from its first pair passes. */
  lemma RevalidateFacts(crumbs: seq<Crumb>, vis: Vischeck, env: Env)
    requires Placed(crumbs) && Adjacent.ValidSettings(env.costs)
    ensures (forall j | 0 <= j < |crumbs| - 1 :: LivePassable(vis, KeyAt(crumbs, j), env.costs.now)) ==>
              Validate(crumbs, 0, vis, env.world.passable, env.costs.now, TraceExpiry(env)) == (true, vis)
    ensures (forall j | 0 <= j < |crumbs| - 1 ::
               && !LiveBlocked(vis, KeyAt(crumbs, j), env.costs.now)
               && (LivePassable(vis, KeyAt(crumbs, j), env.costs.now) || env.world.passable(crumbs[j].pos, crumbs[j + 1].pos))) ==>
              Validate(crumbs, 0, vis, env.world.passable, env.costs.now, TraceExpiry(env)).0
  {
    if forall j | 0 <= j < |crumbs| - 1 :: LivePassable(vis, KeyAt(crumbs, j), env.costs.now) {
      ValidateTrusted(crumbs, 0, vis, env.world.passable, env.costs.now, TraceExpiry(env));
    }
    if forall j | 0 <= j < |crumbs| - 1 ::
         && !LiveBlocked(vis, KeyAt(crumbs, j), env.costs.now)
         && (LivePassable(vis, KeyAt(crumbs, j), env.costs.now) || env.world.passable(crumbs[j].pos, crumbs[j + 1].pos)) {
      ValidatePasses(crumbs, 0, vis, env.world.passable, env.costs.now, TraceExpiry(env));
    }
  }

  /** Trimming keeps a placed trail placed. */
  lemma TrimPlaced(crumbs: seq<Crumb>, last: Crumb, origin: Vec3)
    requires Placed(crumbs)
    ensures Placed(Trim(crumbs, last, origin))
  {
    var r := Trim(crumbs, last, origin);
    forall k | 0 <= k < |r| ensures r[k].area.Some? {
      assert r[k] == crumbs[|crumbs| - |r| + k];
    }
  }

  /** Validation of a fresh trail (unless traces are ignored) and the
      commit: a blocked trail is dropped and either falls back to a request
      with traces off or fails; a request that passes takes its priority
      and, with traces on, clears the strict counter. */
  method Check(e: Engine, env: Env, req: Request) returns (r: Engine, ok: bool)
    requires EnvOk(e, env) && e.nav.Some? && Placed(e.crumbs)
    requires e.ignoreTraces == req.ignoreTraces
    ensures ok ==> r.priority == req.priority
    ensures !ok ==> r.priority == e.priority
    ensures Keeps(e, req, r)
    ensures ok && !r.ignoreTraces ==> Validated(r)
    ensures req.ignoreTraces ==> r.ignoreTraces
    ensures ok && !req.ignoreTraces ==> r.strict.count == 0
    decreases Depth(req), 3
  {
    if req.ignoreTraces || |e.crumbs| == 0 {
      return Commit(e, req), true;
    }
    var valid, e2 := Revalidate(e, env);
    if valid {
      return Commit(e2, req), true;
    }
    r, ok := Blocked(e, e2, env, req);
  }

  /** A successful request takes its priority and, with traces on, clears
      the strict counter. */
  function Commit(e: Engine, req: Request): (r: Engine)
    ensures r == e.(strict := r.strict, priority := req.priority)
    ensures req.ignoreTraces ==> r.strict == e.strict
    ensures !req.ignoreTraces ==> r.strict == e.strict.(count := 0)
  {
    e.(strict := if req.ignoreTraces then e.strict else e.strict.(count := 0), priority := req.priority)
  }

  /** A trail blocked by traces: it is dropped, and the strict counter
      decides between the fallback and a failure. */
  method Blocked(e: Engine, e2: Engine, env: Env, req: Request) returns (r: Engine, ok: bool)
    requires EnvOk(e, env) && e.nav.Some? && !req.ignoreTraces
    requires e2.nav.Some? && e2 == e.(nav := Some(e.nav.value.(vischeck := e2.nav.value.vischeck)))
    ensures ok ==> r.priority == req.priority
    ensures !ok ==> r.priority == e.priority
    ensures Keeps(e, req, r)
    ensures ok ==> r.ignoreTraces
    ensures ok && !req.ignoreTraces ==> r.strict.count == 0
    decreases Depth(req), 2
  {
    var (fires, s) := StrictFallback(e.strict, req.dest, req.priority, req.ignoreTraces,
                                     env.costs.now, env.windowTicks);
    if !fires {
      return e2.(crumbs := [], strict := s,
                 failure := Pending("Path blocked by traces", s.count, Threshold(req.priority))), false;
    }
    r, ok := Retry(e2.(crumbs := [], strict := s, failure := Fallback("Path blocked by traces")), env, req);
  }
}
