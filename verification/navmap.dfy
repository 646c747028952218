/** The path graph over a loaded mesh (`CMap`): the areas and their search
    tree, the per-connection caches, the free blacklist and the solver's
    scratch nodes, with the operations that read and reset them. */
module NavMap {
  import opened Util
  import opened Bytes
  import opened Nav
  import NavCodec
  import Wire
  import KdTree
  import opened Connection
  import opened Blacklist
  import opened Solver

  datatype NavState = Unavailable | Active

  datatype VischeckState = NotVisible | NotChecked | Visible

  /** What the engine remembers about one directed connection. */
  datatype CachedConnection = CachedConnection(
    expireTick: int, vischeck: VischeckState, cachedCost: real,
    dropdown: DropdownHint, points: NavPoints, passable: bool, stuckBlacklist: bool)

  /** The entry a lookup by `operator[]` inserts for an unseen connection. */
  const DefaultConnection: CachedConnection :=
    CachedConnection(0, NotChecked, FLT_MAX, NoDropdown(Zero), DefaultPoints, false, false)

  datatype CachedStucktime = CachedStucktime(expireTick: int, timeStuck: int)

  /** A directed connection, by the handles of its two areas. */
  type Key = (nat, nat)

  /** An expiry tick of 0 means "never expires". */
  predicate Unexpired(expireTick: int, now: int) {
    expireTick == 0 || expireTick > now
  }

  datatype MapState = MapState(
    mapName: string,
    state: NavState,
    areas: seq<Area>,
    tree: KdTree.Tree,
    vischeck: map<Key, CachedConnection>,
    stuckTime: map<Key, CachedStucktime>,
    freeBlacklist: FreeBlacklist,
    freeBlacklistBlocked: bool,
    ignoreSentry: bool,
    pather: Pather)

  /** Every connection of the mesh that points anywhere points into it. */
  predicate Closed(areas: seq<Area>) {
    forall i, k | 0 <= i < |areas| && 0 <= k < |areas[i].connections| ::
      areas[i].connections[k].area.Some? ==> areas[i].connections[k].area.value < |areas|
  }

  // ---------------------------------------------------------------------
  // Construction, validity, reset

  /** The map for a file's bytes (`None` when the file cannot be opened):
      active exactly when the file loads, and only then are there areas and
      a search tree. */
  function MakeMap(mapName: string, file: Option<Wire.Buf>, toReal: u32 -> real): (r: MapState)
    ensures r.state == Active <==> file.Some? && NavCodec.Load(file.value).Ok?
    ensures r.state == Active ==>
      && r.areas == NavCodec.Mesh(NavCodec.Load(file.value).value, toReal)
      && KdTree.ValidTree(r.areas, r.tree)
    ensures r.state == Unavailable ==> r.areas == [] && r.tree == KdTree.Nil
    ensures r.mapName == mapName
    ensures r.vischeck == map[] && r.stuckTime == map[] && r.freeBlacklist == map[]
    ensures !r.freeBlacklistBlocked && !r.ignoreSentry && r.pather == InitialPather
  {
    var loaded := if file.Some? then NavCodec.Load(file.value) else Err(Wire.BadMagic);
    var ok := file.Some? && loaded.Ok?;
    var areas := if ok then NavCodec.Mesh(loaded.value, toReal) else [];
    MapState(mapName, if ok then Active else Unavailable, areas,
             if ok then KdTree.Build(areas) else KdTree.Nil,
             map[], map[], map[], false, false, InitialPather)
  }

  /** The mesh of a loaded file is closed: every resolved connection names
      one of its areas. */
  lemma MeshClosed(f: NavCodec.NavFile, toReal: u32 -> real)
    ensures Closed(NavCodec.Mesh(f, toReal))
  {
    var m := NavCodec.Mesh(f, toReal);
    forall i, k | 0 <= i < |m| && 0 <= k < |m[i].connections| && m[i].connections[k].area.Some?
      ensures m[i].connections[k].area.value < |m|
    {
      NavCodec.MeshLinks(f, toReal, i, k);
    }
  }

  /** A pointer is valid when it is not null and lies within the areas. */
  function IsAreaValid(m: MapState, a: Option<nat>): (r: bool)
    ensures r <==> a.Some? && a.value < |m.areas|
    ensures |m.areas| == 0 ==> !r
  {
    a.Some? && |m.areas| > 0 && a.value < |m.areas|
  }

  /** Forgets the connection caches and the free blacklist. */
  function Reset(m: MapState): (r: MapState)
    ensures r.vischeck == map[] && r.stuckTime == map[] && r.freeBlacklist == map[]
    ensures r.(vischeck := m.vischeck, stuckTime := m.stuckTime, freeBlacklist := m.freeBlacklist) == m
  {
    m.(vischeck := map[], stuckTime := map[], freeBlacklist := map[])
  }

  /** Reset is idempotent, and a reset map has no blacklisted area. */
  lemma ResetIdempotent(m: MapState, a: nat)
    ensures Reset(Reset(m)) == Reset(m)
    ensures Lookup(Reset(m).freeBlacklist, a) == None
  {
  }

  /** A fresh cache entry never expires but is unusable: it was never
      checked and is not passable, so the next visit re-evaluates the
      connection. */
  lemma DefaultForcesEvaluation(now: int)
    ensures Unexpired(DefaultConnection.expireTick, now)
    ensures !DefaultConnection.passable && !DefaultConnection.stuckBlacklist
    ensures DefaultConnection.vischeck != Visible
  {
  }

  /** The tick `seconds` from now: the tick count plus the number of whole
      ticks in `seconds`, rounded toward zero. */
  function TickcountTimestamp(seconds: real, tick: int, interval: real): (r: int)
    requires interval > 0.0
    ensures seconds >= 0.0 ==> tick <= r
    ensures seconds >= 0.0 ==> (r - tick) as real <= seconds / interval < (r - tick + 1) as real
    ensures seconds < 0.0 ==> (r - tick - 1) as real < seconds / interval <= (r - tick) as real
  {
    tick + Trunc(seconds / interval)
  }

  // ---------------------------------------------------------------------
  // Path queries

  /** The straight-line distance between two areas' centers, the solver's
      heuristic towards `end`. */
  function Heuristic(areas: seq<Area>, end: nat, sqrt: real -> real): nat -> real {
    (i: nat) => if i < |areas| && end < |areas| then Length(Sub(areas[end].center, areas[i].center), sqrt) else 0.0
  }

  /** The path as the engine hands it on: area pointers. */
  function Lift(path: seq<nat>): (r: seq<Option<nat>>)
    ensures |r| == |path|
    ensures forall i | 0 <= i < |r| :: r[i] == Some(path[i])
  {
    if |path| == 0 then [] else [Some(path[0])] + Lift(path[1..])
  }

  /** The vischeck cache, the state the path search threads through its
      expansions. */
  type Vischeck = map<Key, CachedConnection>

  /** A path found on the map: it runs from `start` to `end` through areas
      of the mesh, and each of its steps holds in the cache `c`. */
  ghost predicate Located(m: MapState, step: (Vischeck, nat, nat) -> bool, c: Vischeck,
                          path: seq<Option<nat>>, start: Option<nat>, end: Option<nat>) {
    && start.Some? && end.Some?
    && |path| >= 1 && path[0] == start && path[|path| - 1] == end
    && (forall i | 0 <= i < |path| :: path[i].Some? && path[i].value < |m.areas|)
    && (forall i | 0 <= i < |path| - 1 :: step(c, path[i].value, path[i + 1].value))
  }

  /** What `FindPath` hands back for a solver outcome: the path as area
      pointers and code 0, code 1 when there is no path, or the start alone
      and code 2 when the solver rejected its arguments; the map takes the
      scratch nodes and the vischeck cache the search left. */
  function Report(m: MapState, start: Option<nat>, end: Option<nat>, ghost step: (Vischeck, nat, nat) -> bool,
                  out: Outcome, pather: Pather, c: Vischeck): (r: (seq<Option<nat>>, Option<nat>, MapState))
    requires out.Invalid? <==> !IsAreaValid(m, start) || !IsAreaValid(m, end)
    requires out.Solved? ==> Chain(step, c, out.path, start.value, end.value)
    requires out.Solved? ==> forall i | 0 <= i < |out.path| :: out.path[i] < |m.areas|
    ensures r.1.Some? && r.1.value <= 2 && r.2 == m.(pather := pather, vischeck := c)
    ensures r.1 == Some(2) <==> !IsAreaValid(m, start) || !IsAreaValid(m, end)
    ensures r.1 == Some(2) ==> r.0 == [start]
    ensures r.1 == Some(1) ==> r.0 == []
    ensures r.1 == Some(0) ==> Located(m, step, c, r.0, start, end)
  {
    if out.Solved? then (Lift(out.path), Some(0), m.(pather := pather, vischeck := c))
    else if out.NoPath? then ([], Some(1), m.(pather := pather, vischeck := c))
    else ([start], Some(2), m.(pather := pather, vischeck := c))
  }

  /** `FindPath`: nothing on an unavailable map; otherwise the solver's
      path, or the start alone when the solver rejects its arguments. The
      expansions of the search may write to the vischeck cache, and the map
      keeps what they wrote: every step of a path found holds in the cache
      the search leaves, and so does every step that held before it. */
  function FindPath(m: MapState, start: Option<nat>, end: Option<nat>, adj: (Vischeck, nat) -> (seq<Edge>, Vischeck),
                    ghost step: (Vischeck, nat, nat) -> bool, ghost inv: Vischeck -> bool,
                    sqrt: real -> real, fuel: nat): (r: (seq<Option<nat>>, Option<nat>, MapState))
    requires Graph(|m.areas|, adj, step, inv) && inv(m.vischeck) && ValidPather(m.pather)
    ensures m.state != Active ==> r == ([], None, m)
    ensures m.state == Active ==> r.1.Some? && r.1.value <= 2 && ValidPather(r.2.pather)
    ensures m.state == Active ==>
      (r.1 == Some(2) <==> !IsAreaValid(m, start) || !IsAreaValid(m, end))
    ensures r.1 == Some(2) ==> r.0 == [start] && r.2.vischeck == m.vischeck
    ensures r.1 == Some(1) ==> r.0 == []
    ensures r.1 == Some(0) ==> Located(m, step, r.2.vischeck, r.0, start, end)
    ensures r.2 == m.(pather := r.2.pather, vischeck := r.2.vischeck)
    ensures inv(r.2.vischeck) && Kept(step, m.vischeck, r.2.vischeck)
  {
    if m.state != Active then ([], None, m)
    else
      var h := Heuristic(m.areas, if end.Some? then end.value else 0, sqrt);
      var solved := Solve(m.pather, |m.areas|, start, end, adj, step, inv, h, m.vischeck, fuel);
      Report(m, start, end, step, solved.0, solved.1, solved.2)
  }

  // ---------------------------------------------------------------------
  // Areas around a point

  const COLLECT_LOOP_LIMIT: int := 2048

  /** The search queue: areas of the mesh, each once, each visited, each
      with its squared distance to the origin. */
  predicate QueueOk(areas: seq<Area>, origin: Vec3, queue: seq<(nat, real)>, visited: set<nat>) {
    && (forall i | 0 <= i < |queue| ::
          queue[i].0 < |areas| && queue[i].0 in visited
          && queue[i].1 == DistSq(areas[queue[i].0].center, origin))
    && (forall i, j | 0 <= i < j < |queue| :: queue[i].0 != queue[j].0)
  }

  /** The areas collected so far: visited, and none still queued. */
  predicate Apart(out: seq<nat>, queue: seq<(nat, real)>, visited: set<nat>) {
    && (forall i | 0 <= i < |out| :: out[i] in visited)
    && (forall i, j | 0 <= i < |out| && 0 <= j < |queue| :: out[i] != queue[j].0)
  }

  /** `v` waits in the queue. */
  predicate Queued(queue: seq<(nat, real)>, v: nat) {
    exists i | 0 <= i < |queue| :: queue[i].0 == v
  }

  /** Every area `links` points to whose center lies within `bound`
      (squared) of the origin is in `s`. */
  predicate LinksIn(areas: seq<Area>, links: seq<Link>, origin: Vec3, bound: real, s: set<nat>) {
    forall k | 0 <= k < |links| && links[k].area.Some? && links[k].area.value < |areas|
                && DistSq(areas[links[k].area.value].center, origin) <= bound ::
      links[k].area.value in s
  }

  /** An area taken off the queue is settled: collected when within `r2`,
      and when within `limit` its neighbours within `limit` are visited. */
  predicate Settled(areas: seq<Area>, origin: Vec3, r2: real, limit: real, v: nat,
                    visited: set<nat>, out: seq<nat>)
    requires v < |areas|
  {
    && (DistSq(areas[v].center, origin) <= r2 ==> v in out)
    && (DistSq(areas[v].center, origin) <= limit ==> LinksIn(areas, areas[v].connections, origin, limit, visited))
  }

  /** Every visited area is a mesh area that is either settled (in `done`)
      or still queued. */
  predicate Frontier(areas: seq<Area>, origin: Vec3, r2: real, limit: real, queue: seq<(nat, real)>,
                     visited: set<nat>, out: seq<nat>, done: set<nat>) {
    && (forall v | v in visited :: v < |areas| && (v in done || Queued(queue, v)))
    && (forall v | v in done :: v < |areas| && Settled(areas, origin, r2, limit, v, visited, out))
  }

  /** Taking the head off the queue keeps it well formed, and the head
      may join the collected areas. */
  lemma Pop(areas: seq<Area>, origin: Vec3, queue: seq<(nat, real)>, visited: set<nat>, out: seq<nat>)
    requires |queue| > 0 && QueueOk(areas, origin, queue, visited) && Apart(out, queue, visited)
    ensures QueueOk(areas, origin, queue[1..], visited)
    ensures Apart(out, queue[1..], visited) && Apart(out + [queue[0].0], queue[1..], visited)
    ensures queue[0].0 < |areas| && queue[0].0 !in out
    ensures queue[0].1 == DistSq(areas[queue[0].0].center, origin)
  {
    var out' := out + [queue[0].0];
    forall i, j | 0 <= i < |out'| && 0 <= j < |queue[1..]| ensures out'[i] != queue[1..][j].0 {
      assert queue[1..][j] == queue[j + 1];
    }
    assert forall i | 0 <= i < |out| :: out[i] != queue[0].0;
  }

  /** Areas listed at most once each. */
  predicate Distinct(out: seq<nat>) {
    forall i, j | 0 <= i < j < |out| :: out[i] != out[j]
  }

  /** Areas of the mesh whose centers lie within `r2` (squared) of `origin`. */
  predicate Within(areas: seq<Area>, origin: Vec3, out: seq<nat>, r2: real) {
    forall i | 0 <= i < |out| :: out[i] < |areas| && DistSq(areas[out[i]].center, origin) <= r2
  }

  /** The state of `Enqueue` after the first `k` links: the queue keeps
      its old entries and appends newly visited areas within `limit`, one
      each; every neighbour so far within `limit` is visited. */
  predicate Enqueuing(areas: seq<Area>, links: seq<Link>, k: nat, origin: Vec3, limit: real,
                      queue: seq<(nat, real)>, visited: set<nat>, out: seq<nat>,
                      q: seq<(nat, real)>, vis: set<nat>)
    requires k <= |links|
  {
    && QueueOk(areas, origin, q, vis) && Apart(out, q, vis)
    && visited <= vis
    && |queue| <= |q| && q[..|queue|] == queue
    && (forall i | |queue| <= i < |q| :: q[i].0 !in visited && q[i].1 <= limit)
    && |vis| - |visited| == |q| - |queue|
    && (forall v | v in vis && v !in visited :: v < |areas| && Queued(q, v))
    && LinksIn(areas, links[..k], origin, limit, vis)
  }

  /** A link that queues nothing keeps the state. */
  lemma EnqueueSkip(areas: seq<Area>, links: seq<Link>, k: nat, origin: Vec3, limit: real,
                    queue: seq<(nat, real)>, visited: set<nat>, out: seq<nat>,
                    q: seq<(nat, real)>, vis: set<nat>)
    requires k < |links| && Enqueuing(areas, links, k, origin, limit, queue, visited, out, q, vis)
    requires links[k].area.Some? ==> links[k].area.value < |areas|
    requires links[k].area.Some? ==>
      DistSq(areas[links[k].area.value].center, origin) > limit || links[k].area.value in vis
    ensures Enqueuing(areas, links, k + 1, origin, limit, queue, visited, out, q, vis)
  {
    assert links[..k + 1] == links[..k] + [links[k]];
  }

  /** A link to an unvisited area within `limit` queues that area. */
  lemma EnqueueAdd(areas: seq<Area>, links: seq<Link>, k: nat, origin: Vec3, limit: real,
                   queue: seq<(nat, real)>, visited: set<nat>, out: seq<nat>,
                   q: seq<(nat, real)>, vis: set<nat>, n: nat)
    requires k < |links| && Enqueuing(areas, links, k, origin, limit, queue, visited, out, q, vis)
    requires links[k].area == Some(n) && n < |areas| && n !in vis
    requires DistSq(areas[n].center, origin) <= limit
    ensures Enqueuing(areas, links, k + 1, origin, limit, queue, visited, out,
                      q + [(n, DistSq(areas[n].center, origin))], vis + {n})
  {
    var q' := q + [(n, DistSq(areas[n].center, origin))];
    var vis' := vis + {n};
    assert links[..k + 1] == links[..k] + [links[k]];
    assert q'[..|queue|] == queue by {
      assert q'[..|q|] == q;
    }
    assert QueueOk(areas, origin, q', vis');
    assert Apart(out, q', vis');
    forall v | v in vis' && v !in visited ensures v < |areas| && Queued(q', v) {
      if v == n {
        assert q'[|q|].0 == n;
      } else {
        var i :| 0 <= i < |q| && q[i].0 == v;
        assert q'[i] == q[i];
      }
    }
  }

  /** Queues the unvisited neighbours, through `links`, whose centers lie
      within `limit` of the origin (squared): afterwards every neighbour
      within `limit` is visited, and each newly visited area is queued
      once. */
  method Enqueue(areas: seq<Area>, links: seq<Link>, origin: Vec3, limit: real,
                 queue: seq<(nat, real)>, visited: set<nat>, ghost out: seq<nat>)
    returns (queue': seq<(nat, real)>, visited': set<nat>)
    requires forall k | 0 <= k < |links| :: links[k].area.Some? ==> links[k].area.value < |areas|
    requires QueueOk(areas, origin, queue, visited) && Apart(out, queue, visited)
    ensures QueueOk(areas, origin, queue', visited') && Apart(out, queue', visited')
    ensures visited <= visited'
    ensures |queue| <= |queue'| && queue'[..|queue|] == queue
    ensures forall i | |queue| <= i < |queue'| :: queue'[i].0 !in visited && queue'[i].1 <= limit
    ensures |visited'| - |visited| == |queue'| - |queue|
    ensures forall v | v in visited' && v !in visited :: v < |areas| && Queued(queue', v)
    ensures LinksIn(areas, links, origin, limit, visited')
  {
    queue', visited' := queue, visited;
    assert queue'[..|queue|] == queue;
    var k := 0;
    while k < |links|
      invariant 0 <= k <= |links|
      invariant Enqueuing(areas, links, k, origin, limit, queue, visited, out, queue', visited')
    {
      var next := links[k].area;
      if next.Some? && DistSq(areas[next.value].center, origin) <= limit && next.value !in visited' {
        var n := next.value;
        EnqueueAdd(areas, links, k, origin, limit, queue, visited, out, queue', visited', n);
        visited' := visited' + {n};
        queue' := queue' + [(n, DistSq(areas[n].center, origin))];
      } else {
        EnqueueSkip(areas, links, k, origin, limit, queue, visited, out, queue', visited');
      }
      k := k + 1;
    }
    assert links[..k] == links;
  }

  /** A settled area stays settled as the visited set and the collected
      areas grow. */
  lemma SettledGrows(areas: seq<Area>, origin: Vec3, r2: real, limit: real, v: nat,
                     visited: set<nat>, out: seq<nat>, visited': set<nat>, out': seq<nat>)
    requires v < |areas| && Settled(areas, origin, r2, limit, v, visited, out)
    requires visited <= visited' && (forall x | x in out :: x in out')
    ensures Settled(areas, origin, r2, limit, v, visited', out')
  {
  }

  /** One step of the search: the head of the queue is collected when it
      lies within `r2`, and its neighbours are queued when it lies within
      `limit`; the head is then settled. */
  method Visit(areas: seq<Area>, origin: Vec3, r2: real, limit: real,
               queue: seq<(nat, real)>, visited: set<nat>, out: seq<nat>, ghost done: set<nat>)
    returns (queue': seq<(nat, real)>, visited': set<nat>, out': seq<nat>)
    requires Closed(areas) && |queue| > 0
    requires QueueOk(areas, origin, queue, visited) && Apart(out, queue, visited)
    requires Within(areas, origin, out, r2) && Distinct(out)
    requires Frontier(areas, origin, r2, limit, queue, visited, out, done)
    ensures QueueOk(areas, origin, queue', visited') && Apart(out', queue', visited')
    ensures Within(areas, origin, out', r2) && Distinct(out')
    ensures queue[0].1 <= r2 ==> out' == out + [queue[0].0]
    ensures queue[0].1 > r2 ==> out' == out
    ensures |visited'| - |visited| == |queue'| - |queue| + 1
    ensures Frontier(areas, origin, r2, limit, queue', visited', out', done + {queue[0].0})
  {
    Pop(areas, origin, queue, visited, out);
    var (a, d) := queue[0];
    queue', visited', out' := queue[1..], visited, out;
    if d <= r2 {
      out' := out + [a];
    }
    if d <= limit {
      queue', visited' := Enqueue(areas, areas[a].connections, origin, limit, queue', visited', out');
    }
    assert |queue'| >= |queue| - 1 && queue'[..|queue| - 1] == queue[1..];
    forall v | v in done + {a} ensures v < |areas| && Settled(areas, origin, r2, limit, v, visited', out') {
      if v != a {
        SettledGrows(areas, origin, r2, limit, v, visited, out, visited', out');
      }
    }
    forall v | v in visited' ensures v in done + {a} || Queued(queue', v) {
      if v in visited && v !in done && v != a {
        var i :| 0 <= i < |queue| && queue[i].0 == v;
        assert queue'[i - 1] == queue[i];
      }
    }
  }

  /** A set of mesh areas has at most as many members as the mesh. */
  lemma {:induction false} AreasBound(s: set<nat>, n: nat)
    requires forall x | x in s :: x < n
    ensures |s| <= n
    decreases n
  {
    if n == 0 {
      assert s == {};
    } else {
      AreasBound(s - {n - 1}, n - 1);
    }
  }

  /** The area the collection starts from (`FindClosestNavArea` without
      the local-origin scan): the area containing the origin, else the one
      with the nearest center. */
  function SeedArea(m: MapState, origin: Vec3): (r: Option<nat>)
    requires KdTree.ValidTree(m.areas, m.tree)
    ensures r.Some? ==> r.value < |m.areas|
    ensures KdTree.FindContainingArea(m.areas, m.tree, origin).Some? ==>
      r == KdTree.FindContainingArea(m.areas, m.tree, origin)
    ensures KdTree.FindContainingArea(m.areas, m.tree, origin).None? ==>
      r == KdTree.FindClosestArea(m.areas, m.tree, origin)
  {
    KdTree.FindArea(m.areas, m.tree, origin).area
  }

  /** Every area `a` connects to whose center lies within `r2` (squared)
      of the origin is collected. */
  predicate NeighboursIn(areas: seq<Area>, origin: Vec3, r2: real, a: nat, out: seq<nat>)
    requires a < |areas|
  {
    LinksIn(areas, areas[a].connections, origin, r2, set x | x in out)
  }

  /** Once the queue is empty, every collected area has its neighbours
      within `r2` collected too. */
  lemma Drained(areas: seq<Area>, origin: Vec3, r2: real, limit: real,
                visited: set<nat>, out: seq<nat>, done: set<nat>)
    requires r2 <= limit && Frontier(areas, origin, r2, limit, [], visited, out, done)
    requires forall i | 0 <= i < |out| :: out[i] in visited
    ensures forall i | 0 <= i < |out| && out[i] < |areas| && DistSq(areas[out[i]].center, origin) <= r2 ::
      NeighboursIn(areas, origin, r2, out[i], out)
  {
    forall i | 0 <= i < |out| && out[i] < |areas| && DistSq(areas[out[i]].center, origin) <= r2
      ensures NeighboursIn(areas, origin, r2, out[i], out)
    {
      var a := out[i];
      assert a in done && Settled(areas, origin, r2, limit, a, visited, out);
      var links := areas[a].connections;
      forall k | 0 <= k < |links| && links[k].area.Some? && links[k].area.value < |areas|
                 && DistSq(areas[links[k].area.value].center, origin) <= r2
        ensures links[k].area.value in set x | x in out
      {
        var n := links[k].area.value;
        assert n in visited;
        assert n in done && Settled(areas, origin, r2, limit, n, visited, out);
      }
    }
  }

  /** What the collection around `origin` yields from `seed`: nothing
      without a seed; otherwise distinct mesh areas, all within `r2`
      (squared) of the origin or else the seed alone, with a seed within
      `r2` first; and, when the step budget covers the mesh, every
      neighbour within `r2` of an area collected within `r2`, so every
      area joined to the seed through areas within `r2`. */
  predicate Gathered(areas: seq<Area>, seed: Option<nat>, origin: Vec3, r2: real, out: seq<nat>) {
    && (seed.None? <==> out == [])
    && (forall i | 0 <= i < |out| :: out[i] < |areas|)
    && Distinct(out)
    && (seed.Some? ==> out == [seed.value] || Within(areas, origin, out, r2))
    && (seed.Some? && seed.value < |areas| && DistSq(areas[seed.value].center, origin) <= r2 ==>
          out != [] && out[0] == seed.value && Within(areas, origin, out, r2))
    && (|areas| <= COLLECT_LOOP_LIMIT ==>
          forall i | 0 <= i < |out| && out[i] < |areas| && DistSq(areas[out[i]].center, origin) <= r2 ::
            NeighboursIn(areas, origin, r2, out[i], out))
  }

  /** Breadth-first search from the area closest to `origin` over areas
      whose centers lie within twice `radius`, collecting those within
      `radius`, for at most 2048 steps; the seed alone when nothing is
      close enough. */
  method CollectAreasAround(m: MapState, origin: Vec3, radius: real) returns (out: seq<nat>)
    requires Closed(m.areas) && KdTree.ValidTree(m.areas, m.tree)
    ensures Gathered(m.areas, SeedArea(m, origin), origin, radius * radius, out)
  {
    var seed := SeedArea(m, origin);
    if seed.None? {
      return [];
    }
    var areas := m.areas;
    var s := seed.value;
    var r2 := radius * radius;
    var limit := r2 * 4.0;
    assert r2 <= limit;
    var d0 := DistSq(areas[s].center, origin);
    var queue: seq<(nat, real)> := [(s, d0)];
    var visited: set<nat> := {s};
    ghost var done: set<nat> := {};
    var loops := COLLECT_LOOP_LIMIT;
    out := [];
    assert queue[0].0 == s;
    while |queue| > 0 && loops > 0
      invariant 0 <= loops <= COLLECT_LOOP_LIMIT
      invariant loops == COLLECT_LOOP_LIMIT ==> out == [] && queue == [(s, d0)]
      invariant loops < COLLECT_LOOP_LIMIT && d0 <= r2 ==> |out| > 0 && out[0] == s
      invariant QueueOk(areas, origin, queue, visited) && Apart(out, queue, visited)
      invariant Within(areas, origin, out, r2) && Distinct(out)
      invariant Frontier(areas, origin, r2, limit, queue, visited, out, done)
      invariant |visited| == COLLECT_LOOP_LIMIT - loops + |queue|
      decreases loops
    {
      loops := loops - 1;
      ghost var head := queue[0].0;
      queue, visited, out := Visit(areas, origin, r2, limit, queue, visited, out, done);
      done := done + {head};
    }
    if |areas| <= COLLECT_LOOP_LIMIT {
      AreasBound(visited, |areas|);
      assert |queue| == 0;
      Drained(areas, origin, r2, limit, visited, out, done);
    }
    if |out| == 0 {
      out := [s];
    }
  }

  /** An area a mark around `origin` may reach: its center, raised to
      crouched-jump height, lies within `radius` and, when required, in
      sight of the origin. */
  predicate Marked(a: Area, origin: Vec3, radius: real, requireLOS: bool, visible: Vec3 -> bool) {
    var p := a.center.(z := a.center.z + PLAYER_CROUCHED_JUMP_HEIGHT);
    Dot(Sub(p, origin), Sub(p, origin)) <= radius * radius && (requireLOS ==> visible(p))
  }

  /** Every candidate the mark reaches gets it merged in. */
  lemma MarkedMerged(m: MapState, candidates: seq<nat>, origin: Vec3, radius: real,
                     incoming: Entry, requireLOS: bool, visible: Vec3 -> bool)
    requires forall i | 0 <= i < |candidates| :: candidates[i] < |m.areas|
    ensures var bl := ApplyAround(m.freeBlacklist, m.areas, candidates, origin, radius, incoming,
                                  requireLOS, visible, m.ignoreSentry);
      forall i | 0 <= i < |candidates| && Marked(m.areas[candidates[i]], origin, radius, requireLOS, visible) ::
        Lookup(bl, candidates[i]) == Some(Merge(Lookup(m.freeBlacklist, candidates[i]), incoming, m.ignoreSentry))
  {
    forall i | 0 <= i < |candidates| && Marked(m.areas[candidates[i]], origin, radius, requireLOS, visible)
      ensures Lookup(ApplyAround(m.freeBlacklist, m.areas, candidates, origin, radius, incoming,
                                 requireLOS, visible, m.ignoreSentry), candidates[i])
              == Some(Merge(Lookup(m.freeBlacklist, candidates[i]), incoming, m.ignoreSentry))
    {
      ApplyAroundEffect(m.freeBlacklist, m.areas, candidates, origin, radius, incoming,
                        requireLOS, visible, m.ignoreSentry, candidates[i]);
    }
  }

  /** Only areas the mark reaches change, each by merging the mark in. */
  lemma OnlyMarkedChange(m: MapState, candidates: seq<nat>, origin: Vec3, radius: real,
                         incoming: Entry, requireLOS: bool, visible: Vec3 -> bool)
    requires forall i | 0 <= i < |candidates| :: candidates[i] < |m.areas|
    ensures var bl := ApplyAround(m.freeBlacklist, m.areas, candidates, origin, radius, incoming,
                                  requireLOS, visible, m.ignoreSentry);
      forall a: nat :: Lookup(bl, a) != Lookup(m.freeBlacklist, a) ==>
        && a < |m.areas|
        && Marked(m.areas[a], origin, radius, requireLOS, visible)
        && Lookup(bl, a) == Some(Merge(Lookup(m.freeBlacklist, a), incoming, m.ignoreSentry))
  {
    var bl := ApplyAround(m.freeBlacklist, m.areas, candidates, origin, radius, incoming,
                          requireLOS, visible, m.ignoreSentry);
    forall a: nat
      ensures Lookup(bl, a) != Lookup(m.freeBlacklist, a) ==>
        && a < |m.areas|
        && Marked(m.areas[a], origin, radius, requireLOS, visible)
        && Lookup(bl, a) == Some(Merge(Lookup(m.freeBlacklist, a), incoming, m.ignoreSentry))
    {
      ApplyAroundEffect(m.freeBlacklist, m.areas, candidates, origin, radius, incoming,
                        requireLOS, visible, m.ignoreSentry, a);
    }
  }

  /** How far around the origin a mark collects areas: half a player
      wider than its radius. */
  function Reach(radius: real): real {
    radius + PLAYER_WIDTH / 2.0
  }

  /** `ApplyBlacklistAround`: marks the areas collected around `origin`
      (searched half a player wider than `radius`, and handed back as the
      candidates) whose raised centers are within `radius` and, when
      required, in sight. Each such candidate gets the mark merged in;
      nothing but the free blacklist changes, and only areas the mark
      reaches change in it. */
  method ApplyBlacklistAround(m: MapState, origin: Vec3, radius: real,
                              incoming: Entry, requireLOS: bool, visible: Vec3 -> bool)
    returns (r: MapState, candidates: seq<nat>)
    requires Closed(m.areas) && KdTree.ValidTree(m.areas, m.tree)
    ensures Gathered(m.areas, SeedArea(m, origin), origin, Reach(radius) * Reach(radius), candidates)
    ensures r == m.(freeBlacklist := r.freeBlacklist)
    ensures forall i | 0 <= i < |candidates| && Marked(m.areas[candidates[i]], origin, radius, requireLOS, visible) ::
      Lookup(r.freeBlacklist, candidates[i]) == Some(Merge(Lookup(m.freeBlacklist, candidates[i]), incoming, m.ignoreSentry))
    ensures forall a: nat :: Lookup(r.freeBlacklist, a) != Lookup(m.freeBlacklist, a) ==>
      && a < |m.areas|
      && Marked(m.areas[a], origin, radius, requireLOS, visible)
      && Lookup(r.freeBlacklist, a) == Some(Merge(Lookup(m.freeBlacklist, a), incoming, m.ignoreSentry))
  {
    candidates := CollectAreasAround(m, origin, Reach(radius));
    var bl := ApplyAround(m.freeBlacklist, m.areas, candidates, origin, radius, incoming,
                          requireLOS, visible, m.ignoreSentry);
    MarkedMerged(m, candidates, origin, radius, incoming, requireLOS, visible);
    OnlyMarkedChange(m, candidates, origin, radius, incoming, requireLOS, visible);
    r := m.(freeBlacklist := bl);
  }
}
