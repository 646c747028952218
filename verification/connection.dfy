/** How the path graph looks at one connection between two areas: the
    points a bot walks through, the drop-down or climb adjustment at the
    edge, the cost terms of `EvaluateConnectionCost`, and the two link
    queries `HasDirectConnection` and `IsOneWay`.

    Lengths need a square root, which is a parameter `sqrt`; nothing proved
    here depends on what it returns. The ground probe of the drop-down
    search is a trace and is a parameter too: `ground(p)` is the floor
    height under `p`, or `None` when the trace hits nothing. */
module Connection {
  import opened Util
  import opened Nav

  const PLAYER_WIDTH: real := 49.0
  const PLAYER_HEIGHT: real := 83.0
  const PLAYER_CROUCHED_JUMP_HEIGHT: real := 72.0
  const PLAYER_JUMP_HEIGHT: real := 50.0

  // ---------------------------------------------------------------------
  // Vector helpers

  const Zero: Vec3 := Vec3(0.0, 0.0, 0.0)

  function Add(a: Vec3, b: Vec3): Vec3 { Vec3(a.x + b.x, a.y + b.y, a.z + b.z) }
  function Sub(a: Vec3, b: Vec3): Vec3 { Vec3(a.x - b.x, a.y - b.y, a.z - b.z) }
  function Scale(a: Vec3, k: real): Vec3 { Vec3(a.x * k, a.y * k, a.z * k) }
  function Flat(a: Vec3): Vec3 { Vec3(a.x, a.y, 0.0) }
  function Dot(a: Vec3, b: Vec3): real { a.x * b.x + a.y * b.y + a.z * b.z }

  function Length(a: Vec3, sqrt: real -> real): real { sqrt(Dot(a, a)) }

  /** `std::clamp`. */
  function Clamp(v: real, lo: real, hi: real): (r: real)
    requires lo <= hi
    ensures lo <= r <= hi
    ensures lo <= v <= hi ==> r == v
  {
    if v < lo then lo else if hi < v then hi else v
  }

  // ---------------------------------------------------------------------
  // Link queries

  /** Whether some connection in `links` resolved to area `to`. */
  predicate LinksTo(links: seq<Link>, to: nat) {
    exists k :: 0 <= k < |links| && links[k].area == Some(to)
  }

  function FindLink(links: seq<Link>, to: nat): (r: bool)
    ensures r <==> LinksTo(links, to)
  {
    if |links| == 0 then false
    else if links[0].area == Some(to) then true
    else
      var rest := FindLink(links[1..], to);
      assert LinksTo(links[1..], to) ==> LinksTo(links, to) by {
        if LinksTo(links[1..], to) {
          var k :| 0 <= k < |links[1..]| && links[1..][k].area == Some(to);
          assert links[k + 1].area == Some(to);
        }
      }
      assert LinksTo(links, to) && links[0].area != Some(to) ==> LinksTo(links[1..], to) by {
        if LinksTo(links, to) && links[0].area != Some(to) {
          var k :| 0 <= k < |links| && links[k].area == Some(to);
          assert k > 0 && links[1..][k - 1].area == Some(to);
        }
      }
      rest
  }

  /** Null on either side is no connection; an area is connected to itself;
      otherwise `to` must be among `from`'s connections. */
  function HasDirectConnection(areas: seq<Area>, from: Option<nat>, to: Option<nat>): (r: bool)
    requires from.Some? ==> from.value < |areas|
    ensures r <==> from.Some? && to.Some? && (from == to || LinksTo(areas[from.value].connections, to.value))
  {
    if from.None? || to.None? then false
    else if from == to then true
    else FindLink(areas[from.value].connections, to.value)
  }

  /** A connection is one-way when the target has no connection back; a
      null end counts as one-way. */
  function IsOneWay(areas: seq<Area>, from: Option<nat>, to: Option<nat>): (r: bool)
    requires to.Some? ==> to.value < |areas|
    ensures r <==> from.None? || to.None? || !LinksTo(areas[to.value].connections, from.value)
  {
    if from.None? || to.None? then true
    else !FindLink(areas[to.value].connections, from.value)
  }

  /** Between two distinct areas, one-way means exactly that there is no
      direct connection back. */
  lemma OneWayIsNoWayBack(areas: seq<Area>, a: nat, b: nat)
    requires a < |areas| && b < |areas| && a != b
    ensures IsOneWay(areas, Some(a), Some(b)) <==> !HasDirectConnection(areas, Some(b), Some(a))
  {
  }

  // ---------------------------------------------------------------------
  // The points of a connection (`DeterminePoints`)

  /** Where a bot starts (the current area's center), the point it crosses
      at, the nearest point to that on the next area, and the next center. */
  datatype NavPoints = NavPoints(current: Vec3, center: Vec3, centerNext: Vec3, next: Vec3)

  const DefaultPoints: NavPoints := NavPoints(Zero, Zero, Zero, Zero)

  /** The crossing point is the current area's point nearest the next
      center, unless that point is aligned with neither center on either
      axis; then it is the next area's point nearest the current center,
      with the current area's height there. */
  function DeterminePoints(cur: Area, next: Area): (r: NavPoints)
    ensures r.current == cur.center && r.next == next.center
  {
    var cc := cur.center;
    var nc := next.center;
    var curClosest := GetNearestPoint(cur, nc.x, nc.y);
    var nextClosest := GetNearestPoint(next, cc.x, cc.y);
    var closest :=
      if curClosest.x != cc.x && curClosest.y != cc.y && curClosest.x != nc.x && curClosest.y != nc.y
      then nextClosest.(z := GetNearestPoint(cur, nextClosest.x, nextClosest.y).z)
      else curClosest;
    NavPoints(cc, closest, GetNearestPoint(next, closest.x, closest.y), nc)
  }

  /** On well-formed areas the crossing point lies on one of the two areas
      and its height is always read off the current area; the height-check
      point lies on the next area. */
  lemma PointsOnAreas(cur: Area, next: Area)
    requires Ordered(cur) && Ordered(next)
    ensures var p := DeterminePoints(cur, next);
      && IsOverlapping(next, p.centerNext, 0.0)
      && (IsOverlapping(cur, p.center, 0.0) || IsOverlapping(next, p.center, 0.0))
      && p.center.z == GetNearestPoint(cur, p.center.x, p.center.y).z
  {
    var p := DeterminePoints(cur, next);
    var cc := cur.center;
    var nc := next.center;
    var a := GetNearestPoint(cur, nc.x, nc.y);
    var b := GetNearestPoint(next, cc.x, cc.y);
    if a.x != cc.x && a.y != cc.y && a.x != nc.x && a.y != nc.y {
      assert p.center == b.(z := GetNearestPoint(cur, b.x, b.y).z);
      assert IsOverlapping(next, p.center, 0.0);
    } else {
      assert p.center == a;
      GetNearestPointIdempotent(cur, nc.x, nc.y);
    }
  }

  // ---------------------------------------------------------------------
  // Drop-downs and climbs (`HandleDropdown`)

  datatype DropdownHint = DropdownHint(
    adjustedPos: Vec3, requiresDrop: bool, dropHeight: real,
    approachDistance: real, approachDir: Vec3)

  /** The hint for a connection that needs neither a drop nor a climb. */
  function NoDropdown(p: Vec3): DropdownHint {
    DropdownHint(p, false, 0.0, 0.0, Zero)
  }

  /** Heights and distances of a hint are never negative. */
  predicate SaneHint(d: DropdownHint) {
    d.dropHeight >= 0.0 && d.approachDistance >= 0.0
  }

  /** Drops up to this height need no special handling. */
  const SMALL_DROP_GRACE: real := 18.0
  const EDGE_PADDING: real := 8.0
  const PROBE_COUNT: nat := 8

  /** How far to walk towards a drop before the edge search: half the drop
      height clamped to a player-width band, kept short of the far edge,
      at least a minimum advance, and never beyond 95% of the way. */
  function DropApproach(drop: real, hlen: real, oneWay: bool): (r: real)
    requires hlen > 1.0
    ensures 0.0 <= r <= hlen * 0.95
  {
    var desired := Clamp(drop * 0.5, PLAYER_WIDTH * 0.85, PLAYER_WIDTH * 2.5);
    var maxAdvance := Max(hlen - EDGE_PADDING, 0.0);
    var a0 := if maxAdvance > 0.0 then Min(desired, maxAdvance) else Min(desired, hlen * 0.8);
    var ratio := if oneWay then 0.35 else 0.5;
    var width := if oneWay then PLAYER_WIDTH * 0.5 else PLAYER_WIDTH * 0.75;
    var minAdvance := Min(hlen * 0.95, Max(width, hlen * ratio));
    var a1 := Max(a0, minAdvance);
    var a2 := Min(a1, hlen * 0.95);
    Max(a2, 0.0)
  }

  /** The i-th probe distance of the edge search, from `start` (i = 0) to
      `end` (i = 8) in equal steps. */
  function ProbeDistance(start: real, end: real, i: nat): (d: real)
    requires i <= PROBE_COUNT
    ensures Min(start, end) <= d <= Max(start, end)
  {
    var t := i as real / PROBE_COUNT as real;
    assert 0.0 <= t <= 1.0;
    var d := start + (end - start) * Clamp(t, 0.0, 1.0);
    assert d == start * (1.0 - t) + end * t;
    MulBetween(start, end, t);
    d
  }

  lemma MulBetween(a: real, b: real, t: real)
    requires 0.0 <= t <= 1.0
    ensures Min(a, b) <= a * (1.0 - t) + b * t <= Max(a, b)
  {
    var lo := Min(a, b);
    var hi := Max(a, b);
    assert lo * (1.0 - t) + lo * t == lo;
    assert hi * (1.0 - t) + hi * t == hi;
    assert a * (1.0 - t) >= lo * (1.0 - t) && b * t >= lo * t by {
      MulNonNeg(a - lo, 1.0 - t);
      MulNonNeg(b - lo, t);
    }
    assert a * (1.0 - t) <= hi * (1.0 - t) && b * t <= hi * t by {
      MulNonNeg(hi - a, 1.0 - t);
      MulNonNeg(hi - b, t);
    }
  }

  /** A point `dist` along `dir` from `from`, at `from`'s height. */
  function Along(from: Vec3, dir: Vec3, dist: real): (p: Vec3)
    ensures p.z == from.z
  {
    Add(from, Scale(dir, dist)).(z := from.z)
  }

  /** The edge search from probe `i` on: the first probe with ground under
      it no more than a jump below the start, and with a hole or a drop of
      at least max(16, 35% of the drop) just ahead, as (distance, point). */
  function Probe(cur: Vec3, dir: Vec3, drop: real, hlen: real, start: real, end: real,
                 ground: Vec3 -> Option<real>, i: nat): (r: Option<(real, Vec3)>)
    requires i <= PROBE_COUNT + 1
    ensures r.Some? ==> Min(start, end) <= r.value.0 <= Max(start, end)
    ensures r.Some? ==> r.value.1 == Along(cur, dir, r.value.0)
    decreases PROBE_COUNT + 1 - i
  {
    if i > PROBE_COUNT then None
    else
      var dist := ProbeDistance(start, end, i);
      var step := Clamp(PLAYER_WIDTH * 0.45, 14.0, 28.0);
      var candidate := Along(cur, dir, dist);
      var ahead := Along(cur, dir, Min(dist + step, hlen * 0.99));
      var here := ground(candidate);
      if here.None? || cur.z - here.value > PLAYER_JUMP_HEIGHT then
        Probe(cur, dir, drop, hlen, start, end, ground, i + 1)
      else
        var there := ground(ahead);
        var hole := there.None?;
        var dropAhead := there.Some? && here.value - there.value >= Max(16.0, drop * 0.35);
        if hole || dropAhead then Some((dist, candidate))
        else Probe(cur, dir, drop, hlen, start, end, ground, i + 1)
  }

  /** The planar length and unit direction from `cur` to `next`. */
  function PlanarLength(cur: Vec3, next: Vec3, sqrt: real -> real): real {
    Length(Flat(Sub(next, cur)), sqrt)
  }

  function Heading(cur: Vec3, next: Vec3, sqrt: real -> real): Vec3 {
    var hlen := PlanarLength(cur, next, sqrt);
    if hlen == 0.0 then Zero else Scale(Flat(Sub(next, cur)), 1.0 / hlen)
  }

  /** Whether a connection from `cur` to `next` is a drop the bot must walk
      off, and whether it is a climb it must back up for. */
  predicate IsDrop(cur: Vec3, next: Vec3, sqrt: real -> real) {
    next.z - cur.z < -SMALL_DROP_GRACE && PlanarLength(cur, next, sqrt) > 1.0
  }

  predicate IsClimb(cur: Vec3, next: Vec3, oneWay: bool, sqrt: real -> real) {
    !oneWay && next.z - cur.z > 0.0 && PlanarLength(cur, next, sqrt) > 1.0
  }

  /** The hint for a drop of `drop` units over a planar run of `hlen`: walk
      the pre-search advance, or to the first probe that finds the edge. */
  function DropHint(cur: Vec3, dir: Vec3, drop: real, hlen: real, oneWay: bool,
                    ground: Vec3 -> Option<real>): (r: DropdownHint)
    requires drop > SMALL_DROP_GRACE && hlen > 1.0
    ensures r.requiresDrop && r.dropHeight == drop && r.approachDir == dir
    ensures 0.0 < r.approachDistance <= Max(hlen * 0.95, PLAYER_WIDTH * 0.35)
    ensures r.adjustedPos == Along(cur, dir, r.approachDistance)
  {
    var approach := DropApproach(drop, hlen, oneWay);
    assert approach > 0.0 by {
      assert Max(if oneWay then PLAYER_WIDTH * 0.5 else PLAYER_WIDTH * 0.75, hlen * 0.35) > 0.0;
    }
    var searchStart := Min(hlen * 0.95, Max(approach, PLAYER_WIDTH * 0.8));
    var searchEnd := Max(PLAYER_WIDTH * 0.35, searchStart - Max(PLAYER_WIDTH * 2.2, hlen * 0.6));
    match Probe(cur, dir, drop, hlen, searchStart, searchEnd, ground, 0)
    case Some((dist, candidate)) => DropdownHint(candidate, true, drop, dist, dir)
    case None => DropdownHint(Along(cur, dir, approach), true, drop, approach, dir)
  }

  /** The hint for a climb of `rise` units: back up by 35% of the rise,
      clamped to [0.3, 1] player widths, facing away from the target. */
  function ClimbHint(cur: Vec3, dir: Vec3, rise: real): (r: DropdownHint)
    ensures !r.requiresDrop && r.dropHeight == 0.0
    ensures PLAYER_WIDTH * 0.3 <= r.approachDistance <= PLAYER_WIDTH
    ensures r.approachDir == Scale(dir, -1.0)
    ensures r.adjustedPos == Along(cur, dir, -r.approachDistance)
  {
    var retreat := Clamp(rise * 0.35, PLAYER_WIDTH * 0.3, PLAYER_WIDTH);
    DropdownHint(Along(cur, dir, -retreat), false, 0.0, retreat, Scale(dir, -1.0))
  }

  function HandleDropdown(cur: Vec3, next: Vec3, oneWay: bool,
                          sqrt: real -> real, ground: Vec3 -> Option<real>): (r: DropdownHint)
    ensures SaneHint(r)
    ensures r.adjustedPos.z == cur.z
    ensures r.requiresDrop <==> IsDrop(cur, next, sqrt)
  {
    var heightDiff := next.z - cur.z;
    var hlen := PlanarLength(cur, next, sqrt);
    if heightDiff < 0.0 then
      if -heightDiff > SMALL_DROP_GRACE && hlen > 1.0 then
        DropHint(cur, Heading(cur, next, sqrt), -heightDiff, hlen, oneWay, ground)
      else NoDropdown(cur)
    else if !oneWay && heightDiff > 0.0 && hlen > 1.0 then
      ClimbHint(cur, Heading(cur, next, sqrt), heightDiff)
    else NoDropdown(cur)
  }

  /** A drop walks towards the lower area: the approach distance is
      positive, at most 95% of the way or the minimum probe distance, and
      the adjusted point lies that far along the way at the start height. */
  lemma DropApproachBounds(cur: Vec3, next: Vec3, oneWay: bool,
                           sqrt: real -> real, ground: Vec3 -> Option<real>)
    requires IsDrop(cur, next, sqrt)
    ensures var r := HandleDropdown(cur, next, oneWay, sqrt, ground);
      && r.dropHeight == cur.z - next.z
      && r.approachDir == Heading(cur, next, sqrt)
      && 0.0 < r.approachDistance <= Max(PlanarLength(cur, next, sqrt) * 0.95, PLAYER_WIDTH * 0.35)
      && r.adjustedPos == Along(cur, Heading(cur, next, sqrt), r.approachDistance)
  {
  }

  /** An upward two-way connection backs the bot up by 30% to 100% of a
      player width, facing away from the target; anything that is neither
      a drop nor a climb leaves the position alone. */
  lemma ClimbRetreat(cur: Vec3, next: Vec3, oneWay: bool,
                     sqrt: real -> real, ground: Vec3 -> Option<real>)
    ensures var r := HandleDropdown(cur, next, oneWay, sqrt, ground);
      var dir := Heading(cur, next, sqrt);
      && (IsClimb(cur, next, oneWay, sqrt) ==>
            && PLAYER_WIDTH * 0.3 <= r.approachDistance <= PLAYER_WIDTH
            && r.approachDir == Scale(dir, -1.0)
            && r.adjustedPos == Along(cur, dir, -r.approachDistance)
            && !r.requiresDrop)
      && (!IsDrop(cur, next, sqrt) && !IsClimb(cur, next, oneWay, sqrt) ==> r == NoDropdown(cur))
  {
  }

  // ---------------------------------------------------------------------
  // Connection cost (`EvaluateConnectionCost`)

  /** Planar distance, with anything not positive read as 0. */
  function HorizontalDistance(a: Vec3, b: Vec3, sqrt: real -> real): (d: real)
    ensures d >= 0.0
  {
    var l := Length(Flat(Sub(b, a)), sqrt);
    if l > 0.0 then l else 0.0
  }

  /** Up to 60 for turning back on oneself at the crossing point: 30 times
      one minus the cosine of the turn, when both legs are longer than 1. */
  function TurnPenalty(p: NavPoints, sqrt: real -> real): (t: real)
    ensures 0.0 <= t <= 60.0
  {
    var f1 := Flat(Sub(p.center, p.current));
    var f2 := Flat(Sub(p.next, p.center));
    var l1 := Length(f1, sqrt);
    var l2 := Length(f2, sqrt);
    if l1 > 1.0 && l2 > 1.0 then
      var dot := Clamp(Dot(Scale(f1, 1.0 / l1), Scale(f2, 1.0 / l2)), -1.0, 1.0);
      (1.0 - dot) * 30.0
    else 0.0
  }

  /** A bonus of 1% of the next area's diagonal, at most 12. */
  function SizeBonus(next: Area, sqrt: real -> real): (b: real)
    ensures 0.0 <= b <= 12.0
  {
    var size := Length(Flat(Sub(next.se, next.nw)), sqrt);
    if size > 0.0 then Clamp(size * 0.01, 0.0, 12.0) else 0.0
  }

  /** Entering a spawn room: 220 for a room of the other team only, 60 for
      a room of both, 40 for any other spawn room, nothing elsewhere. */
  function SpawnPenalty(next: Area, team: Team): (s: real)
    ensures s in {0.0, 40.0, 60.0, 220.0}
  {
    var red := HasFlag(next.tfAttributes, TF_NAV_SPAWN_ROOM_RED);
    var blue := HasFlag(next.tfAttributes, TF_NAV_SPAWN_ROOM_BLUE);
    if red || blue then
      if team == Red && blue && !red then 220.0
      else if team == Blue && red && !blue then 220.0
      else if red && blue then 60.0
      else 40.0
    else 0.0
  }

  /** The spawn penalty is the blocking rule of the areas in cost form: the
      full 220 exactly where a team's own spawn rule would block it. */
  lemma SpawnPenaltyMatchesBlocking(next: Area, team: Team)
    requires !HasFlag(next.attributes, NAV_MESH_NAV_BLOCKER) && !HasFlag(next.tfAttributes, TF_NAV_BLOCKED)
    ensures SpawnPenalty(next, team) == 220.0 <==> IsBlocked(next, team)
    ensures SpawnPenalty(next, team) == 0.0 <==>
      !HasFlag(next.tfAttributes, TF_NAV_SPAWN_ROOM_RED) && !HasFlag(next.tfAttributes, TF_NAV_SPAWN_ROOM_BLUE)
  {
  }

  /** Height change: 1.8 per unit up, 0.9 per unit down past 8 units. */
  function ClimbCost(heightDiff: real): (c: real)
    ensures c >= 0.0
  {
    if heightDiff > 0.0 then heightDiff * 1.8
    else if heightDiff < -8.0 then -heightDiff * 0.9
    else 0.0
  }

  /** The drop or approach walk of a hint. */
  function HintCost(d: DropdownHint): (c: real)
    ensures SaneHint(d) ==> c >= 0.0
  {
    if d.requiresDrop then d.dropHeight * 2.2 + d.approachDistance * 0.45
    else if d.approachDistance > 0.0 then d.approachDistance * 0.25
    else 0.0
  }

  const AVOID_COST: real := 100000.0

  function EvaluateConnectionCost(next: Area, p: NavPoints, d: DropdownHint,
                                  team: Team, sqrt: real -> real): (c: real)
    ensures c >= 1.0
  {
    var forward := Max(HorizontalDistance(p.current, p.next, sqrt), 1.0);
    var cost :=
      forward
      + HorizontalDistance(p.current, p.center, sqrt) * 0.3
      + HorizontalDistance(p.center, p.next, sqrt) * 0.2
      + ClimbCost(p.next.z - p.current.z)
      + HintCost(d)
      + TurnPenalty(p, sqrt)
      - SizeBonus(next, sqrt)
      + SpawnPenalty(next, team)
      + (if HasFlag(next.attributes, NAV_MESH_AVOID) then AVOID_COST else 0.0)
      + (if HasFlag(next.attributes, NAV_MESH_CROUCH) then forward * 5.0 else 0.0);
    Max(cost, 1.0)
  }

  /** With a sane hint the cost is at least the forward distance plus the
      spawn, avoid and crouch surcharges, less the size bonus of at most
      12; so an AVOID area always costs at least 99989 to enter. */
  lemma CostLowerBound(next: Area, p: NavPoints, d: DropdownHint, team: Team, sqrt: real -> real)
    requires SaneHint(d)
    ensures var forward := Max(HorizontalDistance(p.current, p.next, sqrt), 1.0);
      var c := EvaluateConnectionCost(next, p, d, team, sqrt);
      && c >= forward + SpawnPenalty(next, team) - 12.0
      && (HasFlag(next.attributes, NAV_MESH_AVOID) ==> c >= forward + AVOID_COST - 12.0)
      && (HasFlag(next.attributes, NAV_MESH_CROUCH) ==> c >= forward * 6.0 - 12.0)
      && (HasFlag(next.attributes, NAV_MESH_AVOID) ==> c >= 99989.0)
  {
  }
}
