/** Navigation areas (`CNavArea` of the bot's nav reader): axis-aligned quads
    with a north-west and a south-east corner, two extra corner heights, and
    the values the loader derives from them. Coordinates are reals; the
    single-precision rounding of the game is not modelled. */
module Nav {
  import opened Util

  datatype Vec3 = Vec3(x: real, y: real, z: real)

  function Sq(d: real): real {
    d * d
  }

  /** Squared distance between two points. */
  function DistSq(p: Vec3, q: Vec3): real {
    Sq(p.x - q.x) + Sq(p.y - q.y) + Sq(p.z - q.z)
  }

  /** Largest finite single-precision value (`std::numeric_limits<float>::max()`). */
  const FLT_MAX: real := 340282346638528859811704183484516925440.0

  // Attribute bits of the nav file (NavAttributeType and TFNavAttributeType)
  const NAV_MESH_CROUCH: bv32 := 0x1
  const NAV_MESH_NO_JUMP: bv32 := 0x8
  const NAV_MESH_AVOID: bv32 := 0x80
  const NAV_MESH_STAIRS: bv32 := 0x1000
  const NAV_MESH_NAV_BLOCKER: bv32 := 0x8000_0000
  const TF_NAV_BLOCKED: bv32 := 0x1
  const TF_NAV_SPAWN_ROOM_RED: bv32 := 0x2
  const TF_NAV_SPAWN_ROOM_BLUE: bv32 := 0x4
  const TF_NAV_SPAWN_ROOM_EXIT: bv32 := 0x8

  predicate HasFlag(flags: bv32, bit: bv32) {
    flags & bit != 0
  }

  datatype Team = Red | Blue | Unassigned

  /** A connection as stored on an area: the id read from the file and the
      area it resolved to (`None` for an id no area carries). */
  datatype Link = Link(id: nat, area: Option<nat>)

  /** The runtime fields of a loaded area that the engine reads. */
  datatype Area = Area(
    id: nat,
    attributes: bv32,
    tfAttributes: bv32,
    nw: Vec3,
    se: Vec3,
    center: Vec3,
    invDx: real,
    invDy: real,
    neZ: real,
    swZ: real,
    minZ: real,
    maxZ: real,
    connections: seq<Link>)

  // ---------------------------------------------------------------------
  // Derived geometry, as the loader computes it

  function Min(a: real, b: real): (r: real)
    ensures r <= a && r <= b && (r == a || r == b)
  {
    if a < b then a else b
  }

  function Max(a: real, b: real): (r: real)
    ensures r >= a && r >= b && (r == a || r == b)
  {
    if a > b then a else b
  }

  /** The relation between the stored corners and the derived fields. */
  predicate Derived(a: Area) {
    && a.center == Vec3((a.nw.x + a.se.x) / 2.0, (a.nw.y + a.se.y) / 2.0, (a.nw.z + a.se.z) / 2.0)
    && (if a.se.x - a.nw.x > 0.0 && a.se.y - a.nw.y > 0.0
        then a.invDx == 1.0 / (a.se.x - a.nw.x) && a.invDy == 1.0 / (a.se.y - a.nw.y)
        else a.invDx == 0.0 && a.invDy == 0.0)
    && a.minZ == Min(a.se.z, a.nw.z) - 18.0
    && a.maxZ == Max(a.se.z, a.nw.z) + 18.0
  }

  /** Corners in order: north-west x/y at most south-east x/y. */
  predicate Ordered(a: Area) {
    a.nw.x <= a.se.x && a.nw.y <= a.se.y
  }

  // ---------------------------------------------------------------------
  // Queries

  /** Spawn rooms block the opposing team only when marked for that team
      alone; nav blockers and TF-blocked areas block everyone. */
  predicate IsBlocked(a: Area, team: Team) {
    if HasFlag(a.attributes, NAV_MESH_NAV_BLOCKER) || HasFlag(a.tfAttributes, TF_NAV_BLOCKED) then true
    else
      var red := HasFlag(a.tfAttributes, TF_NAV_SPAWN_ROOM_RED);
      var blue := HasFlag(a.tfAttributes, TF_NAV_SPAWN_ROOM_BLUE);
      if team == Red && blue && !red then true
      else if team == Blue && red && !blue then true
      else false
  }

  lemma IsBlockedCases(a: Area, team: Team)
    ensures IsBlocked(a, team) <==>
      || a.attributes & NAV_MESH_NAV_BLOCKER != 0
      || a.tfAttributes & TF_NAV_BLOCKED != 0
      || (team == Red && a.tfAttributes & TF_NAV_SPAWN_ROOM_BLUE != 0 && a.tfAttributes & TF_NAV_SPAWN_ROOM_RED == 0)
      || (team == Blue && a.tfAttributes & TF_NAV_SPAWN_ROOM_RED != 0 && a.tfAttributes & TF_NAV_SPAWN_ROOM_BLUE == 0)
    ensures a.tfAttributes & (TF_NAV_SPAWN_ROOM_RED | TF_NAV_SPAWN_ROOM_BLUE) == (TF_NAV_SPAWN_ROOM_RED | TF_NAV_SPAWN_ROOM_BLUE)
            && !HasFlag(a.attributes, NAV_MESH_NAV_BLOCKER) && !HasFlag(a.tfAttributes, TF_NAV_BLOCKED)
            ==> !IsBlocked(a, team)
  {
    if a.tfAttributes & (TF_NAV_SPAWN_ROOM_RED | TF_NAV_SPAWN_ROOM_BLUE) == (TF_NAV_SPAWN_ROOM_RED | TF_NAV_SPAWN_ROOM_BLUE) {
      assert a.tfAttributes & TF_NAV_SPAWN_ROOM_RED != 0;
      assert a.tfAttributes & TF_NAV_SPAWN_ROOM_BLUE != 0;
    }
  }

  /** The 2D extent test, widened by a tolerance; z is ignored. */
  predicate IsOverlapping(a: Area, p: Vec3, tol: real) {
    if p.x + tol < a.nw.x then false
    else if p.x - tol > a.se.x then false
    else if p.y + tol < a.nw.y then false
    else if p.y - tol > a.se.y then false
    else true
  }

  lemma IsOverlappingBounds(a: Area, p: Vec3, tol: real)
    ensures IsOverlapping(a, p, tol) <==>
      a.nw.x - tol <= p.x <= a.se.x + tol && a.nw.y - tol <= p.y <= a.se.y + tol
    ensures forall z :: IsOverlapping(a, Vec3(p.x, p.y, z), tol) == IsOverlapping(a, p, tol)
  {
  }

  /** The 2D extent test plus the flat z band [minZ, maxZ]. */
  predicate Contains(a: Area, p: Vec3) {
    if !IsOverlapping(a, p, 0.0) then false
    else if p.z > a.maxZ then false
    else if p.z < a.minZ then false
    else true
  }

  lemma ContainsBounds(a: Area, p: Vec3)
    ensures Contains(a, p) <==>
      a.nw.x <= p.x <= a.se.x && a.nw.y <= p.y <= a.se.y && a.minZ <= p.z <= a.maxZ
  {
  }

  function GetSwCorner(a: Area): (c: Vec3)
    ensures c.x == a.nw.x && c.y == a.se.y && c.z == a.swZ
  {
    Vec3(a.nw.x, a.se.y, a.swZ)
  }

  function GetNeCorner(a: Area): (c: Vec3)
    ensures c.x == a.se.x && c.y == a.nw.y && c.z == a.neZ
  {
    Vec3(a.se.x, a.nw.y, a.neZ)
  }

  /** Branch-free select: `whenNonNeg` if the comparand is at least zero. */
  function FloatSel(comparand: real, whenNonNeg: real, whenNeg: real): (r: real)
    ensures comparand >= 0.0 ==> r == whenNonNeg
    ensures comparand < 0.0 ==> r == whenNeg
  {
    if comparand >= 0.0 then whenNonNeg else whenNeg
  }

  /** `FloatSel(t, t, 0)` then `FloatSel(t - 1, 1, t)`: clamps into [0, 1]. */
  function Clamp01(t: real): (r: real)
    ensures 0.0 <= r <= 1.0
    ensures 0.0 <= t <= 1.0 ==> r == t
  {
    var lo := FloatSel(t, t, 0.0);
    FloatSel(lo - 1.0, 1.0, lo)
  }

  function Lerp(a: real, b: real, t: real): real {
    a + t * (b - a)
  }

  lemma MulNonNeg(x: real, y: real)
    requires x >= 0.0 && y >= 0.0
    ensures x * y >= 0.0
  {
  }

  lemma LerpBetween(a: real, b: real, t: real)
    requires 0.0 <= t <= 1.0
    ensures Min(a, b) <= Lerp(a, b, t) <= Max(a, b)
  {
    if a <= b {
      MulNonNeg(t, b - a);
      MulNonNeg(1.0 - t, b - a);
      assert t * (b - a) + (1.0 - t) * (b - a) == b - a;
    } else {
      MulNonNeg(t, a - b);
      MulNonNeg(1.0 - t, a - b);
      assert t * (a - b) + (1.0 - t) * (a - b) == a - b;
      assert t * (b - a) == -(t * (a - b));
    }
  }

  function Min4(a: real, b: real, c: real, d: real): real {
    Min(Min(a, b), Min(c, d))
  }

  function Max4(a: real, b: real, c: real, d: real): real {
    Max(Max(a, b), Max(c, d))
  }

  /** Bilinear height over the quad: interpolate along the north and south
      edges by u, then between them by v. A degenerate quad (either inverse
      extent zero) reads as the north-east height. */
  function GetZ(a: Area, x: real, y: real): (z: real)
    ensures a.invDx == 0.0 || a.invDy == 0.0 ==> z == a.neZ
    ensures Min4(a.nw.z, a.neZ, a.swZ, a.se.z) <= z <= Max4(a.nw.z, a.neZ, a.swZ, a.se.z)
  {
    if a.invDx == 0.0 || a.invDy == 0.0 then a.neZ
    else
      var u := Clamp01((x - a.nw.x) * a.invDx);
      var v := Clamp01((y - a.nw.y) * a.invDy);
      var northZ := Lerp(a.nw.z, a.neZ, u);
      var southZ := Lerp(a.swZ, a.se.z, u);
      LerpBetween(a.nw.z, a.neZ, u);
      LerpBetween(a.swZ, a.se.z, u);
      LerpBetween(northZ, southZ, v);
      Lerp(northZ, southZ, v)
  }

  /** At the north-west corner the height is the north-west corner's z. */
  lemma GetZAtNw(a: Area)
    requires a.invDx != 0.0 && a.invDy != 0.0
    ensures GetZ(a, a.nw.x, a.nw.y) == a.nw.z
  {
    assert (a.nw.x - a.nw.x) * a.invDx == 0.0 && Clamp01(0.0) == 0.0;
    assert (a.nw.y - a.nw.y) * a.invDy == 0.0;
    assert Lerp(a.nw.z, a.neZ, 0.0) == a.nw.z;
    assert Lerp(a.nw.z, Lerp(a.swZ, a.se.z, 0.0), 0.0) == a.nw.z;
  }

  /** On a loaded, non-degenerate area the south-east corner reads as the
      south-east corner's z. */
  lemma GetZAtSe(a: Area)
    requires Derived(a) && a.invDx != 0.0 && a.invDy != 0.0
    ensures GetZ(a, a.se.x, a.se.y) == a.se.z
  {
    var dx := a.se.x - a.nw.x;
    var dy := a.se.y - a.nw.y;
    assert dx > 0.0 && dy > 0.0;
    assert (a.se.x - a.nw.x) * a.invDx == 1.0;
    assert (a.se.y - a.nw.y) * a.invDy == 1.0;
  }

  /** Clamps x into [nw.x, se.x] and y into [nw.y, se.y] and takes the
      height there. */
  function GetNearestPoint(a: Area, px: real, py: real): (r: Vec3)
    ensures r.x <= a.se.x && r.y <= a.se.y
    ensures Ordered(a) ==> a.nw.x <= r.x && a.nw.y <= r.y
    ensures IsOverlapping(a, Vec3(px, py, 0.0), 0.0) ==> r.x == px && r.y == py
    ensures r.z == GetZ(a, r.x, r.y)
  {
    var x0 := FloatSel(px - a.nw.x, px, a.nw.x);
    var x := FloatSel(x0 - a.se.x, a.se.x, x0);
    var y0 := FloatSel(py - a.nw.y, py, a.nw.y);
    var y := FloatSel(y0 - a.se.y, a.se.y, y0);
    Vec3(x, y, GetZ(a, x, y))
  }

  /** The nearest point is a fixed point: asking again changes nothing. */
  lemma GetNearestPointIdempotent(a: Area, px: real, py: real)
    requires Ordered(a)
    ensures var p := GetNearestPoint(a, px, py); GetNearestPoint(a, p.x, p.y) == p
  {
    var p := GetNearestPoint(a, px, py);
    assert IsOverlapping(a, Vec3(p.x, p.y, 0.0), 0.0);
  }

  // ---------------------------------------------------------------------
  // Hiding spots (`CHidingSpot`)

  const IN_COVER: bv8 := 0x01
  const GOOD_SNIPER_SPOT: bv8 := 0x02
  const IDEAL_SNIPER_SPOT: bv8 := 0x04
  const EXPOSED: bv8 := 0x08

  predicate HasGoodCover(flags: bv8) { flags & IN_COVER != 0 }
  predicate IsGoodSniperSpot(flags: bv8) { flags & GOOD_SNIPER_SPOT != 0 }
  predicate IsIdealSniperSpot(flags: bv8) { flags & IDEAL_SNIPER_SPOT != 0 }
  predicate IsExposed(flags: bv8) { flags & EXPOSED != 0 }

  /** The flag byte with exactly the given properties set. */
  function SpotFlags(cover: bool, goodSniper: bool, idealSniper: bool, exposed: bool): bv8 {
    (if cover then IN_COVER else 0) | (if goodSniper then GOOD_SNIPER_SPOT else 0)
    | (if idealSniper then IDEAL_SNIPER_SPOT else 0) | (if exposed then EXPOSED else 0)
  }

  /** The four spot predicates read four independent bits. */
  lemma SpotFlagsIndependent(cover: bool, goodSniper: bool, idealSniper: bool, exposed: bool)
    ensures var f := SpotFlags(cover, goodSniper, idealSniper, exposed);
      HasGoodCover(f) == cover && IsGoodSniperSpot(f) == goodSniper
      && IsIdealSniperSpot(f) == idealSniper && IsExposed(f) == exposed
  {
  }
}
