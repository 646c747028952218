/** Crumbs: the points a bot walks through. Inside one area they are even
    steps towards the destination. Across a connection they run from the
    current center over the crossing point to the next center, closer
    together around sharp turns and on large areas, and the one nearest the
    crossing point may carry the instructions for a drop. */
module Crumbs {
  import opened Util
  import opened Nav
  import opened Connection

  const CRUMB_CACHE_VERSION: int := 1
  const CONNECTION_SEGMENT_LENGTH: real := 95.0
  const MAX_CONNECTION_INTERMEDIATE_CRUMBS: int := 24
  const MIN_ADAPTIVE_SPACING: real := 72.0
  const MAX_ADAPTIVE_SPACING: real := 150.0

  /** A point of the trail: the area it belongs to (`None` for a null
      pointer), where it is, and how to walk off a ledge there. */
  datatype Crumb = Crumb(area: Option<nat>, pos: Vec3, requiresDrop: bool,
                         dropHeight: real, approachDistance: real, approachDir: Vec3)

  /** A crumb as the connection cache keeps it: without its area. */
  datatype CachedCrumb = CachedCrumb(pos: Vec3, requiresDrop: bool, dropHeight: real,
                                     approachDistance: real, approachDir: Vec3)

  const DefaultCrumb: Crumb := Crumb(None, Zero, false, 0.0, 0.0, Zero)
  const DefaultCached: CachedCrumb := CachedCrumb(Zero, false, 0.0, 0.0, Zero)

  // ---------------------------------------------------------------------
  // Arithmetic helpers

  function Abs(x: real): (r: real)
    ensures r >= 0.0 && (r == x || r == -x)
  {
    if x < 0.0 then -x else x
  }

  /** `std::ceil` followed by the conversion to int. */
  function Ceil(x: real): (r: int)
    ensures r as real - 1.0 < x <= r as real
  {
    if x.Floor as real == x then x.Floor else x.Floor + 1
  }

  /** `std::clamp` on integers. */
  function ClampInt(v: int, lo: int, hi: int): (r: int)
    requires lo <= hi
    ensures lo <= r <= hi
    ensures lo <= v <= hi ==> r == v
    ensures v < lo ==> r == lo
    ensures v > hi ==> r == hi
  {
    if v < lo then lo else if hi < v then hi else v
  }

  lemma DivLe(x: real, s: real, c: real)
    requires s > 0.0 && x / s <= c
    ensures x <= c * s
  {
    assert x == (x / s) * s;
    assert (c - x / s) * s >= 0.0 by { MulNonNeg(c - x / s, s); }
  }

  lemma MulLe(a: real, b: real, s: real)
    requires a <= b && s >= 0.0
    ensures a * s <= b * s
  {
    MulNonNeg(b - a, s);
  }

  /** A count at least the clamped ceiling of `x / s` covers `x` in steps
      of `s`, unless the clamp cut the ceiling down. */
  lemma CountCovers(x: real, s: real, clamped: int, r: int, hi: int)
    requires s > 0.0 && 1 <= hi && clamped == ClampInt(Ceil(x / s), 1, hi) && clamped <= r
    ensures r < hi ==> x <= r as real * s
  {
    if r < hi {
      var c := Ceil(x / s);
      DivLe(x, s, c as real);
      MulLe(c as real, r as real, s);
    }
  }


  /** The larger of the planar and the vertical distance between two
      points. */
  function Reach(a: Vec3, b: Vec3, sqrt: real -> real): (d: real)
    ensures d >= Abs(b.z - a.z) >= 0.0
  {
    Max(Length(Flat(Sub(b, a)), sqrt), Abs(b.z - a.z))
  }

  /** The unit vector along `v`, or zero when `v` is at most 0.01 long. */
  function Direction(v: Vec3, sqrt: real -> real): Vec3 {
    var l := Length(v, sqrt);
    if l > 0.01 then Scale(v, 1.0 / l) else Zero
  }

  /** A flat vector stays flat once normalised. */
  lemma DirectionFlat(v: Vec3, sqrt: real -> real)
    requires v.z == 0.0
    ensures Direction(v, sqrt).z == 0.0
  {
  }

  // ---------------------------------------------------------------------
  // Crumbs inside one area (`BuildIntraAreaCrumbs`)

  /** As many crumbs as it takes for no step to exceed 120 units, between
      1 and 8. */
  function IntraCount(dist: real): (n: int)
    ensures 1 <= n <= 8
    ensures n == 8 || dist <= 120.0 * n as real
    ensures n == 1 || 120.0 * (n - 1) as real < dist
  {
    ClampInt(Ceil(dist / 120.0), 1, 8)
  }

  /** The crumbs from `start` towards `dest` inside one area; the
      destination itself is not among them. */
  function IntraAreaCrumbs(start: Vec3, dest: Vec3, area: Option<nat>, sqrt: real -> real): (r: seq<Crumb>)
    ensures |r| == 0 <==> area.None? || Reach(start, dest, sqrt) <= 1.0
    ensures |r| > 0 ==> |r| == IntraCount(Reach(start, dest, sqrt))
    ensures forall k | 0 <= k < |r| ::
      && r[k].area == area && !r[k].requiresDrop
      && r[k].dropHeight == 0.0 && r[k].approachDistance == 0.0
      && r[k].approachDir.z == 0.0
    ensures forall k | 0 <= k < |r| ::
      r[k].pos == Add(start, Scale(Scale(Sub(dest, start), 1.0 / (|r| + 1) as real), (k + 1) as real))
  {
    if area.None? then []
    else
      var delta := Sub(dest, start);
      var dist := Reach(start, dest, sqrt);
      if dist <= 1.0 then []
      else
        var n := IntraCount(dist);
        var step := Scale(delta, 1.0 / (n + 1) as real);
        var dir := Direction(Flat(delta), sqrt);
        DirectionFlat(Flat(delta), sqrt);
        seq(n, k requires 0 <= k < n => Crumb(area, Add(start, Scale(step, (k + 1) as real)), false, 0.0, 0.0, dir))
  }

  /** Two points a multiple of `s` apart along the same line. */
  lemma VecStep(start: Vec3, s: Vec3, k: real)
    ensures Sub(Add(start, Scale(s, k + 1.0)), Add(start, Scale(s, k))) == s
  {
    assert s.x * (k + 1.0) == s.x * k + s.x;
    assert s.y * (k + 1.0) == s.y * k + s.y;
    assert s.z * (k + 1.0) == s.z * k + s.z;
  }

  lemma VecLast(start: Vec3, delta: Vec3, m: real)
    requires m > 0.0
    ensures Add(Add(start, Scale(Scale(delta, 1.0 / m), m - 1.0)), Scale(delta, 1.0 / m)) == Add(start, delta)
  {
    var s := Scale(delta, 1.0 / m);
    assert s.x * (m - 1.0) + s.x == s.x * m == delta.x;
    assert s.y * (m - 1.0) + s.y == s.y * m == delta.y;
    assert s.z * (m - 1.0) + s.z == s.z * m == delta.z;
  }

  /** The crumbs cut the way from `start` to `dest` into equal steps: the
      first is one step from the start, each next one a step further, and
      one more step from the last reaches the destination. */
  lemma IntraEvenSteps(start: Vec3, dest: Vec3, area: Option<nat>, sqrt: real -> real)
    requires |IntraAreaCrumbs(start, dest, area, sqrt)| > 0
    ensures var r := IntraAreaCrumbs(start, dest, area, sqrt);
      var step := Sub(r[0].pos, start);
      && (forall k | 0 <= k < |r| - 1 :: Sub(r[k + 1].pos, r[k].pos) == step)
      && Add(r[|r| - 1].pos, step) == dest
      && step == Scale(Sub(dest, start), 1.0 / (|r| + 1) as real)
  {
    var r := IntraAreaCrumbs(start, dest, area, sqrt);
    var n := |r|;
    var m := (n + 1) as real;
    var delta := Sub(dest, start);
    var step := Scale(delta, 1.0 / m);
    assert r[0].pos == Add(start, Scale(step, 1.0));
    assert Sub(Add(start, Scale(step, 1.0)), start) == step;
    forall k | 0 <= k < n - 1
      ensures Sub(r[k + 1].pos, r[k].pos) == step
    {
      VecStep(start, step, (k + 1) as real);
    }
    VecLast(start, delta, m);
    assert r[n - 1].pos == Add(start, Scale(step, m - 1.0));
    assert Add(start, delta) == dest;
  }

  // ---------------------------------------------------------------------
  // Crumbs across a connection (`BuildAdaptiveAreaCrumbs`)

  /** 220 units less 8% of the area's diagonal, 35% less at a sharp turn,
      kept within [72, 150]. */
  function AdaptiveSpacing(areaSize: real, sharpTurn: bool): (s: real)
    ensures MIN_ADAPTIVE_SPACING <= s <= MAX_ADAPTIVE_SPACING
  {
    var base := 220.0 - areaSize * 0.08;
    Clamp(if sharpTurn then base * 0.65 else base, MIN_ADAPTIVE_SPACING, MAX_ADAPTIVE_SPACING)
  }

  /** A sharp turn never spreads the crumbs further apart, and an area
      small enough puts them 150 apart on a straight way. */
  lemma SharpTurnDenser(areaSize: real)
    ensures AdaptiveSpacing(areaSize, true) <= AdaptiveSpacing(areaSize, false)
    ensures areaSize <= 875.0 ==> AdaptiveSpacing(areaSize, false) == MAX_ADAPTIVE_SPACING
  {
  }

  /** The number of crumbs between the two ends of a way: by spacing, by
      area size (up to 10), whichever is more, but never more than 24. */
  function AdaptiveCount(total: real, areaSize: real, spacing: real): (n: int)
    requires spacing > 0.0
    ensures 1 <= n <= MAX_CONNECTION_INTERMEDIATE_CRUMBS
  {
    var bySpacing := ClampInt(Ceil(Max(total, 1.0) / spacing), 1, MAX_CONNECTION_INTERMEDIATE_CRUMBS);
    var byArea := ClampInt(Ceil(areaSize / 220.0), 1, 10);
    var n := if bySpacing > byArea then bySpacing else byArea;
    if n < MAX_CONNECTION_INTERMEDIATE_CRUMBS then n else MAX_CONNECTION_INTERMEDIATE_CRUMBS
  }

  /** Unless capped at 24, the count leaves no gap longer than the spacing
      along the way. */
  lemma AdaptiveCountCovers(total: real, areaSize: real, spacing: real)
    requires spacing > 0.0
    ensures var n := AdaptiveCount(total, areaSize, spacing);
      n == MAX_CONNECTION_INTERMEDIATE_CRUMBS || Max(total, 1.0) <= n as real * spacing
  {
    var n := AdaptiveCount(total, areaSize, spacing);
    var bySpacing := ClampInt(Ceil(Max(total, 1.0) / spacing), 1, MAX_CONNECTION_INTERMEDIATE_CRUMBS);
    assert bySpacing <= n;
    CountCovers(Max(total, 1.0), spacing, bySpacing, n, MAX_CONNECTION_INTERMEDIATE_CRUMBS);
  }

  /** Below 10, the count gives at least one crumb per 220 units of area
      diagonal. */
  lemma AdaptiveCountFillsArea(total: real, areaSize: real, spacing: real)
    requires spacing > 0.0
    ensures var n := AdaptiveCount(total, areaSize, spacing);
      n >= 10 || areaSize <= n as real * 220.0
  {
    var n := AdaptiveCount(total, areaSize, spacing);
    var byArea := ClampInt(Ceil(areaSize / 220.0), 1, 10);
    assert byArea <= n;
    CountCovers(areaSize, 220.0, byArea, n, 10);
  }

  /** The three points of a connection's way: the current center, the
      crossing point and the next center. */
  datatype Way = Way(a: Vec3, b: Vec3, c: Vec3)

  function SampleLerp(a: Vec3, b: Vec3, t: real): Vec3 {
    var u := Clamp(t, 0.0, 1.0);
    Vec3(Lerp(a.x, b.x, u), Lerp(a.y, b.y, u), Lerp(a.z, b.z, u))
  }

  /** A point between `a` and `b`, coordinate by coordinate. */
  predicate OnLeg(p: Vec3, a: Vec3, b: Vec3) {
    Min(a.x, b.x) <= p.x <= Max(a.x, b.x) && Min(a.y, b.y) <= p.y <= Max(a.y, b.y)
  }

  lemma SampleOnLeg(a: Vec3, b: Vec3, t: real)
    ensures OnLeg(SampleLerp(a, b, t), a, b)
  {
    var u := Clamp(t, 0.0, 1.0);
    LerpBetween(a.x, b.x, u);
    LerpBetween(a.y, b.y, u);
  }

  /** The point of the quadratic curve through the way at `t`, and its
      tangent. */
  function CurvePoint(w: Way, t: real): Vec3 {
    var u := 1.0 - t;
    Vec3(w.a.x * (u * u) + w.b.x * 2.0 * u * t + w.c.x * (t * t),
         w.a.y * (u * u) + w.b.y * 2.0 * u * t + w.c.y * (t * t),
         w.a.z * (u * u) + w.b.z * 2.0 * u * t + w.c.z * (t * t))
  }

  function CurveTangent(w: Way, t: real): Vec3 {
    Add(Scale(Sub(w.b, w.a), 2.0 * (1.0 - t)), Scale(Sub(w.c, w.b), 2.0 * t))
  }

  /** The point a fraction `t` along the broken line of the way, measured
      in the two legs' reaches, and the direction of its leg. */
  function LinePoint(w: Way, segAB: real, segBC: real, t: real): (r: (Vec3, Vec3))
    ensures OnLeg(r.0, w.a, w.b) || OnLeg(r.0, w.b, w.c)
  {
    var dist := (segAB + segBC) * t;
    if dist <= segAB || segBC <= 0.001 then
      var p := SampleLerp(w.a, w.b, if segAB > 0.001 then dist / segAB else 1.0);
      SampleOnLeg(w.a, w.b, if segAB > 0.001 then dist / segAB else 1.0);
      (p, Sub(w.b, w.a))
    else
      var p := SampleLerp(w.b, w.c, if segBC > 0.001 then (dist - segAB) / segBC else 1.0);
      SampleOnLeg(w.b, w.c, if segBC > 0.001 then (dist - segAB) / segBC else 1.0);
      (p, Sub(w.c, w.b))
  }

  /** Whether the crumbs follow the curve rather than the two legs: only
      without a drop, with at least three crumbs and two legs longer than
      32. */
  predicate UseCurve(drop: bool, n: int, segAB: real, segBC: real) {
    !drop && n >= 3 && segAB > 32.0 && segBC > 32.0
  }

  /** The `i`-th of `n` intermediate crumbs, lowered onto the area. */
  function Intermediate(w: Way, area: Area, n: nat, i: nat, curve: bool,
                        segAB: real, segBC: real, sqrt: real -> real): (c: CachedCrumb)
    ensures c.pos.z == GetZ(area, c.pos.x, c.pos.y)
    ensures !c.requiresDrop && c.dropHeight == 0.0 && c.approachDistance == 0.0
    ensures c.approachDir.z == 0.0
    ensures !curve ==> OnLeg(c.pos, w.a, w.b) || OnLeg(c.pos, w.b, w.c)
  {
    var t := i as real / (n + 1) as real;
    var pd := if curve then (CurvePoint(w, t), CurveTangent(w, t)) else LinePoint(w, segAB, segBC, t);
    DirectionFlat(Flat(pd.1), sqrt);
    CachedCrumb(pd.0.(z := GetZ(area, pd.0.x, pd.0.y)), false, 0.0, 0.0, Direction(Flat(pd.1), sqrt))
  }

  /** The diagonal of the area's footprint, at least 1. */
  function AreaSize(area: Area, sqrt: real -> real): (s: real)
    ensures s >= 1.0
  {
    Max(Length(Flat(Sub(area.se, area.nw)), sqrt), 1.0)
  }

  /** Whether the way turns by more than 60 degrees at the crossing point,
      with `normalize` standing for the vector library's normalisation. */
  predicate SharpTurn(w: Way, normalize: Vec3 -> Vec3) {
    Dot(normalize(Flat(Sub(w.b, w.a))), normalize(Flat(Sub(w.c, w.b)))) < 0.5
  }

  /** The number of intermediate crumbs of a way over `area`. */
  function WayCount(w: Way, area: Area, sqrt: real -> real, normalize: Vec3 -> Vec3): (n: int)
    ensures 1 <= n <= MAX_CONNECTION_INTERMEDIATE_CRUMBS
  {
    AdaptiveCount(Reach(w.a, w.b, sqrt) + Reach(w.b, w.c, sqrt), AreaSize(area, sqrt),
                  AdaptiveSpacing(AreaSize(area, sqrt), SharpTurn(w, normalize)))
  }

  /** The crumbs of a way over `area`: the intermediate ones, then one
      exactly at the next center facing along the second leg. None of them
      carries a drop yet. */
  function AdaptiveCrumbs(w: Way, drop: bool, area: Area, sqrt: real -> real,
                          normalize: Vec3 -> Vec3): (r: seq<CachedCrumb>)
    ensures |r| == WayCount(w, area, sqrt, normalize) + 1
    ensures 2 <= |r| <= MAX_CONNECTION_INTERMEDIATE_CRUMBS + 1
    ensures r[|r| - 1].pos == w.c
    ensures forall k | 0 <= k < |r| :: !r[k].requiresDrop && r[k].approachDir.z == 0.0
    ensures forall k | 0 <= k < |r| - 1 :: r[k].pos.z == GetZ(area, r[k].pos.x, r[k].pos.y)
  {
    var segAB := Reach(w.a, w.b, sqrt);
    var segBC := Reach(w.b, w.c, sqrt);
    var n := WayCount(w, area, sqrt, normalize);
    var curve := UseCurve(drop, n, segAB, segBC);
    var mids := seq(n, k requires 0 <= k < n => Intermediate(w, area, n, k + 1, curve, segAB, segBC, sqrt));
    DirectionFlat(Flat(Sub(w.c, w.b)), sqrt);
    mids + [DefaultCached.(pos := w.c, approachDir := Direction(Flat(Sub(w.c, w.b)), sqrt))]
  }

  /** Off the curve, every crumb but the last lies on one of the two legs of
      the way, in plan; the curve is never used for a drop. */
  lemma AdaptiveOnLegs(w: Way, drop: bool, area: Area, sqrt: real -> real, normalize: Vec3 -> Vec3)
    requires !UseCurve(drop, WayCount(w, area, sqrt, normalize), Reach(w.a, w.b, sqrt), Reach(w.b, w.c, sqrt))
    ensures var r := AdaptiveCrumbs(w, drop, area, sqrt, normalize);
      forall k | 0 <= k < |r| - 1 :: OnLeg(r[k].pos, w.a, w.b) || OnLeg(r[k].pos, w.b, w.c)
  {
    var r := AdaptiveCrumbs(w, drop, area, sqrt, normalize);
    var n := WayCount(w, area, sqrt, normalize);
    forall k | 0 <= k < |r| - 1
      ensures OnLeg(r[k].pos, w.a, w.b) || OnLeg(r[k].pos, w.b, w.c)
    {
      assert r[k] == Intermediate(w, area, n, k + 1, false, Reach(w.a, w.b, sqrt), Reach(w.b, w.c, sqrt), sqrt);
    }
  }

  // ---------------------------------------------------------------------
  // The drop crumb

  /** The index a scan from `i` settles on: the first crumb strictly nearer
      to `center` than `best` and everything after it, or `idx`. */
  function NearestFrom(out: seq<CachedCrumb>, center: Vec3, i: nat, best: real, idx: nat): (r: nat)
    requires i <= |out| && idx < |out| && best <= FLT_MAX
    requires forall j | 0 <= j < i :: DistSq(out[j].pos, center) >= best
    requires best < FLT_MAX ==> idx < i && DistSq(out[idx].pos, center) == best
    requires forall j | 0 <= j < idx :: DistSq(out[j].pos, center) > best
    requires best == FLT_MAX ==> idx == 0
    ensures r < |out|
    ensures (exists j | 0 <= j < |out| :: DistSq(out[j].pos, center) < FLT_MAX) ==>
      && (forall j | 0 <= j < |out| :: DistSq(out[r].pos, center) <= DistSq(out[j].pos, center))
      && (forall j | 0 <= j < r :: DistSq(out[j].pos, center) > DistSq(out[r].pos, center))
    ensures (forall j | 0 <= j < |out| :: DistSq(out[j].pos, center) >= FLT_MAX) ==> r == 0
    decreases |out| - i
  {
    if i == |out| then idx
    else
      var d := DistSq(out[i].pos, center);
      if d < best then NearestFrom(out, center, i + 1, d, i)
      else NearestFrom(out, center, i + 1, best, idx)
  }

  /** The crumb nearest to `center`, the first of equals; crumb 0 when none
      is nearer than the float maximum. */
  function Nearest(out: seq<CachedCrumb>, center: Vec3): (r: nat)
    requires |out| > 0
    ensures r < |out|
    ensures (exists j | 0 <= j < |out| :: DistSq(out[j].pos, center) < FLT_MAX) ==>
      && (forall j | 0 <= j < |out| :: DistSq(out[r].pos, center) <= DistSq(out[j].pos, center))
      && (forall j | 0 <= j < r :: DistSq(out[j].pos, center) > DistSq(out[r].pos, center))
    ensures (forall j | 0 <= j < |out| :: DistSq(out[j].pos, center) >= FLT_MAX) ==> r == 0
  {
    NearestFrom(out, center, 0, FLT_MAX, 0)
  }

  /** The crumbs with the hint's drop instructions on the one nearest the
      crossing point, when the connection is a drop. */
  function MarkDrop(out: seq<CachedCrumb>, center: Vec3, d: DropdownHint): (r: seq<CachedCrumb>)
    ensures |r| == |out|
    ensures forall k | 0 <= k < |r| :: r[k].pos == out[k].pos
    ensures !d.requiresDrop || |out| == 0 ==> r == out
    ensures d.requiresDrop && |out| > 0 ==>
      var k := Nearest(out, center);
      && r[k].requiresDrop && r[k].dropHeight == d.dropHeight
      && r[k].approachDistance == d.approachDistance && r[k].approachDir == d.approachDir
      && (forall j | 0 <= j < |r| && j != k :: r[j] == out[j])
  {
    if !d.requiresDrop || |out| == 0 then out
    else
      var k := Nearest(out, center);
      out[k := out[k].(requiresDrop := true, dropHeight := d.dropHeight,
                       approachDistance := d.approachDistance, approachDir := d.approachDir)]
  }

  // ---------------------------------------------------------------------
  // A connection's cache entry (`BuildConnectionCacheEntry`)

  /** The way of a connection after the drop-down adjustment of its
      crossing point. */
  function WayOf(p: NavPoints, d: DropdownHint): Way {
    Way(p.current, d.adjustedPos, p.next)
  }

  /** The crumbs of a connection from `cur` to `next`: one at the current
      center, then the adaptive crumbs, with the drop marked. */
  function ConnectionEntry(areas: seq<Area>, cur: Option<nat>, next: Option<nat>,
                           sqrt: real -> real, ground: Vec3 -> Option<real>,
                           normalize: Vec3 -> Vec3): (r: seq<CachedCrumb>)
    requires cur.Some? ==> cur.value < |areas|
    requires next.Some? ==> next.value < |areas|
    ensures cur.None? || next.None? ==> r == []
    ensures cur.Some? && next.Some? ==>
      && 3 <= |r| <= MAX_CONNECTION_INTERMEDIATE_CRUMBS + 2
      && r[0].pos == areas[cur.value].center
      && r[|r| - 1].pos == areas[next.value].center
  {
    if cur.None? || next.None? then []
    else
      var p := DeterminePoints(areas[cur.value], areas[next.value]);
      var d := HandleDropdown(p.center, p.next, IsOneWay(areas, cur, next), sqrt, ground);
      var w := WayOf(p, d);
      var out := [DefaultCached.(pos := p.current)] + AdaptiveCrumbs(w, d.requiresDrop, areas[cur.value], sqrt, normalize);
      MarkDrop(out, w.b, d)
  }

  /** Exactly one crumb of an entry carries a drop, the one nearest the
      adjusted crossing point, when the connection drops by more than 18
      units over more than one unit of ground; otherwise none does. */
  lemma EntryDropCrumb(areas: seq<Area>, cur: nat, next: nat, sqrt: real -> real,
                       ground: Vec3 -> Option<real>, normalize: Vec3 -> Vec3)
    requires cur < |areas| && next < |areas|
    ensures var r := ConnectionEntry(areas, Some(cur), Some(next), sqrt, ground, normalize);
      var p := DeterminePoints(areas[cur], areas[next]);
      var d := HandleDropdown(p.center, p.next, IsOneWay(areas, Some(cur), Some(next)), sqrt, ground);
      forall j | 0 <= j < |r| ::
        r[j].requiresDrop <==> IsDrop(p.center, p.next, sqrt) && j == Nearest(r, d.adjustedPos)
  {
    var r := ConnectionEntry(areas, Some(cur), Some(next), sqrt, ground, normalize);
    var p := DeterminePoints(areas[cur], areas[next]);
    var d := HandleDropdown(p.center, p.next, IsOneWay(areas, Some(cur), Some(next)), sqrt, ground);
    var w := WayOf(p, d);
    var out := [DefaultCached.(pos := p.current)] + AdaptiveCrumbs(w, d.requiresDrop, areas[cur], sqrt, normalize);
    assert forall j | 0 <= j < |out| :: !out[j].requiresDrop;
    assert r == MarkDrop(out, w.b, d);
    NearestSamePositions(out, r, w.b);
  }

  /** The nearest crumb depends only on the positions. */
  lemma {:induction false} NearestSamePositions(a: seq<CachedCrumb>, b: seq<CachedCrumb>, center: Vec3)
    requires |a| == |b| > 0
    requires forall k | 0 <= k < |a| :: a[k].pos == b[k].pos
    ensures Nearest(a, center) == Nearest(b, center)
  {
    NearestFromSame(a, b, center, 0, FLT_MAX, 0);
  }

  lemma {:induction false} NearestFromSame(a: seq<CachedCrumb>, b: seq<CachedCrumb>, center: Vec3,
                                            i: nat, best: real, idx: nat)
    requires |a| == |b|
    requires forall k | 0 <= k < |a| :: a[k].pos == b[k].pos
    requires i <= |a| && idx < |a| && best <= FLT_MAX
    requires forall j | 0 <= j < i :: DistSq(a[j].pos, center) >= best
    requires best < FLT_MAX ==> idx < i && DistSq(a[idx].pos, center) == best
    requires forall j | 0 <= j < idx :: DistSq(a[j].pos, center) > best
    requires best == FLT_MAX ==> idx == 0
    ensures NearestFrom(a, center, i, best, idx) == NearestFrom(b, center, i, best, idx)
    decreases |a| - i
  {
    if i < |a| {
      var d := DistSq(a[i].pos, center);
      if d < best {
        NearestFromSame(a, b, center, i + 1, d, i);
      } else {
        NearestFromSame(a, b, center, i + 1, best, idx);
      }
    }
  }

  // ---------------------------------------------------------------------
  // Appending an entry to the trail (`AppendCachedCrumbs`)

  function Restore(c: CachedCrumb, area: nat): Crumb {
    Crumb(Some(area), c.pos, c.requiresDrop, c.dropHeight, c.approachDistance, c.approachDir)
  }

  /** Appends the cached crumbs tagged with `area`, skipping each one that
      lies within one unit of the trail's last crumb at that moment. */
  function AppendCached(trail: seq<Crumb>, area: Option<nat>, cached: seq<CachedCrumb>): (r: seq<Crumb>)
    ensures area.None? ==> r == trail
    ensures |trail| <= |r| <= |trail| + |cached| && r[..|trail|] == trail
    ensures forall k | |trail| <= k < |r| :: area.Some? && r[k] in Restored(cached, area.value)
    decreases |cached|
  {
    if area.None? || |cached| == 0 then trail
    else
      var c := cached[0];
      var next := if |trail| > 0 && DistSq(trail[|trail| - 1].pos, c.pos) < 1.0 then trail
                  else trail + [Restore(c, area.value)];
      var r := AppendCached(next, area, cached[1..]);
      assert r[..|trail|] == next[..|trail|];
      RestoredTail(cached, area.value);
      assert |next| > |trail| ==> r[|trail|] == next[|trail|] == Restored(cached, area.value)[0];
      r
  }

  function Restored(cached: seq<CachedCrumb>, area: nat): (r: seq<Crumb>)
    ensures |r| == |cached|
  {
    seq(|cached|, k requires 0 <= k < |cached| => Restore(cached[k], area))
  }

  lemma RestoredTail(cached: seq<CachedCrumb>, area: nat)
    requires |cached| > 0
    ensures forall x | x in Restored(cached[1..], area) :: x in Restored(cached, area)
  {
    forall x | x in Restored(cached[1..], area)
      ensures x in Restored(cached, area)
    {
      var i :| 0 <= i < |cached| - 1 && Restored(cached[1..], area)[i] == x;
      assert Restored(cached, area)[i + 1] == x;
    }
  }

  /** Some crumb of the trail lies within one unit of `p`. */
  predicate Near(trail: seq<Crumb>, p: Vec3) {
    exists k | 0 <= k < |trail| :: DistSq(trail[k].pos, p) < 1.0
  }

  /** No appended crumb lies within one unit of the crumb before it, and
      every cached crumb either made it into the trail or lies within one
      unit of a crumb that did. */
  lemma AppendSpread(trail: seq<Crumb>, area: nat, cached: seq<CachedCrumb>)
    ensures var r := AppendCached(trail, Some(area), cached);
      && (forall k | |trail| <= k < |r| && 0 < k :: DistSq(r[k - 1].pos, r[k].pos) >= 1.0)
      && (forall j | 0 <= j < |cached| :: Restore(cached[j], area) in r[|trail|..] || Near(r, cached[j].pos))
  {
    AppendSpaced(trail, area, cached);
    AppendCovers(trail, area, cached);
  }

  /** No appended crumb lies within one unit of the crumb before it. */
  lemma {:induction false} AppendSpaced(trail: seq<Crumb>, area: nat, cached: seq<CachedCrumb>)
    ensures var r := AppendCached(trail, Some(area), cached);
      forall k | |trail| <= k < |r| && 0 < k :: DistSq(r[k - 1].pos, r[k].pos) >= 1.0
    decreases |cached|
  {
    var r := AppendCached(trail, Some(area), cached);
    if |cached| > 0 {
      var c := cached[0];
      var skip := |trail| > 0 && DistSq(trail[|trail| - 1].pos, c.pos) < 1.0;
      var next := if skip then trail else trail + [Restore(c, area)];
      assert r == AppendCached(next, Some(area), cached[1..]);
      AppendSpaced(next, area, cached[1..]);
      assert r[..|next|] == next;
    }
  }

  /** Every cached crumb either made it into the trail or lies within one
      unit of a crumb that did. */
  lemma {:induction false} AppendCovers(trail: seq<Crumb>, area: nat, cached: seq<CachedCrumb>)
    ensures var r := AppendCached(trail, Some(area), cached);
      forall j | 0 <= j < |cached| :: Restore(cached[j], area) in r[|trail|..] || Near(r, cached[j].pos)
    decreases |cached|
  {
    var r := AppendCached(trail, Some(area), cached);
    if |cached| > 0 {
      var c := cached[0];
      var skip := |trail| > 0 && DistSq(trail[|trail| - 1].pos, c.pos) < 1.0;
      var next := if skip then trail else trail + [Restore(c, area)];
      assert r == AppendCached(next, Some(area), cached[1..]);
      AppendCovers(next, area, cached[1..]);
      assert r[..|next|] == next;
      forall j | 0 <= j < |cached|
        ensures Restore(cached[j], area) in r[|trail|..] || Near(r, cached[j].pos)
      {
        if j == 0 {
          if skip {
            assert r[|trail| - 1] == trail[|trail| - 1];
            assert DistSq(r[|trail| - 1].pos, c.pos) < 1.0;
          } else {
            assert r[|trail|..][0] == Restore(c, area);
          }
        } else {
          assert cached[j] == cached[1..][j - 1];
          if Restore(cached[j], area) in r[|next|..] {
            assert r[|next|..] == r[|trail|..][|next| - |trail|..];
          }
        }
      }
    }
  }
}
