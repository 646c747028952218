/** The binary `.nav` file of the bot's nav reader (`CNavFile`): the writer,
    the reader, and the runtime areas the reader derives from the records.

    Encoders are written in continuation style: `PutX(x, rest)` is the bytes
    of `x` followed by `rest`, so that a record's encoding is a right-nested
    chain of field encodings and each round trip is a chain of field round
    trips. Decoders return the value and the bytes after it.

    Float fields are kept as their raw 32-bit words, so the codec round trip
    is exact; the loader's arithmetic reads them through a `toReal`
    parameter (the IEEE-754 single-precision meaning of a word). */
module NavCodec {
  import opened Util
  import opened Bytes
  import opened Nav
  import opened Wire
  import opened WireLists

  const NAV_MAGIC: u32 := 0xFEED_FACE
  /** Oldest accepted version; the writer emits exactly this one. */
  const NAV_VERSION: u32 := 16
  /** TF2's sub-version. */
  const NAV_SUBVERSION: u32 := 2
  /** Size of the fixed name buffer of a place. */
  const PLACE_NAME_CAPACITY: nat := 256
  /** Height added below and above the corner heights for the z band. */
  const Z_TOLERANCE: real := 18.0

  // ---------------------------------------------------------------------
  // Records of the file

  /** A vector of three single-precision words. */
  datatype Word3 = Word3(x: u32, y: u32, z: u32)

  datatype HidingSpot = HidingSpot(id: u32, pos: Word3, flags: u8)

  /** A spot to watch on an encounter path. Its parametric distance is a
      float on the area but travels as one byte; `t` is that byte. */
  datatype SpotOrder = SpotOrder(id: u32, t: u8)

  /** A path through the area (directions travel as one byte each) with
      the count field the writer emits and the spots it then writes. */
  datatype Encounter = Encounter(
    fromId: u32, fromDir: u8, toId: u32, toDir: u8, spotCount: u8, spots: seq<SpotOrder>)

  datatype VisibleArea = VisibleArea(id: u32, attributes: u8)

  type DirLists = s: seq<seq<u32>> | |s| == 4 witness [[], [], [], []]
  type LadderLists = s: seq<seq<u32>> | |s| == 2 witness [[], []]
  type Words2 = s: seq<u32> | |s| == 2 witness [0, 0]
  type Words4 = s: seq<u32> | |s| == 4 witness [0, 0, 0, 0]

  /** A place name as held in its fixed buffer. */
  type PlaceName = s: Buf | |s| <= PLACE_NAME_CAPACITY

  datatype AreaRecord = AreaRecord(
    id: u32, attributes: u32, nw: Word3, se: Word3, neZ: u32, swZ: u32,
    connections: DirLists,
    hidingSpots: seq<HidingSpot>,
    encounters: seq<Encounter>,
    indexType: u16,
    ladders: LadderLists,
    earliestOccupy: Words2,
    lightIntensity: Words4,
    visible: seq<VisibleArea>,
    inheritVisibilityFrom: u32,
    tfAttributes: u32)

  datatype NavFile = NavFile(
    bspSize: u32, analyzed: u8, places: seq<PlaceName>, hasUnnamedAreas: u8, areas: seq<AreaRecord>)

  function PutWord3(v: Word3, rest: Buf): Buf {
    PutU32(v.x, PutU32(v.y, PutU32(v.z, rest)))
  }

  function GetWord3(b: Buf): Got<Word3> {
    var x :- GetU32(b);
    var y :- GetU32(x.1);
    var z :- GetU32(y.1);
    Ok((Word3(x.0, y.0, z.0), z.1))
  }

  lemma Word3Trip(v: Word3, rest: Buf)
    ensures GetWord3(PutWord3(v, rest)) == Ok((v, rest))
  {
    U32Trip(v.z, rest);
    U32Trip(v.y, PutU32(v.z, rest));
    U32Trip(v.x, PutU32(v.y, PutU32(v.z, rest)));
  }

  /** `n` raw bytes. */
  function GetBytes(n: nat, b: Buf): (r: Got<Buf>)
    ensures r.Ok? ==> |r.value.0| == n && r.value.0 + r.value.1 == b
  {
    if |b| < n then Err(Truncated) else Ok((b[..n], b[n..]))
  }

  // ---------------------------------------------------------------------
  // Places

  /** The place reader as the source writes it: a 16-bit length and then
      that many bytes, all stored into the name. */
  function GetPlaceAsWritten(b: Buf): (r: Got<Buf>) {
    var len :- GetU16(b);
    GetBytes(len.0, len.1)
  }

  /** A length of 300 passes the reader and yields a 300-byte name, which
      the 256-byte name buffer cannot hold. */
  lemma PlaceOverflow()
    ensures var b := EncodeU16(300) + seq(300, k => 0 as byte);
      && GetPlaceAsWritten(b).Ok?
      && |GetPlaceAsWritten(b).value.0| == 300 > PLACE_NAME_CAPACITY
  {
    var b := EncodeU16(300) + seq(300, k => 0 as byte);
    assert DecodeU16(b) == 300;
  }

  /** The place reader with the buffer respected: it consumes the whole
      announced name, keeping the stream in step, but stores at most the
      buffer's capacity. */
  function GetPlace(b: Buf): (r: Got<PlaceName>)
    ensures r.Ok? <==> GetPlaceAsWritten(b).Ok?
    ensures r.Ok? ==> r.value.1 == GetPlaceAsWritten(b).value.1
    ensures r.Ok? ==> r.value.0 <= GetPlaceAsWritten(b).value.0
  {
    var len :- GetU16(b);
    var name :- GetBytes(len.0, len.1);
    var kept: PlaceName := if |name.0| <= PLACE_NAME_CAPACITY then name.0 else name.0[..PLACE_NAME_CAPACITY];
    Ok((kept, name.1))
  }

  function PutPlace(name: PlaceName, rest: Buf): Buf {
    PutU16(|name|, name + rest)
  }

  lemma PlaceTrip(name: PlaceName, rest: Buf)
    ensures GetPlace(PutPlace(name, rest)) == Ok((name, rest))
  {
    U16Trip(|name|, name + rest);
    assert (name + rest)[..|name|] == name;
    assert (name + rest)[|name|..] == rest;
  }

  // ---------------------------------------------------------------------
  // Hiding spots, encounters and visibility records

  function PutHidingSpot(s: HidingSpot, rest: Buf): Buf {
    PutU32(s.id, PutWord3(s.pos, PutU8(s.flags, rest)))
  }

  function GetHidingSpot(b: Buf): Got<HidingSpot> {
    var id :- GetU32(b);
    var pos :- GetWord3(id.1);
    var flags :- GetU8(pos.1);
    Ok((HidingSpot(id.0, pos.0, flags.0), flags.1))
  }

  lemma HidingSpotTrip(s: HidingSpot, rest: Buf)
    ensures GetHidingSpot(PutHidingSpot(s, rest)) == Ok((s, rest))
  {
    U8Trip(s.flags, rest);
    Word3Trip(s.pos, PutU8(s.flags, rest));
    U32Trip(s.id, PutWord3(s.pos, PutU8(s.flags, rest)));
  }

  function PutSpotOrder(o: SpotOrder, rest: Buf): Buf {
    PutU32(o.id, PutU8(o.t, rest))
  }

  function GetSpotOrder(b: Buf): Got<SpotOrder> {
    var id :- GetU32(b);
    var t :- GetU8(id.1);
    Ok((SpotOrder(id.0, t.0), t.1))
  }

  lemma SpotOrderTrip(o: SpotOrder, rest: Buf)
    ensures GetSpotOrder(PutSpotOrder(o, rest)) == Ok((o, rest))
  {
    U8Trip(o.t, rest);
    U32Trip(o.id, PutU8(o.t, rest));
  }

  /** The writer emits the stored count, then every spot in the list. */
  function PutEncounter(e: Encounter, rest: Buf): Buf {
    PutU32(e.fromId, PutU8(e.fromDir, PutU32(e.toId, PutU8(e.toDir,
      PutU8(e.spotCount, PutList(PutSpotOrder, e.spots, rest))))))
  }

  /** The reader reads as many spots as the count says. */
  function GetEncounter(b: Buf): Got<Encounter> {
    var from :- GetU32(b);
    var fromDir :- GetU8(from.1);
    var to :- GetU32(fromDir.1);
    var toDir :- GetU8(to.1);
    var count :- GetU8(toDir.1);
    var spots :- GetList(GetSpotOrder, count.0, count.1);
    Ok((Encounter(from.0, fromDir.0, to.0, toDir.0, count.0, spots.0), spots.1))
  }

  lemma EncounterTrip(e: Encounter, rest: Buf)
    requires e.spotCount == |e.spots|
    ensures GetEncounter(PutEncounter(e, rest)) == Ok((e, rest))
  {
    forall i, r | 0 <= i < |e.spots| ensures GetSpotOrder(PutSpotOrder(e.spots[i], r)) == Ok((e.spots[i], r)) {
      SpotOrderTrip(e.spots[i], r);
    }
    var b5 := PutList(PutSpotOrder, e.spots, rest);
    ListTrip(GetSpotOrder, PutSpotOrder, e.spots, rest);
    U8Trip(e.spotCount, b5);
    var b4 := PutU8(e.spotCount, b5);
    U8Trip(e.toDir, b4);
    var b3 := PutU8(e.toDir, b4);
    U32Trip(e.toId, b3);
    var b2 := PutU32(e.toId, b3);
    U8Trip(e.fromDir, b2);
    U32Trip(e.fromId, PutU8(e.fromDir, b2));
  }

  function PutVisible(v: VisibleArea, rest: Buf): Buf {
    PutU32(v.id, PutU8(v.attributes, rest))
  }

  function GetVisible(b: Buf): Got<VisibleArea> {
    var id :- GetU32(b);
    var attributes :- GetU8(id.1);
    Ok((VisibleArea(id.0, attributes.0), attributes.1))
  }

  lemma VisibleTrip(v: VisibleArea, rest: Buf)
    ensures GetVisible(PutVisible(v, rest)) == Ok((v, rest))
  {
    U8Trip(v.attributes, rest);
    U32Trip(v.id, PutU8(v.attributes, rest));
  }

  lemma U32ListTrip(xs: seq<u32>, rest: Buf)
    requires |xs| < TWO_32
    ensures GetCounted(GetU32, PutCounted(PutU32, xs, rest)) == Ok((xs, rest))
  {
    forall i, r | 0 <= i < |xs| ensures GetU32(PutU32(xs[i], r)) == Ok((xs[i], r)) {
      U32Trip(xs[i], r);
    }
    CountedTrip(GetU32, PutU32, xs, rest);
  }

  // ---------------------------------------------------------------------
  // Connections

  /** The ids other than the area's own, in order. */
  function Without(ids: seq<u32>, self: u32): (r: seq<u32>)
    ensures forall x :: x in r <==> x in ids && x != self
    ensures |r| <= |ids|
  {
    if |ids| == 0 then []
    else
      var tail := Without(ids[1..], self);
      assert forall x :: x in ids <==> x == ids[0] || x in ids[1..];
      if ids[0] == self then tail else [ids[0]] + tail
  }

  function Occurrences(ids: seq<u32>, self: u32): nat {
    if |ids| == 0 then 0 else (if ids[0] == self then 1 else 0) + Occurrences(ids[1..], self)
  }

  /** The kept connections and the dropped self-connections account for
      every id read. */
  lemma {:induction false} WithoutCount(ids: seq<u32>, self: u32)
    ensures |Without(ids, self)| + Occurrences(ids, self) == |ids|
    decreases |ids|
  {
    if |ids| > 0 {
      WithoutCount(ids[1..], self);
    }
  }

  lemma {:induction false} WithoutNothing(ids: seq<u32>, self: u32)
    requires self !in ids
    ensures Without(ids, self) == ids
    decreases |ids|
  {
    if |ids| > 0 {
      WithoutNothing(ids[1..], self);
      assert [ids[0]] + ids[1..] == ids;
    }
  }

  /** One direction's connections: a count and the ids, the area's own
      id skipped. */
  function GetDirection(self: u32, b: Buf): (r: Got<seq<u32>>)
    ensures r.Ok? ==> self !in r.value.0
  {
    var ids :- GetCounted(GetU32, b);
    Ok((Without(ids.0, self), ids.1))
  }

  function GetDirections(self: u32, b: Buf): (r: Got<DirLists>)
    ensures r.Ok? ==> forall d | 0 <= d < 4 :: self !in r.value.0[d]
  {
    var d0 :- GetDirection(self, b);
    var d1 :- GetDirection(self, d0.1);
    var d2 :- GetDirection(self, d1.1);
    var d3 :- GetDirection(self, d2.1);
    var dirs: DirLists := [d0.0, d1.0, d2.0, d3.0];
    Ok((dirs, d3.1))
  }

  function PutDirections(c: DirLists, rest: Buf): Buf {
    PutCounted(PutU32, c[0], PutCounted(PutU32, c[1], PutCounted(PutU32, c[2], PutCounted(PutU32, c[3], rest))))
  }

  predicate DirectionFits(self: u32, ids: seq<u32>) {
    |ids| < TWO_32 && self !in ids
  }

  lemma DirectionTrip(self: u32, ids: seq<u32>, rest: Buf)
    requires DirectionFits(self, ids)
    ensures GetDirection(self, PutCounted(PutU32, ids, rest)) == Ok((ids, rest))
  {
    U32ListTrip(ids, rest);
    WithoutNothing(ids, self);
  }

  lemma DirectionsTrip(self: u32, c: DirLists, rest: Buf)
    requires forall d | 0 <= d < 4 :: DirectionFits(self, c[d])
    ensures GetDirections(self, PutDirections(c, rest)) == Ok((c, rest))
  {
    var b3 := PutCounted(PutU32, c[3], rest);
    var b2 := PutCounted(PutU32, c[2], b3);
    var b1 := PutCounted(PutU32, c[1], b2);
    DirectionTrip(self, c[3], rest);
    DirectionTrip(self, c[2], b3);
    DirectionTrip(self, c[1], b2);
    DirectionTrip(self, c[0], b1);
    assert [c[0], c[1], c[2], c[3]] == c;
  }

  // ---------------------------------------------------------------------
  // Area records, in four stretches

  datatype Head = Head(id: u32, attributes: u32, nw: Word3, se: Word3, neZ: u32, swZ: u32)

  function PutHead(h: Head, rest: Buf): Buf {
    PutU32(h.id, PutU32(h.attributes, PutWord3(h.nw, PutWord3(h.se, PutU32(h.neZ, PutU32(h.swZ, rest))))))
  }

  function GetHead(b: Buf): Got<Head> {
    var id :- GetU32(b);
    var attributes :- GetU32(id.1);
    var nw :- GetWord3(attributes.1);
    var se :- GetWord3(nw.1);
    var neZ :- GetU32(se.1);
    var swZ :- GetU32(neZ.1);
    Ok((Head(id.0, attributes.0, nw.0, se.0, neZ.0, swZ.0), swZ.1))
  }

  lemma HeadTrip(h: Head, rest: Buf)
    ensures GetHead(PutHead(h, rest)) == Ok((h, rest))
  {
    var b5 := PutU32(h.swZ, rest);
    var b4 := PutU32(h.neZ, b5);
    var b3 := PutWord3(h.se, b4);
    var b2 := PutWord3(h.nw, b3);
    var b1 := PutU32(h.attributes, b2);
    U32Trip(h.swZ, rest);
    U32Trip(h.neZ, b5);
    Word3Trip(h.se, b4);
    Word3Trip(h.nw, b3);
    U32Trip(h.attributes, b2);
    U32Trip(h.id, b1);
  }

  datatype Spots = Spots(hidingSpots: seq<HidingSpot>, encounters: seq<Encounter>)

  /** Hiding spots behind an 8-bit count, encounters behind a 32-bit one. */
  function PutSpots(s: Spots, rest: Buf): Buf {
    PutU8(|s.hidingSpots| % TWO_8, PutList(PutHidingSpot, s.hidingSpots,
      PutCounted(PutEncounter, s.encounters, rest)))
  }

  function GetSpots(b: Buf): Got<Spots> {
    var n :- GetU8(b);
    var hiding :- GetList(GetHidingSpot, n.0, n.1);
    var encounters :- GetCounted(GetEncounter, hiding.1);
    Ok((Spots(hiding.0, encounters.0), encounters.1))
  }

  predicate SpotsFit(s: Spots) {
    && |s.hidingSpots| < TWO_8
    && |s.encounters| < TWO_32
    && forall i | 0 <= i < |s.encounters| :: s.encounters[i].spotCount == |s.encounters[i].spots|
  }

  lemma HidingSpotsTrip(hs: seq<HidingSpot>, rest: Buf)
    ensures GetList(GetHidingSpot, |hs|, PutList(PutHidingSpot, hs, rest)) == Ok((hs, rest))
  {
    forall i, r | 0 <= i < |hs| ensures GetHidingSpot(PutHidingSpot(hs[i], r)) == Ok((hs[i], r)) {
      HidingSpotTrip(hs[i], r);
    }
    ListTrip(GetHidingSpot, PutHidingSpot, hs, rest);
  }

  lemma EncountersTrip(es: seq<Encounter>, rest: Buf)
    requires |es| < TWO_32
    requires forall i | 0 <= i < |es| :: es[i].spotCount == |es[i].spots|
    ensures GetCounted(GetEncounter, PutCounted(PutEncounter, es, rest)) == Ok((es, rest))
  {
    forall i, r | 0 <= i < |es| ensures GetEncounter(PutEncounter(es[i], r)) == Ok((es[i], r)) {
      EncounterTrip(es[i], r);
    }
    CountedTrip(GetEncounter, PutEncounter, es, rest);
  }

  lemma SpotsTrip(s: Spots, rest: Buf)
    requires SpotsFit(s)
    ensures GetSpots(PutSpots(s, rest)) == Ok((s, rest))
  {
    var b2 := PutCounted(PutEncounter, s.encounters, rest);
    var b1 := PutList(PutHidingSpot, s.hidingSpots, b2);
    EncountersTrip(s.encounters, rest);
    HidingSpotsTrip(s.hidingSpots, b2);
    ModSmall(|s.hidingSpots|, TWO_8);
    U8Trip(|s.hidingSpots|, b1);
  }

  datatype Tail = Tail(
    indexType: u16, ladders: LadderLists, earliestOccupy: Words2, lightIntensity: Words4,
    visible: seq<VisibleArea>, inheritVisibilityFrom: u32, tfAttributes: u32)

  function PutLadders(l: LadderLists, rest: Buf): Buf {
    PutCounted(PutU32, l[0], PutCounted(PutU32, l[1], rest))
  }

  function GetLadders(b: Buf): Got<LadderLists> {
    var l0 :- GetCounted(GetU32, b);
    var l1 :- GetCounted(GetU32, l0.1);
    var ladders: LadderLists := [l0.0, l1.0];
    Ok((ladders, l1.1))
  }

  /** The two earliest-occupy times and the four corner light intensities. */
  function PutOccupancy(e: Words2, light: Words4, rest: Buf): Buf {
    PutList(PutU32, e, PutList(PutU32, light, rest))
  }

  function GetOccupancy(b: Buf): Got<(Words2, Words4)> {
    var e :- GetList(GetU32, 2, b);
    var light :- GetList(GetU32, 4, e.1);
    var earliest: Words2 := e.0;
    var intensity: Words4 := light.0;
    Ok(((earliest, intensity), light.1))
  }

  function PutVisibility(vs: seq<VisibleArea>, inherit: u32, tf: u32, rest: Buf): Buf {
    PutCounted(PutVisible, vs, PutU32(inherit, PutU32(tf, rest)))
  }

  function GetVisibility(b: Buf): Got<(seq<VisibleArea>, u32, u32)> {
    var vs :- GetCounted(GetVisible, b);
    var inherit :- GetU32(vs.1);
    var tf :- GetU32(inherit.1);
    Ok(((vs.0, inherit.0, tf.0), tf.1))
  }

  /** Index type, ladders, occupancy, visibility and the TF attributes. */
  function PutTail(t: Tail, rest: Buf): Buf {
    PutU16(t.indexType, PutLadders(t.ladders, PutOccupancy(t.earliestOccupy, t.lightIntensity,
      PutVisibility(t.visible, t.inheritVisibilityFrom, t.tfAttributes, rest))))
  }

  function GetTail(b: Buf): Got<Tail> {
    var indexType :- GetU16(b);
    var ladders :- GetLadders(indexType.1);
    var occupancy :- GetOccupancy(ladders.1);
    var vis :- GetVisibility(occupancy.1);
    Ok((Tail(indexType.0, ladders.0, occupancy.0.0, occupancy.0.1, vis.0.0, vis.0.1, vis.0.2), vis.1))
  }

  predicate TailFits(t: Tail) {
    |t.ladders[0]| < TWO_32 && |t.ladders[1]| < TWO_32 && |t.visible| < TWO_32
  }

  lemma WordsTrip(xs: seq<u32>, rest: Buf)
    ensures GetList(GetU32, |xs|, PutList(PutU32, xs, rest)) == Ok((xs, rest))
  {
    forall i, r | 0 <= i < |xs| ensures GetU32(PutU32(xs[i], r)) == Ok((xs[i], r)) {
      U32Trip(xs[i], r);
    }
    ListTrip(GetU32, PutU32, xs, rest);
  }

  lemma VisiblesTrip(vs: seq<VisibleArea>, rest: Buf)
    requires |vs| < TWO_32
    ensures GetCounted(GetVisible, PutCounted(PutVisible, vs, rest)) == Ok((vs, rest))
  {
    forall i, r | 0 <= i < |vs| ensures GetVisible(PutVisible(vs[i], r)) == Ok((vs[i], r)) {
      VisibleTrip(vs[i], r);
    }
    CountedTrip(GetVisible, PutVisible, vs, rest);
  }

  lemma LaddersTrip(l: LadderLists, rest: Buf)
    requires |l[0]| < TWO_32 && |l[1]| < TWO_32
    ensures GetLadders(PutLadders(l, rest)) == Ok((l, rest))
  {
    U32ListTrip(l[1], rest);
    U32ListTrip(l[0], PutCounted(PutU32, l[1], rest));
    assert [l[0], l[1]] == l;
  }

  lemma OccupancyTrip(e: Words2, light: Words4, rest: Buf)
    ensures GetOccupancy(PutOccupancy(e, light, rest)) == Ok(((e, light), rest))
  {
    WordsTrip(light, rest);
    WordsTrip(e, PutList(PutU32, light, rest));
  }

  lemma VisibilityTrip(vs: seq<VisibleArea>, inherit: u32, tf: u32, rest: Buf)
    requires |vs| < TWO_32
    ensures GetVisibility(PutVisibility(vs, inherit, tf, rest)) == Ok(((vs, inherit, tf), rest))
  {
    U32Trip(tf, rest);
    U32Trip(inherit, PutU32(tf, rest));
    VisiblesTrip(vs, PutU32(inherit, PutU32(tf, rest)));
  }

  lemma TailTrip(t: Tail, rest: Buf)
    requires TailFits(t)
    ensures GetTail(PutTail(t, rest)) == Ok((t, rest))
  {
    var b3 := PutVisibility(t.visible, t.inheritVisibilityFrom, t.tfAttributes, rest);
    var b2 := PutOccupancy(t.earliestOccupy, t.lightIntensity, b3);
    var b1 := PutLadders(t.ladders, b2);
    VisibilityTrip(t.visible, t.inheritVisibilityFrom, t.tfAttributes, rest);
    OccupancyTrip(t.earliestOccupy, t.lightIntensity, b3);
    LaddersTrip(t.ladders, b2);
    U16Trip(t.indexType, b1);
  }

  function HeadOf(a: AreaRecord): Head { Head(a.id, a.attributes, a.nw, a.se, a.neZ, a.swZ) }
  function SpotsOf(a: AreaRecord): Spots { Spots(a.hidingSpots, a.encounters) }
  function TailOf(a: AreaRecord): Tail {
    Tail(a.indexType, a.ladders, a.earliestOccupy, a.lightIntensity, a.visible, a.inheritVisibilityFrom, a.tfAttributes)
  }

  /** The record of one area, field by field in the writer's order. */
  function PutArea(a: AreaRecord, rest: Buf): Buf {
    PutHead(HeadOf(a), PutDirections(a.connections, PutSpots(SpotsOf(a), PutTail(TailOf(a), rest))))
  }

  /** No direction list of the area names the area itself. */
  predicate NoSelfLinks(a: AreaRecord) {
    forall d | 0 <= d < 4 :: a.id !in a.connections[d]
  }

  /** The reader drops every connection from an area to itself. */
  function GetArea(b: Buf): (r: Got<AreaRecord>)
    ensures r.Ok? ==> NoSelfLinks(r.value.0)
  {
    var h :- GetHead(b);
    var c :- GetDirections(h.0.id, h.1);
    var s :- GetSpots(c.1);
    var t :- GetTail(s.1);
    Ok((AreaRecord(h.0.id, h.0.attributes, h.0.nw, h.0.se, h.0.neZ, h.0.swZ, c.0,
                   s.0.hidingSpots, s.0.encounters, t.0.indexType, t.0.ladders,
                   t.0.earliestOccupy, t.0.lightIntensity, t.0.visible,
                   t.0.inheritVisibilityFrom, t.0.tfAttributes), t.1))
  }

  /** What the writer needs for its output to read back as the same area:
      no connection to the area itself (the reader drops those), counts
      that fit their fields, and encounter counts that match their lists. */
  predicate AreaFits(a: AreaRecord) {
    && (forall d | 0 <= d < 4 :: DirectionFits(a.id, a.connections[d]))
    && SpotsFit(SpotsOf(a))
    && TailFits(TailOf(a))
  }

  lemma AreaTrip(a: AreaRecord, rest: Buf)
    requires AreaFits(a)
    ensures GetArea(PutArea(a, rest)) == Ok((a, rest))
  {
    var b3 := PutTail(TailOf(a), rest);
    var b2 := PutSpots(SpotsOf(a), b3);
    var b1 := PutDirections(a.connections, b2);
    TailTrip(TailOf(a), rest);
    SpotsTrip(SpotsOf(a), b3);
    DirectionsTrip(a.id, a.connections, b2);
    HeadTrip(HeadOf(a), b1);
  }

  // ---------------------------------------------------------------------
  // The file

  /** Everything after the header words. */
  function PutBody(f: NavFile, rest: Buf): Buf {
    PutU32(f.bspSize, PutU8(f.analyzed,
      PutU16(|f.places| % TWO_16, PutList(PutPlace, f.places,
      PutU8(f.hasUnnamedAreas, PutCounted(PutArea, f.areas, rest))))))
  }

  /** The writer: magic, version 16, sub-version 2, then the body. */
  function Save(f: NavFile): (r: Buf) {
    PutU32(NAV_MAGIC, PutU32(NAV_VERSION, PutU32(NAV_SUBVERSION, PutBody(f, []))))
  }

  function GetBody(b: Buf): Got<NavFile> {
    var bsp :- GetU32(b);
    var analyzed :- GetU8(bsp.1);
    var placeCount :- GetU16(analyzed.1);
    var places :- GetList(GetPlace, placeCount.0, placeCount.1);
    var unnamed :- GetU8(places.1);
    var areas :- GetCounted(GetArea, unnamed.1);
    Ok((NavFile(bsp.0, analyzed.0, places.0, unnamed.0, areas.0), areas.1))
  }

  /** The reader: the three header checks in order, then the body; bytes
      after the last area are ignored. */
  function Load(b: Buf): (r: Result<NavFile, NavError>) {
    var magic :- GetU32(b);
    if magic.0 != NAV_MAGIC then Err(BadMagic)
    else
      var version :- GetU32(magic.1);
      if version.0 < NAV_VERSION then Err(OldVersion)
      else
        var sub :- GetU32(version.1);
        if sub.0 != NAV_SUBVERSION then Err(NotTf2)
        else
          var body :- GetBody(sub.1);
          Ok(body.0)
  }

  /** The header checks: which error a file with complete header words
      draws, and that only files passing all three can load. */
  lemma LoadRejects(b: Buf)
    requires |b| >= 12
    ensures DecodeU32(b) != NAV_MAGIC ==> Load(b) == Err(BadMagic)
    ensures DecodeU32(b) == NAV_MAGIC && DecodeU32(b[4..]) < NAV_VERSION ==> Load(b) == Err(OldVersion)
    ensures DecodeU32(b) == NAV_MAGIC && DecodeU32(b[4..]) >= NAV_VERSION && DecodeU32(b[8..]) != NAV_SUBVERSION
            ==> Load(b) == Err(NotTf2)
    ensures Load(b).Ok? ==> DecodeU32(b) == NAV_MAGIC && DecodeU32(b[4..]) >= NAV_VERSION
                            && DecodeU32(b[8..]) == NAV_SUBVERSION
  {
    assert b[4..][4..] == b[8..];
  }

  /** The writer's first seventeen bytes: magic, version, sub-version,
      BSP size and the analyzed flag. */
  lemma SaveHeader(f: NavFile)
    ensures var s := Save(f);
      && |s| >= 17
      && DecodeU32(s) == NAV_MAGIC
      && DecodeU32(s[4..]) == NAV_VERSION
      && DecodeU32(s[8..]) == NAV_SUBVERSION
      && DecodeU32(s[12..]) == f.bspSize
      && s[16] as nat == f.analyzed
  {
    var body := PutBody(f, []);
    var s := Save(f);
    U32Trip(NAV_MAGIC, PutU32(NAV_VERSION, PutU32(NAV_SUBVERSION, body)));
    U32Trip(NAV_VERSION, PutU32(NAV_SUBVERSION, body));
    U32Trip(NAV_SUBVERSION, body);
    U32Trip(f.bspSize, PutU8(f.analyzed, PutU16(|f.places| % TWO_16, PutList(PutPlace, f.places,
      PutU8(f.hasUnnamedAreas, PutCounted(PutArea, f.areas, []))))));
    assert s[4..] == PutU32(NAV_VERSION, PutU32(NAV_SUBVERSION, body));
    assert s[8..] == PutU32(NAV_SUBVERSION, body);
    assert s[12..] == body;
    assert s[16] == body[4];
  }

  /** What the writer needs for the reader to get the same file back. */
  predicate FileFits(f: NavFile) {
    && |f.places| < TWO_16
    && |f.areas| < TWO_32
    && forall i | 0 <= i < |f.areas| :: AreaFits(f.areas[i])
  }

  lemma AreasTrip(areas: seq<AreaRecord>, rest: Buf)
    requires |areas| < TWO_32
    requires forall i | 0 <= i < |areas| :: AreaFits(areas[i])
    ensures GetCounted(GetArea, PutCounted(PutArea, areas, rest)) == Ok((areas, rest))
  {
    forall i, r | 0 <= i < |areas| ensures GetArea(PutArea(areas[i], r)) == Ok((areas[i], r)) {
      AreaTrip(areas[i], r);
    }
    CountedTrip(GetArea, PutArea, areas, rest);
  }

  lemma PlacesTrip(places: seq<PlaceName>, rest: Buf)
    ensures GetList(GetPlace, |places|, PutList(PutPlace, places, rest)) == Ok((places, rest))
  {
    forall i, r | 0 <= i < |places| ensures GetPlace(PutPlace(places[i], r)) == Ok((places[i], r)) {
      PlaceTrip(places[i], r);
    }
    ListTrip(GetPlace, PutPlace, places, rest);
  }

  lemma BodyTrip(f: NavFile, rest: Buf)
    requires FileFits(f)
    ensures GetBody(PutBody(f, rest)) == Ok((f, rest))
  {
    var b5 := PutCounted(PutArea, f.areas, rest);
    var b4 := PutU8(f.hasUnnamedAreas, b5);
    var b3 := PutList(PutPlace, f.places, b4);
    var b2 := PutU16(|f.places|, b3);
    AreasTrip(f.areas, rest);
    U8Trip(f.hasUnnamedAreas, b5);
    PlacesTrip(f.places, b4);
    ModSmall(|f.places|, TWO_16);
    U16Trip(|f.places|, b3);
    U8Trip(f.analyzed, b2);
    U32Trip(f.bspSize, PutU8(f.analyzed, b2));
  }

  /** Saving and loading gives the same file back. */
  lemma SaveLoad(f: NavFile)
    requires FileFits(f)
    ensures Load(Save(f)) == Ok(f)
  {
    var body := PutBody(f, []);
    BodyTrip(f, []);
    U32Trip(NAV_SUBVERSION, body);
    U32Trip(NAV_VERSION, PutU32(NAV_SUBVERSION, body));
    U32Trip(NAV_MAGIC, PutU32(NAV_VERSION, PutU32(NAV_SUBVERSION, body)));
  }

  lemma BodyKeeps(b: Buf)
    requires GetBody(b).Ok?
    ensures forall i | 0 <= i < |GetBody(b).value.0.areas| :: NoSelfLinks(GetBody(b).value.0.areas[i])
  {
    var bsp := GetU32(b).value;
    var an := GetU8(bsp.1).value;
    var pc := GetU16(an.1).value;
    var pl := GetList(GetPlace, pc.0, pc.1).value;
    var un := GetU8(pl.1).value;
    var n := GetU32(un.1).value;
    ListKeeps(GetArea, NoSelfLinks, n.0, n.1);
  }

  /** The reader never yields a connection from an area to itself. */
  lemma LoadDropsSelfLinks(b: Buf)
    requires Load(b).Ok?
    ensures forall i | 0 <= i < |Load(b).value.areas| :: NoSelfLinks(Load(b).value.areas[i])
  {
    var m := GetU32(b).value;
    var v := GetU32(m.1).value;
    var s := GetU32(v.1).value;
    BodyKeeps(s.1);
  }

  // ---------------------------------------------------------------------
  // Runtime areas

  function Real3(v: Word3, toReal: u32 -> real): Vec3 {
    Vec3(toReal(v.x), toReal(v.y), toReal(v.z))
  }

  function Flatten(dirs: seq<seq<u32>>): (r: seq<u32>)
    ensures forall x :: x in r <==> exists d | 0 <= d < |dirs| :: x in dirs[d]
  {
    if |dirs| == 0 then []
    else
      var tail := Flatten(dirs[1..]);
      assert forall d | 1 <= d < |dirs| :: dirs[d] == dirs[1..][d - 1];
      assert forall x | x in tail :: exists d | 1 <= d < |dirs| :: x in dirs[d];
      dirs[0] + tail
  }

  function Unresolved(ids: seq<u32>): (r: seq<Link>)
    ensures |r| == |ids|
    ensures forall k | 0 <= k < |r| :: r[k] == Link(ids[k], None)
  {
    if |ids| == 0 then [] else [Link(ids[0], None)] + Unresolved(ids[1..])
  }

  /** The ids of the four direction lists, in order. */
  function AllLinks(r: AreaRecord): seq<u32> {
    r.connections[0] + r.connections[1] + r.connections[2] + r.connections[3]
  }

  /** A loaded area before its connections are resolved: corners and the
      two extra heights as read, and the derived center, inverse extents and
      z band. */
  function MakeArea(r: AreaRecord, toReal: u32 -> real): (a: Area)
    ensures Derived(a)
    ensures a.id == r.id && a.nw == Real3(r.nw, toReal) && a.se == Real3(r.se, toReal)
    ensures a.neZ == toReal(r.neZ) && a.swZ == toReal(r.swZ)
    ensures a.attributes == r.attributes as bv32 && a.tfAttributes == r.tfAttributes as bv32
    ensures a.connections == Unresolved(AllLinks(r))
  {
    var nw := Real3(r.nw, toReal);
    var se := Real3(r.se, toReal);
    var wide := se.x - nw.x > 0.0 && se.y - nw.y > 0.0;
    Area(
      r.id, r.attributes as bv32, r.tfAttributes as bv32, nw, se,
      Vec3((nw.x + se.x) / 2.0, (nw.y + se.y) / 2.0, (nw.z + se.z) / 2.0),
      if wide then 1.0 / (se.x - nw.x) else 0.0,
      if wide then 1.0 / (se.y - nw.y) else 0.0,
      toReal(r.neZ), toReal(r.swZ),
      Min(se.z, nw.z) - Z_TOLERANCE, Max(se.z, nw.z) + Z_TOLERANCE,
      Unresolved(AllLinks(r)))
  }

  /** The area an id names: the last area carrying it, as an id-keyed map
      filled in area order keeps the last write. */
  function LastWithId(areas: seq<Area>, id: nat): (r: Option<nat>)
    ensures r.Some? ==> r.value < |areas| && areas[r.value].id == id
    ensures r.Some? ==> forall j | r.value < j < |areas| :: areas[j].id != id
    ensures r.None? ==> forall j | 0 <= j < |areas| :: areas[j].id != id
  {
    if |areas| == 0 then None
    else if areas[|areas| - 1].id == id then Some(|areas| - 1)
    else LastWithId(areas[..|areas| - 1], id)
  }

  function ResolveLinks(links: seq<Link>, areas: seq<Area>): (r: seq<Link>)
    ensures |r| == |links|
    ensures forall k | 0 <= k < |r| :: r[k] == Link(links[k].id, LastWithId(areas, links[k].id))
  {
    if |links| == 0 then []
    else [Link(links[0].id, LastWithId(areas, links[0].id))] + ResolveLinks(links[1..], areas)
  }

  function ResolveAll(todo: seq<Area>, areas: seq<Area>): (r: seq<Area>)
    ensures |r| == |todo|
    ensures forall i | 0 <= i < |r| :: r[i] == todo[i].(connections := ResolveLinks(todo[i].connections, areas))
  {
    if |todo| == 0 then []
    else [todo[0].(connections := ResolveLinks(todo[0].connections, areas))] + ResolveAll(todo[1..], areas)
  }

  function MakeAreas(rs: seq<AreaRecord>, toReal: u32 -> real): (r: seq<Area>)
    ensures |r| == |rs|
    ensures forall i | 0 <= i < |r| :: r[i] == MakeArea(rs[i], toReal)
  {
    if |rs| == 0 then [] else [MakeArea(rs[0], toReal)] + MakeAreas(rs[1..], toReal)
  }

  /** The mesh the engine works on: one area per record, in file order,
      with every connection pointed at the area carrying its id. */
  function Mesh(f: NavFile, toReal: u32 -> real): (m: seq<Area>)
    ensures |m| == |f.areas|
    ensures forall i | 0 <= i < |m| :: m[i].id == f.areas[i].id && |m[i].connections| == |AllLinks(f.areas[i])|
  {
    var raw := MakeAreas(f.areas, toReal);
    ResolveAll(raw, raw)
  }

  /** The mesh's areas are the records' areas with resolved connections. */
  lemma MeshArea(f: NavFile, toReal: u32 -> real, i: nat)
    requires i < |f.areas|
    ensures var raw := MakeAreas(f.areas, toReal);
      Mesh(f, toReal)[i] == raw[i].(connections := ResolveLinks(raw[i].connections, raw))
    ensures forall j | 0 <= j < |f.areas| :: Mesh(f, toReal)[j].id == f.areas[j].id
  {
  }

  /** In the mesh, each area keeps its record's id and corners, its
      derived fields follow from the corners, and it has one connection
      per id of its four direction lists. */
  lemma MeshGeometry(f: NavFile, toReal: u32 -> real, i: nat)
    requires i < |f.areas|
    ensures var a := Mesh(f, toReal)[i];
      var r := f.areas[i];
      && Derived(a)
      && a.id == r.id
      && a.nw == Real3(r.nw, toReal) && a.se == Real3(r.se, toReal)
      && |a.connections| == |AllLinks(r)|
  {
    MeshArea(f, toReal, i);
    var raw := MakeAreas(f.areas, toReal);
    assert raw[i] == MakeArea(f.areas[i], toReal);
    LinksKeepDerived(raw[i], ResolveLinks(raw[i].connections, raw));
  }

  lemma LinksKeepDerived(a: Area, links: seq<Link>)
    requires Derived(a)
    ensures Derived(a.(connections := links))
  {
  }

  /** Each connection of a mesh area carries the id at its place in the
      four direction lists, and points at the last area with that id, or
      at nothing when no area has it. */
  lemma MeshLinks(f: NavFile, toReal: u32 -> real, i: nat, k: nat)
    requires i < |f.areas|
    requires k < |AllLinks(f.areas[i])|
    ensures var m := Mesh(f, toReal);
      var l := m[i].connections[k];
      && l.id == AllLinks(f.areas[i])[k]
      && (l.area.Some? ==>
            l.area.value < |m| && m[l.area.value].id == l.id
            && (forall j | l.area.value < j < |m| :: m[j].id != l.id))
      && (l.area.None? <==> forall j | 0 <= j < |m| :: m[j].id != l.id)
  {
    var raw := MakeAreas(f.areas, toReal);
    assert raw[i].connections[k].id == AllLinks(f.areas[i])[k];
    LinkOfRaw(raw, i, k);
  }

  /** Resolution against the areas themselves: a link points at the last
      area with its id, or at nothing when no area has it. */
  lemma LinkOfRaw(raw: seq<Area>, i: nat, k: nat)
    requires i < |raw| && k < |raw[i].connections|
    ensures var m := ResolveAll(raw, raw);
      var l := m[i].connections[k];
      && l.id == raw[i].connections[k].id
      && (l.area.Some? ==>
            l.area.value < |m| && m[l.area.value].id == l.id
            && (forall j | l.area.value < j < |m| :: m[j].id != l.id))
      && (l.area.None? <==> forall j | 0 <= j < |m| :: m[j].id != l.id)
  {
    var m := ResolveAll(raw, raw);
    assert forall j | 0 <= j < |m| :: m[j].id == raw[j].id;
  }
}
