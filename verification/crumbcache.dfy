/** The per-map cache of connection crumbs: its 64-bit keys made of two
    area ids, the cache file's records and the signature that must match
    before a file is trusted, and the cache built from the whole mesh. */
module CrumbCache {
  import opened Util
  import opened Nav
  import opened Connection
  import opened Crumbs
  import Bytes

  const U32: nat := 0x1_0000_0000

  /** Connection crumbs by key. */
  type Cache = map<nat, seq<CachedCrumb>>

  // ---------------------------------------------------------------------
  // Keys (`MakeConnectionKey`)

  /** `(from << 32) | to` on 64 bits, each id first taken to 32 bits. */
  function MakeKey(from: nat, to: nat): (k: nat)
    ensures k < 0x1_0000_0000_0000_0000
  {
    var hi := from % 0x1_0000_0000;
    assert (0x1_0000_0000 - 1 - hi) * 0x1_0000_0000 >= 0;
    hi * 0x1_0000_0000 + to % 0x1_0000_0000
  }

  /** `(uint32)(key >> 32)` */
  function KeyFrom(k: nat): nat {
    (k / 0x1_0000_0000) % 0x1_0000_0000
  }

  /** `(uint32)(key & 0xFFFFFFFF)` */
  function KeyTo(k: nat): nat {
    k % 0x1_0000_0000
  }

  /** Unpacking a key gives back both 32-bit ids. */
  lemma KeyUnpack(from: nat, to: nat)
    requires from < U32 && to < U32
    ensures KeyFrom(MakeKey(from, to)) == from && KeyTo(MakeKey(from, to)) == to
  {
    Bytes.DivMod(MakeKey(from, to), from, to, 0x1_0000_0000);
  }

  /** Every 64-bit key is the key of its two halves. */
  lemma KeyRepack(k: nat)
    requires k < 0x1_0000_0000_0000_0000
    ensures MakeKey(KeyFrom(k), KeyTo(k)) == k
  {
    var q := k / 0x1_0000_0000;
    assert k == q * 0x1_0000_0000 + k % 0x1_0000_0000;
  }

  /** Different connections between 32-bit ids get different keys. */
  lemma KeyInjective(a: nat, b: nat, c: nat, d: nat)
    requires a < U32 && b < U32 && c < U32 && d < U32
    requires MakeKey(a, b) == MakeKey(c, d)
    ensures a == c && b == d
  {
    KeyUnpack(a, b);
    KeyUnpack(c, d);
  }

  // ---------------------------------------------------------------------
  // The cache file

  /** The signature of a cache file. Missing fields read as version -1, an
      empty map name and zero sizes. */
  datatype Header = Header(version: int, mapName: string, bspSize: nat, areaCount: nat)

  /** One connection's record. */
  datatype Record = Record(from: nat, to: nat, crumbs: seq<CachedCrumb>)

  /** A parsed file; `connections` is `None` when the list is missing. */
  datatype CacheFile = CacheFile(header: Header, connections: Option<seq<Record>>)

  datatype Loaded = Loaded(cache: Cache, ready: bool)

  function AreaIds(areas: seq<Area>): set<nat> {
    set i | 0 <= i < |areas| :: areas[i].id
  }

  /** The file was written for this version, this map, this BSP and this
      many areas (the count compared as a 32-bit value). */
  predicate Signed(h: Header, level: string, bspSize: nat, areaCount: nat) {
    h.version == CRUMB_CACHE_VERSION && h.mapName == level
    && h.bspSize == bspSize && h.areaCount == areaCount % U32
  }

  /** A record is kept when both ids name areas and it has crumbs. */
  predicate Accepted(rec: Record, ids: set<nat>) {
    rec.from in ids && rec.to in ids && |rec.crumbs| > 0
  }

  function KeyOf(rec: Record): nat {
    MakeKey(rec.from, rec.to)
  }

  /** The keys of the accepted records. */
  function AcceptedKeys(ids: set<nat>, recs: seq<Record>): set<nat>
    decreases |recs|
  {
    if |recs| == 0 then {}
    else (if Accepted(recs[0], ids) then {KeyOf(recs[0])} else {}) + AcceptedKeys(ids, recs[1..])
  }

  /** Stores every accepted record in turn, a later record replacing an
      earlier one of the same key. */
  function LoadEntries(acc: Cache, ids: set<nat>, recs: seq<Record>): (r: Cache)
    ensures r.Keys == acc.Keys + AcceptedKeys(ids, recs)
    ensures forall k | k in r && k !in AcceptedKeys(ids, recs) :: r[k] == acc[k]
    ensures forall k | k in r :: |r[k]| > 0 || (k in acc && r[k] == acc[k])
    decreases |recs|
  {
    if |recs| == 0 then acc
    else
      var rec := recs[0];
      var next := if Accepted(rec, ids) then acc[KeyOf(rec) := rec.crumbs] else acc;
      LoadEntries(next, ids, recs[1..])
  }

  /** The records a file lists. */
  function FileRecords(file: CacheFile): seq<Record> {
    if file.connections.Some? then file.connections.value else []
  }

  /** `LoadCrumbCache`: nothing without an active map, a readable file and
      a matching signature; otherwise the accepted records, ready when
      there is at least one. */
  function LoadCache(active: bool, file: Option<CacheFile>, level: string, bspSize: nat,
                     areas: seq<Area>): (r: Loaded)
    ensures r.ready <==> r.cache != map[]
    ensures r.ready ==> active && file.Some? && Signed(file.value.header, level, bspSize, |areas|)
    ensures r.ready ==> r.cache.Keys <= AcceptedKeys(AreaIds(areas), FileRecords(file.value))
    ensures forall k | k in r.cache :: |r.cache[k]| > 0
  {
    if !active || file.None? || !Signed(file.value.header, level, bspSize, |areas|) then Loaded(map[], false)
    else
      var cache := LoadEntries(map[], AreaIds(areas), FileRecords(file.value));
      Loaded(cache, cache != map[])
  }

  /** The records of `cache` in the order `order` lists its keys. */
  function Records(cache: Cache, order: seq<nat>): (r: seq<Record>)
    requires forall i | 0 <= i < |order| :: order[i] in cache
    ensures |r| == |order|
    decreases |order|
  {
    if |order| == 0 then []
    else [Record(KeyFrom(order[0]), KeyTo(order[0]), cache[order[0]])] + Records(cache, order[1..])
  }

  /** `SaveCrumbCache`: nothing to write without an active map, entries or
      a path; otherwise the signature and one record per entry, in the
      map's iteration order `order`. */
  function SaveCache(active: bool, cache: Cache, order: seq<nat>, path: string, level: string,
                     bspSize: nat, areaCount: nat): (r: Option<CacheFile>)
    requires forall k :: k in cache <==> k in order
    ensures r.Some? <==> active && cache != map[] && path != ""
    ensures r.Some? ==> Signed(r.value.header, level, bspSize, areaCount)
  {
    if !active || cache == map[] || path == "" then None
    else Some(CacheFile(Header(CRUMB_CACHE_VERSION, level, bspSize, areaCount % U32),
                        Some(Records(cache, order))))
  }

  /** Every key is a 64-bit key of two known areas and every entry has
      crumbs. */
  predicate WellKeyed(cache: Cache, ids: set<nat>) {
    forall k | k in cache :: k < 0x1_0000_0000_0000_0000 && KeyFrom(k) in ids && KeyTo(k) in ids && |cache[k]| > 0
  }

  /** The record saved for a key of a well-keyed cache is accepted and
      keyed back under the same key. */
  lemma RecordOfKey(cache: Cache, ids: set<nat>, k: nat)
    requires WellKeyed(cache, ids) && k in cache
    ensures Accepted(Record(KeyFrom(k), KeyTo(k), cache[k]), ids)
    ensures KeyOf(Record(KeyFrom(k), KeyTo(k), cache[k])) == k
  {
    KeyRepack(k);
  }

  /** Loading the records of `order` stores the first key's entry, then
      loads the rest. */
  lemma LoadHead(acc: Cache, ids: set<nat>, cache: Cache, order: seq<nat>)
    requires forall i | 0 <= i < |order| :: order[i] in cache
    requires WellKeyed(cache, ids) && |order| > 0
    ensures LoadEntries(acc, ids, Records(cache, order))
         == LoadEntries(acc[order[0] := cache[order[0]]], ids, Records(cache, order[1..]))
  {
    var recs := Records(cache, order);
    RecordOfKey(cache, ids, order[0]);
    assert recs[1..] == Records(cache, order[1..]);
  }

  lemma {:induction false} LoadRecords(acc: Cache, ids: set<nat>, cache: Cache, order: seq<nat>)
    requires forall i | 0 <= i < |order| :: order[i] in cache
    requires WellKeyed(cache, ids)
    ensures var r := LoadEntries(acc, ids, Records(cache, order));
      && (forall x :: x in r <==> x in acc || x in order)
      && (forall x | x in r :: r[x] == if x in order then cache[x] else acc[x])
    decreases |order|
  {
    if |order| > 0 {
      var k := order[0];
      LoadHead(acc, ids, cache, order);
      LoadRecords(acc[k := cache[k]], ids, cache, order[1..]);
      LoadStep(acc, cache, order, LoadEntries(acc, ids, Records(cache, order)));
    }
  }

  /** What storing the first key's entry before the rest means for the keys
      and entries of the result. */
  lemma LoadStep(acc: Cache, cache: Cache, order: seq<nat>, r: Cache)
    requires |order| > 0 && forall i | 0 <= i < |order| :: order[i] in cache
    requires forall x :: x in r <==> x in acc[order[0] := cache[order[0]]] || x in order[1..]
    requires forall x | x in r ::
      r[x] == if x in order[1..] then cache[x] else acc[order[0] := cache[order[0]]][x]
    ensures forall x :: x in r <==> x in acc || x in order
    ensures forall x | x in r :: r[x] == if x in order then cache[x] else acc[x]
  {
    forall x ensures x in order <==> x == order[0] || x in order[1..] {
      assert x in order[1..] ==> x in order;
    }
  }

  /** Saving a cache whose keys name known areas and loading the file back
      on the same map gives the same cache, ready. */
  lemma SaveLoadRoundTrip(cache: Cache, order: seq<nat>, path: string, level: string,
                          bspSize: nat, areas: seq<Area>)
    requires forall k :: k in cache <==> k in order
    requires WellKeyed(cache, AreaIds(areas)) && cache != map[] && path != ""
    ensures LoadCache(true, SaveCache(true, cache, order, path, level, bspSize, |areas|),
                      level, bspSize, areas) == Loaded(cache, true)
  {
    var file := CacheFile(Header(CRUMB_CACHE_VERSION, level, bspSize, |areas| % U32),
                          Some(Records(cache, order)));
    assert SaveCache(true, cache, order, path, level, bspSize, |areas|) == Some(file);
    assert Signed(file.header, level, bspSize, |areas|);
    LoadSaved(cache, AreaIds(areas), order);
  }

  /** Loading every record of a well-keyed cache gives the cache back. */
  lemma LoadSaved(cache: Cache, ids: set<nat>, order: seq<nat>)
    requires forall k :: k in cache <==> k in order
    requires WellKeyed(cache, ids)
    ensures LoadEntries(map[], ids, Records(cache, order)) == cache
  {
    var r := LoadEntries(map[], ids, Records(cache, order));
    LoadRecords(map[], ids, cache, order);
    assert r.Keys == cache.Keys;
  }

  /** A file for another version, map, BSP or area count loads nothing. */
  lemma ForeignFileIgnored(active: bool, file: CacheFile, level: string, bspSize: nat, areas: seq<Area>)
    requires !Signed(file.header, level, bspSize, |areas|)
    ensures LoadCache(active, Some(file), level, bspSize, areas) == Loaded(map[], false)
  {
  }

  // ---------------------------------------------------------------------
  // Building and reading the cache (`BuildCrumbCache`, `FindConnectionCacheEntry`)

  /** A connection from one valid area to another. */
  predicate ValidLink(areas: seq<Area>, l: (nat, nat)) {
    l.0 < |areas| && l.1 < |areas| && LinksTo(areas[l.0].connections, l.1)
  }

  /** The connections of areas `i..` that point at a valid area, from
      connection `k` of area `i` on. */
  function ValidLinks(areas: seq<Area>, i: nat, k: nat): (r: seq<(nat, nat)>)
    requires i <= |areas|
    requires i < |areas| ==> k <= |areas[i].connections|
    ensures forall j | 0 <= j < |r| :: ValidLink(areas, r[j])
    decreases |areas| - i, if i < |areas| then |areas[i].connections| - k else 0
  {
    if i == |areas| then []
    else if k == |areas[i].connections| then ValidLinks(areas, i + 1, 0)
    else
      var l := areas[i].connections[k];
      var rest := ValidLinks(areas, i, k + 1);
      if l.area.Some? && l.area.value < |areas| then
        assert LinksTo(areas[i].connections, l.area.value) by {
          assert areas[i].connections[k].area == Some(l.area.value);
        }
        [(i, l.area.value)] + rest
      else rest
  }

  function LinkKey(areas: seq<Area>, l: (nat, nat)): nat
    requires l.0 < |areas| && l.1 < |areas|
  {
    MakeKey(areas[l.0].id, areas[l.1].id)
  }

  /** The keys of the connections. */
  function LinkKeys(areas: seq<Area>, links: seq<(nat, nat)>): set<nat>
    requires forall j | 0 <= j < |links| :: ValidLink(areas, links[j])
    decreases |links|
  {
    if |links| == 0 then {}
    else
      assert ValidLink(areas, links[0]);
      {LinkKey(areas, links[0])} + LinkKeys(areas, links[1..])
  }

  /** Stores `entry` of every connection under its key, a later
      connection replacing an earlier one of the same key. */
  function BuildEntries(acc: Cache, areas: seq<Area>, links: seq<(nat, nat)>,
                        entry: (nat, nat) -> seq<CachedCrumb>): (r: Cache)
    requires forall j | 0 <= j < |links| :: ValidLink(areas, links[j])
    ensures r.Keys == acc.Keys + LinkKeys(areas, links)
    ensures forall k | k in r && k !in LinkKeys(areas, links) :: r[k] == acc[k]
    decreases |links|
  {
    if |links| == 0 then acc
    else
      var l := links[0];
      assert ValidLink(areas, l);
      BuildEntries(acc[LinkKey(areas, l) := entry(l.0, l.1)], areas, links[1..], entry)
  }

  /** Each new entry of a built cache is the entry of a connection with its
      key: the `j`-th. */
  lemma {:induction false} EntryOrigin(acc: Cache, areas: seq<Area>, links: seq<(nat, nat)>,
                                       entry: (nat, nat) -> seq<CachedCrumb>, k: nat)
    returns (j: nat)
    requires forall i | 0 <= i < |links| :: ValidLink(areas, links[i])
    requires k in LinkKeys(areas, links)
    ensures j < |links| && LinkKey(areas, links[j]) == k
    ensures BuildEntries(acc, areas, links, entry)[k] == entry(links[j].0, links[j].1)
    decreases |links|
  {
    var l := links[0];
    assert ValidLink(areas, l);
    var next := acc[LinkKey(areas, l) := entry(l.0, l.1)];
    var r := BuildEntries(acc, areas, links, entry);
    assert r == BuildEntries(next, areas, links[1..], entry);
    if k in LinkKeys(areas, links[1..]) {
      var i := EntryOrigin(next, areas, links[1..], entry, k);
      assert links[1..][i] == links[i + 1];
      j := i + 1;
    } else {
      assert k == LinkKey(areas, l);
      assert r[k] == next[k];
      j := 0;
    }
  }

  /** The crumbs of the connection from area `a` to area `b`. */
  function EntryAt(areas: seq<Area>, sqrt: real -> real, ground: Vec3 -> Option<real>,
                   normalize: Vec3 -> Vec3, a: nat, b: nat): seq<CachedCrumb>
  {
    if a < |areas| && b < |areas| then ConnectionEntry(areas, Some(a), Some(b), sqrt, ground, normalize)
    else []
  }

  datatype Built = Built(cache: Cache, ready: bool, dirty: bool)

  /** `BuildCrumbCache`: one entry per connection between valid areas,
      keyed by the two ids; ready and dirty exactly when there is one. */
  function BuildCache(active: bool, areas: seq<Area>, sqrt: real -> real,
                      ground: Vec3 -> Option<real>, normalize: Vec3 -> Vec3): (r: Built)
    ensures r.ready <==> r.cache != map[]
    ensures r.dirty == r.ready
    ensures !active ==> r.cache == map[]
    ensures active ==> r.cache.Keys == LinkKeys(areas, ValidLinks(areas, 0, 0))
  {
    if !active then Built(map[], false, false)
    else
      var cache := BuildEntries(map[], areas, ValidLinks(areas, 0, 0),
                                (a: nat, b: nat) => EntryAt(areas, sqrt, ground, normalize, a, b));
      Built(cache, cache != map[], cache != map[])
  }

  /** Each entry built from the valid connections is `entry` of a valid
      connection, from area `a` to area `b`, whose key it is stored under. */
  lemma BuildOrigin(areas: seq<Area>, entry: (nat, nat) -> seq<CachedCrumb>, k: nat)
    returns (a: nat, b: nat)
    requires k in BuildEntries(map[], areas, ValidLinks(areas, 0, 0), entry)
    ensures a < |areas| && b < |areas| && LinksTo(areas[a].connections, b)
    ensures MakeKey(areas[a].id, areas[b].id) == k
    ensures BuildEntries(map[], areas, ValidLinks(areas, 0, 0), entry)[k] == entry(a, b)
  {
    var links := ValidLinks(areas, 0, 0);
    var j := EntryOrigin(map[], areas, links, entry, k);
    assert ValidLink(areas, links[j]);
    a, b := links[j].0, links[j].1;
  }

  /** Every entry of a built cache is the crumbs of a connection between
      two valid areas, under the key of their ids. */
  lemma BuiltEntries(areas: seq<Area>, sqrt: real -> real, ground: Vec3 -> Option<real>,
                     normalize: Vec3 -> Vec3, k: nat)
    requires k in BuildCache(true, areas, sqrt, ground, normalize).cache
    ensures exists a, b | 0 <= a < |areas| && 0 <= b < |areas| ::
      && LinksTo(areas[a].connections, b) && MakeKey(areas[a].id, areas[b].id) == k
      && BuildCache(true, areas, sqrt, ground, normalize).cache[k]
         == ConnectionEntry(areas, Some(a), Some(b), sqrt, ground, normalize)
  {
    var a, b := BuildOrigin(areas, (a: nat, b: nat) => EntryAt(areas, sqrt, ground, normalize, a, b), k);
  }

  /** A key built from the valid connections is the 64-bit key of two
      known areas, and its entry has crumbs when every connection's does,
      when area ids are 32-bit values. */
  lemma BuiltKey(areas: seq<Area>, entry: (nat, nat) -> seq<CachedCrumb>, k: nat)
    requires forall i | 0 <= i < |areas| :: areas[i].id < U32
    requires forall a: nat, b: nat | a < |areas| && b < |areas| :: |entry(a, b)| > 0
    requires k in BuildEntries(map[], areas, ValidLinks(areas, 0, 0), entry)
    ensures k < 0x1_0000_0000_0000_0000
    ensures KeyFrom(k) in AreaIds(areas) && KeyTo(k) in AreaIds(areas)
    ensures |BuildEntries(map[], areas, ValidLinks(areas, 0, 0), entry)[k]| > 0
  {
    var a, b := BuildOrigin(areas, entry, k);
    assert |entry(a, b)| > 0;
    KeyUnpack(areas[a].id, areas[b].id);
  }

  /** Every connection between two valid areas has crumbs. */
  lemma EntriesNonEmpty(areas: seq<Area>, sqrt: real -> real, ground: Vec3 -> Option<real>,
                        normalize: Vec3 -> Vec3)
    ensures forall a: nat, b: nat | a < |areas| && b < |areas| ::
      |EntryAt(areas, sqrt, ground, normalize, a, b)| > 0
  {
    forall a: nat, b: nat | a < |areas| && b < |areas|
      ensures |EntryAt(areas, sqrt, ground, normalize, a, b)| > 0
    {
      var e := ConnectionEntry(areas, Some(a), Some(b), sqrt, ground, normalize);
      assert |e| >= 3;
    }
  }

  /** A built cache can be saved and loaded back unchanged when area ids
      are 32-bit values. */
  lemma BuiltCacheWellKeyed(areas: seq<Area>, sqrt: real -> real, ground: Vec3 -> Option<real>,
                            normalize: Vec3 -> Vec3)
    requires forall i | 0 <= i < |areas| :: areas[i].id < U32
    ensures WellKeyed(BuildCache(true, areas, sqrt, ground, normalize).cache, AreaIds(areas))
  {
    var entry := (a: nat, b: nat) => EntryAt(areas, sqrt, ground, normalize, a, b);
    var c := BuildEntries(map[], areas, ValidLinks(areas, 0, 0), entry);
    assert c == BuildCache(true, areas, sqrt, ground, normalize).cache;
    EntriesNonEmpty(areas, sqrt, ground, normalize);
    forall k | k in c
      ensures k < 0x1_0000_0000_0000_0000 && KeyFrom(k) in AreaIds(areas) && KeyTo(k) in AreaIds(areas)
      ensures |c[k]| > 0
    {
      BuiltKey(areas, entry, k);
    }
  }

  /** `FindConnectionCacheEntry`: the entry of the connection, if any. */
  function FindEntry(cache: Cache, from: Option<Area>, to: Option<Area>): (r: Option<seq<CachedCrumb>>)
    ensures from.None? || to.None? ==> r.None?
    ensures r.Some? <==> from.Some? && to.Some? && MakeKey(from.value.id, to.value.id) in cache
    ensures r.Some? ==> r.value == cache[MakeKey(from.value.id, to.value.id)]
  {
    if from.None? || to.None? then None
    else
      var k := MakeKey(from.value.id, to.value.id);
      if k in cache then Some(cache[k]) else None
  }
}
