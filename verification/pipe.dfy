/** The message queue, the capture-point reservation table and the small
    pure helpers of the bot's named-pipe client. The pipe itself, the
    threads and the clock are not modelled: the current time and the
    random draw of the reconnect jitter are parameters. */
module NamedPipe {
  import opened Util
  import opened Nav

  // ---------------------------------------------------------------------
  // Reconnect back-off

  const BASE_RECONNECT_DELAY_MS: nat := 500
  const MAX_RECONNECT_DELAY_MS: nat := 10000
  const MAX_BACKOFF_SHIFT: nat := 10

  /** The delay before jitter: 500 ms doubled per failed attempt, with the
      shift capped at 10 and the result capped at 10 s. */
  function BaseDelay(attempts: nat): (r: nat)
    ensures BASE_RECONNECT_DELAY_MS <= r <= MAX_RECONNECT_DELAY_MS
  {
    var shift := if attempts < MAX_BACKOFF_SHIFT then attempts else MAX_BACKOFF_SHIFT;
    var d := BASE_RECONNECT_DELAY_MS * Pow2(shift);
    if d < MAX_RECONNECT_DELAY_MS then d else MAX_RECONNECT_DELAY_MS
  }

  /** More failed attempts never shorten the delay; from the fifth on it
      is the cap. */
  lemma BaseDelayGrowth(a: nat, b: nat)
    requires a <= b
    ensures BaseDelay(a) <= BaseDelay(b)
    ensures b >= 5 ==> BaseDelay(b) == MAX_RECONNECT_DELAY_MS
  {
    var sa := if a < MAX_BACKOFF_SHIFT then a else MAX_BACKOFF_SHIFT;
    var sb := if b < MAX_BACKOFF_SHIFT then b else MAX_BACKOFF_SHIFT;
    Pow2Mono(sa, sb);
    if b >= 5 {
      Pow2Mono(5, sb);
      assert Pow2(5) == 32;
    }
  }

  /** The jitter for a uniform draw `u` in [0, 1] (rand()/RAND_MAX). */
  function Jitter(delay: nat, u: real): (j: int)
    requires 0.0 <= u <= 1.0
    ensures -(delay as real) / 10.0 <= j as real <= (delay as real) / 10.0
  {
    var x := delay as real * 0.2 * (u - 0.5);
    assert -(delay as real) / 10.0 <= x <= (delay as real) / 10.0 by {
      MulRange(delay as real, u - 0.5);
    }
    Trunc(x)
  }

  lemma MulRange(d: real, v: real)
    requires d >= 0.0 && -0.5 <= v <= 0.5
    ensures -d / 10.0 <= d * 0.2 * v <= d / 10.0
  {
    if v >= 0.0 {
      MulNonNeg(d, 0.5 - v);
      assert d * 0.2 * v == d / 10.0 - 0.2 * (d * (0.5 - v));
      MulNonNeg(d, v);
    } else {
      MulNonNeg(d, 0.5 + v);
      assert d * 0.2 * v == 0.2 * (d * (0.5 + v)) - d / 10.0;
      MulNonNeg(d, -v);
    }
  }

  /** The delay actually waited, within 10% of the base delay. */
  function ReconnectDelay(attempts: nat, u: real): (r: int)
    requires 0.0 <= u <= 1.0
    ensures 9 * BaseDelay(attempts) <= 10 * r <= 11 * BaseDelay(attempts)
  {
    BaseDelay(attempts) + Jitter(BaseDelay(attempts), u)
  }

  // ---------------------------------------------------------------------
  // Outgoing message queue

  const QUEUE_SOFT_LIMIT: nat := 100

  datatype Message = Message(kind: string, content: string, isPriority: bool)

  /** The oldest non-priority message, if any. */
  function FirstNonPriority(q: seq<Message>): (r: Option<nat>)
    ensures r.Some? ==> r.value < |q| && !q[r.value].isPriority
    ensures r.Some? ==> forall i | 0 <= i < r.value :: q[i].isPriority
    ensures r.None? ==> forall i | 0 <= i < |q| :: q[i].isPriority
  {
    if |q| == 0 then None
    else if !q[0].isPriority then Some(0)
    else
      var r := FirstNonPriority(q[1..]);
      if r.Some? then Some(r.value + 1) else None
  }

  /** Priority messages are always appended; others only below the limit,
      and at the limit a non-priority message takes the place of the oldest
      non-priority one, or is dropped when every queued message has
      priority. */
  function QueueMessage(q: seq<Message>, m: Message): (r: seq<Message>)
    ensures m.isPriority ==> r == q + [m]
    ensures |q| < QUEUE_SOFT_LIMIT ==> r == q + [m]
  {
    if m.isPriority || |q| < QUEUE_SOFT_LIMIT then q + [m]
    else
      var i := FirstNonPriority(q);
      if i.Some? then q[..i.value] + q[i.value + 1..] + [m] else q
  }

  /** The messages of one class, in queue order. */
  function OfClass(q: seq<Message>, priority: bool): (r: seq<Message>)
    ensures |r| <= |q|
    ensures forall i | 0 <= i < |r| :: r[i].isPriority == priority
  {
    if |q| == 0 then []
    else if q[0].isPriority == priority then [q[0]] + OfClass(q[1..], priority)
    else OfClass(q[1..], priority)
  }

  lemma {:induction false} OfClassAppend(a: seq<Message>, b: seq<Message>, priority: bool)
    ensures OfClass(a + b, priority) == OfClass(a, priority) + OfClass(b, priority)
    decreases |a|
  {
    if |a| == 0 {
      assert a + b == b;
    } else {
      assert (a + b)[1..] == a[1..] + b;
      OfClassAppend(a[1..], b, priority);
    }
  }

  /** A prefix of priority messages contributes nothing to the other class. */
  lemma {:induction false} OfClassAllPriority(a: seq<Message>)
    requires forall i | 0 <= i < |a| :: a[i].isPriority
    ensures OfClass(a, false) == []
    ensures OfClass(a, true) == a
    decreases |a|
  {
    if |a| > 0 {
      OfClassAllPriority(a[1..]);
      assert a == [a[0]] + a[1..];
    }
  }

  /** Queueing never loses, reorders or duplicates a priority message;
      the new message joins its class at the end unless it is dropped. */
  lemma QueueKeepsPriority(q: seq<Message>, m: Message)
    ensures OfClass(QueueMessage(q, m), true)
         == OfClass(q, true) + (if m.isPriority then [m] else [])
  {
    var r := QueueMessage(q, m);
    if m.isPriority || |q| < QUEUE_SOFT_LIMIT {
      OfClassAppend(q, [m], true);
    } else {
      var i := FirstNonPriority(q);
      if i.Some? {
        var k := i.value;
        assert q == q[..k] + [q[k]] + q[k + 1..];
        OfClassAppend(q[..k] + [q[k]], q[k + 1..], true);
        OfClassAppend(q[..k], [q[k]], true);
        OfClassAppend(q[..k] + q[k + 1..], [m], true);
        OfClassAppend(q[..k], q[k + 1..], true);
      }
    }
  }

  /** Removing the first non-priority message `x` (after priority-only
      `front`) and appending the non-priority `m` shifts that class by one. */
  lemma EvictShift(front: seq<Message>, x: Message, back: seq<Message>, m: Message)
    requires forall i | 0 <= i < |front| :: front[i].isPriority
    requires !x.isPriority && !m.isPriority
    ensures OfClass(front + [x] + back, false) == [x] + OfClass(back, false)
    ensures OfClass(front + back + [m], false) == OfClass(back, false) + [m]
  {
    OfClassAllPriority(front);
    assert OfClass([x], false) == [x];
    assert OfClass([m], false) == [m];
    OfClassAppend(front + [x], back, false);
    OfClassAppend(front, [x], false);
    OfClassAppend(front + back, [m], false);
    OfClassAppend(front, back, false);
  }

  /** At the limit, the non-priority class loses its oldest member and
      gains the new message; with none to evict, the queue is unchanged. */
  lemma QueueEvictsOldest(q: seq<Message>, m: Message)
    requires !m.isPriority && |q| >= QUEUE_SOFT_LIMIT
    ensures var others := OfClass(q, false);
      if |others| > 0 then OfClass(QueueMessage(q, m), false) == others[1..] + [m]
      else QueueMessage(q, m) == q
  {
    var i := FirstNonPriority(q);
    if i.Some? {
      var k := i.value;
      var front, x, back := q[..k], q[k], q[k + 1..];
      assert front + [x] + back == q;
      assert QueueMessage(q, m) == front + back + [m];
      EvictShift(front, x, back, m);
    } else {
      OfClassAllPriority(q);
    }
  }

  /** Non-priority traffic never grows the queue past the limit, nor past
      its current length once it is there. */
  lemma QueueBound(q: seq<Message>, m: Message)
    requires !m.isPriority
    ensures |QueueMessage(q, m)| <= if |q| < QUEUE_SOFT_LIMIT then QUEUE_SOFT_LIMIT else |q|
  {
  }

  // ---------------------------------------------------------------------
  // Capture-point reservations

  datatype Reservation = Reservation(
    mapName: string, point: int, spot: Vec3, owner: nat, botId: int, expiresAt: real)

  predicate SameKey(r: Reservation, mapName: string, point: int, owner: nat) {
    r.mapName == mapName && r.point == point && r.owner == owner
  }

  /** The first reservation with the key. */
  function FindClaim(rs: seq<Reservation>, mapName: string, point: int, owner: nat): (r: Option<nat>)
    ensures r.Some? ==> r.value < |rs| && SameKey(rs[r.value], mapName, point, owner)
    ensures r.Some? ==> forall i | 0 <= i < r.value :: !SameKey(rs[i], mapName, point, owner)
    ensures r.None? ==> forall i | 0 <= i < |rs| :: !SameKey(rs[i], mapName, point, owner)
  {
    if |rs| == 0 then None
    else if SameKey(rs[0], mapName, point, owner) then Some(0)
    else
      var r := FindClaim(rs[1..], mapName, point, owner);
      if r.Some? then Some(r.value + 1) else None
  }

  /** Upsert: refresh the first reservation with the key in place, or
      append a new one. */
  function Claim(rs: seq<Reservation>, mapName: string, point: int, spot: Vec3,
                 owner: nat, botId: int, expiresAt: real): (r: seq<Reservation>)
    ensures |r| == |rs| || r == rs + [Reservation(mapName, point, spot, owner, botId, expiresAt)]
  {
    var i := FindClaim(rs, mapName, point, owner);
    if i.Some? then rs[i.value := Reservation(mapName, point, spot, owner, botId, expiresAt)]
    else rs + [Reservation(mapName, point, spot, owner, botId, expiresAt)]
  }

  /** At most one reservation per (map, point, owner). */
  predicate UniqueKeys(rs: seq<Reservation>) {
    forall i, j | 0 <= i < j < |rs| ::
      !SameKey(rs[j], rs[i].mapName, rs[i].point, rs[i].owner)
  }

  /** After a claim the table holds the claimed reservation, every other
      reservation is untouched, and the keys stay unique. */
  lemma ClaimCorrect(rs: seq<Reservation>, mapName: string, point: int, spot: Vec3,
                     owner: nat, botId: int, expiresAt: real)
    requires UniqueKeys(rs)
    ensures var r := Claim(rs, mapName, point, spot, owner, botId, expiresAt);
      && UniqueKeys(r)
      && Reservation(mapName, point, spot, owner, botId, expiresAt) in r
      && (forall x | x in rs && !SameKey(x, mapName, point, owner) :: x in r)
      && (forall x | x in r && !SameKey(x, mapName, point, owner) :: x in rs)
      && (forall x | x in r && SameKey(x, mapName, point, owner) ::
            x == Reservation(mapName, point, spot, owner, botId, expiresAt))
  {
    var r := Claim(rs, mapName, point, spot, owner, botId, expiresAt);
    var n := Reservation(mapName, point, spot, owner, botId, expiresAt);
    var i := FindClaim(rs, mapName, point, owner);
    if i.Some? {
      var k := i.value;
      assert r[k] == n;
      assert forall j | 0 <= j < |r| && j != k :: r[j] == rs[j];
      assert forall j | 0 <= j < |r| :: SameKey(r[j], rs[j].mapName, rs[j].point, rs[j].owner);
      forall x | x in rs && !SameKey(x, mapName, point, owner) ensures x in r {
        var j :| 0 <= j < |rs| && rs[j] == x;
        assert r[j] == x;
      }
    } else {
      assert r[|rs|] == n;
      assert forall j | 0 <= j < |rs| :: r[j] == rs[j];
    }
  }

  /** Keeps the reservations the test accepts, in order (`remove_if` with
      the negated test). */
  function Keep(rs: seq<Reservation>, keep: Reservation -> bool): (r: seq<Reservation>)
    ensures |r| <= |rs|
    ensures forall x :: x in r <==> x in rs && keep(x)
  {
    if |rs| == 0 then []
    else
      var tail := Keep(rs[1..], keep);
      assert forall x :: x in rs <==> x == rs[0] || x in rs[1..];
      if keep(rs[0]) then [rs[0]] + tail else tail
  }

  /** Drops exactly the reservations with the key. */
  function Release(rs: seq<Reservation>, mapName: string, point: int, owner: nat): (r: seq<Reservation>)
    ensures forall x :: x in r <==> x in rs && !SameKey(x, mapName, point, owner)
  {
    Keep(rs, (x: Reservation) => !SameKey(x, mapName, point, owner))
  }

  /** Drops exactly the reservations that expired before `now`. */
  function Purge(rs: seq<Reservation>, now: real): (r: seq<Reservation>)
    ensures forall x :: x in r <==> x in rs && x.expiresAt >= now
  {
    Keep(rs, (x: Reservation) => x.expiresAt >= now)
  }

  predicate Reported(x: Reservation, mapName: string, point: int, ignoreOwner: nat) {
    x.mapName == mapName && x.point == point && !(ignoreOwner != 0 && x.owner == ignoreOwner)
  }

  /** The spots of the reported reservations: one per reservation, in
      the order of the table (see `SpotsAppend`). */
  function Spots(rs: seq<Reservation>, mapName: string, point: int, ignoreOwner: nat): (r: seq<Vec3>)
    ensures forall s :: s in r <==> exists x | x in rs :: Reported(x, mapName, point, ignoreOwner) && x.spot == s
    ensures |r| <= |rs|
    ensures |rs| == 1 ==> r == (if Reported(rs[0], mapName, point, ignoreOwner) then [rs[0].spot] else [])
  {
    if |rs| == 0 then []
    else
      var tail := Spots(rs[1..], mapName, point, ignoreOwner);
      assert forall x :: x in rs <==> x == rs[0] || x in rs[1..];
      if Reported(rs[0], mapName, point, ignoreOwner) then [rs[0].spot] + tail else tail
  }

  /** The spots of a table split in two are those of the first part
      followed by those of the second: with the single-reservation case,
      this pins down one spot per reported reservation, in table order. */
  lemma {:induction false} SpotsAppend(a: seq<Reservation>, b: seq<Reservation>, mapName: string, point: int,
                                       ignoreOwner: nat)
    ensures Spots(a + b, mapName, point, ignoreOwner) == Spots(a, mapName, point, ignoreOwner) + Spots(b, mapName, point, ignoreOwner)
    decreases |a|
  {
    if |a| > 0 {
      assert (a + b)[1..] == a[1..] + b;
      assert (a + b)[0] == a[0];
      SpotsAppend(a[1..], b, mapName, point, ignoreOwner);
    } else {
      assert a + b == b;
    }
  }

  /** The spots reserved at a point by unexpired reservations, leaving out
      the ignored owner when that owner is not 0. The purge is part of the
      query, so the table returned is the purged one. */
  function ReservedSpots(rs: seq<Reservation>, mapName: string, point: int, ignoreOwner: nat, now: real): (r: (seq<Vec3>, seq<Reservation>))
    ensures forall x :: x in r.1 <==> x in rs && x.expiresAt >= now
    ensures forall s :: s in r.0 <==> exists x | x in rs ::
              x.expiresAt >= now && Reported(x, mapName, point, ignoreOwner) && x.spot == s
  {
    var live := Purge(rs, now);
    (Spots(live, mapName, point, ignoreOwner), live)
  }

  /** An owner of 0 never hides anything: every live reservation at the
      point is reported. */
  lemma IgnoreZeroReportsAll(rs: seq<Reservation>, mapName: string, point: int, now: real, x: Reservation)
    requires x in rs && x.expiresAt >= now && x.mapName == mapName && x.point == point
    ensures x.spot in ReservedSpots(rs, mapName, point, 0, now).0
  {
  }

  /** How numbers are written into an announcement, given as parameters:
      an integer in decimal, and a float in fixed notation with two
      decimals (`std::fixed`, `std::setprecision(2)`). */
  datatype Formats = Formats(ofInt: int -> string, ofReal: real -> string)

  /** The message type of capture-spot announcements. */
  const CAPTURE_KIND: string := "CPCapture"

  /** The fields of a claim announcement, in the order the receiver reads
      them: command, map, point, the spot's three coordinates, owner,
      duration and bot id. */
  function ClaimFields(mapName: string, point: int, spot: Vec3, self: nat, duration: real,
                       botId: int, f: Formats): (r: seq<string>)
    ensures |r| == CLAIM_TOKENS && r[0] == "Claim" && r[1] == mapName
  {
    ["Claim", mapName, f.ofInt(point), f.ofReal(spot.x), f.ofReal(spot.y), f.ofReal(spot.z),
     f.ofInt(self), f.ofReal(duration), f.ofInt(botId)]
  }

  /** The fields of a release announcement: command, map, point, owner. */
  function ReleaseFields(mapName: string, point: int, self: nat, f: Formats): (r: seq<string>)
    ensures |r| == RELEASE_TOKENS && r[0] == "Release" && r[1] == mapName
  {
    ["Release", mapName, f.ofInt(point), f.ofInt(self)]
  }

  /** The local bot's own claim: ignored for an empty map name or a
      negative point index; otherwise the claim is upserted into the table
      and announced to the other bots as a priority message, which the
      queue takes whatever its length. */
  function AnnounceClaim(rs: seq<Reservation>, q: seq<Message>, mapName: string, point: int, spot: Vec3,
                         self: nat, botId: int, now: real, duration: real, f: Formats): (r: (seq<Reservation>, seq<Message>))
    ensures mapName == [] || point < 0 ==> r == (rs, q)
    ensures mapName != [] && point >= 0 ==>
      && r.0 == Claim(rs, mapName, point, spot, self, botId, now + duration)
      && |r.1| == |q| + 1 && r.1[..|q|] == q
      && r.1[|q|] == Message(CAPTURE_KIND, Join(ClaimFields(mapName, point, spot, self, duration, botId, f)), true)
  {
    if mapName == [] || point < 0 then (rs, q)
    else
      var text := Join(ClaimFields(mapName, point, spot, self, duration, botId, f));
      (Claim(rs, mapName, point, spot, self, botId, now + duration),
       QueueMessage(q, Message(CAPTURE_KIND, text, true)))
  }

  /** The local bot's own release, with the same guard: the own
      reservations with the key are removed and the release is announced
      as a priority message. */
  function AnnounceRelease(rs: seq<Reservation>, q: seq<Message>, mapName: string, point: int,
                           self: nat, f: Formats): (r: (seq<Reservation>, seq<Message>))
    ensures mapName == [] || point < 0 ==> r == (rs, q)
    ensures mapName != [] && point >= 0 ==>
      && (forall x :: x in r.0 <==> x in rs && !SameKey(x, mapName, point, self))
      && |r.1| == |q| + 1 && r.1[..|q|] == q
      && r.1[|q|] == Message(CAPTURE_KIND, Join(ReleaseFields(mapName, point, self, f)), true)
  {
    if mapName == [] || point < 0 then (rs, q)
    else
      (Release(rs, mapName, point, self),
       QueueMessage(q, Message(CAPTURE_KIND, Join(ReleaseFields(mapName, point, self, f)), true)))
  }

  // ---------------------------------------------------------------------
  // Incoming reservation messages

  const SEPARATOR: char := '|'

  /** Index of the first separator, if any. */
  function FindSeparator(s: string): (r: Option<nat>)
    ensures r.Some? ==> r.value < |s| && s[r.value] == SEPARATOR
                        && forall i | 0 <= i < r.value :: s[i] != SEPARATOR
    ensures r.None? ==> forall i | 0 <= i < |s| :: s[i] != SEPARATOR
  {
    if |s| == 0 then None
    else if s[0] == SEPARATOR then Some(0)
    else
      var r := FindSeparator(s[1..]);
      if r.Some? then Some(r.value + 1) else None
  }

  /** The tokens `std::getline(ss, token, '|')` yields in turn: an empty
      text gives none, and a trailing separator gives no empty last token. */
  function Tokens(s: string): (r: seq<string>)
    decreases |s|
  {
    if |s| == 0 then []
    else
      var i := FindSeparator(s);
      if i.None? then [s] else [s[..i.value]] + Tokens(s[i.value + 1..])
  }

  /** No token holds a separator. */
  lemma {:induction false} TokensHaveNoSeparator(s: string)
    ensures forall k, i | 0 <= k < |Tokens(s)| && 0 <= i < |Tokens(s)[k]| :: Tokens(s)[k][i] != SEPARATOR
    decreases |s|
  {
    if |s| > 0 {
      var i := FindSeparator(s);
      if i.Some? {
        TokensHaveNoSeparator(s[i.value + 1..]);
      }
    }
  }

  /** The number of separators in a text. */
  function Separators(s: string): nat {
    if |s| == 0 then 0 else (if s[0] == SEPARATOR then 1 else 0) + Separators(s[1..])
  }

  lemma {:induction false} SeparatorsAppend(a: string, b: string)
    ensures Separators(a + b) == Separators(a) + Separators(b)
    decreases |a|
  {
    if |a| == 0 {
      assert a + b == b;
    } else {
      assert (a + b)[1..] == a[1..] + b;
      SeparatorsAppend(a[1..], b);
    }
  }

  lemma {:induction false} NoSeparators(s: string)
    requires forall i | 0 <= i < |s| :: s[i] != SEPARATOR
    ensures Separators(s) == 0
    decreases |s|
  {
    if |s| > 0 {
      NoSeparators(s[1..]);
    }
  }

  /** Joins tokens with the separator between them. */
  function Join(ts: seq<string>): string {
    if |ts| == 0 then []
    else if |ts| == 1 then ts[0]
    else ts[0] + [SEPARATOR] + Join(ts[1..])
  }

  /** One token per separator, plus one for a text that does not end in a
      separator. */
  lemma {:induction false} TokensCount(s: string)
    ensures |Tokens(s)| == Separators(s) + (if |s| == 0 || s[|s| - 1] == SEPARATOR then 0 else 1)
    decreases |s|
  {
    if |s| > 0 {
      var i := FindSeparator(s);
      if i.None? {
        NoSeparators(s);
      } else {
        var k := i.value;
        var rest := s[k + 1..];
        TokensCount(rest);
        assert s == s[..k] + [SEPARATOR] + rest;
        SeparatorsAppend(s[..k] + [SEPARATOR], rest);
        SeparatorsAppend(s[..k], [SEPARATOR]);
        NoSeparators(s[..k]);
        assert Separators([SEPARATOR]) == 1;
        if |rest| > 0 {
          assert s[|s| - 1] == rest[|rest| - 1];
        }
      }
    }
  }

  lemma JoinCons(t: string, ts: seq<string>)
    requires |ts| > 0
    ensures Join([t] + ts) == t + [SEPARATOR] + Join(ts)
  {
    assert ([t] + ts)[1..] == ts;
  }

  /** Tokens after the first separator are the tokens of the rest. */
  lemma TokensStep(s: string, k: nat)
    requires |s| > 0 && FindSeparator(s) == Some(k)
    ensures Tokens(s) == [s[..k]] + Tokens(s[k + 1..])
  {
  }

  /** Whether the text ends in a separator, which `getline` swallows. */
  function Trailer(s: string): (r: string)
    ensures r == [] || r == [SEPARATOR]
  {
    if |s| > 0 && s[|s| - 1] == SEPARATOR then [SEPARATOR] else []
  }

  lemma TrailerOfSuffix(s: string, k: nat)
    requires k < |s| - 1
    ensures Trailer(s) == Trailer(s[k + 1..])
  {
    assert s[|s| - 1] == s[k + 1..][|s| - k - 2];
  }

  /** The join of a text cut at its first separator. */
  lemma JoinTokensStep(s: string, k: nat)
    requires k < |s| - 1 && FindSeparator(s) == Some(k)
    ensures Join(Tokens(s)) == s[..k] + [SEPARATOR] + Join(Tokens(s[k + 1..]))
  {
    TokensStep(s, k);
    TokensCount(s[k + 1..]);
    JoinCons(s[..k], Tokens(s[k + 1..]));
  }

  lemma ConcatStep(s: string, k: nat, j: string, t: string)
    requires k < |s| && s[k] == SEPARATOR && j + t == s[k + 1..]
    ensures s[..k] + [SEPARATOR] + j + t == s
  {
    assert s == s[..k] + [SEPARATOR] + s[k + 1..];
  }

  /** Joining the tokens gives the text back, less a trailing separator. */
  lemma {:induction false} TokensJoin(s: string)
    ensures Join(Tokens(s)) + Trailer(s) == s
    decreases |s|
  {
    if |s| > 0 {
      var i := FindSeparator(s);
      if i.None? {
        assert Tokens(s) == [s];
      } else {
        var k := i.value;
        TokensStep(s, k);
        if k + 1 < |s| {
          var rest := s[k + 1..];
          TokensJoin(rest);
          TrailerOfSuffix(s, k);
          JoinTokensStep(s, k);
          ConcatStep(s, k, Join(Tokens(rest)), Trailer(rest));
        } else {
          assert Tokens(s) == [s[..k]];
          assert s == s[..k] + [SEPARATOR];
        }
      }
    }
  }

  /** Number parsers (`std::stoi`, `std::stof`, `std::stoull`), given as
      parameters; their exceptions on malformed text are not modelled. */
  datatype Parsers = Parsers(toInt: string -> int, toReal: string -> real, toU64: string -> nat)

  const CLAIM_TOKENS: nat := 9
  const RELEASE_TOKENS: nat := 4

  /** Applies a reservation message from another bot. Claims need nine
      tokens and releases four; anything shorter, empty or with another
      command is ignored. The owner is cast to 32 bits; the expiry is the
      current time plus the announced duration. */
  function ProcessReservationMessage(rs: seq<Reservation>, content: string, now: real, p: Parsers): (r: seq<Reservation>)
  {
    if |content| == 0 then rs
    else
      var ts := Tokens(content);
      if |ts| == 0 then rs
      else if ts[0] == "Claim" then
        if |ts| < CLAIM_TOKENS then rs
        else
          Claim(rs, ts[1], p.toInt(ts[2]), Vec3(p.toReal(ts[3]), p.toReal(ts[4]), p.toReal(ts[5])),
                p.toU64(ts[6]) % 0x1_0000_0000, p.toInt(ts[8]), now + p.toReal(ts[7]))
      else if ts[0] == "Release" then
        if |ts| < RELEASE_TOKENS then rs
        else Release(rs, ts[1], p.toInt(ts[2]), p.toU64(ts[3]) % 0x1_0000_0000)
      else rs
  }

  /** A message changes the table only if it is a claim with at least nine
      tokens or a release with at least four. */
  lemma ShortMessagesIgnored(rs: seq<Reservation>, content: string, now: real, p: Parsers)
    requires var ts := Tokens(content);
      || |ts| == 0
      || (ts[0] != "Claim" && ts[0] != "Release")
      || (ts[0] == "Claim" && |ts| < CLAIM_TOKENS)
      || (ts[0] == "Release" && |ts| < RELEASE_TOKENS)
    ensures ProcessReservationMessage(rs, content, now, p) == rs
  {
  }

  /** A well-formed claim upserts exactly one reservation whose owner fits
      in 32 bits, keeping the keys unique. */
  lemma ClaimMessageUpserts(rs: seq<Reservation>, content: string, now: real, p: Parsers)
    requires UniqueKeys(rs)
    requires var ts := Tokens(content); |ts| >= CLAIM_TOKENS && ts[0] == "Claim"
    ensures var ts := Tokens(content);
      var r := ProcessReservationMessage(rs, content, now, p);
      && UniqueKeys(r)
      && exists x | x in r :: x.mapName == ts[1] && x.owner < 0x1_0000_0000
           && x.expiresAt == now + p.toReal(ts[7])
  {
    var ts := Tokens(content);
    var owner := p.toU64(ts[6]) % 0x1_0000_0000;
    var x := Reservation(ts[1], p.toInt(ts[2]), Vec3(p.toReal(ts[3]), p.toReal(ts[4]), p.toReal(ts[5])),
                         owner, p.toInt(ts[8]), now + p.toReal(ts[7]));
    assert ProcessReservationMessage(rs, content, now, p)
        == Claim(rs, x.mapName, x.point, x.spot, x.owner, x.botId, x.expiresAt);
    ClaimCorrect(rs, x.mapName, x.point, x.spot, x.owner, x.botId, x.expiresAt);
  }

  /** Tokens that hold no separator, the last of them not empty, are
      split back out of their join. */
  lemma {:induction false} TokensOfJoin(ts: seq<string>)
    requires |ts| > 0 && |ts[|ts| - 1]| > 0
    requires forall k, i | 0 <= k < |ts| && 0 <= i < |ts[k]| :: ts[k][i] != SEPARATOR
    ensures Tokens(Join(ts)) == ts
    decreases |ts|
  {
    var s := Join(ts);
    if |ts| == 1 {
      assert s == ts[0];
    } else {
      var t, rest := ts[0], Join(ts[1..]);
      assert s == t + [SEPARATOR] + rest;
      assert forall i | 0 <= i < |t| :: t[i] != SEPARATOR by {
        forall i | 0 <= i < |t| ensures t[i] != SEPARATOR {
          assert ts[0][i] != SEPARATOR;
        }
      }
      var tail := ts[1..];
      assert tail[|tail| - 1] == ts[|ts| - 1];
      forall k, i | 0 <= k < |tail| && 0 <= i < |tail[k]| ensures tail[k][i] != SEPARATOR {
        assert tail[k] == ts[k + 1];
      }
      TokensOfJoin(tail);
      SplitAtHead(t, rest);
      TokensStep(s, |t|);
      assert Tokens(s) == [t] + tail;
      assert [t] + tail == ts;
    }
  }

  /** The first separator of a token, a separator and a rest is the one
      after the token. */
  lemma SplitAtHead(t: string, rest: string)
    requires forall i | 0 <= i < |t| :: t[i] != SEPARATOR
    ensures var s := t + [SEPARATOR] + rest;
      FindSeparator(s) == Some(|t|) && s[..|t|] == t && s[|t| + 1..] == rest
  {
    var s := t + [SEPARATOR] + rest;
    assert s[|t|] == SEPARATOR;
    assert forall i | 0 <= i < |t| :: s[i] == t[i];
    assert s[..|t|] == t && s[|t| + 1..] == rest;
  }

  /** Fields free of separators, the last of them not empty. */
  predicate Separable(fields: seq<string>) {
    && |fields| > 0 && |fields[|fields| - 1]| > 0
    && forall k, i | 0 <= k < |fields| && 0 <= i < |fields[k]| :: fields[k][i] != SEPARATOR
  }

  /** Another bot that hears a claim announcement (fields free of
      separators, numbers read back as written) upserts the same
      reservation the announcing bot holds, for the spot and duration as
      written to two decimals, expiring from its own clock. */
  lemma AnnouncedClaimHeard(rs: seq<Reservation>, mapName: string, point: int, spot: Vec3, self: nat,
                            botId: int, duration: real, f: Formats, p: Parsers, now: real)
    requires self < 0x1_0000_0000
    requires Separable(ClaimFields(mapName, point, spot, self, duration, botId, f))
    requires p.toInt(f.ofInt(point)) == point && p.toInt(f.ofInt(botId)) == botId
    requires p.toU64(f.ofInt(self)) == self
    ensures var text := Join(ClaimFields(mapName, point, spot, self, duration, botId, f));
      var written := Vec3(p.toReal(f.ofReal(spot.x)), p.toReal(f.ofReal(spot.y)), p.toReal(f.ofReal(spot.z)));
      ProcessReservationMessage(rs, text, now, p)
        == Claim(rs, mapName, point, written, self, botId, now + p.toReal(f.ofReal(duration)))
  {
    var fields := ClaimFields(mapName, point, spot, self, duration, botId, f);
    var text := Join(fields);
    TokensOfJoin(fields);
    ClaimHeard(rs, text, now, p);
    var ts := Tokens(text);
    assert ts[1] == mapName && p.toInt(ts[2]) == point && p.toInt(ts[8]) == botId;
    assert p.toU64(ts[6]) % 0x1_0000_0000 == self;
    assert Vec3(p.toReal(ts[3]), p.toReal(ts[4]), p.toReal(ts[5]))
        == Vec3(p.toReal(f.ofReal(spot.x)), p.toReal(f.ofReal(spot.y)), p.toReal(f.ofReal(spot.z)));
    assert ts[7] == f.ofReal(duration);
  }

  /** A claim's tokens, parsed. */
  lemma ClaimHeard(rs: seq<Reservation>, content: string, now: real, p: Parsers)
    requires var ts := Tokens(content); |ts| >= CLAIM_TOKENS && ts[0] == "Claim"
    ensures var ts := Tokens(content);
      ProcessReservationMessage(rs, content, now, p)
        == Claim(rs, ts[1], p.toInt(ts[2]), Vec3(p.toReal(ts[3]), p.toReal(ts[4]), p.toReal(ts[5])),
                 p.toU64(ts[6]) % 0x1_0000_0000, p.toInt(ts[8]), now + p.toReal(ts[7]))
  {
  }

  /** A release's tokens, parsed. */
  lemma ReleaseHeard(rs: seq<Reservation>, content: string, now: real, p: Parsers)
    requires var ts := Tokens(content); |ts| >= RELEASE_TOKENS && ts[0] == "Release"
    ensures var ts := Tokens(content);
      ProcessReservationMessage(rs, content, now, p)
        == Release(rs, ts[1], p.toInt(ts[2]), p.toU64(ts[3]) % 0x1_0000_0000)
  {
  }

  /** Another bot that hears a release announcement removes exactly the
      reservations the announcing bot removed from its own table. */
  lemma AnnouncedReleaseHeard(rs: seq<Reservation>, mapName: string, point: int, self: nat,
                              f: Formats, p: Parsers, now: real)
    requires self < 0x1_0000_0000
    requires Separable(ReleaseFields(mapName, point, self, f))
    requires p.toInt(f.ofInt(point)) == point && p.toU64(f.ofInt(self)) == self
    ensures ProcessReservationMessage(rs, Join(ReleaseFields(mapName, point, self, f)), now, p)
            == Release(rs, mapName, point, self)
  {
    var fields := ReleaseFields(mapName, point, self, f);
    TokensOfJoin(fields);
    ReleaseHeard(rs, Join(fields), now, p);
  }

  // ---------------------------------------------------------------------
  // Class names

  /** The TF2 class index (1..9) to its name; anything else is "N/A". */
  function ClassName(c: int): (r: string)
    ensures (1 <= c <= 9) <==> r != "N/A"
  {
    match c
    case 1 => "Scout"
    case 2 => "Sniper"
    case 3 => "Soldier"
    case 4 => "Demoman"
    case 5 => "Medic"
    case 6 => "Heavy"
    case 7 => "Pyro"
    case 8 => "Spy"
    case 9 => "Engineer"
    case _ => "N/A"
  }

  /** The reverse lookup, 0 for an unknown name. */
  function ClassIndex(name: string): (c: int)
    ensures 0 <= c <= 9
  {
    if name == "Scout" then 1
    else if name == "Sniper" then 2
    else if name == "Soldier" then 3
    else if name == "Demoman" then 4
    else if name == "Medic" then 5
    else if name == "Heavy" then 6
    else if name == "Pyro" then 7
    else if name == "Spy" then 8
    else if name == "Engineer" then 9
    else 0
  }

  /** Every class has its own name: the lookup is inverted by the reverse
      lookup, so two classes never share a name. */
  lemma ClassNameInverse(c: int)
    ensures 1 <= c <= 9 ==> ClassIndex(ClassName(c)) == c
    ensures !(1 <= c <= 9) ==> ClassIndex(ClassName(c)) == 0
  {
  }
}
