/** Lists in the `.nav` format: items one after the other, optionally
    preceded by their count, read and written by per-item functions. */
module WireLists {
  import opened Util
  import opened Bytes
  import opened Wire

  /** `n` items read one after the other. */
  function GetList<T>(get: Buf -> Got<T>, n: nat, b: Buf): (r: Got<seq<T>>)
    ensures r.Ok? ==> |r.value.0| == n
    decreases n
  {
    if n == 0 then Ok(([], b))
    else
      var p :- get(b);
      var q :- GetList(get, n - 1, p.1);
      Ok(([p.0] + q.0, q.1))
  }

  /** The items written one after the other (without a count). */
  function PutList<T>(put: (T, Buf) -> Buf, xs: seq<T>, rest: Buf): Buf
    decreases |xs|
  {
    if |xs| == 0 then rest else put(xs[0], PutList(put, xs[1..], rest))
  }

  /** Reading back as many items as were written gives the items back,
      provided each item reads back. */
  lemma {:induction false} ListTrip<T>(get: Buf -> Got<T>, put: (T, Buf) -> Buf, xs: seq<T>, rest: Buf)
    requires forall i, r | 0 <= i < |xs| :: get(put(xs[i], r)) == Ok((xs[i], r))
    ensures GetList(get, |xs|, PutList(put, xs, rest)) == Ok((xs, rest))
    decreases |xs|
  {
    if |xs| > 0 {
      var tail := PutList(put, xs[1..], rest);
      assert get(put(xs[0], tail)) == Ok((xs[0], tail));
      ListTrip(get, put, xs[1..], rest);
      assert [xs[0]] + xs[1..] == xs;
    }
  }

  /** A list preceded by its 32-bit count, truncated as the writer's cast
      truncates it. */
  function PutCounted<T>(put: (T, Buf) -> Buf, xs: seq<T>, rest: Buf): Buf {
    PutU32(|xs| % TWO_32, PutList(put, xs, rest))
  }

  function GetCounted<T>(get: Buf -> Got<T>, b: Buf): Got<seq<T>> {
    var n :- GetU32(b);
    GetList(get, n.0, n.1)
  }

  lemma {:induction false} CountedTrip<T>(get: Buf -> Got<T>, put: (T, Buf) -> Buf, xs: seq<T>, rest: Buf)
    requires |xs| < TWO_32
    requires forall i, r | 0 <= i < |xs| :: get(put(xs[i], r)) == Ok((xs[i], r))
    ensures GetCounted(get, PutCounted(put, xs, rest)) == Ok((xs, rest))
  {
    ListTrip(get, put, xs, rest);
    ModSmall(|xs|, TWO_32);
    U32Trip(|xs|, PutList(put, xs, rest));
  }

  /** A property every item read has holds of every item of a list read. */
  lemma {:induction false} ListKeeps<T>(get: Buf -> Got<T>, P: T -> bool, n: nat, b: Buf)
    requires forall x | get(x).Ok? :: P(get(x).value.0)
    requires GetList(get, n, b).Ok?
    ensures forall i | 0 <= i < n :: P(GetList(get, n, b).value.0[i])
    decreases n
  {
    if n > 0 {
      var p := get(b).value;
      ListKeeps(get, P, n - 1, p.1);
      var q := GetList(get, n - 1, p.1).value;
      assert GetList(get, n, b).value.0 == [p.0] + q.0;
    }
  }
}
