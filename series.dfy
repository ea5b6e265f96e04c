/** Normalisation of the provider's payload into the price series.

    The payload is already reduced to its two parallel arrays: the epoch
    seconds of each sample and its closing price, which the provider sends as
    null when there was no trade.  Prices are opaque (`P`).  A point's instant
    is kept as epoch seconds: converting to Asia/Seoul and zeroing the seconds
    and microseconds of the local time moves the instant back to the start of
    its minute, because that zone's offsets since 1912 are whole minutes. */
module Series {

  datatype Option<T> = None | Some(value: T)

  datatype Point<P> = Point(instant: int, price: P)

  const SecondsPerMinute: int := 60

  function Min(a: nat, b: nat): nat
  {
    if a <= b then a else b
  }

  /** `.replace(second=0, microsecond=0)` on an integer epoch second. */
  function TruncateToMinute(ts: int): (r: int)
    ensures r % SecondsPerMinute == 0
    ensures r <= ts < r + SecondsPerMinute
  {
    ts - ts % SecondsPerMinute
  }

  /** Truncating an already truncated instant changes nothing. */
  lemma TruncateIdempotent(ts: int)
    ensures TruncateToMinute(TruncateToMinute(ts)) == TruncateToMinute(ts)
  {
  }

  /** Truncation never swaps two instants. */
  lemma TruncateMonotone(a: int, b: int)
    requires a <= b
    ensures TruncateToMinute(a) <= TruncateToMinute(b)
  {
  }

  /** Python's `zip`: pairs position by position, stopping at the shorter. */
  function Zip<P>(timestamps: seq<int>, closes: seq<Option<P>>): (r: seq<(int, Option<P>)>)
    ensures |r| == Min(|timestamps|, |closes|)
    ensures forall i :: 0 <= i < |r| ==> r[i] == (timestamps[i], closes[i])
  {
    if timestamps == [] || closes == [] then []
    else [(timestamps[0], closes[0])] + Zip(timestamps[1..], closes[1..])
  }

  /** The list comprehension's filter and map: pairs whose close is null are
      dropped, the others become points at their truncated instant. */
  function KeepPresent<P>(pairs: seq<(int, Option<P>)>): (r: seq<Point<P>>)
    ensures |r| <= |pairs|
    ensures forall j :: 0 <= j < |r| ==> r[j].instant % SecondsPerMinute == 0
  {
    if pairs == [] then []
    else
      var last := pairs[|pairs| - 1];
      KeepPresent(pairs[..|pairs| - 1]) +
        (if last.1.Some? then [Point(TruncateToMinute(last.0), last.1.value)] else [])
  }

  /** The series `fetch_yahoo_history` builds from a payload. */
  function Normalize<P>(timestamps: seq<int>, closes: seq<Option<P>>): (r: seq<Point<P>>)
    ensures |r| <= |timestamps| && |r| <= |closes|
    ensures forall j :: 0 <= j < |r| ==> r[j].instant % SecondsPerMinute == 0
  {
    KeepPresent(Zip(timestamps, closes))
  }

  /** The positions whose close is present, in increasing order. */
  function PresentPositions<P>(pairs: seq<(int, Option<P>)>): (r: seq<nat>)
    ensures forall j :: 0 <= j < |r| ==> r[j] < |pairs| && pairs[r[j]].1.Some?
    ensures forall j, j' :: 0 <= j < j' < |r| ==> r[j] < r[j']
    ensures forall i :: 0 <= i < |pairs| && pairs[i].1.Some? ==> i in r
  {
    if pairs == [] then []
    else
      var n := |pairs| - 1;
      var front := pairs[..n];
      assert forall i :: 0 <= i < n ==> front[i] == pairs[i];
      PresentPositions(front) + (if pairs[n].1.Some? then [n] else [])
  }

  /** The j-th point is the pair at position pos[j], truncated. */
  ghost predicate PointsAt<P>(r: seq<Point<P>>, pairs: seq<(int, Option<P>)>, pos: seq<nat>)
  {
    |r| == |pos| &&
    forall j :: 0 <= j < |r| ==>
      pos[j] < |pairs| && pairs[pos[j]].1.Some? &&
      r[j] == Point(TruncateToMinute(pairs[pos[j]].0), pairs[pos[j]].1.value)
  }

  /** The j-th kept point is the j-th present pair, truncated. */
  lemma {:induction false} KeepPresentAt<P>(pairs: seq<(int, Option<P>)>)
    ensures PointsAt(KeepPresent(pairs), pairs, PresentPositions(pairs))
  {
    if pairs != [] {
      var n := |pairs| - 1;
      var front := pairs[..n];
      KeepPresentAt(front);
      var r, rf := KeepPresent(pairs), KeepPresent(front);
      var pos, pf := PresentPositions(pairs), PresentPositions(front);
      assert |rf| == |pf|;
      forall j | 0 <= j < |r|
        ensures pos[j] < |pairs| && pairs[pos[j]].1.Some?
        ensures r[j] == Point(TruncateToMinute(pairs[pos[j]].0), pairs[pos[j]].1.value)
      {
        if j < |rf| {
          assert r[j] == rf[j] && pos[j] == pf[j];
          assert front[pf[j]] == pairs[pf[j]];
        } else {
          assert pos[j] == n;
        }
      }
    }
  }

  /** The normalised series holds exactly the positions i below
      min(|timestamps|, |closes|) whose close is present, in their original
      order, each at its timestamp truncated to the minute with its own
      close: nothing is interpolated, reordered or invented. */
  lemma NormalizeExact<P>(timestamps: seq<int>, closes: seq<Option<P>>)
    ensures var r := Normalize(timestamps, closes);
      var pos := PresentPositions(Zip(timestamps, closes));
      |r| == |pos| &&
      (forall i: int :: i in pos <==> 0 <= i < |timestamps| && i < |closes| && closes[i].Some?) &&
      (forall j, j' :: 0 <= j < j' < |pos| ==> pos[j] < pos[j']) &&
      (forall j :: 0 <= j < |r| ==>
        r[j] == Point(TruncateToMinute(timestamps[pos[j]]), closes[pos[j]].value))
  {
    var pairs := Zip(timestamps, closes);
    var pos := PresentPositions(pairs);
    KeepPresentAt(pairs);
    forall i: int
      ensures i in pos <==> 0 <= i < |timestamps| && i < |closes| && closes[i].Some?
    {
      if 0 <= i < |pairs| {
        assert pairs[i] == (timestamps[i], closes[i]);
      }
    }
  }

  /** Each kept instant is a whole minute, at most its sample's timestamp and
      less than a minute before it. */
  lemma NormalizeInstants<P>(timestamps: seq<int>, closes: seq<Option<P>>)
    ensures var r := Normalize(timestamps, closes);
      var pos := PresentPositions(Zip(timestamps, closes));
      |r| == |pos| &&
      forall j :: 0 <= j < |r| ==>
        pos[j] < |timestamps| &&
        r[j].instant % SecondsPerMinute == 0 &&
        r[j].instant <= timestamps[pos[j]] < r[j].instant + SecondsPerMinute
  {
    NormalizeExact(timestamps, closes);
  }

  /** Chronological timestamps give a chronological series: input order is
      preserved, so no sorting is needed. */
  lemma NormalizeSorted<P>(timestamps: seq<int>, closes: seq<Option<P>>)
    requires forall i, i' :: 0 <= i < i' < |timestamps| ==> timestamps[i] <= timestamps[i']
    ensures var r := Normalize(timestamps, closes);
      forall j, j' :: 0 <= j < j' < |r| ==> r[j].instant <= r[j'].instant
  {
    NormalizeExact(timestamps, closes);
    var r := Normalize(timestamps, closes);
    var pos := PresentPositions(Zip(timestamps, closes));
    forall j, j' | 0 <= j < j' < |r|
      ensures r[j].instant <= r[j'].instant
    {
      TruncateMonotone(timestamps[pos[j]], timestamps[pos[j']]);
    }
  }

  /** A payload whose closes are all null normalises to the empty series; the
      function returns it as it is and raises nothing. */
  lemma AllMissingIsEmpty<P>(timestamps: seq<int>, closes: seq<Option<P>>)
    requires forall i :: 0 <= i < |closes| ==> closes[i].None?
    ensures Normalize(timestamps, closes) == []
  {
    var pairs := Zip(timestamps, closes);
    KeepPresentAt(pairs);
    NoPresentPositions(pairs);
  }

  lemma {:induction false} NoPresentPositions<P>(pairs: seq<(int, Option<P>)>)
    requires forall i :: 0 <= i < |pairs| ==> pairs[i].1.None?
    ensures PresentPositions(pairs) == []
  {
    if pairs != [] {
      var front := pairs[..|pairs| - 1];
      assert forall i :: 0 <= i < |front| ==> front[i] == pairs[i];
      NoPresentPositions(front);
    }
  }

  /** Three samples with the middle close missing give two points, for the
      first and the third sample, in that order. */
  lemma DropsMissingMiddle(t1: int, t2: int, t3: int, c1: real, c3: real)
    ensures Normalize([t1, t2, t3], [Some(c1), None, Some(c3)]) ==
      [Point(TruncateToMinute(t1), c1), Point(TruncateToMinute(t3), c3)]
  {
    var pairs := Zip([t1, t2, t3], [Some(c1), None, Some(c3)]);
    assert pairs == [(t1, Some(c1)), (t2, None), (t3, Some(c3))];
    var first := pairs[..1];
    assert first[..0] == [];
    assert KeepPresent(first) == [Point(TruncateToMinute(t1), c1)];
    var firstTwo := pairs[..2];
    assert firstTwo[..1] == first;
    assert KeepPresent(firstTwo) == KeepPresent(first);
  }
}
