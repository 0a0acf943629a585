/**
 * `get_arrivals(stop_id, line)` of main.py: the backward-compatible entry
 * point that narrows the nearby stops to one stop id before computing
 * their arrivals.
 */
module NearbyArrivals {
  import opened Wrappers
  import opened Records
  import opened StableSort
  import opened Arrivals
  import opened ArrivalProperties

  /** `[s for s in stops if str(s.get("stop_id")) == id]`. */
  function Matching(stops: seq<Stop>, id: string): (r: seq<Stop>)
    ensures forall s :: s in r <==> s in stops && StopKey(s) == id
    ensures |r| <= |stops|
    decreases |stops|
  {
    if |stops| == 0 then []
    else
      var rest := Matching(stops[..|stops| - 1], id);
      var last := stops[|stops| - 1];
      assert stops == stops[..|stops| - 1] + [last];
      if StopKey(last) == id then rest + [last] else rest
  }

  /**
   * Filtering keeps the input order: filtering a concatenation filters each
   * part. With the length bound above this fixes `Matching` as the filter.
   */
  lemma {:induction false} MatchingAppend(a: seq<Stop>, b: seq<Stop>, id: string)
    ensures Matching(a + b, id) == Matching(a, id) + Matching(b, id)
    decreases |b|
  {
    if |b| > 0 {
      var b' := b[..|b| - 1];
      MatchingAppend(a, b', id);
      assert (a + b)[..|a + b| - 1] == a + b';
    } else {
      assert a + b == a;
    }
  }

  /** The last matching stop is the one the dict keeps for that id. */
  lemma {:induction false} MatchingLast(stops: seq<Stop>, k: string)
    requires |Matching(stops, k)| > 0
    ensures k in StopMap(stops)
    ensures StopMap(stops)[k] == Matching(stops, k)[|Matching(stops, k)| - 1]
    decreases |stops|
  {
    var n := |stops| - 1;
    var earlier := stops[..n];
    if StopKey(stops[n]) != k {
      assert Matching(stops, k) == Matching(earlier, k);
      MatchingLast(earlier, k);
      assert StopMap(stops)[k] == StopMap(earlier)[k];
    } else {
      assert Matching(stops, k) == Matching(earlier, k) + [stops[n]];
    }
  }

  /** A list of stops that all carry the id `k` gives a one-key dict holding the last of them. */
  lemma {:induction false} SameKeyStops(t: seq<Stop>, k: string)
    requires |t| > 0 && forall i :: 0 <= i < |t| ==> StopKey(t[i]) == k
    ensures StopMap(t) == map[k := t[|t| - 1]]
    ensures StopKeys(t) == [k]
    decreases |t|
  {
    if |t| > 1 {
      SameKeyStops(t[..|t| - 1], k);
    }
  }

  /** The dict built from the matching stops is the full dict narrowed to `k`. */
  lemma MatchingStopMap(stops: seq<Stop>, k: string)
    requires |Matching(stops, k)| > 0
    ensures k in StopMap(stops)
    ensures StopMap(Matching(stops, k)) == map[k := StopMap(stops)[k]]
    ensures StopKeys(Matching(stops, k)) == [k]
  {
    var t := Matching(stops, k);
    forall i | 0 <= i < |t| ensures StopKey(t[i]) == k {
      assert t[i] in t;
    }
    SameKeyStops(t, k);
    MatchingLast(stops, k);
  }

  /**
   * The stops `get_arrivals` passes on: all of them without an id, else
   * those whose id matches, or all of them again when none does. `stopId`
   * is `str(stop_id)` of the argument.
   */
  function SelectStops(stops: seq<Stop>, stopId: Option<string>): (r: seq<Stop>)
    ensures stopId.None? ==> r == stops
    ensures stopId.Some? && (exists i :: 0 <= i < |stops| && StopKey(stops[i]) == stopId.value) ==>
      |r| > 0 && r == Matching(stops, stopId.value)
    ensures stopId.Some? && (forall i :: 0 <= i < |stops| ==> StopKey(stops[i]) != stopId.value) ==> r == stops
  {
    match stopId
    case None => stops
    case Some(id) =>
      var chosen := Matching(stops, id);
      if |chosen| > 0 then
        assert chosen[0] in chosen;
        chosen
      else stops
  }


  /** The stop ids of the results are ids of the selected stops. */
  lemma SelectedStopsOnly(nearby: seq<Stop>, stopId: Option<string>, rows: seq<Row>, now: Now)
    requires ValidNow(now)
    ensures forall x :: x in ArrivalsFor(SelectStops(nearby, stopId), rows, now) ==>
      exists j :: 0 <= j < |nearby| && StopKey(nearby[j]) == x.stopId
    ensures stopId.Some? && (exists i :: 0 <= i < |nearby| && StopKey(nearby[i]) == stopId.value) ==>
      forall x :: x in ArrivalsFor(SelectStops(nearby, stopId), rows, now) ==> x.stopId == stopId.value
  {
    var chosen := SelectStops(nearby, stopId);
    ResultFromMonitoredRows(chosen, rows, now);
    forall x | x in ArrivalsFor(chosen, rows, now)
      ensures exists j :: 0 <= j < |nearby| && StopKey(nearby[j]) == x.stopId
      ensures stopId.Some? && (exists i :: 0 <= i < |nearby| && StopKey(nearby[i]) == stopId.value) ==>
        x.stopId == stopId.value
    {
      var k :| 0 <= k < |chosen| && StopKey(chosen[k]) == x.stopId;
      assert chosen[k] in chosen;
      var j :| 0 <= j < |nearby| && nearby[j] == chosen[k];
    }
  }

  /**
   * `get_arrivals(stop_id, line)`: `nearby` is what `get_nearby_stops()`
   * returns; `line` is not used by the source and is not a parameter here.
   * The results are sorted, belong to nearby stops, and when `stop_id`
   * names a nearby stop they all belong to it.
   */
  function GetArrivals(nearby: seq<Stop>, stopId: Option<string>, rows: seq<Row>, now: Now): (r: seq<Arrival>)
    requires ValidNow(now)
    ensures SortedByMinutes(r)
    ensures forall x :: x in r ==> exists j :: 0 <= j < |nearby| && StopKey(nearby[j]) == x.stopId
    ensures stopId.Some? && (exists i :: 0 <= i < |nearby| && StopKey(nearby[i]) == stopId.value) ==>
      forall x :: x in r ==> x.stopId == stopId.value
    ensures (stopId.None? || forall i :: 0 <= i < |nearby| ==> StopKey(nearby[i]) != stopId.value) ==>
      r == ArrivalsFor(nearby, rows, now)
  {
    ResultSorted(SelectStops(nearby, stopId), rows, now);
    SelectedStopsOnly(nearby, stopId, rows, now);
    ArrivalsFor(SelectStops(nearby, stopId), rows, now)
  }

  /** Some row carrying the id `k` raises out of the loop. */
  ghost predicate StopHasFailure(stopMap: map<string, Stop>, rows: seq<Row>, k: string, now: Now)
    requires ValidNow(now)
  {
    exists j :: 0 <= j < |rows| && Get(rows[j].stopId) == Some(k) && Classify(stopMap, rows[j], now).Fail?
  }

  /** Narrowing the dict to `k` keeps the fate of `k`'s rows and passes over every other row. */
  lemma ClassifyNarrowed(stopMap: map<string, Stop>, k: string, row: Row, now: Now)
    requires ValidNow(now) && k in stopMap
    ensures Get(row.stopId) == Some(k) ==> Classify(map[k := stopMap[k]], row, now) == Classify(stopMap, row, now)
    ensures Get(row.stopId) != Some(k) ==> Classify(map[k := stopMap[k]], row, now) == Skip
  {
  }

  /** Over the narrowed dict the qualifying records are those of `k` over the full dict. */
  lemma {:induction false} CollectedNarrowed(stopMap: map<string, Stop>, k: string, rows: seq<Row>, now: Now)
    requires ValidNow(now) && k in stopMap
    ensures Collected(map[k := stopMap[k]], rows, now) == Bucket(Collected(stopMap, rows, now), k)
    decreases |rows|
  {
    if |rows| > 0 {
      var n := |rows| - 1;
      var narrow := map[k := stopMap[k]];
      CollectedNarrowed(stopMap, k, rows[..n], now);
      ClassifyNarrowed(stopMap, k, rows[n], now);
      var tail := match Classify(stopMap, rows[n], now) case Keep(a) => [a] case _ => [];
      BucketAppend(Collected(stopMap, rows[..n], now), tail, k);
      assert Bucket(tail, k) == match Classify(narrow, rows[n], now) case Keep(a) => [a] case _ => [];
    }
  }

  /** Over the narrowed dict a row raises exactly when one of `k`'s rows raises over the full dict. */
  lemma NarrowedFailure(stopMap: map<string, Stop>, k: string, rows: seq<Row>, now: Now)
    requires ValidNow(now) && k in stopMap
    ensures HasFailure(map[k := stopMap[k]], rows, now) <==> StopHasFailure(stopMap, rows, k, now)
  {
    forall j | 0 <= j < |rows|
      ensures Classify(map[k := stopMap[k]], rows[j], now).Fail? <==>
        Get(rows[j].stopId) == Some(k) && Classify(stopMap, rows[j], now).Fail?
    {
      ClassifyNarrowed(stopMap, k, rows[j], now);
    }
  }

  /** The arrivals of the matching stops alone: `k`'s soonest, or nothing when one of `k`'s rows raises. */
  lemma MatchingArrivals(nearby: seq<Stop>, k: string, rows: seq<Row>, now: Now)
    requires ValidNow(now) && |Matching(nearby, k)| > 0
    ensures k in StopMap(nearby)
    ensures ArrivalsFor(Matching(nearby, k), rows, now) ==
      if StopHasFailure(StopMap(nearby), rows, k, now) then []
      else Soonest(Bucket(Collected(StopMap(nearby), rows, now), k))
  {
    MatchingStopMap(nearby, k);
    var full := StopMap(nearby);
    NarrowedFailure(full, k, rows, now);
    if !StopHasFailure(full, rows, k, now) {
      CollectedNarrowed(full, k, rows, now);
      var b := Bucket(Collected(full, rows, now), k);
      BucketAll(b, k);
      assert PerStop([k], b) == Soonest(b) by {
        assert [k][..0] == [];
      }
      SoonestAreSmallest(b);
      SortOfSorted(Soonest(b));
    }
  }

  /**
   * With an id some nearby stop carries, `get_arrivals` reports that stop's
   * soonest qualifying arrivals, in order, unless one of that stop's own rows
   * raises, and then nothing. Rows of the other nearby stops play no part.
   */
  lemma GetArrivalsAtStop(nearby: seq<Stop>, k: string, rows: seq<Row>, now: Now)
    requires ValidNow(now)
    requires exists i :: 0 <= i < |nearby| && StopKey(nearby[i]) == k
    ensures k in StopMap(nearby)
    ensures GetArrivals(nearby, Some(k), rows, now) ==
      if StopHasFailure(StopMap(nearby), rows, k, now) then []
      else Soonest(Bucket(Collected(StopMap(nearby), rows, now), k))
  {
    var i :| 0 <= i < |nearby| && StopKey(nearby[i]) == k;
    assert nearby[i] in Matching(nearby, k);
    assert SelectStops(nearby, Some(k)) == Matching(nearby, k);
    MatchingArrivals(nearby, k, rows, now);
  }

  /** When no row raises, the named stop's soonest arrivals are the whole answer. */
  lemma GetArrivalsAtStopExact(nearby: seq<Stop>, k: string, rows: seq<Row>, now: Now)
    requires ValidNow(now)
    requires exists i :: 0 <= i < |nearby| && StopKey(nearby[i]) == k
    requires !HasFailure(StopMap(nearby), rows, now)
    ensures GetArrivals(nearby, Some(k), rows, now) == Soonest(Bucket(Collected(StopMap(nearby), rows, now), k))
  {
    GetArrivalsAtStop(nearby, k, rows, now);
  }
}
