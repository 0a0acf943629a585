/**
 * What `get_arrivals_for_stops` and `get_arrivals` deliver, proved of the
 * model in module `Arrivals`: the result is sorted by minutes, holds for
 * every monitored stop exactly that stop's soonest qualifying arrivals (at
 * most two, in order), nothing else, and is empty whenever a row raises.
 */
module ArrivalProperties {
  import opened Wrappers
  import opened PyText
  import opened Records
  import opened StableSort
  import opened Arrivals

  // ----- one row -----

  /** A row whose `stop_id` is missing or not monitored is passed over. */
  lemma UnmonitoredRowSkipped(stopMap: map<string, Stop>, row: Row, now: Now)
    requires ValidNow(now)
    requires Get(row.stopId).None? || Get(row.stopId).value !in stopMap
    ensures Classify(stopMap, row, now) == Skip
  {
  }

  /** A row of a monitored stop that is too short to hold `arrival_time` raises. */
  lemma ShortArrivalFails(stopMap: map<string, Stop>, row: Row, now: Now)
    requires ValidNow(now)
    requires row.stopId.Value? && row.stopId.text in stopMap && row.arrivalTime == ShortRow
    ensures Classify(stopMap, row, now) == Fail
  {
  }

  /** Without an `arrival_time` column the default `""` does not split into `h:m:s`. */
  lemma MissingArrivalColumnSkipped(stopMap: map<string, Stop>, row: Row, now: Now)
    requires ValidNow(now)
    requires row.arrivalTime == NoColumn
    ensures Classify(stopMap, row, now) == Skip
  {
    assert Split("", ':') == [""];
  }

  /**
   * A kept row had a three-field integer `arrival_time`; its record carries
   * the stop's `direzione`, the row's destination and the whole minutes
   * until the next occurrence of that time.
   */
  lemma KeptRowMeaning(stopMap: map<string, Stop>, row: Row, now: Now)
    requires ValidNow(now)
    requires Classify(stopMap, row, now).Keep?
    ensures var a := Classify(stopMap, row, now).arrival;
      row.arrivalTime.Value? &&
      ParseArrivalTime(row.arrivalTime.text).Some? &&
      ArrivalInstant(OffsetSeconds(ParseArrivalTime(row.arrivalTime.text).value), now).Some? &&
      a.minutes == MinutesUntil(OffsetSeconds(ParseArrivalTime(row.arrivalTime.text).value), now.time) &&
      a.stopId in stopMap &&
      a.direzione == stopMap[a.stopId].direzione &&
      a.line == LineLabel(stopMap[a.stopId], row) &&
      a.destination == Destination(row)
  {
    assert Split("", ':') == [""];
  }

  /**
   * Every row has exactly one of three fates. It is passed over when its
   * `stop_id` is not monitored or its `arrival_time` text is not three
   * integer fields. It raises when a monitored stop's row is too short to
   * hold `arrival_time`, or when its time overflows a `datetime`. Otherwise
   * it is kept.
   */
  lemma ClassifyCases(stopMap: map<string, Stop>, row: Row, now: Now)
    requires ValidNow(now)
    ensures var monitored := Get(row.stopId).Some? && Get(row.stopId).value in stopMap;
      var text := GetOr(row.arrivalTime, "");
      var parsed := if text.Some? then ParseArrivalTime(text.value) else None;
      var overflows := parsed.Some? && ArrivalInstant(OffsetSeconds(parsed.value), now).None?;
      (Classify(stopMap, row, now).Skip? <==> !monitored || (text.Some? && parsed.None?)) &&
      (Classify(stopMap, row, now).Fail? <==> monitored && (row.arrivalTime.ShortRow? || overflows)) &&
      (Classify(stopMap, row, now).Keep? <==> monitored && parsed.Some? && !overflows)
  {
  }

  /** A time of day in the usual range never overflows, except on 9999-12-31. */
  lemma OrdinaryTimesFit(offset: int, now: Now)
    requires ValidNow(now) && now.date + 1 < CalendarDays
    requires 0 <= offset < SecondsPerDay
    ensures ArrivalInstant(offset, now).Some?
  {
  }

  /** On 9999-12-31 a time already past cannot be moved to the next day. */
  lemma PastTimeOverflowsOnLastDay(offset: int, now: Now)
    requires ValidNow(now) && now.date == CalendarDays - 1
    requires 0 <= offset && offset * MicrosPerSecond < now.time
    ensures ArrivalInstant(offset, now).None?
  {
  }

  // ----- selecting by stop -----

  lemma {:induction false} BucketAppend(a: seq<Arrival>, b: seq<Arrival>, k: string)
    ensures Bucket(a + b, k) == Bucket(a, k) + Bucket(b, k)
    decreases |b|
  {
    if |b| == 0 {
      assert a + b == a;
    } else {
      var b', x := b[..|b| - 1], b[|b| - 1];
      assert b == b' + [x];
      assert a + b == (a + b') + [x];
      BucketSnoc(a + b', x, k);
      BucketSnoc(b', x, k);
      BucketAppend(a, b', k);
    }
  }

  lemma {:induction false} BucketMembers(s: seq<Arrival>, k: string)
    ensures forall x :: x in Bucket(s, k) <==> x in s && x.stopId == k
    decreases |s|
  {
    if |s| > 0 {
      BucketMembers(s[..|s| - 1], k);
      assert s == s[..|s| - 1] + [s[|s| - 1]];
    }
  }

  lemma {:induction false} BucketAll(s: seq<Arrival>, k: string)
    requires forall i :: 0 <= i < |s| ==> s[i].stopId == k
    ensures Bucket(s, k) == s
    decreases |s|
  {
    if |s| > 0 {
      BucketAll(s[..|s| - 1], k);
      assert s == s[..|s| - 1] + [s[|s| - 1]];
    }
  }

  lemma {:induction false} BucketNone(s: seq<Arrival>, k: string)
    requires forall i :: 0 <= i < |s| ==> s[i].stopId != k
    ensures Bucket(s, k) == []
    decreases |s|
  {
    if |s| > 0 {
      BucketNone(s[..|s| - 1], k);
    }
  }

  lemma {:induction false} BucketSorted(s: seq<Arrival>, k: string)
    requires SortedByMinutes(s)
    ensures SortedByMinutes(Bucket(s, k))
    decreases |s|
  {
    if |s| > 0 {
      var s', y := s[..|s| - 1], s[|s| - 1];
      assert SortedByMinutes(s') by {
        forall i, j | 0 <= i < j < |s'| ensures s'[i].minutes <= s'[j].minutes {
          assert s'[i] == s[i] && s'[j] == s[j];
        }
      }
      BucketSorted(s', k);
      if y.stopId == k {
        var b', b := Bucket(s', k), Bucket(s, k);
        assert b == b' + [y];
        BucketMembers(s', k);
        forall i, j | 0 <= i < j < |b| ensures b[i].minutes <= b[j].minutes {
          if j == |b| - 1 {
            assert b[i] == b'[i] && b'[i] in b';
            var t :| 0 <= t < |s'| && s'[t] == b'[i];
            assert s[t] == s'[t];
          } else {
            assert b[i] == b'[i] && b[j] == b'[j];
          }
        }
      }
    }
  }

  /** Keeping one stop's records and keeping one minute value's records commute. */
  lemma {:induction false} FiltersCommute(s: seq<Arrival>, k: string, m: int)
    ensures Bucket(WithMinutes(s, m), k) == WithMinutes(Bucket(s, k), m)
    decreases |s|
  {
    if |s| > 0 {
      var s', y := s[..|s| - 1], s[|s| - 1];
      FiltersCommute(s', k, m);
      var w' := WithMinutes(s', m);
      var b' := Bucket(s', k);
      if y.minutes == m {
        BucketSnoc(w', y, k);
      } else {
        assert w' + [] == w';
      }
      if y.stopId == k {
        WithMinutesSnoc(b', y, m);
      } else {
        assert b' + [] == b';
      }
    }
  }

  /** Sorting and then keeping one stop gives that stop's records sorted. */
  lemma SortThenBucket(p: seq<Arrival>, k: string)
    ensures Bucket(SortByMinutes(p), k) == SortByMinutes(Bucket(p, k))
  {
    var t := SortByMinutes(p);
    SortIsSorted(p);
    BucketSorted(t, k);
    forall m ensures WithMinutes(Bucket(t, k), m) == WithMinutes(Bucket(p, k), m) {
      FiltersCommute(t, k, m);
      FiltersCommute(p, k, m);
      SortIsStable(p, m);
    }
    StableSortIsUnique(Bucket(t, k), Bucket(p, k));
  }

  /** In a sorted sequence, no record of a prefix is later than a record after it. */
  lemma PrefixSmallest(t: seq<Arrival>, n: nat)
    requires SortedByMinutes(t) && n <= |t|
    ensures forall x, y :: x in t[..n] && y in multiset(t) - multiset(t[..n]) ==> x.minutes <= y.minutes
  {
    assert t == t[..n] + t[n..];
    assert multiset(t) == multiset(t[..n]) + multiset(t[n..]);
    forall x, y | x in t[..n] && y in multiset(t) - multiset(t[..n]) ensures x.minutes <= y.minutes {
      assert y in t[n..];
      var i :| 0 <= i < n && t[..n][i] == x;
      var j :| 0 <= j < |t| - n && t[n..][j] == y;
      assert t[i] == x && t[n + j] == y;
    }
  }

  /**
   * `items[:2]` after the sort: as many records as there are, up to two,
   * sorted, drawn from `items`, and none later than a record left out.
   */
  lemma SoonestAreSmallest(items: seq<Arrival>)
    ensures |Soonest(items)| == if |items| < PerStopLimit then |items| else PerStopLimit
    ensures SortedByMinutes(Soonest(items))
    ensures multiset(Soonest(items)) <= multiset(items)
    ensures forall x, y :: x in Soonest(items) && y in multiset(items) - multiset(Soonest(items)) ==>
      x.minutes <= y.minutes
  {
    var t := SortByMinutes(items);
    SortIsSorted(items);
    SortPermutes(items);
    var n := if |t| <= PerStopLimit then |t| else PerStopLimit;
    assert Soonest(items) == t[..n];
    SortedPrefix(items, t, n);
  }

  /** A prefix of a sorted arrangement of `items` is sorted, drawn from `items`, and no later than the rest. */
  lemma SortedPrefix(items: seq<Arrival>, t: seq<Arrival>, n: nat)
    requires SortedByMinutes(t) && multiset(t) == multiset(items) && n <= |t|
    ensures SortedByMinutes(t[..n])
    ensures multiset(t[..n]) <= multiset(items)
    ensures forall x, y :: x in t[..n] && y in multiset(items) - multiset(t[..n]) ==> x.minutes <= y.minutes
  {
    assert t == t[..n] + t[n..];
    assert multiset(t) == multiset(t[..n]) + multiset(t[n..]);
    PrefixSmallest(t, n);
  }

  lemma SoonestMembers(items: seq<Arrival>)
    ensures forall x :: x in Soonest(items) ==> x in items
  {
    SoonestAreSmallest(items);
    forall x | x in Soonest(items) ensures x in items {
      assert x in multiset(Soonest(items));
    }
  }

  lemma SoonestOfStop(c: seq<Arrival>, k: string)
    ensures forall i :: 0 <= i < |Soonest(Bucket(c, k))| ==> Soonest(Bucket(c, k))[i].stopId == k
  {
    SoonestMembers(Bucket(c, k));
    BucketMembers(c, k);
    forall i | 0 <= i < |Soonest(Bucket(c, k))| ensures Soonest(Bucket(c, k))[i].stopId == k {
      assert Soonest(Bucket(c, k))[i] in Soonest(Bucket(c, k));
    }
  }

  lemma {:induction false} PerStopMembers(keys: seq<string>, c: seq<Arrival>)
    ensures forall x :: x in PerStop(keys, c) ==> x in c && x.stopId in keys
    decreases |keys|
  {
    if |keys| > 0 {
      var keys', last := keys[..|keys| - 1], keys[|keys| - 1];
      assert keys == keys' + [last];
      PerStopMembers(keys', c);
      SoonestMembers(Bucket(c, last));
      BucketMembers(c, last);
    }
  }

  lemma {:induction false} PerStopLength(keys: seq<string>, c: seq<Arrival>)
    ensures |PerStop(keys, c)| <= PerStopLimit * |keys|
    decreases |keys|
  {
    if |keys| > 0 {
      PerStopLength(keys[..|keys| - 1], c);
      SoonestAreSmallest(Bucket(c, keys[|keys| - 1]));
    }
  }

  lemma {:induction false} PerStopOutside(keys: seq<string>, c: seq<Arrival>, k: string)
    requires k !in keys
    ensures Bucket(PerStop(keys, c), k) == []
    decreases |keys|
  {
    if |keys| > 0 {
      var keys', last := keys[..|keys| - 1], keys[|keys| - 1];
      assert keys == keys' + [last];
      PerStopOutside(keys', c, k);
      BucketAppend(PerStop(keys', c), Soonest(Bucket(c, last)), k);
      SoonestOfStop(c, last);
      BucketNone(Soonest(Bucket(c, last)), k);
    }
  }

  /** With distinct keys, a stop's records in `PerStop` are its soonest ones. */
  lemma {:induction false} PerStopBucket(keys: seq<string>, c: seq<Arrival>, k: string)
    requires forall i, j :: 0 <= i < j < |keys| ==> keys[i] != keys[j]
    requires k in keys
    ensures Bucket(PerStop(keys, c), k) == Soonest(Bucket(c, k))
    decreases |keys|
  {
    var keys', last := keys[..|keys| - 1], keys[|keys| - 1];
    assert keys == keys' + [last];
    BucketAppend(PerStop(keys', c), Soonest(Bucket(c, last)), k);
    SoonestOfStop(c, last);
    if last == k {
      forall i | 0 <= i < |keys'| ensures keys'[i] != k {
        assert keys'[i] == keys[i];
      }
      PerStopOutside(keys', c, k);
      BucketAll(Soonest(Bucket(c, k)), k);
    } else {
      assert forall i, j :: 0 <= i < j < |keys'| ==> keys'[i] != keys'[j] by {
        forall i, j | 0 <= i < j < |keys'| ensures keys'[i] != keys'[j] {
          assert keys'[i] == keys[i] && keys'[j] == keys[j];
        }
      }
      PerStopBucket(keys', c, k);
      BucketNone(Soonest(Bucket(c, last)), k);
    }
  }

  // ----- the whole result -----

  /** `results.sort(key=minutes)`: the result is ordered by minutes. */
  lemma ResultSorted(stops: seq<Stop>, rows: seq<Row>, now: Now)
    requires ValidNow(now)
    ensures SortedByMinutes(ArrivalsFor(stops, rows, now))
  {
    var stopMap := StopMap(stops);
    if !HasFailure(stopMap, rows, now) {
      SortIsSorted(PerStop(StopKeys(stops), Collected(stopMap, rows, now)));
    }
  }

  /** Every result comes from a qualifying row and belongs to a monitored stop. */
  lemma ResultFromMonitoredRows(stops: seq<Stop>, rows: seq<Row>, now: Now)
    requires ValidNow(now)
    ensures forall x :: x in ArrivalsFor(stops, rows, now) ==>
      x in Collected(StopMap(stops), rows, now) &&
      exists j :: 0 <= j < |stops| && StopKey(stops[j]) == x.stopId
  {
    var stopMap := StopMap(stops);
    if !HasFailure(stopMap, rows, now) {
      var p := PerStop(StopKeys(stops), Collected(stopMap, rows, now));
      SortPermutes(p);
      PerStopMembers(StopKeys(stops), Collected(stopMap, rows, now));
      forall x | x in ArrivalsFor(stops, rows, now)
        ensures x in Collected(stopMap, rows, now)
        ensures exists j :: 0 <= j < |stops| && StopKey(stops[j]) == x.stopId
      {
        assert x in multiset(SortByMinutes(p));
        assert x in p;
        var s := stopMap[x.stopId];
        var j :| 0 <= j < |stops| && stops[j] == s;
        assert StopKey(stops[j]) == x.stopId;
      }
    }
  }

  /**
   * For each monitored stop the result holds exactly the stop's soonest
   * qualifying arrivals (see `SoonestAreSmallest`), in the same order.
   */
  lemma ResultPerStop(stops: seq<Stop>, rows: seq<Row>, now: Now, sid: string)
    requires ValidNow(now)
    requires !HasFailure(StopMap(stops), rows, now)
    requires sid in StopMap(stops)
    ensures Bucket(ArrivalsFor(stops, rows, now), sid) == Soonest(Bucket(Collected(StopMap(stops), rows, now), sid))
  {
    var c := Collected(StopMap(stops), rows, now);
    var p := PerStop(StopKeys(stops), c);
    SortThenBucket(p, sid);
    PerStopBucket(StopKeys(stops), c, sid);
    SoonestAreSmallest(Bucket(c, sid));
    SortOfSorted(Soonest(Bucket(c, sid)));
  }

  /** At most two arrivals per distinct monitored stop id. */
  lemma ResultBounded(stops: seq<Stop>, rows: seq<Row>, now: Now)
    requires ValidNow(now)
    ensures |ArrivalsFor(stops, rows, now)| <= PerStopLimit * |StopKeys(stops)|
  {
    PerStopLength(StopKeys(stops), Collected(StopMap(stops), rows, now));
  }

  /** Records with equal minutes keep the order of the per-stop concatenation. */
  lemma ResultStable(stops: seq<Stop>, rows: seq<Row>, now: Now, m: int)
    requires ValidNow(now)
    requires !HasFailure(StopMap(stops), rows, now)
    ensures WithMinutes(ArrivalsFor(stops, rows, now), m) ==
      WithMinutes(PerStop(StopKeys(stops), Collected(StopMap(stops), rows, now)), m)
  {
    SortIsStable(PerStop(StopKeys(stops), Collected(StopMap(stops), rows, now)), m);
  }

  /** A single row that raises empties the whole result. */
  lemma FailingRowEmptiesResult(stops: seq<Stop>, rows: seq<Row>, now: Now, i: nat)
    requires ValidNow(now) && i < |rows|
    requires Classify(StopMap(stops), rows[i], now).Fail?
    ensures ArrivalsFor(stops, rows, now) == []
  {
    assert HasFailure(StopMap(stops), rows, now);
  }

  lemma {:induction false} PerStopEmpty(keys: seq<string>)
    ensures PerStop(keys, []) == []
    decreases |keys|
  {
    if |keys| > 0 {
      PerStopEmpty(keys[..|keys| - 1]);
      assert Soonest(Bucket([], keys[|keys| - 1])) == [];
    }
  }

  lemma QualifyingRowShows(stops: seq<Stop>, rows: seq<Row>, now: Now)
    requires ValidNow(now)
    requires !HasFailure(StopMap(stops), rows, now)
    requires Collected(StopMap(stops), rows, now) != []
    ensures ArrivalsFor(stops, rows, now) != []
  {
    var c := Collected(StopMap(stops), rows, now);
    var sid := c[0].stopId;
    BucketMembers(c, sid);
    assert c[0] in Bucket(c, sid);
    SoonestAreSmallest(Bucket(c, sid));
    ResultPerStop(stops, rows, now, sid);
  }

  /** The result is empty exactly when a row raises or no row qualifies. */
  lemma ResultEmptyIff(stops: seq<Stop>, rows: seq<Row>, now: Now)
    requires ValidNow(now)
    ensures ArrivalsFor(stops, rows, now) == [] <==>
      HasFailure(StopMap(stops), rows, now) || Collected(StopMap(stops), rows, now) == []
  {
    var stopMap := StopMap(stops);
    var c := Collected(stopMap, rows, now);
    if !HasFailure(stopMap, rows, now) {
      if c != [] {
        QualifyingRowShows(stops, rows, now);
      } else {
        PerStopEmpty(StopKeys(stops));
      }
    }
  }

  lemma {:induction false} CollectedAppend(stopMap: map<string, Stop>, a: seq<Row>, b: seq<Row>, now: Now)
    requires ValidNow(now)
    ensures Collected(stopMap, a + b, now) == Collected(stopMap, a, now) + Collected(stopMap, b, now)
    decreases |b|
  {
    if |b| == 0 {
      assert a + b == a;
    } else {
      var b' := b[..|b| - 1];
      assert (a + b)[..|a + b| - 1] == a + b';
      assert (a + b)[|a + b| - 1] == b[|b| - 1];
      CollectedAppend(stopMap, a, b', now);
    }
  }

  lemma SkipFirst(stopMap: map<string, Stop>, r: Row, post: seq<Row>, now: Now)
    requires ValidNow(now) && Classify(stopMap, r, now).Skip?
    ensures Collected(stopMap, [r] + post, now) == Collected(stopMap, post, now)
  {
    assert [r][..0] == [];
    var one := Collected(stopMap, [r], now);
    assert one == Collected(stopMap, [], now) + [];
    CollectedAppend(stopMap, [r], post, now);
    assert one + Collected(stopMap, post, now) == Collected(stopMap, post, now);
  }

  lemma SkippedRowCollected(stopMap: map<string, Stop>, rows: seq<Row>, now: Now, i: nat)
    requires ValidNow(now) && i < |rows|
    requires Classify(stopMap, rows[i], now).Skip?
    ensures Collected(stopMap, rows[..i] + rows[i + 1..], now) == Collected(stopMap, rows, now)
  {
    var pre, rest, post := rows[..i], [rows[i]] + rows[i + 1..], rows[i + 1..];
    assert rows == pre + rest;
    SkipFirst(stopMap, rows[i], post, now);
    CollectedAppend(stopMap, pre, rest, now);
    CollectedAppend(stopMap, pre, post, now);
  }

  lemma SkippedRowFailure(stopMap: map<string, Stop>, rows: seq<Row>, now: Now, i: nat)
    requires ValidNow(now) && i < |rows|
    requires Classify(stopMap, rows[i], now).Skip?
    ensures HasFailure(stopMap, rows[..i] + rows[i + 1..], now) <==> HasFailure(stopMap, rows, now)
  {
    var fewer := rows[..i] + rows[i + 1..];
    assert |fewer| == |rows| - 1;
    if HasFailure(stopMap, rows, now) {
      var j :| 0 <= j < |rows| && Classify(stopMap, rows[j], now).Fail?;
      if j < i {
        assert fewer[j] == rows[j];
      } else {
        assert fewer[j - 1] == rows[j];
      }
    }
    if HasFailure(stopMap, fewer, now) {
      var j :| 0 <= j < |fewer| && Classify(stopMap, fewer[j], now).Fail?;
      if j < i {
        assert fewer[j] == rows[j];
      } else {
        assert fewer[j] == rows[j + 1];
      }
    }
  }

  /** Removing a row that is passed over changes nothing. */
  lemma SkippedRowIrrelevant(stops: seq<Stop>, rows: seq<Row>, now: Now, i: nat)
    requires ValidNow(now) && i < |rows|
    requires Classify(StopMap(stops), rows[i], now).Skip?
    ensures ArrivalsFor(stops, rows[..i] + rows[i + 1..], now) == ArrivalsFor(stops, rows, now)
  {
    SkippedRowCollected(StopMap(stops), rows, now, i);
    SkippedRowFailure(StopMap(stops), rows, now, i);
  }

  // ----- concrete cases -----

  /** `Split` of a joined literal, where `Join` is evaluated step by step. */
  lemma SplitThree(a: string, b: string, c: string)
    requires ':' !in a && ':' !in b && ':' !in c
    ensures Split(a + ":" + b + ":" + c, ':') == [a, b, c]
  {
    var parts := [a, b, c];
    assert Join(parts[2..], ':') == c;
    assert Join(parts[1..], ':') == b + ":" + c;
    assert Join(parts, ':') == a + ":" + b + ":" + c;
    SplitJoin(parts, ':');
  }

  lemma ParseTwoDigits(s: string)
    requires |s| == 2 && IsDigit(s[0]) && IsDigit(s[1])
    ensures ParseInt(s) == Some(DigitValue(s[0]) * 10 + DigitValue(s[1]))
  {
    assert AllDigits(s);
    assert s[..1][..0] == [];
    assert DigitsValue(s[..1]) == DigitValue(s[0]);
    assert DigitsValue(s) == DigitValue(s[0]) * 10 + DigitValue(s[1]);
    assert ParseNat(s) == Some(DigitValue(s[0]) * 10 + DigitValue(s[1]));
  }

  lemma ParseThree(a: string, b: string, c: string, t: ClockTime)
    requires ':' !in a && ':' !in b && ':' !in c
    requires ParseInt(a) == Some(t.hours) && ParseInt(b) == Some(t.minutes) && ParseInt(c) == Some(t.seconds)
    ensures ParseArrivalTime(a + ":" + b + ":" + c) == Some(t)
  {
    SplitThree(a, b, c);
  }

  lemma ParseEarlyExample()
    ensures ParseArrivalTime("08:05:00") == Some(ClockTime(8, 5, 0))
  {
    ParseTwoDigits("08");
    ParseTwoDigits("05");
    ParseTwoDigits("00");
    ParseThree("08", "05", "00", ClockTime(8, 5, 0));
    assert "08" + ":" + "05" + ":" + "00" == "08:05:00";
  }

  lemma ParseLateExample()
    ensures ParseArrivalTime("25:10:00") == Some(ClockTime(25, 10, 0))
  {
    ParseTwoDigits("25");
    ParseTwoDigits("10");
    ParseTwoDigits("00");
    ParseThree("25", "10", "00", ClockTime(25, 10, 0));
    assert "25" + ":" + "10" + ":" + "00" == "25:10:00";
  }

  /** Two fields are a `ValueError` in the unpacking. */
  lemma ParseTwoFieldsExample()
    ensures ParseArrivalTime("8:05") == None
  {
    var parts := ["8", "05"];
    assert Join(parts[1..], ':') == "05";
    assert Join(parts, ':') == "8:05";
    SplitJoin(parts, ':');
  }

  /** A non-digit is a `ValueError` in `int()`. */
  lemma ParseLetterExample()
    ensures ParseArrivalTime("08:5a:00") == None
  {
    assert "08:5a:00" == "08" + ":" + "5a" + ":" + "00";
    SplitThree("08", "5a", "00");
    assert !IsDigit("5a"[1]);
  }

  /** A monitored stop's row with either malformed time is passed over, not raised. */
  lemma MalformedTimeRowsSkipped(stopMap: map<string, Stop>, row: Row, now: Now)
    requires ValidNow(now)
    requires row.arrivalTime == Value("8:05") || row.arrivalTime == Value("08:5a:00")
    ensures Classify(stopMap, row, now) == Skip
  {
    ParseTwoFieldsExample();
    ParseLetterExample();
    ClassifyCases(stopMap, row, now);
  }

  lemma ParseMinusOne()
    ensures ParseInt("-1") == Some(-1)
  {
    assert "-1"[1..] == "1";
    assert ParseNat("1") == Some(1);
  }

  /** A negative hour is accepted: one hour before midnight, moved to today's 23:00. */
  lemma NegativeTimeExample()
    ensures ParseArrivalTime("-1:00:00") == Some(ClockTime(-1, 0, 0))
    ensures MinutesUntil(-3600, 12 * 3600 * MicrosPerSecond) == 660
  {
    ParseMinusOne();
    ParseTwoDigits("00");
    ParseThree("-1", "00", "00", ClockTime(-1, 0, 0));
    assert "-1" + ":" + "00" + ":" + "00" == "-1:00:00";
  }

  /**
   * A time that lies more than a day before now is still in the past after
   * the one-day move, and `max(0, ...)` reports it as 0 minutes away.
   */
  lemma LongPastTimeIsDue(offset: int, time: int)
    requires ValidTime(time) && offset * MicrosPerSecond + MicrosPerDay < time
    ensures NextOccurrence(offset, time) < time
    ensures MinutesUntil(offset, time) == 0
  {
  }

  /** "-30:00:00" at noon: yesterday's 18:00 after the move, so 0 minutes. */
  lemma FarNegativeTimeExample()
    ensures MinutesUntil(-30 * 3600, 12 * 3600 * MicrosPerSecond) == 0
    ensures NextOccurrence(-30 * 3600, 12 * 3600 * MicrosPerSecond) == -6 * 3600 * MicrosPerSecond
  {
    LongPastTimeIsDue(-30 * 3600, 12 * 3600 * MicrosPerSecond);
  }

  /** The minute count is floored: one microsecond past noon, noon is 1439 minutes away. */
  lemma MinutesAreFloored()
    ensures MinutesUntil(12 * 3600, 12 * 3600 * MicrosPerSecond) == 0
    ensures MinutesUntil(12 * 3600, 12 * 3600 * MicrosPerSecond + 1) == 1439
    ensures MinutesUntil(12 * 3600 + 59, 12 * 3600 * MicrosPerSecond) == 0
  {
  }

  lemma SingleStop(stop: Stop)
    ensures StopMap([stop]) == map[StopKey(stop) := stop]
    ensures StopKeys([stop]) == [StopKey(stop)]
  {
    assert [stop][..0] == [];
  }

  lemma SingleRow(stopMap: map<string, Stop>, row: Row, now: Now, a: Arrival)
    requires ValidNow(now) && Classify(stopMap, row, now) == Keep(a)
    ensures Collected(stopMap, [row], now) == [a]
    ensures !HasFailure(stopMap, [row], now)
  {
    assert [row][..0] == [];
  }

  lemma SingleSorted(a: Arrival)
    ensures SortByMinutes([a]) == [a]
  {
    assert [a][..0] == [];
    assert SortByMinutes([a]) == Insert(a, SortByMinutes([]));
  }

  lemma SingleArrival(a: Arrival)
    ensures SortByMinutes(PerStop([a.stopId], [a])) == [a]
  {
    var k := a.stopId;
    assert [a][..0] == [];
    assert Bucket([a], k) == Bucket([], k) + [a];
    SingleSorted(a);
    assert Soonest([a]) == [a];
    assert [k][..0] == [];
    assert PerStop([k], [a]) == PerStop([], [a]) + Soonest(Bucket([a], k));
  }

  lemma KeepWhenParsed(stopMap: map<string, Stop>, row: Row, now: Now, sid: string, t: ClockTime)
    requires ValidNow(now)
    requires row.stopId == Value(sid) && sid in stopMap
    requires row.arrivalTime.Value? && ParseArrivalTime(row.arrivalTime.text) == Some(t)
    requires ArrivalInstant(OffsetSeconds(t), now).Some?
    ensures Classify(stopMap, row, now) == Keep(MakeArrival(stopMap[sid], sid, row, t, now))
  {
  }

  lemma LateArrivalTime(now: Now)
    requires now == Now(739000, (23 * 3600 + 30 * 60) * MicrosPerSecond)
    ensures ArrivalInstant(25 * 3600 + 10 * 60, now).Some?
    ensures MinutesUntil(25 * 3600 + 10 * 60, now.time) == 100
  {
    assert NextOccurrence(25 * 3600 + 10 * 60, now.time) - now.time == 100 * MicrosPerMinute;
  }

  lemma LateRowKept(stop: Stop, row: Row, now: Now)
    requires stop == Stop(Some("12422"), Some("Niguarda"), Items(["5"]), Missing)
    requires row == Row(Value("12422"), Value("25:10:00"), Value("T1"), NoColumn)
    requires now == Now(739000, (23 * 3600 + 30 * 60) * MicrosPerSecond)
    ensures Classify(map["12422" := stop], row, now) == Keep(Arrival("5", Some("Niguarda"), "12422", NoDestination, 100))
  {
    var t := ClockTime(25, 10, 0);
    ParseLateExample();
    assert OffsetSeconds(t) == 25 * 3600 + 10 * 60;
    LateArrivalTime(now);
    KeepWhenParsed(map["12422" := stop], row, now, "12422", t);
    assert LineLabel(stop, row) == "5";
    assert Destination(row) == NoDestination;
  }

  /** At 23:30 a trip listed at 25:10:00 arrives in 100 minutes, on the same day. */
  lemma AfterMidnightScenario()
    ensures
      var stop := Stop(Some("12422"), Some("Niguarda"), Items(["5"]), Missing);
      var row := Row(Value("12422"), Value("25:10:00"), Value("T1"), NoColumn);
      ArrivalsFor([stop], [row], Now(739000, (23 * 3600 + 30 * 60) * MicrosPerSecond)) ==
        [Arrival("5", Some("Niguarda"), "12422", NoDestination, 100)]
  {
    var stop := Stop(Some("12422"), Some("Niguarda"), Items(["5"]), Missing);
    var row := Row(Value("12422"), Value("25:10:00"), Value("T1"), NoColumn);
    var now := Now(739000, (23 * 3600 + 30 * 60) * MicrosPerSecond);
    var a := Arrival("5", Some("Niguarda"), "12422", NoDestination, 100);
    SingleStop(stop);
    var stopMap := map["12422" := stop];
    LateRowKept(stop, row, now);
    SingleRow(stopMap, row, now, a);
    SingleArrival(a);
  }

  /** One short row of a monitored stop hides every other arrival. */
  lemma ShortRowScenario()
    ensures
      var stop := Stop(Some("12422"), Some("Niguarda"), Items(["5"]), Missing);
      var good := Row(Value("12422"), Value("25:10:00"), Value("T1"), NoColumn);
      var short := Row(Value("12422"), ShortRow, NoColumn, NoColumn);
      ArrivalsFor([stop], [good, short], Now(739000, 0)) == []
  {
    var stop := Stop(Some("12422"), Some("Niguarda"), Items(["5"]), Missing);
    var good := Row(Value("12422"), Value("25:10:00"), Value("T1"), NoColumn);
    var short := Row(Value("12422"), ShortRow, NoColumn, NoColumn);
    assert [stop][..0] == [];
    assert StopMap([stop]) == map["12422" := stop];
    FailingRowEmptiesResult([stop], [good, short], Now(739000, 0), 1);
  }
}
