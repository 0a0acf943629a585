/**
 * `get_arrivals_for_stops` of main.py: the next arrivals
 * at the monitored stops, read from the rows of a GTFS `stop_times.txt`,
 * at most two per stop, sorted by whole minutes until arrival.
 *
 * "now" is a parameter: today's date and the microseconds since today's
 * local midnight, the precision of `datetime.now()`.
 */
module Arrivals {
  import opened Wrappers
  import opened PyText
  import opened Records
  import opened StableSort

  const SecondsPerDay: int := 86400
  const MicrosPerSecond: int := 1000000
  const MicrosPerMinute: int := 60 * MicrosPerSecond
  const MicrosPerDay: int := SecondsPerDay * MicrosPerSecond
  /** The dates a `datetime` can hold: 0001-01-01 up to 9999-12-31. */
  const CalendarDays: int := 3652059
  const NoDestination: string := "Destinazione non disponibile"
  const DefaultLine: string := "Linea"
  /** How many arrivals one stop keeps (`items[:2]`). */
  const PerStopLimit: nat := 2

  /** Microseconds since a midnight, short of the next one. */
  predicate ValidTime(t: int) { 0 <= t < MicrosPerDay }

  /**
   * `datetime.now()`: `date` is the number of days after 0001-01-01 and
   * `time` the microseconds since that day's midnight.
   */
  datatype Now = Now(date: int, time: int)

  predicate ValidNow(now: Now) { 0 <= now.date < CalendarDays && ValidTime(now.time) }

  /** Microseconds after 0001-01-01 00:00 that a `datetime` can hold. */
  predicate Representable(x: int) { 0 <= x < CalendarDays * MicrosPerDay }

  // ----- one row -----

  datatype ClockTime = ClockTime(hours: int, minutes: int, seconds: int)

  /** `h, m, s = map(int, text.split(":"))`; `None` where that raises `ValueError`. */
  function ParseArrivalTime(text: string): (r: Option<ClockTime>)
    ensures var parts := Split(text, ':');
      r.Some? <==> |parts| == 3 && ParseInt(parts[0]).Some? && ParseInt(parts[1]).Some? && ParseInt(parts[2]).Some?
    ensures var parts := Split(text, ':');
      r.Some? ==> r.value == ClockTime(ParseInt(parts[0]).value, ParseInt(parts[1]).value, ParseInt(parts[2]).value)
  {
    var parts := Split(text, ':');
    if |parts| != 3 then None
    else
      match (ParseInt(parts[0]), ParseInt(parts[1]), ParseInt(parts[2]))
      case (Some(h), Some(m), Some(s)) => Some(ClockTime(h, m, s))
      case _ => None
  }

  /** Any three integers written as `h:m:s` parse back to themselves. */
  lemma ParseFormattedTime(h: int, m: int, s: int)
    ensures ParseArrivalTime(ShowInt(h) + ":" + ShowInt(m) + ":" + ShowInt(s)) == Some(ClockTime(h, m, s))
  {
    var parts := [ShowInt(h), ShowInt(m), ShowInt(s)];
    ShowIntHasNoColon(h);
    ShowIntHasNoColon(m);
    ShowIntHasNoColon(s);
    assert Join(parts[2..], ':') == ShowInt(s);
    assert Join(parts[1..], ':') == ShowInt(m) + ":" + ShowInt(s);
    assert Join(parts, ':') == ShowInt(h) + ":" + ShowInt(m) + ":" + ShowInt(s);
    SplitJoin(parts, ':');
    ParseShowInt(h);
    ParseShowInt(m);
    ParseShowInt(s);
  }

  /** Seconds after midnight (`timedelta(hours=h, minutes=m, seconds=s)`), unbounded. */
  function OffsetSeconds(t: ClockTime): int
  {
    t.hours * 3600 + t.minutes * 60 + t.seconds
  }

  /** Dividing `q * 60 + r` by 60 gives back `q` and `r`. */
  lemma DivModSixty(x: int, q: int, r: int)
    requires 0 <= r < 60 && x == q * 60 + r
    ensures x / 60 == q && x % 60 == r
  {
  }

  /** Dividing `q * 3600 + r` by 3600 gives back `q` and `r`. */
  lemma DivModHour(x: int, q: int, r: int)
    requires 0 <= r < 3600 && x == q * 3600 + r
    ensures x / 3600 == q && x % 3600 == r
  {
  }

  /** For fields in their usual ranges the offset splits back into hours, minutes and seconds. */
  lemma OffsetSecondsFields(t: ClockTime)
    requires 0 <= t.hours && 0 <= t.minutes < 60 && 0 <= t.seconds < 60
    ensures OffsetSeconds(t) / 3600 == t.hours
    ensures OffsetSeconds(t) % 3600 / 60 == t.minutes
    ensures OffsetSeconds(t) % 60 == t.seconds
  {
    var x := OffsetSeconds(t);
    var rest := t.minutes * 60 + t.seconds;
    DivModHour(x, t.hours, rest);
    DivModSixty(rest, t.minutes, t.seconds);
    DivModSixty(x, t.hours * 60 + t.minutes, t.seconds);
  }

  /**
   * The arrival instant, in microseconds after today's midnight: the offset
   * taken from today's midnight, moved one day on if that is before now.
   */
  function NextOccurrence(offset: int, time: int): (r: int)
    requires ValidTime(time)
    ensures r == offset * MicrosPerSecond <==> time <= offset * MicrosPerSecond
    ensures r == offset * MicrosPerSecond || r == offset * MicrosPerSecond + MicrosPerDay
    ensures 0 <= offset ==> time <= r
    ensures 0 <= offset < SecondsPerDay ==>
      r < time + MicrosPerDay && r % MicrosPerDay == offset * MicrosPerSecond
    ensures SecondsPerDay <= offset ==> r == offset * MicrosPerSecond
  {
    var today := offset * MicrosPerSecond;
    if today < time then today + MicrosPerDay else today
  }

  /** `max(0, int((arrival_dt - now).total_seconds() // 60))`. */
  function MinutesUntil(offset: int, time: int): (m: nat)
    requires ValidTime(time)
    ensures var w := NextOccurrence(offset, time) - time;
      if w < 0 then m == 0 else m * MicrosPerMinute <= w < (m + 1) * MicrosPerMinute
    ensures 0 <= offset < SecondsPerDay ==> m < 24 * 60
  {
    var whole := (NextOccurrence(offset, time) - time) / MicrosPerMinute;
    if whole < 0 then 0 else whole
  }

  /**
   * `arrival_dt` as an absolute instant, or `None` where building it
   * raises `OverflowError`: the sum with today's midnight, or the day added
   * after it, falls outside the dates a `datetime` can hold.
   */
  function ArrivalInstant(offset: int, now: Now): (r: Option<int>)
    requires ValidNow(now)
    ensures r.Some? <==>
      Representable(now.date * MicrosPerDay + offset * MicrosPerSecond) &&
      Representable(now.date * MicrosPerDay + NextOccurrence(offset, now.time))
    ensures r.Some? ==> r.value == now.date * MicrosPerDay + NextOccurrence(offset, now.time)
  {
    var midnight := now.date * MicrosPerDay;
    var first := midnight + offset * MicrosPerSecond;
    if !Representable(first) then None
    else if first < midnight + now.time then
      if Representable(first + MicrosPerDay) then Some(first + MicrosPerDay) else None
    else Some(first)
  }

  /** `row.get("stop_headsign") or "Destinazione non disponibile"`. */
  function Destination(row: Row): (d: string)
    ensures d != ""
    ensures Get(row.stopHeadsign) == Some(d) || d == NoDestination
    ensures row.stopHeadsign.Value? && row.stopHeadsign.text != "" ==> d == row.stopHeadsign.text
  {
    match Get(row.stopHeadsign)
    case Some(h) => if h != "" then h else NoDestination
    case None => NoDestination
  }

  /**
   * The line label: the stop's `line`, or else its `lines`; the first
   * element when that is a non-empty list, the value itself when it is a
   * non-empty string; otherwise the row's `trip_id`, and then "Linea".
   */
  function LineLabel(stop: Stop, row: Row): (name: string)
    ensures stop.line.Items? && |stop.line.items| > 0 ==> name == stop.line.items[0]
    ensures stop.line.Text? && stop.line.text != "" ==> name == stop.line.text
    ensures !Truthy(stop.line) && stop.lines.Items? && |stop.lines.items| > 0 ==> name == stop.lines.items[0]
    ensures !Truthy(stop.line) && stop.lines.Text? && stop.lines.text != "" ==> name == stop.lines.text
    ensures !Truthy(stop.line) && !Truthy(stop.lines) ==>
      name == (if row.tripId.Value? && row.tripId.text != "" then row.tripId.text else DefaultLine)
  {
    var chosen := if Truthy(stop.line) then stop.line else stop.lines;
    match chosen
    case Items(xs) =>
      if |xs| > 0 then xs[0] else TripOrDefault(row)
    case Text(t) =>
      if t != "" then t else TripOrDefault(row)
    case Missing =>
      TripOrDefault(row)
  }

  /** `row.get("trip_id") or "Linea"`. */
  function TripOrDefault(row: Row): (t: string)
    ensures t != ""
    ensures Get(row.tripId) == Some(t) || t == DefaultLine
    ensures row.tripId.Value? && row.tripId.text != "" ==> t == row.tripId.text
  {
    match Get(row.tripId)
    case Some(t) => if t != "" then t else DefaultLine
    case None => DefaultLine
  }

  /** The record appended for a qualifying row of stop `sid`. */
  function MakeArrival(stop: Stop, sid: string, row: Row, t: ClockTime, now: Now): (a: Arrival)
    requires ValidNow(now)
    ensures a.stopId == sid && a.direzione == stop.direzione
    ensures a.destination != ""
    ensures 0 <= OffsetSeconds(t) < SecondsPerDay ==> a.minutes < 24 * 60
  {
    Arrival(LineLabel(stop, row), stop.direzione, sid, Destination(row), MinutesUntil(OffsetSeconds(t), now.time))
  }

  /**
   * What the loop body does with one row: skip it (`continue`), leave the
   * whole computation by an exception (`AttributeError` on a `None`
   * `arrival_time`, `OverflowError` building `arrival_dt`), or append a record.
   */
  datatype RowOutcome = Skip | Fail | Keep(arrival: Arrival)

  function Classify(stopMap: map<string, Stop>, row: Row, now: Now): (o: RowOutcome)
    requires ValidNow(now)
    ensures o.Keep? ==> Get(row.stopId) == Some(o.arrival.stopId) && o.arrival.stopId in stopMap
  {
    match Get(row.stopId)
    case None => Skip
    case Some(sid) =>
      if sid !in stopMap then Skip
      else
        match GetOr(row.arrivalTime, "")
        case None => Fail
        case Some(text) =>
          match ParseArrivalTime(text)
          case None => Skip
          case Some(t) =>
            if ArrivalInstant(OffsetSeconds(t), now).None? then Fail
            else Keep(MakeArrival(stopMap[sid], sid, row, t, now))
  }

  // ----- the monitored stops -----

  /** `str(s.get("stop_id"))`. */
  function StopKey(s: Stop): (k: string)
    ensures s.stopId.Some? ==> k == s.stopId.value
    ensures k == "None" <==> s.stopId.None? || s.stopId == Some("None")
  {
    match s.stopId
    case None => "None"
    case Some(id) => id
  }

  /** `{str(s.get("stop_id")): s for s in stops}`: a later entry replaces an earlier one. */
  function StopMap(stops: seq<Stop>): (m: map<string, Stop>)
    ensures forall i :: 0 <= i < |stops| ==> StopKey(stops[i]) in m
    ensures forall k :: k in m ==> StopKey(m[k]) == k && m[k] in stops
    ensures |stops| > 0 ==> m[StopKey(stops[|stops| - 1])] == stops[|stops| - 1]
    decreases |stops|
  {
    if |stops| == 0 then map[]
    else StopMap(stops[..|stops| - 1])[StopKey(stops[|stops| - 1]) := stops[|stops| - 1]]
  }

  /** The keys of `StopMap(stops)` in dict order: each id once, at its first appearance. */
  function StopKeys(stops: seq<Stop>): (keys: seq<string>)
    ensures forall i, j :: 0 <= i < j < |keys| ==> keys[i] != keys[j]
    ensures forall k :: k in keys <==> k in StopMap(stops)
    decreases |stops|
  {
    if |stops| == 0 then []
    else
      var earlier := StopKeys(stops[..|stops| - 1]);
      var k := StopKey(stops[|stops| - 1]);
      if k in earlier then earlier else earlier + [k]
  }

  /** No entry after position `i` carries the id `k`. */
  ghost predicate NoLaterWith(stops: seq<Stop>, i: nat, k: string)
  {
    forall j :: i < j < |stops| ==> StopKey(stops[j]) != k
  }

  lemma NoLaterExtend(stops: seq<Stop>, i: nat, k: string)
    requires i < |stops| - 1 && StopKey(stops[|stops| - 1]) != k
    requires NoLaterWith(stops[..|stops| - 1], i, k)
    ensures NoLaterWith(stops, i, k)
  {
    var n := |stops| - 1;
    forall j | i < j < |stops| ensures StopKey(stops[j]) != k {
      if j < n { assert stops[j] == stops[..n][j]; }
    }
  }

  /** Each key holds the last entry with that id: no later entry carries the same id. */
  lemma {:induction false} StopMapLastWins(stops: seq<Stop>, k: string)
    requires k in StopMap(stops)
    ensures exists i :: 0 <= i < |stops| && stops[i] == StopMap(stops)[k] && NoLaterWith(stops, i, k)
    decreases |stops|
  {
    var n := |stops| - 1;
    var earlier := stops[..n];
    var m := StopMap(stops);
    assert m == StopMap(earlier)[StopKey(stops[n]) := stops[n]];
    if k == StopKey(stops[n]) {
      assert NoLaterWith(stops, n, k);
    } else {
      assert k in StopMap(earlier) && m[k] == StopMap(earlier)[k];
      StopMapLastWins(earlier, k);
      var i :| 0 <= i < n && earlier[i] == StopMap(earlier)[k] && NoLaterWith(earlier, i, k);
      NoLaterExtend(stops, i, k);
      assert stops[i] == m[k];
    }
  }

  /** An id occurs in the dict only through an entry that carries it. */
  lemma StopKeyOccurs(stops: seq<Stop>, k: string)
    requires k in StopKeys(stops)
    ensures exists q :: 0 <= q < |stops| && StopKey(stops[q]) == k
  {
    var q :| 0 <= q < |stops| && stops[q] == StopMap(stops)[k];
  }

  /** Some entry before position `q` carries the id `k`. */
  ghost predicate OccursBefore(stops: seq<Stop>, q: int, k: string)
  {
    exists p :: 0 <= p < q && p < |stops| && StopKey(stops[p]) == k
  }

  /**
   * `StopKeys` lists the ids in order of first appearance: wherever the id of
   * a later key occurs, the id of every earlier key has already occurred.
   */
  ghost predicate FirstAppearanceOrder(stops: seq<Stop>)
  {
    var keys := StopKeys(stops);
    forall i, j, q :: 0 <= i < j < |keys| && 0 <= q < |stops| && StopKey(stops[q]) == keys[j] ==>
      OccursBefore(stops, q, keys[i])
  }

  /** An occurrence in a prefix is an occurrence in the whole sequence, at least as early. */
  lemma OccursBeforeExtend(stops: seq<Stop>, n: int, q': int, q: int, k: string)
    requires 0 <= n <= |stops| && q' <= q
    requires OccursBefore(stops[..n], q', k)
    ensures OccursBefore(stops, q, k)
  {
    var p :| 0 <= p < q' && p < n && StopKey(stops[..n][p]) == k;
    assert stops[p] == stops[..n][p];
  }

  /** Step case of a key that was already present before the last stop. */
  lemma FirstAppearanceOldKey(stops: seq<Stop>, i: int, j: int, q: int)
    requires |stops| > 0 && FirstAppearanceOrder(stops[..|stops| - 1])
    requires 0 <= i < j < |StopKeys(stops[..|stops| - 1])| && 0 <= q < |stops|
    requires StopKey(stops[q]) == StopKeys(stops[..|stops| - 1])[j]
    ensures OccursBefore(stops, q, StopKeys(stops[..|stops| - 1])[i])
  {
    var n := |stops| - 1;
    var earlier := stops[..n];
    var ek := StopKeys(earlier);
    var q' := q;
    if q == n {
      StopKeyOccurs(earlier, ek[j]);
      q' :| 0 <= q' < n && StopKey(earlier[q']) == ek[j];
    } else {
      assert earlier[q] == stops[q];
    }
    assert OccursBefore(earlier, q', ek[i]);
    OccursBeforeExtend(stops, n, q', q, ek[i]);
  }

  /** Every id among the first `n` stops is a key of their dict. */
  lemma PrefixKeys(stops: seq<Stop>, n: nat)
    requires n <= |stops|
    ensures forall q :: 0 <= q < n ==> StopKey(stops[q]) in StopKeys(stops[..n])
  {
    forall q | 0 <= q < n ensures StopKey(stops[q]) in StopKeys(stops[..n]) {
      assert stops[q] == stops[..n][q];
    }
  }

  /** Step case of the id the last stop adds. */
  lemma FirstAppearanceNewKey(stops: seq<Stop>, i: int, q: int)
    requires |stops| > 0
    requires StopKey(stops[|stops| - 1]) !in StopKeys(stops[..|stops| - 1])
    requires 0 <= i < |StopKeys(stops[..|stops| - 1])| && 0 <= q < |stops|
    requires StopKey(stops[q]) == StopKey(stops[|stops| - 1])
    ensures OccursBefore(stops, q, StopKeys(stops[..|stops| - 1])[i])
  {
    var n := |stops| - 1;
    var earlier := stops[..n];
    var k := StopKeys(earlier)[i];
    PrefixKeys(stops, n);
    assert q == n;
    StopKeyOccurs(earlier, k);
    var p :| 0 <= p < n && StopKey(earlier[p]) == k;
    assert OccursBefore(earlier, n, k);
    OccursBeforeExtend(stops, n, n, q, k);
  }

  lemma FirstAppearanceStep(stops: seq<Stop>, i: int, j: int, q: int)
    requires |stops| > 0 && FirstAppearanceOrder(stops[..|stops| - 1])
    requires 0 <= i < j < |StopKeys(stops)| && 0 <= q < |stops|
    requires StopKey(stops[q]) == StopKeys(stops)[j]
    ensures OccursBefore(stops, q, StopKeys(stops)[i])
  {
    var ek := StopKeys(stops[..|stops| - 1]);
    var last := StopKey(stops[|stops| - 1]);
    var keys := StopKeys(stops);
    if last in ek {
      assert keys == ek;
      FirstAppearanceOldKey(stops, i, j, q);
    } else {
      assert keys == ek + [last];
      if j < |ek| {
        assert keys[j] == ek[j];
        FirstAppearanceOldKey(stops, i, j, q);
      } else {
        FirstAppearanceNewKey(stops, i, q);
      }
      assert keys[i] == ek[i];
    }
  }

  lemma {:induction false} StopKeysFirstAppearance(stops: seq<Stop>)
    ensures FirstAppearanceOrder(stops)
    decreases |stops|
  {
    if |stops| > 0 {
      StopKeysFirstAppearance(stops[..|stops| - 1]);
      var keys := StopKeys(stops);
      forall i, j, q | 0 <= i < j < |keys| && 0 <= q < |stops| && StopKey(stops[q]) == keys[j]
        ensures OccursBefore(stops, q, keys[i])
      {
        FirstAppearanceStep(stops, i, j, q);
      }
    }
  }

  // ----- all rows -----

  /** The records of the qualifying rows, in file order. */
  function Collected(stopMap: map<string, Stop>, rows: seq<Row>, now: Now): (c: seq<Arrival>)
    requires ValidNow(now)
    ensures forall i :: 0 <= i < |c| ==> c[i].stopId in stopMap
    decreases |rows|
  {
    if |rows| == 0 then []
    else
      Collected(stopMap, rows[..|rows| - 1], now) +
      match Classify(stopMap, rows[|rows| - 1], now)
      case Keep(a) => [a]
      case _ => []
  }

  /** The records of `s` for stop `sid`, in order: `arrivals_by_stop[sid]`. */
  function Bucket(s: seq<Arrival>, sid: string): (b: seq<Arrival>)
    ensures |b| <= |s|
    ensures forall i :: 0 <= i < |b| ==> b[i].stopId == sid
    decreases |s|
  {
    if |s| == 0 then []
    else Bucket(s[..|s| - 1], sid) + (if s[|s| - 1].stopId == sid then [s[|s| - 1]] else [])
  }

  /** `items.sort(key=minutes)` then `items[:2]`. */
  function Soonest(items: seq<Arrival>): (r: seq<Arrival>)
    ensures |r| == if |items| < PerStopLimit then |items| else PerStopLimit
  {
    var sorted := SortByMinutes(items);
    if |sorted| <= PerStopLimit then sorted else sorted[..PerStopLimit]
  }

  /** `results.extend(...)` over the stops in dict order. */
  function PerStop(keys: seq<string>, c: seq<Arrival>): (r: seq<Arrival>)
    ensures |r| <= PerStopLimit * |keys|
    decreases |keys|
  {
    if |keys| == 0 then []
    else PerStop(keys[..|keys| - 1], c) + Soonest(Bucket(c, keys[|keys| - 1]))
  }

  /** Some row raises out of the loop. */
  predicate HasFailure(stopMap: map<string, Stop>, rows: seq<Row>, now: Now)
    requires ValidNow(now)
  {
    exists i :: 0 <= i < |rows| && Classify(stopMap, rows[i], now).Fail?
  }

  /** A row that raises anywhere in the file ends the loop: failure of a concatenation is failure of either part. */
  lemma FailureAppend(stopMap: map<string, Stop>, a: seq<Row>, b: seq<Row>, now: Now)
    requires ValidNow(now)
    ensures HasFailure(stopMap, a + b, now) <==> HasFailure(stopMap, a, now) || HasFailure(stopMap, b, now)
  {
    var ab := a + b;
    if HasFailure(stopMap, a, now) {
      var i :| 0 <= i < |a| && Classify(stopMap, a[i], now).Fail?;
      assert ab[i] == a[i];
    }
    if HasFailure(stopMap, b, now) {
      var i :| 0 <= i < |b| && Classify(stopMap, b[i], now).Fail?;
      assert ab[|a| + i] == b[i];
    }
    if HasFailure(stopMap, ab, now) {
      var i :| 0 <= i < |ab| && Classify(stopMap, ab[i], now).Fail?;
      if i < |a| { assert ab[i] == a[i]; } else { assert ab[i] == b[i - |a|]; }
    }
  }

  /** The value `get_arrivals_for_stops(stops)` returns once the file is read into `rows`. */
  function ArrivalsFor(stops: seq<Stop>, rows: seq<Row>, now: Now): (r: seq<Arrival>)
    requires ValidNow(now)
    ensures |r| <= PerStopLimit * |StopKeys(stops)|
    ensures HasFailure(StopMap(stops), rows, now) ==> r == []
  {
    var stopMap := StopMap(stops);
    if HasFailure(stopMap, rows, now) then []
    else SortByMinutes(PerStop(StopKeys(stops), Collected(stopMap, rows, now)))
  }

  // ----- the imperative computation -----

  lemma CollectedStep(stopMap: map<string, Stop>, rows: seq<Row>, i: nat, now: Now)
    requires ValidNow(now) && i < |rows|
    ensures Collected(stopMap, rows[..i + 1], now) ==
      Collected(stopMap, rows[..i], now) +
      match Classify(stopMap, rows[i], now)
      case Keep(a) => [a]
      case _ => []
  {
    assert rows[..i + 1][..i] == rows[..i];
  }

  lemma CollectedKeep(stopMap: map<string, Stop>, rows: seq<Row>, i: nat, now: Now, a: Arrival)
    requires ValidNow(now) && i < |rows| && Classify(stopMap, rows[i], now) == Keep(a)
    ensures Collected(stopMap, rows[..i + 1], now) == Collected(stopMap, rows[..i], now) + [a]
  {
    CollectedStep(stopMap, rows, i, now);
  }

  lemma CollectedSkip(stopMap: map<string, Stop>, rows: seq<Row>, i: nat, now: Now)
    requires ValidNow(now) && i < |rows| && Classify(stopMap, rows[i], now).Skip?
    ensures Collected(stopMap, rows[..i + 1], now) == Collected(stopMap, rows[..i], now)
  {
    CollectedStep(stopMap, rows, i, now);
    assert Collected(stopMap, rows[..i], now) + [] == Collected(stopMap, rows[..i], now);
  }

  lemma BucketSnoc(s: seq<Arrival>, a: Arrival, sid: string)
    ensures Bucket(s + [a], sid) == Bucket(s, sid) + (if a.stopId == sid then [a] else [])
  {
    assert (s + [a])[..|s|] == s;
  }

  /** `byStop` holds, for every monitored stop, that stop's records of `kept`. */
  predicate BucketsOf(byStop: map<string, seq<Arrival>>, stopMap: map<string, Stop>, kept: seq<Arrival>)
  {
    byStop.Keys == stopMap.Keys &&
    forall sid :: sid in byStop ==> byStop[sid] == Bucket(kept, sid)
  }

  /** `{sid: [] for sid in stop_map}`. */
  function EmptyBuckets(stopMap: map<string, Stop>): (byStop: map<string, seq<Arrival>>)
    ensures BucketsOf(byStop, stopMap, [])
  {
    map sid | sid in stopMap :: []
  }

  lemma AppendKeepsBuckets(byStop: map<string, seq<Arrival>>, stopMap: map<string, Stop>, kept: seq<Arrival>, a: Arrival)
    requires BucketsOf(byStop, stopMap, kept) && a.stopId in stopMap
    ensures BucketsOf(byStop[a.stopId := byStop[a.stopId] + [a]], stopMap, kept + [a])
  {
    forall k | k in byStop { BucketSnoc(kept, a, k); }
  }

  lemma NoFailureStep(stopMap: map<string, Stop>, rows: seq<Row>, i: nat, now: Now)
    requires ValidNow(now) && i < |rows|
    requires !HasFailure(stopMap, rows[..i], now)
    ensures HasFailure(stopMap, rows[..i + 1], now) <==> Classify(stopMap, rows[i], now).Fail?
    ensures Classify(stopMap, rows[i], now).Fail? ==> HasFailure(stopMap, rows, now)
  {
    var next := rows[..i + 1];
    if Classify(stopMap, rows[i], now).Fail? {
      assert next[i] == rows[i];
    } else {
      forall j | 0 <= j < |next| ensures !Classify(stopMap, next[j], now).Fail? {
        if j < i { assert next[j] == rows[..i][j]; }
      }
    }
  }

  lemma PerStopStep(keys: seq<string>, c: seq<Arrival>, j: nat)
    requires j < |keys|
    ensures PerStop(keys[..j + 1], c) == PerStop(keys[..j], c) + Soonest(Bucket(c, keys[j]))
  {
    assert keys[..j + 1][..j] == keys[..j];
  }

  /** The loop body for row `i`: append its record to its stop's list, or report that it raises. */
  method AddRow(stopMap: map<string, Stop>, rows: seq<Row>, i: nat, now: Now,
                byStop: map<string, seq<Arrival>>, ghost kept: seq<Arrival>)
    returns (next: map<string, seq<Arrival>>, ghost nextKept: seq<Arrival>, failed: bool)
    requires ValidNow(now) && i < |rows|
    requires !HasFailure(stopMap, rows[..i], now)
    requires kept == Collected(stopMap, rows[..i], now)
    requires BucketsOf(byStop, stopMap, kept)
    ensures failed <==> Classify(stopMap, rows[i], now).Fail?
    ensures failed ==> HasFailure(stopMap, rows, now)
    ensures !failed ==> !HasFailure(stopMap, rows[..i + 1], now)
    ensures !failed ==> nextKept == Collected(stopMap, rows[..i + 1], now)
    ensures !failed ==> BucketsOf(next, stopMap, nextKept)
  {
    NoFailureStep(stopMap, rows, i, now);
    var outcome := Classify(stopMap, rows[i], now);
    next, nextKept, failed := byStop, kept, false;
    if outcome.Fail? {
      failed := true;
    } else if outcome.Keep? {
      var arrival := outcome.arrival;
      CollectedKeep(stopMap, rows, i, now, arrival);
      AppendKeepsBuckets(byStop, stopMap, kept, arrival);
      next := byStop[arrival.stopId := byStop[arrival.stopId] + [arrival]];
      nextKept := kept + [arrival];
    } else {
      CollectedSkip(stopMap, rows, i, now);
    }
  }

  /**
   * The row loop: `arrivals_by_stop[sid].append(...)` for every qualifying
   * row; `failed` when a row raises and the loop is left by the exception.
   */
  method CollectByStop(stopMap: map<string, Stop>, rows: seq<Row>, now: Now)
    returns (arrivalsByStop: map<string, seq<Arrival>>, failed: bool)
    requires ValidNow(now)
    ensures failed <==> HasFailure(stopMap, rows, now)
    ensures !failed ==> BucketsOf(arrivalsByStop, stopMap, Collected(stopMap, rows, now))
  {
    arrivalsByStop := EmptyBuckets(stopMap);
    ghost var kept: seq<Arrival> := [];
    assert rows[..0] == [];
    var i := 0;
    while i < |rows|
      invariant 0 <= i <= |rows|
      invariant !HasFailure(stopMap, rows[..i], now)
      invariant kept == Collected(stopMap, rows[..i], now)
      invariant BucketsOf(arrivalsByStop, stopMap, kept)
    {
      arrivalsByStop, kept, failed := AddRow(stopMap, rows, i, now, arrivalsByStop, kept);
      if failed {
        return;
      }
      i := i + 1;
    }
    assert rows[..i] == rows;
    failed := false;
  }

  /** `for sid, items in arrivals_by_stop.items(): items.sort(...); results.extend(items[:2])`. */
  method ExtendSoonest(order: seq<string>, arrivalsByStop: map<string, seq<Arrival>>, ghost collected: seq<Arrival>)
    returns (results: seq<Arrival>)
    requires forall k :: k in order ==> k in arrivalsByStop && arrivalsByStop[k] == Bucket(collected, k)
    ensures results == PerStop(order, collected)
  {
    results := [];
    for j := 0 to |order|
      invariant results == PerStop(order[..j], collected)
    {
      PerStopStep(order, collected, j);
      var items := SortByMinutes(arrivalsByStop[order[j]]);
      results := results + (if |items| <= PerStopLimit then items else items[..PerStopLimit]);
    }
    assert order[..|order|] == order;
  }

  /** `get_arrivals_for_stops(stops)` on the rows of `stop_times.txt`, at time `now`. */
  method GetArrivalsForStops(stops: seq<Stop>, rows: seq<Row>, now: Now) returns (results: seq<Arrival>)
    requires ValidNow(now)
    ensures results == ArrivalsFor(stops, rows, now)
  {
    var stopMap := StopMap(stops);
    var arrivalsByStop, failed := CollectByStop(stopMap, rows, now);
    if failed {
      return [];
    }
    var order := StopKeys(stops);
    results := ExtendSoonest(order, arrivalsByStop, Collected(stopMap, rows, now));
    results := SortByMinutes(results);
  }
}
