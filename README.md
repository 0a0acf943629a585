# Next arrivals at monitored bus stops

This project is a Dafny model of the arrival computation in `main.py`. The
program shows upcoming public-transport arrivals on an e-paper display. The
model covers its core:

- **`get_arrivals_for_stops(stops)`** reads the GTFS `stop_times.txt` rows.
  For each row it:
  - keeps only rows whose `stop_id` is a monitored stop;
  - parses `arrival_time` as `h:m:s`;
  - places the time today, or tomorrow if it has already passed;
  - computes the whole minutes until it;
  - picks a destination and a line label.

  Then, for each stop, it sorts that stop's arrivals by minutes and keeps
  the first two. Last, it sorts the whole result by minutes. Any exception
  raised inside the loop makes the function return `[]`.
- **`get_arrivals(stop_id, line)`** keeps those nearby stops whose id
  matches `stop_id`, in their order. If no stop matches, it keeps them all.
  Then it calls the function above.
- **The display's time text**: "In arrivo", "1 min", or "N min".

Modules:

- `Wrappers`: `Option`.
- `PyText`: the Python string builtins the core relies on:
  - `str.split` with a one-character separator, with its inverse `Join`;
  - `int()` on a string;
  - `str()` of an integer.
- `Records`: stop entries, `csv.DictReader` rows and the result records.
  - A row is reduced to the four columns that are read.
  - Each column is one of three cases: the header has no such column, the
    row is too short (`None`), or the field's text. These are the three
    ways `row.get` can answer.
- `StableSort`: `list.sort(key=minutes)`.
  - It is an insertion sort.
  - It is proved sorted, a permutation and stable.
  - It is proved to be the only sorted arrangement that keeps equal keys in
    their original order, so it is Python's sort.
- `Arrivals`:
  - the per-row arithmetic;
  - the dict of monitored stops;
  - the imperative row loop and the per-stop selection loop, as methods;
  - the function `ArrivalsFor`, which the methods are proved to compute.
- `ArrivalProperties`: what the result promises, proved of `ArrivalsFor`.
- `NearbyArrivals`: `get_arrivals`.
- `Display`: the minutes label.

Inputs the core reads from the environment become parameters:

- The clock (`datetime.now()`) is `Now(date, time)`.
  - `date` is days after 0001-01-01.
  - `time` is microseconds since local midnight.
- The contents of `stop_times.txt` are a sequence of rows.
- The result of `get_nearby_stops()` is the `nearby` sequence.

Modelling choices:

- The time arithmetic is exact integer arithmetic in microseconds.
- `arrival_dt < now` holds exactly when the offset from midnight is earlier
  than the time of day.
- `// 60` on non-negative numbers is Dafny's division.
- The `stop_id` dict follows Python semantics:
  - A later entry with the same id replaces the earlier value.
  - The key keeps the position of its first appearance.
  - `StopKeys` gives that iteration order.
- A stop without `stop_id` has the key `"None"`, because that is what
  `str(None)` gives.
- Two exceptions raised inside the loop end the computation, and the model
  includes both:
  - the `AttributeError` of `None.split(":")`, for a row of a monitored
    stop that is shorter than the header;
  - the `OverflowError` of a `datetime` outside years 1 to 9999.

  A single such row makes the whole result `[]`.
- Only a row that raises `ValueError` is skipped on its own. Any other
  exception ends the whole computation.
- A negative field is accepted. `"-1:00:00"` lands at 23:00 of the previous
  day, which has passed, so it moves to 23:00 today.

## Model

| member | source | states |
|---|---|---|
| `PyText.Split` | main.py:77 | `str.split(":")` yields at least one part, and no part contains the separator |
| `PyText.JoinSplit` | main.py:77 | joining the parts of a split rebuilds the text |
| `PyText.SplitJoin` | main.py:77 | splitting a join of separator-free parts gives those parts back |
| `PyText.ParseInt` | main.py:77 | `int()` accepts exactly the strings made of ASCII digits with an optional leading sign, so a lone sign is a `ValueError`; it gives the digits' decimal value with that sign |
| `PyText.ParseShowInt` | main.py:77 | every integer's decimal text parses back to that integer |
| `PyText.ShowNat` | main.py:213 | `str(n)` of a natural number is a non-empty digit string, `"0"` for 0 and without a leading zero otherwise |
| `PyText.DigitsOfShowNat` | main.py:213 | the digits of `str(n)` read back as n, so the text is n's decimal form |
| `PyText.ShowInt` | main.py:77 | `str(i)` is non-empty, starts with `-` exactly for a negative i, and is all digits otherwise |
| `Records.Get` | main.py:71 | `row.get(name)` gives the field's text exactly when the row has that field, and `None` for a missing column or a short row |
| `Records.GetOr` | main.py:75 | `row.get(name, default)` gives the default for a missing column and otherwise what `row.get(name)` gives |
| `Records.Truthy` | main.py:89-90 | `None` is falsy, and a string or a list is truthy exactly when it is non-empty |
| `Arrivals.ParseArrivalTime` | main.py:77 | the text parses exactly when it splits on `:` into three fields that `int()` each accepts, and then gives those three values as hours, minutes and seconds |
| `Arrivals.ParseFormattedTime` | main.py:75-77 | any three integers written `h:m:s` unpack to exactly those three values |
| `Arrivals.OffsetSecondsFields` | main.py:81 | for hours of 0 or more and minutes and seconds below 60, the seconds after midnight split back into those hours, minutes and seconds |
| `Arrivals.NextOccurrence` | main.py:81-83 | the offset from today's midnight is kept exactly when it is not before now, and otherwise moved one day on; for a non-negative offset the arrival is never before now; a time within a day lands less than a day ahead, at the right time of day; a time of 24:00:00 or later stays on today's date |
| `Arrivals.MinutesUntil` | main.py:85 | a wait that is still negative after the move gives 0 minutes; otherwise the minutes are the floor of the wait in minutes, fewer than 1440 for a time within a day |
| `Arrivals.ArrivalInstant` | main.py:81-83 | building `arrival_dt` succeeds exactly when both today's sum and the moved-forward value are dates a `datetime` can hold; its value is today's midnight plus the next occurrence |
| `Arrivals.Destination` | main.py:86 | the destination is never empty; it is the non-empty `stop_headsign`, or else "Destinazione non disponibile" |
| `Arrivals.LineLabel` | main.py:89-93 | the label is the first element or the text of the truthy one of `line`/`lines`, else a non-empty `trip_id`, else "Linea" |
| `Arrivals.TripOrDefault` | main.py:93 | the fallback label is never empty: the non-empty `trip_id`, or else "Linea" |
| `Arrivals.MakeArrival` | main.py:95-101 | the record carries the row's stop id and the stop's `direzione`, a non-empty destination, and fewer than 1440 minutes for a time within a day |
| `Arrivals.Classify` | main.py:71-101 | a row yields a record only for a monitored stop whose id the row carries |
| `Arrivals.StopKey` | main.py:64 | the key of a stop with a string id is that id, and the key is `"None"` exactly for a stop without id or with the id "None" |
| `Arrivals.StopMap` | main.py:64 | every entry's `str(stop_id)` is a key, each key maps to an entry with that id, and the final entry of the list is the value of its id |
| `Arrivals.StopMapLastWins` | main.py:64 | each key maps to the last entry with that id: no later entry carries it |
| `Arrivals.StopKeys` | main.py:65 | the iteration order of `arrivals_by_stop` lists each monitored id exactly once, and only those ids |
| `Arrivals.StopKeysFirstAppearance` | main.py:64-65 | the ids come in order of first appearance: wherever a later key's id occurs, every earlier key's id has occurred before |
| `Arrivals.Collected` | main.py:70-101 | every qualifying row's record belongs to a monitored stop |
| `Arrivals.Bucket` | main.py:95 | a stop's list holds only that stop's records |
| `Arrivals.EmptyBuckets` | main.py:65 | `arrivals_by_stop` starts with an empty list for every monitored stop |
| `Arrivals.AddRow` | main.py:71-101 | one loop step raises exactly when that row raises, and then some row raises; otherwise it appends the row's record, if any, to its stop's list, keeping every list equal to that stop's records so far |
| `Arrivals.CollectByStop` | main.py:70-101 | the loop fails exactly when some row raises; otherwise every stop's list holds that stop's qualifying records in file order |
| `Arrivals.Soonest` | main.py:105-106 | one stop keeps min(2, n) of its n records; `SoonestAreSmallest` says which |
| `Arrivals.PerStop` | main.py:103-106 | the concatenation holds at most two records per key |
| `Arrivals.ExtendSoonest` | main.py:103-106 | the concatenation, in dict order, of each stop's first two records after sorting |
| `Arrivals.FailureAppend` | main.py:70-116 | a row raising anywhere makes the whole loop raise: rows raise in a concatenation exactly when they raise in one of its parts |
| `Arrivals.ArrivalsFor` | main.py:58-116 | at most two results per monitored id, and none when a row raises; the `Result` lemmas below give the rest |
| `Arrivals.GetArrivalsForStops` | main.py:58-116 | the method returns exactly `ArrivalsFor`, whose properties follow |
| `StableSort.SortByMinutes` | main.py:105-108 | sorting keeps the length; the four lemmas below make it exactly `list.sort(key=minutes)` |
| `StableSort.SortIsSorted` | main.py:108 | the sorted list is in non-decreasing order of minutes |
| `StableSort.SortPermutes` | main.py:108 | sorting is a permutation |
| `StableSort.SortIsStable` | main.py:108 | records with equal minutes keep their relative order |
| `StableSort.StableSortIsUnique` | main.py:108 | any sorted arrangement that keeps equal minutes in order is the model's sort |
| `ArrivalProperties.UnmonitoredRowSkipped` | main.py:71-73 | a row without a monitored `stop_id` is passed over |
| `ArrivalProperties.ShortArrivalFails` | main.py:75-77 | a monitored stop's row too short to hold `arrival_time` raises |
| `ArrivalProperties.MissingArrivalColumnSkipped` | main.py:75-79 | without an `arrival_time` column the default `""` is a `ValueError` and the row is skipped |
| `ArrivalProperties.KeptRowMeaning` | main.py:75-101 | a kept row had a three-field integer time that did not overflow; its record holds the stop's `direzione`, the line label, the destination and the minutes until that time |
| `ArrivalProperties.ClassifyCases` | main.py:71-101 | a row is passed over exactly when its stop is not monitored or its time text is not three integer fields; it raises exactly when a monitored stop's row is too short or its time overflows; otherwise it is kept |
| `ArrivalProperties.MalformedTimeRowsSkipped` | main.py:75-79 | rows with time "8:05" or "08:5a:00" are passed over, not raised |
| `ArrivalProperties.OrdinaryTimesFit` | main.py:81-83 | a time within a day never overflows before 9999-12-31 |
| `ArrivalProperties.PastTimeOverflowsOnLastDay` | main.py:82-83 | on 9999-12-31 a time already past raises when moved to the next day |
| `ArrivalProperties.LongPastTimeIsDue` | main.py:81-85 | a time more than a day before now is still past after the one-day move, and `max(0, ...)` gives 0 minutes |
| `ArrivalProperties.SoonestAreSmallest` | main.py:105-106 | a stop keeps min(2, n) of its records, sorted, drawn from its own, and none later than one left out |
| `ArrivalProperties.SortThenBucket` | main.py:108 | taking one stop's records of the sorted result gives that stop's records sorted |
| `ArrivalProperties.PerStopBucket` | main.py:103-106 | each stop's records in the concatenation are exactly its two soonest |
| `ArrivalProperties.ResultSorted` | main.py:108 | the result is sorted by minutes |
| `ArrivalProperties.ResultFromMonitoredRows` | main.py:70-109 | every result comes from a qualifying row and belongs to a monitored stop |
| `ArrivalProperties.ResultPerStop` | main.py:103-109 | for every monitored stop, its records in the result are exactly its soonest qualifying ones, in order |
| `ArrivalProperties.ResultBounded` | main.py:103-106 | at most two results per distinct monitored stop id |
| `ArrivalProperties.ResultStable` | main.py:104-108 | results with equal minutes keep the per-stop concatenation's order |
| `ArrivalProperties.FailingRowEmptiesResult` | main.py:113-116 | one row that raises makes the result empty |
| `ArrivalProperties.ResultEmptyIff` | main.py:58-116 | the result is empty exactly when a row raises or no row qualifies |
| `ArrivalProperties.SkippedRowIrrelevant` | main.py:71-79 | removing a row that is passed over does not change the result |
| `ArrivalProperties.ParseEarlyExample` | main.py:77 | "08:05:00" unpacks to 8, 5, 0 |
| `ArrivalProperties.ParseLateExample` | main.py:77 | "25:10:00", a GTFS time after midnight, unpacks to 25, 10, 0 |
| `ArrivalProperties.ParseTwoFieldsExample` | main.py:77-79 | "8:05" is a `ValueError` |
| `ArrivalProperties.ParseLetterExample` | main.py:77-79 | "08:5a:00" is a `ValueError` |
| `ArrivalProperties.NegativeTimeExample` | main.py:77-85 | "-1:00:00" is accepted; at noon it is an arrival 660 minutes away, at 23:00 |
| `ArrivalProperties.FarNegativeTimeExample` | main.py:81-85 | "-30:00:00" at noon lands at yesterday's 18:00 and is 0 minutes away |
| `ArrivalProperties.MinutesAreFloored` | main.py:85 | an arrival at exactly now is 0 minutes away; one microsecond after noon, noon is 1439 minutes away |
| `ArrivalProperties.AfterMidnightScenario` | main.py:81-101 | at 23:30 a 25:10:00 trip of a monitored stop is reported 100 minutes away, with the stop's line and the default destination |
| `ArrivalProperties.ShortRowScenario` | main.py:113-116 | a short row of a monitored stop hides a good arrival |
| `NearbyArrivals.Matching` | main.py:124 | the filtered list holds exactly the stops whose `str(stop_id)` equals the id, and is no longer than the input |
| `NearbyArrivals.MatchingAppend` | main.py:124 | filtering keeps the input order: the filter of a concatenation is the concatenation of the filters |
| `NearbyArrivals.SelectStops` | main.py:123-124 | without an id, or with an id no stop has, all stops are used; otherwise exactly the filtered list |
| `NearbyArrivals.SelectedStopsOnly` | main.py:120-125 | results belong to nearby stops, and to the named stop when it exists |
| `NearbyArrivals.GetArrivals` | main.py:120-125 | the results are sorted and belong to nearby stops; with a matching id they all belong to it; otherwise they are those of all nearby stops |
| `NearbyArrivals.GetArrivalsAtStop` | main.py:120-125 | with an id a nearby stop carries, the result is that stop's soonest qualifying arrivals in order, or nothing when one of that stop's own rows raises; other stops' rows play no part |
| `NearbyArrivals.GetArrivalsAtStopExact` | main.py:120-125 | when no row raises, the result for a matching id is the two soonest of that stop's records among those all nearby stops yield |
| `Display.MinutesLabel` | main.py:207-213 | "In arrivo" exactly for 0 minutes, and "N min" with N's decimal text for every other value, 1 included |
| `Display.LabelGivesMinutes` | main.py:213 | the number in a label reads back as the minutes it was drawn for |

## Left out

- Opening and reading `stop_times.txt` is not modelled. This covers the
  `FileNotFoundError` path and csv parsing errors. The rows are a
  parameter.
- `datetime.now()` is not modelled; the clock is a parameter.
- `get_nearby_stops()` is not modelled; its result is a parameter (`nearby`).
- The `line` argument of `get_arrivals` is not a parameter, because the
  source never uses it.
- `total_seconds()` returns a float, and the model does not capture its
  rounding. The model divides exactly. The two can differ only for waits of
  about 2^53 microseconds (roughly 285 years) or more.
- `ParseInt`: does not accept surrounding whitespace, `_` between digits, or
  non-ASCII digits, all of which Python's `int()` accepts. A row written
  that way is skipped in the model but kept by the program.
- `ParseInt`: does not model CPython's limit of 4300 digits for `int()` on a
  string. In the program such a field is a `ValueError` and the row is
  skipped. In the model the field is parsed. A value with that many
  significant digits then overflows in `ArrivalInstant` and empties the
  result. A field padded with zeros, such as 4300 zeros followed by `8`,
  parses to a small value, so the model keeps a row that the program skips.
- The `print` of the error message in the two `except` branches (main.py:112-114) is not
  modelled. Only the `[]` they lead to is.
- `LineLabel`: `line` and `lines` hold a string, a list of strings, or
  nothing. A truthy value of another type is not modelled; the program would
  use that value itself as the label. A list element that is not a string is
  not modelled either.
- `Arrivals.ExtendSoonest`, `Arrivals.CollectByStop`, `Arrivals.AddRow`:
  Python sorts each stop's list in place. The model works on the values
  instead.
- Drawing the display image, `update_display`, and the program's main loop
  are not modelled. Only the minutes label is.
