/**
 * The data the arrival computation reads and produces: monitored stop
 * entries (Python dicts with `stop_id`, `direzione`, `line`/`lines`),
 * rows of `stop_times.txt` as `csv.DictReader` yields them, and the
 * arrival records handed to the display.
 */
module Records {
  import opened Wrappers

  /**
   * The value stored under `line` or `lines` of a stop entry: absent
   * (`None`), a string, or a list of strings.
   */
  datatype LineValue = Missing | Text(text: string) | Items(items: seq<string>)

  /** Python truthiness of a `LineValue`. */
  predicate Truthy(v: LineValue)
    ensures Truthy(v) ==> !v.Missing?
    ensures v.Text? ==> (Truthy(v) <==> |v.text| > 0)
    ensures v.Items? ==> (Truthy(v) <==> |v.items| > 0)
  {
    match v
    case Missing => false
    case Text(t) => t != ""
    case Items(xs) => |xs| > 0
  }

  /** A monitored stop entry; an absent dict key is `None` / `Missing`. */
  datatype Stop = Stop(stopId: Option<string>, direzione: Option<string>, line: LineValue, lines: LineValue)

  /**
   * One column of a `csv.DictReader` row: the header has no such column
   * (the name is not a key of the dict), the row is shorter than the header
   * (the key maps to `None`), or the field's text.
   */
  datatype Cell = NoColumn | ShortRow | Value(text: string)

  /** `row.get(name)`. */
  function Get(c: Cell): (r: Option<string>)
    ensures r.Some? <==> c.Value?
    ensures c.Value? ==> r == Some(c.text)
  {
    match c
    case Value(t) => Some(t)
    case _ => None
  }

  /** `row.get(name, default)`. */
  function GetOr(c: Cell, default: string): (r: Option<string>)
    ensures !c.NoColumn? ==> r == Get(c)
    ensures c.NoColumn? ==> r == Some(default)
  {
    match c
    case NoColumn => Some(default)
    case ShortRow => None
    case Value(t) => Some(t)
  }

  /** A `stop_times.txt` row, reduced to the four columns that are read. */
  datatype Row = Row(stopId: Cell, arrivalTime: Cell, tripId: Cell, stopHeadsign: Cell)

  /** One entry of the result list (`line`, `direzione`, `stop_id`, `destination`, `minutes`). */
  datatype Arrival = Arrival(line: string, direzione: Option<string>, stopId: string, destination: string, minutes: nat)
}
