/**
 * The values the holiday engine keeps in memory: JSON-like scalars, day
 * records (one decoded API object or database row), and the calendar
 * snapshot `year -> MMDD -> record` with its `update_time`.
 */
module Records {
  import opened Dates
  import opened Text

  /** A scalar as it comes out of `json.load`, the API or an SQLite column. */
  datatype Value = VInt(i: int) | VStr(s: string) | VNull

  /** A day object: field name to value (`type`, `day`, `typename`, `week`, ...). */
  type Record = map<string, Value>

  /** What a table slot holds: a full day object, or a bare status code of the older format. */
  datatype Entry = Detail(fields: Record) | Plain(code: Value)

  /**
   * `Holiday._holiday_json`: year strings ("2024") to tables keyed by "MMDD",
   * and the optional top-level `update_time` string.
   */
  datatype Snapshot = Snapshot(updateTime: Option<string>, years: map<string, map<string, Entry>>)

  const EmptySnapshot: Snapshot := Snapshot(None, map[])

  /**
   * The exceptions that escape the engine's queries: OverflowError when a day
   * scan leaves the representable dates, and the TypeError/ValueError/
   * AttributeError raised by `int(...)`, `strptime(...)` or `.get` on a value
   * of the wrong shape.
   */
  datatype Error = OutOfRange | BadValue

  datatype Result<+T> = Ok(value: T) | Err(error: Error)

  /** `record.get(key, default)`. */
  function Get(r: Record, key: string, default: Value): Value {
    if key in r then r[key] else default
  }

  /** `int(v)`: ints as they are, decimal strings parsed, anything else a failure. */
  function ToInt(v: Value): (r: Result<int>)
    ensures v.VInt? ==> r == Ok(v.i)
    ensures v.VNull? ==> r.Err?
  {
    match v
    case VInt(i) => Ok(i)
    case VStr(s) => (match ParseInt(s) case Some(n) => Ok(n) case None => Err(BadValue))
    case VNull => Err(BadValue)
  }

  /** `int(str(n))` recovers n: a status written as text reads back as the same code. */
  lemma ToIntOfText(n: int)
    ensures ToInt(VStr(IntToString(n))) == Ok(n)
  {
    IntToStringRoundTrip(n);
  }
}
