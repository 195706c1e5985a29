/**
 * `HolidayDB.load`: the reshaping of the flat `holiday_detail` rows, keyed
 * by an eight-character `YYYYMMDD` day, into the in-memory calendar snapshot
 * `year -> MMDD -> row`. The rows and the stored `update_time` are
 * parameters; the SQLite queries are not part of this model.
 */
module Store {
  import opened Dates
  import opened Text
  import opened Records
  import opened Calendar

  /**
   * What the loop does with one row: skip it (no `day`, a falsy one, or one
   * whose length is not 8), stop (a non-zero integer `day`, on which `len`
   * raises and the outer `except` returns what was loaded so far), or place
   * it under `day[:4]` and `day[4:]`.
   */
  datatype RowAction = Skip | Stop | Place(year: string, monthDay: string)

  function Action(row: Record): (a: RowAction)
    ensures a.Place? <==> "day" in row && row["day"].VStr? && |row["day"].s| == 8
    ensures a.Place? ==> a.year + a.monthDay == row["day"].s && |a.year| == 4 && |a.monthDay| == 4
    ensures a.Stop? <==> "day" in row && row["day"].VInt? && row["day"].i != 0
  {
    match Get(row, "day", VNull)
    case VNull => Skip
    case VInt(n) => if n == 0 then Skip else Stop
    case VStr(s) => if |s| != 8 then Skip else Place(s[..4], s[4..])
  }

  /** The number of rows read before the loop stops: the index of the first Stop row, or all of them. */
  function LoadedCount(rows: seq<Record>): (n: nat)
    ensures n <= |rows|
    ensures forall i :: 0 <= i < n ==> !Action(rows[i]).Stop?
    ensures n < |rows| ==> Action(rows[n]).Stop?
  {
    if rows == [] then 0
    else if Action(rows[0]).Stop? then 0
    else 1 + LoadedCount(rows[1..])
  }

  /** The year tables built from the rows, each placed row overwriting any earlier one with the same day. */
  function Reshape(rows: seq<Record>): map<string, map<string, Entry>> {
    if rows == [] then map[]
    else
      var data := Reshape(rows[..|rows| - 1]);
      var row := rows[|rows| - 1];
      match Action(row)
      case Place(y, md) =>
        var table := if y in data then data[y] else map[];
        data[y := table[md := Detail(row)]]
      case _ => data
  }

  /** `load()`: the snapshot the rows reshape into. */
  method Load(updateTime: Option<string>, rows: seq<Record>) returns (snap: Snapshot)
    ensures snap == Snapshot(updateTime, Reshape(rows[..LoadedCount(rows)]))
  {
    var data: map<string, map<string, Entry>> := map[];
    var i := 0;
    while i < |rows|
      invariant 0 <= i <= LoadedCount(rows)
      invariant data == Reshape(rows[..i])
      decreases |rows| - i
    {
      var row := rows[i];
      assert rows[..i + 1][..i] == rows[..i];
      match Action(row) {
        case Skip =>
        case Stop =>
          break;
        case Place(y, md) =>
          if y !in data {
            data := data[y := map[]];
          }
          data := data[y := data[y][md := Detail(row)]];
      }
      i := i + 1;
    }
    snap := Snapshot(updateTime, data);
  }

  /** The placed row a slot comes from. */
  predicate PlacedAt(rows: seq<Record>, i: int, y: string, md: string)
    requires 0 <= i < |rows|
  {
    Action(rows[i]) == Place(y, md)
  }

  /** The slots after one more row: the row's own slot, if it names one, is added or overwritten. */
  lemma ReshapeStep(rows: seq<Record>, y: string, md: string)
    requires rows != []
    ensures var pre := Reshape(rows[..|rows| - 1]);
      (y in Reshape(rows) && md in Reshape(rows)[y]) <==>
        (y in pre && md in pre[y]) || Action(rows[|rows| - 1]) == Place(y, md)
  {
  }

  predicate HasSlot(years: map<string, map<string, Entry>>, y: string, md: string) {
    y in years && md in years[y]
  }

  /** Some row's eight-character day names the slot. */
  ghost predicate Placed(rows: seq<Record>, y: string, md: string) {
    exists i :: 0 <= i < |rows| && PlacedAt(rows, i, y, md)
  }

  /** A slot exists exactly where some row's eight-character day names it. */
  lemma {:induction false} ReshapeKeys(rows: seq<Record>)
    ensures forall y, md :: HasSlot(Reshape(rows), y, md) <==> Placed(rows, y, md)
    decreases |rows|
  {
    if rows != [] {
      var n := |rows| - 1;
      var pre := rows[..n];
      ReshapeKeys(pre);
      forall y, md ensures HasSlot(Reshape(rows), y, md) <==> Placed(rows, y, md) {
        ReshapeStep(rows, y, md);
        assert HasSlot(Reshape(pre), y, md) <==> Placed(pre, y, md);
        if Action(rows[n]) == Place(y, md) {
          assert PlacedAt(rows, n, y, md);
        }
        if Placed(rows, y, md) {
          var i :| 0 <= i < |rows| && PlacedAt(rows, i, y, md);
          if i < n {
            assert pre[i] == rows[i];
            assert PlacedAt(pre, i, y, md);
          }
        }
        if Placed(pre, y, md) {
          var i :| 0 <= i < |pre| && PlacedAt(pre, i, y, md);
          assert pre[i] == rows[i];
          assert PlacedAt(rows, i, y, md);
        }
      }
    }
  }

  /** Every year key and every day key is four characters long. */
  lemma {:induction false} ReshapeKeyWidths(rows: seq<Record>)
    ensures forall y :: y in Reshape(rows) ==> |y| == 4 && forall md :: md in Reshape(rows)[y] ==> |md| == 4
    decreases |rows|
  {
    if rows != [] {
      ReshapeKeyWidths(rows[..|rows| - 1]);
    }
  }

  /** A placed row that no later row overwrites is what its slot holds. */
  lemma {:induction false} ReshapeLast(rows: seq<Record>, i: nat)
    requires i < |rows| && Action(rows[i]).Place?
    requires forall j :: i < j < |rows| ==> Action(rows[j]) != Action(rows[i])
    ensures Action(rows[i]).year in Reshape(rows)
    ensures Action(rows[i]).monthDay in Reshape(rows)[Action(rows[i]).year]
    ensures Reshape(rows)[Action(rows[i]).year][Action(rows[i]).monthDay] == Detail(rows[i])
    decreases |rows|
  {
    var n := |rows| - 1;
    if i < n {
      var pre := rows[..n];
      assert pre[i] == rows[i];
      forall j | i < j < n ensures Action(pre[j]) != Action(pre[i]) {
        assert pre[j] == rows[j];
      }
      ReshapeLast(pre, i);
    }
  }

  /** A row with no day, a falsy day, or a day of another length leaves no trace. */
  lemma ReshapeDropsUnplaced(rows: seq<Record>, y: string, md: string)
    requires forall i :: 0 <= i < |rows| ==> !PlacedAt(rows, i, y, md)
    ensures !HasSlot(Reshape(rows), y, md)
  {
    ReshapeKeys(rows);
  }

  /**
   * A row saved with the day `YYYYMMDD` of a date (years 1000 and later), read
   * before the loop stops and not overwritten by a later row of the same day,
   * is what the classifier looks the date up in.
   */
  lemma LoadedRowClassifies(updateTime: Option<string>, rows: seq<Record>, i: nat, d: Date)
    requires d.year >= 1000
    requires i < LoadedCount(rows)
    requires Get(rows[i], "day", VNull) == VStr(YearKey(d.year) + MonthDayKey(d))
    requires forall j :: i < j < LoadedCount(rows) ==> Get(rows[j], "day", VNull) != rows[i]["day"]
    ensures var snap := Snapshot(updateTime, Reshape(rows[..LoadedCount(rows)]));
      Lookup(snap, d) == Some(Detail(rows[i])) && Status(snap, d) == ToInt(Get(rows[i], "type", VInt(0)))
    ensures ParseCompactDate(rows[i]["day"].s) == Some(d)
  {
    var n := LoadedCount(rows);
    var loaded := rows[..n];
    YearKeyShape(d.year);
    Pad2Shape(d.month);
    Pad2Shape(d.day);
    var s := YearKey(d.year) + MonthDayKey(d);
    assert s[..4] == YearKey(d.year) && s[4..] == MonthDayKey(d);
    assert Action(rows[i]) == Place(YearKey(d.year), MonthDayKey(d));
    assert loaded[i] == rows[i];
    forall j | i < j < n ensures Action(loaded[j]) != Action(loaded[i]) {
      assert loaded[j] == rows[j];
    }
    ReshapeLast(loaded, i);
    CompactKeyRoundTrip(d);
  }
}
