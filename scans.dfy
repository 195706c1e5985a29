/**
 * The day-by-day scans built on the classifier: the block of consecutive
 * non-workdays around a date (`_find_holiday_range`) and the run of
 * workdays just before or after a block (`_find_surrounding_workdays`).
 */
module Scans {
  import opened Dates
  import opened Records
  import opened Calendar

  /** Every date whose ordinal lies in lo .. hi is a rest day or holiday. */
  ghost predicate AllOff(snap: Snapshot, lo: int, hi: int) {
    forall x: Date {:trigger OffDay(snap, x)} :: lo <= Ordinal(x) <= hi ==> OffDay(snap, x)
  }

  lemma ExtendAllOff(snap: Snapshot, lo: int, hi: int, p: Date)
    requires AllOff(snap, lo, hi) && OffDay(snap, p)
    requires Ordinal(p) == lo - 1 || Ordinal(p) == hi + 1
    ensures Ordinal(p) == lo - 1 ==> AllOff(snap, lo - 1, hi)
    ensures Ordinal(p) == hi + 1 ==> AllOff(snap, lo, hi + 1)
  {
    forall x: Date | Ordinal(x) == Ordinal(p) ensures OffDay(snap, x) {
      OrdinalInjective(x, p);
    }
  }

  /**
   * start .. end is the maximal stretch around d whose other days are all
   * non-workdays: every day from start up to d and from d up to end is off,
   * and the days just outside are workdays.
   */
  ghost predicate MaximalBlock(snap: Snapshot, d: Date, start: Date, end: Date) {
    && Ordinal(start) <= Ordinal(d) <= Ordinal(end)
    && AllOff(snap, Ordinal(start), Ordinal(d) - 1)
    && AllOff(snap, Ordinal(d) + 1, Ordinal(end))
    && Prev(start).Some? && IsWorkday(snap, Prev(start).value)
    && Next(end).Some? && IsWorkday(snap, Next(end).value)
  }

  /** One entry of `_find_surrounding_workdays`: a workday and whether it falls on a weekend. */
  datatype WorkdayItem = WorkdayItem(date: Date, invert: bool)

  /** An entry of the run: a workday, flagged exactly when it is a Saturday or Sunday. */
  predicate WorkdayEntry(snap: Snapshot, w: WorkdayItem) {
    IsWorkday(snap, w.date) && w.invert == IsWeekend(w.date)
  }

  /** The ordinal j days away from d in the scan direction. */
  function Position(d: Date, lookBack: bool, j: int): int {
    if lookBack then Ordinal(d) - j else Ordinal(d) + j
  }

  /**
   * ws, in chronological order, is the run of consecutive workdays that ends
   * the day before d (lookBack) or starts the day after d, each flagged when
   * it is a Saturday or Sunday, and the first day beyond the run is off.
   */
  ghost predicate SurroundingWorkdays(snap: Snapshot, d: Date, lookBack: bool, ws: seq<WorkdayItem>) {
    && (forall i :: 0 <= i < |ws| ==> WorkdayEntry(snap, ws[i]))
    && (forall i :: 0 <= i < |ws| ==>
          Ordinal(ws[i].date) == (if lookBack then Ordinal(d) - |ws| + i else Ordinal(d) + 1 + i))
    && (exists b: Date :: Ordinal(b) == Position(d, lookBack, |ws| + 1) && OffDay(snap, b))
  }

  function StepDay(d: Date, lookBack: bool): Option<Date> {
    if lookBack then Prev(d) else Next(d)
  }

  function Reverse<T>(s: seq<T>): (r: seq<T>)
    ensures |r| == |s| && forall i :: 0 <= i < |s| ==> r[i] == s[|s| - 1 - i]
  {
    if s == [] then [] else Reverse(s[1..]) + [s[0]]
  }

  lemma StepDayPosition(d: Date, lookBack: bool)
    ensures StepDay(d, lookBack).Some? ==> Ordinal(StepDay(d, lookBack).value) == Position(d, lookBack, 1)
    ensures StepDay(d, lookBack).None? ==> Position(d, lookBack, 1) < 1 || Position(d, lookBack, 1) > LastOrdinal
  {
    NextIsFollowingDay(d);
    PrevIsPrecedingDay(d);
  }

  // ---------------------------------------------------------------------
  // _find_holiday_range

  /** What a known block tells the backward scan: it stops exactly at the block's start. */
  lemma BackStep(snap: Snapshot, d: Date, s: Date, e: Date, start: Date)
    requires MaximalBlock(snap, d, s, e)
    requires Ordinal(s) <= Ordinal(start) <= Ordinal(d)
    ensures Ordinal(s) < Ordinal(start) ==> Prev(start).Some? && OffDay(snap, Prev(start).value)
    ensures Ordinal(s) == Ordinal(start) ==> s == start
  {
    PrevIsPrecedingDay(start);
    OrdinalBounds(s);
    if Ordinal(s) == Ordinal(start) {
      OrdinalInjective(s, start);
    }
  }

  /** What a known block tells the forward scan: it stops exactly at the block's end. */
  lemma ForwardStep(snap: Snapshot, d: Date, s: Date, e: Date, end: Date)
    requires MaximalBlock(snap, d, s, e)
    requires Ordinal(d) <= Ordinal(end) <= Ordinal(e)
    ensures Ordinal(end) < Ordinal(e) ==> Next(end).Some? && OffDay(snap, Next(end).value)
    ensures Ordinal(end) == Ordinal(e) ==> e == end
  {
    NextIsFollowingDay(end);
    OrdinalBounds(e);
    if Ordinal(end) == Ordinal(e) {
      OrdinalInjective(e, end);
    }
  }

  /**
   * `_find_holiday_range`: step back from d while the previous day is off,
   * then forward while the next day is off. The result is the maximal block
   * around d; the scan fails exactly when no such block exists (it runs off
   * the representable dates or meets an unreadable status first).
   */
  method FindHolidayRange(snap: Snapshot, d: Date) returns (r: Result<(Date, Date)>)
    ensures r.Ok? ==> MaximalBlock(snap, d, r.value.0, r.value.1)
    ensures r.Err? ==> forall s: Date, e: Date :: !MaximalBlock(snap, d, s, e)
  {
    var start := d;
    while true
      invariant Ordinal(start) <= Ordinal(d)
      invariant AllOff(snap, Ordinal(start), Ordinal(d) - 1)
      invariant forall s: Date, e: Date :: MaximalBlock(snap, d, s, e) ==> Ordinal(s) <= Ordinal(start)
      decreases Ordinal(start)
    {
      PrevIsPrecedingDay(start);
      var p := Prev(start);
      if p.None? {
        forall s: Date, e: Date | MaximalBlock(snap, d, s, e) ensures false {
          BackStep(snap, d, s, e, start);
        }
        return Err(OutOfRange);
      }
      var st := Status(snap, p.value);
      if st.Err? {
        forall s: Date, e: Date | MaximalBlock(snap, d, s, e) ensures false {
          BackStep(snap, d, s, e, start);
        }
        return Err(st.error);
      }
      if st.value == Workday {
        break;
      }
      forall s: Date, e: Date | MaximalBlock(snap, d, s, e) ensures Ordinal(s) <= Ordinal(p.value) {
        BackStep(snap, d, s, e, start);
      }
      OrdinalBounds(p.value);
      ExtendAllOff(snap, Ordinal(start), Ordinal(d) - 1, p.value);
      start := p.value;
    }
    var end := d;
    while true
      invariant Ordinal(d) <= Ordinal(end)
      invariant AllOff(snap, Ordinal(d) + 1, Ordinal(end))
      invariant forall s: Date, e: Date :: MaximalBlock(snap, d, s, e) ==> Ordinal(end) <= Ordinal(e)
      decreases LastOrdinal - Ordinal(end)
    {
      NextIsFollowingDay(end);
      OrdinalBounds(end);
      var n := Next(end);
      if n.None? {
        forall s: Date, e: Date | MaximalBlock(snap, d, s, e) ensures false {
          ForwardStep(snap, d, s, e, end);
        }
        return Err(OutOfRange);
      }
      var st := Status(snap, n.value);
      if st.Err? {
        forall s: Date, e: Date | MaximalBlock(snap, d, s, e) ensures false {
          ForwardStep(snap, d, s, e, end);
        }
        return Err(st.error);
      }
      if st.value == Workday {
        break;
      }
      forall s: Date, e: Date | MaximalBlock(snap, d, s, e) ensures Ordinal(n.value) <= Ordinal(e) {
        ForwardStep(snap, d, s, e, end);
      }
      ExtendAllOff(snap, Ordinal(d) + 1, Ordinal(end), n.value);
      end := n.value;
    }
    r := Ok((start, end));
  }

  /** Around a given date there is at most one maximal block. */
  lemma BlockUnique(snap: Snapshot, d: Date, s1: Date, e1: Date, s2: Date, e2: Date)
    requires MaximalBlock(snap, d, s1, e1) && MaximalBlock(snap, d, s2, e2)
    ensures s1 == s2 && e1 == e2
  {
    if Ordinal(s1) <= Ordinal(s2) {
      BackStep(snap, d, s1, e1, s2);
    } else {
      BackStep(snap, d, s2, e2, s1);
    }
    if Ordinal(e1) <= Ordinal(e2) {
      ForwardStep(snap, d, s2, e2, e1);
    } else {
      ForwardStep(snap, d, s1, e1, e2);
    }
  }

  // ---------------------------------------------------------------------
  // _find_surrounding_workdays

  /** A date j days away from d inside a run's reach is either one of its workdays or the off day after it. */
  lemma RunCovers(snap: Snapshot, d: Date, lookBack: bool, ws: seq<WorkdayItem>, j: int, x: Date)
    requires SurroundingWorkdays(snap, d, lookBack, ws)
    requires 1 <= j <= |ws| + 1 && Ordinal(x) == Position(d, lookBack, j)
    ensures j <= |ws| ==> IsWorkday(snap, x)
    ensures j == |ws| + 1 ==> OffDay(snap, x)
  {
    if j <= |ws| {
      var i := if lookBack then |ws| - j else j - 1;
      OrdinalInjective(x, ws[i].date);
    } else {
      var b: Date :| Ordinal(b) == Position(d, lookBack, |ws| + 1) && OffDay(snap, b);
      OrdinalInjective(x, b);
    }
  }

  /** A run reaches j days away from d for every j up to one past its length. */
  lemma RunReaches(snap: Snapshot, d: Date, lookBack: bool, ws: seq<WorkdayItem>, j: int) returns (x: Date)
    requires SurroundingWorkdays(snap, d, lookBack, ws)
    requires 1 <= j <= |ws| + 1
    ensures Ordinal(x) == Position(d, lookBack, j)
  {
    if j <= |ws| {
      x := ws[if lookBack then |ws| - j else j - 1].date;
    } else {
      x :| Ordinal(x) == Position(d, lookBack, |ws| + 1) && OffDay(snap, x);
    }
  }

  /** The first |scanned| days away from d in the scan direction, in scan order, are workdays. */
  ghost predicate ScannedWorkdays(snap: Snapshot, d: Date, lookBack: bool, scanned: seq<WorkdayItem>) {
    forall i :: 0 <= i < |scanned| ==>
      && WorkdayEntry(snap, scanned[i])
      && Ordinal(scanned[i].date) == Position(d, lookBack, i + 1)
  }

  /** The scan so far followed by the next day, found to be a workday. */
  lemma ScanExtends(snap: Snapshot, d: Date, lookBack: bool, scanned: seq<WorkdayItem>, w: WorkdayItem)
    requires ScannedWorkdays(snap, d, lookBack, scanned)
    requires WorkdayEntry(snap, w) && Ordinal(w.date) == Position(d, lookBack, |scanned| + 1)
    ensures ScannedWorkdays(snap, d, lookBack, scanned + [w])
  {
    var s := scanned + [w];
    forall i | 0 <= i < |s| ensures WorkdayEntry(snap, s[i]) && Ordinal(s[i].date) == Position(d, lookBack, i + 1) {
      if i < |scanned| {
        ScannedAt(snap, d, lookBack, scanned, i);
        assert s[i] == scanned[i];
      }
    }
  }

  /** A scan that stops at an off day has found the run, put in chronological order. */
  lemma ScanGivesRun(snap: Snapshot, d: Date, lookBack: bool, scanned: seq<WorkdayItem>, stop: Date)
    requires ScannedWorkdays(snap, d, lookBack, scanned)
    requires Ordinal(stop) == Position(d, lookBack, |scanned| + 1) && OffDay(snap, stop)
    ensures SurroundingWorkdays(snap, d, lookBack, if lookBack then Reverse(scanned) else scanned)
  {
    if lookBack {
      BackScanGivesRun(snap, d, scanned, stop);
    } else {
      ForwardScanGivesRun(snap, d, scanned, stop);
    }
  }

  lemma BackScanGivesRun(snap: Snapshot, d: Date, scanned: seq<WorkdayItem>, stop: Date)
    requires ScannedWorkdays(snap, d, true, scanned)
    requires Ordinal(stop) == Position(d, true, |scanned| + 1) && OffDay(snap, stop)
    ensures SurroundingWorkdays(snap, d, true, Reverse(scanned))
  {
    ReversedScanIsRun(snap, d, scanned, Reverse(scanned), stop);
  }

  /** The scan read backwards, whatever sequence holds it, is the run before d. */
  lemma ReversedScanIsRun(snap: Snapshot, d: Date, scanned: seq<WorkdayItem>, ws: seq<WorkdayItem>, stop: Date)
    requires ScannedWorkdays(snap, d, true, scanned)
    requires Ordinal(stop) == Position(d, true, |scanned| + 1) && OffDay(snap, stop)
    requires |ws| == |scanned| && forall i :: 0 <= i < |scanned| ==> ws[i] == scanned[|scanned| - 1 - i]
    ensures SurroundingWorkdays(snap, d, true, ws)
  {
    ReversedEntries(snap, d, scanned, ws);
    assert Ordinal(stop) == Position(d, true, |ws| + 1) && OffDay(snap, stop);
  }

  lemma ReversedEntries(snap: Snapshot, d: Date, scanned: seq<WorkdayItem>, ws: seq<WorkdayItem>)
    requires ScannedWorkdays(snap, d, true, scanned)
    requires |ws| == |scanned| && forall i :: 0 <= i < |scanned| ==> ws[i] == scanned[|scanned| - 1 - i]
    ensures forall i :: 0 <= i < |ws| ==> WorkdayEntry(snap, ws[i])
    ensures forall i :: 0 <= i < |ws| ==> Ordinal(ws[i].date) == Ordinal(d) - |ws| + i
  {
    forall i | 0 <= i < |ws| ensures WorkdayEntry(snap, ws[i]) {
      ReversedEntry(snap, d, scanned, ws, i);
    }
    forall i | 0 <= i < |ws| ensures Ordinal(ws[i].date) == Ordinal(d) - |ws| + i {
      ReversedEntry(snap, d, scanned, ws, i);
    }
  }

  lemma ReversedEntry(snap: Snapshot, d: Date, scanned: seq<WorkdayItem>, ws: seq<WorkdayItem>, i: int)
    requires ScannedWorkdays(snap, d, true, scanned)
    requires |ws| == |scanned| && forall i :: 0 <= i < |scanned| ==> ws[i] == scanned[|scanned| - 1 - i]
    requires 0 <= i < |ws|
    ensures WorkdayEntry(snap, ws[i]) && Ordinal(ws[i].date) == Ordinal(d) - |ws| + i
  {
    var j := |ws| - 1 - i;
    ReversedIndex(scanned, ws, i);
    ScannedAt(snap, d, true, scanned, j);
  }

  /** Index i of the reversed scan is index |scanned| - 1 - i of the scan. */
  lemma ReversedIndex<T>(s: seq<T>, r: seq<T>, i: int)
    requires |r| == |s| && forall k :: 0 <= k < |s| ==> r[k] == s[|s| - 1 - k]
    requires 0 <= i < |r|
    ensures r[i] == s[|r| - 1 - i]
  {
  }

  /** The j-th scanned entry. */
  lemma ScannedAt(snap: Snapshot, d: Date, lookBack: bool, scanned: seq<WorkdayItem>, j: int)
    requires ScannedWorkdays(snap, d, lookBack, scanned) && 0 <= j < |scanned|
    ensures WorkdayEntry(snap, scanned[j]) && Ordinal(scanned[j].date) == Position(d, lookBack, j + 1)
  {
  }

  lemma ForwardScanGivesRun(snap: Snapshot, d: Date, scanned: seq<WorkdayItem>, stop: Date)
    requires ScannedWorkdays(snap, d, false, scanned)
    requires Ordinal(stop) == Position(d, false, |scanned| + 1) && OffDay(snap, stop)
    ensures SurroundingWorkdays(snap, d, false, scanned)
  {
  }

  /** A run cannot end before a day the scan has found to be a workday. */
  lemma RunLongerThanScan(snap: Snapshot, d: Date, lookBack: bool, n: nat, cur: Date, ws: seq<WorkdayItem>)
    requires Ordinal(cur) == Position(d, lookBack, n + 1) && IsWorkday(snap, cur)
    requires SurroundingWorkdays(snap, d, lookBack, ws) && |ws| >= n
    ensures |ws| >= n + 1
  {
    if |ws| == n {
      RunCovers(snap, d, lookBack, ws, n + 1, cur);
    }
  }

  /** No run as long as the scan so far exists when the next day's status is unreadable. */
  lemma NoRunPastError(snap: Snapshot, d: Date, lookBack: bool, n: nat, cur: Date, ws: seq<WorkdayItem>)
    requires Ordinal(cur) == Position(d, lookBack, n + 1) && Status(snap, cur).Err?
    requires |ws| >= n
    ensures !SurroundingWorkdays(snap, d, lookBack, ws)
  {
    if SurroundingWorkdays(snap, d, lookBack, ws) {
      RunCovers(snap, d, lookBack, ws, n + 1, cur);
    }
  }

  /** No run as long as the scan so far exists when the next day is not a date. */
  lemma NoRunPastRange(snap: Snapshot, d: Date, lookBack: bool, n: nat, ws: seq<WorkdayItem>)
    requires Position(d, lookBack, n + 1) < 1 || Position(d, lookBack, n + 1) > LastOrdinal
    requires |ws| >= n
    ensures !SurroundingWorkdays(snap, d, lookBack, ws)
  {
    if SurroundingWorkdays(snap, d, lookBack, ws) {
      var x := RunReaches(snap, d, lookBack, ws, n + 1);
      OrdinalBounds(x);
    }
  }

  /**
   * `_find_surrounding_workdays`: collect the consecutive workdays starting
   * one day before (lookBack) or after d until the first non-workday, and
   * return them in chronological order. The scan fails exactly when no such
   * run exists.
   */
  method FindSurroundingWorkdays(snap: Snapshot, d: Date, lookBack: bool) returns (r: Result<seq<WorkdayItem>>)
    ensures r.Ok? ==> SurroundingWorkdays(snap, d, lookBack, r.value)
    ensures r.Err? ==> forall ws :: !SurroundingWorkdays(snap, d, lookBack, ws)
  {
    StepDayPosition(d, lookBack);
    var first := StepDay(d, lookBack);
    if first.None? {
      forall ws ensures !SurroundingWorkdays(snap, d, lookBack, ws) {
        NoRunPastRange(snap, d, lookBack, 0, ws);
      }
      return Err(OutOfRange);
    }
    var cur := first.value;
    var scanned: seq<WorkdayItem> := [];
    while true
      invariant Ordinal(cur) == Position(d, lookBack, |scanned| + 1)
      invariant ScannedWorkdays(snap, d, lookBack, scanned)
      invariant forall ws :: SurroundingWorkdays(snap, d, lookBack, ws) ==> |ws| >= |scanned|
      decreases if lookBack then Ordinal(cur) else LastOrdinal - Ordinal(cur)
    {
      OrdinalBounds(cur);
      var st := Status(snap, cur);
      if st.Err? {
        forall ws | |ws| >= |scanned| ensures !SurroundingWorkdays(snap, d, lookBack, ws) {
          NoRunPastError(snap, d, lookBack, |scanned|, cur, ws);
        }
        return Err(st.error);
      }
      if st.value != Workday {
        break;
      }
      forall ws | SurroundingWorkdays(snap, d, lookBack, ws) ensures |ws| >= |scanned| + 1 {
        RunLongerThanScan(snap, d, lookBack, |scanned|, cur, ws);
      }
      var item := WorkdayItem(cur, Weekday(cur) == 5 || Weekday(cur) == 6);
      ScanExtends(snap, d, lookBack, scanned, item);
      scanned := scanned + [item];
      StepDayPosition(cur, lookBack);
      var next := StepDay(cur, lookBack);
      if next.None? {
        forall ws | |ws| >= |scanned| ensures !SurroundingWorkdays(snap, d, lookBack, ws) {
          NoRunPastRange(snap, d, lookBack, |scanned|, ws);
        }
        return Err(OutOfRange);
      }
      cur := next.value;
    }
    ScanGivesRun(snap, d, lookBack, scanned, cur);
    r := Ok(if lookBack then Reverse(scanned) else scanned);
  }

  /** Before or after a date there is at most one run of surrounding workdays. */
  lemma SurroundingUnique(snap: Snapshot, d: Date, lookBack: bool, ws1: seq<WorkdayItem>, ws2: seq<WorkdayItem>)
    requires SurroundingWorkdays(snap, d, lookBack, ws1)
    requires SurroundingWorkdays(snap, d, lookBack, ws2)
    ensures ws1 == ws2
  {
    if |ws1| < |ws2| {
      var x := RunReaches(snap, d, lookBack, ws1, |ws1| + 1);
      RunCovers(snap, d, lookBack, ws1, |ws1| + 1, x);
      RunCovers(snap, d, lookBack, ws2, |ws1| + 1, x);
    } else if |ws2| < |ws1| {
      var x := RunReaches(snap, d, lookBack, ws2, |ws2| + 1);
      RunCovers(snap, d, lookBack, ws2, |ws2| + 1, x);
      RunCovers(snap, d, lookBack, ws1, |ws2| + 1, x);
    } else {
      forall i | 0 <= i < |ws1| ensures ws1[i] == ws2[i] {
        OrdinalInjective(ws1[i].date, ws2[i].date);
      }
    }
  }

  /** When the date itself is off, its whole block is off. */
  lemma BlockAllOff(snap: Snapshot, d: Date, start: Date, end: Date)
    requires MaximalBlock(snap, d, start, end) && OffDay(snap, d)
    ensures AllOff(snap, Ordinal(start), Ordinal(end))
  {
    forall x: Date | Ordinal(start) <= Ordinal(x) <= Ordinal(end) ensures OffDay(snap, x) {
      if Ordinal(x) == Ordinal(d) {
        OrdinalInjective(x, d);
      }
    }
  }
}
