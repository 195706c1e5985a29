/**
 * The refresh policy of `Holiday.get_holidays_from_server`: the staleness
 * test, the six-month fetch window (`_get_year_month`), the per-day filter
 * of `_fetch_month_data` that decides what enters the compact year table and
 * what enters the full backup list, and the swap of the snapshot. The HTTP
 * responses and the outcome of the JSON write are parameters.
 */
module Refresh {
  import opened Dates
  import opened Text
  import opened Records
  import opened Calendar

  // ---------------------------------------------------------------------
  // Staleness

  /** The fallback `datetime(2020, 1, 1)`, also the default `update_time` text. */
  const DefaultLastUpdate: Date := Ymd(2020, 1, 1)

  /** `strptime(snapshot.get("update_time", "2020-01-01"), "%Y-%m-%d")`, with the ValueError fallback. */
  function LastUpdate(snap: Snapshot): (d: Date)
    ensures snap.updateTime.Some? && ParseIsoDate(snap.updateTime.value).Some? ==>
      d == ParseIsoDate(snap.updateTime.value).value
    ensures snap.updateTime.None? || ParseIsoDate(snap.updateTime.value).None? ==> d == DefaultLastUpdate
  {
    match snap.updateTime
    case Some(s) => (match ParseIsoDate(s) case Some(d) => d case None => DefaultLastUpdate)
    case None => DefaultLastUpdate
  }

  /** `(today - last_update).days`. */
  function IntervalDays(snap: Snapshot, now: Instant): int {
    ElapsedDays(now, Midnight(LastUpdate(snap)))
  }

  /** `str(today.year) in snapshot and snapshot[str(today.year)]`: a non-empty table for this year. */
  predicate HasCurrentYear(snap: Snapshot, now: Instant) {
    YearKey(now.date.year) in snap.years && snap.years[YearKey(now.date.year)] != map[]
  }

  /** The early return of `get_holidays_from_server`: recent enough, caching allowed, and this year present. */
  predicate SkipRefresh(snap: Snapshot, now: Instant, days: int) {
    IntervalDays(snap, now) <= days && days != 0 && HasCurrentYear(snap, now)
  }

  /**
   * The refresh is skipped exactly when caching is allowed (days != 0), this
   * year has data, and at most `days` calendar days have passed since the
   * recorded update date; with days == 0 it always fetches.
   */
  lemma SkipRefreshMeaning(snap: Snapshot, now: Instant, days: int)
    ensures SkipRefresh(snap, now, days) <==>
      days != 0 && HasCurrentYear(snap, now) && Ordinal(now.date) - Ordinal(LastUpdate(snap)) <= days
    ensures !SkipRefresh(snap, now, 0)
  {
    ElapsedSinceDate(now, LastUpdate(snap));
  }

  /** Updated ten days ago, with a 15-day threshold and this year's data present: no fetch. */
  lemma RecentSnapshotIsKept(snap: Snapshot, now: Instant, last: Date)
    requires snap.updateTime == Some(FormatIsoDate(last))
    requires Ordinal(now.date) == Ordinal(last) + 10
    requires HasCurrentYear(snap, now)
    ensures SkipRefresh(snap, now, 15)
    ensures !SkipRefresh(snap, now, 9)
  {
    IsoDateRoundTrip(last);
    SkipRefreshMeaning(snap, now, 15);
    SkipRefreshMeaning(snap, now, 9);
  }

  // ---------------------------------------------------------------------
  // The fetch window

  /**
   * `_get_year_month`: the month k months after d's month. The loop only
   * carries months above 12 into the year, so for a negative k that reaches
   * back past January the month is left below 1.
   */
  method YearMonth(d: Date, k: int) returns (y: int, m: int)
    ensures y * 12 + (m - 1) == d.year * 12 + (d.month - 1) + k
    ensures m <= 12
    ensures d.month + k >= 1 ==> 1 <= m
    ensures d.month + k <= 12 ==> y == d.year && m == d.month + k
  {
    m := d.month + k;
    y := d.year;
    while m > 12
      invariant y * 12 + (m - 1) == d.year * 12 + (d.month - 1) + k
      invariant d.month + k >= 1 ==> 1 <= m
      invariant d.month + k <= 12 ==> y == d.year && m == d.month + k
      decreases m
    {
      m := m - 12;
      y := y + 1;
    }
  }

  /** The year and month i months after d's month, in closed form. */
  function AddMonths(d: Date, i: nat): (int, int) {
    var t := d.month - 1 + i;
    (d.year + t / 12, t % 12 + 1)
  }

  /** A year and a month 1..12 are determined by their month count `year * 12 + month - 1`. */
  lemma MonthCountUnique(y: int, m: int, y2: int, m2: int)
    requires 1 <= m <= 12 && 1 <= m2 <= 12
    requires y * 12 + (m - 1) == y2 * 12 + (m2 - 1)
    ensures y == y2 && m == m2
  {
  }

  /** The closed form is the month count of d's month plus i. */
  lemma AddMonthsCount(d: Date, i: nat)
    ensures 1 <= AddMonths(d, i).1 <= 12
    ensures AddMonths(d, i).0 * 12 + (AddMonths(d, i).1 - 1) == d.year * 12 + (d.month - 1) + i
  {
  }

  /** The six months fetched are six consecutive months, the first being today's. */
  lemma FetchWindowConsecutive(d: Date, i: nat)
    requires i < 5
    ensures AddMonths(d, 0) == (d.year, d.month)
    ensures AddMonths(d, i + 1) == (if AddMonths(d, i).1 == 12 then (AddMonths(d, i).0 + 1, 1)
                                    else (AddMonths(d, i).0, AddMonths(d, i).1 + 1))
  {
    AddMonthsCount(d, i);
    AddMonthsCount(d, i + 1);
    AddMonthsCount(d, 0);
    var (y, m) := AddMonths(d, i);
    var (y2, m2) := AddMonths(d, i + 1);
    if m == 12 {
      MonthCountUnique(y2, m2, y + 1, 1);
    } else {
      MonthCountUnique(y2, m2, y, m + 1);
    }
    MonthCountUnique(AddMonths(d, 0).0, AddMonths(d, 0).1, d.year, d.month);
  }

  // ---------------------------------------------------------------------
  // The per-day filter

  /** One value of the month object in the API's JSON reply. */
  datatype RawItem = Object(fields: Record) | Scalar(v: Value)

  /**
   * The outcome of one month's request: Failed stands for a non-200 status,
   * an undecodable body, a reply without the `YYYYMM` key or whose month is
   * not an object (all end the month early, before any day is read);
   * otherwise the month's `(day_key, item)` pairs in iteration order.
   */
  datatype MonthResponse = Failed | Payload(days: seq<(string, RawItem)>)

  function Days(resp: MonthResponse): seq<(string, RawItem)> {
    match resp
    case Failed => []
    case Payload(days) => days
  }

  /** A JSON object has each key once. */
  predicate DistinctKeys(days: seq<(string, RawItem)>) {
    forall i, j :: 0 <= i < j < |days| ==> days[i].0 != days[j].0
  }

  /** `int(item.get("type", 0))`. */
  function TypeCode(f: Record): Result<int> {
    ToInt(Get(f, "type", VInt(0)))
  }

  /** `int(item.get("week", item.get("week2", 0)))`, 0 where the conversion raises. */
  function WeekCode(f: Record): (w: int)
    ensures "week" in f && ToInt(f["week"]).Ok? ==> w == ToInt(f["week"]).value
    ensures "week" !in f && "week2" in f && ToInt(f["week2"]).Ok? ==> w == ToInt(f["week2"]).value
    ensures "week" in f && ToInt(f["week"]).Err? ==> w == 0
    ensures "week" !in f && "week2" in f && ToInt(f["week2"]).Err? ==> w == 0
    ensures "week" !in f && "week2" !in f ==> w == 0
  {
    match ToInt(Get(f, "week", Get(f, "week2", VInt(0))))
    case Ok(n) => n
    case Err(_) => 0
  }

  /** A rest day, a statutory holiday, or a workday on a Saturday or Sunday (a make-up workday). */
  predicate Interesting(t: int, w: int) {
    t == 1 || t == 2 || (t == 0 && (w == 6 || w == 7))
  }

  /** `"{}{:0>2d}{:0>2d}".format(year, month, int(day_key))`. */
  function SynthesisedDay(year: int, month: int, dd: int): string {
    IntToString(year) + Pad2(month) + Pad2(dd)
  }

  /**
   * The body of the per-day loop of `_fetch_month_data`: None where the item
   * is skipped (not an object, or an exception inside the per-item `try`:
   * a type that does not convert, or a missing `day` with a key that does
   * not convert); otherwise the item as stored (with `day` filled in) and
   * whether it enters the compact table.
   */
  function ClassifyItem(year: int, month: int, key: string, raw: RawItem): (r: Option<(Record, bool)>)
    ensures raw.Scalar? ==> r.None?
    ensures raw.Object? ==>
      (r.Some? <==> TypeCode(raw.fields).Ok? && ("day" in raw.fields || ToInt(VStr(key)).Ok?))
    ensures r.Some? ==> (r.value.1 <==> Interesting(TypeCode(raw.fields).value, WeekCode(raw.fields)))
    ensures r.Some? && "day" in raw.fields ==> r.value.0 == raw.fields
    ensures r.Some? && "day" !in raw.fields ==>
      r.value.0 == raw.fields["day" := VStr(SynthesisedDay(year, month, ToInt(VStr(key)).value))]
  {
    match raw
    case Scalar(_) => None
    case Object(f) =>
      match TypeCode(f)
      case Err(_) => None
      case Ok(t) =>
        var keep := t in {1, 2} || (t == 0 && WeekCode(f) in {6, 7});
        if "day" in f then Some((f, keep))
        else
          match ToInt(VStr(key))
          case Err(_) => None
          case Ok(dd) => Some((f["day" := VStr(SynthesisedDay(year, month, dd))], keep))
  }

  /** The item as stored carries a `day` field and keeps the classification fields it came with. */
  lemma ClassifiedRecord(year: int, month: int, key: string, raw: RawItem)
    requires ClassifyItem(year, month, key, raw).Some?
    ensures "day" in ClassifyItem(year, month, key, raw).value.0
    ensures TypeCode(ClassifyItem(year, month, key, raw).value.0) == TypeCode(raw.fields)
    ensures forall fld :: fld != "day" ==>
      (fld in ClassifyItem(year, month, key, raw).value.0 <==> fld in raw.fields)
  {
  }

  /**
   * With a one- or two-digit day key the synthesised `day` is the 8-digit
   * `YYYYMMDD` of (year, month, day); with a key of 100 or more (an `MMDD`
   * key, the form the compact table is keyed by) it is 9 characters long
   * for January to September keys and 10 for October to December keys, and
   * does not read back as a date.
   */
  lemma SynthesisedDayShape(year: int, month: int, dd: int)
    requires 1000 <= year <= 9999 && 1 <= month <= 12
    ensures 0 <= dd < 100 && IsValid(Ymd(year, month, dd)) ==>
      |SynthesisedDay(year, month, dd)| == 8
      && ParseCompactDate(SynthesisedDay(year, month, dd)) == Some(Ymd(year, month, dd))
    ensures 100 <= dd < 10000 ==>
      |SynthesisedDay(year, month, dd)| > 8 && ParseCompactDate(SynthesisedDay(year, month, dd)).None?
    ensures 100 <= dd < 1000 ==> |SynthesisedDay(year, month, dd)| == 9
    ensures 1000 <= dd < 10000 ==> |SynthesisedDay(year, month, dd)| == 10
  {
    YearKeyShape(year);
    Pad2Shape(month);
    if dd >= 0 { NatToStringLength(dd); }
    if 0 <= dd < 100 && IsValid(Ymd(year, month, dd)) {
      var d: Date := Ymd(year, month, dd);
      CompactKeyRoundTrip(d);
      assert SynthesisedDay(year, month, dd) == YearKey(d.year) + MonthDayKey(d);
    }
  }

  /** What the per-day loop body makes of one item: its key and the outcome of ClassifyItem. */
  type Verdict = (string, Option<(Record, bool)>)

  function Judge(year: int, month: int, item: (string, RawItem)): Verdict {
    (item.0, ClassifyItem(year, month, item.0, item.1))
  }

  /** The verdicts on the items of a reply, in order. */
  function Verdicts(year: int, month: int, days: seq<(string, RawItem)>): (vs: seq<Verdict>)
    ensures |vs| == |days|
  {
    if days == [] then [] else Verdicts(year, month, days[..|days| - 1]) + [Judge(year, month, days[|days| - 1])]
  }

  /** The item behind a verdict enters the compact table. */
  predicate Keeps(v: Verdict) {
    v.1.Some? && v.1.value.1
  }

  /** The compact table after one loop body: the item stored under its key when it is kept. */
  function Stored(table: map<string, Entry>, v: Verdict): map<string, Entry> {
    if Keeps(v) then table[v.0 := Detail(v.1.value.0)] else table
  }

  /** What one loop body appends to the full list: the accepted item. */
  function Appended(v: Verdict): seq<Record> {
    if v.1.Some? then [v.1.value.0] else []
  }

  /** `year_dict` after the loop bodies with the verdicts vs. */
  function CompactOf(table: map<string, Entry>, vs: seq<Verdict>): map<string, Entry> {
    if vs == [] then table else Stored(CompactOf(table, vs[..|vs| - 1]), vs[|vs| - 1])
  }

  /** The full list's new records after the loop bodies with the verdicts vs. */
  function BackupOf(vs: seq<Verdict>): seq<Record> {
    if vs == [] then [] else BackupOf(vs[..|vs| - 1]) + Appended(vs[|vs| - 1])
  }

  /** `year_dict` after the loop over the first days of a month: the interesting items, stored by key. */
  function Compact(table: map<string, Entry>, year: int, month: int, days: seq<(string, RawItem)>)
    : map<string, Entry>
  {
    CompactOf(table, Verdicts(year, month, days))
  }

  /** The items `_fetch_month_data` appends to the full list, in order. */
  function Backup(year: int, month: int, days: seq<(string, RawItem)>): seq<Record> {
    BackupOf(Verdicts(year, month, days))
  }

  /** The item at index i enters the compact table. */
  predicate KeptAt(year: int, month: int, days: seq<(string, RawItem)>, i: int)
    requires 0 <= i < |days|
  {
    var c := ClassifyItem(year, month, days[i].0, days[i].1);
    c.Some? && c.value.1
  }

  /** The item at index i is turned into a record. */
  predicate Accepted(year: int, month: int, days: seq<(string, RawItem)>, i: int)
    requires 0 <= i < |days|
  {
    ClassifyItem(year, month, days[i].0, days[i].1).Some?
  }

  /** Some interesting item of the reply has key k. */
  ghost predicate KeptKey(year: int, month: int, days: seq<(string, RawItem)>, k: string) {
    exists i :: 0 <= i < |days| && days[i].0 == k && KeptAt(year, month, days, i)
  }

  /** Some verdict of vs keeps an item with key k. */
  ghost predicate KeptIn(vs: seq<Verdict>, k: string) {
    exists i :: 0 <= i < |vs| && vs[i].0 == k && Keeps(vs[i])
  }

  /** The i-th verdict is the one on the i-th item. */
  lemma {:induction false} VerdictAt(year: int, month: int, days: seq<(string, RawItem)>, i: nat)
    requires i < |days|
    ensures Verdicts(year, month, days)[i] == Judge(year, month, days[i])
    decreases |days|
  {
    var n := |days| - 1;
    if i < n {
      VerdictAt(year, month, days[..n], i);
    }
  }

  /** The verdicts on a prefix of the reply are the prefix of the verdicts. */
  lemma {:induction false} VerdictsPrefix(year: int, month: int, days: seq<(string, RawItem)>, n: nat)
    requires n <= |days|
    ensures Verdicts(year, month, days[..n]) == Verdicts(year, month, days)[..n]
    decreases |days|
  {
    if n < |days| {
      var m := |days| - 1;
      VerdictsPrefix(year, month, days[..m], n);
      assert days[..m][..n] == days[..n];
    } else {
      assert days[..n] == days;
    }
  }

  /** An interesting item has key k exactly when a verdict keeps one with key k. */
  lemma KeptKeyVerdicts(year: int, month: int, days: seq<(string, RawItem)>, k: string)
    ensures KeptKey(year, month, days, k) <==> KeptIn(Verdicts(year, month, days), k)
  {
    var vs := Verdicts(year, month, days);
    if KeptKey(year, month, days, k) {
      var i :| 0 <= i < |days| && days[i].0 == k && KeptAt(year, month, days, i);
      VerdictAt(year, month, days, i);
      assert vs[i].0 == k && Keeps(vs[i]);
    }
    if KeptIn(vs, k) {
      var i :| 0 <= i < |vs| && vs[i].0 == k && Keeps(vs[i]);
      VerdictAt(year, month, days, i);
      assert days[i].0 == k && KeptAt(year, month, days, i);
    }
  }

  /** The compact table before and after the last item of the reply. */
  lemma CompactLast(table: map<string, Entry>, year: int, month: int, days: seq<(string, RawItem)>)
    requires days != []
    ensures var n := |days| - 1;
      var before := Compact(table, year, month, days[..n]);
      Compact(table, year, month, days)
        == if KeptAt(year, month, days, n)
           then before[days[n].0 := Detail(ClassifyItem(year, month, days[n].0, days[n].1).value.0)]
           else before
  {
    var n := |days| - 1;
    VerdictsPrefix(year, month, days, n);
    VerdictAt(year, month, days, n);
  }

  /** A verdict keeps k exactly when one before the last does, or the last does. */
  lemma KeptInLast(vs: seq<Verdict>, k: string)
    requires vs != []
    ensures var n := |vs| - 1;
      KeptIn(vs, k) <==> KeptIn(vs[..n], k) || (vs[n].0 == k && Keeps(vs[n]))
  {
    var n := |vs| - 1;
    var pre := vs[..n];
    if KeptIn(vs, k) {
      var i :| 0 <= i < |vs| && vs[i].0 == k && Keeps(vs[i]);
      if i < n {
        assert pre[i] == vs[i];
      }
    }
    if KeptIn(pre, k) {
      var i :| 0 <= i < |pre| && pre[i].0 == k && Keeps(pre[i]);
      assert pre[i] == vs[i];
    }
  }

  /** The compact table holds exactly the old keys and the keys of the interesting items. */
  lemma CompactKeys(table: map<string, Entry>, year: int, month: int,
                    days: seq<(string, RawItem)>, k: string)
    ensures k in Compact(table, year, month, days) <==> k in table || KeptKey(year, month, days, k)
  {
    KeptKeyVerdicts(year, month, days, k);
    CompactOfKeys(table, Verdicts(year, month, days), k);
  }

  lemma {:induction false} CompactOfKeys(table: map<string, Entry>, vs: seq<Verdict>, k: string)
    ensures k in CompactOf(table, vs) <==> k in table || KeptIn(vs, k)
    decreases |vs|
  {
    if vs != [] {
      CompactOfKeys(table, vs[..|vs| - 1], k);
      KeptInLast(vs, k);
    }
  }

  /** An interesting item's slot holds that item, since no other item of the reply has its key. */
  lemma CompactKeptSlot(table: map<string, Entry>, year: int, month: int,
                        days: seq<(string, RawItem)>, i: nat)
    requires DistinctKeys(days)
    requires i < |days| && KeptAt(year, month, days, i)
    ensures days[i].0 in Compact(table, year, month, days)
    ensures Compact(table, year, month, days)[days[i].0]
         == Detail(ClassifyItem(year, month, days[i].0, days[i].1).value.0)
  {
    var vs := Verdicts(year, month, days);
    VerdictAt(year, month, days, i);
    var upto := vs[..i + 1];
    assert upto[..i] == vs[..i] && upto[i] == vs[i];
    assert CompactOf(table, upto)[vs[i].0] == Detail(vs[i].1.value.0);
    forall j | i + 1 <= j < |vs| ensures vs[j].0 != vs[i].0 {
      VerdictAt(year, month, days, j);
      assert days[j].0 != days[i].0;
    }
    CompactOfUpTo(table, vs, i + 1, |vs|, vs[i].0);
    assert vs[..|vs|] == vs;
  }

  /** The slot k after the first q verdicts, for p <= q, is what the first p made it when no later key is k. */
  lemma {:induction false} CompactOfUpTo(table: map<string, Entry>, vs: seq<Verdict>, p: nat, q: nat, k: string)
    requires p <= q <= |vs| && k in CompactOf(table, vs[..p])
    requires forall j :: p <= j < |vs| ==> vs[j].0 != k
    ensures k in CompactOf(table, vs[..q])
    ensures CompactOf(table, vs[..q])[k] == CompactOf(table, vs[..p])[k]
    decreases q
  {
    if q > p {
      CompactOfUpTo(table, vs, p, q - 1, k);
      var upto := vs[..q];
      assert upto[..q - 1] == vs[..q - 1] && upto[q - 1] == vs[q - 1];
    } else {
      assert vs[..q] == vs[..p];
    }
  }

  /** A slot no interesting item of the reply names keeps its old entry. */
  lemma CompactOtherSlot(table: map<string, Entry>, year: int, month: int,
                         days: seq<(string, RawItem)>, k: string)
    requires k in table && !KeptKey(year, month, days, k)
    ensures k in Compact(table, year, month, days) && Compact(table, year, month, days)[k] == table[k]
  {
    KeptKeyVerdicts(year, month, days, k);
    CompactOfOtherSlot(table, Verdicts(year, month, days), k);
  }

  lemma {:induction false} CompactOfOtherSlot(table: map<string, Entry>, vs: seq<Verdict>, k: string)
    requires k in table && !KeptIn(vs, k)
    ensures k in CompactOf(table, vs) && CompactOf(table, vs)[k] == table[k]
    decreases |vs|
  {
    if vs != [] {
      KeptInLast(vs, k);
      CompactOfOtherSlot(table, vs[..|vs| - 1], k);
    }
  }

  /** The full list holds one record per accepted item, each carrying a `day` field. */
  lemma BackupContents(year: int, month: int, days: seq<(string, RawItem)>)
    ensures |Backup(year, month, days)| <= |days|
    ensures forall j :: 0 <= j < |Backup(year, month, days)| ==> "day" in Backup(year, month, days)[j]
    ensures (forall i :: 0 <= i < |days| ==> Accepted(year, month, days, i)) ==> |Backup(year, month, days)| == |days|
  {
    var vs := Verdicts(year, month, days);
    BackupOfLength(vs);
    forall i | 0 <= i < |vs| && vs[i].1.Some? ensures "day" in vs[i].1.value.0 {
      VerdictAt(year, month, days, i);
      ClassifiedRecord(year, month, days[i].0, days[i].1);
    }
    forall j | 0 <= j < |BackupOf(vs)| ensures "day" in BackupOf(vs)[j] {
      BackupOfHasDay(vs, j);
    }
    if forall i :: 0 <= i < |days| ==> Accepted(year, month, days, i) {
      forall i | 0 <= i < |vs| ensures vs[i].1.Some? {
        VerdictAt(year, month, days, i);
        assert Accepted(year, month, days, i);
      }
    }
  }

  /** The full list before and after the last item of the reply. */
  lemma BackupLast(year: int, month: int, days: seq<(string, RawItem)>)
    requires days != []
    ensures var n := |days| - 1;
      Backup(year, month, days)
        == Backup(year, month, days[..n])
           + if Accepted(year, month, days, n) then [ClassifyItem(year, month, days[n].0, days[n].1).value.0] else []
  {
    var n := |days| - 1;
    VerdictsPrefix(year, month, days, n);
    VerdictAt(year, month, days, n);
  }

  /** One record per accepted verdict: no more than the verdicts, and all of them when every item is accepted. */
  lemma {:induction false} BackupOfLength(vs: seq<Verdict>)
    ensures |BackupOf(vs)| <= |vs|
    ensures (forall i :: 0 <= i < |vs| ==> vs[i].1.Some?) ==> |BackupOf(vs)| == |vs|
    decreases |vs|
  {
    if vs != [] {
      var n := |vs| - 1;
      var pre := vs[..n];
      BackupOfLength(pre);
      if forall i :: 0 <= i < |vs| ==> vs[i].1.Some? {
        forall i | 0 <= i < |pre| ensures pre[i].1.Some? {
          assert pre[i] == vs[i];
        }
        assert vs[n].1.Some?;
      }
    }
  }

  /** When every accepted item carries a `day` field, so does every record of the full list. */
  lemma {:induction false} BackupOfHasDay(vs: seq<Verdict>, j: nat)
    requires forall i :: 0 <= i < |vs| && vs[i].1.Some? ==> "day" in vs[i].1.value.0
    requires j < |BackupOf(vs)|
    ensures "day" in BackupOf(vs)[j]
    decreases |vs|
  {
    var n := |vs| - 1;
    var pre := vs[..n];
    if j < |BackupOf(pre)| {
      forall i | 0 <= i < |pre| && pre[i].1.Some? ensures "day" in pre[i].1.value.0 {
        assert pre[i] == vs[i];
      }
      BackupOfHasDay(pre, j);
    } else {
      assert vs[n].1.Some?;
    }
  }

  /** Every record the compact table gains records a status code 0, 1 or 2. */
  lemma CompactWellFormed(table: map<string, Entry>, year: int, month: int, days: seq<(string, RawItem)>)
    requires TableWellFormed(table)
    ensures TableWellFormed(Compact(table, year, month, days))
  {
    var vs := Verdicts(year, month, days);
    forall i | 0 <= i < |vs| && Keeps(vs[i]) ensures CodeInRange(Detail(vs[i].1.value.0)) {
      VerdictAt(year, month, days, i);
      ClassifiedRecord(year, month, days[i].0, days[i].1);
      assert EntryStatus(Detail(vs[i].1.value.0)) == TypeCode(vs[i].1.value.0);
    }
    CompactOfWellFormed(table, vs);
  }

  /** The entry records a status code 0, 1 or 2. */
  predicate CodeInRange(e: Entry) {
    EntryStatus(e).Ok? && 0 <= EntryStatus(e).value <= 2
  }

  lemma {:induction false} CompactOfWellFormed(table: map<string, Entry>, vs: seq<Verdict>)
    requires TableWellFormed(table)
    requires forall i :: 0 <= i < |vs| && Keeps(vs[i]) ==> CodeInRange(Detail(vs[i].1.value.0))
    ensures TableWellFormed(CompactOf(table, vs))
    decreases |vs|
  {
    if vs != [] {
      var n := |vs| - 1;
      var pre := vs[..n];
      forall i | 0 <= i < |pre| && Keeps(pre[i]) ensures CodeInRange(Detail(pre[i].1.value.0)) {
        assert pre[i] == vs[i];
      }
      CompactOfWellFormed(table, pre);
      if Keeps(vs[n]) {
        assert CodeInRange(Detail(vs[n].1.value.0));
      }
    }
  }

  /**
   * `_fetch_month_data` on one month's reply: the compact year table and the
   * full list after the per-day loop.
   */
  method FetchMonth(year: int, month: int, resp: MonthResponse, table: map<string, Entry>, full: seq<Record>)
    returns (table': map<string, Entry>, full': seq<Record>)
    ensures table' == Compact(table, year, month, Days(resp))
    ensures full' == full + Backup(year, month, Days(resp))
  {
    if resp.Failed? {
      return table, full;
    }
    table', full' := FetchDays(year, month, resp.days, table, full);
  }

  /** The per-day loop of `_fetch_month_data` over the items of a reply. */
  method FetchDays(year: int, month: int, days: seq<(string, RawItem)>, table: map<string, Entry>, full: seq<Record>)
    returns (table': map<string, Entry>, full': seq<Record>)
    ensures table' == Compact(table, year, month, days)
    ensures full' == full + Backup(year, month, days)
  {
    table', full' := table, full;
    ghost var vs := Verdicts(year, month, days);
    var i := 0;
    while i < |days|
      invariant 0 <= i <= |days|
      invariant table' == CompactOf(table, vs[..i])
      invariant full' == full + BackupOf(vs[..i])
    {
      VerdictAt(year, month, days, i);
      PrefixStep(table, vs, i);
      var (key, raw) := days[i];
      table', full' := FetchItem(year, month, key, raw, table', full');
      i := i + 1;
    }
    assert vs[..|days|] == vs;
  }

  /** The compact table and the new records after one more verdict. */
  lemma PrefixStep(table: map<string, Entry>, vs: seq<Verdict>, i: nat)
    requires i < |vs|
    ensures CompactOf(table, vs[..i + 1]) == Stored(CompactOf(table, vs[..i]), vs[i])
    ensures BackupOf(vs[..i + 1]) == BackupOf(vs[..i]) + Appended(vs[i])
  {
    assert vs[..i + 1][..i] == vs[..i];
  }

  /** One pass of the per-day loop: the item is stored when interesting and appended when accepted. */
  method FetchItem(year: int, month: int, key: string, raw: RawItem, table: map<string, Entry>, full: seq<Record>)
    returns (table': map<string, Entry>, full': seq<Record>)
    ensures table' == Stored(table, Judge(year, month, (key, raw)))
    ensures full' == full + Appended(Judge(year, month, (key, raw)))
  {
    table', full' := table, full;
    var c := ClassifyItem(year, month, key, raw);
    if c.Some? {
      var (f, keep) := c.value;
      if keep {
        table' := table'[key := Detail(f)];
      }
      full' := full' + [f];
    }
  }

  // ---------------------------------------------------------------------
  // The whole refresh

  /** The year tables of `new_data` after the first i of the six months. */
  function RefreshedYears(years: map<string, map<string, Entry>>, now: Instant, api: (int, int) -> MonthResponse, i: nat)
    : map<string, map<string, Entry>>
  {
    if i == 0 then years
    else
      var prev := RefreshedYears(years, now, api, i - 1);
      var (y, m) := AddMonths(now.date, i - 1);
      var ys := YearKey(y);
      var table := if ys in prev then prev[ys] else map[];
      prev[ys := Compact(table, y, m, Days(api(y, m)))]
  }

  /** The full list after the first i of the six months. */
  function FetchedRecords(now: Instant, api: (int, int) -> MonthResponse, i: nat): seq<Record> {
    if i == 0 then []
    else
      var (y, m) := AddMonths(now.date, i - 1);
      FetchedRecords(now, api, i - 1) + Backup(y, m, Days(api(y, m)))
  }

  /**
   * What a failed JSON write leaves in `_holiday_json`: `new_data` was a
   * shallow copy, so each year table that existed before is the very table
   * the fetch filled in; the years new to `new_data` are lost.
   */
  function Aliased(years: map<string, map<string, Entry>>, refreshed: map<string, map<string, Entry>>)
    : map<string, map<string, Entry>>
    requires years.Keys <= refreshed.Keys
  {
    map y | y in years :: refreshed[y]
  }

  /** A refresh only adds: every year and every day the snapshot had, it still has. */
  lemma RefreshOnlyAdds(years: map<string, map<string, Entry>>, now: Instant,
                        api: (int, int) -> MonthResponse, i: nat)
    ensures forall y :: y in years ==>
      (y in RefreshedYears(years, now, api, i) && years[y].Keys <= RefreshedYears(years, now, api, i)[y].Keys)
  {
    forall y | y in years
      ensures y in RefreshedYears(years, now, api, i) && years[y].Keys <= RefreshedYears(years, now, api, i)[y].Keys
    {
      RefreshKeepsYear(years, now, api, i, y);
    }
  }

  /** A year the snapshot had stays, with every day it had. */
  lemma {:induction false} RefreshKeepsYear(years: map<string, map<string, Entry>>, now: Instant,
                                          api: (int, int) -> MonthResponse, i: nat, x: string)
    requires x in years
    ensures x in RefreshedYears(years, now, api, i) && years[x].Keys <= RefreshedYears(years, now, api, i)[x].Keys
  {
    if i > 0 {
      var j := i - 1;
      RefreshKeepsYear(years, now, api, j, x);
      var prev := RefreshedYears(years, now, api, j);
      var ym := AddMonths(now.date, j);
      RefreshedStep(years, now, api, j, ym.0, ym.1);
      var ys := YearKey(ym.0);
      var table := if ys in prev then prev[ys] else map[];
      var t := Compact(table, ym.0, ym.1, Days(api(ym.0, ym.1)));
      CompactGrows(table, ym.0, ym.1, Days(api(ym.0, ym.1)));
      StoreKeepsYear(years[x], prev, x, ys, t);
    }
  }

  /** Storing a table that extends the old one under a year key keeps every day of every year. */
  lemma StoreKeepsYear(days: map<string, Entry>, prev: map<string, map<string, Entry>>, x: string,
                       ys: string, t: map<string, Entry>)
    requires x in prev && days.Keys <= prev[x].Keys
    requires ys in prev ==> prev[ys].Keys <= t.Keys
    ensures x in prev[ys := t] && days.Keys <= prev[ys := t][x].Keys
  {
  }

  lemma CompactGrows(table: map<string, Entry>, year: int, month: int, days: seq<(string, RawItem)>)
    ensures table.Keys <= Compact(table, year, month, days).Keys
  {
    CompactOfGrows(table, Verdicts(year, month, days));
  }

  lemma {:induction false} CompactOfGrows(table: map<string, Entry>, vs: seq<Verdict>)
    ensures table.Keys <= CompactOf(table, vs).Keys
    decreases |vs|
  {
    if vs != [] {
      CompactOfGrows(table, vs[..|vs| - 1]);
    }
  }

  /** A refresh keeps a well-formed snapshot well-formed. */
  lemma {:induction false} RefreshKeepsWellFormed(years: map<string, map<string, Entry>>, now: Instant,
                                                api: (int, int) -> MonthResponse, i: nat)
    requires WellFormed(Snapshot(None, years))
    ensures WellFormed(Snapshot(None, RefreshedYears(years, now, api, i)))
  {
    if i > 0 {
      var j := i - 1;
      RefreshKeepsWellFormed(years, now, api, j);
      var prev := RefreshedYears(years, now, api, j);
      var ym := AddMonths(now.date, j);
      RefreshedStep(years, now, api, j, ym.0, ym.1);
      var ys := YearKey(ym.0);
      var table := if ys in prev then prev[ys] else map[];
      CompactWellFormed(table, ym.0, ym.1, Days(api(ym.0, ym.1)));
      StoreKeepsWellFormed(prev, ys, Compact(table, ym.0, ym.1, Days(api(ym.0, ym.1))));
    }
  }

  /** Storing a well-formed table under a year key keeps the snapshot well-formed. */
  lemma StoreKeepsWellFormed(prev: map<string, map<string, Entry>>, ys: string, t: map<string, Entry>)
    requires WellFormed(Snapshot(None, prev)) && TableWellFormed(t)
    ensures WellFormed(Snapshot(None, prev[ys := t]))
  {
    var next := prev[ys := t];
    forall y | y in next ensures TableWellFormed(next[y]) {
      if y != ys {
        assert TableWellFormed(prev[y]);
      }
    }
  }

  /** What `_get_year_month(k)` returns is the k-th month of the window. */
  lemma MonthOfWindow(d: Date, i: nat, y: int, m: int)
    requires y * 12 + (m - 1) == d.year * 12 + (d.month - 1) + i
    requires 1 <= m <= 12
    ensures (y, m) == AddMonths(d, i)
  {
    AddMonthsCount(d, i);
    MonthCountUnique(y, m, AddMonths(d, i).0, AddMonths(d, i).1);
  }

  /** One more month of the window: its table is compacted, its items appended. */
  lemma RefreshedStep(years: map<string, map<string, Entry>>, now: Instant, api: (int, int) -> MonthResponse,
                      i: nat, y: int, m: int)
    requires (y, m) == AddMonths(now.date, i)
    ensures var prev := RefreshedYears(years, now, api, i);
      RefreshedYears(years, now, api, i + 1)
        == prev[YearKey(y) := Compact(if YearKey(y) in prev then prev[YearKey(y)] else map[], y, m, Days(api(y, m)))]
    ensures FetchedRecords(now, api, i + 1) == FetchedRecords(now, api, i) + Backup(y, m, Days(api(y, m)))
  {
  }

  /**
   * The loop of `get_holidays_from_server` over the six months: the year
   * tables of `new_data` (a table created empty for a year it lacks) and the
   * full list.
   */
  method FetchWindow(years: map<string, map<string, Entry>>, now: Instant, api: (int, int) -> MonthResponse)
    returns (newYears: map<string, map<string, Entry>>, full: seq<Record>)
    ensures newYears == RefreshedYears(years, now, api, 6)
    ensures full == FetchedRecords(now, api, 6)
  {
    newYears := years;
    full := [];
    var i := 0;
    while i < 6
      invariant 0 <= i <= 6
      invariant newYears == RefreshedYears(years, now, api, i)
      invariant full == FetchedRecords(now, api, i)
    {
      newYears, full := FetchNextMonth(years, now, api, i, newYears, full);
      i := i + 1;
    }
  }

  /** One iteration of the loop: fetch month i of the window into its year's table. */
  method FetchNextMonth(years: map<string, map<string, Entry>>, now: Instant, api: (int, int) -> MonthResponse,
                        i: nat, newYears: map<string, map<string, Entry>>, full: seq<Record>)
    returns (newYears': map<string, map<string, Entry>>, full': seq<Record>)
    requires newYears == RefreshedYears(years, now, api, i)
    requires full == FetchedRecords(now, api, i)
    ensures newYears' == RefreshedYears(years, now, api, i + 1)
    ensures full' == FetchedRecords(now, api, i + 1)
  {
    var y, m := YearMonth(now.date, i);
    MonthOfWindow(now.date, i, y, m);
    var ys := YearKey(y);
    var start := if ys in newYears then newYears[ys] else map[];
    var table, records := FetchMonth(y, m, api(y, m), start, full);
    RefreshedStep(years, now, api, i, y, m);
    newYears' := newYears[ys := table];
    full' := records;
  }

  /** The engine: the snapshot it answers queries from. */
  class Holiday {
    var snapshot: Snapshot

    /** The engine over the snapshot `get_holidays_from_disk` loaded. */
    constructor (loaded: Snapshot)
      ensures snapshot == loaded
    {
      snapshot := loaded;
    }

    /**
     * `get_holidays_from_server(days)`: unless the snapshot is fresh, fetch
     * the current month and the next five, then write the JSON file. When
     * the write succeeds, the snapshot becomes `new_data` stamped with
     * today's date and the full list goes to the database backup; when it
     * fails, the snapshot keeps its stamp and its year set, but the year
     * tables it shared with `new_data` have been filled in all the same.
     */
    method GetHolidaysFromServer(days: int, now: Instant, api: (int, int) -> MonthResponse, jsonWritten: bool)
      returns (backup: Option<seq<Record>>)
      modifies this
      ensures SkipRefresh(old(snapshot), now, days) ==> snapshot == old(snapshot) && backup.None?
      ensures !SkipRefresh(old(snapshot), now, days) && jsonWritten ==>
        && snapshot == Snapshot(Some(FormatIsoDate(now.date)), RefreshedYears(old(snapshot).years, now, api, 6))
        && backup == Some(FetchedRecords(now, api, 6))
      ensures !SkipRefresh(old(snapshot), now, days) && !jsonWritten ==>
        && old(snapshot).years.Keys <= RefreshedYears(old(snapshot).years, now, api, 6).Keys
        && snapshot == Snapshot(old(snapshot).updateTime,
                                Aliased(old(snapshot).years, RefreshedYears(old(snapshot).years, now, api, 6)))
        && backup.None?
    {
      if SkipRefresh(snapshot, now, days) {
        return None;
      }
      var years := snapshot.years;
      var newYears, full := FetchWindow(years, now, api);
      RefreshOnlyAdds(years, now, api, 6);
      if jsonWritten {
        snapshot := Snapshot(Some(FormatIsoDate(now.date)), newYears);
        backup := Some(full);
      } else {
        snapshot := Snapshot(snapshot.updateTime, Aliased(years, newYears));
        backup := None;
      }
    }
  }

  /**
   * Right after a successful refresh the snapshot is dated today, so a
   * second call with a positive threshold fetches again only when this
   * year's table is still empty.
   */
  lemma FreshAfterRefresh(years: map<string, map<string, Entry>>, now: Instant, api: (int, int) -> MonthResponse, days: int)
    ensures var snap := Snapshot(Some(FormatIsoDate(now.date)), RefreshedYears(years, now, api, 6));
      LastUpdate(snap) == now.date
      && (SkipRefresh(snap, now, days) <==> days > 0 && HasCurrentYear(snap, now))
  {
    var snap := Snapshot(Some(FormatIsoDate(now.date)), RefreshedYears(years, now, api, 6));
    IsoDateRoundTrip(now.date);
    SkipRefreshMeaning(snap, now, days);
  }
}
