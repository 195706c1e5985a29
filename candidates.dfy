/**
 * The nearest-holiday search: the statutory-holiday dates of this year and
 * next that are not yet past (`_collect_holiday_candidates`, with
 * `_is_holiday_item` and `_parse_holiday_date`), and the two queries that take
 * the first of them inside a window of day offsets (`get_nearest_holiday`,
 * `nearest_holiday_info`, and the day counts of `_format_holiday_info`).
 */
module Candidates {
  import opened Dates
  import opened Text
  import opened Records
  import opened Calendar
  import opened Scans

  // ---------------------------------------------------------------------
  // One table slot

  /** `_is_holiday_item`: whether an entry records the statutory-holiday code; Err where `int(...)` raises. */
  function IsHolidayItem(e: Entry): (r: Result<bool>)
    ensures r.Err? <==> EntryStatus(e).Err?
    ensures r.Ok? ==> (r.value <==> EntryStatus(e).value == StatutoryHoliday)
  {
    match EntryStatus(e)
    case Ok(t) => Ok(t == 2)
    case Err(x) => Err(x)
  }

  /** Whether an entry carries its own `day` field (a full day object from the API or the database). */
  predicate HasDayField(e: Entry) {
    e.Detail? && "day" in e.fields
  }

  /** `"{}-{}-{}".format(year, month_day[0:2], month_day[2:])`, with Python's clamped slices. */
  function KeyDateText(year: string, md: string): string {
    var cut := if |md| < 2 then |md| else 2;
    year + "-" + md[..cut] + "-" + md[cut..]
  }

  /**
   * `_parse_holiday_date`: the date an entry stands for. An entry with a
   * `day` field is read as `%Y%m%d`; any other entry is read from its year
   * and MMDD keys as `%Y-%m-%d`. An unparsable text gives Ok(None) (the
   * caught ValueError). A `day` field that is not a string makes `strptime`
   * raise TypeError, which is not caught: Err.
   */
  function ParseHolidayDate(e: Entry, year: string, md: string): (r: Result<Option<Date>>)
    ensures HasDayField(e) ==> (r.Ok? <==> e.fields["day"].VStr?)
    ensures HasDayField(e) && r.Ok? ==> r.value == ParseCompactDate(e.fields["day"].s)
    ensures !HasDayField(e) ==> r == Ok(ParseIsoDate(KeyDateText(year, md)))
  {
    if HasDayField(e) then
      match e.fields["day"]
      case VStr(s) => Ok(ParseCompactDate(s))
      case _ => Err(BadValue)
    else Ok(ParseIsoDate(KeyDateText(year, md)))
  }

  /** The day offset `(date - today).days` of a date's midnight from the current instant. */
  function Offset(c: Date, now: Instant): int {
    ElapsedDays(Midnight(c), now)
  }

  /**
   * What one slot of a target year contributes to the candidate list: its
   * date when it is a statutory holiday whose date parses and is not in the
   * past, nothing otherwise, and Err where the slot makes the scan raise.
   */
  function SlotCandidate(e: Entry, year: string, md: string, now: Instant): Result<Option<Date>>
  {
    match IsHolidayItem(e)
    case Err(x) => Err(x)
    case Ok(false) => Ok(None)
    case Ok(true) =>
      match ParseHolidayDate(e, year, md)
      case Err(x) => Err(x)
      case Ok(None) => Ok(None)
      case Ok(Some(c)) => if Offset(c, now) >= 0 then Ok(Some(c)) else Ok(None)
  }

  /**
   * A slot contributes a date exactly when it is a statutory holiday whose
   * date parses and lies at an offset of at least 0; it raises exactly when
   * its status does not convert, or when it is a holiday whose `day` field
   * is not a string.
   */
  lemma SlotCandidateMeaning(e: Entry, year: string, md: string, now: Instant)
    ensures SlotCandidate(e, year, md, now).Err? <==>
      IsHolidayItem(e).Err? || (IsHolidayItem(e) == Ok(true) && ParseHolidayDate(e, year, md).Err?)
    ensures forall c: Date :: SlotCandidate(e, year, md, now) == Ok(Some(c)) <==>
      IsHolidayItem(e) == Ok(true) && ParseHolidayDate(e, year, md) == Ok(Some(c)) && Offset(c, now) >= 0
  {
  }

  // ---------------------------------------------------------------------
  // The candidate list

  /** `[y for y in table if y in (str(today.year), str(today.year + 1))]`. */
  function TargetYears(snap: Snapshot, now: Instant): set<string> {
    snap.years.Keys * {YearKey(now.date.year), YearKey(now.date.year + 1)}
  }

  /** The slots of the target years that contribute the date c. */
  ghost function SlotsFor(snap: Snapshot, now: Instant, c: Date): set<(string, string)> {
    set y, k | y in TargetYears(snap, now) && y in snap.years && k in snap.years[y]
                && SlotCandidate(snap.years[y][k], y, k, now) == Ok(Some(c)) :: (y, k)
  }

  /** Some slot of a target year makes the collection raise. */
  ghost predicate CollectFails(snap: Snapshot, now: Instant) {
    exists y, k :: y in TargetYears(snap, now) && y in snap.years && k in snap.years[y]
                   && SlotCandidate(snap.years[y][k], y, k, now).Err?
  }

  predicate Chronological(cs: seq<Date>) {
    forall i, j :: 0 <= i < j < |cs| ==> Ordinal(cs[i]) <= Ordinal(cs[j])
  }

  /**
   * cs is the candidate list: ascending, and holding each date exactly as
   * many times as there are slots contributing it.
   */
  ghost predicate CandidateList(snap: Snapshot, now: Instant, cs: seq<Date>) {
    Chronological(cs) && forall c: Date :: multiset(cs)[c] == |SlotsFor(snap, now, c)|
  }

  /** A date is a candidate when some slot contributes it. */
  ghost predicate Listed(snap: Snapshot, now: Instant, c: Date) {
    SlotsFor(snap, now, c) != {}
  }

  /** `candidates.sort()`: insertion of one date into an ascending list. */
  function Insert(c: Date, cs: seq<Date>): (r: seq<Date>)
    requires Chronological(cs)
    ensures Chronological(r) && multiset(r) == multiset(cs) + multiset{c}
  {
    if cs == [] then [c]
    else if Ordinal(c) <= Ordinal(cs[0]) then [c] + cs
    else
      var rest := Insert(c, cs[1..]);
      InsertBehindHead(c, cs, rest);
      [cs[0]] + rest
  }

  /** The head of cs followed by c inserted into its tail is ascending and holds cs and c. */
  lemma InsertBehindHead(c: Date, cs: seq<Date>, rest: seq<Date>)
    requires Chronological(cs) && cs != [] && Ordinal(cs[0]) < Ordinal(c)
    requires Chronological(rest) && multiset(rest) == multiset(cs[1..]) + multiset{c}
    ensures Chronological([cs[0]] + rest) && multiset([cs[0]] + rest) == multiset(cs) + multiset{c}
  {
    assert cs == [cs[0]] + cs[1..];
    forall i | 0 <= i < |rest| ensures Ordinal(cs[0]) <= Ordinal(rest[i]) {
      InsertedAbove(c, cs, rest, i);
    }
    ConsChronological(cs[0], rest);
  }

  /** A date no later than every element of an ascending list keeps it ascending when put in front. */
  lemma ConsChronological(x: Date, rest: seq<Date>)
    requires Chronological(rest)
    requires forall i :: 0 <= i < |rest| ==> Ordinal(x) <= Ordinal(rest[i])
    ensures Chronological([x] + rest)
  {
    var r := [x] + rest;
    forall i, j | 0 <= i < j < |r| ensures Ordinal(r[i]) <= Ordinal(r[j]) {
      assert r[j] == rest[j - 1];
      if i > 0 {
        assert r[i] == rest[i - 1];
      }
    }
  }

  /** Each element of c inserted into the tail of cs, with c after the head, is no earlier than the head. */
  lemma InsertedAbove(c: Date, cs: seq<Date>, rest: seq<Date>, i: int)
    requires Chronological(cs) && cs != [] && Ordinal(cs[0]) < Ordinal(c)
    requires multiset(rest) == multiset(cs[1..]) + multiset{c} && 0 <= i < |rest|
    ensures Ordinal(cs[0]) <= Ordinal(rest[i])
  {
    var x := rest[i];
    assert x in multiset(rest);
    if x != c {
      assert x in multiset(cs[1..]);
      assert x in cs[1..];
      var k :| 0 <= k < |cs| - 1 && cs[1..][k] == x;
      assert cs[k + 1] == x;
    }
  }

  /** `candidates.sort()`: the dates in ascending order. */
  function SortDates(cs: seq<Date>): (r: seq<Date>)
    ensures Chronological(r) && multiset(r) == multiset(cs)
  {
    if cs == [] then []
    else
      assert cs == [cs[0]] + cs[1..];
      Insert(cs[0], SortDates(cs[1..]))
  }

  /** The slots contributing c among the finished years and the keys seen so far of the current one. */
  ghost function SlotsSoFar(snap: Snapshot, now: Instant, done: set<string>, y: string, seen: set<string>, c: Date)
    : set<(string, string)>
  {
    set y', k | y' in snap.years && k in snap.years[y'] && (y' in done || (y' == y && k in seen))
                 && SlotCandidate(snap.years[y'][k], y', k, now) == Ok(Some(c)) :: (y', k)
  }

  /** found holds each date as many times as the slots seen so far contribute it. */
  ghost predicate Tally(snap: Snapshot, now: Instant, done: set<string>, y: string, seen: set<string>, found: seq<Date>) {
    forall c: Date :: multiset(found)[c] == |SlotsSoFar(snap, now, done, y, seen, c)|
  }

  /** No slot of year y among keys makes the collection raise. */
  ghost predicate YearOk(snap: Snapshot, now: Instant, y: string, keys: set<string>)
    requires y in snap.years
  {
    forall k :: k in keys && k in snap.years[y] ==> SlotCandidate(snap.years[y][k], y, k, now).Ok?
  }

  lemma TallyStart(snap: Snapshot, now: Instant, done: set<string>, y: string, found: seq<Date>)
    requires Tally(snap, now, done, "", {}, found)
    ensures Tally(snap, now, done, y, {}, found)
  {
    forall c: Date ensures multiset(found)[c] == |SlotsSoFar(snap, now, done, y, {}, c)| {
      assert SlotsSoFar(snap, now, done, y, {}, c) == SlotsSoFar(snap, now, done, "", {}, c);
    }
  }

  lemma SlotsSoFarStep(snap: Snapshot, now: Instant, done: set<string>, y: string, seen: set<string>, k: string, c: Date)
    requires y in snap.years && k in snap.years[y] && k !in seen && y !in done
    ensures |SlotsSoFar(snap, now, done, y, seen + {k}, c)|
         == |SlotsSoFar(snap, now, done, y, seen, c)|
            + (if SlotCandidate(snap.years[y][k], y, k, now) == Ok(Some(c)) then 1 else 0)
  {
    var before := SlotsSoFar(snap, now, done, y, seen, c);
    var after := SlotsSoFar(snap, now, done, y, seen + {k}, c);
    var extra := if SlotCandidate(snap.years[y][k], y, k, now) == Ok(Some(c)) then {(y, k)} else {};
    forall p | p in after ensures p in before + extra {
    }
    forall p | p in before + extra ensures p in after {
    }
    assert after == before + extra;
    assert (y, k) !in before;
  }

  /** Taking in one more key of the current year keeps the tally. */
  lemma TallyStep(snap: Snapshot, now: Instant, done: set<string>, y: string, seen: set<string>, k: string,
                  found: seq<Date>, found': seq<Date>)
    requires y in snap.years && k in snap.years[y] && k !in seen && y !in done
    requires Tally(snap, now, done, y, seen, found)
    requires SlotCandidate(snap.years[y][k], y, k, now).Ok?
    requires found' == found + (match SlotCandidate(snap.years[y][k], y, k, now).value
                                case Some(x) => [x] case None => [])
    ensures Tally(snap, now, done, y, seen + {k}, found')
  {
    forall c: Date ensures multiset(found')[c] == |SlotsSoFar(snap, now, done, y, seen + {k}, c)| {
      SlotsSoFarStep(snap, now, done, y, seen, k, c);
    }
  }

  /** A finished year joins the finished years. */
  lemma TallyYear(snap: Snapshot, now: Instant, done: set<string>, y: string, found: seq<Date>)
    requires y in snap.years
    requires Tally(snap, now, done, y, snap.years[y].Keys, found)
    ensures Tally(snap, now, done + {y}, "", {}, found)
  {
    forall c: Date ensures multiset(found)[c] == |SlotsSoFar(snap, now, done + {y}, "", {}, c)| {
      assert SlotsSoFar(snap, now, done, y, snap.years[y].Keys, c) == SlotsSoFar(snap, now, done + {y}, "", {}, c);
    }
  }

  lemma NoFailure(snap: Snapshot, now: Instant)
    requires forall y :: y in TargetYears(snap, now) ==> YearOk(snap, now, y, snap.years[y].Keys)
    ensures !CollectFails(snap, now)
  {
  }

  lemma FailureAt(snap: Snapshot, now: Instant, y: string, k: string)
    requires y in TargetYears(snap, now) && k in snap.years[y] && SlotCandidate(snap.years[y][k], y, k, now).Err?
    ensures CollectFails(snap, now)
  {
  }

  /** A target year with a failing slot makes the collection fail. */
  lemma YearFails(snap: Snapshot, now: Instant, y: string)
    requires y in TargetYears(snap, now) && !YearOk(snap, now, y, snap.years[y].Keys)
    ensures CollectFails(snap, now)
  {
    var k :| k in snap.years[y] && SlotCandidate(snap.years[y][k], y, k, now).Err?;
    FailureAt(snap, now, y, k);
  }

  /** The tally over all target years is the candidate count. */
  lemma TallyDone(snap: Snapshot, now: Instant, found: seq<Date>)
    requires Tally(snap, now, TargetYears(snap, now), "", {}, found)
    ensures forall c: Date :: multiset(SortDates(found))[c] == |SlotsFor(snap, now, c)|
  {
    forall c: Date ensures multiset(SortDates(found))[c] == |SlotsFor(snap, now, c)| {
      assert SlotsSoFar(snap, now, TargetYears(snap, now), "", {}, c) == SlotsFor(snap, now, c);
    }
  }

  /** With every target year tallied and none failing, the sorted dates are the candidate list. */
  lemma CollectedList(snap: Snapshot, now: Instant, found: seq<Date>)
    requires forall y :: y in TargetYears(snap, now) ==> YearOk(snap, now, y, snap.years[y].Keys)
    requires Tally(snap, now, TargetYears(snap, now), "", {}, found)
    ensures !CollectFails(snap, now) && CandidateList(snap, now, SortDates(found))
  {
    TallyDone(snap, now, found);
    NoFailure(snap, now);
  }

  /**
   * The inner loop of `_collect_holiday_candidates` over the table of year
   * y: found extended by the dates the table's slots contribute, or a
   * failure exactly when one of its slots raises.
   */
  method CollectYear(snap: Snapshot, now: Instant, ghost done: set<string>, y: string, found: seq<Date>)
    returns (r: Result<seq<Date>>)
    requires y in snap.years && y !in done
    requires Tally(snap, now, done, "", {}, found)
    ensures r.Ok? <==> YearOk(snap, now, y, snap.years[y].Keys)
    ensures r.Ok? ==> Tally(snap, now, done + {y}, "", {}, r.value)
  {
    var table := snap.years[y];
    var keys := table.Keys;
    ghost var seen: set<string> := {};
    var acc := found;
    TallyStart(snap, now, done, y, acc);
    while keys != {}
      invariant keys <= table.Keys && seen == table.Keys - keys
      invariant YearOk(snap, now, y, seen)
      invariant Tally(snap, now, done, y, seen, acc)
      decreases |keys|
    {
      var k :| k in keys;
      var res := SlotCandidate(table[k], y, k, now);
      if res.Err? {
        return Err(res.error);
      }
      ghost var before := acc;
      if res.value.Some? {
        acc := acc + [res.value.value];
      }
      TallyStep(snap, now, done, y, seen, k, before, acc);
      keys := keys - {k};
      seen := seen + {k};
    }
    assert seen == snap.years[y].Keys;
    TallyYear(snap, now, done, y, acc);
    return Ok(acc);
  }

  /**
   * `_collect_holiday_candidates`: the statutory-holiday dates of the current
   * and the next year whose offset from now is at least 0, in ascending
   * order. It fails exactly when some slot of those years raises.
   */
  method CollectHolidayCandidates(snap: Snapshot, now: Instant) returns (r: Result<seq<Date>>)
    ensures r.Ok? <==> !CollectFails(snap, now)
    ensures r.Ok? ==> CandidateList(snap, now, r.value)
  {
    var targets := TargetYears(snap, now);
    var todo := targets;
    var found: seq<Date> := [];
    while todo != {}
      invariant todo <= targets
      invariant forall y' :: y' in targets - todo ==> YearOk(snap, now, y', snap.years[y'].Keys)
      invariant Tally(snap, now, targets - todo, "", {}, found)
      decreases |todo|
    {
      var y :| y in todo;
      var res := CollectYear(snap, now, targets - todo, y, found);
      if res.Err? {
        YearFails(snap, now, y);
        return Err(res.error);
      }
      found := res.value;
      assert targets - (todo - {y}) == (targets - todo) + {y};
      todo := todo - {y};
    }
    assert targets - todo == targets;
    CollectedList(snap, now, found);
    r := Ok(SortDates(found));
  }

  // ---------------------------------------------------------------------
  // Properties of the candidate list

  /** The head of an ascending list is its least element. */
  lemma HeadIsLeast(a: seq<Date>, x: Date)
    requires Chronological(a) && x in a
    ensures Ordinal(a[0]) <= Ordinal(x)
  {
    var i :| 0 <= i < |a| && a[i] == x;
  }

  lemma HeadsEqual(a: seq<Date>, b: seq<Date>)
    requires Chronological(a) && Chronological(b) && multiset(a) == multiset(b) && a != [] && b != []
    ensures a[0] == b[0]
  {
    assert a[0] in multiset(b) && b[0] in multiset(a);
    HeadIsLeast(a, b[0]);
    HeadIsLeast(b, a[0]);
    OrdinalInjective(a[0], b[0]);
  }

  lemma TailsSameElements(a: seq<Date>, b: seq<Date>)
    requires multiset(a) == multiset(b) && a != [] && b != [] && a[0] == b[0]
    ensures multiset(a[1..]) == multiset(b[1..])
  {
    assert a == [a[0]] + a[1..];
    assert b == [b[0]] + b[1..];
    assert multiset(a) == multiset{a[0]} + multiset(a[1..]);
    assert multiset(b) == multiset{a[0]} + multiset(b[1..]);
    forall x ensures multiset(a[1..])[x] == multiset(b[1..])[x] {
      assert multiset(a)[x] == multiset(b)[x];
    }
  }

  lemma TailChronological(a: seq<Date>)
    requires Chronological(a) && a != []
    ensures Chronological(a[1..])
  {
    forall i, j | 0 <= i < j < |a| - 1 ensures Ordinal(a[1..][i]) <= Ordinal(a[1..][j]) {
      assert a[1..][i] == a[i + 1] && a[1..][j] == a[j + 1];
    }
  }

  /** Two ascending lists with the same elements are the same list. */
  lemma {:induction false} ChronologicalUnique(a: seq<Date>, b: seq<Date>)
    requires Chronological(a) && Chronological(b) && multiset(a) == multiset(b)
    ensures a == b
    decreases |a|
  {
    if a == [] || b == [] {
      assert |a| == |multiset(a)| == |multiset(b)| == |b|;
    } else {
      HeadsEqual(a, b);
      TailsSameElements(a, b);
      TailChronological(a);
      TailChronological(b);
      ChronologicalUnique(a[1..], b[1..]);
      assert a == [a[0]] + a[1..] && b == [b[0]] + b[1..];
    }
  }

  /** The candidate list is determined by the snapshot and the instant. */
  lemma CandidateListUnique(snap: Snapshot, now: Instant, a: seq<Date>, b: seq<Date>)
    requires CandidateList(snap, now, a) && CandidateList(snap, now, b)
    ensures a == b
  {
    assert forall c: Date :: multiset(a)[c] == multiset(b)[c];
    assert multiset(a) == multiset(b);
    ChronologicalUnique(a, b);
  }

  /** The candidate list holds exactly the listed dates. */
  lemma CandidateMembers(snap: Snapshot, now: Instant, cs: seq<Date>, c: Date)
    requires CandidateList(snap, now, cs)
    ensures c in cs <==> Listed(snap, now, c)
  {
    assert c in cs <==> multiset(cs)[c] > 0;
  }

  /**
   * The slot k of year y is a statutory-holiday slot of the current or the
   * next year whose date is c, and c is not in the past.
   */
  predicate HolidaySlot(snap: Snapshot, now: Instant, y: string, k: string, c: Date) {
    && y in snap.years && k in snap.years[y]
    && (y == YearKey(now.date.year) || y == YearKey(now.date.year + 1))
    && IsHolidayItem(snap.years[y][k]) == Ok(true)
    && ParseHolidayDate(snap.years[y][k], y, k) == Ok(Some(c))
    && Offset(c, now) >= 0
  }

  /** A date is listed exactly when some statutory-holiday slot of the current or the next year gives it. */
  lemma ListedMeaning(snap: Snapshot, now: Instant, c: Date)
    ensures Listed(snap, now, c) <==> exists y, k :: HolidaySlot(snap, now, y, k, c)
  {
    if Listed(snap, now, c) {
      var p :| p in SlotsFor(snap, now, c);
      SlotCandidateMeaning(snap.years[p.0][p.1], p.0, p.1, now);
      assert HolidaySlot(snap, now, p.0, p.1, c);
    }
    if exists y, k :: HolidaySlot(snap, now, y, k, c) {
      var y, k :| HolidaySlot(snap, now, y, k, c);
      SlotCandidateMeaning(snap.years[y][k], y, k, now);
      assert (y, k) in SlotsFor(snap, now, c);
    }
  }

  /**
   * The offset is floored, so a holiday that is today is listed only when
   * now is exactly midnight; every other listed date lies after today.
   */
  lemma ListedNotBeforeToday(snap: Snapshot, now: Instant, c: Date)
    requires Listed(snap, now, c)
    ensures Ordinal(c) > Ordinal(now.date) || (c == now.date && now.micros == 0)
  {
    var p :| p in SlotsFor(snap, now, c);
    SlotCandidateMeaning(snap.years[p.0][p.1], p.0, p.1, now);
    assert Offset(c, now) >= 0;
    ElapsedToDate(c, now);
    if Ordinal(c) == Ordinal(now.date) {
      OrdinalInjective(c, now.date);
    }
  }

  /** The `%Y-%m-%d` text built from a year key and a four-digit MMDD key names the slot's own date. */
  lemma KeyDateIsSlotDate(n: int, md: string, c: Date)
    requires 0 <= n
    requires ParseIsoDate(KeyDateText(YearKey(n), md)) == Some(c)
    ensures c.year == n && MonthDayKey(c) == md
  {
    var ys := YearKey(n);
    var s := KeyDateText(ys, md);
    IsoDateFields(s, c);
    NatToStringDigits(n);
    if |ys| < 4 {
      ShortYearKey(ys, md);
    }
    assert s[..4] == ys;
    FieldOfIntText(n, 4);
    assert s[5..7] == md[..2] && s[8..] == md[2..];
    TwoDigitsCanonical(md[..2]);
    TwoDigitsCanonical(md[2..]);
    assert md == md[..2] + md[2..];
  }

  /** A year key shorter than four characters puts a '-' inside the four-digit year field. */
  lemma ShortYearKey(ys: string, md: string)
    requires |ys| < 4 && |KeyDateText(ys, md)| >= 4
    ensures !AllDigits(KeyDateText(ys, md)[..4])
  {
    assert KeyDateText(ys, md)[..4][|ys|] == '-';
  }

  /** Conversely, the keys of a date of year 1000 or later give back that date. */
  lemma SlotDateRoundTrip(d: Date)
    requires d.year >= 1000
    ensures ParseIsoDate(KeyDateText(YearKey(d.year), MonthDayKey(d))) == Some(d)
  {
    NatToStringLength(d.year);
    Pad2Shape(d.month);
    Pad2Shape(d.day);
    var md := MonthDayKey(d);
    assert md[..2] == Pad2(d.month) && md[2..] == Pad2(d.day);
    assert PadLeft(IntToString(d.year), 4) == YearKey(d.year);
    assert KeyDateText(YearKey(d.year), md) == FormatIsoDate(d);
    IsoDateRoundTrip(d);
  }

  /**
   * A candidate read from its own keys (a slot without a `day` field) is a
   * date the classifier reports as a statutory holiday.
   */
  lemma KeyedCandidateIsHoliday(snap: Snapshot, now: Instant, y: string, k: string, c: Date)
    requires y in TargetYears(snap, now) && y in snap.years && k in snap.years[y]
    requires !HasDayField(snap.years[y][k])
    requires SlotCandidate(snap.years[y][k], y, k, now) == Ok(Some(c))
    ensures Lookup(snap, c) == Some(snap.years[y][k])
    ensures Status(snap, c) == Ok(StatutoryHoliday)
  {
    var n := if y == YearKey(now.date.year) then now.date.year else now.date.year + 1;
    SlotCandidateMeaning(snap.years[y][k], y, k, now);
    KeyDateIsSlotDate(n, k, c);
  }

  // ---------------------------------------------------------------------
  // Selection

  /** `min_days <= (date - today).days <= max_days`. */
  predicate InWindow(c: Date, now: Instant, minDays: int, maxDays: int) {
    minDays <= Offset(c, now) <= maxDays
  }

  /** c is the earliest candidate in the window. */
  ghost predicate FirstInWindow(snap: Snapshot, now: Instant, c: Date, minDays: int, maxDays: int) {
    && Listed(snap, now, c) && InWindow(c, now, minDays, maxDays)
    && forall c': Date :: Listed(snap, now, c') && Ordinal(c') < Ordinal(c) ==> !InWindow(c', now, minDays, maxDays)
  }

  /** c is the earliest candidate in the window that also has a slot of its own date. */
  ghost predicate FirstKeyedInWindow(snap: Snapshot, now: Instant, c: Date, minDays: int, maxDays: int) {
    && Listed(snap, now, c) && InWindow(c, now, minDays, maxDays) && Lookup(snap, c).Some?
    && forall c': Date :: Listed(snap, now, c') && Ordinal(c') < Ordinal(c) ==>
         !(InWindow(c', now, minDays, maxDays) && Lookup(snap, c').Some?)
  }

  /** An earlier date of an ascending list sits at an earlier index. */
  lemma EarlierIndex(cs: seq<Date>, i: int, c: Date) returns (j: int)
    requires Chronological(cs) && 0 <= i < |cs| && c in cs && Ordinal(c) < Ordinal(cs[i])
    ensures 0 <= j < i && cs[j] == c
  {
    j :| 0 <= j < |cs| && cs[j] == c;
  }

  /** The first index of the candidate list in the window with a slot of its own holds the earliest such date. */
  lemma FirstKeyedAt(snap: Snapshot, now: Instant, cands: seq<Date>, i: int, minDays: int, maxDays: int)
    requires CandidateList(snap, now, cands) && 0 <= i < |cands|
    requires forall j :: 0 <= j < i ==> !(InWindow(cands[j], now, minDays, maxDays) && Lookup(snap, cands[j]).Some?)
    requires InWindow(cands[i], now, minDays, maxDays) && Lookup(snap, cands[i]).Some?
    ensures FirstKeyedInWindow(snap, now, cands[i], minDays, maxDays)
  {
    CandidateMembers(snap, now, cands, cands[i]);
    forall c': Date | Listed(snap, now, c') && Ordinal(c') < Ordinal(cands[i])
      ensures !(InWindow(c', now, minDays, maxDays) && Lookup(snap, c').Some?)
    {
      CandidateMembers(snap, now, cands, c');
      var j := EarlierIndex(cands, i, c');
    }
  }

  /** The first index of the candidate list in the window holds the earliest candidate in the window. */
  lemma FirstAt(snap: Snapshot, now: Instant, cands: seq<Date>, i: int, minDays: int, maxDays: int)
    requires CandidateList(snap, now, cands) && 0 <= i < |cands|
    requires forall j :: 0 <= j < i ==> !InWindow(cands[j], now, minDays, maxDays)
    requires InWindow(cands[i], now, minDays, maxDays)
    ensures FirstInWindow(snap, now, cands[i], minDays, maxDays)
  {
    CandidateMembers(snap, now, cands, cands[i]);
    forall c': Date | Listed(snap, now, c') && Ordinal(c') < Ordinal(cands[i])
      ensures !InWindow(c', now, minDays, maxDays)
    {
      CandidateMembers(snap, now, cands, c');
      var j := EarlierIndex(cands, i, c');
    }
  }

  /** A property no element of the candidate list has, no listed date has. */
  lemma NoneListed(snap: Snapshot, now: Instant, cands: seq<Date>, minDays: int, maxDays: int, keyed: bool)
    requires CandidateList(snap, now, cands)
    requires forall j :: 0 <= j < |cands| ==>
      !(InWindow(cands[j], now, minDays, maxDays) && (keyed ==> Lookup(snap, cands[j]).Some?))
    ensures forall c: Date :: Listed(snap, now, c) ==>
      !(InWindow(c, now, minDays, maxDays) && (keyed ==> Lookup(snap, c).Some?))
  {
    forall c: Date | Listed(snap, now, c)
      ensures !(InWindow(c, now, minDays, maxDays) && (keyed ==> Lookup(snap, c).Some?))
    {
      CandidateMembers(snap, now, cands, c);
    }
  }

  /** c is in the window and, when a slot is asked for, has a slot of its own date. */
  predicate Hit(snap: Snapshot, now: Instant, c: Date, minDays: int, maxDays: int, keyed: bool) {
    InWindow(c, now, minDays, maxDays) && (keyed ==> Lookup(snap, c).Some?)
  }

  /**
   * The `for c in candidates` loops of `get_nearest_holiday` and
   * `nearest_holiday_info`: the index of the first candidate that is a hit,
   * or the length of the list when none is.
   */
  method FirstHit(snap: Snapshot, now: Instant, cands: seq<Date>, minDays: int, maxDays: int, keyed: bool)
    returns (i: nat)
    ensures i <= |cands|
    ensures forall j :: 0 <= j < i ==> !Hit(snap, now, cands[j], minDays, maxDays, keyed)
    ensures i < |cands| ==> Hit(snap, now, cands[i], minDays, maxDays, keyed)
  {
    i := 0;
    while i < |cands|
      invariant i <= |cands|
      invariant forall j :: 0 <= j < i ==> !Hit(snap, now, cands[j], minDays, maxDays, keyed)
    {
      var c := cands[i];
      if minDays <= Offset(c, now) <= maxDays {
        if !keyed || Lookup(snap, c).Some? {
          return;
        }
      }
      i := i + 1;
    }
  }

  /** What `get_nearest_holiday` returns: the date, `typename` (default "未知节假日"), the offset and the stored object. */
  datatype NearestHoliday = NearestHoliday(date: Date, name: Value, daysDiff: int, fullInfo: Record)

  const UnknownHolidayName: Value := VStr("未知节假日")

  /**
   * `get_nearest_holiday`: the earliest candidate in the window that has a
   * slot of its own date, described by that slot. None when there is no
   * such candidate; Err when the collection raises, or when that slot holds
   * a bare code (`.get` on an int raises AttributeError).
   */
  method GetNearestHoliday(snap: Snapshot, now: Instant, minDays: int, maxDays: int)
    returns (r: Result<Option<NearestHoliday>>)
    ensures CollectFails(snap, now) ==> r.Err?
    ensures r.Ok? && r.value.Some? ==>
      var h := r.value.value;
      && FirstKeyedInWindow(snap, now, h.date, minDays, maxDays)
      && Lookup(snap, h.date) == Some(Detail(h.fullInfo))
      && h.name == Get(h.fullInfo, "typename", UnknownHolidayName)
      && h.daysDiff == Offset(h.date, now)
    ensures r.Ok? && r.value.None? ==>
      forall c: Date :: Listed(snap, now, c) ==> !(InWindow(c, now, minDays, maxDays) && Lookup(snap, c).Some?)
    ensures r.Err? && !CollectFails(snap, now) ==>
      exists c: Date :: FirstKeyedInWindow(snap, now, c, minDays, maxDays) && Lookup(snap, c).value.Plain?
  {
    var collected := CollectHolidayCandidates(snap, now);
    if collected.Err? {
      return Err(collected.error);
    }
    var cands := collected.value;
    var i := FirstHit(snap, now, cands, minDays, maxDays, true);
    if i < |cands| {
      var c := cands[i];
      FirstKeyedAt(snap, now, cands, i, minDays, maxDays);
      match Lookup(snap, c).value
      case Detail(f) =>
        return Ok(Some(NearestHoliday(c, Get(f, "typename", UnknownHolidayName), Offset(c, now), f)));
      case Plain(_) =>
        return Err(BadValue);
    }
    NoneListed(snap, now, cands, minDays, maxDays, true);
    return Ok(None);
  }

  /** The arrangement `nearest_holiday_info` describes: the block and the workday runs on both sides. */
  datatype HolidayInfo = HolidayInfo(start: Date, end: Date, before: seq<WorkdayItem>, after: seq<WorkdayItem>)

  /** The arrangement around the holiday c: its maximal block and the workday runs either side of it. */
  ghost predicate InfoAround(snap: Snapshot, c: Date, info: HolidayInfo) {
    && MaximalBlock(snap, c, info.start, info.end)
    && SurroundingWorkdays(snap, info.start, true, info.before)
    && SurroundingWorkdays(snap, info.end, false, info.after)
  }

  /**
   * The block around the holiday c and the workday runs on both sides of it,
   * found by the three scans; Err, with the scan's error, when one of them
   * leaves the calendar's range.
   */
  method ArrangementAround(snap: Snapshot, c: Date) returns (r: Result<HolidayInfo>)
    ensures r.Ok? ==> InfoAround(snap, c, r.value)
    ensures r.Err? ==> forall info :: !InfoAround(snap, c, info)
  {
    var range := FindHolidayRange(snap, c);
    if range.Err? {
      return Err(range.error);
    }
    var (start, end) := range.value;
    var before := FindSurroundingWorkdays(snap, start, true);
    if before.Err? {
      forall info | InfoAround(snap, c, info) ensures false {
        BlockUnique(snap, c, start, end, info.start, info.end);
      }
      return Err(before.error);
    }
    var after := FindSurroundingWorkdays(snap, end, false);
    if after.Err? {
      forall info | InfoAround(snap, c, info) ensures false {
        BlockUnique(snap, c, start, end, info.start, info.end);
      }
      return Err(after.error);
    }
    return Ok(HolidayInfo(start, end, before.value, after.value));
  }

  /**
   * `nearest_holiday_info`: the arrangement around the earliest candidate in
   * the window. None (the "no nearest holiday" text) when no candidate is in
   * the window; Err when the collection or one of the scans fails.
   */
  method NearestHolidayInfo(snap: Snapshot, now: Instant, minDays: int, maxDays: int)
    returns (r: Result<Option<HolidayInfo>>)
    ensures CollectFails(snap, now) ==> r.Err?
    ensures r.Ok? && r.value.Some? ==>
      exists c: Date :: FirstInWindow(snap, now, c, minDays, maxDays) && InfoAround(snap, c, r.value.value)
    ensures r.Ok? && r.value.None? ==>
      forall c: Date :: Listed(snap, now, c) ==> !InWindow(c, now, minDays, maxDays)
    ensures r.Err? && !CollectFails(snap, now) ==>
      exists c: Date :: FirstInWindow(snap, now, c, minDays, maxDays)
        && forall info :: !InfoAround(snap, c, info)
  {
    var collected := CollectHolidayCandidates(snap, now);
    if collected.Err? {
      return Err(collected.error);
    }
    var cands := collected.value;
    var i := FirstHit(snap, now, cands, minDays, maxDays, false);
    if i < |cands| {
      var c := cands[i];
      FirstAt(snap, now, cands, i, minDays, maxDays);
      var info := ArrangementAround(snap, c);
      if info.Err? {
        return Err(info.error);
      }
      return Ok(Some(info.value));
    }
    NoneListed(snap, now, cands, minDays, maxDays, false);
    return Ok(None);
  }

  // ---------------------------------------------------------------------
  // Day counts of the arrangement

  /** The numbers `_format_holiday_info` prints: the start's weekday (Monday 1), the block length, the run lengths. */
  datatype Counts = Counts(startWeekday: int, totalDays: int, workedBefore: int, workedAfter: int)

  /** `_format_holiday_info` without the text: `weekday() + 1`, `(end - start).days + 1`, `len(...)`. */
  function HolidayCounts(info: HolidayInfo): (k: Counts)
    ensures k.totalDays == Ordinal(info.end) - Ordinal(info.start) + 1
    ensures 1 <= k.startWeekday <= 7 && (k.startWeekday >= 6 <==> IsWeekend(info.start))
    ensures k.workedBefore == |info.before| && k.workedAfter == |info.after|
  {
    ElapsedSinceDate(Midnight(info.end), info.start);
    Counts(Weekday(info.start) + 1, ElapsedDays(Midnight(info.end), Midnight(info.start)) + 1,
           |info.before|, |info.after|)
  }

  /**
   * For the arrangement around a holiday that is itself off, the block is at
   * least one day long and every day it counts is off; the runs count
   * workdays only.
   */
  lemma CountsOfArrangement(snap: Snapshot, c: Date, info: HolidayInfo)
    requires InfoAround(snap, c, info) && OffDay(snap, c)
    ensures HolidayCounts(info).totalDays >= 1
    ensures AllOff(snap, Ordinal(info.start), Ordinal(info.end))
    ensures forall i :: 0 <= i < |info.before| ==> IsWorkday(snap, info.before[i].date)
    ensures forall i :: 0 <= i < |info.after| ==> IsWorkday(snap, info.after[i].date)
  {
    BlockAllOff(snap, c, info.start, info.end);
  }
}
