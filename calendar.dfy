/**
 * Day classification (`Holiday.is_holiday_status`, `is_holiday`,
 * `get_day_detail`) and the date keys and date strings the engine reads and
 * writes.
 */
module Calendar {
  import opened Dates
  import opened Text
  import opened Records

  const Workday: int := 0
  const RestDay: int := 1
  const StatutoryHoliday: int := 2

  // ---------------------------------------------------------------------
  // Keys and date strings

  /** `str(date.year)`: the key of a year's table. */
  function YearKey(year: int): string {
    IntToString(year)
  }

  /** `"{:0>2d}{:0>2d}".format(month, day)`: the key of a day inside its year's table. */
  function MonthDayKey(d: Date): string {
    Pad2(d.month) + Pad2(d.day)
  }

  /** The date named by a year, month and day, if there is one. */
  function MakeDate(y: int, m: int, day: int): (r: Option<Date>)
    ensures r.Some? ==> r.value == Ymd(y, m, day)
    ensures IsValid(Ymd(y, m, day)) ==> r.Some?
  {
    if IsValid(Ymd(y, m, day)) then Some(Ymd(y, m, day)) else None
  }

  /** `strptime(s, "%Y%m%d")` on fixed-width fields, None where it raises ValueError. */
  function ParseCompactDate(s: string): (r: Option<Date>)
    ensures r.Some? ==>
      (|s| == 8
       && ParseField(s[..4], 4) == Some(r.value.year)
       && ParseField(s[4..6], 2) == Some(r.value.month)
       && ParseField(s[6..], 2) == Some(r.value.day))
    ensures (|s| == 8 && ParseField(s[..4], 4).Some? && ParseField(s[4..6], 2).Some? && ParseField(s[6..], 2).Some?
             && IsValid(Ymd(ParseField(s[..4], 4).value, ParseField(s[4..6], 2).value, ParseField(s[6..], 2).value)))
      ==> r.Some?
  {
    if |s| != 8 then None
    else match (ParseField(s[..4], 4), ParseField(s[4..6], 2), ParseField(s[6..], 2))
      case (Some(y), Some(m), Some(d)) => MakeDate(y, m, d)
      case _ => None
  }

  /** `strptime(s, "%Y-%m-%d")` on fixed-width fields, None where it raises ValueError. */
  function ParseIsoDate(s: string): (r: Option<Date>)
    ensures r.Some? ==> |s| == 10 && s[4] == '-' && s[7] == '-'
    ensures (|s| == 10 && s[4] == '-' && s[7] == '-'
             && ParseField(s[..4], 4).Some? && ParseField(s[5..7], 2).Some? && ParseField(s[8..], 2).Some?
             && IsValid(Ymd(ParseField(s[..4], 4).value, ParseField(s[5..7], 2).value, ParseField(s[8..], 2).value)))
      ==> r.Some?
  {
    if |s| != 10 || s[4] != '-' || s[7] != '-' then None
    else match (ParseField(s[..4], 4), ParseField(s[5..7], 2), ParseField(s[8..], 2))
      case (Some(y), Some(m), Some(d)) => MakeDate(y, m, d)
      case _ => None
  }

  /** The fields a successful `%Y-%m-%d` parse reads. */
  lemma IsoDateFields(s: string, d: Date)
    requires ParseIsoDate(s) == Some(d)
    ensures |s| == 10 && s[4] == '-' && s[7] == '-'
    ensures ParseField(s[..4], 4) == Some(d.year)
    ensures ParseField(s[5..7], 2) == Some(d.month)
    ensures ParseField(s[8..], 2) == Some(d.day)
  {
  }

  /** `date.strftime("%Y-%m-%d")`, the form of `update_time`. */
  function FormatIsoDate(d: Date): string {
    PadLeft(IntToString(d.year), 4) + "-" + Pad2(d.month) + "-" + Pad2(d.day)
  }

  // ---------------------------------------------------------------------
  // Classification

  /** The table slot for a date, if the snapshot has one. */
  function Lookup(snap: Snapshot, d: Date): (r: Option<Entry>)
    ensures r.Some? <==> YearKey(d.year) in snap.years && MonthDayKey(d) in snap.years[YearKey(d.year)]
    ensures r.Some? ==> r.value == snap.years[YearKey(d.year)][MonthDayKey(d)]
  {
    var y := YearKey(d.year);
    var k := MonthDayKey(d);
    if y in snap.years && k in snap.years[y] then Some(snap.years[y][k]) else None
  }

  /** The status code an entry records: `int(item.get("type", 0))`, or `int(item)`. */
  function EntryStatus(e: Entry): Result<int> {
    match e
    case Detail(f) => ToInt(Get(f, "type", VInt(0)))
    case Plain(v) => ToInt(v)
  }

  /**
   * `is_holiday_status`: the stored status when the date has an entry,
   * otherwise 1 on Saturday and Sunday and 0 on the other days.
   */
  function Status(snap: Snapshot, d: Date): (r: Result<int>)
    ensures Lookup(snap, d).Some? ==> r == EntryStatus(Lookup(snap, d).value)
    ensures Lookup(snap, d).None? ==> r == Ok(if IsWeekend(d) then RestDay else Workday)
  {
    match Lookup(snap, d)
    case Some(e) => EntryStatus(e)
    case None => Ok(if Weekday(d) >= 5 then 1 else 0)
  }

  predicate OffDay(snap: Snapshot, d: Date) {
    Status(snap, d).Ok? && Status(snap, d).value != Workday
  }

  predicate IsWorkday(snap: Snapshot, d: Date) {
    Status(snap, d) == Ok(Workday)
  }

  /** `STATUS_MAP.get(status, "未知")`. */
  function StatusName(status: int): (name: string)
    ensures status == Workday ==> name == "工作日"
    ensures status == RestDay ==> name == "休息日"
    ensures status == StatutoryHoliday ==> name == "节假日"
    ensures !(0 <= status <= 2) ==> name == "未知"
  {
    if status == 0 then "工作日"
    else if status == 1 then "休息日"
    else if status == 2 then "节假日"
    else "未知"
  }

  /** `is_holiday`: the name of a date's status. */
  function IsHoliday(snap: Snapshot, d: Date): (r: Result<string>)
    ensures Status(snap, d).Err? <==> r.Err?
    ensures r.Ok? ==> r.value == StatusName(Status(snap, d).value)
  {
    match Status(snap, d)
    case Ok(s) => Ok(StatusName(s))
    case Err(e) => Err(e)
  }

  /** `get_day_detail`: the stored day object, or an empty object. */
  function DayDetail(snap: Snapshot, d: Date): (r: Record)
    ensures (match Lookup(snap, d) case Some(Detail(f)) => r == f case _ => r == map[])
  {
    match Lookup(snap, d)
    case Some(Detail(f)) => f
    case _ => map[]
  }

  /** Every entry of a year's table records one of the three status codes. */
  ghost predicate TableWellFormed(table: map<string, Entry>) {
    forall k :: k in table ==> EntryStatus(table[k]).Ok? && 0 <= EntryStatus(table[k]).value <= 2
  }

  /** Every stored entry records one of the three status codes. */
  ghost predicate WellFormed(snap: Snapshot) {
    forall y :: y in snap.years ==> TableWellFormed(snap.years[y])
  }

  // ---------------------------------------------------------------------
  // Properties

  /** In a well-formed snapshot every date classifies, and its name is never "未知". */
  lemma StatusInRange(snap: Snapshot, d: Date)
    requires WellFormed(snap)
    ensures Status(snap, d).Ok? && 0 <= Status(snap, d).value <= 2
    ensures IsHoliday(snap, d).Ok? && IsHoliday(snap, d).value != "未知"
  {
    var y := YearKey(d.year);
    var k := MonthDayKey(d);
    if y in snap.years && k in snap.years[y] {
      assert TableWellFormed(snap.years[y]);
      assert EntryStatus(snap.years[y][k]).Ok?;
    }
  }

  /** Different dates have different keys, so a table slot belongs to one date only. */
  lemma KeysIdentifyDate(a: Date, b: Date)
    requires YearKey(a.year) == YearKey(b.year) && MonthDayKey(a) == MonthDayKey(b)
    ensures a == b
  {
    IntToStringInjective(a.year, b.year);
    Pad2Shape(a.month);
    Pad2Shape(a.day);
    Pad2Shape(b.month);
    Pad2Shape(b.day);
    var ka, kb := MonthDayKey(a), MonthDayKey(b);
    assert ka[..2] == Pad2(a.month) && ka[2..] == Pad2(a.day);
    assert kb[..2] == Pad2(b.month) && kb[2..] == Pad2(b.day);
  }

  lemma YearKeyShape(y: int)
    requires 1000 <= y <= 9999
    ensures |YearKey(y)| == 4 && ParseField(YearKey(y), 4) == Some(y)
  {
    NatToStringLength(y);
    NatToStringDigits(y);
  }

  /** An eight-character key `str(year) + MMDD` parses back to its date (years 1000 and later). */
  lemma CompactKeyRoundTrip(d: Date)
    requires d.year >= 1000
    ensures ParseCompactDate(YearKey(d.year) + MonthDayKey(d)) == Some(d)
  {
    YearKeyShape(d.year);
    Pad2Shape(d.month);
    Pad2Shape(d.day);
    var s := YearKey(d.year) + MonthDayKey(d);
    assert s[..4] == YearKey(d.year);
    assert s[4..6] == Pad2(d.month);
    assert s[6..] == Pad2(d.day);
  }

  /** `update_time` written with `strftime("%Y-%m-%d")` reads back with `strptime` as the same date. */
  lemma IsoDateRoundTrip(d: Date)
    ensures ParseIsoDate(FormatIsoDate(d)) == Some(d)
  {
    var ys := PadLeft(IntToString(d.year), 4);
    NatToStringLength(d.year);
    PaddedFieldRoundTrip(d.year, 4);
    Pad2Shape(d.month);
    Pad2Shape(d.day);
    IsoFields(ys, Pad2(d.month), Pad2(d.day));
  }

  /** The three fields of a `%Y-%m-%d` text sit at offsets 0, 5 and 8. */
  lemma IsoFields(ys: string, ms: string, ds: string)
    requires |ys| == 4 && |ms| == 2 && |ds| == 2
    ensures var s := ys + "-" + ms + "-" + ds;
      |s| == 10 && s[4] == '-' && s[7] == '-' && s[..4] == ys && s[5..7] == ms && s[8..] == ds
  {
    var s := ys + "-" + ms + "-" + ds;
    assert s[..4] == ys;
    assert s[5..7] == ms;
    assert s[8..] == ds;
  }
}
