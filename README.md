# jdm_holiday day-type engine, modelled in Dafny

This project models the day-type engine of the `jdm_holiday` Home Assistant
integration (`custom_components/jdm_holiday/holiday_engine.py`). The engine
keeps a calendar snapshot, `year -> MMDD -> day object`, filled from a remote
holiday API. From that snapshot it answers four kinds of question:

- Classification: is a date a workday (0), a rest day (1) or a statutory
  holiday (2)? Dates without an entry fall back to the weekday.
- The holiday block around a date: the maximal run of non-workdays that
  contains it.
- The workday runs on either side of that block. Each workday is flagged
  when it falls on a Saturday or Sunday, i.e. a make-up workday.
- The nearest statutory holiday in a window of day offsets from today.

It also decides when the snapshot is stale and how a refresh rebuilds it:

- which six months to fetch;
- which day objects of the API reply enter the compact table, and which
  enter the full backup list;
- how the SQLite backup rows are reshaped into the snapshot on load.

The project has eight modules:

| module | contents |
|---|---|
| `Dates` (`dates.dfy`) | Python's proleptic Gregorian `date` for years 1..9999: `toordinal`, `weekday`, `± timedelta(days=1)`. Stepping past the last or first representable date is Python's `OverflowError`. It also models instants carrying microseconds of the day, and the floored `(a - b).days`. |
| `Text` (`text.dfy`) | `str(int)`, `int(str)`, zero padding, and the fixed-width digit fields `strptime` reads. |
| `Records` (`records.dfy`) | JSON-like values, day objects, table entries, the snapshot, and the two error kinds: `OutOfRange` (`OverflowError`) and `BadValue` (an uncaught `TypeError`/`ValueError`/`AttributeError`). |
| `Calendar` (`calendar.dfy`) | `is_holiday_status`, `is_holiday`, `get_day_detail`, and the date keys and date texts. |
| `Scans` (`scans.dfy`) | `_find_holiday_range` and `_find_surrounding_workdays`, as loops proved against a specification. |
| `Candidates` (`candidates.dfy`) | `_is_holiday_item`, `_parse_holiday_date`, `_collect_holiday_candidates`, the selection in `get_nearest_holiday` and `nearest_holiday_info`, and the counts of `_format_holiday_info`. |
| `Refresh` (`refresh.dfy`) | The staleness test, `_get_year_month`, the per-day filter of `_fetch_month_data`, and the `Holiday` class with the snapshot swap of `get_holidays_from_server`. |
| `Store` (`store.dfy`) | The row reshaping of `HolidayDB.load`. |

The queries are functions and methods over a snapshot value. The clock is an
`Instant` parameter. `Holiday.today()` is the Beijing wall time, which the
engine compares after dropping the time zone; it is only needed as a
(date, microseconds-of-day) pair. The HTTP replies are a parameter of type
`(year, month) -> MonthResponse`. The outcome of the JSON file write is a
boolean parameter, and the SQLite rows are a `seq` parameter.

## Model

| member | source | states |
|---|---|---|
| Dates.OrdinalInjective | custom_components/jdm_holiday/holiday_engine.py:392-396 | Two dates with the same day number are the same date, so stepping by day numbers identifies dates. |
| Dates.NextIsFollowingDay | custom_components/jdm_holiday/holiday_engine.py:395-396 | `d + timedelta(days=1)` is the date one day later. It overflows exactly on 9999-12-31. |
| Dates.PrevIsPrecedingDay | custom_components/jdm_holiday/holiday_engine.py:392-393 | `d - timedelta(days=1)` is the date one day earlier. It overflows exactly on 0001-01-01. |
| Dates.ElapsedToDate | custom_components/jdm_holiday/holiday_engine.py:261 | `(date - today).days` is the difference of day numbers, minus one whenever the clock is past midnight. |
| Dates.ElapsedSinceDate | custom_components/jdm_holiday/holiday_engine.py:511 | `(today - last_update).days` is exactly the difference of day numbers. |
| Text.IntToStringRoundTrip | custom_components/jdm_holiday/holiday_engine.py:243-244 | `int(str(n)) == n` for every integer, so a year key read back gives its year. |
| Text.IntToStringInjective | custom_components/jdm_holiday/holiday_engine.py:668-669 | Different years have different keys `str(year)`. |
| Text.PaddedFieldRoundTrip | custom_components/jdm_holiday/holiday_engine.py:373 | A number zero-padded to a field wide enough for it reads back as that number. |
| Text.TwoDigitsCanonical | custom_components/jdm_holiday/holiday_engine.py:300-301 | A two-digit field is exactly the zero-padded text of its value. |
| Records.ToInt | custom_components/jdm_holiday/holiday_engine.py:680-681 | `int(v)` keeps an int as it is and fails on `None`. |
| Records.ToIntOfText | custom_components/jdm_holiday/holiday_engine.py:612 | A status written as decimal text converts back to the same code. |
| Calendar.MakeDate | custom_components/jdm_holiday/holiday_engine.py:299-301 | A year, month and day yield a date exactly when they name a real calendar day. |
| Calendar.ParseCompactDate | custom_components/jdm_holiday/holiday_engine.py:299 | `%Y%m%d` only succeeds on eight characters, and then returns the date whose year, month and day are the three fields it read. Three fields that read and name a real date always succeed. |
| Calendar.ParseIsoDate | custom_components/jdm_holiday/holiday_engine.py:300-301 | `%Y-%m-%d` only succeeds on ten characters with dashes at positions 4 and 7. On that shape, three fields that read and name a real date always succeed. |
| Calendar.IsoDateFields | custom_components/jdm_holiday/holiday_engine.py:301 | A successful `%Y-%m-%d` parse read the year, month and day fields of the date it returns. |
| Calendar.Lookup | custom_components/jdm_holiday/holiday_engine.py:668-677 | A date has a slot exactly when its year key and its MMDD key are both present, and the slot is what they index. |
| Calendar.Status | custom_components/jdm_holiday/holiday_engine.py:658-686 | With a slot: the stored `type` of a day object (default 0), or the value of a bare entry. Without one: 1 on Saturday and Sunday, 0 otherwise. |
| Calendar.StatusName | custom_components/jdm_holiday/holiday_engine.py:187 | Codes 0, 1 and 2 map to 工作日, 休息日 and 节假日. Any other code maps to 未知. |
| Calendar.IsHoliday | custom_components/jdm_holiday/holiday_engine.py:688-691 | Fails exactly when the status fails; otherwise it is the status's name. |
| Calendar.DayDetail | custom_components/jdm_holiday/holiday_engine.py:640-656 | The stored day object when the slot holds one, otherwise the empty object. |
| Calendar.StatusInRange | custom_components/jdm_holiday/holiday_engine.py:672-691 | When every stored entry records 0, 1 or 2, every date classifies and its name is never 未知. |
| Calendar.KeysIdentifyDate | custom_components/jdm_holiday/holiday_engine.py:668-669 | Distinct dates have distinct (year key, MMDD key) pairs. |
| Calendar.CompactKeyRoundTrip | custom_components/jdm_holiday/holiday_engine.py:163-164 | For years from 1000, `str(year) + MMDD` read with `%Y%m%d` gives back the date. |
| Calendar.IsoDateRoundTrip | custom_components/jdm_holiday/holiday_engine.py:499-501 | `update_time` written with `strftime("%Y-%m-%d")` parses back to the same date. |
| Scans.ExtendAllOff | custom_components/jdm_holiday/holiday_engine.py:392-396 | An off day adjacent to an all-off interval extends it. |
| Scans.FindHolidayRange | custom_components/jdm_holiday/holiday_engine.py:385-397 | Success means start ≤ d ≤ end, every day in [start, d) and (d, end] is off, and the days just before start and just after end are workdays. Failure means no such block exists: a status raised, or the scan ran off the calendar. |
| Scans.BlockUnique | custom_components/jdm_holiday/holiday_engine.py:385-397 | The block around a date is unique. |
| Scans.BlockAllOff | custom_components/jdm_holiday/holiday_engine.py:389-397 | Around an off day, the whole block from start to end is off. |
| Scans.Reverse | custom_components/jdm_holiday/holiday_engine.py:414-415 | `workdays.reverse()`: same length, elements in the opposite order. |
| Scans.StepDayPosition | custom_components/jdm_holiday/holiday_engine.py:404-405 | One step in the scan direction moves the day number by one, or fails off the calendar. |
| Scans.RunCovers | custom_components/jdm_holiday/holiday_engine.py:407-412 | Every day of a surrounding run is a workday, and the day beyond it is off. |
| Scans.RunReaches | custom_components/jdm_holiday/holiday_engine.py:407-412 | Every position of the run, and the one beyond it, is a real date. |
| Scans.ScanExtends | custom_components/jdm_holiday/holiday_engine.py:407-411 | Appending the next day, found to be a workday, extends the days scanned so far by one position. |
| Scans.ScanGivesRun | custom_components/jdm_holiday/holiday_engine.py:407-416 | A scan that stops at an off day, reversed when looking back, is the surrounding run. |
| Scans.BackScanGivesRun | custom_components/jdm_holiday/holiday_engine.py:407-416 | Looking back, the scan reversed is the run before the date, in chronological order. |
| Scans.ReversedScanIsRun | custom_components/jdm_holiday/holiday_engine.py:414-416 | Any list holding the scanned days in the opposite order is the run before the date. |
| Scans.ReversedEntries | custom_components/jdm_holiday/holiday_engine.py:414-416 | In the reversed scan, entry i is a flagged workday i positions after the run start. |
| Scans.ForwardScanGivesRun | custom_components/jdm_holiday/holiday_engine.py:407-416 | Looking forward, the scan itself is the run after the date. |
| Scans.RunLongerThanScan | custom_components/jdm_holiday/holiday_engine.py:407 | While the scan still sees a workday, any run is longer than what has been scanned. |
| Scans.NoRunPastError | custom_components/jdm_holiday/holiday_engine.py:407 | When a status raises at the scan position, no run exists. |
| Scans.NoRunPastRange | custom_components/jdm_holiday/holiday_engine.py:404-412 | When the scan steps off the calendar, no run exists. |
| Scans.FindSurroundingWorkdays | custom_components/jdm_holiday/holiday_engine.py:399-416 | Success means the result is in chronological order in both directions. It holds consecutive days ending the day before d (look back) or starting the day after d. Each is a workday, flagged exactly when it falls on Saturday or Sunday, and the day beyond the run is off. Failure means no such run exists. |
| Scans.SurroundingUnique | custom_components/jdm_holiday/holiday_engine.py:399-416 | The surrounding run is unique. |
| Candidates.IsHolidayItem | custom_components/jdm_holiday/holiday_engine.py:267-281 | Fails exactly when the entry's status fails. Otherwise it is true exactly for status 2. |
| Candidates.ParseHolidayDate | custom_components/jdm_holiday/holiday_engine.py:283-303 | A string `day` field is parsed as `%Y%m%d`, and a non-string one is an uncaught error. Without a `day` field, the year and MMDD keys are parsed as `%Y-%m-%d`. A bad text gives no date. |
| Candidates.SlotCandidateMeaning | custom_components/jdm_holiday/holiday_engine.py:258-262 | A slot contributes c exactly when it is a statutory holiday whose date parses to c with an offset ≥ 0. It fails exactly when its status fails, or when a holiday's date raises. |
| Candidates.Insert | custom_components/jdm_holiday/holiday_engine.py:264 | Insertion into an ascending list keeps it ascending and adds exactly that date. |
| Candidates.InsertBehindHead | custom_components/jdm_holiday/holiday_engine.py:264 | Keeping the head and inserting into the tail, when the inserted date is later than the head, stays ascending and holds the same dates. |
| Candidates.ConsChronological | custom_components/jdm_holiday/holiday_engine.py:264 | A date no later than any element of an ascending list can be put in front of it. |
| Candidates.InsertedAbove | custom_components/jdm_holiday/holiday_engine.py:264 | When the inserted date is later than the head, every element of the new tail is no earlier than the head. |
| Candidates.SortDates | custom_components/jdm_holiday/holiday_engine.py:264 | `candidates.sort()`: ascending, and a permutation of its input. |
| Candidates.TallyStart | custom_components/jdm_holiday/holiday_engine.py:254-258 | Starting a year's slots keeps the count of dates collected so far. |
| Candidates.SlotsSoFarStep | custom_components/jdm_holiday/holiday_engine.py:258-262 | One more slot adds one contribution of c exactly when that slot yields c. |
| Candidates.TallyStep | custom_components/jdm_holiday/holiday_engine.py:258-262 | Appending a slot's date keeps the list's multiplicities equal to the slots seen so far. |
| Candidates.TallyYear | custom_components/jdm_holiday/holiday_engine.py:254-262 | Having seen all of a year's slots, that year counts as done. |
| Candidates.NoFailure | custom_components/jdm_holiday/holiday_engine.py:254-262 | A collection in which no year fails does not fail. |
| Candidates.FailureAt | custom_components/jdm_holiday/holiday_engine.py:258-261 | One failing slot of a target year makes the collection fail. |
| Candidates.TallyDone | custom_components/jdm_holiday/holiday_engine.py:254-264 | With all target years done, the sorted list holds each date as often as slots contribute it. |
| Candidates.CollectYear | custom_components/jdm_holiday/holiday_engine.py:255-262 | One year's slots: success exactly when none of them fails. The dates appended are those it contributes. |
| Candidates.YearFails | custom_components/jdm_holiday/holiday_engine.py:254-262 | A target year with a failing slot makes the whole collection fail. |
| Candidates.CollectedList | custom_components/jdm_holiday/holiday_engine.py:254-264 | When no target year fails and all their slots have been seen, the collection succeeds and the sorted list is the candidate list. |
| Candidates.CollectHolidayCandidates | custom_components/jdm_holiday/holiday_engine.py:232-265 | Success exactly when no slot of this year or next fails. The result is ascending and holds each date as many times as statutory-holiday slots give it with an offset ≥ 0. |
| Candidates.HeadIsLeast | custom_components/jdm_holiday/holiday_engine.py:264 | The head of an ascending list is its least date. |
| Candidates.HeadsEqual | custom_components/jdm_holiday/holiday_engine.py:264 | Two ascending lists with the same elements share their head. |
| Candidates.TailsSameElements | custom_components/jdm_holiday/holiday_engine.py:264 | Removing the shared head leaves the same elements. |
| Candidates.TailChronological | custom_components/jdm_holiday/holiday_engine.py:264 | The tail of an ascending list is ascending. |
| Candidates.ChronologicalUnique | custom_components/jdm_holiday/holiday_engine.py:264 | Two ascending lists with the same elements are equal. |
| Candidates.CandidateListUnique | custom_components/jdm_holiday/holiday_engine.py:232-265 | The candidate list of a snapshot and an instant is unique. |
| Candidates.CandidateMembers | custom_components/jdm_holiday/holiday_engine.py:254-262 | A date is in the list exactly when some slot contributes it. |
| Candidates.ListedMeaning | custom_components/jdm_holiday/holiday_engine.py:243-262 | A date is listed exactly when some `HolidaySlot` gives it: a statutory-holiday slot of this year's or next year's table whose date parses to it with offset ≥ 0. |
| Candidates.ListedNotBeforeToday | custom_components/jdm_holiday/holiday_engine.py:261 | A listed date is after today, or today when the clock reads exactly midnight. |
| Candidates.KeyDateIsSlotDate | custom_components/jdm_holiday/holiday_engine.py:300-301 | A date read from a slot's keys has that slot's year, and its MMDD key is the slot's key. |
| Candidates.ShortYearKey | custom_components/jdm_holiday/holiday_engine.py:300-301 | With a year key shorter than four characters, the text has no four-digit year field. |
| Candidates.SlotDateRoundTrip | custom_components/jdm_holiday/holiday_engine.py:300-301 | For years from 1000, the keys of a date's slot read back as that date. |
| Candidates.KeyedCandidateIsHoliday | custom_components/jdm_holiday/holiday_engine.py:258-262 | A candidate taken from a slot without a `day` field is looked up at that same slot and classifies as 2. |
| Candidates.EarlierIndex | custom_components/jdm_holiday/holiday_engine.py:366 | In an ascending list an earlier date sits at an earlier index. |
| Candidates.FirstKeyedAt | custom_components/jdm_holiday/holiday_engine.py:366-375 | The first list entry in the window with a slot of its own is the earliest such candidate. |
| Candidates.FirstAt | custom_components/jdm_holiday/holiday_engine.py:327-332 | The first list entry in the window is the earliest candidate in the window. |
| Candidates.NoneListed | custom_components/jdm_holiday/holiday_engine.py:327-340 | When no list entry qualifies, no candidate does. |
| Candidates.FirstHit | custom_components/jdm_holiday/holiday_engine.py:327-330 | The for-loop over the candidates (here and at lines 366-369) stops at the first one in the window, and for `get_nearest_holiday` also with its own slot. Every earlier candidate misses, and the index is the length when none hits. |
| Candidates.GetNearestHoliday | custom_components/jdm_holiday/holiday_engine.py:342-383 | A result is the earliest candidate with `min_days ≤ diff ≤ max_days` that has its own slot. It carries that slot's object, its `typename` (default 未知节假日) and the offset. None means no such candidate exists. The call fails when the collection fails, or when the chosen slot holds a bare entry. |
| Candidates.ArrangementAround | custom_components/jdm_holiday/holiday_engine.py:332-334 | The three scans give the maximal block around the holiday and the workday runs on both sides. They fail exactly when no such arrangement exists. |
| Candidates.NearestHolidayInfo | custom_components/jdm_holiday/holiday_engine.py:305-340 | A result is the holiday block and the two workday runs of the earliest candidate in the window. None means no candidate is in the window. It fails only when the collection fails or that candidate's block or runs do not exist. |
| Candidates.HolidayCounts | custom_components/jdm_holiday/holiday_engine.py:441-445 | `total_days` is end − start + 1 days. The start weekday is 1..7, and 6 or 7 exactly on a weekend. The worked-before and worked-after counts are the two run lengths. |
| Candidates.CountsOfArrangement | custom_components/jdm_holiday/holiday_engine.py:441-445 | For the arrangement around an off day, at least one day is off, the whole block is off, and every listed workday is a workday. |
| Refresh.LastUpdate | custom_components/jdm_holiday/holiday_engine.py:499-503 | The parsed `update_time`, or 2020-01-01 when it is missing or does not parse. |
| Refresh.SkipRefreshMeaning | custom_components/jdm_holiday/holiday_engine.py:511-529 | No fetch exactly when days ≠ 0, this year's table is non-empty, and today − last update ≤ days. With days = 0 it always fetches. |
| Refresh.RecentSnapshotIsKept | custom_components/jdm_holiday/holiday_engine.py:499-529 | Updated ten days ago with this year present: threshold 15 skips the fetch, and threshold 9 fetches. |
| Refresh.YearMonth | custom_components/jdm_holiday/holiday_engine.py:567-576 | y·12 + (m − 1) = year·12 + (month − 1) + k, and m ≤ 12. For month + k ≥ 1 also m ≥ 1; without a carry the year is unchanged. |
| Refresh.MonthCountUnique | custom_components/jdm_holiday/holiday_engine.py:571-576 | A year and a month 1..12 are determined by their month count. |
| Refresh.AddMonthsCount | custom_components/jdm_holiday/holiday_engine.py:571-576 | The closed form has the month count of d plus i, with a month in 1..12. |
| Refresh.MonthOfWindow | custom_components/jdm_holiday/holiday_engine.py:543 | What `_get_year_month(today, i)` returns is the i-th month of the window. |
| Refresh.FetchWindowConsecutive | custom_components/jdm_holiday/holiday_engine.py:541-543 | The six months fetched start at today's month and are consecutive, with a December followed by next year's January. |
| Refresh.WeekCode | custom_components/jdm_holiday/holiday_engine.py:613-617 | `week`, or else `week2`, or else 0, converted to int; 0 when the conversion fails. |
| Refresh.ClassifyItem | custom_components/jdm_holiday/holiday_engine.py:606-632 | A non-object is skipped, and so is an object whose `type` does not convert, or which lacks `day` and has a non-numeric key. Every other object is kept for the full list with a `day` (synthesised when missing). It enters the compact table exactly when t ∈ {1, 2} or (t = 0 and w ∈ {6, 7}). |
| Refresh.ClassifiedRecord | custom_components/jdm_holiday/holiday_engine.py:619-623 | The stored object has a `day` field, the same `type`, and otherwise the same fields. |
| Refresh.SynthesisedDayShape | custom_components/jdm_holiday/holiday_engine.py:620-623 | A one- or two-digit day key synthesises the 8-digit `YYYYMMDD` of its date. A key of 100 or more, such as an MMDD key, synthesises a longer text that does not parse as a date: 9 characters for keys 100..999, 10 for keys 1000..9999. |
| Refresh.VerdictAt | custom_components/jdm_holiday/holiday_engine.py:606-632 | The i-th verdict is the key of the i-th item with what the loop body makes of that item. |
| Refresh.VerdictsPrefix | custom_components/jdm_holiday/holiday_engine.py:606 | The verdicts on the first n items are the first n verdicts. |
| Refresh.KeptKeyVerdicts | custom_components/jdm_holiday/holiday_engine.py:626-628 | Some interesting item has key k exactly when some verdict keeps an item with key k. |
| Refresh.CompactLast | custom_components/jdm_holiday/holiday_engine.py:626-628 | The table after one more item: that item stored under its key when it is interesting, otherwise unchanged. |
| Refresh.KeptInLast | custom_components/jdm_holiday/holiday_engine.py:626-628 | A verdict keeps key k exactly when one before the last does or the last one does. |
| Refresh.CompactOfKeys | custom_components/jdm_holiday/holiday_engine.py:606-628 | After the loop bodies, a key is in the table exactly when it was there before or some verdict keeps an item with that key. |
| Refresh.CompactOfUpTo | custom_components/jdm_holiday/holiday_engine.py:626-628 | Once a slot is filled, later items with other keys leave it as it is. |
| Refresh.CompactOfOtherSlot | custom_components/jdm_holiday/holiday_engine.py:606-628 | A slot that no verdict keeps keeps its old entry. |
| Refresh.CompactKeys | custom_components/jdm_holiday/holiday_engine.py:606-628 | A key is in the month's table exactly when it was there before or some interesting item of the reply has it. |
| Refresh.CompactKeptSlot | custom_components/jdm_holiday/holiday_engine.py:626-628 | When the reply's keys are distinct, each interesting item's slot holds that item's record. |
| Refresh.CompactOtherSlot | custom_components/jdm_holiday/holiday_engine.py:606-628 | A slot that no interesting item names keeps its old entry. |
| Refresh.BackupContents | custom_components/jdm_holiday/holiday_engine.py:630-632 | The full list has one record per accepted item, every one with a `day` field. When every item is accepted, it has one per item. |
| Refresh.BackupLast | custom_components/jdm_holiday/holiday_engine.py:630-632 | The full list after one more item: that item appended when it is accepted, otherwise unchanged. |
| Refresh.BackupOfLength | custom_components/jdm_holiday/holiday_engine.py:630-632 | At most one record per verdict, and exactly one per verdict when every item is accepted. |
| Refresh.BackupOfHasDay | custom_components/jdm_holiday/holiday_engine.py:619-632 | When every accepted item carries a `day` field, so does every record the loop appends. |
| Refresh.CompactWellFormed | custom_components/jdm_holiday/holiday_engine.py:612-628 | Entries added to the table record status 0, 1 or 2. |
| Refresh.CompactOfWellFormed | custom_components/jdm_holiday/holiday_engine.py:626-628 | When every kept record has a status code 0, 1 or 2, the whole table still does. |
| Refresh.FetchMonth | custom_components/jdm_holiday/holiday_engine.py:578-638 | The loop over a month's reply leaves the compact table and the full list as defined by `Compact` and `Backup`. A failed request leaves both unchanged. |
| Refresh.FetchDays | custom_components/jdm_holiday/holiday_engine.py:606-634 | The per-day loop leaves the table as `Compact` and appends `Backup` to the list, for any reply. |
| Refresh.PrefixStep | custom_components/jdm_holiday/holiday_engine.py:606-632 | One more verdict stores its item when kept, and appends it when accepted. |
| Refresh.FetchItem | custom_components/jdm_holiday/holiday_engine.py:607-634 | One loop body: the item is stored under its key exactly when it is kept, and appended exactly when it is accepted. |
| Refresh.RefreshedStep | custom_components/jdm_holiday/holiday_engine.py:545-550 | Each month compacts the reply into its year's table, created empty when the year is missing, and appends its items. |
| Refresh.FetchWindow | custom_components/jdm_holiday/holiday_engine.py:541-551 | The loop over the six months builds the new year tables and the full list of the whole window. |
| Refresh.FetchNextMonth | custom_components/jdm_holiday/holiday_engine.py:543-550 | One pass of the loop takes the tables and the list from month i of the window to month i + 1. |
| Refresh.RefreshOnlyAdds | custom_components/jdm_holiday/holiday_engine.py:533-550 | A refresh keeps every year and every day slot the snapshot had. |
| Refresh.RefreshKeepsYear | custom_components/jdm_holiday/holiday_engine.py:533-550 | Each year the snapshot had stays after any number of months, with all of its days. |
| Refresh.StoreKeepsYear | custom_components/jdm_holiday/holiday_engine.py:550 | Storing a grown table under a year key loses no day of any year. |
| Refresh.CompactGrows | custom_components/jdm_holiday/holiday_engine.py:628 | Compaction never removes a key. |
| Refresh.CompactOfGrows | custom_components/jdm_holiday/holiday_engine.py:628 | No sequence of loop bodies removes a key from the table. |
| Refresh.RefreshKeepsWellFormed | custom_components/jdm_holiday/holiday_engine.py:541-550 | A refresh keeps every stored status in 0..2. |
| Refresh.StoreKeepsWellFormed | custom_components/jdm_holiday/holiday_engine.py:550 | Storing a table whose entries record 0..2 keeps that true of the whole snapshot. |
| Refresh.Holiday.constructor | custom_components/jdm_holiday/holiday_engine.py:189-206 | The engine starts from the snapshot it loaded from disk. |
| Refresh.Holiday.GetHolidaysFromServer | custom_components/jdm_holiday/holiday_engine.py:490-565 | When fresh, nothing changes. After a successful write, the snapshot is the refreshed tables stamped with today, and the full list goes to the backup. After a failed write, the stamp and year set are kept, but every existing year table holds its refreshed contents, because `copy()` is shallow. |
| Refresh.FreshAfterRefresh | custom_components/jdm_holiday/holiday_engine.py:534-535 | A refreshed snapshot is dated today; a repeated call with days > 0 is skipped exactly when this year's table is non-empty. |
| Store.Action | custom_components/jdm_holiday/holiday_engine.py:159-164 | A string day of exactly 8 characters is placed under its first 4 and last 4 characters. A non-zero integer day stops the load. Anything else is skipped. |
| Store.LoadedCount | custom_components/jdm_holiday/holiday_engine.py:157-174 | The rows read are those before the first row that stops the load. |
| Store.Load | custom_components/jdm_holiday/holiday_engine.py:137-174 | The loaded snapshot is the reshape of the rows read, with the stored `update_time`. |
| Store.ReshapeStep | custom_components/jdm_holiday/holiday_engine.py:166-170 | One more row adds its own slot, if it names one, and nothing else. |
| Store.ReshapeKeys | custom_components/jdm_holiday/holiday_engine.py:159-170 | A slot exists exactly where some row's 8-character day names it. |
| Store.ReshapeKeyWidths | custom_components/jdm_holiday/holiday_engine.py:163-164 | Every year key and every day key is four characters long. |
| Store.ReshapeLast | custom_components/jdm_holiday/holiday_engine.py:170 | A slot holds the last row that names it. |
| Store.ReshapeDropsUnplaced | custom_components/jdm_holiday/holiday_engine.py:160-161 | Rows with no day, a falsy day, or a day of another length leave no slot. |
| Store.LoadedRowClassifies | custom_components/jdm_holiday/holiday_engine.py:159-170 | A loaded row saved with a date's `YYYYMMDD` (years from 1000) is the slot `is_holiday_status` reads for that date, and classifies by its `type`. Its `day` parses back to the date. |

## Behaviour as written

The model follows the code in these places, which a reader of the names
and docstrings might expect to behave otherwise.

- Today is not a candidate. Offsets are `(date - today).days` with `today`
  carrying a time of day, so a holiday that is today has offset −1 unless
  the clock reads exactly 00:00 (`Candidates.ListedNotBeforeToday`).
- A failed save leaks into memory. `new_data` is a shallow copy, so when the
  JSON write fails, the year tables that existed before have already been
  filled by the fetch. Only the stamp and the newly created years are lost
  (`Refresh.Holiday.GetHolidaysFromServer`). Fetch failures never remove
  data: a refresh only adds and overwrites (`Refresh.RefreshOnlyAdds`).
- Bad values raise. A `type` that does not convert, or a bare entry where a
  day object is expected, makes `int()`/`.get` raise out of the queries;
  the model returns `Err(BadValue)`. A scan that would step past
  9999-12-31 or before 0001-01-01 returns `Err(OutOfRange)`.
- `HolidayDB.load` stops on an integer `day`: `len()` raises, and the rows
  loaded so far are returned (`Store.LoadedCount`). The table declares
  `day TEXT PRIMARY KEY` (`holiday_engine.py:66-67`), and SQLite's TEXT
  affinity stores an integer written there as text, so rows read from that
  table never reach this case; the model keeps it because the code handles it.
- The synthesised `day` assumes a day-of-month key. In the code, the
  compact table is keyed by the same `day_key` as the MMDD slot. With such a
  key the synthesised `day` has 9 characters (keys 0101 to 0931, which
  `int()` reads as 101 to 931) or 10 (keys 1001 to 1231), and the candidate parser and
  `HolidayDB.load` both drop it (`Refresh.SynthesisedDayShape`). The key
  form of the remote API is not part of this model, so this is stated and
  not corrected.

## Left out

- SQLite connections, table creation and `REPLACE INTO` writes: storage I/O. The rows are a parameter, and a missing database file or an SQL error is not modelled.
- HTTP (session, retries, status codes, `resp.json()`), `time.sleep`, reading and writing the JSON file, and `os.makedirs`: network and file I/O. Replies are a parameter, and the file write's outcome is a boolean.
- `Holiday.day`, `today`, `tomorrow` and the UTC+8 clock: the instant is a parameter, so `is_holiday_today`/`is_holiday_tomorrow` are `Calendar.IsHoliday` at that parameter.
- `get_holidays_from_disk`, and the lazy refresh when the snapshot is empty (`if not self._holiday_json`): both call I/O. The constructor takes the loaded snapshot.
- The text rendering of `_format_holiday_info` (`strftime("%m/%d")`, the month/day lists and the 串休 markers) and the "无最近节假日信息" text: only the counts are modelled (`Candidates.HolidayCounts`).
- The lunisolar converter, festivals and anniversaries that `sensor.py` calls: they are not in the engine.
- `strptime` accepting one-digit month or day fields, and `int()` accepting surrounding whitespace or underscores: the parsers accept only fixed-width fields and an optional sign followed by ASCII digits.
- Floats and booleans as JSON values, year tables that are not objects, and a non-string `update_time`: the snapshot is normalised to strings, integers and null, with every year holding a table.
- `strftime("%Y")` for years below 1000: `FormatIsoDate` pads to four digits.
- Candidates.CollectHolidayCandidates: Python's list sort is modelled by its result (ascending, a permutation) using insertion into a `seq`, not the in-place `list.sort`.
- Candidates.NearestHolidayInfo: returns the block and runs, not the rendered text.
- Refresh.FetchMonth: the month's table and list are passed in and returned as values. The sharing of tables between `new_data` and the old snapshot is modelled once, in `Refresh.Holiday.GetHolidaysFromServer`.
- Refresh.ClassifyItem: a JSON object's keys are distinct; the lemmas about the compact table assume this of the reply (`DistinctKeys`).
- Refresh.Holiday.GetHolidaysFromServer: the backup's own failures (caught and logged inside `save_full`) do not affect the snapshot; the method returns the list handed to it.
- HolidayDB.save_full's column mapping: storage I/O; the backup list is returned as records.
