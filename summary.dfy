/** The summary aggregator of the time-entry list: the date-keyed entry map,
    the clamped minutes each day contributes, the week and pay-period totals,
    and the summary rows shown under the calendar. */
module Summary {
  import opened Text
  import opened Wrappers
  import opened Clock
  import opened Dates

  /** A time entry as the API lists it. A time that is null or empty is the
      empty string here; both are falsy in `entry.start_time && entry.end_time`. */
  datatype Entry = Entry(id: int, date: string, startTime: string, endTime: string, notes: string)

  /** The stored times are readable by parseTime (the API stores "HH:MM:SS"). */
  predicate WellFormedEntry(e: Entry) {
    (e.startTime == [] || ClockText(e.startTime)) && (e.endTime == [] || ClockText(e.endTime))
  }

  predicate WellFormedEntries(entries: seq<Entry>) {
    forall i :: 0 <= i < |entries| ==> WellFormedEntry(entries[i])
  }

  predicate WellFormedMap(m: map<string, Entry>) {
    forall k :: k in m ==> WellFormedEntry(m[k])
  }

  // ---- entryMap ----

  /** `entryMap`: each entry stored under its date, in list order, so a later
      entry replaces an earlier one with the same date. */
  function EntryMapOf(entries: seq<Entry>): (m: map<string, Entry>)
    ensures WellFormedEntries(entries) ==> WellFormedMap(m)
  {
    if entries == [] then map[]
    else
      var last := entries[|entries| - 1];
      EntryMapOf(entries[..|entries| - 1])[last.date := last]
  }

  /** The map's keys are exactly the dates of the entries. */
  lemma {:induction false} EntryMapKeys(entries: seq<Entry>, k: string)
    ensures k in EntryMapOf(entries) <==> exists i :: 0 <= i < |entries| && entries[i].date == k
  {
    if entries != [] {
      var init := entries[..|entries| - 1];
      EntryMapKeys(init, k);
      if k in EntryMapOf(init) {
        var i :| 0 <= i < |init| && init[i].date == k;
        assert entries[i].date == k;
      }
      if exists i :: 0 <= i < |entries| && entries[i].date == k {
        var i :| 0 <= i < |entries| && entries[i].date == k;
        if i < |init| {
          assert init[i].date == k;
        }
      }
    }
  }

  /** For a duplicated date the map keeps the last entry listed with it. */
  lemma {:induction false} EntryMapLastWins(entries: seq<Entry>, i: int)
    requires 0 <= i < |entries|
    requires forall j :: i < j < |entries| ==> entries[j].date != entries[i].date
    ensures entries[i].date in EntryMapOf(entries)
    ensures EntryMapOf(entries)[entries[i].date] == entries[i]
  {
    if i < |entries| - 1 {
      var init := entries[..|entries| - 1];
      EntryMapLastWins(init, i);
    }
  }

  /** The loop that fills `entryMap` with `entryMap[entry.date] = entry`. */
  method BuildEntryMap(entries: seq<Entry>) returns (m: map<string, Entry>)
    ensures m == EntryMapOf(entries)
  {
    m := map[];
    var i := 0;
    while i < |entries|
      invariant 0 <= i <= |entries|
      invariant m == EntryMapOf(entries[..i])
    {
      assert entries[..i + 1][..i] == entries[..i];
      m := m[entries[i].date := entries[i]];
      i := i + 1;
    }
    assert entries[..i] == entries;
  }

  // ---- minutes per day ----

  /** The minutes a day's entry adds to a total: end minus start when both
      times are present and the end is later, otherwise nothing. */
  function WorkedMinutes(e: Entry): (r: nat)
    requires WellFormedEntry(e)
    ensures r > 0 <==> e.startTime != [] && e.endTime != []
                       && ParseTime(e.endTime).value > ParseTime(e.startTime).value
    ensures r > 0 ==> r == ParseTime(e.endTime).value - ParseTime(e.startTime).value
  {
    if e.startTime != [] && e.endTime != [] then
      var start := ParseTime(e.startTime);
      var end := ParseTime(e.endTime);
      if start.Some? && end.Some? && end.value > start.value then end.value - start.value else 0
    else 0
  }

  /** The test both summing loops apply to the entry of a day. */
  method EntryMinutes(entry: Entry) returns (mins: nat)
    requires WellFormedEntry(entry)
    ensures mins == WorkedMinutes(entry)
  {
    mins := 0;
    if entry.startTime != [] && entry.endTime != [] {
      var start := ParseTime(entry.startTime);
      var end := ParseTime(entry.endTime);
      if start.Some? && end.Some? && end.value > start.value {
        mins := end.value - start.value;
      }
    }
  }

  /** The unclamped difference behind a cell's "Raw" line; 0 when a time is missing. */
  function RawMinutes(e: Entry): (r: int)
    requires WellFormedEntry(e)
    ensures e.startTime != [] && e.endTime != [] ==>
              r + ParseTime(e.startTime).value == ParseTime(e.endTime).value
    ensures e.startTime == [] || e.endTime == [] ==> r == 0
  {
    if e.startTime != [] && e.endTime != [] then
      ParseTime(e.endTime).value - ParseTime(e.startTime).value
    else 0
  }

  /** The "Raw" line of a calendar cell. */
  function RawCell(entry: Option<Entry>): string
    requires entry.Some? ==> WellFormedEntry(entry.value)
  {
    if entry.Some? && entry.value.startTime != [] && entry.value.endTime != [] then
      MinutesToHHMM(RawMinutes(entry.value))
    else "0:00"
  }

  /** The clamped contribution is the raw difference floored at zero; the raw
      cell shows the raw difference, negative when the end precedes the start. */
  lemma WorkedIsClampedRaw(e: Entry)
    requires WellFormedEntry(e)
    ensures WorkedMinutes(e) == if RawMinutes(e) > 0 then RawMinutes(e) else 0
    ensures RawCell(Some(e)) == MinutesToHHMM(RawMinutes(e))
  {
    HHMMZero();
  }

  /** The "Raw" line reads back as the unclamped difference, or as 0 for a day
      without an entry or without both times. */
  lemma RawCellReadsBack(entry: Option<Entry>)
    requires entry.Some? ==> WellFormedEntry(entry.value)
    ensures ParseHHMM(RawCell(entry)) == Some(if entry.Some? then RawMinutes(entry.value) else 0)
  {
    if entry.Some? && entry.value.startTime != [] && entry.value.endTime != [] {
      PrintedReadsBack(RawMinutes(entry.value));
    } else {
      HHMMZero();
      PrintedReadsBack(0);
    }
  }

  /** An entry from 17:00 to 08:00 contributes nothing; its raw cell reads "-9:00". */
  lemma ReversedTimesExample()
    ensures ClockText(Pad(17) + ":" + Pad(0)) && ClockText(Pad(8) + ":" + Pad(0))
    ensures var e := Entry(1, "2025-01-06", Pad(17) + ":" + Pad(0), Pad(8) + ":" + Pad(0), "");
            WorkedMinutes(e) == 0 && RawCell(Some(e)) == "-9:00"
  {
    var late, early := Pad(17) + ":" + Pad(0), Pad(8) + ":" + Pad(0);
    ParsePadded(17, 0, []);
    ParsePadded(8, 0, []);
    assert late + [] == late && early + [] == early;
    var e := Entry(1, "2025-01-06", late, early, "");
    assert RawMinutes(e) == -540;
    HHMMNegation(540, -540);
    NineHours();
  }

  /** The minutes the entry stored under a printed date contributes. */
  function DayMinutes(m: map<string, Entry>, key: string): nat
    requires WellFormedMap(m)
  {
    if key in m then WorkedMinutes(m[key]) else 0
  }

  /** The clamped minutes of the entries stored under keys[lo], ..., keys[hi - 1]. */
  function RangeMinutes(m: map<string, Entry>, keys: seq<string>, lo: int, hi: int): nat
    requires WellFormedMap(m)
    requires 0 <= lo <= hi <= |keys|
    decreases hi - lo
  {
    if lo == hi then 0
    else RangeMinutes(m, keys, lo, hi - 1) + DayMinutes(m, keys[hi - 1])
  }

  /** Totals add up over consecutive runs of days. */
  lemma {:induction false} RangeSplit(m: map<string, Entry>, keys: seq<string>, lo: int, mid: int, hi: int)
    requires WellFormedMap(m)
    requires 0 <= lo <= mid <= hi <= |keys|
    ensures RangeMinutes(m, keys, lo, hi) == RangeMinutes(m, keys, lo, mid) + RangeMinutes(m, keys, mid, hi)
    decreases hi - mid
  {
    if mid < hi {
      RangeSplit(m, keys, lo, mid, hi - 1);
    }
  }

  /** A total is at least every single day's contribution in it. */
  lemma {:induction false} RangeCoversDay(m: map<string, Entry>, keys: seq<string>, lo: int, hi: int, i: int)
    requires WellFormedMap(m)
    requires 0 <= lo <= i < hi <= |keys|
    ensures DayMinutes(m, keys[i]) <= RangeMinutes(m, keys, lo, hi)
    decreases hi - lo
  {
    if i < hi - 1 {
      RangeCoversDay(m, keys, lo, hi - 1, i);
    }
  }

  /** The clamped minutes of the seven days from index start. */
  function WeekMinutes(m: map<string, Entry>, days: seq<int>, start: int): nat
    requires WellFormedMap(m)
    requires 0 <= start && start + 7 <= |days|
  {
    RangeMinutes(m, DaysInView(days), start, start + 7)
  }

  /** The clamped minutes of every day in view. */
  function PeriodMinutes(m: map<string, Entry>, days: seq<int>): nat
    requires WellFormedMap(m)
  {
    RangeMinutes(m, DaysInView(days), 0, |days|)
  }

  // ---- summary values ----

  /** The five texts of a summary row. */
  datatype Totals = Totals(hoursWorked: string, hoursRemaining: string, differential: string,
                           rawHoursWorked: string, rawDifferential: string)

  /** The texts for `total` worked minutes against `target` standard minutes. */
  function TotalsOf(total: int, target: int): (t: Totals)
    ensures t.rawHoursWorked == t.hoursWorked && t.rawDifferential == t.differential
  {
    var diff := MinutesToHHMM(total - target);
    var worked := MinutesToHHMM(total);
    Totals(worked, MinutesToHHMM(target - total), diff, worked, diff)
  }

  /** Each text of a summary row reads back as the worked, remaining and
      differential minutes. */
  lemma TotalsReadBack(total: int, target: int)
    ensures var t := TotalsOf(total, target);
            ParseHHMM(t.hoursWorked) == Some(total)
            && ParseHHMM(t.hoursRemaining) == Some(target - total)
            && ParseHHMM(t.differential) == Some(total - target)
  {
    var t := TotalsOf(total, target);
    assert ParseHHMM(t.hoursWorked) == Some(total) by { PrintedReadsBack(total); }
    assert ParseHHMM(t.hoursRemaining) == Some(target - total) by { PrintedReadsBack(target - total); }
    assert ParseHHMM(t.differential) == Some(total - target) by { PrintedReadsBack(total - target); }
  }

  /** The differential is the remaining amount with the sign flipped. */
  lemma TotalsSigns(total: int, target: int)
    ensures total > target ==> TotalsOf(total, target).hoursRemaining == "-" + TotalsOf(total, target).differential
    ensures total < target ==> TotalsOf(total, target).differential == "-" + TotalsOf(total, target).hoursRemaining
    ensures total == target ==> TotalsOf(total, target).hoursRemaining == TotalsOf(total, target).differential == "0:00"
  {
    if total > target {
      HHMMNegation(total - target, target - total);
    } else if total < target {
      HHMMNegation(target - total, total - target);
    } else {
      HHMMZero();
    }
  }

  /** Nine hours from 08:00 to 17:00 read "9:00"; 45 hours against a standard
      of 40 leave "-5:00" remaining and a differential of "5:00". */
  lemma TotalsExamples()
    ensures TotalsOf(540, 2400).hoursWorked == "9:00"
    ensures TotalsOf(2700, 2400).hoursRemaining == "-5:00"
    ensures TotalsOf(2700, 2400).differential == "5:00"
  {
    NineHours();
    FiveHours();
  }

  lemma NineHours()
    ensures MinutesToHHMM(540) == "9:00"
  {
    assert Pad(0) == "00";
    assert NatToString(9) == "9";
  }

  lemma FiveHours()
    ensures MinutesToHHMM(300) == "5:00" && MinutesToHHMM(-300) == "-5:00"
  {
    assert Pad(0) == "00";
    assert NatToString(5) == "5";
  }

  /** The summing loop shared by `getWeekSummary` (days startIdx to
      startIdx + 6) and `payPeriodMins` (every day in view). */
  method SumDays(days: seq<int>, m: map<string, Entry>, lo: int, hi: int) returns (mins: nat)
    requires WellFormedMap(m)
    requires 0 <= lo <= hi <= |days|
    ensures mins == RangeMinutes(m, DaysInView(days), lo, hi)
  {
    mins := 0;
    var i := lo;
    while i < hi
      invariant lo <= i <= hi
      invariant mins == RangeMinutes(m, DaysInView(days), lo, i)
    {
      mins := AddDay(days, m, lo, i, mins);
      i := i + 1;
    }
  }

  /** One pass of the summing loop: the day's key, its entry if any, its minutes. */
  method AddDay(days: seq<int>, m: map<string, Entry>, lo: int, i: int, mins: nat) returns (total: nat)
    requires WellFormedMap(m)
    requires 0 <= lo <= i < |days|
    requires mins == RangeMinutes(m, DaysInView(days), lo, i)
    ensures total == RangeMinutes(m, DaysInView(days), lo, i + 1)
  {
    var d := days[i];
    var key := FormatDate(d);
    total := mins;
    if key in m {
      var worked := EntryMinutes(m[key]);
      total := total + worked;
    }
    DaysInViewIndex(days, i);
  }

  /** `getWeekSummary(startIdx)`: the texts for the seven days from startIdx.
      The standard is taken in minutes, `standardWeekHours * 60`, so that a
      setting such as 37.5 hours is its 2250 minutes. */
  method WeekSummary(days: seq<int>, m: map<string, Entry>, startIdx: int, standardWeekMinutes: int)
    returns (summary: Totals)
    requires WellFormedMap(m)
    requires 0 <= startIdx && startIdx + 7 <= |days|
    ensures summary == TotalsOf(WeekMinutes(m, days, startIdx), standardWeekMinutes)
  {
    var totalMins := SumDays(days, m, startIdx, startIdx + 7);
    summary := TotalsOf(totalMins, standardWeekMinutes);
  }

  /** The pay-period total is the sum of the week totals. */
  lemma PayPeriodIsSumOfWeeks(m: map<string, Entry>, days: seq<int>, weekCount: nat)
    requires WellFormedMap(m)
    requires weekCount == 1 || weekCount == 2
    requires |days| == 7 * weekCount
    ensures weekCount == 1 ==> PeriodMinutes(m, days) == WeekMinutes(m, days, 0)
    ensures weekCount == 2 ==> PeriodMinutes(m, days) == WeekMinutes(m, days, 0) + WeekMinutes(m, days, 7)
  {
    if weekCount == 2 {
      RangeSplit(m, DaysInView(days), 0, 7, 14);
    }
  }

  // ---- summary rows ----

  datatype SummaryRow = SummaryRow(title: string, totals: Totals)

  /** A row title: the title word followed by the printed first and last day. */
  function RangeLabel(title: string, first: int, last: int): string {
    title + FormatDate(first) + " - " + FormatDate(last)
  }

  function WeekLabel(days: seq<int>, start: int): string
    requires 0 <= start && start + 7 <= |days|
  {
    RangeLabel("Week of ", days[start], days[start + 6])
  }

  function PayPeriodLabel(days: seq<int>): string
    requires |days| > 0
  {
    RangeLabel("Pay Period of ", days[0], days[|days| - 1])
  }

  /** In a view of weekCount weeks from weekStart, the row of week w names
      the first and last day of that week. */
  lemma WeekLabelOfPeriod(weekStart: int, weekCount: nat, w: nat)
    requires w < weekCount
    ensures WeekLabel(Period(weekStart, weekCount), 7 * w)
            == RangeLabel("Week of ", weekStart + 7 * w, weekStart + 7 * w + 6)
  {
    var days := Period(weekStart, weekCount);
    assert days[7 * w] == weekStart + 7 * w;
    assert days[7 * w + 6] == weekStart + 7 * w + 6;
  }

  /** The pay-period row names the first and last day in view. */
  lemma PayPeriodLabelOfPeriod(weekStart: int, weekCount: nat)
    requires weekCount > 0
    ensures PayPeriodLabel(Period(weekStart, weekCount))
            == RangeLabel("Pay Period of ", weekStart, weekStart + 7 * weekCount - 1)
  {
    var days := Period(weekStart, weekCount);
    assert days[0] == weekStart;
    assert days[|days| - 1] == weekStart + 7 * weekCount - 1;
  }

  /** The row for the seven days from index start. */
  function WeekRow(m: map<string, Entry>, days: seq<int>, start: int, standardWeekMinutes: int): SummaryRow
    requires WellFormedMap(m)
    requires 0 <= start && start + 7 <= |days|
  {
    SummaryRow(WeekLabel(days, start), TotalsOf(WeekMinutes(m, days, start), standardWeekMinutes))
  }

  /** The row for every day in view, against the standard for the whole period. */
  function PayPeriodRow(m: map<string, Entry>, days: seq<int>, weekCount: nat, standardWeekMinutes: int): SummaryRow
    requires WellFormedMap(m)
    requires |days| > 0
  {
    SummaryRow(PayPeriodLabel(days), TotalsOf(PeriodMinutes(m, days), standardWeekMinutes * weekCount))
  }

  /** One week's row: `Week of <first day> - <last day>` and that week's texts. */
  method BuildWeekRow(days: seq<int>, m: map<string, Entry>, start: int, standardWeekMinutes: int)
    returns (row: SummaryRow)
    requires WellFormedMap(m)
    requires 0 <= start && start + 7 <= |days|
    ensures row == WeekRow(m, days, start, standardWeekMinutes)
  {
    var week := WeekSummary(days, m, start, standardWeekMinutes);
    row := SummaryRow(WeekLabel(days, start), week);
  }

  /** The pay-period row, summed over every day in view. */
  method BuildPayPeriodRow(days: seq<int>, m: map<string, Entry>, weekCount: nat, standardWeekMinutes: int)
    returns (row: SummaryRow)
    requires WellFormedMap(m)
    requires |days| > 0
    ensures row == PayPeriodRow(m, days, weekCount, standardWeekMinutes)
  {
    var payPeriodMins := SumDays(days, m, 0, |days|);
    row := SummaryRow(PayPeriodLabel(days), TotalsOf(payPeriodMins, standardWeekMinutes * weekCount));
  }

  /** The week rows: the first week, then the second when two are in view. */
  function WeekRows(m: map<string, Entry>, days: seq<int>, weekCount: nat, standardWeekMinutes: int): seq<SummaryRow>
    requires WellFormedMap(m)
    requires weekCount == 1 || weekCount == 2
    requires |days| == 7 * weekCount
  {
    if weekCount == 2 then [WeekRow(m, days, 0, standardWeekMinutes), WeekRow(m, days, 7, standardWeekMinutes)]
    else [WeekRow(m, days, 0, standardWeekMinutes)]
  }

  /** Two pushes onto a one-row list give the two-row list. */
  lemma PushedPair(a: SummaryRow, b: SummaryRow)
    ensures [a] + [b] == [a, b]
  {
  }

  /** `summaryRows` and `payPeriodRemaining`: one row per week in view, in
      order, then the pay-period row; the standalone "hours still needed" text
      is that row's remaining hours. The guard `days.length >= 7` always holds
      for one or two weeks in view, and `days.length >= 14` whenever two are. */
  method SummaryRows(days: seq<int>, m: map<string, Entry>, weekCount: nat, standardWeekMinutes: int)
    returns (rows: seq<SummaryRow>, payPeriodRemaining: string)
    requires WellFormedMap(m)
    requires weekCount == 1 || weekCount == 2
    requires |days| == 7 * weekCount
    ensures rows == WeekRows(m, days, weekCount, standardWeekMinutes) + [PayPeriodRow(m, days, weekCount, standardWeekMinutes)]
    ensures payPeriodRemaining == PayPeriodRow(m, days, weekCount, standardWeekMinutes).totals.hoursRemaining
  {
    var week1 := BuildWeekRow(days, m, 0, standardWeekMinutes);
    rows := [week1];
    if weekCount == 2 {
      var week2 := BuildWeekRow(days, m, 7, standardWeekMinutes);
      PushedPair(week1, week2);
      rows := rows + [week2];
    }
    var payRow := BuildPayPeriodRow(days, m, weekCount, standardWeekMinutes);
    payPeriodRemaining := payRow.totals.hoursRemaining;
    rows := rows + [payRow];
  }
}
