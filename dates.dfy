/** Calendar days of the time-entry list. A JavaScript `Date` at local
    midnight is modelled by its day number: the count of days since
    1970-01-01, which was a Thursday. On day numbers `setDate(getDate() + k)`
    is addition of k, `getDay()` is the weekday, and `formatDate` is the
    proleptic Gregorian date printed as toISOString prints it. */
module Dates {
  import opened Text

  /** `date.getDay()`: 0 for Sunday through 6 for Saturday. */
  function Weekday(day: int): (w: nat)
    ensures w < 7
  {
    (day + 4) % 7
  }

  /** `getWeekStart(date)`: the Sunday on or before the day. */
  function WeekStart(date: int): (r: int)
    ensures Weekday(r) == 0
    ensures date - 6 <= r <= date
  {
    date - Weekday(date)
  }

  /** The week start is the only Sunday among the day and the six days before it. */
  lemma WeekStartUnique(date: int, s: int)
    requires Weekday(s) == 0 && date - 6 <= s <= date
    ensures s == WeekStart(date)
  {
    var w := WeekStart(date);
    var k := (s + 4) / 7;
    var j := (w + 4) / 7;
    assert s + 4 == 7 * k;
    assert w + 4 == 7 * j;
    assert -6 <= 7 * (k - j) <= 6;
  }

  /** Applying getWeekStart twice gives the same Sunday as applying it once. */
  lemma WeekStartIdempotent(date: int)
    ensures WeekStart(WeekStart(date)) == WeekStart(date)
  {
  }

  /** Moving by whole weeks keeps the weekday. */
  lemma {:induction false} WeekdayShift(day: int, weeks: int)
    ensures Weekday(day + 7 * weeks) == Weekday(day)
  {
    var q := (day + 4) / 7;
    var r := (day + 4) % 7;
    assert day + 7 * weeks + 4 == 7 * (q + weeks) + r;
  }

  // ---- the proleptic Gregorian calendar ----

  predicate IsLeap(year: int) {
    year % 4 == 0 && (year % 100 != 0 || year % 400 == 0)
  }

  function YearLength(year: int): (n: nat)
    ensures n == 365 || n == 366
  {
    if IsLeap(year) then 366 else 365
  }

  /** Days of the year before the first of month m (1..12); m = 13 gives the year's length. */
  function DaysBeforeMonth(year: int, m: int): (n: nat)
    requires 1 <= m <= 13
    ensures m == 1 ==> n == 0
    ensures m == 13 ==> n == YearLength(year)
  {
    var table := [0, 31, 59, 90, 120, 151, 181, 212, 243, 273, 304, 334, 365];
    table[m - 1] + if m > 2 && IsLeap(year) then 1 else 0
  }

  function MonthLength(year: int, m: int): (n: nat)
    requires 1 <= m <= 12
    ensures 28 <= n <= 31
  {
    DaysBeforeMonth(year, m + 1) - DaysBeforeMonth(year, m)
  }

  /** Day number of January 1 of the year. */
  function YearStart(year: int): int
    decreases if year >= 1970 then year - 1970 else 1970 - year
  {
    if year == 1970 then 0
    else if year > 1970 then YearStart(year - 1) + YearLength(year - 1)
    else YearStart(year + 1) - YearLength(year)
  }

  lemma YearStartStep(year: int)
    ensures YearStart(year + 1) == YearStart(year) + YearLength(year)
  {
  }

  /** Later years start later: a whole year lies between two year starts. */
  lemma {:induction false} YearStartMonotone(y1: int, y2: int)
    requires y1 < y2
    ensures YearStart(y1) + YearLength(y1) <= YearStart(y2)
    decreases y2 - y1
  {
    YearStartStep(y1);
    if y1 + 1 < y2 {
      YearStartMonotone(y1 + 1, y2);
    }
  }

  datatype CivilDate = CivilDate(year: int, month: int, day: int)

  predicate ValidCivil(c: CivilDate) {
    1 <= c.month <= 12 && 1 <= c.day <= MonthLength(c.year, c.month)
  }

  /** The day number of a calendar date. */
  function DaysFromCivil(c: CivilDate): int
    requires ValidCivil(c)
  {
    YearStart(c.year) + DaysBeforeMonth(c.year, c.month) + c.day - 1
  }

  /** The year holding day `YearStart(year) + offset`, and the offset into that year. */
  function YearOf(year: int, offset: int): (r: (int, int))
    ensures 0 <= r.1 < YearLength(r.0)
    ensures YearStart(r.0) + r.1 == YearStart(year) + offset
    decreases if offset < 0 then 400 - offset else offset
  {
    YearStartStep(year - 1);
    YearStartStep(year);
    if offset < 0 then YearOf(year - 1, offset + YearLength(year - 1))
    else if offset >= YearLength(year) then YearOf(year + 1, offset - YearLength(year))
    else (year, offset)
  }

  /** The month, from m on, whose days hold the offset into the year. */
  function MonthOf(year: int, m: int, offset: int): (r: int)
    requires 1 <= m <= 12
    requires DaysBeforeMonth(year, m) <= offset < YearLength(year)
    ensures 1 <= r <= 12
    ensures DaysBeforeMonth(year, r) <= offset < DaysBeforeMonth(year, r + 1)
    decreases 13 - m
  {
    if offset < DaysBeforeMonth(year, m + 1) then m else MonthOf(year, m + 1, offset)
  }

  /** The calendar date of a day number. */
  function CivilFromDays(n: int): (c: CivilDate)
    ensures ValidCivil(c) && DaysFromCivil(c) == n
  {
    var (year, offset) := YearOf(1970, n);
    var m := MonthOf(year, 1, offset);
    CivilDate(year, m, offset - DaysBeforeMonth(year, m) + 1)
  }

  /** A valid date's offset into its year lies within the year. */
  lemma OffsetInYear(c: CivilDate)
    requires ValidCivil(c)
    ensures 0 <= DaysBeforeMonth(c.year, c.month) + c.day - 1 < YearLength(c.year)
  {
    if c.month < 12 {
      MonthsAfter(c.year, c.month, 13);
    }
  }

  /** Distinct calendar dates have distinct day numbers. */
  lemma DaysFromCivilInjective(c1: CivilDate, c2: CivilDate)
    requires ValidCivil(c1) && ValidCivil(c2)
    requires DaysFromCivil(c1) == DaysFromCivil(c2)
    ensures c1 == c2
  {
    OffsetInYear(c1);
    OffsetInYear(c2);
    if c1.year < c2.year {
      YearStartMonotone(c1.year, c2.year);
      assert false;
    } else if c2.year < c1.year {
      YearStartMonotone(c2.year, c1.year);
      assert false;
    } else if c1.month < c2.month {
      MonthsAfter(c1.year, c1.month, c2.month);
      assert false;
    } else if c2.month < c1.month {
      MonthsAfter(c1.year, c2.month, c1.month);
      assert false;
    }
  }

  lemma {:induction false} MonthsAfter(year: int, m1: int, m2: int)
    requires 1 <= m1 < m2 <= 13
    ensures DaysBeforeMonth(year, m1) + MonthLength(year, m1) <= DaysBeforeMonth(year, m2)
    decreases m2 - m1
  {
    if m1 + 1 < m2 {
      MonthsAfter(year, m1 + 1, m2);
    }
  }

  /** Day numbers and valid calendar dates correspond one to one. */
  lemma CivilRoundTrip(c: CivilDate)
    requires ValidCivil(c)
    ensures CivilFromDays(DaysFromCivil(c)) == c
  {
    DaysFromCivilInjective(CivilFromDays(DaysFromCivil(c)), c);
  }

  // ---- formatDate ----

  /** The year as toISOString prints it: four digits for years 0 to 9999,
      otherwise a sign and six digits. */
  function YearText(year: int): (s: string)
    ensures 4 <= |s|
  {
    if 0 <= year <= 9999 then PadStart(NatToString(year), 4, '0')
    else (if year < 0 then "-" else "+") + PadStart(NatToString(if year < 0 then -year else year), 6, '0')
  }

  /** Years 0 to 9999 print starting with a digit, the others with a sign. */
  lemma YearTextFirst(year: int)
    ensures IsDigit(YearText(year)[0]) <==> 0 <= year <= 9999
  {
    if 0 <= year <= 9999 {
      PaddedValue(year, 4);
    }
  }

  lemma YearTextInjective(y1: int, y2: int)
    requires YearText(y1) == YearText(y2)
    ensures y1 == y2
  {
    YearTextFirst(y1);
    YearTextFirst(y2);
    if 0 <= y1 <= 9999 {
      PaddedInjective(y1, y2, 4);
    } else {
      var a1 := if y1 < 0 then -y1 else y1;
      var a2 := if y2 < 0 then -y2 else y2;
      var t1 := PadStart(NatToString(a1), 6, '0');
      var t2 := PadStart(NatToString(a2), 6, '0');
      assert YearText(y1)[1..] == t1 && YearText(y2)[1..] == t2;
      PaddedInjective(a1, a2, 6);
    }
  }

  /** `formatDate(date)`: the day as "YYYY-MM-DD". */
  function FormatDate(day: int): (s: string)
    ensures |s| >= 10
  {
    var c := CivilFromDays(day);
    DateText(c)
  }

  function DateText(c: CivilDate): (s: string)
    requires ValidCivil(c)
    ensures |s| == |YearText(c.year)| + 6
  {
    YearText(c.year) + "-" + Pad(c.month) + "-" + Pad(c.day)
  }

  /** The year, month and day fields sit at fixed distances from the end of the text. */
  lemma DateTextFields(c: CivilDate)
    requires ValidCivil(c)
    ensures var s := DateText(c);
            s[..|s| - 6] == YearText(c.year) && s[|s| - 5..|s| - 3] == Pad(c.month)
            && s[|s| - 2..] == Pad(c.day) && s[|s| - 6] == '-' && s[|s| - 3] == '-'
  {
  }

  /** The printed date determines the calendar date. */
  lemma DateTextInjective(c1: CivilDate, c2: CivilDate)
    requires ValidCivil(c1) && ValidCivil(c2)
    requires DateText(c1) == DateText(c2)
    ensures c1 == c2
  {
    var s := DateText(c1);
    DateTextFields(c1);
    DateTextFields(c2);
    assert YearText(c1.year) == s[..|s| - 6] == YearText(c2.year);
    YearTextInjective(c1.year, c2.year);
    assert Pad(c1.month) == s[|s| - 5..|s| - 3] == Pad(c2.month);
    PaddedInjective(c1.month, c2.month, 2);
    assert Pad(c1.day) == s[|s| - 2..] == Pad(c2.day);
    PaddedInjective(c1.day, c2.day, 2);
  }

  /** Different days print as different dates, so a printed date names one day. */
  lemma FormatDateInjective(a: int, b: int)
    requires FormatDate(a) == FormatDate(b)
    ensures a == b
  {
    DateTextInjective(CivilFromDays(a), CivilFromDays(b));
  }

  /** The epoch and the day before it print as expected. */
  lemma FormatDateExamples()
    ensures FormatDate(0) == "1970-01-01"
    ensures FormatDate(-1) == "1969-12-31"
  {
    EpochPrinted();
    DayBeforeEpochPrinted();
  }

  lemma EpochPrinted()
    ensures FormatDate(0) == "1970-01-01"
  {
    var c := CivilDate(1970, 1, 1);
    assert DaysFromCivil(c) == 0;
    CivilRoundTrip(c);
    assert NatToString(1970) == "1970";
    assert Pad(1) == "01";
  }

  lemma DayBeforeEpochPrinted()
    ensures FormatDate(-1) == "1969-12-31"
  {
    var c := CivilDate(1969, 12, 31);
    assert YearStart(1969) == -365;
    assert DaysFromCivil(c) == -1;
    CivilRoundTrip(c);
    assert NatToString(1969) == "1969";
    assert Pad(12) == "12" && Pad(31) == "31";
  }

  /** `days.map(d => formatDate(d))`: the printed date of every day, in order. */
  function DaysInView(days: seq<int>): (keys: seq<string>)
    ensures |keys| == |days|
  {
    if days == [] then [] else DaysInView(days[..|days| - 1]) + [FormatDate(days[|days| - 1])]
  }

  /** The i-th printed date is the date of the i-th day. */
  lemma {:induction false} DaysInViewIndex(days: seq<int>, i: int)
    requires 0 <= i < |days|
    ensures DaysInView(days)[i] == FormatDate(days[i])
  {
    if i < |days| - 1 {
      DaysInViewIndex(days[..|days| - 1], i);
    }
  }

  /** Distinct days print as distinct dates, so a printed date names one day in view. */
  lemma DaysInViewDistinct(days: seq<int>, i: int, j: int)
    requires 0 <= i < |days| && 0 <= j < |days|
    requires DaysInView(days)[i] == DaysInView(days)[j]
    ensures days[i] == days[j]
  {
    DaysInViewIndex(days, i);
    DaysInViewIndex(days, j);
    FormatDateInjective(days[i], days[j]);
  }

  // ---- the period in view ----

  /** The days in view: weekCount weeks of consecutive days from weekStart. */
  function Period(weekStart: int, weekCount: nat): (days: seq<int>)
    ensures |days| == 7 * weekCount
    ensures forall i :: 0 <= i < |days| ==> days[i] == weekStart + i
  {
    seq(7 * weekCount, i => weekStart + i)
  }

  /** The nested loops that build `days`: week by week, seven days each. */
  method BuildDays(weekStart: int, weekCount: nat) returns (days: seq<int>)
    ensures |days| == 7 * weekCount
    ensures forall i :: 0 <= i < |days| ==> days[i] == weekStart + i
  {
    days := [];
    var week := 0;
    while week < weekCount
      invariant 0 <= week <= weekCount
      invariant |days| == 7 * week
      invariant forall k :: 0 <= k < |days| ==> days[k] == weekStart + k
    {
      var i := 0;
      while i < 7
        invariant 0 <= i <= 7
        invariant |days| == 7 * week + i
        invariant forall k :: 0 <= k < |days| ==> days[k] == weekStart + k
      {
        var d := weekStart + week * 7 + i;
        days := days + [d];
        i := i + 1;
      }
      week := week + 1;
    }
  }

  /** In a period that starts on a Sunday, day i falls on weekday i mod 7; so
      the grid's weekday labels repeat Sunday to Saturday and the weekend cells
      are the first and last of every row. */
  lemma PeriodWeekdays(weekStart: int, weekCount: nat, i: int)
    requires Weekday(weekStart) == 0
    requires 0 <= i < 7 * weekCount
    ensures Weekday(Period(weekStart, weekCount)[i]) == i % 7
    ensures (Weekday(Period(weekStart, weekCount)[i]) == 0 || Weekday(Period(weekStart, weekCount)[i]) == 6)
            <==> (i % 7 == 0 || i % 7 == 6)
  {
    WeekdayShift(i % 7 + weekStart, i / 7);
    assert weekStart + i == i % 7 + weekStart + 7 * (i / 7);
    var q := (weekStart + 4) / 7;
    assert weekStart + 4 == 7 * q;
    assert i % 7 + weekStart + 4 == 7 * q + i % 7;
  }

  /** Every day of a period prints as a different date. */
  lemma PeriodDatesDistinct(weekStart: int, weekCount: nat, i: int, j: int)
    requires 0 <= i < j < 7 * weekCount
    ensures FormatDate(Period(weekStart, weekCount)[i]) != FormatDate(Period(weekStart, weekCount)[j])
  {
    var days := Period(weekStart, weekCount);
    assert days[i] == weekStart + i && days[j] == weekStart + j;
    if FormatDate(days[i]) == FormatDate(days[j]) {
      DaysInViewIndex(days, i);
      DaysInViewIndex(days, j);
      FormatDateInjective(days[i], days[j]);
    }
  }

  // ---- navigation ----

  /** `handlePrev`: the anchor moves back by the length of the period. */
  function PrevStart(weekStart: int, weekCount: nat): (r: int)
    ensures Weekday(r) == Weekday(weekStart)
    ensures r + 7 * weekCount == weekStart
  {
    WeekdayShift(weekStart, -(weekCount as int));
    weekStart - 7 * weekCount
  }

  /** `handleNext`: the anchor moves forward by the length of the period. */
  function NextStart(weekStart: int, weekCount: nat): (r: int)
    ensures Weekday(r) == Weekday(weekStart)
    ensures r == weekStart + 7 * weekCount
  {
    WeekdayShift(weekStart, weekCount);
    weekStart + 7 * weekCount
  }

  /** Next after Prev (and Prev after Next) returns to the same anchor, and the
      next period begins the day after the current one ends: paging covers
      the calendar without gaps or overlaps. */
  lemma NavigationAdjacent(weekStart: int, weekCount: nat)
    requires weekCount >= 1
    ensures NextStart(PrevStart(weekStart, weekCount), weekCount) == weekStart
    ensures PrevStart(NextStart(weekStart, weekCount), weekCount) == weekStart
    ensures NextStart(weekStart, weekCount) == Period(weekStart, weekCount)[7 * weekCount - 1] + 1
    ensures Period(PrevStart(weekStart, weekCount), weekCount)[7 * weekCount - 1] + 1 == weekStart
  {
  }
}
