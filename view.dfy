/** The view state of the time-entry list that the navigation and selection
    handlers update: the first day shown, the number of weeks shown and the
    selected cell. */
module View {
  import opened Wrappers
  import opened Dates

  class PeriodView {
    var weekStart: int
    var weekCount: nat
    var selectedDate: Option<string>

    /** The view starts on a Sunday and shows one or two weeks. */
    ghost predicate Valid()
      reads this
    {
      Weekday(weekStart) == 0 && 1 <= weekCount <= 2
    }

    /** The `days` of the grid. */
    function Days(): (days: seq<int>)
      reads this
      ensures |days| == 7 * weekCount
    {
      Period(weekStart, weekCount)
    }

    /** The initial state: the two weeks starting at the Sunday of today's
        week, nothing selected; today is among the days shown. */
    constructor (today: int)
      ensures Valid()
      ensures weekStart == WeekStart(today) && weekCount == 2 && selectedDate == None
      ensures today in Days()
    {
      weekStart := WeekStart(today);
      weekCount := 2;
      selectedDate := None;
      new;
      assert Days()[today - weekStart] == today;
    }

    /** `handlePrev`: the previous period, ending the day before the current
        one began; the selection is cleared. */
    method HandlePrev()
      requires Valid()
      modifies this
      ensures Valid()
      ensures weekStart == PrevStart(old(weekStart), old(weekCount))
      ensures weekCount == old(weekCount) && selectedDate == None
      ensures Days()[|Days()| - 1] + 1 == old(weekStart)
    {
      weekStart := PrevStart(weekStart, weekCount);
      selectedDate := None;
    }

    /** `handleNext`: the next period, starting the day after the current one
        ends; the selection is cleared. */
    method HandleNext()
      requires Valid()
      modifies this
      ensures Valid()
      ensures weekStart == NextStart(old(weekStart), old(weekCount))
      ensures weekCount == old(weekCount) && selectedDate == None
      ensures weekStart == old(Days())[|old(Days())| - 1] + 1
    {
      weekStart := NextStart(weekStart, weekCount);
      selectedDate := None;
    }

    /** The calendar picker, taking the picked calendar day as a local day:
        the view moves to the week of that day, which is then among the days
        shown; the selection is cleared. */
    method JumpToDate(date: int)
      requires Valid()
      modifies this
      ensures Valid()
      ensures weekStart == WeekStart(date) && weekCount == old(weekCount) && selectedDate == None
      ensures date in Days()
    {
      weekStart := WeekStart(date);
      selectedDate := None;
      assert Days()[date - weekStart] == date;
    }

    /** The period-length setting, offered as 1 or 2 weeks; the anchor and the
        selection stay, so one of the old and new grids is a prefix of the other. */
    method SetWeekCount(n: nat)
      requires Valid() && (n == 1 || n == 2)
      modifies this
      ensures Valid()
      ensures weekCount == n && weekStart == old(weekStart) && selectedDate == old(selectedDate)
      ensures old(Days()) <= Days() || Days() <= old(Days())
    {
      weekCount := n;
    }

    /** `date.getDay()` of the i-th cell: cells follow the weekdays from
        Sunday, so cells 0, 6, 7 and 13 are the weekend ones. */
    function CellWeekday(i: int): (w: nat)
      reads this
      requires Valid() && 0 <= i < |Days()|
      ensures w == i % 7
      ensures (w == 0 || w == 6) <==> (i % 7 == 0 || i % 7 == 6)
    {
      PeriodWeekdays(weekStart, weekCount, i);
      Weekday(Days()[i])
    }

    /** A click on the i-th cell selects the printed date of that day. */
    method SelectCell(i: int)
      requires 0 <= i < |Days()|
      modifies this
      ensures weekStart == old(weekStart) && weekCount == old(weekCount)
      ensures selectedDate == Some(FormatDate(old(Days())[i]))
      ensures selectedDate == Some(DaysInView(Days())[i])
    {
      DaysInViewIndex(Days(), i);
      selectedDate := Some(FormatDate(Days()[i]));
    }

    /** The form's close button, and a successful save, clear the selection. */
    method CloseForm()
      modifies this
      ensures weekStart == old(weekStart) && weekCount == old(weekCount) && selectedDate == None
    {
      selectedDate := None;
    }
  }

  // ---- the calendar picker as written ----

  /** `new Date("YYYY-MM-DD")` is midnight UTC of the picked day; `getDay` and
      `getDate` read it in the local zone, offsetMinutes from UTC (negative
      west of Greenwich: -480 or -420 in Los Angeles). The local day it falls
      on is the picked day east of UTC and the day before west of it. */
  function PickedLocalDay(picked: int, offsetMinutes: int): (d: int)
    requires -1440 < offsetMinutes < 1440
    ensures offsetMinutes < 0 ==> d == picked - 1
    ensures offsetMinutes >= 0 ==> d == picked
  {
    DayOfMinute(picked * 1440 + offsetMinutes, picked * 1440, offsetMinutes);
    (picked * 1440 + offsetMinutes) / 1440
  }

  /** The local day of a minute count, given as a day boundary plus an offset. */
  lemma DayOfMinute(m: int, base: int, offset: int)
    requires m == base + offset && base % 1440 == 0 && -1440 < offset < 1440
    ensures offset < 0 ==> m / 1440 == base / 1440 - 1
    ensures offset >= 0 ==> m / 1440 == base / 1440
  {
    if offset < 0 {
      assert m == (base / 1440 - 1) * 1440 + (1440 + offset);
    } else {
      assert m == (base / 1440) * 1440 + offset;
    }
  }

  /** The anchor the picker's handler computes: the week start of that local day. */
  function PickerAnchor(picked: int, offsetMinutes: int): (r: int)
    requires -1440 < offsetMinutes < 1440
    ensures Weekday(r) == 0
  {
    WeekStart(PickedLocalDay(picked, offsetMinutes))
  }

  /** West of UTC, picking a Sunday anchors the view a week early: with one
      week shown, the picked day is not in view. */
  lemma PickerMissesSunday(picked: int, offsetMinutes: int)
    requires Weekday(picked) == 0 && -1440 < offsetMinutes < 0
    ensures PickerAnchor(picked, offsetMinutes) == picked - 7
    ensures picked !in Period(PickerAnchor(picked, offsetMinutes), 1)
  {
    assert Weekday(picked - 1) == 6;
  }

  /** East of UTC, or at UTC, the anchor is the picked day's week start. */
  lemma PickerEastOfUtc(picked: int, offsetMinutes: int)
    requires 0 <= offsetMinutes < 1440
    ensures PickerAnchor(picked, offsetMinutes) == WeekStart(picked)
  {
  }
}
