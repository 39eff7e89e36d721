# Time-entry list: a Dafny model

This project models the computational core of the time-clock front end's
time-entry list, the `TimeEntryList` component. The component shows one or two
weeks of days starting on a Sunday, holds at most one time entry per day, sums
the worked minutes per week and per pay period, and prints signed `H:MM` totals
against a standard number of hours per week. It also reshapes typed times,
converts 12-hour times to the stored 24-hour form and selects the entries that
a "reset" deletes.

Modules:

- `Text`: decimal text, `padStart`/`padEnd`, `split`/`join` on one character,
  `trim`, and the removal of non-digits. These are the JavaScript string
  operations the component relies on.
- `Dates`: calendar days as integer day numbers counted from 1970-01-01, which
  was a Thursday. It covers `getWeekStart`, `formatDate` (the proleptic
  Gregorian date printed as `toISOString` prints it), the `days` builder and
  previous/next navigation.
- `Clock`: `parseTime`, `minutesToHHMM` with an independent reader `ParseHHMM`,
  `to24Hour`, `formatDisplayTime` and `formatTimeInput`.
- `Summary`: `entryMap`, the clamped per-day contribution, the "Raw" cell, the
  two summing loops and the summary rows.
- `Reset`: the filter behind `confirmReset`.
- `View`: the view state (`weekStart`, `weekCount`, `selectedCell`) as a class
  whose handlers update it.

Conventions:

- A JavaScript `Date` at local midnight is its day number. `setDate(getDate() + k)` is `+ k`. `getDay()` is `Weekday`.
- An absent time (`null`, `undefined` or `''`, all falsy in the source) is the empty string.
- The stored times are text that `str.split(':').map(Number)` reads as two numbers (`ClockText`).

## Model

| member | source | states |
|---|---|---|
| Dates.Weekday | timeclock-fronted/src/components/TimeEntryList.jsx:11 | `getDay()` lies in 0..6 |
| Dates.WeekStart | timeclock-fronted/src/components/TimeEntryList.jsx:8-15 | the week start is a Sunday at most six days before the date |
| Dates.WeekStartUnique | timeclock-fronted/src/components/TimeEntryList.jsx:8-15 | it is the only Sunday among the date and the six days before it |
| Dates.WeekStartIdempotent | timeclock-fronted/src/components/TimeEntryList.jsx:8-15 | applying getWeekStart twice equals applying it once |
| Dates.WeekdayShift | timeclock-fronted/src/components/TimeEntryList.jsx:117-128 | moving by whole weeks keeps the weekday |
| Dates.CivilFromDays | timeclock-fronted/src/components/TimeEntryList.jsx:17-19 | the calendar date of a day number is valid and has that day number |
| Dates.CivilRoundTrip | timeclock-fronted/src/components/TimeEntryList.jsx:17-19 | day numbers and valid calendar dates correspond one to one |
| Dates.DaysFromCivilInjective | timeclock-fronted/src/components/TimeEntryList.jsx:17-19 | distinct valid dates have distinct day numbers |
| Dates.YearText | timeclock-fronted/src/components/TimeEntryList.jsx:18 | the ISO year text has at least four characters |
| Dates.YearTextFirst | timeclock-fronted/src/components/TimeEntryList.jsx:18 | the year text starts with a digit exactly for years 0 to 9999, otherwise with a sign |
| Dates.YearTextInjective | timeclock-fronted/src/components/TimeEntryList.jsx:18 | equal year texts mean equal years |
| Dates.FormatDate | timeclock-fronted/src/components/TimeEntryList.jsx:17-19 | the printed date has at least ten characters |
| Dates.DateTextFields | timeclock-fronted/src/components/TimeEntryList.jsx:17-19 | the text is year, '-', two-digit month, '-', two-digit day |
| Dates.DateTextInjective | timeclock-fronted/src/components/TimeEntryList.jsx:17-19 | the printed text determines the calendar date |
| Dates.FormatDateInjective | timeclock-fronted/src/components/TimeEntryList.jsx:17-19 | different days print as different dates |
| Dates.FormatDateExamples | timeclock-fronted/src/components/TimeEntryList.jsx:17-19 | day 0 prints "1970-01-01" and day -1 prints "1969-12-31" |
| Dates.DaysInView | timeclock-fronted/src/components/TimeEntryList.jsx:137 | `days.map(formatDate)` has one key per day |
| Dates.DaysInViewIndex | timeclock-fronted/src/components/TimeEntryList.jsx:137 | the i-th key is the printed date of the i-th day |
| Dates.DaysInViewDistinct | timeclock-fronted/src/components/TimeEntryList.jsx:137 | equal keys come from equal days |
| Dates.Period | timeclock-fronted/src/components/TimeEntryList.jsx:148-155 | the view holds 7 * weekCount consecutive days from weekStart |
| Dates.BuildDays | timeclock-fronted/src/components/TimeEntryList.jsx:148-155 | the nested loops build exactly those consecutive days |
| Dates.PeriodWeekdays | timeclock-fronted/src/components/TimeEntryList.jsx:391 | from a Sunday, day i falls on weekday i mod 7; weekend cells are exactly positions 0 and 6 of each week |
| Dates.PeriodDatesDistinct | timeclock-fronted/src/components/TimeEntryList.jsx:148-158 | the days of a period print as pairwise distinct dates |
| Dates.PrevStart | timeclock-fronted/src/components/TimeEntryList.jsx:117-122 | the anchor moves back by 7 * weekCount days and keeps its weekday |
| Dates.NextStart | timeclock-fronted/src/components/TimeEntryList.jsx:123-128 | the anchor moves forward by 7 * weekCount days and keeps its weekday |
| Dates.NavigationAdjacent | timeclock-fronted/src/components/TimeEntryList.jsx:117-128 | next and previous undo each other, and adjacent periods meet without a gap or overlap |
| Text.DigitsValue | timeclock-fronted/src/components/TimeEntryList.jsx:24 | `Number` of ASCII digit text is its decimal value, 0 for '' and below 10^n for n digits; `Text.NatToStringValue` and `Text.PaddedValue` show it reads the printed and zero-padded texts back |
| Text.NatToString | timeclock-fronted/src/components/TimeEntryList.jsx:33 | `toString()` of a non-negative integer is non-empty digits, one digit exactly below 10 |
| Text.NatToStringValue | timeclock-fronted/src/components/TimeEntryList.jsx:33 | the decimal text reads back as the number |
| Text.NatToStringCanonical | timeclock-fronted/src/components/TimeEntryList.jsx:33 | the decimal text has no leading zero |
| Text.CanonicalText | timeclock-fronted/src/components/TimeEntryList.jsx:33 | digits without a leading zero are the text of their own value |
| Text.PadStart | timeclock-fronted/src/components/TimeEntryList.jsx:45 | `padStart` yields the larger of the text length and the width |
| Text.PadEnd | timeclock-fronted/src/components/TimeEntryList.jsx:236 | `padEnd` yields the larger of the text length and the width |
| Text.PadStartContents | timeclock-fronted/src/components/TimeEntryList.jsx:45 | `padStart` puts copies of the filler before the whole text: the text is the suffix and every character before it is the filler |
| Text.PadEndContents | timeclock-fronted/src/components/TimeEntryList.jsx:236 | `padEnd` puts copies of the filler after the whole text: the text is the prefix and every character after it is the filler |
| Text.PaddedValue | timeclock-fronted/src/components/TimeEntryList.jsx:44-46 | zero-padding keeps the value: the padded text reads back as the number |
| Text.PaddedInjective | timeclock-fronted/src/components/TimeEntryList.jsx:44-46 | equal zero-padded texts mean equal numbers |
| Text.Pad | timeclock-fronted/src/components/TimeEntryList.jsx:44-46 | `pad(num)` is digits, at least two, exactly two when num < 100 |
| Text.PadValue | timeclock-fronted/src/components/TimeEntryList.jsx:44-46 | `pad(num)` reads back as num |
| Text.TwoDigitText | timeclock-fronted/src/components/TimeEntryList.jsx:44-46 | every two-digit text is `pad` of its value |
| Text.Split | timeclock-fronted/src/components/TimeEntryList.jsx:24 | `split` gives at least one field, at least two when the separator occurs |
| Text.SplitFieldChars | timeclock-fronted/src/components/TimeEntryList.jsx:234 | the fields hold only characters of the text, never the separator |
| Text.SplitFields | timeclock-fronted/src/components/TimeEntryList.jsx:24 | `a:b` followed by nothing or `:…` splits with fields a and b first |
| Text.SplitJoin | timeclock-fronted/src/components/TimeEntryList.jsx:258 | joining the fields of a split with the separator gives the text back |
| Text.JoinTwo | timeclock-fronted/src/components/TimeEntryList.jsx:258 | joining two fields puts exactly one separator between them |
| Text.Trim | timeclock-fronted/src/components/TimeEntryList.jsx:229 | `trim` leaves no white space at either end |
| Text.TrimKeeps | timeclock-fronted/src/components/TimeEntryList.jsx:229 | text with no white space at its ends is unchanged by `trim` |
| Text.TrimStartDrops | timeclock-fronted/src/components/TimeEntryList.jsx:229 | the front part that is removed is white space only, and the rest of the text is kept as it is |
| Text.TrimEndDrops | timeclock-fronted/src/components/TimeEntryList.jsx:229 | the back part that is removed is white space only, and the rest of the text is kept as it is |
| Text.TrimContents | timeclock-fronted/src/components/TimeEntryList.jsx:229 | `trim` keeps one contiguous slice of the text, and everything before and after that slice is white space |
| Text.KeepDigits | timeclock-fronted/src/components/TimeEntryList.jsx:241 | `replace(/\D/g, '')` yields only digits, no longer than the input, and keeps all-digit text as it is |
| Text.KeepDigitsCount | timeclock-fronted/src/components/TimeEntryList.jsx:241 | each digit occurs in the result exactly as often as in the input |
| Text.KeepDigitsAppend | timeclock-fronted/src/components/TimeEntryList.jsx:241 | removing the non-digits keeps the order: a + b gives the digits of a followed by those of b |
| Clock.PaddedClock | timeclock-fronted/src/components/TimeEntryList.jsx:24 | padded hours, ':' and padded minutes, optionally followed by seconds, read back as those numbers |
| Clock.ParseTime | timeclock-fronted/src/components/TimeEntryList.jsx:21-26 | null exactly for absent text, otherwise a non-negative minute count |
| Clock.ParsePadded | timeclock-fronted/src/components/TimeEntryList.jsx:21-26 | "HH:MM" or "HH:MM:SS" reads as 60 * HH + MM |
| Clock.MinutesToHHMM | timeclock-fronted/src/components/TimeEntryList.jsx:28-34 | the printed text has at least four characters |
| Clock.HHMMShape | timeclock-fronted/src/components/TimeEntryList.jsx:28-34 | a leading '-' exactly for negative counts, and a ':' before the last two characters |
| Clock.HHMMParts | timeclock-fronted/src/components/TimeEntryList.jsx:28-34 | the text is the sign, then hours \|m\| div 60 unpadded, ':', and minutes \|m\| mod 60 in two digits |
| Clock.ParseHHMM | timeclock-fronted/src/components/TimeEntryList.jsx:28-34 | an independent reader of signed H:MM text (the partner of MinutesToHHMM) |
| Clock.UnsignedAtSlice | timeclock-fronted/src/components/TimeEntryList.jsx:28-34 | the reader's in-place test and value agree with the same test on the suffix |
| Clock.UnsignedPrinted | timeclock-fronted/src/components/TimeEntryList.jsx:31-33 | the unsigned part of the text reads back as the count |
| Clock.UnsignedRead | timeclock-fronted/src/components/TimeEntryList.jsx:31-33 | every text the reader accepts is the printed text of its value |
| Clock.PrintedReadsBack | timeclock-fronted/src/components/TimeEntryList.jsx:28-34 | every printed count reads back as itself |
| Clock.NegativeReadsBack | timeclock-fronted/src/components/TimeEntryList.jsx:29-30 | negative counts read back through the '-' |
| Clock.NonNegativeReadsBack | timeclock-fronted/src/components/TimeEntryList.jsx:31-33 | non-negative counts read back without a sign |
| Clock.ReadIsPrinted | timeclock-fronted/src/components/TimeEntryList.jsx:28-34 | a text that reads as x is exactly the text printed for x |
| Clock.HHMMRoundTrip | timeclock-fronted/src/components/TimeEntryList.jsx:28-34 | s is printed for x if and only if s reads back as x |
| Clock.HHMMNegation | timeclock-fronted/src/components/TimeEntryList.jsx:28-34 | negating a positive count adds exactly the leading '-' |
| Clock.HHMMZero | timeclock-fronted/src/components/TimeEntryList.jsx:28-34 | zero prints as "0:00", with no sign |
| Clock.Hour24 | timeclock-fronted/src/components/TimeEntryList.jsx:39-40 | PM adds 12 to every hour except 12, and AM turns 12 into 0 and keeps every other hour. This holds for every hour, so "13" PM gives 25 as the code computes. Any other meridiem leaves the hour alone |
| Clock.To24Hour | timeclock-fronted/src/components/TimeEntryList.jsx:36-42 | '' for no time. Otherwise the text has exactly two `:`-fields of at least two digits, holding the adjusted hour and the same minutes. When the adjusted hour and the minutes are both below 100 it is "HH:MM" with two-digit fields |
| Clock.To24HourPadsFields | timeclock-fronted/src/components/TimeEntryList.jsx:41 | unpadded typed fields are padded: "9:3" AM is stored as "09:03" |
| Clock.To24HourDigits | timeclock-fronted/src/components/TimeEntryList.jsx:36-42 | a typed "HH:MM" becomes the padded adjusted hour, ':' and the typed minutes |
| Clock.To24HourExamples | timeclock-fronted/src/components/TimeEntryList.jsx:36-42 | 12:30 AM is "00:30", 12:30 PM stays "12:30", 01:15 PM is "13:15" |
| Clock.FormatDisplayTime | timeclock-fronted/src/components/TimeEntryList.jsx:254-265 | no time displays as '' |
| Clock.Display24DropsSeconds | timeclock-fronted/src/components/TimeEntryList.jsx:256-259 | in 24-hour mode a stored "HH:MM:SS" or "HH:MM" shows as "HH:MM" |
| Clock.Display12OfHour24 | timeclock-fronted/src/components/TimeEntryList.jsx:261-264 | the 12-hour rendering of a converted hour shows the typed 1..12 hour and the meridiem |
| Clock.DisplayHour | timeclock-fronted/src/components/TimeEntryList.jsx:263 | `hours % 12 \|\| 12` lies in 1..12 and agrees with the hour modulo 12; it is the hour that `Clock.Display12` prints |
| Clock.Display12Meridiem | timeclock-fronted/src/components/TimeEntryList.jsx:262-264 | the 12-hour text ends in " PM" exactly when the hour is at least 12, and in " AM" otherwise |
| Clock.DisplayRoundTrip | timeclock-fronted/src/components/TimeEntryList.jsx:36-42 | converting a 12-hour entry to 24 hours and displaying it in 12-hour mode returns the hour as typed without a leading zero, the minutes and the meridiem |
| Clock.FormatTimeInput | timeclock-fronted/src/components/TimeEntryList.jsx:227-252 | blank stays '', text with a colon becomes two characters, ':' and two characters; otherwise '', up to two digits, or that shape |
| Clock.ColonTime | timeclock-fronted/src/components/TimeEntryList.jsx:232-238 | the colon branch always has length 5 with ':' in the middle |
| Clock.ColonTimeFields | timeclock-fronted/src/components/TimeEntryList.jsx:232-238 | the hour is the left-zero-padded first field cut to its last two characters; the minutes are the right-zero-padded second field cut to its first two |
| Clock.DigitTime | timeclock-fronted/src/components/TimeEntryList.jsx:240-251 | no digits give '', one or two digits are kept unchanged, the rest take the HH:MM shape |
| Clock.DigitTimeFields | timeclock-fronted/src/components/TimeEntryList.jsx:245-250 | three or four digits split after the second with the rest padded with '0'; more are cut to the first four |
| Clock.DigitBranch | timeclock-fronted/src/components/TimeEntryList.jsx:240-251 | all-digit input goes through the digit branch only |
| Clock.ColonSingles | timeclock-fronted/src/components/TimeEntryList.jsx:232-238 | "h:m" becomes "0h:m0" |
| Clock.ColonExample | timeclock-fronted/src/components/TimeEntryList.jsx:232-238 | "9:3" becomes "09:30" |
| Clock.ThreeDigits | timeclock-fronted/src/components/TimeEntryList.jsx:245-248 | three digits abc become "ab:c0" |
| Clock.DigitExamples | timeclock-fronted/src/components/TimeEntryList.jsx:240-251 | "9" stays "9" and "930" becomes "93:00" |
| Clock.DigitPathIgnoresNonDigits | timeclock-fronted/src/components/TimeEntryList.jsx:240-242 | trimmed text without a colon is reshaped from its digits alone, and text with no digits gives '' |
| Clock.ShortInputNotClockText | timeclock-fronted/src/components/TimeEntryList.jsx:243-244 | a typed "9" is kept as "9", and that text has no minutes field for `to24Hour` to read |
| Clock.FormatTimeInputIdempotent | timeclock-fronted/src/components/TimeEntryList.jsx:227-252 | for text without white space, reshaping twice equals reshaping once |
| Clock.ReshapedAgain | timeclock-fronted/src/components/TimeEntryList.jsx:227-238 | text already in the two-colon-two shape is unchanged |
| Summary.EntryMapOf | timeclock-fronted/src/components/TimeEntryList.jsx:158-161 | well-formed entries give a map of well-formed entries |
| Summary.EntryMapKeys | timeclock-fronted/src/components/TimeEntryList.jsx:158-161 | the map's keys are exactly the entries' dates |
| Summary.EntryMapLastWins | timeclock-fronted/src/components/TimeEntryList.jsx:158-161 | for a repeated date the map holds the last entry with that date |
| Summary.BuildEntryMap | timeclock-fronted/src/components/TimeEntryList.jsx:158-161 | the `forEach` loop builds exactly that map |
| Summary.WorkedMinutes | timeclock-fronted/src/components/TimeEntryList.jsx:169-175 | a day contributes end - start exactly when both times are present and the end is later; otherwise 0 |
| Summary.RawMinutes | timeclock-fronted/src/components/TimeEntryList.jsx:404 | with both times present the raw minutes are end minus start, unclamped; otherwise 0 |
| Summary.RawCellReadsBack | timeclock-fronted/src/components/TimeEntryList.jsx:404 | the Raw line reads back as end minus start when both times are present, and as 0 otherwise |
| Summary.EntryMinutes | timeclock-fronted/src/components/TimeEntryList.jsx:169-175 | the tests in the loop body compute that contribution |
| Summary.WorkedIsClampedRaw | timeclock-fronted/src/components/TimeEntryList.jsx:404 | the contribution is the raw difference floored at 0, and the Raw cell prints the unclamped difference |
| Summary.ReversedTimesExample | timeclock-fronted/src/components/TimeEntryList.jsx:404 | 17:00 to 08:00 contributes nothing and shows Raw "-9:00" |
| Summary.RangeSplit | timeclock-fronted/src/components/TimeEntryList.jsx:200-214 | totals over adjacent runs of days add up |
| Summary.RangeCoversDay | timeclock-fronted/src/components/TimeEntryList.jsx:200-214 | a total is at least the contribution of each day in it |
| Summary.SumDays | timeclock-fronted/src/components/TimeEntryList.jsx:200-214 | the summing loop computes the clamped total of the days lo..hi-1 |
| Summary.AddDay | timeclock-fronted/src/components/TimeEntryList.jsx:167-175 | one step of the loop adds the contribution of day i |
| Summary.WeekSummary | timeclock-fronted/src/components/TimeEntryList.jsx:164-181 | getWeekSummary gives the texts of the week's clamped total against the weekly standard, taken in minutes |
| Summary.TotalsReadBack | timeclock-fronted/src/components/TimeEntryList.jsx:177-180 | worked, remaining and differential read back as total, target - total and total - target |
| Summary.TotalsOf | timeclock-fronted/src/components/TimeEntryList.jsx:180 | the raw texts repeat the worked and differential texts |
| Summary.TotalsSigns | timeclock-fronted/src/components/TimeEntryList.jsx:178-179 | remaining and differential differ only by the leading '-', and both are "0:00" on target |
| Summary.TotalsExamples | timeclock-fronted/src/components/TimeEntryList.jsx:177-179 | 540 minutes print "9:00"; 45 hours against 40 leave "-5:00" remaining and "5:00" differential |
| Summary.PayPeriodIsSumOfWeeks | timeclock-fronted/src/components/TimeEntryList.jsx:183-214 | the pay-period total is the sum of the week totals |
| Summary.BuildWeekRow | timeclock-fronted/src/components/TimeEntryList.jsx:184-197 | a week row is its label and the week's texts |
| Summary.WeekLabelOfPeriod | timeclock-fronted/src/components/TimeEntryList.jsx:187-194 | the row of week w is labelled with the first and last day of that week |
| Summary.PayPeriodLabelOfPeriod | timeclock-fronted/src/components/TimeEntryList.jsx:219 | the pay-period row is labelled with the first and last day in view |
| Summary.BuildPayPeriodRow | timeclock-fronted/src/components/TimeEntryList.jsx:200-225 | the pay-period row is the total of every day in view against weekCount times the weekly standard in minutes |
| Summary.SummaryRows | timeclock-fronted/src/components/TimeEntryList.jsx:183-225 | one row per week in order, then exactly one pay-period row; the standalone remaining text is that row's remaining hours |
| Reset.Selected | timeclock-fronted/src/components/TimeEntryList.jsx:139 | the filter never yields more entries than it is given |
| Reset.Kept | timeclock-fronted/src/components/TimeEntryList.jsx:139 | the entries a reset leaves in place are never more than the entries; KeptCount says which they are |
| Reset.ConfirmResetSelection | timeclock-fronted/src/components/TimeEntryList.jsx:135-139 | the delete list is the entries filtered by the visible days' dates |
| Reset.SelectedCount | timeclock-fronted/src/components/TimeEntryList.jsx:139 | each entry is selected as often as it occurs when its date is in view, and never otherwise |
| Reset.KeptCount | timeclock-fronted/src/components/TimeEntryList.jsx:139 | the entries left in place are exactly those dated outside the view |
| Reset.SelectedMembership | timeclock-fronted/src/components/TimeEntryList.jsx:139 | an entry is selected if and only if it is listed and its date is in view |
| Reset.ResetPartition | timeclock-fronted/src/components/TimeEntryList.jsx:139 | selected and kept entries together are all the entries, each once |
| Reset.SelectedAppend | timeclock-fronted/src/components/TimeEntryList.jsx:139 | the filter keeps order: selecting from a + b is selecting from a, then from b |
| Reset.ResetSelectsVisibleDays | timeclock-fronted/src/components/TimeEntryList.jsx:135-139 | an entry dated on day d is deleted if and only if d is in view |
| View.PeriodView.Days | timeclock-fronted/src/components/TimeEntryList.jsx:148-155 | the grid shows 7 * weekCount days |
| View.PeriodView.constructor | timeclock-fronted/src/components/TimeEntryList.jsx:55-63 | the view starts with two weeks from the Sunday of today's week, which includes today, and nothing selected |
| View.PeriodView.HandlePrev | timeclock-fronted/src/components/TimeEntryList.jsx:117-122 | the previous period ends the day before the old one began; the selection is cleared |
| View.PeriodView.HandleNext | timeclock-fronted/src/components/TimeEntryList.jsx:123-128 | the next period begins the day after the old one ended; the selection is cleared |
| View.PeriodView.JumpToDate | timeclock-fronted/src/components/TimeEntryList.jsx:344-351 | after picking a day, taken as a local day, the view starts at its week and shows it; the selection is cleared |
| View.PeriodView.SetWeekCount | timeclock-fronted/src/components/TimeEntryList.jsx:291-297 | the period length changes, the anchor stays, and one grid is a prefix of the other |
| View.PeriodView.SelectCell | timeclock-fronted/src/components/TimeEntryList.jsx:397 | clicking the i-th cell selects the printed date of the i-th day |
| View.PeriodView.CellWeekday | timeclock-fronted/src/components/TimeEntryList.jsx:391 | cell i falls on weekday i mod 7, and the weekend cells are exactly positions 0 and 6 of each week |
| View.PeriodView.CloseForm | timeclock-fronted/src/components/TimeEntryList.jsx:454 | closing the form clears the selection and keeps the view |
| View.PickedLocalDay | timeclock-fronted/src/components/TimeEntryList.jsx:348 | midnight UTC of the picked day falls on the day before in a zone west of UTC, and on that day itself otherwise |
| View.PickerAnchor | timeclock-fronted/src/components/TimeEntryList.jsx:348 | the anchor the handler computes is a Sunday |
| View.PickerMissesSunday | timeclock-fronted/src/components/TimeEntryList.jsx:348 | west of UTC, a picked Sunday anchors the view seven days early, and a one-week view does not show it |
| View.PickerEastOfUtc | timeclock-fronted/src/components/TimeEntryList.jsx:348 | at or east of UTC, the anchor is the week start of the picked day |

## Left out

- Network calls are not modelled: fetching entries, posting a new entry, and the concurrent deletions of a reset (`Promise.all` of `api.delete`). A reset is modelled as the selection of what to delete. `Reset.Kept` states what the re-fetched list should then hold.
- React plumbing, the click-outside listener, the picker's `showPicker`/`setTimeout`, JSX and CSS are not modelled.
- The component's `entries` list, the standard hours per week and the 24-hour setting are parameters of the functions that use them, not fields of `View.PeriodView`. They are set by network results or plain assignments.
- The "today" of the California time zone, `toLocaleDateString` labels and the UTC shift that `toISOString` may add are not modelled. A day is its day number, and `formatDate` prints that day's calendar date.
- Day numbers are unbounded integers. The model does not capture the range limit of JavaScript `Date` (±10^8 days).
- `Number` on non-numeric text gives NaN. `parseTime`, `to24Hour` and `formatDisplayTime` are modelled only for text whose first two `:`-fields are ASCII digits (`ClockText`), or for absent text. `formatTimeInput` never parses and is modelled on all input, with the limit on characters below.
- Text without a colon is not modelled as a time. There `minutes` is `undefined`, so `to24Hour` (line 41) and the 12-hour `formatDisplayTime` (line 264) throw a TypeError on `minutes.toString()`. A typed "9" is kept by `formatTimeInput` and reaches `to24Hour` when the form is submitted (line 416). `Clock.ShortInputNotClockText` states that such input falls outside `ClockText`.
- JavaScript strings are UTF-16 code units, and a Dafny `string` is a sequence of characters. The model does not capture text outside the Basic Multilingual Plane, where `padStart`, `slice(-2)` and `length` count surrogate halves. For example, `formatTimeInput("😀:5")` gives `"😀:50"` in the component (an emoji is two code units), and `Clock.FormatTimeInput` pads that hour field with a '0'. `slice(-2)` can also split a surrogate pair.
- The standard hours per week is taken as whole minutes (`standardWeekMinutes`, the setting times 60). A setting such as 37.5 hours is its 2250 minutes. A setting whose product with 60 is not a whole number, and the double arithmetic of a fractional total, are not modelled.
- Minute counts and the standard are exact integers. JavaScript numbers are doubles, so beyond 2^53 the subtractions at lines 178 and 216 lose their low digits, and `toString` (line 33) prints 10^21 and above in exponent form. The settings input's `max="168"` does not stop such a value from reaching the state (line 306). The model's texts differ from the component's there, and that range is not modelled.
- View.PeriodView.JumpToDate: takes the picked day as a local day and shows it. The handler as written reads the picker's text as midnight UTC, which is modelled by `View.PickerAnchor` and reported under Findings.
- Clock.FormatDisplayTime: its contract states only the absent-time case. The two display modes are stated by Display24DropsSeconds, Display12OfHour24 and DisplayRoundTrip for padded stored times.
- Clock.MinutesToHHMM: its own contract states only a length bound. Its meaning is stated by HHMMShape, HHMMParts and the reader ParseHHMM with HHMMRoundTrip.
- The `days.length >= 7` and `days.length >= 14` guards of `summaryRows` always hold for one or two weeks in view. `Summary.SummaryRows` is specified for those two lengths only.
- The names in `DAYS` and the `HOURS`/`MINUTES` option lists are not modelled. The weekday index into `DAYS` is `View.PeriodView.CellWeekday`.

## Findings

| source | as written | input that shows it | evidently intended | confidence | as-written member | corrected member |
|---|---|---|---|---|---|---|
| timeclock-fronted/src/components/TimeEntryList.jsx:348 | `getWeekStart(new Date(e.target.value))` reads the picked "YYYY-MM-DD" as midnight UTC and takes its weekday in local time | in Los Angeles (UTC-7 in June), picking Sunday 2024-06-02 anchors the view at Sunday 2024-05-26; with one week shown, June 2 is not in view | the view starts at the Sunday of the picked day's week and shows that day | not executed | View.PickerMissesSunday | View.PeriodView.JumpToDate |

## Notes

- For `formatTimeInput("930")` the code takes the first two digits as the hour and yields `"93:00"`, not `"09:30"`. The model follows the code (`Clock.DigitExamples`).
- Both summing loops of the component (`getWeekSummary` and the pay-period total) apply the same test to each day. The model shares that test as `Summary.EntryMinutes` inside one loop, `Summary.SumDays`, which is run over 7 days from a start index or over every day in view.
- `trim` removes the ECMAScript white space and line terminators listed in `Text.IsJsSpace` (sections 12.2 and 12.3 of ECMA-262).
