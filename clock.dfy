/** The wall-clock helpers of the time-entry list: reading "HH:MM" into
    minutes, printing signed minute counts as [-]H:MM, converting a 12-hour
    time to the stored 24-hour form, rendering a stored time for display and
    reshaping free-typed text when a time field loses focus. */
module Clock {
  import opened Text
  import opened Wrappers

  /** Text that `str.split(':').map(Number)` reads as two numbers: at least two
      fields, the first two made of ASCII digits (Number('') is 0). Stored
      times ("08:00:00"), form times ("08:00") and "9:3" all qualify. */
  predicate ClockText(s: string) {
    var p := Split(s, ':');
    |p| >= 2 && AllDigits(p[0]) && AllDigits(p[1])
  }

  /** The hour field of clock text, as Number reads it. */
  function HourOf(s: string): nat
    requires ClockText(s)
  {
    DigitsValue(Split(s, ':')[0])
  }

  /** The minute field of clock text, as Number reads it. */
  function MinuteOf(s: string): nat
    requires ClockText(s)
  {
    DigitsValue(Split(s, ':')[1])
  }

  /** Two padded numbers joined by a colon are clock text holding those numbers. */
  lemma PaddedClock(h: nat, m: nat, rest: string)
    requires rest == [] || rest[0] == ':'
    ensures ClockText(Pad(h) + ":" + Pad(m) + rest)
    ensures HourOf(Pad(h) + ":" + Pad(m) + rest) == h
    ensures MinuteOf(Pad(h) + ":" + Pad(m) + rest) == m
    ensures rest == [] ==> Split(Pad(h) + ":" + Pad(m), ':') == [Pad(h), Pad(m)]
  {
    DigitsHaveNoSeparator(Pad(h), ':');
    DigitsHaveNoSeparator(Pad(m), ':');
    SplitFields(Pad(h), Pad(m), rest, ':');
    PadValue(h);
    PadValue(m);
  }

  /** `parseTime(str)`: minutes since midnight, or None (null) for empty input. */
  function ParseTime(s: string): (r: Option<int>)
    requires s == [] || ClockText(s)
    ensures r.None? <==> s == []
    ensures r.Some? ==> r.value >= 0
  {
    if s == [] then None else Some(HourOf(s) * 60 + MinuteOf(s))
  }

  /** Reading back a time written as padded hours and minutes gives its minute of the day. */
  lemma ParsePadded(h: nat, m: nat, rest: string)
    requires rest == [] || rest[0] == ':'
    ensures ClockText(Pad(h) + ":" + Pad(m) + rest)
    ensures ParseTime(Pad(h) + ":" + Pad(m) + rest) == Some(60 * h + m)
  {
    PaddedClock(h, m, rest);
  }

  /** `minutesToHHMM(mins)`: sign only when negative, unpadded hours, two-digit minutes. */
  function MinutesToHHMM(mins: int): (r: string)
    ensures |r| >= 4
  {
    var a := if mins < 0 then -mins else mins;
    var sign := if mins < 0 then "-" else "";
    sign + NatToString(a / 60) + ":" + Pad(a % 60)
  }

  /** The text of a non-negative minute count, as MinutesToHHMM prints it after
      the sign: canonical hours, a colon, then two digits below 60. */
  predicate UnsignedHHMM(t: string) {
    |t| >= 4 && t[|t| - 3] == ':' && Canonical(t[..|t| - 3])
    && AllDigits(t[|t| - 2..]) && DigitsValue(t[|t| - 2..]) < 60
  }

  function UnsignedValue(t: string): nat
    requires UnsignedHHMM(t)
  {
    60 * DigitsValue(t[..|t| - 3]) + DigitsValue(t[|t| - 2..])
  }

  /** The characters s[lo..hi] are all decimal digits. */
  predicate DigitsBetween(s: string, lo: int, hi: int) {
    0 <= lo <= hi <= |s| && forall i :: lo <= i < hi ==> IsDigit(s[i])
  }

  /** The number the digits s[lo..hi] spell, read in place. */
  function DigitsAt(s: string, lo: int, hi: int): nat
    requires DigitsBetween(s, lo, hi)
    decreases hi - lo
  {
    if hi == lo then 0 else DigitsAt(s, lo, hi - 1) * 10 + DigitValue(s[hi - 1])
  }

  /** From position lo on, s holds canonical hours, a colon and two digits
      below 60: UnsignedHHMM read in place. */
  predicate UnsignedAt(s: string, lo: nat) {
    lo + 4 <= |s| && s[|s| - 3] == ':'
    && DigitsBetween(s, lo, |s| - 3) && (|s| - 3 - lo > 1 ==> s[lo] != '0')
    && DigitsBetween(s, |s| - 2, |s|) && DigitsAt(s, |s| - 2, |s|) < 60
  }

  function ValueAt(s: string, lo: nat): nat
    requires UnsignedAt(s, lo)
  {
    60 * DigitsAt(s, lo, |s| - 3) + DigitsAt(s, |s| - 2, |s|)
  }

  /** An independent reader of signed H:MM text: an optional '-' before a
      positive amount, canonical hours, two-digit minutes below 60. */
  function ParseHHMM(s: string): Option<int> {
    if s != [] && s[0] == '-' then
      if UnsignedAt(s, 1) && ValueAt(s, 1) > 0 then Some(0 - ValueAt(s, 1)) else None
    else if UnsignedAt(s, 0) then Some(ValueAt(s, 0))
    else None
  }

  lemma {:induction false} DigitsAtSlice(s: string, lo: int, hi: int)
    requires DigitsBetween(s, lo, hi)
    ensures AllDigits(s[lo..hi]) && DigitsAt(s, lo, hi) == DigitsValue(s[lo..hi])
  {
    if hi > lo {
      DigitsAtSlice(s, lo, hi - 1);
      assert s[lo..hi][..hi - 1 - lo] == s[lo..hi - 1];
    }
  }

  /** Reading in place from lo is reading the suffix s[lo..]. */
  lemma UnsignedAtSlice(s: string, lo: nat)
    requires lo <= |s|
    ensures UnsignedAt(s, lo) <==> UnsignedHHMM(s[lo..])
    ensures UnsignedAt(s, lo) ==> ValueAt(s, lo) == UnsignedValue(s[lo..])
  {
    var t := s[lo..];
    if |t| >= 4 {
      var h, m := t[..|t| - 3], t[|t| - 2..];
      assert h == s[lo..|s| - 3] && m == s[|s| - 2..|s|];
      if DigitsBetween(s, lo, |s| - 3) {
        DigitsAtSlice(s, lo, |s| - 3);
      } else {
        assert !AllDigits(h);
      }
      if DigitsBetween(s, |s| - 2, |s|) {
        DigitsAtSlice(s, |s| - 2, |s|);
      } else {
        assert !AllDigits(m);
      }
    }
  }

  /** Hours and minutes as MinutesToHHMM prints them after the sign. */
  function UnsignedText(a: nat): (u: string)
    ensures |u| >= 4 && u[0] != '-'
  {
    NatToString(a / 60) + ":" + Pad(a % 60)
  }

  lemma UnsignedPrinted(a: nat)
    ensures UnsignedHHMM(UnsignedText(a)) && UnsignedValue(UnsignedText(a)) == a
  {
    var h, m := NatToString(a / 60), Pad(a % 60);
    var u := UnsignedText(a);
    assert u[..|u| - 3] == h && u[|u| - 2..] == m by {
      assert u == h + ":" + m && |m| == 2;
    }
    assert Canonical(h) && DigitsValue(h) == a / 60 by {
      NatToStringValue(a / 60);
      NatToStringCanonical(a / 60);
    }
    assert DigitsValue(m) == a % 60 by {
      PadValue(a % 60);
    }
  }

  /** A minus sign exactly for negative counts, and a colon before the last two characters. */
  lemma HHMMShape(x: int)
    ensures var r := MinutesToHHMM(x);
            (r[0] == '-' <==> x < 0) && r[|r| - 3] == ':'
  {
  }

  /** The sign and the unsigned text: MinutesToHHMM spelled out. */
  lemma HHMMParts(x: int)
    ensures x >= 0 ==> MinutesToHHMM(x) == UnsignedText(x)
    ensures x < 0 ==> MinutesToHHMM(x) == "-" + UnsignedText(-x)
  {
  }

  /** The reader gives back every count the printer prints. */
  lemma {:induction false} PrintedReadsBack(x: int)
    ensures ParseHHMM(MinutesToHHMM(x)) == Some(x)
  {
    if x < 0 {
      NegativeReadsBack(x);
    } else {
      NonNegativeReadsBack(x);
    }
  }

  lemma NegativeReadsBack(x: int)
    requires x < 0
    ensures ParseHHMM(MinutesToHHMM(x)) == Some(x)
  {
    HHMMParts(x);
    NegativeParsed(-x);
  }

  lemma NegativeParsed(a: nat)
    requires a > 0
    ensures ParseHHMM("-" + UnsignedText(a)) == Some(0 - a)
  {
    UnsignedPrinted(a);
    ParseNegative(UnsignedText(a));
  }

  lemma NonNegativeReadsBack(x: int)
    requires x >= 0
    ensures ParseHHMM(MinutesToHHMM(x)) == Some(x)
  {
    HHMMParts(x);
    NonNegativeParsed(x);
  }

  lemma NonNegativeParsed(a: nat)
    ensures ParseHHMM(UnsignedText(a)) == Some(a)
  {
    UnsignedPrinted(a);
    ParseUnsigned(UnsignedText(a));
  }

  lemma ParseNegative(u: string)
    requires UnsignedHHMM(u) && UnsignedValue(u) > 0
    ensures ParseHHMM("-" + u) == Some(0 - UnsignedValue(u))
  {
    UnsignedAtSlice("-" + u, 1);
    assert ("-" + u)[1..] == u;
  }

  lemma ParseUnsigned(u: string)
    requires UnsignedHHMM(u) && u[0] != '-'
    ensures ParseHHMM(u) == Some(UnsignedValue(u))
  {
    UnsignedAtSlice(u, 0);
    assert u[0..] == u;
  }

  lemma UnsignedRead(t: string)
    requires UnsignedHHMM(t)
    ensures t == UnsignedText(UnsignedValue(t))
  {
    var h, m := t[..|t| - 3], t[|t| - 2..];
    CanonicalText(h);
    TwoDigitText(m);
    var v := UnsignedValue(t);
    assert v / 60 == DigitsValue(h) && v % 60 == DigitsValue(m);
    assert t == h + ":" + m;
  }

  lemma ReadIsPrinted(s: string, x: int)
    requires ParseHHMM(s) == Some(x)
    ensures s == MinutesToHHMM(x)
  {
    HHMMParts(x);
    if s != [] && s[0] == '-' {
      var t := s[1..];
      UnsignedAtSlice(s, 1);
      UnsignedRead(t);
      assert x + UnsignedValue(t) == 0;
      assert s == "-" + t;
    } else {
      UnsignedAtSlice(s, 0);
      assert s[0..] == s;
      UnsignedRead(s);
    }
  }

  /** MinutesToHHMM and ParseHHMM are inverse: a string is printed for x exactly
      when it reads back as x. */
  lemma HHMMRoundTrip(x: int, s: string)
    ensures ParseHHMM(s) == Some(x) <==> s == MinutesToHHMM(x)
  {
    PrintedReadsBack(x);
    if ParseHHMM(s) == Some(x) {
      ReadIsPrinted(s, x);
    }
  }

  /** Negating a non-zero minute count adds or removes exactly the leading '-'. */
  lemma HHMMNegation(x: int, y: int)
    requires x > 0 && y == -x
    ensures MinutesToHHMM(y) == "-" + MinutesToHHMM(x)
  {
  }

  /** No minutes print as "0:00", without a sign. */
  lemma HHMMZero()
    ensures MinutesToHHMM(0) == "0:00"
  {
    assert Pad(0) == "00";
  }

  /** The hour adjustment of `to24Hour`: PM adds 12 except to 12, and 12 AM becomes 0. */
  function Hour24(hours: nat, ampm: string): (r: nat)
    ensures 1 <= hours <= 12 && (ampm == "AM" || ampm == "PM") ==>
              r == hours % 12 + (if ampm == "PM" then 12 else 0)
    ensures ampm == "PM" ==> r == (if hours == 12 then 12 else hours + 12)
    ensures ampm == "AM" ==> r == (if hours == 12 then 0 else hours)
    ensures ampm != "AM" && ampm != "PM" ==> r == hours
    ensures r <= hours + 12
  {
    var hours := if ampm == "PM" && hours != 12 then hours + 12 else hours;
    if ampm == "AM" && hours == 12 then 0 else hours
  }

  /** `to24Hour(time, ampm)`: the stored 24-hour form of a 12-hour time. */
  function To24Hour(time: string, ampm: string): (r: string)
    requires time == [] || ClockText(time)
    ensures time == [] ==> r == []
    ensures time != [] ==> ClockText(r) && MinuteOf(r) == MinuteOf(time)
                           && HourOf(r) == Hour24(HourOf(time), ampm)
    ensures time != [] ==> |Split(r, ':')| == 2
                           && |Split(r, ':')[0]| >= 2 && |Split(r, ':')[1]| >= 2
    ensures time != [] && Hour24(HourOf(time), ampm) < 100 && MinuteOf(time) < 100 ==>
              |r| == 5 && r[2] == ':' && AllDigits(r[..2]) && AllDigits(r[3..])
  {
    if time == [] then []
    else
      var hours := Hour24(HourOf(time), ampm);
      var minutes := MinuteOf(time);
      PaddedClock(hours, minutes, []);
      var r := Pad(hours) + ":" + Pad(minutes);
      assert r + [] == r;
      assert |Pad(hours)| == 2 ==> r[2] == ':' && r[..2] == Pad(hours) && r[3..] == Pad(minutes);
      r
  }

  /** Unpadded fields are padded: "9:3" AM is stored as "09:03". */
  lemma To24HourPadsFields()
    ensures ClockText("9:3") && To24Hour("9:3", "AM") == "09:03"
  {
    assert "9:3" == "9" + [':'] + "3" + [];
    SplitFields("9", "3", [], ':');
    assert DigitsValue("9") == 9 && DigitsValue("3") == 3;
    TwoDigitText("09");
    TwoDigitText("03");
    assert DigitsValue("09") == 9 && DigitsValue("03") == 3;
    FourAroundColon('0', '9', '0', '3');
  }

  /** `formatDisplayTime(time)` with the 24-hour setting `use24`. */
  function FormatDisplayTime(time: string, use24: bool): (r: string)
    requires time == [] || ClockText(time)
    ensures time == [] ==> r == []
  {
    if time == [] then []
    else if use24 then
      var p := Split(time, ':');
      Join(p[..2], ':')
    else Display12(HourOf(time), MinuteOf(time))
  }

  /** The 12-hour rendering of a stored time: hour of 12 as `h % 12 || 12`,
      unpadded, two-digit minutes, then the meridiem. */
  function Display12(hours: nat, minutes: nat): string {
    var period := if hours >= 12 then "PM" else "AM";
    NatToString(DisplayHour(hours)) + ":" + Pad(minutes) + " " + period
  }

  /** `hours % 12 || 12`: the hour on a 12-hour clock face. */
  function DisplayHour(hours: nat): (h: nat)
    ensures 1 <= h <= 12 && h % 12 == hours % 12
  {
    if hours % 12 == 0 then 12 else hours % 12
  }

  /** The 12-hour rendering ends in a space and the meridiem: PM from hour 12 on. */
  lemma Display12Meridiem(hours: nat, minutes: nat)
    ensures var r := Display12(hours, minutes);
            |r| >= 3 && r[|r| - 3..] == " " + (if hours >= 12 then "PM" else "AM")
  {
    var r := Display12(hours, minutes);
    var period := if hours >= 12 then "PM" else "AM";
    var front := NatToString(DisplayHour(hours)) + ":" + Pad(minutes);
    assert r == front + (" " + period);
  }

  /** The 24-hour display drops the seconds of a stored time and keeps hours and minutes. */
  lemma Display24DropsSeconds(h: nat, m: nat, rest: string)
    requires rest == [] || rest[0] == ':'
    ensures ClockText(Pad(h) + ":" + Pad(m) + rest)
    ensures FormatDisplayTime(Pad(h) + ":" + Pad(m) + rest, true) == Pad(h) + ":" + Pad(m)
  {
    PaddedClock(h, m, rest);
    DigitsHaveNoSeparator(Pad(h), ':');
    DigitsHaveNoSeparator(Pad(m), ':');
    SplitFields(Pad(h), Pad(m), rest, ':');
    var p := Split(Pad(h) + ":" + Pad(m) + rest, ':');
    assert p[..2] == [Pad(h), Pad(m)];
    assert p[..2][1..] == [Pad(m)];
    assert Join(p[..2], ':') == Pad(h) + [':'] + Join([Pad(m)], ':');
  }

  /** The 12-hour rendering of a converted hour shows the hour of 12 as typed. */
  lemma Display12OfHour24(h: nat, m: nat, ampm: string)
    requires 1 <= h <= 12
    requires ampm == "AM" || ampm == "PM"
    ensures Display12(Hour24(h, ampm), m) == NatToString(h) + ":" + Pad(m) + " " + ampm
  {
    var h24 := Hour24(h, ampm);
    assert (h24 >= 12) == (ampm == "PM");
    assert DisplayHour(h24) == h;
  }

  /** Converting a 12-hour entry to 24 hours and displaying it in 12-hour mode
      gives back the hour as typed (without leading zero), the minutes and the meridiem. */
  lemma DisplayRoundTrip(h: nat, m: nat, ampm: string)
    requires 1 <= h <= 12 && m < 60
    requires ampm == "AM" || ampm == "PM"
    ensures ClockText(Pad(h) + ":" + Pad(m))
    ensures FormatDisplayTime(To24Hour(Pad(h) + ":" + Pad(m), ampm), false)
            == NatToString(h) + ":" + Pad(m) + " " + ampm
  {
    PaddedClock(h, m, []);
    assert Pad(h) + ":" + Pad(m) + [] == Pad(h) + ":" + Pad(m);
    var t := To24Hour(Pad(h) + ":" + Pad(m), ampm);
    assert HourOf(t) == Hour24(h, ampm) && MinuteOf(t) == m;
    assert FormatDisplayTime(t, false) == Display12(Hour24(h, ampm), m);
    Display12OfHour24(h, m, ampm);
  }

  /** Two digits, a colon and two digits are clock text holding the two numbers. */
  lemma ClockOfDigits(a: char, b: char, c: char, d: char)
    requires IsDigit(a) && IsDigit(b) && IsDigit(c) && IsDigit(d)
    ensures ClockText([a, b, ':', c, d])
    ensures HourOf([a, b, ':', c, d]) == DigitsValue([a, b])
    ensures MinuteOf([a, b, ':', c, d]) == DigitsValue([c, d])
  {
    DigitsHaveNoSeparator([a, b], ':');
    DigitsHaveNoSeparator([c, d], ':');
    SplitFields([a, b], [c, d], [], ':');
    FourAroundColon(a, b, c, d);
  }

  lemma FourAroundColon(a: char, b: char, c: char, d: char)
    ensures [a, b] + [':'] + [c, d] + [] == [a, b, ':', c, d]
    ensures [a, b] + ":" + [c, d] == [a, b, ':', c, d]
  {
  }

  /** A typed "HH:MM" converts to the padded adjusted hour and the minutes as typed. */
  lemma To24HourDigits(a: char, b: char, c: char, d: char, ampm: string)
    requires IsDigit(a) && IsDigit(b) && IsDigit(c) && IsDigit(d)
    ensures ClockText([a, b, ':', c, d])
    ensures To24Hour([a, b, ':', c, d], ampm) == Pad(Hour24(DigitsValue([a, b]), ampm)) + ":" + [c, d]
  {
    ClockOfDigits(a, b, c, d);
    TwoDigitText([c, d]);
  }

  /** The conversion examples: 12:30 AM is 00:30, 12:30 PM stays 12:30, 1:15 PM is 13:15. */
  lemma To24HourExamples()
    ensures ClockText("12:30") && ClockText("01:15")
    ensures To24Hour("12:30", "AM") == "00:30"
    ensures To24Hour("12:30", "PM") == "12:30"
    ensures To24Hour("01:15", "PM") == "13:15"
  {
    MidnightExample();
    NoonExample();
    AfternoonExample();
  }

  lemma MidnightExample()
    ensures ClockText("12:30") && To24Hour("12:30", "AM") == "00:30"
  {
    To24HourDigits('1', '2', '3', '0', "AM");
    TwoDigitText("00");
    FourAroundColon('0', '0', '3', '0');
  }

  lemma NoonExample()
    ensures ClockText("12:30") && To24Hour("12:30", "PM") == "12:30"
  {
    To24HourDigits('1', '2', '3', '0', "PM");
    TwoDigitText("12");
    FourAroundColon('1', '2', '3', '0');
  }

  lemma AfternoonExample()
    ensures ClockText("01:15") && To24Hour("01:15", "PM") == "13:15"
  {
    To24HourDigits('0', '1', '1', '5', "PM");
    TwoDigitText("13");
    FourAroundColon('1', '3', '1', '5');
  }

  /** `formatTimeInput(value)`: the on-blur reshaping of a typed time. It never
      rejects: empty input stays empty, input with a colon is forced into two
      characters, a colon and two characters, anything else is reduced to its digits. */
  function FormatTimeInput(value: string): (r: string)
    ensures Trim(value) == [] ==> r == []
    ensures ':' in Trim(value) ==> |r| == 5 && r[2] == ':'
    ensures ':' !in Trim(value) ==> r == [] || (AllDigits(r) && |r| <= 2) || (|r| == 5 && r[2] == ':')
  {
    var v := Trim(value);
    if v == [] then []
    else if ':' in v then ColonTime(v)
    else DigitTime(KeepDigits(v))
  }

  /** The colon branch: the hour field left-padded with '0' and cut to its last
      two characters, the minute field right-padded with '0' and cut to its first two. */
  function ColonTime(v: string): (r: string)
    requires ':' in v
    ensures |r| == 5 && r[2] == ':'
  {
    var p := Split(v, ':');
    var h := PadStart(p[0], 2, '0');
    h[|h| - 2..] + ":" + PadEnd(p[1], 2, '0')[..2]
  }

  /** The hour field is left-padded with '0' and cut to its last two characters,
      the minute field right-padded with '0' and cut to its first two. */
  lemma ColonTimeFields(v: string)
    requires ':' in v
    ensures var r, h := ColonTime(v), Split(v, ':')[0];
            r[..2] == if |h| >= 2 then h[|h| - 2..] else Repeat('0', 2 - |h|) + h
    ensures var r, m := ColonTime(v), Split(v, ':')[1];
            r[3..] == if |m| >= 2 then m[..2] else m + Repeat('0', 2 - |m|)
  {
    var r := ColonTime(v);
    var p := Split(v, ':');
    var h := PadStart(p[0], 2, '0');
    var m := PadEnd(p[1], 2, '0')[..2];
    assert r == h[|h| - 2..] + ":" + m;
    assert r[..2] == h[|h| - 2..] && r[3..] == m;
  }

  /** The digit branch: up to two digits are kept as they are, three or four are
      split after the second with the rest padded to two, more are cut to four. */
  function DigitTime(digits: string): (r: string)
    requires AllDigits(digits)
    ensures digits == [] ==> r == []
    ensures 1 <= |digits| <= 2 ==> r == digits
    ensures r == [] || (AllDigits(r) && |r| <= 2) || (|r| == 5 && r[2] == ':')
  {
    if digits == [] then []
    else if |digits| <= 2 then digits
    else if |digits| <= 4 then digits[..2] + ":" + PadEnd(digits[2..], 2, '0')
    else digits[..2] + ":" + digits[2..4]
  }

  /** Three or four digits are split after the second, the rest padded with '0';
      more than four are cut to the first four. */
  lemma DigitTimeFields(digits: string)
    requires AllDigits(digits) && |digits| >= 3
    ensures |digits| <= 4 ==> DigitTime(digits) == digits[..2] + ":" + digits[2..] + Repeat('0', 4 - |digits|)
    ensures |digits| > 4 ==> DigitTime(digits) == digits[..2] + ":" + digits[2..4]
  {
  }

  /** A one-digit hour and a one-digit minute around a colon: the hour gets a
      leading '0' and the minute a trailing '0'. */
  lemma ColonSingles(h: char, m: char)
    requires IsDigit(h) && IsDigit(m)
    ensures FormatTimeInput([h, ':', m]) == ['0', h, ':', m, '0']
  {
    var v := [h, ':', m];
    assert !IsJsSpace(v[0]) && !IsJsSpace(v[2]);
    TrimKeeps(v);
    assert v[1] == ':';
    SplitFields([h], [m], [], ':');
    assert [h] + [':'] + [m] + [] == v;
    assert PadStart([h], 2, '0') == ['0', h];
    assert PadEnd([m], 2, '0') == [m, '0'];
    FiveChars('0', h, ':', m, '0');
  }

  /** Typed-time examples: "9:3" becomes "09:30", "9" stays "9", and "930"
      becomes "93:00" because the first two digits are taken as the hour. */
  lemma ColonExample()
    ensures FormatTimeInput("9:3") == "09:30"
  {
    ColonSingles('9', '3');
  }

  lemma DigitExamples()
    ensures FormatTimeInput("9") == "9"
    ensures FormatTimeInput("930") == "93:00"
  {
    OneDigitExample();
    ThreeDigitExample();
  }

  /** Typed text made only of digits is reshaped by the digit branch alone. */
  lemma DigitBranch(v: string)
    requires v != [] && AllDigits(v)
    ensures FormatTimeInput(v) == DigitTime(v)
  {
    assert !IsJsSpace(v[0]) && !IsJsSpace(v[|v| - 1]);
    TrimKeeps(v);
    DigitsHaveNoSeparator(v, ':');
  }

  /** Outside the colon branch only the digits of the trimmed text matter:
      the reshaping is that of the digits alone, and '' when there are none. */
  lemma DigitPathIgnoresNonDigits(value: string)
    requires ':' !in Trim(value)
    ensures KeepDigits(Trim(value)) == [] ==> FormatTimeInput(value) == []
    ensures KeepDigits(Trim(value)) != [] ==>
              FormatTimeInput(value) == FormatTimeInput(KeepDigits(Trim(value)))
  {
    var d := KeepDigits(Trim(value));
    if d != [] {
      DigitBranch(d);
    }
  }

  /** A reshaped one-digit hour is not text that to24Hour can split into two
      numbers: the minutes are missing. */
  lemma ShortInputNotClockText()
    ensures FormatTimeInput("9") == "9" && !ClockText("9")
  {
    OneDigitExample();
    SplitNoSeparator("9", ':');
  }

  /** One or two typed digits are kept as they are. */
  lemma ShortDigits(v: string)
    requires 1 <= |v| <= 2 && AllDigits(v)
    ensures FormatTimeInput(v) == v
  {
    DigitBranch(v);
  }

  /** Three typed digits: the first two are the hour, the third the tens of the minutes. */
  lemma ThreeDigits(a: char, b: char, c: char)
    requires IsDigit(a) && IsDigit(b) && IsDigit(c)
    ensures FormatTimeInput([a, b, c]) == [a, b, ':', c, '0']
  {
    var v := [a, b, c];
    DigitBranch(v);
    DigitTimeFields(v);
    var r := DigitTime(v);
    assert r == v[..2] + ":" + v[2..] + Repeat('0', 1);
    assert v[..2] == [a, b] && v[2..] == [c];
    assert Repeat('0', 1) == ['0'];
    assert r == [a, b] + [':'] + [c] + ['0'];
    FiveChars(a, b, ':', c, '0');
  }

  lemma FiveChars(a: char, b: char, c: char, d: char, e: char)
    ensures [a, b] + [c] + [d] + [e] == [a, b, c, d, e]
  {
  }

  lemma OneDigitExample()
    ensures FormatTimeInput("9") == "9"
  {
    ShortDigits("9");
  }

  lemma ThreeDigitExample()
    ensures FormatTimeInput("930") == "93:00"
  {
    ThreeDigits('9', '3', '0');
  }

  /** Reshaping a time that holds no white space twice gives the same text as once. */
  lemma FormatTimeInputIdempotent(value: string)
    requires forall i :: 0 <= i < |value| ==> !IsJsSpace(value[i])
    ensures FormatTimeInput(FormatTimeInput(value)) == FormatTimeInput(value)
  {
    TrimKeeps(value);
    if value == [] {
    } else if ':' in value {
      ColonTimeStable(value);
    } else {
      DigitTimeStable(KeepDigits(value));
    }
  }

  lemma ColonTimeStable(v: string)
    requires ':' in v
    requires forall i :: 0 <= i < |v| ==> !IsJsSpace(v[i])
    ensures FormatTimeInput(ColonTime(v)) == ColonTime(v)
  {
    var r := ColonTime(v);
    var h, m := r[..2], r[3..];
    assert r == h + [':'] + m;
    ColonTimeHour(v);
    ColonTimeMinute(v);
    ReshapedAgain(h, m);
  }

  /** The two hour characters of the reshaped text come from the hour field
      or are padding. */
  lemma ColonTimeHour(v: string)
    requires ':' in v
    requires forall i :: 0 <= i < |v| ==> !IsJsSpace(v[i])
    ensures var h := ColonTime(v)[..2]; ':' !in h && !IsJsSpace(h[0])
  {
    ColonTimeFields(v);
    SplitFieldChars(v, ':', 0);
    PaddedHourClean(Split(v, ':')[0], v);
  }

  /** The two minute characters come from the minute field or are padding. */
  lemma ColonTimeMinute(v: string)
    requires ':' in v
    requires forall i :: 0 <= i < |v| ==> !IsJsSpace(v[i])
    ensures var m := ColonTime(v)[3..]; ':' !in m && !IsJsSpace(m[1])
  {
    ColonTimeFields(v);
    SplitFieldChars(v, ':', 1);
    PaddedMinuteClean(Split(v, ':')[1], v);
  }

  lemma PaddedHourClean(f: string, v: string)
    requires forall c :: c in f ==> c in v && c != ':'
    requires forall i :: 0 <= i < |v| ==> !IsJsSpace(v[i])
    ensures var h := if |f| >= 2 then f[|f| - 2..] else Repeat('0', 2 - |f|) + f;
            ':' !in h && !IsJsSpace(h[0])
  {
    var h := if |f| >= 2 then f[|f| - 2..] else Repeat('0', 2 - |f|) + f;
    if |f| >= 2 {
      assert h[0] == f[|f| - 2] && h[1] == f[|f| - 1];
    } else if |f| == 1 {
      assert h == ['0', f[0]];
    } else {
      assert h == ['0', '0'];
    }
    PaddingIsClean(f, h, v);
  }

  lemma PaddedMinuteClean(f: string, v: string)
    requires forall c :: c in f ==> c in v && c != ':'
    requires forall i :: 0 <= i < |v| ==> !IsJsSpace(v[i])
    ensures var m := if |f| >= 2 then f[..2] else f + Repeat('0', 2 - |f|);
            ':' !in m && !IsJsSpace(m[1])
  {
    var m := if |f| >= 2 then f[..2] else f + Repeat('0', 2 - |f|);
    if |f| >= 2 {
      assert m[0] == f[0] && m[1] == f[1];
    } else if |f| == 1 {
      assert m == [f[0], '0'];
    } else {
      assert m == ['0', '0'];
    }
    PaddingIsClean(f, m, v);
  }

  /** Two characters taken from a field of v, or padded with '0', are neither
      the separator nor white space. */
  lemma PaddingIsClean(f: string, x: string, v: string)
    requires |x| == 2 && forall k :: 0 <= k < 2 ==> x[k] in f || x[k] == '0'
    requires forall c :: c in f ==> c in v && c != ':'
    requires forall i :: 0 <= i < |v| ==> !IsJsSpace(v[i])
    ensures ':' !in x && !IsJsSpace(x[0]) && !IsJsSpace(x[1])
  {
    assert x == [x[0], x[1]];
    assert !IsJsSpace('0');
  }

  lemma DigitTimeStable(d: string)
    requires AllDigits(d)
    ensures FormatTimeInput(DigitTime(d)) == DigitTime(d)
  {
    if |d| >= 3 {
      LongDigitsStable(d);
    } else if d != [] {
      ShortDigits(d);
    }
  }

  lemma LongDigitsStable(d: string)
    requires AllDigits(d) && |d| >= 3
    ensures FormatTimeInput(DigitTime(d)) == DigitTime(d)
  {
    var h := d[..2];
    var m := if |d| <= 4 then d[2..] + Repeat('0', 4 - |d|) else d[2..4];
    DigitTimeFields(d);
    assert DigitTime(d) == h + [':'] + m;
    assert AllDigits(h);
    assert AllDigits(m) by {
      if |d| <= 4 {
        assert forall i :: 0 <= i < |m| ==> m[i] == (if i < |d| - 2 then d[i + 2] else '0');
      }
    }
    DigitsReshapedAgain(h, m);
  }

  /** Two digits, a colon and two digits come out of the reshaping unchanged. */
  lemma DigitsReshapedAgain(h: string, m: string)
    requires |h| == 2 && |m| == 2 && AllDigits(h) && AllDigits(m)
    ensures FormatTimeInput(h + [':'] + m) == h + [':'] + m
  {
    DigitsHaveNoSeparator(h, ':');
    DigitsHaveNoSeparator(m, ':');
    assert IsDigit(h[0]) && IsDigit(m[1]);
    ReshapedAgain(h, m);
  }

  /** Text already in the two-colon-two shape comes out of the reshaping unchanged. */
  lemma ReshapedAgain(h: string, m: string)
    requires |h| == 2 && |m| == 2 && ':' !in h && ':' !in m
    requires !IsJsSpace(h[0]) && !IsJsSpace(m[1])
    ensures FormatTimeInput(h + [':'] + m) == h + [':'] + m
  {
    var r := h + [':'] + m;
    TrimKeeps(r);
    assert r[2] == ':';
    SplitFields(h, m, [], ':');
    assert h + [':'] + m + [] == r;
  }
}
