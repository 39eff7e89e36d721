/** Decimal text and the small string operations of JavaScript that the
    time-entry component relies on: Number.prototype.toString on
    non-negative integers, padStart/padEnd with a one-character filler,
    String.prototype.split on one character, trim, and \D removal. */
module Text {

  predicate IsDigit(c: char) {
    '0' <= c <= '9'
  }

  predicate AllDigits(s: string) {
    forall i :: 0 <= i < |s| ==> IsDigit(s[i])
  }

  function DigitChar(d: nat): (c: char)
    requires d < 10
    ensures IsDigit(c) && c as int - '0' as int == d
  {
    ('0' as int + d) as char
  }

  function DigitValue(c: char): (d: nat)
    requires IsDigit(c)
    ensures d < 10 && DigitChar(d) == c
  {
    c as int - '0' as int
  }

  /** The value of a string of decimal digits, as JavaScript's Number
      reads it ('' reads as 0). */
  function DigitsValue(s: string): (v: nat)
    requires AllDigits(s)
    ensures s == [] ==> v == 0
    ensures v < Pow10(|s|)
  {
    if s == [] then 0
    else
      var t := s[..|s| - 1];
      assert DigitsValue(t) * 10 <= (Pow10(|t|) - 1) * 10;
      DigitsValue(t) * 10 + DigitValue(s[|s| - 1])
  }

  /** Number.prototype.toString() of a non-negative integer: no leading zero. */
  function NatToString(n: nat): (s: string)
    ensures AllDigits(s) && 1 <= |s|
    ensures n < 10 <==> |s| == 1
  {
    if n < 10 then [DigitChar(n)] else NatToString(n / 10) + [DigitChar(n % 10)]
  }

  /** The decimal text of a number is canonical: it has no leading zero. */
  lemma {:induction false} NatToStringCanonical(n: nat)
    ensures Canonical(NatToString(n))
  {
    if n >= 10 {
      NatToStringCanonical(n / 10);
      assert NatToString(n)[0] == NatToString(n / 10)[0];
    }
  }

  lemma {:induction false} NatToStringValue(n: nat)
    ensures DigitsValue(NatToString(n)) == n
  {
    if n >= 10 {
      NatToStringValue(n / 10);
      var s := NatToString(n);
      assert s[..|s| - 1] == NatToString(n / 10);
    }
  }

  lemma {:induction false} NatToStringShort(n: nat, w: nat)
    requires n < Pow10(w)
    ensures |NatToString(n)| <= if w == 0 then 1 else w
  {
    if n >= 10 {
      NatToStringShort(n / 10, w - 1);
    }
  }

  function Pow10(w: nat): (p: nat)
    ensures p >= 1
  {
    if w == 0 then 1 else 10 * Pow10(w - 1)
  }

  function Repeat(c: char, k: nat): (s: string)
    ensures |s| == k && forall i :: 0 <= i < k ==> s[i] == c
  {
    if k == 0 then [] else [c] + Repeat(c, k - 1)
  }

  /** String.prototype.padStart(width, [c]). */
  function PadStart(s: string, width: nat, c: char): (r: string)
    ensures |r| == if |s| >= width then |s| else width
  {
    if |s| >= width then s else Repeat(c, width - |s|) + s
  }

  /** String.prototype.padEnd(width, [c]). */
  function PadEnd(s: string, width: nat, c: char): (r: string)
    ensures |r| == if |s| >= width then |s| else width
  {
    if |s| >= width then s else s + Repeat(c, width - |s|)
  }

  /** padStart keeps the text as the suffix and fills the front with c. */
  lemma PadStartContents(s: string, width: nat, c: char)
    ensures var r := PadStart(s, width, c);
            (forall i :: 0 <= i < |r| - |s| ==> r[i] == c)
            && (forall i :: 0 <= i < |s| ==> r[|r| - |s| + i] == s[i])
  {
  }

  /** padEnd keeps the text as the prefix and fills the back with c. */
  lemma PadEndContents(s: string, width: nat, c: char)
    ensures var r := PadEnd(s, width, c);
            (forall i :: 0 <= i < |s| ==> r[i] == s[i])
            && (forall i :: |s| <= i < |r| ==> r[i] == c)
  {
  }

  lemma {:induction false} LeadingZerosValue(k: nat, s: string)
    requires AllDigits(s)
    ensures AllDigits(Repeat('0', k) + s)
    ensures DigitsValue(Repeat('0', k) + s) == DigitsValue(s)
  {
    if s == [] {
      ZerosValue(k);
      assert Repeat('0', k) + s == Repeat('0', k);
    } else {
      var t := Repeat('0', k) + s;
      LeadingZerosValue(k, s[..|s| - 1]);
      assert t[..|t| - 1] == Repeat('0', k) + s[..|s| - 1];
    }
  }

  lemma {:induction false} ZerosValue(k: nat)
    ensures AllDigits(Repeat('0', k)) && DigitsValue(Repeat('0', k)) == 0
  {
    if k > 0 {
      ZerosValue(k - 1);
      var z := Repeat('0', k);
      assert z[..k - 1] == Repeat('0', k - 1);
    }
  }

  /** Zero-padding a number's decimal text keeps its value, so it can be read back. */
  lemma PaddedValue(n: nat, width: nat)
    ensures AllDigits(PadStart(NatToString(n), width, '0'))
    ensures DigitsValue(PadStart(NatToString(n), width, '0')) == n
  {
    var s := NatToString(n);
    NatToStringValue(n);
    if |s| < width {
      LeadingZerosValue(width - |s|, s);
    }
  }

  /** Zero-padded decimal text is injective: equal texts mean equal numbers. */
  lemma PaddedInjective(a: nat, b: nat, width: nat)
    requires PadStart(NatToString(a), width, '0') == PadStart(NatToString(b), width, '0')
    ensures a == b
  {
    PaddedValue(a, width);
    PaddedValue(b, width);
  }

  /** Digit text as Number.prototype.toString prints it: non-empty, no leading zero. */
  predicate Canonical(s: string) {
    s != [] && AllDigits(s) && (|s| > 1 ==> s[0] != '0')
  }

  lemma {:induction false} LeadingNonzeroPositive(s: string)
    requires s != [] && AllDigits(s) && s[0] != '0'
    ensures DigitsValue(s) >= 1
  {
    if |s| > 1 {
      LeadingNonzeroPositive(s[..|s| - 1]);
    }
  }

  /** Canonical digit text is exactly the text of its own value. */
  lemma {:induction false} CanonicalText(s: string)
    requires Canonical(s)
    ensures NatToString(DigitsValue(s)) == s
  {
    if |s| > 1 {
      var t := s[..|s| - 1];
      LeadingNonzeroPositive(t);
      CanonicalText(t);
      assert t + [s[|s| - 1]] == s;
    }
  }

  /** Two-digit text is the zero-padded text of its value. */
  lemma TwoDigitText(s: string)
    requires |s| == 2 && AllDigits(s)
    ensures DigitsValue(s) < 100
    ensures PadStart(NatToString(DigitsValue(s)), 2, '0') == s
  {
    if s[0] == '0' {
      assert s[..1] == "0";
      assert DigitsValue(s[..1]) == 0;
      assert NatToString(DigitsValue(s)) == [s[1]];
      assert Repeat('0', 1) + [s[1]] == s;
    } else {
      CanonicalText(s);
    }
  }

  /** `pad(num)`: the decimal text of num, zero-padded to two characters. */
  function Pad(num: nat): (r: string)
    ensures AllDigits(r)
    ensures num < 100 <==> |r| == 2
    ensures |r| >= 2
  {
    PaddedValue(num, 2);
    PadWidth(num);
    PadStart(NatToString(num), 2, '0')
  }

  /** Reading the padded text back gives the number. */
  lemma PadValue(num: nat)
    ensures DigitsValue(Pad(num)) == num
  {
    PaddedValue(num, 2);
  }

  lemma PadWidth(num: nat)
    ensures num < 100 <==> |PadStart(NatToString(num), 2, '0')| == 2
  {
    if num >= 100 {
      assert num / 10 >= 10;
      assert |NatToString(num)| == |NatToString(num / 10)| + 1;
    } else {
      assert Pow10(2) == 100;
      NatToStringShort(num, 2);
    }
  }

  /** String.prototype.split(sep) on a one-character separator: the fields
      between separators, always at least one. */
  function Split(s: string, sep: char): (parts: seq<string>)
    ensures |parts| >= 1
    ensures sep in s ==> |parts| >= 2
  {
    if s == [] then [[]]
    else
      var rest := Split(s[1..], sep);
      if s[0] == sep then [[]] + rest else [[s[0]] + rest[0]] + rest[1..]
  }

  lemma {:induction false} SplitNoSeparator(s: string, sep: char)
    requires sep !in s
    ensures Split(s, sep) == [s]
  {
    if s != [] {
      SplitNoSeparator(s[1..], sep);
      assert [s[0]] + s[1..] == s;
    }
  }

  /** A field of a split holds only characters of the string, never the separator. */
  lemma {:induction false} SplitFieldChars(s: string, sep: char, i: nat)
    requires i < |Split(s, sep)|
    ensures forall c :: c in Split(s, sep)[i] ==> c in s && c != sep
  {
    if s != [] {
      var rest := Split(s[1..], sep);
      if s[0] == sep {
        if i > 0 { SplitFieldChars(s[1..], sep, i - 1); }
      } else if i == 0 {
        SplitFieldChars(s[1..], sep, 0);
      } else {
        SplitFieldChars(s[1..], sep, i);
      }
    }
  }

  lemma {:induction false} SplitAt(a: string, sep: char, b: string)
    requires sep !in a
    ensures Split(a + [sep] + b, sep) == [a] + Split(b, sep)
  {
    if a != [] {
      SplitAt(a[1..], sep, b);
      assert (a + [sep] + b)[1..] == a[1..] + [sep] + b;
      assert [a[0]] + a[1..] == a;
    } else {
      assert (a + [sep] + b)[1..] == b;
    }
  }

  /** The first two fields of `a sep b rest`, when a and b hold no separator
      and rest is empty or opens a further field. */
  lemma SplitFields(a: string, b: string, rest: string, sep: char)
    requires sep !in a && sep !in b
    requires rest == [] || rest[0] == sep
    ensures |Split(a + [sep] + b + rest, sep)| >= 2
    ensures Split(a + [sep] + b + rest, sep)[0] == a
    ensures Split(a + [sep] + b + rest, sep)[1] == b
    ensures rest == [] ==> Split(a + [sep] + b, sep) == [a, b]
  {
    SplitAt(a, sep, b + rest);
    assert a + [sep] + b + rest == a + [sep] + (b + rest);
    if rest == [] {
      assert b + rest == b;
      assert a + [sep] + b + rest == a + [sep] + b;
      SplitNoSeparator(b, sep);
    } else {
      SplitAt(b, sep, rest[1..]);
      assert b + rest == b + [sep] + rest[1..];
    }
  }

  lemma DigitsHaveNoSeparator(s: string, sep: char)
    requires AllDigits(s) && !IsDigit(sep)
    ensures sep !in s
  {
    assert forall i :: 0 <= i < |s| ==> IsDigit(s[i]);
  }

  /** Array.prototype.join(sep) of a sequence of fields. */
  function Join(parts: seq<string>, sep: char): string {
    if parts == [] then [] else if |parts| == 1 then parts[0]
    else parts[0] + [sep] + Join(parts[1..], sep)
  }

  /** Splitting and joining on the same separator gives the string back. */
  lemma {:induction false} SplitJoin(s: string, sep: char)
    ensures Join(Split(s, sep), sep) == s
  {
    if s != [] {
      var rest := Split(s[1..], sep);
      SplitJoin(s[1..], sep);
      if s[0] == sep {
        assert Split(s, sep) == [[]] + rest;
        JoinCons([], rest, sep);
        assert [] + [sep] + s[1..] == s;
      } else {
        assert Split(s, sep) == [[s[0]] + rest[0]] + rest[1..];
        JoinHead(s[0], rest, sep);
        assert [s[0]] + s[1..] == s;
      }
    }
  }

  lemma JoinCons(a: string, parts: seq<string>, sep: char)
    requires parts != []
    ensures Join([a] + parts, sep) == a + [sep] + Join(parts, sep)
  {
    assert ([a] + parts)[1..] == parts;
  }

  /** Gluing a character onto the first field glues it onto the joined text. */
  lemma JoinHead(c: char, parts: seq<string>, sep: char)
    requires parts != []
    ensures Join([[c] + parts[0]] + parts[1..], sep) == [c] + Join(parts, sep)
  {
    var q := [[c] + parts[0]] + parts[1..];
    if |parts| > 1 {
      assert q[1..] == parts[1..];
      assert Join(q, sep) == [c] + parts[0] + [sep] + Join(parts[1..], sep);
    }
  }

  /** The characters String.prototype.trim removes: WhiteSpace and
      LineTerminator of ECMAScript (sections 12.2 and 12.3 of ECMA-262). */
  const JsSpaces: set<char> :=
    {'\t', '\n', '\U{000B}', '\U{000C}', '\r', ' ', '\U{00A0}', '\U{1680}',
     '\U{2000}', '\U{2001}', '\U{2002}', '\U{2003}', '\U{2004}', '\U{2005}',
     '\U{2006}', '\U{2007}', '\U{2008}', '\U{2009}', '\U{200A}',
     '\U{2028}', '\U{2029}', '\U{202F}', '\U{205F}', '\U{3000}', '\U{FEFF}'}

  predicate IsJsSpace(c: char) {
    c in JsSpaces
  }

  function TrimStart(s: string): (r: string)
    ensures r == [] || !IsJsSpace(r[0])
    ensures |r| <= |s| && (r != [] ==> r[|r| - 1] == s[|s| - 1])
  {
    if s != [] && IsJsSpace(s[0]) then TrimStart(s[1..]) else s
  }

  function TrimEnd(s: string): (r: string)
    ensures r == [] || !IsJsSpace(r[|r| - 1])
    ensures |r| <= |s|
  {
    if s != [] && IsJsSpace(s[|s| - 1]) then TrimEnd(s[..|s| - 1]) else s
  }

  /** The characters of s from index i up to j are white space. */
  predicate BlankBetween(s: string, i: int, j: int)
    requires 0 <= i <= j <= |s|
  {
    forall k :: i <= k < j ==> IsJsSpace(s[k])
  }

  /** trimStart drops a run of white space from the front and nothing else. */
  lemma {:induction false} TrimStartDrops(s: string)
    ensures exists i :: 0 <= i <= |s| && TrimStart(s) == s[i..] && BlankBetween(s, 0, i)
  {
    if s != [] && IsJsSpace(s[0]) {
      var u := s[1..];
      TrimStartDrops(u);
      var i :| 0 <= i <= |u| && TrimStart(u) == u[i..] && BlankBetween(u, 0, i);
      assert u[i..] == s[i + 1..];
      forall k | 0 < k < i + 1 ensures IsJsSpace(s[k]) {
        assert s[k] == u[k - 1];
      }
      assert BlankBetween(s, 0, i + 1);
    } else {
      assert s[0..] == s;
    }
  }

  /** trimEnd drops a run of white space from the back and nothing else. */
  lemma {:induction false} TrimEndDrops(s: string)
    ensures exists j :: 0 <= j <= |s| && TrimEnd(s) == s[..j] && BlankBetween(s, j, |s|)
  {
    if s != [] && IsJsSpace(s[|s| - 1]) {
      var t := s[..|s| - 1];
      TrimEndDrops(t);
      var j :| 0 <= j <= |t| && TrimEnd(t) == t[..j] && BlankBetween(t, j, |t|);
      assert t[..j] == s[..j];
      forall k | j <= k < |t| ensures IsJsSpace(s[k]) {
        assert s[k] == t[k];
      }
      assert BlankBetween(s, j, |s|);
    } else {
      assert s[..|s|] == s;
    }
  }

  /** String.prototype.trim. */
  function Trim(s: string): (r: string)
    ensures r == [] || (!IsJsSpace(r[0]) && !IsJsSpace(r[|r| - 1]))
  {
    TrimStart(TrimEnd(s))
  }

  /** trim keeps a contiguous part of the text and removes only white space
      before and after it. */
  lemma {:induction false} TrimContents(s: string)
    ensures exists i, j :: 0 <= i <= j <= |s| && Trim(s) == s[i..j]
                           && BlankBetween(s, 0, i) && BlankBetween(s, j, |s|)
  {
    TrimEndDrops(s);
    var j :| 0 <= j <= |s| && TrimEnd(s) == s[..j] && BlankBetween(s, j, |s|);
    TrimStartDrops(s[..j]);
    var i :| 0 <= i <= j && TrimStart(s[..j]) == s[..j][i..] && BlankBetween(s[..j], 0, i);
    assert Trim(s) == s[i..j] by {
      assert s[..j][i..] == s[i..j];
    }
    assert BlankBetween(s, 0, i) by {
      BlankPrefix(s, j, i);
    }
  }

  /** White space at the front of a prefix is white space at the front of the text. */
  lemma BlankPrefix(s: string, j: int, i: int)
    requires 0 <= i <= j <= |s| && BlankBetween(s[..j], 0, i)
    ensures BlankBetween(s, 0, i)
  {
    forall k | 0 <= k < i ensures IsJsSpace(s[k]) {
      assert s[k] == s[..j][k];
    }
  }

  /** Text that trim leaves alone: nothing to strip at either end. */
  lemma TrimKeeps(s: string)
    requires s == [] || (!IsJsSpace(s[0]) && !IsJsSpace(s[|s| - 1]))
    ensures Trim(s) == s
  {
  }

  /** s.replace(/\D/g, ''): keeps the ASCII digits, in order. */
  function KeepDigits(s: string): (r: string)
    ensures AllDigits(r) && |r| <= |s|
    ensures AllDigits(s) ==> r == s
  {
    if s == [] then []
    else if IsDigit(s[0]) then [s[0]] + KeepDigits(s[1..])
    else KeepDigits(s[1..])
  }

  /** Every digit survives with its multiplicity; AllDigits above says that
      nothing else does. */
  lemma {:induction false} KeepDigitsCount(s: string, c: char)
    requires IsDigit(c)
    ensures multiset(KeepDigits(s))[c] == multiset(s)[c]
  {
    if s != [] {
      KeepDigitsCount(s[1..], c);
      assert s == [s[0]] + s[1..];
    }
  }

  /** The digits keep their order: stripping two runs of text one after the
      other is stripping their concatenation. */
  lemma {:induction false} KeepDigitsAppend(a: string, b: string)
    ensures KeepDigits(a + b) == KeepDigits(a) + KeepDigits(b)
  {
    if a == [] {
      assert a + b == b;
    } else {
      var h := if IsDigit(a[0]) then [a[0]] else [];
      calc {
        KeepDigits(a + b);
        { assert a + b == [a[0]] + (a[1..] + b); KeepDigitsCons(a[0], a[1..] + b); }
        h + KeepDigits(a[1..] + b);
        { KeepDigitsAppend(a[1..], b); }
        h + (KeepDigits(a[1..]) + KeepDigits(b));
        (h + KeepDigits(a[1..])) + KeepDigits(b);
        { assert a == [a[0]] + a[1..]; KeepDigitsCons(a[0], a[1..]); }
        KeepDigits(a) + KeepDigits(b);
      }
    }
  }

  /** One step of the stripping: a leading character is kept exactly when it is a digit. */
  lemma {:induction false} KeepDigitsCons(c: char, s: string)
    ensures KeepDigits([c] + s) == (if IsDigit(c) then [c] else []) + KeepDigits(s)
  {
    assert ([c] + s)[0] == c && ([c] + s)[1..] == s;
  }

  /** Joining two fields puts one separator between them. */
  lemma JoinTwo(a: string, b: string, sep: char)
    ensures Join([a, b], sep) == a + [sep] + b
  {
    assert [a, b][1..] == [b];
  }
}
