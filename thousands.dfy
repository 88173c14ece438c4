/** Python's `"{:,}".format(n)` for an integer `n`: decimal digits with a
    comma between every group of three, counted from the right. */
module Thousands {
  import opened Basics
  import opened Text

  predicate AllDigits(s: string) {
    forall i :: 0 <= i < |s| ==> IsDigitAscii(s[i])
  }

  function DigitChar(d: nat): (c: char)
    requires d < 10
    ensures IsDigitAscii(c)
  {
    ('0' as int + d) as char
  }

  function DigitValue(c: char): (d: nat)
    requires IsDigitAscii(c)
    ensures d < 10
  {
    c as int - '0' as int
  }

  /** `str(n)` for `n >= 0`: the shortest decimal numeral of `n`. */
  function Decimal(n: nat): (s: string)
    ensures 1 <= |s|
    ensures AllDigits(s)
    ensures s[0] == '0' ==> n == 0
  {
    if n < 10 then [DigitChar(n)] else Decimal(n / 10) + [DigitChar(n % 10)]
  }

  /** The number a string of decimal digits denotes. */
  function DigitsValue(s: string): nat
    requires AllDigits(s)
  {
    if s == [] then 0 else DigitsValue(s[..|s| - 1]) * 10 + DigitValue(s[|s| - 1])
  }

  /** Reading back the numeral gives the number. */
  lemma {:induction false} DecimalRoundTrip(n: nat)
    ensures DigitsValue(Decimal(n)) == n
  {
    var s := Decimal(n);
    if n >= 10 {
      DecimalRoundTrip(n / 10);
      assert s[..|s| - 1] == Decimal(n / 10);
    }
  }

  /** Commas exactly where the number of characters from there to the end is
      a multiple of four; digits everywhere else. */
  predicate CommaLayout(r: string) {
    && |r| % 4 != 0
    && (forall i :: 0 <= i < |r| ==> (r[i] == ',' <==> (|r| - i) % 4 == 0))
    && (forall i :: 0 <= i < |r| && r[i] != ',' ==> IsDigitAscii(r[i]))
  }

  /** Appending a comma and three digits keeps the layout. */
  lemma CommaLayoutStep(g: string, tail: string)
    requires CommaLayout(g) && |tail| == 3 && AllDigits(tail)
    ensures CommaLayout(g + "," + tail)
  {
    var r := g + "," + tail;
    assert |r| == |g| + 4;
    forall i | 0 <= i < |r|
      ensures (r[i] == ',' <==> (|r| - i) % 4 == 0)
      ensures r[i] != ',' ==> IsDigitAscii(r[i])
    {
      if i < |g| {
        assert r[i] == g[i];
        assert (|r| - i) % 4 == (|g| - i) % 4;
      } else if i > |g| {
        assert r[i] == tail[i - |g| - 1];
      }
    }
  }

  /** Comma grouping of a digit string. */
  function Group(d: string): (r: string)
    requires 1 <= |d| && AllDigits(d)
    ensures |r| == |d| + (|d| - 1) / 3
    ensures CommaLayout(r)
    decreases |d|
  {
    if |d| <= 3 then d
    else
      var g, tail := Group(d[..|d| - 3]), d[|d| - 3..];
      CommaLayoutStep(g, tail);
      g + "," + tail
  }

  /** The string without its commas. */
  function StripCommas(s: string): string {
    if s == [] then []
    else if s[0] == ',' then StripCommas(s[1..])
    else [s[0]] + StripCommas(s[1..])
  }

  lemma {:induction false} StripCommasAppend(a: string, b: string)
    ensures StripCommas(a + b) == StripCommas(a) + StripCommas(b)
  {
    if a == [] {
      assert a + b == b;
    } else {
      var c := a[0];
      var kept := if c == ',' then [] else [c];
      calc {
        StripCommas(a + b);
        { assert (a + b)[0] == c && (a + b)[1..] == a[1..] + b; }
        kept + StripCommas(a[1..] + b);
        { StripCommasAppend(a[1..], b); }
        kept + (StripCommas(a[1..]) + StripCommas(b));
        (kept + StripCommas(a[1..])) + StripCommas(b);
      }
    }
  }

  lemma {:induction false} StripCommasOfDigits(d: string)
    requires AllDigits(d)
    ensures StripCommas(d) == d
  {
    if d != [] {
      StripCommasOfDigits(d[1..]);
    }
  }

  /** Grouping only inserts commas: removing them gives the digits back. */
  lemma {:induction false} GroupStripsBack(d: string)
    requires 1 <= |d| && AllDigits(d)
    ensures StripCommas(Group(d)) == d
    decreases |d|
  {
    if |d| <= 3 {
      StripCommasOfDigits(d);
    } else {
      var head, tail := d[..|d| - 3], d[|d| - 3..];
      var g := Group(head);
      assert Group(d) == g + "," + tail;
      calc {
        StripCommas(g + "," + tail);
        { StripCommasAppend(g + ",", tail); }
        StripCommas(g + ",") + StripCommas(tail);
        { StripCommasAppend(g, ","); StripCommasOfDigits(tail); }
        StripCommas(g) + StripCommas(",") + tail;
        { GroupStripsBack(head); assert StripCommas(",") == []; }
        head + tail;
      }
      assert head + tail == d;
    }
  }

  /** `"{:,}".format(n)`: a minus sign for negative numbers, then the grouped
      digits of the magnitude. */
  function FormatThousands(n: int): (r: string)
    ensures r != [] && (r[0] == '-' <==> n < 0)
    ensures ParseThousands(r) == Some(n)
  {
    if n < 0 then
      ParseNegatedGroup(-n);
      "-" + Group(Decimal(-n))
    else
      ParseGroup(n);
      GroupStartsWithDigit(n);
      Group(Decimal(n))
  }

  /** The number a `{:,}`-formatted string denotes, ignoring its commas;
      `None` when something other than a leading minus sign, digits and
      commas is present. */
  function ParseThousands(s: string): Option<int> {
    var negative := s != [] && s[0] == '-';
    var digits := StripCommas(if negative then s[1..] else s);
    if digits == [] || !AllDigits(digits) then None
    else if negative then Some(-(DigitsValue(digits) as int))
    else Some(DigitsValue(digits))
  }

  /** Removing the commas leaves the sign and the decimal digits of `n`. */
  lemma FormatThousandsDigits(n: int)
    ensures StripCommas(FormatThousands(n)) == (if n < 0 then "-" else "") + Decimal(if n < 0 then -n else n)
  {
    var m := if n < 0 then -n else n;
    GroupStripsBack(Decimal(m));
    if n < 0 {
      StripCommasAppend("-", Group(Decimal(m)));
      assert StripCommas("-") == "-";
    }
  }

  /** The layout of the grouped magnitude: the first group holds one to three
      digits and every later group exactly three, each after a comma. */
  lemma GroupLayout(n: nat)
    ensures var r := FormatThousands(n);
      && 1 <= |r| % 4 <= 3
      && (forall i :: 0 <= i < |r| ==> (r[i] == ',' <==> (|r| - i) % 4 == 0))
      && (forall i :: 0 <= i < |r| && r[i] != ',' ==> IsDigitAscii(r[i]))
  {
    assert CommaLayout(FormatThousands(n));
  }

  /** A grouped magnitude starts with a digit. */
  lemma GroupStartsWithDigit(m: nat)
    ensures IsDigitAscii(Group(Decimal(m))[0])
  {
    var g := Group(Decimal(m));
    assert CommaLayout(g);
    assert g[0] != ',';
  }

  /** Reading back the grouped digits of `m` gives `m`. */
  lemma ParseGroup(m: nat)
    ensures ParseThousands(Group(Decimal(m))) == Some(m)
  {
    var g := Group(Decimal(m));
    GroupStartsWithDigit(m);
    GroupStripsBack(Decimal(m));
    DecimalRoundTrip(m);
    assert g[0] != '-';
  }

  /** Reading back a minus sign and the grouped digits of `m` gives `-m`. */
  lemma ParseNegatedGroup(m: nat)
    ensures ParseThousands("-" + Group(Decimal(m))) == Some(-(m as int))
  {
    var g := Group(Decimal(m));
    var s := "-" + g;
    GroupStripsBack(Decimal(m));
    DecimalRoundTrip(m);
    assert s[0] == '-' && s[1..] == g;
  }
}
