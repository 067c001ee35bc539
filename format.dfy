/**
  Text conversions of the clock: the `%0.2ld` conversion that writes a tick
  label's number, and Swift's `Int(String)` with the `intValue` default of 0
  that reads the date formatter's fields back as numbers.
 */
module Format {
  import opened Wrappers

  /** The range of Swift's 64-bit `Int`. */
  const IntMin: int := -0x8000_0000_0000_0000
  const IntMax: int := 0x7FFF_FFFF_FFFF_FFFF

  predicate IsDigit(c: char)
  {
    '0' <= c <= '9'
  }

  predicate AllDigits(s: string)
  {
    forall i :: 0 <= i < |s| ==> IsDigit(s[i])
  }

  function DigitChar(d: nat): (c: char)
    requires d < 10
    ensures IsDigit(c) && DigitValue(c) == d
  {
    ('0' as int + d) as char
  }

  function DigitValue(c: char): nat
    requires IsDigit(c)
  {
    c as int - '0' as int
  }

  /** The decimal digits of n, most significant first, without leading zeros. */
  function Decimal(n: nat): (s: string)
    ensures |s| >= 1 && AllDigits(s)
    ensures n == 0 <==> s == "0"
    ensures n > 0 ==> s[0] != '0'
  {
    if n < 10 then [DigitChar(n)] else Decimal(n / 10) + [DigitChar(n % 10)]
  }

  /** The number a string of decimal digits denotes (leading zeros allowed). */
  function DigitsValue(s: string): nat
    requires AllDigits(s)
  {
    if s == [] then 0 else DigitsValue(s[..|s| - 1]) * 10 + DigitValue(s[|s| - 1])
  }

  /** A zero in front of a single digit: the effect of the printf precision
      .2 on the digits of an integer conversion. */
  function TwoDigits(digits: string): string
  {
    if |digits| < 2 then "0" + digits else digits
  }

  /** `String(format: "%0.2ld", i)`: the precision .2 asks for at least two
      digits (which makes the 0 flag moot), with a minus sign in front of a
      negative number. */
  function FormatIndex(i: int): string
  {
    if i < 0 then "-" + TwoDigits(Decimal(-i)) else TwoDigits(Decimal(i))
  }

  /** Swift's `Int(s)` for a string: an optional '+' or '-' followed by one or
      more ASCII digits and nothing else, whose value fits in an `Int`;
      anything else gives nil. */
  function ParseInt(s: string): (r: Option<int>)
    ensures r.Some? ==> IntMin <= r.value <= IntMax
  {
    if |s| > 0 && (s[0] == '+' || s[0] == '-') then ParseMagnitude(s[1..], s[0] == '-')
    else ParseMagnitude(s, false)
  }

  function ParseMagnitude(digits: string, negative: bool): (r: Option<int>)
    ensures r.Some? ==> IntMin <= r.value <= IntMax
  {
    if digits == [] || !AllDigits(digits) then None
    else
      var v: int := if negative then -(DigitsValue(digits) as int) else DigitsValue(digits);
      if IntMin <= v <= IntMax then Some(v) else None
  }

  /** `String.intValue`: the parsed number, or 0 when parsing fails. */
  function IntValue(s: string): (n: int)
    ensures IntMin <= n <= IntMax
  {
    ParseInt(s).GetOr(0)
  }

  // ---- properties ----

  /** Reading the digits of n back gives n. */
  lemma {:induction false} DecimalRoundTrip(n: nat)
    ensures DigitsValue(Decimal(n)) == n
  {
    if n >= 10 {
      var front := Decimal(n / 10);
      var s := front + [DigitChar(n % 10)];
      assert s[..|s| - 1] == front;
      DecimalRoundTrip(n / 10);
    }
  }

  /** A leading zero does not change the value of a digit string. */
  lemma {:induction false} LeadingZero(s: string)
    requires AllDigits(s)
    ensures AllDigits("0" + s) && DigitsValue("0" + s) == DigitsValue(s)
  {
    if s != [] {
      var t := "0" + s;
      assert t[..|t| - 1] == "0" + s[..|s| - 1];
      LeadingZero(s[..|s| - 1]);
    }
  }

  /** Padding with a zero does not change the value of a digit string. */
  lemma TwoDigitsValue(s: string)
    requires s != [] && AllDigits(s)
    ensures AllDigits(TwoDigits(s)) && DigitsValue(TwoDigits(s)) == DigitsValue(s)
    ensures |TwoDigits(s)| >= 2
  {
    if |s| < 2 {
      LeadingZero(s);
    }
  }

  /** Every label number reads back as the index it was written from, so
      `intValue` inverts the `%0.2ld` conversion over the whole `Int` range. */
  lemma FormatIndexRoundTrip(i: int)
    requires IntMin <= i <= IntMax
    ensures ParseInt(FormatIndex(i)) == Some(i)
    ensures IntValue(FormatIndex(i)) == i
  {
    var m: nat := if i < 0 then -i else i;
    var digits := TwoDigits(Decimal(m));
    DecimalRoundTrip(m);
    TwoDigitsValue(Decimal(m));
    assert digits != [] && AllDigits(digits) && DigitsValue(digits) == m;
    if i < 0 {
      var s := "-" + digits;
      assert FormatIndex(i) == s;
      assert s[0] == '-' && s[1..] == digits;
      assert ParseInt(s) == ParseMagnitude(digits, true);
    } else {
      assert FormatIndex(i) == digits;
      assert digits[0] != '+' && digits[0] != '-' by {
        assert IsDigit(digits[0]);
      }
      assert ParseInt(digits) == ParseMagnitude(digits, false);
    }
  }

  /** The number part of a label has at least two digits, zero-padded in
      front, and a minus sign in front of a negative index. */
  lemma FormatIndexShape(i: int)
    ensures |FormatIndex(i)| >= 2
    ensures 0 <= i ==> AllDigits(FormatIndex(i))
    ensures i < 0 ==> FormatIndex(i)[0] == '-' && |FormatIndex(i)| >= 3 && AllDigits(FormatIndex(i)[1..])
  {
    var m: nat := if i < 0 then -i else i;
    TwoDigitsValue(Decimal(m));
    if i < 0 {
      assert FormatIndex(i)[1..] == TwoDigits(Decimal(m));
    }
  }

  /** A one-digit index n is written "0n", a two-digit one as its two digits. */
  lemma FormatSmallIndex(i: int)
    requires 0 <= i < 100
    ensures i < 10 ==> FormatIndex(i) == ['0', DigitChar(i)]
    ensures 10 <= i ==> FormatIndex(i) == [DigitChar(i / 10), DigitChar(i % 10)]
  {
    if i < 10 {
      assert Decimal(i) == [DigitChar(i)];
      assert "0" + [DigitChar(i)] == ['0', DigitChar(i)];
    } else {
      assert Decimal(i / 10) == [DigitChar(i / 10)];
      assert Decimal(i) == [DigitChar(i / 10), DigitChar(i % 10)];
    }
  }

  /** Different indices get different label numbers. */
  lemma FormatIndexInjective(i: int, j: int)
    requires IntMin <= i <= IntMax && IntMin <= j <= IntMax
    ensures FormatIndex(i) == FormatIndex(j) <==> i == j
  {
    FormatIndexRoundTrip(i);
    FormatIndexRoundTrip(j);
  }

  /** A two-digit field such as the formatter's "05" or "59" reads as its value. */
  lemma TwoDigitField(a: char, b: char)
    requires IsDigit(a) && IsDigit(b)
    ensures IntValue([a, b]) == 10 * DigitValue(a) + DigitValue(b)
  {
    var s := [a, b];
    assert AllDigits(s);
    assert s[..|s| - 1] == [a] && [a][..0] == [];
    assert DigitsValue([a]) == DigitValue(a);
    assert DigitsValue(s) == 10 * DigitValue(a) + DigitValue(b);
    assert ParseInt(s) == ParseMagnitude(s, false);
  }

  /** A string with a character that is neither a digit nor a leading sign
      does not parse, so its `intValue` is 0. */
  lemma NonDigitGivesZero(s: string, k: int)
    requires 0 <= k < |s| && !IsDigit(s[k])
    requires k > 0 || (s[0] != '+' && s[0] != '-')
    ensures ParseInt(s) == None && IntValue(s) == 0
  {
    if |s| > 0 && (s[0] == '+' || s[0] == '-') {
      assert !IsDigit(s[1..][k - 1]);
    }
  }

  /** The empty string and a lone sign have no digits, so their `intValue` is 0. */
  lemma NoDigitsGiveZero(s: string)
    requires s == "" || s == "+" || s == "-"
    ensures ParseInt(s) == None && IntValue(s) == 0
  {
  }

  /** A number outside the `Int` range does not parse, so its `intValue` is 0. */
  lemma OverflowGivesZero(s: string)
    requires s != [] && AllDigits(s) && DigitsValue(s) > IntMax
    ensures ParseInt(s) == None && IntValue(s) == 0
  {
  }

  /** A signed number outside the `Int` range, such as "-9223372036854775809"
      or "+9223372036854775808", does not parse either. */
  lemma SignedOverflowGivesZero(s: string)
    requires |s| > 1 && (s[0] == '+' || s[0] == '-') && AllDigits(s[1..])
    requires s[0] == '+' ==> DigitsValue(s[1..]) > IntMax
    requires s[0] == '-' ==> DigitsValue(s[1..]) > -IntMin
    ensures ParseInt(s) == None && IntValue(s) == 0
  {
    assert ParseInt(s) == ParseMagnitude(s[1..], s[0] == '-');
  }
}
