/**
 * Decimal renderings of integers and the widget's `isInt` test, which checks
 * `(string) (int) $value === (string) $value`: the value survives a round trip
 * through PHP's integer cast and back.
 */
module Decimal {

  /** Bounds of PHP's native integer on a 64-bit build. */
  const PhpIntMin: int := -0x8000_0000_0000_0000
  const PhpIntMax: int := 0x7FFF_FFFF_FFFF_FFFF

  predicate InPhpIntRange(n: int)
  {
    PhpIntMin <= n <= PhpIntMax
  }

  predicate IsDigit(c: char)
  {
    '0' <= c <= '9'
  }

  function DigitValue(c: char): nat
    requires IsDigit(c)
  {
    (c as int - '0' as int) as nat
  }

  function DigitChar(d: nat): (c: char)
    requires d < 10
    ensures IsDigit(c) && DigitValue(c) == d
  {
    ('0' as int + d) as char
  }

  predicate AllDigits(d: string)
  {
    forall i | 0 <= i < |d| :: IsDigit(d[i])
  }

  /** The number a digit string denotes (most significant digit first). */
  function DigitsValue(d: string): nat
    requires AllDigits(d)
    decreases |d|
  {
    if |d| == 0 then 0 else 10 * DigitsValue(d[..|d| - 1]) + DigitValue(d[|d| - 1])
  }

  /** PHP's `(string)` of a non-negative integer. */
  function NatToString(n: nat): string
    decreases n
  {
    if n < 10 then [DigitChar(n)] else NatToString(n / 10) + [DigitChar(n % 10)]
  }

  /** PHP's `(string)` of an integer: a minus sign before the magnitude when negative. */
  function IntToString(n: int): string
  {
    if n < 0 then "-" + NatToString(-n) else NatToString(n)
  }

  // ---------------------------------------------------------------------------
  // The reference definition: canonical decimal strings
  // ---------------------------------------------------------------------------

  /** A non-empty digit string with no superfluous leading zero. */
  predicate IsCanonicalMagnitude(d: string)
  {
    |d| > 0 && AllDigits(d) && (d[0] == '0' ==> |d| == 1)
  }

  /**
   * The canonical decimal spelling of an integer: no sign but a minus before a
   * non-zero magnitude, no leading zeros, no whitespace, no "-0".
   */
  predicate IsCanonicalDecimal(s: string)
  {
    if |s| > 0 && s[0] == '-' then IsCanonicalMagnitude(s[1..]) && s[1..] != "0"
    else IsCanonicalMagnitude(s)
  }

  /** The integer a canonical decimal string denotes. */
  function CanonicalValue(s: string): int
    requires IsCanonicalDecimal(s)
  {
    if s[0] == '-' then -(DigitsValue(s[1..]) as int) else DigitsValue(s)
  }

  // ---------------------------------------------------------------------------
  // PHP's `(int)` cast of a string, and `isInt`
  // ---------------------------------------------------------------------------

  /** The characters PHP skips before the number in a numeric string. */
  predicate IsPhpWhitespace(c: char)
  {
    c == ' ' || c == '\t' || c == '\n' || c == '\r' || c == 11 as char || c == 12 as char
  }

  function SkipWhitespace(s: string): (t: string)
    ensures |t| <= |s|
    decreases |s|
  {
    if |s| > 0 && IsPhpWhitespace(s[0]) then SkipWhitespace(s[1..]) else s
  }

  /** The longest prefix of `s` made of digits. */
  function LeadingDigits(s: string): (d: string)
    ensures AllDigits(d) && |d| <= |s|
    decreases |s|
  {
    if |s| > 0 && IsDigit(s[0]) then [s[0]] + LeadingDigits(s[1..]) else []
  }

  /** Out-of-range numbers saturate at the bounds of the native integer. */
  function Saturate(n: int): (m: int)
    ensures InPhpIntRange(m)
    ensures InPhpIntRange(n) ==> m == n
  {
    if n < PhpIntMin then PhpIntMin else if n > PhpIntMax then PhpIntMax else n
  }

  /**
   * The least magnitude that `zend_strtod` rounds to infinity, 2^1024 - 2^970:
   * halfway between the largest finite double and 2^1024.
   */
  const DoubleOverflow: int := 0xFFFF_FFFF_FFFF_FC00_0000_0000_0000_0000_0000_0000_0000_0000_0000_0000_0000_0000_0000_0000_0000_0000_0000_0000_0000_0000_0000_0000_0000_0000_0000_0000_0000_0000_0000_0000_0000_0000_0000_0000_0000_0000_0000_0000_0000_0000_0000_0000_0000_0000_0000_0000_0000_0000_0000_0000_0000_0000_0000_0000_0000_0000_0000_0000_0000_0000

  /**
   * The integer PHP makes of the value of a numeric string. A value that fits
   * is kept. Any other value is read as a double, and `zend_dval_to_lval_cap`
   * saturates a finite double but turns an infinite one into 0.
   */
  function NumericToInt(v: int): (m: int)
    ensures InPhpIntRange(m)
  {
    if InPhpIntRange(v) then v
    else if v <= -DoubleOverflow || DoubleOverflow <= v then 0
    else Saturate(v)
  }

  /**
   * PHP's `(int)` of a string: leading whitespace, an optional sign, then the
   * longest run of digits (none reads as 0). A value that does not fit
   * saturates, unless it is too large even for a double, which gives 0.
   */
  function PhpIntCast(s: string): (n: int)
    ensures InPhpIntRange(n)
    ensures IsCanonicalDecimal(s) && InPhpIntRange(CanonicalValue(s)) ==> n == CanonicalValue(s)
    ensures IsCanonicalDecimal(s) && PhpIntMax < CanonicalValue(s) < DoubleOverflow ==> n == PhpIntMax
    ensures IsCanonicalDecimal(s) && -DoubleOverflow < CanonicalValue(s) < PhpIntMin ==> n == PhpIntMin
    ensures IsCanonicalDecimal(s) && (CanonicalValue(s) <= -DoubleOverflow || DoubleOverflow <= CanonicalValue(s))
      ==> n == 0
  {
    CanonicalSpelling(s);
    var t := SkipWhitespace(s);
    if |t| > 0 && t[0] == '-' then NumericToInt(-(DigitsValue(LeadingDigits(t[1..])) as int))
    else if |t| > 0 && t[0] == '+' then NumericToInt(DigitsValue(LeadingDigits(t[1..])))
    else NumericToInt(DigitsValue(LeadingDigits(t)))
  }

  /**
   * `isInt`: the string is what PHP prints for the integer it casts to. That
   * holds exactly of the canonical decimal strings whose value fits a PHP
   * integer.
   */
  predicate IsInt(s: string): (b: bool)
    ensures b <==> IsCanonicalDecimal(s) && InPhpIntRange(CanonicalValue(s))
  {
    var printed := IntToString(PhpIntCast(s));
    IntToStringCanonical(PhpIntCast(s));
    if IsCanonicalDecimal(s) then CanonicalRoundTrip(s); printed == s else printed == s
  }

  // ---------------------------------------------------------------------------
  // Lemmas
  // ---------------------------------------------------------------------------

  lemma DigitsValueSnoc(p: string, c: char)
    requires AllDigits(p) && IsDigit(c)
    ensures AllDigits(p + [c])
    ensures DigitsValue(p + [c]) == 10 * DigitsValue(p) + DigitValue(c)
  {
    assert (p + [c])[..|p|] == p;
  }

  lemma DivModTen(q: nat, r: nat)
    requires r < 10
    ensures (10 * q + r) / 10 == q && (10 * q + r) % 10 == r
  {
  }

  /** Printing a natural number gives a canonical magnitude that reads back as the number. */
  lemma {:induction false} NatToStringCanonical(n: nat)
    ensures IsCanonicalMagnitude(NatToString(n))
    ensures DigitsValue(NatToString(n)) == n
    ensures n > 0 ==> NatToString(n)[0] != '0'
    decreases n
  {
    if n >= 10 {
      NatToStringCanonical(n / 10);
      var p := NatToString(n / 10);
      DigitsValueSnoc(p, DigitChar(n % 10));
      assert NatToString(n) == p + [DigitChar(n % 10)];
      assert NatToString(n)[0] == p[0];
    }
  }

  /** Every rendering of an integer is canonical and denotes that integer. */
  lemma IntToStringCanonical(n: int)
    ensures IsCanonicalDecimal(IntToString(n))
    ensures CanonicalValue(IntToString(n)) == n
  {
    if n < 0 {
      NatToStringCanonical(-n);
      assert IntToString(n)[1..] == NatToString(-n);
    } else {
      NatToStringCanonical(n);
    }
  }

  lemma {:induction false} LeadingDigitBound(d: string)
    requires |d| > 0 && AllDigits(d)
    ensures DigitsValue(d) >= DigitValue(d[0])
    decreases |d|
  {
    if |d| > 1 {
      LeadingDigitBound(d[..|d| - 1]);
    }
  }

  /** Reading a canonical magnitude and printing it back gives the same string. */
  lemma {:induction false} MagnitudeRoundTrip(d: string)
    requires IsCanonicalMagnitude(d)
    ensures NatToString(DigitsValue(d)) == d
    decreases |d|
  {
    if |d| == 1 {
      assert DigitChar(DigitValue(d[0])) == d[0];
    } else {
      var p := d[..|d| - 1];
      var c := d[|d| - 1];
      assert p[0] == d[0];
      MagnitudeRoundTrip(p);
      LeadingDigitBound(p);
      var v := DigitsValue(d);
      assert v == 10 * DigitsValue(p) + DigitValue(c);
      DivModTen(DigitsValue(p), DigitValue(c));
      assert DigitChar(DigitValue(c)) == c;
      assert d == p + [c];
    }
  }

  /** The canonical strings are exactly the renderings of integers, one per integer. */
  lemma CanonicalRoundTrip(s: string)
    requires IsCanonicalDecimal(s)
    ensures IntToString(CanonicalValue(s)) == s
  {
    if s[0] == '-' {
      MagnitudeRoundTrip(s[1..]);
      LeadingDigitBound(s[1..]);
      assert s == "-" + s[1..];
    } else {
      MagnitudeRoundTrip(s);
    }
  }

  lemma {:induction false} LeadingDigitsOfDigits(d: string)
    requires AllDigits(d)
    ensures LeadingDigits(d) == d
    decreases |d|
  {
    if |d| > 0 {
      LeadingDigitsOfDigits(d[1..]);
      assert d == [d[0]] + d[1..];
    }
  }

  /** A canonical string has no leading whitespace, and its magnitude is all digits. */
  lemma CanonicalSpelling(s: string)
    ensures IsCanonicalDecimal(s) ==> SkipWhitespace(s) == s
    ensures IsCanonicalDecimal(s) && s[0] == '-' ==> LeadingDigits(s[1..]) == s[1..]
    ensures IsCanonicalDecimal(s) && s[0] != '-' ==> LeadingDigits(s) == s
  {
    if IsCanonicalDecimal(s) {
      if s[0] == '-' {
        LeadingDigitsOfDigits(s[1..]);
      } else {
        LeadingDigitsOfDigits(s);
      }
    }
  }

  /** Every in-range integer, printed, passes `isInt`. */
  lemma IsIntOfRendering(n: int)
    requires InPhpIntRange(n)
    ensures IsInt(IntToString(n))
  {
    IntToStringCanonical(n);
  }

  /** Distinct integers print differently. */
  lemma IntToStringInjective(a: int, b: int)
    ensures IntToString(a) == IntToString(b) <==> a == b
  {
    IntToStringCanonical(a);
    IntToStringCanonical(b);
  }

  /** A rendering holds only digits and a minus sign, so never the `|` delimiter. */
  lemma IntToStringNoBar(n: int)
    ensures '|' !in IntToString(n)
  {
    IntToStringCanonical(n);
  }
}
