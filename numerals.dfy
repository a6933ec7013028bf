/**
 * Decimal numerals as the two scripts write and read them: str(n), the
 * "{:03d}" zero-padded index, the "{:.2f}" fixed-point seconds, and float()
 * of a plain decimal numeral.
 */
module Numerals {

  import opened Options
  import opened PyStr

  predicate IsDigit(c: char) {
    '0' <= c <= '9'
  }

  predicate AllDigits(s: string) {
    forall i :: 0 <= i < |s| ==> IsDigit(s[i])
  }

  function DigitValue(c: char): nat
    requires IsDigit(c)
  {
    c as int - '0' as int
  }

  function DigitChar(d: nat): (c: char)
    requires d < 10
    ensures IsDigit(c) && DigitValue(c) == d
  {
    ('0' as int + d) as char
  }

  /** The value of a digit string read as a decimal numeral; "" reads as 0. */
  function DigitsValue(s: string): nat
    requires AllDigits(s)
  {
    if s == [] then 0 else DigitsValue(s[..|s| - 1]) * 10 + DigitValue(s[|s| - 1])
  }

  function Pow10(n: nat): (p: nat)
    ensures p >= 1
  {
    if n == 0 then 1 else 10 * Pow10(n - 1)
  }

  /** str(n): the decimal digits of n. */
  function NatToString(n: nat): string
    decreases n
  {
    if n < 10 then [DigitChar(n)] else NatToString(n / 10) + [DigitChar(n % 10)]
  }

  /** str(n) is a numeral with no leading zero that reads back as n. */
  lemma {:induction false} NatToStringSpec(n: nat)
    ensures var r := NatToString(n);
      |r| >= 1 && AllDigits(r) && DigitsValue(r) == n && (r[0] == '0' ==> n == 0)
    decreases n
  {
    if n >= 10 {
      NatToStringSpec(n / 10);
      var p := NatToString(n / 10);
      var r := p + [DigitChar(n % 10)];
      assert r[..|r| - 1] == p;
    }
  }

  function Zeros(k: nat): (r: string)
    ensures |r| == k && AllDigits(r)
  {
    seq(k, _ => '0')
  }

  lemma {:induction false} LeadingZeros(k: nat, s: string)
    requires AllDigits(s)
    ensures AllDigits(Zeros(k) + s) && DigitsValue(Zeros(k) + s) == DigitsValue(s)
    decreases |s|
  {
    var z := Zeros(k) + s;
    assert AllDigits(z);
    if s == [] {
      assert z == Zeros(k);
      ZerosValue(k);
    } else {
      assert z[..|z| - 1] == Zeros(k) + s[..|s| - 1];
      LeadingZeros(k, s[..|s| - 1]);
    }
  }

  lemma {:induction false} ZerosValue(k: nat)
    ensures DigitsValue(Zeros(k)) == 0
  {
    if k > 0 {
      assert Zeros(k)[..k - 1] == Zeros(k - 1);
      ZerosValue(k - 1);
    }
  }

  /** f"{n:0{width}d}": str(n) with zeros in front, at least width characters. */
  function ZeroPad(n: nat, width: nat): string {
    var digits := NatToString(n);
    if |digits| < width then Zeros(width - |digits|) + digits else digits
  }

  /** The padded numeral still reads as n, and is exactly width long when str(n) fits. */
  lemma ZeroPadSpec(n: nat, width: nat)
    ensures var r, digits := ZeroPad(n, width), NatToString(n);
      && AllDigits(r) && DigitsValue(r) == n
      && |r| == if |digits| < width then width else |digits|
  {
    var digits := NatToString(n);
    NatToStringSpec(n);
    if |digits| < width {
      LeadingZeros(width - |digits|, digits);
    }
  }

  /** f"{c / 100:.2f}" for a non-negative count c of hundredths of a second. */
  function Fmt2(c: nat): string {
    NatToString(c / 100) + "." + [DigitChar(c / 10 % 10), DigitChar(c % 10)]
  }

  /** Every character of a "{:.2f}" numeral is a digit except the point, third from the end. */
  lemma Fmt2Chars(c: nat)
    ensures var r := Fmt2(c);
      && |r| >= 4 && r[|r| - 3] == '.'
      && forall i :: 0 <= i < |r| ==> IsDigit(r[i]) || (r[i] == '.' && i == |r| - 3)
  {
    NatToStringSpec(c / 100);
  }

  /**
   * float(u) for an unsigned plain decimal numeral: digits, optionally a point
   * and more digits, with at least one digit in all.
   */
  function ParseUnsigned(u: string): (r: Option<real>)
    ensures r.Some? ==> r.value >= 0.0 && u != []
  {
    var k := Find(u, '.');
    var whole := if k == -1 then u else u[..k];
    var frac := if k == -1 then [] else u[k + 1..];
    if AllDigits(whole) && AllDigits(frac) && |whole| + |frac| > 0 then
      Some(DecimalValue(whole, frac))
    else
      None
  }

  /** The value of the numeral whole.frac. */
  function DecimalValue(whole: string, frac: string): (x: real)
    requires AllDigits(whole) && AllDigits(frac)
    ensures x >= DigitsValue(whole) as real
  {
    var p := Pow10(|frac|) as real;
    var f := DigitsValue(frac) as real;
    assert f / p >= 0.0;
    DigitsValue(whole) as real + f / p
  }

  /** An accepted unsigned numeral holds only digits and at most one point. */
  lemma ParseUnsignedAlphabet(u: string)
    requires ParseUnsigned(u).Some?
    ensures forall i :: 0 <= i < |u| ==> IsDigit(u[i]) || u[i] == '.'
    ensures forall i, j :: 0 <= i < j < |u| && u[i] == '.' ==> u[j] != '.'
  {
    var k := Find(u, '.');
    if k != -1 {
      var whole, frac := u[..k], u[k + 1..];
      assert u == whole + "." + frac;
      forall i | 0 <= i < |u| ensures IsDigit(u[i]) || u[i] == '.' {
        if i < k {
          assert u[i] == whole[i];
        } else if i > k {
          assert u[i] == frac[i - k - 1];
        }
      }
    }
  }

  /**
   * float(s) for an optionally signed plain decimal numeral, with the
   * surrounding whitespace float() ignores.
   */
  function ParseFloat(s: string): (r: Option<real>)
    ensures r.Some? ==> Strip(s) != []
  {
    ParseSigned(Strip(s))
  }

  /** An optional sign, then an unsigned numeral. */
  function ParseSigned(t: string): (r: Option<real>)
    ensures r.Some? ==> t != []
  {
    if t != [] && (t[0] == '-' || t[0] == '+') then
      var v := ParseUnsigned(t[1..]);
      if v.None? then None else Some(if t[0] == '-' then -v.value else v.value)
    else
      ParseUnsigned(t)
  }

  /** The point of a "{:.2f}" numeral is its first '.', between the whole digits and two more. */
  lemma Fmt2Point(c: nat)
    ensures var u, k := Fmt2(c), |NatToString(c / 100)|;
      && Find(u, '.') == k
      && u[..k] == NatToString(c / 100)
      && u[k + 1..] == [DigitChar(c / 10 % 10), DigitChar(c % 10)]
  {
    var whole := NatToString(c / 100);
    var u := Fmt2(c);
    assert '.' !in whole by {
      NatToStringDigits(c / 100);
    }
    assert u[..|whole|] == whole;
    FindFirst(u, '.', |whole|);
  }

  lemma NatToStringDigits(n: nat)
    ensures AllDigits(NatToString(n))
  {
    NatToStringSpec(n);
  }

  lemma TwoDigitsValue(hi: nat, lo: nat)
    requires hi < 10 && lo < 10
    ensures DigitsValue([DigitChar(hi), DigitChar(lo)]) == hi * 10 + lo
  {
    var frac := [DigitChar(hi), DigitChar(lo)];
    assert DigitsValue(frac[..1]) == hi by {
      assert frac[..1][..0] == [];
    }
    assert DigitsValue(frac) == DigitsValue(frac[..1]) * 10 + lo;
  }

  /** c hundredths, as a real number. */
  function Hundredths(c: nat): real {
    c as real / 100.0
  }

  /** Reading a "{:.2f}" numeral back gives exactly the hundredths it was written from. */
  lemma Fmt2Unsigned(c: nat)
    ensures ParseUnsigned(Fmt2(c)) == Some(Hundredths(c))
  {
    var whole := NatToString(c / 100);
    var frac := [DigitChar(c / 10 % 10), DigitChar(c % 10)];
    NatToStringDigits(c / 100);
    assert ParseUnsigned(Fmt2(c)) == Some(DecimalValue(whole, frac)) by {
      Fmt2Point(c);
    }
    Fmt2Value(c);
  }

  lemma Fmt2Value(c: nat)
    requires AllDigits(NatToString(c / 100))
    ensures DecimalValue(NatToString(c / 100), [DigitChar(c / 10 % 10), DigitChar(c % 10)]) == Hundredths(c)
  {
    assert DigitsValue(NatToString(c / 100)) == c / 100 by {
      NatToStringSpec(c / 100);
    }
    TwoDigitsValue(c / 10 % 10, c % 10);
    assert Pow10(2) == 100;
    HundredthsValue(c / 100, c / 10 % 10, c % 10, c);
  }

  lemma HundredthsValue(w: nat, hi: nat, lo: nat, c: nat)
    requires w * 100 + hi * 10 + lo == c
    ensures w as real + (hi * 10 + lo) as real / 100.0 == c as real / 100.0
  {
  }

  lemma StripNumeral(u: string)
    requires u != [] && IsDigit(u[0]) && IsDigit(u[|u| - 1])
    ensures Strip(u) == u
  {
    assert [] + u + [] == u;
    StripCharsUnique([], u, [], None);
  }

  lemma Fmt2RoundTrip(c: nat)
    ensures ParseFloat(Fmt2(c)) == Some(Hundredths(c))
  {
    Fmt2Chars(c);
    StripNumeral(Fmt2(c));
    Fmt2Unsigned(c);
  }

  lemma NegativeFmt2RoundTrip(c: nat)
    ensures ParseFloat("-" + Fmt2(c)) == Some(-Hundredths(c))
  {
    NegativeFmt2Signed(c);
    Fmt2Chars(c);
    StripMinusNumeral(Fmt2(c));
  }

  lemma NegativeFmt2Signed(c: nat)
    ensures ParseSigned("-" + Fmt2(c)) == Some(-Hundredths(c))
  {
    Fmt2Unsigned(c);
    NegativeSigned(Fmt2(c), Hundredths(c));
  }

  /** A minus sign in front of an unsigned numeral negates its value. */
  lemma NegativeSigned(u: string, x: real)
    requires ParseUnsigned(u) == Some(x)
    ensures ParseSigned("-" + u) == Some(-x)
  {
    var s := "-" + u;
    assert s[0] == '-' && s[1..] == u;
  }

  lemma StripMinusNumeral(u: string)
    requires u != [] && IsDigit(u[|u| - 1])
    ensures Strip("-" + u) == "-" + u
  {
    var s := "-" + u;
    assert [] + s + [] == s;
    assert s[|s| - 1] == u[|u| - 1];
    StripCharsUnique([], s, [], None);
  }

  /** A plain digit string reads as the whole number it spells. */
  lemma DigitsParse(u: string)
    requires u != [] && AllDigits(u)
    ensures ParseFloat(u) == Some(DigitsValue(u) as real)
  {
    StripNumeral(u);
    DigitsUnsigned(u);
    assert ParseSigned(u) == ParseUnsigned(u) by {
      assert IsDigit(u[0]);
    }
  }

  lemma DigitsUnsigned(u: string)
    requires u != [] && AllDigits(u)
    ensures ParseUnsigned(u) == Some(DigitsValue(u) as real)
  {
    assert '.' !in u by {
      assert forall i :: 0 <= i < |u| ==> IsDigit(u[i]);
    }
    assert Find(u, '.') == -1;
    assert DecimalValue(u, []) == DigitsValue(u) as real by {
      assert Pow10(0) == 1 && DigitsValue([]) == 0;
    }
  }

  /** The integer nearest to y; of two equally near, the even one. */
  function RoundHalfEven(y: real): (n: int)
    ensures -0.5 <= n as real - y <= 0.5
    ensures (n as real - y == 0.5 || y - n as real == 0.5) ==> n % 2 == 0
    ensures y >= 0.0 ==> n >= 0
  {
    var f := y.Floor;
    var d := y - f as real;
    if d < 0.5 then f
    else if d > 0.5 then f + 1
    else if f % 2 == 0 then f
    else f + 1
  }

  /** f"{x:.2f}" for a real x: the nearest hundredth, a minus sign in front of a negative x. */
  function FormatFixed2(x: real): string {
    if x < 0.0 then "-" + Fmt2(RoundHalfEven(-x * 100.0)) else Fmt2(RoundHalfEven(x * 100.0))
  }

  /** Reading f"{x:.2f}" back with float() is off from x by at most half a hundredth. */
  lemma FormatFixed2Parses(x: real)
    ensures ParseFloat(FormatFixed2(x)).Some?
    ensures -0.005 <= ParseFloat(FormatFixed2(x)).value - x <= 0.005
  {
    if x < 0.0 {
      NegativeFmt2RoundTrip(RoundHalfEven(-x * 100.0));
    } else {
      Fmt2RoundTrip(RoundHalfEven(x * 100.0));
    }
  }

  lemma RoundWhole(n: int)
    ensures RoundHalfEven(n as real) == n
  {
  }

  /** A non-negative value that is a whole number of hundredths is printed exactly. */
  lemma FormatFixed2Exact(c: nat)
    ensures FormatFixed2(Hundredths(c)) == Fmt2(c)
  {
    var x := Hundredths(c);
    assert x * 100.0 == c as real;
    RoundWhole(c);
  }

  /** So is a negative one, with its minus sign. */
  lemma FormatFixed2ExactNegative(c: nat)
    requires c > 0
    ensures FormatFixed2(-Hundredths(c)) == "-" + Fmt2(c)
  {
    var x := -Hundredths(c);
    assert -x * 100.0 == c as real;
    RoundWhole(c);
  }

}
