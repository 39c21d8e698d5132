/**
 * Decimal rendering of integers as the access logger uses it: `strconv.Itoa`
 * for the `status_code:` tag and the `%03d` verb of `fmt` for the log message.
 * A reference parser, `ParseInt`, is the partner of both renderings: every
 * rendering parses back to the integer it came from.
 */
module Decimal {

  datatype Option<T> = None | Some(value: T)

  predicate IsDigit(c: char) {
    '0' <= c <= '9'
  }

  predicate AllDigits(s: string) {
    forall i :: 0 <= i < |s| ==> IsDigit(s[i])
  }

  /** A rendered integer: an optional leading minus sign, then digits only. */
  predicate SignedDigits(s: string) {
    forall i :: 0 <= i < |s| ==> IsDigit(s[i]) || (i == 0 && s[i] == '-')
  }

  function DigitValue(c: char): (d: nat)
    requires IsDigit(c)
    ensures d < 10
  {
    c as int - '0' as int
  }

  function DigitChar(d: nat): (c: char)
    requires d < 10
    ensures IsDigit(c) && DigitValue(c) == d
  {
    ('0' as int + d) as char
  }

  function Max(a: int, b: int): int {
    if a < b then b else a
  }

  /** A minimal digit string: at least one digit, and no leading zero unless it is "0" itself. */
  predicate Minimal(d: string) {
    1 <= |d| && AllDigits(d) && (d[0] == '0' ==> |d| == 1)
  }

  /** The form of `strconv.Itoa`: a minimal digit string, with a minus sign in front of any but "0". */
  predicate Canonical(s: string) {
    if |s| > 0 && s[0] == '-' then Minimal(s[1..]) && s[1] != '0' else Minimal(s)
  }

  /** The shortest decimal rendering of a natural number: at least one digit, and no leading zero except for 0 itself. */
  function Digits(n: nat): (s: string)
    ensures Minimal(s)
    ensures s[0] == '0' <==> n == 0
    decreases n
  {
    if n < 10 then [DigitChar(n)] else Digits(n / 10) + [DigitChar(n % 10)]
  }

  /** The value of a string of digits, most significant first; leading zeros are allowed. */
  function ValueOf(s: string): nat
    requires AllDigits(s)
    decreases |s|
  {
    if s == [] then 0 else ValueOf(s[..|s| - 1]) * 10 + DigitValue(s[|s| - 1])
  }

  /** Reference parser for a non-empty string of digits; leading zeros are allowed. */
  function ParseNat(s: string): Option<nat>
    decreases |s|
  {
    if s == [] || !IsDigit(s[|s| - 1]) then None
    else if |s| == 1 then Some(DigitValue(s[0]))
    else
      match ParseNat(s[..|s| - 1])
      case None => None
      case Some(v) => Some(v * 10 + DigitValue(s[|s| - 1]))
  }

  /** Reference parser for integers: an optional minus sign, then at least one digit. */
  function ParseInt(s: string): Option<int> {
    var neg := |s| > 0 && s[0] == '-';
    match ParseNat(if neg then s[1..] else s)
    case None => None
    case Some(v) => Some(if neg then -(v as int) else v as int)
  }

  /** The parser accepts exactly the non-empty digit strings, and reads their value. */
  lemma {:induction false} ParseNatValue(s: string)
    ensures ParseNat(s).Some? <==> |s| > 0 && AllDigits(s)
    ensures ParseNat(s).Some? ==> ParseNat(s).value == ValueOf(s)
    decreases |s|
  {
    if |s| > 1 {
      var init := s[..|s| - 1];
      ParseNatValue(init);
      if AllDigits(s) {
        assert AllDigits(init);
      } else if IsDigit(s[|s| - 1]) {
        assert !AllDigits(init);
      }
    } else if |s| == 1 {
      assert s[..0] == [];
    }
  }

  /** `strconv.Itoa`: a minus sign for negative values, then the digits of the magnitude. */
  function Itoa(i: int): (s: string)
    ensures 1 <= |s| && SignedDigits(s) && Canonical(s)
    ensures s[0] == '-' <==> i < 0
  {
    if i < 0 then
      var mag := Digits(-i);
      assert ("-" + mag)[1..] == mag;
      "-" + mag
    else Digits(i)
  }

  function Zeros(k: nat): (s: string)
    ensures |s| == k && AllDigits(s)
  {
    seq(k, _ => '0')
  }

  /**
   * The `%03d` verb of `fmt`: the minimal rendering, left-padded with zeros to a
   * width of three characters; the width counts the sign and the zeros go after it.
   */
  function Format03d(i: int): (s: string)
    ensures |s| >= 3 && SignedDigits(s)
  {
    if i < 0 then
      var mag := Digits(-i);
      "-" + (Zeros(Max(0, 2 - |mag|)) + mag)
    else
      var mag := Digits(i);
      Zeros(Max(0, 3 - |mag|)) + mag
  }

  /**
   * `%03d` only pads: it is `strconv.Itoa` widened to three characters, and
   * equal to it once that is three characters or longer.
   */
  lemma Format03dPadsItoa(i: int)
    ensures |Format03d(i)| == Max(3, |Itoa(i)|)
    ensures |Itoa(i)| >= 3 ==> Format03d(i) == Itoa(i)
    ensures Format03d(i)[0] == '-' <==> i < 0
  {
    if i < 0 {
      var mag := Digits(-i);
      var k := Max(0, 2 - |mag|);
      assert Format03d(i) == "-" + (Zeros(k) + mag);
      assert Itoa(i) == "-" + mag;
      if k == 0 {
        assert Zeros(k) + mag == mag;
      }
    } else {
      var mag := Digits(i);
      var k := Max(0, 3 - |mag|);
      assert Format03d(i) == Zeros(k) + mag;
      if k == 0 {
        assert Zeros(k) + mag == mag;
      } else {
        assert Format03d(i)[0] == Zeros(k)[0];
      }
    }
  }

  lemma {:induction false} ValueOfDigits(n: nat)
    ensures ValueOf(Digits(n)) == n
    decreases n
  {
    if n >= 10 {
      var s := Digits(n);
      assert s[..|s| - 1] == Digits(n / 10);
      ValueOfDigits(n / 10);
    }
  }

  lemma {:induction false} ValueOfZeros(k: nat)
    ensures ValueOf(Zeros(k)) == 0
  {
    if k > 0 {
      assert Zeros(k)[..k - 1] == Zeros(k - 1);
      ValueOfZeros(k - 1);
    }
  }

  /** Leading zeros do not change the value of a digit string. */
  lemma {:induction false} ValueOfLeadingZeros(k: nat, s: string)
    requires AllDigits(s)
    ensures AllDigits(Zeros(k) + s) && ValueOf(Zeros(k) + s) == ValueOf(s)
    decreases |s|
  {
    var t := Zeros(k) + s;
    if s == [] {
      assert t == Zeros(k);
      ValueOfZeros(k);
    } else {
      assert t[..|t| - 1] == Zeros(k) + s[..|s| - 1];
      ValueOfLeadingZeros(k, s[..|s| - 1]);
    }
  }

  /** A non-empty digit string parses to its value. */
  lemma ParseUnsigned(s: string)
    requires |s| > 0 && AllDigits(s)
    ensures ParseInt(s) == Some(ValueOf(s))
  {
    assert IsDigit(s[0]);
    ParseNatValue(s);
  }

  /** A minus sign before a non-empty digit string negates its value. */
  lemma ParseNegative(s: string)
    requires |s| > 0 && AllDigits(s)
    ensures ParseInt("-" + s) == Some(-(ValueOf(s) as int))
  {
    assert ("-" + s)[1..] == s;
    ParseNatValue(s);
  }

  /** Rendering with `strconv.Itoa` loses nothing: the reference parser recovers the integer. */
  lemma ParseItoa(i: int)
    ensures ParseInt(Itoa(i)) == Some(i)
  {
    var n := if i < 0 then -i else i;
    assert AllDigits(Digits(n)) && ValueOf(Digits(n)) == n by {
      ValueOfDigits(n);
    }
    if i < 0 {
      ParseNegative(Digits(n));
    } else {
      ParseUnsigned(Digits(n));
    }
  }

  /** Distinct status codes give distinct `status_code:` tag values. */
  lemma ItoaInjective(i: int, j: int)
    ensures Itoa(i) == Itoa(j) <==> i == j
  {
    ParseItoa(i);
    ParseItoa(j);
  }

  /** A digit string whose first digit is not zero has a positive value. */
  lemma {:induction false} ValuePositive(d: string)
    requires 1 <= |d| && AllDigits(d) && d[0] != '0'
    ensures ValueOf(d) >= 1
    decreases |d|
  {
    if |d| > 1 {
      ValuePositive(d[..|d| - 1]);
    }
  }

  /** A minimal digit string is the rendering of its own value. */
  lemma {:induction false} DigitsOfValue(d: string)
    requires Minimal(d)
    ensures Digits(ValueOf(d)) == d
    decreases |d|
  {
    var last := d[|d| - 1];
    if |d| == 1 {
      assert d[..0] == [];
      assert DigitChar(DigitValue(last)) == last;
    } else {
      var init := d[..|d| - 1];
      DigitsOfValue(init);
      ValuePositive(init);
      assert DigitChar(DigitValue(last)) == last;
      assert d == init + [last];
    }
  }

  /**
   * `strconv.Itoa` is the only canonical rendering: a canonical string the
   * reference parser reads as `i` is `Itoa(i)`, so no padded or signed-zero
   * form is ever produced.
   */
  lemma ItoaUnique(s: string, i: int)
    requires Canonical(s) && ParseInt(s) == Some(i)
    ensures s == Itoa(i)
  {
    if |s| > 0 && s[0] == '-' {
      var d := s[1..];
      ParseNatValue(d);
      DigitsOfValue(d);
      ValuePositive(d);
      assert s == "-" + d;
    } else {
      ParseNatValue(s);
      DigitsOfValue(s);
    }
  }

  /** A zero-padded rendering of `n` parses back to `n`, with or without a minus sign. */
  lemma ParsePadded(k: nat, n: nat)
    ensures ParseInt(Zeros(k) + Digits(n)) == Some(n as int)
    ensures ParseInt("-" + (Zeros(k) + Digits(n))) == Some(-(n as int))
  {
    var padded := Zeros(k) + Digits(n);
    assert AllDigits(padded) && ValueOf(padded) == n by {
      ValueOfLeadingZeros(k, Digits(n));
      ValueOfDigits(n);
    }
    ParseUnsigned(padded);
    ParseNegative(padded);
  }

  /** The zero padding of `%03d` loses nothing either. */
  lemma Format03dRoundTrip(i: int)
    ensures ParseInt(Format03d(i)) == Some(i)
  {
    if i < 0 {
      var k := Max(0, 2 - |Digits(-i)|);
      assert Format03d(i) == "-" + (Zeros(k) + Digits(-i));
      ParsePadded(k, -i);
    } else {
      var k := Max(0, 3 - |Digits(i)|);
      assert Format03d(i) == Zeros(k) + Digits(i);
      ParsePadded(k, i);
    }
  }
}
