/** Numeric ratio tokens.

    The ratio parser asks JavaScript's `isNaN(token)` whether a token is a
    number and `Number(token)` for its value. Both coerce the string with
    JavaScript's full numeric grammar, in which `""` and all-whitespace
    strings count as the number 0 and hexadecimal, binary, octal, exponent
    and `Infinity` literals are numbers too. This model approximates that
    grammar by plain decimal literals only: an optional `+` or `-`, then
    digits with at most one `.`, and at least one digit. Values are exact
    `real`s rather than IEEE doubles.
 */
module Decimal {
  import opened Outcomes
  import Text

  predicate IsDigit(c: char) {
    '0' <= c <= '9'
  }

  predicate AllDigits(s: string) {
    forall i :: 0 <= i < |s| ==> IsDigit(s[i])
  }

  function DigitValue(c: char): (d: nat)
    requires IsDigit(c)
    ensures d < 10
  {
    c as int - '0' as int
  }

  function DigitChar(d: nat): (c: char)
    requires d < 10
    ensures IsDigit(c) && DigitValue(c) == d
  {
    ('0' as int + d) as char
  }

  /** The value of a string of decimal digits, most significant first. */
  function NatValue(s: string): nat
    requires AllDigits(s)
    decreases |s|
  {
    if s == [] then 0 else NatValue(s[..|s| - 1]) * 10 + DigitValue(s[|s| - 1])
  }

  function Pow10(n: nat): (p: nat)
    ensures p >= 1
  {
    if n == 0 then 1 else 10 * Pow10(n - 1)
  }

  predicate IsNegative(t: string) {
    |t| > 0 && t[0] == '-'
  }

  /** `t` without its leading sign, if it has one. */
  function Magnitude(t: string): string {
    if |t| > 0 && (t[0] == '+' || t[0] == '-') then t[1..] else t
  }

  /** Digits with at most one `.`, and at least one digit. */
  predicate IsUnsignedDecimal(u: string) {
    match Text.IndexOf(u, '.')
    case None => |u| > 0 && AllDigits(u)
    case Some(k) => |u| > 1 && AllDigits(u[..k]) && AllDigits(u[k + 1..])
  }

  /** The model's stand-in for `!isNaN(t)`. */
  predicate IsNumericToken(t: string) {
    IsUnsignedDecimal(Magnitude(t))
  }

  function UnsignedValue(u: string): (v: real)
    requires IsUnsignedDecimal(u)
  {
    match Text.IndexOf(u, '.')
    case None => NatValue(u) as real
    case Some(k) =>
      NatValue(u[..k]) as real + NatValue(u[k + 1..]) as real / Pow10(|u| - k - 1) as real
  }

  /** The model's stand-in for `Number(t)`. */
  function TokenValue(t: string): real
    requires IsNumericToken(t)
  {
    if IsNegative(t) then -UnsignedValue(Magnitude(t)) else UnsignedValue(Magnitude(t))
  }

  /** Every digit of `t` is `0` (signs and the point are not digits). */
  predicate AllZeroDigits(t: string) {
    forall i :: 0 <= i < |t| && IsDigit(t[i]) ==> t[i] == '0'
  }

  lemma {:induction false} NatValueZeroIff(s: string)
    requires AllDigits(s)
    ensures NatValue(s) == 0 <==> AllZeroDigits(s)
    decreases |s|
  {
    if s != [] {
      var p := s[..|s| - 1];
      NatValueZeroIff(p);
      assert forall i :: 0 <= i < |p| ==> p[i] == s[i];
      if AllZeroDigits(s) {
        assert s[|s| - 1] == '0';
      }
    }
  }

  lemma AllZeroDigitsSplit(u: string, k: nat)
    requires k < |u| && !IsDigit(u[k])
    ensures AllZeroDigits(u) <==> AllZeroDigits(u[..k]) && AllZeroDigits(u[k + 1..])
  {
    if AllZeroDigits(u[..k]) && AllZeroDigits(u[k + 1..]) {
      forall i | 0 <= i < |u| && IsDigit(u[i]) ensures u[i] == '0' {
        if i < k {
          assert u[..k][i] == u[i];
        } else {
          assert u[k + 1..][i - k - 1] == u[i];
        }
      }
    }
    if AllZeroDigits(u) {
      var b := u[k + 1..];
      forall i | 0 <= i < |b| && IsDigit(b[i]) ensures b[i] == '0' {
        assert b[i] == u[i + k + 1];
      }
    }
  }

  lemma UnsignedValueZeroIff(u: string)
    requires IsUnsignedDecimal(u)
    ensures UnsignedValue(u) >= 0.0
    ensures UnsignedValue(u) == 0.0 <==> AllZeroDigits(u)
  {
    match Text.IndexOf(u, '.')
    case None =>
      NatValueZeroIff(u);
    case Some(k) =>
      var a, b := u[..k], u[k + 1..];
      NatValueZeroIff(a);
      NatValueZeroIff(b);
      AllZeroDigitsSplit(u, k);
      var p := Pow10(|u| - k - 1) as real;
      assert NatValue(b) as real / p >= 0.0;
      assert NatValue(b) as real / p == 0.0 <==> NatValue(b) == 0;
  }

  /** `Number(t) === 0` holds exactly when every digit of `t` is `0`
      (so `"0"`, `"-0"`, `"0.00"` and `"+.0"` are all zero). */
  lemma ZeroIff(t: string)
    requires IsNumericToken(t)
    ensures TokenValue(t) == 0.0 <==> AllZeroDigits(t)
  {
    UnsignedValueZeroIff(Magnitude(t));
    MagnitudeDigits(t);
  }

  /** A token is a positive number exactly when it has no minus sign and
      some digit other than `0`. */
  lemma PositiveIff(t: string)
    requires IsNumericToken(t)
    ensures TokenValue(t) > 0.0 <==> !IsNegative(t) && !AllZeroDigits(t)
  {
    UnsignedValueZeroIff(Magnitude(t));
    MagnitudeDigits(t);
  }

  lemma MagnitudeDigits(t: string)
    ensures AllZeroDigits(t) <==> AllZeroDigits(Magnitude(t))
  {
    if |t| > 0 && (t[0] == '+' || t[0] == '-') {
      var m := Magnitude(t);
      assert forall i :: 0 <= i < |m| ==> m[i] == t[i + 1];
      if AllZeroDigits(m) {
        forall i | 0 <= i < |t| && IsDigit(t[i]) ensures t[i] == '0' {
          assert i > 0;
          assert m[i - 1] == t[i];
        }
      }
    }
  }

  /** The decimal rendering of `n`, as `String(n)` gives it. */
  function NatToString(n: nat): (s: string)
    ensures |s| >= 1 && AllDigits(s)
  {
    if n < 10 then [DigitChar(n)] else NatToString(n / 10) + [DigitChar(n % 10)]
  }

  lemma {:induction false} NatToStringRoundTrip(n: nat)
    ensures NatValue(NatToString(n)) == n
  {
    if n >= 10 {
      var s := NatToString(n);
      assert s[..|s| - 1] == NatToString(n / 10);
      NatToStringRoundTrip(n / 10);
    } else {
      var s := NatToString(n);
      assert s[..|s| - 1] == [];
    }
  }

  /** A rendered natural number is a numeric token whose value is that
      number: rendering and parsing are inverse. */
  lemma NatTokenRoundTrip(n: nat)
    ensures IsNumericToken(NatToString(n))
    ensures TokenValue(NatToString(n)) == n as real
  {
    var s := NatToString(n);
    assert s[0] != '+' && s[0] != '-';
    assert Magnitude(s) == s;
    assert '.' !in s;
    NatToStringRoundTrip(n);
  }
}
