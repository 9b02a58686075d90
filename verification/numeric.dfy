/**
 * Arithmetic with the semantics of the two source languages: sums, Python's `int()`
 * truncation and `round()`, JavaScript's `Math.round`, `toFixed`, `parseInt` and `Number`.
 * Values are exact reals; binary floating-point representation error is not modelled.
 */
module Numeric {
  import opened Wrappers
  import Text

  function Sum(xs: seq<real>): real {
    if xs == [] then 0.0 else xs[0] + Sum(xs[1..])
  }

  lemma SumAppend(xs: seq<real>, ys: seq<real>)
    ensures Sum(xs + ys) == Sum(xs) + Sum(ys)
  {
    if xs == [] {
      assert xs + ys == ys;
    } else {
      assert (xs + ys)[1..] == xs[1..] + ys;
      SumAppend(xs[1..], ys);
    }
  }

  function SumNat(xs: seq<nat>): nat {
    if xs == [] then 0 else xs[0] + SumNat(xs[1..])
  }

  lemma SumNatAppend(xs: seq<nat>, ys: seq<nat>)
    ensures SumNat(xs + ys) == SumNat(xs) + SumNat(ys)
  {
    if xs == [] {
      assert xs + ys == ys;
    } else {
      assert (xs + ys)[1..] == xs[1..] + ys;
      SumNatAppend(xs[1..], ys);
    }
  }

  function Max(a: int, b: int): int { if a < b then b else a }
  function Min(a: int, b: int): int { if a < b then a else b }
  function MinR(a: real, b: real): real { if a < b then a else b }
  function MaxR(a: real, b: real): real { if a < b then b else a }

  function Pow10(p: nat): (r: nat)
    ensures r >= 1
  {
    if p == 0 then 1 else 10 * Pow10(p - 1)
  }

  /** Python `int(x)`: rounds toward zero. */
  function Trunc(x: real): (r: int)
    ensures 0.0 <= x ==> r as real <= x < r as real + 1.0
    ensures x < 0.0 ==> r as real - 1.0 < x <= r as real
  {
    if x >= 0.0 then x.Floor else -((-x).Floor)
  }

  /** The nearest integer, ties to the even one (Python's `round(x)`). */
  function RoundHalfEven(x: real): (r: int)
    ensures x - 0.5 <= r as real <= x + 0.5
  {
    var f := x.Floor;
    var frac := x - f as real;
    if frac < 0.5 then f
    else if frac > 0.5 then f + 1
    else if f % 2 == 0 then f else f + 1
  }

  /** Python `round(x, p)` on the exact value of `x`. */
  function PyRound(x: real, p: nat): (r: real)
    ensures x - 0.5 / Pow10(p) as real <= r <= x + 0.5 / Pow10(p) as real
  {
    var k := Pow10(p) as real;
    var n := RoundHalfEven(x * k);
    ScaleBack(x, n as real, k);
    n as real / k
  }

  /** Dividing a value within one half of `x * k` by `k` lands within `0.5 / k` of `x`. */
  lemma ScaleBack(x: real, n: real, k: real)
    requires k >= 1.0
    requires x * k - 0.5 <= n <= x * k + 0.5
    ensures x - 0.5 / k <= n / k <= x + 0.5 / k
  {
    assert n / k - x == (n - x * k) / k;
    assert (n - x * k) / k <= 0.5 / k;
    assert -(0.5 / k) <= (n - x * k) / k;
  }

  /** JavaScript `Math.round(x)`: ties go toward +infinity. */
  function JsRound(x: real): (r: int)
    ensures x - 0.5 < r as real <= x + 0.5
  {
    (x + 0.5).Floor
  }

  /** The numeric value of JavaScript `x.toFixed(p)`: nearest multiple of 10^-p, ties away from zero. */
  function ToFixed(x: real, p: nat): (r: real)
    ensures x - 0.5 / Pow10(p) as real <= r <= x + 0.5 / Pow10(p) as real
  {
    var k := Pow10(p) as real;
    var n := if x >= 0.0 then (x * k + 0.5).Floor else -((-x * k + 0.5).Floor);
    ScaleBack(x, n as real, k);
    n as real / k
  }

  predicate IsDigit(c: char) { '0' <= c <= '9' }

  function DigitValue(c: char): nat
    requires IsDigit(c)
  {
    c as int - '0' as int
  }

  /** The leading run of decimal digits. */
  function Digits(s: string): (r: string)
    ensures |r| <= |s| && r == s[..|r|]
    ensures forall i :: 0 <= i < |r| ==> IsDigit(r[i])
    ensures |r| < |s| ==> !IsDigit(s[|r|])
  {
    if s == [] || !IsDigit(s[0]) then [] else [s[0]] + Digits(s[1..])
  }

  /** The value of a string of decimal digits, most significant first. */
  function DecimalValue(ds: string): nat
    requires forall i :: 0 <= i < |ds| ==> IsDigit(ds[i])
  {
    if ds == [] then 0 else DecimalValue(ds[..|ds| - 1]) * 10 + DigitValue(ds[|ds| - 1])
  }

  /** The decimal digit of a value below ten. */
  function DigitChar(d: nat): (r: char)
    requires d < 10
    ensures IsDigit(r) && DigitValue(r) == d
  {
    ('0' as int + d) as char
  }

  /** `str(n)` for a natural number: its decimal digits without leading zeros. */
  function NatString(n: nat): (r: string)
    ensures r != [] && forall i :: 0 <= i < |r| ==> IsDigit(r[i])
    ensures |r| > 1 ==> r[0] != '0'
  {
    if n < 10 then [DigitChar(n)] else NatString(n / 10) + [DigitChar(n % 10)]
  }

  /** Reading back the digits of `str(n)` gives `n`. */
  lemma {:induction false} NatStringValue(n: nat)
    ensures DecimalValue(NatString(n)) == n
  {
    if n >= 10 {
      NatStringValue(n / 10);
      var r := NatString(n);
      assert r[..|r| - 1] == NatString(n / 10);
    }
  }

  /** A `0x` or `0X` prefix, which makes `parseInt` without a radix read hexadecimal. */
  predicate HexPrefixed(u: string) {
    |u| >= 2 && u[0] == '0' && (u[1] == 'x' || u[1] == 'X')
  }

  predicate IsHexDigit(c: char) { IsDigit(c) || 'a' <= c <= 'f' || 'A' <= c <= 'F' }

  function HexDigitValue(c: char): (r: nat)
    requires IsHexDigit(c)
    ensures r < 16
  {
    if IsDigit(c) then DigitValue(c)
    else if 'a' <= c <= 'f' then c as int - 'a' as int + 10
    else c as int - 'A' as int + 10
  }

  /** The leading run of hexadecimal digits. */
  function HexDigits(s: string): (r: string)
    ensures |r| <= |s| && r == s[..|r|]
    ensures forall i :: 0 <= i < |r| ==> IsHexDigit(r[i])
    ensures |r| < |s| ==> !IsHexDigit(s[|r|])
  {
    if s == [] || !IsHexDigit(s[0]) then [] else [s[0]] + HexDigits(s[1..])
  }

  /** The value of a string of hexadecimal digits, most significant first. */
  function HexValue(hs: string): nat
    requires forall i :: 0 <= i < |hs| ==> IsHexDigit(hs[i])
  {
    if hs == [] then 0 else HexValue(hs[..|hs| - 1]) * 16 + HexDigitValue(hs[|hs| - 1])
  }

  /**
   * The digits `parseInt` without a radix reads from sign-free text: hexadecimal ones after a
   * `0x` prefix, decimal ones otherwise.
   */
  function IntDigits(u: string): string {
    if HexPrefixed(u) then HexDigits(u[2..]) else Digits(u)
  }

  /**
   * JavaScript `parseInt(s)` without a radix: skips leading whitespace, reads an optional
   * sign, then a `0x`/`0X` prefix and the longest hexadecimal digit run, or else the longest
   * decimal digit run; `None` stands for `NaN`.
   */
  function ParseInt(s: string): (r: Option<int>)
    ensures r.None? <==> IntDigits(SignFree(Text.TrimStart(s))) == []
  {
    var t := Text.TrimStart(s);
    var negative := t != [] && t[0] == '-';
    var u := SignFree(t);
    if IntDigits(u) == [] then None
    else Some(if negative then -(IntValue(u) as int) else IntValue(u))
  }

  /** The value of the digits `IntDigits` reads. */
  function IntValue(u: string): nat {
    if HexPrefixed(u) then HexValue(HexDigits(u[2..])) else DecimalValue(Digits(u))
  }

  function SignFree(t: string): string {
    if t != [] && (t[0] == '-' || t[0] == '+') then t[1..] else t
  }

  /** A JavaScript number that may be `NaN`. */
  type JsNumber = Option<real>

  /**
   * JavaScript `Number(s)` / `parseFloat`-free conversion for the plain decimal notation
   * the forms produce: surrounding whitespace is ignored, the empty string is 0, an
   * optional sign, digits and an optional fraction are accepted; anything else is `NaN`.
   */
  function ToNumber(s: string): (r: JsNumber)
    ensures Text.Strip(s) == [] ==> r == Some(0.0)
  {
    var t := Text.Strip(s);
    if t == [] then Some(0.0) else DecimalLiteral(t)
  }

  /** A non-empty, already trimmed literal: optional sign, digits, optional fraction. */
  function DecimalLiteral(t: string): (r: JsNumber)
    requires t != []
  {
    var u := SignFree(t);
    var negative := t[0] == '-';
    var whole := Digits(u);
    var rest := u[|whole|..];
    if rest == [] then
      if whole == [] then None else Some(Signed(negative, DecimalValue(whole) as real))
    else FractionLiteral(negative, whole, rest)
  }

  /** The literal's value when something follows the whole digits: it must be `.digits`. */
  function FractionLiteral(negative: bool, whole: string, rest: string): (r: JsNumber)
    requires DigitString(whole)
    requires rest != []
  {
    if rest[0] != '.' then None
    else
      var frac := Digits(rest[1..]);
      if |frac| != |rest| - 1 || (whole == [] && frac == []) then None
      else Some(Signed(negative, DecimalReal(whole, frac)))
  }

  /** `-v` when a minus sign was read, `v` otherwise. */
  function Signed(negative: bool, v: real): real {
    if negative then -v else v
  }

  predicate DigitString(ds: string) {
    forall i :: 0 <= i < |ds| ==> IsDigit(ds[i])
  }

  /** The value of `whole.frac` written with the given digit runs. */
  function DecimalReal(whole: string, frac: string): real
    requires DigitString(whole) && DigitString(frac)
  {
    DecimalValue(whole) as real + FractionValue(frac)
  }

  /** The value of the decimals `0.frac`: `0.d1d2...` is `(d1 + 0.d2...) / 10`. */
  function FractionValue(frac: string): real
    requires DigitString(frac)
  {
    if frac == [] then 0.0 else (DigitValue(frac[0]) as real + FractionValue(frac[1..])) / 10.0
  }

  /** Euclidean division is determined by its quotient-remainder decomposition. */
  lemma DivModUnique(x: int, n: int, q: int, r: int)
    requires n > 0 && 0 <= r < n && x == q * n + r
    ensures x / n == q && x % n == r
  {
    var q0, r0 := x / n, x % n;
    assert x == q0 * n + r0;
    var z := q - q0;
    assert z * n == r0 - r;
    if z >= 1 {
      assert false;
    } else if z <= -1 {
      assert false;
    }
  }

  /** A run of digits followed by a non-digit (or nothing) is read up to that point. */
  lemma {:induction false} DigitsPrefix(ds: string, rest: string)
    requires forall i :: 0 <= i < |ds| ==> IsDigit(ds[i])
    requires rest == [] || !IsDigit(rest[0])
    ensures Digits(ds + rest) == ds
  {
    if ds != [] {
      assert (ds + rest)[1..] == ds[1..] + rest;
      DigitsPrefix(ds[1..], rest);
    } else {
      assert ds + rest == rest;
    }
  }

  /** Text starting with a digit is left alone by the whitespace trim and by `SignFree`. */
  lemma ScanUnsigned(body: string)
    requires body != [] && IsDigit(body[0])
    ensures Text.TrimStart(body) == body && SignFree(body) == body
  {
    Text.TrimStartNoSpace(body);
  }

  /** A plain run of decimal digits is read by `parseInt` as its value. */
  lemma ParseIntDigits(ds: string)
    requires ds != [] && forall i :: 0 <= i < |ds| ==> IsDigit(ds[i])
    ensures ParseInt(ds) == Some(DecimalValue(ds))
  {
    ScanUnsigned(ds);
    DecimalIntDigits(ds);
    ParseIntUnsigned(ds);
  }

  /** A digit string has no hexadecimal prefix, so `parseInt` reads it as decimal. */
  lemma DecimalIntDigits(ds: string)
    requires ds != [] && forall i :: 0 <= i < |ds| ==> IsDigit(ds[i])
    ensures IntDigits(ds) == ds && IntValue(ds) == DecimalValue(ds)
  {
    DigitsPrefix(ds, []);
    assert ds + [] == ds;
    assert !HexPrefixed(ds) by {
      if |ds| >= 2 {
        assert IsDigit(ds[1]);
      }
    }
  }

  /** Text with no leading whitespace or sign is read as the value of its digits. */
  lemma ParseIntUnsigned(u: string)
    requires Text.TrimStart(u) == u && SignFree(u) == u && IntDigits(u) != []
    ensures ParseInt(u) == Some(IntValue(u))
  {
  }

  /** `parseInt` reads `0x` followed by hexadecimal digits as their value. */
  lemma ParseIntHex(hs: string)
    requires hs != [] && forall i :: 0 <= i < |hs| ==> IsHexDigit(hs[i])
    ensures ParseInt("0x" + hs) == Some(HexValue(hs))
  {
    var s := "0x" + hs;
    Text.TrimStartNoSpace(s);
    assert SignFree(s) == s;
    assert HexPrefixed(s) && s[2..] == hs;
    HexDigitsAll(hs);
    assert IntDigits(s) == hs;
    ParseIntUnsigned(s);
    assert IntValue(s) == HexValue(hs);
  }

  /** A bare `0x` prefix, or one followed by no hexadecimal digit, is `NaN`, not 0. */
  lemma ParseIntBareHex(rest: string)
    requires rest == [] || !IsHexDigit(rest[0])
    ensures ParseInt("0x" + rest).None?
  {
    var s := "0x" + rest;
    Text.TrimStartNoSpace(s);
    assert SignFree(s) == s;
    assert s[2..] == rest;
  }

  lemma HexDigitsAll(hs: string)
    requires forall i :: 0 <= i < |hs| ==> IsHexDigit(hs[i])
    ensures HexDigits(hs) == hs
  {
    if hs != [] {
      HexDigitsAll(hs[1..]);
    }
  }

  /** A plain run of decimal digits is read by `Number` as its value. */
  lemma ToNumberDigits(ds: string)
    requires ds != [] && forall i :: 0 <= i < |ds| ==> IsDigit(ds[i])
    ensures ToNumber(ds) == Some(DecimalValue(ds) as real)
  {
    assert !Text.IsSpace(ds[0]) && !Text.IsSpace(ds[|ds| - 1]);
    assert Text.TrimStart(ds) == ds;
    assert Text.TrimEnd(ds) == ds;
    assert Text.Strip(ds) == ds;
    DigitLiteral(ds);
  }

  lemma DigitLiteral(ds: string)
    requires ds != [] && forall i :: 0 <= i < |ds| ==> IsDigit(ds[i])
    ensures DecimalLiteral(ds) == Some(DecimalValue(ds) as real)
  {
    assert SignFree(ds) == ds && ds[0] != '-';
    DigitsPrefix(ds, []);
    assert ds + [] == ds;
    assert ds[|ds|..] == [];
  }

  /** `parseInt(String(n))` and `Number(String(n))` are both `n`. */
  lemma ParseNatString(n: nat)
    ensures ParseInt(NatString(n)) == Some(n)
    ensures ToNumber(NatString(n)) == Some(n as real)
  {
    ParseIntDigits(NatString(n));
    ToNumberDigits(NatString(n));
    NatStringValue(n);
  }
}
