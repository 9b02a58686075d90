/**
 * JavaScript's `parseFloat` and the two-decimal `toFixed` string, and the round trip the
 * skill editor relies on: a score written with `toFixed(2)` reads back as the rounded score.
 */
module NumberText {
  import opened Wrappers
  import opened Numeric
  import Text

  /** What `parseFloat` reads: a sign and the digit runs before and after the point. */
  datatype Lexeme = Lexeme(negative: bool, whole: string, frac: string)

  /**
   * The prefix `parseFloat` reads: leading whitespace skipped, an optional sign, then the
   * longest prefix of the form `digits[.digits]` or `.digits`; nothing when no digit is read.
   */
  function Scan(s: string): (r: Option<Lexeme>)
    ensures r.Some? ==> DigitString(r.value.whole) && DigitString(r.value.frac)
    ensures r.Some? ==> r.value.whole != [] || r.value.frac != []
  {
    var t := Text.TrimStart(s);
    var u := SignFree(t);
    var whole := Digits(u);
    var frac := FractionDigits(u);
    if whole == [] && frac == [] then None
    else Some(Lexeme(t != [] && t[0] == '-', whole, frac))
  }

  /**
   * JavaScript `parseFloat(s)` for decimal notation: the value of what `Scan` reads, `NaN`
   * when it reads no digit. Exponents and `Infinity` are not modelled.
   */
  function ParseFloat(s: string): (r: JsNumber)
    ensures r.None? <==> Scan(s).None?
  {
    match Scan(s)
    case None => None
    case Some(l) =>
      Some(Signed(l.negative, DecimalReal(l.whole, l.frac)))
  }

  /** The digits after the decimal point that follows the leading digit run, if any. */
  function FractionDigits(u: string): (r: string)
    ensures DigitString(r)
  {
    var rest := u[|Digits(u)|..];
    if rest != [] && rest[0] == '.' then Digits(rest[1..]) else []
  }

  /** The scaled integer `toFixed(p)` rounds `x` to: half away from zero. */
  function FixedUnits(x: real, p: nat): int {
    var k := Pow10(p) as real;
    if x >= 0.0 then (x * k + 0.5).Floor else -((-x * k + 0.5).Floor)
  }

  lemma FixedUnitsValue(x: real, p: nat)
    ensures ToFixed(x, p) == FixedUnits(x, p) as real / Pow10(p) as real
  {
  }

  /** With two decimals, `toFixed` keeps whole hundredths. */
  lemma FixedUnitsHundredths(x: real)
    ensures ToFixed(x, 2) == FixedUnits(x, 2) as real / 100.0
  {
    FixedUnitsValue(x, 2);
    assert Pow10(2) == 100;
  }

  /**
   * `x.toFixed(2)`: the sign, the whole part, a point and exactly two decimals. The sign is
   * taken from `x` itself, not from the rounded value, so a small negative `x` that rounds to
   * zero prints as "-0.00".
   */
  function FixedString2(x: real): (r: string)
    ensures |r| >= 4 && r[|r| - 3] == '.'
    ensures r[0] == '-' <==> x < 0.0
  {
    HundredthsString(x < 0.0, FixedUnits(x, 2))
  }

  /** The decimal text of `|n| / 100` with exactly two decimals, `-` in front when `neg`. */
  function HundredthsString(neg: bool, n: int): (r: string)
    ensures |r| >= 4 && r[|r| - 3] == '.'
    ensures r[0] == '-' <==> neg
  {
    var m: nat := if n < 0 then -n else n;
    var w := NatString(m / 100);
    assert IsDigit(w[0]);
    SignedDecimal(neg, w, [DigitChar(m % 100 / 10), DigitChar(m % 10)])
  }

  /** The text `[-]whole.frac`. */
  function SignedDecimal(neg: bool, whole: string, frac: string): string {
    (if neg then "-" else "") + (whole + ("." + frac))
  }

  /** Unsigned `whole.frac` splits into its two digit runs. */
  lemma ScanBody(w: string, f: string)
    requires DigitString(w) && DigitString(f)
    ensures Digits(w + ("." + f)) == w && FractionDigits(w + ("." + f)) == f
  {
    var body := w + ("." + f);
    DigitsPrefix(w, "." + f);
    assert body[|w|..] == "." + f;
    assert ("." + f)[1..] == f;
    DigitsPrefix(f, []);
    assert f + [] == f;
  }

  /** A minus sign in front of a digit is kept by the whitespace trim and dropped by `SignFree`. */
  lemma ScanMinus(body: string)
    requires body != [] && IsDigit(body[0])
    ensures Text.TrimStart("-" + body) == "-" + body && SignFree("-" + body) == body
  {
    var s := "-" + body;
    assert s[0] == '-' && s[1..] == body;
    Text.TrimStartNoSpace(s);
  }

  /** `[-]whole.frac` is read whole: its sign and both digit runs. */
  lemma ScanSignedDecimal(neg: bool, w: string, f: string)
    requires w != [] && DigitString(w) && DigitString(f)
    ensures Scan(SignedDecimal(neg, w, f)) == Some(Lexeme(neg, w, f))
  {
    var body := w + ("." + f);
    ScanBody(w, f);
    if neg {
      ScanMinus(body);
    } else {
      assert SignedDecimal(neg, w, f) == body;
      ScanUnsigned(body);
    }
  }

  /** `parseFloat` of `[-]whole.frac` is the signed value of both digit runs. */
  lemma ParseFloatParts(neg: bool, w: string, f: string)
    requires w != [] && DigitString(w) && DigitString(f)
    ensures ParseFloat(SignedDecimal(neg, w, f)) == Some(Signed(neg, DecimalReal(w, f)))
  {
    ScanSignedDecimal(neg, w, f);
  }

  /** The same, for any name `v` of the signed value. */
  lemma ParseValue(neg: bool, w: string, f: string, v: real)
    requires w != [] && DigitString(w) && DigitString(f)
    requires Signed(neg, DecimalReal(w, f)) == v
    ensures ParseFloat(SignedDecimal(neg, w, f)) == Some(v)
  {
    ParseFloatParts(neg, w, f);
  }

  /** The two-decimal value rebuilt from its whole part and its two decimals. */
  lemma HundredthsValue(n: int, m: nat)
    requires m == if n < 0 then -n else n
    ensures var v := (m / 100) as real + (10 * (m % 100 / 10) + m % 10) as real / 100.0;
      (if n < 0 then -v else v) == n as real / 100.0
  {
    assert 10 * (m % 100 / 10) + m % 10 == m % 100;
    assert (m / 100) as real + (m % 100) as real / 100.0 == m as real / 100.0;
  }

  /** `w.ab` with two decimal digits `a`, `b` reads as `w + (10a + b) / 100`. */
  lemma TwoDecimalsReal(w: string, a: nat, b: nat)
    requires DigitString(w) && a < 10 && b < 10
    ensures DecimalReal(w, [DigitChar(a), DigitChar(b)]) == DecimalValue(w) as real + (10 * a + b) as real / 100.0
  {
    var f := [DigitChar(a), DigitChar(b)];
    assert f[1..][1..] == [];
    assert FractionValue(f[1..]) == b as real / 10.0;
  }

  /**
   * The two-decimal text of `n / 100` reads back as `n / 100`, whichever sign it is printed
   * with when `n` is 0.
   */
  lemma ParseHundredths(neg: bool, n: int, v: real)
    requires v == n as real / 100.0
    requires if neg then n <= 0 else n >= 0
    ensures ParseFloat(HundredthsString(neg, n)) == Some(v)
  {
    var m: nat := if n < 0 then -n else n;
    var w, a, b := NatString(m / 100), m % 100 / 10, m % 10;
    var f := [DigitChar(a), DigitChar(b)];
    NatStringValue(m / 100);
    TwoDecimalsReal(w, a, b);
    HundredthsValue(n, m);
    assert Signed(neg, DecimalReal(w, f)) == v;
    ParseValue(neg, w, f, v);
  }

  /** `toFixed` rounds a negative value to zero or below and any other value to zero or above. */
  lemma FixedUnitsSign(x: real, p: nat)
    ensures if x < 0.0 then FixedUnits(x, p) <= 0 else FixedUnits(x, p) >= 0
  {
  }

  /** Reading back `x.toFixed(2)` with `parseFloat` gives the rounded value. */
  lemma ParseFixedString2(x: real)
    ensures ParseFloat(FixedString2(x)) == Some(ToFixed(x, 2))
  {
    FixedUnitsHundredths(x);
    FixedUnitsSign(x, 2);
    ParseHundredths(x < 0.0, FixedUnits(x, 2), ToFixed(x, 2));
  }

  /** A negative value that rounds to zero keeps its sign: `(-0.001).toFixed(2)` is "-0.00". */
  lemma SmallNegativeKeepsSign()
    ensures FixedString2(-0.001) == "-0.00"
  {
    assert FixedUnits(-0.001, 2) == 0;
    assert NatString(0) == "0";
  }
}
