/**
 The slice of Python's `decimal.Decimal` the bot uses for money, over exact
 `real` values: parsing a decimal string (`dec`), quantizing to three places
 with ROUND_HALF_UP, and the `money` rendering that strips trailing zeros.
 */
module Decimal {
  import opened Common

  function Pow10(n: nat): (p: real)
    ensures p >= 1.0
  {
    if n == 0 then 1.0 else 10.0 * Pow10(n - 1)
  }

  /** The value of the digits after a decimal point. */
  function Fraction(fp: string): real
    requires AllDigits(fp)
  {
    DigitsValue(fp) as real / Pow10(|fp|)
  }

  /** The value of an unsigned decimal literal `I`, `I.F`, `.F` or `I.` with at least one digit. */
  function ParseUnsigned(u: string): Option<real> {
    var k := IndexOf(u, '.');
    if k == |u| then
      if |u| > 0 && AllDigits(u) then Some(DigitsValue(u) as real) else None
    else
      var ip, fp := u[..k], u[k + 1..];
      if AllDigits(ip) && AllDigits(fp) && |ip| + |fp| > 0 then
        Some(DigitsValue(ip) as real + Fraction(fp))
      else None
  }

  /**
   `Decimal(s)` on the literal forms the bot produces and reads: surrounding
   whitespace, an optional sign, then an unsigned decimal literal. `None`
   stands for the `InvalidOperation` the bot catches.
   */
  function ParseDecimal(s: string): Option<real> {
    var t := Strip(s);
    if |t| > 0 && (t[0] == '-' || t[0] == '+') then
      match ParseUnsigned(t[1..])
      case Some(v) => Some(if t[0] == '-' then -v else v)
      case None => None
    else ParseUnsigned(t)
  }

  /** `dec(v, fallback)`: the parsed value, or the fallback when the text is not a decimal. */
  function Dec(s: string, fallback: real): (r: real)
    ensures ParseDecimal(s).Some? ==> r == ParseDecimal(s).value
    ensures ParseDecimal(s).None? ==> r == fallback
  {
    ParseDecimal(s).GetOr(fallback)
  }

  /** `Decimal()` skips an information separator after a literal: `dec("5\x1c")` is 5. */
  lemma DecSkipsSeparator(d: string, c: char, fallback: real)
    requires IsDigitString(d) && IsSeparator(c)
    ensures Dec(d + [c], fallback) == DigitsValue(d) as real
  {
    ParseIntSeparator(d, c);
    ParseDigitsOnly(d);
    assert IsDigit(d[0]);
    hide Strip, ParseUnsigned, DigitsValue;
  }

  /**
   Quantizing to 0.001 with ROUND_HALF_UP, as an integer count of thousandths:
   the nearest thousandth, ties going away from zero.
   */
  function Round3(x: real): (k: int)
    ensures x >= 0.0 ==> k >= 0 && k as real - 0.5 <= x * 1000.0 < k as real + 0.5
    ensures x < 0.0 ==> k <= 0 && k as real - 0.5 < x * 1000.0 <= k as real + 0.5
  {
    if x >= 0.0 then (x * 1000.0 + 0.5).Floor else -((-x) * 1000.0 + 0.5).Floor
  }

  /** `x.quantize(Decimal("0.001"), rounding=ROUND_HALF_UP)` as a value. */
  function Quantize3(x: real): real {
    Round3(x) as real / 1000.0
  }

  /** Quantizing a value that already has three places changes nothing. */
  lemma Round3Idempotent(x: real)
    ensures Round3(Quantize3(x)) == Round3(x)
  {
    var k := Round3(x);
    assert Quantize3(x) * 1000.0 == k as real;
  }

  /** Rounding error of the quantization is at most half a thousandth. */
  lemma Quantize3Error(x: real)
    ensures -0.0005 <= Quantize3(x) - x <= 0.0005
  {
  }

  /**
   What a NUMERIC(18,6) column keeps of a value, as a count of millionths:
   PostgreSQL rounds to six places with ties away from zero.
   */
  function Round6(x: real): (k: int)
    ensures x >= 0.0 ==> k >= 0 && k as real - 0.5 <= x * 1000000.0 < k as real + 0.5
    ensures x < 0.0 ==> k <= 0 && k as real - 0.5 < x * 1000000.0 <= k as real + 0.5
  {
    if x >= 0.0 then (x * 1000000.0 + 0.5).Floor else -((-x) * 1000000.0 + 0.5).Floor
  }

  /** The value a NUMERIC(18,6) column stores. */
  function Numeric6(x: real): real {
    Round6(x) as real / 1000000.0
  }

  /** A whole number of millionths is stored as it is. */
  lemma Round6Exact(k: int)
    ensures Round6(k as real / 1000000.0) == k
  {
    var y := k as real / 1000000.0;
    assert y * 1000000.0 == k as real;
    hide Round6;
  }

  /** Storing moves a value by at most half a millionth, and a stored value is stored unchanged. */
  lemma Numeric6Spec(x: real)
    ensures -0.0000005 <= Numeric6(x) - x <= 0.0000005
    ensures Numeric6(Numeric6(x)) == Numeric6(x)
  {
    Round6Exact(Round6(x));
    hide Round6;
  }

  /** A value with three places, such as a quantized price, fits the column exactly. */
  lemma Numeric6Thousandths(x: real)
    ensures Numeric6(Quantize3(x)) == Quantize3(x)
  {
    var k := Round3(x);
    assert Quantize3(x) == (k * 1000) as real / 1000000.0;
    Round6Exact(k * 1000);
    hide Round6, Round3;
  }

  /** A seventh decimal place is rounded away: 10.1234567 is stored as 10.123457. */
  lemma Numeric6Example()
    ensures Numeric6(10.1234567) == 10.123457
  {
    assert 10.1234567 * 1000000.0 + 0.5 == 10123457.2;
    assert (10123457.2).Floor == 10123457;
  }

  /** The three fraction digits `format(q, "f")` prints for a quantized value. */
  function Frac3(f: nat): (r: string)
    requires f < 1000
    ensures |r| == 3 && AllDigits(r) && DigitsValue(r) == f
  {
    var d0, d1, d2 := f / 100, f / 10 % 10, f % 10;
    var r := [DigitChar(d0), DigitChar(d1), DigitChar(d2)];
    assert r[..2][..1] == [r[0]] && r[..2] == [r[0], r[1]] && [r[0]][..0] == [];
    assert DigitValue(r[0]) == d0 && DigitValue(r[1]) == d1 && DigitValue(r[2]) == d2;
    assert DigitsValue(r[..2][..1]) == d0;
    assert DigitsValue(r[..2]) == d0 * 10 + d1;
    assert DigitsValue(r) == (d0 * 10 + d1) * 10 + d2;
    assert f / 10 == d0 * 10 + d1;
    r
  }

  /**
   `money(v)`: quantize to three places, print with `format(q, "f")` (a `-`
   when the value is negative, even if it rounds to zero), then strip trailing
   zeros and a trailing point.
   */
  function Money(x: real): string {
    var k := Round3(x);
    MoneyText(x < 0.0, if k < 0 then -k else k)
  }

  /** The text `money` prints for `a` thousandths, with a leading `-` when `negative`. */
  function MoneyText(negative: bool, a: nat): string {
    var s := (if negative then "-" else "") + NatToString(a / 1000) + "." + Frac3(a % 1000);
    var t := RStripChar(RStripChar(s, '0'), '.');
    if |t| > 0 then t else "0"
  }

  // ---------------------------------------------------------------------------
  // Money renders exactly the quantized value.

  lemma ScaleTen(a: real, b: real)
    requires b > 0.0
    ensures (10.0 * a) / (10.0 * b) == a / b
  {
  }

  /** Stripping trailing zeros of a fraction keeps its value. */
  lemma {:induction false} StripZerosValue(f: string)
    requires AllDigits(f)
    ensures AllDigits(RStripChar(f, '0'))
    ensures Fraction(RStripChar(f, '0')) == Fraction(f)
    decreases |f|
  {
    if |f| > 0 && f[|f| - 1] == '0' {
      var g := f[..|f| - 1];
      StripZerosValue(g);
      assert RStripChar(f, '0') == RStripChar(g, '0');
      assert DigitsValue(f) == DigitsValue(g) * 10;
      assert Pow10(|f|) == 10.0 * Pow10(|g|);
      ScaleTen(DigitsValue(g) as real, Pow10(|g|));
    }
  }

  /** Stripping zeros from `P.F` stops at the point and strips only inside the fraction. */
  lemma {:induction false} StripZerosAfterPoint(p: string, f: string)
    requires AllDigits(f)
    ensures RStripChar(p + "." + f, '0') == p + "." + RStripChar(f, '0')
    decreases |f|
  {
    var s := p + "." + f;
    if |f| > 0 && f[|f| - 1] == '0' {
      assert s[..|s| - 1] == p + "." + f[..|f| - 1];
      StripZerosAfterPoint(p, f[..|f| - 1]);
    } else if |f| > 0 {
      assert s[|s| - 1] == f[|f| - 1];
    }
  }

  /** Removing the trailing point: `P.` becomes `P`, and `P.G` with a digit at the end stays. */
  lemma StripPoint(p: string, g: string)
    requires |p| > 0 && AllDigits(p) && AllDigits(g)
    ensures RStripChar(p + "." + g, '.') == if |g| == 0 then p else p + "." + g
  {
    var s := p + "." + g;
    if |g| == 0 {
      assert s[..|s| - 1] == p;
      assert RStripChar(p, '.') == p;
    } else {
      assert s[|s| - 1] == g[|g| - 1];
    }
  }

  lemma IndexOfNoPoint(p: string)
    requires AllDigits(p)
    ensures IndexOf(p, '.') == |p|
  {
  }

  lemma IndexOfPointAfterDigits(p: string, g: string)
    requires AllDigits(p)
    ensures IndexOf(p + "." + g, '.') == |p|
  {
    var s := p + "." + g;
    assert forall i :: 0 <= i < |p| ==> s[i] == p[i];
    assert s[|p|] == '.';
  }

  lemma ParseDigitsOnly(p: string)
    requires |p| > 0 && AllDigits(p)
    ensures ParseUnsigned(p) == Some(DigitsValue(p) as real)
  {
    IndexOfNoPoint(p);
  }

  /** An unsigned literal with its point at `k` has the value of its two digit runs. */
  lemma ParseUnsignedAt(u: string, k: nat, ip: string, fp: string)
    requires IndexOf(u, '.') == k && k < |u| && u[..k] == ip && u[k + 1..] == fp
    requires AllDigits(ip) && AllDigits(fp) && |ip| > 0
    ensures ParseUnsigned(u) == Some(DigitsValue(ip) as real + Fraction(fp))
  {
    hide IndexOf, AllDigits, DigitsValue, Fraction;
  }

  lemma ParseDigitsPointDigits(p: string, g: string)
    requires AllDigits(p) && AllDigits(g) && |p| > 0
    ensures ParseUnsigned(p + "." + g) == Some(DigitsValue(p) as real + Fraction(g))
  {
    var s := p + "." + g;
    IndexOfPointAfterDigits(p, g);
    assert s[..|p|] == p;
    assert s[|p| + 1..] == g;
    ParseUnsignedAt(s, |p|, p, g);
  }

  /** The digits `money` prints for `a` thousandths, without a sign. */
  function MoneyBody(a: nat): string {
    RStripChar(RStripChar(NatToString(a / 1000) + "." + Frac3(a % 1000), '0'), '.')
  }

  /** Stripping `P.F` leaves the integer digits, then the fraction digits up to the last non-zero one. */
  lemma StrippedBody(p: string, f: string)
    requires |p| > 0 && AllDigits(p) && AllDigits(f)
    ensures var g := RStripChar(f, '0');
            AllDigits(g) && Fraction(g) == Fraction(f) &&
            RStripChar(RStripChar(p + "." + f, '0'), '.') == if |g| == 0 then p else p + "." + g
  {
    StripZerosAfterPoint(p, f);
    StripZerosValue(f);
    StripPoint(p, RStripChar(f, '0'));
  }

  /** `P` or `P.G` with a non-zero last digit of `G` is a literal worth `P` plus the fraction `G`. */
  lemma BodyValue(p: string, g: string)
    requires |p| > 0 && AllDigits(p) && AllDigits(g) && (|g| > 0 ==> g[|g| - 1] != '0')
    ensures var b := if |g| == 0 then p else p + "." + g;
            |b| > 0 && IsDigit(b[0]) && IsDigit(b[|b| - 1]) &&
            ParseUnsigned(b) == Some(DigitsValue(p) as real + Fraction(g))
  {
    if |g| == 0 {
      ParseDigitsOnly(p);
    } else {
      ParseDigitsPointDigits(p, g);
      var s := p + "." + g;
      assert s[0] == p[0];
      assert s[|s| - 1] == g[|g| - 1];
    }
  }

  /** The thousandths `a` split into whole units and three fraction digits. */
  lemma ThousandthsSplit(a: nat, f: string)
    requires AllDigits(f) && Fraction(f) == (a % 1000) as real / 1000.0
    ensures (a / 1000) as real + Fraction(f) == a as real / 1000.0
  {
  }

  /** Three fraction digits are worth their number of thousandths. */
  lemma Frac3Fraction(d: nat)
    requires d < 1000
    ensures Fraction(Frac3(d)) == d as real / 1000.0
  {
    assert Pow10(3) == 1000.0;
  }

  /** The unsigned body of a money string, and its value a / 1000. */
  lemma MoneyBodyValue(a: nat)
    ensures var body := MoneyBody(a);
            |body| > 0 && IsDigit(body[0]) && IsDigit(body[|body| - 1]) &&
            ParseUnsigned(body) == Some(a as real / 1000.0)
  {
    hide ParseUnsigned, Fraction, NatToString, Frac3, RStripChar, DigitsValue;
    var p := NatToString(a / 1000);
    var f := Frac3(a % 1000);
    Frac3Fraction(a % 1000);
    NatToStringValue(a / 1000);
    StrippedBody(p, f);
    var g := RStripChar(f, '0');
    BodyValue(p, g);
    ThousandthsSplit(a, f);
  }

  /** The printed text is the sign followed by the stripped digits. */
  lemma MoneyShape(negative: bool, a: nat)
    ensures MoneyText(negative, a) == (if negative then "-" else "") + MoneyBody(a)
  {
    hide ParseUnsigned, RStripChar, NatToString, Frac3;
    var sign := if negative then "-" else "";
    MoneyBodyValue(a);
    var pf := NatToString(a / 1000) + "." + Frac3(a % 1000);
    assert sign + NatToString(a / 1000) + "." + Frac3(a % 1000) == sign + pf;
    SignedStrip(sign, pf);
  }

  lemma ParseNegativeText(t: string, v: real)
    requires |t| > 1 && Strip(t) == t && t[0] == '-' && ParseUnsigned(t[1..]) == Some(v)
    ensures ParseDecimal(t) == Some(-v)
  {
  }

  lemma ParsePlainText(t: string, v: real)
    requires |t| > 0 && Strip(t) == t && IsDigit(t[0]) && ParseUnsigned(t) == Some(v)
    ensures ParseDecimal(t) == Some(v)
  {
  }

  /** A signed body with a digit at both ends parses to the signed value of the body. */
  lemma ParseSigned(sign: string, body: string, v: real)
    requires sign == "" || sign == "-"
    requires |body| > 0 && IsDigit(body[0]) && IsDigit(body[|body| - 1])
    requires ParseUnsigned(body) == Some(v)
    ensures ParseDecimal(sign + body) == Some(if sign == "-" then -v else v)
  {
    var t := sign + body;
    StripStable(t);
    if sign == "-" {
      assert t[1..] == body;
      ParseNegativeText(t, v);
    } else {
      assert t == body;
      ParsePlainText(t, v);
    }
  }

  /** The printed text of `a` thousandths is a sign and a digit body worth a / 1000. */
  lemma MoneyParts(negative: bool, a: nat) returns (body: string)
    ensures |body| > 0 && IsDigit(body[0]) && IsDigit(body[|body| - 1])
    ensures ParseUnsigned(body) == Some(a as real / 1000.0)
    ensures MoneyText(negative, a) == (if negative then "-" else "") + body
  {
    MoneyShape(negative, a);
    MoneyBodyValue(a);
    body := MoneyBody(a);
  }

  /** `ParseSigned` for a text already known to be the sign followed by the body. */
  lemma ParseSignedText(negative: bool, body: string, v: real, t: string)
    requires |body| > 0 && IsDigit(body[0]) && IsDigit(body[|body| - 1])
    requires ParseUnsigned(body) == Some(v) && t == (if negative then "-" else "") + body
    ensures ParseDecimal(t) == Some(if negative then -v else v)
  {
    ParseSigned(if negative then "-" else "", body, v);
  }

  lemma SignedThousandths(x: real, k: int, a: nat)
    requires k == Round3(x) && a == (if k < 0 then -k else k)
    ensures (if x < 0.0 then -(a as real / 1000.0) else a as real / 1000.0) == Quantize3(x)
  {
  }

  /** Round trip: `Decimal(money(x))` is exactly `x` quantized to three places. */
  lemma MoneyRoundTrip(x: real)
    ensures ParseDecimal(Money(x)) == Some(Quantize3(x))
  {
    hide MoneyText, ParseDecimal, ParseUnsigned, Round3, Quantize3;
    var k := Round3(x);
    var a: nat := if k < 0 then -k else k;
    var body := MoneyParts(x < 0.0, a);
    ParseSignedText(x < 0.0, body, a as real / 1000.0, Money(x));
    SignedThousandths(x, k, a);
  }

  /** Right-stripping does not reach a non-empty unsigned body's first digit. */
  lemma SignedStrip(sign: string, pf: string)
    requires |sign| <= 1 && (|sign| == 1 ==> sign[0] == '-')
    requires RStripChar(RStripChar(pf, '0'), '.') != "" && IsDigit(RStripChar(RStripChar(pf, '0'), '.')[0])
    ensures RStripChar(RStripChar(sign + pf, '0'), '.') == sign + RStripChar(RStripChar(pf, '0'), '.')
  {
    SignedStripChar(sign, pf, '0');
    var u := RStripChar(pf, '0');
    assert |u| > 0;
    SignedStripChar(sign, u, '.');
  }

  lemma {:induction false} SignedStripChar(sign: string, u: string, c: char)
    requires |sign| <= 1 && (|sign| == 1 ==> sign[0] == '-') && c != '-'
    requires |RStripChar(u, c)| > 0
    ensures RStripChar(sign + u, c) == sign + RStripChar(u, c)
    decreases |u|
  {
    var s := sign + u;
    RStripCharStep(u, c);
    RStripCharStep(s, c);
    hide RStripChar;
    if |u| > 0 && u[|u| - 1] == c {
      var v := u[..|u| - 1];
      assert s[|s| - 1] == c && s[..|s| - 1] == sign + v;
      SignedStripChar(sign, v, c);
    } else if |u| > 0 {
      assert s[|s| - 1] == u[|u| - 1];
    }
  }
}
