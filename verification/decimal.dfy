/**
  The slice of java.math.BigDecimal and java.text.DecimalFormat the calculator
  relies on: exact addition, subtraction and multiplication, division to a
  fixed scale with HALF_DOWN rounding, parsing of the display text and
  printing of results in plain notation.
*/
module Decimal {
  import opened Wrappers
  import opened Digits
  import opened Fractions

  /** A BigDecimal: the number `unscaled / 10^scale`. The scale is part of the
      identity, so `Dec(0, 0)` and `Dec(0, 1)` ("0" and "0.0") differ. */
  datatype Dec = Dec(unscaled: int, scale: nat)

  /** BigDecimal.ZERO. */
  const Zero := Dec(0, 0)

  /** The number of fractional digits every quotient is rounded to. */
  const QuotientScale: nat := 16

  function Max(a: nat, b: nat): nat {
    if a < b then b else a
  }

  /** The rational number a decimal denotes. */
  ghost function Value(d: Dec): real {
    d.unscaled as real / Pow10(d.scale) as real
  }

  lemma ScaleInvariant(u: int, s: nat, k: nat)
    ensures Value(Dec(u * Pow10(k), s + k)) == Value(Dec(u, s))
  {
    Pow10Add(s, k);
    var ps, pk := Pow10(s), Pow10(k);
    CastProduct(u, pk);
    CastProduct(ps, pk);
    CancelFactor(u as real, ps as real, pk as real);
  }

  /** The same number written at a larger scale (trailing zeros appended). */
  function Rescale(d: Dec, s: nat): (r: Dec)
    requires d.scale <= s
    ensures r.scale == s
    ensures Value(r) == Value(d)
  {
    ScaleInvariant(d.unscaled, d.scale, s - d.scale);
    Dec(d.unscaled * Pow10(s - d.scale), s)
  }

  lemma SumAtScale(x: int, y: int, s: nat)
    ensures Value(Dec(x + y, s)) == Value(Dec(x, s)) + Value(Dec(y, s))
  {
  }

  /** BigDecimal.add: exact, at the larger of the two scales. */
  function Add(a: Dec, b: Dec): (r: Dec)
    ensures r.scale == Max(a.scale, b.scale)
    ensures Value(r) == Value(a) + Value(b)
  {
    var s := Max(a.scale, b.scale);
    var a', b' := Rescale(a, s), Rescale(b, s);
    SumAtScale(a'.unscaled, b'.unscaled, s);
    Dec(a'.unscaled + b'.unscaled, s)
  }

  /** BigDecimal.negate: the opposite number at the same scale. */
  function Negate(a: Dec): (r: Dec)
    ensures r.scale == a.scale
    ensures Value(r) == -Value(a)
  {
    Dec(-a.unscaled, a.scale)
  }

  /** BigDecimal.subtract: exact, at the larger of the two scales. */
  function Subtract(a: Dec, b: Dec): (r: Dec)
    ensures r.scale == Max(a.scale, b.scale)
    ensures Value(r) == Value(a) - Value(b)
  {
    Add(a, Negate(b))
  }

  /** BigDecimal.multiply: exact, at the sum of the two scales. */
  function Multiply(a: Dec, b: Dec): (r: Dec)
    ensures r.scale == a.scale + b.scale
    ensures Value(r) == Value(a) * Value(b)
  {
    ProductValue(a, b);
    Dec(a.unscaled * b.unscaled, a.scale + b.scale)
  }

  lemma ProductValue(a: Dec, b: Dec)
    ensures Value(Dec(a.unscaled * b.unscaled, a.scale + b.scale)) == Value(a) * Value(b)
  {
    Pow10Add(a.scale, b.scale);
    var pa, pb := Pow10(a.scale), Pow10(b.scale);
    CastProduct(a.unscaled, b.unscaled);
    CastProduct(pa, pb);
    ProductOfFractions(a.unscaled as real, b.unscaled as real, pa as real, pb as real);
  }

  /** r, at its own scale, is the HALF_DOWN rounding of a / b: r times the
      divisor is within half a unit of r's last place (scaled by the divisor)
      of the dividend, and an exact tie is resolved towards zero. */
  ghost predicate RoundedQuotient(a: Dec, b: Dec, r: Dec) {
    HalfDownClose(Value(r), Value(b), Value(a), r.scale)
  }

  /** BigDecimal.divide(divisor, 16, RoundingMode.HALF_DOWN) for a nonzero divisor. */
  function Divide(a: Dec, b: Dec): (r: Dec)
    requires b.unscaled != 0
    ensures r.scale == QuotientScale
    ensures RoundedQuotient(a, b, r)
  {
    var q := RoundHalfDown(a.unscaled * Pow10(QuotientScale + b.scale), b.unscaled * Pow10(a.scale));
    QuotientRounding(a, b, q, QuotientScale);
    Dec(q, QuotientScale)
  }

  lemma QuotientRounding(a: Dec, b: Dec, q: int, s: nat)
    requires NearestHalfDown(q, a.unscaled * Pow10(s + b.scale), b.unscaled * Pow10(a.scale))
    ensures RoundedQuotient(a, b, Dec(q, s))
  {
    var pa, pb, pq, pn := Pow10(a.scale), Pow10(b.scale), Pow10(s), Pow10(s + b.scale);
    Pow10Add(s, b.scale);
    QuotientBound(a.unscaled, b.unscaled, q, pa, pb, pq, pn, s);
    TransferClose(q as real, pq as real, b.unscaled as real, pb as real, a.unscaled as real, pa as real,
                  Value(Dec(q, s)), Value(b), Value(a), s);
  }

  /** True of the characters a number's text is made of. */
  predicate IsNumeral(c: char) {
    IsDigit(c) || c == '.' || c == '-'
  }

  /** No decimal point in the text is followed by another. */
  predicate AtMostOnePoint(s: string) {
    forall i, j | 0 <= i < j < |s| && s[i] == '.' :: s[j] != '.'
  }

  /** Text made only of digits, points and minus signs, not empty, with at
      most one point. */
  predicate NumericText(s: string) {
    && |s| >= 1
    && (forall i | 0 <= i < |s| :: IsNumeral(s[i]))
    && AtMostOnePoint(s)
  }

  /** DecimalFormat.parse with setParseBigDecimal(true), '.' as the decimal
      separator and no grouping: the longest prefix of the form
      `digits [. digits]` is read, and the rest of the text is ignored. All
      digits read make up the unscaled value and the scale is the number of
      digits read after the point, so "0.0" parses to zero at scale 1. Text
      with no digit in that prefix is not a number. */
  function ParseUnsigned(s: string): Option<Dec> {
    var k := LeadingDigits(s);
    var fraction := if k < |s| && s[k] == '.' then s[k + 1..][..LeadingDigits(s[k + 1..])] else "";
    if k == 0 && |fraction| == 0 then None
    else
      AllDigitsAppend(s[..k], fraction);
      Some(Dec(ValueOf(s[..k] + fraction), |fraction|))
  }

  /** As ParseUnsigned, after an optional leading minus sign. */
  function Parse(s: string): Option<Dec> {
    if |s| > 0 && s[0] == '-' then
      match ParseUnsigned(s[1..])
      case None => None
      case Some(d) => Some(Dec(-d.unscaled, d.scale))
    else
      ParseUnsigned(s)
  }

  /** Integer digits, a point and fraction digits. */
  function Pointed(i: string, f: string): (r: string)
    ensures |r| == |i| + 1 + |f|
  {
    i + "." + f
  }

  /** Integer digits, a point and fraction digits make a number's text. */
  lemma PointedNumeric(i: string, f: string)
    requires |i| >= 1 && AllDigits(i) && AllDigits(f)
    ensures NumericText(Pointed(i, f)) && IsDigit(Pointed(i, f)[0]) && Pointed(i, f)[|i|] == '.'
    ensures forall j | 0 <= j < |Pointed(i, f)| && j != |i| :: IsDigit(Pointed(i, f)[j])
  {
    var r := Pointed(i, f);
    forall j | 0 <= j < |r|
      ensures IsNumeral(r[j]) && (j != |i| ==> IsDigit(r[j]))
    {
      if j < |i| {
        assert r[j] == i[j];
      } else if j > |i| {
        assert r[j] == f[j - |i| - 1];
      }
    }
    assert r[0] == i[0];
  }

  /** The digits `t` with a point before their last `k`. */
  function InsertPoint(t: string, k: nat): (r: string)
    requires k < |t|
  {
    Pointed(t[..|t| - k], t[|t| - k..])
  }

  lemma InsertPointNumeric(t: string, k: nat)
    requires AllDigits(t) && k < |t|
    ensures NumericText(InsertPoint(t, k)) && IsDigit(InsertPoint(t, k)[0])
    ensures InsertPoint(t, k)[0] == t[0]
    ensures |t| == k + 1 ==> InsertPoint(t, k)[1] == '.'
    ensures InsertPoint(t, k)[|t| - k] == '.'
    ensures forall j | 0 <= j < |InsertPoint(t, k)| :: InsertPoint(t, k)[j] != '-'
  {
    var n := |t| - k;
    var i, f := t[..n], t[n..];
    SplitDigits(t, n);
    PointedNumeric(i, f);
    assert Pointed(i, f)[0] == i[0] == t[0];
  }

  /** The text of a non-negative unscaled value at a scale, in plain notation:
      the digits of the value, padded with leading zeros so that at least one
      is left of the point, and at a positive scale a point before the last
      `scale` of them. */
  function Unsigned(m: nat, scale: nat): (r: string)
    ensures NumericText(r) && IsDigit(r[0])
    ensures r[0] == '0' ==> r == "0" || (|r| >= 2 && r[1] == '.')
    ensures forall x | 0 <= x < |r| :: r[x] != '-'
    ensures scale == 0 ==> '.' !in r
    ensures scale > 0 ==> |r| >= scale + 2 && r[|r| - scale - 1] == '.'
    ensures m > 0 ==> r != "0"
  {
    if scale == 0 then NatDigits(m)
    else
      var t := PadDigits(m, scale + 1);
      InsertPointNumeric(t, scale);
      InsertPoint(t, scale)
  }

  /** BigDecimal.toString for numbers it prints in plain notation: a minus
      sign exactly for a negative number, then the integer digits with no
      leading zero but a lone one, then at a positive scale a point and
      exactly `scale` fraction digits. */
  function ToString(d: Dec): (r: string)
    ensures NumericText(r)
    ensures r[0] == '-' <==> d.unscaled < 0
    ensures forall x | 1 <= x < |r| :: r[x] != '-'
    ensures r[0] != '-' ==> IsDigit(r[0])
    ensures r[0] == '0' ==> r == "0" || (|r| >= 2 && r[1] == '.')
    ensures r[0] == '-' ==> |r| >= 2 && IsDigit(r[1]) && (r[1] == '0' ==> |r| >= 3 && r[2] == '.')
    ensures d.scale == 0 ==> '.' !in r
    ensures d.scale > 0 ==> |r| >= d.scale + 2 && r[|r| - d.scale - 1] == '.'
    ensures r != "ERR"
  {
    var body := Unsigned(Abs(d.unscaled), d.scale);
    if d.unscaled < 0 then
      Signed(body);
      "-" + body
    else body
  }

  /** A minus sign before a number's text that starts with a digit. */
  lemma Signed(body: string)
    requires NumericText(body) && IsDigit(body[0])
    ensures NumericText("-" + body) && ("-" + body)[0] == '-' && ("-" + body)[1..] == body
  {
    var r := "-" + body;
    assert r[1..] == body;
    assert forall x | 1 <= x < |r| :: r[x] == body[x - 1];
  }

  lemma ParseUnsignedDigits(i: string, f: string)
    requires |i| >= 1 && AllDigits(i) && AllDigits(f)
    ensures AllDigits(i + f)
    ensures ParseUnsigned(Pointed(i, f)) == Some(Dec(ValueOf(i + f), |f|))
  {
    var s := Pointed(i, f);
    AllDigitsAppend(i, f);
    assert LeadingDigits(s) == |i| by {
      assert s[..|i|] == i;
      LeadingDigitsExact(s, |i|);
    }
    assert s[..|i|] == i;
    assert s[|i|] == '.';
    assert s[|i| + 1..] == f;
    assert LeadingDigits(f) == |f| by {
      assert f[..|f|] == f;
      LeadingDigitsExact(f, |f|);
    }
    assert f[..|f|] == f;
  }

  lemma ParsePointed(i: string, f: string)
    requires |i| >= 1 && AllDigits(i) && AllDigits(f)
    ensures AllDigits(i + f)
    ensures Parse(Pointed(i, f)) == Some(Dec(ValueOf(i + f), |f|))
  {
    ParseUnsignedDigits(i, f);
    assert Pointed(i, f)[0] == i[0];
  }

  lemma ParseUnsignedInteger(i: string)
    requires |i| >= 1 && AllDigits(i)
    ensures ParseUnsigned(i) == Some(Dec(ValueOf(i), 0))
  {
    assert i[..|i|] == i;
    assert i + "" == i;
    LeadingDigitsExact(i, |i|);
  }

  /** Reading digits with a point inserted gives all the digits as the
      unscaled value and the digits after the point as the scale. */
  lemma ParseInsertPoint(t: string, k: nat)
    requires AllDigits(t) && k < |t|
    ensures ParseUnsigned(InsertPoint(t, k)) == Some(Dec(ValueOf(t), k))
  {
    var n := |t| - k;
    var i, f := t[..n], t[n..];
    SplitDigits(t, n);
    assert ParseUnsigned(Pointed(i, f)) == Some(Dec(ValueOf(i + f), |f|)) by {
      ParseUnsignedDigits(i, f);
    }
    assert i + f == t;
  }

  /** The text starts a number: with a digit, or with a point and a digit. */
  predicate StartsNumber(u: string) {
    (|u| > 0 && IsDigit(u[0])) || (|u| > 1 && u[0] == '.' && IsDigit(u[1]))
  }

  /** Without its sign, a text is read as a number exactly when it starts one. */
  lemma ParseUnsignedFails(u: string)
    ensures ParseUnsigned(u).None? <==> !StartsNumber(u)
  {
    if |u| > 1 && u[0] == '.' && IsDigit(u[1]) {
      assert LeadingDigits(u) == 0;
      assert LeadingDigits(u[1..]) >= 1 by {
        LeadingDigitsMaximal(u[1..], 1);
      }
    }
  }

  /** DecimalFormat.parse fails, and `calculate` returns null, exactly when
      the text after an optional minus sign starts neither with a digit nor
      with a point followed by a digit ("ERR", "-", "." and "-." all fail). */
  lemma ParseFails(s: string)
    ensures Parse(s).None? <==> !StartsNumber(if |s| > 0 && s[0] == '-' then s[1..] else s)
  {
    if |s| > 0 && s[0] == '-' {
      ParseUnsignedFails(s[1..]);
    } else {
      ParseUnsignedFails(s);
    }
  }

  /** Reading back the unsigned text gives the value at the same scale. */
  lemma ParseUnsignedText(m: nat, scale: nat)
    ensures ParseUnsigned(Unsigned(m, scale)) == Some(Dec(m, scale))
  {
    if scale == 0 {
      ParseUnsignedInteger(NatDigits(m));
    } else {
      ParseInsertPoint(PadDigits(m, scale + 1), scale);
    }
  }

  /** Reading back what BigDecimal prints gives the same number at the same scale. */
  lemma ParseToString(d: Dec)
    ensures Parse(ToString(d)) == Some(d)
  {
    var m := Abs(d.unscaled);
    var body := Unsigned(m, d.scale);
    ParseUnsignedText(m, d.scale);
    if d.unscaled < 0 {
      assert ToString(d)[1..] == body;
    }
  }
}
