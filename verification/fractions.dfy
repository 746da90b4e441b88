/** Facts about integer and real arithmetic that the decimal proofs use one step at a time. */
module Fractions {
  import opened Digits

  function Abs(x: int): nat {
    if x < 0 then -x else x
  }

  function AbsReal(x: real): real {
    if x < 0.0 then -x else x
  }

  lemma CastProduct(x: int, y: int)
    ensures (x * y) as real == x as real * y as real
  {
  }

  lemma CancelFactor(x: real, p: real, k: real)
    requires p > 0.0 && k > 0.0
    ensures (x * k) / (p * k) == x / p
  {
  }

  lemma ProductOfFractions(x: real, y: real, p: real, q: real)
    requires p > 0.0 && q > 0.0
    ensures (x * y) / (p * q) == (x / p) * (y / q)
  {
  }

  lemma DivideMonotone(x: real, y: real, e: real)
    requires e > 0.0 && x <= y
    ensures x / e <= y / e
  {
  }

  lemma DivideInjective(x: real, y: real, e: real)
    requires e > 0.0 && x / e == y / e
    ensures x == y
  {
  }

  lemma DivideDifference(x: real, y: real, e: real)
    requires e > 0.0
    ensures x / e - y / e == (x - y) / e
  {
  }

  lemma DivisionWithRemainder(m: nat, p: nat)
    requires p >= 1
    ensures 0 <= m % p < p
    ensures m / p >= 0
    ensures m == (m / p) * p + m % p
  {
  }

  /** A product of two fractions over the common denominator pq * pb * pa. */
  lemma ProductOverCommon(q: int, u: int, pq: nat, pb: nat, pa: nat)
    requires pq >= 1 && pb >= 1 && pa >= 1
    ensures (q as real / pq as real) * (u as real / pb as real)
            == (q * (u * pa)) as real / ((pq * pb) as real * pa as real)
  {
    CastProduct(pq, pb);
    CastProduct(u, pa);
    CastProduct(q, u * pa);
    ProductOfFractions(q as real, u as real, pq as real, pb as real);
    CancelFactor(q as real * u as real, (pq * pb) as real, pa as real);
    assert (q as real * u as real) * pa as real == q as real * (u as real * pa as real);
  }

  /** A fraction over the common denominator k * p. */
  lemma FractionOverCommon(u: int, p: nat, k: nat)
    requires p >= 1 && k >= 1
    ensures u as real / p as real == (u * k) as real / (k as real * p as real)
  {
    CastProduct(u, k);
    CancelFactor(u as real, p as real, k as real);
    assert p as real * k as real == k as real * p as real;
  }

  /** The magnitude of a fraction with a positive denominator. */
  lemma AbsOfFraction(x: int, e: real)
    requires e > 0.0
    ensures AbsReal(x as real / e) == Abs(x) as real / e
    ensures 2.0 * (Abs(x) as real / e) == (2 * Abs(x)) as real / e
  {
  }

  /** The bound of a quotient's error over the common denominator pq * pb * pa. */
  lemma BoundOverCommon(u: int, pq: nat, pb: nat, pa: nat)
    requires pq >= 1 && pb >= 1 && pa >= 1
    ensures AbsReal(u as real / pb as real) / pq as real
            == Abs(u * pa) as real / ((pq * pb) as real * pa as real)
  {
    var w := Abs(u);
    AbsOfFraction(u, pb as real);
    CastProduct(pq, pb);
    assert (w as real / pb as real) / pq as real == w as real / (pq * pb) as real;
    FractionOverCommon(w, (pq * pb), pa);
    assert Abs(u * pa) == w * pa;
    assert pa as real * (pq * pb) as real == (pq * pb) as real * pa as real;
  }

  /** q is the integer nearest to n / d, and when n / d lies exactly halfway
      between two integers, q is the one nearer zero. */
  predicate NearestHalfDown(q: int, n: int, d: int) {
    && 2 * Abs(q * d - n) <= Abs(d)
    && (2 * Abs(q * d - n) == Abs(d) ==> Abs(q * d) <= Abs(n))
  }

  /** Rounding of n / d to an integer with RoundingMode.HALF_DOWN: the
      magnitude of the truncated quotient goes up by one only when the
      remainder is more than half the divisor. */
  function RoundHalfDown(n: int, d: int): (q: int)
    requires d != 0
    ensures NearestHalfDown(q, n, d)
  {
    var mag := Magnitude(Abs(n), Abs(d));
    var q := if (n < 0) != (d < 0) then -(mag as int) else mag;
    SignedRounding(n, d, mag, q);
    q
  }

  /** The HALF_DOWN rounding of an / ad for non-negative operands. */
  function Magnitude(an: nat, ad: nat): nat
    requires ad >= 1
  {
    if 2 * (an % ad) > ad then an / ad + 1 else an / ad
  }

  lemma NearestMagnitude(an: nat, ad: nat)
    requires ad >= 1
    ensures 2 * Abs(Magnitude(an, ad) * ad - an) <= ad
    ensures 2 * Abs(Magnitude(an, ad) * ad - an) == ad ==> Magnitude(an, ad) * ad <= an
  {
    DivisionWithRemainder(an, ad);
    var q0, rem := an / ad, an % ad;
    var x := q0 * ad;
    assert (q0 + 1) * ad == x + ad;
  }

  /** Giving the magnitude the sign of n / d keeps the rounding guarantee. */
  lemma SignedRounding(n: int, d: int, mag: nat, q: int)
    requires d != 0 && mag == Magnitude(Abs(n), Abs(d))
    requires q == if (n < 0) != (d < 0) then -(mag as int) else mag
    ensures NearestHalfDown(q, n, d)
  {
    NearestMagnitude(Abs(n), Abs(d));
    SignedProduct(n, d, mag, q);
  }

  lemma SignedProduct(n: int, d: int, mag: nat, q: int)
    requires d != 0
    requires q == if (n < 0) != (d < 0) then -(mag as int) else mag
    ensures Abs(q * d - n) == Abs(mag * Abs(d) - Abs(n))
    ensures Abs(q * d) == mag * Abs(d)
  {
    var ad := Abs(d);
    if d < 0 {
      assert q * d == -(q * ad);
    } else {
      assert q * d == q * ad;
    }
    if q < 0 {
      assert q * ad == -(mag * ad);
    } else {
      assert q * ad == mag * ad;
    }
  }

  /** A quotient's error terms over the common denominator pq * pb * pa:
      q / pq is the rounded quotient, ub / pb the divisor, ua / pa the
      dividend, and pn = pq * pb. */
  lemma QuotientOverCommon(ua: int, ub: int, q: int, pa: nat, pb: nat, pq: nat, pn: nat)
    requires pa >= 1 && pb >= 1 && pq >= 1 && pn == pq * pb
    ensures var e := (pq * pb) as real * pa as real;
            (q as real / pq as real) * (ub as real / pb as real) == (q * (ub * pa)) as real / e
    ensures var e := (pq * pb) as real * pa as real;
            ua as real / pa as real == (ua * pn) as real / e
    ensures var e := (pq * pb) as real * pa as real;
            AbsReal(ub as real / pb as real) / pq as real == Abs(ub * pa) as real / e
  {
    ProductOverCommon(q, ub, pq, pb, pa);
    FractionOverCommon(ua, pa, pn);
    assert pn as real * pa as real == (pq * pb) as real * pa as real;
    BoundOverCommon(ub, pq, pb, pa);
  }

  /** quotient times divisor is within half a unit of the `scale`-th
      fractional place (scaled by the divisor) of the dividend, and at
      exactly half it is the one of the two candidates nearer zero. */
  predicate HalfDownClose(quotient: real, divisor: real, dividend: real, scale: nat) {
    var error := 2.0 * AbsReal(quotient * divisor - dividend);
    var unit := AbsReal(divisor) / Pow10(scale) as real;
    && error <= unit
    && (error == unit ==> AbsReal(quotient * divisor) <= AbsReal(dividend))
  }

  /** The rounding guarantee of an integer quotient carried over to the
      fractions: q / pq, with pq = 10^s, times the divisor ub / pb is HALF_DOWN
      close to the dividend ua / pa, where pn = pq * pb. */
  lemma QuotientBound(ua: int, ub: int, q: int, pa: nat, pb: nat, pq: nat, pn: nat, s: nat)
    requires pa >= 1 && pb >= 1 && pq == Pow10(s) && pn == pq * pb
    requires NearestHalfDown(q, ua * pn, ub * pa)
    ensures HalfDownClose(q as real / pq as real, ub as real / pb as real, ua as real / pa as real, s)
  {
    QuotientOverCommon(ua, ub, q, pa, pb, pq, pn);
    CommonDenominatorBound(q * (ub * pa), ua * pn, ub * pa, (pq * pb) as real * pa as real);
  }

  /** HalfDownClose carried from fractions written out to the same numbers given by name. */
  lemma TransferClose(q: real, pq: real, ub: real, pb: real, ua: real, pa: real, vr: real, vb: real, va: real, s: nat)
    requires pq >= 1.0 && pb >= 1.0 && pa >= 1.0
    requires HalfDownClose(q / pq, ub / pb, ua / pa, s)
    requires vr == q / pq && vb == ub / pb && va == ua / pa
    ensures HalfDownClose(vr, vb, va, s)
  {
  }

  lemma CommonDenominatorBound(x: int, n: int, d: int, e: real)
    requires e > 0.0
    requires 2 * Abs(x - n) <= Abs(d)
    requires 2 * Abs(x - n) == Abs(d) ==> Abs(x) <= Abs(n)
    ensures 2.0 * AbsReal(x as real / e - n as real / e) <= Abs(d) as real / e
    ensures 2.0 * AbsReal(x as real / e - n as real / e) == Abs(d) as real / e
            ==> AbsReal(x as real / e) <= AbsReal(n as real / e)
  {
    var k := x - n;
    var lhs := x as real / e - n as real / e;
    var tk, dd := (2 * Abs(k)) as real, Abs(d) as real;
    assert lhs == k as real / e by {
      DivideDifference(x as real, n as real, e);
    }
    assert 2.0 * AbsReal(lhs) == tk / e by {
      AbsOfFraction(k, e);
    }
    DivideMonotone(tk, dd, e);
    if tk / e == dd / e {
      DivideInjective(tk, dd, e);
      AbsOfFraction(x, e);
      AbsOfFraction(n, e);
      DivideMonotone(Abs(x) as real, Abs(n) as real, e);
    }
  }
}
