/**
  What the cleaner does to the texts BigDecimal prints: it always leaves a
  number's text, it keeps the value of a number printed with a fraction
  part, and it changes the value of an integer that ends in zeros.
*/
module CleanedResults {
  import opened Wrappers
  import opened Digits
  import opened Decimal
  import opened Clean

  lemma PrefixNumeric(s: string, n: nat)
    requires NumericText(s) && 1 <= n <= |s|
    ensures NumericText(s[..n])
  {
    assert forall x | 0 <= x < n :: s[..n][x] == s[x];
  }

  /** A printed number that matches the pattern starts with a digit, and its
      trailing zeros are not all of it. */
  lemma MatchedToString(d: Dec)
    requires MatchesPattern(ToString(d))
    ensures d.unscaled >= 0
    ensures !ZerosIn(ToString(d), 0, |ToString(d)|)
  {
    var s := ToString(d);
    var i, k :| 1 <= i < k < |s| && DigitsIn(s, 0, i) && !IsLineTerminator(s[i])
                && NonzerosIn(s, i + 1, k) && ZerosIn(s, k, |s|);
    assert IsDigit(s[0]);
    assert s[0] == '0' ==> s[1] == '.';
  }

  /** The cleaned text of a printed number is still a number's text. */
  lemma CleanedToStringNumeric(d: Dec)
    ensures NumericText(CleanNumber(ToString(d)))
  {
    var s := ToString(d);
    var r := CleanNumber(s);
    if MatchesPattern(s) {
      MatchedToString(d);
      assert IsDigit(s[0]);
      PrefixNumeric(s, |r|);
    }
  }

  /** A non-negative number printed with a fraction part: its digits, padded
      to at least one more than the scale, with the point before the last
      `scale` of them. */
  lemma FractionText(d: Dec)
    requires d.unscaled >= 0 && d.scale > 0
    ensures ToString(d) == InsertPoint(PadDigits(d.unscaled, d.scale + 1), d.scale)
  {
    assert Fractions.Abs(d.unscaled) == d.unscaled;
  }

  /** The integer digits and fraction digits of a non-negative number printed
      with a fraction part; together they are its unscaled value's digits. */
  lemma FractionSplit(d: Dec) returns (i: string, f: string)
    requires d.unscaled >= 0 && d.scale > 0
    ensures |i| >= 1 && AllDigits(i) && AllDigits(f)
    ensures ToString(d) == Pointed(i, f)
    ensures AllDigits(i + f) && Dec(ValueOf(i + f), |f|) == d
  {
    var t := PadDigits(d.unscaled, d.scale + 1);
    var n := |t| - d.scale;
    i, f := t[..n], t[n..];
    FractionText(d);
    SplitDigits(t, n);
  }

  /** Cleaning the text of a number printed with a fraction part keeps its value. */
  lemma CleanKeepsFractionValue(d: Dec)
    requires d.scale > 0
    ensures Parse(CleanNumber(ToString(d))).Some?
    ensures Value(Parse(CleanNumber(ToString(d))).value) == Value(d)
  {
    if MatchesPattern(ToString(d)) {
      MatchedToString(d);
      var i, f := FractionSplit(d);
      CleanPointedValue(i, f);
    } else {
      ParseToString(d);
    }
  }

  /** Integer digits, a point and fraction digits keep their value through the cleaner. */
  lemma CleanPointedValue(i: string, f: string)
    requires |i| >= 1 && AllDigits(i) && AllDigits(f)
    ensures AllDigits(i + f)
    ensures Parse(CleanNumber(Pointed(i, f))).Some?
    ensures Value(Parse(CleanNumber(Pointed(i, f))).value) == Value(Dec(ValueOf(i + f), |f|))
  {
    AllDigitsAppend(i, f);
    var s := Pointed(i, f);
    if !MatchesPattern(s) {
      ParsePointed(i, f);
    } else if ZerosIn(s, |CleanNumber(s)|, |s|) {
      CleanFractionZeros(i, f);
    } else {
      CleanPointAndZeros(i, f);
    }
  }

  /** The cleaner dropped zeros of the fraction part only. */
  lemma CleanFractionZeros(i: string, f: string)
    requires |i| >= 1 && AllDigits(i) && AllDigits(f)
    requires MatchesPattern(Pointed(i, f))
    requires ZerosIn(Pointed(i, f), |CleanNumber(Pointed(i, f))|, |Pointed(i, f)|)
    ensures AllDigits(i + f)
    ensures Parse(CleanNumber(Pointed(i, f))).Some?
    ensures Value(Parse(CleanNumber(Pointed(i, f))).value) == Value(Dec(ValueOf(i + f), |f|))
  {
    var s := Pointed(i, f);
    var r := CleanNumber(s);
    assert s[|i|] == '.';
    assert |r| > |i|;
    KeptFractionValue(i, f, |r| - |i| - 1, r);
  }

  /** Integer digits, a point and the first n fraction digits, when the
      remaining fraction digits are zeros, denote the same number as all of them. */
  lemma KeptFractionValue(i: string, f: string, n: nat, r: string)
    requires |i| >= 1 && AllDigits(i) && AllDigits(f) && n <= |f|
    requires r == Pointed(i, f)[..|i| + 1 + n]
    requires ZerosIn(Pointed(i, f), |i| + 1 + n, |i| + 1 + |f|)
    ensures AllDigits(i + f)
    ensures Parse(r).Some?
    ensures Value(Parse(r).value) == Value(Dec(ValueOf(i + f), |f|))
  {
    var w, m := i + f, |i| + n;
    assert Parse(r) == Some(Dec(ValueOf(w[..m]), n)) by {
      ParseKept(i, f, n, r);
      PrefixOfAppend(i, f, n);
    }
    assert AllDigits(w) by {
      AllDigitsAppend(i, f);
    }
    FractionZeros(i, f, n, w[m..]);
    DropZerosValue(w, m, w[m..], n);
    assert Dec(ValueOf(w), |f|) == Dec(ValueOf(w), n + |w| - m);
  }

  /** What the kept prefix reads as. */
  lemma ParseKept(i: string, f: string, n: nat, r: string)
    requires |i| >= 1 && AllDigits(i) && AllDigits(f) && n <= |f|
    requires r == Pointed(i, f)[..|i| + 1 + n]
    ensures AllDigits(i + f[..n])
    ensures Parse(r) == Some(Dec(ValueOf(i + f[..n]), n))
  {
    var g := f[..n];
    assert AllDigits(g) by {
      assert forall x | 0 <= x < n :: g[x] == f[x];
    }
    SamePointed(i, f, n, Pointed(i, f), r);
    ParsePointed(i, g);
  }

  /** Zeros at the end of the text are zeros at the end of the digits. */
  lemma FractionZeros(i: string, f: string, n: nat, t: string)
    requires n <= |f| && t == (i + f)[|i| + n..]
    requires ZerosIn(Pointed(i, f), |i| + 1 + n, |i| + 1 + |f|)
    ensures forall x | 0 <= x < |t| :: t[x] == '0'
  {
    var s := Pointed(i, f);
    forall x | 0 <= x < |t|
      ensures t[x] == '0'
    {
      assert t[x] == f[n + x] == s[|i| + 1 + n + x];
    }
  }

  /** The kept prefix of the cleaned text is the integer digits, the point and
      the first n fraction digits. */
  lemma SamePointed(i: string, f: string, n: nat, s: string, r: string)
    requires n <= |f|
    requires s == Pointed(i, f) && |r| == |i| + 1 + n && r == s[..|r|]
    ensures r == Pointed(i, f[..n])
  {
    var p := Pointed(i, f[..n]);
    forall x | 0 <= x < |r|
      ensures r[x] == p[x]
    {
      assert r[x] == s[x];
    }
  }

  /** The cleaner dropped the point and the whole fraction part, all zeros. */
  lemma CleanPointAndZeros(i: string, f: string)
    requires |i| >= 1 && AllDigits(i) && AllDigits(f)
    requires MatchesPattern(Pointed(i, f))
    requires !ZerosIn(Pointed(i, f), |CleanNumber(Pointed(i, f))|, |Pointed(i, f)|)
    ensures AllDigits(i + f)
    ensures Parse(CleanNumber(Pointed(i, f))).Some?
    ensures Value(Parse(CleanNumber(Pointed(i, f))).value) == Value(Dec(ValueOf(i + f), |f|))
  {
    var s := Pointed(i, f);
    var r := CleanNumber(s);
    PointedNumeric(i, f);
    assert s[|r|] == '.';
    KeptIntegerValue(i, f, r);
  }

  /** Integer digits, when the fraction digits after the point are all
      zeros, denote the same number as the whole text. */
  lemma KeptIntegerValue(i: string, f: string, r: string)
    requires |i| >= 1 && AllDigits(i) && AllDigits(f)
    requires r == Pointed(i, f)[..|i|]
    requires ZerosIn(Pointed(i, f), |i| + 1, |i| + 1 + |f|)
    ensures AllDigits(i + f)
    ensures Parse(r).Some?
    ensures Value(Parse(r).value) == Value(Dec(ValueOf(i + f), |f|))
  {
    var s := Pointed(i, f);
    assert r == i by {
      assert forall x | 0 <= x < |r| :: r[x] == s[x];
    }
    assert Parse(r) == Some(Dec(ValueOf(i), 0)) by {
      ParseUnsignedInteger(i);
      assert IsDigit(r[0]);
    }
    var w, m := i + f, |i|;
    assert w[..m] == i;
    assert AllDigits(w) by {
      AllDigitsAppend(i, f);
    }
    FractionZeros(i, f, 0, w[m..]);
    DropZerosValue(w, m, w[m..], 0);
    assert Dec(ValueOf(w), |f|) == Dec(ValueOf(w), 0 + |w| - m);
  }

  /** Digits whose last |w| - m are zeros, at a scale larger by that many,
      denote the same number as their first m digits. */
  lemma DropZerosValue(w: string, m: nat, t: string, s: nat)
    requires AllDigits(w) && m <= |w| && t == w[m..]
    requires forall x | 0 <= x < |t| :: t[x] == '0'
    ensures AllDigits(w[..m])
    ensures Value(Dec(ValueOf(w), s + |w| - m)) == Value(Dec(ValueOf(w[..m]), s))
  {
    SplitDigits(w, m);
    ZerosValue(w[..m], t, s);
    assert Dec(ValueOf(w), s + |w| - m) == Dec(ValueOf(w[..m] + t), s + |t|);
  }

  /** Digits followed by zeros, at a scale larger by the number of zeros,
      denote the same number as the digits alone. */
  lemma ZerosValue(a: string, z: string, s: nat)
    requires AllDigits(a)
    requires forall x | 0 <= x < |z| :: z[x] == '0'
    ensures AllDigits(a + z)
    ensures Value(Dec(ValueOf(a + z), s + |z|)) == Value(Dec(ValueOf(a), s))
  {
    assert ValueOf(a + z) == ValueOf(a) * Pow10(|z|) by {
      ValueOfZeros(z);
      ValueOfAppend(a, z);
    }
    ScaleInvariant(ValueOf(a), s, |z|);
  }
}
