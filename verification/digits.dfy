/**
  Decimal digit characters and the strings built from them: the vocabulary
  shared by the number parser, the number printer and the trailing-zero
  cleaner of the calculator.
*/
module Digits {

  predicate IsDigit(c: char) {
    '0' <= c <= '9'
  }

  predicate AllDigits(s: string) {
    forall i | 0 <= i < |s| :: IsDigit(s[i])
  }

  function DigitValue(c: char): (d: nat)
    requires IsDigit(c)
    ensures d < 10
  {
    c as int - '0' as int
  }

  function DigitChar(d: nat): (c: char)
    requires d < 10
    ensures IsDigit(c) && DigitValue(c) == d
  {
    ('0' as int + d) as char
  }

  function Pow10(n: nat): (p: nat)
    ensures p >= 1
  {
    if n == 0 then 1 else 10 * Pow10(n - 1)
  }

  lemma {:induction false} Pow10Add(a: nat, b: nat)
    ensures Pow10(a + b) == Pow10(a) * Pow10(b)
  {
    if a > 0 {
      Pow10Add(a - 1, b);
      calc {
        Pow10(a + b);
        10 * Pow10(a - 1 + b);
        10 * (Pow10(a - 1) * Pow10(b));
        (10 * Pow10(a - 1)) * Pow10(b);
      }
    }
  }

  /** The number a string of digits denotes, most significant digit first. */
  function ValueOf(s: string): (v: nat)
    requires AllDigits(s)
    ensures v < Pow10(|s|)
  {
    if |s| == 0 then 0 else 10 * ValueOf(s[..|s| - 1]) + DigitValue(s[|s| - 1])
  }

  lemma AllDigitsAppend(a: string, b: string)
    requires AllDigits(a) && AllDigits(b)
    ensures AllDigits(a + b)
  {
    forall i | 0 <= i < |a + b|
      ensures IsDigit((a + b)[i])
    {
      if i >= |a| {
        assert (a + b)[i] == b[i - |a|];
      }
    }
  }

  lemma {:induction false} ValueOfAppend(a: string, b: string)
    requires AllDigits(a) && AllDigits(b)
    ensures AllDigits(a + b)
    ensures ValueOf(a + b) == ValueOf(a) * Pow10(|b|) + ValueOf(b)
  {
    AllDigitsAppend(a, b);
    if |b| == 0 {
      assert a + b == a;
    } else {
      var b' := b[..|b| - 1];
      var d := DigitValue(b[|b| - 1]);
      assert (a + b)[..|a + b| - 1] == a + b';
      ValueOfAppend(a, b');
      var va, vb', p := ValueOf(a), ValueOf(b'), Pow10(|b'|);
      assert ValueOf(a + b) == 10 * ValueOf(a + b') + d;
      MulAssoc10(va, p);
    }
  }

  lemma MulAssoc10(x: int, p: int)
    ensures 10 * (x * p) == x * (10 * p)
  {
  }

  /** A string of zeros denotes zero. */
  lemma {:induction false} ValueOfZeros(s: string)
    requires forall i | 0 <= i < |s| :: s[i] == '0'
    ensures AllDigits(s) && ValueOf(s) == 0
  {
    if |s| > 0 {
      ValueOfZeros(s[..|s| - 1]);
    }
  }

  /** Length of the run of digits that starts the string. */
  function LeadingDigits(s: string): (k: nat)
    ensures k <= |s|
    ensures AllDigits(s[..k])
    ensures k < |s| ==> !IsDigit(s[k])
  {
    if |s| == 0 || !IsDigit(s[0]) then 0
    else
      var k' := LeadingDigits(s[1..]);
      assert s[..1 + k'] == [s[0]] + s[1..][..k'];
      1 + k'
  }

  /** Both pieces of a digit string cut at `n` are digit strings. */
  lemma SplitDigits(s: string, n: nat)
    requires AllDigits(s) && n <= |s|
    ensures AllDigits(s[..n]) && AllDigits(s[n..])
    ensures s[..n] + s[n..] == s
  {
    assert forall x | 0 <= x < n :: s[..n][x] == s[x];
    assert forall x | 0 <= x < |s| - n :: s[n..][x] == s[n + x];
  }

  /** The first |a| + n characters of a + b are a and the first n of b. */
  lemma PrefixOfAppend(a: string, b: string, n: nat)
    requires n <= |b|
    ensures (a + b)[..|a| + n] == a + b[..n]
  {
    var p, q := (a + b)[..|a| + n], a + b[..n];
    forall x | 0 <= x < |p|
      ensures p[x] == q[x]
    {
      if x >= |a| {
        assert q[x] == b[..n][x - |a|];
      }
    }
  }

  /** A run of digits followed by the end or by a non-digit is the leading run. */
  lemma {:induction false} LeadingDigitsExact(s: string, i: nat)
    requires i <= |s| && AllDigits(s[..i])
    requires i < |s| ==> !IsDigit(s[i])
    ensures LeadingDigits(s) == i
  {
    if i > 0 {
      assert IsDigit(s[..i][0]);
      TailDigits(s, i);
      LeadingDigitsExact(s[1..], i - 1);
    }
  }

  /** Any run of leading digits is at most as long as the maximal one. */
  lemma {:induction false} LeadingDigitsMaximal(s: string, i: nat)
    requires i <= |s| && AllDigits(s[..i])
    ensures i <= LeadingDigits(s)
  {
    if i > 0 {
      assert IsDigit(s[..i][0]);
      TailDigits(s, i);
      LeadingDigitsMaximal(s[1..], i - 1);
    }
  }

  /** Dropping the first of the leading digits keeps the rest leading. */
  lemma TailDigits(s: string, i: nat)
    requires 0 < i <= |s| && AllDigits(s[..i])
    ensures AllDigits(s[1..][..i - 1])
  {
    var rest := s[1..][..i - 1];
    forall x | 0 <= x < |rest|
      ensures IsDigit(rest[x])
    {
      assert rest[x] == s[..i][x + 1];
    }
  }

  /** The shortest digit string denoting `n`: no leading zero unless `n` is zero. */
  function NatDigits(n: nat): (s: string)
    ensures |s| >= 1 && AllDigits(s) && ValueOf(s) == n
    ensures s[0] == '0' <==> n == 0
    ensures n == 0 ==> s == "0"
  {
    if n < 10 then [DigitChar(n)]
    else
      var s' := NatDigits(n / 10);
      var s := s' + [DigitChar(n % 10)];
      assert s[..|s| - 1] == s';
      s
  }

  /** The digits of `n`, with leading zeros to make at least `w` of them. */
  function PadDigits(n: nat, w: nat): (s: string)
    requires w >= 1
    ensures |s| >= w && AllDigits(s) && ValueOf(s) == n
    ensures |s| > w ==> s[0] != '0'
  {
    var t := NatDigits(n);
    if |t| >= w then t
    else
      var z: string := seq(w - |t|, _ => '0');
      ValueOfZeros(z);
      ValueOfAppend(z, t);
      z + t
  }
}
