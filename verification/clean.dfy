/**
  The calculator's trailing-zero cleaner: a text that fully matches the
  regular expression `[0-9]+.[1-9]*0+` loses its trailing run of zeros and
  then a dangling point. The `.` of the expression is not escaped, so it
  stands for any character other than a line terminator, not only for the
  decimal point; "100" matches and is cleaned to "1".
*/
module Clean {
  import opened Digits

  /** The characters a `.` in a java.util.regex pattern does not match. */
  predicate IsLineTerminator(c: char) {
    c == '\n' || c == '\r' || c == '\U{0085}' || c == '\U{2028}' || c == '\U{2029}'
  }

  predicate IsNonzeroDigit(c: char) {
    '1' <= c <= '9'
  }

  /** The characters at positions lo .. hi-1 are digits. This is AllDigits of
      a slice, written over the text's own positions so that the pattern
      below is a single quantifier over `s` with no slice terms to unfold;
      DigitsPrefix converts between the two forms. */
  predicate DigitsIn(s: string, lo: nat, hi: nat)
    requires lo <= hi <= |s|
  {
    forall x | lo <= x < hi :: IsDigit(s[x])
  }

  /** The characters at positions lo .. hi-1 are nonzero digits. */
  predicate NonzerosIn(s: string, lo: nat, hi: nat)
    requires lo <= hi <= |s|
  {
    forall x | lo <= x < hi :: IsNonzeroDigit(s[x])
  }

  /** The characters at positions lo .. hi-1 are zeros. */
  predicate ZerosIn(s: string, lo: nat, hi: nat)
    requires lo <= hi <= |s|
  {
    forall x | lo <= x < hi :: s[x] == '0'
  }

  /** Full match of `[0-9]+.[1-9]*0+`, read off the regular expression: the
      `[0-9]+` is s[..i], the `.` consumes s[i], the `[1-9]*` is s[i+1..k]
      and the `0+` is s[k..]. */
  ghost predicate MatchesPattern(s: string) {
    exists i, k | 1 <= i < k < |s| ::
      DigitsIn(s, 0, i) && !IsLineTerminator(s[i]) && NonzerosIn(s, i + 1, k) && ZerosIn(s, k, |s|)
  }

  lemma DigitsPrefix(s: string, i: nat)
    requires i <= |s|
    ensures DigitsIn(s, 0, i) <==> AllDigits(s[..i])
  {
    if DigitsIn(s, 0, i) {
      forall x | 0 <= x < i
        ensures IsDigit(s[..i][x])
      {
        assert s[..i][x] == s[x];
      }
    }
    if AllDigits(s[..i]) {
      forall x | 0 <= x < i
        ensures IsDigit(s[x])
      {
        assert s[..i][x] == s[x];
      }
    }
  }

  /** Length of the run of zeros that ends just before position e. */
  function ZerosBefore(s: string, e: nat): (n: nat)
    requires e <= |s|
    ensures n <= e && ZerosIn(s, e - n, e)
    ensures n < e ==> s[e - n - 1] != '0'
  {
    if e == 0 || s[e - 1] != '0' then 0 else 1 + ZerosBefore(s, e - 1)
  }

  /** Length of the run of nonzero digits that ends just before position e. */
  function NonzerosBefore(s: string, e: nat): (n: nat)
    requires e <= |s|
    ensures n <= e && NonzerosIn(s, e - n, e)
    ensures n < e ==> !IsNonzeroDigit(s[e - n - 1])
  {
    if e == 0 || !IsNonzeroDigit(s[e - 1]) then 0 else 1 + NonzerosBefore(s, e - 1)
  }

  lemma ZerosBeforeMaximal(s: string, e: nat, m: nat)
    requires m <= e <= |s| && ZerosIn(s, e - m, e)
    ensures m <= ZerosBefore(s, e)
  {
  }

  lemma NonzerosBeforeMaximal(s: string, e: nat, m: nat)
    requires m <= e <= |s| && NonzerosIn(s, e - m, e)
    ensures m <= NonzerosBefore(s, e)
  {
  }

  /** Length of the run of zeros that ends the text. */
  function TrailingZeros(s: string): (z: nat)
    ensures z <= |s|
  {
    ZerosBefore(s, |s|)
  }

  /** Length of the run of nonzero digits just before the trailing zeros. */
  function NonzerosBeforeZeros(s: string): (p: nat)
    ensures p <= |s| - TrailingZeros(s)
  {
    NonzerosBefore(s, |s| - TrailingZeros(s))
  }

  /** One past the earliest place the `.` of the pattern can sit: the suffix
      `[1-9]*0+` can start no earlier than the run of nonzero digits before
      the trailing zeros, and the `[0-9]+` needs one character. */
  function TailStart(s: string): nat {
    var start := |s| - TrailingZeros(s) - NonzerosBeforeZeros(s);
    if start < 2 then 2 else start
  }

  /** Where any match's suffix `[1-9]*0+` starts, relative to the runs the scan measures. */
  lemma SuffixStart(s: string, i: nat, k: nat)
    requires i < k < |s| && NonzerosIn(s, i + 1, k) && ZerosIn(s, k, |s|)
    ensures TrailingZeros(s) >= 1
    ensures i + 1 >= |s| - TrailingZeros(s) - NonzerosBeforeZeros(s)
  {
    ZerosBeforeMaximal(s, |s|, |s| - k);
    var z := TrailingZeros(s);
    if i + 1 < k {
      assert IsNonzeroDigit(s[k - 1]);
      assert z == |s| - k;
      NonzerosBeforeMaximal(s, k, k - (i + 1));
    }
  }

  /** Any full match is found by the scan. */
  lemma MatchFound(s: string)
    ensures MatchesPattern(s) ==>
              && TrailingZeros(s) > 0 && TailStart(s) < |s|
              && TailStart(s) - 1 <= LeadingDigits(s) && !IsLineTerminator(s[TailStart(s) - 1])
  {
    if MatchesPattern(s) {
      var i, k :| 1 <= i < k < |s| && DigitsIn(s, 0, i) && !IsLineTerminator(s[i])
                  && NonzerosIn(s, i + 1, k) && ZerosIn(s, k, |s|);
      SuffixStart(s, i, k);
      var j := TailStart(s);
      assert 2 <= j <= i + 1;
      assert i <= LeadingDigits(s) by {
        DigitsPrefix(s, i);
        LeadingDigitsMaximal(s, i);
      }
      if j - 1 < i {
        assert IsDigit(s[j - 1]);
      }
    }
  }

  /** The scan's witness is a match: the `.` at `i`, the suffix after it. */
  lemma MatchesAt(s: string, i: nat)
    requires TrailingZeros(s) > 0 && i + 1 == TailStart(s) && i + 1 < |s|
    requires i <= LeadingDigits(s) && !IsLineTerminator(s[i])
    ensures MatchesPattern(s)
  {
    var z := TrailingZeros(s);
    var k := if i + 1 <= |s| - z then |s| - z else i + 1;
    DigitsPrefix(s, LeadingDigits(s));
    assert DigitsIn(s, 0, i);
    assert NonzerosIn(s, i + 1, k) && ZerosIn(s, k, |s|);
  }

  /** The cleaner's test, as a reading of the text from its end: a trailing
      run of zeros, and a `[0-9]+` and a `.` before the longest possible
      `[1-9]*0+` suffix. It is exactly the full match of the pattern. */
  function Matches(s: string): (b: bool)
    ensures b <==> MatchesPattern(s)
  {
    var j := TailStart(s);
    MatchFound(s);
    if TrailingZeros(s) > 0 && j < |s| && j - 1 <= LeadingDigits(s) && !IsLineTerminator(s[j - 1]) then
      MatchesAt(s, j - 1);
      true
    else
      false
  }

  /** cleanNumber: a matching text loses its trailing zeros, then a trailing
      point; any other text is returned unchanged. */
  function CleanNumber(s: string): (r: string)
    ensures !MatchesPattern(s) ==> r == s
    ensures MatchesPattern(s) ==> |r| < |s| && r == s[..|r|]
    ensures MatchesPattern(s) ==> ZerosIn(s, |r|, |s|) || (s[|r|] == '.' && ZerosIn(s, |r| + 1, |s|))
    ensures MatchesPattern(s) && ZerosIn(s, |r|, |s|) ==> |r| == 0 || s[|r| - 1] != '0'
    ensures MatchesPattern(s) && |r| > 0 ==> s[|r| - 1] != '.'
  {
    if Matches(s) then
      var e := |s| - TrailingZeros(s);
      if e > 1 && s[e - 1] == '.' then
        DotNotDoubled(s, e - 2);
        s[..e - 1]
      else
        s[..e]
    else
      s
  }

  /** In a matching text the character before a point that precedes the
      trailing zeros is not a point. */
  lemma DotNotDoubled(s: string, x: nat)
    requires MatchesPattern(s)
    requires x + 2 == |s| - TrailingZeros(s) && s[x + 1] == '.'
    ensures s[x] != '.'
  {
    var i, k :| 1 <= i < k < |s| && DigitsIn(s, 0, i) && !IsLineTerminator(s[i])
                && NonzerosIn(s, i + 1, k) && ZerosIn(s, k, |s|);
    SuffixStart(s, i, k);
    assert NonzerosBeforeZeros(s) == 0;
    assert IsDigit(s[x]);
  }
}
