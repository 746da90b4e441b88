/**
  How button presses relate to one another: what delete takes back, what
  clear forgets, what the memory buttons add up, and which values the
  displays keep.
*/
module Presses {
  import opened Wrappers
  import opened Digits
  import opened Decimal
  import opened Clean
  import opened Arithmetic
  import opened CleanedResults
  import opened Calculator

  /** Delete takes back a digit typed into a number. */
  lemma DeleteUndoesDigit(s: State, d: DigitKey)
    requires !s.isResult && !AwaitingOperand(s) && |s.current| >= 1
    ensures PressDelete(PressDigit(s, d)) == s
  {
    var t := PressDigit(s, d);
    assert !Restoring(t) by {
      if s.current == "0" && d != 0 {
        assert t.current == [DigitChar(d)];
      } else {
        assert t.current == s.current + [DigitChar(d)];
      }
    }
    if |t.current| > 1 {
      assert t.current[..|t.current| - 1] == s.current;
    }
  }

  /** Delete takes back a decimal point typed into a number. */
  lemma DeleteUndoesDot(s: State)
    requires '.' !in s.current && !s.isResult && !AwaitingOperand(s) && |s.current| >= 1
    ensures PressDelete(PressDot(s)) == s
  {
    var t := PressDot(s);
    assert t.current == s.current + ".";
    assert t.current[..|t.current| - 1] == s.current;
  }

  /** Delete takes back an operator chosen after a number. */
  lemma DeleteUndoesOperator(s: State, op: Op)
    requires s.operation.None? && s.previous == "" && !s.isResult && s.current != ErrorText
    ensures PressDelete(PressOperator(s, op)) == s
  {
  }

  /** An operator, a zero and delete bring the first operand back onto the
      main display with no operator chosen. */
  lemma DeleteRestoresOperand(s: State, op: Op)
    requires s.operation.None? && s.previous == "" && !s.isResult
    requires s.current != ErrorText && s.current != ""
    ensures Run(s, [Operator(op), Digit(0), Delete]) == Next(s)
  {
    var t := PressOperator(s, op);
    var u := PressDigit(t, 0);
    assert u == t.(previous := s.current, current := "0");
    assert Run(s, [Operator(op), Digit(0), Delete]) == Run(u, [Delete]);
  }

  /** Of two operators pressed in a row only the second counts. */
  lemma OperatorLastWins(s: State, a: Op, b: Op)
    ensures PressOperator(PressOperator(s, a), b) == PressOperator(s, b)
  {
  }

  /** Clear forgets everything but the memory: two states that share a memory
      clear to the same state, and clearing twice is clearing once. */
  lemma ClearForgets(s: State, s': State)
    requires s.memory == s'.memory && s.memoryShown == s'.memoryShown
    ensures PressClear(s) == PressClear(s')
    ensures PressClear(PressClear(s)) == PressClear(s)
  {
  }

  /** After MC, MR changes nothing. */
  lemma RecallAfterMemoryClear(s: State)
    ensures PressMemoryRecall(PressMemoryClear(s)) == PressMemoryClear(s)
  {
  }

  /** A second "=" right after a calculation changes nothing. */
  lemma EqualsSettles(s: State)
    requires PressEquals(s).Next?
    ensures PressEquals(PressEquals(s).state) == PressEquals(s)
  {
  }

  /** A digit typed into a number of digits shifts its value one place and
      adds the digit, the leading "0" replaced or (for a zero) kept. */
  lemma DigitShiftsValue(s: State, d: DigitKey)
    requires Typing(s) && |s.current| >= 1 && AllDigits(s.current)
    ensures AllDigits(PressDigit(s, d).current)
    ensures ValueOf(PressDigit(s, d).current) == 10 * ValueOf(s.current) + d
  {
    var c := [DigitChar(d)];
    assert ValueOf(c) == d by {
      assert c[..0] == [];
    }
    if s.current == "0" && d != 0 {
      assert ValueOf(s.current) == 0 by {
        assert s.current[..0] == [];
      }
    } else {
      AllDigitsAppend(s.current, c);
      ValueOfAppend(s.current, c);
    }
  }

  /** "=" on two numbers whose result BigDecimal prints with a fraction part
      shows a text that reads back as the operator's result: the cleaner
      drops only zeros after the point. */
  lemma EqualsKeepsValue(s: State)
    requires s.previous != "" && s.operation.Some?
    requires Parse(s.previous).Some? && Parse(s.current).Some?
    requires s.operation != Some(Over) || Parse(s.current).value.unscaled != 0
    requires ResultScale(s.operation.value, Parse(s.previous).value, Parse(s.current).value) > 0
    ensures PressEquals(s).Next?
    ensures Parse(PressEquals(s).state.current).Some?
    ensures Denotes(s.operation.value, Parse(s.previous).value, Parse(s.current).value,
                    Value(Parse(PressEquals(s).state.current).value))
  {
    var op, a, b := s.operation.value, Parse(s.previous).value, Parse(s.current).value;
    var d := Apply(op, a, b);
    assert Calculate(s.previous, s.current, op) == Result(ToString(d));
    CleanKeepsFractionValue(d);
  }

  /** M+ on an empty memory, then MR, shows a number worth what the display showed. */
  lemma StoreThenRecall(s: State)
    requires s.memory.None? && Parse(s.current).Some?
    ensures Parse(PressMemoryRecall(Accumulate(s, Plus)).current).Some?
    ensures Value(Parse(PressMemoryRecall(Accumulate(s, Plus)).current).value) == Value(Parse(s.current).value)
    ensures !PressMemoryRecall(Accumulate(s, Plus)).isResult
  {
    assert Parse("0") == Some(Dec(0, 0)) by {
      ParseUnsignedInteger("0");
      assert "0"[..0] == [];
    }
    assert Value(Dec(0, 0)) == 0.0;
  }

  /** M+ and then M- of the same display leave the memory worth what it was. */
  lemma AccumulateCancels(s: State)
    requires s.memory.Some? && Parse(s.memory.value).Some? && Parse(s.current).Some?
    ensures Accumulate(Accumulate(s, Plus), Minus).memory.Some?
    ensures Value(Parse(Accumulate(Accumulate(s, Plus), Minus).memory.value).value)
            == Value(Parse(s.memory.value).value)
  {
  }
}
