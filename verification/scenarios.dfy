/**
  Concrete presses from start-up and concrete texts through the cleaner,
  worked out by the model.
*/
module Scenarios {
  import opened Wrappers
  import opened Digits
  import opened Decimal
  import opened Clean
  import opened Arithmetic
  import opened Calculator

  /** A run is its first press followed by the rest. */
  lemma RunFirst(s: State, b: Button, bs: seq<Button>)
    ensures Step(s, b).Next? ==> Run(s, [b] + bs) == Run(Step(s, b).state, bs)
    ensures Step(s, b).Crash? ==> Run(s, [b] + bs) == Step(s, b)
  {
    assert ([b] + bs)[0] == b && ([b] + bs)[1..] == bs;
  }

  /** The "=" button is PressEquals. */
  lemma StepEquals(s: State)
    ensures Step(s, Equals) == PressEquals(s)
  {
  }

  /** The M- button is Accumulate with a minus. */
  lemma StepMemoryMinus(s: State)
    ensures Step(s, MemoryMinus) == Next(Accumulate(s, Minus))
  {
  }

  /** "=" with a pending calculation that yields a text shows that text, cleaned. */
  lemma EqualsShows(s: State, text: string)
    requires s.previous != "" && s.operation.Some?
    requires Calculate(s.previous, s.current, s.operation.value) == Result(text)
    ensures PressEquals(s)
            == Next(s.(current := CleanNumber(text), previous := "", operation := None, isResult := true))
  {
  }

  /** "=" on a calculation that returns null throws. */
  lemma EqualsNull(s: State)
    requires s.previous != "" && s.operation.Some?
    requires Calculate(s.previous, s.current, s.operation.value) == Null
    ensures PressEquals(s) == Crash(NullResult)
  {
  }

  /** "=" on a calculation that throws throws. */
  lemma EqualsFault(s: State)
    requires s.previous != "" && s.operation.Some?
    requires Calculate(s.previous, s.current, s.operation.value) == ArithmeticFault
    ensures PressEquals(s) == Crash(DivisionByZeroScale)
  {
  }

  /** Two operands that parse, and no division by a zero, give the printed result. */
  lemma CalculateParsed(first: string, second: string, op: Op, a: Dec, b: Dec)
    requires Parse(first) == Some(a) && Parse(second) == Some(b)
    requires op != Over || b.unscaled != 0
    ensures Calculate(first, second, op) == Result(ToString(Apply(op, a, b)))
  {
  }

  lemma IntegerSum(m: int, n: int)
    ensures Apply(Plus, Dec(m, 0), Dec(n, 0)) == Dec(m + n, 0)
  {
    assert Rescale(Dec(m, 0), 0) == Dec(m, 0);
    assert Rescale(Dec(n, 0), 0) == Dec(n, 0);
  }

  /** A natural number is printed as its digits, which parse back to it. */
  lemma IntegerText(n: nat)
    ensures ToString(Dec(n, 0)) == NatDigits(n)
    ensures Parse(NatDigits(n)) == Some(Dec(n, 0))
  {
    assert Fractions.Abs(n) == n;
    ParseToString(Dec(n, 0));
  }

  /** The sum of two naturals typed as digits is printed as the digits of the sum. */
  lemma AddIntegers(m: nat, n: nat)
    ensures Calculate(NatDigits(m), NatDigits(n), Plus) == Result(NatDigits(m + n))
  {
    var a, b := NatDigits(m), NatDigits(n);
    IntegerText(m);
    IntegerText(n);
    CalculateParsed(a, b, Plus, Dec(m, 0), Dec(n, 0));
    IntegerSum(m, n);
    assert Calculate(a, b, Plus) == Result(ToString(Dec(m + n, 0)));
    IntegerText(m + n);
  }

  lemma AddOneTwo()
    ensures Calculate("1", "2", Plus) == Result("3")
  {
    assert NatDigits(1) == "1" && NatDigits(2) == "2" && NatDigits(3) == "3";
    AddIntegers(1, 2);
  }

  lemma OnePlusTwoSteps()
    ensures Step(Initial, Digit(1)) == Next(State("1", "", None, false, None, false))
    ensures Step(State("1", "", None, false, None, false), Operator(Plus))
            == Next(State("1", "", Some(Plus), false, None, false))
    ensures Step(State("1", "", Some(Plus), false, None, false), Digit(2))
            == Next(State("2", "1", Some(Plus), false, None, false))
  {
  }

  lemma CleanThree()
    ensures CleanNumber("3") == "3"
  {
    assert TrailingZeros("3") == 0;
  }

  lemma OnePlusTwoEquals()
    ensures PressEquals(State("2", "1", Some(Plus), false, None, false))
            == Next(State("3", "", None, true, None, false))
  {
    AddOneTwo();
    EqualsShows(State("2", "1", Some(Plus), false, None, false), "3");
    CleanThree();
  }

  /** 1 + 2 = shows 3 as a result. */
  lemma OnePlusTwo()
    ensures Run(Initial, [Digit(1), Operator(Plus), Digit(2), Equals])
            == Next(State("3", "", None, true, None, false))
  {
    OnePlusTwoSteps();
    OnePlusTwoEquals();
    RunFirst(Initial, Digit(1), [Operator(Plus), Digit(2), Equals]);
    RunFirst(State("1", "", None, false, None, false), Operator(Plus), [Digit(2), Equals]);
    RunFirst(State("1", "", Some(Plus), false, None, false), Digit(2), [Equals]);
    StepEquals(State("2", "1", Some(Plus), false, None, false));
    RunFirst(State("2", "1", Some(Plus), false, None, false), Equals, []);
  }

  /** Typing 0 on the start-up "0" gives "00": only a nonzero digit replaces it. */
  lemma ZeroAfterZero()
    ensures Step(Initial, Digit(0)) == Next(Initial.(current := "00"))
  {
  }

  lemma DivideFiveByZero()
    ensures Calculate("5", "0", Over) == Result(ErrorText)
  {
    assert NatDigits(5) == "5" && NatDigits(0) == "0";
    IntegerText(5);
    IntegerText(0);
  }

  lemma FiveOverZeroSteps()
    ensures Step(Initial, Digit(5)) == Next(State("5", "", None, false, None, false))
    ensures Step(State("5", "", None, false, None, false), Operator(Over))
            == Next(State("5", "", Some(Over), false, None, false))
    ensures Step(State("5", "", Some(Over), false, None, false), Digit(0))
            == Next(State("0", "5", Some(Over), false, None, false))
  {
  }

  lemma FiveOverZeroEquals()
    ensures PressEquals(State("0", "5", Some(Over), false, None, false))
            == Next(State(ErrorText, "", None, true, None, false))
  {
    DivideFiveByZero();
    EqualsShows(State("0", "5", Some(Over), false, None, false), ErrorText);
    ErrorTextInert();
  }

  /** An operator pressed while the division error shows is ignored. */
  lemma ErrorIgnoresOperator()
    ensures Step(State(ErrorText, "", None, true, None, false), Operator(Plus))
            == Next(State(ErrorText, "", None, true, None, false))
  {
  }

  /** 5 / 0 = shows the division error. */
  lemma FiveOverZero()
    ensures Run(Initial, [Digit(5), Operator(Over), Digit(0), Equals])
            == Next(State(ErrorText, "", None, true, None, false))
  {
    FiveOverZeroSteps();
    FiveOverZeroEquals();
    RunFirst(Initial, Digit(5), [Operator(Over), Digit(0), Equals]);
    RunFirst(State("5", "", None, false, None, false), Operator(Over), [Digit(0), Equals]);
    RunFirst(State("5", "", Some(Over), false, None, false), Digit(0), [Equals]);
    StepEquals(State("0", "5", Some(Over), false, None, false));
    RunFirst(State("0", "5", Some(Over), false, None, false), Equals, []);
  }

  /** The runs the cleaner's scan measures in "100". */
  lemma ScanHundred()
    ensures TrailingZeros("100") == 2 && NonzerosBeforeZeros("100") == 1 && LeadingDigits("100") == 3
  {
    var s := "100";
    assert ZerosBefore(s, 1) == 0 && ZerosBefore(s, 2) == 1 && ZerosBefore(s, 3) == 2;
    assert NonzerosBefore(s, 0) == 0 && NonzerosBefore(s, 1) == 1;
    assert AllDigits(s[..3]) by {
      assert s[..3] == s;
    }
    LeadingDigitsExact(s, 3);
  }

  /** The cleaner takes "100" for a match (its `.` is the middle zero) and
      leaves "1". */
  lemma CleanHundred()
    ensures CleanNumber("100") == "1"
  {
    ScanHundred();
    assert Matches("100");
    assert "100"[..1] == "1";
  }

  lemma ScanHundredPointZero()
    ensures TrailingZeros("100.0") == 1 && NonzerosBeforeZeros("100.0") == 0 && LeadingDigits("100.0") == 3
  {
    var s := "100.0";
    assert ZerosBefore(s, 4) == 0 && ZerosBefore(s, 5) == 1;
    assert NonzerosBefore(s, 4) == 0;
    assert AllDigits(s[..3]) by {
      assert s[..3] == "100";
    }
    LeadingDigitsExact(s, 3);
  }

  lemma CleanHundredPointZero()
    ensures CleanNumber("100.0") == "100"
  {
    ScanHundredPointZero();
    assert Matches("100.0");
    assert "100.0"[..3] == "100";
  }

  /** Cleaning is not idempotent: "100.0" is cleaned to "100", which is
      cleaned again to "1". */
  lemma CleanTwiceDiffers()
    ensures CleanNumber(CleanNumber("100.0")) != CleanNumber("100.0")
  {
    CleanHundred();
    CleanHundredPointZero();
  }

  lemma ScanFraction()
    ensures TrailingZeros("3.1400") == 2 && NonzerosBeforeZeros("3.1400") == 2 && LeadingDigits("3.1400") == 1
  {
    var s := "3.1400";
    assert ZerosBefore(s, 4) == 0 && ZerosBefore(s, 5) == 1 && ZerosBefore(s, 6) == 2;
    assert NonzerosBefore(s, 2) == 0 && NonzerosBefore(s, 3) == 1 && NonzerosBefore(s, 4) == 2;
    assert AllDigits(s[..1]) by {
      assert s[..1] == "3";
    }
    LeadingDigitsExact(s, 1);
  }

  /** Trailing zeros after nonzero fraction digits are dropped. */
  lemma CleanTrailingFractionZeros()
    ensures CleanNumber("3.1400") == "3.14"
  {
    ScanFraction();
    assert Matches("3.1400");
    assert "3.1400"[..4] == "3.14";
  }

  lemma ScanInnerZero()
    ensures TrailingZeros("1.050") == 1 && NonzerosBeforeZeros("1.050") == 1 && LeadingDigits("1.050") == 1
  {
    var s := "1.050";
    assert ZerosBefore(s, 4) == 0 && ZerosBefore(s, 5) == 1;
    assert NonzerosBefore(s, 3) == 0 && NonzerosBefore(s, 4) == 1;
    assert AllDigits(s[..1]) by {
      assert s[..1] == "1";
    }
    LeadingDigitsExact(s, 1);
  }

  /** A zero followed by a nonzero digit in the fraction stops the match, so
      a trailing zero after it stays. */
  lemma CleanKeepsInnerZero()
    ensures CleanNumber("1.050") == "1.050"
  {
    ScanInnerZero();
    assert !Matches("1.050");
  }

  /** Texts without trailing zeros, or not starting with a digit, are left alone. */
  lemma CleanLeavesUnmatched()
    ensures CleanNumber("3.14") == "3.14"
    ensures CleanNumber("1.5") == "1.5"
  {
    assert TrailingZeros("3.14") == 0;
    assert TrailingZeros("1.5") == 0;
  }

  lemma ScanNegative()
    ensures TrailingZeros("-2.50") == 1 && NonzerosBeforeZeros("-2.50") == 1 && LeadingDigits("-2.50") == 0
  {
    var s := "-2.50";
    assert ZerosBefore(s, 4) == 0 && ZerosBefore(s, 5) == 1;
    assert NonzerosBefore(s, 3) == 0 && NonzerosBefore(s, 4) == 1;
  }

  /** A negative result does not match: the pattern needs a leading digit. */
  lemma CleanLeavesNegative()
    ensures CleanNumber("-2.50") == "-2.50"
  {
    ScanNegative();
    assert !Matches("-2.50");
  }

  lemma ScanThreePointZero()
    ensures TrailingZeros("3.0") == 1 && NonzerosBeforeZeros("3.0") == 0 && LeadingDigits("3.0") == 1
  {
    var s := "3.0";
    assert ZerosBefore(s, 2) == 0 && ZerosBefore(s, 3) == 1;
    assert NonzerosBefore(s, 2) == 0;
    assert AllDigits(s[..1]) by {
      assert s[..1] == "3";
    }
    LeadingDigitsExact(s, 1);
  }

  /** A fraction part of zeros goes, and the point with it. */
  lemma CleanDropsPoint()
    ensures CleanNumber("3.0") == "3"
  {
    ScanThreePointZero();
    assert Matches("3.0");
    assert "3.0"[..1] == "3";
  }

  lemma FiftyAndHundred()
    ensures NatDigits(50) == "50" && NatDigits(100) == "100"
  {
    assert NatDigits(5) == "5" && NatDigits(1) == "1";
    assert NatDigits(10) == "10";
  }

  lemma AddFiftyFifty()
    ensures Calculate("50", "50", Plus) == Result("100")
  {
    FiftyAndHundred();
    AddIntegers(50, 50);
  }

  lemma FiftyPlusFiftySteps()
    ensures Step(Initial, Digit(5)) == Next(State("5", "", None, false, None, false))
    ensures Step(State("5", "", None, false, None, false), Digit(0))
            == Next(State("50", "", None, false, None, false))
    ensures Step(State("50", "", None, false, None, false), Operator(Plus))
            == Next(State("50", "", Some(Plus), false, None, false))
    ensures Step(State("50", "", Some(Plus), false, None, false), Digit(5))
            == Next(State("5", "50", Some(Plus), false, None, false))
    ensures Step(State("5", "50", Some(Plus), false, None, false), Digit(0))
            == Next(State("50", "50", Some(Plus), false, None, false))
  {
  }

  lemma FiftyPlusFiftyEquals()
    ensures PressEquals(State("50", "50", Some(Plus), false, None, false))
            == Next(State("1", "", None, true, None, false))
  {
    AddFiftyFifty();
    EqualsShows(State("50", "50", Some(Plus), false, None, false), "100");
    CleanHundred();
  }

  /** 50 + 50 = shows 1: BigDecimal prints 100 and the cleaner strips its zeros. */
  lemma FiftyPlusFifty()
    ensures Run(Initial, [Digit(5), Digit(0), Operator(Plus), Digit(5), Digit(0), Equals])
            == Next(State("1", "", None, true, None, false))
  {
    FiftyPlusFiftySteps();
    FiftyPlusFiftyEquals();
    RunFirst(Initial, Digit(5), [Digit(0), Operator(Plus), Digit(5), Digit(0), Equals]);
    RunFirst(State("5", "", None, false, None, false), Digit(0), [Operator(Plus), Digit(5), Digit(0), Equals]);
    RunFirst(State("50", "", None, false, None, false), Operator(Plus), [Digit(5), Digit(0), Equals]);
    RunFirst(State("50", "", Some(Plus), false, None, false), Digit(5), [Digit(0), Equals]);
    RunFirst(State("5", "50", Some(Plus), false, None, false), Digit(0), [Equals]);
    StepEquals(State("50", "50", Some(Plus), false, None, false));
    RunFirst(State("50", "50", Some(Plus), false, None, false), Equals, []);
  }

  lemma DivideSevenByZeroPointZero()
    ensures Calculate("7", "0.0", Over) == ArithmeticFault
  {
    assert NatDigits(7) == "7";
    IntegerText(7);
    assert "0.0" == Pointed("0", "0");
    ParsePointed("0", "0");
    assert ValueOf("00") == 0 by {
      assert "00"[..1] == "0" && "0"[..0] == "";
    }
  }

  lemma ZeroPointZeroSteps()
    ensures Step(Initial, Digit(7)) == Next(State("7", "", None, false, None, false))
    ensures Step(State("7", "", None, false, None, false), Operator(Over))
            == Next(State("7", "", Some(Over), false, None, false))
    ensures Step(State("7", "", Some(Over), false, None, false), Digit(0))
            == Next(State("0", "7", Some(Over), false, None, false))
    ensures Step(State("0", "7", Some(Over), false, None, false), Dot)
            == Next(State("0.", "7", Some(Over), false, None, false))
    ensures Step(State("0.", "7", Some(Over), false, None, false), Digit(0))
            == Next(State("0.0", "7", Some(Over), false, None, false))
  {
  }

  /** 7 / 0 . 0 = throws: "0.0" is a zero BigDecimal that is not
      BigDecimal.ZERO, so it passes the zero check and the division throws. */
  lemma DivideByZeroPointZero()
    ensures Run(Initial, [Digit(7), Operator(Over), Digit(0), Dot, Digit(0), Equals])
            == Crash(DivisionByZeroScale)
  {
    ZeroPointZeroSteps();
    DivideSevenByZeroPointZero();
    EqualsFault(State("0.0", "7", Some(Over), false, None, false));
    StepEquals(State("0.0", "7", Some(Over), false, None, false));
    RunFirst(Initial, Digit(7), [Operator(Over), Digit(0), Dot, Digit(0), Equals]);
    RunFirst(State("7", "", None, false, None, false), Operator(Over), [Digit(0), Dot, Digit(0), Equals]);
    RunFirst(State("7", "", Some(Over), false, None, false), Digit(0), [Dot, Digit(0), Equals]);
    RunFirst(State("0", "7", Some(Over), false, None, false), Dot, [Digit(0), Equals]);
    RunFirst(State("0.", "7", Some(Over), false, None, false), Digit(0), [Equals]);
    RunFirst(State("0.0", "7", Some(Over), false, None, false), Equals, []);
  }

  /** The difference of two naturals typed as digits is printed as that integer. */
  lemma SubtractIntegers(m: nat, n: nat)
    ensures Calculate(NatDigits(m), NatDigits(n), Minus) == Result(ToString(Dec(m - n, 0)))
  {
    IntegerText(m);
    IntegerText(n);
    CalculateParsed(NatDigits(m), NatDigits(n), Minus, Dec(m, 0), Dec(n, 0));
    IntegerDifference(m, n);
  }

  lemma IntegerDifference(m: int, n: int)
    ensures Apply(Minus, Dec(m, 0), Dec(n, 0)) == Dec(m - n, 0)
  {
    assert Rescale(Dec(m, 0), 0) == Dec(m, 0);
    assert Rescale(Dec(-n, 0), 0) == Dec(-n, 0);
  }

  /** A negative integer is printed as a minus sign and its magnitude's digits. */
  lemma NegativeText(n: nat)
    requires n > 0
    ensures ToString(Dec(-(n as int), 0)) == "-" + NatDigits(n)
  {
    assert Fractions.Abs(-(n as int)) == n;
  }

  lemma MinusFiveText()
    ensures ToString(Dec(-5, 0)) == "-5"
  {
    NegativeText(5);
    assert NatDigits(5) == "5";
  }

  lemma SubtractFiveFromZero()
    ensures Calculate("0", "5", Minus) == Result("-5")
  {
    assert NatDigits(0) == "0" && NatDigits(5) == "5";
    SubtractIntegers(0, 5);
    MinusFiveText();
  }

  /** M- with a calculation that yields a text stores that text and lights the indicator. */
  lemma MemoryMinusStores(s: State, text: string)
    requires Calculate(MemoryText(s.memory), s.current, Minus) == Result(text)
    ensures Accumulate(s, Minus) == s.(memory := Some(text), memoryShown := true)
  {
  }

  lemma LoneMinusStore()
    ensures Accumulate(State("5", "", None, false, None, false), Minus)
            == State("5", "", None, false, Some("-5"), true)
  {
    SubtractFiveFromZero();
    assert MemoryText(None) == "0";
    MemoryMinusStores(State("5", "", None, false, None, false), "-5");
  }

  lemma LoneMinusSteps()
    ensures Step(Initial, Digit(5)) == Next(State("5", "", None, false, None, false))
    ensures Step(State("5", "", None, false, None, false), MemoryMinus)
            == Next(State("5", "", None, false, Some("-5"), true))
  {
    LoneMinusStore();
    StepMemoryMinus(State("5", "", None, false, None, false));
  }

  /** The division error, a lone minus, a lone point and a minus with a
      point are not numbers; a point with a digit after it is. */
  lemma ParseRejects()
    ensures Parse("ERR").None? && Parse("-").None? && Parse(".").None? && Parse("-.").None?
    ensures Parse(".5").Some? && Parse("-.5").Some?
  {
    ParseFails("ERR");
    ParseFails("-");
    assert "-"[1..] == "";
    ParseFails(".");
    ParseFails("-.");
    assert "-."[1..] == ".";
    ParseFails(".5");
    ParseFails("-.5");
    assert "-.5"[1..] == ".5";
  }

  /** A lone minus sign is not a number. */
  lemma LoneMinusNull()
    ensures Calculate("-", "3", Plus) == Null
  {
    assert Parse("-") == None by {
      assert "-"[1..] == "";
    }
  }

  lemma LoneMinusEquals()
    ensures PressEquals(State("3", "-", Some(Plus), false, Some("-5"), true)) == Crash(NullResult)
  {
    LoneMinusNull();
    EqualsNull(State("3", "-", Some(Plus), false, Some("-5"), true));
  }

  lemma LoneMinusRecall()
    ensures Step(State("5", "", None, false, Some("-5"), true), MemoryRecall)
            == Next(State("-5", "", None, false, Some("-5"), true))
  {
  }

  lemma LoneMinusMoreSteps()
    ensures Step(State("-5", "", None, false, Some("-5"), true), Delete)
            == Next(State("-", "", None, false, Some("-5"), true))
    ensures Step(State("-", "", None, false, Some("-5"), true), Operator(Plus))
            == Next(State("-", "", Some(Plus), false, Some("-5"), true))
    ensures Step(State("-", "", Some(Plus), false, Some("-5"), true), Digit(3))
            == Next(State("3", "-", Some(Plus), false, Some("-5"), true))
  {
  }

  /** 5 M- MR, delete, + 3 = throws: the recalled "-5" loses its digit, and
      the lone "-" that becomes the first operand is not a number, so
      calculate returns null and cleanNumber dereferences it. */
  lemma LoneMinusOperand()
    ensures Run(Initial, [Digit(5), MemoryMinus, MemoryRecall, Delete, Operator(Plus), Digit(3), Equals])
            == Crash(NullResult)
  {
    LoneMinusSteps();
    LoneMinusRecall();
    LoneMinusMoreSteps();
    var f := State("3", "-", Some(Plus), false, Some("-5"), true);
    LoneMinusEquals();
    StepEquals(f);
    RunFirst(Initial, Digit(5), [MemoryMinus, MemoryRecall, Delete, Operator(Plus), Digit(3), Equals]);
    RunFirst(State("5", "", None, false, None, false), MemoryMinus,
             [MemoryRecall, Delete, Operator(Plus), Digit(3), Equals]);
    RunFirst(State("5", "", None, false, Some("-5"), true), MemoryRecall,
             [Delete, Operator(Plus), Digit(3), Equals]);
    RunFirst(State("-5", "", None, false, Some("-5"), true), Delete, [Operator(Plus), Digit(3), Equals]);
    RunFirst(State("-", "", None, false, Some("-5"), true), Operator(Plus), [Digit(3), Equals]);
    RunFirst(State("-", "", Some(Plus), false, Some("-5"), true), Digit(3), [Equals]);
    RunFirst(f, Equals, []);
  }

  lemma Pow10Sixteen()
    ensures Pow10(16) == 10000000000000000
    ensures Pow10(17) == 100000000000000000
  {
    assert Pow10(4) == 10000;
    Pow10Add(4, 4);
    Pow10Add(8, 8);
    Pow10Add(16, 1);
  }

  /** Two thirds to sixteen places: the remainder is more than half the
      divisor, so the last digit goes up. */
  lemma TwoThirds()
    ensures Divide(Dec(2, 0), Dec(3, 0)) == Dec(6666666666666667, 16)
    ensures Divide(Dec(-2, 0), Dec(3, 0)) == Dec(-6666666666666667, 16)
  {
    Pow10Sixteen();
    assert Pow10(16 + 0) == 10000000000000000 && Pow10(0) == 1;
    var n := 20000000000000000;
    assert n / 3 == 6666666666666666 && n % 3 == 2;
    assert Fractions.Magnitude(n, 3) == 6666666666666667;
    assert Fractions.RoundHalfDown(n, 3) == 6666666666666667;
    assert Fractions.RoundHalfDown(-n, 3) == -6666666666666667;
  }

  /** An exact tie at the sixteenth place is rounded towards zero. */
  lemma TieRoundsDown()
    ensures Divide(Dec(15, 17), Dec(1, 0)) == Dec(1, 16)
    ensures Divide(Dec(-15, 17), Dec(1, 0)) == Dec(-1, 16)
  {
    Pow10Sixteen();
  }
}
