/**
  The button interpreter of the calculator's main screen. The state is what
  the four displays show, the result-state flag and the memory; a button
  press maps a state to the next state, or to the exception the handler
  throws.
*/
module Calculator {
  import opened Wrappers
  import opened Digits
  import opened Decimal
  import opened Clean
  import opened Arithmetic
  import opened CleanedResults

  /** The value written on a digit button. */
  type DigitKey = d: nat | d < 10

  /** The buttons the interpreter handles; the square root button is not modelled. */
  datatype Button =
    | Digit(d: DigitKey)
    | Dot
    | Operator(op: Op)
    | Equals
    | Delete
    | Clear
    | MemoryPlus
    | MemoryMinus
    | MemoryClear
    | MemoryRecall

  /** `current`, `previous` and `operation` are the texts of the main display,
      the first-operand display and the operator display (an empty operator
      display is `None`); `isResult` is the result-state flag; `memory` is
      the memory string, `None` when it is null; `memoryShown` says whether
      the "M" indicator is lit. */
  datatype State = State(
    current: string,
    previous: string,
    operation: Option<Op>,
    isResult: bool,
    memory: Option<string>,
    memoryShown: bool)

  /** The screen at start-up: "0" and nothing else. */
  const Initial := State("0", "", None, false, None, false)

  /** The exceptions a press of "=" can throw: cleanNumber receives null
      because an operand is not a number, or BigDecimal.divide meets a zero
      divisor written with fractional digits. */
  datatype Fault = NullResult | DivisionByZeroScale

  datatype Outcome = Next(state: State) | Crash(fault: Fault)

  /** An operator has been chosen and the second operand not yet started. */
  predicate AwaitingOperand(s: State) {
    s.operation.Some? && s.previous == ""
  }

  /** A digit extends the number on the display: the display holds neither a
      finished result with no operator after it nor a first operand whose
      operator is waiting for the second. */
  predicate Typing(s: State) {
    !(s.isResult && s.operation.None?) && !AwaitingOperand(s)
  }

  /** A digit button. */
  function PressDigit(s: State, d: DigitKey): (t: State)
    ensures t.operation == s.operation && t.memory == s.memory && t.memoryShown == s.memoryShown
    ensures t.isResult == (s.isResult && s.operation.Some?)
    ensures |t.current| >= 1 && t.current[|t.current| - 1] == DigitChar(d)
    ensures s.isResult && s.operation.None? ==> t.current == [DigitChar(d)] && t.previous == s.previous
    ensures AwaitingOperand(s) ==> t.previous == s.current && t.current == [DigitChar(d)]
    ensures Typing(s) ==> t.previous == s.previous
    ensures Typing(s) && s.current != "0" ==> t.current == s.current + [DigitChar(d)]
    ensures Typing(s) && s.current == "0" ==> t.current == if d == 0 then "00" else [DigitChar(d)]
  {
    var c := DigitChar(d);
    if s.isResult && s.operation.None? then
      s.(current := [c], isResult := false)
    else if s.operation.Some? && s.previous == "" then
      s.(previous := s.current, current := [c])
    else if s.current == "0" && d != 0 then
      s.(current := [c])
    else
      s.(current := s.current + [c])
  }

  /** Delete brings back the first operand: there is one, an operator, and
      the second operand is still "0". */
  predicate Restoring(s: State) {
    !s.isResult && s.previous != "" && s.operation.Some? && s.current == "0"
  }

  /** Delete removes the last character of the number being typed. */
  predicate Erasing(s: State) {
    !s.isResult && !Restoring(s) && !AwaitingOperand(s)
  }

  /** The delete button. */
  function PressDelete(s: State): (t: State)
    ensures t.isResult == s.isResult && t.memory == s.memory && t.memoryShown == s.memoryShown
    ensures |s.current| >= 1 ==> |t.current| >= 1
    ensures s.isResult ==> t == s.(current := "0")
    ensures Restoring(s) ==> t == s.(current := s.previous, previous := "", operation := None)
    ensures !s.isResult && AwaitingOperand(s) ==> t == s.(operation := None)
    ensures Erasing(s) ==> t.previous == s.previous && t.operation == s.operation
    ensures Erasing(s) && |s.current| > 1 ==> t.current + [s.current[|s.current| - 1]] == s.current
    ensures Erasing(s) && |s.current| <= 1 ==> t.current == "0"
  {
    if s.isResult then
      s.(current := "0")
    else if s.previous != "" && s.operation.Some? && s.current == "0" then
      s.(current := s.previous, previous := "", operation := None)
    else if s.operation.Some? && s.previous == "" then
      s.(operation := None)
    else if |s.current| > 1 then
      s.(current := s.current[..|s.current| - 1])
    else
      s.(current := "0")
  }

  /** The clear button: back to the start-up screen, the memory kept. */
  function PressClear(s: State): (t: State)
    ensures t == Initial.(memory := s.memory, memoryShown := s.memoryShown)
  {
    s.(current := "0", previous := "", operation := None, isResult := false)
  }

  /** The decimal point button. */
  function PressDot(s: State): (t: State)
    ensures t.previous == s.previous && t.operation == s.operation && t.isResult == s.isResult
    ensures t.memory == s.memory && t.memoryShown == s.memoryShown
    ensures '.' in s.current || s.isResult ==> t == s
    ensures '.' !in s.current && !s.isResult && AwaitingOperand(s) ==> t.current == "0."
    ensures '.' !in s.current && !s.isResult && !AwaitingOperand(s) ==> t.current == s.current + "."
    ensures AtMostOnePoint(s.current) ==> AtMostOnePoint(t.current)
  {
    if '.' !in s.current && !s.isResult then
      if s.operation.Some? && s.previous == "" then
        s.(current := "0.")
      else
        AppendPoint(s.current);
        s.(current := s.current + ".")
    else
      s
  }

  /** A point after text without one leaves a single point. */
  lemma AppendPoint(s: string)
    requires '.' !in s
    ensures AtMostOnePoint(s + ".")
  {
    var t := s + ".";
    assert forall x | 0 <= x < |s| :: t[x] == s[x];
  }

  /** An operator button: it only chooses the operator, and not at all when
      the display shows the division error. */
  function PressOperator(s: State, op: Op): (t: State)
    ensures s.current == ErrorText ==> t == s
    ensures s.current != ErrorText ==> t == s.(operation := Some(op))
  {
    if s.current != ErrorText then s.(operation := Some(op)) else s
  }

  /** What `calculate` hands to `cleanNumber`, once cleaned, is a number's text
      unless it is the division error. */
  lemma CalculatedText(first: string, second: string, op: Op)
    ensures var c := Calculate(first, second, op);
            c.Result? && c.text != ErrorText ==> NumericText(CleanNumber(c.text))
  {
    match (Parse(first), Parse(second))
    case (Some(a), Some(b)) =>
      if !(op == Over && b.unscaled == 0) {
        CleanedToStringNumeric(Apply(op, a, b));
      }
    case _ =>
  }

  /** The division error is not a number's text, and the cleaner leaves it alone. */
  lemma ErrorTextInert()
    ensures !NumericText(ErrorText)
    ensures CleanNumber(ErrorText) == ErrorText
  {
    assert !IsNumeral(ErrorText[0]);
    assert !MatchesPattern(ErrorText) by {
      assert !IsDigit(ErrorText[0]);
    }
  }

  /** The equals button. */
  function PressEquals(s: State): (o: Outcome)
    ensures s.previous == "" || s.operation.None? ==> o == Next(s)
    ensures s.previous != "" && s.operation.Some? ==>
              (o == Crash(NullResult) <==> Parse(s.previous).None? || Parse(s.current).None?)
    ensures s.previous != "" && s.operation.Some? ==>
              (o == Crash(DivisionByZeroScale) <==>
                 && s.operation == Some(Over) && Parse(s.previous).Some? && Parse(s.current).Some?
                 && Parse(s.current).value.unscaled == 0 && Parse(s.current).value != Zero)
    ensures o.Next? && s.previous != "" && s.operation.Some? ==>
              && o.state == s.(current := o.state.current, previous := "", operation := None, isResult := true)
              && o.state.current == CleanNumber(Calculate(s.previous, s.current, s.operation.value).text)
              && (o.state.current == ErrorText <==> s.operation == Some(Over) && Parse(s.current) == Some(Zero))
              && (o.state.current != ErrorText ==> NumericText(o.state.current))
  {
    if s.previous != "" && s.operation.Some? then
      var op := s.operation.value;
      match Calculate(s.previous, s.current, op)
      case Null => Crash(NullResult)
      case ArithmeticFault => Crash(DivisionByZeroScale)
      case Result(text) =>
        CalculatedText(s.previous, s.current, op);
        ErrorTextInert();
        Next(s.(current := CleanNumber(text), previous := "", operation := None, isResult := true))
    else
      Next(s)
  }

  /** The text the memory buttons add to: the memory, or "0" while it is null. */
  function MemoryText(m: Option<string>): string {
    if m.None? then "0" else m.value
  }

  /** The M+ (Plus) and M- (Minus) buttons: the indicator is lit, and the
      memory becomes the text of the exact sum or difference of its text and
      the display, at BigDecimal's scale, or null when either is not a number. */
  function Accumulate(s: State, op: Op): (t: State)
    requires op == Plus || op == Minus
    ensures t == s.(memory := t.memory, memoryShown := true)
    ensures t.memory.Some? <==> Parse(MemoryText(s.memory)).Some? && Parse(s.current).Some?
    ensures t.memory.Some? ==>
              && NumericText(t.memory.value) && Parse(t.memory.value).Some?
              && Combines(op, Parse(MemoryText(s.memory)).value, Parse(s.current).value,
                          Parse(t.memory.value).value)
    ensures t.memory.Some? ==> t.memory.value == ToString(Parse(t.memory.value).value)
  {
    var c := Calculate(MemoryText(s.memory), s.current, op);
    s.(memory := if c.Result? then Some(c.text) else None, memoryShown := true)
  }

  /** The MC button. */
  function PressMemoryClear(s: State): (t: State)
    ensures t.memory.None? && !t.memoryShown
    ensures t == s.(memory := t.memory, memoryShown := t.memoryShown)
  {
    s.(memory := None, memoryShown := false)
  }

  /** The MR button. */
  function PressMemoryRecall(s: State): (t: State)
    ensures t.memory == s.memory && t.memoryShown == s.memoryShown && t.operation == s.operation
    ensures s.memory.None? ==> t == s
    ensures s.memory.Some? ==> t.current == s.memory.value && !t.isResult
    ensures s.memory.Some? && AwaitingOperand(s) ==> t.previous == s.current
    ensures !(s.memory.Some? && AwaitingOperand(s)) ==> t.previous == s.previous
  {
    if s.memory.Some? then
      var s' := if s.operation.Some? && s.previous == "" then s.(previous := s.current) else s;
      s'.(current := s.memory.value, isResult := false)
    else
      s
  }

  /** A press of any button but "=", none of which can throw. */
  function Press(s: State, b: Button): State
    requires b != Equals
  {
    match b
    case Digit(d) => PressDigit(s, d)
    case Dot => PressDot(s)
    case Operator(op) => PressOperator(s, op)
    case Delete => PressDelete(s)
    case Clear => PressClear(s)
    case MemoryPlus => Accumulate(s, Plus)
    case MemoryMinus => Accumulate(s, Minus)
    case MemoryClear => PressMemoryClear(s)
    case MemoryRecall => PressMemoryRecall(s)
    case Equals => assert false; s
  }

  /** One button press: only "=" can throw. */
  function Step(s: State, b: Button): (o: Outcome)
    ensures o.Crash? ==> b == Equals
  {
    if b == Equals then PressEquals(s) else Next(Press(s, b))
  }

  /** A sequence of button presses, stopped by the first exception. */
  function Run(s: State, bs: seq<Button>): (o: Outcome)
    ensures Equals !in bs ==> o.Next?
    decreases |bs|
  {
    if |bs| == 0 then Next(s)
    else
      match Step(s, bs[0])
      case Crash(f) => Crash(f)
      case Next(t) =>
        assert Equals !in bs ==> Equals !in bs[1..];
        Run(t, bs[1..])
  }

  /** What the displays and the memory can show: the division error only as
      a result with nothing pending, otherwise a number's text (digits, at
      most one point, minus signs) on the main display; a first operand only
      with an operator; a memory only with its indicator lit. */
  predicate WellFormed(s: State) {
    && (s.current == ErrorText ==> s.isResult && s.operation.None? && s.previous == "")
    && (s.current != ErrorText ==> NumericText(s.current))
    && (s.previous != "" ==> NumericText(s.previous) && s.operation.Some?)
    && (s.memory.Some? ==> NumericText(s.memory.value) && s.memoryShown)
  }

  lemma AppendDigit(s: string, c: char)
    requires NumericText(s) && IsDigit(c)
    ensures NumericText(s + [c])
  {
    var t := s + [c];
    assert forall i | 0 <= i < |s| :: t[i] == s[i];
  }

  lemma DigitWellFormed(s: State, d: DigitKey)
    requires WellFormed(s)
    ensures WellFormed(PressDigit(s, d))
  {
    ErrorTextInert();
    if Typing(s) && s.current != "0" {
      AppendDigit(s.current, DigitChar(d));
    }
  }

  lemma DotWellFormed(s: State)
    requires WellFormed(s)
    ensures WellFormed(PressDot(s))
  {
    ErrorTextInert();
    if '.' !in s.current && !s.isResult && !AwaitingOperand(s) {
      assert NumericText(s.current + ".") by {
        AppendPoint(s.current);
        assert forall i | 0 <= i < |s.current| :: (s.current + ".")[i] == s.current[i];
      }
    }
  }

  lemma DeleteWellFormed(s: State)
    requires WellFormed(s)
    ensures WellFormed(PressDelete(s))
  {
    ErrorTextInert();
    if Erasing(s) && |s.current| > 1 {
      PrefixNumeric(s.current, |s.current| - 1);
    }
  }

  lemma EqualsWellFormed(s: State)
    requires WellFormed(s)
    ensures PressEquals(s).Next? ==> WellFormed(PressEquals(s).state)
  {
    ErrorTextInert();
  }

  lemma RecallWellFormed(s: State)
    requires WellFormed(s)
    ensures WellFormed(PressMemoryRecall(s))
  {
    ErrorTextInert();
  }

  /** Every button keeps the displays well formed. */
  lemma StepWellFormed(s: State, b: Button)
    requires WellFormed(s)
    ensures Step(s, b).Next? ==> WellFormed(Step(s, b).state)
  {
    match b
    case Digit(d) => DigitWellFormed(s, d);
    case Dot => DotWellFormed(s);
    case Delete => DeleteWellFormed(s);
    case Equals => EqualsWellFormed(s);
    case MemoryRecall => RecallWellFormed(s);
    case _ => ErrorTextInert();
  }

  /** Any sequence of presses from a well-formed state keeps it well formed. */
  lemma {:induction false} RunWellFormed(s: State, bs: seq<Button>)
    requires WellFormed(s)
    ensures Run(s, bs).Next? ==> WellFormed(Run(s, bs).state)
    decreases |bs|
  {
    if |bs| > 0 {
      StepWellFormed(s, bs[0]);
      if Step(s, bs[0]).Next? {
        RunWellFormed(Step(s, bs[0]).state, bs[1..]);
      }
    }
  }

  /** Whatever is pressed from start-up, the main display is never empty and
      never holds two decimal points. */
  lemma ReachableWellFormed(bs: seq<Button>)
    ensures Run(Initial, bs).Next? ==> WellFormed(Run(Initial, bs).state)
    ensures Run(Initial, bs).Next? ==>
              |Run(Initial, bs).state.current| >= 1 && AtMostOnePoint(Run(Initial, bs).state.current)
  {
    RunWellFormed(Initial, bs);
  }
}
