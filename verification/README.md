# Calculator2: a verified model of the button interpreter

Calculator2 is a four-function Android calculator with a memory. Every button
runs one handler, `MainActivity.buttonPress`. The handler reads three
displays:
- the main display (`current`);
- the first-operand display (`previous`);
- the operator display (`operation`).

It also reads a result-state flag and a memory string. The handler
updates them according to the button's tag. Two helpers do the arithmetic:
- `calculate` parses both operands with `java.text.DecimalFormat`, combines
  them with `java.math.BigDecimal` and prints the result;
- `cleanNumber` strips trailing zeros from a result before it is shown.

This project models the interpreter as pure functions over an immutable
state and proves what each button does and how presses relate.

- `Calculator.State` holds the four displays, the flag and the memory.
  `Calculator.Button` is the closed set of buttons. `Calculator.Step` is one
  press, and `Calculator.Run` is a sequence of presses.
- `Decimal.Dec` is a BigDecimal: an unscaled integer and a scale. The scale
  is part of its identity. Add, subtract and multiply are exact. Divide
  rounds HALF_DOWN to sixteen fractional digits. `Decimal.Parse` is
  DecimalFormat's reading of a display text, as the OpenJDK `java.text`
  implementation does it with `setParseBigDecimal(true)`: every typed
  fraction digit is kept, so the scale is the number of fraction digits
  ("0.0" reads as zero at scale 1). The model assumes the platform's
  `java.text` parses the same way. `Decimal.ToString` is BigDecimal's
  plain-notation printing. `Parse(ToString(d)) == Some(d)` is
  proved for every `d`.
- `Arithmetic.Calculate` is `calculate`. Its result is a text, null (an
  operand does not parse) or the exception a division by a zero with a
  fraction part throws.
- `Clean.CleanNumber` is `cleanNumber`. It is written as an explicit scan
  of the text from its end. `Clean.Matches` is proved equal to a full match
  of the regular expression `[0-9]+.[1-9]*0+`, read off the expression
  itself (`Clean.MatchesPattern`).

## Where the code and its described behaviour part

The model follows the code as written. In these places the code differs
from its comments or from the behaviour it is described as having:

- The `.` in `[0-9]+.[1-9]*0+` is not escaped, so it matches any character
  but a line terminator. `cleanNumber("100")` is therefore `"1"`: the comment
  at line 289 says only decimal zeros are removed. 50 + 50 = shows `1`
  (`Scenarios.FiftyPlusFifty`). Cleaning is not idempotent: `"100.0"` cleans
  to `"100"`, and that cleans to `"1"` (`Scenarios.CleanTwiceDiffers`).
- A 0 pressed on the start-up `"0"` appends and gives `"00"`. The test at
  line 75 replaces a leading zero only for a nonzero digit
  (`Scenarios.ZeroAfterZero`).
- "=" can throw, so the interpreter is not total. `Calculator.Step` returns
  an `Outcome`: either the next state or the exception (`Fault`). Among the
  modelled buttons, two exceptions are reachable, both from "=" (the square
  root button, which is not modelled, throws too; see "Left out"):
  - If an operand does not parse (a lone `"-"` left after deleting the
    digit of a recalled negative memory), `calculate` returns null and
    `cleanNumber` dereferences it (`Scenarios.LoneMinusOperand`).
  - The zero test at line 238 uses `BigDecimal.equals`, which compares
    scales. A divisor typed as `"0.0"` passes the test, and
    `BigDecimal.divide` throws (`Scenarios.DivideByZeroPointZero`).
- Delete in the result state resets the display but keeps the result flag.
  M+ and M- light the indicator even when the memory becomes null.

## Model

| member | source | states |
|---|---|---|
| Calculator.PressDigit | app/src/main/java/com/krisztianszabo/calculator2/MainActivity.java:62-82 | a digit replaces a finished result; right after an operator it moves the display into the first operand and starts a new number; it replaces a leading "0" if nonzero and otherwise appends ("0" on "0" is "00"); the display ends in the digit; operator, memory and indicator are untouched |
| Calculator.PressDelete | app/src/main/java/com/krisztianszabo/calculator2/MainActivity.java:89-110 | in result state the display becomes "0" and the flag stays; with an operand, an operator and "0" it restores the operand and clears the operator; right after an operator it removes the operator; otherwise it removes exactly the last character, or gives "0" for a single character; a non-empty display stays non-empty |
| Calculator.PressClear | app/src/main/java/com/krisztianszabo/calculator2/MainActivity.java:114-120 | the result is the start-up screen with the memory and indicator kept |
| Calculator.PressDot | app/src/main/java/com/krisztianszabo/calculator2/MainActivity.java:126-137 | nothing changes in result state or when the display has a point; right after an operator the display becomes "0."; otherwise a point is appended; a display with at most one point keeps at most one point; nothing but the display changes |
| Calculator.PressOperator | app/src/main/java/com/krisztianszabo/calculator2/MainActivity.java:146-148 | only the operator display changes, and nothing does while the display shows ERR |
| Calculator.PressEquals | app/src/main/java/com/krisztianszabo/calculator2/MainActivity.java:154-166 | no-op without an operand and an operator; throws the null fault exactly when an operand does not parse, and the division fault exactly for a parsed zero divisor with a fraction part; otherwise it empties operand and operator, sets the flag, shows the cleaned result, which is ERR exactly for a division by BigDecimal.ZERO and a number's text otherwise |
| Calculator.CalculatedText | app/src/main/java/com/krisztianszabo/calculator2/MainActivity.java:157-158 | a cleaned calculation result other than ERR is a number's text |
| Calculator.ErrorTextInert | app/src/main/java/com/krisztianszabo/calculator2/MainActivity.java:290-298 | ERR is not a number's text and cleanNumber leaves it unchanged |
| Calculator.Accumulate | app/src/main/java/com/krisztianszabo/calculator2/MainActivity.java:170-183 | M+/M- change only memory and indicator; the indicator is lit; the memory is non-null exactly when the memory text ("0" for null) and the display both parse, and then it is exactly BigDecimal's text of their sum or difference at BigDecimal's scale (the larger of the two), the text MR later shows |
| Calculator.PressMemoryClear | app/src/main/java/com/krisztianszabo/calculator2/MainActivity.java:186-189 | memory null, indicator off, nothing else changes |
| Calculator.PressMemoryRecall | app/src/main/java/com/krisztianszabo/calculator2/MainActivity.java:192-205 | no-op for a null memory; otherwise the display becomes the memory and the flag is cleared, and the display first moves into the operand when an operator waits for its second operand |
| Calculator.Step | app/src/main/java/com/krisztianszabo/calculator2/MainActivity.java:48-205 | among the modelled buttons only "=" can throw |
| Calculator.Run | app/src/main/java/com/krisztianszabo/calculator2/MainActivity.java:48-212 | a sequence of presses without "=" never throws |
| Calculator.DigitWellFormed | app/src/main/java/com/krisztianszabo/calculator2/MainActivity.java:62-82 | a digit keeps the displays well formed |
| Calculator.DotWellFormed | app/src/main/java/com/krisztianszabo/calculator2/MainActivity.java:126-137 | the point keeps the displays well formed |
| Calculator.DeleteWellFormed | app/src/main/java/com/krisztianszabo/calculator2/MainActivity.java:89-110 | delete keeps the displays well formed |
| Calculator.EqualsWellFormed | app/src/main/java/com/krisztianszabo/calculator2/MainActivity.java:154-166 | "=", when it does not throw, keeps the displays well formed |
| Calculator.RecallWellFormed | app/src/main/java/com/krisztianszabo/calculator2/MainActivity.java:192-205 | MR keeps the displays well formed |
| Calculator.StepWellFormed | app/src/main/java/com/krisztianszabo/calculator2/MainActivity.java:48-212 | every button keeps the displays well formed: ERR only as a result with nothing pending, otherwise a number's text; an operand only with an operator; a memory only with the indicator lit |
| Calculator.RunWellFormed | app/src/main/java/com/krisztianszabo/calculator2/MainActivity.java:48-212 | any sequence of presses keeps the displays well formed |
| Calculator.ReachableWellFormed | app/src/main/java/com/krisztianszabo/calculator2/MainActivity.java:48-212 | from start-up the main display is never empty and never has two points |
| Arithmetic.Calculate | app/src/main/java/com/krisztianszabo/calculator2/MainActivity.java:217-250 | null exactly when an operand does not parse; ERR exactly for a division by BigDecimal.ZERO; the exception exactly for a division by another zero; otherwise exactly BigDecimal's plain text of the operator's result at BigDecimal's scale (a text that reads back as that result and is the printing of what it reads as) |
| Arithmetic.Apply | app/src/main/java/com/krisztianszabo/calculator2/MainActivity.java:226-243 | the exact sum, difference or product, or the HALF_DOWN quotient at scale 16, at the scale BigDecimal gives |
| Decimal.Add | app/src/main/java/com/krisztianszabo/calculator2/MainActivity.java:228 | the exact sum at the larger scale |
| Decimal.Subtract | app/src/main/java/com/krisztianszabo/calculator2/MainActivity.java:231 | the exact difference at the larger scale |
| Decimal.Multiply | app/src/main/java/com/krisztianszabo/calculator2/MainActivity.java:234 | the exact product at the sum of the scales |
| Decimal.Divide | app/src/main/java/com/krisztianszabo/calculator2/MainActivity.java:241 | a quotient at scale 16 within half a unit in the last place of the exact quotient, ties towards zero |
| Decimal.ToString | app/src/main/java/com/krisztianszabo/calculator2/MainActivity.java:228 | a printed result is a minus sign exactly for a negative number, then integer digits with no leading zero but a lone one, then no point at scale 0 and otherwise a point followed by exactly `scale` digits; nothing else, so it is never ERR |
| Decimal.ParseToString | app/src/main/java/com/krisztianszabo/calculator2/MainActivity.java:223-224 | parsing a printed decimal gives back the same decimal, scale included |
| Decimal.ParseFails | app/src/main/java/com/krisztianszabo/calculator2/MainActivity.java:223-224 | parsing fails exactly when the text, after an optional minus sign, starts neither with a digit nor with a point followed by a digit |
| Decimal.ParsePointed | app/src/main/java/com/krisztianszabo/calculator2/MainActivity.java:223-224 | digits, a point and digits parse to their digits' value at the scale of the fraction digits |
| Clean.Matches | app/src/main/java/com/krisztianszabo/calculator2/MainActivity.java:291 | the end-first scan is true exactly when the text fully matches `[0-9]+.[1-9]*0+` with `.` as any character but a line terminator |
| Clean.CleanNumber | app/src/main/java/com/krisztianszabo/calculator2/MainActivity.java:290-298 | a text that does not match is unchanged; a match loses exactly its trailing zeros, or its trailing zeros and the point before them, and what remains ends in neither |
| CleanedResults.CleanedToStringNumeric | app/src/main/java/com/krisztianszabo/calculator2/MainActivity.java:290-298 | a cleaned printed number is still a number's text |
| CleanedResults.CleanKeepsFractionValue | app/src/main/java/com/krisztianszabo/calculator2/MainActivity.java:290-298 | cleaning a number printed with a fraction part keeps its value |
| CleanedResults.CleanPointedValue | app/src/main/java/com/krisztianszabo/calculator2/MainActivity.java:290-298 | digits, a point and digits keep their value through the cleaner |
| Presses.DeleteUndoesDigit | app/src/main/java/com/krisztianszabo/calculator2/MainActivity.java:89-110 | delete takes back a digit typed into a number |
| Presses.DeleteUndoesDot | app/src/main/java/com/krisztianszabo/calculator2/MainActivity.java:89-110 | delete takes back a point typed into a number |
| Presses.DeleteUndoesOperator | app/src/main/java/com/krisztianszabo/calculator2/MainActivity.java:102-103 | delete takes back an operator chosen after a number |
| Presses.DeleteRestoresOperand | app/src/main/java/com/krisztianszabo/calculator2/MainActivity.java:95-99 | operator, 0, delete returns to the state before the operator |
| Presses.OperatorLastWins | app/src/main/java/com/krisztianszabo/calculator2/MainActivity.java:146-148 | of two operators in a row only the second counts |
| Presses.ClearForgets | app/src/main/java/com/krisztianszabo/calculator2/MainActivity.java:114-120 | states with the same memory clear to the same state; clearing is idempotent |
| Presses.RecallAfterMemoryClear | app/src/main/java/com/krisztianszabo/calculator2/MainActivity.java:186-205 | MR after MC changes nothing |
| Presses.EqualsSettles | app/src/main/java/com/krisztianszabo/calculator2/MainActivity.java:154-166 | a second "=" after a calculation changes nothing |
| Presses.DigitShiftsValue | app/src/main/java/com/krisztianszabo/calculator2/MainActivity.java:75-82 | a digit typed into a number of digits gives ten times its value plus the digit |
| Presses.EqualsKeepsValue | app/src/main/java/com/krisztianszabo/calculator2/MainActivity.java:154-166 | for a result printed with a fraction part, the shown text reads back as the operator's result |
| Presses.StoreThenRecall | app/src/main/java/com/krisztianszabo/calculator2/MainActivity.java:170-205 | M+ on a null memory, then MR, shows a number worth the display and clears the flag |
| Presses.AccumulateCancels | app/src/main/java/com/krisztianszabo/calculator2/MainActivity.java:170-183 | M+ then M- of the same display leave the memory's value unchanged |
| Scenarios.OnePlusTwo | app/src/main/java/com/krisztianszabo/calculator2/MainActivity.java:48-212 | 1 + 2 = shows 3 as a result |
| Scenarios.ZeroAfterZero | app/src/main/java/com/krisztianszabo/calculator2/MainActivity.java:75-82 | 0 on the start-up "0" gives "00" |
| Scenarios.AddIntegers | app/src/main/java/com/krisztianszabo/calculator2/MainActivity.java:228 | the sum of two naturals typed as digits is printed as the sum's digits |
| Scenarios.SubtractIntegers | app/src/main/java/com/krisztianszabo/calculator2/MainActivity.java:231 | the difference of two naturals typed as digits is printed as that integer |
| Scenarios.NegativeText | app/src/main/java/com/krisztianszabo/calculator2/MainActivity.java:231 | a negative integer prints as a minus and its magnitude's digits |
| Scenarios.DivideFiveByZero | app/src/main/java/com/krisztianszabo/calculator2/MainActivity.java:238-239 | calculate("5", "0", "/") is ERR |
| Scenarios.FiveOverZero | app/src/main/java/com/krisztianszabo/calculator2/MainActivity.java:154-166 | 5 / 0 = shows ERR as a result |
| Scenarios.ErrorIgnoresOperator | app/src/main/java/com/krisztianszabo/calculator2/MainActivity.java:146-148 | an operator on ERR is ignored |
| Scenarios.CleanHundred | app/src/main/java/com/krisztianszabo/calculator2/MainActivity.java:290-298 | "100" is cleaned to "1" |
| Scenarios.CleanHundredPointZero | app/src/main/java/com/krisztianszabo/calculator2/MainActivity.java:290-298 | "100.0" is cleaned to "100" |
| Scenarios.CleanTwiceDiffers | app/src/main/java/com/krisztianszabo/calculator2/MainActivity.java:290-298 | cleaning "100.0" twice differs from cleaning it once |
| Scenarios.CleanTrailingFractionZeros | app/src/main/java/com/krisztianszabo/calculator2/MainActivity.java:290-298 | "3.1400" is cleaned to "3.14" |
| Scenarios.CleanKeepsInnerZero | app/src/main/java/com/krisztianszabo/calculator2/MainActivity.java:290-298 | "1.050" is left unchanged |
| Scenarios.CleanLeavesUnmatched | app/src/main/java/com/krisztianszabo/calculator2/MainActivity.java:290-298 | "3.14" and "1.5" are left unchanged |
| Scenarios.CleanLeavesNegative | app/src/main/java/com/krisztianszabo/calculator2/MainActivity.java:290-298 | "-2.50" is left unchanged |
| Scenarios.CleanDropsPoint | app/src/main/java/com/krisztianszabo/calculator2/MainActivity.java:290-298 | "3.0" is cleaned to "3" |
| Scenarios.AddFiftyFifty | app/src/main/java/com/krisztianszabo/calculator2/MainActivity.java:228 | calculate("50", "50", "+") is "100" |
| Scenarios.FiftyPlusFifty | app/src/main/java/com/krisztianszabo/calculator2/MainActivity.java:154-166 | 50 + 50 = shows "1" |
| Scenarios.DivideSevenByZeroPointZero | app/src/main/java/com/krisztianszabo/calculator2/MainActivity.java:236-243 | calculate("7", "0.0", "/") throws |
| Scenarios.DivideByZeroPointZero | app/src/main/java/com/krisztianszabo/calculator2/MainActivity.java:154-166 | 7 / 0 . 0 = throws the division fault |
| Scenarios.MemoryMinusStores | app/src/main/java/com/krisztianszabo/calculator2/MainActivity.java:178-183 | M- stores calculate's text for memory minus display and lights the indicator |
| Scenarios.ParseRejects | app/src/main/java/com/krisztianszabo/calculator2/MainActivity.java:223-224 | "ERR", "-", "." and "-." do not parse; ".5" and "-.5" do |
| Scenarios.LoneMinusNull | app/src/main/java/com/krisztianszabo/calculator2/MainActivity.java:217-250 | calculate with a lone "-" operand is null |
| Scenarios.LoneMinusOperand | app/src/main/java/com/krisztianszabo/calculator2/MainActivity.java:154-166 | 5 M- MR delete + 3 = throws the null fault |
| Scenarios.TwoThirds | app/src/main/java/com/krisztianszabo/calculator2/MainActivity.java:241 | 2/3 and -2/3 round to ±0.6666666666666667 |
| Scenarios.TieRoundsDown | app/src/main/java/com/krisztianszabo/calculator2/MainActivity.java:241 | an exact tie at the sixteenth place rounds towards zero |

## Left out

- The square root button and `sqrt`/`sqrtAlgorithm` (lines 208-211, 254-287):
  the Newton iteration starts from a floating-point `Math.sqrt` seed and is
  not guaranteed to terminate. On a negative display the button throws:
  `Math.sqrt` gives NaN and `new BigDecimal(NaN)` at line 278 throws a
  NumberFormatException nobody catches (the "ERR" set at line 264 is
  overwritten). So "=" is not the only button that can throw in the
  program, only among the modelled ones.
- The Android shell (lines 24-45): `onCreate`, `findViewById`, the text
  views and the button tags. The displays are fields of `Calculator.State`,
  the tags are `Calculator.Button` and the "M" indicator is a boolean.
- Exceptions are values (`Calculator.Outcome.Crash`), not stopped
  activities: the model does not say what Android does after one.
- Decimal.ToString: prints plain notation only. BigDecimal.toString switches
  to exponent notation when the adjusted exponent is below -6 (0 / 5 prints
  `0E-16`), so every contract that calls a printed result a number's text
  holds in the model but not for those results.
- Decimal.Parse: reads only an optional minus, digits, and a point followed
  by digits. `new DecimalFormat()` (line 218) takes its symbols from the
  default locale. The model assumes a locale whose decimal separator is '.'
  and whose grouping separator is not '.'; outside such locales the parse
  differs (in German, '.' is the grouping separator and "1.5" reads as 15).
  Exponent parsing is left out because plain-notation printing never
  produces an exponent.
- Presses.EqualsKeepsValue: stated only for results printed with a fraction
  part, because for an integer result the cleaner strips significant zeros
  ("100" becomes "1"), as `Scenarios.FiftyPlusFifty` shows.
