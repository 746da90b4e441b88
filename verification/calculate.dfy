/**
  `calculate`: both operands are read with the decimal parser, combined with
  BigDecimal arithmetic and printed back. A text the parser rejects makes the
  whole calculation null; a division by a zero written with a fraction part
  ("0.0") escapes the zero check and throws.
*/
module Arithmetic {
  import opened Wrappers
  import opened Digits
  import opened Fractions
  import opened Decimal

  /** The four operator buttons. */
  datatype Op = Plus | Minus | Times | Over

  /** What `calculate` hands back: a text, null (an operand did not parse),
      or the ArithmeticException BigDecimal.divide throws for a zero divisor. */
  datatype Calculation = Result(text: string) | Null | ArithmeticFault

  /** The text `calculate` puts in place of a quotient by BigDecimal.ZERO. */
  const ErrorText := "ERR"

  /** `v` is what the operator yields on `a` and `b`: the exact sum,
      difference or product, or the quotient rounded HALF_DOWN to sixteen
      fractional digits. */
  ghost predicate Denotes(op: Op, a: Dec, b: Dec, v: real) {
    match op
    case Plus => v == Value(a) + Value(b)
    case Minus => v == Value(a) - Value(b)
    case Times => v == Value(a) * Value(b)
    case Over => HalfDownClose(v, Value(b), Value(a), QuotientScale)
  }

  /** The scale BigDecimal gives the result: the larger scale for a sum or a
      difference, the sum of the scales for a product, sixteen for a quotient. */
  function ResultScale(op: Op, a: Dec, b: Dec): nat {
    match op
    case Plus => Max(a.scale, b.scale)
    case Minus => Max(a.scale, b.scale)
    case Times => a.scale + b.scale
    case Over => QuotientScale
  }

  /** `d` is the operator's result on `a` and `b`, at BigDecimal's scale. */
  ghost predicate Combines(op: Op, a: Dec, b: Dec, d: Dec) {
    Denotes(op, a, b, Value(d)) && d.scale == ResultScale(op, a, b)
  }

  /** The BigDecimal operation behind an operator, for a divisor other than zero. */
  function Apply(op: Op, a: Dec, b: Dec): (d: Dec)
    requires op == Over ==> b.unscaled != 0
    ensures Combines(op, a, b, d)
  {
    match op
    case Plus => Add(a, b)
    case Minus => Subtract(a, b)
    case Times => Multiply(a, b)
    case Over => Divide(a, b)
  }

  /** calculate(first, second, operation): null when an operand is not a
      number; "ERR" for a division by BigDecimal.ZERO itself; the exception
      for a division by a zero with fractional digits; otherwise the printed
      result, which reads back as the operator's result. */
  function Calculate(first: string, second: string, op: Op): (c: Calculation)
    ensures c.Null? <==> Parse(first).None? || Parse(second).None?
    ensures c.ArithmeticFault? <==>
              && op == Over && Parse(first).Some? && Parse(second).Some?
              && Parse(second).value.unscaled == 0 && Parse(second).value != Zero
    ensures c == Result(ErrorText) <==> op == Over && Parse(first).Some? && Parse(second) == Some(Zero)
    ensures c.Result? && c.text != ErrorText ==>
              && NumericText(c.text)
              && Parse(first).Some? && Parse(second).Some? && Parse(c.text).Some?
              && Combines(op, Parse(first).value, Parse(second).value, Parse(c.text).value)
    ensures c.Result? && c.text != ErrorText ==> c.text == ToString(Parse(c.text).value)
  {
    match (Parse(first), Parse(second))
    case (Some(a), Some(b)) =>
      if op == Over && b == Zero then Result(ErrorText)
      else if op == Over && b.unscaled == 0 then ArithmeticFault
      else
        var d := Apply(op, a, b);
        ParseToString(d);
        Result(ToString(d))
    case _ => Null
  }
}
