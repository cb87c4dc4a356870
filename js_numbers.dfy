/** JavaScript numbers and the `Number(...)` conversion, with floating point abstracted to reals. */
module JsNumbers {

  /** A JavaScript number: a finite value, NaN or one of the infinities. */
  datatype Num = Finite(value: real) | NaN | Infinity | NegativeInfinity

  /** `Number.isFinite`. */
  predicate IsFinite(n: Num) {
    n.Finite?
  }

  /** `n >= bound` for a finite bound: false for NaN, true for +Infinity, false for -Infinity. */
  predicate AtLeast(n: Num, bound: real) {
    match n
    case Finite(v) => v >= bound
    case Infinity => true
    case NaN => false
    case NegativeInfinity => false
  }

  /** The numeric order on the numbers other than NaN. */
  predicate NumLe(a: Num, b: Num)
    requires !a.NaN? && !b.NaN?
  {
    match (a, b)
    case (NegativeInfinity, _) => true
    case (_, Infinity) => true
    case (Finite(x), Finite(y)) => x <= y
    case _ => false
  }

  /** `AtLeast` is upward closed: a larger number meets every bound a smaller one meets. */
  lemma {:induction false} AtLeastIsMonotone(a: Num, b: Num, bound: real)
    requires !a.NaN? && !b.NaN? && NumLe(a, b) && AtLeast(a, bound)
    ensures AtLeast(b, bound)
  {
    match (a, b)
    case (Finite(x), Finite(y)) =>
    case (_, Infinity) =>
  }

  /** The JavaScript values a conversion can meet. */
  datatype JsValue = Undefined | Null | Boolean(b: bool) | Number(n: Num) | Text(s: string) | PlainObject

  /**
   * `Number(value)`. The parse of a string (trimmed, "" giving 0, otherwise NaN when not numeric) is the
   * parameter `parse`.
   */
  function ToNumber(value: JsValue, parse: string -> Num): (n: Num)
    ensures value.Number? ==> n == value.n
    ensures value.Null? ==> n == Finite(0.0)
    ensures value.Undefined? || value.PlainObject? ==> n == NaN
    ensures value.Boolean? ==> n == Finite(if value.b then 1.0 else 0.0)
  {
    match value
    case Undefined => NaN
    case Null => Finite(0.0)
    case Boolean(b) => Finite(if b then 1.0 else 0.0)
    case Number(n) => n
    case Text(s) => parse(s)
    case PlainObject => NaN
  }
}
