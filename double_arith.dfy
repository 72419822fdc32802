/** The floating-point facts the controller depends on. Values are exact reals; of IEEE 754 only
    the outcomes of dividing by zero are kept, because the controller reaches them on purpose (a
    mean improvement that is still zero, an elapsed time that is still zero). */
module DoubleArith {

  /** Java's Double.MAX_VALUE, (2^53 - 1) * 2^971; it is an integer. */
  const DoubleMax: int := 179769313486231570814527423731704356798070567525844996598917476803157260780028538760589558632766878171540458953514382464234321326889464182768467546703537516986049910576551282076245490090389328944075868508455133942304583236903222948165808559332123348274797826204144723168738177180919299881250404026184124858368

  /** The result of a floating-point division or multiplication: a finite value, an infinity or not-a-number. */
  datatype Quotient = Finite(value: real) | PosInf | NegInf | NaN

  /** a / b, where a zero divisor is the positive zero (all divisors of the source are). */
  function Divide(a: real, b: real): (q: Quotient)
    ensures q.Finite? <==> b != 0.0
    ensures q.Finite? ==> q.value * b == a
    ensures q == NaN <==> a == 0.0 && b == 0.0
    ensures q == PosInf <==> b == 0.0 && a > 0.0
  {
    if b != 0.0 then Finite(a / b)
    else if a > 0.0 then PosInf
    else if a < 0.0 then NegInf
    else NaN
  }

  /** c * q for a finite factor c (infinity times zero is not-a-number). */
  function Scale(c: real, q: Quotient): (r: Quotient)
    ensures q.Finite? ==> r == Finite(c * q.value)
    ensures c > 0.0 && !q.Finite? ==> r == q
  {
    match q
    case Finite(_) => Finite(c * q.value)
    case PosInf => if c > 0.0 then PosInf else if c < 0.0 then NegInf else NaN
    case NegInf => if c > 0.0 then NegInf else if c < 0.0 then PosInf else NaN
    case NaN => NaN
  }

  /** Java's `x > q`: every comparison with not-a-number is false. */
  predicate Exceeds(x: real, q: Quotient)
  {
    match q
    case Finite(y) => x > y
    case PosInf => false
    case NegInf => true
    case NaN => false
  }

  /** What the model needs of Math.exp at each point: positive, and at least 1 on the non-negatives. */
  ghost predicate ExpLike(exp: real -> real)
  {
    (forall x :: exp(x) > 0.0)
    && (forall x :: x >= 0.0 ==> exp(x) >= 1.0)
  }

  /** Math.exp is increasing. */
  ghost predicate ExpIncreasing(exp: real -> real)
  {
    forall x, y :: x <= y ==> exp(x) <= exp(y)
  }

  /** Java's `u < Math.exp(q)`: exp of +infinity is +infinity, of -infinity is 0, of not-a-number not-a-number. */
  predicate BelowExp(u: real, q: Quotient, exp: real -> real)
  {
    match q
    case Finite(x) => u < exp(x)
    case PosInf => true
    case NegInf => u < 0.0
    case NaN => false
  }
}
