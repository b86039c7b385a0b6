/** The part of Python's float the gateway relies on: a finite real or NaN.
    Every comparison involving NaN is false, and NaN propagates through
    arithmetic. */
module PyNumbers {

  datatype PyFloat = NaN | Num(x: real)

  function FromInt(i: int): PyFloat { Num(i as real) }

  function Add(a: PyFloat, b: PyFloat): PyFloat
  {
    if a.Num? && b.Num? then Num(a.x + b.x) else NaN
  }

  function Sub(a: PyFloat, b: PyFloat): PyFloat
  {
    if a.Num? && b.Num? then Num(a.x - b.x) else NaN
  }

  function Mul(a: PyFloat, b: PyFloat): PyFloat
  {
    if a.Num? && b.Num? then Num(a.x * b.x) else NaN
  }

  function Abs(a: PyFloat): PyFloat
  {
    if a.Num? then Num(if a.x < 0.0 then -a.x else a.x) else NaN
  }

  /** Python's `a <= b`. */
  predicate Le(a: PyFloat, b: PyFloat) { a.Num? && b.Num? && a.x <= b.x }

  /** Python's `a >= b`. */
  predicate Ge(a: PyFloat, b: PyFloat) { a.Num? && b.Num? && a.x >= b.x }

  /** Python's `a > b`. */
  predicate Gt(a: PyFloat, b: PyFloat) { a.Num? && b.Num? && a.x > b.x }
}
