/**
  Python `float` values as far as the bbox validator observes them: finite
  values, the two infinities and NaN, with IEEE-754 comparison semantics
  (every ordered comparison involving NaN is false).
 */
module PyFloat {

  datatype Float = Finite(r: real) | PosInf | NegInf | NaN

  /** `a` lies strictly below `b` on the extended real line (NaN excluded). */
  predicate Below(a: Float, b: Float)
  {
    match (a, b)
    case (NegInf, Finite(_)) => true
    case (NegInf, PosInf) => true
    case (Finite(x), Finite(y)) => x < y
    case (Finite(_), PosInf) => true
    case _ => false
  }

  /** Python's `a < b` on floats. */
  predicate Lt(a: Float, b: Float)
  {
    !a.NaN? && !b.NaN? && Below(a, b)
  }

  /** Python's `a >= b` on floats. */
  predicate Ge(a: Float, b: Float)
  {
    !a.NaN? && !b.NaN? && !Below(a, b)
  }

  /** Without NaN, `>=` is exactly the negation of `<`; with NaN both are false. */
  lemma GeNegatesLt(a: Float, b: Float)
    ensures !a.NaN? && !b.NaN? ==> (Ge(a, b) <==> !Lt(a, b))
    ensures a.NaN? || b.NaN? ==> !Ge(a, b) && !Lt(a, b)
  {
  }
}
