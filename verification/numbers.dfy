/** The numbers the engine computes with. The server uses C++ doubles; the
    model uses exact reals, plus a NaN value so that the token-equality rules
    that single NaN out can be stated. Rounding, infinities and signed zeros
    are not modelled. */
module Numbers {

  datatype Num = NaN | Exact(r: real)

  /** The built-in `==` on doubles: false as soon as a NaN is involved. */
  predicate IeeeEqual(x: Num, y: Num) {
    x.Exact? && y.Exact? && x.r == y.r
  }

  /** numbers_equal: like `==`, except that two NaNs count as equal. Unlike
      `==` this is the identity relation. */
  function NumbersEqual(x: Num, y: Num): (b: bool)
    ensures b <==> x == y
  {
    (x.NaN? && y.NaN?) || IeeeEqual(x, y)
  }

  /** IEEE `==` is not reflexive, which is why numbers_equal exists. */
  lemma IeeeEqualNotReflexive()
    ensures !IeeeEqual(NaN, NaN)
    ensures NumbersEqual(NaN, NaN)
  {
  }

  function Negate(x: Num): Num {
    match x
    case NaN => NaN
    case Exact(a) => Exact(-a)
  }

  function Sum(x: Num, y: Num): Num {
    if x.Exact? && y.Exact? then Exact(x.r + y.r) else NaN
  }

  function Difference(x: Num, y: Num): Num {
    if x.Exact? && y.Exact? then Exact(x.r - y.r) else NaN
  }

  function Product(x: Num, y: Num): Num {
    if x.Exact? && y.Exact? then Exact(x.r * y.r) else NaN
  }

  /** Quotient; the caller has already refused an exactly-zero divisor. */
  function Quotient(x: Num, y: Num): Num {
    if x.Exact? && y.Exact? && y.r != 0.0 then Exact(x.r / y.r) else NaN
  }
}
