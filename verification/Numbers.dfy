/** Numbers as policies see them (number.ts): binary64 values and unbounded integers, compared exactly. */
module Numbers {

  /** A binary64 value. `Finite` ranges over all reals, so every statement covers every double. */
  datatype Double = NaN | NegInf | Finite(r: real) | PosInf

  /** An integer is held as a bigint or as a JavaScript number; the code converts either with `BigInt`. */
  datatype UcanNumber = Float(value: Double) | Integer(i: int, big: bool)

  datatype Ordering = Less | Tie | Greater | Unordered {
    function Flip(): Ordering {
      match this
      case Less => Greater
      case Greater => Less
      case _ => this
    }
  }

  function CompareInts(a: int, b: int): Ordering {
    if a < b then Less else if a > b then Greater else Tie
  }

  /** `a < b` on doubles. */
  predicate DoubleLess(a: Double, b: Double) {
    match (a, b)
    case (NaN, _) => false
    case (_, NaN) => false
    case (NegInf, _) => b != NegInf
    case (Finite(x), NegInf) => false
    case (Finite(x), Finite(y)) => x < y
    case (Finite(x), PosInf) => true
    case (PosInf, _) => false
  }

  /** `numberCompare`, branch by branch; `Unordered` is its `null`. */
  function NumberCompare(a: UcanNumber, b: UcanNumber): Ordering {
    match (a, b)
    case (Float(x), Float(y)) =>
      if x.NaN? || y.NaN? then Unordered
      else if DoubleLess(x, y) then Less
      else if DoubleLess(y, x) then Greater
      else Tie
    case (Integer(m, _), Integer(n, _)) => CompareInts(m, n)
    case (Float(x), Integer(n, _)) => CompareMixed(x, n)
    case (Integer(m, _), Float(y)) => CompareMixed(y, m).Flip()
  }

  /** The mixed case seen from the float: its integer floor first, then its fractional part. */
  function CompareMixed(floatVal: Double, intVal: int): Ordering {
    match floatVal
    case NaN => Unordered
    case PosInf => Greater
    case NegInf => Less
    case Finite(r) =>
      var floor := r.Floor;
      if floor < intVal then Less
      else if floor > intVal then Greater
      else if r > floor as real then Greater
      else Tie
  }

  // ----- The extended real line -----

  /** The point of the extended real line a number denotes; NaN denotes none. */
  function Point(n: UcanNumber): Double {
    match n
    case Float(d) => d
    case Integer(i, _) => Finite(i as real)
  }

  predicate Below(x: Double, y: Double)
    requires !x.NaN? && !y.NaN?
  {
    if x.NegInf? then y != NegInf
    else if y.PosInf? then x != PosInf
    else x.Finite? && y.Finite? && x.r < y.r
  }

  /** The comparison is the order of the extended reals, and is undefined exactly on NaN. */
  lemma {:induction false} NumberCompareIsExact(a: UcanNumber, b: UcanNumber)
    ensures NumberCompare(a, b) == Unordered <==> Point(a).NaN? || Point(b).NaN?
    ensures !Point(a).NaN? && !Point(b).NaN? ==>
              && (NumberCompare(a, b) == Less <==> Below(Point(a), Point(b)))
              && (NumberCompare(a, b) == Greater <==> Below(Point(b), Point(a)))
              && (NumberCompare(a, b) == Tie <==> Point(a) == Point(b))
  {
  }

  lemma {:induction false} NumberCompareAntisymmetric(a: UcanNumber, b: UcanNumber)
    ensures NumberCompare(b, a) == NumberCompare(a, b).Flip()
  {
  }

  /** Transitivity across kinds: no chain of floats and integers of any size is inconsistent. */
  lemma {:induction false} NumberCompareTransitive(a: UcanNumber, b: UcanNumber, c: UcanNumber)
    requires NumberCompare(a, b) in {Less, Tie} && NumberCompare(b, c) in {Less, Tie}
    ensures NumberCompare(a, c)
            == if NumberCompare(a, b) == Tie && NumberCompare(b, c) == Tie then Tie else Less
  {
  }
}
