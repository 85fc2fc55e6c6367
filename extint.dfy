/**
 The integers extended with the two sentinels the adversarial search starts
 from, negative and positive infinity. Scores themselves are always finite;
 only the alpha-beta window and the running maximum / minimum before the
 first child start out infinite.
 */
module ExtendedInt {

  datatype ExtInt = NegInf | Fin(value: int) | PosInf

  /** The order of the extended line: `NegInf` below every integer, `PosInf` above. */
  predicate Le(a: ExtInt, b: ExtInt) {
    match (a, b)
    case (NegInf, _) => true
    case (_, PosInf) => true
    case (Fin(x), Fin(y)) => x <= y
    case _ => false
  }

  predicate Lt(a: ExtInt, b: ExtInt) {
    Le(a, b) && a != b
  }

  /** `max(a, b)` as Python computes it when one side is a float sentinel. */
  function Max(a: ExtInt, b: ExtInt): (r: ExtInt)
    ensures Le(a, r) && Le(b, r)
    ensures r == a || r == b
  {
    if Le(a, b) then b else a
  }

  function Min(a: ExtInt, b: ExtInt): (r: ExtInt)
    ensures Le(r, a) && Le(r, b)
    ensures r == a || r == b
  {
    if Le(a, b) then a else b
  }
}
