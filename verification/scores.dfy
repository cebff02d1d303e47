/**
  Search scores: the reals extended with the two infinities that the
  search uses, as Python's `float('inf')`, to seed its running best score
  and its alpha-beta window.
 */
module Scores {

  datatype Score = NegInf | Fin(value: real) | PosInf

  /** The strict order of the extended reals. */
  predicate Less(a: Score, b: Score) {
    match a
    case NegInf => !b.NegInf?
    case Fin(x) => b.PosInf? || (b.Fin? && x < b.value)
    case PosInf => false
  }

  predicate Le(a: Score, b: Score) {
    !Less(b, a)
  }

  /** Python's `max(a, b)`: `b` only when it is strictly greater. */
  function Max(a: Score, b: Score): (r: Score)
    ensures Le(a, r) && Le(b, r)
    ensures r == a || r == b
  {
    if Less(a, b) then b else a
  }

  /** Python's `min(a, b)`: `b` only when it is strictly smaller. */
  function Min(a: Score, b: Score): (r: Score)
    ensures Le(r, a) && Le(r, b)
    ensures r == a || r == b
  {
    if Less(b, a) then b else a
  }

  /** Division by 2; the infinities are fixed points. */
  function Half(a: Score): (r: Score)
    ensures r.Fin? <==> a.Fin?
    ensures a.Fin? ==> r.value + r.value == a.value
    ensures !a.Fin? ==> r == a
  {
    if a.Fin? then Fin(a.value / 2.0) else a
  }

  lemma HalfPreservesOrder(a: Score, b: Score)
    ensures Less(a, b) <==> Less(Half(a), Half(b))
  {
  }

  lemma HalfCommutesWithMax(a: Score, b: Score)
    ensures Half(Max(a, b)) == Max(Half(a), Half(b))
    ensures Half(Min(a, b)) == Min(Half(a), Half(b))
  {
    HalfPreservesOrder(a, b);
    HalfPreservesOrder(b, a);
  }
}
