/** Path lengths with an explicit infinity, standing in for the source's
    `double` values and `Double.POSITIVE_INFINITY`. */
module Distances {

  datatype Dist = Fin(value: real) | Inf

  /** `+` on lengths: infinity absorbs. */
  function Plus(x: Dist, y: Dist): (r: Dist)
    ensures r.Fin? <==> x.Fin? && y.Fin?
    ensures r.Fin? ==> r.value == x.value + y.value
  {
    if x.Fin? && y.Fin? then Fin(x.value + y.value) else Inf
  }

  /** `<` on lengths: every finite length is below infinity, and infinity is
      below nothing. */
  predicate Less(x: Dist, y: Dist) {
    match (x, y)
    case (Fin(a), Fin(b)) => a < b
    case (Fin(_), Inf) => true
    case (Inf, _) => false
  }

  /** `<=` on lengths. */
  predicate AtMost(x: Dist, y: Dist) {
    !Less(y, x)
  }

  /** The smaller of two lengths. */
  function Min(x: Dist, y: Dist): (r: Dist)
    ensures AtMost(r, x) && AtMost(r, y)
    ensures r == x || r == y
  {
    if Less(y, x) then y else x
  }

  /** `Less` is a strict total order and `AtMost` its reflexive closure. */
  lemma OrderFacts(x: Dist, y: Dist, z: Dist)
    ensures !Less(x, x)
    ensures Less(x, y) ==> !Less(y, x)
    ensures Less(x, y) && Less(y, z) ==> Less(x, z)
    ensures x == y || Less(x, y) || Less(y, x)
    ensures AtMost(x, y) <==> (x == y || Less(x, y))
    ensures AtMost(x, Inf)
  {
  }
}
