/** Searching a sequence front to back, the shape of Rust's `iter().position(..)`. */
module Seqs {

  /** `iter().position(p)`: the index of the first element satisfying `p`, with "none" written
      as `|xs|`. */
  function FirstIndex<T>(xs: seq<T>, p: T -> bool): (k: nat)
    ensures k <= |xs|
    ensures k < |xs| ==> p(xs[k])
    ensures forall j :: 0 <= j < k ==> !p(xs[j])
  {
    if xs == [] then 0
    else if p(xs[0]) then 0
    else 1 + FirstIndex(xs[1..], p)
  }
}
