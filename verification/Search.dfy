/** Bounded searches for the first integer with a property: the shape of every calendar loop. */
module Search {
  import opened Wrappers

  /** `x` is the first integer of `[lo, hi)` with property `p`. */
  ghost predicate IsFirst(p: int -> bool, lo: int, hi: int, x: int) {
    && lo <= x < hi
    && p(x)
    && forall y :: lo <= y < x ==> !p(y)
  }

  function First(p: int -> bool, lo: int, hi: int): (r: Option<int>)
    ensures r.Some? ==> IsFirst(p, lo, hi, r.value)
    ensures r.None? ==> forall y :: lo <= y < hi ==> !p(y)
    decreases hi - lo
  {
    if hi <= lo then None
    else if p(lo) then Some(lo)
    else First(p, lo + 1, hi)
  }

  /** A first element is the one the search returns. */
  lemma FirstUnique(p: int -> bool, lo: int, hi: int, x: int)
    requires IsFirst(p, lo, hi, x)
    ensures First(p, lo, hi) == Some(x)
    decreases x - lo
  {
    if lo < x {
      FirstUnique(p, lo + 1, hi, x);
    }
  }
}
