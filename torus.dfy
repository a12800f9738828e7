/**
 Index arithmetic on a ring of `n` positions: the neighbour before and after
 an index, wrapping at both ends instead of clamping.
 */
module Torus {

  /** The index before `i`: `i - 1`, or the last index when `i` is the first. */
  function WrapPrev(i: nat, n: nat): (r: nat)
    requires i < n
    ensures r < n
    ensures r == (i - 1) % n
    ensures i == 0 ==> r == n - 1
  {
    if i > 0 then i - 1 else n - 1
  }

  /** The index after `i`: `i + 1`, or the first index when `i` is the last. */
  function WrapNext(i: nat, n: nat): (r: nat)
    requires i < n
    ensures r < n
    ensures r == (i + 1) % n
    ensures i == n - 1 ==> r == 0
  {
    if i < n - 1 then i + 1 else 0
  }

  /** Stepping back and then forward (or forward and then back) returns to the start. */
  lemma WrapInverse(i: nat, n: nat)
    requires i < n
    ensures WrapNext(WrapPrev(i, n), n) == i
    ensures WrapPrev(WrapNext(i, n), n) == i
  {
  }

  /** On a ring of at least two positions, neither neighbour is the index itself. */
  lemma WrapMoves(i: nat, n: nat)
    requires i < n && n >= 2
    ensures WrapPrev(i, n) != i && WrapNext(i, n) != i
  {
  }

  /** On a ring of one position, both neighbours are the index itself. */
  lemma WrapSingleton(i: nat)
    requires i < 1
    ensures WrapPrev(i, 1) == i && WrapNext(i, 1) == i
  {
  }
}
