// Clamping an index into the bounds of an indexed structure.
module Bounds {

  function Min(a: int, b: int): int { if a <= b then a else b }
  function Max(a: int, b: int): int { if a >= b then a else b }

  /** `min(max(lo, i), hi)`; with lo > hi the upper bound wins. */
  function Clamp(lo: int, i: int, hi: int): (r: int)
    ensures lo <= hi ==> lo <= r <= hi
    ensures lo <= i <= hi ==> r == i
    ensures lo <= hi && i < lo ==> r == lo
    ensures lo <= hi && hi < i ==> r == hi
    ensures hi < lo ==> r == hi
  {
    Min(Max(lo, i), hi)
  }

  lemma {:induction false} ClampIdempotent(lo: int, i: int, hi: int)
    ensures Clamp(lo, Clamp(lo, i, hi), hi) == Clamp(lo, i, hi)
  {
  }
}
