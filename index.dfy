// Search results encoded in one `int`: a non-negative position is the index
// of a value that was found, a negative position p stands for the insertion
// point -(p+1) of a value that was not.
module Index {
  import opened JavaInt

  /** The encoding map, an involution on all of `int` (MAX_VALUE and MIN_VALUE swap by wrap-around). */
  function Flip(a: int32): (r: int32)
    ensures 0 <= a ==> r < 0
    ensures a < 0 ==> 0 <= r
  {
    Wrap32(-(Wrap32(a + 1) as int))
  }

  function Found(i: int32): (p: int32)
    ensures 0 <= i ==> WasFound(p) && Effective(p) == i
  {
    i
  }

  function InsertAt(i: int32): (p: int32)
    ensures 0 <= i ==> !WasFound(p) && Effective(p) == i
  {
    FlipInvolution(i);
    Flip(i)
  }

  function ContinueAt(i: int32): (p: int32)
    ensures 0 <= i ==> !WasFound(p) && Effective(p) == i
  {
    FlipInvolution(i);
    Flip(i)
  }

  function WasFound(p: int32): bool
  {
    0 <= p
  }

  /** The location a position refers to; never negative. */
  function Effective(p: int32): (i: int32)
    ensures 0 <= i
    ensures 0 <= p ==> i == p
  {
    if WasFound(p) then p else Flip(p)
  }

  /** `done(int, boolean)`. */
  function DoneFound(i: int32, found: bool): (p: int32)
    ensures 0 <= i ==> WasFound(p) == found && Effective(p) == i
  {
    if found then Found(i) else InsertAt(i)
  }

  /** `done(int, int)`: `cmp` compares the sought value with the one at i. */
  function DoneCmp(i: int32, cmp: int32): (p: int32)
    ensures 0 <= i && (cmp > 0 ==> i < INT_MAX) ==>
      WasFound(p) == (cmp == 0) && Effective(p) == (if cmp > 0 then i + 1 else i)
  {
    if cmp == 0 then Found(i) else InsertAt(if cmp < 0 then i else Wrap32(i + 1))
  }

  lemma {:induction false} FlipInvolution(a: int32)
    ensures Flip(Flip(a)) == a
    ensures Flip(a) == if a == INT_MAX then INT_MIN else -(a + 1)
  {
    if a == INT_MAX {
      assert Wrap32(a + 1) == INT_MIN;
      assert Wrap32(-INT_MIN) == INT_MIN;
      assert Flip(a) == INT_MIN;
      assert Wrap32(INT_MIN + 1) == INT_MIN + 1;
    } else {
      assert Wrap32(a + 1) == a + 1;
      if a == INT_MIN {
        assert Flip(a) == INT_MAX;
      } else {
        assert Flip(a) == -(a + 1);
        assert Wrap32(-(a + 1) + 1) == -a;
      }
    }
  }
}
