// `ByteFlux.OnByteArray`: a cursor reading a byte view from its start. Each
// read takes the little-endian value at `next` and advances `next` past
// it; the view itself is never written.
module ByteFlux {
  import opened JavaInt
  import opened Bits
  import BA = ByteArray

  class OnByteArray {
    const data: BA.UncheckedOnBytes
    var next: nat

    /** The cursor lies inside the view. */
    ghost predicate Valid()
      reads this
    {
      data.Valid() && next <= data.len
    }

    /** The bytes not read yet. */
    ghost function Rest(): seq<uint8>
      reads this, data.st
      requires Valid()
    {
      data.Contents()[next..]
    }

    /** `new OnByteArray(data)`: nothing read yet. */
    constructor (d: BA.UncheckedOnBytes)
      requires d.Valid()
      ensures Valid() && data == d && next == 0
      ensures Rest() == d.Contents()
    {
      data := d;
      next := 0;
    }

    /** `remaining()`: what is left of the view. */
    function Remaining(): (n: int)
      reads this
      requires Valid()
      ensures n == data.Size() - next && 0 <= n
    {
      data.Size() - next
    }

    /** `nextByte()`: the byte at `next`. */
    method NextByte() returns (v: uint8)
      requires Valid() && 1 <= Remaining()
      modifies this
      ensures Valid() && next == old(next) + 1
      ensures old(Rest()) == [v] + Rest()
    {
      v := data.Get(next);
      Consumed(data.Contents(), next, [v]);
      next := next + 1;
    }

    /** `nextShort()`: the little-endian `short` at `next`. */
    method NextShort() returns (v: uint16)
      requires Valid() && 2 <= Remaining()
      modifies this
      ensures Valid() && next == old(next) + 2
      ensures v == LE(old(Rest())[..2])
      ensures old(Rest()) == LEBytes(v, 2) + Rest()
    {
      v := data.GetShort(next);
      LEBytesOfLE(data.Contents()[next..next + 2]);
      Consumed(data.Contents(), next, LEBytes(v, 2));
      next := next + 2;
    }

    /** `nextInt()`: the little-endian `int` at `next`. */
    method NextInt() returns (v: uint32)
      requires Valid() && 4 <= Remaining()
      modifies this
      ensures Valid() && next == old(next) + 4
      ensures v == LE(old(Rest())[..4])
      ensures old(Rest()) == LEBytes(v, 4) + Rest()
    {
      v := data.GetInt(next);
      LEBytesOfLE(data.Contents()[next..next + 4]);
      Consumed(data.Contents(), next, LEBytes(v, 4));
      next := next + 4;
    }

    /** `nextLong()`: the little-endian `long` at `next`. */
    method NextLong() returns (v: uint64)
      requires Valid() && 8 <= Remaining()
      modifies this
      ensures Valid() && next == old(next) + 8
      ensures v == LE(old(Rest())[..8])
      ensures old(Rest()) == LEBytes(v, 8) + Rest()
    {
      v := data.GetLong(next);
      LEBytesOfLE(data.Contents()[next..next + 8]);
      Consumed(data.Contents(), next, LEBytes(v, 8));
      next := next + 8;
    }
  }

  /** Reading bs at position p of C leaves what follows it. */
  lemma {:induction false} Consumed(C: seq<uint8>, p: nat, bs: seq<uint8>)
    requires p + |bs| <= |C| && C[p..p + |bs|] == bs
    ensures C[p..] == bs + C[p + |bs|..]
  {
    assert C[p..] == C[p..p + |bs|] + C[p + |bs|..];
  }
}
