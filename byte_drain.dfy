// `ByteDrain.OnArray`: a byte sink over a growable array. `bs[0..used)`
// holds what has been drained so far; each drain first makes room for its
// bytes (`ensure`), growing the array through `XArray.growFree`, then
// stores the value little-endian at `used` and advances `used`.
// Java values are taken as their unsigned readings.
module ByteDrain {
  import opened JavaInt
  import opened Bits
  import opened Arith
  import XA = XArray

  /** The exceptions a drain can end in. */
  datatype Failure =
    | IllegalState       // `growSize`: `used + n` would pass `MAX_SIZE`
    | IndexOutOfBounds   // the store: `used + n` overflowed `int`, so nothing grew

  datatype Outcome = Done | Failed(failure: Failure)

  /** The failure a drain of n bytes ends in when `used + n` passes `MAX_SIZE`. */
  function FailureFor(used: nat, n: nat): Failure
  {
    if used + n <= INT_MAX then IllegalState else IndexOutOfBounds
  }

  class OnArray {
    var bs: array<uint8>
    var used: nat

    /**
     * The drained bytes fit the array, and the array is no longer than the
     * longest the virtual machine allocates (`XArray.MAX_SIZE`).
     */
    ghost predicate Valid()
      reads this
    {
      used <= bs.Length <= XA.MAX_SIZE
    }

    /** The bytes drained so far. */
    ghost function Drained(): seq<uint8>
      reads this, bs
      requires Valid()
    {
      bs[..used]
    }

    /** `new OnArray(initialSize)`: an empty drain over a fresh array. */
    constructor (initialSize: nat)
      requires initialSize <= XA.MAX_SIZE
      ensures Valid() && fresh(bs) && bs.Length == initialSize && used == 0
      ensures Drained() == []
    {
      bs := new uint8[initialSize](_ => 0);
      used := 0;
    }

    /**
     * `ensure(n)`: when `bs.length < used + n`, with the sum taken in `int`,
     * replaces bs by a fresh, longer array that starts with the drained
     * bytes. Fails when that growth would pass `MAX_SIZE`; when the sum
     * overflows, nothing grows.
     */
    method Ensure(n: nat) returns (r: Outcome)
      requires Valid() && n <= 8
      modifies this
      ensures Valid() && used == old(used) && Drained() == old(Drained())
      ensures r.Failed? <==> XA.MAX_SIZE < used + n <= INT_MAX
      ensures r.Failed? ==> r.failure == IllegalState
      ensures r.Done? && used + n <= INT_MAX ==> used + n <= bs.Length
      ensures old(bs.Length) >= used + n || used + n > INT_MAX ==> bs == old(bs)
      ensures bs == old(bs) || (fresh(bs) && XA.GrowSize(old(bs.Length), used, n) == XA.Ok(bs.Length))
    {
      if bs.Length < Wrap32(used + n) {
        var g := XA.GrowFreeOf(bs, used, n);
        if g.Err? {
          return Failed(IllegalState);
        }
        bs := g.value;
      }
      return Done;
    }

    /** `drain(byte)`: one byte at `used`. */
    method DrainByte(x: uint8) returns (r: Outcome)
      requires Valid()
      modifies this, bs
      ensures Valid()
      ensures r.Done? <==> old(used) + 1 <= XA.MAX_SIZE
      ensures r.Done? ==> used == old(used) + 1 && Drained() == old(Drained()) + [x]
      ensures r.Failed? ==> used == old(used) && Drained() == old(Drained()) && r.failure == FailureFor(used, 1)
    {
      r := Ensure(1);
      if r.Failed? {
        return;
      }
      ghost var D := Drained();
      bs[used] := x;
      used := used + 1;
      assert Drained() == D + [x];
    }

    /** `drain(short)`: `le16(bs, used, x)`. */
    method DrainShort(x: uint16) returns (r: Outcome)
      requires Valid()
      modifies this, bs
      ensures Valid()
      ensures r.Done? <==> old(used) + 2 <= XA.MAX_SIZE
      ensures r.Done? ==> used == old(used) + 2 && Drained() == old(Drained()) + LEBytes(x, 2)
      ensures r.Done? ==> LE(Drained()[old(used)..]) == x
      ensures r.Failed? ==> used == old(used) && Drained() == old(Drained()) && r.failure == FailureFor(used, 2)
    {
      r := Ensure(2);
      if r.Failed? {
        return;
      }
      ghost var D, A0 := Drained(), bs[..];
      SetLe16(bs, used, x);
      Stored(D, A0, bs[..], used, LEBytes(x, 2));
      used := used + 2;
      Pow256Values();
      ReadBack(D, Drained(), x, 2);
    }

    /** `drain(int)`: `le32(bs, used, x)`, failing as the store does once `used + 4` overflows. */
    method DrainInt(x: uint32) returns (r: Outcome)
      requires Valid()
      modifies this, bs
      ensures Valid()
      ensures r.Done? <==> old(used) + 4 <= XA.MAX_SIZE
      ensures r.Done? ==> used == old(used) + 4 && Drained() == old(Drained()) + LEBytes(x, 4)
      ensures r.Done? ==> LE(Drained()[old(used)..]) == x
      ensures r.Failed? ==> used == old(used) && Drained() == old(Drained()) && r.failure == FailureFor(used, 4)
    {
      r := Ensure(4);
      if r.Failed? {
        return;
      }
      if bs.Length < used + 4 {
        return Failed(IndexOutOfBounds);
      }
      ghost var D, A0 := Drained(), bs[..];
      SetLe32(bs, used, x);
      Stored(D, A0, bs[..], used, LEBytes(x, 4));
      used := used + 4;
      Pow256Values();
      ReadBack(D, Drained(), x, 4);
    }

    /** `drain(long)`: `le64(bs, used, x)`, failing as the store does once `used + 8` overflows. */
    method DrainLong(x: uint64) returns (r: Outcome)
      requires Valid()
      modifies this, bs
      ensures Valid()
      ensures r.Done? <==> old(used) + 8 <= XA.MAX_SIZE
      ensures r.Done? ==> used == old(used) + 8 && Drained() == old(Drained()) + LEBytes(x, 8)
      ensures r.Done? ==> LE(Drained()[old(used)..]) == x
      ensures r.Failed? ==> used == old(used) && Drained() == old(Drained()) && r.failure == FailureFor(used, 8)
    {
      r := Ensure(8);
      if r.Failed? {
        return;
      }
      if bs.Length < used + 8 {
        return Failed(IndexOutOfBounds);
      }
      ghost var D, A0 := Drained(), bs[..];
      SetLe64(bs, used, x);
      Stored(D, A0, bs[..], used, LEBytes(x, 8));
      used := used + 8;
      Pow256Values();
      ReadBack(D, Drained(), x, 8);
    }
  }

  /** Storing bs at the end of the drained prefix D appends bs to it. */
  lemma {:induction false} Stored(D: seq<uint8>, A0: seq<uint8>, A: seq<uint8>, used: nat, bs: seq<uint8>)
    requires used == |D| && used + |bs| <= |A0| && A0[..used] == D && A == Splice(A0, used, bs)
    ensures A[..used + |bs|] == D + bs
  {
    assert A[..used + |bs|] == A[..used] + A[used..used + |bs|];
    assert A[..used] == A0[..used];
  }

  /** The bytes a drain appended read back, little-endian, as the drained value. */
  lemma {:induction false} ReadBack(D: seq<uint8>, D': seq<uint8>, x: nat, n: nat)
    requires D' == D + LEBytes(x, n) && x < Pow256(n)
    ensures LE(D'[|D|..]) == x
  {
    assert D'[|D|..] == LEBytes(x, n);
    LERoundTrip(x, n);
    DivModUnique(x, Pow256(n), 0, x);
  }
}
