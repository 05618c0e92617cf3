// `ByteArray.UncheckedOnBytes`: a little-endian view of the bytes
// [off, off + len) of a byte array.
// The view is used correctly, that is inside its logical bounds, and those
// bounds lie inside the array; the unchecked behaviour of reads and writes
// outside them is not modelled.
module ByteArray {
  import opened JavaInt
  import opened Bits
  import opened BitOps
  import opened Arith
  import B = Bounds

  function Max(a: int, b: int): int { if a >= b then a else b }
  function Min(a: int, b: int): int { if a <= b then a else b }

  /** `n` zero bytes. */
  function Zeros(n: nat): (z: seq<uint8>)
    ensures |z| == n && forall k :: 0 <= k < n ==> z[k] == 0
  {
    seq(n, _ => 0)
  }

  /**
   * The padded read at j with `tail` bytes left in the view: a whole int
   * when the array has four bytes from j, masked to the bytes of the view
   * when fewer than four are left in it; otherwise the tail reader.
   */
  function PaddedLe32(xs: seq<uint8>, j: nat, tail: nat): (r: uint32)
    requires j + tail <= |xs|
    ensures r == LE(xs[j..j + Min(4, tail)])
  {
    if j <= |xs| - 4 then
      if tail >= 4 then Le32(xs, j) else MaskedLe32(xs, j, tail)
    else
      Le32Tail(xs, j, tail).value
  }

  /**
   * The int from j masked to its low `tail` bytes. The mask
   * `(1 << 8*tail) - 1` is written 2^(8 tail) - 1: with tail < 4 the
   * shift does not wrap (`ShlOne`).
   */
  function MaskedLe32(xs: seq<uint8>, j: nat, tail: nat): (r: uint32)
    requires j + 4 <= |xs| && tail < 4
    ensures r == LE(xs[j..j + tail])
  {
    var v := Le32(xs, j);
    MaskedWord(v, xs, j, tail, 4);
    And(v, Pow2(8 * tail) - 1)
  }

  /** PaddedLe32 at index i of the view [off, off + len) of xs. */
  function PaddedLe32At(xs: seq<uint8>, off: nat, len: nat, i: nat): (r: uint32)
    requires off + len <= |xs| && i <= len
    ensures r == LE(xs[off..off + len][i..i + Min(4, len - i)])
  {
    var r := PaddedLe32(xs, off + i, len - i);
    InView(xs, off, len, i, Min(4, len - i), r);
    r
  }

  /** As PaddedLe32, eight bytes wide. */
  function PaddedLe64(xs: seq<uint8>, j: nat, tail: nat): (r: uint64)
    requires j + tail <= |xs|
    ensures r == LE(xs[j..j + Min(8, tail)])
  {
    if j <= |xs| - 8 then
      if tail >= 8 then Le64(xs, j) else MaskedLe64(xs, j, tail)
    else
      Le64Tail(xs, j, tail).value
  }

  /** The long from j masked to its low `tail` bytes, as MaskedLe32. */
  function MaskedLe64(xs: seq<uint8>, j: nat, tail: nat): (r: uint64)
    requires j + 8 <= |xs| && tail < 8
    ensures r == LE(xs[j..j + tail])
  {
    var v := Le64(xs, j);
    MaskedWord(v, xs, j, tail, 8);
    And(v, Pow2(8 * tail) - 1)
  }

  /** PaddedLe64 at index i of the view [off, off + len) of xs. */
  function PaddedLe64At(xs: seq<uint8>, off: nat, len: nat, i: nat): (r: uint64)
    requires off + len <= |xs| && i <= len
    ensures r == LE(xs[off..off + len][i..i + Min(8, len - i)])
  {
    var r := PaddedLe64(xs, off + i, len - i);
    InView(xs, off, len, i, Min(8, len - i), r);
    r
  }

  /** A reading of the w bytes from off + i of xs is a reading of the view's bytes from i. */
  lemma {:induction false} InView(xs: seq<uint8>, off: nat, len: nat, i: nat, w: nat, r: nat)
    requires off + len <= |xs| && i + w <= len && r == LE(xs[off + i..off + i + w])
    ensures r == LE(xs[off..off + len][i..i + w])
  {
    SliceOfSlice(xs, off, off + len, i, w, off + i);
  }

  class UncheckedOnBytes {
    const st: array<uint8>
    const off: nat
    const len: nat

    ghost predicate Valid()
    {
      off + len <= st.Length
    }

    /** The bytes of the view. */
    ghost function Contents(): seq<uint8>
      reads st
      requires Valid()
    {
      st[off..off + len]
    }

    /** `new UncheckedOnBytes(st, init, end)`: a view of [init, end), empty when end < init. */
    constructor (st: array<uint8>, init: nat, end: int)
      requires init <= st.Length && end <= st.Length
      ensures Valid() && this.st == st && off == init && len == Max(0, end - init)
    {
      this.st := st;
      off := init;
      len := Max(0, end - init);
    }

    /** `size()`. */
    function Size(): (n: nat)
      ensures n == len
    {
      len
    }

    /** `subarray(init, end)`: a view over the same array starting at `off + init`. */
    method Subarray(init: nat, end: int) returns (r: UncheckedOnBytes)
      requires Valid() && init <= len && end <= len
      ensures fresh(r) && r.Valid() && r.st == st
      ensures r.off == off + init && r.len == Max(0, end - init)
    {
      r := new UncheckedOnBytes(st, off + init, off + end);
    }

    /** `subarrayClamped(init, end)`: `init` clamped into [0, size], `end` into [that, size]. */
    method SubarrayClamped(init: int, end: int) returns (r: UncheckedOnBytes)
      requires Valid()
      ensures fresh(r) && r.Valid() && r.st == st
      ensures r.off == off + B.Clamp(0, init, len)
      ensures r.len == B.Clamp(B.Clamp(0, init, len), end, len) - B.Clamp(0, init, len)
      ensures 0 <= init <= end <= len ==> r.off == off + init && r.len == end - init
    {
      var effinit := B.Clamp(0, init, Size());
      var effend := B.Clamp(effinit, end, Size());
      r := Subarray(effinit, effend);
    }

    //------------------------------------------------------------------
    // Reads

    /** `get(i)`. */
    function Get(i: nat): (b: uint8)
      reads st
      requires Valid() && i < len
      ensures b == Contents()[i]
    {
      st[off + i]
    }

    /** `getShort(i)`. */
    function GetShort(i: nat): (r: uint16)
      reads st
      requires Valid() && i + 2 <= len
      ensures r == LE(Contents()[i..i + 2])
    {
      SliceOfSlice(st[..], off, off + len, i, 2, off + i);
      Le16(st[..], off + i)
    }

    /** `getInt(i)`. */
    method GetInt(i: nat) returns (r: uint32)
      requires Valid() && i + 4 <= len
      ensures r == LE(Contents()[i..i + 4])
    {
      SliceOfSlice(st[..], off, off + len, i, 4, off + i);
      r := Le32(st[..], off + i);
    }

    /** `getLong(i)`. */
    method GetLong(i: nat) returns (r: uint64)
      requires Valid() && i + 8 <= len
      ensures r == LE(Contents()[i..i + 8])
    {
      SliceOfSlice(st[..], off, off + len, i, 8, off + i);
      r := Le64(st[..], off + i);
    }

    /** `getPaddedShort(i)`: a short, or the last byte alone, zero-extended. */
    function GetPaddedShort(i: nat): (r: uint16)
      reads st
      requires Valid() && i < len
      ensures r == LE(Contents()[i..i + Min(2, len - i)])
    {
      if i <= len - 2 then GetShort(i)
      else
        assert Min(2, len - i) == 1;
        SliceOfSlice(st[..], off, off + len, i, 1, off + i);
        assert st[..][off + i..off + i + 1] == [st[off + i]];
        st[off + i]
    }

    /**
     * `getPaddedInt(i)`: an int when the array has four bytes from `off + i`,
     * masked to the `len - i` bytes left in the view; otherwise the tail reader.
     */
    method GetPaddedInt(i: nat) returns (r: uint32)
      requires Valid() && i <= len
      ensures r == LE(Contents()[i..i + Min(4, len - i)])
    {
      assert Contents() == st[..][off..off + len];
      r := PaddedLe32At(st[..], off, len, i);
    }

    /** `getPaddedLong(i)`: as `getPaddedInt`, eight bytes wide. */
    method GetPaddedLong(i: nat) returns (r: uint64)
      requires Valid() && i <= len
      ensures r == LE(Contents()[i..i + Min(8, len - i)])
    {
      assert Contents() == st[..][off..off + len];
      r := PaddedLe64At(st[..], off, len, i);
    }

    //------------------------------------------------------------------
    // Writes

    /** `set(i, v)`. */
    method Set(i: nat, v: uint8)
      requires Valid() && i < len
      modifies st
      ensures st[..] == old(st[..])[off + i := v]
    {
      st[off + i] := v;
    }

    /** `setShort(i, v)`. */
    method SetShort(i: nat, v: uint16)
      requires Valid() && i + 2 <= len
      modifies st
      ensures st[..] == Splice(old(st[..]), off + i, LEBytes(v, 2))
    {
      SetLe16(st, off + i, v);
    }

    /** `setInt(i, v)`. */
    method SetInt(i: nat, v: uint32)
      requires Valid() && i + 4 <= len
      modifies st
      ensures st[..] == Splice(old(st[..]), off + i, LEBytes(v, 4))
      ensures Contents() == Splice(old(Contents()), i, LEBytes(v, 4))
      ensures OutsideUnchanged(old(st[..]), st[..], off, len)
    {
      SetLe32(st, off + i, v);
      assert st[..] == Splice(old(st[..]), off + i, LEBytes(v, 4));
      SpliceView(old(st[..]), off, len, i, LEBytes(v, 4));
    }

    /** `setLong(i, v)`. */
    method SetLong(i: nat, v: uint64)
      requires Valid() && i + 8 <= len
      modifies st
      ensures st[..] == Splice(old(st[..]), off + i, LEBytes(v, 8))
      ensures Contents() == Splice(old(Contents()), i, LEBytes(v, 8))
      ensures OutsideUnchanged(old(st[..]), st[..], off, len)
    {
      SetLe64(st, off + i, v);
      assert st[..] == Splice(old(st[..]), off + i, LEBytes(v, 8));
      SpliceView(old(st[..]), off, len, i, LEBytes(v, 8));
    }

    /** `setClampedShort(i, v)`: both bytes, or only the low one when one byte is left. */
    method SetClampedShort(i: nat, v: uint16)
      requires Valid() && i < len
      modifies st
      ensures st[..] == Splice(old(st[..]), off + i, LEBytes(v, Min(2, len - i)))
    {
      if i <= len - 2 {
        SetShort(i, v);
      } else {
        Set(i, v % 0x100);
      }
    }

    /** `setClampedInt(i, v)`: the low `min(4, len - i)` bytes of v. */
    method SetClampedInt(i: nat, v: uint32)
      requires Valid() && i <= len
      modifies st
      ensures st[..] == Splice(old(st[..]), off + i, LEBytes(v, Min(4, len - i)))
      ensures Contents() == Splice(old(Contents()), i, LEBytes(v, Min(4, len - i)))
      ensures OutsideUnchanged(old(st[..]), st[..], off, len)
    {
      var tail := len - i;
      if tail >= 4 {
        SetInt(i, v);
      } else {
        var r := SetLe32Tail(st, off + i, tail, v);
      }
      assert st[..] == Splice(old(st[..]), off + i, LEBytes(v, Min(4, len - i)));
      SpliceView(old(st[..]), off, len, i, LEBytes(v, Min(4, len - i)));
    }

    /** `setClampedLong(i, v)`: the low `min(8, len - i)` bytes of v. */
    method SetClampedLong(i: nat, v: uint64)
      requires Valid() && i <= len
      modifies st
      ensures st[..] == Splice(old(st[..]), off + i, LEBytes(v, Min(8, len - i)))
      ensures Contents() == Splice(old(Contents()), i, LEBytes(v, Min(8, len - i)))
      ensures OutsideUnchanged(old(st[..]), st[..], off, len)
    {
      var tail := len - i;
      if tail >= 8 {
        SetLong(i, v);
      } else {
        var r := SetLe64Tail(st, off + i, tail, v);
      }
      assert st[..] == Splice(old(st[..]), off + i, LEBytes(v, Min(8, len - i)));
      SpliceView(old(st[..]), off, len, i, LEBytes(v, Min(8, len - i)));
    }

    /** `clear(init, end)`: zeroes the bytes [init, end) of the view. */
    method Clear(init: nat, end: nat)
      requires Valid() && init <= end <= len
      modifies st
      ensures st[..] == Splice(old(st[..]), off + init, Zeros(end - init))
      ensures forall k :: 0 <= k < st.Length ==> st[k] == if off + init <= k < off + end then 0 else old(st[k])
    {
      forall k | off + init <= k < off + end {
        st[k] := 0;
      }
    }

    /**
     * `clear(init, sinit, end, send)`: clears the bits from bit `sinit` of
     * byte `init` up to, not including, bit `send` of byte `end`, in the two
     * phases `ClearHead` and `ClearTail`. Read as bits of the view, exactly
     * the bits [8 init + sinit, 8 end + send) become 0 (`ClearedView`), and
     * no byte outside the view changes.
     */
    method ClearBits(init: nat, sinit: nat, end: nat, send: nat)
      requires Valid() && init <= end <= len && sinit < 8 && send < 8
      requires 0 < send ==> end < len
      modifies st
      ensures forall q :: 0 <= q < 8 * len ==>
        StoreBit(Contents(), q) == if 8 * init + sinit <= q < 8 * end + send then 0 else old(StoreBit(Contents(), q))
      ensures OutsideUnchanged(old(st[..]), st[..], off, len)
    {
      ghost var C0, V0 := st[..], Contents();
      ClearHeadBits(init, sinit, end);
      ClearTailBits(init, sinit, end, send);
      ghost var V := Contents();
      ClearedView(C0, st[..], off, len, init, sinit, end, send, V0, V, 8 * init + sinit, 8 * end + send);
    }

    /** The first phase of `clearBits`: the bits of byte init from sinit on, then the bytes up to end. */
    method ClearHeadBits(init: nat, sinit: nat, end: nat)
      requires Valid() && init <= end <= len && sinit < 8
      modifies st
      ensures st[..] == ClearHead(old(st[..]), off, init, sinit, end)
    {
      if init < end {
        var j := init;
        if 0 < sinit {
          var keep := Not(Shl(0xFF, sinit, INT_BITS), INT_BITS);
          var x := st[off + j];
          AndBound(x, keep);
          st[off + j] := And(x, keep) as uint8;
          j := j + 1;
        }
        Clear(j, end);
      }
    }

    /** The second phase of `clearBits`: the bits of byte end below send (and, within one byte, from sinit). */
    method ClearTailBits(init: nat, sinit: nat, end: nat, send: nat)
      requires Valid() && end <= len && sinit < 8 && send < 8
      requires 0 < send ==> end < len
      modifies st
      ensures st[..] == ClearTail(old(st[..]), off, init, sinit, end, send)
    {
      if 0 < send {
        var mask := Shl(0xFF, send, INT_BITS);
        if init == end && 0 < sinit {
          mask := Or(mask, Not(Shl(0xFF, sinit, INT_BITS), INT_BITS));
        }
        var x := st[off + end];
        AndBound(x, mask);
        st[off + end] := And(x, mask) as uint8;
      }
    }

    /** `clear()`: zeroes the whole view. */
    method ClearAll()
      requires Valid()
      modifies st
      ensures st[..] == Splice(old(st[..]), off, Zeros(len))
    {
      Clear(0, Size());
    }

    //------------------------------------------------------------------
    // Bulk transfers

    /**
     * `get(i, trg, toff, tlen)`: copies `min(len - i, tlen)` bytes into `trg`
     * and returns that count, or copies nothing and returns 0 when it is not
     * positive. `trg` may be the view's own array.
     */
    method GetBulk(i: nat, trg: array<uint8>, toff: nat, tlen: int) returns (t: int)
      requires Valid()
      requires 0 < Min(len - i, tlen) ==> toff + Min(len - i, tlen) <= trg.Length
      modifies trg
      ensures t == Max(0, Min(len - i, tlen))
      ensures t == 0 ==> trg[..] == old(trg[..])
      ensures t > 0 ==> trg[..] == Splice(old(trg[..]), toff, old(st[off + i..off + i + t]))
    {
      var tocopy := Min(len - i, tlen);
      if tocopy <= 0 {
        return 0;
      }
      var src := st[off + i..off + i + tocopy];
      forall k | toff <= k < toff + tocopy {
        trg[k] := src[k - toff];
      }
      return tocopy;
    }

    /** `set(i, src, soff, slen)`: the converse copy, from `src` into the view. */
    method SetBulk(i: nat, src: array<uint8>, soff: nat, slen: int) returns (t: int)
      requires Valid()
      requires 0 < Min(len - i, slen) ==> soff + Min(len - i, slen) <= src.Length
      modifies st
      ensures t == Max(0, Min(len - i, slen))
      ensures t == 0 ==> st[..] == old(st[..])
      ensures t > 0 ==> st[..] == Splice(old(st[..]), off + i, old(src[soff..soff + t]))
    {
      var tocopy := Min(len - i, slen);
      if tocopy <= 0 {
        return 0;
      }
      var bs := src[soff..soff + tocopy];
      forall k | off + i <= k < off + i + tocopy {
        st[k] := bs[k - off - i];
      }
      return tocopy;
    }

    /** `get(i, trg)`: into the whole of `trg`. */
    method GetAllInto(i: nat, trg: array<uint8>) returns (t: int)
      requires Valid()
      modifies trg
      ensures t == Max(0, Min(len - i, trg.Length))
      ensures t == 0 ==> trg[..] == old(trg[..])
      ensures t > 0 ==> trg[..] == Splice(old(trg[..]), 0, old(st[off + i..off + i + t]))
    {
      t := GetBulk(i, trg, 0, trg.Length);
    }

    /** `set(i, src)`: from the whole of `src`. */
    method SetAllFrom(i: nat, src: array<uint8>) returns (t: int)
      requires Valid()
      modifies st
      ensures t == Max(0, Min(len - i, src.Length))
      ensures t == 0 ==> st[..] == old(st[..])
      ensures t > 0 ==> st[..] == Splice(old(st[..]), off + i, old(src[..t]))
    {
      t := SetBulk(i, src, 0, src.Length);
    }
  }

  /** Only the bytes of the byte view [boff, boff + blen) of the array may differ. */
  ghost predicate OutsideUnchanged(A0: seq<uint8>, A: seq<uint8>, boff: nat, blen: nat)
  {
    |A| == |A0| && forall k :: 0 <= k < |A| && !(boff <= k < boff + blen) ==> A[k] == A0[k]
  }

  /** A write of bs through the array at byte i of the view [p, p + n), read through the view. */
  lemma {:induction false} SpliceView(A: seq<uint8>, p: nat, n: nat, i: nat, bs: seq<uint8>)
    requires p + n <= |A| && i + |bs| <= n
    ensures Splice(A, p + i, bs)[p..p + n] == Splice(A[p..p + n], i, bs)
    ensures OutsideUnchanged(A, Splice(A, p + i, bs), p, n)
  {
    var A' := Splice(A, p + i, bs);
    var L, R := A'[p..p + n], Splice(A[p..p + n], i, bs);
    forall k | 0 <= k < n
      ensures L[k] == R[k]
    {
      assert L[k] == A'[p + k];
      if i <= k < i + |bs| {
        assert A'[p + i..p + i + |bs|][k - i] == bs[k - i];
        assert R[i..i + |bs|][k - i] == bs[k - i];
      } else {
        assert R[k] == A[p..p + n][k] == A[p + k];
        assert A'[p + k] == A[p + k];
      }
    }
    assert L == R;
  }

  /** Byte k of a view after `clear(init, sinit, end, send)`, given its old value x. */
  function ClearedByte(x: uint8, k: nat, init: nat, sinit: nat, end: nat, send: nat): nat
    requires sinit < 8 && send < 8
  {
    if k < init || end < k || (k == end && send == 0) then x
    else if k < end then (if k == init && 0 < sinit then And(x, Not(Shl(0xFF, sinit, INT_BITS), INT_BITS)) else 0)
    else if init == end && 0 < sinit then And(x, Or(Shl(0xFF, send, INT_BITS), Not(Shl(0xFF, sinit, INT_BITS), INT_BITS)))
    else And(x, Shl(0xFF, send, INT_BITS))
  }

  /** The first phase of `clear(init, sinit, end, send)` on the array C with the view at p: the bytes before `end`. */
  function ClearHead(C: seq<uint8>, p: nat, init: nat, sinit: nat, end: nat): seq<uint8>
    requires p + end <= |C| && init <= end && sinit < 8
  {
    if end <= init then C
    else if sinit == 0 then Splice(C, p + init, Zeros(end - init))
    else
      AndBound(C[p + init], Not(Shl(0xFF, sinit, INT_BITS), INT_BITS));
      Splice(C[p + init := And(C[p + init], Not(Shl(0xFF, sinit, INT_BITS), INT_BITS)) as uint8], p + init + 1, Zeros(end - init - 1))
  }

  /** The second phase: masking byte `end`. */
  function ClearTail(C: seq<uint8>, p: nat, init: nat, sinit: nat, end: nat, send: nat): seq<uint8>
    requires sinit < 8 && send < 8 && (0 < send ==> p + end < |C|)
  {
    if send == 0 then C
    else
      var mask := if init == end && 0 < sinit then Or(Shl(0xFF, send, INT_BITS), Not(Shl(0xFF, sinit, INT_BITS), INT_BITS)) else Shl(0xFF, send, INT_BITS);
      AndBound(C[p + end], mask);
      C[p + end := And(C[p + end], mask) as uint8]
  }

  /** Both phases keep the bytes outside the view and leave every byte of it as `ClearedByte` says. */
  lemma {:induction false} ClearedView(C0: seq<uint8>, C: seq<uint8>, p: nat, len: nat, init: nat, sinit: nat, end: nat, send: nat,
                     V0: seq<uint8>, V: seq<uint8>, a: nat, e: nat)
    requires p + len <= |C0| && init <= end <= len && sinit < 8 && send < 8 && (0 < send ==> end < len)
    requires C == ClearTail(ClearHead(C0, p, init, sinit, end), p, init, sinit, end, send)
    requires V0 == C0[p..p + len] && V == C[p..p + len] && a == 8 * init + sinit && e == 8 * end + send
    ensures |C| == |C0| && |V| == len
    ensures forall k :: 0 <= k < |C0| && !(p <= k < p + len) ==> C[k] == C0[k]
    ensures forall q :: 0 <= q < 8 * len ==> StoreBit(V, q) == if a <= q < e then 0 else StoreBit(V0, q)
  {
    var C1 := ClearHead(C0, p, init, sinit, end);
    forall i | 0 <= i < |C0|
      ensures C1[i] == if p + init <= i < p + end then
        (if i == p + init && 0 < sinit then And(C0[i], Not(Shl(0xFF, sinit, INT_BITS), INT_BITS)) else 0)
        else C0[i]
    {
      HeadAt(C0, p, init, sinit, end, i);
    }
    forall k | 0 <= k < len
      ensures V[k] == ClearedByte(V0[k], k, init, sinit, end, send)
    {
      assert V[k] == C[p + k];
      assert V0[k] == C0[p + k];
    }
    ClearedBits(V0, V, init, sinit, end, send);
  }

  lemma {:induction false} HeadAt(C0: seq<uint8>, p: nat, init: nat, sinit: nat, end: nat, i: nat)
    requires p + end <= |C0| && init <= end && sinit < 8 && i < |C0|
    ensures |ClearHead(C0, p, init, sinit, end)| == |C0|
    ensures ClearHead(C0, p, init, sinit, end)[i] == if p + init <= i < p + end then
        (if i == p + init && 0 < sinit then And(C0[i], Not(Shl(0xFF, sinit, INT_BITS), INT_BITS)) else 0)
        else C0[i]
  {
  }

  /** The bytes `clear(init, sinit, end, send)` leaves hold the old bits outside [8init+sinit, 8end+send) and 0 inside. */
  lemma {:induction false} ClearedBits(C0: seq<uint8>, C: seq<uint8>, init: nat, sinit: nat, end: nat, send: nat)
    requires |C| == |C0| && sinit < 8 && send < 8 && init <= end
    requires forall k :: 0 <= k < |C| ==> C[k] == ClearedByte(C0[k], k, init, sinit, end, send)
    ensures forall q :: 0 <= q < 8 * |C| ==>
      StoreBit(C, q) == if 8 * init + sinit <= q < 8 * end + send then 0 else StoreBit(C0, q)
  {
    forall q | 0 <= q < 8 * |C|
      ensures StoreBit(C, q) == if 8 * init + sinit <= q < 8 * end + send then 0 else StoreBit(C0, q)
    {
      var k, t := q / 8, q % 8;
      ClearedBit(C0[k], C[k], k, t, init, sinit, end, send);
    }
  }

  /**
   * Bit t of byte k after `clear(init, sinit, end, send)`, from what the
   * method wrote into that byte: zero inside the cleared range, as before
   * outside it.
   */
  lemma {:induction false} ClearedBit(x0: uint8, x: uint8, k: nat, t: nat, init: nat, sinit: nat, end: nat, send: nat)
    requires t < 8 && sinit < 8 && send < 8 && init <= end
    requires x == ClearedByte(x0, k, init, sinit, end, send)
    ensures Bit(x, t) == if 8 * init + sinit <= 8 * k + t < 8 * end + send then 0 else Bit(x0, t)
  {
    ByteMasks(sinit, t);
    ByteMasks(send, t);
    BitOr(Shl(0xFF, send, INT_BITS), Not(Shl(0xFF, sinit, INT_BITS), INT_BITS), t);
    BitAnd(x0, Shl(0xFF, send, INT_BITS), t);
    BitAnd(x0, Not(Shl(0xFF, sinit, INT_BITS), INT_BITS), t);
    BitAnd(x0, Or(Shl(0xFF, send, INT_BITS), Not(Shl(0xFF, sinit, INT_BITS), INT_BITS)), t);
    BitZero(t);
  }

  lemma {:induction false} SliceOfSlice(s: seq<uint8>, a: nat, b: nat, c: nat, w: nat, j: nat)
    requires a <= b <= |s| && c + w <= b - a && j == a + c
    ensures s[a..b][c..c + w] == s[j..j + w]
  {
    var d, y := c + w, j + w;
    forall k | 0 <= k < w
      ensures s[a..b][c..d][k] == s[j..y][k]
    {
    }
    assert s[a..b][c..d] == s[j..y];
  }

  /**
   * A word read from `w` bytes and masked to its low `t` bytes is the word
   * of those `t` bytes alone.
   */
  lemma {:induction false} LowBytesMask(xs: seq<uint8>, j: nat, t: nat, w: nat)
    requires t < w && j + w <= |xs| && (w == 4 || w == 8)
    ensures And(LE(xs[j..j + w]), Pow2(8 * t) - 1) == LE(xs[j..j + t])
  {
    var m, e := j + t, j + w;
    LowSplit(xs, j, m, e, t);
    AndLowBits(LE(xs[j..e]), 8 * t, LE(xs[j..m]), LE(xs[m..e]));
  }

  /** The bytes [j, e) are the t bytes [j, m) and, 8 t bits above them, the rest. */
  lemma {:induction false} LowSplit(xs: seq<uint8>, j: nat, m: nat, e: nat, t: nat)
    requires j <= m <= e <= |xs| && m == j + t
    ensures LE(xs[j..e]) == LE(xs[j..m]) + Pow2(8 * t) * LE(xs[m..e]) && LE(xs[j..m]) < Pow2(8 * t)
  {
    LESplit(xs, j, m, e);
    assert m - j == t;
    Pow2Pow256(t);
  }

  /** The word v of the w bytes from j, masked to its low t bytes. */
  lemma {:induction false} MaskedWord(v: nat, xs: seq<uint8>, j: nat, t: nat, w: nat)
    requires t < w && j + w <= |xs| && (w == 4 || w == 8) && v == LE(xs[j..j + w])
    ensures And(v, Pow2(8 * t) - 1) == LE(xs[j..j + t]) && And(v, Pow2(8 * t) - 1) <= v
  {
    LowBytesMask(xs, j, t, w);
    AndBound(v, Pow2(8 * t) - 1);
  }

  /** A clamped write followed by a padded read at the same index gives the value, masked to the bytes available. */
  lemma {:induction false} ClampedThenPadded(s: seq<uint8>, off: nat, len: nat, i: nat, v: nat, w: nat)
    requires off + len <= |s| && i <= len && w <= 8
    ensures
      var k := Min(w, len - i);
      var s' := Splice(s, off + i, LEBytes(v, k));
      LE(s'[off..off + len][i..i + k]) == v % Pow256(k)
  {
    var k := Min(w, len - i);
    var s' := Splice(s, off + i, LEBytes(v, k));
    SliceOfSlice(s', off, off + len, i, k, off + i);
    assert s'[off + i..off + i + k] == LEBytes(v, k);
    LERoundTrip(v, k);
  }
}
