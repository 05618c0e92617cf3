// `BitArray.OnByteArray`: a view of the bits [off, off + len) of a byte
// array view, bit q of the store being bit q % 8 of byte q / 8 (`StoreBit`).
// The counting and searching loops are proved against the reference scans
// `Count`, `Next1` and `NthOne` of BitOps.
module BitArray {
  import opened JavaInt
  import opened Bits
  import opened BitOps
  import opened Arith
  import BA = ByteArray
  import B = Bounds

  class OnByteArray {
    const st: BA.UncheckedOnBytes
    const off: nat
    const len: nat

    /** The byte view is well formed and the bit view lies inside it. */
    ghost predicate Valid()
    {
      st.Valid() && off + len <= 8 * st.len
    }

    /** The bytes of the store. */
    ghost function Bytes(): seq<uint8>
      reads st.st
      requires st.Valid()
    {
      st.Contents()
    }

    /** `new OnByteArray(store, bitoff, bitlen)`. */
    constructor (store: BA.UncheckedOnBytes, bitoff: nat, bitlen: nat)
      ensures st == store && off == bitoff && len == bitlen
    {
      st := store;
      off := bitoff;
      len := bitlen;
    }

    /** `size()`. */
    function Size(): (n: nat)
      ensures n == len
    {
      len
    }

    /** `block8(i)`: the byte of the store holding bit i. */
    function Block8(i: nat): (b: nat)
      ensures 8 * b <= off + i < 8 * b + 8
    {
      (off + i) / 8
    }

    /** `shift8(i)`: the place of bit i in that byte. */
    function Shift8(i: nat): (s: nat)
      ensures s < 8 && off + i == 8 * Block8(i) + s
    {
      (off + i) % 8
    }

    //------------------------------------------------------------------
    // Single bits

    /** `get(i)`: bit `shift8(i)` of byte `block8(i)`. */
    function Get(i: nat): (r: nat)
      reads st.st
      requires Valid() && i < len
      ensures r == StoreBit(Bytes(), off + i) && r <= 1
    {
      var b, s := Block8(i), Shift8(i);
      GetFromByte(st.Get(b), s);
      And(Shr(st.Get(b), s), 1)
    }

    /** `has(i)`. */
    function Has(i: nat): (r: bool)
      reads st.st
      requires Valid() && i < len
      ensures r <==> StoreBit(Bytes(), off + i) == 1
    {
      Get(i) != 0
    }

    /** `set(i, v)`: bit i becomes the low bit of v; no other bit of the store changes. */
    method Set(i: nat, v: uint32)
      requires Valid() && i < len
      modifies st.st
      ensures Bytes() == old(Bytes())[Block8(i) := Bytes()[Block8(i)]]
      ensures forall q :: 0 <= q < 8 * st.len ==>
        StoreBit(Bytes(), q) == if q == off + i then v % 2 else old(StoreBit(Bytes(), q))
      ensures BA.OutsideUnchanged(old(st.st[..]), st.st[..], st.off, st.len)
    {
      var b, s := Block8(i), Shift8(i);
      var x := st.Get(b);
      AndOne(v);
      SetInByte(x, s, And(v, 1));
      var y := Or(And(x, Not(Shl(1, s, INT_BITS), INT_BITS)), Shl(And(v, 1), s, INT_BITS));
      PutByte(i, y as uint8, And(v, 1));
    }

    /** Writes y as byte `block8(i)`, y differing from that byte at most in bit `shift8(i)`, which is v. */
    method PutByte(i: nat, y: uint8, v: nat)
      requires Valid() && i < len
      requires forall t :: 0 <= t < 8 ==> Bit(y, t) == if t == Shift8(i) then v else Bit(Bytes()[Block8(i)], t)
      modifies st.st
      ensures Bytes() == old(Bytes())[Block8(i) := y]
      ensures forall q :: 0 <= q < 8 * st.len ==>
        StoreBit(Bytes(), q) == if q == off + i then v else old(StoreBit(Bytes(), q))
      ensures BA.OutsideUnchanged(old(st.st[..]), st.st[..], st.off, st.len)
    {
      var b := Block8(i);
      ghost var C0 := Bytes();
      st.Set(b, y);
      ViewUpdate(old(st.st[..]), st.off, st.len, b, y);
      WriteByte(C0, b, y, Shift8(i), v);
    }

    /** `set(i, v)` with a boolean. */
    method SetBool(i: nat, v: bool)
      requires Valid() && i < len
      modifies st.st
      ensures forall q :: 0 <= q < 8 * st.len ==>
        StoreBit(Bytes(), q) == if q == off + i then (if v then 1 else 0) else old(StoreBit(Bytes(), q))
      ensures BA.OutsideUnchanged(old(st.st[..]), st.st[..], st.off, st.len)
    {
      Set(i, if v then 1 else 0);
    }

    /** `set(i)`: bit i becomes 1. */
    method SetOne(i: nat)
      requires Valid() && i < len
      modifies st.st
      ensures Bytes() == old(Bytes())[Block8(i) := Bytes()[Block8(i)]]
      ensures forall q :: 0 <= q < 8 * st.len ==>
        StoreBit(Bytes(), q) == if q == off + i then 1 else old(StoreBit(Bytes(), q))
      ensures BA.OutsideUnchanged(old(st.st[..]), st.st[..], st.off, st.len)
    {
      var b, s := Block8(i), Shift8(i);
      var x := st.Get(b);
      SetOneInByte(x, s);
      var y := Or(x, Shl(1, s, INT_BITS));
      PutByte(i, y as uint8, 1);
    }

    /** `clear(i)`: bit i becomes 0. */
    method ClearOne(i: nat)
      requires Valid() && i < len
      modifies st.st
      ensures Bytes() == old(Bytes())[Block8(i) := Bytes()[Block8(i)]]
      ensures forall q :: 0 <= q < 8 * st.len ==>
        StoreBit(Bytes(), q) == if q == off + i then 0 else old(StoreBit(Bytes(), q))
      ensures BA.OutsideUnchanged(old(st.st[..]), st.st[..], st.off, st.len)
    {
      var b, s := Block8(i), Shift8(i);
      var x := st.Get(b);
      ClearInByte(x, s);
      var y := And(x, Not(Shl(1, s, INT_BITS), INT_BITS));
      PutByte(i, y as uint8, 0);
    }

    //------------------------------------------------------------------
    // Counting and searching

    /**
     * `popcnt(init, end)`: the partial first byte, the whole bytes, then the
     * partial last byte.
     */
    method Popcnt(init: int, end: int) returns (n: nat)
      requires Valid() && (init < end ==> 0 <= init && end <= len)
      ensures end <= init ==> n == 0
      ensures init < end ==> n == Count(Bytes(), off + init, off + end)
    {
      if end <= init {
        return 0;
      }
      n := PopcntScan(init, end, off + init, off + end);
    }

    /** The count of `popcnt` over a non-empty range [init, end), that is, store positions [a, e). */
    method PopcntScan(init: nat, end: nat, ghost a: nat, ghost e: nat) returns (n: nat)
      requires Valid() && init < end <= len && a == off + init && e == off + end
      ensures n == Count(Bytes(), a, e)
    {
      var binit, sinit := Block8(init), Shift8(init);
      var bend, send := Block8(end), Shift8(end);
      n := 0;
      if binit < bend {
        var i := binit;
        if sinit > 0 {
          n := PopcntHead(i, sinit, a);
          i := i + 1;
        }
        n := PopcntBytes(i, bend, n, a);
      }
      ghost var m := if binit < bend then 8 * bend else a;
      n := PopcntTail(bend, send, if binit == bend then sinit else 0, n, a, m, e);
    }

    /** The partial first byte of `popcnt`, from bit s, when the range goes on past that byte. */
    method PopcntHead(i: nat, s: nat, ghost a: nat) returns (n: nat)
      requires Valid() && 0 < s < 8 && i < st.len && a == 8 * i + s
      ensures n == Count(Bytes(), a, 8 * (i + 1))
    {
      var b := Shr(st.Get(i), s);
      CountChunk(Bytes(), First(i, s), b, a, a, 8 * (i + 1), 0);
      n := PopCount(b);
    }

    /**
     * The whole bytes [i0, bend) of `popcnt` (64-bit words, one 32-bit word,
     * then single bytes), adding to the count n0 of [a, 8 i0).
     */
    method PopcntBytes(i0: nat, bend: nat, n0: nat, ghost a: nat) returns (n: nat)
      requires Valid() && i0 <= bend <= st.len && a <= 8 * i0 && n0 == Count(Bytes(), a, 8 * i0)
      ensures n == Count(Bytes(), a, 8 * bend)
    {
      ghost var C := Bytes();
      var i := i0;
      n := n0;
      while i + 8 <= bend
        invariant a <= 8 * i && i <= bend && Bytes() == C
        invariant n == Count(C, a, 8 * i)
      {
        var w := st.GetLong(i);
        CountChunk(C, Word(i, LONG_BYTES), w, a, 8 * i, 8 * (i + 8), n);
        n := n + PopCount(w);
        i := i + 8;
      }
      if i + 4 <= bend {
        var w := st.GetInt(i);
        CountChunk(C, Word(i, INT_BYTES), w, a, 8 * i, 8 * (i + 4), n);
        n := n + PopCount(w);
        i := i + 4;
      }
      n := PopcntSingles(i, bend, n, a);
    }

    /** The single bytes [i0, bend) that end `popcnt`'s whole-byte part, adding to the count n0 of [a, 8 i0). */
    method PopcntSingles(i0: nat, bend: nat, n0: nat, ghost a: nat) returns (n: nat)
      requires Valid() && i0 <= bend <= st.len && a <= 8 * i0 && n0 == Count(Bytes(), a, 8 * i0)
      ensures n == Count(Bytes(), a, 8 * bend)
    {
      ghost var C := Bytes();
      var i := i0;
      n := n0;
      ghost var q := 8 * i;
      while i < bend
        invariant a <= q && q == 8 * i && i <= bend && Bytes() == C
        invariant n == Count(C, a, q)
      {
        CountChunk(C, Byte(i), st.Get(i), a, q, q + 8, n);
        n := n + PopCount(st.Get(i));
        i, q := i + 1, q + 8;
      }
    }

    /**
     * The partial last byte of `popcnt`, from bit s (bit `sinit` when the
     * range starts in that byte, else bit 0) at store position m, adding
     * to the count n0 of [a, m).
     */
    method PopcntTail(bend: nat, send: nat, s: nat, n0: nat, ghost a: nat, ghost m: nat, ghost e: nat)
      returns (n: nat)
      requires Valid() && s <= send < 8 && (send > 0 ==> bend < st.len)
      requires m == 8 * bend + s && e == 8 * bend + send && a <= m && n0 == Count(Bytes(), a, m)
      ensures n == Count(Bytes(), a, e)
    {
      n := n0;
      if send > 0 {
        var b := KeepLow(st.Get(bend), send);
        if s > 0 {
          b := Shr(b, s);
        }
        CountChunk(Bytes(), Last(bend, send, s), b, a, m, e, n);
        n := n + PopCount(b);
      }
    }

    /** `popcnt()`. */
    method PopcntAll() returns (n: nat)
      requires Valid()
      ensures n == Count(Bytes(), off, off + len)
    {
      n := Popcnt(0, Size());
    }

    /** `next1(init, end)`: the first set bit of [init, end), or `end`. */
    method Next1(init: int, end: int) returns (r: int)
      requires Valid() && (init < end ==> 0 <= init && end <= len)
      ensures end <= init ==> r == end
      ensures init < end ==> off + r == BitOps.Next1(Bytes(), off + init, off + end)
    {
      if end <= init {
        return end;
      }
      r := Next1Scan(init, end, off + init, off + end);
    }

    /** The scan of `next1` over a non-empty range [init, end), that is, store positions [a, e). */
    method Next1Scan(init: nat, end: nat, ghost a: nat, ghost e: nat) returns (r: int)
      requires Valid() && init < end <= len && a == off + init && e == off + end
      ensures off + r == BitOps.Next1(Bytes(), a, e)
    {
      ghost var C := Bytes();
      var binit, sinit := Block8(init), Shift8(init);
      var bend, send := Block8(end), Shift8(end);
      assert Bytes() == C;
      if binit == bend {
        r := Next1Tail(bend, send, sinit, init, end, a, a, e);
        assert Bytes() == C;
        return;
      }
      var i, p, found := binit, init, false;
      ghost var q := a;
      if sinit > 0 {
        found, p := Next1Head(i, sinit, p, a, e);
        assert Bytes() == C;
        if found {
          return p;
        }
        i, q := i + 1, 8 * (i + 1);
      }
      found, p := Next1Whole(i, bend, p, a, q, e);
      assert Bytes() == C;
      if found {
        return p;
      }
      r := Next1Tail(bend, send, 0, p, end, a, 8 * bend, e);
      assert Bytes() == C;
    }

    /**
     * The partial first byte of `next1`, read from bit s, in a scan of
     * [a, e) that starts at that bit and goes on past that byte.
     */
    method Next1Head(i: nat, s: nat, p: int, ghost a: nat, ghost e: nat) returns (found: bool, r: int)
      requires Valid() && 0 < s < 8 && i < st.len && off + p == a && a == 8 * i + s && 8 * (i + 1) <= e
      ensures found ==> off + r == BitOps.Next1(Bytes(), a, e)
      ensures !found ==> off + r == 8 * (i + 1) && Count(Bytes(), a, 8 * (i + 1)) == 0
    {
      var b := Shr(st.Get(i), s);
      NextChunk(Bytes(), First(i, s), b, a, a, 8 * (i + 1), e, INT_BITS);
      if b != 0 {
        return true, p + Ntz(b, INT_BITS);
      }
      return false, p + 8 - s;
    }

    /**
     * The whole bytes [i0, bend) of `next1`, from view position p0, in a scan
     * of [a, e) that has found no set bit before byte i0: the answer of the
     * whole scan when they hold a set bit, else the view position of their end.
     */
    method Next1Whole(i0: nat, bend: nat, p0: int, ghost a: nat, ghost q: nat, ghost e: nat) returns (found: bool, r: int)
      requires Valid() && i0 <= bend <= st.len && off + p0 == q && q == 8 * i0
      requires a <= q && 8 * bend <= e && Count(Bytes(), a, q) == 0
      ensures found ==> off + r == BitOps.Next1(Bytes(), a, e)
      ensures !found ==> off + r == 8 * bend && Count(Bytes(), a, 8 * bend) == 0
    {
      var i: nat;
      found, r, i := Next1Longs(i0, bend, p0, a, e);
      if found {
        return;
      }
      found, r, i := Next1Ints(i, bend, r, a, e);
      if found {
        return;
      }
      found, r, i := Next1Bytes(i, bend, r, a, e);
    }

    /**
     * The partial last byte of `next1`, read from bit s (bit `sinit` when the
     * range starts in that byte, else bit 0), at store position m, of a scan
     * of [a, e) that has found no set bit before it.
     */
    method Next1Tail(bend: nat, send: nat, s: nat, p: int, end: int, ghost a: nat, ghost m: nat, ghost e: nat)
      returns (r: int)
      requires Valid() && s <= send < 8 && (send > 0 ==> bend < st.len)
      requires off + p == m && m == 8 * bend + s && off + end == e && e == 8 * bend + send
      requires a <= m && Count(Bytes(), a, m) == 0
      ensures off + r == BitOps.Next1(Bytes(), a, e)
    {
      ghost var C := Bytes();
      if send > 0 {
        var b := KeepLow(st.Get(bend), send);
        if s > 0 {
          b := Shr(b, s);
        }
        NextChunk(C, Last(bend, send, s), b, a, m, e, e, INT_BITS);
        if b != 0 {
          return p + Ntz(b, INT_BITS);
        }
      }
      Next1Skip(C, a, e, e);
      return end;
    }

    /**
     * The 64-bit loop of `next1`, from byte i0 (view position p0) of a scan
     * of [a, e) that has found no set bit before byte i0: the answer of the
     * whole scan when a word holds a set bit, else where the loop stops.
     */
    method Next1Longs(i0: nat, bend: nat, p0: int, ghost a: nat, ghost e: nat)
      returns (found: bool, r: int, i: nat)
      requires Valid() && i0 <= bend <= st.len && off + p0 == 8 * i0
      requires a <= 8 * i0 && 8 * bend <= e && Count(Bytes(), a, 8 * i0) == 0
      ensures found ==> off + r == BitOps.Next1(Bytes(), a, e)
      ensures !found ==> i0 <= i <= bend < i + 8 && off + r == 8 * i && Count(Bytes(), a, 8 * i) == 0
    {
      ghost var C := Bytes();
      i, r := i0, p0;
      while i + 8 <= bend
        invariant i0 <= i <= bend && off + r == 8 * i && Bytes() == C
        invariant Count(C, a, 8 * i) == 0
      {
        var b := st.GetLong(i);
        NextChunk(C, Word(i, LONG_BYTES), b, a, 8 * i, 8 * (i + 8), e, LONG_BITS);
        if b != 0 {
          return true, r + Ntz(b, LONG_BITS), i;
        }
        r := r + 64;
        i := i + 8;
      }
      return false, r, i;
    }

    /** The 32-bit loop of `next1`, as Next1Longs. */
    method Next1Ints(i0: nat, bend: nat, p0: int, ghost a: nat, ghost e: nat)
      returns (found: bool, r: int, i: nat)
      requires Valid() && i0 <= bend <= st.len && off + p0 == 8 * i0
      requires a <= 8 * i0 && 8 * bend <= e && Count(Bytes(), a, 8 * i0) == 0
      ensures found ==> off + r == BitOps.Next1(Bytes(), a, e)
      ensures !found ==> i0 <= i <= bend < i + 4 && off + r == 8 * i && Count(Bytes(), a, 8 * i) == 0
    {
      ghost var C := Bytes();
      i, r := i0, p0;
      while i + 4 <= bend
        invariant i0 <= i <= bend && off + r == 8 * i && Bytes() == C
        invariant Count(C, a, 8 * i) == 0
      {
        var b := st.GetInt(i);
        NextChunk(C, Word(i, INT_BYTES), b, a, 8 * i, 8 * (i + 4), e, INT_BITS);
        if b != 0 {
          return true, r + Ntz(b, INT_BITS), i;
        }
        r := r + 32;
        i := i + 4;
      }
      return false, r, i;
    }

    /** The byte loop of `next1`, as Next1Longs; it stops at bend. */
    method Next1Bytes(i0: nat, bend: nat, p0: int, ghost a: nat, ghost e: nat)
      returns (found: bool, r: int, i: nat)
      requires Valid() && i0 <= bend <= st.len && off + p0 == 8 * i0
      requires a <= 8 * i0 && 8 * bend <= e && Count(Bytes(), a, 8 * i0) == 0
      ensures found ==> off + r == BitOps.Next1(Bytes(), a, e)
      ensures !found ==> i == bend && off + r == 8 * i && Count(Bytes(), a, 8 * i) == 0
    {
      ghost var C := Bytes();
      i, r := i0, p0;
      while i < bend
        invariant i0 <= i <= bend && off + r == 8 * i && Bytes() == C
        invariant Count(C, a, 8 * i) == 0
      {
        var b := st.Get(i);
        assert b == C[i];
        NextChunk(C, Byte(i), b, a, 8 * i, 8 * (i + 1), e, INT_BITS);
        if b != 0 {
          return true, r + Ntz(b, INT_BITS), i;
        }
        r := r + 8;
        i := i + 1;
      }
      return false, r, i;
    }

    /** `next1(init)`. */
    method Next1From(init: int) returns (r: int)
      requires Valid() && (init < len ==> 0 <= init)
      ensures len <= init ==> r == len
      ensures init < len ==> off + r == BitOps.Next1(Bytes(), off + init, off + len)
    {
      r := Next1(init, Size());
    }

    /**
     * `next1n(init, end, n)`: the position of the n-th set bit from `init`,
     * the first one counting as 1; `init` when n <= 0 and `end` when fewer
     * than n bits of [init, end) are set.
     */
    method Next1n(init: int, end: int, n: int) returns (r: int)
      requires Valid() && (0 < n && init < end ==> 0 <= init && end <= len)
      ensures n <= 0 ==> r == init
      ensures 0 < n && end <= init ==> r == end
      ensures 0 < n && init < end ==> off + r == NthOne(Bytes(), off + init, off + end, n)
    {
      if n <= 0 {
        return init;
      }
      if end <= init {
        return end;
      }
      r := Next1nScan(init, end, n, off + init, off + end);
    }

    /** The scan of `next1n` over a non-empty range [init, end), that is, store positions [a, e). */
    method Next1nScan(init: nat, end: nat, n: int, ghost a: nat, ghost e: nat) returns (r: int)
      requires Valid() && init < end <= len && 0 < n && a == off + init && e == off + end
      ensures off + r == NthOne(Bytes(), a, e, n)
    {
      var binit, sinit := Block8(init), Shift8(init);
      var bend, send := Block8(end), Shift8(end);
      if binit == bend {
        r := Next1nTail(bend, send, sinit, init, n, end, a, a, e, n);
        return;
      }
      var i, p, k, found := binit, init, n, false;
      ghost var q := a;
      if sinit > 0 {
        found, p, k := Next1nHead(i, sinit, p, n, a, e);
        if found {
          return p;
        }
        i, q := i + 1, 8 * (i + 1);
      }
      found, p, k := Next1nWhole(i, bend, p, k, a, q, e, n);
      if found {
        return p;
      }
      r := Next1nTail(bend, send, 0, p, k, end, a, 8 * bend, e, n);
    }

    /** The partial first byte of `next1n`, as Next1Head, with n set bits to find. */
    method Next1nHead(i: nat, s: nat, p: int, n: int, ghost a: nat, ghost e: nat) returns (found: bool, r: int, k: int)
      requires Valid() && 0 < s < 8 && i < st.len && off + p == a && a == 8 * i + s && 8 * (i + 1) <= e && 1 <= n
      ensures found ==> off + r == NthOne(Bytes(), a, e, n)
      ensures !found ==> off + r == 8 * (i + 1) && 1 <= k && Count(Bytes(), a, 8 * (i + 1)) == n - k
    {
      ghost var C := Bytes();
      var b := Shr(st.Get(i), s);
      var c := PopCount(b);
      NthChunk(C, First(i, s), b, a, a, 8 * (i + 1), e, INT_BITS, n, n);
      if n <= c {
        r := Next1n32(p, b, n);
        assert Bytes() == C;
        return true, r, n;
      }
      return false, p + 8 - s, n - c;
    }

    /**
     * The whole bytes [i0, bend) of `next1n`, from view position p0, in a
     * scan of [a, e) for its n-th set bit that has passed n - k0 set bits
     * before byte i0: the answer of the whole scan when they hold the one
     * sought, else the view position of their end and how many are left.
     */
    method Next1nWhole(i0: nat, bend: nat, p0: int, k0: int, ghost a: nat, ghost q: nat, ghost e: nat, ghost n: int)
      returns (found: bool, r: int, k: int)
      requires Valid() && i0 <= bend <= st.len && off + p0 == q && q == 8 * i0 && 1 <= k0
      requires a <= q && 8 * bend <= e && Count(Bytes(), a, q) == n - k0
      ensures found ==> off + r == NthOne(Bytes(), a, e, n)
      ensures !found ==> off + r == 8 * bend && 1 <= k && Count(Bytes(), a, 8 * bend) == n - k
    {
      var i: nat;
      found, r, i, k := Next1nLongs(i0, bend, p0, k0, a, e, n);
      if found {
        return;
      }
      found, r, i, k := Next1nInts(i, bend, r, k, a, e, n);
      if found {
        return;
      }
      found, r, i, k := Next1nBytes(i, bend, r, k, a, e, n);
    }

    /**
     * The partial last byte of `next1n`, read from bit s at store position m
     * as in Next1Tail, of a scan of [a, e) for its n-th set bit that has
     * passed n - k set bits before it.
     */
    method Next1nTail(bend: nat, send: nat, s: nat, p: int, k: int, end: int,
                      ghost a: nat, ghost m: nat, ghost e: nat, ghost n: int)
      returns (r: int)
      requires Valid() && s <= send < 8 && (send > 0 ==> bend < st.len) && 1 <= k
      requires off + p == m && m == 8 * bend + s && off + end == e && e == 8 * bend + send
      requires a <= m && Count(Bytes(), a, m) == n - k
      ensures off + r == NthOne(Bytes(), a, e, n)
    {
      ghost var C := Bytes();
      if send > 0 {
        var b := KeepLow(st.Get(bend), send);
        if s > 0 {
          b := Shr(b, s);
        }
        var c := PopCount(b);
        NthChunk(C, Last(bend, send, s), b, a, m, e, e, INT_BITS, n, k);
        if k <= c {
          r := Next1n32(p, b, k);
          assert Bytes() == C;
          return;
        }
      }
      assert Count(C, a, e) < n;
      NthOneIsNth(C, a, e, n);
      return end;
    }

    /**
     * The 64-bit loop of `next1n`, from byte i0 (view position p0) of a
     * scan of [a, e) for its n-th set bit that has passed n - k0 set bits
     * before byte i0: the answer of the whole scan when a word holds the
     * one sought, else where the loop stops and how many are still to find.
     */
    method Next1nLongs(i0: nat, bend: nat, p0: int, k0: int, ghost a: nat, ghost e: nat, ghost n: int)
      returns (found: bool, r: int, i: nat, k: int)
      requires Valid() && i0 <= bend <= st.len && off + p0 == 8 * i0 && 1 <= k0
      requires a <= 8 * i0 && 8 * bend <= e && Count(Bytes(), a, 8 * i0) == n - k0
      ensures found ==> off + r == NthOne(Bytes(), a, e, n)
      ensures !found ==> i0 <= i <= bend < i + 8 && off + r == 8 * i && 1 <= k && Count(Bytes(), a, 8 * i) == n - k
    {
      ghost var C := Bytes();
      i, r, k := i0, p0, k0;
      while i + 8 <= bend
        invariant i0 <= i <= bend && off + r == 8 * i && Bytes() == C
        invariant 1 <= k && Count(C, a, 8 * i) == n - k
      {
        var b := st.GetLong(i);
        var c := PopCount(b);
        NthChunk(C, Word(i, LONG_BYTES), b, a, 8 * i, 8 * (i + 8), e, LONG_BITS, n, k);
        if k <= c {
          r := Next1n64(r, b, k);
          assert Bytes() == C;
          return true, r, i, k;
        }
        r, k := r + 64, k - c;
        i := i + 8;
      }
      return false, r, i, k;
    }

    /** The 32-bit loop of `next1n`, as Next1nLongs. */
    method Next1nInts(i0: nat, bend: nat, p0: int, k0: int, ghost a: nat, ghost e: nat, ghost n: int)
      returns (found: bool, r: int, i: nat, k: int)
      requires Valid() && i0 <= bend <= st.len && off + p0 == 8 * i0 && 1 <= k0
      requires a <= 8 * i0 && 8 * bend <= e && Count(Bytes(), a, 8 * i0) == n - k0
      ensures found ==> off + r == NthOne(Bytes(), a, e, n)
      ensures !found ==> i0 <= i <= bend < i + 4 && off + r == 8 * i && 1 <= k && Count(Bytes(), a, 8 * i) == n - k
    {
      ghost var C := Bytes();
      i, r, k := i0, p0, k0;
      while i + 4 <= bend
        invariant i0 <= i <= bend && off + r == 8 * i && Bytes() == C
        invariant 1 <= k && Count(C, a, 8 * i) == n - k
      {
        var b := st.GetInt(i);
        var c := PopCount(b);
        NthChunk(C, Word(i, INT_BYTES), b, a, 8 * i, 8 * (i + 4), e, INT_BITS, n, k);
        if k <= c {
          r := Next1n32(r, b, k);
          assert Bytes() == C;
          return true, r, i, k;
        }
        r, k := r + 32, k - c;
        i := i + 4;
      }
      return false, r, i, k;
    }

    /** The byte loop of `next1n`, as Next1nLongs; it stops at bend. */
    method Next1nBytes(i0: nat, bend: nat, p0: int, k0: int, ghost a: nat, ghost e: nat, ghost n: int)
      returns (found: bool, r: int, i: nat, k: int)
      requires Valid() && i0 <= bend <= st.len && off + p0 == 8 * i0 && 1 <= k0
      requires a <= 8 * i0 && 8 * bend <= e && Count(Bytes(), a, 8 * i0) == n - k0
      ensures found ==> off + r == NthOne(Bytes(), a, e, n)
      ensures !found ==> i == bend && off + r == 8 * i && 1 <= k && Count(Bytes(), a, 8 * i) == n - k
    {
      ghost var C := Bytes();
      i, r, k := i0, p0, k0;
      ghost var q := 8 * i;
      while i < bend
        invariant i0 <= i <= bend && q == 8 * i && off + r == q && Bytes() == C
        invariant 1 <= k && Count(C, a, q) == n - k
      {
        found, r, k := Next1nByte(i, r, k, a, q, e, n);
        assert Bytes() == C;
        if found {
          return;
        }
        i, q := i + 1, q + 8;
      }
      return false, r, i, k;
    }

    /** One step of Next1nBytes: byte i, at store position q, with k set bits still to pass. */
    method Next1nByte(i: nat, p: int, k0: int, ghost a: nat, ghost q: nat, ghost e: nat, ghost n: int)
      returns (found: bool, r: int, k: int)
      requires Valid() && i < st.len && off + p == q && q == 8 * i && 1 <= k0
      requires a <= q && q + 8 <= e && Count(Bytes(), a, q) == n - k0
      ensures found ==> off + r == NthOne(Bytes(), a, e, n)
      ensures !found ==> off + r == q + 8 && 1 <= k && Count(Bytes(), a, q + 8) == n - k
    {
      ghost var C := Bytes();
      var b := st.Get(i);
      var c := PopCount(b);
      NthChunk(C, Byte(i), b, a, q, q + 8, e, INT_BITS, n, k0);
      if k0 <= c {
        r := Next1n32(p, b, k0);
        assert Bytes() == C;
        return true, r, k0;
      }
      return false, p + 8, k0 - c;
    }

    /** `next1n(init, n)`. */
    method Next1nFrom(init: int, n: int) returns (r: int)
      requires Valid() && (0 < n && init < len ==> 0 <= init)
      ensures n <= 0 ==> r == init
      ensures 0 < n && len <= init ==> r == len
      ensures 0 < n && init < len ==> off + r == NthOne(Bytes(), off + init, off + len, n)
    {
      r := Next1n(init, Size(), n);
    }

    //------------------------------------------------------------------
    // Range clearing and sub-views

    /** `clear(init, end)`: clears exactly the bits [init, end) through the byte view's bit-range clear. */
    method Clear(init: nat, end: nat)
      requires Valid() && init <= end <= len
      modifies st.st
      ensures forall q :: 0 <= q < 8 * st.len ==>
        StoreBit(Bytes(), q) == if off + init <= q < off + end then 0 else old(StoreBit(Bytes(), q))
      ensures BA.OutsideUnchanged(old(st.st[..]), st.st[..], st.off, st.len)
    {
      var binit, sinit := Block8(init), Shift8(init);
      var bend, send := Block8(end), Shift8(end);
      st.ClearBits(binit, sinit, bend, send);
    }

    /** `clear()`. */
    method ClearAll()
      requires Valid()
      modifies st.st
      ensures forall q :: 0 <= q < 8 * st.len ==>
        StoreBit(Bytes(), q) == if off <= q < off + len then 0 else old(StoreBit(Bytes(), q))
      ensures BA.OutsideUnchanged(old(st.st[..]), st.st[..], st.off, st.len)
    {
      Clear(0, Size());
    }

    /**
     * `subarray(init, end)` in the code: the new view starts at `off + init`
     * but is given `off + end` as its length.
     */
    method Subarray(init: nat, end: nat) returns (r: OnByteArray)
      ensures fresh(r) && r.st == st && r.off == off + init && r.len == off + end
    {
      r := new OnByteArray(st, off + init, off + end);
    }

    /** A view of the bits [init, end) of this view, which is what `subarray(init, end)` is for. */
    method SubarrayOfRange(init: nat, end: nat) returns (r: OnByteArray)
      requires Valid() && init <= end <= len
      ensures fresh(r) && r.st == st && r.Valid()
      ensures r.off == off + init && r.len == end - init
      ensures forall j :: 0 <= j < r.len ==> r.Get(j) == Get(init + j)
    {
      r := new OnByteArray(st, off + init, end - init);
    }

    /**
     * `subarrayClamped(init, end)` in the code: the clamped bounds are
     * computed and dropped, and the raw bounds are passed on.
     */
    method SubarrayClamped(init: nat, end: nat) returns (r: OnByteArray)
      ensures fresh(r) && r.st == st && r.off == off + init && r.len == off + end
    {
      var effinit := B.Clamp(0, init, Size());
      var effend := B.Clamp(effinit, end, Size());
      r := Subarray(init, end);
    }

    /** The view of the clamped bounds, which is what `subarrayClamped(init, end)` is for. */
    method SubarrayClampedOfRange(init: int, end: int) returns (r: OnByteArray)
      requires Valid()
      ensures fresh(r) && r.st == st && r.Valid()
      ensures r.off == off + B.Clamp(0, init, len) && r.off + r.len <= off + len
      ensures r.len == B.Clamp(B.Clamp(0, init, len), end, len) - B.Clamp(0, init, len)
      ensures forall j :: 0 <= j < r.len ==> r.Get(j) == Get(B.Clamp(0, init, len) + j)
      ensures 0 <= init <= end <= len ==> r.off == off + init && r.len == end - init
    {
      var effinit := B.Clamp(0, init, Size());
      var effend := B.Clamp(effinit, end, Size());
      r := SubarrayOfRange(effinit, effend);
    }
  }

  /** The width in bytes of a Java `int` and `long`. */
  const INT_BYTES: nat := 4
  const LONG_BYTES: nat := 8

  //----------------------------------------------------------------------
  // Factories

  /** `on(store)`: every bit of the store. */
  method On(store: BA.UncheckedOnBytes) returns (r: OnByteArray)
    requires store.Valid()
    ensures fresh(r) && r.Valid() && r.st == store && r.off == 0 && r.len == 8 * store.len
  {
    r := new OnByteArray(store, 0, 8 * store.Size());
  }

  /** `on(store, bitinit, bitend)`: the bits [bitinit, bitend), none when bitend < bitinit. */
  method OnRange(store: BA.UncheckedOnBytes, bitinit: nat, bitend: int) returns (r: OnByteArray)
    requires store.Valid() && bitinit + BA.Max(0, bitend - bitinit) <= 8 * store.len
    ensures fresh(r) && r.Valid() && r.st == store && r.off == bitinit
    ensures r.len == BA.Max(0, bitend - bitinit)
  {
    r := new OnByteArray(store, bitinit, BA.Max(0, bitend - bitinit));
  }

  //----------------------------------------------------------------------
  // next1n32 and next1n64

  /**
   * `next1n32(p, b, n)`: drops the lowest set bit of b n - 1 times, then
   * returns p plus the position of the lowest set bit left.
   */
  method Next1n32(p: int, b: nat, n: nat) returns (r: int)
    requires b < Pow2(INT_BITS) && 1 <= n <= PopCount(b)
    ensures r == p + NthSet(b, n)
  {
    r := Next1nWord(p, b, n, INT_BITS);
  }

  /** `next1n64(p, b, n)`: as `next1n32` on a long. */
  method Next1n64(p: int, b: nat, n: nat) returns (r: int)
    requires b < Pow2(LONG_BITS) && 1 <= n <= PopCount(b)
    ensures r == p + NthSet(b, n)
  {
    r := Next1nWord(p, b, n, LONG_BITS);
  }

  /** The loop of `next1n32` and `next1n64` on a w-bit word. */
  method Next1nWord(p: int, b: nat, n: nat, w: nat) returns (r: int)
    requires b < Pow2(w) && 1 <= n <= PopCount(b)
    ensures r == p + NthSet(b, n)
  {
    var bb: nat, nn: nat := b, n;
    var mask: nat := 0;
    while true
      invariant bb < Pow2(w) && 1 <= nn <= PopCount(bb)
      invariant NthSet(bb, nn) == NthSet(b, n)
      decreases nn
    {
      PopCountZero(bb);
      mask := LowestOneBit(bb, w);
      nn := nn - 1;
      if nn == 0 {
        break;
      }
      DropLowest(bb, w, nn + 1);
      bb := Xor(bb, mask);
    }
    PopCountZero(bb);
    NthSetFirst(bb, w);
    NtzPow2(Ntz(bb, w), w);
    r := p + Ntz(mask, w);
  }

  //----------------------------------------------------------------------
  // Lemmas

  /** `(x >>> s) & 1` is bit s of x. */
  lemma {:induction false} GetFromByte(x: nat, s: nat)
    ensures And(Shr(x, s), 1) == Bit(x, s)
  {
    BitShr(x, s, 0);
    AndLowMask(Shr(x, s), 1);
  }

  /** `v & 1` is the low bit of v. */
  lemma {:induction false} AndOne(v: nat)
    ensures And(v, 1) == v % 2 <= 1
  {
    AndLowMask(v, 1);
  }

  /** `v << s` with v a single bit and s < 8: bit s is v, and the result is a byte. */
  lemma {:induction false} ShlBit(v: nat, s: nat, t: nat)
    requires v <= 1 && s < 8 && t < 8
    ensures Bit(Shl(v, s, INT_BITS), t) == if t == s then v else 0
    ensures Shl(v, s, INT_BITS) < 0x100
  {
    BitShl(v, s, INT_BITS, t);
    if s <= t {
      BitOfBit(v, t - s);
    }
    Pow2Monotone(s + 1, 8);
    if v == 1 {
      ShlOne(s, INT_BITS);
    } else {
      ShlZero(s, INT_BITS);
    }
  }

  lemma {:induction false} ShlZero(s: nat, w: nat)
    ensures Shl(0, s, w) == 0
  {
    var m := Pow2(w);
    assert m >= 1;
    assert 0 % m == 0;
  }

  lemma {:induction false} BitOfBit(v: nat, j: nat)
    requires v <= 1
    ensures Bit(v, j) == if j == 0 then v else 0
  {
    if j > 0 {
      assert v / 2 == 0;
      BitZero(j - 1);
    }
  }

  /** The byte `x & ~(1 << s) | (v << s)` of `set(i, v)`: bit s is v, the others are x's. */
  lemma {:induction false} SetInByte(x: uint8, s: nat, v: nat)
    requires s < 8 && v <= 1
    ensures var y := Or(And(x, Not(Shl(1, s, INT_BITS), INT_BITS)), Shl(v, s, INT_BITS));
      y < 0x100 && forall t :: 0 <= t < 8 ==> Bit(y, t) == if t == s then v else Bit(x, t)
  {
    var m := Not(Shl(1, s, INT_BITS), INT_BITS);
    var a, b := And(x, m), Shl(v, s, INT_BITS);
    forall t | 0 <= t < 8
      ensures Bit(Or(a, b), t) == if t == s then v else Bit(x, t)
    {
      SetBitOfByte(x, s, v, t);
    }
    ShlBit(v, s, 0);
    AndBound(x, m);
    assert Pow2(8) == 0x100;
    OrBound(a, b, 8);
  }

  /** Bit t of the byte that `set(i, v)` writes. */
  lemma {:induction false} SetBitOfByte(x: uint8, s: nat, v: nat, t: nat)
    requires s < 8 && v <= 1 && t < 8
    ensures Bit(Or(And(x, Not(Shl(1, s, INT_BITS), INT_BITS)), Shl(v, s, INT_BITS)), t) == if t == s then v else Bit(x, t)
  {
    var n := Shl(1, s, INT_BITS);
    var m := Not(n, INT_BITS);
    var b := Shl(v, s, INT_BITS);
    ShlBit(1, s, t);
    ShlBit(v, s, t);
    BitNot(n, INT_BITS, t);
    BitAnd(x, m, t);
    BitOr(And(x, m), b, t);
  }

  /** The byte `x | 1 << s` of `set(i)`. */
  lemma {:induction false} SetOneInByte(x: uint8, s: nat)
    requires s < 8
    ensures Or(x, Shl(1, s, INT_BITS)) < 0x100
    ensures forall t :: 0 <= t < 8 ==> Bit(Or(x, Shl(1, s, INT_BITS)), t) == if t == s then 1 else Bit(x, t)
  {
    forall t | 0 <= t < 8
      ensures Bit(Or(x, Shl(1, s, INT_BITS)), t) == if t == s then 1 else Bit(x, t)
    {
      ShlBit(1, s, t);
      BitOr(x, Shl(1, s, INT_BITS), t);
    }
    ShlBit(1, s, 0);
    OrBound(x, Shl(1, s, INT_BITS), 8);
  }

  /** The byte `x & ~(1 << s)` of `clear(i)`. */
  lemma {:induction false} ClearInByte(x: uint8, s: nat)
    requires s < 8
    ensures And(x, Not(Shl(1, s, INT_BITS), INT_BITS)) < 0x100
    ensures forall t :: 0 <= t < 8 ==>
      Bit(And(x, Not(Shl(1, s, INT_BITS), INT_BITS)), t) == if t == s then 0 else Bit(x, t)
  {
    var m := Not(Shl(1, s, INT_BITS), INT_BITS);
    forall t | 0 <= t < 8
      ensures Bit(And(x, m), t) == if t == s then 0 else Bit(x, t)
    {
      ShlBit(1, s, t);
      BitNot(Shl(1, s, INT_BITS), INT_BITS, t);
      BitAnd(x, m, t);
    }
    AndBound(x, m);
  }

  /** Writing byte y at b of the view, where y differs from the old byte only in bit s. */
  lemma {:induction false} WriteByte(C: seq<uint8>, b: nat, y: uint8, s: nat, v: nat)
    requires b < |C| && s < 8
    requires forall t :: 0 <= t < 8 ==> Bit(y, t) == if t == s then v else Bit(C[b], t)
    ensures forall q :: 0 <= q < 8 * |C| ==>
      StoreBit(C[b := y], q) == if q == 8 * b + s then v else StoreBit(C, q)
  {
    forall q | 0 <= q < 8 * |C|
      ensures StoreBit(C[b := y], q) == if q == 8 * b + s then v else StoreBit(C, q)
    {
      if q / 8 == b {
        assert q % 8 == s <==> q == 8 * b + s;
      }
    }
  }

  /** A write at byte b of the view [boff, boff + blen) of A: the view's bytes change at b only. */
  lemma {:induction false} ViewUpdate(A: seq<uint8>, boff: nat, blen: nat, b: nat, y: uint8)
    requires boff + blen <= |A| && b < blen
    ensures A[boff + b := y][boff..boff + blen] == A[boff..boff + blen][b := y]
    ensures BA.OutsideUnchanged(A, A[boff + b := y], boff, blen)
  {
    var L, R := A[boff + b := y][boff..boff + blen], A[boff..boff + blen][b := y];
    forall k | 0 <= k < blen
      ensures L[k] == R[k]
    {
    }
    assert L == R;
  }

  /** A byte of the store matches its eight bits. */
  lemma {:induction false} ByteMatches(C: seq<uint8>, i: nat)
    requires i < |C|
    ensures Matches(C[i], C, 8 * i, 8)
  {
    forall j | 0 <= j < 8
      ensures Bit(C[i], j) == StoreBit(C, 8 * i + j)
    {
      assert (8 * i + j) / 8 == i && (8 * i + j) % 8 == j;
    }
  }

  /** `x & ~(-1 << s)`: the s low bits of x. */
  function KeepLow(x: nat, s: nat): (r: nat)
    requires s < INT_BITS
    ensures r == x % Pow2(s)
  {
    KeepLowMask(x, s, INT_BITS);
    And(x, Not(Shl(Pow2(INT_BITS) - 1, s, INT_BITS), INT_BITS))
  }

  /** `x & ~(-1 << s)` on a w-bit word keeps the bits of x below s. */
  lemma {:induction false} KeepLowMask(x: nat, s: nat, w: nat)
    requires s < w
    ensures And(x, Not(Shl(Pow2(w) - 1, s, w), w)) == x % Pow2(s)
  {
    JavaLowMask(s, w);
    AndLowMask(x, s);
  }

  /**
   * The pieces the scans read the store in: the bits of byte i from s on
   * (`get8u(i) >>> s`), the k bytes from i (`get32`, `get64`, `get8u`),
   * and the bits [s, send) of byte b (`get8u(b) & ~(-1 << send)`, shifted
   * right by s).
   */
  datatype Chunk = First(i: nat, s: nat) | Word(i: nat, k: nat) | Byte(i: nat) | Last(i: nat, send: nat, s: nat)
  {
    ghost predicate Fits(C: seq<uint8>)
    {
      match this
      case First(i, s) => i < |C| && s < 8
      case Word(i, k) => i + k <= |C|
      case Byte(i) => i < |C|
      case Last(i, send, s) => i < |C| && s <= send < 8
    }

    /** The value read. */
    ghost function Value(C: seq<uint8>): nat
      requires Fits(C)
    {
      match this
      case First(i, s) => Shr(C[i], s)
      case Word(i, k) => LE(C[i..i + k])
      case Byte(i) => C[i]
      case Last(i, send, s) => Shr(C[i] % Pow2(send), s)
    }

    /** The store bit its bit 0 comes from. */
    ghost function Pos(): nat
    {
      match this
      case First(i, s) => 8 * i + s
      case Word(i, _) => 8 * i
      case Byte(i) => 8 * i
      case Last(i, _, s) => 8 * i + s
    }

    /** The number of store bits read (0 for a chunk that does not fit any store). */
    ghost function Width(): nat
    {
      match this
      case First(_, s) => if s < 8 then 8 - s else 0
      case Word(_, k) => 8 * k
      case Byte(_) => 8
      case Last(_, send, s) => if s <= send then send - s else 0
    }
  }

  /** A chunk's value holds, low bit first, exactly the store bits it reads. */
  lemma {:induction false} ChunkMatches(C: seq<uint8>, c: Chunk)
    requires c.Fits(C)
    ensures Matches(c.Value(C), C, c.Pos(), c.Width())
  {
    match c
    case First(i, s) =>
      FirstMatches(C, i, s);
    case Word(i, k) =>
      WordChunkMatches(C, i, k);
    case Byte(i) =>
      ByteChunkMatches(C, i);
    case Last(i, send, s) =>
      LastMatches(C, i, send, s);
  }

  /** `get8u(i) >>> s` holds the store bits [8i + s, 8i + 8). */
  lemma {:induction false} FirstMatches(C: seq<uint8>, i: nat, s: nat)
    requires First(i, s).Fits(C)
    ensures var c := First(i, s); Matches(c.Value(C), C, c.Pos(), c.Width())
  {
    ByteMatches(C, i);
    MatchesShr(C[i], C, 8 * i, 8, s);
  }

  /** `get32(i)` and `get64(i)` hold the store bits [8i, 8i + 8k). */
  lemma {:induction false} WordChunkMatches(C: seq<uint8>, i: nat, k: nat)
    requires Word(i, k).Fits(C)
    ensures var c := Word(i, k); Matches(c.Value(C), C, c.Pos(), c.Width())
  {
    WordMatches(C, i, k, k);
  }

  /** `get8u(i)` holds the store bits [8i, 8i + 8). */
  lemma {:induction false} ByteChunkMatches(C: seq<uint8>, i: nat)
    requires Byte(i).Fits(C)
    ensures var c := Byte(i); Matches(c.Value(C), C, c.Pos(), c.Width())
  {
    ByteMatches(C, i);
  }

  /** `(get8u(i) & ~(-1 << send)) >>> s` holds the store bits [8i + s, 8i + send). */
  lemma {:induction false} LastMatches(C: seq<uint8>, i: nat, send: nat, s: nat)
    requires Last(i, send, s).Fits(C)
    ensures var c := Last(i, send, s); Matches(c.Value(C), C, c.Pos(), c.Width())
  {
    ByteMatches(C, i);
    MatchesLow(C[i], C, 8 * i, 8, send);
    MatchesShr(C[i] % Pow2(send), C, 8 * i, send, s);
  }

  /** Counting one more chunk, which reads the store bits [p, q). */
  lemma {:induction false} CountChunk(C: seq<uint8>, c: Chunk, u: nat, a: nat, p: nat, q: nat, n: nat)
    requires c.Fits(C) && u == c.Value(C) && p == c.Pos() && q == p + c.Width()
    requires a <= p && n == Count(C, a, p)
    ensures n + PopCount(u) == Count(C, a, q)
  {
    ChunkCount(C, c, u, p, q);
    CountSplit(C, a, p, q);
  }

  /** A chunk's value has as many set bits as the store bits it reads. */
  lemma {:induction false} ChunkCount(C: seq<uint8>, c: Chunk, u: nat, p: nat, q: nat)
    requires c.Fits(C) && u == c.Value(C) && p == c.Pos() && q == p + c.Width()
    ensures PopCount(u) == Count(C, p, q)
  {
    ChunkMatches(C, c);
    WordCount(u, C, p, q - p);
  }

  /**
   * Searching one more chunk, which reads the store bits [p, q) into a
   * w-bit word, nothing being set in [a, p).
   */
  lemma {:induction false} NextChunk(C: seq<uint8>, c: Chunk, u: nat, a: nat, p: nat, q: nat, e: nat, w: nat)
    requires c.Fits(C) && u == c.Value(C) && p == c.Pos() && q == p + c.Width()
    requires a <= p && q <= e && q - p <= w
    requires Count(C, a, p) == 0
    ensures u == 0 <==> Count(C, a, q) == 0
    ensures u != 0 ==> p + Ntz(u, w) == BitOps.Next1(C, a, e)
  {
    ChunkNext(C, c, u, p, q, w);
    CountSplit(C, a, p, q);
    Next1Skip(C, a, p, e);
    Next1Skip(C, p, q, e);
  }

  /** A chunk's value is zero exactly when the store bits it reads are, and its lowest set bit is their first. */
  lemma {:induction false} ChunkNext(C: seq<uint8>, c: Chunk, u: nat, p: nat, q: nat, w: nat)
    requires c.Fits(C) && u == c.Value(C) && p == c.Pos() && q == p + c.Width() && q - p <= w
    ensures u == 0 <==> Count(C, p, q) == 0
    ensures u != 0 ==> p + Ntz(u, w) == BitOps.Next1(C, p, q)
  {
    ChunkMatches(C, c);
    WordNext(u, C, p, q - p, w);
  }

  /**
   * Looking for the n-th set bit in one more chunk, which reads the store
   * bits [p, q) into a w-bit word, k of them being still to find.
   */
  lemma {:induction false} NthChunk(C: seq<uint8>, c: Chunk, u: nat, a: nat, p: nat, q: nat, e: nat, w: nat, n: int, k: int)
    requires c.Fits(C) && u == c.Value(C) && p == c.Pos() && q == p + c.Width()
    requires a <= p && q <= e && q - p <= w
    requires 1 <= k && Count(C, a, p) == n - k
    ensures u < Pow2(w)
    ensures k <= PopCount(u) ==> p + NthSet(u, k) == NthOne(C, a, e, n)
    ensures PopCount(u) < k ==> Count(C, a, q) == n - (k - PopCount(u))
  {
    ChunkBound(C, c, u, p, q, w);
    ChunkCount(C, c, u, p, q);
    if k <= PopCount(u) {
      ChunkNth(C, c, u, p, q, k);
      NthSkipTo(C, a, p, q, e, n, k);
    } else {
      CountSplit(C, a, p, q);
    }
  }

  /**
   * The n-th set bit of [a, e), n - k of them lying before p, is the k-th
   * of [p, q) when that stretch holds k.
   */
  lemma {:induction false} NthSkipTo(C: seq<uint8>, a: nat, p: nat, q: nat, e: nat, n: int, k: int)
    requires a <= p <= q <= e && 1 <= k <= Count(C, p, q) && Count(C, a, p) == n - k
    ensures NthOne(C, a, e, n) == NthOne(C, p, q, k)
  {
    NthOneSkip(C, a, p, e, n);
    assert n - Count(C, a, p) == k;
    NthOneSkip(C, p, q, e, k);
  }

  /** A chunk's value has no more bits than the chunk is wide. */
  lemma {:induction false} ChunkBound(C: seq<uint8>, c: Chunk, u: nat, p: nat, q: nat, w: nat)
    requires c.Fits(C) && u == c.Value(C) && p == c.Pos() && q == p + c.Width() && q - p <= w
    ensures u < Pow2(w)
  {
    ChunkMatches(C, c);
    Pow2Monotone(q - p, w);
  }

  /** The k-th set bit of a chunk's value is the k-th set store bit it reads. */
  lemma {:induction false} ChunkNth(C: seq<uint8>, c: Chunk, u: nat, p: nat, q: nat, k: nat)
    requires c.Fits(C) && u == c.Value(C) && p == c.Pos() && q == p + c.Width()
    requires 1 <= k <= PopCount(u)
    ensures p + NthSet(u, k) == NthOne(C, p, q, k)
  {
    ChunkMatches(C, c);
    WordNth(u, C, p, q - p, k);
  }

  //----------------------------------------------------------------------
  // Properties of the view

  /** After `clear()`, `popcnt()` is 0. */
  lemma {:induction false} ClearedCountsZero(C: seq<uint8>, a: nat, b: nat)
    requires b <= 8 * |C|
    requires forall q :: 0 <= q < 8 * |C| && a <= q < b ==> StoreBit(C, q) == 0
    ensures Count(C, a, b) == 0
  {
    CountZero(C, a, b);
  }

  /**
   * In the code, `subarray(4, 8)` of `on(store)` over a one-byte store has
   * 8 bits instead of 4 and reaches past the store, and so does
   * `subarrayClamped(0, 16)`, which keeps its unclamped 16.
   */
  method SubarrayPastEnd() returns (v: OnByteArray, r: OnByteArray, c: OnByteArray)
    ensures v.Valid() && v.len == 8
    ensures r.off == 4 && r.len == 8 && !r.Valid()
    ensures c.len == 16 && !c.Valid()
  {
    var a := new uint8[1];
    var bytes := new BA.UncheckedOnBytes(a, 0, 1);
    v := On(bytes);
    r := v.Subarray(4, 8);
    c := v.SubarrayClamped(0, 16);
  }
}
