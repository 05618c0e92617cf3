// Discrete math on Java `int` and `long` values: ceiling division and the
// log2-like helpers built on the count of leading zero bits.
// The bit helpers take the unsigned reading of their argument's bit pattern.
module DMath {
  import opened JavaInt

  //----------------------------------------------------------------------
  // Specification functions for the JVM bit intrinsics

  /** Number of binary digits of `u` (0 for 0). */
  function BitLen(u: nat): (k: nat)
    ensures u < Pow2(k)
    ensures u > 0 ==> k >= 1 && Pow2(k - 1) <= u
  {
    if u == 0 then 0 else 1 + BitLen(u / 2)
  }

  /** `Integer.numberOfLeadingZeros`. */
  function Nlz32(u: uint32): (z: int)
    ensures 0 <= z <= 32
  {
    BitLenOfWord(u, 32);
    32 - BitLen(u)
  }

  /** `Long.numberOfLeadingZeros`. */
  function Nlz64(u: uint64): (z: int)
    ensures 0 <= z <= 64
  {
    BitLenOfWord(u, 64);
    64 - BitLen(u)
  }

  /** A power of two, or not: the unsigned value has exactly one bit set. */
  predicate IsPowerOfTwo(u: nat)
  {
    u > 0 && u == Pow2(BitLen(u) - 1)
  }

  //----------------------------------------------------------------------
  // Integer division

  /** `cdiv(n, d) = (n + d - 1) / d` with Java's wrap-around and truncation. */
  function Cdiv(n: int32, d: int32): (r: int32)
    requires d != 0
    ensures 0 <= n && 0 < d && n + d - 1 <= INT_MAX ==> 0 <= r && d * (r - 1) < n <= d * r
  {
    CeilDivision(n, d);
    Quot(Wrap32(n + d - 1), d)
  }

  /** `ceil(n, d) = d * cdiv(n, d)`: the smallest multiple of d that is at least n. */
  function Ceil(n: int32, d: int32): (r: int32)
    requires d != 0
    ensures 0 <= n && 0 < d && n + d - 1 <= INT_MAX ==> r % d == 0 && n <= r < n + d
  {
    var c := Cdiv(n, d);
    MultipleBounds(n, d, c);
    Wrap32(d * c)
  }

  lemma {:induction false} CeilDivision(n: int, d: int)
    ensures 0 <= n && 0 < d ==> d * ((n + d - 1) / d - 1) < n <= d * ((n + d - 1) / d)
  {
    if 0 <= n && 0 < d {
      var q := (n + d - 1) / d;
      var m := (n + d - 1) % d;
      assert n + d - 1 == d * q + m;
    }
  }

  lemma {:induction false} MultipleBounds(n: int, d: int, c: int)
    ensures 0 <= n && 0 < d && n + d - 1 <= INT_MAX && 0 <= c && d * (c - 1) < n <= d * c ==>
      (d * c) % d == 0 && n <= d * c < n + d && d * c <= INT_MAX
  {
    if 0 <= n && 0 < d && n + d - 1 <= INT_MAX && 0 <= c && d * (c - 1) < n <= d * c {
      assert d * (c - 1) == d * c - d;
      assert (d * c) % d == 0 by {
        assert d * c == c * d;
      }
    }
  }

  //----------------------------------------------------------------------
  // Log2-like operations

  /** `isPow2(int)`: `(n & (n - 1)) == 0`, so zero counts as well. */
  function IsPow2Int(u: uint32): (b: bool)
    ensures b <==> (u == 0 || IsPowerOfTwo(u))
  {
    AndPredecessor(u);
    And(u, Dec32(u)) == 0
  }

  /** `isPow2(long)`. */
  function IsPow2Long(u: uint64): (b: bool)
    ensures b <==> (u == 0 || IsPowerOfTwo(u))
  {
    AndPredecessor(u);
    And(u, Dec64(u)) == 0
  }

  /** `bitSize(int)`: the number of bits needed to write down n. */
  function BitSizeInt(u: uint32): (r: int)
    ensures 0 <= r <= 32 && u < Pow2(r)
    ensures u != 0 ==> Pow2(r - 1) <= u
  {
    32 - Nlz32(u)
  }

  /** `bitSize(long)`. */
  function BitSizeLong(u: uint64): (r: int)
    ensures 0 <= r <= 64 && u < Pow2(r)
    ensures u != 0 ==> Pow2(r - 1) <= u
  {
    64 - Nlz64(u)
  }

  /** `flog2(int)`: floor(log2(n)), and -1 for 0. */
  function Flog2Int(u: uint32): (r: int)
    ensures u == 0 ==> r == -1
    ensures u != 0 ==> 0 <= r && Pow2(r) <= u < Pow2(r + 1)
  {
    31 - Nlz32(u)
  }

  /** `flog2(long)`. */
  function Flog2Long(u: uint64): (r: int)
    ensures u == 0 ==> r == -1
    ensures u != 0 ==> 0 <= r && Pow2(r) <= u < Pow2(r + 1)
  {
    63 - Nlz64(u)
  }

  /** `clog2(int)`: `(32 - nlz(n - 1)) & 31`, which is ceil(log2(n)) for 1 <= n <= 2^31, and 0 for 0. */
  function Clog2Int(u: uint32): (r: int)
    ensures u == 0 ==> r == 0
    ensures 1 <= u <= 0x8000_0000 ==> 0 <= r && u <= Pow2(r) && (r > 0 ==> Pow2(r - 1) < u)
  {
    Clog2Sound32(u);
    (32 - Nlz32(Dec32(u))) % 32
  }

  /** `clog2(long)`: ceil(log2(n)) for 1 <= n <= 2^63, and 0 for 0. */
  function Clog2Long(u: uint64): (r: int)
    ensures u == 0 ==> r == 0
    ensures 1 <= u <= 0x8000_0000_0000_0000 ==> 0 <= r && u <= Pow2(r) && (r > 0 ==> Pow2(r - 1) < u)
  {
    Clog2Sound64(u);
    (64 - Nlz64(Dec64(u))) % 64
  }

  //----------------------------------------------------------------------
  // Lemmas

  lemma {:induction false} BitLenAtMost(u: nat, w: nat)
    requires u < Pow2(w)
    ensures BitLen(u) <= w
  {
    if u > 0 {
      BitLenAtMost(u / 2, w - 1);
    }
  }

  lemma {:induction false} BitLenOfWord(u: nat, w: nat)
    requires (w == 32 && u < TWO_32) || (w == 64 && u < TWO_64)
    ensures BitLen(u) <= w
  {
    Pow2Widths();
    BitLenAtMost(u, w);
  }

  lemma {:induction false} BitLenExact(u: nat, k: nat)
    requires Pow2(k) <= u < Pow2(k + 1)
    ensures BitLen(u) == k + 1
  {
    if k > 0 {
      BitLenExact(u / 2, k - 1);
    }
  }

  /** The two facts behind clog2: with w = top + 1 bits, u - 1 (mod 2^w) has BitLen c, the ceiling of log2 u. */
  lemma {:induction false} ClogBounds(u: nat, top: nat, w: nat)
    requires w == top + 1 && u < Pow2(w)
    ensures u == 0 ==> BitLen(Pow2(w) - 1) == w
    ensures 1 <= u <= Pow2(top) ==>
      var c := BitLen(u - 1); c <= top && u <= Pow2(c) && (c > 0 ==> Pow2(c - 1) < u)
  {
    if u == 0 {
      BitLenExact(Pow2(w) - 1, top);
    }
    if 1 <= u && u <= Pow2(top) && u > 1 {
      var c := BitLen(u - 1);
      if c > top {
        Pow2Monotone(top, c - 1);
      }
    }
  }

  lemma {:induction false} Clog2Sound32(u: uint32)
    ensures var r := (32 - Nlz32(Dec32(u))) % 32;
      (u == 0 ==> r == 0) &&
      (1 <= u <= 0x8000_0000 ==> 0 <= r && u <= Pow2(r) && (r > 0 ==> Pow2(r - 1) < u))
  {
    var m := Dec32(u);
    if u == 0 {
      Clog2Zero32();
      assert (32 - Nlz32(m)) % 32 == 0;
    } else if u <= 0x8000_0000 {
      Clog2Positive32(u);
      assert (32 - Nlz32(m)) % 32 == BitLen(u - 1);
    }
  }

  lemma {:induction false} Clog2Zero32()
    ensures BitLen(TWO_32 - 1) == 32
  {
    Pow2Widths();
    BitLenExact(TWO_32 - 1, 31);
  }

  lemma {:induction false} Clog2Positive32(u: uint32)
    requires 1 <= u <= 0x8000_0000
    ensures var c := BitLen(u - 1); c <= 31 && u <= Pow2(c) && (c > 0 ==> Pow2(c - 1) < u)
  {
    Pow2Widths();
    ClogBounds(u, 31, 32);
  }

  lemma {:induction false} Clog2Sound64(u: uint64)
    ensures var r := (64 - Nlz64(Dec64(u))) % 64;
      (u == 0 ==> r == 0) &&
      (1 <= u <= 0x8000_0000_0000_0000 ==> 0 <= r && u <= Pow2(r) && (r > 0 ==> Pow2(r - 1) < u))
  {
    var m := Dec64(u);
    if u == 0 {
      Clog2Zero64();
      assert (64 - Nlz64(m)) % 64 == 0;
    } else if u <= 0x8000_0000_0000_0000 {
      Clog2Positive64(u);
      assert (64 - Nlz64(m)) % 64 == BitLen(u - 1);
    }
  }

  lemma {:induction false} Clog2Zero64()
    ensures BitLen(TWO_64 - 1) == 64
  {
    Pow2Widths();
    BitLenExact(TWO_64 - 1, 63);
  }

  lemma {:induction false} Clog2Positive64(u: uint64)
    requires 1 <= u <= 0x8000_0000_0000_0000
    ensures var c := BitLen(u - 1); c <= 63 && u <= Pow2(c) && (c > 0 ==> Pow2(c - 1) < u)
  {
    Pow2Widths();
    ClogBounds(u, 63, 64);
  }

  lemma {:induction false} AndPredecessor(u: nat)
    ensures u == 0 ==> And(u, 0) == 0
    ensures u >= 1 ==> (And(u, u - 1) == 0 <==> IsPowerOfTwo(u))
  {
    if u >= 2 {
      var h := u / 2;
      AndPredecessor(h);
      if u % 2 == 0 {
        assert (u - 1) / 2 == h - 1;
        assert And(u, u - 1) == 2 * And(h, h - 1);
        assert BitLen(u) == 1 + BitLen(h);
      } else {
        assert (u - 1) / 2 == h;
        AndSelf(h);
        assert And(u, u - 1) == 2 * h;
        assert BitLen(u) - 1 >= 1;
        assert Pow2(BitLen(u) - 1) == 2 * Pow2(BitLen(u) - 2);
      }
    }
  }
}
