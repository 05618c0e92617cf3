// Java's bitwise operators on unsigned readings, stated bit by bit, and the
// bits of a byte array read as one little-endian bit string: bit q of the
// string is bit q % 8 of byte q / 8. The scans `Count`, `Next1` and
// `NthOne` over that string are the reference definitions that the word-at-
// a-time loops of the bit views are proved against.
module BitOps {
  import opened JavaInt
  import opened Bits
  import opened Arith

  /** Bit k of u (bit 0 is the least significant). */
  function Bit(u: nat, k: nat): (b: nat)
    ensures b <= 1
  {
    if k == 0 then u % 2 else Bit(u / 2, k - 1)
  }

  /** `a | b`. */
  function Or(a: nat, b: nat): nat
  {
    if a == 0 then b
    else if b == 0 then a
    else 2 * Or(a / 2, b / 2) + (if a % 2 == 1 || b % 2 == 1 then 1 else 0)
  }

  /** `a ^ b`. */
  function Xor(a: nat, b: nat): nat
  {
    if a == 0 then b
    else if b == 0 then a
    else 2 * Xor(a / 2, b / 2) + (if a % 2 != b % 2 then 1 else 0)
  }

  /** `~u` on a w-bit word. */
  function Not(u: nat, w: nat): nat
    requires u < Pow2(w)
  {
    Pow2(w) - 1 - u
  }

  /** `u << s` on a w-bit word: the bits shifted past bit w - 1 are lost. */
  function Shl(u: nat, s: nat, w: nat): (r: nat)
    ensures r < Pow2(w)
  {
    (u * Pow2(s)) % Pow2(w)
  }

  /** `u >>> s`. */
  function Shr(u: nat, s: nat): nat
  {
    if s == 0 then u else Shr(u / 2, s - 1)
  }

  /** `Integer.bitCount` / `Long.bitCount`. */
  function PopCount(u: nat): nat
  {
    if u == 0 then 0 else u % 2 + PopCount(u / 2)
  }

  /** `numberOfTrailingZeros` on a w-bit word: w for zero. */
  function Ntz(u: nat, w: nat): nat
  {
    if w == 0 || u % 2 == 1 then 0 else 1 + Ntz(u / 2, w - 1)
  }

  /** `lowestOneBit` on a w-bit word. */
  function LowestOneBit(u: nat, w: nat): nat
  {
    if u == 0 then 0 else Pow2(Ntz(u, w))
  }

  /** The index of the n-th lowest one bit of u, the lowest being the first. */
  function NthSet(u: nat, n: nat): nat
    requires 1 <= n <= PopCount(u)
    decreases u
  {
    if u % 2 == 1 && n == 1 then 0
    else 1 + NthSet(u / 2, if u % 2 == 1 then n - 1 else n)
  }

  //----------------------------------------------------------------------
  // The bit string of a byte array

  /** Bit q of the bit string of C; zero past its end. */
  function StoreBit(C: seq<uint8>, q: nat): (b: nat)
    ensures b <= 1
  {
    if q < 8 * |C| then Bit(C[q / 8], q % 8) else 0
  }

  /** The number of one bits in [a, b). */
  function Count(C: seq<uint8>, a: nat, b: nat): (n: nat)
    ensures n <= if a <= b then b - a else 0
    decreases b - a
  {
    if b <= a then 0 else StoreBit(C, a) + Count(C, a + 1, b)
  }

  /** The first one bit in [a, b), or b when there is none. */
  function Next1(C: seq<uint8>, a: nat, b: nat): (r: nat)
    ensures a < b ==> a <= r <= b
    ensures b <= a ==> r == b
    ensures r < b ==> StoreBit(C, r) == 1
    ensures forall q :: a <= q < r ==> StoreBit(C, q) == 0
    decreases b - a
  {
    if b <= a then b
    else if StoreBit(C, a) == 1 then a
    else Next1(C, a + 1, b)
  }

  /**
   * The n-th one bit in [a, b), the first counting as 1: a when n <= 0, and
   * b when [a, b) holds fewer than n one bits.
   */
  function NthOne(C: seq<uint8>, a: nat, b: nat, n: int): (r: nat)
    ensures n <= 0 ==> r == a
    ensures 0 < n && a < b ==> a <= r <= b
    ensures 0 < n && b <= a ==> r == b
    decreases b - a
  {
    if n <= 0 then a
    else if b <= a then b
    else if StoreBit(C, a) == 1 then (if n == 1 then a else NthOne(C, a + 1, b, n - 1))
    else NthOne(C, a + 1, b, n)
  }

  /** The w-bit number whose bits, low first, are those of C from p. */
  function Field(C: seq<uint8>, p: nat, w: nat): (r: nat)
    ensures r < Pow2(w)
    decreases w
  {
    if w == 0 then 0 else StoreBit(C, p) + 2 * Field(C, p + 1, w - 1)
  }

  /** The low n bits of u, and nothing above them, are the bits of C from p. */
  ghost predicate Matches(u: nat, C: seq<uint8>, p: nat, n: nat)
  {
    u < Pow2(n) && forall j :: 0 <= j < n ==> Bit(u, j) == StoreBit(C, p + j)
  }

  //----------------------------------------------------------------------
  // Single bits

  lemma {:induction false} BitZero(j: nat)
    ensures Bit(0, j) == 0
  {
    if j > 0 {
      BitZero(j - 1);
    }
  }

  /** Bit j of `x + 2^m * y`, when x fits in m bits, is taken from x below m and from y above. */
  lemma {:induction false} BitSplit(x: nat, y: nat, m: nat, j: nat)
    requires x < Pow2(m)
    ensures Bit(x + Pow2(m) * y, j) == if j < m then Bit(x, j) else Bit(y, j - m)
    decreases m
  {
    if m == 0 {
      assert x + Pow2(m) * y == y;
    } else {
      var z := Pow2(m - 1) * y;
      MulAssoc(2, Pow2(m - 1), y);
      assert x + Pow2(m) * y == x + 2 * z;
      DivAddMultiple(x, 2, z);
      if j > 0 {
        BitSplit(x / 2, y, m - 1, j - 1);
      }
    }
  }

  /** The bits of a number below 2^n are zero from n up. */
  lemma {:induction false} BitAbove(u: nat, n: nat, j: nat)
    requires u < Pow2(n) && n <= j
    ensures Bit(u, j) == 0
  {
    if j > 0 {
      BitAbove(u / 2, if n == 0 then 0 else n - 1, j - 1);
    }
  }

  /** Two numbers below 2^w with the same w low bits are equal. */
  lemma {:induction false} BitsEqual(a: nat, b: nat, w: nat)
    requires a < Pow2(w) && b < Pow2(w)
    requires forall j :: 0 <= j < w ==> Bit(a, j) == Bit(b, j)
    ensures a == b
  {
    if w > 0 {
      forall j | 0 <= j < w - 1
        ensures Bit(a / 2, j) == Bit(b / 2, j)
      {
        assert Bit(a, j + 1) == Bit(a / 2, j);
        assert Bit(b, j + 1) == Bit(b / 2, j);
      }
      BitsEqual(a / 2, b / 2, w - 1);
      assert Bit(a, 0) == Bit(b, 0);
    }
  }

  lemma {:induction false} BitAnd(a: nat, b: nat, j: nat)
    ensures Bit(And(a, b), j) == if Bit(a, j) == 1 && Bit(b, j) == 1 then 1 else 0
  {
    if a == 0 || b == 0 {
      BitZero(j);
    } else if j > 0 {
      var c := if a % 2 == 1 && b % 2 == 1 then 1 else 0;
      assert (2 * And(a / 2, b / 2) + c) / 2 == And(a / 2, b / 2);
      BitAnd(a / 2, b / 2, j - 1);
    }
  }

  lemma {:induction false} BitOr(a: nat, b: nat, j: nat)
    ensures Bit(Or(a, b), j) == if Bit(a, j) == 1 || Bit(b, j) == 1 then 1 else 0
  {
    if a == 0 || b == 0 {
      BitZero(j);
    } else if j > 0 {
      var c := if a % 2 == 1 || b % 2 == 1 then 1 else 0;
      assert (2 * Or(a / 2, b / 2) + c) / 2 == Or(a / 2, b / 2);
      BitOr(a / 2, b / 2, j - 1);
    }
  }

  lemma {:induction false} BitXor(a: nat, b: nat, j: nat)
    ensures Bit(Xor(a, b), j) == if Bit(a, j) != Bit(b, j) then 1 else 0
  {
    if a == 0 || b == 0 {
      BitZero(j);
    } else if j > 0 {
      var c := if a % 2 != b % 2 then 1 else 0;
      assert (2 * Xor(a / 2, b / 2) + c) / 2 == Xor(a / 2, b / 2);
      BitXor(a / 2, b / 2, j - 1);
    }
  }

  lemma {:induction false} BitNot(u: nat, w: nat, j: nat)
    requires u < Pow2(w)
    ensures Bit(Not(u, w), j) == if j < w then 1 - Bit(u, j) else 0
  {
    if w == 0 {
      BitZero(j);
    } else {
      assert Not(u, w) == 2 * Not(u / 2, w - 1) + (1 - u % 2);
      if j > 0 {
        BitNot(u / 2, w - 1, j - 1);
      }
    }
  }

  /** `2^w - 1` has exactly its w low bits set. */
  lemma {:induction false} BitOnes(w: nat, j: nat)
    ensures Bit(Pow2(w) - 1, j) == if j < w then 1 else 0
  {
    BitNot(0, w, j);
    BitZero(j);
  }

  lemma {:induction false} BitShl(u: nat, s: nat, w: nat, j: nat)
    ensures Bit(Shl(u, s, w), j) == if s <= j < w then Bit(u, j - s) else 0
  {
    var x := u * Pow2(s);
    var hi, lo := DivMod(x, Pow2(w));
    BitSplit(lo, hi, w, j);
    assert x == 0 + Pow2(s) * u;
    BitSplit(0, u, s, j);
    if j >= w {
      BitAbove(lo, w, j);
    }
    if j < s {
      BitZero(j);
    }
  }

  lemma {:induction false} BitShr(u: nat, s: nat, j: nat)
    ensures Bit(Shr(u, s), j) == Bit(u, j + s)
  {
    if s > 0 {
      BitShr(u / 2, s - 1, j);
    }
  }

  lemma {:induction false} ShrBound(u: nat, n: nat, s: nat)
    requires u < Pow2(n) && s <= n
    ensures Shr(u, s) < Pow2(n - s) && Shr(u, s) <= u
  {
    if s > 0 {
      ShrBound(u / 2, n - 1, s - 1);
    }
  }

  lemma {:induction false} AndBound(a: nat, b: nat)
    ensures And(a, b) <= a && And(a, b) <= b
  {
    if a != 0 && b != 0 {
      AndBound(a / 2, b / 2);
    }
  }

  lemma {:induction false} OrBound(a: nat, b: nat, w: nat)
    requires a < Pow2(w) && b < Pow2(w)
    ensures Or(a, b) < Pow2(w)
  {
    if a != 0 && b != 0 {
      OrBound(a / 2, b / 2, w - 1);
    }
  }

  /** Masking with 2^k - 1 keeps the k low bits: the remainder modulo 2^k. */
  lemma {:induction false} AndLowMask(v: nat, k: nat)
    ensures And(v, Pow2(k) - 1) == v % Pow2(k)
  {
    var q, b := DivMod(v, Pow2(k));
    AndLowBits(v, k, b, q);
  }

  lemma {:induction false} AndLowBits(v: nat, k: nat, b: nat, q: nat)
    requires v == b + Pow2(k) * q && b < Pow2(k)
    ensures And(v, Pow2(k) - 1) == b
  {
    AndBound(v, Pow2(k) - 1);
    forall j | 0 <= j < k
      ensures Bit(And(v, Pow2(k) - 1), j) == Bit(b, j)
    {
      LowBit(v, b, q, k, j);
    }
    BitsEqual(And(v, Pow2(k) - 1), b, k);
  }

  lemma {:induction false} LowBit(v: nat, b: nat, q: nat, k: nat, j: nat)
    requires v == b + Pow2(k) * q && b < Pow2(k) && j < k
    ensures Bit(And(v, Pow2(k) - 1), j) == Bit(b, j)
  {
    BitAnd(v, Pow2(k) - 1, j);
    BitOnes(k, j);
    BitSplit(b, q, k, j);
  }

  /** A shift that loses no bits is a multiplication. */
  lemma {:induction false} ShlFits(u: nat, s: nat, w: nat)
    requires u * Pow2(s) < Pow2(w)
    ensures Shl(u, s, w) == u * Pow2(s)
  {
    DivModUnique(u * Pow2(s), Pow2(w), 0, u * Pow2(s));
  }

  /** `1 << s` on a w-bit word, for s < w. */
  lemma {:induction false} ShlOne(s: nat, w: nat)
    requires s < w
    ensures Shl(1, s, w) == Pow2(s)
  {
    Pow2Monotone(s + 1, w);
    ShlFits(1, s, w);
  }

  /** The bits of the byte masks `0xFF << s` and `~(0xFF << s)` on an int. */
  lemma {:induction false} ByteMasks(s: nat, t: nat)
    requires s <= 8 && t < 8
    ensures Bit(Shl(0xFF, s, 32), t) == if s <= t then 1 else 0
    ensures Bit(Not(Shl(0xFF, s, 32), 32), t) == if t < s then 1 else 0
  {
    assert Pow2(8) == 0x100;
    BitShl(0xFF, s, 32, t);
    BitNot(Shl(0xFF, s, 32), 32, t);
    if s <= t {
      BitOnes(8, t - s);
    }
  }

  /**
   * Writing the k low bytes of nw at byte b, k being W or all the bytes
   * left, sets the bits of the W-byte window from 8b that lie inside C to
   * those of nw and leaves every other bit as it was.
   */
  lemma {:induction false} WordWriteBits(C: seq<uint8>, b: nat, k: nat, W: nat, nw: nat, q: nat)
    requires b + k <= |C| && k <= W && (k == W || b + k == |C|)
    ensures StoreBit(Splice(C, b, LEBytes(nw, k)), q) ==
      if 8 * b <= q < 8 * (b + W) && q < 8 * |C| then Bit(nw, q - 8 * b) else StoreBit(C, q)
  {
    var C' := Splice(C, b, LEBytes(nw, k));
    var i := q / 8;
    if q < 8 * |C| && b <= i < b + k {
      assert C'[i] == LEBytes(nw, k)[i - b];
      BitLEBytes(nw, k, q - 8 * b);
      assert (q - 8 * b) / 8 == i - b && (q - 8 * b) % 8 == q % 8;
    }
  }

  /** Bit j of v is bit j % 8 of byte j / 8 of its little-endian bytes. */
  lemma {:induction false} BitLEBytes(v: nat, k: nat, j: nat)
    requires j < 8 * k
    ensures Bit(LEBytes(v, k)[j / 8], j % 8) == Bit(v, j)
  {
    var bs := LEBytes(v, k);
    BitLE(bs, j);
    LERoundTrip(v, k);
    Pow2Pow256(k);
    var q, r := DivMod(v, Pow256(k));
    BitSplit(r, q, 8 * k, j);
  }

  /** Java's `~(-1 << s)` on a w-bit word, `-1` being 2^w - 1, is the mask of the s low bits. */
  lemma {:induction false} JavaLowMask(s: nat, w: nat)
    requires s < w
    ensures Shl(Pow2(w) - 1, s, w) < Pow2(w)
    ensures Not(Shl(Pow2(w) - 1, s, w), w) == Pow2(s) - 1
  {
    var m := Not(Shl(Pow2(w) - 1, s, w), w);
    Pow2Monotone(s, w);
    forall j | 0 <= j < w
      ensures Bit(m, j) == Bit(Pow2(s) - 1, j)
    {
      BitNot(Shl(Pow2(w) - 1, s, w), w, j);
      BitShl(Pow2(w) - 1, s, w, j);
      if s <= j {
        BitOnes(w, j - s);
      }
      BitOnes(s, j);
    }
    BitsEqual(m, Pow2(s) - 1, w);
  }

  lemma {:induction false} Pow2Pow256(t: nat)
    ensures Pow2(8 * t) == Pow256(t)
  {
    if t > 0 {
      Pow2Pow256(t - 1);
      Pow2Add(8, 8 * (t - 1));
      assert Pow2(8) == 0x100;
      assert 8 * t == 8 + 8 * (t - 1);
    }
  }

  /** Bit j of a little-endian word is bit j % 8 of byte j / 8. */
  lemma {:induction false} BitLE(bs: seq<uint8>, j: nat)
    ensures Bit(LE(bs), j) == if j < 8 * |bs| then Bit(bs[j / 8], j % 8) else 0
  {
    if bs == [] {
      BitZero(j);
    } else {
      assert Pow2(8) == 0x100;
      BitSplit(bs[0], LE(bs[1..]), 8, j);
      if j >= 8 {
        BitLE(bs[1..], j - 8);
        assert (j - 8) / 8 == j / 8 - 1 && (j - 8) % 8 == j % 8;
      }
    }
  }

  //----------------------------------------------------------------------
  // Words against the bit string

  /** The word read at byte b, of width W bytes or up to the end of C, matches C from bit 8b. */
  lemma {:induction false} WordMatches(C: seq<uint8>, b: nat, k: nat, W: nat)
    requires b + k <= |C| && k <= W && (k == W || b + k == |C|)
    ensures Matches(LE(C[b..b + k]), C, 8 * b, 8 * W)
  {
    var bs := C[b..b + k];
    Pow2Pow256(k);
    Pow2Pow256(W);
    Pow2Monotone(8 * k, 8 * W);
    forall j | 0 <= j < 8 * W
      ensures Bit(LE(bs), j) == StoreBit(C, 8 * b + j)
    {
      BitLE(bs, j);
      assert (8 * b + j) / 8 == b + j / 8 && (8 * b + j) % 8 == j % 8;
    }
  }

  lemma {:induction false} MatchesShr(u: nat, C: seq<uint8>, p: nat, n: nat, s: nat)
    requires Matches(u, C, p, n) && s <= n
    ensures Matches(Shr(u, s), C, p + s, n - s)
  {
    ShrBound(u, n, s);
    forall j | 0 <= j < n - s
      ensures Bit(Shr(u, s), j) == StoreBit(C, p + s + j)
    {
      BitShr(u, s, j);
    }
  }

  lemma {:induction false} MatchesLow(u: nat, C: seq<uint8>, p: nat, n: nat, m: nat)
    requires Matches(u, C, p, n) && m <= n
    ensures Matches(u % Pow2(m), C, p, m)
  {
    var q, r := DivMod(u, Pow2(m));
    forall j | 0 <= j < m
      ensures Bit(r, j) == StoreBit(C, p + j)
    {
      BitSplit(r, q, m, j);
    }
  }

  lemma {:induction false} MatchesShift(u: nat, C: seq<uint8>, p: nat, n: nat)
    requires Matches(u, C, p, n) && 0 < n
    ensures Matches(u / 2, C, p + 1, n - 1) && u % 2 == StoreBit(C, p)
  {
    forall j | 0 <= j < n - 1
      ensures Bit(u / 2, j) == StoreBit(C, p + 1 + j)
    {
      assert Bit(u, j + 1) == Bit(u / 2, j);
    }
    assert Bit(u, 0) == u % 2;
  }

  /** A matching word has as many one bits as the stretch of C it matches. */
  lemma {:induction false} WordCount(u: nat, C: seq<uint8>, p: nat, n: nat)
    requires Matches(u, C, p, n)
    ensures PopCount(u) == Count(C, p, p + n)
    decreases n
  {
    if n > 0 {
      MatchesShift(u, C, p, n);
      WordCount(u / 2, C, p + 1, n - 1);
    }
  }

  /** The trailing zeros of a non-zero matching word lead to the first one bit of its stretch. */
  lemma {:induction false} WordNext(u: nat, C: seq<uint8>, p: nat, n: nat, w: nat)
    requires Matches(u, C, p, n) && n <= w
    ensures u == 0 <==> Count(C, p, p + n) == 0
    ensures u != 0 ==> p + Ntz(u, w) == Next1(C, p, p + n)
    decreases n
  {
    WordCount(u, C, p, n);
    PopCountZero(u);
    if u != 0 {
      MatchesShift(u, C, p, n);
      if u % 2 == 0 {
        WordNext(u / 2, C, p + 1, n - 1, w - 1);
      }
    }
  }

  /** The n-th one bit of a matching word is the n-th one bit of its stretch. */
  lemma {:induction false} WordNth(u: nat, C: seq<uint8>, p: nat, n: nat, r: nat)
    requires Matches(u, C, p, n) && 1 <= r <= PopCount(u)
    ensures p + NthSet(u, r) == NthOne(C, p, p + n, r)
    decreases n
  {
    if n > 0 {
      MatchesShift(u, C, p, n);
      if !(u % 2 == 1 && r == 1) {
        WordNth(u / 2, C, p + 1, n - 1, if u % 2 == 1 then r - 1 else r);
      }
    }
  }

  lemma {:induction false} PopCountZero(u: nat)
    ensures PopCount(u) == 0 <==> u == 0
  {
    if u != 0 && u % 2 == 0 {
      PopCountZero(u / 2);
    }
  }

  lemma {:induction false} PopCountBound(u: nat, w: nat)
    requires u < Pow2(w)
    ensures PopCount(u) <= w
  {
    if u != 0 {
      PopCountBound(u / 2, w - 1);
    }
  }

  /** The bits of a field are the bits of C it is read from. */
  lemma {:induction false} FieldMatches(C: seq<uint8>, p: nat, w: nat)
    ensures Matches(Field(C, p, w), C, p, w)
    decreases w
  {
    if w > 0 {
      FieldMatches(C, p + 1, w - 1);
      var s, f := StoreBit(C, p), Field(C, p + 1, w - 1);
      var u := s + 2 * f;
      assert Field(C, p, w) == u;
      forall j | 0 <= j < w
        ensures Bit(u, j) == StoreBit(C, p + j)
      {
        BitCons(s, f, j);
        if 0 < j {
          assert Bit(f, j - 1) == StoreBit(C, p + 1 + (j - 1));
        }
      }
    }
  }

  /** The bits of `s + 2 * f`, for a single bit s: s, then the bits of f. */
  lemma {:induction false} BitCons(s: nat, f: nat, j: nat)
    requires s <= 1
    ensures Bit(s + 2 * f, j) == if j == 0 then s else Bit(f, j - 1)
  {
    DivModUnique(s + 2 * f, 2, f, s);
  }

  /** A word matching C from p for w bits is the field of C there. */
  lemma {:induction false} MatchesField(u: nat, C: seq<uint8>, p: nat, w: nat)
    requires Matches(u, C, p, w)
    ensures u == Field(C, p, w)
  {
    FieldMatches(C, p, w);
    BitsEqual(u, Field(C, p, w), w);
  }

  //----------------------------------------------------------------------
  // Scans

  lemma {:induction false} CountSplit(C: seq<uint8>, a: nat, m: nat, b: nat)
    requires a <= m <= b
    ensures Count(C, a, b) == Count(C, a, m) + Count(C, m, b)
    decreases m - a
  {
    if a < m {
      CountSplit(C, a + 1, m, b);
    }
  }

  /** The first one bit lies past a stretch with no one bits, and inside one that has some. */
  lemma {:induction false} Next1Skip(C: seq<uint8>, a: nat, m: nat, b: nat)
    requires a <= m <= b
    ensures Count(C, a, m) == 0 ==> Next1(C, a, b) == Next1(C, m, b)
    ensures Count(C, a, m) > 0 ==> Next1(C, a, b) == Next1(C, a, m)
    decreases m - a
  {
    if a < m {
      Next1Skip(C, a + 1, m, b);
    }
  }

  /** The n-th one bit lies in a stretch holding at least n, and past one holding fewer. */
  lemma {:induction false} NthOneSkip(C: seq<uint8>, a: nat, m: nat, b: nat, n: int)
    requires a <= m <= b && 0 < n
    ensures n <= Count(C, a, m) ==> NthOne(C, a, b, n) == NthOne(C, a, m, n)
    ensures Count(C, a, m) < n ==> NthOne(C, a, b, n) == NthOne(C, m, b, n - Count(C, a, m))
    decreases m - a
  {
    if a == m {
      assert Count(C, a, m) == 0;
    } else {
      var k := n - StoreBit(C, a);
      if 0 < k {
        NthOneSkip(C, a + 1, m, b, k);
        NthOneStep(C, a, m, b, n, k);
      } else {
        assert Count(C, a, m) == 1 + Count(C, a + 1, m);
      }
    }
  }

  /** One step of NthOneSkip: the claim at a + 1 for the count left, k, gives it at a. */
  lemma {:induction false} NthOneStep(C: seq<uint8>, a: nat, m: nat, b: nat, n: int, k: int)
    requires a < m <= b && 0 < k && k == n - StoreBit(C, a)
    requires k <= Count(C, a + 1, m) ==> NthOne(C, a + 1, b, k) == NthOne(C, a + 1, m, k)
    requires Count(C, a + 1, m) < k ==> NthOne(C, a + 1, b, k) == NthOne(C, m, b, k - Count(C, a + 1, m))
    ensures n <= Count(C, a, m) ==> NthOne(C, a, b, n) == NthOne(C, a, m, n)
    ensures Count(C, a, m) < n ==> NthOne(C, a, b, n) == NthOne(C, m, b, n - Count(C, a, m))
  {
  }

  /**
   * NthOne finds what its name says: a one bit with exactly n - 1 one bits
   * before it in the stretch, or b when the stretch holds fewer than n.
   */
  lemma {:induction false} NthOneIsNth(C: seq<uint8>, a: nat, b: nat, n: int)
    requires 0 < n && a <= b
    ensures var r := NthOne(C, a, b, n);
      (r < b ==> StoreBit(C, r) == 1 && Count(C, a, r) == n - 1) &&
      (r == b <==> Count(C, a, b) < n)
  {
    NthOneHit(C, a, b, n);
    NthOneMiss(C, a, b, n);
  }

  /** Short of b, NthOne stops on a one bit with n - 1 one bits before it. */
  lemma {:induction false} NthOneHit(C: seq<uint8>, a: nat, b: nat, n: int)
    requires 0 < n && a <= b
    ensures var r := NthOne(C, a, b, n); r < b ==> StoreBit(C, r) == 1 && Count(C, a, r) == n - 1
    decreases b - a
  {
    if a < b {
      var s := StoreBit(C, a);
      if !(s == 1 && n == 1) {
        var k := n - s;
        NthOneHit(C, a + 1, b, k);
        var r := NthOne(C, a + 1, b, k);
        assert NthOne(C, a, b, n) == r;
        if r < b {
          assert Count(C, a, r) == s + Count(C, a + 1, r);
        }
      }
    }
  }

  /** NthOne reaches b exactly when the stretch holds fewer than n one bits. */
  lemma {:induction false} NthOneMiss(C: seq<uint8>, a: nat, b: nat, n: int)
    requires 0 < n && a <= b
    ensures NthOne(C, a, b, n) == b <==> Count(C, a, b) < n
    decreases b - a
  {
    if a < b {
      var s := StoreBit(C, a);
      assert Count(C, a, b) == s + Count(C, a + 1, b);
      if s == 1 && n == 1 {
        assert NthOne(C, a, b, n) == a;
      } else {
        var k := n - s;
        NthOneMiss(C, a + 1, b, k);
        assert NthOne(C, a, b, n) == NthOne(C, a + 1, b, k);
      }
    }
  }

  /** The first one bit is the first of the n-th ones. */
  lemma {:induction false} Next1IsFirst(C: seq<uint8>, a: nat, b: nat)
    ensures Next1(C, a, b) == NthOne(C, a, b, 1)
    decreases b - a
  {
    if a < b && StoreBit(C, a) == 0 {
      Next1IsFirst(C, a + 1, b);
    }
  }

  /** A stretch of C whose bits are all zero has no one bits and no first one bit. */
  lemma {:induction false} CountZero(C: seq<uint8>, a: nat, b: nat)
    requires forall q :: a <= q < b ==> StoreBit(C, q) == 0
    ensures Count(C, a, b) == 0 && Next1(C, a, b) == b
    decreases b - a
  {
    if a < b {
      CountZero(C, a + 1, b);
    }
  }

  //----------------------------------------------------------------------
  // The lowest one bit

  lemma {:induction false} NtzPow2(t: nat, w: nat)
    requires t < w
    ensures Ntz(Pow2(t), w) == t
  {
    if t > 0 {
      NtzPow2(t - 1, w - 1);
    }
  }

  /** Clearing the lowest one bit drops one from the count and moves every later one bit down a place. */
  lemma {:induction false} DropLowest(u: nat, w: nat, n: nat)
    requires 0 < u < Pow2(w) && 2 <= n <= PopCount(u)
    ensures Xor(u, LowestOneBit(u, w)) == u - LowestOneBit(u, w)
    ensures PopCount(Xor(u, LowestOneBit(u, w))) == PopCount(u) - 1
    ensures NthSet(Xor(u, LowestOneBit(u, w)), n - 1) == NthSet(u, n)
  {
    XorLowest(u, w);
    SubLowest(u, w, n);
  }

  /** The lowest one bit is set in u, so xor-ing it out subtracts it. */
  lemma {:induction false} XorLowest(u: nat, w: nat)
    requires 0 < u < Pow2(w)
    ensures LowestOneBit(u, w) <= u && Xor(u, LowestOneBit(u, w)) == u - LowestOneBit(u, w)
  {
    LowestStep(u, w);
    var l := LowestOneBit(u, w);
    if u % 2 == 1 {
      assert Xor(u, 1) == 2 * Xor(u / 2, 0);
    } else {
      var h := u / 2;
      XorLowest(h, w - 1);
      var lh := LowestOneBit(h, w - 1);
      assert l / 2 == lh && l % 2 == 0;
      assert Xor(u, l) == 2 * Xor(h, lh);
    }
  }

  /** The lowest one bit of an odd word is 1; that of an even one is twice the lowest one bit of its half. */
  lemma {:induction false} LowestStep(u: nat, w: nat)
    requires 0 < u < Pow2(w)
    ensures 1 <= w
    ensures u % 2 == 1 ==> LowestOneBit(u, w) == 1
    ensures u % 2 == 0 ==> 0 < u / 2 < Pow2(w - 1) && LowestOneBit(u, w) == 2 * LowestOneBit(u / 2, w - 1)
  {
    if w == 0 {
      assert false;
    }
    assert Pow2(w) == 2 * Pow2(w - 1);
    if u % 2 == 0 {
      var h := u / 2;
      assert Ntz(u, w) == 1 + Ntz(h, w - 1);
      assert Pow2(1 + Ntz(h, w - 1)) == 2 * Pow2(Ntz(h, w - 1));
    }
  }

  /** Subtracting the lowest one bit of u drops one from the count and moves every later one bit down a place. */
  lemma {:induction false} SubLowest(u: nat, w: nat, n: nat)
    requires 0 < u < Pow2(w) && 2 <= n <= PopCount(u)
    ensures LowestOneBit(u, w) <= u
    ensures PopCount(u - LowestOneBit(u, w)) == PopCount(u) - 1
    ensures NthSet(u - LowestOneBit(u, w), n - 1) == NthSet(u, n)
  {
    PopCountSubLowest(u, w);
    NthSetSubLowest(u, w, n);
  }

  /** The count of u is its low bit plus the count of its half. */
  lemma {:induction false} PopCountHalf(u: nat)
    ensures PopCount(u) == u % 2 + PopCount(u / 2)
  {
  }

  lemma {:induction false} PopCountSubLowest(u: nat, w: nat)
    requires 0 < u < Pow2(w)
    ensures LowestOneBit(u, w) <= u && PopCount(u - LowestOneBit(u, w)) + 1 == PopCount(u)
  {
    LowestStep(u, w);
    if u % 2 == 1 {
      PopCountDropOdd(u);
      assert LowestOneBit(u, w) == 1;
    } else {
      var h := u / 2;
      PopCountSubLowest(h, w - 1);
      var lh := LowestOneBit(h, w - 1);
      PopCountDropEven(u, h, lh);
      assert LowestOneBit(u, w) == 2 * lh;
      assert PopCount(u - 2 * lh) + 1 == PopCount(u);
    }
  }

  lemma {:induction false} PopCountDropOdd(u: nat)
    requires u % 2 == 1
    ensures PopCount(u - 1) + 1 == PopCount(u)
  {
    var v := u - 1;
    PopCountHalf(u);
    PopCountHalf(v);
    assert v % 2 == 0 && v / 2 == u / 2;
  }

  lemma {:induction false} PopCountDropEven(u: nat, h: nat, lh: nat)
    requires u % 2 == 0 && h == u / 2 && lh <= h
    ensures PopCount(u - 2 * lh) == PopCount(h - lh) && PopCount(u) == PopCount(h)
  {
    var v := u - 2 * lh;
    DivModUnique(u, 2, h, 0);
    DivModUnique(v, 2, h - lh, 0);
    PopCountHalf(u);
    PopCountHalf(v);
  }

  lemma {:induction false} NthSetSubLowest(u: nat, w: nat, n: nat)
    requires 0 < u < Pow2(w) && 2 <= n <= PopCount(u)
    ensures LowestOneBit(u, w) <= u && n - 1 <= PopCount(u - LowestOneBit(u, w))
    ensures NthSet(u - LowestOneBit(u, w), n - 1) == NthSet(u, n)
  {
    LowestStep(u, w);
    if u % 2 == 1 {
      NthSetDropOdd(u, n);
    } else {
      var h := u / 2;
      NthSetSubLowest(h, w - 1, n);
      var lh := LowestOneBit(h, w - 1);
      NthSetDropEven(u, h, lh, n);
    }
  }

  /** Clearing bit 0 of an odd word moves every later one bit down a place in the order. */
  lemma {:induction false} NthSetDropOdd(u: nat, n: nat)
    requires u % 2 == 1 && 2 <= n <= PopCount(u)
    ensures n - 1 <= PopCount(u - 1) && NthSet(u - 1, n - 1) == NthSet(u, n)
  {
    var v := u - 1;
    PopCountHalf(u);
    PopCountHalf(v);
    assert v % 2 == 0 && v / 2 == u / 2;
    assert NthSet(v, n - 1) == 1 + NthSet(u / 2, n - 1);
  }

  /** The even step: what holds of the half h and its lowest bit lh holds of u and 2 lh. */
  lemma {:induction false} NthSetDropEven(u: nat, h: nat, lh: nat, n: nat)
    requires u % 2 == 0 && h == u / 2 && lh <= h && 2 <= n <= PopCount(u)
    requires n - 1 <= PopCount(h - lh) && NthSet(h - lh, n - 1) == NthSet(h, n)
    ensures n - 1 <= PopCount(u - 2 * lh) && NthSet(u - 2 * lh, n - 1) == NthSet(u, n)
  {
    var v := u - 2 * lh;
    DivModUnique(u, 2, h, 0);
    DivModUnique(v, 2, h - lh, 0);
    PopCountHalf(u);
    PopCountHalf(v);
    assert NthSet(v, n - 1) == 1 + NthSet(h - lh, n - 1);
  }

  /** The first one bit is the lowest; the lowest one bit of a w-bit word lies below w. */
  lemma {:induction false} NthSetFirst(u: nat, w: nat)
    requires 0 < u < Pow2(w)
    ensures PopCount(u) >= 1 && NthSet(u, 1) == Ntz(u, w) < w
  {
    PopCountZero(u);
    if u % 2 == 0 {
      NthSetFirst(u / 2, w - 1);
    }
  }

  /** The n-th one bit of a w-bit word lies below w. */
  lemma {:induction false} NthSetBound(u: nat, w: nat, n: nat)
    requires u < Pow2(w) && 1 <= n <= PopCount(u)
    ensures NthSet(u, n) < w
    decreases u
  {
    if !(u % 2 == 1 && n == 1) {
      NthSetBound(u / 2, w - 1, if u % 2 == 1 then n - 1 else n);
    }
  }
}
