// `URecDiv`: unsigned 32-bit division by an invariant divisor n, done as a
// multiplication by a magic numerator followed by a right shift. The
// constructor searches for the smallest exponent b whose multiplier
// m = ceil(2^b / n) is exact for every 32-bit dividend; m may need 33 bits,
// so it is kept as its low 32 bits plus the flag `bit33`.
//
// Java `int` and `long` values are taken as their unsigned readings. Every
// `long` operation in the constructor stays below 2^64 on the values it
// sees, so unsigned comparison, division and remainder are exact here;
// `(int)` casts keep the low 32 bits, and `>>>` takes its distance mod 64.
module URecDiv {
  import opened JavaInt
  import opened Arith
  import DM = DMath

  /** The bound of the constructor's search loop, `b < 63`. */
  const CAP: nat := 63

  /**
   * The bound the search needs in order to reach the exponent it is after
   * for every divisor: the smallest exponent for which the multiplier is
   * exact is at most 32 + ceil(log2 n) <= 64.
   */
  const FULL_CAP: nat := 64

  /** The magic triple a divisor is replaced by: numerator, shift and bit 33 flag. */
  datatype Magic = Magic(num: uint32, log2den: int, bit33: bool)

  //----------------------------------------------------------------------
  // The search

  /** `nc`: the largest value below 2^32 that leaves remainder un - 1. */
  function Nc(un: nat): (r: nat)
    requires 0 < un < TWO_32
    ensures un - 1 <= r < TWO_32 && r % un == un - 1
    ensures TWO_32 <= r + un
  {
    var k, t := TWO_32 / un, TWO_32 % un;
    assert TWO_32 == un * k + t;
    assert 1 <= k;
    assert un * k - 1 == un * (k - 1) + (un - 1);
    MulAtLeast(un, k);
    DivModUnique(un * k - 1, un, k - 1, un - 1);
    TWO_32 - t - 1
  }

  /** How far un times the candidate multiplier for 2^b overshoots 2^b. */
  function Excess(un: nat, b: nat): (e: nat)
    requires 0 < un
    ensures e < un
  {
    un - 1 - (Pow2(b) - 1) % un
  }

  /**
   * The loop test at b: `b < cap && 2^b <= nc * e(b)`, which says that the
   * multiplier for 2^b may still be off for some dividend up to nc.
   */
  predicate Searching(un: nat, b: nat, cap: nat)
    requires 0 < un < TWO_32
  {
    b < cap && Pow2(b) <= Nc(un) * Excess(un, b)
  }

  /** Where the search loop stops when it starts at b: the first b' >= b at which the test fails. */
  function Exponent(un: nat, b: nat, cap: nat): (r: nat)
    requires 0 < un < TWO_32 && b <= cap
    ensures b <= r <= cap && !Searching(un, r, cap)
    ensures forall k :: b <= k < r ==> Searching(un, k, cap)
    decreases cap - b
  {
    if Searching(un, b, cap) then Exponent(un, b + 1, cap) else b
  }

  /** `num33 = udiv(mask + un - mask % un, un)` with `mask = 2^b - 1`: the ceiling of 2^b / un. */
  function Num33(un: nat, b: nat): (m: nat)
    requires 0 < un
    ensures m * un == Pow2(b) + Excess(un, b)
  {
    var mask := Pow2(b) - 1;
    var q, s := mask / un, mask % un;
    assert mask + un - s == un * (q + 1);
    DivModUnique(mask + un - s, un, q + 1, 0);
    (mask + un - s) / un
  }

  /** The constructor's computation, with the search loop bounded by cap. */
  function MagicOf(un: uint32, cap: nat): Magic
    requires 1 <= cap <= FULL_CAP
  {
    if DM.IsPow2Int(un) then
      Magic(1, DM.Flog2Int(un), false)
    else
      OneIsPowerOfTwo();
      var b := Exponent(un, 1, cap);
      var num33 := Num33(un, b);
      Num33Bound(un, b, num33);
      var bit33 := DM.BitSizeLong(num33) > 32;
      Magic(num33 % TWO_32, if bit33 then b - 32 else b, bit33)
  }

  /** Java's `v >>> s` on the unsigned reading of a `long`: the distance is taken mod 64. */
  function Ushr64(v: nat, s: int): int
  {
    v / Pow2(s % 64)
  }

  /** `div(x)`: multiply by the numerator (and by 2^32 more when bit 33 is set), then shift. */
  function DivBy(p: Magic, x: uint32): uint32
  {
    var prod := x * p.num;
    if !p.bit33 then
      Ushr64(prod, p.log2den) % TWO_32
    else
      Ushr64(prod / TWO_32 + x, p.log2den) % TWO_32
  }

  /**
   * The constructor's search loop: b counts up from 1 while the test
   * holds, and stops at 63 at the latest.
   */
  method SearchExponent(un: nat) returns (b: nat)
    requires 2 <= un < TWO_32
    ensures b == Exponent(un, 1, CAP)
    ensures 1 <= b <= 63
  {
    var nc := TWO_32 - TWO_32 % un - 1;
    b := 1;
    LoopTest(un, nc, b);
    while b < 63 && Pow2(b) <= nc * (un - 1 - (Pow2(b) - 1) % un)
      invariant 1 <= b <= CAP
      invariant Exponent(un, b, CAP) == Exponent(un, 1, CAP)
      invariant Searching(un, b, CAP) == (b < 63 && Pow2(b) <= nc * (un - 1 - (Pow2(b) - 1) % un))
      decreases CAP - b
    {
      ExponentStep(un, b, CAP);
      b := b + 1;
      LoopTest(un, nc, b);
    }
  }

  //----------------------------------------------------------------------
  // The class

  class URecDiv {
    const n: uint32
    const num: uint32
    const log2den: int
    const bit33: bool

    /** The fields hold the magic triple the constructor computes for n. */
    ghost predicate Valid()
    {
      Magic(num, log2den, bit33) == MagicOf(n, CAP)
    }

    /** `new URecDiv(n)`: the magic-number search. */
    constructor (n: uint32)
      ensures Valid() && this.n == n
    {
      this.n := n;
      if DM.IsPow2Int(n) {
        num := 1;
        log2den := DM.Flog2Int(n);
        bit33 := false;
      } else {
        OneIsPowerOfTwo();
        var un := n;
        var b := SearchExponent(un);
        var mask := Pow2(b) - 1;
        var num33 := (mask + un - mask % un) / un;
        Num33Is(un, b, mask, num33);
        Num33Bound(un, b, num33);
        var wide := DM.BitSizeLong(num33) > 32;
        num := num33 % TWO_32;
        bit33 := wide;
        log2den := if wide then b as int - 32 else b;
      }
    }

    /**
     * `numerator()`: the `int` field widened to `long`, so a magic with its
     * top bit set reads back negative.
     */
    function Numerator(): (r: int64)
      requires Valid()
      ensures INT_MIN <= r <= INT_MAX && r % TWO_32 == MagicOf(n, CAP).num
      ensures r < 0 <==> MagicOf(n, CAP).num >= 0x8000_0000
    {
      if num <= INT_MAX then
        DivModUnique(num, TWO_32, 0, num);
        num
      else
        DivModUnique(num - TWO_32, TWO_32, -1, num);
        num - TWO_32
    }

    /** `log2denominator()`: the shift, -1 only for the divisor 0. */
    function Log2Denominator(): (r: int)
      requires Valid()
      ensures -1 <= r <= 63
      ensures r == -1 <==> n == 0
    {
      if DM.IsPow2Int(n) then
        log2den
      else
        OneIsPowerOfTwo();
        var b := Exponent(n, 1, CAP);
        MagicShape(n, CAP, MagicOf(n, CAP), b, Num33(n, b));
        log2den
    }

    /** `div(x)`: the unsigned quotient x / n, for every divisor up to 2^31. */
    function Div(x: uint32): (r: uint32)
      requires Valid()
      ensures 0 < n <= 0x8000_0000 ==> r == x / n
    {
      DivAsWritten(n, x);
      DivBy(Magic(num, log2den, bit33), x)
    }
  }

  //----------------------------------------------------------------------
  // Properties

  /** With nc * e(b) < 2^b, the multiplier for 2^b gives the exact quotient of every 32-bit dividend. */
  lemma {:induction false} MagicQuotient(un: nat, b: nat, m: nat, x: nat)
    requires 0 < un < TWO_32 && x < TWO_32
    requires m * un == Pow2(b) + Excess(un, b)
    requires Nc(un) * Excess(un, b) < Pow2(b)
    ensures x * m / Pow2(b) == x / un
  {
    var P, e, nc := Pow2(b), Excess(un, b), Nc(un);
    var q, r := DivMod(x, un);
    ScaledBound(un, x);
    ExcessBound(un - r, x, nc, e, P);
    LowBound(x, un, q, r, m, P, e);
    HighBound(x, un, q, r, m, P, e);
    DivModUnique(x * m, P, q, x * m - q * P);
  }

  /** x * m >= q * 2^b: un * m overshoots 2^b. */
  lemma {:induction false} LowBound(x: nat, un: nat, q: nat, r: nat, m: nat, P: nat, e: nat)
    requires x == r + un * q && m * un == P + e
    ensures q * P <= x * m
  {
    calc {
      x * m;
      (r + un * q) * m;
      { MulDist(m, un * q, r); }
      (un * q) * m + r * m;
      { MulAssoc(q, un, m); }
      q * (m * un) + r * m;
      q * (P + e) + r * m;
      { MulDist(q, P, e); }
      q * P + q * e + r * m;
    }
    MulNonneg(q, e);
    MulNonneg(r, m);
  }

  /** x * m < (q + 1) * 2^b, from x * e < (un - r) * 2^b. */
  lemma {:induction false} HighBound(x: nat, un: nat, q: nat, r: nat, m: nat, P: nat, e: nat)
    requires x == r + un * q && r < un && m * un == P + e && x * e < (un - r) * P
    ensures x * m < q * P + P
  {
    calc {
      un * (x * m);
      { MulAssoc(x, m, un); }
      x * (m * un);
      x * (P + e);
      { MulDist(x, P, e); }
      x * P + x * e;
    <
      x * P + (un - r) * P;
      { MulDist(P, x, un - r); }
      (x + un - r) * P;
      { assert x + un - r == un * (q + 1); }
      (un * (q + 1)) * P;
      { MulAssoc(un, q + 1, P); }
      un * ((q + 1) * P);
    }
    MulCancelLess(x * m, (q + 1) * P, un);
    MulDist(P, q, 1);
  }

  /** Every dividend below 2^32 is at most (un - x % un) * nc. */
  lemma {:induction false} ScaledBound(un: nat, x: nat)
    requires 0 < un < TWO_32 && x < TWO_32
    ensures x <= (un - x % un) * Nc(un)
  {
    var nc, r := Nc(un), x % un;
    if x <= nc {
      MulAtLeast(nc, un - r);
      assert nc <= nc * (un - r) || nc == 0;
    } else {
      var k := nc / un;
      assert nc == un * k + (un - 1);
      assert x == un * (k + 1) + (x - nc - 1);
      DivModUnique(x, un, k + 1, x - nc - 1);
      assert r == x - nc - 1 <= un - 2;
      assert (un - r) * nc == nc * (un - r - 2) + 2 * nc;
      MulNonneg(nc, un - r - 2);
    }
  }

  /** x <= s * nc and nc * e < P give x * e < s * P. */
  lemma {:induction false} ExcessBound(s: nat, x: nat, nc: nat, e: nat, P: nat)
    requires 1 <= s && x <= s * nc && nc * e < P
    ensures x * e < s * P
  {
    MulMonotone(e, x, s * nc);
    assert e * (s * nc) == s * (nc * e);
    MulMonotone(s, nc * e, P - 1);
    assert s * (P - 1) == s * P - s;
  }

  lemma {:induction false} MulCancelLess(a: nat, b: nat, c: nat)
    requires 0 < c && (a * c < b * c || c * a < c * b)
    ensures a < b
  {
    if b <= a {
      MulMonotone(c, b, a);
    }
  }

  lemma {:induction false} MulMonotone(a: nat, b: nat, c: nat)
    requires b <= c
    ensures a * b <= a * c
  {
    assert a * c == a * b + a * (c - b);
  }

  lemma {:induction false} OneIsPowerOfTwo()
    ensures DM.IsPowerOfTwo(1)
  {
    assert DM.BitLen(1) == 1 + DM.BitLen(0);
  }

  /** One more round of the search ends where the search does. */
  lemma {:induction false} ExponentStep(un: nat, b: nat, cap: nat)
    requires 0 < un < TWO_32 && b <= cap && Searching(un, b, cap)
    ensures Exponent(un, b, cap) == Exponent(un, b + 1, cap)
  {
  }

  /** The loop's test, as the constructor writes it, is `Searching`. */
  lemma {:induction false} LoopTest(un: nat, nc: int, b: nat)
    requires 0 < un < TWO_32 && nc == TWO_32 - TWO_32 % un - 1
    ensures Searching(un, b, CAP) == (b < 63 && Pow2(b) <= nc * (un - 1 - (Pow2(b) - 1) % un))
  {
  }

  /** The constructor's `num33`, as it writes it, is `Num33`. */
  lemma {:induction false} Num33Is(un: nat, b: nat, mask: int, num33: int)
    requires 0 < un && mask == Pow2(b) - 1 && num33 == (mask + un - mask % un) / un
    ensures num33 == Num33(un, b)
  {
  }

  /** The multiplier fits 64 bits, so `num33` is a `long` as the source has it. */
  lemma {:induction false} Num33Bound(un: nat, b: nat, m: nat)
    requires 2 <= un < TWO_32 && b <= FULL_CAP && m * un == Pow2(b) + Excess(un, b)
    ensures m < TWO_64
  {
    Pow2Monotone(b, 64);
    Pow2Widths();
    assert TWO_64 + un <= TWO_64 * un by {
      assert TWO_64 * un == TWO_64 + TWO_64 * (un - 1);
      MulAtLeast(TWO_64, un - 1);
    }
    MulCancelLess(m, TWO_64, un);
  }

  /** bitSize(v) > 32 says that v needs 33 bits or more. */
  lemma {:induction false} BitSizeAbove32(v: uint64)
    ensures DM.BitSizeLong(v) > 32 <==> v >= TWO_32
  {
    var r := DM.BitSizeLong(v);
    Pow2Widths();
    if r > 32 {
      Pow2Monotone(32, r - 1);
    } else {
      Pow2Monotone(r, 32);
    }
  }

  /**
   * The multiplier the search ends with: below 2^33, 33 bits wide when the
   * search reaches 64, and 33 bits wide only when b >= 33; so the shift the
   * constructor stores (b, or b - 32 with bit 33 set) lies in 0..63.
   */
  lemma {:induction false} MultiplierBounds(un: nat, b: nat, m: nat, cap: nat)
    requires 2 <= un < TWO_32 && 1 <= cap <= FULL_CAP && b == Exponent(un, 1, cap)
    requires m * un == Pow2(b) + Excess(un, b)
    ensures m < 2 * TWO_32
    ensures b == 64 ==> TWO_32 <= m
    ensures TWO_32 <= m ==> 33 <= b
  {
    if b == 1 {
      FirstMultiplier(un, m);
    } else {
      assert Searching(un, b - 1, cap);
      PreviousTest(un, b, m);
    }
    if b == 64 {
      WideMultiplier(un, m);
    }
    if b < 33 {
      NarrowMultiplier(un, b, m);
    }
  }

  /** At b = 1 the multiplier is 1. */
  lemma {:induction false} FirstMultiplier(un: nat, m: nat)
    requires 2 <= un && m * un == Pow2(1) + Excess(un, 1)
    ensures m < 2
  {
    assert m * un < 2 * un;
    MulCancelLess(m, 2, un);
  }

  /** The test held at b - 1, so the multiplier for 2^b stays below 2^33. */
  lemma {:induction false} PreviousTest(un: nat, b: nat, m: nat)
    requires 2 <= un < TWO_32 && 2 <= b && m * un == Pow2(b) + Excess(un, b)
    requires Pow2(b - 1) <= Nc(un) * Excess(un, b - 1)
    ensures m < 2 * TWO_32
  {
    var e1, c := Excess(un, b - 1), 2 * TWO_32 - 1;
    assert Nc(un) * e1 <= (TWO_32 - 1) * (un - 1) by {
      MulMonotone(e1, Nc(un), TWO_32 - 1);
      MulMonotone(TWO_32 - 1, e1, un - 1);
    }
    assert m * un <= c * (un - 1) by {
      assert c * (un - 1) == 2 * ((TWO_32 - 1) * (un - 1)) + (un - 1);
    }
    assert c * (un - 1) < c * un;
    MulCancelLess(m, c, un);
  }

  /** At b = 64 the multiplier needs 33 bits. */
  lemma {:induction false} WideMultiplier(un: nat, m: nat)
    requires 2 <= un < TWO_32 && m * un == Pow2(64) + Excess(un, 64)
    ensures TWO_32 <= m
  {
    Pow2Widths();
    assert TWO_32 * un < TWO_32 * TWO_32;
    MulCancelLess(TWO_32, m, un);
  }

  /** Below b = 33 the multiplier fits 32 bits. */
  lemma {:induction false} NarrowMultiplier(un: nat, b: nat, m: nat)
    requires 2 <= un < TWO_32 && b < 33 && m * un == Pow2(b) + Excess(un, b)
    ensures m < TWO_32
  {
    Pow2Monotone(b, 32);
    Pow2Widths();
    assert un * TWO_32 == TWO_32 + (un - 1) * TWO_32;
    MulAtLeast(TWO_32, un - 1);
    MulCancelLess(m, TWO_32, un);
  }

  /** The constructor's triple for a divisor other than 0 and the powers of two, in terms of b and m. */
  lemma {:induction false} MagicShape(un: uint32, cap: nat, p: Magic, b: nat, m: nat)
    requires 1 <= cap <= FULL_CAP && !DM.IsPow2Int(un) && DM.IsPowerOfTwo(1)
    requires p == MagicOf(un, cap) && b == Exponent(un, 1, cap) && m == Num33(un, b)
    ensures p.bit33 <==> TWO_32 <= m
    ensures m == p.num + (if p.bit33 then TWO_32 else 0)
    ensures p.log2den == (if p.bit33 then b - 32 else b)
    ensures 1 <= b && (p.bit33 ==> 33 <= b <= 64) && (!p.bit33 ==> b < 64)
  {
    Num33Bound(un, b, m);
    BitSizeAbove32(m);
    MultiplierBounds(un, b, m, cap);
    if TWO_32 <= m {
      DivModUnique(m, TWO_32, 1, m - TWO_32);
    } else {
      DivModUnique(m, TWO_32, 0, m);
    }
  }

  /** `div` multiplies by the 33-bit multiplier m and shifts right by b. */
  lemma {:induction false} DivByMultiplier(p: Magic, x: uint32, m: nat, b: nat)
    requires m == p.num + (if p.bit33 then TWO_32 else 0)
    requires p.log2den == (if p.bit33 then b - 32 else b)
    requires (p.bit33 ==> 32 <= b <= 64) && (!p.bit33 ==> b < 64)
    ensures DivBy(p, x) == (x * m / Pow2(b)) % TWO_32
  {
    var prod := x * p.num;
    if p.bit33 {
      Bit33Split(x, p.num, m, b);
      ShiftInRange(prod / TWO_32 + x, p.log2den);
    } else {
      ShiftInRange(prod, p.log2den);
    }
  }

  /** A shift distance in 0..63 is taken as it is. */
  lemma {:induction false} ShiftInRange(v: nat, s: int)
    requires 0 <= s < 64
    ensures Ushr64(v, s) == v / Pow2(s)
  {
    assert s % 64 == s;
  }

  /** The bit 33 branch of `div`: ((x * num >>> 32) + x) >>> (b - 32) == x * num33 >>> b. */
  lemma {:induction false} Bit33Split(x: nat, num: nat, m: nat, b: nat)
    requires m == num + TWO_32 && 32 <= b
    ensures (x * num / TWO_32 + x) / Pow2(b - 32) == x * m / Pow2(b)
  {
    var lo := x * num;
    assert x * m == lo + TWO_32 * x;
    DivAddMultiple(lo, TWO_32, x);
    Pow2Widths();
    Pow2Add(32, b - 32);
    DivDiv(x * m, TWO_32, Pow2(b - 32));
  }

  /** A power of two n = 2^k is replaced by the numerator 1 and the shift k. */
  lemma {:induction false} PowerOfTwoMagic(un: uint32, cap: nat)
    requires 1 <= cap <= FULL_CAP && DM.IsPowerOfTwo(un)
    ensures MagicOf(un, cap).num == 1 && !MagicOf(un, cap).bit33
    ensures 0 <= MagicOf(un, cap).log2den < 32 && un == Pow2(MagicOf(un, cap).log2den)
  {
    var k := DM.Flog2Int(un);
    Pow2Exponent(DM.BitLen(un) - 1, k);
    Pow2Widths();
    Pow2Below(k, 32);
  }

  /** 2^k <= 2^j < 2^(k+1) pins j down to k. */
  lemma {:induction false} Pow2Exponent(j: nat, k: nat)
    requires Pow2(k) <= Pow2(j) < Pow2(k + 1)
    ensures j == k
  {
    if j < k {
      Pow2Monotone(j + 1, k);
    } else if k < j {
      Pow2Monotone(k + 1, j);
    }
  }

  /** 2^k < 2^w only for k < w. */
  lemma {:induction false} Pow2Below(k: nat, w: nat)
    requires Pow2(k) < Pow2(w)
    ensures k < w
  {
    if w <= k {
      Pow2Monotone(w, k);
    }
  }

  /** The divisor 0 is accepted; it yields the shift -1, so `div` shifts by 63 and returns 0. */
  lemma {:induction false} DivByZero(x: uint32, cap: nat)
    requires 1 <= cap <= FULL_CAP
    ensures DivBy(MagicOf(0, cap), x) == 0
  {
    assert DM.IsPow2Int(0) && DM.Flog2Int(0) == -1;
    var p := MagicOf(0, cap);
    assert p == Magic(1, -1, false);
    Pow2Widths();
    assert Ushr64(x * 1, -1) == x / Pow2(63) == 0;
  }

  /** The search bounded by 64: `div` returns the unsigned quotient for every divisor other than 0. */
  lemma {:induction false} DivCorrect(un: uint32, x: uint32)
    requires un != 0
    ensures DivBy(MagicOf(un, FULL_CAP), x) == x / un
  {
    var p := MagicOf(un, FULL_CAP);
    QuotientFits(x, un);
    if DM.IsPow2Int(un) {
      PowerOfTwoMagic(un, FULL_CAP);
      DivByMultiplier(p, x, 1, p.log2den);
    } else {
      OneIsPowerOfTwo();
      var b := Exponent(un, 1, FULL_CAP);
      var m := Num33(un, b);
      MagicShape(un, FULL_CAP, p, b, m);
      DivByMultiplier(p, x, m, b);
      TestBound(un, b);
      FinalTest(un, b, FULL_CAP);
      MagicQuotient(un, b, m, x);
    }
  }

  /** The quotient of a 32-bit dividend survives the final `(int)` cast. */
  lemma {:induction false} QuotientFits(x: uint32, un: nat)
    requires 0 < un
    ensures (x / un) % TWO_32 == x / un
  {
    var q := x / un;
    DivAtMost(x, un);
    DivModUnique(q, TWO_32, 0, q);
  }

  /** Where the search stops, nc * e(b) < 2^b: the test failed, or b = 64, where it cannot hold. */
  lemma {:induction false} FinalTest(un: nat, b: nat, cap: nat)
    requires 0 < un < TWO_32 && 1 <= cap <= FULL_CAP && b == Exponent(un, 1, cap)
    requires b == cap ==> Nc(un) * Excess(un, b) < Pow2(b)
    ensures Nc(un) * Excess(un, b) < Pow2(b)
  {
    if b == cap {
    } else {
      assert !Searching(un, b, cap);
    }
  }

  /** nc * e(b) stays below 2^64, and below 2^63 for divisors up to 2^31. */
  lemma {:induction false} TestBound(un: nat, b: nat)
    requires 0 < un < TWO_32
    ensures Nc(un) * Excess(un, b) < Pow2(64)
    ensures un <= 0x8000_0000 ==> Nc(un) * Excess(un, b) < Pow2(63)
  {
    Pow2Widths();
    var e := Excess(un, b);
    MulMonotone(e, Nc(un), TWO_32 - 1);
    MulMonotone(TWO_32 - 1, e, un - 1);
    MulMonotone(TWO_32 - 1, un - 1, TWO_32 - 1);
    if un <= 0x8000_0000 {
      MulMonotone(TWO_32 - 1, un - 1, 0x7FFF_FFFF);
    }
  }

  /** With nc * e(63) < 2^63 the loop bounded by 63 stops where the full search does. */
  lemma {:induction false} ExponentCaps(un: nat, b: nat)
    requires 0 < un < TWO_32 && b <= CAP
    requires Nc(un) * Excess(un, CAP) < Pow2(CAP)
    ensures Exponent(un, b, CAP) == Exponent(un, b, FULL_CAP)
    decreases CAP - b
  {
    if b < CAP && Searching(un, b, CAP) {
      ExponentCaps(un, b + 1);
    }
  }

  /** The search bounded by 63 is exact for every divisor up to 2^31. */
  lemma {:induction false} DivAsWritten(un: uint32, x: uint32)
    ensures 0 < un <= 0x8000_0000 ==> DivBy(MagicOf(un, CAP), x) == x / un
  {
    if 0 < un <= 0x8000_0000 {
      if DM.IsPow2Int(un) {
        assert MagicOf(un, CAP) == MagicOf(un, FULL_CAP);
      } else {
        TestBound(un, CAP);
        ExponentCaps(un, 1);
        assert MagicOf(un, CAP) == MagicOf(un, FULL_CAP);
      }
      DivCorrect(un, x);
    }
  }

  /**
   * The search bounded by 63 stops too early for n = 0xFFFF_FFFE: at b = 63 its
   * test still holds, and the multiplier it keeps sends 0xFFFF_FFFD to 1
   * instead of 0.
   */
  lemma {:induction false} AsWrittenMisdivides()
    ensures DivBy(MagicOf(0xFFFF_FFFE, CAP), 0xFFFF_FFFD) == 1
    ensures 0xFFFF_FFFD / 0xFFFF_FFFE == 0
    ensures DivBy(MagicOf(0xFFFF_FFFE, FULL_CAP), 0xFFFF_FFFD) == 0
  {
    var un := 0xFFFF_FFFE;
    NotPowerOfTwo();
    OneIsPowerOfTwo();
    var p, b := MagicOf(un, CAP), Exponent(un, 1, CAP);
    SearchRunsOut(b);
    var m := Num33(un, b);
    AsWrittenMultiplier(m);
    MagicShape(un, CAP, p, b, m);
    DivByMultiplier(p, 0xFFFF_FFFD, m, b);
    MisdividedValue(p, 0xFFFF_FFFD, m, b);
    DivCorrect(un, 0xFFFF_FFFD);
  }

  lemma {:induction false} NotPowerOfTwo()
    ensures !DM.IsPow2Int(0xFFFF_FFFE)
  {
    Pow2Widths();
    DM.BitLenExact(0xFFFF_FFFE, 31);
  }

  /** The multiplier for 2^63 and 0xFFFF_FFFE: ceil(2^63 / 0xFFFF_FFFE) = 0x8000_0002. */
  lemma {:induction false} AsWrittenMultiplier(m: nat)
    requires m == Num33(0xFFFF_FFFE, 63)
    ensures m == 0x8000_0002
  {
    var un := 0xFFFF_FFFE;
    Pow2Widths();
    MulCancelLess(m, 0x8000_0003, un);
    MulCancelLess(0x8000_0001, m, un);
  }

  /** The multiplier 0x8000_0002 with the shift 63 sends 0xFFFF_FFFD to 1. */
  lemma {:induction false} MisdividedValue(p: Magic, x: uint32, m: nat, b: nat)
    requires x == 0xFFFF_FFFD && m == 0x8000_0002 && b == 63
    requires DivBy(p, x) == (x * m / Pow2(b)) % TWO_32
    ensures DivBy(p, x) == 1
  {
    assert x * m == 0x8000_0000_7FFF_FFFA;
    Pow2Widths();
    DivModUnique(0x8000_0000_7FFF_FFFA, Pow2(63), 1, 0x7FFF_FFFA);
  }

  /** For n = 0xFFFF_FFFE the search bounded by 63 runs to its bound. */
  lemma {:induction false} SearchRunsOut(b: nat)
    requires b == Exponent(0xFFFF_FFFE, 1, CAP)
    ensures b == 63
  {
    if b < 63 {
      StillSearching(b);
    }
  }

  /** For n = 0xFFFF_FFFE the loop test holds at every b from 1 to 62. */
  lemma {:induction false} StillSearching(k: nat)
    requires 1 <= k < CAP
    ensures Searching(0xFFFF_FFFE, k, CAP)
  {
    var un := 0xFFFF_FFFE;
    Pow2Widths();
    assert Nc(un) == 0xFFFF_FFFD;
    ExcessLarge(k);
    var e := Excess(un, k);
    Pow2Monotone(k, 62);
    Pow2Add(31, 31);
    MulMonotone(Nc(un), 0x7FFF_FFFE, e);
  }

  /** For n = 0xFFFF_FFFE and b from 1 to 62, 2^b - 1 leaves a remainder of at most 2^31 - 1. */
  lemma {:induction false} ExcessLarge(k: nat)
    requires 1 <= k < CAP
    ensures 0x7FFF_FFFE <= Excess(0xFFFF_FFFE, k)
  {
    var un := 0xFFFF_FFFE;
    Pow2Widths();
    if k <= 31 {
      Pow2Monotone(k, 31);
      DivModUnique(Pow2(k) - 1, un, 0, Pow2(k) - 1);
    } else {
      Pow2Monotone(k - 31, 31);
      Pow2Add(k - 31, 31);
      Pow2Add(k - 32, 1);
      assert Pow2(k) - 1 == un * Pow2(k - 32) + (Pow2(k - 31) - 1);
      DivModUnique(Pow2(k) - 1, un, Pow2(k - 32), Pow2(k - 31) - 1);
    }
  }
}
