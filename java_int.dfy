// Java's fixed-width integers, stated over Dafny's unbounded integers.
// Java's `int` and `long` are two's-complement and wrap around on overflow;
// its `/` truncates toward zero. Dafny's `int` does neither, so both are
// written out here and used wherever the overflow or the sign matters.
// Where the source works on bit patterns, a value is its unsigned reading
// (a `uint8`, `uint32` or `uint64`) and the bitwise operators are the
// specification functions below.
module JavaInt {

  const TWO_32: int := 0x1_0000_0000
  const TWO_64: int := 0x1_0000_0000_0000_0000
  const INT_MIN: int := -0x8000_0000
  const INT_MAX: int := 0x7FFF_FFFF
  const LONG_MIN: int := -0x8000_0000_0000_0000
  const LONG_MAX: int := 0x7FFF_FFFF_FFFF_FFFF
  /** The width in bits of a Java `int` and `long`. */
  const INT_BITS: nat := 32
  const LONG_BITS: nat := 64

  /** The values of Java's `byte`, `short`, `int` and `long`. */
  type int32 = x: int | INT_MIN <= x <= INT_MAX

  type int8 = x: int | -0x80 <= x < 0x80
  type int16 = x: int | -0x8000 <= x < 0x8000
  type int64 = x: int | LONG_MIN <= x <= LONG_MAX

  /** Unsigned readings of Java's `byte`, `short`/`char`, `int` and `long` bit patterns. */
  type uint8 = x: int | 0 <= x < 0x100
  type uint16 = x: int | 0 <= x < 0x1_0000
  type uint32 = x: int | 0 <= x < 0x1_0000_0000
  type uint64 = x: int | 0 <= x < 0x1_0000_0000_0000_0000

  /** Arithmetic modulo 2^32, read back as a signed `int`. */
  function Wrap32(x: int): (r: int32)
    ensures INT_MIN <= x <= INT_MAX ==> r == x
  {
    var m := x % TWO_32;
    if m <= INT_MAX then m else m - TWO_32
  }

  /** Arithmetic modulo 2^64, read back as a signed `long`. */
  function Wrap64(x: int): (r: int64)
    ensures LONG_MIN <= x <= LONG_MAX ==> r == x
  {
    var m := x % TWO_64;
    if m <= LONG_MAX then m else m - TWO_64
  }

  /** The bit pattern of `n - 1` for an `int`/`long` whose pattern reads `u`: wraps at zero. */
  function Dec32(u: uint32): uint32 { if u == 0 then 0xFFFF_FFFF else u - 1 }
  function Dec64(u: uint64): uint64 { if u == 0 then 0xFFFF_FFFF_FFFF_FFFF else u - 1 }

  /** Java's `/` on `int`: truncation toward zero, with `MIN_VALUE / -1` wrapping to `MIN_VALUE`. */
  function Quot(a: int32, b: int32): (r: int32)
    requires b != 0
    ensures 0 <= a && 0 < b ==> r == a / b
    ensures a < 0 && 0 < b ==> r == -((-(a as int)) / b)
  {
    var x, y := a as int, b as int;
    var q := Abs(x) / Abs(y);
    QuotRange(x, y);
    if x == INT_MIN && y == -1 then INT_MIN
    else if (x < 0) == (y < 0) then q
    else -q
  }

  /** The quotient of two `int` magnitudes fits an `int`, except for `MIN_VALUE / -1`, and is negatable. */
  lemma {:induction false} QuotRange(x: int, y: int)
    requires INT_MIN <= x <= INT_MAX && INT_MIN <= y <= INT_MAX && y != 0
    ensures Abs(x) / Abs(y) <= -INT_MIN
    ensures !(x == INT_MIN && y == -1) && (x < 0) == (y < 0) ==> Abs(x) / Abs(y) <= INT_MAX
  {
    DivAtMost(Abs(x), Abs(y));
    if 2 <= Abs(y) {
      DivHalf(Abs(x), Abs(y));
    }
  }

  /** Dividing by at least 2 at least halves. */
  lemma {:induction false} DivHalf(n: int, d: int)
    requires 0 <= n && 2 <= d
    ensures 0 <= n / d && 2 * (n / d) <= n
  {
    var q, r := n / d, n % d;
    assert n == d * q + r && 0 <= r < d;
    if q < 0 {
      MulNonneg(d, -q);
      assert false;
    }
    MulNonneg(d - 2, q);
    assert d * q == 2 * q + (d - 2) * q;
  }

  lemma {:induction false} MulNonneg(a: int, b: int)
    requires 0 <= a && 0 <= b
    ensures 0 <= a * b
  {
  }

  function Abs(x: int): nat { if x < 0 then -x else x }

  lemma {:induction false} DivAtMost(x: nat, y: nat)
    requires 1 <= y
    ensures x / y <= x
    ensures y == 1 ==> x / y == x
  {
  }

  //----------------------------------------------------------------------
  // Powers of two and bitwise operators on unsigned readings

  /** Two to the power `k`. */
  function Pow2(k: nat): (r: nat)
    ensures r >= 1
  {
    if k == 0 then 1 else 2 * Pow2(k - 1)
  }

  /** `a & b`. */
  function And(a: nat, b: nat): nat
  {
    if a == 0 || b == 0 then 0 else 2 * And(a / 2, b / 2) + (if a % 2 == 1 && b % 2 == 1 then 1 else 0)
  }

  lemma {:induction false} Pow2Add(a: nat, b: nat)
    ensures Pow2(a + b) == Pow2(a) * Pow2(b)
  {
    if a > 0 {
      Pow2Add(a - 1, b);
    }
  }

  lemma {:induction false} Pow2Monotone(a: nat, b: nat)
    requires a <= b
    ensures Pow2(a) <= Pow2(b)
  {
    if a < b {
      Pow2Monotone(a, b - 1);
    }
  }

  lemma {:induction false} Pow2Widths()
    ensures Pow2(8) == 0x100 && Pow2(16) == 0x1_0000
    ensures Pow2(31) == 0x8000_0000 && Pow2(32) == TWO_32
    ensures Pow2(63) == 0x8000_0000_0000_0000 && Pow2(64) == TWO_64
  {
    assert Pow2(4) == 16;
    assert Pow2(8) == 0x100;
    Pow2Add(8, 8);
    Pow2Add(16, 15);
    Pow2Add(16, 16);
    Pow2Add(32, 31);
    Pow2Add(32, 32);
  }

  lemma {:induction false} AndSelf(a: nat)
    ensures And(a, a) == a
  {
    if a > 0 {
      AndSelf(a / 2);
    }
  }
}
