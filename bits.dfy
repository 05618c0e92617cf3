// Unsigned readings, halves of a `long`, and little-endian words over byte
// arrays, `char` arrays and strings.
// A byte array holds the unsigned reading of each byte (a `uint8`); a `char`
// array or string holds 16-bit code units. The `char[]` and `String`
// overloads read the same way and share one model over `seq<uint16>`.
// The byte-array readers take the array's contents.
module Bits {
  import opened JavaInt
  import opened Arith

  datatype Error = IllegalArgument
  datatype Result<T> = Ok(value: T) | Err(error: Error)

  //----------------------------------------------------------------------
  // Unsigned conversion

  /** `ubyte(n) = n & 0xFF`. */
  function UByte(n: int8): (r: uint8)
    ensures r == n % 0x100
  {
    if n < 0 then n + 0x100 else n
  }

  /** `ushort(n) = n & 0xFFFF`. */
  function UShort(n: int16): (r: uint16)
    ensures r == n % 0x1_0000
  {
    if n < 0 then n + 0x1_0000 else n
  }

  /** `uint(n) = n & 0xFFFF_FFFFL`. */
  function UInt(n: int32): (r: uint32)
    ensures r == n % TWO_32
  {
    if n < 0 then n + TWO_32 else n
  }

  /** The `(byte)` narrowing of an unsigned byte reading. */
  function ToByte(u: uint8): int8
  {
    if u < 0x80 then u else u - 0x100
  }

  /** The `(short)` narrowing of an unsigned 16-bit reading. */
  function ToShort(u: uint16): int16
  {
    if u < 0x8000 then u else u - 0x1_0000
  }

  lemma {:induction false} UnsignedRoundTrip(b: int8, s: int16, i: int32, ub: uint8, us: uint16)
    ensures ToByte(UByte(b)) == b && UByte(ToByte(ub)) == ub
    ensures ToShort(UShort(s)) == s && UShort(ToShort(us)) == us
    ensures Wrap32(UInt(i)) == i
  {
  }

  //----------------------------------------------------------------------
  // Combination

  /** `low(n) = (int) n`. */
  function Low(n: int64): int32
  {
    Wrap32(n)
  }

  /** `high(n) = (int) (n >>> 32)`: `>>>` works on the unsigned reading. */
  function High(n: int64): int32
  {
    Wrap32((n % TWO_64) / TWO_32)
  }

  /**
   * `concat(high, low) = ((long) high << 32) | uint(low)`. The shifted high
   * half has no bit below 32, so the `|` adds.
   */
  function Concat(high: int32, low: int32): int64
  {
    high * TWO_32 + UInt(low)
  }

  lemma {:induction false} ConcatHighLow(n: int64)
    ensures Concat(High(n), Low(n)) == n
  {
    var m := n % TWO_64;
    var q, r := m / TWO_32, m % TWO_32;
    assert m == TWO_32 * q + r && 0 <= r < TWO_32;
    UIntOfWrap(n);
    if n < 0 {
      DivModUnique(n, TWO_64, -1, n + TWO_64);
      DivModUnique(n, TWO_32, q - TWO_32, r);
      DivModUnique(q, TWO_32, 0, q);
      assert High(n) == q - TWO_32;
    } else {
      DivModUnique(n, TWO_64, 0, n);
      assert High(n) == q;
    }
  }

  /** The unsigned reading of `(int) x` is `x` modulo 2^32. */
  lemma {:induction false} UIntOfWrap(x: int)
    ensures UInt(Wrap32(x)) == x % TWO_32
  {
  }

  lemma {:induction false} HighLowOfConcat(h: int32, l: int32)
    ensures High(Concat(h, l)) == h
    ensures Low(Concat(h, l)) == l
  {
    var n := Concat(h, l);
    if h >= 0 {
      DivModUnique(n, TWO_32, h, UInt(l));
    } else {
      assert n % TWO_64 == (h + TWO_32) * TWO_32 + UInt(l);
      DivModUnique(n % TWO_64, TWO_32, h + TWO_32, UInt(l));
    }
    DivModUnique(n, TWO_32, h, UInt(l));
  }

  //----------------------------------------------------------------------
  // Little-endian words: the meaning of the byte-array views

  function Pow256(n: nat): (r: nat)
    ensures r >= 1
  {
    if n == 0 then 1 else 0x100 * Pow256(n - 1)
  }

  /** The number whose little-endian bytes are `bs`. */
  function LE(bs: seq<uint8>): (r: nat)
    ensures r < Pow256(|bs|)
  {
    if bs == [] then 0 else bs[0] + 0x100 * LE(bs[1..])
  }

  /** The `n` low bytes of `v`, least significant first. */
  function LEBytes(v: nat, n: nat): (bs: seq<uint8>)
    ensures |bs| == n
  {
    if n == 0 then [] else [v % 0x100] + LEBytes(v / 0x100, n - 1)
  }

  /** The number whose little-endian 16-bit units are `us`. */
  function LEUnits(us: seq<uint16>): nat
  {
    if us == [] then 0 else us[0] + 0x1_0000 * LEUnits(us[1..])
  }

  /** `s` with `bs` written over it from `off`. */
  function Splice<T>(s: seq<T>, off: nat, bs: seq<T>): (r: seq<T>)
    requires off + |bs| <= |s|
    ensures |r| == |s| && r[off..off + |bs|] == bs
    ensures forall k :: 0 <= k < |s| && !(off <= k < off + |bs|) ==> r[k] == s[k]
  {
    s[..off] + bs + s[off + |bs|..]
  }

  //----------------------------------------------------------------------
  // byte[] readers

  /** `le16(xs, off)`. */
  function Le16(xs: seq<uint8>, off: nat): (r: uint16)
    requires off + 2 <= |xs|
    ensures r == LE(xs[off..off + 2])
  {
    LEStep(xs, off, off + 2);
    LEStep(xs, off + 1, off + 2);
    (xs[off] as int) + 0x100 * (xs[off + 1] as int)
  }

  /** `le32(xs, off)`. */
  function Le32(xs: seq<uint8>, off: nat): (r: uint32)
    requires off + 4 <= |xs|
    ensures r == LE(xs[off..off + 4])
  {
    LEStep(xs, off, off + 4);
    LEStep(xs, off + 1, off + 4);
    LEStep(xs, off + 2, off + 4);
    LEStep(xs, off + 3, off + 4);
    (xs[off] as int) + 0x100 * (xs[off + 1] as int) + 0x1_0000 * (xs[off + 2] as int) + 0x100_0000 * (xs[off + 3] as int)
  }

  /** `le64(xs, off)`: the low word, then the high one. */
  function Le64(xs: seq<uint8>, off: nat): (r: uint64)
    requires off + 8 <= |xs|
    ensures r == LE(xs[off..off + 8])
  {
    LESplit(xs, off, off + 4, off + 8);
    Pow256Values();
    Le32(xs, off) + TWO_32 * Le32(xs, off + 4)
  }

  /**
   * `le32tail(xs, off, width)`: the `width` bytes from `off`, for a width of
   * 0 to 3. The switch falls through from `width` down to 0; the byte fields
   * do not overlap, so each `|=` adds.
   */
  function Le32Tail(xs: seq<uint8>, off: nat, width: int32): (r: Result<uint32>)
    requires 0 <= width <= 3 ==> off + width <= |xs|
    ensures r.Ok? <==> 0 <= width <= 3
    ensures r.Ok? ==> r.value == LE(xs[off..off + width])
  {
    LEPrefix(xs, off, width);
    if width == 3 then Ok((xs[off + 2] as int) * 0x1_0000 + (xs[off + 1] as int) * 0x100 + (xs[off] as int))
    else if width == 2 then Ok((xs[off + 1] as int) * 0x100 + (xs[off] as int))
    else if width == 1 then Ok(xs[off])
    else if width == 0 then Ok(0)
    else Err(IllegalArgument)
  }

  /** `le64tail(xs, off, width)`: a tail below 4 bytes, or a full word and a tail. */
  function Le64Tail(xs: seq<uint8>, off: nat, width: int32): (r: Result<uint64>)
    requires 0 <= width < 4 ==> off + width <= |xs|
    requires 4 <= width ==> off + 4 <= |xs| && (width <= 7 ==> off + width <= |xs|)
    ensures r.Ok? <==> 0 <= width <= 7
    ensures r.Ok? ==> r.value == LE(xs[off..off + width])
  {
    if width < 4 then
      match Le32Tail(xs, off, width)
      case Ok(t) => Ok(t)
      case Err(e) => Err(e)
    else
      var w := Le32(xs, off);
      match Le32Tail(xs, off + 4, width - 4)
      case Ok(t) =>
        Le64TailSplit(xs, off, width, w, t);
        Ok(w + TWO_32 * t)
      case Err(e) => Err(e)
  }

  /** A long tail is a full low word and, above it, the remaining bytes. */
  lemma {:induction false} Le64TailSplit(xs: seq<uint8>, off: nat, width: int, w: nat, t: nat)
    requires 4 <= width <= 7 && off + width <= |xs|
    requires w == LE(xs[off..off + 4]) && t == LE(xs[off + 4..off + width])
    ensures w + TWO_32 * t == LE(xs[off..off + width]) < TWO_64
  {
    LESplit(xs, off, off + 4, off + width);
    Pow256Values();
    Pow256Mono(width, 8);
  }

  //----------------------------------------------------------------------
  // byte[] writers

  /** The store behind the little-endian views: the `n` low bytes of `v` from `off`. */
  method StoreLE(xs: array<uint8>, off: nat, v: nat, n: nat)
    requires off + n <= xs.Length
    modifies xs
    ensures xs[..] == Splice(old(xs[..]), off, LEBytes(v, n))
  {
    var bs := LEBytes(v, n);
    forall k | off <= k < off + n {
      xs[k] := bs[k - off];
    }
    assert xs[..] == Splice(old(xs[..]), off, bs);
  }

  /** `le16(xs, off, v)`. */
  method SetLe16(xs: array<uint8>, off: nat, v: uint16)
    requires off + 2 <= xs.Length
    modifies xs
    ensures xs[..] == Splice(old(xs[..]), off, LEBytes(v, 2))
  {
    StoreLE(xs, off, v, 2);
  }

  /** `le32(xs, off, v)`. */
  method SetLe32(xs: array<uint8>, off: nat, v: uint32)
    requires off + 4 <= xs.Length
    modifies xs
    ensures xs[..] == Splice(old(xs[..]), off, LEBytes(v, 4))
  {
    StoreLE(xs, off, v, 4);
  }

  /** `le64(xs, off, v)`. */
  method SetLe64(xs: array<uint8>, off: nat, v: uint64)
    requires off + 8 <= xs.Length
    modifies xs
    ensures xs[..] == Splice(old(xs[..]), off, LEBytes(v, 8))
  {
    StoreLE(xs, off, v, 8);
  }

  /** `le32tail(xs, off, width, v)`: the `width` low bytes of v, falling through from the highest. */
  method SetLe32Tail(xs: array<uint8>, off: nat, width: int32, v: uint32) returns (r: Result<()>)
    requires 0 <= width <= 3 ==> off + width <= xs.Length
    modifies xs
    ensures r.Ok? <==> 0 <= width <= 3
    ensures r.Ok? ==> xs[..] == Splice(old(xs[..]), off, LEBytes(v, width))
    ensures r.Err? ==> xs[..] == old(xs[..])
  {
    if width < 0 || 3 < width {
      return Err(IllegalArgument);
    }
    if width >= 3 {
      xs[off + 2] := v / 0x1_0000 % 0x100;
    }
    if width >= 2 {
      xs[off + 1] := v / 0x100 % 0x100;
    }
    if width >= 1 {
      xs[off] := v % 0x100;
    }
    LEBytesAt(v, width);
    Shr8Values(v);
    assert xs[..] == Splice(old(xs[..]), off, LEBytes(v, width));
    return Ok(());
  }

  /**
   * `le64tail(xs, off, width, v)`: from width 4 on, the low word is stored
   * first and the rest goes to the 32-bit tail writer, which rejects a width
   * past 7 only after that word is written.
   */
  method SetLe64Tail(xs: array<uint8>, off: nat, width: int32, v: uint64) returns (r: Result<()>)
    requires 0 <= width < 4 ==> off + width <= xs.Length
    requires 4 <= width ==> off + 4 <= xs.Length && (width <= 7 ==> off + width <= xs.Length)
    modifies xs
    ensures r.Ok? <==> 0 <= width <= 7
    ensures r.Ok? ==> xs[..] == Splice(old(xs[..]), off, LEBytes(v, width))
    ensures r.Err? && width < 0 ==> xs[..] == old(xs[..])
    ensures r.Err? && 7 < width ==> xs[..] == Splice(old(xs[..]), off, LEBytes(v, 4))
  {
    var o, w, x := off, width, v;
    if width >= 4 {
      SetLe32(xs, off, v % TWO_32);
      o, w, x := off + 4, width - 4, v / TWO_32;
    }
    r := SetLe32Tail(xs, o, w, x % TWO_32);
    Pow256Values();
    if width >= 4 {
      LEBytesLow(v, 4, 4);
      if r.Ok? {
        LEBytesLow(x, w, 4);
        Shr8Values(v);
        LEBytesSplit(v, 4, w);
        SpliceTwice(old(xs[..]), off, LEBytes(v, 4), LEBytes(x, w));
      }
    } else if r.Ok? {
      LEBytesLow(v, w, 4);
    }
  }

  //----------------------------------------------------------------------
  // char[] and String readers

  /** `le32(xs, off) = xs[off] | (xs[off+1] << 16)`. */
  function Le32Chars(xs: seq<uint16>, off: nat): (r: uint32)
    requires off + 2 <= |xs|
    ensures r == LEUnits(xs[off..off + 2])
  {
    LEUnitsStep(xs, off, off + 2);
    LEUnitsStep(xs, off + 1, off + 2);
    (xs[off] as int) + 0x1_0000 * (xs[off + 1] as int)
  }

  /** `le32tail(xs, off, len)` over code units: none or one. */
  function Le32TailChars(xs: seq<uint16>, off: nat, len: int32): (r: Result<uint32>)
    requires 0 <= len <= 1 ==> off + len <= |xs|
    ensures r.Ok? <==> 0 <= len <= 1
    ensures r.Ok? ==> r.value == LEUnits(xs[off..off + len])
  {
    if len == 1 then
      LEUnitsStep(xs, off, off + 1);
      Ok(xs[off])
    else if len == 0 then Ok(0)
    else Err(IllegalArgument)
  }

  /** `le64(xs, off)` over code units: two 32-bit words, low first. */
  function Le64Chars(xs: seq<uint16>, off: nat): (r: uint64)
    requires off + 4 <= |xs|
    ensures r == LEUnits(xs[off..off + 4])
  {
    LEUnitsStep(xs, off, off + 4);
    LEUnitsStep(xs, off + 1, off + 4);
    LEUnitsStep(xs, off + 2, off + 4);
    LEUnitsStep(xs, off + 3, off + 4);
    Le32Chars(xs, off) + TWO_32 * Le32Chars(xs, off + 2)
  }

  /** `le64tail(xs, off, len)` over code units: up to three, falling through from the highest. */
  function Le64TailChars(xs: seq<uint16>, off: nat, len: int32): (r: Result<uint64>)
    requires 0 <= len <= 3 ==> off + len <= |xs|
    ensures r.Ok? <==> 0 <= len <= 3
    ensures r.Ok? ==> r.value == LEUnits(xs[off..off + len])
  {
    LEUnitsPrefix(xs, off, len);
    if len == 3 then Ok((xs[off + 2] as int) * TWO_32 + (xs[off + 1] as int) * 0x1_0000 + (xs[off] as int))
    else if len == 2 then Ok((xs[off + 1] as int) * 0x1_0000 + (xs[off] as int))
    else if len == 1 then Ok(xs[off])
    else if len == 0 then Ok(0)
    else Err(IllegalArgument)
  }

  //----------------------------------------------------------------------
  // Lemmas

  lemma {:induction false} LEStep(xs: seq<uint8>, a: nat, b: nat)
    requires a < b <= |xs|
    ensures LE(xs[a..b]) == xs[a] + 0x100 * LE(xs[a + 1..b])
  {
    assert xs[a..b][1..] == xs[a + 1..b];
  }

  lemma {:induction false} LEUnitsStep(xs: seq<uint16>, a: nat, b: nat)
    requires a < b <= |xs|
    ensures LEUnits(xs[a..b]) == xs[a] + 0x1_0000 * LEUnits(xs[a + 1..b])
  {
    assert xs[a..b][1..] == xs[a + 1..b];
  }

  /** The little-endian value of up to three bytes, written out. */
  lemma {:induction false} LEPrefix(xs: seq<uint8>, off: nat, w: int)
    requires 0 <= w <= 3 ==> off + w <= |xs|
    ensures w == 3 ==> LE(xs[off..off + w]) == (xs[off] as int) + 0x100 * (xs[off + 1] as int) + 0x1_0000 * (xs[off + 2] as int)
    ensures w == 2 ==> LE(xs[off..off + w]) == (xs[off] as int) + 0x100 * (xs[off + 1] as int)
    ensures w == 1 ==> LE(xs[off..off + w]) == xs[off]
    ensures w == 0 ==> LE(xs[off..off + w]) == 0
  {
    if w < 0 || 3 < w {
      return;
    }
    if w >= 1 {
      LEStep(xs, off, off + w);
    }
    if w >= 2 {
      LEStep(xs, off + 1, off + w);
    }
    if w >= 3 {
      LEStep(xs, off + 2, off + w);
    }
  }

  lemma {:induction false} LEUnitsPrefix(xs: seq<uint16>, off: nat, w: int)
    requires 0 <= w <= 3 ==> off + w <= |xs|
    ensures w == 3 ==> LEUnits(xs[off..off + w]) == xs[off] + 0x1_0000 * xs[off + 1] + TWO_32 * xs[off + 2]
    ensures w == 2 ==> LEUnits(xs[off..off + w]) == (xs[off] as int) + 0x1_0000 * (xs[off + 1] as int)
    ensures w == 1 ==> LEUnits(xs[off..off + w]) == xs[off]
    ensures w == 0 ==> LEUnits(xs[off..off + w]) == 0
  {
    if w < 0 || 3 < w {
      return;
    }
    if w >= 1 {
      LEUnitsStep(xs, off, off + w);
    }
    if w >= 2 {
      LEUnitsStep(xs, off + 1, off + w);
    }
    if w >= 3 {
      LEUnitsStep(xs, off + 2, off + w);
    }
  }

  /** A little-endian word is its low part plus its high part shifted past it. */
  lemma {:induction false} LEAppend(a: seq<uint8>, b: seq<uint8>)
    ensures LE(a + b) == LE(a) + Pow256(|a|) * LE(b)
  {
    if a != [] {
      assert (a + b)[1..] == a[1..] + b;
      LEAppend(a[1..], b);
      var p, x, y := Pow256(|a| - 1), LE(b), LE(a[1..]);
      assert LE(a + b) == a[0] + 0x100 * (y + p * x);
      assert LE(a) == a[0] + 0x100 * y;
      assert Pow256(|a|) == 0x100 * p;
      MulAssoc(0x100, p, x);
    } else {
      assert a + b == b;
    }
  }

  lemma {:induction false} LESplit(xs: seq<uint8>, a: nat, m: nat, b: nat)
    requires a <= m <= b <= |xs|
    ensures LE(xs[a..b]) == LE(xs[a..m]) + Pow256(m - a) * LE(xs[m..b])
  {
    assert xs[a..b] == xs[a..m] + xs[m..b];
    LEAppend(xs[a..m], xs[m..b]);
  }

  /** Reading back the bytes written for `v` gives `v` modulo the width. */
  lemma {:induction false} LERoundTrip(v: nat, n: nat)
    ensures LE(LEBytes(v, n)) == v % Pow256(n)
  {
    if n > 0 {
      LERoundTrip(v / 0x100, n - 1);
      assert LEBytes(v, n)[1..] == LEBytes(v / 0x100, n - 1);
      DivDiv(v, 0x100, Pow256(n - 1));
    }
  }

  /** Writing back the value read from some bytes reproduces them. */
  lemma {:induction false} LEBytesOfLE(bs: seq<uint8>)
    ensures LEBytes(LE(bs), |bs|) == bs
  {
    if bs != [] {
      LEBytesOfLE(bs[1..]);
      DivModUnique(LE(bs), 0x100, LE(bs[1..]), bs[0]);
    }
  }

  /** `v >>> 8k`. */
  function Shr8(v: nat, k: nat): nat
  {
    if k == 0 then v else Shr8(v / 0x100, k - 1)
  }

  lemma {:induction false} Shr8Values(v: nat)
    ensures Shr8(v, 1) == v / 0x100 && Shr8(v, 2) == v / 0x1_0000 && Shr8(v, 4) == v / TWO_32
  {
    var a1 := v / 0x100;
    var a2 := a1 / 0x100;
    var a3 := a2 / 0x100;
    var a4 := a3 / 0x100;
    assert Shr8(v, 4) == Shr8(a1, 3) == Shr8(a2, 2) == Shr8(a3, 1) == a4;
    assert Shr8(v, 2) == Shr8(a1, 1) == a2;
    DivDiv(v, 0x100, 0x100);
    DivDiv(v, 0x1_0000, 0x100);
    DivDiv(v, 0x100_0000, 0x100);
  }

  /** Byte k of the encoding of v. */
  lemma {:induction false} LEBytesAt(v: nat, n: nat)
    ensures forall k :: 0 <= k < n ==> LEBytes(v, n)[k] == Shr8(v, k) % 0x100
  {
    if n > 0 {
      LEBytesAt(v / 0x100, n - 1);
      assert forall k :: 0 < k < n ==> LEBytes(v, n)[k] == LEBytes(v / 0x100, n - 1)[k - 1];
    }
  }

  /** The encoding of v over n + m bytes is its n low bytes, then the m bytes of what is left. */
  lemma {:induction false} LEBytesSplit(v: nat, n: nat, m: nat)
    ensures LEBytes(v, n + m) == LEBytes(v, n) + LEBytes(Shr8(v, n), m)
  {
    if n > 0 {
      LEBytesSplit(v / 0x100, n - 1, m);
      assert LEBytes(v, n + m) == [v % 0x100] + LEBytes(v / 0x100, n - 1 + m);
    }
  }

  /** Dropping bits above the j low bytes does not change the n <= j low ones. */
  lemma {:induction false} LEBytesLow(v: nat, n: nat, j: nat)
    requires n <= j
    ensures LEBytes(v % Pow256(j), n) == LEBytes(v, n)
  {
    if n > 0 {
      var p := Pow256(j - 1);
      DivDiv(v, 0x100, p);
      var x := v % Pow256(j);
      assert x == v % 0x100 + 0x100 * (v / 0x100 % p);
      DivModUnique(x, 0x100, v / 0x100 % p, v % 0x100);
      LEBytesLow(v / 0x100, n - 1, j - 1);
    }
  }

  lemma {:induction false} Pow256Mono(m: nat, n: nat)
    requires m <= n
    ensures Pow256(m) <= Pow256(n)
    decreases n
  {
    if m < n {
      Pow256Mono(m, n - 1);
    }
  }

  lemma {:induction false} Pow256Values()
    ensures Pow256(1) == 0x100 && Pow256(2) == 0x1_0000 && Pow256(3) == 0x100_0000
    ensures Pow256(4) == TWO_32 && Pow256(8) == TWO_64
  {
    assert Pow256(4) == TWO_32;
    assert Pow256(8) == TWO_64;
  }

  lemma {:induction false} SpliceTwice(s: seq<uint8>, off: nat, a: seq<uint8>, b: seq<uint8>)
    requires off + |a| + |b| <= |s|
    ensures Splice(Splice(s, off, a), off + |a|, b) == Splice(s, off, a + b)
  {
  }

  /** A word written through the tail writer reads back, masked to the bytes written. */
  lemma {:induction false} Le32TailRoundTrip(s: seq<uint8>, off: nat, width: int32, v: uint32)
    requires 0 <= width <= 3 && off + width <= |s|
    ensures Le32Tail(Splice(s, off, LEBytes(v, width)), off, width) == Ok(v % Pow256(width))
  {
    LERoundTrip(v, width);
  }

  lemma {:induction false} Le64TailRoundTrip(s: seq<uint8>, off: nat, width: int32, v: uint64)
    requires 0 <= width <= 7 && off + width <= |s|
    ensures Le64Tail(Splice(s, off, LEBytes(v, width)), off, width) == Ok(v % Pow256(width))
  {
    LERoundTrip(v, width);
  }

  /** The full-width words round-trip. */
  lemma {:induction false} Le16RoundTrip(s: seq<uint8>, off: nat, v: uint16)
    requires off + 2 <= |s|
    ensures Le16(Splice(s, off, LEBytes(v, 2)), off) == v
  {
    LERoundTrip(v, 2);
  }

  lemma {:induction false} Le32RoundTrip(s: seq<uint8>, off: nat, v: uint32)
    requires off + 4 <= |s|
    ensures Le32(Splice(s, off, LEBytes(v, 4)), off) == v
  {
    var bs := LEBytes(v, 4);
    var t := Splice(s, off, bs);
    assert t[off..off + 4] == bs;
    Pow256Values();
    LERoundTrip(v, 4);
    assert v % Pow256(4) == v;
    assert LE(t[off..off + 4]) == v;
  }

  lemma {:induction false} Le64RoundTrip(s: seq<uint8>, off: nat, v: uint64)
    requires off + 8 <= |s|
    ensures Le64(Splice(s, off, LEBytes(v, 8)), off) == v
  {
    var bs := LEBytes(v, 8);
    var t := Splice(s, off, bs);
    assert t[off..off + 8] == bs;
    Pow256Values();
    LERoundTrip(v, 8);
    assert v % Pow256(8) == v;
    assert LE(t[off..off + 8]) == v;
  }
}
