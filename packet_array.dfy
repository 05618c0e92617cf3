// `PacketArray`: an array of unsigned entries of a fixed width of 1 to 57
// bits, packed one after the other into the bit string of a byte array view:
// entry i is the field of `width` bits starting at bit `off + i * width`
// (`BitOps.Field`), so that the entries are `EntriesOf(Bytes(), off, width,
// len)`. Each access reads, and writes back, the 32- or 64-bit word at the
// byte holding the entry's first bit. The unchecked kinds read padded words
// and write clamped ones, so they work up to the last byte of the view; the
// fast kinds read and write whole words, which their factory makes sure
// fit the view.
module PacketArray {
  import opened JavaInt
  import opened Bits
  import opened BitOps
  import opened Arith
  import BA = ByteArray
  import B = Bounds

  /** The widest entry on 32-bit words and on 64-bit words: it must fit a word from any bit of its first byte. */
  const MAX_WIDTH_32: nat := 3 * 8 + 1
  const MAX_WIDTH_64: nat := 7 * 8 + 1

  /** The four implementations. */
  datatype Kind = Unchecked32 | Unchecked64 | Fast32 | Fast64
  {
    /** Works on 32-bit words (`OnByteArray32`); otherwise on 64-bit ones. */
    predicate Narrow() { this == Unchecked32 || this == Fast32 }

    /** Reads and writes whole words (`FastOnByteArray32/64`); otherwise padded reads and clamped writes. */
    predicate Fast() { this == Fast32 || this == Fast64 }

    function WordBytes(): nat { if Narrow() then 4 else 8 }

    function MaxWidth(): nat { if Narrow() then MAX_WIDTH_32 else MAX_WIDTH_64 }

    /** The kind `instance` builds for a subarray: the unchecked one of the same word size. */
    function Instance(): Kind { if Narrow() then Unchecked32 else Unchecked64 }
  }

  /**
   * The first bit of entry j of `width`-bit entries laid out from bit off:
   * where entry j - 1 ends, that is `off + j * width` (`StartProduct`).
   * Stated by recursion, the solver meets no product of two variables.
   */
  function Start(off: nat, width: nat, j: nat): nat
  {
    if j == 0 then off else Start(off, width, j - 1) + width
  }

  /** The n entries of `width` bits from bit `off` of the bit string of C. */
  ghost function EntriesOf(C: seq<uint8>, off: nat, width: nat, n: nat): (E: seq<nat>)
    ensures |E| == n
  {
    if n == 0 then [] else EntriesOf(C, off, width, n - 1) + [Field(C, Start(off, width, n - 1), width)]
  }

  /** Entry j is the field of `width` bits at the start of entry j. */
  lemma {:induction false} EntryAt(C: seq<uint8>, off: nat, width: nat, n: nat, j: nat)
    requires j < n
    ensures EntriesOf(C, off, width, n)[j] == Field(C, Start(off, width, j), width)
    decreases n
  {
    if j < n - 1 {
      EntryAt(C, off, width, n - 1, j);
    }
  }

  /** A value below 2 to the word bits of a kind fits that kind's word type. */
  lemma {:induction false} WordFits(nw: nat, k: Kind, WB: nat)
    requires WB == 8 * k.WordBytes() && nw < Pow2(WB)
    ensures k.Narrow() ==> nw < TWO_32
    ensures nw < TWO_64
  {
    Pow2Widths();
  }

  class OnByteArray {
    const st: BA.UncheckedOnBytes
    const kind: Kind
    const width: nat
    const off: nat
    const len: nat
    /** `~(-1 << width)` on a word of the kind. */
    const mask: nat

    /**
     * The byte view is well formed, the width is one the kind supports, the
     * mask holds the `width` low bits, the entries lie inside the view, and
     * for a fast kind the word of the last entry (and so of every entry)
     * lies inside the view.
     */
    ghost predicate Valid()
    {
      st.Valid() && 1 <= width <= kind.MaxWidth() && mask == Pow2(width) - 1
      && Start(off, width, len) <= 8 * st.len
      && (kind.Fast() && 0 < len ==> Start(off, width, len - 1) / 8 + kind.WordBytes() <= st.len)
    }

    /** The bytes of the store. */
    ghost function Bytes(): seq<uint8>
      reads st.st
      requires st.Valid()
    {
      st.Contents()
    }

    /** The entries. */
    ghost function Entries(): seq<nat>
      reads st.st
      requires st.Valid()
    {
      EntriesOf(Bytes(), off, width, len)
    }

    /** The constructors of the four classes; `OnByteArray32/64` compute the mask. */
    constructor (store: BA.UncheckedOnBytes, k: Kind, w: nat, bitoff: nat, entries: nat)
      requires 1 <= w < 8 * k.WordBytes()
      ensures st == store && kind == k && width == w && off == bitoff && len == entries
      ensures mask == Pow2(w) - 1
    {
      st := store;
      kind := k;
      width := w;
      off := bitoff;
      len := entries;
      var WB := 8 * k.WordBytes();
      JavaLowMask(w, WB);
      mask := Not(Shl(Pow2(WB) - 1, w, WB), WB);
    }

    /** `entryWidth()`. */
    function EntryWidth(): (w: nat)
      ensures w == width
    {
      width
    }

    /** `size()`. */
    function Size(): (n: nat)
      ensures n == len
    {
      len
    }

    /** The first bit of entry i. */
    function Pos(i: nat): nat
    {
      Start(off, width, i)
    }

    /** `block8(i)`: the byte holding the first bit of entry i. */
    function Block8(i: nat): (b: nat)
      ensures 8 * b <= Pos(i) < 8 * b + 8
    {
      Pos(i) / 8
    }

    /** `shift8(i)`: the place of that bit in its byte. */
    function Shift8(i: nat): (s: nat)
      ensures s < 8 && Pos(i) == 8 * Block8(i) + s
    {
      Pos(i) % 8
    }

    function WordBits(): nat
    {
      8 * kind.WordBytes()
    }

    /** The bytes a word access at byte b covers: the whole word, or for an unchecked kind what is left of the view. */
    function Span(b: nat): nat
      requires b <= st.len
    {
      if kind.Fast() then kind.WordBytes() else BA.Min(kind.WordBytes(), st.len - b)
    }

    /** The first bit of entry i lies in the view, and for a fast kind its whole word does. */
    lemma {:induction false} BlockInView(i: nat)
      requires Valid() && i < len
      ensures Block8(i) < st.len && Shift8(i) + width <= WordBits()
      ensures kind.Fast() ==> Block8(i) + kind.WordBytes() <= st.len
    {
      Order(off, width, i, len);
      if kind.Fast() && i < len - 1 {
        Order(off, width, i, len - 1);
      }
    }

    //------------------------------------------------------------------
    // Words

    /** `pget32`, `pget64`, `get32` or `get64` at byte b: the word there, padded with zeros past the view. */
    method GetWord(b: nat) returns (u: nat)
      requires Valid() && b < st.len && (kind.Fast() ==> b + kind.WordBytes() <= st.len)
      ensures u == LE(Bytes()[b..b + Span(b)])
      ensures u < Pow2(WordBits())
    {
      match kind {
        case Unchecked32 =>
          u := st.GetPaddedInt(b);
        case Unchecked64 =>
          u := st.GetPaddedLong(b);
        case Fast32 =>
          u := st.GetInt(b);
        case Fast64 =>
          u := st.GetLong(b);
      }
      WordBound(Bytes()[b..b + Span(b)], kind.WordBytes(), WordBits());
    }

    /** `cset32`, `cset64`, `set32` or `set64` at byte b: the `Span(b)` low bytes of nw. */
    method PutWord(b: nat, nw: nat)
      requires Valid() && b < st.len && (kind.Fast() ==> b + kind.WordBytes() <= st.len)
      requires nw < Pow2(WordBits())
      modifies st.st
      ensures Bytes() == Splice(old(Bytes()), b, LEBytes(nw, Span(b)))
      ensures BA.OutsideUnchanged(old(st.st[..]), st.st[..], st.off, st.len)
    {
      WordFits(nw, kind, WordBits());
      match kind {
        case Unchecked32 =>
          st.SetClampedInt(b, nw as uint32);
        case Unchecked64 =>
          st.SetClampedLong(b, nw as uint64);
        case Fast32 =>
          st.SetInt(b, nw as uint32);
        case Fast64 =>
          st.SetLong(b, nw as uint64);
      }
    }

    //------------------------------------------------------------------
    // Entries

    /** `get(i)`: `(word >>> shift8(i)) & mask`, the word being read at `block8(i)`. */
    method Get(i: nat) returns (r: nat)
      requires Valid() && i < len
      ensures r == Entries()[i] && r < Pow2(width)
    {
      BlockInView(i);
      var b, s := Block8(i), Shift8(i);
      var u := GetWord(b);
      r := And(Shr(u, s), mask);
      ReadEntry(Bytes(), off, width, len, i, b, Span(b), kind.WordBytes(), s, u, mask);
    }

    /**
     * `v & mask`, the value `set` and `orblend` write, with v first cast to
     * `int` on 32-bit words: the `width` low bits of v.
     */
    method Masked(v: int64) returns (f: nat)
      requires Valid()
      ensures f == LowBits(v, width)
    {
      var x: nat := if kind.Narrow() then UInt(Wrap32(v)) as nat else v % TWO_64;
      UIntOfWrap(v);
      Pow2Widths();
      ModPow2Mod(v, width, WordBits());
      LowBitsMod(x, width);
      LowBitsMod(v, width);
      f := And(x, mask);
      LowValue(x, v, width, mask, f);
    }

    /**
     * `set(i, v)`: `word & ~(mask << s) | ((v & mask) << s)` written back;
     * entry i becomes the `width` low bits of v and no other bit changes.
     */
    method Set(i: nat, v: int64)
      requires Valid() && i < len
      modifies st.st
      ensures FieldWritten(old(Bytes()), Bytes(), Pos(i), width, LowBits(v, width))
      ensures Entries() == old(Entries())[i := LowBits(v, width)]
      ensures BA.OutsideUnchanged(old(st.st[..]), st.st[..], st.off, st.len)
    {
      BlockInView(i);
      var b, s := Block8(i), Shift8(i);
      var u := GetWord(b);
      var f := Masked(v);
      var nw := Deposit(u, s, mask, f, width, WordBits());
      WriteField(i, b, s, u, nw, f);
    }

    /** `orblend(i, v)`: `word | ((v & mask) << s)` written back; entry i is or-ed with the `width` low bits of v. */
    method Orblend(i: nat, v: int64)
      requires Valid() && i < len
      modifies st.st
      ensures FieldWritten(old(Bytes()), Bytes(), Pos(i), width, Or(old(Entries())[i], LowBits(v, width)))
      ensures Entries() == old(Entries())[i := Or(old(Entries())[i], LowBits(v, width))]
      ensures BA.OutsideUnchanged(old(st.st[..]), st.st[..], st.off, st.len)
    {
      BlockInView(i);
      var b, s := Block8(i), Shift8(i);
      var u := GetWord(b);
      ghost var e := And(Shr(u, s), mask);
      var f := Masked(v);
      var nw := Blend(u, s, f, width, WordBits(), e);
      assert e == Entries()[i] && Or(e, f) < Pow2(width) by {
        ReadEntry(Bytes(), off, width, len, i, b, Span(b), kind.WordBytes(), s, u, mask);
        OrBound(e, f, width);
      }
      WriteField(i, b, s, u, nw, Or(e, f));
    }

    /**
     * The word at `block8(i)`, read as u, written back as nw, which holds
     * the bits of u but for the `width` bits from s, which hold g: entry i
     * becomes g and no other bit changes.
     */
    method WriteField(i: nat, b: nat, s: nat, u: nat, nw: nat, ghost g: nat)
      requires Valid() && i < len && b == Block8(i) && s == Shift8(i)
      requires b < st.len && (kind.Fast() ==> b + kind.WordBytes() <= st.len)
      requires u == LE(Bytes()[b..b + Span(b)]) && nw < Pow2(WordBits()) && g < Pow2(width)
      requires forall t :: 0 <= t < WordBits() ==> Bit(nw, t) == if s <= t < s + width then Bit(g, t - s) else Bit(u, t)
      modifies st.st
      ensures FieldWritten(old(Bytes()), Bytes(), Pos(i), width, g)
      ensures Entries() == old(Entries())[i := g]
      ensures BA.OutsideUnchanged(old(st.st[..]), st.st[..], st.off, st.len)
    {
      BlockInView(i);
      ghost var C0 := Bytes();
      PutWord(b, nw);
      WriteEntry(C0, Bytes(), off, width, len, i, b, Span(b), kind.WordBytes(), s, u, nw, g);
    }

    /**
     * `clear(init, end)`: the byte view's bit-range clear from the first bit
     * of entry init to the first bit of entry end. Those entries become 0;
     * no other bit changes.
     */
    method Clear(init: nat, end: nat)
      requires Valid() && init <= end <= len
      modifies st.st
      ensures forall q :: 0 <= q < 8 * st.len ==>
        StoreBit(Bytes(), q) == if Pos(init) <= q < Pos(end) then 0 else old(StoreBit(Bytes(), q))
      ensures |Entries()| == len
      ensures forall j :: 0 <= j < len ==> Entries()[j] == if init <= j < end then 0 else old(Entries())[j]
      ensures BA.OutsideUnchanged(old(st.st[..]), st.st[..], st.off, st.len)
    {
      ghost var V0 := Bytes();
      if init < end {
        Order(off, width, init, end);
      }
      if end < len {
        Order(off, width, end, len);
      }
      var binit, sinit := Block8(init), Shift8(init);
      var bend, send := Block8(end), Shift8(end);
      st.ClearBits(binit, sinit, bend, send);
      ghost var V := Bytes();
      EntriesCleared(V0, V, off, width, len, init, end, 8 * binit + sinit, 8 * bend + send, 8 * st.len);
    }

    /** `clear()`: every entry becomes 0. */
    method ClearAll()
      requires Valid()
      modifies st.st
      ensures forall q :: 0 <= q < 8 * st.len ==>
        StoreBit(Bytes(), q) == if off <= q < Pos(len) then 0 else old(StoreBit(Bytes(), q))
      ensures |Entries()| == len && forall j :: 0 <= j < len ==> Entries()[j] == 0
      ensures BA.OutsideUnchanged(old(st.st[..]), st.st[..], st.off, st.len)
    {
      Clear(0, Size());
    }

    //------------------------------------------------------------------
    // Sub-views

    /**
     * `subarray(init, end)`: the unchecked view of the same word size over
     * the entries [init, end), with no bound checking; inside the bounds it
     * is a view of exactly those entries.
     */
    method Subarray(init: nat, end: nat) returns (r: OnByteArray)
      requires Valid() && init <= end
      ensures fresh(r) && r.st == st && r.kind == kind.Instance() && r.width == width
      ensures r.off == Pos(init) && r.len == end - init
      ensures end <= len ==> r.Valid() && r.Entries() == Entries()[init..end]
    {
      var p, m := Pos(init), end - init;
      r := new OnByteArray(st, kind.Instance(), width, p, m);
      if end <= len {
        SubarrayEntries(Bytes(), off, width, len, init, end, m);
      }
    }

    /**
     * `subarrayClamped(init, end)` in the code: the clamped bounds are
     * computed and dropped, and the raw bounds are passed on.
     */
    method SubarrayClamped(init: nat, end: nat) returns (r: OnByteArray)
      requires Valid() && init <= end
      ensures fresh(r) && r.st == st && r.kind == kind.Instance() && r.width == width
      ensures r.off == Pos(init) && r.len == end - init
    {
      var effinit := B.Clamp(0, init, Size());
      var effend := B.Clamp(effinit, end, Size());
      r := Subarray(init, end);
    }

    /** The view of the clamped bounds, which is what `subarrayClamped(init, end)` is for. */
    method SubarrayClampedOfRange(init: int, end: int) returns (r: OnByteArray)
      requires Valid()
      ensures fresh(r) && r.st == st && r.Valid() && r.width == width
      ensures r.Entries() == Entries()[B.Clamp(0, init, len)..B.Clamp(B.Clamp(0, init, len), end, len)]
      ensures 0 <= init <= end <= len ==> r.Entries() == Entries()[init..end]
    {
      var effinit := B.Clamp(0, init, Size());
      var effend := B.Clamp(effinit, end, Size());
      r := Subarray(effinit, effend);
    }
  }

  /**
   * Every bit of C is that of C0, except the w bits from p, which are those
   * of g.
   */
  ghost predicate FieldWritten(C0: seq<uint8>, C: seq<uint8>, p: nat, w: nat, g: nat)
  {
    |C| == |C0| && forall q :: 0 <= q < 8 * |C| ==> StoreBit(C, q) == if p <= q < p + w then Bit(g, q - p) else StoreBit(C0, q)
  }

  //----------------------------------------------------------------------
  // Factories

  /** Java's `n / 8` on an `int`: truncation toward zero. */
  function Div8(n: int): (r: int)
    ensures 0 <= n ==> 8 * r <= n < 8 * r + 8
    ensures n < 0 ==> 8 * r - 8 < n <= 8 * r
  {
    if 0 <= n then n / 8 else -((-n) / 8)
  }

  /** The store size `fast` demands: the byte of the last entry's first bit and a whole word from there. */
  function MinSize(width: nat, bitoff: nat, entries: nat): int
  {
    Div8(bitoff + width * (entries - 1)) + (if width <= MAX_WIDTH_32 then 4 else 8)
  }

  /**
   * `unchecked(store, width, bitoff, entries)`: the 32-bit kind up to
   * `MAX_WIDTH_32`, the 64-bit kind up to `MAX_WIDTH_64`, and an illegal
   * width error beyond.
   */
  method Unchecked(store: BA.UncheckedOnBytes, width: nat, bitoff: nat, entries: nat) returns (r: Result<OnByteArray>)
    requires 1 <= width
    ensures r.Ok? <==> width <= MAX_WIDTH_64
    ensures r.Ok? ==> (fresh(r.value) && r.value.st == store && r.value.width == width
      && r.value.off == bitoff && r.value.len == entries
      && r.value.kind == (if width <= MAX_WIDTH_32 then Unchecked32 else Unchecked64))
    ensures r.Ok? && store.Valid() && bitoff + entries * width <= 8 * store.len ==> r.value.Valid()
  {
    StartProduct(bitoff, width, entries);
    if width <= MAX_WIDTH_32 {
      var a := new OnByteArray(store, Unchecked32, width, bitoff, entries);
      r := Ok(a);
    } else if width <= MAX_WIDTH_64 {
      var a := new OnByteArray(store, Unchecked64, width, bitoff, entries);
      r := Ok(a);
    } else {
      r := Err(IllegalArgument);
    }
  }

  /** `unchecked(store, width)`: as many entries as the store holds, from bit 0. */
  method UncheckedAll(store: BA.UncheckedOnBytes, width: nat) returns (r: Result<OnByteArray>)
    requires store.Valid() && 1 <= width
    ensures r.Ok? <==> width <= MAX_WIDTH_64
    ensures r.Ok? ==> (fresh(r.value) && r.value.Valid() && r.value.st == store && r.value.width == width
      && r.value.off == 0 && r.value.len == (8 * store.len) / width)
  {
    var n := (8 * store.Size()) / width;
    DivMulBound(8 * store.len, width);
    StartProduct(0, width, n);
    r := Unchecked(store, width, 0, n);
  }

  /**
   * `fast(store, width, bitoff, entries)`: an illegal width error outside
   * [1, `MAX_WIDTH_64`], an error when the store is smaller than `MinSize`,
   * and otherwise the fast kind of the word size for the width, every
   * entry's word then lying inside the store.
   */
  method Fast(store: BA.UncheckedOnBytes, width: int, bitoff: nat, entries: nat) returns (r: Result<OnByteArray>)
    requires store.Valid()
    ensures r.Ok? <==> 1 <= width <= MAX_WIDTH_64 && MinSize(width, bitoff, entries) <= store.len
    ensures r.Ok? ==> (fresh(r.value) && r.value.Valid() && r.value.st == store && r.value.width == width
      && r.value.off == bitoff && r.value.len == entries
      && r.value.kind == (if width <= MAX_WIDTH_32 then Fast32 else Fast64))
  {
    if width <= 0 || MAX_WIDTH_64 < width {
      return Err(IllegalArgument);
    }
    var minsize := Div8(bitoff + width * (entries - 1)) + (if width <= MAX_WIDTH_32 then 4 else 8);
    if store.Size() < minsize {
      return Err(IllegalArgument);
    }
    FastFits(width, if width <= MAX_WIDTH_32 then 4 else 8, bitoff, entries, store.len);
    var a := new OnByteArray(store, if width <= MAX_WIDTH_32 then Fast32 else Fast64, width, bitoff, entries);
    r := Ok(a);
  }

  /**
   * The code's `subarrayClamped`, on a size-2 array of 4-bit entries over a
   * one-byte store: asking for [0, 4) gives a view of size 4, past the
   * store.
   */
  method SubarrayClampedPastEnd() returns (v: OnByteArray, c: OnByteArray)
    ensures v.Valid() && v.len == 2
    ensures c.len == 4 && !c.Valid()
  {
    var a := new uint8[1];
    var bytes := new BA.UncheckedOnBytes(a, 0, 1);
    var u := Unchecked(bytes, 4, 0, 2);
    v := u.value;
    c := v.SubarrayClamped(0, 4);
  }

  //----------------------------------------------------------------------
  // Lemmas

  /** Entry i ends no later than entry j starts, for i < j. */
  lemma {:induction false} Order(off: nat, width: nat, i: nat, j: nat)
    requires i < j
    ensures Start(off, width, i) + width <= Start(off, width, j)
    decreases j
  {
    if i < j - 1 {
      Order(off, width, i, j - 1);
    }
  }

  /** Entry j starts at bit `off + j * width`. */
  lemma {:induction false} StartProduct(off: nat, width: nat, j: nat)
    ensures Start(off, width, j) == off + j * width
    decreases j
  {
    if j > 0 {
      StartProduct(off, width, j - 1);
      assert j * width == (j - 1) * width + width;
    }
  }

  /** Entry j of the entries laid out from the start of entry a is entry a + j. */
  lemma {:induction false} StartShift(off: nat, width: nat, a: nat, j: nat, k: nat)
    requires k == a + j
    ensures Start(Start(off, width, a), width, j) == Start(off, width, k)
    decreases j
  {
    if j > 0 {
      StartShift(off, width, a, j - 1, k - 1);
    }
  }

  /** Entry j of the entries laid out from the start of entry a is entry k = a + j. */
  lemma {:induction false} EntryShift(C: seq<uint8>, off: nat, width: nat, a: nat, m: nat, n: nat, j: nat, k: nat)
    requires j < m && k < n && k == a + j
    ensures EntriesOf(C, Start(off, width, a), width, m)[j] == EntriesOf(C, off, width, n)[k]
  {
    StartShift(off, width, a, j, k);
    EntryAt(C, Start(off, width, a), width, m, j);
    EntryAt(C, off, width, n, k);
  }

  /** The `(n / w) * w` bits of n / w entries of width w fit n bits. */
  lemma {:induction false} DivMulBound(n: nat, w: nat)
    requires 1 <= w
    ensures (n / w) * w <= n
  {
    var q, r := DivMod(n, w);
  }

  /**
   * The w low bits of v, of its two's complement form when v is negative:
   * what `v & mask` keeps of a Java `long` with `mask` the w low bits.
   * Built bit by bit, so that it is `v % 2^w` (`LowBitsMod`) without a
   * remainder by a power of two that is not a constant.
   */
  function LowBits(v: int, w: nat): (r: nat)
    ensures r < Pow2(w)
    decreases w
  {
    if w == 0 then 0 else v % 2 + 2 * LowBits(v / 2, w - 1)
  }

  lemma {:induction false} LowBitsMod(v: int, w: nat)
    ensures LowBits(v, w) == v % Pow2(w)
    decreases w
  {
    if w > 0 {
      var h, bit := v / 2, v % 2;
      LowBitsMod(h, w - 1);
      var P := Pow2(w - 1);
      ModDouble(v, h, bit, P, h / P, h % P);
    }
  }

  /** v = 2h + bit with h = Pq + r: the remainder of v by 2P is 2r + bit. */
  lemma {:induction false} ModDouble(v: int, h: int, bit: int, P: int, q: int, r: int)
    requires 0 < P && v == 2 * h + bit && 0 <= bit < 2 && h == P * q + r && 0 <= r < P
    ensures v % (2 * P) == 2 * r + bit
  {
    assert v == (2 * P) * q + (2 * r + bit) by {
      MulAssoc(2, P, q);
    }
    DivModUnique(v, 2 * P, q, 2 * r + bit);
  }

  /** The low a bits of the low b bits of v, for a <= b, are the low a bits of v. */
  lemma {:induction false} ModPow2Mod(v: int, a: nat, b: nat)
    requires a <= b
    ensures (v % Pow2(b)) % Pow2(a) == v % Pow2(a)
  {
    Pow2Add(a, b - a);
    ModMod(v, Pow2(a), Pow2(b - a));
  }

  lemma {:induction false} ModMod(v: int, m: int, n: int)
    requires 0 < m && 0 < n
    ensures (v % (m * n)) % m == v % m
  {
    var mn := m * n;
    var q, r := v / mn, v % mn;
    var q2, r2 := r / m, r % m;
    assert v == mn * q + r;
    assert r == m * q2 + r2;
    assert mn * q == m * (n * q);
    assert v == m * (n * q + q2) + r2;
    DivModUnique(v, m, n * q + q2, r2);
  }

  /** A word of at most W bytes fits WB = 8 * W bits. */
  lemma {:induction false} WordBound(bs: seq<uint8>, W: nat, WB: nat)
    requires |bs| <= W && WB == 8 * W
    ensures LE(bs) < Pow2(WB)
  {
    Pow2Pow256(|bs|);
    Pow2Pow256(W);
    Pow2Monotone(8 * |bs|, WB);
  }

  /**
   * The word u read at byte b of C (k bytes of a W-byte word), shifted by
   * the place s of the first bit of entry i in that byte and masked, is
   * entry i.
   */
  lemma {:induction false} ReadEntry(C: seq<uint8>, off: nat, width: nat, n: nat, i: nat,
                                     b: nat, k: nat, W: nat, s: nat, u: nat, mask: nat)
    requires i < n && b + k <= |C| && k <= W && (k == W || b + k == |C|) && u == LE(C[b..b + k])
    requires s + width <= 8 * W && 8 * b + s == Start(off, width, i) && mask == Pow2(width) - 1
    ensures And(Shr(u, s), mask) == EntriesOf(C, off, width, n)[i] < Pow2(width)
  {
    var p, q := 8 * b, Start(off, width, i);
    WordMatches(C, b, k, W);
    ReadField(u, C, p, s, q, width, 8 * W);
    EntryAt(C, off, width, n, i);
  }

  /**
   * Writing back over the word u read at byte b a word nw that differs from
   * it only in the `width` bits of entry i, which hold g: entry i becomes g
   * and no other bit changes.
   */
  lemma {:induction false} WriteEntry(C0: seq<uint8>, C: seq<uint8>, off: nat, width: nat, n: nat, i: nat,
                                      b: nat, k: nat, W: nat, s: nat, u: nat, nw: nat, g: nat)
    requires i < n && Start(off, width, n) <= 8 * |C0| && g < Pow2(width)
    requires b + k <= |C0| && k <= W && (k == W || b + k == |C0|) && u == LE(C0[b..b + k])
    requires s + width <= 8 * W && 8 * b + s == Start(off, width, i)
    requires forall t :: 0 <= t < 8 * W ==> Bit(nw, t) == if s <= t < s + width then Bit(g, t - s) else Bit(u, t)
    requires C == Splice(C0, b, LEBytes(nw, k))
    ensures FieldWritten(C0, C, Start(off, width, i), width, g)
    ensures EntriesOf(C, off, width, n) == EntriesOf(C0, off, width, n)[i := g]
  {
    WordMatches(C0, b, k, W);
    WordWritten(C0, b, k, W, u, nw, s, width, g);
    EntriesWritten(C0, C, off, width, n, i, g);
  }

  /** `v & mask` on the unsigned reading x of v: the `width` low bits of v. */
  lemma {:induction false} LowValue(x: nat, v: int, width: nat, mask: nat, f: nat)
    requires mask == Pow2(width) - 1 && f == And(x, mask) && LowBits(x, width) == LowBits(v, width)
    ensures f == LowBits(v, width)
  {
    AndLowMask(x, width);
    LowBitsMod(x, width);
  }

  /** `(u >>> s) & (2^width - 1)`, u matching C from bit p, is the field of C at p + s. */
  lemma {:induction false} ReadField(u: nat, C: seq<uint8>, p: nat, s: nat, q: nat, width: nat, WB: nat)
    requires Matches(u, C, p, WB) && s + width <= WB && q == p + s
    ensures And(Shr(u, s), Pow2(width) - 1) == Field(C, q, width)
  {
    AndLowMask(Shr(u, s), width);
    WordField(u, C, p, s, q, width, WB);
  }

  /** The `width` bits from s of a word matching C from bit p are the field of C at p + s. */
  lemma {:induction false} WordField(u: nat, C: seq<uint8>, p: nat, s: nat, q: nat, width: nat, WB: nat)
    requires Matches(u, C, p, WB) && s + width <= WB && q == p + s
    ensures Shr(u, s) % Pow2(width) == Field(C, q, width)
  {
    MatchesShr(u, C, p, WB, s);
    MatchesLow(Shr(u, s), C, q, WB - s, width);
    MatchesField(Shr(u, s) % Pow2(width), C, q, width);
  }

  /** Bit j of `x & (2^w - 1)`, for j < w. */
  lemma {:induction false} LowBitOf(x: nat, w: nat, j: nat)
    requires j < w
    ensures Bit(And(x, Pow2(w) - 1), j) == Bit(x, j)
  {
    BitAnd(x, Pow2(w) - 1, j);
    BitOnes(w, j);
  }

  /** `word & ~(mask << s) | (f << s)` on a WB-bit word: the `width` bits from s become those of f. */
  method Deposit(u: nat, s: nat, mask: nat, f: nat, ghost width: nat, WB: nat) returns (nw: nat)
    requires u < Pow2(WB) && s + width <= WB && mask == Pow2(width) - 1 && f < Pow2(width)
    ensures nw < Pow2(WB)
    ensures forall t :: 0 <= t < WB ==> Bit(nw, t) == if s <= t < s + width then Bit(f, t - s) else Bit(u, t)
  {
    DepositBits(u, s, width, WB, f);
    nw := Or(And(u, Not(Shl(mask, s, WB), WB)), Shl(f, s, WB));
  }

  /** `word | (f << s)` on a WB-bit word: the `width` bits from s become their old value or-ed with f. */
  method Blend(u: nat, s: nat, f: nat, ghost width: nat, WB: nat, ghost e: nat) returns (nw: nat)
    requires u < Pow2(WB) && s + width <= WB && f < Pow2(width) && e == And(Shr(u, s), Pow2(width) - 1)
    ensures nw < Pow2(WB)
    ensures forall t :: 0 <= t < WB ==> Bit(nw, t) == if s <= t < s + width then Bit(Or(e, f), t - s) else Bit(u, t)
  {
    BlendBits(u, s, width, WB, f);
    nw := Or(u, Shl(f, s, WB));
  }

  /** The bits of `u & ~(mask << s) | (f << s)`. */
  lemma {:induction false} DepositBits(u: nat, s: nat, width: nat, WB: nat, f: nat)
    requires u < Pow2(WB) && s + width <= WB && f < Pow2(width)
    ensures var nw := Or(And(u, Not(Shl(Pow2(width) - 1, s, WB), WB)), Shl(f, s, WB));
      nw < Pow2(WB) && forall t :: 0 <= t < WB ==> Bit(nw, t) == if s <= t < s + width then Bit(f, t - s) else Bit(u, t)
  {
    var m := Not(Shl(Pow2(width) - 1, s, WB), WB);
    var nw := Or(And(u, m), Shl(f, s, WB));
    forall t | 0 <= t < WB
      ensures Bit(nw, t) == if s <= t < s + width then Bit(f, t - s) else Bit(u, t)
    {
      DepositBit(u, s, width, WB, f, t);
    }
    AndBound(u, m);
    OrBound(And(u, m), Shl(f, s, WB), WB);
  }

  lemma {:induction false} DepositBit(u: nat, s: nat, width: nat, WB: nat, f: nat, t: nat)
    requires s + width <= WB && f < Pow2(width) && t < WB
    ensures Bit(Or(And(u, Not(Shl(Pow2(width) - 1, s, WB), WB)), Shl(f, s, WB)), t)
      == if s <= t < s + width then Bit(f, t - s) else Bit(u, t)
  {
    var n := Shl(Pow2(width) - 1, s, WB);
    var m := Not(n, WB);
    BitShl(Pow2(width) - 1, s, WB, t);
    BitShl(f, s, WB, t);
    if s <= t {
      BitOnes(width, t - s);
      if s + width <= t {
        BitAbove(f, width, t - s);
      }
    }
    BitNot(n, WB, t);
    BitAnd(u, m, t);
    BitOr(And(u, m), Shl(f, s, WB), t);
  }

  /** The bits of `u | (f << s)`. */
  lemma {:induction false} BlendBits(u: nat, s: nat, width: nat, WB: nat, f: nat)
    requires u < Pow2(WB) && s + width <= WB && f < Pow2(width)
    ensures var nw := Or(u, Shl(f, s, WB));
      nw < Pow2(WB) && forall t :: 0 <= t < WB ==>
        Bit(nw, t) == if s <= t < s + width then Bit(Or(And(Shr(u, s), Pow2(width) - 1), f), t - s) else Bit(u, t)
  {
    var nw := Or(u, Shl(f, s, WB));
    var e := And(Shr(u, s), Pow2(width) - 1);
    forall t | 0 <= t < WB
      ensures Bit(nw, t) == if s <= t < s + width then Bit(Or(e, f), t - s) else Bit(u, t)
    {
      BitOr(u, Shl(f, s, WB), t);
      BitShl(f, s, WB, t);
      if s <= t {
        if t < s + width {
          BitOr(e, f, t - s);
          LowBitOf(Shr(u, s), width, t - s);
          BitShr(u, s, t - s);
        } else {
          BitAbove(f, width, t - s);
        }
      }
    }
    OrBound(u, Shl(f, s, WB), WB);
  }

  /**
   * Writing back the word nw read as u at byte b, nw differing from u only
   * in the `width` bits from s, which hold g: the bit string changes in
   * those bits only.
   */
  lemma {:induction false} WordWritten(C0: seq<uint8>, b: nat, k: nat, W: nat, u: nat, nw: nat, s: nat, width: nat, g: nat)
    requires b + k <= |C0| && k <= W && (k == W || b + k == |C0|)
    requires Matches(u, C0, 8 * b, 8 * W) && s + width <= 8 * W
    requires forall t :: 0 <= t < 8 * W ==> Bit(nw, t) == if s <= t < s + width then Bit(g, t - s) else Bit(u, t)
    ensures FieldWritten(C0, Splice(C0, b, LEBytes(nw, k)), 8 * b + s, width, g)
  {
    var C := Splice(C0, b, LEBytes(nw, k));
    var p := 8 * b + s;
    forall q | 0 <= q < 8 * |C|
      ensures StoreBit(C, q) == if p <= q < p + width then Bit(g, q - p) else StoreBit(C0, q)
    {
      WordWriteBits(C0, b, k, W, nw, q);
      if 8 * b <= q < 8 * (b + W) {
        assert Bit(nw, q - 8 * b) == if s <= q - 8 * b < s + width then Bit(g, q - 8 * b - s) else Bit(u, q - 8 * b);
      }
    }
  }

  /** Fields of C0 and C over bits they share are equal. */
  lemma {:induction false} FieldSame(C0: seq<uint8>, C: seq<uint8>, p: nat, w: nat)
    requires forall q :: p <= q < p + w ==> StoreBit(C, q) == StoreBit(C0, q)
    ensures Field(C, p, w) == Field(C0, p, w)
    decreases w
  {
    if w > 0 {
      FieldSame(C0, C, p + 1, w - 1);
    }
  }

  /** A field whose bits are g's is g. */
  lemma {:induction false} FieldOf(C: seq<uint8>, p: nat, w: nat, g: nat)
    requires g < Pow2(w) && forall q :: p <= q < p + w ==> StoreBit(C, q) == Bit(g, q - p)
    ensures Field(C, p, w) == g
  {
    forall j | 0 <= j < w
      ensures Bit(g, j) == StoreBit(C, p + j)
    {
      assert StoreBit(C, p + j) == Bit(g, p + j - p);
    }
    MatchesField(g, C, p, w);
  }

  /** Writing g over the bits of entry i: entry i becomes g and the other entries keep their values. */
  lemma {:induction false} EntriesWritten(C0: seq<uint8>, C: seq<uint8>, off: nat, width: nat, n: nat, i: nat, g: nat)
    requires i < n && Start(off, width, n) <= 8 * |C0| && g < Pow2(width)
    requires FieldWritten(C0, C, Start(off, width, i), width, g)
    ensures EntriesOf(C, off, width, n) == EntriesOf(C0, off, width, n)[i := g]
  {
    var E, E0 := EntriesOf(C, off, width, n), EntriesOf(C0, off, width, n);
    forall j | 0 <= j < n
      ensures E[j] == E0[i := g][j]
    {
      EntryWritten(C0, C, off, width, n, i, g, j);
    }
  }

  /** Entry j after g was written over the bits of entry i. */
  lemma {:induction false} EntryWritten(C0: seq<uint8>, C: seq<uint8>, off: nat, width: nat, n: nat, i: nat, g: nat, j: nat)
    requires i < n && j < n && Start(off, width, n) <= 8 * |C0| && g < Pow2(width)
    requires FieldWritten(C0, C, Start(off, width, i), width, g)
    ensures EntriesOf(C, off, width, n)[j] == if j == i then g else EntriesOf(C0, off, width, n)[j]
  {
    var p, pj := Start(off, width, i), Start(off, width, j);
    Order(off, width, j, n);
    assert pj + width <= 8 * |C|;
    EntryAt(C, off, width, n, j);
    EntryAt(C0, off, width, n, j);
    if j == i {
      forall q | pj <= q < pj + width
        ensures StoreBit(C, q) == Bit(g, q - pj)
      {
      }
      FieldOf(C, pj, width, g);
    } else {
      if j < i {
        Order(off, width, j, i);
      } else {
        Order(off, width, i, j);
      }
      forall q | pj <= q < pj + width
        ensures StoreBit(C, q) == StoreBit(C0, q)
      {
        assert !(p <= q < p + width);
      }
      FieldSame(C0, C, pj, width);
    }
  }

  /** Clearing the bits from entry init up to entry end: exactly those entries become 0. */
  lemma {:induction false} EntriesCleared(C0: seq<uint8>, C: seq<uint8>, off: nat, width: nat, n: nat, init: nat, end: nat,
                                          a: nat, e: nat, L: nat)
    requires init <= end <= n && |C| == |C0| && L == 8 * |C| && Start(off, width, n) <= L
    requires a == Start(off, width, init) && e == Start(off, width, end)
    requires forall q :: 0 <= q < L ==> StoreBit(C, q) == if a <= q < e then 0 else StoreBit(C0, q)
    ensures var E, E0 := EntriesOf(C, off, width, n), EntriesOf(C0, off, width, n);
      |E| == n && forall j :: 0 <= j < n ==> E[j] == if init <= j < end then 0 else E0[j]
  {
    var E, E0 := EntriesOf(C, off, width, n), EntriesOf(C0, off, width, n);
    forall j | 0 <= j < n
      ensures E[j] == if init <= j < end then 0 else E0[j]
    {
      EntryAt(C, off, width, n, j);
      EntryAt(C0, off, width, n, j);
      FieldCleared(C0, C, off, width, n, init, end, a, e, L, j, Start(off, width, j));
    }
  }

  /** The field of entry j after the clear: 0 if j is in [init, end), as before otherwise. */
  lemma {:induction false} FieldCleared(C0: seq<uint8>, C: seq<uint8>, off: nat, width: nat, n: nat, init: nat, end: nat,
                     a: nat, e: nat, L: nat, j: nat, pj: nat)
    requires init <= end <= n && |C| == |C0| && L == 8 * |C| && Start(off, width, n) <= L
    requires a == Start(off, width, init) && e == Start(off, width, end)
    requires forall q :: 0 <= q < L ==> StoreBit(C, q) == if a <= q < e then 0 else StoreBit(C0, q)
    requires j < n && pj == Start(off, width, j)
    ensures Field(C, pj, width) == if init <= j < end then 0 else Field(C0, pj, width)
  {
    Order(off, width, j, n);
    if init <= j < end {
      if init < j {
        Order(off, width, init, j);
      }
      Order(off, width, j, end);
      forall q | pj <= q < pj + width
        ensures StoreBit(C, q) == Bit(0, q - pj)
      {
        BitZero(q - pj);
      }
      FieldOf(C, pj, width, 0);
    } else {
      if j < init {
        Order(off, width, j, init);
      } else if end < j {
        Order(off, width, end, j);
      }
      FieldSame(C0, C, pj, width);
    }
  }

  /** The entries from entry init are the entries of the view starting at that entry's first bit. */
  lemma {:induction false} SubarrayEntries(C: seq<uint8>, off: nat, width: nat, n: nat, init: nat, end: nat, m: nat)
    requires init <= end <= n && m == end - init
    ensures Start(Start(off, width, init), width, m) == Start(off, width, end) <= Start(off, width, n)
    ensures EntriesOf(C, Start(off, width, init), width, m) == EntriesOf(C, off, width, n)[init..end]
  {
    var E, E' := EntriesOf(C, off, width, n), EntriesOf(C, Start(off, width, init), width, m);
    StartShift(off, width, init, m, end);
    if end < n {
      Order(off, width, end, n);
    }
    forall j | 0 <= j < m
      ensures E'[j] == E[init..end][j]
    {
      var k := init + j;
      assert E[init..end][j] == E[k];
      EntryShift(C, off, width, init, m, n, j, k);
    }
  }

  /**
   * A store of at least `MinSize` bytes holds the entries, and the word of
   * the last entry lies inside it: the widest entry leaves room for its
   * shift within a byte.
   */
  lemma {:induction false} FastFits(width: nat, W: nat, bitoff: nat, entries: nat, size: nat)
    requires 1 <= width <= 8 * W - 7 && Div8(bitoff + width * (entries - 1)) + W <= size
    ensures Start(bitoff, width, entries) <= 8 * size
    ensures 0 < entries ==> Start(bitoff, width, entries - 1) / 8 + W <= size
  {
    StartProduct(bitoff, width, entries);
    if 0 < entries {
      StartProduct(bitoff, width, entries - 1);
      assert width * (entries - 1) == entries * width - width;
    }
  }
}
