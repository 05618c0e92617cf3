// Growing byte arrays and comparing array slices.
module XArray {
  import opened JavaInt

  /** The largest array length the JVM is trusted to allocate. */
  const MAX_SIZE: int32 := INT_MAX - 2

  datatype Error = IllegalState
  datatype Result<T> = Ok(value: T) | Err(error: Error)

  /**
   * The length for a new array that must have `free` slots after its first
   * `used` ones, when the current one has length `size`: at least `used + free`,
   * and when possible twice `size`, never beyond MAX_SIZE. Fails when
   * `used + free` would pass MAX_SIZE.
   */
  function GrowSize(size: int32, used: int32, free: int32): (r: Result<int32>)
    ensures 0 <= used ==> (r.Err? <==> MAX_SIZE - used < free)
    ensures r.Ok? && 0 <= size && 0 <= used ==>
      used + free <= r.value <= MAX_SIZE &&
      r.value >= (if 2 * size <= MAX_SIZE then 2 * size else MAX_SIZE)
  {
    if Wrap32(MAX_SIZE - used) < free then Err(IllegalState)
    else
      var doubled := Wrap32(size + Min(size, Wrap32(MAX_SIZE - size)));
      Ok(Max(Wrap32(used + free), doubled))
  }

  function Min(a: int32, b: int32): int32 { if a <= b then a else b }
  function Max(a: int32, b: int32): int32 { if a >= b then a else b }

  /** `length(xs)`: a null array has length 0. */
  function Length(xs: array?<uint8>): (n: nat)
    ensures xs == null ==> n == 0
    ensures xs != null ==> n == xs.Length
  {
    if xs == null then 0 else xs.Length
  }

  /**
   * `growFree(xs, size, used, free)`: a fresh array of GrowSize's length that
   * starts with `xs[0..used)` and is zero elsewhere. `xs` may be null only
   * when nothing of it is used.
   */
  method GrowFree(xs: array?<uint8>, size: int32, used: int32, free: int32) returns (r: Result<array<uint8>>)
    requires 0 <= size && 0 <= used && 0 <= free
    requires xs == null ==> used == 0
    requires xs != null ==> used <= xs.Length
    ensures r.Err? <==> GrowSize(size, used, free).Err?
    ensures r.Ok? ==>
      fresh(r.value) && r.value.Length == GrowSize(size, used, free).value &&
      used <= r.value.Length &&
      (xs != null ==> r.value[..used] == xs[..used]) &&
      (forall k :: used <= k < r.value.Length ==> r.value[k] == 0)
  {
    var g := GrowSize(size, used, free);
    if g.Err? {
      return Err(g.error);
    }
    var newsize := g.value;
    var ys := new uint8[newsize](_ => 0);
    if xs != null {
      var i := 0;
      while i < used
        invariant 0 <= i <= used
        invariant ys[..i] == xs[..i]
        invariant forall k :: used <= k < ys.Length ==> ys[k] == 0
      {
        ys[i] := xs[i];
        i := i + 1;
      }
    }
    return Ok(ys);
  }

  /** `growFree(xs, used, free)`, the current length taken from the array itself. */
  method GrowFreeOf(xs: array?<uint8>, used: int32, free: int32) returns (r: Result<array<uint8>>)
    requires 0 <= used && 0 <= free
    requires xs == null ==> used == 0
    requires xs != null ==> used <= xs.Length <= INT_MAX
    ensures r.Err? <==> GrowSize(Length(xs), used, free).Err?
    ensures r.Ok? ==>
      fresh(r.value) && r.value.Length == GrowSize(Length(xs), used, free).value &&
      (xs != null ==> r.value[..used] == xs[..used])
  {
    r := GrowFree(xs, Length(xs), used, free);
  }

  /** `prefix[poff..poff+len) == data[doff..doff+len)`, scanning left to right and stopping at the first difference. */
  method IsPrefixAt(prefix: array<uint8>, poff: nat, data: array<uint8>, doff: nat, len: nat) returns (b: bool)
    requires poff + len <= prefix.Length && doff + len <= data.Length
    ensures b <==> prefix[poff..poff + len] == data[doff..doff + len]
  {
    var i := 0;
    while i < len
      invariant 0 <= i <= len
      invariant prefix[poff..poff + i] == data[doff..doff + i]
    {
      if prefix[poff + i] != data[doff + i] {
        assert prefix[poff..poff + len][i] != data[doff..doff + len][i];
        return false;
      }
      assert prefix[poff..poff + i + 1] == prefix[poff..poff + i] + [prefix[poff + i]];
      assert data[doff..doff + i + 1] == data[doff..doff + i] + [data[doff + i]];
      i := i + 1;
    }
    return true;
  }

  /** `isPrefix(prefix, poff, plen, data, doff, dlen)`: the prefix slice is no longer than the data slice and starts it. */
  method IsPrefixOfSlice(prefix: array<uint8>, poff: nat, plen: nat, data: array<uint8>, doff: nat, dlen: nat) returns (b: bool)
    requires poff + plen <= prefix.Length && doff + dlen <= data.Length
    ensures b <==> plen <= dlen && prefix[poff..poff + plen] == data[doff..doff + plen]
  {
    if plen > dlen {
      return false;
    }
    b := IsPrefixAt(prefix, poff, data, doff, plen);
  }

  /** `isPrefix(prefix, data)`: the whole of `prefix` starts `data`. */
  method IsPrefix(prefix: array<uint8>, data: array<uint8>) returns (b: bool)
    ensures b <==> prefix.Length <= data.Length && prefix[..] == data[..prefix.Length]
  {
    b := IsPrefixOfSlice(prefix, 0, prefix.Length, data, 0, data.Length);
    assert prefix[0..prefix.Length] == prefix[..];
  }

  /**
   * The cases of the growSize unit test: growing a 16-slot array with 15 used to make room
   * for 2 more doubles it to 32, and the limit cases at MAX_SIZE.
   */
  lemma {:induction false} GrowSizeExamples()
    ensures GrowSize(16, 15, 2) == Ok(32)
    ensures GrowSize(MAX_SIZE - 1000, MAX_SIZE - 1000, 1000) == Ok(MAX_SIZE)
    ensures GrowSize(MAX_SIZE - 1000, MAX_SIZE - 1000, 1001) == Err(IllegalState)
  {
  }
}
