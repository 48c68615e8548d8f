/**
 * `randomArrayBufferSync`: a buffer of `size` bytes filled 1024 bytes at a
 * time by the platform's random generator.  The generator is a parameter:
 * `random(i)` is the byte it would produce for position `i`.
 */
module InternalUtil {

  /** The most bytes one call of the random generator may fill. */
  const MAX_LEN: nat := 1024

  function Min(a: nat, b: nat): nat
  {
    if a < b then a else b
  }

  /** `ranges` lists (offset, length) pieces that follow one another from 0
      up to `n`, none empty and none longer than MAX_LEN. */
  ghost predicate Tiles(ranges: seq<(nat, nat)>, n: nat)
  {
    && (ranges == [] ==> n == 0)
    && (ranges != [] ==> ranges[0].0 == 0 && ranges[|ranges| - 1].0 + ranges[|ranges| - 1].1 == n)
    && (forall k :: 0 <= k < |ranges| - 1 ==> ranges[k].0 + ranges[k].1 == ranges[k + 1].0)
    && (forall k :: 0 <= k < |ranges| ==> 0 < ranges[k].1 <= MAX_LEN)
  }

  /** A non-empty piece of at most MAX_LEN bytes extends a tiling. */
  lemma TilesExtend(ranges: seq<(nat, nat)>, n: nat, sz: nat)
    requires Tiles(ranges, n) && 0 < sz <= MAX_LEN
    ensures Tiles(ranges + [(n, sz)], n + sz)
  {
    var r := ranges + [(n, sz)];
    forall k | 0 <= k < |r| - 1
      ensures r[k].0 + r[k].1 == r[k + 1].0
    {
      if k == |ranges| - 1 {
        assert r[k] == ranges[|ranges| - 1];
      } else {
        assert r[k] == ranges[k] && r[k + 1] == ranges[k + 1];
      }
    }
  }

  /** `crypto.getRandomValues(arr)`, where `arr` stands for bytes starting at `base`. */
  method GetRandomValues(arr: array<bv8>, random: nat -> bv8, base: nat)
    modifies arr
    ensures forall j :: 0 <= j < arr.Length ==> arr[j] == random(base + j)
  {
    for j := 0 to arr.Length
      invariant forall i :: 0 <= i < j ==> arr[i] == random(base + i)
    {
      arr[j] := random(base + j);
    }
  }

  /** The function AS WRITTEN: each piece is randomised in the copy that
      `buffer.slice` returns, so the returned buffer keeps its initial zeros. */
  method RandomArrayBufferSync(size: nat, random: nat -> bv8) returns (buffer: array<bv8>, ghost ranges: seq<(nat, nat)>)
    ensures buffer.Length == size
    ensures forall i :: 0 <= i < size ==> buffer[i] == 0
    ensures Tiles(ranges, size)
  {
    buffer := new bv8[size](_ => 0);
    var offset := 0;
    ranges := [];
    while offset != buffer.Length
      invariant 0 <= offset <= size == buffer.Length
      invariant forall i :: 0 <= i < size ==> buffer[i] == 0
      invariant Tiles(ranges, offset)
      decreases size - offset
    {
      var sz := Min(MAX_LEN, buffer.Length - offset);
      var arr := new bv8[sz](j requires 0 <= j < sz reads buffer => buffer[offset + j]);
      GetRandomValues(arr, random, offset);
      TilesExtend(ranges, offset, sz);
      ranges := ranges + [(offset, sz)];
      offset := offset + sz;
    }
  }

  /** The evidently intended function: each piece is randomised inside the
      returned buffer itself. */
  method RandomBuffer(size: nat, random: nat -> bv8) returns (buffer: array<bv8>, ghost ranges: seq<(nat, nat)>)
    ensures buffer.Length == size
    ensures forall i :: 0 <= i < size ==> buffer[i] == random(i)
    ensures Tiles(ranges, size)
  {
    buffer := new bv8[size](_ => 0);
    var offset := 0;
    ranges := [];
    while offset != buffer.Length
      invariant 0 <= offset <= size == buffer.Length
      invariant forall i :: 0 <= i < offset ==> buffer[i] == random(i)
      invariant Tiles(ranges, offset)
      decreases size - offset
    {
      var sz := Min(MAX_LEN, buffer.Length - offset);
      for j := 0 to sz
        invariant forall i :: 0 <= i < offset + j ==> buffer[i] == random(i)
      {
        buffer[offset + j] := random(offset + j);
      }
      TilesExtend(ranges, offset, sz);
      ranges := ranges + [(offset, sz)];
      offset := offset + sz;
    }
  }
}
