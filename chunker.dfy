/**
 * The chunker of Program.cs: the blob read from the file is cut into
 * `numChunks` consecutive slices of at most `chunkSize` bytes, slice `i`
 * starting at byte `i * chunkSize`.
 */
module Chunker {
  import opened Records

  /** The chunk size the program uses: 1 MiB. */
  const ChunkSize: int := 1048576

  function Min(a: int, b: int): int { if a <= b then a else b }

  /** The chunk count `(L + C - 1) / C`, computed over unbounded integers. */
  function NumChunks(length: nat, chunkSize: int): nat
    requires chunkSize > 0
  {
    (length + chunkSize - 1) / chunkSize
  }

  /** The bytes of chunk `i`: `toCopy = min(C, L - i*C)` bytes from offset `i*C`. */
  function ChunkSlice(value: seq<byte>, chunkSize: int, i: nat): (s: seq<byte>)
    requires chunkSize > 0 && i * chunkSize < |value|
  {
    value[i * chunkSize .. i * chunkSize + Min(chunkSize, |value| - i * chunkSize)]
  }

  /** The reference partition: a first chunk of `chunkSize` bytes (or the whole rest), then the chunks of what remains. */
  function Chunks(value: seq<byte>, chunkSize: int): seq<seq<byte>>
    requires chunkSize > 0
    decreases |value|
  {
    if |value| == 0 then []
    else if |value| <= chunkSize then [value]
    else [value[..chunkSize]] + Chunks(value[chunkSize..], chunkSize)
  }

  /** Concatenation of byte sequences in order (what writing them one after another to a stream yields). */
  function Concat(parts: seq<seq<byte>>): seq<byte>
  {
    if parts == [] then [] else parts[0] + Concat(parts[1..])
  }

  lemma {:induction false} ConcatSnoc(parts: seq<seq<byte>>, last: seq<byte>)
    ensures Concat(parts + [last]) == Concat(parts) + last
  {
    if parts != [] {
      assert (parts + [last])[1..] == parts[1..] + [last];
      ConcatSnoc(parts[1..], last);
    }
  }

  /** `q * c <= a < (q + 1) * c` pins down the quotient `a / c`. */
  lemma DivBetween(a: int, c: int, q: int)
    requires c > 0 && q * c <= a < q * c + c
    ensures a / c == q
  {
    var d := a / c;
    assert a == d * c + a % c;
    if d > q {
      MulGap(d, q, c);
    } else if d < q {
      MulGap(q, d, c);
    }
  }

  /** Multiplying by a positive factor keeps a gap of at least one step. */
  lemma {:induction false} MulGap(x: int, y: int, c: int)
    requires x > y && c > 0
    ensures x * c >= y * c + c
    decreases x - y
  {
    if x > y + 1 {
      MulGap(x - 1, y, c);
      assert x * c == (x - 1) * c + c;
    } else {
      assert x * c == y * c + c;
    }
  }

  /** `numChunks` is the ceiling of `L / C`: the fewest chunks of size `C` that cover `L` bytes; none for an empty blob. */
  lemma NumChunksIsCeiling(length: nat, chunkSize: int)
    requires chunkSize > 0
    ensures NumChunks(length, chunkSize) * chunkSize >= length
    ensures NumChunks(length, chunkSize) > 0 ==> (NumChunks(length, chunkSize) - 1) * chunkSize < length
    ensures NumChunks(length, chunkSize) == 0 <==> length == 0
  {
    var a := length + chunkSize - 1;
    var n, r := a / chunkSize, a % chunkSize;
    assert a == n * chunkSize + r && 0 <= r < chunkSize;
    assert (n - 1) * chunkSize == n * chunkSize - chunkSize;
  }

  /** Every chunk index below `numChunks` starts inside the blob. */
  lemma ChunkStartInside(length: nat, chunkSize: int, i: nat)
    requires chunkSize > 0 && i < NumChunks(length, chunkSize)
    ensures i * chunkSize < length
  {
    var n := NumChunks(length, chunkSize);
    NumChunksIsCeiling(length, chunkSize);
    assert i * chunkSize <= (n - 1) * chunkSize;
  }

  lemma {:induction false} ChunksCount(value: seq<byte>, chunkSize: int)
    requires chunkSize > 0
    ensures |Chunks(value, chunkSize)| == NumChunks(|value|, chunkSize)
    decreases |value|
  {
    var l := |value|;
    if l == 0 {
      DivBetween(chunkSize - 1, chunkSize, 0);
    } else if l <= chunkSize {
      DivBetween(l + chunkSize - 1, chunkSize, 1);
    } else {
      ChunksCount(value[chunkSize..], chunkSize);
      var a := l - 1;
      assert a == (a / chunkSize) * chunkSize + a % chunkSize;
      DivBetween(a + chunkSize, chunkSize, a / chunkSize + 1);
    }
  }

  /** Chunk `i` of the partition holds exactly the bytes `[i*C, i*C + min(C, L - i*C))` of the blob. */
  lemma {:induction false} ChunkAt(value: seq<byte>, chunkSize: int, i: nat)
    requires chunkSize > 0 && i < |Chunks(value, chunkSize)|
    ensures i * chunkSize < |value|
    ensures Chunks(value, chunkSize)[i] == ChunkSlice(value, chunkSize, i)
    decreases |value|
  {
    if |value| > chunkSize && i > 0 {
      ChunkAt(value[chunkSize..], chunkSize, i - 1);
      ShiftSlice(value, chunkSize, i);
    }
  }

  /** Slice `i - 1` of what follows the first chunk is slice `i` of the blob. */
  lemma ShiftSlice(value: seq<byte>, chunkSize: int, i: nat)
    requires chunkSize > 0 && i > 0 && |value| > chunkSize
    requires (i - 1) * chunkSize < |value| - chunkSize
    ensures i * chunkSize < |value|
    ensures ChunkSlice(value[chunkSize..], chunkSize, i - 1) == ChunkSlice(value, chunkSize, i)
  {
    var start := (i - 1) * chunkSize;
    MulSucc(i - 1, chunkSize);
    var len := Min(chunkSize, |value| - chunkSize - start);
    assert value[chunkSize..][start .. start + len] == value[start + chunkSize .. start + chunkSize + len];
  }

  lemma MulSucc(i: int, c: int)
    ensures (i + 1) * c == i * c + c
  {
  }

  /**
   * Every chunk is non-empty and at most `chunkSize` long, and every chunk
   * but the last is exactly `chunkSize` long.
   */
  lemma ChunkShape(value: seq<byte>, chunkSize: int, i: nat)
    requires chunkSize > 0 && i < |Chunks(value, chunkSize)|
    ensures 0 < |Chunks(value, chunkSize)[i]| <= chunkSize
    ensures i + 1 < |Chunks(value, chunkSize)| ==> |Chunks(value, chunkSize)[i]| == chunkSize
  {
    ChunkAt(value, chunkSize, i);
    ChunksCount(value, chunkSize);
    if i + 1 < |Chunks(value, chunkSize)| {
      ChunkStartInside(|value|, chunkSize, i + 1);
      assert (i + 1) * chunkSize == i * chunkSize + chunkSize;
    }
  }

  /** Concatenating the chunks in order gives back the blob. */
  lemma {:induction false} ConcatChunks(value: seq<byte>, chunkSize: int)
    requires chunkSize > 0
    ensures Concat(Chunks(value, chunkSize)) == value
    decreases |value|
  {
    if |value| > chunkSize {
      ConcatChunks(value[chunkSize..], chunkSize);
      assert value[..chunkSize] + value[chunkSize..] == value;
    } else if |value| > 0 {
      assert Concat([value]) == value + Concat([]);
    }
  }

  /**
   * The chunking loop: `parts` gets `numChunks` entries and entry `i` is
   * the copy of slice `i` of the blob.
   */
  method Split(value: seq<byte>, chunkSize: int) returns (parts: array<seq<byte>>)
    requires chunkSize > 0
    ensures parts.Length == NumChunks(|value|, chunkSize)
    ensures parts[..] == Chunks(value, chunkSize)
    ensures Concat(parts[..]) == value
  {
    var numChunks := NumChunks(|value|, chunkSize);
    parts := new seq<byte>[numChunks];
    for i := 0 to numChunks
      invariant forall k :: 0 <= k < i ==> k * chunkSize < |value| && parts[k] == ChunkSlice(value, chunkSize, k)
    {
      ChunkStartInside(|value|, chunkSize, i);
      var remaining := |value| - i * chunkSize;
      var toCopy := Min(chunkSize, remaining);
      parts[i] := value[chunkSize * i .. chunkSize * i + toCopy];
    }
    ChunksCount(value, chunkSize);
    forall k | 0 <= k < numChunks
      ensures parts[k] == Chunks(value, chunkSize)[k]
    {
      ChunkAt(value, chunkSize, k);
    }
    ConcatChunks(value, chunkSize);
  }
}
