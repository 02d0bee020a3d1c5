/**
 * Places where Program.cs, as written, does not do what it evidently
 * means to do. Each comes with the as-written behaviour exhibited on a
 * concrete input and a corrected definition with the intended property
 * proved about it.
 */
module Findings {
  import opened Wrappers
  import opened Chunker
  import opened Records
  import opened KeyExtraction
  import opened Reassembler
  import opened Backend
  import opened Cleanup
  import opened Writer
  import opened BlobProgram

  // ---------------------------------------------------------------------
  // 1. Cleanup runs after an abort (line 93 is outside the try/catch).

  /** A store holding a one-chunk blob `[7]` whose chunk id is "a". */
  function OneChunkStore(): map<Key, Bins>
  {
    map[MetadataKey := MetadataBins(["a"]), KeyOf("a") := ChunkBins([7], 0)]
  }

  /**
   * As written: a write whose commit throws still deletes the chunks of
   * the current version, so the blob that read back as `[7]` now reads
   * back as no bytes at all.
   */
  lemma AbortedWriteDestroysCurrentVersion()
    ensures ReadBack(OneChunkStore()) == Read(Assembled([7]))
    ensures ReadBack(AfterWrite(OneChunkStore(), [[1]], ["b"], FailCommit, {})) == Read(Assembled([]))
  {
    var before := OneChunkStore();
    var meta := MetadataBins(["a"]);
    StringsOfAllStrings(["a"]);
    var keys := KeysFor(Namespace, SetName, ["a"]);
    assert keys == [KeyOf("a")];
    assert Lookup(before, keys) == CanonicalRecords([[7]]);
    CanonicalCombine([[7]]);
    assert Concat([[7]]) == [7];

    var stale := StaleKeys(before);
    assert stale == Some([KeyOf("a")]);
    assert |Nullable(stale).value| == 1 && Nullable(stale).value[0] == Some(KeyOf("a"));
    assert Nullable(stale).value == [Some(KeyOf("a"))];
    assert Cleanup.NonNull([Some(KeyOf("a"))]) == [KeyOf("a")];
    assert Cleanup.Deletes(Nullable(stale)) == [KeyOf("a")];
    assert Cleanup.Removed(Nullable(stale), {}) == {KeyOf("a")};
    var after := AfterWrite(before, [[1]], ["b"], FailCommit, {});
    assert after == map[MetadataKey := meta];
    assert Lookup(after, keys) == [None];
    var absent: seq<Option<Bins>> := [None];
    assert absent[..0] == [];
    assert Fill([], 1, 1) == Some([None]) by {
      var empty: Slots := seq(1, _ => None);
      assert empty == [None];
    }
    assert Fill([None], 1, 1) == Some([None]);
    var unfilled: Slots := [None];
    assert Join(unfilled) == Piece(None) + Join([]);
    assert GetInt(meta, SizeBin) == 1;
    assert Combine([None], 1) == Assembled([]);
  }

  /** Corrected: cleanup only after a successful commit. */
  function AfterWriteCleanupOnCommit(records: map<Key, Bins>, parts: seq<seq<byte>>, ids: seq<string>,
                                     fault: TxnFault, failing: set<Key>): map<Key, Bins>
    requires |parts| <= |ids|
  {
    if Aborts(fault, |parts|) then records else AfterWrite(records, parts, ids, fault, failing)
  }

  /**
   * With cleanup only after commit, a failed write leaves the blob reading
   * back exactly as before, and a committed write with fresh ids reads back
   * as the bytes written.
   */
  lemma CleanupOnCommitKeepsOrReplaces(records: map<Key, Bins>, value: seq<byte>, chunkSize: int, ids: seq<string>,
                                       fault: TxnFault, failing: set<Key>)
    requires chunkSize > 0
    requires NumChunks(|value|, chunkSize) <= |ids|
    requires FreshIds(records, ids[..NumChunks(|value|, chunkSize)])
    ensures |Chunks(value, chunkSize)| == NumChunks(|value|, chunkSize)
    ensures ReadBack(AfterWriteCleanupOnCommit(records, Chunks(value, chunkSize), ids, fault, failing))
         == if Aborts(fault, NumChunks(|value|, chunkSize)) then ReadBack(records) else Read(Assembled(value))
  {
    ChunksCount(value, chunkSize);
    if !Aborts(fault, NumChunks(|value|, chunkSize)) {
      WriteThenRead(records, value, chunkSize, ids, fault, failing);
    }
  }

  // ---------------------------------------------------------------------
  // 2. A missing chunk is skipped (line 201) instead of failing the read.
  // 3. The slot write (line 181) runs before the count check (line 190).

  /** As written: chunk 0 missing from a two-chunk batch gives back chunk 1 alone. */
  lemma MissingChunkTruncates()
    ensures Combine([None, Some(ChunkBins([2], 1))], 2) == Assembled([2])
  {
    var rs := [None, Some(ChunkBins([2], 1))];
    var absent: seq<Option<Bins>> := [None];
    assert rs[..1] == absent && absent[..0] == [];
    assert Fill([], 2, 2) == Some([None, None]) by {
      var empty: Slots := seq(2, _ => None);
      assert empty == [None, None];
    }
    assert Fill([None], 2, 2) == Some([None, None]);
    assert Valid(rs[1], 2) && Position(rs[1].value) == 1 && Payload(rs[1].value) == [2];
    var filled: Slots := [None, None];
    assert filled[1 := Some([2])] == [None, Some([2])];
    assert Fill(rs, 2, 2) == Some([None, Some([2])]);
    assert Join([None, Some([2])]) == Piece(None) + Join([Some([2])]);
  }

  /** As written: one record back for a two-chunk blob, holding chunk 1, writes past the one-slot table. */
  lemma ShortBatchThrows()
    ensures Combine([Some(ChunkBins([2], 1))], 2) == SlotIndexOutOfRange
  {
    var rs := [Some(ChunkBins([2], 1))];
    assert rs[..0] == [];
    assert Fill([], 1, 2) == Some([None]) by {
      var empty: Slots := seq(1, _ => None);
      assert empty == [None];
    }
  }

  /** Why the checked reassembly refuses a batch. */
  datatype ReassemblyError = CountMismatch | MissingChunk

  /** Corrected: the count is checked before the slot table is touched, and an unfilled slot fails the read. */
  function CombineChecked(records: seq<Option<Bins>>, numberOfChunks: int): Result
  {
    if |records| != numberOfChunks then Failure(CountMismatch)
    else match Fill(records, |records|, numberOfChunks)
      case None => Failure(CountMismatch)
      case Some(slots) => if exists p :: 0 <= p < |slots| && slots[p].None? then Failure(MissingChunk) else Success(Join(slots))
  }

  datatype Result = Success(data: seq<byte>) | Failure(error: ReassemblyError)

  /**
   * The checked reassembly returns bytes only when every position
   * `0..numberOfChunks-1` was supplied by a valid record, and then returns
   * what the program's own reassembly returns; a batch of the wrong size is
   * refused without touching the slot table.
   */
  lemma CombineCheckedSound(records: seq<Option<Bins>>, numberOfChunks: int, p: int)
    requires CombineChecked(records, numberOfChunks).Success?
    requires 0 <= p < numberOfChunks
    ensures |records| == numberOfChunks
    ensures exists j :: 0 <= j < |records| && WritesSlot(records[j], numberOfChunks, p)
    ensures Combine(records, numberOfChunks) == Assembled(CombineChecked(records, numberOfChunks).data)
  {
    FillSlot(records, |records|, numberOfChunks, p);
  }

  /** A complete batch of a write's chunk records, in any order, fills every slot. */
  lemma CompleteBatchFillsEverySlot(parts: seq<seq<byte>>, records: seq<Option<Bins>>, p: int)
    requires forall i :: 0 <= i < |parts| ==> |parts[i]| > 0
    requires multiset(records) == multiset(CanonicalRecords(parts))
    requires Fill(records, |parts|, |parts|).Some? && 0 <= p < |parts|
    ensures Fill(records, |parts|, |parts|).value[p].Some?
  {
    var c := CanonicalRecords(parts);
    CanonicalWrites(parts, p);
    assert c[p] in multiset(records);
    var j :| 0 <= j < |records| && records[j] == c[p];
    FillSlot(records, |parts|, |parts|, p);
  }

  /** A complete batch of a write's chunk records, in any order, passes the checked reassembly with the blob's bytes. */
  lemma CombineCheckedComplete(parts: seq<seq<byte>>, records: seq<Option<Bins>>)
    requires forall i :: 0 <= i < |parts| ==> |parts[i]| > 0
    requires multiset(records) == multiset(CanonicalRecords(parts))
    ensures CombineChecked(records, |parts|) == Success(Concat(parts))
  {
    ShuffledBatchReassembles(parts, records);
    assert |records| == |multiset(records)| == |parts|;
    forall p | 0 <= p < |parts|
      ensures Fill(records, |parts|, |parts|).value[p].Some?
    {
      CompleteBatchFillsEverySlot(parts, records, p);
    }
  }

  // ---------------------------------------------------------------------
  // 4. `value.Length + chunkSize - 1` (line 27) overflows a 32-bit int.

  const Int32Max: int := 0x7FFF_FFFF

  /** C#'s unchecked 32-bit addition result. */
  function Wrap32(x: int): int
  {
    (x + 0x8000_0000) % 0x1_0000_0000 - 0x8000_0000
  }

  /** C#'s integer division, which truncates toward zero. */
  function TruncDiv(a: int, b: int): int
    requires b > 0
  {
    if a >= 0 then a / b else -((-a) / b)
  }

  /** As written: `(value.Length + chunkSize - 1) / chunkSize` in 32-bit arithmetic. */
  function NumChunksInt32(length: int, chunkSize: int): int
    requires chunkSize > 0
  {
    TruncDiv(Wrap32(Wrap32(length + chunkSize) - 1), chunkSize)
  }

  /**
   * As written: a blob of 2,146,435,073 bytes (about 2 GiB, within the
   * limit of a .NET byte array) makes the sum wrap to -2^31 and the chunk
   * count come out as -2048, so allocating `parts` throws.
   */
  lemma ChunkCountOverflows()
    ensures NumChunksInt32(2146435073, ChunkSize) == -2048
    ensures NumChunks(2146435073, ChunkSize) == 2048
  {
  }

  /** Corrected: `L / C + (L % C == 0 ? 0 : 1)`, whose every intermediate stays within 32 bits. */
  function NumChunksNoOverflow(length: int, chunkSize: int): int
    requires 0 <= length && chunkSize > 0
  {
    length / chunkSize + (if length % chunkSize == 0 then 0 else 1)
  }

  /** For every 32-bit length and positive chunk size, the corrected count never leaves 32 bits. */
  lemma NumChunksNoOverflowBounded(length: int, chunkSize: int)
    requires 0 <= length <= Int32Max && 0 < chunkSize <= Int32Max
    ensures 0 <= length / chunkSize <= NumChunksNoOverflow(length, chunkSize) <= Int32Max
  {
    var q, r := length / chunkSize, length % chunkSize;
    assert length == q * chunkSize + r && 0 <= r < chunkSize;
    if q > 0 {
      MulGap(chunkSize, 0, q);
    }
  }

  /** The corrected count is the ceiling `numChunks` of the model. */
  lemma NumChunksNoOverflowIsCeiling(length: int, chunkSize: int)
    requires 0 <= length && 0 < chunkSize
    ensures NumChunksNoOverflow(length, chunkSize) == NumChunks(length, chunkSize)
  {
    var q, r := length / chunkSize, length % chunkSize;
    assert length == q * chunkSize + r && 0 <= r < chunkSize;
    if r == 0 {
      DivBetween(length + chunkSize - 1, chunkSize, q);
    } else {
      MulSucc(q, chunkSize);
      DivBetween(length + chunkSize - 1, chunkSize, q + 1);
    }
  }

  /** As written agrees with the ceiling as long as `L + C - 1` fits in 32 bits. */
  lemma NumChunksInt32BelowOverflow(length: int, chunkSize: int)
    requires 0 <= length && chunkSize > 0 && length + chunkSize - 1 <= Int32Max
    ensures NumChunksInt32(length, chunkSize) == NumChunks(length, chunkSize)
  {
    var x := length + chunkSize;
    if x <= Int32Max {
      assert Wrap32(x) == x;
    } else {
      assert x == 0x8000_0000;
      assert Wrap32(x) == -0x8000_0000;
    }
    assert Wrap32(Wrap32(x) - 1) == x - 1;
  }
}
