/**
 * The program's top level (Program.cs lines 19-117): split the blob,
 * write it, then read the metadata back, batch-read the chunks it lists
 * and reassemble them.
 */
module BlobProgram {
  import opened Wrappers
  import opened Chunker
  import opened Records
  import opened KeyExtraction
  import opened Reassembler
  import opened Backend
  import opened Writer

  /**
   * What the read path ends in: no metadata record ("not found"), a
   * metadata record without a key list (the batch read is then handed a
   * null key array), or the reassembly's outcome.
   */
  datatype ReadOutcome = MetadataNotFound | NoKeyList | Read(combined: Combined)

  /** The read path of lines 96-103 against the committed records. */
  function ReadBack(records: map<Key, Bins>): ReadOutcome
  {
    if MetadataKey !in records then MetadataNotFound
    else
      var meta := records[MetadataKey];
      match GetList(meta, ListBin)
      case None => NoKeyList
      case Some(raw) =>
        Read(Combine(Lookup(records, KeysFor(Namespace, SetName, StringsOf(raw))), GetInt(meta, SizeBin)))
  }

  /** The read path: metadata, keys from its list, one batch read, reassembly with the metadata's count. */
  method ReadBlob(store: Store) returns (r: ReadOutcome)
    ensures r == ReadBack(store.records)
  {
    var metadataRecord := store.Get(MetadataKey);
    if metadataRecord.None? {
      return MetadataNotFound;
    }
    var rawStoredParts := GetList(metadataRecord.value, ListBin);
    var keysToRead := GetKeysFromList(rawStoredParts, Namespace, SetName);
    if keysToRead.None? {
      return NoKeyList;
    }
    var records := store.BatchGet(keysToRead.value);
    var partsData := GetCombinedStoredParts(records, GetInt(metadataRecord.value, SizeBin));
    return Read(partsData);
  }

  /**
   * Split, write, read back: a write that commits with fresh ids is read
   * back as exactly the bytes written, whatever the store held before and
   * whichever stale deletes fail.
   */
  lemma WriteThenRead(records: map<Key, Bins>, value: seq<byte>, chunkSize: int, ids: seq<string>,
                      fault: TxnFault, failing: set<Key>)
    requires chunkSize > 0
    requires NumChunks(|value|, chunkSize) <= |ids| && !Aborts(fault, NumChunks(|value|, chunkSize))
    requires FreshIds(records, ids[..NumChunks(|value|, chunkSize)])
    ensures |Chunks(value, chunkSize)| == NumChunks(|value|, chunkSize)
    ensures ReadBack(AfterWrite(records, Chunks(value, chunkSize), ids, fault, failing)) == Read(Assembled(value))
  {
    var parts := Chunks(value, chunkSize);
    ChunksCount(value, chunkSize);
    var n := |parts|;
    var after := AfterWrite(records, parts, ids, fault, failing);
    CommittedWriteInstallsVersion(records, parts, ids, fault, failing);
    TxnWritesContent(parts, ids) by {
      assert forall i :: 0 <= i < n ==> ids[..n][i] == ids[i];
    }
    var meta := after[MetadataKey];
    var raw := GetList(meta, ListBin).value;
    var keys := KeysFor(Namespace, SetName, StringsOf(raw));
    assert |keys| == n;
    assert Lookup(after, keys) == CanonicalRecords(parts);
    forall i | 0 <= i < n
      ensures |parts[i]| > 0
    {
      ChunkShape(value, chunkSize, i);
    }
    CanonicalCombine(parts);
    ConcatChunks(value, chunkSize);
  }

  /**
   * The program: split the blob into 1 MiB chunks, write them, read the
   * blob back. Returns whether the write committed and what the read gave.
   */
  method RunProgram(store: Store, value: seq<byte>, ids: seq<string>, fault: TxnFault, failing: set<Key>)
    returns (written: bool, readBack: ReadOutcome)
    requires NumChunks(|value|, ChunkSize) <= |ids|
    modifies store
    ensures written == !Aborts(fault, NumChunks(|value|, ChunkSize))
    ensures |Chunks(value, ChunkSize)| == NumChunks(|value|, ChunkSize)
    ensures store.records == AfterWrite(old(store.records), Chunks(value, ChunkSize), ids, fault, failing)
    ensures readBack == ReadBack(store.records)
    ensures written && FreshIds(old(store.records), ids[..NumChunks(|value|, ChunkSize)]) ==> readBack == Read(Assembled(value))
  {
    var parts := Split(value, ChunkSize);
    written := WriteBlob(store, parts, ids, fault, failing);
    readBack := ReadBlob(store);
    if written && FreshIds(old(store.records), ids[..NumChunks(|value|, ChunkSize)]) {
      WriteThenRead(old(store.records), value, ChunkSize, ids, fault, failing);
    }
  }
}
