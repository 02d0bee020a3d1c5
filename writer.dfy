/**
 * The write protocol of Program.cs lines 38-93: read the committed
 * metadata to capture the stale set, put one chunk record per part under
 * a fresh id and then the metadata record, all in one transaction, commit
 * (or abort when a call throws), and finally run cleanup on the stale set.
 */
module Writer {
  import opened Wrappers
  import opened Chunker
  import opened Records
  import opened KeyExtraction
  import opened Backend
  import opened Cleanup

  /** Which backend call of the transaction throws: none, put `index` (chunk puts, then the metadata put at index `parts.Length`), or the commit. */
  datatype TxnFault = NoFault | FailPut(index: nat) | FailCommit

  /** The transaction ends in the abort branch. */
  predicate Aborts(fault: TxnFault, numParts: nat)
  {
    fault.FailCommit? || (fault.FailPut? && fault.index <= numParts)
  }

  /** The key under which a user key is stored. */
  function KeyOf(id: string): Key
  {
    Key(Namespace, SetName, id)
  }

  /** The chunk puts buffered after `count` rounds of the put loop. */
  function ChunkWrites(parts: seq<seq<byte>>, ids: seq<string>, count: nat): map<Key, Bins>
    requires count <= |parts| && count <= |ids|
  {
    if count == 0 then map[]
    else ChunkWrites(parts, ids, count - 1)[KeyOf(ids[count - 1]) := ChunkBins(parts[count - 1], count - 1)]
  }

  /** Everything the transaction buffers: the chunk records, then the metadata record. */
  function TxnWrites(parts: seq<seq<byte>>, ids: seq<string>): map<Key, Bins>
    requires |parts| <= |ids|
  {
    ChunkWrites(parts, ids, |parts|)[MetadataKey := MetadataBins(ids[..|parts|])]
  }

  /** Wrapping a key array as an array whose entries may be null. */
  function Nullable(keys: Option<seq<Key>>): Option<seq<Option<Key>>>
  {
    if keys.None? then None
    else Some(seq(|keys.value|, i requires 0 <= i < |keys.value| => Some(keys.value[i])))
  }

  /** The stale set: the keys listed by the committed metadata record, null when there is none or it has no list. */
  function StaleKeys(records: map<Key, Bins>): Option<seq<Key>>
  {
    if MetadataKey !in records then None
    else match GetList(records[MetadataKey], ListBin)
      case None => None
      case Some(raw) => Some(KeysFor(Namespace, SetName, StringsOf(raw)))
  }

  /** The committed records after the protocol: the transaction's effect, then cleanup, which runs after an abort too. */
  function AfterWrite(records: map<Key, Bins>, parts: seq<seq<byte>>, ids: seq<string>,
                      fault: TxnFault, failing: set<Key>): map<Key, Bins>
    requires |parts| <= |ids|
  {
    var afterTxn := if Aborts(fault, |parts|) then records else records + TxnWrites(parts, ids);
    afterTxn - Removed(Nullable(StaleKeys(records)), failing)
  }

  /**
   * With distinct ids, the first `count` rounds of the put loop have
   * buffered exactly one record per round: chunk record `i`, with payload
   * `parts[i]` and position `i`, under id `i`.
   */
  lemma {:induction false} ChunkWritesContent(parts: seq<seq<byte>>, ids: seq<string>, count: nat)
    requires count <= |parts| && count <= |ids|
    requires forall i, j :: 0 <= i < j < count ==> ids[i] != ids[j]
    ensures forall k :: k in ChunkWrites(parts, ids, count) <==> exists i :: 0 <= i < count && k == KeyOf(ids[i])
    ensures forall i :: 0 <= i < count ==> ChunkWrites(parts, ids, count)[KeyOf(ids[i])] == ChunkBins(parts[i], i)
  {
    if count > 0 {
      ChunkWritesContent(parts, ids, count - 1);
      var m := ChunkWrites(parts, ids, count);
      forall k | k in m
        ensures exists i :: 0 <= i < count && k == KeyOf(ids[i])
      {
        if k != KeyOf(ids[count - 1]) {
          assert k in ChunkWrites(parts, ids, count - 1);
          var i :| 0 <= i < count - 1 && k == KeyOf(ids[i]);
        }
      }
      forall i | 0 <= i < count - 1
        ensures m[KeyOf(ids[i])] == ChunkBins(parts[i], i)
      {
        assert KeyOf(ids[i]) != KeyOf(ids[count - 1]);
      }
    }
  }

  /**
   * With distinct fresh ids other than "metadata", the transaction holds
   * chunk record `i` (payload `parts[i]`, position `i`) under id `i`, and
   * a metadata record that lists the ids in write order with a count equal
   * to the number of parts; nothing else.
   */
  lemma TxnWritesContent(parts: seq<seq<byte>>, ids: seq<string>)
    requires |parts| <= |ids|
    requires forall i, j :: 0 <= i < j < |parts| ==> ids[i] != ids[j]
    requires forall i :: 0 <= i < |parts| ==> ids[i] != "metadata"
    ensures forall k :: k in TxnWrites(parts, ids) <==> k == MetadataKey || exists i :: 0 <= i < |parts| && k == KeyOf(ids[i])
    ensures forall i :: 0 <= i < |parts| ==> TxnWrites(parts, ids)[KeyOf(ids[i])] == ChunkBins(parts[i], i)
    ensures TxnWrites(parts, ids)[MetadataKey] == MetadataBins(ids[..|parts|])
    ensures GetInt(TxnWrites(parts, ids)[MetadataKey], SizeBin) == |parts|
    ensures GetList(TxnWrites(parts, ids)[MetadataKey], ListBin).Some?
    ensures StringsOf(GetList(TxnWrites(parts, ids)[MetadataKey], ListBin).value) == ids[..|parts|]
  {
    ChunkWritesContent(parts, ids, |parts|);
    StringsOfAllStrings(ids[..|parts|]);
  }

  /**
   * The write protocol. The stale set comes from the committed metadata
   * read before the transaction; chunk `i` goes under `ids[i]` (the fresh
   * id drawn for it) with position `i`; the metadata record lists the ids
   * in write order. The result says whether the commit went through;
   * cleanup of the stale set follows in either case.
   */
  method WriteBlob(store: Store, parts: array<seq<byte>>, ids: seq<string>, fault: TxnFault, failing: set<Key>)
    returns (committed: bool)
    requires parts.Length <= |ids|
    modifies store
    ensures committed == !Aborts(fault, parts.Length)
    ensures store.records == AfterWrite(old(store.records), parts[..], ids, fault, failing)
    ensures store.deleteLog == old(store.deleteLog) + Deletes(Nullable(StaleKeys(old(store.records))))
    ensures MetadataKey !in old(store.records) ==> store.deleteLog == old(store.deleteLog)
    ensures MetadataKey !in old(store.records) ==>
      store.records == if committed then old(store.records) + TxnWrites(parts[..], ids) else old(store.records)
  {
    var metadataRecord := store.Get(MetadataKey);
    var keysToDelete: Option<seq<Option<Key>>> := None;
    if metadataRecord.Some? {
      var rawStoredParts := GetList(metadataRecord.value, ListBin);
      var keys := GetKeysFromList(rawStoredParts, Namespace, SetName);
      keysToDelete := Nullable(keys);
    }
    assert keysToDelete == Nullable(StaleKeys(old(store.records)));

    var txn := new Txn();
    var thrown := false;
    var keys: seq<string> := [];
    var i := 0;
    while i < parts.Length && !thrown
      invariant 0 <= i <= parts.Length
      invariant !thrown ==> keys == ids[..i] && txn.writes == ChunkWrites(parts[..], ids, i)
      invariant !thrown ==> !(fault.FailPut? && fault.index < i)
      invariant thrown ==> Aborts(fault, parts.Length)
      invariant store.records == old(store.records) && store.deleteLog == old(store.deleteLog)
      decreases parts.Length - i, if thrown then 0 else 1
    {
      var uuid := ids[i];
      var ok := store.Put(txn, KeyOf(uuid), ChunkBins(parts[i], i), fault == FailPut(i));
      if ok {
        keys := keys + [uuid];
        i := i + 1;
      } else {
        thrown := true;
      }
    }
    if !thrown {
      var ok := store.Put(txn, MetadataKey, MetadataBins(keys), fault == FailPut(parts.Length));
      if ok {
        assert txn.writes == TxnWrites(parts[..], ids);
        ok := store.Commit(txn, fault == FailCommit);
      }
      thrown := !ok;
    }
    if thrown {
      store.Abort(txn);
    }
    committed := !thrown;

    CleanExistingRecords(store, keysToDelete, failing);
  }

  /**
   * The ids drawn for a write are distinct, none is "metadata", and the
   * stale set lists neither the metadata key nor any of them: what fresh
   * GUIDs give the program.
   */
  predicate FreshIds(records: map<Key, Bins>, ids: seq<string>)
  {
    (forall i, j :: 0 <= i < j < |ids| ==> ids[i] != ids[j])
    && (forall i :: 0 <= i < |ids| ==> ids[i] != "metadata")
    && (StaleKeys(records).Some? ==>
          forall k :: k in StaleKeys(records).value ==> k != MetadataKey && forall i :: 0 <= i < |ids| ==> k != KeyOf(ids[i]))
  }

  /** Cleanup can only remove keys of the stale set. */
  lemma RemovedAreStale(records: map<Key, Bins>, failing: set<Key>, k: Key)
    requires k in Removed(Nullable(StaleKeys(records)), failing)
    ensures StaleKeys(records).Some? && k in StaleKeys(records).value
  {
    var stale := StaleKeys(records);
    NonNullMembers(Nullable(stale).value, k);
    var j :| 0 <= j < |Nullable(stale).value| && Nullable(stale).value[j] == Some(k);
    assert stale.value[j] == k;
  }

  /**
   * A write that commits makes the new version current: the metadata
   * record lists the fresh ids in write order with count `parts.Length`,
   * chunk record `i` holds `parts[i]` at position `i`, and every stale key
   * whose delete did not throw is gone.
   */
  lemma CommittedWriteInstallsVersion(records: map<Key, Bins>, parts: seq<seq<byte>>, ids: seq<string>,
                                      fault: TxnFault, failing: set<Key>)
    requires |parts| <= |ids| && !Aborts(fault, |parts|)
    requires FreshIds(records, ids[..|parts|])
    ensures MetadataKey in AfterWrite(records, parts, ids, fault, failing)
    ensures AfterWrite(records, parts, ids, fault, failing)[MetadataKey] == MetadataBins(ids[..|parts|])
    ensures forall i :: 0 <= i < |parts| ==>
      KeyOf(ids[i]) in AfterWrite(records, parts, ids, fault, failing)
      && AfterWrite(records, parts, ids, fault, failing)[KeyOf(ids[i])] == ChunkBins(parts[i], i)
    ensures StaleKeys(records).Some? ==>
      forall k :: k in StaleKeys(records).value && k !in failing ==> k !in AfterWrite(records, parts, ids, fault, failing)
  {
    var n := |parts|;
    assert forall i :: 0 <= i < n ==> ids[..n][i] == ids[i];
    TxnWritesContent(parts, ids);
    var removed := Removed(Nullable(StaleKeys(records)), failing);
    if MetadataKey in removed {
      RemovedAreStale(records, failing, MetadataKey);
    }
    forall i | 0 <= i < n
      ensures KeyOf(ids[i]) !in removed
    {
      assert ids[..n][i] == ids[i];
      if KeyOf(ids[i]) in removed {
        RemovedAreStale(records, failing, KeyOf(ids[i]));
      }
    }
    if StaleKeys(records).Some? {
      var stale := StaleKeys(records).value;
      forall k | k in stale && k !in failing
        ensures k in removed
      {
        var j :| 0 <= j < |stale| && stale[j] == k;
        assert Nullable(StaleKeys(records)).value[j] == Some(k);
        NonNullMembers(Nullable(StaleKeys(records)).value, k);
      }
    }
  }

  /**
   * A write that aborts adds nothing and changes no record: whatever is
   * left afterwards was there before with the same bins. (Records of the
   * stale set may be gone, because cleanup runs after an abort as well.)
   */
  lemma AbortedWriteAddsNothing(records: map<Key, Bins>, parts: seq<seq<byte>>, ids: seq<string>,
                                fault: TxnFault, failing: set<Key>)
    requires |parts| <= |ids| && Aborts(fault, |parts|)
    ensures forall k :: k in AfterWrite(records, parts, ids, fault, failing) ==>
      k in records && AfterWrite(records, parts, ids, fault, failing)[k] == records[k]
    ensures MetadataKey in records && !(StaleKeys(records).Some? && MetadataKey in StaleKeys(records).value) ==>
      MetadataKey in AfterWrite(records, parts, ids, fault, failing)
  {
    if MetadataKey in records && MetadataKey !in AfterWrite(records, parts, ids, fault, failing) {
      RemovedAreStale(records, failing, MetadataKey);
    }
  }
}
