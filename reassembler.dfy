/**
 * `GetCombinedStoredParts`: the records of a batch read, in whatever
 * order they come and with nulls for missing keys, are sorted into a slot
 * table by their `pos` bin, and the filled slots are concatenated in
 * position order.
 */
module Reassembler {
  import opened Wrappers
  import opened Chunker
  import opened Records

  /**
   * The outcome of `GetCombinedStoredParts`: the bytes it returns, or the
   * IndexOutOfRangeException the slot write throws when a position lies
   * past the end of the slot table.
   */
  datatype Combined = Assembled(data: seq<byte>) | SlotIndexOutOfRange

  /** The slot table: one entry per batch result, null where nothing was placed. */
  type Slots = seq<Option<seq<byte>>>

  function Payload(rec: Bins): seq<byte>
  {
    var b := GetBytes(rec, PartBin); if b.Some? then b.value else []
  }

  function Position(rec: Bins): int
  {
    GetInt(rec, PositionBin)
  }

  /**
   * A batch entry passes the checks: it is a record, its payload is
   * present and non-empty, and its position lies in `[0, numberOfChunks)`.
   */
  predicate Valid(rec: Option<Bins>, numberOfChunks: int)
  {
    rec.Some? && GetBytes(rec.value, PartBin).Some? && |Payload(rec.value)| > 0
    && 0 <= Position(rec.value) < numberOfChunks
  }

  /** Entry `rec` writes slot `p`. */
  predicate WritesSlot(rec: Option<Bins>, numberOfChunks: int, p: int)
  {
    Valid(rec, numberOfChunks) && Position(rec.value) == p
  }

  /** Entry `j` is the last entry of the batch that writes slot `p`. */
  ghost predicate LastWriter(records: seq<Option<Bins>>, numberOfChunks: int, p: int, j: int)
  {
    0 <= j < |records| && WritesSlot(records[j], numberOfChunks, p)
    && forall k :: j < k < |records| ==> !WritesSlot(records[k], numberOfChunks, p)
  }

  /** One step of the slot-table loop; null when the slot index is out of range. */
  function Place(slots: Slots, rec: Option<Bins>, numberOfChunks: int): Option<Slots>
  {
    if !Valid(rec, numberOfChunks) then Some(slots)
    else if Position(rec.value) < |slots| then Some(slots[Position(rec.value) := Some(Payload(rec.value))])
    else None
  }

  /** The slot table after the batch entries `records`, starting from `size` empty slots; null when a slot write fails. */
  function Fill(records: seq<Option<Bins>>, size: nat, numberOfChunks: int): (r: Option<Slots>)
    ensures r.Some? ==> |r.value| == size
    decreases |records|
  {
    if records == [] then Some(seq(size, _ => None))
    else match Fill(records[..|records| - 1], size, numberOfChunks)
      case None => None
      case Some(slots) => Place(slots, records[|records| - 1], numberOfChunks)
  }

  /** What writing a slot's contents to the stream adds: nothing for an empty or null slot. */
  function Piece(slot: Option<seq<byte>>): seq<byte>
  {
    if slot.Some? && |slot.value| > 0 then slot.value else []
  }

  /** The filled slots, concatenated in position order. */
  function Join(slots: Slots): seq<byte>
  {
    if slots == [] then [] else Piece(slots[0]) + Join(slots[1..])
  }

  /** The whole of `GetCombinedStoredParts`. */
  function Combine(records: seq<Option<Bins>>, numberOfChunks: int): Combined
  {
    match Fill(records, |records|, numberOfChunks)
    case None => SlotIndexOutOfRange
    case Some(slots) => if |records| != numberOfChunks then Assembled([]) else Assembled(Join(slots))
  }

  lemma {:induction false} JoinSnoc(slots: Slots, slot: Option<seq<byte>>)
    ensures Join(slots + [slot]) == Join(slots) + Piece(slot)
  {
    if slots != [] {
      assert (slots + [slot])[1..] == slots[1..] + [slot];
      JoinSnoc(slots[1..], slot);
    } else {
      assert Join([slot]) == Piece(slot) + Join([]);
    }
  }

  /** The slot write fails exactly when some valid entry names a position past the table's end. */
  lemma {:induction false} FillFailsIff(records: seq<Option<Bins>>, size: nat, numberOfChunks: int)
    ensures Fill(records, size, numberOfChunks).None?
        <==> exists j :: 0 <= j < |records| && Valid(records[j], numberOfChunks) && Position(records[j].value) >= size
    decreases |records|
  {
    if records != [] {
      var init := records[..|records| - 1];
      FillFailsIff(init, size, numberOfChunks);
      if exists j :: 0 <= j < |init| && Valid(init[j], numberOfChunks) && Position(init[j].value) >= size {
        var j :| 0 <= j < |init| && Valid(init[j], numberOfChunks) && Position(init[j].value) >= size;
        assert records[j] == init[j];
      }
      if exists j :: 0 <= j < |records| && Valid(records[j], numberOfChunks) && Position(records[j].value) >= size {
        var j :| 0 <= j < |records| && Valid(records[j], numberOfChunks) && Position(records[j].value) >= size;
        if j < |init| {
          assert init[j] == records[j];
        }
      }
    }
  }

  /**
   * Slot `p` of the table stays null exactly when no valid entry names
   * position `p`; otherwise it holds the payload of the LAST entry that
   * names `p`. Null entries, missing or empty payloads and positions
   * outside `[0, numberOfChunks)` never write a slot.
   */
  lemma {:induction false} FillSlot(records: seq<Option<Bins>>, size: nat, numberOfChunks: int, p: int)
    requires Fill(records, size, numberOfChunks).Some? && 0 <= p < size
    ensures Fill(records, size, numberOfChunks).value[p].None?
        <==> forall j :: 0 <= j < |records| ==> !WritesSlot(records[j], numberOfChunks, p)
    ensures Fill(records, size, numberOfChunks).value[p].Some? ==>
        exists j :: LastWriter(records, numberOfChunks, p, j)
               && Fill(records, size, numberOfChunks).value[p].value == Payload(records[j].value)
    decreases |records|
  {
    if records != [] {
      var n := |records|;
      var init := records[..n - 1];
      var last := records[n - 1];
      assert forall j :: 0 <= j < n - 1 ==> records[j] == init[j];
      var slots := Fill(init, size, numberOfChunks).value;
      FillSlot(init, size, numberOfChunks, p);
      if WritesSlot(last, numberOfChunks, p) {
        assert LastWriter(records, numberOfChunks, p, n - 1);
      } else if slots[p].Some? {
        var j :| LastWriter(init, numberOfChunks, p, j) && slots[p].value == Payload(init[j].value);
        assert LastWriter(records, numberOfChunks, p, j);
      }
    }
  }

  /**
   * The slot-table loop followed by the concatenation loop. A position
   * past the end of the table (possible when fewer records came back than
   * `numberOfChunks`) ends in the out-of-range failure; a table whose
   * length differs from `numberOfChunks` yields no bytes; otherwise the
   * filled slots are written out in position order.
   */
  method GetCombinedStoredParts(records: seq<Option<Bins>>, numberOfChunks: int) returns (r: Combined)
    ensures r == Combine(records, numberOfChunks)
  {
    var data := new Option<seq<byte>>[|records|](_ => None);
    assert data[..] == seq(|records|, _ => None);
    for i := 0 to |records|
      invariant Fill(records[..i], |records|, numberOfChunks) == Some(data[..])
    {
      assert records[..i + 1][..i] == records[..i];
      if records[i].Some? {
        var rec := records[i].value;
        var partData := GetBytes(rec, PartBin);
        var position := GetInt(rec, PositionBin);
        if partData.None? {
          continue;
        }
        if |partData.value| == 0 {
          continue;
        }
        if position < 0 || position >= numberOfChunks {
          continue;
        }
        if position >= data.Length {
          FillFailsIff(records[..i + 1], |records|, numberOfChunks);
          FillFailsIff(records, |records|, numberOfChunks);
          assert records[i] == records[..i + 1][i];
          return SlotIndexOutOfRange;
        }
        data[position] := Some(partData.value);
      }
    }
    assert records[..|records|] == records;
    ghost var filled := data[..];
    if data.Length != numberOfChunks {
      return Assembled([]);
    }
    var ms: seq<byte> := [];
    for i := 0 to data.Length
      invariant data[..] == filled
      invariant ms == Join(data[..i])
    {
      assert data[..i + 1] == data[..i] + [data[i]];
      JoinSnoc(data[..i], data[i]);
      if data[i].Some? && |data[i].value| > 0 {
        ms := ms + data[i].value;
      }
    }
    assert data[..data.Length] == data[..];
    return Assembled(ms);
  }

  /**
   * Outcomes of the reassembly: it fails exactly when a valid entry names a
   * position at or past the number of entries, which needs fewer entries
   * than `numberOfChunks`; and when the entry count differs from
   * `numberOfChunks` no bytes come back.
   */
  lemma CombineOutcomes(records: seq<Option<Bins>>, numberOfChunks: int)
    ensures Combine(records, numberOfChunks).SlotIndexOutOfRange?
        <==> exists j :: 0 <= j < |records| && Valid(records[j], numberOfChunks) && Position(records[j].value) >= |records|
    ensures Combine(records, numberOfChunks).SlotIndexOutOfRange? ==> |records| < numberOfChunks
    ensures |records| != numberOfChunks && Combine(records, numberOfChunks).Assembled?
        ==> Combine(records, numberOfChunks).data == []
  {
    FillFailsIff(records, |records|, numberOfChunks);
  }

  /** All valid entries that name the same position carry the same payload. */
  ghost predicate Consistent(records: seq<Option<Bins>>, numberOfChunks: int)
  {
    forall a, b ::
      (a in records && b in records && Valid(a, numberOfChunks) && Valid(b, numberOfChunks)
       && Position(a.value) == Position(b.value)) ==> Payload(a.value) == Payload(b.value)
  }

  /** Two batches with the same entries, whatever their order and repetitions, fill the same slot table. */
  lemma SameEntriesSameSlots(rs1: seq<Option<Bins>>, rs2: seq<Option<Bins>>, size: nat, numberOfChunks: int)
    requires forall x :: x in rs1 <==> x in rs2
    requires Consistent(rs1, numberOfChunks)
    requires Fill(rs1, size, numberOfChunks).Some? && Fill(rs2, size, numberOfChunks).Some?
    ensures Fill(rs1, size, numberOfChunks) == Fill(rs2, size, numberOfChunks)
  {
    var s1, s2 := Fill(rs1, size, numberOfChunks).value, Fill(rs2, size, numberOfChunks).value;
    forall p | 0 <= p < size
      ensures s1[p] == s2[p]
    {
      FillSlot(rs1, size, numberOfChunks, p);
      FillSlot(rs2, size, numberOfChunks, p);
      if s1[p].Some? {
        var j1 :| LastWriter(rs1, numberOfChunks, p, j1) && s1[p].value == Payload(rs1[j1].value);
        assert rs1[j1] in rs2;
        var k :| 0 <= k < |rs2| && rs2[k] == rs1[j1];
        assert WritesSlot(rs2[k], numberOfChunks, p);
        var j2 :| LastWriter(rs2, numberOfChunks, p, j2) && s2[p].value == Payload(rs2[j2].value);
        assert rs2[j2] in rs1;
      } else {
        forall j | 0 <= j < |rs2|
          ensures !WritesSlot(rs2[j], numberOfChunks, p)
        {
          assert rs2[j] in rs1;
          var k :| 0 <= k < |rs1| && rs1[k] == rs2[j];
        }
      }
    }
    assert s1 == s2;
  }

  /**
   * Batch order does not matter: a permutation of a batch whose entries
   * agree on each position's payload reassembles to the same outcome.
   */
  lemma ShuffleInvariant(rs1: seq<Option<Bins>>, rs2: seq<Option<Bins>>, numberOfChunks: int)
    requires multiset(rs1) == multiset(rs2)
    requires Consistent(rs1, numberOfChunks)
    ensures Combine(rs1, numberOfChunks) == Combine(rs2, numberOfChunks)
  {
    assert |rs1| == |multiset(rs1)| == |multiset(rs2)| == |rs2|;
    var size := |rs1|;
    FillFailsIff(rs1, size, numberOfChunks);
    FillFailsIff(rs2, size, numberOfChunks);
    if Fill(rs1, size, numberOfChunks).None? {
      var j :| 0 <= j < |rs1| && Valid(rs1[j], numberOfChunks) && Position(rs1[j].value) >= size;
      assert rs1[j] in multiset(rs1) && rs1[j] in multiset(rs2);
      assert rs1[j] in rs2;
    } else {
      forall j | 0 <= j < |rs2| && Valid(rs2[j], numberOfChunks)
        ensures Position(rs2[j].value) < size
      {
        assert rs2[j] in multiset(rs2) && rs2[j] in multiset(rs1);
        assert rs2[j] in rs1;
      }
      forall x
        ensures x in rs1 <==> x in rs2
      {
        assert x in rs1 <==> x in multiset(rs1);
        assert x in rs2 <==> x in multiset(rs2);
      }
      SameEntriesSameSlots(rs1, rs2, size, numberOfChunks);
    }
  }

  /** The chunk records a write stores, in write order: chunk `i` with position `i`. */
  function CanonicalRecords(parts: seq<seq<byte>>): seq<Option<Bins>>
  {
    seq(|parts|, i requires 0 <= i < |parts| => Some(ChunkBins(parts[i], i)))
  }

  /** Chunk record `p` of a write is valid and writes slot `p` with chunk `p`. */
  lemma CanonicalWrites(parts: seq<seq<byte>>, p: int)
    requires 0 <= p < |parts| && |parts[p]| > 0
    ensures WritesSlot(CanonicalRecords(parts)[p], |parts|, p)
    ensures Payload(CanonicalRecords(parts)[p].value) == parts[p]
  {
    assert CanonicalRecords(parts)[p].value == ChunkBins(parts[p], p);
  }

  lemma {:induction false} JoinFilled(slots: Slots, parts: seq<seq<byte>>)
    requires |slots| == |parts|
    requires forall i :: 0 <= i < |parts| ==> slots[i] == Some(parts[i]) && |parts[i]| > 0
    ensures Join(slots) == Concat(parts)
  {
    if slots != [] {
      JoinFilled(slots[1..], parts[1..]);
    }
  }

  /** Reading back the records of a write, in write order, gives the concatenated chunks. */
  lemma CanonicalCombine(parts: seq<seq<byte>>)
    requires forall i :: 0 <= i < |parts| ==> |parts[i]| > 0
    ensures Combine(CanonicalRecords(parts), |parts|) == Assembled(Concat(parts))
  {
    var rs, n := CanonicalRecords(parts), |parts|;
    forall j | 0 <= j < n
      ensures Valid(rs[j], n) && Position(rs[j].value) == j && Payload(rs[j].value) == parts[j]
    {
      assert rs[j].value == ChunkBins(parts[j], j);
    }
    FillFailsIff(rs, n, n);
    var slots := Fill(rs, n, n).value;
    forall p | 0 <= p < n
      ensures slots[p] == Some(parts[p])
    {
      FillSlot(rs, n, n, p);
      assert WritesSlot(rs[p], n, p);
      var j :| LastWriter(rs, n, p, j) && slots[p].value == Payload(rs[j].value);
    }
    JoinFilled(slots, parts);
  }

  /** The chunk records of one write never disagree on a position's payload. */
  lemma CanonicalConsistent(parts: seq<seq<byte>>)
    ensures Consistent(CanonicalRecords(parts), |parts|)
  {
    var rs := CanonicalRecords(parts);
    forall a, b | a in rs && b in rs && Valid(a, |parts|) && Valid(b, |parts|) && Position(a.value) == Position(b.value)
      ensures Payload(a.value) == Payload(b.value)
    {
      var i :| 0 <= i < |rs| && rs[i] == a;
      var j :| 0 <= j < |rs| && rs[j] == b;
      assert a.value == ChunkBins(parts[i], i);
      assert b.value == ChunkBins(parts[j], j);
    }
  }

  /**
   * A batch read that returns the chunk records of a write in ANY order
   * reconstructs the concatenation of the chunks.
   */
  lemma ShuffledBatchReassembles(parts: seq<seq<byte>>, records: seq<Option<Bins>>)
    requires forall i :: 0 <= i < |parts| ==> |parts[i]| > 0
    requires multiset(records) == multiset(CanonicalRecords(parts))
    ensures Combine(records, |parts|) == Assembled(Concat(parts))
  {
    CanonicalConsistent(parts);
    ShuffleInvariant(CanonicalRecords(parts), records, |parts|);
    CanonicalCombine(parts);
  }
}
