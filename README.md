# Chunked blob storage over a key-value store

This project models `Program.cs` of the Pigment example. The program stores
one large byte value, such as a video file, in Aerospike. The value is split
into 1 MiB chunks. Each chunk is written to a record of its own, under a
fresh random id. A metadata record (key `"metadata"`) lists the chunk ids
and the chunk count. The program then reads the value back:

1. **Chunker** (`chunker.dfy`). The program computes
   `numChunks = ceil(length / chunkSize)` and copies out the chunks. Chunk
   `i` covers `[i*C, i*C + min(C, length - i*C))`. The model proves four
   facts about this: the count is the ceiling, every chunk is non-empty,
   every chunk but the last is full, and concatenating the chunks gives the
   value back.
2. **Write protocol** (`writer.dfy`, `backend.dfy`, `cleanup.dfy`).
   - Before the transaction, the program reads the previous metadata record
     to find the stale chunk keys.
   - Inside the transaction it puts every chunk, then the metadata record,
     then commits. An `AerospikeException` on this path aborts the
     transaction. Other exceptions are not modelled.
   - Finally it deletes the stale chunks one by one outside any
     transaction. It ignores per-key failures, and it runs this cleanup
     after an abort too.
   - The store is a `class` whose `records` map the methods update in
     place. A transaction is a `class` that buffers its writes until
     `Commit` applies them all at once.
3. **Key extraction** (`key_extraction.dfy`). `GetKeysFromList` keeps the
   string entries of the metadata list, in order. It maps each one to a key
   in the program's namespace and set. A missing list gives a null key
   array.
4. **Reassembly** (`reassembler.dfy`). `GetCombinedStoredParts` builds a
   slot table with one slot per batch record.
   - It skips absent records, records without a byte payload, records
     with an empty payload, and records whose position lies outside
     `[0, numberOfChunks)`.
   - If the same position appears twice, the later record wins.
   - The write at line 181 can fall outside the table, which throws.
   - It returns no bytes when the table length differs from the chunk
     count.
   - Otherwise it concatenates the filled slots in order.
5. **The program** (`blob_program.dfy`) chains the pieces: split, write,
   read back.

The main results:

- `Chunker.ConcatChunks`: splitting then concatenating is the identity.
- `Reassembler.ShuffledBatchReassembles`: a batch holding the canonical
  chunk records in any order reassembles to the value.
- `BlobProgram.WriteThenRead`: a committed write with fresh ids reads back
  as exactly the value written, whatever the store held before, provided
  the stored key list names neither the metadata key nor a new id.

The comment at line 26 says 4 MiB, but the constant is 1 MiB. The model
uses the constant. This is a stale comment, not a fault in the code, so it
has no row under "## Findings".

Where the code does not do what it evidently intends, the main model
follows the code as written. `findings.dfy` exhibits each case and proves a
corrected version (see "## Findings"):

- Cleanup also runs after a failed transaction.
- An unfilled slot is skipped silently rather than rejected.
- A batch shorter than the chunk count throws at the slot write.
- The chunk count overflows 32 bits for values near 2 GiB.

## Model

| member | source | states |
|---|---|---|
| Chunker.NumChunks | Program.cs:27 | the chunk-count expression over unbounded integers; this is the definition the other contracts use, and its meaning is stated by `Chunker.NumChunksIsCeiling` |
| Chunker.NumChunksIsCeiling | Program.cs:27 | the chunk count `n` is the ceiling of length / chunk size: `n*C >= L`, `(n-1)*C < L` when `n > 0`, and `n == 0` exactly when the value is empty |
| Chunker.ChunkStartInside | Program.cs:29-31 | every chunk index below the chunk count starts inside the value |
| Chunker.ChunksCount | Program.cs:27-28 | the chunk sequence has exactly `numChunks` entries |
| Chunker.ChunkAt | Program.cs:29-35 | chunk `i` is the slice starting at `i*C` of length `min(C, L - i*C)` |
| Chunker.ChunkShape | Program.cs:31-33 | every chunk is non-empty and at most C long, and every chunk except the last is exactly C long |
| Chunker.ConcatChunks | Program.cs:29-36 | concatenating the chunks in order gives back the original value |
| Chunker.Split | Program.cs:26-36 | the loop fills an array of `numChunks` chunks equal to the chunk sequence, whose concatenation is the value |
| KeyExtraction.StringsOfAppend | Program.cs:132-138 | filtering the list for strings distributes over concatenation |
| KeyExtraction.StringsOfMembers | Program.cs:132-138 | a string is kept exactly when it occurs as a string entry of the list; nothing else is kept |
| KeyExtraction.StringsOfAllStrings | Program.cs:132-138 | a list written as all strings (as line 76 writes the ids) is kept unchanged, in order |
| KeyExtraction.GetKeysFromList | Program.cs:127-154 | a null list gives a null key array; otherwise the keys are the string entries in order, each in the given namespace and set |
| Reassembler.Fill | Program.cs:159-188 | the slot table has one slot per batch record, unless a slot write falls outside it |
| Reassembler.FillFailsIff | Program.cs:176-181 | the slot loop throws exactly when some accepted record's position is at or beyond the batch length |
| Reassembler.FillSlot | Program.cs:160-188 | a slot is empty exactly when no accepted record names it; otherwise it holds the payload of the last such record |
| Reassembler.GetCombinedStoredParts | Program.cs:156-208 | the two loops compute the combined result: the out-of-range exception, an empty array on a count mismatch, or the filled slots joined in order |
| Reassembler.CombineOutcomes | Program.cs:159-194 | the result is the exception exactly when the slot write overflows, and no bytes when the record count differs from the chunk count |
| Reassembler.SameEntriesSameSlots | Program.cs:160-188 | two batches holding the same records, neither of which overflows the table, fill the same slot table when the records never give one position two different payloads |
| Reassembler.ShuffleInvariant | Program.cs:156-207 | reassembly does not depend on the order in which the batch returns such records |
| Reassembler.CanonicalWrites | Program.cs:162-181 | in the batch as written (part `i` at position `i`), record `i` is accepted and writes slot `i` |
| Reassembler.JoinFilled | Program.cs:197-206 | joining slots that are all filled with the parts gives the concatenation of the parts |
| Reassembler.CanonicalCombine | Program.cs:156-207 | the batch as written, with every part non-empty, reassembles to the concatenation of the parts |
| Reassembler.CanonicalConsistent | Program.cs:60-71 | the records written by the chunk loop never give one position two payloads |
| Reassembler.ShuffledBatchReassembles | Program.cs:102-103 | any reordering of the written chunk records reassembles to the concatenation of the parts |
| Backend.Store.Get | Program.cs:42 | the single-key read outside a transaction (also line 96): the committed record, or null for a missing key; this is the definition the other contracts use |
| Backend.Store.BatchGet | Program.cs:102 | the batch read returns one result per key, in key order, each the same as a single `Get` of that key |
| Backend.Store.Put | Program.cs:69 | a put inside a transaction buffers the write in the transaction and leaves the store unchanged; a failing put buffers nothing |
| Backend.Store.Commit | Program.cs:83 | a successful commit applies every buffered write to the store at once; a failing one applies none |
| Backend.Store.Abort | Program.cs:89 | aborting discards the buffered writes and leaves the store unchanged |
| Backend.Store.Delete | Program.cs:224 | a delete outside a transaction removes the key when it succeeds, and leaves the records unchanged when it fails |
| Cleanup.NonNullMembers | Program.cs:218-221 | the keys visited for deletion are exactly the non-null entries of the array |
| Cleanup.RemovedIff | Program.cs:216-231 | a key is removed exactly when the array is non-null, holds the key, and its delete does not fail |
| Cleanup.CleanExistingRecords | Program.cs:210-233 | deletes every non-null key in order and removes exactly the keys whose delete succeeds; a null array deletes nothing |
| Writer.StaleKeys | Program.cs:42-50 | the stale set read before the transaction: null without a metadata record or without a key list, otherwise the keys built from the list's string entries; this is the definition the other contracts use |
| Writer.ChunkWritesContent | Program.cs:59-71 | the chunk loop writes, under the key of id `i`, the record holding part `i` at position `i`, and writes nothing else |
| Writer.TxnWritesContent | Program.cs:59-80 | the transaction writes the chunk records plus a metadata record listing the ids in order, with the count of parts |
| Writer.WriteBlob | Program.cs:39-93 | the write commits exactly when no put and no commit throws; the store then holds the transaction's writes (or nothing new after an abort), minus the stale chunks whose delete succeeds |
| Writer.RemovedAreStale | Program.cs:42-50 | cleanup only ever removes chunk keys listed by the metadata record read before the write |
| Writer.CommittedWriteInstallsVersion | Program.cs:53-93 | after a committed write with fresh ids, the metadata lists the new ids and every new chunk record is in place |
| Writer.AbortedWriteAddsNothing | Program.cs:85-93 | after an abort the store holds no record the write created; it holds only what it held before, minus the cleaned keys |
| BlobProgram.ReadBlob | Program.cs:96-103 | the read path gives not found without metadata, a null key list without a list bin, and otherwise the reassembly of the batch read of the listed keys |
| BlobProgram.WriteThenRead | Program.cs:22-103 | a committed write of the chunks with fresh ids reads back as exactly the original value |
| BlobProgram.RunProgram | Program.cs:19-117 | splitting, writing and reading back returns the original value whenever the write commits with fresh ids |
| Findings.AbortedWriteDestroysCurrentVersion | Program.cs:85-93 | as written, a store that reads back `[7]` reads back no bytes after a write whose commit fails |
| Findings.CleanupOnCommitKeepsOrReplaces | Program.cs:85-93 | with cleanup only after a commit, an aborted write leaves the store as it was, and a committed one installs the new version |
| Findings.MissingChunkTruncates | Program.cs:199-205 | as written, a batch whose first chunk is missing reassembles to the second chunk alone, with no error |
| Findings.ShortBatchThrows | Program.cs:176-194 | as written, a batch shorter than the chunk count throws at the slot write before the count check is reached |
| Findings.CombineCheckedSound | Program.cs:156-207 | the corrected reassembly succeeds only when the batch has `numberOfChunks` records and every position is written by a valid record, and then returns what the program's reassembly returns |
| Findings.CompleteBatchFillsEverySlot | Program.cs:160-188 | a batch of the written chunk records, in any order, fills every slot |
| Findings.CombineCheckedComplete | Program.cs:156-207 | the corrected reassembly accepts every reordering of the written chunk records and returns the value |
| Findings.ChunkCountOverflows | Program.cs:27 | with 32-bit arithmetic, a value of 2146435073 bytes gives a chunk count of -2048 instead of 2048 |
| Findings.NumChunksNoOverflowBounded | Program.cs:27 | for every 32-bit length and chunk size, the corrected count lies between `L / C` and the 32-bit maximum |
| Findings.NumChunksNoOverflowIsCeiling | Program.cs:27 | the corrected count equals the ceiling of length / chunk size for every length |
| Findings.NumChunksInt32BelowOverflow | Program.cs:27 | the 32-bit count as written agrees with the ceiling whenever `length + chunkSize` does not overflow |

## Left out

- Client construction, policies, the Docker alternate-services flag and `client.Close()` (lines 1-17, 55-56, 125, 212-214) are connection setup and carry no logic. The delete policy's durable flag is reflected only in deletes being permanent.
- File input and output (lines 22, 105-112): the value is a parameter. The file written at line 111 is represented by the read outcome.
- Console output is not modelled.
- `Guid.NewGuid()` (line 62) is randomness. The ids are a supplied sequence, and the round-trip lemmas require them to be fresh (`Writer.FreshIds`).
- `AerospikeException`s are fault parameters: `Writer.TxnFault` picks the failing put or commit, and a set of keys whose delete fails stands for per-key delete errors. The model does not cover the outer catch at lines 119-122. The metadata `Get` calls, the batch read and `Abort` never fail in the model. Exceptions of other types are not caught at line 85; they would skip both `Abort` and the cleanup, and they are not modelled.
- Backend.Store.Commit: a failing commit applies none of the writes. A real commit that fails may leave the transaction in doubt, and that case is not modelled.
- Real isolation between concurrent clients is not modelled, and neither are record generations, TTLs or key digests. The store is a single map used by one program.
- Backend.Store.BatchGet returns the records in key order, as the client library does. Other orders are covered by `Reassembler.ShuffleInvariant`.
- `Record.GetInt`: the model reads a missing or non-integer bin as 0. The client's behaviour on a non-integer bin is not modelled, and neither is the conversion of a stored 64-bit integer to `int`.
- `Record.GetList`: the model reads a missing bin, or one that is not a list, as null. A non-list value is also null after the `as List<object>` cast at lines 48 and 100. The client's own behaviour on such a bin is not modelled.
- The batch read given a null key array (line 102 after a null from line 101) is client-library behaviour. The model stops there with the outcome `NoKeyList`.
- `Array.Copy` and `MemoryStream` are modelled as sequence slices and concatenation.
- Chunker.NumChunks: uses unbounded integers, so the 32-bit overflow at line 27 is not part of the main model. It is treated under "## Findings".
- Reassembler.GetCombinedStoredParts: the number of chunks is an unbounded `int`, so a metadata size outside the 32-bit range is not modelled.

## Findings

| source | as written | input that shows it | evidently intended | confidence | as-written member | corrected member |
|---|---|---|---|---|---|---|
| Program.cs:85-93 | the cleanup of the previous version's chunks runs after the try/catch, so it also runs when the transaction aborted | a store holding the one-chunk value `[7]` under id "a", then a write of `[1]` whose commit fails: the metadata still lists "a" but chunk "a" is deleted, so the read gives no bytes | clean up only after a successful commit, so a failed write leaves the previous version readable | not executed; high | Findings.AbortedWriteDestroysCurrentVersion | Findings.CleanupOnCommitKeepsOrReplaces |
| Program.cs:199-205 | an unfilled slot (a missing, empty or invalid chunk record) is skipped, and the remaining chunks are joined without error | a batch `[null, chunk [2] at position 1]` with 2 chunks reassembles to `[2]` | a missing chunk makes the read fail instead of returning a truncated value | not executed; medium | Findings.MissingChunkTruncates | Findings.CombineCheckedSound |
| Program.cs:176-194 | the slot table has the batch's length, but positions are checked only against `numberOfChunks`, and the length check comes after the writes | a batch holding only chunk 1 (position 1) with 2 chunks writes `data[1]` of a 1-slot table and throws | check the count before filling, and report a count mismatch | not executed; medium | Findings.ShortBatchThrows | Findings.CombineCheckedSound |
| Program.cs:27 | `value.Length + chunkSize - 1` is computed in 32-bit `int` and wraps for values near 2 GiB | a length of 2146435073 with 1 MiB chunks gives -2048 chunks, so `new byte[-2048][]` throws | the ceiling of length / chunk size, computed without overflow | not executed; high | Findings.ChunkCountOverflows | Findings.NumChunksNoOverflowIsCeiling |
