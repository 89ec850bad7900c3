# MNIST IDX decoding and caching, modelled in Dafny

This project models `src/data-loader.ts` of the MNIST reverse-search app.
That file loads the MNIST training set into the browser in three parts:

- **IDX decoding.** The label file arrives as one buffer; it is checked and copied into a `Uint8Array`. The image file arrives as a stream of chunks whose boundaries need not line up with records. The closure state of `loadChunk` (`lastImageRead`, `remainingBytes`, `dataMatrix`) cuts the stream into 784-byte records, carrying a partial record from one chunk into the next.
- **The header check.** `assertion` reads a 32-bit header word and throws when the word is zero or lies past the end of the buffer.
- **The dataset cache.** This is an IndexedDB object store read with `getDataset` and written with `addDataset`. The store is add-only: adding an existing key fails.

The model follows the source's own shape:

| file | module | contents |
|---|---|---|
| `idx_format.dfy` | `IdxFormat` | the `mnistConsts` constants, bytes, big-endian words, `assertion`, and the errors a load can throw |
| `label_decoder.dfy` | `LabelDecoder` | the label decode: a specification function, plus the loop that fills `labelArray` |
| `image_stream_spec.dfy` | `ImageStreamSpec` | `loadChunk` as a pure step from state to state; the reassembly theorem and its corollaries |
| `image_stream.dfy` | `ImageStream` | class `Decoder`, whose methods do what `loadChunk`, `fillTruncated` and `fillData` do, updating `lastImageRead`, `remainingBytes` and an array per record in place; each method is proved to reach the state the pure step gives |
| `dataset_cache.dfy` | `DatasetCache` | `makeKey` and its inverse; the store as a map with `get` and add-only `add`; class `Store` holding that map |
| `data_loader.dfy` | `DataLoader` | `loadMnistTrainLabels`, `loadMnistTrainSet` and `loadMnist`, first as functions from the store and the fetched bytes to a result and a new store, then as methods over a `Store` |

The browser's I/O becomes parameters:

- The fetched label file is `Option<seq<byte>>`; `None` is a response without a body.
- The image stream is `Option<seq<seq<byte>>>`: the chunks the reader delivers, in order.
- Another load of the same dataset may add its value between this load's lookup and its own add. The optional `raced` payload stands for that other load's add.

The central theorem is `ImageStreamSpec.Reassembly`. It says what the stream decoder computes on any list of chunks:

- Suppose the first chunk passes the header check, and every later chunk is at least as long as the carry it has to complete (`FitsAfter`). Then the decoder ends in `Assembled(Concat(chunks))`. There, record `r` is bytes `16 + 784*r ..` of the concatenated stream, zero-padded, so the chunk boundaries do not matter.
- Otherwise it throws: the header check's error, or a `RangeError` from `getUint8`.

`ImageStream.Decoder.LoadStream` is proved to reach that state by in-place updates.

Behaviour of the code worth knowing (the model follows the code):

- **No length check rejects a truncated image file.** When its chunks still decode, the last record is zero-padded (`ShortFileIsPadded`). A first chunk shorter than the 16-byte header throws, with `RangeError` unless an earlier header word is already zero (`ImageHeaderErrors`); a stream with no chunks at all decodes to 60000 holes.
- **A stream that ends on a record boundary gets one extra record.** That record is all zeros, and the carry left behind is 784, not 0 (`BoundaryLeavesZeroRecord`). A complete 60000-image file therefore leaves `dataMatrix` with 60001 entries (`CompleteFileMatrix`).
- **The label loader does not tolerate a rejected add.** It awaits `addDataset`, so a key taken by another load makes the whole load throw `DuplicateKey` (`LabelsRaceThrows`). Only the image loader ignores a failed add (`ImagesRaceIgnored`).
- **The label count comes from the constant, not the file.** The loader always reads `numImages` (60000) labels, whatever count the header declares.
- **The header check is weak.** It passes any non-zero word (`AssertionIgnoresExpected`).

## Model

| member | source | states |
|---|---|---|
| IdxFormat.ImgSizeIsColumnsTimesRows | src/data-loader.ts:180 | the record size 784 is `numColumns * numRows` of `mnistConsts` |
| IdxFormat.ReadU32 | src/data-loader.ts:34 | the big-endian word is below 2^32, and is zero exactly when its four bytes are zero |
| IdxFormat.ReadEncodeU32 | src/data-loader.ts:34 | reading back the four big-endian bytes of a word gives the word, wherever it sits in a buffer |
| IdxFormat.Assertion | src/data-loader.ts:34 | the check passes exactly when the word at byte `offset*4` is inside the buffer and non-zero; past the buffer's end it throws `RangeError`, otherwise `assertion failed offset` |
| IdxFormat.AssertionOnWord | src/data-loader.ts:34 | for any expected value, a word `x` fails exactly when `x == 0` |
| IdxFormat.AssertionIgnoresExpected | src/data-loader.ts:34 | a word of 1 passes where 2051 is expected; a word of 0 fails |
| IdxFormat.AndThen | src/data-loader.ts:175-178 | consecutive checks pass exactly when both do; a failing first check is what is thrown, and when the first passes the second's outcome is the result |
| IdxFormat.ImageHeaderCheck | src/data-loader.ts:175-178 | the image header passes exactly when the chunk has 16 bytes and words 0 to 3 are all non-zero |
| IdxFormat.ImageHeaderErrors | src/data-loader.ts:175-178 | an image header check throws only `RangeError` or `assertion failed`; a chunk shorter than 16 bytes whose words present are all non-zero throws `RangeError`; a zero first word fails with offset 0 |
| IdxFormat.LabelHeaderCheck | src/data-loader.ts:138-139 | the label header passes exactly when the buffer has 8 bytes and words 0 and 1 are non-zero |
| LabelDecoder.LabelsFromBuffer | src/data-loader.ts:137-143 | succeeds exactly when the header passes and the buffer holds 8 + 60000 bytes; then it gives 60000 labels with label `i` equal to byte `8+i`; a header failure is propagated before any label is read; a short buffer throws `RangeError` |
| LabelDecoder.DecodeLabels | src/data-loader.ts:137-143 | the loop filling a zeroed `labelArray` returns exactly `LabelsFromBuffer`, including its errors |
| ImageStreamSpec.Zeros | src/data-loader.ts:194 | a fresh `Uint8Array(imgSize)` is all zeros |
| ImageStreamSpec.CopyRecord | src/data-loader.ts:191-199 | a record allocated by `fillData` is 784 bytes long |
| ImageStreamSpec.CopyRecordBytes | src/data-loader.ts:191-199 | byte `j` of that record is chunk byte `start+j`, or 0 past the end of the chunk |
| ImageStreamSpec.CompleteRecord | src/data-loader.ts:183-189 | the record `fillTruncated` completes stays 784 bytes long |
| ImageStreamSpec.CompleteRecordBytes | src/data-loader.ts:183-189 | its first `784 - remainingBytes` bytes are kept; the rest are chunk bytes `0 .. remainingBytes-1` |
| ImageStreamSpec.FreshRecords | src/data-loader.ts:206-209 | the `fillData` loop allocates `numImages` records of 784 bytes each |
| ImageStreamSpec.FreshRecordsAt | src/data-loader.ts:206-209 | fresh record `i` starts at chunk byte `start + 784*i` |
| ImageStreamSpec.Truncated | src/data-loader.ts:201-203 | `fillTruncated` keeps the number of records and their size |
| ImageStreamSpec.Extend | src/data-loader.ts:204-210 | the `fillData` loop and the new carry keep the decoder state well formed: one record per `lastImageRead`, carry at most 784 |
| ImageStreamSpec.Fill | src/data-loader.ts:201-210 | `fillTruncated` followed by the `fillData` loop keeps the decoder state well formed |
| ImageStreamSpec.FillRecords | src/data-loader.ts:201-210 | the records after `fillTruncated` and the loop are the completed earlier records followed by the `trunc(numBytes/784)+1` fresh ones |
| ImageStreamSpec.FillAdvances | src/data-loader.ts:201-210 | `lastImageRead` grows by `trunc(numBytes/784)+1`; the new carry is `784 - numBytes % 784`; the earlier records are the completed ones; fresh record `i` is copied from `offset + remainingBytes + 784*i` |
| ImageStreamSpec.Step | src/data-loader.ts:167-218 | one `loadChunk` call keeps the decoder state well formed |
| ImageStreamSpec.StepAdvances | src/data-loader.ts:173-210 | a chunk succeeds exactly when the header passes (first chunk only) and the chunk covers the carry plus the header; then `lastImageRead` grows by `trunc(numBytes/784)+1`, the carry becomes `784 - numBytes mod 784` (always in 1..784), and earlier records are untouched |
| ImageStreamSpec.Run | src/data-loader.ts:166-218 | reading the chunks in order keeps the state well formed |
| ImageStreamSpec.Matrix | src/data-loader.ts:156 | `new Array(numImages)` after the assignments: at least 60000 long, record `i` in slot `i`, holes elsewhere |
| ImageStreamSpec.ImagesFromStream | src/data-loader.ts:156-219 | the decode half of `loadMnistTrainSet`: it succeeds exactly when every `loadChunk` call does, with the first error otherwise, and on success returns the records placed in `new Array(numImages)`, at least 60000 long |
| ImageStreamSpec.FirstStep | src/data-loader.ts:172-210 | the first chunk throws the header check's error, or leaves exactly the state its own bytes determine |
| ImageStreamSpec.NextStepRecords | src/data-loader.ts:183-210 | a later chunk that covers the carry leaves the records of the stream extended by that chunk |
| ImageStreamSpec.NextStep | src/data-loader.ts:183-210 | a later chunk throws `RangeError` exactly when it is shorter than the carry; otherwise it leaves the state the extended stream determines |
| ImageStreamSpec.BlocksSplit | src/data-loader.ts:183-209 | the records of two concatenated byte runs are those of the first, with its last record completed from the second, followed by the records that start in the second |
| ImageStreamSpec.RunAfter | src/data-loader.ts:166-218 | from a state that matches the bytes so far, the rest of the chunks throw `RangeError` exactly when one is shorter than its carry, and otherwise lead to the state the whole stream determines |
| ImageStreamSpec.Reassembly | src/data-loader.ts:163-218 | the result of a whole stream: no chunks leave the start state; the first chunk's header error; `RangeError` for a chunk shorter than its carry; otherwise the state of the concatenated stream |
| ImageStreamSpec.Decoded | src/data-loader.ts:163-218 | a stream that decodes ends in the state of its concatenated bytes |
| ImageStreamSpec.DecodedImages | src/data-loader.ts:156-219 | the array a decodable stream yields: entry `i` is the `i`-th 784-byte block after the header, zero-padded, up to one entry past the last full block, then holes up to 60000 |
| ImageStreamSpec.RecordsAreStreamSlices | src/data-loader.ts:183-210 | byte `j` of record `r` is stream byte `16 + 784*r + j`, or 0 past the end |
| ImageStreamSpec.ChunkBoundaryInvariance | src/data-loader.ts:163-218 | two splits of the same bytes that both decode give the same records and carry |
| ImageStreamSpec.BoundaryLeavesZeroRecord | src/data-loader.ts:204-210 | a stream ending on a record boundary decodes to one extra, all-zero record, with a carry of 784 |
| ImageStreamSpec.CompleteFileMatrix | src/data-loader.ts:156 | a complete 60000-image file leaves the array 60001 long, its last entry all zeros |
| ImageStreamSpec.ShortFileIsPadded | src/data-loader.ts:191-199 | a file one byte short still decodes to 60000 records, the last one ending in a zero |
| ImageStreamSpec.CarryFillsZeroRecord | src/data-loader.ts:183-189 | after a chunk that ends on a record boundary, the empty record is filled in full from the next chunk's first 784 bytes |
| ImageStream.Decoder.constructor | src/data-loader.ts:163-164 | a new decoder is in the start state: no records, no carry |
| ImageStream.Decoder.FillTruncated | src/data-loader.ts:183-189 | throws `RangeError` exactly when the chunk is shorter than the carry; otherwise the pending record becomes its completed form; every other record is unchanged |
| ImageStream.Decoder.FillData | src/data-loader.ts:191-199 | appends one newly allocated array holding the record copied from `start`; returns `start + 784 - length`; the earlier records are unchanged |
| ImageStream.Decoder.FillImages | src/data-loader.ts:206-209 | appends exactly the `numImages` fresh records in index order, each a new array; `lastImageRead` grows by `numImages`; returns the last record's shortfall |
| ImageStream.Decoder.FillRest | src/data-loader.ts:204-210 | after the carry, the state becomes the one `Extend` gives |
| ImageStream.Decoder.CheckHeader | src/data-loader.ts:174-179 | the four assertions give the image header check's outcome |
| ImageStream.Decoder.LoadChunk | src/data-loader.ts:167-218 | one chunk: succeeds exactly when `Step` does, with the new state `Step` gives, and otherwise throws `Step`'s error |
| ImageStream.Decoder.LoadStream | src/data-loader.ts:166-218 | the chunks in order: succeeds exactly when `Run` does, with `Run`'s state, and otherwise throws `Run`'s error |
| ImageStream.DecodeImages | src/data-loader.ts:156-219 | a fresh decoder over the stream yields exactly `ImagesFromStream`: the record array or the first error |
| DatasetCache.MakeKey | src/data-loader.ts:36-38 | the key is the split name, `_`, then the kind name |
| DatasetCache.ParseMakeKey | src/data-loader.ts:36-38 | every key can be parsed back to the split and kind it came from |
| DatasetCache.MakeParseKey | src/data-loader.ts:36-38 | every key that parses is the key of what it parses to |
| DatasetCache.MakeKeyInjective | src/data-loader.ts:36-38 | two datasets share a key exactly when they are the same dataset |
| DatasetCache.Lookup | src/data-loader.ts:73-95 | gives the stored value exactly when the key is present, and `undefined` otherwise |
| DatasetCache.Insert | src/data-loader.ts:108-117 | `add` succeeds exactly when the key is absent; otherwise it fails with `DuplicateKey` |
| DatasetCache.LookupAfterInsert | src/data-loader.ts:108-111 | after an add, the key reads back the new value and every other key reads what it did before |
| DatasetCache.InsertIsAddOnly | src/data-loader.ts:108-111 | an add keeps every key and stored value, and adds exactly one key |
| DatasetCache.InsertTwiceFails | src/data-loader.ts:108-117 | a second add under the same key is refused, whatever its value |
| DatasetCache.InsertKeepsWellTyped | src/data-loader.ts:100-111 | adding a payload of the key's kind keeps labels under label keys and images under image keys |
| DatasetCache.Store.constructor | src/data-loader.ts:46-50 | a newly created object store is empty |
| DatasetCache.Store.GetDataset | src/data-loader.ts:65-98 | returns the stored value exactly when the key is present |
| DatasetCache.Store.AddDataset | src/data-loader.ts:100-122 | stores the value under an absent key; under an existing key it rejects with `DuplicateKey` and the store is unchanged |
| DataLoader.TrainLabelsLoad | src/data-loader.ts:124-146 | a label load leaves the store well typed and only ever adds to it |
| DataLoader.TrainSetLoad | src/data-loader.ts:148-225 | an image load leaves the store well typed and only ever adds to it |
| DataLoader.MnistLoad | src/data-loader.ts:227-238 | `loadMnist` leaves the store well typed and only ever adds to it |
| DataLoader.LabelsHit | src/data-loader.ts:127-131 | on a hit the stored labels are returned, whatever the file, and the store is unchanged |
| DataLoader.LabelsMiss | src/data-loader.ts:132-145 | on a miss the result is the decode of the file, or `BodyNotFound`; the store gains exactly the decoded labels on success and is unchanged on failure |
| DataLoader.LabelsRaceThrows | src/data-loader.ts:144 | if another load adds first, the label load throws `DuplicateKey` although its decode succeeded, and the other load's labels stay |
| DataLoader.ImagesHit | src/data-loader.ts:151-155 | on a hit the stored records are returned, whatever the stream, and the store is unchanged |
| DataLoader.ImagesMiss | src/data-loader.ts:156-224 | on a miss the result is the decode of the stream, or `BodyNotFound`; the store gains exactly the decoded records on success and is unchanged on failure |
| DataLoader.ImagesRaceIgnored | src/data-loader.ts:220-222 | if another load adds first, the image load still returns its own records, and the store keeps the other load's |
| DataLoader.LabelsCached | src/data-loader.ts:124-146 | after a successful label load, any later label load returns the same labels and leaves the store as it is |
| DataLoader.ImagesCached | src/data-loader.ts:148-225 | after a successful image load, any later image load returns the same records and leaves the store as it is |
| DataLoader.LabelsStoreShape | src/data-loader.ts:124-146 | a label load changes the store at most in the label key, and only when that key was absent |
| DataLoader.ImagesStoreShape | src/data-loader.ts:148-225 | the same for an image load and the image key |
| DataLoader.LabelsIgnoreOtherKey | src/data-loader.ts:124-146 | a label load behaves the same whatever any other key holds |
| DataLoader.ImagesIgnoreOtherKey | src/data-loader.ts:148-225 | an image load behaves the same whatever any other key holds |
| DataLoader.LoadsCommute | src/data-loader.ts:228 | running the two loads in either order gives the same two results and the same store; only the choice of error when both fail differs from `Promise.all` (see "## Left out") |
| DataLoader.MnistResult | src/data-loader.ts:227-238 | `loadMnist` succeeds exactly when both loads do; a label failure is what it throws, and otherwise the image failure; on success the train split holds the two results and the test split is empty |
| DataLoader.LoadTrainLabels | src/data-loader.ts:124-146 | over a `Store`, returns and stores exactly what `TrainLabelsLoad` gives |
| DataLoader.LoadTrainSet | src/data-loader.ts:148-225 | over a `Store`, returns and stores exactly what `TrainSetLoad` gives |
| DataLoader.LoadMnist | src/data-loader.ts:227-238 | over a `Store`, returns and stores exactly what `MnistLoad` gives |

## Left out

- IndexedDB plumbing is not modelled: `getDb`, `onupgradeneeded`, transactions and their `onsuccess`/`oncomplete`/`onerror` handlers, and promise wrapping (src/data-loader.ts:40-59, 66-121). The store is an abstract map. A failed transaction or request (`Transaction failed`, `obs error`) is not modelled; the only store error modelled is the duplicate-key rejection of `add`.
- `fetch`, `response.arrayBuffer()`, `getReader()` and the async recursion over `reader.read()` are network I/O. The label file is given as its bytes and the image stream as its chunks in order. The end-of-stream read (`done` with no `value`) is the end of the chunk list.
- `new DataView(value.buffer)` reads from the start of the chunk's underlying buffer, not from the chunk's `byteOffset`. Each chunk is modelled as its own byte sequence.
- `console.log` and `console.time` are not modelled.
- The `ml-matrix` import and the commented-out prototype code are unused and not modelled.
- `Promise.all` is left out and the two loads run one after the other, labels first (`LoadsCommute` shows the order does not change results or store). The error order differs: when both loads fail, the model reports the label load's error, while `Promise.all` rejects with whichever failure happens first in time.
- Concurrency is modelled only as one other load's add landing between a load's lookup and its own add (`raced`). It is not modelled at a finer interleaving. That add's payload is assumed to be of the key's kind.
- The loaders require a well-typed store: label keys hold label arrays, image keys hold record arrays. In the source the typed overloads of `getDataset` assume this without checking.
- When `fillTruncated` throws part-way, it leaves some bytes written; the pure step discards that state because the load has failed. The `Decoder` methods keep those writes but promise nothing about them.
- rs_crate/src/lib.rs (the wasm bridge) and src/index.ts (UI rendering and random sampling) are not part of this model.
