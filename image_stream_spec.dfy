/** The chunked image stream decoder of `loadMnistTrainSet` (`loadChunk`,
    `fillTruncated`, `fillData`) as a function from the decoder's state and
    one chunk to its next state, and what the whole stream decodes to:
    every record is the matching 784-byte slice of the stream after its
    header, however the stream was split, as long as each chunk is long
    enough for the carry it must complete. */
module ImageStreamSpec {
  import opened IdxFormat

  function Zeros(n: nat): (r: seq<byte>)
    ensures |r| == n && forall j :: 0 <= j < n ==> r[j] == 0
  {
    seq(n, _ => 0)
  }

  /** The record `fillData` makes: a zeroed `Uint8Array(imgSize)` holding the
      chunk's bytes from `start`, as many as the chunk still has, at most a
      whole record. */
  function CopyRecord(chunk: seq<byte>, start: nat): (r: seq<byte>)
    requires start <= |chunk|
    ensures |r| == ImgSize
  {
    var end := if start + ImgSize < |chunk| then start + ImgSize else |chunk|;
    chunk[start..end] + Zeros(ImgSize - (end - start))
  }

  /** Byte `j` of the record is chunk byte `start + j`, or 0 past the chunk's end. */
  lemma CopyRecordBytes(chunk: seq<byte>, start: nat)
    requires start <= |chunk|
    ensures forall j :: 0 <= j < ImgSize ==>
      CopyRecord(chunk, start)[j] == if start + j < |chunk| then chunk[start + j] else 0
  {
  }

  /** The record `fillTruncated` leaves: its last `remaining` bytes replaced
      by the first `remaining` bytes of the new chunk, the rest kept. */
  function CompleteRecord(rec: seq<byte>, chunk: seq<byte>, remaining: nat): (r: seq<byte>)
    requires |rec| == ImgSize && remaining <= ImgSize && remaining <= |chunk|
    ensures |r| == ImgSize
  {
    rec[..ImgSize - remaining] + chunk[..remaining]
  }

  /** The first `ImgSize - remaining` bytes are kept, the rest come from the chunk's front. */
  lemma CompleteRecordBytes(rec: seq<byte>, chunk: seq<byte>, remaining: nat)
    requires |rec| == ImgSize && remaining <= ImgSize && remaining <= |chunk|
    ensures forall j :: 0 <= j < ImgSize ==>
      CompleteRecord(rec, chunk, remaining)[j] == if j < ImgSize - remaining then rec[j] else chunk[j - (ImgSize - remaining)]
  {
  }

  /** The `n` records that one chunk's `fillData` loop allocates, the first
      starting at chunk byte `start`, each one record after the last. */
  function FreshRecords(chunk: seq<byte>, start: nat, n: nat): (r: seq<seq<byte>>)
    requires n == 0 || start + (n - 1) * ImgSize <= |chunk|
    ensures |r| == n && forall i :: 0 <= i < n ==> |r[i]| == ImgSize
  {
    if n == 0 then [] else FreshRecords(chunk, start, n - 1) + [CopyRecord(chunk, start + (n - 1) * ImgSize)]
  }

  /** Fresh record `i` is the record starting `i` records after `start`. */
  lemma {:induction false} FreshRecordsAt(chunk: seq<byte>, start: nat, n: nat)
    requires n == 0 || start + (n - 1) * ImgSize <= |chunk|
    ensures forall i :: 0 <= i < n ==> FreshRecords(chunk, start, n)[i] == CopyRecord(chunk, start + i * ImgSize)
  {
    if n > 0 {
      FreshRecordsAt(chunk, start, n - 1);
    }
  }

  /** The closure state of `loadChunk`: `lastImageRead`, `remainingBytes`
      and the records allocated in `dataMatrix` so far. */
  datatype Progress = Progress(lastImageRead: nat, remainingBytes: nat, records: seq<seq<byte>>)

  /** The state before the first chunk. */
  const Start: Progress := Progress(0, 0, [])

  /** What every state reachable from `Start` satisfies. */
  predicate WellFormed(p: Progress) {
    && |p.records| == p.lastImageRead
    && p.remainingBytes <= ImgSize
    && (p.remainingBytes > 0 ==> p.lastImageRead > 0)
    && forall i :: 0 <= i < |p.records| ==> |p.records[i]| == ImgSize
  }

  /** The records after `fillTruncated`: when a carry is pending, the
      record it belongs to has its last `remainingBytes` bytes filled from
      the front of the chunk. */
  function Truncated(p: Progress, chunk: seq<byte>): (r: seq<seq<byte>>)
    requires WellFormed(p) && p.remainingBytes <= |chunk|
    ensures |r| == |p.records| && forall i :: 0 <= i < |r| ==> |r[i]| == ImgSize
  {
    if p.remainingBytes > 0
    then p.records[p.lastImageRead - 1 := CompleteRecord(p.records[p.lastImageRead - 1], chunk, p.remainingBytes)]
    else p.records
  }

  /** The state after the `fillData` loop and the new carry, from a state
      whose pending record is already complete and once `offset` header
      bytes have been skipped: `trunc(numBytes/imgSize) + 1` new records,
      the last of which gives the new carry. */
  function Extend(p: Progress, chunk: seq<byte>, offset: nat): (r: Progress)
    requires WellFormed(p) && offset + p.remainingBytes <= |chunk|
    ensures WellFormed(r)
  {
    var numBytes: nat := |chunk| - p.remainingBytes - offset;
    var numImages := numBytes / ImgSize + 1;
    var start := offset + p.remainingBytes;
    var lastStart := (numImages - 1) * ImgSize + start;
    assert lastStart + ImgSize - |chunk| == ImgSize - numBytes % ImgSize;
    Progress(p.lastImageRead + numImages, lastStart + ImgSize - |chunk|,
             p.records + FreshRecords(chunk, start, numImages))
  }

  /** The state after `fillTruncated` and the `fillData` loop. */
  function Fill(p: Progress, chunk: seq<byte>, offset: nat): (r: Progress)
    requires WellFormed(p) && offset + p.remainingBytes <= |chunk|
    ensures WellFormed(r)
  {
    Extend(Progress(p.lastImageRead, p.remainingBytes, Truncated(p, chunk)), chunk, offset)
  }

  /** One call of `loadChunk`: the header check and 16-byte skip while no
      record has been allocated, then `fillTruncated` for the carry, which
      throws when the chunk is shorter than the carry, then the `fillData` loop. */
  function Step(p: Progress, chunk: seq<byte>): (r: Result<Progress>)
    requires WellFormed(p)
    ensures r.Success? ==> WellFormed(r.value)
  {
    var initialised := p.lastImageRead > 0;
    var header := if initialised then Pass else ImageHeaderCheck(chunk);
    if header.Fail? then Failure(header.error)
    else if |chunk| < p.remainingBytes then Failure(RangeError)
    else Success(Fill(p, chunk, if initialised then 0 else ImageHeaderBytes))
  }

  /** `loadChunk` over the chunks of a stream in order, stopping at the first throw. */
  function Run(p: Progress, chunks: seq<seq<byte>>): (r: Result<Progress>)
    requires WellFormed(p)
    ensures r.Success? ==> WellFormed(r.value)
    decreases |chunks|
  {
    if chunks == [] then Success(p)
    else match Step(p, chunks[0])
      case Failure(e) => Failure(e)
      case Success(q) => Run(q, chunks[1..])
  }

  /** The bytes of a chunked stream, in order. */
  function Concat(chunks: seq<seq<byte>>): seq<byte> {
    if chunks == [] then [] else chunks[0] + Concat(chunks[1..])
  }

  /** A record body cut into `ImgSize`-byte records, the last one zero-padded;
      a body that ends on a record boundary gets a last record of zeros. */
  function Blocks(body: seq<byte>): seq<seq<byte>> {
    seq(|body| / ImgSize + 1, k requires 0 <= k < |body| / ImgSize + 1 => CopyRecord(body, k * ImgSize))
  }

  /** The state the decoder should be in after any chunks that make up `stream`. */
  function Assembled(stream: seq<byte>): (r: Progress)
    requires ImageHeaderBytes <= |stream|
    ensures WellFormed(r) && 0 < r.remainingBytes
  {
    var body := stream[ImageHeaderBytes..];
    Progress(|body| / ImgSize + 1, ImgSize - |body| % ImgSize, Blocks(body))
  }

  /** The carry left after the first `len` bytes of a stream. */
  function CarryAfter(len: nat): nat
    requires ImageHeaderBytes <= len
  {
    ImgSize - (len - ImageHeaderBytes) % ImgSize
  }

  /** Each of `chunks`, arriving after `len` bytes of the stream, is at least
      as long as the carry it has to complete. */
  predicate FitsAfter(len: nat, chunks: seq<seq<byte>>)
    requires ImageHeaderBytes <= len
    decreases |chunks|
  {
    chunks == [] || (CarryAfter(len) <= |chunks[0]| && FitsAfter(len + |chunks[0]|, chunks[1..]))
  }

  /** The JavaScript array `new Array(numImages)` after the records have
      been assigned to its first slots: holes where no record was assigned,
      and longer than `numImages` when more records were. */
  function Matrix(records: seq<seq<byte>>): (m: seq<Option<seq<byte>>>)
    ensures |m| == if |records| < NumImages then NumImages else |records|
    ensures forall i :: 0 <= i < |m| ==> m[i] == if i < |records| then Some(records[i]) else None
  {
    seq(if |records| < NumImages then NumImages else |records|, i requires 0 <= i => if i < |records| then Some(records[i]) else None)
  }

  /** What `loadMnistTrainSet` decodes a stream to, or the error it throws. */
  function ImagesFromStream(chunks: seq<seq<byte>>): (r: Result<seq<Option<seq<byte>>>>)
    ensures r.Success? <==> Run(Start, chunks).Success?
    ensures r.Failure? ==> r.error == Run(Start, chunks).error
    ensures r.Success? ==> r.value == Matrix(Run(Start, chunks).value.records)
    ensures r.Success? ==> NumImages <= |r.value|
  {
    match Run(Start, chunks)
    case Failure(e) => Failure(e)
    case Success(p) => Success(Matrix(p.records))
  }

  // ---------------------------------------------------------------------
  // Properties of one chunk.

  /** Each chunk allocates `trunc(numBytes/imgSize) + 1` records and leaves
      a carry of `imgSize - numBytes mod imgSize`, which is never 0. The
      header words are checked only while no record has been allocated. */
  lemma StepAdvances(p: Progress, chunk: seq<byte>)
    requires WellFormed(p)
    ensures var offset := if p.lastImageRead > 0 then 0 else ImageHeaderBytes;
      Step(p, chunk).Success? <==>
        (p.lastImageRead > 0 || ImageHeaderCheck(chunk) == Pass) && p.remainingBytes + offset <= |chunk|
    ensures Step(p, chunk).Success? ==>
      var offset := if p.lastImageRead > 0 then 0 else ImageHeaderBytes;
      var numBytes := |chunk| - p.remainingBytes - offset;
      var q := Step(p, chunk).value;
      && q.lastImageRead == p.lastImageRead + numBytes / ImgSize + 1
      && q.remainingBytes == ImgSize - numBytes % ImgSize
      && 1 <= q.remainingBytes <= ImgSize
      && forall i :: 0 <= i < p.lastImageRead - 1 ==> q.records[i] == p.records[i]
  {
  }

  lemma CopyRecordDrop(s: seq<byte>, d: nat, start: nat)
    requires d + start <= |s|
    ensures CopyRecord(s, d + start) == CopyRecord(s[d..], start)
  {
    var x, y := CopyRecord(s, d + start), CopyRecord(s[d..], start);
    CopyRecordBytes(s, d + start);
    CopyRecordBytes(s[d..], start);
    forall j | 0 <= j < ImgSize ensures x[j] == y[j] {}
  }

  lemma CopyRecordExtend(s: seq<byte>, t: seq<byte>, start: nat)
    requires start + ImgSize <= |s|
    ensures CopyRecord(s + t, start) == CopyRecord(s, start)
  {
    var x, y := CopyRecord(s + t, start), CopyRecord(s, start);
    CopyRecordBytes(s + t, start);
    CopyRecordBytes(s, start);
    forall j | 0 <= j < ImgSize ensures x[j] == y[j] {}
  }

  lemma CopyRecordJoin(s: seq<byte>, t: seq<byte>, start: nat, rem: nat)
    requires start <= |s| && start + ImgSize == |s| + rem && rem <= |t|
    ensures CopyRecord(s + t, start) == CompleteRecord(CopyRecord(s, start), t, rem)
  {
    var x, y := CopyRecord(s + t, start), CompleteRecord(CopyRecord(s, start), t, rem);
    CopyRecordBytes(s + t, start);
    CopyRecordBytes(s, start);
    CompleteRecordBytes(CopyRecord(s, start), t, rem);
    forall j | 0 <= j < ImgSize ensures x[j] == y[j] {}
  }

  /** The records the first chunk allocates are the records of its bytes. */
  lemma FirstStepRecords(chunk: seq<byte>)
    requires ImageHeaderCheck(chunk) == Pass
    ensures Step(Start, chunk).Success?
    ensures Step(Start, chunk).value.records == Assembled(chunk).records
  {
    var body := chunk[ImageHeaderBytes..];
    var n := |body| / ImgSize + 1;
    var x, y := FreshRecords(chunk, ImageHeaderBytes, n), Blocks(body);
    FreshRecordsAt(chunk, ImageHeaderBytes, n);
    forall k | 0 <= k < n ensures x[k] == y[k] {
      CopyRecordDrop(chunk, ImageHeaderBytes, k * ImgSize);
    }
    assert x == y;
  }

  /** The first chunk of a stream: after the header check it is exactly the
      state its bytes should give. */
  lemma FirstStep(chunk: seq<byte>)
    ensures Step(Start, chunk) == if ImageHeaderCheck(chunk).Fail? then Failure(ImageHeaderCheck(chunk).error)
                                  else Success(Assembled(chunk))
  {
    if ImageHeaderCheck(chunk) == Pass {
      FirstStepRecords(chunk);
      StepAdvances(Start, chunk);
      var q, a := Step(Start, chunk).value, Assembled(chunk);
      assert q.lastImageRead == a.lastImageRead && q.remainingBytes == a.remainingBytes;
      assert q == a;
    }
  }

  lemma CopyRecordAfter(s: seq<byte>, t: seq<byte>, start: nat)
    requires start <= |t|
    ensures CopyRecord(s + t, |s| + start) == CopyRecord(t, start)
  {
    var x, y := CopyRecord(s + t, |s| + start), CopyRecord(t, start);
    CopyRecordBytes(s + t, |s| + start);
    CopyRecordBytes(t, start);
    forall j | 0 <= j < ImgSize ensures x[j] == y[j] {}
  }

  /** The records that end inside `body`, or that `t`'s first `rem` bytes complete. */
  lemma BlocksHead(body: seq<byte>, t: seq<byte>, rem: nat)
    requires 0 < rem <= ImgSize && rem <= |t| && (|body| + rem) % ImgSize == 0
    ensures var k := (|body| + rem) / ImgSize;
      && |Blocks(body)| == k && k <= |Blocks(body + t)|
      && Blocks(body + t)[..k] == Blocks(body)[k - 1 := CompleteRecord(Blocks(body)[k - 1], t, rem)]
  {
    var k := (|body| + rem) / ImgSize;
    var x, y := Blocks(body + t)[..k], Blocks(body)[k - 1 := CompleteRecord(Blocks(body)[k - 1], t, rem)];
    forall r | 0 <= r < k ensures x[r] == y[r] {
      if r < k - 1 {
        CopyRecordExtend(body, t, r * ImgSize);
      } else {
        CopyRecordJoin(body, t, r * ImgSize, rem);
      }
    }
  }

  /** The records that start inside `t`, after its first `rem` bytes. */
  lemma BlocksTail(body: seq<byte>, t: seq<byte>, rem: nat)
    requires rem <= |t| && (|body| + rem) % ImgSize == 0
    ensures var k, n := (|body| + rem) / ImgSize, (|t| - rem) / ImgSize + 1;
      k <= |Blocks(body + t)| && Blocks(body + t)[k..] == FreshRecords(t, rem, n)
  {
    var k, n := (|body| + rem) / ImgSize, (|t| - rem) / ImgSize + 1;
    var x, y := Blocks(body + t)[k..], FreshRecords(t, rem, n);
    FreshRecordsAt(t, rem, n);
    assert |x| == n;
    forall i | 0 <= i < n ensures x[i] == y[i] {
      assert (k + i) * ImgSize == |body| + rem + i * ImgSize;
      CopyRecordAfter(body, t, rem + i * ImgSize);
    }
  }

  /** The records `Fill` leaves: the completed records, then the fresh ones. */
  lemma FillRecords(p: Progress, chunk: seq<byte>, offset: nat)
    requires WellFormed(p) && offset + p.remainingBytes <= |chunk|
    ensures Fill(p, chunk, offset).records
         == Truncated(p, chunk) + FreshRecords(chunk, offset + p.remainingBytes, (|chunk| - p.remainingBytes - offset) / ImgSize + 1)
  {
  }

  /** `fillTruncated` and the `fillData` loop allocate `trunc(numBytes/784) + 1`
      records, the earlier ones completed, and leave the last one's shortfall
      as the new carry. */
  lemma FillAdvances(p: Progress, chunk: seq<byte>, offset: nat)
    requires WellFormed(p) && offset + p.remainingBytes <= |chunk|
    ensures var numBytes := |chunk| - p.remainingBytes - offset;
            var q := Fill(p, chunk, offset);
      && q.lastImageRead == p.lastImageRead + numBytes / ImgSize + 1
      && q.remainingBytes == ImgSize - numBytes % ImgSize
      && q.records[..|p.records|] == Truncated(p, chunk)
      && forall i :: 0 <= i < |q.records| - |p.records| ==>
           q.records[|p.records| + i] == CopyRecord(chunk, offset + p.remainingBytes + i * ImgSize)
  {
    var numBytes := |chunk| - p.remainingBytes - offset;
    var added := FreshRecords(chunk, offset + p.remainingBytes, numBytes / ImgSize + 1);
    FillRecords(p, chunk, offset);
    var q := Fill(p, chunk, offset);
    assert q.records == Truncated(p, chunk) + added;
    FreshRecordsAt(chunk, offset + p.remainingBytes, numBytes / ImgSize + 1);
  }

  /** A later chunk that covers the carry: the completed records, then the fresh ones. */
  lemma LaterStepRecords(p: Progress, chunk: seq<byte>)
    requires WellFormed(p) && p.lastImageRead > 0 && p.remainingBytes <= |chunk|
    ensures Step(p, chunk).Success?
    ensures Step(p, chunk).value.records
         == Truncated(p, chunk) + FreshRecords(chunk, p.remainingBytes, (|chunk| - p.remainingBytes) / ImgSize + 1)
  {
    var rem := p.remainingBytes;
    assert Step(p, chunk) == Success(Fill(p, chunk, 0));
    FillRecords(p, chunk, 0);
    assert 0 + rem == rem && (|chunk| - rem - 0) / ImgSize == (|chunk| - rem) / ImgSize;
  }

  /** The records of `body + t`: those of `body` with the last completed
      by the first `rem` bytes of `t`, then the records that start in `t`. */
  lemma BlocksSplit(body: seq<byte>, t: seq<byte>, rem: nat)
    requires 0 < rem <= ImgSize && rem <= |t| && (|body| + rem) % ImgSize == 0
    ensures var k := (|body| + rem) / ImgSize;
      && |Blocks(body)| == k
      && Blocks(body + t) == Blocks(body)[k - 1 := CompleteRecord(Blocks(body)[k - 1], t, rem)]
                             + FreshRecords(t, rem, (|t| - rem) / ImgSize + 1)
  {
    var k := (|body| + rem) / ImgSize;
    BlocksHead(body, t, rem);
    BlocksTail(body, t, rem);
    var a := Blocks(body + t);
    assert a == a[..k] + a[k..];
  }

  /** The records after a chunk that covers the carry: `fillTruncated`
      completes the pending record and `fillData` adds the records that
      start in the chunk, together the records of `stream + chunk`. */
  lemma NextStepRecords(stream: seq<byte>, chunk: seq<byte>)
    requires ImageHeaderBytes <= |stream| && CarryAfter(|stream|) <= |chunk|
    ensures Step(Assembled(stream), chunk).Success?
    ensures Step(Assembled(stream), chunk).value.records == Assembled(stream + chunk).records
  {
    var p := Assembled(stream);
    var body, body' := stream[ImageHeaderBytes..], (stream + chunk)[ImageHeaderBytes..];
    var rem, k := p.remainingBytes, p.lastImageRead;
    LaterStepRecords(p, chunk);
    assert Truncated(p, chunk) == Blocks(body)[k - 1 := CompleteRecord(Blocks(body)[k - 1], chunk, rem)];
    BlocksSplit(body, chunk, rem);
    assert body' == body + chunk;
    assert Assembled(stream + chunk).records == Blocks(body + chunk);
    assert Step(p, chunk).value.records == Blocks(body + chunk);
  }

  /** A later chunk, arriving after the bytes `stream`: it fails exactly when
      it is shorter than the carry, and otherwise leaves the state that
      `stream + chunk` should give. */
  lemma NextStep(stream: seq<byte>, chunk: seq<byte>)
    requires ImageHeaderBytes <= |stream|
    ensures Step(Assembled(stream), chunk) == if |chunk| < CarryAfter(|stream|) then Failure(RangeError)
                                              else Success(Assembled(stream + chunk))
  {
    var p := Assembled(stream);
    StepAdvances(p, chunk);
    if CarryAfter(|stream|) <= |chunk| {
      NextStepRecords(stream, chunk);
      var q, a := Step(p, chunk).value, Assembled(stream + chunk);
      assert |(stream + chunk)[ImageHeaderBytes..]| == |stream| - ImageHeaderBytes + |chunk|;
      assert q.lastImageRead == a.lastImageRead && q.remainingBytes == a.remainingBytes;
      assert q == a;
    }
  }

  // ---------------------------------------------------------------------
  // Properties of a whole stream.

  lemma FitsAfterCons(len: nat, chunks: seq<seq<byte>>)
    requires ImageHeaderBytes <= len && chunks != []
    ensures FitsAfter(len, chunks) == (CarryAfter(len) <= |chunks[0]| && FitsAfter(len + |chunks[0]|, chunks[1..]))
  {
  }

  lemma FitsAfterCovered(stream: seq<byte>, chunks: seq<seq<byte>>)
    requires ImageHeaderBytes <= |stream| && chunks != [] && CarryAfter(|stream|) <= |chunks[0]|
    ensures FitsAfter(|stream|, chunks) == FitsAfter(|stream + chunks[0]|, chunks[1..])
  {
    var len := |stream| + |chunks[0]|;
    assert |stream + chunks[0]| == len;
    FitsAfterCons(|stream|, chunks);
    assert FitsAfter(|stream|, chunks) == FitsAfter(len, chunks[1..]);
  }

  lemma RunStep(p: Progress, q: Progress, chunks: seq<seq<byte>>)
    requires WellFormed(p) && chunks != [] && Step(p, chunks[0]) == Success(q)
    ensures Run(p, chunks) == Run(q, chunks[1..])
  {
  }

  lemma RunFails(p: Progress, chunks: seq<seq<byte>>, e: Error)
    requires WellFormed(p) && chunks != [] && Step(p, chunks[0]) == Failure(e)
    ensures Run(p, chunks) == Failure(e)
  {
  }

  lemma {:induction false} ConcatCons(chunks: seq<seq<byte>>)
    requires chunks != []
    ensures Concat(chunks) == chunks[0] + Concat(chunks[1..])
  {
  }

  /** A chunk shorter than its carry stops the stream with a `RangeError`. */
  lemma ShortChunk(stream: seq<byte>, chunks: seq<seq<byte>>)
    requires ImageHeaderBytes <= |stream| && chunks != [] && |chunks[0]| < CarryAfter(|stream|)
    ensures !FitsAfter(|stream|, chunks) && Run(Assembled(stream), chunks) == Failure(RangeError)
  {
    NextStep(stream, chunks[0]);
    RunFails(Assembled(stream), chunks, RangeError);
  }

  /** A chunk that covers its carry moves the state on to the one its bytes give. */
  lemma CoveredChunk(stream: seq<byte>, chunks: seq<seq<byte>>)
    requires ImageHeaderBytes <= |stream| && chunks != [] && CarryAfter(|stream|) <= |chunks[0]|
    ensures Run(Assembled(stream), chunks) == Run(Assembled(stream + chunks[0]), chunks[1..])
  {
    NextStep(stream, chunks[0]);
    RunStep(Assembled(stream), Assembled(stream + chunks[0]), chunks);
  }

  lemma ConcatAfter(stream: seq<byte>, chunks: seq<seq<byte>>)
    requires chunks != []
    ensures stream + chunks[0] + Concat(chunks[1..]) == stream + Concat(chunks)
  {
    ConcatCons(chunks);
    assert stream + chunks[0] + Concat(chunks[1..]) == stream + (chunks[0] + Concat(chunks[1..]));
  }

  /** From a state that matches the bytes so far, the remaining chunks fail
      exactly when one of them is shorter than its carry, and otherwise
      lead to the state that matches the whole stream. */
  lemma {:induction false} RunAfter(stream: seq<byte>, chunks: seq<seq<byte>>)
    requires ImageHeaderBytes <= |stream|
    ensures FitsAfter(|stream|, chunks) ==> Run(Assembled(stream), chunks) == Success(Assembled(stream + Concat(chunks)))
    ensures !FitsAfter(|stream|, chunks) ==> Run(Assembled(stream), chunks) == Failure(RangeError)
    decreases |chunks|
  {
    if chunks == [] {
      assert stream + Concat(chunks) == stream;
    } else if |chunks[0]| < CarryAfter(|stream|) {
      ShortChunk(stream, chunks);
    } else {
      var next := stream + chunks[0];
      CoveredChunk(stream, chunks);
      FitsAfterCovered(stream, chunks);
      RunAfter(next, chunks[1..]);
      ConcatAfter(stream, chunks);
    }
  }

  /** Reassembly: a stream decodes to the records of its concatenated bytes,
      whatever the chunk boundaries, provided its first chunk holds the
      header and passes its check and every later chunk covers the carry;
      otherwise the decode throws: the header check's error for the first
      chunk, a `RangeError` for a chunk shorter than its carry. */
  lemma {:induction false} Reassembly(chunks: seq<seq<byte>>)
    ensures Run(Start, chunks) ==
      if chunks == [] then Success(Start)
      else if ImageHeaderCheck(chunks[0]).Fail? then Failure(ImageHeaderCheck(chunks[0]).error)
      else if !FitsAfter(|chunks[0]|, chunks[1..]) then Failure(RangeError)
      else Success(Assembled(Concat(chunks)))
  {
    if chunks != [] {
      FirstStep(chunks[0]);
      if ImageHeaderCheck(chunks[0]) == Pass {
        RunAfter(chunks[0], chunks[1..]);
        ConcatCons(chunks);
      }
    }
  }

  /** A stream that decodes is in the state its concatenated bytes give. */
  lemma {:induction false} Decoded(chunks: seq<seq<byte>>)
    requires Run(Start, chunks).Success? && chunks != []
    ensures ImageHeaderBytes <= |Concat(chunks)| && Run(Start, chunks).value == Assembled(Concat(chunks))
  {
    Reassembly(chunks);
  }

  /** The array `loadMnistTrainSet` returns for a stream that decodes:
      entry `i` is the `i`-th 784-byte block of the bytes after the header,
      zero-padded, up to one past the last full block, and a hole after that. */
  lemma DecodedImages(chunks: seq<seq<byte>>, i: nat)
    requires ImagesFromStream(chunks).Success? && chunks != []
    ensures ImageHeaderBytes <= |Concat(chunks)|
    ensures var body := Concat(chunks)[ImageHeaderBytes..];
            var m := ImagesFromStream(chunks).value;
      && |m| == (if |body| / ImgSize + 1 < NumImages then NumImages else |body| / ImgSize + 1)
      && (i < |m| ==> m[i] == if i <= |body| / ImgSize then Some(CopyRecord(body, i * ImgSize)) else None)
  {
    Decoded(chunks);
  }

  /** The record that starts at the end of the bytes is all zeros. */
  lemma CopyRecordAtEnd(s: seq<byte>)
    ensures CopyRecord(s, |s|) == Zeros(ImgSize)
  {
    var x := CopyRecord(s, |s|);
    CopyRecordBytes(s, |s|);
    forall j | 0 <= j < ImgSize ensures x[j] == 0 {}
  }

  /** Byte `j` of record `r` is stream byte `16 + r*784 + j`, or 0 past the
      end of the stream. */
  lemma {:induction false} RecordsAreStreamSlices(chunks: seq<seq<byte>>, r: nat, j: nat)
    requires Run(Start, chunks).Success? && chunks != []
    requires r < |Run(Start, chunks).value.records| && j < ImgSize
    ensures var stream := Concat(chunks);
      Run(Start, chunks).value.records[r][j] ==
        if ImageHeaderBytes + r * ImgSize + j < |stream| then stream[ImageHeaderBytes + r * ImgSize + j] else 0
  {
    Decoded(chunks);
    var stream := Concat(chunks);
    var body := stream[ImageHeaderBytes..];
    assert Run(Start, chunks).value.records[r] == CopyRecord(body, r * ImgSize);
    CopyRecordBytes(body, r * ImgSize);
  }

  /** Two splittings of the same bytes that both decode give the same records. */
  lemma {:induction false} ChunkBoundaryInvariance(a: seq<seq<byte>>, b: seq<seq<byte>>)
    requires Concat(a) == Concat(b)
    requires Run(Start, a).Success? && Run(Start, b).Success?
    requires a != [] && b != []
    ensures Run(Start, a) == Run(Start, b)
  {
    Reassembly(a);
    Reassembly(b);
  }

  /** A stream whose record bytes end exactly on a record boundary (as a
      complete 60000-image file does) decodes to one record more than it
      holds: the last one, at index `60000` for the complete file, all zeros. */
  lemma {:induction false} BoundaryLeavesZeroRecord(chunks: seq<seq<byte>>)
    requires Run(Start, chunks).Success? && chunks != []
    requires (|Concat(chunks)| - ImageHeaderBytes) % ImgSize == 0
    ensures var p := Run(Start, chunks).value;
      && |p.records| == (|Concat(chunks)| - ImageHeaderBytes) / ImgSize + 1
      && p.records[|p.records| - 1] == Zeros(ImgSize)
      && p.remainingBytes == ImgSize
  {
    Decoded(chunks);
    var p := Run(Start, chunks).value;
    var body := Concat(chunks)[ImageHeaderBytes..];
    assert p.records[|p.records| - 1] == CopyRecord(body, |body|);
    CopyRecordAtEnd(body);
  }

  /** A complete 60000-image file leaves `dataMatrix` one entry longer than
      `numImages`. */
  lemma {:induction false} CompleteFileMatrix(chunks: seq<seq<byte>>)
    requires Run(Start, chunks).Success? && chunks != []
    requires |Concat(chunks)| == ImageHeaderBytes + NumImages * ImgSize
    ensures var m := Matrix(Run(Start, chunks).value.records);
      |m| == NumImages + 1 && m[NumImages] == Some(Zeros(ImgSize))
  {
    BoundaryLeavesZeroRecord(chunks);
  }

  /** A file one byte short is not rejected: the last image is padded with a zero. */
  lemma {:induction false} ShortFileIsPadded(chunks: seq<seq<byte>>)
    requires Run(Start, chunks).Success? && chunks != []
    requires |Concat(chunks)| == ImageHeaderBytes + NumImages * ImgSize - 1
    ensures var m := Matrix(Run(Start, chunks).value.records);
      |m| == NumImages && m[NumImages - 1].Some? && m[NumImages - 1].value[ImgSize - 1] == 0
  {
    Decoded(chunks);
    var body := Concat(chunks)[ImageHeaderBytes..];
    assert |body| / ImgSize == NumImages - 1;
    assert Run(Start, chunks).value.records[NumImages - 1] == CopyRecord(body, (NumImages - 1) * ImgSize);
    CopyRecordBytes(body, (NumImages - 1) * ImgSize);
  }

  /** A chunk that ends on a record boundary leaves a zero record whose
      `imgSize` carry the next chunk fills in full from its first bytes. */
  lemma {:induction false} CarryFillsZeroRecord(stream: seq<byte>, chunk: seq<byte>)
    requires ImageHeaderBytes <= |stream| && (|stream| - ImageHeaderBytes) % ImgSize == 0
    requires ImgSize <= |chunk|
    ensures var p := Assembled(stream);
      && p.remainingBytes == ImgSize
      && p.records[p.lastImageRead - 1] == Zeros(ImgSize)
      && Step(p, chunk).Success?
      && Step(p, chunk).value.records[p.lastImageRead - 1] == chunk[..ImgSize]
  {
    var p := Assembled(stream);
    var body := stream[ImageHeaderBytes..];
    assert p.records[p.lastImageRead - 1] == CopyRecord(body, |body|);
    CopyRecordAtEnd(body);
    var x := Step(p, chunk).value.records[p.lastImageRead - 1];
    assert x == CompleteRecord(p.records[p.lastImageRead - 1], chunk, ImgSize);
  }
}
