/** The chunked image decoder of `loadMnistTrainSet` as the source runs it:
    the closure variables `lastImageRead` and `remainingBytes` and the
    array `dataMatrix` of `Uint8Array` records, updated in place by
    `loadChunk`, `fillTruncated` and `fillData`. Each method is proved to
    leave the state that `ImageStreamSpec.Step` gives. */
module ImageStream {
  import opened IdxFormat
  import opened ImageStreamSpec

  class Decoder {
    var lastImageRead: nat
    var remainingBytes: nat
    /** The records allocated so far, slot `i` of `dataMatrix` for each `i < lastImageRead`. */
    var dataMatrix: seq<array<byte>>

    /** Every record is its own `imgSize`-byte buffer. */
    ghost predicate RecordsValid()
      reads this, dataMatrix
    {
      && (forall i :: 0 <= i < |dataMatrix| ==> dataMatrix[i].Length == ImgSize)
      && (forall i, j :: 0 <= i < j < |dataMatrix| ==> dataMatrix[i] != dataMatrix[j])
    }

    ghost predicate Valid()
      reads this, dataMatrix
    {
      RecordsValid() && WellFormed(State())
    }

    /** The bytes of the records, in index order. */
    function Records(): (r: seq<seq<byte>>)
      reads this, dataMatrix
      ensures |r| == |dataMatrix|
    {
      seq(|dataMatrix|, i requires 0 <= i < |dataMatrix| reads this, dataMatrix => dataMatrix[i][..])
    }

    ghost function State(): Progress
      reads this, dataMatrix
    {
      Progress(lastImageRead, remainingBytes, Records())
    }

    constructor ()
      ensures Valid() && State() == Start
    {
      lastImageRead, remainingBytes, dataMatrix := 0, 0, [];
    }

    /** `fillTruncated(globalImageNum)`: copies chunk bytes `0 .. remainingBytes-1`
        into the last `remainingBytes` bytes of the pending record, throwing
        on the first byte the chunk does not have. */
    method FillTruncated(chunk: seq<byte>, globalImageNum: nat) returns (res: Outcome)
      requires Valid() && 0 < remainingBytes && globalImageNum == lastImageRead - 1
      modifies dataMatrix[globalImageNum]
      ensures Valid()
      ensures res == if |chunk| < remainingBytes then Fail(RangeError) else Pass
      ensures res == Pass ==> Records() == old(Records())[globalImageNum :=
                CompleteRecord(old(Records())[globalImageNum], chunk, remainingBytes)]
      ensures forall i :: 0 <= i < |dataMatrix| && i != globalImageNum ==> Records()[i] == old(Records())[i]
    {
      var matrixOffset := ImgSize - remainingBytes;
      var image := dataMatrix[globalImageNum];
      for j := 0 to remainingBytes
        modifies image
        invariant j <= |chunk|
        invariant forall m :: 0 <= m < ImgSize ==>
          image[m] == if matrixOffset <= m < matrixOffset + j then chunk[m - matrixOffset] else old(image[m])
      {
        if |chunk| <= j {
          return Fail(RangeError);
        }
        image[matrixOffset + j] := chunk[j];
      }
      CompleteRecordBytes(old(Records())[globalImageNum], chunk, remainingBytes);
      assert image[..] == CompleteRecord(old(Records())[globalImageNum], chunk, remainingBytes);
      return Pass;
    }

    /** `fillData(chunkImageNum, globalImageNum)`: allocates a zeroed record
        at `globalImageNum`, copies the chunk's bytes from `start` into it
        (at most a whole record) and returns how many bytes it is short. */
    method FillData(chunk: seq<byte>, offset: nat, chunkImageNum: nat, globalImageNum: nat) returns (missing: int)
      requires RecordsValid() && globalImageNum == |dataMatrix|
      requires chunkImageNum * ImgSize + offset + remainingBytes <= |chunk|
      modifies this
      ensures RecordsValid()
      ensures lastImageRead == old(lastImageRead) && remainingBytes == old(remainingBytes)
      ensures |dataMatrix| == |old(dataMatrix)| + 1 && dataMatrix[..globalImageNum] == old(dataMatrix)
      ensures fresh(dataMatrix[globalImageNum])
      ensures var start := chunkImageNum * ImgSize + offset + remainingBytes;
        && Records() == old(Records()) + [CopyRecord(chunk, start)]
        && missing == start + ImgSize - |chunk|
    {
      var start := chunkImageNum * ImgSize + offset + remainingBytes;
      var end := if start + ImgSize < |chunk| then start + ImgSize else |chunk|;
      var image := new byte[ImgSize](_ => 0);
      dataMatrix := dataMatrix + [image];
      for j := 0 to end - start
        modifies image
        invariant forall m :: 0 <= m < ImgSize ==> image[m] == if m < j then chunk[start + m] else 0
      {
        image[j] := chunk[start + j];
      }
      CopyRecordBytes(chunk, start);
      assert image[..] == CopyRecord(chunk, start);
      assert Records()[..globalImageNum] == old(Records());
      missing := start + ImgSize - |chunk|;
    }

    /** The `fillData` loop of `loadChunk`: `numImages` fresh records, the
        `i`-th from chunk byte `i*imgSize + offset + remainingBytes`, each
        taking index `lastImageRead++`; the result is what the last one is short. */
    method FillImages(chunk: seq<byte>, offset: nat, numImages: nat) returns (lastImageRemainingBytes: int)
      requires RecordsValid() && |dataMatrix| == lastImageRead && 0 < numImages
      requires (numImages - 1) * ImgSize + offset + remainingBytes <= |chunk|
      modifies this
      ensures RecordsValid()
      ensures lastImageRead == old(lastImageRead) + numImages && |dataMatrix| == lastImageRead
      ensures remainingBytes == old(remainingBytes)
      ensures old(dataMatrix) <= dataMatrix
      ensures forall k :: |old(dataMatrix)| <= k < |dataMatrix| ==> fresh(dataMatrix[k])
      ensures Records() == old(Records()) + FreshRecords(chunk, offset + remainingBytes, numImages)
      ensures lastImageRemainingBytes == (numImages - 1) * ImgSize + offset + remainingBytes + ImgSize - |chunk|
    {
      lastImageRemainingBytes := 0;
      for i := 0 to numImages
        invariant RecordsValid()
        invariant lastImageRead == old(lastImageRead) + i && |dataMatrix| == lastImageRead
        invariant remainingBytes == old(remainingBytes)
        invariant old(dataMatrix) <= dataMatrix
        invariant forall k :: |old(dataMatrix)| <= k < |dataMatrix| ==> fresh(dataMatrix[k])
        invariant Records() == old(Records()) + FreshRecords(chunk, offset + remainingBytes, i)
        invariant 0 < i ==> lastImageRemainingBytes == (i - 1) * ImgSize + offset + remainingBytes + ImgSize - |chunk|
      {
        assert i * ImgSize <= (numImages - 1) * ImgSize;
        ghost var prev := Records();
        var g := lastImageRead;
        lastImageRead := lastImageRead + 1;
        lastImageRemainingBytes := FillData(chunk, offset, i, g);
        assert Records() == prev + [CopyRecord(chunk, offset + remainingBytes + i * ImgSize)];
        assert FreshRecords(chunk, offset + remainingBytes, i + 1)
            == FreshRecords(chunk, offset + remainingBytes, i) + [CopyRecord(chunk, offset + remainingBytes + i * ImgSize)];
      }
    }

    /** The tail of `loadChunk` after `fillTruncated`: `numImages` calls of
        `fillData`, then the last one's shortfall becomes the carry. */
    method FillRest(chunk: seq<byte>, offset: nat)
      requires Valid() && offset + remainingBytes <= |chunk|
      modifies this
      ensures Valid()
      ensures State() == Extend(old(State()), chunk, offset)
      ensures old(dataMatrix) <= dataMatrix
      ensures forall k :: |old(dataMatrix)| <= k < |dataMatrix| ==> fresh(dataMatrix[k])
    {
      ghost var p := State();
      var numBytes: nat := |chunk| - remainingBytes - offset;
      var numImages := numBytes / ImgSize + 1;
      assert (numImages - 1) * ImgSize <= numBytes;
      var lastImageRemainingBytes := FillImages(chunk, offset, numImages);
      assert lastImageRemainingBytes == ImgSize - numBytes % ImgSize;
      remainingBytes := lastImageRemainingBytes;
      ghost var e := Extend(p, chunk, offset);
      assert e.lastImageRead == lastImageRead && e.remainingBytes == remainingBytes && e.records == Records();
    }

    /** The four header assertions `loadChunk` makes on a stream's first chunk. */
    static method CheckHeader(chunk: seq<byte>) returns (res: Outcome)
      ensures res == ImageHeaderCheck(chunk)
    {
      res := Assertion(0, TrainDataMagicNum, chunk);
      if res.Fail? { return; }
      res := Assertion(1, NumImages, chunk);
      if res.Fail? { return; }
      res := Assertion(2, NumRows, chunk);
      if res.Fail? { return; }
      res := Assertion(3, NumColumns, chunk);
    }

    /** `loadChunk` on one chunk's bytes. */
    method LoadChunk(chunk: seq<byte>) returns (res: Outcome)
      requires Valid()
      modifies this, dataMatrix
      ensures Valid()
      ensures res == Pass <==> Step(old(State()), chunk).Success?
      ensures res == Pass ==> State() == Step(old(State()), chunk).value
      ensures res.Fail? ==> res.error == Step(old(State()), chunk).error
      ensures old(dataMatrix) <= dataMatrix
      ensures forall k :: |old(dataMatrix)| <= k < |dataMatrix| ==> fresh(dataMatrix[k])
    {
      ghost var p := State();
      var initialised := lastImageRead > 0;
      if !initialised {
        res := CheckHeader(chunk);
        if res.Fail? { return; }
      }
      var offset := if initialised then 0 else ImageHeaderBytes;
      if remainingBytes > 0 {
        res := FillTruncated(chunk, lastImageRead - 1);
        if res.Fail? { return; }
      }
      assert Records() == Truncated(p, chunk);
      FillRest(chunk, offset);
      assert Step(p, chunk) == Success(State());
      return Pass;
    }

    /** The chunks of a stream in order, as `reader.read().then(loadChunk)`
        delivers them, stopping at the first throw. */
    method LoadStream(chunks: seq<seq<byte>>) returns (res: Outcome)
      requires Valid()
      modifies this, dataMatrix
      ensures Valid()
      ensures res == Pass <==> Run(old(State()), chunks).Success?
      ensures res == Pass ==> State() == Run(old(State()), chunks).value
      ensures res.Fail? ==> res.error == Run(old(State()), chunks).error
    {
      for i := 0 to |chunks|
        invariant Valid()
        invariant old(dataMatrix) <= dataMatrix
        invariant forall k :: |old(dataMatrix)| <= k < |dataMatrix| ==> fresh(dataMatrix[k])
        invariant Run(old(State()), chunks) == Run(State(), chunks[i..])
      {
        assert chunks[i..][1..] == chunks[i + 1..];
        res := LoadChunk(chunks[i]);
        if res.Fail? {
          return;
        }
      }
      return Pass;
    }
  }

  /** The decode half of `loadMnistTrainSet`: a fresh decoder over the whole
      stream, then `dataMatrix` as the JavaScript array it is. */
  method DecodeImages(chunks: seq<seq<byte>>) returns (r: Result<seq<Option<seq<byte>>>>)
    ensures r == ImagesFromStream(chunks)
  {
    var decoder := new Decoder();
    var res := decoder.LoadStream(chunks);
    if res.Fail? {
      return Failure(res.error);
    }
    return Success(Matrix(decoder.Records()));
  }
}
