/** The flat label decoder of `loadMnistTrainLabels`: check the two header
    words, then copy one label byte per image out of the whole buffer. */
module LabelDecoder {
  import opened IdxFormat

  /** The labels a complete label buffer decodes to: the header is checked
      first, then byte `8 + i` is label `i` for every one of the `NumImages`
      images; a buffer too short for them fails as `getUint8` does. */
  function LabelsFromBuffer(buf: seq<byte>): (r: Result<seq<byte>>)
    ensures r.Success? <==> LabelHeaderCheck(buf) == Pass && LabelHeaderBytes + NumImages <= |buf|
    ensures r.Success? ==> |r.value| == NumImages && forall i :: 0 <= i < NumImages ==> r.value[i] == buf[LabelHeaderBytes + i]
    ensures LabelHeaderCheck(buf).Fail? ==> r == Failure(LabelHeaderCheck(buf).error)
    ensures LabelHeaderCheck(buf) == Pass && |buf| < LabelHeaderBytes + NumImages ==> r == Failure(RangeError)
  {
    var header := LabelHeaderCheck(buf);
    if header.Fail? then Failure(header.error)
    else if |buf| < LabelHeaderBytes + NumImages then Failure(RangeError)
    else Success(buf[LabelHeaderBytes..LabelHeaderBytes + NumImages])
  }

  /** The decode as the loader runs it: a zeroed `Uint8Array(numImages)`
      filled by a loop that reads `getUint8(8 + i)`, throwing on the first
      read past the end of the buffer. */
  method DecodeLabels(buf: seq<byte>) returns (r: Result<seq<byte>>)
    ensures r == LabelsFromBuffer(buf)
  {
    var header := AndThen(Assertion(0, TrainLabelMagicNum, buf), Assertion(1, NumImages, buf));
    if header.Fail? {
      return Failure(header.error);
    }
    var labelArray := new byte[NumImages](_ => 0);
    for i := 0 to NumImages
      invariant LabelHeaderBytes + i <= |buf|
      invariant labelArray[..i] == buf[LabelHeaderBytes..LabelHeaderBytes + i]
    {
      if |buf| <= LabelHeaderBytes + i {
        return Failure(RangeError);
      }
      labelArray[i] := buf[LabelHeaderBytes + i];
    }
    assert labelArray[..] == labelArray[..NumImages];
    return Success(labelArray[..]);
  }
}
