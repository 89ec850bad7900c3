/** The IDX binary layout shared by the MNIST image and label files: the
    format constants, big-endian 32-bit words, the header check and the
    errors a decode can raise. */
module IdxFormat {

  /** One unsigned byte, the element type of a `Uint8Array` and of `DataView.getUint8`. */
  newtype byte = x: int | 0 <= x < 256

  // The constants of `mnistConsts`.
  const TrainDataMagicNum: nat := 2051
  const TrainLabelMagicNum: nat := 2049
  const NumImages: nat := 60000
  const NumRows: nat := 28
  const NumColumns: nat := 28

  /** Bytes in one image record (`imgSize`), `NumColumns * NumRows`; written
      out as a literal so that the verifier reads `k * ImgSize` as linear. */
  const ImgSize: nat := 784

  lemma ImgSizeIsColumnsTimesRows()
    ensures ImgSize == NumColumns * NumRows
  {
  }

  /** Bytes of the image file's header: four 32-bit words. */
  const ImageHeaderBytes: nat := 4 * 4

  /** Bytes of the label file's header: two 32-bit words. */
  const LabelHeaderBytes: nat := 4 * 2

  /** What a load can throw. `RangeError` is what a `DataView` read past the
      end of its buffer throws; `AssertionFailed` is the header check's error;
      `BodyNotFound` is a response without a body; `DuplicateKey` is the
      store's rejection of an `add` for a key it already holds. */
  datatype Error =
    | RangeError
    | AssertionFailed(offset: nat)
    | BodyNotFound
    | DuplicateKey

  datatype Outcome = Pass | Fail(error: Error)

  datatype Option<+T> = None | Some(value: T)

  datatype Result<+T> = Success(value: T) | Failure(error: Error)

  const TwoTo32: nat := 0x1_0000_0000

  /** `DataView.getUint32(pos)`: the big-endian unsigned word at `pos .. pos+3`. */
  function ReadU32(buf: seq<byte>, pos: nat): (r: nat)
    requires pos + 4 <= |buf|
    ensures r < TwoTo32
    ensures r == 0 <==> buf[pos] == 0 && buf[pos + 1] == 0 && buf[pos + 2] == 0 && buf[pos + 3] == 0
  {
    buf[pos] as nat * 0x100_0000 + buf[pos + 1] as nat * 0x1_0000 + buf[pos + 2] as nat * 0x100 + buf[pos + 3] as nat
  }

  /** The four big-endian bytes of a 32-bit word, the inverse of `ReadU32`. */
  function EncodeU32(x: nat): (r: seq<byte>)
    requires x < TwoTo32
    ensures |r| == 4
  {
    [(x / 0x100_0000) as byte, (x / 0x1_0000 % 0x100) as byte, (x / 0x100 % 0x100) as byte, (x % 0x100) as byte]
  }

  lemma ReadEncodeU32(x: nat, before: seq<byte>, after: seq<byte>)
    requires x < TwoTo32
    ensures ReadU32(before + EncodeU32(x) + after, |before|) == x
  {
    var buf := before + EncodeU32(x) + after;
    var p := |before|;
    assert buf[p..p + 4] == EncodeU32(x);
    var b0, b1, b2, b3 := x / 0x100_0000, x / 0x1_0000 % 0x100, x / 0x100 % 0x100, x % 0x100;
    assert x / 0x1_0000 == b0 * 0x100 + b1;
    assert x / 0x100 == (x / 0x1_0000) * 0x100 + b2;
    assert x == (x / 0x100) * 0x100 + b3;
  }

  /** `assertion(offset, test, dv)`: reads the word at byte `offset*4` and
      fails when it is zero. The expected value `test` is never compared. */
  function Assertion(offset: nat, test: nat, buf: seq<byte>): (r: Outcome)
    ensures r == Pass <==> offset * 4 + 4 <= |buf| && ReadU32(buf, offset * 4) != 0
    ensures r.Fail? ==> r.error == (if offset * 4 + 4 <= |buf| then AssertionFailed(offset) else RangeError)
  {
    if |buf| < offset * 4 + 4 then Fail(RangeError)
    else if ReadU32(buf, offset * 4) == 0 then Fail(AssertionFailed(offset))
    else Pass
  }

  /** Whatever the expected value, the check passes on a word exactly when
      that word is non-zero: it accepts any non-zero word, including ones
      other than `test`. */
  lemma AssertionOnWord(offset: nat, test: nat, before: seq<byte>, x: nat, after: seq<byte>)
    requires |before| == offset * 4 && x < TwoTo32
    ensures Assertion(offset, test, before + EncodeU32(x) + after) == if x == 0 then Fail(AssertionFailed(offset)) else Pass
  {
    ReadEncodeU32(x, before, after);
  }

  /** The check is blind to its expected value: a word of 1 passes where 2051 is expected. */
  lemma AssertionIgnoresExpected()
    ensures Assertion(0, TrainDataMagicNum, EncodeU32(1)) == Pass
    ensures Assertion(0, TrainDataMagicNum, EncodeU32(0)) == Fail(AssertionFailed(0))
  {
    AssertionOnWord(0, TrainDataMagicNum, [], 1, []);
    AssertionOnWord(0, TrainDataMagicNum, [], 0, []);
  }

  /** Runs two checks in order: the first failure is the result. */
  function AndThen(first: Outcome, second: Outcome): (r: Outcome)
    ensures r == Pass <==> first == Pass && second == Pass
    ensures first.Fail? ==> r == first
    ensures first == Pass ==> r == second
  {
    if first.Fail? then first else second
  }

  /** The four header checks of an image chunk, words 0 to 3 in order. */
  function ImageHeaderCheck(chunk: seq<byte>): (r: Outcome)
    ensures r == Pass <==> ImageHeaderBytes <= |chunk| && ReadU32(chunk, 0) != 0 && ReadU32(chunk, 4) != 0
                             && ReadU32(chunk, 8) != 0 && ReadU32(chunk, 12) != 0
  {
    AndThen(Assertion(0, TrainDataMagicNum, chunk),
    AndThen(Assertion(1, NumImages, chunk),
    AndThen(Assertion(2, NumRows, chunk),
            Assertion(3, NumColumns, chunk))))
  }

  /** The error an image header check throws: the first word that is zero
      fails with its offset, and a chunk that ends before a word is reached
      throws `RangeError`. */
  lemma ImageHeaderErrors(chunk: seq<byte>)
    ensures ImageHeaderCheck(chunk).Fail? ==>
      ImageHeaderCheck(chunk).error == RangeError || ImageHeaderCheck(chunk).error.AssertionFailed?
    ensures |chunk| < ImageHeaderBytes
         && (4 <= |chunk| ==> ReadU32(chunk, 0) != 0)
         && (8 <= |chunk| ==> ReadU32(chunk, 4) != 0)
         && (12 <= |chunk| ==> ReadU32(chunk, 8) != 0)
        ==> ImageHeaderCheck(chunk) == Fail(RangeError)
    ensures 4 <= |chunk| && ReadU32(chunk, 0) == 0 ==> ImageHeaderCheck(chunk) == Fail(AssertionFailed(0))
  {
    var a0, a1 := Assertion(0, TrainDataMagicNum, chunk), Assertion(1, NumImages, chunk);
    var a2, a3 := Assertion(2, NumRows, chunk), Assertion(3, NumColumns, chunk);
    assert ImageHeaderCheck(chunk) == AndThen(a0, AndThen(a1, AndThen(a2, a3)));
  }

  /** The two header checks of the label buffer, words 0 and 1 in order. */
  function LabelHeaderCheck(buf: seq<byte>): (r: Outcome)
    ensures r == Pass <==> LabelHeaderBytes <= |buf| && ReadU32(buf, 0) != 0 && ReadU32(buf, 4) != 0
  {
    AndThen(Assertion(0, TrainLabelMagicNum, buf), Assertion(1, NumImages, buf))
  }
}
