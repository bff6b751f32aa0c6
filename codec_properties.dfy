/**
 * What the encoder and the decoder promise together: a buffer that starts with
 * an encoding declares the payload's length, decodes to the payload followed
 * by at most two stale bytes, and is decoded from its extended-size prefix
 * alone; the image caller's buffer sizes leave the decoder room for its final
 * group.
 */
module CodecProperties {
  import opened Bytes
  import opened ExtendedSize
  import opened ByteGroup
  import opened BufferSpec
  import opened BufferCodec

  /** The first 24 channel bytes of an encoding are the expansion of the length header. */
  lemma EncodedHeader(p: seq<byte>)
    requires |p| < MAX_INPUT_SIZE
    ensures |Encoded(p)| >= 24 && Encoded(p)[..24] == ExtendBytes(HeaderGroup(|p|))
  {
    var s := GroupStream(p);
    ExtendBytesSlice(s, 0, 3);
    assert s[0..3] == s[..3];
  }

  /** The channel bytes after the header are the expansion of the payload groups. */
  lemma EncodedPayload(p: seq<byte>)
    requires |p| < MAX_INPUT_SIZE
    ensures |Encoded(p)| >= 24 && Encoded(p)[24..] == ExtendBytes(GroupStream(p)[3..])
  {
    var s := GroupStream(p);
    ExtendBytesSlice(s, 3, |s|);
    assert s[3..|s|] == s[3..];
  }

  /** A buffer that starts with the encoding of `p` declares the length of `p`, whatever follows it. */
  lemma DeclaredLengthOfEncoded(p: seq<byte>, rest: seq<byte>)
    requires |p| < MAX_INPUT_SIZE
    ensures |Encoded(p) + rest| >= 24 && DeclaredLength(Encoded(p) + rest) == |p|
  {
    var pix := Encoded(p) + rest;
    EncodedHeader(p);
    assert pix[..24] == Encoded(p)[..24];
    BytesRoundTrip(HeaderGroup(|p|));
    HeaderRoundTrip(|p|);
  }

  /**
   * The decoder's status on a buffer that starts with the encoding of `p`: 1
   * only when the whole buffer is shorter than 25 bytes (an empty payload with
   * no padding), 2 when the capacity is below the length of `p`, 0 otherwise.
   */
  lemma StatusOfEncoded(p: seq<byte>, rest: seq<byte>, outputSizeMax: nat)
    requires |p| < MAX_INPUT_SIZE
    ensures ContractStatus(Encoded(p) + rest, outputSizeMax) ==
      if |Encoded(p) + rest| < 25 then 1 else if outputSizeMax < |p| then 2 else 0
  {
    DeclaredLengthOfEncoded(p, rest);
  }

  /**
   * Decoding a buffer that starts with the encoding of `p` gives back the
   * payload groups the encoder expanded: `p` itself, then the stale bytes that
   * filled the rest of its final group.
   */
  lemma DecodedOfEncoded(p: seq<byte>, rest: seq<byte>)
    requires |p| < MAX_INPUT_SIZE && 25 <= |Encoded(p) + rest|
    ensures DeclaredLength(Encoded(p) + rest) == |p|
    ensures Decoded(Encoded(p) + rest) == GroupStream(p)[3..]
    ensures Decoded(Encoded(p) + rest)[..|p|] == p
  {
    var pix := Encoded(p) + rest;
    DeclaredLengthOfEncoded(p, rest);
    assert PayloadPixels(pix) == Encoded(p)[24..];
    EncodedPayload(p);
    BytesRoundTrip(GroupStream(p)[3..]);
    GroupStreamPayload(p);
  }

  /**
   * contractBuffer reads nothing at or past the extended size of the length it
   * decodes: two buffers of at least 25 bytes that agree up to that size get
   * the same status, length and output.
   */
  lemma DecodeReadsExtendedPrefix(a: seq<byte>, b: seq<byte>, outputSizeMax: nat)
    requires 25 <= |a| && 25 <= |b|
    requires var e := CalculateExtendedSize(DeclaredLength(a));
      e <= |a| && e <= |b| && a[..e] == b[..e]
    ensures DeclaredLength(a) == DeclaredLength(b)
    ensures ContractStatus(a, outputSizeMax) == ContractStatus(b, outputSizeMax)
    ensures ContractStatus(a, outputSizeMax) == 0 ==> Decoded(a) == Decoded(b)
  {
    var e := CalculateExtendedSize(DeclaredLength(a));
    assert a[..24] == a[..e][..24] == b[..e][..24] == b[..24];
    assert PayloadPixels(a) == a[..e][24..] == b[..e][24..] == PayloadPixels(b);
  }

  /**
   * The image caller's sizes (data2img.c:176): for a decoded buffer of fewer
   * than 2^32 bytes, the capacity `size / 8 * 3 + 256` fits a `uint`, and
   * whenever decoding succeeds it holds the final group whole.
   */
  lemma DecoderCallerSlack(pix: seq<byte>)
    requires |pix| < UINT_LIMIT
    ensures var m := |pix| / 8 * 3 + 256; m < UINT_LIMIT && WritesFit(pix, m, m)
  {
    var m := |pix| / 8 * 3 + 256;
    if ContractStatus(pix, m) == 0 {
      var r := RoundUp3(DeclaredLength(pix));
      assert 24 + 8 * r <= |pix|;
      assert 3 + r <= |pix| / 8;
    }
  }

  /**
   * A two-byte payload: the stream is the header, no whole group, and a final
   * group that repeats the header's last byte, so the decoder writes a trailing 0.
   */
  lemma TwoBytePayload()
    ensures GroupStream([0x41, 0x42]) == [2, 0, 0] + [0x41, 0x42, 0]
    ensures |Encoded([0x41, 0x42])| == 48
  {
    var p: seq<byte> := [0x41, 0x42];
    SmallHeaders();
    LastChunkPosExamples();
    assert LastGroup(p) == p[0..] + HeaderGroup(2)[2..] == [0x41, 0x42, 0];
    assert GroupStream(p) == [2, 0, 0] + p[..0] + [0x41, 0x42, 0];
  }

  /**
   * A four-byte payload: the stream is the header, one whole group, and a final
   * group that repeats the last two bytes of the whole group before it.
   */
  lemma FourBytePayload()
    ensures GroupStream([1, 2, 3, 4]) == [4, 0, 0] + [1, 2, 3] + [4, 2, 3]
  {
    var p: seq<byte> := [1, 2, 3, 4];
    SmallHeaders();
    LastChunkPosExamples();
    assert LastGroup(p) == p[3..] + p[0..3][1..] == [4, 2, 3];
    assert p[..3] == [1, 2, 3];
  }

  /** The length headers of the payloads in the examples above. */
  lemma SmallHeaders()
    ensures HeaderGroup(2) == [2, 0, 0] && HeaderGroup(4) == [4, 0, 0]
  {
    assert ToByte(0) == 0 && ToByte(1) == 1;
    assert ToByte(2) == 2 && ToByte(4) == 4;
    HeaderGroupOfDigits(2, 0, 0);
    HeaderGroupOfDigits(4, 0, 0);
  }

  /**
   * A buffer made of the encoding of `p` and anything after it, of at least 25
   * bytes, decodes to `p` when the capacity and the output array allow it.
   */
  lemma PaddedEncodingDecodes(p: seq<byte>, pix: seq<byte>, outputSizeMax: nat, capacity: nat)
    requires |p| < MAX_INPUT_SIZE && 25 <= |pix|
    requires |Encoded(p)| <= |pix| && pix[..|Encoded(p)|] == Encoded(p)
    requires |p| <= outputSizeMax && RoundUp3(|p|) <= capacity
    ensures ContractStatus(pix, outputSizeMax) == 0 && DeclaredLength(pix) == |p|
    ensures WritesFit(pix, outputSizeMax, capacity)
    ensures Decoded(pix)[..|p|] == p
  {
    var rest := pix[|Encoded(p)|..];
    assert pix == Encoded(p) + rest;
    StatusOfEncoded(p, rest, outputSizeMax);
    DecodedOfEncoded(p, rest);
  }

  /**
   * The encoder followed by the decoder on the encoded buffer: with an image
   * buffer of at least the extended size (and at least 25 bytes) and an output
   * array that holds the payload rounded up to whole groups, both return 0,
   * the decoder reports the payload's length and the output starts with the
   * payload.
   */
  method EncodeThenDecode(input: array<byte>, inputSize: nat, image: array<byte>, imageSize: nat,
                          output: array<byte>, outputSizeMax: nat, outputSizeOutput: array<nat>)
    returns (encodeStatus: int, decodeStatus: int)
    requires inputSize <= input.Length && inputSize < MAX_INPUT_SIZE
    requires CalculateExtendedSize(inputSize) <= imageSize <= image.Length && 25 <= imageSize < UINT_LIMIT
    requires inputSize <= outputSizeMax < UINT_LIMIT && RoundUp3(inputSize) <= output.Length
    requires outputSizeOutput.Length == 1
    requires input != image && input != output && image != output
    requires input as object != outputSizeOutput && image as object != outputSizeOutput
    requires output as object != outputSizeOutput
    modifies image, output, outputSizeOutput
    ensures encodeStatus == 0 && decodeStatus == 0
    ensures outputSizeOutput[0] == inputSize
    ensures output[..inputSize] == input[..inputSize]
  {
    ghost var payload := input[..inputSize];
    encodeStatus := ExtendBuffer(input, inputSize, image, imageSize);
    assert input[..inputSize] == payload;
    ghost var pix := image[..imageSize];
    assert pix == Encoded(payload) + Zeros(imageSize - CalculateExtendedSize(inputSize));
    PaddedEncodingDecodes(payload, pix, outputSizeMax, output.Length);
    decodeStatus := ContractBuffer(image, imageSize, output, outputSizeMax, outputSizeOutput);
    assert input[..inputSize] == payload;
    assert image[..imageSize] == pix;
    ghost var decoded := Decoded(pix);
    assert output[..RoundUp3(inputSize)] == decoded;
    assert output[..inputSize] == decoded[..inputSize] == payload;
  }
}
