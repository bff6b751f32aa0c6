/**
 * The buffer encoder and decoder: extendBuffer writes a length header, the
 * payload groups and zero padding into the caller's output buffer;
 * contractBuffer reads the header back and contracts the payload groups into
 * the caller's output buffer.
 */
module BufferCodec {
  import opened Bytes
  import opened ExtendedSize
  import opened ByteGroup
  import opened BufferSpec

  /**
   * extendBuffer. Returns 1 for a payload of 16 MiB or more and 2 for an
   * output buffer shorter than the extended size, in both cases before writing
   * anything; otherwise writes the encoding of `input[..inputSize]` followed by
   * zeros up to `outputSize` and returns 0. An empty payload is encoded as the
   * header alone (the source's arithmetic for the final group wraps around for
   * it; see `EmptyInputLastChunkPos`).
   */
  method ExtendBuffer(input: array<byte>, inputSize: nat, output: array<byte>, outputSize: nat)
    returns (status: int)
    requires inputSize <= input.Length && inputSize < UINT_LIMIT
    requires outputSize <= output.Length && outputSize < UINT_LIMIT
    requires input != output
    modifies output
    ensures status == ExtendStatus(inputSize, outputSize)
    ensures status != 0 ==> output[..] == old(output[..])
    ensures status == 0 ==>
      output[..outputSize] == Encoded(input[..inputSize]) + Zeros(outputSize - CalculateExtendedSize(inputSize))
    ensures output[outputSize..] == old(output[outputSize..])
  {
    if inputSize >= MAX_INPUT_SIZE {
      return 1;
    }
    if outputSize < CalculateExtendedSize(inputSize) {
      return 2;
    }
    ghost var enc := Encoded(input[..inputSize]);
    var used := EmitGroups(input, inputSize, output);
    PadWithZeros(output, used, outputSize);
    assert output[..outputSize] == enc + Zeros(outputSize - used);
    return 0;
  }

  /**
   * contractBuffer. Returns 1 when the buffer holds fewer than 25 bytes or
   * fewer than the extended size of the length its header declares, 2 when
   * that length exceeds `outputSizeMax`, in each case writing nothing;
   * otherwise writes the contracted payload groups to `output` (the final group
   * whole), stores the declared length in `outputSizeOutput[0]` and returns 0.
   * The source reads the header before the first check of the declared length;
   * it never writes past `output` when the array holds the final group whole.
   */
  method ContractBuffer(input: array<byte>, inputBufferSize: nat, output: array<byte>, outputSizeMax: nat,
                        outputSizeOutput: array<nat>) returns (status: int)
    requires inputBufferSize <= input.Length && inputBufferSize < UINT_LIMIT
    requires outputSizeMax < UINT_LIMIT
    requires outputSizeOutput.Length == 1
    requires input != output && output as object != outputSizeOutput
    requires WritesFit(input[..inputBufferSize], outputSizeMax, output.Length)
    modifies output, outputSizeOutput
    ensures status == ContractStatus(input[..inputBufferSize], outputSizeMax)
    ensures status != 0 ==> unchanged(output, outputSizeOutput)
    ensures status == 0 ==>
      var n := DeclaredLength(input[..inputBufferSize]);
      && outputSizeOutput[0] == n
      && output[..RoundUp3(n)] == Decoded(input[..inputBufferSize])
      && forall k :: RoundUp3(n) <= k < output.Length ==> output[k] == old(output[k])
  {
    ghost var pix := input[..inputBufferSize];
    if inputBufferSize < 25 {
      return 1;
    }
    var datachunk := new byte[3];
    var pixels := new byte[24];
    var outputSize := ReadHeader(input, inputBufferSize, pixels, datachunk);
    var inputSize := CalculateExtendedSize(outputSize);
    assert input[..inputBufferSize] == pix;
    if inputBufferSize < inputSize {
      assert ContractStatus(pix, outputSizeMax) == 1;
      return 1;
    }
    if outputSizeMax < outputSize {
      assert ContractStatus(pix, outputSizeMax) == 2;
      return 2;
    }
    assert ContractStatus(pix, outputSizeMax) == 0;
    ghost var body := PayloadPixels(pix);
    assert body == input[24 .. 24 + |body|];
    ContractGroupsInto(input, outputSize, output, datachunk, pixels, body);
    outputSizeOutput[0] := outputSize;
    assert input[..inputBufferSize] == pix;
    assert output[..RoundUp3(outputSize)] == Decoded(pix);
    return 0;
  }

  /**
   * The header step of contractBuffer: the first 24 pixel bytes go through the
   * pixel buffer and are contracted into the group buffer, whose three bytes
   * are read as a little-endian length.
   */
  method ReadHeader(input: array<byte>, inputBufferSize: nat, pixels: array<byte>, datachunk: array<byte>)
    returns (outputSize: nat)
    requires 25 <= inputBufferSize <= input.Length
    requires pixels.Length == 24 && datachunk.Length == 3
    requires input != pixels && input != datachunk && pixels != datachunk
    modifies pixels, datachunk
    ensures outputSize == DeclaredLength(input[..inputBufferSize])
  {
    ReadPixels(input, 0, pixels);
    ContractByteGroup(pixels, datachunk);
    assert pixels[..] == input[..inputBufferSize][..24];
    outputSize := HeaderValue(datachunk[..]);
  }

  /**
   * The loop of contractBuffer: block `i / 3` of the payload pixels, at
   * `input[24 + 8 * i ..]`, is contracted to `output[i .. i + 3]` for every
   * `i` below the declared length.
   */
  method ContractGroupsInto(input: array<byte>, outputSize: nat, output: array<byte>,
                            datachunk: array<byte>, pixels: array<byte>, ghost body: seq<byte>)
    requires datachunk.Length == 3 && pixels.Length == 24
    requires input != output && input != datachunk && input != pixels
    requires output != datachunk && output != pixels && datachunk != pixels
    requires |body| == 8 * RoundUp3(outputSize) && 24 + |body| <= input.Length
    requires body == input[24 .. 24 + |body|]
    requires RoundUp3(outputSize) <= output.Length
    modifies output, datachunk, pixels
    ensures output[..RoundUp3(outputSize)] == ContractBytes(body)
    ensures forall k :: RoundUp3(outputSize) <= k < output.Length ==> output[k] == old(output[k])
  {
    ghost var dec := ContractBytes(body);
    ghost var end := RoundUp3(outputSize);
    var i := 0;
    var p := 24;
    ghost var groups := 0;
    while i < outputSize
      invariant i == 3 * groups
      invariant i <= end
      invariant p == 24 + 8 * i
      invariant forall k :: 0 <= k < i ==> output[k] == dec[k]
      invariant forall k :: i <= k < output.Length ==> output[k] == old(output[k])
    {
      GroupPositions(i, outputSize);
      ContractGroupAt(input, p, pixels, datachunk, output, body, i);
      p := p + 24;
      i := i + 3;
      groups := groups + 1;
    }
    GroupPositions(i, outputSize);
    assert i == end;
    assert forall k :: 0 <= k < end ==> output[k] == dec[k];
    assert output[..end] == dec;
  }

  /**
   * The step contractBuffer takes for every group: copy the 24 pixel bytes at
   * `input[p ..]` into the pixel buffer, contract them into the group buffer
   * and copy the group to `output[i .. i + 3]`.
   */
  method ContractGroupAt(input: array<byte>, p: nat, pixels: array<byte>, datachunk: array<byte>,
                         output: array<byte>, ghost body: seq<byte>, i: nat)
    requires datachunk.Length == 3 && pixels.Length == 24
    requires input != datachunk && input != pixels && datachunk != pixels
    requires output != datachunk && output != pixels && output != input
    requires 8 * i + 24 <= |body| && i + 3 <= output.Length
    requires p == 24 + 8 * i && 24 + |body| <= input.Length && body == input[24 .. 24 + |body|]
    modifies pixels, datachunk, output
    ensures forall k :: i <= k < i + 3 ==> output[k] == ContractBytes(body)[k]
    ensures forall k :: 0 <= k < output.Length && !(i <= k < i + 3) ==> output[k] == old(output[k])
  {
    ReadPixels(input, p, pixels);
    ContractByteGroup(pixels, datachunk);
    ContractBytesSlice(body, i, i + 3);
    assert pixels[..] == body[8 * i .. 8 * i + 24];
    ghost var group := ContractBytes(body)[i .. i + 3];
    assert datachunk[0] == group[0] && datachunk[1] == group[1] && datachunk[2] == group[2];
    output[i] := datachunk[0];
    output[i + 1] := datachunk[1];
    output[i + 2] := datachunk[2];
    forall k | i <= k < i + 3
      ensures output[k] == ContractBytes(body)[k]
    {
      if k == i {
      } else if k == i + 1 {
      } else {
      }
    }
  }

  /** The copy loops of contractBuffer: `input[p .. p + 24]` goes to the pixel buffer. */
  method ReadPixels(input: array<byte>, p: nat, pixels: array<byte>)
    requires pixels.Length == 24 && p + 24 <= input.Length && input != pixels
    modifies pixels
    ensures pixels[..] == input[p .. p + 24]
  {
    for ii := 0 to 24
      invariant pixels[..ii] == input[p .. p + ii]
    {
      pixels[ii] := input[p + ii];
    }
  }

  /**
   * The part of extendBuffer that writes the header group and every payload
   * group, through a group buffer and a pixel buffer of its own; returns the
   * number of bytes written, which is the extended size.
   */
  method EmitGroups(input: array<byte>, inputSize: nat, output: array<byte>) returns (p: nat)
    requires inputSize < MAX_INPUT_SIZE && inputSize <= input.Length
    requires CalculateExtendedSize(inputSize) <= output.Length
    requires input != output
    modifies output
    ensures p == |Encoded(input[..inputSize])|
    ensures forall k :: 0 <= k < p ==> output[k] == Encoded(input[..inputSize])[k]
    ensures forall k :: p <= k < output.Length ==> output[k] == old(output[k])
  {
    ghost var stream := GroupStream(input[..inputSize]);
    var datachunk := new byte[3];
    var pixels := new byte[24];
    var header := HeaderGroup(inputSize);
    datachunk[0], datachunk[1], datachunk[2] := header[0], header[1], header[2];
    assert datachunk[..] == stream[..3];
    p := 0;
    EmitGroup(datachunk, pixels, output, p, stream, 0);
    p := 24;
    if inputSize > 0 {
      p := EmitPayloadGroups(input, inputSize, datachunk, pixels, output, stream);
    }
  }

  /**
   * The part of extendBuffer after the header: the whole payload groups, then
   * the final group, written from `output[24]` on; returns the position past
   * the final group.
   */
  method EmitPayloadGroups(input: array<byte>, inputSize: nat, datachunk: array<byte>, pixels: array<byte>,
                           output: array<byte>, ghost stream: seq<byte>) returns (p: nat)
    requires datachunk.Length == 3 && pixels.Length == 24
    requires input != output && input != datachunk && input != pixels
    requires output != datachunk && output != pixels && datachunk != pixels
    requires 0 < inputSize < MAX_INPUT_SIZE && inputSize <= input.Length
    requires stream == GroupStream(input[..inputSize])
    requires datachunk[..] == stream[..3]
    requires 8 * |stream| <= output.Length
    requires forall k :: 0 <= k < 24 ==> output[k] == ExtendBytes(stream)[k]
    modifies datachunk, pixels, output
    ensures p == 8 * |stream|
    ensures forall k :: 0 <= k < 8 * |stream| ==> output[k] == ExtendBytes(stream)[k]
    ensures forall k :: 8 * |stream| <= k < output.Length ==> output[k] == old(output[k])
  {
    ghost var payload := input[..inputSize];
    GroupStreamPayload(payload);
    var lastChunkPos := LastChunkPos(inputSize);
    LastChunkPosSize(inputSize);
    assert stream[3 .. 3 + lastChunkPos] == payload[..lastChunkPos] == input[..lastChunkPos];
    EmitWholeGroups(input, lastChunkPos, datachunk, pixels, output, stream);
    p := 24 + 8 * lastChunkPos;
    FinalGroupInStream(payload);
    assert payload[lastChunkPos..] == input[lastChunkPos .. inputSize];
    EmitFinalGroup(input, inputSize, lastChunkPos, datachunk, pixels, output, p, stream);
    p := p + 24;
  }

  /** The loop at the end of extendBuffer: zeros from the end of the encoding up to the output size. */
  method PadWithZeros(output: array<byte>, from: nat, to: nat)
    requires from <= to <= output.Length
    modifies output
    ensures forall k :: from <= k < to ==> output[k] == 0
    ensures forall k :: 0 <= k < output.Length && !(from <= k < to) ==> output[k] == old(output[k])
  {
    var p := from;
    while p < to
      invariant from <= p <= to
      invariant forall k :: from <= k < p ==> output[k] == 0
      invariant forall k :: 0 <= k < output.Length && !(from <= k < p) ==> output[k] == old(output[k])
    {
      output[p] := 0;
      p := p + 1;
    }
  }

  /**
   * The loop of extendBuffer over the whole payload groups before the final
   * one: group `i / 3` of the payload goes through the group buffer to
   * `output[24 + 8 * i ..]`.
   */
  method EmitWholeGroups(input: array<byte>, lastChunkPos: nat, datachunk: array<byte>, pixels: array<byte>,
                         output: array<byte>, ghost stream: seq<byte>)
    requires datachunk.Length == 3 && pixels.Length == 24
    requires input != output && input != datachunk && input != pixels
    requires output != datachunk && output != pixels && datachunk != pixels
    requires lastChunkPos % 3 == 0 && lastChunkPos <= input.Length
    requires lastChunkPos + 6 <= |stream|
    requires stream[3 .. 3 + lastChunkPos] == input[..lastChunkPos]
    requires datachunk[..] == stream[..3]
    requires 24 + 8 * lastChunkPos <= output.Length
    requires forall k :: 0 <= k < 24 ==> output[k] == ExtendBytes(stream)[k]
    modifies datachunk, pixels, output
    ensures datachunk[..] == stream[lastChunkPos .. lastChunkPos + 3]
    ensures forall k :: 0 <= k < 24 + 8 * lastChunkPos ==> output[k] == ExtendBytes(stream)[k]
    ensures forall k :: 24 + 8 * lastChunkPos <= k < output.Length ==> output[k] == old(output[k])
  {
    var i := 0;
    var p := 24;
    while i < lastChunkPos
      invariant i <= lastChunkPos && i % 3 == 0
      invariant p == 24 + 8 * i
      invariant forall k :: 0 <= k < p ==> output[k] == ExtendBytes(stream)[k]
      invariant forall k :: p <= k < output.Length ==> output[k] == old(output[k])
      invariant datachunk[..] == stream[i .. i + 3]
    {
      GroupPositions(i, lastChunkPos);
      datachunk[0], datachunk[1], datachunk[2] := input[i], input[i + 1], input[i + 2];
      forall k | 0 <= k < 3
        ensures datachunk[k] == stream[i + 3 + k]
      {
        assert stream[3 .. 3 + lastChunkPos][i + k] == input[..lastChunkPos][i + k];
      }
      EmitGroup(datachunk, pixels, output, p, stream, i + 3);
      p := p + 24;
      i := i + 3;
    }
  }

  /**
   * The final group of extendBuffer: the one to three payload bytes left are
   * written over the front of the group buffer, whose other bytes keep the
   * previous group's values, and the group goes to `output[p ..]`.
   */
  method EmitFinalGroup(input: array<byte>, inputSize: nat, lastChunkPos: nat, datachunk: array<byte>,
                        pixels: array<byte>, output: array<byte>, p: nat, ghost stream: seq<byte>)
    requires datachunk.Length == 3 && pixels.Length == 24
    requires input != output && input != datachunk && input != pixels
    requires output != datachunk && output != pixels && datachunk != pixels
    requires inputSize <= input.Length && lastChunkPos % 3 == 0
    requires lastChunkPos < inputSize <= lastChunkPos + 3
    requires |stream| == lastChunkPos + 6 && p == 8 * (lastChunkPos + 3)
    requires stream[lastChunkPos + 3 .. inputSize + 3] == input[lastChunkPos .. inputSize]
    requires stream[inputSize + 3 ..] == stream[inputSize .. lastChunkPos + 3]
    requires datachunk[..] == stream[lastChunkPos .. lastChunkPos + 3]
    requires p + 24 <= output.Length
    modifies datachunk, pixels, output
    ensures forall k :: p <= k < p + 24 ==> output[k] == ExtendBytes(stream)[k]
    ensures forall k :: 0 <= k < output.Length && !(p <= k < p + 24) ==> output[k] == old(output[k])
  {
    var rest := inputSize - lastChunkPos;
    if rest == 3 {
      datachunk[2] := input[lastChunkPos + 2];
    }
    if rest >= 2 {
      datachunk[1] := input[lastChunkPos + 1];
    }
    datachunk[0] := input[lastChunkPos];
    forall k | 0 <= k < 3
      ensures datachunk[k] == stream[lastChunkPos + 3 + k]
    {
      if k < rest {
        assert stream[lastChunkPos + 3 .. inputSize + 3][k] == input[lastChunkPos .. inputSize][k];
      } else {
        assert stream[inputSize + 3 ..][k - rest] == stream[inputSize .. lastChunkPos + 3][k - rest];
        assert old(datachunk[k]) == stream[lastChunkPos .. lastChunkPos + 3][k];
      }
    }
    assert datachunk[..] == stream[lastChunkPos + 3 ..];
    EmitGroup(datachunk, pixels, output, p, stream, lastChunkPos + 3);
  }

  /**
   * The step extendBuffer takes for every group: expand the group buffer into
   * the pixel buffer and copy the 24 channel bytes to `output[p..]`.
   */
  method EmitGroup(datachunk: array<byte>, pixels: array<byte>, output: array<byte>, p: nat,
                   ghost stream: seq<byte>, ghost i: nat)
    requires datachunk.Length == 3 && pixels.Length == 24
    requires output != datachunk && output != pixels && datachunk != pixels
    requires i + 3 <= |stream| && p == 8 * i
    requires datachunk[..] == stream[i .. i + 3]
    requires p + 24 <= output.Length
    modifies pixels, output
    ensures pixels[..] == ExtendBytes(datachunk[..])
    ensures forall k :: p <= k < p + 24 ==> output[k] == ExtendBytes(stream)[k]
    ensures forall k :: 0 <= k < output.Length && !(p <= k < p + 24) ==> output[k] == old(output[k])
  {
    ExtendByteGroup(datachunk, pixels);
    CopyPixels(pixels, output, p);
    ExtendBytesSlice(stream, i, i + 3);
    ghost var block := ExtendBytes(stream)[p .. p + 24];
    assert output[p .. p + 24] == block;
    forall k | p <= k < p + 24
      ensures output[k] == ExtendBytes(stream)[k]
    {
      assert output[k] == output[p .. p + 24][k - p] && ExtendBytes(stream)[k] == block[k - p];
    }
  }

  /** The copy loop of extendBuffer: the pixel buffer goes to `output[p .. p + 24]`. */
  method CopyPixels(pixels: array<byte>, output: array<byte>, p: nat)
    requires pixels.Length == 24 && p + 24 <= output.Length && output != pixels
    modifies output
    ensures output[p .. p + 24] == pixels[..]
    ensures forall k :: 0 <= k < output.Length && !(p <= k < p + 24) ==> output[k] == old(output[k])
  {
    for ii := 0 to 24
      invariant output[p .. p + ii] == pixels[..ii]
      invariant forall k :: 0 <= k < output.Length && !(p <= k < p + ii) ==> output[k] == old(output[k])
    {
      output[p + ii] := pixels[ii];
    }
  }
}
