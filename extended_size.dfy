/**
 * Size arithmetic of the codec: how many channel bytes a payload of a given
 * length expands to, where its final group starts, and the row padding the
 * encoding caller adds.
 */
module ExtendedSize {
  import opened Bytes

  /** Payloads of this many bytes or more are refused: the length header has three bytes. */
  const MAX_INPUT_SIZE: nat := 16777216

  /** `n` rounded up to a whole number of 3-byte groups. */
  function RoundUp3(n: nat): (r: nat)
    ensures r % 3 == 0 && n <= r <= n + 2
  {
    (n + 2) / 3 * 3
  }

  /**
   * calculateExtendedSize: -1 for a payload that is too large; otherwise the
   * channel bytes of the header group and of the payload rounded up to whole
   * groups, eight per payload byte. The value always fits a C `int`.
   */
  function CalculateExtendedSize(inputSize: nat): (r: int)
    requires inputSize < UINT_LIMIT
    ensures r == -1 <==> inputSize >= MAX_INPUT_SIZE
    ensures inputSize < MAX_INPUT_SIZE ==> r == 24 + 8 * RoundUp3(inputSize)
    ensures inputSize < MAX_INPUT_SIZE ==> r % 24 == 0 && 24 <= r < 0x8000_0000
  {
    if inputSize >= MAX_INPUT_SIZE then -1
    else
      var totalSize := 3 + inputSize + 2;
      (totalSize - totalSize % 3) * 8
  }

  /** Hand-computed values of the extended size, at both ends of the supported range. */
  lemma ExtendedSizeExamples()
    ensures CalculateExtendedSize(0) == 24 && CalculateExtendedSize(1) == 48
    ensures CalculateExtendedSize(2) == 48 && CalculateExtendedSize(3) == 48
    ensures CalculateExtendedSize(4) == 72 && CalculateExtendedSize(255) == 2064
    ensures CalculateExtendedSize(256) == 2088
    ensures CalculateExtendedSize(16777215) == 134217744
    ensures CalculateExtendedSize(16777216) == -1
  {
  }

  /**
   * Offset of the final group of a payload of `inputSize` bytes, computed as the
   * encoder does, in 32-bit unsigned arithmetic: `(inputSize - 1)` wraps to
   * 0xFFFFFFFF when `inputSize` is 0. For a non-empty payload the offset is a
   * multiple of 3 and leaves 1, 2 or 3 bytes for the final group.
   */
  function LastChunkPos(inputSize: nat): (l: nat)
    requires inputSize < UINT_LIMIT
    ensures 1 <= inputSize ==> l % 3 == 0 && 1 <= inputSize - l <= 3
  {
    var m := if inputSize == 0 then UINT_LIMIT - 1 else inputSize - 1;
    m - m % 3
  }

  /** Final-group offsets of short payloads: a whole group is emitted before the final one only from four bytes up. */
  lemma LastChunkPosExamples()
    ensures LastChunkPos(1) == 0 && LastChunkPos(2) == 0 && LastChunkPos(3) == 0
    ensures LastChunkPos(4) == 3 && LastChunkPos(6) == 3 && LastChunkPos(7) == 6
  {
  }

  /** As written, an empty payload puts the final group 4294967295 bytes past its end. */
  lemma EmptyInputLastChunkPos()
    ensures LastChunkPos(0) == 0xFFFF_FFFF
  {
  }

  /**
   * Group positions below a length stay inside its rounded-up size, and the
   * first group position at or past the length is the rounded-up size.
   */
  lemma GroupPositions(i: nat, n: nat)
    requires i % 3 == 0
    ensures i < n ==> i + 3 <= RoundUp3(n)
    ensures n <= i <= RoundUp3(n) ==> i == RoundUp3(n)
    ensures i < n && n % 3 == 0 ==> i + 3 <= n
  {
    var r := RoundUp3(n);
    assert i == 3 * (i / 3) && r == 3 * (r / 3) && (n % 3 == 0 ==> n == 3 * (n / 3));
  }

  /** The final group ends where the payload, rounded up to whole groups, ends. */
  lemma LastChunkPosSize(inputSize: nat)
    requires 1 <= inputSize < UINT_LIMIT
    ensures LastChunkPos(inputSize) + 3 == RoundUp3(inputSize)
  {
  }

  /**
   * The encoding caller's buffer size: the extended size `s` padded with
   * `s - s % lineLength + lineLength` to a whole number of rows of
   * `lineLength` bytes. The result is a multiple of the row length and strictly
   * larger than `s`, so one more row is added even when `s` already fills its rows.
   */
  function PaddedSize(s: nat, lineLength: nat): (r: nat)
    requires lineLength > 0
    ensures r % lineLength == 0
    ensures s < r <= s + lineLength
  {
    var q := s / lineLength;
    assert s - s % lineLength == q * lineLength;
    MultipleMod(q + 1, lineLength);
    assert s - s % lineLength + lineLength == (q + 1) * lineLength;
    s - s % lineLength + lineLength
  }

  lemma MultipleMod(q: nat, d: nat)
    requires d > 0
    ensures (q * d) % d == 0
  {
    var t, r := (q * d) / d, (q * d) % d;
    assert d * (q - t) == r;
    if q - t >= 1 {
      assert false;
    } else if q - t <= -1 {
      assert false;
    }
  }

  /**
   * For every supported payload and every positive row length the caller can
   * form, the padded buffer fits a `uint`, passes the encoder's size check and
   * holds more than the 24-byte header (so the decoder's lower bound of 25 is met).
   */
  lemma PaddedSizeSuffices(inputSize: nat, lineLength: nat)
    requires inputSize < MAX_INPUT_SIZE
    requires 0 < lineLength < 0x8000_0000
    ensures var s := CalculateExtendedSize(inputSize);
      s >= 0 && 25 <= PaddedSize(s, lineLength) < UINT_LIMIT && s < PaddedSize(s, lineLength)
  {
  }
}
