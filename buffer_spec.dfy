/**
 * What the buffer encoder writes and what the buffer decoder reads, as
 * functions on sequences: the length header, the payload groups, the final
 * partial group and the status codes of both directions.
 */
module BufferSpec {
  import opened Bytes
  import opened ExtendedSize
  import opened ByteGroup

  /** The three little-endian base-256 digits of a number below 2^24 give the number back. */
  lemma LittleEndianDigits(n: nat)
    requires n < MAX_INPUT_SIZE
    ensures n % 256 + ((n / 256) % 256) * 256 + ((n / 65536) % 256) * 65536 == n
  {
  }

  /** A number assembled from three base-256 digits has exactly those digits. */
  lemma LittleEndianValue(a: nat, b: nat, c: nat)
    requires a < 256 && b < 256 && c < 256
    ensures var n := a + b * 256 + c * 65536;
      n < MAX_INPUT_SIZE && n % 256 == a && (n / 256) % 256 == b && (n / 65536) % 256 == c
  {
  }

  /** The length header group: the payload length as three little-endian bytes. */
  function HeaderGroup(n: nat): (h: seq<byte>)
    requires n < MAX_INPUT_SIZE
    ensures |h| == 3
  {
    [ToByte(n % 256), ToByte((n / 256) % 256), ToByte((n / 65536) % 256)]
  }

  /** The length a header group declares: `h[0] + (h[1] << 8) + (h[2] << 16)`. */
  function HeaderValue(h: seq<byte>): (n: nat)
    requires |h| == 3
    ensures n < MAX_INPUT_SIZE
  {
    Value(h[0]) + Value(h[1]) * 256 + Value(h[2]) * 65536
  }

  /** The header of a length declares that length. */
  lemma HeaderRoundTrip(n: nat)
    requires n < MAX_INPUT_SIZE
    ensures HeaderValue(HeaderGroup(n)) == n
  {
    var h := HeaderGroup(n);
    ValueOfToByte(n % 256);
    ValueOfToByte((n / 256) % 256);
    ValueOfToByte((n / 65536) % 256);
    assert HeaderValue(h) == n % 256 + ((n / 256) % 256) * 256 + ((n / 65536) % 256) * 65536;
    LittleEndianDigits(n);
  }

  /** The header of a number assembled from three base-256 digits holds those digits. */
  lemma HeaderGroupOfDigits(a: nat, b: nat, c: nat)
    requires a < 256 && b < 256 && c < 256
    ensures a + b * 256 + c * 65536 < MAX_INPUT_SIZE
    ensures HeaderGroup(a + b * 256 + c * 65536) == [ToByte(a), ToByte(b), ToByte(c)]
  {
    LittleEndianValue(a, b, c);
  }

  /** The length a header group declares has the group's bytes as its base-256 digits. */
  lemma HeaderValueDigits(h: seq<byte>)
    requires |h| == 3
    ensures var n := HeaderValue(h);
      n % 256 == Value(h[0]) && (n / 256) % 256 == Value(h[1]) && (n / 65536) % 256 == Value(h[2])
  {
    LittleEndianValue(Value(h[0]), Value(h[1]), Value(h[2]));
  }

  /** Every 3-byte group is the header of the length it declares. */
  lemma HeaderGroupOfValue(h: seq<byte>)
    requires |h| == 3
    ensures HeaderGroup(HeaderValue(h)) == h
  {
    HeaderValueDigits(h);
    ToByteOfValue(h[0]);
    ToByteOfValue(h[1]);
    ToByteOfValue(h[2]);
  }

  /**
   * The bytes the encoder expands for the final group: its 1 to 3 payload
   * bytes, followed by what the group buffer still held from the previous group
   * (the last whole group, or the header when there was none).
   */
  function LastGroup(p: seq<byte>): (g: seq<byte>)
    requires 1 <= |p| < MAX_INPUT_SIZE
    ensures |g| == 3 && g[..|p| - LastChunkPos(|p|)] == p[LastChunkPos(|p|)..]
  {
    var l := LastChunkPos(|p|);
    var stale := if l == 0 then HeaderGroup(|p|) else p[l - 3 .. l];
    p[l..] + stale[|p| - l..]
  }

  /**
   * The groups the encoder expands, in order: the length header, the whole
   * payload groups and the final group. Its first `|p|` bytes after the header
   * are the payload.
   */
  function GroupStream(p: seq<byte>): (s: seq<byte>)
    requires |p| < MAX_INPUT_SIZE
    ensures |s| == 3 + RoundUp3(|p|) && s[..3] == HeaderGroup(|p|)
  {
    var header := HeaderGroup(|p|);
    if |p| == 0 then header
    else
      LastChunkPosSize(|p|);
      header + p[..LastChunkPos(|p|)] + LastGroup(p)
  }

  /** After the header, a non-empty payload's stream is its whole groups followed by the final group. */
  lemma GroupStreamBody(p: seq<byte>)
    requires 1 <= |p| < MAX_INPUT_SIZE
    ensures GroupStream(p)[3..] == p[..LastChunkPos(|p|)] + LastGroup(p)
  {
    var l := LastChunkPos(|p|);
    assert GroupStream(p) == HeaderGroup(|p|) + (p[..l] + LastGroup(p));
  }

  /** The stream holds the payload right after the header. */
  lemma GroupStreamPayload(p: seq<byte>)
    requires |p| < MAX_INPUT_SIZE
    ensures GroupStream(p)[3 .. 3 + |p|] == p
  {
    if |p| > 0 {
      var l, g := LastChunkPos(|p|), LastGroup(p);
      var t := GroupStream(p)[3..];
      GroupStreamBody(p);
      assert GroupStream(p)[3 .. 3 + |p|] == t[..|p|];
      assert t[..|p|] == p[..l] + g[..|p| - l];
      assert p[..l] + p[l..] == p;
    }
  }

  /** The final group is the last group of the stream. */
  lemma GroupStreamLast(p: seq<byte>)
    requires 1 <= |p| < MAX_INPUT_SIZE
    ensures GroupStream(p)[3 + LastChunkPos(|p|) ..] == LastGroup(p)
  {
    var l := LastChunkPos(|p|);
    GroupStreamBody(p);
    assert GroupStream(p)[3 + l ..] == GroupStream(p)[3..][l..];
  }

  /**
   * Past its payload bytes, the final group holds the bytes of the group before
   * it in the stream: the last whole group, or the header.
   */
  lemma LastGroupKeepsStale(p: seq<byte>)
    requires 1 <= |p| < MAX_INPUT_SIZE
    ensures var l := LastChunkPos(|p|);
      forall k :: |p| - l <= k < 3 ==> LastGroup(p)[k] == GroupStream(p)[l + k]
  {
    var l, s := LastChunkPos(|p|), GroupStream(p);
    GroupStreamBody(p);
    if l > 0 {
      assert s[l .. l + 3] == s[3..][l - 3 .. l] == p[l - 3 .. l];
    }
  }

  /**
   * Where the final group sits in the stream: it starts with the payload
   * bytes from the last group position on, and its remaining bytes repeat the
   * three bytes before it.
   */
  lemma FinalGroupInStream(p: seq<byte>)
    requires 1 <= |p| < MAX_INPUT_SIZE
    ensures var l, s := LastChunkPos(|p|), GroupStream(p);
      && |s| == l + 6
      && s[l + 3 .. |p| + 3] == p[l..]
      && s[|p| + 3 ..] == s[|p| .. l + 3]
  {
    var l, s := LastChunkPos(|p|), GroupStream(p);
    LastChunkPosSize(|p|);
    GroupStreamLast(p);
    LastGroupKeepsStale(p);
    assert s[l + 3 .. |p| + 3] == LastGroup(p)[..|p| - l];
  }

  /**
   * The used region the encoder writes for payload `p`: the expanded header,
   * then the expanded payload groups. An empty payload has the header only.
   */
  function Encoded(p: seq<byte>): (pix: seq<byte>)
    requires |p| < MAX_INPUT_SIZE
    ensures |pix| == CalculateExtendedSize(|p|)
  {
    ExtendBytes(GroupStream(p))
  }

  /** `k` zero bytes. */
  function Zeros(k: nat): (z: seq<byte>)
    ensures |z| == k && forall i :: 0 <= i < k ==> z[i] == 0
  {
    seq(k, _ => 0)
  }

  /** The status extendBuffer returns: 1 for a payload that is too large, 2 for a buffer too small. */
  function ExtendStatus(inputSize: nat, outputSize: nat): int
    requires inputSize < UINT_LIMIT
  {
    if inputSize >= MAX_INPUT_SIZE then 1
    else if outputSize < CalculateExtendedSize(inputSize) then 2
    else 0
  }

  /** The payload length a pixel buffer's header declares. */
  function DeclaredLength(pix: seq<byte>): (n: nat)
    requires |pix| >= 24
    ensures n < MAX_INPUT_SIZE
  {
    HeaderValue(ContractBytes(pix[..24]))
  }

  /**
   * The status contractBuffer returns: 1 when the buffer is shorter than 25
   * bytes or than the extended size of the declared length, 2 when the output
   * capacity is below the declared length.
   */
  function ContractStatus(pix: seq<byte>, outputSizeMax: nat): int
  {
    if |pix| < 25 then 1
    else if |pix| < CalculateExtendedSize(DeclaredLength(pix)) then 1
    else if outputSizeMax < DeclaredLength(pix) then 2
    else 0
  }

  /**
   * The pixel bytes of the payload groups the header of `pix` accounts for:
   * everything after the header up to the extended size.
   */
  function PayloadPixels(pix: seq<byte>): (body: seq<byte>)
    requires |pix| >= 25 && CalculateExtendedSize(DeclaredLength(pix)) <= |pix|
    ensures |body| == 8 * RoundUp3(DeclaredLength(pix))
  {
    pix[24 .. CalculateExtendedSize(DeclaredLength(pix))]
  }

  /**
   * The bytes contractBuffer writes on success: every payload group the header
   * accounts for, the final one whole (up to two bytes past the declared length).
   */
  function Decoded(pix: seq<byte>): (s: seq<byte>)
    requires |pix| >= 25 && CalculateExtendedSize(DeclaredLength(pix)) <= |pix|
    ensures |s| == RoundUp3(DeclaredLength(pix))
  {
    ContractBytes(PayloadPixels(pix))
  }

  /**
   * The decoder's writes fit the output array: when decoding succeeds, the
   * array holds the final group whole.
   */
  predicate WritesFit(pix: seq<byte>, outputSizeMax: nat, capacity: nat)
  {
    ContractStatus(pix, outputSizeMax) == 0 ==> RoundUp3(DeclaredLength(pix)) <= capacity
  }
}
