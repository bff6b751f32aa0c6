/**
 * Payload bytes and the channel bytes that stand for them: bit `bit` of byte
 * `i` becomes channel byte `i * 8 + bit`, least significant bit first, at
 * intensity 0 or 255. A group of three payload bytes fills the 24 channels of
 * eight RGB pixels.
 */
module ByteGroup {
  import opened Bytes

  /** The channel byte for bit `bit` of `b`, as the encoder writes it. */
  function Channel(b: byte, bit: nat): byte
    requires bit < 8
  {
    ((b >> bit) % 2) * 255
  }

  /** A channel byte is 255 when its bit is set and 0 otherwise. */
  lemma ChannelBit(b: byte, bit: nat)
    requires bit < 8
    ensures Channel(b, bit) == (if BitSet(b, bit) then 255 else 0)
  {
    ShiftedParity(b, bit);
  }

  /** The expansion of bytes into channel bytes, eight per byte. */
  function ExtendBytes(s: seq<byte>): (pix: seq<byte>)
    ensures |pix| == 8 * |s|
  {
    seq(8 * |s|, k requires 0 <= k < 8 * |s| => Channel(s[k / 8], k % 8))
  }

  /** Channel byte `i * 8 + bit` of an expansion is 255 when bit `bit` of byte `i` is set, and 0 otherwise. */
  lemma ExtendBytesBits(s: seq<byte>)
    ensures forall i, bit :: 0 <= i < |s| && 0 <= bit < 8 ==>
      ExtendBytes(s)[i * 8 + bit] == (if BitSet(s[i], bit) then 255 else 0)
  {
    forall i, bit | 0 <= i < |s| && 0 <= bit < 8
      ensures ExtendBytes(s)[i * 8 + bit] == (if BitSet(s[i], bit) then 255 else 0)
    {
      var k := i * 8 + bit;
      assert k / 8 == i && k % 8 == bit;
      ChannelBit(s[i], bit);
    }
  }

  /** Every channel byte of an expansion is 0 or 255. */
  lemma ExtendBytesCanonical(s: seq<byte>)
    ensures forall k :: 0 <= k < |ExtendBytes(s)| ==> ExtendBytes(s)[k] == 0 || ExtendBytes(s)[k] == 255
  {
    forall k | 0 <= k < |ExtendBytes(s)|
      ensures ExtendBytes(s)[k] == 0 || ExtendBytes(s)[k] == 255
    {
      ChannelBit(s[k / 8], k % 8);
    }
  }

  /** The channels of a run of bytes sit in the expansion at eight times the run's position. */
  lemma ExtendBytesSlice(s: seq<byte>, i: nat, j: nat)
    requires i <= j <= |s|
    ensures ExtendBytes(s)[8 * i .. 8 * j] == ExtendBytes(s[i .. j])
  {
    var a, b := ExtendBytes(s)[8 * i .. 8 * j], ExtendBytes(s[i .. j]);
    forall k | 0 <= k < 8 * (j - i)
      ensures a[k] == b[k]
    {
      assert (8 * i + k) / 8 == i + k / 8 && (8 * i + k) % 8 == k % 8;
    }
  }

  /**
   * The byte accumulated from the first `n` channel bytes of `ch`: the top bit
   * of `ch[k]` goes to bit `k`.
   */
  function Pack(ch: seq<byte>, n: nat): byte
    requires n <= |ch| && n <= 8
  {
    if n == 0 then 0 else Pack(ch, n - 1) | (if ch[n - 1] >= 128 then Mask(n - 1) else 0)
  }

  /** Bit `k` of `Pack(ch, n)` is the top bit of `ch[k]` for `k < n`, and clear above. */
  predicate PackedBits(ch: seq<byte>, n: nat)
    requires n <= |ch| && n <= 8
  {
    forall k :: 0 <= k < 8 ==> (BitSet(Pack(ch, n), k) <==> k < n && ch[k] >= 128)
  }

  /** Every prefix of the channels packs into the bits described by `PackedBits`. */
  lemma {:induction false} PackBits(ch: seq<byte>, n: nat)
    requires n <= |ch| && n <= 8
    ensures PackedBits(ch, n)
  {
    if n > 0 {
      PackBits(ch, n - 1);
      PackStep(ch, n);
    } else {
      NoBitsOfZero();
    }
  }

  /** One step of `Pack` sets bit `n - 1` to the top bit of `ch[n - 1]` and keeps the others. */
  lemma PackStep(ch: seq<byte>, n: nat)
    requires 0 < n <= |ch| && n <= 8
    requires PackedBits(ch, n - 1)
    ensures PackedBits(ch, n)
  {
    forall k | 0 <= k < 8
      ensures BitSet(Pack(ch, n), k) <==> k < n && ch[k] >= 128
    {
      if ch[n - 1] >= 128 {
        BitOfOr(Pack(ch, n - 1), n - 1, k);
      }
    }
  }

  /**
   * The contraction of channel bytes, eight per byte. A channel counts as a set
   * bit when it is at least 128, so samples perturbed by a lossy image format
   * still decode to the same bits; channels past the last multiple of eight are
   * not read.
   */
  function ContractBytes(pix: seq<byte>): (s: seq<byte>)
    ensures |s| == |pix| / 8
  {
    seq(|pix| / 8, i requires 0 <= i < |pix| / 8 => Pack(pix[i * 8 .. i * 8 + 8], 8))
  }

  /** Bit `bit` of contracted byte `i` is set exactly when channel byte `i * 8 + bit` is at least 128. */
  lemma ContractBytesBits(pix: seq<byte>)
    ensures forall i, bit :: 0 <= i < |pix| / 8 && 0 <= bit < 8 ==>
      (BitSet(ContractBytes(pix)[i], bit) <==> pix[i * 8 + bit] >= 128)
  {
    forall i, bit | 0 <= i < |pix| / 8 && 0 <= bit < 8
      ensures BitSet(ContractBytes(pix)[i], bit) <==> pix[i * 8 + bit] >= 128
    {
      PackBits(pix[i * 8 .. i * 8 + 8], 8);
      assert pix[i * 8 .. i * 8 + 8][bit] == pix[i * 8 + bit];
    }
  }

  /** The contraction of a run of channel blocks sits in the contraction at the run's block position. */
  lemma ContractBytesSlice(pix: seq<byte>, i: nat, j: nat)
    requires i <= j && 8 * j <= |pix|
    ensures ContractBytes(pix)[i .. j] == ContractBytes(pix[8 * i .. 8 * j])
  {
    var a, b := ContractBytes(pix)[i .. j], ContractBytes(pix[8 * i .. 8 * j]);
    forall k | 0 <= k < j - i
      ensures a[k] == b[k]
    {
      assert pix[8 * i .. 8 * j][k * 8 .. k * 8 + 8] == pix[(i + k) * 8 .. (i + k) * 8 + 8];
    }
  }

  /** Contracting an expansion gives the bytes back. */
  lemma BytesRoundTrip(s: seq<byte>)
    ensures ContractBytes(ExtendBytes(s)) == s
  {
    var r := ContractBytes(ExtendBytes(s));
    ExtendBytesBits(s);
    ContractBytesBits(ExtendBytes(s));
    forall i | 0 <= i < |s|
      ensures r[i] == s[i]
    {
      forall k | 0 <= k < 8
        ensures BitSet(r[i], k) <==> BitSet(s[i], k)
      {
        assert ExtendBytes(s)[i * 8 + k] == (if BitSet(s[i], k) then 255 else 0);
      }
      BitsDetermineByte(r[i], s[i]);
    }
  }

  /** Expanding the contraction of whole blocks of canonical (0 or 255) channels gives the channels back. */
  lemma CanonicalRoundTrip(pix: seq<byte>)
    requires |pix| % 8 == 0
    requires forall k :: 0 <= k < |pix| ==> pix[k] == 0 || pix[k] == 255
    ensures ExtendBytes(ContractBytes(pix)) == pix
  {
    var e := ExtendBytes(ContractBytes(pix));
    assert |e| == |pix|;
    forall k | 0 <= k < |pix|
      ensures e[k] == pix[k]
    {
      CanonicalChannel(pix, k / 8, k % 8);
      assert k == k / 8 * 8 + k % 8;
    }
  }

  /** A canonical channel byte comes back from expanding the contracted byte it contributes to. */
  lemma CanonicalChannel(pix: seq<byte>, i: nat, bit: nat)
    requires i * 8 + 8 <= |pix| && bit < 8
    requires pix[i * 8 + bit] == 0 || pix[i * 8 + bit] == 255
    ensures |pix| / 8 > i && Channel(ContractBytes(pix)[i], bit) == pix[i * 8 + bit]
  {
    var ch := pix[i * 8 .. i * 8 + 8];
    PackBits(ch, 8);
    assert ch[bit] == pix[i * 8 + bit];
    ChannelBit(ContractBytes(pix)[i], bit);
  }

  /**
   * Contraction only looks at whether each channel is at least 128: two runs of
   * channels that agree on that contract to the same bytes.
   */
  lemma ContractBytesThreshold(a: seq<byte>, b: seq<byte>)
    requires |a| == |b|
    requires forall k :: 0 <= k < |a| ==> (a[k] >= 128 <==> b[k] >= 128)
    ensures ContractBytes(a) == ContractBytes(b)
  {
    var x, y := ContractBytes(a), ContractBytes(b);
    ContractBytesBits(a);
    ContractBytesBits(b);
    forall i | 0 <= i < |x|
      ensures x[i] == y[i]
    {
      forall k | 0 <= k < 8
        ensures BitSet(x[i], k) <==> BitSet(y[i], k)
      {
        assert a[i * 8 + k] >= 128 <==> b[i * 8 + k] >= 128;
      }
      BitsDetermineByte(x[i], y[i]);
    }
  }

  /** extendByteGroup: fills `rgb` with the expansion of the three bytes in `inp`. */
  method ExtendByteGroup(inp: array<byte>, rgb: array<byte>)
    requires inp.Length == 3 && rgb.Length == 24
    modifies rgb
    ensures rgb[..] == ExtendBytes(inp[..])
  {
    for i := 0 to 3
      invariant forall k :: 0 <= k < i * 8 ==> rgb[k] == Channel(inp[k / 8], k % 8)
    {
      for bit := 0 to 8
        invariant forall k :: 0 <= k < i * 8 + bit ==> rgb[k] == Channel(inp[k / 8], k % 8)
      {
        rgb[i * 8 + bit] := ((inp[i] >> bit) % 2) * 255;
      }
    }
  }

  /** contractByteGroup: fills `out` with the contraction of the 24 channels in `rgb`. */
  method ContractByteGroup(rgb: array<byte>, out: array<byte>)
    requires rgb.Length == 24 && out.Length == 3
    modifies out
    ensures out[..] == ContractBytes(rgb[..])
  {
    ghost var g := ContractBytes(rgb[..]);
    out[0], out[1], out[2] := 0, 0, 0;
    for i := 0 to 3
      invariant forall j :: 0 <= j < i ==> out[j] == g[j]
      invariant forall j :: i <= j < 3 ==> out[j] == 0
    {
      PackInto(rgb, out, i);
    }
    assert forall j :: 0 <= j < 3 ==> out[j] == g[j];
  }

  /**
   * The inner loop of contractByteGroup: or-s the top bit of channel
   * `i * 8 + bit` into bit `bit` of `out[i]`, which starts at 0.
   */
  method PackInto(rgb: array<byte>, out: array<byte>, i: nat)
    requires rgb.Length == 24 && out.Length == 3 && i < 3 && out[i] == 0
    modifies out
    ensures out[i] == ContractBytes(rgb[..])[i]
    ensures forall j :: 0 <= j < 3 && j != i ==> out[j] == old(out[j])
  {
    ghost var ch := rgb[i * 8 .. i * 8 + 8];
    for bit := 0 to 8
      invariant out[i] == Pack(ch, bit)
      invariant forall j :: 0 <= j < 3 && j != i ==> out[j] == old(out[j])
    {
      assert ch[bit] == rgb[i * 8 + bit];
      TopBitShifted(rgb[i * 8 + bit], bit);
      out[i] := out[i] | ((rgb[i * 8 + bit] >> 7) << bit);
    }
  }
}
