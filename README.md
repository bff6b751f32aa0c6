# data2img bit-expansion codec in Dafny

data2img stores a file in an image. Each payload bit becomes one colour
channel of an RGB pixel: 255 for a set bit and 0 for a clear one. Bits are
taken least significant bit first, three payload bytes per eight pixels. The
buffer starts with a 24-channel header that holds the payload length as three
little-endian bytes. The decoder reads a channel as a set bit when it is at
least 128, so it tolerates a lossy image format.

This project models the codec core of `data2img.c`:

- `calculateExtendedSize`;
- the group expander `extendByteGroup` and the group contractor `contractByteGroup`;
- the buffer encoder `extendBuffer` and the buffer decoder `contractBuffer`.

It proves the following about them:

- the size arithmetic;
- the bit layout;
- the status codes;
- what each buffer function writes and does not write;
- the round trip from payload to pixel buffer and back.

Modules, one per file:

- `Bytes` (`bytes.dfy`): `byte` is `bv8`, so the source's `>>`, `<<`, `%` and `|=` on `uint8_t` are Dafny's own operators. It also holds the range of `uint` (`UINT_LIMIT`), the widening `Value` and narrowing `ToByte` casts, and single-bit facts.
- `ExtendedSize` (`extended_size.dfy`): `calculateExtendedSize`, the final-group offset `lastChunkPos` with its 32-bit wrap-around, and the row padding formula of the encoding caller.
- `ByteGroup` (`byte_group.dfy`): the expansion and contraction of bytes as functions (`ExtendBytes`, `ContractBytes`), and the two group routines as methods over arrays, proved against those functions.
- `BufferSpec` (`buffer_spec.dfy`): what the encoder writes and the decoder reads, as functions on sequences:
  - the length header;
  - the stream of groups the encoder expands (`GroupStream`, including the stale bytes the reused group buffer carries into the final group);
  - `Encoded` and `Decoded`;
  - both status functions.
- `BufferCodec` (`buffer_codec.dfy`): `extendBuffer` and `contractBuffer` as methods over arrays. Their loops and copy steps are separate methods, each proved against `BufferSpec`.
- `CodecProperties` (`codec_properties.dfy`): how the encoder and the decoder fit together. This covers the header round trip, decoding an encoding, independence from bytes past the extended size, the decoding caller's buffer slack, worked examples, and the encoder followed by the decoder on the same arrays.

## Model

| member | source | states |
|---|---|---|
| `ExtendedSize.CalculateExtendedSize` | data2img.c:15-21 | -1 exactly for payloads of 16777216 bytes or more; otherwise 24 header channels plus 8 channels per payload byte rounded up to whole 3-byte groups, a multiple of 24 that fits an `int` |
| `ExtendedSize.ExtendedSizeExamples` | data2img.c:15-21 | extended sizes 24, 48, 48, 48, 72 for 0 to 4 bytes, 2064 and 2088 around 256, 134217744 for the largest payload, -1 at 16777216 |
| `ExtendedSize.LastChunkPos` | data2img.c:53 | for a non-empty payload the final-group offset is a multiple of 3 leaving 1, 2 or 3 bytes, so the `default` branch (`return 4`) is unreachable |
| `ExtendedSize.LastChunkPosExamples` | data2img.c:53 | final-group offsets 0, 0, 0 for 1 to 3 bytes and 3, 3, 6 for 4, 6 and 7 bytes |
| `ExtendedSize.EmptyInputLastChunkPos` | data2img.c:53 | as written, `(input_size-1)` wraps for an empty payload and the final group lands at 4294967295 |
| `ExtendedSize.LastChunkPosSize` | data2img.c:53-73 | the final group of a non-empty payload ends where the payload rounded up to whole groups ends |
| `ExtendedSize.GroupPositions` | data2img.c:116 | a group position below a length leaves a whole group inside the rounded-up length; the first position at or past the length is the rounded-up length |
| `ExtendedSize.PaddedSize` | data2img.c:146 | `s - s%L + L` is a multiple of `L`, strictly larger than `s` and at most `s + L` |
| `ExtendedSize.PaddedSizeSuffices` | data2img.c:145-149 | the caller's padded buffer fits a `uint`, passes extendBuffer's size check and holds at least 25 bytes |
| `Bytes.ValueOfToByte` | data2img.c:46 | narrowing a number below 256 to a byte and widening it back gives the number |
| `Bytes.ToByteOfValue` | data2img.c:104 | widening a byte to `uint` and narrowing it back gives the byte |
| `Bytes.TopBitShifted` | data2img.c:86 | `(c>>7)<<bit` is the mask of bit `bit` when `c >= 128` and 0 otherwise |
| `Bytes.ShiftedParity` | data2img.c:27 | `(b>>bit)%2` is 1 exactly when bit `bit` of `b` is set |
| `Bytes.BitOfOr` | data2img.c:86 | or-ing a bit's mask into a byte sets that bit and keeps every other bit |
| `ByteGroup.ChannelBit` | data2img.c:27 | a channel byte is 255 when its bit is set and 0 otherwise |
| `ByteGroup.ExtendBytesBits` | data2img.c:24-30 | channel `i*8+bit` of an expansion is 255 exactly when bit `bit` of byte `i` is set, and 0 otherwise |
| `ByteGroup.ExtendBytesCanonical` | data2img.c:27 | every channel byte the expander writes is 0 or 255 |
| `ByteGroup.ExtendBytesSlice` | data2img.c:56-60 | the channels of a run of bytes sit in the expansion at eight times the run's offset |
| `ByteGroup.PackBits` | data2img.c:83-87 | after `n` steps of the accumulation, bit `k` is set exactly when `k < n` and channel `k` is at least 128 |
| `ByteGroup.PackStep` | data2img.c:86 | one `|=` step sets bit `n-1` to the top bit of channel `n-1` and keeps the other bits |
| `ByteGroup.ContractBytesBits` | data2img.c:82-89 | bit `bit` of contracted byte `i` is set exactly when channel `i*8+bit` is at least 128 |
| `ByteGroup.ContractBytesSlice` | data2img.c:116-123 | contracting a run of 24-channel blocks gives the same bytes as contracting the whole buffer at the run's position |
| `ByteGroup.BytesRoundTrip` | data2img.c:82-89 | contracting the expansion of any bytes gives the bytes back |
| `ByteGroup.CanonicalRoundTrip` | data2img.c:24-30 | expanding the contraction of whole blocks of 0/255 channels gives the channels back |
| `ByteGroup.CanonicalChannel` | data2img.c:27 | a 0/255 channel is reproduced by expanding the byte it was contracted into |
| `ByteGroup.ContractBytesThreshold` | data2img.c:86 | two channel runs that agree on which channels are at least 128 contract to the same bytes |
| `ByteGroup.ExtendByteGroup` | data2img.c:24-30 | `rgb` ends up holding the expansion of the three bytes of `in` |
| `ByteGroup.ContractByteGroup` | data2img.c:82-89 | `out` ends up holding the contraction of the 24 channels of `rgb` |
| `ByteGroup.PackInto` | data2img.c:85-87 | the inner loop leaves `out[i]` holding the contraction of channels `i*8` to `i*8+7` and changes no other byte of `out` |
| `BufferSpec.LittleEndianDigits` | data2img.c:46 | the three base-256 digits of a number below 2^24 add back up to the number |
| `BufferSpec.LittleEndianValue` | data2img.c:104 | a number assembled from three base-256 digits is below 2^24 and has exactly those digits |
| `BufferSpec.HeaderRoundTrip` | data2img.c:46 | the header bytes of a length, read back as `b0 + (b1<<8) + (b2<<16)`, give the length |
| `BufferSpec.HeaderGroupOfDigits` | data2img.c:46 | the header of a number assembled from three digits holds those digits |
| `BufferSpec.HeaderValueDigits` | data2img.c:104 | the length a group declares has the group's three bytes as its base-256 digits, low byte first |
| `BufferSpec.HeaderGroupOfValue` | data2img.c:104 | every three-byte group is the header of the length it declares |
| `BufferSpec.LastGroup` | data2img.c:63-68 | the final group starts with the payload bytes left after the last whole group |
| `BufferSpec.GroupStream` | data2img.c:44-73 | the encoder expands 3 + round-up-to-3(n) bytes, the first three being the length header |
| `BufferSpec.GroupStreamBody` | data2img.c:53-68 | after the header come the whole payload groups and then the final group |
| `BufferSpec.GroupStreamPayload` | data2img.c:53-68 | the stream holds the payload right after the header |
| `BufferSpec.GroupStreamLast` | data2img.c:63-68 | the final group closes the stream |
| `BufferSpec.LastGroupKeepsStale` | data2img.c:63-68 | the final group's bytes past the payload are the bytes of the group before it: the last whole group, or the header |
| `BufferSpec.FinalGroupInStream` | data2img.c:63-68 | the final group is the payload's tail followed by the three bytes before it in the stream |
| `BufferSpec.Encoded` | data2img.c:33-79 | the used region the encoder writes is exactly the extended size long |
| `BufferSpec.Zeros` | data2img.c:75-77 | the padding is the requested number of zero bytes |
| `BufferSpec.DeclaredLength` | data2img.c:102-104 | the length a header declares is below 2^24 |
| `BufferSpec.PayloadPixels` | data2img.c:116-123 | the decoder reads 8 channels per payload byte rounded up to whole groups, right after the header |
| `BufferSpec.Decoded` | data2img.c:116-123 | the decoder writes the declared length rounded up to whole groups |
| `BufferCodec.ExtendBuffer` | data2img.c:33-79 | status 1 for payloads of 16 MiB or more and 2 for a short buffer, both before any write; on success the first `output_size` bytes are the encoding followed by zeros and nothing past `output_size` changes |
| `BufferCodec.EmitGroups` | data2img.c:44-73 | writes the encoding, header first, and returns its length; nothing at or past that length changes |
| `BufferCodec.EmitPayloadGroups` | data2img.c:53-73 | writes every payload group after the header and returns the position past the final group |
| `BufferCodec.EmitWholeGroups` | data2img.c:54-61 | each whole group goes through the group buffer to its place, and the group buffer ends holding the last whole group |
| `BufferCodec.EmitFinalGroup` | data2img.c:63-73 | the fall-through `switch` overwrites 1 to 3 leading bytes of the group buffer, and the block written is the final group's expansion |
| `BufferCodec.EmitGroup` | data2img.c:69-72 | one group buffer is expanded and copied to its block of the output |
| `BufferCodec.CopyPixels` | data2img.c:57-59 | the 24 channel bytes go to `output[p..p+24]` and nothing else changes |
| `BufferCodec.PadWithZeros` | data2img.c:75-77 | the bytes from the end of the encoding up to `output_size` become 0 and nothing else changes |
| `BufferCodec.ContractBuffer` | data2img.c:92-127 | status 1 for fewer than 25 bytes or fewer than the extended size of the declared length, 2 when that length exceeds `output_size_max`, with no write in either case; on success the size cell holds the declared length, the output holds the contracted groups and nothing past them changes |
| `BufferCodec.ReadHeader` | data2img.c:102-104 | the length read from the first 24 channels is the declared length |
| `BufferCodec.ContractGroupsInto` | data2img.c:116-123 | the group loop writes the contraction of every payload block and nothing past the rounded-up length |
| `BufferCodec.ContractGroupAt` | data2img.c:117-122 | one block is copied, contracted and stored at `output[i..i+3]`, and no other output byte changes |
| `BufferCodec.ReadPixels` | data2img.c:117-119 | the pixel buffer ends up holding `input[p..p+24]` |
| `CodecProperties.EncodedHeader` | data2img.c:46-51 | the first 24 channels of an encoding are the expansion of `[n%256, (n>>8)%256, (n>>16)%256]` |
| `CodecProperties.EncodedPayload` | data2img.c:53-73 | the channels after the header are the expansion of the payload groups |
| `CodecProperties.DeclaredLengthOfEncoded` | data2img.c:102-104 | a buffer that starts with an encoding declares the payload's length, whatever follows |
| `CodecProperties.StatusOfEncoded` | data2img.c:94-114 | on an encoding the decoder returns 1 only for a buffer under 25 bytes and 2 only for a capacity below the payload length |
| `CodecProperties.DecodedOfEncoded` | data2img.c:116-123 | decoding an encoding gives the payload followed by the stale bytes of its final group |
| `CodecProperties.DecodeReadsExtendedPrefix` | data2img.c:105-123 | bytes at or past the extended size of the declared length change neither the status nor the output |
| `CodecProperties.DecoderCallerSlack` | data2img.c:176-179 | the decoding caller's capacity `size/8*3+256` fits a `uint` and holds the final group whole whenever decoding succeeds |
| `CodecProperties.TwoBytePayload` | data2img.c:63-68 | the final group of a 2-byte payload repeats the header's last byte |
| `CodecProperties.FourBytePayload` | data2img.c:63-68 | the final group of a 4-byte payload repeats the last two bytes of the whole group before it |
| `CodecProperties.SmallHeaders` | data2img.c:46 | the headers of lengths 2 and 4 are `[2, 0, 0]` and `[4, 0, 0]` |
| `CodecProperties.PaddedEncodingDecodes` | data2img.c:92-127 | a buffer of at least 25 bytes that starts with an encoding decodes with status 0 to the payload, when the capacity allows it |
| `CodecProperties.EncodeThenDecode` | data2img.c:33-127 | extendBuffer then contractBuffer on the same arrays both return 0, report the payload's length and reproduce the payload |

## Left out

- `data2img`, `img2data` and `main` are not modelled. They cover file sizing with `fseek`/`ftell`, `fread`/`fwrite`, `malloc`/`free`, the ImageMagick calls and argument parsing, all of it I/O or foreign library code. Their pure arithmetic is kept in two lemmas: the row padding at line 146 (`PaddedSize`, `PaddedSizeSuffices`) and the decoding capacity at line 176 (`DecoderCallerSlack`).
- The `puts` diagnostics are not modelled; only the returned status codes are.
- `BufferCodec.ExtendBuffer`: for an empty payload the model writes the header alone and pads with zeros. The source's arithmetic wraps around there instead (see Findings).
- `BufferCodec.ContractBuffer`: requires that a successful decode has room for the final group whole (`WritesFit`). The source writes up to two bytes past `output_size` and does not check this. `DecoderCallerSlack` shows that the source's own caller provides the room.
- `BufferCodec.ContractBuffer`: the size out-parameter `*output_size_output` is a one-cell array. It is required to be a different object from the output array, because Dafny cannot tell arrays of different element types apart.
- `CodecProperties.EncodeThenDecode`: the same requirement applies to its arrays.
- `BufferCodec.ExtendBuffer`: requires the input and output arrays to be distinct. The source's caller always passes two separate allocations, and overlapping buffers are not modelled.
- `BufferCodec.ExtendBuffer`: the copy loops and the group loops are separate methods, each named after the loop it models. The source keeps them inline.
- `BufferCodec.ContractBuffer`: the copy loops and the group loops are separate methods in the same way.
- The signed/unsigned comparisons of the source are not modelled separately. `int` results of `calculateExtendedSize` are compared against `uint` sizes, and -1 only occurs on a path that has already returned, so plain integer comparison gives the same results.
- Header arithmetic is unbounded `nat` arithmetic. A 24-bit length never wraps a `uint`.

## Findings

| source | as written | input that shows it | evidently intended | confidence | as-written member | corrected member |
|---|---|---|---|---|---|---|
| data2img.c:53 | `lastChunkPos = (input_size-1)-(input_size-1)%3` wraps to 4294967295 for `input_size == 0`, so the loop at line 54 reads and writes far past both buffers | an empty payload with a 24-byte output buffer, which passes both checks | encode the header alone (`calculateExtendedSize(0)` is 24), then pad | not executed | `ExtendedSize.EmptyInputLastChunkPos` | `BufferCodec.ExtendBuffer` |
