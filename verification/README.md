# QoiNet codec core in Dafny

This project models the core of QoiNet, a C# implementation of the QOI ("Quite OK
Image") lossless image format (QOI Image Format Specification v1.0). It covers the
static class `QoiNet` in `QoiNet/QoiNet.cs`:

- the 14-byte big-endian header (magic `qoif`, width, height, channels, colour
  space) and its `Read32` / `Write32` field codec;
- the description checks that `Encode` and `Decode` share;
- `ColorHash`;
- the encoder's per-pixel state machine. It tracks the previous pixel, a run
  counter and a 64-slot colour cache, and chooses between the RUN, INDEX, DIFF,
  LUMA, RGB and RGBA ops;
- the decoder's per-pixel interpreter.

The main theorem is `RoundTrip.RoundTrip`. For every valid description and every
buffer of width × height × channels bytes, decoding what `Encode` wrote gives
back the buffer and the description.

Modules, one per concern, in dependency order:

| module | file | contents |
|---|---|---|
| `Outcomes` | outcomes.dfy | `Option` (the C# nullable result) and `Result` |
| `Bytes` | bytes.dfy | `uint8` / `uint32`, the `(sbyte)` cast and the `byte +=` wrap, `Read32` / `Write32` |
| `Pixels` | pixels.dfy | `Pixel`, `Hash`, the 64-slot `Cache`, the B,G,R[,A] buffer layout |
| `Header` | header.dfy | `Description`, `Valid`, the header bytes |
| `Ops` | ops.dfy | the `Op` datatype, its byte form, the decoder's parse of one op, and `Apply` (what an op does to the current pixel) |
| `Encoder` | encoder.dfy | `EncodeStep`, `EncodeFrom`, `Encode` |
| `Decoder` | decoder.dfy | `DecodeStep`, `DecodeFrom`, `Decode` |
| `RoundTrip` | roundtrip.dfy | the encoder/decoder synchronisation invariant and the round-trip theorem |

The C# code writes bytes inline as it goes. The model splits each side in two:
- The encoder picks an `Op` per pixel, and `Serialize` turns the op sequence into
  bytes.
- The decoder parses the op at the read position with `ParseOp` and applies it to
  the current pixel with `Apply`.

`Ops.ParseOpExact` and `Ops.ParseOpBytes` show this split changes nothing: every
byte pattern parses to exactly one op, and that op's byte form is exactly the
bytes read. Bit operations are written arithmetically:
- `b & 0x3f` is `b % 64`;
- `b >> 4` is `b / 16`;
- a `|` of non-overlapping fields is `+`.

Behaviour of the code that the model keeps as written:

- **The padding is one byte, 0x00.** `qoiPaddingSize` is `sizeof(byte)` with the
  length factor commented out (QoiNet/QoiNet.cs:23-24). The encoder appends only
  the first byte of the 8-byte end marker the QOI standard prescribes
  (QoiNet/QoiNet.cs:146-148). The decoder therefore accepts inputs of 15 bytes or
  more and stops reading ops one byte before the end (QoiNet/QoiNet.cs:155, 181).
  The standard's end marker is `00×7 01`; the model follows the code.
- **The decoder writes the cache after every op it reads**, index and run ops
  included (QoiNet/QoiNet.cs:213). The encoder writes the cache only for a pixel
  that is neither a run continuation nor a cache hit. So the two caches are not
  identical. The round trip rests on a weaker invariant, `RoundTrip.Agree`:
  wherever the encoder's entry hashes to its own slot, the decoder holds the same
  pixel.
- **Once the ops are used up, the decoder repeats the current pixel** for every
  remaining pixel (QoiNet/QoiNet.cs:185).
- **The first pixel can be a run or an index op.** The previous pixel starts as
  opaque black, and the cache starts as 64 all-zero pixels. A one-pixel image
  whose pixel is opaque black is encoded as a run of one. A one-pixel image whose
  pixel is all zero is encoded as an index op on slot 0 (`Encoder.SinglePixel`).
- **Pixel bytes are stored B,G,R[,A]** (QoiNet/QoiNet.cs:86-89, 216-219). With
  three channels, alpha stays 255.

Error results:
- `Decode` returns `Failure(Rejected)` where the C# code returns `null`.
- It returns `Failure(Truncated)` where the C# code would throw
  `IndexOutOfRangeException`: an op that starts before the padding byte but needs
  more bytes than remain.
- `Encode` returns `None` where the C# code returns `null`.

## Model

| member | source | states |
|---|---|---|
| Bytes.ToInt8 | QoiNet/QoiNet.cs:111-116 | the `(sbyte)` cast gives a value in -128..127 |
| Bytes.ToInt8Congruent | QoiNet/QoiNet.cs:111-116 | the `(sbyte)` cast keeps the value modulo 256 |
| Bytes.AddWrapInverse | QoiNet/QoiNet.cs:200-208 | the decoder's `byte +=` of any value congruent to `x - y` modulo 256 turns `y` into `x` |
| Bytes.Read32Write32 | QoiNet/QoiNet.cs:249-262 | `Read32` on the four bytes `Write32` wrote returns the value written |
| Bytes.Write32Read32 | QoiNet/QoiNet.cs:249-262 | any four bytes are the big-endian form of the value `Read32` reads from them |
| Header.PixelCount | QoiNet/QoiNet.cs:58-63 | a valid description has between 1 and 399999999 pixels |
| Header.CountBelowCeiling | QoiNet/QoiNet.cs:61-67 | the height test keeps width × height below 400000000, so the encoder's buffer size `W·H·(c+1) + 14 + 1` fits in a C# `int` |
| Header.EncodeHeader | QoiNet/QoiNet.cs:69-74 | the header is 14 bytes: `Read32` gives the magic 0x716F6966 at 0, the width at 4 and the height at 8; channels and colour space are bytes 12 and 13 |
| Header.ParseEncodeHeader | QoiNet/QoiNet.cs:157-163 | parsing a header the encoder wrote, whatever follows it, gives back the magic and the description |
| Header.ParseHeaderExact | QoiNet/QoiNet.cs:157-163 | the fields the decoder reads from any 14 bytes, written back out, are exactly those bytes |
| Pixels.Hash | QoiNet/QoiNet.cs:245-247 | `ColorHash` is a slot number in 0..63 |
| Pixels.StartSlot | QoiNet/QoiNet.cs:76-80 | the initial previous pixel hashes to slot 53, whose initial zero pixel hashes to slot 0 |
| Pixels.ReadPixel | QoiNet/QoiNet.cs:86-89 | a pixel is read B,G,R[,A] from the buffer, with alpha 255 for three channels |
| Pixels.WritePixel | QoiNet/QoiNet.cs:216-219 | a pixel is stored as `channels` bytes B,G,R[,A] |
| Pixels.ReadPixels | QoiNet/QoiNet.cs:82-89 | a buffer holds `len / channels` pixels, all opaque with three channels |
| Pixels.WritePixels | QoiNet/QoiNet.cs:173-175 | the decoded buffer has `channels` bytes per pixel |
| Pixels.WriteReadPixels | QoiNet/QoiNet.cs:85-89 | storing the pixels read from a whole buffer gives back the buffer |
| Pixels.ReadWritePixels | QoiNet/QoiNet.cs:216-219 | reading back stored pixels gives the pixels, when three-channel pixels are opaque |
| Ops.OpSize | QoiNet/QoiNet.cs:186-211 | every op takes 1 to 5 bytes, fixed by its first byte |
| Ops.OpBytes | QoiNet/QoiNet.cs:94-138 | every op's byte form is as long as its first byte says |
| Ops.OpTag | QoiNet/QoiNet.cs:11-16 | the first byte gives the op kind, in both directions; RGB and RGBA are 0xFE and 0xFF; a RUN byte lies in 0xC0..0xFD; an INDEX byte is its slot number |
| Ops.OpBytesInjective | QoiNet/QoiNet.cs:94-138 | two ops with the same byte form are the same op |
| Ops.ShortOp | QoiNet/QoiNet.cs:197-211 | a one-byte op read from byte `b` writes back as exactly `b` |
| Ops.ParseOpExact | QoiNet/QoiNet.cs:186-211 | every byte pattern reads as an op whose byte form is exactly the bytes consumed |
| Ops.ParseOpBytes | QoiNet/QoiNet.cs:186-211 | at an op's byte form the decoder reads that op and consumes its length |
| Ops.Apply | QoiNet/QoiNet.cs:188-211 | INDEX yields the cache slot; apart from INDEX, only RGBA changes alpha; RUN keeps the pixel; the literals set R, G and B |
| Encoder.LiteralOp | QoiNet/QoiNet.cs:110-139 | a cache miss yields DIFF, LUMA, RGB or RGBA, and RGBA exactly when alpha changes |
| Encoder.LiteralOpInverse | QoiNet/QoiNet.cs:110-139 | the decoder applying the chosen literal op to the previous pixel reproduces the pixel exactly |
| Encoder.DiffInverse | QoiNet/QoiNet.cs:118-121 | a DIFF op's wrapped deltas, added back modulo 256, give the pixel |
| Encoder.LumaInverse | QoiNet/QoiNet.cs:122-126 | a LUMA op's green delta and cross deltas, added back modulo 256, give the pixel |
| Encoder.EncodeStep | QoiNet/QoiNet.cs:91-143 | after every pixel, the run counter is in 0..61 and the pixel becomes the previous one; after the last pixel no run is pending |
| Encoder.DifferingStep | QoiNet/QoiNet.cs:97-108 | a differing pixel first flushes a pending run, then gets one non-RUN op, leaving no run pending and the pixel in its own cache slot |
| Encoder.StepCache | QoiNet/QoiNet.cs:103-108 | the cache changes only at slot `ColorHash(px)`, and only for a pixel that is neither a run continuation nor an index hit |
| Encoder.NewPixelOp | QoiNet/QoiNet.cs:103-139 | an INDEX op names slot `ColorHash(px)`, which holds exactly `px`; any op for a differing pixel decodes back to it |
| Encoder.StepCovers | QoiNet/QoiNet.cs:91-101 | each pixel is accounted for by the ops written or by the pending run |
| Encoder.EncodeCovers | QoiNet/QoiNet.cs:85-144 | the ops for a non-empty pixel sequence stand for exactly the pending run plus those pixels |
| Encoder.EncodeRunChunk | QoiNet/QoiNet.cs:91-101 | repeats of the previous pixel become one RUN op of the whole count, flushed at 62, at the last pixel, or before the next differing pixel |
| Encoder.FlushBeforeDiffering | QoiNet/QoiNet.cs:97-101 | a pending run goes out as a RUN op before the next differing pixel's op |
| Encoder.SinglePixel | QoiNet/QoiNet.cs:76-108 | a one-pixel image gives RUN 1 for opaque black, INDEX 0 for the zero pixel, and otherwise one literal op |
| Encoder.RunBoundary | QoiNet/QoiNet.cs:91-96 | 62 repeats of the start pixel are one RUN of 62 before whatever follows; 63 are RUN 62 then RUN 1 |
| Encoder.RepeatedPixelIndexed | QoiNet/QoiNet.cs:103-106 | in a 2×2 image red, green, blue, red, the last red is written as an INDEX op on red's slot |
| Encoder.StepLength | QoiNet/QoiNet.cs:91-139 | one pixel costs at most `channels + 1` bytes, counting a run it leaves pending |
| Encoder.EncodedLength | QoiNet/QoiNet.cs:65-67 | the ops for `n` pixels take at most `(channels + 1) · n` bytes, plus one for a pending run |
| Encoder.BufferEncodedLength | QoiNet/QoiNet.cs:82-85 | the ops for a buffer take at most `channels + 1` bytes per pixel |
| Encoder.EncodePixels | QoiNet/QoiNet.cs:85-144 | the op bytes of a buffer fit in `channels + 1` bytes per pixel |
| Encoder.NoRgbaWhileAlphaFixed | QoiNet/QoiNet.cs:110-139 | while alpha never changes, no RGBA op is emitted |
| Encoder.NoRgbaForThreeChannels | QoiNet/QoiNet.cs:78-89 | a three-channel buffer never yields an RGBA op |
| Encoder.Encode | QoiNet/QoiNet.cs:58-63 | `null` exactly when the width or height is 0, channels are not 3 or 4, the colour space exceeds 1, or height ≥ 400000000 / width; otherwise the description is returned unchanged |
| Encoder.EncodeLayout | QoiNet/QoiNet.cs:65-150 | the output starts with the header, ends with the single padding byte 0x00, and is at most `14 + W·H·(c+1) + 1` bytes long |
| Decoder.DecodeStep | QoiNet/QoiNet.cs:182-214 | one pixel step never moves the read position backwards, and fails only as truncation |
| Decoder.StepWithoutRead | QoiNet/QoiNet.cs:183-185 | with a run pending or the ops used up, nothing is read and the pixel and cache stay |
| Decoder.StepFailure | QoiNet/QoiNet.cs:185-204 | a step fails exactly when an op starts before the padding byte and needs more bytes than remain |
| Decoder.StepReadsOp | QoiNet/QoiNet.cs:185-213 | reading an op consumes exactly that op's byte form and applies it; after any op, index and run included, the cache holds the new pixel in its own slot and is unchanged in every other slot |
| Decoder.DecodeFrom | QoiNet/QoiNet.cs:182-220 | decoding `count` pixels gives exactly `count` pixels or a truncation |
| Decoder.Decode | QoiNet/QoiNet.cs:153-222 | rejected exactly for input under 15 bytes, a wrong magic, or a description `Encode` would refuse; on success the description is the header's, and the buffer has W·H·channels bytes |
| Decoder.DecodeRepeats | QoiNet/QoiNet.cs:183-184 | a pending run of `n` emits the current pixel `n` times without reading |
| Decoder.DecodeExhausted | QoiNet/QoiNet.cs:181-185 | once the read position reaches the padding byte, every remaining pixel repeats the current one |
| RoundTrip.AgreeAfterNew | QoiNet/QoiNet.cs:103-108 | after a new pixel both caches hold it in its slot and still agree elsewhere, despite the decoder's extra writes |
| RoundTrip.AgreeAfterRepeat | QoiNet/QoiNet.cs:213 | the decoder writing the previous pixel back into its slot after a RUN keeps the caches in agreement |
| RoundTrip.OpReadsCacheOnlyForIndex | QoiNet/QoiNet.cs:188-211 | only an INDEX op looks at the cache |
| RoundTrip.RunStep | QoiNet/QoiNet.cs:91-101 | a RUN op the encoder writes is replayed by the decoder as that many copies, after which the two are in step again |
| RoundTrip.NewPixelStep | QoiNet/QoiNet.cs:97-139 | the op written for a differing pixel is decoded back to it, after which the two are in step again |
| RoundTrip.RoundTripFrom | QoiNet/QoiNet.cs:182-220 | from states in step, the decoder turns the encoder's ops for any pixel sequence back into that sequence |
| RoundTrip.DecodeRejectsLikeEncode | QoiNet/QoiNet.cs:165-171 | the decoder refuses an encoder-written header exactly when `Encode` would refuse its description |
| RoundTrip.RoundTrip | QoiNet/QoiNet.cs:49-222 | for a valid description and a buffer of W·H·channels bytes, `Decode(Encode(buffer, d))` yields the same buffer and description |

## Left out

- `QoiNet/DirectBitmap.cs`: GDI bitmap interop, pinned memory, floating-point alpha premultiplication, `Parallel.For` and drawing helpers. It is not codec logic and is not part of this model.
- The `Bitmap` front end of `Encode` (QoiNet/QoiNet.cs:49-56) is not modelled. `Encode` takes the pixel bytes and a `Description` as parameters. The front end always leaves the colour space at 0; the model keeps it as an input so the colour-space check stays meaningful.
- `FromQoiFile` and `ToQoiFile` are left out because they only do file I/O around `Decode` and `Encode`.
- The `Tester` program (argument handling, directory walks, timing) is left out; it is not part of this model.
- The `QoiRgba` explicit-layout union is replaced by a four-field `Pixel` whose equality is field-wise. That equality is what the union's 32-bit compare computes.
- Encoder.Encode: requires at least W·H·channels pixel bytes for a valid description. The C# code reads that many from the bitmap's bytes and would throw on a shorter array.
- Decoder.Decode: an op running past the end of the input is the result `Failure(Truncated)`, not an exception. The model does not say which byte the C# code would have faulted on.
- Bytes.Write32: takes an unsigned 32-bit value. The C# code takes `int` and casts widths to `int`; the two agree for every value it is given, because a valid width is below 400000000.
- Bytes.Read32: returns the unsigned value. The C# code goes through `int` and back to `uint`, which keeps all 32 bits.
- Bytes.AddWrap: the C# arithmetic runs in unchecked mode. Byte stores truncate modulo 256, and that is modelled explicitly. No other intermediate value can overflow for a valid description (`Header.CountBelowCeiling`).
- The trimmed copy `bytes[0..p]` and the up-front allocation of the worst-case buffer are not modelled as arrays. The output is the sequence of bytes written, and `Encoder.EncodeLayout` bounds its length by the allocation size.
