/** The image description and the fixed 14-byte big-endian header that carries it. */
module Header {
  import opened Bytes

  /** The ASCII bytes `q`,`o`,`i`,`f` packed into one 32-bit value. */
  const Magic: uint32 := 0x716F6966

  /** The pixel-count ceiling. */
  const PixelsMax: int := 400000000

  /** Bytes in the header: magic, width, height, channels, colour space. */
  const HeaderSize: int := 14

  /** The end marker the QOI standard defines. */
  const Padding: seq<uint8> := [0, 0, 0, 0, 0, 0, 0, 1]

  /** How many bytes of `Padding` the codec actually writes and reserves: one. */
  const PaddingSize: int := 1

  /** Width, height, channel count and colour-space tag of an image. */
  datatype Description = Description(width: uint32, height: uint32, channels: uint8, colorSpace: uint8)

  /** The checks shared by `Encode` and `Decode`: both dimensions non-zero, three or
      four channels, colour space 0 or 1, and height below the ceiling divided by
      the width (integer division, evaluated only once the width is non-zero). */
  predicate Valid(d: Description) {
    && d.width != 0
    && d.height != 0
    && 3 <= d.channels <= 4
    && d.colorSpace <= 1
    && d.height < PixelsMax / d.width
  }

  /** The number of pixels of a valid image. */
  function PixelCount(d: Description): (n: nat)
    requires Valid(d)
    ensures 0 < n < PixelsMax
  {
    CountBelowCeiling(d);
    d.width as int * d.height as int
  }

  /** A valid description has fewer than 400000000 pixels, so the codec's
      `int` buffer sizes never overflow: even the encoder's worst-case
      allocation stays below 2^31. */
  lemma {:induction false} CountBelowCeiling(d: Description)
    requires Valid(d)
    ensures 0 < d.width as int * d.height as int <= PixelsMax - d.width as int
    ensures d.width as int * d.height as int * (d.channels as int + 1) + HeaderSize + PaddingSize < 0x8000_0000
  {
    var w, h := d.width as int, d.height as int;
    var q := PixelsMax / w;
    assert q * w <= PixelsMax;
    assert h + 1 <= q;
    assert (h + 1) * w <= q * w;
    assert w * h < PixelsMax;
    assert w * h * (d.channels as int + 1) <= w * h * 5;
  }

  /** The header bytes the encoder writes for `d`. */
  function EncodeHeader(d: Description): (r: seq<uint8>)
    ensures |r| == HeaderSize
    ensures Read32(r, 0) == Magic && Read32(r, 4) == d.width && Read32(r, 8) == d.height
    ensures r[12] == d.channels && r[13] == d.colorSpace
  {
    var r := Write32(Magic) + Write32(d.width) + Write32(d.height) + [d.channels, d.colorSpace];
    Read32Write32(Magic, r, 0);
    Read32Write32(d.width, r, 4);
    Read32Write32(d.height, r, 8);
    r
  }

  /** The magic value and description the decoder reads from the first 14 bytes. */
  function ParseHeader(bytes: seq<uint8>): (r: (uint32, Description))
    requires |bytes| >= HeaderSize
  {
    (Read32(bytes, 0), Description(Read32(bytes, 4), Read32(bytes, 8), bytes[12], bytes[13]))
  }

  /** The header fields read back from any 14 bytes write out as those bytes:
      nothing in the header is ignored or altered by reading it. */
  lemma {:induction false} ParseHeaderExact(bytes: seq<uint8>)
    requires |bytes| >= HeaderSize
    ensures var r := ParseHeader(bytes);
      Write32(r.0) + EncodeHeader(r.1)[4..] == bytes[..HeaderSize]
  {
    var d := ParseHeader(bytes).1;
    Write32Read32(bytes, 0);
    Write32Read32(bytes, 4);
    Write32Read32(bytes, 8);
    assert EncodeHeader(d)[4..] == Write32(d.width) + Write32(d.height) + [d.channels, d.colorSpace];
  }

  /** Parsing a header the encoder wrote recovers the magic value and the description. */
  lemma {:induction false} ParseEncodeHeader(d: Description, rest: seq<uint8>)
    ensures ParseHeader(EncodeHeader(d) + rest) == (Magic, d)
  {
    var bytes := EncodeHeader(d) + rest;
    Read32Write32(Magic, bytes, 0);
    Read32Write32(d.width, bytes, 4);
    Read32Write32(d.height, bytes, 8);
  }
}
