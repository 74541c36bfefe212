/** Pixels, the colour hash, the 64-slot colour cache, and the interleaved
    pixel-buffer layout (B,G,R[,A] per pixel, row-major). */
module Pixels {
  import opened Bytes

  /** One RGBA pixel; equality is field-wise over the four channels. */
  datatype Pixel = Pixel(r: uint8, g: uint8, b: uint8, a: uint8)

  /** The value every cache slot starts with. */
  const Zero: Pixel := Pixel(0, 0, 0, 0)

  /** The previous pixel both encoder and decoder start from. */
  const Start: Pixel := Pixel(0, 0, 0, 255)

  /** `n` copies of a pixel. */
  function Repeat(px: Pixel, n: nat): (r: seq<Pixel>)
    ensures |r| == n && forall i :: 0 <= i < n ==> r[i] == px
  {
    seq(n, _ => px)
  }

  /** A cache slot number. */
  type Slot = i: int | 0 <= i < 64

  /** A colour cache of exactly 64 slots. */
  type Cache = c: seq<Pixel> | |c| == 64 witness Repeat(Zero, 64)

  /** The cache at the start of every encode and decode call: 64 zero pixels. */
  const InitialCache: Cache := Repeat(Zero, 64)

  /** `ColorHash`: the cache slot of a pixel. */
  function Hash(px: Pixel): (h: int)
    ensures 0 <= h < 64
  {
    (px.r as int * 3 + px.g as int * 5 + px.b as int * 7 + px.a as int * 11) % 64
  }

  /** The start pixel hashes to slot 53, where the initial cache holds a zero
      pixel that itself hashes to slot 0. */
  lemma {:induction false} StartSlot()
    ensures Hash(Start) == 53 && Hash(InitialCache[53]) == 0
  {
  }

  /** One pixel from the first bytes of `bs`, stored B,G,R[,A]; with three
      channels the alpha stays at the start value 255. */
  function ReadPixel(bs: seq<uint8>, channels: int): (px: Pixel)
    requires channels == 3 || channels == 4
    requires |bs| >= channels
    ensures px.b == bs[0] && px.g == bs[1] && px.r == bs[2]
    ensures px.a == if channels == 4 then bs[3] else 255
  {
    Pixel(bs[2], bs[1], bs[0], if channels == 4 then bs[3] else 255)
  }

  /** The bytes the decoder stores for one pixel: B,G,R and, with four channels, A. */
  function WritePixel(px: Pixel, channels: int): (bs: seq<uint8>)
    requires channels == 3 || channels == 4
    ensures |bs| == channels
    ensures bs[0] == px.b && bs[1] == px.g && bs[2] == px.r
    ensures channels == 4 ==> bs[3] == px.a
  {
    [px.b, px.g, px.r] + if channels == 4 then [px.a] else []
  }

  /** The pixels of a buffer, in order, one per `channels` bytes. */
  function ReadPixels(bs: seq<uint8>, channels: int): (pxs: seq<Pixel>)
    requires channels == 3 || channels == 4
    ensures |pxs| == |bs| / channels
    ensures channels == 3 ==> forall i :: 0 <= i < |pxs| ==> pxs[i].a == 255
    decreases |bs|
  {
    if |bs| < channels then []
    else [ReadPixel(bs, channels)] + ReadPixels(bs[channels..], channels)
  }

  /** The buffer holding `pxs`, `channels` bytes per pixel. */
  function WritePixels(pxs: seq<Pixel>, channels: int): (bs: seq<uint8>)
    requires channels == 3 || channels == 4
    ensures |bs| == |pxs| * channels
  {
    if |pxs| == 0 then []
    else WritePixel(pxs[0], channels) + WritePixels(pxs[1..], channels)
  }

  /** A buffer of `n` pixels holds `n * channels` bytes, a whole number of pixels. */
  lemma {:induction false} BufferOfPixels(n: nat, channels: int)
    requires channels == 3 || channels == 4
    ensures (n * channels) / channels == n && (n * channels) % channels == 0
  {
    if channels == 3 {
      assert (n * 3) / 3 == n && (n * 3) % 3 == 0;
    } else {
      assert (n * 4) / 4 == n && (n * 4) % 4 == 0;
    }
  }

  /** Reading a whole buffer into pixels and writing them back gives the buffer. */
  lemma {:induction false} WriteReadPixels(bs: seq<uint8>, channels: int)
    requires channels == 3 || channels == 4
    requires |bs| % channels == 0
    ensures WritePixels(ReadPixels(bs, channels), channels) == bs
    decreases |bs|
  {
    if |bs| >= channels {
      var rest := bs[channels..];
      assert |rest| % channels == 0;
      WriteReadPixels(rest, channels);
      assert WritePixel(ReadPixel(bs, channels), channels) == bs[..channels];
      assert bs == bs[..channels] + rest;
    }
  }

  /** Writing pixels out and reading them back gives the pixels, provided that
      with three channels every alpha is 255 (the only alpha a buffer can carry). */
  lemma {:induction false} ReadWritePixels(pxs: seq<Pixel>, channels: int)
    requires channels == 3 || channels == 4
    requires channels == 3 ==> forall i :: 0 <= i < |pxs| ==> pxs[i].a == 255
    ensures ReadPixels(WritePixels(pxs, channels), channels) == pxs
  {
    if |pxs| > 0 {
      var bs := WritePixels(pxs, channels);
      ReadWritePixels(pxs[1..], channels);
      assert bs[channels..] == WritePixels(pxs[1..], channels);
      assert ReadPixel(bs, channels) == pxs[0];
    }
  }
}
