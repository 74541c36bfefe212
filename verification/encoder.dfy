/** The QOI encoder: a per-pixel state machine over the previous pixel, a pending
    run counter and the 64-slot colour cache, choosing for each pixel between the
    run, index, small-diff, luma, RGB and RGBA ops. */
module Encoder {
  import opened Outcomes
  import opened Bytes
  import opened Pixels
  import opened Header
  import opened Ops

  /** What the encoder carries from one pixel to the next. */
  datatype EncState = EncState(prev: Pixel, run: int, cache: Cache) {
    /** Between pixels the pending run is 0..61: a run reaching 62 is flushed at once. */
    predicate Valid() {
      0 <= run <= 61
    }
  }

  /** Previous pixel opaque black, no pending run, all-zero cache. */
  const EncInit: EncState := EncState(Start, 0, InitialCache)

  /** The literal op for a pixel that is neither a run continuation nor a cache hit.
      With alpha unchanged: the channel deltas, taken as wrapped signed bytes, pick
      the small-diff op if all lie in -2..1, else the luma op if the green delta
      lies in -32..31 and the red and blue deltas relative to it in -8..7, else the
      RGB op. With alpha changed: the RGBA op. */
  function LiteralOp(prev: Pixel, px: Pixel): (op: Op)
    ensures op.Diff? || op.Luma? || op.Rgb? || op.Rgba?
    ensures op.Rgba? <==> px.a != prev.a
  {
    if px.a == prev.a then
      var vr := ToInt8(px.r - prev.r);
      var vg := ToInt8(px.g - prev.g);
      var vb := ToInt8(px.b - prev.b);
      var vgr := ToInt8(vr - vg);
      var vgb := ToInt8(vb - vg);
      if -2 <= vr <= 1 && -2 <= vg <= 1 && -2 <= vb <= 1 then Diff(vr, vg, vb)
      else if -8 <= vgr <= 7 && -32 <= vg <= 31 && -8 <= vgb <= 7 then Luma(vg, vgr, vgb)
      else Rgb(px.r, px.g, px.b)
    else
      Rgba(px.r, px.g, px.b, px.a)
  }

  /** Whatever literal op the encoder picks, the decoder's reading of it, applied
      to the previous pixel, gives back the pixel: the wrapped-delta range tests
      guarantee that the decoder's additions modulo 256 undo the subtractions. */
  lemma {:induction false} LiteralOpInverse(prev: Pixel, px: Pixel, cache: Cache)
    ensures Apply(LiteralOp(prev, px), prev, cache) == px
  {
    var op := LiteralOp(prev, px);
    if op.Diff? {
      DiffInverse(prev, px, op, cache);
    } else if op.Luma? {
      LumaInverse(prev, px, op, cache);
    }
  }

  lemma {:induction false} DiffInverse(prev: Pixel, px: Pixel, op: Op, cache: Cache)
    requires op.Diff? && px.a == prev.a
    requires op.dr == ToInt8(px.r - prev.r) && op.dg == ToInt8(px.g - prev.g) && op.db == ToInt8(px.b - prev.b)
    ensures Apply(op, prev, cache) == px
  {
    ToInt8Congruent(px.r - prev.r);
    ToInt8Congruent(px.g - prev.g);
    ToInt8Congruent(px.b - prev.b);
    AddWrapInverse(px.r, prev.r, op.dr);
    AddWrapInverse(px.g, prev.g, op.dg);
    AddWrapInverse(px.b, prev.b, op.db);
  }

  lemma {:induction false} LumaInverse(prev: Pixel, px: Pixel, op: Op, cache: Cache)
    requires op.Luma? && px.a == prev.a && op.green == ToInt8(px.g - prev.g)
    requires op.redMinusGreen == ToInt8(ToInt8(px.r - prev.r) - op.green)
    requires op.blueMinusGreen == ToInt8(ToInt8(px.b - prev.b) - op.green)
    ensures Apply(op, prev, cache) == px
  {
    LumaChannel(px.r, prev.r, op.green, op.redMinusGreen);
    LumaChannel(px.b, prev.b, op.green, op.blueMinusGreen);
    ToInt8Congruent(px.g - prev.g);
    AddWrapInverse(px.g, prev.g, op.green);
  }

  /** A luma op's red or blue channel: the delta relative to the green delta,
      added back to the green delta, undoes the wrapped channel difference. */
  lemma {:induction false} LumaChannel(x: uint8, y: uint8, vg: int, vd: int)
    requires vd == ToInt8(ToInt8(x - y) - vg)
    ensures AddWrap(y, vg + vd) == x
  {
    var v := ToInt8(x - y);
    ToInt8Congruent(x - y);
    ToInt8Congruent(v - vg);
    CongruentSum(x - y - v, v - vg - vd);
    AddWrapInverse(x, y, vg + vd);
  }

  lemma {:induction false} CongruentSum(x: int, y: int)
    requires x % 256 == 0 && y % 256 == 0
    ensures (x + y) % 256 == 0
  {
    assert x == 256 * (x / 256) && y == 256 * (y / 256);
    assert x + y == 256 * (x / 256 + y / 256);
  }

  /** One iteration of the encoder's pixel loop on pixel `px`; `last` says whether
      it is the image's last pixel. Returns the next state and the ops written. */
  function EncodeStep(s: EncState, px: Pixel, last: bool): (r: (EncState, seq<Op>))
    requires s.Valid()
    ensures r.0.Valid() && r.0.prev == px
    // nothing is pending after the last pixel
    ensures last ==> r.0.run == 0
  {
    if px == s.prev then
      var run := s.run + 1;
      if run == 62 || last then (s.(run := 0), [Run(run)])
      else (s.(run := run), [])
    else
      var flush := if s.run > 0 then [Run(s.run)] else [];
      var h := Hash(px);
      if s.cache[h] == px then (EncState(px, 0, s.cache), flush + [Index(h)])
      else (EncState(px, 0, s.cache[h := px]), flush + [LiteralOp(s.prev, px)])
  }

  /** A pixel that differs from the previous one flushes the pending run first,
      then gets one non-run op, and ends up as the previous pixel with nothing
      pending and in its own cache slot. */
  lemma {:induction false} DifferingStep(s: EncState, px: Pixel, last: bool)
    requires s.Valid() && px != s.prev
    ensures var r := EncodeStep(s, px, last);
      && r.0.run == 0
      && |r.1| == (if s.run > 0 then 2 else 1)
      && (s.run > 0 ==> r.1[0] == Run(s.run))
      && !r.1[|r.1| - 1].Run?
      && r.0.cache[Hash(px)] == px
  {
  }

  /** The cache changes only in slot `Hash(px)`, and only for a pixel that is
      neither a run continuation nor a cache hit. */
  lemma {:induction false} StepCache(s: EncState, px: Pixel, last: bool)
    requires s.Valid()
    ensures var c := EncodeStep(s, px, last).0.cache;
      c == s.cache || (px != s.prev && s.cache[Hash(px)] != px && c == s.cache[Hash(px) := px])
  {
  }

  /** For a pixel that differs from the previous one, the op the encoder writes
      (after any flushed run) is one the decoder turns back into the pixel: an
      index op names the slot that holds exactly that pixel, and a literal op
      applied to the previous pixel gives it. */
  lemma {:induction false} NewPixelOp(s: EncState, px: Pixel, last: bool)
    requires s.Valid() && px != s.prev
    ensures var ops := EncodeStep(s, px, last).1;
      var op := ops[|ops| - 1];
      && Apply(op, s.prev, s.cache) == px
      && (op.Index? ==> op.slot == Hash(px) && s.cache[Hash(px)] == px)
  {
    if s.cache[Hash(px)] != px {
      LiteralOpInverse(s.prev, px, s.cache);
    }
  }

  /** Every pixel is accounted for, either by the ops written or by the pending run. */
  lemma {:induction false} StepCovers(s: EncState, px: Pixel, last: bool)
    requires s.Valid()
    ensures var r := EncodeStep(s, px, last);
      Covered(r.1) + r.0.run == s.run + 1
  {
    var r := EncodeStep(s, px, last);
    if px != s.prev {
      var op := r.1[|r.1| - 1];
      if s.run > 0 {
        assert r.1 == [Run(s.run)] + [op];
        CoveredAppend([Run(s.run)], [op]);
      } else {
        assert r.1 == [op];
      }
    }
  }

  /** The ops the encoder writes for the remaining pixels `pxs`, starting in state
      `s`. */
  function EncodeFrom(s: EncState, pxs: seq<Pixel>): (ops: seq<Op>)
    requires s.Valid()
    decreases |pxs|
  {
    if |pxs| == 0 then []
    else
      var step := EncodeStep(s, pxs[0], |pxs| == 1);
      step.1 + EncodeFrom(step.0, pxs[1..])
  }

  /** Once at least one pixel is processed, the ops stand for exactly the pending
      run plus the pixels: the run ops' lengths and one per other op add up to
      the pixel count, with nothing left pending at the end. */
  lemma {:induction false} EncodeCovers(s: EncState, pxs: seq<Pixel>)
    requires s.Valid() && |pxs| > 0
    ensures Covered(EncodeFrom(s, pxs)) == s.run + |pxs|
    decreases |pxs|
  {
    var step := EncodeStep(s, pxs[0], |pxs| == 1);
    var rest := EncodeFrom(step.0, pxs[1..]);
    EncodeFromStep(s, pxs);
    StepCovers(s, pxs[0], |pxs| == 1);
    CoveredAppend(step.1, rest);
    if |pxs| > 1 {
      EncodeCovers(step.0, pxs[1..]);
    } else {
      assert rest == [];
    }
  }

  /** The op stream for a whole pixel buffer, from the initial state. */
  function EncodePixels(buffer: seq<uint8>, channels: int): (r: seq<uint8>)
    requires channels == 3 || channels == 4
    ensures |r| <= (channels + 1) * (|buffer| / channels)
  {
    BufferEncodedLength(buffer, channels);
    Serialize(EncodeFrom(EncInit, ReadPixels(buffer, channels)))
  }

  /** `Encode` on a pixel buffer and its description: `None` for an invalid
      description; otherwise the header, the op stream and the one padding byte,
      together with the description. */
  function Encode(pixels: seq<uint8>, d: Description): (r: Option<(seq<uint8>, Description)>)
    requires Valid(d) ==> |pixels| >= PixelCount(d) * d.channels
    ensures r.None? <==> !Valid(d)
    ensures r.Some? ==> r.value.1 == d
  {
    if !Valid(d) then None
    else
      var n := PixelCount(d);
      var c := d.channels as int;
      Some((EncodeHeader(d) + EncodePixels(pixels[..n * c], c) + Padding[..PaddingSize], d))
  }

  /** The layout of an encoded image: the header first, at most one byte more
      per pixel than the pixel data itself, and the padding byte last. */
  lemma {:induction false} EncodeLayout(pixels: seq<uint8>, d: Description)
    requires Valid(d) && |pixels| >= PixelCount(d) * d.channels
    ensures var out := Encode(pixels, d).value.0;
      |out| <= HeaderSize + PixelCount(d) * (d.channels + 1) + PaddingSize &&
      |out| > HeaderSize && out[..HeaderSize] == EncodeHeader(d) &&
      out[|out| - 1] == Padding[0]
  {
    var n := PixelCount(d);
    var c := d.channels as int;
    var buffer := pixels[..n * c];
    var body := EncodePixels(buffer, c);
    BufferOfPixels(n, c);
    assert |buffer| / c == n;
    assert |body| <= (c + 1) * n == n * (c + 1);
    Framed(EncodeHeader(d), body, Padding[..PaddingSize]);
    assert Encode(pixels, d).value.0 == EncodeHeader(d) + body + Padding[..PaddingSize];
  }

  /** Header, body and one padding byte, concatenated: the header is the prefix
      and the padding byte the last byte. */
  lemma {:induction false} Framed(header: seq<uint8>, body: seq<uint8>, pad: seq<uint8>)
    requires |pad| == 1
    ensures var out := header + body + pad;
      |out| == |header| + |body| + 1 && out[..|header|] == header && out[|out| - 1] == pad[0]
  {
    var out := header + body + pad;
    assert out[..|header|] == header;
  }

  /** A one-pixel image: a pixel equal to the start pixel is a run of one, the
      all-zero pixel is a hit on its (zero-initialised) cache slot 0, and any
      other pixel is a literal op relative to the start pixel. */
  lemma {:induction false} SinglePixel(px: Pixel)
    ensures EncodeFrom(EncInit, [px]) ==
      if px == Start then [Run(1)] else if px == Zero then [Index(0)] else [LiteralOp(Start, px)]
  {
    EncodeFromStep(EncInit, [px]);
    assert [px][1..] == [];
    if px != Start && px != Zero {
      assert InitialCache[Hash(px)] == Zero;
    }
  }

  /** The run cap at the start of an image: 62 repeats of the start pixel are
      one run op of 62, whatever follows; a 63rd repeat starts a second run. */
  lemma {:induction false} RunBoundary(px: Pixel)
    ensures px != Start ==> EncodeFrom(EncInit, Repeat(Start, 62) + [px]) == [Run(62)] + EncodeFrom(EncInit, [px])
    ensures EncodeFrom(EncInit, Repeat(Start, 63)) == [Run(62), Run(1)]
  {
    if px != Start {
      var pxs := Repeat(Start, 62) + [px];
      EncodeRunChunk(EncInit, pxs, 62);
      assert EncInit.(run := 0) == EncInit && pxs[62..] == [px];
    }
    var all := Repeat(Start, 63);
    EncodeRunChunk(EncInit, all, 62);
    assert EncInit.(run := 0) == EncInit && all[62..] == [Start];
    SinglePixel(Start);
  }

  /** A 2-by-2 image whose last pixel repeats its first, non-adjacent pixel:
      that pixel is written as an index op naming its cache slot. */
  lemma {:induction false} RepeatedPixelIndexed()
    ensures var red, green, blue := Pixel(255, 0, 0, 255), Pixel(0, 255, 0, 255), Pixel(0, 0, 255, 255);
      EncodeFrom(EncInit, [red, green, blue, red]) ==
        [LiteralOp(Start, red), LiteralOp(red, green), LiteralOp(green, blue), Index(Hash(red))]
  {
    var red, green, blue := Pixel(255, 0, 0, 255), Pixel(0, 255, 0, 255), Pixel(0, 0, 255, 255);
    var pxs := [red, green, blue, red];
    assert Hash(red) == 50 && Hash(green) == 48 && Hash(blue) == 46;
    var c1 := InitialCache[50 := red];
    var c2 := c1[48 := green];
    var c3 := c2[46 := blue];
    var s1, s2, s3 := EncState(red, 0, c1), EncState(green, 0, c2), EncState(blue, 0, c3);
    assert InitialCache[50] == Zero && c1[48] == Zero && c2[46] == Zero && c3[50] == red;
    EncodeFromStep(EncInit, pxs);
    LiteralStep(EncInit, red, false);
    EncodeFromStep(s1, pxs[1..]);
    LiteralStep(s1, green, false);
    EncodeFromStep(s2, pxs[2..]);
    LiteralStep(s2, blue, false);
    EncodeFromStep(s3, pxs[3..]);
    assert pxs[1..][1..] == pxs[2..] && pxs[2..][1..] == pxs[3..] && pxs[3..][1..] == [];
  }

  /** A pixel that differs from the previous one and misses the cache, with no
      run pending: one literal op, and the pixel goes into its cache slot. */
  lemma {:induction false} LiteralStep(s: EncState, px: Pixel, last: bool)
    requires s.Valid() && s.run == 0 && px != s.prev && s.cache[Hash(px)] != px
    ensures EncodeStep(s, px, last) == (EncState(px, 0, s.cache[Hash(px) := px]), [LiteralOp(s.prev, px)])
  {
    var empty: seq<Op> := [];
    assert empty + [LiteralOp(s.prev, px)] == [LiteralOp(s.prev, px)];
  }

  /** A pending run goes out as one run op once it reaches 62 pixels, at the last
      pixel, or just before the next different pixel: `t` repeats of the previous
      pixel on top of a pending run of `s.run` encode as a single run op of
      `s.run + t`, followed by the encoding of the rest with nothing pending. */
  lemma {:induction false} EncodeRunChunk(s: EncState, pxs: seq<Pixel>, t: nat)
    requires s.Valid()
    requires 1 <= t <= |pxs| && s.run + t <= 62
    requires forall i :: 0 <= i < t ==> pxs[i] == s.prev
    requires s.run + t == 62 || t == |pxs| || pxs[t] != s.prev
    ensures EncodeFrom(s, pxs) == [Run(s.run + t)] + EncodeFrom(s.(run := 0), pxs[t..])
    decreases t
  {
    var last := |pxs| == 1;
    var s0 := s.(run := 0);
    var run := s.run + t;
    assert pxs[0] == s.prev;
    RepeatStep(s, last);
    EncodeFromStep(s, pxs);
    var tail := EncodeFrom(s0, pxs[t..]);
    if s.run + 1 == 62 || last {
      assert t == 1 && pxs[t..] == pxs[1..];
      assert EncodeStep(s, pxs[0], last) == (s0, [Run(run)]);
      assert EncodeFrom(s, pxs) == [Run(run)] + tail;
    } else {
      var s1 := s.(run := s.run + 1);
      assert EncodeStep(s, pxs[0], last) == (s1, []);
      assert EncodeFrom(s, pxs) == [] + EncodeFrom(s1, pxs[1..]);
      assert s1.(run := 0) == s0;
      if t == 1 {
        assert pxs[t..] == pxs[1..];
        FlushBeforeDiffering(s1, pxs[1..]);
        assert EncodeFrom(s1, pxs[1..]) == [Run(run)] + tail;
      } else {
        EncodeRunChunk(s1, pxs[1..], t - 1);
        assert pxs[1..][t - 1..] == pxs[t..];
        assert s1.run + (t - 1) == run;
        assert EncodeFrom(s1, pxs[1..]) == [Run(run)] + tail;
      }
    }
  }

  /** `EncodeFrom` on a non-empty pixel sequence: one step, then the rest. */
  lemma {:induction false} EncodeFromStep(s: EncState, pxs: seq<Pixel>)
    requires s.Valid() && |pxs| > 0
    ensures var step := EncodeStep(s, pxs[0], |pxs| == 1);
      EncodeFrom(s, pxs) == step.1 + EncodeFrom(step.0, pxs[1..])
  {
  }

  /** A repeat of the previous pixel only grows the pending run, flushing it as
      one run op when it reaches 62 or at the last pixel. */
  lemma {:induction false} RepeatStep(s: EncState, last: bool)
    requires s.Valid()
    ensures EncodeStep(s, s.prev, last) ==
      if s.run + 1 == 62 || last then (s.(run := 0), [Run(s.run + 1)])
      else (s.(run := s.run + 1), [])
  {
  }

  /** A pending run is flushed before a pixel that differs from the previous one. */
  lemma {:induction false} FlushBeforeDiffering(s: EncState, pxs: seq<Pixel>)
    requires s.Valid() && s.run > 0 && |pxs| > 0 && pxs[0] != s.prev
    ensures EncodeFrom(s, pxs) == [Run(s.run)] + EncodeFrom(s.(run := 0), pxs)
  {
    var last := |pxs| == 1;
    var s0 := s.(run := 0);
    var b := EncodeStep(s0, pxs[0], last);
    FlushFirst(s, pxs[0], last);
    EncodeFromStep(s, pxs);
    EncodeFromStep(s0, pxs);
    var rest := EncodeFrom(b.0, pxs[1..]);
    assert ([Run(s.run)] + b.1) + rest == [Run(s.run)] + (b.1 + rest);
  }

  /** For a differing pixel, a pending run only adds its run op in front. */
  lemma {:induction false} FlushFirst(s: EncState, px: Pixel, last: bool)
    requires s.Valid() && s.run > 0 && px != s.prev
    ensures var b := EncodeStep(s.(run := 0), px, last);
      EncodeStep(s, px, last) == (b.0, [Run(s.run)] + b.1)
  {
    var s0 := s.(run := 0);
    var h := Hash(px);
    var op := if s.cache[h] == px then Index(h) else LiteralOp(s.prev, px);
    var next := if s.cache[h] == px then EncState(px, 0, s.cache) else EncState(px, 0, s.cache[h := px]);
    assert EncodeStep(s, px, last) == (next, [Run(s.run)] + [op]);
    assert EncodeStep(s0, px, last) == (next, [] + [op]);
    assert [] + [op] == [op];
  }

  /** The encoder never outgrows its worst-case buffer: each pixel costs at most
      `channels + 1` bytes (an RGBA op needs a changed alpha, which three-channel
      pixels never have), plus one byte for a run pending on entry. */
  lemma {:induction false} EncodedLength(s: EncState, pxs: seq<Pixel>, channels: int)
    requires s.Valid() && (channels == 3 || channels == 4)
    requires channels == 3 ==> s.prev.a == 255 && forall i :: 0 <= i < |pxs| ==> pxs[i].a == 255
    ensures |Serialize(EncodeFrom(s, pxs))| <= (channels + 1) * |pxs| + (if s.run > 0 then 1 else 0)
    decreases |pxs|
  {
    if |pxs| > 0 {
      var step := EncodeStep(s, pxs[0], |pxs| == 1);
      var rest := EncodeFrom(step.0, pxs[1..]);
      assert EncodeFrom(s, pxs) == step.1 + rest;
      SerializeAppend(step.1, rest);
      EncodedLength(step.0, pxs[1..], channels);
      StepLength(s, pxs[0], |pxs| == 1, channels);
      assert (channels + 1) * |pxs| == (channels + 1) * (|pxs| - 1) + channels + 1;
    }
  }

  /** One pixel's ops, plus one byte for a run left pending, cost at most
      `channels + 1` bytes beyond the one byte owed for a run pending on entry. */
  lemma {:induction false} StepLength(s: EncState, px: Pixel, last: bool, channels: int)
    requires s.Valid() && (channels == 3 || channels == 4)
    requires channels == 3 ==> s.prev.a == 255 && px.a == 255
    ensures var r := EncodeStep(s, px, last);
      |Serialize(r.1)| + (if r.0.run > 0 then 1 else 0) <= channels + 1 + (if s.run > 0 then 1 else 0)
  {
    var r := EncodeStep(s, px, last);
    if px == s.prev {
      assert |Serialize(r.1)| == |r.1|;
    } else {
      var op := r.1[|r.1| - 1];
      if s.run > 0 {
        assert r.1 == [Run(s.run)] + [op];
        SerializeAppend([Run(s.run)], [op]);
      } else {
        assert r.1 == [op];
      }
      assert |OpBytes(op)| <= channels + 1;
    }
  }

  /** The encoded pixels of a whole buffer take at most `channels + 1` bytes each. */
  lemma {:induction false} BufferEncodedLength(buffer: seq<uint8>, channels: int)
    requires channels == 3 || channels == 4
    ensures |Serialize(EncodeFrom(EncInit, ReadPixels(buffer, channels)))| <= (channels + 1) * (|buffer| / channels)
  {
    EncodedLength(EncInit, ReadPixels(buffer, channels), channels);
  }

  /** While every pixel keeps the previous pixel's alpha (as all three-channel
      pixels do, at 255), no RGBA op is written. */
  lemma {:induction false} NoRgbaWhileAlphaFixed(s: EncState, pxs: seq<Pixel>)
    requires s.Valid()
    requires forall i :: 0 <= i < |pxs| ==> pxs[i].a == s.prev.a
    ensures forall i :: 0 <= i < |EncodeFrom(s, pxs)| ==> !EncodeFrom(s, pxs)[i].Rgba?
    decreases |pxs|
  {
    if |pxs| > 0 {
      var step := EncodeStep(s, pxs[0], |pxs| == 1);
      var rest := EncodeFrom(step.0, pxs[1..]);
      NoRgbaWhileAlphaFixed(step.0, pxs[1..]);
      EncodeFromStep(s, pxs);
      StepNoRgba(s, pxs[0], |pxs| == 1);
      var all := step.1 + rest;
      forall i | 0 <= i < |all| ensures !all[i].Rgba? {
        if i < |step.1| {
          assert all[i] == step.1[i];
        } else {
          assert all[i] == rest[i - |step.1|];
        }
      }
    }
  }

  /** A three-channel buffer never produces an RGBA op: its pixels all carry
      alpha 255, the alpha of the initial previous pixel. */
  lemma {:induction false} NoRgbaForThreeChannels(buffer: seq<uint8>)
    ensures var ops := EncodeFrom(EncInit, ReadPixels(buffer, 3));
      forall i :: 0 <= i < |ops| ==> !ops[i].Rgba?
  {
    NoRgbaWhileAlphaFixed(EncInit, ReadPixels(buffer, 3));
  }

  /** A pixel with the previous pixel's alpha gets no RGBA op. */
  lemma {:induction false} StepNoRgba(s: EncState, px: Pixel, last: bool)
    requires s.Valid() && px.a == s.prev.a
    ensures var ops := EncodeStep(s, px, last).1;
      forall i :: 0 <= i < |ops| ==> !ops[i].Rgba?
  {
  }
}
