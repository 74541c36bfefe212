/** Decoding what the encoder wrote gives back the pixel buffer and the description.

    The encoder and decoder caches do not stay identical: the decoder writes the
    current pixel into its slot after every op, index and run included, and the
    encoder does not. What does hold is that the two agree on every slot whose
    encoder entry hashes to that slot, which is all an index op can refer to. */
module RoundTrip {
  import opened Outcomes
  import opened Bytes
  import opened Pixels
  import opened Header
  import opened Ops
  import opened Encoder
  import opened Decoder

  /** Every encoder cache entry that sits in its own hash slot is also in the
      decoder's cache. */
  predicate Agree(enc: Cache, dec: Cache) {
    forall i :: 0 <= i < 64 ==> enc[i] == dec[i] || Hash(enc[i]) != i
  }

  /** The slot of the previous pixel holds that pixel, or something that does not
      hash there (only ever the zero pixel in slot 53 before the first new pixel). */
  predicate PrevCached(enc: Cache, prev: Pixel) {
    enc[Hash(prev)] == prev || Hash(enc[Hash(prev)]) != Hash(prev)
  }

  /** Encoder and decoder at the same pixel boundary, with no run pending in either. */
  predicate InSync(es: EncState, ds: DecState) {
    && es.run == 0 && ds.run == 0
    && es.prev == ds.px
    && Agree(es.cache, ds.cache)
    && PrevCached(es.cache, es.prev)
  }

  /** The bytes at `p` are the byte form of `ops`, op after op, and at least one
      byte (the padding) follows them. */
  predicate StreamAt(bytes: seq<uint8>, p: int, ops: seq<Op>)
    decreases |ops|
  {
    && 0 <= p < |bytes|
    && (|ops| > 0 ==>
         var n := |OpBytes(ops[0])|;
         p + n <= |bytes| && bytes[p..p + n] == OpBytes(ops[0]) && StreamAt(bytes, p + n, ops[1..]))
  }

  /** Bytes holding the serialized ops, with a byte after them, hold the ops one
      after the other. */
  lemma {:induction false} SerializedStream(bytes: seq<uint8>, p: int, ops: seq<Op>)
    requires 0 <= p && p + |Serialize(ops)| < |bytes| && bytes[p..p + |Serialize(ops)|] == Serialize(ops)
    ensures StreamAt(bytes, p, ops)
    decreases |ops|
  {
    if |ops| > 0 {
      var first := OpBytes(ops[0]);
      assert Serialize(ops) == first + Serialize(ops[1..]);
      SliceSplit(bytes, p, first, Serialize(ops[1..]));
      SerializedStream(bytes, p + |first|, ops[1..]);
    }
  }

  /** How many of the leading pixels repeat `prev`, up to `cap`. */
  function LeadingRun(pxs: seq<Pixel>, prev: Pixel, cap: nat): (k: nat)
    ensures k <= cap && k <= |pxs|
    ensures forall i :: 0 <= i < k ==> pxs[i] == prev
    ensures k < cap && k < |pxs| ==> pxs[k] != prev
  {
    if cap == 0 || |pxs| == 0 || pxs[0] != prev then 0
    else 1 + LeadingRun(pxs[1..], prev, cap - 1)
  }

  /** The decoder reads the first op of a stream and is left at the rest. */
  lemma {:induction false} ReadFirstOp(bytes: seq<uint8>, p: int, op: Op, rest: seq<Op>)
    requires StreamAt(bytes, p, [op] + rest)
    ensures p < |bytes| - PaddingSize && p + OpSize(bytes[p]) <= |bytes|
    ensures OpSize(bytes[p]) == |OpBytes(op)| && ParseOp(bytes, p) == op
    ensures StreamAt(bytes, p + |OpBytes(op)|, rest)
  {
    assert ([op] + rest)[0] == op;
    assert ([op] + rest)[1..] == rest;
    ParseOpBytes(bytes, p, op);
  }

  /** Where the bytes at `p` are `a + b`, those at `p` are `a` and those after them `b`. */
  lemma {:induction false} SliceSplit(s: seq<uint8>, p: int, a: seq<uint8>, b: seq<uint8>)
    requires 0 <= p && p + |a| + |b| <= |s| && s[p..p + |a| + |b|] == a + b
    ensures s[p..p + |a|] == a && s[p + |a|..p + |a| + |b|] == b
  {
    assert s[p..p + |a|] == s[p..p + |a| + |b|][..|a|];
    assert s[p + |a|..p + |a| + |b|] == s[p..p + |a| + |b|][|a|..];
  }

  /** Encoder and decoder in step, with the decoder positioned at the encoder's ops
      for the remaining pixels `pxs`. */
  predicate Matched(bytes: seq<uint8>, es: EncState, ds: DecState, pxs: seq<Pixel>) {
    es.Valid() && ds.Valid(bytes) && InSync(es, ds) && StreamAt(bytes, ds.p, EncodeFrom(es, pxs))
  }

  /** From matching states, the decoder turns the encoder's ops for `pxs` back
      into `pxs`. */
  lemma {:induction false} RoundTripFrom(bytes: seq<uint8>, es: EncState, ds: DecState, pxs: seq<Pixel>)
    requires Matched(bytes, es, ds, pxs)
    ensures DecodeFrom(bytes, ds, |pxs|) == Success(pxs)
    decreases |pxs|, 1
  {
    if |pxs| == 0 {
    } else if pxs[0] == es.prev {
      RunThenRest(bytes, es, ds, pxs);
    } else {
      NewPixelThenRest(bytes, es, ds, pxs);
    }
  }

  /** The inductive step for a pixel that repeats the previous one: the run it
      starts is decoded first, then the rest. */
  lemma {:induction false} RunThenRest(bytes: seq<uint8>, es: EncState, ds: DecState, pxs: seq<Pixel>)
    requires Matched(bytes, es, ds, pxs) && |pxs| > 0 && pxs[0] == es.prev
    ensures DecodeFrom(bytes, ds, |pxs|) == Success(pxs)
    decreases |pxs|, 0
  {
    var k, ds2 := RunStep(bytes, es, ds, pxs);
    var rest := pxs[k..];
    assert |rest| == |pxs| - k;
    RoundTripFrom(bytes, es, ds2, rest);
    RepeatIsPrefix(pxs, es.prev, k);
    Rejoin(DecodeFrom(bytes, ds, |pxs|), Repeat(es.prev, k), DecodeFrom(bytes, ds2, |pxs| - k), pxs, k);
  }

  /** The inductive step for a pixel that differs from the previous one: its op
      is decoded first, then the rest. */
  lemma {:induction false} NewPixelThenRest(bytes: seq<uint8>, es: EncState, ds: DecState, pxs: seq<Pixel>)
    requires Matched(bytes, es, ds, pxs) && |pxs| > 0 && pxs[0] != es.prev
    ensures DecodeFrom(bytes, ds, |pxs|) == Success(pxs)
    decreases |pxs|, 0
  {
    var es1, ds1 := NewPixelStep(bytes, es, ds, pxs);
    var rest := pxs[1..];
    assert |rest| == |pxs| - 1;
    RoundTripFrom(bytes, es1, ds1, rest);
    assert [pxs[0]] == pxs[..1];
    Rejoin(DecodeFrom(bytes, ds, |pxs|), [pxs[0]], DecodeFrom(bytes, ds1, |pxs| - 1), pxs, 1);
  }

  /** A decoded prefix followed by the decoded rest is the whole. */
  lemma {:induction false} Rejoin(r: Result<seq<Pixel>, DecodeError>, head: seq<Pixel>, tail: Result<seq<Pixel>, DecodeError>,
               pxs: seq<Pixel>, k: nat)
    requires k <= |pxs| && r == Prepend(head, tail) && head == pxs[..k] && tail == Success(pxs[k..])
    ensures r == Success(pxs)
  {
    assert pxs[..k] + pxs[k..] == pxs;
  }

  /** `k` copies of `px` are the first `k` pixels, when those all equal `px`. */
  lemma {:induction false} RepeatIsPrefix(pxs: seq<Pixel>, px: Pixel, k: nat)
    requires k <= |pxs| && forall i :: 0 <= i < k ==> pxs[i] == px
    ensures Repeat(px, k) == pxs[..k]
  {
  }

  /** A pixel that differs from the previous one: the encoder writes one op (no
      run is pending), the decoder reads it back to the same pixel, and the two
      end up in matching states again. */
  lemma {:induction false} NewPixelStep(bytes: seq<uint8>, es: EncState, ds: DecState, pxs: seq<Pixel>)
    returns (es1: EncState, ds1: DecState)
    requires Matched(bytes, es, ds, pxs) && |pxs| > 0 && pxs[0] != es.prev
    ensures Matched(bytes, es1, ds1, pxs[1..])
    ensures DecodeFrom(bytes, ds, |pxs|) == Prepend([pxs[0]], DecodeFrom(bytes, ds1, |pxs| - 1))
  {
    var px := pxs[0];
    var op, rest;
    es1, op, rest := NewPixelOps(es, pxs);
    ReadFirstOp(bytes, ds.p, op, rest);
    DecodedPixel(op, px, es, ds);
    ds1 := DecodeNewPixel(bytes, ds, op);
    DecodeFromStep(bytes, ds, ds1, |pxs|);
    assert ds1.px == px && ds1.p == ds.p + |OpBytes(op)|;
    AgreeAfterNew(es.cache, es1.cache, ds.cache, px);
    assert InSync(es1, ds1);
    MatchedIntro(bytes, es1, ds1, pxs[1..], rest);
  }

  /** The parts of `Matched`, with the encoder's ops named. */
  lemma {:induction false} MatchedIntro(bytes: seq<uint8>, es: EncState, ds: DecState, pxs: seq<Pixel>, ops: seq<Op>)
    requires es.Valid() && ds.Valid(bytes) && InSync(es, ds)
    requires ops == EncodeFrom(es, pxs) && StreamAt(bytes, ds.p, ops)
    ensures Matched(bytes, es, ds, pxs)
  {
  }

  /** With no run pending, a pixel that differs from the previous one is written
      as one non-run op, after which the encoder holds it as previous pixel and in
      its cache slot. */
  lemma {:induction false} NewPixelOps(es: EncState, pxs: seq<Pixel>) returns (es1: EncState, op: Op, rest: seq<Op>)
    requires es.Valid() && es.run == 0 && |pxs| > 0 && pxs[0] != es.prev
    ensures es1.Valid() && es1.run == 0 && es1.prev == pxs[0]
    ensures rest == EncodeFrom(es1, pxs[1..]) && EncodeFrom(es, pxs) == [op] + rest
    ensures !op.Run? && Apply(op, es.prev, es.cache) == pxs[0]
    ensures op.Index? ==> op.slot == Hash(pxs[0]) && es.cache[Hash(pxs[0])] == pxs[0]
    ensures es1.cache == es.cache || es1.cache == es.cache[Hash(pxs[0]) := pxs[0]]
    ensures es1.cache[Hash(pxs[0])] == pxs[0]
  {
    var step := EncodeStep(es, pxs[0], |pxs| == 1);
    es1 := step.0;
    op := step.1[0];
    rest := EncodeFrom(es1, pxs[1..]);
    EncodeFromStep(es, pxs);
    DifferingStep(es, pxs[0], |pxs| == 1);
    StepCache(es, pxs[0], |pxs| == 1);
    NewPixelOp(es, pxs[0], |pxs| == 1);
    assert step.1 == [op];
  }

  /** The decoder reading a non-run op: the pixel it gives, written into its
      slot, with the read position past the op. */
  lemma {:induction false} DecodeNewPixel(bytes: seq<uint8>, ds: DecState, op: Op) returns (ds1: DecState)
    requires ds.Valid(bytes) && ds.run == 0 && !op.Run?
    requires ds.p < |bytes| - PaddingSize && ds.p + OpSize(bytes[ds.p]) <= |bytes|
    requires ParseOp(bytes, ds.p) == op
    ensures ds1.px == Apply(op, ds.px, ds.cache) && ds1.run == 0
    ensures ds1.cache == ds.cache[Hash(ds1.px) := ds1.px] && ds1.p == ds.p + OpSize(bytes[ds.p])
    ensures DecodeStep(bytes, ds) == Success(ds1)
  {
    var px := Apply(op, ds.px, ds.cache);
    ds1 := DecState(px, 0, ds.cache[Hash(px) := px], ds.p + OpSize(bytes[ds.p]));
  }

  /** The decoder, in step with the encoder, turns the op written for a new pixel
      back into that pixel. */
  lemma {:induction false} DecodedPixel(op: Op, px: Pixel, es: EncState, ds: DecState)
    requires InSync(es, ds) && !op.Run?
    requires Apply(op, es.prev, es.cache) == px
    requires op.Index? ==> op.slot == Hash(px) && es.cache[Hash(px)] == px
    ensures Apply(op, ds.px, ds.cache) == px
  {
    if !op.Index? {
      OpReadsCacheOnlyForIndex(op, es.prev, es.cache, ds.cache);
    }
  }

  /** After a new pixel both caches hold it in its slot and still agree elsewhere. */
  lemma {:induction false} AgreeAfterNew(enc: Cache, enc1: Cache, dec: Cache, px: Pixel)
    requires Agree(enc, dec)
    requires enc1 == enc || enc1 == enc[Hash(px) := px]
    requires enc1[Hash(px)] == px
    ensures Agree(enc1, dec[Hash(px) := px]) && PrevCached(enc1, px)
  {
  }

  /** The decoder writing the previous pixel back into its slot keeps agreement. */
  lemma {:induction false} AgreeAfterRepeat(enc: Cache, dec: Cache, px: Pixel)
    requires Agree(enc, dec) && PrevCached(enc, px)
    ensures Agree(enc, dec[Hash(px) := px])
  {
  }

  lemma {:induction false} PrependTwice(a: seq<Pixel>, b: seq<Pixel>, r: Result<seq<Pixel>, DecodeError>)
    ensures Prepend(a, Prepend(b, r)) == Prepend(a + b, r)
  {
    if r.Success? {
      assert a + (b + r.value) == (a + b) + r.value;
    }
  }

  /** Only an index op looks at the cache. */
  lemma {:induction false} OpReadsCacheOnlyForIndex(op: Op, px: Pixel, c1: Cache, c2: Cache)
    requires !op.Index?
    ensures Apply(op, px, c1) == Apply(op, px, c2)
  {
  }

  /** Pixels that repeat the previous one: the encoder writes one run op for up
      to 62 of them, which the decoder reads at the first of them and then
      replays; afterwards the two are in matching states again. */
  lemma {:induction false} RunStep(bytes: seq<uint8>, es: EncState, ds: DecState, pxs: seq<Pixel>)
    returns (k: nat, ds2: DecState)
    requires Matched(bytes, es, ds, pxs) && |pxs| > 0 && pxs[0] == es.prev
    ensures 1 <= k <= |pxs| && forall i :: 0 <= i < k ==> pxs[i] == es.prev
    ensures Matched(bytes, es, ds2, pxs[k..])
    ensures DecodeFrom(bytes, ds, |pxs|) == Prepend(Repeat(es.prev, k), DecodeFrom(bytes, ds2, |pxs| - k))
  {
    var rest;
    k, rest := RunOps(es, pxs);
    ReadFirstOp(bytes, ds.p, Run(k), rest);
    ds2 := DecodeRunOp(bytes, ds, k, |pxs|);
    AgreeAfterRepeat(es.cache, ds.cache, es.prev);
  }

  /** With no run pending, pixels repeating the previous one start with a single
      run op covering as many of them as possible, up to 62. */
  lemma {:induction false} RunOps(es: EncState, pxs: seq<Pixel>) returns (k: RunLength, rest: seq<Op>)
    requires es.Valid() && es.run == 0 && |pxs| > 0 && pxs[0] == es.prev
    ensures k <= |pxs| && forall i :: 0 <= i < k ==> pxs[i] == es.prev
    ensures rest == EncodeFrom(es, pxs[k..])
    ensures EncodeFrom(es, pxs) == [Run(k)] + rest
  {
    k := LeadingRun(pxs, es.prev, 62);
    EncodeRunChunk(es, pxs, k);
    assert es.(run := 0) == es;
    rest := EncodeFrom(es, pxs[k..]);
  }

  /** The decoder reading a run op of `k`: `k` copies of the current pixel, which
      it also writes into its slot, and then the op after the run op. */
  lemma {:induction false} DecodeRunOp(bytes: seq<uint8>, ds: DecState, k: RunLength, count: nat) returns (ds2: DecState)
    requires ds.Valid(bytes) && ds.run == 0 && k <= count
    requires ds.p < |bytes| - PaddingSize && ds.p + OpSize(bytes[ds.p]) <= |bytes|
    requires OpSize(bytes[ds.p]) == 1 && ParseOp(bytes, ds.p) == Run(k)
    ensures ds2 == DecState(ds.px, 0, ds.cache[Hash(ds.px) := ds.px], ds.p + 1)
    ensures ds2.Valid(bytes)
    ensures DecodeFrom(bytes, ds, count) == Prepend(Repeat(ds.px, k), DecodeFrom(bytes, ds2, count - k))
  {
    var ds1 := DecState(ds.px, k - 1, ds.cache[Hash(ds.px) := ds.px], ds.p + 1);
    assert DecodeStep(bytes, ds) == Success(ds1);
    DecodeFromStep(bytes, ds, ds1, count);
    DecodeRepeats(bytes, ds1, count - 1);
    ds2 := ds1.(run := 0);
    var tail := DecodeFrom(bytes, ds2, count - k);
    assert Repeat(ds.px, k) == [ds.px] + Repeat(ds.px, k - 1);
    PrependTwice([ds.px], Repeat(ds.px, k - 1), tail);
  }

  /** Round trip: for a valid description and a buffer of exactly width times
      height times channels bytes, `Decode(Encode(buffer, d))` gives back the
      buffer and the description. */
  lemma {:induction false} RoundTrip(buffer: seq<uint8>, d: Description)
    requires Valid(d) && |buffer| == PixelCount(d) * d.channels
    ensures Encode(buffer, d).Some?
    ensures Decode(Encode(buffer, d).value.0) == Success((buffer, d))
  {
    var bytes, pxs, ops := EncodedStream(buffer, d);
    DecodeStream(d, bytes, pxs, ops);
    WriteReadPixels(buffer, d.channels as int);
    assert Encode(buffer, d).value.0 == bytes;
    assert Decode(bytes) == Success((buffer, d));
  }

  /** What `Encode` writes for a valid description: the header, the ops for the
      buffer's pixels, and the padding byte. */
  lemma {:induction false} EncodedStream(buffer: seq<uint8>, d: Description) returns (bytes: seq<uint8>, pxs: seq<Pixel>, ops: seq<Op>)
    requires Valid(d) && |buffer| == PixelCount(d) * d.channels
    ensures pxs == ReadPixels(buffer, d.channels as int) && |pxs| == PixelCount(d)
    ensures ops == EncodeFrom(EncInit, pxs)
    ensures bytes == EncodeHeader(d) + (Serialize(ops) + Padding[..PaddingSize])
    ensures Encode(buffer, d) == Some((bytes, d))
  {
    var n := PixelCount(d);
    var c := d.channels as int;
    assert buffer[..n * c] == buffer;
    pxs := ReadPixels(buffer, c);
    BufferOfPixels(n, c);
    ops := EncodeFrom(EncInit, pxs);
    bytes := EncodeHeader(d) + (Serialize(ops) + Padding[..PaddingSize]);
    assert EncodeHeader(d) + Serialize(ops) + Padding[..PaddingSize] == bytes;
  }

  /** The decoder reads back the pixels from what the encoder wrote for them. */
  lemma {:induction false} DecodeStream(d: Description, bytes: seq<uint8>, pxs: seq<Pixel>, ops: seq<Op>)
    requires Valid(d) && |pxs| == PixelCount(d) && ops == EncodeFrom(EncInit, pxs)
    requires bytes == EncodeHeader(d) + (Serialize(ops) + Padding[..PaddingSize])
    ensures Decode(bytes) == Success((WritePixels(pxs, d.channels as int), d))
  {
    ParseEncodeHeader(d, Serialize(ops) + Padding[..PaddingSize]);
    InitialMatch(bytes, d, pxs, ops);
    RoundTripFrom(bytes, EncInit, DecInit, pxs);
    DecodeAccepted(bytes, pxs);
  }

  /** Right after the header, encoder and decoder start in step, with the decoder
      positioned at the encoder's ops. */
  lemma {:induction false} InitialMatch(bytes: seq<uint8>, d: Description, pxs: seq<Pixel>, ops: seq<Op>)
    requires ops == EncodeFrom(EncInit, pxs)
    requires bytes == EncodeHeader(d) + (Serialize(ops) + Padding[..PaddingSize])
    ensures Matched(bytes, EncInit, DecInit, pxs)
  {
    InitialInSync();
    var body := Serialize(ops);
    MiddleSlice(EncodeHeader(d), body, Padding[..PaddingSize]);
    SerializedStream(bytes, HeaderSize, ops);
    MatchedIntro(bytes, EncInit, DecInit, pxs, ops);
  }

  /** The middle part of a three-part concatenation, sliced back out. */
  lemma {:induction false} MiddleSlice(a: seq<uint8>, b: seq<uint8>, c: seq<uint8>)
    ensures (a + (b + c))[|a|..|a| + |b|] == b
  {
    assert (a + (b + c))[|a|..] == b + c;
  }

  /** Encoder and decoder start in step: the same pixel and the same cache, in
      which the start pixel's slot holds a pixel that does not hash there. */
  lemma {:induction false} InitialInSync()
    ensures InSync(EncInit, DecInit)
  {
    StartSlot();
  }

  /** The decoder refuses an encoder-written header exactly when `Encode` would
      have refused its description. */
  lemma {:induction false} DecodeRejectsLikeEncode(d: Description, rest: seq<uint8>)
    requires |rest| >= PaddingSize
    ensures Decode(EncodeHeader(d) + rest) == Failure(Rejected) <==> !Valid(d)
  {
    ParseEncodeHeader(d, rest);
  }
}
