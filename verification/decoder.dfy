/** The QOI decoder: parses and checks the header, then interprets the op stream
    one pixel at a time, with its own copy of the colour cache and run counter. */
module Decoder {
  import opened Outcomes
  import opened Bytes
  import opened Pixels
  import opened Header
  import opened Ops

  /** Why decoding produced no image: the header was refused (the C# code returns
      `null`), or an op ran past the end of the input (the C# code throws
      `IndexOutOfRangeException`). */
  datatype DecodeError = Rejected | Truncated

  /** What the decoder carries from one pixel to the next: the current pixel, the
      remaining repeats of a run, the cache, and the read position. */
  datatype DecState = DecState(px: Pixel, run: int, cache: Cache, p: int) {
    predicate Valid(bytes: seq<uint8>) {
      run >= 0 && 0 <= p <= |bytes|
    }
  }

  /** Current pixel opaque black, no run, all-zero cache, reading just past the header. */
  const DecInit: DecState := DecState(Start, 0, InitialCache, HeaderSize)

  /** One iteration of the decoder's pixel loop, up to the pixel it stores. A
      pending run repeats the pixel; otherwise, while the read position is before
      the padding byte, one op is read and applied and the resulting pixel is
      written to its cache slot (after every op, index and run included); once the
      ops are used up the pixel simply repeats. Reading an op that extends past the
      end of the input fails. */
  function DecodeStep(bytes: seq<uint8>, s: DecState): (r: Result<DecState, DecodeError>)
    requires s.Valid(bytes)
    ensures r.Success? ==> r.value.Valid(bytes) && s.p <= r.value.p
    ensures r.Failure? ==> r.error == Truncated
  {
    if s.run > 0 then Success(s.(run := s.run - 1))
    else if s.p < |bytes| - PaddingSize then
      if s.p + OpSize(bytes[s.p]) > |bytes| then Failure(Truncated)
      else
        var op := ParseOp(bytes, s.p);
        var px := Apply(op, s.px, s.cache);
        var run := if op.Run? then op.length - 1 else 0;
        Success(DecState(px, run, s.cache[Hash(px) := px], s.p + OpSize(bytes[s.p])))
    else Success(s)
  }

  /** Nothing is read while a run is pending or once the ops are used up, and the
      pixel repeats. */
  lemma {:induction false} StepWithoutRead(bytes: seq<uint8>, s: DecState)
    requires s.Valid(bytes) && (s.run > 0 || s.p >= |bytes| - PaddingSize)
    ensures var r := DecodeStep(bytes, s);
      r.Success? && r.value.p == s.p && r.value.px == s.px && r.value.cache == s.cache
  {
  }

  /** A step fails exactly for an op starting before the padding byte that needs
      more bytes than remain. */
  lemma {:induction false} StepFailure(bytes: seq<uint8>, s: DecState)
    requires s.Valid(bytes)
    ensures DecodeStep(bytes, s).Failure? <==>
      s.run == 0 && s.p < |bytes| - PaddingSize && s.p + OpSize(bytes[s.p]) > |bytes|
  {
  }

  /** Reading an op consumes exactly that op's byte form, and whatever the op
      (index and run included) the cache then holds the new pixel in its own
      slot and is unchanged in every other slot. */
  lemma {:induction false} StepReadsOp(bytes: seq<uint8>, s: DecState)
    requires s.Valid(bytes) && s.run == 0 && s.p < |bytes| - PaddingSize && s.p + OpSize(bytes[s.p]) <= |bytes|
    ensures var r := DecodeStep(bytes, s);
      var op := ParseOp(bytes, s.p);
      && r.Success?
      && s.p < r.value.p && bytes[s.p..r.value.p] == OpBytes(op)
      && r.value.px == Apply(op, s.px, s.cache)
      && r.value.cache[Hash(r.value.px)] == r.value.px
      && forall i :: 0 <= i < 64 && i != Hash(r.value.px) ==> r.value.cache[i] == s.cache[i]
  {
    ParseOpExact(bytes, s.p);
  }

  /** The next `count` pixels, or the failure of the first step that fails. */
  function DecodeFrom(bytes: seq<uint8>, s: DecState, count: nat): (r: Result<seq<Pixel>, DecodeError>)
    requires s.Valid(bytes)
    ensures r.Success? ==> |r.value| == count
    ensures r.Failure? ==> r.error == Truncated
    decreases count
  {
    if count == 0 then Success([])
    else
      match DecodeStep(bytes, s)
      case Failure(e) => Failure(e)
      case Success(s1) =>
        match DecodeFrom(bytes, s1, count - 1)
        case Failure(e) => Failure(e)
        case Success(rest) => Success([s1.px] + rest)
  }

  /** Whether the 14 header bytes are accepted: the magic value matches and the
      description passes the checks `Encode` also applies. */
  predicate Accepted(header: (uint32, Description)) {
    header.0 == Magic && Valid(header.1)
  }

  /** `Decode`: refuses input shorter than header plus padding or whose header is
      not accepted, before decoding any pixel; otherwise decodes width times
      height pixels and returns their bytes with the description. */
  function Decode(bytes: seq<uint8>): (r: Result<(seq<uint8>, Description), DecodeError>)
    ensures r == Failure(Rejected) <==> |bytes| < HeaderSize + PaddingSize || !Accepted(ParseHeader(bytes))
    ensures r.Success? ==> r.value.1 == ParseHeader(bytes).1 && Valid(r.value.1)
    ensures r.Success? ==> |r.value.0| == PixelCount(r.value.1) * r.value.1.channels
  {
    if |bytes| < HeaderSize + PaddingSize then Failure(Rejected)
    else
      var header := ParseHeader(bytes);
      if !Accepted(header) then Failure(Rejected)
      else
        var d := header.1;
        match DecodeFrom(bytes, DecInit, PixelCount(d))
        case Failure(e) => Failure(e)
        case Success(pxs) => Success((WritePixels(pxs, d.channels), d))
  }

  /** Once the header is accepted and the pixels decode, `Decode` returns their
      bytes with the description. */
  lemma {:induction false} DecodeAccepted(bytes: seq<uint8>, pxs: seq<Pixel>)
    requires |bytes| >= HeaderSize + PaddingSize && Accepted(ParseHeader(bytes))
    requires DecodeFrom(bytes, DecInit, PixelCount(ParseHeader(bytes).1)) == Success(pxs)
    ensures Decode(bytes) == Success((WritePixels(pxs, ParseHeader(bytes).1.channels as int), ParseHeader(bytes).1))
  {
  }

  /** `pxs` followed by the successful result, if any. */
  function Prepend(pxs: seq<Pixel>, r: Result<seq<Pixel>, DecodeError>): (r': Result<seq<Pixel>, DecodeError>) {
    match r
    case Failure(e) => Failure(e)
    case Success(v) => Success(pxs + v)
  }

  /** Decoding `count` pixels is one successful step, its pixel, then the rest. */
  lemma {:induction false} DecodeFromStep(bytes: seq<uint8>, s: DecState, s1: DecState, count: nat)
    requires s.Valid(bytes) && count > 0 && DecodeStep(bytes, s) == Success(s1)
    ensures s1.Valid(bytes)
    ensures DecodeFrom(bytes, s, count) == Prepend([s1.px], DecodeFrom(bytes, s1, count - 1))
  {
  }

  /** A pending run of `s.run` repeats emits the current pixel that many times
      without reading, then decoding carries on as if no run were pending. */
  lemma {:induction false} DecodeRepeats(bytes: seq<uint8>, s: DecState, count: nat)
    requires s.Valid(bytes) && s.run <= count
    ensures DecodeFrom(bytes, s, count) == Prepend(Repeat(s.px, s.run), DecodeFrom(bytes, s.(run := 0), count - s.run))
    decreases s.run
  {
    if s.run > 0 {
      var s1 := s.(run := s.run - 1);
      assert DecodeStep(bytes, s) == Success(s1);
      DecodeFromStep(bytes, s, s1, count);
      DecodeRepeats(bytes, s1, count - 1);
      assert s1.(run := 0) == s.(run := 0);
      assert Repeat(s.px, s.run) == [s.px] + Repeat(s.px, s1.run);
      var tail := DecodeFrom(bytes, s.(run := 0), count - s.run);
      assert DecodeFrom(bytes, s1, count - 1) == Prepend(Repeat(s.px, s1.run), tail);
      if tail.Success? {
        assert [s.px] + (Repeat(s.px, s1.run) + tail.value) == Repeat(s.px, s.run) + tail.value;
      }
    } else {
      assert s.(run := 0) == s;
      var all := DecodeFrom(bytes, s, count);
      if all.Success? {
        assert Repeat(s.px, 0) + all.value == all.value;
      }
    }
  }

  /** Once the ops are used up (the read position has reached the padding byte),
      every remaining pixel repeats the current one. */
  lemma {:induction false} DecodeExhausted(bytes: seq<uint8>, s: DecState, count: nat)
    requires s.Valid(bytes) && s.run == 0 && s.p >= |bytes| - PaddingSize
    ensures DecodeFrom(bytes, s, count) == Success(Repeat(s.px, count))
    decreases count
  {
    if count > 0 {
      assert DecodeStep(bytes, s) == Success(s);
      DecodeExhausted(bytes, s, count - 1);
      assert Repeat(s.px, count) == [s.px] + Repeat(s.px, count - 1);
    }
  }
}
