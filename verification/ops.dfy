/** The operations of the QOI byte stream: their tags, their byte form, how the
    decoder reads them, and what each one does to the current pixel. */
module Ops {
  import opened Bytes
  import opened Pixels

  const OpIndex: uint8 := 0x00  // 00xxxxxx
  const OpDiff: uint8 := 0x40   // 01xxxxxx
  const OpLuma: uint8 := 0x80   // 10xxxxxx
  const OpRun: uint8 := 0xc0    // 11xxxxxx
  const OpRgb: uint8 := 0xfe    // 11111110
  const OpRgba: uint8 := 0xff   // 11111111

  /** A channel delta of a small-diff op. */
  type Delta2 = d: int | -2 <= d <= 1
  /** A red or blue delta relative to the green delta, in a luma op. */
  type Delta4 = d: int | -8 <= d <= 7
  /** The green delta of a luma op. */
  type Delta6 = d: int | -32 <= d <= 31
  /** The number of pixels one run op stands for. */
  type RunLength = n: int | 1 <= n <= 62 witness 1

  datatype Op =
    | Index(slot: Slot)
    | Diff(dr: Delta2, dg: Delta2, db: Delta2)
    | Luma(green: Delta6, redMinusGreen: Delta4, blueMinusGreen: Delta4)
    | Rgb(r: uint8, g: uint8, b: uint8)
    | Rgba(r: uint8, g: uint8, b: uint8, a: uint8)
    | Run(length: RunLength)

  /** How many bytes the op whose first byte is `tag` occupies. */
  function OpSize(tag: uint8): (n: nat)
    ensures 1 <= n <= 5
  {
    if tag == OpRgb then 4
    else if tag == OpRgba then 5
    else if tag / 64 == OpLuma / 64 then 2
    else 1
  }

  /** The bytes the encoder writes for an op. The C# `|` of bit fields that do not
      overlap is written here as `+`. */
  function OpBytes(op: Op): (r: seq<uint8>)
    ensures |r| >= 1 && |r| == OpSize(r[0])
  {
    match op
    case Index(i) => [OpIndex + i]
    case Diff(dr, dg, db) => [OpDiff + (dr + 2) * 16 + (dg + 2) * 4 + (db + 2)]
    case Luma(vg, vgr, vgb) => [OpLuma + (vg + 32), (vgr + 8) * 16 + (vgb + 8)]
    case Rgb(r, g, b) => [OpRgb, r, g, b]
    case Rgba(r, g, b, a) => [OpRgba, r, g, b, a]
    case Run(n) => [OpRun + (n - 1)]
  }

  /** The first byte of an op tells its kind: the two literal tags stand for
      themselves, and every other op has its kind in the top two bits; in
      particular a run byte lies in 0xc0..0xfd and never collides with the
      literal tags, and an index byte is the slot number itself. */
  lemma {:induction false} OpTag(op: Op)
    ensures var t := OpBytes(op)[0];
      && (op.Rgb? <==> t == OpRgb)
      && (op.Rgba? <==> t == OpRgba)
      && (op.Index? <==> t / 64 == OpIndex / 64)
      && (op.Diff? <==> t / 64 == OpDiff / 64)
      && (op.Luma? <==> t / 64 == OpLuma / 64)
      && (op.Run? <==> OpRun <= t <= 0xfd)
      && (op.Index? ==> t == op.slot)
  {
  }

  /** The bytes of a whole op sequence, in order. */
  function Serialize(ops: seq<Op>): (r: seq<uint8>)
    ensures |ops| == 0 ==> r == []
  {
    if |ops| == 0 then [] else OpBytes(ops[0]) + Serialize(ops[1..])
  }

  lemma {:induction false} SerializeAppend(a: seq<Op>, b: seq<Op>)
    ensures Serialize(a + b) == Serialize(a) + Serialize(b)
  {
    if |a| > 0 {
      assert (a + b)[0] == a[0];
      assert (a + b)[1..] == a[1..] + b;
      SerializeAppend(a[1..], b);
    } else {
      assert a + b == b;
    }
  }

  /** The number of pixels an op stands for: a run op its length, any other op one. */
  function Span(op: Op): (n: nat)
    ensures 1 <= n <= 62
  {
    if op.Run? then op.length else 1
  }

  /** The number of pixels a sequence of ops stands for. */
  function Covered(ops: seq<Op>): (n: nat) {
    if |ops| == 0 then 0 else Span(ops[0]) + Covered(ops[1..])
  }

  lemma {:induction false} CoveredAppend(a: seq<Op>, b: seq<Op>)
    ensures Covered(a + b) == Covered(a) + Covered(b)
  {
    if |a| > 0 {
      assert (a + b)[0] == a[0];
      assert (a + b)[1..] == a[1..] + b;
      CoveredAppend(a[1..], b);
    } else {
      assert a + b == b;
    }
  }

  /** The op the decoder reads at `p`, dispatching on the tag byte: the two
      literal tags first, then the top two bits. The C# `b1 & 0xc0`, `b1 & 0x3f`,
      `(b >> k) & m` are written as division and remainder by powers of two.
      `ParseOpExact` shows every byte pattern reads as the op whose byte form is
      exactly the bytes read. */
  function ParseOp(bytes: seq<uint8>, p: int): (op: Op)
    requires 0 <= p < |bytes| && p + OpSize(bytes[p]) <= |bytes|
  {
    var b1 := bytes[p] as int;
    if b1 == OpRgb then Rgb(bytes[p + 1], bytes[p + 2], bytes[p + 3])
    else if b1 == OpRgba then Rgba(bytes[p + 1], bytes[p + 2], bytes[p + 3], bytes[p + 4])
    else if b1 / 64 == OpLuma / 64 then
      var b2 := bytes[p + 1] as int;
      Luma(b1 % 64 - 32, b2 / 16 - 8, b2 % 16 - 8)
    else ShortOp(b1)
  }

  /** Every byte pattern reads as some op, and that op's byte form is exactly the
      bytes read. */
  lemma {:induction false} ParseOpExact(bytes: seq<uint8>, p: int)
    requires 0 <= p < |bytes| && p + OpSize(bytes[p]) <= |bytes|
    ensures OpBytes(ParseOp(bytes, p)) == bytes[p..p + OpSize(bytes[p])]
  {
    var b1 := bytes[p] as int;
    if b1 == OpRgb {
      assert bytes[p..p + 4] == [bytes[p], bytes[p + 1], bytes[p + 2], bytes[p + 3]];
    } else if b1 == OpRgba {
      assert bytes[p..p + 5] == [bytes[p], bytes[p + 1], bytes[p + 2], bytes[p + 3], bytes[p + 4]];
    } else if b1 / 64 == OpLuma / 64 {
      LumaBytes(b1, bytes[p + 1]);
      assert bytes[p..p + 2] == [bytes[p], bytes[p + 1]];
    } else {
      assert bytes[p..p + 1] == [bytes[p]];
    }
  }

  /** The one-byte op whose byte is `b1` (any byte that is neither a literal tag
      nor a luma op's first byte). */
  function ShortOp(b1: uint8): (op: Op)
    requires b1 != OpRgb && b1 != OpRgba && b1 / 64 != OpLuma / 64
    ensures OpBytes(op) == [b1]
  {
    if b1 / 64 == OpIndex / 64 then Index(b1)
    else if b1 / 64 == OpDiff / 64 then Diff(b1 / 16 % 4 - 2, b1 / 4 % 4 - 2, b1 % 4 - 2)
    else Run(b1 % 64 + 1)
  }

  lemma {:induction false} LumaBytes(b1: uint8, b2: uint8)
    requires b1 / 64 == OpLuma / 64
    ensures OpBytes(Luma(b1 % 64 - 32, b2 / 16 - 8, b2 % 16 - 8)) == [b1, b2]
  {
  }

  /** The byte form of an op determines the op. */
  lemma {:induction false} OpBytesInjective(x: Op, y: Op)
    requires OpBytes(x) == OpBytes(y)
    ensures x == y
  {
    var ex, ey := OpBytes(x), OpBytes(y);
    assert ex[0] == ey[0];
    OpTag(x);
    OpTag(y);
    if x.Diff? {
      assert y.Diff?;
      DiffFields(x, y);
    } else if x.Luma? {
      assert y.Luma?;
      assert ex[1] == ey[1];
      LumaFields(x, y);
    } else if x.Index? {
      assert y.Index?;
    } else if x.Run? {
      assert y.Run?;
    } else if x.Rgb? {
      assert y.Rgb? && ex[1..] == ey[1..];
    } else {
      assert y.Rgba? && ex[1..] == ey[1..];
    }
  }

  lemma {:induction false} DiffFields(x: Op, y: Op)
    requires x.Diff? && y.Diff?
    requires OpBytes(x)[0] == OpBytes(y)[0]
    ensures x == y
  {
    var fx := (x.dr + 2) * 16 + (x.dg + 2) * 4 + (x.db + 2);
    var fy := (y.dr + 2) * 16 + (y.dg + 2) * 4 + (y.db + 2);
    assert fx == fy;
    assert fx / 16 == x.dr + 2 && fx % 16 / 4 == x.dg + 2 && fx % 4 == x.db + 2;
    assert fy / 16 == y.dr + 2 && fy % 16 / 4 == y.dg + 2 && fy % 4 == y.db + 2;
  }

  lemma {:induction false} LumaFields(x: Op, y: Op)
    requires x.Luma? && y.Luma?
    requires OpBytes(x) == OpBytes(y)
    ensures x == y
  {
    assert OpBytes(x)[0] == OpBytes(y)[0] && OpBytes(x)[1] == OpBytes(y)[1];
    var fx := (x.redMinusGreen + 8) * 16 + (x.blueMinusGreen + 8);
    var fy := (y.redMinusGreen + 8) * 16 + (y.blueMinusGreen + 8);
    assert fx / 16 == x.redMinusGreen + 8 && fx % 16 == x.blueMinusGreen + 8;
    assert fy / 16 == y.redMinusGreen + 8 && fy % 16 == y.blueMinusGreen + 8;
  }

  /** Where the bytes at `p` are the byte form of `op`, the decoder reads `op`
      and consumes exactly its bytes. */
  lemma {:induction false} ParseOpBytes(bytes: seq<uint8>, p: int, op: Op)
    requires 0 <= p && p + |OpBytes(op)| <= |bytes| && bytes[p..p + |OpBytes(op)|] == OpBytes(op)
    ensures OpSize(bytes[p]) == |OpBytes(op)|
    ensures ParseOp(bytes, p) == op
  {
    assert bytes[p] == OpBytes(op)[0];
    ParseOpExact(bytes, p);
    OpBytesInjective(ParseOp(bytes, p), op);
  }

  /** What an op does to the current pixel `px`, given the cache: index ops read
      a slot, the two diff ops add wrapped deltas, literals replace channels, and
      a run op keeps the pixel. */
  function Apply(op: Op, px: Pixel, cache: Cache): (r: Pixel)
    ensures op.Index? ==> r == cache[op.slot]
    ensures !op.Index? && !op.Rgba? ==> r.a == px.a
    ensures op.Run? ==> r == px
    ensures op.Rgb? || op.Rgba? ==> r.r == op.r && r.g == op.g && r.b == op.b
  {
    match op
    case Index(i) => cache[i]
    case Diff(dr, dg, db) => Pixel(AddWrap(px.r, dr), AddWrap(px.g, dg), AddWrap(px.b, db), px.a)
    case Luma(vg, vgr, vgb) =>
      Pixel(AddWrap(px.r, vg + vgr), AddWrap(px.g, vg), AddWrap(px.b, vg + vgb), px.a)
    case Rgb(r, g, b) => Pixel(r, g, b, px.a)
    case Rgba(r, g, b, a) => Pixel(r, g, b, a)
    case Run(_) => px
  }
}
