/** What an encoded icon looks like once the loader has drawn it. */
module IconTheorems {
  import opened Bits
  import opened Lzw
  import opened Sequences
  import opened IconStreams
  import opened Devices
  import opened IconBlits
  import opened GifFormat
  import opened IconLoaders

  lemma {:induction false} EmittedThen(m: MinCode, table: seq<Str>, ops: seq<Op>, p: Str, tail: seq<bool>, more: seq<bool>)
    requires table != [] && Encodes(m, table, ops, p)
    ensures Emitted(m, table, ops, p, tail) + more == Emitted(m, table, ops, p, tail + more)
    decreases |ops|
  {
    if ops != [] {
      match ops[0]
      case ClearTable =>
        EmittedThen(m, Base(m), ops[1..], p, tail, more);
      case Emit(c) =>
        var rest := p[|table[c]|..];
        EmittedThen(m, Add(table, table[c], rest), ops[1..], rest, tail, more);
    }
  }

  // Packed into bytes and cut into sub-blocks anyhow, what an encoder sends decodes to the pixels.
  lemma EncodedDataDecodes(m: MinCode, ops: seq<Op>, p: Str, tail: seq<bool>, blocks: seq<seq<byte>>, after: seq<byte>)
    requires Encodes(m, Base(m), ops, p) && SubBlocks(blocks)
    requires Joined(blocks) == Pack(Emitted(m, Base(m), ops, p, tail))
    ensures Decode(m, Start(m), BitsOf(Payload(Framed(blocks, after))), |p|) == Pixels(p)
  {
    PayloadOfFramed(blocks, after);
    var sent := Emitted(m, Base(m), ops, p, tail);
    PackKeepsBits(sent);
    var bits := BitsOf(Pack(sent));
    var more := bits[|sent|..];
    EmittedThen(m, Base(m), ops, p, tail, more);
    assert bits == sent + more;
    ClearBounds(m);
    RoundTrip(m, Base(m), Start(m), ops, p, tail + more);
  }

  ghost predicate Encoded(v: Envelope, m: MinCode, ops: seq<Op>, p: Str, tail: seq<bool>, blocks: seq<seq<byte>>)
  {
    && GoodEnvelope(v) && v.w > 0 && v.h > 0 && v.w * v.h == |p| <= MAX_PIXELS
    && Encodes(m, Base(m), ops, p) && SubBlocks(blocks)
    && Joined(blocks) == Pack(Emitted(m, Base(m), ops, p, tail))
  }

  // The loader accepts the file of every encoder, and its pixel buffer then starts with the pixels.
  lemma EncodedFileIsDrawable(v: Envelope, m: MinCode, ops: seq<Op>, p: Str, tail: seq<bool>,
                              blocks: seq<seq<byte>>, after: seq<byte>, rawBefore: seq<byte>)
    requires Encoded(v, m, ops, p, tail, blocks) && |rawBefore| == MAX_PIXELS
    ensures var f := Parse(FileBytes(v, m, Framed(blocks, after)));
            && f.Image? && Drawable(f)
            && f.icon == Icon(v.w, v.h, Palette(TableOf(v)), TransOf(v.exts, -1))
            && RawAfter(f, rawBefore) == p + rawBefore[|p|..]
  {
    ParseOfFile(v, m, Framed(blocks, after));
    EncodedDataDecodes(m, ops, p, tail, blocks, after);
  }

  // What the greedy encoder of Appendix F sends for p, clear codes anywhere, and then the tail.
  ghost function GreedyBits(m: MinCode, p: Str, clears: nat -> nat, tail: seq<bool>): seq<bool>
    requires Colours(m, p)
  {
    var ops := Greedy(m, Base(m), p, clears, clears(|p|));
    GreedyEncodes(m, Base(m), p, clears, clears(|p|));
    Emitted(m, Base(m), ops, p, tail)
  }

  lemma GreedyFileIsEncoded(v: Envelope, m: MinCode, p: Str, clears: nat -> nat, tail: seq<bool>, blocks: seq<seq<byte>>)
    requires GoodEnvelope(v) && v.w > 0 && v.h > 0 && v.w * v.h == |p| <= MAX_PIXELS
    requires Colours(m, p) && SubBlocks(blocks) && Joined(blocks) == Pack(GreedyBits(m, p, clears, tail))
    ensures Encoded(v, m, Greedy(m, Base(m), p, clears, clears(|p|)), p, tail, blocks)
  {
    GreedyEncodes(m, Base(m), p, clears, clears(|p|));
  }

  // Drawn at any size, each target pixel inside the clip has the palette colour of the pixel it
  // samples, and every other device pixel, and every transparent one, is untouched.
  lemma EncodedIconIsSampled(v: Envelope, m: MinCode, ops: seq<Op>, p: Str, tail: seq<bool>,
                             blocks: seq<seq<byte>>, after: seq<byte>,
                             dev: Device, before: seq<Colour>, raw: seq<byte>, rawBefore: seq<byte>,
                             dx: int, dy: int, tw: int, th: int, px: int, py: int)
    requires Encoded(v, m, ops, p, tail, blocks)
    requires Shows(dev, before, Parse(FileBytes(v, m, Framed(blocks, after))), raw, rawBefore, dx, dy, tw, th)
    requires dev.Inside(px, py)
    ensures var rw, rh := RenderSize(tw, v.w), RenderSize(th, v.h);
            var x, y := px - dx, py - dy;
            if InRect(dev.clip, px, py) && 0 <= x < rw && 0 <= y < rh then
              var k := Cell(v.w, Sample(x, v.w, rw), Sample(y, v.h, rh));
              k < |p| &&
              dev.At(px, py) == if p[k] == TransOf(v.exts, -1) then dev.Of(before, px, py)
                                else Opaque(Entry(TableOf(v), p[k]))
            else dev.At(px, py) == dev.Of(before, px, py)
  {
    hide Encodes, Emitted, Framed, Joined, Parse, Drawable, FileBytes, RawAfter, GoodEnvelope, RenderSize;
    EncodedFileIsDrawable(v, m, ops, p, tail, blocks, after, rawBefore);
    var rw, rh := RenderSize(tw, v.w), RenderSize(th, v.h);
    var x, y := px - dx, py - dy;
    if 0 <= x < rw && 0 <= y < rh {
      CellInRange(v.w, v.h, Sample(x, v.w, rw), Sample(y, v.h, rh));
    }
  }

  // The side an icon is drawn at: the one asked for, or its own when none is, but no more than 64.
  predicate DrawnSide(target: int, own: nat, side: nat)
  {
    && (1 <= target <= 64 ==> side == target)
    && (target > 64 ==> side == 64)
    && (target <= 0 && own <= 64 ==> side == own)
    && (target <= 0 && own > 64 ==> side == 64)
  }

  // Drawn in a box of rw by rh, each pixel of the box inside the clip shows the pixel of the icon
  // in the same proportion, unless that is transparent; and everything else is as before.
  lemma EncodedIconAtSize(v: Envelope, m: MinCode, ops: seq<Op>, p: Str, tail: seq<bool>,
                          blocks: seq<seq<byte>>, after: seq<byte>,
                          dev: Device, before: seq<Colour>, raw: seq<byte>, rawBefore: seq<byte>,
                          dx: int, dy: int, tw: int, th: int, rw: nat, rh: nat, px: int, py: int)
    requires Encoded(v, m, ops, p, tail, blocks) && DrawnSide(tw, v.w, rw) && DrawnSide(th, v.h, rh)
    requires Shows(dev, before, Parse(FileBytes(v, m, Framed(blocks, after))), raw, rawBefore, dx, dy, tw, th)
    requires dev.Inside(px, py)
    ensures var x, y := px - dx, py - dy;
            if dev.clip.left <= px < dev.clip.right && dev.clip.top <= py < dev.clip.bottom && 0 <= x < rw && 0 <= y < rh then
              var k := Cell(v.w, Sample(x, v.w, rw), Sample(y, v.h, rh));
              k < |p| &&
              dev.At(px, py) == if p[k] == TransOf(v.exts, -1) then dev.Of(before, px, py)
                                else Opaque(Entry(TableOf(v), p[k]))
            else dev.At(px, py) == dev.Of(before, px, py)
  {
    hide Encoded, Framed, Parse, FileBytes, Shows;
    EncodedIconIsSampled(v, m, ops, p, tail, blocks, after, dev, before, raw, rawBefore, dx, dy, tw, th, px, py);
  }

  // At its own size the icon shows its pixels.
  lemma EncodedIconShowsItsPixels(v: Envelope, m: MinCode, ops: seq<Op>, p: Str, tail: seq<bool>,
                                  blocks: seq<seq<byte>>, after: seq<byte>,
                                  dev: Device, before: seq<Colour>, raw: seq<byte>, rawBefore: seq<byte>,
                                  dx: int, dy: int, px: int, py: int)
    requires Encoded(v, m, ops, p, tail, blocks) && v.w <= 64 && v.h <= 64
    requires Shows(dev, before, Parse(FileBytes(v, m, Framed(blocks, after))), raw, rawBefore, dx, dy, 0, 0)
    requires dev.Inside(px, py)
    ensures var x, y := px - dx, py - dy;
            if InRect(dev.clip, px, py) && 0 <= x < v.w && 0 <= y < v.h then
              Cell(v.w, x, y) < |p| &&
              var c := p[Cell(v.w, x, y)];
              dev.At(px, py) == if c == TransOf(v.exts, -1) then dev.Of(before, px, py) else Opaque(Entry(TableOf(v), c))
            else dev.At(px, py) == dev.Of(before, px, py)
  {
    hide Encoded, Framed, Parse, FileBytes, Shows, Entry;
    EncodedIconIsSampled(v, m, ops, p, tail, blocks, after, dev, before, raw, rawBefore, dx, dy, 0, 0, px, py);
    var x, y := px - dx, py - dy;
    if 0 <= x < v.w && 0 <= y < v.h {
      SampleIdentity(x, v.w);
      SampleIdentity(y, v.h);
    }
  }
}
