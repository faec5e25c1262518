/** draw_setting_gif_icon_scaled: from the bytes of an icon file to pixels on a device. */
module IconLoaders {
  import opened Bits
  import opened Lzw
  import opened IconStreams
  import opened BitReaders
  import opened LzwDecoders
  import opened Devices
  import opened IconBlits
  import opened GifFormat

  // The static decode buffers, shared by every call.
  class Buffers {
    const prefix: array<nat>
    const suffix: array<byte>
    const stack: array<byte>
    const raw: array<byte>

    ghost predicate Valid()
    {
      && prefix.Length == suffix.Length == TABLE_SIZE
      && stack.Length == TABLE_SIZE + 1
      && raw.Length == MAX_PIXELS
      && suffix != stack && suffix != raw && stack != raw
    }

    constructor ()
      ensures Valid() && fresh(prefix) && fresh(suffix) && fresh(stack) && fresh(raw)
    {
      prefix, suffix := new nat[TABLE_SIZE], new byte[TABLE_SIZE];
      stack, raw := new byte[TABLE_SIZE + 1], new byte[MAX_PIXELS];
    }
  }

  // What the code asks of the file: if it has an image, the image fits the pixel buffer and its
  // codes are ones the decoder expects.
  predicate Drawable(f: Found)
  {
    f.Image? ==>
      && f.icon.w > 0 && f.icon.h > 0 && f.icon.w * f.icon.h <= MAX_PIXELS
      && Decode(f.m, Start(f.m), BitsOf(Payload(f.data)), f.icon.w * f.icon.h).Pixels?
  }

  // The pixel buffer afterwards: what was decoded, and stale bytes where the data fell short.
  function RawAfter(f: Found, before: seq<byte>): seq<byte>
    requires f.Image? && Drawable(f) && |before| == MAX_PIXELS
  {
    var out := Decode(f.m, Start(f.m), BitsOf(Payload(f.data)), f.icon.w * f.icon.h).out;
    out + before[|out|..]
  }

  function RenderSize(target: int, size: nat): nat
  {
    var r := if target > 0 then target else size;
    if r > 64 then 64 else r
  }

  method SkipRun(st: IconStream)
    requires st.Valid()
    modifies st
    ensures st.Valid() && st.Rest() == SkipBlocks(old(st.Rest()))
  {
    while true
      invariant st.Valid() && SkipBlocks(st.Rest()) == SkipBlocks(old(st.Rest()))
      decreases |st.Rest()|
    {
      var l := st.Getc();
      if l <= 0 {
        break;
      }
      st.Skip(l);
    }
  }

  method ReadExtension(st: IconStream, trans: int) returns (t: int)
    requires st.Valid()
    modifies st
    ensures st.Valid() && (t, st.Rest()) == Extension(old(st.Rest()), trans)
  {
    hide SkipBlocks;
    t := trans;
    var tag := st.Getc();
    if tag == GRAPHIC_CONTROL {
      var size := st.Getc();
      if size == 4 {
        var gce := new byte[4];
        var got := st.Read(gce, 4);
        if got == 4 && gce[0] % 2 == 1 {
          t := gce[3];
        }
      }
    }
    SkipRun(st);
  }

  method ReadPalette(st: IconStream, entries: nat) returns (ok: bool, palette: seq<Rgb>)
    requires st.Valid() && entries <= 256
    modifies st
    ensures ok == (|old(st.Rest())| >= 3 * entries)
    ensures ok ==> st.Valid() && palette == Palette(old(st.Rest())[..3 * entries])
    ensures ok ==> st.Rest() == old(st.Rest())[3 * entries..]
  {
    ghost var rest := st.Rest();
    var bytes := new byte[768];
    var got := st.Read(bytes, 3 * entries);
    if got != 3 * entries {
      return false, [];
    }
    var table := new Rgb[256](_ => 0);
    for i := 0 to entries
      modifies table
      invariant bytes[..got] == rest[..got]
      invariant forall k :: 0 <= k < i ==> table[k] == Entry(rest[..got], k)
      invariant forall k :: i <= k < 256 ==> table[k] == 0
    {
      var r: nat, g: nat, b: nat := bytes[..got][3 * i], bytes[..got][3 * i + 1], bytes[..got][3 * i + 2];
      table[i] := 0x10000 * r + 0x100 * g + b;
    }
    palette := table[..];
    assert forall k :: entries <= k < 256 ==> Entry(rest[..got], k) == 0;
    ok := true;
  }

  // The icon on the device: the pixel buffer holds what was decoded and every device pixel is the
  // sampled colour, or what it was before.
  ghost predicate Shows(dev: Device, before: seq<Colour>, f: Found, raw: seq<byte>, rawBefore: seq<byte>,
                        dx: int, dy: int, tw: int, th: int)
    reads dev.pixels
  {
    && dev.Valid() && |before| == dev.width * dev.height
    && f.Image? && Drawable(f) && |rawBefore| == MAX_PIXELS
    && raw == RawAfter(f, rawBefore)
    && Decoded(f.icon, raw)
    && forall px, py :: dev.Inside(px, py) ==>
         dev.At(px, py) == Painted(f.icon, raw, RenderSize(tw, f.icon.w), RenderSize(th, f.icon.h), dev.clip,
                                   dx, dy, px, py, dev.Of(before, px, py))
  }

  method DecodeAndBlit(dev: Device, st: IconStream, icon: Icon, m: MinCode, dx: int, dy: int, tw: int, th: int, b: Buffers)
    requires dev.Valid() && st.Valid() && b.Valid() && |icon.palette| == 256
    requires Drawable(Image(icon, m, st.Rest()))
    modifies dev.pixels, st, b.prefix, b.suffix, b.stack, b.raw
    ensures Shows(dev, old(dev.pixels[..]), Image(icon, m, old(st.Rest())), b.raw[..], old(b.raw[..]), dx, dy, tw, th)
  {
    hide Decode, Painted, Payload;
    var total := icon.w * icon.h;
    if total > MAX_PIXELS {
      total := MAX_PIXELS;
    }
    Decompress(st, m, total, b);
    var rw := if tw > 0 then tw else icon.w;
    var rh := if th > 0 then th else icon.h;
    if rw > 64 {
      rw := 64;
    }
    if rh > 64 {
      rh := 64;
    }
    Blit(dev, icon, b.raw, rw, rh, dx, dy);
  }

  method Decompress(st: IconStream, m: MinCode, total: nat, b: Buffers)
    requires st.Valid() && b.Valid() && total <= MAX_PIXELS
    requires Decode(m, Start(m), BitsOf(Payload(st.Rest())), total).Pixels?
    modifies st, b.prefix, b.suffix, b.stack, b.raw
    ensures var out := Decode(m, Start(m), BitsOf(Payload(old(st.Rest()))), total).out;
            b.raw[..] == out + old(b.raw[..])[|out|..]
  {
    hide Decode, Payload, BitsOf;
    var reader := new BitReader(st);
    var decoder := new LzwDecoder(m, total, reader, b.prefix, b.suffix, b.stack, b.raw);
    decoder.Run();
    assert b.raw[..] == b.raw[..decoder.pixelCount] + b.raw[decoder.pixelCount..];
  }

  // Everything between the image separator and the first data sub-block.
  method ReadDescriptor(st: IconStream, gct: seq<Rgb>, trans: int) returns (f: Found)
    requires st.Valid() && |gct| == 256
    modifies st
    ensures f.Image? == Descriptor(old(st.Rest()), gct, trans).Image?
    ensures f.Image? ==> st.Valid() && |f.icon.palette| == 256
    ensures f.Image? ==> f.data == st.Rest() && f == Descriptor(old(st.Rest()), gct, trans)
  {
    hide TableEntries, Palette;
    var desc := new byte[9];
    var got := st.Read(desc, 9);
    if got != 9 {
      return NoImage;
    }
    var d := desc[..got];
    var w, h := Word(d[4], d[5]), Word(d[6], d[7]);
    var palette := gct;
    if HasTable(d[8]) {
      var ok;
      ok, palette := ReadPalette(st, TableEntries(d[8]));
      if !ok {
        return NoImage;
      }
    }
    var minCodeSize := st.Getc();
    if minCodeSize < 2 || minCodeSize > 8 {
      return NoImage;
    }
    f := Image(Icon(w, h, palette, trans), minCodeSize, st.Rest());
  }

  // The signature, the logical screen and the global colour table.
  method ReadHeader(st: IconStream) returns (ok: bool, gct: seq<Rgb>)
    requires st.Valid()
    modifies st
    ensures !ok ==> Parse(old(st.Rest())) == NoImage
    ensures ok ==> st.Valid() && |gct| == 256 && Parse(old(st.Rest())) == Sections(st.Rest(), gct, -1)
  {
    hide TableEntries, Palette, Sections;
    gct := Palette([]);
    var hdr := new byte[13];
    var got := st.Read(hdr, 13);
    if got != 13 {
      return false, gct;
    }
    var h := hdr[..got];
    if h[..6] != GIF87A && h[..6] != GIF89A {
      return false, gct;
    }
    if HasTable(h[10]) {
      ok, gct := ReadPalette(st, TableEntries(h[10]));
      return;
    }
    ok := true;
  }

  // One turn of the section loop: passes over a section, or ends with what the file is found to hold.
  method ReadSection(st: IconStream, gct: seq<Rgb>, trans: int) returns (more: bool, t: int, f: Found)
    requires st.Valid() && |gct| == 256
    modifies st
    ensures more ==> st.Valid() && f.NoImage? && |st.Rest()| < |old(st.Rest())|
    ensures more ==> Sections(st.Rest(), gct, t) == Sections(old(st.Rest()), gct, trans)
    ensures !more ==> f == Sections(old(st.Rest()), gct, trans)
    ensures f.Image? ==> st.Valid() && |f.icon.palette| == 256 && f.data == st.Rest()
  {
    hide Extension, Descriptor;
    more, t, f := true, trans, NoImage;
    var c := st.Getc();
    if c < 0 || c == TRAILER {
      more := false;
    } else if c == EXTENSION {
      t := ReadExtension(st, trans);
    } else if c == IMAGE {
      more := false;
      f := ReadDescriptor(st, gct, trans);
    }
  }

  // The section loop.
  method FindImage(st: IconStream, gct: seq<Rgb>) returns (f: Found)
    requires st.Valid() && |gct| == 256
    modifies st
    ensures f == Sections(old(st.Rest()), gct, -1)
    ensures f.Image? ==> st.Valid() && |f.icon.palette| == 256 && f.data == st.Rest()
  {
    hide Sections;
    var more, trans := true, -1;
    f := NoImage;
    while more
      invariant more ==> st.Valid() && Sections(st.Rest(), gct, trans) == Sections(old(st.Rest()), gct, -1)
      invariant !more ==> f == Sections(old(st.Rest()), gct, -1)
      invariant f.Image? ==> st.Valid() && |f.icon.palette| == 256 && f.data == st.Rest()
      decreases more, if more && st.Valid() then |st.Rest()| else 0
    {
      more, trans, f := ReadSection(st, gct, trans);
    }
  }

  // Draws the first image of the file, or nothing when there is none.
  method DrawScaled(dev: Device, data: seq<byte>, dx: int, dy: int, tw: int, th: int, b: Buffers) returns (ok: bool)
    requires dev.Valid() && b.Valid() && Drawable(Parse(data))
    modifies dev.pixels, b.prefix, b.suffix, b.stack, b.raw
    ensures ok == Parse(data).Image?
    ensures ok ==> Shows(dev, old(dev.pixels[..]), Parse(data), b.raw[..], old(b.raw[..]), dx, dy, tw, th)
    ensures !ok ==> dev.pixels[..] == old(dev.pixels[..]) && b.raw[..] == old(b.raw[..])
  {
    hide Drawable, Shows, Sections, Parse;
    var st := new IconStream(data);
    var good, gct := ReadHeader(st);
    if !good {
      return false;
    }
    var f := FindImage(st, gct);
    if f.Image? {
      DecodeAndBlit(dev, st, f.icon, f.m, dx, dy, tw, th, b);
    }
    ok := f.Image?;
  }
}
