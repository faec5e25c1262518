/** The GIF container as the icon loader reads it (GIF89a sections 17 to 26), as functions on the
    bytes of the file, and a writer whose files the loader understands. */
module GifFormat {
  import opened Bits
  import opened Lzw
  import opened IconStreams
  import opened IconBlits

  // What the loader finds: an icon with its minimum code size and the bytes from its first data
  // sub-block on.
  datatype Found = NoImage | Image(icon: Icon, m: MinCode, data: seq<byte>)

  const GIF87A: seq<byte> := [0x47, 0x49, 0x46, 0x38, 0x37, 0x61]
  const GIF89A: seq<byte> := [0x47, 0x49, 0x46, 0x38, 0x39, 0x61]

  const TRAILER := 0x3B
  const EXTENSION := 0x21
  const IMAGE := 0x2C
  const GRAPHIC_CONTROL := 0xF9

  function Word(lo: byte, hi: byte): nat { lo + 256 * hi }

  // flags & 0x80, and 1 << ((flags & 7) + 1)
  predicate HasTable(flags: byte) { flags >= 0x80 }

  function TableEntries(flags: byte): (n: nat)
    ensures 2 <= n <= 256
  {
    Pow2Monotone(1, flags % 8 + 1);
    Pow2Monotone(flags % 8 + 1, 8);
    Pow2Constants();
    Pow2(flags % 8 + 1)
  }

  function Entry(t: seq<byte>, i: nat): Rgb
  {
    if 3 * i + 2 < |t| then
      var r: nat, g: nat, b: nat := t[3 * i], t[3 * i + 1], t[3 * i + 2];
      0x10000 * r + 0x100 * g + b
    else 0
  }

  // 256 colours, black beyond the bytes given.
  function Palette(t: seq<byte>): (p: seq<Rgb>)
    ensures |p| == 256
  {
    seq(256, i requires 0 <= i < 256 => Entry(t, i))
  }

  // The bytes of a colour: red, green, blue.
  lemma EntryBytes(t: seq<byte>, i: nat)
    ensures 3 * i + 2 < |t| ==>
      Entry(t, i) / 0x10000 == t[3 * i] && Entry(t, i) / 0x100 % 0x100 == t[3 * i + 1] && Entry(t, i) % 0x100 == t[3 * i + 2]
    ensures 3 * i + 2 >= |t| ==> Entry(t, i) == 0
  {
    if 3 * i + 2 < |t| {
      ThreeBytes(t[3 * i], t[3 * i + 1], t[3 * i + 2]);
    }
  }

  lemma ThreeBytes(r: byte, g: byte, b: byte)
    ensures var c := 0x10000 * r + 0x100 * g + b; c / 0x10000 == r && c / 0x100 % 0x100 == g && c % 0x100 == b
  {
    assert (0x10000 * r + 0x100 * g + b) / 0x100 == 0x100 * r + g;
  }

  // The flags as C has them: flags & 0x80, flags & 0x40, flags & 1, and 1 << ((flags & 7) + 1).
  lemma FlagsByBits(flags: byte)
    ensures HasTable(flags) <==> BitAnd(flags, 0x80) != 0
    ensures Interlaced(flags) <==> BitAnd(flags, 0x40) != 0
    ensures BitAnd(flags, 1) == flags % 2
    ensures TableEntries(flags) == Shl32(1, BitAnd(flags, 7) + 1)
  {
    hide BitAnd, Shl32;
    AndSeventh(flags);
    AndSixth(flags);
    AndOne(flags);
    LowThree(flags);
    hide Pow2;
    ShiftedOne(flags % 8 + 1);
  }

  lemma AndSixth(f: nat)
    requires f < 256
    ensures BitAnd(f, 0x40) != 0 <==> f / 64 % 2 == 1
  {
    hide BitAnd;
    AndDouble(f, 32);
    AndDouble(f / 2, 16);
    AndDouble(f / 2 / 2, 8);
    AndDouble(f / 2 / 2 / 2, 4);
    AndDouble(f / 2 / 2 / 2 / 2, 2);
    AndDouble(f / 2 / 2 / 2 / 2 / 2, 1);
    AndOne(f / 2 / 2 / 2 / 2 / 2 / 2);
  }

  lemma AndSeventh(f: nat)
    requires f < 256
    ensures BitAnd(f, 0x80) != 0 <==> f >= 0x80
  {
    hide BitAnd;
    AndDouble(f, 64);
    AndSixth(f / 2);
  }

  // Past a run of sub-blocks and its terminator.
  function SkipBlocks(s: seq<byte>): (r: seq<byte>)
    ensures |r| <= |s|
    decreases |s|
  {
    if s == [] then [] else if s[0] == 0 then s[1..] else SkipBlocks(Drop(s[1..], s[0]))
  }

  // The transparent index after an extension whose label comes next, and what follows it.
  function Extension(s: seq<byte>, trans: int): (r: (int, seq<byte>))
    ensures |r.1| <= |s|
  {
    if s == [] then (trans, [])
    else if s[0] != GRAPHIC_CONTROL then (trans, SkipBlocks(s[1..]))
    else if |s| >= 2 && s[1] == 4 then
      (if |s| >= 6 && s[2] % 2 == 1 then s[5] else trans, SkipBlocks(Drop(s, 6)))
    else (trans, SkipBlocks(Drop(s, 2)))
  }

  function ImageData(s: seq<byte>, w: nat, h: nat, palette: seq<Rgb>, trans: int): Found
  {
    if s == [] || s[0] < 2 || s[0] > 8 then NoImage
    else Image(Icon(w, h, palette, trans), s[0], s[1..])
  }

  function Descriptor(s: seq<byte>, gct: seq<Rgb>, trans: int): Found
  {
    if |s| < 9 then NoImage
    else
      var w, h, flags, rest := Word(s[4], s[5]), Word(s[6], s[7]), s[8], s[9..];
      if !HasTable(flags) then ImageData(rest, w, h, gct, trans)
      else
        var n := 3 * TableEntries(flags);
        if |rest| < n then NoImage else ImageData(rest[n..], w, h, Palette(rest[..n]), trans)
  }

  function Sections(s: seq<byte>, gct: seq<Rgb>, trans: int): Found
    decreases |s|
  {
    if s == [] || s[0] == TRAILER then NoImage
    else if s[0] == EXTENSION then
      var (t, rest) := Extension(s[1..], trans);
      Sections(rest, gct, t)
    else if s[0] == IMAGE then Descriptor(s[1..], gct, trans)
    else Sections(s[1..], gct, trans)
  }

  function Parse(s: seq<byte>): Found
  {
    if |s| < 13 || (s[..6] != GIF87A && s[..6] != GIF89A) then NoImage
    else
      var flags, rest := s[10], s[13..];
      if !HasTable(flags) then Sections(rest, Palette([]), -1)
      else
        var n := 3 * TableEntries(flags);
        if |rest| < n then NoImage else Sections(rest[n..], Palette(rest[..n]), -1)
  }

  // ----- a writer

  datatype Ext = Control(flags: byte, delayLo: byte, delayHi: byte, trans: byte)
               | Other(tag: byte, blocks: seq<seq<byte>>)

  predicate GoodExt(e: Ext)
  {
    e.Other? ==> e.tag != GRAPHIC_CONTROL && SubBlocks(e.blocks)
  }

  function ExtBytes(e: Ext, rest: seq<byte>): seq<byte>
    requires GoodExt(e)
  {
    match e
    case Control(flags, lo, hi, trans) => [EXTENSION, GRAPHIC_CONTROL, 4, flags, lo, hi, trans] + Framed([], rest)
    case Other(tag, blocks) => [EXTENSION, tag] + Framed(blocks, rest)
  }

  function TransAfter(e: Ext, trans: int): int
  {
    if e.Control? && e.flags % 2 == 1 then e.trans else trans
  }

  // The last graphic control that says so decides on the transparent index.
  lemma {:induction false} LastControlDecides(es: seq<Ext>, e: Ext, trans: int)
    ensures TransOf(es + [e], trans) ==
            match e
            case Control(flags, _, _, t) => if BitAnd(flags, 1) != 0 then t else TransOf(es, trans)
            case Other(_, _) => TransOf(es, trans)
    decreases |es|
  {
    hide BitAnd;
    if es == [] {
      if e.Control? {
        AndOne(e.flags);
      }
      assert [e][1..] == [];
      assert es + [e] == [e];
    } else {
      assert (es + [e])[1..] == es[1..] + [e];
      LastControlDecides(es[1..], e, TransAfter(es[0], trans));
    }
  }

  function ExtsBytes(es: seq<Ext>, rest: seq<byte>): seq<byte>
    requires forall e :: e in es ==> GoodExt(e)
  {
    if es == [] then rest else ExtBytes(es[0], ExtsBytes(es[1..], rest))
  }

  function TransOf(es: seq<Ext>, trans: int): int
  {
    if es == [] then trans else TransOf(es[1..], TransAfter(es[0], trans))
  }

  // The fields a writer may choose around the pixel data: local is the local colour table.
  datatype Envelope = Envelope(signature: seq<byte>, screen: seq<byte>, background: byte, aspect: byte,
                               flags: byte, table: seq<byte>, exts: seq<Ext>,
                               corner: seq<byte>, w: nat, h: nat, localFlags: byte, local: seq<byte>)

  predicate GoodTable(flags: byte, table: seq<byte>)
  {
    |table| == if HasTable(flags) then 3 * TableEntries(flags) else 0
  }

  predicate Interlaced(flags: byte) { flags / 64 % 2 == 1 }

  predicate GoodEnvelope(v: Envelope)
  {
    && (v.signature == GIF87A || v.signature == GIF89A)
    && |v.screen| == 4 && |v.corner| == 4
    && GoodTable(v.flags, v.table) && GoodTable(v.localFlags, v.local)
    && !Interlaced(v.localFlags)
    && v.w < 0x10000 && v.h < 0x10000
    && forall e :: e in v.exts ==> GoodExt(e)
  }

  // The local colour table where there is one.
  function TableOf(v: Envelope): seq<byte>
  {
    if HasTable(v.localFlags) then v.local else v.table
  }

  function DescriptorFields(w: nat, h: nat, flags: byte): seq<byte>
    requires w < 0x10000 && h < 0x10000
  {
    [w % 256, w / 256, h % 256, h / 256, flags]
  }

  function ImageBytes(v: Envelope, m: MinCode, data: seq<byte>): seq<byte>
    requires GoodEnvelope(v)
  {
    [IMAGE] + (v.corner + (DescriptorFields(v.w, v.h, v.localFlags) + (v.local + ([m] + data))))
  }

  function FileBytes(v: Envelope, m: MinCode, data: seq<byte>): seq<byte>
    requires GoodEnvelope(v)
  {
    HeaderBytes(v, ExtsBytes(v.exts, ImageBytes(v, m, data)))
  }

  function HeaderBytes(v: Envelope, body: seq<byte>): seq<byte>
  {
    v.signature + (v.screen + ([v.flags, v.background, v.aspect] + (v.table + body)))
  }

  lemma {:induction false} SkipsFramed(blocks: seq<seq<byte>>, after: seq<byte>)
    requires SubBlocks(blocks)
    ensures SkipBlocks(Framed(blocks, after)) == after
  {
    if blocks == [] {
      assert ([0 as byte] + after)[1..] == after;
    } else {
      SkipsFramed(blocks[1..], after);
      SkipsBlock(blocks[0], Framed(blocks[1..], after));
    }
  }

  lemma SkipsBlock(b: seq<byte>, rest: seq<byte>)
    requires 1 <= |b| <= 255
    ensures SkipBlocks([|b| as byte] + (b + rest)) == SkipBlocks(rest)
  {
    var s := [|b| as byte] + (b + rest);
    assert s[1..] == b + rest;
    assert Drop(s[1..], s[0]) == rest;
  }

  lemma ExtensionRead(e: Ext, trans: int, rest: seq<byte>)
    requires GoodExt(e)
    ensures var s := ExtBytes(e, rest);
            s != [] && s[0] == EXTENSION && Extension(s[1..], trans) == (TransAfter(e, trans), rest)
  {
    var s := ExtBytes(e, rest)[1..];
    match e
    case Control(flags, lo, hi, t) =>
      assert s == [GRAPHIC_CONTROL, 4, flags, lo, hi, t] + Framed([], rest);
      assert Drop(s, 6) == Framed([], rest);
      SkipsFramed([], rest);
    case Other(tag, blocks) =>
      assert s[1..] == Framed(blocks, rest);
      SkipsFramed(blocks, rest);
  }

  lemma {:induction false} ExtensionsRead(es: seq<Ext>, gct: seq<Rgb>, trans: int, rest: seq<byte>)
    requires forall e :: e in es ==> GoodExt(e)
    ensures Sections(ExtsBytes(es, rest), gct, trans) == Sections(rest, gct, TransOf(es, trans))
  {
    if es != [] {
      ExtensionRead(es[0], trans, ExtsBytes(es[1..], rest));
      ExtensionsRead(es[1..], gct, TransAfter(es[0], trans), rest);
    }
  }

  lemma ImageRead(v: Envelope, m: MinCode, data: seq<byte>, trans: int)
    requires GoodEnvelope(v)
    ensures Sections(ImageBytes(v, m, data), Palette(v.table), trans) == Image(Icon(v.w, v.h, Palette(TableOf(v)), trans), m, data)
  {
    hide Palette, TableEntries, HasTable, GoodEnvelope, Word, ImageData;
    var u := [m] + data;
    EnvelopeFields(v);
    DescriptorBytes(v.corner, v.w, v.h, v.localFlags, v.local + u);
    assert ImageBytes(v, m, data)[1..] == v.corner + (DescriptorFields(v.w, v.h, v.localFlags) + (v.local + u));
    TableThen(v.local, u);
    DataRead(u, m, data, v.w, v.h, Palette(TableOf(v)), trans);
  }

  lemma DescriptorBytes(corner: seq<byte>, w: nat, h: nat, flags: byte, rest: seq<byte>)
    requires |corner| == 4 && w < 0x10000 && h < 0x10000
    ensures var s := corner + (DescriptorFields(w, h, flags) + rest);
            && |s| >= 9 && s[9..] == rest && s[8] == flags
            && Word(s[4], s[5]) == w && Word(s[6], s[7]) == h
  {
    var f := DescriptorFields(w, h, flags);
    var t := f + rest;
    assert (corner + t)[9..] == t[5..] == rest;
    assert t[0] == f[0] && t[1] == f[1] && t[2] == f[2] && t[3] == f[3] && t[4] == f[4];
  }

  lemma EnvelopeFields(v: Envelope)
    requires GoodEnvelope(v)
    ensures |v.corner| == 4 && GoodTable(v.localFlags, v.local)
    ensures v.w < 0x10000 && v.h < 0x10000
  {
  }

  lemma DataRead(u: seq<byte>, m: MinCode, data: seq<byte>, w: nat, h: nat, palette: seq<Rgb>, trans: int)
    requires u == [m] + data
    ensures ImageData(u, w, h, palette, trans) == Image(Icon(w, h, palette, trans), m, data)
  {
    assert u[1..] == data;
  }

  lemma TableThen(table: seq<byte>, rest: seq<byte>)
    ensures (table + rest)[..|table|] == table && (table + rest)[|table|..] == rest
    ensures table == [] ==> table + rest == rest
  {
  }

  lemma HeaderRead(v: Envelope, body: seq<byte>)
    requires GoodEnvelope(v)
    ensures Parse(HeaderBytes(v, body)) == Sections(body, Palette(v.table), -1)
  {
    hide Palette, TableEntries, Sections;
    var s := HeaderBytes(v, body);
    assert s[..6] == v.signature;
    assert s[10] == v.flags;
    assert s[13..] == v.table + body;
    TableThen(v.table, body);
  }

  // The loader finds in such a file exactly what was put in it.
  lemma ParseOfFile(v: Envelope, m: MinCode, data: seq<byte>)
    requires GoodEnvelope(v)
    ensures Parse(FileBytes(v, m, data)) == Image(Icon(v.w, v.h, Palette(TableOf(v)), TransOf(v.exts, -1)), m, data)
  {
    HeaderRead(v, ExtsBytes(v.exts, ImageBytes(v, m, data)));
    ExtensionsRead(v.exts, Palette(v.table), -1, ImageBytes(v, m, data));
    ImageRead(v, m, data, TransOf(v.exts, -1));
  }

  // A whole file, byte by byte: header, graphic control, descriptor, and two colours of its own, of
  // a 3 by 2 picture in which index 1 is transparent.
  lemma SmallFile(data: seq<byte>)
    ensures Parse([0x47, 0x49, 0x46, 0x38, 0x39, 0x61, 9, 0, 9, 0, 0x00, 0, 0] +
                  ([0x21, 0xF9, 4, 0x01, 0, 0, 1, 0] +
                   ([0x2C] + ([0, 0, 0, 0, 3, 0, 2, 0, 0x80] + ([10, 20, 30, 40, 50, 60, 2] + data))))) ==
            Image(Icon(3, 2, Palette([10, 20, 30, 40, 50, 60]), 1), 2, data)
  {
    hide Palette, Sections;
    var s2: seq<byte> := [0x2C] + ([0, 0, 0, 0, 3, 0, 2, 0, 0x80] + ([10, 20, 30, 40, 50, 60, 2] + data));
    SmallControl(s2);
    SmallImage(data);
    SmallHeader([0x21, 0xF9, 4, 0x01, 0, 0, 1, 0] + s2);
  }

  lemma SmallHeader(rest: seq<byte>)
    ensures Parse([0x47, 0x49, 0x46, 0x38, 0x39, 0x61, 9, 0, 9, 0, 0x00, 0, 0] + rest) == Sections(rest, Palette([]), -1)
  {
    hide Palette, Sections;
    var s: seq<byte> := [0x47, 0x49, 0x46, 0x38, 0x39, 0x61, 9, 0, 9, 0, 0x00, 0, 0] + rest;
    assert s[..6] == GIF89A && s[10] == 0 && s[13..] == rest;
  }

  lemma SmallControl(rest: seq<byte>)
    ensures Sections([0x21, 0xF9, 4, 0x01, 0, 0, 1, 0] + rest, Palette([]), -1) == Sections(rest, Palette([]), 1)
  {
    hide Palette;
    var s := [0x21, 0xF9, 4, 0x01, 0, 0, 1, 0] + rest;
    var t := s[1..];
    assert t == [0xF9, 4, 0x01, 0, 0, 1, 0] + rest;
    assert Drop(t, 6) == [0] + rest;
    assert SkipBlocks([0 as byte] + rest) == rest by {
      assert ([0 as byte] + rest)[1..] == rest;
    }
    assert Extension(t, -1) == (1, rest);
  }

  lemma SmallImage(data: seq<byte>)
    ensures Sections([0x2C] + ([0, 0, 0, 0, 3, 0, 2, 0, 0x80] + ([10, 20, 30, 40, 50, 60, 2] + data)), Palette([]), 1) ==
            Image(Icon(3, 2, Palette([10, 20, 30, 40, 50, 60]), 1), 2, data)
  {
    hide Palette;
    var u: seq<byte> := [10, 20, 30, 40, 50, 60, 2] + data;
    var s := [0, 0, 0, 0, 3, 0, 2, 0, 0x80] + u;
    assert ([0x2C as byte] + s)[1..] == s;
    assert s[9..] == u;
    assert TableEntries(0x80) == 2 by {
      assert Pow2(1) == 2;
    }
    assert u[..6] == [10, 20, 30, 40, 50, 60];
    assert u[6..][1..] == data;
    assert Descriptor(s, Palette([]), 1) == ImageData(u[6..], 3, 2, Palette(u[..6]), 1);
  }
}
