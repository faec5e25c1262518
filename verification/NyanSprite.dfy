/** The run-length sprite rasterizer: a cursor that walks the picture span by span, against
    expanding the picture first and then drawing it. */
module NyanSprites {
  import opened Bits
  import opened Devices

  const FRAME_W := 150
  const PALETTE_SIZE := 14

  datatype Span = Span(count: byte, index: byte)

  // Conversion to a signed 16-bit halfword.
  function Half(v: int): (h: int)
    ensures -0x8000 <= h < 0x8000
    ensures -0x8000 <= v < 0x8000 ==> h == v
  {
    (v + 0x8000) % 0x10000 - 0x8000
  }

  function ColourOf(palette: seq<Colour>, index: byte): Colour
    requires |palette| == PALETTE_SIZE
  {
    if index < PALETTE_SIZE then palette[index] else 0
  }

  // (c & 0xFF000000) != 0
  predicate Visible(c: Colour) { c >= 0x100_0000 }

  function Copies(n: nat, c: Colour): (s: seq<Colour>)
    ensures |s| == n && forall i :: 0 <= i < n ==> s[i] == c
  {
    seq(n, _ => c)
  }

  // The picture, pixel after pixel.
  function Expanded(palette: seq<Colour>, spans: seq<Span>): seq<Colour>
    requires |palette| == PALETTE_SIZE
  {
    if spans == [] then []
    else
      var last := spans[|spans| - 1];
      Expanded(palette, spans[..|spans| - 1]) + Copies(last.count, ColourOf(palette, last.index))
  }

  // Where picture pixel k goes; the row is a halfword before and after the offset is added.
  function Column(dx: int, k: nat): int { Half(dx + k % FRAME_W) }

  function Row(dy: int, k: nat): int { Half(dy + Half(k / FRAME_W)) }

  predicate Hits(c: Colour, clip: Rect, dx: int, dy: int, k: nat, px: int, py: int)
  {
    Visible(c) && InRect(clip, px, py) && Column(dx, k) == px && Row(dy, k) == py
  }

  // Device pixel (px, py) once the first n pixels of the picture are drawn in order.
  function Drawn(image: seq<Colour>, n: nat, clip: Rect, dx: int, dy: int, px: int, py: int, before: Colour): Colour
    requires n <= |image|
  {
    if n == 0 then before
    else if Hits(image[n - 1], clip, dx, dy, n - 1, px, py) then image[n - 1]
    else Drawn(image, n - 1, clip, dx, dy, px, py, before)
  }

  ghost predicate ClipInside(dev: Device)
  {
    0 <= dev.clip.left && dev.clip.right <= dev.width && 0 <= dev.clip.top && dev.clip.bottom <= dev.height
  }

  ghost predicate Shows(dev: Device, before: seq<Colour>, image: seq<Colour>, n: nat, dx: int, dy: int)
    requires n <= |image| && |before| == dev.width * dev.height
    reads dev.pixels
  {
    dev.Valid() && forall px, py :: dev.Inside(px, py) ==>
      dev.At(px, py) == Drawn(image, n, dev.clip, dx, dy, px, py, dev.Of(before, px, py))
  }

  lemma {:induction false} DrawnPrefix(a: seq<Colour>, b: seq<Colour>, n: nat, clip: Rect, dx: int, dy: int, px: int, py: int, before: Colour)
    requires n <= |a| && a <= b
    ensures Drawn(a, n, clip, dx, dy, px, py, before) == Drawn(b, n, clip, dx, dy, px, py, before)
  {
    if n > 0 {
      DrawnPrefix(a, b, n - 1, clip, dx, dy, px, py, before);
    }
  }

  // One pixel of a span, at the cursor.
  method Plot(dev: Device, c: Colour, x: int, y: int, dx: int, dy: int,
              ghost before: seq<Colour>, ghost image: seq<Colour>, ghost k: nat)
    requires ClipInside(dev) && |before| == dev.width * dev.height && k < |image| && image[k] == c
    requires x == k % FRAME_W && y == Half(k / FRAME_W)
    requires Shows(dev, before, image, k, dx, dy)
    modifies dev.pixels
    ensures Shows(dev, before, image, k + 1, dx, dy)
  {
    if Visible(c) {
      var px := Half(dx + x);
      var py := Half(dy + y);
      if px >= dev.clip.left && px < dev.clip.right && py >= dev.clip.top && py < dev.clip.bottom {
        dev.Put(px, py, c);
      }
    }
  }

  // draw_nyan_sprite: the same device contents as drawing the expanded picture, and the cursor
  // always at column k mod 150 and row k div 150 (as a halfword) after k pixels.
  method DrawSprite(dev: Device, palette: seq<Colour>, spans: seq<Span>, dx: int, dy: int)
    requires dev.Valid() && ClipInside(dev) && |palette| == PALETTE_SIZE
    modifies dev.pixels
    ensures Shows(dev, old(dev.pixels[..]), Expanded(palette, spans), |Expanded(palette, spans)|, dx, dy)
  {
    ghost var before := dev.pixels[..];
    var x, y := 0, 0;
    for s := 0 to |spans|
      invariant var done := Expanded(palette, spans[..s]);
                && x == |done| % FRAME_W && y == Half(|done| / FRAME_W)
                && Shows(dev, before, done, |done|, dx, dy)
    {
      assert spans[..s + 1][..s] == spans[..s];
      var c := ColourOf(palette, spans[s].index);
      x, y := DrawSpan(dev, c, spans[s].count, x, y, dx, dy, before, Expanded(palette, spans[..s]));
    }
    assert spans[..|spans|] == spans;
  }

  method DrawSpan(dev: Device, c: Colour, count: nat, x0: int, y0: int, dx: int, dy: int,
                  ghost before: seq<Colour>, ghost done: seq<Colour>) returns (x: int, y: int)
    requires ClipInside(dev) && |before| == dev.width * dev.height
    requires x0 == |done| % FRAME_W && y0 == Half(|done| / FRAME_W)
    requires Shows(dev, before, done, |done|, dx, dy)
    modifies dev.pixels
    ensures var after := done + Copies(count, c);
            && x == |after| % FRAME_W && y == Half(|after| / FRAME_W)
            && Shows(dev, before, after, |after|, dx, dy)
  {
    ghost var after := done + Copies(count, c);
    x, y := x0, y0;
    ShowsPrefix(dev, before, done, after, dx, dy);
    for i := 0 to count
      invariant x == (|done| + i) % FRAME_W && y == Half((|done| + i) / FRAME_W)
      invariant Shows(dev, before, after, |done| + i, dx, dy)
    {
      Plot(dev, c, x, y, dx, dy, before, after, |done| + i);
      CursorStep(|done| + i);
      x := x + 1;
      if x >= FRAME_W {
        x := 0;
        y := Half(y + 1);
      }
    }
  }

  lemma ShowsPrefix(dev: Device, before: seq<Colour>, a: seq<Colour>, b: seq<Colour>, dx: int, dy: int)
    requires |before| == dev.width * dev.height && a <= b && Shows(dev, before, a, |a|, dx, dy)
    ensures Shows(dev, before, b, |a|, dx, dy)
  {
    forall px, py | dev.Inside(px, py)
      ensures dev.At(px, py) == Drawn(b, |a|, dev.clip, dx, dy, px, py, dev.Of(before, px, py))
    {
      DrawnPrefix(a, b, |a|, dev.clip, dx, dy, px, py, dev.Of(before, px, py));
    }
  }

  lemma CursorStep(k: nat)
    ensures var x, row := k % FRAME_W, k / FRAME_W;
            if x + 1 >= FRAME_W then (k + 1) % FRAME_W == 0 && Half(Half(row) + 1) == Half((k + 1) / FRAME_W)
            else (k + 1) % FRAME_W == x + 1 && (k + 1) / FRAME_W == row
  {
    HalfStep(k / FRAME_W);
  }

  lemma HalfStep(v: int)
    ensures Half(Half(v) + 1) == Half(v + 1)
  {
  }

  // The row of the cursor is the quotient exactly until the halfword wraps.
  lemma RowIsQuotient(k: nat)
    ensures Half(k / FRAME_W) == k / FRAME_W <==> k < FRAME_W * 0x8000
  {
  }

  // Positions and clip edges are halfwords, and the clip has no negative part.
  ghost predicate Halfwords(clip: Rect, dx: int, dy: int)
  {
    && -0x8000 <= dx < 0x8000 && -0x8000 <= dy < 0x8000
    && 0 <= clip.left && clip.right <= 0x8000
    && 0 <= clip.top && clip.bottom <= 0x8000
  }

  // A column that wraps is negative, so no clip has it.
  lemma ColumnInClip(clip: Rect, dx: int, dy: int, k: nat, px: int)
    requires Halfwords(clip, dx, dy) && clip.left <= px < clip.right
    ensures Column(dx, k) == px <==> k % FRAME_W == px - dx
  {
  }

  // Rows that wrap come round after 65536.
  lemma RowInClip(clip: Rect, dx: int, dy: int, k: nat, py: int)
    requires Halfwords(clip, dx, dy) && clip.top <= py < clip.bottom
    ensures Row(dy, k) == py <==> (k / FRAME_W - (py - dy)) % 0x10000 == 0
  {
    HalfOfSum(dy, k / FRAME_W);
    HalfIs(dy + k / FRAME_W, py);
  }

  lemma HalfOfSum(a: int, b: int)
    ensures Half(a + Half(b)) == Half(a + b)
  {
  }

  lemma HalfIs(v: int, h: int)
    requires -0x8000 <= h < 0x8000
    ensures Half(v) == h <==> (v - h) % 0x10000 == 0
  {
  }

  // Which device pixels picture pixel k paints, however long the picture.
  lemma HitsExactly(c: Colour, clip: Rect, dx: int, dy: int, k: nat, px: int, py: int)
    requires Halfwords(clip, dx, dy)
    ensures Hits(c, clip, dx, dy, k, px, py) <==>
            && Visible(c) && InRect(clip, px, py)
            && k % FRAME_W == px - dx && (k / FRAME_W - (py - dy)) % 0x10000 == 0
  {
    hide Column, Row;
    if InRect(clip, px, py) {
      ColumnInClip(clip, dx, dy, k, px);
      RowInClip(clip, dx, dy, k, py);
    }
  }

  function PictureAt(image: seq<Colour>, n: nat, x: int, y: int): Colour
    requires n <= |image|
  {
    if 0 <= x < FRAME_W && 0 <= y && FRAME_W * y + x < n then image[FRAME_W * y + x] else 0
  }

  // Up to the row at which the halfword wraps, each device pixel shows the picture pixel above it.
  lemma {:induction false} DrawnIsPicture(image: seq<Colour>, n: nat, clip: Rect, dx: int, dy: int,
                                          px: int, py: int, before: Colour)
    requires Halfwords(clip, dx, dy) && n <= |image| <= FRAME_W * 0x8000
    ensures var c := PictureAt(image, n, px - dx, py - dy);
            Drawn(image, n, clip, dx, dy, px, py, before) ==
            if InRect(clip, px, py) && Visible(c) then c else before
  {
    if n > 0 {
      hide Hits;
      var k := n - 1;
      DrawnIsPicture(image, k, clip, dx, dy, px, py, before);
      HitsExactly(image[k], clip, dx, dy, k, px, py);
      if InRect(clip, px, py) {
        RowIsNear(k, py - dy);
      }
      assert k == FRAME_W * (k / FRAME_W) + k % FRAME_W;
    }
  }

  lemma RowIsNear(k: nat, y: int)
    requires k < FRAME_W * 0x8000 && -0x8000 < y < 0x10000
    ensures (k / FRAME_W - y) % 0x10000 == 0 <==> k / FRAME_W == y
  {
  }

  // Beyond it a picture comes round: below a position one row down, row 65535 is on the first line.
  lemma LongPictureWraps(c: Colour, clip: Rect)
    requires Visible(c) && InRect(clip, 0, 0) && Halfwords(clip, 0, 1)
    ensures Hits(c, clip, 0, 1, FRAME_W * 0xFFFF, 0, 0)
  {
    HitsExactly(c, clip, 0, 1, FRAME_W * 0xFFFF, 0, 0);
  }

  // ----- what the spans paint

  // How many pixels the spans make.
  function Total(spans: seq<Span>): nat
  {
    if spans == [] then 0 else Total(spans[..|spans| - 1]) + spans[|spans| - 1].count
  }

  lemma {:induction false} ExpandedLength(palette: seq<Colour>, spans: seq<Span>)
    requires |palette| == PALETTE_SIZE
    ensures |Expanded(palette, spans)| == Total(spans)
  {
    if spans != [] {
      ExpandedLength(palette, spans[..|spans| - 1]);
    }
  }

  // Pixel i of span s comes after all the pixels of the spans before, in the span's colour: the
  // palette's, or none for an index the palette does not have.
  lemma {:induction false} ExpandedAt(palette: seq<Colour>, spans: seq<Span>, s: nat, i: nat)
    requires |palette| == 14 && s < |spans| && i < spans[s].count
    ensures var k := Total(spans[..s]) + i;
            && k < |Expanded(palette, spans)|
            && Expanded(palette, spans)[k] == if spans[s].index < 14 then palette[spans[s].index] else 0
    decreases |spans|
  {
    var init := spans[..|spans| - 1];
    ExpandedLength(palette, init);
    if s < |init| {
      ExpandedAt(palette, init, s, i);
      assert init[..s] == spans[..s];
    } else {
      assert init == spans[..s];
    }
  }

  // The device after DrawSprite, span by span: pixel i of span s, at column k mod 150 and row
  // k div 150 of the picture, has the span's colour unless that has no opacity or the clip leaves
  // it out ...
  lemma SpanOnDevice(dev: Device, before: seq<Colour>, palette: seq<Colour>, spans: seq<Span>, dx: int, dy: int,
                     s: nat, i: nat, px: int, py: int)
    requires |before| == dev.width * dev.height && |palette| == 14
    requires Shows(dev, before, Expanded(palette, spans), |Expanded(palette, spans)|, dx, dy)
    requires Halfwords(dev.clip, dx, dy) && Total(spans) <= 150 * 0x8000
    requires s < |spans| && i < spans[s].count && dev.Inside(px, py)
    requires var k := Total(spans[..s]) + i; px == dx + k % 150 && py == dy + k / 150
    ensures var c := if spans[s].index < 14 then palette[spans[s].index] else 0;
            dev.At(px, py) ==
            if dev.clip.left <= px < dev.clip.right && dev.clip.top <= py < dev.clip.bottom && c / 0x100_0000 != 0
            then c else dev.Of(before, px, py)
  {
    hide Expanded, Drawn, Total;
    var image := Expanded(palette, spans);
    ExpandedLength(palette, spans);
    ExpandedAt(palette, spans, s, i);
    DrawnIsPicture(image, |image|, dev.clip, dx, dy, px, py, dev.Of(before, px, py));
  }

  // ... and every device pixel that lies on no picture pixel is as it was.
  lemma BesideThePicture(dev: Device, before: seq<Colour>, palette: seq<Colour>, spans: seq<Span>, dx: int, dy: int,
                         px: int, py: int)
    requires |before| == dev.width * dev.height && |palette| == 14
    requires Shows(dev, before, Expanded(palette, spans), |Expanded(palette, spans)|, dx, dy)
    requires Halfwords(dev.clip, dx, dy) && Total(spans) <= 150 * 0x8000 && dev.Inside(px, py)
    requires var x, y := px - dx, py - dy; x < 0 || x >= 150 || y < 0 || 150 * y + x >= Total(spans)
    ensures dev.At(px, py) == dev.Of(before, px, py)
  {
    hide Expanded, Drawn, Total;
    var image := Expanded(palette, spans);
    ExpandedLength(palette, spans);
    DrawnIsPicture(image, |image|, dev.clip, dx, dy, px, py, dev.Of(before, px, py));
  }
}
