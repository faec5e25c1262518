/** Scaling by sampling and the clipped blit of a decoded icon. */
module IconBlits {
  import opened Bits
  import opened Devices

  const MAX_PIXELS := 4096

  lemma MulMono(a: nat, b: nat, k: nat)
    requires a <= b
    ensures a * k <= b * k
  {
  }

  lemma DivLess(n: nat, d: nat, q: nat)
    requires d > 0 && n < q * d
    ensures n / d < q
  {
    if n / d >= q {
      MulMono(q, n / d, d);
    }
  }

  // Source column of target column x when `size` source columns fill `render` target columns.
  function Sample(x: nat, size: nat, render: nat): (s: nat)
    requires x < render && size > 0
    ensures s < size
  {
    DivLessSample(x, size, render);
    x * size / render
  }

  lemma DivLessSample(x: nat, size: nat, render: nat)
    requires x < render && size > 0
    ensures x * size / render < size
  {
    MulStrict(x, render, size);
    DivLess(x * size, render, size);
  }

  lemma MulStrict(x: nat, y: nat, k: nat)
    requires x < y && k > 0
    ensures x * k < k * y
  {
    MulMono(x + 1, y, k);
  }

  // The sampled column is the one that covers the target column's left edge.
  lemma SampleCovers(x: nat, size: nat, render: nat)
    requires x < render && size > 0
    ensures Sample(x, size, render) * render <= x * size < (Sample(x, size, render) + 1) * render
  {
    var n := x * size;
    assert n == n / render * render + n % render;
  }

  lemma SampleIdentity(x: nat, size: nat)
    requires x < size
    ensures Sample(x, size, size) == x
  {
    SampleCovers(x, size, size);
    var s := Sample(x, size, size);
    if s < x {
      MulMono(s + 1, x, size);
    } else if s > x {
      MulMono(x + 1, s, size);
    }
  }

  lemma SampleMonotone(x: nat, x': nat, size: nat, render: nat)
    requires x <= x' < render && size > 0
    ensures Sample(x, size, render) <= Sample(x', size, render)
  {
    SampleCovers(x, size, render);
    SampleCovers(x', size, render);
    MulMono(x, x', size);
    if Sample(x, size, render) > Sample(x', size, render) {
      MulMono(Sample(x', size, render) + 1, Sample(x, size, render), render);
    }
  }

  // ----- painting

  type Rgb = c: nat | c < 0x100_0000

  function Opaque(c: Rgb): (r: Colour)
    ensures r / 0x100_0000 == 0xFF && r % 0x100_0000 == c
  {
    0xFF00_0000 + c
  }

  // A decoded icon: trans is the palette index not painted, or -1.
  datatype Icon = Icon(w: nat, h: nat, palette: seq<Rgb>, trans: int)

  ghost predicate Decoded(icon: Icon, raw: seq<byte>)
  {
    icon.w > 0 && icon.h > 0 && icon.w * icon.h <= |raw| && |icon.palette| == 256
  }

  function SourceIndex(icon: Icon, sx: nat, sy: nat): (k: nat)
    requires sx < icon.w && sy < icon.h
    ensures k < icon.w * icon.h
  {
    CellInRange(icon.w, icon.h, sx, sy);
    sy * icon.w + sx
  }

  // The palette index sampled for target pixel (x, y) of a render_w by render_h picture.
  function Index(icon: Icon, raw: seq<byte>, rw: nat, rh: nat, x: nat, y: nat): byte
    requires Decoded(icon, raw) && x < rw && y < rh
  {
    raw[SourceIndex(icon, Sample(x, icon.w, rw), Sample(y, icon.h, rh))]
  }

  // The colour of device pixel (px, py) once the icon is drawn with its corner at (dx, dy).
  function Painted(icon: Icon, raw: seq<byte>, rw: nat, rh: nat, clip: Rect,
                   dx: int, dy: int, px: int, py: int, before: Colour): Colour
    requires Decoded(icon, raw)
  {
    if InRect(clip, px, py) && 0 <= px - dx < rw && 0 <= py - dy < rh then
      var p := Index(icon, raw, rw, rh, px - dx, py - dy);
      if p == icon.trans then before else Opaque(icon.palette[p])
    else before
  }

  // The inner loop's body, for target pixel (x, y).
  method BlitPixel(dev: Device, icon: Icon, raw: array<byte>, rw: nat, rh: nat, dx: int, dy: int, x: nat, y: nat, srcY: nat)
    requires dev.Valid() && Decoded(icon, raw[..]) && x < rw && y < rh && srcY == Sample(y, icon.h, rh)
    requires 0 <= dy + y < dev.height && dev.clip.top <= dy + y < dev.clip.bottom
    modifies dev.pixels
    ensures forall px, py :: dev.Inside(px, py) ==>
      dev.At(px, py) == if py == dy + y && px == dx + x
                        then Painted(icon, raw[..], rw, rh, dev.clip, dx, dy, px, py, dev.Of(old(dev.pixels[..]), px, py))
                        else dev.Of(old(dev.pixels[..]), px, py)
  {
    var outX, outY := dx + x, dy + y;
    if outX < 0 || outX >= dev.width || outX < dev.clip.left || outX >= dev.clip.right {
      return;
    }
    var srcX := x * icon.w / rw;
    assert srcX == Sample(x, icon.w, rw);
    if srcX >= icon.w {
      srcX := icon.w - 1;
    }
    CellInRange(icon.w, icon.h, srcX, srcY);
    var p := raw[srcY * icon.w + srcX];
    assert p == Index(icon, raw[..], rw, rh, x, y);
    if p == icon.trans {
      return;
    }
    hide Index, Sample;
    dev.Put(outX, outY, Opaque(icon.palette[p]));
  }

  method BlitRow(dev: Device, icon: Icon, raw: array<byte>, rw: nat, rh: nat, dx: int, dy: int, y: nat)
    requires dev.Valid() && Decoded(icon, raw[..]) && y < rh
    requires 0 <= dy + y < dev.height && dev.clip.top <= dy + y < dev.clip.bottom
    modifies dev.pixels
    ensures forall px, py :: dev.Inside(px, py) ==>
      dev.At(px, py) == if py == dy + y then Painted(icon, raw[..], rw, rh, dev.clip, dx, dy, px, py, dev.Of(old(dev.pixels[..]), px, py))
                        else dev.Of(old(dev.pixels[..]), px, py)
  {
    var srcY := y * icon.h / rh;
    assert srcY == Sample(y, icon.h, rh);
    if srcY >= icon.h {
      srcY := icon.h - 1;
    }
    hide Index, Sample;
    for x := 0 to rw
      invariant forall px, py :: dev.Inside(px, py) ==>
        dev.At(px, py) == if py == dy + y && px - dx < x
                          then Painted(icon, raw[..], rw, rh, dev.clip, dx, dy, px, py, dev.Of(old(dev.pixels[..]), px, py))
                          else dev.Of(old(dev.pixels[..]), px, py)
    {
      BlitPixel(dev, icon, raw, rw, rh, dx, dy, x, y, srcY);
    }
  }

  // Every pixel of the device is what the sampled icon says, or as it was.
  method Blit(dev: Device, icon: Icon, raw: array<byte>, rw: nat, rh: nat, dx: int, dy: int)
    requires dev.Valid() && Decoded(icon, raw[..])
    modifies dev.pixels
    ensures forall px, py :: dev.Inside(px, py) ==>
      dev.At(px, py) == Painted(icon, raw[..], rw, rh, dev.clip, dx, dy, px, py, dev.Of(old(dev.pixels[..]), px, py))
  {
    for y := 0 to rh
      invariant forall px, py :: dev.Inside(px, py) ==>
        dev.At(px, py) == if py - dy < y
                          then Painted(icon, raw[..], rw, rh, dev.clip, dx, dy, px, py, dev.Of(old(dev.pixels[..]), px, py))
                          else dev.Of(old(dev.pixels[..]), px, py)
    {
      var outY := dy + y;
      if outY < 0 || outY >= dev.height || outY < dev.clip.top || outY >= dev.clip.bottom {
        continue;
      }
      BlitRow(dev, icon, raw, rw, rh, dx, dy, y);
    }
  }
}
