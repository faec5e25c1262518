/** A drawing surface: rows of pixels in one array, and a clip rectangle. */
module Devices {

  type Colour = c: nat | c < 0x1_0000_0000

  datatype Rect = Rect(left: int, top: int, right: int, bottom: int)

  predicate InRect(r: Rect, x: int, y: int)
  {
    r.left <= x < r.right && r.top <= y < r.bottom
  }

  function Cell(width: nat, x: nat, y: nat): nat
  {
    y * width + x
  }

  // Cells go row by row.
  lemma CellsRowByRow(width: nat, x: nat, y: nat)
    ensures Cell(width, 0, 0) == 0
    ensures Cell(width, x + 1, y) == Cell(width, x, y) + 1
    ensures Cell(width, x, y + 1) == Cell(width, x, y) + width
  {
  }

  lemma CellInRange(width: nat, height: nat, x: nat, y: nat)
    requires x < width && y < height
    ensures Cell(width, x, y) < width * height
  {
    assert y * width + width == (y + 1) * width;
    assert (y + 1) * width <= height * width;
  }

  // Different pixels are different cells.
  lemma CellsDiffer(width: nat, x: nat, y: nat, x': nat, y': nat)
    requires x < width && x' < width && (x != x' || y != y')
    ensures Cell(width, x, y) != Cell(width, x', y')
  {
    if y < y' {
      assert y' * width >= (y + 1) * width == y * width + width;
    } else if y' < y {
      assert y * width >= (y' + 1) * width == y' * width + width;
    }
  }

  class Device {
    const width: nat
    const height: nat
    const clip: Rect
    const pixels: array<Colour>

    ghost predicate Valid()
    {
      pixels.Length == width * height
    }

    predicate Inside(x: int, y: int)
    {
      0 <= x < width && 0 <= y < height
    }

    // Pixel (x, y) of a frame of this size, and of the frame on show.
    ghost function Of(frame: seq<Colour>, x: int, y: int): Colour
      requires |frame| == width * height && Inside(x, y)
    {
      CellInRange(width, height, x, y);
      frame[Cell(width, x, y)]
    }

    ghost function At(x: int, y: int): Colour
      requires Valid() && Inside(x, y)
      reads pixels
    {
      Of(pixels[..], x, y)
    }

    constructor (width: nat, height: nat, clip: Rect, pixels: array<Colour>)
      requires pixels.Length == width * height
      ensures Valid() && this.width == width && this.height == height
      ensures this.clip == clip && this.pixels == pixels
    {
      this.width, this.height, this.clip, this.pixels := width, height, clip, pixels;
    }

    method Put(x: int, y: int, c: Colour)
      requires Valid() && Inside(x, y)
      modifies pixels
      ensures At(x, y) == c
      ensures forall x', y' :: Inside(x', y') && (x' != x || y' != y) ==> At(x', y') == Of(old(pixels[..]), x', y')
    {
      CellInRange(width, height, x, y);
      pixels[y * width + x] := c;
      forall x', y' | Inside(x', y') && (x' != x || y' != y)
        ensures At(x', y') == Of(old(pixels[..]), x', y')
      {
        CellInRange(width, height, x', y');
        CellsDiffer(width, x, y, x', y');
      }
    }
  }
}
