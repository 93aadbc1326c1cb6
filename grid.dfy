/** The pixel grid the encoder works on: an abstraction of a GD image, a
    `BufferedImage` or a Jimp image. Pixels are stored in row-major scan order,
    pixel (x, y) at scan index y * width + x. */
module Grids {
  import opened Pixels

  /** a <= b implies a * c <= b * c for a non-negative c. */
  lemma {:induction false} MulMonotone(a: nat, b: nat, c: nat)
    requires a <= b
    ensures a * c <= b * c
  {
    if c > 0 {
      MulMonotone(a, b, c - 1);
      assert a * c == a * (c - 1) + a && b * c == b * (c - 1) + b;
    }
  }

  /** Quotient and remainder are unique. */
  lemma DivModUnique(n: nat, d: nat, q: nat, r: nat)
    requires 0 <= r < d && n == q * d + r
    ensures n / d == q && n % d == r
  {
    var q', r' := n / d, n % d;
    assert n == q' * d + r';
    if q' < q {
      MulMonotone(q' + 1, q, d);
      assert false;
    } else if q < q' {
      MulMonotone(q + 1, q', d);
      assert false;
    }
  }

  /** Pixel (x, y) of a width-column grid sits at scan index y * width + x,
      inside the grid, and scan index y * width + x is pixel (x, y) again. */
  lemma ScanIndex(x: nat, y: nat, width: nat, height: nat)
    requires x < width && y < height
    ensures y * width + x < width * height
    ensures (y * width + x) % width == x && (y * width + x) / width == y
  {
    MulMonotone(y + 1, height, width);
    DivModUnique(y * width + x, width, y, x);
  }

  /** Scan index i of a width × height grid is pixel (i % width, i / width). */
  lemma ScanCoordinates(i: nat, width: nat, height: nat)
    requires i < width * height
    ensures width > 0
    ensures 0 <= i / width < height && (i / width) * width + i % width == i
  {
    var y := i / width;
    assert y * width + i % width == i;
    if y >= height {
      MulMonotone(height, y, width);
    }
  }

  class Grid {
    const width: nat
    const height: nat
    const pixels: array<Pixel>

    ghost predicate Valid()
      reads this
    {
      pixels.Length == width * height
    }

    /** A new image of the given dimensions holding the given pixels. */
    constructor (width: nat, height: nat, contents: seq<Pixel>)
      requires |contents| == width * height
      ensures Valid() && this.width == width && this.height == height
      ensures fresh(pixels) && pixels[..] == contents
    {
      this.width := width;
      this.height := height;
      pixels := new Pixel[|contents|](i requires 0 <= i < |contents| => contents[i]);
    }

    /** `imagecolorat`, `getRGB` or `getPixelColor` at (x, y), unpacked. */
    function PixelAt(x: nat, y: nat): Pixel
      reads this, pixels
      requires Valid() && x < width && y < height
    {
      ScanIndex(x, y, width, height);
      pixels[y * width + x]
    }

    /** `imagesetpixel`, `setRGB` or `setPixelColor` at (x, y): only that
        pixel changes. */
    method SetPixel(x: nat, y: nat, p: Pixel)
      requires Valid() && x < width && y < height
      modifies pixels
      ensures y * width + x < pixels.Length && pixels[y * width + x] == p
      ensures forall j :: 0 <= j < pixels.Length && j != y * width + x ==> pixels[j] == old(pixels[j])
    {
      ScanIndex(x, y, width, height);
      pixels[y * width + x] := p;
    }

    /** A fresh image with the same dimensions and pixels. */
    method Clone() returns (copy: Grid)
      requires Valid()
      ensures fresh(copy) && fresh(copy.pixels) && copy.Valid()
      ensures copy.width == width && copy.height == height
      ensures copy.pixels[..] == pixels[..]
    {
      copy := new Grid(width, height, pixels[..]);
    }
  }
}
