/** The in-memory image of the ImageProcessing examples (the Image struct of
    02_bmp_writer.c, 04_color_operations.c, 05_transformations.c and
    06_image_effects.c): width * height pixels in row-major order from the
    top-left corner, each three bytes R, G, B. */
module Images {
  import opened Common
  import opened NumberTheory

  /** One pixel's three bytes. */
  datatype RGB = RGB(r: Byte, g: Byte, b: Byte)

  /** The pixels a buffer of n three-byte groups holds, in order. */
  function Triples(s: seq<Byte>, n: nat): (p: seq<RGB>)
    requires |s| == 3 * n
    ensures |p| == n
  {
    seq(n, k requires 0 <= k < n => RGB(s[3 * k], s[3 * k + 1], s[3 * k + 2]))
  }

  /** Reading a buffer as pixels loses nothing: two buffers with the same
      pixels are the same buffer. */
  lemma TriplesInjective(s: seq<Byte>, t: seq<Byte>, n: nat)
    requires |s| == 3 * n && |t| == 3 * n && Triples(s, n) == Triples(t, n)
    ensures s == t
  {
    forall i | 0 <= i < |s|
      ensures s[i] == t[i]
    {
      var k := i / 3;
      assert Triples(s, n)[k] == Triples(t, n)[k];
    }
  }

  /** after is before, a grid of width w, with the pixel at column x of row
      y replaced by p. */
  ghost predicate Updated(after: seq<RGB>, before: seq<RGB>, w: int, x: int, y: int, p: RGB)
  {
    |after| == |before| &&
    forall k :: 0 <= k < |before| ==> after[k] == if ColOf(w, k) == x && RowOf(w, k) == y then p else before[k]
  }

  class Image {
    const width: int
    const height: int
    const pixels: array<Byte>

    ghost predicate Valid()
      reads this
    {
      0 <= width && 0 <= height && pixels.Length == width * height * 3
    }

    /** The image's pixels, row by row from the top. */
    ghost function Pixels(): (p: seq<RGB>)
      reads this, pixels
      requires Valid()
      ensures |p| == width * height
    {
      Triples(pixels[..], width * height)
    }

    /** Column and row of pixel k. */
    function Col(k: int): int
      reads this
    {
      ColOf(width, k)
    }

    function Row(k: int): int
      reads this
    {
      RowOf(width, k)
    }

    /** create_image: a width x height image whose bytes calloc has zeroed. */
    constructor (w: nat, h: nat)
      ensures Valid() && width == w && height == h && fresh(pixels)
      ensures forall k :: 0 <= k < width * height ==> Pixels()[k] == RGB(0, 0, 0)
    {
      width, height := w, h;
      pixels := new Byte[w * h * 3](_ => 0);
    }

    /** The three bytes at (k * 3), (k * 3 + 1) and (k * 3 + 2), where k is
        y * width + x. */
    method ReadPixel(k: int) returns (p: RGB)
      requires Valid() && 0 <= k < width * height
      ensures p == Pixels()[k]
    {
      p := RGB(pixels[k * 3], pixels[k * 3 + 1], pixels[k * 3 + 2]);
    }

    /** The pixel at column x of row y. */
    method Get(x: int, y: int) returns (p: RGB)
      requires Valid() && 0 <= x < width && 0 <= y < height
      ensures 0 <= y * width + x < width * height
      ensures Col(y * width + x) == x && Row(y * width + x) == y
      ensures p == Pixels()[y * width + x]
    {
      CellIndex(width, height, x, y);
      p := ReadPixel(y * width + x);
    }

    /** set_pixel inside the image: the pixel at column x of row y becomes
        p, and only that pixel changes. */
    method Put(x: int, y: int, p: RGB)
      requires Valid() && 0 <= x < width && 0 <= y < height
      modifies pixels
      ensures Updated(Pixels(), old(Pixels()), width, x, y, p)
    {
      var index := y * width + x;
      CellIndex(width, height, x, y);
      forall k | 0 <= k < width * height
        ensures (Col(k) == x && Row(k) == y) <==> k == index
      {
        CellOf(width, height, k);
      }
      WritePixel(index, p);
    }

    /** Writes the three bytes of pixel k and no others. */
    method WritePixel(k: int, p: RGB)
      requires Valid() && 0 <= k < width * height
      modifies pixels
      ensures Pixels() == old(Pixels())[k := p]
      ensures forall i :: 0 <= i < pixels.Length && !(k * 3 <= i < k * 3 + 3) ==> pixels[i] == old(pixels[i])
    {
      pixels[k * 3] := p.r;
      pixels[k * 3 + 1] := p.g;
      pixels[k * 3 + 2] := p.b;
      assert Pixels() == old(Pixels())[k := p] by {
        forall j | 0 <= j < width * height
          ensures Pixels()[j] == old(Pixels())[k := p][j]
        {
        }
      }
    }
  }
}
