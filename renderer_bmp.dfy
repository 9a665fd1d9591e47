/** image_load_bmp of Renderer/src/renderer.c: the 54-byte header is
    checked and the pixel rows that follow it are decoded into a packed
    ARGB image. The file is given as its bytes; opening and reading it is
    I/O and not part of this model. */
module RendererBmp {
  import opened Common
  import opened NumberTheory
  import opened Renderer

  /** The Image record: width, height and width * height packed pixels,
      row-major from the top row. */
  datatype Image = Image(width: int, height: int, pixels: seq<Pixel>)

  /** The header image_load_bmp reads before the rows. */
  const HEADER_SIZE: nat := 54

  /** A little-endian 32-bit two's-complement int at offset off. */
  function I32At(file: seq<Byte>, off: nat): (v: int)
    requires off + 4 <= |file|
    ensures -0x8000_0000 <= v < 0x8000_0000
  {
    var u := file[off] as int + 0x100 * file[off + 1] as int + 0x1_0000 * file[off + 2] as int + 0x100_0000 * file[off + 3] as int;
    if u >= 0x8000_0000 then u - 0x1_0000_0000 else u
  }

  /** A little-endian 16-bit two's-complement short at offset off. */
  function I16At(file: seq<Byte>, off: nat): (v: int)
    requires off + 2 <= |file|
    ensures -0x8000 <= v < 0x8000
  {
    var u := file[off] as int + 0x100 * file[off + 1] as int;
    if u >= 0x8000 then u - 0x1_0000 else u
  }

  /** The three header fields image_load_bmp uses: the width at offset
      18, the signed height at 22 and the bits per pixel at 28. */
  datatype Header = Header(width: int, height: int, bpp: int)

  function HeaderOf(file: seq<Byte>): Header
    requires |file| >= HEADER_SIZE
  {
    Header(I32At(file, 18), I32At(file, 22), I16At(file, 28))
  }

  /** The bytes per stored row: bits_per_pixel * width rounded up to a
      whole number of 32-bit words. */
  function RowSize(bpp: int, width: int): int
  {
    ((bpp * width + 31) / 32) * 4
  }

  /** A header the row loop can decode from the file: 24 or 32 bits per
      pixel, a width that is not negative, and all |height| rows present. */
  predicate Decodable(file: seq<Byte>, h: Header)
  {
    && (h.bpp == 24 || h.bpp == 32) && h.width >= 0
    && |file| >= HEADER_SIZE + Abs(h.height) * RowSize(h.bpp, h.width)
  }

  /** The files the model decodes: a whole header, the "BM" magic, and a
      decodable header. */
  predicate Accepted(file: seq<Byte>)
  {
    && |file| >= HEADER_SIZE
    && file[0] == 'B' as int && file[1] == 'M' as int
    && Decodable(file, HeaderOf(file))
  }

  /** The file row that image row r comes from: a positive height stores
      the rows bottom-up. */
  function FileRow(height: int, r: int): int
  {
    if height > 0 then Abs(height) - 1 - r else r
  }

  /** The pixel image_load_bmp stores at index k: the image row and column
      of k pick the file row and the pixel's bytes within it, stored blue,
      green, red (and alpha for 32 bits); a 24-bit pixel is opaque. */
  function BmpPixel(file: seq<Byte>, h: Header, k: int): Pixel
    requires Decodable(file, h) && 0 <= k < h.width * Abs(h.height)
  {
    CellOf(h.width, Abs(h.height), k);
    var y := FileRow(h.height, k / h.width);
    var off := PixelOffset(file, h, y, k % h.width);
    Pack(Color(file[off + 2], file[off + 1], file[off], if h.bpp == 32 then file[off + 3] else 255))
  }

  /** Where the bytes of column x of file row y start. */
  function PixelOffset(file: seq<Byte>, h: Header, y: int, x: int): (off: int)
    requires Decodable(file, h) && 0 <= y < Abs(h.height) && 0 <= x < h.width
    ensures HEADER_SIZE <= off && off + 3 <= |file| && (h.bpp == 32 ==> off + 4 <= |file|)
  {
    RowBytes(h.bpp, h.width, x);
    RowInFile(file, h, y);
    HEADER_SIZE + y * RowSize(h.bpp, h.width) + x * (h.bpp / 8)
  }

  /** A stored row is a whole number of 4-byte words, holds the width's
      pixels and pads them with fewer than four bytes. */
  lemma RowSizeProperties(bpp: int, width: int)
    requires (bpp == 24 || bpp == 32) && width >= 0
    ensures RowSize(bpp, width) % 4 == 0
    ensures width * (bpp / 8) <= RowSize(bpp, width) < width * (bpp / 8) + 4
  {
    var q := (bpp * width + 31) / 32;
    assert bpp * width == 8 * (width * (bpp / 8));
    DivModUnique(bpp * width + 31, 32, q, (bpp * width + 31) % 32);
  }

  /** The bytes of pixel x lie inside its row. */
  lemma RowBytes(bpp: int, width: int, x: int)
    requires (bpp == 24 || bpp == 32) && 0 <= x < width
    ensures 0 <= x * (bpp / 8) && x * (bpp / 8) + bpp / 8 <= RowSize(bpp, width)
  {
    RowSizeProperties(bpp, width);
    MulLe(x + 1, width, bpp / 8);
    MulSign(x, bpp / 8);
  }

  /** Every file row below |height| lies inside the file. */
  lemma RowInFile(file: seq<Byte>, h: Header, y: int)
    requires Decodable(file, h) && 0 <= y < Abs(h.height)
    ensures 0 <= y * RowSize(h.bpp, h.width)
    ensures HEADER_SIZE + y * RowSize(h.bpp, h.width) + RowSize(h.bpp, h.width) <= |file|
  {
    var R := RowSize(h.bpp, h.width);
    RowSizeProperties(h.bpp, h.width);
    MulSign(h.width, h.bpp / 8);
    MulLe(y + 1, Abs(h.height), R);
    MulSign(y, R);
  }

  /** A 24-bit file decodes to opaque pixels. */
  lemma Opaque24(file: seq<Byte>, h: Header, k: int)
    requires Decodable(file, h) && h.bpp == 24 && 0 <= k < h.width * Abs(h.height)
    ensures AlphaOf(BmpPixel(file, h, k)) == 255
  {
    CellOf(h.width, Abs(h.height), k);
    var off := PixelOffset(file, h, FileRow(h.height, k / h.width), k % h.width);
    UnpackPack(Color(file[off + 2], file[off + 1], file[off], 255));
  }

  /** The sign of the height only decides the row order: image row r of a
      bottom-up file (positive height) is image row |height| - 1 - r of the
      same bytes read top-down (negative height). */
  lemma FlipRows(file: seq<Byte>, h: Header, r: int, x: int)
    requires Decodable(file, h) && h.height > 0 && 0 <= r < h.height && 0 <= x < h.width
    ensures Decodable(file, h.(height := -h.height))
    ensures 0 <= r * h.width + x < h.width * h.height
    ensures 0 <= (h.height - 1 - r) * h.width + x < h.width * Abs(-h.height)
    ensures BmpPixel(file, h, r * h.width + x) == BmpPixel(file, h.(height := -h.height), (h.height - 1 - r) * h.width + x)
  {
    CellIndex(h.width, h.height, x, r);
    CellIndex(h.width, h.height, x, h.height - 1 - r);
  }

  /** image_load_bmp over the file's bytes: None for a rejected file,
      otherwise an image of width x |height| whose every pixel is BmpPixel. */
  method LoadBmp(file: seq<Byte>) returns (img: Option<Image>)
    ensures img.None? <==> !Accepted(file)
    ensures img.Some? ==>
      && img.value.width == HeaderOf(file).width && img.value.height == Abs(HeaderOf(file).height)
      && |img.value.pixels| == img.value.width * img.value.height
      && forall k :: 0 <= k < |img.value.pixels| ==> img.value.pixels[k] == BmpPixel(file, HeaderOf(file), k)
  {
    if |file| < HEADER_SIZE {
      return None;
    }
    if file[0] != 'B' as int || file[1] != 'M' as int {
      return None;
    }
    var width := I32At(file, 18);
    var height := I32At(file, 22);
    var bpp := I16At(file, 28);
    ghost var h := Header(width, height, bpp);
    assert h == HeaderOf(file);
    if bpp != 24 && bpp != 32 {
      return None;
    }
    if width < 0 {
      return None;
    }
    var imgHeight := Abs(height);
    var rowSize := ((bpp * width + 31) / 32) * 4;
    if |file| < HEADER_SIZE + imgHeight * rowSize {
      return None;
    }
    MulSign(width, imgHeight);
    var pixels := new Pixel[width * imgHeight];
    CellsInRange(h);
    for y := 0 to imgHeight
      invariant forall k :: 0 <= k < pixels.Length && FileRow(height, RowOf(width, k)) < y ==>
        pixels[k] == BmpPixel(file, h, k)
    {
      DecodeRow(file, width, height, bpp, rowSize, pixels, y);
    }
    RowsComplete(file, h, pixels[..]);
    return Some(Image(width, imgHeight, pixels[..]));
  }

  /** One iteration of image_load_bmp's row loop: the pixels of file row y
      (the row_size bytes from offset 54 + y * row_size, which fread reads
      into the row buffer) are decoded into their image row. */
  method DecodeRow(file: seq<Byte>, width: int, height: int, bpp: int, rowSize: int, pixels: array<Pixel>, y: int)
    requires Decodable(file, Header(width, height, bpp)) && rowSize == RowSize(bpp, width)
    requires 0 <= y < Abs(height) && pixels.Length == width * Abs(height)
    requires forall k :: 0 <= k < pixels.Length && FileRow(height, RowOf(width, k)) < y ==>
      pixels[k] == BmpPixel(file, Header(width, height, bpp), k)
    modifies pixels
    ensures forall k :: 0 <= k < pixels.Length && FileRow(height, RowOf(width, k)) < y + 1 ==>
      pixels[k] == BmpPixel(file, Header(width, height, bpp), k)
  {
    ghost var h := Header(width, height, bpp);
    var imgHeight := Abs(height);
    var row := HEADER_SIZE + y * rowSize;
    for x := 0 to width
      invariant forall k :: 0 <= k < pixels.Length && FileRow(height, RowOf(width, k)) < y ==>
        pixels[k] == BmpPixel(file, h, k)
      invariant forall k :: 0 <= k < pixels.Length && FileRow(height, RowOf(width, k)) == y && ColOf(width, k) < x ==>
        pixels[k] == BmpPixel(file, h, k)
    {
      var index := if height > 0 then (imgHeight - 1 - y) * width + x else y * width + x;
      DecodeStep(file, h, y, x, index);
      ghost var off := PixelOffset(file, h, y, x);
      assert row + x * (bpp / 8) == off;
      var b := file[row + x * (bpp / 8) + 0];
      var g := file[row + x * (bpp / 8) + 1];
      var r := file[row + x * (bpp / 8) + 2];
      var a := if bpp == 32 then file[row + x * 4 + 3] else 255;
      pixels[index] := Pack(Color(r, g, b, a));
    }
    CellsInRange(h);
  }

  /** The index image_load_bmp writes for file row y and column x is the
      only cell whose file row is y and column is x, and BmpPixel reads the
      bytes of that column in that row. */
  lemma DecodeStep(file: seq<Byte>, h: Header, y: int, x: int, index: int)
    requires Decodable(file, h) && 0 <= y < Abs(h.height) && 0 <= x < h.width
    requires index == if h.height > 0 then (Abs(h.height) - 1 - y) * h.width + x else y * h.width + x
    ensures 0 <= index < h.width * Abs(h.height)
    ensures FileRow(h.height, RowOf(h.width, index)) == y && ColOf(h.width, index) == x
    ensures forall k :: 0 <= k < h.width * Abs(h.height) && k != index ==>
      !(FileRow(h.height, RowOf(h.width, k)) == y && ColOf(h.width, k) == x)
    ensures PixelOffset(file, h, y, x) == HEADER_SIZE + y * RowSize(h.bpp, h.width) + x * (h.bpp / 8)
    ensures var off := PixelOffset(file, h, y, x);
      BmpPixel(file, h, index) == Pack(Color(file[off + 2], file[off + 1], file[off], if h.bpp == 32 then file[off + 3] else 255))
  {
    var W, H := h.width, Abs(h.height);
    var r := if h.height > 0 then H - 1 - y else y;
    CellIndex(W, H, x, r);
    var off := PixelOffset(file, h, y, x);
    forall k | 0 <= k < W * H && k != index
      ensures !(FileRow(h.height, RowOf(W, k)) == y && ColOf(W, k) == x)
    {
      CellOf(W, H, k);
    }
  }

  /** Every index of the image has a file row below |height| and a
      column below the width. */
  lemma CellsInRange(h: Header)
    requires h.width >= 0
    ensures forall k :: 0 <= k < h.width * Abs(h.height) ==>
      0 <= FileRow(h.height, RowOf(h.width, k)) < Abs(h.height) && 0 <= ColOf(h.width, k) < h.width
  {
    forall k | 0 <= k < h.width * Abs(h.height)
      ensures 0 <= FileRow(h.height, RowOf(h.width, k)) < Abs(h.height) && 0 <= ColOf(h.width, k) < h.width
    {
      CellOf(h.width, Abs(h.height), k);
    }
  }

  /** Once every file row has been decoded, every pixel has. */
  lemma RowsComplete(file: seq<Byte>, h: Header, pixels: seq<Pixel>)
    requires Decodable(file, h) && |pixels| == h.width * Abs(h.height)
    requires forall k :: 0 <= k < |pixels| && FileRow(h.height, RowOf(h.width, k)) < Abs(h.height) ==>
      pixels[k] == BmpPixel(file, h, k)
    ensures forall k :: 0 <= k < |pixels| ==> pixels[k] == BmpPixel(file, h, k)
  {
    CellsInRange(h);
  }
}
