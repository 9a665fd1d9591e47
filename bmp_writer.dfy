/** The drawing primitives of ImageProcessing/examples/02_bmp_writer.c over
    the in-memory image: the clipped set_pixel, the rectangle, the circle
    and the Bresenham line built on it, the checkerboard pattern, and the
    row layout of the BMP pixel data. */
module BmpWriter {
  import opened Common
  import opened NumberTheory
  import opened Images
  import Renderer

  /** after is before with every cell (x, y) of a grid of width w for which
      lit(x, y) holds set to c. */
  ghost predicate Lit(after: seq<RGB>, before: seq<RGB>, w: int, lit: Renderer.CellSet, c: RGB)
  {
    |after| == |before| &&
    forall k :: 0 <= k < |before| ==> after[k] == if lit(ColOf(w, k), RowOf(w, k)) then c else before[k]
  }

  /** Nothing lit: the image is unchanged. */
  lemma LitNone(p: seq<RGB>, w: int, lit: Renderer.CellSet, c: RGB)
    requires forall x, y :: !lit(x, y)
    ensures Lit(p, p, w, lit, c)
  {
  }

  /** The same cells under another description. */
  lemma LitSame(p: seq<RGB>, w: int, lit: Renderer.CellSet, lit': Renderer.CellSet, c: RGB, base: seq<RGB>)
    requires Lit(p, base, w, lit, c)
    requires forall x, y :: lit(x, y) == lit'(x, y)
    ensures Lit(p, base, w, lit', c)
  {
  }

  /** Setting the cells of add over an image that has the cells of before
      set sets the cells of their union; setting a cell twice to the same
      colour is setting it once. */
  lemma LitAdd(p0: seq<RGB>, p1: seq<RGB>, w: int, before: Renderer.CellSet, add: Renderer.CellSet,
               after: Renderer.CellSet, c: RGB, base: seq<RGB>)
    requires Lit(p0, base, w, before, c) && Lit(p1, p0, w, add, c)
    requires forall x, y :: after(x, y) == (before(x, y) || add(x, y))
    ensures Lit(p1, base, w, after, c)
  {
  }

  /** set_pixel: inside the image the pixel at (x, y) becomes c and no
      other changes; outside the image nothing changes. */
  method SetPixel(img: Image, x: int, y: int, c: RGB)
    requires img.Valid()
    modifies img.pixels
    ensures Lit(img.Pixels(), old(img.Pixels()), img.width, Renderer.Single(x, y), c)
    ensures !(0 <= x < img.width && 0 <= y < img.height) ==> img.Pixels() == old(img.Pixels())
  {
    if x >= 0 && x < img.width && y >= 0 && y < img.height {
      img.Put(x, y, c);
    } else {
      forall k | 0 <= k < img.width * img.height
        ensures !(ColOf(img.width, k) == x && RowOf(img.width, k) == y)
      {
        CellOf(img.width, img.height, k);
      }
    }
  }

  /** The row layout of the pixel data write_bmp emits: each row of width
      pixels is 3 * width bytes, padded with zero bytes to a multiple of 4. */
  function RowSize(width: int): int
  {
    ((width * 3 + 3) / 4) * 4
  }

  function Padding(width: int): int
  {
    RowSize(width) - width * 3
  }

  /** A row is a whole number of 4-byte words, the padding is 0 to 3
      bytes, and no shorter multiple of 4 holds the row. */
  lemma RowLayout(width: nat)
    ensures RowSize(width) % 4 == 0
    ensures 0 <= Padding(width) < 4
    ensures forall n :: 0 <= n < RowSize(width) && n % 4 == 0 ==> n < width * 3
  {
    var q := (width * 3 + 3) / 4;
    DivModUnique(RowSize(width), 4, q, 0);
  }

  /** The cells of draw_rect(x, y, w, h): columns x .. x + w - 1 of rows
      y .. y + h - 1. */
  function Rect(x: int, y: int, w: int, h: int): (lit: Renderer.CellSet)
    ensures forall a, b :: lit(a, b) == (x <= a < x + w && y <= b < y + h)
  {
    (a: int, b: int) => x <= a < x + w && y <= b < y + h
  }

  /** The cells of the rectangle draw_rect has visited before (px, py), in
      row-major order. */
  function RectUpTo(x: int, y: int, w: int, h: int, py: int, px: int): (lit: Renderer.CellSet)
    ensures forall a, b :: lit(a, b) == (x <= a < x + w && y <= b < y + h && (b < py || (b == py && a < px)))
  {
    (a: int, b: int) => x <= a < x + w && y <= b < y + h && (b < py || (b == py && a < px))
  }

  /** The inner loop of draw_rect: row py of the rectangle. */
  method DrawRectRow(img: Image, x: int, y: int, w: int, h: int, py: int, c: RGB, ghost before: seq<RGB>)
    requires img.Valid() && y <= py < y + h
    requires Lit(img.Pixels(), before, img.width, RectUpTo(x, y, w, h, py, x), c)
    modifies img.pixels
    ensures Lit(img.Pixels(), before, img.width, RectUpTo(x, y, w, h, py + 1, x), c)
  {
    var px := x;
    while px < x + w
      invariant x <= px && (px <= x + w || px == x)
      invariant Lit(img.Pixels(), before, img.width, RectUpTo(x, y, w, h, py, px), c)
    {
      ghost var cur := img.Pixels();
      SetPixel(img, px, py, c);
      LitAdd(cur, img.Pixels(), img.width, RectUpTo(x, y, w, h, py, px), Renderer.Single(px, py),
             RectUpTo(x, y, w, h, py, px + 1), c, before);
      px := px + 1;
    }
    LitSame(img.Pixels(), img.width, RectUpTo(x, y, w, h, py, px), RectUpTo(x, y, w, h, py + 1, x), c, before);
  }

  /** draw_rect: exactly the cells of the rectangle that lie inside the
      image become c. */
  method DrawRect(img: Image, x: int, y: int, w: int, h: int, c: RGB)
    requires img.Valid()
    modifies img.pixels
    ensures Lit(img.Pixels(), old(img.Pixels()), img.width, Rect(x, y, w, h), c)
  {
    ghost var before := img.Pixels();
    LitNone(before, img.width, RectUpTo(x, y, w, h, y, x), c);
    var py := y;
    while py < y + h
      invariant y <= py && (py <= y + h || py == y)
      invariant Lit(img.Pixels(), before, img.width, RectUpTo(x, y, w, h, py, x), c)
    {
      DrawRectRow(img, x, y, w, h, py, c, before);
      py := py + 1;
    }
    LitSame(img.Pixels(), img.width, RectUpTo(x, y, w, h, py, x), Rect(x, y, w, h), c, before);
  }

  /** The inner body of draw_circle at offset (dx, dy): the cell is set
      when dx^2 + dy^2 <= radius^2. */
  method CircleCell(img: Image, cx: int, cy: int, radius: int, dx: int, dy: int, c: RGB, ghost before: seq<RGB>)
    requires img.Valid() && -radius <= dx <= radius && -radius <= dy <= radius
    requires Lit(img.Pixels(), before, img.width, Renderer.DiskUpTo(cx, cy, radius, dy, dx), c)
    modifies img.pixels
    ensures Lit(img.Pixels(), before, img.width, Renderer.DiskUpTo(cx, cy, radius, dy, dx + 1), c)
  {
    ghost var cur := img.Pixels();
    Renderer.DiskStep(cx, cy, radius, dx, dy);
    if dx * dx + dy * dy <= radius * radius {
      SetPixel(img, cx + dx, cy + dy, c);
      LitAdd(cur, img.Pixels(), img.width, Renderer.DiskUpTo(cx, cy, radius, dy, dx), Renderer.Single(cx + dx, cy + dy),
             Renderer.DiskUpTo(cx, cy, radius, dy, dx + 1), c, before);
    } else {
      LitSame(cur, img.width, Renderer.DiskUpTo(cx, cy, radius, dy, dx), Renderer.DiskUpTo(cx, cy, radius, dy, dx + 1), c, before);
    }
  }

  /** draw_circle: a filled disk. Exactly the cells of the image whose
      offset (dx, dy) from the centre has dx^2 + dy^2 <= radius^2 become c. */
  method DrawCircle(img: Image, cx: int, cy: int, radius: int, c: RGB)
    requires img.Valid()
    modifies img.pixels
    ensures Lit(img.Pixels(), old(img.Pixels()), img.width, Renderer.Disk(cx, cy, radius), c)
  {
    ghost var before := img.Pixels();
    LitNone(before, img.width, Renderer.DiskUpTo(cx, cy, radius, -radius, -radius), c);
    var dy := -radius;
    while dy <= radius
      invariant -radius <= dy && (dy <= radius + 1 || dy == -radius)
      invariant Lit(img.Pixels(), before, img.width, Renderer.DiskUpTo(cx, cy, radius, dy, -radius), c)
    {
      var dx := -radius;
      while dx <= radius
        invariant -radius <= dx <= radius + 1
        invariant Lit(img.Pixels(), before, img.width, Renderer.DiskUpTo(cx, cy, radius, dy, dx), c)
      {
        CircleCell(img, cx, cy, radius, dx, dy, c, before);
        dx := dx + 1;
      }
      LitSame(img.Pixels(), img.width, Renderer.DiskUpTo(cx, cy, radius, dy, dx),
              Renderer.DiskUpTo(cx, cy, radius, dy + 1, -radius), c, before);
      dy := dy + 1;
    }
    LitSame(img.Pixels(), img.width, Renderer.DiskUpTo(cx, cy, radius, dy, -radius), Renderer.Disk(cx, cy, radius), c, before);
  }

  /** The cells of the points in s. */
  function Cells(s: seq<(int, int)>): (lit: Renderer.CellSet)
    ensures forall a, b :: lit(a, b) == ((a, b) in s)
  {
    (a: int, b: int) => (a, b) in s
  }

  /** draw_line: the same Bresenham iteration as the renderer's line.
      Exactly the points of the renderer's LinePoints that lie inside the
      image become c. */
  method DrawLine(img: Image, x0: int, y0: int, x1: int, y1: int, c: RGB)
    requires img.Valid()
    modifies img.pixels
    ensures Lit(img.Pixels(), old(img.Pixels()), img.width, Cells(Renderer.LinePoints(x0, y0, x1, y1)), c)
  {
    var dx: int := Abs(x1 - x0);
    var dy: int := Abs(y1 - y0);
    var sx := if x0 < x1 then 1 else -1;
    var sy := if y0 < y1 then 1 else -1;
    var err: int := dx - dy;
    var x, y := x0, y0;
    ghost var p := Renderer.LineParams(x1, y1, dx, dy, sx, sy);
    assert p == Renderer.ParamsOf(x0, y0, x1, y1);
    ghost var done: seq<(int, int)> := [];
    ghost var before := img.Pixels();
    ghost var whole := Renderer.LinePoints(x0, y0, x1, y1);
    Renderer.LineBegin(x0, y0, x1, y1);
    LitNone(before, img.width, Cells(done), c);
    while true
      invariant Renderer.LineLoop(p, Renderer.Cursor(x, y, err), done, whole)
      invariant Lit(img.Pixels(), before, img.width, Cells(done), c)
      decreases Renderer.Rem(p, (x, y))
    {
      ghost var cur := Renderer.Cursor(x, y, err);
      Renderer.LineVisit(p, cur, done, whole);
      ghost var mid := img.Pixels();
      SetPixel(img, x, y, c);
      LitAdd(mid, img.Pixels(), img.width, Cells(done), Renderer.Single(x, y), Cells(done + [(x, y)]), c, before);
      if x == x1 && y == y1 {
        done := done + [(x, y)];
        break;
      }
      Renderer.LoopStep(p, cur, done, whole);
      x, y, err := Renderer.Renderer.LineAdvance(x, y, err, dx, dy, sx, sy, p);
      done := done + [(cur.x, cur.y)];
    }
  }

  /** The colour create_checkerboard(s) gives cell (x, y): 255 when
      x / s + y / s, in C's truncating division, is odd, else 0. */
  function Checker(x: int, y: int, s: int): (v: Byte)
    requires s != 0
    ensures v == 0 || v == 255
    ensures v == 255 <==> (CDiv(x, s) + CDiv(y, s)) % 2 == 1
  {
    var checker := CMod(CDiv(x, s) + CDiv(y, s), 2);
    if checker != 0 then 255 else 0
  }

  /** Inside the image, moving one square right flips the colour. */
  lemma CheckerAlternates(x: nat, y: nat, s: int)
    requires s > 0
    ensures Checker(x + s, y, s) != Checker(x, y, s)
  {
    DivModUnique(x + s, s, x / s + 1, x % s);
  }

  /** Cells of the same square share a colour. */
  lemma CheckerSquares(x: nat, y: nat, s: int, i: nat, j: nat)
    requires s > 0 && i < s && j < s && x % s == 0 && y % s == 0
    ensures Checker(x + i, y + j, s) == Checker(x, y, s)
  {
    DivModUnique(x + i, s, x / s, i);
    DivModUnique(y + j, s, y / s, j);
  }

  /** The grey pixel of one byte value. */
  function Gray(v: Byte): RGB
  {
    RGB(v, v, v)
  }

  /** cur is before with the cells before (x, y), in row-major order,
      given their checkerboard colour. */
  ghost predicate CheckeredTo(cur: seq<RGB>, before: seq<RGB>, w: int, s: int, y: int, x: int)
    requires s != 0
  {
    |cur| == |before| &&
    forall k :: 0 <= k < |cur| ==>
      cur[k] == if RowOf(w, k) < y || (RowOf(w, k) == y && ColOf(w, k) < x)
                then Gray(Checker(ColOf(w, k), RowOf(w, k), s)) else before[k]
  }

  /** The image create_checkerboard(s) makes, whatever was there before. */
  function Checkerboard(w: int, h: int, s: int): (q: seq<RGB>)
    requires 0 <= w && 0 <= h && s != 0
    ensures |q| == w * h
  {
    seq(w * h, k => Gray(Checker(ColOf(w, k), RowOf(w, k), s)))
  }

  /** One cell of create_checkerboard. */
  lemma CheckerStep(cur: seq<RGB>, after: seq<RGB>, before: seq<RGB>, w: int, s: int, x: int, y: int)
    requires s != 0 && CheckeredTo(cur, before, w, s, y, x)
    requires Updated(after, cur, w, x, y, Gray(Checker(x, y, s)))
    ensures CheckeredTo(after, before, w, s, y, x + 1)
  {
  }

  /** The inner loop of create_checkerboard: row y. */
  method CheckerRow(img: Image, y: int, s: int, ghost before: seq<RGB>)
    requires img.Valid() && s != 0 && 0 <= y < img.height
    requires CheckeredTo(img.Pixels(), before, img.width, s, y, 0)
    modifies img.pixels
    ensures CheckeredTo(img.Pixels(), before, img.width, s, y + 1, 0)
  {
    var x := 0;
    while x < img.width
      invariant 0 <= x <= img.width
      invariant CheckeredTo(img.Pixels(), before, img.width, s, y, x)
    {
      var checker := CMod(CDiv(x, s) + CDiv(y, s), 2);
      var color: Byte := if checker != 0 then 255 else 0;
      ghost var cur := img.Pixels();
      img.Put(x, y, RGB(color, color, color));
      CheckerStep(cur, img.Pixels(), before, img.width, s, x, y);
      x := x + 1;
    }
    forall k | 0 <= k < img.width * img.height
      ensures 0 <= ColOf(img.width, k) < img.width
    {
      CellOf(img.width, img.height, k);
    }
  }

  /** Before the loops nothing is coloured; after the last row everything
      is. */
  lemma CheckerEnds(cur: seq<RGB>, before: seq<RGB>, w: int, h: int, s: int)
    requires 0 <= w && 0 <= h && |before| == w * h && s != 0
    ensures CheckeredTo(before, before, w, s, 0, 0)
    ensures CheckeredTo(cur, before, w, s, h, 0) ==> cur == Checkerboard(w, h, s)
  {
    forall k | 0 <= k < w * h
      ensures 0 <= RowOf(w, k) < h
    {
      CellOf(w, h, k);
    }
  }

  /** create_checkerboard(s): every pixel becomes the grey of its square's
      colour; set_pixel is always inside the image here. */
  method CreateCheckerboard(img: Image, s: int)
    requires img.Valid() && s != 0
    modifies img.pixels
    ensures img.Pixels() == Checkerboard(img.width, img.height, s)
  {
    ghost var before := img.Pixels();
    CheckerEnds(before, before, img.width, img.height, s);
    var y := 0;
    while y < img.height
      invariant 0 <= y <= img.height
      invariant CheckeredTo(img.Pixels(), before, img.width, s, y, 0)
    {
      CheckerRow(img, y, s, before);
      y := y + 1;
    }
    CheckerEnds(img.Pixels(), before, img.width, img.height, s);
  }
}
