/** The integer core of the software renderer (Renderer/src/renderer.c):
    the packed ARGB framebuffer, the clipped per-pixel paint, and the
    rasterizers, the BMP row decoder and the bitmap text renderer built on
    it. Window, present, events and sleep belong to the platform and are
    not part of this model. */
module Renderer {
  import opened Common
  import opened NumberTheory

  /** A packed framebuffer value, 0xAARRGGBB (uint32_t). */
  type Pixel = x: int | 0 <= x < TWO_32

  /** Color: four 8-bit channels. */
  datatype Color = Color(r: Byte, g: Byte, b: Byte, a: Byte)

  /** (a << 24) | (r << 16) | (g << 8) | b. The channels occupy disjoint
      bytes, so the ors are sums. */
  function Pack(c: Color): Pixel
  {
    c.a * 0x100_0000 + c.r * 0x1_0000 + c.g * 0x100 + c.b
  }

  function AlphaOf(p: Pixel): Byte { p / 0x100_0000 }
  function RedOf(p: Pixel): Byte { (p / 0x1_0000) % 0x100 }
  function GreenOf(p: Pixel): Byte { (p / 0x100) % 0x100 }
  function BlueOf(p: Pixel): Byte { p % 0x100 }

  /** Unpacking a packed colour gives back its four channels. */
  lemma UnpackPack(c: Color)
    ensures AlphaOf(Pack(c)) == c.a && RedOf(Pack(c)) == c.r
    ensures GreenOf(Pack(c)) == c.g && BlueOf(Pack(c)) == c.b
  {
    var p := Pack(c);
    DivModUnique(p, 0x100_0000, c.a, c.r * 0x1_0000 + c.g * 0x100 + c.b);
    DivModUnique(p, 0x1_0000, c.a * 0x100 + c.r, c.g * 0x100 + c.b);
    DivModUnique(c.a * 0x100 + c.r, 0x100, c.a, c.r);
    DivModUnique(p, 0x100, c.a * 0x1_0000 + c.r * 0x100 + c.g, c.b);
    DivModUnique(c.a * 0x1_0000 + c.r * 0x100 + c.g, 0x100, c.a * 0x100 + c.r, c.g);
  }

  /** One channel of the blend src * alpha + dst * (1 - alpha) with
      alpha = a / 255, truncated as the conversion to uint8_t does. */
  function BlendChannel(src: Byte, dst: Byte, a: Byte): (v: Byte)
    ensures src <= dst ==> src <= v <= dst
    ensures dst <= src ==> dst <= v <= src
  {
    BlendBounds(src, dst, a);
    (src * a + dst * (255 - a)) / 255
  }

  /** A weighted mean of two bytes lies between them. */
  lemma BlendBounds(src: Byte, dst: Byte, a: Byte)
    ensures src <= dst ==> 255 * src <= src * a + dst * (255 - a) <= 255 * dst
    ensures dst <= src ==> 255 * dst <= src * a + dst * (255 - a) <= 255 * src
  {
    var t := src * a + dst * (255 - a);
    assert t == 255 * dst + (src - dst) * a;
    assert t == 255 * src - (src - dst) * (255 - a);
    if src <= dst {
      MulSign(dst - src, a);
      MulSign(dst - src, 255 - a);
    } else {
      MulSign(src - dst, a);
      MulSign(src - dst, 255 - a);
    }
  }

  lemma MulSign(x: int, y: int)
    requires x >= 0 && y >= 0
    ensures x * y >= 0
  {
  }

  /** The translucent path of draw_pixel: the blended channels over the
      destination's RGB, written fully opaque. */
  function Blend(c: Color, dst: Pixel): (p: Pixel)
    ensures AlphaOf(p) == 255
    ensures Between(RedOf(p), c.r, RedOf(dst))
    ensures Between(GreenOf(p), c.g, GreenOf(dst))
    ensures Between(BlueOf(p), c.b, BlueOf(dst))
  {
    var q := Color(BlendChannel(c.r, RedOf(dst), c.a),
                   BlendChannel(c.g, GreenOf(dst), c.a),
                   BlendChannel(c.b, BlueOf(dst), c.a), 255);
    UnpackPack(q);
    Pack(q)
  }

  predicate Between(v: int, s: int, d: int)
  {
    (s <= d ==> s <= v <= d) && (d <= s ==> d <= v <= s)
  }

  /** What draw_pixel writes over the pixel dst: the packed colour when it
      is opaque (a == 255), else the blend. Either way the result is
      opaque. */
  function Paint(c: Color, dst: Pixel): (p: Pixel)
    ensures AlphaOf(p) == 255
    ensures c.a == 255 ==> p == Pack(c)
    ensures Between(RedOf(p), c.r, RedOf(dst))
    ensures Between(GreenOf(p), c.g, GreenOf(dst))
    ensures Between(BlueOf(p), c.b, BlueOf(dst))
  {
    if c.a == 255 then UnpackPack(c); Pack(c) else Blend(c, dst)
  }

  /** The cell (px, py) lies in the axis-aligned box [x, x + w) x [y, y + h). */
  predicate InRect(px: int, py: int, x: int, y: int, w: int, h: int)
  {
    x <= px < x + w && y <= py < y + h
  }

  /** The cell (cx + dx, cy + dy) is inside draw_filled_circle's disk:
      within the bounding square and dx^2 + dy^2 <= radius^2. */
  predicate InDisk(dx: int, dy: int, radius: int)
  {
    -radius <= dx <= radius && -radius <= dy <= radius && dx * dx + dy * dy <= radius * radius
  }

  /** The disk draw_filled_circle fills around (cx, cy). */
  function Disk(cx: int, cy: int, radius: int): (lit: CellSet)
    ensures forall px, py :: lit(px, py) == InDisk(px - cx, py - cy, radius)
  {
    (px: int, py: int) => InDisk(px - cx, py - cy, radius)
  }

  /** The cells of the disk draw_filled_circle has visited before offset
      (dx, dy), in row-major order. */
  function DiskUpTo(cx: int, cy: int, radius: int, dy: int, dx: int): (lit: CellSet)
    ensures forall px, py ::
      lit(px, py) == (InDisk(px - cx, py - cy, radius) && (py - cy < dy || (py - cy == dy && px - cx < dx)))
  {
    (px: int, py: int) => InDisk(px - cx, py - cy, radius) && (py - cy < dy || (py - cy == dy && px - cx < dx))
  }

  /** Before the first row nothing of the disk is drawn. */
  lemma DiskStart(base: seq<Pixel>, W: int, cx: int, cy: int, radius: int, c: Color)
    ensures PaintedBy(base, W, DiskUpTo(cx, cy, radius, -radius, -radius), c, base)
  {
    PaintNone(base, W, DiskUpTo(cx, cy, radius, -radius, -radius), c);
  }

  /** One inner step adds the cell at offset (dx, dy) when it is in the disk. */
  lemma DiskStep(cx: int, cy: int, radius: int, dx: int, dy: int)
    ensures var before, after := DiskUpTo(cx, cy, radius, dy, dx), DiskUpTo(cx, cy, radius, dy, dx + 1);
      var cell := Single(cx + dx, cy + dy);
      && (dx * dx + dy * dy <= radius * radius && -radius <= dx <= radius && -radius <= dy <= radius ==>
            (forall px, py :: after(px, py) == (before(px, py) || cell(px, py)))
            && (forall px, py :: cell(px, py) ==> !before(px, py)))
      && (!(dx * dx + dy * dy <= radius * radius) ==> forall px, py :: after(px, py) == before(px, py))
  {
  }

  /** Past the last column of a row, the cells before the next row are drawn. */
  lemma DiskNextRow(fb: seq<Pixel>, W: int, cx: int, cy: int, radius: int, dy: int, c: Color, base: seq<Pixel>)
    requires PaintedBy(fb, W, DiskUpTo(cx, cy, radius, dy, radius + 1), c, base)
    ensures PaintedBy(fb, W, DiskUpTo(cx, cy, radius, dy + 1, -radius), c, base)
  {
    PaintSame(fb, W, DiskUpTo(cx, cy, radius, dy, radius + 1), DiskUpTo(cx, cy, radius, dy + 1, -radius), c, base);
  }

  /** Past the last row, the whole disk is drawn. */
  lemma DiskDone(fb: seq<Pixel>, W: int, cx: int, cy: int, radius: int, dy: int, c: Color, base: seq<Pixel>)
    requires dy > radius && PaintedBy(fb, W, DiskUpTo(cx, cy, radius, dy, -radius), c, base)
    ensures PaintedBy(fb, W, Disk(cx, cy, radius), c, base)
  {
    PaintSame(fb, W, DiskUpTo(cx, cy, radius, dy, -radius), Disk(cx, cy, radius), c, base);
  }

  /** The Renderer: its back buffer of width * height pixels, row-major
      with the origin at the top left. */
  class Renderer {
    var width: int
    var height: int
    var framebuffer: array<Pixel>

    ghost predicate Valid()
      reads this
    {
      width >= 0 && height >= 0 && framebuffer.Length == width * height
    }

    /** The buffer part of renderer_init: a width * height back buffer. */
    constructor (w: nat, h: nat)
      ensures Valid() && width == w && height == h && fresh(framebuffer)
      ensures forall k :: 0 <= k < framebuffer.Length ==> framebuffer[k] == 0
    {
      width, height := w, h;
      framebuffer := new Pixel[w * h](_ => 0);
    }

    predicate InBounds(x: int, y: int)
      reads this
    {
      0 <= x < width && 0 <= y < height
    }

    /** Column and row of the buffer index k. */
    function Col(k: int): int
      reads this
    {
      ColOf(width, k)
    }

    function Row(k: int): int
      reads this
    {
      RowOf(width, k)
    }

    /** renderer_clear: every one of the width * height pixels becomes the
        packed colour, written directly without blending. */
    method Clear(c: Color)
      requires Valid()
      modifies framebuffer
      ensures forall k :: 0 <= k < framebuffer.Length ==> framebuffer[k] == Pack(c)
    {
      var pixel := Pack(c);
      var i := 0;
      while i < width * height
        invariant 0 <= i <= width * height
        invariant forall k :: 0 <= k < i ==> framebuffer[k] == pixel
      {
        framebuffer[i] := pixel;
        i := i + 1;
      }
    }

    /** renderer_draw_pixel: a cell outside [0, width) x [0, height) is
        discarded; otherwise only its own index y * width + x changes, to
        Paint of the colour over the old value. */
    method DrawPixel(x: int, y: int, c: Color)
      requires Valid()
      modifies framebuffer
      ensures forall k :: 0 <= k < framebuffer.Length ==>
        framebuffer[k] == if Col(k) == x && Row(k) == y then Paint(c, old(framebuffer[k])) else old(framebuffer[k])
      ensures PaintedBy(framebuffer[..], width, Single(x, y), c, old(framebuffer[..]))
      ensures !InBounds(x, y) ==> framebuffer[..] == old(framebuffer[..])
      ensures InBounds(x, y) ==>
        && 0 <= y * width + x < framebuffer.Length
        && framebuffer[y * width + x] == Paint(c, old(framebuffer[y * width + x]))
    {
      if x < 0 || x >= width || y < 0 || y >= height {
        forall k | 0 <= k < framebuffer.Length ensures !(Col(k) == x && Row(k) == y) {
          CellOf(width, height, k);
        }
        return;
      }
      var index := y * width + x;
      CellIndex(width, height, x, y);
      forall k | 0 <= k < framebuffer.Length ensures (Col(k) == x && Row(k) == y) <==> k == index {
        CellOf(width, height, k);
      }
      if c.a == 255 {
        framebuffer[index] := Pack(c);
      } else {
        framebuffer[index] := Blend(c, framebuffer[index]);
      }
    }

    /** renderer_draw_filled_rect: each in-bounds cell of
        [x, x + w) x [y, y + h) is painted once; nothing else changes. */
    method DrawFilledRect(x: int, y: int, w: int, h: int, c: Color)
      requires Valid()
      modifies framebuffer
      ensures forall k :: 0 <= k < framebuffer.Length ==>
        framebuffer[k] == if InRect(Col(k), Row(k), x, y, w, h) then Paint(c, old(framebuffer[k])) else old(framebuffer[k])
    {
      ghost var base := framebuffer[..];
      var j := 0;
      while j < h
        invariant 0 <= j && (j <= h || j == 0)
        invariant forall k :: 0 <= k < framebuffer.Length ==>
          framebuffer[k] == if InRect(Col(k), Row(k), x, y, w, j) then Paint(c, base[k]) else base[k]
      {
        var i := 0;
        while i < w
          invariant 0 <= i && (i <= w || i == 0)
          invariant forall k :: 0 <= k < framebuffer.Length ==>
            framebuffer[k] == if InRect(Col(k), Row(k), x, y, w, j) || (Row(k) == y + j && x <= Col(k) < x + i)
                              then Paint(c, base[k]) else base[k]
        {
          DrawPixel(x + i, y + j, c);
          i := i + 1;
        }
        j := j + 1;
      }
    }

    /** renderer_draw_rect: the top and bottom rows are drawn for
        0 <= i < w (even when h <= 0), then the left and right columns for
        0 <= i < h. Cells off that outline keep their value; cells on it are
        covered by the colour over their old value (corners may be painted
        twice, which only matters for a translucent colour). */
    method DrawRect(x: int, y: int, w: int, h: int, c: Color)
      requires Valid()
      modifies framebuffer
      ensures forall k :: 0 <= k < framebuffer.Length ==>
        if OnOutline(Col(k), Row(k), x, y, w, h)
        then Covered(framebuffer[k], c, old(framebuffer[k]))
        else framebuffer[k] == old(framebuffer[k])
    {
      ghost var base := framebuffer[..];
      ghost var rows := DrawRectRows(x, y, w, h, c, base);
      ghost var S := DrawRectColumns(x, y, w, h, c, rows, base);
      MarkedCells(S, 0, 0, c, base);
    }

    /** The first loop of draw_rect: the top and bottom rows, as the set
        of cells covered so far. */
    method DrawRectRows(x: int, y: int, w: int, h: int, c: Color, ghost base: seq<Pixel>) returns (ghost S: set<(int, int)>)
      requires Valid() && Marked(framebuffer[..], width, {}, 0, 0, c, base)
      modifies framebuffer
      ensures Marked(framebuffer[..], width, S, 0, 0, c, base)
      ensures forall px, py :: (px, py) in S <==> x <= px < x + w && (py == y || py == y + h - 1)
    {
      S := {};
      var i := 0;
      while i < w
        invariant 0 <= i && (i <= w || i == 0)
        invariant Marked(framebuffer[..], width, S, 0, 0, c, base)
        invariant forall px, py :: (px, py) in S <==> x <= px < x + i && (py == y || py == y + h - 1)
      {
        PlotOffset(0, 0, x + i, y, c, S, base);
        S := S + {(x + i, y)};
        PlotOffset(0, 0, x + i, y + h - 1, c, S, base);
        S := S + {(x + i, y + h - 1)};
        i := i + 1;
      }
    }

    /** The second loop of draw_rect: the left and right columns join the
        rows; the result is the whole outline. */
    method DrawRectColumns(x: int, y: int, w: int, h: int, c: Color, ghost rows: set<(int, int)>, ghost base: seq<Pixel>)
      returns (ghost S: set<(int, int)>)
      requires Valid() && Marked(framebuffer[..], width, rows, 0, 0, c, base)
      requires forall px, py :: (px, py) in rows <==> x <= px < x + w && (py == y || py == y + h - 1)
      modifies framebuffer
      ensures Marked(framebuffer[..], width, S, 0, 0, c, base)
      ensures forall px, py :: (px, py) in S <==> OnOutline(px, py, x, y, w, h)
    {
      S := rows;
      var i := 0;
      while i < h
        invariant 0 <= i && (i <= h || i == 0)
        invariant Marked(framebuffer[..], width, S, 0, 0, c, base)
        invariant forall px, py :: (px, py) in S <==> (px, py) in rows || (y <= py < y + i && (px == x || px == x + w - 1))
      {
        PlotOffset(0, 0, x, y + i, c, S, base);
        S := S + {(x, y + i)};
        PlotOffset(0, 0, x + w - 1, y + i, c, S, base);
        S := S + {(x + w - 1, y + i)};
        i := i + 1;
      }
    }

    /** renderer_draw_filled_circle: every cell of the bounding square
        whose offset satisfies dx^2 + dy^2 <= radius^2 is painted once;
        nothing else changes. */
    method DrawFilledCircle(cx: int, cy: int, radius: int, c: Color)
      requires Valid()
      modifies framebuffer
      ensures forall k :: 0 <= k < framebuffer.Length ==>
        framebuffer[k] == if InDisk(Col(k) - cx, Row(k) - cy, radius) then Paint(c, old(framebuffer[k])) else old(framebuffer[k])
    {
      ghost var base := framebuffer[..];
      DiskStart(base, width, cx, cy, radius, c);
      var dy := -radius;
      while dy <= radius
        invariant -radius <= dy && (dy <= radius + 1 || dy == -radius)
        invariant PaintedBy(framebuffer[..], width, DiskUpTo(cx, cy, radius, dy, -radius), c, base)
      {
        var dx := -radius;
        while dx <= radius
          invariant -radius <= dx <= radius + 1
          invariant PaintedBy(framebuffer[..], width, DiskUpTo(cx, cy, radius, dy, dx), c, base)
        {
          PlotDiskCell(cx, cy, radius, dx, dy, c, base);
          dx := dx + 1;
        }
        DiskNextRow(framebuffer[..], width, cx, cy, radius, dy, c, base);
        dy := dy + 1;
      }
      DiskDone(framebuffer[..], width, cx, cy, radius, dy, c, base);
      PaintedCellsOf(Disk(cx, cy, radius), c, base);
    }

    /** One iteration of draw_filled_circle's inner loop: the cell at
        offset (dx, dy) is drawn when dx^2 + dy^2 <= radius^2. */
    method PlotDiskCell(cx: int, cy: int, radius: int, dx: int, dy: int, c: Color, ghost base: seq<Pixel>)
      requires Valid() && -radius <= dx <= radius && -radius <= dy <= radius
      requires PaintedBy(framebuffer[..], width, DiskUpTo(cx, cy, radius, dy, dx), c, base)
      modifies framebuffer
      ensures PaintedBy(framebuffer[..], width, DiskUpTo(cx, cy, radius, dy, dx + 1), c, base)
    {
      ghost var prev := framebuffer[..];
      ghost var before, after := DiskUpTo(cx, cy, radius, dy, dx), DiskUpTo(cx, cy, radius, dy, dx + 1);
      DiskStep(cx, cy, radius, dx, dy);
      if dx * dx + dy * dy <= radius * radius {
        DrawPixel(cx + dx, cy + dy, c);
        PaintAdd(prev, framebuffer[..], width, before, Single(cx + dx, cy + dy), after, c, base);
      } else {
        PaintSame(prev, width, before, after, c, base);
      }
    }

    /** PaintedBy read back in terms of the buffer's own cells. */
    lemma PaintedCellsOf(lit: CellSet, c: Color, base: seq<Pixel>)
      requires PaintedBy(framebuffer[..], width, lit, c, base)
      ensures forall k :: 0 <= k < framebuffer.Length ==>
        framebuffer[k] == if lit(Col(k), Row(k)) then Paint(c, base[k]) else base[k]
    {
      forall k | 0 <= k < framebuffer.Length
        ensures framebuffer[k] == if lit(Col(k), Row(k)) then Paint(c, base[k]) else base[k]
      {
        assert framebuffer[..][k] == framebuffer[k];
      }
    }

    /** renderer_draw_line: Bresenham's algorithm from (x1, y1) to
        (x2, y2). It plots exactly the points of LinePoints, each once. */
    method DrawLine(x1: int, y1: int, x2: int, y2: int, c: Color)
      requires Valid()
      modifies framebuffer
      ensures forall k :: 0 <= k < framebuffer.Length ==>
        framebuffer[k] == if (Col(k), Row(k)) in LinePoints(x1, y1, x2, y2)
                          then Paint(c, old(framebuffer[k])) else old(framebuffer[k])
    {
      var dx: int := Abs(x2 - x1);
      var dy: int := Abs(y2 - y1);
      var sx := if x1 < x2 then 1 else -1;
      var sy := if y1 < y2 then 1 else -1;
      var err: int := dx - dy;
      var x, y := x1, y1;
      ghost var p := LineParams(x2, y2, dx, dy, sx, sy);
      assert p == ParamsOf(x1, y1, x2, y2);
      ghost var done: seq<(int, int)> := [];
      ghost var base := framebuffer[..];
      ghost var whole := LinePoints(x1, y1, x2, y2);
      LineBegin(x1, y1, x2, y2);
      while true
        invariant LineLoop(p, Cursor(x, y, err), done, whole)
        invariant Painted(framebuffer[..], width, done, c, base)
        decreases Rem(p, (x, y))
      {
        ghost var cur := Cursor(x, y, err);
        LineVisit(p, cur, done, whole);
        PlotPoint(x, y, c, done, base);
        if x == x2 && y == y2 {
          done := done + [(x, y)];
          break;
        }
        LoopStep(p, cur, done, whole);
        x, y, err := LineAdvance(x, y, err, dx, dy, sx, sy, p);
        done := done + [(cur.x, cur.y)];
      }
      PaintedCells(done, c, base);
    }

    /** The update at the end of a draw_line iteration, decided on
        e2 = 2 * err: a step in x when e2 > -dy, a step in y when e2 < dx. */
    static method LineAdvance(x0: int, y0: int, err0: int, dx: int, dy: int, sx: int, sy: int, ghost p: LineParams)
      returns (x: int, y: int, err: int)
      requires p.dx == dx && p.dy == dy && p.sx == sx && p.sy == sy
      ensures Cursor(x, y, err) == Advance(p, Cursor(x0, y0, err0))
    {
      x, y, err := x0, y0, err0;
      var e2 := 2 * err;
      if e2 > -dy {
        err := err - dy;
        x := x + sx;
      }
      if e2 < dx {
        err := err + dx;
        y := y + sy;
      }
    }

    /** One draw_pixel call of draw_line at a point not yet plotted: the
        point joins the painted ones. */
    method PlotPoint(x: int, y: int, c: Color, ghost S: seq<(int, int)>, ghost base: seq<Pixel>)
      requires Valid() && Painted(framebuffer[..], width, S, c, base) && (x, y) !in S
      modifies framebuffer
      ensures Painted(framebuffer[..], width, S + [(x, y)], c, base)
    {
      DrawPixel(x, y, c);
    }

    /** Painted read back in terms of the buffer's own cells. */
    lemma PaintedCells(S: seq<(int, int)>, c: Color, base: seq<Pixel>)
      requires Painted(framebuffer[..], width, S, c, base)
      ensures forall k :: 0 <= k < framebuffer.Length ==>
        framebuffer[k] == if (Col(k), Row(k)) in S then Paint(c, base[k]) else base[k]
    {
      forall k | 0 <= k < framebuffer.Length
        ensures framebuffer[k] == if (Col(k), Row(k)) in S then Paint(c, base[k]) else base[k]
      {
        assert framebuffer[..][k] == framebuffer[k];
      }
    }

    /** renderer_draw_triangle: the three edges as lines. Cells off all
        three edges keep their value; cells on an edge are covered by the
        colour over their old value. */
    method DrawTriangle(x1: int, y1: int, x2: int, y2: int, x3: int, y3: int, c: Color)
      requires Valid()
      modifies framebuffer
      ensures forall k :: 0 <= k < framebuffer.Length ==>
        if (Col(k), Row(k)) in LinePoints(x1, y1, x2, y2) + LinePoints(x2, y2, x3, y3) + LinePoints(x3, y3, x1, y1)
        then Covered(framebuffer[k], c, old(framebuffer[k]))
        else framebuffer[k] == old(framebuffer[k])
    {
      ghost var base := framebuffer[..];
      ghost var S := CoverLine(x1, y1, x2, y2, c, {}, base);
      S := CoverLine(x2, y2, x3, y3, c, S, base);
      S := CoverLine(x3, y3, x1, y1, c, S, base);
      MarkedCells(S, 0, 0, c, base);
    }

    /** One draw_line call of draw_triangle: the line's cells join the
        covered ones, painted over whatever the earlier lines left. */
    method CoverLine(x1: int, y1: int, x2: int, y2: int, c: Color, ghost S: set<(int, int)>, ghost base: seq<Pixel>)
      returns (ghost S': set<(int, int)>)
      requires Valid() && Marked(framebuffer[..], width, S, 0, 0, c, base)
      modifies framebuffer
      ensures forall q :: q in S' <==> q in S || q in LinePoints(x1, y1, x2, y2)
      ensures Marked(framebuffer[..], width, S', 0, 0, c, base)
    {
      ghost var mid := framebuffer[..];
      DrawLine(x1, y1, x2, y2, c);
      S' := S + set q | q in LinePoints(x1, y1, x2, y2);
      forall k | 0 <= k < framebuffer.Length && (Col(k), Row(k)) in LinePoints(x1, y1, x2, y2)
        ensures Covered(framebuffer[k], c, base[k])
      {
        PaintOver(mid[k], c, base[k]);
      }
    }

    /** renderer_draw_circle: the midpoint algorithm walks one octant from
        (radius, 0) and plots the eight reflections of each point. Cells
        off the circle keep their value; cells on it end up covered by the
        colour over their old value (several reflections can hit the same
        cell). */
    method DrawCircle(cx: int, cy: int, radius: int, c: Color)
      requires Valid()
      modifies framebuffer
      ensures forall k :: 0 <= k < framebuffer.Length ==>
        if (Col(k) - cx, Row(k) - cy) in CircleCells(radius)
        then Covered(framebuffer[k], c, old(framebuffer[k])) else framebuffer[k] == old(framebuffer[k])
    {
      ghost var base := framebuffer[..];
      CircleLoopRun(cx, cy, radius, c, base);
      MarkedCells(CircleCells(radius), cx, cy, c, base);
    }

    /** draw_circle's loop from the cursor (radius, 0, 0) until x < y: every
        offset of the circle ends up covered. */
    method CircleLoopRun(cx: int, cy: int, radius: int, c: Color, ghost base: seq<Pixel>)
      requires Valid() && Marked(framebuffer[..], width, {}, cx, cy, c, base)
      modifies framebuffer
      ensures Marked(framebuffer[..], width, CircleCells(radius), cx, cy, c, base)
    {
      var x, y, err := radius, 0, 0;
      ghost var done: set<(int, int)> := {};
      while x >= y
        invariant CircleLoop(framebuffer[..], width, radius, Cursor(x, y, err), done, cx, cy, c, base)
        decreases x - y + 1
      {
        x, y, err, done := CircleIteration(cx, cy, x, y, err, c, radius, done, base);
      }
      CircleDone(framebuffer[..], width, radius, Cursor(x, y, err), done, cx, cy, c, base);
    }

    /** One iteration of draw_circle's loop: the eight plots, then the
        error updates; the octant set joins the plotted offsets. */
    method CircleIteration(cx: int, cy: int, x0: int, y0: int, err0: int, c: Color, ghost radius: int,
                           ghost done0: set<(int, int)>, ghost base: seq<Pixel>)
      returns (x: int, y: int, err: int, ghost done: set<(int, int)>)
      requires Valid() && x0 >= y0
      requires CircleLoop(framebuffer[..], width, radius, Cursor(x0, y0, err0), done0, cx, cy, c, base)
      modifies framebuffer
      ensures CircleLoop(framebuffer[..], width, radius, Cursor(x, y, err), done, cx, cy, c, base)
      ensures x - y < x0 - y0
    {
      PlotOctants(cx, cy, x0, y0, c, done0, base);
      x, y, err := CircleStep(x0, y0, err0);
      CircleLoopStep(done0, Cursor(x0, y0, err0));
      done := done0 + Octants(x0, y0);
    }

    /** The error updates of one draw_circle iteration. */
    static method CircleStep(x0: int, y0: int, err0: int) returns (x: int, y: int, err: int)
      ensures Cursor(x, y, err) == CircleAdvance(Cursor(x0, y0, err0))
    {
      x, y, err := x0, y0, err0;
      if err <= 0 {
        y := y + 1;
        err := err + 2 * y + 1;
      }
      if err > 0 {
        x := x - 1;
        err := err - (2 * x + 1);
      }
    }

    /** Marked read back in terms of the buffer's own cells. */
    lemma MarkedCells(S: set<(int, int)>, cx: int, cy: int, c: Color, base: seq<Pixel>)
      requires Marked(framebuffer[..], width, S, cx, cy, c, base)
      ensures forall k :: 0 <= k < framebuffer.Length ==>
        if (Col(k) - cx, Row(k) - cy) in S then Covered(framebuffer[k], c, base[k]) else framebuffer[k] == base[k]
    {
      forall k | 0 <= k < framebuffer.Length
        ensures if (Col(k) - cx, Row(k) - cy) in S then Covered(framebuffer[k], c, base[k]) else framebuffer[k] == base[k]
      {
        assert framebuffer[..][k] == framebuffer[k];
      }
    }

    /** The eight draw_pixel calls of one draw_circle iteration, at the
        reflections of the octant point (x, y) around (cx, cy): the
        reflections join the covered offsets. */
    method PlotOctants(cx: int, cy: int, x: int, y: int, c: Color, ghost S: set<(int, int)>, ghost base: seq<Pixel>)
      requires Valid() && Marked(framebuffer[..], width, S, cx, cy, c, base)
      modifies framebuffer
      ensures Marked(framebuffer[..], width, S + Octants(x, y), cx, cy, c, base)
    {
      PlotHalf(cx, cy, x, y, c, S, base);
      PlotHalf(cx, cy, -x, -y, c, S + Half(x, y), base);
      OctantsUnion(S, x, y);
    }

    /** Four of the eight draw_pixel calls: the reflections (x, y),
        (y, x), (-y, x), (-x, y); the other four are those of (-x, -y). */
    method PlotHalf(cx: int, cy: int, x: int, y: int, c: Color, ghost S: set<(int, int)>, ghost base: seq<Pixel>)
      requires Valid() && Marked(framebuffer[..], width, S, cx, cy, c, base)
      modifies framebuffer
      ensures Marked(framebuffer[..], width, S + Half(x, y), cx, cy, c, base)
    {
      PlotOffset(cx, cy, x, y, c, S, base);
      PlotOffset(cx, cy, y, x, c, S + {(x, y)}, base);
      PlotOffset(cx, cy, -y, x, c, S + {(x, y)} + {(y, x)}, base);
      PlotOffset(cx, cy, -x, y, c, S + {(x, y)} + {(y, x)} + {(-y, x)}, base);
      assert S + {(x, y)} + {(y, x)} + {(-y, x)} + {(-x, y)} == S + Half(x, y);
    }

    /** One draw_pixel call at the offset (px, py) from (cx, cy): that
        offset joins the covered ones. */
    method PlotOffset(cx: int, cy: int, px: int, py: int, c: Color, ghost S: set<(int, int)>, ghost base: seq<Pixel>)
      requires Valid() && Marked(framebuffer[..], width, S, cx, cy, c, base)
      modifies framebuffer
      ensures Marked(framebuffer[..], width, S + {(px, py)}, cx, cy, c, base)
    {
      DrawPixel(cx + px, cy + py, c);
    }

    /** renderer_draw_filled_triangle: the vertices are ordered by y; each
        row from the top vertex to the bottom one is filled across the span
        between the long edge and the short edge that row meets. Each cell
        of the filled set is painted once; nothing else changes. */
    method DrawFilledTriangle(x1: int, y1: int, x2: int, y2: int, x3: int, y3: int, c: Color)
      requires Valid()
      modifies framebuffer
      ensures var v := SortByY((x1, y1), (x2, y2), (x3, y3));
        forall k :: 0 <= k < framebuffer.Length ==>
          framebuffer[k] == if InFilled(Col(k), Row(k), v.0, v.1, v.2)
                            then Paint(c, old(framebuffer[k])) else old(framebuffer[k])
    {
      ghost var base := framebuffer[..];
      var p1x, p1y, p2x, p2y, p3x, p3y := x1, y1, x2, y2, x3, y3;
      if p1y > p2y { p1x, p1y, p2x, p2y := p2x, p2y, p1x, p1y; }
      ghost var first := ((p1x, p1y), (p2x, p2y));
      assert first == OrderY((x1, y1), (x2, y2));
      if p1y > p3y { p1x, p1y, p3x, p3y := p3x, p3y, p1x, p1y; }
      ghost var second := ((p1x, p1y), (p3x, p3y));
      assert second == OrderY(first.0, (x3, y3));
      if p2y > p3y { p2x, p2y, p3x, p3y := p3x, p3y, p2x, p2y; }
      assert ((p2x, p2y), (p3x, p3y)) == OrderY(first.1, second.1);
      ghost var A, B, Q := (p1x, p1y), (p2x, p2y), (p3x, p3y);
      assert (A, B, Q) == SortByY((x1, y1), (x2, y2), (x3, y3));
      SortByYSorted((x1, y1), (x2, y2), (x3, y3));
      var total := p3y - p1y;
      if total == 0 {
        return;
      }
      for y := p1y to p3y + 1
        invariant forall k :: 0 <= k < framebuffer.Length ==>
          framebuffer[k] == if InFilled(Col(k), Row(k), A, B, Q) && Row(k) < y then Paint(c, base[k]) else base[k]
      {
        var secondHalf := y > p2y || p2y == p1y;
        var segment := if secondHalf then p3y - p2y else p2y - p1y;
        if segment == 0 {
          SpanSkip(p1x, p1y, p2x, p2y, p3x, p3y, y);
          continue;
        }
        var xa := Lerp(p1x, p3x, y - p1y, total);
        var xb := if secondHalf then Lerp(p2x, p3x, y - p2y, segment) else Lerp(p1x, p2x, y - p1y, segment);
        SpanRow(p1x, p1y, p2x, p2y, p3x, p3y, y, secondHalf, segment, xa, xb);
        if xa > xb {
          xa, xb := xb, xa;
        }
        FillSpan(y, xa, xb, c, A, B, Q, base);
      }
    }

    /** The span loop of one draw_filled_triangle row: the cells xa..xb of
        row y, which are the triangle's cells on that row, are painted. */
    method FillSpan(y: int, xa: int, xb: int, c: Color, ghost A: (int, int), ghost B: (int, int), ghost Q: (int, int),
                    ghost base: seq<Pixel>)
      requires Valid() && A.1 <= B.1 <= Q.1 && |base| == framebuffer.Length
      requires forall px :: InFilled(px, y, A, B, Q) <==> xa <= px <= xb
      requires forall k :: 0 <= k < framebuffer.Length ==>
        framebuffer[k] == if InFilled(Col(k), Row(k), A, B, Q) && Row(k) < y then Paint(c, base[k]) else base[k]
      modifies framebuffer
      ensures forall k :: 0 <= k < framebuffer.Length ==>
        framebuffer[k] == if InFilled(Col(k), Row(k), A, B, Q) && Row(k) < y + 1 then Paint(c, base[k]) else base[k]
    {
      var x := xa;
      while x <= xb
        invariant xa <= x <= xb + 1 || (x == xa && xb < xa)
        invariant forall k :: 0 <= k < framebuffer.Length ==>
          framebuffer[k] == if (InFilled(Col(k), Row(k), A, B, Q) && Row(k) < y) || (Row(k) == y && xa <= Col(k) < x)
                            then Paint(c, base[k]) else base[k]
      {
        DrawPixel(x, y, c);
        x := x + 1;
      }
      FilledRowDone(A, B, Q, y, xa, x - 1, c, base);
    }

    /** After row y is filled across [xa, xb], the painted cells are the
        filled triangle's cells above row y + 1. */
    lemma FilledRowDone(A: (int, int), B: (int, int), Q: (int, int), y: int, xa: int, xb: int, c: Color, base: seq<Pixel>)
      requires A.1 <= B.1 <= Q.1 && |base| == framebuffer.Length
      requires forall px :: InFilled(px, y, A, B, Q) <==> xa <= px <= xb
      requires forall k :: 0 <= k < framebuffer.Length ==>
        framebuffer[k] == if (InFilled(Col(k), Row(k), A, B, Q) && Row(k) < y) || (Row(k) == y && xa <= Col(k) < xb + 1)
                          then Paint(c, base[k]) else base[k]
      ensures forall k :: 0 <= k < framebuffer.Length ==>
        framebuffer[k] == if InFilled(Col(k), Row(k), A, B, Q) && Row(k) < y + 1 then Paint(c, base[k]) else base[k]
    {
      forall k | 0 <= k < framebuffer.Length
        ensures framebuffer[k] == if InFilled(Col(k), Row(k), A, B, Q) && Row(k) < y + 1 then Paint(c, base[k]) else base[k]
      {
        if Row(k) == y {
          assert InFilled(Col(k), y, A, B, Q) <==> xa <= Col(k) <= xb;
        }
      }
    }
  }

  /** The cells renderer_draw_rect paints: rows y and y + h - 1 across
      [x, x + w), and columns x and x + w - 1 down [y, y + h). */
  predicate OnOutline(px: int, py: int, x: int, y: int, w: int, h: int)
  {
    (x <= px < x + w && (py == y || py == y + h - 1))
    || (y <= py < y + h && (px == x || px == x + w - 1))
  }

  /** A filled circle of radius 0 covers at most its centre. */
  lemma FilledCircleRadiusZero(dx: int, dy: int)
    requires InDisk(dx, dy, 0)
    ensures dx == 0 && dy == 0
  {
  }

  /** The fixed quantities of renderer_draw_line: the end point, |dx|, |dy|
      and the unit steps sx and sy. */
  datatype LineParams = LineParams(x2: int, y2: int, dx: int, dy: int, sx: int, sy: int)

  function ParamsOf(x1: int, y1: int, x2: int, y2: int): LineParams
  {
    LineParams(x2, y2, Abs(x2 - x1), Abs(y2 - y1), if x1 < x2 then 1 else -1, if y1 < y2 then 1 else -1)
  }

  /** The steps still to take in x and in y to reach the end point. */
  function RemX(p: LineParams, x: int): int { if p.sx == 1 then p.x2 - x else x - p.x2 }
  function RemY(p: LineParams, y: int): int { if p.sy == 1 then p.y2 - y else y - p.y2 }
  function Rem(p: LineParams, q: (int, int)): int { RemX(p, q.0) + RemY(p, q.1) }

  /** The invariant of the Bresenham loop: the remaining steps are within
      |dx| and |dy|, and err is dx - dy adjusted by the steps taken. */
  predicate LineInv(p: LineParams, x: int, y: int, err: int)
  {
    && p.dx >= 0 && p.dy >= 0 && (p.sx == 1 || p.sx == -1) && (p.sy == 1 || p.sy == -1)
    && 0 <= RemX(p, x) <= p.dx && 0 <= RemY(p, y) <= p.dy
    && err == p.dx - p.dy + p.dy * RemX(p, x) - p.dx * RemY(p, y)
  }

  /** The loop's variables x1, y1 and err. */
  datatype Cursor = Cursor(x: int, y: int, err: int)

  /** One iteration after the plot: with e2 = 2 * err, step in x when
      e2 > -dy and in y when e2 < dx. */
  function Advance(p: LineParams, cur: Cursor): Cursor
  {
    StepY(p, StepX(p, cur, 2 * cur.err), 2 * cur.err)
  }

  /** The x half of an iteration, decided on e2. */
  function StepX(p: LineParams, cur: Cursor, e2: int): Cursor
  {
    if e2 > -p.dy then Cursor(cur.x + p.sx, cur.y, cur.err - p.dy) else cur
  }

  /** The y half of an iteration, decided on the same e2. */
  function StepY(p: LineParams, cur: Cursor, e2: int): Cursor
  {
    if e2 < p.dx then Cursor(cur.x, cur.y + p.sy, cur.err + p.dx) else cur
  }

  /** Short of the end point, an iteration keeps the invariant, moves at
      most one cell in each direction and never overshoots, so the number
      of remaining steps drops. */
  lemma AdvanceProgress(p: LineParams, cur: Cursor)
    requires LineInv(p, cur.x, cur.y, cur.err) && !(cur.x == p.x2 && cur.y == p.y2)
    ensures LineInv(p, Advance(p, cur).x, Advance(p, cur).y, Advance(p, cur).err)
    ensures Rem(p, (Advance(p, cur).x, Advance(p, cur).y)) < Rem(p, (cur.x, cur.y))
    ensures -1 <= Advance(p, cur).x - cur.x <= 1 && -1 <= Advance(p, cur).y - cur.y <= 1
  {
    var a, b := RemX(p, cur.x), RemY(p, cur.y);
    var e2 := 2 * cur.err;
    var xs := if e2 > -p.dy then 1 else 0;
    var ys := if e2 < p.dx then 1 else 0;
    StepBounds(p.dx, p.dy, a, b, cur.err);
    ErrUpdate(p.dx, p.dy, a, b, xs, ys, cur.err);
    var n := Advance(p, cur);
    assert n.x == if xs == 1 then cur.x + p.sx else cur.x;
    assert n.y == if ys == 1 then cur.y + p.sy else cur.y;
    assert n.err == cur.err - p.dy * xs + p.dx * ys;
    assert RemX(p, n.x) == a - xs && RemY(p, n.y) == b - ys;
  }

  /** The Bresenham decision in plain integers: an x step is taken only
      when x steps remain, a y step only when y steps remain, and short of
      the end at least one is taken. */
  lemma StepBounds(dx: int, dy: int, a: int, b: int, err: int)
    requires dx >= 0 && dy >= 0 && 0 <= a <= dx && 0 <= b <= dy
    requires err == dx - dy + dy * a - dx * b && (a > 0 || b > 0)
    ensures 2 * err > -dy ==> a > 0
    ensures 2 * err < dx ==> b > 0
    ensures 2 * err > -dy || 2 * err < dx
  {
    if a == 0 {
      MulLe(1, b, dx);
      assert dx * b >= dx;
    }
    if b == 0 {
      MulLe(1, a, dy);
      assert dy * a >= dy;
    }
  }

  /** The error term stays dx - dy + dy * RemX - dx * RemY after the steps. */
  lemma ErrUpdate(dx: int, dy: int, a: int, b: int, xs: int, ys: int, err: int)
    requires err == dx - dy + dy * a - dx * b
    ensures err - dy * xs + dx * ys == dx - dy + dy * (a - xs) - dx * (b - ys)
  {
    assert dy * (a - xs) == dy * a - dy * xs;
    assert dx * (b - ys) == dx * b - dx * ys;
  }

  /** The points the Bresenham loop plots from the cursor on. */
  function Trace(p: LineParams, cur: Cursor): seq<(int, int)>
    requires LineInv(p, cur.x, cur.y, cur.err)
    decreases Rem(p, (cur.x, cur.y))
  {
    if cur.x == p.x2 && cur.y == p.y2 then [(cur.x, cur.y)]
    else
      AdvanceProgress(p, cur);
      [(cur.x, cur.y)] + Trace(p, Advance(p, cur))
  }

  /** The ghost state of the draw_line loop at the cursor: the loop
      invariant holds, the points done followed by the trace from the cursor
      make up the whole line, and every point done is farther from the end
      than the cursor. */
  ghost predicate LineLoop(p: LineParams, cur: Cursor, done: seq<(int, int)>, whole: seq<(int, int)>)
  {
    && LineInv(p, cur.x, cur.y, cur.err)
    && done + Trace(p, cur) == whole
    && forall q :: q in done ==> Rem(p, q) > Rem(p, (cur.x, cur.y))
  }

  /** The cursor's point has not been plotted yet, and at the end point it
      is the last one of the line. */
  lemma LineVisit(p: LineParams, cur: Cursor, done: seq<(int, int)>, whole: seq<(int, int)>)
    requires LineLoop(p, cur, done, whole)
    ensures (cur.x, cur.y) !in done
    ensures cur.x == p.x2 && cur.y == p.y2 ==> done + [(cur.x, cur.y)] == whole
  {
  }

  /** One iteration of the draw_line loop keeps its invariant: the plotted
      point joins the done list and the remaining distance drops. */
  lemma LoopStep(p: LineParams, cur: Cursor, done: seq<(int, int)>, whole: seq<(int, int)>)
    requires LineLoop(p, cur, done, whole) && !(cur.x == p.x2 && cur.y == p.y2)
    ensures LineLoop(p, Advance(p, cur), done + [(cur.x, cur.y)], whole)
    ensures Rem(p, (Advance(p, cur).x, Advance(p, cur).y)) < Rem(p, (cur.x, cur.y))
  {
    AdvanceProgress(p, cur);
    assert done + Trace(p, cur) == (done + [(cur.x, cur.y)]) + Trace(p, Advance(p, cur));
  }

  /** The loop's state on entry satisfies its invariant. */
  lemma LineStart(x1: int, y1: int, x2: int, y2: int)
    ensures LineInv(ParamsOf(x1, y1, x2, y2), x1, y1, Abs(x2 - x1) - Abs(y2 - y1))
  {
    var p := ParamsOf(x1, y1, x2, y2);
    assert RemX(p, x1) == p.dx && RemY(p, y1) == p.dy;
    assert p.dy * p.dx == p.dx * p.dy;
  }

  /** On entry to the draw_line loop nothing is done and the trace from
      the start is the whole line. */
  lemma LineBegin(x1: int, y1: int, x2: int, y2: int)
    ensures LineLoop(ParamsOf(x1, y1, x2, y2), Cursor(x1, y1, Abs(x2 - x1) - Abs(y2 - y1)), [], LinePoints(x1, y1, x2, y2))
  {
    LineStart(x1, y1, x2, y2);
    assert [] + LinePoints(x1, y1, x2, y2) == LinePoints(x1, y1, x2, y2);
  }

  /** The pixels renderer_draw_line plots, in order. */
  function LinePoints(x1: int, y1: int, x2: int, y2: int): seq<(int, int)>
  {
    LineStart(x1, y1, x2, y2);
    Trace(ParamsOf(x1, y1, x2, y2), Cursor(x1, y1, Abs(x2 - x1) - Abs(y2 - y1)))
  }

  /** A trace starts at the cursor and ends at the end point. */
  lemma {:induction false} TraceEnds(p: LineParams, cur: Cursor)
    requires LineInv(p, cur.x, cur.y, cur.err)
    ensures |Trace(p, cur)| >= 1 && Trace(p, cur)[0] == (cur.x, cur.y)
    ensures Trace(p, cur)[|Trace(p, cur)| - 1] == (p.x2, p.y2)
    decreases Rem(p, (cur.x, cur.y))
  {
    if !(cur.x == p.x2 && cur.y == p.y2) {
      AdvanceProgress(p, cur);
      TraceEnds(p, Advance(p, cur));
    }
  }

  /** Along a trace, consecutive points are neighbours: at most one cell
      apart in x and in y. */
  lemma {:induction false} TraceAdjacent(p: LineParams, cur: Cursor)
    requires LineInv(p, cur.x, cur.y, cur.err)
    ensures forall i :: 0 <= i < |Trace(p, cur)| - 1 ==>
      -1 <= Trace(p, cur)[i + 1].0 - Trace(p, cur)[i].0 <= 1 && -1 <= Trace(p, cur)[i + 1].1 - Trace(p, cur)[i].1 <= 1
    decreases Rem(p, (cur.x, cur.y))
  {
    if !(cur.x == p.x2 && cur.y == p.y2) {
      AdvanceProgress(p, cur);
      var n := Advance(p, cur);
      TraceAdjacent(p, n);
      TraceEnds(p, n);
      var t, u := Trace(p, cur), Trace(p, n);
      assert t == [(cur.x, cur.y)] + u;
      forall i | 0 <= i < |t| - 1
        ensures -1 <= t[i + 1].0 - t[i].0 <= 1 && -1 <= t[i + 1].1 - t[i].1 <= 1
      {
        if i > 0 {
          assert t[i] == u[i - 1] && t[i + 1] == u[i];
        }
      }
    }
  }

  /** Along a trace the remaining distance strictly drops, starting from
      the cursor's, so no point repeats. */
  lemma {:induction false} TraceDecreasing(p: LineParams, cur: Cursor)
    requires LineInv(p, cur.x, cur.y, cur.err)
    ensures forall i :: 0 <= i < |Trace(p, cur)| ==> Rem(p, Trace(p, cur)[i]) <= Rem(p, (cur.x, cur.y))
    ensures forall i, j :: 0 <= i < j < |Trace(p, cur)| ==> Rem(p, Trace(p, cur)[j]) < Rem(p, Trace(p, cur)[i])
    decreases Rem(p, (cur.x, cur.y))
  {
    if !(cur.x == p.x2 && cur.y == p.y2) {
      AdvanceProgress(p, cur);
      var n := Advance(p, cur);
      TraceDecreasing(p, n);
      var t, u := Trace(p, cur), Trace(p, n);
      assert t == [(cur.x, cur.y)] + u;
      forall i | 0 <= i < |t| ensures Rem(p, t[i]) <= Rem(p, (cur.x, cur.y)) {
        if i > 0 {
          assert t[i] == u[i - 1];
        }
      }
      forall i, j | 0 <= i < j < |t| ensures Rem(p, t[j]) < Rem(p, t[i]) {
        assert t[j] == u[j - 1];
        if i > 0 {
          assert t[i] == u[i - 1];
        }
      }
    }
  }

  /** A trace runs from the cursor to the end point through neighbouring
      cells, never visiting a cell twice. */
  lemma TraceProperties(p: LineParams, cur: Cursor)
    requires LineInv(p, cur.x, cur.y, cur.err)
    ensures LineShape(Trace(p, cur), (cur.x, cur.y), (p.x2, p.y2))
  {
    TraceEnds(p, cur);
    TraceAdjacent(p, cur);
    TraceDecreasing(p, cur);
    var t := Trace(p, cur);
    forall i, j | 0 <= i < j < |t| ensures t[i] != t[j] {
      assert Rem(p, t[j]) < Rem(p, t[i]);
    }
  }

  /** The shape of a drawn line from a to b: it starts at a and ends at b,
      each step moves at most one cell in x and in y, and no cell appears
      twice. */
  predicate LineShape(pts: seq<(int, int)>, a: (int, int), b: (int, int))
  {
    && |pts| >= 1 && pts[0] == a && pts[|pts| - 1] == b
    && (forall i :: 0 <= i < |pts| - 1 ==>
          -1 <= pts[i + 1].0 - pts[i].0 <= 1 && -1 <= pts[i + 1].1 - pts[i].1 <= 1)
    && (forall i, j :: 0 <= i < j < |pts| ==> pts[i] != pts[j])
  }

  /** draw_line plots (x1, y1) first and (x2, y2) last, each step moves at
      most one cell in x and in y, and no pixel is plotted twice. */
  lemma LineProperties(x1: int, y1: int, x2: int, y2: int)
    ensures LineShape(LinePoints(x1, y1, x2, y2), (x1, y1), (x2, y2))
  {
    var p, cur := ParamsOf(x1, y1, x2, y2), Cursor(x1, y1, Abs(x2 - x1) - Abs(y2 - y1));
    LineStart(x1, y1, x2, y2);
    TraceProperties(p, cur);
  }

  /** A zero-length line plots exactly one pixel. */
  lemma LineZeroLength(x: int, y: int)
    ensures LinePoints(x, y, x, y) == [(x, y)]
  {
  }

  /** The cells (px, py) a drawing step lights, as a predicate value. */
  type CellSet = (int, int) -> bool

  /** The single cell (x, y). */
  function Single(x: int, y: int): (lit: CellSet)
    ensures forall px, py :: lit(px, py) == (px == x && py == y)
  {
    (px: int, py: int) => px == x && py == y
  }

  /** fb is base with the cells of lit painted in colour c: a lit cell
      holds c painted over its value in base, every other cell its value in
      base. */
  ghost predicate PaintedBy(fb: seq<Pixel>, W: int, lit: CellSet, c: Color, base: seq<Pixel>)
  {
    |fb| == |base| &&
    forall k :: 0 <= k < |fb| ==> fb[k] == if lit(ColOf(W, k), RowOf(W, k)) then Paint(c, base[k]) else base[k]
  }

  /** Nothing lit: the buffer is its base. */
  lemma PaintNone(fb: seq<Pixel>, W: int, lit: CellSet, c: Color)
    requires forall px, py :: !lit(px, py)
    ensures PaintedBy(fb, W, lit, c, fb)
  {
  }

  /** The same cells under another description. */
  lemma PaintSame(fb: seq<Pixel>, W: int, lit: CellSet, lit': CellSet, c: Color, base: seq<Pixel>)
    requires PaintedBy(fb, W, lit, c, base)
    requires forall px, py :: lit(px, py) == lit'(px, py)
    ensures PaintedBy(fb, W, lit', c, base)
  {
  }

  /** Painting the cells of add, none lit before, over a buffer painted
      with the cells of before paints the cells of after, their union. */
  lemma PaintAdd(fb0: seq<Pixel>, fb1: seq<Pixel>, W: int, before: CellSet, add: CellSet, after: CellSet,
                 c: Color, base: seq<Pixel>)
    requires PaintedBy(fb0, W, before, c, base) && PaintedBy(fb1, W, add, c, fb0)
    requires forall px, py :: after(px, py) == (before(px, py) || add(px, py))
    requires forall px, py :: add(px, py) ==> !before(px, py)
    ensures PaintedBy(fb1, W, after, c, base)
  {
  }

  /** The cells of fb at a point of S hold the colour painted over their
      value in base; every other cell still holds its value in base. */
  ghost predicate Painted(fb: seq<Pixel>, W: int, S: seq<(int, int)>, c: Color, base: seq<Pixel>)
  {
    |base| == |fb| &&
    forall k :: 0 <= k < |fb| ==>
      fb[k] == if (ColOf(W, k), RowOf(W, k)) in S then Paint(c, base[k]) else base[k]
  }

  /** draw_circle's loop state: the offsets done and those still to come
      from the cursor make up the circle, and the done ones are covered. */
  ghost predicate CircleLoop(fb: seq<Pixel>, W: int, radius: int, cur: Cursor, done: set<(int, int)>,
                             cx: int, cy: int, c: Color, base: seq<Pixel>)
  {
    done + CircleFrom(cur) == CircleCells(radius) && Marked(fb, W, done, cx, cy, c, base)
  }

  /** Once the cursor is past the octant, every offset of the circle is done. */
  lemma CircleDone(fb: seq<Pixel>, W: int, radius: int, cur: Cursor, done: set<(int, int)>,
                   cx: int, cy: int, c: Color, base: seq<Pixel>)
    requires CircleLoop(fb, W, radius, cur, done, cx, cy, c, base) && cur.x < cur.y
    ensures Marked(fb, W, CircleCells(radius), cx, cy, c, base)
  {
    assert done == CircleCells(radius);
  }

  /** The cells of fb whose offset from (cx, cy) is in S are covered by
      the colour; every other cell still holds its value in base. */
  ghost predicate Marked(fb: seq<Pixel>, W: int, S: set<(int, int)>, cx: int, cy: int, c: Color, base: seq<Pixel>)
  {
    |base| == |fb| &&
    forall k :: 0 <= k < |fb| ==>
      if (ColOf(W, k) - cx, RowOf(W, k) - cy) in S then Covered(fb[k], c, base[k]) else fb[k] == base[k]
  }

  /** What a cell holds once some pixel of the colour has been drawn over
      d, possibly more than once: it is opaque, equal to the colour when
      that is opaque, and each colour channel lies between the colour's
      and d's. */
  predicate Covered(p: Pixel, c: Color, d: Pixel)
  {
    && AlphaOf(p) == 255 && (c.a == 255 ==> p == Pack(c))
    && Between(RedOf(p), c.r, RedOf(d))
    && Between(GreenOf(p), c.g, GreenOf(d))
    && Between(BlueOf(p), c.b, BlueOf(d))
  }

  /** Painting over a cell that is covered by the colour, or still holds
      d, leaves it covered over d. */
  lemma PaintOver(q: Pixel, c: Color, d: Pixel)
    requires Covered(q, c, d) || q == d
    ensures Covered(Paint(c, q), c, d)
  {
  }

  /** The eight reflections draw_circle plots for the octant point (x, y). */
  function Octants(x: int, y: int): set<(int, int)>
  {
    {(x, y), (y, x), (-y, x), (-x, y), (-x, -y), (-y, -x), (y, -x), (x, -y)}
  }

  /** The first four reflections draw_circle plots for (x, y). */
  function Half(x: int, y: int): set<(int, int)>
  {
    {(x, y), (y, x), (-y, x), (-x, y)}
  }

  /** The eight plots of one iteration add exactly the octant set. */
  lemma OctantsUnion(S: set<(int, int)>, x: int, y: int)
    ensures S + Half(x, y) + Half(-x, -y) == S + Octants(x, y)
  {
  }

  /** One iteration of the midpoint loop after its plots: a y step while
      err <= 0, then an x step once err > 0. Either way x - y drops. */
  function CircleAdvance(cur: Cursor): (n: Cursor)
    ensures n.x - n.y < cur.x - cur.y
  {
    var c1 := if cur.err <= 0 then Cursor(cur.x, cur.y + 1, cur.err + 2 * (cur.y + 1) + 1) else cur;
    if c1.err > 0 then Cursor(c1.x - 1, c1.y, c1.err - (2 * (c1.x - 1) + 1)) else c1
  }

  /** The offsets draw_circle paints from the cursor on: the eight
      reflections of each octant point the loop visits while x >= y. */
  function CircleFrom(cur: Cursor): set<(int, int)>
    decreases cur.x - cur.y + 1
  {
    if cur.x < cur.y then {} else Octants(cur.x, cur.y) + CircleFrom(CircleAdvance(cur))
  }

  /** The offsets from the centre that draw_circle paints for a radius. */
  function CircleCells(radius: int): set<(int, int)>
  {
    CircleFrom(Cursor(radius, 0, 0))
  }

  /** One iteration of draw_circle moves the reflections of its point from
      the cells still to come to the cells done. */
  lemma CircleLoopStep(done: set<(int, int)>, cur: Cursor)
    requires cur.x >= cur.y
    ensures done + CircleFrom(cur) == (done + Octants(cur.x, cur.y)) + CircleFrom(CircleAdvance(cur))
  {
  }

  /** The outline is symmetric: swapping the axes or mirroring either one
      maps a painted offset to a painted offset (these generate all eight
      symmetries of the square). */
  lemma {:induction false} CircleSymmetric(cur: Cursor, dx: int, dy: int)
    requires (dx, dy) in CircleFrom(cur)
    ensures (dy, dx) in CircleFrom(cur) && (-dx, dy) in CircleFrom(cur) && (dx, -dy) in CircleFrom(cur)
    decreases cur.x - cur.y + 1
  {
    if (dx, dy) !in Octants(cur.x, cur.y) {
      CircleSymmetric(CircleAdvance(cur), dx, dy);
    }
  }

  /** From a cursor with y >= 0 and x <= r, every painted offset lies in
      the square [-r, r] x [-r, r]. */
  lemma {:induction false} CircleBounded(cur: Cursor, r: int, dx: int, dy: int)
    requires 0 <= cur.y && cur.x <= r
    requires (dx, dy) in CircleFrom(cur)
    ensures -r <= dx <= r && -r <= dy <= r
    decreases cur.x - cur.y + 1
  {
    if (dx, dy) !in Octants(cur.x, cur.y) {
      CircleBounded(CircleAdvance(cur), r, dx, dy);
    }
  }

  /** draw_circle stays inside the bounding square of the circle, is
      symmetric, and for radius >= 0 plots the four axis points at distance
      radius; a negative radius plots nothing. */
  lemma CircleProperties(radius: int, dx: int, dy: int)
    ensures (dx, dy) in CircleCells(radius) ==>
      && -radius <= dx <= radius && -radius <= dy <= radius
      && (dy, dx) in CircleCells(radius)
      && (-dx, dy) in CircleCells(radius)
      && (dx, -dy) in CircleCells(radius)
    ensures radius >= 0 ==>
      && (radius, 0) in CircleCells(radius)
      && (0, radius) in CircleCells(radius)
      && (-radius, 0) in CircleCells(radius)
      && (0, -radius) in CircleCells(radius)
    ensures radius < 0 ==> CircleCells(radius) == {}
  {
    if (dx, dy) in CircleCells(radius) {
      CircleBounded(Cursor(radius, 0, 0), radius, dx, dy);
      CircleSymmetric(Cursor(radius, 0, 0), dx, dy);
    }
  }

  /** A circle of radius 0 is its centre alone. */
  lemma CircleRadiusZero()
    ensures CircleCells(0) == {(0, 0)}
  {
    assert CircleAdvance(Cursor(0, 0, 0)) == Cursor(-1, 1, 4);
    assert CircleFrom(Cursor(-1, 1, 4)) == {};
  }

  /** One swap at the top of draw_filled_triangle: the two vertices in
      order of y, unchanged when already in order. */
  function OrderY(a: (int, int), b: (int, int)): ((int, int), (int, int))
  {
    if a.1 > b.1 then (b, a) else (a, b)
  }

  /** The three swaps at the top of draw_filled_triangle. */
  function SortByY(a: (int, int), b: (int, int), q: (int, int)): ((int, int), (int, int), (int, int))
  {
    var first := OrderY(a, b);
    var second := OrderY(first.0, q);
    var third := OrderY(first.1, second.1);
    (second.0, third.0, third.1)
  }

  /** The swaps order the vertices by y and only permute them. */
  lemma SortByYSorted(a: (int, int), b: (int, int), q: (int, int))
    ensures var r := SortByY(a, b, q);
      r.0.1 <= r.1.1 <= r.2.1 && multiset{r.0, r.1, r.2} == multiset{a, b, q}
  {
  }

  /** The edge point at step t of T from a to b, computed exactly and
      truncated toward zero, as the float interpolation converted to int
      does. */
  function Lerp(a: int, b: int, t: int, T: int): int
    requires T > 0
  {
    CDiv(a * T + (b - a) * t, T)
  }

  /** Euclidean division by T > 0 is monotone between multiples of T. */
  lemma DivBetween(v: int, T: int, lo: int, hi: int)
    requires T > 0 && lo * T <= v <= hi * T
    ensures lo <= v / T <= hi
  {
    var q := v / T;
    assert v == q * T + v % T;
    if q < lo {
      MulLe(q + 1, lo, T);
    }
    if q > hi {
      MulLe(hi + 1, q, T);
    }
  }

  /** C's truncating division by T > 0 is monotone between multiples of T. */
  lemma CDivBetween(v: int, T: int, lo: int, hi: int)
    requires T > 0 && lo * T <= v <= hi * T
    ensures lo <= CDiv(v, T) <= hi
  {
    if v >= 0 {
      DivBetween(v, T, lo, hi);
      assert CDiv(v, T) == v / T;
    } else {
      assert -hi * T <= -v <= -lo * T;
      DivBetween(-v, T, -hi, -lo);
      assert CDiv(v, T) == -((-v) / T);
    }
  }

  /** a * (T - t) + b * t lies between min(a, b) * T and max(a, b) * T. */
  lemma WeightedBetween(a: int, b: int, t: int, T: int)
    requires 0 <= t <= T
    ensures a <= b ==> a * T <= a * T + (b - a) * t <= b * T
    ensures b <= a ==> b * T <= a * T + (b - a) * t <= a * T
  {
    if a <= b {
      MulLe(0, b - a, t);
      MulLe(t, T, b - a);
      assert (b - a) * T == b * T - a * T;
    } else {
      MulLe(0, a - b, t);
      MulLe(t, T, a - b);
      assert (a - b) * T == a * T - b * T;
    }
  }

  /** An interpolated point lies between the two ends, is the start at
      t = 0 and the end at t = T. */
  lemma LerpBetween(a: int, b: int, t: int, T: int)
    requires T > 0 && 0 <= t <= T
    ensures Between(Lerp(a, b, t, T), a, b)
    ensures t == 0 ==> Lerp(a, b, t, T) == a
    ensures t == T ==> Lerp(a, b, t, T) == b
  {
    WeightedBetween(a, b, t, T);
    if a <= b {
      CDivBetween(a * T + (b - a) * t, T, a, b);
    } else {
      CDivBetween(a * T + (b - a) * t, T, b, a);
    }
    if t == 0 {
      CDivBetween(a * T, T, a, a);
    }
    if t == T {
      assert a * T + (b - a) * t == b * T;
      CDivBetween(b * T, T, b, b);
    }
  }

  /** The span of row y for vertices ordered by y with a.1 < q.1: None
      where draw_filled_triangle skips the row because the edge it meets
      has zero height, else the ordered pair (xa, xb). */
  function Span(a: (int, int), b: (int, int), q: (int, int), y: int): Option<(int, int)>
    requires a.1 <= b.1 <= q.1 && a.1 < q.1
  {
    var second := y > b.1 || b.1 == a.1;
    var segment := if second then q.1 - b.1 else b.1 - a.1;
    if segment == 0 then None
    else
      var xa := Lerp(a.0, q.0, y - a.1, q.1 - a.1);
      var xb := if second then Lerp(b.0, q.0, y - b.1, segment) else Lerp(a.0, b.0, y - a.1, segment);
      Some(if xa > xb then (xb, xa) else (xa, xb))
  }

  /** The cells draw_filled_triangle paints for vertices ordered by y. */
  predicate InFilled(px: int, py: int, a: (int, int), b: (int, int), q: (int, int))
    requires a.1 <= b.1 <= q.1
  {
    a.1 < q.1 && a.1 <= py <= q.1 && Span(a, b, q, py).Some?
    && Span(a, b, q, py).value.0 <= px <= Span(a, b, q, py).value.1
  }

  /** Row y of the filled triangle is exactly the span between the two
      edge points the loop computes for it. */
  lemma SpanRow(x1: int, y1: int, x2: int, y2: int, x3: int, y3: int, y: int, second: bool, segment: int, xa: int, xb: int)
    requires y1 <= y2 <= y3 && y1 < y3 && y1 <= y <= y3
    requires second == (y > y2 || y2 == y1)
    requires segment == (if second then y3 - y2 else y2 - y1) && segment != 0
    requires xa == Lerp(x1, x3, y - y1, y3 - y1)
    requires xb == if second then Lerp(x2, x3, y - y2, segment) else Lerp(x1, x2, y - y1, segment)
    ensures forall px :: InFilled(px, y, (x1, y1), (x2, y2), (x3, y3)) <==> if xa > xb then xb <= px <= xa else xa <= px <= xb
  {
  }

  /** A row the loop skips holds no cell of the filled triangle. */
  lemma SpanSkip(x1: int, y1: int, x2: int, y2: int, x3: int, y3: int, y: int)
    requires y1 <= y2 <= y3 && y1 < y3
    requires (if y > y2 || y2 == y1 then y3 - y2 else y2 - y1) == 0
    ensures forall px :: !InFilled(px, y, (x1, y1), (x2, y2), (x3, y3))
  {
  }

  /** Within the triangle's rows the skip never happens: the edge a row
      meets always has positive height. */
  lemma SegmentNeverZero(a: (int, int), b: (int, int), q: (int, int), y: int)
    requires a.1 <= b.1 <= q.1 && a.1 < q.1 && a.1 <= y <= q.1
    ensures Span(a, b, q, y).Some?
  {
  }

  /** Each row's span lies within the x range of the vertices. */
  lemma SpanBounded(a: (int, int), b: (int, int), q: (int, int), y: int)
    requires a.1 <= b.1 <= q.1 && a.1 < q.1 && a.1 <= y <= q.1
    ensures Span(a, b, q, y).Some?
    ensures Min3(a.0, b.0, q.0) <= Span(a, b, q, y).value.0
    ensures Span(a, b, q, y).value.1 <= Max3(a.0, b.0, q.0)
  {
    var second := y > b.1 || b.1 == a.1;
    var segment := if second then q.1 - b.1 else b.1 - a.1;
    LerpBetween(a.0, q.0, y - a.1, q.1 - a.1);
    if second {
      LerpBetween(b.0, q.0, y - b.1, segment);
    } else {
      LerpBetween(a.0, b.0, y - a.1, segment);
    }
  }

  /** A filled triangle stays inside its bounding box, and is empty when
      all three vertices share a row. */
  lemma FilledTriangleBounded(a: (int, int), b: (int, int), q: (int, int), px: int, py: int)
    requires a.1 <= b.1 <= q.1
    ensures InFilled(px, py, a, b, q) ==>
      && Min3(a.1, b.1, q.1) <= py <= Max3(a.1, b.1, q.1)
      && Min3(a.0, b.0, q.0) <= px <= Max3(a.0, b.0, q.0)
    ensures a.1 == q.1 ==> !InFilled(px, py, a, b, q)
  {
    if InFilled(px, py, a, b, q) {
      SpanBounded(a, b, q, py);
    }
  }

  /** A filled triangle with rows between its vertices covers all three
      vertices. */
  lemma FilledTriangleVertices(a: (int, int), b: (int, int), q: (int, int))
    requires a.1 <= b.1 <= q.1 && a.1 < q.1
    ensures InFilled(a.0, a.1, a, b, q) && InFilled(b.0, b.1, a, b, q) && InFilled(q.0, q.1, a, b, q)
  {
    var T := q.1 - a.1;
    SegmentNeverZero(a, b, q, a.1);
    SegmentNeverZero(a, b, q, b.1);
    SegmentNeverZero(a, b, q, q.1);
    LerpBetween(a.0, q.0, 0, T);
    LerpBetween(a.0, q.0, T, T);
    assert Lerp(a.0, q.0, a.1 - a.1, T) == a.0;
    assert Lerp(a.0, q.0, q.1 - a.1, T) == q.0;
    if b.1 == a.1 {
      LerpBetween(b.0, q.0, 0, q.1 - b.1);
      assert Lerp(b.0, q.0, b.1 - b.1, q.1 - b.1) == b.0;
    } else {
      LerpBetween(a.0, b.0, b.1 - a.1, b.1 - a.1);
      if b.1 < q.1 {
        LerpBetween(b.0, q.0, q.1 - b.1, q.1 - b.1);
      }
    }
  }

  function Min3(a: int, b: int, c: int): int { if a <= b && a <= c then a else if b <= c then b else c }
  function Max3(a: int, b: int, c: int): int { if a >= b && a >= c then a else if b >= c then b else c }
}
