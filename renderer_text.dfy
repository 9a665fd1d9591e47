/** renderer_draw_text of Renderer/src/renderer.c: an 8x8 bitmap font,
    each set bit drawn as a scale x scale block of pixels. */
module RendererText {
  import opened Common
  import opened NumberTheory
  import opened Renderer

  /** font_data: 128 glyphs of eight row bytes. Glyph g's row r is byte r
      of FONT_DATA[g] (the rows packed little-endian); bit c of a row byte
      (value 2^c) lights column c. */
  const FONT_DATA: seq<nat> := [
    0x0000000000000000, 0x0000000000000000, 0x0000000000000000, 0x0000000000000000,
    0x0000000000000000, 0x0000000000000000, 0x0000000000000000, 0x0000000000000000,
    0x0000000000000000, 0x0000000000000000, 0x0000000000000000, 0x0000000000000000,
    0x0000000000000000, 0x0000000000000000, 0x0000000000000000, 0x0000000000000000,
    0x0000000000000000, 0x0000000000000000, 0x0000000000000000, 0x0000000000000000,
    0x0000000000000000, 0x0000000000000000, 0x0000000000000000, 0x0000000000000000,
    0x0000000000000000, 0x0000000000000000, 0x0000000000000000, 0x0000000000000000,
    0x0000000000000000, 0x0000000000000000, 0x0000000000000000, 0x0000000000000000,
    0x0000000000000000, 0x00180018183C3C18, 0x0000000000003636, 0x0036367F367F3636,
    0x000C1F301E033E0C, 0x0063660C18336300, 0x006E333B6E1C361C, 0x0000000000030606,
    0x00180C0606060C18, 0x00060C1818180C06, 0x0000663CFF3C6600, 0x00000C0C3F0C0C00,
    0x060C0C0000000000, 0x000000003F000000, 0x000C0C0000000000, 0x000103060C183060,
    0x003E676F7B73633E, 0x003F0C0C0C0C0E0C, 0x003F33061C30331E, 0x001E33301C30331E,
    0x0078307F33363C38, 0x001E3330301F033F, 0x001E33331F03061C, 0x000C0C0C1830333F,
    0x001E33331E33331E, 0x000E18303E33331E, 0x000C0C00000C0C00, 0x060C0C00000C0C00,
    0x00180C0603060C18, 0x00003F00003F0000, 0x00060C1830180C06, 0x000C000C1830331E,
    0x001E037B7B7B633E, 0x0033333F33331E0C, 0x003F66663E66663F, 0x003C66030303663C,
    0x001F36666666361F, 0x007F46161E16467F, 0x000F06161E16467F, 0x007C66730303663C,
    0x003333333F333333, 0x001E0C0C0C0C0C1E, 0x001E333330303078, 0x006766361E366667,
    0x007F66460606060F, 0x0063636B7F7F7763, 0x006363737B6F6763, 0x001C36636363361C,
    0x000F06063E66663F, 0x00381E3B3333331E, 0x006766363E66663F, 0x001E33380E07331E,
    0x001E0C0C0C0C2D3F, 0x003F333333333333, 0x000C1E3333333333, 0x0063777F6B636363,
    0x0063361C1C366363, 0x001E0C0C1E333333, 0x007F664C1831637F, 0x001E06060606061E,
    0x00406030180C0603, 0x001E18181818181E, 0x0000000063361C08, 0xFF00000000000000,
    0x0000000000180C0C, 0x006E333E301E0000, 0x003B66663E060607, 0x001E3303331E0000,
    0x006E33333E303038, 0x001E033F331E0000, 0x000F06060F06361C, 0x1F303E33336E0000,
    0x006766666E360607, 0x001E0C0C0C0E000C, 0x1E33333030300030, 0x0067361E36660607,
    0x001E0C0C0C0C0C0E, 0x00636B7F7F330000, 0x00333333331F0000, 0x001E3333331E0000,
    0x0F063E66663B0000, 0x78303E33336E0000, 0x000F06666E3B0000, 0x001F301E033E0000,
    0x00182C0C0C3E0C08, 0x006E333333330000, 0x000C1E3333330000, 0x00367F7F6B630000,
    0x0063361C36630000, 0x1F303E3333330000, 0x003F260C193F0000, 0x00380C0C070C0C38,
    0x0018181800181818, 0x00070C0C380C0C07, 0x0000000000003B6E, 0x0000000000000000
  ]

  /** Row r of glyph g of a font packed as FONT_DATA is: font_data[g][r].
      The text functions below take the font as a parameter so that their
      lemmas hold for any table; draw_text itself uses FONT_DATA. */
  function FontRow(font: seq<nat>, g: nat, r: nat): Byte
    requires r < 8
  {
    if g >= |font| then 0 else
    (font[g] / [1, 0x100, 0x1_0000, 0x100_0000, 0x1_0000_0000, 0x100_0000_0000,
                     0x1_0000_0000_0000, 0x100_0000_0000_0000][r]) % 0x100
  }

  /** The glyph a byte of the text uses: codes from 128 on use glyph 0. */
  function Glyph(ch: Byte): (g: nat)
    ensures g < 128
  {
    if ch >= 128 then 0 else ch
  }

  /** byte & (1 << col) is non-zero: bit col of the byte is set. */
  predicate Bit(b: Byte, col: int)
    requires 0 <= col < 8
  {
    (b / [1, 2, 4, 8, 16, 32, 64, 128][col]) % 2 == 1
  }

  /** The offset (dx, dy) from a glyph's top-left corner is lit when it
      falls in the block of a set bit: row dy / scale, column dx / scale. */
  predicate GlyphCell(font: seq<nat>, g: nat, scale: int, dx: int, dy: int)
  {
    && scale > 0 && dx >= 0 && dy >= 0 && dx / scale < 8 && dy / scale < 8
    && Bit(FontRow(font, g, dy / scale), dx / scale)
  }

  /** A lit cell of a glyph lies in its 8 * scale square. */
  lemma GlyphBox(font: seq<nat>, g: nat, scale: int, dx: int, dy: int)
    requires GlyphCell(font, g, scale, dx, dy)
    ensures 0 <= dx < 8 * scale && 0 <= dy < 8 * scale
  {
    DivBound(dx, scale);
    DivBound(dy, scale);
  }

  lemma DivBound(v: int, s: int)
    requires s > 0 && v >= 0 && v / s < 8
    ensures v < 8 * s
  {
    DivModUnique(v, s, v / s, v % s);
    MulLe(v / s, 7, s);
  }
  /** Where draw_text's pen stands after the bytes of text, starting at
      (startX, y0): a newline returns x to startX and moves y down one
      8 * scale line; every other byte moves x right by 8 * scale. */
  function PenAfter(text: seq<Byte>, startX: int, y0: int, scale: int): (int, int)
  {
    if |text| == 0 then (startX, y0)
    else
      var pen := PenAfter(text[..|text| - 1], startX, y0, scale);
      if text[|text| - 1] == '\n' as int then (startX, pen.1 + 8 * scale) else (pen.0 + 8 * scale, pen.1)
  }

  /** The cell (px, py) is lit by the bytes of text: by a glyph drawn at the
      pen position of a byte that is not a newline. */
  predicate InText(font: seq<nat>, text: seq<Byte>, startX: int, y0: int, scale: int, px: int, py: int)
  {
    if |text| == 0 then false
    else
      var prefix, ch := text[..|text| - 1], text[|text| - 1];
      var pen := PenAfter(prefix, startX, y0, scale);
      || InText(font, prefix, startX, y0, scale, px, py)
      || (ch != '\n' as int && GlyphCell(font, Glyph(ch), scale, px - pen.0, py - pen.1))
  }

  /** Bytes before the first NUL: the C string's length. */
  function StrLen(text: seq<Byte>): (n: nat)
    ensures n <= |text| && (n < |text| ==> text[n] == 0)
    ensures forall i :: 0 <= i < n ==> text[i] != 0
  {
    if |text| == 0 || text[0] == 0 then 0 else 1 + StrLen(text[1..])
  }

  /** Every lit cell lies above the pen's line, or on its line to the
      left of the pen: the glyph drawn at the pen cannot overlap them. */
  lemma {:induction false} InTextBeforePen(font: seq<nat>, text: seq<Byte>, startX: int, y0: int, scale: int, px: int, py: int)
    requires scale > 0 && InText(font, text, startX, y0, scale, px, py)
    ensures var pen := PenAfter(text, startX, y0, scale);
      py < pen.1 || (py < pen.1 + 8 * scale && px < pen.0)
  {
    var prefix, ch := text[..|text| - 1], text[|text| - 1];
    var pen := PenAfter(prefix, startX, y0, scale);
    if InText(font, prefix, startX, y0, scale, px, py) {
      InTextBeforePen(font, prefix, startX, y0, scale, px, py);
    } else {
      GlyphBox(font, Glyph(ch), scale, px - pen.0, py - pen.1);
    }
  }

  /** The pen's line is y0 plus one 8 * scale step per newline, and its
      column is startX plus one step per byte since the last newline. */
  lemma {:induction false} PenClosedForm(text: seq<Byte>, startX: int, y0: int, scale: int)
    ensures PenAfter(text, startX, y0, scale).1 == y0 + 8 * scale * Newlines(text)
    ensures PenAfter(text, startX, y0, scale).0 == startX + 8 * scale * SinceNewline(text)
  {
    if |text| > 0 {
      PenClosedForm(text[..|text| - 1], startX, y0, scale);
    }
  }

  /** The number of newline bytes in text. */
  function Newlines(text: seq<Byte>): nat
  {
    if |text| == 0 then 0
    else Newlines(text[..|text| - 1]) + if text[|text| - 1] == '\n' as int then 1 else 0
  }

  /** The number of bytes after the last newline of text. */
  function SinceNewline(text: seq<Byte>): nat
  {
    if |text| == 0 then 0
    else if text[|text| - 1] == '\n' as int then 0
    else SinceNewline(text[..|text| - 1]) + 1
  }

  /** A newline byte lights nothing. */
  lemma NewlineLightsNothing(font: seq<nat>, text: seq<Byte>, startX: int, y0: int, scale: int, px: int, py: int)
    requires |text| > 0 && text[|text| - 1] == '\n' as int
    ensures InText(font, text, startX, y0, scale, px, py) == InText(font, text[..|text| - 1], startX, y0, scale, px, py)
  {
  }

  /** Codes from 128 on draw glyph 0. */
  lemma HighCodesUseGlyphZero(font: seq<nat>, ch: Byte, scale: int, dx: int, dy: int)
    requires ch >= 128
    ensures GlyphCell(font, Glyph(ch), scale, dx, dy) == GlyphCell(font, 0, scale, dx, dy)
  {
  }

  /** The offset (dx, dy) lies in the scale x scale block of row r and
      column c exactly when dy / scale == r and dx / scale == c. */
  lemma BlockCell(scale: int, r: int, c: int, dx: int, dy: int)
    requires scale > 0
    ensures (c * scale <= dx < c * scale + scale && r * scale <= dy < r * scale + scale)
        <==> (dx / scale == c && dy / scale == r)
  {
    if dx / scale == c {
      DivModUnique(dx, scale, dx / scale, dx % scale);
    }
    if c * scale <= dx < c * scale + scale {
      DivModUnique(dx, scale, c, dx - c * scale);
    }
    if dy / scale == r {
      DivModUnique(dy, scale, dy / scale, dy % scale);
    }
    if r * scale <= dy < r * scale + scale {
      DivModUnique(dy, scale, r, dy - r * scale);
    }
  }

  /** The glyph cells drawn before row r, column c, in the loop order. */
  predicate GlyphBefore(font: seq<nat>, g: nat, scale: int, dx: int, dy: int, r: int, c: int)
  {
    GlyphCell(font, g, scale, dx, dy) && (dy / scale < r || (dy / scale == r && dx / scale < c))
  }

  /** The cells of glyph g drawn at (x, y) before row r, column c. */
  function GlyphUpTo(font: seq<nat>, g: nat, scale: int, x: int, y: int, r: int, c: int): (lit: CellSet)
    ensures forall px, py :: lit(px, py) == GlyphBefore(font, g, scale, px - x, py - y, r, c)
  {
    (px: int, py: int) => GlyphBefore(font, g, scale, px - x, py - y, r, c)
  }

  /** The cells of glyph g drawn at (x, y). */
  function GlyphAt(font: seq<nat>, g: nat, scale: int, x: int, y: int): (lit: CellSet)
    ensures forall px, py :: lit(px, py) == GlyphCell(font, g, scale, px - x, py - y)
  {
    (px: int, py: int) => GlyphCell(font, g, scale, px - x, py - y)
  }

  /** The scale x scale block with its top-left corner at (x, y). */
  function Block(x: int, y: int, scale: int): (lit: CellSet)
    ensures forall px, py :: lit(px, py) == InRect(px, py, x, y, scale, scale)
  {
    (px: int, py: int) => InRect(px, py, x, y, scale, scale)
  }

  /** The cells lit by the bytes of text. */
  function TextAt(font: seq<nat>, text: seq<Byte>, startX: int, y0: int, scale: int): (lit: CellSet)
    ensures forall px, py :: lit(px, py) == InText(font, text, startX, y0, scale, px, py)
  {
    (px: int, py: int) => InText(font, text, startX, y0, scale, px, py)
  }

  /** The row and column loops of renderer_draw_text for glyph g with its
      top-left corner at (x, y). Each lit cell is painted once; nothing
      else changes. */
  method DrawGlyph(font: seq<nat>, rend: Renderer, x: int, y: int, g: nat, scale: int, c: Color)
    requires rend.Valid()
    modifies rend.framebuffer
    ensures PaintedBy(rend.framebuffer[..], rend.width, GlyphAt(font, g, scale, x, y), c, old(rend.framebuffer[..]))
  {
    ghost var base := rend.framebuffer[..];
    GlyphStart(font, base, rend.width, x, y, g, scale, c);
    for row := 0 to 8
      invariant PaintedBy(rend.framebuffer[..], rend.width, GlyphUpTo(font, g, scale, x, y, row, 0), c, base)
    {
      var byte := FontRow(font, g, row);
      for col := 0 to 8
        invariant PaintedBy(rend.framebuffer[..], rend.width, GlyphUpTo(font, g, scale, x, y, row, col), c, base)
      {
        DrawBlock(font, rend, x, y, g, scale, row, col, byte, c, base);
      }
      RowStep(font, rend.framebuffer[..], rend.width, x, y, g, scale, row, c, base);
    }
    GlyphDone(font, rend.framebuffer[..], rend.width, x, y, g, scale, c, base);
  }

  /** The body of DrawGlyph's column loop: when bit col of the row byte is
      set, the scale x scale block at that row and column is drawn (the two
      innermost loops of renderer_draw_text are renderer_draw_filled_rect's
      loops over that block). */
  method DrawBlock(font: seq<nat>, rend: Renderer, x: int, y: int, g: nat, scale: int, row: int, col: int, byte: Byte, c: Color,
                   ghost base: seq<Pixel>)
    requires rend.Valid() && 0 <= row < 8 && 0 <= col < 8 && byte == FontRow(font, g, row)
    requires PaintedBy(rend.framebuffer[..], rend.width, GlyphUpTo(font, g, scale, x, y, row, col), c, base)
    modifies rend.framebuffer
    ensures PaintedBy(rend.framebuffer[..], rend.width, GlyphUpTo(font, g, scale, x, y, row, col + 1), c, base)
  {
    ghost var prev := rend.framebuffer[..];
    ghost var before, after := GlyphUpTo(font, g, scale, x, y, row, col), GlyphUpTo(font, g, scale, x, y, row, col + 1);
    ghost var block := Block(x + col * scale, y + row * scale, scale);
    BlockStep(font, g, scale, x, y, row, col);
    if Bit(byte, col) {
      rend.DrawFilledRect(x + col * scale, y + row * scale, scale, scale, c);
      assert PaintedBy(rend.framebuffer[..], rend.width, block, c, prev) by {
        forall k | 0 <= k < rend.framebuffer.Length
          ensures rend.framebuffer[..][k] == if block(ColOf(rend.width, k), RowOf(rend.width, k)) then Paint(c, prev[k]) else prev[k]
        {
        }
      }
      PaintAdd(prev, rend.framebuffer[..], rend.width, before, block, after, c, base);
    } else {
      PaintSame(prev, rend.width, before, after, c, base);
    }
  }

  /** One column step of DrawGlyph: the cells lit up to the next column are
      those lit so far and, when bit col is set, the block at row, col,
      none of whose cells was lit before. */
  lemma BlockStep(font: seq<nat>, g: nat, scale: int, x: int, y: int, row: int, col: int)
    requires 0 <= row < 8 && 0 <= col < 8
    ensures var before, after := GlyphUpTo(font, g, scale, x, y, row, col), GlyphUpTo(font, g, scale, x, y, row, col + 1);
      var block := Block(x + col * scale, y + row * scale, scale);
      && (forall px, py :: after(px, py) == (before(px, py) || (Bit(FontRow(font, g, row), col) && block(px, py))))
      && (forall px, py :: block(px, py) ==> !before(px, py))
  {
    var before, after := GlyphUpTo(font, g, scale, x, y, row, col), GlyphUpTo(font, g, scale, x, y, row, col + 1);
    var block := Block(x + col * scale, y + row * scale, scale);
    forall px, py
      ensures after(px, py) == (before(px, py) || (Bit(FontRow(font, g, row), col) && block(px, py)))
      ensures block(px, py) ==> !before(px, py)
    {
      CellStep(font, g, scale, row, col, px - x, py - y);
    }
  }

  /** For one offset: the block at row, column holds exactly the cells that
      the step lights, and none of them was lit before. */
  lemma CellStep(font: seq<nat>, g: nat, scale: int, row: int, col: int, dx: int, dy: int)
    requires 0 <= row < 8 && 0 <= col < 8
    ensures GlyphBefore(font, g, scale, dx, dy, row, col + 1)
        == (GlyphBefore(font, g, scale, dx, dy, row, col)
            || (Bit(FontRow(font, g, row), col) && InRect(dx, dy, col * scale, row * scale, scale, scale)))
    ensures InRect(dx, dy, col * scale, row * scale, scale, scale) ==> !GlyphBefore(font, g, scale, dx, dy, row, col)
  {
    if scale > 0 {
      BlockCell(scale, row, col, dx, dy);
    }
  }

  /** Before the first row nothing is lit. */
  lemma GlyphStart(font: seq<nat>, base: seq<Pixel>, W: int, x: int, y: int, g: nat, scale: int, c: Color)
    ensures PaintedBy(base, W, GlyphUpTo(font, g, scale, x, y, 0, 0), c, base)
  {
    var none := GlyphUpTo(font, g, scale, x, y, 0, 0);
    forall px, py ensures !none(px, py) {
      var dx, dy := px - x, py - y;
      if scale > 0 && dx >= 0 && dy >= 0 {
        DivNonneg(dx, scale);
        DivNonneg(dy, scale);
      }
    }
    PaintNone(base, W, GlyphUpTo(font, g, scale, x, y, 0, 0), c);
  }

  lemma DivNonneg(v: int, s: int)
    requires v >= 0 && s > 0
    ensures v / s >= 0
  {
  }

  /** Past the last column of a row, the cells before the next row are lit. */
  lemma RowStep(font: seq<nat>, fb: seq<Pixel>, W: int, x: int, y: int, g: nat, scale: int, row: int, c: Color, base: seq<Pixel>)
    requires PaintedBy(fb, W, GlyphUpTo(font, g, scale, x, y, row, 8), c, base)
    ensures PaintedBy(fb, W, GlyphUpTo(font, g, scale, x, y, row + 1, 0), c, base)
  {
    var before, after := GlyphUpTo(font, g, scale, x, y, row, 8), GlyphUpTo(font, g, scale, x, y, row + 1, 0);
    forall px, py ensures before(px, py) == after(px, py) {
      NextRowCell(font, g, scale, row, px - x, py - y);
    }
    PaintSame(fb, W, GlyphUpTo(font, g, scale, x, y, row, 8), GlyphUpTo(font, g, scale, x, y, row + 1, 0), c, base);
  }

  /** For one offset: the cells before column 8 of a row are those before
      the next row, and past the last row every cell of the glyph. */
  lemma NextRowCell(font: seq<nat>, g: nat, scale: int, row: int, dx: int, dy: int)
    ensures GlyphBefore(font, g, scale, dx, dy, row, 8) == GlyphBefore(font, g, scale, dx, dy, row + 1, 0)
    ensures GlyphBefore(font, g, scale, dx, dy, 8, 0) == GlyphCell(font, g, scale, dx, dy)
  {
  }

  /** Past the last row, every lit cell is painted. */
  lemma GlyphDone(font: seq<nat>, fb: seq<Pixel>, W: int, x: int, y: int, g: nat, scale: int, c: Color, base: seq<Pixel>)
    requires PaintedBy(fb, W, GlyphUpTo(font, g, scale, x, y, 8, 0), c, base)
    ensures PaintedBy(fb, W, GlyphAt(font, g, scale, x, y), c, base)
  {
    var upTo, whole := GlyphUpTo(font, g, scale, x, y, 8, 0), GlyphAt(font, g, scale, x, y);
    forall px, py ensures upTo(px, py) == whole(px, py) {
      NextRowCell(font, g, scale, 7, px - x, py - y);
    }
    PaintSame(fb, W, GlyphUpTo(font, g, scale, x, y, 8, 0), GlyphAt(font, g, scale, x, y), c, base);
  }

  /** renderer_draw_text: the bytes of text before its NUL are laid out from
      (x, y), a newline starting a new line 8 * scale lower at x and every
      other byte drawing its glyph and moving 8 * scale right. Each lit cell
      is painted once; nothing else changes. */
  method DrawText(rend: Renderer, text: seq<Byte>, x: int, y: int, c: Color, scale: int)
    requires rend.Valid()
    modifies rend.framebuffer
    ensures forall k :: 0 <= k < rend.framebuffer.Length ==>
      rend.framebuffer[k] == if InText(FONT_DATA, text[..StrLen(text)], x, y, scale, rend.Col(k), rend.Row(k))
                             then Paint(c, old(rend.framebuffer[k])) else old(rend.framebuffer[k])
  {
    ghost var base := rend.framebuffer[..];
    var startX := x;
    var penX, penY := x, y;
    var i := 0;
    TextStart(base, rend.width, startX, y, scale, c);
    while i < |text| && text[i] != 0
      invariant i <= StrLen(text)
      invariant (penX, penY) == PenAfter(text[..i], startX, y, scale)
      invariant PaintedBy(rend.framebuffer[..], rend.width, TextAt(FONT_DATA, text[..i], startX, y, scale), c, base)
    {
      assert text[..i + 1] == text[..i] + [text[i]];
      if text[i] == '\n' as int {
        NewlineStep(rend.framebuffer[..], rend.width, text[..i], startX, y, scale, c, base);
        penY := penY + 8 * scale;
        penX := startX;
        i := i + 1;
        continue;
      }
      var ch := text[i];
      if ch >= 128 {
        ch := 0;
      }
      ghost var prev := rend.framebuffer[..];
      DrawGlyph(FONT_DATA, rend, penX, penY, ch, scale, c);
      TextStep(FONT_DATA, text[..i], text[i], startX, y, scale);
      PaintAdd(prev, rend.framebuffer[..], rend.width, TextAt(FONT_DATA, text[..i], startX, y, scale),
               GlyphAt(FONT_DATA, ch, scale, penX, penY), TextAt(FONT_DATA, text[..i + 1], startX, y, scale), c, base);
      penX := penX + 8 * scale;
      i := i + 1;
    }
    TextDone(rend, text[..i], startX, y, scale, c, base);
  }

  /** Before the first byte nothing is lit. */
  lemma TextStart(base: seq<Pixel>, W: int, startX: int, y0: int, scale: int, c: Color)
    ensures PaintedBy(base, W, TextAt(FONT_DATA, [], startX, y0, scale), c, base)
  {
    PaintNone(base, W, TextAt(FONT_DATA, [], startX, y0, scale), c);
  }

  /** A glyph drawn at the pen lights exactly the cells the byte adds to
      the text, and none of them was lit before. */
  lemma TextStep(font: seq<nat>, text: seq<Byte>, ch: Byte, startX: int, y0: int, scale: int)
    requires ch != '\n' as int
    ensures var pen := PenAfter(text, startX, y0, scale);
      var before, glyph := TextAt(font, text, startX, y0, scale), GlyphAt(font, Glyph(ch), scale, pen.0, pen.1);
      var after := TextAt(font, text + [ch], startX, y0, scale);
      && (forall px, py :: after(px, py) == (before(px, py) || glyph(px, py)))
      && (forall px, py :: glyph(px, py) ==> !before(px, py))
  {
    forall px, py
      ensures var pen := PenAfter(text, startX, y0, scale);
        var lit := GlyphCell(font, Glyph(ch), scale, px - pen.0, py - pen.1);
        && InText(font, text + [ch], startX, y0, scale, px, py) == (InText(font, text, startX, y0, scale, px, py) || lit)
        && (lit ==> !InText(font, text, startX, y0, scale, px, py))
    {
      TextCellStep(font, text, ch, startX, y0, scale, px, py);
    }
  }

  /** For one cell: the byte ch lights the cell exactly when its glyph at
      the pen does, and such a cell was not lit before. */
  lemma TextCellStep(font: seq<nat>, text: seq<Byte>, ch: Byte, startX: int, y0: int, scale: int, px: int, py: int)
    ensures var pen := PenAfter(text, startX, y0, scale);
      var lit := ch != '\n' as int && GlyphCell(font, Glyph(ch), scale, px - pen.0, py - pen.1);
      && InText(font, text + [ch], startX, y0, scale, px, py) == (InText(font, text, startX, y0, scale, px, py) || lit)
      && (lit ==> !InText(font, text, startX, y0, scale, px, py))
  {
    var pen := PenAfter(text, startX, y0, scale);
    assert (text + [ch])[..|text|] == text;
    if ch != '\n' as int && GlyphCell(font, Glyph(ch), scale, px - pen.0, py - pen.1) {
      GlyphBox(font, Glyph(ch), scale, px - pen.0, py - pen.1);
      if InText(font, text, startX, y0, scale, px, py) {
        InTextBeforePen(font, text, startX, y0, scale, px, py);
      }
    }
  }

  /** A newline byte lights no cell. */
  lemma NewlineStep(fb: seq<Pixel>, W: int, text: seq<Byte>, startX: int, y0: int, scale: int, c: Color, base: seq<Pixel>)
    requires PaintedBy(fb, W, TextAt(FONT_DATA, text, startX, y0, scale), c, base)
    ensures PaintedBy(fb, W, TextAt(FONT_DATA, text + ['\n' as int], startX, y0, scale), c, base)
  {
    forall px, py
      ensures InText(FONT_DATA, text + ['\n' as int], startX, y0, scale, px, py) == InText(FONT_DATA, text, startX, y0, scale, px, py)
    {
      TextCellStep(FONT_DATA, text, '\n' as int, startX, y0, scale, px, py);
    }
    PaintSame(fb, W, TextAt(FONT_DATA, text, startX, y0, scale), TextAt(FONT_DATA, text + ['\n' as int], startX, y0, scale), c, base);
  }

  /** The loop's painted cells, read back in the buffer's own cells. */
  lemma TextDone(rend: Renderer, text: seq<Byte>, startX: int, y0: int, scale: int, c: Color, base: seq<Pixel>)
    requires rend.Valid() && PaintedBy(rend.framebuffer[..], rend.width, TextAt(FONT_DATA, text, startX, y0, scale), c, base)
    ensures forall k :: 0 <= k < rend.framebuffer.Length ==>
      rend.framebuffer[k] == if InText(FONT_DATA, text, startX, y0, scale, rend.Col(k), rend.Row(k))
                             then Paint(c, base[k]) else base[k]
  {
    forall k | 0 <= k < rend.framebuffer.Length
      ensures rend.framebuffer[k] == if InText(FONT_DATA, text, startX, y0, scale, rend.Col(k), rend.Row(k))
                                     then Paint(c, base[k]) else base[k]
    {
      assert rend.framebuffer[..][k] == rend.framebuffer[k];
    }
  }
}
