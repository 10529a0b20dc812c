/** When clearing to the end of a line goes wrong on the screen (kernel/fbcon.c): for every screen size on which
    the rectangle is not exact there are a font and a grid that show it. */
module EraseLimits {
  import opened Bytes
  import opened Framebuffer
  import opened ConsoleModel
  import opened FbCon

  const WHITE: uint32 := 0xFF_FFFF

  /** A font whose glyphs, but for the space, are solid. */
  function SolidFont(): (f: seq<seq<byte>>)
    ensures GoodFont(f)
  {
    var solid := seq<byte>(GLYPH_H, _ => 0xFF);
    seq<seq<byte>>(GLYPHS, c => if c == 0 then Zeros(GLYPH_H) else solid)
  }

  /** A number of `n` one bits. */
  function Ones(n: nat): nat {
    if n == 0 then 0 else 2 * Ones(n - 1) + 1
  }

  lemma {:induction false} OnesBit(n: nat, k: nat)
    requires k < n
    ensures Bit(Ones(n), k)
  {
    if k > 0 { OnesBit(n - 1, k - 1); }
  }

  lemma SolidBit(k: nat)
    requires k < GLYPH_W
    ensures Bit(0xFF, k)
  {
    assert Ones(4) == 15;
    assert Ones(8) == 0xFF;
    OnesBit(8, k);
  }

  // ---- a white screen with a black rectangle -----------------------------------------------

  /** The byte at position `k` of a pixel that is white. */
  function WhiteByte(g: Geometry, i: nat): byte {
    if i == 3 then 0 else 0xFF
  }

  predicate InRect(x: nat, y: nat, x0: nat, y0: nat, x1: nat, y1: nat) {
    x0 <= x < x1 && y0 <= y < y1
  }

  function ScreenByte(g: Geometry, x0: nat, y0: nat, x1: nat, y1: nat, k: nat): byte
    requires GoodGeometry(g) && g.pitch > 0
  {
    var y, b := k / g.pitch, k % g.pitch;
    if InRect(b / Depth(g), y, x0, y0, x1, y1) then 0 else WhiteByte(g, b % Depth(g))
  }

  function Screen(g: Geometry, x0: nat, y0: nat, x1: nat, y1: nat): (s: seq<byte>)
    requires GoodGeometry(g) && g.pitch > 0
    ensures Fits(s, g)
  {
    seq<byte>(g.pitch * g.height, k requires 0 <= k => ScreenByte(g, x0, y0, x1, y1, k))
  }

  lemma LineHolds(g: Geometry)
    requires GoodGeometry(g)
    ensures g.width * Depth(g) <= g.pitch
  {
  }

  lemma PixelByte(g: Geometry, x: nat, y: nat, i: nat)
    requires GoodGeometry(g) && g.pitch > 0 && OnScreen(g, x, y) && i < Depth(g)
    ensures var k := Offset(g, x, y) + i;
            k / g.pitch == y && k % g.pitch / Depth(g) == x && k % g.pitch % Depth(g) == i
  {
    hide GoodGeometry;
    PixelInside(g, x, y);
    MulMonotone(x + 1, g.width, Depth(g));
    LineHolds(g);
    hide Depth;
    DivModUnique(Offset(g, x, y) + i, g.pitch, y, x * Depth(g) + i);
    DivModUnique(x * Depth(g) + i, Depth(g), x, i);
  }

  lemma ScreenByteAt(g: Geometry, x0: nat, y0: nat, x1: nat, y1: nat, x: nat, y: nat, i: nat)
    requires GoodGeometry(g) && g.pitch > 0 && OnScreen(g, x, y) && i < Depth(g)
    ensures Offset(g, x, y) + i < g.pitch * g.height
    ensures Screen(g, x0, y0, x1, y1)[Offset(g, x, y) + i] ==
            if InRect(x, y, x0, y0, x1, y1) then 0 else WhiteByte(g, i)
  {
    PixelInside(g, x, y);
    PixelByte(g, x, y, i);
    hide Offset, InRect, Depth, GoodGeometry, WhiteByte;
  }

  lemma WhitePack(g: Geometry)
    ensures Pack(g, WHITE) == if g.bpp == 16 then 0xFFFF else 0xFF_FFFF
    ensures Pack(g, BLACK) == 0
  {
  }

  lemma WordIs(s: seq<byte>, o: nat, n: nat, g: Geometry, black: bool)
    requires GoodGeometry(g) && n == Depth(g) && o + n <= |s|
    requires 2 <= n && s[o] == (if black then 0 else WhiteByte(g, 0)) &&
             s[o + 1] == (if black then 0 else WhiteByte(g, 1))
    requires n >= 3 ==> s[o + 2] == if black then 0 else WhiteByte(g, 2)
    requires n >= 4 ==> s[o + 3] == if black then 0 else WhiteByte(g, 3)
    ensures n <= 4 && Word(s, o, n) == if black then 0 else Pack(g, WHITE)
  {
    WhitePack(g);
    hide Pack;
    assert WhiteByte(g, 0) == WhiteByte(g, 1) == WhiteByte(g, 2) == 0xFF && WhiteByte(g, 3) == 0;
  }

  lemma ScreenPixel(g: Geometry, x0: nat, y0: nat, x1: nat, y1: nat, x: nat, y: nat)
    requires GoodGeometry(g) && g.pitch > 0 && OnScreen(g, x, y)
    ensures Px(Screen(g, x0, y0, x1, y1), g, x, y) ==
            if InRect(x, y, x0, y0, x1, y1) then 0 else Pack(g, WHITE)
  {
    hide InRect, Screen, Pack, WhiteByte, Word, Offset, Depth, GoodGeometry;
    var s, o := Screen(g, x0, y0, x1, y1), Offset(g, x, y);
    PixelInside(g, x, y);
    ScreenByteAt(g, x0, y0, x1, y1, x, y, 0);
    ScreenByteAt(g, x0, y0, x1, y1, x, y, 1);
    if Depth(g) >= 3 { ScreenByteAt(g, x0, y0, x1, y1, x, y, 2); }
    if Depth(g) >= 4 { ScreenByteAt(g, x0, y0, x1, y1, x, y, 3); }
    WordIs(s, o, Depth(g), g, InRect(x, y, x0, y0, x1, y1));
  }

  // ---- the console that shows it -----------------------------------------------------------

  /** Every cell is solid white on black. */
  function SolidConsole(g: Geometry, row: nat, col: nat): (c: Console)
    requires row < Rows(g) && col < Cols(g)
    ensures Sound(c, Rows(g), Cols(g))
  {
    Console(seq(Rows(g), _ => seq(Cols(g), _ => Cell(1, WHITE, BLACK))), row, col, WHITE, BLACK)
  }

  /** What fbcon_clear_to_eol paints. */
  ghost predicate EolPainted(g: Geometry, a: seq<byte>, b: seq<byte>, c: Console)
    requires Fits(a, g) && Fits(b, g)
  {
    RectPainted(g, a, b, c.col * GlyphWidth(g), c.row * GlyphHeight(g), g.width,
                c.row * GlyphHeight(g) + GlyphHeight(g), Pack(g, c.bg))
  }

  /** Whatever the font and the grid, clearing to the end of the line renders the cleared grid. */
  ghost predicate RendersCleared(g: Geometry, row: nat, col: nat)
    requires row < Rows(g) && col < Cols(g)
  {
    forall font: Font, a: seq<byte>, b: seq<byte>, c: Console ::
      Fits(a, g) && Fits(b, g) && Sound(c, Rows(g), Cols(g)) && c.row == row && c.col == col
      && Renders(font, g, a, c.grid) && EolPainted(g, a, b, c) ==>
        Renders(font, g, b, ConsoleModel.ClearToEol(c, Rows(g), Cols(g)).grid)
  }

  lemma SolidCell(g: Geometry, x: nat, y: nat)
    requires InText(g, x, y)
    ensures CellPx(SolidFont(), g, Cell(1, WHITE, BLACK), x % GLYPH_W, y % GLYPH_H) == Pack(g, WHITE)
  {
    SolidBit(x % GLYPH_W);
    assert SolidFont()[1][y % GLYPH_H] == 0xFF;
    hide Bit, Pack;
  }

  lemma WhiteRenders(g: Geometry, row: nat, col: nat)
    requires GoodGeometry(g) && g.pitch > 0 && row < Rows(g) && col < Cols(g)
    ensures Renders(SolidFont(), g, Screen(g, 0, 0, 0, 0), SolidConsole(g, row, col).grid)
  {
    var c, a := SolidConsole(g, row, col), Screen(g, 0, 0, 0, 0);
    forall x: nat, y: nat | InText(g, x, y) ensures PixelShows(SolidFont(), g, a, c.grid, x, y) {
      TextOnScreen(g, x, y);
      ScreenPixel(g, 0, 0, 0, 0, x, y);
      SolidCell(g, x, y);
      hide Screen, Px, Pack, SolidFont, CellPx;
    }
  }

  lemma ScreenPainted(g: Geometry, x0: nat, y0: nat, x1: nat, y1: nat)
    requires GoodGeometry(g) && g.pitch > 0
    ensures RectPainted(g, Screen(g, 0, 0, 0, 0), Screen(g, x0, y0, x1, y1), x0, y0, x1, y1, Pack(g, BLACK))
  {
    WhitePack(g);
    hide Screen, Px, Pack;
    forall x: nat, y: nat | OnScreen(g, x, y)
      ensures Px(Screen(g, x0, y0, x1, y1), g, x, y) ==
              if x0 <= x < x1 && y0 <= y < y1 then Pack(g, BLACK) else Px(Screen(g, 0, 0, 0, 0), g, x, y)
    {
      ScreenPixel(g, x0, y0, x1, y1, x, y);
      ScreenPixel(g, 0, 0, 0, 0, x, y);
    }
  }

  /** The solid console's screen after fbcon_clear_to_eol, and the grid it should show. */
  function EolScreen(g: Geometry, row: nat, col: nat): (s: seq<byte>)
    requires GoodGeometry(g) && g.pitch > 0
    ensures Fits(s, g)
  {
    Screen(g, col * GlyphWidth(g), row * GlyphHeight(g), g.width, row * GlyphHeight(g) + GlyphHeight(g))
  }

  function ClearedGrid(g: Geometry, row: nat, col: nat): (h: Grid)
    requires row < Rows(g) && col < Cols(g)
    ensures Shaped(h, Rows(g), Cols(g))
  {
    ConsoleModel.ClearToEol(SolidConsole(g, row, col), Rows(g), Cols(g)).grid
  }

  /** The pixel at which the rectangle and the rest of the line differ has the wrong colour. */
  lemma WrongPixel(g: Geometry, row: nat, col: nat, x: nat, y: nat)
    requires GoodGeometry(g) && g.pitch > 0 && row < Rows(g) && col < Cols(g) && InText(g, x, y)
    requires InEolRect(g, row, col, x, y) != (y / GLYPH_H == row && x / GLYPH_W >= col)
    ensures !PixelShows(SolidFont(), g, EolScreen(g, row, col), ClearedGrid(g, row, col), x, y)
  {
    hide Screen, Px, Pack, SolidFont, CellPx, GlyphWidth, GlyphHeight, Cols, Rows, ClearedGrid, Fits, InText;
    TextOnScreen(g, x, y);
    WhitePack(g);
    SolidCell(g, x, y);
    BlankPixel(SolidFont(), g, WHITE, BLACK, x % GLYPH_W, y % GLYPH_H);
    ClearedCell(g, row, col, x, y);
    ScreenPixel(g, col * GlyphWidth(g), row * GlyphHeight(g), g.width, row * GlyphHeight(g) + GlyphHeight(g), x, y);
  }

  lemma ClearedCell(g: Geometry, row: nat, col: nat, x: nat, y: nat)
    requires row < Rows(g) && col < Cols(g) && x / GLYPH_W < Cols(g) && y / GLYPH_H < Rows(g)
    ensures ClearedGrid(g, row, col)[y / GLYPH_H][x / GLYPH_W] ==
            Cell(if y / GLYPH_H == row && x / GLYPH_W >= col then 0 else 1, WHITE, BLACK)
  {
    hide Cols, Rows;
  }

  /** Clearing to the end of the line leaves the screen the rendering of the cleared grid, for every font and
      grid, exactly when (the cursor is in column 0 or width mod 8 < columns) and (there is one row or height
      mod 8 < rows). */
  lemma EolRendersIff(g: Geometry, row: nat, col: nat)
    requires GoodGeometry(g) && row < Rows(g) && col < Cols(g)
    ensures RendersCleared(g, row, col) <==>
            (col == 0 || g.width % GLYPH_W < Cols(g)) && (Rows(g) == 1 || g.height % GLYPH_H < Rows(g))
  {
    EolExactIff(g, row, col);
    PitchPositive(g);
    if EolExact(g, row, col) {
      ExactRenders(g, row, col);
    } else {
      InexactFails(g, row, col);
    }
    hide RendersCleared, EolExact;
  }

  lemma PitchPositive(g: Geometry)
    requires GoodGeometry(g) && Cols(g) >= 1
    ensures g.pitch > 0
  {
  }

  lemma ExactRenders(g: Geometry, row: nat, col: nat)
    requires GoodGeometry(g) && row < Rows(g) && col < Cols(g) && EolExact(g, row, col)
    ensures RendersCleared(g, row, col)
  {
    hide Renders, EolExact, RectPainted, GlyphWidth, GlyphHeight, Cols, Rows;
    forall font: Font, a: seq<byte>, b: seq<byte>, c: Console |
      Fits(a, g) && Fits(b, g) && Sound(c, Rows(g), Cols(g)) && c.row == row && c.col == col
      && Renders(font, g, a, c.grid) && EolPainted(g, a, b, c)
      ensures Renders(font, g, b, ConsoleModel.ClearToEol(c, Rows(g), Cols(g)).grid)
    {
      FbCon.EolRenders(font, g, a, b, c, ConsoleModel.ClearToEol(c, Rows(g), Cols(g)).grid,
                       col * GlyphWidth(g), row * GlyphHeight(g), row * GlyphHeight(g) + GlyphHeight(g));
    }
  }

  lemma WrongScreen(g: Geometry, row: nat, col: nat)
    requires GoodGeometry(g) && g.pitch > 0 && row < Rows(g) && col < Cols(g) && !EolExact(g, row, col)
    ensures !Renders(SolidFont(), g, EolScreen(g, row, col), ClearedGrid(g, row, col))
  {
    hide EolScreen, ClearedGrid, SolidFont, PixelShows, InEolRect, InText, Cols, Rows;
    var x: nat, y: nat :| InText(g, x, y) &&
                          InEolRect(g, row, col, x, y) != (y / GLYPH_H == row && x / GLYPH_W >= col);
    WrongPixel(g, row, col, x, y);
  }

  lemma EolScreenPainted(g: Geometry, row: nat, col: nat)
    requires GoodGeometry(g) && g.pitch > 0 && row < Rows(g) && col < Cols(g)
    ensures EolPainted(g, Screen(g, 0, 0, 0, 0), EolScreen(g, row, col), SolidConsole(g, row, col))
  {
    hide RectPainted, Screen, Pack, GlyphWidth, GlyphHeight, Cols, Rows, Fits, GoodGeometry, SolidConsole;
    SolidColours(g, row, col);
    ScreenPainted(g, col * GlyphWidth(g), row * GlyphHeight(g), g.width, row * GlyphHeight(g) + GlyphHeight(g));
  }

  lemma InexactFails(g: Geometry, row: nat, col: nat)
    requires GoodGeometry(g) && g.pitch > 0 && row < Rows(g) && col < Cols(g) && !EolExact(g, row, col)
    ensures !RendersCleared(g, row, col)
  {
    WrongScreen(g, row, col);
    WhiteRenders(g, row, col);
    EolScreenPainted(g, row, col);
    SolidColours(g, row, col);
    hide Renders, EolExact, EolPainted, Screen, EolScreen, SolidConsole, SolidFont, Cols, Rows;
    var font: Font := SolidFont();
    var c, a, b := SolidConsole(g, row, col), Screen(g, 0, 0, 0, 0), EolScreen(g, row, col);
    assert Renders(font, g, a, c.grid) && !Renders(font, g, b, ConsoleModel.ClearToEol(c, Rows(g), Cols(g)).grid);
  }

  lemma SolidColours(g: Geometry, row: nat, col: nat)
    requires row < Rows(g) && col < Cols(g)
    ensures var c := SolidConsole(g, row, col); c.row == row && c.col == col && c.bg == BLACK
  {
  }
}
