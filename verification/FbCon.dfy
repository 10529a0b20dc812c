/** The framebuffer console (kernel/fbcon.c): after every call the text area of the framebuffer is the
    rendering of a ConsoleModel grid. */
module FbCon {
  import opened Bytes
  import opened Framebuffer
  import opened ConsoleModel

  /** One bit row per scanline of each glyph; the space is blank. */
  type Font = f: seq<seq<byte>> | GoodFont(f) witness seq(GLYPHS, _ => Zeros(GLYPH_H))

  predicate GoodFont(f: seq<seq<byte>>) {
    |f| == GLYPHS && (forall c :: 0 <= c < GLYPHS ==> |f[c]| == GLYPH_H) && f[0] == Zeros(GLYPH_H)
  }

  function Cols(g: Geometry): nat {
    g.width / GLYPH_W
  }

  function Rows(g: Geometry): nat {
    g.height / GLYPH_H
  }

  /** The packed colour of a pixel of a cell. */
  function CellPx(font: Font, g: Geometry, c: Cell, dx: nat, dy: nat): nat
    requires dy < GLYPH_H
  {
    if Bit(font[c.glyph][dy], dx) then Pack(g, c.fg) else Pack(g, c.bg)
  }

  predicate InText(g: Geometry, x: nat, y: nat) {
    x < Cols(g) * GLYPH_W && y < Rows(g) * GLYPH_H
  }

  ghost predicate PixelShows(font: Font, g: Geometry, s: seq<byte>, grid: Grid, x: nat, y: nat)
    requires Fits(s, g) && Shaped(grid, Rows(g), Cols(g)) && InText(g, x, y)
  {
    TextOnScreen(g, x, y);
    Px(s, g, x, y) == CellPx(font, g, grid[y / GLYPH_H][x / GLYPH_W], x % GLYPH_W, y % GLYPH_H)
  }

  lemma TextOnScreen(g: Geometry, x: nat, y: nat)
    requires InText(g, x, y)
    ensures OnScreen(g, x, y) && y / GLYPH_H < Rows(g) && x / GLYPH_W < Cols(g)
  {
  }

  /** The text area of the framebuffer shows the grid. */
  ghost predicate Renders(font: Font, g: Geometry, s: seq<byte>, grid: Grid)
    requires Fits(s, g) && Shaped(grid, Rows(g), Cols(g))
  {
    forall x: nat, y: nat :: InText(g, x, y) ==> PixelShows(font, g, s, grid, x, y)
  }

  /** The pixels of a cell: 8 by 8, row by row from the glyph's bytes, the lowest bit leftmost. */
  lemma CellIsSeen(font: Font, g: Geometry, s: seq<byte>, grid: Grid, r: nat, k: nat, dx: nat, dy: nat)
    requires Fits(s, g) && Shaped(grid, Rows(g), Cols(g)) && Renders(font, g, s, grid)
    requires r < g.height / 8 && k < g.width / 8 && dx < 8 && dy < 8
    ensures r < |grid| && k < |grid[r]| && grid[r][k].glyph < |font| && |font[grid[r][k].glyph]| == 8
    ensures OnScreen(g, 8 * k + dx, 8 * r + dy)
    ensures var c := grid[r][k];
            var lit := font[c.glyph][dy] / [1, 2, 4, 8, 16, 32, 64, 128][dx] % 2 == 1;
            Px(s, g, 8 * k + dx, 8 * r + dy) == Pack(g, if lit then c.fg else c.bg)
  {
    var x, y := 8 * k + dx, 8 * r + dy;
    assert InText(g, x, y) && x / 8 == k && x % 8 == dx && y / 8 == r && y % 8 == dy;
    TextOnScreen(g, x, y);
    assert PixelShows(font, g, s, grid, x, y);
    BitIs(font[grid[r][k].glyph][dy], dx);
    hide Bit, Px, Pack, Fits, Renders;
  }

  // ---- each drawing step renders a grid operation ------------------------------------------

  lemma {:induction false} BitZero(k: nat)
    ensures !Bit(0, k)
  {
    if k > 0 { BitZero(k - 1); }
  }

  lemma BlankPixel(font: Font, g: Geometry, fg: uint32, bg: uint32, dx: nat, dy: nat)
    requires dy < GLYPH_H
    ensures CellPx(font, g, Cell(0, fg, bg), dx, dy) == Pack(g, bg)
  {
    BitZero(dx);
  }

  lemma DrawRenders(font: Font, g: Geometry, a: seq<byte>, b: seq<byte>, c: Console, k: nat, x: Cell)
    requires Fits(a, g) && Fits(b, g) && Sound(c, Rows(g), Cols(g)) && k < Cols(g) && Renders(font, g, a, c.grid)
    requires GlyphPainted(g, a, b, k * GLYPH_W, c.row * GLYPH_H, GLYPH_H, font[x.glyph], Pack(g, x.fg), Pack(g, x.bg))
    ensures Renders(font, g, b, SetCell(c.grid, c.row, k, x))
  {
    var h := SetCell(c.grid, c.row, k, x);
    forall u: nat, v: nat | InText(g, u, v) ensures PixelShows(font, g, b, h, u, v) {
      TextOnScreen(g, u, v);
      assert PixelShows(font, g, a, c.grid, u, v);
      CellOf(u, k);
      CellOf(v, c.row);
      hide Px, Pack, Bit, Cols, Rows, Fits;
    }
  }

  lemma CellOf(x: nat, k: nat)
    ensures k * GLYPH_W <= x < k * GLYPH_W + GLYPH_W <==> x / GLYPH_W == k
    ensures x / GLYPH_W == k ==> x - k * GLYPH_W == x % GLYPH_W
  {
  }

  lemma ScrollRenders(font: Font, g: Geometry, a: seq<byte>, b: seq<byte>, d: seq<byte>, c: Console)
    requires Fits(a, g) && Fits(b, g) && Fits(d, g) && Sound(c, Rows(g), Cols(g)) && Renders(font, g, a, c.grid)
    requires LinesShifted(g, a, b, (Rows(g) - 1) * GLYPH_H)
    requires RectPainted(g, b, d, 0, (Rows(g) - 1) * GLYPH_H, g.width, Rows(g) * GLYPH_H, Pack(g, c.bg))
    ensures Renders(font, g, d, Scroll(c, Cols(g)))
  {
    var h := Scroll(c, Cols(g));
    forall u: nat, v: nat | InText(g, u, v) ensures PixelShows(font, g, d, h, u, v) {
      TextOnScreen(g, u, v);
      if v < (Rows(g) - 1) * GLYPH_H {
        assert InText(g, u, v + GLYPH_H);
        TextOnScreen(g, u, v + GLYPH_H);
        assert PixelShows(font, g, a, c.grid, u, v + GLYPH_H);
        NextLine(v);
        assert Px(d, g, u, v) == Px(b, g, u, v) == Px(a, g, u, v + GLYPH_H);
        assert h[v / GLYPH_H] == c.grid[v / GLYPH_H + 1];
      } else {
        assert v / GLYPH_H == Rows(g) - 1;
        BlankPixel(font, g, c.fg, c.bg, u % GLYPH_W, v % GLYPH_H);
      }
    }
  }

  lemma NextLine(v: nat)
    ensures (v + GLYPH_H) / GLYPH_H == v / GLYPH_H + 1 && (v + GLYPH_H) % GLYPH_H == v % GLYPH_H
  {
  }

  /** Painting a rectangle in the background colour renders a grid that is blank in the cells it covers. */
  lemma FillRenders(font: Font, g: Geometry, a: seq<byte>, b: seq<byte>, grid: Grid, h: Grid, fg: uint32, bg: uint32,
                    x0: nat, y0: nat, x1: nat, y1: nat)
    requires Fits(a, g) && Fits(b, g) && Shaped(grid, Rows(g), Cols(g)) && Shaped(h, Rows(g), Cols(g))
    requires RectPainted(g, a, b, x0, y0, x1, y1, Pack(g, bg))
    requires forall x: nat, y: nat :: InText(g, x, y) ==> CellFilled(font, g, a, grid, h, fg, bg, x0, y0, x1, y1, x, y)
    ensures Renders(font, g, b, h)
  {
    forall u: nat, v: nat | InText(g, u, v) ensures PixelShows(font, g, b, h, u, v) {
      TextOnScreen(g, u, v);
      assert CellFilled(font, g, a, grid, h, fg, bg, x0, y0, x1, y1, u, v);
      BlankPixel(font, g, fg, bg, u % GLYPH_W, v % GLYPH_H);
      hide Px, Pack, Bit, Fits;
    }
  }

  ghost predicate CellFilled(font: Font, g: Geometry, a: seq<byte>, grid: Grid, h: Grid, fg: uint32, bg: uint32,
                             x0: nat, y0: nat, x1: nat, y1: nat, x: nat, y: nat)
    requires InText(g, x, y) && Fits(a, g) && Shaped(grid, Rows(g), Cols(g)) && Shaped(h, Rows(g), Cols(g))
  {
    TextOnScreen(g, x, y);
    if x0 <= x < x1 && y0 <= y < y1 then h[y / GLYPH_H][x / GLYPH_W] == Cell(0, fg, bg)
    else h[y / GLYPH_H][x / GLYPH_W] == grid[y / GLYPH_H][x / GLYPH_W] && PixelShows(font, g, a, grid, x, y)
  }

  // ---- clear to end of line ----------------------------------------------------------------

  /** fbcon_glyph_w_get and fbcon_glyph_h_get derive the glyph size from the screen size. */
  function GlyphWidth(g: Geometry): nat {
    g.width / (if Cols(g) != 0 then Cols(g) else 1)
  }

  function GlyphHeight(g: Geometry): nat {
    g.height / (if Rows(g) != 0 then Rows(g) else 1)
  }

  lemma QuotientAtLeast(n: nat, d: nat, k: nat)
    requires d >= 1
    ensures n / d >= k <==> k * d <= n
  {
    if n / d >= k { MulMonotone(k, n / d, d); } else { MulMonotone(n / d + 1, k, d); }
  }

  lemma QuotientIff(n: nat)
    requires n >= 8
    ensures n / (n / 8) == 8 <==> n % 8 < n / 8
    ensures n / (n / 8) >= 8
  {
    QuotientAtLeast(n, n / 8, 8);
    QuotientAtLeast(n, n / 8, 9);
  }

  /** The derived glyph size is the real one exactly when the rest of the division is small. */
  lemma GlyphSizeIff(g: Geometry)
    requires Cols(g) >= 1 && Rows(g) >= 1
    ensures GlyphWidth(g) == GLYPH_W <==> g.width % GLYPH_W < Cols(g)
    ensures GlyphHeight(g) == GLYPH_H <==> g.height % GLYPH_H < Rows(g)
    ensures GlyphWidth(g) >= GLYPH_W && GlyphHeight(g) >= GLYPH_H
  {
    QuotientIff(g.width);
    QuotientIff(g.height);
  }

  /** The rectangle fbcon_clear_to_eol fills meets the text area in the cells from the cursor to the end of
      its line, and in no others. */
  ghost predicate EolExact(g: Geometry, row: nat, col: nat) {
    forall x: nat, y: nat :: InText(g, x, y) ==>
      (InEolRect(g, row, col, x, y) <==> y / GLYPH_H == row && x / GLYPH_W >= col)
  }

  predicate InEolRect(g: Geometry, row: nat, col: nat, x: nat, y: nat) {
    col * GlyphWidth(g) <= x < g.width && row * GlyphHeight(g) <= y < row * GlyphHeight(g) + GlyphHeight(g)
  }

  lemma EolStart(g: Geometry, row: nat, col: nat)
    requires row < Rows(g) && col < Cols(g)
    ensures col * GlyphWidth(g) < g.width && row * GlyphHeight(g) < g.height
    ensures col * GlyphWidth(g) >= col * GLYPH_W && row * GlyphHeight(g) >= row * GLYPH_H
    ensures col > 0 && GlyphWidth(g) > GLYPH_W ==> col * GlyphWidth(g) > col * GLYPH_W
    ensures row > 0 && GlyphHeight(g) > GLYPH_H ==> row * GlyphHeight(g) > row * GLYPH_H
  {
    GlyphSizeIff(g);
    WidthTimes(g);
    hide GlyphWidth, GlyphHeight, Cols, Rows;
    CellStart(g.width, Cols(g), GlyphWidth(g), col);
    CellStart(g.height, Rows(g), GlyphHeight(g), row);
  }

  /** Where cell `i` of `c` cells of size `w` starts. */
  lemma CellStart(n: nat, c: nat, w: nat, i: nat)
    requires c * w <= n && w >= 8 && i < c
    ensures 8 * i <= i * w < n
    ensures i > 0 && w > 8 ==> 8 * i < i * w
  {
    MulMonotone(i + 1, c, w);
    MulMonotone(8, w, i);
    if w > 8 { MulMonotone(9, w, i); }
  }

  lemma WidthTimes(g: Geometry)
    requires Cols(g) >= 1 && Rows(g) >= 1
    ensures Cols(g) * GlyphWidth(g) <= g.width && Rows(g) * GlyphHeight(g) <= g.height
  {
    var c, r := Cols(g), Rows(g);
    hide Cols, Rows;
  }

  /** Clearing to the end of the line is exact when the derived glyph size is the real one (or cannot matter),
      and only then: otherwise it misses part of the line or spills into another one. */
  lemma EolExactIff(g: Geometry, row: nat, col: nat)
    requires row < Rows(g) && col < Cols(g)
    ensures EolExact(g, row, col) <==>
            (col == 0 || g.width % GLYPH_W < Cols(g)) && (Rows(g) == 1 || g.height % GLYPH_H < Rows(g))
  {
    GlyphSizeIff(g);
    EolStart(g, row, col);
    var gw, gh := GlyphWidth(g), GlyphHeight(g);
    hide GlyphWidth, GlyphHeight;
    if (col == 0 || gw == GLYPH_W) && (Rows(g) == 1 || gh == GLYPH_H) {
      forall x: nat, y: nat | InText(g, x, y)
        ensures InEolRect(g, row, col, x, y) <==> y / GLYPH_H == row && x / GLYPH_W >= col
      {
        EolPixel(g, row, col, x, y);
      }
    } else if col > 0 && gw > GLYPH_W {
      assert InText(g, col * GLYPH_W, row * GLYPH_H);
      assert !InEolRect(g, row, col, col * GLYPH_W, row * GLYPH_H);
    } else if row == 0 {
      assert InText(g, Cols(g) * GLYPH_W - 1, GLYPH_H);
      assert InEolRect(g, row, col, Cols(g) * GLYPH_W - 1, GLYPH_H);
    } else {
      assert InText(g, Cols(g) * GLYPH_W - 1, row * GLYPH_H);
      assert !InEolRect(g, row, col, Cols(g) * GLYPH_W - 1, row * GLYPH_H);
    }
  }

  /** The two conditions under which clearing to the end of a line is exact wherever the cursor is. */
  predicate WholeGlyphs(g: Geometry) {
    g.width % GLYPH_W < Cols(g) && g.height % GLYPH_H < Rows(g)
  }

  lemma EolPixel(g: Geometry, row: nat, col: nat, x: nat, y: nat)
    requires row < Rows(g) && col < Cols(g) && InText(g, x, y)
    requires GlyphHeight(g) >= GLYPH_H
    requires (col == 0 || GlyphWidth(g) == GLYPH_W) && (Rows(g) == 1 || GlyphHeight(g) == GLYPH_H)
    ensures InEolRect(g, row, col, x, y) <==> y / GLYPH_H == row && x / GLYPH_W >= col
  {
    hide GlyphWidth, GlyphHeight;
  }

  // ---- the console -------------------------------------------------------------------------

  const GREY: uint32 := 0xC0C0C0
  const BLACK: uint32 := 0

  class FbConsole {
    const g: Geometry
    const font: Font
    const fb: array<byte>
    var row: nat
    var col: nat
    var fg: uint32
    var bg: uint32
    /** The cells on the screen. */
    ghost var grid: Grid

    ghost predicate Valid()
      reads this, fb
    {
      Fits(fb[..], g) && Sound(Con(), Rows(g), Cols(g)) && Renders(font, g, fb[..], grid)
    }

    ghost function Con(): Console
      reads this
    {
      Console(grid, row, col, fg, bg)
    }

    /** fbcon_init on a framebuffer with room for at least one cell. */
    constructor (fb: array<byte>, g: Geometry, font: Font)
      requires Fits(fb[..], g) && Rows(g) >= 1 && Cols(g) >= 1
      modifies fb
      ensures Valid() && this.g == g && this.font == font && this.fb == fb
      ensures Con() == Clear(Console([], 0, 0, 0xC0_C0C0, 0), Rows(g), Cols(g))
    {
      this.fb, this.g, this.font := fb, g, font;
      row, col, fg, bg := 0, 0, GREY, BLACK;
      grid := [];
      new;
      Erase();
    }

    /** fbcon_clear. */
    method Erase()
      requires Fits(fb[..], g) && Rows(g) >= 1 && Cols(g) >= 1
      modifies this, fb
      ensures Valid() && Con() == Clear(old(Con()), Rows(g), Cols(g))
    {
      ghost var was, h := fb[..], Clear(Con(), Rows(g), Cols(g)).grid;
      FillRect(fb, g, 0, 0, g.width, g.height, bg);
      row, col := 0, 0;
      grid := h;
      ClearRenders(font, g, was, fb[..], Con());
    }

    /** draw_glyph at column `k` of the cursor's line. */
    method DrawChar(k: nat, ch: byte)
      requires Valid() && k < Cols(g)
      modifies `grid, fb
      ensures Valid() && Con() == Draw(old(Con()), k, ch)
    {
      ghost var was, x := fb[..], Cell(GlyphOf(ch), fg, bg);
      var c := if ch < FIRST_CHAR || ch > LAST_CHAR then QUESTION else ch;
      Framebuffer.DrawGlyph(fb, g, k * GLYPH_W, row * GLYPH_H, font[c - FIRST_CHAR], Pack(g, fg), Pack(g, bg));
      hide Renders, GlyphPainted, Fits, Pack;
      DrawRenders(font, g, was, fb[..], Con(), k, x);
      grid := SetCell(grid, row, k, x);
    }

    /** scroll_up_one. */
    method ScrollUpOne()
      requires Valid()
      modifies `grid, fb
      ensures Valid() && Con() == old(Con()).(grid := Scroll(old(Con()), Cols(g)))
    {
      ghost var was := fb[..];
      LinesFit(g);
      hide Renders, RectPainted, LinesShifted, Pack;
      ShiftLines(fb, g, (Rows(g) - 1) * GLYPH_H);
      ghost var mid := fb[..];
      FillRect(fb, g, 0, (Rows(g) - 1) * GLYPH_H, g.width, GLYPH_H, bg);
      hide Fits;
      ScrollRenders(font, g, was, mid, fb[..], Con());
      grid := Scroll(Con(), Cols(g));
    }

    /** newline. */
    method BreakLine()
      requires Valid()
      modifies this, fb
      ensures Valid() && Con() == NewLine(old(Con()), Rows(g), Cols(g))
    {
      hide Renders, Fits;
      if row + 1 >= Rows(g) {
        ScrollUpOne();
        col := 0;
      } else {
        col := 0;
        row := row + 1;
      }
    }

    /** fbcon_putc. */
    method Putc(ch: byte)
      requires Valid()
      modifies this, fb
      ensures Valid() && Con() == Put(old(Con()), ch, Rows(g), Cols(g))
    {
      hide Renders, Fits;
      if ch == NEWLINE {
        BreakLine();
      } else if ch == RETURN {
        col := 0;
      } else if ch == BACKSPACE {
        if col > 0 {
          DrawChar(col - 1, SPACE);
          col := col - 1;
        }
      } else if ch == TAB {
        Advance((col + 4) / 4 * 4);
      } else if ch >= FIRST_CHAR {
        DrawChar(col, ch);
        Advance(col + 1);
      }
    }

    /** The cursor moves on along its line, or to the next one. */
    method Advance(k: nat)
      requires Valid()
      modifies this, fb
      ensures Valid() && Con() == MoveTo(old(Con()), k, Rows(g), Cols(g))
    {
      hide Renders, Fits;
      if k >= Cols(g) { BreakLine(); } else { col := k; }
    }

    /** fbcon_write. */
    method Puts(s: seq<byte>)
      requires Valid()
      modifies this, fb
      ensures Valid() && Con() == Write(old(Con()), s, Rows(g), Cols(g))
    {
      hide Renders, Fits, Put;
      ghost var start := Con();
      for i := 0 to |s|
        invariant Valid() && Con() == Write(start, s[..i], Rows(g), Cols(g))
      {
        assert s[..i + 1][..i] == s[..i];
        Putc(s[i]);
      }
      assert s[..|s|] == s;
    }

    /** fbcon_set_color: nothing on the screen changes. */
    method SetColors(fg: uint32, bg: uint32)
      requires Valid()
      modifies this
      ensures Valid() && Con() == SetColor(old(Con()), fg, bg)
      ensures this.fg == fg && this.bg == bg && row == old(row) && col == old(col) && grid == old(grid)
    {
      this.fg := fg;
      this.bg := bg;
    }

    /** fbcon_set_cursor: out-of-range positions are moved to the nearest cell. */
    method PlaceCursor(r: int, k: int)
      requires Valid()
      modifies this
      ensures Valid() && Con() == SetCursor(old(Con()), r, k, Rows(g), Cols(g))
      ensures row == (if r < 0 then 0 else if r < Rows(g) then r else Rows(g) - 1)
      ensures col == (if k < 0 then 0 else if k < Cols(g) then k else Cols(g) - 1)
    {
      hide Renders, Fits;
      var r1, k1 := r, k;
      if r1 < 0 { r1 := 0; }
      if k1 < 0 { k1 := 0; }
      if r1 >= Rows(g) { r1 := Rows(g) - 1; }
      if k1 >= Cols(g) { k1 := Cols(g) - 1; }
      row := r1;
      col := k1;
    }

    /** fbcon_clear_to_eol. The screen still shows a grid, with the rest of the line blank, when the rectangle
        filled is exact (see EolExactIff). */
    method EraseToEol()
      requires Valid()
      modifies `grid, fb
      ensures Fits(fb[..], g) &&
              RectPainted(g, old(fb[..]), fb[..], col * GlyphWidth(g), row * GlyphHeight(g), g.width,
                          row * GlyphHeight(g) + GlyphHeight(g), Pack(g, bg))
      ensures EolExact(g, row, col) ==> Valid() && Con() == ConsoleModel.ClearToEol(old(Con()), Rows(g), Cols(g))
    {
      ghost var was, c := fb[..], Con();
      EolStart(g, row, col);
      var gw, gh := GlyphWidth(g), GlyphHeight(g);
      var x, y := col * gw, row * gh;
      var w := g.width - x;
      EolRoom(g, row);
      hide Renders, EolExact, Pack, RectPainted;
      FillRect(fb, g, x, y, w, gh, bg);
      hide Fits;
      grid := ConsoleModel.ClearToEol(c, Rows(g), Cols(g)).grid;
      if EolExact(g, row, col) { EolRenders(font, g, was, fb[..], c, grid, x, y, y + gh); }
    }

    /** One call. */
    method Perform(a: Call)
      requires Valid() && (a.WipeToEol? ==> WholeGlyphs(g))
      modifies this, fb
      ensures Valid() && Con() == Step(old(Con()), a, Rows(g), Cols(g))
    {
      hide Renders, Fits, EolExact, RectPainted;
      match a {
        case PutChar(ch) => Putc(ch);
        case Text(s) => Puts(s);
        case Wipe => Erase();
        case Colors(fg, bg) => SetColors(fg, bg);
        case Cursor(row, col) => PlaceCursor(row, col);
        case WipeToEol =>
          EolExactIff(g, row, col);
          EraseToEol();
      }
    }

    /** Any sequence of calls: the screen stays the rendering of the grid the calls make, if it has at least
        one cell, and, where it is cleared to the end of a line, an almost whole number of glyphs. */
    method PerformAll(calls: seq<Call>)
      requires Valid() && (WipeToEol in calls ==> WholeGlyphs(g))
      modifies this, fb
      ensures Valid() && Con() == Run(old(Con()), calls, Rows(g), Cols(g))
    {
      hide Renders, Fits, Step;
      ghost var start := Con();
      for i := 0 to |calls|
        invariant Valid() && Con() == Run(start, calls[..i], Rows(g), Cols(g))
      {
        assert calls[..i + 1][..i] == calls[..i];
        Perform(calls[i]);
      }
      assert calls[..|calls|] == calls;
    }
  }

  /** A screen 20 pixels wide has two columns, and the glyph width derived from that is 10: clearing from column
      1 starts two pixels late, and a stroke in the first of them stays. */
  lemma NarrowScreenKeepsStroke(font: Font, g: Geometry, a: seq<byte>, b: seq<byte>, c: Console, dy: nat)
    requires g.width == 20 && Fits(a, g) && Fits(b, g) && Sound(c, Rows(g), Cols(g)) && c.col == 1
    requires Renders(font, g, a, c.grid)
    requires RectPainted(g, a, b, c.col * GlyphWidth(g), c.row * GlyphHeight(g), g.width,
                         c.row * GlyphHeight(g) + GlyphHeight(g), Pack(g, c.bg))
    requires var x := c.grid[c.row][1];
             dy < GLYPH_H && Bit(font[x.glyph][dy], 0) && Pack(g, x.fg) != Pack(g, c.bg)
    ensures !Renders(font, g, b, ConsoleModel.ClearToEol(c, Rows(g), Cols(g)).grid)
  {
    var u, v, h := GLYPH_W, c.row * GLYPH_H + dy, ConsoleModel.ClearToEol(c, Rows(g), Cols(g)).grid;
    assert InText(g, u, v);
    TextOnScreen(g, u, v);
    assert v / GLYPH_H == c.row && v % GLYPH_H == dy && u / GLYPH_W == 1 && u % GLYPH_W == 0;
    assert PixelShows(font, g, a, c.grid, u, v);
    assert GlyphWidth(g) == 10;
    assert Px(b, g, u, v) == Px(a, g, u, v) == Pack(g, c.grid[c.row][1].fg);
    assert h[c.row][1] == Blank(c);
    BlankPixel(font, g, c.fg, c.bg, 0, dy);
    assert !PixelShows(font, g, b, h, u, v);
  }

  lemma LinesFit(g: Geometry)
    requires GoodGeometry(g) && Rows(g) >= 1
    ensures (Rows(g) - 1) * GLYPH_H + GLYPH_H == Rows(g) * GLYPH_H <= g.height
    ensures (Rows(g) - 1) * GLYPH_H + GLYPH_H < 0x1_0000_0000
  {
  }

  lemma EolRoom(g: Geometry, row: nat)
    requires GoodGeometry(g) && row < Rows(g) && Cols(g) >= 1
    ensures row * GlyphHeight(g) + GlyphHeight(g) <= g.height
  {
    WidthTimes(g);
    hide GlyphWidth, GlyphHeight;
    MulMonotone(row + 1, Rows(g), GlyphHeight(g));
  }

  lemma ClearRenders(font: Font, g: Geometry, a: seq<byte>, b: seq<byte>, c: Console)
    requires Fits(a, g) && Fits(b, g) && Rows(g) >= 1 && Cols(g) >= 1
    requires RectPainted(g, a, b, 0, 0, g.width, g.height, Pack(g, c.bg))
    requires c.grid == Clear(c, Rows(g), Cols(g)).grid
    ensures Shaped(c.grid, Rows(g), Cols(g)) && Renders(font, g, b, c.grid)
  {
    forall x: nat, y: nat | InText(g, x, y)
      ensures CellFilled(font, g, a, c.grid, c.grid, c.fg, c.bg, 0, 0, g.width, g.height, x, y)
    {
      TextOnScreen(g, x, y);
    }
    hide CellFilled, RectPainted, Renders;
    FillRenders(font, g, a, b, c.grid, c.grid, c.fg, c.bg, 0, 0, g.width, g.height);
  }

  lemma EolRenders(font: Font, g: Geometry, a: seq<byte>, b: seq<byte>, c: Console, h: Grid, x0: nat, y0: nat, y1: nat)
    requires Fits(a, g) && Fits(b, g) && Sound(c, Rows(g), Cols(g)) && Shaped(h, Rows(g), Cols(g))
    requires Renders(font, g, a, c.grid)
    requires h == ConsoleModel.ClearToEol(c, Rows(g), Cols(g)).grid
    requires x0 == c.col * GlyphWidth(g) && y0 == c.row * GlyphHeight(g) && y1 == y0 + GlyphHeight(g)
    requires EolExact(g, c.row, c.col) && RectPainted(g, a, b, x0, y0, g.width, y1, Pack(g, c.bg))
    ensures Renders(font, g, b, h)
  {
    hide CellFilled, RectPainted, GlyphWidth, GlyphHeight, PixelShows, EolExact, Renders, Fits, Pack, Cols, Rows,
         InText, Shaped;
    forall x: nat, y: nat | InText(g, x, y)
      ensures CellFilled(font, g, a, c.grid, h, c.fg, c.bg, x0, y0, g.width, y1, x, y)
    {
      EolCell(font, g, a, c, h, x0, y0, y1, x, y);
    }
    FillRenders(font, g, a, b, c.grid, h, c.fg, c.bg, x0, y0, g.width, y1);
  }

  lemma EolCell(font: Font, g: Geometry, a: seq<byte>, c: Console, h: Grid, x0: nat, y0: nat, y1: nat, x: nat, y: nat)
    requires Fits(a, g) && Sound(c, Rows(g), Cols(g)) && Shaped(h, Rows(g), Cols(g)) && Renders(font, g, a, c.grid)
    requires h == ConsoleModel.ClearToEol(c, Rows(g), Cols(g)).grid
    requires x0 == c.col * GlyphWidth(g) && y0 == c.row * GlyphHeight(g) && y1 == y0 + GlyphHeight(g)
    requires EolExact(g, c.row, c.col) && InText(g, x, y)
    ensures CellFilled(font, g, a, c.grid, h, c.fg, c.bg, x0, y0, g.width, y1, x, y)
  {
    hide PixelShows, GlyphWidth, GlyphHeight, Px, Fits;
    TextOnScreen(g, x, y);
    assert InEolRect(g, c.row, c.col, x, y) <==> y / GLYPH_H == c.row && x / GLYPH_W >= c.col;
    assert PixelShows(font, g, a, c.grid, x, y);
  }
}
