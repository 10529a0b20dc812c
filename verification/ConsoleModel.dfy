/** The text console as a grid of cells: what kernel/fbcon.c keeps on the screen. */
module ConsoleModel {
  import opened Bytes

  const FIRST_CHAR := 0x20
  const LAST_CHAR := 0x7F
  const GLYPHS := LAST_CHAR - FIRST_CHAR + 1

  const NEWLINE: byte := 10
  const RETURN: byte := 13
  const BACKSPACE: byte := 8
  const TAB: byte := 9
  const QUESTION: byte := 63
  const SPACE: byte := 32

  type Glyph = x: int | 0 <= x < GLYPHS

  datatype Cell = Cell(glyph: Glyph, fg: uint32, bg: uint32)

  type Grid = seq<seq<Cell>>

  datatype Console = Console(grid: Grid, row: nat, col: nat, fg: uint32, bg: uint32)

  predicate Shaped(g: Grid, rows: nat, cols: nat) {
    |g| == rows && forall r :: 0 <= r < rows ==> |g[r]| == cols
  }

  /** The grid has its size and the cursor is inside it. */
  predicate Sound(c: Console, rows: nat, cols: nat) {
    Shaped(c.grid, rows, cols) && c.row < rows && c.col < cols
  }

  /** The font's glyph for a character; a character it does not have shows as '?'. */
  function GlyphOf(ch: byte): Glyph {
    if ch < FIRST_CHAR || ch > LAST_CHAR then QUESTION - FIRST_CHAR else ch - FIRST_CHAR
  }

  function Blank(c: Console): Cell {
    Cell(0, c.fg, c.bg)
  }

  function Blanks(c: Console, n: nat): (r: seq<Cell>)
    ensures |r| == n && forall k :: 0 <= k < n ==> r[k] == Blank(c)
  {
    seq(n, _ => Blank(c))
  }

  // ---- the operations ----------------------------------------------------------------------

  function SetCell(g: Grid, r: nat, k: nat, x: Cell): (h: Grid)
    requires r < |g| && k < |g[r]|
    ensures |h| == |g| && forall i :: 0 <= i < |g| ==> |h[i]| == |g[i]|
  {
    g[r := g[r][k := x]]
  }

  function Draw(c: Console, k: nat, ch: byte): (d: Console)
    requires c.row < |c.grid| && k < |c.grid[c.row]|
  {
    c.(grid := SetCell(c.grid, c.row, k, Cell(GlyphOf(ch), c.fg, c.bg)))
  }

  /** The first row leaves, a blank one comes in at the bottom. */
  function Scroll(c: Console, cols: nat): Grid
    requires c.grid != []
  {
    c.grid[1..] + [Blanks(c, cols)]
  }

  function NewLine(c: Console, rows: nat, cols: nat): (d: Console)
    requires Sound(c, rows, cols)
    ensures Sound(d, rows, cols)
  {
    if c.row + 1 >= rows then c.(grid := Scroll(c, cols), col := 0) else c.(row := c.row + 1, col := 0)
  }

  /** Put the cursor in column `k`, or at the start of the next line when there is no such column. */
  function MoveTo(c: Console, k: nat, rows: nat, cols: nat): (d: Console)
    requires Sound(c, rows, cols)
    ensures Sound(d, rows, cols)
  {
    if k >= cols then NewLine(c, rows, cols) else c.(col := k)
  }

  function Put(c: Console, ch: byte, rows: nat, cols: nat): (d: Console)
    requires Sound(c, rows, cols)
    ensures Sound(d, rows, cols) && d.fg == c.fg && d.bg == c.bg
    ensures ch == 10 ==> d.col == 0 && d.row == if c.row + 1 < rows then c.row + 1 else rows - 1
    ensures ch == 13 ==> d.col == 0 && d.row == c.row
    ensures ch == 8 ==> d.col == (if c.col == 0 then 0 else c.col - 1) && d.row == c.row
    ensures ch == 9 || ch >= 32 ==> (d.row == c.row && d.col > c.col) || (d.row >= c.row && d.col == 0)
    ensures ch >= 32 && c.col + 1 < cols ==> d.row == c.row && d.col == c.col + 1
  {
    if ch == NEWLINE then NewLine(c, rows, cols)
    else if ch == RETURN then c.(col := 0)
    else if ch == BACKSPACE then if c.col > 0 then Draw(c, c.col - 1, SPACE).(col := c.col - 1) else c
    else if ch == TAB then MoveTo(c, (c.col + 4) / 4 * 4, rows, cols)
    else if ch < FIRST_CHAR then c
    else MoveTo(Draw(c, c.col, ch), c.col + 1, rows, cols)
  }

  function Clear(c: Console, rows: nat, cols: nat): (d: Console)
    requires rows >= 1 && cols >= 1
    ensures Sound(d, rows, cols)
  {
    c.(grid := seq(rows, _ => Blanks(c, cols)), row := 0, col := 0)
  }

  function SetColor(c: Console, fg: uint32, bg: uint32): Console {
    c.(fg := fg, bg := bg)
  }

  function Clamp(x: int, n: nat): nat
    requires n >= 1
  {
    if x < 0 then 0 else if x >= n then n - 1 else x
  }

  function SetCursor(c: Console, row: int, col: int, rows: nat, cols: nat): (d: Console)
    requires Sound(c, rows, cols)
    ensures Sound(d, rows, cols)
  {
    c.(row := Clamp(row, rows), col := Clamp(col, cols))
  }

  /** Blank the cells from the cursor to the end of its line. */
  function ClearToEol(c: Console, rows: nat, cols: nat): (d: Console)
    requires Sound(c, rows, cols)
    ensures Sound(d, rows, cols)
  {
    c.(grid := c.grid[c.row := c.grid[c.row][..c.col] + Blanks(c, cols - c.col)])
  }

  // ---- a string on a cleared console -------------------------------------------------------

  function Write(c: Console, s: seq<byte>, rows: nat, cols: nat): (d: Console)
    requires Sound(c, rows, cols)
    ensures Sound(d, rows, cols)
  {
    if s == [] then c else Put(Write(c, s[..|s| - 1], rows, cols), s[|s| - 1], rows, cols)
  }

  // ---- any calls ---------------------------------------------------------------------------

  datatype Call =
    | PutChar(ch: byte)
    | Text(s: seq<byte>)
    | Wipe
    | Colors(fg: uint32, bg: uint32)
    | Cursor(row: int, col: int)
    | WipeToEol

  function Step(c: Console, a: Call, rows: nat, cols: nat): (d: Console)
    requires Sound(c, rows, cols)
    ensures Sound(d, rows, cols)
  {
    match a
    case PutChar(ch) => Put(c, ch, rows, cols)
    case Text(s) => Write(c, s, rows, cols)
    case Wipe => Clear(c, rows, cols)
    case Colors(fg, bg) => SetColor(c, fg, bg)
    case Cursor(row, col) => SetCursor(c, row, col, rows, cols)
    case WipeToEol => ClearToEol(c, rows, cols)
  }

  function Run(c: Console, calls: seq<Call>, rows: nat, cols: nat): (d: Console)
    requires Sound(c, rows, cols)
    ensures Sound(d, rows, cols)
  {
    if calls == [] then c else Step(Run(c, calls[..|calls| - 1], rows, cols), calls[|calls| - 1], rows, cols)
  }
}
