/** What a text of several lines looks like on the console (kernel/fbcon.c), and what the other control
    characters do. */
module ConsoleText {
  import opened Bytes
  import opened ConsoleModel

  // ---- the paper ---------------------------------------------------------------------------

  /** A text, by the lines its newlines make. */
  type Lines = ts: seq<seq<byte>> | ts != [] witness [[]]

  function Spell(ts: seq<seq<byte>>): seq<byte> {
    if ts == [] then [] else if |ts| == 1 then ts[0] else ts[0] + [10] + Spell(ts[1..])
  }

  predicate Printable(ts: seq<seq<byte>>) {
    forall i, j :: 0 <= i < |ts| && 0 <= j < |ts[i]| ==> ts[i][j] >= 32
  }

  /** How many rows of the screen a line needs: one that ends at the right edge has already begun another. */
  function Height(t: seq<byte>, cols: nat): nat
    requires cols >= 1
  {
    |t| / cols + 1
  }

  /** The row the cursor is on, counted from the first row of the text. */
  function LastRow(ts: Lines, cols: nat): nat
    requires cols >= 1
  {
    if |ts| == 1 then |ts[0]| / cols else Height(ts[0], cols) + LastRow(ts[1..], cols)
  }

  /** A character in the font, which has 32 to 127; any other shows as a question mark. */
  function CharCell(ch: byte, fg: uint32, bg: uint32): Cell {
    Cell(if 32 <= ch <= 127 then ch - 32 else 31, fg, bg)
  }

  /** What belongs at row `r`, column `k` of the whole text, on paper of unlimited length. */
  function Due(ts: seq<seq<byte>>, r: nat, k: nat, cols: nat, fg: uint32, bg: uint32): Cell
    requires cols >= 1
  {
    if ts == [] then Cell(0, fg, bg)
    else if r >= Height(ts[0], cols) then Due(ts[1..], r - Height(ts[0], cols), k, cols, fg, bg)
    else if r * cols + k < |ts[0]| then CharCell(ts[0][r * cols + k], fg, bg)
    else Cell(0, fg, bg)
  }

  /** One more character on the last line. */
  function With(ts: Lines, ch: byte): Lines {
    ts[..|ts| - 1] + [ts[|ts| - 1] + [ch]]
  }

  function LastLine(ts: Lines): seq<byte> {
    ts[|ts| - 1]
  }

  lemma WithTail(ts: Lines, ch: byte)
    requires |ts| > 1
    ensures With(ts, ch)[0] == ts[0] && With(ts, ch)[1..] == With(ts[1..], ch) && LastLine(ts[1..]) == LastLine(ts)
  {
  }

  lemma {:induction false} SpellMore(ts: Lines, ch: byte)
    ensures Spell(With(ts, ch)) == Spell(ts) + [ch]
    ensures Spell(ts + [[]]) == Spell(ts) + [10]
  {
    if |ts| > 1 {
      SpellMore(ts[1..], ch);
      WithTail(ts, ch);
      hide With;
      assert (ts + [[]])[1..] == ts[1..] + [[]];
      assert ts[0] + [10] + (Spell(ts[1..]) + [ch]) == ts[0] + [10] + Spell(ts[1..]) + [ch];
      assert ts[0] + [10] + (Spell(ts[1..]) + [10]) == ts[0] + [10] + Spell(ts[1..]) + [10];
    } else {
      assert ts + [[]] == [ts[0], []];
      assert (ts + [[]])[1..] == [[]];
      assert Spell([[]]) == [];
      assert ts[0] + [10] + [] == ts[0] + [10];
      assert With(ts, ch) == [ts[0] + [ch]];
    }
  }

  /** Where a new character goes when `n` are on the line already. */
  lemma OneMore(n: nat, cols: nat)
    requires cols >= 1
    ensures (n + 1) / cols == n / cols + if n % cols + 1 == cols then 1 else 0
    ensures (n + 1) % cols == if n % cols + 1 == cols then 0 else n % cols + 1
  {
    if n % cols + 1 == cols {
      DivModUnique(n + 1, cols, n / cols + 1, 0);
    } else {
      DivModUnique(n + 1, cols, n / cols, n % cols + 1);
    }
  }

  lemma {:induction false} LastRowMore(ts: Lines, ch: byte, cols: nat)
    requires cols >= 1
    ensures LastRow(With(ts, ch), cols) == LastRow(ts, cols) + if |LastLine(ts)| % cols + 1 == cols then 1 else 0
    ensures LastRow(ts + [[]], cols) == LastRow(ts, cols) + 1
  {
    OneMore(|LastLine(ts)|, cols);
    if |ts| > 1 {
      WithTail(ts, ch);
      LastRowMore(ts[1..], ch, cols);
      assert (ts + [[]])[1..] == ts[1..] + [[]];
    } else {
      assert (ts + [[]])[1..] == [[]] && LastRow([[]], cols) == 0;
    }
  }

  lemma PlaceIs(n: nat, r: nat, k: nat, cols: nat)
    requires k < cols
    ensures r * cols + k == n <==> r == n / cols && k == n % cols
    ensures r > n / cols ==> r * cols + k > n
  {
    if r * cols + k == n { DivModUnique(n, cols, r, k); }
    if r > n / cols { MulMonotone(n / cols + 1, r, cols); }
  }

  lemma {:induction false} DueMore(ts: Lines, ch: byte, r: nat, k: nat, cols: nat, fg: uint32, bg: uint32)
    requires k < cols
    ensures Due(With(ts, ch), r, k, cols, fg, bg) ==
            if r == LastRow(ts, cols) && k == |LastLine(ts)| % cols then CharCell(ch, fg, bg)
            else Due(ts, r, k, cols, fg, bg)
    decreases |ts|
  {
    hide CharCell;
    if |ts| > 1 {
      WithTail(ts, ch);
      hide With;
      if r >= Height(ts[0], cols) { DueMore(ts[1..], ch, r - Height(ts[0], cols), k, cols, fg, bg); }
    } else {
      var t := ts[0];
      assert With(ts, ch) == [t + [ch]] && [t + [ch]][1..] == [] && ts[1..] == [];
      PlaceIs(|t|, r, k, cols);
      OneMore(|t|, cols);
      hide With;
      LineMore(t, ch, r, k, cols, fg, bg);
    }
  }

  lemma DueLine(t: seq<byte>, r: nat, k: nat, cols: nat, fg: uint32, bg: uint32)
    requires k < cols
    ensures Due([t], r, k, cols, fg, bg) ==
            if r * cols + k < |t| then CharCell(t[r * cols + k], fg, bg) else Cell(0, fg, bg)
  {
    PlaceIs(|t|, r, k, cols);
    assert [t][1..] == [];
  }

  lemma LineMore(t: seq<byte>, ch: byte, r: nat, k: nat, cols: nat, fg: uint32, bg: uint32)
    requires k < cols
    ensures Due([t + [ch]], r, k, cols, fg, bg) ==
            if r * cols + k == |t| then CharCell(ch, fg, bg) else Due([t], r, k, cols, fg, bg)
  {
    hide Due, CharCell;
    DueLine(t, r, k, cols, fg, bg);
    DueLine(t + [ch], r, k, cols, fg, bg);
  }

  lemma {:induction false} DueNewLine(ts: Lines, r: nat, k: nat, cols: nat, fg: uint32, bg: uint32)
    requires k < cols
    ensures Due(ts + [[]], r, k, cols, fg, bg) == Due(ts, r, k, cols, fg, bg)
    ensures r > LastRow(ts, cols) ==> Due(ts, r, k, cols, fg, bg) == Cell(0, fg, bg)
    decreases |ts|
  {
    assert (ts + [[]])[1..] == ts[1..] + [[]];
    hide CharCell;
    if |ts| > 1 {
      if r >= Height(ts[0], cols) { DueNewLine(ts[1..], r - Height(ts[0], cols), k, cols, fg, bg); }
    } else {
      assert ts == [ts[0]] && (ts + [[]])[1..] == [[]];
      DueLine(ts[0], r, k, cols, fg, bg);
      PlaceIs(|ts[0]|, r, k, cols);
      if r >= Height(ts[0], cols) { DueLine([], r - Height(ts[0], cols), k, cols, fg, bg); }
    }
  }

  /** Below row `last` the paper is blank. */
  ghost predicate BlankBelow(ts: Lines, last: nat, cols: nat, fg: uint32, bg: uint32)
    requires cols >= 1
  {
    forall r: nat, k: nat :: r > last && k < cols ==> Due(ts, r, k, cols, fg, bg) == Cell(0, fg, bg)
  }

  lemma PaperEnds(ts: Lines, cols: nat, fg: uint32, bg: uint32)
    requires cols >= 1
    ensures BlankBelow(ts, LastRow(ts, cols), cols, fg, bg)
  {
    hide Due, LastRow;
    forall r: nat, k: nat | r > LastRow(ts, cols) && k < cols ensures Due(ts, r, k, cols, fg, bg) == Cell(0, fg, bg) {
      DueNewLine(ts, r, k, cols, fg, bg);
    }
  }

  lemma PaperEndsMore(ts: Lines, ch: byte, cols: nat, fg: uint32, bg: uint32)
    requires cols >= 1
    ensures BlankBelow(With(ts, ch), LastRow(ts, cols), cols, fg, bg)
  {
    hide Due, LastRow, With;
    forall r: nat, k: nat | r > LastRow(ts, cols) && k < cols
      ensures Due(With(ts, ch), r, k, cols, fg, bg) == Cell(0, fg, bg)
    {
      DueMore(ts, ch, r, k, cols, fg, bg);
      DueNewLine(ts, r, k, cols, fg, bg);
    }
  }

  // ---- the screen --------------------------------------------------------------------------

  /** The first row of the text still on a screen of `rows` rows when the cursor is on row `last`. */
  function Top(last: nat, rows: nat): nat {
    if last < rows then 0 else last - rows + 1
  }

  /** The screen is a window on the paper that ends with row `last`, or has not moved yet, and the cursor is on
      that row. */
  ghost predicate Window(d: Console, ts: Lines, last: nat, rows: nat, cols: nat, fg: uint32, bg: uint32)
    requires Sound(d, rows, cols)
  {
    && d.row == last - Top(last, rows) && d.fg == fg && d.bg == bg
    && forall r, k :: 0 <= r < rows && 0 <= k < cols ==> d.grid[r][k] == Due(ts, Top(last, rows) + r, k, cols, fg, bg)
  }

  lemma NewLineShows(d: Console, ts: Lines, last: nat, rows: nat, cols: nat, fg: uint32, bg: uint32)
    requires Sound(d, rows, cols) && Window(d, ts, last, rows, cols, fg, bg)
    requires BlankBelow(ts, last, cols, fg, bg)
    ensures Window(NewLine(d, rows, cols), ts, last + 1, rows, cols, fg, bg) && NewLine(d, rows, cols).col == 0
  {
    hide Due;
    var e := NewLine(d, rows, cols);
    if last + 1 >= rows {
      forall r, k | 0 <= r < rows && 0 <= k < cols
        ensures e.grid[r][k] == Due(ts, Top(last + 1, rows) + r, k, cols, fg, bg)
      {
        if r < rows - 1 {
          assert e.grid[r] == d.grid[r + 1];
          assert Top(last + 1, rows) + r == Top(last, rows) + (r + 1);
        } else {
          assert Top(last + 1, rows) + r == last + 1;
        }
      }
    }
  }

  lemma DrawShows(d: Console, ts: Lines, ch: byte, rows: nat, cols: nat, fg: uint32, bg: uint32)
    requires Sound(d, rows, cols) && Window(d, ts, LastRow(ts, cols), rows, cols, fg, bg)
    requires d.col == |LastLine(ts)| % cols && ch >= 32
    ensures var e := Draw(d, d.col, ch);
            Sound(e, rows, cols) && Window(e, With(ts, ch), LastRow(ts, cols), rows, cols, fg, bg)
  {
    hide Due, With, LastRow;
    var e, last := Draw(d, d.col, ch), LastRow(ts, cols);
    forall r, k | 0 <= r < rows && 0 <= k < cols
      ensures e.grid[r][k] == Due(With(ts, ch), Top(last, rows) + r, k, cols, fg, bg)
    {
      DueMore(ts, ch, Top(last, rows) + r, k, cols, fg, bg);
    }
  }

  /** The screen and the cursor as they should be after the text. */
  ghost predicate Shows(d: Console, ts: Lines, rows: nat, cols: nat, fg: uint32, bg: uint32)
    requires Sound(d, rows, cols)
  {
    d.col == |LastLine(ts)| % cols && Window(d, ts, LastRow(ts, cols), rows, cols, fg, bg)
  }

  lemma PutShows(d: Console, ts: Lines, ch: byte, rows: nat, cols: nat, fg: uint32, bg: uint32)
    requires Sound(d, rows, cols) && Shows(d, ts, rows, cols, fg, bg) && ch >= 32
    ensures Shows(Put(d, ch, rows, cols), With(ts, ch), rows, cols, fg, bg)
  {
    var us, last := With(ts, ch), LastRow(ts, cols);
    DrawShows(d, ts, ch, rows, cols, fg, bg);
    LastRowMore(ts, ch, cols);
    OneMore(|LastLine(ts)|, cols);
    assert |LastLine(us)| == |LastLine(ts)| + 1;
    hide Due, With, LastRow, LastLine;
    if d.col + 1 >= cols {
      PaperEndsMore(ts, ch, cols, fg, bg);
      hide Window, BlankBelow;
      NewLineShows(Draw(d, d.col, ch), us, last, rows, cols, fg, bg);
      hide NewLine;
    }
  }

  lemma BreakIsNewLine(d: Console, rows: nat, cols: nat)
    requires Sound(d, rows, cols)
    ensures Put(d, 10, rows, cols) == NewLine(d, rows, cols)
  {
  }

  /** A new line at the end of the text leaves the paper as it is. */
  lemma SamePaper(d: Console, ts: Lines, last: nat, rows: nat, cols: nat, fg: uint32, bg: uint32)
    requires Sound(d, rows, cols) && Window(d, ts, last, rows, cols, fg, bg)
    ensures Window(d, ts + [[]], last, rows, cols, fg, bg)
  {
    hide Due;
    forall r: nat, k: nat | r < rows && k < cols
      ensures d.grid[r][k] == Due(ts + [[]], Top(last, rows) + r, k, cols, fg, bg)
    {
      DueNewLine(ts, Top(last, rows) + r, k, cols, fg, bg);
    }
  }

  lemma BreakShows(d: Console, ts: Lines, rows: nat, cols: nat, fg: uint32, bg: uint32)
    requires Sound(d, rows, cols) && Shows(d, ts, rows, cols, fg, bg)
    ensures Shows(Put(d, 10, rows, cols), ts + [[]], rows, cols, fg, bg)
  {
    hide Due, With, LastRow, NewLine, Window, BlankBelow, Put;
    BreakIsNewLine(d, rows, cols);
    LastRowMore(ts, 32, cols);
    PaperEnds(ts, cols, fg, bg);
    NewLineShows(d, ts, LastRow(ts, cols), rows, cols, fg, bg);
    SamePaper(NewLine(d, rows, cols), ts, LastRow(ts, cols) + 1, rows, cols, fg, bg);
  }

  lemma ClearShows(c: Console, rows: nat, cols: nat)
    requires rows >= 1 && cols >= 1
    ensures Shows(Clear(c, rows, cols), [[]], rows, cols, c.fg, c.bg)
  {
    var none: Lines := [[]];
    assert none[1..] == [];
  }

  lemma WriteMore(c: Console, s: seq<byte>, ch: byte, rows: nat, cols: nat)
    requires Sound(c, rows, cols)
    ensures Write(c, s + [ch], rows, cols) == Put(Write(c, s, rows, cols), ch, rows, cols)
  {
    assert (s + [ch])[..|s|] == s;
  }

  /** After a clear and a text of any number of lines, each wrapped at the right edge, the screen is a window of
      `rows` rows on the paper that ends with the cursor's row: every cell shows the character due there on its
      own text line, in the current colours, or is blank, and the cursor stands right behind the last
      character. */
  lemma {:induction false} WriteShowsTail(c: Console, ts: Lines, rows: nat, cols: nat)
    requires rows >= 1 && cols >= 1 && Printable(ts)
    ensures Shows(Write(Clear(c, rows, cols), Spell(ts), rows, cols), ts, rows, cols, c.fg, c.bg)
    decreases |ts|, |LastLine(ts)|
  {
    var n, d := |ts| - 1, Clear(c, rows, cols);
    var last := ts[n];
    if last != [] {
      var m := |last| - 1;
      var us: Lines := ts[..n] + [last[..m]];
      assert last == last[..m] + [last[m]];
      assert With(us, last[m]) == ts;
      assert forall i :: 0 <= i < n ==> us[i] == ts[i];
      WriteShowsTail(c, us, rows, cols);
      SpellMore(us, last[m]);
      WriteMore(d, Spell(us), last[m], rows, cols);
      hide Shows, Spell, Write, Put, Clear;
      PutShows(Write(d, Spell(us), rows, cols), us, last[m], rows, cols, c.fg, c.bg);
    } else if n > 0 {
      var us: Lines := ts[..n];
      assert us + [[]] == ts;
      assert forall i :: 0 <= i < n ==> us[i] == ts[i];
      WriteShowsTail(c, us, rows, cols);
      SpellMore(us, 32);
      WriteMore(d, Spell(us), 10, rows, cols);
      hide Shows, Spell, Write, Put, Clear;
      BreakShows(Write(d, Spell(us), rows, cols), us, rows, cols, c.fg, c.bg);
    } else {
      assert ts == [[]];
      ClearShows(c, rows, cols);
    }
  }

  // ---- the other control characters --------------------------------------------------------

  /** Everything but cell `k` of the cursor's row, which is blank, and the cursor's column. */
  ghost predicate CellErased(c: Console, d: Console, k: nat, rows: nat, cols: nat)
    requires Sound(c, rows, cols) && Sound(d, rows, cols)
  {
    && d.row == c.row && d.fg == c.fg && d.bg == c.bg
    && forall r, j :: 0 <= r < rows && 0 <= j < cols ==>
                        d.grid[r][j] == if r == c.row && j == k then Cell(0, c.fg, c.bg) else c.grid[r][j]
  }

  /** Return (13) goes back to column 0 and changes no cell; backspace (8) goes back by one and blanks that cell,
      and does nothing in column 0; tab (9) goes to the next multiple of 4, on the next line if the row is not
      that long; newline (10) goes to the start of the next row, on the last one after scrolling up by one; the
      other codes below 32 do nothing. */
  lemma ControlsAct(c: Console, ch: byte, stop: nat, rows: nat, cols: nat)
    requires Sound(c, rows, cols) && c.col < stop <= c.col + 4 && stop % 4 == 0
    ensures Put(c, 13, rows, cols) == c.(col := 0)
    ensures c.col == 0 ==> Put(c, 8, rows, cols) == c
    ensures c.col > 0 ==>
              Put(c, 8, rows, cols).col == c.col - 1 && CellErased(c, Put(c, 8, rows, cols), c.col - 1, rows, cols)
    ensures Put(c, 9, rows, cols) == if stop < cols then c.(col := stop) else Put(c, 10, rows, cols)
    ensures c.row + 1 < rows ==> Put(c, 10, rows, cols) == c.(row := c.row + 1, col := 0)
    ensures c.row + 1 == rows ==>
              Put(c, 10, rows, cols) ==
              c.(grid := c.grid[1..] + [seq(cols, _ => Cell(0, c.fg, c.bg))], col := 0)
    ensures ch < 32 && ch != 8 && ch != 9 && ch != 10 && ch != 13 ==> Put(c, ch, rows, cols) == c
  {
    assert stop == (c.col + 4) / 4 * 4;
  }

  /** Typing a character anywhere but in the last column and erasing it leaves the cursor where it was and the
      cell under it blank. */
  lemma ErasedAgain(c: Console, ch: byte, rows: nat, cols: nat)
    requires Sound(c, rows, cols) && c.col + 1 < cols && ch >= 32
    ensures var d := Put(Put(c, ch, rows, cols), 8, rows, cols); d.col == c.col && CellErased(c, d, c.col, rows, cols)
  {
    var b := Put(c, ch, rows, cols);
    ControlsAct(b, 0, (b.col + 4) / 4 * 4, rows, cols);
    assert forall r, j ::
        0 <= r < rows && 0 <= j < cols && !(r == c.row && j == c.col) ==> b.grid[r][j] == c.grid[r][j];
    hide Put;
  }

  /** Clearing to the end of the line: the cells of the cursor's row from its column on are blank, in the current
      colours, and nothing else changes. */
  lemma LineIsCleared(c: Console, rows: nat, cols: nat)
    requires Sound(c, rows, cols)
    ensures var d := ClearToEol(c, rows, cols);
            && d.row == c.row && d.col == c.col && d.fg == c.fg && d.bg == c.bg
            && forall r, k :: 0 <= r < rows && 0 <= k < cols ==>
                 d.grid[r][k] == if r == c.row && k >= c.col then Cell(0, c.fg, c.bg) else c.grid[r][k]
  {
  }
}
