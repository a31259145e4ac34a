/** The terminal's fixed character grid, against a sheet that never scrolls. */
module Terminal {
  import opened Bytes

  const PLAIN_FG: int := 0x00F8FAFC
  const PLAIN_BG: int := 0x000F172A

  datatype Cell = Cell(ch: byte, fg: int, bg: int)

  type Row = seq<Cell>

  function BlankRow(): (r: Row)
    ensures |r| == 62 && forall k :: 0 <= k < 62 ==> r[k] == Cell(32, PLAIN_FG, PLAIN_BG)
  {
    seq(62, _ => Cell(32, PLAIN_FG, PLAIN_BG))
  }

  // ----------------------------------------------------------- the unbounded sheet

  /** Everything printed since the last clear: rows are only ever added at the bottom. */
  datatype Sheet = Sheet(rows: seq<Row>, row: nat, col: nat)

  ghost predicate ValidSheet(s: Sheet) {
    && |s.rows| >= 18 && |s.rows| - 18 <= s.row < |s.rows| && s.col < 62
    && forall r :: 0 <= r < |s.rows| ==> |s.rows[r]| == 62
  }

  function CleanSheet(): (s: Sheet)
    ensures ValidSheet(s)
  {
    Sheet(seq(18, _ => BlankRow()), 0, 0)
  }

  /** The cursor at the start of the next row, which exists or is added blank. */
  function NextRow(s: Sheet): (t: Sheet)
    requires ValidSheet(s)
    ensures ValidSheet(t)
  {
    Sheet(if s.row + 1 < |s.rows| then s.rows else s.rows + [BlankRow()], s.row + 1, 0)
  }

  function WithCell(s: Sheet, row: nat, col: nat, cell: Cell): seq<Row>
    requires row < |s.rows| && col < |s.rows[row]|
  {
    s.rows[row := s.rows[row][col := cell]]
  }

  function PutSheet(s: Sheet, c: byte, fg: int, bg: int): (t: Sheet)
    requires ValidSheet(s)
    ensures ValidSheet(t)
  {
    if c == 10 then NextRow(s)
    else if c == 13 then s.(col := 0)
    else if c == 8 then
      if s.col == 0 then s
      else Sheet(WithCell(s, s.row, s.col - 1, s.rows[s.row][s.col - 1].(ch := 32)), s.row, s.col - 1)
    else
      var t := Sheet(WithCell(s, s.row, s.col, Cell(c, fg, bg)), s.row, s.col);
      if s.col + 1 < 62 then t.(col := s.col + 1) else NextRow(t)
  }

  function PrintSheet(s: Sheet, text: seq<byte>, fg: int, bg: int): (t: Sheet)
    requires ValidSheet(s)
    ensures ValidSheet(t)
  {
    if text == [] then s else PutSheet(PrintSheet(s, text[..|text| - 1], fg, bg), text[|text| - 1], fg, bg)
  }

  /** The sheet is never taken back: rows above the cursor stay as they are, whatever is printed. */
  lemma {:induction false} RowsAboveStay(s: Sheet, text: seq<byte>, fg: int, bg: int)
    requires ValidSheet(s)
    ensures var t := PrintSheet(s, text, fg, bg);
            |s.rows| <= |t.rows| && s.row <= t.row && t.rows[..s.row] == s.rows[..s.row]
  {
    if text != [] {
      RowsAboveStay(s, text[..|text| - 1], fg, bg);
      var u := PrintSheet(s, text[..|text| - 1], fg, bg);
      var t := PrintSheet(s, text, fg, bg);
      assert t.rows[..s.row] == u.rows[..s.row];
    }
  }

  // ------------------------------------------------------------- what printing shows

  /** A text without line breaks, carriage returns and backspaces. */
  predicate Plain(text: seq<byte>) {
    10 !in text && 13 !in text && 8 !in text
  }

  /** The place on the sheet `n` characters behind the cursor. */
  function PlaceRow(s: Sheet, n: nat): nat {
    s.row + (s.col + n) / 62
  }

  function PlaceCol(s: Sheet, n: nat): nat {
    (s.col + n) % 62
  }

  /** How many characters behind the cursor a cell lies. */
  function Behind(s: Sheet, r: int, k: int): int {
    (r - s.row) * 62 + k - s.col
  }

  /** Whatever else is there, the characters of `text` stand from the cursor of `s` on, row after row. */
  ghost predicate CellsAre(s: Sheet, text: seq<byte>, fg: int, bg: int, t: Sheet)
    requires ValidSheet(s) && ValidSheet(t)
  {
    forall r, k :: 0 <= r < |t.rows| && 0 <= k < 62 ==> CellIs(s, text, fg, bg, t, r, k)
  }

  ghost predicate CellIs(s: Sheet, text: seq<byte>, fg: int, bg: int, t: Sheet, r: int, k: int)
    requires ValidSheet(s) && ValidSheet(t) && 0 <= r < |t.rows| && 0 <= k < 62
  {
    t.rows[r][k] == if 0 <= Behind(s, r, k) < |text| then Cell(text[Behind(s, r, k)], fg, bg)
                    else if r < |s.rows| then s.rows[r][k]
                    else Cell(32, 0x00F8FAFC, 0x000F172A)
  }

  lemma PlaceIs(s: Sheet, n: nat, r: int, k: int)
    requires s.col < 62 && 0 <= k < 62
    ensures Behind(s, r, k) == n <==> r == PlaceRow(s, n) && k == PlaceCol(s, n)
  {
  }

  /**
   * A plain text of any length stands from the cursor on, character behind character, going on at column 0 of
   * the next row whenever column 62 is reached; rows added for it are blank but for it, every other cell is
   * kept, and the cursor is behind its last character.
   */
  lemma {:induction false} PrintShows(s: Sheet, text: seq<byte>, fg: int, bg: int)
    requires ValidSheet(s) && Plain(text)
    ensures var t := PrintSheet(s, text, fg, bg);
            && t.row == PlaceRow(s, |text|) && t.col == PlaceCol(s, |text|)
            && |t.rows| == (if t.row < |s.rows| then |s.rows| else t.row + 1)
            && CellsAre(s, text, fg, bg, t)
    decreases |text|
  {
    hide PutSheet, CellIs, PlaceRow, PlaceCol, Behind;
    if text == [] {
      NothingPrinted(s, fg, bg);
    } else {
      var front, c := text[..|text| - 1], text[|text| - 1];
      PrintShows(s, front, fg, bg);
      OneMore(s, front, c, fg, bg, PrintSheet(s, front, fg, bg));
      assert front + [c] == text;
    }
  }

  lemma NothingPrinted(s: Sheet, fg: int, bg: int)
    requires ValidSheet(s)
    ensures PlaceRow(s, 0) == s.row && PlaceCol(s, 0) == s.col && CellsAre(s, [], fg, bg, s)
  {
  }

  lemma OneMore(s: Sheet, front: seq<byte>, c: byte, fg: int, bg: int, u: Sheet)
    requires ValidSheet(s) && ValidSheet(u) && c != 10 && c != 13 && c != 8
    requires u.row == PlaceRow(s, |front|) && u.col == PlaceCol(s, |front|)
    requires |u.rows| == (if u.row < |s.rows| then |s.rows| else u.row + 1) && CellsAre(s, front, fg, bg, u)
    ensures var t := PutSheet(u, c, fg, bg);
            && t.row == PlaceRow(s, |front| + 1) && t.col == PlaceCol(s, |front| + 1)
            && |t.rows| == (if t.row < |s.rows| then |s.rows| else t.row + 1)
            && CellsAre(s, front + [c], fg, bg, t)
  {
    hide Behind, PlaceRow, PlaceCol;
    var t, n := PutSheet(u, c, fg, bg), |front|;
    NextPlace(s, n);
    forall r, k | 0 <= r < |t.rows| && 0 <= k < 62 ensures CellIs(s, front + [c], fg, bg, t, r, k) {
      PlaceIs(s, n, r, k);
      if r < |u.rows| {
        assert CellIs(s, front, fg, bg, u, r, k);
      } else {
        NewRowBehind(s, n, r, k);
      }
    }
  }

  lemma NextPlace(s: Sheet, n: nat)
    requires s.col < 62
    ensures PlaceCol(s, n) < 62
    ensures PlaceRow(s, n + 1) == if PlaceCol(s, n) + 1 < 62 then PlaceRow(s, n) else PlaceRow(s, n) + 1
    ensures PlaceCol(s, n + 1) == if PlaceCol(s, n) + 1 < 62 then PlaceCol(s, n) + 1 else 0
  {
  }

  lemma NewRowBehind(s: Sheet, n: nat, r: int, k: int)
    requires s.col < 62 && 0 <= k < 62 && r > PlaceRow(s, n)
    ensures Behind(s, r, k) > n
  {
  }

  /** A line break, a carriage return, and a backspace, which blanks the character before the cursor in its colours. */
  lemma ControlsShow(s: Sheet, fg: int, bg: int)
    requires ValidSheet(s)
    ensures var t := PrintSheet(s, [10], fg, bg);
            && t.row == s.row + 1 && t.col == 0 && s.rows <= t.rows
            && (t.row < |s.rows| ==> t.rows == s.rows)
            && (t.row == |s.rows| ==> |t.rows| == |s.rows| + 1 && forall k :: 0 <= k < 62 ==>
                  t.rows[t.row][k] == Cell(32, 0x00F8FAFC, 0x000F172A))
    ensures PrintSheet(s, [13], fg, bg) == Sheet(s.rows, s.row, 0)
    ensures s.col == 0 ==> PrintSheet(s, [8], fg, bg) == s
    ensures s.col > 0 ==>
              var t := PrintSheet(s, [8], fg, bg);
              && t.row == s.row && t.col == s.col - 1 && |t.rows| == |s.rows|
              && forall r, k :: 0 <= r < |s.rows| && 0 <= k < 62 ==>
                   t.rows[r][k] == if r == s.row && k == s.col - 1 then Cell(32, s.rows[r][k].fg, s.rows[r][k].bg)
                                   else s.rows[r][k]
  {
    PrintOne(s, 10, fg, bg);
    PrintOne(s, 13, fg, bg);
    PrintOne(s, 8, fg, bg);
  }

  lemma PrintOne(s: Sheet, c: byte, fg: int, bg: int)
    requires ValidSheet(s)
    ensures PrintSheet(s, [c], fg, bg) == PutSheet(s, c, fg, bg)
  {
    assert [c][..0] == [];
  }

  /** Printing one text and then another is printing both. */
  lemma {:induction false} PrintBoth(s: Sheet, a: seq<byte>, b: seq<byte>, fg: int, bg: int)
    requires ValidSheet(s)
    ensures PrintSheet(s, a + b, fg, bg) == PrintSheet(PrintSheet(s, a, fg, bg), b, fg, bg)
    decreases |b|
  {
    hide PutSheet;
    if b == [] {
      assert a + b == a;
    } else {
      assert (a + b)[..|a + b| - 1] == a + b[..|b| - 1];
      PrintBoth(s, a, b[..|b| - 1], fg, bg);
    }
  }

  /** Inside one row: the cells of the cursor's row from the cursor on, and nothing else. */
  lemma ShortPrintShows(s: Sheet, text: seq<byte>, fg: int, bg: int)
    requires ValidSheet(s) && Plain(text) && s.col + |text| <= 61
    ensures var t := PrintSheet(s, text, fg, bg);
            && t.row == s.row && t.col == s.col + |text| && |t.rows| == |s.rows|
            && forall r, k :: 0 <= r < |s.rows| && 0 <= k < 62 ==>
                 t.rows[r][k] == if r == s.row && s.col <= k < s.col + |text| then Cell(text[k - s.col], fg, bg)
                                 else s.rows[r][k]
  {
    hide PrintSheet;
    PrintShows(s, text, fg, bg);
    var t := PrintSheet(s, text, fg, bg);
    forall r, k | 0 <= r < |s.rows| && 0 <= k < 62
      ensures t.rows[r][k] == if r == s.row && s.col <= k < s.col + |text| then Cell(text[k - s.col], fg, bg)
                              else s.rows[r][k]
    {
      assert CellIs(s, text, fg, bg, t, r, k);
    }
  }

  // ---------------------------------------------------------------------- the grid

  class Screen {
    const grid: array2<byte>
    const fgGrid: array2<int>
    const bgGrid: array2<int>
    var cursorCol: int
    var cursorRow: int

    /** The sheet the screen is a view of. */
    ghost var sheet: Sheet

    constructor ()
      ensures Shaped() && fresh(grid) && fresh(fgGrid) && fresh(bgGrid)
    {
      grid := new byte[18, 62]((_, _) => 0);
      fgGrid := new int[18, 62]((_, _) => 0);
      bgGrid := new int[18, 62]((_, _) => 0);
      cursorCol, cursorRow := 0, 0;
      sheet := CleanSheet();
    }

    ghost predicate Shaped() {
      && grid.Length0 == 18 && grid.Length1 == 62
      && fgGrid.Length0 == 18 && fgGrid.Length1 == 62
      && bgGrid.Length0 == 18 && bgGrid.Length1 == 62
      && fgGrid != bgGrid
    }

    /** The grid cell shows `c`. */
    ghost predicate Shows(r: int, k: int, c: Cell)
      reads grid, fgGrid, bgGrid
      requires Shaped() && 0 <= r < 18 && 0 <= k < 62
    {
      grid[r, k] == c.ch && fgGrid[r, k] == c.fg && bgGrid[r, k] == c.bg
    }

    /** The grid shows `rows`, glyphs and colours. */
    ghost predicate ShowsRows(rows: seq<Row>)
      reads grid, fgGrid, bgGrid
      requires Shaped()
    {
      && |rows| == 18 && (forall r :: 0 <= r < 18 ==> |rows[r]| == 62)
      && forall r, k :: 0 <= r < 18 && 0 <= k < 62 ==> Shows(r, k, rows[r][k])
    }

    /** The screen is the last eighteen rows of the sheet, with the cursor at the same place. */
    ghost predicate Valid()
      reads this, grid, fgGrid, bgGrid
    {
      && Shaped() && ValidSheet(sheet)
      && ShowsRows(sheet.rows[|sheet.rows| - 18..])
      && cursorRow == sheet.row - (|sheet.rows| - 18) && cursorCol == sheet.col
    }

    /** What the grid shows. */
    ghost function View(): (rows: seq<Row>)
      reads grid, fgGrid, bgGrid
      requires Shaped()
      ensures ShowsRows(rows)
    {
      seq(18, r requires 0 <= r < 18 reads grid, fgGrid, bgGrid =>
        seq(62, k requires 0 <= k < 62 reads grid, fgGrid, bgGrid => Cell(grid[r, k], fgGrid[r, k], bgGrid[r, k])))
    }

    method SetCell(r: int, k: int, c: Cell, ghost rows: seq<Row>)
      requires Shaped() && ShowsRows(rows) && 0 <= r < 18 && 0 <= k < 62
      modifies grid, fgGrid, bgGrid
      ensures ShowsRows(rows[r := rows[r][k := c]])
    {
      grid[r, k] := c.ch;
      fgGrid[r, k] := c.fg;
      bgGrid[r, k] := c.bg;
    }

    /** Moves every row up by one and blanks the last. */
    method ScrollUp(ghost rows: seq<Row>)
      requires Shaped() && ShowsRows(rows)
      modifies grid, fgGrid, bgGrid, this`cursorRow
      ensures ShowsRows(rows[1..] + [BlankRow()]) && cursorRow == 17
    {
      ghost var now := rows;
      for r := 0 to 17
        invariant ShowsRows(now)
        invariant forall i :: 0 <= i < r ==> now[i] == rows[i + 1]
        invariant forall i :: r <= i < 18 ==> now[i] == rows[i]
      {
        for c := 0 to 62
          invariant ShowsRows(now)
          invariant forall i :: 0 <= i < r ==> now[i] == rows[i + 1]
          invariant forall i :: r < i < 18 ==> now[i] == rows[i]
          invariant forall k :: 0 <= k < c ==> now[r][k] == rows[r + 1][k]
        {
          assert Shows(r + 1, c, now[r + 1][c]);
          SetCell(r, c, Cell(grid[r + 1, c], fgGrid[r + 1, c], bgGrid[r + 1, c]), now);
          now := now[r := now[r][c := rows[r + 1][c]]];
        }
        assert now[r] == rows[r + 1];
      }
      for c := 0 to 62
        invariant ShowsRows(now)
        invariant forall i :: 0 <= i < 17 ==> now[i] == rows[i + 1]
        invariant forall k :: 0 <= k < c ==> now[17][k] == BlankRow()[k]
      {
        SetCell(17, c, Cell(32, PLAIN_FG, PLAIN_BG), now);
        now := now[17 := now[17][c := Cell(32, PLAIN_FG, PLAIN_BG)]];
      }
      assert now[17] == BlankRow();
      assert now == rows[1..] + [BlankRow()];
      cursorRow := 17;
    }

    /** Ends the row: down one, scrolling when the cursor was on the last row. */
    method EndRow()
      requires Valid()
      modifies this, grid, fgGrid, bgGrid
      ensures Valid() && sheet == NextRow(old(sheet))
    {
      ghost var view := sheet.rows[|sheet.rows| - 18..];
      cursorCol := 0;
      cursorRow := cursorRow + 1;
      sheet := NextRow(sheet);
      if cursorRow >= 18 {
        ScrollUp(view);
        assert sheet.rows[|sheet.rows| - 18..] == view[1..] + [BlankRow()];
      }
    }

    /** Writes the cell under the cursor. */
    method SetAtCursor(c: Cell)
      requires Valid()
      modifies this`sheet, grid, fgGrid, bgGrid
      ensures Valid() && sheet == old(sheet.(rows := WithCell(sheet, sheet.row, sheet.col, c)))
    {
      ghost var view := sheet.rows[|sheet.rows| - 18..];
      SetCell(cursorRow, cursorCol, c, view);
      sheet := sheet.(rows := WithCell(sheet, sheet.row, sheet.col, c));
      assert sheet.rows[|sheet.rows| - 18..] == view[cursorRow := view[cursorRow][cursorCol := c]];
    }

    /** A backspace that has something to rub out: the character goes, its colours stay. */
    method RubOut()
      requires Valid() && cursorCol > 0
      modifies this`sheet, this`cursorCol, grid, fgGrid, bgGrid
      ensures Valid()
      ensures var s := old(sheet);
              sheet == Sheet(WithCell(s, s.row, s.col - 1, s.rows[s.row][s.col - 1].(ch := 32)), s.row, s.col - 1)
    {
      cursorCol := cursorCol - 1;
      sheet := sheet.(col := sheet.col - 1);
      SetAtCursor(Cell(32, fgGrid[cursorRow, cursorCol], bgGrid[cursorRow, cursorCol]));
    }

    /** The grid's row with the cursor is the sheet's. */
    lemma CursorRowShows()
      requires Valid()
      ensures forall k :: 0 <= k < 62 ==> Shows(cursorRow, k, sheet.rows[sheet.row][k])
    {
      var view := sheet.rows[|sheet.rows| - 18..];
      assert view[cursorRow] == sheet.rows[sheet.row];
    }

    /** term_putc: the screen after a character is the view of the sheet after it. */
    method TermPutc(c: byte, fg: int, bg: int)
      requires Valid()
      modifies this, grid, fgGrid, bgGrid
      ensures Valid() && sheet == PutSheet(old(sheet), c, fg, bg)
    {
      hide ShowsRows, NextRow, WithCell;
      if c == 10 {
        EndRow();
        return;
      }
      if c == 13 {
        cursorCol := 0;
        sheet := sheet.(col := 0);
        return;
      }
      if c == 8 {
        if cursorCol > 0 {
          RubOut();
        }
        return;
      }
      SetAtCursor(Cell(c, fg, bg));
      if cursorCol + 1 >= 62 {
        EndRow();
      } else {
        cursorCol := cursorCol + 1;
        sheet := sheet.(col := sheet.col + 1);
      }
    }

    method TermPrint(text: CString, fg: int, bg: int)
      requires Valid()
      modifies this, grid, fgGrid, bgGrid
      ensures Valid() && sheet == PrintSheet(old(sheet), text, fg, bg)
      ensures Plain(text) && old(cursorCol) + |text| <= 61 ==>
                && cursorRow == old(cursorRow) && cursorCol == old(cursorCol) + |text|
                && forall j :: 0 <= j < |text| ==> Shows(cursorRow, old(cursorCol) + j, Cell(text[j], fg, bg))
    {
      hide ShowsRows, PutSheet, Shows;
      for i := 0 to |text|
        invariant Valid() && sheet == PrintSheet(old(sheet), text[..i], fg, bg)
      {
        TermPutc(text[i], fg, bg);
        assert text[..i + 1][..i] == text[..i];
      }
      assert text[..|text|] == text;
      if Plain(text) && old(cursorCol) + |text| <= 61 {
        ShortPrintShows(old(sheet), text, fg, bg);
        CursorRowShows();
        forall j | 0 <= j < |text| ensures Shows(cursorRow, old(cursorCol) + j, Cell(text[j], fg, bg)) {
          assert sheet.rows[sheet.row][old(cursorCol) + j] == Cell(text[j], fg, bg);
        }
      }
    }

    /** The clear command: a clean sheet. */
    method Clear()
      requires Shaped()
      modifies this, grid, fgGrid, bgGrid
      ensures Valid() && sheet == CleanSheet()
      ensures cursorRow == 0 && cursorCol == 0
      ensures forall r, c :: 0 <= r < 18 && 0 <= c < 62 ==> Shows(r, c, Cell(32, 0x00F8FAFC, 0x000F172A))
    {
      ghost var now := View();
      for r := 0 to 18
        invariant ShowsRows(now)
        invariant forall i :: 0 <= i < r ==> now[i] == BlankRow()
      {
        for c := 0 to 62
          invariant ShowsRows(now)
          invariant forall i :: 0 <= i < r ==> now[i] == BlankRow()
          invariant forall k :: 0 <= k < c ==> now[r][k] == BlankRow()[k]
        {
          SetCell(r, c, Cell(32, PLAIN_FG, PLAIN_BG), now);
          now := now[r := now[r][c := Cell(32, PLAIN_FG, PLAIN_BG)]];
        }
        assert now[r] == BlankRow();
      }
      assert now == CleanSheet().rows == CleanSheet().rows[0..];
      cursorCol, cursorRow := 0, 0;
      sheet := CleanSheet();
      forall r, c | 0 <= r < 18 && 0 <= c < 62 ensures Shows(r, c, Cell(32, 0x00F8FAFC, 0x000F172A)) {
        assert now[r][c] == BlankRow()[c];
      }
    }
  }
}
