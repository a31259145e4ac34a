/** Where the drawing form puts every character of a text, rows unlimited, and what a row limit shows of it. */
module WrapCells {
  import opened Bytes
  import opened WrapText
  import opened Wrap

  datatype Cell = Cell(row: nat, col: nat, glyph: byte)

  /** `len` characters in one row. */
  function Line(s: seq<byte>, from: nat, len: nat, row: nat, col: nat): (cells: seq<Cell>)
    requires from + len <= |s|
    ensures |cells| == len
    ensures forall k :: 0 <= k < len ==> cells[k] == Cell(row, col + k, s[from + k])
  {
    seq(len, k requires 0 <= k < len => Cell(row, col + k, s[from + k]))
  }

  /** `len` characters one after the other, going on in the next row whenever the row is full. */
  function RunCells(s: seq<byte>, from: nat, len: nat, row: nat, col: nat, max: nat): (cells: seq<Cell>)
    requires from + len <= |s| && max >= 1 && col <= max
    decreases len, col
  {
    if len == 0 then []
    else if col == max then RunCells(s, from, len, row + 1, 0, max)
    else [Cell(row, col, s[from])] + RunCells(s, from + 1, len - 1, row, col + 1, max)
  }

  /** One token: a word is set behind a blank, or in a new row when it does not fit behind one. */
  function TokenCells(s: seq<byte>, st: Pos, t: Token, max: nat): seq<Cell>
    requires max >= 1 && st.col <= max && (t.Word? ==> t.from + t.len <= |s|)
  {
    if t.Break? || t.len == 0 then []
    else if Overflows(st, t.len, max) then RunCells(s, t.from, t.len, st.row + 1, 0, max)
    else if st.first then RunCells(s, t.from, t.len, st.row, st.col, max)
    else [Cell(st.row, st.col, SPACE)] + RunCells(s, t.from, t.len, st.row, st.col + 1, max)
  }

  predicate InText(toks: seq<Token>, s: seq<byte>) {
    forall k :: 0 <= k < |toks| && toks[k].Word? ==> toks[k].from + toks[k].len <= |s|
  }

  function TextCells(s: seq<byte>, st: Pos, toks: seq<Token>, max: nat): seq<Cell>
    requires max >= 1 && st.col <= max && InText(toks, s)
    decreases |toks|
  {
    if toks == [] then [] else TokenCells(s, st, toks[0], max) + TextCells(s, DrawStep(st, toks[0], max), toks[1..], max)
  }

  /** What is seen of the cells in the first `maxRows` rows. */
  function Cut(cells: seq<Cell>, maxRows: nat): seq<Cell> {
    if cells == [] || cells[0].row >= maxRows then [] else [cells[0]] + Cut(cells[1..], maxRows)
  }

  ghost predicate RowsFrom(cells: seq<Cell>, row: nat) {
    forall k :: 0 <= k < |cells| ==> cells[k].row >= row
  }

  ghost predicate RowsUpTo(cells: seq<Cell>, row: nat) {
    forall k :: 0 <= k < |cells| ==> cells[k].row <= row
  }

  lemma {:induction false} RunRows(s: seq<byte>, from: nat, len: nat, st: Pos, max: nat, restart: bool)
    requires from + len <= |s| && max >= 1 && st.col <= max
    ensures RowsFrom(RunCells(s, from, len, st.row, st.col, max), st.row)
    ensures RowsUpTo(RunCells(s, from, len, st.row, st.col, max), Chunk(st, len, max, restart).row)
    decreases len, st.col
  {
    if len > 0 {
      if st.col == max {
        RunRows(s, from, len, Pos(st.row + 1, 0, st.first || restart), max, restart);
      } else {
        RunRows(s, from + 1, len - 1, Pos(st.row, st.col + 1, st.first), max, restart);
        ChunkOne(st, len, max, restart);
      }
    }
  }

  lemma ChunkOne(st: Pos, len: nat, max: nat, restart: bool)
    requires max >= 1 && st.col < max && len > 0
    ensures Chunk(st, len, max, restart) == Chunk(Pos(st.row, st.col + 1, st.first), len - 1, max, restart)
  {
  }

  lemma TokenRows(s: seq<byte>, st: Pos, t: Token, max: nat)
    requires max >= 1 && st.col <= max && (t.Word? ==> t.from + t.len <= |s|)
    ensures RowsFrom(TokenCells(s, st, t, max), st.row) && RowsUpTo(TokenCells(s, st, t, max), DrawStep(st, t, max).row)
  {
    if t.Word? && t.len > 0 {
      RunRows(s, t.from, t.len, BeforeWord(st, st.row + 1, Overflows(st, t.len, max)), max, true);
    }
  }

  lemma {:induction false} TextRows(s: seq<byte>, st: Pos, toks: seq<Token>, max: nat)
    requires max >= 1 && st.col <= max && InText(toks, s)
    ensures RowsFrom(TextCells(s, st, toks, max), st.row)
    decreases |toks|
  {
    hide TokenCells, DrawStep;
    if toks != [] {
      TokenRows(s, st, toks[0], max);
      TextRows(s, DrawStep(st, toks[0], max), toks[1..], max);
    }
  }

  /** Cells of visible rows in front of others stay. */
  lemma {:induction false} CutKeeps(a: seq<Cell>, b: seq<Cell>, row: nat, maxRows: nat)
    requires RowsUpTo(a, row) && row < maxRows
    ensures Cut(a + b, maxRows) == a + Cut(b, maxRows)
    decreases |a|
  {
    if a == [] {
      assert a + b == b;
    } else {
      assert (a + b)[1..] == a[1..] + b;
      CutKeeps(a[1..], b, row, maxRows);
    }
  }

  /** Cells below the limit behind others do not show. */
  lemma {:induction false} CutDrops(a: seq<Cell>, b: seq<Cell>, maxRows: nat)
    requires RowsFrom(b, maxRows)
    ensures Cut(a + b, maxRows) == Cut(a, maxRows)
    decreases |a|
  {
    if a == [] {
      assert a + b == b;
    } else {
      assert (a + b)[1..] == a[1..] + b;
      CutDrops(a[1..], b, maxRows);
    }
  }

  /** A stretch that fits the row comes first. */
  lemma {:induction false} RunIsLineAndRest(s: seq<byte>, from: nat, len: nat, row: nat, col: nat, max: nat, take: nat)
    requires from + len <= |s| && max >= 1 && take <= len && col + take <= max
    ensures RunCells(s, from, len, row, col, max)
         == Line(s, from, take, row, col) + RunCells(s, from + take, len - take, row, col + take, max)
    decreases take
  {
    if take > 0 {
      RunIsLineAndRest(s, from + 1, len - 1, row, col + 1, max, take - 1);
      assert Line(s, from, take, row, col) == [Cell(row, col, s[from])] + Line(s, from + 1, take - 1, row, col + 1);
    }
  }

  lemma {:induction false} TokensInText(s: seq<byte>, i: nat, n: nat)
    requires i <= n <= |s|
    ensures InText(Tokens(s, i, n), s)
    decreases n - i
  {
    var j := SkipSpaces(s, i, n);
    if j < n {
      TokensInText(s, if s[j] == NEWLINE then j + 1 else WordEnd(s, j, n), n);
    }
  }

  /** The cells of the text from index `p` on, with the pen at `st`. */
  function CellsFrom(s: seq<byte>, st: Pos, p: nat, max: nat): seq<Cell>
    requires max >= 1 && st.col <= max && p <= |s|
  {
    TokensInText(s, p, |s|);
    TextCells(s, st, Tokens(s, p, |s|), max)
  }

  lemma CellsFromHead(s: seq<byte>, st: Pos, p: nat, q: nat, t: Token, max: nat)
    requires max >= 1 && st.col <= max && p <= q <= |s| && Tokens(s, p, |s|) == [t] + Tokens(s, q, |s|)
    requires t.Word? ==> t.from + t.len <= |s|
    ensures CellsFrom(s, st, p, max) == TokenCells(s, st, t, max) + CellsFrom(s, DrawStep(st, t, max), q, max)
  {
    hide TokenCells, DrawStep, Tokens;
    TokensInText(s, p, |s|);
    TokensInText(s, q, |s|);
    assert Tokens(s, p, |s|)[1..] == Tokens(s, q, |s|);
  }

  lemma CellsFromRows(s: seq<byte>, st: Pos, p: nat, max: nat, maxRows: nat)
    requires max >= 1 && st.col <= max && p <= |s| && st.row >= maxRows
    ensures Cut(CellsFrom(s, st, p, max), maxRows) == []
  {
    TokensInText(s, p, |s|);
    TextRows(s, st, Tokens(s, p, |s|), max);
  }

  /** One stretch of a word, and the row break behind it if the word goes on. */
  lemma RunStretch(s: seq<byte>, from: nat, len: nat, row: nat, col: nat, max: nat, take: nat, maxRows: nat)
    requires from + len <= |s| && max >= 1 && take <= len && col + take <= max && row < maxRows
    requires take < len ==> col + take == max
    ensures Cut(RunCells(s, from, len, row, col, max), maxRows)
         == Line(s, from, take, row, col)
            + (if take < len then Cut(RunCells(s, from + take, len - take, row + 1, 0, max), maxRows) else [])
  {
    RunIsLineAndRest(s, from, len, row, col, max, take);
    CutKeeps(Line(s, from, take, row, col), RunCells(s, from + take, len - take, row, col + take, max), row, maxRows);
  }

  lemma RunBelow(s: seq<byte>, from: nat, len: nat, row: nat, col: nat, max: nat, maxRows: nat)
    requires from + len <= |s| && max >= 1 && col <= max && row >= maxRows
    ensures Cut(RunCells(s, from, len, row, col, max), maxRows) == []
  {
    RunRows(s, from, len, Pos(row, col, true), max, true);
  }

  /** The cells of one token, and what follows them, under the row limit. */
  lemma TokenThenRest(s: seq<byte>, st: Pos, t: Token, p: nat, q: nat, max: nat, maxRows: nat)
    requires max >= 1 && st.col <= max && p <= q <= |s| && Tokens(s, p, |s|) == [t] + Tokens(s, q, |s|)
    requires t.Word? ==> t.from + t.len <= |s|
    ensures Cut(CellsFrom(s, st, p, max), maxRows)
         == Cut(TokenCells(s, st, t, max), maxRows) + Cut(CellsFrom(s, DrawStep(st, t, max), q, max), maxRows)
  {
    hide TokenCells, DrawStep, Tokens, CellsFrom;
    var a, b, row := TokenCells(s, st, t, max), CellsFrom(s, DrawStep(st, t, max), q, max), DrawStep(st, t, max).row;
    CellsFromHead(s, st, p, q, t, max);
    TokenRows(s, st, t, max);
    if row < maxRows {
      CutKeeps(a, b, row, maxRows);
      CutKeeps(a, [], row, maxRows);
      assert a + [] == a;
    } else {
      CellsFromRows(s, DrawStep(st, t, max), q, max, maxRows);
      RowsOfRest(s, DrawStep(st, t, max), q, max);
      CutDrops(a, b, maxRows);
    }
  }

  lemma RowsOfRest(s: seq<byte>, st: Pos, p: nat, max: nat)
    requires max >= 1 && st.col <= max && p <= |s|
    ensures RowsFrom(CellsFrom(s, st, p, max), st.row)
  {
    TokensInText(s, p, |s|);
    TextRows(s, st, Tokens(s, p, |s|), max);
  }

  /** A word's cells under the row limit, when it starts in a visible row. */
  lemma WordPieces(s: seq<byte>, st: Pos, from: nat, len: nat, max: nat, maxRows: nat)
    requires max >= 1 && st.col <= max && from + len <= |s| && 0 < len && st.row < maxRows
    ensures var cells := Cut(TokenCells(s, st, Word(from, len), max), maxRows);
            var over := Overflows(st, len, max);
            var start := BeforeWord(st, st.row + 1, over);
            var run := Cut(RunCells(s, from, len, start.row, start.col, max), maxRows);
            && (over && st.row + 1 >= maxRows ==> cells == [])
            && (over || st.first ==> cells == run)
            && (!over && !st.first ==> cells == [Cell(st.row, st.col, SPACE)] + run)
  {
    if st.row + 1 >= maxRows {
      RunBelow(s, from, len, st.row + 1, 0, max, maxRows);
    }
  }

  lemma LineSnoc(s: seq<byte>, from: nat, len: nat, row: nat, col: nat)
    requires from + len < |s|
    ensures Line(s, from, len + 1, row, col) == Line(s, from, len, row, col) + [Cell(row, col + len, s[from + len])]
  {
  }

  // ------------------------------------------------------------------ on the grid, in order

  /** From the pen at (`row`, `col`) on, every row is filled column by column from its left edge, inside `max` columns. */
  predicate LaidFrom(cells: seq<Cell>, row: nat, col: nat, max: nat) {
    cells == [] ||
    (var c := cells[0];
     && ((c.row == row && c.col == col) || (c.row > row && c.col == 0)) && c.col < max
     && LaidFrom(cells[1..], c.row, c.col + 1, max))
  }

  lemma LaidFromEarlier(cells: seq<Cell>, row: nat, later: nat, col: nat, max: nat)
    requires row < later && LaidFrom(cells, later, 0, max)
    ensures LaidFrom(cells, row, col, max)
  {
  }

  lemma LaidCons(c: Cell, rest: seq<Cell>, max: nat)
    requires c.col < max && LaidFrom(rest, c.row, c.col + 1, max)
    ensures LaidFrom([c] + rest, c.row, c.col, max)
  {
    assert ([c] + rest)[1..] == rest;
  }

  lemma {:induction false} RunLaid(s: seq<byte>, from: nat, len: nat, st: Pos, rest: seq<Cell>, max: nat)
    requires from + len <= |s| && max >= 1 && st.col <= max
    requires var end := Chunk(st, len, max, true); LaidFrom(rest, end.row, end.col, max)
    ensures LaidFrom(RunCells(s, from, len, st.row, st.col, max) + rest, st.row, st.col, max)
    decreases len, st.col
  {
    hide LaidFrom;
    var cells := RunCells(s, from, len, st.row, st.col, max);
    if len == 0 {
      assert cells + rest == rest;
    } else if st.col == max {
      RunLaid(s, from, len, Pos(st.row + 1, 0, true), rest, max);
      LaidFromEarlier(cells + rest, st.row, st.row + 1, max, max);
    } else {
      var c := Cell(st.row, st.col, s[from]);
      ChunkOne(st, len, max, true);
      RunLaid(s, from + 1, len - 1, Pos(st.row, st.col + 1, st.first), rest, max);
      var tail := RunCells(s, from + 1, len - 1, st.row, st.col + 1, max);
      LaidCons(c, tail + rest, max);
      assert cells + rest == [c] + (tail + rest);
    }
  }

  lemma TokenLaid(s: seq<byte>, st: Pos, t: Token, rest: seq<Cell>, max: nat)
    requires max >= 1 && st.col <= max && (t.Word? ==> t.from + t.len <= |s|)
    requires var end := DrawStep(st, t, max); LaidFrom(rest, end.row, end.col, max)
    ensures LaidFrom(TokenCells(s, st, t, max) + rest, st.row, st.col, max)
  {
    hide LaidFrom, RunCells, Chunk;
    var cells := TokenCells(s, st, t, max);
    if t.Break? {
      LaidFromEarlier(rest, st.row, st.row + 1, st.col, max);
      assert cells + rest == rest;
    } else if t.len == 0 {
      assert cells + rest == rest;
    } else {
      var over := Overflows(st, t.len, max);
      var start := BeforeWord(st, st.row + 1, over);
      RunLaid(s, t.from, t.len, start, rest, max);
      if over {
        LaidFromEarlier(cells + rest, st.row, st.row + 1, st.col, max);
      } else if !st.first {
        var run := RunCells(s, t.from, t.len, start.row, start.col, max);
        LaidCons(Cell(st.row, st.col, SPACE), run + rest, max);
        assert cells + rest == [Cell(st.row, st.col, SPACE)] + (run + rest);
      }
    }
  }

  lemma {:induction false} TextLaid(s: seq<byte>, st: Pos, toks: seq<Token>, max: nat)
    requires max >= 1 && st.col <= max && InText(toks, s)
    ensures LaidFrom(TextCells(s, st, toks, max), st.row, st.col, max)
    decreases |toks|
  {
    hide TokenCells, DrawStep;
    if toks != [] {
      TextLaid(s, DrawStep(st, toks[0], max), toks[1..], max);
      TokenLaid(s, st, toks[0], TextCells(s, DrawStep(st, toks[0], max), toks[1..], max), max);
    }
  }

  lemma {:induction false} CutLaid(cells: seq<Cell>, row: nat, col: nat, max: nat, maxRows: nat)
    requires LaidFrom(cells, row, col, max)
    ensures LaidFrom(Cut(cells, maxRows), row, col, max) && Cut(cells, maxRows) <= cells
    ensures forall k :: 0 <= k < |Cut(cells, maxRows)| ==> Cut(cells, maxRows)[k].row < maxRows && Cut(cells, maxRows)[k].col < max
    decreases |cells|
  {
    if cells != [] && cells[0].row < maxRows {
      CutLaid(cells[1..], cells[0].row, cells[0].col + 1, max, maxRows);
      assert Cut(cells, maxRows)[1..] == Cut(cells[1..], maxRows);
    }
  }

  /**
   * Whatever the text, no glyph is placed outside `max` columns and `maxRows` rows, and the rows are
   * filled from the left without gaps or overlaps.
   */
  lemma GlyphsStayOnGrid(s: seq<byte>, max: nat, maxRows: nat)
    requires max >= 1
    ensures var cells := Cut(CellsFrom(s, TOP, 0, max), maxRows);
            && LaidFrom(cells, 0, 0, max)
            && forall k :: 0 <= k < |cells| ==> cells[k].row < maxRows && cells[k].col < max
  {
    TokensInText(s, 0, |s|);
    TextLaid(s, TOP, Tokens(s, 0, |s|), max);
    CutLaid(CellsFrom(s, TOP, 0, max), 0, 0, max, maxRows);
  }

  /** From eight pixels on every glyph ends within the width, and one more column would not. */
  lemma GlyphsWithinWidth(s: seq<byte>, maxPx: int, maxRows: nat)
    requires maxPx >= 8
    ensures var max := MaxChars(maxPx); 8 * max <= maxPx < 8 * (max + 1)
    ensures var cells := Cut(CellsFrom(s, TOP, 0, MaxChars(maxPx)), maxRows);
            forall k :: 0 <= k < |cells| ==> 8 * (cells[k].col + 1) <= maxPx && cells[k].row < maxRows
  {
    hide MaxChars, Cut, CellsFrom, LaidFrom;
    ColumnsFillWidth(maxPx);
    GlyphsStayOnGrid(s, MaxChars(maxPx), maxRows);
  }

  // -------------------------------------------------------------------- nothing lost

  /** The visible characters of a text. */
  function Ink(s: seq<byte>, i: nat, n: nat): seq<byte>
    requires i <= n <= |s|
    decreases n - i
  {
    if i == n then [] else if IsSeparator(s[i]) then Ink(s, i + 1, n) else [s[i]] + Ink(s, i + 1, n)
  }

  lemma {:induction false} InkSkipsSpaces(s: seq<byte>, i: nat, n: nat)
    requires i <= n <= |s|
    ensures Ink(s, i, n) == Ink(s, SkipSpaces(s, i, n), n)
    decreases n - i
  {
    if i < n && s[i] == SPACE {
      InkSkipsSpaces(s, i + 1, n);
    }
  }

  lemma {:induction false} InkOfWord(s: seq<byte>, i: nat, j: nat, n: nat)
    requires i <= j <= n <= |s| && Visible(s, i, j)
    ensures Ink(s, i, n) == s[i..j] + Ink(s, j, n)
    decreases j - i
  {
    if i < j {
      InkOfWord(s, i + 1, j, n);
      assert s[i..j] == [s[i]] + s[i + 1..j];
    }
  }

  /** The glyphs drawn, blanks left out. */
  function InkOf(cells: seq<Cell>): seq<byte> {
    if cells == [] then [] else (if cells[0].glyph == SPACE then [] else [cells[0].glyph]) + InkOf(cells[1..])
  }

  lemma {:induction false} InkConcat(a: seq<Cell>, b: seq<Cell>)
    ensures InkOf(a + b) == InkOf(a) + InkOf(b)
  {
    if a == [] {
      assert a + b == b;
    } else {
      assert (a + b)[1..] == a[1..] + b;
      InkConcat(a[1..], b);
    }
  }

  lemma {:induction false} RunInk(s: seq<byte>, from: nat, len: nat, row: nat, col: nat, max: nat)
    requires from + len <= |s| && max >= 1 && col <= max && Visible(s, from, from + len)
    ensures InkOf(RunCells(s, from, len, row, col, max)) == s[from..from + len]
    decreases len, col
  {
    if len > 0 {
      if col == max {
        RunInk(s, from, len, row + 1, 0, max);
      } else {
        RunInk(s, from + 1, len - 1, row, col + 1, max);
        var tail := RunCells(s, from + 1, len - 1, row, col + 1, max);
        assert ([Cell(row, col, s[from])] + tail)[1..] == tail;
        assert s[from..from + len] == [s[from]] + s[from + 1..from + len];
      }
    }
  }

  lemma WordInk(s: seq<byte>, st: Pos, from: nat, len: nat, max: nat)
    requires max >= 1 && st.col <= max && from + len <= |s| && Visible(s, from, from + len)
    ensures InkOf(TokenCells(s, st, Word(from, len), max)) == s[from..from + len]
  {
    if len > 0 {
      var start := BeforeWord(st, st.row + 1, Overflows(st, len, max));
      RunInk(s, from, len, start.row, start.col, max);
      var run := RunCells(s, from, len, start.row, start.col, max);
      assert ([Cell(st.row, st.col, SPACE)] + run)[1..] == run;
    }
  }

  lemma {:induction false} InkFrom(s: seq<byte>, st: Pos, i: nat, max: nat)
    requires max >= 1 && st.col <= max && i <= |s|
    ensures InkOf(CellsFrom(s, st, i, max)) == Ink(s, i, |s|)
    decreases |s| - i
  {
    hide TokenCells, CellsFrom, DrawStep, WordEnd, Ink, InkOf, SkipSpaces;
    var n := |s|;
    var j := SkipSpaces(s, i, n);
    InkSkipsSpaces(s, i, n);
    if j == n {
      NothingLeft(s, st, i, max);
    } else if s[j] == NEWLINE {
      InkFrom(s, DrawStep(st, Break, max), j + 1, max);
      InkOfBreak(s, st, i, j, max);
    } else {
      WordNotEmpty(s, j);
      var e := WordEnd(s, j, n);
      InkFrom(s, DrawStep(st, Word(j, e - j), max), e, max);
      InkOfToken(s, st, i, j, e, max);
    }
  }

  lemma InkOfBreak(s: seq<byte>, st: Pos, i: nat, j: nat, max: nat)
    requires max >= 1 && st.col <= max && i <= |s| && j == SkipSpaces(s, i, |s|) && j < |s| && s[j] == NEWLINE
    ensures InkOf(CellsFrom(s, st, i, max)) == InkOf(CellsFrom(s, DrawStep(st, Break, max), j + 1, max))
    ensures Ink(s, j, |s|) == Ink(s, j + 1, |s|)
  {
    hide TokenCells, CellsFrom, DrawStep;
    CellsFromHead(s, st, i, j + 1, Break, max);
    BreakInk(s, st, max);
    InkConcat([], CellsFrom(s, DrawStep(st, Break, max), j + 1, max));
  }

  lemma InkOfToken(s: seq<byte>, st: Pos, i: nat, j: nat, e: nat, max: nat)
    requires max >= 1 && st.col <= max && i <= |s| && j == SkipSpaces(s, i, |s|) && j < |s| && s[j] != NEWLINE
    requires e == WordEnd(s, j, |s|) && j < e
    ensures InkOf(CellsFrom(s, st, i, max)) == s[j..e] + InkOf(CellsFrom(s, DrawStep(st, Word(j, e - j), max), e, max))
    ensures Ink(s, j, |s|) == s[j..e] + Ink(s, e, |s|)
  {
    hide TokenCells, CellsFrom, DrawStep, WordEnd, Ink, InkOf;
    var w := Word(j, e - j);
    CellsFromHead(s, st, i, e, w, max);
    WordInk(s, st, j, e - j, max);
    InkConcat(TokenCells(s, st, w, max), CellsFrom(s, DrawStep(st, w, max), e, max));
    InkOfWord(s, j, e, |s|);
  }

  lemma WordNotEmpty(s: seq<byte>, j: nat)
    requires j < |s| && !IsSeparator(s[j])
    ensures WordEnd(s, j, |s|) > j
  {
  }

  lemma BreakInk(s: seq<byte>, st: Pos, max: nat)
    requires max >= 1 && st.col <= max
    ensures TokenCells(s, st, Break, max) == [] && InkOf([]) == []
  {
  }

  lemma NothingLeft(s: seq<byte>, st: Pos, i: nat, max: nat)
    requires max >= 1 && st.col <= max && i <= |s| && SkipSpaces(s, i, |s|) == |s|
    ensures CellsFrom(s, st, i, max) == [] && InkOf(CellsFrom(s, st, i, max)) == [] == Ink(s, |s|, |s|)
  {
  }

  /** The glyphs are the visible characters of the text, in order, none missing when the rows suffice. */
  lemma GlyphsAreTheText(s: seq<byte>, max: nat, maxRows: nat)
    requires max >= 1
    ensures var cells := CellsFrom(s, TOP, 0, max);
            && InkOf(cells) == Ink(s, 0, |s|) && InkOf(Cut(cells, maxRows)) <= Ink(s, 0, |s|)
            && (DrawnRows(s, |s|, max) <= maxRows ==> Cut(cells, maxRows) == cells)
  {
    hide TextCells;
    var cells := CellsFrom(s, TOP, 0, max);
    InkFrom(s, TOP, 0, max);
    TokensInText(s, 0, |s|);
    TextLaid(s, TOP, Tokens(s, 0, |s|), max);
    CutLaid(cells, 0, 0, max, maxRows);
    var shown := Cut(cells, maxRows);
    assert cells == shown + cells[|shown|..];
    InkConcat(shown, cells[|shown|..]);
    if DrawnRows(s, |s|, max) <= maxRows {
      TextRowsUpTo(s, TOP, Tokens(s, 0, |s|), max);
      CutKeeps(cells, [], DrawnRows(s, |s|, max) - 1, maxRows);
      assert cells + [] == cells;
    }
  }

  lemma {:induction false} TextRowsUpTo(s: seq<byte>, st: Pos, toks: seq<Token>, max: nat)
    requires max >= 1 && st.col <= max && InText(toks, s)
    ensures RowsUpTo(TextCells(s, st, toks, max), DrawAll(st, toks, max).row)
    decreases |toks|
  {
    hide TokenCells, DrawStep;
    if toks != [] {
      TokenRows(s, st, toks[0], max);
      TextRowsUpTo(s, DrawStep(st, toks[0], max), toks[1..], max);
    }
  }
  // ------------------------------------------------------------- between two words

  /** A word's last character is where the pen stands behind it. */
  lemma {:induction false} RunEnds(s: seq<byte>, from: nat, len: nat, st: Pos, max: nat)
    requires from + len <= |s| && max >= 1 && st.col <= max && len > 0
    ensures var cells, end := RunCells(s, from, len, st.row, st.col, max), Chunk(st, len, max, true);
            cells != [] && end.col > 0 && cells[|cells| - 1] == Cell(end.row, end.col - 1, s[from + len - 1])
    decreases len, st.col
  {
    if st.col == max {
      RunEnds(s, from, len, Pos(st.row + 1, 0, true), max);
    } else {
      ChunkOne(st, len, max, true);
      if len > 1 {
        RunEnds(s, from + 1, len - 1, Pos(st.row, st.col + 1, st.first), max);
      }
    }
  }

  /** A word spread over several rows leaves the drawing loop as if at the start of a row. */
  lemma WideWordRestarts(st: Pos, len: nat, max: nat)
    requires max >= 1 && st.col <= max && len > 0
    ensures DrawStep(st, Word(0, len), max).first <==> len > max
  {
    var over := Overflows(st, len, max);
    var start := BeforeWord(st, st.row + 1, over);
    if over && len > max {
      ChunkFirst(Pos(st.row + 2, 0, true), len - max, max);
    }
  }

  lemma {:induction false} ChunkFirst(st: Pos, len: nat, max: nat)
    requires max >= 1 && st.col <= max && st.first
    ensures Chunk(st, len, max, true).first
    decreases len, st.col
  {
    var take := if len > max - st.col then max - st.col else len;
    if len > 0 && take < len {
      ChunkFirst(Pos(st.row + 1, 0, true), len - take, max);
    }
  }

  /**
   * Two neighbouring words of which the second goes on in the row the first ends in: one blank stands between
   * them if and only if the first is no wider than a row; otherwise they touch.
   */
  lemma BlankBetweenIff(s: seq<byte>, st: Pos, a: Token, b: Token, max: nat)
    requires max >= 1 && st.col <= max && a.Word? && b.Word? && a.len > 0 && b.len > 0
    requires a.from + a.len <= |s| && b.from + b.len <= |s| && s[b.from] != SPACE
    requires !Overflows(DrawStep(st, a, max), b.len, max)
    ensures var front, mid := TokenCells(s, st, a, max), DrawStep(st, a, max);
            var back := TokenCells(s, mid, b, max);
            var gap := if a.len <= max then 1 else 0;
            && front != [] && mid.col > 0 && front[|front| - 1] == Cell(mid.row, mid.col - 1, s[a.from + a.len - 1])
            && |back| > gap && back[gap] == Cell(mid.row, mid.col + gap, s[b.from])
            && (back[0] == Cell(mid.row, mid.col, SPACE) <==> a.len <= max)
  {
    hide Chunk;
    var over := Overflows(st, a.len, max);
    var mid := DrawStep(st, a, max);
    var start := BeforeWord(st, st.row + 1, over);
    RunEnds(s, a.from, a.len, start, max);
    WideWordRestarts(st, a.len, max);
    assert DrawStep(st, Word(0, a.len), max) == mid;
    var run := RunCells(s, a.from, a.len, start.row, start.col, max);
    if !over && !st.first {
      assert TokenCells(s, st, a, max) == [Cell(st.row, st.col, SPACE)] + run;
    }
    var col := if mid.first then mid.col else mid.col + 1;
    assert RunCells(s, b.from, b.len, mid.row, col, max)[0] == Cell(mid.row, col, s[b.from]);
  }

  const WIDE_TEXT: seq<byte> := [97, 97, 97, 97, 32, 98]

  lemma WideTextTokens()
    ensures Tokens(WIDE_TEXT, 0, 6) == [Word(0, 4), Word(5, 1)]
  {
    var s := WIDE_TEXT;
    assert SkipSpaces(s, 0, 6) == 0 && SkipSpaces(s, 4, 6) == 5 && SkipSpaces(s, 6, 6) == 6;
    assert WordEnd(s, 4, 6) == 4 && WordEnd(s, 3, 6) == 4 && WordEnd(s, 2, 6) == 4 && WordEnd(s, 0, 6) == 4;
    assert WordEnd(s, 6, 6) == 6 && WordEnd(s, 5, 6) == 6;
    assert Tokens(s, 6, 6) == [] && Tokens(s, 4, 6) == [Word(5, 1)];
  }

  lemma WideTextCells()
    ensures TokenCells(WIDE_TEXT, TOP, Word(0, 4), 3) == [Cell(1, 0, 97), Cell(1, 1, 97), Cell(1, 2, 97), Cell(2, 0, 97)]
    ensures TokenCells(WIDE_TEXT, Pos(2, 1, true), Word(5, 1), 3) == [Cell(2, 1, 98)]
    ensures DrawStep(TOP, Word(0, 4), 3) == Pos(2, 1, true)
  {
    var s := WIDE_TEXT;
    assert RunCells(s, 3, 1, 1, 3, 3) == RunCells(s, 3, 1, 2, 0, 3) == [Cell(2, 0, 97)];
    RunIsLineAndRest(s, 0, 4, 1, 0, 3, 3);
  }

  /** At three columns "aaaa b" ends in a row that reads "ab". */
  lemma WideWordTouches()
    ensures CellsFrom(WIDE_TEXT, TOP, 0, 3)
         == [Cell(1, 0, 97), Cell(1, 1, 97), Cell(1, 2, 97), Cell(2, 0, 97), Cell(2, 1, 98)]
  {
    hide TokenCells, DrawStep, Tokens;
    var a, b := Word(0, 4), Word(5, 1);
    WideTextTokens();
    WideTextCells();
    TokensInText(WIDE_TEXT, 0, 6);
    assert [a, b][1..] == [b];
    assert [b][1..] == [];
    var mid := DrawStep(TOP, a, 3);
    assert TextCells(WIDE_TEXT, mid, [b], 3) == [Cell(2, 1, 98)] + TextCells(WIDE_TEXT, DrawStep(mid, b, 3), [], 3);
  }
}
