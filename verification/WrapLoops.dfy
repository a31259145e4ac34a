/** The two wrapping loops of the library, proved against the token-by-token forms. */
module WrapLoops {
  import opened Bytes
  import opened WrapCells
  import opened WrapText
  import opened Wrap

  /** The loop over the blanks before a word. */
  method SkipBlanks(s: CString, p: nat) returns (q: nat)
    requires p <= |s|
    ensures q == SkipSpaces(s, p, |s|)
  {
    q := p;
    while At(s, q) == SPACE
      invariant p <= q <= |s| && SkipSpaces(s, q, |s|) == SkipSpaces(s, p, |s|)
      decreases |s| - q
    {
      q := q + 1;
    }
  }

  method ScanWord(s: CString, p: nat) returns (wlen: nat, q: nat)
    requires p <= |s|
    ensures q == WordEnd(s, p, |s|) && wlen == q - p
  {
    q, wlen := p, 0;
    while At(s, q) != 0 && At(s, q) != SPACE && At(s, q) != NEWLINE
      invariant p <= q <= |s| && wlen == q - p && WordEnd(s, q, |s|) == WordEnd(s, p, |s|)
      decreases |s| - q
    {
      wlen := wlen + 1;
      q := q + 1;
    }
  }

  // ------------------------------------------------------------------ measuring

  lemma BreakHead(s: seq<byte>, p: nat)
    requires p < |s| && s[p] == NEWLINE
    ensures Tokens(s, p, |s|) == [Break] + Tokens(s, p + 1, |s|)
  {
  }

  lemma WordHead(s: seq<byte>, p: nat, q: nat)
    requires p < |s| && s[p] != SPACE && s[p] != NEWLINE && q == WordEnd(s, p, |s|)
    ensures p < q && Visible(s, p, q) && Tokens(s, p, |s|) == [Word(p, q - p)] + Tokens(s, q, |s|)
  {
  }

  lemma BlanksHead(s: seq<byte>, p: nat, q: nat)
    requires p <= |s| && q == SkipSpaces(s, p, |s|)
    ensures p <= q <= |s| && Tokens(s, p, |s|) == Tokens(s, q, |s|) && (q < |s| ==> s[q] != SPACE)
    ensures forall k :: p <= k < q ==> IsSeparator(s[k])
  {
  }

  lemma MeasureCons(st: Pos, t: Token, rest: seq<Token>, max: nat)
    requires max >= 1 && st.col <= max
    ensures MeasureAll(st, [t] + rest, max) == MeasureAll(MeasureStep(st, t, max), rest, max)
  {
    assert ([t] + rest)[1..] == rest;
  }

  lemma NoTokensLeft(s: seq<byte>, p: nat, st: Pos, max: nat)
    requires max >= 1 && p == |s| && st.col <= max
    ensures MeasureAll(st, Tokens(s, p, |s|), max) == st
    ensures DrawAll(st, Tokens(s, p, |s|), max) == st
  {
  }

  /** The measuring loop's treatment of one word, after the word has been measured out. */
  method MeasureWord(lines0: nat, col0: nat, first0: bool, wlen0: nat, maxChars: nat)
    returns (lines: nat, col: nat, first: bool)
    requires maxChars >= 1 && lines0 >= 1 && col0 <= maxChars && wlen0 > 0
    ensures lines >= 1
    ensures forall w :: Pos(lines - 1, col, first) == MeasureStep(Pos(lines0 - 1, col0, first0), Word(w, wlen0), maxChars)
  {
    lines, col, first := lines0, col0, first0;
    var wlen: nat := wlen0;
    var needed := (if first then 0 else 1) + wlen;
    if col + needed > maxChars {
      if wlen <= maxChars {
        lines := lines + 1;
      }
      col := 0;
      first := true;
    }
    if !first {
      col := col + 1;
    }
    first := false;
    ghost var fin := Chunk(Pos(lines - 1, col, false), wlen, maxChars, false);
    while wlen > 0
      invariant col <= maxChars && lines >= 1
      invariant Chunk(Pos(lines - 1, col, false), wlen, maxChars, false) == fin
      decreases wlen, col
    {
      var avail := maxChars - col;
      var take := wlen;
      if take > avail {
        take := avail;
      }
      col := col + take;
      wlen := wlen - take;
      if wlen > 0 {
        lines := lines + 1;
        col := 0;
      }
    }
  }

  /** ic_text_measure_wrap: rows needed at `maxPx` pixels; nothing is measured without any width. */
  method Measure(s: CString, maxPx: int) returns (lines: nat)
    ensures lines == if maxPx <= 0 then 0 else MeasuredRows(s, |s|, MaxChars(maxPx))
  {
    hide Tokens, MeasureAll, SkipSpaces, WordEnd, Chunk, MaxChars;
    if maxPx <= 0 {
      return 0;
    }
    var maxChars := MaxChars(maxPx);
    var p: nat := 0;
    lines := 1;
    var col: nat, first := 0, true;
    while At(s, p) != 0
      invariant p <= |s| && lines >= 1 && col <= maxChars
      invariant MeasureAll(Pos(lines - 1, col, first), Tokens(s, p, |s|), maxChars)
             == MeasureAll(TOP, Tokens(s, 0, |s|), maxChars)
      decreases |s| - p
    {
      ghost var st, p0 := Pos(lines - 1, col, first), p;
      p := SkipBlanks(s, p);
      BlanksHead(s, p0, p);
      if At(s, p) == NEWLINE {
        BreakHead(s, p);
        MeasureCons(st, Break, Tokens(s, p + 1, |s|), maxChars);
        col := 0;
        lines := lines + 1;
        first := true;
        p := p + 1;
        continue;
      }
      if At(s, p) == 0 {
        break;
      }
      var wlen, q := ScanWord(s, p);
      WordHead(s, p, q);
      MeasureCons(st, Word(p, wlen), Tokens(s, q, |s|), maxChars);
      lines, col, first := MeasureWord(lines, col, first, wlen, maxChars);
      p := q;
    }
    NoTokensLeft(s, p, Pos(lines - 1, col, first), maxChars);
  }

  // -------------------------------------------------------------------- drawing

  lemma DrawCons(st: Pos, t: Token, rest: seq<Token>, max: nat)
    requires max >= 1 && st.col <= max
    ensures DrawAll(st, [t] + rest, max) == DrawAll(DrawStep(st, t, max), rest, max)
  {
    assert ([t] + rest)[1..] == rest;
  }

  /** Puts down the `len` characters at `from`, one cell after the other. */
  method PlaceRun(s: CString, from: nat, len: nat, cells0: seq<Cell>, row: nat, col0: nat) returns (cells: seq<Cell>)
    requires from + len <= |s|
    ensures cells == cells0 + Line(s, from, len, row, col0)
  {
    hide Line;
    cells := cells0;
    LineEmpty(s, from, row, col0);
    for k := 0 to len
      invariant cells == cells0 + Line(s, from, k, row, col0)
    {
      LineSnoc(s, from, k, row, col0);
      cells := cells + [Cell(row, col0 + k, s[from + k])];
    }
  }

  lemma LineEmpty(s: seq<byte>, from: nat, row: nat, col: nat)
    requires from <= |s|
    ensures Line(s, from, 0, row, col) == []
  {
  }

  /** Draws one word from position `st0` on, over as many rows as it takes and are left. */
  method DrawWord(s: CString, wp: nat, wlen: nat, cells0: seq<Cell>, st0: Pos, maxChars: nat, maxRows: nat)
    returns (cells: seq<Cell>, st: Pos)
    requires maxChars >= 1 && wp + wlen <= |s| && st0.col <= maxChars && st0.row < maxRows
    ensures st.row <= maxRows && st.col <= maxChars && st.row <= Chunk(st0, wlen, maxChars, true).row
    ensures st.row < maxRows ==> st == Chunk(st0, wlen, maxChars, true)
    ensures cells == cells0 + Cut(RunCells(s, wp, wlen, st0.row, st0.col, maxChars), maxRows)
  {
    hide RunCells, Cut, Line;
    cells := cells0;
    var row: nat, col: nat, first := st0.row, st0.col, st0.first;
    ghost var all := cells0 + Cut(RunCells(s, wp, wlen, st0.row, st0.col, maxChars), maxRows);
    ghost var fin := Chunk(st0, wlen, maxChars, true);
    var j: nat := 0;
    while j < wlen && row < maxRows
      invariant j <= wlen && col <= maxChars && row <= maxRows
      invariant Chunk(Pos(row, col, first), wlen - j, maxChars, true) == fin
      invariant cells + Cut(RunCells(s, wp + j, wlen - j, row, col, maxChars), maxRows) == all
      decreases wlen - j, col
    {
      var avail := maxChars - col;
      var drawLen := wlen - j;
      if drawLen > avail {
        drawLen := avail;
      }
      if drawLen < 1 {
        drawLen := 0;
      }
      RunStretch(s, wp + j, wlen - j, row, col, maxChars, drawLen, maxRows);
      cells := PlaceRun(s, wp + j, drawLen, cells, row, col);
      col := col + drawLen;
      j := j + drawLen;
      if j < wlen {
        row := row + 1;
        col := 0;
        first := true;
      } else {
        RunDone(s, wp + j, 0, row, col, maxChars, maxRows);
      }
    }
    st := Pos(row, col, first);
    RunDone(s, wp + j, wlen - j, row, col, maxChars, maxRows);
  }

  lemma RunDone(s: seq<byte>, from: nat, len: nat, row: nat, col: nat, max: nat, maxRows: nat)
    requires from + len <= |s| && max >= 1 && col <= max && (len == 0 || row >= maxRows)
    ensures Cut(RunCells(s, from, len, row, col, max), maxRows) == []
  {
    if len > 0 {
      RunBelow(s, from, len, row, col, max, maxRows);
    }
  }

  /**
   * What the drawing loop has done at index `p`, with the pen at `st`: the cells so far, followed by
   * the visible ones of the rest of the text, are the visible ones of the whole text; and while rows
   * are left, the rows still to come are those of the tokens from `p` on.
   */
  ghost predicate Drawing(s: seq<byte>, cells: seq<Cell>, st: Pos, p: nat, max: nat, maxRows: nat)
    requires max >= 1 && p <= |s| && st.col <= max
  {
    && cells + Cut(CellsFrom(s, st, p, max), maxRows) == Cut(CellsFrom(s, TOP, 0, max), maxRows)
    && st.row <= maxRows && st.row <= DrawAll(TOP, Tokens(s, 0, |s|), max).row
    && (st.row < maxRows ==> DrawAll(st, Tokens(s, p, |s|), max) == DrawAll(TOP, Tokens(s, 0, |s|), max))
  }

  lemma BlanksDraw(s: CString, cells: seq<Cell>, st: Pos, p: nat, q: nat, max: nat, maxRows: nat)
    requires max >= 1 && p <= |s| && st.col <= max && q == SkipSpaces(s, p, |s|)
    requires Drawing(s, cells, st, p, max, maxRows)
    ensures Drawing(s, cells, st, q, max, maxRows)
  {
    BlanksHead(s, p, q);
  }

  lemma BreakDraws(s: CString, cells: seq<Cell>, st: Pos, p: nat, max: nat, maxRows: nat)
    requires max >= 1 && p < |s| && st.col <= max && s[p] == NEWLINE && st.row < maxRows
    requires Drawing(s, cells, st, p, max, maxRows)
    ensures Drawing(s, cells, Pos(st.row + 1, 0, true), p + 1, max, maxRows)
  {
    hide DrawAll, CellsFrom, Chunk, Tokens;
    BreakHead(s, p);
    DrawCons(st, Break, Tokens(s, p + 1, |s|), max);
    TokenThenRest(s, st, Break, p, p + 1, max, maxRows);
  }

  /** The position `st2` and the cells reached by drawing the word at `p` keep the loop's promise. */
  lemma WordDraws(s: CString, cells: seq<Cell>, st: Pos, p: nat, q: nat, cells2: seq<Cell>, st2: Pos, max: nat, maxRows: nat)
    requires max >= 1 && p < q <= |s| && st.col <= max && st2.col <= max && st.row < maxRows
    requires s[p] != SPACE && s[p] != NEWLINE && q == WordEnd(s, p, |s|)
    requires Drawing(s, cells, st, p, max, maxRows)
    requires cells2 == cells + Cut(TokenCells(s, st, Word(p, q - p), max), maxRows)
    requires st2.row <= maxRows && st2.row <= DrawStep(st, Word(p, q - p), max).row
    requires st2.row < maxRows ==> st2 == DrawStep(st, Word(p, q - p), max)
    ensures Drawing(s, cells2, st2, q, max, maxRows)
  {
    hide DrawStep, Tokens, DrawAll, WordEnd, Cut, CellsFrom, TokenCells;
    var w := Word(p, q - p);
    DrawCons(st, w, Tokens(s, q, |s|), max);
    WordHead(s, p, q);
    TokenThenRest(s, st, w, p, q, max, maxRows);
    if st2.row >= maxRows {
      CellsFromRows(s, st2, q, max, maxRows);
      CellsFromRows(s, DrawStep(st, w, max), q, max, maxRows);
    }
    assert cells + (Cut(TokenCells(s, st, w, max), maxRows) + Cut(CellsFrom(s, DrawStep(st, w, max), q, max), maxRows))
        == cells2 + Cut(CellsFrom(s, DrawStep(st, w, max), q, max), maxRows);
  }

  /** The drawing loop's treatment of one word: wrap, separating blank, glyphs. */
  method DrawToken(s: CString, p: nat, wlen: nat, cells0: seq<Cell>, st0: Pos, maxChars: nat, maxRows: nat)
    returns (cells: seq<Cell>, st: Pos)
    requires maxChars >= 1 && p < |s| && st0.col <= maxChars && st0.row < maxRows
    requires s[p] != SPACE && s[p] != NEWLINE && p + wlen == WordEnd(s, p, |s|)
    requires Drawing(s, cells0, st0, p, maxChars, maxRows)
    ensures st.col <= maxChars && Drawing(s, cells, st, p + wlen, maxChars, maxRows)
  {
    hide Drawing, Chunk, RunCells, Cut, TokenCells, WordEnd;
    cells := cells0;
    var row: nat, col: nat, first := st0.row, st0.col, st0.first;
    WordHead(s, p, p + wlen);
    WordPieces(s, st0, p, wlen, maxChars, maxRows);
    var needed := (if first then 0 else 1) + wlen;
    if col + needed > maxChars {
      row := row + 1;
      col := 0;
      first := true;
      if row >= maxRows {
        st := Pos(row, col, first);
        WordDraws(s, cells0, st0, p, p + wlen, cells, st, maxChars, maxRows);
        return;
      }
    }
    if !first {
      cells := cells + [Cell(row, col, SPACE)];
      col := col + 1;
    }
    first := false;
    assert Pos(row, col, first) == BeforeWord(st0, st0.row + 1, Overflows(st0, wlen, maxChars));
    cells, st := DrawWord(s, p, wlen, cells, Pos(row, col, first), maxChars, maxRows);
    WordDraws(s, cells0, st0, p, p + wlen, cells, st, maxChars, maxRows);
  }

  /**
   * ic_text_draw_wrap: the cells drawn are exactly those of the layout's first `maxRows` rows, and while
   * a row is left over the row it ends in is the layout's last. From eight pixels on they end within the width.
   */
  method Draw(s: CString, maxPx: int, maxRows: int) returns (cells: seq<Cell>, row: nat)
    ensures maxPx <= 0 || maxRows <= 0 ==> cells == []
    ensures maxPx > 0 && maxRows > 0 ==>
              && cells == Cut(CellsFrom(s, TOP, 0, MaxChars(maxPx)), maxRows)
              && (row < maxRows <==> DrawnRows(s, |s|, MaxChars(maxPx)) <= maxRows)
              && (row < maxRows ==> row + 1 == DrawnRows(s, |s|, MaxChars(maxPx)))
    ensures maxPx >= 8 ==> forall k :: 0 <= k < |cells| ==> 8 * (cells[k].col + 1) <= maxPx && cells[k].row < maxRows
  {
    hide Tokens, DrawAll, SkipSpaces, WordEnd, Chunk, MaxChars, DrawStep, Cut, CellsFrom;
    cells, row := [], 0;
    if maxPx <= 0 || maxRows <= 0 {
      return;
    }
    var maxChars := MaxChars(maxPx);
    var p: nat := 0;
    var col: nat, first := 0, true;
    assert [] + Cut(CellsFrom(s, TOP, 0, maxChars), maxRows) == Cut(CellsFrom(s, TOP, 0, maxChars), maxRows);
    while At(s, p) != 0 && row < maxRows
      invariant p <= |s| && col <= maxChars
      invariant Drawing(s, cells, Pos(row, col, first), p, maxChars, maxRows)
      decreases |s| - p
    {
      var q := SkipBlanks(s, p);
      BlanksHead(s, p, q);
      BlanksDraw(s, cells, Pos(row, col, first), p, q, maxChars, maxRows);
      p := q;
      if At(s, p) == NEWLINE {
        BreakDraws(s, cells, Pos(row, col, first), p, maxChars, maxRows);
        col := 0;
        row := row + 1;
        first := true;
        p := p + 1;
        continue;
      }
      if At(s, p) == 0 {
        break;
      }
      var wlen, e := ScanWord(s, p);
      WordHead(s, p, e);
      var st;
      cells, st := DrawToken(s, p, wlen, cells, Pos(row, col, first), maxChars, maxRows);
      p := e;
      row, col, first := st.row, st.col, st.first;
    }
    if row < maxRows {
      NoTokensLeft(s, p, Pos(row, col, first), maxChars);
      NoCellsLeft(s, Pos(row, col, first), maxChars, maxRows);
    } else {
      CellsFromRows(s, Pos(row, col, first), p, maxChars, maxRows);
    }
    if maxPx >= 8 {
      GlyphsWithinWidth(s, maxPx, maxRows);
    }
  }

  lemma NoCellsLeft(s: seq<byte>, st: Pos, max: nat, maxRows: nat)
    requires max >= 1 && st.col <= max
    ensures Cut(CellsFrom(s, st, |s|, max), maxRows) == []
  {
  }
}
