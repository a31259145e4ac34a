/** Word wrapping for the 8-pixel monospace font: the measuring form and the drawing form. */
module Wrap {
  import opened Bytes
  import opened WrapText

  const CELL_WIDTH: int := 8

  /** Where the next character goes, and whether the row holds no word yet. */
  datatype Pos = Pos(row: nat, col: nat, first: bool)

  function MaxChars(maxPx: int): (n: nat)
    requires maxPx > 0
    ensures n >= 1
  {
    if maxPx / CELL_WIDTH < 1 then 1 else maxPx / CELL_WIDTH
  }

  /** As many columns of eight pixels as the width has room for, and one below eight pixels. */
  lemma ColumnsFillWidth(maxPx: int)
    requires maxPx > 0
    ensures var n := MaxChars(maxPx); if maxPx < 8 then n == 1 else 8 * n <= maxPx < 8 * (n + 1)
  {
  }

  /** Places `len` characters from `st` on, going on in the next row whenever the row is full. */
  function Chunk(st: Pos, len: nat, max: nat, restart: bool): (r: Pos)
    requires max >= 1 && st.col <= max
    ensures r.col <= max && r.row >= st.row
    decreases len, st.col
  {
    var take := if len > max - st.col then max - st.col else len;
    if len == 0 then st
    else if take < len then Chunk(Pos(st.row + 1, 0, st.first || restart), len - take, max, restart)
    else Pos(st.row, st.col + take, st.first)
  }

  predicate Overflows(st: Pos, len: nat, max: nat) {
    st.col + (if st.first then 0 else 1) + len > max
  }

  /** The position just before the word itself, once it is known in which row it starts. */
  function BeforeWord(st: Pos, row: nat, overflows: bool): Pos {
    if overflows then Pos(row, 0, false)
    else if st.first then Pos(st.row, st.col, false)
    else Pos(st.row, st.col + 1, false)
  }

  /** ic_text_measure_wrap on one token: a word wider than the row does not start a new row. */
  function MeasureStep(st: Pos, t: Token, max: nat): (r: Pos)
    requires max >= 1 && st.col <= max
    ensures r.col <= max && r.row >= st.row
  {
    if t.Break? then Pos(st.row + 1, 0, true)
    else if t.len == 0 then st
    else Chunk(BeforeWord(st, if t.len <= max then st.row + 1 else st.row, Overflows(st, t.len, max)), t.len, max, false)
  }

  /** ic_text_draw_wrap on one token: every word that does not fit starts a new row. */
  function DrawStep(st: Pos, t: Token, max: nat): (r: Pos)
    requires max >= 1 && st.col <= max
    ensures r.col <= max && r.row >= st.row
  {
    if t.Break? then Pos(st.row + 1, 0, true)
    else if t.len == 0 then st
    else Chunk(BeforeWord(st, st.row + 1, Overflows(st, t.len, max)), t.len, max, true)
  }

  function MeasureAll(st: Pos, toks: seq<Token>, max: nat): (r: Pos)
    requires max >= 1 && st.col <= max
    ensures r.col <= max && r.row >= st.row
    decreases |toks|
  {
    if toks == [] then st else MeasureAll(MeasureStep(st, toks[0], max), toks[1..], max)
  }

  function DrawAll(st: Pos, toks: seq<Token>, max: nat): (r: Pos)
    requires max >= 1 && st.col <= max
    ensures r.col <= max && r.row >= st.row
    decreases |toks|
  {
    if toks == [] then st else DrawAll(DrawStep(st, toks[0], max), toks[1..], max)
  }

  const TOP: Pos := Pos(0, 0, true)

  /** Rows the measuring form counts for the first `n` characters of `s`. */
  function MeasuredRows(s: seq<byte>, n: nat, max: nat): nat
    requires n <= |s| && max >= 1
  {
    MeasureAll(TOP, Tokens(s, 0, n), max).row + 1
  }

  /** Rows the drawing form uses for the first `n` characters of `s` when rows are unlimited. */
  function DrawnRows(s: seq<byte>, n: nat, max: nat): nat
    requires n <= |s| && max >= 1
  {
    DrawAll(TOP, Tokens(s, 0, n), max).row + 1
  }

  // --------------------------------------------------- the two forms, compared

  lemma NarrowStepsAgree(st: Pos, t: Token, max: nat)
    requires max >= 1 && st.col <= max && (t.Word? ==> t.len <= max)
    ensures MeasureStep(st, t, max) == DrawStep(st, t, max)
  {
  }

  lemma {:induction false} NarrowTextsAgree(st: Pos, toks: seq<Token>, max: nat)
    requires max >= 1 && st.col <= max && Narrow(toks, max)
    ensures MeasureAll(st, toks, max) == DrawAll(st, toks, max)
    decreases |toks|
  {
    if toks != [] {
      NarrowStepsAgree(st, toks[0], max);
      NarrowTextsAgree(DrawStep(st, toks[0], max), toks[1..], max);
    }
  }

  lemma {:induction false} ChunkShifted(r: nat, col: nat, f: bool, g: bool, len: nat, max: nat)
    requires max >= 1 && col <= max
    ensures Chunk(Pos(r + 1, col, f), len, max, true).row == Chunk(Pos(r, col, g), len, max, false).row + 1
    decreases len, col
  {
    var take := if len > max - col then max - col else len;
    if take < len {
      ChunkShifted(r + 1, 0, true, g, len - take, max);
    }
  }

  /** From equal positions, drawing a word wider than the row uses one row more than measuring it. */
  lemma WideStepsDiffer(st: Pos, t: Token, max: nat)
    requires max >= 1 && st.col <= max && t.Word? && t.len > max
    ensures DrawStep(st, t, max).row == MeasureStep(st, t, max).row + 1
  {
    ChunkShifted(st.row, 0, false, false, t.len, max);
  }

  /** Where the first over-wide word ends, the two forms have parted. */
  lemma {:induction false} WideTextsPart(st: Pos, toks: seq<Token>, max: nat) returns (k: nat)
    requires max >= 1 && st.col <= max && !Narrow(toks, max)
    ensures k <= |toks| && DrawAll(st, toks[..k], max).row == MeasureAll(st, toks[..k], max).row + 1
    decreases |toks|
  {
    if toks[0].Word? && toks[0].len > max {
      k := 1;
      WideStepsDiffer(st, toks[0], max);
      assert toks[..1] == [toks[0]];
    } else {
      NarrowStepsAgree(st, toks[0], max);
      var k' := WideTextsPart(DrawStep(st, toks[0], max), toks[1..], max);
      k := k' + 1;
      assert toks[..k][1..] == toks[1..][..k'];
    }
  }

  lemma WideInPrefix(s: seq<byte>, n: nat, max: nat)
    requires n <= |s|
    ensures HasWideWord(s, 0, n, max) ==> HasWideWord(s, 0, |s|, max)
  {
    if HasWideWord(s, 0, n, max) {
      var a :| WideAt(s, 0, n, a, max);
      assert WideAt(s, 0, |s|, a, max);
    }
  }

  /** Measuring and drawing agree on every prefix of a text exactly when no word is wider than the row. */
  lemma RowsAgreeIffNoWideWord(s: seq<byte>, max: nat)
    requires max >= 1
    ensures (forall n :: 0 <= n <= |s| ==> DrawnRows(s, n, max) == MeasuredRows(s, n, max))
       <==> !HasWideWord(s, 0, |s|, max)
  {
    NarrowIffNoWideWord(s, 0, |s|, max);
    if HasWideWord(s, 0, |s|, max) {
      var k := WideTextsPart(TOP, Tokens(s, 0, |s|), max);
      var n := TokenPrefix(s, 0, |s|, k);
      assert DrawnRows(s, n, max) != MeasuredRows(s, n, max);
    } else {
      forall n | 0 <= n <= |s| ensures DrawnRows(s, n, max) == MeasuredRows(s, n, max) {
        WideInPrefix(s, n, max);
        NarrowIffNoWideWord(s, 0, n, max);
        NarrowTextsAgree(TOP, Tokens(s, 0, n), max);
      }
    }
  }

  // ---------------------------------------------------- greedy wrapping is optimal

  /** The word lengths of each newline-separated paragraph. */
  function Paragraphs(toks: seq<Token>): (ps: seq<seq<nat>>)
    ensures ps != []
  {
    if toks == [] then [[]]
    else
      var ps := Paragraphs(toks[1..]);
      if toks[0].Break? then [[]] + ps else [[toks[0].len] + ps[0]] + ps[1..]
  }

  function Sum(ws: seq<nat>): nat {
    if ws == [] then 0 else ws[0] + Sum(ws[1..])
  }

  /** The width of words set in one row, one blank between neighbours. */
  function Width(ws: seq<nat>): nat {
    if ws == [] then 0 else Sum(ws) + |ws| - 1
  }

  function Flatten(rows: seq<seq<nat>>): seq<nat> {
    if rows == [] then [] else rows[0] + Flatten(rows[1..])
  }

  /** A way of breaking one paragraph at spaces into rows that all fit. */
  ghost predicate IsLayout(rows: seq<seq<nat>>, ws: seq<nat>, max: nat) {
    rows != [] && Flatten(rows) == ws && forall k :: 0 <= k < |rows| ==> Width(rows[k]) <= max
  }

  ghost predicate IsTextLayout(lays: seq<seq<seq<nat>>>, ps: seq<seq<nat>>, max: nat) {
    |lays| == |ps| && forall k :: 0 <= k < |ps| ==> IsLayout(lays[k], ps[k], max)
  }

  function RowsOf(lays: seq<seq<seq<nat>>>): nat {
    if lays == [] then 0 else |lays[0]| + RowsOf(lays[1..])
  }

  /** How often greedy wrapping breaks the words `ws` when the next word would start at column `at`. */
  function Breaks(at: nat, ws: seq<nat>, max: nat): nat
    decreases |ws|
  {
    if ws == [] then 0
    else if at + ws[0] > max then 1 + Breaks(ws[0] + 1, ws[1..], max)
    else Breaks(at + ws[0] + 1, ws[1..], max)
  }

  ghost predicate Fit(ws: seq<nat>, max: nat) {
    forall k :: 0 <= k < |ws| ==> 0 < ws[k] <= max
  }

  /** Starting further left never costs a row, and starting further right costs at most one. */
  lemma {:induction false} FurtherLeftIsBetter(p: nat, q: nat, ws: seq<nat>, max: nat)
    requires p <= q
    ensures Breaks(p, ws, max) <= Breaks(q, ws, max) <= Breaks(p, ws, max) + 1
    decreases |ws|
  {
    if ws != [] {
      if q + ws[0] <= max {
        FurtherLeftIsBetter(p + ws[0] + 1, q + ws[0] + 1, ws[1..], max);
      } else if p + ws[0] <= max {
        FurtherLeftIsBetter(ws[0] + 1, p + ws[0] + 1, ws[1..], max);
      }
    }
  }

  /** Words that fit behind column `at` are set without a break. */
  lemma {:induction false} RowWithoutBreak(at: nat, row: seq<nat>, ws: seq<nat>, max: nat)
    requires row != [] && at + Width(row) <= max
    ensures Breaks(at, row + ws, max) == Breaks(at + Width(row) + 1, ws, max)
    decreases |row|
  {
    assert (row + ws)[1..] == row[1..] + ws;
    if |row| > 1 {
      assert Width(row) == row[0] + 1 + Width(row[1..]);
      RowWithoutBreak(at + row[0] + 1, row[1..], ws, max);
    } else {
      assert row[1..] + ws == ws && Sum(row) == row[0];
    }
  }

  /** No layout of the paragraph has fewer rows than the greedy one. */
  lemma {:induction false} GreedyIsMinimal(rows: seq<seq<nat>>, ws: seq<nat>, max: nat)
    requires IsLayout(rows, ws, max)
    ensures Breaks(0, ws, max) + 1 <= |rows|
  {
    var rest := Flatten(rows[1..]);
    if rows[0] != [] {
      RowWithoutBreak(0, rows[0], rest, max);
      FurtherLeftIsBetter(0, Width(rows[0]) + 1, rest, max);
    } else {
      assert ws == rest;
    }
    if |rows| > 1 {
      GreedyIsMinimal(rows[1..], rest, max);
    }
  }

  /** The greedy rows, when the first one already is `at - 1` wide (`at` is 0 for an empty one). */
  lemma {:induction false} GreedyLayout(row: seq<nat>, ws: seq<nat>, max: nat) returns (rows: seq<seq<nat>>)
    requires Fit(ws, max) && Width(row) <= max
    ensures IsLayout(rows, row + ws, max)
    ensures |rows| == Breaks(if row == [] then 0 else Width(row) + 1, ws, max) + 1
    decreases |ws|
  {
    if ws == [] {
      rows := [row];
      assert Flatten(rows) == row + [] == row + ws;
    } else {
      var longer := row + [ws[0]];
      WidthAppend(row, ws[0]);
      WidthAppend([], ws[0]);
      assert [] + [ws[0]] == [ws[0]];
      if Width(longer) <= max {
        rows := GreedyLayout(longer, ws[1..], max);
        assert longer + ws[1..] == row + ws;
      } else {
        var more := GreedyLayout([ws[0]], ws[1..], max);
        rows := [row] + more;
        assert [ws[0]] + ws[1..] == ws;
        assert rows[1..] == more;
      }
    }
  }

  lemma {:induction false} SumAppend(ws: seq<nat>, w: nat)
    ensures Sum(ws + [w]) == Sum(ws) + w
  {
    if ws != [] {
      assert (ws + [w])[1..] == ws[1..] + [w];
      SumAppend(ws[1..], w);
    }
  }

  lemma WidthAppend(row: seq<nat>, w: nat)
    ensures Width(row + [w]) == if row == [] then w else Width(row) + 1 + w
  {
    SumAppend(row, w);
  }

  /** Rows greedy wrapping needs for paragraphs, the first of them continued at column `at`. */
  function GreedyRows(at: nat, ps: seq<seq<nat>>, max: nat): nat
    requires ps != []
  {
    Breaks(at, ps[0], max) + (if |ps| == 1 then 0 else 1 + GreedyRows(0, ps[1..], max))
  }

  function NextStart(st: Pos): nat {
    if st.first then st.col else st.col + 1
  }

  lemma ChunkFits(st: Pos, len: nat, max: nat, restart: bool)
    requires max >= 1 && st.col + len <= max
    ensures Chunk(st, len, max, restart) == Pos(st.row, st.col + len, st.first)
  {
  }

  ghost predicate RealWords(toks: seq<Token>) {
    forall k :: 0 <= k < |toks| && toks[k].Word? ==> toks[k].len > 0
  }

  /** Measuring a text without over-wide words counts the rows of greedy wrapping. */
  lemma {:induction false} MeasureIsGreedy(st: Pos, toks: seq<Token>, max: nat)
    requires max >= 1 && st.col <= max && Narrow(toks, max) && RealWords(toks)
    ensures MeasureAll(st, toks, max).row == st.row + GreedyRows(NextStart(st), Paragraphs(toks), max)
    decreases |toks|
  {
    if toks != [] {
      var t, rest := toks[0], toks[1..];
      var next := MeasureStep(st, t, max);
      MeasureIsGreedy(next, rest, max);
      var ps := Paragraphs(rest);
      if t.Break? {
        assert Paragraphs(toks)[1..] == ps;
      } else {
        ChunkFits(BeforeWord(st, st.row + 1, Overflows(st, t.len, max)), t.len, max, false);
        GreedyWord(NextStart(st), t.len, ps, max);
      }
    }
  }

  lemma GreedyWord(at: nat, w: nat, ps: seq<seq<nat>>, max: nat)
    requires ps != [] && w <= max
    ensures GreedyRows(at, [[w] + ps[0]] + ps[1..], max)
         == if at + w > max then 1 + GreedyRows(w + 1, ps, max) else GreedyRows(at + w + 1, ps, max)
  {
    var qs := [[w] + ps[0]] + ps[1..];
    assert qs[1..] == ps[1..];
    assert qs[0][1..] == ps[0];
  }

  ghost predicate AllFit(ps: seq<seq<nat>>, max: nat) {
    forall k :: 0 <= k < |ps| ==> Fit(ps[k], max)
  }

  lemma {:induction false} ParagraphsFit(toks: seq<Token>, max: nat)
    requires Narrow(toks, max) && RealWords(toks)
    ensures AllFit(Paragraphs(toks), max)
  {
    if toks != [] {
      ParagraphsFit(toks[1..], max);
    }
  }

  lemma {:induction false} NoFewerRows(lays: seq<seq<seq<nat>>>, ps: seq<seq<nat>>, max: nat)
    requires ps != [] && IsTextLayout(lays, ps, max)
    ensures GreedyRows(0, ps, max) + 1 <= RowsOf(lays)
    decreases |ps|
  {
    assert IsLayout(lays[0], ps[0], max);
    GreedyIsMinimal(lays[0], ps[0], max);
    if |ps| > 1 {
      assert forall k :: 0 <= k < |ps[1..]| ==> lays[1..][k] == lays[k + 1] && ps[1..][k] == ps[k + 1];
      NoFewerRows(lays[1..], ps[1..], max);
    }
  }

  lemma {:induction false} GreedyTextLayout(ps: seq<seq<nat>>, max: nat) returns (lays: seq<seq<seq<nat>>>)
    requires ps != [] && AllFit(ps, max)
    ensures IsTextLayout(lays, ps, max) && RowsOf(lays) == GreedyRows(0, ps, max) + 1
    decreases |ps|
  {
    var rows := GreedyLayout([], ps[0], max);
    assert [] + ps[0] == ps[0];
    if |ps| == 1 {
      lays := [rows];
    } else {
      assert forall k :: 0 <= k < |ps[1..]| ==> ps[1..][k] == ps[k + 1];
      var more := GreedyTextLayout(ps[1..], max);
      lays := [rows] + more;
      assert lays[1..] == more;
      forall k | 0 <= k < |ps| ensures IsLayout(lays[k], ps[k], max) {
        if k > 0 {
          assert IsLayout(more[k - 1], ps[1..][k - 1], max);
        }
      }
    }
  }

  /** Without over-wide words, the measured count is the least number of rows of any layout of the text. */
  lemma MeasureIsOptimal(s: seq<byte>, max: nat)
    requires max >= 1 && !HasWideWord(s, 0, |s|, max)
    ensures var ps := Paragraphs(Tokens(s, 0, |s|));
            && (exists lays :: IsTextLayout(lays, ps, max) && RowsOf(lays) == MeasuredRows(s, |s|, max))
            && (forall lays :: IsTextLayout(lays, ps, max) ==> MeasuredRows(s, |s|, max) <= RowsOf(lays))
  {
    var toks := Tokens(s, 0, |s|);
    var ps := Paragraphs(toks);
    NarrowIffNoWideWord(s, 0, |s|, max);
    TokensAreReal(s, 0, |s|);
    MeasureIsGreedy(TOP, toks, max);
    ParagraphsFit(toks, max);
    var lays := GreedyTextLayout(ps, max);
    forall lays | IsTextLayout(lays, ps, max) ensures MeasuredRows(s, |s|, max) <= RowsOf(lays) {
      NoFewerRows(lays, ps, max);
    }
  }

  lemma {:induction false} TokensAreReal(s: seq<byte>, i: nat, n: nat)
    requires i <= n <= |s|
    ensures RealWords(Tokens(s, i, n))
    decreases n - i
  {
    if Tokens(s, i, n) != [] {
      var head, e := FirstCut(s, i, n);
      TokensAreReal(s, e, n);
      assert Tokens(s, i, n) == [head] + Tokens(s, e, n);
    }
  }
}
