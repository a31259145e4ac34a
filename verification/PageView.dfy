/** Drawing a page and hitting its links: two separate computations over the same text and link table. */
module PageView {
  import opened Bytes
  import opened PageBuilder
  import HtmlScan
  import RenderedText

  const NEWLINE: byte := RenderedText.NEWLINE
  const CONTENT_Y: int := 64
  const PAD: int := 6
  const LINE_H: int := 18
  const LINE_CAP: int := 512

  /** Characters put on the screen: plain text, or the part of link `link` on one line. */
  datatype Run = Run(x: int, y: int, chars: seq<byte>, link: Option<nat>)

  /** How many characters of a string the text routine draws: those before the first NUL. */
  function Drawn(chars: seq<byte>): (n: nat)
    ensures n <= |chars| && (n < |chars| ==> chars[n] == 0) && forall k :: 0 <= k < n ==> chars[k] != 0
  {
    if chars == [] || chars[0] == 0 then 0 else 1 + Drawn(chars[1..])
  }

  /** The pixel lies in the 8 by 16 cell of a character drawn, or on the line under a link's whole span. */
  predicate Covers(r: Run, mx: int, my: int) {
    || (r.x <= mx < r.x + Drawn(r.chars) * 8 && r.y <= my < r.y + 16)
    || (r.link.Some? && r.x <= mx < r.x + |r.chars| * 8 && my == r.y + 15)
  }

  /** Some run of link `k` covers the pixel. */
  ghost predicate Painted(runs: seq<Run>, k: nat, mx: int, my: int) {
    exists n :: 0 <= n < |runs| && runs[n].link == Some(k) && Covers(runs[n], mx, my)
  }

  // ----------------------------------------------------------------------- lines

  function LineEnd(t: seq<byte>, i: nat): (e: nat)
    requires i <= |t|
    ensures i <= e <= |t| && (e < |t| ==> t[e] == NEWLINE) && forall k :: i <= k < e ==> t[k] != NEWLINE
    decreases |t| - i
  {
    if i < |t| && t[i] != NEWLINE then LineEnd(t, i + 1) else i
  }

  /** The start of the line after the one that starts at `i`. */
  function NextLine(t: seq<byte>, i: nat): (j: nat)
    requires i <= |t|
    ensures i <= j <= |t| && (i < |t| ==> i < j)
  {
    var e := LineEnd(t, i);
    if e < |t| then e + 1 else e
  }

  /** The start of the line `rows` lines further on. */
  function LineStart(t: seq<byte>, i: nat, rows: nat): (j: nat)
    requires i <= |t|
    ensures i <= j <= |t|
    decreases rows
  {
    if rows == 0 then i else LineStart(t, NextLine(t, i), rows - 1)
  }

  /** Where drawing and hitting stop on the line at `ls`: its end, or 511 characters in. */
  function ShownEnd(t: seq<byte>, ls: nat): (e: nat)
    requires ls <= |t|
    ensures ls <= e <= LineEnd(t, ls)
  {
    var le := LineEnd(t, ls);
    if le - ls >= 512 then ls + 511 else le
  }

  function Breaks(t: seq<byte>, i: nat): nat
    requires i <= |t|
    decreases |t| - i
  {
    if i == |t| then 0 else (if t[i] == NEWLINE then 1 else 0) + Breaks(t, i + 1)
  }

  /** The text's last line is that many lines below its first. */
  lemma {:induction false} LastLine(t: seq<byte>, i: nat)
    requires i <= |t|
    ensures LineEnd(t, LineStart(t, i, Breaks(t, i))) == |t|
    ensures forall row: nat :: row < Breaks(t, i) ==> LineEnd(t, LineStart(t, i, row)) < |t|
    decreases |t| - i
  {
    hide LineEnd;
    BreaksBehind(t, i);
    var e := LineEnd(t, i);
    if e < |t| {
      LastLine(t, e + 1);
      forall row: nat | row < Breaks(t, i) ensures LineEnd(t, LineStart(t, i, row)) < |t| {
        if row > 0 {
          assert LineStart(t, i, row) == LineStart(t, e + 1, row - 1);
        }
      }
    }
  }

  lemma {:induction false} BreaksBehind(t: seq<byte>, i: nat)
    requires i <= |t|
    ensures Breaks(t, i) == if LineEnd(t, i) < |t| then 1 + Breaks(t, LineEnd(t, i) + 1) else 0
    decreases |t| - i
  {
    if i < |t| && t[i] != NEWLINE {
      BreaksBehind(t, i + 1);
    }
  }

  /** The largest scroll offset: the text's height, one margin included, less the viewport's. */
  function MaxScroll(t: seq<byte>, height: int): (m: nat) {
    var max := (1 + Breaks(t, 0)) * 18 - (height - 64) + 6;
    if max < 0 then 0 else max
  }

  /** The scroll offset drawing settles on. */
  function Clamped(t: seq<byte>, scroll: int, height: int): (s: nat)
    ensures s <= MaxScroll(t, height) && (0 <= scroll <= MaxScroll(t, height) ==> s == scroll)
  {
    if scroll < 0 then 0 else if scroll > MaxScroll(t, height) then MaxScroll(t, height) else scroll
  }

  /** The top pixel row of text row `row`. */
  function LineTop(row: nat, scroll: int): int {
    70 + row * 18 - scroll
  }

  // ------------------------------------------------------------------ what is drawn

  /** The spans of links `li`, `li + 1`, ... on the line [ls, le) drawn at height `y`. */
  function LinkRuns(t: seq<byte>, links: seq<PageLink>, li: nat, ls: nat, le: nat, y: int): seq<Run>
    requires ls <= le <= |t| && li <= |links|
    decreases |links| - li
  {
    if li == |links| then []
    else
      var s, e := links[li].start, links[li].end;
      var rest := LinkRuns(t, links, li + 1, ls, le, y);
      if e <= s || s >= le || e <= ls then rest
      else
        var c0 := if s > ls then s - ls else 0;
        var c1 := if e < le then e - ls else le - ls;
        [Run(6 + c0 * 8, y, t[ls + c0..ls + c1], Some(li))] + rest
  }

  function LineRuns(t: seq<byte>, links: seq<PageLink>, ls: nat, y: int): seq<Run>
    requires ls <= |t|
  {
    var le := ShownEnd(t, ls);
    if le == ls || y + 18 <= 64 then []
    else [Run(6, y, t[ls..le], None)] + LinkRuns(t, links, 0, ls, le, y)
  }

  /** Everything drawn from the line at `i` on, which is row `row`, until the viewport ends. */
  function PageRuns(t: seq<byte>, links: seq<PageLink>, i: nat, row: nat, scroll: nat, height: int): seq<Run>
    requires i <= |t|
    decreases |t| - i
  {
    var y := 70 + row * 18 - scroll;
    if i == |t| || (LineEnd(t, i) > i && y >= height && y + 18 > 64) then []
    else LineRuns(t, links, i, y) + PageRuns(t, links, NextLine(t, i), row + 1, scroll, height)
  }

  method DrawLine(t: seq<byte>, links: seq<PageLink>, ls: nat, le: nat, y: int) returns (runs: seq<Run>)
    requires ls < le <= |t|
    ensures runs == [Run(6, y, t[ls..le], None)] + LinkRuns(t, links, 0, ls, le, y)
  {
    hide LinkRuns;
    runs := [Run(6, y, t[ls..le], None)];
    ghost var all := runs + LinkRuns(t, links, 0, ls, le, y);
    for li := 0 to |links|
      invariant runs + LinkRuns(t, links, li, ls, le, y) == all
    {
      LinkRunsStep(t, links, li, ls, le, y);
      var s, e := links[li].start, links[li].end;
      if e <= s || s >= le || e <= ls {
        continue;
      }
      var c0 := if s > ls then s - ls else 0;
      var c1 := if e < le then e - ls else le - ls;
      if c1 <= c0 {
        continue;
      }
      var span := Run(6 + c0 * 8, y, t[ls + c0..ls + c1], Some(li));
      RunsAssociate(runs, [span], LinkRuns(t, links, li + 1, ls, le, y));
      runs := runs + [span];
    }
    LinkRunsEnd(t, links, ls, le, y);
    assert runs + [] == runs;
  }

  lemma LinkRunsStep(t: seq<byte>, links: seq<PageLink>, li: nat, ls: nat, le: nat, y: int)
    requires ls <= le <= |t| && li < |links|
    ensures var s, e := links[li].start, links[li].end;
            var rest := LinkRuns(t, links, li + 1, ls, le, y);
            var c0 := if s > ls then s - ls else 0;
            var c1 := if e < le then e - ls else le - ls;
            if e <= s || s >= le || e <= ls then
              LinkRuns(t, links, li, ls, le, y) == rest
            else
              && 0 <= c0 <= c1 <= le - ls && (ls < le ==> c0 < c1)
              && LinkRuns(t, links, li, ls, le, y) == [Run(6 + c0 * 8, y, t[ls + c0..ls + c1], Some(li))] + rest
  {
  }

  lemma LinkRunsEnd(t: seq<byte>, links: seq<PageLink>, ls: nat, le: nat, y: int)
    requires ls <= le <= |t|
    ensures LinkRuns(t, links, |links|, ls, le, y) == []
  {
  }

  method CountBreaks(t: seq<byte>) returns (n: nat)
    ensures n == Breaks(t, 0)
  {
    n := 0;
    for i := 0 to |t|
      invariant n + Breaks(t, i) == Breaks(t, 0)
    {
      if t[i] == NEWLINE {
        n := n + 1;
      }
    }
  }

  method FindLineEnd(t: seq<byte>, i: nat) returns (e: nat)
    requires i <= |t|
    ensures e == LineEnd(t, i)
  {
    e := i;
    while e < |t| && t[e] != NEWLINE
      invariant i <= e <= |t| && LineEnd(t, e) == LineEnd(t, i)
    {
      e := e + 1;
    }
  }

  /** One line of draw_page: its runs, or the news that the viewport has ended. */
  method DrawRow(t: seq<byte>, links: seq<PageLink>, ls: nat, le0: nat, y: int, height: int)
    returns (line: seq<Run>, ended: bool)
    requires ls <= |t| && le0 == LineEnd(t, ls)
    ensures ended <==> le0 > ls && y + 18 > 64 && y >= height
    ensures !ended ==> line == LineRuns(t, links, ls, y)
    ensures ended ==> line == []
  {
    hide LinkRuns, LineEnd;
    line, ended := [], false;
    var le := le0;
    if le == ls || y + LINE_H <= CONTENT_Y {
      return;
    }
    if y >= CONTENT_Y + (height - CONTENT_Y) {
      ended := true;
      return;
    }
    if le - ls >= LINE_CAP {
      le := ls + LINE_CAP - 1;
    }
    line := DrawLine(t, links, ls, le, y);
  }

  /**
   * The scrolling part of draw_page: a request in range stays, any other goes to the nearer end of the
   * range; at its far end the bottom of the last line is the bottom of the window.
   */
  method ClampScroll(t: seq<byte>, scroll0: int, height: int) returns (scroll: int)
    ensures scroll == Clamped(t, scroll0, height) && 0 <= scroll <= MaxScroll(t, height)
    ensures 0 <= scroll0 <= MaxScroll(t, height) ==> scroll == scroll0
    ensures scroll0 < 0 ==> scroll == 0
    ensures scroll0 > MaxScroll(t, height) ==> scroll == MaxScroll(t, height)
    ensures LineTop(Breaks(t, 0), MaxScroll(t, height)) + 18 <= height
    ensures MaxScroll(t, height) > 0 ==> LineTop(Breaks(t, 0), MaxScroll(t, height)) + 18 == height
  {
    var breaks := CountBreaks(t);
    var maxScroll := (1 + breaks) * LINE_H - (height - CONTENT_Y) + PAD;
    if maxScroll < 0 {
      maxScroll := 0;
    }
    scroll := scroll0;
    if scroll < 0 {
      scroll := 0;
    }
    if scroll > maxScroll {
      scroll := maxScroll;
    }
  }

  /** draw_page, for a page with text: the runs in drawing order, and the clamped scroll offset. */
  method DrawPage(t: seq<byte>, links: seq<PageLink>, scroll0: int, height: int) returns (runs: seq<Run>, scroll: int)
    ensures scroll == Clamped(t, scroll0, height)
    ensures runs == PageRuns(t, links, 0, 0, Clamped(t, scroll0, height), height)
  {
    hide LineRuns, LineEnd, Clamped, MaxScroll, Breaks, PageRuns;
    scroll := ClampScroll(t, scroll0, height);
    runs := [];
    ghost var all := PageRuns(t, links, 0, 0, scroll, height);
    RunsAssociate(all, [], []);
    var i: nat, row: nat := 0, 0;
    while i < |t|
      invariant i <= |t|
      invariant runs + PageRuns(t, links, i, row, scroll, height) == all
      decreases |t| - i
    {
      PageRunsStep(t, links, i, row, scroll, height);
      var ls := i;
      var le := FindLineEnd(t, i);
      i := if le < |t| then le + 1 else le;
      var y := CONTENT_Y + PAD + row * LINE_H - scroll;
      row := row + 1;
      var line, ended := DrawRow(t, links, ls, le, y, height);
      if ended {
        RunsAssociate(runs, [], []);
        return;
      }
      RunsAssociate(runs, line, PageRuns(t, links, i, row, scroll, height));
      runs := runs + line;
    }
    NoLinesLeft(t, links, i, row, scroll, height);
    RunsAssociate(runs, [], []);
  }

  lemma RunsAssociate(a: seq<Run>, b: seq<Run>, c: seq<Run>)
    ensures a + (b + c) == a + b + c && a + [] == a && [] + a == a
  {
  }

  lemma PageRunsStep(t: seq<byte>, links: seq<PageLink>, i: nat, row: nat, scroll: nat, height: int)
    requires i < |t|
    ensures var y := 70 + row * 18 - scroll;
            PageRuns(t, links, i, row, scroll, height)
            == if LineEnd(t, i) > i && y >= height && y + 18 > 64 then []
               else LineRuns(t, links, i, y) + PageRuns(t, links, NextLine(t, i), row + 1, scroll, height)
  {
  }

  lemma NoLinesLeft(t: seq<byte>, links: seq<PageLink>, i: nat, row: nat, scroll: nat, height: int)
    requires i <= |t|
    ensures i == |t| ==> PageRuns(t, links, i, row, scroll, height) == []
  {
  }

  // ------------------------------------------------------------ the text that is shown

  lemma {:induction false} LineStartNext(t: seq<byte>, i: nat, rows: nat)
    requires i <= |t|
    ensures LineStart(t, i, rows + 1) == NextLine(t, LineStart(t, i, rows))
    decreases rows
  {
    hide NextLine;
    if rows > 0 {
      LineStartNext(t, NextLine(t, i), rows - 1);
    }
  }

  /**
   * The run puts characters of the text's line `row` at their own columns, eight pixels each, at the line's place, and
   * some of the line's eighteen pixel rows is below the toolbar.
   */
  ghost predicate IsPartOfLine(t: seq<byte>, r: Run, row: nat, scroll: nat) {
    var ls := LineStart(t, 0, row);
    && r.y + 18 > 64 && r.y == 70 + 18 * row - scroll
    && exists c: nat :: r.x == 6 + 8 * c && ls + c + |r.chars| <= ShownEnd(t, ls) && t[ls + c..ls + c + |r.chars|] == r.chars
  }

  ghost predicate IsOfText(t: seq<byte>, r: Run, scroll: nat) {
    exists row: nat :: IsPartOfLine(t, r, row, scroll)
  }

  ghost predicate ShowsText(t: seq<byte>, runs: seq<Run>, scroll: nat) {
    forall n :: 0 <= n < |runs| ==> IsOfText(t, runs[n], scroll)
  }

  lemma ShowsBoth(t: seq<byte>, a: seq<Run>, b: seq<Run>, scroll: nat)
    requires ShowsText(t, a, scroll) && ShowsText(t, b, scroll)
    ensures ShowsText(t, a + b, scroll)
  {
    forall n | 0 <= n < |a + b| ensures IsOfText(t, (a + b)[n], scroll) {
      if n < |a| {
        assert IsOfText(t, a[n], scroll);
      } else {
        assert IsOfText(t, b[n - |a|], scroll);
      }
    }
  }

  lemma SpanIsPart(t: seq<byte>, row: nat, scroll: nat, c0: nat, c1: nat, link: Option<nat>)
    requires var ls := LineStart(t, 0, row); c0 <= c1 && ls + c1 <= ShownEnd(t, ls)
    requires 70 + row * 18 - scroll + 18 > 64
    ensures var ls := LineStart(t, 0, row);
            ShowsText(t, [Run(6 + c0 * 8, 70 + row * 18 - scroll, t[ls + c0..ls + c1], link)], scroll)
  {
    var ls := LineStart(t, 0, row);
    var r := Run(6 + c0 * 8, 70 + row * 18 - scroll, t[ls + c0..ls + c1], link);
    assert r.x == 6 + 8 * c0 && t[ls + c0..ls + c0 + |r.chars|] == r.chars;
    assert IsPartOfLine(t, r, row, scroll);
  }

  lemma {:induction false} LinkRunsShowText(t: seq<byte>, links: seq<PageLink>, li: nat, row: nat, scroll: nat)
    requires li <= |links| && 70 + row * 18 - scroll + 18 > 64
    ensures var ls := LineStart(t, 0, row);
            ShowsText(t, LinkRuns(t, links, li, ls, ShownEnd(t, ls), 70 + row * 18 - scroll), scroll)
    decreases |links| - li
  {
    hide ShowsText, LinkRuns, LineStart, ShownEnd;
    var ls := LineStart(t, 0, row);
    var le, y := ShownEnd(t, ls), 70 + row * 18 - scroll;
    if li < |links| {
      LinkRunsShowText(t, links, li + 1, row, scroll);
      LinkRunsStep(t, links, li, ls, le, y);
      var s, e := links[li].start, links[li].end;
      if !(e <= s || s >= le || e <= ls) {
        var c0 := if s > ls then s - ls else 0;
        var c1 := if e < le then e - ls else le - ls;
        SpanIsPart(t, row, scroll, c0, c1, Some(li));
        ShowsBoth(t, [Run(6 + c0 * 8, y, t[ls + c0..ls + c1], Some(li))], LinkRuns(t, links, li + 1, ls, le, y), scroll);
      }
    } else {
      LinkRunsEnd(t, links, ls, le, y);
      NothingShows(t, scroll);
    }
  }

  lemma LineRunsShowText(t: seq<byte>, links: seq<PageLink>, row: nat, scroll: nat)
    ensures ShowsText(t, LineRuns(t, links, LineStart(t, 0, row), 70 + row * 18 - scroll), scroll)
  {
    hide ShowsText, LinkRuns, LineStart, ShownEnd;
    var ls := LineStart(t, 0, row);
    var le, y := ShownEnd(t, ls), 70 + row * 18 - scroll;
    NothingShows(t, scroll);
    if y + 18 > 64 {
      SpanIsPart(t, row, scroll, 0, le - ls, None);
      LinkRunsShowText(t, links, 0, row, scroll);
      ShowsBoth(t, [Run(6, y, t[ls..le], None)], LinkRuns(t, links, 0, ls, le, y), scroll);
    }
  }

  /**
   * Whatever is drawn is the page's text: every run's characters stand at their own columns of their own line, of which
   * a pixel row is in the content area. And every such line is drawn in full, up to 511 characters.
   */
  lemma TextIsShown(t: seq<byte>, links: seq<PageLink>, scroll: nat, height: int, row: nat)
    ensures ShowsText(t, PageRuns(t, links, 0, 0, scroll, height), scroll)
    ensures StartAbove(PageRuns(t, links, 0, 0, scroll, height), height)
    ensures var ls, y := LineStart(t, 0, row), 70 + 18 * row - scroll;
            y + 18 > 64 && y < height && ShownEnd(t, ls) > ls ==>
              Run(6, y, t[ls..ShownEnd(t, ls)], None) in PageRuns(t, links, 0, 0, scroll, height)
    ensures var ls := LineStart(t, 0, row);
            ShownEnd(t, ls) == if LineEnd(t, ls) - ls <= 511 then LineEnd(t, ls) else ls + 511
  {
    hide PageRuns, ShowsText;
    PageRunsShow(t, links, 0, scroll, height);
    PageRunsAbove(t, links, 0, 0, scroll, height);
    LinesAreDrawn(t, links, 0, row, scroll, height);
  }

  lemma {:induction false} PageRunsShow(t: seq<byte>, links: seq<PageLink>, row: nat, scroll: nat, height: int)
    ensures ShowsText(t, PageRuns(t, links, LineStart(t, 0, row), row, scroll, height), scroll)
    decreases |t| - LineStart(t, 0, row)
  {
    hide ShowsText, LineRuns, LineStart, PageRuns;
    var i := LineStart(t, 0, row);
    NothingShows(t, scroll);
    if i == |t| {
      NoLinesLeft(t, links, i, row, scroll, height);
    } else {
      PageRunsStep(t, links, i, row, scroll, height);
      LineStartNext(t, 0, row);
      PageRunsShow(t, links, row + 1, scroll, height);
      LineRunsShowText(t, links, row, scroll);
      var y := 70 + row * 18 - scroll;
      ShowsBoth(t, LineRuns(t, links, i, y), PageRuns(t, links, NextLine(t, i), row + 1, scroll, height), scroll);
    }
  }

  ghost predicate StartAbove(runs: seq<Run>, y: int) {
    forall n :: 0 <= n < |runs| ==> runs[n].y < y
  }

  lemma {:induction false} PageRunsAbove(t: seq<byte>, links: seq<PageLink>, i: nat, row: nat, scroll: nat, height: int)
    requires i <= |t|
    ensures StartAbove(PageRuns(t, links, i, row, scroll, height), height)
    decreases |t| - i
  {
    hide LinkRuns, LineEnd, PageRuns;
    if i < |t| {
      PageRunsStep(t, links, i, row, scroll, height);
      PageRunsAbove(t, links, NextLine(t, i), row + 1, scroll, height);
      LinkRunsAt(t, links, 0, i, ShownEnd(t, i), 70 + row * 18 - scroll);
    } else {
      NoLinesLeft(t, links, i, row, scroll, height);
    }
  }

  lemma {:induction false} LinkRunsAt(t: seq<byte>, links: seq<PageLink>, li: nat, ls: nat, le: nat, y: int)
    requires ls <= le <= |t| && li <= |links|
    ensures StartAbove(LinkRuns(t, links, li, ls, le, y), y + 1)
    decreases |links| - li
  {
    if li < |links| {
      LinkRunsAt(t, links, li + 1, ls, le, y);
    }
  }

  lemma NothingShows(t: seq<byte>, scroll: nat)
    ensures ShowsText(t, [], scroll)
  {
  }

  /** The runs from row `from` on hold the plain run of every later line that is in sight. */
  lemma {:induction false} LinesAreDrawn(t: seq<byte>, links: seq<PageLink>, from: nat, row: nat, scroll: nat, height: int)
    requires from <= row
    ensures var ls, y := LineStart(t, 0, row), 70 + 18 * row - scroll;
            y + 18 > 64 && y < height && ShownEnd(t, ls) > ls ==>
              Run(6, y, t[ls..ShownEnd(t, ls)], None) in PageRuns(t, links, LineStart(t, 0, from), from, scroll, height)
    decreases row - from
  {
    hide LinkRuns, LineStart, PageRuns, NextLine;
    var i, ls := LineStart(t, 0, from), LineStart(t, 0, row);
    LaterLine(t, from, row);
    if i < |t| {
      PageRunsStep(t, links, i, from, scroll, height);
      if from < row {
        LineStartNext(t, 0, from);
        LinesAreDrawn(t, links, from + 1, row, scroll, height);
      }
    }
  }

  lemma {:induction false} LaterLine(t: seq<byte>, from: nat, row: nat)
    requires from <= row
    ensures LineStart(t, 0, from) <= LineStart(t, 0, row)
    decreases row - from
  {
    hide LineStart;
    if from < row {
      LineStartNext(t, 0, row - 1);
      LaterLine(t, from, row - 1);
    }
  }

  // ------------------------------------------------------------------ what is hit

  /** C's division by 8, toward zero. */
  function Div8(a: int): int {
    if a >= 0 then a / 8 else -(-a / 8)
  }

  /** The first link with an address whose range holds text position `pos`. */
  function FirstLinkAt(links: seq<PageLink>, li: nat, pos: nat): Option<nat>
    requires li <= |links|
    decreases |links| - li
  {
    if li == |links| then None
    else if links[li].url != [] && links[li].start <= pos < links[li].end then Some(li)
    else FirstLinkAt(links, li + 1, pos)
  }

  /** The loop over the link table. */
  method SearchLinks(links: seq<PageLink>, pos: nat) returns (k: Option<nat>)
    ensures k == FirstLinkAt(links, 0, pos)
  {
    for li := 0 to |links|
      invariant FirstLinkAt(links, li, pos) == FirstLinkAt(links, 0, pos)
    {
      if links[li].url != [] && links[li].start <= pos && pos < links[li].end {
        return Some(li);
      }
    }
    k := None;
  }

  /** The loop that finds the line clicked, or the end of the text. */
  method FindLine(t: seq<byte>, row: nat) returns (ls: nat)
    ensures ls == LineStart(t, 0, row)
  {
    hide LineEnd;
    ls := 0;
    var r := 0;
    while r < row && ls < |t|
      invariant 0 <= r <= row && ls <= |t| && LineStart(t, ls, row - r) == LineStart(t, 0, row)
    {
      ls := FindLineEnd(t, ls);
      if ls < |t| {
        ls := ls + 1;
      }
      r := r + 1;
    }
    EndStaysEnd(t, ls, row - r);
  }

  /** The link part of handle_click: the link a click below the toolbar follows. */
  method LinkAt(t: seq<byte>, links: seq<PageLink>, scroll: nat, mx: int, my: int) returns (k: Option<nat>)
    ensures k == Hit(t, links, scroll, mx, my)
  {
    hide FirstLinkAt, LineEnd, LineStart;
    k := None;
    if my >= CONTENT_Y + PAD {
      var row := (my - CONTENT_Y - PAD + scroll) / LINE_H;
      var col := Div8(mx - PAD);
      if row >= 0 && col >= 0 {
        var ls := FindLine(t, row);
        var le := FindLineEnd(t, ls);
        if le - ls >= LINE_CAP {
          le := ls + LINE_CAP - 1;
        }
        var pos := ls + col;
        if pos < le {
          k := SearchLinks(links, pos);
        }
      }
    }
  }

  function Hit(t: seq<byte>, links: seq<PageLink>, scroll: nat, mx: int, my: int): Option<nat> {
    if my < 70 || Div8(mx - 6) < 0 then None
    else
      var ls := LineStart(t, 0, (my - 70 + scroll) / 18);
      var pos := ls + Div8(mx - 6);
      if pos < ShownEnd(t, ls) then FirstLinkAt(links, 0, pos) else None
  }

  lemma {:induction false} EndStaysEnd(t: seq<byte>, i: nat, rows: nat)
    requires i <= |t| && (rows == 0 || i == |t|)
    ensures LineStart(t, i, rows) == i
    decreases rows
  {
    if rows > 0 {
      EndStaysEnd(t, i, rows - 1);
    }
  }

  // ----------------------------------------------------- drawing and hitting agree

  /** Text position `pos` on the line at `ls` belongs to link `k`. */
  predicate LinkHolds(links: seq<PageLink>, k: nat, ls: nat, le: nat, pos: int) {
    k < |links| && ls <= pos < le && links[k].start <= pos < links[k].end
  }

  lemma PaintedCons(r: Run, rest: seq<Run>, k: nat, mx: int, my: int)
    ensures Painted([r] + rest, k, mx, my) <==> (r.link == Some(k) && Covers(r, mx, my)) || Painted(rest, k, mx, my)
  {
    if Painted(rest, k, mx, my) {
      var n :| 0 <= n < |rest| && rest[n].link == Some(k) && Covers(rest[n], mx, my);
      assert ([r] + rest)[n + 1] == rest[n];
    }
    if r.link == Some(k) && Covers(r, mx, my) {
      assert ([r] + rest)[0] == r;
    }
  }

  lemma PaintedConcat(a: seq<Run>, b: seq<Run>, k: nat, mx: int, my: int)
    ensures Painted(a + b, k, mx, my) <==> Painted(a, k, mx, my) || Painted(b, k, mx, my)
  {
    if Painted(a, k, mx, my) {
      var n :| 0 <= n < |a| && a[n].link == Some(k) && Covers(a[n], mx, my);
      assert (a + b)[n] == a[n];
    }
    if Painted(b, k, mx, my) {
      var n :| 0 <= n < |b| && b[n].link == Some(k) && Covers(b[n], mx, my);
      assert (a + b)[|a| + n] == b[n];
    }
  }

  predicate NulFree(t: seq<byte>, a: int, b: int) {
    forall i :: 0 <= i < |t| && a <= i < b ==> t[i] != 0
  }

  /**
   * Pixel row `line` of the cell at text position `pos` is drawn by a run that starts at `from`: the
   * lowest of sixteen rows by the underline, the others only if no NUL has ended the run.
   */
  predicate Shows(t: seq<byte>, from: int, pos: int, line: int) {
    0 <= line < 16 && (line == 15 || NulFree(t, from, pos + 1))
  }

  /** Where the run of a link on the line at `ls` starts. */
  function RunStart(links: seq<PageLink>, k: nat, ls: nat): nat
    requires k < |links|
  {
    if links[k].start > ls then links[k].start else ls
  }

  lemma SpanCovers(t: seq<byte>, a: nat, b: nat, x: int, y: int, k: nat, cell: int, mx: int, my: int)
    requires a <= b <= |t| && x + cell * 8 <= mx < x + cell * 8 + 8
    ensures Covers(Run(x, y, t[a..b], Some(k)), mx, my) <==> 0 <= cell < b - a && Shows(t, a, a + cell, my - y)
  {
    var chars := t[a..b];
    var n := Drawn(chars);
    assert x <= mx < x + n * 8 <==> 0 <= cell < n;
    assert x <= mx < x + |chars| * 8 <==> 0 <= cell < |chars|;
    assert n < |chars| ==> t[a + n] == 0;
    assert forall i :: a <= i < a + n ==> t[i] == chars[i - a];
    if 0 <= cell < |chars| {
      assert cell < n <==> NulFree(t, a, a + cell + 1);
    }
  }

  /** The runs of a line draw a pixel exactly for the links its text position is in that show there. */
  lemma LinkRunsCover(t: seq<byte>, links: seq<PageLink>, li: nat, ls: nat, le: nat, y: int, k: nat, mx: int, my: int)
    requires ls <= le <= |t| && li <= |links| && mx >= 6
    ensures Painted(LinkRuns(t, links, li, ls, le, y), k, mx, my)
       <==> li <= k && LinkHolds(links, k, ls, le, ls + (mx - 6) / 8)
            && Shows(t, RunStart(links, k, ls), ls + (mx - 6) / 8, my - y)
  {
    hide LinkHolds, Painted, Shows, LinkRuns, RunStart;
    RunsOfCell(t, links, li, ls, le, y, k, (mx - 6) / 8, mx, my);
  }

  lemma {:induction false} RunsOfCell(t: seq<byte>, links: seq<PageLink>, li: nat, ls: nat, le: nat, y: int,
                                      k: nat, cell: int, mx: int, my: int)
    requires ls <= le <= |t| && li <= |links| && 6 + cell * 8 <= mx < 6 + cell * 8 + 8
    ensures Painted(LinkRuns(t, links, li, ls, le, y), k, mx, my)
       <==> li <= k && LinkHolds(links, k, ls, le, ls + cell) && Shows(t, RunStart(links, k, ls), ls + cell, my - y)
    decreases |links| - li
  {
    hide Covers, Painted, Shows, LinkHolds, LinkRuns;
    if li < |links| {
      RunsOfCell(t, links, li + 1, ls, le, y, k, cell, mx, my);
      LinkRunsStep(t, links, li, ls, le, y);
      var s, e := links[li].start, links[li].end;
      if e <= s || s >= le || e <= ls {
        NotOnLine(links, li, ls, le, ls + cell);
      } else {
        var c0 := RunStart(links, li, ls) - ls;
        var c1 := if e < le then e - ls else le - ls;
        PaintedCons(Run(6 + c0 * 8, y, t[ls + c0..ls + c1], Some(li)), LinkRuns(t, links, li + 1, ls, le, y), k, mx, my);
        SpanCovers(t, ls + c0, ls + c1, 6 + c0 * 8, y, li, cell - c0, mx, my);
        OnLine(links, li, ls, le, cell);
      }
    } else {
      LinkRunsEnd(t, links, ls, le, y);
      NothingPainted(k, mx, my);
      NoSuchLink(links, if k < |links| then |links| else k, ls, le, ls + cell);
    }
  }

  lemma NotOnLine(links: seq<PageLink>, k: nat, ls: nat, le: nat, pos: int)
    requires k < |links| && (links[k].end <= links[k].start || links[k].start >= le || links[k].end <= ls)
    ensures !LinkHolds(links, k, ls, le, pos)
  {
  }

  lemma OnLine(links: seq<PageLink>, k: nat, ls: nat, le: nat, cell: int)
    requires k < |links| && ls <= le && !(links[k].end <= links[k].start || links[k].start >= le || links[k].end <= ls)
    ensures var c0 := RunStart(links, k, ls) - ls;
            var c1 := if links[k].end < le then links[k].end - ls else le - ls;
            LinkHolds(links, k, ls, le, ls + cell) <==> c0 <= cell < c1
  {
  }

  lemma NoSuchLink(links: seq<PageLink>, k: nat, ls: nat, le: nat, pos: int)
    requires k >= |links|
    ensures !LinkHolds(links, k, ls, le, pos)
  {
  }

  lemma LineRunsCover(t: seq<byte>, links: seq<PageLink>, ls: nat, y: int, k: nat, mx: int, my: int)
    requires ls <= |t| && mx >= 6 && my >= 64
    ensures Painted(LineRuns(t, links, ls, y), k, mx, my)
       <==> LinkHolds(links, k, ls, ShownEnd(t, ls), ls + (mx - 6) / 8)
            && Shows(t, RunStart(links, k, ls), ls + (mx - 6) / 8, my - y)
  {
    hide Covers, Painted;
    var le := ShownEnd(t, ls);
    LinkRunsCover(t, links, 0, ls, le, y, k, mx, my);
    PaintedCons(Run(6, y, t[ls..le], None), LinkRuns(t, links, 0, ls, le, y), k, mx, my);
    NothingPainted(k, mx, my);
  }

  /** The text row a pixel of the content is in, and how far down in its eighteen pixel rows. */
  function PixelRow(my: int, scroll: nat): int {
    (my - 70 + scroll) / 18
  }

  function PixelLine(my: int, scroll: nat): int {
    (my - 70 + scroll) % 18
  }

  lemma PixelRowIs(my: int, scroll: nat, row: int)
    ensures PixelRow(my, scroll) == row <==> 70 + row * 18 - scroll <= my < 70 + row * 18 - scroll + 18
    ensures PixelRow(my, scroll) == row ==> PixelLine(my, scroll) == my - (70 + row * 18 - scroll)
  {
  }

  /** The cell of the pixel column `mx`, `rows` lines below the line at `i`, belongs to link `k` and shows it. */
  predicate CellShows(t: seq<byte>, links: seq<PageLink>, i: nat, rows: nat, k: nat, mx: int, line: int)
    requires i <= |t|
  {
    var ls := LineStart(t, i, rows);
    && LinkHolds(links, k, ls, ShownEnd(t, ls), ls + (mx - 6) / 8)
    && Shows(t, RunStart(links, k, ls), ls + (mx - 6) / 8, line)
  }

  /** From row `row` on, a pixel of the viewport is painted for link `k` exactly if its row's text says so. */
  lemma {:induction false} PageRunsCover(t: seq<byte>, links: seq<PageLink>, i: nat, row: nat, scroll: nat, height: int,
                                         k: nat, mx: int, my: int)
    requires i <= |t| && mx >= 6 && 64 <= my < height
    ensures Painted(PageRuns(t, links, i, row, scroll, height), k, mx, my)
       <==> row <= PixelRow(my, scroll) && CellShows(t, links, i, PixelRow(my, scroll) - row, k, mx, PixelLine(my, scroll))
    decreases |t| - i
  {
    hide LineRuns, Painted, PixelRow, PixelLine, ShownEnd, LinkHolds, LineEnd, RunStart, NulFree;
    var r := PixelRow(my, scroll);
    var y := 70 + row * 18 - scroll;
    PixelRowIs(my, scroll, row);
    PixelRowIs(my, scroll, r);
    if i == |t| {
      NothingPainted(k, mx, my);
      if row <= r {
        PastTheEnd(t, links, r - row, k, mx, PixelLine(my, scroll));
      }
    } else if LineEnd(t, i) > i && y >= height && y + 18 > 64 {
      NothingPainted(k, mx, my);
      assert row > r;
    } else {
      LineRunsCover(t, links, i, y, k, mx, my);
      PageRunsCover(t, links, NextLine(t, i), row + 1, scroll, height, k, mx, my);
      PaintedConcat(LineRuns(t, links, i, y), PageRuns(t, links, NextLine(t, i), row + 1, scroll, height), k, mx, my);
    }
  }

  lemma NothingPainted(k: nat, mx: int, my: int)
    ensures !Painted([], k, mx, my)
  {
  }

  lemma PastTheEnd(t: seq<byte>, links: seq<PageLink>, rows: nat, k: nat, mx: int, line: int)
    ensures !CellShows(t, links, |t|, rows, k, mx, line)
  {
    EndStaysEnd(t, |t|, rows);
  }

  lemma {:induction false} FirstLinkIsFirst(links: seq<PageLink>, li: nat, pos: nat, k: nat)
    requires li <= |links|
    ensures FirstLinkAt(links, li, pos) == Some(k)
       <==> li <= k < |links| && links[k].url != [] && links[k].start <= pos < links[k].end
            && forall j :: li <= j < k && links[j].url != [] ==> !(links[j].start <= pos < links[j].end)
    decreases |links| - li
  {
    if li < |links| {
      FirstLinkIsFirst(links, li + 1, pos, k);
    }
  }

  /** What is left of link `k` at the pixel when the status bar has been drawn over the bottom 21 rows. */
  ghost predicate Seen(runs: seq<Run>, k: nat, height: int, mx: int, my: int) {
    Painted(runs, k, mx, my) && my < height - 21
  }

  /** Link `k` is seen at the pixel, has an address, and no earlier link with an address is seen there. */
  ghost predicate FollowedAt(runs: seq<Run>, links: seq<PageLink>, k: nat, height: int, mx: int, my: int) {
    && k < |links| && links[k].url != [] && Seen(runs, k, height, mx, my)
    && forall j :: 0 <= j < k && links[j].url != [] ==> !Seen(runs, j, height, mx, my)
  }

  /**
   * The pixel is one on which link `k` can be seen: above the status bar, in one of the upper sixteen of
   * its text row's eighteen pixel rows, and, but on the underline, with no NUL before it in the link's run.
   */
  predicate InSight(t: seq<byte>, links: seq<PageLink>, scroll: nat, height: int, k: nat, mx: int, my: int)
    requires k < |links|
  {
    var row := PixelRow(my, scroll);
    var ls := LineStart(t, 0, if row < 0 then 0 else row);
    my < height - 21 && Shows(t, RunStart(links, k, ls), ls + (mx - 6) / 8, PixelLine(my, scroll))
  }

  lemma HitHolds(t: seq<byte>, links: seq<PageLink>, scroll: nat, k: nat, mx: int, my: int)
    requires mx >= 6 && my >= 70
    ensures var ls := LineStart(t, 0, PixelRow(my, scroll));
            var le, pos := ShownEnd(t, ls), ls + (mx - 6) / 8;
            Hit(t, links, scroll, mx, my) == Some(k)
            <==> LinkHolds(links, k, ls, le, pos) && links[k].url != []
                 && forall j :: 0 <= j < k && links[j].url != [] ==> !LinkHolds(links, j, ls, le, pos)
  {
    hide ShownEnd, FirstLinkAt, LineStart;
    FirstLinkIsFirst(links, 0, LineStart(t, 0, PixelRow(my, scroll)) + (mx - 6) / 8, k);
  }

  lemma SeenIs(t: seq<byte>, links: seq<PageLink>, scroll: nat, height: int, k: nat, mx: int, my: int)
    requires mx >= 6 && 70 <= my < height
    ensures var ls := LineStart(t, 0, PixelRow(my, scroll));
            Seen(PageRuns(t, links, 0, 0, scroll, height), k, height, mx, my)
            <==> LinkHolds(links, k, ls, ShownEnd(t, ls), ls + (mx - 6) / 8) && InSight(t, links, scroll, height, k, mx, my)
  {
    hide PageRuns, Painted, ShownEnd, LineStart, Shows, RunStart;
    PageRunsCover(t, links, 0, 0, scroll, height, k, mx, my);
  }

  /**
   * For every page, link table, scroll offset and pixel of the content at least one margin in: clicking
   * and drawing agree on which link is there exactly if no link is hit or the one hit is in sight.
   */
  lemma ClickFollowsPaint(t: seq<byte>, links: seq<PageLink>, scroll: nat, height: int, mx: int, my: int)
    requires mx >= 6 && 70 <= my < height
    ensures var hit, runs := Hit(t, links, scroll, mx, my), PageRuns(t, links, 0, 0, scroll, height);
            (forall k: nat :: hit == Some(k) <==> FollowedAt(runs, links, k, height, mx, my))
            <==> (hit.Some? ==> hit.value < |links| && InSight(t, links, scroll, height, hit.value, mx, my))
  {
    hide PageRuns, Seen, ShownEnd, Hit, LineStart, InSight;
    var hit, runs := Hit(t, links, scroll, mx, my), PageRuns(t, links, 0, 0, scroll, height);
    forall k: nat
      ensures SeenSplit(t, links, scroll, height, k, mx, my) && HitSplit(t, links, scroll, k, mx, my)
    {
      SeenIs(t, links, scroll, height, k, mx, my);
      HitHolds(t, links, scroll, k, mx, my);
    }
    if hit.Some? {
      OneHit(t, links, scroll, height, hit.value, mx, my);
      var h := hit.value;
      forall k: nat | InSight(t, links, scroll, height, h, mx, my) && k != h ensures !FollowedAt(runs, links, k, height, mx, my) {
        assert SeenSplit(t, links, scroll, height, k, mx, my);
        assert HitSplit(t, links, scroll, h, mx, my) && SeenSplit(t, links, scroll, height, h, mx, my);
      }
      assert FollowedAt(runs, links, h, height, mx, my) <==> InSight(t, links, scroll, height, h, mx, my);
    } else {
      forall k: nat ensures !FollowedAt(runs, links, k, height, mx, my) {
        NoHitNothingSeen(t, links, scroll, height, k, mx, my);
      }
    }
  }

  /** The link that is hit is the one followed exactly if it is in sight. */
  lemma OneHit(t: seq<byte>, links: seq<PageLink>, scroll: nat, height: int, h: nat, mx: int, my: int)
    requires mx >= 6 && 70 <= my < height && Hit(t, links, scroll, mx, my) == Some(h)
    ensures h < |links|
    ensures FollowedAt(PageRuns(t, links, 0, 0, scroll, height), links, h, height, mx, my)
       <==> InSight(t, links, scroll, height, h, mx, my)
  {
    hide PageRuns, Seen, ShownEnd, Hit, LineStart, InSight, LinkHolds;
    var runs := PageRuns(t, links, 0, 0, scroll, height);
    var ls := LineStart(t, 0, PixelRow(my, scroll));
    HitHolds(t, links, scroll, h, mx, my);
    SeenIs(t, links, scroll, height, h, mx, my);
    assert h < |links| by {
      Held(links, h, ls, ShownEnd(t, ls), ls + (mx - 6) / 8);
    }
    forall j: nat | j < h && links[j].url != [] ensures !Seen(runs, j, height, mx, my) {
      SeenIs(t, links, scroll, height, j, mx, my);
    }
  }

  lemma Held(links: seq<PageLink>, k: nat, ls: nat, le: nat, pos: int)
    requires LinkHolds(links, k, ls, le, pos)
    ensures k < |links|
  {
  }

  ghost predicate SeenSplit(t: seq<byte>, links: seq<PageLink>, scroll: nat, height: int, k: nat, mx: int, my: int) {
    var row := PixelRow(my, scroll);
    var ls := LineStart(t, 0, if row < 0 then 0 else row);
    Seen(PageRuns(t, links, 0, 0, scroll, height), k, height, mx, my)
    <==> LinkHolds(links, k, ls, ShownEnd(t, ls), ls + (mx - 6) / 8) && InSight(t, links, scroll, height, k, mx, my)
  }

  ghost predicate HitSplit(t: seq<byte>, links: seq<PageLink>, scroll: nat, k: nat, mx: int, my: int) {
    var row := PixelRow(my, scroll);
    var ls := LineStart(t, 0, if row < 0 then 0 else row);
    var le, pos := ShownEnd(t, ls), ls + (mx - 6) / 8;
    Hit(t, links, scroll, mx, my) == Some(k)
    <==> LinkHolds(links, k, ls, le, pos) && links[k].url != []
         && forall j :: 0 <= j < k && links[j].url != [] ==> !LinkHolds(links, j, ls, le, pos)
  }

  lemma {:induction false} NoHitNothingSeen(t: seq<byte>, links: seq<PageLink>, scroll: nat, height: int, k: nat, mx: int, my: int)
    requires mx >= 6 && 70 <= my < height && Hit(t, links, scroll, mx, my) == None
    ensures !FollowedAt(PageRuns(t, links, 0, 0, scroll, height), links, k, height, mx, my)
    decreases k
  {
    hide PageRuns, Painted, ShownEnd, Hit, LineStart, InSight;
    SeenIs(t, links, scroll, height, k, mx, my);
    HitHolds(t, links, scroll, k, mx, my);
    var ls := LineStart(t, 0, PixelRow(my, scroll));
    if k < |links| && links[k].url != [] && LinkHolds(links, k, ls, ShownEnd(t, ls), ls + (mx - 6) / 8) {
      NoEarlierHolds(t, links, scroll, k, mx, my);
      assert false;
    }
  }

  lemma {:induction false} NoEarlierHolds(t: seq<byte>, links: seq<PageLink>, scroll: nat, k: nat, mx: int, my: int)
    requires mx >= 6 && my >= 70 && Hit(t, links, scroll, mx, my) == None
    ensures var ls := LineStart(t, 0, PixelRow(my, scroll));
            forall j :: 0 <= j <= k && j < |links| && links[j].url != [] ==>
              !LinkHolds(links, j, ls, ShownEnd(t, ls), ls + (mx - 6) / 8)
    decreases k
  {
    hide ShownEnd, Hit, LineStart, LinkHolds;
    if k > 0 {
      NoEarlierHolds(t, links, scroll, k - 1, mx, my);
    }
    HitHolds(t, links, scroll, k, mx, my);
  }

  ghost predicate Disjoint(links: seq<PageLink>) {
    forall j, k :: 0 <= j < k < |links| ==> links[j].end <= links[k].start
  }

  /** With disjoint ranges and addresses on every link, a link is seen at a pixel exactly if a click there follows it and it is in sight. */
  lemma ClickFollowsPaintedLink(t: seq<byte>, links: seq<PageLink>, scroll: nat, height: int, k: nat, mx: int, my: int)
    requires mx >= 6 && 70 <= my < height && k < |links|
    requires Disjoint(links) && (forall j :: 0 <= j < |links| ==> links[j].start <= links[j].end && links[j].url != [])
    ensures Seen(PageRuns(t, links, 0, 0, scroll, height), k, height, mx, my)
       <==> Hit(t, links, scroll, mx, my) == Some(k) && InSight(t, links, scroll, height, k, mx, my)
  {
    hide PageRuns, Painted, ShownEnd, Hit, LineStart, InSight;
    SeenIs(t, links, scroll, height, k, mx, my);
    HitHolds(t, links, scroll, k, mx, my);
  }

  // ------------------------------------------------------ where the two part company

  /** In the two lowest pixel rows of a text row no link is ever drawn, but a click follows the same link as above them. */
  lemma GapRowsFollowUnseen(t: seq<byte>, links: seq<PageLink>, scroll: nat, height: int, mx: int, my: int)
    requires mx >= 6 && 70 <= my < height && PixelLine(my, scroll) >= 16
    ensures forall k :: !Painted(PageRuns(t, links, 0, 0, scroll, height), k, mx, my)
    ensures forall up :: 70 <= up < my && PixelRow(up, scroll) == PixelRow(my, scroll) ==>
              Hit(t, links, scroll, mx, up) == Hit(t, links, scroll, mx, my)
  {
    hide PageRuns, Painted, ShownEnd, LineStart;
    forall k: nat ensures !Painted(PageRuns(t, links, 0, 0, scroll, height), k, mx, my) {
      PageRunsCover(t, links, 0, 0, scroll, height, k, mx, my);
    }
  }

  ghost predicate BehindMargin(runs: seq<Run>) {
    forall n :: 0 <= n < |runs| ==> runs[n].x >= 6
  }

  lemma {:induction false} LinkRunsBehindMargin(t: seq<byte>, links: seq<PageLink>, li: nat, ls: nat, le: nat, y: int)
    requires ls <= le <= |t| && li <= |links|
    ensures BehindMargin(LinkRuns(t, links, li, ls, le, y))
    decreases |links| - li
  {
    if li < |links| {
      LinkRunsBehindMargin(t, links, li + 1, ls, le, y);
    }
  }

  lemma {:induction false} PageRunsBehindMargin(t: seq<byte>, links: seq<PageLink>, i: nat, row: nat, scroll: nat, height: int)
    requires i <= |t|
    ensures BehindMargin(PageRuns(t, links, i, row, scroll, height))
    decreases |t| - i
  {
    hide LinkRuns, ShownEnd, LineEnd;
    if i < |t| {
      LinkRunsBehindMargin(t, links, 0, i, ShownEnd(t, i), 70 + row * 18 - scroll);
      PageRunsBehindMargin(t, links, NextLine(t, i), row + 1, scroll, height);
    }
  }

  /**
   * Left of the text nothing is drawn, but up to eight pixels before the first column a click follows the link in it;
   * further left it follows none.
   */
  lemma LeftMarginFollowsUnseen(t: seq<byte>, links: seq<PageLink>, scroll: nat, height: int, mx: int, my: int)
    requires mx < 6
    ensures forall k :: !Painted(PageRuns(t, links, 0, 0, scroll, height), k, mx, my)
    ensures Hit(t, links, scroll, mx, my) == if mx > -2 then Hit(t, links, scroll, 6, my) else None
  {
    hide PageRuns, ShownEnd, LineStart, FirstLinkAt;
    PageRunsBehindMargin(t, links, 0, 0, scroll, height);
  }

  /** The pixel just below the cell of a linked "a": followed, not drawn. */
  lemma GapRowExample()
    ensures var t: seq<byte>, links := [97], [PageLink(0, 1, [104])];
            Hit(t, links, 0, 6, 86) == Some(0) && !Painted(PageRuns(t, links, 0, 0, 0, 300), 0, 6, 86)
  {
    var t: seq<byte>, links := [97], [PageLink(0, 1, [104])];
    GapRowsFollowUnseen(t, links, 0, 300, 6, 86);
    assert LineEnd(t, 0) == 1;
  }

  /** A character behind a NUL in a link: followed, not drawn. */
  lemma NulExample()
    ensures var t: seq<byte>, links := [0, 98], [PageLink(0, 2, [120])];
            Hit(t, links, 0, 14, 72) == Some(0) && !Painted(PageRuns(t, links, 0, 0, 0, 300), 0, 14, 72)
  {
    var t: seq<byte>, links := [0, 98], [PageLink(0, 2, [120])];
    assert LineEnd(t, 0) == LineEnd(t, 1) == LineEnd(t, 2) == 2;
    PageRunsCover(t, links, 0, 0, 0, 300, 0, 14, 72);
    assert !NulFree(t, 0, 2) by {
      assert t[0] == 0;
    }
  }

  /** The bytes of the page <a href=x>&#0;b</a>. */
  const NUL_PAGE: seq<byte> := [60, 97, 32, 104, 114, 101, 102, 61, 120, 62, 38, 35, 48, 59, 98, 60, 47, 97, 62]

  lemma {:induction false} PlainTagEnd(p: seq<byte>, j: nat, e: nat)
    requires j <= e < |p| && p[e] == 62 && forall k :: j <= k < e ==> p[k] != 62 && p[k] != 34 && p[k] != 39
    ensures HtmlScan.TagEnd(p, j, 0) == e
    decreases e - j
  {
    if j < e {
      PlainTagEnd(p, j + 1, e);
    }
  }

  lemma AnchorName(p: seq<byte>, i: nat)
    requires i + 1 < |p| && p[i] == 97 && (p[i + 1] == 32 || p[i + 1] == 62)
    ensures HtmlScan.Named(p, i, "a") && !HtmlScan.NamedOneOf(p, i, HtmlScan.SKIPPED)
  {
    forall k | 0 <= k < |HtmlScan.SKIPPED| ensures !HtmlScan.Named(p, i, HtmlScan.SKIPPED[k]) {
      var w := HtmlScan.SKIPPED[k];
      assert |w| >= 2 && (w[0] != 'a' || w[1] == 'u');
      assert HtmlScan.Lower(At(p, i + 0)) as int == 97 && HtmlScan.Lower(At(p, i + 1)) as int != 117;
    }
  }

  /** The page has one link, whose text is a NUL and a "b". */
  lemma NulPage(anchors: HtmlScan.Anchors, cols: nat)
    requires anchors(NUL_PAGE, 1, 9).Some?
    ensures var s := HtmlScan.Pass(NUL_PAGE, 0, HtmlScan.Start(cols), anchors);
            s.rt.text == [0, 98] && |s.links| == 1 && s.links[0].start == 0 && s.links[0].end == 2
  {
    hide HtmlScan.EventAt, HtmlScan.Pass, HtmlScan.Step;
    NulPageTags(anchors);
    NulPageText(anchors);
    var s0 := HtmlScan.Start(cols);
    var s1 := HtmlScan.Step(s0, HtmlScan.OpenLink(anchors(NUL_PAGE, 1, 9)));
    var s2 := HtmlScan.Step(s1, HtmlScan.Emit(RenderedText.PutOp(0)));
    var s3 := HtmlScan.Step(s2, HtmlScan.Emit(RenderedText.PutOp(98)));
    var s4 := HtmlScan.Step(s3, HtmlScan.CloseLink);
    NulPageStates(cols, anchors(NUL_PAGE, 1, 9).value);
    HtmlScan.PassGoesOn(NUL_PAGE, 0, s0, anchors);
    HtmlScan.PassGoesOn(NUL_PAGE, 10, s1, anchors);
    HtmlScan.PassGoesOn(NUL_PAGE, 14, s2, anchors);
    HtmlScan.PassGoesOn(NUL_PAGE, 15, s3, anchors);
    HtmlScan.PassEnds(NUL_PAGE, s4, anchors);
  }

  lemma NulPageStates(cols: nat, url: seq<byte>)
    ensures var s1 := HtmlScan.Step(HtmlScan.Start(cols), HtmlScan.OpenLink(Some(url)));
            var s2 := HtmlScan.Step(s1, HtmlScan.Emit(RenderedText.PutOp(0)));
            var s3 := HtmlScan.Step(s2, HtmlScan.Emit(RenderedText.PutOp(98)));
            var s4 := HtmlScan.Step(s3, HtmlScan.CloseLink);
            && s1.skip == s2.skip == s3.skip == 0 && |s1.rt.text| == 0 && |s2.rt.text| == 1 && |s3.rt.text| == 2
            && s4.rt.text == [0, 98] && |s4.links| == 1 && s4.links[0].start == 0 && s4.links[0].end == 2
  {
  }

  lemma NulPageTags(anchors: HtmlScan.Anchors)
    ensures HtmlScan.EventAt(NUL_PAGE, 0, false, anchors) == (HtmlScan.OpenLink(anchors(NUL_PAGE, 1, 9)), 10)
    ensures HtmlScan.EventAt(NUL_PAGE, 15, false, anchors) == (HtmlScan.CloseLink, 19)
  {
    hide HtmlScan.Named, HtmlScan.NamedOneOf;
    PlainTagEnd(NUL_PAGE, 1, 9);
    PlainTagEnd(NUL_PAGE, 16, 18);
    AnchorName(NUL_PAGE, 1);
    AnchorName(NUL_PAGE, 17);
  }

  lemma NulPageText(anchors: HtmlScan.Anchors)
    ensures HtmlScan.EventAt(NUL_PAGE, 10, false, anchors) == (HtmlScan.Emit(RenderedText.PutOp(0)), 14)
    ensures HtmlScan.EventAt(NUL_PAGE, 14, false, anchors) == (HtmlScan.Emit(RenderedText.PutOp(98)), 15)
  {
    assert HtmlScan.Digits(NUL_PAGE, 12, 1, false, 0) == (1, 0);
    assert HtmlScan.Digits(NUL_PAGE, 12, 0, false, 0) == (1, 0);
  }

  /** In the six pixel rows between the toolbar and the first line no click follows anything, and whatever shows there is painted. */
  lemma TopMarginIsDead(t: seq<byte>, links: seq<PageLink>, scroll: nat, height: int, k: nat, mx: int, my: int)
    requires mx >= 6 && 64 <= my < 70 && my < height
    ensures Hit(t, links, scroll, mx, my) == None
    ensures Painted(PageRuns(t, links, 0, 0, scroll, height), k, mx, my)
       <==> 0 <= PixelRow(my, scroll) && CellShows(t, links, 0, PixelRow(my, scroll), k, mx, PixelLine(my, scroll))
  {
    hide PageRuns, Painted, CellShows, PixelRow, PixelLine;
    PageRunsCover(t, links, 0, 0, scroll, height, k, mx, my);
  }

  /** A linked "a" scrolled up by six pixels shows at (6, 66). */
  lemma TopMarginExample()
    ensures var t: seq<byte>, links := [97], [PageLink(0, 1, [104])];
            Painted(PageRuns(t, links, 0, 0, 6, 300), 0, 6, 66) && Hit(t, links, 6, 6, 66) == None
  {
    var t: seq<byte>, links := [97], [PageLink(0, 1, [104])];
    TopMarginIsDead(t, links, 6, 300, 0, 6, 66);
    assert LineEnd(t, 0) == 1;
    assert LinkHolds(links, 0, 0, ShownEnd(t, 0), 0);
  }

  /** Under the status bar nothing is seen, but clicks follow the links drawn beneath it. */
  lemma StatusBarHides(t: seq<byte>, links: seq<PageLink>, scroll: nat, height: int, k: nat, mx: int, my: int)
    requires mx >= 6 && 70 <= my < height && height - 21 <= my && k < |links|
    requires Disjoint(links) && (forall j :: 0 <= j < |links| ==> links[j].start <= links[j].end && links[j].url != [])
    ensures !Seen(PageRuns(t, links, 0, 0, scroll, height), k, height, mx, my)
    ensures Painted(PageRuns(t, links, 0, 0, scroll, height), k, mx, my) ==> Hit(t, links, scroll, mx, my) == Some(k)
  {
    hide PageRuns, Painted, ShownEnd, Hit, LineStart, InSight, Shows;
    PageRunsCover(t, links, 0, 0, scroll, height, k, mx, my);
    HitHolds(t, links, scroll, k, mx, my);
  }

  /** On a page that has to be scrolled, the status bar covers the whole last line at every scroll offset. */
  lemma LastLineNeverSeen(t: seq<byte>, scroll: int, height: int)
    requires 0 <= scroll <= MaxScroll(t, height) && MaxScroll(t, height) > 0
    ensures LineTop(Breaks(t, 0), scroll) >= height - 18 > height - 21
  {
  }

  /**
   * The two halves together: on any page the pass has rendered, at any width and scroll offset, a link is
   * seen at a pixel below the toolbar's margin exactly if a click there follows it and it is in sight.
   */
  lemma RenderedPageClicks(p: seq<byte>, cols: nat, anchors: HtmlScan.Anchors, links: seq<PageLink>,
                           scroll: nat, height: int, k: nat, mx: int, my: int)
    requires SameLinks(links, HtmlScan.Pass(p, 0, HtmlScan.Start(cols), anchors).links) && k < |links|
    requires forall j :: 0 <= j < |links| ==> links[j].url != []
    requires mx >= 6 && 70 <= my < height
    ensures var t := HtmlScan.Pass(p, 0, HtmlScan.Start(cols), anchors).rt.text;
            Seen(PageRuns(t, links, 0, 0, scroll, height), k, height, mx, my)
            <==> Hit(t, links, scroll, mx, my) == Some(k) && InSight(t, links, scroll, height, k, mx, my)
  {
    hide RenderedText.Glyphs, RenderedText.WellLaid, Hit, Painted, PageRuns, InSight;
    HtmlScan.EveryPage(p, cols, anchors);
    ClickFollowsPaintedLink(HtmlScan.Pass(p, 0, HtmlScan.Start(cols), anchors).rt.text, links, scroll, height, k, mx, my);
  }
}
