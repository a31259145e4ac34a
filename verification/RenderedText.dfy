/** The browser's word-wrapping text buffer, as operations on the text written so far. */
module RenderedText {
  import opened Bytes

  const SPACE: byte := 32
  const NEWLINE: byte := 10

  /** One less than this many bytes of text fit. */
  const TEXT_CAP: int := 1048576

  /**
   * The text, where the current line starts, the place of the last space that can still become a
   * line break (-1 for none), and the wrap width.
   */
  datatype Rt = Rt(text: seq<byte>, lineStart: nat, lastSpace: int, cols: nat)

  function Empty(cols: nat): Rt {
    Rt([], 0, -1, cols)
  }

  predicate IsBlank(c: byte) {
    c == SPACE || c == NEWLINE
  }

  predicate IsFull(r: Rt) {
    |r.text| + 1 >= 1048576
  }

  /** What every operation keeps, whatever is put: the remembered space is one. */
  predicate Sound(r: Rt) {
    && r.lineStart <= |r.text| < 1048576
    && (r.lastSpace == -1 || (0 <= r.lastSpace < |r.text| && r.text[r.lastSpace] == SPACE))
  }

  function Newline(r: Rt): (q: Rt)
    requires Sound(r)
    ensures Sound(q) && q.cols == r.cols
  {
    if |r.text| == 0 || IsFull(r) || r.text[|r.text| - 1] == NEWLINE then r
    else Rt(r.text + [NEWLINE], |r.text| + 1, -1, r.cols)
  }

  function Put(r: Rt, c: byte): (q: Rt)
    requires Sound(r)
    ensures Sound(q) && q.cols == r.cols
  {
    if IsFull(r) then r
    else Rewrap(r.text + [c], r.lineStart, r.lastSpace, r.cols)
  }

  /** The line break that appending may force: the last space of an over-long line becomes one. */
  function Rewrap(t: seq<byte>, lineStart: nat, lastSpace: int, cols: nat): Rt
    requires lastSpace < |t|
  {
    if |t| - lineStart > cols && lastSpace != -1 && lastSpace >= lineStart
    then Rt(t[lastSpace := NEWLINE], lastSpace + 1, -1, cols)
    else Rt(t, lineStart, lastSpace, cols)
  }

  function Space(r: Rt): (q: Rt)
    requires Sound(r)
    ensures Sound(q) && q.cols == r.cols
  {
    if |r.text| == 0 || IsFull(r) || IsBlank(r.text[|r.text| - 1]) then r
    else Rewrap(r.text + [SPACE], r.lineStart, |r.text|, r.cols)
  }

  // -------------------------------------------------------------------- layout

  ghost predicate IsLine(t: seq<byte>, a: int, b: int) {
    && 0 <= a <= b <= |t|
    && (a == 0 || t[a - 1] == NEWLINE) && (b == |t| || t[b] == NEWLINE)
    && forall k :: a <= k < b ==> t[k] != NEWLINE
  }

  ghost predicate LineFits(t: seq<byte>, a: int, b: int, cols: nat)
    requires 0 <= a <= b <= |t|
  {
    b - a <= cols || forall k :: a <= k < b ==> t[k] != SPACE
  }

  /** Every line fits the width or has no place to break. */
  ghost predicate LinesFit(t: seq<byte>, cols: nat) {
    forall a, b :: IsLine(t, a, b) ==> LineFits(t, a, b, cols)
  }

  ghost predicate SingleSpaces(t: seq<byte>) {
    forall k :: 0 < k < |t| && t[k] == SPACE ==> t[k - 1] != SPACE
  }

  /** No blank at the start, none after a line break, and no two spaces in a row. */
  ghost predicate NoIdleBlanks(t: seq<byte>) {
    && (t != [] ==> !IsBlank(t[0]))
    && (forall k :: 0 < k < |t| && IsBlank(t[k]) ==> t[k - 1] != NEWLINE)
    && SingleSpaces(t)
  }

  /**
   * What the buffer's own bookkeeping says about the text from `lineStart` on, which may hold newlines put
   * as characters: it fits the width or has no space, and no space stands behind the one remembered.
   */
  ghost predicate KnowsLine(r: Rt) {
    && Sound(r)
    && (r.lineStart == 0 || r.text[r.lineStart - 1] == NEWLINE)
    && (r.lastSpace == -1 || r.lineStart <= r.lastSpace)
    && (forall k :: r.lineStart <= k < |r.text| && r.text[k] == SPACE ==> k <= r.lastSpace)
    && LineFits(r.text, r.lineStart, |r.text|, r.cols)
  }

  ghost predicate WellLaid(r: Rt) {
    KnowsLine(r) && LinesFit(r.text, r.cols) && SingleSpaces(r.text)
  }

  lemma EmptyWellLaid(cols: nat)
    ensures WellLaid(Empty(cols)) && NoIdleBlanks(Empty(cols).text)
  {
  }

  lemma NewlineWellLaid(r: Rt)
    requires WellLaid(r)
    ensures WellLaid(Newline(r))
  {
    var q := Newline(r);
    if q != r {
      var n := |r.text|;
      assert forall k :: 0 <= k < n ==> q.text[k] == r.text[k];
      forall a, b | IsLine(q.text, a, b) ensures LineFits(q.text, a, b, q.cols) {
        assert q.text[n] == NEWLINE;
        if b <= n {
          assert IsLine(r.text, a, b);
          assert LineFits(r.text, a, b, r.cols);
        }
      }
    }
  }

  /** Appending `c`, when the line may still be broken at `space`, keeps every line fitting. */
  lemma AppendFits(t: seq<byte>, c: byte, ls: nat, space: int, cols: nat)
    requires LinesFit(t, cols) && ls <= |t| && (ls == 0 || t[ls - 1] == NEWLINE) && LineFits(t, ls, |t|, cols)
    requires space == -1 || ls <= space <= |t|
    requires forall k :: ls <= k < |t| && t[k] == SPACE ==> k <= space
    requires c == SPACE ==> space == |t|
    requires space != -1 ==> (t + [c])[space] == SPACE
    ensures var q := Rewrap(t + [c], ls, space, cols);
            && LinesFit(q.text, cols) && LineFits(q.text, q.lineStart, |q.text|, cols)
            && (q.lineStart == 0 || q.text[q.lineStart - 1] == NEWLINE)
  {
    var u := t + [c];
    var q := Rewrap(u, ls, space, cols);
    assert forall k :: 0 <= k < |t| ==> u[k] == t[k];
    assert forall k :: 0 <= k <= |t| && k != space ==> q.text[k] == u[k];
    forall a, b | IsLine(q.text, a, b) ensures LineFits(q.text, a, b, cols) {
      if b < ls {
        assert IsLine(t, a, b);
      } else if a < q.lineStart {
        LineInside(q.text, ls, space, a, b);
      }
    }
  }

  /** Once the line has been broken at `space`, a line that ends after `ls` and starts before that lies between. */
  lemma LineInside(v: seq<byte>, ls: int, space: int, a: int, b: int)
    requires 0 <= ls <= |v| && (ls == 0 || v[ls - 1] == NEWLINE) && IsLine(v, a, b) && ls <= b && a <= space
    requires 0 <= space < |v| && v[space] == NEWLINE
    ensures ls <= a && b <= space
  {
  }

  lemma SpaceWellLaid(r: Rt)
    requires WellLaid(r)
    ensures WellLaid(Space(r))
  {
    var q := Space(r);
    if q != r {
      AppendFits(r.text, SPACE, r.lineStart, |r.text|, r.cols);
    }
  }

  lemma PutWellLaid(r: Rt, c: byte)
    requires WellLaid(r) && c != SPACE
    ensures WellLaid(Put(r, c))
  {
    if !IsFull(r) {
      AppendFits(r.text, c, r.lineStart, r.lastSpace, r.cols);
    }
  }

  // -------------------------------------------------------------------- glyphs

  /** The text without its blanks. */
  function Glyphs(t: seq<byte>): (g: seq<byte>)
    ensures |g| <= |t|
  {
    if t == [] then []
    else Glyphs(t[..|t| - 1]) + (if IsBlank(t[|t| - 1]) then [] else [t[|t| - 1]])
  }

  /** The two texts differ at most in which blank stands at a blank place. */
  ghost predicate SameUpToBlanks(s: seq<byte>, t: seq<byte>) {
    |s| == |t| && forall k :: 0 <= k < |s| ==> s[k] == t[k] || (IsBlank(s[k]) && IsBlank(t[k]))
  }

  lemma {:induction false} SameGlyphs(s: seq<byte>, t: seq<byte>)
    requires SameUpToBlanks(s, t)
    ensures Glyphs(s) == Glyphs(t)
  {
    if s != [] {
      SameGlyphs(s[..|s| - 1], t[..|t| - 1]);
    }
  }

  lemma GlyphsAppend(t: seq<byte>, c: byte)
    ensures Glyphs(t + [c]) == Glyphs(t) + if IsBlank(c) then [] else [c]
  {
    assert (t + [c])[..|t|] == t;
  }

  lemma {:induction false} GlyphsConcat(s: seq<byte>, t: seq<byte>)
    ensures Glyphs(s + t) == Glyphs(s) + Glyphs(t)
    decreases |t|
  {
    if t == [] {
      assert s + t == s;
    } else {
      var front := t[..|t| - 1];
      assert s + t == (s + front) + [t[|t| - 1]] && t == front + [t[|t| - 1]];
      GlyphsConcat(s, front);
      GlyphsAppend(s + front, t[|t| - 1]);
      GlyphsAppend(front, t[|t| - 1]);
    }
  }

  /** `q` continues `r`: what was written stays, except that spaces may have become line breaks. */
  ghost predicate Continues(r: Rt, q: Rt) {
    |r.text| <= |q.text| && SameUpToBlanks(r.text, q.text[..|r.text|])
  }

  /** Whatever is done later, a prefix of the text keeps its glyphs. */
  lemma PrefixGlyphsStable(r: Rt, q: Rt, n: nat)
    requires Continues(r, q) && n <= |r.text|
    ensures Glyphs(q.text[..n]) == Glyphs(r.text[..n])
  {
    forall k | 0 <= k < n
      ensures r.text[..n][k] == q.text[..n][k] || (IsBlank(r.text[..n][k]) && IsBlank(q.text[..n][k]))
    {
      assert q.text[..|r.text|][k] == q.text[k];
    }
    SameGlyphs(r.text[..n], q.text[..n]);
  }

  lemma NewlineGlyphs(r: Rt)
    requires Sound(r)
    ensures Continues(r, Newline(r)) && Glyphs(Newline(r).text) == Glyphs(r.text)
  {
    GlyphsAppend(r.text, NEWLINE);
  }

  lemma RewrapGlyphs(t: seq<byte>, ls: nat, space: int, cols: nat)
    requires space == -1 || (0 <= space < |t| && IsBlank(t[space]))
    ensures SameUpToBlanks(t, Rewrap(t, ls, space, cols).text)
    ensures Glyphs(Rewrap(t, ls, space, cols).text) == Glyphs(t)
  {
    SameGlyphs(t, Rewrap(t, ls, space, cols).text);
  }

  lemma PutGlyphs(r: Rt, c: byte)
    requires Sound(r)
    ensures Continues(r, Put(r, c))
    ensures Glyphs(Put(r, c).text) == Glyphs(r.text) + if IsFull(r) || IsBlank(c) then [] else [c]
  {
    if !IsFull(r) {
      RewrapGlyphs(r.text + [c], r.lineStart, r.lastSpace, r.cols);
      GlyphsAppend(r.text, c);
    }
  }

  lemma SpaceGlyphs(r: Rt)
    requires Sound(r)
    ensures Continues(r, Space(r)) && Glyphs(Space(r).text) == Glyphs(r.text)
  {
    if Space(r) != r {
      RewrapGlyphs(r.text + [SPACE], r.lineStart, |r.text|, r.cols);
      GlyphsAppend(r.text, SPACE);
    }
  }

  // ----------------------------------------------------------- operation sequences

  datatype Op = NewlineOp | SpaceOp | PutOp(c: byte)

  function Do(r: Rt, op: Op): (q: Rt)
    requires Sound(r)
    ensures Sound(q) && q.cols == r.cols
  {
    match op
    case NewlineOp => Newline(r)
    case SpaceOp => Space(r)
    case PutOp(c) => Put(r, c)
  }

  function DoAll(r: Rt, ops: seq<Op>): (q: Rt)
    requires Sound(r)
    ensures Sound(q) && q.cols == r.cols
  {
    if ops == [] then r else Do(DoAll(r, ops[..|ops| - 1]), ops[|ops| - 1])
  }

  /** The characters a sequence of operations puts. */
  function PutChars(ops: seq<Op>): seq<byte> {
    if ops == [] then []
    else
      var op := ops[|ops| - 1];
      PutChars(ops[..|ops| - 1]) + (if op.PutOp? && !IsBlank(op.c) then [op.c] else [])
  }

  /** What the renderer keeps to: a space is never put as a character. */
  ghost predicate PutsNoSpace(ops: seq<Op>) {
    forall k :: 0 <= k < |ops| ==> ops[k] != PutOp(SPACE)
  }

  lemma DoWellLaid(r: Rt, op: Op)
    requires WellLaid(r) && op != PutOp(SPACE)
    ensures WellLaid(Do(r, op))
  {
    match op
    case NewlineOp => NewlineWellLaid(r);
    case SpaceOp => SpaceWellLaid(r);
    case PutOp(c) => PutWellLaid(r, c);
  }

  /** After any operations, newlines put as characters included, every line fits or has no place to break. */
  lemma {:induction false} AnySequenceWellLaid(cols: nat, ops: seq<Op>)
    requires PutsNoSpace(ops)
    ensures WellLaid(DoAll(Empty(cols), ops)) && LinesFit(DoAll(Empty(cols), ops).text, cols)
  {
    if ops == [] {
      EmptyWellLaid(cols);
    } else {
      AnySequenceWellLaid(cols, ops[..|ops| - 1]);
      DoWellLaid(DoAll(Empty(cols), ops[..|ops| - 1]), ops[|ops| - 1]);
    }
  }

  // ---------------------------------------------------------------- idle blanks

  /** Appending one character makes the line too long, and there is a space to break it at. */
  predicate Overflows(r: Rt) {
    |r.text| + 1 - r.lineStart > r.cols && r.lastSpace != -1 && r.lastSpace >= r.lineStart
  }

  /**
   * A newline is put at the start of the text or behind a line break; or a character is put that makes the
   * line break at a space a newline had been put behind, if it is not that newline itself.
   */
  predicate LeavesIdle(r: Rt, op: Op)
    requires Sound(r)
  {
    op.PutOp? && !IsFull(r) &&
    (|| (op.c == NEWLINE && (r.text == [] || r.text[|r.text| - 1] == NEWLINE))
     || (Overflows(r) && (r.text + [op.c])[r.lastSpace + 1] == NEWLINE))
  }

  /** One operation leaves no idle blank if and only if there was none and it is not of that kind. */
  lemma IdleStep(r: Rt, op: Op)
    requires WellLaid(r) && op != PutOp(SPACE)
    ensures NoIdleBlanks(Do(r, op).text) <==> NoIdleBlanks(r.text) && !LeavesIdle(r, op)
  {
    hide WellLaid, NoIdleBlanks, LeavesIdle;
    LaidIsSound(r);
    DoWellLaid(r, op);
    if op.PutOp? && !IsFull(r) {
      PutIdle(r, op.c);
    } else {
      OtherIdle(r, op);
    }
  }

  lemma LaidIsSound(r: Rt)
    requires WellLaid(r)
    ensures Sound(r) && SingleSpaces(r.text)
  {
  }

  lemma PutIdle(r: Rt, c: byte)
    requires Sound(r) && SingleSpaces(r.text) && SingleSpaces(Put(r, c).text) && c != SPACE && !IsFull(r)
    ensures NoIdleBlanks(Put(r, c).text) <==> NoIdleBlanks(r.text) && !LeavesIdle(r, PutOp(c))
  {
    var t, u := r.text, Put(r, c).text;
    assert forall k :: 0 <= k < |t| ==> u[k] == t[k] || (t[k] == SPACE && u[k] == NEWLINE);
    if !NoIdleBlanks(t) {
      IdleStays(t, u);
    } else if LeavesIdle(r, PutOp(c)) {
      if Overflows(r) && (t + [c])[r.lastSpace + 1] == NEWLINE {
        assert u[r.lastSpace] == NEWLINE && u[r.lastSpace + 1] == NEWLINE;
      } else {
        assert u[|t|] == NEWLINE;
      }
    }
  }

  lemma OtherIdle(r: Rt, op: Op)
    requires Sound(r) && SingleSpaces(r.text) && SingleSpaces(Do(r, op).text) && (op.PutOp? ==> IsFull(r))
    ensures !LeavesIdle(r, op) && (NoIdleBlanks(Do(r, op).text) <==> NoIdleBlanks(r.text))
  {
    var t, u := r.text, Do(r, op).text;
    if u != t {
      assert |u| == |t| + 1 && forall k :: 0 <= k < |t| ==> u[k] == t[k];
      if !NoIdleBlanks(t) {
        IdleStays(t, u);
      }
    }
  }

  /** In particular a newline put at the start of the text or behind a line break is one. */
  lemma PutNewlineIsIdle(r: Rt)
    requires WellLaid(r) && !IsFull(r) && (r.text == [] || r.text[|r.text| - 1] == NEWLINE)
    ensures !NoIdleBlanks(Put(r, NEWLINE).text)
  {
    IdleStep(r, PutOp(NEWLINE));
  }

  lemma IdleStays(t: seq<byte>, u: seq<byte>)
    requires SingleSpaces(t) && !NoIdleBlanks(t) && |t| <= |u|
    requires forall k :: 0 <= k < |t| ==> u[k] == t[k] || (t[k] == SPACE && u[k] == NEWLINE)
    ensures !NoIdleBlanks(u)
  {
    if IsBlank(t[0]) {
      assert IsBlank(u[0]);
    } else {
      var k :| 0 < k < |t| && IsBlank(t[k]) && t[k - 1] == NEWLINE;
      assert IsBlank(u[k]) && u[k - 1] == NEWLINE;
    }
  }

  predicate NeverLeavesIdle(cols: nat, ops: seq<Op>)
    decreases |ops|
  {
    ops == [] ||
    (var n := |ops| - 1; NeverLeavesIdle(cols, ops[..n]) && !LeavesIdle(DoAll(Empty(cols), ops[..n]), ops[n]))
  }

  /** The text has no idle blank if and only if no operation on the way was of that kind. */
  lemma {:induction false} NoIdleBlanksIff(cols: nat, ops: seq<Op>)
    requires PutsNoSpace(ops)
    ensures NoIdleBlanks(DoAll(Empty(cols), ops).text) <==> NeverLeavesIdle(cols, ops)
  {
    if ops == [] {
      EmptyWellLaid(cols);
    } else {
      var n := |ops| - 1;
      NoIdleBlanksIff(cols, ops[..n]);
      AnySequenceWellLaid(cols, ops[..n]);
      IdleStep(DoAll(Empty(cols), ops[..n]), ops[n]);
    }
  }

  /** No newline stands in the current line. */
  ghost predicate LineUnbroken(r: Rt)
    requires Sound(r)
  {
    forall k :: r.lineStart <= k < |r.text| ==> r.text[k] != NEWLINE
  }

  ghost predicate PutsNoBlank(ops: seq<Op>) {
    forall k :: 0 <= k < |ops| && ops[k].PutOp? ==> !IsBlank(ops[k].c)
  }

  /** Without newlines put as characters none is, and the text has no idle blank. */
  lemma {:induction false} PutsNoBlankNeverIdle(cols: nat, ops: seq<Op>)
    requires PutsNoBlank(ops)
    ensures LineUnbroken(DoAll(Empty(cols), ops)) && NeverLeavesIdle(cols, ops)
    ensures NoIdleBlanks(DoAll(Empty(cols), ops).text)
    decreases |ops|
  {
    NoIdleBlanksIff(cols, ops);
    if ops != [] {
      PutsNoBlankNeverIdle(cols, ops[..|ops| - 1]);
    }
  }

  lemma DoThen(cols: nat, ops: seq<Op>, op: Op)
    ensures var r := DoAll(Empty(cols), ops);
            && DoAll(Empty(cols), ops + [op]) == Do(r, op)
            && (NeverLeavesIdle(cols, ops + [op]) <==> NeverLeavesIdle(cols, ops) && !LeavesIdle(r, op))
  {
    assert (ops + [op])[..|ops|] == ops;
  }

  lemma LateStates()
    ensures Do(Empty(3), PutOp(97)) == Rt([97], 0, -1, 3) && Do(Rt([97], 0, -1, 3), SpaceOp) == Rt([97, 32], 0, 1, 3)
    ensures Do(Rt([97, 32], 0, 1, 3), PutOp(NEWLINE)) == Rt([97, 32, 10], 0, 1, 3)
    ensures Do(Rt([97, 32, 10], 0, 1, 3), PutOp(98)).text == [97, 10, 10, 98]
  {
  }

  lemma LateIdle()
    ensures !LeavesIdle(Empty(3), PutOp(97)) && !LeavesIdle(Rt([97], 0, -1, 3), SpaceOp)
    ensures !LeavesIdle(Rt([97, 32], 0, 1, 3), PutOp(NEWLINE)) && LeavesIdle(Rt([97, 32, 10], 0, 1, 3), PutOp(98))
  {
  }

  /** At three columns a newline put behind a space is one line break too many as soon as the line breaks there. */
  lemma LateBreakIsIdle()
    ensures var ops := [PutOp(97), SpaceOp, PutOp(NEWLINE)];
            && NeverLeavesIdle(3, ops) && !NeverLeavesIdle(3, ops + [PutOp(98)])
            && DoAll(Empty(3), ops + [PutOp(98)]).text == [97, 10, 10, 98]
  {
    hide DoAll, NeverLeavesIdle, Do, LeavesIdle;
    var o0: seq<Op> := [];
    var o1, o2, o3 := o0 + [PutOp(97)], o0 + [PutOp(97)] + [SpaceOp], o0 + [PutOp(97)] + [SpaceOp] + [PutOp(NEWLINE)];
    LateStates();
    LateIdle();
    NothingDone(3);
    DoThen(3, o0, PutOp(97));
    DoThen(3, o1, SpaceOp);
    DoThen(3, o2, PutOp(NEWLINE));
    DoThen(3, o3, PutOp(98));
    assert o3 == [PutOp(97), SpaceOp, PutOp(NEWLINE)];
  }

  lemma NothingDone(cols: nat)
    ensures DoAll(Empty(cols), []) == Empty(cols) && NeverLeavesIdle(cols, [])
  {
  }

  lemma DoGlyphs(r: Rt, op: Op)
    requires Sound(r)
    ensures Continues(r, Do(r, op)) && |Do(r, op).text| <= |r.text| + 1
    ensures Glyphs(Do(r, op).text)
         == Glyphs(r.text) + if op.PutOp? && !IsFull(r) && !IsBlank(op.c) then [op.c] else []
  {
    match op
    case NewlineOp => NewlineGlyphs(r);
    case SpaceOp => SpaceGlyphs(r);
    case PutOp(c) => PutGlyphs(r, c);
  }

  /**
   * The glyphs of the text are the characters put, all of them until the buffer is full and always a
   * prefix: they do not depend on the width.
   */
  lemma {:induction false} GlyphsArePutChars(cols: nat, ops: seq<Op>)
    ensures var r := DoAll(Empty(cols), ops);
            Glyphs(r.text) <= PutChars(ops) && (!IsFull(r) ==> Glyphs(r.text) == PutChars(ops))
  {
    if ops != [] {
      GlyphsArePutChars(cols, ops[..|ops| - 1]);
      DoGlyphs(DoAll(Empty(cols), ops[..|ops| - 1]), ops[|ops| - 1]);
    }
  }

  /** As long as neither buffer is full, two widths show the same glyphs. */
  lemma WidthDoesNotMatter(cols: nat, other: nat, ops: seq<Op>)
    requires !IsFull(DoAll(Empty(cols), ops)) && !IsFull(DoAll(Empty(other), ops))
    ensures Glyphs(DoAll(Empty(cols), ops).text) == Glyphs(DoAll(Empty(other), ops).text)
  {
    GlyphsArePutChars(cols, ops);
    GlyphsArePutChars(other, ops);
  }
  // ---------------------------------------------------------------------- words

  /** The words of a text, which blanks of either kind separate, and the one still open at its end. */
  datatype Reading = Reading(words: seq<seq<byte>>, open: seq<byte>)

  function ReadBlank(r: Reading): Reading {
    if r.open == [] then r else Reading(r.words + [r.open], [])
  }

  function ReadChar(r: Reading, c: byte): Reading {
    if IsBlank(c) then ReadBlank(r) else Reading(r.words, r.open + [c])
  }

  function ReadText(t: seq<byte>): Reading
    decreases |t|
  {
    if t == [] then Reading([], []) else ReadChar(ReadText(t[..|t| - 1]), t[|t| - 1])
  }

  /** The words the operations spell: what is put makes them, and a space or newline asked for ends them. */
  function ReadOps(ops: seq<Op>): Reading
    decreases |ops|
  {
    if ops == [] then Reading([], [])
    else
      var r := ReadOps(ops[..|ops| - 1]);
      match ops[|ops| - 1]
      case PutOp(c) => ReadChar(r, c)
      case _ => ReadBlank(r)
  }

  lemma {:induction false} SameReading(s: seq<byte>, t: seq<byte>)
    requires SameUpToBlanks(s, t)
    ensures ReadText(s) == ReadText(t)
    decreases |s|
  {
    if s != [] {
      SameReading(s[..|s| - 1], t[..|t| - 1]);
    }
  }

  lemma ReadMore(t: seq<byte>, c: byte)
    ensures ReadText(t + [c]) == ReadChar(ReadText(t), c)
  {
    assert (t + [c])[..|t|] == t;
  }

  lemma BlankBehindBlank(t: seq<byte>)
    requires t == [] || IsBlank(t[|t| - 1])
    ensures ReadBlank(ReadText(t)) == ReadText(t)
  {
  }

  lemma DoReads(r: Rt, op: Op)
    requires Sound(r) && !IsFull(r)
    ensures ReadText(Do(r, op).text)
         == match op case PutOp(c) => ReadChar(ReadText(r.text), c) case _ => ReadBlank(ReadText(r.text))
  {
    hide ReadText;
    match op
    case PutOp(c) =>
      ReadMore(r.text, c);
      RewrapGlyphs(r.text + [c], r.lineStart, r.lastSpace, r.cols);
      SameReading(r.text + [c], Put(r, c).text);
    case SpaceOp =>
      if Space(r) == r {
        BlankBehindBlank(r.text);
      } else {
        ReadMore(r.text, SPACE);
        RewrapGlyphs(r.text + [SPACE], r.lineStart, |r.text|, r.cols);
        SameReading(r.text + [SPACE], Space(r).text);
      }
    case NewlineOp =>
      if Newline(r) == r {
        BlankBehindBlank(r.text);
      } else {
        ReadMore(r.text, NEWLINE);
      }
  }

  lemma StaysFull(r: Rt, op: Op)
    requires Sound(r) && IsFull(r)
    ensures IsFull(Do(r, op))
  {
  }

  /** At every width, until the buffer is full, the words of the text are the words asked for. */
  lemma {:induction false} WordsAreKept(cols: nat, ops: seq<Op>)
    requires !IsFull(DoAll(Empty(cols), ops))
    ensures ReadText(DoAll(Empty(cols), ops).text) == ReadOps(ops)
    decreases |ops|
  {
    if ops != [] {
      var before, op := DoAll(Empty(cols), ops[..|ops| - 1]), ops[|ops| - 1];
      if IsFull(before) {
        StaysFull(before, op);
        assert false;
      }
      WordsAreKept(cols, ops[..|ops| - 1]);
      DoReads(before, op);
    }
  }

  /** A newline asked for ends the line, and no line break is ever taken back. */
  lemma NewlineBreaks(r: Rt)
    requires Sound(r) && !IsFull(r)
    ensures Newline(r).text == [] || Newline(r).text[|Newline(r).text| - 1] == NEWLINE
    ensures r.text <= Newline(r).text && |Newline(r).text| <= |r.text| + 1
  {
  }

  lemma BreaksStay(r: Rt, op: Op)
    requires Sound(r)
    ensures |r.text| <= |Do(r, op).text|
    ensures forall k :: 0 <= k < |r.text| && r.text[k] == NEWLINE ==> Do(r, op).text[k] == NEWLINE
  {
  }
}
