/**
 * The browser's one pass over a page: what each piece of markup means, and what the pass leaves in the
 * text buffer and the link table.
 */
module HtmlScan {
  import opened Bytes
  import opened RenderedText
  import Utf8

  const MAX_LINKS: int := 256

  /** What the pass does on account of one piece of the page. */
  datatype Event =
    | Quiet
    | SkipIn
    | SkipOut
    | OpenLink(url: Option<seq<byte>>)
    | CloseLink
    | BlockBreak
    | Emit(op: Op)

  /**
   * Reads the target of an anchor from its tag's byte range: None when the anchor has no usable href,
   * else the resolved address.
   */
  type Anchors = (seq<byte>, nat, nat) -> Option<seq<byte>>

  // ------------------------------------------------------------------ characters

  function Lower(c: byte): byte {
    if 65 <= c <= 90 then c + 32 else c
  }

  predicate IsLetter(c: byte) {
    97 <= c <= 122 || 65 <= c <= 90
  }

  predicate HasPrefix(p: seq<byte>, i: nat, w: string) {
    forall k :: 0 <= k < |w| ==> At(p, i + k) as int == w[k] as int
  }

  /** The tag name at `i` is `w`, in either case, and ends there. */
  predicate Named(p: seq<byte>, i: nat, w: string) {
    var e := At(p, i + |w|);
    && (forall k :: 0 <= k < |w| ==> Lower(At(p, i + k)) as int == w[k] as int)
    && (e == 0 || e == 62 || e == 47 || e == 32 || e == 9 || e == 10 || e == 13)
  }

  predicate NamedOneOf(p: seq<byte>, i: nat, ws: seq<string>) {
    exists k :: 0 <= k < |ws| && Named(p, i, ws[k])
  }

  const SKIPPED: seq<string> :=
    ["script", "style", "svg", "head", "iframe", "template", "canvas", "video", "audio", "object",
     "select", "button", "input", "textarea", "link", "meta", "title", "!doctype"]

  const VOID: seq<string> := ["meta", "link", "input", "!doctype"]

  const BLOCKS: seq<string> :=
    ["p", "div", "br", "li", "ul", "ol", "tr", "td", "th", "table", "hr", "form", "section", "article",
     "header", "footer", "nav", "main", "aside", "blockquote", "pre", "figure", "figcaption", "dl", "dt", "dd"]

  predicate IsBlock(p: seq<byte>, i: nat) {
    if Lower(At(p, i)) == 104 && 49 <= At(p, i + 1) <= 54 then
      var e := At(p, i + 2);
      e == 0 || e == 62 || e == 47 || e == 32
    else NamedOneOf(p, i, BLOCKS)
  }

  // ------------------------------------------------------------------------ tags

  predicate TagOpens(p: seq<byte>, i: nat)
    requires i < |p|
  {
    p[i] == 60 && i + 1 < |p| && (IsLetter(p[i + 1]) || p[i + 1] == 47 || p[i + 1] == 33)
  }

  predicate CommentOpens(p: seq<byte>, i: nat)
    requires i + 1 < |p|
  {
    p[i + 1] == 33 && i + 3 < |p| && p[i + 2] == 45 && p[i + 3] == 45
  }

  predicate CommentCloses(p: seq<byte>, j: nat)
    requires j + 2 < |p|
  {
    p[j] == 45 && p[j + 1] == 45 && p[j + 2] == 62
  }

  /** The index behind the comment that is still open at `j`; the end of the page if it never closes. */
  function CommentEnd(p: seq<byte>, j: nat): (e: nat)
    requires j <= |p|
    ensures j <= e <= |p|
    decreases |p| - j
  {
    if j + 2 < |p| && !CommentCloses(p, j) then CommentEnd(p, j + 1)
    else if j + 3 > |p| then |p| else j + 3
  }

  /** That is behind the first "-->" at or after `j`. */
  lemma {:induction false} CommentEndIsFirst(p: seq<byte>, j: nat)
    requires j <= |p|
    ensures var e := CommentEnd(p, j);
            || (j + 3 <= e && CommentCloses(p, e - 3) && forall k: nat :: j <= k < e - 3 ==> !CommentCloses(p, k))
            || (e == |p| && forall k: nat :: j <= k && k + 2 < |p| ==> !CommentCloses(p, k))
    decreases |p| - j
  {
    if j + 2 < |p| && !CommentCloses(p, j) {
      CommentEndIsFirst(p, j + 1);
    }
  }

  /** Where the tag ends: the first '>' outside quotes, or the end of the page. */
  function TagEnd(p: seq<byte>, j: nat, quote: byte): (e: nat)
    requires j <= |p|
    ensures j <= e <= |p|
    decreases |p| - j
  {
    if j == |p| then j
    else if quote != 0 then TagEnd(p, j + 1, if p[j] == quote then 0 else quote)
    else if p[j] == 34 || p[j] == 39 then TagEnd(p, j + 1, p[j])
    else if p[j] == 62 then j
    else TagEnd(p, j + 1, 0)
  }

  /** The quote the bytes of [j, k) leave open, 0 for none. */
  function OpenQuote(p: seq<byte>, j: nat, k: nat): byte
    requires j <= k <= |p|
    decreases k
  {
    if k == j then 0
    else
      var q, c := OpenQuote(p, j, k - 1), p[k - 1];
      if q != 0 then if c == q then 0 else q
      else if c == 34 || c == 39 then c
      else 0
  }

  predicate Closes(p: seq<byte>, j: nat, k: nat)
    requires j <= k < |p|
  {
    p[k] == 62 && OpenQuote(p, j, k) == 0
  }

  /** The '>' that ends a tag is the first one no quote is open at; without one the tag runs to the page's end. */
  lemma TagEndIsFirst(p: seq<byte>, j: nat)
    requires j <= |p|
    ensures var e := TagEnd(p, j, 0);
            (e < |p| ==> Closes(p, j, e)) && forall k :: j <= k < e ==> !Closes(p, j, k)
  {
    TagEndFrom(p, j, j);
  }

  lemma {:induction false} TagEndFrom(p: seq<byte>, j: nat, k: nat)
    requires j <= k <= |p|
    ensures var e := TagEnd(p, k, OpenQuote(p, j, k));
            (e < |p| ==> Closes(p, j, e)) && forall m :: k <= m < e ==> !Closes(p, j, m)
    decreases |p| - k
  {
    if k < |p| {
      TagEndFrom(p, j, k + 1);
    }
  }

  function TagEvent(p: seq<byte>, ts: nat, te: nat, closing: bool, skipping: bool, anchors: Anchors): Event {
    if NamedOneOf(p, ts, SKIPPED) then
      if closing then SkipOut else if NamedOneOf(p, ts, VOID) then Quiet else SkipIn
    else if skipping then Quiet
    else if Named(p, ts, "a") then if closing then CloseLink else OpenLink(anchors(p, ts, te))
    else if IsBlock(p, ts) then BlockBreak
    else Quiet
  }

  // -------------------------------------------------------------------- entities

  /** The value of a digit, or -1. */
  function DigitValue(d: byte, hex: bool): int {
    if 48 <= d <= 57 then d - 48
    else if hex && 97 <= d <= 102 then d as int - 87
    else if hex && 65 <= d <= 70 then d as int - 55
    else -1
  }

  /** The digits read from `j + k` on, at most eight in all: how many, and the value with them. */
  function Digits(p: seq<byte>, j: nat, k: nat, hex: bool, v: nat): (r: (nat, nat))
    ensures k <= r.0 && (k <= 8 ==> r.0 <= 8) && (j + k <= |p| ==> j + r.0 <= |p|)
    decreases 8 - k
  {
    if j + k < |p| && k < 8 && DigitValue(p[j + k], hex) >= 0
    then Digits(p, j, k + 1, hex, v * (if hex then 16 else 10) + DigitValue(p[j + k], hex))
    else (k, v)
  }

  /** The character a reference that starts at `i` stands for and the index behind it. */
  function Entity(p: seq<byte>, i: nat): (r: Option<(nat, nat)>)
    requires i < |p| && p[i] == 38
    ensures r.Some? ==> i < r.value.1 <= |p|
  {
    if i + 1 < |p| && p[i + 1] == 35 then
      var hex := i + 2 < |p| && (p[i + 2] == 120 || p[i + 2] == 88);
      var j := if hex then i + 3 else i + 2;
      var (k, v) := Digits(p, j, 0, hex, 0);
      if k == 0 then None
      else if j + k < |p| && p[j + k] == 59 then Some((v, j + k + 1))
      else Some((v, j + k))
    else
      NamedEntity(p, i, "&amp;", 38, NamedEntity(p, i, "&lt;", 60, NamedEntity(p, i, "&gt;", 62,
        NamedEntity(p, i, "&quot;", 34, NamedEntity(p, i, "&apos;", 39, NamedEntity(p, i, "&nbsp;", 160, None))))))
  }

  function NamedEntity(p: seq<byte>, i: nat, w: string, cp: nat, otherwise: Option<(nat, nat)>): (r: Option<(nat, nat)>)
    requires i < |p| && |w| > 0 && forall k :: 0 <= k < |w| ==> w[k] as int != 0
    ensures r == otherwise || (r == Some((cp, i + |w|)) && i + |w| <= |p|)
  {
    if HasPrefix(p, i, w) then
      assert At(p, i + (|w| - 1)) as int == w[|w| - 1] as int != 0;
      Some((cp, i + |w|))
    else otherwise
  }

  /** What the 8x16 font can show of a code point: nothing, a blank, or an ASCII character. */
  function CodePointEvent(cp: nat): Event {
    if cp == 0x2013 || cp == 0x2014 then Emit(PutOp(45))
    else if cp == 0x2018 || cp == 0x2019 then Emit(PutOp(39))
    else if cp == 0x201C || cp == 0x201D then Emit(PutOp(34))
    else if cp == 0x2026 then Emit(PutOp(46))
    else if cp == 0x00A0 || cp == 32 then Emit(SpaceOp)
    else if cp >= 0x80 then Quiet
    else Emit(PutOp(cp))
  }

  // ------------------------------------------------------------------------ scan

  /** What the piece of the page at `i` means, and where the next piece starts. */
  function EventAt(p: seq<byte>, i: nat, skipping: bool, anchors: Anchors): (r: (Event, nat))
    requires i < |p|
    ensures i < r.1 <= |p|
  {
    var c := p[i];
    if TagOpens(p, i) then
      if CommentOpens(p, i) then (Quiet, CommentEnd(p, i + 4))
      else
        var closing := p[i + 1] == 47;
        var te := TagEnd(p, i + 1, 0);
        (TagEvent(p, if closing then i + 2 else i + 1, te, closing, skipping, anchors), if te < |p| then te + 1 else |p|)
    else if skipping then (Quiet, i + 1)
    else if c == 38 then
      match Entity(p, i)
      case Some((cp, j)) => (CodePointEvent(cp), j)
      case None => (Emit(PutOp(38)), i + 1)
    else if c == 32 || c == 9 || c == 13 || c == 10 then (Emit(SpaceOp), i + 1)
    else if c >= 0x80 then
      var (cp, adv) := Utf8.RtStep(p[i..]);
      (if cp == 0 then Quiet else CodePointEvent(cp), i + adv)
    else (Emit(PutOp(c)), i + 1)
  }

  /** A link's byte range in the text, its address, and how many glyphs had been emitted at its ends. */
  datatype Link = Link(start: nat, end: nat, url: seq<byte>, logStart: nat, logEnd: nat)

  /**
   * The pass between two pieces of the page. `log` is every glyph emitted so far, `ops` every operation on
   * the text. `cur` is the open link, -1 for none, -2 for one without address.
   */
  datatype Scan = Scan(rt: Rt, skip: nat, cur: int, links: seq<Link>, log: seq<byte>, ops: seq<Op>)

  function Start(cols: nat): Scan {
    Scan(Empty(cols), 0, -1, [], [], [])
  }

  function Step(s: Scan, e: Event): (t: Scan)
    requires Sound(s.rt) && s.cur < |s.links|
    ensures Sound(t.rt) && t.cur < |t.links| && t.rt.cols == s.rt.cols
  {
    match e
    case Quiet => s
    case SkipIn => s.(skip := s.skip + 1)
    case SkipOut => s.(skip := if s.skip > 0 then s.skip - 1 else 0)
    case OpenLink(url) =>
      if url.Some? && |s.links| < 256 then
        s.(links := s.links + [Link(|s.rt.text|, |s.rt.text|, url.value, |s.log|, |s.log|)], cur := |s.links|)
      else s.(cur := -2)
    case CloseLink =>
      if s.cur >= 0 then
        s.(links := s.links[s.cur := s.links[s.cur].(end := |s.rt.text|, logEnd := |s.log|)], cur := -1)
      else s.(cur := -1)
    case BlockBreak => s.(rt := Newline(s.rt), ops := s.ops + [NewlineOp])
    case Emit(op) =>
      s.(rt := Do(s.rt, op),
         log := s.log + (if op.PutOp? && !IsFull(s.rt) && !IsBlank(op.c) then [op.c] else []),
         ops := s.ops + [op])
  }

  /** The whole pass from index `i` on: piece after piece, until the page or the buffer ends. */
  function Pass(p: seq<byte>, i: nat, s: Scan, anchors: Anchors): (t: Scan)
    requires i <= |p| && Sound(s.rt) && s.cur < |s.links|
    ensures Sound(t.rt) && t.cur < |t.links| && t.rt.cols == s.rt.cols
    decreases |p| - i
  {
    if i == |p| || IsFull(s.rt) then s
    else var (e, j) := EventAt(p, i, s.skip > 0, anchors); Pass(p, j, Step(s, e), anchors)
  }

  lemma PassGoesOn(p: seq<byte>, i: nat, s: Scan, anchors: Anchors)
    requires i < |p| && Sound(s.rt) && s.cur < |s.links| && !IsFull(s.rt)
    ensures var (e, j) := EventAt(p, i, s.skip > 0, anchors); Pass(p, i, s, anchors) == Pass(p, j, Step(s, e), anchors)
  {
    hide EventAt, Step;
  }

  lemma PassEnds(p: seq<byte>, s: Scan, anchors: Anchors)
    requires Sound(s.rt) && s.cur < |s.links|
    ensures Pass(p, |p|, s, anchors) == s
  {
  }

  // ----------------------------------------------------------------- what is kept

  ghost predicate RangeOk(s: Scan, l: Link) {
    && l.start <= l.end <= |s.rt.text| && l.logStart <= l.logEnd <= |s.log|
    && Glyphs(s.rt.text[..l.start]) == s.log[..l.logStart]
    && Glyphs(s.rt.text[..l.end]) == s.log[..l.logEnd]
  }

  /**
   * The glyphs of the text are those emitted; the link ranges lie in the text, in order and without
   * overlap, and each end cuts the text exactly where the glyphs emitted before it end.
   */
  ghost predicate Kept(s: Scan) {
    && Sound(s.rt) && s.cur < |s.links| && (s.cur >= 0 ==> s.cur == |s.links| - 1)
    && |s.links| <= 256
    && Glyphs(s.rt.text) == s.log
    && (forall k :: 0 <= k < |s.links| ==> RangeOk(s, s.links[k]))
    && (forall j, k :: 0 <= j < k < |s.links| ==> s.links[j].end <= s.links[k].start)
  }

  lemma TextEventKept(s: Scan, t: Scan)
    requires Kept(s) && Sound(t.rt) && t.links == s.links && t.cur == s.cur
    requires Continues(s.rt, t.rt) && s.log <= t.log && Glyphs(t.rt.text) == t.log
    ensures Kept(t)
  {
    forall k | 0 <= k < |t.links| ensures RangeOk(t, t.links[k]) {
      var l := s.links[k];
      assert RangeOk(s, l);
      PrefixGlyphsStable(s.rt, t.rt, l.start);
      PrefixGlyphsStable(s.rt, t.rt, l.end);
      assert t.log[..l.logStart] == s.log[..l.logStart] && t.log[..l.logEnd] == s.log[..l.logEnd];
    }
  }

  lemma OpenLinkKept(s: Scan, url: Option<seq<byte>>)
    requires Kept(s)
    ensures Kept(Step(s, OpenLink(url)))
  {
    hide Glyphs;
    var t := Step(s, OpenLink(url));
    var n := |s.rt.text|;
    assert s.rt.text[..n] == s.rt.text && s.log[..|s.log|] == s.log;
    forall k | 0 <= k < |t.links| ensures RangeOk(t, t.links[k]) {
      if k < |s.links| {
        assert RangeOk(s, s.links[k]);
      }
    }
    forall j, k | 0 <= j < k < |t.links| ensures t.links[j].end <= t.links[k].start {
      assert RangeOk(s, s.links[j]);
    }
  }

  lemma CloseLinkKept(s: Scan)
    requires Kept(s)
    ensures Kept(Step(s, CloseLink))
  {
    hide Glyphs;
    var t := Step(s, CloseLink);
    assert s.rt.text[..|s.rt.text|] == s.rt.text && s.log[..|s.log|] == s.log;
    forall k | 0 <= k < |t.links| ensures RangeOk(t, t.links[k]) {
      assert RangeOk(s, s.links[k]);
    }
  }

  lemma StepKept(s: Scan, e: Event)
    requires Kept(s)
    ensures Kept(Step(s, e))
  {
    hide Glyphs;
    match e
    case Quiet =>
    case SkipIn =>
    case SkipOut =>
    case OpenLink(url) => OpenLinkKept(s, url);
    case CloseLink => CloseLinkKept(s);
    case BlockBreak =>
      NewlineGlyphs(s.rt);
      TextEventKept(s, Step(s, e));
    case Emit(op) =>
      DoGlyphs(s.rt, op);
      TextEventKept(s, Step(s, e));
  }

  lemma KeptBasics(s: Scan)
    requires Kept(s)
    ensures Sound(s.rt) && s.cur < |s.links|
  {
  }

  lemma {:induction false} PassKept(p: seq<byte>, i: nat, s: Scan, anchors: Anchors)
    requires i <= |p| && Kept(s)
    ensures Kept(Pass(p, i, s, anchors))
    decreases |p| - i
  {
    hide Kept, EventAt, Step;
    KeptBasics(s);
    if i < |p| && !IsFull(s.rt) {
      var (e, j) := EventAt(p, i, s.skip > 0, anchors);
      StepKept(s, e);
      PassKept(p, j, Step(s, e), anchors);
    }
  }

  /** The text between a link's ends shows exactly the glyphs emitted while it was open. */
  lemma RangeShowsGlyphs(s: Scan, l: Link)
    requires RangeOk(s, l)
    ensures Glyphs(s.rt.text[l.start..l.end]) == s.log[l.logStart..l.logEnd]
  {
    var t := s.rt.text;
    assert t[..l.end] == t[..l.start] + t[l.start..l.end];
    GlyphsConcat(t[..l.start], t[l.start..l.end]);
    assert s.log[..l.logEnd] == s.log[..l.logStart] + s.log[l.logStart..l.logEnd];
  }

  // ------------------------------------------------------------ the text's layout

  /** The text is what the operations so far have made of an empty buffer, and none of them put a space. */
  ghost predicate Traced(s: Scan) {
    s.rt == DoAll(Empty(s.rt.cols), s.ops) && PutsNoSpace(s.ops)
  }

  lemma EventPutsNoSpace(p: seq<byte>, i: nat, skipping: bool, anchors: Anchors)
    requires i < |p|
    ensures EventAt(p, i, skipping, anchors).0 != Emit(PutOp(SPACE))
  {
  }

  lemma StepTraced(s: Scan, e: Event)
    requires Traced(s) && Sound(s.rt) && s.cur < |s.links| && e != Emit(PutOp(SPACE))
    ensures Traced(Step(s, e))
  {
    var t := Step(s, e);
    if t.ops != s.ops {
      assert t.ops[..|t.ops| - 1] == s.ops;
    }
  }

  lemma {:induction false} PassTraced(p: seq<byte>, i: nat, s: Scan, anchors: Anchors)
    requires i <= |p| && Traced(s) && Sound(s.rt) && s.cur < |s.links|
    ensures Traced(Pass(p, i, s, anchors))
    decreases |p| - i
  {
    hide Traced, EventAt, Step;
    if i < |p| && !IsFull(s.rt) {
      var (e, j) := EventAt(p, i, s.skip > 0, anchors);
      EventPutsNoSpace(p, i, s.skip > 0, anchors);
      StepTraced(s, e);
      PassTraced(p, j, Step(s, e), anchors);
    }
  }

  /**
   * For every page and width: every line of the text fits or has no place to break, and the text has no
   * idle blank if and only if none of the operations the page asks for left one.
   */
  lemma EveryPageLaid(p: seq<byte>, cols: nat, anchors: Anchors)
    ensures var s := Pass(p, 0, Start(cols), anchors);
            && s.rt.text == DoAll(Empty(cols), s.ops).text
            && LinesFit(s.rt.text, cols)
            && (NoIdleBlanks(s.rt.text) <==> NeverLeavesIdle(cols, s.ops))
  {
    hide LinesFit, NoIdleBlanks, WellLaid, NeverLeavesIdle;
    PassTraced(p, 0, Start(cols), anchors);
    var s := Pass(p, 0, Start(cols), anchors);
    AnySequenceWellLaid(cols, s.ops);
    NoIdleBlanksIff(cols, s.ops);
  }

  // The pages &#10;x, then the bytes C0 8A and x, then "a &#10;b".
  const NEWLINE_PAGE: seq<byte> := [38, 35, 49, 48, 59, 120]
  const OVERLONG_PAGE: seq<byte> := [0xC0, 0x8A, 120]
  const LATE_PAGE: seq<byte> := [97, 32, 38, 35, 49, 48, 59, 98]

  lemma NewlineEntity(p: seq<byte>, i: nat, anchors: Anchors)
    requires i + 6 <= |p| && p[i..i + 6] == [38, 35, 49, 48, 59, p[i + 5]]
    ensures EventAt(p, i, false, anchors) == (Emit(PutOp(NEWLINE)), i + 5)
  {
    var t := p[i..i + 6];
    assert p[i] == t[0] && p[i + 1] == t[1] && p[i + 2] == t[2] && p[i + 3] == t[3] && p[i + 4] == t[4];
    assert Digits(p, i + 2, 2, false, 10) == (2, 10);
    assert Digits(p, i + 2, 1, false, 1) == (2, 10);
  }

  lemma PlainCharacter(p: seq<byte>, i: nat, anchors: Anchors)
    requires i < |p| && 97 <= p[i] <= 122
    ensures EventAt(p, i, false, anchors) == (Emit(PutOp(p[i])), i + 1)
  {
  }

  /** Two pages whose text starts with a newline: an entity, and an overlong encoding the browser's decoder accepts. */
  lemma NewlinePages(cols: nat, anchors: Anchors)
    requires cols >= 2
    ensures Pass(NEWLINE_PAGE, 0, Start(cols), anchors).rt.text == [10, 120]
    ensures Pass(OVERLONG_PAGE, 0, Start(cols), anchors).rt.text == [10, 120]
    ensures !NoIdleBlanks([10, 120])
  {
    hide EventAt, Pass;
    var s1 := Step(Start(cols), Emit(PutOp(10)));
    var s2 := Step(s1, Emit(PutOp(120)));
    NewlineEntity(NEWLINE_PAGE, 0, anchors);
    PlainCharacter(NEWLINE_PAGE, 5, anchors);
    PassGoesOn(NEWLINE_PAGE, 0, Start(cols), anchors);
    PassGoesOn(NEWLINE_PAGE, 5, s1, anchors);
    PassEnds(NEWLINE_PAGE, s2, anchors);
    OverlongNewline(anchors);
    PlainCharacter(OVERLONG_PAGE, 2, anchors);
    PassGoesOn(OVERLONG_PAGE, 0, Start(cols), anchors);
    PassGoesOn(OVERLONG_PAGE, 2, s1, anchors);
    PassEnds(OVERLONG_PAGE, s2, anchors);
    assert IsBlank([10, 120][0]);
  }

  lemma OverlongNewline(anchors: Anchors)
    ensures EventAt(OVERLONG_PAGE, 0, false, anchors) == (Emit(PutOp(10)), 2)
  {
    assert OVERLONG_PAGE[0..] == OVERLONG_PAGE;
  }

  lemma LatePageStates()
    ensures var s1 := Step(Start(3), Emit(PutOp(97)));
            var s2 := Step(s1, Emit(SpaceOp));
            var s3 := Step(s2, Emit(PutOp(10)));
            && s1.skip == s2.skip == s3.skip == 0 && |s1.rt.text| == 1 && |s2.rt.text| == 2 && |s3.rt.text| == 3
            && Step(s3, Emit(PutOp(98))).rt.text == [97, 10, 10, 98]
  {
    var s2 := Step(Step(Start(3), Emit(PutOp(97))), Emit(SpaceOp));
    assert s2.rt == Rt([97, 32], 0, 1, 3);
    assert Step(s2, Emit(PutOp(10))).rt == Rt([97, 32, 10], 0, 1, 3);
  }

  /** A page on which the newline is harmless until the line is broken at the space before it. */
  lemma LatePage(anchors: Anchors)
    ensures Pass(LATE_PAGE, 0, Start(3), anchors).rt.text == [97, 10, 10, 98]
  {
    hide EventAt, Pass, Step;
    var s1 := Step(Start(3), Emit(PutOp(97)));
    var s2 := Step(s1, Emit(SpaceOp));
    var s3 := Step(s2, Emit(PutOp(10)));
    LatePageStates();
    PlainCharacter(LATE_PAGE, 0, anchors);
    BlankCharacter(LATE_PAGE, 1, anchors);
    assert LATE_PAGE[2..8] == [38, 35, 49, 48, 59, 98];
    NewlineEntity(LATE_PAGE, 2, anchors);
    PlainCharacter(LATE_PAGE, 7, anchors);
    PassGoesOn(LATE_PAGE, 0, Start(3), anchors);
    PassGoesOn(LATE_PAGE, 1, s1, anchors);
    PassGoesOn(LATE_PAGE, 2, s2, anchors);
    PassGoesOn(LATE_PAGE, 7, s3, anchors);
    PassEnds(LATE_PAGE, Step(s3, Emit(PutOp(98))), anchors);
  }

  lemma BlankCharacter(p: seq<byte>, i: nat, anchors: Anchors)
    requires i < |p| && p[i] == 32
    ensures EventAt(p, i, false, anchors) == (Emit(SpaceOp), i + 1)
  {
  }

  /**
   * For every page: link ranges are inside the text, sorted and disjoint; each shows exactly the glyphs
   * emitted between its tags, however the text was rewrapped later; every line fits or has no place to
   * break; and no blank is idle exactly if no operation left one.
   */
  lemma EveryPage(p: seq<byte>, cols: nat, anchors: Anchors)
    ensures var s := Pass(p, 0, Start(cols), anchors);
            && |s.rt.text| < TEXT_CAP && |s.links| <= MAX_LINKS
            && Glyphs(s.rt.text) == s.log
            && (forall k :: 0 <= k < |s.links| ==>
                  var l := s.links[k];
                  && l.start <= l.end <= |s.rt.text| && l.logStart <= l.logEnd <= |s.log|
                  && Glyphs(s.rt.text[l.start..l.end]) == s.log[l.logStart..l.logEnd])
            && (forall j, k :: 0 <= j < k < |s.links| ==> s.links[j].end <= s.links[k].start)
            && LinesFit(s.rt.text, cols)
            && (NoIdleBlanks(s.rt.text) <==> NeverLeavesIdle(cols, s.ops))
  {
    hide LinesFit, NoIdleBlanks, NeverLeavesIdle;
    assert Kept(Start(cols));
    PassKept(p, 0, Start(cols), anchors);
    EveryPageLaid(p, cols, anchors);
    var s := Pass(p, 0, Start(cols), anchors);
    forall k | 0 <= k < |s.links|
      ensures Glyphs(s.rt.text[s.links[k].start..s.links[k].end]) == s.log[s.links[k].logStart..s.links[k].logEnd]
    {
      RangeShowsGlyphs(s, s.links[k]);
    }
  }
}
