/** What the tags and comments of a page do to the pass, with every name and delimiter written out. */
module HtmlTags {
  import opened Bytes
  import opened HtmlScan
  import opened HtmlText
  import opened RenderedText

  // ----------------------------------------------------------------------- names

  predicate NameEnds(p: seq<byte>, i: nat) {
    i < |p| ==> p[i] == 0 || p[i] as int as char in {'>', '/', ' ', '\t', '\n', '\r'}
  }

  function Capital(c: char): char {
    if 'a' <= c <= 'z' then (c as int - 32) as char else c
  }

  /** The name at `i` is `w`, in capitals or not. */
  predicate HasName(p: seq<byte>, i: nat, w: string) {
    && i + |w| <= |p| && NameEnds(p, i + |w|)
    && forall k :: 0 <= k < |w| ==> p[i + k] as int == w[k] as int || p[i + k] as int == Capital(w[k]) as int
  }

  predicate HasOneOf(p: seq<byte>, i: nat, ws: seq<string>) {
    exists k :: 0 <= k < |ws| && HasName(p, i, ws[k])
  }

  predicate IsName(w: string) {
    w != "" && forall k :: 0 <= k < |w| ==> 'a' <= w[k] <= 'z' || w[k] == '!'
  }

  predicate AreNames(ws: seq<string>) {
    forall k :: 0 <= k < |ws| ==> IsName(ws[k])
  }

  lemma NamedIff(p: seq<byte>, i: nat, w: string)
    requires IsName(w)
    ensures Named(p, i, w) <==> HasName(p, i, w)
  {
    if Named(p, i, w) {
      assert Lower(At(p, i + (|w| - 1))) as int == w[|w| - 1] as int;
      forall k | 0 <= k < |w| ensures p[i + k] as int == w[k] as int || p[i + k] as int == Capital(w[k]) as int {
        assert Lower(At(p, i + k)) as int == w[k] as int;
      }
    }
  }

  lemma OneOfIff(p: seq<byte>, i: nat, ws: seq<string>)
    requires AreNames(ws)
    ensures NamedOneOf(p, i, ws) <==> HasOneOf(p, i, ws)
  {
    hide Named, HasName, IsName;
    forall k | 0 <= k < |ws| ensures Named(p, i, ws[k]) <==> HasName(p, i, ws[k]) {
      NamedIff(p, i, ws[k]);
    }
  }

  // Elements nothing of which is shown, and those of them that have no content.
  const HIDDEN: seq<string> :=
    ["script", "style", "svg", "head", "iframe", "template", "canvas", "video", "audio", "object",
     "select", "button", "input", "textarea", "link", "meta", "title", "!doctype"]
  const EMPTY: seq<string> := ["meta", "link", "input", "!doctype"]

  // Elements that start on a new line, besides the six headings.
  const BREAKING: seq<string> :=
    ["p", "div", "br", "li", "ul", "ol", "tr", "td", "th", "table", "hr", "form", "section", "article", "header",
     "footer", "nav", "main", "aside", "blockquote", "pre", "figure", "figcaption", "dl", "dt", "dd"]

  predicate IsHeading(p: seq<byte>, i: nat) {
    && i + 2 <= |p| && (p[i] as int == 'h' as int || p[i] as int == 'H' as int) && '1' as int <= p[i + 1] as int <= '6' as int
  }

  predicate Breaks(p: seq<byte>, i: nat) {
    if IsHeading(p, i) then i + 2 < |p| ==> p[i + 2] == 0 || p[i + 2] as int as char in {'>', '/', ' '}
    else HasOneOf(p, i, BREAKING)
  }

  lemma NamesListed(p: seq<byte>, i: nat)
    ensures NamedOneOf(p, i, SKIPPED) <==> HasOneOf(p, i, HIDDEN)
    ensures NamedOneOf(p, i, VOID) <==> HasOneOf(p, i, EMPTY)
    ensures Named(p, i, "a") <==> HasName(p, i, "a")
  {
    hide HasName, Named, NamedOneOf, HasOneOf;
    assert AreNames(HIDDEN) && AreNames(EMPTY);
    assert SKIPPED == HIDDEN && VOID == EMPTY;
    OneOfIff(p, i, HIDDEN);
    OneOfIff(p, i, EMPTY);
    NamedIff(p, i, "a");
  }

  lemma BreakingAreNames()
    ensures AreNames(BREAKING)
  {
    hide IsName;
    FirstNames();
    MoreNames();
    LastNames();
    forall k | 0 <= k < |BREAKING| ensures IsName(BREAKING[k]) {
      assert BREAKING[k] == if k < 9 then BREAKING[..9][k] else if k < 18 then BREAKING[9..18][k - 9] else BREAKING[18..][k - 18];
    }
  }

  lemma FirstNames()
    ensures AreNames(BREAKING[..9])
  {
  }

  lemma MoreNames()
    ensures AreNames(BREAKING[9..18])
  {
  }

  lemma LastNames()
    ensures AreNames(BREAKING[18..])
  {
  }

  lemma BreakingAreBlocks()
    ensures BLOCKS == BREAKING
  {
  }

  lemma BlocksListed(p: seq<byte>, i: nat)
    ensures IsBlock(p, i) <==> Breaks(p, i)
  {
    hide HasName, Named, NamedOneOf, HasOneOf, AreNames;
    BreakingAreNames();
    BreakingAreBlocks();
    OneOfIff(p, i, BREAKING);
  }

  // ------------------------------------------------------------------------ tags

  /** A tag opens at `i`. */
  predicate TagAt(p: seq<byte>, i: nat) {
    MarkupAt(p, i) && !HasText(p, i, "<!--")
  }

  predicate MarkupAt(p: seq<byte>, i: nat) {
    i + 1 < |p| && p[i] as int == '<' as int && OpensTag(p[i + 1] as int as char)
  }

  predicate IsClosing(p: seq<byte>, i: nat)
    requires MarkupAt(p, i)
  {
    p[i + 1] as int == '/' as int
  }

  function NameAt(p: seq<byte>, i: nat): nat
    requires MarkupAt(p, i)
  {
    if IsClosing(p, i) then i + 2 else i + 1
  }

  /** Behind the tag at `i`: behind its end, or at the end of the page. */
  function BehindTag(p: seq<byte>, i: nat): (j: nat)
    requires i < |p|
    ensures i < j <= |p|
  {
    var e := TagEnd(p, i + 1, 0);
    if e < |p| then e + 1 else |p|
  }

  /** A tag ends at its first '>', but everything from a quotation mark of either kind to the next of its kind is passed over. */
  lemma TagEndReads(p: seq<byte>, j: nat)
    requires j <= |p|
    ensures j == |p| ==> TagEnd(p, j, 0) == j
    ensures j < |p| && p[j] as int == '>' as int ==> TagEnd(p, j, 0) == j
    ensures j < |p| && p[j] as int as char !in {'>', '\"', '\''} ==> TagEnd(p, j, 0) == TagEnd(p, j + 1, 0)
    ensures forall m | j < m < |p| && p[j] as int as char in {'\"', '\''} && p[m] == p[j] && p[j] !in p[j + 1..m] ::
              TagEnd(p, j, 0) == TagEnd(p, m + 1, 0)
    ensures j < |p| && p[j] as int as char in {'\"', '\''} && p[j] !in p[j + 1..] ==> TagEnd(p, j, 0) == |p|
  {
    forall m | j < m < |p| && p[j] as int as char in {'\"', '\''} && p[m] == p[j] && p[j] !in p[j + 1..m]
      ensures TagEnd(p, j, 0) == TagEnd(p, m + 1, 0)
    {
      QuotePassed(p, j + 1, m, p[j]);
    }
    if j < |p| && p[j] as int as char in {'\"', '\''} && p[j] !in p[j + 1..] {
      assert p[j + 1..|p|] == p[j + 1..];
      QuotePassed(p, j + 1, |p|, p[j]);
    }
  }

  lemma {:induction false} QuotePassed(p: seq<byte>, k: nat, m: nat, quote: byte)
    requires k <= m <= |p| && quote != 0 && quote !in p[k..m]
    ensures TagEnd(p, k, quote) == TagEnd(p, m, quote)
    decreases m - k
  {
    if k < m {
      assert p[k] == p[k..m][0] && p[k + 1..m] == p[k..m][1..];
      QuotePassed(p, k + 1, m, quote);
    }
  }

  lemma FourBytes(p: seq<byte>, i: nat, w: string)
    requires |w| == 4
    ensures HasText(p, i, w)
       <==> i + 4 <= |p| && p[i] as int == w[0] as int && p[i + 1] as int == w[1] as int
            && p[i + 2] as int == w[2] as int && p[i + 3] as int == w[3] as int
  {
    if HasText(p, i, w) {
      assert p[i + 0] as int == w[0] as int;
    }
  }

  lemma ThreeBytes(p: seq<byte>, i: nat, w: string)
    requires |w| == 3
    ensures HasText(p, i, w)
       <==> i + 3 <= |p| && p[i] as int == w[0] as int && p[i + 1] as int == w[1] as int && p[i + 2] as int == w[2] as int
  {
    if HasText(p, i, w) {
      assert p[i + 0] as int == w[0] as int;
    }
  }

  lemma TagPiece(p: seq<byte>, i: nat, skipping: bool, anchors: Anchors)
    requires TagAt(p, i)
    ensures EventAt(p, i, skipping, anchors)
         == (TagEvent(p, NameAt(p, i), TagEnd(p, i + 1, 0), IsClosing(p, i), skipping, anchors), BehindTag(p, i))
  {
    hide TagEvent, TagEnd, HasText;
    FourBytes(p, i, "<!--");
  }

  /** A state in which the pass goes on. */
  ghost predicate Goes(s: Scan) {
    Sound(s.rt) && s.cur < |s.links| && !IsFull(s.rt)
  }

  /** The tag of a hidden element goes one level deeper or back out of one; that of an empty one at most out. */
  lemma HiddenTag(p: seq<byte>, i: nat, s: Scan, anchors: Anchors)
    requires TagAt(p, i) && Goes(s) && HasOneOf(p, NameAt(p, i), HIDDEN)
    ensures var depth := if IsClosing(p, i) then (if s.skip > 0 then s.skip - 1 else 0)
                         else if HasOneOf(p, NameAt(p, i), EMPTY) then s.skip else s.skip + 1;
            Pass(p, i, s, anchors) == Pass(p, BehindTag(p, i), s.(skip := depth), anchors)
  {
    hide Pass, EventAt, HasOneOf, NamedOneOf, Named, HasName, BehindTag, TagEnd;
    TagPiece(p, i, s.skip > 0, anchors);
    NamesListed(p, NameAt(p, i));
    PassGoesOn(p, i, s, anchors);
  }

  /** No other tag does anything within a hidden element. */
  lemma TagWithinHidden(p: seq<byte>, i: nat, s: Scan, anchors: Anchors)
    requires TagAt(p, i) && Goes(s) && !HasOneOf(p, NameAt(p, i), HIDDEN) && s.skip > 0
    ensures Pass(p, i, s, anchors) == Pass(p, BehindTag(p, i), s, anchors)
  {
    hide Pass, EventAt, HasOneOf, NamedOneOf, Named, HasName, BehindTag, TagEnd;
    TagPiece(p, i, true, anchors);
    NamesListed(p, NameAt(p, i));
    PassGoesOn(p, i, s, anchors);
  }

  /** An anchor with an address opens a link where the text ends; one without, or with the table full, none. */
  lemma AnchorOpens(p: seq<byte>, i: nat, s: Scan, anchors: Anchors)
    requires TagAt(p, i) && Reads(s) && !IsClosing(p, i) && HasName(p, i + 1, "a")
    ensures var address := anchors(p, i + 1, TagEnd(p, i + 1, 0));
            Pass(p, i, s, anchors) == Pass(p, BehindTag(p, i),
              if address.Some? && |s.links| < 256 then
                s.(links := s.links + [Link(|s.rt.text|, |s.rt.text|, address.value, |s.log|, |s.log|)], cur := |s.links|)
              else s.(cur := -2), anchors)
  {
    hide Pass, EventAt, HasOneOf, NamedOneOf, Named, HasName, BehindTag, TagEnd;
    TagPiece(p, i, false, anchors);
    NamesListed(p, i + 1);
    AnchorIsShown(p, i + 1);
    PassGoesOn(p, i, s, anchors);
  }

  /** Its closing tag ends the open link where the text ends. */
  lemma AnchorCloses(p: seq<byte>, i: nat, s: Scan, anchors: Anchors)
    requires TagAt(p, i) && Reads(s) && IsClosing(p, i) && HasName(p, i + 2, "a")
    ensures Pass(p, i, s, anchors) == Pass(p, BehindTag(p, i),
              if s.cur >= 0 then s.(links := s.links[s.cur := s.links[s.cur].(end := |s.rt.text|, logEnd := |s.log|)], cur := -1)
              else s.(cur := -1), anchors)
  {
    hide Pass, EventAt, HasOneOf, NamedOneOf, Named, HasName, BehindTag, TagEnd;
    TagPiece(p, i, false, anchors);
    NamesListed(p, i + 2);
    AnchorIsShown(p, i + 2);
    PassGoesOn(p, i, s, anchors);
  }

  lemma AnchorIsShown(p: seq<byte>, i: nat)
    requires HasName(p, i, "a")
    ensures !HasOneOf(p, i, HIDDEN)
  {
    assert NameEnds(p, i + 1);
    forall k | 0 <= k < |HIDDEN| ensures !HasName(p, i, HIDDEN[k]) {
      LongerName(p, i, HIDDEN[k]);
    }
  }

  lemma LongerName(p: seq<byte>, i: nat, w: string)
    requires |w| > 1 && ('a' <= w[1] <= 'z' || w[1] == '!')
    ensures HasName(p, i, w) ==> !NameEnds(p, i + 1)
  {
    if HasName(p, i, w) {
      assert p[i + 1] as int == w[1] as int || p[i + 1] as int == Capital(w[1]) as int;
    }
  }

  /** A breaking element's tag, opening or closing, ends the line; no other tag adds anything. */
  lemma OtherTag(p: seq<byte>, i: nat, s: Scan, anchors: Anchors) returns (t: Scan)
    requires TagAt(p, i) && Reads(s) && !HasOneOf(p, NameAt(p, i), HIDDEN) && !HasName(p, NameAt(p, i), "a")
    ensures OnlyText(s, t) && Pass(p, i, s, anchors) == Pass(p, BehindTag(p, i), t, anchors)
    ensures !Breaks(p, NameAt(p, i)) ==> t == s
    ensures Breaks(p, NameAt(p, i)) ==>
              && s.rt.text <= t.rt.text && Glyphs(t.rt.text) == Glyphs(s.rt.text)
              && (t.rt.text == [] || t.rt.text[|t.rt.text| - 1] as int == '\n' as int)
  {
    hide Pass, EventAt, HasOneOf, NamedOneOf, Named, HasName, IsBlock, Breaks, BehindTag, TagEnd, Glyphs;
    TagPiece(p, i, false, anchors);
    NamesListed(p, NameAt(p, i));
    BlocksListed(p, NameAt(p, i));
    PassGoesOn(p, i, s, anchors);
    NewlineBreaks(s.rt);
    NewlineGlyphs(s.rt);
    t := if Breaks(p, NameAt(p, i)) then Step(s, BlockBreak) else s;
  }

  // -------------------------------------------------------------------- comments

  /** A comment goes to behind the first "-->" that is wholly behind its opening, or to the end of the page, and adds nothing. */
  lemma CommentPassed(p: seq<byte>, i: nat, s: Scan, anchors: Anchors) returns (j: nat)
    requires HasText(p, i, "<!--") && Goes(s)
    ensures i + 4 <= j <= |p| && Pass(p, i, s, anchors) == Pass(p, j, s, anchors)
    ensures || (i + 7 <= j && HasText(p, j - 3, "-->") && forall k: nat :: i + 4 <= k < j - 3 ==> !HasText(p, k, "-->"))
            || (j == |p| && forall k: nat :: i + 4 <= k ==> !HasText(p, k, "-->"))
  {
    hide Pass, HasText;
    FourBytes(p, i, "<!--");
    j := CommentEnd(p, i + 4);
    CommentEndIsFirst(p, i + 4);
    forall k: nat | i + 4 <= k ensures HasText(p, k, "-->") <==> k + 2 < |p| && CommentCloses(p, k) {
      ThreeBytes(p, k, "-->");
    }
    CommentPiece(p, i, s.skip > 0, anchors);
    PassGoesOn(p, i, s, anchors);
  }

  lemma CommentPiece(p: seq<byte>, i: nat, skipping: bool, anchors: Anchors)
    requires i + 4 <= |p| && p[i..i + 4] == [60, 33, 45, 45]
    ensures EventAt(p, i, skipping, anchors) == (Quiet, CommentEnd(p, i + 4))
  {
    hide CommentEnd;
    var w := p[i..i + 4];
    assert p[i] == w[0] && p[i + 1] == w[1] && p[i + 2] == w[2] && p[i + 3] == w[3];
  }

  // ------------------------------------------------------------- hidden elements

  /** Bytes among which no markup opens do nothing within a hidden element. */
  lemma {:induction false} HiddenStretch(p: seq<byte>, i: nat, j: nat, s: Scan, anchors: Anchors)
    requires i <= j <= |p| && Goes(s) && s.skip > 0 && forall k: nat :: i <= k < j ==> !MarkupAt(p, k)
    ensures Pass(p, i, s, anchors) == Pass(p, j, s, anchors)
    decreases j - i
  {
    hide Pass, EventAt;
    if i < j {
      assert !MarkupAt(p, i);
      HiddenByte(p, i, anchors);
      PassGoesOn(p, i, s, anchors);
      HiddenStretch(p, i + 1, j, s, anchors);
    }
  }

  lemma HiddenByte(p: seq<byte>, i: nat, anchors: Anchors)
    requires i < |p| && !MarkupAt(p, i)
    ensures EventAt(p, i, true, anchors) == (Quiet, i + 1)
  {
  }

  /** A hidden element within which no other markup opens does nothing at all, wherever it stands. */
  lemma HiddenElement(p: seq<byte>, i: nat, m: nat, s: Scan, anchors: Anchors)
    requires Goes(s) && TagAt(p, i) && !IsClosing(p, i) && HasOneOf(p, i + 1, HIDDEN) && !HasOneOf(p, i + 1, EMPTY)
    requires BehindTag(p, i) <= m && TagAt(p, m) && IsClosing(p, m) && HasOneOf(p, m + 2, HIDDEN)
    requires forall k: nat :: BehindTag(p, i) <= k < m ==> !MarkupAt(p, k)
    ensures Pass(p, i, s, anchors) == Pass(p, BehindTag(p, m), s, anchors)
  {
    hide Pass, HasOneOf, BehindTag;
    var t := s.(skip := s.skip + 1);
    HiddenTag(p, i, s, anchors);
    HiddenStretch(p, BehindTag(p, i), m, t, anchors);
    HiddenTag(p, m, t, anchors);
    assert t.(skip := s.skip) == s;
  }

  /**
   * Whatever stands within a hidden element, tags, comments and other hidden elements included, the text and the
   * links stay as they are until a hidden element's closing tag leads out of the outermost one, or to the page's end.
   */
  lemma {:induction false} HiddenUntil(p: seq<byte>, i: nat, s: Scan, anchors: Anchors) returns (m: nat, j: nat, t: Scan)
    requires i <= |p| && Goes(s) && s.skip > 0
    ensures i <= j <= |p| && t == s.(skip := t.skip) && Pass(p, i, s, anchors) == Pass(p, j, t, anchors)
    ensures if t.skip > 0 then j == |p|
            else i <= m && TagAt(p, m) && IsClosing(p, m) && HasOneOf(p, m + 2, HIDDEN) && j == BehindTag(p, m)
    decreases |p| - i
  {
    hide Pass, EventAt, HasOneOf, BehindTag, TagAt;
    if i == |p| {
      m, j, t := i, i, s;
    } else {
      var (e, k) := EventAt(p, i, true, anchors);
      HiddenPiece(p, i, anchors);
      PassGoesOn(p, i, s, anchors);
      var u := Step(s, e);
      if u.skip == 0 {
        m, j, t := i, k, u;
      } else {
        m, j, t := HiddenUntil(p, k, u, anchors);
      }
    }
  }

  lemma HiddenPiece(p: seq<byte>, i: nat, anchors: Anchors)
    requires i < |p|
    ensures EventAt(p, i, true, anchors).0 in {Quiet, SkipIn, SkipOut}
    ensures EventAt(p, i, true, anchors).0 == SkipOut ==>
              && TagAt(p, i) && IsClosing(p, i) && HasOneOf(p, i + 2, HIDDEN)
              && EventAt(p, i, true, anchors).1 == BehindTag(p, i)
  {
    hide HasText, HasOneOf, NamedOneOf, Named, HasName, TagEnd, CommentEnd;
    if TagAt(p, i) {
      TagPiece(p, i, true, anchors);
      NamesListed(p, NameAt(p, i));
    } else if MarkupAt(p, i) {
      FourBytes(p, i, "<!--");
      assert p[i..i + 4] == [60, 33, 45, 45];
      CommentPiece(p, i, true, anchors);
    } else {
      HiddenByte(p, i, anchors);
    }
  }
}
