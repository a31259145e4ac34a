/** The browser's page renderer: the text buffer written in place, and the pass that fills it. */
module PageBuilder {
  import opened Bytes
  import opened RenderedText
  import opened HtmlScan
  import Utf8

  /** A link as the browser stores it. */
  datatype PageLink = PageLink(start: nat, end: nat, url: seq<byte>)

  /** The wrap width of a window: at least twenty characters. */
  function Columns(windowWidth: int): nat {
    if windowWidth - 12 < 160 then 20 else (windowWidth - 12) / 8
  }

  /** Between the margins of six pixels there is room for that many columns of eight, and for no more, in all but the narrowest windows. */
  lemma ColumnsFillWindow(windowWidth: int)
    ensures var n := Columns(windowWidth);
            if windowWidth >= 6 + 20 * 8 + 6 then 6 + 8 * n + 6 <= windowWidth < 6 + 8 * (n + 1) + 6 else n == 20
  {
  }

  function Stored(l: Link): PageLink {
    PageLink(l.start, l.end, l.url)
  }

  ghost predicate SameLinks(links: seq<PageLink>, ls: seq<Link>) {
    |links| == |ls| && forall k :: 0 <= k < |ls| ==> links[k] == Stored(ls[k])
  }

  class Page {
    const textBuf: array<byte>
    var textLen: nat
    var rtI: nat
    var rtLineStart: nat
    var rtLastSpace: int
    var rtCols: nat
    var links: seq<PageLink>

    constructor ()
      ensures Valid() && View() == Empty(20) && links == [] && fresh(textBuf)
    {
      textBuf := new byte[1048576](_ => 0);
      textLen, rtI, rtLineStart, rtLastSpace, rtCols := 0, 0, 0, -1, 20;
      links := [];
    }

    ghost predicate Valid()
      reads this, textBuf
    {
      textBuf.Length == 1048576 && rtI < 1048576 && Sound(View())
    }

    /** The text written so far, with the bookkeeping of the current line. */
    ghost function View(): Rt
      reads this, textBuf
      requires rtI <= textBuf.Length
    {
      Rt(textBuf[..rtI], rtLineStart, rtLastSpace, rtCols)
    }

    method RtNewline()
      requires Valid()
      modifies this`rtI, this`rtLineStart, this`rtLastSpace, textBuf
      ensures Valid() && View() == Newline(old(View()))
    {
      if rtI == 0 || rtI + 1 >= 1048576 {
        return;
      }
      if textBuf[rtI - 1] == NEWLINE {
        return;
      }
      textBuf[rtI] := NEWLINE;
      rtI := rtI + 1;
      rtLineStart := rtI;
      rtLastSpace := -1;
      assert textBuf[..rtI] == old(textBuf[..rtI]) + [NEWLINE];
    }

    method RtPut(c: byte)
      requires rtI < 1048576 == textBuf.Length && rtLineStart <= rtI && -1 <= rtLastSpace <= rtI
      modifies this`rtI, this`rtLineStart, this`rtLastSpace, textBuf
      ensures rtI <= textBuf.Length
      ensures old(rtI) + 1 >= 1048576 ==> View() == old(View())
      ensures old(rtI) + 1 < 1048576 ==>
                View() == Rewrap(old(View()).text + [c], old(rtLineStart), old(rtLastSpace), rtCols)
    {
      if rtI + 1 >= 1048576 {
        return;
      }
      textBuf[rtI] := c;
      rtI := rtI + 1;
      ghost var t := old(textBuf[..rtI]) + [c];
      assert textBuf[..rtI] == t;
      if rtI - rtLineStart > rtCols && rtLastSpace != -1 && rtLastSpace >= rtLineStart {
        textBuf[rtLastSpace] := NEWLINE;
        assert textBuf[..rtI] == t[rtLastSpace := NEWLINE];
        rtLineStart := rtLastSpace + 1;
        rtLastSpace := -1;
      }
    }

    method RtSpace()
      requires Valid()
      modifies this`rtI, this`rtLineStart, this`rtLastSpace, textBuf
      ensures Valid() && View() == Space(old(View()))
    {
      if rtI == 0 || rtI + 1 >= 1048576 {
        return;
      }
      if textBuf[rtI - 1] == SPACE || textBuf[rtI - 1] == NEWLINE {
        return;
      }
      rtLastSpace := rtI;
      RtPut(SPACE);
    }

    /** The text part of an event: what it puts into the buffer, if anything. */
    method RtEmit(op: Op)
      requires Valid()
      modifies this`rtI, this`rtLineStart, this`rtLastSpace, textBuf
      ensures Valid() && View() == Do(old(View()), op)
    {
      match op
      case NewlineOp => RtNewline();
      case SpaceOp => RtSpace();
      case PutOp(c) => RtPut(c);
    }

    /** rt_emit_cp */
    method RtEmitCp(cp: nat)
      requires Valid()
      modifies this`rtI, this`rtLineStart, this`rtLastSpace, textBuf
      ensures Valid()
      ensures View() == match CodePointEvent(cp) case Emit(op) => Do(old(View()), op) case _ => old(View())
    {
      var c: byte;
      if cp == 0x2013 || cp == 0x2014 {
        c := 45;
      } else if cp == 0x2018 || cp == 0x2019 {
        c := 39;
      } else if cp == 0x201C || cp == 0x201D {
        c := 34;
      } else if cp == 0x2026 {
        c := 46;
      } else if cp == 0x00A0 {
        c := SPACE;
      } else {
        if 0x2000 <= cp <= 0x206F {
          return;
        }
        if cp >= 0x80 {
          return;
        }
        c := cp;
      }
      if c == SPACE {
        RtSpace();
      } else {
        assert CodePointEvent(cp) == Emit(PutOp(c));
        RtPut(c);
        assert View() == Put(old(View()), c);
      }
    }

    /** The page state `s` of the pass, as the browser keeps it. */
    ghost predicate Shows(s: Scan, skipDepth: int, curLink: int)
      reads this, textBuf
    {
      Valid() && View() == s.rt && skipDepth == s.skip && curLink == s.cur && SameLinks(links, s.links)
    }

    /** What the pass does on account of one tag. */
    method HandleTag(p: seq<byte>, ts: nat, te: nat, closing: bool, skipDepth: int, curLink: int, anchors: Anchors,
                     ghost s: Scan)
      returns (skip: int, cur: int)
      requires Shows(s, skipDepth, curLink) && s.cur < |s.links|
      modifies this`rtI, this`rtLineStart, this`rtLastSpace, this`links, textBuf
      ensures Shows(Step(s, TagEvent(p, ts, te, closing, skipDepth > 0, anchors)), skip, cur)
    {
      hide NamedOneOf, Named, IsBlock, Newline, Sound;
      skip, cur := skipDepth, curLink;
      if NamedOneOf(p, ts, SKIPPED) {
        if closing {
          if skip > 0 {
            skip := skip - 1;
          }
        } else if !NamedOneOf(p, ts, VOID) {
          skip := skip + 1;
        }
      } else if skip == 0 {
        if !closing && Named(p, ts, "a") {
          var href := anchors(p, ts, te);
          if href.Some? && |links| < 256 {
            cur := |links|;
            links := links + [PageLink(rtI, rtI, href.value)];
          } else {
            cur := -2;
          }
        } else if closing && Named(p, ts, "a") {
          if cur >= 0 {
            links := links[cur := links[cur].(end := rtI)];
          }
          cur := -1;
        } else if IsBlock(p, ts) {
          RtNewline();
        }
      }
    }

    /** What the pass does outside tags: one entity, blank, multi-byte sequence or character. */
    method HandleText(p: seq<byte>, i: nat, anchors: Anchors, ghost s: Scan) returns (j: nat)
      requires Valid() && View() == s.rt && s.cur < |s.links| && i < |p| && !TagOpens(p, i)
      modifies this`rtI, this`rtLineStart, this`rtLastSpace, textBuf
      ensures j == EventAt(p, i, false, anchors).1
      ensures Valid() && View() == Step(s, EventAt(p, i, false, anchors).0).rt
      ensures StaysOn(s, EventAt(p, i, false, anchors).0)
    {
      hide Entity, CodePointEvent, Utf8.RtStep, Sound, Do, TagOpens;
      var c := p[i];
      if c == 38 {
        var ok, cp;
        ok, cp, j := ReadEntity(p, i);
        if ok {
          CodePointEmits(cp);
          RtEmitCp(cp);
        } else {
          RtEmit(PutOp(38));
          j := i + 1;
        }
      } else if c == 32 || c == 9 || c == 13 || c == 10 {
        RtEmit(SpaceOp);
        j := i + 1;
      } else if c >= 0x80 {
        var cp, adv := Utf8.RtUtf8(p, i, |p|);
        assert p[i..|p|] == p[i..];
        if cp != 0 {
          CodePointEmits(cp);
          RtEmitCp(cp);
        }
        j := i + adv;
      } else {
        RtEmit(PutOp(c));
        j := i + 1;
      }
    }

    /** What the pass does at one piece of the page, and where the next one starts. */
    method HandlePiece(p: seq<byte>, i: nat, skipDepth: int, curLink: int, anchors: Anchors, ghost s: Scan)
      returns (j: nat, skip: int, cur: int)
      requires Shows(s, skipDepth, curLink) && s.cur < |s.links| && i < |p|
      modifies this`rtI, this`rtLineStart, this`rtLastSpace, this`links, textBuf
      ensures var (e, next) := EventAt(p, i, s.skip > 0, anchors);
              j == next && Shows(Step(s, e), skip, cur)
    {
      hide TagEvent, CommentEnd, TagEnd, Entity, CodePointEvent, Utf8.RtStep, Sound, TagOpens, CommentOpens, SameLinks;
      skip, cur := skipDepth, curLink;
      if TagOpens(p, i) {
        assert i + 1 < |p| by {
          TagHasName(p, i);
        }
        if CommentOpens(p, i) {
          CommentHasBody(p, i);
          j := SkipComment(p, i + 4);
        } else {
          var closing := p[i + 1] == 47;
          var te := FindTagEnd(p, i + 1);
          skip, cur := HandleTag(p, if closing then i + 2 else i + 1, te, closing, skip, cur, anchors, s);
          j := if te < |p| then te + 1 else |p|;
        }
      } else if skip > 0 {
        j := i + 1;
      } else {
        j := HandleText(p, i, anchors, s);
      }
    }

    /** build_render_text: leaves exactly what the pass over the page leaves, in any window. */
    method BuildRenderText(p: seq<byte>, windowWidth: int, anchors: Anchors)
      requires textBuf.Length == 1048576
      modifies this, textBuf
      ensures Valid() && textLen == rtI && textBuf[textLen] == 0
      ensures var s := Pass(p, 0, Start(Columns(windowWidth)), anchors);
              View() == s.rt && SameLinks(links, s.links)
    {
      hide EventAt, Step, Sound, SameLinks, Columns;
      rtI := 0;
      rtLineStart := 0;
      rtLastSpace := -1;
      rtCols := Columns(windowWidth);
      links := [];
      var i: nat, skipDepth, curLink := 0, 0, -1;
      ghost var s := Start(Columns(windowWidth));
      StartShown(s);
      while i < |p| && rtI + 1 < 1048576
        invariant i <= |p| && Sound(s.rt) && s.cur < |s.links| && Shows(s, skipDepth, curLink)
        invariant Pass(p, i, s, anchors) == Pass(p, 0, Start(Columns(windowWidth)), anchors)
        decreases |p| - i
      {
        ghost var (e, next) := EventAt(p, i, s.skip > 0, anchors);
        i, skipDepth, curLink := HandlePiece(p, i, skipDepth, curLink, anchors, s);
        s := Step(s, e);
      }
      textBuf[rtI] := 0;
      textLen := rtI;
    }

    lemma StartShown(s: Scan)
      requires textBuf.Length == 1048576 && rtI == 0 && rtLineStart == 0 && rtLastSpace == -1 && links == []
      requires s == Start(rtCols)
      ensures Sound(s.rt) && s.cur < |s.links| && Shows(s, 0, -1)
    {
    }
  }

  /** The event leaves the link table and the skipping depth alone. */
  ghost predicate StaysOn(s: Scan, e: Event)
    requires Sound(s.rt) && s.cur < |s.links|
  {
    var t := Step(s, e);
    t.skip == s.skip && t.cur == s.cur && t.links == s.links
  }

  lemma CodePointEmits(cp: nat)
    ensures CodePointEvent(cp).Emit? || CodePointEvent(cp).Quiet?
  {
  }

  lemma TagHasName(p: seq<byte>, i: nat)
    requires i < |p| && TagOpens(p, i)
    ensures i + 1 < |p|
  {
  }

  lemma CommentHasBody(p: seq<byte>, i: nat)
    requires i + 1 < |p| && CommentOpens(p, i)
    ensures i + 4 <= |p|
  {
  }

  method SkipComment(p: seq<byte>, i: nat) returns (e: nat)
    requires i <= |p|
    ensures e == CommentEnd(p, i)
  {
    e := i;
    while e + 2 < |p| && !CommentCloses(p, e)
      invariant i <= e <= |p| && CommentEnd(p, e) == CommentEnd(p, i)
      decreases |p| - e
    {
      e := e + 1;
    }
    assert CommentEnd(p, e) == if e + 3 > |p| then |p| else e + 3;
    e := e + 3;
    if e > |p| {
      e := |p|;
    }
  }

  method FindTagEnd(p: seq<byte>, i: nat) returns (te: nat)
    requires i <= |p|
    ensures te == TagEnd(p, i, 0)
  {
    te := i;
    var quote: byte := 0;
    while te < |p|
      invariant i <= te <= |p| && TagEnd(p, te, quote) == TagEnd(p, i, 0)
      decreases |p| - te
    {
      var t := p[te];
      if quote != 0 {
        if t == quote {
          quote := 0;
        }
      } else if t == 34 || t == 39 {
        quote := t;
      } else if t == 62 {
        break;
      }
      te := te + 1;
    }
  }

  method ReadDigits(p: seq<byte>, j: nat, hex: bool) returns (k: nat, v: nat)
    ensures (k, v) == Digits(p, j, 0, hex, 0)
  {
    k, v := 0, 0;
    while j + k < |p| && k < 8
      invariant k <= 8 && Digits(p, j, k, hex, v) == Digits(p, j, 0, hex, 0)
      decreases 8 - k
    {
      var dig := DigitValue(p[j + k], hex);
      if dig < 0 {
        break;
      }
      v := if hex then v * 16 + dig else v * 10 + dig;
      k := k + 1;
    }
  }

  /** The entity at `i`: a numeric one, or one of the six names. */
  method ReadEntity(p: seq<byte>, i: nat) returns (ok: bool, cp: nat, j: nat)
    requires i < |p| && p[i] == 38
    ensures Entity(p, i) == if ok then Some((cp, j)) else None
  {
    hide HasPrefix, Digits;
    ok, cp, j := false, 0, i + 1;
    if j < |p| && p[j] == 35 {
      var hex := false;
      j := j + 1;
      if j < |p| && (p[j] == 120 || p[j] == 88) {
        hex := true;
        j := j + 1;
      }
      var k, v := ReadDigits(p, j, hex);
      if k > 0 {
        cp := v;
        ok := true;
        j := j + k;
        if j < |p| && p[j] == 59 {
          j := j + 1;
        }
      }
    } else if HasPrefix(p, i, "&amp;") {
      ok, cp, j := true, 38, i + 5;
    } else if HasPrefix(p, i, "&lt;") {
      ok, cp, j := true, 60, i + 4;
    } else if HasPrefix(p, i, "&gt;") {
      ok, cp, j := true, 62, i + 4;
    } else if HasPrefix(p, i, "&quot;") {
      ok, cp, j := true, 34, i + 6;
    } else if HasPrefix(p, i, "&apos;") {
      ok, cp, j := true, 39, i + 6;
    } else if HasPrefix(p, i, "&nbsp;") {
      ok, cp, j := true, 160, i + 6;
    }
  }
}
