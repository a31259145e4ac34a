/** What the pieces of a page add to its text, with every character, number and tag name written out. */
module HtmlText {
  import opened Bytes
  import opened HtmlScan
  import opened RenderedText
  import Decimal
  import Utf8

  /** The bytes at `i` are the characters of `w`. */
  predicate HasText(p: seq<byte>, i: nat, w: string) {
    i + |w| <= |p| && forall k :: 0 <= k < |w| ==> p[i + k] as int == w[k] as int
  }

  /** A state in which the pass takes a piece of text in. */
  ghost predicate Reads(s: Scan) {
    Sound(s.rt) && s.cur < |s.links| && !IsFull(s.rt) && s.skip == 0
  }

  /** Everything but the text is as it was. */
  ghost predicate OnlyText(s: Scan, t: Scan) {
    t.skip == s.skip && t.cur == s.cur && t.links == s.links && Sound(t.rt)
  }

  /** The `n` bytes at `i` add the character `c`, which is no blank. */
  ghost predicate AddsChar(p: seq<byte>, i: nat, n: nat, c: char, s: Scan, anchors: Anchors)
    requires Reads(s) && i + n <= |p|
  {
    && c as int < 256
    && var t := Step(s, Emit(PutOp(c as int)));
       && Pass(p, i, s, anchors) == Pass(p, i + n, t, anchors) && OnlyText(s, t)
       && Glyphs(t.rt.text) == Glyphs(s.rt.text) + [c as int]
  }

  /** They add a blank: the text then is empty or ends in one, and has no other new character. */
  ghost predicate AddsBlank(p: seq<byte>, i: nat, n: nat, s: Scan, anchors: Anchors)
    requires Reads(s) && i + n <= |p|
  {
    var t := Step(s, Emit(SpaceOp));
    && Pass(p, i, s, anchors) == Pass(p, i + n, t, anchors) && OnlyText(s, t)
    && Glyphs(t.rt.text) == Glyphs(s.rt.text)
    && (t.rt.text == [] || IsBlank(t.rt.text[|t.rt.text| - 1]))
  }

  /** They add nothing. */
  ghost predicate AddsNothing(p: seq<byte>, i: nat, n: nat, s: Scan, anchors: Anchors)
    requires Reads(s) && i + n <= |p|
  {
    Pass(p, i, s, anchors) == Pass(p, i + n, s, anchors)
  }

  lemma CharAdded(p: seq<byte>, i: nat, n: nat, c: char, s: Scan, anchors: Anchors)
    requires Reads(s) && i < |p| && i + n <= |p| && c as int < 256 && !IsBlank(c as int)
    requires EventAt(p, i, false, anchors) == (Emit(PutOp(c as int)), i + n)
    ensures AddsChar(p, i, n, c, s, anchors)
  {
    hide EventAt, Pass;
    PassGoesOn(p, i, s, anchors);
    DoGlyphs(s.rt, PutOp(c as int));
  }

  lemma BlankAdded(p: seq<byte>, i: nat, n: nat, s: Scan, anchors: Anchors)
    requires Reads(s) && i < |p| && i + n <= |p| && EventAt(p, i, false, anchors) == (Emit(SpaceOp), i + n)
    ensures AddsBlank(p, i, n, s, anchors)
  {
    hide EventAt, Pass, Glyphs;
    PassGoesOn(p, i, s, anchors);
    DoGlyphs(s.rt, SpaceOp);
    SpaceEnds(s.rt);
  }

  lemma SpaceEnds(r: Rt)
    requires Sound(r) && !IsFull(r)
    ensures Space(r).text == [] || IsBlank(Space(r).text[|Space(r).text| - 1])
  {
  }

  lemma NothingAdded(p: seq<byte>, i: nat, n: nat, s: Scan, anchors: Anchors)
    requires Reads(s) && i < |p| && i + n <= |p| && EventAt(p, i, false, anchors) == (Quiet, i + n)
    ensures AddsNothing(p, i, n, s, anchors)
  {
    hide EventAt, Pass;
    PassGoesOn(p, i, s, anchors);
  }

  // ------------------------------------------------------------------ references

  /** A named reference adds its own character. */
  lemma NamedReferences(p: seq<byte>, i: nat, s: Scan, anchors: Anchors)
    requires i < |p| && Reads(s)
    ensures HasText(p, i, "&lt;") ==> AddsChar(p, i, 4, '<', s, anchors)
    ensures HasText(p, i, "&gt;") ==> AddsChar(p, i, 4, '>', s, anchors)
    ensures HasText(p, i, "&amp;") ==> AddsChar(p, i, 5, '&', s, anchors)
    ensures HasText(p, i, "&quot;") ==> AddsChar(p, i, 6, '\"', s, anchors)
    ensures HasText(p, i, "&apos;") ==> AddsChar(p, i, 6, '\'', s, anchors)
    ensures HasText(p, i, "&nbsp;") ==> AddsBlank(p, i, 6, s, anchors)
  {
    hide AddsChar, AddsBlank;
    NamedAdds(p, i, "&lt;", '<', s, anchors);
    NamedAdds(p, i, "&gt;", '>', s, anchors);
    NamedAdds(p, i, "&amp;", '&', s, anchors);
    NamedAdds(p, i, "&quot;", '\"', s, anchors);
    NamedAdds(p, i, "&apos;", '\'', s, anchors);
    if HasText(p, i, "&nbsp;") {
      NamedAt(p, i, "&nbsp;", 160 as char);
      BlankAdded(p, i, 6, s, anchors);
    }
  }

  lemma NamedAdds(p: seq<byte>, i: nat, w: string, c: char, s: Scan, anchors: Anchors)
    requires i < |p| && Reads(s) && (w, c) in {("&lt;", '<'), ("&gt;", '>'), ("&amp;", '&'), ("&quot;", '\"'), ("&apos;", '\'')}
    ensures HasText(p, i, w) ==> i + |w| <= |p| && AddsChar(p, i, |w|, c, s, anchors)
  {
    hide HasText, AddsChar;
    if HasText(p, i, w) {
      NamedAt(p, i, w, c);
      CharAdded(p, i, |w|, c, s, anchors);
    }
  }

  lemma NamedAt(p: seq<byte>, i: nat, w: string, c: char)
    requires HasText(p, i, w)
    requires (w, c) in {("&lt;", '<'), ("&gt;", '>'), ("&amp;", '&'), ("&quot;", '\"'), ("&apos;", '\''), ("&nbsp;", 160 as char)}
    ensures i < i + |w| <= |p| && p[i] == 38 && Entity(p, i) == Some((c as nat, i + |w|))
  {
    hide HasPrefix;
    assert p[i] as int == w[0] as int && p[i + 1] as int == w[1] as int;
    TextIsPrefix(p, i, w);
    NotPrefix(p, i, w, "&lt;");
    NotPrefix(p, i, w, "&gt;");
    NotPrefix(p, i, w, "&amp;");
    NotPrefix(p, i, w, "&quot;");
    NotPrefix(p, i, w, "&apos;");
    NotPrefix(p, i, w, "&nbsp;");
  }

  lemma PrefixIsText(p: seq<byte>, i: nat, w: string)
    requires |w| > 0 && forall k :: 0 <= k < |w| ==> w[k] as int != 0
    ensures HasPrefix(p, i, w) ==> HasText(p, i, w)
  {
    if HasPrefix(p, i, w) {
      assert At(p, i + (|w| - 1)) as int == w[|w| - 1] as int;
      forall k | 0 <= k < |w| ensures p[i + k] as int == w[k] as int {
        assert At(p, i + k) as int == w[k] as int;
      }
    }
  }

  lemma TextIsPrefix(p: seq<byte>, i: nat, w: string)
    requires HasText(p, i, w)
    ensures HasPrefix(p, i, w)
  {
    forall k | 0 <= k < |w| ensures At(p, i + k) as int == w[k] as int {
      assert p[i + k] as int == w[k] as int;
    }
  }

  lemma TextSplits(p: seq<byte>, i: nat, u: string, v: string)
    requires HasText(p, i, u + v)
    ensures HasText(p, i, u) && HasText(p, i + |u|, v)
  {
    var w := u + v;
    forall k | 0 <= k < |u| ensures p[i + k] as int == u[k] as int {
      assert p[i + k] as int == w[k] as int;
    }
    forall k | 0 <= k < |v| ensures p[i + |u| + k] as int == v[k] as int {
      assert p[i + (|u| + k)] as int == w[|u| + k] as int;
    }
  }

  /** Two names that differ in their second or third character do not stand at the same place. */
  lemma NotPrefix(p: seq<byte>, i: nat, w: string, v: string)
    requires HasText(p, i, w) && |w| > 2 && |v| > 2
    ensures w[1] != v[1] || w[2] != v[2] ==> !HasPrefix(p, i, v)
  {
    assert p[i + 1] as int == w[1] as int && p[i + 2] as int == w[2] as int;
    if HasPrefix(p, i, v) {
      assert At(p, i + 1) as int == v[1] as int && At(p, i + 2) as int == v[2] as int;
    }
  }

  /**
   * The `n` bytes at `i` stand for the code point `v`: dashes, quotation marks and the ellipsis add the plain
   * character next to them, the two spaces a blank, the rest of ASCII itself, and everything else nothing.
   */
  ghost predicate AddsCodePoint(p: seq<byte>, i: nat, n: nat, v: nat, s: Scan, anchors: Anchors)
    requires Reads(s) && i + n <= |p|
  {
    if v == 8211 || v == 8212 then AddsChar(p, i, n, '-', s, anchors)
    else if v == 8216 || v == 8217 then AddsChar(p, i, n, '\'', s, anchors)
    else if v == 8220 || v == 8221 then AddsChar(p, i, n, '\"', s, anchors)
    else if v == 8230 then AddsChar(p, i, n, '.', s, anchors)
    else if v == 32 || v == 160 then AddsBlank(p, i, n, s, anchors)
    else if v >= 128 then AddsNothing(p, i, n, s, anchors)
    else if v == 10 then Pass(p, i, s, anchors) == Pass(p, i + n, Step(s, Emit(PutOp(10))), anchors)
    else AddsChar(p, i, n, v as char, s, anchors)
  }

  lemma CodePointAdded(p: seq<byte>, i: nat, n: nat, v: nat, s: Scan, anchors: Anchors)
    requires Reads(s) && i < |p| && i + n <= |p| && EventAt(p, i, false, anchors) == (CodePointEvent(v), i + n)
    ensures AddsCodePoint(p, i, n, v, s, anchors)
  {
    hide EventAt, AddsChar, AddsBlank, AddsNothing, Pass;
    if v == 8211 || v == 8212 {
      CharAdded(p, i, n, '-', s, anchors);
    } else if v == 8216 || v == 8217 {
      CharAdded(p, i, n, '\'', s, anchors);
    } else if v == 8220 || v == 8221 {
      CharAdded(p, i, n, '\"', s, anchors);
    } else if v == 8230 {
      CharAdded(p, i, n, '.', s, anchors);
    } else if v == 32 || v == 160 {
      BlankAdded(p, i, n, s, anchors);
    } else if v >= 128 {
      NothingAdded(p, i, n, s, anchors);
    } else if v == 10 {
      PassGoesOn(p, i, s, anchors);
    } else {
      CharAdded(p, i, n, v as char, s, anchors);
    }
  }

  predicate SemicolonAt(p: seq<byte>, i: nat) {
    i < |p| && p[i] as int == ';' as int
  }

  /** A decimal reference of up to eight digits stands for the number its digits denote. */
  lemma DecimalReference(p: seq<byte>, i: nat, d: string, s: Scan, anchors: Anchors)
    requires i < |p| && Reads(s) && Decimal.AllDigits(d) && 1 <= |d| <= 8 && HasText(p, i, "&#" + d)
    requires |d| == 8 || i + 2 + |d| == |p| || !('0' as int <= p[i + 2 + |d|] as int <= '9' as int)
    ensures var n := 2 + |d| + (if SemicolonAt(p, i + 2 + |d|) then 1 else 0);
            i + n <= |p| && AddsCodePoint(p, i, n, Decimal.ValueOf(d), s, anchors)
  {
    hide AddsCodePoint, HasText, Reads, Entity, SemicolonAt, Decimal.AllDigits, Decimal.ValueOf;
    DecimalEntity(p, i, d);
    ReferenceAdds(p, i, 2 + |d| + (if SemicolonAt(p, i + 2 + |d|) then 1 else 0), Decimal.ValueOf(d), s, anchors);
  }

  lemma ReferenceAdds(p: seq<byte>, i: nat, n: nat, v: nat, s: Scan, anchors: Anchors)
    requires i < |p| && Reads(s) && p[i] == 38 && Entity(p, i) == Some((v, i + n))
    ensures i + n <= |p| && AddsCodePoint(p, i, n, v, s, anchors)
  {
    hide AddsCodePoint, Entity, CodePointEvent;
    CodePointAdded(p, i, n, v, s, anchors);
  }

  lemma DecimalEntity(p: seq<byte>, i: nat, d: string)
    requires Decimal.AllDigits(d) && 1 <= |d| <= 8 && HasText(p, i, "&#" + d)
    requires |d| == 8 || i + 2 + |d| == |p| || !(48 <= p[i + 2 + |d|] <= 57)
    ensures i + 2 + |d| <= |p| && p[i] == 38
    ensures Entity(p, i) == Some((Decimal.ValueOf(d), i + 2 + |d| + (if SemicolonAt(p, i + 2 + |d|) then 1 else 0)))
  {
    hide Digits, Decimal.ValueOf;
    var w := "&#";
    TextSplits(p, i, w, d);
    assert p[i + 0] as int == w[0] as int && p[i + 1] as int == w[1] as int;
    assert p[i + 2 + 0] as int == d[0] as int;
    DecimalDigits(p, i + 2, d, 0);
    assert d[..0] == "" && Decimal.ValueOf("") == 0 by {
      NoDecimals();
    }
  }

  lemma NoDecimals()
    ensures Decimal.ValueOf("") == 0
  {
  }

  lemma {:induction false} DecimalDigits(p: seq<byte>, j: nat, d: string, k: nat)
    requires Decimal.AllDigits(d) && k <= |d| <= 8 && HasText(p, j, d)
    requires |d| == 8 || j + |d| == |p| || !(48 <= p[j + |d|] <= 57)
    ensures Digits(p, j, k, false, Decimal.ValueOf(d[..k])) == (|d|, Decimal.ValueOf(d))
    decreases |d| - k
  {
    if k < |d| {
      Decimal.ValueStep(d, k);
      assert p[j + k] as int == d[k] as int;
      DecimalDigits(p, j, d, k + 1);
    } else {
      assert d[..k] == d;
    }
  }

  // A hexadecimal digit is one of the sixteen, in either case.

  predicate IsHexDigit(c: char, v: nat) {
    v < 16 && (c == "0123456789abcdef"[v] || c == "0123456789ABCDEF"[v])
  }

  predicate SpellsHex(d: string, vs: seq<nat>) {
    |d| == |vs| && forall k :: 0 <= k < |d| ==> IsHexDigit(d[k], vs[k])
  }

  /** The number digits of base sixteen denote. */
  function HexValue(vs: seq<nat>): nat {
    if vs == [] then 0 else 16 * HexValue(vs[..|vs| - 1]) + vs[|vs| - 1]
  }

  const HEX_DIGITS: string := "0123456789abcdefABCDEF"

  /** A hexadecimal reference of up to eight digits stands for the number its digits denote. */
  lemma HexReference(p: seq<byte>, i: nat, d: string, vs: seq<nat>, s: Scan, anchors: Anchors)
    requires i < |p| && Reads(s) && SpellsHex(d, vs) && 1 <= |d| <= 8
    requires HasText(p, i, "&#x" + d) || HasText(p, i, "&#X" + d)
    requires |d| == 8 || i + 3 + |d| == |p| || p[i + 3 + |d|] as int as char !in HEX_DIGITS
    ensures var n := 3 + |d| + (if SemicolonAt(p, i + 3 + |d|) then 1 else 0);
            i + n <= |p| && AddsCodePoint(p, i, n, HexValue(vs), s, anchors)
  {
    hide AddsCodePoint, HasText, Reads, Entity, SemicolonAt, SpellsHex, HexValue;
    HexEntity(p, i, d, vs);
    ReferenceAdds(p, i, 3 + |d| + (if SemicolonAt(p, i + 3 + |d|) then 1 else 0), HexValue(vs), s, anchors);
  }

  lemma HexEntity(p: seq<byte>, i: nat, d: string, vs: seq<nat>)
    requires SpellsHex(d, vs) && 1 <= |d| <= 8
    requires HasText(p, i, "&#x" + d) || HasText(p, i, "&#X" + d)
    requires |d| == 8 || i + 3 + |d| == |p| || p[i + 3 + |d|] as int as char !in HEX_DIGITS
    ensures i + 3 + |d| <= |p| && p[i] == 38
    ensures Entity(p, i) == Some((HexValue(vs), i + 3 + |d| + (if SemicolonAt(p, i + 3 + |d|) then 1 else 0)))
  {
    hide Digits, SpellsHex, HexValue, HasText;
    HexStart(p, i, d);
    HexDigits(p, i + 3, d, vs, 0);
    NoDigits(vs);
  }

  lemma HexStart(p: seq<byte>, i: nat, d: string)
    requires HasText(p, i, "&#x" + d) || HasText(p, i, "&#X" + d)
    ensures i + 3 + |d| <= |p| && p[i] == 38 && p[i + 1] == 35 && p[i + 2] in [120, 88] && HasText(p, i + 3, d)
  {
    var w := if HasText(p, i, "&#x" + d) then "&#x" else "&#X";
    TextSplits(p, i, w, d);
    assert p[i + 0] as int == w[0] as int && p[i + 1] as int == w[1] as int && p[i + 2] as int == w[2] as int;
  }

  lemma NoDigits(vs: seq<nat>)
    ensures HexValue(vs[..0]) == 0
  {
  }

  lemma HexDigitRead(b: byte, v: nat)
    ensures IsHexDigit(b as int as char, v) <==> v < 16 && DigitValue(b, true) == v
  {
  }

  lemma {:induction false} HexDigits(p: seq<byte>, j: nat, d: string, vs: seq<nat>, k: nat)
    requires SpellsHex(d, vs) && k <= |d| <= 8 && HasText(p, j, d)
    requires |d| == 8 || j + |d| == |p| || p[j + |d|] as int as char !in HEX_DIGITS
    ensures Digits(p, j, k, true, HexValue(vs[..k])) == (|d|, HexValue(vs))
    decreases |d| - k
  {
    hide DigitValue, IsHexDigit;
    if k < |d| {
      assert p[j + k] as int == d[k] as int;
      assert p[j + k] as int as char == d[k];
      HexDigitRead(p[j + k], vs[k]);
      assert vs[..k + 1][..k] == vs[..k];
      HexDigits(p, j, d, vs, k + 1);
    } else {
      assert vs[..k] == vs;
      if |d| < 8 && j + |d| < |p| {
        HexDigitListed(p[j + |d|]);
      }
    }
  }

  lemma HexDigitListed(b: byte)
    ensures DigitValue(b, true) >= 0 ==> b as int as char in HEX_DIGITS
  {
    if 48 <= b <= 57 {
      assert HEX_DIGITS[b - 48] == b as int as char;
    } else if 97 <= b <= 102 {
      assert HEX_DIGITS[b as int - 87] == b as int as char;
    } else if 65 <= b <= 70 {
      assert HEX_DIGITS[b as int - 49] == b as int as char;
    }
  }

  // -------------------------------------------------------------------- characters

  /** A character beyond ASCII, encoded, stands for its code point. */
  lemma EncodedCharacter(p: seq<byte>, i: nat, v: nat, s: Scan, anchors: Anchors)
    requires i < |p| && Reads(s) && Utf8.IsScalar(v) && v >= 128 && Utf8.Encode(v) <= p[i..]
    ensures i + |Utf8.Encode(v)| <= |p| && AddsCodePoint(p, i, |Utf8.Encode(v)|, v, s, anchors)
  {
    hide AddsCodePoint, CodePointEvent, Utf8.RtStep, Pass;
    Utf8.RtStepInvertsEncode(p[i..], v);
    EncodedStart(p[i..], v);
    CodePointAdded(p, i, |Utf8.Encode(v)|, v, s, anchors);
  }

  lemma EncodedStart(t: seq<byte>, v: nat)
    requires Utf8.IsScalar(v) && v >= 128 && Utf8.Encode(v) <= t
    ensures t != [] && t[0] >= 128
  {
  }

  /** Where no whole sequence stands, the leading byte and the tails behind it add nothing, and no other byte is passed over. */
  lemma BrokenSequence(p: seq<byte>, i: nat, s: Scan, anchors: Anchors)
    requires i < |p| && Reads(s) && p[i] >= 128 && !Utf8.Complete(p[i..])
    ensures var n := Utf8.RtStep(p[i..]).1;
            && 1 <= n && i + n <= |p| && AddsNothing(p, i, n, s, anchors)
            && (forall k :: i < k < i + n ==> 128 <= p[k] < 192)
            && (p[i] < 192 ==> n == 1) && (p[i] >= 192 && i + n < |p| ==> !(128 <= p[i + n] < 192))
  {
    hide AddsNothing, Utf8.RtStep, Utf8.Complete, Pass;
    var t := p[i..];
    Utf8.RtStepOnBroken(t);
    var n := Utf8.RtStep(t).1;
    forall k | i < k < i + n ensures 128 <= p[k] < 192 {
      assert Utf8.IsTail(t[k - i]);
    }
    if p[i] >= 192 && i + n < |p| {
      assert t[n] == p[i + n];
    }
    NothingAdded(p, i, n, s, anchors);
  }

  /** A byte that is shown as it is: ASCII, but for blanks, '<' and '&'. */
  predicate IsPlain(b: byte) {
    b < 128 && b as int != '<' as int && b as int != '&' as int && b as int !in {32, 9, 10, 13}
  }

  /** A stretch of plain bytes adds exactly those bytes. */
  lemma {:induction false} PlainStretch(p: seq<byte>, i: nat, j: nat, s: Scan, anchors: Anchors) returns (t: Scan)
    requires i <= j <= |p| && Sound(s.rt) && s.cur < |s.links| && s.skip == 0
    requires (forall k :: i <= k < j ==> IsPlain(p[k])) && |s.rt.text| + (j - i) + 1 <= TEXT_CAP
    ensures OnlyText(s, t) && Pass(p, i, s, anchors) == Pass(p, j, t, anchors)
    ensures Glyphs(t.rt.text) == Glyphs(s.rt.text) + p[i..j] && |t.rt.text| == |s.rt.text| + (j - i)
    decreases j - i
  {
    hide Pass, EventAt, Glyphs;
    if i == j {
      t := s;
      assert p[i..j] == [];
    } else {
      var u := Step(s, Emit(PutOp(p[i])));
      PlainByte(p, i, anchors);
      PassGoesOn(p, i, s, anchors);
      DoGlyphs(s.rt, PutOp(p[i]));
      t := PlainStretch(p, i + 1, j, u, anchors);
      assert p[i..j] == [p[i]] + p[i + 1..j];
    }
  }

  lemma PlainByte(p: seq<byte>, i: nat, anchors: Anchors)
    requires i < |p| && IsPlain(p[i])
    ensures EventAt(p, i, false, anchors) == (Emit(PutOp(p[i])), i + 1)
  {
  }

  /** A blank, tab, carriage return or line feed adds a blank. */
  lemma BlankByte(p: seq<byte>, i: nat, s: Scan, anchors: Anchors)
    requires i < |p| && Reads(s) && p[i] as int in {32, 9, 10, 13}
    ensures AddsBlank(p, i, 1, s, anchors)
  {
    hide AddsBlank, Pass;
    BlankAdded(p, i, 1, s, anchors);
  }

  /** A '<' that opens no tag adds itself. */
  lemma BareLess(p: seq<byte>, i: nat, s: Scan, anchors: Anchors)
    requires i < |p| && Reads(s) && p[i] as int == '<' as int && (i + 1 < |p| ==> !OpensTag(p[i + 1] as int as char))
    ensures AddsChar(p, i, 1, '<', s, anchors)
  {
    hide AddsChar, Pass;
    CharAdded(p, i, 1, '<', s, anchors);
  }

  predicate OpensTag(c: char) {
    'a' <= c <= 'z' || 'A' <= c <= 'Z' || c == '/' || c == '!'
  }

  /** A '&' that starts no reference adds itself. */
  lemma BareAmpersand(p: seq<byte>, i: nat, s: Scan, anchors: Anchors)
    requires i < |p| && Reads(s) && p[i] as int == '&' as int && (i + 1 < |p| ==> p[i + 1] as int != '#' as int)
    requires !HasText(p, i, "&lt;") && !HasText(p, i, "&gt;") && !HasText(p, i, "&amp;")
    requires !HasText(p, i, "&quot;") && !HasText(p, i, "&apos;") && !HasText(p, i, "&nbsp;")
    ensures AddsChar(p, i, 1, '&', s, anchors)
  {
    hide AddsChar, Pass, HasPrefix;
    PrefixIsText(p, i, "&lt;");
    PrefixIsText(p, i, "&gt;");
    PrefixIsText(p, i, "&amp;");
    PrefixIsText(p, i, "&quot;");
    PrefixIsText(p, i, "&apos;");
    PrefixIsText(p, i, "&nbsp;");
    CharAdded(p, i, 1, '&', s, anchors);
  }

  predicate IsHexMark(b: byte) {
    b as int == 'x' as int || b as int == 'X' as int
  }

  /** Nor does a numeric reference without a digit. */
  lemma BareNumber(p: seq<byte>, i: nat, s: Scan, anchors: Anchors)
    requires Reads(s) && HasText(p, i, "&#")
    requires if i + 2 < |p| && IsHexMark(p[i + 2]) then i + 3 < |p| ==> p[i + 3] as int as char !in HEX_DIGITS
             else i + 2 < |p| ==> !('0' as int <= p[i + 2] as int <= '9' as int)
    ensures AddsChar(p, i, 1, '&', s, anchors)
  {
    hide AddsChar, Pass;
    var w := "&#";
    assert p[i + 0] as int == w[0] as int && p[i + 1] as int == w[1] as int;
    if i + 3 < |p| {
      HexDigitListed(p[i + 3]);
    }
    assert Entity(p, i) == None;
    CharAdded(p, i, 1, '&', s, anchors);
  }

  // ----------------------------------------------------------------------- pages

  predicate IsGap(b: byte) {
    b as int as char in {' ', '\t', '\n', '\r'}
  }

  /** The words of a page without markup: any of four characters separates them, and bytes beyond ASCII do not show. */
  function PageWords(p: seq<byte>): Reading
    decreases |p|
  {
    if p == [] then Reading([], [])
    else
      var r, b := PageWords(p[..|p| - 1]), p[|p| - 1];
      if IsGap(b) then ReadBlank(r) else if b >= 128 then r else Reading(r.words, r.open + [b])
  }

  /** No reference or tag begins in the page, and no byte beyond ASCII starts a whole sequence. */
  ghost predicate IsUnmarked(p: seq<byte>) {
    forall i: nat :: i < |p| ==> IsPlain(p[i]) || IsGap(p[i]) || (p[i] >= 128 && !Utf8.Complete(p[i..]))
  }

  /** The text so far reads as the page so far. */
  ghost predicate ReadSoFar(p: seq<byte>, i: nat, s: Scan)
    requires i <= |p|
  {
    && Sound(s.rt) && s.cur < |s.links| && s.skip == 0 && |s.rt.text| <= i
    && ReadText(s.rt.text) == PageWords(p[..i])
  }

  /** At every width such a page reads as its own words, in one-byte encodings without their characters beyond ASCII. */
  lemma UnmarkedPage(p: seq<byte>, cols: nat, anchors: Anchors)
    requires IsUnmarked(p) && |p| + 1 < TEXT_CAP
    ensures ReadText(Pass(p, 0, Start(cols), anchors).rt.text) == PageWords(p)
  {
    hide Pass;
    assert p[..0] == [];
    UnmarkedFrom(p, 0, Start(cols), anchors);
  }

  lemma {:induction false} UnmarkedFrom(p: seq<byte>, i: nat, s: Scan, anchors: Anchors)
    requires i <= |p| && IsUnmarked(p) && |p| + 1 < TEXT_CAP && ReadSoFar(p, i, s)
    ensures Sound(s.rt) && s.cur < |s.links| && ReadText(Pass(p, i, s, anchors).rt.text) == PageWords(p)
    decreases |p| - i
  {
    hide Pass, EventAt, IsUnmarked, ReadText, PageWords;
    if i == |p| {
      PassEnds(p, s, anchors);
      assert p[..i] == p;
    } else {
      hide ReadSoFar;
      var j, t := UnmarkedStep(p, i, s, anchors);
      UnmarkedFrom(p, j, t, anchors);
    }
  }

  lemma UnmarkedStep(p: seq<byte>, i: nat, s: Scan, anchors: Anchors) returns (j: nat, t: Scan)
    requires i < |p| && IsUnmarked(p) && |p| + 1 < TEXT_CAP && ReadSoFar(p, i, s)
    ensures Reads(s) && i < j <= |p| && ReadSoFar(p, j, t) && Sound(t.rt) && t.cur < |t.links|
    ensures Pass(p, i, s, anchors) == Pass(p, j, t, anchors)
  {
    hide Pass, EventAt, ReadText, PageWords, Utf8.RtStep, Utf8.Complete;
    if p[i] >= 128 {
      j, t := i + Utf8.RtStep(p[i..]).1, s;
      BrokenSequence(p, i, s, anchors);
      TailsDoNotShow(p, i, j);
    } else {
      var op := if IsGap(p[i]) then SpaceOp else PutOp(p[i]);
      j, t := i + 1, Step(s, Emit(op));
      UnmarkedPiece(p, i, anchors);
      PassGoesOn(p, i, s, anchors);
      PieceRead(p, i, s, op);
    }
  }

  lemma PieceRead(p: seq<byte>, i: nat, s: Scan, op: Op)
    requires i < |p| && ReadSoFar(p, i, s) && Reads(s) && (IsPlain(p[i]) || IsGap(p[i]))
    requires op == if IsGap(p[i]) then SpaceOp else PutOp(p[i])
    ensures ReadSoFar(p, i + 1, Step(s, Emit(op)))
  {
    hide ReadText, PageWords;
    DoGlyphs(s.rt, op);
    DoReads(s.rt, op);
    WordsStep(p, i);
  }

  lemma UnmarkedPiece(p: seq<byte>, i: nat, anchors: Anchors)
    requires i < |p| && (IsPlain(p[i]) || IsGap(p[i]))
    ensures EventAt(p, i, false, anchors) == (Emit(if IsGap(p[i]) then SpaceOp else PutOp(p[i])), i + 1)
  {
    if IsPlain(p[i]) {
      PlainByte(p, i, anchors);
    }
  }

  lemma WordsStep(p: seq<byte>, i: nat)
    requires i < |p|
    ensures var r, b := PageWords(p[..i]), p[i];
            PageWords(p[..i + 1]) == if IsGap(b) then ReadBlank(r) else if b >= 128 then r else Reading(r.words, r.open + [b])
  {
    assert p[..i + 1][..i] == p[..i];
  }

  lemma {:induction false} TailsDoNotShow(p: seq<byte>, i: nat, j: nat)
    requires i <= j <= |p| && forall k :: i <= k < j ==> p[k] >= 128
    ensures PageWords(p[..j]) == PageWords(p[..i])
    decreases j - i
  {
    hide PageWords;
    if i < j {
      WordsStep(p, i);
      TailsDoNotShow(p, i + 1, j);
    }
  }

  // The bytes of "cafe ole" with both accents in Latin-1.
  const LATIN_PAGE: seq<byte> := [99, 97, 102, 0xE9, 32, 111, 108, 0xE9]

  lemma LatinPage(cols: nat, anchors: Anchors)
    ensures ReadText(Pass(LATIN_PAGE, 0, Start(cols), anchors).rt.text) == Reading([[99, 97, 102]], [111, 108])
  {
    hide Pass, ReadText, IsUnmarked, PageWords;
    LatinUnmarked();
    UnmarkedPage(LATIN_PAGE, cols, anchors);
    LatinWords();
  }

  lemma LatinUnmarked()
    ensures IsUnmarked(LATIN_PAGE)
  {
    hide Utf8.Complete;
    LatinBroken();
  }

  lemma LatinBroken()
    ensures !Utf8.Complete(LATIN_PAGE[3..]) && !Utf8.Complete(LATIN_PAGE[7..])
  {
    assert LATIN_PAGE[3..][1] == 32;
  }

  lemma LatinWords()
    ensures PageWords(LATIN_PAGE) == Reading([[99, 97, 102]], [111, 108])
  {
    hide PageWords;
    var p := LATIN_PAGE;
    assert p[..0] == [];
    NoWords();
    WordsStep(p, 0);
    WordsStep(p, 1);
    WordsStep(p, 2);
    assert PageWords(p[..3]).open == [99, 97, 102];
    WordsStep(p, 3);
    WordsStep(p, 4);
    assert PageWords(p[..5]).words == [[99, 97, 102]];
    WordsStep(p, 5);
    WordsStep(p, 6);
    WordsStep(p, 7);
    assert PageWords(p[..8]).open == [111, 108];
    assert p[..8] == p;
  }

  lemma NoWords()
    ensures PageWords([]) == Reading([], [])
  {
  }

  /** On every page, until the buffer is full, the words of the text are those the pieces asked for. */
  lemma EveryPageWords(p: seq<byte>, cols: nat, anchors: Anchors)
    ensures var s := Pass(p, 0, Start(cols), anchors);
            !IsFull(s.rt) ==> ReadText(s.rt.text) == ReadOps(s.ops)
  {
    hide Pass, ReadText, ReadOps, DoAll;
    assert DoAll(Empty(cols), []) == Empty(cols) by {
      NothingDone(cols);
    }
    PassTraced(p, 0, Start(cols), anchors);
    var s := Pass(p, 0, Start(cols), anchors);
    if !IsFull(s.rt) {
      WordsAreKept(cols, s.ops);
    }
  }
}
