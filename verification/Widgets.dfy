/** Slider and scrollbar geometry: where the thumb is drawn, and what a click on the track means. */
module Widgets {
  import opened Arith

  datatype Rect = Rect(x: int, y: int, w: int, h: int)

  function Clamp(v: int, lo: int, hi: int): (r: int)
    requires lo <= hi
    ensures lo <= r <= hi && (lo <= v <= hi ==> r == v)
  {
    if v < lo then lo else if v > hi then hi else v
  }

  /** Integer division as the machine does it, towards zero. */
  function Quotient(a: int, b: int): int
    requires b > 0
  {
    if a >= 0 then a / b else -(-a / b)
  }

  // -------------------------------------------------- scaling down and back up again

  /** `n` of `from` steps, expressed in `to` steps. */
  function Scaled(n: int, from: int, to: int): int
    requires from > 0
  {
    n * to / from
  }

  lemma ScaledBounds(n: int, from: int, to: int)
    requires from > 0 && to >= 0 && 0 <= n <= from
    ensures 0 <= Scaled(n, from, to) <= to
  {
    MulMono(to, 0, n);
    MulMono(to, n, from);
    DivMono(0, n * to, from);
    DivMono(n * to, from * to, from);
    DivUnique(0, from, 0);
    MulStep(from, to);
    DivUnique(from * to, from, to);
  }

  lemma ScaledEnds(from: int, to: int)
    requires from > 0 && to >= 0
    ensures Scaled(0, from, to) == 0 && Scaled(from, from, to) == to
  {
    DivUnique(0, from, 0);
    DivUnique(from * to, from, to);
  }

  lemma ScaledMonotone(m: int, n: int, from: int, to: int)
    requires from > 0 && to >= 0 && m <= n
    ensures Scaled(m, from, to) <= Scaled(n, from, to)
  {
    MulMono(to, m, n);
    DivMono(m * to, n * to, from);
  }

  /** How many of `span` steps one of `travel` pixels stands for, rounded up. */
  function PerPixel(span: int, travel: int): int {
    if travel <= 0 then 0 else (span + travel - 1) / travel
  }

  /** Scaling to coarser or finer steps and back loses at most the width of one step, rounded up. */
  lemma ScaledBack(n: int, from: int, to: int)
    requires from > 0 && to > 0 && n >= 0
    ensures var back := Scaled(Scaled(n, from, to), to, from);
            n - PerPixel(from, to) <= back <= n
  {
    var s := Scaled(n, from, to);
    var back := Scaled(s, to, from);
    var c := (from + to - 1) / to;
    DivUnique(n * to, from, s);
    assert from * s <= n * to < from * s + from;
    DivUnique(s * from, to, back);
    assert to * back <= s * from < to * back + to;
    assert to * back <= to * n;
    if back > n {
      MulMono(to, n + 1, back);
      MulStep(to, n);
    }
    CeilCovers(from, to);
    MulStep(to, back);
    assert to * (n - c) == to * n - to * c;
    MulCancel(to, n - c, back + 1);
  }

  lemma CeilCovers(from: int, to: int)
    requires from > 0 && to > 0
    ensures to * ((from + to - 1) / to) >= from
  {
    DivUnique(from + to - 1, to, (from + to - 1) / to);
  }

  /** The first step at which `n * to` reaches `v * from`. */
  lemma FirstReaching(v: int, from: int, to: int) returns (n: int)
    requires to > 0
    ensures from * v <= to * n < from * v + to
  {
    var x := from * v;
    n := (x + to - 1) / to;
    DivUnique(x + to - 1, to, n);
  }

  /** With at least as many steps on the way, every value is hit. */
  lemma ScaledOnto(v: int, from: int, to: int) returns (n: int)
    requires from > 0 && 0 <= v <= to && from >= to
    ensures 0 <= n <= from && Scaled(n, from, to) == v
  {
    if to == 0 {
      n := 0;
      ScaledEnds(from, to);
    } else {
      n := FirstReaching(v, from, to);
      DivUnique(n * to, from, v);
      MulMono(from, v, to);
      MulStep(to, from);
      MulCancel(to, n, from + 1);
      MulMono(from, 0, v);
      MulCancel(to, -1, n);
    }
  }

  // ----------------------------------------------------------------- machine integers

  predicate IsInt32(x: int) {
    -0x8000_0000 <= x < 0x8000_0000
  }

  /** What a 32-bit signed number keeps of `x`. */
  function Int32(x: int): (r: int)
    ensures IsInt32(r) && (IsInt32(x) ==> r == x)
  {
    (x + 0x8000_0000) % 0x1_0000_0000 - 0x8000_0000
  }

  // ------------------------------------------------------------------------- slider

  /** How far a value lies from the lower end when the slider is drawn; a range without extent has one step. */
  function SliderSteps(value: int, vmin: int, vmax: int): int {
    var v := if vmax - vmin <= 0 then vmin else value;
    (if v < vmin then vmin else if v > vmax then vmax else v) - vmin
  }

  /** Where the left edge of the sixteen-pixel thumb belongs, from the track's left edge. */
  function SliderThumb(w: int, value: int, vmin: int, vmax: int): int
    requires w >= 32
  {
    Quotient(SliderSteps(value, vmin, vmax) * (w - 16), if vmax - vmin <= 0 then 1 else vmax - vmin)
  }

  /** Where ic_slider_draw puts it, the product taken in 32 bits. */
  function MachineThumb(w: int, value: int, vmin: int, vmax: int): int
    requires w >= 32
  {
    Quotient(Int32(SliderSteps(value, vmin, vmax) * (w - 16)), if vmax - vmin <= 0 then 1 else vmax - vmin)
  }

  /** The value a mouse position stands for. */
  function SliderValue(track: Rect, vmin: int, vmax: int, mx: int): int {
    var span, denom := vmax - vmin, track.w - 16;
    if span <= 0 || denom <= 0 then vmin else
      var rel := Clamp(mx - (track.x + 8), 0, denom);
      vmin + Scaled(rel, denom, span)
  }

  /** ic_slider_value_from_x, the product taken in 32 bits. */
  function MachineSliderValue(track: Rect, vmin: int, vmax: int, mx: int): int {
    var span, denom := vmax - vmin, track.w - 16;
    if span <= 0 || denom <= 0 then vmin else
      var rel := Clamp(mx - (track.x + 8), 0, denom);
      vmin + Quotient(Int32(rel * span), denom)
  }

  /** The condition under which 32 bits are enough. */
  predicate SliderFits(w: int, vmin: int, vmax: int) {
    (w - 16) * (vmax - vmin) < 0x8000_0000
  }

  /** The slider's value is right at every mouse position if and only if the full travel times the range fits 32 bits. */
  lemma SliderValueExactIff(track: Rect, vmin: int, vmax: int)
    requires 16 < track.w && track.w - 16 < 0x8000_0000 && vmin < vmax
    ensures (forall mx :: MachineSliderValue(track, vmin, vmax, mx) == SliderValue(track, vmin, vmax, mx))
       <==> SliderFits(track.w, vmin, vmax)
  {
    var span, denom := vmax - vmin, track.w - 16;
    if SliderFits(track.w, vmin, vmax) {
      forall mx ensures MachineSliderValue(track, vmin, vmax, mx) == SliderValue(track, vmin, vmax, mx) {
        ProductFits(Clamp(mx - (track.x + 8), 0, denom), denom, span);
      }
    } else {
      var mx := track.x + 8 + denom;
      ScaledEnds(denom, span);
      WrappedQuotient(denom, span);
      assert MachineSliderValue(track, vmin, vmax, mx) != SliderValue(track, vmin, vmax, mx);
    }
  }

  lemma ProductFits(rel: int, denom: int, span: int)
    requires 0 <= rel <= denom && 0 <= span && denom * span < 0x8000_0000
    ensures 0 <= rel * span < 0x8000_0000
  {
    MulMono(span, 0, rel);
    MulMono(span, rel, denom);
  }

  /** A product that does not fit loses at least 2^32, which no quotient by a 31-bit number hides. */
  lemma WrappedQuotient(denom: int, span: int)
    requires 0 < denom < 0x8000_0000 && 0 < span && denom * span >= 0x8000_0000
    ensures Quotient(Int32(denom * span), denom) < span
  {
    var p, q := denom * span, Int32(denom * span);
    if q >= 0 {
      DivUnique(q, denom, q / denom);
      MulCancel(denom, q / denom, span);
    } else {
      DivMono(0, -q, denom);
      DivUnique(0, denom, 0);
    }
  }

  /** With a track of 1016 pixels and a range of three million, the right end of the track is not the largest value. */
  lemma SliderOverflowExample()
    ensures var track := Rect(0, 0, 1016, 16);
            SliderValue(track, 0, 3000000, 1008) == 3000000 && MachineSliderValue(track, 0, 3000000, 1008) == -1294967
  {
    assert Int32(1000 * 3000000) == -1294967296;
  }

  /** While 32 bits are enough, the value is in range, grows with the mouse position, and both ends of the track reach both ends of the range. */
  lemma SliderValueInRange(track: Rect, vmin: int, vmax: int, mx: int, mx': int)
    requires vmin <= vmax && SliderFits(track.w, vmin, vmax)
    ensures vmin <= MachineSliderValue(track, vmin, vmax, mx) <= vmax
    ensures mx <= mx' ==> MachineSliderValue(track, vmin, vmax, mx) <= MachineSliderValue(track, vmin, vmax, mx')
    ensures track.w > 16 && mx <= track.x + 8 ==> MachineSliderValue(track, vmin, vmax, mx) == vmin
    ensures track.w > 16 && mx >= track.x + track.w - 8 ==> MachineSliderValue(track, vmin, vmax, mx) == vmax
  {
    var span, denom := vmax - vmin, track.w - 16;
    if span > 0 && denom > 0 {
      var rel, rel' := Clamp(mx - (track.x + 8), 0, denom), Clamp(mx' - (track.x + 8), 0, denom);
      ProductFits(rel, denom, span);
      ProductFits(rel', denom, span);
      ScaledBounds(rel, denom, span);
      ScaledEnds(denom, span);
      if mx <= mx' {
        ScaledMonotone(rel, rel', denom, span);
      }
    }
  }

  /** With at least as many pixels as steps, some pixel selects any given value. */
  lemma SliderReachesEveryValue(track: Rect, vmin: int, vmax: int, value: int) returns (mx: int)
    requires vmin <= value <= vmax && track.w - 16 >= vmax - vmin && track.w > 16 && SliderFits(track.w, vmin, vmax)
    ensures track.x + 8 <= mx <= track.x + track.w - 8 && MachineSliderValue(track, vmin, vmax, mx) == value
  {
    if vmax == vmin {
      mx := track.x + 8;
    } else {
      var rel := ScaledOnto(value - vmin, track.w - 16, vmax - vmin);
      mx := track.x + 8 + rel;
      ProductFits(rel, track.w - 16, vmax - vmin);
    }
  }

  /** The thumb stays on the track; a click on its middle gives back its value, or up to one pixel's worth less. */
  lemma SliderThumbClick(track: Rect, value: int, vmin: int, vmax: int)
    requires track.w >= 32 && vmin < vmax && vmin <= value <= vmax && SliderFits(track.w, vmin, vmax)
    ensures 0 <= MachineThumb(track.w, value, vmin, vmax) <= track.w - 16
    ensures var back := MachineSliderValue(track, vmin, vmax, track.x + MachineThumb(track.w, value, vmin, vmax) + 8);
            var travel := track.w - 16;
            value - PerPixel(vmax - vmin, travel) <= back <= value
  {
    ProductFits(value - vmin, vmax - vmin, track.w - 16);
    ScaledBounds(value - vmin, vmax - vmin, track.w - 16);
    ScaledBack(value - vmin, vmax - vmin, track.w - 16);
    ProductFits(Scaled(value - vmin, vmax - vmin, track.w - 16), track.w - 16, vmax - vmin);
  }

  /** The thumb is drawn right for every value under the same condition, and for no range beyond it. */
  lemma SliderThumbExactIff(w: int, vmin: int, vmax: int)
    requires 32 <= w && vmin < vmax && vmax - vmin < 0x8000_0000
    ensures (forall value :: MachineThumb(w, value, vmin, vmax) == SliderThumb(w, value, vmin, vmax))
       <==> SliderFits(w, vmin, vmax)
  {
    var span := vmax - vmin;
    assert span * (w - 16) == (w - 16) * span;
    if SliderFits(w, vmin, vmax) {
      forall value ensures MachineThumb(w, value, vmin, vmax) == SliderThumb(w, value, vmin, vmax) {
        ProductFits(SliderSteps(value, vmin, vmax), span, w - 16);
      }
    } else {
      ScaledEnds(span, w - 16);
      WrappedQuotient(span, w - 16);
      assert SliderThumb(w, vmax, vmin, vmax) == w - 16;
      assert MachineThumb(w, vmax, vmin, vmax) < w - 16;
    }
  }

  /** Of a reversed range the thumb lies left of the track, of an empty one at its left end; 32 bits cut the travel, not a quotient. */
  lemma ReversedRangeThumb(w: int, value: int, vmin: int, vmax: int)
    requires w >= 32 && vmax <= vmin
    ensures SliderThumb(w, value, vmin, vmax) == (vmax - vmin) * (w - 16)
    ensures SliderThumb(w, value, vmin, vmax) == 0 <==> vmax == vmin
    ensures SliderThumb(w, value, vmin, vmax) <= 0
    ensures MachineThumb(w, value, vmin, vmax) == Int32((vmax - vmin) * (w - 16))
  {
    MulMono(w - 16, vmax - vmin, 0);
    if vmax < vmin {
      MulMono(w - 16, vmax - vmin, -1);
    }
    assert (vmax - vmin) * (w - 16) == (w - 16) * (vmax - vmin);
  }

  // ---------------------------------------------------------------------- scrollbar

  datatype Scroll = Scroll(offset: int, contentH: int, viewH: int)

  function MaxOffset(s: Scroll): (m: int)
    ensures m >= 0
  {
    if s.contentH - s.viewH < 0 then 0 else s.contentH - s.viewH
  }

  /** ic_scroll_clamp. */
  function ScrollClamp(s: Scroll): Scroll {
    s.(offset := Clamp(s.offset, 0, MaxOffset(s)))
  }

  /** The thumb's height before ic_scrollbar_draw limits it to the track; ic_scroll_hit does not limit it. */
  function ThumbHeight(h: int, s: Scroll): int
    requires s.contentH > 0
  {
    var t := Quotient(s.viewH * h, s.contentH);
    if t < 16 then 16 else t
  }

  /** The height of the thumb drawn. */
  function DrawnThumb(h: int, s: Scroll): int
    requires s.contentH > 0
  {
    var t := ThumbHeight(h, s);
    if t > h then h else t
  }

  /** Where ic_scrollbar_draw puts the thumb's top edge. */
  function ScrollThumb(track: Rect, s: Scroll): int
    requires s.contentH > s.viewH > 0
  {
    track.y + Quotient(s.offset * (track.h - DrawnThumb(track.h, s)), s.contentH - s.viewH)
  }

  /** The 64-bit quotient ic_scroll_hit computes for a click at height `my`. */
  function ClickQuotient(track: Rect, my: int, s: Scroll): int
    requires s.contentH > s.viewH > 0
  {
    var thumbH := ThumbHeight(track.h, s);
    var range := if track.h - thumbH <= 0 then 1 else track.h - thumbH;
    Quotient((my - track.y - thumbH / 2) * (s.contentH - s.viewH), range)
  }

  /** ic_scroll_hit: the new scroll state, unchanged when the click misses or everything fits; the quotient is cut to 32 bits. */
  function ScrollHit(track: Rect, mx: int, my: int, s: Scroll): Scroll {
    if mx < track.x || mx >= track.x + track.w || my < track.y || my >= track.y + track.h then s
    else if s.contentH <= 0 || s.viewH <= 0 || s.contentH - s.viewH <= 0 then s
    else ScrollClamp(s.(offset := Int32(ClickQuotient(track, my, s))))
  }

  /** A scrollbar that is drawn: more content than view, in 32-bit numbers, and a track of at least eight pixels. */
  predicate Scrollable(track: Rect, s: Scroll) {
    s.contentH > s.viewH > 0 && track.h >= 8 && 0 <= s.offset <= s.contentH - s.viewH && IsInt32(s.contentH)
  }

  /** A click beside the track, or with no more content than view, changes nothing; no click changes more than the offset. */
  lemma ClickMisses(track: Rect, mx: int, my: int, s: Scroll)
    requires s.viewH > 0
    ensures mx <= track.x - 1 || mx >= track.x + track.w || my <= track.y - 1 || my >= track.y + track.h ==>
              ScrollHit(track, mx, my, s) == s
    ensures s.contentH <= s.viewH ==> ScrollHit(track, mx, my, s) == s
    ensures var t := ScrollHit(track, mx, my, s); t.contentH == s.contentH && t.viewH == s.viewH
  {
  }

  /** No click on the track makes a quotient that 32 bits cannot hold. */
  ghost predicate ClicksFit(track: Rect, s: Scroll)
    requires s.contentH > s.viewH > 0
  {
    forall my :: track.y <= my < track.y + track.h ==> IsInt32(ClickQuotient(track, my, s))
  }

  /** Clicks at the top and bottom edges of the track decide that. */
  lemma EdgesDecide(track: Rect, s: Scroll)
    requires Scrollable(track, s)
    ensures ClicksFit(track, s)
       <==> IsInt32(ClickQuotient(track, track.y, s)) && IsInt32(ClickQuotient(track, track.y + track.h - 1, s))
  {
    forall my | track.y <= my < track.y + track.h
      ensures ClickQuotient(track, track.y, s) <= ClickQuotient(track, my, s) <= ClickQuotient(track, track.y + track.h - 1, s)
    {
      ClickMonotone(track, s, track.y, my);
      ClickMonotone(track, s, my, track.y + track.h - 1);
    }
  }

  lemma ClickMonotone(track: Rect, s: Scroll, my: int, my': int)
    requires s.contentH > s.viewH > 0 && my <= my'
    ensures ClickQuotient(track, my, s) <= ClickQuotient(track, my', s)
  {
    var t := ThumbHeight(track.h, s);
    QuotientMonotone(my - track.y - t / 2, my' - track.y - t / 2, s.contentH - s.viewH,
                     if track.h - t <= 0 then 1 else track.h - t);
  }

  /** A thumb on a track taller than itself leaves room to move. */
  lemma ThumbLeavesRoom(h: int, s: Scroll)
    requires s.contentH > s.viewH > 0 && h > 16
    ensures 16 <= ThumbHeight(h, s) < h
  {
    var c, p := s.contentH, s.viewH * h;
    assert p == h * s.viewH && c * h == h * c;
    MulMono(h, 0, s.viewH);
    MulMono(h, s.viewH, c - 1);
    MulStep(h, c - 1);
    DivUnique(p, c, p / c);
    MulCancel(c, p / c, h);
  }

  /** The thumb drawn is to the track as the view is to the content, to the pixel, but at least sixteen where there is room. */
  lemma ThumbIsProportional(h: int, s: Scroll)
    requires s.contentH > s.viewH > 0 && h > 16
    ensures var t := DrawnThumb(h, s);
            t >= 16 && (t > 16 ==> t * s.contentH <= s.viewH * h) && s.viewH * h < (t + 1) * s.contentH
  {
    ThumbLeavesRoom(h, s);
    var c, p := s.contentH, s.viewH * h;
    var t := ThumbHeight(h, s);
    MulMono(h, 0, s.viewH);
    DivUnique(p, c, p / c);
    assert c * (p / c) <= p < c * (p / c) + c;
    MulMono(c, p / c + 1, t + 1);
    MulStep(c, p / c);
    assert t > 16 ==> t == p / c;
    Swapped(t, c);
  }

  lemma Swapped(t: int, c: int)
    ensures t * c == c * t && (t + 1) * c == c * (t + 1)
  {
  }

  /** On a track of at most sixteen pixels the thumb drawn fills it, and a click reckons with sixteen. */
  lemma ShortTrackThumb(h: int, s: Scroll)
    requires s.contentH > s.viewH > 0 && 0 < h <= 16
    ensures ThumbHeight(h, s) == 16 && DrawnThumb(h, s) == h
  {
    MulMono(h, 0, s.viewH);
    MulMono(h, s.viewH, s.contentH);
    DivMono(s.viewH * h, h * s.contentH, s.contentH);
    DivUnique(h * s.contentH, s.contentH, h);
  }

  /** On a track taller than sixteen pixels, clicking the middle of the thumb gives back the offset, or up to one pixel's worth less. */
  lemma ScrollThumbClick(track: Rect, s: Scroll, mx: int)
    requires Scrollable(track, s) && track.h > 16 && track.x <= mx < track.x + track.w
    ensures var top, t := ScrollThumb(track, s), DrawnThumb(track.h, s);
            var travel, span := track.h - t, s.contentH - s.viewH;
            var back := ScrollHit(track, mx, top + t / 2, s).offset;
            && track.y <= top && top + t <= track.y + track.h
            && s.offset - PerPixel(span, travel) <= back <= s.offset
  {
    ThumbLeavesRoom(track.h, s);
    var t := ThumbHeight(track.h, s);
    var travel, span := track.h - t, s.contentH - s.viewH;
    ScaledBounds(s.offset, span, travel);
    MulMono(travel, 0, s.offset);
    var rel := Scaled(s.offset, span, travel);
    assert ScrollThumb(track, s) == track.y + rel;
    ScaledBounds(rel, travel, span);
    MulMono(span, 0, rel);
    ScaledBack(s.offset, span, travel);
  }

  /** On a shorter track it scrolls to the top, exactly if the quotient does not come out positive in 32 bits. */
  lemma ShortTrackThumbClick(track: Rect, s: Scroll, mx: int)
    requires Scrollable(track, s) && track.h <= 16 && track.x <= mx < track.x + track.w
    ensures var top, t, span := ScrollThumb(track, s), DrawnThumb(track.h, s), s.contentH - s.viewH;
            var back := ScrollHit(track, mx, top + t / 2, s).offset;
            && top == track.y && t == track.h
            && (back == 0 <==> Int32((track.h / 2 - 8) * span) <= 0)
            && ((8 - track.h / 2) * span <= 0x8000_0000 ==> back == 0)
  {
    hide Quotient, ThumbHeight, Int32;
    ShortTrackThumb(track.h, s);
    var span, up := s.contentH - s.viewH, track.h / 2 - 8;
    NothingMoves(s.offset, span);
    MulMono(span, up, 0);
    Negated(up, span);
    QuotientByOne(up * span);
    assert ClickQuotient(track, track.y + track.h / 2, s) == up * span;
  }

  lemma NothingMoves(offset: int, span: int)
    requires span > 0
    ensures Quotient(offset * 0, span) == 0
  {
    DivUnique(0, span, 0);
  }

  lemma Negated(a: int, b: int)
    ensures (-a) * b == -(a * b) && 0 * b == 0
  {
  }

  lemma QuotientByOne(a: int)
    ensures Quotient(a, 1) == a
  {
  }

  /** Eight pixels high and 2^29 + 1 to scroll: the click on the middle of the thumb goes to the very end. */
  lemma ShortTrackExample()
    ensures var track, s := Rect(0, 0, 8, 8), Scroll(0, 0x2000_0002, 1);
            Scrollable(track, s) && ScrollHit(track, 0, 4, s).offset == 0x2000_0001
  {
    var track, s := Rect(0, 0, 8, 8), Scroll(0, 0x2000_0002, 1);
    ShortTrackThumb(8, s);
    QuotientByOne(-4 * 0x2000_0001);
    assert ClickQuotient(track, 4, s) == -4 * 0x2000_0001;
    assert Int32(-4 * 0x2000_0001) == 0x7FFF_FFFC;
  }

  /**
   * The offset is in range after any click; while every quotient fits 32 bits, a lower click never
   * scrolls less far, and on a track taller than sixteen pixels both ends can be reached.
   */
  lemma ScrollHitInRange(track: Rect, s: Scroll, mx: int, my: int, my': int)
    requires Scrollable(track, s) && track.x <= mx < track.x + track.w
    requires track.y <= my <= my' < track.y + track.h
    ensures 0 <= ScrollHit(track, mx, my, s).offset <= s.contentH - s.viewH
    ensures ClicksFit(track, s) ==> ScrollHit(track, mx, my, s).offset <= ScrollHit(track, mx, my', s).offset
    ensures ClicksFit(track, s) ==> ScrollHit(track, mx, track.y, s).offset == 0
    ensures ClicksFit(track, s) && track.h > 16 ==>
              ScrollHit(track, mx, track.y + track.h - 1, s).offset == s.contentH - s.viewH
  {
    hide ClickQuotient, ThumbHeight, Quotient;
    ClickMonotone(track, s, my, my');
    TopClick(track, s);
    if track.h > 16 {
      BottomClick(track, s);
    }
  }

  /** No click lower on the track scrolls less far. */
  ghost predicate ScrollsOnly(track: Rect, s: Scroll, mx: int) {
    forall my, my' :: track.y <= my <= my' < track.y + track.h ==>
      ScrollHit(track, mx, my, s).offset <= ScrollHit(track, mx, my', s).offset
  }

  /** That is so if and only if no click's quotient is cut. */
  lemma ScrollsOnlyIff(track: Rect, s: Scroll, mx: int)
    requires Scrollable(track, s) && track.x <= mx < track.x + track.w
    ensures ScrollsOnly(track, s, mx) <==> ClicksFit(track, s)
  {
    hide ClickQuotient, ThumbHeight, Quotient;
    if ClicksFit(track, s) {
      forall my, my' | track.y <= my <= my' < track.y + track.h
        ensures ScrollHit(track, mx, my, s).offset <= ScrollHit(track, mx, my', s).offset
      {
        ScrollHitInRange(track, s, mx, my, my');
      }
    } else {
      EdgesDecide(track, s);
      var mid := MiddleFits(track, s);
      if !IsInt32(ClickQuotient(track, track.y, s)) {
        TopClick(track, s);
        var my := LastBelow(track, s, track.y, mid, -0x8000_0000);
        ClickStep(track, s, my);
        ClickMonotone(track, s, track.y, my);
        assert ScrollHit(track, mx, my, s).offset > ScrollHit(track, mx, my + 1, s).offset;
      } else {
        ClickMonotone(track, s, mid, track.y + track.h - 1);
        var my := LastBelow(track, s, mid, track.y + track.h - 1, 0x8000_0000);
        ClickStep(track, s, my);
        assert ScrollHit(track, mx, my, s).offset > ScrollHit(track, mx, my + 1, s).offset;
      }
    }
  }

  /** The last click of a stretch whose quotient is below a bound the stretch's end reaches. */
  lemma LastBelow(track: Rect, s: Scroll, from: int, end: int, bound: int) returns (my: int)
    requires s.contentH > s.viewH > 0 && from <= end
    requires ClickQuotient(track, from, s) < bound <= ClickQuotient(track, end, s)
    ensures from <= my < end && ClickQuotient(track, my, s) < bound <= ClickQuotient(track, my + 1, s)
  {
    hide ClickQuotient;
    my := from;
    while ClickQuotient(track, my + 1, s) < bound
      invariant from <= my < end && ClickQuotient(track, my, s) < bound
      decreases end - my
    {
      my := my + 1;
    }
  }

  /** One pixel further down the quotient grows by no more than the whole way there is to scroll. */
  lemma ClickStep(track: Rect, s: Scroll, my: int)
    requires s.contentH > s.viewH > 0
    ensures ClickQuotient(track, my, s) <= ClickQuotient(track, my + 1, s) <= ClickQuotient(track, my, s) + s.contentH - s.viewH
  {
    ClickMonotone(track, s, my, my + 1);
    var t := ThumbHeight(track.h, s);
    QuotientStep(my - track.y - t / 2, s.contentH - s.viewH, if track.h - t <= 0 then 1 else track.h - t);
  }

  lemma QuotientStep(a: int, m: int, d: int)
    requires m >= 0 && d > 0
    ensures Quotient((a + 1) * m, d) <= Quotient(a * m, d) + m
  {
    assert (a + 1) * m == a * m + m;
    QuotientPlus(a * m, m, d);
  }

  lemma QuotientPlus(x: int, m: int, d: int)
    requires m >= 0 && d > 0
    ensures Quotient(x + m, d) <= Quotient(x, d) + m
  {
    if x >= 0 {
      DivPlus(x, m, d);
    } else if x + m < 0 {
      DivPlus(-(x + m), m, d);
    } else {
      SumOfQuotients(x + m, -x, m, d);
    }
  }

  lemma DivPlus(x: int, m: int, d: int)
    requires m >= 0 && d > 0
    ensures (x + m) / d <= x / d + m
  {
    MulMono(m, 1, d);
    DivMono(x + m, x + d * m, d);
    DivUnique(x, d, x / d);
    assert d * (x / d + m) == d * (x / d) + d * m;
    DivUnique(x + d * m, d, x / d + m);
  }

  lemma SumOfQuotients(a: int, b: int, m: int, d: int)
    requires a >= 0 && b >= 0 && a + b == m && d > 0
    ensures a / d + b / d <= m
  {
    DivUnique(a, d, a / d);
    DivUnique(b, d, b / d);
    DivMono(0, a, d);
    DivMono(0, b, d);
    DivUnique(0, d, 0);
    MulMono(a / d, 1, d);
    MulMono(b / d, 1, d);
  }

  /** A click near the middle of the track makes a quotient of at most one step. */
  lemma MiddleFits(track: Rect, s: Scroll) returns (my: int)
    requires Scrollable(track, s)
    ensures track.y <= my < track.y + track.h && -0x8000_0000 <= ClickQuotient(track, my, s) <= 0
  {
    var t, span := ThumbHeight(track.h, s), s.contentH - s.viewH;
    var range := if track.h - t <= 0 then 1 else track.h - t;
    DivUnique(0, range, 0);
    if track.h > 16 {
      ThumbLeavesRoom(track.h, s);
      my := track.y + t / 2;
      assert 0 * span == 0;
    } else if track.h > 8 {
      ShortTrackThumb(track.h, s);
      my := track.y + 8;
      assert 0 * span == 0;
    } else {
      ShortTrackThumb(track.h, s);
      my := track.y + 7;
      QuotientByOne(-1 * span);
    }
  }

  /** On a track of 17 pixels the click at height 4 scrolls to the very end and the one at 5 to the beginning. */
  lemma CutQuotientExample()
    ensures var track, s := Rect(0, 0, 8, 17), Scroll(0, 0x2000_0002, 1);
            && Scrollable(track, s) && !ScrollsOnly(track, s, 0)
            && ScrollHit(track, 0, 4, s).offset == 0x2000_0001 && ScrollHit(track, 0, 5, s).offset == 0
  {
    hide Quotient;
    var track, s := Rect(0, 0, 8, 17), Scroll(0, 0x2000_0002, 1);
    assert ThumbHeight(17, s) == 16 by {
      SmallView();
    }
    QuotientByOne(-4 * 0x2000_0001);
    QuotientByOne(-3 * 0x2000_0001);
    assert ClickQuotient(track, 4, s) == -4 * 0x2000_0001 && ClickQuotient(track, 5, s) == -3 * 0x2000_0001;
    assert Int32(-4 * 0x2000_0001) == 0x7FFF_FFFC;
    assert ScrollHit(track, 0, 4, s).offset > ScrollHit(track, 0, 5, s).offset;
  }

  lemma SmallView()
    ensures Quotient(17, 0x2000_0002) == 0
  {
  }

  lemma TopClick(track: Rect, s: Scroll)
    requires s.contentH > s.viewH > 0
    ensures ClickQuotient(track, track.y, s) <= 0
  {
    var t := ThumbHeight(track.h, s);
    var range := if track.h - t <= 0 then 1 else track.h - t;
    QuotientMonotone(-(t / 2), 0, s.contentH - s.viewH, range);
    DivUnique(0, range, 0);
  }

  lemma BottomClick(track: Rect, s: Scroll)
    requires s.contentH > s.viewH > 0 && track.h > 16
    ensures ClickQuotient(track, track.y + track.h - 1, s) >= s.contentH - s.viewH
  {
    hide ThumbHeight;
    ThumbLeavesRoom(track.h, s);
    var t := ThumbHeight(track.h, s);
    var range, span := track.h - t, s.contentH - s.viewH;
    QuotientMonotone(range, track.h - 1 - t / 2, span, range);
    MulMono(span, 0, range);
    DivUnique(range * span, range, span);
  }

  lemma QuotientMonotone(a: int, b: int, m: int, d: int)
    requires a <= b && m >= 0 && d > 0
    ensures Quotient(a * m, d) <= Quotient(b * m, d)
  {
    MulMono(m, a, b);
    if a * m >= 0 {
      DivMono(a * m, b * m, d);
    } else if b * m < 0 {
      DivMono(-(b * m), -(a * m), d);
    } else {
      DivMono(0, b * m, d);
      DivMono(0, -(a * m), d);
      DivUnique(0, d, 0);
    }
  }
}
