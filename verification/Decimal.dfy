/** Decimal numerals: the printers and the overflow-checked readers, against one notion of a numeral's value. */
module Decimal {
  import opened Bytes

  const MAX64: nat := 0xFFFF_FFFF_FFFF_FFFF

  // ---------------------------------------------------------------------- numerals

  predicate IsDigit(c: char) {
    '0' <= c <= '9'
  }

  function DigitValue(c: char): (d: nat)
    requires IsDigit(c)
    ensures d < 10
  {
    c as int - '0' as int
  }

  function DigitChar(d: nat): (c: char)
    requires d < 10
    ensures IsDigit(c) && DigitValue(c) == d
  {
    (d + '0' as int) as char
  }

  predicate AllDigits(s: string) {
    forall i :: 0 <= i < |s| ==> IsDigit(s[i])
  }

  /** The number a string of digits denotes. */
  function ValueOf(s: string): nat
    requires AllDigits(s)
  {
    if s == "" then 0 else 10 * ValueOf(s[..|s| - 1]) + DigitValue(s[|s| - 1])
  }

  /** The digits of a positive number, without leading zeros; nothing for zero. */
  function Positional(v: nat): (s: string)
    ensures AllDigits(s)
  {
    if v == 0 then "" else Positional(v / 10) + [DigitChar(v % 10)]
  }

  /** The numeral of a number. */
  function Numeral(v: nat): (s: string)
    ensures AllDigits(s) && s != ""
  {
    if v == 0 then "0" else Positional(v)
  }

  lemma {:induction false} PositionalValue(v: nat)
    ensures ValueOf(Positional(v)) == v
  {
    if v != 0 {
      PositionalValue(v / 10);
      var s := Positional(v);
      assert s[..|s| - 1] == Positional(v / 10);
    }
  }

  /** A numeral denotes its number. */
  lemma NumeralValue(v: nat)
    ensures ValueOf(Numeral(v)) == v
  {
    PositionalValue(v);
  }

  /** It is the only string of digits without a leading zero that does. */
  lemma {:induction false} NumeralUnique(s: string)
    requires AllDigits(s) && s != "" && (s[0] != '0' || |s| == 1)
    ensures Numeral(ValueOf(s)) == s
  {
    var p, d := s[..|s| - 1], DigitValue(s[|s| - 1]);
    assert s == p + [DigitChar(d)];
    assert ValueOf(s) / 10 == ValueOf(p) && ValueOf(s) % 10 == d;
    if p != "" {
      NumeralUnique(p);
      NonZero(p);
    } else {
      assert ValueOf(p) == 0 && ValueOf(s) == d;
      assert d != 0 ==> Positional(d) == Positional(d / 10) + [DigitChar(d)] == s;
    }
  }

  lemma {:induction false} NonZero(s: string)
    requires AllDigits(s) && s != "" && s[0] != '0'
    ensures ValueOf(s) > 0
  {
    if |s| == 1 {
      assert ValueOf(s[..0]) == 0;
    } else {
      NonZero(s[..|s| - 1]);
    }
  }

  /** Longer strings of digits denote no smaller numbers. */
  lemma {:induction false} ValueGrows(s: string, i: nat)
    requires AllDigits(s) && i <= |s|
    ensures ValueOf(s[..i]) <= ValueOf(s)
  {
    if i < |s| {
      ValueGrows(s[..|s| - 1], i);
      assert s[..|s| - 1][..i] == s[..i];
    } else {
      assert s[..i] == s;
    }
  }

  lemma ValueStep(s: string, i: nat)
    requires i < |s| && AllDigits(s[..i]) && IsDigit(s[i])
    ensures AllDigits(s[..i + 1]) && ValueOf(s[..i + 1]) == 10 * ValueOf(s[..i]) + DigitValue(s[i])
  {
    var t := s[..i + 1];
    assert t[..|t| - 1] == s[..i];
  }

  function Pow10(k: nat): (p: nat)
    ensures p > 0
  {
    if k == 0 then 1 else 10 * Pow10(k - 1)
  }

  /** The ten digits stand for what they always do. */
  lemma DigitsAreOrdinary(d: nat)
    requires d < 10
    ensures DigitChar(d) == "0123456789"[d] && IsDigit("0123456789"[d]) && DigitValue("0123456789"[d]) == d
  {
  }

  /** A digit further left counts ten times as much. */
  lemma {:induction false} ValueConcat(a: string, b: string)
    requires AllDigits(a) && AllDigits(b)
    ensures AllDigits(a + b) && ValueOf(a + b) == ValueOf(a) * Pow10(|b|) + ValueOf(b)
    decreases |b|
  {
    hide ValueOf, AllDigits;
    AllDigitsBoth(a, b);
    if b == "" {
      assert a + b == a && b == a[..0];
      NoDigitsValue();
    } else {
      var n := |b| - 1;
      var front := b[..n];
      assert (a + b)[..|a| + n] == a + front && (a + b)[..|a| + n + 1] == a + b && b[..n + 1] == b;
      AllDigitsFront(b, n);
      ValueConcat(a, front);
      ValueStep(b, n);
      AllDigitsFront(a + b, |a| + n);
      ValueStep(a + b, |a| + n);
      TenTimes(ValueOf(a), Pow10(n));
    }
  }

  lemma AllDigitsBoth(a: string, b: string)
    requires AllDigits(a) && AllDigits(b)
    ensures AllDigits(a + b)
  {
  }

  lemma AllDigitsFront(s: string, n: nat)
    requires AllDigits(s) && n < |s|
    ensures AllDigits(s[..n]) && IsDigit(s[n])
  {
  }

  lemma NoDigitsValue()
    ensures AllDigits("") && ValueOf("") == 0
  {
  }

  lemma TenTimes(v: nat, p: nat)
    ensures 10 * (v * p) == v * (10 * p)
  {
  }

  lemma {:induction false} PositionalLength(v: nat, k: nat)
    requires v < Pow10(k)
    ensures |Positional(v)| <= k
    decreases k
  {
    if v != 0 {
      PositionalLength(v / 10, k - 1);
    }
  }

  /** A 64-bit number has at most twenty digits. */
  lemma AtMostTwenty(v: nat)
    requires v <= MAX64
    ensures |Positional(v)| <= 20 && |Numeral(v)| <= 20
  {
    assert Pow10(5) == 100000;
    assert Pow10(10) == 10000000000;
    assert Pow10(15) == 1000000000000000;
    assert Pow10(20) == 100000000000000000000;
    PositionalLength(v, 20);
  }

  function Reversed(s: string): (r: string)
    ensures |r| == |s| && forall k :: 0 <= k < |r| ==> r[k] == s[|s| - 1 - k]
  {
    if s == "" then "" else Reversed(s[1..]) + [s[0]]
  }

  lemma ReversedSnoc(s: string, c: char)
    ensures Reversed(s + [c]) == [c] + Reversed(s)
  {
  }

  // ---------------------------------------------------------------------- printers

  /** `digits`, read backwards, is what of the positional form of `val0` comes behind that of `val`. */
  ghost predicate Spelling(val0: nat, val: nat, digits: string) {
    Positional(val0) == Positional(val) + Reversed(digits)
  }

  lemma NothingSpelt(val0: nat, a: string)
    ensures Spelling(val0, val0, a[..0])
  {
    assert Positional(val0) + "" == Positional(val0);
  }

  lemma DigitSpelt(val0: nat, val: nat, digits: string)
    requires val != 0 && Spelling(val0, val, digits)
    ensures Spelling(val0, val / 10, digits + [DigitChar(val % 10)]) && |digits| < |Positional(val0)|
  {
    hide Reversed, DigitChar;
    var c := DigitChar(val % 10);
    ReversedSnoc(digits, c);
    assert Positional(val) == Positional(val / 10) + [c];
    assert Positional(val / 10) + [c] + Reversed(digits) == Positional(val / 10) + ([c] + Reversed(digits));
  }

  lemma AllSpelt(val0: nat, digits: string)
    requires Spelling(val0, 0, digits)
    ensures Reversed(digits) == Positional(val0) && |digits| == |Positional(val0)|
  {
    assert "" + Reversed(digits) == Reversed(digits);
  }

  /** The digits of `val` go into `tmp` last digit first; `len` says how many. */
  method Spell(tmp: array<char>, val0: nat) returns (len: nat)
    requires tmp.Length == 32 && val0 <= MAX64
    modifies tmp
    ensures len == |Positional(val0)| <= 20 && Reversed(tmp[..len]) == Positional(val0)
  {
    hide Positional, Reversed, DigitChar, Spelling;
    AtMostTwenty(val0);
    NothingSpelt(val0, tmp[..]);
    var val := val0;
    len := 0;
    while val != 0 && len < tmp.Length
      invariant len <= 20 && Spelling(val0, val, tmp[..len])
    {
      var d := DigitChar(val % 10);
      ghost var before := tmp[..len];
      DigitSpelt(val0, val, before);
      tmp[len] := d;
      assert tmp[..len + 1] == before + [d];
      len := len + 1;
      val := val / 10;
    }
    AllSpelt(val0, tmp[..len]);
  }

  /** `buf` starts with as much of `text` as fits before a terminator, and the terminator. */
  ghost predicate Holds(buf: array<char>, cap: nat, text: string)
    requires 0 < cap <= buf.Length
    reads buf
  {
    var n := if |text| < cap then |text| else cap - 1;
    buf[..n] == text[..n] && buf[n] == '\0'
  }

  method CountDigits(val0: nat) returns (len: nat)
    ensures len == |Positional(val0)|
  {
    var val := val0;
    len := 0;
    while val != 0
      invariant |Positional(val)| + len == |Positional(val0)|
    {
      len := len + 1;
      val := val / 10;
    }
  }

  /** ic_snprintf_u64: the length it returns does not depend on the room it is given. */
  method SnprintfU64(buf: array<char>, cap: nat, val0: nat) returns (len: nat)
    requires cap <= buf.Length && val0 <= MAX64
    modifies buf
    ensures len == |Numeral(val0)|
    ensures cap > 0 ==> Holds(buf, cap, Numeral(val0))
    ensures forall k :: cap <= k < buf.Length ==> buf[k] == old(buf[k])
  {
    hide Positional, Reversed;
    if cap == 0 {
      if val0 == 0 {
        return 1;
      }
      len := CountDigits(val0);
      return;
    }
    if val0 == 0 {
      if cap == 1 {
        buf[0] := '\0';
        return 1;
      }
      buf[0] := '0';
      buf[1] := '\0';
      return 1;
    }
    var tmp := new char[32];
    len := Spell(tmp, val0);
    var i: nat := 0;
    while i < len && i + 1 < cap
      invariant i <= len && i < cap && Reversed(tmp[..len]) == Positional(val0)
      invariant buf[..i] == Positional(val0)[..i]
      invariant forall k :: cap <= k < buf.Length ==> buf[k] == old(buf[k])
    {
      buf[i] := tmp[len - 1 - i];
      i := i + 1;
    }
    if i < cap {
      buf[i] := '\0';
    }
  }

  /** ic_uint_to_str: the same text as ic_snprintf_u64, without its length. */
  method UintToStr(v0: nat, buf: array<char>, cap: nat)
    requires cap <= buf.Length && v0 <= MAX64
    modifies buf
    ensures cap > 0 ==> Holds(buf, cap, Numeral(v0))
    ensures forall k :: cap <= k < buf.Length ==> buf[k] == old(buf[k])
  {
    hide Positional, Reversed;
    if cap == 0 {
      return;
    }
    if v0 == 0 {
      if cap > 1 {
        buf[0], buf[1] := '0', '\0';
      } else {
        buf[0] := '\0';
      }
      return;
    }
    var tmp := new char[32];
    var len: nat := Spell(tmp, v0);
    var i: nat := 0;
    var all := len;
    while len > 0 && i + 1 < cap
      invariant i + len == all == |Positional(v0)| && i < cap && Reversed(tmp[..all]) == Positional(v0)
      invariant buf[..i] == Positional(v0)[..i]
      invariant forall k :: cap <= k < buf.Length ==> buf[k] == old(buf[k])
    {
      len := len - 1;
      buf[i] := tmp[len];
      i := i + 1;
    }
    buf[i] := '\0';
  }

  // ----------------------------------------------------------------------- readers

  /** The digits a string starts with. */
  function DigitRun(s: string): (n: nat)
    ensures n <= |s| && AllDigits(s[..n]) && (n == |s| || !IsDigit(s[n]))
  {
    if s == "" || !IsDigit(s[0]) then 0 else
      var n := DigitRun(s[1..]);
      assert s[..n + 1] == [s[0]] + s[1..][..n];
      n + 1
  }

  /** The test both readers make before they take another digit is exact. */
  lemma OverflowTest(v: nat, d: nat)
    requires d < 10
    ensures (v > MAX64 / 10 || (v == MAX64 / 10 && d > 5)) <==> 10 * v + d > MAX64
  {
  }

  /** ic_parse_uint accepts exactly the non-empty strings of digits whose value fits 64 bits, and returns it. */
  method ParseUint(s: string) returns (r: Option<nat>)
    requires '\0' !in s
    ensures r.Some? <==> s != "" && AllDigits(s) && ValueOf(s) <= MAX64
    ensures r.Some? ==> r.value == ValueOf(s)
  {
    if s == "" {
      return None;
    }
    var v: nat, i: nat := 0, 0;
    while i < |s|
      invariant i <= |s| && AllDigits(s[..i]) && v == ValueOf(s[..i]) <= MAX64
    {
      if s[i] < '0' || s[i] > '9' {
        return None;
      }
      var d := DigitValue(s[i]);
      ValueStep(s, i);
      OverflowTest(v, d);
      if v > MAX64 / 10 || (v == MAX64 / 10 && d > 5) {
        TooBig(s, i + 1);
        return None;
      }
      v := v * 10 + d;
      i := i + 1;
    }
    assert s[..i] == s;
    r := Some(v);
  }

  lemma TooBig(s: string, i: nat)
    requires i <= |s| && AllDigits(s[..i]) && ValueOf(s[..i]) > MAX64
    ensures AllDigits(s) ==> ValueOf(s) > MAX64
  {
    if AllDigits(s) {
      ValueGrows(s, i);
    }
  }

  /** What ic_ato_u64 promises: the value of the digits, held at the maximum once they exceed it. */
  function Saturated(s: string): Option<nat> {
    var n := DigitRun(s);
    if ValueOf(s[..n]) > MAX64 then Some(MAX64)
    else if s != "" && n == |s| then Some(ValueOf(s[..n]))
    else None
  }

  /** ic_ato_u64: a string that overflows is accepted whatever follows its digits; one that does not, only if digits are all. */
  method AtoU64(s: string) returns (r: Option<nat>)
    requires '\0' !in s
    ensures r == Saturated(s)
  {
    if s == "" {
      return None;
    }
    var v: nat, i: nat := 0, 0;
    ghost var n := DigitRun(s);
    while i < |s|
      invariant i <= n && AllDigits(s[..i]) && v == ValueOf(s[..i]) <= MAX64
    {
      if s[i] < '0' || s[i] > '9' {
        return None;
      }
      var d := DigitValue(s[i]);
      ValueStep(s, i);
      OverflowTest(v, d);
      if v > MAX64 / 10 || (v == MAX64 / 10 && d > 5) {
        ValueGrows(s[..n], i + 1);
        assert s[..n][..i + 1] == s[..i + 1];
        v := MAX64;
        i := i + 1;
        while i < |s| && '0' <= s[i] <= '9' {
          i := i + 1;
        }
        return Some(v);
      }
      v := v * 10 + d;
      i := i + 1;
    }
    assert s[..i] == s;
    r := Some(v);
  }

  /** Both readers agree wherever the strict one accepts. */
  lemma ReadersAgree(s: string)
    requires s != "" && AllDigits(s)
    ensures Saturated(s) == Some(if ValueOf(s) <= MAX64 then ValueOf(s) else MAX64)
  {
    assert s[..DigitRun(s)] == s;
  }

  /** Reading back what was printed gives the number, whichever reader is used. */
  lemma ReadUndoesPrint(v: nat)
    requires v <= MAX64
    ensures AllDigits(Numeral(v)) && ValueOf(Numeral(v)) == v && Saturated(Numeral(v)) == Some(v)
  {
    NumeralValue(v);
    ReadersAgree(Numeral(v));
  }
}
