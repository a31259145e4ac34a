/** UTF-8 validation, counting and decoding, against sections 3 and 4 of RFC 3629. */
module Utf8 {
  import opened Bytes

  // ---------------------------------------------------------------- encoding

  predicate IsScalar(v: int) {
    0 <= v <= 0x10FFFF && !(0xD800 <= v <= 0xDFFF)
  }

  /** The octet sequence RFC 3629 section 3 assigns to a scalar value. */
  function Encode(v: int): (bytes: seq<byte>)
    requires IsScalar(v)
  {
    if v < 0x80 then [v]
    else if v < 0x800 then [0xC0 + v / 64, 0x80 + v % 64]
    else if v < 0x1_0000 then [0xE0 + v / 4096, 0x80 + v / 64 % 64, 0x80 + v % 64]
    else [0xF0 + v / 262144, 0x80 + v / 4096 % 64, 0x80 + v / 64 % 64, 0x80 + v % 64]
  }

  ghost predicate AllScalars(vs: seq<int>) {
    forall k :: 0 <= k < |vs| ==> IsScalar(vs[k])
  }

  ghost function EncodeAll(vs: seq<int>): (bytes: seq<byte>)
    requires AllScalars(vs)
  {
    if vs == [] then [] else Encode(vs[0]) + EncodeAll(vs[1..])
  }

  /** `vs` is a decomposition of `s` into encodings of scalar values. */
  ghost predicate Decodes(s: seq<byte>, vs: seq<int>) {
    AllScalars(vs) && EncodeAll(vs) == s
  }

  ghost predicate WellFormed(s: seq<byte>) {
    exists vs :: Decodes(s, vs)
  }

  /** A continuation byte, `10xxxxxx`. */
  predicate IsContinuation(b: byte) {
    b / 64 == 2
  }

  /** The payload of a continuation byte. */
  function Low6(b: byte): nat {
    b % 64
  }

  // ------------------------------------------------- what a leading byte means

  /** How many bytes the leading byte announces; 0 for a byte that cannot lead. */
  function Announced(b: byte): nat {
    if b < 0x80 then 1
    else if b / 32 == 6 then 2
    else if b / 16 == 14 then 3
    else if b / 8 == 30 then 4
    else 0
  }

  /** The payload bits of the leading byte of a sequence of `n` bytes. */
  function LeadBits(b: byte, n: nat): nat {
    if n == 1 then b else if n == 2 then b % 32 else if n == 3 then b % 16 else b % 8
  }

  /** The number spelt by the first `n` bytes of `s`. */
  function Gather(s: seq<byte>, n: nat, lead: nat): nat
    requires 1 <= n <= |s|
  {
    if n == 1 then lead else Gather(s, n - 1, lead) * 64 + Low6(s[n - 1])
  }

  /** The smallest scalar that needs `n` bytes. */
  function Least(n: nat): nat {
    if n <= 1 then 0 else if n == 2 then 0x80 else if n == 3 then 0x800 else 0x1_0000
  }

  ghost predicate Accepts(s: seq<byte>, n: nat, v: int) {
    && 1 <= n <= |s|
    && n == Announced(s[0])
    && (forall j :: 1 <= j < n ==> IsContinuation(s[j]))
    && v == Gather(s, n, LeadBits(s[0], n))
    && Least(n) <= v
    && IsScalar(v)
  }

  lemma GatherUnrolled(s: seq<byte>, n: nat, lead: nat)
    requires 1 <= n <= 4 && n <= |s|
    ensures n == 1 ==> Gather(s, n, lead) == lead
    ensures n == 2 ==> Gather(s, n, lead) == lead * 64 + Low6(s[1])
    ensures n == 3 ==> Gather(s, n, lead) == lead * 4096 + Low6(s[1]) * 64 + Low6(s[2])
    ensures n == 4 ==> Gather(s, n, lead) == lead * 262144 + Low6(s[1]) * 4096 + Low6(s[2]) * 64 + Low6(s[3])
  {
    if n > 1 {
      GatherUnrolled(s, n - 1, lead);
    }
  }

  /** The base-64 digits of a number below 2^24, most significant first. */
  lemma Digits(v: nat, d3: nat, d2: nat, d1: nat, d0: nat)
    requires d2 < 64 && d1 < 64 && d0 < 64
    ensures v == d3 * 262144 + d2 * 4096 + d1 * 64 + d0
            <==> v / 262144 == d3 && v / 4096 % 64 == d2 && v / 64 % 64 == d1 && v % 64 == d0
  {
    var a, b := v / 64, v / 4096;
    assert v / 4096 == a / 64 && v / 262144 == b / 64;
    assert v == (b / 64) * 262144 + (b % 64) * 4096 + (a % 64) * 64 + v % 64;
  }

  /** What a byte with its marker bits on top is. */
  lemma TailByte(b: byte)
    ensures IsContinuation(b) <==> 0x80 <= b < 0xC0
    ensures IsContinuation(b) ==> Low6(b) == b - 0x80
  {
  }

  lemma LeadByte(b: byte)
    ensures Announced(b) == 2 <==> 0xC0 <= b < 0xE0
    ensures Announced(b) == 3 <==> 0xE0 <= b < 0xF0
    ensures Announced(b) == 4 <==> 0xF0 <= b < 0xF8
    ensures Announced(b) == 2 ==> LeadBits(b, 2) == b - 0xC0
    ensures Announced(b) == 3 ==> LeadBits(b, 3) == b - 0xE0
    ensures Announced(b) == 4 ==> LeadBits(b, 4) == b - 0xF0
  {
  }

  lemma TwoBytes(s: seq<byte>, v: int)
    requires 0x80 <= v < 0x800 && Encode(v) <= s
    ensures Accepts(s, 2, v)
  {
    hide Announced, LeadBits, IsContinuation, Gather, Low6;
    var e := Encode(v);
    assert s[0] == e[0] && s[1] == e[1];
    LeadByte(s[0]);
    TailByte(s[1]);
    GatherUnrolled(s, 2, LeadBits(s[0], 2));
  }

  lemma ThreeBytes(s: seq<byte>, v: int)
    requires 0x800 <= v < 0x1_0000 && IsScalar(v) && Encode(v) <= s
    ensures Accepts(s, 3, v)
  {
    hide Announced, LeadBits, IsContinuation, Gather, Low6;
    var e := Encode(v);
    assert s[0] == e[0] && s[1] == e[1] && s[2] == e[2];
    LeadByte(s[0]);
    TailByte(s[1]);
    TailByte(s[2]);
    GatherUnrolled(s, 3, LeadBits(s[0], 3));
    Digits(v, 0, v / 4096, v / 64 % 64, v % 64);
  }

  lemma FourBytes(s: seq<byte>, v: int)
    requires 0x1_0000 <= v && IsScalar(v) && Encode(v) <= s
    ensures Accepts(s, 4, v)
  {
    hide Announced, LeadBits, IsContinuation, Gather, Low6;
    var e := Encode(v);
    assert s[0] == e[0] && s[1] == e[1] && s[2] == e[2] && s[3] == e[3];
    LeadByte(s[0]);
    TailByte(s[1]);
    TailByte(s[2]);
    TailByte(s[3]);
    GatherUnrolled(s, 4, LeadBits(s[0], 4));
    Digits(v, v / 262144, v / 4096 % 64, v / 64 % 64, v % 64);
  }

  /** An encoding at the head of `s` is accepted, with its own length and value. */
  lemma EncodingIsAccepted(s: seq<byte>, v: int)
    requires IsScalar(v) && Encode(v) <= s
    ensures Accepts(s, |Encode(v)|, v)
  {
    hide Accepts;
    if v < 0x80 {
      assert s[0] == Encode(v)[0];
      OneByte(s);
    } else if v < 0x800 {
      TwoBytes(s, v);
    } else if v < 0x1_0000 {
      ThreeBytes(s, v);
    } else {
      FourBytes(s, v);
    }
  }

  lemma OneByte(s: seq<byte>)
    requires s != [] && s[0] < 0x80
    ensures Accepts(s, 1, s[0])
  {
  }

  lemma FromTwo(s: seq<byte>, v: int)
    requires Accepts(s, 2, v)
    ensures Encode(v) == s[..2]
  {
    hide Announced, LeadBits, IsContinuation, Gather, Low6;
    LeadByte(s[0]);
    TailByte(s[1]);
    GatherUnrolled(s, 2, LeadBits(s[0], 2));
    assert IsContinuation(s[1]);
  }

  lemma FromThree(s: seq<byte>, v: int)
    requires Accepts(s, 3, v)
    ensures Encode(v) == s[..3]
  {
    hide Announced, LeadBits, IsContinuation, Gather, Low6;
    LeadByte(s[0]);
    TailByte(s[1]);
    TailByte(s[2]);
    GatherUnrolled(s, 3, LeadBits(s[0], 3));
    assert IsContinuation(s[1]) && IsContinuation(s[2]);
    Digits(v, 0, s[0] - 0xE0, s[1] - 0x80, s[2] - 0x80);
  }

  lemma FromFour(s: seq<byte>, v: int)
    requires Accepts(s, 4, v)
    ensures Encode(v) == s[..4]
  {
    hide Announced, LeadBits, IsContinuation, Gather, Low6;
    LeadByte(s[0]);
    TailByte(s[1]);
    TailByte(s[2]);
    TailByte(s[3]);
    GatherUnrolled(s, 4, LeadBits(s[0], 4));
    assert IsContinuation(s[1]) && IsContinuation(s[2]) && IsContinuation(s[3]);
    Digits(v, s[0] - 0xF0, s[1] - 0x80, s[2] - 0x80, s[3] - 0x80);
  }

  /** What is accepted is the encoding of the value it spells. */
  lemma AcceptedIsEncoding(s: seq<byte>, n: nat, v: int)
    requires Accepts(s, n, v)
    ensures |Encode(v)| == n && Encode(v) == s[..n]
  {
    hide Encode;
    if n == 1 {
      FromOne(s, v);
    } else if n == 2 {
      FromTwo(s, v);
    } else if n == 3 {
      FromThree(s, v);
    } else {
      FromFour(s, v);
    }
  }

  lemma FromOne(s: seq<byte>, v: int)
    requires Accepts(s, 1, v)
    ensures Encode(v) == s[..1]
  {
  }

  /** Two encodings at the head of the same bytes are encodings of the same scalar. */
  lemma PrefixFree(s: seq<byte>, v: int, w: int)
    requires IsScalar(v) && IsScalar(w) && Encode(v) <= s && Encode(w) <= s
    ensures v == w
  {
    EncodingIsAccepted(s, v);
    EncodingIsAccepted(s, w);
  }

  // --------------------------------------------------- decompositions of a text

  /** A text has at most one decomposition into scalar values. */
  lemma {:induction false} DecompositionUnique(s: seq<byte>, vs: seq<int>, ws: seq<int>)
    requires Decodes(s, vs) && Decodes(s, ws)
    ensures vs == ws
  {
    if vs != [] && ws != [] {
      PrefixFree(s, vs[0], ws[0]);
      var n := |Encode(vs[0])|;
      assert EncodeAll(vs)[n..] == EncodeAll(vs[1..]);
      assert EncodeAll(ws)[n..] == EncodeAll(ws[1..]);
      DecompositionUnique(s[n..], vs[1..], ws[1..]);
    }
  }

  lemma PutBack(s: seq<byte>, v: int, ws: seq<int>)
    requires IsScalar(v) && Encode(v) <= s && Decodes(s[|Encode(v)|..], ws)
    ensures Decodes(s, [v] + ws)
  {
    hide Encode, IsScalar;
    assert ([v] + ws)[1..] == ws;
    assert s == Encode(v) + s[|Encode(v)|..];
  }

  lemma PeelFirst(s: seq<byte>, v: int, vs: seq<int>)
    requires IsScalar(v) && Encode(v) <= s && Decodes(s, vs)
    ensures vs != [] && Decodes(s[|Encode(v)|..], vs[1..])
  {
    EncodedNotEmpty(v);
    hide Encode, IsScalar;
    PrefixFree(s, v, vs[0]);
    assert EncodeAll(vs)[|Encode(v)|..] == EncodeAll(vs[1..]);
  }

  lemma EncodedNotEmpty(v: int)
    requires IsScalar(v)
    ensures Encode(v) != []
  {
  }

  lemma PeelOne(s: seq<byte>, v: int)
    requires IsScalar(v) && Encode(v) <= s
    ensures WellFormed(s) <==> WellFormed(s[|Encode(v)|..])
  {
    hide Decodes, Encode;
    if ws :| Decodes(s[|Encode(v)|..], ws) {
      PutBack(s, v, ws);
    }
    if vs :| Decodes(s, vs) {
      PeelFirst(s, v, vs);
    }
  }

  /** Reading `s` one announced sequence after the other never meets one that is not accepted. */
  ghost predicate Parses(s: seq<byte>)
    decreases |s|
  {
    s == [] || (HeadAccepted(s) && Parses(s[Announced(s[0])..]))
  }

  ghost predicate HeadAccepted(s: seq<byte>)
    requires s != []
  {
    var n := Announced(s[0]);
    1 <= n <= |s| && Accepts(s, n, Gather(s, n, LeadBits(s[0], n)))
  }

  /** Reading sequence by sequence succeeds exactly on the concatenations of encodings. */
  lemma {:induction false} ParsesIffWellFormed(s: seq<byte>)
    ensures Parses(s) <==> WellFormed(s)
    decreases |s|
  {
    if s == [] {
      assert Decodes([], []);
    } else if HeadAccepted(s) {
      var n := Announced(s[0]);
      AcceptedIsEncoding(s, n, Gather(s, n, LeadBits(s[0], n)));
      PeelOne(s, Gather(s, n, LeadBits(s[0], n)));
      ParsesIffWellFormed(s[n..]);
    } else if WellFormed(s) {
      var vs :| Decodes(s, vs);
      EncodingIsAccepted(s, vs[0]);
      assert false;
    }
  }

  /** Once the announced bytes are there, the value alone decides about the head. */
  lemma ValueDecides(s: seq<byte>, n: nat, v: nat)
    requires 1 <= n <= |s| && n == Announced(s[0]) && v == Gather(s, n, LeadBits(s[0], n))
    requires forall k :: 1 <= k < n ==> IsContinuation(s[k])
    ensures Parses(s) <==> Least(n) <= v && IsScalar(v) && Parses(s[n..])
  {
  }

  /** Without them the text is not accepted. */
  lemma HeadMissing(s: seq<byte>, n: nat)
    requires s != [] && n == Announced(s[0])
    requires !(1 <= n <= |s| && forall k :: 1 <= k < n ==> IsContinuation(s[k]))
    ensures !Parses(s)
  {
  }

  lemma NothingParses()
    ensures Parses([])
  {
  }

  // ------------------------------------------------------------------- ic_utf8_*

  /** The validator's inner loop: shifts the continuation bytes after `s[i]` into `lead`. */
  method Collect(s: CString, i: nat, need: nat, lead: nat) returns (ok: bool, cp: nat)
    requires i < |s| && 1 <= need
    ensures ok <==> i + need <= |s| && forall k :: 1 <= k < need ==> IsContinuation(s[i..][k])
    ensures ok ==> cp == Gather(s[i..], need, lead)
  {
    cp := lead;
    var j := 1;
    while j < need
      invariant 1 <= j <= need && i + j <= |s|
      invariant forall k :: 1 <= k < j ==> IsContinuation(s[i..][k])
      invariant cp == Gather(s[i..], j, lead)
    {
      if At(s, i + j) == 0 {
        return false, cp;
      }
      var c2 := s[i + j];
      if c2 / 64 != 2 {
        assert !IsContinuation(s[i..][j]);
        return false, cp;
      }
      cp := cp * 64 + c2 % 64;
      j := j + 1;
    }
    ok := true;
  }

  /** ic_utf8_valid: accepts exactly the concatenations of encodings of scalar values. */
  method Valid(s: CString) returns (ok: bool)
    ensures ok <==> WellFormed(s)
  {
    hide Parses, WellFormed, IsContinuation;
    ParsesIffWellFormed(s);
    NothingParses();
    var i := 0;
    assert s[i..] == s;
    while At(s, i) != 0
      invariant 0 <= i <= |s|
      invariant Parses(s) <==> Parses(s[i..])
      decreases |s| - i
    {
      var b := s[i];
      ghost var rest := s[i..];
      var need: nat, cp: nat;
      if b < 0x80 {
        ValueDecides(rest, 1, b);
        assert rest[1..] == s[i + 1..];
        i := i + 1;
        continue;
      } else if b / 32 == 6 {
        need, cp := 2, b % 32;
      } else if b / 16 == 14 {
        need, cp := 3, b % 16;
      } else if b / 8 == 30 {
        need, cp := 4, b % 8;
      } else {
        HeadMissing(rest, 0);
        return false;
      }
      assert need == Announced(b) && cp == LeadBits(b, need);

      var collected;
      collected, cp := Collect(s, i, need, cp);
      if !collected {
        HeadMissing(rest, need);
        return false;
      }
      ValueDecides(rest, need, cp);
      if (need == 2 && cp < 0x80) || (need == 3 && cp < 0x800) || (need == 4 && cp < 0x1_0000) {
        return false;
      }
      if 0xD800 <= cp <= 0xDFFF {
        return false;
      }
      if cp > 0x10FFFF {
        return false;
      }
      assert rest[need..] == s[i + need..];
      i := i + need;
    }
    assert s[i..] == [];
    return true;
  }

  /** How many bytes of `s` are not continuation bytes. */
  ghost function Leaders(s: seq<byte>): nat {
    if s == [] then 0
    else Leaders(s[..|s| - 1]) + (if IsContinuation(s[|s| - 1]) then 0 else 1)
  }

  lemma {:induction false} LeadersConcat(s: seq<byte>, t: seq<byte>)
    ensures Leaders(s + t) == Leaders(s) + Leaders(t)
  {
    if t == [] {
      assert s + t == s;
    } else {
      assert (s + t)[..|s + t| - 1] == s + t[..|t| - 1];
      LeadersConcat(s, t[..|t| - 1]);
    }
  }

  lemma LeadersOfEncoding(v: int)
    requires IsScalar(v)
    ensures Leaders(Encode(v)) == 1
  {
    var e := Encode(v);
    if |e| == 1 {
      assert e[..0] == [];
    } else if |e| == 2 {
      assert e == [e[0]] + [e[1]];
      LeadersConcat([e[0]], [e[1]]);
    } else if |e| == 3 {
      assert e == [e[0]] + ([e[1]] + [e[2]]);
      LeadersConcat([e[1]], [e[2]]);
      LeadersConcat([e[0]], [e[1]] + [e[2]]);
    } else {
      assert e == ([e[0]] + [e[1]]) + ([e[2]] + [e[3]]);
      LeadersConcat([e[0]], [e[1]]);
      LeadersConcat([e[2]], [e[3]]);
      LeadersConcat([e[0]] + [e[1]], [e[2]] + [e[3]]);
    }
  }

  /** On well-formed text the leaders count the scalar values. */
  lemma {:induction false} LeadersCountScalars(s: seq<byte>, vs: seq<int>)
    requires Decodes(s, vs)
    ensures Leaders(s) == |vs|
    decreases |vs|
  {
    if vs != [] {
      LeadersOfEncoding(vs[0]);
      LeadersConcat(Encode(vs[0]), EncodeAll(vs[1..]));
      LeadersCountScalars(EncodeAll(vs[1..]), vs[1..]);
    }
  }

  /** ic_utf8_len: the number of scalar values of every well-formed text. */
  method Len(s: CString) returns (count: nat)
    ensures forall vs :: Decodes(s, vs) ==> count == |vs|
    ensures count == Leaders(s)
  {
    count := 0;
    var i := 0;
    while At(s, i) != 0
      invariant 0 <= i <= |s|
      invariant count == Leaders(s[..i])
      decreases |s| - i
    {
      assert s[..i + 1][..i] == s[..i];
      if s[i] / 64 != 2 {
        count := count + 1;
      }
      i := i + 1;
    }
    assert s[..i] == s;
    forall vs | Decodes(s, vs) ensures count == |vs| {
      LeadersCountScalars(s, vs);
    }
  }

  // ------------------------------------------------------------------- rt_utf8

  /** The length the browser's decoder reads off a leading byte; 0 for a stray continuation byte. */
  function RtAnnounced(c: byte): nat {
    if c < 0x80 then 1 else if c < 0xC0 then 0 else if c < 0xE0 then 2 else if c < 0xF0 then 3 else 4
  }

  /** How many bytes of `t` from index `j` up to `n` are continuation bytes in a row. */
  function TailRun(t: seq<byte>, j: nat, n: nat): (k: nat)
    ensures j <= n ==> j + k <= n
    ensures j <= |t| ==> j + k <= |t|
    decreases n - j
  {
    if j < n && j < |t| && IsContinuation(t[j]) then 1 + TailRun(t, j + 1, n) else 0
  }

  /** What one decoding step of the browser reads at the head of `t`: a code point and an advance. */
  function RtStep(t: seq<byte>): (r: (nat, nat))
    requires t != []
    ensures 1 <= r.1 <= |t|
  {
    var n := RtAnnounced(t[0]);
    if n == 0 then (0, 1)
    else
      var k := TailRun(t, 1, n);
      if k == n - 1 then (Gather(t, n, LeadBits(t[0], n)), n) else (0, 1 + k)
  }

  /** Decoding `t` to its end, one step after the other. */
  function RtAll(t: seq<byte>): seq<int>
    decreases |t|
  {
    if t == [] then [] else var (cp, adv) := RtStep(t); [cp] + RtAll(t[adv..])
  }

  lemma {:induction false} TailRunFull(t: seq<byte>, j: nat, n: nat)
    requires 1 <= j <= n <= |t| && forall k :: j <= k < n ==> IsContinuation(t[k])
    ensures TailRun(t, j, n) == n - j
    decreases n - j
  {
    if j < n {
      TailRunFull(t, j + 1, n);
    }
  }

  lemma {:induction false} TailRunStops(t: seq<byte>, j: nat, m: nat, n: nat)
    requires 1 <= j <= m < n && m <= |t| && forall k :: j <= k < m ==> IsContinuation(t[k])
    requires m == |t| || !IsContinuation(t[m])
    ensures TailRun(t, j, n) == m - j
    decreases m - j
  {
    if j < m {
      TailRunStops(t, j + 1, m, n);
    }
  }

  /** The browser reads every scalar back from its encoding. */
  lemma RtStepInvertsEncode(t: seq<byte>, v: int)
    requires IsScalar(v) && Encode(v) <= t
    ensures t != [] && RtStep(t) == (v, |Encode(v)|)
  {
    EncodingIsAccepted(t, v);
    TailRunFull(t, 1, |Encode(v)|);
  }

  /** Iterating the browser's decoder over well-formed text yields exactly its scalar values. */
  lemma {:induction false} RtAllInvertsEncodeAll(s: seq<byte>, vs: seq<int>)
    requires Decodes(s, vs)
    ensures RtAll(s) == vs
    decreases |vs|
  {
    if vs != [] {
      RtStepInvertsEncode(s, vs[0]);
      assert s[|Encode(vs[0])|..] == EncodeAll(vs[1..]);
      RtAllInvertsEncodeAll(EncodeAll(vs[1..]), vs[1..]);
    }
  }

  // What one step does, in byte values.

  predicate IsTail(b: byte) {
    0x80 <= b < 0xC0
  }

  function Payload(b: byte): int {
    b as int - 0x80
  }

  /** The length of the sequence a leading byte opens; none opens behind a stray tail. */
  function OpenedBy(b: byte): nat {
    if b < 0x80 then 1 else if b < 0xC0 then 0 else if b < 0xE0 then 2 else if b < 0xF0 then 3 else 4
  }

  /** A whole sequence stands at the head. */
  predicate Complete(t: seq<byte>)
    requires t != []
  {
    var n := OpenedBy(t[0]);
    1 <= n <= |t| && forall k :: 1 <= k < n ==> IsTail(t[k])
  }

  /** Nothing but tails is ever passed over behind the byte a step starts at. */
  lemma RtStepPassesTails(t: seq<byte>)
    requires t != []
    ensures forall k :: 1 <= k < RtStep(t).1 ==> IsTail(t[k])
  {
    TailRunIs(t, 1, RtAnnounced(t[0]));
  }

  lemma {:induction false} TailRunIs(t: seq<byte>, j: nat, n: nat)
    ensures var e := j + TailRun(t, j, n);
            && (forall k :: j <= k < e ==> k < |t| && IsTail(t[k]))
            && (e < n ==> e >= |t| || !IsTail(t[e]))
    decreases n - j
  {
    if j < n && j < |t| && IsContinuation(t[j]) {
      TailRunIs(t, j + 1, n);
    }
  }

  /**
   * On a sequence that is not whole the step yields no code point, and passes over the leading byte and the
   * tails right behind it: up to the first byte that is none, or to the end. A stray tail is passed alone.
   */
  lemma RtStepOnBroken(t: seq<byte>)
    requires t != [] && !Complete(t)
    ensures var (cp, adv) := RtStep(t);
            && cp == 0 && 1 <= adv <= |t|
            && (forall k :: 1 <= k < adv ==> IsTail(t[k]))
            && (IsTail(t[0]) ==> adv == 1)
            && (!IsTail(t[0]) ==> adv == |t| || !IsTail(t[adv]))
  {
    TailRunIs(t, 1, RtAnnounced(t[0]));
  }

  /** On a whole sequence the step yields its payload bits, overlong ones and surrogates included. */
  lemma RtStepOnComplete(t: seq<byte>)
    requires t != [] && Complete(t)
    ensures RtStep(t).1 == OpenedBy(t[0])
    ensures RtStep(t).1 == 1 ==> RtStep(t).0 == t[0]
    ensures RtStep(t).1 == 2 ==> RtStep(t).0 == (t[0] as int - 0xC0) * 64 + Payload(t[1])
    ensures RtStep(t).1 == 3 ==> RtStep(t).0 == (t[0] as int - 0xE0) * 4096 + Payload(t[1]) * 64 + Payload(t[2])
    ensures RtStep(t).1 == 4 ==>
              RtStep(t).0 == (t[0] as int - 0xF0) % 8 * 262144 + Payload(t[1]) * 4096 + Payload(t[2]) * 64 + Payload(t[3])
  {
    hide Gather;
    var n := OpenedBy(t[0]);
    TailRunFull(t, 1, n);
    GatherUnrolled(t, n, LeadBits(t[0], n));
    LeadPayload(t[0]);
    forall k | 1 <= k < n ensures Low6(t[k]) == Payload(t[k]) {
      TailByte(t[k]);
    }
  }

  lemma LeadPayload(b: byte)
    ensures 0xC0 <= b < 0xE0 ==> LeadBits(b, 2) == b as int - 0xC0
    ensures 0xE0 <= b < 0xF0 ==> LeadBits(b, 3) == b as int - 0xE0
    ensures 0xF0 <= b ==> LeadBits(b, 4) == (b as int - 0xF0) % 8
  {
  }

  /** rt_utf8: one decoding step at index `i` of the first `len` bytes. */
  method RtUtf8(p: seq<byte>, i: nat, len: nat) returns (cp: nat, adv: nat)
    requires i < len <= |p|
    ensures (cp, adv) == RtStep(p[i..len])
  {
    ghost var rest := p[i..len];
    var c := p[i];
    if c < 0x80 {
      return c, 1;
    }
    if c < 0xC0 {
      return 0, 1;
    }
    var extra: nat;
    if c < 0xE0 {
      cp, extra := c % 32, 1;
    } else if c < 0xF0 {
      cp, extra := c % 16, 2;
    } else {
      cp, extra := c % 8, 3;
    }
    assert cp == LeadBits(c, extra + 1);
    ghost var lead := cp;
    for k := 0 to extra
      invariant i + 1 + k <= len
      invariant forall m :: 1 <= m <= k ==> IsContinuation(rest[m])
      invariant cp == Gather(rest, k + 1, lead)
    {
      if i + 1 + k >= len {
        TailRunStops(rest, 1, 1 + k, extra + 1);
        return 0, 1 + k;
      }
      var cc := p[i + 1 + k];
      if cc / 64 != 2 {
        TailRunStops(rest, 1, 1 + k, extra + 1);
        return 0, 1 + k;
      }
      cp := cp * 64 + cc % 64;
    }
    TailRunFull(rest, 1, extra + 1);
    adv := 1 + extra;
  }
}
