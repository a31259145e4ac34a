/** Dotted-quad addresses: one grammar and the two parsers the system ships for it. */
module Ipv4 {
  import opened Bytes
  import opened Decimal
  import opened Url

  // ---------------------------------------------------------------------- the grammar

  predicate IsOctet(t: string) {
    t != "" && AllDigits(t) && ValueOf(t) <= 255
  }

  predicate AreOctets(ts: seq<string>) {
    forall i :: 0 <= i < |ts| ==> IsOctet(ts[i])
  }

  /** The text of octets, joined by dots. */
  function Dotted(ts: seq<string>): string
    requires |ts| > 0
  {
    if |ts| == 1 then ts[0] else ts[0] + "." + Dotted(ts[1..])
  }

  ghost predicate IsQuad(s: string, ts: seq<string>) {
    |ts| == 4 && AreOctets(ts) && s == Dotted(ts)
  }

  /** The address four octets stand for, the first one lowest. */
  function Address(vs: seq<nat>): nat
  {
    if vs == [] then 0 else vs[0] + 256 * Address(vs[1..])
  }

  // --------------------------------------------------------------------- the one scan

  /** `n` octets read from `i` to the end of the string. */
  function Octets(s: string, i: nat, n: nat): (r: Option<seq<nat>>)
    requires i <= |s| && n > 0
    ensures r.Some? ==> |r.value| == n
    decreases n
  {
    var e := DigitsEnd(s, i);
    if e == i || RunValue(s, i, e) > 255 then None
    else if n == 1 then (if e == |s| then Some([RunValue(s, i, e)]) else None)
    else if e == |s| || s[e] != '.' then None
    else
      var rest := Octets(s, e + 1, n - 1);
      if rest.None? then None else Some([RunValue(s, i, e)] + rest.value)
  }

  function Values(ts: seq<string>): (vs: seq<nat>)
    requires AreOctets(ts)
    ensures |vs| == |ts|
    decreases |ts|
  {
    if ts == [] then [] else [ValueOf(ts[0])] + Values(ts[1..])
  }

  lemma FirstOctet(s: string, i: nat, t: string, tail: string)
    requires i <= |s| && s[i..] == t + tail && IsOctet(t) && (tail == "" || tail[0] == '.')
    ensures var e := i + |t|;
            && i < e <= |s| && DigitsEnd(s, i) == e && RunValue(s, i, e) == ValueOf(t) <= 255
            && (e == |s| <==> tail == "") && (e < |s| ==> s[e] == '.' && s[e + 1..] == tail[1..])
  {
    var e := i + |t|;
    var whole := s[i..];
    assert whole[..|t|] == t && whole[|t|..] == tail;
    assert s[i..e] == t && s[e..] == tail;
    assert forall k :: i <= k < e ==> s[k] == t[k - i];
    DigitsEndIs(s, i, e);
  }

  lemma LastOctetRead(s: string, i: nat)
    requires i < |s| && DigitsEnd(s, i) == |s| && RunValue(s, i, |s|) <= 255
    ensures Octets(s, i, 1) == Some([RunValue(s, i, |s|)])
  {
    hide DigitsEnd, RunValue;
  }

  lemma OctetRead(s: string, i: nat, e: nat, n: nat)
    requires i < e < |s| && e == DigitsEnd(s, i) && RunValue(s, i, e) <= 255 && s[e] == '.' && n > 0
    requires Octets(s, e + 1, n).Some?
    ensures Octets(s, i, n + 1) == Some([RunValue(s, i, e)] + Octets(s, e + 1, n).value)
  {
    hide DigitsEnd, RunValue;
  }

  /** A string that is octets joined by dots is read as their values. */
  lemma {:induction false} QuadsAreRead(s: string, i: nat, ts: seq<string>)
    requires i <= |s| && |ts| > 0 && AreOctets(ts) && s[i..] == Dotted(ts)
    ensures Octets(s, i, |ts|) == Some(Values(ts))
    decreases |ts|
  {
    hide DigitsEnd, RunValue, IsOctet, Values, Dotted, Octets;
    var t, rest := ts[0], ts[1..];
    assert ts == [t] + rest;
    ValuesCons(t, rest);
    if rest != [] {
      var tail := "." + Dotted(rest);
      assert s[i..] == t + tail;
      FirstOctet(s, i, t, tail);
      assert tail[1..] == Dotted(rest);
      QuadsAreRead(s, i + |t| + 1, rest);
      OctetRead(s, i, i + |t|, |rest|);
    } else {
      assert s[i..] == t + "";
      FirstOctet(s, i, t, "");
      LastOctetRead(s, i);
    }
  }

  lemma ValuesCons(t: string, rest: seq<string>)
    requires IsOctet(t) && AreOctets(rest)
    ensures AreOctets([t] + rest) && Values([t] + rest) == [ValueOf(t)] + Values(rest) && (rest == [] ==> Values([t] + rest) == [ValueOf(t)])
    ensures Dotted([t] + rest) == if rest == [] then t else t + "." + Dotted(rest)
  {
    assert ([t] + rest)[1..] == rest;
  }

  /** What there is when octets are read. */
  lemma OctetsRead(s: string, i: nat, n: nat)
    requires i <= |s| && n > 0 && Octets(s, i, n).Some?
    ensures var e := DigitsEnd(s, i);
            && i < e && RunValue(s, i, e) <= 255 && (n == 1 ==> e == |s|)
            && (n > 1 ==> e < |s| && s[e] == '.' && Octets(s, e + 1, n - 1).Some?)
  {
    hide DigitsEnd, RunValue;
  }

  /** And whatever is read is octets joined by dots. */
  lemma {:induction false} ReadAreQuads(s: string, i: nat, n: nat) returns (ts: seq<string>)
    requires i <= |s| && n > 0 && Octets(s, i, n).Some?
    ensures |ts| == n && AreOctets(ts) && s[i..] == Dotted(ts)
    decreases n
  {
    hide IsOctet, RunValue, DigitsEnd, Octets, Dotted, Values;
    var e := DigitsEnd(s, i);
    var t := s[i..e];
    OctetAt(s, i);
    OctetsRead(s, i, n);
    if n == 1 {
      ts := [t];
      ValuesCons(t, []);
      assert [t] + [] == [t];
    } else {
      var rest := ReadAreQuads(s, e + 1, n - 1);
      ts := [t] + rest;
      ValuesCons(t, rest);
    }
  }

  lemma OctetAt(s: string, i: nat)
    requires i <= |s|
    ensures var e := DigitsEnd(s, i);
            && (e > i && RunValue(s, i, e) <= 255 ==> IsOctet(s[i..e]))
            && (e == |s| ==> s[i..] == s[i..e])
            && (e < |s| && s[e] == '.' ==> s[i..] == s[i..e] + "." + s[e + 1..])
  {
    var e := DigitsEnd(s, i);
    RunDigits(s, i, e);
  }

  /** The scan succeeds exactly on dotted quads. */
  lemma ReadIffQuad(s: string)
    ensures Octets(s, 0, 4).Some? <==> exists ts :: IsQuad(s, ts)
    ensures forall ts :: IsQuad(s, ts) ==> Octets(s, 0, 4) == Some(Values(ts))
  {
    assert s[0..] == s;
    if Octets(s, 0, 4).Some? {
      var ts := ReadAreQuads(s, 0, 4);
      assert IsQuad(s, ts);
    }
    forall ts | IsQuad(s, ts) ensures Octets(s, 0, 4) == Some(Values(ts)) {
      QuadsAreRead(s, 0, ts);
    }
  }

  /** An address keeps its octets apart, the first one lowest. */
  lemma AddressHoldsOctets(a: byte, b: byte, c: byte, d: byte)
    ensures var ip := FourOctets(a, b, c, d);
            ip % 256 == a && ip / 256 % 256 == b && ip / 65536 % 256 == c && ip / 16777216 == d
  {
    hide Address;
    var x, y, z, w: int := a, b, c, d;
    var ip := x + 256 * (y + 256 * (z + 256 * w));
    assert ip == FourOctets(a, b, c, d);
    assert ip / 256 == y + 256 * (z + 256 * w);
    assert ip / 65536 == z + 256 * w;
  }

  /** Four numbers up to 255, written with dots between, are read back as themselves. */
  lemma WrittenQuadParses(a: byte, b: byte, c: byte, d: byte)
    ensures Parse(Numeral(a) + "." + Numeral(b) + "." + Numeral(c) + "." + Numeral(d)) == Some(FourOctets(a, b, c, d))
  {
    hide Numeral, Octets, Address, ValueOf, IsQuad;
    var ts := [Numeral(a), Numeral(b), Numeral(c), Numeral(d)];
    NumeralValue(a);
    NumeralValue(b);
    NumeralValue(c);
    NumeralValue(d);
    FourDotted(ts[0], ts[1], ts[2], ts[3]);
    ReadIffQuad(Numeral(a) + "." + Numeral(b) + "." + Numeral(c) + "." + Numeral(d));
  }

  lemma DotsJoin(a: string, b: string, c: string, d: string)
    ensures a + "." + (b + "." + (c + "." + d)) == a + "." + b + "." + c + "." + d
  {
  }

  lemma NoOctets()
    ensures AreOctets([]) && Values([]) == []
  {
  }

  lemma FourDotted(a: string, b: string, c: string, d: string)
    requires IsOctet(a) && IsOctet(b) && IsOctet(c) && IsOctet(d)
    ensures AreOctets([a, b, c, d]) && IsQuad(a + "." + b + "." + c + "." + d, [a, b, c, d])
    ensures Values([a, b, c, d]) == [ValueOf(a), ValueOf(b), ValueOf(c), ValueOf(d)]
  {
    hide IsOctet, ValueOf, Dotted, Values, AreOctets;
    NoOctets();
    ValuesCons(d, []);
    ValuesCons(c, [d]);
    ValuesCons(b, [c, d]);
    ValuesCons(a, [b, c, d]);
    assert [d] == [d] + [] && [c, d] == [c] + [d] && [b, c, d] == [b] + [c, d] && [a, b, c, d] == [a] + [b, c, d];
    DotsJoin(a, b, c, d);
  }

  /** What both parsers return. */
  function Parse(s: string): Option<nat> {
    var o := Octets(s, 0, 4);
    if o.None? then None else Some(Address(o.value))
  }

  // -------------------------------------------------------------------- the two parsers

  function FourOctets(a: nat, b: nat, c: nat, d: nat): (ip: nat)
    requires a <= 255 && b <= 255 && c <= 255 && d <= 255
    ensures ip == Address([a, b, c, d]) && ip < U32
  {
    assert Address([d]) == d + 256 * Address([]) == d;
    assert Address([c, d]) == c + 256 * Address([d]);
    assert Address([b, c, d]) == b + 256 * Address([c, d]);
    assert Address([a, b, c, d]) == a + 256 * Address([b, c, d]);
    a + b * 256 + c * 65536 + d * 16777216
  }

  /** ic_try_parse_ipv4: one loop over the four octets. */
  method TryParse(host: string) returns (r: Option<nat>)
    requires '\0' !in host
    ensures r == Parse(host)
  {
    hide Octets, Continues, RunValue, DigitsEnd;
    NothingRead(host);
    if host == "" {
      return None;
    }
    var octets: seq<nat> := [];
    var p: nat, o: nat := 0, 0;
    while o < 4
      invariant o <= 4 && p <= |host| && |octets| == o && forall k :: 0 <= k < o ==> octets[k] <= 255
      invariant o < 4 ==> Continues(host, octets, p, 4 - o)
      invariant o == 4 ==> Octets(host, 0, 4) == if p == |host| then Some(octets) else None
    {
      NoOctet(host, octets, p, 4 - o);
      if p >= |host| || host[p] < '0' || host[p] > '9' {
        return None;
      }
      var v: nat := 0;
      ghost var from := p;
      RunEmpty(host, from);
      while p < |host| && '0' <= host[p] <= '9'
        invariant from <= p <= |host| && p <= DigitsEnd(host, from) && v == RunValue(host, from, p) <= 255
      {
        RunStep(host, from, p);
        v := v * 10 + DigitValue(host[p]);
        if v > 255 {
          RunGrows(host, from, p + 1);
          return None;
        }
        p := p + 1;
      }
      ContinueStep(host, octets, from, 4 - o, p, v);
      octets := octets + [v];
      if o < 3 {
        if p >= |host| || host[p] != '.' {
          return None;
        }
        p := p + 1;
      }
      o := o + 1;
    }
    if p < |host| {
      return None;
    }
    assert octets == [octets[0], octets[1], octets[2], octets[3]];
    r := Some(FourOctets(octets[0], octets[1], octets[2], octets[3]));
  }

  lemma NothingRead(s: string)
    ensures Continues(s, [], 0, 4) && (s == "" ==> Octets(s, 0, 4) == None)
  {
    var all := Octets(s, 0, 4);
    assert all.Some? ==> [] + all.value == all.value;
  }

  lemma NoOctet(s: string, done: seq<nat>, p: nat, n: nat)
    requires p <= |s| && n > 0 && Continues(s, done, p, n)
    ensures p == |s| || !IsDigit(s[p]) || RunValue(s, p, DigitsEnd(s, p)) > 255 ==> Octets(s, 0, 4) == None
  {
  }

  /** The octets read so far, followed by what is still to be read, are what the whole scan yields. */
  ghost predicate Continues(s: string, done: seq<nat>, p: nat, n: nat)
    requires p <= |s| && n > 0
  {
    var rest := Octets(s, p, n);
    Octets(s, 0, 4) == if rest.None? then None else Some(done + rest.value)
  }

  /** One octet further. */
  lemma ContinueStep(s: string, done: seq<nat>, from: nat, n: nat, e: nat, v: nat)
    requires from < e <= |s| && n > 0 && Continues(s, done, from, n) && e == DigitsEnd(s, from) && v == RunValue(s, from, e) <= 255
    ensures n > 1 && e < |s| && s[e] == '.' ==> Continues(s, done + [v], e + 1, n - 1)
    ensures n > 1 && (e == |s| || s[e] != '.') ==> Octets(s, 0, 4) == None
    ensures n == 1 ==> Octets(s, 0, 4) == if e == |s| then Some(done + [v]) else None
  {
    hide DigitsEnd, RunValue;
    if n > 1 && e < |s| && s[e] == '.' {
      var rest := Octets(s, e + 1, n - 1);
      assert rest.Some? ==> done + [v] + rest.value == done + ([v] + rest.value);
    }
  }
}
