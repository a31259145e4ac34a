/** URLs: their grammar, and the library's parser against it. */
module Url {
  import opened Bytes
  import opened Decimal

  // ---------------------------------------------------------------------- the grammar

  /** The four pieces of a URL; `portText` includes its colon, `rest` its slash, and both may be missing. */
  datatype Parts = Parts(tls: bool, host: string, portText: string, rest: string)

  function Scheme(tls: bool): string {
    if tls then "https://" else "http://"
  }

  predicate EndsHost(c: char) {
    c == ':' || c == '/'
  }

  predicate IsHost(h: string) {
    h != "" && forall i :: 0 <= i < |h| ==> !EndsHost(h[i])
  }

  predicate IsPort(t: string) {
    t == "" || (|t| >= 2 && t[0] == ':' && AllDigits(t[1..]))
  }

  predicate IsRest(t: string) {
    t == "" || t[0] == '/'
  }

  predicate Decomposes(s: string, p: Parts) {
    && s == Scheme(p.tls) + p.host + p.portText + p.rest
    && IsHost(p.host) && IsPort(p.portText) && IsRest(p.rest)
  }

  /** The port a URL names, or its scheme's own. */
  function Port(p: Parts): nat
    requires IsPort(p.portText)
  {
    if p.portText != "" then ValueOf(p.portText[1..]) else if p.tls then 443 else 80
  }

  function Path(p: Parts): string {
    if p.rest == "" then "/" else p.rest
  }

  // ------------------------------------------------------------ one scan decides it all

  function HostEnd(s: string, i: nat): (e: nat)
    requires i <= |s|
    ensures i <= e <= |s| && (e == |s| || EndsHost(s[e])) && forall k :: i <= k < e ==> !EndsHost(s[k])
    decreases |s| - i
  {
    if i == |s| || EndsHost(s[i]) then i else HostEnd(s, i + 1)
  }

  function DigitsEnd(s: string, i: nat): (e: nat)
    requires i <= |s|
    ensures i <= e <= |s| && (e == |s| || !IsDigit(s[e])) && forall k :: i <= k < e ==> IsDigit(s[k])
    decreases |s| - i
  {
    if i == |s| || !IsDigit(s[i]) then i else DigitsEnd(s, i + 1)
  }

  function SchemeLength(s: string): (n: nat)
    ensures n <= |s|
  {
    if "https://" <= s then 8 else if "http://" <= s then 7 else 0
  }

  function PortEnd(s: string, e: nat): (d: nat)
    requires e <= |s|
    ensures e <= d <= |s|
  {
    if e < |s| && s[e] == ':' then DigitsEnd(s, e + 1) else e
  }

  function Parsed(s: string): Option<Parts> {
    var a := SchemeLength(s);
    var e := HostEnd(s, a);
    var d := PortEnd(s, e);
    if a == 0 || e == a || d == e + 1 || (d < |s| && s[d] != '/') then None
    else Some(Parts(a == 8, s[a..e], s[e..d], s[d..]))
  }

  lemma HostEndIs(s: string, i: nat, e: nat)
    requires i <= e <= |s| && (e == |s| || EndsHost(s[e])) && forall k :: i <= k < e ==> !EndsHost(s[k])
    ensures HostEnd(s, i) == e
  {
  }

  lemma DigitsEndIs(s: string, i: nat, e: nat)
    requires i <= e <= |s| && (e == |s| || !IsDigit(s[e])) && forall k :: i <= k < e ==> IsDigit(s[k])
    ensures DigitsEnd(s, i) == e
  {
  }

  /** What the scan finds is a decomposition. */
  lemma ParsedDecomposes(s: string)
    requires Parsed(s).Some?
    ensures Decomposes(s, Parsed(s).value) && IsPort(Parsed(s).value.portText)
  {
    var a := SchemeLength(s);
    var e := HostEnd(s, a);
    var d := PortEnd(s, e);
    var p := Parsed(s).value;
    assert s[..a] == Scheme(p.tls);
    Glue(s, a, e, d);
    if d > e {
      assert p.portText[0] == s[e] && p.portText[1..] == s[e + 1..d];
    }
  }

  lemma Glue(s: string, a: nat, e: nat, d: nat)
    requires a <= e <= d <= |s|
    ensures s == s[..a] + s[a..e] + s[e..d] + s[d..]
  {
  }

  lemma Unglue(s: string, w: string, x: string, y: string, z: string)
    requires s == w + x + y + z
    ensures var a := |w|; var e := a + |x|; var d := e + |y|;
            && |s| == d + |z| && s[..a] == w && s[a..e] == x && s[e..d] == y && s[d..] == z
            && (forall k :: a <= k < e ==> s[k] == x[k - a])
            && (forall k :: e <= k < d ==> s[k] == y[k - e])
            && (z != "" ==> s[d] == z[0])
  {
  }

  /** There is no other decomposition. */
  lemma DecompositionIsParsed(s: string, p: Parts)
    requires Decomposes(s, p)
    ensures Parsed(s) == Some(p)
  {
    hide HostEnd, DigitsEnd, PortEnd, Scheme, SchemeLength;
    SchemeLengthIs(s, p);
    SchemeFacts(p.tls);
    Unglue(s, Scheme(p.tls), p.host, p.portText, p.rest);
    HostEndOf(s, p);
    PortEndOf(s, p);
  }

  /** What a URL written without a port, or with one, names: the protocol's own port, or the number written. */
  lemma WrittenUrl(host: string, rest: string, port: nat)
    requires IsHost(host) && IsRest(rest)
    ensures Parsed("http://" + host + rest) == Some(Parts(false, host, "", rest)) && Port(Parts(false, host, "", rest)) == 80
    ensures Parsed("https://" + host + rest) == Some(Parts(true, host, "", rest)) && Port(Parts(true, host, "", rest)) == 443
    ensures forall tls :: var p := Parts(tls, host, ":" + Numeral(port), rest);
              && Parsed((if tls then "https://" else "http://") + host + ":" + Numeral(port) + rest) == Some(p)
              && IsPort(p.portText) && Port(p) == port
    ensures Path(Parts(false, host, "", "")) == "/" && forall p: Parts :: p.rest != "" ==> Path(p) == p.rest
  {
    hide Parsed, IsHost, IsRest, Numeral;
    NumeralValue(port);
    assert (":" + Numeral(port))[1..] == Numeral(port);
    assert "http://" + host + "" + rest == "http://" + host + rest;
    assert "https://" + host + "" + rest == "https://" + host + rest;
    DecompositionIsParsed("http://" + host + rest, Parts(false, host, "", rest));
    DecompositionIsParsed("https://" + host + rest, Parts(true, host, "", rest));
    forall tls
      ensures Parsed((if tls then "https://" else "http://") + host + ":" + Numeral(port) + rest)
           == Some(Parts(tls, host, ":" + Numeral(port), rest))
    {
      var s := (if tls then "https://" else "http://") + host + ":" + Numeral(port) + rest;
      assert s == (if tls then "https://" else "http://") + host + (":" + Numeral(port)) + rest;
      DecompositionIsParsed(s, Parts(tls, host, ":" + Numeral(port), rest));
    }
  }

  lemma SchemeFacts(tls: bool)
    ensures |Scheme(tls)| == if tls then 8 else 7
  {
  }

  lemma HostEndOf(s: string, p: Parts)
    requires Decomposes(s, p)
    ensures HostEnd(s, |Scheme(p.tls)|) == |Scheme(p.tls)| + |p.host|
  {
    hide HostEnd, Scheme;
    Unglue(s, Scheme(p.tls), p.host, p.portText, p.rest);
    HostEndIs(s, |Scheme(p.tls)|, |Scheme(p.tls)| + |p.host|);
  }

  lemma PortEndOf(s: string, p: Parts)
    requires Decomposes(s, p)
    ensures var e := |Scheme(p.tls)| + |p.host|; PortEnd(s, e) == e + |p.portText|
  {
    hide DigitsEnd, Scheme;
    Unglue(s, Scheme(p.tls), p.host, p.portText, p.rest);
    var e := |Scheme(p.tls)| + |p.host|;
    var d := e + |p.portText|;
    if p.portText != "" {
      var digits := p.portText[1..];
      assert forall k :: e + 1 <= k < d ==> s[k] == digits[k - (e + 1)];
      DigitsEndIs(s, e + 1, d);
    }
  }

  lemma SchemeLengthIs(s: string, p: Parts)
    requires Decomposes(s, p)
    ensures SchemeLength(s) == |Scheme(p.tls)| && (SchemeLength(s) == 8 <==> p.tls)
  {
    var t := p.host + p.portText + p.rest;
    assert s == Scheme(p.tls) + t;
    if !p.tls {
      assert s[4] == ':' && "https://"[4] == 's';
    }
  }

  // ---------------------------------------------------------------- runs of digits

  lemma Beginning(s: string, from: nat, end: nat, n: nat)
    requires from <= end <= |s| && n <= end - from
    ensures s[from..end][..n] == s[from..from + n]
  {
    SliceOfSlice(s, from, end, 0, n);
  }

  lemma RunDigits(s: string, from: nat, to: nat)
    requires from <= |s| && from <= to <= DigitsEnd(s, from)
    ensures AllDigits(s[from..to])
  {
  }

  /** The value of the digits between two places of one run. */
  function RunValue(s: string, from: nat, to: nat): (v: nat)
    requires from <= |s| && from <= to <= DigitsEnd(s, from)
  {
    RunDigits(s, from, to);
    ValueOf(s[from..to])
  }

  lemma RunStep(s: string, from: nat, to: nat)
    requires from <= to < |s| && to <= DigitsEnd(s, from) && IsDigit(s[to])
    ensures to < DigitsEnd(s, from) && RunValue(s, from, to + 1) == 10 * RunValue(s, from, to) + DigitValue(s[to])
  {
    RunDigits(s, from, to + 1);
    var t := s[from..|s|];
    Beginning(s, from, |s|, to - from);
    Beginning(s, from, |s|, to + 1 - from);
    ValueStep(t, to - from);
  }

  lemma RunEmpty(s: string, from: nat)
    requires from <= |s|
    ensures RunValue(s, from, from) == 0
  {
  }

  lemma RunGrows(s: string, from: nat, to: nat)
    requires from <= |s| && from <= to <= DigitsEnd(s, from)
    ensures RunValue(s, from, to) <= RunValue(s, from, DigitsEnd(s, from))
  {
    var e := DigitsEnd(s, from);
    RunDigits(s, from, e);
    ValueGrows(s[from..e], to - from);
    Beginning(s, from, e, to - from);
  }

  // --------------------------------------------------------------- the URL parsers

  /** What a caller of either URL parser gets besides the host and path buffers. */
  datatype Target = Target(tls: bool, port: nat)

  /** The loop both parsers copy the host with. */
  method CopyHost(url: string, at: nat, out: array<char>) returns (n: Option<nat>)
    requires at <= |url| && out.Length > 0
    modifies out
    ensures var h := HostEnd(url, at) - at; n == if h < out.Length then Some(h) else None
    ensures n.Some? ==> out[..n.value] == url[at..at + n.value]
  {
    var len: nat := 0;
    while at + len < |url| && url[at + len] != ':' && url[at + len] != '/'
      invariant at + len <= HostEnd(url, at) && len < out.Length
      invariant out[..len] == url[at..at + len]
    {
      if len + 1 >= out.Length {
        return None;
      }
      out[len] := url[at + len];
      len := len + 1;
    }
    n := Some(len);
  }

  /** The loop both parsers read the port's digits with: its value and where it ends, if there are any and they fit. */
  method ReadPort(url: string, at: nat) returns (r: Option<(nat, nat)>)
    requires at <= |url|
    ensures var e := DigitsEnd(url, at);
            r == if e > at && RunValue(url, at, e) <= 65535 then Some((RunValue(url, at, e), e)) else None
  {
    hide RunValue, DigitsEnd;
    if at >= |url| || url[at] < '0' || url[at] > '9' {
      return None;
    }
    var port: nat, i: nat := 0, at;
    RunEmpty(url, at);
    while i < |url| && '0' <= url[i] <= '9'
      invariant at <= i <= DigitsEnd(url, at) && port == RunValue(url, at, i) <= 65535
    {
      RunStep(url, at, i);
      port := port * 10 + DigitValue(url[i]);
      if port > 65535 {
        RunGrows(url, at, i + 1);
        return None;
      }
      i := i + 1;
    }
    r := Some((port, i));
  }

  /** The part of both parsers between host and path: a port if a colon says so, and otherwise the scheme's own. */
  method FindPort(url: string, at: nat, schemePort: nat) returns (r: Option<(nat, nat)>)
    requires at <= |url|
    ensures var d := PortEnd(url, at);
            r == if d == at then Some((schemePort, at))
                 else if d > at + 1 && RunValue(url, at + 1, d) <= 65535 then Some((RunValue(url, at + 1, d), d)) else None
  {
    hide RunValue, DigitsEnd;
    if at < |url| && url[at] == ':' {
      r := ReadPort(url, at + 1);
    } else {
      r := Some((schemePort, at));
    }
  }

  /** The loop both parsers copy the path with, as far as it fits. */
  method CopyPath(url: string, at: nat, out: array<char>) returns (n: nat)
    requires at <= |url| && out.Length > 0
    modifies out
    ensures n == if |url| - at < out.Length then |url| - at else out.Length - 1
    ensures out[..n] == url[at..at + n]
  {
    n := 0;
    while at + n < |url| && n + 1 < out.Length
      invariant at + n <= |url| && n < out.Length && out[..n] == url[at..at + n]
    {
      out[n] := url[at + n];
      n := n + 1;
    }
  }

  /** ic_url_split accepts a URL whose host and path fit and whose port is neither zero nor above 65535. */
  predicate SplitAccepts(s: string, hostCap: nat, pathCap: nat) {
    Parsed(s).Some? &&
    (ParsedDecomposes(s);
     var p := Parsed(s).value;
     |p.host| < hostCap && 1 <= Port(p) <= 65535 && (p.rest == "" || |p.rest| < pathCap))
  }

  /** curl takes port zero as well, and cuts off a path that does not fit. */
  predicate CurlAccepts(s: string, hostCap: nat) {
    Parsed(s).Some? &&
    (ParsedDecomposes(s);
     var p := Parsed(s).value;
     |p.host| < hostCap && Port(p) <= 65535)
  }

  function TargetOf(s: string): Target
    requires Parsed(s).Some?
  {
    ParsedDecomposes(s);
    Target(Parsed(s).value.tls, Port(Parsed(s).value))
  }

  /** What the scan has found, piece by piece. */
  lemma Pieces(s: string)
    ensures var a := SchemeLength(s);
            var e := HostEnd(s, a);
            var d := PortEnd(s, e);
            && (Parsed(s).Some? <==> a > 0 && e > a && d != e + 1 && (d == |s| || s[d] == '/'))
            && (Parsed(s).Some? ==>
                  && Parsed(s).value.host == s[a..e] && Parsed(s).value.rest == s[d..]
                  && TargetOf(s) == Target(a == 8, if d > e then RunValue(s, e + 1, d) else if a == 8 then 443 else 80))
  {
    hide HostEnd, DigitsEnd, PortEnd, SchemeLength, Decomposes, AllDigits, Port, IsPort, RunValue;
    if Parsed(s).Some? {
      ParsedDecomposes(s);
      PortOfParsed(s);
    }
  }

  lemma PortOfParsed(s: string)
    requires Parsed(s).Some? && IsPort(Parsed(s).value.portText)
    ensures var e := HostEnd(s, SchemeLength(s));
            var d := PortEnd(s, e);
            Port(Parsed(s).value) == if d > e then RunValue(s, e + 1, d) else if Parsed(s).value.tls then 443 else 80
  {
    hide SchemeLength, HostEnd;
    var e := HostEnd(s, SchemeLength(s));
    var d := PortEnd(s, e);
    if d > e {
      assert s[e..d][1..] == s[e + 1..d];
    }
  }

  /** The two conditions, in terms of where the scan stops. */
  lemma AcceptsAt(s: string, hostCap: nat, pathCap: nat)
    ensures var a := SchemeLength(s);
            var e := HostEnd(s, a);
            var d := PortEnd(s, e);
            && (CurlAccepts(s, hostCap) <==>
                  && a > 0 && e > a && d != e + 1 && (d == |s| || s[d] == '/') && e - a < hostCap
                  && (d > e ==> RunValue(s, e + 1, d) <= 65535))
            && (SplitAccepts(s, hostCap, pathCap) <==>
                  && CurlAccepts(s, hostCap) && (d > e ==> RunValue(s, e + 1, d) > 0) && (d == |s| || |s| - d < pathCap))
  {
    hide RunValue, HostEnd, DigitsEnd, PortEnd, SchemeLength, Parsed, Decomposes, IsHost, Port;
    Pieces(s);
    if Parsed(s).Some? {
      ParsedDecomposes(s);
      assert TargetOf(s).port == Port(Parsed(s).value);
    }
  }

  /** The last part of ic_url_split: the path, or "/" if there is none. */
  method StorePath(url: string, at: nat, host: array<char>, path: array<char>) returns (ok: bool)
    requires at <= |url| && path.Length > 0 && host.Length > 0 && host != path
    modifies host, path
    ensures ok <==> at == |url| || (url[at] == '/' && |url| - at < path.Length)
    ensures ok ==> Holds(path, path.Length, if at == |url| then "/" else url[at..]) && host[..] == old(host[..])
  {
    if at == |url| {
      path[0] := '\0';
      if path.Length > 1 {
        path[0], path[1] := '/', '\0';
      }
    } else {
      if url[at] != '/' {
        return false;
      }
      var len := CopyPath(url, at, path);
      if at + len < |url| {
        host[0], path[0] := '\0', '\0';
        return false;
      }
      path[len] := '\0';
      assert url[at..at + len] == url[at..];
    }
    ok := true;
  }

  /** The first part of ic_url_split: where the host starts, if the scheme is known, and what the scheme implies. */
  method SkipScheme(url: string) returns (at: nat, port: nat, tls: bool)
    ensures at == SchemeLength(url) && (at == 8 <==> tls) && port == if tls then 443 else 80
  {
    at, port, tls := 0, 80, false;
    if "https://" <= url {
      at, port, tls := 8, 443, true;
    } else if "http://" <= url {
      at := 7;
    }
  }

  /** ic_url_split: which URLs it accepts, and what it finds in them. */
  method UrlSplit(url: string, host: array<char>, path: array<char>) returns (r: Option<Target>)
    requires host.Length > 0 && path.Length > 0 && host != path && '\0' !in url
    modifies host, path
    ensures r.Some? <==> SplitAccepts(url, host.Length, path.Length)
    ensures r.Some? ==>
              && r.value == TargetOf(url)
              && Holds(host, host.Length, Parsed(url).value.host)
              && Holds(path, path.Length, Path(Parsed(url).value))
  {
    hide HostEnd, PortEnd, RunValue, AllDigits, Parsed, Port, Decomposes, SplitAccepts, CurlAccepts, TargetOf, SchemeLength;
    Pieces(url);
    AcceptsAt(url, host.Length, path.Length);
    host[0] := '\0';
    path[0] := '\0';
    var at, port, tls := SkipScheme(url);
    if at == 0 {
      return None;
    }
    var n := CopyHost(url, at, host);
    if n.None? || n.value == 0 {
      return None;
    }
    host[n.value] := '\0';
    at := at + n.value;
    var p := FindPort(url, at, port);
    if p.None? || p.value.0 == 0 {
      return None;
    }
    port, at := p.value.0, p.value.1;
    var ok := StorePath(url, at, host, path);
    if !ok {
      return None;
    }
    r := Some(Target(tls, port));
  }
}
