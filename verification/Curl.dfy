/** curl's own URL and address parsers, and how far they agree with the shared library's. */
module Curl {
  import opened Bytes
  import opened Decimal
  import opened Url
  import Ipv4

  /** parse_u8: the value of the digits at `at`, if there are any and it is at most 255, and how many there are. */
  method ParseU8(text: string, at: nat) returns (r: Option<(nat, nat)>)
    requires at <= |text|
    ensures var e := DigitsEnd(text, at);
            r == if e > at && RunValue(text, at, e) <= 255 then Some((RunValue(text, at, e), e - at)) else None
  {
    hide RunValue, DigitsEnd;
    if at >= |text| || text[at] < '0' || text[at] > '9' {
      return None;
    }
    var value: nat, i: nat := 0, 0;
    RunEmpty(text, at);
    while at + i < |text| && '0' <= text[at + i] <= '9'
      invariant at + i <= |text| && at + i <= DigitsEnd(text, at) && value == RunValue(text, at, at + i) <= 255
    {
      RunStep(text, at, at + i);
      value := value * 10 + DigitValue(text[at + i]);
      if value > 255 {
        RunGrows(text, at, at + i + 1);
        return None;
      }
      i := i + 1;
    }
    r := Some((value, i));
  }

  /** The octet at `i` and where the one behind its dot starts. */
  function Step(s: string, i: nat): (r: Option<(nat, nat)>)
    requires i <= |s|
    ensures r.Some? ==> r.value.0 <= 255 && r.value.1 <= |s|
  {
    var e := DigitsEnd(s, i);
    if e > i && RunValue(s, i, e) <= 255 && e < |s| && s[e] == '.' then Some((RunValue(s, i, e), e + 1)) else None
  }

  lemma OctetsByStep(s: string, i: nat, n: nat)
    requires i <= |s| && n > 0
    ensures n > 1 && Step(s, i).None? ==> Ipv4.Octets(s, i, n) == None
    ensures n > 1 && Step(s, i).Some? ==>
              var rest := Ipv4.Octets(s, Step(s, i).value.1, n - 1);
              Ipv4.Octets(s, i, n) == if rest.None? then None else Some([Step(s, i).value.0] + rest.value)
    ensures n == 1 ==>
              var e := DigitsEnd(s, i);
              Ipv4.Octets(s, i, n) == if e > i && RunValue(s, i, e) <= 255 && e == |s| then Some([RunValue(s, i, e)]) else None
  {
  }

  /** One octet and the dot behind it: the two tests curl repeats for the first three octets. */
  method OctetAndDot(host: string, cursor: nat) returns (r: Option<(nat, nat)>)
    requires cursor <= |host|
    ensures r == Step(host, cursor)
  {
    hide RunValue, DigitsEnd;
    var o := ParseU8(host, cursor);
    if o.None? {
      return None;
    }
    var next := cursor + o.value.1;
    if next >= |host| || host[next] != '.' {
      return None;
    }
    r := Some((o.value.0, next + 1));
  }

  /** curl's try_parse_ipv4, octet by octet: the same function of the string as the library's loop. */
  method TryParseIpv4(host: string) returns (r: Option<nat>)
    requires '\0' !in host
    ensures r == Ipv4.Parse(host)
  {
    hide RunValue, DigitsEnd, Ipv4.Octets, Step, Ipv4.Address;
    Ipv4.NothingRead(host);
    if host == "" {
      return None;
    }
    OctetsByStep(host, 0, 4);
    var a := OctetAndDot(host, 0);
    if a.None? {
      return None;
    }
    OctetsByStep(host, a.value.1, 3);
    var b := OctetAndDot(host, a.value.1);
    if b.None? {
      return None;
    }
    OctetsByStep(host, b.value.1, 2);
    var c := OctetAndDot(host, b.value.1);
    if c.None? {
      return None;
    }
    OctetsByStep(host, c.value.1, 1);
    var d := ParseU8(host, c.value.1);
    if d.None? || c.value.1 + d.value.1 != |host| {
      return None;
    }
    assert [a.value.0] + ([b.value.0] + ([c.value.0] + [d.value.0])) == [a.value.0, b.value.0, c.value.0, d.value.0];
    r := Some(Ipv4.FourOctets(a.value.0, b.value.0, c.value.0, d.value.0));
  }

  class Request {
    const url: string
    const host: array<char>
    const path: array<char>

    ghost predicate Valid() {
      host != path && host.Length == 128 && path.Length == 256 && |url| < 256 && '\0' !in url
    }

    constructor (url: string)
      requires |url| < 256 && '\0' !in url
      ensures Valid() && this.url == url && fresh(host) && fresh(path)
    {
      this.url := url;
      host := new char[128];
      path := new char[256];
    }

    /**
     * parse_http_url: the scheme, host, port and path it finds, and the address, which is the host
     * itself if that is a dotted quad and otherwise the resolver's answer.
     */
    method ParseHttpUrl(resolve: string -> Option<nat>) returns (r: Option<(Target, nat)>)
      requires Valid()
      modifies host, path
      ensures r.Some? <==> CurlAccepts(url, 128) && AddressOf(Parsed(url).value.host, resolve).Some?
      ensures r.Some? ==>
                && r.value == (TargetOf(url), AddressOf(Parsed(url).value.host, resolve).value)
                && Holds(host, 128, Parsed(url).value.host)
                && Holds(path, 256, Path(Parsed(url).value))
    {
      hide HostEnd, PortEnd, RunValue, AllDigits, Parsed, Port, Decomposes, SplitAccepts, CurlAccepts, TargetOf;
      hide SchemeLength, Ipv4.Parse, AddressOf;
      Pieces(url);
      AcceptsAt(url, 128, 256);
      var at, port, tls := SkipScheme();
      if at == 0 {
        return None;
      }
      var n := CopyHost(url, at, host);
      if n.None? || n.value == 0 {
        return None;
      }
      host[n.value] := '\0';
      var name := host[..n.value];
      at := at + n.value;
      var p := FindPort(url, at, port);
      if p.None? {
        return None;
      }
      port, at := p.value.0, p.value.1;
      var ok := StorePath(at);
      if !ok {
        return None;
      }
      NoNul(url, name);
      var ip := FindAddress(name, resolve);
      if ip.None? {
        return None;
      }
      r := Some((Target(tls, port), ip.value));
    }

    /** The address behind a name. */
    static method FindAddress(name: string, resolve: string -> Option<nat>) returns (ip: Option<nat>)
      requires '\0' !in name
      ensures ip == AddressOf(name, resolve)
    {
      ip := TryParseIpv4(name);
      if ip.None? {
        ip := resolve(name);
      }
    }

    /** The first part: an empty URL has no scheme, and "http" is tried before "https". */
    method SkipScheme() returns (at: nat, port: nat, tls: bool)
      ensures at == SchemeLength(url) && (at == 8 <==> tls) && port == if tls then 443 else 80
    {
      at, port, tls := 0, 80, false;
      if url == "" {
        return;
      }
      if "http://" <= url {
        at := 7;
      } else if "https://" <= url {
        at, port, tls := 8, 443, true;
      }
      if at == 7 {
        NotBothSchemes(url);
      }
    }

    /** The last part: the path, cut off where the buffer ends, or "/" if there is none. */
    method StorePath(at: nat) returns (ok: bool)
      requires Valid() && at <= |url|
      modifies path
      ensures ok <==> at == |url| || url[at] == '/'
      ensures ok ==> Holds(path, 256, if at == |url| then "/" else url[at..])
    {
      if at == |url| {
        path[0], path[1] := '/', '\0';
      } else {
        if url[at] != '/' {
          return false;
        }
        var len := CopyPath(url, at, path);
        path[len] := '\0';
        assert url[at..at + len] == url[at..][..len];
      }
      ok := true;
    }
  }

  lemma NotBothSchemes(url: string)
    requires "http://" <= url
    ensures !("https://" <= url)
  {
    assert url[4] == ':' && "https://"[4] == 's';
  }

  function AddressOf(name: string, resolve: string -> Option<nat>): Option<nat> {
    if Ipv4.Parse(name).Some? then Ipv4.Parse(name) else resolve(name)
  }

  lemma NoNul(url: string, name: string)
    requires '\0' !in url && Parsed(url).Some? && name == Parsed(url).value.host
    ensures '\0' !in name
  {
  }

  /**
   * Whatever the library accepts with curl's buffer sizes, curl accepts, and the target, host and path
   * both report are the same functions of the URL; on the URLs curl can hold, the two differ exactly
   * on port zero.
   */
  lemma ParsersAgree(url: string)
    ensures SplitAccepts(url, 128, 256) ==> CurlAccepts(url, 128)
    ensures |url| < 256 ==>
              (SplitAccepts(url, 128, 256) <==> CurlAccepts(url, 128) && TargetOf(url).port > 0)
    ensures |url| < 256 && CurlAccepts(url, 128) ==> |Path(Parsed(url).value)| < 256
  {
  }
}
