/**
  The RealIP, RealIPWithTrustedProxies and Headers middlewares of package middleware.
  A middleware calls its next handler exactly once on every path; it is modelled by
  what it hands to that call: the (possibly rewritten) request, or the response
  header map after its Set calls.
 */
module Middleware {
  import opened Basics
  import Http
  import Text
  import RealIP

  /** The parts of an http.Request the middlewares read or write. */
  datatype Request = Request(header: Http.Header, remoteAddr: string)

  // ---------------------------------------------------------------------------
  // RealIP
  // ---------------------------------------------------------------------------

  /** RealIP: RemoteAddr becomes the client address realip.Get finds, when it finds one. */
  function RealIPMiddleware(lib: RealIP.NetLib, r: Request): (out: Request)
    requires RealIP.ParsesNoEmpty(lib)
    ensures out.header == r.header
    ensures out.remoteAddr == r.remoteAddr || lib.parseIP(out.remoteAddr).Some?
    ensures RealIP.Selected(lib, r.header, r.remoteAddr).Ok? ==>
              out.remoteAddr == RealIP.Selected(lib, r.header, r.remoteAddr).value
    ensures RealIP.Selected(lib, r.header, r.remoteAddr).Err? ==> out == r
  {
    RealIP.GetIsSelected(lib, r.header, r.remoteAddr);
    RealIP.GetReturnsValid(lib, r.header, r.remoteAddr);
    match RealIP.Get(lib, r.header, r.remoteAddr)
    case Ok(rip) => r.(remoteAddr := rip)
    case Err(_) => r
  }

  // ---------------------------------------------------------------------------
  // RealIPWithTrustedProxies
  // ---------------------------------------------------------------------------

  /** The trusted proxies once parsed: networks (entries with a '/') and single addresses. */
  datatype Trusted = Trusted(nets: seq<RealIP.IPNet>, ips: seq<RealIP.IP>)

  /** Parses the list in order; an entry that does not parse is dropped. */
  function ParseTrusted(lib: RealIP.NetLib, proxies: seq<string>): (t: Trusted)
    ensures |t.nets| + |t.ips| <= |proxies|
    ensures forall n :: n in t.nets <==> exists p :: p in proxies && '/' in p && lib.parseCIDR(p) == Some(n)
    ensures forall ip :: ip in t.ips <==> exists p :: p in proxies && '/' !in p && lib.parseIP(p) == Some(ip)
  {
    if |proxies| == 0 then Trusted([], [])
    else
      var rest := ParseTrusted(lib, proxies[1..]);
      var p := proxies[0];
      assert forall q :: q in proxies <==> q == p || q in proxies[1..];
      if '/' in p then
        match lib.parseCIDR(p)
        case Some(n) => Trusted([n] + rest.nets, rest.ips)
        case None => rest
      else
        match lib.parseIP(p)
        case Some(ip) => Trusted(rest.nets, [ip] + rest.ips)
        case None => rest
  }

  /** slices.ContainsFunc over the addresses with net.IP.Equal. */
  function AnyEqual(ips: seq<RealIP.IP>, ip: RealIP.IP): (r: bool)
    ensures r <==> exists t :: t in ips && RealIP.Equal(ip, t)
  {
    if |ips| == 0 then false
    else RealIP.Equal(ip, ips[0]) || AnyEqual(ips[1..], ip)
  }

  /** slices.ContainsFunc over the networks with net.IPNet.Contains. */
  function AnyNet(nets: seq<RealIP.IPNet>, ip: RealIP.IP): (r: bool)
    ensures r <==> exists n :: n in nets && RealIP.Contains(n, ip)
  {
    if |nets| == 0 then false
    else RealIP.Contains(nets[0], ip) || AnyNet(nets[1..], ip)
  }

  /**
    The trust decision: with no entries at all, any private address is trusted;
    otherwise an address equal to a listed address or inside a listed network.
   */
  function IsTrusted(lib: RealIP.NetLib, proxies: seq<string>, remoteIP: RealIP.IP): bool
  {
    if |proxies| == 0 then RealIP.IsPrivateIP(remoteIP)
    else
      var t := ParseTrusted(lib, proxies);
      AnyEqual(t.ips, remoteIP) || AnyNet(t.nets, remoteIP)
  }

  /** Whether one entry of the list vouches for an address. */
  predicate Vouches(lib: RealIP.NetLib, p: string, remoteIP: RealIP.IP)
  {
    if '/' in p then lib.parseCIDR(p).Some? && RealIP.Contains(lib.parseCIDR(p).value, remoteIP)
    else lib.parseIP(p).Some? && RealIP.Equal(remoteIP, lib.parseIP(p).value)
  }

  /**
    The trust decision entry by entry: an empty list trusts exactly the private ranges;
    a non-empty list trusts exactly the addresses some entry vouches for, so a list
    whose entries all fail to parse trusts nobody, not even private addresses.
   */
  lemma TrustDecision(lib: RealIP.NetLib, proxies: seq<string>, remoteIP: RealIP.IP)
    ensures |proxies| == 0 ==> (IsTrusted(lib, proxies, remoteIP) <==> RealIP.InPrivateRange(remoteIP))
    ensures |proxies| > 0 ==>
              (IsTrusted(lib, proxies, remoteIP) <==> exists p :: p in proxies && Vouches(lib, p, remoteIP))
  {
    if |proxies| == 0 {
      RealIP.IsPrivateIff(remoteIP);
    } else {
      var t := ParseTrusted(lib, proxies);
      if IsTrusted(lib, proxies, remoteIP) {
        if AnyEqual(t.ips, remoteIP) {
          var ip :| ip in t.ips && RealIP.Equal(remoteIP, ip);
          var p :| p in proxies && '/' !in p && lib.parseIP(p) == Some(ip);
          assert Vouches(lib, p, remoteIP);
        } else {
          var n :| n in t.nets && RealIP.Contains(n, remoteIP);
          var p :| p in proxies && '/' in p && lib.parseCIDR(p) == Some(n);
          assert Vouches(lib, p, remoteIP);
        }
      }
      if p :| p in proxies && Vouches(lib, p, remoteIP) {
        if '/' in p {
          assert lib.parseCIDR(p).value in t.nets;
        } else {
          assert lib.parseIP(p).value in t.ips;
        }
      }
    }
  }

  /**
    RealIPWithTrustedProxies: the forwarding headers are believed only when the direct
    peer (the RemoteAddr host) is an address and is trusted.
   */
  function TrustedProxiesMiddleware(lib: RealIP.NetLib, proxies: seq<string>, r: Request): (out: Request)
    requires RealIP.ParsesNoEmpty(lib)
    ensures out.header == r.header
    // an untrusted or unparsable peer cannot change the address the handler sees
    ensures out != r ==>
              && lib.parseIP(RealIP.RemoteHost(lib, r.remoteAddr)).Some?
              && IsTrusted(lib, proxies, lib.parseIP(RealIP.RemoteHost(lib, r.remoteAddr)).value)
    // a trusted peer gets the selection rule's answer
    ensures lib.parseIP(RealIP.RemoteHost(lib, r.remoteAddr)).Some?
            && IsTrusted(lib, proxies, lib.parseIP(RealIP.RemoteHost(lib, r.remoteAddr)).value)
            ==> out == RealIPMiddleware(lib, r)
  {
    var host := RealIP.RemoteHost(lib, r.remoteAddr);
    match lib.parseIP(host)
    case None => r
    case Some(remoteIP) =>
      if IsTrusted(lib, proxies, remoteIP) then
        match RealIP.Get(lib, r.header, r.remoteAddr)
        case Ok(rip) => r.(remoteAddr := rip)
        case Err(_) => r
      else r
  }

  /** Spoofing needs a vouching entry: with a non-empty list, a peer no entry vouches for passes through unchanged. */
  lemma UnlistedPeerCannotSpoof(lib: RealIP.NetLib, proxies: seq<string>, r: Request)
    requires RealIP.ParsesNoEmpty(lib)
    requires |proxies| > 0
    requires lib.parseIP(RealIP.RemoteHost(lib, r.remoteAddr)).Some?
    requires forall p :: p in proxies ==> !Vouches(lib, p, lib.parseIP(RealIP.RemoteHost(lib, r.remoteAddr)).value)
    ensures TrustedProxiesMiddleware(lib, proxies, r) == r
  {
    TrustDecision(lib, proxies, lib.parseIP(RealIP.RemoteHost(lib, r.remoteAddr)).value);
  }

  /** With an empty list, a peer outside the private ranges passes through unchanged. */
  lemma PublicPeerCannotSpoof(lib: RealIP.NetLib, r: Request)
    requires RealIP.ParsesNoEmpty(lib)
    requires lib.parseIP(RealIP.RemoteHost(lib, r.remoteAddr)).Some?
    requires !RealIP.InPrivateRange(lib.parseIP(RealIP.RemoteHost(lib, r.remoteAddr)).value)
    ensures TrustedProxiesMiddleware(lib, [], r) == r
  {
    TrustDecision(lib, [], lib.parseIP(RealIP.RemoteHost(lib, r.remoteAddr)).value);
  }

  // ---------------------------------------------------------------------------
  // Headers
  // ---------------------------------------------------------------------------

  /** One "Name: value" spec: split at its first ':', both sides trimmed; None when it holds no ':'. */
  function ParseSpec(s: string): (r: Option<(string, string)>)
    ensures r.None? <==> ':' !in s
  {
    match Text.SplitFirst(s, ':')
    case None => None
    case Some((name, value)) => Some((Text.TrimSpace(name), Text.TrimSpace(value)))
  }

  /** A parsed spec is a colon-free name, the ':', and a value, each side trimmed. */
  lemma ParseSpecSplits(s: string)
    ensures ParseSpec(s).Some? ==>
              exists name, value :: ':' !in name && s == name + [':'] + value
                                    && ParseSpec(s).value == (Text.TrimSpace(name), Text.TrimSpace(value))
  {
    if ParseSpec(s).Some? {
      var (name, value) := Text.SplitFirst(s, ':').value;
      assert ':' !in name && s == name + [':'] + value;
    }
  }

  /** Headers: for each spec in order that holds a ':', Set the trimmed name to the trimmed value. */
  function ApplyHeaders(w: Http.Header, specs: seq<string>): Http.Header
    decreases |specs|
  {
    if |specs| == 0 then w
    else
      match ParseSpec(specs[0])
      case None => ApplyHeaders(w, specs[1..])
      case Some((name, value)) => ApplyHeaders(Http.HeaderSet(w, name, value), specs[1..])
  }

  /** The (name, value) pairs the specs stand for, in order, malformed specs dropped. */
  function Parsed(specs: seq<string>): (entries: seq<(string, string)>)
    ensures |entries| <= |specs|
    ensures forall e :: e in entries ==> exists s :: s in specs && ParseSpec(s) == Some(e)
    ensures forall s :: s in specs && ParseSpec(s).Some? ==> ParseSpec(s).value in entries
  {
    if |specs| == 0 then []
    else
      var rest := Parsed(specs[1..]);
      var entries := match ParseSpec(specs[0]) case None => rest case Some(e) => [e] + rest;
      ParsedStep(specs, rest, entries);
      entries
  }

  /** One step of Parsed: the pairs of the first spec and of the rest together are those of all the specs. */
  lemma ParsedStep(specs: seq<string>, rest: seq<(string, string)>, entries: seq<(string, string)>)
    requires |specs| > 0
    requires forall e :: e in rest ==> exists s :: s in specs[1..] && ParseSpec(s) == Some(e)
    requires forall s :: s in specs[1..] && ParseSpec(s).Some? ==> ParseSpec(s).value in rest
    requires entries == match ParseSpec(specs[0]) case None => rest case Some(e) => [e] + rest
    ensures forall e :: e in entries ==> exists s :: s in specs && ParseSpec(s) == Some(e)
    ensures forall s :: s in specs && ParseSpec(s).Some? ==> ParseSpec(s).value in entries
  {
    forall e | e in entries
      ensures exists s :: s in specs && ParseSpec(s) == Some(e)
    {
      if e in rest {
        var s :| s in specs[1..] && ParseSpec(s) == Some(e);
        assert s in specs;
      } else {
        assert ParseSpec(specs[0]) == Some(e);
        assert specs[0] in specs;
      }
    }
    forall s | s in specs && ParseSpec(s).Some?
      ensures ParseSpec(s).value in entries
    {
      if s != specs[0] {
        var j :| 0 <= j < |specs| && specs[j] == s;
        assert specs[1..][j - 1] == s;
      }
    }
  }

  /** The middleware is exactly the sequence of Set calls for the parsed pairs. */
  lemma {:induction false} ApplyHeadersSetsParsed(w: Http.Header, specs: seq<string>)
    decreases |specs|
    ensures ApplyHeaders(w, specs) == Http.SetAll(w, Parsed(specs))
  {
    if |specs| > 0 {
      match ParseSpec(specs[0])
      case None =>
        ApplyHeadersSetsParsed(w, specs[1..]);
      case Some((name, value)) =>
        ApplyHeadersSetsParsed(Http.HeaderSet(w, name, value), specs[1..]);
        assert Parsed(specs)[1..] == Parsed(specs[1..]);
    }
  }

  /**
    Under each header name, the response carries the value of the LAST spec naming it
    (under any spelling); a name no spec sets keeps what it had.
   */
  lemma HeadersLastWins(w: Http.Header, specs: seq<string>, k: string)
    ensures var r := ApplyHeaders(w, specs);
            var entries := Parsed(specs);
            var i := Http.LastEntryFor(entries, k);
            && (i >= 0 ==> k in r && r[k] == [entries[i].1])
            && (i < 0 ==> (k in r <==> k in w) && (k in w ==> r[k] == w[k]))
  {
    ApplyHeadersSetsParsed(w, specs);
    Http.SetAllLastWins(w, Parsed(specs), k);
  }

  /** A spec without ':' is skipped. */
  lemma SpecWithoutColonSkipped(w: Http.Header, s: string, specs: seq<string>)
    requires ':' !in s
    ensures ApplyHeaders(w, [s] + specs) == ApplyHeaders(w, specs)
  {
    assert ([s] + specs)[1..] == specs;
  }

  /** Only the first ':' separates: the value keeps any later ':' (as in "Link: <a:b>"). */
  lemma SplitAtFirstColon(name: string, value: string)
    requires ':' !in name
    ensures ParseSpec(name + ":" + value) == Some((Text.TrimSpace(name), Text.TrimSpace(value)))
  {
    var s := name + ":" + value;
    var i := Text.IndexOf(s, ':');
    assert s[|name|] == ':';
    assert i == |name|;
    assert s[..i] == name;
    assert s[i + 1..] == value;
  }
}
