/**
  Client-IP selection of package realip. Addresses are byte sequences as in package net
  (4 bytes, or 16 with IPv4 in the v4-mapped form ::ffff:a.b.c.d). Parsing and the
  global-unicast test are functions of the library, passed in as a NetLib; address
  equality and network membership follow net.IP.Equal and net.IPNet.Contains.
 */
module RealIP {
  import opened Basics
  import opened GoErrors
  import Http
  import Text

  type Byte = bv8
  type IP = seq<Byte>

  /** net.IPNet: network number and mask. */
  datatype IPNet = IPNet(ip: IP, mask: seq<Byte>)

  /** The library functions the selection relies on. */
  datatype NetLib = NetLib(
    parseIP: string -> Option<IP>,          // net.ParseIP; None is a nil IP
    isGlobalUnicast: IP -> bool,            // net.IP.IsGlobalUnicast
    splitHostPort: string -> Option<string>, // the host of net.SplitHostPort, None on error
    parseCIDR: string -> Option<IPNet>)     // the network of net.ParseCIDR, None on error

  /** What every net.ParseIP does: the empty string is not an address. */
  predicate ParsesNoEmpty(lib: NetLib)
  {
    lib.parseIP("").None?
  }

  /** The 12-byte prefix of an IPv4 address in 16-byte form. */
  const V4InV6Prefix: seq<Byte> := [0, 0, 0, 0, 0, 0, 0, 0, 0, 0, 0xff, 0xff]

  /** net.IP.To4: the 4-byte form of an IPv4 address, None for anything else. */
  function To4(ip: IP): (r: Option<IP>)
    ensures r.Some? ==> |r.value| == 4
    ensures |ip| == 4 ==> r == Some(ip)
  {
    if |ip| == 4 then Some(ip)
    else if |ip| == 16 && ip[..12] == V4InV6Prefix then Some(ip[12..])
    else None
  }

  /** net.IP.Equal: same bytes, an IPv4 address being equal to its 16-byte form. */
  function Equal(a: IP, b: IP): (r: bool)
    ensures |a| == |b| ==> (r <==> a == b)
    ensures r ==> To4(a) == To4(b)
  {
    if |a| == |b| then a == b
    else if |a| == 4 && |b| == 16 then b[..12] == V4InV6Prefix && a == b[12..]
    else if |a| == 16 && |b| == 4 then a[..12] == V4InV6Prefix && a[12..] == b
    else false
  }

  /** Equality is symmetric. */
  lemma EqualSymmetric(a: IP, b: IP)
    ensures Equal(a, b) == Equal(b, a)
  {
  }

  /**
    networkNumberAndMask: the network number (4 bytes for IPv4) and a mask of the same
    length; two empty sequences (nil, nil) when the IPNet is malformed.
   */
  function NetworkNumberAndMask(n: IPNet): (r: (seq<Byte>, seq<Byte>))
    ensures |r.0| == |r.1|
  {
    var ip := match To4(n.ip) case Some(v4) => v4 case None => n.ip;
    if To4(n.ip).None? && |ip| != 16 then ([], [])
    else if |n.mask| == 4 then (if |ip| != 4 then ([], []) else (ip, n.mask))
    else if |n.mask| == 16 then (if |ip| == 4 then (ip, n.mask[12..]) else (ip, n.mask))
    else ([], [])
  }

  /** Two bytes agree on the bits a mask byte selects. */
  predicate ByteMatch(x: Byte, y: Byte, m: Byte)
  {
    x & m == y & m
  }

  /** Byte-wise equality under a mask. */
  predicate MaskedEqual(a: seq<Byte>, b: seq<Byte>, m: seq<Byte>)
    requires |a| == |b| == |m|
  {
    |a| == 0 || (ByteMatch(a[0], b[0], m[0]) && MaskedEqual(a[1..], b[1..], m[1..]))
  }

  /** net.IPNet.Contains. */
  function Contains(n: IPNet, ip: IP): bool
  {
    var (nn, m) := NetworkNumberAndMask(n);
    var x := match To4(ip) case Some(v4) => v4 case None => ip;
    |x| == |nn| && MaskedEqual(nn, x, m)
  }

  /**
    The private networks: 10.0.0.0/8, 172.16.0.0/12, 192.168.0.0/16 (section 3 of
    RFC 1918), 169.254.0.0/16 (IPv4 link-local), 100.64.0.0/10 (RFC 6598),
    198.18.0.0/15 (RFC 2544), fc00::/7 (section 3.1 of RFC 4193) and fe80::/10
    (section 2.5.6 of RFC 4291), as net.ParseCIDR builds them.
   */
  function V6(b0: Byte, b1: Byte): IP
  {
    [b0, b1, 0, 0, 0, 0, 0, 0, 0, 0, 0, 0, 0, 0, 0, 0]
  }

  const PrivateNets: seq<IPNet> := [
    IPNet([10, 0, 0, 0], [0xff, 0, 0, 0]),
    IPNet([172, 16, 0, 0], [0xff, 0xf0, 0, 0]),
    IPNet([192, 168, 0, 0], [0xff, 0xff, 0, 0]),
    IPNet([169, 254, 0, 0], [0xff, 0xff, 0, 0]),
    IPNet([100, 64, 0, 0], [0xff, 0xc0, 0, 0]),
    IPNet([198, 18, 0, 0], [0xff, 0xfe, 0, 0]),
    IPNet(V6(0xfc, 0), V6(0xfe, 0)),
    IPNet(V6(0xfe, 0x80), V6(0xff, 0xc0))
  ]

  /** isPrivateSubnet: some private network contains the address (scanned in order). */
  function AnyContains(nets: seq<IPNet>, ip: IP): (r: bool)
    ensures r <==> exists k :: 0 <= k < |nets| && Contains(nets[k], ip)
  {
    if |nets| == 0 then false
    else if Contains(nets[0], ip) then true
    else
      assert forall k :: 1 <= k < |nets| ==> nets[k] == nets[1..][k - 1];
      AnyContains(nets[1..], ip)
  }

  /** isPrivateSubnet / IsPrivateIP. */
  function IsPrivateIP(ip: IP): bool
  {
    AnyContains(PrivateNets, ip)
  }

  /** The private ranges by their first bytes, an independent statement of the eight networks. */
  predicate InPrivateRange(ip: IP)
  {
    if To4(ip).Some? then
      var a := To4(ip).value[0];
      var b := To4(ip).value[1];
      || a == 10
      || (a == 172 && 16 <= b <= 31)
      || (a == 192 && b == 168)
      || (a == 169 && b == 254)
      || (a == 100 && 64 <= b <= 127)
      || (a == 198 && (b == 18 || b == 19))
    else
      && |ip| == 16
      && (ip[0] == 0xfc || ip[0] == 0xfd || (ip[0] == 0xfe && 0x80 <= ip[1] <= 0xbf))
  }

  /** A zero mask makes any two addresses equal. */
  lemma {:induction false} ZeroMaskEqual(a: seq<Byte>, b: seq<Byte>, m: seq<Byte>)
    requires |a| == |b| == |m|
    requires forall i :: 0 <= i < |m| ==> m[i] == 0
    ensures MaskedEqual(a, b, m)
  {
    if |a| > 0 {
      assert ByteMatch(a[0], b[0], m[0]);
      ZeroMaskEqual(a[1..], b[1..], m[1..]);
    }
  }

  /** A mask that is zero beyond its first two bytes compares only those two bytes. */
  lemma MaskedEqualFirstTwo(a: seq<Byte>, b: seq<Byte>, m: seq<Byte>)
    requires |a| == |b| == |m| >= 2
    requires forall i :: 2 <= i < |m| ==> m[i] == 0
    ensures MaskedEqual(a, b, m) <==> ByteMatch(a[0], b[0], m[0]) && ByteMatch(a[1], b[1], m[1])
  {
    assert a[1..][1..] == a[2..] && b[1..][1..] == b[2..] && m[1..][1..] == m[2..];
    ZeroMaskEqual(a[2..], b[2..], m[2..]);
    assert MaskedEqual(a, b, m) == (ByteMatch(a[0], b[0], m[0]) && MaskedEqual(a[1..], b[1..], m[1..]));
    assert MaskedEqual(a[1..], b[1..], m[1..]) == (ByteMatch(a[1], b[1], m[1]) && MaskedEqual(a[2..], b[2..], m[2..]));
  }

  /** The network number and mask of a 4-byte network are its own fields. */
  lemma V4NumberAndMask(n: IPNet)
    requires |n.ip| == 4 && |n.mask| == 4
    ensures NetworkNumberAndMask(n) == (n.ip, n.mask)
  {
  }

  /** The network number and mask of a 16-byte network outside ::ffff:0:0/96 are its own fields. */
  lemma V6NumberAndMask(n: IPNet)
    requires |n.ip| == 16 && |n.mask| == 16 && n.ip[0] != 0
    ensures NetworkNumberAndMask(n) == (n.ip, n.mask)
  {
    assert n.ip[..12][0] == n.ip[0];
  }

  lemma V4NetContains(n: IPNet, ip: IP)
    requires |n.ip| == 4 && |n.mask| == 4 && n.mask[2] == 0 && n.mask[3] == 0
    ensures Contains(n, ip) <==>
              To4(ip).Some? && ByteMatch(n.ip[0], To4(ip).value[0], n.mask[0])
                            && ByteMatch(n.ip[1], To4(ip).value[1], n.mask[1])
  {
    V4NumberAndMask(n);
    var x := match To4(ip) case Some(v4) => v4 case None => ip;
    assert Contains(n, ip) == (|x| == 4 && MaskedEqual(n.ip, x, n.mask));
    if |x| == 4 {
      MaskedEqualFirstTwo(n.ip, x, n.mask);
    }
  }

  lemma V6NetContains(n: IPNet, ip: IP)
    requires |n.ip| == 16 && |n.mask| == 16 && n.ip[0] != 0
    requires forall i :: 2 <= i < 16 ==> n.mask[i] == 0
    ensures Contains(n, ip) <==>
              To4(ip).None? && |ip| == 16
              && ByteMatch(n.ip[0], ip[0], n.mask[0])
              && ByteMatch(n.ip[1], ip[1], n.mask[1])
  {
    V6NumberAndMask(n);
    var x := match To4(ip) case Some(v4) => v4 case None => ip;
    assert Contains(n, ip) == (|x| == 16 && MaskedEqual(n.ip, x, n.mask));
    if |x| == 16 {
      MaskedEqualFirstTwo(n.ip, x, n.mask);
    }
  }

  /** A full mask byte compares the whole byte; a zero one compares nothing. */
  lemma FullAndZeroMask(c: Byte, x: Byte)
    ensures ByteMatch(c, x, 0xff) <==> x == c
    ensures ByteMatch(c, x, 0)
  {
  }

  /** The partial mask bytes of the private networks, and the bytes each one admits. */
  lemma PartialMasks(x: Byte)
    ensures ByteMatch(16, x, 0xf0) <==> 16 <= x <= 31
    ensures ByteMatch(64, x, 0xc0) <==> 64 <= x <= 127
    ensures ByteMatch(18, x, 0xfe) <==> (x == 18 || x == 19)
    ensures ByteMatch(0xfc, x, 0xfe) <==> (x == 0xfc || x == 0xfd)
    ensures ByteMatch(0x80, x, 0xc0) <==> 0x80 <= x <= 0xbf
  {
  }

  /** The six IPv4 networks, each by the first two bytes of the 4-byte form. */
  lemma V4NetsContain(ip: IP)
    ensures var ns := PrivateNets;
            var v := match To4(ip) case Some(v4) => v4 case None => [0, 0, 0, 0];
            && (Contains(ns[0], ip) <==> To4(ip).Some? && v[0] == 10)
            && (Contains(ns[1], ip) <==> To4(ip).Some? && v[0] == 172 && 16 <= v[1] <= 31)
            && (Contains(ns[2], ip) <==> To4(ip).Some? && v[0] == 192 && v[1] == 168)
            && (Contains(ns[3], ip) <==> To4(ip).Some? && v[0] == 169 && v[1] == 254)
            && (Contains(ns[4], ip) <==> To4(ip).Some? && v[0] == 100 && 64 <= v[1] <= 127)
            && (Contains(ns[5], ip) <==> To4(ip).Some? && v[0] == 198 && (v[1] == 18 || v[1] == 19))
  {
    var ns := PrivateNets;
    V4NetContains(ns[0], ip);
    V4NetContains(ns[1], ip);
    V4NetContains(ns[2], ip);
    V4NetContains(ns[3], ip);
    V4NetContains(ns[4], ip);
    V4NetContains(ns[5], ip);
    if To4(ip).Some? {
      var v := To4(ip).value;
      FullAndZeroMask(10, v[0]);
      FullAndZeroMask(0, v[1]);
      FullAndZeroMask(172, v[0]);
      FullAndZeroMask(192, v[0]);
      FullAndZeroMask(168, v[1]);
      FullAndZeroMask(169, v[0]);
      FullAndZeroMask(254, v[1]);
      FullAndZeroMask(100, v[0]);
      FullAndZeroMask(198, v[0]);
      PartialMasks(v[1]);
    }
  }

  /** The shape of a V6 literal: two leading bytes, then zeros. */
  lemma V6Shape(b0: Byte, b1: Byte)
    ensures |V6(b0, b1)| == 16 && V6(b0, b1)[0] == b0 && V6(b0, b1)[1] == b1
    ensures forall i :: 2 <= i < 16 ==> V6(b0, b1)[i] == 0
  {
  }

  /** fc00::/7, by the first byte of a 16-byte address that has no 4-byte form. */
  lemma UniqueLocalContains(ip: IP)
    ensures Contains(PrivateNets[6], ip) <==> To4(ip).None? && |ip| == 16 && (ip[0] == 0xfc || ip[0] == 0xfd)
  {
    var n := PrivateNets[6];
    assert n == IPNet(V6(0xfc, 0), V6(0xfe, 0));
    V6Shape(0xfc, 0);
    V6Shape(0xfe, 0);
    V6NetContains(n, ip);
    if To4(ip).None? && |ip| == 16 {
      FullAndZeroMask(0, ip[1]);
      PartialMasks(ip[0]);
    }
  }

  /** fe80::/10, by the first two bytes of a 16-byte address that has no 4-byte form. */
  lemma LinkLocalContains(ip: IP)
    ensures Contains(PrivateNets[7], ip) <==> To4(ip).None? && |ip| == 16 && ip[0] == 0xfe && 0x80 <= ip[1] <= 0xbf
  {
    var n := PrivateNets[7];
    assert n == IPNet(V6(0xfe, 0x80), V6(0xff, 0xc0));
    V6Shape(0xfe, 0x80);
    V6Shape(0xff, 0xc0);
    V6NetContains(n, ip);
    if To4(ip).None? && |ip| == 16 {
      FullAndZeroMask(0xfe, ip[0]);
      PartialMasks(ip[1]);
    }
  }

  /** The private networks, one by one. */
  lemma IsPrivateByNet(ip: IP)
    ensures IsPrivateIP(ip) <==>
              || Contains(PrivateNets[0], ip) || Contains(PrivateNets[1], ip)
              || Contains(PrivateNets[2], ip) || Contains(PrivateNets[3], ip)
              || Contains(PrivateNets[4], ip) || Contains(PrivateNets[5], ip)
              || Contains(PrivateNets[6], ip) || Contains(PrivateNets[7], ip)
  {
    var ns := PrivateNets;
    assert |ns| == 8;
    if IsPrivateIP(ip) {
      var k :| 0 <= k < |ns| && Contains(ns[k], ip);
      assert k == 0 || k == 1 || k == 2 || k == 3 || k == 4 || k == 5 || k == 6 || k == 7;
    }
  }

  /** IsPrivateIP holds exactly for the addresses in the eight private ranges. */
  lemma IsPrivateIff(ip: IP)
    ensures IsPrivateIP(ip) <==> InPrivateRange(ip)
  {
    IsPrivateByNet(ip);
    V4NetsContain(ip);
    UniqueLocalContains(ip);
    LinkLocalContains(ip);
  }

  /** A public address: global unicast and in no private range. */
  predicate IsPublic(lib: NetLib, e: string)
  {
    lib.parseIP(e).Some? && lib.isGlobalUnicast(lib.parseIP(e).value) && !IsPrivateIP(lib.parseIP(e).value)
  }

  // ---------------------------------------------------------------------------
  // Get, as the source computes it
  // ---------------------------------------------------------------------------

  /** The headers examined, in order. */
  const ForwardedFor: string := "X-Forwarded-For"
  const RealIp: string := "X-Real-Ip"
  const HeaderNames: seq<string> := [ForwardedFor, RealIp]

  /** The trimmed comma-separated entries of a header value; none for an absent or empty header. */
  function Entries(h: Http.Header, name: string): (es: seq<string>)
  {
    var hv := Http.HeaderGet(h, name);
    if hv == "" then [] else TrimAll(Text.Split(hv, ','))
  }

  function TrimAll(parts: seq<string>): (r: seq<string>)
    ensures |r| == |parts|
    ensures forall k :: 0 <= k < |parts| ==> r[k] == Text.TrimSpace(parts[k])
  {
    seq(|parts|, k requires 0 <= k < |parts| => Text.TrimSpace(parts[k]))
  }

  /**
    First pass over one header's trimmed entries, left to right: the first valid entry,
    unless one was already found ("" stands for none yet).
   */
  function FirstValidPass(lib: NetLib, es: seq<string>, first: string): string
    decreases |es|
  {
    if |es| == 0 then first
    else
      var first' := if lib.parseIP(es[0]).Some? && first == "" then es[0] else first;
      FirstValidPass(lib, es[1..], first')
  }

  /** Second pass over one header's trimmed entries, from index i down to 0: the first public entry met. */
  function PublicPass(lib: NetLib, es: seq<string>, i: int): Option<string>
    requires -1 <= i < |es|
    decreases i + 1
  {
    if i < 0 then None
    else if IsPublic(lib, es[i]) then Some(es[i])
    else PublicPass(lib, es, i - 1)
  }

  /** The header loop: a public entry ends it; otherwise the first valid entry is carried on. */
  function ScanHeaders(lib: NetLib, h: Http.Header, names: seq<string>, first: string): (r: (Option<string>, string))
    decreases |names|
  {
    if |names| == 0 then (None, first)
    else
      var hv := Http.HeaderGet(h, names[0]);
      if hv == "" then ScanHeaders(lib, h, names[1..], first)
      else
        var es := Entries(h, names[0]);
        var first' := FirstValidPass(lib, es, first);
        match PublicPass(lib, es, |es| - 1)
        case Some(ip) => (Some(ip), first')
        case None => ScanHeaders(lib, h, names[1..], first')
  }

  /** strconv.Quote for the characters that need a backslash in the common case. */
  function Quote(s: string): (q: string)
    ensures |q| >= 2 && q[0] == '"' && q[|q| - 1] == '"'
  {
    "\"" + QuoteBody(s) + "\""
  }

  function QuoteBody(s: string): string
  {
    if |s| == 0 then ""
    else (if s[0] == '"' || s[0] == '\\' then ['\\', s[0]] else [s[0]]) + QuoteBody(s[1..])
  }

  function NoValidIP(remoteAddr: string): Error
  {
    Leaf("no valid IP found in request: " + Quote(remoteAddr))
  }

  /** The RemoteAddr host: the address without its port when SplitHostPort succeeds. */
  function RemoteHost(lib: NetLib, remoteAddr: string): string
  {
    match lib.splitHostPort(remoteAddr)
    case Some(host) => host
    case None => remoteAddr
  }

  /** realip.Get. */
  function Get(lib: NetLib, h: Http.Header, remoteAddr: string): Result<string, Error>
  {
    var (pub, first) := ScanHeaders(lib, h, HeaderNames, "");
    if pub.Some? then Ok(pub.value)
    else if first != "" then Ok(first)
    else
      var remote := RemoteHost(lib, remoteAddr);
      if lib.parseIP(remote).Some? then Ok(remote) else Err(NoValidIP(remoteAddr))
  }

  // ---------------------------------------------------------------------------
  // The selection rule, stated on its own
  // ---------------------------------------------------------------------------

  /** Index of the leftmost valid entry. */
  function FirstValid(lib: NetLib, es: seq<string>): (r: Option<nat>)
    ensures r.Some? ==> r.value < |es| && lib.parseIP(es[r.value]).Some?
    ensures r.Some? ==> forall k :: 0 <= k < r.value ==> lib.parseIP(es[k]).None?
    ensures r.None? ==> forall k :: 0 <= k < |es| ==> lib.parseIP(es[k]).None?
  {
    if |es| == 0 then None
    else if lib.parseIP(es[0]).Some? then Some(0)
    else
      var t := FirstValid(lib, es[1..]);
      if t.Some? then Some(t.value + 1) else None
  }

  /** Index of the rightmost public entry. */
  function LastPublic(lib: NetLib, es: seq<string>): (r: Option<nat>)
    ensures r.Some? ==> r.value < |es| && IsPublic(lib, es[r.value])
    ensures r.Some? ==> forall k :: r.value < k < |es| ==> !IsPublic(lib, es[k])
    ensures r.None? ==> forall k :: 0 <= k < |es| ==> !IsPublic(lib, es[k])
  {
    if |es| == 0 then None
    else if IsPublic(lib, es[|es| - 1]) then Some(|es| - 1)
    else LastPublic(lib, es[..|es| - 1])
  }

  /** The rightmost public entry of X-Forwarded-For, else of X-Real-Ip. */
  function PublicChoice(lib: NetLib, x: seq<string>, y: seq<string>): (r: Option<string>)
    ensures r.Some? ==> IsPublic(lib, r.value)
  {
    if LastPublic(lib, x).Some? then Some(x[LastPublic(lib, x).value])
    else if LastPublic(lib, y).Some? then Some(y[LastPublic(lib, y).value])
    else None
  }

  /** The leftmost valid entry of X-Forwarded-For, else of X-Real-Ip. */
  function ValidChoice(lib: NetLib, x: seq<string>, y: seq<string>): (r: Option<string>)
    ensures r.Some? ==> lib.parseIP(r.value).Some?
  {
    if FirstValid(lib, x).Some? then Some(x[FirstValid(lib, x).value])
    else if FirstValid(lib, y).Some? then Some(y[FirstValid(lib, y).value])
    else None
  }

  /**
    The selection rule: the rightmost public entry of X-Forwarded-For, else of X-Real-Ip;
    else the leftmost valid entry of X-Forwarded-For, else of X-Real-Ip; else the
    RemoteAddr host if it is an address; else an error naming RemoteAddr.
   */
  function Selected(lib: NetLib, h: Http.Header, remoteAddr: string): Result<string, Error>
  {
    var x := Entries(h, ForwardedFor);
    var y := Entries(h, RealIp);
    match PublicChoice(lib, x, y)
    case Some(e) => Ok(e)
    case None =>
      match ValidChoice(lib, x, y)
      case Some(e) => Ok(e)
      case None =>
        var remote := RemoteHost(lib, remoteAddr);
        if lib.parseIP(remote).Some? then Ok(remote) else Err(NoValidIP(remoteAddr))
  }

  /** The first pass finds the leftmost valid entry; "" stands for none, as no entry "" is valid. */
  lemma {:induction false} FirstValidPassFinds(lib: NetLib, es: seq<string>, first: string)
    decreases |es|
    requires ParsesNoEmpty(lib)
    ensures FirstValidPass(lib, es, first)
            == if first != "" then first
               else if FirstValid(lib, es).Some? then es[FirstValid(lib, es).value] else ""
  {
    if |es| > 0 {
      var first' := if lib.parseIP(es[0]).Some? && first == "" then es[0] else first;
      FirstValidPassFinds(lib, es[1..], first');
      if lib.parseIP(es[0]).Some? {
        assert es[0] != "";
      }
    }
  }

  /** The second pass finds the rightmost public entry among es[..i+1]. */
  lemma {:induction false} PublicPassFinds(lib: NetLib, es: seq<string>, i: int)
    requires -1 <= i < |es|
    decreases i + 1
    ensures PublicPass(lib, es, i) == if LastPublic(lib, es[..i + 1]).Some? then Some(es[LastPublic(lib, es[..i + 1]).value]) else None
  {
    if i >= 0 {
      PublicPassFinds(lib, es, i - 1);
      assert es[..i + 1][..i] == es[..i];
    }
  }

  /** One step of the header loop, in terms of the header's trimmed entries. */
  lemma ScanStep(lib: NetLib, h: Http.Header, names: seq<string>, first: string)
    requires |names| > 0
    ensures var es := Entries(h, names[0]);
            var pick := PublicPass(lib, es, |es| - 1);
            var first' := FirstValidPass(lib, es, first);
            && (pick.Some? ==> ScanHeaders(lib, h, names, first) == (pick, first'))
            && (pick.None? ==> ScanHeaders(lib, h, names, first) == ScanHeaders(lib, h, names[1..], first'))
  {
    if Http.HeaderGet(h, names[0]) == "" {
      assert Entries(h, names[0]) == [];
    }
  }

  /** A public entry is a valid one: no valid entry means no public entry either. */
  lemma NoValidNoPublic(lib: NetLib, es: seq<string>)
    ensures FirstValid(lib, es).None? ==> LastPublic(lib, es).None?
  {
    if LastPublic(lib, es).Some? {
      assert lib.parseIP(es[LastPublic(lib, es).value]).Some?;
    }
  }

  /** What one header contributes: its public pick, and the first valid entry carried on. */
  lemma HeaderPasses(lib: NetLib, es: seq<string>, first: string)
    requires ParsesNoEmpty(lib)
    ensures PublicPass(lib, es, |es| - 1)
            == if LastPublic(lib, es).Some? then Some(es[LastPublic(lib, es).value]) else None
    ensures FirstValidPass(lib, es, first)
            == if first != "" then first
               else if FirstValid(lib, es).Some? then es[FirstValid(lib, es).value] else ""
  {
    PublicPassFinds(lib, es, |es| - 1);
    assert es[..|es|] == es;
    FirstValidPassFinds(lib, es, first);
  }

  /** With no header name left the loop yields no public pick and the carried entry. */
  lemma ScanNone(lib: NetLib, h: Http.Header, names: seq<string>, first: string)
    requires |names| == 0
    ensures ScanHeaders(lib, h, names, first) == (None, first)
  {
  }

  /** The loop over the last header name: its public pick, and the first valid entry carried on. */
  lemma ScanLast(lib: NetLib, h: Http.Header, names: seq<string>, first: string)
    requires |names| == 1
    ensures var es := Entries(h, names[0]);
            && ScanHeaders(lib, h, names, first).0 == PublicPass(lib, es, |es| - 1)
            && ScanHeaders(lib, h, names, first).1 == FirstValidPass(lib, es, first)
  {
    var es := Entries(h, names[0]);
    ScanStep(lib, h, names, first);
    ScanNone(lib, h, names[1..], FirstValidPass(lib, es, first));
  }

  /** The header loop picks the public choice and, failing one, carries the valid choice ("" for none). */
  lemma ScanHeadersChooses(lib: NetLib, h: Http.Header)
    requires ParsesNoEmpty(lib)
    ensures var x := Entries(h, ForwardedFor);
            var y := Entries(h, RealIp);
            var r := ScanHeaders(lib, h, HeaderNames, "");
            && r.0 == PublicChoice(lib, x, y)
            && (r.0.None? && ValidChoice(lib, x, y).Some? ==> r.1 == ValidChoice(lib, x, y).value)
            && (r.0.None? && ValidChoice(lib, x, y).None? ==> r.1 == "")
  {
    var x := Entries(h, ForwardedFor);
    var y := Entries(h, RealIp);
    var firstX := FirstValidPass(lib, x, "");
    var names := HeaderNames;
    assert names[0] == ForwardedFor && names[1..][0] == RealIp;
    ScanStep(lib, h, names, "");
    HeaderPasses(lib, x, "");
    NoValidNoPublic(lib, x);
    if PublicPass(lib, x, |x| - 1).None? {
      ScanLast(lib, h, names[1..], firstX);
      HeaderPasses(lib, y, firstX);
      NoValidNoPublic(lib, y);
    }
  }

  /** Get computes exactly the selection rule. */
  lemma GetIsSelected(lib: NetLib, h: Http.Header, remoteAddr: string)
    requires ParsesNoEmpty(lib)
    ensures Get(lib, h, remoteAddr).Ok? <==> Selected(lib, h, remoteAddr).Ok?
    ensures Get(lib, h, remoteAddr).Ok? ==> Get(lib, h, remoteAddr).value == Selected(lib, h, remoteAddr).value
    ensures Get(lib, h, remoteAddr).Err? ==> Get(lib, h, remoteAddr).error == Selected(lib, h, remoteAddr).error
  {
    ScanHeadersChooses(lib, h);
    var v := ValidChoice(lib, Entries(h, ForwardedFor), Entries(h, RealIp));
    if v.Some? {
      assert v.value != "";
    }
  }

  /** No entry of a header is valid. */
  predicate NoneValid(lib: NetLib, es: seq<string>)
  {
    forall e :: e in es ==> lib.parseIP(e).None?
  }

  lemma FirstValidNoneIff(lib: NetLib, es: seq<string>)
    ensures FirstValid(lib, es).None? <==> NoneValid(lib, es)
  {
    if FirstValid(lib, es).Some? {
      assert es[FirstValid(lib, es).value] in es;
    }
  }

  /** Get fails exactly when no header entry and no RemoteAddr host is a valid address. */
  lemma GetErrIff(lib: NetLib, h: Http.Header, remoteAddr: string)
    requires ParsesNoEmpty(lib)
    ensures Get(lib, h, remoteAddr).Err? <==>
              && NoneValid(lib, Entries(h, ForwardedFor))
              && NoneValid(lib, Entries(h, RealIp))
              && lib.parseIP(RemoteHost(lib, remoteAddr)).None?
    ensures Get(lib, h, remoteAddr).Err? ==> Get(lib, h, remoteAddr).error == NoValidIP(remoteAddr)
  {
    GetIsSelected(lib, h, remoteAddr);
    var x := Entries(h, ForwardedFor);
    var y := Entries(h, RealIp);
    FirstValidNoneIff(lib, x);
    FirstValidNoneIff(lib, y);
    NoValidNoPublic(lib, x);
    NoValidNoPublic(lib, y);
  }

  /** A successful Get returns an address the library accepts. */
  lemma GetReturnsValid(lib: NetLib, h: Http.Header, remoteAddr: string)
    requires ParsesNoEmpty(lib)
    ensures Get(lib, h, remoteAddr).Ok? ==> lib.parseIP(Get(lib, h, remoteAddr).value).Some?
  {
    GetIsSelected(lib, h, remoteAddr);
  }
}
