/**
  Package httpclient: client construction and header defaults, URL joining, the
  request a POST/PUT/PATCH hands to the transport, and the status check of
  DecodeJSONResponse. JSON encoding and decoding and request construction are
  functions passed in; the transport itself is not modelled.
 */
module HttpClient {
  import opened Basics
  import opened GoErrors
  import Http
  import Text

  const Second: int := 1_000_000_000
  const DefaultTimeout: int := 30 * Second

  /** httpclient.Config; a None header map is a nil map. */
  datatype Config = Config(timeout: int, baseURL: string, headers: Option<map<string, string>>)

  /** httpclient.Client: the http.Client timeout, the base URL and the default headers. */
  datatype Client = Client(timeout: int, baseURL: string, headers: Option<map<string, string>>)

  /** The header map as Go reads it: a nil map reads as empty. */
  function Current(h: Option<map<string, string>>): map<string, string>
  {
    match h
    case Some(m) => m
    case None => map[]
  }

  /** New: a 30-second timeout, no base URL, an empty (non-nil) header map. */
  function New(): (c: Client)
    ensures c.timeout == DefaultTimeout && c.baseURL == "" && c.headers == Some(map[])
  {
    Client(DefaultTimeout, "", Some(map[]))
  }

  /** NewWithConfig: a zero timeout becomes 30 seconds and a nil header map an empty one; the rest is kept. */
  function NewWithConfig(cfg: Config): (c: Client)
    ensures c.timeout != 0
    ensures cfg.timeout != 0 ==> c.timeout == cfg.timeout
    ensures cfg.timeout == 0 ==> c.timeout == DefaultTimeout
    ensures c.baseURL == cfg.baseURL
    ensures c.headers.Some? && c.headers.value == Current(cfg.headers)
  {
    Client(if cfg.timeout == 0 then DefaultTimeout else cfg.timeout, cfg.baseURL,
           Some(match cfg.headers case Some(m) => m case None => map[]))
  }

  /** The zero Config gives the same client as New. */
  lemma ZeroConfigIsNew()
    ensures NewWithConfig(Config(0, "", None)) == New()
  {
  }

  /** WithHeader: the key now maps to the value (last write wins); every other header is kept. */
  function WithHeader(c: Client, key: string, value: string): (r: Client)
    ensures r.timeout == c.timeout && r.baseURL == c.baseURL
    ensures r.headers.Some?
    ensures r.headers.value.Keys == Current(c.headers).Keys + {key}
    ensures r.headers.value[key] == value
    ensures forall k :: k in Current(c.headers) && k != key ==> r.headers.value[k] == Current(c.headers)[k]
  {
    c.(headers := Some(Current(c.headers)[key := value]))
  }

  /** WithHeaders: merges the given headers over the current ones; keys not given are kept. */
  function WithHeaders(c: Client, hs: map<string, string>): (r: Client)
    ensures r.timeout == c.timeout && r.baseURL == c.baseURL
    ensures r.headers.Some?
    ensures r.headers.value.Keys == Current(c.headers).Keys + hs.Keys
    ensures forall k :: k in hs ==> r.headers.value[k] == hs[k]
    ensures forall k :: k in Current(c.headers) && k !in hs ==> r.headers.value[k] == Current(c.headers)[k]
  {
    c.(headers := Some(Current(c.headers) + hs))
  }

  /** WithHeader applied to the keys in the order given. */
  function WithEach(c: Client, hs: map<string, string>, ks: seq<string>): Client
    requires forall k :: k in ks ==> k in hs
    decreases |ks|
  {
    if |ks| == 0 then c else WithEach(WithHeader(c, ks[0], hs[ks[0]]), hs, ks[1..])
  }

  /** The entries of hs whose keys are listed in ks. */
  function Restrict(hs: map<string, string>, ks: seq<string>): (r: map<string, string>)
    ensures forall k :: k in r <==> k in ks && k in hs
  {
    map k | k in ks && k in hs :: hs[k]
  }

  /** WithHeader over the listed keys merges exactly those entries, the later calls winning nothing over earlier ones. */
  lemma {:induction false} WithEachMerges(c: Client, hs: map<string, string>, ks: seq<string>)
    requires forall k :: k in ks ==> k in hs
    requires c.headers.Some?
    decreases |ks|
    ensures WithEach(c, hs, ks) == c.(headers := Some(c.headers.value + Restrict(hs, ks)))
  {
    if |ks| > 0 {
      var c' := WithHeader(c, ks[0], hs[ks[0]]);
      WithEachMerges(c', hs, ks[1..]);
      var lhs := c'.headers.value + Restrict(hs, ks[1..]);
      var rhs := c.headers.value + Restrict(hs, ks);
      assert forall k :: k in ks <==> k == ks[0] || k in ks[1..];
      assert lhs.Keys == rhs.Keys;
      assert forall k :: k in lhs ==> lhs[k] == rhs[k];
      assert lhs == rhs;
    } else {
      assert Restrict(hs, ks) == map[];
      assert c.headers.value + map[] == c.headers.value;
    }
  }

  /**
    Whatever order the map is ranged over, WithHeaders is the same as a WithHeader call
    per entry (after the nil map is initialised).
   */
  lemma WithHeadersAnyOrder(c: Client, hs: map<string, string>, ks: seq<string>)
    requires forall k :: k in ks <==> k in hs
    ensures WithEach(c.(headers := Some(Current(c.headers))), hs, ks) == WithHeaders(c, hs)
  {
    WithEachMerges(c.(headers := Some(Current(c.headers))), hs, ks);
    assert Restrict(hs, ks) == hs;
  }

  // ---------------------------------------------------------------------------
  // URLs
  // ---------------------------------------------------------------------------

  function DropTrailingSlash(s: string): string
  {
    if |s| > 0 && s[|s| - 1] == '/' then s[..|s| - 1] else s
  }

  function DropLeadingSlash(s: string): string
  {
    if |s| > 0 && s[0] == '/' then s[1..] else s
  }

  /**
    buildURL: with no base URL the path is used as is, with no path the base URL; otherwise
    the two are joined with exactly one '/' at the junction (one trailing '/' of the base
    and one leading '/' of the path are absorbed into it).
   */
  function BuildURL(base: string, path: string): (u: string)
    ensures base == "" ==> u == path
    ensures base != "" && path == "" ==> u == base
    ensures base != "" && path != "" ==> u == DropTrailingSlash(base) + "/" + DropLeadingSlash(path)
  {
    if base == "" then path
    else if path == "" then base
    else if base[|base| - 1] == '/' && path[0] == '/' then
      assert base == base[..|base| - 1] + "/";
      base + path[1..]
    else if base[|base| - 1] != '/' && path[0] != '/' then base + "/" + path
    else if base[|base| - 1] == '/' then
      assert base == base[..|base| - 1] + "/";
      base + path
    else
      assert path == "/" + path[1..];
      base + path
  }

  /** Joining never loses the path: the URL ends with the path minus at most its leading '/'. */
  lemma BuildURLEndsWithPath(base: string, path: string)
    ensures Text.HasSuffix(BuildURL(base, path), DropLeadingSlash(path))
  {
    var u := BuildURL(base, path);
    var p := DropLeadingSlash(path);
    assert u[|u| - |p|..] == p;
  }

  // ---------------------------------------------------------------------------
  // Requests
  // ---------------------------------------------------------------------------

  /** The request handed to the transport. */
  datatype Request = Request(verb: string, url: string, body: Option<string>, header: Http.Header)

  /** A range order of a map: each of its keys exactly once. */
  predicate IsRangeOrder(hs: map<string, string>, order: seq<string>)
  {
    && (forall k :: k in order ==> k in hs)
    && (forall k :: k in hs ==> k in order)
    && (forall i, j :: 0 <= i < j < |order| ==> order[i] != order[j])
  }

  /** A range order is as long as the map is large. */
  lemma {:induction false} RangeOrderLength(hs: map<string, string>, order: seq<string>)
    requires IsRangeOrder(hs, order)
    ensures |order| == |hs|
    decreases |order|
  {
    if |order| == 0 {
      assert hs.Keys == {};
    } else {
      var rest := hs - {order[0]};
      assert order[0] !in order[1..];
      assert forall k :: k in order[1..] <==> k in rest;
      assert rest.Keys == hs.Keys - {order[0]};
      RangeOrderLength(rest, order[1..]);
    }
  }

  /** The (key, value) pairs for the keys of `order`, in that order. */
  function Pairs(hs: map<string, string>, order: seq<string>): (entries: seq<(string, string)>)
    requires forall k :: k in order ==> k in hs
    ensures |entries| == |order|
    ensures forall i :: 0 <= i < |order| ==> entries[i] == (order[i], hs[order[i]])
  {
    if |order| == 0 then [] else [(order[0], hs[order[0]])] + Pairs(hs, order[1..])
  }

  /** The (key, value) pairs of a header map in a range order: every entry of the map, once each. */
  function InOrder(hs: map<string, string>, order: seq<string>): (entries: seq<(string, string)>)
    requires IsRangeOrder(hs, order)
    ensures |entries| == |order| == |hs|
    ensures forall i :: 0 <= i < |order| ==> entries[i] == (order[i], hs[order[i]])
    ensures forall k :: k in hs ==> exists i :: 0 <= i < |entries| && entries[i] == (k, hs[k])
    ensures forall i, j :: 0 <= i < j < |entries| ==> entries[i].0 != entries[j].0
  {
    RangeOrderLength(hs, order);
    Pairs(hs, order)
  }

  /**
    postPutPatch (and Get/Delete with no body) followed by Do's setHeaders: the body is
    marshalled when present, the request is built, Content-Type is set for a body, and then
    the client's headers are Set in the map's range order `order`.
   */
  function Prepare<B>(c: Client, verb: string, path: string, body: Option<B>,
                      marshal: B -> Result<string, Error>,
                      newRequest: (string, string) -> Option<Error>,
                      order: seq<string>): (r: Result<Request, Error>)
    requires IsRangeOrder(Current(c.headers), order)
    ensures var marshalled := body.None? || marshal(body.value).Ok?;
            r.Ok? <==> marshalled && newRequest(verb, BuildURL(c.baseURL, path)).None?
    ensures r.Ok? ==> r.value.url == BuildURL(c.baseURL, path) && r.value.verb == verb
    ensures r.Ok? ==> (r.value.body.Some? <==> body.Some?)
    ensures r.Ok? && body.Some? ==> r.value.body == Some(marshal(body.value).value)
    ensures body.Some? && marshal(body.value).Err? ==>
              && r.Err? && Unwrap(r.error) == Some(marshal(body.value).error)
              && Message(r.error) == "marshal json: " + Message(marshal(body.value).error)
    ensures (body.None? || marshal(body.value).Ok?) && newRequest(verb, BuildURL(c.baseURL, path)).Some? ==>
              && r.Err? && Unwrap(r.error) == newRequest(verb, BuildURL(c.baseURL, path))
              && Message(r.error) == "create request: " + Message(newRequest(verb, BuildURL(c.baseURL, path)).value)
  {
    var url := BuildURL(c.baseURL, path);
    if body.Some? && marshal(body.value).Err? then Err(Wrapped("marshal json", Some(marshal(body.value).error)))
    else
      var data := if body.Some? then Some(marshal(body.value).value) else None;
      match newRequest(verb, url)
      case Some(e) => Err(Wrapped("create request", Some(e)))
      case None =>
        var h: Http.Header := if body.Some? then Http.HeaderSet(map[], "Content-Type", "application/json") else map[];
        Ok(Request(verb, url, data, Http.SetAll(h, InOrder(Current(c.headers), order))))
  }

  const ContentType: string := "Content-Type"

  /** "Content-Type" is already in canonical form. */
  lemma ContentTypeIsCanonical()
    ensures Http.CanonicalKey(ContentType) == ContentType
  {
    var k := "Content-Type";
    assert forall i :: 0 <= i < |k| ==> Http.IsTokenChar(k[i]);
    assert Http.InCanonicalForm(k, true) by {
      forall i | 0 <= i < |k|
        ensures if Http.WordStart(k, true, i) then !Http.IsAsciiLower(k[i]) else !Http.IsAsciiUpper(k[i])
      {
        assert Http.WordStart(k, true, i) <==> i == 0 || i == 8;
      }
    }
    Http.CanonicalFormIsFixed(k, true);
  }

  /** The header map of a prepared request: Content-Type for a body, then the client's headers in range order. */
  lemma PreparedHeader<B>(c: Client, verb: string, path: string, body: Option<B>,
                          marshal: B -> Result<string, Error>,
                          newRequest: (string, string) -> Option<Error>,
                          order: seq<string>)
    requires IsRangeOrder(Current(c.headers), order)
    requires Prepare(c, verb, path, body, marshal, newRequest, order).Ok?
    ensures var h0: Http.Header := if body.Some? then map[ContentType := ["application/json"]] else map[];
            Prepare(c, verb, path, body, marshal, newRequest, order).value.header
            == Http.SetAll(h0, InOrder(Current(c.headers), order))
  {
    ContentTypeIsCanonical();
    assert Http.HeaderSet(map[], "Content-Type", "application/json") == map[ContentType := ["application/json"]];
  }

  /** Every client header reaches the request, under its canonical key, with the value set last for that key. */
  lemma PreparedHasEveryHeader<B>(c: Client, verb: string, path: string, body: Option<B>,
                                  marshal: B -> Result<string, Error>,
                                  newRequest: (string, string) -> Option<Error>,
                                  order: seq<string>)
    requires IsRangeOrder(Current(c.headers), order)
    requires Prepare(c, verb, path, body, marshal, newRequest, order).Ok?
    ensures var hs := Current(c.headers);
            var header := Prepare(c, verb, path, body, marshal, newRequest, order).value.header;
            forall k :: k in hs ==>
              var i := Http.LastEntryFor(InOrder(hs, order), Http.CanonicalKey(k));
              0 <= i && Http.CanonicalKey(k) in header && header[Http.CanonicalKey(k)] == [hs[order[i]]]
  {
    PreparedHeader(c, verb, path, body, marshal, newRequest, order);
    var h0: Http.Header := if body.Some? then map[ContentType := ["application/json"]] else map[];
    EveryHeaderSet(h0, Current(c.headers), order);
  }

  /** Setting a map's entries in a range order leaves every key set, to the last value for its canonical form. */
  lemma EveryHeaderSet(h0: Http.Header, hs: map<string, string>, order: seq<string>)
    requires IsRangeOrder(hs, order)
    ensures var entries := InOrder(hs, order);
            forall k :: k in hs ==>
              var i := Http.LastEntryFor(entries, Http.CanonicalKey(k));
              0 <= i && Http.CanonicalKey(k) in Http.SetAll(h0, entries)
              && Http.SetAll(h0, entries)[Http.CanonicalKey(k)] == [hs[order[i]]]
  {
    var entries := InOrder(hs, order);
    forall k | k in hs
      ensures var i := Http.LastEntryFor(entries, Http.CanonicalKey(k));
              0 <= i && Http.CanonicalKey(k) in Http.SetAll(h0, entries)
              && Http.SetAll(h0, entries)[Http.CanonicalKey(k)] == [hs[order[i]]]
    {
      var j :| 0 <= j < |entries| && entries[j] == (k, hs[k]);
      assert Http.CanonicalKey(entries[j].0) == Http.CanonicalKey(k);
      Http.SetAllLastWins(h0, entries, Http.CanonicalKey(k));
    }
  }

  /**
    Unless the client's own headers name Content-Type, the request carries
    Content-Type: application/json exactly when it has a body.
   */
  lemma ContentTypeIffBody<B>(c: Client, verb: string, path: string, body: Option<B>,
                             marshal: B -> Result<string, Error>,
                             newRequest: (string, string) -> Option<Error>,
                             order: seq<string>)
    requires IsRangeOrder(Current(c.headers), order)
    requires forall k :: k in order ==> Http.CanonicalKey(k) != ContentType
    requires Prepare(c, verb, path, body, marshal, newRequest, order).Ok?
    ensures var req := Prepare(c, verb, path, body, marshal, newRequest, order).value;
            (ContentType in req.header && req.header[ContentType] == ["application/json"]) <==> body.Some?
  {
    PreparedHeader(c, verb, path, body, marshal, newRequest, order);
    var entries := InOrder(Current(c.headers), order);
    var h0: Http.Header := if body.Some? then map[ContentType := ["application/json"]] else map[];
    Http.SetAllLastWins(h0, entries, ContentType);
  }

  /** A client header named Content-Type (under any spelling) overrides the JSON one, the last such one in range order winning. */
  lemma ClientContentTypeWins<B>(c: Client, verb: string, path: string, body: Option<B>,
                                marshal: B -> Result<string, Error>,
                                newRequest: (string, string) -> Option<Error>,
                                order: seq<string>)
    requires IsRangeOrder(Current(c.headers), order)
    requires Prepare(c, verb, path, body, marshal, newRequest, order).Ok?
    ensures var req := Prepare(c, verb, path, body, marshal, newRequest, order).value;
            var entries := InOrder(Current(c.headers), order);
            var i := Http.LastEntryFor(entries, ContentType);
            i >= 0 ==> ContentType in req.header && req.header[ContentType] == [Current(c.headers)[order[i]]]
  {
    PreparedHeader(c, verb, path, body, marshal, newRequest, order);
    var entries := InOrder(Current(c.headers), order);
    var h0: Http.Header := if body.Some? then map[ContentType := ["application/json"]] else map[];
    Http.SetAllLastWins(h0, entries, ContentType);
  }

  // ---------------------------------------------------------------------------
  // DecodeJSONResponse
  // ---------------------------------------------------------------------------

  const HttpErrorPrefix: string := "http error "

  /** The error for a non-2xx response: the status code and the body text. */
  function StatusError(status: int, body: string): Error
  {
    Leaf(HttpErrorPrefix + Text.Decimal(status) + ": " + body)
  }

  /**
    DecodeJSONResponse: any status outside [200, 300) is an error naming the status and
    the body; on 2xx a nil target succeeds without decoding; otherwise the decoder's error,
    if any, is wrapped.
   */
  function DecodeJSONResponse<T>(status: int, body: string, target: Option<T>,
                                 decode: (string, T) -> Option<Error>): (r: Option<Error>)
    ensures r.None? <==> Http.IsSuccess(status) && (target.None? || decode(body, target.value).None?)
    ensures Http.IsSuccess(status) && target.Some? && decode(body, target.value).Some? ==>
              Unwrap(r.value) == decode(body, target.value)
    ensures !Http.IsSuccess(status) ==> r.Some? && r.value.Leaf?
  {
    if status < 200 || status >= 300 then Some(StatusError(status, body))
    else if target.None? then None
    else
      match decode(body, target.value)
      case Some(e) => Some(Wrapped("decode json", Some(e)))
      case None => None
  }

  /** A status error names its status code: the code can be read back from the message, and the message ends with the body. */
  lemma StatusErrorNamesStatus(status: int, body: string)
    ensures var m := Message(StatusError(status, body));
            && Text.HasPrefix(m, HttpErrorPrefix)
            && Text.ParseDecimal(Text.FieldAfter(m, HttpErrorPrefix, ':')) == Some(status)
            && Text.HasSuffix(m, body)
  {
    var m := Message(StatusError(status, body));
    assert m == HttpErrorPrefix + Text.Decimal(status) + [':'] + (" " + body);
    Text.DecimalFieldRoundTrip(HttpErrorPrefix, status, ':', " " + body);
    assert m[..|HttpErrorPrefix|] == HttpErrorPrefix;
    assert m[|m| - |body|..] == body;
  }
}
