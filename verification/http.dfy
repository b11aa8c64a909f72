/**
  The parts of net/http the modelled code relies on: the success status class,
  the two status codes the router inspects, and the header map with Go's
  canonical key form (textproto.CanonicalMIMEHeaderKey), Get and Set.
 */
module Http {

  const StatusOK: int := 200
  /** 405 Method Not Allowed, section 15.5.6 of RFC 9110. */
  const StatusMethodNotAllowed: int := 405

  /** The 2xx (Successful) class of section 15.3 of RFC 9110: codes 200 through 299. */
  predicate IsSuccess(code: int)
  {
    200 <= code < 300
  }

  /** A header: canonical key to its list of values, as http.Header. */
  type Header = map<string, seq<string>>

  predicate IsAsciiLower(c: char) { 'a' <= c <= 'z' }
  predicate IsAsciiUpper(c: char) { 'A' <= c <= 'Z' }

  /** The token characters of RFC 9110 section 5.6.2, which Go accepts in header names. */
  predicate IsTokenChar(c: char)
  {
    || IsAsciiLower(c) || IsAsciiUpper(c) || ('0' <= c <= '9')
    || c in "!#$%&'*+-.^_`|~"
  }

  /**
    Upper-cases the first letter and every letter after '-', lower-cases the others.
    `upper` says whether the current position starts a word.
   */
  function CanonicalWords(s: string, upper: bool): (r: string)
    ensures |r| == |s|
    ensures forall i :: 0 <= i < |s| ==> (r[i] == '-' <==> s[i] == '-')
  {
    if |s| == 0 then ""
    else
      var c := s[0];
      var c' := if upper && IsAsciiLower(c) then (c as int - 32) as char
                else if !upper && IsAsciiUpper(c) then (c as int + 32) as char
                else c;
      [c'] + CanonicalWords(s[1..], c == '-')
  }

  /**
    textproto.CanonicalMIMEHeaderKey: a key made only of token characters is put in
    canonical form ("content-type" becomes "Content-Type"); any other key is kept as is.
   */
  function CanonicalKey(k: string): string
  {
    if forall i :: 0 <= i < |k| ==> IsTokenChar(k[i]) then CanonicalWords(k, true) else k
  }

  /** Whether position i starts a word: the first position when `upper`, or the one after a '-'. */
  predicate WordStart(s: string, upper: bool, i: int)
    requires 0 <= i < |s|
  {
    if i == 0 then upper else s[i - 1] == '-'
  }

  /** A key already in canonical form: no lower-case letter starts a word, no upper-case letter continues one. */
  predicate InCanonicalForm(s: string, upper: bool)
  {
    forall i :: 0 <= i < |s| ==> if WordStart(s, upper, i) then !IsAsciiLower(s[i]) else !IsAsciiUpper(s[i])
  }

  /** Canonicalisation leaves a key already in canonical form unchanged. */
  lemma {:induction false} CanonicalFormIsFixed(s: string, upper: bool)
    requires InCanonicalForm(s, upper)
    ensures CanonicalWords(s, upper) == s
  {
    if |s| > 0 {
      assert WordStart(s, upper, 0) == upper;
      forall i | 0 <= i < |s[1..]|
        ensures if WordStart(s[1..], s[0] == '-', i) then !IsAsciiLower(s[1..][i]) else !IsAsciiUpper(s[1..][i])
      {
        assert WordStart(s[1..], s[0] == '-', i) == WordStart(s, upper, i + 1);
      }
      CanonicalFormIsFixed(s[1..], s[0] == '-');
    }
  }

  lemma {:induction false} CanonicalWordsIdempotent(s: string, upper: bool)
    ensures CanonicalWords(CanonicalWords(s, upper), upper) == CanonicalWords(s, upper)
  {
    if |s| > 0 {
      var r := CanonicalWords(s, upper);
      assert r[0] == '-' <==> s[0] == '-';
      CanonicalWordsIdempotent(s[1..], s[0] == '-');
      assert r[1..] == CanonicalWords(s[1..], s[0] == '-');
    }
  }

  lemma {:induction false} CanonicalWordsKeepsTokens(s: string, upper: bool)
    requires forall i :: 0 <= i < |s| ==> IsTokenChar(s[i])
    ensures var r := CanonicalWords(s, upper); forall i :: 0 <= i < |r| ==> IsTokenChar(r[i])
  {
    if |s| > 0 {
      var r := CanonicalWords(s, upper);
      CanonicalWordsKeepsTokens(s[1..], s[0] == '-');
      assert IsTokenChar(s[0]);
      assert IsTokenChar(r[0]);
      assert r[1..] == CanonicalWords(s[1..], s[0] == '-');
    }
  }

  /** Canonicalising a canonical key changes nothing. */
  lemma CanonicalKeyIdempotent(k: string)
    ensures CanonicalKey(CanonicalKey(k)) == CanonicalKey(k)
  {
    if forall i :: 0 <= i < |k| ==> IsTokenChar(k[i]) {
      CanonicalWordsKeepsTokens(k, true);
      CanonicalWordsIdempotent(k, true);
    }
  }

  /** http.Header.Get: the first value under the canonical key, or "" when there is none. */
  function HeaderGet(h: Header, key: string): (v: string)
    ensures CanonicalKey(key) !in h ==> v == ""
  {
    var k := CanonicalKey(key);
    if k in h && |h[k]| > 0 then h[k][0] else ""
  }

  /** http.Header.Set: replaces every value under the canonical key with the single `value`. */
  function HeaderSet(h: Header, key: string, value: string): (r: Header)
    ensures r.Keys == h.Keys + {CanonicalKey(key)}
    ensures r[CanonicalKey(key)] == [value]
    ensures forall k :: k in h && k != CanonicalKey(key) ==> r[k] == h[k]
  {
    h[CanonicalKey(key) := [value]]
  }

  /** After a Set, Get under any spelling of the same key returns the value that was set. */
  lemma SetThenGet(h: Header, key: string, value: string, probe: string)
    requires CanonicalKey(probe) == CanonicalKey(key)
    ensures HeaderGet(HeaderSet(h, key, value), probe) == value
  {
  }

  /** Sets `entries` one after another, in order (what a loop of Header.Set calls does). */
  function SetAll(h: Header, entries: seq<(string, string)>): Header
    decreases |entries|
  {
    if |entries| == 0 then h
    else SetAll(HeaderSet(h, entries[0].0, entries[0].1), entries[1..])
  }

  /**
    Index of the last entry whose key canonicalises to `k`, or -1 when there is none:
    the entry whose value a sequence of Sets leaves under `k`.
   */
  function LastEntryFor(entries: seq<(string, string)>, k: string): (i: int)
    ensures -1 <= i < |entries|
    ensures i >= 0 ==> CanonicalKey(entries[i].0) == k
    ensures forall j :: i < j < |entries| ==> CanonicalKey(entries[j].0) != k
  {
    if |entries| == 0 then -1
    else
      var t := LastEntryFor(entries[1..], k);
      if t >= 0 then t + 1
      else if CanonicalKey(entries[0].0) == k then 0
      else -1
  }

  /** Sets in order leave, under each key, the value of the last entry for that key; other keys keep theirs. */
  lemma {:induction false} SetAllLastWins(h: Header, entries: seq<(string, string)>, k: string)
    decreases |entries|
    ensures var r := SetAll(h, entries);
            var i := LastEntryFor(entries, k);
            && (i >= 0 ==> k in r && r[k] == [entries[i].1])
            && (i < 0 ==> (k in r <==> k in h) && (k in h ==> r[k] == h[k]))
  {
    if |entries| > 0 {
      var h' := HeaderSet(h, entries[0].0, entries[0].1);
      SetAllLastWins(h', entries[1..], k);
    }
  }
}
