/**
  The string functions of Go's standard library that the modelled code calls:
  strings.TrimSpace, strings.Split on one separator, strings.SplitN(s, sep, 2),
  prefix/suffix tests, and decimal formatting as `fmt` prints `%d`.
  Strings are sequences of runes.
 */
module Text {
  import opened Basics

  /** unicode.IsSpace: the White_Space runes Go's strings.TrimSpace removes. */
  predicate IsSpace(c: char)
  {
    || c == ' ' || ('\t' <= c <= '\r') || c == '\U{85}' || c == '\U{A0}'
    || c == '\U{1680}' || ('\U{2000}' <= c <= '\U{200A}') || c == '\U{2028}'
    || c == '\U{2029}' || c == '\U{202F}' || c == '\U{205F}' || c == '\U{3000}'
  }

  predicate AllSpace(s: string)
  {
    forall i :: 0 <= i < |s| ==> IsSpace(s[i])
  }

  /** Drops leading white space; what is dropped is all space and the rest starts with a non-space. */
  function TrimLeftSpace(s: string): (r: string)
    ensures |r| <= |s| && r == s[|s| - |r|..]
    ensures AllSpace(s[..|s| - |r|])
    ensures r == [] || !IsSpace(r[0])
  {
    if |s| > 0 && IsSpace(s[0]) then
      var r := TrimLeftSpace(s[1..]);
      assert s[1..][|s| - 1 - |r|..] == s[|s| - |r|..];
      AllSpaceCons(s[0], s[1..][..|s| - 1 - |r|]);
      assert s[..|s| - |r|] == [s[0]] + s[1..][..|s| - 1 - |r|];
      r
    else s
  }

  lemma AllSpaceCons(c: char, t: string)
    requires IsSpace(c) && AllSpace(t)
    ensures AllSpace([c] + t)
  {
    assert forall i :: 1 <= i < |t| + 1 ==> ([c] + t)[i] == t[i - 1];
  }

  lemma AllSpaceSnoc(t: string, c: char)
    requires IsSpace(c) && AllSpace(t)
    ensures AllSpace(t + [c])
  {
    assert forall i :: 0 <= i < |t| ==> (t + [c])[i] == t[i];
  }

  /** Drops trailing white space; what is dropped is all space and the rest ends with a non-space. */
  function TrimRightSpace(s: string): (r: string)
    ensures |r| <= |s| && r == s[..|r|]
    ensures AllSpace(s[|r|..])
    ensures r == [] || !IsSpace(r[|r| - 1])
  {
    if |s| > 0 && IsSpace(s[|s| - 1]) then
      var r := TrimRightSpace(s[..|s| - 1]);
      assert s[..|s| - 1][..|r|] == s[..|r|];
      AllSpaceSnoc(s[..|s| - 1][|r|..], s[|s| - 1]);
      assert s[|r|..] == s[..|s| - 1][|r|..] + [s[|s| - 1]];
      r
    else s
  }

  /**
    strings.TrimSpace: the infix of `s` between its leading and trailing white space.
    The result neither starts nor ends with white space.
   */
  function TrimSpace(s: string): (r: string)
    ensures r == [] || (!IsSpace(r[0]) && !IsSpace(r[|r| - 1]))
  {
    TrimRightSpace(TrimLeftSpace(s))
  }

  /** Slicing a suffix of `s` is slicing `s` itself at shifted bounds. */
  lemma SuffixSlices<T>(s: seq<T>, lead: nat, n: nat)
    requires lead + n <= |s|
    ensures s[lead..][..n] == s[lead..lead + n]
    ensures s[lead..][n..] == s[lead + n..]
  {
  }

  /** TrimSpace removes only white space: `s` is spaces, then the result, then spaces. */
  lemma TrimSpaceIsInfix(s: string) returns (lead: nat)
    ensures lead + |TrimSpace(s)| <= |s|
    ensures s[lead..lead + |TrimSpace(s)|] == TrimSpace(s)
    ensures AllSpace(s[..lead]) && AllSpace(s[lead + |TrimSpace(s)|..])
  {
    var l := TrimLeftSpace(s);
    var r := TrimRightSpace(l);
    assert TrimSpace(s) == r;
    lead := |s| - |l|;
    assert l == s[lead..];
    SuffixSlices(s, lead, |r|);
  }

  lemma {:induction false} TrimLeftAllSpace(s: string)
    requires AllSpace(s)
    ensures TrimLeftSpace(s) == []
  {
    if |s| > 0 {
      TrimLeftAllSpace(s[1..]);
    }
  }

  /** A string trims to nothing exactly when it is all white space (validator Blank). */
  lemma {:induction false} TrimSpaceEmptyIff(s: string)
    ensures TrimSpace(s) == [] <==> AllSpace(s)
  {
    if AllSpace(s) {
      TrimLeftAllSpace(s);
    }
    var lead := TrimSpaceIsInfix(s);
    if TrimSpace(s) == [] {
      forall i | 0 <= i < |s|
        ensures IsSpace(s[i])
      {
        if i < lead {
          assert s[i] == s[..lead][i];
        } else {
          assert s[i] == s[lead..][i - lead];
        }
      }
    }
  }

  /** Trimming a trimmed string changes nothing. */
  lemma TrimSpaceIdempotent(s: string)
    ensures TrimSpace(TrimSpace(s)) == TrimSpace(s)
  {
  }

  /** strings.Split(s, string(sep)): the maximal sep-free pieces, in order. */
  function Split(s: string, sep: char): (parts: seq<string>)
    ensures |parts| >= 1
    ensures forall i :: 0 <= i < |parts| ==> sep !in parts[i]
  {
    if |s| == 0 then [""]
    else
      var rest := Split(s[1..], sep);
      if s[0] == sep then [""] + rest else [[s[0]] + rest[0]] + rest[1..]
  }

  /** strings.Join(parts, string(sep)). */
  function Join(parts: seq<string>, sep: char): string
    requires |parts| >= 1
  {
    if |parts| == 1 then parts[0] else parts[0] + [sep] + Join(parts[1..], sep)
  }

  /** Joining the pieces of a split gives back the original string. */
  lemma {:induction false} JoinSplit(s: string, sep: char)
    ensures Join(Split(s, sep), sep) == s
  {
    if |s| > 0 {
      var rest := Split(s[1..], sep);
      JoinSplit(s[1..], sep);
      if s[0] == sep {
        assert Split(s, sep)[1..] == rest;
      } else {
        var parts := Split(s, sep);
        if |rest| == 1 {
          assert parts == [[s[0]] + rest[0]];
        } else {
          assert parts[1..] == rest[1..];
          assert Join(rest, sep) == rest[0] + [sep] + Join(rest[1..], sep);
        }
        assert s == [s[0]] + s[1..];
      }
    }
  }

  /** Splitting a join of sep-free pieces gives back the pieces. */
  lemma {:induction false} SplitJoin(parts: seq<string>, sep: char)
    requires |parts| >= 1
    requires forall i :: 0 <= i < |parts| ==> sep !in parts[i]
    ensures Split(Join(parts, sep), sep) == parts
  {
    if |parts| == 1 {
      SplitSepFree(parts[0], sep);
    } else {
      var tail := Join(parts[1..], sep);
      SplitJoin(parts[1..], sep);
      SplitAfterSepFree(parts[0], sep, tail);
    }
  }

  lemma {:induction false} SplitSepFree(s: string, sep: char)
    requires sep !in s
    ensures Split(s, sep) == [s]
  {
    if |s| > 0 {
      SplitSepFree(s[1..], sep);
      assert s == [s[0]] + s[1..];
    }
  }

  lemma {:induction false} SplitAfterSepFree(a: string, sep: char, t: string)
    requires sep !in a
    ensures Split(a + [sep] + t, sep) == [a] + Split(t, sep)
  {
    if |a| == 0 {
      assert a + [sep] + t == [sep] + t;
      assert ([sep] + t)[1..] == t;
    } else {
      assert (a + [sep] + t)[1..] == a[1..] + [sep] + t;
      SplitAfterSepFree(a[1..], sep, t);
      assert a == [a[0]] + a[1..];
    }
  }

  /** Index of the first `c` in `s`, or |s| when there is none. */
  function IndexOf(s: string, c: char): (i: nat)
    ensures i <= |s|
    ensures forall j :: 0 <= j < i ==> s[j] != c
    ensures i < |s| ==> s[i] == c
  {
    if |s| == 0 then 0 else if s[0] == c then 0 else 1 + IndexOf(s[1..], c)
  }

  /**
    strings.SplitN(s, string(sep), 2) when it yields two elements: the text before
    the FIRST separator and everything after it. None when `s` holds no separator.
   */
  function SplitFirst(s: string, sep: char): (r: Option<(string, string)>)
    ensures r.None? <==> sep !in s
    ensures r.Some? ==> sep !in r.value.0 && s == r.value.0 + [sep] + r.value.1
  {
    var i := IndexOf(s, sep);
    if i == |s| then None
    else
      assert s == s[..i] + [sep] + s[i + 1..];
      Some((s[..i], s[i + 1..]))
  }

  predicate HasPrefix(s: string, p: string)
  {
    |p| <= |s| && s[..|p|] == p
  }

  predicate HasSuffix(s: string, suf: string)
  {
    |suf| <= |s| && s[|s| - |suf|..] == suf
  }

  /** strings.TrimSuffix: removes one occurrence of `suf` at the end, if present. */
  function TrimSuffix(s: string, suf: string): (r: string)
    ensures HasSuffix(s, suf) ==> r + suf == s
    ensures !HasSuffix(s, suf) ==> r == s
  {
    if HasSuffix(s, suf) then
      assert s == s[..|s| - |suf|] + s[|s| - |suf|..];
      s[..|s| - |suf|]
    else s
  }

  // ---------------------------------------------------------------------------
  // Decimal numbers, as fmt prints `%d`
  // ---------------------------------------------------------------------------

  predicate IsDigit(c: char)
  {
    '0' <= c <= '9'
  }

  function DigitChar(d: nat): (c: char)
    requires d < 10
    ensures IsDigit(c) && c as int - '0' as int == d
  {
    ('0' as int + d) as char
  }

  /** Decimal digits of a natural number, most significant first, no leading zero. */
  function NatDigits(n: nat): (s: string)
    ensures |s| >= 1
    ensures forall i :: 0 <= i < |s| ==> IsDigit(s[i])
    ensures |s| > 1 ==> s[0] != '0'
  {
    if n < 10 then [DigitChar(n)] else NatDigits(n / 10) + [DigitChar(n % 10)]
  }

  /** `%d` of an int: a minus sign for negative numbers, then the digits of the magnitude. */
  function Decimal(n: int): string
  {
    if n < 0 then "-" + NatDigits(-n) else NatDigits(n)
  }

  /** The value of a string of decimal digits. */
  function DigitsValue(s: string): nat
    requires forall i :: 0 <= i < |s| ==> IsDigit(s[i])
  {
    if |s| == 0 then 0
    else
      assert IsDigit(s[|s| - 1]);
      10 * DigitsValue(s[..|s| - 1]) + (s[|s| - 1] as int - '0' as int)
  }

  /** Reads back what Decimal prints: an optional minus sign and at least one digit. */
  function ParseDecimal(s: string): Option<int>
  {
    if |s| > 0 && s[0] == '-' then
      var d := s[1..];
      if |d| > 0 && forall i :: 0 <= i < |d| ==> IsDigit(d[i]) then Some(0 - DigitsValue(d)) else None
    else if |s| > 0 && forall i :: 0 <= i < |s| ==> IsDigit(s[i]) then Some(DigitsValue(s))
    else None
  }

  lemma {:induction false} NatDigitsValue(n: nat)
    ensures DigitsValue(NatDigits(n)) == n
  {
    if n >= 10 {
      NatDigitsValue(n / 10);
      var s := NatDigits(n);
      assert s[..|s| - 1] == NatDigits(n / 10);
    }
  }

  /** Decimal round-trips through ParseDecimal. */
  lemma DecimalRoundTrip(n: int)
    ensures ParseDecimal(Decimal(n)) == Some(n)
  {
    if n < 0 {
      var d := NatDigits(-n);
      assert Decimal(n) == "-" + d;
      assert Decimal(n)[0] == '-' && Decimal(n)[1..] == d;
      NatDigitsValue(-n);
    } else {
      var d := NatDigits(n);
      assert IsDigit(d[0]);
      NatDigitsValue(n);
    }
  }

  /** Different numbers print differently, so messages that embed `%d` identify the number. */
  lemma DecimalInjective(m: int, n: int)
    ensures Decimal(m) == Decimal(n) ==> m == n
  {
    DecimalRoundTrip(m);
    DecimalRoundTrip(n);
  }

  /** The text between a prefix and the first `sep` after it ("" when the prefix is absent). */
  function FieldAfter(m: string, prefix: string, sep: char): (f: string)
    ensures HasPrefix(m, prefix) ==> sep !in f
  {
    if !HasPrefix(m, prefix) then ""
    else
      var rest := m[|prefix|..];
      rest[..IndexOf(rest, sep)]
  }

  /**
    A message that prints a number between a prefix and a separator that is neither a
    digit nor '-' names the number: it can be read back from the message.
   */
  lemma DecimalFieldRoundTrip(prefix: string, n: int, sep: char, rest: string)
    requires !IsDigit(sep) && sep != '-'
    ensures FieldAfter(prefix + Decimal(n) + [sep] + rest, prefix, sep) == Decimal(n)
    ensures ParseDecimal(FieldAfter(prefix + Decimal(n) + [sep] + rest, prefix, sep)) == Some(n)
  {
    var d := Decimal(n);
    var m := prefix + d + [sep] + rest;
    assert m[..|prefix|] == prefix;
    var tail := m[|prefix|..];
    assert tail == d + [sep] + rest;
    assert sep !in d by {
      if n < 0 {
        assert forall i :: 1 <= i < |d| ==> d[i] == NatDigits(-n)[i - 1];
      }
    }
    assert tail[|d|] == sep;
    assert IndexOf(tail, sep) == |d|;
    assert tail[..|d|] == d;
    DecimalRoundTrip(n);
  }
}
