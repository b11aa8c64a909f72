/**
  Route-pattern rewriting of package router: the split of "METHOD path" patterns with
  the regular expression `^(\S+)\s+(.+)$`, the base-path prefixing and `{$}` rewrite of
  register, the trailing-slash rule of Handle, and the patterns of HandleFiles and
  HandleRoot.
 */
module RoutePatterns {
  import opened Basics
  import Http
  import Text

  /** `\s` of Go's regexp syntax (RE2): tab, newline, form feed, carriage return, space. */
  predicate IsReSpace(c: char)
  {
    c == '\t' || c == '\n' || c == '\U{C}' || c == '\r' || c == ' '
  }

  /** No `\s` character, so the whole string stays inside one regexp group. */
  predicate SpaceFree(s: string)
  {
    forall k :: 0 <= k < |s| ==> !IsReSpace(s[k])
  }

  /** The end of the run of non-`\s` characters starting at `i`. */
  function NonSpaceRun(s: string, i: nat): (j: nat)
    requires i <= |s|
    decreases |s| - i
    ensures i <= j <= |s|
    ensures forall k :: i <= k < j ==> !IsReSpace(s[k])
    ensures j < |s| ==> IsReSpace(s[j])
  {
    if i == |s| || IsReSpace(s[i]) then i else NonSpaceRun(s, i + 1)
  }

  /** The end of the run of `\s` characters starting at `i`. */
  function SpaceRun(s: string, i: nat): (j: nat)
    requires i <= |s|
    decreases |s| - i
    ensures i <= j <= |s|
    ensures forall k :: i <= k < j ==> IsReSpace(s[k])
    ensures j < |s| ==> !IsReSpace(s[j])
  {
    if i == |s| || !IsReSpace(s[i]) then i else SpaceRun(s, i + 1)
  }

  /**
    `s` matches `^(\S+)\s+(.+)$` with group 1 = m and group 2 = p: m is a non-empty run of
    non-`\s`, followed by a non-empty run of `\s`, followed by p, non-empty and without a
    newline (`.` does not match '\n').
   */
  ghost predicate ReMatch(s: string, m: string, p: string)
  {
    && |m| >= 1 && |p| >= 1 && |m| + |p| < |s|
    && s[..|m|] == m && s[|s| - |p|..] == p
    && (forall k :: 0 <= k < |m| ==> !IsReSpace(s[k]))
    && (forall k :: |m| <= k < |s| - |p| ==> IsReSpace(s[k]))
    && '\n' !in p
  }

  /**
    FindStringSubmatch of `^(\S+)\s+(.+)$` as (method, path), None when there is no match.
    Group 1 is the maximal leading non-space run; `\s+` is greedy, so the path starts after
    the whole white-space run, except that a path of white space alone keeps the last
    white-space character (the regexp backtracks one step for `.+`).
   */
  function Go122Split(s: string): (r: Option<(string, string)>)
    ensures r.Some? ==> |r.value.0| >= 1 && SpaceFree(r.value.0)
    ensures r.Some? ==> |r.value.1| >= 1 && '\n' !in r.value.1
    // the path begins with white space only in the one-character backtracking case
    ensures r.Some? && IsReSpace(r.value.1[0]) ==> |r.value.1| == 1
  {
    var a := NonSpaceRun(s, 0);
    if a == 0 || a == |s| then None
    else
      var b := SpaceRun(s, a);
      if '\n' in s[b..] then None
      else if b < |s| then Some((s[..a], s[b..]))
      else if b - a >= 2 && s[b - 1] != '\n' then Some((s[..a], s[b - 1..]))
      else None
  }

  /** Every split Go122Split returns is a match of the regular expression. */
  lemma Go122SplitSound(s: string)
    requires Go122Split(s).Some?
    ensures ReMatch(s, Go122Split(s).value.0, Go122Split(s).value.1)
  {
    var a := NonSpaceRun(s, 0);
    var b := SpaceRun(s, a);
    var p := Go122Split(s).value.1;
    if b == |s| {
      assert p == s[b - 1..];
      assert p == [s[b - 1]];
    }
  }

  /**
    Every match is found, with the same method, and the returned path is the shortest
    possible one: the leftmost-first choice of the greedy `\s+`.
   */
  lemma Go122SplitComplete(s: string, m: string, p: string)
    requires ReMatch(s, m, p)
    ensures Go122Split(s).Some?
    ensures Go122Split(s).value.0 == m
    ensures |Go122Split(s).value.1| <= |p|
  {
    var a := NonSpaceRun(s, 0);
    assert IsReSpace(s[|m|]);
    assert a == |m|;
    var b := SpaceRun(s, a);
    assert b >= |s| - |p|;
    assert s[b..] == p[|p| - (|s| - b)..];
    assert forall k :: 0 <= k < |s| - b ==> s[b..][k] == p[|p| - (|s| - b) + k];
    assert '\n' !in s[b..];
    if b == |s| {
      assert s[b - 1] == p[|p| - 1];
    }
  }

  /** A pattern without a match has no "METHOD path" reading at all. */
  lemma Go122SplitNoneIffNoMatch(s: string)
    ensures Go122Split(s).None? <==> forall m, p :: !ReMatch(s, m, p)
  {
    if Go122Split(s).Some? {
      Go122SplitSound(s);
    }
    forall m, p | ReMatch(s, m, p)
      ensures Go122Split(s).Some?
    {
      Go122SplitComplete(s, m, p);
    }
  }

  /**
    A path that begins with a non-space character and holds no newline -- such as any
    path starting with '/' -- splits back out of "method path" unchanged.
   */
  lemma SplitOfMethodPattern(verb: string, path: string)
    requires |verb| >= 1 && SpaceFree(verb)
    requires |path| >= 1 && !IsReSpace(path[0]) && '\n' !in path
    ensures Go122Split(verb + " " + path) == Some((verb, path))
  {
    var s := verb + " " + path;
    assert forall k :: 0 <= k < |verb| ==> s[k] == verb[k];
    assert s[|verb|] == ' ';
    assert NonSpaceRun(s, 0) == |verb|;
    assert SpaceRun(s, |verb|) == |verb| + 1 by {
      assert s[|verb|] == ' ';
      assert s[|verb| + 1] == path[0];
    }
    assert s[..|verb|] == verb;
    assert s[|verb| + 1..] == path;
  }

  /** The pattern register hands to the mux for `pattern` on a group with base path `base`. */
  function RegisterPattern(base: string, pattern: string): (r: string)
    ensures Go122Split(pattern).None? ==> Text.HasPrefix(r, base)
    ensures Go122Split(pattern).Some? ==>
              Text.HasPrefix(r, Go122Split(pattern).value.0 + " " + base)
  {
    match Go122Split(pattern)
    case Some((verb, path)) =>
      if path == "/" then verb + " " + base + "/{$}" else verb + " " + base + path
    case None =>
      var full := base + pattern;
      if full == "/" || pattern == "/" then base + "/{$}" else full
  }

  /** The path part of a registered pattern: what follows the verb, or all of it. */
  function RegisteredPath(base: string, pattern: string): (p: string)
  {
    match Go122Split(pattern)
    case Some((_, path)) => base + (if path == "/" then "/{$}" else path)
    case None => if base + pattern == "/" || pattern == "/" then base + "/{$}" else base + pattern
  }

  /**
    register keeps the method: a "METHOD path" pattern is registered as the same method
    followed by the base path and the path ("/" becoming "/{$}"), whatever white space
    separated them. Needs a path that does not begin with white space and a base path
    that cannot merge with the separator.
   */
  lemma RegisterKeepsMethod(base: string, pattern: string)
    requires Go122Split(pattern).Some? && !IsReSpace(Go122Split(pattern).value.1[0])
    requires '\n' !in base && (|base| > 0 ==> !IsReSpace(base[0]))
    ensures var (verb, path) := Go122Split(pattern).value;
            Go122Split(RegisterPattern(base, pattern)) == Some((verb, RegisteredPath(base, pattern)))
  {
    var (verb, path) := Go122Split(pattern).value;
    var tail := if path == "/" then "/{$}" else path;
    var rest := base + tail;
    assert rest == RegisteredPath(base, pattern);
    assert RegisterPattern(base, pattern) == verb + " " + rest;
    assert '\n' !in tail && !IsReSpace(tail[0]);
    assert rest[0] == (if |base| == 0 then tail[0] else base[0]);
    SplitOfMethodPattern(verb, rest);
  }

  /** "/" on an unprefixed group matches only the root itself. */
  lemma RegisterSlashIsExact()
    ensures RegisterPattern("", "/") == "/{$}"
  {
    assert NonSpaceRun("/", 1) == 1;
    assert Go122Split("/") == None;
  }

  /** A mounted group prefixes its base path. */
  lemma RegisterMountedPath()
    ensures RegisterPattern("/api", "/ping") == "/api/ping"
  {
    var s := "/ping";
    assert NonSpaceRun(s, 5) == 5;
    assert NonSpaceRun(s, 0) == 5;
    assert Go122Split(s) == None;
  }

  /** A method pattern keeps its method, and "/" under a base path becomes an exact match. */
  lemma RegisterMethodRoot()
    ensures RegisterPattern("/api", "GET  /") == "GET /api/{$}"
  {
    var s := "GET  /";
    assert NonSpaceRun(s, 3) == 3;
    assert NonSpaceRun(s, 0) == 3;
    assert SpaceRun(s, 5) == 5;
    assert SpaceRun(s, 3) == 5;
    assert s[..3] == "GET" && s[5..] == "/";
    assert Go122Split(s) == Some(("GET", "/"));
  }

  // ---------------------------------------------------------------------------
  // Handle: a trailing-slash pattern skips register
  // ---------------------------------------------------------------------------

  /**
    A method Go's ServeMux accepts in a pattern: a non-empty HTTP token. The mux takes
    everything before the first space or tab as the method and panics at registration
    ("invalid method") when it is not a token.
   */
  predicate MuxAcceptsMethod(m: string)
  {
    |m| > 0 && forall i :: 0 <= i < |m| ==> Http.IsTokenChar(m[i])
  }

  /** Handle's pattern as the source computes it: a trailing '/' prefixes the base path verbatim. */
  function HandlePatternAsWritten(base: string, pattern: string): (r: string)
    ensures Text.HasSuffix(pattern, "/") ==> r == base + pattern
    ensures !Text.HasSuffix(pattern, "/") ==> r == RegisterPattern(base, pattern)
    ensures !(Text.HasSuffix(pattern, "/") && Go122Split(pattern).Some?) ==> r == HandlePattern(base, pattern)
  {
    if Text.HasSuffix(pattern, "/") then base + pattern else RegisterPattern(base, pattern)
  }

  /**
    On a mounted group a trailing-slash "METHOD path" pattern loses its method: the base
    path is glued in front of the verb, so the first field of the registered pattern is
    base + verb, which is no HTTP token when the base path holds a '/' (registration then
    panics); the corrected HandlePattern keeps the verb and puts the base before the path.
   */
  lemma HandleAsWrittenLosesMethod(base: string, verb: string, path: string)
    requires |base| >= 1 && SpaceFree(base)
    requires |verb| >= 1 && SpaceFree(verb)
    requires |path| >= 1 && !IsReSpace(path[0]) && '\n' !in path && Text.HasSuffix(path, "/")
    ensures Go122Split(HandlePatternAsWritten(base, verb + " " + path)) == Some((base + verb, path))
    ensures '/' in base ==> !MuxAcceptsMethod(base + verb)
    ensures Go122Split(HandlePattern(base, verb + " " + path)) == Some((verb, base + path))
  {
    AsWrittenGluesVerb(base, verb, path);
    SlashIsNoMethod(base, verb);
    CorrectedKeepsVerb(base, verb, path);
  }

  /** A '/' anywhere in the first field makes it an invalid method. */
  lemma SlashIsNoMethod(base: string, verb: string)
    ensures '/' in base ==> !MuxAcceptsMethod(base + verb)
  {
    if '/' in base {
      var i :| 0 <= i < |base| && base[i] == '/';
      assert (base + verb)[i] == '/';
    }
  }

  /** The as-written pattern splits into base + verb and the path. */
  lemma AsWrittenGluesVerb(base: string, verb: string, path: string)
    requires SpaceFree(base)
    requires |verb| >= 1 && SpaceFree(verb)
    requires |path| >= 1 && !IsReSpace(path[0]) && '\n' !in path && Text.HasSuffix(path, "/")
    ensures Go122Split(HandlePatternAsWritten(base, verb + " " + path)) == Some((base + verb, path))
  {
    TrailingSlashKept(verb + " ", path);
    assert HandlePatternAsWritten(base, verb + " " + path) == (base + verb) + " " + path;
    SpaceFreeConcat(base, verb);
    SplitOfMethodPattern(base + verb, path);
  }

  /** The corrected pattern splits into the verb and base + path. */
  lemma CorrectedKeepsVerb(base: string, verb: string, path: string)
    requires |base| >= 1 && SpaceFree(base)
    requires |verb| >= 1 && SpaceFree(verb)
    requires |path| >= 1 && !IsReSpace(path[0]) && '\n' !in path && Text.HasSuffix(path, "/")
    ensures Go122Split(HandlePattern(base, verb + " " + path)) == Some((verb, base + path))
  {
    var pattern := verb + " " + path;
    TrailingSlashKept(verb + " ", path);
    SplitOfMethodPattern(verb, path);
    assert !IsReSpace(base[0]) && '\n' !in base;
    HandleKeepsMethod(base, pattern);
  }

  lemma TrailingSlashKept(front: string, path: string)
    requires Text.HasSuffix(path, "/")
    ensures Text.HasSuffix(front + path, "/")
  {
    assert (front + path)[|front + path| - 1..] == path[|path| - 1..];
  }

  lemma SpaceFreeConcat(a: string, b: string)
    requires SpaceFree(a) && SpaceFree(b)
    ensures SpaceFree(a + b)
  {
    forall k | 0 <= k < |a + b|
      ensures !IsReSpace((a + b)[k])
    {
      if k >= |a| {
        assert (a + b)[k] == b[k - |a|];
      }
    }
  }

  /**
    Handle's pattern with the verb split off first: a trailing-slash pattern keeps its
    subtree meaning (no `{$}`), and the base path goes between verb and path.
   */
  function HandlePattern(base: string, pattern: string): (r: string)
    ensures !Text.HasSuffix(pattern, "/") ==> r == RegisterPattern(base, pattern)
    ensures Text.HasSuffix(pattern, "/") && Go122Split(pattern).None? ==> r == base + pattern
  {
    if Text.HasSuffix(pattern, "/") then
      match Go122Split(pattern)
      case Some((verb, path)) => verb + " " + base + path
      case None => base + pattern
    else RegisterPattern(base, pattern)
  }

  /**
    Handle keeps the method of every "METHOD path" pattern, with the base path prefixed
    to the path: for a trailing-slash pattern the path is kept whole (a subtree), otherwise
    it is register's path.
   */
  lemma HandleKeepsMethod(base: string, pattern: string)
    requires Go122Split(pattern).Some? && !IsReSpace(Go122Split(pattern).value.1[0])
    requires '\n' !in base && (|base| > 0 ==> !IsReSpace(base[0]))
    ensures var (verb, path) := Go122Split(pattern).value;
            && Go122Split(HandlePattern(base, pattern)).Some?
            && Go122Split(HandlePattern(base, pattern)).value.0 == verb
            && (Text.HasSuffix(pattern, "/") ==>
                  Go122Split(HandlePattern(base, pattern)).value.1 == base + path)
  {
    var (verb, path) := Go122Split(pattern).value;
    if Text.HasSuffix(pattern, "/") {
      assert (base + path)[0] == (if |base| == 0 then path[0] else base[0]);
      assert '\n' !in base + path;
      assert HandlePattern(base, pattern) == verb + " " + (base + path);
      SplitOfMethodPattern(verb, base + path);
    } else {
      RegisterKeepsMethod(base, pattern);
    }
  }

  // ---------------------------------------------------------------------------
  // HandleFiles and HandleRoot
  // ---------------------------------------------------------------------------

  /** A file-server registration: the mux pattern and the prefix StripPrefix removes, if any. */
  datatype FilesRoute = FilesRoute(pattern: string, strip: Option<string>)

  /**
    HandleFiles: the pattern gets a trailing '/' if missing; at the top of an unprefixed
    group the file server is mounted at "/" as is, otherwise the full prefix minus its
    trailing '/' is stripped before the file server sees the path.
   */
  function FilesPattern(base: string, pattern: string): (r: FilesRoute)
    ensures Text.HasSuffix(r.pattern, "/")
    ensures Text.HasPrefix(r.pattern, base)
    ensures r.strip.None? <==> base == "" && (pattern == "/" || pattern == "")
    ensures r.strip.Some? ==> r.strip.value + "/" == r.pattern
    ensures Text.HasSuffix(pattern, "/") ==> r.pattern == base + pattern
  {
    var p := if Text.HasSuffix(pattern, "/") then pattern else pattern + "/";
    var full := base + p;
    assert Text.HasSuffix(full, "/");
    assert full[..|base|] == base;
    if p == "/" && base == "" then FilesRoute("/", None)
    else FilesRoute(full, Some(Text.TrimSuffix(full, "/")))
  }

  /**
    HandleRoot / HandleRootFunc: the base path, "/" for an unprefixed group, with
    "METHOD " in front when a verb is given.
   */
  function RootPattern(base: string, verb: string): (r: string)
    ensures verb == "" ==> r == (if base == "" then "/" else base)
    ensures verb != "" ==> Text.HasPrefix(r, verb + " ")
  {
    var p := if base == "" then "/" else base;
    if verb != "" then verb + " " + p else p
  }

  /** A verb given to HandleRoot is the verb the mux reads back from the pattern. */
  lemma RootPatternKeepsMethod(base: string, verb: string)
    requires |verb| >= 1 && SpaceFree(verb)
    requires '\n' !in base && (|base| > 0 ==> !IsReSpace(base[0]))
    ensures Go122Split(RootPattern(base, verb)) == Some((verb, if base == "" then "/" else base))
  {
    SplitOfMethodPattern(verb, if base == "" then "/" else base);
  }
}
