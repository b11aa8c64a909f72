/**
  The group algebra of package router. Groups live in an arena and refer to their root
  group by index (the Go code holds a pointer). A middleware is known by its label, and
  a handler is the list of middlewares a request runs through, outermost first, followed
  by the endpoint that finally serves it.
 */
module Router {
  import opened Basics
  import opened GoErrors
  import Http
  import RP = RoutePatterns
  import Text

  /** A middleware, func(http.Handler) http.Handler, by label. */
  type Middleware = string
  type MuxId = nat
  type GroupId = nat

  datatype Endpoint =
    | App(id: nat)                           // a handler or handler func the caller registered
    | FileServer(fs: nat)                    // http.FileServer(root)
    | StripPrefix(prefix: string, fs: nat)   // http.StripPrefix(prefix, http.FileServer(root))
    | MuxServe(mux: MuxId)                   // the mux serves the request
    | NotFound(id: nat)                      // the custom 404 handler

  /** A handler: the middlewares it runs, outermost first, then its endpoint. */
  datatype Handler = Handler(layers: seq<Middleware>, endpoint: Endpoint)

  /** `mw(h)`: the middleware becomes the outermost layer. */
  function Apply(mw: Middleware, h: Handler): (r: Handler)
    ensures r.layers == [mw] + h.layers && r.endpoint == h.endpoint
  {
    Handler([mw] + h.layers, h.endpoint)
  }

  /** Applies `mws` from the last one to the first, as the loops of Wrap, wrapMiddleware and wrapGlobal do. */
  function ApplyFromEnd(h: Handler, mws: seq<Middleware>): (r: Handler)
    decreases |mws|
    ensures r.endpoint == h.endpoint
    ensures |r.layers| == |mws| + |h.layers|
  {
    if |mws| == 0 then h else ApplyFromEnd(Apply(mws[|mws| - 1], h), mws[..|mws| - 1])
  }

  /** Applying from the end makes the first-listed middleware the outermost: the order is kept. */
  lemma {:induction false} ApplyFromEndOrder(h: Handler, mws: seq<Middleware>)
    decreases |mws|
    ensures ApplyFromEnd(h, mws).layers == mws + h.layers
  {
    if |mws| > 0 {
      var init := mws[..|mws| - 1];
      ApplyFromEndOrder(Apply(mws[|mws| - 1], h), init);
      assert mws == init + [mws[|mws| - 1]];
    }
  }

  /** Wrap(h, mw1, mws...) = mw1(mws[0](...mws[n-1](h))): mw1 outermost, then mws in order. */
  function Wrap(h: Handler, mw1: Middleware, mws: seq<Middleware>): (r: Handler)
    ensures r.layers == [mw1] + mws + h.layers
    ensures r.endpoint == h.endpoint
  {
    ApplyFromEndOrder(h, mws);
    Apply(mw1, ApplyFromEnd(h, mws))
  }

  // ---------------------------------------------------------------------------
  // Groups
  // ---------------------------------------------------------------------------

  /** router.Group; `root` is None for a root group. */
  datatype Group = Group(
    mux: MuxId,
    basePath: string,
    middlewares: seq<Middleware>,
    notFound: Option<nat>,
    root: Option<GroupId>,
    routesLocked: bool,
    rootCount: nat)

  /** One mux registration: the pattern and the handler it serves. */
  datatype Route = Route(mux: MuxId, pattern: string, handler: Handler)

  /** Every group ever created, and every registration made on any mux, in order. */
  datatype Arena = Arena(groups: seq<Group>, routes: seq<Route>)

  /** Every root pointer refers to an existing group. */
  predicate PointersValid(ar: Arena)
  {
    forall i :: 0 <= i < |ar.groups| && ar.groups[i].root.Some? ==> ar.groups[i].root.value < |ar.groups|
  }

  /**
    The invariant the group operations keep: a root pointer always designates a root
    group on the same mux, and the first rootCount middlewares of a derived group are the
    root's, which are the ones wrapGlobal applies in its stead.
   */
  predicate Valid(ar: Arena)
  {
    forall i :: 0 <= i < |ar.groups| && ar.groups[i].root.Some? ==>
      var g := ar.groups[i];
      && g.root.value < |ar.groups|
      && var r := ar.groups[g.root.value];
      && r.root.None?
      && r.mux == g.mux
      && g.rootCount <= |g.middlewares|
      && g.rootCount <= |r.middlewares|
      && g.middlewares[..g.rootCount] == r.middlewares[..g.rootCount]
  }

  lemma ValidPointers(ar: Arena)
    requires Valid(ar)
    ensures PointersValid(ar)
  {
  }

  /** New / RootGroup: a root group on `mux` with the given base path, nothing else set. */
  function NewGroup(ar: Arena, mux: MuxId, basePath: string): (r: (Arena, GroupId))
    ensures |r.0.groups| == |ar.groups| + 1 && r.1 == |ar.groups|
    ensures r.0.groups == ar.groups + [r.0.groups[r.1]]
    ensures r.0.groups[r.1] == Group(mux, basePath, [], None, None, false, 0)
    ensures r.0.routes == ar.routes
    ensures Valid(ar) ==> Valid(r.0)
  {
    (Arena(ar.groups + [Group(mux, basePath, [], None, None, false, 0)], ar.routes), |ar.groups|)
  }

  /** New: a root group with an empty base path. */
  function New(ar: Arena, mux: MuxId): (r: (Arena, GroupId))
    ensures |r.0.groups| == |ar.groups| + 1 && r.1 == |ar.groups|
    ensures r.0.groups[r.1].basePath == "" && r.0.groups[r.1].root.None?
    ensures Valid(ar) ==> Valid(r.0)
  {
    NewGroup(ar, mux, "")
  }

  /** RootGroup: a root group with the given base path. */
  function RootGroup(ar: Arena, mux: MuxId, basePath: string): (r: (Arena, GroupId))
    ensures |r.0.groups| == |ar.groups| + 1 && r.1 == |ar.groups|
    ensures r.0.groups[r.1].basePath == basePath && r.0.groups[r.1].root.None?
    ensures Valid(ar) ==> Valid(r.0)
  {
    NewGroup(ar, mux, basePath)
  }

  const UsePanic: string := "router: Use called after routes were registered; add middleware before routes or use Group/With"

  /** Replaces group `gi`, leaving every other group and every route as is. */
  function Update(ar: Arena, gi: GroupId, g: Group): (r: Arena)
    requires gi < |ar.groups|
    ensures |r.groups| == |ar.groups| && r.groups[gi] == g && r.routes == ar.routes
    ensures forall j :: 0 <= j < |ar.groups| && j != gi ==> r.groups[j] == ar.groups[j]
  {
    ar.(groups := ar.groups[gi := g])
  }

  /**
    Use: appends mw and then more to the group's own stack; panics (Err) once the group
    has registered routes. Nothing else changes.
   */
  function Use(ar: Arena, gi: GroupId, mw: Middleware, more: seq<Middleware>): (r: Result<Arena, string>)
    requires gi < |ar.groups|
    ensures r.Err? <==> ar.groups[gi].routesLocked
    ensures r.Err? ==> r.error == UsePanic
    ensures r.Ok? ==> r.value == Update(ar, gi, ar.groups[gi].(middlewares := ar.groups[gi].middlewares + [mw] + more))
    ensures r.Ok? && Valid(ar) ==> Valid(r.value)
  {
    var g := ar.groups[gi];
    if g.routesLocked then Err(UsePanic)
    else
      var mws := g.middlewares + [mw] + more;
      assert mws[..|g.middlewares|] == g.middlewares;
      if Valid(ar) then
        UseKeepsValid(ar, gi, mws);
        Ok(Update(ar, gi, g.(middlewares := mws)))
      else Ok(Update(ar, gi, g.(middlewares := mws)))
  }

  /** Extending a group's stack keeps every derived group's prefix agreement with its root. */
  lemma UseKeepsValid(ar: Arena, gi: GroupId, mws: seq<Middleware>)
    requires gi < |ar.groups| && Valid(ar)
    requires |ar.groups[gi].middlewares| <= |mws| && mws[..|ar.groups[gi].middlewares|] == ar.groups[gi].middlewares
    ensures Valid(Update(ar, gi, ar.groups[gi].(middlewares := mws)))
  {
    var old_ := ar.groups[gi].middlewares;
    var ar' := Update(ar, gi, ar.groups[gi].(middlewares := mws));
    forall i | 0 <= i < |ar'.groups| && ar'.groups[i].root.Some?
      ensures var g := ar'.groups[i];
              && g.root.value < |ar'.groups|
              && var r := ar'.groups[g.root.value];
              && r.root.None? && r.mux == g.mux
              && g.rootCount <= |g.middlewares| && g.rootCount <= |r.middlewares|
              && g.middlewares[..g.rootCount] == r.middlewares[..g.rootCount]
    {
      var g := ar.groups[i];
      var k := g.rootCount;
      assert g.root.value < |ar.groups|;
      if i == gi {
        assert mws[..k] == old_[..k];
      }
      if g.root.value == gi {
        assert mws[..k] == old_[..k];
      }
    }
  }

  /**
    The group derived by With, clone, Group and Mount: same mux, the given stack and base
    path, no 404 handler, unlocked; its root is the receiver when the receiver is a root
    (rootCount then being the receiver's stack size), otherwise the receiver's root.
   */
  function Derive(ar: Arena, gi: GroupId, mws: seq<Middleware>, basePath: string): (r: (Arena, GroupId))
    requires gi < |ar.groups|
    ensures r.1 == |ar.groups| && |r.0.groups| == |ar.groups| + 1
    ensures r.0.groups[..|ar.groups|] == ar.groups && r.0.routes == ar.routes
    ensures var g := ar.groups[gi]; var ng := r.0.groups[r.1];
            && ng.mux == g.mux && ng.middlewares == mws && ng.basePath == basePath
            && ng.notFound.None? && !ng.routesLocked
            && (g.root.None? ==> ng.root == Some(gi) && ng.rootCount == |g.middlewares|)
            && (g.root.Some? ==> ng.root == g.root && ng.rootCount == g.rootCount)
  {
    var g := ar.groups[gi];
    var root := if g.root.None? then Some(gi) else g.root;
    var count := if g.root.None? then |g.middlewares| else g.rootCount;
    var ng := Group(g.mux, basePath, mws, None, root, false, count);
    var groups := ar.groups + [ng];
    assert groups[..|ar.groups|] == ar.groups;
    (Arena(groups, ar.routes), |ar.groups|)
  }

  /** A derived group whose stack extends the receiver's keeps the arena valid. */
  lemma DeriveKeepsValid(ar: Arena, gi: GroupId, mws: seq<Middleware>, basePath: string)
    requires gi < |ar.groups| && Valid(ar)
    requires |ar.groups[gi].middlewares| <= |mws| && mws[..|ar.groups[gi].middlewares|] == ar.groups[gi].middlewares
    ensures Valid(Derive(ar, gi, mws, basePath).0)
  {
    var (ar', ni) := Derive(ar, gi, mws, basePath);
    var g := ar.groups[gi];
    forall i | 0 <= i < |ar'.groups| && ar'.groups[i].root.Some?
      ensures var h := ar'.groups[i];
              && h.root.value < |ar'.groups|
              && var r := ar'.groups[h.root.value];
              && r.root.None? && r.mux == h.mux
              && h.rootCount <= |h.middlewares| && h.rootCount <= |r.middlewares|
              && h.middlewares[..h.rootCount] == r.middlewares[..h.rootCount]
    {
      if i < |ar.groups| {
        assert ar'.groups[i] == ar.groups[i];
        assert ar'.groups[ar.groups[i].root.value] == ar.groups[ar.groups[i].root.value];
      } else {
        assert i == ni;
        if g.root.None? {
          assert ar'.groups[gi] == g;
          assert mws[..|g.middlewares|] == g.middlewares;
        } else {
          var k := g.rootCount;
          assert ar'.groups[g.root.value] == ar.groups[g.root.value];
          assert mws[..k] == g.middlewares[..k];
        }
      }
    }
  }

  /**
    With: a new group whose stack is the receiver's followed by mw and more; the receiver
    and everything else stay unchanged.
   */
  function With(ar: Arena, gi: GroupId, mw: Middleware, more: seq<Middleware>): (r: (Arena, GroupId))
    requires gi < |ar.groups|
    ensures |r.0.groups| == |ar.groups| + 1 && r.1 == |ar.groups|
    ensures r.0.groups[..|ar.groups|] == ar.groups && r.0.routes == ar.routes
    ensures r.0.groups[r.1].middlewares == ar.groups[gi].middlewares + [mw] + more
    ensures r.0.groups[r.1].basePath == ar.groups[gi].basePath
    ensures Valid(ar) ==> Valid(r.0)
  {
    var g := ar.groups[gi];
    var mws := g.middlewares + [mw] + more;
    assert mws[..|g.middlewares|] == g.middlewares;
    if Valid(ar) then
      DeriveKeepsValid(ar, gi, mws, g.basePath);
      Derive(ar, gi, mws, g.basePath)
    else Derive(ar, gi, mws, g.basePath)
  }

  /** clone: a new group with a copy of the receiver's stack and base path. */
  function Clone(ar: Arena, gi: GroupId): (r: (Arena, GroupId))
    requires gi < |ar.groups|
    ensures |r.0.groups| == |ar.groups| + 1 && r.1 == |ar.groups|
    ensures r.0.groups[..|ar.groups|] == ar.groups && r.0.routes == ar.routes
    ensures r.0.groups[r.1].middlewares == ar.groups[gi].middlewares
    ensures r.0.groups[r.1].basePath == ar.groups[gi].basePath
    ensures Valid(ar) ==> Valid(r.0)
  {
    var g := ar.groups[gi];
    if Valid(ar) then
      DeriveKeepsValid(ar, gi, g.middlewares, g.basePath);
      Derive(ar, gi, g.middlewares, g.basePath)
    else Derive(ar, gi, g.middlewares, g.basePath)
  }

  /** Group(): a clone. */
  function SubGroup(ar: Arena, gi: GroupId): (r: (Arena, GroupId))
    requires gi < |ar.groups|
    ensures r == Clone(ar, gi)
    ensures Valid(ar) ==> Valid(r.0)
  {
    Clone(ar, gi)
  }

  /** Mount(p): a clone whose base path is the receiver's followed by p. */
  function Mount(ar: Arena, gi: GroupId, p: string): (r: (Arena, GroupId))
    requires gi < |ar.groups|
    ensures |r.0.groups| == |ar.groups| + 1 && r.1 == |ar.groups|
    ensures r.0.groups[..|ar.groups|] == ar.groups && r.0.routes == ar.routes
    ensures r.0.groups[r.1].basePath == ar.groups[gi].basePath + p
    ensures r.0.groups[r.1].middlewares == ar.groups[gi].middlewares
    ensures Valid(ar) ==> Valid(r.0)
  {
    var (ar', ni) := Clone(ar, gi);
    var ar'' := Update(ar', ni, ar'.groups[ni].(basePath := ar'.groups[ni].basePath + p));
    assert ar''.groups[..|ar.groups|] == ar.groups by {
      assert forall j :: 0 <= j < |ar.groups| ==> ar''.groups[j] == ar'.groups[j];
    }
    (ar'', ni)
  }

  /** Mount and Group share the derivation: a mount at "" is a plain subgroup. */
  lemma MountEmptyIsGroup(ar: Arena, gi: GroupId)
    requires gi < |ar.groups|
    ensures Mount(ar, gi, "") == SubGroup(ar, gi)
  {
    var (ar', ni) := Clone(ar, gi);
    assert ar'.groups[ni].basePath + "" == ar'.groups[ni].basePath;
    assert ar'.groups[ni := ar'.groups[ni]] == ar'.groups;
  }

  /** lockRoot: marks the receiver, and only the receiver, as having routes. */
  function LockRoot(ar: Arena, gi: GroupId): (r: Arena)
    requires gi < |ar.groups|
    ensures |r.groups| == |ar.groups|
    ensures r.groups[gi].routesLocked
    ensures r.groups[gi] == ar.groups[gi].(routesLocked := true)
    ensures |r.groups| == |ar.groups| && r.routes == ar.routes
    ensures forall j :: 0 <= j < |ar.groups| && j != gi ==> r.groups[j] == ar.groups[j]
    ensures Valid(ar) ==> Valid(r)
  {
    Update(ar, gi, ar.groups[gi].(routesLocked := true))
  }

  /** The group wrapGlobal and ServeHTTP treat as the root: the root pointer, or the group itself. */
  function RootOf(ar: Arena, gi: GroupId): (ri: GroupId)
    requires gi < |ar.groups| && PointersValid(ar)
    ensures ri < |ar.groups|
    ensures ar.groups[gi].root.None? ==> ri == gi
    ensures Valid(ar) ==> ar.groups[ri].root.None?
  {
    match ar.groups[gi].root
    case None => gi
    case Some(r) => r
  }

  /** NotFoundHandler: stores the handler on the root group, whichever group it is called on. */
  function NotFoundHandler(ar: Arena, gi: GroupId, h: nat): (r: Arena)
    requires gi < |ar.groups| && PointersValid(ar)
    ensures r == Update(ar, RootOf(ar, gi), ar.groups[RootOf(ar, gi)].(notFound := Some(h)))
    ensures Valid(ar) ==> Valid(r)
  {
    var ri := RootOf(ar, gi);
    Update(ar, ri, ar.groups[ri].(notFound := Some(h)))
  }

  /** Every group of a valid arena sees the 404 handler set through any group sharing its root. */
  lemma NotFoundSharedByRoot(ar: Arena, gi: GroupId, gj: GroupId, h: nat)
    requires Valid(ar) && gi < |ar.groups| && gj < |ar.groups|
    requires RootOf(ar, gi) == RootOf(ar, gj)
    ensures var r := NotFoundHandler(ar, gi, h); r.groups[RootOf(r, gj)].notFound == Some(h)
  {
  }

  /** The index a middleware stack is applied from: rootCount, capped at the stack size. */
  function Start(g: Group): nat
  {
    if g.rootCount > |g.middlewares| then |g.middlewares| else g.rootCount
  }

  /**
    wrapMiddleware: a root group adds nothing (its stack is applied globally); a derived
    group applies only the middlewares after its root's, first outermost.
   */
  function WrapMiddleware(g: Group, h: Handler): (r: Handler)
    ensures r.endpoint == h.endpoint
    ensures g.root.None? ==> r == h
    ensures g.root.Some? ==> r.layers == g.middlewares[Start(g)..] + h.layers
  {
    if g.root.None? then h
    else
      ApplyFromEndOrder(h, g.middlewares[Start(g)..]);
      ApplyFromEnd(h, g.middlewares[Start(g)..])
  }

  /** wrapGlobal: the root's whole stack, first outermost. */
  function WrapGlobal(ar: Arena, gi: GroupId, h: Handler): (r: Handler)
    requires gi < |ar.groups| && PointersValid(ar)
    ensures r.endpoint == h.endpoint
    ensures r.layers == ar.groups[RootOf(ar, gi)].middlewares + h.layers
  {
    var root := ar.groups[RootOf(ar, gi)];
    ApplyFromEndOrder(h, root.middlewares);
    ApplyFromEnd(h, root.middlewares)
  }

  // ---------------------------------------------------------------------------
  // Registration
  // ---------------------------------------------------------------------------

  /** Locks the receiver and registers `pattern` on its mux with wrapMiddleware(h). */
  function AddRoute(ar: Arena, gi: GroupId, pattern: string, h: Handler): (r: Arena)
    requires gi < |ar.groups|
    ensures r.groups == LockRoot(ar, gi).groups
    ensures r.routes == ar.routes + [Route(ar.groups[gi].mux, pattern, WrapMiddleware(ar.groups[gi], h))]
    ensures Valid(ar) ==> Valid(r)
  {
    var ar' := LockRoot(ar, gi);
    ar'.(routes := ar.routes + [Route(ar.groups[gi].mux, pattern, WrapMiddleware(ar.groups[gi], h))])
  }

  /** register: the rewritten "METHOD base+path" or "base+pattern" pattern, with `{$}` for roots. */
  function Register(ar: Arena, gi: GroupId, pattern: string, h: Handler): (r: Arena)
    requires gi < |ar.groups|
    ensures r == AddRoute(ar, gi, RP.RegisterPattern(ar.groups[gi].basePath, pattern), h)
    ensures r.groups[gi].routesLocked
    ensures Valid(ar) ==> Valid(r)
  {
    AddRoute(ar, gi, RP.RegisterPattern(ar.groups[gi].basePath, pattern), h)
  }

  /** HandleFunc: register. */
  function HandleFunc(ar: Arena, gi: GroupId, pattern: string, h: Handler): (r: Arena)
    requires gi < |ar.groups|
    ensures r == Register(ar, gi, pattern, h)
    ensures Valid(ar) ==> Valid(r)
  {
    Register(ar, gi, pattern, h)
  }

  /**
    Handle, as the source writes it: a trailing-slash pattern is registered as the base
    path followed by the pattern verbatim (a subtree); any other pattern goes through register.
   */
  function Handle(ar: Arena, gi: GroupId, pattern: string, h: Handler): (r: Arena)
    requires gi < |ar.groups|
    ensures Text.HasSuffix(pattern, "/") ==> r == AddRoute(ar, gi, ar.groups[gi].basePath + pattern, h)
    ensures !Text.HasSuffix(pattern, "/") ==> r == Register(ar, gi, pattern, h)
    ensures r.groups[gi].routesLocked
    ensures Valid(ar) ==> Valid(r)
  {
    AddRoute(ar, gi, RP.HandlePatternAsWritten(ar.groups[gi].basePath, pattern), h)
  }

  /**
    Handle with the method of a trailing-slash "METHOD path" pattern kept in front of the
    base path; on every other pattern it registers what Handle registers.
   */
  function HandleCorrected(ar: Arena, gi: GroupId, pattern: string, h: Handler): (r: Arena)
    requires gi < |ar.groups|
    ensures !(Text.HasSuffix(pattern, "/") && RP.Go122Split(pattern).Some?) ==> r == Handle(ar, gi, pattern, h)
    ensures r == AddRoute(ar, gi, RP.HandlePattern(ar.groups[gi].basePath, pattern), h)
    ensures r.groups[gi].routesLocked
    ensures Valid(ar) ==> Valid(r)
  {
    AddRoute(ar, gi, RP.HandlePattern(ar.groups[gi].basePath, pattern), h)
  }

  /** HandleFiles: a file server under the pattern, with the prefix stripped except at the top. */
  function HandleFiles(ar: Arena, gi: GroupId, pattern: string, fs: nat): (r: Arena)
    requires gi < |ar.groups|
    ensures var fr := RP.FilesPattern(ar.groups[gi].basePath, pattern);
            r == AddRoute(ar, gi, fr.pattern,
                          Handler([], if fr.strip.None? then FileServer(fs) else StripPrefix(fr.strip.value, fs)))
    ensures Valid(ar) ==> Valid(r)
  {
    var fr := RP.FilesPattern(ar.groups[gi].basePath, pattern);
    AddRoute(ar, gi, fr.pattern,
             Handler([], if fr.strip.None? then FileServer(fs) else StripPrefix(fr.strip.value, fs)))
  }

  /** HandleRoot: the group's root path (an empty base path meaning "/"), optionally with a method. */
  function HandleRoot(ar: Arena, gi: GroupId, verb: string, h: Handler): (r: Arena)
    requires gi < |ar.groups|
    ensures r == AddRoute(ar, gi, RP.RootPattern(ar.groups[gi].basePath, verb), h)
    ensures Valid(ar) ==> Valid(r)
  {
    AddRoute(ar, gi, RP.RootPattern(ar.groups[gi].basePath, verb), h)
  }

  /** HandleRootFunc: the same registration as HandleRoot. */
  function HandleRootFunc(ar: Arena, gi: GroupId, verb: string, h: Handler): (r: Arena)
    requires gi < |ar.groups|
    ensures r == HandleRoot(ar, gi, verb, h)
  {
    HandleRoot(ar, gi, verb, h)
  }

  /** Once a group has registered a route, Use on it panics; its siblings and root are unaffected. */
  lemma RegistrationLocksUse(ar: Arena, gi: GroupId, pattern: string, h: Handler, mw: Middleware, gj: GroupId)
    requires gi < |ar.groups| && gj < |ar.groups|
    ensures Use(Register(ar, gi, pattern, h), gi, mw, []).Err?
    ensures gj != gi ==> (Use(Register(ar, gi, pattern, h), gj, mw, []).Err? <==> ar.groups[gj].routesLocked)
  {
  }

  // ---------------------------------------------------------------------------
  // Serving
  // ---------------------------------------------------------------------------

  /** statusRecorder: the probe ServeHTTP hands to the mux to learn the status it would send. */
  datatype StatusRecorder = StatusRecorder(status: int)

  /** WriteHeader records the status; a later call overwrites an earlier one. */
  function RecorderWriteHeader(rec: StatusRecorder, code: int): (r: StatusRecorder)
    ensures r.status == code
  {
    rec.(status := code)
  }

  /** Write discards the data and reports (0, nil). */
  function RecorderWrite(rec: StatusRecorder, data: string): (r: (StatusRecorder, int, Option<Error>))
    ensures r == (rec, 0, None)
  {
    (rec, 0, None)
  }

  /** Header returns a fresh empty header on every call. */
  function RecorderHeader(rec: StatusRecorder): (h: Http.Header)
    ensures h == map[]
  {
    map[]
  }

  /** The calls the mux makes on the probe writer while handling a request. */
  datatype WriterCall = CallWriteHeader(code: int) | CallWrite(data: string)

  function Replay(rec: StatusRecorder, calls: seq<WriterCall>): StatusRecorder
    decreases |calls|
  {
    if |calls| == 0 then rec
    else
      var rec' := match calls[0]
        case CallWriteHeader(code) => RecorderWriteHeader(rec, code)
        case CallWrite(data) => RecorderWrite(rec, data).0;
      Replay(rec', calls[1..])
  }

  /** The status a probe started at 200 OK ends with. */
  function ProbeStatus(calls: seq<WriterCall>): int
  {
    Replay(StatusRecorder(Http.StatusOK), calls).status
  }

  /** The code of the last WriteHeader call, if any. */
  function LastHeaderCode(calls: seq<WriterCall>): (o: Option<int>)
    ensures o.Some? ==> exists i :: 0 <= i < |calls| && calls[i] == CallWriteHeader(o.value)
    ensures o.None? ==> forall i :: 0 <= i < |calls| ==> calls[i].CallWrite?
  {
    if |calls| == 0 then None
    else
      var i := |calls| - 1;
      if calls[i].CallWriteHeader? then Some(calls[i].code) else LastHeaderCode(calls[..i])
  }

  /** The probe reports the last status the mux wrote, or 200 when it wrote none. */
  lemma {:induction false} ProbeStatusIsLastHeader(rec: StatusRecorder, calls: seq<WriterCall>)
    decreases |calls|
    ensures Replay(rec, calls).status == (if LastHeaderCode(calls).Some? then LastHeaderCode(calls).value else rec.status)
  {
    if |calls| > 0 {
      var rec' := match calls[0]
        case CallWriteHeader(code) => RecorderWriteHeader(rec, code)
        case CallWrite(data) => RecorderWrite(rec, data).0;
      ProbeStatusIsLastHeader(rec', calls[1..]);
      LastHeaderCodeTail(calls);
    }
  }

  lemma {:induction false} LastHeaderCodeTail(calls: seq<WriterCall>)
    requires |calls| > 0
    decreases |calls|
    ensures LastHeaderCode(calls) ==
            (if LastHeaderCode(calls[1..]).Some? then LastHeaderCode(calls[1..])
             else if calls[0].CallWriteHeader? then Some(calls[0].code) else None)
  {
    var i := |calls| - 1;
    if i > 0 && !calls[i].CallWriteHeader? {
      assert calls[1..][..i - 1] == calls[..i][1..];
      LastHeaderCodeTail(calls[..i]);
    }
  }

  /**
    The dispatch decision of ServeHTTP: a request the mux has a pattern for goes to the
    mux; an unmatched one goes to the custom 404 handler when there is one, unless the
    probe shows the mux would answer 405 Method Not Allowed.
   */
  function Dispatch(mux: MuxId, pattern: string, notFound: Option<nat>, probe: int): (e: Endpoint)
    ensures e.NotFound? <==> pattern == "" && notFound.Some? && probe != Http.StatusMethodNotAllowed
    ensures e.NotFound? ==> e.id == notFound.value
    ensures !e.NotFound? ==> e == MuxServe(mux)
  {
    if pattern == "" && notFound.Some? then
      if probe == Http.StatusMethodNotAllowed then MuxServe(mux) else NotFound(notFound.value)
    else MuxServe(mux)
  }

  /**
    ServeHTTP on group gi for a request the mux resolves to `pattern` ("" when unmatched),
    `probe` being the calls the mux makes when it handles the request: the root's
    middlewares wrap the dispatch decision.
   */
  function ServeHTTP(ar: Arena, gi: GroupId, pattern: string, probe: seq<WriterCall>): (r: Handler)
    requires gi < |ar.groups| && PointersValid(ar)
    ensures r.layers == ar.groups[RootOf(ar, gi)].middlewares
    ensures r.endpoint == Dispatch(ar.groups[gi].mux, pattern, ar.groups[RootOf(ar, gi)].notFound, ProbeStatus(probe))
  {
    var root := ar.groups[RootOf(ar, gi)];
    WrapGlobal(ar, gi, Handler([], Dispatch(ar.groups[gi].mux, pattern, root.notFound, ProbeStatus(probe))))
  }

  /**
    The middlewares a request runs through when ServeHTTP of group `gi`'s root hands it to
    the mux and the mux picks a route group `gi` registered with handler h.
   */
  function EndToEnd(ar: Arena, gi: GroupId, h: Handler): seq<Middleware>
    requires gi < |ar.groups| && PointersValid(ar)
  {
    WrapGlobal(ar, gi, Handler([], MuxServe(ar.groups[gi].mux))).layers + WrapMiddleware(ar.groups[gi], h).layers
  }

  /**
    End-to-end order: the root's middlewares, then the group's own, then the handler's,
    each once. Root middlewares added after the group was derived run too, but only once.
   */
  lemma EndToEndOrder(ar: Arena, gi: GroupId, h: Handler)
    requires Valid(ar) && gi < |ar.groups|
    ensures var g := ar.groups[gi]; var root := ar.groups[RootOf(ar, gi)];
            && (g.root.None? ==> EndToEnd(ar, gi, h) == g.middlewares + h.layers)
            && (g.root.Some? ==> EndToEnd(ar, gi, h) == root.middlewares + g.middlewares[g.rootCount..] + h.layers)
            && (g.root.Some? && |root.middlewares| == g.rootCount ==> EndToEnd(ar, gi, h) == g.middlewares + h.layers)
  {
    var g := ar.groups[gi];
    if g.root.Some? {
      var root := ar.groups[g.root.value];
      assert Start(g) == g.rootCount;
      if |root.middlewares| == g.rootCount {
        assert root.middlewares == g.middlewares[..g.rootCount];
        assert g.middlewares == g.middlewares[..g.rootCount] + g.middlewares[g.rootCount..];
      }
    }
  }

  /**
    The router's ordering scenario: root.Use(a); child := root.With(b); child registers
    handler h; the request runs a, then b, then h.
   */
  lemma OrderScenario(mux: MuxId, a: Middleware, b: Middleware, h: Handler)
    ensures var (ar1, root) := New(Arena([], []), mux);
            var ar2 := Use(ar1, root, a, []).value;
            var (ar3, child) := With(ar2, root, b, []);
            var ar4 := HandleFunc(ar3, child, "/a", h);
            && ar4.routes[0].pattern == "/a"
            && EndToEnd(ar4, child, h) == [a, b] + h.layers
  {
    var (ar1, root) := New(Arena([], []), mux);
    var ar2 := Use(ar1, root, a, []).value;
    var (ar3, child) := With(ar2, root, b, []);
    var ar4 := HandleFunc(ar3, child, "/a", h);
    assert RP.Go122Split("/a") == None by {
      assert RP.NonSpaceRun("/a", 2) == 2;
    }
    EndToEndOrder(ar4, child, h);
  }
}
