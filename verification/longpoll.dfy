/**
  The long-polling client: configuration defaults, the poll loop as a step function
  over a finite trace of environment answers, and the registry of active sessions.

  One element of the trace (an Event) holds what the environment answers for one
  pass of the loop: whether the context was already done at the top of the loop,
  what makeRequest observed (a body-builder error, a request-construction error,
  a transport error, or a response with its status, body and the handler's
  directive), and what the post-attempt checkpoint observed (the select during
  the retry sleep, or the non-blocking check after a continue directive).
 */
module LongPoll {
  import opened Basics
  import opened GoErrors
  import Http
  import Text

  /** time.Duration counts nanoseconds. */
  const Second: int := 1_000_000_000
  const DefaultPollTimeout: int := 60 * Second
  const DefaultRetryDelay: int := Second
  /** MaxRetries value meaning "retry forever". */
  const Unlimited: int := -1
  const MethodGet: string := "GET"

  /**
    longpoll.Config. `httpClientTimeout` stands for the HTTPClient field: None is a nil
    client, Some(t) a caller-supplied client whose Timeout is t.
   */
  datatype Config = Config(
    pollTimeout: int,
    retryDelay: int,
    maxRetries: int,
    httpClientTimeout: Option<int>,
    headers: Option<map<string, string>>,
    verb: string)

  type SessionId = nat

  /** The active-session registry: every live session with its cancelled bit. */
  type Registry = map<SessionId, bool>

  datatype Client = Client(config: Config, httpTimeout: int, headers: map<string, string>, active: Registry)

  /**
    NewWithConfig: every zero field gets its default (a zero MaxRetries becomes
    Unlimited), every non-zero field is kept, and the registry starts empty.
   */
  function NewWithConfig(cfg: Config): (c: Client)
    ensures c.config.pollTimeout != 0 && c.config.retryDelay != 0
    ensures c.config.maxRetries != 0 && c.config.verb != ""
    ensures cfg.pollTimeout != 0 ==> c.config.pollTimeout == cfg.pollTimeout
    ensures cfg.pollTimeout == 0 ==> c.config.pollTimeout == DefaultPollTimeout
    ensures cfg.retryDelay != 0 ==> c.config.retryDelay == cfg.retryDelay
    ensures cfg.retryDelay == 0 ==> c.config.retryDelay == DefaultRetryDelay
    ensures cfg.maxRetries != 0 ==> c.config.maxRetries == cfg.maxRetries
    ensures cfg.maxRetries == 0 ==> c.config.maxRetries == Unlimited
    ensures cfg.verb != "" ==> c.config.verb == cfg.verb
    ensures cfg.verb == "" ==> c.config.verb == MethodGet
    ensures c.httpTimeout != 0
    ensures cfg.httpClientTimeout.Some? && cfg.httpClientTimeout.value != 0 ==>
              c.httpTimeout == cfg.httpClientTimeout.value
    ensures (cfg.httpClientTimeout.None? || cfg.httpClientTimeout.value == 0) ==>
              c.httpTimeout == c.config.pollTimeout
    ensures c.config.httpClientTimeout == Some(c.httpTimeout)
    ensures cfg.headers.Some? ==> c.headers == cfg.headers.value
    ensures cfg.headers.None? ==> c.headers == map[]
    ensures c.config.headers == Some(c.headers)
    ensures c.active == map[]
  {
    var pollTimeout := if cfg.pollTimeout == 0 then DefaultPollTimeout else cfg.pollTimeout;
    var retryDelay := if cfg.retryDelay == 0 then DefaultRetryDelay else cfg.retryDelay;
    var maxRetries := if cfg.maxRetries == 0 then Unlimited else cfg.maxRetries;
    var verb := if cfg.verb == "" then MethodGet else cfg.verb;
    var httpTimeout := match cfg.httpClientTimeout
      case None => pollTimeout
      case Some(t) => if t == 0 then pollTimeout else t;
    var headers := if cfg.headers.Some? then cfg.headers.value else map[];
    Client(Config(pollTimeout, retryDelay, maxRetries, Some(httpTimeout), Some(headers), verb),
           httpTimeout, headers, map[])
  }

  /** New: NewWithConfig of the all-zero configuration. */
  function New(): (c: Client)
    ensures c.config.pollTimeout == DefaultPollTimeout && c.config.retryDelay == DefaultRetryDelay
    ensures c.config.maxRetries == Unlimited && c.config.verb == MethodGet
    ensures c.httpTimeout == DefaultPollTimeout && c.headers == map[] && c.active == map[]
  {
    NewWithConfig(Config(0, 0, 0, None, None, ""))
  }

  /** WithHeader: `key` now maps to `value`; every other header is kept. */
  function WithHeader(c: Client, key: string, value: string): (r: Client)
    ensures r.headers.Keys == c.headers.Keys + {key} && r.headers[key] == value
    ensures forall k :: k in c.headers && k != key ==> r.headers[k] == c.headers[k]
    ensures r.config == c.config && r.active == c.active
  {
    c.(headers := c.headers[key := value])
  }

  /** WithHeaders: the given headers are merged in and win; keys not given are untouched. */
  function WithHeaders(c: Client, headers: map<string, string>): (r: Client)
    ensures r.headers.Keys == c.headers.Keys + headers.Keys
    ensures forall k :: k in headers ==> r.headers[k] == headers[k]
    ensures forall k :: k in c.headers && k !in headers ==> r.headers[k] == c.headers[k]
    ensures r.config == c.config && r.active == c.active
  {
    c.(headers := c.headers + headers)
  }

  // ---------------------------------------------------------------------------
  // One attempt
  // ---------------------------------------------------------------------------

  /** What a ResponseHandler returns: next URL ("" keeps the current one), continue flag, error. */
  datatype Directive = Directive(nextURL: string, shouldContinue: bool, err: Option<Error>)

  /** What one call of makeRequest meets, and the handler's directive when a response arrives. */
  datatype Exchange =
    | BodyError(err: Error)        // the BodyBuilder failed; nothing is sent
    | RequestError(err: Error)     // http.NewRequestWithContext failed; nothing is sent
    | TransportError(err: Error)   // httpClient.Do failed (includes a per-request timeout)
    | Response(status: int, body: string, directive: Directive)

  /** One pass of the loop: ctx state at the top, the exchange, ctx state at the next checkpoint. */
  datatype Event = Event(before: Signal, exchange: Exchange, after: Signal)

  /** Whether the request reached the transport. */
  predicate Sent(ex: Exchange)
  {
    ex.TransportError? || ex.Response?
  }

  /**
    makeRequest's classification: only a 2xx response reaches the handler; the three
    error sources and every other status are failures subject to the retry budget.
    The wrapped failures keep their cause reachable through Unwrap.
   */
  function MakeRequest(ex: Exchange): (r: Result<Directive, Error>)
    ensures r.Ok? <==> ex.Response? && Http.IsSuccess(ex.status)
    ensures r.Ok? ==> r.value == ex.directive
    ensures r.Err? && !ex.Response? ==> Unwrap(r.error) == Some(ex.err)
    ensures r.Err? && ex.Response? ==> Unwrap(r.error).None?
  {
    match ex
    case BodyError(e) => Err(Wrapped("build request body", Some(e)))
    case RequestError(e) => Err(Wrapped("create request", Some(e)))
    case TransportError(e) => Err(Wrapped("http request", Some(e)))
    case Response(status, body, d) =>
      if status < 200 || status >= 300 then
        Err(Leaf("http error " + Text.Decimal(status) + ": " + body))
      else Ok(d)
  }

  /** The loop's variables: consecutive failures and the URL of the next request. */
  datatype LoopState = LoopState(retries: nat, url: string)

  /** What the loop does to the outside world, in order. */
  datatype Action =
    | Send(url: string)   // an HTTP request to `url`
    | Handle              // one handler call
    | Close               // a response body closed
    | Sleep               // a retry delay that ran to its end

  datatype StepResult = Continue(next: LoopState) | Return(err: Option<Error>)

  datatype StepOut = StepOut(result: StepResult, actions: seq<Action>)

  function RetryExhausted(cause: Error): Error
  {
    Wrapped("max retries exceeded", Some(cause))
  }

  function HandlerFailed(cause: Error): Error
  {
    Wrapped("handler error", Some(cause))
  }

  predicate IsExhaustion(e: Error)
  {
    e.Wrapped? && e.prefix == "max retries exceeded"
  }

  /** One pass of pollLoop from state `s` under the answers of `ev`. */
  function Step(maxRetries: int, s: LoopState, ev: Event): (o: StepOut)
    // cancellation seen at the top of the loop: no exchange, the context error
    ensures ev.before.Done? ==> o == StepOut(Return(Some(Context(ev.before.reason))), [])
    // the loop never carries on past a checkpoint that saw cancellation
    ensures o.result.Continue? ==> ev.before.Live? && ev.after.Live?
    // cancellation seen in the retry sleep or after a continue directive: the context error
    ensures ev.before.Live? && ev.after.Done?
            && !(MakeRequest(ev.exchange).Err? && maxRetries >= 0 && s.retries >= maxRetries)
            && !(MakeRequest(ev.exchange).Ok? &&
                 (ev.exchange.directive.err.Some? || !ev.exchange.directive.shouldContinue)) ==>
              o.result == Return(Some(Context(ev.after.reason)))
    // each request goes to the current URL
    ensures ev.before.Live? && Sent(ev.exchange) ==> |o.actions| > 0 && o.actions[0] == Send(s.url)
    ensures !(ev.before.Live? && Sent(ev.exchange)) ==> forall a :: a in o.actions ==> !a.Send?
    // a failure counts against the budget and keeps the URL
    ensures MakeRequest(ev.exchange).Err? && o.result.Continue? ==>
              o.result.next == LoopState(s.retries + 1, s.url) && (maxRetries < 0 || s.retries < maxRetries)
    ensures maxRetries >= 0 && s.retries <= maxRetries && o.result.Continue? ==>
              o.result.next.retries <= maxRetries
    // the budget error only when the finite budget is used up, wrapping the failure
    ensures o.result.Return? && o.result.err.Some? && IsExhaustion(o.result.err.value) ==>
              && maxRetries >= 0 && s.retries >= maxRetries
              && MakeRequest(ev.exchange).Err?
              && o.result.err.value == RetryExhausted(MakeRequest(ev.exchange).error)
    // a success resets the counter and applies a non-empty next URL
    ensures MakeRequest(ev.exchange).Ok? && o.result.Continue? ==>
              var d := ev.exchange.directive;
              o.result.next == LoopState(0, if d.nextURL != "" then d.nextURL else s.url)
    // a handler error ends the session at once, after the body is closed
    ensures ev.before.Live? && MakeRequest(ev.exchange).Ok? && ev.exchange.directive.err.Some? ==>
              o == StepOut(Return(Some(HandlerFailed(ev.exchange.directive.err.value))),
                           [Send(s.url), Handle, Close])
    // a stop directive ends the session without error after exactly one handler call
    ensures ev.before.Live? && MakeRequest(ev.exchange).Ok? && ev.exchange.directive.err.None?
            && !ev.exchange.directive.shouldContinue ==>
              o == StepOut(Return(None), [Send(s.url), Handle, Close])
  {
    if ev.before.Done? then StepOut(Return(Some(Context(ev.before.reason))), [])
    else
      var sent := if Sent(ev.exchange) then [Send(s.url)] else [];
      match MakeRequest(ev.exchange)
      case Err(cause) =>
        // a non-2xx response body is read and closed inside makeRequest
        var attempted := sent + (if ev.exchange.Response? then [Close] else []);
        if maxRetries >= 0 && s.retries >= maxRetries then
          StepOut(Return(Some(RetryExhausted(cause))), attempted)
        else if ev.after.Done? then
          StepOut(Return(Some(Context(ev.after.reason))), attempted)
        else
          StepOut(Continue(LoopState(s.retries + 1, s.url)), attempted + [Sleep])
      case Ok(d) =>
        var handled := sent + [Handle, Close];
        if d.err.Some? then StepOut(Return(Some(HandlerFailed(d.err.value))), handled)
        else if !d.shouldContinue then StepOut(Return(None), handled)
        else if ev.after.Done? then StepOut(Return(Some(Context(ev.after.reason))), handled)
        else StepOut(Continue(LoopState(0, if d.nextURL != "" then d.nextURL else s.url)), handled)
  }

  // ---------------------------------------------------------------------------
  // The loop
  // ---------------------------------------------------------------------------

  /** How a run ends: pollLoop returned (nil or an error), or the trace ran out first. */
  datatype Outcome = Returned(err: Option<Error>) | Pending

  datatype Run = Run(outcome: Outcome, steps: nat, actions: seq<Action>, final: LoopState)

  function CountSends(acts: seq<Action>): nat
  {
    if |acts| == 0 then 0 else (if acts[0].Send? then 1 else 0) + CountSends(acts[1..])
  }

  function CountOf(acts: seq<Action>, a: Action): nat
  {
    if |acts| == 0 then 0 else (if acts[0] == a then 1 else 0) + CountOf(acts[1..], a)
  }

  /** pollLoop from state `s` over `trace`, one Step per event until a Step returns. */
  function RunLoop(maxRetries: int, s: LoopState, trace: seq<Event>): (r: Run)
    decreases |trace|
    ensures r.steps <= |trace|
    ensures r.outcome.Pending? ==> r.steps == |trace|
    ensures r.outcome.Returned? ==> r.steps >= 1
    // with a finite budget the failure counter never exceeds it
    ensures maxRetries >= 0 && s.retries <= maxRetries ==> r.final.retries <= maxRetries
    // an unlimited budget never produces the "max retries exceeded" error
    ensures maxRetries < 0 && r.outcome.Returned? && r.outcome.err.Some? ==>
              !IsExhaustion(r.outcome.err.value)
  {
    if |trace| == 0 then Run(Pending, 0, [], s)
    else
      var o := Step(maxRetries, s, trace[0]);
      match o.result
      case Return(e) => Run(Returned(e), 1, o.actions, s)
      case Continue(s') =>
        var rest := RunLoop(maxRetries, s', trace[1..]);
        Run(rest.outcome, rest.steps + 1, o.actions + rest.actions, rest.final)
  }

  /** The loop as pollLoop starts it: no failures yet, the caller's URL. */
  function PollLoop(maxRetries: int, url: string, trace: seq<Event>): Run
  {
    RunLoop(maxRetries, LoopState(0, url), trace)
  }

  predicate FailingLive(ev: Event)
  {
    ev.before.Live? && MakeRequest(ev.exchange).Err? && ev.after.Live?
  }

  lemma CountAppend(a: seq<Action>, b: seq<Action>, x: Action)
    ensures CountOf(a + b, x) == CountOf(a, x) + CountOf(b, x)
    ensures CountSends(a + b) == CountSends(a) + CountSends(b)
  {
    if |a| > 0 {
      assert (a + b)[0] == a[0];
      assert (a + b)[1..] == a[1..] + b;
      CountAppend(a[1..], b, x);
    } else {
      assert a + b == b;
    }
  }

  /**
    With a finite budget N and `k` failures already counted, a session whose every
    attempt fails makes exactly N - k + 1 more attempts, sleeps N - k times, and
    returns "max retries exceeded" wrapping the last failure.
   */
  lemma {:induction false} AlwaysFailingExhausts(n: int, s: LoopState, trace: seq<Event>)
    decreases n - s.retries
    requires n >= 0 && s.retries <= n
    requires |trace| >= n - s.retries + 1
    requires forall i :: 0 <= i < |trace| ==> FailingLive(trace[i])
    ensures var r := RunLoop(n, s, trace);
            var k := n - s.retries;
            && FailingLive(trace[k])
            && r.steps == k + 1
            && r.outcome == Returned(Some(RetryExhausted(MakeRequest(trace[k].exchange).error)))
            && CountOf(r.actions, Sleep) == k
  {
    var o := Step(n, s, trace[0]);
    assert FailingLive(trace[0]);
    if s.retries < n {
      var s' := LoopState(s.retries + 1, s.url);
      assert o.result == Continue(s');
      AlwaysFailingExhausts(n, s', trace[1..]);
      var rest := RunLoop(n, s', trace[1..]);
      assert trace[1..][n - s'.retries] == trace[n - s.retries];
      CountAppend(o.actions, rest.actions, Sleep);
      assert CountOf(o.actions, Sleep) == 1 by {
        var sent := if Sent(trace[0].exchange) then [Send(s.url)] else [];
        var closed := if trace[0].exchange.Response? then [Close] else [];
        assert o.actions == sent + closed + [Sleep];
        CountAppend(sent + closed, [Sleep], Sleep);
        CountAppend(sent, closed, Sleep);
      }
    } else {
      assert o.result == Return(Some(RetryExhausted(MakeRequest(trace[0].exchange).error)));
      var sent := if Sent(trace[0].exchange) then [Send(s.url)] else [];
      var closed := if trace[0].exchange.Response? then [Close] else [];
      assert o.actions == sent + closed;
      CountAppend(sent, closed, Sleep);
    }
  }

  /** A fresh session with finite budget N whose every attempt fails makes exactly N + 1 attempts. */
  lemma AlwaysFailingFromStart(n: int, url: string, trace: seq<Event>)
    requires n >= 0 && |trace| >= n + 1
    requires forall i :: 0 <= i < |trace| ==> FailingLive(trace[i])
    ensures var r := PollLoop(n, url, trace);
            && FailingLive(trace[n])
            && r.steps == n + 1
            && r.outcome == Returned(Some(RetryExhausted(MakeRequest(trace[n].exchange).error)))
            && CountOf(r.actions, Sleep) == n
  {
    AlwaysFailingExhausts(n, LoopState(0, url), trace);
  }

  /**
    A success in between resets the budget: fail once, succeed with "continue", then
    fail every time -- the session still makes N + 1 failing attempts after the success.
   */
  lemma {:induction false} SuccessResetsBudget(n: int, url: string, trace: seq<Event>)
    requires n >= 1 && |trace| >= n + 3
    requires FailingLive(trace[0])
    requires trace[1].before.Live? && trace[1].after.Live?
    requires MakeRequest(trace[1].exchange).Ok?
    requires trace[1].exchange.directive.err.None? && trace[1].exchange.directive.shouldContinue
    requires forall i :: 2 <= i < |trace| ==> FailingLive(trace[i])
    ensures var r := PollLoop(n, url, trace);
            && FailingLive(trace[n + 2])
            && r.steps == n + 3
            && r.outcome == Returned(Some(RetryExhausted(MakeRequest(trace[n + 2].exchange).error)))
  {
    var s0 := LoopState(0, url);
    var o0 := Step(n, s0, trace[0]);
    assert o0.result == Continue(LoopState(1, url));
    var d := trace[1].exchange.directive;
    var s2 := LoopState(0, if d.nextURL != "" then d.nextURL else url);
    var o1 := Step(n, LoopState(1, url), trace[1]);
    assert o1.result == Continue(s2);
    var t2 := trace[2..];
    assert trace[1..][1..] == t2;
    assert forall i :: 0 <= i < |t2| ==> FailingLive(t2[i]) by {
      forall i | 0 <= i < |t2|
        ensures FailingLive(t2[i])
      {
        assert t2[i] == trace[i + 2];
      }
    }
    AlwaysFailingExhausts(n, s2, t2);
    assert t2[n] == trace[n + 2];
    var r2 := RunLoop(n, s2, t2);
    assert trace[1..][0] == trace[1];
    assert RunLoop(n, LoopState(1, url), trace[1..])
        == Run(r2.outcome, r2.steps + 1, o1.actions + r2.actions, r2.final);
  }

  /**
    Once cancellation is observed at the top of event k, the session has returned by
    then, has sent at most k requests, and if it reached event k it returned the
    context error.
   */
  lemma {:induction false} CancellationEndsSession(n: int, s: LoopState, trace: seq<Event>, k: nat)
    decreases k
    requires k < |trace| && trace[k].before.Done?
    ensures var r := RunLoop(n, s, trace);
            && r.outcome.Returned? && r.steps <= k + 1
            && CountSends(r.actions) <= k
            && (r.steps == k + 1 ==> r.outcome.err == Some(Context(trace[k].before.reason)))
  {
    var o := Step(n, s, trace[0]);
    if k > 0 && o.result.Continue? {
      var rest := RunLoop(n, o.result.next, trace[1..]);
      CancellationEndsSession(n, o.result.next, trace[1..], k - 1);
      CountAppend(o.actions, rest.actions, Handle);
      StepSendsAtMostOnce(n, s, trace[0]);
    } else if k > 0 {
      StepSendsAtMostOnce(n, s, trace[0]);
    }
  }

  /**
    Once cancellation is observed after the exchange of event k (in the retry sleep or
    after a continue directive), the session has returned by the end of that event and
    has sent at most k + 1 requests.
   */
  lemma {:induction false} LateCancellationEndsSession(n: int, s: LoopState, trace: seq<Event>, k: nat)
    decreases k
    requires k < |trace| && trace[k].after.Done?
    ensures var r := RunLoop(n, s, trace);
            && r.outcome.Returned? && r.steps <= k + 1
            && CountSends(r.actions) <= k + 1
  {
    var o := Step(n, s, trace[0]);
    StepSendsAtMostOnce(n, s, trace[0]);
    if k > 0 && o.result.Continue? {
      var rest := RunLoop(n, o.result.next, trace[1..]);
      LateCancellationEndsSession(n, o.result.next, trace[1..], k - 1);
      CountAppend(o.actions, rest.actions, Handle);
    }
  }

  lemma StepSendsAtMostOnce(n: int, s: LoopState, ev: Event)
    ensures CountSends(Step(n, s, ev).actions) <= 1
  {
    var o := Step(n, s, ev);
    if ev.before.Live? {
      var sent := if Sent(ev.exchange) then [Send(s.url)] else [];
      var tail := o.actions[|sent|..];
      assert o.actions == sent + tail;
      assert forall a :: a in tail ==> !a.Send?;
      NoSendsCount(tail);
      CountAppend(sent, tail, Handle);
    }
  }

  lemma NoSendsCount(acts: seq<Action>)
    requires forall a :: a in acts ==> !a.Send?
    ensures CountSends(acts) == 0
  {
    if |acts| > 0 {
      assert acts[0] in acts;
      NoSendsCount(acts[1..]);
    }
  }

  /** Every handler call is directly followed by closing its response body. */
  ghost predicate HandlesClosed(acts: seq<Action>)
  {
    forall i :: 0 <= i < |acts| && acts[i] == Handle ==> i + 1 < |acts| && acts[i + 1] == Close
  }

  /** The loop closes the body of every response it hands to the handler, on every path. */
  lemma {:induction false} RunClosesHandledBodies(n: int, s: LoopState, trace: seq<Event>)
    decreases |trace|
    ensures HandlesClosed(RunLoop(n, s, trace).actions)
  {
    if |trace| > 0 {
      var o := Step(n, s, trace[0]);
      StepClosesHandledBodies(n, s, trace[0]);
      if o.result.Continue? {
        var rest := RunLoop(n, o.result.next, trace[1..]);
        RunClosesHandledBodies(n, o.result.next, trace[1..]);
        HandlesClosedAppend(o.actions, rest.actions);
      }
    }
  }

  lemma StepClosesHandledBodies(n: int, s: LoopState, ev: Event)
    ensures HandlesClosed(Step(n, s, ev).actions)
    ensures var a := Step(n, s, ev).actions; |a| > 0 ==> a[|a| - 1] != Handle
  {
  }

  lemma HandlesClosedAppend(a: seq<Action>, b: seq<Action>)
    requires HandlesClosed(a) && HandlesClosed(b)
    requires |a| > 0 ==> a[|a| - 1] != Handle
    ensures HandlesClosed(a + b)
  {
    var ab := a + b;
    forall i | 0 <= i < |ab| && ab[i] == Handle
      ensures i + 1 < |ab| && ab[i + 1] == Close
    {
      if i < |a| {
        assert ab[i] == a[i];
        assert i + 1 < |a|;
        assert ab[i + 1] == a[i + 1];
      } else {
        assert ab[i] == b[i - |a|];
        assert ab[i + 1] == b[i + 1 - |a|];
      }
    }
  }

  // ---------------------------------------------------------------------------
  // Sessions and the registry
  // ---------------------------------------------------------------------------

  /** Adds a session, not yet cancelled; the others are untouched. */
  function Register(reg: Registry, id: SessionId): (r: Registry)
    ensures r.Keys == reg.Keys + {id} && !r[id]
    ensures forall j :: j in reg && j != id ==> r[j] == reg[j]
  {
    reg[id := false]
  }

  /** Removes a session; removing one that is not registered changes nothing. */
  function Deregister(reg: Registry, id: SessionId): (r: Registry)
    ensures r.Keys == reg.Keys - {id}
    ensures forall j :: j in r ==> r[j] == reg[j]
    ensures id !in reg ==> r == reg
  {
    reg - {id}
  }

  /** StopAll: cancels every registered session and removes none. */
  function StopAll(reg: Registry): (r: Registry)
    ensures r.Keys == reg.Keys
    ensures forall j :: j in r ==> r[j]
  {
    map j | j in reg :: true
  }

  /** ActiveCount: the number of registered sessions. */
  function ActiveCount(reg: Registry): (n: nat)
    ensures n == 0 <==> reg == map[]
  {
    |reg.Keys|
  }

  /** What a session observes at its next checkpoint, given its registry entry. */
  function Checkpoint(reg: Registry, id: SessionId): (sg: Signal)
    ensures sg.Done? <==> id in reg && reg[id]
  {
    if id in reg && reg[id] then Done(Canceled) else Live
  }

  /** Cancelling twice is cancelling once. */
  lemma StopAllIdempotent(reg: Registry)
    ensures StopAll(StopAll(reg)) == StopAll(reg)
  {
  }

  /** After StopAll, every registered session sees `context canceled` at its next checkpoint. */
  lemma StopAllCancelsEverySession(reg: Registry, id: SessionId)
    requires id in reg
    ensures Checkpoint(StopAll(reg), id) == Done(Canceled)
  {
  }

  datatype PollResult = PollResult(client: Client, run: Run, registered: Registry)

  /**
    Poll: registers a fresh session, runs the loop, and deregisters the session on every
    return. `registered` is the registry while the loop runs.
   */
  function Poll(c: Client, id: SessionId, url: string, trace: seq<Event>): (r: PollResult)
    requires id !in c.active
    ensures id in r.registered && !r.registered[id]
    ensures ActiveCount(r.registered) == ActiveCount(c.active) + 1
    ensures r.client == c
    ensures r.run.steps <= |trace|
  {
    var during := Register(c.active, id);
    var run := PollLoop(c.config.maxRetries, url, trace);
    assert during.Keys == c.active.Keys + {id};
    PollResult(c.(active := Deregister(during, id)), run, during)
  }

  /** A SimpleResponseHandler's answer (continue, error) taken as the directive ("", continue, error). */
  function Simplify(ev: Event): (e: Event)
    ensures e.before == ev.before && e.after == ev.after
    ensures MakeRequest(e.exchange).Ok? <==> MakeRequest(ev.exchange).Ok?
    ensures e.exchange.Response? ==> e.exchange.directive.nextURL == ""
  {
    match ev.exchange
    case Response(st, b, d) => ev.(exchange := Response(st, b, d.(nextURL := "")))
    case _ => ev
  }

  function SimplifyAll(trace: seq<Event>): (t: seq<Event>)
    ensures |t| == |trace|
    ensures forall i :: 0 <= i < |trace| ==> t[i] == Simplify(trace[i])
  {
    if |trace| == 0 then [] else [Simplify(trace[0])] + SimplifyAll(trace[1..])
  }

  /** PollSimple: Poll with a handler that never changes the URL. */
  function PollSimple(c: Client, id: SessionId, url: string, trace: seq<Event>): (r: PollResult)
    requires id !in c.active
    ensures r.client == c
    ensures forall a :: a in r.run.actions && a.Send? ==> a.url == url
  {
    var t := SimplifyAll(trace);
    KeepsUrl(c.config.maxRetries, LoopState(0, url), t);
    Poll(c, id, url, t)
  }

  predicate NoNextUrl(ev: Event)
  {
    ev.exchange.Response? ==> ev.exchange.directive.nextURL == ""
  }

  /** When no handler answer names a new URL, every request goes to the starting URL. */
  lemma {:induction false} KeepsUrl(n: int, s: LoopState, trace: seq<Event>)
    decreases |trace|
    requires forall i :: 0 <= i < |trace| ==> NoNextUrl(trace[i])
    ensures var r := RunLoop(n, s, trace);
            r.final.url == s.url && forall a :: a in r.actions && a.Send? ==> a.url == s.url
  {
    if |trace| > 0 {
      var o := Step(n, s, trace[0]);
      assert NoNextUrl(trace[0]);
      assert forall a :: a in o.actions && a.Send? ==> a.url == s.url;
      if o.result.Continue? {
        assert o.result.next.url == s.url;
        assert forall i :: 0 <= i < |trace[1..]| ==> NoNextUrl(trace[1..][i]) by {
          forall i | 0 <= i < |trace[1..]|
            ensures NoNextUrl(trace[1..][i])
          {
            assert trace[1..][i] == trace[i + 1];
          }
        }
        KeepsUrl(n, o.result.next, trace[1..]);
      }
    }
  }

  /** A non-empty next URL from the handler is exactly the target of the following request. */
  lemma NextUrlIsFollowed(n: int, s: LoopState, ev1: Event, ev2: Event)
    requires ev1.before.Live? && ev1.after.Live? && MakeRequest(ev1.exchange).Ok?
    requires ev1.exchange.directive.err.None? && ev1.exchange.directive.shouldContinue
    requires ev1.exchange.directive.nextURL != ""
    requires ev2.before.Live? && Sent(ev2.exchange)
    ensures var o1 := Step(n, s, ev1);
            && o1.result.Continue?
            && Step(n, o1.result.next, ev2).actions[0] == Send(ev1.exchange.directive.nextURL)
  {
  }

  // ---------------------------------------------------------------------------
  // The registry over a sequence of session starts, returns and bulk cancels
  // ---------------------------------------------------------------------------

  datatype RegistryOp = Start(id: SessionId) | Finish(id: SessionId) | CancelAll

  function ApplyOp(reg: Registry, op: RegistryOp): Registry
  {
    match op
    case Start(id) => Register(reg, id)
    case Finish(id) => Deregister(reg, id)
    case CancelAll => StopAll(reg)
  }

  /** Each start uses a fresh session, and each return is of a running session. */
  predicate ValidOps(reg: Registry, ops: seq<RegistryOp>)
    decreases |ops|
  {
    |ops| == 0 ||
    (&& (ops[0].Start? ==> ops[0].id !in reg)
     && (ops[0].Finish? ==> ops[0].id in reg)
     && ValidOps(ApplyOp(reg, ops[0]), ops[1..]))
  }

  function ApplyOps(reg: Registry, ops: seq<RegistryOp>): Registry
    decreases |ops|
  {
    if |ops| == 0 then reg else ApplyOps(ApplyOp(reg, ops[0]), ops[1..])
  }

  function Starts(ops: seq<RegistryOp>): nat
  {
    if |ops| == 0 then 0 else (if ops[0].Start? then 1 else 0) + Starts(ops[1..])
  }

  function Finishes(ops: seq<RegistryOp>): nat
  {
    if |ops| == 0 then 0 else (if ops[0].Finish? then 1 else 0) + Finishes(ops[1..])
  }

  /** ActiveCount equals the sessions started minus the sessions that returned. */
  lemma {:induction false} ActiveCountTracksSessions(reg: Registry, ops: seq<RegistryOp>)
    decreases |ops|
    requires ValidOps(reg, ops)
    ensures ActiveCount(ApplyOps(reg, ops)) + Finishes(ops) == ActiveCount(reg) + Starts(ops)
  {
    if |ops| > 0 {
      var reg' := ApplyOp(reg, ops[0]);
      ActiveCountTracksSessions(reg', ops[1..]);
      match ops[0]
      case Start(id) =>
        assert reg'.Keys == reg.Keys + {id};
      case Finish(id) =>
        assert reg'.Keys == reg.Keys - {id};
      case CancelAll =>
        assert reg'.Keys == reg.Keys;
    }
  }
}
