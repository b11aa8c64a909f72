# go-pkgs core, modelled in Dafny

This project models the decision logic of the small Go HTTP toolkit go-pkgs. Each package below gets one Dafny module.

- **longpoll** (`LongPoll`):
  - the client defaults and the header builders;
  - the classification a single request receives;
  - the poll loop with its retry budget and URL following;
  - the registry of active sessions behind `StopAll` and `ActiveCount`.
- **retry** (`Retry`):
  - the default strategy;
  - the attempt loop shared by `Do` and `DoWithResult`;
  - `IsRetryableError`.
- **ratelimit** (`RateLimit`): the fixed-window limiter's `Allow`.
- **router** (`RoutePatterns`, `Router`):
  - groups, middleware stacks, the order in which middlewares are applied, and the lock that forbids `Use` after a route is registered;
  - the pattern rewriting done by `register`, `Handle`, `HandleFiles` and `HandleRoot`;
  - the status probe and the 404 dispatch of `ServeHTTP`.
- **realip** (`RealIP`):
  - the private networks and `IsPrivateIP`;
  - client-address selection in `Get`.
- **middleware** (`Middleware`): `RealIP`, `RealIPWithTrustedProxies` and `Headers`.
- **httpclient** (`HttpClient`):
  - construction defaults and the header builders;
  - URL building;
  - the request a body-carrying call prepares, with its Content-Type rule;
  - the status check in `DecodeJSONResponse`.
- **validator** (`Validator`):
  - `IsAlpha`, `IsAlphanumeric` and `IsNumeric`;
  - `InRange` and `Between`.
- **httperrors** (`HttpErrors`): the `Error()` texts, the constructors and `Unwrap`.

Shared modules:
- `Basics`: `Option` and `Result`.
- `GoErrors`: Go error values.
  - Leaf errors, the two context errors, and `fmt.Errorf("…: %w")` wrappers.
  - The `Unwrap` chain and `errors.Is` over it.
- `Text`: the `strings` functions the core uses.
  - `TrimSpace`, `Split`/`Join`, and splitting at the first separator.
  - Decimal formatting and parsing.
- `Http`: `http.Header` as a map from canonical key to values.
  - `CanonicalMIMEHeaderKey`, and `Get`/`Set`.
  - The 2xx test.

How the model is built:
- **Loops as traces.** Loops that wait on the network, a clock or a context are pure functions over a trace of what the outside world answers:
  - in `LongPoll.RunLoop`, the context state at each checkpoint and the outcome of each exchange, including the handler's directive;
  - in `Retry.Attempts`, the context state and each call's result;
  - in `RateLimit.AllowAll`, the times of the calls.

  A trace that runs out before the loop returns gives a `Pending` outcome. Every statement about the loop holds for all traces.
- **Groups in an arena.** Router groups are pointers in Go. Here they are indices into an `Arena` that records every group and every mux registration in order. A middleware is a label, and a handler is its list of layers, outermost first, followed by an endpoint.
- **Network library as a parameter.** `net.ParseIP`, `IP.IsGlobalUnicast`, `net.SplitHostPort` and `net.ParseCIDR` are passed in as a `NetLib`. The one fact assumed of them (`ParsesNoEmpty`) is that the empty string is not an address. `IP.To4`, `IP.Equal` and `IPNet.Contains` are modelled concretely on byte sequences.
- **Map order as a parameter.** Where Go's map iteration order shows in a result, the order is an explicit `order` argument. The lemmas then state what holds for every order.

## Model

| member | source | states |
|---|---|---|
| GoErrors.Unwrap | longpoll/longpoll.go:177 | only a `%w` wrapper has an inner error, and unwrapping yields exactly the wrapped error |
| GoErrors.Chain | retry/retry.go:150-160 | the unwrap chain of an error starts with the error itself |
| GoErrors.IsIffOnChain | retry/retry.go:155 | `errors.Is(err, target)` holds exactly when target occurs somewhere on err's unwrap chain |
| GoErrors.WrapPreservesIs | retry/retry.go:155 | wrapping an error with `%w` keeps every `errors.Is` match of the inner error |
| Http.CanonicalWords | middleware/headers.go:17 | canonicalising a key keeps its length and its '-' positions |
| Http.CanonicalFormIsFixed | middleware/headers.go:17 | a key already in canonical form (upper case at word starts, lower case elsewhere) is left unchanged |
| Http.CanonicalWordsIdempotent | middleware/headers.go:17 | canonicalising a canonical key changes nothing |
| Http.CanonicalWordsKeepsTokens | middleware/headers.go:17 | a key made of token characters stays made of token characters |
| Http.CanonicalKeyIdempotent | middleware/headers.go:17 | `CanonicalMIMEHeaderKey` is idempotent on every key, valid or not |
| Http.HeaderGet | realip/realip.go:46 | a header whose canonical key is absent reads as "" |
| Http.HeaderSet | middleware/headers.go:17 | Set replaces all values of the canonical key by the single value and leaves every other key untouched |
| Http.SetThenGet | middleware/headers.go:17 | after Set, Get of any spelling with the same canonical key returns the value just set |
| Http.LastEntryFor | middleware/headers.go:12-18 | finds the last entry whose key canonicalises to k; no later entry has that key |
| Http.SetAllLastWins | middleware/headers.go:12-18 | after a sequence of Sets, a key holds the value of its last Set, or its old values if it was never set |
| Text.TrimLeftSpace | middleware/headers.go:15 | the result is a suffix of the input, everything removed is white space, and it does not start with white space |
| Text.TrimRightSpace | middleware/headers.go:15 | the result is a prefix of the input, everything removed is white space, and it does not end with white space |
| Text.TrimSpace | middleware/headers.go:15 | the trimmed string neither starts nor ends with white space |
| Text.TrimSpaceIsInfix | realip/realip.go:50 | the trimmed string is a contiguous part of the input with only white space cut off on either side |
| Text.TrimSpaceEmptyIff | realip/realip.go:50 | trimming gives "" exactly when the input is all white space |
| Text.TrimSpaceIdempotent | realip/realip.go:64 | trimming twice equals trimming once |
| Text.Split | realip/realip.go:49 | `strings.Split` yields at least one part, and no part contains the separator |
| Text.JoinSplit | realip/realip.go:49 | joining the parts of a split with the separator gives back the original string |
| Text.SplitJoin | realip/realip.go:49 | splitting the join of separator-free parts gives back the parts |
| Text.SplitFirst | middleware/headers.go:13 | `SplitN(s, sep, 2)` has no second part exactly when sep does not occur; otherwise the string is the sep-free head, sep, then the rest |
| Text.DecimalRoundTrip | httperrors/httperrors.go:78 | parsing the decimal text of any integer, negative ones included, gives the integer back |
| Text.DecimalFieldRoundTrip | httperrors/httperrors.go:78 | a number printed between a prefix and a terminator can be read back from the surrounding text |
| LongPoll.NewWithConfig | longpoll/longpoll.go:79-112 | every zero field takes its default: 60s poll timeout, 1s retry delay, unlimited retries, GET; the HTTP timeout is the configured one or the poll timeout; no session is active |
| LongPoll.New | longpoll/longpoll.go:74-76 | a new client has all the defaults, no headers and no active session |
| LongPoll.WithHeader | longpoll/longpoll.go:291-296 | the key maps to the value; every other header and all configuration are kept |
| LongPoll.WithHeaders | longpoll/longpoll.go:299-306 | the given headers are merged in and win over existing ones; headers not given are kept |
| LongPoll.MakeRequest | longpoll/longpoll.go:226-271 | a request succeeds exactly on a 2xx response, and then the handler's directive is used; a build or transport error is wrapped so that it unwraps to the cause; a non-2xx status is an error with nothing to unwrap |
| LongPoll.Step | longpoll/longpoll.go:163-222 | a cancelled context returns its error before sending, and cancellation seen in the retry sleep or after a continue directive returns the context error unless the pass already ended by exhaustion, a handler error or a stop; at most one request is sent, to the current URL; a failure costs one retry and a success clears the count; exhaustion is reported only after the budget is used up; a handler error ends the loop |
| LongPoll.RunLoop | longpoll/longpoll.go:159-223 | the loop never takes more steps than the trace has; with a finite budget the retry count never exceeds it; an unlimited budget never reports exhaustion |
| LongPoll.AlwaysFailingExhausts | longpoll/longpoll.go:176-180 | with budget N, a session whose every attempt fails makes exactly the remaining attempts plus one, then returns the exhaustion error wrapping the last failure |
| LongPoll.AlwaysFailingFromStart | longpoll/longpoll_test.go:198-220 | a fresh session with MaxRetries N against a server that always fails sends exactly N + 1 requests and returns the exhaustion error |
| LongPoll.SuccessResetsBudget | longpoll/longpoll.go:193 | after one success, a later run of failures again gets the full budget of N + 1 attempts |
| LongPoll.CancellationEndsSession | longpoll/longpoll.go:164-168 | once the context is found cancelled at the top of pass k, the loop has returned by then, has sent at most k requests, and returns the context error if it reached pass k |
| LongPoll.LateCancellationEndsSession | longpoll/longpoll.go:185-188 | once cancellation is seen after the exchange of pass k (in the retry sleep or after a continue directive, 217-221), the loop has returned by the end of that pass and has sent at most k + 1 requests |
| LongPoll.StepSendsAtMostOnce | longpoll/longpoll.go:170 | one pass of the loop makes at most one request |
| LongPoll.RunClosesHandledBodies | longpoll/longpoll.go:195-201 | every response handed to the handler has its body closed right after the handler returns, on every path |
| LongPoll.StepClosesHandledBodies | longpoll/longpoll.go:195-201 | within one pass, each handler call is followed by closing the body, and a pass never ends on an unclosed handler call |
| LongPoll.Register | longpoll/longpoll.go:136-139 | a session is added to the registry, not yet cancelled, and the others are untouched |
| LongPoll.Deregister | longpoll/longpoll.go:140-144 | a session is removed from the registry and the others are kept as they were |
| LongPoll.StopAll | longpoll/longpoll.go:274-281 | every registered session is cancelled and none is removed |
| LongPoll.ActiveCount | longpoll/longpoll.go:284-288 | the count is zero exactly when no session is registered |
| LongPoll.Checkpoint | longpoll/longpoll.go:164-168 | a session sees its context as done exactly when it is registered and cancelled |
| LongPoll.StopAllIdempotent | longpoll/longpoll.go:274-281 | stopping twice is stopping once |
| LongPoll.StopAllCancelsEverySession | longpoll/longpoll.go:274-281 | after StopAll, every registered session sees `context canceled` at its next checkpoint |
| LongPoll.Poll | longpoll/longpoll.go:127-147 | a session is registered, live, for the duration of its loop, which raises the active count by one; the client's configuration is not changed |
| LongPoll.Simplify | longpoll/longpoll.go:151-156 | a simple handler's answer keeps the request outcome and never names a new URL |
| LongPoll.SimplifyAll | longpoll/longpoll.go:151-156 | the adapter is applied to every event of the trace |
| LongPoll.PollSimple | longpoll/longpoll.go:151-156 | with a simple handler, every request goes to the starting URL |
| LongPoll.KeepsUrl | longpoll/longpoll.go:203-205 | when no handler answer names a new URL, every request of the run goes to the starting URL |
| LongPoll.NextUrlIsFollowed | longpoll/longpoll.go:203-205 | a non-empty next URL returned by the handler is exactly the target of the following request |
| LongPoll.ActiveCountTracksSessions | longpoll/longpoll.go:136-144 | over any valid history, the active count equals the sessions started minus those that returned |
| Retry.DefaultStrategy | retry/retry.go:24-36 | three attempts, 100ms initial delay, a 10s cap, jitter on, and every error retryable |
| Retry.Effective | retry/retry.go:40-42 | a nil strategy means DefaultStrategy; a given one is used unchanged |
| Retry.Attempts | retry/retry.go:105-135 | fn is never called more often than the attempts left; there are never more waits than calls, no wait without a call, and never a wait after the call of the final attempt; a wait cut short by the context returns the context error after that one call; a failed loop returns the zero value |
| Retry.DoWithResult | retry/retry.go:96-136 | at most MaxAttempts calls of fn, and the zero value whenever the result is an error |
| Retry.Do | retry/retry.go:39-81 | at most MaxAttempts calls of fn under the effective strategy |
| Retry.NoAttemptsWhenBudgetEmpty | retry/retry.go:47 | with MaxAttempts of zero or less, fn is never called and the exhaustion error is returned |
| Retry.FirstSuccessReturns | retry/retry.go:112-115 | after retryable failures, the first success is returned at once with its value and no error |
| Retry.NonRetryableReturnedUnchanged | retry/retry.go:119-121 | an error RetryableErrors rejects is returned as it is, right after its attempt, with no wait |
| Retry.AllFailExhausts | retry/retry.go:123 | if every attempt fails retryably, every remaining attempt is used and the error wraps the last failure |
| Retry.AllFailFromStart | retry/retry.go:67 | a fresh loop with budget N whose attempts all fail makes N calls and N - 1 waits |
| Retry.CancellationStopsCalls | retry/retry.go:48-52 | a context found done before an attempt ends the loop with the context error, and fn is not called again |
| Retry.CancelledWaitStopsCalls | retry/retry.go:125-130 | a context done during the wait after attempt k ends the loop there: at most k + 1 calls, and the context error when attempt k was reached and failed retryably |
| Retry.IsRetryableError | retry/retry.go:150-160 | nil is not retryable; any other error is retryable unless `context.Canceled` or `context.DeadlineExceeded` is on its unwrap chain |
| Retry.WrappedContextNotRetryable | retry/retry.go:155 | wrapping a cancellation or a deadline error does not make it retryable |
| RateLimit.NewFixedWindow | ratelimit/ratelimit.go:95-101 | a new limiter opens a window at `now` with nothing counted, and satisfies the counter invariant |
| RateLimit.Allow | ratelimit/ratelimit.go:104-119 | an expired window restarts at `now`; a call is admitted exactly when the window count is under the limit, and only an admitted call is counted; the counter stays within the limit |
| RateLimit.RefusalChangesNothingElse | ratelimit/ratelimit.go:114-119 | a refused call changes the limiter only by possibly starting a new window |
| RateLimit.AllowAll | ratelimit/ratelimit.go:104-119 | a sequence of calls keeps the counter invariant and admits no more calls than were made |
| RateLimit.OneWindowAdmitsUpToLimit | ratelimit/ratelimit.go:109-118 | within one window, calls are admitted until the limit is reached and refused afterwards |
| RoutePatterns.Go122Split | router/routes.go:10 | a match of `^(\S+)\s+(.+)$` gives a non-empty method without white space and a non-empty path without newline |
| RoutePatterns.Go122SplitSound | router/routes.go:10 | every split returned is a match of the regular expression |
| RoutePatterns.Go122SplitComplete | router/routes.go:10 | whenever the expression matches, a split is found with the same method |
| RoutePatterns.Go122SplitNoneIffNoMatch | router/routes.go:80-84 | a pattern has no method reading exactly when the expression does not match |
| RoutePatterns.SplitOfMethodPattern | router/routes.go:80-84 | "VERB path" splits back into the verb and the path |
| RoutePatterns.RegisterPattern | router/routes.go:78-97 | a plain pattern is prefixed by the base path; a method pattern stays "METHOD base+path" |
| RoutePatterns.RegisterKeepsMethod | router/routes.go:84-96 | the mux reads the same method back from the registered pattern, with the base path before the path and `{$}` for a root path |
| RoutePatterns.RegisterSlashIsExact | router/group_test.go:251-267 | "/" on an unprefixed group registers "/{$}", which matches only the root |
| RoutePatterns.RegisterMountedPath | router/routes.go:86-88 | a mounted group's pattern starts with its base path |
| RoutePatterns.RegisterMethodRoot | router/routes.go:91-94 | "GET /" under "/api" registers "GET /api/{$}" |
| RoutePatterns.HandlePatternAsWritten | router/routes.go:16-21 | the pattern Handle computes: a trailing-slash pattern is the base path followed verbatim by the pattern, anything else is register's pattern; it differs from the corrected pattern only on trailing-slash "METHOD path" patterns |
| RoutePatterns.AsWrittenGluesVerb | router/routes.go:16-18 | for every space-free base and verb and every trailing-slash path, the as-written pattern splits into base + verb and the path |
| RoutePatterns.HandleAsWrittenLosesMethod | router/routes.go:16-21 | for every such base, verb and path, the as-written pattern's first field is base + verb, which is not a valid method when the base holds a '/', so the mux panics at registration ("GET /x/" under "/api" gives "/apiGET /x/"); the corrected pattern splits into the verb and base + path |
| RoutePatterns.HandlePattern | router/routes.go:13-22 | corrected Handle: the method is split off first, and only a plain trailing-slash pattern is prefixed verbatim |
| RoutePatterns.HandleKeepsMethod | router/routes.go:13-22 | with the correction, a method subtree pattern keeps its method and gets the base path before its path |
| RoutePatterns.FilesPattern | router/routes.go:33-44 | the file-server pattern always ends in '/' and starts with the base path; no prefix is stripped exactly for the root of an unprefixed group; otherwise the stripped prefix is the pattern without its final '/' |
| RoutePatterns.RootPattern | router/routes.go:50-56 | without a method the root pattern is the base path, or "/" if that is empty; with a method it starts with "METHOD " |
| RoutePatterns.RootPatternKeepsMethod | router/routes.go:63-69 | the method given to HandleRoot is the method the mux reads back |
| Router.Apply | router/middleware.go:38 | applying a middleware makes it the outermost layer |
| Router.ApplyFromEnd | router/middleware.go:52-54 | applying a list from its end keeps the endpoint and adds one layer per middleware |
| Router.ApplyFromEndOrder | router/middleware.go:38-40 | applying from the end leaves the first-listed middleware outermost, so the declared order is kept |
| Router.Wrap | router/middleware.go:36-41 | `Wrap(h, mw1, mws...)` runs mw1 first, then mws in order, then h |
| Router.ValidPointers | router/group.go:18-27 | in a valid arena every root pointer refers to an existing group |
| Router.NewGroup | router/group.go:31-38 | a new root group with the given mux and base path, no middlewares and no root pointer; nothing else changes |
| Router.New | router/group.go:31-33 | New makes a root group with an empty base path |
| Router.RootGroup | router/group.go:36-38 | RootGroup makes a root group with the given base path |
| Router.Update | router/middleware.go:11 | replacing one group leaves every other group and every route unchanged |
| Router.Use | router/middleware.go:6-12 | Use panics exactly when the group already has routes; otherwise it appends the middlewares in order to the group's stack, and the arena stays valid |
| Router.UseKeepsValid | router/middleware.go:6-12 | extending a group's stack keeps every derived group's stack an extension of its root's |
| Router.Derive | router/helpers.go:5-21 | a derived group is appended and nothing else changes: same mux, the given stack and base path, no 404 handler, unlocked; a root receiver becomes its root with the receiver's stack length as root count, a derived receiver passes on its own root and root count |
| Router.DeriveKeepsValid | router/helpers.go:5-21 | a derived group whose stack extends the receiver's keeps the arena valid |
| Router.With | router/middleware.go:15-33 | With returns a new group whose stack is the receiver's stack followed by the new middlewares; the receiver is unchanged |
| Router.Clone | router/helpers.go:5-21 | a clone copies the receiver's stack and base path into a new group, and no existing group changes |
| Router.SubGroup | router/group.go:75-77 | Group() is a clone and keeps the arena valid |
| Router.Mount | router/group.go:80-84 | a mounted group's base path is the receiver's followed by the mount path; its stack is the receiver's |
| Router.MountEmptyIsGroup | router/group.go:75-84 | mounting at "" is the same as Group() |
| Router.LockRoot | router/helpers.go:23 | only the receiver is marked as having routes |
| Router.RootOf | router/group.go:42-45 | the group ServeHTTP treats as the root has no root pointer of its own; a root group is its own root |
| Router.NotFoundHandler | router/group.go:90-96 | the 404 handler is stored on the root group, whichever group it was set through |
| Router.NotFoundSharedByRoot | router/group.go:90-96 | every group sharing a root sees the 404 handler set through any of them |
| Router.WrapMiddleware | router/middleware.go:44-56 | a root group's routes get no per-route layers; a derived group's routes get the part of its stack after the root's |
| Router.WrapGlobal | router/middleware.go:59-68 | the root's whole stack wraps the handler, with the first middleware outermost |
| Router.AddRoute | router/routes.go:14-18 | registering locks the receiver and appends one mux route whose handler is wrapped by the receiver's own middlewares |
| Router.Register | router/routes.go:78-99 | register adds the rewritten pattern and locks the receiver |
| Router.HandleFunc | router/routes.go:25-27 | HandleFunc registers through register and keeps the arena valid |
| Router.Handle | router/routes.go:13-22 | as the source writes it: a trailing-slash pattern is registered as the base path followed by the pattern, any other goes through register; the receiver ends locked and the arena stays valid |
| Router.HandleCorrected | router/routes.go:13-22 | Handle with the corrected pattern: the same registration as Handle except for trailing-slash "METHOD path" patterns, whose method stays in front |
| Router.HandleFiles | router/routes.go:30-45 | a file server is registered under the pattern, stripped of its prefix except at the top |
| Router.HandleRoot | router/routes.go:48-58 | the group's root path is registered, with the method if one is given |
| Router.HandleRootFunc | router/routes.go:61-71 | HandleRootFunc makes the same registration as HandleRoot |
| Router.RegistrationLocksUse | router/middleware.go:7-9 | after a route is registered on a group, Use on that group panics; any other group is unaffected |
| Router.RecorderWriteHeader | router/helpers.go:32 | the recorder remembers the status given to WriteHeader |
| Router.RecorderWrite | router/helpers.go:31 | Write discards its data and reports 0 bytes and no error |
| Router.RecorderHeader | router/helpers.go:30 | Header returns an empty header |
| Router.LastHeaderCode | router/helpers.go:32 | finds the status of the last WriteHeader call, or reports that there were only writes |
| Router.ProbeStatusIsLastHeader | router/group.go:58-61 | the probe reports the last status the mux wrote, or 200 when it wrote none |
| Router.LastHeaderCodeTail | router/helpers.go:32 | a later WriteHeader overrides an earlier one |
| Router.Dispatch | router/group.go:56-69 | the 404 handler runs exactly when no pattern matched, one is set, and the probe status is not 405; otherwise the mux serves |
| Router.ServeHTTP | router/group.go:41-72 | the root's global stack wraps the dispatch, and dispatch uses the root's 404 handler |
| Router.EndToEndOrder | router/group.go:41-72 | a request to a route runs the root's stack, then the group's own stack after the root part, then the handler, so every middleware of the group runs once and in order |
| Router.OrderScenario | router/group_test.go:22-43 | root middleware "root;" then group middleware "group;" runs in that order before the handler |
| RealIP.To4 | realip/realip.go:93-100 | the 4-byte form exists exactly for 4-byte addresses and v4-mapped 16-byte addresses, and keeps their last four bytes |
| RealIP.Equal | realip/realip.go:93-100 | two addresses are equal when their bytes agree or one is the v4-mapped form of the other |
| RealIP.EqualSymmetric | middleware/realip.go:85-87 | address equality is symmetric |
| RealIP.NetworkNumberAndMask | realip/realip.go:93-100 | a network's number and mask have the same length, and a v4 network is reduced to 4 bytes |
| RealIP.AnyContains | realip/realip.go:93-100 | isPrivateSubnet holds exactly when some network of the list contains the address |
| RealIP.FullAndZeroMask | realip/realip.go:93-100 | a mask byte of 0xff compares the whole byte and a mask byte of 0 compares nothing |
| RealIP.PartialMasks | realip/realip.go:13-28 | the partial mask bytes of the private ranges (0xf0, 0xc0, 0xfe) select exactly the intended byte ranges |
| RealIP.V4NetsContain | realip/realip.go:13-22 | the six IPv4 private networks contain exactly the addresses in their stated ranges |
| RealIP.UniqueLocalContains | realip/realip.go:23-24 | fc00::/7 contains exactly the 16-byte addresses starting with 0xfc or 0xfd |
| RealIP.LinkLocalContains | realip/realip.go:25-26 | fe80::/10 contains exactly the 16-byte addresses starting with 0xfe and 0x80 to 0xbf |
| RealIP.IsPrivateByNet | realip/realip.go:93-100 | an address is private exactly when one of the eight networks contains it |
| RealIP.IsPrivateIff | realip/realip.go:104-106 | IsPrivateIP holds exactly for the addresses in the eight private ranges, stated independently by their first bytes |
| RealIP.Quote | realip/realip.go:90 | the quoted string starts and ends with a double quote |
| RealIP.FirstValidPassFinds | realip/realip.go:51-61 | the first pass keeps an earlier find, and otherwise finds the leftmost valid entry |
| RealIP.PublicPassFinds | realip/realip.go:63-73 | the second pass finds the rightmost public entry of the header |
| RealIP.ScanHeadersChooses | realip/realip.go:44-74 | the header loop picks the rightmost public entry of X-Forwarded-For, else of X-Real-Ip; failing that, it carries the leftmost valid entry |
| RealIP.TrimAll | realip/realip.go:49-50 | every entry is trimmed and none is dropped |
| RealIP.FirstValid | realip/realip.go:51-61 | finds the leftmost entry that parses as an address, or none if no entry parses |
| RealIP.LastPublic | realip/realip.go:63-73 | finds the rightmost public entry, or none if no entry is public |
| RealIP.PublicChoice | realip/realip.go:63-73 | the chosen public entry is a public address |
| RealIP.ValidChoice | realip/realip.go:51-61 | the chosen fallback entry parses as an address |
| RealIP.GetIsSelected | realip/realip.go:41-91 | Get returns exactly the selection rule: the rightmost public entry, else the leftmost valid entry, else the RemoteAddr host if it is an address, else an error |
| RealIP.FirstValidNoneIff | realip/realip.go:51-61 | there is no leftmost valid entry exactly when no entry parses |
| RealIP.GetErrIff | realip/realip.go:86-90 | Get fails exactly when no header entry and no RemoteAddr host is a valid address, and the error names RemoteAddr |
| RealIP.GetReturnsValid | realip/realip.go:41-91 | every address Get returns parses as an address |
| Middleware.RealIPMiddleware | middleware/realip.go:21-30 | RemoteAddr becomes the selected client address when there is one and is left alone otherwise; headers are untouched |
| Middleware.ParseTrusted | middleware/realip.go:55-67 | entries with '/' that parse become networks and other entries that parse become addresses; the rest are dropped |
| Middleware.AnyEqual | middleware/realip.go:85-87 | the peer matches exactly when it equals some listed address |
| Middleware.AnyNet | middleware/realip.go:89-91 | the peer matches exactly when some listed network contains it |
| Middleware.TrustDecision | middleware/realip.go:80-93 | an empty list trusts exactly the private ranges; a non-empty list trusts exactly the peers some entry vouches for, so a list that does not parse trusts nobody |
| Middleware.TrustedProxiesMiddleware | middleware/realip.go:51-105 | the request changes only if the peer is an address that is trusted, and a trusted peer gets the RealIP rewrite |
| Middleware.UnlistedPeerCannotSpoof | middleware/realip.go:84-93 | with a non-empty list, a peer no entry vouches for cannot change the address the handler sees |
| Middleware.PublicPeerCannotSpoof | middleware/realip.go:82-83 | with an empty list, a public peer cannot change the address the handler sees |
| Middleware.ParseSpec | middleware/headers.go:13-17 | a spec yields a pair exactly when it contains ':' |
| Middleware.ParseSpecSplits | middleware/headers.go:13-17 | a parsed pair is the trimmed colon-free name and the trimmed rest after the first ':' |
| Middleware.Parsed | middleware/headers.go:12-18 | the pairs are exactly those of the well-formed specs |
| Middleware.ParsedStep | middleware/headers.go:12-18 | the pairs of the first spec together with those of the rest are the pairs of all the specs |
| Middleware.ApplyHeadersSetsParsed | middleware/headers.go:9-23 | Headers performs exactly one Set per well-formed spec, in order |
| Middleware.HeadersLastWins | middleware/headers.go:12-18 | when two specs name the same header, the later one wins; headers not named keep their values |
| Middleware.SpecWithoutColonSkipped | middleware/headers.go:14-16 | a spec without ':' is skipped |
| Middleware.SplitAtFirstColon | middleware/headers.go:13 | only the first ':' separates, so the value keeps any later ':' |
| HttpClient.New | httpclient/client.go:32-39 | a new client has the 30s timeout, no base URL and no headers |
| HttpClient.NewWithConfig | httpclient/client.go:42-58 | a zero timeout means 30s; the base URL is kept; the headers are the configured ones or none |
| HttpClient.ZeroConfigIsNew | httpclient/client.go:32-39 | New is NewWithConfig of the zero configuration |
| HttpClient.WithHeader | httpclient/client.go:79-85 | the key maps to the value, and every other header, the timeout and the base URL are kept |
| HttpClient.WithHeaders | httpclient/client.go:88-96 | the given headers are merged in and win; headers not given are kept |
| HttpClient.Restrict | httpclient/client.go:90-95 | selects exactly the given keys that the map has |
| HttpClient.WithEachMerges | httpclient/client.go:90-95 | setting the given headers one by one, in any order, merges them into the client's map |
| HttpClient.WithHeadersAnyOrder | httpclient/client.go:88-96 | the result of WithHeaders does not depend on the map's iteration order |
| HttpClient.BuildURL | httpclient/client.go:105-119 | without a base URL the path is the URL; an empty path gives the base URL; otherwise the base without one trailing '/' and the path without one leading '/' are joined by a single '/' |
| HttpClient.BuildURLEndsWithPath | httpclient/client.go:105-119 | the URL always ends with the path, without its leading '/' |
| HttpClient.InOrder | httpclient/client.go:122-126 | given a range order of the client headers (each key exactly once), setHeaders visits every header exactly once, in that order, with its value |
| HttpClient.RangeOrderLength | httpclient/client.go:122-126 | a range order has exactly as many entries as the map has keys |
| HttpClient.Prepare | httpclient/client.go:171-193 | the request is built exactly when the body marshals (or there is none) and the request constructor succeeds; it goes to the built URL with the method and carries the marshalled body exactly when one was given; a marshal error is wrapped as "marshal json: …" and a constructor error as "create request: …" |
| HttpClient.ContentTypeIsCanonical | httpclient/client.go:189 | "Content-Type" is already in canonical form |
| HttpClient.PreparedHeader | httpclient/client.go:171-193 | the prepared header is the JSON Content-Type when there is a body, then Set for every client header in the given range order |
| HttpClient.EveryHeaderSet | httpclient/client.go:122-126 | Setting a map's headers in a range order leaves every key present under its canonical form, with the value of the last key of that form |
| HttpClient.PreparedHasEveryHeader | httpclient/client.go:122-126 | every client header reaches the prepared request under its canonical key, with the value of the last client key of that form |
| HttpClient.ContentTypeIffBody | httpclient/client.go:188-190 | without a client Content-Type, the request has the JSON Content-Type exactly when it has a body |
| HttpClient.ClientContentTypeWins | httpclient/client.go:122-126 | a Content-Type header set on the client overrides the JSON one |
| HttpClient.DecodeJSONResponse | httpclient/client.go:261-276 | a non-2xx status is always an error; a 2xx status is an error only when decoding into a target fails |
| HttpClient.StatusErrorNamesStatus | httpclient/client.go:263-264 | the status error's text names the status code, which can be read back from it, and carries the body |
| Validator.BlankIffAllSpace | validator/validator_test.go:52-61 | a string is blank exactly when it is made of white space only |
| Validator.EveryRune | validator/common.go:70-74 | the loop accepts exactly when every rune of the string is in the class |
| Validator.IsAlpha | validator/common.go:66-76 | true exactly for a non-blank string of ASCII letters |
| Validator.IsAlphanumeric | validator/common.go:79-89 | true exactly for a non-blank string of ASCII letters and digits |
| Validator.IsNumeric | validator/common.go:92-102 | true exactly for a non-blank string of ASCII digits |
| Validator.BlankPassesNone | validator/common.go:67-69 | a blank string fails all three class checks |
| Validator.ClassRunesNotBlank | validator/common.go:67-69 | a string starting with a letter or digit is never blank |
| Validator.ClassesAreNonEmptyRuns | validator/common.go:66-102 | each class check accepts exactly the non-empty strings whose runes are all in the class |
| Validator.AlphaOrNumericIsAlphanumeric | validator/common.go:79-89 | every alphabetic string and every numeric string is alphanumeric |
| Validator.AlphaAndNumericDisjoint | validator/common.go:66-102 | no string is both alphabetic and numeric |
| Validator.NonAsciiLetterRejected | validator/common.go:71 | a non-ASCII letter such as 'é' is not a letter here |
| Validator.InRange | validator/common.go:44-46 | a value is in range exactly when min <= value <= max, both ends included |
| Validator.Between | validator/common.go:55-57 | Between is the same test as InRange |
| Validator.InRangeBounds | validator/common.go:44-46 | an empty range admits nothing; both ends of a non-empty range are admitted; the values just outside are not |
| HttpErrors.ErrorText | httperrors/httperrors.go:20-25 | the text is the message, then ": " and the details when there are any; it equals the message exactly when there are no details |
| HttpErrors.NewError | httperrors/httperrors.go:115-120 | no details and nothing wrapped, so the text is the message |
| HttpErrors.NewErrorWithDetails | httperrors/httperrors.go:123-129 | the details are kept and nothing is wrapped |
| HttpErrors.NewErrorWithErr | httperrors/httperrors.go:132-139 | the wrapped error's text becomes the details, and Unwrap gives the wrapped error back |
| HttpErrors.WithErrText | httperrors/httperrors.go:20-25 | an error built around another one reads "message: inner text", or the bare message if the inner text is empty |
| HttpErrors.APIErrorNamesCode | httperrors/httperrors.go:76-81 | the code can be read back from the API error's text, whatever the message and details |
| HttpErrors.APIErrorDetails | httperrors/httperrors.go:76-81 | " - details" is appended exactly when there are details |
| HttpErrors.NewAPIError | httperrors/httperrors.go:150-155 | no details and nothing wrapped |
| HttpErrors.NewAPIErrorWithDetails | httperrors/httperrors.go:158-164 | the details are kept and nothing is wrapped |
| HttpErrors.NewAPIErrorWithErr | httperrors/httperrors.go:167-174 | the wrapped error's text becomes the details, and Unwrap gives the wrapped error back |
| HttpErrors.NetworkErrorText | httperrors/httperrors.go:102-107 | the text is the message, followed by ": " and the wrapped error's text when there is one |
| HttpErrors.NewNetworkError | httperrors/httperrors.go:177-182 | the message is kept, and Unwrap gives back the error, nil included |
| HttpErrors.NetworkErrorLikeWrap | httperrors/httperrors.go:102-112 | a network error prints like a `%w` wrapper of its error, and as the bare message when the error is nil |
| HttpErrors.NewValidationError | httperrors/httperrors.go:142-147 | the field and non-field errors are kept |
| HttpErrors.FirstFieldWithErrors | httperrors/httperrors.go:50-55 | finds the first field, in iteration order, that has a message; every field before it has none |
| HttpErrors.ValidationTextAnyOrder | httperrors/httperrors.go:46-58 | in any iteration order, a non-field message wins; otherwise the text names some field with its first message; "validation failed" appears only when no field has a message |
| HttpErrors.ValidationTextSingleField | httperrors/httperrors.go:46-58 | when a single field has messages, the text does not depend on the iteration order |

## Left out

- Delays and jitter: retry's `calculateDelay`, `ExponentialBackoff` and the jitter use time and floating point. Only the number of waits is modelled. Each wait either runs to its end or is cut short by the context, as the trace says.
- `TokenBucket`, `FixedWindow.Wait`, `InRangeFloat`, `BetweenFloat`: these are floating-point or clock-driven waiting, not decision logic.
- `Group.Route` calls its argument on the group, so it adds no logic.
- `Group.Handler` forwards to the mux's own lookup.
- The mux's own matching is left out; its outcome (the matched pattern and the writer calls it makes) is an input of `Router.ServeHTTP`. Duplicate-pattern panics of the mux are not modelled.
- Logging, mutexes and concurrency are left out. Every operation is taken to run atomically, which the mutexes ensure in the source.
- JSON encoding and decoding are parameters (`marshal`, `decode`), and so is `http.NewRequestWithContext`.
- The transport (`http.Client.Do`) is left out, as are `GetJSON`, `PostJSON`, `PutJSON`, `PatchJSON` and `DeleteJSON`, which only combine modelled steps.
- The `WriteJSON` methods and the `errors.As`-based `Is*Error` helpers of httperrors are left out.
- `WithHTTPClient`, `WithTimeout`, `WithBaseURL` and `WithLogger` of httpclient are left out: they are plain field stores.
- longpoll's `makeRequest` also copies the client headers onto the request and sets a form Content-Type on POST bodies. Only the classification of its outcome is modelled; the request it builds is not.
- longpoll's `WithMethod`, `WithBodyBuilder` and `WithLogger` are left out; the body builder's errors are one kind of failed exchange in the trace.
- `IsEmail`, `IsURL` and `IsHTTPURL` rely on regular expressions and `net/url` parsing.
- validator.go, which defines `Blank`, is not part of this model. `Blank` is taken as "empty after `strings.TrimSpace`", which is what validator_test.go expects of it.
- `net.ParseIP`, `IP.IsGlobalUnicast`, `net.SplitHostPort` and `net.ParseCIDR` are parameters. The model assumes only that the empty string does not parse.
- RealIP.Quote: escapes only `"` and `\`, not the control and non-printable characters `strconv.Quote` also escapes.
- The header maps of httpclient and longpoll are values. In the source, `NewWithConfig` stores the caller's `cfg.Headers` map itself (httpclient/client.go:46-55, longpoll/longpoll.go:101-110), and `WithHeader`/`WithHeaders` change it in place (httpclient/client.go:79-96, longpoll/longpoll.go:291-306). So the caller's map and the client share their changes; the model does not capture that sharing.
- Router.Handle: the mux's own check of a pattern (the panic on an invalid method) is not part of `Router.Handle`. `RoutePatterns.MuxAcceptsMethod` and `RoutePatterns.HandleAsWrittenLosesMethod` state it separately.
- GoErrors.Is: compares errors as values. Go compares interface values, which for `*fmt.wrapError` and `errors.New` results means pointer identity, so two separately built wrappers with the same text are `Is`-equal here but not in Go. The context errors the core tests for are single sentinels, for which the two agree.
- Strings are sequences of runes, so UTF-8 decoding and invalid byte sequences are not modelled.
- A middleware calls its next handler exactly once on every path. This holds by construction and is not stated as a property.
- HttpErrors.NewErrorWithErr: takes a non-nil error, because the source calls `err.Error()` and panics on nil. The same holds for `NewAPIErrorWithErr`.
- Retry.Attempts: a strategy whose `RetryableErrors` is nil would panic in the source. The model's strategy always has a predicate.
- LongPoll.Poll: requires a session id not yet registered. It stands for the fresh pointer the source allocates.
- A retry budget of zero or less produces `fmt.Errorf("...: %w", nil)`, whose text is `%!w(<nil>)`. This is modelled as an exhaustion error with nothing wrapped.
- longpoll's `MaxRetries` of 0 means unlimited after the defaults are applied, and a negative value never exhausts. Both are modelled; the poll timeout's effect on the transport is not.

## Findings

| source | as written | input that shows it | evidently intended | confidence | as-written member | corrected member |
|---|---|---|---|---|---|---|
| router/routes.go:16-21 | `Handle` with a pattern ending in '/' registers the base path followed verbatim by the pattern, even when the pattern starts with a method | base path "/api", pattern "GET /x/": the mux receives "/apiGET /x/", whose method "/apiGET" is not an HTTP token, so registration panics | "GET /api/x/", as `register` does for method patterns | not executed | RoutePatterns.HandleAsWrittenLosesMethod | RoutePatterns.HandleKeepsMethod |

`Router.Handle` registers the pattern as the source computes it (`RoutePatterns.HandlePatternAsWritten`). `Router.HandleCorrected` registers the corrected pattern (`RoutePatterns.HandlePattern`).
