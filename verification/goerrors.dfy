/**
  Go `error` values as far as the modelled packages create and inspect them:
  opaque leaf errors, the two context errors, and the single-`%w` wrappers that
  `fmt.Errorf("prefix: %w", err)` builds.
 */
module GoErrors {
  import opened Basics

  /** Why a context is done: `context.Canceled` or `context.DeadlineExceeded`. */
  datatype ContextReason = Canceled | DeadlineExceeded

  /** The state of a cancellation signal observed at one checkpoint. */
  datatype Signal = Live | Done(reason: ContextReason)

  datatype Error =
    | Leaf(text: string)
      // any error that is not a wrapper: errors.New, fmt.Errorf without %w, a transport error
    | Context(reason: ContextReason)
      // the sentinel values returned by ctx.Err()
    | Wrapped(prefix: string, inner: Option<Error>)
      // fmt.Errorf(prefix + ": %w", inner); inner is None when the %w operand was nil

  /** `err.Error()`. A nil `%w` operand prints as `%!w(<nil>)`, as fmt does. */
  function Message(e: Error): string
  {
    match e
    case Leaf(t) => t
    case Context(Canceled) => "context canceled"
    case Context(DeadlineExceeded) => "context deadline exceeded"
    case Wrapped(p, None) => p + ": %!w(<nil>)"
    case Wrapped(p, Some(i)) => p + ": " + Message(i)
  }

  /** `errors.Unwrap`: only wrappers have an inner error. */
  function Unwrap(e: Error): (r: Option<Error>)
    ensures r.Some? ==> e.Wrapped? && r == e.inner
    ensures !e.Wrapped? ==> r.None?
  {
    if e.Wrapped? then e.inner else None
  }

  /** `errors.Is(e, target)`: target is somewhere on e's unwrap chain. */
  predicate Is(e: Error, target: Error)
  {
    e == target || (e.Wrapped? && e.inner.Some? && Is(e.inner.value, target))
  }

  /** The unwrap chain of `e`, starting with `e` itself. */
  function Chain(e: Error): (c: seq<Error>)
    ensures |c| >= 1 && c[0] == e
  {
    if e.Wrapped? && e.inner.Some? then [e] + Chain(e.inner.value) else [e]
  }

  /** `errors.Is` holds exactly when the target occurs on the unwrap chain. */
  lemma {:induction false} IsIffOnChain(e: Error, target: Error)
    ensures Is(e, target) <==> target in Chain(e)
  {
    if e.Wrapped? && e.inner.Some? {
      IsIffOnChain(e.inner.value, target);
    }
  }

  /** Wrapping with a prefix keeps every error the inner one `Is`, and adds only itself. */
  lemma {:induction false} WrapPreservesIs(prefix: string, inner: Error, target: Error)
    ensures Is(Wrapped(prefix, Some(inner)), target)
            <==> target == Wrapped(prefix, Some(inner)) || Is(inner, target)
  {
  }
}
