/**
  The fixed-window rate limiter of package ratelimit. Time is an integer count of
  nanoseconds passed in by the caller, in place of time.Now().
 */
module RateLimit {

  /** ratelimit.FixedWindow without its mutex. */
  datatype FixedWindow = FixedWindow(limit: int, count: int, window: int, windowStart: int)

  /** The limiter's invariant: the counter lies between 0 and the limit (0 when the limit is not positive). */
  predicate Valid(fw: FixedWindow)
  {
    0 <= fw.count <= (if fw.limit > 0 then fw.limit else 0)
  }

  /** NewFixedWindow: a fresh window opened at `now`, no request counted yet. */
  function NewFixedWindow(limit: int, window: int, now: int): (fw: FixedWindow)
    ensures Valid(fw)
    ensures fw.count == 0 && fw.windowStart == now
    ensures fw.limit == limit && fw.window == window
  {
    FixedWindow(limit, 0, window, now)
  }

  /** Whether a call at `now` starts a new window: the current one has lasted `window` or more. */
  predicate Expired(fw: FixedWindow, now: int)
  {
    now - fw.windowStart >= fw.window
  }

  /**
    Allow at time `now`: first opens a new window if the current one has expired, then
    admits the request exactly when the counter is below the limit, counting it.
   */
  function Allow(fw: FixedWindow, now: int): (r: (bool, FixedWindow))
    ensures r.1.limit == fw.limit && r.1.window == fw.window
    ensures Valid(fw) ==> Valid(r.1)
    // the reset comes before the decision
    ensures Expired(fw, now) ==> r.1.windowStart == now && (r.0 <==> fw.limit > 0)
    ensures !Expired(fw, now) ==> r.1.windowStart == fw.windowStart && (r.0 <==> fw.count < fw.limit)
    // the counter moves exactly when the request is admitted
    ensures Expired(fw, now) ==> r.1.count == (if r.0 then 1 else 0)
    ensures !Expired(fw, now) ==> r.1.count == (if r.0 then fw.count + 1 else fw.count)
    // a non-positive limit admits nothing
    ensures Valid(fw) && fw.limit <= 0 ==> !r.0
  {
    var cur := if Expired(fw, now) then fw.(count := 0, windowStart := now) else fw;
    if cur.count < cur.limit then (true, cur.(count := cur.count + 1)) else (false, cur)
  }

  /** A refused request changes nothing but the possible start of a new window. */
  lemma RefusalChangesNothingElse(fw: FixedWindow, now: int)
    requires !Allow(fw, now).0
    ensures var fw' := Allow(fw, now).1;
            fw' == (if Expired(fw, now) then fw.(count := 0, windowStart := now) else fw)
  {
  }

  datatype Tally = Tally(granted: nat, state: FixedWindow)

  /** Calls Allow at each of `times`, in order, and counts the admitted requests. */
  function AllowAll(fw: FixedWindow, times: seq<int>): (t: Tally)
    decreases |times|
    ensures Valid(fw) ==> Valid(t.state)
    ensures t.granted <= |times|
  {
    if |times| == 0 then Tally(0, fw)
    else
      var (ok, fw') := Allow(fw, times[0]);
      var rest := AllowAll(fw', times[1..]);
      Tally(rest.granted + (if ok then 1 else 0), rest.state)
  }

  function Min(a: int, b: int): int { if a <= b then a else b }

  /**
    Within one window (no call reaches the end of the window), exactly
    min(number of calls, limit - count) requests are admitted; so at most `limit`
    per window, and the counter ends at count plus the admitted requests.
   */
  lemma {:induction false} OneWindowAdmitsUpToLimit(fw: FixedWindow, times: seq<int>)
    decreases |times|
    requires Valid(fw)
    requires forall i :: 0 <= i < |times| ==> !Expired(fw, times[i])
    ensures var t := AllowAll(fw, times);
            var room := if fw.limit > fw.count then fw.limit - fw.count else 0;
            && t.granted == Min(|times|, room)
            && t.state.count == fw.count + t.granted
            && t.state.windowStart == fw.windowStart
  {
    if |times| > 0 {
      assert !Expired(fw, times[0]);
      var fw' := Allow(fw, times[0]).1;
      forall i | 0 <= i < |times[1..]|
        ensures !Expired(fw', times[1..][i])
      {
        assert times[1..][i] == times[i + 1];
        assert !Expired(fw, times[i + 1]);
      }
      OneWindowAdmitsUpToLimit(fw', times[1..]);
    }
  }
}
