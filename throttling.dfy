/** The leading-edge `throttle` wrapper of DotGrid.jsx. The clock (`performance.now()`) is a
    parameter: every call brings the time, in milliseconds, at which it happens. */
module Throttling {

  /** Limit of the throttled `mousemove` handler, in milliseconds. */
  const MoveLimit: real := 16.0

  /** Limit of the throttled `resize` handler, in milliseconds. */
  const ResizeLimit: real := 100.0

  /** The times of the calls that a throttle whose last forwarded call was at `lastCall`
      forwards, out of calls made at `times` (in order). */
  function Forwarded(lastCall: real, limit: real, times: seq<real>): (f: seq<real>)
    ensures |f| <= |times|
    ensures times != [] && times[0] - lastCall >= limit ==> f != [] && f[0] == times[0]
    decreases |times|
  {
    if times == [] then []
    else if times[0] - lastCall >= limit then [times[0]] + Forwarded(times[0], limit, times[1..])
    else Forwarded(lastCall, limit, times[1..])
  }

  /** Times that are each at least `limit` after the one before, the first at least `limit` after `lastCall`. */
  predicate Spaced(lastCall: real, limit: real, s: seq<real>)
  {
    && (s != [] ==> s[0] - lastCall >= limit)
    && forall k :: 0 < k < |s| ==> s[k] - s[k - 1] >= limit
  }

  /** Forwarded calls keep the spacing: at least `limit` apart, the first at least `limit` after `lastCall`. */
  lemma {:induction false} ForwardedSpaced(lastCall: real, limit: real, times: seq<real>)
    ensures Spaced(lastCall, limit, Forwarded(lastCall, limit, times))
    decreases |times|
  {
    if times != [] {
      if times[0] - lastCall >= limit {
        ForwardedSpaced(times[0], limit, times[1..]);
        var f, g := Forwarded(lastCall, limit, times), Forwarded(times[0], limit, times[1..]);
        assert f == [times[0]] + g;
        forall k | 1 < k < |f|
          ensures f[k] - f[k - 1] >= limit
        {
          assert f[k] == g[k - 1] && f[k - 1] == g[k - 2];
        }
      } else {
        ForwardedSpaced(lastCall, limit, times[1..]);
      }
    }
  }

  /** Every forwarded call is one of the calls made, and there are no more of them than calls. */
  lemma {:induction false} ForwardedFromCalls(lastCall: real, limit: real, times: seq<real>)
    ensures var f := Forwarded(lastCall, limit, times);
      |f| <= |times| && forall k :: 0 <= k < |f| ==> f[k] in times
    decreases |times|
  {
    if times != [] {
      if times[0] - lastCall >= limit {
        ForwardedFromCalls(times[0], limit, times[1..]);
      } else {
        ForwardedFromCalls(lastCall, limit, times[1..]);
      }
    }
  }

  /** Calls that already keep the spacing are all forwarded: only calls inside a window are dropped. */
  lemma {:induction false} ForwardedAllSpaced(lastCall: real, limit: real, times: seq<real>)
    requires Spaced(lastCall, limit, times)
    ensures Forwarded(lastCall, limit, times) == times
    decreases |times|
  {
    if times != [] {
      var rest := times[1..];
      assert Spaced(times[0], limit, rest) by {
        forall k | 0 < k < |rest|
          ensures rest[k] - rest[k - 1] >= limit
        {
          assert rest[k] == times[k + 1] && rest[k - 1] == times[k];
        }
        if rest != [] {
          assert rest[0] == times[1];
        }
      }
      ForwardedAllSpaced(times[0], limit, rest);
    }
  }

  /** Two calls inside one window after a forwarded one: only the first is forwarded. */
  lemma LeadingEdge(lastCall: real, limit: real, t1: real, t2: real)
    requires t1 - lastCall >= limit && t2 - t1 < limit
    ensures Forwarded(lastCall, limit, [t1, t2]) == [t1]
  {
    assert [t1, t2][1..] == [t2];
    assert [t2][1..] == [];
    assert Forwarded(t1, limit, [t2]) == [];
    assert Forwarded(lastCall, limit, [t1, t2]) == [t1] + Forwarded(t1, limit, [t2]);
  }

  /** The state captured by one `throttle(func, limit)` closure. */
  class Throttle {
    const limit: real
    var lastCall: real

    constructor (limit: real)
      ensures this.limit == limit && lastCall == 0.0
    {
      this.limit := limit;
      lastCall := 0.0;
    }

    /** One call of the throttled function at time `now`; `forwarded` says whether `func` runs. */
    method Call(now: real) returns (forwarded: bool)
      modifies this
      ensures forwarded <==> now - old(lastCall) >= limit
      ensures lastCall == if forwarded then now else old(lastCall)
      ensures Forwarded(old(lastCall), limit, [now]) == if forwarded then [now] else []
    {
      forwarded := now - lastCall >= limit;
      if forwarded {
        lastCall := now;
      }
    }
  }
}
