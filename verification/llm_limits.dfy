/** The LLM client's own protections: the sliding-window request limit and the provider
    circuit breaker. Times are seconds. */
module LlmLimits {
  import opened Wrappers

  const WINDOW: real := 60.0

  // ---------- the sliding window ----------

  /** The times less than a minute before now, in order. */
  function Recent(times: seq<real>, now: real): (r: seq<real>)
  {
    if times == [] then [] else
      var front, t := Recent(times[..|times| - 1], now), times[|times| - 1];
      if now - t < WINDOW then front + [t] else front
  }

  /** The times in the half-open window of a minute from a on. */
  function InWindow(times: seq<real>, a: real): (r: seq<real>)
  {
    if times == [] then [] else
      var front, t := InWindow(times[..|times| - 1], a), times[|times| - 1];
      if a <= t < a + WINDOW then front + [t] else front
  }

  /** The requests accepted when requests come at the given times: a request is accepted
      if and only if fewer than limit were accepted in the minute before it. */
  function Accepted(limit: int, requests: seq<real>): (acc: seq<real>)
  {
    if requests == [] then [] else
      var acc, now := Accepted(limit, requests[..|requests| - 1]), requests[|requests| - 1];
      if |Recent(acc, now)| < limit then acc + [now] else acc
  }

  /** Recent keeps what is less than sixty seconds old, each as often as it is there, and
      in order: it goes through the list time by time. */
  lemma {:induction false} RecentMeaning(times: seq<real>, now: real, t: real)
    ensures multiset(Recent(times, now))[t] == if now - t < 60.0 then multiset(times)[t] else 0
    ensures t in Recent(times, now) <==> t in times && now - t < 60.0
  {
    if times != [] {
      var front := times[..|times| - 1];
      RecentMeaning(front, now, t);
      assert times == front + [times[|front|]];
    }
  }

  lemma {:induction false} RecentInOrder(a: seq<real>, b: seq<real>, now: real)
    ensures Recent(a + b, now) == Recent(a, now) + Recent(b, now)
  {
    if b == [] {
      assert a + b == a;
    } else {
      var front := b[..|b| - 1];
      RecentInOrder(a, front, now);
      assert (a + b)[..|a + b| - 1] == a + front;
    }
  }

  /** The number of times less than sixty seconds back. */
  lemma {:induction false} RecentCount(times: seq<real>, now: real)
    ensures |Recent(times, now)| == |set i | 0 <= i < |times| && now - times[i] < 60.0|
  {
    if times != [] {
      var front, last := times[..|times| - 1], |times| - 1;
      RecentCount(front, now);
      var before := set i | 0 <= i < |front| && now - front[i] < 60.0;
      var after := set i | 0 <= i < |times| && now - times[i] < 60.0;
      assert after == if now - times[last] < 60.0 then before + {last} else before;
    }
  }

  lemma {:induction false} InWindowCount(times: seq<real>, a: real)
    ensures |InWindow(times, a)| == |set i | 0 <= i < |times| && a <= times[i] < a + 60.0|
  {
    if times != [] {
      var front, last := times[..|times| - 1], |times| - 1;
      InWindowCount(front, a);
      var before := set i | 0 <= i < |front| && a <= front[i] < a + 60.0;
      var after := set i | 0 <= i < |times| && a <= times[i] < a + 60.0;
      assert after == if a <= times[last] < a + 60.0 then before + {last} else before;
    }
  }

  predicate NonDecreasing(times: seq<real>) {
    forall i, j :: 0 <= i < j < |times| ==> times[i] <= times[j]
  }

  lemma {:induction false} RecentComposes(times: seq<real>, t: real, u: real)
    requires t <= u
    ensures Recent(Recent(times, t), u) == Recent(times, u)
  {
    if times != [] {
      var front, last := times[..|times| - 1], times[|times| - 1];
      RecentComposes(front, t, u);
      if t - last < WINDOW {
        assert (Recent(front, t) + [last])[..|Recent(front, t)|] == Recent(front, t);
      }
    }
  }

  lemma OneMoreRequest(limit: int, requests: seq<real>, now: real)
    ensures var acc := Accepted(limit, requests);
      && Accepted(limit, requests + [now]) == (if |Recent(acc, now)| < limit then acc + [now] else acc)
      && Recent(acc + [now], now) == Recent(acc, now) + [now]
      && Recent([], now) == [] && Accepted(limit, []) == []
  {
    var acc := Accepted(limit, requests);
    assert (requests + [now])[..|requests|] == requests;
    assert (acc + [now])[..|acc|] == acc;
  }

  class RateWindow {
    const limit: int
    var timestamps: seq<real>
    ghost var requests: seq<real>

    /** The kept timestamps are the accepted requests of the minute before the last call. */
    ghost predicate Valid() reads this {
      && NonDecreasing(requests)
      && timestamps == if requests == [] then [] else Recent(Accepted(limit, requests), requests[|requests| - 1])
    }

    constructor (limit: int)
      ensures Valid() && requests == [] && this.limit == limit
    {
      this.limit := limit;
      timestamps, requests := [], [];
    }

    method CheckRateLimit(now: real) returns (accepted: bool)
      requires Valid() && (requests != [] ==> requests[|requests| - 1] <= now)
      modifies this
      ensures Valid() && requests == old(requests) + [now]
      ensures var acc := Accepted(limit, old(requests));
        accepted <==> |set i | 0 <= i < |acc| && now - acc[i] < 60.0| < limit
      ensures Accepted(limit, requests) == Accepted(limit, old(requests)) + if accepted then [now] else []
    {
      hide Recent, Accepted;
      OneMoreRequest(limit, requests, now);
      RecentCount(Accepted(limit, requests), now);
      if requests != [] { RecentComposes(Accepted(limit, requests), requests[|requests| - 1], now); }
      requests := requests + [now];
      timestamps := Kept(now);
      if |timestamps| >= limit {
        return false;
      }
      timestamps := timestamps + [now];
      return true;
    }

    /** The list comprehension over the timestamps. */
    method Kept(now: real) returns (kept: seq<real>)
      ensures kept == Recent(timestamps, now)
    {
      kept := [];
      for i := 0 to |timestamps|
        invariant kept == Recent(timestamps[..i], now)
      {
        assert timestamps[..i + 1][..i] == timestamps[..i];
        if now - timestamps[i] < WINDOW {
          kept := kept + [timestamps[i]];
        }
      }
      assert timestamps[..|timestamps|] == timestamps;
    }
  }

  lemma {:induction false} AcceptedAreRequests(limit: int, requests: seq<real>)
    requires NonDecreasing(requests)
    ensures NonDecreasing(Accepted(limit, requests))
    ensures requests != [] ==> forall i :: 0 <= i < |Accepted(limit, requests)| ==>
      Accepted(limit, requests)[i] <= requests[|requests| - 1]
  {
    if requests != [] {
      AcceptedAreRequests(limit, requests[..|requests| - 1]);
      if |requests| > 1 { assert requests[|requests| - 2] <= requests[|requests| - 1]; }
    }
  }

  lemma {:induction false} WindowIsRecent(times: seq<real>, a: real, now: real)
    requires a <= now < a + WINDOW
    requires forall i :: 0 <= i < |times| ==> times[i] <= now
    ensures |InWindow(times, a)| <= |Recent(times, now)|
  {
    if times != [] { WindowIsRecent(times[..|times| - 1], a, now); }
  }

  /** The limit: no minute, wherever it starts, holds more than limit acceptances. */
  lemma NoWindowExceedsLimit(limit: int, requests: seq<real>, a: real)
    requires forall i, j :: 0 <= i < j < |requests| ==> requests[i] <= requests[j]
    ensures var acc := Accepted(limit, requests);
      |set i | 0 <= i < |acc| && a <= acc[i] < a + 60.0| <= if limit < 0 then 0 else limit
  {
    WindowWithinLimit(limit, requests, a);
    InWindowCount(Accepted(limit, requests), a);
  }

  /** And no request is refused without need: limit acceptances lie less than sixty seconds
      back exactly when the next one is refused. */
  lemma AcceptedNextExactly(limit: int, requests: seq<real>, now: real)
    ensures var acc := Accepted(limit, requests);
      Accepted(limit, requests + [now]) ==
        if |set i | 0 <= i < |acc| && now - acc[i] < 60.0| < limit then acc + [now] else acc
  {
    OneMoreRequest(limit, requests, now);
    RecentCount(Accepted(limit, requests), now);
  }

  lemma {:induction false} WindowWithinLimit(limit: int, requests: seq<real>, a: real)
    requires NonDecreasing(requests)
    ensures |InWindow(Accepted(limit, requests), a)| <= if limit < 0 then 0 else limit
  {
    if requests != [] {
      var front, now := requests[..|requests| - 1], requests[|requests| - 1];
      var acc := Accepted(limit, front);
      WindowWithinLimit(limit, front, a);
      AcceptedAreRequests(limit, front);
      AcceptedAreRequests(limit, requests);
      if |front| > 0 { assert front[|front| - 1] <= now; }
      if |Recent(acc, now)| < limit {
        assert (acc + [now])[..|acc|] == acc;
        if a <= now < a + WINDOW {
          WindowIsRecent(acc, a, now);
        }
      }
    }
  }

  // ---------- the provider breaker ----------

  datatype Status = Healthy | Degraded | CircuitOpen
  datatype Breaker = Breaker(failures: nat, lastFailure: real, status: Status)
  datatype Event = Success | Failure(at: real) | Request(at: real)

  /** circuit_breaker_threshold and circuit_breaker_reset_seconds. */
  datatype Config = Config(threshold: int, resetSeconds: real)

  predicate Allows(c: Config, b: Breaker, now: real) {
    !b.status.CircuitOpen? || now - b.lastFailure >= c.resetSeconds
  }

  function Next(c: Config, b: Breaker, e: Event): (b': Breaker)
  {
    match e
    case Success => Breaker(0, b.lastFailure, Healthy)
    case Failure(at) => Breaker(b.failures + 1, at, if b.failures + 1 >= c.threshold then CircuitOpen else b.status)
    case Request(at) =>
      if b.status.CircuitOpen? && at - b.lastFailure >= c.resetSeconds then Breaker(0, b.lastFailure, Degraded) else b
  }

  class CircuitBreaker {
    const config: Config
    var failureCount: nat
    var lastFailureTime: real
    var status: Status

    function View(): Breaker reads this { Breaker(failureCount, lastFailureTime, status) }

    constructor (config: Config)
      ensures this.config == config && View() == Breaker(0, 0.0, Healthy)
    {
      this.config := config;
      failureCount, lastFailureTime, status := 0, 0.0, Healthy;
    }

    method RecordSuccess()
      modifies this
      ensures View() == Next(config, old(View()), Success)
    {
      failureCount, status := 0, Healthy;
    }

    method RecordFailure(now: real)
      modifies this
      ensures View() == Next(config, old(View()), Failure(now))
    {
      failureCount := failureCount + 1;
      lastFailureTime := now;
      if failureCount >= config.threshold {
        status := CircuitOpen;
      }
    }

    method AllowRequest(now: real) returns (allowed: bool)
      modifies this
      ensures View() == Next(config, old(View()), Request(now))
      ensures allowed <==> Allows(config, old(View()), now)
    {
      if status != CircuitOpen {
        return true;
      }
      var elapsed := now - lastFailureTime;
      if elapsed >= config.resetSeconds {
        status := Degraded;
        failureCount := 0;
        return true;
      }
      return false;
    }
  }

  function After(c: Config, events: seq<Event>): (b: Breaker)
  {
    if events == [] then Breaker(0, 0.0, Healthy) else Next(c, After(c, events[..|events| - 1]), events[|events| - 1])
  }

  /** The failures of the longest suffix without a success. */
  function FailuresSinceSuccess(events: seq<Event>): (n: nat)
  {
    if events == [] || events[|events| - 1].Success? then 0 else
      FailuresSinceSuccess(events[..|events| - 1]) + if events[|events| - 1].Failure? then 1 else 0
  }

  lemma FailuresSinceSuccessExactly(events: seq<Event>, e: Event)
    ensures FailuresSinceSuccess([]) == 0
    ensures FailuresSinceSuccess(events + [e]) ==
      match e
      case Success => 0
      case Failure(_) => FailuresSinceSuccess(events) + 1
      case Request(_) => FailuresSinceSuccess(events)
  {
    assert (events + [e])[..|events|] == events;
  }

  function LatestFailure(events: seq<Event>): (at: Option<real>)
  {
    if events == [] then None
    else if events[|events| - 1].Failure? then Some(events[|events| - 1].at)
    else LatestFailure(events[..|events| - 1])
  }

  /** The failures in a row, as the history tells it: since the last success or the last
      request let through as a probe, reset_seconds or more after a row that was enough. */
  function Row(c: Config, events: seq<Event>): (n: nat)
    ensures n >= 1 ==> LatestFailure(events).Some?
    ensures n <= FailuresSinceSuccess(events)
  {
    if events == [] then 0 else
      var front := events[..|events| - 1];
      match events[|events| - 1]
      case Success => 0
      case Failure(_) => Row(c, front) + 1
      case Request(at) =>
        var n := Row(c, front);
        if n >= 1 && n >= c.threshold && at - LatestFailure(front).value >= c.resetSeconds then 0 else n
  }

  /** A request was let through as a probe since the last success. */
  predicate Probed(c: Config, events: seq<Event>)
  {
    if events == [] then false else
      var front := events[..|events| - 1];
      match events[|events| - 1]
      case Success => false
      case Failure(_) => Probed(c, front)
      case Request(at) =>
        var n := Row(c, front);
        Probed(c, front) || (n >= 1 && n >= c.threshold && at - LatestFailure(front).value >= c.resetSeconds)
  }

  lemma {:induction false} StateIsHistory(c: Config, events: seq<Event>)
    ensures var b := After(c, events);
      && b.failures == Row(c, events)
      && (b.status.Degraded? <==> Probed(c, events) && !(Row(c, events) >= 1 && Row(c, events) >= c.threshold))
      && (b.status.CircuitOpen? <==> Row(c, events) >= 1 && Row(c, events) >= c.threshold)
      && (LatestFailure(events).Some? ==> LatestFailure(events) == Some(b.lastFailure))
  {
    if events != [] {
      StateIsHistory(c, events[..|events| - 1]);
    }
  }

  /** When a request is refused: exactly when the failures in a row are at least threshold
      (and one), and the latest of them is less than reset_seconds ago. */
  lemma RefusedExactly(c: Config, events: seq<Event>, now: real)
    ensures !Allows(c, After(c, events), now)
       <==> && Row(c, events) >= 1 && Row(c, events) >= c.threshold
            && now - LatestFailure(events).value < c.resetSeconds
  {
    StateIsHistory(c, events);
  }

  /** So never with fewer failures than that since the last success. */
  lemma RefusedWithReason(c: Config, events: seq<Event>, now: real)
    requires !Allows(c, After(c, events), now)
    ensures FailuresSinceSuccess(events) >= 1 && FailuresSinceSuccess(events) >= c.threshold
    ensures LatestFailure(events).Some? && now - LatestFailure(events).value < c.resetSeconds
  {
    RefusedExactly(c, events, now);
  }

  /** And it is refused when it must be: once threshold failures (at least one) have been
      recorded in a row, whatever went before, until reset_seconds after the last. */
  lemma {:induction false} FailuresInARowRefuse(c: Config, events: seq<Event>, failures: seq<Event>, now: real)
    requires failures != [] && |failures| >= c.threshold
    requires forall i :: 0 <= i < |failures| ==> failures[i].Failure?
    requires now - failures[|failures| - 1].at < c.resetSeconds
    ensures !Allows(c, After(c, events + failures), now)
  {
    CountsRow(c, events, failures);
  }

  lemma {:induction false} CountsRow(c: Config, events: seq<Event>, failures: seq<Event>)
    requires failures != [] && forall i :: 0 <= i < |failures| ==> failures[i].Failure?
    ensures var b := After(c, events + failures);
      && b.failures >= |failures| && b.lastFailure == failures[|failures| - 1].at
      && (b.failures >= c.threshold ==> b.status.CircuitOpen?)
  {
    var all, front := events + failures, failures[..|failures| - 1];
    assert all[..|all| - 1] == events + front;
    if front != [] { CountsRow(c, events, front); } else { assert events + front == events; }
  }
}
