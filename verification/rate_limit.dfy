/** The token bucket of the exchange adapters, over real numbers and seconds. */
module RateLimit {
  import opened Wrappers

  datatype Bucket = Bucket(tokens: real, lastRefill: real)

  /** The two settings of a limiter. */
  datatype Config = Config(maxTokens: real, refillRate: real)

  /** The credit that a stretch of time is worth. */
  function Accrued(seconds: real, rate: real): (credit: real) {
    seconds * rate
  }

  lemma AccruedIs(seconds: real, rate: real)
    ensures Accrued(seconds, rate) == seconds * rate
  {
  }

  lemma AccruedAdds(a: real, b: real, rate: real)
    ensures Accrued(a + b, rate) == Accrued(a, rate) + Accrued(b, rate)
  {
  }

  lemma AccruedGrows(a: real, b: real, rate: real)
    requires a <= b && rate >= 0.0
    ensures Accrued(a, rate) <= Accrued(b, rate) && Accrued(0.0, rate) == 0.0
  {
  }

  function Refill(c: Config, b: Bucket, now: real): (b': Bucket)
  {
    var tokens := b.tokens + Accrued(now - b.lastRefill, c.refillRate);
    Bucket(if tokens > c.maxTokens then c.maxTokens else tokens, now)
  }

  predicate Grants(c: Config, b: Bucket, now: real) {
    Refill(c, b, now).tokens >= 1.0
  }

  function Poll(c: Config, b: Bucket, now: real): (b': Bucket)
  {
    var r := Refill(c, b, now);
    if r.tokens >= 1.0 then r.(tokens := r.tokens - 1.0) else r
  }

  class RateLimiter {
    const config: Config
    var tokens: real
    var lastRefill: real

    function View(): Bucket reads this { Bucket(tokens, lastRefill) }

    constructor (maxTokens: real, refillPerSec: real, now: real)
      ensures config == Config(maxTokens, refillPerSec) && View() == Bucket(maxTokens, now)
    {
      config := Config(maxTokens, refillPerSec);
      tokens, lastRefill := maxTokens, now;
    }

    /** Refill by seconds times rate, cap, and take a whole token if there is one. */
    method Allow(now: real) returns (allowed: bool)
      modifies this
      ensures View() == Poll(config, old(View()), now)
      ensures allowed <==> Grants(config, old(View()), now)
      ensures allowed <==>
        config.maxTokens >= 1.0 && old(tokens) + (now - old(lastRefill)) * config.refillRate >= 1.0
      ensures lastRefill == now
      ensures tokens <= config.maxTokens - if allowed then 1.0 else 0.0
      ensures old(tokens) + (now - old(lastRefill)) * config.refillRate <= config.maxTokens ==>
        tokens == old(tokens) + (now - old(lastRefill)) * config.refillRate - if allowed then 1.0 else 0.0
      ensures old(tokens) + (now - old(lastRefill)) * config.refillRate >= config.maxTokens ==>
        tokens == config.maxTokens - if allowed then 1.0 else 0.0
    {
      hide Accrued;
      AccruedIs(now - lastRefill, config.refillRate);
      var elapsed := now - lastRefill;
      tokens := tokens + Accrued(elapsed, config.refillRate);
      if tokens > config.maxTokens {
        tokens := config.maxTokens;
      }
      lastRefill := now;
      if tokens >= 1.0 {
        tokens := tokens - 1.0;
        return true;
      }
      return false;
    }

    /** Wait for a single waiter: the clock shows delay(i) >= 10 ms more after the i-th
        denied poll, and cancelledAt says after how many denied polls the context's end is
        seen, if it is. It returns at the first poll that grants, or when it is cancelled;
        if neither ever happens the original does not return (see WaitGrantsExactly), and
        there are no polls to pass here. */
    method Wait(now: real, delay: nat -> real, cancelledAt: Option<nat>, ghost polls: nat) returns (ok: bool, denied: nat)
      requires forall i :: delay(i) >= 0.01
      requires EndsWithin(config, View(), now, cancelledAt, polls)
      modifies this
      ensures denied <= polls
      ensures forall i :: 0 <= i < denied ==>
        !Grants(config, Polled(config, old(View()), now, delay, i), ClockAt(now, delay, i))
      ensures View() == Polled(config, old(View()), now, delay, if ok then denied + 1 else denied)
      ensures ok ==> Grants(config, Polled(config, old(View()), now, delay, denied), ClockAt(now, delay, denied))
      ensures ok ==> denied == 0 || cancelledAt.None? || denied < cancelledAt.value
      ensures !ok ==> cancelledAt.Some? && denied == (if cancelledAt.value == 0 then 1 else cancelledAt.value)
    {
      hide Grants, Refills, Cancels, Poll, Polled, ClockAt;
      var clock := now;
      denied := 0;
      ghost var left: nat := polls;
      FirstPoll(config, View(), now, delay);
      while true
        invariant left + denied == polls
        invariant clock == ClockAt(now, delay, denied)
        invariant View() == Polled(config, old(View()), now, delay, denied)
        invariant forall i :: 0 <= i < denied ==>
          !Grants(config, Polled(config, old(View()), now, delay, i), ClockAt(now, delay, i))
        invariant cancelledAt.Some? && denied > 0 ==> denied < cancelledAt.value
        invariant Refills(config, View(), clock, left) || Cancels(cancelledAt, polls)
        decreases left
      {
        ghost var b := View();
        NextPoll(config, old(View()), now, delay, denied);
        CancelInTime(cancelledAt, polls, denied);
        var allowed := Allow(clock);
        if allowed {
          return true, denied;
        }
        if Refills(config, b, clock, left) {
          StillRefills(config, b, clock, delay(denied), left);
        }
        denied, left := denied + 1, left - 1;
        if cancelledAt.Some? && cancelledAt.value <= denied {
          return false, denied;
        }
        clock := clock + delay(denied - 1);
      }
    }
  }

  // ---------- when Wait ends ----------

  /** A whole token has been refilled after that many polls 10 ms apart. */
  predicate Refills(c: Config, b: Bucket, now: real, polls: nat) {
    c.maxTokens >= 1.0 && c.refillRate > 0.0 && Missing(c, b, now) <= Accrued(polls as real * 0.01, c.refillRate)
  }

  /** The context's end is seen within that many polls. */
  predicate Cancels(cancelledAt: Option<nat>, polls: nat) {
    cancelledAt.Some? && polls >= 1 && cancelledAt.value <= polls
  }

  predicate EndsWithin(c: Config, b: Bucket, now: real, cancelledAt: Option<nat>, polls: nat) {
    Refills(c, b, now, polls) || Cancels(cancelledAt, polls)
  }

  lemma CancelInTime(cancelledAt: Option<nat>, polls: nat, denied: nat)
    requires denied <= polls && (cancelledAt.Some? && denied > 0 ==> denied < cancelledAt.value)
    ensures Cancels(cancelledAt, polls) ==> denied < polls
  {
  }

  /** The time of the n-th poll of a Wait that begins now. */
  function ClockAt(now: real, delay: nat -> real, n: nat): (t: real) {
    if n == 0 then now else ClockAt(now, delay, n - 1) + delay(n - 1)
  }

  /** The bucket after its first n polls. */
  function Polled(c: Config, b: Bucket, now: real, delay: nat -> real, n: nat): (b': Bucket) {
    if n == 0 then b else Poll(c, Polled(c, b, now, delay, n - 1), ClockAt(now, delay, n - 1))
  }

  lemma FirstPoll(c: Config, b: Bucket, now: real, delay: nat -> real)
    ensures ClockAt(now, delay, 0) == now && Polled(c, b, now, delay, 0) == b
  {
  }

  lemma NextPoll(c: Config, b: Bucket, now: real, delay: nat -> real, n: nat)
    ensures ClockAt(now, delay, n + 1) == ClockAt(now, delay, n) + delay(n)
    ensures Polled(c, b, now, delay, n + 1) == Poll(c, Polled(c, b, now, delay, n), ClockAt(now, delay, n))
  {
  }

  /** What a poll at time now still lacks of a whole token. */
  function Missing(c: Config, b: Bucket, now: real): real {
    1.0 - Refill(c, b, now).tokens
  }

  lemma StillRefills(c: Config, b: Bucket, now: real, d: real, left: nat)
    requires Refills(c, b, now, left) && d >= 0.01 && !Grants(c, b, now)
    ensures left >= 1 && Refills(c, Poll(c, b, now), now + d, left - 1)
  {
    hide Accrued;
    AccruedGrows(0.0, 0.01, c.refillRate);
    assert left >= 1;
    AccruedGrows(0.01, d, c.refillRate);
    AccruedAdds((left - 1) as real * 0.01, 0.01, c.refillRate);
    AccruedGrows(0.0, (left - 1) as real * 0.01, c.refillRate);
    assert left as real * 0.01 == (left - 1) as real * 0.01 + 0.01;
    assert now + d - now == d;
  }

  /** With room for a whole token and a positive rate there is always such a number of
      polls, so Wait ends on its own. */
  lemma WaitEnds(c: Config, b: Bucket, now: real) returns (polls: nat)
    requires c.maxTokens >= 1.0 && c.refillRate > 0.0
    ensures Refills(c, b, now, polls)
  {
    var missing, step := Missing(c, b, now), 0.01 * c.refillRate;
    var ratio := if missing <= 0.0 then 0.0 else missing / step;
    polls := ratio.Floor + 1;
    assert ratio <= polls as real;
    Scaled(ratio, polls as real, step);
    assert missing <= ratio * step;
  }

  /** When Wait is granted, if it is not cancelled: exactly if its first poll is, or the
      bucket holds a whole token and refills. Otherwise it polls for ever. */
  lemma WaitGrantsExactly(c: Config, b: Bucket, now: real, delay: nat -> real)
    requires forall i :: delay(i) >= 0.01
    ensures (exists n: nat :: Grants(c, Polled(c, b, now, delay, n), ClockAt(now, delay, n)))
       <==> Grants(c, b, now) || (c.maxTokens >= 1.0 && c.refillRate > 0.0)
  {
    hide Grants, Refills;
    FirstPoll(c, b, now, delay);
    if c.maxTokens >= 1.0 && c.refillRate > 0.0 {
      var polls := WaitEnds(c, b, now);
      var n := GrantedFrom(c, b, now, delay, 0, polls);
    } else if !Grants(c, b, now) {
      forall n: nat
        ensures !Grants(c, Polled(c, b, now, delay, n), ClockAt(now, delay, n))
      {
        NeverGranted(c, b, now, delay, n);
      }
    }
  }

  /** Every Wait that ends has such a number of polls. */
  lemma EndsSomehow(c: Config, b: Bucket, now: real, cancelledAt: Option<nat>) returns (polls: nat)
    requires cancelledAt.Some? || (c.maxTokens >= 1.0 && c.refillRate > 0.0)
    ensures EndsWithin(c, b, now, cancelledAt, polls)
  {
    if cancelledAt.Some? { polls := 1 + cancelledAt.value; } else { polls := WaitEnds(c, b, now); }
  }

  lemma {:induction false} GrantedFrom(c: Config, b: Bucket, now: real, delay: nat -> real, from: nat, left: nat)
    returns (n: nat)
    requires forall i :: delay(i) >= 0.01
    requires Refills(c, Polled(c, b, now, delay, from), ClockAt(now, delay, from), left)
    ensures Grants(c, Polled(c, b, now, delay, n), ClockAt(now, delay, n))
    decreases left
  {
    hide Grants, Refills, Poll, Polled, ClockAt;
    n := from;
    if !Grants(c, Polled(c, b, now, delay, from), ClockAt(now, delay, from)) {
      StillRefills(c, Polled(c, b, now, delay, from), ClockAt(now, delay, from), delay(from), left);
      NextPoll(c, b, now, delay, from);
      n := GrantedFrom(c, b, now, delay, from + 1, left - 1);
    }
  }

  lemma {:induction false} NeverGranted(c: Config, b: Bucket, now: real, delay: nat -> real, n: nat)
    requires forall i :: delay(i) >= 0.01
    requires !Grants(c, b, now) && (c.maxTokens < 1.0 || c.refillRate <= 0.0)
    ensures !Grants(c, Polled(c, b, now, delay, n), ClockAt(now, delay, n))
  {
    if n > 0 {
      NeverGranted(c, b, now, delay, n - 1);
      NextPoll(c, b, now, delay, n - 1);
      DeniedAgain(c, Polled(c, b, now, delay, n - 1), ClockAt(now, delay, n - 1), delay(n - 1));
    }
  }

  lemma DeniedAgain(c: Config, b: Bucket, now: real, d: real)
    requires d >= 0.01 && !Grants(c, b, now) && (c.maxTokens < 1.0 || c.refillRate <= 0.0)
    ensures !Grants(c, Poll(c, b, now), now + d)
  {
    assert now + d - now == d;
    assert c.refillRate <= 0.0 ==> Accrued(d, c.refillRate) <= 0.0;
  }

  lemma Scaled(a: real, b: real, step: real)
    requires a <= b && step > 0.0
    ensures a * step <= b * step
  {
  }

  // ---------- the grants of a run ----------

  predicate NonDecreasing(times: seq<real>) {
    forall i, j :: 0 <= i < j < |times| ==> times[i] <= times[j]
  }

  /** The state after polls at the given times. */
  function After(c: Config, start: real, polls: seq<real>): (b: Bucket)
  {
    if polls == [] then Bucket(c.maxTokens, start) else
      Poll(c, After(c, start, polls[..|polls| - 1]), polls[|polls| - 1])
  }

  /** The polls that were granted, in order. */
  function Granted(c: Config, start: real, polls: seq<real>): (g: seq<real>)
  {
    if polls == [] then [] else
      var front, t := polls[..|polls| - 1], polls[|polls| - 1];
      Granted(c, start, front) + if Grants(c, After(c, start, front), t) then [t] else []
  }

  /** Refilling twice is refilling once. */
  lemma RefillComposes(c: Config, b: Bucket, t: real, u: real)
    requires b.lastRefill <= t <= u && c.refillRate >= 0.0
    ensures Refill(c, Refill(c, b, t), u) == Refill(c, b, u)
  {
    hide Accrued;
    AccruedGrows(0.0, u - t, c.refillRate);
    AccruedGrows(0.0, t - b.lastRefill, c.refillRate);
    AccruedAdds(u - t, t - b.lastRefill, c.refillRate);
    assert u - b.lastRefill == (u - t) + (t - b.lastRefill);
  }

  predicate Started(start: real, polls: seq<real>) {
    NonDecreasing(polls) && (polls != [] ==> start <= polls[0])
  }

  lemma {:induction false} GrantedAreOrdered(c: Config, start: real, polls: seq<real>)
    requires Started(start, polls)
    ensures Started(start, Granted(c, start, polls))
    ensures polls != [] ==> forall i :: 0 <= i < |Granted(c, start, polls)| ==>
      Granted(c, start, polls)[i] <= polls[|polls| - 1]
  {
    hide Grants, After;
    if polls != [] {
      GrantedAreOrdered(c, start, polls[..|polls| - 1]);
      if |polls| > 1 { assert polls[|polls| - 2] <= polls[|polls| - 1]; }
    }
  }

  lemma AfterPoll(c: Config, start: real, polls: seq<real>, u: real)
    ensures After(c, start, polls + [u]) == Poll(c, After(c, start, polls), u)
    ensures Granted(c, start, polls + [u]) == Granted(c, start, polls) + if Grants(c, After(c, start, polls), u) then [u] else []
  {
    assert (polls + [u])[..|polls|] == polls;
  }

  /** Denied polls lose no credit: the run with only its granted polls is in the same
      state at any later time, and grants all of them. */
  lemma {:induction false} DeniedPollsDoNotMatter(c: Config, start: real, polls: seq<real>, t: real)
    requires forall i, j :: 0 <= i < j < |polls| ==> polls[i] <= polls[j]
    requires (polls != [] ==> start <= polls[0]) && c.refillRate >= 0.0
    requires start <= t && (polls != [] ==> polls[|polls| - 1] <= t)
    ensures var g := Granted(c, start, polls);
      && Refill(c, After(c, start, g), t) == Refill(c, After(c, start, polls), t)
      && Granted(c, start, g) == g
  {
    if polls != [] {
      var front, u := polls[..|polls| - 1], polls[|polls| - 1];
      var g := Granted(c, start, front);
      DeniedPollsDoNotMatter(c, start, front, u);
      GrantedAreOrdered(c, start, front);
      assert polls == front + [u];
      OnePollMore(c, start, front, g, u, t);
    }
  }

  lemma OnePollMore(c: Config, start: real, front: seq<real>, g: seq<real>, u: real, t: real)
    requires c.refillRate >= 0.0 && start <= u <= t && g == Granted(c, start, front) == Granted(c, start, g)
    requires front != [] ==> front[|front| - 1] <= u
    requires g != [] ==> g[|g| - 1] <= u
    requires Refill(c, After(c, start, g), u) == Refill(c, After(c, start, front), u)
    ensures var g' := Granted(c, start, front + [u]);
      && Refill(c, After(c, start, g'), t) == Refill(c, After(c, start, front + [u]), t)
      && Granted(c, start, g') == g'
  {
    hide Refill, After, Granted;
    AfterPoll(c, start, front, u);
    AfterPoll(c, start, g, u);
    if !Grants(c, After(c, start, front), u) {
      LastRefillIs(c, start, g);
      LastRefillIs(c, start, front);
      RefillComposes(c, After(c, start, g), u, t);
      RefillComposes(c, After(c, start, front), u, t);
      assert g + [] == g;
    }
  }

  lemma LastRefillIs(c: Config, start: real, polls: seq<real>)
    ensures After(c, start, polls).lastRefill == if polls == [] then start else polls[|polls| - 1]
  {
  }

  // ---------- exactly which polls are granted ----------

  /** A further grant at time t keeps every window that ends at t within its bound: the
      window from the i-th grant on would hold |g| - i + 1 grants. */
  predicate WithinBounds(c: Config, g: seq<real>, t: real, need: real) {
    && c.maxTokens >= need
    && forall i :: 0 <= i < |g| ==> (|g| - i) as real + need <= c.maxTokens + Accrued(t - g[i], c.refillRate)
  }

  /** The same with the product written out. */
  ghost predicate EveryWindowFits(c: Config, g: seq<real>, t: real, need: real) {
    && c.maxTokens >= need
    && forall i :: 0 <= i < |g| ==> (|g| - i) as real + need <= c.maxTokens + (t - g[i]) * c.refillRate
  }

  lemma WithinBoundsMeans(c: Config, g: seq<real>, t: real, need: real)
    ensures WithinBounds(c, g, t, need) <==> EveryWindowFits(c, g, t, need)
  {
    hide Accrued;
    forall i | 0 <= i < |g|
      ensures Accrued(t - g[i], c.refillRate) == (t - g[i]) * c.refillRate
    {
      AccruedIs(t - g[i], c.refillRate);
    }
  }

  /** The credit of a bucket that has granted g is what the tightest window leaves. */
  lemma CreditIsTightestWindow(c: Config, start: real, g: seq<real>, t: real, need: real)
    requires c.refillRate >= 0.0 && NonDecreasing(g) && (g != [] ==> start <= g[0]) && Granted(c, start, g) == g
    requires start <= t && (g != [] ==> g[|g| - 1] <= t)
    ensures Refill(c, After(c, start, g), t).tokens >= need <==>
      && c.maxTokens >= need
      && forall i :: 0 <= i < |g| ==> (|g| - i) as real + need <= c.maxTokens + (t - g[i]) * c.refillRate
  {
    hide Refill, After, Granted, WithinBounds;
    CreditWithinBounds(c, start, g, t, need);
    WithinBoundsMeans(c, g, t, need);
  }

  lemma {:induction false} CreditWithinBounds(c: Config, start: real, g: seq<real>, t: real, need: real)
    requires c.refillRate >= 0.0 && Started(start, g) && Granted(c, start, g) == g
    requires start <= t && (g != [] ==> g[|g| - 1] <= t)
    ensures Refill(c, After(c, start, g), t).tokens >= need <==> WithinBounds(c, g, t, need)
  {
    if g == [] {
      AccruedGrows(0.0, t - start, c.refillRate);
    } else {
      var front, u := g[..|g| - 1], g[|g| - 1];
      AllGranted(c, start, g);
      CreditWithinBounds(c, start, front, u, need + 1.0 - Accrued(t - u, c.refillRate));
      CreditAfterGrant(c, After(c, start, front), u, t, need);
      WindowsShift(c, front, u, t, need);
      assert g == front + [u];
    }
  }

  lemma CreditAfterGrant(c: Config, b: Bucket, u: real, t: real, need: real)
    requires Grants(c, b, u)
    ensures Refill(c, Poll(c, b, u), t).tokens >= need
       <==> c.maxTokens >= need && Refill(c, b, u).tokens >= need + 1.0 - Accrued(t - u, c.refillRate)
  {
    hide Accrued;
  }

  lemma AllGranted(c: Config, start: real, g: seq<real>)
    requires g != [] && Granted(c, start, g) == g
    ensures var front := g[..|g| - 1];
      Granted(c, start, front) == front && Grants(c, After(c, start, front), g[|g| - 1])
  {
    GrantedLength(c, start, g[..|g| - 1]);
  }

  lemma {:induction false} GrantedLength(c: Config, start: real, polls: seq<real>)
    ensures |Granted(c, start, polls)| <= |polls|
  {
    if polls != [] { GrantedLength(c, start, polls[..|polls| - 1]); }
  }

  lemma WindowsShift(c: Config, front: seq<real>, u: real, t: real, need: real)
    requires u <= t && c.refillRate >= 0.0
    ensures c.maxTokens >= need && WithinBounds(c, front, u, need + 1.0 - Accrued(t - u, c.refillRate))
       <==> WithinBounds(c, front + [u], t, need)
  {
    hide Accrued;
    var g, need' := front + [u], need + 1.0 - Accrued(t - u, c.refillRate);
    assert forall i :: 0 <= i < |front| ==> g[i] == front[i];
    forall i | 0 <= i < |front|
      ensures (|front| - i) as real + need' <= c.maxTokens + Accrued(u - front[i], c.refillRate)
         <==> (|g| - i) as real + need <= c.maxTokens + Accrued(t - g[i], c.refillRate)
    {
      AccruedAdds(t - u, u - front[i], c.refillRate);
      assert t - front[i] == (t - u) + (u - front[i]);
    }
    assert g[|front|] == u;
    if WithinBounds(c, g, t, need) {
      assert (|g| - |front|) as real + need <= c.maxTokens + Accrued(t - g[|front|], c.refillRate);
    }
  }

  /** Exactly which polls are granted: a poll at time t is granted if and only if one more
      grant keeps every window ending now within maxTokens + refillRate * length. Nothing
      but the earlier grants matters, and no compliant poll is refused. */
  lemma GrantedExactlyWithinBounds(c: Config, start: real, polls: seq<real>, t: real)
    requires forall i, j :: 0 <= i < j < |polls| ==> polls[i] <= polls[j]
    requires (polls != [] ==> start <= polls[0]) && c.refillRate >= 0.0
    requires start <= t && (polls != [] ==> polls[|polls| - 1] <= t)
    ensures var g := Granted(c, start, polls);
      Grants(c, After(c, start, polls), t) <==>
        && c.maxTokens >= 1.0
        && forall i :: 0 <= i < |g| ==> (|g| - i) as real + 1.0 <= c.maxTokens + (t - g[i]) * c.refillRate
  {
    hide Grants, After, Granted, WithinBounds;
    GrantedWithinBounds(c, start, polls, t);
    WithinBoundsMeans(c, Granted(c, start, polls), t, 1.0);
  }

  lemma GrantedWithinBounds(c: Config, start: real, polls: seq<real>, t: real)
    requires Started(start, polls) && c.refillRate >= 0.0
    requires start <= t && (polls != [] ==> polls[|polls| - 1] <= t)
    ensures Grants(c, After(c, start, polls), t) <==> WithinBounds(c, Granted(c, start, polls), t, 1.0)
  {
    var g := Granted(c, start, polls);
    DeniedPollsDoNotMatter(c, start, polls, t);
    GrantedAreOrdered(c, start, polls);
    CreditWithinBounds(c, start, g, t, 1.0);
  }

  /** The bound: from the i-th grant to the j-th, both counted, there are at most
      maxTokens + refillRate * (time between them) grants. */
  lemma WindowBound(c: Config, start: real, polls: seq<real>, i: nat, j: nat)
    requires forall i, j :: 0 <= i < j < |polls| ==> polls[i] <= polls[j]
    requires (polls != [] ==> start <= polls[0]) && c.refillRate >= 0.0
    requires i <= j < |Granted(c, start, polls)|
    ensures var g := Granted(c, start, polls);
      (j - i + 1) as real <= c.maxTokens + (g[j] - g[i]) * c.refillRate
  {
    hide Accrued, Granted;
    var g := Granted(c, start, polls);
    WindowWithinCredit(c, start, polls, i, j);
    AccruedIs(g[j] - g[i], c.refillRate);
  }

  lemma {:induction false} WindowWithinCredit(c: Config, start: real, polls: seq<real>, i: nat, j: nat)
    requires Started(start, polls) && c.refillRate >= 0.0
    requires i <= j < |Granted(c, start, polls)|
    ensures var g := Granted(c, start, polls);
      (j - i + 1) as real <= c.maxTokens + Accrued(g[j] - g[i], c.refillRate)
  {
    hide Accrued, After, Grants;
    var front, t := polls[..|polls| - 1], polls[|polls| - 1];
    var g := Granted(c, start, front);
    if j < |g| {
      WindowWithinCredit(c, start, front, i, j);
    } else {
      GrantedWithinBounds(c, start, front, t);
      AccruedGrows(0.0, 0.0, c.refillRate);
      var all := Granted(c, start, polls);
      assert all == g + [t] && all[j] == t;
      if i < |g| {
        assert all[i] == g[i] && (|g| - i) as real + 1.0 <= c.maxTokens + Accrued(t - g[i], c.refillRate);
      }
    }
  }

  /** With less than one token of capacity nothing is ever granted, so Wait can only end
      by cancellation. */
  lemma NoCapacityNoGrant(c: Config, b: Bucket, now: real)
    ensures Grants(c, b, now) ==> c.maxTokens >= 1.0
  {
  }
}
