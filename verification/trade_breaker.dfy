/** The trade-driven circuit breaker against the history of trades since its reset. */
module TradeBreaker {

  const U32_LIMIT: nat := 0x1_0000_0000

  datatype Config = Config(maxConsecutiveLosses: nat, maxDailyLoss: real)

  function Abs(x: real): real { if x < 0.0 then -x else x }

  // ---------- what the history says ----------

  /** The number of losing trades the history ends in. */
  function LosingStreak(h: seq<real>): (n: nat)
    ensures n <= |h|
    ensures forall i :: |h| - n <= i < |h| ==> h[i] < 0.0
    ensures n < |h| ==> h[|h| - n - 1] >= 0.0
  {
    if h == [] || h[|h| - 1] >= 0.0 then 0 else 1 + LosingStreak(h[..|h| - 1])
  }

  function TotalLoss(h: seq<real>): (total: real)
    ensures total >= 0.0
  {
    if h == [] then 0.0 else
      TotalLoss(h[..|h| - 1]) + if h[|h| - 1] < 0.0 then Abs(h[|h| - 1]) else 0.0
  }

  /** The trades up to here call for a halt: the last one lost, and it either completes
      the streak or finds the total at the threshold. */
  predicate CallsForHalt(c: Config, h: seq<real>) {
    h != [] && h[|h| - 1] < 0.0
    && (LosingStreak(h) >= c.maxConsecutiveLosses || TotalLoss(h) >= c.maxDailyLoss)
  }

  /** Some prefix called for a halt. */
  predicate Halted(c: Config, h: seq<real>) {
    h != [] && (Halted(c, h[..|h| - 1]) || CallsForHalt(c, h))
  }

  lemma {:induction false} HaltedByAPrefix(c: Config, h: seq<real>)
    ensures Halted(c, h) <==> exists k :: 0 <= k <= |h| && CallsForHalt(c, h[..k])
  {
    if h != [] {
      var front := h[..|h| - 1];
      HaltedByAPrefix(c, front);
      assert forall k :: 0 <= k <= |front| ==> front[..k] == h[..k];
      assert h[..|h|] == h;
    }
  }

  /** The k-th trade lost, and either every one of the last maxConsecutiveLosses did or the
      losses so far are at the limit. */
  predicate LossAtLimit(c: Config, h: seq<real>, k: nat)
    requires 1 <= k <= |h|
  {
    && h[k - 1] < 0.0
    && (|| (c.maxConsecutiveLosses <= k && forall i :: k - c.maxConsecutiveLosses <= i < k ==> h[i] < 0.0)
        || TotalLoss(h[..k]) >= c.maxDailyLoss)
  }

  /** Halting, written out: some losing trade completed a row of losses as long as allowed,
      or found the losses of the period, added up, at the limit. */
  lemma HaltedExactly(c: Config, h: seq<real>)
    ensures Halted(c, h) <==> exists k :: 1 <= k <= |h| && LossAtLimit(c, h, k)
  {
    hide Halted, TotalLoss, LosingStreak;
    HaltedByAPrefix(c, h);
    forall k | 1 <= k <= |h|
      ensures CallsForHalt(c, h[..k]) <==> LossAtLimit(c, h, k)
    {
      StreakExactly(h[..k], c.maxConsecutiveLosses);
      assert forall i :: 0 <= i < k ==> h[..k][i] == h[i];
    }
  }

  lemma StreakExactly(h: seq<real>, m: nat)
    ensures LosingStreak(h) >= m <==> m <= |h| && forall i :: |h| - m <= i < |h| ==> h[i] < 0.0
  {
    hide LosingStreak;
    var n := LosingStreak(h);
    if n < m <= |h| { assert h[|h| - n - 1] >= 0.0; }
  }

  /** The total adds up what was lost; what was won does not count. */
  lemma TotalExactly(h: seq<real>, pnl: real)
    ensures TotalLoss([]) == 0.0
    ensures TotalLoss(h + [pnl]) == TotalLoss(h) + if pnl < 0.0 then -pnl else 0.0
  {
    assert (h + [pnl])[..|h|] == h;
  }

  lemma OneMoreTrade(c: Config, h: seq<real>, pnl: real)
    ensures LosingStreak(h + [pnl]) == if pnl >= 0.0 then 0 else 1 + LosingStreak(h)
    ensures TotalLoss(h + [pnl]) == TotalLoss(h) + if pnl < 0.0 then Abs(pnl) else 0.0
    ensures Halted(c, h + [pnl])
       <==> Halted(c, h)
            || (pnl < 0.0 && (1 + LosingStreak(h) >= c.maxConsecutiveLosses || TotalLoss(h) + Abs(pnl) >= c.maxDailyLoss))
  {
    assert (h + [pnl])[..|h|] == h;
  }

  /** The trades up to the first halt; without a halt, all of them. */
  function UpToHalt(c: Config, h: seq<real>): (front: seq<real>)
    ensures front <= h && (Halted(c, front) <==> Halted(c, h))
  {
    if h == [] then [] else
      var before := h[..|h| - 1];
      if Halted(c, before) then UpToHalt(c, before) else h
  }

  lemma UpToHaltNext(c: Config, h: seq<real>, pnl: real)
    ensures UpToHalt(c, h + [pnl]) == if Halted(c, h) then UpToHalt(c, h) else h + [pnl]
    ensures !Halted(c, h) ==> UpToHalt(c, h) == h
  {
    assert (h + [pnl])[..|h|] == h;
  }

  // ---------- the breaker ----------

  class CircuitBreaker {
    const config: Config
    var consecutiveLosses: nat
    var dailyLoss: real
    var halted: bool
    ghost var history: seq<real>

    /** The counters are those of the trades up to the halt; without a halt, of all. */
    ghost predicate Valid() reads this {
      && (halted <==> Halted(config, history))
      && consecutiveLosses == LosingStreak(UpToHalt(config, history))
      && dailyLoss == TotalLoss(UpToHalt(config, history))
      && consecutiveLosses < U32_LIMIT && config.maxConsecutiveLosses < U32_LIMIT
      && (!halted && consecutiveLosses > 0 ==> consecutiveLosses < config.maxConsecutiveLosses)
    }

    constructor (config: Config)
      requires config.maxConsecutiveLosses < U32_LIMIT
      ensures Valid() && history == [] && this.config == config && !halted
    {
      this.config := config;
      consecutiveLosses, dailyLoss, halted, history := 0, 0.0, false, [];
    }

    method Reset()
      requires Valid()
      modifies this
      ensures Valid() && history == [] && !halted
    {
      consecutiveLosses, dailyLoss, halted, history := 0, 0.0, false, [];
    }

    /** Returns true exactly at the first prefix that calls for a halt; the u32 counter
        does not overflow. */
    method RecordTrade(pnl: real) returns (tripped: bool)
      requires Valid()
      modifies this
      ensures Valid() && history == old(history) + [pnl]
      ensures tripped <==> Halted(config, history) && !Halted(config, old(history))
      ensures halted <==> Halted(config, history)
      ensures consecutiveLosses <= 0xFFFF_FFFF
    {
      hide LosingStreak, TotalLoss, Halted, UpToHalt;
      OneMoreTrade(config, history, pnl);
      UpToHaltNext(config, history, pnl);
      history := history + [pnl];
      if halted {
        return false;
      }
      if pnl < 0.0 {
        assert consecutiveLosses + 1 < U32_LIMIT;
        consecutiveLosses := consecutiveLosses + 1;
        dailyLoss := dailyLoss + Abs(pnl);
        if consecutiveLosses >= config.maxConsecutiveLosses {
          halted := true;
          return true;
        }
        if dailyLoss >= config.maxDailyLoss {
          halted := true;
          return true;
        }
      } else {
        consecutiveLosses := 0;
      }
      return false;
    }
  }

  // ---------- over a whole run ----------

  /** The results record_trade gives for the trades of one period between resets. */
  function Results(c: Config, h: seq<real>): (rs: seq<bool>)
    ensures |rs| == |h|
  {
    if h == [] then [] else
      Results(c, h[..|h| - 1]) + [Halted(c, h) && !Halted(c, h[..|h| - 1])]
  }

  /** A halt outlasts every further trade. */
  lemma {:induction false} HaltLasts(c: Config, h: seq<real>, k: nat)
    requires k <= |h| && Halted(c, h[..k])
    ensures Halted(c, h)
  {
    if k == |h| {
      assert h[..k] == h;
    } else {
      assert h[..|h| - 1][..k] == h[..k];
      HaltLasts(c, h[..|h| - 1], k);
    }
  }

  lemma {:induction false} ResultAt(c: Config, h: seq<real>, i: nat)
    requires i < |h|
    ensures Results(c, h)[i] <==> Halted(c, h[..i + 1]) && !Halted(c, h[..i])
  {
    if i < |h| - 1 {
      ResultAt(c, h[..|h| - 1], i);
      assert h[..|h| - 1][..i + 1] == h[..i + 1] && h[..|h| - 1][..i] == h[..i];
    } else {
      assert h[..i + 1] == h;
    }
  }

  /** At most one trade per reset reports a trip: the first one whose prefix calls for a
      halt, and none earlier does. */
  lemma TripsOnceAtTheFirst(c: Config, h: seq<real>, i: nat)
    requires i < |h| && Results(c, h)[i]
    ensures CallsForHalt(c, h[..i + 1])
    ensures forall k :: 0 <= k <= i ==> !CallsForHalt(c, h[..k])
    ensures forall j :: 0 <= j < |h| && j != i ==> !Results(c, h)[j]
  {
    ResultAt(c, h, i);
    assert h[..i + 1][..i] == h[..i];
    HaltedByAPrefix(c, h[..i]);
    forall k | 0 <= k <= i
      ensures !CallsForHalt(c, h[..k])
    {
      assert h[..i][..k] == h[..k];
    }
    forall j | 0 <= j < |h| && j != i
      ensures !Results(c, h)[j]
    {
      ResultAt(c, h, j);
      if j < i {
        EarlierNotHalted(c, h, j + 1, i);
      } else {
        EarlierNotHalted(c, h, i + 1, j);
      }
    }
  }

  lemma EarlierNotHalted(c: Config, h: seq<real>, k: nat, m: nat)
    requires k <= m <= |h|
    ensures Halted(c, h[..k]) ==> Halted(c, h[..m])
  {
    assert h[..m][..k] == h[..k];
    if Halted(c, h[..k]) { HaltLasts(c, h[..m], k); }
  }
}
