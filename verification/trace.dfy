/** Trace IDs "{exchange}-{timestamp_ms}-{sequence}": parsing one back, telling any
    two apart, and when they sort in the order they were made. */
module Trace {
  import opened BigEndian
  import opened Wrappers
  import opened Frame
  import Lex

  // ---------- %d and %020d ----------

  function Decimal(n: nat): (s: seq<Byte>)
    ensures |s| >= 1 && AllDigits(s)
  {
    if n < 10 then [ZERO + n] else Decimal(n / 10) + [ZERO + n % 10]
  }

  function FormatInt(n: int): (s: seq<Byte>)
  {
    if n < 0 then [DASH] + Decimal(-n) else Decimal(n)
  }

  function ZeroPadded(n: nat, width: nat): (s: seq<Byte>)
    ensures AllDigits(s) && |s| >= width
  {
    var d := Decimal(n);
    if |d| >= width then d else seq(width - |d|, _ => ZERO) + d
  }

  function TraceID(exchange: seq<Byte>, ts: int, sequence: nat): (id: seq<Byte>)
  {
    exchange + [DASH] + (FormatInt(ts) + [DASH] + ZeroPadded(sequence, 20))
  }

  /** The text of an ID: the exchange, a dash, the time in decimal without leading zeros, a
      dash, and the sequence number in twenty digits. */
  lemma LayoutExactly(exchange: seq<Byte>, ts: nat, sequence: nat)
    requires sequence < 0x1_0000_0000_0000_0000
    ensures var time, number := Decimal(ts), ZeroPadded(sequence, 20);
      && TraceID(exchange, ts, sequence) == exchange + [0x2D] + (time + [0x2D] + number)
      && (forall i :: 0 <= i < |time| ==> 0x30 <= time[i] <= 0x39)
      && DecimalValue(time) == ts && (|time| == 1 || time[0] != 0x30)
      && |number| == 20 && (forall i :: 0 <= i < 20 ==> 0x30 <= number[i] <= 0x39)
      && DecimalValue(number) == sequence
  {
    hide ZeroPadded;
    DecimalReadsBack(ts);
    NoLeadingZero(ts);
    PaddedReadsBack(sequence);
  }

  lemma {:induction false} NoLeadingZero(n: nat)
    ensures |Decimal(n)| == 1 || Decimal(n)[0] != ZERO
  {
    if n >= 10 { NoLeadingZero(n / 10); }
  }

  class TraceGenerator {
    const exchange: seq<Byte>
    var sequence: nat

    ghost predicate Valid() reads this { sequence < U64_LIMIT }

    constructor (exchange: seq<Byte>)
      ensures Valid() && this.exchange == exchange && sequence == 0
    {
      this.exchange := exchange;
      sequence := 0;
    }

    /** The counter is an atomic uint64, which wraps. */
    method Generate(ts: int) returns (id: seq<Byte>)
      requires Valid()
      modifies this
      ensures Valid() && sequence == (old(sequence) + 1) % U64_LIMIT
      ensures id == TraceID(exchange, ts, sequence)
    {
      sequence := (sequence + 1) % U64_LIMIT;
      id := exchange + [DASH] + (FormatInt(ts) + [DASH] + ZeroPadded(sequence, 20));
    }
  }

  // ---------- numbers read back ----------

  lemma {:induction false} DecimalReadsBack(n: nat)
    ensures DecimalValue(Decimal(n)) == n
  {
    if n < 10 {
      assert Decimal(n)[..0] == [];
    } else {
      DecimalReadsBack(n / 10);
      assert Decimal(n)[..|Decimal(n)| - 1] == Decimal(n / 10);
    }
  }

  lemma {:induction false} LeadingZeros(k: nat, d: seq<Byte>)
    requires AllDigits(d)
    ensures DecimalValue(seq(k, _ => ZERO) + d) == DecimalValue(d)
  {
    var s := seq(k, _ => ZERO) + d;
    if d != [] {
      LeadingZeros(k, d[..|d| - 1]);
      assert s[..|s| - 1] == seq(k, _ => ZERO) + d[..|d| - 1];
    } else if k > 0 {
      LeadingZeros(k - 1, []);
      assert s[..k - 1] == seq(k - 1, _ => ZERO) + [];
    }
  }

  function Pow10(k: nat): (p: nat)
    ensures p > 0
  {
    if k == 0 then 1 else 10 * Pow10(k - 1)
  }

  lemma {:induction false} DigitCount(n: nat, k: nat)
    requires n < Pow10(k) && k >= 1
    ensures |Decimal(n)| <= k
  {
    if n >= 10 { DigitCount(n / 10, k - 1); }
  }

  lemma TwentyDigitsHoldUint64()
    ensures U64_LIMIT < Pow10(20)
  {
    assert Pow10(4) == 10 * (10 * Pow10(2)) && Pow10(2) == 100;
    assert Pow10(8) == 10 * (10 * (10 * (10 * Pow10(4))));
    assert Pow10(12) == 10 * (10 * (10 * (10 * Pow10(8))));
    assert Pow10(16) == 10 * (10 * (10 * (10 * Pow10(12))));
    assert Pow10(20) == 10 * (10 * (10 * (10 * Pow10(16))));
  }

  /** Twenty digits hold every sequence number, and show which one it is. */
  lemma PaddedReadsBack(n: nat)
    requires n < U64_LIMIT
    ensures |ZeroPadded(n, 20)| == 20 && DecimalValue(ZeroPadded(n, 20)) == n
  {
    TwentyDigitsHoldUint64();
    DigitCount(n, 20);
    DecimalReadsBack(n);
    LeadingZeros(20 - |Decimal(n)|, Decimal(n));
    assert ZeroPadded(n, 20) == seq(20 - |Decimal(n)|, _ => ZERO) + Decimal(n);
  }

  // ---------- parseTraceID of a generated ID ----------

  lemma DashedExchangeIsCut(exchange: seq<Byte>, rest: seq<Byte>)
    requires DASH in exchange
    ensures SplitN(exchange + rest, DASH, 3)[0] != exchange
  {
    FirstSeparator(exchange, rest);
  }

  /** What the serializer reads out of a generated ID is what went in exactly when the
      exchange name has no dash and the clock is past the epoch (at the epoch itself the
      parser falls back to its own clock). */
  lemma GeneratedIDParses(exchange: seq<Byte>, ts: int, sequence: nat, now: nat)
    requires -0x8000_0000_0000_0000 <= ts < 0x8000_0000_0000_0000
    ensures var r := ParsedTraceID(TraceID(exchange, ts, sequence), now);
      (r.Ok? && r.value.exchange == exchange && r.value.timestampMs == ts)
      <==> DASH !in exchange && (ts > 0 || (ts == 0 && now == 0))
  {
    hide ZeroPadded, Decimal, ParsedTraceID;
    var last := ZeroPadded(sequence, 20);
    if DASH in exchange {
      CutWhenDashed(exchange, FormatInt(ts) + [DASH] + last, now);
    } else if ts >= 0 {
      ReadWhenPlain(exchange, ts, last, now);
    }
  }

  lemma ReadWhenPlain(exchange: seq<Byte>, ts: nat, last: seq<Byte>, now: nat)
    requires DASH !in exchange && ts < U64_LIMIT
    ensures ParsedTraceID(exchange + [DASH] + (Decimal(ts) + [DASH] + last), now)
         == Ok(TraceFields(exchange, if ts == 0 then now else ts))
  {
    hide Decimal, SplitN;
    PartsOf(exchange, Decimal(ts), last);
    DecimalReadsBack(ts);
  }

  lemma CutWhenDashed(exchange: seq<Byte>, rest: seq<Byte>, now: nat)
    requires DASH in exchange
    ensures var r := ParsedTraceID(exchange + [DASH] + rest, now);
      r.Ok? ==> r.value.exchange != exchange
  {
    DashedExchangeIsCut(exchange, [DASH] + rest);
    assert exchange + [DASH] + rest == exchange + ([DASH] + rest);
  }

  // ---------- telling IDs apart ----------

  /** IDs of one exchange with different sequence numbers differ, whatever the clock did. */
  lemma SequenceTellsApart(exchange: seq<Byte>, ts1: int, s1: nat, ts2: int, s2: nat)
    requires s1 < U64_LIMIT && s2 < U64_LIMIT
    requires TraceID(exchange, ts1, s1) == TraceID(exchange, ts2, s2)
    ensures s1 == s2
  {
    var id := TraceID(exchange, ts1, s1);
    PaddedReadsBack(s1);
    PaddedReadsBack(s2);
    assert id[|id| - 20..] == ZeroPadded(s1, 20);
    assert id[|id| - 20..] == ZeroPadded(s2, 20);
  }

  /** The IDs a fresh generator makes when the clock reads ts[0], ts[1], ... */
  function Generated(exchange: seq<Byte>, ts: seq<int>): (ids: seq<seq<Byte>>)
    ensures |ids| == |ts|
  {
    seq(|ts|, k requires 0 <= k < |ts| => TraceID(exchange, ts[k], (k + 1) % U64_LIMIT))
  }

  /** The i-th ID shows the i-th clock reading and counts from one. */
  lemma GeneratedExactly(exchange: seq<Byte>, ts: seq<int>, i: nat)
    requires i < |ts|
    ensures |Generated(exchange, ts)| == |ts|
    ensures Generated(exchange, ts)[i] == TraceID(exchange, ts[i], (i + 1) % 0x1_0000_0000_0000_0000)
  {
    hide TraceID;
  }

  lemma CountersDiffer(i: nat, j: nat)
    requires i < j < i + U64_LIMIT
    ensures i % U64_LIMIT != j % U64_LIMIT
  {
    assert i == U64_LIMIT * (i / U64_LIMIT) + i % U64_LIMIT;
    assert j == U64_LIMIT * (j / U64_LIMIT) + j % U64_LIMIT;
  }

  /** Fewer than 2^64 steps apart, two IDs of one generator are never the same. */
  lemma GeneratedDistinct(exchange: seq<Byte>, ts: seq<int>, i: nat, j: nat)
    requires i < j < |ts| && j < i + U64_LIMIT
    ensures Generated(exchange, ts)[i] != Generated(exchange, ts)[j]
  {
    hide TraceID;
    CountersDiffer(i + 1, j + 1);
    if Generated(exchange, ts)[i] == Generated(exchange, ts)[j] {
      SequenceTellsApart(exchange, ts[i], (i + 1) % U64_LIMIT, ts[j], (j + 1) % U64_LIMIT);
    }
  }

  // ---------- sorting ----------

  lemma {:induction false} LessSnoc(a: seq<int>, x: int, b: seq<int>, y: int)
    requires |a| == |b|
    ensures Lex.Less(a + [x], b + [y]) <==> Lex.Less(a, b) || (a == b && x < y)
  {
    if a == [] {
      assert a + [x] == [x] && b + [y] == [y];
    } else {
      LessSnoc(a[1..], x, b[1..], y);
      assert (a + [x])[1..] == a[1..] + [x] && (b + [y])[1..] == b[1..] + [y];
      assert a == [a[0]] + a[1..] && b == [b[0]] + b[1..];
    }
  }

  /** Digit strings of one length sort as their numbers do. */
  lemma {:induction false} EqualLengthOrder(a: seq<Byte>, b: seq<Byte>)
    requires |a| == |b| && AllDigits(a) && AllDigits(b)
    ensures Lex.Less(a, b) <==> DecimalValue(a) < DecimalValue(b)
    ensures a == b <==> DecimalValue(a) == DecimalValue(b)
  {
    if a != [] {
      var a', b', x, y := a[..|a| - 1], b[..|b| - 1], a[|a| - 1], b[|b| - 1];
      EqualLengthOrder(a', b');
      LessSnoc(a', x, b', y);
      assert a == a' + [x] && b == b' + [y];
    }
  }

  /** A dash sorts before every digit, so a number that continues sorts later. */
  lemma StampOrder(a: seq<Byte>, b: seq<Byte>, x: seq<Byte>, y: seq<Byte>)
    requires AllDigits(a) && AllDigits(b) && a != b
    ensures Lex.Less(a + ([DASH] + x), b + ([DASH] + y)) <==> Lex.Less(a, b)
  {
    if a <= b {
      var d := b[|a|..];
      assert b == a + d && b + ([DASH] + y) == a + (d + ([DASH] + y));
      Lex.CommonPrefix(a, [DASH] + x, d + ([DASH] + y));
      Lex.CommonPrefix(a, [], d);
      assert a + [] == a && IsDigit(b[|a|]);
    } else if b <= a {
      var d := a[|b|..];
      assert a == b + d && a + ([DASH] + x) == b + (d + ([DASH] + x));
      Lex.CommonPrefix(b, d + ([DASH] + x), [DASH] + y);
      Lex.CommonPrefix(b, d, []);
      assert b + [] == b && IsDigit(a[|b|]);
    } else {
      Lex.Decided(a, b, [DASH] + x, [DASH] + y);
    }
  }

  /** The exact sort order of two IDs of one exchange: the printed timestamps decide,
      as strings; equal timestamps leave it to the sequence number. */
  lemma SortOrder(exchange: seq<Byte>, ts1: nat, s1: nat, ts2: nat, s2: nat)
    requires s1 < U64_LIMIT && s2 < U64_LIMIT
    ensures Lex.Less(TraceID(exchange, ts1, s1), TraceID(exchange, ts2, s2))
            <==> if ts1 == ts2 then s1 < s2 else Lex.Less(Decimal(ts1), Decimal(ts2))
  {
    var a, b, x, y := Decimal(ts1), Decimal(ts2), ZeroPadded(s1, 20), ZeroPadded(s2, 20);
    Lex.CommonPrefix(exchange + [DASH], a + [DASH] + x, b + [DASH] + y);
    assert a + [DASH] + x == a + ([DASH] + x) && b + [DASH] + y == b + ([DASH] + y);
    DecimalReadsBack(ts1);
    DecimalReadsBack(ts2);
    if ts1 == ts2 {
      Lex.CommonPrefix(a + [DASH], x, y);
      PaddedReadsBack(s1);
      PaddedReadsBack(s2);
      EqualLengthOrder(x, y);
    } else {
      StampOrder(a, b, [DASH] + x, [DASH] + y);
      StampOrder(a, b, x, y);
    }
  }

  /** While the timestamps keep their number of digits, IDs sort as (timestamp, sequence). */
  lemma SortsByTimeThenSequence(exchange: seq<Byte>, ts1: nat, s1: nat, ts2: nat, s2: nat)
    requires s1 < U64_LIMIT && s2 < U64_LIMIT && |Decimal(ts1)| == |Decimal(ts2)|
    ensures Lex.Less(TraceID(exchange, ts1, s1), TraceID(exchange, ts2, s2))
            <==> ts1 < ts2 || (ts1 == ts2 && s1 < s2)
  {
    SortOrder(exchange, ts1, s1, ts2, s2);
    DecimalReadsBack(ts1);
    DecimalReadsBack(ts2);
    EqualLengthOrder(Decimal(ts1), Decimal(ts2));
  }

  /** A run of a generator under a clock that does not go back is strictly sorted. */
  lemma GeneratedSorted(exchange: seq<Byte>, ts: seq<nat>, i: nat, j: nat)
    requires i < j < |ts| < U64_LIMIT - 1
    requires ts[i] <= ts[j] && |Decimal(ts[i])| == |Decimal(ts[j])|
    ensures Lex.Less(Generated(exchange, ts)[i], Generated(exchange, ts)[j])
  {
    hide TraceID, Decimal, Lex.Less;
    SortsByTimeThenSequence(exchange, ts[i], i + 1, ts[j], j + 1);
  }

  /** One more digit breaks it: the ID made at 10 ms sorts before the one made at 9 ms. */
  lemma DigitCarryBreaksOrder(exchange: seq<Byte>)
    ensures Lex.Less(TraceID(exchange, 10, 2), TraceID(exchange, 9, 1))
  {
    SortOrder(exchange, 10, 2, 9, 1);
    assert Decimal(10) == Decimal(1) + [ZERO + 0];
  }
}
