/** The bounded drop-oldest writer as a state machine: any number of producers inside
    Write or WriteRaw, one write loop, every select one atomic step. The channel, the
    flags and the metrics are the program's; the log records what happened to frames. */
module IpcWriter {
  import opened BigEndian
  import opened Wrappers
  import Frame

  const MAX_BUFFER_SIZE: nat := 1000
  const MAX_FRAME_SIZE: nat := 16_777_216

  /** A frame and the number of the call that offered it. */
  datatype Tagged = Tagged(id: nat, bytes: seq<Byte>)

  datatype Outcome = Forwarded | WriteError | PartialWrite | NoConnection
  datatype Exit = Received | Evicted

  /** What became of a frame. */
  datatype Entry<+K> = Entry(frame: Tagged, kind: K)

  datatype Consumer = NotStarted | Waiting | Sending(frame: Tagged) | Stopped

  datatype Metrics = Metrics(forwarded: nat, writeErrors: nat, partialWrites: nat,
                             droppedNoConnection: nat, droppedBackpressure: nat, droppedOverflow: nat)

  /** offered: every frame that passed the size checks; enqueued: every send on the
      channel; left: every receive from it; outcomes: what the loop made of its frames. */
  datatype Log = Log(offered: seq<Tagged>, enqueued: seq<Tagged>, left: seq<Entry<Exit>>,
                     outcomes: seq<Entry<Outcome>>, overflowed: seq<Tagged>)

  /** evicting and retrying hold the frames of producers that found the channel full:
      before the receive that makes room, and before the second send. */
  datatype State = State(conn: bool, closed: bool, consumer: Consumer, buffer: seq<Tagged>,
                         evicting: multiset<Tagged>, retrying: multiset<Tagged>,
                         metrics: Metrics, log: Log)

  datatype Step =
    | Offer(bytes: seq<Byte>)
    | Evict(frame: Tagged)
    | Retry(frame: Tagged)
    | Receive
    | Finish(outcome: Outcome)
    | Stop
    | Connect
    | Close

  const INIT := State(false, false, NotStarted, [], multiset{}, multiset{},
                      Metrics(0, 0, 0, 0, 0, 0), Log([], [], [], [], []))

  /** WriteRaw's size checks; Write checks the payload and adds four bytes. */
  predicate Admissible(bytes: seq<Byte>) {
    0 < |bytes| <= MAX_FRAME_SIZE + 4
  }

  predicate Enabled(s: State, step: Step) {
    match step
    case Offer(bytes) => Admissible(bytes)
    case Evict(f) => f in s.evicting
    case Retry(f) => f in s.retrying
    case Receive => s.consumer.Waiting? && s.buffer != []
    case Finish(o) => s.consumer.Sending? && (o.NoConnection? <==> !s.conn)
    case Stop => s.consumer.Waiting? && s.closed
    case Connect => s.consumer.NotStarted? && !s.closed
    case Close => true
  }

  function Enqueue(s: State, f: Tagged): State {
    s.(buffer := s.buffer + [f], log := s.log.(enqueued := s.log.enqueued + [f]))
  }

  function Leave(s: State, exit: Exit): State
    requires s.buffer != []
  {
    s.(buffer := s.buffer[1..], log := s.log.(left := s.log.left + [Entry(s.buffer[0], exit)]))
  }

  function Count(m: Metrics, o: Outcome): Metrics {
    match o
    case Forwarded => m.(forwarded := m.forwarded + 1)
    case WriteError => m.(writeErrors := m.writeErrors + 1)
    case PartialWrite => m.(partialWrites := m.partialWrites + 1)
    case NoConnection => m.(droppedNoConnection := m.droppedNoConnection + 1)
  }

  function Next(s: State, step: Step): (s': State)
    requires Enabled(s, step)
  {
    match step
    case Offer(bytes) =>
      var f := Tagged(|s.log.offered|, bytes);
      var t := s.(log := s.log.(offered := s.log.offered + [f]));
      if |s.buffer| < MAX_BUFFER_SIZE then Enqueue(t, f)
      else t.(evicting := t.evicting + multiset{f})
    case Evict(f) =>
      var t := s.(evicting := s.evicting - multiset{f}, retrying := s.retrying + multiset{f});
      if s.buffer == [] then t
      else Leave(t.(metrics := t.metrics.(droppedBackpressure := t.metrics.droppedBackpressure + 1)), Evicted)
    case Retry(f) =>
      var t := s.(retrying := s.retrying - multiset{f});
      if |s.buffer| < MAX_BUFFER_SIZE then Enqueue(t, f)
      else t.(metrics := t.metrics.(droppedOverflow := t.metrics.droppedOverflow + 1),
              log := t.log.(overflowed := t.log.overflowed + [f]))
    case Receive => Leave(s, Received).(consumer := Sending(s.buffer[0]))
    case Finish(o) =>
      s.(consumer := Waiting, metrics := Count(s.metrics, o),
         log := s.log.(outcomes := s.log.outcomes + [Entry(s.consumer.frame, o)]))
    case Stop => s.(consumer := Stopped)
    case Connect => s.(conn := true, consumer := Waiting)
    case Close => s.(closed := true)
  }

  /** The state a schedule leads to, if each of its steps is enabled in turn. */
  function After(steps: seq<Step>): (r: Option<State>)
  {
    if steps == [] then Some(INIT) else
      match After(steps[..|steps| - 1])
      case None => None
      case Some(s) =>
        var last := steps[|steps| - 1];
        if Enabled(s, last) then Some(Next(s, last)) else None
  }

  // ---------- reading the log ----------

  function Frames<K>(entries: seq<Entry<K>>): (fs: seq<Tagged>)
    ensures |fs| == |entries| && forall i :: 0 <= i < |fs| ==> fs[i] == entries[i].frame
  {
    if entries == [] then [] else
      Frames(entries[..|entries| - 1]) + [entries[|entries| - 1].frame]
  }

  function Of<K(==)>(entries: seq<Entry<K>>, kind: K): (fs: seq<Tagged>)
  {
    if entries == [] then [] else
      var front, e := Of(entries[..|entries| - 1], kind), entries[|entries| - 1];
      if e.kind == kind then front + [e.frame] else front
  }

  function InFlight(c: Consumer): seq<Tagged> {
    if c.Sending? then [c.frame] else []
  }

  lemma OfAppend<K>(entries: seq<Entry<K>>, e: Entry<K>, kind: K)
    ensures Of(entries + [e], kind) == if e.kind == kind then Of(entries, kind) + [e.frame] else Of(entries, kind)
    ensures Frames(entries + [e]) == Frames(entries) + [e.frame]
  {
    assert (entries + [e])[..|entries|] == entries;
  }

  // ---------- the invariant ----------

  /** Frames leave the channel in the order they entered it. */
  ghost predicate Fifo(s: State) {
    Frames(s.log.left) + s.buffer == s.log.enqueued
  }

  /** The loop's frames are the received ones, in order. */
  ghost predicate LoopOrder(s: State) {
    Of(s.log.left, Received) == Frames(s.log.outcomes) + InFlight(s.consumer)
  }

  /** Every offered frame was sent on the channel, is on its way in, or was refused. */
  ghost predicate Offered(s: State) {
    && Sums(multiset(s.log.offered), multiset(s.log.enqueued), s.evicting, s.retrying, multiset(s.log.overflowed))
    && forall i :: 0 <= i < |s.log.offered| ==> s.log.offered[i].id == i && Admissible(s.log.offered[i].bytes)
  }

  ghost predicate MetricsAgree(s: State) {
    && s.metrics.forwarded == |Of(s.log.outcomes, Forwarded)|
    && s.metrics.writeErrors == |Of(s.log.outcomes, WriteError)|
    && s.metrics.partialWrites == |Of(s.log.outcomes, PartialWrite)|
    && s.metrics.droppedNoConnection == |Of(s.log.outcomes, NoConnection)|
    && s.metrics.droppedBackpressure == |Of(s.log.left, Evicted)|
    && s.metrics.droppedOverflow == |s.log.overflowed|
  }

  ghost predicate Inv(s: State) {
    && Fifo(s)
    && LoopOrder(s)
    && Offered(s)
    && MetricsAgree(s)
    && |s.buffer| <= MAX_BUFFER_SIZE
    && (!s.consumer.NotStarted? ==> s.conn)
  }

  lemma LeaveKeepsFifo(s: State, exit: Exit)
    requires Fifo(s) && s.buffer != []
    ensures Fifo(Leave(s, exit))
  {
    OfAppend(s.log.left, Entry(s.buffer[0], exit), exit);
    assert s.buffer == [s.buffer[0]] + s.buffer[1..];
    assert Frames(s.log.left) + s.buffer == (Frames(s.log.left) + [s.buffer[0]]) + s.buffer[1..];
  }

  lemma EnqueueKeepsFifo(s: State, f: Tagged)
    requires Fifo(s)
    ensures Fifo(Enqueue(s, f))
  {
    assert Frames(s.log.left) + (s.buffer + [f]) == (Frames(s.log.left) + s.buffer) + [f];
  }

  lemma FifoKept(s: State, step: Step)
    requires Fifo(s) && Enabled(s, step)
    ensures Fifo(Next(s, step))
  {
    hide Frames;
    match step {
      case Receive => LeaveKeepsFifo(s, Received);
      case Evict(_) => if s.buffer != [] { LeaveKeepsFifo(s, Evicted); }
      case Offer(bytes) => EnqueueKeepsFifo(s, Tagged(|s.log.offered|, bytes));
      case Retry(f) => EnqueueKeepsFifo(s, f);
      case _ =>
    }
  }

  lemma LoopOrderKept(s: State, step: Step)
    requires LoopOrder(s) && Enabled(s, step)
    ensures LoopOrder(Next(s, step))
  {
    hide Of, Frames;
    match step {
      case Receive => OfAppend(s.log.left, Entry(s.buffer[0], Received), Received);
      case Evict(_) => if s.buffer != [] { OfAppend(s.log.left, Entry(s.buffer[0], Evicted), Received); }
      case Finish(o) => OfAppend(s.log.outcomes, Entry(s.consumer.frame, o), o);
      case _ =>
    }
  }

  ghost predicate Sums(whole: multiset<Tagged>, a: multiset<Tagged>, b: multiset<Tagged>,
                       c: multiset<Tagged>, d: multiset<Tagged>)
  {
    whole == a + b + c + d
  }

  lemma NothingSums()
    ensures Sums(multiset{}, multiset{}, multiset{}, multiset{}, multiset{})
  {
  }

  lemma SumsMove(whole: multiset<Tagged>, a: multiset<Tagged>, b: multiset<Tagged>,
                 c: multiset<Tagged>, d: multiset<Tagged>, x: Tagged)
    requires Sums(whole, a, b, c, d)
    ensures Sums(whole + multiset{x}, a + multiset{x}, b, c, d)
    ensures Sums(whole + multiset{x}, a, b + multiset{x}, c, d)
    ensures Sums(whole + multiset{x}, a, b, c + multiset{x}, d)
    ensures Sums(whole + multiset{x}, a, b, c, d + multiset{x})
    ensures x in b ==> Sums(whole, a, b - multiset{x}, c + multiset{x}, d)
    ensures x in c ==> Sums(whole, a + multiset{x}, b, c - multiset{x}, d)
    ensures x in c ==> Sums(whole, a, b, c - multiset{x}, d + multiset{x})
  {
  }

  lemma OfferedKept(s: State, step: Step)
    requires Offered(s) && Enabled(s, step)
    ensures Offered(Next(s, step))
  {
    match step {
      case Offer(bytes) => OfferCounted(s, Tagged(|s.log.offered|, bytes));
      case Evict(f) => EvictCounted(s, f);
      case Retry(f) => RetryCounted(s, f);
      case _ =>
    }
  }

  lemma OneMore(fs: seq<Tagged>, f: Tagged)
    ensures multiset(fs + [f]) == multiset(fs) + multiset{f}
  {
  }

  lemma OfferCounted(s: State, f: Tagged)
    requires Offered(s) && f.id == |s.log.offered| && Admissible(f.bytes)
    ensures Offered(Next(s, Offer(f.bytes)))
  {
    hide Sums;
    OneMore(s.log.offered, f);
    OneMore(s.log.enqueued, f);
    SumsMove(multiset(s.log.offered), multiset(s.log.enqueued), s.evicting, s.retrying, multiset(s.log.overflowed), f);
    var s' := Next(s, Offer(f.bytes));
    assert s'.log.offered == s.log.offered + [f] && s'.retrying == s.retrying && s'.log.overflowed == s.log.overflowed;
    assert if |s.buffer| < MAX_BUFFER_SIZE
           then s'.log.enqueued == s.log.enqueued + [f] && s'.evicting == s.evicting
           else s'.log.enqueued == s.log.enqueued && s'.evicting == s.evicting + multiset{f};
  }

  lemma EvictCounted(s: State, f: Tagged)
    requires Offered(s) && f in s.evicting
    ensures Offered(Next(s, Evict(f)))
  {
    hide Sums;
    SumsMove(multiset(s.log.offered), multiset(s.log.enqueued), s.evicting, s.retrying, multiset(s.log.overflowed), f);
  }

  lemma RetryCounted(s: State, f: Tagged)
    requires Offered(s) && f in s.retrying
    ensures Offered(Next(s, Retry(f)))
  {
    hide Sums;
    OneMore(s.log.enqueued, f);
    OneMore(s.log.overflowed, f);
    SumsMove(multiset(s.log.offered), multiset(s.log.enqueued), s.evicting, s.retrying, multiset(s.log.overflowed), f);
  }

  lemma MetricsKept(s: State, step: Step)
    requires MetricsAgree(s) && Enabled(s, step)
    ensures MetricsAgree(Next(s, step))
  {
    match step {
      case Finish(o) => FinishCounted(s, o);
      case Receive => OfAppend(s.log.left, Entry(s.buffer[0], Received), Evicted);
      case Evict(_) => if s.buffer != [] { OfAppend(s.log.left, Entry(s.buffer[0], Evicted), Evicted); }
      case _ =>
    }
  }

  lemma FinishCounted(s: State, o: Outcome)
    requires MetricsAgree(s) && Enabled(s, Finish(o))
    ensures MetricsAgree(Next(s, Finish(o)))
  {
    hide Of;
    var e := Entry(s.consumer.frame, o);
    OfAppend(s.log.outcomes, e, Forwarded);
    OfAppend(s.log.outcomes, e, WriteError);
    OfAppend(s.log.outcomes, e, PartialWrite);
    OfAppend(s.log.outcomes, e, NoConnection);
  }

  lemma Preserved(s: State, step: Step)
    requires Inv(s) && Enabled(s, step)
    ensures Inv(Next(s, step))
  {
    hide Fifo, LoopOrder, Offered, MetricsAgree;
    FifoKept(s, step);
    LoopOrderKept(s, step);
    OfferedKept(s, step);
    MetricsKept(s, step);
  }

  /** What holds after every schedule of producers, write loop, Connect and Close. */
  lemma {:induction false} InvAlways(steps: seq<Step>)
    ensures After(steps).Some? ==> Inv(After(steps).value)
  {
    if steps != [] {
      hide Inv;
      var front := steps[..|steps| - 1];
      InvAlways(front);
      if After(steps).Some? {
        Preserved(After(front).value, steps[|steps| - 1]);
      }
    }
  }

  // ---------- conservation ----------

  lemma {:induction false} SplitByExit(left: seq<Entry<Exit>>)
    ensures multiset(Frames(left)) == multiset(Of(left, Received)) + multiset(Of(left, Evicted))
  {
    if left != [] {
      var front, e := left[..|left| - 1], left[|left| - 1];
      SplitByExit(front);
      match e.kind case Received => case Evicted =>
    }
  }

  lemma {:induction false} SplitByOutcome(outcomes: seq<Entry<Outcome>>)
    ensures Sums(multiset(Frames(outcomes)), multiset(Of(outcomes, Forwarded)), multiset(Of(outcomes, WriteError)),
                 multiset(Of(outcomes, PartialWrite)), multiset(Of(outcomes, NoConnection)))
  {
    hide Sums;
    assert Sums(multiset{}, multiset{}, multiset{}, multiset{}, multiset{}) by { NothingSums(); }
    if outcomes != [] {
      var front, e := outcomes[..|outcomes| - 1], outcomes[|outcomes| - 1];
      SplitByOutcome(front);
      SumsMove(multiset(Frames(front)), multiset(Of(front, Forwarded)), multiset(Of(front, WriteError)),
               multiset(Of(front, PartialWrite)), multiset(Of(front, NoConnection)), e.frame);
      match e.kind case Forwarded => case WriteError => case PartialWrite => case NoConnection =>
    }
  }

  lemma {:induction false} OfferedOnce(offered: seq<Tagged>, i: nat)
    requires i < |offered| && forall k :: 0 <= k < |offered| ==> offered[k].id == k
    ensures multiset(offered)[offered[i]] == 1
  {
    var front, last := offered[..|offered| - 1], offered[|offered| - 1];
    assert offered == front + [last];
    if i < |front| {
      OfferedOnce(front, i);
    } else {
      assert last !in front;
    }
  }

  /** Conservation under every interleaving: each frame that was offered is in exactly
      one place: queued, with a producer, in flight, forwarded, write error, partial
      write, no connection, evicted or rejected on overflow. */
  lemma EachFrameInOnePlace(steps: seq<Step>, i: nat)
    requires After(steps).Some? && i < |After(steps).value.log.offered|
    ensures var s := After(steps).value;
      var f := s.log.offered[i];
      multiset(s.buffer)[f] + s.evicting[f] + s.retrying[f] + multiset(InFlight(s.consumer))[f]
      + multiset(Of(s.log.outcomes, Forwarded))[f] + multiset(Of(s.log.outcomes, WriteError))[f]
      + multiset(Of(s.log.outcomes, PartialWrite))[f] + multiset(Of(s.log.outcomes, NoConnection))[f]
      + multiset(Of(s.log.left, Evicted))[f] + multiset(s.log.overflowed)[f] == 1
  {
    InvAlways(steps);
    var s := After(steps).value;
    OfferedOnce(s.log.offered, i);
    SplitByExit(s.log.left);
    SplitByOutcome(s.log.outcomes);
    assert multiset(s.log.enqueued) == multiset(Frames(s.log.left)) + multiset(s.buffer);
    assert multiset(Of(s.log.left, Received)) == multiset(Frames(s.log.outcomes)) + multiset(InFlight(s.consumer));
  }

  /** fs are offered frames, each at most once. */
  ghost predicate DistinctlyOffered(fs: seq<Tagged>, offered: seq<Tagged>) {
    && (forall i :: 0 <= i < |fs| ==> fs[i].id < |offered| && fs[i] == offered[fs[i].id])
    && (forall i, j :: 0 <= i < j < |fs| ==> fs[i].id != fs[j].id)
  }

  /** Whatever the interleaving, the loop's outcomes are about offered frames, each at most
      once, and so is any choice among them. */
  lemma OutcomesDistinctlyOffered<K>(steps: seq<Step>, chosen: seq<Entry<K>>, kind: K)
    requires After(steps).Some? && Frames(chosen) == Frames(After(steps).value.log.outcomes)
    ensures DistinctlyOffered(Of(chosen, kind), After(steps).value.log.offered)
  {
    hide Of, Frames, DistinctlyOffered;
    InvAlways(steps);
    var s := After(steps).value;
    SplitByExit(s.log.left);
    OfIsPart(chosen, kind);
    assert multiset(s.log.enqueued) == multiset(Frames(s.log.left)) + multiset(s.buffer);
    assert multiset(Of(s.log.left, Received)) == multiset(Frames(s.log.outcomes)) + multiset(InFlight(s.consumer));
    assert multiset(Of(chosen, kind)) <= multiset(s.log.offered);
    PartIsDistinct(Of(chosen, kind), s.log.offered);
  }

  lemma {:induction false} OfIsPart<K>(entries: seq<Entry<K>>, kind: K)
    ensures multiset(Of(entries, kind)) <= multiset(Frames(entries))
  {
    if entries != [] {
      OfIsPart(entries[..|entries| - 1], kind);
    }
  }

  lemma PartIsDistinct(fs: seq<Tagged>, offered: seq<Tagged>)
    requires multiset(fs) <= multiset(offered) && forall k :: 0 <= k < |offered| ==> offered[k].id == k
    ensures DistinctlyOffered(fs, offered)
  {
    forall i | 0 <= i < |fs|
      ensures fs[i].id < |offered| && fs[i] == offered[fs[i].id]
    {
      assert fs[i] in multiset(fs);
      assert fs[i] in offered;
    }
    forall i, j | 0 <= i < j < |fs|
      ensures fs[i].id != fs[j].id
    {
      OfferedOnce(offered, fs[i].id);
      assert fs == fs[..j] + fs[j..];
      assert fs[i] in fs[..j] && fs[j] in fs[j..];
    }
  }

  /** The write loop only runs on a connection, so its "no connection" drop is dead code. */
  lemma {:induction false} NeverWithoutConnection(steps: seq<Step>)
    requires After(steps).Some?
    ensures Of(After(steps).value.log.outcomes, NoConnection) == []
    ensures After(steps).value.metrics.droppedNoConnection == 0
  {
    InvAlways(steps);
    if steps != [] {
      var front, step := steps[..|steps| - 1], steps[|steps| - 1];
      NeverWithoutConnection(front);
      InvAlways(front);
      ConnectedOutcome(After(front).value, step);
    }
  }

  lemma ConnectedOutcome(s: State, step: Step)
    requires Inv(s) && Enabled(s, step) && Of(s.log.outcomes, NoConnection) == []
    ensures Of(Next(s, step).log.outcomes, NoConnection) == []
  {
    if step.Finish? { OfAppend(s.log.outcomes, Entry(s.consumer.frame, step.outcome), NoConnection); }
  }

  // ---------- one producer ----------

  function Pending(s: State): multiset<Tagged> { s.evicting + s.retrying }

  /** The schedule of one producer: it offers a frame only when its last call is over. */
  predicate OneProducer(steps: seq<Step>) {
    forall k :: 0 <= k < |steps| && steps[k].Offer? && After(steps[..k]).Some?
      ==> Pending(After(steps[..k]).value) == multiset{}
  }

  /** Then every offered frame enters the channel in order, at most the last still has
      to, and while it waits to retry there is room for it. */
  ghost predicate InOrder(s: State) {
    && s.log.overflowed == []
    && |Pending(s)| <= 1
    && (s.retrying != multiset{} ==> |s.buffer| < MAX_BUFFER_SIZE)
    && |s.log.enqueued| + |Pending(s)| == |s.log.offered|
    && s.log.enqueued <= s.log.offered
    && Pending(s) == multiset(s.log.offered[|s.log.enqueued|..])
  }

  lemma InOrderKept(s: State, step: Step)
    requires InOrder(s) && Enabled(s, step) && |s.buffer| <= MAX_BUFFER_SIZE
    requires step.Offer? ==> Pending(s) == multiset{}
    ensures InOrder(Next(s, step))
  {
    match step {
      case Offer(bytes) => OfferInOrder(s, bytes);
      case Evict(f) => EvictInOrder(s, f);
      case Retry(f) => RetryInOrder(s, f);
      case _ =>
    }
  }

  lemma OfferInOrder(s: State, bytes: seq<Byte>)
    requires InOrder(s) && Pending(s) == multiset{} && Admissible(bytes)
    ensures InOrder(Next(s, Offer(bytes)))
  {
    var s' := Next(s, Offer(bytes));
    assert s.log.enqueued == s.log.offered;
    assert s'.log.offered[|s.log.offered|..] == [Tagged(|s.log.offered|, bytes)];
    assert s'.log.offered[|s'.log.offered|..] == [];
  }

  lemma EvictInOrder(s: State, f: Tagged)
    requires InOrder(s) && f in s.evicting && |s.buffer| <= MAX_BUFFER_SIZE
    ensures InOrder(Next(s, Evict(f)))
  {
    Single(s.evicting, s.retrying, f);
    assert Pending(Next(s, Evict(f))) == Pending(s);
  }

  lemma RetryInOrder(s: State, f: Tagged)
    requires InOrder(s) && f in s.retrying
    ensures InOrder(Next(s, Retry(f)))
  {
    var s' := Next(s, Retry(f));
    Single(s.retrying, s.evicting, f);
    var rest := s.log.offered[|s.log.enqueued|..];
    assert |rest| == 1 && rest[0] in multiset(rest);
    assert rest == [f] && s.log.offered == s.log.enqueued + rest;
    assert s'.log.offered[|s'.log.enqueued|..] == [];
  }

  lemma Single(a: multiset<Tagged>, b: multiset<Tagged>, f: Tagged)
    requires f in a && |a + b| <= 1
    ensures a == multiset{f} && b == multiset{}
  {
    assert |a + b| == |a| + |b|;
    assert a == multiset{f} + (a - multiset{f});
    assert |a| == 1 + |a - multiset{f}|;
  }

  lemma {:induction false} InOrderAlways(steps: seq<Step>)
    requires OneProducer(steps) && After(steps).Some?
    ensures InOrder(After(steps).value)
  {
    if steps == [] {
      assert INIT.log.offered[0..] == [];
    } else {
      var front := steps[..|steps| - 1];
      forall k | 0 <= k < |front|
        ensures front[..k] == steps[..k]
      {
      }
      InOrderAlways(front);
      InvAlways(front);
      assert steps[..|front|] == front;
      InOrderKept(After(front).value, steps[|front|]);
    }
  }

  /** fs are frames of offered, in the order in which they were offered. */
  ghost predicate InOfferOrder(fs: seq<Tagged>, offered: seq<Tagged>) {
    && (forall i :: 0 <= i < |fs| ==> fs[i].id < |offered| && fs[i] == offered[fs[i].id])
    && (forall i, j :: 0 <= i < j < |fs| ==> fs[i].id < fs[j].id)
  }

  lemma {:induction false} OfInOfferOrder<K>(entries: seq<Entry<K>>, kind: K, offered: seq<Tagged>)
    requires InOfferOrder(Frames(entries), offered)
    ensures InOfferOrder(Of(entries, kind), offered)
    ensures forall f :: f in Of(entries, kind) ==> f in Frames(entries)
  {
    if entries != [] {
      hide Of, Frames, InOfferOrder;
      var front, e := entries[..|entries| - 1], entries[|entries| - 1];
      assert entries == front + [e];
      OfAppend(front, e, kind);
      FrontInOfferOrder(Frames(front), e.frame, offered);
      OfInOfferOrder(front, kind, offered);
      if e.kind == kind {
        LaterInOfferOrder(Of(front, kind), e.frame, Frames(front), offered);
      }
    }
  }

  lemma FrontInOfferOrder(fs: seq<Tagged>, f: Tagged, offered: seq<Tagged>)
    requires InOfferOrder(fs + [f], offered)
    ensures InOfferOrder(fs, offered)
  {
    assert forall i :: 0 <= i < |fs| ==> (fs + [f])[i] == fs[i];
  }

  /** The last of all comes after some of the others too. */
  lemma LaterInOfferOrder(part: seq<Tagged>, f: Tagged, fs: seq<Tagged>, offered: seq<Tagged>)
    requires InOfferOrder(part, offered) && InOfferOrder(fs + [f], offered)
    requires forall g :: g in part ==> g in fs
    ensures InOfferOrder(part + [f], offered)
  {
    assert (fs + [f])[|fs|] == f;
    forall i | 0 <= i < |part|
      ensures part[i].id < f.id
    {
      assert part[i] in fs;
      var j :| 0 <= j < |fs| && fs[j] == part[i];
      assert (fs + [f])[j] == fs[j];
    }
  }

  lemma FramesInOfferOrder<K>(entries: seq<Entry<K>>, offered: seq<Tagged>)
    requires Frames(entries) <= offered
    requires forall i :: 0 <= i < |offered| ==> offered[i].id == i
    ensures InOfferOrder(Frames(entries), offered)
  {
    assert forall i :: 0 <= i < |entries| ==> Frames(entries)[i] == offered[i];
  }

  /** With one producer the overflow branch is dead, and what the loop received, and
      what it forwarded, are the writes in order with some left out. */
  lemma OneProducerKeepsOrder(steps: seq<Step>)
    requires OneProducer(steps) && After(steps).Some?
    ensures var s := After(steps).value;
      && s.log.overflowed == [] && s.metrics.droppedOverflow == 0
      && InOfferOrder(Of(s.log.left, Received), s.log.offered)
      && InOfferOrder(Frames(s.log.outcomes), s.log.offered)
      && InOfferOrder(Of(s.log.outcomes, Forwarded), s.log.offered)
  {
    InvAlways(steps);
    InOrderAlways(steps);
    KeepsOrder(After(steps).value);
  }

  lemma KeepsOrder(s: State)
    requires Fifo(s) && LoopOrder(s) && Offered(s) && InOrder(s)
    ensures InOfferOrder(Of(s.log.left, Received), s.log.offered)
    ensures InOfferOrder(Frames(s.log.outcomes), s.log.offered)
    ensures InOfferOrder(Of(s.log.outcomes, Forwarded), s.log.offered)
  {
    hide Of, Sums, Pending;
    assert Frames(s.log.left) <= s.log.enqueued;
    FramesInOfferOrder(s.log.left, s.log.offered);
    OfInOfferOrder(s.log.left, Received, s.log.offered);
    PrefixInOfferOrder(Of(s.log.left, Received), Frames(s.log.outcomes), s.log.offered);
    OfInOfferOrder(s.log.outcomes, Forwarded, s.log.offered);
  }

  lemma PrefixInOfferOrder(fs: seq<Tagged>, front: seq<Tagged>, offered: seq<Tagged>)
    requires InOfferOrder(fs, offered) && front <= fs
    ensures InOfferOrder(front, offered)
  {
    assert forall i :: 0 <= i < |front| ==> front[i] == fs[i];
  }

  /** Two producers can reach the overflow branch: when a full channel has been relieved
      by an eviction, the other producer's send takes the room. */
  lemma TwoProducersCanOverflow(bytes: seq<Byte>) returns (steps: seq<Step>)
    requires Admissible(bytes)
    ensures After(steps).Some? && After(steps).value.metrics.droppedOverflow == 1
    ensures AtMostPending(steps, 2)
  {
    var f := Tagged(MAX_BUFFER_SIZE, bytes);
    steps := Filled(MAX_BUFFER_SIZE, bytes);
    Extended(steps, Offer(bytes), 2);
    steps := steps + [Offer(bytes)];
    Extended(steps, Evict(f), 2);
    steps := steps + [Evict(f)];
    Extended(steps, Offer(bytes), 2);
    steps := steps + [Offer(bytes)];
    Extended(steps, Retry(f), 2);
    steps := steps + [Retry(f)];
  }

  /** At no point of the schedule are more than n producers inside a call. */
  ghost predicate AtMostPending(steps: seq<Step>, n: nat) {
    forall k :: 0 <= k <= |steps| ==> After(steps[..k]).Some? && |Pending(After(steps[..k]).value)| <= n
  }

  lemma Extended(steps: seq<Step>, step: Step, n: nat)
    requires After(steps).Some? && Enabled(After(steps).value, step) && AtMostPending(steps, n)
    requires |Pending(Next(After(steps).value, step))| <= n
    ensures AtMostPending(steps + [step], n)
    ensures After(steps + [step]) == Some(Next(After(steps).value, step))
  {
    hide Pending, Next, Enabled;
    var longer := steps + [step];
    assert longer[..|steps|] == steps && longer[..|longer|] == longer;
    forall k | 0 <= k <= |longer|
      ensures After(longer[..k]).Some? && |Pending(After(longer[..k]).value)| <= n
    {
      if k <= |steps| { assert longer[..k] == steps[..k]; }
    }
  }

  /** n calls in a row fill the channel with n frames. */
  lemma {:induction false} Filled(n: nat, bytes: seq<Byte>) returns (steps: seq<Step>)
    requires Admissible(bytes) && n <= MAX_BUFFER_SIZE
    ensures AtMostPending(steps, 2) && After(steps).Some?
    ensures var s := After(steps).value;
      && |s.buffer| == |s.log.offered| == n && Pending(s) == multiset{} && s.metrics.droppedOverflow == 0
  {
    steps := [];
    if n == 0 {
      assert AtMostPending([], 2);
    } else {
      hide After, AtMostPending;
      steps := Filled(n - 1, bytes);
      Extended(steps, Offer(bytes), 2);
      steps := steps + [Offer(bytes)];
    }
  }

  /** One frame through an idle writer: offered, received, and its write over. */
  lemma SentAlone(steps: seq<Step>, bytes: seq<Byte>, o: Outcome)
    requires IdleAlone(steps) && Admissible(bytes) && !o.NoConnection?
    ensures var s, longer := After(steps).value, steps + [Offer(bytes)] + [Receive] + [Finish(o)];
      var f := Tagged(|s.log.offered|, bytes);
      && IdleAlone(longer)
      && After(longer).value.log.offered == s.log.offered + [f]
      && After(longer).value.log.outcomes == s.log.outcomes + [Entry(f, o)]
  {
    Extended(steps, Offer(bytes), 0);
    Extended(steps + [Offer(bytes)], Receive, 0);
    Extended(steps + [Offer(bytes)] + [Receive], Finish(o), 0);
  }

  /** A connected writer that waits for frames and never had two calls at once. */
  ghost predicate IdleAlone(steps: seq<Step>) {
    && After(steps).Some? && AtMostPending(steps, 0)
    && var s := After(steps).value; s.conn && s.consumer.Waiting? && s.buffer == [] && Pending(s) == multiset{}
  }

  lemma JustConnected()
    ensures IdleAlone([Connect])
    ensures After([Connect]).value.log.offered == [] && After([Connect]).value.log.outcomes == []
  {
    assert AtMostPending([], 0);
    Extended([], Connect, 0);
    assert [] + [Connect] == [Connect];
  }

  lemma IdleAloneIsOneProducer(steps: seq<Step>)
    requires IdleAlone(steps)
    ensures OneProducer(steps)
  {
    NonePendingIsOneProducer(steps);
  }

  lemma NonePendingIsOneProducer(steps: seq<Step>)
    requires AtMostPending(steps, 0)
    ensures OneProducer(steps)
  {
    forall k | 0 <= k < |steps| && After(steps[..k]).Some?
      ensures Pending(After(steps[..k]).value) == multiset{}
    {
      assert |Pending(After(steps[..k]).value)| == 0;
    }
  }

  // ---------- the calls, uninterrupted ----------

  datatype SendError = ZeroLength | TooLarge | Overflow

  /** A send that nothing interrupts: one step, or three when the channel is full. */
  ghost predicate SentUninterrupted(before: State, frame: seq<Byte>, after: State, err: Option<SendError>)
    requires Admissible(frame)
  {
    var f := Tagged(|before.log.offered|, frame);
    var s := Next(before, Offer(frame));
    && (|before.buffer| < MAX_BUFFER_SIZE ==> after == s && err == None)
    && (|before.buffer| >= MAX_BUFFER_SIZE ==>
          && after == Next(Next(s, Evict(f)), Retry(f))
          && (err == None <==> |before.buffer| == MAX_BUFFER_SIZE))
  }

  /** The states a send that nothing interrupts goes through, written out. */
  lemma SendSteps(s: State, frame: seq<Byte>)
    requires Admissible(frame) && s.evicting == s.retrying == multiset{}
    ensures var f := Tagged(|s.log.offered|, frame);
      var t := s.(log := s.log.(offered := s.log.offered + [f]));
      var offered := Next(s, Offer(frame));
      if |s.buffer| < MAX_BUFFER_SIZE then offered == Enqueue(t, f)
      else
        && f in offered.evicting && f in Next(offered, Evict(f)).retrying
        && var u := Leave(t.(metrics := t.metrics.(droppedBackpressure := t.metrics.droppedBackpressure + 1)), Evicted);
        Next(Next(offered, Evict(f)), Retry(f)) ==
          if |u.buffer| < MAX_BUFFER_SIZE then Enqueue(u, f)
          else u.(metrics := u.metrics.(droppedOverflow := u.metrics.droppedOverflow + 1),
                  log := u.log.(overflowed := u.log.overflowed + [f]))
  {
    var f := Tagged(|s.log.offered|, frame);
    assert (multiset{} + multiset{f}) - multiset{f} == multiset{};
  }

  /** And those of a round of the loop. */
  lemma RoundSteps(s: State, o: Outcome)
    requires s.consumer.Waiting? && (s.closed || s.buffer != []) && (o.NoConnection? <==> !s.conn)
    ensures s.closed ==> Next(s, Stop) == s.(consumer := Stopped)
    ensures s.buffer != [] ==>
      Next(Next(s, Receive), Finish(o)) == s.(buffer := s.buffer[1..], metrics := Count(s.metrics, o),
        log := s.log.(left := s.log.left + [Entry(s.buffer[0], Received)],
                      outcomes := s.log.outcomes + [Entry(s.buffer[0], o)]))
  {
  }

  /** What a send that nothing interrupts comes to in any reachable state with nobody else
      inside a call: the frame is queued and no error returned; of a full queue of a thousand
      the oldest frame is dropped, and counted. */
  lemma SendExactly(steps: seq<Step>, frame: seq<Byte>, after: State, err: Option<SendError>)
    requires After(steps).Some? && Pending(After(steps).value) == multiset{} && 1 <= |frame| <= 16_777_220
    requires SentUninterrupted(After(steps).value, frame, after, err)
    ensures var s := After(steps).value;
      var f := Tagged(|s.log.offered|, frame);
      && err == None
      && after.log.offered == s.log.offered + [f] && after.log.enqueued == s.log.enqueued + [f]
      && (if |s.buffer| < 1000 then after.buffer == s.buffer + [f] && after.metrics == s.metrics
          else
            && after.buffer == s.buffer[1..] + [f]
            && after.log.left == s.log.left + [Entry(s.buffer[0], Evicted)]
            && after.metrics == s.metrics.(droppedBackpressure := s.metrics.droppedBackpressure + 1))
      && after.log.outcomes == s.log.outcomes && after.log.overflowed == s.log.overflowed
      && after.conn == s.conn && after.closed == s.closed && after.consumer == s.consumer
  {
    hide After, Next;
    var s := After(steps).value;
    InvAlways(steps);
    NonePending(s);
    SendSteps(s, frame);
  }

  lemma NonePending(s: State)
    requires Pending(s) == multiset{}
    ensures s.evicting == multiset{} && s.retrying == multiset{}
  {
    assert |Pending(s)| == |s.evicting| + |s.retrying|;
  }

  /** The sizes the writer lets through, and its bound, in figures. */
  lemma AdmissibleExactly(bytes: seq<Byte>)
    ensures Admissible(bytes) <==> 1 <= |bytes| <= 16_777_220
  {
  }

  lemma QueueBounded(steps: seq<Step>)
    ensures After(steps).Some? ==> |After(steps).value.buffer| <= 1000
  {
    InvAlways(steps);
  }

  /** The other steps: the loop starts with the connection, once, and not on a closed writer;
      it takes the oldest frame, and stops only when the writer is closed. */
  lemma LifecycleExactly(s: State)
    ensures Enabled(s, Connect) <==> s.consumer == NotStarted && !s.closed
    ensures Enabled(s, Connect) ==> Next(s, Connect) == s.(conn := true, consumer := Waiting)
    ensures Enabled(s, Close) && Next(s, Close) == s.(closed := true)
    ensures Enabled(s, Stop) <==> s.consumer == Waiting && s.closed
    ensures Enabled(s, Stop) ==> Next(s, Stop) == s.(consumer := Stopped)
    ensures Enabled(s, Receive) <==> s.consumer == Waiting && s.buffer != []
    ensures Enabled(s, Receive) ==>
      Next(s, Receive) == s.(buffer := s.buffer[1..], consumer := Sending(s.buffer[0]),
                             log := s.log.(left := s.log.left + [Entry(s.buffer[0], Received)]))
  {
  }

  /** And the producers' steps: a frame is queued where there is room; else its producer takes
      the oldest frame out, if there still is one, and tries once more. */
  lemma OfferExactly(s: State, bytes: seq<Byte>)
    ensures Enabled(s, Offer(bytes)) <==> 1 <= |bytes| <= 16_777_220
    ensures Enabled(s, Offer(bytes)) ==>
      var g := Tagged(|s.log.offered|, bytes);
      var t := s.(log := s.log.(offered := s.log.offered + [g]));
      Next(s, Offer(bytes)) ==
        if |s.buffer| < 1000 then t.(buffer := s.buffer + [g], log := t.log.(enqueued := t.log.enqueued + [g]))
        else t.(evicting := s.evicting + multiset{g})
  {
  }

  lemma EvictExactly(s: State, f: Tagged)
    ensures Enabled(s, Evict(f)) <==> f in s.evicting
    ensures Enabled(s, Evict(f)) ==>
      var t := s.(evicting := s.evicting - multiset{f}, retrying := s.retrying + multiset{f});
      Next(s, Evict(f)) ==
        if s.buffer == [] then t
        else t.(buffer := s.buffer[1..],
                metrics := s.metrics.(droppedBackpressure := s.metrics.droppedBackpressure + 1),
                log := s.log.(left := s.log.left + [Entry(s.buffer[0], Evicted)]))
  {
  }

  lemma RetryExactly(s: State, f: Tagged)
    ensures Enabled(s, Retry(f)) <==> f in s.retrying
    ensures Enabled(s, Retry(f)) ==>
      var t := s.(retrying := s.retrying - multiset{f});
      Next(s, Retry(f)) ==
        if |s.buffer| < 1000 then t.(buffer := s.buffer + [f], log := s.log.(enqueued := s.log.enqueued + [f]))
        else t.(metrics := s.metrics.(droppedOverflow := s.metrics.droppedOverflow + 1),
                log := s.log.(overflowed := s.log.overflowed + [f]))
  {
  }

  /** The end of a write: without a connection in one way only. */
  lemma FinishExactly(s: State, o: Outcome)
    ensures Enabled(s, Finish(o)) <==> s.consumer.Sending? && (o == NoConnection <==> !s.conn)
    ensures Enabled(s, Finish(o)) ==>
      Next(s, Finish(o)) == s.(consumer := Waiting, metrics := Next(s, Finish(o)).metrics,
                               log := s.log.(outcomes := s.log.outcomes + [Entry(s.consumer.frame, o)]))
  {
  }

  /** One producer: whenever it offers, nobody is inside a call. */
  lemma OneProducerExactly(steps: seq<Step>)
    ensures OneProducer(steps) <==> forall k :: 0 <= k < |steps| && steps[k].Offer? && After(steps[..k]).Some? ==>
      After(steps[..k]).value.evicting == multiset{} && After(steps[..k]).value.retrying == multiset{}
  {
    hide After;
    forall k | 0 <= k < |steps| && After(steps[..k]).Some?
      ensures Pending(After(steps[..k]).value) == multiset{} <==>
        After(steps[..k]).value.evicting == multiset{} && After(steps[..k]).value.retrying == multiset{}
    {
      if Pending(After(steps[..k]).value) == multiset{} { NonePending(After(steps[..k]).value); }
    }
  }

  /** And nothing gets stuck: when the writes succeed, the loop forwards all that is queued,
      in order. */
  lemma {:induction false} LoopDrains(steps: seq<Step>) returns (longer: seq<Step>)
    requires After(steps).Some? && After(steps).value.conn && After(steps).value.consumer == Waiting
    ensures steps <= longer && After(longer).Some?
    ensures forall i :: |steps| <= i < |longer| ==> longer[i] == Receive || longer[i] == Finish(Forwarded)
    ensures var s, s' := After(steps).value, After(longer).value;
      && s'.buffer == [] && s'.consumer == Waiting && s'.log.offered == s.log.offered
      && Of(s'.log.outcomes, Forwarded) == Of(s.log.outcomes, Forwarded) + s.buffer
      && s'.metrics.forwarded == s.metrics.forwarded + |s.buffer|
    decreases |After(steps).value.buffer|
  {
    hide Of, After;
    var s := After(steps).value;
    if s.buffer == [] {
      longer := steps;
      assert Of(s.log.outcomes, Forwarded) + [] == Of(s.log.outcomes, Forwarded);
    } else {
      var next := Onward(Onward(steps, Receive), Finish(Forwarded));
      OfAppend(s.log.outcomes, Entry(s.buffer[0], Forwarded), Forwarded);
      longer := LoopDrains(next);
      Rejoined(Of(s.log.outcomes, Forwarded), s.buffer);
    }
  }

  function Onward(steps: seq<Step>, step: Step): (longer: seq<Step>)
    requires After(steps).Some? && Enabled(After(steps).value, step)
    ensures longer == steps + [step] && After(longer) == Some(Next(After(steps).value, step))
  {
    assert (steps + [step])[..|steps|] == steps;
    steps + [step]
  }

  lemma Rejoined(front: seq<Tagged>, buffer: seq<Tagged>)
    requires buffer != []
    ensures (front + [buffer[0]]) + buffer[1..] == front + buffer
  {
  }

  /** The writer's own fields. One call at a time is in progress here, so evicting and
      retrying are empty between calls. */
  class Writer {
    var conn: bool
    var closed: bool
    var consumer: Consumer
    var buffer: seq<Tagged>
    var metrics: Metrics
    var log: Log

    ghost function View(): State
      reads this
    {
      State(conn, closed, consumer, buffer, multiset{}, multiset{}, metrics, log)
    }

    constructor ()
      ensures View() == INIT
    {
      conn, closed, consumer, buffer := false, false, NotStarted, [];
      metrics, log := Metrics(0, 0, 0, 0, 0, 0), Log([], [], [], [], []);
    }

    method WriteRaw(frame: seq<Byte>) returns (err: Option<SendError>)
      modifies this
      ensures !(1 <= |frame| <= 16_777_220) ==>
        && View() == old(View())
        && err == Some(if frame == [] then ZeroLength else TooLarge)
      ensures 1 <= |frame| <= 16_777_220 ==> SentUninterrupted(old(View()), frame, View(), err)
    {
      if |frame| == 0 {
        return Some(ZeroLength);
      }
      if |frame| > MAX_FRAME_SIZE + 4 {
        return Some(TooLarge);
      }
      err := Send(frame);
    }

    method Write(payload: seq<Byte>) returns (err: Option<SendError>)
      modifies this
      ensures payload == [] ==> View() == old(View()) && err == Some(ZeroLength)
      ensures |payload| > 16_777_216 ==> View() == old(View()) && err == Some(TooLarge)
      ensures 0 < |payload| <= 16_777_216 ==>
        var frame := Frame.LengthPrefixed(payload);
        && Admissible(frame)
        && SentUninterrupted(old(View()), frame, View(), err)
    {
      if |payload| == 0 {
        return Some(ZeroLength);
      }
      if |payload| > MAX_FRAME_SIZE {
        return Some(TooLarge);
      }
      var frame := Frame.SerializeFrame(payload);
      err := Send(frame[..]);
    }

    method Send(frame: seq<Byte>) returns (err: Option<SendError>)
      requires Admissible(frame)
      modifies this
      ensures SentUninterrupted(old(View()), frame, View(), err)
    {
      hide Next;
      SendSteps(View(), frame);
      var f := Tagged(|log.offered|, frame);
      log := log.(offered := log.offered + [f]);
      if |buffer| < MAX_BUFFER_SIZE {
        buffer, log := buffer + [f], log.(enqueued := log.enqueued + [f]);
        return None;
      }
      if |buffer| > 0 {
        log := log.(left := log.left + [Entry(buffer[0], Evicted)]);
        buffer := buffer[1..];
        metrics := metrics.(droppedBackpressure := metrics.droppedBackpressure + 1);
      }
      if |buffer| < MAX_BUFFER_SIZE {
        buffer, log := buffer + [f], log.(enqueued := log.enqueued + [f]);
        err := None;
      } else {
        metrics := metrics.(droppedOverflow := metrics.droppedOverflow + 1);
        log := log.(overflowed := log.overflowed + [f]);
        err := Some(Overflow);
      }
    }

    /** One round of writeLoop's select; wroteAll and failed are what conn.Write reports. */
    method WriteLoopRound(preferDone: bool, failed: bool, wroteAll: bool) returns (running: bool)
      requires consumer.Waiting? && (closed || buffer != [])
      modifies this
      ensures running <==> !(old(closed) && (preferDone || old(buffer) == []))
      ensures !running ==> View() == Next(old(View()), Stop)
      ensures running ==> View() == Next(Next(old(View()), Receive),
        Finish(if !old(conn) then NoConnection else if failed then WriteError else if wroteAll then Forwarded else PartialWrite))
    {
      hide Next;
      ghost var outcome := if !conn then NoConnection else if failed then WriteError else if wroteAll then Forwarded else PartialWrite;
      RoundSteps(View(), outcome);
      if closed && (preferDone || buffer == []) {
        consumer := Stopped;
        return false;
      }
      var frame := buffer[0];
      log := log.(left := log.left + [Entry(frame, Received)]);
      buffer := buffer[1..];
      if !conn {
        metrics := metrics.(droppedNoConnection := metrics.droppedNoConnection + 1);
        log := log.(outcomes := log.outcomes + [Entry(frame, NoConnection)]);
        return true;
      }
      if failed {
        metrics := metrics.(writeErrors := metrics.writeErrors + 1);
        log := log.(outcomes := log.outcomes + [Entry(frame, WriteError)]);
        return true;
      }
      if !wroteAll {
        metrics := metrics.(partialWrites := metrics.partialWrites + 1);
        log := log.(outcomes := log.outcomes + [Entry(frame, PartialWrite)]);
        return true;
      }
      metrics := metrics.(forwarded := metrics.forwarded + 1);
      log := log.(outcomes := log.outcomes + [Entry(frame, Forwarded)]);
      return true;
    }
  }
}
