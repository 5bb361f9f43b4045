/** The NATS router of the message broker: publish now or buffer, and flush later. */
module MessageRouter {
  import opened DropOldest
  import opened Wrappers

  const DEFAULT_SIZE: nat := 1000

  /** A validated message and the number of the Route call that brought it. */
  datatype Message = Message(id: nat, path: string, envelope: string)

  /** What natsPublish answers; Expired stands for a deadline or a cancelled context. */
  datatype Answer = Delivered | Expired | Failed

  /** Where routed messages went. */
  datatype Log = Log(routed: seq<Message>, published: seq<Message>, evicted: seq<Message>, timedOut: seq<Message>)

  datatype State = State(buffer: seq<Message>, log: Log)

  datatype RouteError = NilMessage | Timeout

  // ---------- the buffer ----------

  class Buffer {
    var messages: seq<Message>
    const maxSize: nat

    ghost predicate Valid() reads this { maxSize > 0 && |messages| <= maxSize }

    constructor (maxSize: int)
      ensures Valid() && messages == []
      ensures this.maxSize == if maxSize <= 0 then 1000 else maxSize
    {
      this.maxSize := if maxSize <= 0 then DEFAULT_SIZE else maxSize;
      messages := [];
    }

    method Add(msg: Message) returns (ghost dropped: seq<Message>)
      requires Valid()
      modifies this
      ensures Valid()
      ensures dropped == Oldest(old(messages), maxSize)
      ensures dropped + messages == old(messages) + [msg]
    {
      dropped := [];
      if |messages| >= maxSize {
        dropped := messages[..1];
        messages := messages[1..];
      }
      messages := messages + [msg];
    }

    method Drain() returns (msgs: seq<Message>)
      requires Valid()
      modifies this
      ensures Valid() && msgs == old(messages) && messages == []
    {
      if |messages| == 0 {
        return [];
      }
      msgs := messages;
      messages := [];
    }
  }

  // ---------- what a call does ----------

  function Buffered(s: State, m: Message): (s': State)
  {
    var dropped := Oldest(s.buffer, DEFAULT_SIZE);
    State(s.buffer[|dropped|..] + [m], s.log.(evicted := s.log.evicted + dropped))
  }

  function Routed(s: State, m: Message, publisher: bool, answer: Answer): (s': State)
  {
    var t := s.(log := s.log.(routed := s.log.routed + [m]));
    if !publisher || answer.Failed? then Buffered(t, m)
    else if answer.Delivered? then t.(log := t.log.(published := t.log.published + [m]))
    else t.(log := t.log.(timedOut := t.log.timedOut + [m]))
  }

  /** Where a routed message goes, by the answer: published on a delivery, dropped on a
      timeout, which is reported, and else at the end of the buffer, in whose place the
      oldest of a thousand leaves. */
  lemma RouteExactly(s: State, m: Message, publisher: bool, answer: Answer)
    ensures var s' := Routed(s, m, publisher, answer);
      && s'.log.routed == s.log.routed + [m]
      && s'.log.published == s.log.published + (if publisher && answer == Delivered then [m] else [])
      && s'.log.timedOut == s.log.timedOut + (if publisher && answer == Expired then [m] else [])
      && (publisher && answer != Failed ==> s'.buffer == s.buffer && s'.log.evicted == s.log.evicted)
      && (!publisher || answer == Failed ==>
            if |s.buffer| < 1000 then s'.buffer == s.buffer + [m] && s'.log.evicted == s.log.evicted
            else s'.buffer == s.buffer[1..] + [m] && s'.log.evicted == s.log.evicted + [s.buffer[0]])
  {
    assert s.log.published + [] == s.log.published && s.log.timedOut + [] == s.log.timedOut;
    assert s.log.evicted + [] == s.log.evicted;
  }

  /** The messages whose attempt was answered with a delivery, or was not; attempt i is
      that of the i-th message. */
  function Answered(msgs: seq<Message>, answers: nat -> Answer, delivered: bool): (r: seq<Message>)
  {
    if msgs == [] then [] else
      var front, n := Answered(msgs[..|msgs| - 1], answers, delivered), |msgs| - 1;
      if answers(n).Delivered? == delivered then front + [msgs[n]] else front
  }

  function Flushed(s: State, publisher: bool, answers: nat -> Answer): (s': State)
  {
    if !publisher then s else
      State(Answered(s.buffer, answers, false),
            s.log.(published := s.log.published + Answered(s.buffer, answers, true)))
  }

  lemma {:induction false} AnsweredPartition(msgs: seq<Message>, answers: nat -> Answer)
    ensures |Answered(msgs, answers, true)| + |Answered(msgs, answers, false)| == |msgs|
    ensures multiset(msgs) == multiset(Answered(msgs, answers, true)) + multiset(Answered(msgs, answers, false))
  {
    if msgs != [] {
      AnsweredPartition(msgs[..|msgs| - 1], answers);
      assert msgs == msgs[..|msgs| - 1] + [msgs[|msgs| - 1]];
    }
  }

  /** A flush by its answers: when all are deliveries everything is published and nothing
      stays, when none is nothing changes, and without a publisher nothing does either. */
  lemma FlushExactly(s: State, publisher: bool, answers: nat -> Answer)
    ensures !publisher ==> Flushed(s, publisher, answers) == s
    ensures publisher && (forall i :: 0 <= i < |s.buffer| ==> answers(i) == Delivered) ==>
      Flushed(s, publisher, answers) == State([], s.log.(published := s.log.published + s.buffer))
    ensures (forall i :: 0 <= i < |s.buffer| ==> answers(i) != Delivered) ==> Flushed(s, publisher, answers) == s
  {
    hide Answered;
    if forall i :: 0 <= i < |s.buffer| ==> answers(i) == Delivered { AllAnswered(s.buffer, answers, true); }
    if forall i :: 0 <= i < |s.buffer| ==> answers(i) != Delivered { AllAnswered(s.buffer, answers, false); }
    assert s.log.published + [] == s.log.published;
  }

  lemma {:induction false} AllAnswered(msgs: seq<Message>, answers: nat -> Answer, delivered: bool)
    requires forall i :: 0 <= i < |msgs| ==> answers(i).Delivered? == delivered
    ensures Answered(msgs, answers, delivered) == msgs && Answered(msgs, answers, !delivered) == []
  {
    if msgs != [] {
      var front, n := msgs[..|msgs| - 1], |msgs| - 1;
      AllAnswered(front, answers, delivered);
      assert answers(n).Delivered? == delivered;
      assert msgs == front + [msgs[n]];
    }
  }

  /** The last of the first n answers that is not a delivery. */
  function LastError(n: nat, answers: nat -> Answer): (e: Option<Answer>)
    ensures e.None? ==> forall i :: 0 <= i < n ==> answers(i).Delivered?
    ensures e.Some? ==> (
      && !e.value.Delivered?
      && exists i :: 0 <= i < n && answers(i) == e.value && forall j :: i < j < n ==> answers(j).Delivered?)
  {
    if n == 0 then None else if !answers(n - 1).Delivered? then Some(answers(n - 1)) else LastError(n - 1, answers)
  }

  lemma NothingAnswered(answers: nat -> Answer)
    ensures Answered([], answers, true) == [] && Answered([], answers, false) == []
    ensures LastError(0, answers) == None
  {
  }

  lemma NextAnswered(msgs: seq<Message>, m: Message, answers: nat -> Answer)
    ensures var (ok, failed) := (Answered(msgs, answers, true), Answered(msgs, answers, false));
      && Answered(msgs + [m], answers, true) == (if answers(|msgs|).Delivered? then ok + [m] else ok)
      && Answered(msgs + [m], answers, false) == (if answers(|msgs|).Delivered? then failed else failed + [m])
    ensures LastError(|msgs| + 1, answers)
         == if answers(|msgs|).Delivered? then LastError(|msgs|, answers) else Some(answers(|msgs|))
  {
    assert (msgs + [m])[..|msgs|] == msgs;
  }

  lemma OneMoreAnswered(msgs: seq<Message>, i: nat, answers: nat -> Answer)
    requires i < |msgs|
    ensures msgs[..i + 1] == msgs[..i] + [msgs[i]]
    ensures var ok, failed := Answered(msgs[..i], answers, true), Answered(msgs[..i], answers, false);
      if answers(i).Delivered? then
        && Answered(msgs[..i + 1], answers, true) == ok + [msgs[i]] && Answered(msgs[..i + 1], answers, false) == failed
        && LastError(i + 1, answers) == LastError(i, answers)
      else
        && Answered(msgs[..i + 1], answers, true) == ok && Answered(msgs[..i + 1], answers, false) == failed + [msgs[i]]
        && LastError(i + 1, answers) == Some(answers(i))
  {
    hide Answered, LastError;
    assert msgs[..i + 1] == msgs[..i] + [msgs[i]];
    NextAnswered(msgs[..i], msgs[i], answers);
  }

  class Router {
    const buffer: Buffer
    const publisher: bool
    ghost var log: Log

    ghost predicate Valid()
      reads this, buffer
    {
      buffer.Valid() && buffer.maxSize == DEFAULT_SIZE
    }

    ghost function View(): State
      reads this, buffer
    {
      State(buffer.messages, log)
    }

    constructor (publisher: bool)
      ensures Valid() && fresh(buffer) && this.publisher == publisher
      ensures View() == State([], Log([], [], [], []))
    {
      buffer := new Buffer(1000);
      this.publisher := publisher;
      log := Log([], [], [], []);
    }

    /** answer is what natsPublish says if it is called. */
    method Route(msg: Option<Message>, answer: Answer) returns (err: Option<RouteError>)
      requires Valid()
      modifies this, buffer
      ensures Valid()
      ensures msg.None? ==> View() == old(View()) && err == Some(NilMessage)
      ensures msg.Some? ==> View() == Routed(old(View()), msg.value, publisher, answer)
      ensures msg.Some? ==> err == if publisher && answer == Expired then Some(Timeout) else None
    {
      if msg.None? {
        return Some(NilMessage);
      }
      ghost var before := buffer.messages;
      log := log.(routed := log.routed + [msg.value]);
      if publisher {
        if answer.Delivered? {
          log := log.(published := log.published + [msg.value]);
          return None;
        }
        if answer.Expired? {
          log := log.(timedOut := log.timedOut + [msg.value]);
          return Some(Timeout);
        }
      }
      ghost var dropped := buffer.Add(msg.value);
      log := log.(evicted := log.evicted + dropped);
      assert buffer.messages == (dropped + buffer.messages)[|dropped|..];
      assert before[|dropped|..] + [msg.value] == (before + [msg.value])[|dropped|..];
      return None;
    }

    /** Every drained message is tried once, in order, and afterwards the buffer is exactly
        the failed ones, in order: the re-buffering drops nothing. */
    method Flush(answers: nat -> Answer) returns (attempts: seq<Message>, lastErr: Option<Answer>)
      requires Valid()
      modifies this, buffer
      ensures Valid()
      ensures View() == Flushed(old(View()), publisher, answers)
      ensures attempts == if publisher then old(buffer.messages) else []
      ensures lastErr == if publisher then LastError(|old(buffer.messages)|, answers) else None
    {
      hide Answered, LastError;
      attempts, lastErr := [], None;
      NothingAnswered(answers);
      var msgs := buffer.Drain();
      if |msgs| == 0 {
        return;
      }
      ghost var published := log.published;
      for i := 0 to |msgs|
        invariant Valid() && |buffer.messages| <= i
        invariant buffer.messages == if publisher then Answered(msgs[..i], answers, false) else msgs[..i]
        invariant log == old(log).(published := published + if publisher then Answered(msgs[..i], answers, true) else [])
        invariant attempts == if publisher then msgs[..i] else []
        invariant lastErr == if publisher then LastError(i, answers) else None
      {
        OneMoreAnswered(msgs, i, answers);
        if !publisher {
          ghost var dropped := buffer.Add(msgs[i]);
          continue;
        }
        attempts := attempts + [msgs[i]];
        var answer := answers(i);
        if !answer.Delivered? {
          lastErr := Some(answer);
          ghost var dropped := buffer.Add(msgs[i]);
        } else {
          log := log.(published := log.published + [msgs[i]]);
        }
      }
      assert msgs[..|msgs|] == msgs;
    }
  }

  // ---------- whole runs ----------

  datatype Call = RouteCall(path: string, envelope: string, answer: Answer) | FlushCall(answers: nat -> Answer)

  function After(publisher: bool, calls: seq<Call>): (s: State)
  {
    if calls == [] then State([], Log([], [], [], [])) else
      var s := After(publisher, calls[..|calls| - 1]);
      match calls[|calls| - 1]
      case RouteCall(path, envelope, answer) =>
        Routed(s, Message(|s.log.routed|, path, envelope), publisher, answer)
      case FlushCall(answers) => Flushed(s, publisher, answers)
  }

  /** The messages of the calls that reported a timeout, in order. */
  function ReportedTimeouts(publisher: bool, calls: seq<Call>): (msgs: seq<Message>)
  {
    if calls == [] then [] else
      var front, last := calls[..|calls| - 1], calls[|calls| - 1];
      ReportedTimeouts(publisher, front) +
        if publisher && last.RouteCall? && last.answer.Expired?
        then [Message(|After(publisher, front).log.routed|, last.path, last.envelope)] else []
  }

  /** Over every run the messages given up are exactly those reported as timed out. */
  lemma {:induction false} TimedOutAreReported(publisher: bool, calls: seq<Call>)
    ensures After(publisher, calls).log.timedOut == ReportedTimeouts(publisher, calls)
  {
    if calls != [] {
      TimedOutAreReported(publisher, calls[..|calls| - 1]);
      assert ReportedTimeouts(publisher, calls[..|calls| - 1]) + [] == ReportedTimeouts(publisher, calls[..|calls| - 1]);
    }
  }

  /** The message of the i-th call is given up if and only if that call reported a timeout,
      whatever came before and after. */
  lemma {:induction false} GivenUpExactly(publisher: bool, calls: seq<Call>, i: nat)
    requires i < |calls| && calls[i].RouteCall?
    ensures var m := Message(|After(publisher, calls[..i]).log.routed|, calls[i].path, calls[i].envelope);
      m in After(publisher, calls).log.timedOut <==> publisher && calls[i].answer == Expired
    ensures |After(publisher, calls[..i]).log.routed| < |After(publisher, calls).log.routed|
    decreases |calls|
  {
    var n := |calls| - 1;
    var front := calls[..n];
    if i == n {
      TimedOutBefore(publisher, front);
    } else {
      GivenUpExactly(publisher, front, i);
      assert front[..i] == calls[..i];
    }
  }

  lemma {:induction false} TimedOutBefore(publisher: bool, calls: seq<Call>)
    ensures forall m :: m in After(publisher, calls).log.timedOut ==> m.id < |After(publisher, calls).log.routed|
  {
    if calls != [] {
      TimedOutBefore(publisher, calls[..|calls| - 1]);
    }
  }

  function Count(msgs: seq<Message>, m: Message): (n: nat) {
    multiset(msgs)[m]
  }

  /** The number of places a message is found in. */
  function Places(s: State, m: Message): (n: nat) {
    Count(s.buffer, m) + Count(s.log.published, m) + Count(s.log.evicted, m) + Count(s.log.timedOut, m)
  }

  ghost predicate Conserved(s: State) {
    && (forall m :: Places(s, m) == Count(s.log.routed, m))
    && forall i :: 0 <= i < |s.log.routed| ==> s.log.routed[i].id == i
  }

  lemma AppendCount(a: seq<Message>, b: seq<Message>, m: Message)
    ensures Count(a + b, m) == Count(a, m) + Count(b, m)
  {
  }

  lemma BufferedCount(buffer: seq<Message>, m: Message, x: Message)
    ensures var dropped := Oldest(buffer, DEFAULT_SIZE);
      Count(buffer[|dropped|..] + [m], x) + Count(dropped, x) == Count(buffer, x) + Count([m], x)
  {
    hide Count;
    var dropped := Oldest(buffer, DEFAULT_SIZE);
    AppendCount(dropped, buffer[|dropped|..], x);
    AppendCount(buffer[|dropped|..], [m], x);
    assert buffer == dropped + buffer[|dropped|..];
  }

  lemma RoutePlaces(s: State, m: Message, publisher: bool, answer: Answer, x: Message)
    requires Places(s, x) == Count(s.log.routed, x)
    ensures var s' := Routed(s, m, publisher, answer); Places(s', x) == Count(s'.log.routed, x)
  {
    hide Count;
    AppendCount(s.log.routed, [m], x);
    AppendCount(s.log.published, [m], x);
    AppendCount(s.log.timedOut, [m], x);
    AppendCount(s.log.evicted, Oldest(s.buffer, DEFAULT_SIZE), x);
    BufferedCount(s.buffer, m, x);
  }

  lemma RouteConserves(s: State, m: Message, publisher: bool, answer: Answer)
    requires Conserved(s) && m.id == |s.log.routed|
    ensures Conserved(Routed(s, m, publisher, answer))
  {
    hide Count, Places;
    var s' := Routed(s, m, publisher, answer);
    assert s'.log.routed == s.log.routed + [m];
    forall x
      ensures Places(s', x) == Count(s'.log.routed, x)
    {
      assert Places(s, x) == Count(s.log.routed, x);
      RoutePlaces(s, m, publisher, answer, x);
    }
  }

  lemma FlushPlaces(s: State, publisher: bool, answers: nat -> Answer, x: Message)
    ensures Places(Flushed(s, publisher, answers), x) == Places(s, x)
  {
    AnsweredPartition(s.buffer, answers);
    AppendCount(s.log.published, Answered(s.buffer, answers, true), x);
  }

  lemma FlushConserves(s: State, publisher: bool, answers: nat -> Answer)
    requires Conserved(s)
    ensures Conserved(Flushed(s, publisher, answers))
  {
    hide Count, Places;
    var s' := Flushed(s, publisher, answers);
    forall x
      ensures Places(s', x) == Count(s'.log.routed, x)
    {
      assert Places(s, x) == Count(s.log.routed, x);
      FlushPlaces(s, publisher, answers, x);
    }
  }

  lemma {:induction false} AlwaysConserved(publisher: bool, calls: seq<Call>)
    ensures Conserved(After(publisher, calls))
  {
    if calls != [] {
      var s := After(publisher, calls[..|calls| - 1]);
      AlwaysConserved(publisher, calls[..|calls| - 1]);
      match calls[|calls| - 1]
      case RouteCall(path, envelope, answer) =>
        RouteConserves(s, Message(|s.log.routed|, path, envelope), publisher, answer);
      case FlushCall(answers) => FlushConserves(s, publisher, answers);
    }
  }

  lemma {:induction false} RoutedOnce(routed: seq<Message>, i: nat)
    requires i < |routed| && forall k :: 0 <= k < |routed| ==> routed[k].id == k
    ensures Count(routed, routed[i]) == 1
  {
    var front, last := routed[..|routed| - 1], routed[|routed| - 1];
    assert routed == front + [last];
    if i < |front| {
      RoutedOnce(front, i);
    } else {
      assert last !in front;
    }
  }

  /** Over any run of Route and Flush, each routed message is exactly one of published,
      buffered, evicted, or reported as a timeout. */
  lemma EachMessageInOnePlace(publisher: bool, calls: seq<Call>, i: nat)
    requires i < |After(publisher, calls).log.routed|
    ensures var s := After(publisher, calls);
      var m := s.log.routed[i];
      multiset(s.buffer)[m] + multiset(s.log.published)[m] + multiset(s.log.evicted)[m] + multiset(s.log.timedOut)[m] == 1
  {
    AlwaysConserved(publisher, calls);
    RoutedOnce(After(publisher, calls).log.routed, i);
  }

  ghost predicate Increasing(msgs: seq<Message>) {
    forall i, j :: 0 <= i < j < |msgs| ==> msgs[i].id < msgs[j].id
  }

  /** Increasing, and all below bound. */
  ghost predicate OrderedBelow(msgs: seq<Message>, bound: nat) {
    Increasing(msgs) && forall i :: 0 <= i < |msgs| ==> msgs[i].id < bound
  }

  lemma OrderedSnoc(msgs: seq<Message>, m: Message, bound: nat)
    ensures OrderedBelow(msgs + [m], bound) <==> OrderedBelow(msgs, m.id) && m.id < bound
  {
    var all := msgs + [m];
    assert all[|msgs|] == m && forall i :: 0 <= i < |msgs| ==> all[i] == msgs[i];
    if OrderedBelow(all, bound) {
      forall i, j | 0 <= i < j < |msgs|
        ensures msgs[i].id < msgs[j].id
      {
        assert all[i].id < all[j].id;
      }
    }
  }

  lemma OrderedHigher(msgs: seq<Message>, bound: nat, higher: nat)
    requires OrderedBelow(msgs, bound) && bound <= higher
    ensures OrderedBelow(msgs, higher)
  {
  }

  lemma {:induction false} AnsweredKeepsOrder(before: seq<Message>, msgs: seq<Message>, answers: nat -> Answer, bound: nat)
    requires OrderedBelow(before + msgs, bound)
    ensures OrderedBelow(before + Answered(msgs, answers, false), bound)
  {
    if msgs != [] {
      hide OrderedBelow;
      var front, last := msgs[..|msgs| - 1], msgs[|msgs| - 1];
      assert before + msgs == (before + front) + [last];
      OrderedSnoc(before + front, last, bound);
      AnsweredKeepsOrder(before, front, answers, last.id);
      var kept := before + Answered(front, answers, false);
      OrderedSnoc(kept, last, bound);
      OrderedHigher(kept, last.id, bound);
      assert before + (Answered(front, answers, false) + [last]) == kept + [last];
    }
  }

  ghost predicate InRoutingOrder(s: State) {
    |s.buffer| <= DEFAULT_SIZE && OrderedBelow(s.log.evicted + s.buffer, |s.log.routed|)
  }

  lemma RouteKeepsOrder(s: State, m: Message, publisher: bool, answer: Answer)
    requires InRoutingOrder(s) && m.id == |s.log.routed|
    ensures InRoutingOrder(Routed(s, m, publisher, answer))
  {
    hide OrderedBelow;
    var dropped := Oldest(s.buffer, DEFAULT_SIZE);
    assert (s.log.evicted + dropped) + (s.buffer[|dropped|..] + [m]) == (s.log.evicted + s.buffer) + [m];
    OrderedSnoc(s.log.evicted + s.buffer, m, |s.log.routed| + 1);
    OrderedHigher(s.log.evicted + s.buffer, |s.log.routed|, |s.log.routed| + 1);
  }

  lemma FlushKeepsOrder(s: State, publisher: bool, answers: nat -> Answer)
    requires InRoutingOrder(s)
    ensures InRoutingOrder(Flushed(s, publisher, answers))
  {
    hide OrderedBelow, Answered;
    AnsweredPartition(s.buffer, answers);
    AnsweredKeepsOrder(s.log.evicted, s.buffer, answers, |s.log.routed|);
  }

  /** What is evicted is always the oldest message still buffered: the evicted ones, then
      the buffered ones, are in the order in which they were routed. */
  lemma {:induction false} EvictedAreOldest(publisher: bool, calls: seq<Call>)
    ensures var s := After(publisher, calls);
      && |s.buffer| <= 1000
      && (forall i, j :: 0 <= i < j < |s.log.evicted + s.buffer| ==>
            (s.log.evicted + s.buffer)[i].id < (s.log.evicted + s.buffer)[j].id)
      && forall i :: 0 <= i < |s.log.evicted + s.buffer| ==> (s.log.evicted + s.buffer)[i].id < |s.log.routed|
  {
    AlwaysInRoutingOrder(publisher, calls);
  }

  lemma {:induction false} AlwaysInRoutingOrder(publisher: bool, calls: seq<Call>)
    ensures InRoutingOrder(After(publisher, calls))
  {
    if calls != [] {
      var s := After(publisher, calls[..|calls| - 1]);
      AlwaysInRoutingOrder(publisher, calls[..|calls| - 1]);
      hide InRoutingOrder, Routed, Flushed;
      match calls[|calls| - 1]
      case RouteCall(path, envelope, answer) =>
        RouteKeepsOrder(s, Message(|s.log.routed|, path, envelope), publisher, answer);
      case FlushCall(answers) => FlushKeepsOrder(s, publisher, answers);
    }
  }
}
