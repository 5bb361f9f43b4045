/** The channel transport and the per-topic buffers behind /publish and /subscribe. */
module ChannelBroker {
  import opened DropOldest
  import opened Wrappers

  const CHANNEL_CAPACITY: nat := 1024
  const BUFFER_SIZE: nat := 1024

  type Data = seq<int>
  type Channel = seq<Data>

  datatype PublishError = TransportClosed | BufferFull

  // ---------- the transport ----------

  /** The first channel without room, the number of channels if all have some. */
  function FirstFull(channels: seq<Channel>): (k: nat)
    ensures k <= |channels|
    ensures forall i :: 0 <= i < k ==> |channels[i]| < CHANNEL_CAPACITY
    ensures k < |channels| ==> |channels[k]| >= CHANNEL_CAPACITY
  {
    if channels == [] || |channels[0]| >= CHANNEL_CAPACITY then 0 else 1 + FirstFull(channels[1..])
  }

  /** The channels after a publish: those before the first full one have the message. */
  function Reached(channels: seq<Channel>, data: Data): (r: seq<Channel>)
    ensures |r| == |channels|
    ensures forall i :: 0 <= i < |r| ==>
      r[i] == if i < FirstFull(channels) then channels[i] + [data] else channels[i]
  {
    var k := FirstFull(channels);
    seq(|channels|, i requires 0 <= i < |channels| => if i < k then channels[i] + [data] else channels[i])
  }

  /** The loop stops where the first full channel is. */
  lemma AllReached(before: seq<Channel>, after: seq<Channel>, k: nat, data: Data)
    requires |after| == |before| && k <= |before| && (k < |before| ==> |before[k]| >= CHANNEL_CAPACITY)
    requires forall j :: 0 <= j < k ==> |before[j]| < CHANNEL_CAPACITY && after[j] == before[j] + [data]
    requires forall j :: k <= j < |before| ==> after[j] == before[j]
    ensures FirstFull(before) == k && after == Reached(before, data)
  {
    hide Reached;
    assert FirstFull(before) == k;
  }

  class ChannelTransport {
    var subs: map<string, seq<Channel>>
    var closed: bool

    constructor ()
      ensures subs == map[] && !closed
    {
      subs, closed := map[], false;
    }

    /** A publish reaches a prefix of the subscriber list: the channels before the first
        full one. It returns nil exactly when that is all of them, also when there are
        none. A closed transport refuses it. */
    method Publish(topic: string, data: Data) returns (err: Option<PublishError>)
      modifies this`subs
      ensures closed ==> err == Some(TransportClosed) && subs == old(subs)
      ensures !closed && topic !in old(subs) ==> err == None && subs == old(subs)
      ensures !closed && topic in old(subs) ==>
        var before := old(subs)[topic];
        && subs == old(subs)[topic := Reached(before, data)]
        && err == (if FirstFull(before) == |before| then None else Some(BufferFull))
    {
      if closed {
        return Some(TransportClosed);
      }
      if topic !in subs {
        return None;
      }
      var channels := subs[topic];
      ghost var before := channels;
      var i := 0;
      while i < |channels|
        invariant i <= |channels| == |before|
        invariant forall j :: 0 <= j < i ==> |before[j]| < CHANNEL_CAPACITY && channels[j] == before[j] + [data]
        invariant forall j :: i <= j < |before| ==> channels[j] == before[j]
        invariant subs == old(subs)
      {
        if |channels[i]| >= CHANNEL_CAPACITY {
          AllReached(before, channels, i, data);
          subs := subs[topic := channels];
          return Some(BufferFull);
        }
        channels := channels[i := channels[i] + [data]];
        i := i + 1;
      }
      AllReached(before, channels, i, data);
      subs := subs[topic := channels];
      return None;
    }

    method Subscribe(topic: string)
      modifies this`subs
      ensures subs == old(subs)[topic := (if topic in old(subs) then old(subs)[topic] else []) + [[]]]
    {
      subs := subs[topic := (if topic in subs then subs[topic] else []) + [[]]];
    }

    method Close()
      modifies this`closed
      ensures closed
    {
      closed := true;
    }
  }

  // ---------- the topic buffer ----------

  class SubscriberBuffer {
    var messages: seq<Data>
    const maxSize: nat

    constructor (maxSize: nat)
      ensures messages == [] && this.maxSize == maxSize
    {
      messages := [];
      this.maxSize := maxSize;
    }

    method Push(data: Data)
      requires maxSize > 0 && |messages| <= maxSize
      modifies this
      ensures |messages| <= maxSize
      ensures Oldest(old(messages), maxSize) + messages == old(messages) + [data]
    {
      if |messages| >= maxSize {
        messages := messages[1..];
      }
      messages := messages + [data];
    }

    method Drain() returns (msgs: seq<Data>)
      modifies this
      ensures msgs == old(messages) && messages == []
    {
      msgs := messages;
      messages := [];
    }
  }

  // ---------- one topic, from publish to subscribe ----------

  datatype Exit = Drained | Dropped
  datatype Entry = Entry(data: Data, exit: Exit)

  /** Whether the topic has been subscribed to, its channel, the message its handler holds
      between receive and push, and its buffer; the messages /publish answered nil, those of
      them nobody was there for, those the channel accepted, how messages left the buffer,
      and the batches /subscribe returned. */
  datatype Topic = Topic(subscribed: bool, channel: Channel, inFlight: Option<Data>, buffer: seq<Data>, closed: bool,
                         answered: seq<Data>, lost: seq<Data>, accepted: seq<Data>,
                         left: seq<Entry>, batches: seq<seq<Data>>)

  datatype Step = Publish(data: Data) | Receive | Push | Subscribe | Close

  const FRESH := Topic(false, [], None, [], false, [], [], [], [], [])

  function As(msgs: seq<Data>, exit: Exit): (entries: seq<Entry>)
    ensures |entries| == |msgs|
  {
    seq(|msgs|, i requires 0 <= i < |msgs| => Entry(msgs[i], exit))
  }

  /** A publish is a send if there is room, and answered nil without one if nobody has
      subscribed; the handler receives and pushes; a subscribe request drains, the first one
      after subscribing. What is not possible leaves the topic as it is. */
  function Next(t: Topic, step: Step): (t': Topic)
  {
    match step
    case Publish(data) =>
      if t.closed then t
      else if !t.subscribed then t.(answered := t.answered + [data], lost := t.lost + [data])
      else if |t.channel| >= CHANNEL_CAPACITY then t
      else t.(channel := t.channel + [data], answered := t.answered + [data], accepted := t.accepted + [data])
    case Receive =>
      if t.inFlight.Some? || t.channel == [] then t
      else t.(channel := t.channel[1..], inFlight := Some(t.channel[0]))
    case Push =>
      if t.inFlight.None? then t else
        var oldest := Oldest(t.buffer, BUFFER_SIZE);
        t.(inFlight := None, buffer := t.buffer[|oldest|..] + [t.inFlight.value], left := t.left + As(oldest, Dropped))
    case Subscribe =>
      t.(subscribed := true, buffer := [], left := t.left + As(t.buffer, Drained), batches := t.batches + [t.buffer])
    case Close => t.(closed := true)
  }

  function After(steps: seq<Step>): (t: Topic)
  {
    if steps == [] then FRESH else Next(After(steps[..|steps| - 1]), steps[|steps| - 1])
  }

  /** The topic's subscriber list in the transport: at most one channel. */
  function Channels(t: Topic): (channels: seq<Channel>) {
    if t.subscribed then [t.channel] else []
  }

  /** The machine's publish is the transport's on that list: same channels afterwards, and a
      message counts as answered exactly when the transport returns nil. */
  lemma OneSubscriberPublish(t: Topic, data: Data)
    ensures var t' := Next(t, Publish(data));
      && Channels(t') == (if t.closed then Channels(t) else Reached(Channels(t), data))
      && (t'.answered == t.answered + [data] <==> !t.closed && FirstFull(Channels(t)) == |Channels(t)|)
      && (t'.answered != t.answered + [data] ==> t'.answered == t.answered)
  {
    assert [t.channel][1..] == [];
    assert |t.answered + [data]| == |t.answered| + 1;
  }

  /** The broker subscribes at the first request for a topic and never again. */
  lemma SubscribesOnce(steps: seq<Step>)
    ensures var t := After(steps);
      Channels(Next(t, Subscribe)) == if t.subscribed then Channels(t) else Channels(t) + [[]]
  {
    Delivery(steps);
  }

  function Messages(entries: seq<Entry>): (msgs: seq<Data>)
    ensures |msgs| == |entries|
  {
    seq(|entries|, i requires 0 <= i < |entries| => entries[i].data)
  }

  function Of(entries: seq<Entry>, exit: Exit): (msgs: seq<Data>)
  {
    if entries == [] then [] else
      var front, e := Of(entries[..|entries| - 1], exit), entries[|entries| - 1];
      if e.exit == exit then front + [e.data] else front
  }

  function Concat(batches: seq<seq<Data>>): (msgs: seq<Data>)
  {
    if batches == [] then [] else Concat(batches[..|batches| - 1]) + batches[|batches| - 1]
  }

  function InFlight(t: Topic): seq<Data> {
    if t.inFlight.Some? then [t.inFlight.value] else []
  }

  lemma OfSnoc(entries: seq<Entry>, e: Entry, exit: Exit)
    ensures Of(entries + [e], exit) == if e.exit == exit then Of(entries, exit) + [e.data] else Of(entries, exit)
    ensures Messages(entries + [e]) == Messages(entries) + [e.data]
  {
    assert (entries + [e])[..|entries|] == entries;
  }

  lemma {:induction false} OfAppend(entries: seq<Entry>, msgs: seq<Data>, kind: Exit, exit: Exit)
    ensures Of(entries + As(msgs, kind), exit) == if kind == exit then Of(entries, exit) + msgs else Of(entries, exit)
    ensures Messages(entries + As(msgs, kind)) == Messages(entries) + msgs
  {
    hide Of, Messages, As;
    if msgs == [] {
      assert entries + As(msgs, kind) == entries;
      assert Of(entries, exit) + msgs == Of(entries, exit) && Messages(entries) + msgs == Messages(entries);
    } else {
      var front, last := msgs[..|msgs| - 1], msgs[|msgs| - 1];
      OfAppend(entries, front, kind, exit);
      AppendOneMore(entries, front, last, kind, exit);
      assert front + [last] == msgs;
    }
  }

  lemma AppendOneMore(entries: seq<Entry>, front: seq<Data>, last: Data, kind: Exit, exit: Exit)
    requires Of(entries + As(front, kind), exit) == if kind == exit then Of(entries, exit) + front else Of(entries, exit)
    requires Messages(entries + As(front, kind)) == Messages(entries) + front
    ensures Of(entries + As(front + [last], kind), exit)
         == if kind == exit then Of(entries, exit) + (front + [last]) else Of(entries, exit)
    ensures Messages(entries + As(front + [last], kind)) == Messages(entries) + (front + [last])
  {
    hide Of, Messages, As;
    AsSnoc(entries, front, last, kind);
    OfSnoc(entries + As(front, kind), Entry(last, kind), exit);
    Snoc(Of(entries, exit), front, last);
    Snoc(Messages(entries), front, last);
  }

  lemma AsSnoc(entries: seq<Entry>, front: seq<Data>, last: Data, kind: Exit)
    ensures entries + As(front + [last], kind) == (entries + As(front, kind)) + [Entry(last, kind)]
  {
    assert As(front + [last], kind) == As(front, kind) + [Entry(last, kind)];
  }

  /** Where the accepted messages are, in order. */
  ghost predicate Accounted(t: Topic) {
    Messages(t.left) + t.buffer + InFlight(t) + t.channel == t.accepted
  }

  /** Nothing enters a topic before its first subscribe request; an answer nil is a loss or
      an acceptance. */
  ghost predicate LossesCounted(t: Topic) {
    && t.answered == t.lost + t.accepted
    && (!t.subscribed ==> t.channel == [] && t.inFlight.None? && t.buffer == [] && t.accepted == [])
  }

  lemma LossesKept(t: Topic, step: Step)
    requires LossesCounted(t)
    ensures LossesCounted(Next(t, step))
  {
    if step.Publish? {
      Snoc(t.lost, t.accepted, step.data);
      assert t.lost + [step.data] == (t.lost + [step.data]) + [];
    }
  }

  ghost predicate BatchesAreDrained(t: Topic) {
    Concat(t.batches) == Of(t.left, Drained)
  }

  lemma AccountedKept(t: Topic, step: Step)
    requires Accounted(t)
    ensures Accounted(Next(t, step))
  {
    match step {
      case Publish(data) => Snoc(Messages(t.left) + t.buffer + InFlight(t), t.channel, data);
      case Receive =>
        if t.inFlight.None? && t.channel != [] {
          MoveFirst(Messages(t.left) + t.buffer, t.channel);
        }
      case Push =>
        if t.inFlight.Some? {
          var oldest := Oldest(t.buffer, BUFFER_SIZE);
          OfAppend(t.left, oldest, Dropped, Dropped);
          MoveInto(Messages(t.left), oldest, t.buffer[|oldest|..], t.inFlight.value, t.channel);
          assert t.buffer == oldest + t.buffer[|oldest|..];
        }
      case Subscribe =>
        OfAppend(t.left, t.buffer, Drained, Drained);
        assert (Messages(t.left) + t.buffer) + [] == Messages(t.left) + t.buffer;
      case Close =>
    }
  }

  lemma Snoc(a: seq<Data>, b: seq<Data>, d: Data)
    ensures a + (b + [d]) == (a + b) + [d]
  {
  }

  lemma MoveFirst(a: seq<Data>, channel: seq<Data>)
    requires channel != []
    ensures a + [channel[0]] + channel[1..] == a + [] + channel
  {
  }

  lemma MoveInto(a: seq<Data>, oldest: seq<Data>, rest: seq<Data>, d: Data, channel: seq<Data>)
    ensures (a + oldest) + (rest + [d]) + [] + channel == a + (oldest + rest) + [d] + channel
  {
  }

  lemma BatchesKept(t: Topic, step: Step)
    requires BatchesAreDrained(t)
    ensures BatchesAreDrained(Next(t, step))
  {
    if step.Push? && t.inFlight.Some? {
      OfAppend(t.left, Oldest(t.buffer, BUFFER_SIZE), Dropped, Drained);
    } else if step.Subscribe? {
      OfAppend(t.left, t.buffer, Drained, Drained);
      assert (t.batches + [t.buffer])[..|t.batches|] == t.batches;
    }
  }

  /** Delivery, under every interleaving of publishers, handler, subscribe requests and
      Close: the messages answered nil are those lost before the first request and the ones
      the channel accepted; these are, in order, those that left the buffer, those in it, the
      one in flight and those in the channel; of the ones that left, the returned batches end
      to end are exactly the ones not dropped as oldest. */
  lemma {:induction false} Delivery(steps: seq<Step>)
    ensures var t := After(steps);
      && t.answered == t.lost + t.accepted
      && (!t.subscribed ==> t.channel == [] && t.inFlight.None? && t.buffer == [] && t.accepted == [])
      && Messages(t.left) + t.buffer + InFlight(t) + t.channel == t.accepted
      && Concat(t.batches) == Of(t.left, Drained)
      && |t.channel| <= 1024 && |t.buffer| <= 1024
  {
    if steps != [] {
      var t := After(steps[..|steps| - 1]);
      Delivery(steps[..|steps| - 1]);
      hide Next;
      LossesKept(t, steps[|steps| - 1]);
      AccountedKept(t, steps[|steps| - 1]);
      BatchesKept(t, steps[|steps| - 1]);
      BoundsKept(t, steps[|steps| - 1]);
    }
  }

  /** After Close nothing is answered nil or accepted any more, whatever follows; what the
      channel holds can still be received, pushed and fetched. */
  lemma {:induction false} ClosedForGood(steps: seq<Step>, more: seq<Step>)
    requires After(steps).closed
    ensures var t := After(steps + more);
      t.closed && t.answered == After(steps).answered && t.accepted == After(steps).accepted
  {
    if more == [] {
      assert steps + more == steps;
    } else {
      var front := more[..|more| - 1];
      ClosedForGood(steps, front);
      assert (steps + more)[..|steps + front|] == steps + front;
    }
  }

  /** What each step does to a topic in any run: a publish with someone there needs room
      among 1024, the handler takes from the front and adds at the end, a request takes
      everything. A message is dropped by a push onto 1024 buffered ones only, and it is the
      oldest of them. */
  lemma StepExactly(steps: seq<Step>, step: Step)
    ensures var t, t' := After(steps), Next(After(steps), step);
      match step
      case Publish(data) =>
        if t.closed || (t.subscribed && |t.channel| == 1024) then t' == t
        else if t.subscribed then
          t' == t.(channel := t.channel + [data], answered := t.answered + [data], accepted := t.accepted + [data])
        else t' == t.(answered := t.answered + [data], lost := t.lost + [data])
      case Receive =>
        if t.inFlight.None? && t.channel != []
        then t' == t.(channel := t.channel[1..], inFlight := Some(t.channel[0])) else t' == t
      case Push =>
        if t.inFlight.None? then t' == t
        else if |t.buffer| < 1024 then t' == t.(inFlight := None, buffer := t.buffer + [t.inFlight.value])
        else t' == t.(inFlight := None, buffer := t.buffer[1..] + [t.inFlight.value],
                      left := t.left + [Entry(t.buffer[0], Dropped)])
      case Subscribe =>
        && t'.batches == t.batches + [t.buffer] && t'.buffer == [] && t'.subscribed
        && t' == t.(subscribed := true, buffer := [], batches := t'.batches, left := t'.left)
        && Of(t'.left, Dropped) == Of(t.left, Dropped)
      case Close => t' == t.(closed := true)
  {
    hide Of, Messages;
    Delivery(steps);
    var t := After(steps);
    if step.Push? {
      assert t.left + [] == t.left && t.buffer[0..] == t.buffer;
      assert As([], Dropped) == [];
      if |t.buffer| == 1024 { assert As(t.buffer[..1], Dropped) == [Entry(t.buffer[0], Dropped)]; }
    }
    if step.Subscribe? { OfAppend(t.left, t.buffer, Drained, Dropped); }
  }

  /** The k-th step pushes onto a full buffer. */
  predicate FullPush(steps: seq<Step>, k: nat)
    requires k < |steps|
  {
    steps[k].Push? && After(steps[..k]).inFlight.Some? && |After(steps[..k]).buffer| == 1024
  }

  function FullPushes(steps: seq<Step>): (ks: set<nat>) {
    set k: nat | k < |steps| && FullPush(steps, k)
  }

  lemma FullPushesNext(steps: seq<Step>)
    requires steps != []
    ensures var n := |steps| - 1;
      |FullPushes(steps)| == |FullPushes(steps[..n])| + if FullPush(steps, n) then 1 else 0
  {
    hide After;
    var n := |steps| - 1;
    var front := steps[..n];
    forall k: nat | k < n
      ensures FullPush(front, k) == FullPush(steps, k)
    {
      assert front[..k] == steps[..k];
    }
    assert FullPushes(steps) == if FullPush(steps, n) then FullPushes(front) + {n} else FullPushes(front);
  }

  /** Over a run: as many messages are dropped as pushes met a full buffer. */
  lemma {:induction false} DropsCounted(steps: seq<Step>)
    ensures |Of(After(steps).left, Dropped)| == |FullPushes(steps)|
  {
    if steps != [] {
      hide Next, Of, FullPushes;
      var n := |steps| - 1;
      DropsCounted(steps[..n]);
      FullPushesNext(steps);
      DropOfStep(steps[..n], steps[n]);
    } else {
      NothingLeft();
    }
  }

  lemma NothingLeft()
    ensures Of(After([]).left, Dropped) == []
  {
  }

  lemma DropOfStep(steps: seq<Step>, step: Step)
    ensures var t := After(steps);
      |Of(Next(t, step).left, Dropped)| == |Of(t.left, Dropped)| +
        if step.Push? && t.inFlight.Some? && |t.buffer| == 1024 then 1 else 0
  {
    hide Of;
    Delivery(steps);
    StepExactly(steps, step);
    var t := After(steps);
    if t.buffer != [] { OfSnoc(t.left, Entry(t.buffer[0], Dropped), Dropped); }
  }

  /** And nothing gets stuck: from every reachable topic some receives, pushes and one
      request leave nothing under way, without accepting anything more. */
  lemma {:induction false} CatchesUp(steps: seq<Step>) returns (more: seq<Step>)
    ensures forall i :: 0 <= i < |more| ==> more[i].Receive? || more[i].Push? || more[i].Subscribe?
    ensures var t := After(steps + more);
      t.channel == [] && t.inFlight.None? && t.buffer == [] && t.accepted == After(steps).accepted
    decreases |After(steps).channel|, |InFlight(After(steps))|
  {
    hide Next;
    var t := After(steps);
    var step := if t.inFlight.Some? then Push else if t.channel != [] then Receive else Subscribe;
    StepExactly(steps, step);
    assert (steps + [step])[..|steps|] == steps;
    more := [];
    if step != Subscribe {
      more := CatchesUp(steps + [step]);
      assert steps + ([step] + more) == (steps + [step]) + more;
    }
    more := [step] + more;
  }

  predicate Opened(steps: seq<Step>) {
    exists i :: 0 <= i < |steps| && (steps[i].Subscribe? || steps[i].Close?)
  }

  /** The messages published before the topic is first asked for or the transport closed. */
  function Early(steps: seq<Step>): (msgs: seq<Data>)
  {
    if steps == [] then [] else
      var front, last := steps[..|steps| - 1], steps[|steps| - 1];
      if last.Publish? && !Opened(front) then Early(front) + [last.data] else Early(front)
  }

  /** /publish answers nil to messages that nobody will get: exactly the early ones. */
  lemma {:induction false} LostExactly(steps: seq<Step>)
    ensures After(steps).lost == Early(steps)
    ensures After(steps).subscribed || After(steps).closed <==> Opened(steps)
  {
    if steps != [] {
      LostExactly(steps[..|steps| - 1]);
    }
  }

  lemma BoundsKept(t: Topic, step: Step)
    requires |t.channel| <= CHANNEL_CAPACITY && |t.buffer| <= BUFFER_SIZE
    ensures |Next(t, step).channel| <= CHANNEL_CAPACITY && |Next(t, step).buffer| <= BUFFER_SIZE
  {
  }

  ghost predicate Dry(t: Topic) {
    t.channel == [] && t.inFlight.None? && t.buffer == []
  }

  lemma {:induction false} DrainedOrDropped(entries: seq<Entry>)
    ensures |Of(entries, Drained)| + |Of(entries, Dropped)| == |entries|
    ensures Of(entries, Dropped) == [] ==> Of(entries, Drained) == Messages(entries)
  {
    if entries != [] {
      var front := entries[..|entries| - 1];
      DrainedOrDropped(front);
      assert Messages(entries) == Messages(front) + [entries[|front|].data];
    }
  }

  /** When everything has been fetched, subscribers got exactly the accepted messages in
      order if and only if none was dropped, and exactly those answered nil if and only if
      moreover none was lost. */
  lemma AllDeliveredExactly(steps: seq<Step>)
    requires Dry(After(steps))
    ensures var t := After(steps);
      && (Concat(t.batches) == t.accepted <==> Of(t.left, Dropped) == [])
      && (Concat(t.batches) == t.answered <==> Of(t.left, Dropped) == [] && t.lost == [])
  {
    Delivery(steps);
    DrainedOrDropped(After(steps).left);
    assert |After(steps).answered| == |After(steps).lost| + |After(steps).accepted|;
  }

  lemma NothingDroppedMeansAllDelivered(steps: seq<Step>)
    requires Dry(After(steps)) && Of(After(steps).left, Dropped) == []
    ensures Concat(After(steps).batches) == After(steps).accepted
  {
    AllDeliveredExactly(steps);
  }
}
