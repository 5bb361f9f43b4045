/** The whole path: trace ID, frame, writer, byte stream, listener. */
module Pipeline {
  import opened BigEndian
  import opened Wrappers
  import opened FrameRoundTrip
  import P = IpcParser
  import F = Frame
  import L = IpcListener
  import W = IpcWriter
  import Trace
  import Utf8

  datatype Message = Message(payload: seq<Byte>, traceID: seq<Byte>, now: nat)

  /** A message whose frame the parser takes back (see RoundTrip). */
  predicate Sendable(m: Message) {
    m.now < U64_LIMIT && Fits(m.payload, m.traceID, m.now) && TagReadable(m.traceID, m.now)
  }

  /** Those are the messages the parser gives back. */
  lemma SendableExactly(m: Message)
    ensures Sendable(m) <==>
      && m.now < 0x1_0000_0000_0000_0000
      && F.TracedFrame(m.payload, m.traceID, m.now).Some?
      && P.ParseFrame(F.TracedFrame(m.payload, m.traceID, m.now).value) == Ok(Meant(m))
  {
    hide P.ParseFrame, F.TracedFrame, F.ParsedTraceID;
    if m.now < U64_LIMIT { RoundTrip(m.payload, m.traceID, m.now); }
  }

  function FrameOf(m: Message): (f: seq<Byte>)
    requires Sendable(m)
  {
    RoundTrip(m.payload, m.traceID, m.now);
    F.TracedFrame(m.payload, m.traceID, m.now).value
  }

  function Meant(m: Message): P.ParsedFrame {
    Intended(m.payload, m.traceID, m.now)
  }

  /** A frame of the right size that parses. */
  predicate Readable(f: seq<Byte>) {
    SelfDelimiting(f) && 4 < |f| <= 4 + P.MAX_FRAME_SIZE && P.ParseFrame(f).Ok?
  }

  lemma FrameIsReadable(m: Message)
    requires Sendable(m)
    ensures Readable(FrameOf(m)) && W.Admissible(FrameOf(m))
    ensures P.ParseFrame(FrameOf(m)) == Ok(Meant(m))
  {
    hide P.ParseFrame, F.ParsedTraceID;
    RoundTrip(m.payload, m.traceID, m.now);
    PrefixedIsSelfDelimiting(F.Header(F.TraceOf(m.traceID, m.now)) + m.payload);
  }

  /** Whatever the payload, a traced frame that WriteRaw lets through is within the
      parser's limit and complete: the only error left is a tag split by the cut. */
  lemma AdmittedFrameIsWithinLimit(payload: seq<Byte>, traceID: seq<Byte>, now: nat)
    requires now < U64_LIMIT && F.TracedFrame(payload, traceID, now).Some?
    requires W.Admissible(F.TracedFrame(payload, traceID, now).value)
    ensures var r := P.ParseFrame(F.TracedFrame(payload, traceID, now).value);
      r.Ok? || (r.error.InvalidUtf8InExchangeTag? && !TagReadable(traceID, now))
  {
    hide P.ParseFrame, F.ParsedTraceID, F.Header;
    ParseEncoded(payload, F.TraceOf(traceID, now));
  }

  /** A generated trace ID of an ASCII exchange name without dashes is always sendable,
      and what arrives is the clock reading and the name cut to 32 bytes. */
  lemma GeneratedTraceArrives(m: Message, exchange: seq<Byte>, ts: nat, sequence: nat)
    requires m.traceID == Trace.TraceID(exchange, ts, sequence) && 0 < ts < U64_LIMIT && m.now < U64_LIMIT
    requires F.DASH !in exchange && Utf8.Ascii(exchange) && |m.payload| <= P.MAX_FRAME_SIZE - 42
    ensures Sendable(m)
    ensures Meant(m) == P.ParsedFrame(m.payload, Some(P.TraceInfo(ts, F.Truncated(exchange))))
  {
    hide Trace.Decimal, Trace.ZeroPadded, F.ParsedTraceID;
    Trace.ReadWhenPlain(exchange, ts, Trace.ZeroPadded(sequence, 20), m.now);
    Utf8.AsciiValid(F.Truncated(exchange));
  }

  // ---------- a stream of frames, cut and parsed ----------

  function Units(fs: seq<seq<Byte>>): (us: seq<L.Unit>)
    requires forall i :: 0 <= i < |fs| ==> Readable(fs[i])
    ensures |us| == |fs|
  {
    if fs == [] then [] else assert Readable(fs[0]); [L.Unit(fs[0][..4], fs[0][4..])] + Units(fs[1..])
  }

  function Parsed(fs: seq<seq<Byte>>): (ps: seq<P.ParsedFrame>)
    requires forall i :: 0 <= i < |fs| ==> Readable(fs[i])
    ensures |ps| == |fs| && forall i :: 0 <= i < |ps| ==> Ok(ps[i]) == P.ParseFrame(fs[i])
  {
    if fs == [] then [] else assert Readable(fs[0]); [P.ParseFrame(fs[0]).value] + Parsed(fs[1..])
  }

  lemma ReadableUnit(f: seq<Byte>)
    requires Readable(f)
    ensures var u := L.Unit(f[..4], f[4..]);
      L.Whole(u) && L.Accepted(u) && L.Bytes(u) == f && Ok(P.ParseAfterHeader(u.body).value) == P.ParseFrame(f)
  {
    hide P.ParseFrame;
    L.ListenerReachesTheBody(f[..4], f[4..]);
    assert f[..4] + f[4..] == f;
  }

  lemma FirstFrame(u: L.Unit, us: seq<L.Unit>)
    requires L.Accepted(u)
    ensures L.Frames([u] + us) == [P.ParseAfterHeader(u.body).value] + L.Frames(us)
    ensures L.Rejected([u] + us) == L.Rejected(us)
    decreases |us|
  {
    hide L.Accepted, P.ParseAfterHeader;
    if us == [] {
      assert [u] + us == [u] && [u][..0] == [];
    } else {
      FirstFrame(u, us[..|us| - 1]);
      assert ([u] + us)[..|us|] == [u] + us[..|us| - 1];
    }
  }

  lemma {:induction false} StreamIsCutIntoFrames(fs: seq<seq<Byte>>)
    requires forall i :: 0 <= i < |fs| ==> Readable(fs[i])
    ensures L.Cut(Concat(fs)) == L.Pieces(Units(fs), [])
    ensures L.Frames(Units(fs)) == Parsed(fs) && L.Rejected(Units(fs)) == 0
  {
    if fs != [] {
      hide Readable, P.ParseFrame, L.Whole, L.Accepted, L.Bytes, L.Frames, L.Rejected;
      var u := L.Unit(fs[0][..4], fs[0][4..]);
      StreamIsCutIntoFrames(fs[1..]);
      ReadableUnit(fs[0]);
      L.FirstUnitOf(u, Concat(fs[1..]));
      FirstFrame(u, Units(fs[1..]));
    }
  }

  // ---------- what the connection carries ----------

  function Bytes(fs: seq<W.Tagged>): (bs: seq<seq<Byte>>)
    ensures |bs| == |fs|
  {
    seq(|fs|, i requires 0 <= i < |fs| => fs[i].bytes)
  }

  /** What one write put on the wire: all of a forwarded frame, nothing without a
      connection, some first part of a frame whose write failed or fell short. */
  predicate Wrote(e: W.Entry<W.Outcome>, wire: seq<Byte>) {
    match e.kind
    case Forwarded => wire == e.frame.bytes
    case NoConnection => wire == []
    case WriteError => wire <= e.frame.bytes
    case PartialWrite => wire < e.frame.bytes
  }

  /** The connection carried wires[i] in the i-th write. */
  predicate Carried(outcomes: seq<W.Entry<W.Outcome>>, wires: seq<seq<Byte>>) {
    |wires| == |outcomes| && forall i :: 0 <= i < |outcomes| ==> Wrote(outcomes[i], wires[i])
  }

  /** What is assumed of a write, outcome by outcome. */
  lemma WroteExactly(frame: W.Tagged, wire: seq<Byte>)
    ensures Wrote(W.Entry(frame, W.Forwarded), wire) <==> wire == frame.bytes
    ensures Wrote(W.Entry(frame, W.NoConnection), wire) <==> wire == []
    ensures Wrote(W.Entry(frame, W.WriteError), wire) <==> wire <= frame.bytes
    ensures Wrote(W.Entry(frame, W.PartialWrite), wire) <==> wire <= frame.bytes && |wire| < |frame.bytes|
  {
  }

  /** None or all of its frame. */
  predicate Untorn(e: W.Entry<W.Outcome>, wire: seq<Byte>) {
    wire == [] || wire == e.frame.bytes
  }

  predicate AllUntorn(outcomes: seq<W.Entry<W.Outcome>>, wires: seq<seq<Byte>>)
    requires |wires| == |outcomes|
  {
    forall i :: 0 <= i < |outcomes| ==> Untorn(outcomes[i], wires[i])
  }

  predicate AllReadable(outcomes: seq<W.Entry<W.Outcome>>) {
    forall i :: 0 <= i < |outcomes| ==> Readable(outcomes[i].frame.bytes)
  }

  /** The writes again, each marked with whether all of its frame went out. */
  function Marked(outcomes: seq<W.Entry<W.Outcome>>, wires: seq<seq<Byte>>): (m: seq<W.Entry<bool>>)
    requires |wires| == |outcomes|
    ensures |m| == |outcomes|
  {
    seq(|outcomes|, i requires 0 <= i < |outcomes| =>
      W.Entry(outcomes[i].frame, wires[i] == outcomes[i].frame.bytes))
  }

  /** The frames the connection carried in full, in order. */
  function Arrived(outcomes: seq<W.Entry<W.Outcome>>, wires: seq<seq<Byte>>): (fs: seq<W.Tagged>)
    requires |wires| == |outcomes|
  {
    W.Of(Marked(outcomes, wires), true)
  }

  lemma {:induction false} ConcatSnoc(fs: seq<seq<Byte>>, f: seq<Byte>)
    ensures Concat(fs + [f]) == Concat(fs) + f
  {
    if fs == [] {
      assert [] + [f] == [f];
    } else {
      ConcatSnoc(fs[1..], f);
      assert (fs + [f])[1..] == fs[1..] + [f];
      L.Associative(fs[0], Concat(fs[1..]), f);
    }
  }

  lemma {:induction false} ConcatSplit(fs: seq<seq<Byte>>, k: nat)
    requires k <= |fs|
    ensures Concat(fs) == Concat(fs[..k]) + Concat(fs[k..])
  {
    if k == 0 {
      assert fs[0..] == fs && Concat(fs[..0]) == [];
    } else {
      ConcatSplit(fs[1..], k - 1);
      assert fs[..k][1..] == fs[1..][..k - 1] && fs[k..] == fs[1..][k - 1..];
      L.Associative(fs[0], Concat(fs[..k][1..]), Concat(fs[k..]));
    }
  }

  lemma MarkedNext(outcomes: seq<W.Entry<W.Outcome>>, wires: seq<seq<Byte>>, e: W.Entry<W.Outcome>, wire: seq<Byte>)
    requires |wires| == |outcomes|
    ensures Arrived(outcomes + [e], wires + [wire])
         == if wire == e.frame.bytes then Arrived(outcomes, wires) + [e.frame] else Arrived(outcomes, wires)
  {
    hide W.Of, Marked;
    MarkedSnoc(outcomes, wires, e, wire);
    W.OfAppend(Marked(outcomes, wires), W.Entry(e.frame, wire == e.frame.bytes), true);
  }

  lemma MarkedSnoc(outcomes: seq<W.Entry<W.Outcome>>, wires: seq<seq<Byte>>, e: W.Entry<W.Outcome>, wire: seq<Byte>)
    requires |wires| == |outcomes|
    ensures Marked(outcomes + [e], wires + [wire]) == Marked(outcomes, wires) + [W.Entry(e.frame, wire == e.frame.bytes)]
  {
  }

  lemma ArrivedNext(fs: seq<W.Tagged>, e: W.Entry<W.Outcome>, wire: seq<Byte>)
    requires Untorn(e, wire)
    ensures Concat(Bytes(fs)) + wire == Concat(Bytes(if wire == e.frame.bytes then fs + [e.frame] else fs))
  {
    hide Concat;
    if wire == e.frame.bytes {
      assert Bytes(fs + [e.frame]) == Bytes(fs) + [e.frame.bytes];
      ConcatSnoc(Bytes(fs), wire);
    } else {
      assert Concat(Bytes(fs)) + [] == Concat(Bytes(fs));
    }
  }

  /** Without torn writes the connection carries the arrived frames end to end. */
  lemma {:induction false} CleanStream(outcomes: seq<W.Entry<W.Outcome>>, wires: seq<seq<Byte>>)
    requires |wires| == |outcomes| && AllUntorn(outcomes, wires)
    ensures Concat(wires) == Concat(Bytes(Arrived(outcomes, wires)))
    decreases |outcomes|
  {
    hide Bytes, Concat, Arrived, Untorn;
    if outcomes == [] {
      NothingArrived(outcomes, wires);
    } else {
      var n := |outcomes| - 1;
      assert outcomes == outcomes[..n] + [outcomes[n]] && wires == wires[..n] + [wires[n]];
      CleanStream(outcomes[..n], wires[..n]);
      MarkedNext(outcomes[..n], wires[..n], outcomes[n], wires[n]);
      ArrivedNext(Arrived(outcomes[..n], wires[..n]), outcomes[n], wires[n]);
      ConcatSnoc(wires[..n], wires[n]);
    }
  }

  lemma NothingArrived(outcomes: seq<W.Entry<W.Outcome>>, wires: seq<seq<Byte>>)
    requires outcomes == [] && wires == []
    ensures Concat(wires) == [] && Arrived(outcomes, wires) == [] && Concat(Bytes([])) == []
  {
    assert Marked(outcomes, wires) == [] && Bytes([]) == [];
  }

  /** When every failed or short write carried nothing, what arrived is what was counted
      as forwarded. */
  lemma {:induction false} ArrivedAreForwarded(outcomes: seq<W.Entry<W.Outcome>>, wires: seq<seq<Byte>>)
    requires Carried(outcomes, wires) && AllReadable(outcomes)
    requires forall i :: 0 <= i < |outcomes| && !outcomes[i].kind.Forwarded? ==> wires[i] == []
    ensures Arrived(outcomes, wires) == W.Of(outcomes, W.Forwarded)
    decreases |outcomes|
  {
    hide Arrived, Readable, W.Of;
    if outcomes == [] {
      NothingArrived(outcomes, wires);
      NothingOf();
    } else {
      var n := |outcomes| - 1;
      assert outcomes == outcomes[..n] + [outcomes[n]] && wires == wires[..n] + [wires[n]];
      ArrivedAreForwarded(outcomes[..n], wires[..n]);
      MarkedNext(outcomes[..n], wires[..n], outcomes[n], wires[n]);
      W.OfAppend(outcomes[..n], outcomes[n], W.Forwarded);
      ReadableIsNonempty(outcomes[n].frame.bytes);
    }
  }

  lemma NothingOf()
    ensures W.Of<W.Outcome>([], W.Forwarded) == []
  {
  }

  lemma ReadableIsNonempty(f: seq<Byte>)
    requires Readable(f)
    ensures f != []
  {
  }

  // ---------- torn writes ----------

  /** A first part of a frame holds no whole unit. */
  lemma ProperPartHasNoUnit(f: seq<Byte>, part: seq<Byte>)
    requires Readable(f) && part < f
    ensures L.FirstUnit(part).None?
  {
    if |part| >= 4 {
      assert part[..4] == f[..4];
    }
  }

  lemma ArrivedAreReadable(outcomes: seq<W.Entry<W.Outcome>>, wires: seq<seq<Byte>>)
    requires |wires| == |outcomes| && AllReadable(outcomes)
    ensures var bytes := Bytes(Arrived(outcomes, wires));
      forall i :: 0 <= i < |bytes| ==> Readable(bytes[i])
    decreases |outcomes|
  {
    hide Arrived, Readable;
    if outcomes == [] {
      NothingArrived(outcomes, wires);
    } else {
      var n := |outcomes| - 1;
      assert outcomes == outcomes[..n] + [outcomes[n]] && wires == wires[..n] + [wires[n]];
      ArrivedAreReadable(outcomes[..n], wires[..n]);
      MarkedNext(outcomes[..n], wires[..n], outcomes[n], wires[n]);
      var before, after := Arrived(outcomes[..n], wires[..n]), Arrived(outcomes, wires);
      forall i | 0 <= i < |after|
        ensures Readable(Bytes(after)[i])
      {
        if i < |before| {
          assert after[i] == before[i];
          assert Bytes(before)[i] == after[i].bytes;
        }
      }
    }
  }

  /** What is left over when the last of some writes is the first that may be torn. */
  lemma TailAfterWrites(outcomes: seq<W.Entry<W.Outcome>>, wires: seq<seq<Byte>>)
    requires Carried(outcomes, wires) && AllReadable(outcomes) && outcomes != []
    requires AllUntorn(outcomes[..|outcomes| - 1], wires[..|outcomes| - 1])
    ensures var e, wire := outcomes[|outcomes| - 1], wires[|outcomes| - 1];
      L.Cut(Concat(wires)).tail == [] <==> Untorn(e, wire)
  {
    hide Concat, L.Cut, Arrived, Bytes, Readable, L.FirstUnit;
    var n := |outcomes| - 1;
    var e, wire := outcomes[n], wires[n];
    var front, frontWires := outcomes[..n], wires[..n];
    assert outcomes == front + [e] && wires == frontWires + [wire];
    ConcatSnoc(frontWires, wire);
    CleanStream(front, frontWires);
    ArrivedAreReadable(front, frontWires);
    StreamIsCutIntoFrames(Bytes(Arrived(front, frontWires)));
    L.CutAppend(Concat(frontWires), wire);
    if wire == e.frame.bytes {
      WholeFrameIsCut(wire);
    } else {
      ProperPartHasNoUnit(e.frame.bytes, wire);
      NoUnitIsTail(wire);
    }
  }

  lemma WholeFrameIsCut(f: seq<Byte>)
    requires Readable(f)
    ensures L.Cut(f).tail == []
  {
    StreamIsCutIntoFrames([f]);
    assert Concat([f]) == f;
  }

  lemma NoUnitIsTail(part: seq<Byte>)
    requires L.FirstUnit(part).None?
    ensures L.Cut(part).tail == part
  {
  }

  /** The loop goes on writing after a failed or short write. Whatever it writes next is
      read from its first byte if and only if the failed write carried none or all of its
      frame. */
  lemma NextIsInStepExactly(outcomes: seq<W.Entry<W.Outcome>>, wires: seq<seq<Byte>>, rest: seq<Byte>)
    requires Carried(outcomes, wires) && AllReadable(outcomes) && outcomes != []
    requires AllUntorn(outcomes[..|outcomes| - 1], wires[..|outcomes| - 1])
    ensures L.Boundary(Concat(wires) + rest, |Concat(wires)|)
       <==> Untorn(outcomes[|outcomes| - 1], wires[|outcomes| - 1])
  {
    hide L.Boundary, Untorn, Concat, L.Cut;
    TailAfterWrites(outcomes, wires);
    L.InStepExactly(Concat(wires), rest);
  }

  /** Over a whole connection: every write's bytes are read from their first byte on, and
      the last to their end, if and only if no write was torn. */
  lemma InStepThroughoutExactly(outcomes: seq<W.Entry<W.Outcome>>, wires: seq<seq<Byte>>)
    requires Carried(outcomes, wires) && AllReadable(outcomes)
    ensures (forall k :: 0 <= k <= |wires| ==> L.Boundary(Concat(wires), |Concat(wires[..k])|))
       <==> AllUntorn(outcomes, wires)
  {
    hide L.Boundary, Untorn, Concat;
    if forall k :: 0 <= k <= |wires| ==> L.Boundary(Concat(wires), |Concat(wires[..k])|) {
      UntornUpTo(outcomes, wires, |wires|);
      assert outcomes[..|wires|] == outcomes && wires[..|wires|] == wires;
    }
    if AllUntorn(outcomes, wires) {
      forall k | 0 <= k <= |wires|
        ensures L.Boundary(Concat(wires), |Concat(wires[..k])|)
      {
        CleanWritesEndInStep(outcomes, wires, k);
      }
    }
  }

  lemma {:induction false} UntornUpTo(outcomes: seq<W.Entry<W.Outcome>>, wires: seq<seq<Byte>>, k: nat)
    requires Carried(outcomes, wires) && AllReadable(outcomes) && k <= |wires|
    requires forall j :: 0 <= j <= k ==> L.Boundary(Concat(wires), |Concat(wires[..j])|)
    ensures AllUntorn(outcomes[..k], wires[..k])
  {
    hide L.Boundary, Untorn, Concat, Wrote, Readable;
    if k > 0 {
      UntornUpTo(outcomes, wires, k - 1);
      var front, frontWires := outcomes[..k], wires[..k];
      assert front[..k - 1] == outcomes[..k - 1] && frontWires[..k - 1] == wires[..k - 1];
      ConcatSplit(wires, k);
      NextIsInStepExactly(front, frontWires, Concat(wires[k..]));
    }
  }

  lemma CleanWritesEndInStep(outcomes: seq<W.Entry<W.Outcome>>, wires: seq<seq<Byte>>, k: nat)
    requires Carried(outcomes, wires) && AllReadable(outcomes) && AllUntorn(outcomes, wires) && k <= |wires|
    ensures L.Boundary(Concat(wires), |Concat(wires[..k])|)
  {
    hide L.Boundary, Untorn, Concat, Wrote, Readable, Arrived, L.Cut;
    ConcatSplit(wires, k);
    CleanStream(outcomes[..k], wires[..k]);
    ArrivedAreReadable(outcomes[..k], wires[..k]);
    StreamIsCutIntoFrames(Bytes(Arrived(outcomes[..k], wires[..k])));
    L.InStepExactly(Concat(wires[..k]), Concat(wires[k..]));
  }

  // ---------- end to end ----------

  /** The i-th frame offered to the writer is the i-th message's. */
  ghost predicate Offers(offered: seq<W.Tagged>, messages: seq<Message>) {
    && |offered| == |messages|
    && forall i :: 0 <= i < |messages| ==>
         Sendable(messages[i]) && offered[i] == W.Tagged(i, FrameOf(messages[i]))
  }

  /** The listener delivers what these frames mean, and nothing else. */
  ghost predicate Delivers(stream: seq<Byte>, fs: seq<W.Tagged>, messages: seq<Message>) {
    && L.Cut(stream).tail == [] && L.Rejected(L.Cut(stream).units) == 0
    && |L.Frames(L.Cut(stream).units)| == |fs|
    && forall i :: 0 <= i < |fs| ==>
         fs[i].id < |messages| && L.Frames(L.Cut(stream).units)[i] == Meant(messages[fs[i].id])
  }

  /** End to end: for every schedule of any number of producers, if no write was torn, the
      listener reports no error and delivers, in order, what the messages meant whose
      frames the connection carried in full, each at most once. */
  lemma EndToEnd(steps: seq<W.Step>, messages: seq<Message>, wires: seq<seq<Byte>>)
    requires W.After(steps).Some? && Offers(W.After(steps).value.log.offered, messages)
    requires var outcomes := W.After(steps).value.log.outcomes; Carried(outcomes, wires) && AllUntorn(outcomes, wires)
    ensures var arrived := Arrived(W.After(steps).value.log.outcomes, wires);
      && Delivers(Concat(wires), arrived, messages)
      && forall i, j :: 0 <= i < j < |arrived| ==> arrived[i].id != arrived[j].id
  {
    hide W.After, Wrote, Arrived, Delivers, Untorn;
    var s := W.After(steps).value;
    var arrived := Arrived(s.log.outcomes, wires);
    ArrivedIsChosen(s.log.outcomes, wires);
    W.OutcomesDistinctlyOffered(steps, Marked(s.log.outcomes, wires), true);
    CleanStream(s.log.outcomes, wires);
    FramesAreDelivered(arrived, s.log.offered, messages);
  }

  lemma ArrivedIsChosen(outcomes: seq<W.Entry<W.Outcome>>, wires: seq<seq<Byte>>)
    requires |wires| == |outcomes|
    ensures Arrived(outcomes, wires) == W.Of(Marked(outcomes, wires), true)
    ensures W.Frames(Marked(outcomes, wires)) == W.Frames(outcomes)
  {
  }

  lemma FramesAreDelivered(fs: seq<W.Tagged>, offered: seq<W.Tagged>, messages: seq<Message>)
    requires Offers(offered, messages) && W.DistinctlyOffered(fs, offered)
    ensures Delivers(Concat(Bytes(fs)), fs, messages)
  {
    hide Sendable, Readable, P.ParseFrame, L.Cut, L.Frames, L.Rejected, Concat;
    var bytes := Bytes(fs);
    forall i | 0 <= i < |fs|
      ensures Readable(bytes[i]) && P.ParseFrame(bytes[i]) == Ok(Meant(messages[fs[i].id]))
    {
      FrameIsReadable(messages[fs[i].id]);
    }
    StreamIsCutIntoFrames(bytes);
    assert forall i :: 0 <= i < |fs| ==> Ok(Parsed(bytes)[i]) == P.ParseFrame(bytes[i]);
  }

  /** With one producer the deliveries are moreover in the order of the messages: those the
      writer evicted or still holds are left out, nothing is exchanged. */
  lemma OneProducerInOrder(steps: seq<W.Step>, messages: seq<Message>, wires: seq<seq<Byte>>)
    requires W.OneProducer(steps) && W.After(steps).Some?
    requires |wires| == |W.After(steps).value.log.outcomes|
    ensures var arrived := Arrived(W.After(steps).value.log.outcomes, wires);
      forall i, j :: 0 <= i < j < |arrived| ==> arrived[i].id < arrived[j].id
  {
    hide W.After, W.OneProducer, Arrived;
    var s := W.After(steps).value;
    W.OneProducerKeepsOrder(steps);
    ArrivedIsChosen(s.log.outcomes, wires);
    W.OfInOfferOrder(Marked(s.log.outcomes, wires), true, s.log.offered);
  }

  // ---------- the splice ----------

  /** A run of one producer with one write that fails after five of six bytes: the listener
      delivers one frame, with a payload nobody sent. */
  lemma TornWriteForgesAFrame()
    returns (steps: seq<W.Step>, messages: seq<Message>, wires: seq<seq<Byte>>)
    ensures W.OneProducer(steps) && W.After(steps).Some?
    ensures Offers(W.After(steps).value.log.offered, messages)
    ensures Carried(W.After(steps).value.log.outcomes, wires)
    ensures L.Frames(L.Cut(Concat(wires)).units) == [P.ParsedFrame([0], None)]
    ensures forall m :: m in messages ==> Meant(m).payload != [0]
  {
    hide W.OneProducer, W.After, Concat, L.Cut, L.Frames, Sendable, FrameOf;
    messages := [Message([7], [], 0), Message([], [], 0)];
    wires := [[0, 0, 0, 2, 0], [0, 0, 0, 1, 0]];
    ShortMessage([7], 2);
    ShortMessage([], 1);
    assert [0, 0, 0, 2, 0] + [7] == [0, 0, 0, 2, 0, 7] && [0, 0, 0, 1, 0] + [] == [0, 0, 0, 1, 0];
    steps := TwoWrites(FrameOf(messages[0]), FrameOf(messages[1]));
    SplicedStream(wires);
  }

  lemma ShortMessage(payload: seq<Byte>, n: Byte)
    requires n == 1 + |payload| && n < 256
    ensures Sendable(Message(payload, [], 0)) && FrameOf(Message(payload, [], 0)) == [0, 0, 0, n, 0] + payload
  {
    F.EmptyTraceIDIsMalformed(0);
    var m := Message(payload, [], 0);
    RoundTrip(payload, [], 0);
    assert F.TraceOf([], 0) == None && Sendable(m);
    assert F.Header(None) + payload == [0] + payload;
    SmallLength(n);
    assert ([0] + payload)[..n] == [0] + payload;
    assert FrameOf(m) == [0, 0, 0, n] + ([0] + payload) == [0, 0, 0, n, 0] + payload;
  }

  lemma SmallLength(n: Byte)
    ensures ToBytes(n, 4) == [0, 0, 0, n] && FromBytes([0, 0, 0, n]) == n
  {
    assert n / 256 == 0 && n % 256 == n;
    assert ToBytes(0, 1) == [0] && ToBytes(0, 2) == [0, 0] && ToBytes(0, 3) == [0, 0, 0];
    U32RoundTrip(n);
  }

  lemma TwoWrites(a: seq<Byte>, b: seq<Byte>) returns (steps: seq<W.Step>)
    requires W.Admissible(a) && W.Admissible(b)
    ensures W.OneProducer(steps) && W.After(steps).Some?
    ensures W.After(steps).value.log.offered == [W.Tagged(0, a), W.Tagged(1, b)]
    ensures W.After(steps).value.log.outcomes ==
      [W.Entry(W.Tagged(0, a), W.WriteError), W.Entry(W.Tagged(1, b), W.Forwarded)]
  {
    hide W.IdleAlone, W.AtMostPending, W.OneProducer;
    var once := [W.Connect] + [W.Offer(a)] + [W.Receive] + [W.Finish(W.WriteError)];
    steps := once + [W.Offer(b)] + [W.Receive] + [W.Finish(W.Forwarded)];
    W.JustConnected();
    W.SentAlone([W.Connect], a, W.WriteError);
    W.SentAlone(once, b, W.Forwarded);
    W.IdleAloneIsOneProducer(steps);
  }

  lemma HeaderOf256(tail: seq<Byte>)
    requires tail == [0, 0, 1, 0]
    ensures FromBytes(tail) == 256 && L.FirstUnit(tail).None?
  {
    assert tail[..3] == [0, 0, 1] && [0, 0, 1][..2] == [0, 0] && [0, 0][..1] == [0];
    assert FromBytes([0]) == 0 && FromBytes([0, 0]) == 0 && FromBytes([0, 0, 1]) == 1;
    assert tail[..4] == tail;
  }

  lemma SplicedStream(wires: seq<seq<Byte>>)
    requires wires == [[0, 0, 0, 2, 0], [0, 0, 0, 1, 0]]
    ensures L.Frames(L.Cut(Concat(wires)).units) == [P.ParsedFrame([0], None)]
  {
    var u, tail: seq<Byte> := L.Unit([0, 0, 0, 2], [0, 0]), [0, 0, 1, 0];
    SmallLength(2);
    HeaderOf256(tail);
    assert wires[1..] == [wires[1]];
    assert Concat([wires[1]]) == wires[1];
    assert wires[0] + wires[1] == [0, 0, 0, 2, 0, 0, 0, 0, 1, 0];
    assert L.Bytes(u) + tail == [0, 0, 0, 2, 0, 0, 0, 0, 1, 0];
    L.FirstUnitOf(u, tail);
    NoUnitIsTail(tail);
    assert u.body[1..] == [0];
    assert [u][..0] == [];
  }
}
