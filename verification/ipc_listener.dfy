/** The listener's stream loop, over the bytes of one connection. What a connection
    amounts to is said by cutting its bytes into units; the cut is unique, so the
    loop's contract does not depend on how the loop reads. */
module IpcListener {
  import opened BigEndian
  import opened Wrappers
  import opened IpcParser

  const SKIP_LIMIT: nat := 65536

  /** How many bytes the loop reads behind a header that says n: none for a zero
      length, the body when it is in range, 65536 when it is oversized. */
  function BodyLength(n: nat): (k: nat)
  {
    if n > MAX_FRAME_SIZE then SKIP_LIMIT else n
  }

  /** One round of the loop: a header and what is read behind it. */
  datatype Unit = Unit(header: seq<Byte>, body: seq<Byte>)

  predicate Whole(u: Unit) {
    |u.header| == 4 && |u.body| == BodyLength(FromBytes(u.header))
  }

  predicate AllWhole(us: seq<Unit>) {
    forall i :: 0 <= i < |us| ==> Whole(us[i])
  }

  function Bytes(u: Unit): (s: seq<Byte>)
  {
    u.header + u.body
  }

  function Join(us: seq<Unit>): (s: seq<Byte>)
  {
    if us == [] then [] else Bytes(us[0]) + Join(us[1..])
  }

  lemma Associative(a: seq<Byte>, b: seq<Byte>, c: seq<Byte>)
    ensures (a + b) + c == a + (b + c)
  {
  }

  lemma {:induction false} JoinAppend(us: seq<Unit>, vs: seq<Unit>)
    ensures Join(us + vs) == Join(us) + Join(vs)
  {
    if us == [] {
      assert us + vs == vs;
    } else {
      JoinAppend(us[1..], vs);
      assert (us + vs)[1..] == us[1..] + vs && (us + vs)[0] == us[0];
      Associative(Bytes(us[0]), Join(us[1..]), Join(vs));
    }
  }

  // ---------- cutting a stream ----------

  /** The first unit of s, if s holds all of it. */
  function FirstUnit(s: seq<Byte>): (u: Option<Unit>)
    ensures u.Some? ==> Bytes(u.value) <= s && Whole(u.value)
  {
    if |s| < 4 then None else
    var k := BodyLength(FromBytes(s[..4]));
    if |s| < 4 + k then None else Some(Unit(s[..4], s[4..4 + k]))
  }

  lemma FirstUnitOf(u: Unit, rest: seq<Byte>)
    requires Whole(u)
    ensures FirstUnit(Bytes(u) + rest) == Some(u)
    ensures (Bytes(u) + rest)[|Bytes(u)|..] == rest
  {
    var s := Bytes(u) + rest;
    assert s[..4] == u.header;
    assert s[4..4 + |u.body|] == u.body;
  }

  datatype Pieces = Pieces(units: seq<Unit>, tail: seq<Byte>)

  function Cut(s: seq<Byte>): (r: Pieces)
    decreases |s|
  {
    match FirstUnit(s)
    case None => Pieces([], s)
    case Some(u) =>
      var rest := Cut(s[|Bytes(u)|..]);
      Pieces([u] + rest.units, rest.tail)
  }

  /** Nothing is lost: every stream is its units followed by an incomplete one. */
  lemma {:induction false} CutCovers(s: seq<Byte>)
    ensures Join(Cut(s).units) + Cut(s).tail == s && FirstUnit(Cut(s).tail).None?
    ensures AllWhole(Cut(s).units)
    decreases |s|
  {
    hide FirstUnit;
    if FirstUnit(s).Some? {
      var u := FirstUnit(s).value;
      var rest := s[|Bytes(u)|..];
      CutCovers(rest);
      assert Cut(s).units[1..] == Cut(rest).units;
      Associative(Bytes(u), Join(Cut(rest).units), Cut(rest).tail);
      assert s == Bytes(u) + rest;
    } else {
      assert Join([]) + s == s;
    }
  }

  /** And in one way only: any units followed by an incomplete one are the cut. */
  lemma {:induction false} CutUnique(us: seq<Unit>, tail: seq<Byte>)
    requires AllWhole(us) && FirstUnit(tail).None?
    ensures Cut(Join(us) + tail) == Pieces(us, tail)
  {
    if us == [] {
      assert Join(us) + tail == tail;
    } else {
      var rest := Join(us[1..]) + tail;
      Associative(Bytes(us[0]), Join(us[1..]), tail);
      FirstUnitOf(us[0], rest);
      CutUnique(us[1..], tail);
      assert us == [us[0]] + us[1..];
    }
  }

  // ---------- what a connection reports ----------

  /** The unit holds a frame the parser accepts. */
  predicate Accepted(u: Unit) {
    0 < FromBytes(u.header) <= MAX_FRAME_SIZE && ParseAfterHeader(u.body).Ok?
  }

  function FrameOf(u: Unit): Option<ParsedFrame> {
    if Accepted(u) then Some(ParseAfterHeader(u.body).value) else None
  }

  /** The valid frames of the units, in order. */
  function Frames(us: seq<Unit>): (fs: seq<ParsedFrame>)
  {
    if us == [] then [] else
      var u := us[|us| - 1];
      Frames(us[..|us| - 1]) + if Accepted(u) then [ParseAfterHeader(u.body).value] else []
  }

  function Rejected(us: seq<Unit>): (n: nat)
  {
    if us == [] then 0 else
      Rejected(us[..|us| - 1]) + if Accepted(us[|us| - 1]) then 0 else 1
  }

  /** Frames and errors together count each unit once. */
  lemma {:induction false} EachUnitCountedOnce(us: seq<Unit>)
    ensures |Frames(us)| + Rejected(us) == |us|
  {
    if us != [] { EachUnitCountedOnce(us[..|us| - 1]); }
  }

  predicate CutShort(tail: seq<Byte>) {
    |tail| >= 4 && 0 < FromBytes(tail[..4]) <= MAX_FRAME_SIZE
  }

  predicate OversizedTail(tail: seq<Byte>) {
    |tail| >= 4 && FromBytes(tail[..4]) > MAX_FRAME_SIZE
  }

  datatype StreamEnd = Closed | Failed
  datatype ReadError = HeaderRead | PayloadRead

  /** How handle_connection ends. */
  function ConnectionResult(stream: seq<Byte>, end: StreamEnd): (r: Result<nat, ReadError>)
  {
    if CutShort(Cut(stream).tail) then Err(PayloadRead)
    else if end.Failed? then Err(HeaderRead)
    else Ok(|Frames(Cut(stream).units)|)
  }

  /** And how many errors it counts. */
  function ErrorsCounted(stream: seq<Byte>): (n: nat)
  {
    Rejected(Cut(stream).units) + if OversizedTail(Cut(stream).tail) then 1 else 0
  }

  class ListenerStats {
    var frames: nat
    var connections: nat
    var errors: nat

    constructor ()
      ensures frames == connections == errors == 0
    {
      frames, connections, errors := 0, 0, 0;
    }
  }

  /** How one round of the loop goes: the stream ends at a header (or in the skip
      behind an oversized one), a body is cut short, or a unit is consumed. */
  datatype Round = AtEnd | BodyCut | Consumed(next: nat, frame: Option<ParsedFrame>)

  /** handle_connection over the bytes the peer sent before it closed the stream or
      the stream failed. It delivers exactly the valid frames of the cut, in order;
      only a body cut short makes a closed connection end in an error. */
  method HandleConnection(stream: seq<Byte>, end: StreamEnd, stats: ListenerStats)
    returns (r: Result<nat, ReadError>, delivered: seq<ParsedFrame>)
    modifies stats`frames, stats`errors
    ensures delivered == Frames(Cut(stream).units)
    ensures stats.frames == old(stats.frames) + |delivered|
    ensures stats.errors == old(stats.errors) + ErrorsCounted(stream)
    ensures r == ConnectionResult(stream, end)
  {
    var pos, framesInConn := 0, 0;
    delivered := [];
    ghost var us: seq<Unit> := [];
    while true
      invariant ReadSoFar(us, stream, pos)
      invariant delivered == Frames(us) && framesInConn == |delivered|
      invariant stats.frames == old(stats.frames) + |delivered|
      invariant stats.errors == old(stats.errors) + Rejected(us)
      decreases |stream| - pos
    {
      if FirstUnit(stream[pos..]).Some? { Extends(us, stream, pos); } else { Ends(us, stream, pos); }
      var round := HandleHeader(stream, pos, stats);
      match round {
        case AtEnd => return (if end.Failed? then Err(HeaderRead) else Ok(framesInConn)), delivered;
        case BodyCut => return Err(PayloadRead), delivered;
        case Consumed(next, frame) =>
          us := us + [FirstUnit(stream[pos..]).value];
          pos := next;
          if frame.Some? {
            framesInConn := framesInConn + 1;
            delivered := delivered + [frame.value];
          }
      }
    }
  }

  /** The body of the loop: one header and what stands behind it. */
  method HandleHeader(stream: seq<Byte>, pos: nat, stats: ListenerStats) returns (round: Round)
    requires pos <= |stream|
    modifies stats`frames, stats`errors
    ensures var first, tail := FirstUnit(stream[pos..]), stream[pos..];
      && (first.Some? ==>
          && round == Consumed(pos + |Bytes(first.value)|, FrameOf(first.value))
          && stats.frames == old(stats.frames) + (if Accepted(first.value) then 1 else 0)
          && stats.errors == old(stats.errors) + (if Accepted(first.value) then 0 else 1))
      && (first.None? ==>
          && round == (if CutShort(tail) then BodyCut else AtEnd)
          && stats.frames == old(stats.frames)
          && stats.errors == old(stats.errors) + (if OversizedTail(tail) then 1 else 0))
  {
    ghost var tail := stream[pos..];
    if |stream| - pos < 4 {
      return AtEnd;
    }
    var header := stream[pos..pos + 4];
    var at := pos + 4;
    var payloadLength := FromBytes(header);
    assert tail[..4] == header;
    if payloadLength == 0 {
      stats.errors := stats.errors + 1;
      return Consumed(at, None);
    }
    if payloadLength > MAX_FRAME_SIZE {
      stats.errors := stats.errors + 1;
      var skipLen := if payloadLength < SKIP_LIMIT then payloadLength else SKIP_LIMIT;
      if |stream| - at < skipLen {
        return AtEnd;
      }
      return Consumed(at + skipLen, None);
    }
    if |stream| - at < payloadLength {
      return BodyCut;
    }
    var payload := stream[at..at + payloadLength];
    assert tail[4..4 + payloadLength] == payload;
    var parsed := ParseReceived(header, payload);
    match parsed {
      case Ok(frame) =>
        stats.frames := stats.frames + 1;
        return Consumed(at + payloadLength, Some(frame));
      case Err(_) =>
        stats.errors := stats.errors + 1;
        return Consumed(at + payloadLength, None);
    }
  }

  method ParseReceived(header: seq<Byte>, payload: seq<Byte>) returns (r: ParseResult)
    requires |header| == 4 && FromBytes(header) == |payload| && 0 < |payload| <= MAX_FRAME_SIZE
    ensures r == ParseAfterHeader(payload)
  {
    ListenerReachesTheBody(header, payload);
    r := ParseFrame(header + payload);
  }

  ghost predicate ReadSoFar(us: seq<Unit>, stream: seq<Byte>, pos: nat) {
    pos <= |stream| && AllWhole(us) && Join(us) == stream[..pos]
  }

  /** The loop stops where no whole unit is left. */
  lemma Ends(us: seq<Unit>, stream: seq<Byte>, pos: nat)
    requires ReadSoFar(us, stream, pos) && FirstUnit(stream[pos..]).None?
    ensures Cut(stream) == Pieces(us, stream[pos..])
  {
    CutUnique(us, stream[pos..]);
    assert stream == Join(us) + stream[pos..];
  }

  /** Otherwise it reads one more unit. */
  lemma Extends(us: seq<Unit>, stream: seq<Byte>, pos: nat)
    requires ReadSoFar(us, stream, pos) && FirstUnit(stream[pos..]).Some?
    ensures var u := FirstUnit(stream[pos..]).value;
      && |Bytes(u)| >= 4 && ReadSoFar(us + [u], stream, pos + |Bytes(u)|)
      && Frames(us + [u]) == Frames(us) + (if Accepted(u) then [ParseAfterHeader(u.body).value] else [])
      && Rejected(us + [u]) == Rejected(us) + if Accepted(u) then 0 else 1
  {
    var u := FirstUnit(stream[pos..]).value;
    JoinAppend(us, [u]);
    assert Join([u]) == Bytes(u);
    assert stream[..pos] + Bytes(u) == stream[..pos + |Bytes(u)|] by {
      assert stream[pos..][..|Bytes(u)|] == Bytes(u);
    }
    assert (us + [u])[..|us|] == us;
  }

  /** On the listener's path parse_frame sees the whole body: the header, zero-length,
      oversized, truncated-payload and missing-flags errors cannot come out of it. */
  lemma ListenerReachesTheBody(header: seq<Byte>, payload: seq<Byte>)
    requires |header| == 4 && FromBytes(header) == |payload| && 0 < |payload| <= MAX_FRAME_SIZE
    ensures var r := ParseFrame(header + payload);
      && r == ParseAfterHeader(payload)
      && (r.Err? ==> !r.error.TruncatedHeader? && !r.error.ZeroLengthPayload?
                     && !r.error.OversizedPayload? && !r.error.TruncatedPayload? && !r.error.TruncatedTraceFlags?)
  {
    assert (header + payload)[..4] == header;
    assert (header + payload)[4..4 + |payload|] == payload;
  }

  // ---------- how a connection ends ----------

  /** Which units there are: a zero-length header alone, a header and its whole body, an
      oversized header and 65536 bytes of what follows. */
  lemma WholeExactly(u: Unit)
    ensures Whole(u) <==>
      && |u.header| == 4
      && var n := FromBytes(u.header);
         |u.body| == if n <= 16_777_216 then n else 65536
  {
  }

  /** The units that are delivered are those with a body in range that parses. */
  lemma AcceptedExactly(u: Unit)
    requires Whole(u)
    ensures Accepted(u) <==> 0 < FromBytes(u.header) <= 16_777_216 && ParseFrame(u.header + u.body).Ok?
    ensures Accepted(u) ==> Frames([u]) == [ParseFrame(u.header + u.body).value]
  {
    if 0 < FromBytes(u.header) <= MAX_FRAME_SIZE {
      ListenerReachesTheBody(u.header, u.body);
    }
    assert [u][..0] == [];
  }

  lemma HeaderOf(n: nat, part: seq<Byte>)
    requires n < U32_LIMIT
    ensures FromBytes((ToBytes(n, 4) + part)[..4]) == n
  {
    U32RoundTrip(n);
    assert (ToBytes(n, 4) + part)[..4] == ToBytes(n, 4);
  }

  /** What the last read may come upon: less than a header, or a header that says n and
      less behind it than is read for that. */
  ghost predicate EndsIn(tail: seq<Byte>, n: nat, part: seq<Byte>) {
    n < U32_LIMIT && tail == ToBytes(n, 4) + part
  }

  lemma TailsExactly(tail: seq<Byte>)
    ensures FirstUnit(tail).None? <==>
      |tail| < 4 || exists n: nat, part: seq<Byte> :: EndsIn(tail, n, part) && |part| < if n <= 16_777_216 then n else 65536
  {
    if |tail| >= 4 {
      Reheaded(tail);
      forall n: nat, part: seq<Byte> | EndsIn(tail, n, part)
        ensures n == FromBytes(tail[..4]) && part == tail[4..]
      {
        HeaderOf(n, part);
      }
    }
  }

  lemma Reheaded(tail: seq<Byte>)
    requires |tail| >= 4
    ensures EndsIn(tail, FromBytes(tail[..4]), tail[4..])
  {
    U32Range(tail[..4]);
    EncodeDecode(tail[..4]);
    assert tail == tail[..4] + tail[4..];
  }

  /** A stream that breaks off inside a body in range ends in a payload read error. */
  lemma BodyCutShort(us: seq<Unit>, n: nat, part: seq<Byte>, end: StreamEnd)
    requires AllWhole(us) && 0 < n <= 16_777_216 && |part| < n
    ensures ConnectionResult(Join(us) + (ToBytes(n, 4) + part), end) == Err(PayloadRead)
    ensures ErrorsCounted(Join(us) + (ToBytes(n, 4) + part)) == Rejected(us)
  {
    HeaderOf(n, part);
    CutUnique(us, ToBytes(n, 4) + part);
  }

  /** One that breaks off inside what is skipped of an oversized body ends as one that
      breaks off at a header does, with one more error. */
  lemma SkipCutShort(us: seq<Unit>, n: nat, part: seq<Byte>)
    requires AllWhole(us) && 16_777_216 < n < U32_LIMIT && |part| < 65536
    ensures var stream := Join(us) + (ToBytes(n, 4) + part);
      && ConnectionResult(stream, Closed) == Ok(|Frames(us)|)
      && ConnectionResult(stream, Failed) == Err(HeaderRead)
      && ErrorsCounted(stream) == Rejected(us) + 1
  {
    HeaderOf(n, part);
    CutUnique(us, ToBytes(n, 4) + part);
  }

  lemma HeaderCutShort(us: seq<Unit>, part: seq<Byte>)
    requires AllWhole(us) && |part| < 4
    ensures var stream := Join(us) + part;
      && ConnectionResult(stream, Closed) == Ok(|Frames(us)|)
      && ConnectionResult(stream, Failed) == Err(HeaderRead)
      && ErrorsCounted(stream) == Rejected(us)
  {
    CutUnique(us, part);
  }

  /** Those are all the ways: a connection ends in a payload read error if and only if its
      stream breaks off inside a body in range; else a closed one ends with the number of
      its valid frames, and a failed one in a header read error. */
  lemma PayloadErrorExactly(stream: seq<Byte>, end: StreamEnd)
    ensures ConnectionResult(stream, end) == Err(PayloadRead) <==>
      exists us, n: nat, part :: AllWhole(us) && 0 < n <= 16_777_216 && |part| < n && BreaksOff(stream, us, n, part)
    ensures ConnectionResult(stream, end) != Err(PayloadRead) ==>
      ConnectionResult(stream, end) == if end.Failed? then Err(HeaderRead) else Ok(|Frames(Cut(stream).units)|)
  {
    hide Join, Cut, Frames;
    CutCovers(stream);
    var us, tail := Cut(stream).units, Cut(stream).tail;
    if CutShort(tail) {
      Reheaded(tail);
      BodyIsShort(tail);
      assert BreaksOff(stream, us, FromBytes(tail[..4]), tail[4..]);
    }
    if us', n: nat, part :| AllWhole(us') && 0 < n <= 16_777_216 && |part| < n && BreaksOff(stream, us', n, part) {
      BodyCutShort(us', n, part, end);
    }
  }

  ghost predicate BreaksOff(stream: seq<Byte>, us: seq<Unit>, n: nat, part: seq<Byte>) {
    stream == Join(us) + (ToBytes(n, 4) + part)
  }

  lemma BodyIsShort(tail: seq<Byte>)
    requires CutShort(tail) && FirstUnit(tail).None?
    ensures |tail[4..]| < FromBytes(tail[..4])
  {
  }

  // ---------- resynchronisation ----------

  /** After an oversized frame the loop goes on 65536 bytes into its body, not behind it. */
  lemma OversizedContinuesInsideBody(header: seq<Byte>, body: seq<Byte>, rest: seq<Byte>)
    requires |header| == 4 && FromBytes(header) == |body| > MAX_FRAME_SIZE
    ensures var inside := Cut(body[SKIP_LIMIT..] + rest);
      Cut(header + body + rest) == Pieces([Unit(header, body[..SKIP_LIMIT])] + inside.units, inside.tail)
  {
    var u := Unit(header, body[..SKIP_LIMIT]);
    var inside := body[SKIP_LIMIT..] + rest;
    assert header + body + rest == Bytes(u) + inside;
    FirstUnitOf(u, inside);
  }

  /** A unit ends after the first at bytes of s: what stands behind them is read from its
      first byte on. */
  ghost predicate Boundary(s: seq<Byte>, at: nat) {
    exists n :: 0 <= n <= |Cut(s).units| && |Join(Cut(s).units[..n])| == at
  }

  /** A stretch without a tail is cut on its own, whatever follows. */
  lemma CutAppend(inside: seq<Byte>, rest: seq<Byte>)
    requires Cut(inside).tail == []
    ensures Cut(inside + rest) == Pieces(Cut(inside).units + Cut(rest).units, Cut(rest).tail)
    ensures Join(Cut(inside).units) == inside
  {
    var us, vs := Cut(inside).units, Cut(rest).units;
    CutCovers(inside);
    CutCovers(rest);
    JoinAppend(us, vs);
    CutUnique(us + vs, Cut(rest).tail);
    Associative(Join(us), Join(vs), Cut(rest).tail);
    assert Join(us) + [] == Join(us);
  }

  /** Being in step: whatever rest is, it is read from its first byte if and only if what
      stands before it is made of whole units. */
  lemma InStepExactly(inside: seq<Byte>, rest: seq<Byte>)
    ensures Boundary(inside + rest, |inside|) <==> Cut(inside).tail == []
  {
    hide Cut, Join, Boundary;
    if Cut(inside).tail == [] {
      WholeUnitsEndInStep(inside, rest);
    }
    if Boundary(inside + rest, |inside|) {
      BoundaryEndsUnits(inside, rest);
    }
  }

  lemma WholeUnitsEndInStep(inside: seq<Byte>, rest: seq<Byte>)
    requires Cut(inside).tail == []
    ensures Boundary(inside + rest, |inside|)
  {
    hide Cut, Join;
    var n := |Cut(inside).units|;
    CutAppend(inside, rest);
    assert Cut(inside + rest).units[..n] == Cut(inside).units;
  }

  lemma BoundaryEndsUnits(inside: seq<Byte>, rest: seq<Byte>)
    requires Boundary(inside + rest, |inside|)
    ensures Cut(inside).tail == []
  {
    hide Cut, Join, AllWhole;
    var us := Cut(inside + rest).units;
    var n :| 0 <= n <= |us| && |Join(us[..n])| == |inside|;
    FrontOfCut(inside + rest, n);
    assert Join(us[..n]) == (inside + rest)[..|inside|] == inside;
    CutOfUnits(us[..n]);
  }

  lemma CutOfUnits(us: seq<Unit>)
    requires AllWhole(us)
    ensures Cut(Join(us)) == Pieces(us, [])
  {
    CutUnique(us, []);
    assert Join(us) + [] == Join(us);
  }

  lemma FrontOfCut(s: seq<Byte>, n: nat)
    requires n <= |Cut(s).units|
    ensures AllWhole(Cut(s).units[..n]) && Join(Cut(s).units[..n]) <= s
  {
    hide Cut, Join, Whole, FirstUnit;
    var us := Cut(s).units;
    CutCovers(s);
    JoinAppend(us[..n], us[n..]);
    assert us == us[..n] + us[n..];
  }

  /** So after an oversized frame the loop is back in step with what follows it if and only
      if the unread part of the body happens to be made of whole units. */
  lemma OversizedResynchronisesExactly(header: seq<Byte>, body: seq<Byte>, rest: seq<Byte>)
    requires |header| == 4 && FromBytes(header) == |body| > MAX_FRAME_SIZE
    ensures Boundary(header + body + rest, |header + body|) <==> Cut(body[SKIP_LIMIT..]).tail == []
  {
    OversizedContinuesInsideBody(header, body, []);
    assert body[SKIP_LIMIT..] + [] == body[SKIP_LIMIT..] && header + body + [] == header + body;
    InStepExactly(header + body, rest);
  }

  /** Those units are then read as frames of their own. */
  lemma OversizedResynchronises(header: seq<Byte>, body: seq<Byte>, rest: seq<Byte>)
    requires |header| == 4 && FromBytes(header) == |body| > MAX_FRAME_SIZE
    requires Cut(body[SKIP_LIMIT..]).tail == []
    ensures Cut(header + body + rest) ==
            Pieces([Unit(header, body[..SKIP_LIMIT])] + (Cut(body[SKIP_LIMIT..]).units + Cut(rest).units), Cut(rest).tail)
  {
    OversizedContinuesInsideBody(header, body, rest);
    CutAppend(body[SKIP_LIMIT..], rest);
  }

  /** A valid frame behind an oversized one can be lost: one odd body byte shifts the
      frame's length prefix, which is then read as a zero-length header. */
  lemma FrameLostAfterOversized() returns (header: seq<Byte>, body: seq<Byte>, frame: seq<Byte>)
    ensures |header| == 4 && FromBytes(header) == |body| > MAX_FRAME_SIZE
    ensures ParseFrame(frame).Ok? && Frames(Cut(frame).units) == [ParseFrame(frame).value]
    ensures Frames(Cut(header + body + frame).units) == []
  {
    frame := [0, 0, 0, 1, 0];
    ShortestFrame(frame);
    header, body := OversizedHeader();
    LostBehind(header, body, frame);
  }

  lemma OversizedHeader() returns (header: seq<Byte>, body: seq<Byte>)
    ensures |header| == 4 && FromBytes(header) == |body| == MAX_FRAME_SIZE + 1
    ensures forall i :: 0 <= i < |body| ==> body[i] == 0
  {
    var n := MAX_FRAME_SIZE + 1;
    header, body := ToBytes(n, 4), seq(n, _ => 0);
    U32RoundTrip(n);
  }

  lemma LostBehind(header: seq<Byte>, body: seq<Byte>, frame: seq<Byte>)
    requires |header| == 4 && FromBytes(header) == |body| == MAX_FRAME_SIZE + 1
    requires forall i :: 0 <= i < |body| ==> body[i] == 0
    requires frame == [0, 0, 0, 1, 0]
    ensures Frames(Cut(header + body + frame).units) == []
  {
    hide Cut, Frames, Accepted;
    OversizedContinuesInsideBody(header, body, frame);
    OversizedIsNotAccepted(header, body[..SKIP_LIMIT]);
    ShiftedByOne(body[SKIP_LIMIT..], frame);
    NoFrames([Unit(header, body[..SKIP_LIMIT])] + Cut(body[SKIP_LIMIT..] + frame).units);
  }

  lemma OversizedIsNotAccepted(header: seq<Byte>, body: seq<Byte>)
    requires FromBytes(header) > MAX_FRAME_SIZE
    ensures !Accepted(Unit(header, body))
  {
  }

  lemma ShiftedByOne(zeros: seq<Byte>, frame: seq<Byte>)
    requires |zeros| % 4 == 1 && (forall i :: 0 <= i < |zeros| ==> zeros[i] == 0)
    requires frame == [0, 0, 0, 1, 0]
    ensures forall i :: 0 <= i < |Cut(zeros + frame).units| ==> !Accepted(Cut(zeros + frame).units[i])
  {
    var k := |zeros| / 4 + 1;
    var us := seq(k, _ => ZERO_UNIT);
    ZeroUnitIsWhole();
    JoinZeros(k);
    assert zeros + frame == Join(us) + [1, 0];
    CutUnique(us, [1, 0]);
  }

  lemma ShortestFrame(frame: seq<Byte>)
    requires frame == [0, 0, 0, 1, 0]
    ensures ParseFrame(frame).Ok? && Frames(Cut(frame).units) == [ParseFrame(frame).value]
  {
    var h := frame[..4];
    assert h[..3] == [0, 0, 0] && h[3] == 1;
    assert [0, 0, 0][..2] == [0, 0] && [0, 0][..1] == [0];
    assert FromBytes([0]) == 0 && FromBytes([0, 0]) == 0 && FromBytes([0, 0, 0]) == 0;
    assert FromBytes(h) == 1;
    var u := Unit(h, [0]);
    assert frame == h + [0];
    ListenerReachesTheBody(h, [0]);
    assert Join([u]) + [] == frame;
    CutUnique([u], []);
    assert [u][..0] == [];
  }

  const ZERO_UNIT := Unit([0, 0, 0, 0], [])

  lemma ZeroUnitIsWhole()
    ensures FromBytes([0, 0, 0, 0]) == 0 && Whole(ZERO_UNIT)
  {
    assert [0, 0, 0, 0][..3] == [0, 0, 0] && [0, 0, 0][..2] == [0, 0] && [0, 0][..1] == [0];
    assert FromBytes([0]) == 0 && FromBytes([0, 0]) == 0 && FromBytes([0, 0, 0]) == 0;
  }

  lemma {:induction false} JoinZeros(k: nat)
    ensures Join(seq(k, _ => ZERO_UNIT)) == seq(4 * k, _ => 0)
  {
    if k > 0 {
      JoinZeros(k - 1);
      assert seq(k, _ => ZERO_UNIT)[1..] == seq(k - 1, _ => ZERO_UNIT);
    }
  }

  lemma {:induction false} NoFrames(us: seq<Unit>)
    requires forall i :: 0 <= i < |us| ==> !Accepted(us[i])
    ensures Frames(us) == []
  {
    if us != [] { NoFrames(us[..|us| - 1]); }
  }
}
