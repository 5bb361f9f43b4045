/** The Go encoder against the Rust parser: what round-trips, exactly when, and
    why a stream of frames can be cut in one way only. */
module FrameRoundTrip {
  import opened BigEndian
  import opened Wrappers
  import opened Frame
  import opened IpcParser
  import Trace
  import Utf8

  function AsTraceInfo(t: Option<TraceFields>): Option<TraceInfo> {
    match t
    case None => None
    case Some(f) => Some(TraceInfo(f.timestampMs, f.exchange))
  }

  /** The parsed frame a sender of payload under traceID means. */
  function Intended(payload: seq<Byte>, traceID: seq<Byte>, now: nat): ParsedFrame {
    ParsedFrame(payload, AsTraceInfo(TraceOf(traceID, now)))
  }

  /** The two things a sender can check: the size, and that cutting the exchange
      name to 32 bytes does not cut a character. */
  predicate Fits(payload: seq<Byte>, traceID: seq<Byte>, now: nat) {
    |Header(TraceOf(traceID, now))| + |payload| <= MAX_FRAME_SIZE
  }

  predicate TagReadable(traceID: seq<Byte>, now: nat) {
    var t := TraceOf(traceID, now);
    t.Some? ==> Utf8.Valid(t.value.exchange)
  }

  // ---------- one frame ----------

  lemma ParseHeader(payload: seq<Byte>, t: Option<TraceFields>)
    requires t.Some? ==> |t.value.exchange| <= Frame.MAX_EXCHANGE_TAG && t.value.timestampMs < U64_LIMIT
    ensures ParseAfterHeader(Header(t) + payload) ==
            if t.Some? && !Utf8.Valid(t.value.exchange) then Err(InvalidUtf8InExchangeTag)
            else Ok(ParsedFrame(payload, AsTraceInfo(t)))
  {
    var after := Header(t) + payload;
    match t {
      case None =>
        assert after[1..] == payload;
      case Some(f) =>
        U64RoundTrip(f.timestampMs);
        assert after[1..9] == ToBytes(f.timestampMs, 8);
        assert after[10..10 + |f.exchange|] == f.exchange;
        assert after[10 + |f.exchange|..] == payload;
    }
  }

  lemma ParsePrefixed(body: seq<Byte>)
    ensures var n := |body| % U32_LIMIT;
      ParseFrame(LengthPrefixed(body)) ==
      if n == 0 then Err(ZeroLengthPayload)
      else if n > MAX_FRAME_SIZE then Err(OversizedPayload(n))
      else ParseAfterHeader(body[..n])
  {
    var n := |body| % U32_LIMIT;
    U32RoundTrip(n);
    assert LengthPrefixed(body)[..4] == ToBytes(n, 4);
    assert LengthPrefixed(body)[4..4 + n] == body[..n];
  }

  lemma ParseEncoded(payload: seq<Byte>, t: Option<TraceFields>)
    requires t.Some? ==> |t.value.exchange| <= Frame.MAX_EXCHANGE_TAG && t.value.timestampMs < U64_LIMIT
    requires (|Header(t)| + |payload|) % U32_LIMIT >= |Header(t)|
    ensures var n := (|Header(t)| + |payload|) % U32_LIMIT;
      ParseFrame(LengthPrefixed(Header(t) + payload)) ==
      if n > MAX_FRAME_SIZE then Err(OversizedPayload(n))
      else if t.Some? && !Utf8.Valid(t.value.exchange) then Err(InvalidUtf8InExchangeTag)
      else Ok(ParsedFrame(payload[..n - |Header(t)|], AsTraceInfo(t)))
  {
    hide ParseFrame, ParseAfterHeader, LengthPrefixed, Header;
    var header := Header(t);
    var n := (|header| + |payload|) % U32_LIMIT;
    ParsePrefixed(header + payload);
    ParseHeader(payload[..n - |header|], t);
    assert (header + payload)[..n] == header + payload[..n - |header|];
  }

  /** Round trip: for every payload and trace ID, the parser gives back the payload,
      the timestamp and the tag cut to 32 bytes exactly when the frame fits and the
      cut tag is UTF-8. That includes payloads whose length wraps a uint32. */
  lemma RoundTrip(payload: seq<Byte>, traceID: seq<Byte>, now: nat)
    requires now < U64_LIMIT
    ensures (&& TracedFrame(payload, traceID, now).Some?
             && ParseFrame(TracedFrame(payload, traceID, now).value) == Ok(Intended(payload, traceID, now)))
            <==> Fits(payload, traceID, now) && TagReadable(traceID, now)
  {
    hide ParseFrame, LengthPrefixed, Header, ParsedTraceID;
    var t := TraceOf(traceID, now);
    var size := |Header(t)| + |payload|;
    if size % U32_LIMIT >= |Header(t)| {
      ParseEncoded(payload, t);
      if size < U32_LIMIT {
        assert payload[..size - |Header(t)|] == payload;
      }
    }
  }

  /** The one way a frame that fits is refused: a character split by the cut. */
  lemma SplitTagIsRefused(payload: seq<Byte>, traceID: seq<Byte>, now: nat)
    requires now < U64_LIMIT && Fits(payload, traceID, now) && !TagReadable(traceID, now)
    ensures TracedFrame(payload, traceID, now).Some?
    ensures ParseFrame(TracedFrame(payload, traceID, now).value) == Err(InvalidUtf8InExchangeTag)
  {
    hide ParseFrame, LengthPrefixed, Header, ParsedTraceID;
    ParseEncoded(payload, TraceOf(traceID, now));
  }

  /** A well-formed exchange name of 33 bytes whose cut is not well-formed: 31 letters
      and a two-byte character. Whatever the generator makes of it, and whatever the
      payload, the frame is refused. */
  lemma CutCanSplitACharacter(payload: seq<Byte>, ts: nat, sequence: nat, now: nat)
    returns (exchange: seq<Byte>, traceID: seq<Byte>)
    requires |payload| <= MAX_FRAME_SIZE - 42 && 0 < ts < 0x8000_0000_0000_0000 && now < U64_LIMIT
    ensures Utf8.Valid(exchange) && |exchange| == 33 && !Utf8.Valid(Truncated(exchange))
    ensures traceID == Trace.TraceID(exchange, ts, sequence)
    ensures TracedFrame(payload, traceID, now).Some?
    ensures ParseFrame(TracedFrame(payload, traceID, now).value) == Err(InvalidUtf8InExchangeTag)
  {
    hide ParseFrame, TracedFrame, ParsedTraceID, Trace.TraceID;
    exchange := LettersAndTwoBytes();
    traceID := Trace.TraceID(exchange, ts, sequence);
    Trace.GeneratedIDParses(exchange, ts, sequence, now);
    SplitTagIsRefused(payload, traceID, now);
  }

  lemma LettersAndTwoBytes() returns (exchange: seq<Byte>)
    ensures Utf8.Valid(exchange) && |exchange| == 33 && !Utf8.Valid(Truncated(exchange)) && DASH !in exchange
  {
    var letters: seq<Byte> := seq(31, _ => 0x61);
    exchange := letters + [0xC3, 0xA9];
    Utf8.AsciiThen(letters, [0xC3, 0xA9]);
    Utf8.AsciiThen(letters, [0xC3]);
    assert [0xC3, 0xA9][2..] == [];
    assert Truncated(exchange) == letters + [0xC3];
  }

  /** SerializeFrame writes no flags byte, so the parser takes the first payload byte
      for one: the payload never comes back, whatever it is. */
  lemma LegacyFrameNeverRoundTrips(payload: seq<Byte>)
    ensures var r := ParseFrame(LengthPrefixed(payload));
      && (r.Ok? ==> |r.value.payload| < |payload|)
      && (0 < |payload| <= MAX_FRAME_SIZE && payload[0] % 2 == 0
          ==> r == Ok(ParsedFrame(payload[1..], None)))
  {
    var n := |payload| % U32_LIMIT;
    ParsePrefixed(payload);
    if 0 < |payload| <= MAX_FRAME_SIZE {
      assert payload[..n] == payload;
    }
  }

  /** Two different messages that fit never produce the same frame. */
  lemma EncodingInjective(p1: seq<Byte>, id1: seq<Byte>, p2: seq<Byte>, id2: seq<Byte>, now1: nat, now2: nat)
    requires now1 < U64_LIMIT && Fits(p1, id1, now1) && now2 < U64_LIMIT && Fits(p2, id2, now2)
    requires TagReadable(id1, now1) && TagReadable(id2, now2)
    requires TracedFrame(p1, id1, now1) == TracedFrame(p2, id2, now2)
    ensures Intended(p1, id1, now1) == Intended(p2, id2, now2)
  {
    RoundTrip(p1, id1, now1);
    RoundTrip(p2, id2, now2);
  }

  // ---------- the other way round ----------

  function AsTraceFields(t: Option<TraceInfo>): Option<TraceFields> {
    match t
    case None => None
    case Some(i) => Some(TraceFields(i.exchangeTag, i.timestampMs))
  }

  /** Trace fields that a header can hold and a parser reads. */
  predicate Carriable(t: Option<TraceFields>) {
    match t
    case None => true
    case Some(f) => |f.exchange| <= Frame.MAX_EXCHANGE_TAG && f.timestampMs < U64_LIMIT && Utf8.Valid(f.exchange)
  }

  /** raw begins with an encoding of f as the encoder would make it, but for the seven
      flag bits that have no meaning. */
  predicate Encodes(raw: seq<Byte>, flags: Byte, f: ParsedFrame) {
    var t := AsTraceFields(f.trace);
    && Carriable(t)
    && (flags % 2 == 1 <==> t.Some?)
    && var body := [flags] + (Header(t)[1..] + f.payload);
      |body| <= MAX_FRAME_SIZE && LengthPrefixed(body) <= raw
  }

  /** The parser against the encoder's format: it accepts exactly the byte strings that
      begin with an encoding, and gives back what is encoded. */
  lemma AcceptedExactlyEncodings(raw: seq<Byte>, f: ParsedFrame)
    ensures ParseFrame(raw) == Ok(f) <==> |raw| > 4 && Encodes(raw, raw[4], f)
  {
    hide ParseAfterHeader, LengthPrefixed, Header, Encodes;
    if |raw| > 4 && Encodes(raw, raw[4], f) {
      EncodingIsAccepted(raw, f);
    }
    if ParseFrame(raw) == Ok(f) {
      AcceptedIsEncoding(raw, f);
    }
  }

  lemma EncodingIsAccepted(raw: seq<Byte>, f: ParsedFrame)
    requires |raw| > 4 && Encodes(raw, raw[4], f)
    ensures ParseFrame(raw) == Ok(f)
  {
    hide ParseAfterHeader, Header, LengthPrefixed, Utf8.Valid;
    PrefixedSlices(raw, [raw[4]] + (Header(AsTraceFields(f.trace))[1..] + f.payload));
    BodyParses(raw[4], f);
  }

  lemma PrefixedSlices(raw: seq<Byte>, body: seq<Byte>)
    requires |body| <= MAX_FRAME_SIZE && LengthPrefixed(body) <= raw
    ensures |raw| >= 4 + |body| && FromBytes(raw[..4]) == |body| && raw[4..4 + |body|] == body
  {
    assert body[..|body|] == body;
    U32RoundTrip(|body|);
    assert raw[..4] == LengthPrefixed(body)[..4] == ToBytes(|body|, 4);
    assert raw[4..4 + |body|] == LengthPrefixed(body)[4..] == body;
  }

  /** Only the lowest flag bit matters. */
  lemma FlagBits(a: Byte, b: Byte, rest: seq<Byte>)
    requires a % 2 == b % 2
    ensures ParseAfterHeader([a] + rest) == ParseAfterHeader([b] + rest)
  {
    var x, y := [a] + rest, [b] + rest;
    assert x[1..] == y[1..];
    assert forall i :: 1 <= i < |x| ==> x[i] == y[i];
    if |x| >= 10 {
      assert x[1..9] == y[1..9];
      var n := x[9];
      if 10 + n <= |x| {
        assert x[10..10 + n] == y[10..10 + n] && x[10 + n..] == y[10 + n..];
      }
    }
  }

  lemma HeaderFlag(t: Option<TraceFields>)
    requires Carriable(t)
    ensures var h := Header(t); h == [h[0]] + h[1..] && (h[0] % 2 == 1 <==> t.Some?)
  {
  }

  lemma BodyParses(flags: Byte, f: ParsedFrame)
    requires Carriable(AsTraceFields(f.trace)) && (flags % 2 == 1 <==> f.trace.Some?)
    ensures ParseAfterHeader([flags] + (Header(AsTraceFields(f.trace))[1..] + f.payload)) == Ok(f)
  {
    hide ParseAfterHeader, Header;
    var t := AsTraceFields(f.trace);
    var h := Header(t);
    HeaderFlag(t);
    FlagBits(flags, h[0], h[1..] + f.payload);
    assert h + f.payload == [h[0]] + (h[1..] + f.payload);
    ParseHeader(f.payload, t);
  }

  lemma AcceptedIsEncoding(raw: seq<Byte>, f: ParsedFrame)
    requires ParseFrame(raw) == Ok(f)
    ensures |raw| > 4 && Encodes(raw, raw[4], f)
  {
    hide ParseAfterHeader, Header, LengthPrefixed, Carriable;
    var n := FromBytes(raw[..4]);
    AcceptedBody(raw[4..4 + n], f);
    Prefixed(raw, n);
  }

  lemma Prefixed(raw: seq<Byte>, n: nat)
    requires |raw| >= 4 + n && n == FromBytes(raw[..4])
    ensures LengthPrefixed(raw[4..4 + n]) <= raw
  {
    var after := raw[4..4 + n];
    U32Range(raw[..4]);
    EncodeDecode(raw[..4]);
    assert after[..n] == after;
    assert LengthPrefixed(after) == raw[..4] + after == raw[..4 + n];
  }

  lemma AcceptedBody(after: seq<Byte>, f: ParsedFrame)
    requires ParseAfterHeader(after) == Ok(f)
    ensures Carriable(AsTraceFields(f.trace))
    ensures after != [] && (after[0] % 2 == 1 <==> f.trace.Some?)
    ensures after == [after[0]] + (Header(AsTraceFields(f.trace))[1..] + f.payload)
  {
    hide Utf8.Valid, FromBytes, ToBytes;
    if f.trace.Some? {
      Widths();
      EncodeDecode(after[1..9]);
      TracedBody(after, f.trace.value, f.payload);
    } else {
      assert after == [after[0]] + ([] + after[1..]);
    }
  }

  lemma TracedBody(after: seq<Byte>, i: TraceInfo, payload: seq<Byte>)
    requires |after| >= 10 + |i.exchangeTag| && after[9] == |i.exchangeTag| <= Frame.MAX_EXCHANGE_TAG
    requires after[1..9] == ToBytes(i.timestampMs, 8) && after[10..10 + |i.exchangeTag|] == i.exchangeTag
    requires after[10 + |i.exchangeTag|..] == payload
    ensures after == [after[0]] + (Header(Some(TraceFields(i.exchangeTag, i.timestampMs)))[1..] + payload)
  {
    var tag, stamp := i.exchangeTag, after[1..9];
    assert Header(Some(TraceFields(tag, i.timestampMs)))[1..] == stamp + [|tag|] + tag;
    assert after[..10] == [after[0]] + stamp + [|tag|];
    assert after == after[..10] + tag + payload;
    assert after[..10] + tag + payload == [after[0]] + (stamp + [|tag|] + tag + payload);
  }

  // ---------- many frames ----------

  /** A frame whose length prefix counts exactly the bytes behind it. */
  predicate SelfDelimiting(f: seq<Byte>) {
    |f| >= 4 && |f| == 4 + FromBytes(f[..4])
  }

  lemma PrefixedIsSelfDelimiting(body: seq<Byte>)
    ensures SelfDelimiting(LengthPrefixed(body))
  {
    U32RoundTrip(|body| % U32_LIMIT);
    assert LengthPrefixed(body)[..4] == ToBytes(|body| % U32_LIMIT, 4);
  }

  function Concat(fs: seq<seq<Byte>>): (s: seq<Byte>)
  {
    if fs == [] then [] else fs[0] + Concat(fs[1..])
  }

  /** No frame, traced or not, is a proper prefix of another. */
  lemma PrefixFree(f: seq<Byte>, g: seq<Byte>)
    requires SelfDelimiting(f) && SelfDelimiting(g) && f <= g
    ensures f == g
  {
    assert f[..4] == g[..4];
  }

  /** A byte stream is the concatenation of at most one list of frames. */
  lemma {:induction false} UniquelyDecodable(fs: seq<seq<Byte>>, gs: seq<seq<Byte>>)
    requires forall f :: f in fs ==> SelfDelimiting(f)
    requires forall g :: g in gs ==> SelfDelimiting(g)
    requires Concat(fs) == Concat(gs)
    ensures fs == gs
  {
    if fs != [] { assert fs[0] in fs; assert |Concat(fs)| >= 4; }
    if gs != [] { assert gs[0] in gs; assert |Concat(gs)| >= 4; }
    if fs != [] && gs != [] {
      var f, g, s := fs[0], gs[0], Concat(fs);
      assert f == s[..|f|] && g == s[..|g|];
      assert f[..4] == s[..4] && g[..4] == s[..4];
      assert Concat(fs[1..]) == s[|f|..] && Concat(gs[1..]) == s[|g|..];
      UniquelyDecodable(fs[1..], gs[1..]);
      assert fs == [f] + fs[1..] && gs == [g] + gs[1..];
    }
  }
}
