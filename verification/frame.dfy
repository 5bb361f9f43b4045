/** Frame encoding on the Go side: trace IDs are taken apart and written into
    the trace header of a length-prefixed frame. Go strings are byte sequences. */
module Frame {
  import opened BigEndian
  import opened Wrappers

  const DASH: Byte := 0x2D
  const ZERO: Byte := 0x30
  const NINE: Byte := 0x39
  const FLAG_TRACE_PRESENT: Byte := 1
  const MAX_EXCHANGE_TAG := 32

  datatype TraceFields = TraceFields(exchange: seq<Byte>, timestampMs: nat)
  datatype TraceIDError = TooFewParts | TimestampNotNumeric

  // ---------- strings.SplitN and decimal numbers ----------

  function IndexOf(s: seq<Byte>, sep: Byte): (i: nat)
    ensures i <= |s| && (i < |s| ==> s[i] == sep) && sep !in s[..i]
  {
    if s == [] || s[0] == sep then 0 else
      var i := 1 + IndexOf(s[1..], sep);
      assert s[..i] == [s[0]] + s[1..][..i - 1];
      i
  }

  /** At most n parts, which joined give s; only an n-th one may hold further separators. */
  function SplitN(s: seq<Byte>, sep: Byte, n: nat): (parts: seq<seq<Byte>>)
    requires n >= 1
    ensures 1 <= |parts| <= n && Joined(parts, sep) == s
    ensures forall i :: 0 <= i < |parts| && (i < n - 1 || |parts| < n) ==> sep !in parts[i]
    decreases n
  {
    var i := IndexOf(s, sep);
    if n == 1 then [s]
    else if i == |s| then assert s[..i] == s; [s]
    else
      assert s == s[..i] + [sep] + s[i + 1..];
      [s[..i]] + SplitN(s[i + 1..], sep, n - 1)
  }

  /** The parts with a separator between each two. */
  function Joined(parts: seq<seq<Byte>>, sep: Byte): (s: seq<Byte>) {
    if parts == [] then [] else if |parts| == 1 then parts[0] else parts[0] + [sep] + Joined(parts[1..], sep)
  }

  predicate IsDigit(b: Byte) { ZERO <= b <= NINE }

  predicate AllDigits(s: seq<Byte>) {
    forall i :: 0 <= i < |s| ==> IsDigit(s[i])
  }

  function DecimalValue(s: seq<Byte>): (v: nat)
    requires AllDigits(s)
  {
    if s == [] then 0 else 10 * DecimalValue(s[..|s| - 1]) + (s[|s| - 1] - ZERO)
  }

  /** What parseTraceID returns: the part before the first dash and, as a uint64,
      the number between the first two, or the current time when that is zero. */
  function ParsedTraceID(traceID: seq<Byte>, now: nat): (r: Result<TraceFields, TraceIDError>)
  {
    var parts := SplitN(traceID, DASH, 3);
    if |parts| < 3 then Err(TooFewParts)
    else if !AllDigits(parts[1]) then Err(TimestampNotNumeric)
    else
      var ts := DecimalValue(parts[1]) % U64_LIMIT;
      Ok(TraceFields(parts[0], if ts == 0 then now else ts))
  }

  lemma {:induction false} FirstSeparator(a: seq<Byte>, rest: seq<Byte>)
    ensures DASH !in a ==> IndexOf(a + [DASH] + rest, DASH) == |a|
    ensures DASH in a ==> IndexOf(a + rest, DASH) < |a|
  {
    if a != [] {
      FirstSeparator(a[1..], rest);
      assert (a + [DASH] + rest)[1..] == a[1..] + [DASH] + rest;
      assert (a + rest)[1..] == a[1..] + rest;
    }
  }

  lemma PartsOf(exchange: seq<Byte>, middle: seq<Byte>, last: seq<Byte>)
    requires DASH !in exchange && DASH !in middle
    ensures SplitN(exchange + [DASH] + (middle + [DASH] + last), DASH, 3) == [exchange, middle, last]
  {
    var tail := middle + [DASH] + last;
    var s := exchange + [DASH] + tail;
    FirstSeparator(exchange, tail);
    assert s[..|exchange|] == exchange && s[|exchange| + 1..] == tail;
    FirstSeparator(middle, last);
    assert tail[..|middle|] == middle && tail[|middle| + 1..] == last;
    assert SplitN(last, DASH, 1) == [last];
  }

  /** What is read, by the ID's form: an exchange, a dash, digits, a dash, and anything. */
  ghost predicate HasForm(traceID: seq<Byte>, exchange: seq<Byte>, digits: seq<Byte>, rest: seq<Byte>) {
    && traceID == exchange + [0x2D] + (digits + [0x2D] + rest)
    && 0x2D !in exchange && 0x2D !in digits
  }

  /** The exchange and the number between the first two dashes, as 64 bits, are read; anything
      but digits between them is an error. */
  lemma ParsedExactly(traceID: seq<Byte>, exchange: seq<Byte>, digits: seq<Byte>, rest: seq<Byte>, now: nat)
    requires HasForm(traceID, exchange, digits, rest)
    ensures (exists i :: 0 <= i < |digits| && !(0x30 <= digits[i] <= 0x39)) ==>
      ParsedTraceID(traceID, now) == Err(TimestampNotNumeric)
    ensures (forall i :: 0 <= i < |digits| ==> 0x30 <= digits[i] <= 0x39) ==>
      AllDigits(digits) && var ts := DecimalValue(digits) % 0x1_0000_0000_0000_0000;
      ParsedTraceID(traceID, now) == Ok(TraceFields(exchange, if ts == 0 then now else ts))
  {
    hide DecimalValue, SplitN;
    PartsOf(exchange, digits, rest);
  }

  predicate TwoDashes(traceID: seq<Byte>) {
    exists i, j :: 0 <= i < j < |traceID| && traceID[i] == 0x2D && traceID[j] == 0x2D
  }

  lemma TwoDashesSplit(traceID: seq<Byte>)
    ensures |SplitN(traceID, DASH, 3)| == 3 <==> TwoDashes(traceID)
  {
    var i := IndexOf(traceID, DASH);
    if i < |traceID| {
      var tail := traceID[i + 1..];
      var j := IndexOf(tail, DASH);
      if j < |tail| {
        assert traceID[i] == DASH && traceID[i + 1 + j] == DASH;
      } else {
        assert tail[..j] == tail;
        OneDash(traceID, i);
      }
    } else {
      assert traceID[..i] == traceID;
    }
  }

  lemma OneDash(traceID: seq<Byte>, i: nat)
    requires i < |traceID| && DASH !in traceID[..i] && DASH !in traceID[i + 1..]
    ensures !TwoDashes(traceID)
  {
    assert forall k :: 0 <= k < i ==> traceID[k] == traceID[..i][k];
    assert forall k :: i < k < |traceID| ==> traceID[k] == traceID[i + 1..][k - i - 1];
  }

  /** And every ID with two dashes has that form. */
  lemma TwoDashesHaveForm(traceID: seq<Byte>) returns (exchange: seq<Byte>, digits: seq<Byte>, rest: seq<Byte>)
    requires exists i, j :: 0 <= i < j < |traceID| && traceID[i] == 0x2D && traceID[j] == 0x2D
    ensures HasForm(traceID, exchange, digits, rest)
  {
    TwoDashesSplit(traceID);
    var i := IndexOf(traceID, DASH);
    var tail := traceID[i + 1..];
    var j := IndexOf(tail, DASH);
    exchange, digits, rest := traceID[..i], tail[..j], tail[j + 1..];
    assert tail == digits + [DASH] + rest;
  }

  /** With fewer than two dashes there is nothing to read, and the frame is the untraced one. */
  lemma TooFewDashes(payload: seq<Byte>, traceID: seq<Byte>, now: nat)
    ensures ParsedTraceID(traceID, now) == Err(TooFewParts) <==>
      !(exists i, j :: 0 <= i < j < |traceID| && traceID[i] == 0x2D && traceID[j] == 0x2D)
    ensures ParsedTraceID(traceID, now) == Err(TooFewParts) ==>
      TracedFrame(payload, traceID, now) == TracedFrame(payload, [], now)
  {
    hide SplitN, DecimalValue, Header;
    TwoDashesSplit(traceID);
    EmptyTraceIDIsMalformed(now);
  }

  /** Numbers are decimal. */
  lemma DecimalExactly(s: seq<Byte>, digit: Byte)
    requires AllDigits(s) && 0x30 <= digit <= 0x39
    ensures AllDigits(s + [digit]) && DecimalValue(s + [digit]) == 10 * DecimalValue(s) + (digit - 0x30)
    ensures DecimalValue([]) == 0
  {
    assert (s + [digit])[..|s|] == s;
  }

  lemma EmptyTraceIDIsMalformed(now: nat)
    ensures ParsedTraceID([], now) == Err(TooFewParts)
  {
  }

  /** The loop reduces to 64 bits at every digit, the specification once. */
  method ParseTraceID(traceID: seq<Byte>, now: nat) returns (r: Result<TraceFields, TraceIDError>)
    ensures r == ParsedTraceID(traceID, now)
  {
    hide SplitN, Joined, DecimalValue;
    var parts := SplitN(traceID, DASH, 3);
    if |parts| < 3 {
      return Err(TooFewParts);
    }
    var exchange, tsStr := parts[0], parts[1];
    var tsMs := 0;
    NoDigits(tsStr);
    for i := 0 to |tsStr|
      invariant AllDigits(tsStr[..i])
      invariant tsMs == DecimalValue(tsStr[..i]) % U64_LIMIT
    {
      var c := tsStr[i];
      if c < ZERO || c > NINE {
        return Err(TimestampNotNumeric);
      }
      OneMoreDigit(tsStr, i);
      tsMs := (tsMs * 10 + (c - ZERO)) % U64_LIMIT;
    }
    assert tsStr[..|tsStr|] == tsStr;
    if tsMs == 0 {
      tsMs := now;
    }
    return Ok(TraceFields(exchange, tsMs));
  }

  lemma NoDigits(s: seq<Byte>)
    ensures DecimalValue(s[..0]) == 0
  {
  }

  lemma OneMoreDigit(s: seq<Byte>, i: nat)
    requires i < |s| && AllDigits(s[..i]) && IsDigit(s[i])
    ensures AllDigits(s[..i + 1])
    ensures DecimalValue(s[..i + 1]) % U64_LIMIT == ((DecimalValue(s[..i]) % U64_LIMIT) * 10 + (s[i] - ZERO)) % U64_LIMIT
  {
    assert s[..i + 1][..i] == s[..i];
    WrapStep(DecimalValue(s[..i]), s[i] - ZERO);
  }

  lemma WrapStep(v: nat, d: nat)
    ensures ((v % U64_LIMIT) * 10 + d) % U64_LIMIT == (10 * v + d) % U64_LIMIT
  {
    var q, m := v / U64_LIMIT, v % U64_LIMIT;
    assert 10 * v + d == (m * 10 + d) + U64_LIMIT * (10 * q);
    ModShift(m * 10 + d, 10 * q);
  }

  lemma ModShift(a: nat, k: nat)
    ensures (a + U64_LIMIT * k) % U64_LIMIT == a % U64_LIMIT
  {
    var q, m := a / U64_LIMIT, a % U64_LIMIT;
    assert a + U64_LIMIT * k == m + U64_LIMIT * (q + k);
    UniqueRemainder(a + U64_LIMIT * k, q + k, m);
  }

  lemma UniqueRemainder(a: nat, q: nat, m: nat)
    requires a == m + U64_LIMIT * q && m < U64_LIMIT
    ensures a % U64_LIMIT == m
  {
    var q', m' := a / U64_LIMIT, a % U64_LIMIT;
    assert m - m' == U64_LIMIT * (q' - q);
  }

  // ---------- the trace header ----------

  function Truncated(exchange: seq<Byte>): (tag: seq<Byte>)
    ensures |tag| <= MAX_EXCHANGE_TAG && tag <= exchange
  {
    if |exchange| > MAX_EXCHANGE_TAG then exchange[..MAX_EXCHANGE_TAG] else exchange
  }

  /** The trace a frame carries: none for an empty or malformed trace ID. */
  function TraceOf(traceID: seq<Byte>, now: nat): (t: Option<TraceFields>)
    ensures t.Some? ==> |t.value.exchange| <= MAX_EXCHANGE_TAG
    ensures t.Some? && now < U64_LIMIT ==> t.value.timestampMs < U64_LIMIT
  {
    match ParsedTraceID(traceID, now)
    case Err(_) => None
    case Ok(f) => Some(f.(exchange := Truncated(f.exchange)))
  }

  /** Everything between the length prefix and the payload. */
  function Header(t: Option<TraceFields>): (h: seq<Byte>)
    requires t.Some? ==> |t.value.exchange| <= MAX_EXCHANGE_TAG
    ensures |h| == if t.None? then 1 else 10 + |t.value.exchange|
  {
    match t
    case None => [0]
    case Some(f) => [FLAG_TRACE_PRESENT] + ToBytes(f.timestampMs, 8) + [|f.exchange|] + f.exchange
  }

  /** A length prefix of 32 bits in front of as much of the body as it counts. */
  function LengthPrefixed(body: seq<Byte>): (frame: seq<Byte>)
    ensures |frame| == 4 + |body| % U32_LIMIT
  {
    var n := |body| % U32_LIMIT;
    ToBytes(n, 4) + body[..n]
  }

  /** The traced frame, or None where the Go code panics because the length,
      wrapped to 32 bits, leaves no room for the header. */
  function TracedFrame(payload: seq<Byte>, traceID: seq<Byte>, now: nat): (frame: Option<seq<Byte>>)
  {
    var header := Header(TraceOf(traceID, now));
    if (|header| + |payload|) % U32_LIMIT < |header| then None else Some(LengthPrefixed(header + payload))
  }

  /** The layout of a frame that fits, byte by byte: the length of all that follows it; then
      a zero, or a one, the timestamp, the tag's length and the tag of at most 32 bytes; then
      the payload. */
  lemma LayoutExactly(payload: seq<Byte>, traceID: seq<Byte>, now: nat)
    requires |payload| <= 16_777_174
    ensures var frame := TracedFrame(payload, traceID, now);
      match ParsedTraceID(traceID, now)
      case Err(_) => frame == Some(ToBytes(1 + |payload|, 4) + ([0] + payload))
      case Ok(f) =>
        var tag := if |f.exchange| <= 32 then f.exchange else f.exchange[..32];
        frame == Some(ToBytes(10 + |tag| + |payload|, 4)
                      + ([1] + ToBytes(f.timestampMs, 8) + [|tag|] + tag + payload))
  {
    hide ToBytes, ParsedTraceID, LengthPrefixed, TracedFrame;
    FittingFrame(payload, traceID, now);
  }

  lemma FittingFrame(payload: seq<Byte>, traceID: seq<Byte>, now: nat)
    requires |payload| <= 16_777_174
    ensures var header := Header(TraceOf(traceID, now));
      TracedFrame(payload, traceID, now) == Some(ToBytes(|header| + |payload|, 4) + (header + payload))
  {
    hide ToBytes, ParsedTraceID, LengthPrefixed, Header, TracedFrame;
    var header := Header(TraceOf(traceID, now));
    NoWrap(|header| + |payload|);
    TracedFrameIs(payload, traceID, now, header);
    WholePrefixed(header + payload);
  }

  lemma TracedFrameIs(payload: seq<Byte>, traceID: seq<Byte>, now: nat, header: seq<Byte>)
    requires header == Header(TraceOf(traceID, now)) && (|header| + |payload|) % U32_LIMIT >= |header|
    ensures TracedFrame(payload, traceID, now) == Some(LengthPrefixed(header + payload))
  {
    hide ToBytes, ParsedTraceID, LengthPrefixed, Header;
  }

  lemma NoWrap(n: nat)
    requires n < U32_LIMIT
    ensures n % U32_LIMIT == n
  {
  }

  lemma WholePrefixed(body: seq<Byte>)
    requires |body| < U32_LIMIT
    ensures LengthPrefixed(body) == ToBytes(|body|, 4) + body
  {
    hide ToBytes;
    NoWrap(|body|);
    assert body[..|body|] == body;
  }

  // ---------- the encoders, in place ----------

  method PutUint(frame: array<Byte>, at: nat, k: nat, n: nat)
    requires at + k <= frame.Length
    modifies frame
    ensures frame[..at] == old(frame[..at]) && frame[at + k..] == old(frame[at + k..])
    ensures frame[at..at + k] == ToBytes(n, k)
  {
    var i, rest := k, n;
    while i > 0
      invariant 0 <= i <= k
      invariant ToBytes(n, k) == ToBytes(rest, i) + frame[at + i..at + k]
      invariant frame[..at] == old(frame[..at]) && frame[at + k..] == old(frame[at + k..])
    {
      i := i - 1;
      frame[at + i] := rest % 256;
      assert frame[at + i..at + k] == [frame[at + i]] + frame[at + i + 1..at + k];
      rest := rest / 256;
    }
  }

  /** Go's copy: as many bytes as fit between at and the end of the frame. */
  method CopyInto(frame: array<Byte>, at: nat, src: seq<Byte>)
    requires at <= frame.Length
    modifies frame
    ensures frame[..at] == old(frame[..at])
    ensures |src| >= frame.Length - at ==> frame[at..] == src[..frame.Length - at]
    ensures |src| < frame.Length - at ==> frame[at..at + |src|] == src && frame[at + |src|..] == old(frame[at + |src|..])
  {
    var n := if |src| <= frame.Length - at then |src| else frame.Length - at;
    for i := 0 to n
      invariant frame[..at] == old(frame[..at]) && frame[at + n..] == old(frame[at + n..])
      invariant frame[at..at + i] == src[..i]
    {
      frame[at + i] := src[i];
      assert frame[at..at + i + 1] == frame[at..at + i] + [frame[at + i]];
    }
  }

  method SerializeFrame(payload: seq<Byte>) returns (frame: array<Byte>)
    ensures fresh(frame) && frame[..] == LengthPrefixed(payload)
  {
    hide ToBytes;
    var length := |payload| % U32_LIMIT;
    frame := new Byte[4 + length];
    PutUint(frame, 0, 4, length);
    CopyInto(frame, 4, payload);
    assert frame[..] == frame[..4] + frame[4..];
  }

  /** The fallback layout, also used for a malformed trace ID. */
  method SerializeUntraced(payload: seq<Byte>) returns (r: Option<array<Byte>>)
    ensures r.Some? <==> (1 + |payload|) % U32_LIMIT >= 1
    ensures r.Some? ==> fresh(r.value) && r.value[..] == LengthPrefixed([0] + payload)
  {
    hide ToBytes;
    var totalLen := (1 + |payload|) % U32_LIMIT;
    if totalLen < 1 {
      return None;
    }
    var frame := new Byte[4 + totalLen];
    PutUint(frame, 0, 4, totalLen);
    frame[4] := 0;
    assert frame[..5] == ToBytes(totalLen, 4) + [0];
    CopyInto(frame, 5, payload);
    assert frame[..] == frame[..5] + frame[5..];
    assert ([0] + payload)[..totalLen] == [0] + payload[..totalLen - 1];
    return Some(frame);
  }

  /** The trace fields, written behind the length prefix through a moving offset. */
  method PutTraceFields(frame: array<Byte>, tag: seq<Byte>, tsMs: nat) returns (offset: nat)
    requires |tag| <= MAX_EXCHANGE_TAG && 14 + |tag| <= frame.Length
    modifies frame
    ensures offset == 14 + |tag|
    ensures frame[..4] == old(frame[..4])
    ensures frame[4..offset] == Header(Some(TraceFields(tag, tsMs)))
  {
    hide ToBytes;
    offset := 4;
    ghost var prefix := frame[..4];
    frame[offset] := FLAG_TRACE_PRESENT;
    offset := offset + 1;
    assert frame[..offset] == prefix + [FLAG_TRACE_PRESENT];
    PutUint(frame, offset, 8, tsMs);
    offset := offset + 8;
    ghost var fixed := [FLAG_TRACE_PRESENT] + ToBytes(tsMs, 8);
    assert frame[..offset] == prefix + fixed;
    frame[offset] := |tag|;
    offset := offset + 1;
    ghost var start := frame[..offset];
    assert start == prefix + (fixed + [|tag|]);
    CopyInto(frame, offset, tag);
    assert frame[..offset + |tag|] == start + tag;
    offset := offset + |tag|;
    ghost var whole := frame[..offset];
    BehindPrefix(whole, prefix, fixed + [|tag|], tag);
    assert frame[..4] == whole[..4];
    assert frame[4..offset] == whole[4..];
  }

  lemma BehindPrefix(whole: seq<Byte>, prefix: seq<Byte>, fields: seq<Byte>, tag: seq<Byte>)
    requires |prefix| == 4 && whole == (prefix + fields) + tag
    ensures whole[..4] == prefix && whole[4..] == fields + tag
  {
  }

  method SerializeFrameTraced(payload: seq<Byte>, traceID: seq<Byte>, now: nat)
    returns (r: Option<array<Byte>>)
    ensures r.Some? <==> TracedFrame(payload, traceID, now).Some?
    ensures r.Some? ==> fresh(r.value) && r.value[..] == TracedFrame(payload, traceID, now).value
  {
    hide LengthPrefixed, ParsedTraceID;
    if traceID == [] {
      EmptyTraceIDIsMalformed(now);
      r := SerializeUntraced(payload);
      return;
    }
    var parsed := ParseTraceID(traceID, now);
    if parsed.Err? {
      r := SerializeUntraced(payload);
      return;
    }
    var tag := parsed.value.exchange;
    if |tag| > MAX_EXCHANGE_TAG {
      tag := tag[..MAX_EXCHANGE_TAG];
    }
    r := SerializeWithTrace(payload, tag, parsed.value.timestampMs);
  }

  method SerializeWithTrace(payload: seq<Byte>, tag: seq<Byte>, tsMs: nat) returns (r: Option<array<Byte>>)
    requires |tag| <= MAX_EXCHANGE_TAG
    ensures r.Some? <==> (10 + |tag| + |payload|) % U32_LIMIT >= 10 + |tag|
    ensures r.Some? ==> fresh(r.value)
    ensures r.Some? ==> r.value[..] == LengthPrefixed(Header(Some(TraceFields(tag, tsMs))) + payload)
  {
    hide ToBytes, Header;
    var fields := 1 + 8 + 1 + |tag|;
    var totalLen := (fields + |payload|) % U32_LIMIT;
    if totalLen < fields {
      return None;
    }
    var frame := new Byte[4 + totalLen];
    PutUint(frame, 0, 4, totalLen);
    ghost var prefix := frame[..4];
    var offset := PutTraceFields(frame, tag, tsMs);
    ghost var header := frame[4..offset];
    assert frame[..offset] == prefix + header;
    CopyInto(frame, offset, payload);
    assert frame[..] == frame[..offset] + frame[offset..];
    assert (header + payload)[..totalLen] == header + payload[..totalLen - fields];
    return Some(frame);
  }
}
