/** The Rust frame parser: early returns over an immutable slice. */
module IpcParser {
  import opened BigEndian
  import opened Wrappers
  import Utf8

  const MAX_FRAME_SIZE: nat := 16_777_216
  const MAX_EXCHANGE_TAG := 32

  /** The exchange tag is a Rust String, represented by its UTF-8 bytes. */
  datatype TraceInfo = TraceInfo(timestampMs: nat, exchangeTag: seq<Byte>)
  datatype ParsedFrame = ParsedFrame(payload: seq<Byte>, trace: Option<TraceInfo>)

  datatype IpcParseError =
    | TruncatedHeader(got: nat)
    | ZeroLengthPayload
    | OversizedPayload(size: nat)
    | TruncatedPayload(expected: nat, available: nat)
    | TruncatedTraceFlags
    | TruncatedTraceTimestamp
    | TruncatedTraceTagLength
    | TruncatedTraceTag(expectedTag: nat, availableTag: nat)
    | TraceTagTooLong(length: nat)
    | InvalidUtf8InExchangeTag

  type ParseResult = Result<ParsedFrame, IpcParseError>

  function ParseFrame(raw: seq<Byte>): (r: ParseResult)
  {
    if |raw| < 4 then Err(TruncatedHeader(|raw|)) else
    var totalLength := FromBytes(raw[..4]);
    if totalLength == 0 then Err(ZeroLengthPayload)
    else if totalLength > MAX_FRAME_SIZE then Err(OversizedPayload(totalLength))
    else if |raw| < 4 + totalLength then Err(TruncatedPayload(totalLength, |raw| - 4))
    else ParseAfterHeader(raw[4..4 + totalLength])
  }

  function ParseAfterHeader(after: seq<Byte>): (r: ParseResult)
  {
    if after == [] then Err(TruncatedTraceFlags)
    else if after[0] % 2 == 0 then Ok(ParsedFrame(after[1..], None))
    else if |after| < 1 + 8 then Err(TruncatedTraceTimestamp)
    else if |after| < 1 + 8 + 1 then Err(TruncatedTraceTagLength)
    else
      var timestampMs, tagLen := FromBytes(after[1..9]), after[9];
      if tagLen > MAX_EXCHANGE_TAG then Err(TraceTagTooLong(tagLen))
      else if |after| < 1 + 8 + 1 + tagLen then Err(TruncatedTraceTag(tagLen, |after| - 10))
      else
        var tag := after[10..10 + tagLen];
        if !Utf8.Valid(tag) then Err(InvalidUtf8InExchangeTag)
        else Ok(ParsedFrame(after[10 + tagLen..], Some(TraceInfo(timestampMs, tag))))
  }

  /** Which error a frame is refused with, by what is wrong with it first. */
  lemma RefusedExactly(raw: seq<Byte>)
    ensures ParseFrame(raw) == Err(TruncatedHeader(|raw|)) <==> |raw| < 4
    ensures |raw| >= 4 ==>
      var n := FromBytes(raw[..4]);
      && (ParseFrame(raw) == Err(ZeroLengthPayload) <==> n == 0)
      && (ParseFrame(raw) == Err(OversizedPayload(n)) <==> n > 16_777_216)
      && (ParseFrame(raw) == Err(TruncatedPayload(n, |raw| - 4)) <==> 0 < n <= 16_777_216 && |raw| < 4 + n)
  {
  }

  /** And one whose body is all there. */
  lemma BodyRefusedExactly(raw: seq<Byte>)
    requires |raw| >= 4 && 0 < FromBytes(raw[..4]) <= 16_777_216 && |raw| >= 4 + FromBytes(raw[..4])
    ensures var body := raw[4..4 + FromBytes(raw[..4])];
      && (body[0] % 2 == 0 ==> ParseFrame(raw) == Ok(ParsedFrame(body[1..], None)))
      && (body[0] % 2 == 1 ==>
        && (ParseFrame(raw) == Err(TruncatedTraceTimestamp) <==> |body| < 9)
        && (ParseFrame(raw) == Err(TruncatedTraceTagLength) <==> |body| == 9)
        && (|body| >= 10 ==>
          && (ParseFrame(raw) == Err(TraceTagTooLong(body[9])) <==> body[9] > 32)
          && (ParseFrame(raw) == Err(TruncatedTraceTag(body[9], |body| - 10)) <==>
                body[9] <= 32 && |body| < 10 + body[9])
          && (ParseFrame(raw) == Err(InvalidUtf8InExchangeTag) <==>
                body[9] <= 32 && |body| >= 10 + body[9] && !Utf8.Valid(body[10..10 + body[9]]))
          && (ParseFrame(raw).Ok? <==>
                body[9] <= 32 && |body| >= 10 + body[9] && Utf8.Valid(body[10..10 + body[9]]))))
  {
  }
}
