# Atlas, verified models

Atlas moves market data from exchange adapters written in Go through a binary
protocol into a Rust core, and puts a layer of Python agents, schedulers and
memory stores on top. This project models the parts of it that carry state or
protocol obligations and proves what they keep, over every input and every run.
`dafny verify dfyconfig.toml` checks all of it.

How the parts fit together:

- **Market data path.** `trace.dfy` makes trace IDs, `frame.dfy` fills the byte
  arrays of the Go encoder, `ipc_writer.dfy` is the bounded drop-oldest writer as
  a state machine under every interleaving of producers, write loop, Connect and
  Close, `ipc_listener.dfy` is the Rust stream loop and `ipc_parser.dfy` the Rust
  parser. `frame_round_trip.dfy` relates encoder and parser in both directions,
  and `pipeline.dfy` the whole path from a message to its delivery.
- **Agents.** `llm_cache.dfy` (the response cache against its put history),
  `llm_limits.dfy` (sliding-window limit and circuit breaker of the LLM client),
  `scheduler.dfy` (resource accounting, selection, draining), `gateway.dfy`
  (memory gateway, forgetting engine and audit replay).
- **Trading services.** `rate_limit.dfy` (token bucket), `trade_breaker.dfy`
  (trade-driven breaker), `message_router.dfy` and `channel_broker.dfy` (the two
  buffering paths of the message broker).
- **Tools.** `template.dfy` (placeholder rendering), `parity_check.dfy` (JSON
  canonicalisation), `directory_tree.dfy` and `parallel_paths.dfy` (detection of
  parallel implementations).
- **Shared.** `big_endian.dfy`, `utf8.dfy` (sections 3 and 4 of RFC 3629),
  `lex.dfy`, `sorting.dfy`, `drop_oldest.dfy`, `wrappers.dfy`.

Code that changes state is a class or method here and is tied by its `ensures`
to functions on values; the theorems over whole runs are lemmas about those
functions.

## Where the code does not do what one might expect

Each of these is a lemma with a concrete input or an exact condition. Where code
and documentation disagree the model follows the code.

- The parser's comment promises that a frame without a trace is the raw payload;
  the code always takes one flags byte, so `SerializeFrame` output never comes
  back whole (`LegacyFrameNeverRoundTrips`).
- The exchange tag is cut to 32 bytes, not to characters; a cut inside one makes
  the parser refuse the frame (`SplitTagIsRefused`, `CutCanSplitACharacter`).
- The listener skips at most 65536 bytes of an oversized frame and then reads
  headers from the middle of its body (`FrameLostAfterOversized`); it is in step
  again exactly when the unread part happens to be whole units
  (`OversizedResynchronisesExactly`).
- After a failed or short write the writer goes on writing on the same
  connection. The next frame is read from its first byte exactly when the failed
  write carried none or all of its frame (`NextIsInStepExactly`); otherwise the
  listener can deliver a payload nobody sent (`TornWriteForgesAFrame`).
- `/publish` reports success for messages nobody will get: those before the
  topic's first `/subscribe` request (`LostExactly`).
- The writer's overflow branch needs two producers (`OneProducerKeepsOrder`,
  `TwoProducersCanOverflow`), and its no-connection drop is dead code
  (`NeverWithoutConnection`).
- Trace IDs are documented as sortable; they stop being so when the timestamp
  gains a digit (`DigitCarryBreaksOrder`, exact order in `SortOrder`).
- The cache serves an entry of exactly 24 hours but does not load it
  (`LoadIsStricterThanGet`), and a colon in a model name can make key texts of
  different requests equal (`ColonMakesKeysCollide`; which ones, exactly, in
  `KeysCollideExactly` and `CollidingModels`).
- Rendering depends on the map's iteration order exactly when placeholders are
  nested, as with the doubled braces of the Go templates
  (`OrderIrrelevantExactlyWhenFlat`, `DoubledBracesDependOnOrder`).
- The scheduler's overflow error is unreachable (`OverflowUnreachable`).
- Implementations that share a language pass the parallel path check when one
  more has a language of its own (`PairwiseOverlapIsMissed`, exactly when in
  `OverlapMissedExactly`).
- Forgetting expired working memory goes past the gateway and puts the audit
  replay off by that record until its id is stored again; the replay of a run is
  right exactly when no id has escaped in this way (`AuditReplay`).
- A limiter without room for a whole token, or that does not refill, can keep an
  uncancelled `Wait` polling for ever (`WaitGrantsExactly`).

## Model

| member | source | states |
|---|---|---|
| BigEndian.U32RoundTrip | services/ingestion/internal/ipc/frame.go:29 | the four length bytes read back as the number written, for every 32-bit number |
| BigEndian.U64RoundTrip | services/ingestion/internal/ipc/frame.go:84 | the eight timestamp bytes read back as the number written, for every 64-bit number |
| BigEndian.EncodeDecode | core_engine/market_data/src/ipc_parser.rs:90 | every byte string is the big-endian encoding of the number it is read as |
| BigEndian.FourBytes | services/ingestion/internal/ipc/frame.go:29 | the four bytes of a length are those of weight 2^24, 2^16, 2^8 and 1, in this order; eight bytes are two such groups, the upper one first |
| Utf8.CharLengthMeaning | core_engine/market_data/src/ipc_parser.rs:168 | a tag begins with a character of n bytes if and only if it begins with the n bytes that section 3 of RFC 3629 gives some code point other than a surrogate |
| Utf8.ValidMeaning | core_engine/market_data/src/ipc_parser.rs:166-171 | a tag is accepted as UTF-8 if and only if it is the encoding of some text |
| Utf8.AsciiThen | core_engine/market_data/src/ipc_parser.rs:166-171 | ASCII in front of a text neither makes nor breaks its being UTF-8 |
| Frame.SplitN | services/ingestion/internal/ipc/frame.go:101 | at most n parts, which joined by the separator give the string back; no part holds a separator but an n-th one |
| Frame.ParseTraceID | services/ingestion/internal/ipc/frame.go:100-123 | the digit loop, which reduces to 64 bits at every step, gives the exchange and the decimal value reduced once, the current time for zero, an error for fewer than three parts or a non-digit |
| Frame.EmptyTraceIDIsMalformed | services/ingestion/internal/ipc/frame.go:43-52 | the separate branch for an empty trace ID and the branch for a malformed one describe the same frames |
| Frame.TooFewDashes | services/ingestion/internal/ipc/frame.go:101-104 | an ID has too few parts exactly with fewer than two dashes, and then the frame is the untraced one |
| Frame.ParsedExactly | services/ingestion/internal/ipc/frame.go:100-123 | an ID with two dashes gives what stands before the first and the number between them, as 64 bits, or the current time for zero; anything but digits between them is an error |
| Frame.DecimalExactly | services/ingestion/internal/ipc/frame.go:109-115 | the number is decimal: each further digit makes it ten times as large and adds itself |
| Frame.LayoutExactly | services/ingestion/internal/ipc/frame.go:42-95 | a frame of legal size, byte by byte: the length of all that follows; a zero, or a one, the timestamp in eight bytes, the length of the tag and the tag of at most 32 bytes; the payload |
| Frame.SerializeFrame | services/ingestion/internal/ipc/frame.go:26-32 | the new array is the 32-bit length followed by as much of the payload as that length counts |
| Frame.CopyInto | services/ingestion/internal/ipc/frame.go:93 | Go's copy: the bytes that fit are written, every other byte stays |
| Frame.PutTraceFields | services/ingestion/internal/ipc/frame.go:80-91 | the moving offset leaves flags, timestamp, tag length and tag behind the untouched prefix, and ends behind them |
| Frame.SerializeFrameTraced | services/ingestion/internal/ipc/frame.go:42-95 | panics exactly when the length wrapped to 32 bits leaves no room for the header; otherwise the new array is the whole specified frame |
| Frame.SerializeUntraced | services/ingestion/internal/ipc/frame.go:45-52 | the same for the layout without a trace |
| Frame.SerializeWithTrace | services/ingestion/internal/ipc/frame.go:72-94 | the same for the layout with trace fields |
| FrameRoundTrip.RoundTrip | core_engine/market_data/src/ipc_parser.rs:83-184 | for every payload and trace ID the parser returns the payload, the timestamp and the tag cut to 32 bytes if and only if the frame is within the size limit and the cut tag is UTF-8 |
| FrameRoundTrip.AcceptedExactlyEncodings | core_engine/market_data/src/ipc_parser.rs:83-184 | the parser returns f if and only if the bytes begin with the encoder's layout of f, up to the seven flag bits without a meaning |
| IpcParser.RefusedExactly | core_engine/market_data/src/ipc_parser.rs:83-107 | which error a frame is refused with before its body is looked at, each exactly when its check is the first to fail |
| IpcParser.BodyRefusedExactly | core_engine/market_data/src/ipc_parser.rs:109-184 | and which one a body is refused with, in figures |
| FrameRoundTrip.ParseEncoded | core_engine/market_data/src/ipc_parser.rs:83-184 | what the parser makes of any encoding, also one whose length wrapped or is over the limit |
| FrameRoundTrip.SplitTagIsRefused | services/ingestion/internal/ipc/frame.go:66-70 | a frame of legal size is refused in one way only: the cut fell inside a character, and the error is the UTF-8 one |
| FrameRoundTrip.CutCanSplitACharacter | services/ingestion/internal/ipc/frame.go:66-70 | an exchange name that is UTF-8 and whose 32-byte cut is not: whatever the payload, time and sequence number, the frame under its generated ID is refused as not UTF-8 |
| FrameRoundTrip.LegacyFrameNeverRoundTrips | core_engine/market_data/src/ipc_parser.rs:117-126 | a SerializeFrame payload never comes back whole; with an even first byte it silently comes back without that byte |
| FrameRoundTrip.EncodingInjective | services/ingestion/internal/ipc/frame.go:42-95 | messages that fit and are readable have the same frame only if they mean the same |
| FrameRoundTrip.PrefixedIsSelfDelimiting | services/ingestion/internal/ipc/frame.go:28-31 | the prefix always counts exactly the bytes that follow, even after a wrap |
| FrameRoundTrip.PrefixFree | services/ingestion/internal/ipc/frame.go:42-95 | no frame is a proper prefix of another |
| FrameRoundTrip.UniquelyDecodable | services/ingestion/internal/ipc/frame.go:42-95 | a byte stream is the concatenation of at most one list of frames |
| IpcListener.CutCovers | core_engine/ipc_listener/src/main.rs:96-146 | every byte stream is a list of whole units (header and what is read behind it) followed by less than a unit |
| IpcListener.CutUnique | core_engine/ipc_listener/src/main.rs:96-146 | and there is only one such way to cut it |
| IpcListener.EachUnitCountedOnce | core_engine/ipc_listener/src/main.rs:111-145 | each unit is counted once, as a frame or as an error |
| IpcListener.WholeExactly | core_engine/ipc_listener/src/main.rs:109-129 | what one round reads behind a header: nothing for zero, the body up to 16 MiB, 65536 bytes beyond |
| IpcListener.AcceptedExactly | core_engine/ipc_listener/src/main.rs:131-145 | a unit is delivered exactly when its length is in range and the parser accepts header and body together |
| IpcListener.PayloadErrorExactly | core_engine/ipc_listener/src/main.rs:98-129 | a connection ends in a payload read error if and only if its stream is whole units followed by a length in range and a shorter body; else a closed stream ends with the number of its valid frames and a failed one in a header read error |
| IpcListener.BodyCutShort | core_engine/ipc_listener/src/main.rs:126-129 | a stream that breaks off inside a body in range, whatever went before |
| IpcListener.SkipCutShort | core_engine/ipc_listener/src/main.rs:117-124 | one that breaks off inside the skipped part of an oversized body ends as at a header, with one more error |
| IpcListener.HeaderCutShort | core_engine/ipc_listener/src/main.rs:98-107 | one that breaks off inside a header, or at its start |
| IpcListener.HandleConnection | core_engine/ipc_listener/src/main.rs:87-147 | over any stream: delivers exactly the frames of the accepted units in order, counts frames and errors, and returns the frame count at a clean end, an error for a broken read or a body cut short |
| IpcListener.HandleHeader | core_engine/ipc_listener/src/main.rs:109-145 | one round of the loop consumes exactly the first unit, with its one count, or finds that there is none |
| IpcListener.ListenerReachesTheBody | core_engine/ipc_listener/src/main.rs:131-145 | behind the listener's own length checks the parser never reports a short or zero or oversized header, a short payload or missing flags |
| IpcListener.OversizedContinuesInsideBody | core_engine/ipc_listener/src/main.rs:117-124 | after an oversized header the cut goes on 65536 bytes into the body |
| IpcListener.InStepExactly | core_engine/ipc_listener/src/main.rs:96-146 | for any two stretches of bytes: the second is read from its first byte on if and only if the first is made of whole units |
| IpcListener.OversizedResynchronisesExactly | core_engine/ipc_listener/src/main.rs:117-124 | what follows an oversized frame is read from its first byte on if and only if the unread part of the oversized body is made of whole units |
| IpcListener.OversizedResynchronises | core_engine/ipc_listener/src/main.rs:117-124 | those units are then read as frames of their own, and what follows as it would be alone |
| IpcListener.FrameLostAfterOversized | core_engine/ipc_listener/src/main.rs:117-124 | a stream in which a valid frame behind an oversized one is lost |
| IpcWriter.InvAlways | services/ingestion/internal/ipc/writer.go:59-116 | after every interleaving of producers, write loop, Connect and Close: FIFO, loop order, conservation of offered frames, metrics equal to their classes, at most 1000 queued, a loop only with a connection |
| IpcWriter.EachFrameInOnePlace | services/ingestion/internal/ipc/writer.go:69-116 | after every interleaving each offered frame is in exactly one of: waiting to evict, waiting to retry, queued, in flight, forwarded, write error, partial write, no connection, evicted, overflowed |
| IpcWriter.FifoKept | services/ingestion/internal/ipc/writer.go:69-96 | every step keeps: what left the channel and what is queued is what was sent on it, in order |
| IpcWriter.LoopOrderKept | services/ingestion/internal/ipc/writer.go:92-116 | every step keeps: the loop's outcomes and its frame in flight are what it received, in order |
| IpcWriter.OfferedKept | services/ingestion/internal/ipc/writer.go:69-89 | every step keeps: sent, evicting, retrying and refused frames add up to the offered ones, all within the size limits |
| IpcWriter.MetricsKept | services/ingestion/internal/ipc/writer.go:75-113 | every step keeps each metric equal to the number of frames of its class |
| IpcWriter.NeverWithoutConnection | services/ingestion/internal/ipc/writer.go:97-100 | the loop's no-connection drop is never taken in any run |
| IpcWriter.InOrderAlways | services/ingestion/internal/ipc/writer.go:69-89 | with one producer the frames sent on the channel are the offered ones in order, nothing overflows and a retry always finds room |
| IpcWriter.OutcomesDistinctlyOffered | services/ingestion/internal/ipc/writer.go:92-116 | with any number of producers the frames the loop dealt with, and any choice of them, are offered ones, each at most once |
| IpcWriter.OneProducerKeepsOrder | services/ingestion/internal/ipc/writer.go:85-88 | with one producer the overflow branch is unreachable, and received, dealt with and forwarded frames are in the order offered |
| IpcWriter.TwoProducersCanOverflow | services/ingestion/internal/ipc/writer.go:85-88 | a schedule that takes the overflow branch and has at no point more than two calls under way |
| IpcWriter.SendExactly | services/ingestion/internal/ipc/writer.go:69-90 | in every reachable state an uninterrupted send queues the frame and returns no error; of a full queue of 1000 it drops and counts the oldest frame |
| IpcWriter.OfferExactly | services/ingestion/internal/ipc/writer.go:69-73 | a producer's first select: the frame is queued where there is room, else its producer makes room |
| IpcWriter.EvictExactly | services/ingestion/internal/ipc/writer.go:75-79 | the oldest frame is taken out and counted, if there still is one |
| IpcWriter.RetryExactly | services/ingestion/internal/ipc/writer.go:81-89 | the second try: queued where there is room, else counted as overflow |
| IpcWriter.LifecycleExactly | services/ingestion/internal/ipc/writer.go:41-57 | the loop starts with the connection, once and not on a closed writer; it takes the oldest frame; it stops only when the writer is closed |
| IpcWriter.FinishExactly | services/ingestion/internal/ipc/writer.go:97-113 | a write ends without a connection in one way only, and is logged with its outcome |
| IpcWriter.QueueBounded | services/ingestion/internal/ipc/writer.go:18-22 | at most 1000 frames are queued in any run |
| IpcWriter.LoopDrains | services/ingestion/internal/ipc/writer.go:92-116 | from every reachable state with a waiting loop, successful writes forward all that is queued, in order |
| IpcWriter.Writer.WriteRaw | services/ingestion/internal/ipc/writer.go:139-165 | refuses an empty or too large frame and changes nothing; otherwise takes exactly the state machine's steps |
| IpcWriter.Writer.Write | services/ingestion/internal/ipc/writer.go:59-90 | the same for a payload, with the untraced frame around it |
| IpcWriter.Writer.Send | services/ingestion/internal/ipc/writer.go:71-89 | the two nested selects are one offer, or offer, evict, retry |
| IpcWriter.Writer.WriteLoopRound | services/ingestion/internal/ipc/writer.go:92-116 | one round of the select is a receive and one of the four outcomes, or the end |
| Pipeline.FrameIsReadable | services/ingestion/internal/ipc/writer.go:139-165 | a frame the parser takes back is also one WriteRaw admits |
| Pipeline.SendableExactly | core_engine/market_data/src/ipc_parser.rs:83-184 | the messages the theorems below are about are exactly those the parser gives back |
| Pipeline.AdmittedFrameIsWithinLimit | services/ingestion/internal/ipc/writer.go:139-165 | every traced frame WriteRaw admits is within the parser's limits; it parses unless its tag was cut inside a character |
| Pipeline.GeneratedTraceArrives | services/ingestion/internal/adapter/trace.go:25-29 | a generated ID of a dash-free ASCII exchange arrives at the parser as its timestamp and tag |
| Pipeline.StreamIsCutIntoFrames | core_engine/ipc_listener/src/main.rs:96-146 | frames written end to end are cut back into exactly themselves, with no error |
| Pipeline.CleanStream | services/ingestion/internal/ipc/writer.go:92-116 | if every write put none or all of its frame on the wire, the connection carries the frames that went out in full, end to end |
| Pipeline.ArrivedAreForwarded | services/ingestion/internal/ipc/writer.go:103-113 | if every failed or short write carried nothing, those are exactly the frames counted as forwarded |
| Pipeline.NextIsInStepExactly | services/ingestion/internal/ipc/writer.go:103-111 | what is written after a failed or short write is read from its first byte on if and only if that write carried none or all of its frame |
| Pipeline.InStepThroughoutExactly | services/ingestion/internal/ipc/writer.go:92-116 | over a whole connection every write is read from its first byte on, and the last to its end, if and only if no write was torn |
| Pipeline.TornWriteForgesAFrame | services/ingestion/internal/ipc/writer.go:103-111 | a run of one producer with one torn write, on which the listener delivers a payload nobody sent |
| Pipeline.EndToEnd | core_engine/ipc_listener/src/main.rs:87-147 | for every schedule of any number of producers without torn writes the listener reports no error and delivers exactly what the messages meant whose frames went out in full, in that order, each at most once |
| Pipeline.OneProducerInOrder | services/ingestion/internal/ipc/writer.go:59-116 | with one producer, torn writes or not, the frames that went out in full are in the order of the messages |
| Trace.TraceGenerator.Generate | services/ingestion/internal/adapter/trace.go:25-29 | the counter moves by one, wrapping at 64 bits, and the ID shows exchange, time and the new counter |
| Trace.PaddedReadsBack | services/ingestion/internal/adapter/trace.go:28 | twenty digits hold every 64-bit sequence number and show which one it is |
| Trace.LayoutExactly | services/ingestion/internal/adapter/trace.go:28 | the text of an ID: exchange, dash, decimal time without leading zeros, dash, twenty digits of the sequence number |
| Trace.GeneratedExactly | services/ingestion/internal/adapter/trace.go:25-29 | the i-th ID of a run shows the i-th clock reading and counts from one, modulo 2^64 |
| Trace.GeneratedIDParses | services/ingestion/internal/ipc/frame.go:100-123 | parseTraceID gives back exchange and timestamp of a generated ID if and only if the exchange has no dash and the time is positive, or zero at a current time of zero |
| Trace.SequenceTellsApart | services/ingestion/internal/adapter/trace.go:25-29 | IDs of one exchange are equal only if their sequence numbers are, whatever the clock did |
| Trace.GeneratedDistinct | services/ingestion/internal/adapter/trace.go:14-29 | IDs of one generator less than 2^64 calls apart differ |
| Trace.SortOrder | services/ingestion/internal/adapter/trace.go:14-29 | the exact order of two IDs of one exchange: by sequence at equal times, else by the timestamps as texts |
| Trace.SortsByTimeThenSequence | services/ingestion/internal/adapter/trace.go:14-29 | with equally long timestamps IDs sort by time, then sequence |
| Trace.GeneratedSorted | services/ingestion/internal/adapter/trace.go:14-29 | a run under a clock that does not go back and keeps its digits is strictly increasing |
| Trace.DigitCarryBreaksOrder | services/ingestion/internal/adapter/trace.go:14-29 | one digit more breaks the documented order: the ID of 10 ms sorts before that of 9 ms |
| LlmCache.LastPutsMeaning | atlas_agent/llm_cache.py:82-98 | the reference: the last put of a key, and the distinct keys put after it |
| LlmCache.ExpectedExactly | atlas_agent/llm_cache.py:68-97 | what a get has to return, read off the puts: the response of the key's last put, if that is at most 86400 seconds old and fewer than 100 different keys were put after it |
| LlmCache.LookupMeetsExpectation | atlas_agent/llm_cache.py:68-80 | on any cache that agrees with the history, a lookup returns the last response put exactly when it has not expired and fewer than 100 other keys were put since |
| LlmCache.EvictedIsNotOwed | atlas_agent/llm_cache.py:86-89 | the entry with the oldest time has 100 newer keys behind it, so evicting it breaks no expectation |
| LlmCache.PutKeeps | atlas_agent/llm_cache.py:82-98 | a put with its eviction keeps the agreement and the bound of 100 |
| LlmCache.DropDead | atlas_agent/llm_cache.py:74-76 | dropping expired entries at any time keeps the agreement |
| LlmCache.GetConsistent | atlas_agent/llm_cache.py:68-80 | a get, with its lazy delete and its hit count, keeps memory and file in agreement with the history |
| LlmCache.PutConsistent | atlas_agent/llm_cache.py:82-98 | so does a put, which saves |
| LlmCache.LoadConsistent | atlas_agent/llm_cache.py:40-55 | so does a restart from the file |
| LlmCache.LLMCache.Get | atlas_agent/llm_cache.py:68-80 | returns what the put history calls for at this time; the dictionary changes by one hit or one expired entry |
| LlmCache.LLMCache.Put | atlas_agent/llm_cache.py:82-98 | evicts an oldest entry exactly when full and the key is new, writes the entry and the file, never more than 100 |
| LlmCache.LLMCache.OldestKey | atlas_agent/llm_cache.py:88 | the minimum over the dictionary by time |
| LlmCache.LLMCache.Load | atlas_agent/llm_cache.py:40-55 | the saved entries younger than the limit, and later gets still meet the history |
| LlmCache.LoadIsStricterThanGet | atlas_agent/llm_cache.py:48-51 | a lookup before and after a reload at one instant differ exactly for an entry that is 24 hours old |
| LlmCache.KeysEqualExactly | atlas_agent/llm_cache.py:64-66 | two requests have one key text if and only if one's model and temperature part begins the other's and its prompt begins with what the other has more |
| LlmCache.KeysCollideExactly | atlas_agent/llm_cache.py:64-66 | some prompts make two pairs of model and temperature collide if and only if one part begins the other |
| LlmCache.CollidingModels | atlas_agent/llm_cache.py:64-66 | for temperatures without a colon: if and only if one model name with its temperature is spelled out, up to a colon, at the front of the other name |
| LlmCache.RawKeyInjective | atlas_agent/llm_cache.py:64-66 | so never without colons in the model names |
| LlmCache.ColonMakesKeysCollide | atlas_agent/llm_cache.py:64-66 | with a colon in the model name two different requests share a key text |
| Template.Render | tools/specgen/src/template.rs:25-32 | in whatever order the map is iterated: the loop's result, and for flat templates and brace-free variables the simultaneous substitution |
| Template.OrderExactly | tools/specgen/src/template.rs:25-28 | an iteration order meets every key of the map, each once |
| Template.ReplaceExactly | tools/specgen/src/template.rs:29 | the replacement of a placeholder: what stands before its first occurrence stays, that is replaced, the search goes on behind it |
| Template.ReplacesNothing | tools/specgen/src/template.rs:29 | without an occurrence nothing changes |
| Template.SubstitutedExactly | tools/specgen/src/template.rs:21-24 | the substitution, read off a template: text stays, a known name in braces becomes its value, an unknown one and a brace without a partner stay |
| Template.FlatExactly | tools/specgen/src/template.rs:21-24 | a template is nested if and only if some lone opening brace is followed, with text and placeholders only in between, by a lone closing one |
| Template.OrderIrrelevantExactlyWhenFlat | tools/specgen/src/template.rs:25-32 | for every template: all iteration orders of every brace-free map give one result if and only if its placeholders are not nested |
| Template.RenderSubstitutesExactlyWhenFlat | tools/specgen/src/template.rs:25-32 | and for exactly those templates it is the simultaneous substitution |
| Template.FlatMeansSubstituted | tools/specgen/src/template.rs:21-32 | for flat templates every order gives the substitution, with unknown placeholders kept |
| Template.NestedOrdersDisagree | tools/specgen/src/template.rs:25-32 | for every template with nested placeholders there are variables and two orders with different results |
| Template.NestedDisagrees | tools/specgen/src/template.rs:25-32 | one of which is not the substitution |
| Template.RenderSubstitutes | tools/specgen/src/template.rs:25-32 | the loop computes the substitution of the keys met so far as long as no placeholder is hidden behind an open brace |
| Template.ReplaceSubstitutes | tools/specgen/src/template.rs:29 | one text replacement is one token substitution |
| Template.DoubledBracesDependOnOrder | tools/specgen/src/template.rs:21-32 | a doubled-brace template, as the shipped Go ones are, renders to two different texts in two orders |
| Scheduler.AgentScheduler.Submit | intelligence/agent_control_plane/scheduler/engine.py:46-78 | whole new state and error of a submission, every rejection audited |
| Scheduler.AgentScheduler.NextTask | intelligence/agent_control_plane/scheduler/engine.py:80-96 | nothing exactly when nothing is queued; else the queued task before all others by rank, then id |
| Scheduler.AgentScheduler.Start | intelligence/agent_control_plane/scheduler/engine.py:98-135 | whole new state and error of a start |
| Scheduler.AgentScheduler.Finish | intelligence/agent_control_plane/scheduler/engine.py:186-221 | whole new state and error of complete, fail and cancel |
| Scheduler.NextIsUnique | intelligence/agent_control_plane/scheduler/engine.py:90-96 | the selection has one answer, so the dictionary order plays no part |
| Scheduler.NextExactly | intelligence/agent_control_plane/scheduler/engine.py:26-31 | next is the queued task with the least id among those of its priority, no higher one being queued: critical before high before normal before low |
| Scheduler.NextPriority | intelligence/agent_control_plane/scheduler/engine.py:26-31 | a critical task is next if one is queued, else a high one, else a normal one |
| Lex.StrLessMeaning | intelligence/agent_control_plane/scheduler/engine.py:90-96 | ids compare by the first code point in which they differ |
| Scheduler.SubmitExactly | intelligence/agent_control_plane/scheduler/engine.py:46-78 | exactly which submissions are accepted, with which error others are refused, and what is left behind |
| Scheduler.StartExactly | intelligence/agent_control_plane/scheduler/engine.py:98-135 | exactly which tasks start; a start takes the task's units and logs the request |
| Scheduler.FinishExactly | intelligence/agent_control_plane/scheduler/engine.py:186-221 | exactly which tasks finish; a finish gives the units back and logs the outcome |
| Scheduler.ApplyKeepsInv | intelligence/agent_control_plane/scheduler/engine.py:98-221 | every call keeps: available plus running units is the initial amount, and no task exceeds the capacity |
| Scheduler.Conservation | intelligence/agent_control_plane/scheduler/engine.py:98-221 | after every run of calls, with any registry at each: available plus running units is the initial amount, and 0 <= available <= capacity |
| Scheduler.OverflowUnreachable | intelligence/agent_control_plane/scheduler/engine.py:197-199 | the accounting overflow error is unreachable |
| Scheduler.TasksOnlyProgress | intelligence/agent_control_plane/scheduler/engine.py:129-135 | over every run a task stays known and unchanged but for its status, which only moves from queued to running to a final one; a finished task never changes |
| Scheduler.DrainFinishesExactly | intelligence/agent_control_plane/scheduler/engine.py:80-144 | draining by next_task, start, complete goes through if and only if every queued task's agent is schedulable and its units fit what is available |
| Scheduler.DrainIsOrdered | intelligence/agent_control_plane/scheduler/engine.py:80-144 | a drain starts every queued task once, in increasing rank and id, completes them and gives all units back |
| Scheduler.DrainByPriority | intelligence/agent_control_plane/scheduler/engine.py:26-31 | of any two tasks of a drain the earlier has the higher priority by name, or the same and the lesser id |
| Scheduler.DrainStopsExactly | intelligence/agent_control_plane/scheduler/engine.py:80-144 | a drain that does not go through stops at a queued task that cannot be started, after exactly the queued tasks before it, in order |
| Scheduler.DrainFromFull | intelligence/agent_control_plane/scheduler/engine.py:80-144 | in every reachable state with full initial resources, nothing running and schedulable agents a drain goes through |
| RateLimit.RateLimiter.Allow | services/ingestion/internal/adapter/ratelimit.go:38-55 | the credit grows by seconds times rate up to the capacity, and a whole token is taken if there is one |
| RateLimit.RateLimiter.Wait | services/ingestion/internal/adapter/ratelimit.go:58-69 | returns at the first poll that grants, every earlier one being denied, or when cancelled, whichever comes first; within the polls that refilling or the cancellation takes |
| RateLimit.WaitEnds | services/ingestion/internal/adapter/ratelimit.go:58-69 | with room for a token and a positive rate a number of polls that refills it exists, whatever the bucket |
| RateLimit.WaitGrantsExactly | services/ingestion/internal/adapter/ratelimit.go:58-69 | an uncancelled Wait is granted some time if and only if its first poll is, or the bucket has room for a token and a positive rate |
| RateLimit.EndsSomehow | services/ingestion/internal/adapter/ratelimit.go:58-69 | a Wait that is cancelled, or whose bucket refills to a token, ends within some number of polls |
| RateLimit.RefillComposes | services/ingestion/internal/adapter/ratelimit.go:42-47 | refilling twice is refilling once, also at the cap |
| RateLimit.DeniedPollsDoNotMatter | services/ingestion/internal/adapter/ratelimit.go:38-55 | leaving out the denied polls gives the same credit and the same grants: they lose nothing |
| RateLimit.CreditIsTightestWindow | services/ingestion/internal/adapter/ratelimit.go:38-55 | the credit is at least some amount if and only if the capacity is and every window of past grants, by its length times the rate, leaves that much |
| RateLimit.GrantedExactlyWithinBounds | services/ingestion/internal/adapter/ratelimit.go:38-55 | a poll is granted if and only if the capacity is a token and, with it, every window ending now holds at most maxTokens + seconds * rate grants |
| RateLimit.WindowBound | services/ingestion/internal/adapter/ratelimit.go:38-55 | in any run the grants from one to another, both counted, number at most maxTokens + seconds between them * rate |
| RateLimit.NoCapacityNoGrant | services/ingestion/internal/adapter/ratelimit.go:50-54 | a bucket smaller than one token never grants |
| TradeBreaker.CircuitBreaker.RecordTrade | core_engine/risk/src/circuit_breaker.rs:43-80 | halted exactly when the trades since reset call for it, true exactly on the change; counters are those of the trades up to the halt, and the 32-bit one never overflows |
| TradeBreaker.CircuitBreaker.Reset | core_engine/risk/src/circuit_breaker.rs:35-40 | starts an empty history |
| TradeBreaker.HaltedByAPrefix | core_engine/risk/src/circuit_breaker.rs:43-80 | halted if and only if some prefix ended in a losing trade with the streak or the total at its limit |
| TradeBreaker.HaltedExactly | core_engine/risk/src/circuit_breaker.rs:48-73 | halted if and only if some losing trade ended a row of max_consecutive_losses losses or found the added-up losses at the limit |
| TradeBreaker.TotalExactly | core_engine/risk/src/circuit_breaker.rs:52-53 | the losses add up by their amounts, gains do not count |
| TradeBreaker.HaltLasts | core_engine/risk/src/circuit_breaker.rs:44-46 | no trade ends a halt |
| TradeBreaker.ResultAt | core_engine/risk/src/circuit_breaker.rs:43-80 | the result of the i-th trade is the change from not halted to halted |
| TradeBreaker.TripsOnceAtTheFirst | core_engine/risk/src/circuit_breaker.rs:42-80 | at most one trade per reset reports the trip, and it is the first whose prefix calls for a halt |
| LlmLimits.RateWindow.CheckRateLimit | atlas_agent/llm_client.py:109-115 | accepts exactly when fewer than the limit of acceptances lie less than 60 seconds back, and keeps exactly those timestamps |
| LlmLimits.RateWindow.Kept | atlas_agent/llm_client.py:112 | the list comprehension keeps the recent ones in order |
| LlmLimits.RecentMeaning | atlas_agent/llm_client.py:112 | kept is what is less than 60 seconds old, each timestamp as often as it is there |
| LlmLimits.RecentInOrder | atlas_agent/llm_client.py:112 | and in order: the list is gone through time by time |
| LlmLimits.AcceptedNextExactly | atlas_agent/llm_client.py:109-115 | over any run the next request is refused if and only if the limit of acceptances lie less than 60 seconds back |
| LlmLimits.RecentComposes | atlas_agent/llm_client.py:112 | dropping old timestamps early loses nothing a later call needs |
| LlmLimits.NoWindowExceedsLimit | atlas_agent/llm_client.py:109-115 | in any run no half-open window of 60 seconds, wherever it starts, holds more than the limit of acceptances |
| LlmLimits.CircuitBreaker.RecordSuccess | atlas_agent/llm_client.py:55-58 | the breaker's next state after a success |
| LlmLimits.CircuitBreaker.RecordFailure | atlas_agent/llm_client.py:60-66 | the breaker's next state after a failure |
| LlmLimits.CircuitBreaker.AllowRequest | atlas_agent/llm_client.py:68-78 | its next state and answer for a request |
| LlmLimits.StateIsHistory | atlas_agent/llm_client.py:55-78 | over any run: the failure count is that of the failures in a row, open means enough of them, degraded that a probe was let through since the last success |
| LlmLimits.RefusedExactly | atlas_agent/llm_client.py:60-78 | over any run a request is refused if and only if the failures since the last success or granted probe are at least the threshold (and one) and the latest is less than the reset time ago |
| LlmLimits.RefusedWithReason | atlas_agent/llm_client.py:60-78 | so never with fewer failures than that since the last success |
| LlmLimits.FailuresInARowRefuse | atlas_agent/llm_client.py:60-78 | after any run, a threshold of failures in a row refuses requests until the reset time is over |
| DropOldest.Oldest | services/message_broker/validator.go:150-157 | a full buffer drops its oldest message, any other none |
| MessageRouter.Buffer.Add | services/message_broker/validator.go:144-159 | appends, and drops the oldest exactly when full |
| MessageRouter.Buffer.Drain | services/message_broker/validator.go:162-173 | hands over all messages in order and empties the buffer |
| MessageRouter.Router.Route | services/message_broker/validator.go:199-235 | publishes, buffers or reports the timeout; a timed-out message is not buffered |
| MessageRouter.RouteExactly | services/message_broker/validator.go:199-235 | with a publisher a delivery publishes and a timeout gives up; a failure, or no publisher, puts the message at the end of the buffer, where of 1000 the oldest leaves |
| MessageRouter.TimedOutAreReported | services/message_broker/validator.go:220-222 | over every run the messages given up are exactly those whose call reported a timeout, in order |
| MessageRouter.GivenUpExactly | services/message_broker/validator.go:212-227 | the message of a call is given up if and only if that call reported a timeout, whatever came before and after |
| MessageRouter.Router.Flush | services/message_broker/validator.go:238-268 | every drained message is tried once in order, the buffer is then exactly the failed ones in order, and the last error is returned |
| MessageRouter.FlushExactly | services/message_broker/validator.go:238-268 | when all attempts succeed everything buffered is published, when none does or there is no publisher nothing changes |
| MessageRouter.LastError | services/message_broker/validator.go:252-267 | the last answer of the flush that is no delivery |
| MessageRouter.AnsweredPartition | services/message_broker/validator.go:252-265 | a flush splits the drained messages into delivered and failed ones, losing none |
| MessageRouter.AlwaysConserved | services/message_broker/validator.go:199-268 | over every run of Route and Flush the places of a message add up to how often it was routed |
| MessageRouter.EachMessageInOnePlace | services/message_broker/validator.go:199-268 | each routed message is in exactly one of published, buffered, evicted, timed out |
| MessageRouter.EvictedAreOldest | services/message_broker/validator.go:144-159 | over every run evicted messages are older than all buffered ones, both are in routing order, and at most 1000 are buffered |
| ChannelBroker.FirstFull | services/message_broker/internal/transport/channel.go:36-44 | the first channel without room |
| ChannelBroker.ChannelTransport.Publish | services/message_broker/internal/transport/channel.go:30-46 | reaches exactly the prefix of the subscribers before the first full one, and returns nil exactly when that is all of them |
| ChannelBroker.ChannelTransport.Subscribe | services/message_broker/internal/transport/channel.go:48-59 | adds one empty channel at the end of the topic's list |
| ChannelBroker.ChannelTransport.Close | services/message_broker/internal/transport/channel.go:61-74 | sets the flag on which Publish refuses everything; what the channels hold stays there |
| ChannelBroker.ClosedForGood | services/message_broker/internal/transport/channel.go:30-74 | over any run: after Close no message is answered nil or accepted any more |
| ChannelBroker.SubscriberBuffer.Push | services/message_broker/main.go:33-43 | appends, dropping the oldest when full |
| ChannelBroker.SubscriberBuffer.Drain | services/message_broker/main.go:45-51 | hands over all messages in order and empties the buffer |
| ChannelBroker.OneSubscriberPublish | services/message_broker/internal/transport/channel.go:30-46 | the topic machine's publish is the transport's on the topic's subscriber list: the same channels afterwards, and answered exactly when it returns nil |
| ChannelBroker.SubscribesOnce | services/message_broker/main.go:105-125 | in every run the first request for a topic adds its one channel, later ones none |
| ChannelBroker.LostExactly | services/message_broker/main.go:61-144 | the messages answered nil that nobody will get are exactly those published before the topic's first request and before Close |
| ChannelBroker.Delivery | services/message_broker/main.go:61-144 | over every interleaving of publish, handler, subscribe requests and Close: messages answered nil are the lost ones and the accepted ones; what left the buffer, what is buffered, in flight and in the channel are the accepted ones in order, and the batches returned are what was drained, in order |
| ChannelBroker.StepExactly | services/message_broker/main.go:33-51 | in every run: a publish needs room among 1024, the handler takes from the front and adds at the end, a request takes all, and a message is dropped only by a push onto 1024, the oldest |
| ChannelBroker.DropsCounted | services/message_broker/main.go:33-43 | over every run as many messages are dropped as pushes met a full buffer |
| ChannelBroker.CatchesUp | services/message_broker/main.go:105-144 | from every reachable topic the handler and one request leave nothing under way |
| ChannelBroker.AllDeliveredExactly | services/message_broker/main.go:61-144 | with nothing under way the batches end to end are the accepted messages if and only if none was dropped, and those answered nil if and only if moreover none was lost |
| ChannelBroker.NothingDroppedMeansAllDelivered | services/message_broker/main.go:61-144 | in particular, with nothing dropped and nothing under way the batches are exactly the accepted messages |
| Sorting.SortByMeaning | scripts/check_parallel_paths.py:56 | sorting gives a sorted permutation |
| Sorting.SortByStrict | scripts/check_parallel_paths.py:56 | different keys come out strictly increasing |
| Sorting.StrictlySortedUnique | core_engine/strategy/src/bin/parity_check.rs:72-73 | a set of elements has only one strictly sorted list, so the sorting algorithm plays no part |
| ParityCheck.SortJsonValue | core_engine/strategy/src/bin/parity_check.rs:67-86 | the recursive method with its key vector and insertions computes the canonical form |
| ParityCheck.Canonical | core_engine/strategy/src/bin/parity_check.rs:66-86 | two values have the same output if and only if they are equal up to the order of object members at every depth |
| ParityCheck.EquivMeansSameForm | core_engine/strategy/src/bin/parity_check.rs:67-86 | one direction: reordered members do not change the output |
| ParityCheck.SameFormMeansEquiv | core_engine/strategy/src/bin/parity_check.rs:67-86 | the other: the output tells apart everything else |
| ParityCheck.CanonIsSorted | core_engine/strategy/src/bin/parity_check.rs:66-86 | in the output members are strictly sorted at every depth |
| ParityCheck.SortedIsUnchanged | core_engine/strategy/src/bin/parity_check.rs:67-86 | a value already sorted at every depth is not changed |
| ParityCheck.CanonIsIdempotent | core_engine/strategy/src/bin/parity_check.rs:67-86 | applying it twice is applying it once |
| ParityCheck.LookupsKept | core_engine/strategy/src/bin/parity_check.rs:67-86 | every path of keys and indices finds the same, up to canonical form, before and after |
| ParityCheck.InsertKnown | core_engine/strategy/src/bin/parity_check.rs:76 | an insertion under a known key replaces that member where it stands |
| ParityCheck.LookupExactly | core_engine/strategy/src/bin/parity_check.rs:67-86 | what a path finds, step by step |
| DirectoryTree.WalkMeaning | scripts/check_parallel_paths.py:27-32 | the pruned walk visits exactly the directories with no excluded part in their path |
| DirectoryTree.WalkDistinct | scripts/check_parallel_paths.py:27-32 | and each of them once |
| DirectoryTree.ExcludedExactly | scripts/check_parallel_paths.py:18-19 | excluded is a path with one of ten names in it |
| DirectoryTree.MatchesExactly | scripts/check_parallel_paths.py:21-23 | a name matches a domain in three forms: as it is, with more behind an underscore, or with more before one |
| DirectoryTree.NormalizedExactly | scripts/check_parallel_paths.py:22 | after capitals have become small and dashes underscores |
| DirectoryTree.LanguageExactly | scripts/check_parallel_paths.py:10 | source files are those ending in .rs, .py and .go behind a name, each of another language |
| DirectoryTree.CollectSourceFiles | scripts/check_parallel_paths.py:25-37 | the nested loops and the final sort give the specified list |
| DirectoryTree.SourceFilesMeaning | scripts/check_parallel_paths.py:25-37 | that list holds exactly the source files below, with no excluded part above them |
| DirectoryTree.SourceFilesSorted | scripts/check_parallel_paths.py:37 | they come sorted by the first part of the path in which they differ |
| DirectoryTree.FilesMoveUp | scripts/check_parallel_paths.py:25-37 | the files of a directory are files of every directory above it |
| ParallelPaths.CandidatesAt | scripts/check_parallel_paths.py:47-55 | the loop over one directory's children finds exactly its candidates |
| ParallelPaths.FindImplementations | scripts/check_parallel_paths.py:39-62 | the method with its walk, sort and ancestor filter gives the specified selection |
| ParallelPaths.CandidatesMeaning | scripts/check_parallel_paths.py:40-55 | the candidates are exactly the matching, not excluded directories below the root with a source file, each with its own files and languages |
| ParallelPaths.LanguagesExactly | scripts/check_parallel_paths.py:54 | an entry's languages are those of its files' extensions |
| ParallelPaths.SelectMeaning | scripts/check_parallel_paths.py:56-62 | in depth order, being selected is having no listed proper ancestor |
| ParallelPaths.Covered | scripts/check_parallel_paths.py:56-62 | every candidate lies at or below a selected one |
| ParallelPaths.SelectedAreMinimal | scripts/check_parallel_paths.py:39-62 | for every tree the selection is exactly the candidates with no candidate proper ancestor; their paths differ and none is above another |
| ParallelPaths.JoinedExactly | scripts/check_parallel_paths.py:56 | the text of a path, part by part |
| ParallelPaths.SelectedInOrder | scripts/check_parallel_paths.py:56 | the selection comes by depth, then by the path's text |
| ParallelPaths.EachFileInOneEntry | scripts/check_parallel_paths.py:39-62 | each source file of any candidate belongs to exactly one selected entry, at or above that candidate |
| ParallelPaths.Classify | scripts/check_parallel_paths.py:64-70 | ok for at most one implementation, a violation exactly when more than one all share a language |
| ParallelPaths.ViolationIsOverlap | scripts/check_parallel_paths.py:64-70 | a violation is an overlap: two implementations do share a language |
| ParallelPaths.OverlapMissedExactly | scripts/check_parallel_paths.py:64-70 | an overlap goes unreported if and only if no language is common to all, which two implementations cannot bring about |
| ParallelPaths.PairwiseOverlapIsMissed | scripts/check_parallel_paths.py:64-70 | an implementation that shares no language with the others hides the overlap of all the others, however many: the answer is polyglot |
| ParallelPaths.RustRustPython | scripts/check_parallel_paths.py:64-70 | for instance two in Rust and one in Python |
| Gateway.AgentGateway.Authorize | intelligence/agent_control_plane/gateway/gateway.py:43-79 | every refusal is audited as a failure if a record can be made of it; a permission leaves no event |
| Gateway.AuthorizedExactly | intelligence/agent_control_plane/gateway/gateway.py:53-69 | an agent may if and only if it is registered under a name that is not empty, is validated, ready or running, has a permission set, and has the capability in it; and with which error it is refused |
| Gateway.AgentGateway.Audit | intelligence/agent_control_plane/gateway/gateway.py:81-104 | an event is recorded exactly when its names are not empty |
| Gateway.AgentGateway.Store | intelligence/agent_control_plane/gateway/gateway.py:154-198 | whole new storage, log and result of a store |
| Gateway.StoreExactly | intelligence/agent_control_plane/gateway/gateway.py:154-198 | a store by its conditions: what it answers, stores and logs |
| Gateway.AgentGateway.Retrieve | intelligence/agent_control_plane/gateway/gateway.py:106-152 | whole log and result of a retrieve; storage is not changed |
| Gateway.RetrieveExactly | intelligence/agent_control_plane/gateway/gateway.py:106-152 | a retrieve by its conditions: it answers what is stored |
| Gateway.RetrieveLastWritten | intelligence/agent_control_plane/gateway/gateway.py:106-152 | after any run a permitted retrieve answers the record last written under the id, or nothing |
| Gateway.AgentGateway.Forget | intelligence/agent_control_plane/gateway/gateway.py:200-251 | whole new storage, log and result of a forget |
| Gateway.ForgetExactly | intelligence/agent_control_plane/gateway/gateway.py:200-251 | a forget by its conditions, with the engine's event and the gateway's |
| Gateway.AgentGateway.EngineForgets | intelligence/memory_system/forgetting/engine.py:41-123 | whole new storage, log and result of the forgetting engine |
| Gateway.AgentGateway.ForgetIfExpired | intelligence/memory_system/forgetting/engine.py:125-185 | whole new storage, log and result of the automatic forgetting, with its guards |
| Gateway.EngineExactly | intelligence/memory_system/forgetting/engine.py:187-214 | the engine by its conditions: which kinds it removes with and without a policy id, automatically or not, and what it answers and logs |
| Gateway.ExpireExactly | intelligence/memory_system/forgetting/engine.py:125-185 | the automatic forgetting by its conditions |
| Gateway.AgentGateway.Capture | intelligence/memory_system/experience_engine/engine.py:169-204 | whole new storage, log and result of an experience capture |
| Gateway.CaptureExactly | intelligence/memory_system/experience_engine/engine.py:169-204 | a capture by its conditions |
| Gateway.AuditReplay | intelligence/agent_control_plane/gateway/gateway.py:106-251 | after every run of gateway calls, captures and automatic forgetting, whatever the storage faults, the completed successful events replay to the stored ids and the escaped ones, no id being both: to exactly the stored ids if and only if none has escaped; every stored record is validated |
| Gateway.EscapedMeaning | intelligence/memory_system/forgetting/engine.py:125-185 | an id has escaped if and only if an automatic call removed it and nothing has been stored under it since |
| Gateway.NothingEscapesTheGateway | intelligence/agent_control_plane/gateway/gateway.py:106-251 | without automatic forgetting the replay is exact |
| Gateway.RunKeepsInv | intelligence/agent_control_plane/gateway/gateway.py:154-251 | and every stored record is under its own id with all its names |
| Gateway.RemovedExactly | intelligence/memory_system/forgetting/engine.py:187-214 | a call removes a record if and only if it is a forget of it with auditable names and working storage by an agent that is registered, in one of the three states and has the forget capability, with a non-empty policy id when the record is semantic or procedural; or the automatic forgetting of expired working memory |
| Gateway.RemovedInRun | intelligence/memory_system/forgetting/engine.py:41-214 | in every run, a record gone between two points was removed in between by such a call |
| Gateway.WrittenExactly | intelligence/agent_control_plane/gateway/gateway.py:154-198 | a record appears or changes if and only if a complete, validated record is stored with working storage by an agent that is registered, in one of the three states and has the store capability; or it is captured |
| Gateway.WrittenInRun | intelligence/agent_control_plane/gateway/gateway.py:154-198 | in every run, a record stored at the end was written by such a call and neither removed nor replaced since |
| Gateway.ChangesAreLogged | intelligence/agent_control_plane/gateway/gateway.py:81-251 | no event is ever erased, and a call that changes the records changes one id and ends its events with a success for it, completed unless the removal was automatic |
| Gateway.EveryEventHasItsCall | intelligence/agent_control_plane/gateway/gateway.py:53-104 | nobody acts under another's name: every event of a run's log names the operation, agent and record of one of its calls |
| Gateway.AutomaticForgettingEscapesReplay | intelligence/memory_system/forgetting/engine.py:125-185 | forgetting expired working memory logs no completed event: the replay then shows exactly that record too many |

## Left out

- Sockets, HTTP handlers, WebSocket adapters, files, Supabase, subprocesses and
  LLM calls; log previews and metric libraries but for the counters named above.
- Clocks: every call gets its time as a parameter, with the monotonicity its
  contract names. Tokens, losses and times are real numbers, not floating point.
- The listener's read timeout is one more way a header read fails; a timeout
  cannot hit a payload read, as in the code. Its statistics are unbounded numbers,
  not 64-bit ones, and the parsed frame is delivered instead of logged.
- IpcWriter.Writer.Send: one call at a time on this class; the interleavings of
  several producers are in the state machine of the same module.
- The writer's deadlines and a second Connect, which would start a second loop.
- Trace.TraceGenerator.Generate: reading the clock and advancing the counter are
  one step; with concurrent callers the times of two IDs may be swapped.
- RateLimit.RateLimiter.Wait: one waiter, and calls that return; which do not is
  what `WaitGrantsExactly` says.
- LlmCache.LLMCache.Get: times strictly increase from call to call, so that two
  puts never tie; with a tie the original evicts by dictionary order.
- LlmCache.RawKeyInjective: about the text that is hashed; the hash, cut to 24
  hexadecimal digits, is taken to be injective. The temperature is its text.
- The cache's statistics, a save that fails and a file that is not JSON.
- The broker's envelope validation; buffers hold messages that passed it.
- ChannelBroker.ChannelTransport.Publish: one step over the list of subscribers;
  handlers receiving in between are only modelled for the one subscriber a topic
  has in this broker.
- ChannelBroker.ChannelTransport.Close: the end of the handlers' loops, once their
  closed channels are empty.
- The router's length query and the validation of nil messages inside its buffer.
- TradeBreaker.CircuitBreaker.RecordTrade: trades as reals; NaN is left out.
- ParityCheck.SortJsonValue: numbers are their literals, and objects are lists of
  members in the order of the map, which covers sorted and insertion order.
- DirectoryTree.DomainMatches: lower-cases ASCII letters only; links and file
  system errors are left out of the tree, and the name order of a directory is
  whatever the list says.
- Gateway.AgentGateway.Store: memory content, metadata, event ids and timestamps;
  an audit sink that fails; the capability policy, which admits the three
  capabilities used here.
- Gateway.AgentGateway.ForgetIfExpired: what the expiry metadata say at the time of
  the call is a parameter instead of parsed text and a clock.
- Gateway.AgentGateway.EngineForgets: storage is a map, so a delete of a present
  record is never refused without an exception.
- Consolidation, which stores without an audit event, and the database storage,
  which swallows store errors: the replay does not hold over them.
- Scheduler.AgentScheduler.Submit: of the task model's field validators only the one
  for the id matters here, and it is the precondition; the registry's own
  transitions are any registry at each call.
- The LLM client's semaphore, retries and fallback; the field validators, kill
  switch, exposure checks, lifecycle tables and quality score, each of which is
  settled by reading one branch.
