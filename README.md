# Verified models of a collection of small Rust and C++ programs

This project is a Dafny model of the logic at the heart of several programs
of one repository. It covers:

- **The speed daemon** (a Protohackers service). The `Server` keeps the
  client registry and routes speeding tickets to dispatchers; the
  `PlateTracker` keeps sightings per plate and road, sorted by time, and
  issues at most one ticket per plate and day. The model also has the
  binary wire format: the encoder of outgoing events and the decoder of
  client frames.
- **The Monkey lexer**: the token types, keyword lookup, slices, and the
  cursor-advancing `next_token`.
- **Three small Protohackers services**: the `means_to_end` price cache
  and its 9-byte frames, the `mob_in_the_middle` Boguscoin address
  check and rewrite, and `prime_time`'s trial division and request
  handling.
- **In-place buffers and state machines**:
  - the hindsight rollback `FrameCache` and `Session`;
  - the lightbikes `RingBuffer`;
  - the tetris `PlayingField`;
  - the double-buffered game of life;
  - the flood `ResourceConsumer` accounting and dispatch round;
  - the synacor VM `Memory` and opcode decoder;
  - Advent of Code 2023 day 15 (HASH and lens boxes);
  - the cube solver's `Volume`.

Each source file is one module in one `.dfy` file. Shared types live in
`common.dfy`: `Option`, `Result`, the fixed-width integer types and
whitespace. Code that updates state in place is modelled as a class:
its fields, `modifies` clauses, and loops with their invariants. Each
such method is proved against a specification function. Pure code is
modelled as functions, with lemmas about them.

Design decisions:

- **Channels.** The actor's channels become one output sequence per
  client (`outbox`). A client's sequence stays after the client is
  dropped, because its session goes on draining the channel.
- **`unwrap` on a missing client.** An `unwrap` on `clients.get(..)`
  panics when the client is absent, so it becomes a precondition.
- **Speed.** The speed is computed in `f64` and then cast to `u16`. The
  model states the same result in exact integer arithmetic: the floor of
  `dist * 3600 / elapsed` (mph), or of `dist * 360000 / elapsed`
  (hundredths of a mph), saturating at 65535.
  - Two sightings with the same timestamp are modelled as the casts
    behave. A distance of 0 gives NaN, which casts to 0, so no ticket.
    A positive distance gives infinity, which casts to 65535.
- **Which pairs `record_plate` checks.** The service can be described as
  checking only the sightings next to the new one. `record_plate`
  (`server.rs:189-224`) instead checks every adjacent pair of the road's
  sorted list on every sighting. The model follows the code, so an
  earlier pair whose days were not yet billed can be ticketed later.
- **`send_ticket`.** It picks the first dispatcher for the road in
  `HashMap` iteration order. The model picks any connected dispatcher
  for the road (`:|`), so the proofs hold whatever the order.
- **Integer widths.** `u8`/`u16`/`u32`/`i32`/`i64` are subset types.
  A wrap-around or a panic on overflow is a precondition, or an explicit
  `%` where the source truncates (`len as u8`, `wrapping_sub`), except
  where "Left out" names an unbounded counter.

## Model

| member | source | states |
|---|---|---|
| SpeedDaemonServer.Server.constructor | rust/protohackers/src/speed_daemon/server.rs:82-90 | A new server has id 0 next, no clients, no channels, no pending tickets and an empty tracker. |
| SpeedDaemonServer.Server.Register | rust/protohackers/src/speed_daemon/server.rs:92-97 | Returns the old `next_id` and increments it, below the `u32` limit where the debug build's `+= 1` would panic. The new client has no role and an empty channel. Nothing else changes, and no pending ticket is stranded. |
| SpeedDaemonServer.Server.ClientErr | rust/protohackers/src/speed_daemon/server.rs:137-142 | Sends `Error(msg)` on the client's channel and removes the client. The backlog and the id counter are unchanged. |
| SpeedDaemonServer.Server.IdentifyClient | rust/protohackers/src/speed_daemon/server.rs:103-123 | A client that already has a role gets "already registered" and is dropped. Otherwise its role is stored. A new dispatcher receives exactly the pending tickets whose road it lists: the old backlog is the new backlog plus those tickets (as multisets), and no ticket for one of its roads stays pending. |
| SpeedDaemonServer.Server.DrainPending | rust/protohackers/src/speed_daemon/server.rs:109-120 | The `swap_remove` loop. It moves to the dispatcher exactly the queued tickets whose road is listed, in the order it takes them, and leaves all others. |
| SpeedDaemonServer.Server.SendTicket | rust/protohackers/src/speed_daemon/server.rs:144-157 | A ticket goes either to one connected dispatcher covering its road or onto the backlog, never both. It is queued only when no such dispatcher exists. |
| SpeedDaemonServer.Server.SendTickets | rust/protohackers/src/speed_daemon/server.rs:128-130 | Every ticket in the list is routed in order, each as `SendTicket` routes it, and the client table is untouched. |
| SpeedDaemonServer.Server.RecordPlate | rust/protohackers/src/speed_daemon/server.rs:125-135 | A camera's sighting updates the tracker as `Record` says, and every resulting ticket is routed (through `SendTickets`). A client that is not a camera gets "not a camera" and is removed, and the tracker is untouched. |
| SpeedDaemonServer.SwapRemoveSpec | rust/protohackers/src/speed_daemon/server.rs:113 | `swap_remove(i)` removes exactly element `i` (as a multiset) and moves the last element into slot `i`. |
| SpeedDaemonServer.IdentifyKeepsNoStranded | rust/protohackers/src/speed_daemon/server.rs:103-123 | Identifying a client keeps the server invariant: no pending ticket has a connected dispatcher for its road. |
| SpeedDaemonServer.QueueKeepsNoStranded | rust/protohackers/src/speed_daemon/server.rs:153-156 | Queuing a ticket only when no dispatcher covers its road keeps that invariant. |
| SpeedDaemonServer.RemoveKeepsNoStranded | rust/protohackers/src/speed_daemon/server.rs:137-142 | Removing a client keeps the invariant. |
| SpeedDaemonServer.RouteAllKeepsTickets | rust/protohackers/src/speed_daemon/server.rs:129-131 | Routing a list of tickets loses none: each is either delivered to a dispatcher of its road or appended to the backlog. |
| SpeedDaemonTracker.InsertByTimeSpec | rust/protohackers/src/speed_daemon/server.rs:180-182 | `push` then a stable `sort_by_key` on the timestamp: the list stays sorted and is the old list plus the new sighting. The new sighting comes after every sighting that is not later than it. |
| SpeedDaemonTracker.InsertIndex | rust/protohackers/src/speed_daemon/server.rs:180-182 | The insertion point follows every sighting that is not later than the new one and precedes the first later one. |
| SpeedDaemonTracker.SpeedsAsDivision | rust/protohackers/src/speed_daemon/server.rs:193-197 | For a positive elapsed time, the two truncated `u16` speeds are `min(dist*3600/elapsed, 65535)` and `min(dist*360000/elapsed, 65535)`. |
| SpeedDaemonTracker.QuotientIsDiv | rust/protohackers/src/speed_daemon/server.rs:193-197 | The repeated-subtraction quotient is the floor division. |
| SpeedDaemonTracker.ScanFewerThanTwo | rust/protohackers/src/speed_daemon/server.rs:185-187 | With fewer than two sightings on the road no ticket is issued and the billed days are unchanged. |
| SpeedDaemonTracker.ScanSound | rust/protohackers/src/speed_daemon/server.rs:189-224 | Every ticket comes from an adjacent pair whose truncated mph exceeds the limit. Its miles, timestamps and speed are those of the pair. |
| SpeedDaemonTracker.ScanAvoidsBilled | rust/protohackers/src/speed_daemon/server.rs:198-204 | Neither day (timestamp / 86400) of an issued ticket was billed when the scan began. |
| SpeedDaemonTracker.ScanDisjoint | rust/protohackers/src/speed_daemon/server.rs:206-209 | No two tickets of one scan share a day. |
| SpeedDaemonTracker.ScanComplete | rust/protohackers/src/speed_daemon/server.rs:189-224 | Every violating adjacent pair is ticketed, unless one of its days was billed before the scan reached it (`BilledBefore`): before the scan began, or by a ticket cut from an earlier pair. |
| SpeedDaemonTracker.BilledBeforeEnd | rust/protohackers/src/speed_daemon/server.rs:189-224 | The days billed when the scan reaches the last sighting are the days the whole scan ends with, which ties `BilledBefore` to the scan. |
| SpeedDaemonTracker.ScanDays | rust/protohackers/src/speed_daemon/server.rs:206-209 | The billed list grows by exactly `day_1`, plus `day_2` when it differs, of each issued ticket. |
| SpeedDaemonTracker.ScanRoad | rust/protohackers/src/speed_daemon/server.rs:185-224 | The `for` loop over the pairs computes exactly the pair scan: the tickets and the billed days. |
| SpeedDaemonTracker.RecordSpec | rust/protohackers/src/speed_daemon/server.rs:160-227 | One sighting adds the observation to its road's sorted list. It bills the new tickets' days. Every other road of the plate is unchanged. |
| SpeedDaemonTracker.RecordKeepsInv | rust/protohackers/src/speed_daemon/server.rs:161-164 | One sighting preserves three facts: all road lists are sorted, every ticket ever issued has both days billed for its plate, and no two tickets for the same plate share a day. |
| SpeedDaemonTracker.PlateTracker.RecordPlate | rust/protohackers/src/speed_daemon/server.rs:160-227 | The method stores the sighting and returns the tickets as `Record` says, keeping the tracker invariant over all tickets issued. |
| SpeedDaemonTracker.ScenarioRoad66 | rust/protohackers/src/speed_daemon/server.rs:189-224 | 100 miles in 3000 s at limit 60 gives one ticket at 12000 (120 mph), billing day 0. |
| SpeedDaemonTracker.ScenarioZeroElapsed | rust/protohackers/src/speed_daemon/server.rs:193-197 | Equal timestamps: same mile, no ticket (NaN casts to 0); a different mile, a ticket at 65535. |
| SpeedDaemonTracker.ScenarioBilledDay | rust/protohackers/src/speed_daemon/server.rs:198-204 | A second violation on an already billed day gives no ticket. |
| SpeedDaemonEvents.Send | rust/protohackers/src/speed_daemon/events.rs:24-48 | The writes of `send` append exactly the frame of the event to the stream. |
| SpeedDaemonEvents.EncodeHeartbeat | rust/protohackers/src/speed_daemon/events.rs:26-28 | Heartbeat is the single byte 0x41. |
| SpeedDaemonEvents.EncodeErrorLayout | rust/protohackers/src/speed_daemon/events.rs:29-33 | Error is 0x10, the length's low byte, then the message bytes. |
| SpeedDaemonEvents.EncodeTicketLayout | rust/protohackers/src/speed_daemon/events.rs:34-44 | Ticket is 0x21, the plate length, the plate, then road, mile1, ts1, mile2, ts2 and speed, big-endian, 18 + len bytes in all. |
| SpeedDaemonEvents.RoundTrip | rust/protohackers/src/speed_daemon/events.rs:24-48 | Decoding what `send` wrote, whatever follows it, gives back the same event and consumes exactly the frame. This holds for every event whose lengths fit in a byte. |
| SpeedDaemonEvents.LongMessageNotFaithful | rust/protohackers/src/speed_daemon/events.rs:31 | A 256-byte message is written with length byte 0, so the frame decodes as an empty Error. |
| SpeedDaemonSession.ParseEvent | rust/protohackers/src/speed_daemon/client_session.rs:41-70 | The method's reads from the stream decode a payload exactly as the `DecodeEvent` function does. On success the cursor is just past the payload. |
| SpeedDaemonSession.ParsePlate | rust/protohackers/src/speed_daemon/client_session.rs:43-48 | Reads a length byte, that many plate bytes and a u32 timestamp, as `DecodeEvent` does for 0x20. Stops with the first error: end of stream, or a plate that is not UTF-8. |
| SpeedDaemonSession.ParseCamera | rust/protohackers/src/speed_daemon/client_session.rs:53-58 | Reads road, mile and limit as three u16, as `DecodeEvent` does for 0x80. |
| SpeedDaemonSession.ParseDispatcher | rust/protohackers/src/speed_daemon/client_session.rs:59-66 | Reads a count byte, then that many u16 roads in order, as `DecodeEvent` does for 0x81. |
| SpeedDaemonSession.DecodeRoundTrip | rust/protohackers/src/speed_daemon/client_session.rs:41-70 | Every client event with a UTF-8 plate and one-byte counts decodes from its frame, whatever follows, consuming exactly its payload. |
| SpeedDaemonSession.PlateRoundTrip | rust/protohackers/src/speed_daemon/client_session.rs:43-48 | Opcode 0x20: u8 length, the plate bytes, u32 timestamp. |
| SpeedDaemonSession.CameraRoundTrip | rust/protohackers/src/speed_daemon/client_session.rs:53-58 | Opcode 0x80: three u16, road, mile and limit. |
| SpeedDaemonSession.DispatcherRoundTrip | rust/protohackers/src/speed_daemon/client_session.rs:59-66 | Opcode 0x81: a u8 count, then that many u16 roads in order. |
| SpeedDaemonSession.DecodeNeedsWholeFrame | rust/protohackers/src/speed_daemon/client_session.rs:41-66 | A decoded event depends only on the bytes it consumed. Any shorter input gives an error, never an event. |
| SpeedDaemonSession.DecodeRejectsNonUtf8 | rust/protohackers/src/speed_daemon/client_session.rs:47 | A plate that is not valid UTF-8 is an error. |
| SpeedDaemonSession.DecodeRejectsUnknownOpcode | rust/protohackers/src/speed_daemon/client_session.rs:67 | Any other opcode is rejected whatever follows. |
| MonkeyToken.FromIdentifierKeywords | rust/monkey_interpreter/src/token.rs:42-52 | fn, let, if, else, return, true and false map to their keyword types. |
| MonkeyToken.FromIdentifierOther | rust/monkey_interpreter/src/token.rs:53 | Any other string maps to Identifier. |
| MonkeyToken.Slice.AsSlice | rust/monkey_interpreter/src/token.rs:69-71 | Returns the `len` elements from `start`, and requires `start + len <= |data|`. |
| MonkeyLexer.FindIdentifierEnd | rust/monkey_interpreter/src/lexer.rs:133-137 | Returns the length of the longest run of identifier characters at the front. |
| MonkeyLexer.RunEndSpec | rust/monkey_interpreter/src/lexer.rs:113-118 | A `take_while` run is maximal: every character in it is of the class and the next one is not. |
| MonkeyLexer.Lexer.EatWhitespace | rust/monkey_interpreter/src/lexer.rs:113-118 | Moves the cursor to the end of the whitespace run. |
| MonkeyLexer.Lexer.NextToken | rust/monkey_interpreter/src/lexer.rs:59-111 | Returns None, with the cursor at the end, exactly when only whitespace remains. Otherwise it returns the token cut at the first non-whitespace index and moves the cursor past it. |
| MonkeyLexer.NextTokenAtSpec | rust/monkey_interpreter/src/lexer.rs:59-111 | None exactly when only whitespace remains. A token starts at the first non-whitespace index and its length is at least 1. |
| MonkeyLexer.ClassifyTwoCharOperators | rust/monkey_interpreter/src/lexer.rs:66-81 | '=' followed by '=' is Eq of length 2, otherwise Assign; '!' is NotEq or Bang the same way. |
| MonkeyLexer.ClassifyRuns | rust/monkey_interpreter/src/lexer.rs:92-102 | A letter start gives the maximal letter run typed by `from_identifier`; a digit start gives the maximal digit run as Int. |
| MonkeyLexer.ClassifyIllegal | rust/monkey_interpreter/src/lexer.rs:103-104 | Any other character is Illegal of length 1. |
| MonkeyLexer.ClassifySound | rust/monkey_interpreter/src/lexer.rs:65-107 | The cut text is a token of the grammar with the type reported. |
| MonkeyLexer.ClassifyLongest | rust/monkey_interpreter/src/lexer.rs:65-107 | Maximal munch: no longer text starting at the cursor is a token. |
| MonkeyLexer.ClassifyComplete | rust/monkey_interpreter/src/lexer.rs:65-107 | A token of the grammar followed by the end or by a character that closes every token is cut whole, with its type. |
| MonkeyLexer.LexFromAppend | rust/monkey_interpreter/src/lexer.rs:59-111 | A text `a` ending in a character that closes every token lexes the same whatever follows it: the tokens of `a + b` from a cursor inside `a` are the tokens of `a`, then those cut from `|a|` on. |
| MonkeyLexer.AsWrittenPanicsOnTrailingOperator | rust/monkey_interpreter/src/lexer.rs:66-81 | The unchecked lookahead fails exactly on a trailing '=' or '!'. Everywhere else it agrees with the checked cut. |
| MonkeyLexer.TrailingAssign | rust/monkey_interpreter/src/lexer.rs:66-72 | "x =" panics as written. With the check it lexes to Identifier "x" and Assign "=". |
| MonkeyLexer.LexPunctRun | rust/monkey_interpreter/src/lexer.rs:65-90 | A run of operators and delimiters, none of them an '=' or '!' followed by '=', lexes to one token per character, each of the type its character names. |
| MonkeyLexer.LexBasics | rust/monkey_interpreter/src/lexer.rs:144-174 | "=+(){},;" lexes to the eight listed tokens in order, then None. |
| MeansToEnd.ParseEncode | rust/protohackers/src/means_to_end.rs:37-50 | 'I' gives Insert and 'Q' gives Query, with the fields as big-endian i32 from bytes 1..5 and 5..9: every operation parses back from its frame. |
| MeansToEnd.EncodeParse | rust/protohackers/src/means_to_end.rs:37-51 | A frame parses exactly when it starts with 'I' or 'Q', and is then the frame of the result; any other first byte is Err. |
| MeansToEnd.I32RoundTrip | rust/protohackers/src/means_to_end.rs:39-40 | `i32::from_be_bytes` inverts the big-endian encoding. |
| MeansToEnd.SortByTimeSorted | rust/protohackers/src/means_to_end.rs:86-89 | The sort orders the points by timestamp. |
| MeansToEnd.SortByTimePermutation | rust/protohackers/src/means_to_end.rs:86-89 | The sort is a permutation. |
| MeansToEnd.Cache.Process | rust/protohackers/src/means_to_end.rs:73-107 | An Insert appends exactly one point, clears `sorted` and answers None. A Query with min > max answers 0 and changes nothing. Any other Query leaves the points a timestamp-sorted permutation of the old ones. It answers the truncated mean price of the points with min <= timestamp <= max, or 0 when there are none. |
| MeansToEnd.Scan | rust/protohackers/src/means_to_end.rs:91-99 | The skip-while/take-while loop over sorted points counts and sums exactly the points in range. |
| MeansToEnd.MeanFitsI32 | rust/protohackers/src/means_to_end.rs:103 | The mean of i32 prices is an i32, so `as i32` does not wrap. |
| MeansToEnd.CountTotalPermutation | rust/protohackers/src/means_to_end.rs:86-99 | The count and the total do not depend on the order of the points. |
| MobInTheMiddle.IsBoguscoinAddrSpec | rust/protohackers/src/mob_in_the_middle.rs:73-82 | Holds exactly when the trimmed token starts with '7', has 26 to 35 characters and is all ASCII alphanumeric. |
| MobInTheMiddle.TrimSpec | rust/protohackers/src/mob_in_the_middle.rs:74 | `trim` keeps the middle slice that neither starts nor ends with whitespace, and drops only whitespace. |
| MobInTheMiddle.BoguscoinAcceptedLong | rust/protohackers/src/mob_in_the_middle.rs:90 | The 35-character test address is accepted. |
| MobInTheMiddle.BoguscoinAcceptedShort | rust/protohackers/src/mob_in_the_middle.rs:91 | The 33-character test address is accepted. |
| MobInTheMiddle.BoguscoinRejectedShape | rust/protohackers/src/mob_in_the_middle.rs:92-93 | A token starting with '6' and one that is too short are rejected. |
| MobInTheMiddle.BoguscoinRejectedChars | rust/protohackers/src/mob_in_the_middle.rs:94-95 | A token with '&' and one that is too long are rejected. |
| MobInTheMiddle.WordsAreWords | rust/protohackers/src/mob_in_the_middle.rs:63 | Every token of `split_ascii_whitespace` is non-empty and holds no ASCII whitespace. |
| MobInTheMiddle.FilterBoguscoinSpec | rust/protohackers/src/mob_in_the_middle.rs:63-65 | The filter keeps the address tokens, and only those. |
| MobInTheMiddle.RewriteMsg | rust/protohackers/src/mob_in_the_middle.rs:62-71 | The loop replaces every occurrence of each address token, in order, with 7YWHMfk9JZe0LM0g1ZauHuiSxhI. |
| MobInTheMiddle.ReplaceFirst | rust/protohackers/src/mob_in_the_middle.rs:68 | `str::replace` replaces the leftmost occurrence and goes on searching after it. |
| MobInTheMiddle.RewriteMsgNoAddress | rust/protohackers/src/mob_in_the_middle.rs:63-70 | A message with no address token is returned unchanged. |
| MobInTheMiddle.RewriteMsgExample | rust/protohackers/src/mob_in_the_middle.rs:99-104 | The test message has its trailing address replaced by the fixed address. |
| MobInTheMiddle.AsWrittenRewritesInsideWords | rust/protohackers/src/mob_in_the_middle.rs:67-69 | With address w, the line "w w-" becomes "T T-" as written (T is the fixed address), but "T w-" under the token rewrite. |
| MobInTheMiddle.InsideWordsRewrite | rust/protohackers/src/mob_in_the_middle.rs:62-71 | For the example family "w w-", the token rewrite gives "T w-": the address token is replaced, the longer token holding it is kept. |
| MobInTheMiddle.RewriteJoin | rust/protohackers/src/mob_in_the_middle.rs:63 | For every message, a separator stays in place and the text on either side of it is rewritten independently. |
| MobInTheMiddle.RewriteToken | rust/protohackers/src/mob_in_the_middle.rs:64 | A single token becomes the replacement address exactly when it is an address as a whole, and is kept otherwise. |
| MobInTheMiddle.RewriteTokenBetween | rust/protohackers/src/mob_in_the_middle.rs:62-71 | For every token between two separators in any message, the token is replaced as a whole exactly when it is an address, the separators are kept, and the text on either side is rewritten independently. |
| MobInTheMiddle.MapWordsJoin | rust/protohackers/src/mob_in_the_middle.rs:63 | Mapping tokens keeps every separator in place and maps the text on either side independently. |
| PrimeTime.IsPrime | rust/protohackers/src/prime_time.rs:78-95 | True exactly when x is prime. This covers false below 2, true for 2, and trial division up to x/2+1. |
| PrimeTime.IsPrimeTableComposite | rust/protohackers/src/prime_time.rs:104-110 | -100, 0, 1, 4 and 21 are not prime. |
| PrimeTime.IsPrimeTablePrime | rust/protohackers/src/prime_time.rs:107-111 | 2, 3 and 53 are prime. |
| PrimeTime.AsI64 | rust/protohackers/src/prime_time.rs:68 | `as_i64` gives a value exactly for integers that fit in an i64. |
| PrimeTime.Process | rust/protohackers/src/prime_time.rs:62-76 | A method other than "isPrime" gives None. Otherwise the response is "isPrime", and `prime` holds exactly when the number is a prime i64. |
| PrimeTime.FloatNotPrime | rust/protohackers/src/prime_time.rs:67-70 | A floating-point number never yields a value, so it is reported not prime. |
| HindsightRingBuffer.FrameCache.constructor | rust_games/hindsight/src/hindsight/ring_buffer.rs:11-21 | `capacity` default values, oldest frame 0. |
| HindsightRingBuffer.FrameCache.Get | rust_games/hindsight/src/hindsight/ring_buffer.rs:23-28 | Requires oldest <= frame < oldest + capacity, with that `u32` sum not overflowing, and returns the value kept for that frame, in slot frame - oldest. |
| HindsightRingBuffer.FrameCache.Set | rust_games/hindsight/src/hindsight/ring_buffer.rs:30-45 | Inside the window only that frame changes. At oldest + capacity the front is dropped, the value appended and the window slides by one. Further ahead panics. The buffer always holds `capacity` slots. |
| HindsightRingBuffer.WindowViewAdvance | rust_games/hindsight/src/hindsight/ring_buffer.rs:35-38 | Dropping the front slot and appending one maps the new frame to the value and keeps every other frame still in the window. |
| HindsightSession.Session.constructor | rust_games/hindsight/src/hindsight/session.rs:24-38 | Frame 0, Initializing with both slots free, one fresh input buffer per player of `max_rollback` default slots (frame 0, no real or predicted input, unconfirmed) starting at frame 0. With at least one slot, the current frame is kept and no player has input for it yet. |
| HindsightSession.Session.RegisterPlayer | rust_games/hindsight/src/hindsight/session.rs:40-54 | While Running the result is InvalidOperation. A taken slot gives PlayerAlreadyRegistered. Otherwise the info is stored. |
| HindsightSession.Session.SynchronizeInput | rust_games/hindsight/src/hindsight/session.rs:60-71 | Ok exactly when every player has input for the current frame, all copied out. Otherwise the error names the first player missing one, after the earlier players were copied. |
| HindsightSession.Session.Synchronize | rust_games/hindsight/src/hindsight/session.rs:73-84 | A frame below `max_rollback` gives None and no change. Otherwise the frame goes back by `max_rollback`, with a Rollback to the new frame over `max_rollback as u8` frames. |
| HindsightSession.Session.FrameFinished | rust_games/hindsight/src/hindsight/session.rs:86-88 | The frame goes up by exactly one. |
| LightbikesRingBuffer.RingBuffer.constructor | lightbikes/src/lightbikes/utils/RingBuffer.hpp:11-15 | Nothing pushed, size 0, head 0. |
| LightbikesRingBuffer.RingBuffer.Push | lightbikes/src/lightbikes/utils/RingBuffer.hpp:17-24 | The head moves to (head+1) mod max and the element is written there, and no other slot changes. The size grows by one until it reaches max. |
| LightbikesRingBuffer.RingBuffer.Get | lightbikes/src/lightbikes/utils/RingBuffer.hpp:27-33 | For offset < size, the element pushed `offset` pushes before the latest one. |
| LightbikesRingBuffer.RingBuffer.Size | lightbikes/src/lightbikes/utils/RingBuffer.hpp:35-37 | The number of pushes, capped at max. |
| LightbikesRingBuffer.Back | lightbikes/src/lightbikes/utils/RingBuffer.hpp:29-31 | The index computed by `get` lies in the array, and it is `offset` places behind the head, modulo max. |
| LightbikesRingBuffer.ConstructorTest | lightbikes/src/lightbikes/utils/RingBuffer.test.cpp:6-10 | A new ten-slot buffer has size 0. |
| LightbikesRingBuffer.PushPopTest | lightbikes/src/lightbikes/utils/RingBuffer.test.cpp:12-28 | After twenty pushes of 0..19, the size is 10, `get(0)` is 19 and `get(9)` is 10. |
| TetrisField.PlayingField.constructor | rust_games/tetris/src/game/field.rs:39-47 | width*height Empty cells, no block, Falling. |
| TetrisField.PlayingField.CellIndex | rust_games/tetris/src/game/field.rs:49-51 | `y*width + x`, inside the grid for in-range columns and rows. |
| TetrisField.CellIndexInjective | rust_games/tetris/src/game/field.rs:49-51 | Distinct cells of the grid have distinct indices. |
| TetrisField.PlayingField.SetCell | rust_games/tetris/src/game/field.rs:53-56 | Only the cell at `cell_index(x, y)` changes. |
| TetrisField.PlayingField.CanFitBlock | rust_games/tetris/src/game/field.rs:154-170 | True exactly when every cell of the block is inside the field and Empty. |
| TetrisField.PlayingField.MoveActiveBlock | rust_games/tetris/src/game/field.rs:172-185 | The block moves only if it fits at its new place, and the result says whether it did. With no block the result is false and nothing changes. |
| TetrisField.PlayingField.RotateActiveBlock | rust_games/tetris/src/game/field.rs:135-152 | The rotation becomes (rot +/- 1) mod count, as `wrapping_sub` computes it, only when the turned block fits. With no block the result is false. |
| TetrisField.RotatedLeftFromZero | rust_games/tetris/src/game/field.rs:141-143 | Turning left from 0 gives count-1 for counts 1, 2 and 4. |
| TetrisField.RotatedInverse | rust_games/tetris/src/game/field.rs:140-143 | A left turn undoes a right turn and vice versa. |
| TetrisField.PlayingField.CheckLines | rust_games/tetris/src/game/field.rs:103-120 | Returns the number of full rows. When there is one, the state becomes ClearingLines from the first to the last full row. |
| TetrisField.PlayingField.ClearLines | rust_games/tetris/src/game/field.rs:122-133 | The cells before row `from` move down by the cleared span and the top span becomes Empty; the cell count is kept. |
| TetrisField.FullRowsSound | rust_games/tetris/src/game/field.rs:104-111 | Every row number listed is that of a full row. |
| TetrisField.FullRowsComplete | rust_games/tetris/src/game/field.rs:104-111 | Every full row is listed. |
| TetrisField.ClearedWhenContiguous | rust_games/tetris/src/game/field.rs:103-133 | When the full rows are exactly `from` to `to`, the source's clearing equals removing exactly the full rows. |
| TetrisField.PlayingField.CommitActiveBlock | rust_games/tetris/src/game/field.rs:187-196 | Exactly the block's four cells get its colour. With no block nothing changes. |
| TetrisField.RotationsWellFormed | rust_games/tetris/src/game/field.rs:388-428 | Seven shapes, each with 1, 2 or 4 rotations of four distinct offsets. |
| TetrisField.AsWrittenClearsRowsBetween | rust_games/tetris/src/game/field.rs:112-133 | With full rows 0 and 2 and a partly filled row 1, `clear_lines(0, 2)` also erases row 1. |
| TetrisField.ClearFullRowsCount | rust_games/tetris/src/game/field.rs:103-133 | Removing exactly the full rows removes `width` filled cells per full row and no other filled cell. |
| GameOfLife.Simulation.constructor | game_of_life/src/gol.rs:13-20 | Two distinct all-false buffers of width*height cells. |
| GameOfLife.Simulation.Toggle | game_of_life/src/gol.rs:22-29 | Flips cell y*width+x and no other. |
| GameOfLife.NeighborCount | game_of_life/src/gol.rs:52-77 | The live in-bounds cells among the eight around a cell. There are never more than 8. |
| GameOfLife.Simulation.NeighborCountAt | game_of_life/src/gol.rs:52-77 | The nested loops compute exactly `NeighborCount`. |
| GameOfLife.NextAt | game_of_life/src/gol.rs:36-44 | Each cell of the next generation follows the rule: dead below 2 or above 3 neighbours, alive at 3, unchanged at 2. |
| GameOfLife.Simulation.Step | game_of_life/src/gol.rs:31-46 | After the step the visible buffer is the next generation of the old visible buffer, whatever the other buffer held. The buffers swap roles. |
| GameOfLife.Simulation.Swap | game_of_life/src/gol.rs:48-50 | The two buffers exchange roles, no cell changes. |
| GameOfLife.NextByWindow | game_of_life/src/gol.rs:31-77 | The rule restated on the 3x3 window: alive next exactly when the window holds 3, or 4 with the cell alive. |
| GameOfLife.EmptyStaysEmpty | game_of_life/src/gol.rs:31-46 | An empty grid stays empty. |
| FloodInventory.ResourceConsumer.constructor | rust_games/flood/src/logistics/inventory.rs:25-33 | current, in_transit and packet_remainder are 0. |
| FloodInventory.ResourceConsumer.ResourcesToSend | rust_games/flood/src/logistics/inventory.rs:37-43 | Requires current + in_transit <= max. Returns max - current - in_transit, which is 0 exactly when the consumer is full. |
| FloodInventory.ResourceConsumer.Consume | rust_games/flood/src/logistics/inventory.rs:48-58 | Succeeds exactly when current*units + remainder >= amount. On success the stored units drop by exactly `amount` and the remainder is below one packet. On failure nothing changes. |
| FloodInventory.ResourceConsumer.Delivered | rust_games/flood/src/logistics/inventory.rs:172-177 | current goes up by 1 and in_transit down by 1, and what is still to send is unchanged. |
| FloodInventory.ResourceConsumer.Destroyed | rust_games/flood/src/logistics/inventory.rs:179-185 | in_transit goes down by 1, so one more packet is to be sent. |
| FloodInventory.Collect | rust_games/flood/src/logistics/inventory.rs:102-115 | The producers are the suppliers with stock and the requesters the consumers still short, both in query order. |
| FloodInventory.ServeRequesters | rust_games/flood/src/logistics/inventory.rs:121-138 | Each served requester's in_transit goes up by 1 while the serving producer loses one packet. Producers serve in order until each is empty. The round stops when requesters or producers run out. |
| FloodInventory.DispatchResource | rust_games/flood/src/logistics/inventory.rs:99-139 | The whole dispatch round. Suppliers without stock and full consumers are untouched. |
| FloodInventory.ServedNext | rust_games/flood/src/logistics/inventory.rs:130-137 | After a packet, the round stays with the same producer while it has stock, else moves to the next one, or ends after the last. |
| SynacorStorage.Memory.constructor | synacor_challenge/src/synacorvm/storage.rs:6-10 | `size` zero words. |
| SynacorStorage.Memory.StartAt | synacor_challenge/src/synacorvm/storage.rs:12-14 | The suffix of memory from the index. |
| SynacorStorage.Memory.Get | synacor_challenge/src/synacorvm/storage.rs:24-26 | The word at the address. |
| SynacorStorage.Memory.Set | synacor_challenge/src/synacorvm/storage.rs:28-30 | Only the word at the address changes, and reading it back gives the value. |
| SynacorStorage.Memory.PushProgramBytes | synacor_challenge/src/synacorvm/storage.rs:16-22 | Word i becomes the little-endian word of bytes 2i and 2i+1 for i < n/2, and every other word is unchanged. The image must have an even length and fit in memory, because the loop indexes past the end otherwise. |
| SynacorStorage.AsU16LeValue | synacor_challenge/src/synacorvm/storage.rs:45-47 | `as_u16_le` is data[0] + 256*data[1]. |
| SynacorStorage.LeBytesRoundTrip | synacor_challenge/src/synacorvm/storage.rs:45-47 | Reading back the little-endian bytes of a word gives the word. |
| SynacorStorage.LoadedWords | synacor_challenge/src/synacorvm/storage.rs:16-22 | Loading a program written as little-endian words stores those words. |
| SynacorOperations.FromRaw | synacor_challenge/src/synacorvm/operations.rs:21-29 | A literal with the raw value; values from 32768 on are refused. |
| SynacorOperations.UnknownExactly | synacor_challenge/src/synacorvm/operations.rs:44-51 | Decoding fails exactly for an opcode other than 0, 19 and 21, with that code in the error. |
| SynacorOperations.DecodeEncode | synacor_challenge/src/synacorvm/operations.rs:44-54 | 0 decodes to Halt, 19 to Out with operand raw[1], and 21 to Noop, whatever follows. |
| SynacorOperations.EncodeDecode | synacor_challenge/src/synacorvm/operations.rs:44-54 | A successful decode read exactly the words of the decoded instruction. |
| SynacorOperations.InstrLenSteps | synacor_challenge/src/synacorvm/operations.rs:33-39 | `instr_len` is 0 for Halt, and otherwise the number of words the instruction occupies (1 for Noop, 2 for Out). |
| Day15.AsciiHash | advent_of_code/src/day_15.rs:10-18 | The fold of (acc+byte)*17 mod 256 from 0 is below 256. |
| Day15.HashIsPoly | advent_of_code/src/day_15.rs:10-18 | HASH is the sum of byte i times 17^(n-i), modulo 256. |
| Day15.ParseStep | advent_of_code/src/day_15.rs:26-38 | The label is everything before the first '-' or '='. A trailing '-' removes, and "=n" files focal length n. |
| Day15.ParseDecimal | advent_of_code/src/day_15.rs:38 | `parse::<u8>` reads back any byte written in decimal, with or without '+'. |
| Day15.FindLabel | advent_of_code/src/day_15.rs:29-32 | Returns the first slot with the label, or None when no slot has it. |
| Day15.UpdateContents | advent_of_code/src/day_15.rs:33-42 | A box behaves as a map from label to focal length. A removal deletes the label. An addition sets its focal length. |
| Day15.UpdateOrder | advent_of_code/src/day_15.rs:37-42 | Replacing keeps every slot in place, and a new label is appended at the end. |
| Day15.UpdateDistinct | advent_of_code/src/day_15.rs:29-42 | A step keeps the labels of a box distinct. |
| Day15.ArrangedDistinct | advent_of_code/src/day_15.rs:25-44 | After any steps no box holds a label twice. |
| Day15.ArrangedHashes | advent_of_code/src/day_15.rs:25-44 | Every lens sits in the box its label hashes to. |
| Day15.ApplyStep | advent_of_code/src/day_15.rs:25-44 | One step of the closure changes only the label's box, as `Update` says. |
| Day15.PowerUpdate | advent_of_code/src/day_15.rs:45-50 | Changing one box changes the total by that box's change in power. |
| Day15.Part2 | advent_of_code/src/day_15.rs:20-52 | The total is the focusing power, the sum over boxes and slots of (box+1)*(slot+1)*focal, of the boxes after all steps. |
| CubeSolver.Volume.constructor | cube_solver/src/solver.rs:12-19 | x*y*z empty cells and a filled count of 0. |
| CubeSolver.Volume.PositionIndex | cube_solver/src/solver.rs:37-44 | `z*(y*x) + y*x + x` for in-range positions, and below the cell count. |
| CubeSolver.Volume.CubeOfIndex | cube_solver/src/solver.rs:21-44 | `cube_position` undoes `position_index` on the cells of the volume. |
| CubeSolver.Volume.IndexOfCube | cube_solver/src/solver.rs:21-44 | `position_index` undoes `cube_position` on the indices of the volume. |
| CubeSolver.Volume.FitsExactly | cube_solver/src/solver.rs:46-58 | An orientation fits exactly when every target is inside the dimensions and empty. |
| CubeSolver.Volume.AddOrientation | cube_solver/src/solver.rs:60-68 | On empty targets the targets become true, no other cell changes, and the filled count grows by the number of targets. |
| CubeSolver.Volume.RemoveOrientation | cube_solver/src/solver.rs:70-78 | On filled targets the targets become false, no other cell changes, and the count shrinks by the number of targets. |
| CubeSolver.AddRemoveRestores | cube_solver/src/solver.rs:60-78 | Removing what was added restores the content, and adding fills exactly one new cell per target. |
| CubeSolver.Volume.Filled | cube_solver/src/solver.rs:80-82 | `filled_count == len` holds exactly when every cell is true, since the count is always the number of true cells. |
| CubeSolver.IsNewSolution | cube_solver/src/solver.rs:215-222 | False exactly when some stored solution contains every item of the test. |

## Left out

- Concurrency and I/O. This covers the tokio accept loops, the actor loop and sessions of the speed daemon, the heartbeat tasks, sockets and flushing, and the JSON parsing and output of `prime_time`. Only the state changes and byte encodings behind them are modelled.
- The speed daemon's `WantHeartbeat` handling and the `NewClient`/`PrintTickets` actor events: they start timers or print, and have no state the core relies on.
- Float rounding of the speed daemon's `f64` speed. The exact integer floor is modelled. `f64` could round `dist / time * 3600.0` differently from the exact quotient when the quotient lies very close to an integer.
- `MonkeyLexer.IsIdentifierChar`: `char::is_alphabetic` is approximated by the ASCII letters. Non-ASCII letters are classified as Illegal in the model.
- `MonkeyLexer.LexBasics` is the only lexer unit test replayed. The longer `test_next_token` input (`lexer.rs:177-288`, 73 tokens) is not. The general lemmas cover each of its token kinds, but replaying every token step by step is too costly for the verifier.
- `MeansToEnd.Cache.Process`: the `i64` running total is unbounded in the model. It could overflow only with more than 2^32 points in range.
- `MeansToEnd.Parse` requires at least nine bytes. The source reads exactly nine, and indexing a shorter slice panics.
- `SpeedDaemonServer.Server.SendTicket` picks any dispatcher covering the road, rather than the first in `HashMap` iteration order, which is unspecified.
- `HindsightSession.Session`: `push_local_input`, the `current_frame()` getter and the input buffer's prediction fields are not modelled. The session only reads each slot's real input.
- `FloodInventory.DispatchResource`: spawning a packet entity becomes a packet record (supplier, requester) in the returned list. The dispatch timer of `dispatch_orders_system` is not modelled.
- `FloodInventory.ResourceConsumer.Consume` requires that `current * units_per_packet + remainder` fits in a `u32`. Above that the source panics in debug builds.
- `TetrisField.PlayingField`: `tick`, `render`, the clearing animation's float progress and random shapes are not modelled.
- `CubeSolver`: the recursive search `solve` and orientation generation (float rotation matrices) are not modelled.
- `SpeedDaemonSession.DecodeEvent`: an unknown opcode makes the source `panic!`, which ends the session's task. The model returns `Err(UnsupportedType(code))` instead, so a caller sees an error value where the source aborts.
- `Day15.Part2` takes the input already split into steps: reading the first line and `split(",")` are not modelled. `Day15.Part2` and `Day15.ApplyStep` require every step to be well formed (a '-' or '=' and, after '=', a valid `u8`), where the source's `unwrap()` calls panic.
- `SynacorOperations`: the VM `step` loop is not modelled. Register operands from 32768 on are refused, as the source's `from_raw` panics on them.

## Findings

| source | as written | input that shows it | evidently intended | confidence | as-written member | corrected member |
|---|---|---|---|---|---|---|
| rust/monkey_interpreter/src/lexer.rs:67,76 | `input[position + 1]` is read without a bounds check after '=' or '!' | the program "x =" (a trailing '=') | a trailing '=' is Assign and a trailing '!' is Bang | high (not executed) | MonkeyLexer.AsWrittenPanicsOnTrailingOperator | MonkeyLexer.Lexer.NextToken |
| rust/protohackers/src/mob_in_the_middle.rs:67-69 | each address token is replaced everywhere in the line with `str::replace`, including inside longer tokens | "w w-" for an address w: the second token "w-" is not an address but becomes "T-" | only whole address tokens are rewritten: "T w-" | high (not executed) | MobInTheMiddle.AsWrittenRewritesInsideWords | MobInTheMiddle.RewriteTokenBetween |
| rust_games/tetris/src/game/field.rs:112-133 | `check_lines` reports only the first and last full row, and `clear_lines` clears every row between them | a 2-wide, 3-row field with rows 0 and 2 full and row 1 half filled: the half-filled row is erased | only the full rows are removed, the others drop down | high (not executed) | TetrisField.AsWrittenClearsRowsBetween | TetrisField.ClearFullRowsCount |
