# SkadiCore: a verified model of its wire formats and stream machines

This project models the parts of SkadiCore that turn bytes into messages and back, and the
machines that drive them, and proves what they promise on every input, every schedule and
every reachable state.

| file | what it models |
|---|---|
| `Bytes.dfy`, `Unicode.dfy`, `ByteStream.dfy`, `Endpoints.dfy` | bytes, UTF-8, 16-bit words; a connection read by exact amounts; endpoints |
| `ChunkedDecoder.dfy`, `ChunkedEncoder.dfy` | the poll-driven HTTP/1.1 chunked reader and writer (section 7.1 of RFC 9112) and their round trip |
| `SizeLines.dfy`, `ChunkGrammar.dfy` | what the reader takes for a size line, and for a body, as a grammar |
| `XhttpPath.dfy`, `PacketUp.dfy`, `Uplink.dfy` | the packet-up uplink: reorder buffer, upload queue and reader; the client's writer and posting task; the two ends together |
| `AuthRateLimit.dfy` | the limiter of failed authentications |
| `Vless.dfy`, `Addons.dfy`, `AddonsWire.dfy`, `VlessHandler.dfy` | VLESS requests, their protobuf addons and what protobuf can write there, the handshake reader |
| `Socks5.dfy` | SOCKS5 parsers and the negotiation reader (RFC 1928, RFC 1929) |
| `MuxFrame.dfy`, `Mux.dfy` | Mux frames, their reader, and the demultiplexer |
| `Xudp.dfy`, `XudpCone.dfy` | the registry of XUDP sockets, and a relay's cone together with it |
| `Relay.dfy` | the two-way relay with limits |
| `ConnectionGate.dfy` | the compare-and-swap connection gate |
| `Checksum.dfy` | the Internet checksum and the ICMP "fragmentation needed" packet |

`dafny verify dfyconfig.toml` checks everything.

How the outside world enters: reads and writes deliver any amount, are not ready, or fail, as
the environment chooses; time is a number passed to each call and never goes back where a
statement says so; connecting, binding and sending succeed or fail by a parameter. Runs of a
machine are finite lists of events, and a statement about runs is about all of them. The code
that changes objects is modelled by classes whose methods are proved against functions; the
statements about runs are about those functions.

Main results:

- **Chunked streams.** Whatever the fragmentation, the not-ready points and the buffer sizes,
  the reader delivers exactly what one pure function makes of the bytes, errors included
  (`ChunkedDecoder.ReadAll`), and that function is the grammar of chunked bodies, in both
  directions (`ChunkGrammar.DecodeExactly`, `SizeLines.LineSizeExactly`). The writer's wire always holds a prefix of the framing of the
  buffers it took, and each accepted byte is framed once if and only if no flush or shutdown
  overtook an unanswered write (`ChunkedEncoder.WireIsFraming`, `ChunkedEncoder.ExactlyOnce`).
  `ChunkedEncoder.StreamDelivers` joins the two ends.
- **Packet-up.** The reorder buffer's state depends only on which packets have arrived
  (`PacketUp.OrderDoesNotMatter`). However writing, posting, the network and reading interleave,
  the bytes on their way are unbroken if and only if every request found room in the upload queue
  for what it released; then the bytes read are a prefix of the bytes accepted
  (`Uplink.EndToEnd`, `Uplink.UplinkDelivers`).
- **Limiter.** One address's answers do not depend on anybody else's calls, although each call
  sweeps the whole table; bans rest on disjoint sets of close failures; an address is blocked
  exactly while one of its bans runs, and how long each lasts is fixed by when it failed
  (`AuthRateLimit.Isolation`, `AuthRateLimit.Counting`, `AuthRateLimit.BlockedExactly`,
  `AuthRateLimit.BanLengths`).
- **Wire formats.** Every encoder and parser pair reads back exactly on the values that fit, and
  every stream reader takes precisely the bytes the pure parser consumes. A SOCKS5 client is let
  through exactly with the right method, credential and command, for all messages
  (`Socks5.NegotiatesWithPassword`); addons of any protobuf fields are read as the fields say
  (`AddonsWire.AddonsAreRead`).
- **Mux.** In every run a session's connections hold exactly what its own events put there
  (`Mux.Demultiplexing`). A session survives everything but its own end, and its connection is sent
  its whole stream, in every continuation if and only if no reader of that session was still
  running when its `New` arrived (`Mux.SurvivesExactly`). The cone is sent exactly the payloads
  meant for it (`Mux.ConeStream`).
- **Relay.** Every schedule of turns conserves the bytes of both directions, and fixes the outcome
  (`Relay.Conservation`, `Relay.OutcomeExactly`).
- **XUDP.** No id ever has two running readers if and only if each register finds its id absent
  or free and no earlier register of that id came while it was absent (`Xudp.SingleExactly`). The
  id a relay's cone was opened for is let go at the cone's end if and only if it is the id brought
  for that cone last (`XudpCone.ReleasedExactly`).

Where the code does not do what one would expect, the model follows the code:

- A flush or shutdown that finishes a held-up write makes the retry send the same bytes again
  (`ChunkedEncoder.FlushCanDuplicate`).
- A `New` for a Mux session whose reader still runs lets that reader remove the new session, so
  neither `Mux.SessionSurvives` nor `Mux.OwnDemultiplexing` holds there (`Mux.TakeOverLosesData`);
  `Mux.SurvivesExactly` has the exact condition.
- A packet-up chunk that finds the upload queue full is dropped, and what follows is read in its
  place (`Uplink.RefusedChunkIsMissing`); `Uplink.EndToEnd` has the exact condition.
- A second XUDP reader registered for an id is never matched by an abort of the first
  (`Xudp.OverwrittenReaderRuns`), and a reader registered after its id lapsed is known to nobody
  (`Xudp.LapsedIdGetsTwo`); the exact conditions are in `Xudp.CallKeepsOne`,
  `Xudp.AtMostOneReader` and `Xudp.SingleExactly`.
- A second id for an open XUDP cone replaces the first, which then stays in use for ever
  (`XudpCone.FirstIdIsLeftBehind`); so does the id of a relay that fails
  or times out (`XudpCone.FailureKeepsId`). `XudpCone.ReleasedExactly` has the exact condition.
- An `End` frame read from the wire carries no network and never ends an XUDP cone
  (`XudpCone.EndPassesConeBy`); only the end of the relay does.
- A user with a configured VLESS flow is always turned away (`Addons.OnlyBlankFlowsPass`).
- The outer header of the ICMP packet never verifies, because its checksum is stored over the
  total length (`Checksum.OuterHeaderNeverVerifies`). Section 3.1 of RFC 791 has the checksum at
  bytes 10 and 11.
- For an unknown SOCKS5 user name the password is compared with a fixed text, and a match is
  accepted like any other (`Socks5.StandInIsAccepted`); acceptance stands for a configured
  credential exactly when the name is listed or the password is not that text
  (`Socks5.AcceptanceMeansCredential`).
- The relay looks at its timers only between transfers, and a timer that is due does not keep it
  from reading (`Relay.LifetimeCanPass`), so `Relay.TimeoutsAreEarned` states when a timeout may
  happen, not that one must.

## Model

| member | source | states |
|---|---|---|
| ChunkedDecoder.FindCrlf | crates/skadi-transport/src/xhttp/client.rs:474 | the position found holds a CRLF and no earlier one does; nothing found means there is none |
| ChunkedDecoder.CrlfStays | crates/skadi-transport/src/xhttp/client.rs:473-505 | bytes that arrive later do not move a line end that is already buffered |
| ChunkedDecoder.LineDecides | crates/skadi-transport/src/xhttp/client.rs:474-489 | a buffered size line decides the next step, whatever is still unread |
| ChunkedDecoder.DataSplits | crates/skadi-transport/src/xhttp/client.rs:506-545 | a chunk handed over in any two pieces means the same |
| ChunkedDecoder.Decoder.constructor | crates/skadi-transport/src/xhttp/client.rs:449-459 | a new reader still has everything its leftover and its stream mean |
| ChunkedDecoder.Decoder.PollRead | crates/skadi-transport/src/xhttp/client.rs:461-577 | one poll hands over the next bytes of the meaning, or the error the meaning ends with, or nothing and changes nothing; no data with room means end of stream |
| ChunkedDecoder.Decoder.Fill | crates/skadi-transport/src/xhttp/client.rs:490-504 | reading more keeps leftover plus unread bytes the same, in order |
| ChunkedDecoder.Decoder.TakeLine | crates/skadi-transport/src/xhttp/client.rs:474-489 | a size line is bad, ends the stream, or opens a chunk of the size it announces |
| ChunkedDecoder.Decoder.PollSizeLine | crates/skadi-transport/src/xhttp/client.rs:473-505 | the size line branch: the stream ends, its meaning is bad, or what it means stays the same with less to look at |
| ChunkedDecoder.Decoder.PollDataCrlf | crates/skadi-transport/src/xhttp/client.rs:546-572 | the branch behind the data: its CRLF is taken, missing or cut off, as the meaning says |
| ChunkedDecoder.Decoder.PollData | crates/skadi-transport/src/xhttp/client.rs:506-545 | data comes from the leftover first and from the stream only when that is empty; end of stream inside a chunk is an error |
| ChunkedDecoder.Decoder.TakeBuffered | crates/skadi-transport/src/xhttp/client.rs:511-522 | buffered bytes handed over are the first bytes of the meaning |
| ChunkedDecoder.Decoder.ReadThrough | crates/skadi-transport/src/xhttp/client.rs:523-544 | bytes read past an empty buffer are the first bytes of the meaning |
| ChunkedDecoder.ReadAll | crates/skadi-transport/src/xhttp/client.rs:461-577 | under any polls, output and ending are those of one pure function of the bytes; every poll that had room and was not held up made progress |
| SizeLines.LineSizeExactly | crates/skadi-transport/src/xhttp/client.rs:477-481 | a line announces a size exactly when it is UTF-8 and is white space, an optional plus, hexadecimal digits of either case for a number below 2^64, white space and perhaps an extension |
| SizeLines.SpaceIsWhiteSpace | crates/skadi-transport/src/xhttp/client.rs:479 | what is trimmed is the white space of Unicode |
| ChunkGrammar.BodyDecodes | crates/skadi-transport/src/xhttp/client.rs:461-577 | whole chunks and any tail mean the data of the chunks and then what the tail means |
| ChunkGrammar.EveryBodyParses | crates/skadi-transport/src/xhttp/client.rs:461-577 | every byte string is whole chunks and one of the tails |
| ChunkGrammar.DecodeExactly | crates/skadi-transport/src/xhttp/client.rs:461-577 | bytes mean an output and an ending exactly when they are whole chunks with that data and a tail with that ending |
| ChunkedEncoder.HexReadsBack | crates/skadi-transport/src/xhttp/client.rs:383 | printing a size in hexadecimal and reading it are inverse for every number |
| ChunkedEncoder.SizeReadsBack | crates/skadi-transport/src/xhttp/client.rs:477-481 | a printed size survives UTF-8 check, extension cut, trimming and parsing |
| ChunkedEncoder.FrameDecodes | crates/skadi-transport/src/xhttp/client.rs:381-386 | the reader takes one frame off the front of any bytes and yields its payload |
| ChunkedEncoder.RoundTrip | crates/skadi-transport/src/xhttp/client.rs:326-577 | any framed list of non-empty chunks plus the last chunk means their concatenation and then end of stream |
| ChunkedEncoder.Encoder.constructor | crates/skadi-transport/src/xhttp/client.rs:335-343 | a new writer has nothing on the wire and nothing pending |
| ChunkedEncoder.Encoder.PollWritePending | crates/skadi-transport/src/xhttp/client.rs:345-362 | some prefix of the pending bytes moves to the wire, all of it exactly on success; it is not ready, or fails, exactly when the stream beneath just was or did |
| ChunkedEncoder.Encoder.PollWrite | crates/skadi-transport/src/xhttp/client.rs:366-398 | one write is a step of the writer machine: reject when closing, frame when nothing is pending, report the framed length once it is all out; it is held up or fails exactly when the stream beneath is or does |
| ChunkedEncoder.Encoder.PollFlush | crates/skadi-transport/src/xhttp/client.rs:400-405 | a flush only drains, and flushes the stream beneath exactly when it is done |
| ChunkedEncoder.Encoder.PollShutdown | crates/skadi-transport/src/xhttp/client.rs:407-430 | a shutdown drains, then sends one last chunk, then is closed; the stream beneath is shut down exactly when it is done, and holds it up or fails it otherwise |
| ChunkedEncoder.Encoder.StartClosing | crates/skadi-transport/src/xhttp/client.rs:411-421 | what is pending is drained before the last chunk takes its place |
| ChunkedEncoder.Encoder.Close | crates/skadi-transport/src/xhttp/client.rs:422-429 | the writer is closed exactly when the last chunk is out, and the stream beneath is shut down then |
| ChunkedEncoder.WireIsFraming | crates/skadi-transport/src/xhttp/client.rs:345-430 | in every run, whatever callers retry with, the wire is a prefix of the framing of the buffers taken plus one last chunk, and all of it exactly when closing has drained |
| ChunkedEncoder.ExactlyOnce | crates/skadi-transport/src/xhttp/client.rs:366-398 | framed bytes are the accepted bytes plus the write in flight, if and only if no flush or shutdown overtook a write |
| ChunkedEncoder.PatienceSuffices | crates/skadi-transport/src/xhttp/client.rs:380-405 | a caller that never flushes or shuts down over an unanswered write is never overtaken |
| ChunkedEncoder.WriterMeetsReader | crates/skadi-transport/src/xhttp/client.rs:326-577 | after any patient run that closes, the wire means exactly the accepted bytes and then end of stream |
| ChunkedEncoder.FlushCanDuplicate | crates/skadi-transport/src/xhttp/client.rs:380-405 | a run in which a flush finishes a held-up write and the retry puts the frame on the wire twice |
| ChunkedEncoder.StreamDelivers | crates/skadi-transport/src/xhttp/client.rs:122-140 | a reader over a closed wire, with any part buffered and any polls, yields a prefix of the accepted bytes, ends only with all of them, and until then gets at least one byte at every poll that had room and was not held up |
| AuthRateLimit.Limiter.constructor | crates/skadi-server/src/auth_rate_limit.rs:32-46 | a new limiter remembers nobody |
| AuthRateLimit.Limiter.CleanupExpired | crates/skadi-server/src/auth_rate_limit.rs:108-114 | every entry stays exactly when its window, its ban or its count is alive |
| AuthRateLimit.Limiter.IsBlocked | crates/skadi-server/src/auth_rate_limit.rs:48-65 | the answer, and what the call makes of every address's entry |
| AuthRateLimit.Limiter.RecordFailure | crates/skadi-server/src/auth_rate_limit.rs:67-106 | the ban the failure brings, and what the call makes of every address's entry; what these are over a run is in the laws below |
| AuthRateLimit.Replay | crates/skadi-server/src/auth_rate_limit.rs:48-114 | the limiter serves every sequence of calls as the run functions say |
| AuthRateLimit.Isolation | crates/skadi-server/src/auth_rate_limit.rs:48-114 | the answers about one address equal those of the run with all other calls deleted |
| AuthRateLimit.Counting | crates/skadi-server/src/auth_rate_limit.rs:67-114 | counters stay below the limit; each ban rests on that many close failures no other ban uses; any 2m-1 failures within less than a window contain a ban |
| AuthRateLimit.BurstBoundIsTight | crates/skadi-server/src/auth_rate_limit.rs:79-90 | for every limit m and window of at least 2, 2m-2 failures less than a window apart can go unbanned |
| AuthRateLimit.NewBanOutlasts | crates/skadi-server/src/auth_rate_limit.rs:89-98 | a new ban ends no earlier than any ban still running |
| AuthRateLimit.BanLengthGrows | crates/skadi-server/src/auth_rate_limit.rs:92-97 | higher levels never bring shorter bans |
| AuthRateLimit.BlockedExactly | crates/skadi-server/src/auth_rate_limit.rs:53-64 | an address is blocked at a time exactly when some ban it was ever given covers that time |
| AuthRateLimit.BanLengths | crates/skadi-server/src/auth_rate_limit.rs:89-98 | the first ban lasts twice the base, each further one twice the one before up to the tenth, none longer than the maximum; levels start over exactly when the address was forgotten before it failed again |
| XhttpPath.SeqReadsBack | crates/skadi-transport/src/xhttp/client.rs:218-219 | a sequence number printed into a path parses back |
| XhttpPath.PathReadsBack | crates/skadi-transport/src/xhttp/common.rs:15-25 | the path the client builds is taken apart into its session and number, for every base path |
| XhttpPath.MetaOfTwo | crates/skadi-transport/src/xhttp/common.rs:15-25 | in any path, slashes around it aside, the first part is the session, the second the number, further ones are ignored |
| XhttpPath.MetaOfOne | crates/skadi-transport/src/xhttp/common.rs:15-25 | a path of one part has a session and no number |
| XhttpPath.MetaOfNone | crates/skadi-transport/src/xhttp/common.rs:15-25 | a path of slashes has neither |
| XhttpPath.NumberExactly | crates/skadi-transport/src/xhttp/accept.rs:229-232 | a text is a number exactly when it is decimal digits, perhaps behind a plus, for a value below 2^64 |
| PacketUp.ReleaseHolds | crates/skadi-transport/src/xhttp/session.rs:35-38 | the loop hands over payloads in order up to the first gap and keeps the rest |
| PacketUp.PushKeepsCanonical | crates/skadi-transport/src/xhttp/session.rs:30-39 | one push keeps the canonical form: next is the least number not received, pending holds exactly the larger ones, the output is all smaller payloads in order |
| PacketUp.CanonicalIsUnique | crates/skadi-transport/src/xhttp/session.rs:22-40 | the packets received determine the state and the output |
| PacketUp.ArrivedIsCanonical | crates/skadi-transport/src/xhttp/session.rs:22-40 | every sequence of arrivals ends in canonical form |
| PacketUp.OrderDoesNotMatter | crates/skadi-transport/src/xhttp/session.rs:22-40 | arrivals with the same packets, in any order and number, end in the same state with the same output |
| PacketUp.PacketState.constructor | crates/skadi-transport/src/xhttp/session.rs:23-28 | a new buffer expects number 0 and holds nothing |
| PacketUp.PacketState.Push | crates/skadi-transport/src/xhttp/session.rs:30-39 | a push changes the buffer as specified and offers the released chunks to the queue one by one, dropping refused ones |
| PacketUp.UploadReader.PollRead | crates/skadi-transport/src/xhttp/common.rs:168-193 | a read takes the next bytes of part and queue; with room it reports the end exactly when all is read and the senders are gone, or when the next chunk is empty |
| PacketUp.ReadConserves | crates/skadi-transport/src/xhttp/common.rs:168-193 | data read, kept and queued are what was kept and queued before, in order |
| PacketUp.PostCountsExactly | crates/skadi-transport/src/xhttp/accept.rs:229-241 | a posted packet counts for a session, with its number, exactly when it names it and has at most a million bytes |
| PacketUp.Replay | crates/skadi-transport/src/xhttp/session.rs:43-84 | the session's objects read what the run function says, on every sequence of events |
| PacketUp.ServerInv | crates/skadi-transport/src/xhttp/session.rs:79-83 | after any events the buffer is canonical and released bytes are read, waiting or dropped, none twice |
| PacketUp.LostNothing | crates/skadi-transport/src/xhttp/session.rs:35-38 | nothing is dropped if and only if every request found an open queue with room for all it released |
| Uplink.PacketUpWriter.PollWrite | crates/skadi-transport/src/xhttp/client.rs:584-612 | a chunk that finds the queue full waits and is the one sent on the retry |
| Uplink.WriterExactlyOnce | crates/skadi-transport/src/xhttp/client.rs:584-612 | the chunks sent are exactly the accepted bytes, in order, and never empty |
| Uplink.Poster.PostNext | crates/skadi-transport/src/xhttp/client.rs:215-242 | one turn posts the next queued chunk under the next number; a failed request ends the task and drops the queue |
| Uplink.ClientInStep | crates/skadi-transport/src/xhttp/client.rs:205-242 | however writes and posts interleave, the posts so far are the first chunks sent, numbered from 0, and the rest is queued |
| Uplink.RunClient | crates/skadi-transport/src/xhttp/client.rs:205-242 | writer and posting task post what the run function says, on every interleaving |
| Uplink.ReleasedIsSent | crates/skadi-transport/src/xhttp/session.rs:30-39 | what the server released is the first packets the client sent, up to the first that has not arrived |
| Uplink.EndToEnd | crates/skadi-transport/src/xhttp/client.rs:181-248 | for every reordering and duplication of requests, released bytes reach the reader unbroken if and only if every request found room; then bytes read are a prefix of bytes accepted, and all of them once every packet has arrived and been read |
| Uplink.UplinkDelivers | crates/skadi-transport/src/xhttp/client.rs:181-248 | the same from the client's events to the server's: requests are copies of posts the client made, in any order and number |
| Uplink.RefusedChunkIsMissing | crates/skadi-transport/src/xhttp/session.rs:37 | for any 258 packets whose last two differ at the start, a schedule in which one finds the queue full and the bytes read are no prefix of the bytes sent |
| Uplink.NoFalseEnd | crates/skadi-transport/src/xhttp/common.rs:181-192 | with the client's requests alone, a read with room reports the end exactly when all is read and the senders are gone |
| Addons.ReadVarintLoop | crates/skadi-protocol/src/vless/addons.rs:148-167 | the loop computes the varint's value, cut to 64 bits, and its end; at most ten bytes |
| Addons.ParseFlowLoop | crates/skadi-protocol/src/vless/addons.rs:109-139 | the loop returns the last text field of the message, or the first error |
| Addons.ParseAddonsLoop | crates/skadi-protocol/src/vless/addons.rs:34-72 | the loop returns the last flow and the last seed, or the first error |
| Addons.FieldStands | crates/skadi-protocol/src/vless/addons.rs:141-192 | a field that was read stays the same whatever follows |
| AddonsWire.VarintReadsBack | crates/skadi-protocol/src/vless/addons.rs:148-167 | every 64-bit number reads back from its varint, whatever follows |
| AddonsWire.FieldReadsBack | crates/skadi-protocol/src/vless/addons.rs:141-192 | a field of any number and wire type reads back: kept, skipped, or refused for its size, with the size |
| AddonsWire.OtherTypesAreRefused | crates/skadi-protocol/src/vless/addons.rs:67 | wire types 3, 4, 6 and 7 are refused by name |
| AddonsWire.FlowIsRead | crates/skadi-protocol/src/vless/addons.rs:109-139 | a flow message of any fields gives its last text, or the first error |
| AddonsWire.AddonsAreRead | crates/skadi-protocol/src/vless/addons.rs:34-72 | addons of any fields, in any order and number, give the last flow and the last seed, or the first error |
| AddonsWire.SeedReadsBack | crates/skadi-protocol/src/vless/addons.rs:52-56 | a seed reads back exactly when it has at most 64 bytes |
| Addons.Concatenation | crates/skadi-protocol/src/vless/addons.rs:34-72 | parsing a then b is parsing b with absent fields filled from a, errors included; bytes a's last field claims beyond its end are cut from b |
| Addons.ParsedFlowIsShort | crates/skadi-protocol/src/vless/addons.rs:109-192 | no addons yield a flow of more than 126 bytes |
| Addons.FlowReadsBack | crates/skadi-protocol/src/vless/addons.rs:195-211 | built addons read back exactly when the flow has at most 125 bytes |
| Addons.OnlyBlankFlowsPass | crates/skadi-protocol/src/vless/addons.rs:77-97 | a flow is accepted exactly when both it and the user's configured flow are blank |
| Addons.FlowErrors | crates/skadi-protocol/src/vless/addons.rs:77-97 | which flows are refused with which error |
| Vless.EndpointReadsBack | crates/skadi-protocol/src/vless/parse.rs:131-237 | an encoded endpoint reads back from the front of any bytes exactly when its name has 1 to 255 bytes |
| Vless.EndpointIsCanonical | crates/skadi-protocol/src/vless/parse.rs:131-237 | what parses encodes to exactly the bytes consumed |
| Vless.EndpointVerdictStands | crates/skadi-protocol/src/vless/parse.rs:131-207 | later bytes change no verdict but "incomplete" |
| Vless.EndpointPrefixIncomplete | crates/skadi-protocol/src/vless/parse.rs:131-207 | every strict prefix is incomplete and says how much is there |
| Vless.RequestReadsBack | crates/skadi-protocol/src/vless/parse.rs:59-128 | a request, addons included, reads back with its length exactly when the target's name fits |
| Vless.RequestVerdictStands | crates/skadi-protocol/src/vless/parse.rs:59-128 | later bytes change no verdict on a request, value or error, but "incomplete" |
| Vless.EndpointErrors | crates/skadi-protocol/src/vless/parse.rs:131-207 | each error of an endpoint exactly by the bytes that bring it, missing amounts included |
| Vless.RequestErrors | crates/skadi-protocol/src/vless/parse.rs:59-128 | each error of a request exactly by the bytes that bring it, missing amounts included |
| Vless.RequestLayout | crates/skadi-protocol/src/vless/parse.rs:255-278 | a request byte by byte |
| Bytes.WordsAreBigEndian | crates/skadi-protocol/src/vless/parse.rs:139 | ports and lengths are big-endian |
| Unicode.Utf8Exactly | crates/skadi-protocol/src/vless/parse.rs:184 | what passes for UTF-8 is exactly the encodings of Unicode scalar values |
| Vless.BuildMuxRequest | crates/skadi-protocol/src/vless/parse.rs:240-247 | the built request parses to the Mux command and placeholder target, consuming all of it |
| Vless.BuildIpv4Request | crates/skadi-protocol/src/vless/parse.rs:255-278 | the built request parses to its id, command, address and port, consuming all of it |
| Vless.BuildDomainRequest | crates/skadi-protocol/src/vless/parse.rs:281-308 | the built request parses back exactly when the name has 1 to 255 bytes |
| VlessHandler.ParsedLength | crates/skadi-protocol/src/vless/handler.rs:45-115 | a request that parses ends where its length bytes say |
| VlessHandler.LengthExactly | crates/skadi-protocol/src/vless/handler.rs:45-115 | how much is read, by version, addons length, command, address type and name length |
| VlessHandler.AuthenticateIsFirst | crates/skadi-protocol/src/vless/config.rs:93-105 | the user found is the first with the id; none is found exactly when no user has it |
| VlessHandler.CutKeepsVerdict | crates/skadi-protocol/src/vless/handler.rs:45-125 | the bytes read parse to the verdict of the whole stream, errors included |
| VlessHandler.ReadRequest | crates/skadi-protocol/src/vless/handler.rs:45-115 | the reader takes exactly the request's bytes, or fails when they are not all there |
| VlessHandler.ReadAddress | crates/skadi-protocol/src/vless/handler.rs:84-115 | port, type and address are read as announced by type and length |
| VlessHandler.VerdictOnStream | crates/skadi-protocol/src/vless/handler.rs:117-133 | the verdict on the bytes read is that on the stream: positive exactly when the first user with the request's id has a blank flow and so have its sound addons, and each error exactly on its grounds, stated over the list of users |
| VlessHandler.HandshakeInner | crates/skadi-protocol/src/vless/handler.rs:41-151 | the handshake succeeds exactly on such a request when no write failed, leaves the stream at the first byte after it and answers two bytes; otherwise it is silent, and it returns each error exactly on its grounds, in the order the tests are made |
| Socks5.GreetingCut | crates/skadi-protocol/src/socks5/parse.rs:59-90 | a greeting ends where its count says and parses there as on the whole stream |
| Socks5.GreetingReadsBack | crates/skadi-protocol/src/socks5/parse.rs:59-90 | a greeting reads back exactly with 1 to 16 methods; none and more are refused by name |
| Socks5.MethodExactly | crates/skadi-protocol/src/socks5.rs:214-224 | method 2 is wanted for a password and 0 for none, wherever it is listed |
| Socks5.AuthCut | crates/skadi-protocol/src/socks5/parse.rs:95-143 | an authentication message ends where its two lengths say and parses there as on the whole stream |
| Socks5.RequestCut | crates/skadi-protocol/src/socks5/parse.rs:148-247 | a request ends where its type and length say and parses there as on the whole stream |
| Socks5.RequestReadsBack | crates/skadi-protocol/src/socks5/parse.rs:148-247 | a request reads back exactly when its command is known and its name has 1 to 255 bytes |
| Socks5.LengthIsTarget | crates/skadi-protocol/src/socks5.rs:281-317 | how much of a request is read depends on its target alone |
| Socks5.ReadGreeting | crates/skadi-protocol/src/socks5.rs:190-212 | succeeds exactly when the parser does on the stream, with the same methods, having read exactly the greeting |
| Socks5.ReadAuth | crates/skadi-protocol/src/socks5.rs:230-255 | reads exactly the message its lengths announce |
| Socks5.PerformAuth | crates/skadi-protocol/src/socks5.rs:226-275 | succeeds exactly on a message with the expected password when no write failed, having read exactly it; a message that parses is answered with 0 or 1, by whether its credential is accepted |
| Socks5.AuthReadsBack | crates/skadi-protocol/src/socks5/parse.rs:95-143 | a message built from a name and a password reads back from the front of any bytes exactly when both are UTF-8 |
| Socks5.LookupIsFirst | crates/skadi-protocol/src/socks5.rs:104-109 | the password found is that of the first entry with the name, and nothing is found exactly when the name is not listed |
| Socks5.AcceptedExactly | crates/skadi-protocol/src/socks5.rs:258-263 | a message is accepted exactly when its password is that of the first entry with its name, or its name is not listed and its password is the stand-in |
| Socks5.AcceptanceMeansCredential | crates/skadi-protocol/src/socks5.rs:258-263 | acceptance implies a configured credential with that name and password if and only if the name is listed or the password is not the stand-in |
| Socks5.LoginExactly | crates/skadi-protocol/src/socks5.rs:135-147 | the whole login, for any methods, name and password, succeeds exactly when method 2 is listed and the credential accepted, and takes exactly its bytes |
| Socks5.StandInIsAccepted | crates/skadi-protocol/src/socks5.rs:262 | every name that is not listed logs in with the stand-in |
| Socks5.ReadRequestBytes | crates/skadi-protocol/src/socks5.rs:281-317 | reads exactly the request its type and length announce; refuses exactly a bad address, and only then writes, all of its reply if no write failed |
| Socks5.ReadRequest | crates/skadi-protocol/src/socks5.rs:277-343 | succeeds exactly on an enabled request, having read exactly it and written nothing; each error exactly on its grounds; only a refusal writes, all of its reply if no write failed |
| Socks5.LogIn | crates/skadi-protocol/src/socks5.rs:135-147 | greeting and authentication succeed exactly as the parsers say when no write failed, take exactly their bytes, and are answered by what was listed and accepted |
| Socks5.NegotiateInner | crates/skadi-protocol/src/socks5.rs:131-150 | when no write failed, the whole negotiation accepts exactly the byte strings the parsers accept message by message, stops at the first byte after them, and has answered every message |
| Socks5.NegotiatesFreely | crates/skadi-protocol/src/socks5.rs:131-150 | without a password, a greeting and a request are accepted exactly when method 0 is listed and the command is served |
| Socks5.NegotiatesWithPassword | crates/skadi-protocol/src/socks5.rs:131-150 | with a password, exactly when method 2 is listed, the credential accepted and the command served |
| Socks5.DatagramReadsBack | crates/skadi-protocol/src/socks5/parse.rs:250-295 | an encoded datagram reads back with its payload behind it exactly when its name has 1 to 255 bytes |
| MuxFrame.MetaReadsBack | crates/skadi-protocol/src/vless/mux/frame.rs:73-151 | metadata reads back exactly when its optional parts are those its status carries |
| MuxFrame.MetaFits | crates/skadi-protocol/src/vless/mux/frame.rs:119-151 | encoded metadata takes at most 272 bytes, below the limit |
| MuxFrame.FrameReadsBack | crates/skadi-protocol/src/vless/mux/frame.rs:119-217 | a frame reads back from the front of any bytes, with its length |
| MuxFrame.DataFrameReadsBack | crates/skadi-protocol/src/vless/mux/frame.rs:154-163 | a data frame reads back, or is refused exactly when its payload is too large |
| MuxFrame.EndFrameReadsBack | crates/skadi-protocol/src/vless/mux/frame.rs:166-176 | an end frame reads back without payload |
| MuxFrame.NewFrameLayout | crates/skadi-protocol/src/vless/mux/frame.rs:119-163 | a `New` frame with data, byte by byte |
| MuxFrame.ShortMetaLayout | crates/skadi-protocol/src/vless/mux/frame.rs:119-151 | metadata without an address takes four bytes, for every status but `New` and the `Keep` of datagrams |
| MuxFrame.EndFrameLayout | crates/skadi-protocol/src/vless/mux/frame.rs:166-176 | an end frame byte by byte |
| MuxFrame.DataBit | crates/skadi-protocol/src/vless/mux/frame.rs:60-62 | a frame has data exactly when the lowest option bit is set |
| MuxFrame.LimitsExactly | crates/skadi-protocol/src/vless/mux/frame.rs:179-217 | metadata are refused exactly above 512 bytes and data exactly above 8192, with the size |
| MuxFrame.PrefixTooShort | crates/skadi-protocol/src/vless/mux/frame.rs:179-217 | every strict prefix of a frame is too short |
| MuxFrame.VerdictStands | crates/skadi-protocol/src/vless/mux/frame.rs:179-217 | later bytes change no verdict but "too short" |
| MuxFrame.FramesReadBack | crates/skadi-protocol/src/vless/mux/frame.rs:119-217 | any list of frames reads back from its encoding, in order |
| MuxFrame.ReadFrame | crates/skadi-transport/src/mux.rs:655-702 | the stream reader succeeds exactly when the parser does, on the same frame and byte count; fewer than two bytes are the end |
| MuxFrame.ReadChunk | crates/skadi-transport/src/mux.rs:682-696 | the payload reader takes exactly the chunk |
| MuxFrame.ReadFrames | crates/skadi-transport/src/mux.rs:127-167 | the reading loop yields exactly the frames the bytes hold |
| Mux.Relay.constructor | crates/skadi-transport/src/mux.rs:113-118 | a new relay has no sessions and has counted nothing |
| Mux.Relay.OpenSession | crates/skadi-transport/src/mux.rs:444-540 | a new session's connection, first payload, reader and count, or the failure |
| Mux.Relay.WriteTo | crates/skadi-transport/src/mux.rs:567-576 | one connection's log grows by the payload, or by what got out before the failure; no other changes |
| Mux.Relay.ForwardKeep | crates/skadi-transport/src/mux.rs:542-581 | payload goes to the session's connection; a missing session is answered with an end frame |
| Mux.Relay.HandleXudp | crates/skadi-transport/src/mux.rs:262-313 | an XUDP frame changes the cone and its datagrams only |
| Mux.Relay.Handle | crates/skadi-transport/src/mux.rs:192-256 | one event is a step of the relay machine, failures included |
| Mux.XudpIsApart | crates/skadi-transport/src/mux.rs:208-210 | XUDP frames leave sessions, readers and connections alone |
| Mux.StepKeepsOwned | crates/skadi-transport/src/mux.rs:465-486 | a step keeps every reader with its own session exactly when it neither takes over a session whose reader runs nor leaves an aborted reader behind |
| Mux.Demultiplexing | crates/skadi-transport/src/mux.rs:192-256 | in every run a session's connections hold exactly what its own frames and reader exits put there, whatever else happens |
| Mux.SessionStream | crates/skadi-transport/src/mux.rs:444-581 | in every live run, from the `New` that opens it until something ends or replaces the session or one of its readers exits, its connection was sent the `New` payload and then every later `Keep` payload, in order, and nothing else |
| Mux.SessionSurvives | crates/skadi-transport/src/mux.rs:465-486 | a session opened while no reader of it runs stays on its connection, with its whole stream, through everything but a `New`, an `End` or its own reader's exit |
| Mux.OldReaderEnds | crates/skadi-transport/src/mux.rs:477 | a reader still running when the session is opened again takes the new session away when it exits |
| Mux.SurvivesExactly | crates/skadi-transport/src/mux.rs:465-486 | every continuation keeps the session and its stream if and only if no reader of it was running when it was opened |
| Mux.TidyMeansNoReader | crates/skadi-transport/src/mux.rs:465-486 | in a run without take-overs and lingering readers, a `New` meets that condition exactly when it is not a take-over |
| Mux.OwnDemultiplexing | crates/skadi-transport/src/mux.rs:192-256 | in such a run no exit is stale, and a session is what its frames and its own connection's reader make of it |
| Mux.EndedStays | crates/skadi-transport/src/mux.rs:192-256 | in every run a session that is gone stays gone and its connections stay as they are until a `New` for it arrives, whatever late frames and reader exits come |
| Mux.TakeOverLosesData | crates/skadi-transport/src/mux.rs:470-486 | a run with a take-over in which both statements fail: the old reader's exit removes the new session and later data is refused |
| Mux.Conservation | crates/skadi-transport/src/mux.rs:161-162 | in every run the counter equals the bytes forwarded over all connections and XUDP, until the relay fails |
| Mux.FailsExactly | crates/skadi-transport/src/mux.rs:192-313 | the relay fails at an event exactly for the listed troubles of sessions and cone |
| Mux.EndsSentExactly | crates/skadi-transport/src/mux.rs:212-256 | an end frame is sent exactly to a `Keep` without session and to a `New` for an unknown network |
| Mux.OpensItsConnection | crates/skadi-transport/src/mux.rs:444-540 | a connection is opened for its frame's session and network and starts with its payload |
| Mux.ConnectionsStay | crates/skadi-transport/src/mux.rs:542-581 | no event takes anything back from a connection |
| Mux.ConeStream | crates/skadi-transport/src/mux.rs:262-313 | in every live run the cone was sent exactly the payloads meant for it, in order |
| Mux.ConeExactly | crates/skadi-transport/src/mux.rs:262-344 | what each event makes of the cone and its id |
| Xudp.Manager.AcquireInner | crates/skadi-transport/src/xudp.rs:69-100 | a known id gives its socket and stops its reader, an unknown one the bound socket; nothing else changes |
| Xudp.Manager.DetachInner | crates/skadi-transport/src/xudp.rs:102-114 | an active entry starts expiring and its reader stops; nothing else changes |
| Xudp.Manager.RegisterInner | crates/skadi-transport/src/xudp.rs:116-121 | an existing entry takes the handle; nothing is stopped |
| Xudp.Manager.CleanupExpired | crates/skadi-transport/src/xudp.rs:123-141 | exactly the expired entries go, and exactly their readers stop |
| Xudp.AlwaysSettled | crates/skadi-transport/src/xudp.rs:69-141 | between calls no entry is initializing, and exactly the expiring ones have a deadline |
| Xudp.RegistryShowsLife | crates/skadi-transport/src/xudp.rs:69-141 | in every run each entry shows the life of its id: absent, in use, or idle since a detach |
| Xudp.KeepsSocket | crates/skadi-transport/src/xudp.rs:69-141 | an id keeps entry and socket through any calls unless a cleanup came a full 60 s after the detach that began its idle time |
| Xudp.CallKeepsOne | crates/skadi-transport/src/xudp.rs:116-121 | a call keeps at most one running reader per id exactly when it does not register over a reader or without an entry |
| Xudp.FreeIsBare | crates/skadi-transport/src/xudp.rs:69-121 | an entry has no reader exactly when none was registered since its id was last acquired or detached from use |
| Xudp.AtMostOneReader | crates/skadi-transport/src/xudp.rs:69-141 | in every run every running reader is known to its id's entry all along if and only if each register finds its id present and free |
| Xudp.SingleExactly | crates/skadi-transport/src/xudp.rs:69-141 | in every run no id ever has two running readers if and only if each register finds its id absent or free and no earlier register of that id came while it was absent |
| Xudp.OncePerAcquireSuffices | crates/skadi-transport/src/xudp.rs:69-121 | one register per acquire is enough, whatever detaches and cleanups come between, as long as the id has not lapsed |
| Xudp.LapsedIdGetsTwo | crates/skadi-transport/src/xudp.rs:116-141 | one register per acquire, the first after its id lapsed, leaves two running readers |
| Xudp.ForgottenReaderRuns | crates/skadi-transport/src/xudp.rs:116-121 | a reader no entry knows is never stopped by any later calls |
| Xudp.OverwrittenReaderRuns | crates/skadi-transport/src/xudp.rs:116-121 | after two acquires and two registers the first reader runs on for ever |
| XudpCone.EndPassesConeBy | crates/skadi-transport/src/mux.rs:258-260 | an `End` parsed from any bytes is never taken for the cone's |
| XudpCone.ConeHasLastId | crates/skadi-transport/src/mux.rs:315-323 | a cone has the id that the last `New` with an id brought for it |
| XudpCone.StaysInUse | crates/skadi-transport/src/xudp.rs:102-141 | an id in use keeps its socket through any calls until somebody detaches it |
| XudpCone.OpenedIsUsed | crates/skadi-transport/src/mux.rs:325-344 | a cone opened for an id has that id, and the registry has it in use |
| XudpCone.ReaderGoesWithCone | crates/skadi-transport/src/mux.rs:349-378 | in every run, while the relay works, the cone's reader runs exactly as long as there is a cone |
| XudpCone.CallsExactly | crates/skadi-transport/src/mux.rs:262-378 | in every reachable state, the registry calls a frame makes: the first frame sent acquires its id and registers the reader, the end detaches, nothing else calls |
| XudpCone.ReleasedExactly | crates/skadi-transport/src/mux.rs:287-296 | at the cone's end, or the relay's, the id it was opened for becomes idle if and only if it is the id brought last; otherwise it stays in use |
| XudpCone.FailureKeepsId | crates/skadi-transport/src/mux.rs:126-159 | a relay that fails, times out or meets an unreadable frame never detaches its cone's id |
| XudpCone.FirstIdIsLeftBehind | crates/skadi-transport/src/mux.rs:319-321 | after two ids for one cone and the end of the relay, the first is in use whatever is called, until somebody detaches it |
| Relay.RelayCarries | crates/skadi-transport/src/relay.rs:72-89 | a transfer keeps its direction exact, or up to a prefix when it fails, shuts the other side down last and only at the end, and leaves the other direction alone |
| Relay.TakeTurn | crates/skadi-transport/src/relay.rs:63-109 | one turn of the loop is a step of the relay machine; what steps come to is in the laws below |
| Relay.Copy | crates/skadi-transport/src/relay.rs:42-111 | the loop ends in the state its schedule leads to |
| Relay.Conservation | crates/skadi-transport/src/relay.rs:58-111 | on every schedule each side is written exactly the bytes read from the other, counted, shut down at most once and last; success needs both ends; only the direction whose write or shutdown failed is cut to a prefix |
| Relay.ReadsAreTurns | crates/skadi-transport/src/relay.rs:72-89 | on every schedule what was read from a side, and whether it ended, is what the turns say |
| Relay.OutcomeExactly | crates/skadi-transport/src/relay.rs:58-111 | on every schedule each outcome exactly by the turns: a timer that fires, a failure, the end of both sides with the bytes read from each, or none of these and no outcome |
| Relay.TimeoutsAreEarned | crates/skadi-transport/src/relay.rs:64-70 | an idle timeout means nothing was relayed for the idle time, a lifetime timeout that the lifetime has passed; which turns bring them is in `Relay.OutcomeExactly` |
| Relay.LifetimeCanPass | crates/skadi-transport/src/relay.rs:63-89 | for every lifetime, a run in which a transfer lasts past it and the next turn still reads and relays |
| ConnectionGate.CounterIsExact | crates/skadi-server/src/connection_gate.rs:27-64 | in every interleaving the counter is the number of live permits, never above the limit, and never below zero at a drop |
| ConnectionGate.AttemptsReadTruly | crates/skadi-server/src/connection_gate.rs:31-46 | the value a thread decides on was the counter's value at a moment of its call |
| ConnectionGate.RefusalIsJustified | crates/skadi-server/src/connection_gate.rs:32-47 | a refusal means every slot was taken at a moment of the call |
| ConnectionGate.GrantIsJustified | crates/skadi-server/src/connection_gate.rs:33-43 | a grant means a slot was free at that moment, and takes exactly one |
| ConnectionGate.ExchangeExactly | crates/skadi-server/src/connection_gate.rs:33-45 | an exchange makes its permit exactly when it does not fail on its own and the counter still has the value that was read; otherwise the thread goes on with the new value |
| ConnectionGate.AloneIsGranted | crates/skadi-server/src/connection_gate.rs:31-46 | a thread nobody interferes with gets a permit while there is one |
| Checksum.FoldKeepsResidue | crates/skadi-client/src/pmtud.rs:261-263 | folding keeps the value modulo 65535 and only zero folds to zero |
| Checksum.Verifies | crates/skadi-client/src/pmtud.rs:251-265 | the checksum is zero exactly when the words add up to a positive multiple of 65535 |
| Checksum.StoredChecksumVerifies | crates/skadi-client/src/pmtud.rs:229-230 | storing the checksum into a zero field at an even place makes a message of any length verify |
| Checksum.AddWords | crates/skadi-client/src/pmtud.rs:252-260 | the 32-bit loop computes the exact sum for messages of up to 128 KiB, odd lengths included |
| Checksum.OddIsPadded | crates/skadi-client/src/pmtud.rs:258-260 | an odd message counts as if a zero byte followed |
| Checksum.InternetChecksum | crates/skadi-client/src/pmtud.rs:251-265 | the two loops compute the checksum for messages of up to 128 KiB |
| Checksum.WriteIpv4Header | crates/skadi-client/src/pmtud.rs:241-249 | a zeroed buffer gets the header and stays zero behind it |
| Checksum.BuildIcmp | crates/skadi-client/src/pmtud.rs:218-230 | the message is the headers and MTU with their checksum stored |
| Checksum.BuildFragNeeded | crates/skadi-client/src/pmtud.rs:211-239 | the packet is the header and message with the header checksum over the total length |
| Checksum.IcmpVerifies | crates/skadi-client/src/pmtud.rs:223-235 | every built message verifies |
| Checksum.MtuReadsBack | crates/skadi-client/src/pmtud.rs:187-208 | parsing the built packet gives its MTU exactly when that is at least 576 |
| Checksum.FragNeededExactly | crates/skadi-client/src/pmtud.rs:187-208 | an MTU is read off a packet exactly when the packet reports it behind a header of 20 to 60 bytes and it is at least 576 |
| Checksum.HeaderFields | crates/skadi-client/src/pmtud.rs:241-249 | the header by its fields |
| Checksum.PacketFields | crates/skadi-client/src/pmtud.rs:211-239 | the packet by its fields: addresses swapped, the MTU, and the headers of the datagram |
| Checksum.OuterHeaderNeverVerifies | crates/skadi-client/src/pmtud.rs:236-237 | the outer header of no built packet verifies |

## Left out

- TLS, REALITY, key exchange and certificates: foreign cryptography that a model cannot see into.
- AmneziaWG, Hysteria2 and TUIC management, TUN devices and routing: process and system plumbing.
- Configuration, command line, gRPC, metrics and logging: flat branch lists.
- hyper request handling and `ChannelWriter`: driven by a library; the latter sends a buffer again after a full channel, so it has no delivery property to prove.
- `relay_vless_udp_with_limits`: its frame read can be cancelled midway, so no framing invariant holds over its runs.
- DNS, sockets and handshake timeouts: network I/O, entering as parameters where a model needs them.
- The upstream-to-client direction of Mux and the XUDP reader task: they only frame what they read, with the encoders modelled here.
- `tokio::io::copy_bidirectional`, used when no limit is set: library code.
- AuthRateLimit.Limiter.RecordFailure: times are unbounded numbers, so an overflow of `Instant` arithmetic is not modelled.
- Addons.ReadVarintLoop: bits are added instead of or-ed; they never overlap, so the value is the same.
- PacketUp.Replay: a request for a session that was dropped is let through, although it would reach a new session; what is proved holds with or without such requests.
- PacketUp.PacketState.Push: sequence numbers are unbounded, so a wrap after 2^64 packets is not modelled.
- Xudp.AtMostOneReader: a reader counts as stopped from its abort on, although a task in the middle of a poll runs to its next wait.
- Mux.Relay.HandleXudp: whether a new cone gets its socket is a parameter here; `XudpCone.Possible` ties it to the registry.
- ConnectionGate.CounterIsExact: the gate without a limit, which counts nothing, is not modelled; memory ordering is sequential consistency.
- VlessHandler.HandshakeInner: users carry parsed ids; parsing the UUID text of the configuration is not modelled.
