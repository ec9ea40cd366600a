# Verified model of the Redis server and its tester

The repository holds a Redis server in Go (`redis-starter-go/app`) and the tester that drives it
(`redis-tester`). This project models the parts of both that carry state, loops or arithmetic, and proves
properties of them over all inputs, runs and interleavings.

`dafny verify dfyconfig.toml` checks everything.

## What is modelled

**RESP codec and connection.** `RespValue` and `RespEncoder` print values; `RespDecoder` is the tester's decoder
over a moving cursor. Its methods are proved against the recursive parse of `RespParsing`, and `RespGrammar`
proves that this parse recognises exactly the RESP2 grammar (sections "Simple strings", "Bulk strings" and
"Arrays" of the Redis serialization protocol specification), is stable under extension, and inverts printing;
`RespCompletion` that every incomplete input can still end.
`RespConnection` reads values from a stream that arrives in arbitrary pieces. `Frames` and `AofDecoder` join the
server's frame printer to the tester's reader of append-only files.

**SET shipped three ways.** `Lines` has the line reader, `strings.TrimSpace` (white space in UTF-8 included) and
`strings.ToUpper`. `ServerState` says what each handler does to the shared state, `Server` has the handlers
themselves as methods that update it in place. `ServerLog` has commands as lines, `Requests` proves what serving a
stream of SET, PING and REPLCONF requests comes to, in whatever case they are spelled, and `RequestLaws` and
`AnyBytes` what follows for such streams and for any bytes. `SetAgreement` proves that live map, replica and
replayed file agree, and when their expiry timers do; `FileReplay` and `TruncatedFile` say what replaying a file
comes to, whole or cut off. The test `reader.Buffered() > 0` is an arbitrary function of the cursor position that can
hold only while something is left to read.

**Replication offsets.** `Replication` has one FIFO channel each way per replica and steps for joining, SET, WAIT,
processing and ACK delivery. The master's side is the handlers' own state, so the downward channel is the byte
stream that `PropagateCommand` and WAIT write. A replica opens its link to the master at start-up, before a
password can be set, so its session counts as authenticated. `WaitCounts` says what WAIT's count means, and `AckStream`
ties the ACKs to the bytes both sides read and write.

**Sorted set.** `SortedSet` is the server's map with an ordered list beside it, `TesterSortedSet` the tester's
append-then-sort.

**Geocodes and the nine-box index.** `Words` gives 64-bit words a numeric value, `Morton` the bit ladders,
`Geocoding` cells and codes over exact reals, `TesterLocation` the tester's separate implementation, `NineBox` the
code ranges, `GeoSearch` the commands over the sorted set.

**Blocking list.** `LockableList` has the critical sections as methods over channels, `BlockingRuns` all runs of
them, with receipts and timeouts racing handoffs.

## Findings

- Round trip of simple strings and errors (`redis-tester/internal/resp/encoder/encode.go:44-54`): holds if and only if
  they contain no CRLF (`RespGrammar.RoundTrip`).
- A replica counts GETACK bytes (`redis-starter-go/app/handlers.go:868`) and the master does not, so WAIT's count drifts.
  While the drift is below the 25 bytes of the smallest SET, a counted replica has every SET; as soon as it is not, a
  replica can be counted that lacks one (`WaitCounts.CountedWithSmallDrift`, `WaitCounts.CountedTooEarly`). The drift is
  37 bytes for each GETACK before the recorded ACK, less the master's offset when the replica joined: a replica that
  joined late is not counted until drift makes up for that (`WaitCounts.WhatWaitCounts`,
  `WaitCounts.JoinerIsCountedWhen`, `WaitCounts.LateJoinerIsNotCounted`).
- A client that sends REPLCONF GETACK to a master makes it read an offset that is not there, and panic
  (`redis-starter-go/app/handlers.go:855-858`). A log of SETs, PINGs and REPLCONFs makes a server panic if and
  only if it is a master and there is a GETACK in it (`RequestLaws.CrashesExactlyOnGetAck`); authentication plays
  no part (`RequestLaws.GetAckCrashesMaster`).
- PX expiry is read after SET was propagated and logged (`redis-starter-go/app/handlers.go:97-128`), so it reaches neither
  replicas nor the file: they start no timer (`SetAgreement.ThreeWayAgreement`). The master starts one exactly when the
  option is buffered at the moment its handler looks for it (`Requests.SetReadsItsOption`), and so all three agree on
  timers if and only if no option was (`SetAgreement.TimersAgree`, `RequestLaws.PxInOnePiece`).
- A file cut inside its last SET still stores something as soon as the name of the command is there: the parser goes on
  with empty or shortened key and value (`redis-starter-go/app/utils.go:180-198`), where the tester's decoder reports an
  error (`TruncatedFile.ReplayTruncated`, `AofDecoder.TruncatedLog`).
- On the 180th meridian a code does not fit 53 bits (`redis-starter-go/app/handlers.go:1390-1392`), and in odd latitude
  cells GEOPOS reads the cell to the south (`Geocoding.GeoPosReadsWhatGeoAddStored`).
- `Get9BoxRanges` puts the longitude cell on the places where `Encode` puts latitude
  (`redis-starter-go/app/geocoding.go:79`, `redis-starter-go/app/geocoding.go:152`), so GEOSEARCH looks at a
  member at the very centre only if the two cells of the centre are at most one apart (`GeoSearch.CenterIsInWindow`); at
  90 degrees east on the equator it misses that member in every grid of depth 3 and more
  (`GeoSearch.MemberAtCenterIsMissed`).
- `GetGeoGridCenterCoordinates` (`redis-tester/internal/data_structures/location/coordinates.go:54-57`) panics on the
  upper edges of the valid range (`TesterLocation.CenterIsValid`).
- LPUSH does not serve waiters (`redis-starter-go/app/handlers.go:480-485`): elements and waiters can then stand side by
  side (`BlockingRuns.LPushBreaksQuiet`, `BlockingRuns.LPushPastWaiter`).
- A value handed to a client that has taken the timeout branch (`redis-starter-go/app/handlers.go:644-661`) stays in its
  channel (`BlockingRuns.BufferedValues`, `BlockingRuns.HandoffAfterTimeout`). This can happen to a waiting client
  if and only if it set a timeout (`BlockingRuns.StuckOnlyWithTimeout`).

## Model

| member | source | states |
|---|---|---|
| Numbers.AtoiItoa | redis-tester/internal/resp/decoder/decode_array.go:23-32 | Reading a printed length gives the length back, for every number a Go `int` holds |
| Numbers.AtoiIsDecimal | redis-tester/internal/resp/decoder/decode_integer.go:20-33 | Parsing accepts exactly the decimal numbers of 64 bits, with a sign or without and with any leading zeros, for what they denote; with its error it returns the nearest number of 64 bits or 0 |
| Numbers.AtoiFormatInt | redis-starter-go/app/handlers.go:859 | Parsing undoes printing for every integer of 64 bits, negative ones included |
| RespValue.MarksAreSpelled | redis-tester/internal/resp/decoder/decode.go:31-48 | Marks, digits and line ends are the characters of the protocol, and the bounds those of 64-bit integers |
| RespEncoder.Encode | redis-tester/internal/resp/encoder/encode.go:10-29 | Printing panics exactly on values with an integer anywhere inside, and otherwise gives the printed form |
| RespEncoder.EncodeArray | redis-tester/internal/resp/encoder/encode.go:56-64 | The element loop prints the header and then every element, or meets the panic |
| RespDecoder.Reader.ReadByte | redis-tester/internal/resp/decoder/decode.go:22-29 | One byte is consumed, or the end of input is reported without moving |
| RespDecoder.ReadUntilCRLF | redis-tester/internal/resp/decoder/utils.go:52-71 | The byte loop stops exactly at the first CRLF at or after the cursor, however many lone CRs come before, and leaves the cursor behind it |
| RespDecoder.ReadCRLF | redis-tester/internal/resp/decoder/utils.go:12-50 | A full CRLF, a cut-off one and a wrong byte are told apart |
| RespDecoder.DecodeSimpleString | redis-tester/internal/resp/decoder/decode_simple_string.go:10-20 | Cursor and result follow the reference parse of a simple string |
| RespDecoder.DecodeError | redis-tester/internal/resp/decoder/decode_error.go:10-20 | Cursor and result follow the reference parse of an error |
| RespDecoder.DecodeInteger | redis-tester/internal/resp/decoder/decode_integer.go:12-35 | Cursor and result follow the reference parse of an integer, with a bad number rejected |
| RespDecoder.DecodeBulkStringOrNil | redis-tester/internal/resp/decoder/decode_bulk_string_or_nil.go:12-69 | The length-driven byte loop reads exactly that many bytes and the CRLF after them; nil, negative lengths and short input each have their outcome |
| RespDecoder.DoDecodeValue | redis-tester/internal/resp/decoder/decode.go:22-50 | The dispatch on the first byte follows the reference parse and terminates on the bytes left |
| RespDecoder.DecodeArray | redis-tester/internal/resp/decoder/decode_array.go:12-59 | Nil arrays, bad lengths and element lists follow the reference parse |
| RespDecoder.DecodeItems | redis-tester/internal/resp/decoder/decode_array.go:48-58 | The loop that fills the elements reads the declared number of values or ends with the first failure, and terminates on the bytes left even when the declared length is huge |
| RespDecoder.Decode | redis-tester/internal/resp/decoder/decode.go:11-20 | The result and the byte count are those of the reference parse from position 0; the count is 0 on any error |
| RespGrammar.DecodesExactlyFrames | redis-tester/internal/resp/decoder/decode.go:11-50 | The decoder returns v and count k if and only if the first k bytes are a frame of v in the RESP2 grammar, for every type of value |
| RespGrammar.ParsedIsFrame | redis-tester/internal/resp/decoder/decode.go:22-50 | Soundness at every cursor position: what was decoded stands there as a frame |
| RespGrammar.FrameIsParsed | redis-tester/internal/resp/decoder/decode_array.go:23-58 | Completeness at every cursor position: every frame is decoded to its value |
| RespGrammar.DecodeStable | redis-tester/internal/resp/decoder/utils.go:8-71 | A value with its count, or a rejection, is unchanged by appending more bytes |
| RespGrammar.ProperPrefixIsIncomplete | redis-tester/internal/resp/decoder/decode.go:11-50 | Every proper prefix of a frame is incomplete, never a value or a rejection |
| RespCompletion.ValueCompletes | redis-tester/internal/resp/decoder/decode.go:22-50 | Every incomplete input, cut off anywhere and nested to any depth, can be continued to a value that ends with it or to a rejection |
| RespCompletion.OutcomeIsFinal | redis-tester/internal/resp/decoder/utils.go:8-71 | An outcome other than incomplete is exactly one that no continuation changes |
| RespGrammar.FramesArePrefixFree | redis-tester/internal/resp/decoder/decode.go:11-50 | If one frame begins another they are equal and of the same value |
| RespGrammar.BadIsRejected | redis-tester/internal/resp/decoder/decode.go:31-49 | Another mark, a line that is no number, a negative length other than -1, and content not followed by CRLF are rejected at once |
| RespGrammar.RejectedIsBad | redis-tester/internal/resp/decoder/decode.go:31-49 | Nothing else is rejected, except inside the elements of an array |
| RespGrammar.EncodingIsFrame | redis-tester/internal/resp/encoder/encode.go:10-73 | The printed form of a value of any nesting without CRLF in its simple strings is a frame of it |
| RespGrammar.RoundTrip | redis-tester/internal/resp/encoder/encode.go:44-73 | Decoding a printed value, whatever follows it, gives the value and its exact length if and only if no simple string or error in it contains CRLF |
| RespConnection.Connection.ReadIntoBuffer | redis-tester/internal/resp/connection/connection.go:186-198 | As many bytes move from the socket to the buffer as have come in, at most 1024, and never fewer unless the stream ends; the counters stay |
| RespConnection.ReadTakesWhatItCan | redis-tester/internal/resp/connection/connection.go:186-198 | The same of the read as a step: exactly the least of what is available, 1024 and what is still to come is taken |
| RespConnection.Connection.ReadIntoBufferUntil | redis-tester/internal/resp/connection/connection.go:234-251 | The loop over the polls reaches the state of the polling step |
| RespConnection.StopsAtFirst | redis-tester/internal/resp/connection/connection.go:234-251 | Polling ends with the first poll that shows a value or a rejection, or else with the last, and has read everything up to there |
| RespConnection.Connection.ReadValueWithTimeout | redis-tester/internal/resp/connection/connection.go:200-232 | A failed read keeps the buffer and all counters; a successful one removes exactly the decoded bytes and counts them |
| RespConnection.ReadOutcome | redis-tester/internal/resp/connection/connection.go:200-216 | A read that fails keeps all that was received and every count; one that succeeds takes exactly one frame off the front, of the value it returns, and counts its bytes |
| RespConnection.IsRespStreamCompleteOrInvalid | redis-tester/internal/resp/connection/connection.go:290-302 | True if and only if no further bytes, whatever they are, change the outcome |
| RespConnection.NextValue | redis-tester/internal/resp/connection/connection.go:203-216 | The buffer decodes to the next value exactly when its last byte has arrived, and is incomplete otherwise |
| RespConnection.ReadKeepsStep | redis-tester/internal/resp/connection/connection.go:200-232 | One call returns the next value exactly when it has arrived whole, and reports it incomplete, never invalid, otherwise |
| RespConnection.StreamedReads | redis-tester/internal/resp/connection/connection.go:186-251 | For every list of values, every chunking and every pattern of failed reads: the successful reads return a prefix in order, the received count is their total encoded size, the last count is that of the last of them, and the unread buffer is exactly what arrived after them |
| RespConnection.AllAreDelivered | redis-tester/internal/resp/connection/connection.go:200-216 | Once all bytes have arrived, n more calls have delivered n more values, in order, until all are delivered |
| RespConnection.EverythingIsDelivered | redis-tester/internal/resp/connection/connection.go:186-251 | With something available at the first poll of each call, enough calls deliver every value that was sent, in order, and nothing else |
| Frames.PrintFrame | redis-starter-go/app/utils.go:69-72 | The printing loop gives the command frame, for arbitrary byte arguments |
| Frames.OffsetByteSize | redis-starter-go/app/utils.go:84-92 | The computed size is the exact length of the printed frame |
| Frames.FrameIsEncoding | redis-starter-go/app/utils.go:135-138 | The server and the tester print the same command as the same bytes |
| ServerLog.GetAckSize | redis-starter-go/app/handlers.go:868 | The constant 37 is the length of the GETACK frame |
| AofDecoder.ArrayToStrings | redis-tester/internal/resp/decoder/decode_command_from_aof_file.go:42-61 | All elements are bulk strings and their contents are returned in order, or the command is refused |
| AofDecoder.DecodeCommandsFromAppendOnlyFile | redis-tester/internal/resp/decoder/decode_command_from_aof_file.go:12-40 | The loop returns the commands read so far together with the way the file ended |
| AofDecoder.FrameAt | redis-tester/internal/resp/decoder/decode_command_from_aof_file.go:16-36 | A printed frame at any position of a file is read as the command it was printed from |
| AofDecoder.TruncatedLog | redis-tester/internal/resp/decoder/decode_command_from_aof_file.go:16-39 | A log cut off anywhere yields exactly the commands written in full, and an error exactly when the cut fell inside one |
| AofDecoder.PrintThenDecode | redis-tester/internal/resp/decoder/decode_command_from_aof_file.go:12-61 | Printing any list of commands with arbitrary byte arguments and decoding the file gives the list back |
| AofDecoder.DecodesExactlyCommands | redis-tester/internal/resp/decoder/decode_command_from_aof_file.go:12-61 | A file is read to its end if and only if it is a row of frames of arrays of bulk strings, and the commands are what those hold |
| AofDecoder.OthersAreRefused | redis-tester/internal/resp/decoder/decode_command_from_aof_file.go:21-61 | After any commands, the frame of anything else ends the reading with those commands and a rejection |
| Lines.TrimmedLineIsTidy | redis-starter-go/app/handlers.go:73-86 | Every key and value that enters the store is free of newlines and of white space at its ends |
| Lines.TrimOfTidy | redis-starter-go/app/utils.go:183-184 | A tidy argument is unchanged by being printed on a line and read back |
| Lines.TrimTakesWhiteSpace | redis-starter-go/app/handlers.go:78 | Trimming takes characters of Unicode white space in UTF-8 away at both ends, nothing else, and leaves none there |
| Lines.ToUpperByByte | redis-starter-go/app/handlers.go:845 | Upper-casing moves the bytes 97 to 122 down by 32 and leaves all others |
| Lines.UpperCaseOf | redis-starter-go/app/server.go:167 | A text is upper-cased to a word if and only if it is that word in some mix of case |
| Lines.ReadAt | redis-starter-go/app/server.go:158 | Reading at the start of a line returns that line and leaves the cursor at the next |
| Server.Server.AddReplica | redis-starter-go/app/handlers.go:962-964 | A joining connection becomes the last replica with offset 0 and nothing else changes |
| Server.Server.PropagateCommand | redis-starter-go/app/utils.go:61-82 | Every replica gets the frame once and the offset grows by its length, or nothing happens without replicas |
| Server.Server.AppendToAof | redis-starter-go/app/utils.go:130-151 | The frame is appended to the file if there is one |
| Server.Server.HandleSet | redis-starter-go/app/handlers.go:64-130 | Over every cursor position, role and outcome of the buffering test, the new state, the bytes consumed and the reply are those of the specification, errors included |
| Server.Server.StoreAndShip | redis-starter-go/app/handlers.go:87-100 | Store, count the bytes on a replica, propagate and log on a master |
| Server.Server.ReadPx | redis-starter-go/app/handlers.go:104-129 | The option lines are eaten only if bytes are buffered, and only PX starts a timer |
| Server.Server.HandlePing | redis-starter-go/app/handlers.go:18-39 | A replica adds the size of the frame, a master nothing |
| Server.Server.HandleReplConf | redis-starter-go/app/handlers.go:838-895 | GETACK is answered with the offset before it and adds 37; on a master it panics; ACK is recorded for the first replica on the connection |
| Server.Server.RecordOffset | redis-starter-go/app/handlers.go:885-892 | Exactly the first replica record on the connection changes |
| Server.Server.AskReplicas | redis-starter-go/app/handlers.go:986-1005 | Every replica is sent GETACK and the master offset stays as it is, or the answer is known at once |
| Server.Server.CountAcked | redis-starter-go/app/handlers.go:1026-1033 | The loop counts the replicas whose recorded offset has reached the master offset |
| Server.Server.ServeCommands | redis-starter-go/app/server.go:152-257 | The loop over any bytes ends in the state, output and way of ending of the recursive specification |
| Server.Server.AofParser | redis-starter-go/app/utils.go:153-214 | Replaying any file gives the maps of the recursive specification |
| Server.ReadArguments | redis-starter-go/app/utils.go:180-185 | The pair loop returns the requested number of arguments, empty ones past the end of the file |
| ServerLog.LogIsLines | redis-starter-go/app/utils.go:69-72 | A log of frames is a text of lines |
| ServerLog.PassOver | redis-starter-go/app/server.go:167-169 | A line that names no command, where a command could stand, changes nothing |
| Requests.NamesAreSpelled | redis-starter-go/app/server.go:169-216 | Names of commands, subcommands and options, and the replies, are the texts of the source |
| Requests.SetReadsItsLines | redis-starter-go/app/handlers.go:72-112 | SET reads its own key and value, and the buffering test eats nothing or the first two lines of the next command, which are never PX |
| Requests.SetReadsItsOption | redis-starter-go/app/handlers.go:72-128 | With PX, in any case, the handler stops after the value; it reads on, and starts the timer of key and milliseconds, if and only if bytes are buffered at that cursor |
| Requests.ConfReadsItsLines | redis-starter-go/app/handlers.go:838-895 | REPLCONF reads its own two lines and does what the subcommand says that they spell in any case: a replica answers GETACK, a master panics on it, agrees to LISTENING-PORT and CAPA and records ACK; anything else does nothing |
| Requests.ServeRequestLog | redis-starter-go/app/server.go:152-180 | Serving a log of SETs with or without PX, PINGs and REPLCONFs, in any case, from any point between two of them does what they say one after the other, for every outcome of every buffering test |
| Requests.ServeLog | redis-starter-go/app/server.go:152-180 | Serving a log of SET and GETACK frames does what the commands say in order, or panics if a master is sent a GETACK, for every outcome of every buffering test |
| RequestLaws.CaseDoesNotMatter | redis-starter-go/app/server.go:167 | Two streams of the same requests with names, options and subcommands in different case are served alike |
| RequestLaws.AnySet | redis-starter-go/app/handlers.go:112-114 | A SET in any case, with PX in any case, is served as the one in upper case |
| RequestLaws.HandshakeIsAnswered | redis-starter-go/app/handlers.go:875-881 | A master answers +OK to REPLCONF listening-port and capa in any case, and nothing else happens |
| RequestLaws.PingIsAnswered | redis-starter-go/app/handlers.go:18-39 | PING is answered with PONG, or refused without authentication; a replica counts the bytes of the frame, a master nothing |
| RequestLaws.PongIsFrame | redis-starter-go/app/handlers.go:27 | The decoder reads the reply to PING as the simple string PONG |
| RequestLaws.ReplicaCounts | redis-starter-go/app/handlers.go:33-38 | A replica served any log of SETs, GETACKs and PINGs raises its offset by exactly the bytes of the log; a silent one answers each GETACK with the offset before it and writes nothing else |
| RequestLaws.CrashesExactlyOnGetAck | redis-starter-go/app/handlers.go:855-858 | A log of SETs, PINGs and REPLCONFs makes a server panic if and only if it is a master and a GETACK is in the log; otherwise it is served to its end |
| RequestLaws.GetAckCrashesMaster | redis-starter-go/app/handlers.go:855-858 | The frame of one GETACK makes a master panic, whoever sends it |
| AnyBytes.WhenServingEnds | redis-starter-go/app/server.go:152-180 | The handlers of PING, SET and REPLCONF never make a replica panic, whatever bytes come; bytes in which no line names another command are served to their end by a replica, and by a master if no line is GETACK; a stream that reaches another command is outside the statement |
| AnyBytes.PartialLineIsIgnored | redis-starter-go/app/server.go:158-166 | A last line without its end is not served |
| AnyBytes.ReplicaShipsNothing | redis-starter-go/app/handlers.go:97-100 | Whatever bytes a replica is served, it propagates and logs nothing |
| AnyBytes.UnauthedStoresNothing | redis-starter-go/app/handlers.go:65-71 | Whatever bytes a client sends that is not authenticated, nothing is stored, propagated, logged or timed |
| AnyBytes.SetNeedsFourLines | redis-starter-go/app/handlers.go:72-87 | SET stores and answers if and only if the client is authenticated and the two pairs of lines after its name are whole; otherwise the state stays, and a timer takes four lines more |
| RequestLaws.ServedTimers | redis-starter-go/app/handlers.go:114-128 | Serving a log starts exactly the timers of the options that were buffered when their handler looked for them |
| RequestLaws.PxInOnePiece | redis-starter-go/app/handlers.go:114-128 | A SET with PX that arrives in one piece has its option seen |
| FileReplay.ReplayPrefix | redis-starter-go/app/utils.go:163-212 | For every log of tidy commands cut anywhere, the parser applies the commands in full and then the one that was cut, with what is left of its arguments, if its count line is whole |
| FileReplay.ReplayLog | redis-starter-go/app/utils.go:163-212 | The file parser reads back every command of a log |
| FileReplay.ReplayAfterOther | redis-starter-go/app/utils.go:173-175 | Lines in front of a log that start no command are passed over |
| FileReplay.ReplayRequests | redis-starter-go/app/utils.go:187-210 | A file of requests in any case is replayed request by request: SET stores, with PX it starts its timer, and nothing else does anything |
| TruncatedFile.ReplayTruncated | redis-starter-go/app/utils.go:163-198 | A log of SETs cut inside a SET gives the map of the SETs before it if and only if fewer than 11 of its bytes are there or the entry made of its remaining parts was there already; otherwise that entry is stored, and it is the intended one if and only if every non-empty part was written to its end |
| SetAgreement.ReplicaOffset | redis-starter-go/app/handlers.go:89-95 | The replica offset grows by exactly the bytes it was sent, GETACK included |
| SetAgreement.MasterRun | redis-starter-go/app/handlers.go:64-113 | Every client stream that is served to its end amounts to a list of tidy SETs whose frames are what every replica stream and the file hold |
| SetAgreement.ThreeWayAgreement | redis-starter-go/app/handlers.go:72-113 | For every client stream that is served to its end and all buffering outcomes on both sides, the live map, the map a replica reaches on the propagated bytes and the map replayed from the file are equal; the replica counts exactly the bytes the master counted; neither replica nor file starts a timer |
| SetAgreement.TimersAgree | redis-starter-go/app/handlers.go:97-128 | For every list of SETs with or without PX, the timers of master, replica and file are the same if and only if no option was buffered when its handler looked for it |
| SetAgreement.LiveMap | redis-starter-go/app/handlers.go:72-87 | The live map after well-formed SETs holds the last trimmed value of each trimmed key |
| Replication.StepKeeps | redis-starter-go/app/handlers.go:855-1051 | Join, SET, WAIT, replica processing and ACK delivery each keep everything master and replicas know of each other |
| Replication.OffsetsAddUp | redis-starter-go/app/utils.go:61-92 | Over every run a replica offset plus the bytes in flight is the master offset less its value at join plus 37 per GETACK sent, and the recorded offset never exceeds the replica offset |
| Replication.ReplicaIsItsStream | redis-starter-go/app/server.go:152-180 | Over every run the replica state is what the command loop reaches on the processed part of the bytes pushed to it |
| Replication.ReplicaIsAnEarlierMaster | redis-starter-go/app/handlers.go:72-100 | Prefix consistency over every run: a replica that joined with the map of the master has a map that the master had after some prefix of the steps |
| AckStream.AcksAreRecorded | redis-starter-go/app/handlers.go:880-892 | A stream of any number of ACKs, served by the master, records the last offset in it |
| AckStream.OutputIsAnswers | redis-starter-go/app/handlers.go:857-866 | All that a replica writes while it handles its stream is the ACKs of its offsets at the GETACKs, in order |
| AckStream.AcksAreTheirBytes | redis-starter-go/app/handlers.go:855-892 | Over every run what a replica has written is a stream of ACKs, the last of them those in flight; a master served the bytes of the others is in the state the steps have reached |
| Replication.RecordedNeverDecreases | redis-starter-go/app/handlers.go:882-892 | No step of any run takes a recorded offset back |
| WaitCounts.WhatWaitCounts | redis-starter-go/app/handlers.go:1024-1044 | Over every run WAIT counts a replica if and only if the SET bytes it lacked at its recorded ACK are at most 37 per earlier GETACK less the master offset at join, which also bounds what it lacks now |
| WaitCounts.CountedWithSmallDrift | redis-starter-go/app/handlers.go:857-868 | While 37 per earlier GETACK less the master offset at join is below 25, the size of the smallest SET, a counted replica has applied every SET, and has the map of the master if it joined with the map the master had then |
| WaitCounts.CountedTooEarly | redis-starter-go/app/handlers.go:1028-1030 | In every reachable state, and for every number of GETACKs with which that drift is 25 or more, a node that joins can be counted although it lacks a SET and its map is not that of the master |
| WaitCounts.JoinerIsCountedWhen | redis-starter-go/app/handlers.go:1028-1030 | In every reachable state a replica that has just joined lacks nothing, and is counted if and only if the master has sent nothing yet |
| WaitCounts.LateJoinerIsNotCounted | redis-starter-go/app/handlers.go:1028-1030 | A run of three steps after which a replica lacks nothing and is not counted |
| SortedSet.Search | redis-starter-go/app/utils.go:112-118 | Binary search ends where the condition begins to hold, and at the least such index if the condition is monotone |
| SortedSet.InsertionPoint | redis-starter-go/app/utils.go:112-118 | The condition on score and name is monotone, so exactly the entries before the index found are smaller |
| SortedSet.SortedSet.Add | redis-starter-go/app/utils.go:94-128 | Binary search, shift and replace keep the list strictly increasing and equal to the map, and reach the state of the value-level step |
| SortedSet.SortedSet.InsertAt | redis-starter-go/app/utils.go:120-124 | Appending a slot, shifting and filling inserts at the index |
| SortedSet.SortedSet.RemoveFromOrder | redis-starter-go/app/utils.go:103-108 | The search loop takes out exactly the entry of the name |
| SortedSet.SortedSet.Remove | redis-starter-go/app/handlers.go:1318-1345 | Removal keeps list and map equal and reports whether the member was there |
| SortedSet.SortedSet.Rank | redis-starter-go/app/handlers.go:1114-1135 | The rank is the number of members smaller in (score, name) order |
| SortedSet.SortedSet.Range | redis-starter-go/app/handlers.go:1174-1202 | For all integer bounds the reply is the frame of the names between them: no index is out of range and the header states the number of names sent |
| SortedSet.RangeSelects | redis-starter-go/app/handlers.go:1175-1199 | Exactly the entries at the indices between the bounds are sent, in order; a negative bound counts from the end, and one before the first index is 0 |
| SortedSet.NegativeBounds | redis-starter-go/app/handlers.go:1175-1181 | A bound from -n to -1 means the same as n plus that bound, and one below -n the same as 0 |
| SortedSet.WholeRange | redis-starter-go/app/handlers.go:1175-1199 | From 0 to -1 is all names |
| SortedSet.RankIsRangeIndex | redis-starter-go/app/handlers.go:1125-1199 | Asking ZRANGE for the one index that is the rank of a member gives exactly that member |
| SortedSet.SortedSet.ReplyBetween | redis-starter-go/app/handlers.go:1175-1195 | Bounds computed from the size of the map are safe for the list |
| SortedSet.SortedSet.Size | redis-starter-go/app/handlers.go:1230-1231 | The cardinality of the map is the length of the list |
| SortedSet.RunIsConsistent | redis-starter-go/app/utils.go:94-128 | Over every run of additions and removals the list is strictly increasing and holds exactly the entries of the map |
| SortedSet.LexLessIsBytewise | redis-starter-go/app/utils.go:113-115 | One name comes before another if and only if it is a proper prefix of it or has the smaller byte where they first differ |
| SortedSet.OrderIsByScoreThenName | redis-starter-go/app/utils.go:112-118 | Over every run the list goes by ascending score, and among equal scores by ascending bytes of the names |
| SortedSet.OrderIsDetermined | redis-starter-go/app/utils.go:112-124 | A map has only one consistent list |
| SortedSet.HistoryDoesNotMatter | redis-starter-go/app/handlers.go:1330-1337 | Two histories with the same final map have the same list |
| TesterSortedSet.SortIsUnique | redis-tester/internal/data_structures/sorted_set/sorted_set.go:102-109 | Sorting by (score, name) leaves no choice, whatever the algorithm |
| TesterSortedSet.TesterSortedSet.AddMember | redis-tester/internal/data_structures/sorted_set/sorted_set.go:24-28 | Append then sort: ordered, with exactly the old members and the new one |
| TesterSortedSet.TesterSortedSet.RemoveMember | redis-tester/internal/data_structures/sorted_set/sorted_set.go:30-38 | The first member of the name is taken out |
| TesterSortedSet.AppendThenSort | redis-tester/internal/data_structures/sorted_set/sorted_set.go:24-28 | However the members of a map are listed, appending and sorting gives the list of the server |
| TesterSortedSet.AddAgrees | redis-tester/internal/data_structures/sorted_set/sorted_set.go:24-28 | After adding the same member to both, tester and server agree if and only if the name was new |
| TesterSortedSet.HistoriesAgree | redis-tester/internal/data_structures/sorted_set/sorted_set.go:24-38 | Every history of new names and removals leaves tester and server with the same list |
| Morton.LaddersAreBitByBit | redis-starter-go/app/geocoding.go:29-47 | The shift-and-mask ladders are the bit-by-bit spread and compact on all words |
| Morton.EvenOfInterleave | redis-starter-go/app/geocoding.go:49-54 | Compacting the even places gives x back for all 32-bit inputs |
| Morton.OddOfInterleave | redis-starter-go/app/geocoding.go:49-54 | Compacting the odd places gives y back for all 32-bit inputs |
| Morton.InterleaveIsBijective | redis-starter-go/app/geocoding.go:49-54 | A 64-bit code is the interleaving of exactly one pair |
| Morton.PartsOfShift | redis-starter-go/app/geocoding.go:146-155 | Dropping 2s bits of a code drops s bits of both coordinates |
| Words.ValueOrder | redis-starter-go/app/handlers.go:1605-1612 | Words compare as the numbers they denote |
| Geocoding.PartsOfEncode | redis-starter-go/app/geocoding.go:70-80 | The even coordinate is the latitude cell, the odd one the longitude cell |
| Geocoding.CellsInDegrees | redis-starter-go/app/geocoding.go:12-17 | The cell of a position is the one whose edges in degrees enclose it, on a grid of 2^26 cells each way between 85.05112878 degrees south and north and 180 degrees west and east |
| Geocoding.DecodeIsClose | redis-starter-go/app/geocoding.go:56-92 | Decoding the code of a valid position is off by at most half a cell in each direction |
| Geocoding.EncodeOfDecode | redis-starter-go/app/geocoding.go:70-92 | Encoding the decoded position gives the code back, for every code below 2^52 |
| Geocoding.CodeSize | redis-starter-go/app/handlers.go:1390 | A valid position has a code below 2^54, and below 2^53 if and only if it is not on the 180th meridian |
| Geocoding.NearestIsNearest | redis-starter-go/app/handlers.go:1392 | The stored score is the representable number closest to the code, the even significand winning a tie (section 3.6 and the default rounding of IEEE 754-2008) |
| Geocoding.GeoPosReadsWhatGeoAddStored | redis-starter-go/app/handlers.go:1390-1451 | Storing the code as a float64 and decoding it gives the cell GEOADD computed if and only if the longitude is below 180 or the latitude cell is even; otherwise it gives the cell one to the south |
| GeoSearch.HandleGeoAdd | redis-starter-go/app/handlers.go:1380-1392 | Out-of-range coordinates are refused without change; valid ones store their code |
| GeoSearch.Position | redis-starter-go/app/handlers.go:1444-1451 | Every member whose score Go can convert is answered with the centre of the cell whose numbers the score interleaves; one added at a valid position, with the centre of the cell of that position if and only if it is not on the 180th meridian in an odd latitude cell |
| GeoSearch.PositionAfterAdd | redis-starter-go/app/handlers.go:1390-1451 | The score that GEOADD leaves in the set decodes to the cell it computed, exactly under the same condition |
| TesterLocation.GetGeoCode | redis-tester/internal/data_structures/location/coordinates.go:61-86 | The tester computes the code of the server, on every pair both define |
| TesterLocation.DecodeGeoCode | redis-tester/internal/data_structures/location/coordinates.go:121-161 | The tester decodes to the position of the server, and panics exactly when that is out of range |
| TesterLocation.CenterIsValid | redis-tester/internal/data_structures/location/coordinates.go:54-57 | Taking a valid position to its cell centre panics exactly on the two upper edges |
| NineBox.InBox | redis-starter-go/app/geocoding.go:152-157 | A code lies in the range of a box if and only if its coordinates, shifted, are those of the box; the range is below 2^52 |
| NineBox.Depth | redis-starter-go/app/geocoding.go:111-132 | The depth loop ends on the finest grid whose cells are large enough, or on the coarsest when none is |
| NineBox.Get9BoxRanges | redis-starter-go/app/geocoding.go:110-161 | For every centre, depth loop and neighbour loops give the ranges of the boxes around its cell |
| NineBox.GridCells | redis-starter-go/app/geocoding.go:134-141 | The column of the centre is that of its longitude and the row that of its latitude, rounded down to the grid |
| NineBox.BoxesAround | redis-starter-go/app/geocoding.go:143-158 | The two loops emit the boxes inside the grid in order |
| NineBox.RangesCoverWindow | redis-starter-go/app/geocoding.go:136-158 | The ranges together hold exactly the codes whose coordinates are within one cell of the centre and inside the grid |
| NineBox.RangesAreDisjoint | redis-starter-go/app/geocoding.go:136-158 | There are at most nine ranges, all below 2^52, and no code is in two |
| NineBox.DepthOneSeesAll | redis-starter-go/app/geocoding.go:120-138 | On the coarsest grid every 52-bit code is in the window |
| GeoSearch.ScanRange | redis-starter-go/app/handlers.go:1604-1623 | Whatever the scores, only near members are added; if all scores are codes, exactly the near ones whose codes lie in the range |
| GeoSearch.HandleGeoSearch | redis-starter-go/app/handlers.go:1597-1623 | For every centre and all scores only members of the linear scan are reported; if all scores are codes, exactly those whose codes lie in some range |
| GeoSearch.Reply | redis-starter-go/app/handlers.go:1625-1633 | Every match is listed once, in any order |
| GeoSearch.SearchFindsWindow | redis-starter-go/app/handlers.go:1597-1623 | A member is reported if and only if the linear scan reports it and it is in the window |
| GeoSearch.SearchIsLinearScanWhen | redis-starter-go/app/handlers.go:1586-1623 | Indexed search and linear scan agree if and only if every near member is in the window |
| GeoSearch.CoarseSearchIsLinearScan | redis-starter-go/app/handlers.go:1586-1623 | On the coarsest grid, with cells below 2^26, they agree outright |
| GeoSearch.CenterIsInWindow | redis-starter-go/app/geocoding.go:149-152 | A member at the centre itself is looked at if and only if the latitude and longitude cells of the centre are inside the grid and at most one apart |
| GeoSearch.MemberAtCenterIsMissed | redis-starter-go/app/geocoding.go:149-152 | At 90 degrees east on the equator a member stored at the centre is reported if and only if it counts as near and the depth is at most 2 |
| LockableList.LockableList.RPush | redis-starter-go/app/handlers.go:350-367 | Values go to the waiters in order, one each, and the rest are appended; the reply counts all of them |
| LockableList.LockableList.LPush | redis-starter-go/app/handlers.go:480-485 | Values are put in front one by one and no waiter is served |
| LockableList.PushLeftReverses | redis-starter-go/app/handlers.go:482-484 | After LPUSH the values stand in reverse order in front of the old elements, which are unchanged |
| LockableList.LockableList.LPop | redis-starter-go/app/handlers.go:574-581 | The popped values and the rest are the old list, the values as many as asked for; a count out of range panics and changes nothing |
| LockableList.LockableList.TakeOrWait | redis-starter-go/app/handlers.go:625-636 | Takes the front value, or queues a fresh empty channel |
| LockableList.LockableList.Leave | redis-starter-go/app/handlers.go:650-660 | A timed-out client leaves the queue if it is still there |
| LockableList.SendBLPopSuccess | redis-starter-go/app/utils.go:24-30 | The reply is the frame of key and value |
| BlockingRuns.ServedInArrivalOrder | redis-starter-go/app/handlers.go:354-362 | Over every run waiters are served in the order in which they blocked, and before all that still wait |
| BlockingRuns.SendsNeverBlock | redis-starter-go/app/handlers.go:354-365 | Over every run each channel is sent to at most once and is free while its client is queued |
| BlockingRuns.BufferedValues | redis-starter-go/app/handlers.go:634-661 | A value in a channel is received next unless the client has taken the timeout branch; then it stays there in every continuation |
| BlockingRuns.StuckOnlyWithTimeout | redis-starter-go/app/handlers.go:638-661 | In every reachable state, a continuation in which the value of a waiting client gets stuck exists if and only if the client set a timeout |
| BlockingRuns.HandoffAfterTimeout | redis-starter-go/app/handlers.go:644-661 | A run of three steps that leaves a value stuck |
| BlockingRuns.RefinesFifo | redis-starter-go/app/handlers.go:350-367 | Over every run without LPUSH stored elements mean no waiters, and the values pushed are those handed out followed by those stored |
| BlockingRuns.LPushBreaksQuiet | redis-starter-go/app/handlers.go:482-484 | LPUSH keeps stored elements and waiters apart if and only if it pushes nothing or nobody waits |
| BlockingRuns.LPushPastWaiter | redis-starter-go/app/handlers.go:480-485 | A run of two steps after which an element is stored and a client still waits |
| BlockingRuns.NothingIsLost | redis-starter-go/app/handlers.go:354-365 | Over every run, LPUSH and timeouts included, the values pushed are those stored, in channels or delivered |
| BlockingRuns.OnlyLPopPanics | redis-starter-go/app/handlers.go:574-581 | The only step that panics is an LPOP of a negative number or of more than there is, and it changes nothing |

## Left out

- Sockets, files, flags, the manifest, logging, tickers and real time: reads get what has arrived as a parameter, a timeout is a step that may happen, writes succeed.
- The firing of PX expiry timers: the timers started are recorded, their deletions are not part of the maps compared.
- Several clients at once for SET: storing, propagating and appending are not one atomic step, so agreement is stated for one client connection at a time.
- Client writes made directly on a replica.
- A second PSYNC on one connection: each replica record has its own pushed stream.
- Reading the arguments of RPUSH, LPUSH, LPOP, GEOADD, GEOSEARCH and the sorted-set commands, and the replies for keys that do not exist: these start from parsed arguments and an existing key.
- Lock release on the early returns of ZRANK, ZRANGE and ZSCORE: sorted-set commands are atomic.
- Lines.ToUpper: folds ASCII letters only; Unicode letters whose upper case is ASCII (U+017F, U+0131) are not folded.
- RespDecoder.DecodeItems: does not model running out of memory when a huge array length is declared.
- The text and position of decoder error messages: only value, incomplete and invalid are told apart.
- RespConnection.Connection.ReadValueWithTimeout: callbacks and the interceptor are not modelled.
- Infinite and NaN scores, and the rounding of decimal scores: a score is an exact real.
- GeoSearch.HandleGeoSearch: where Go leaves the conversion of a score to `uint64` to the machine, the order of codes is unknown, so beyond soundness the exact answer is stated only for scores in the defined range.
- `GeoDistance` and the cell-size test of `Get9BoxRanges`: arbitrary predicates; no claim is made about metres.
- Floating-point rounding of degrees: coordinates are exact reals; only the rounding of codes to float64 is modelled.
- TesterSortedSet.TesterSortedSet.Sort: stands for `sort.Slice` by an insertion sort; the result does not depend on the algorithm.
- Server.Server.ServeCommands: does not model the handlers of the other 25 commands inside the loop; a stream that reaches the name of one of them in command position ends as outside the model.
- LRANGE, LLEN, GEODIST, ECHO, GET, CONFIG, INFO, KEYS, ACL, AUTH and RDB loading: single lookups or calls into code outside the repository.
- The replica's side of the handshake before its offset is set to 0, and the RDB payload.
- The tester's harness, assertions, stages and fixtures.
