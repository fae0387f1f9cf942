# pgwire: a verified model of the server side of the PostgreSQL wire protocol

The project models the `pgwire` library and its DuckDB query handler: the
session of one client, from the bytes it sends to the bytes it receives.

| file | what it holds |
|---|---|
| `Bytes.dfy`, `Buffer.dfy` | big-endian numerics, NUL-terminated strings, the buffer with its cursor |
| `Decimal.dfy`, `LogText.dfy` | decimal rendering of integers; the quoted and escaped query text of the log |
| `Messages.dfy`, `Decoding.dfy` | backend messages, their encoding, a client's decoder, and the proof that the two undo each other on whole streams |
| `Encoders.dfy` | the encoders that append to a buffer |
| `Writer.dfy`, `WriterScript.dfy` | the row writer and its rows; any interleaving of opening, writing and closing rows |
| `Startup.dfy` | the messages of the start-up phase and the one-pass scanner of their parameters |
| `Sockets.dfy` | chunked input and partial writes |
| `Protocol.dfy` | the session as a sequential function of the bytes received |
| `Session.dfy` | the session object, proved to compute that function |
| `Steps.dfy`, `Interleavings.dfy` | the session as a system of read and write completions, and its safety over every run |
| `ClientView.dfy` | a client that only counts the answers it decodes |
| `Queries.dfy` | a client's queries, one after another |
| `Pipelining.dfy` | clients that do not wait: exactly which inputs, and which servers, are safe |
| `Liveness.dfy` | every schedule of reads and writes comes to rest, and what has been sent then |
| `Completeness.dfy` | exactly which inputs are answered in full in every run |
| `Merges.dfy` | what every run keeps, whatever the client does |
| `Transcripts.dfy`, `Accounts.dfy` | the grammar of the reply stream, its accounts, and the input that changes nothing |
| `Adapter.dfy` | the DuckDB handler: field list and rows through one type map |

The main results, each for every server, input or run:

- *Interleavings.* The error path starts the next read before its two writes
  are done. Still, while the client completes a request only when it has
  received all earlier replies, the bytes sent are a prefix of the sequential
  reply (`PrefixOfSequential`). Terminate and unregistered frames may be sent at
  any time. It is enough that the client counts decoded answers against its
  requests (`CountingClientSees`).
- *Progress.* From wherever such a run stands, in every order in which reads and
  writes complete, the server takes a bounded number of steps and can go on
  while anything is left to do. At rest it has sent the whole reply, or the
  session was closed on an error reply and at most that reply is missing
  (`EveryScheduleAnswers`).
- *Completeness.* That error replies can be lost when the session is closed is
  how the code is: a Terminate that is read beside the two writes ends the
  session under them. An input is answered in full in every run exactly when the
  session is not closed or its last answered event is not a refused query
  (`AlwaysAnsweredIff`); queries followed by Terminate, exactly when the last
  one answered was not refused (`VisitAnsweredIff`). `ReplyCanBeLost` gives a
  server and an input.
- *Without that discipline* the prefix claim is false. It holds of an input
  exactly when nothing in it is answered after a refused query
  (`InputSafeIff`); of a list of queries sent at once, exactly when no query that
  the handler refuses comes before one that it answers
  (`QueriesAtOnceSafeIff`); of a server with every client, exactly when it never
  answers after an error reply (`PipeliningSafeIff`). `PipeliningCanFail` gives a
  server and an input where it fails. Answers in full in every run take both
  conditions (`AlwaysAnsweredAtWillIff`).
- *Whatever the client does*, the bytes sent are a merge of the replies: no byte
  of a reply is repeated, made up or out of its order, and none is missing at
  rest in a session that is not closed (`EveryRunMerges`). Every prefix of the
  sequential reply is what some run has sent (`EveryPrefixSeen`).
- *Unanswered queries.* An execution failure leaves the client waiting
  (`ExecFailureWaits`): RowDescription arrives and then nothing. The answers
  decoded are the requests made exactly when no query fails in its execution or
  with a Fatal error (`AllAnsweredIff`).
- *Grammar.* Every sequential run decodes, uniquely and with nothing left over,
  to one refusal byte per SSL request, the start-up block, and replies that are
  an error, a complete result set or a bare RowDescription; every result set
  announces exactly its number of rows and every row has the arity of its
  header (`BytesDecodeToTranscript`). What each reply holds is told by the outcome
  of its query (`ClientReadsReplies`), and the start-up block by the five settings
  (`StartupDecoded`).
- *Results.* Over any database whose answers fit the wire, the reply to a start-up and any queries decodes
  to the start-up block and, in order, what belongs to each answer of the
  database: an error, or a header alone, or a header, one row per result row and
  their count, with every value under the name and type of its column
  (`ClientReadsSession`).
- *Log.* Quoting and then escaping the query text loses nothing
  (`LogRecoverable`). Escaping alone does, for exactly the texts that hold a
  control, or a backslash before a letter that stands for one (`CollidesIff`).
- *Framing.* Wherever the input is cut, the reader delivers the same messages
  (`FeedIsExec`, `Session.Run`).

A handler is any function of the query text and of the texts of all queries
before it in the session, so it stands for a database that remembers. An
execution failure is kept as the code has it, although section 53.2.2 of the
PostgreSQL 14 documentation ends every simple query with ReadyForQuery.
`server_status` is iterated in any order. The client's side, what it writes and
how it reads, has the numbers of the protocol written out and shares no constant
or table with the server's. Lengths and counts are truncated as the
casts of the source truncate them; the conditions under which they are not
(`Fits`, `WellBehaved`) appear only where something is decoded.

## Model

| member | source | states |
|---|---|---|
| `Bytes.BigEndianDigit` | include/pgwire/buffer.hpp:52-61 | a numeric is put most significant byte first: which base-256 digit stands at which position |
| `Bytes.SignedNum` | include/pgwire/buffer.hpp:46-61 | getting what was put returns the value, on the whole two's complement range of every width |
| `Bytes.UnsignedNum` | include/pgwire/buffer.hpp:46-61 | the same for unsigned types |
| `Bytes.NumTruncates` | include/pgwire/buffer.hpp:52-61 | a value of another width is truncated to its low-order bytes |
| `Bytes.NumSigned` | include/pgwire/buffer.hpp:46-61 | putting what was got returns the bytes: the encoding is onto |
| `Buffers.Buffer.GetNumeric` | include/pgwire/buffer.hpp:46-50 | reads the value of the next w bytes and moves the cursor over exactly those |
| `Buffers.Buffer.GetString` | src/pgwire/buffer.cpp:39-49 | reads up to the first NUL and moves past it; without a NUL the result is empty and everything is consumed |
| `Buffers.Buffer.PutNumeric` | include/pgwire/buffer.hpp:52-61 | appends the network-order bytes and nothing else |
| `Buffers.Buffer.PutString` | src/pgwire/buffer.cpp:67-80 | appends the text, with the terminator unless it is turned off |
| `Buffers.Buffer.Size` | src/pgwire/buffer.cpp:32-37 | is the number of unread bytes, also when the cursor is past the end |
| `Buffers.Buffer.TakeBytes` | src/pgwire/buffer.cpp:8-11 | hands over all bytes and leaves the buffer empty |
| `Buffers.CStringOfText` | src/pgwire/buffer.cpp:39-49 | a NUL-free text is recovered from its terminated form whatever follows it |
| `Buffers.PutAll` | src/pgwire/buffer.cpp:51-80 | a script of puts appends the concatenation of its items |
| `Buffers.GetAll` | src/pgwire/buffer.cpp:30-49 | the matching script of gets recovers every item and leaves nothing unread |
| `Buffers.PutThenGet` | src/pgwire/buffer.cpp:30-79 | any script of typed integer and NUL-free string puts is undone by the matching gets, ending with size 0 |
| `Decimal.ParsePrint` | src/pgwire/writer.cpp:16-22 | the decimal text of any integer is read back by a reader of ASCII digits and sign |
| `Decimal.PrintOnly` | src/pgwire/writer.cpp:16-22 | it is the only text without leading zeros that reads as the number |
| `Decimal.PrintLength` | src/pgwire/writer.cpp:16-22 | at most 6, 11 and 20 characters for int2, int4 and int8, and 20 for an unsigned row count |
| `Decimal.PrintLengthTight` | src/pgwire/writer.cpp:16-22 | the three bounds are reached by the minimum of each type |
| `Messages.SeverityTextInjective` | src/pgwire/types.cpp:337-346 | severities are told apart by their texts |
| `Messages.SqlStateCodeInjective` | src/pgwire/types.cpp:312-335 | the nine SQLSTATE codes are pairwise different |
| `Encoders.EncodeRowDescription` | src/pgwire/protocol.cpp:70-81 | the loop appends exactly the specified body: the count, then the seven attributes of each field in order |
| `Encoders.EncodeErrorResponse` | src/pgwire/protocol.cpp:98-103 | appends the three coded fields and the final zero byte |
| `Encoders.EncodeBody` | src/pgwire/protocol.cpp:29-103 | every backend message appends its specified body |
| `Encoders.EncodeFrame` | src/pgwire/protocol.cpp:8-15 | tag, a length that counts itself and the body, body |
| `Encoders.EncodeBytes` | include/pgwire/protocol.hpp:71-75 | the bytes of one message on a fresh buffer |
| `Encoders.OidSize` | src/pgwire/types.cpp:5-310 | every announced type size fits the int16 it is sent in |
| `Encoders.DescribeAllInjective` | src/pgwire/protocol.cpp:70-81 | different field lists are described differently |
| `Encoders.DescribeFits` | src/pgwire/protocol.cpp:70-81 | a description of a field with a NUL-free name fits the wire |
| `Decoding.TakeColumnsOf` | src/pgwire/protocol.cpp:70-81 | the field list of a RowDescription parses back to its columns, for any number of fields |
| `Decoding.TakeCellsOf` | src/pgwire/writer.cpp:42-58 | the cells of a DataRow parse back to the values and nulls written |
| `Decoding.TakeErrorFieldsOf` | src/pgwire/protocol.cpp:98-103 | the field list of an ErrorResponse ends at the first zero code and holds the three fields |
| `Decoding.ReadErrorOf` | src/pgwire/protocol.cpp:98-103 | a client that knows the documented severities and SQLSTATE codes recovers severity, state and message from those fields |
| `Decoding.ReadBodyOf` | src/pgwire/protocol.cpp:25-103 | every message body parses back to its message |
| `Decoding.DecodeOneOf` | src/pgwire/protocol.cpp:8-23 | a message is read off the front of any stream, leaving exactly what follows |
| `Decoding.DecodeOneOfPart` | src/pgwire/protocol.cpp:8-23 | no message is recognised before its last byte |
| `Decoding.DecodeAllOf` | src/pgwire/protocol.cpp:8-23 | frame boundaries do not depend on payloads, and what follows a stream decodes as if alone |
| `Decoding.StreamRoundTrip` | src/pgwire/protocol.cpp:8-103 | decoding the encodings of any list of messages, data rows included, returns that list with nothing left over |
| `Decoding.EncodeAllInjective` | src/pgwire/protocol.cpp:8-103 | different lists of messages have different bytes |
| `Decoding.DecodeCut` | src/pgwire/protocol.cpp:8-103 | any cut of a stream decodes to the messages wholly before it and the beginning of the next |
| `Startup.StartupMessage.Decode` | src/pgwire/protocol.cpp:110-149 | the decoded message is what the simple reading of the payload gives |
| `Startup.StartupMessage.ScanParams` | src/pgwire/protocol.cpp:119-148 | the one-pass scan with start and pending key equals splitting at NULs and pairing the segments |
| `Startup.LastValueWins` | src/pgwire/protocol.cpp:137-146 | pairing assigns to user, database and options the last value given for each |
| `Startup.ReadRequestOfPairs` | src/pgwire/protocol.cpp:110-149 | decoding inverts encoding any NUL-free pairs: user, database and options have their last values; a final zero byte, an odd segment or an unterminated tail changes nothing |
| `Startup.ReadSslRequest` | src/pgwire/protocol.cpp:110-117 | a payload is an SSL request exactly when it begins with the bytes 4, 210, 22, 47 |
| `Writers.Writer.AddRow` | src/pgwire/writer.cpp:33-37 | a new open row, counted at once; the bytes do not change |
| `Writers.RowWriter.WriteValue` | src/pgwire/writer.cpp:49-53 | the row gains exactly that cell; the representation invariant is kept |
| `Writers.RowWriter.WriteNull` | src/pgwire/writer.cpp:55-58 | the row gains a null |
| `Writers.RowWriter.WriteBool` | src/pgwire/writer.cpp:68-84 | the row gains one cell, in the format of the writer, on both paths |
| `Writers.RowWriter.WriteInt` | src/pgwire/writer.cpp:86-97 | the row gains one cell with the rendered integer, whose text always fits the scratch buffer |
| `Writers.RowWriter.WriteFloat` | src/pgwire/writer.cpp:98-105 | the row gains one cell with the given rendering, if its text fits the scratch buffer |
| `Writers.RowWriter.Close` | src/pgwire/writer.cpp:42-47 | the writer gains one DataRow frame with this row's cells, after all earlier ones |
| `Writers.Writer.Encode` | src/pgwire/writer.cpp:26-28 | appends the frames of all closed rows in closing order |
| `Writers.IntCellRoundTrip` | src/pgwire/writer.cpp:7-24 | a client takes an integer cell off a row and parses the number back, in both formats, on the whole signed range |
| `Writers.RenderDistinguishes` | src/pgwire/writer.cpp:55-105 | null is no string; a truth value is the letter t or f, or the byte 1 or 0; strings and floating-point renderings are sent as they are |
| `WriterScripts.Run` | src/pgwire/writer.cpp:26-84 | for any interleaving of open, write and close the bytes decode to one DataRow per closed row, in closing order, with exactly the cells written; the count is the rows opened |
| `WriterScripts.OpenAndClosed` | src/pgwire/writer.cpp:33-47 | num_rows is closed plus open rows |
| `Sockets.Socket.ReadExact` | include/pgwire/io.hpp:71-81 | delivers exactly n bytes however they arrive, or nothing when the input stops short |
| `Sockets.Socket.AsyncWrite` | include/pgwire/io.hpp:46-69 | the buffer is sent once and in order; resolves to its size unless the attempt that took the last byte failed |
| `Sockets.SettlesIffTaken` | include/pgwire/io.hpp:46-69 | the recursion settles after the first attempt that leaves nothing |
| `Sockets.WriteSettlesIff` | include/pgwire/io.hpp:46-69 | a write of bytes settles exactly when the stream at some point has taken them all |
| `Sockets.ProgressSettles` | include/pgwire/io.hpp:46-69 | one byte per attempt is enough progress |
| `LogText.StringEscapeSpace` | src/pgwire/utils.cpp:49-80 | the loop computes the byte-by-byte escaping |
| `LogText.LogRecoverable` | src/pgwire/session.cpp:92-94 | every query can be read back from the log, whatever follows it: its quotes are bytes 34 and the closing one is found |
| `LogText.PlainLogged` | src/pgwire/session.cpp:92-94 | a query without quotes, backslashes and controls is logged as it is |
| `LogText.LoggedIsPlain` | src/pgwire/session.cpp:92-97 | the logged text holds none of the five controls and no NUL |
| `LogText.CollidesIff` | src/pgwire/utils.cpp:49-80 | escaping alone: a text comes out like some other text exactly when it holds a control, or a backslash in front of a letter that stands for one |
| `LogText.EscapeSpaceAmbiguous` | src/pgwire/utils.cpp:49-80 | the input: a newline, and a backslash followed by n, come out alike |
| `LogText.UnescapeSpaceIff` | src/pgwire/utils.cpp:49-80 | undoing the escapes recovers a text exactly when it has no backslash in front of such a letter |
| `LogText.EscapeUnescaped` | src/pgwire/utils.cpp:49-80 | escaping what was read back from a text without controls gives that text: the escaping reaches all of them |
| `Protocol.ExecSplit` | src/pgwire/session.cpp:41-65 | running a first part of the input and then the rest, from the state and the partial frame left, is running the whole |
| `Protocol.FeedIsExec` | src/pgwire/session.cpp:166-230 | any chunking of the input gives the same events, state and left-over bytes |
| `Protocol.RepliesGrow` | src/pgwire/session.cpp:41-65 | more input only adds to the reply |
| `Sessions.Session.ReadStartup` | src/pgwire/session.cpp:203-230 | delivers what the one-shot recogniser finds, consuming exactly 4 + size bytes; start-up is done on the first message that is no SSL request |
| `Sessions.Session.ReadTagged` | src/pgwire/session.cpp:172-201 | the same for tagged frames and 5 + size bytes; unregistered tags deliver a null message |
| `Sessions.Session.Read` | src/pgwire/session.cpp:166-202 | untagged before start-up is done, tagged after |
| `Sessions.Session.ProcessMessage` | src/pgwire/session.cpp:67-158 | sends the reply of the event and settles as the promise does: parse failures and Terminate reject with nothing sent |
| `Sessions.Session.SendResult` | src/pgwire/session.cpp:102-120 | description, all rows through the row writer, the count of the writer, ready |
| `Sessions.Session.Write` | src/pgwire/session.cpp:232-239 | appends the bytes to what was sent, through partial transfers |
| `Sessions.Session.Run` | src/pgwire/session.cpp:41-65 | over the whole input, however chunked, the bytes sent are the sequential reply and the state is the sequential state |
| `Transcripts.BytesDecodeToTranscript` | src/pgwire/session.cpp:67-138 | the bytes of every sequential run decode uniquely to the reply grammar, with as many refusals as SSL requests, the start-up block exactly when the start-up is done, exact row counts and matching arities |
| `Transcripts.StartupDecoded` | src/pgwire/session.cpp:67-82 | every input that completes the start-up: after the refusals a client decodes AuthenticationOk, the five settings with each value under its name, and ReadyForQuery |
| `Transcripts.DescriptionDecodes` | src/pgwire/protocol.cpp:70-81 | a RowDescription decodes to the names and type ids of its fields with the constant attributes; the format is 0 for text and 1 for binary |
| `Queries.ClientReadsReplies` | src/pgwire/session.cpp:67-138 | from the bytes of a start-up and any queries a client decodes, in order, for each outcome of the handler: the error and ready, the bare header, or header, rows, count and ready; up to the first Fatal error |
| `Transcripts.TranscriptOf` | src/pgwire/session.cpp:67-138 | the same for a run from any state before start-up |
| `Transcripts.AfterStartup` | src/pgwire/session.cpp:86-138 | after start-up every reply is an error, a result set or a bare description |
| `Transcripts.SelectTagAnnounces` | src/pgwire/session.cpp:113-115 | the number in the command tag parses back to the row count |
| `Transcripts.OutputFits` | src/pgwire/session.cpp:67-138 | a well-behaved server sends only messages that can be decoded |
| `Accounts.ReadyAccounting` | src/pgwire/session.cpp:50-63 | ReadyForQuery messages decoded: one for start-up, one per success, one per non-fatal parse failure; none for execution failures |
| `Accounts.StartupOnce` | src/pgwire/session.cpp:166-230 | start-up is done at most once and for good, one AuthenticationOk is sent then and none before, which is what a client decodes, and untagged messages come only before it, tagged only after |
| `Accounts.QueriesInOrder` | src/pgwire/session.cpp:88-101 | each query is handed to the handler once, in order, after exactly the queries before it |
| `Accounts.QueryText` | src/pgwire/protocol.cpp:153-153 | the query ends at the first NUL; a body without one is the empty query |
| `Accounts.UnregisteredFrameInvisible` | src/pgwire/session.cpp:160-192 | a frame with an unregistered tag can be inserted or removed at any boundary after start-up without changing reply or state |
| `Accounts.TerminateAbsorbs` | src/pgwire/session.cpp:137-138 | Terminate adds no output and closes the session; nothing after it adds any |
| `Accounts.BadLengthSticks` | src/pgwire/session.cpp:172-221 | a length field below 4, or below 8 before the start-up, leaves the session stuck with nothing more answered |
| `Accounts.FatalEnds` | src/pgwire/session.cpp:51-54 | a Fatal parse failure is not answered and closes the session; nothing after it is answered |
| `Accounts.Absorbed` | src/pgwire/session.cpp:41-65 | no input after the end of a session adds output |
| `Accounts.AskedIsSeen` | src/pgwire/session.cpp:160-230 | each message a client writes by the documented tags and numbers is read as that message, with its text or parameters, leaving exactly the rest |
| `Steps.ReadsOneFrame` | src/pgwire/session.cpp:172-188 | a read in pieces never takes bytes of the next frame |
| `Steps.TwoReadsPerFrame` | src/pgwire/session.cpp:172-230 | two completions can read any frame: its header and then its body |
| `Steps.WriteContents` | src/pgwire/session.cpp:67-133 | each write carries one message, or all rows of a result |
| `Steps.ReceiveIsExec` | src/pgwire/session.cpp:41-65 | a read completion does what the sequential function does, and puts the writes where the code puts them: ahead of the next read, or beside it for error replies |
| `Interleavings.StepKeeps` | src/pgwire/session.cpp:41-65 | every read, write and send step keeps the invariant: one writer at a time, nothing lost, at most one request ahead |
| `Interleavings.PrefixOfSequential` | src/pgwire/session.cpp:41-65 | for every interleaving with a polite client the bytes sent are a prefix of the sequential reply |
| `Interleavings.CompleteWhenIdle` | src/pgwire/session.cpp:41-65 | when nothing is left to read or write, everything has been sent, or the session was closed on an error reply and at most that reply is missing |
| `ClientView.OutputAnswers` | src/pgwire/session.cpp:48-62 | answers are requests less those left waiting |
| `ClientView.AllAnsweredIff` | src/pgwire/session.cpp:102-133 | a client decodes as many answers as it has made requests exactly when no query fails in its execution or with a Fatal error; each that does costs one answer |
| `ClientView.ExecFailureWaits` | src/pgwire/session.cpp:106-126 | the input that leaves a client waiting: a start-up and one query whose execution fails decode to the start-up block and a bare RowDescription, one answer to two requests |
| `ClientView.SomeClientWaits` | src/pgwire/session.cpp:106-126 | a server and an input for which that happens |
| `ClientView.CountingIsPolite` | src/pgwire/session.cpp:48-62 | decoding as many answers as requests made means that every reply has arrived in full |
| `ClientView.CountingClientSees` | src/pgwire/session.cpp:41-138 | whatever the interleaving, a counting client decodes a prefix of a transcript and the beginning of its next message |
| `Pipelining.Answered` | src/pgwire/session.cpp:41-65 | input sent all at once can be read byte by byte with every reply written before the next byte is read |
| `Pipelining.PoliteRunAnswers` | src/pgwire/session.cpp:41-65 | any input that leaves the session open can be sent by a polite client, and is then read and answered in full |
| `Pipelining.CaughtOvertaking` | src/pgwire/session.cpp:56-61 | after a byte that asks for an answer behind an error reply there is a run whose bytes are no prefix of the sequential reply |
| `Pipelining.InputSafeIff` | src/pgwire/session.cpp:50-62 | for every input: all runs of clients that send it, or a beginning of it, at will send a prefix of the sequential reply exactly when no event of it is answered after a refused query |
| `Pipelining.QueriesAtOnceSafeIff` | src/pgwire/session.cpp:50-62 | for queries sent at once after the start-up: safe exactly when none is refused and a later one answered before the session ends |
| `Pipelining.PipeliningSafeIff` | src/pgwire/session.cpp:50-62 | for clients that never wait: every run sends a prefix exactly when the server never answers anything after an error reply |
| `Pipelining.SafeWithoutRefusals` | src/pgwire/session.cpp:50-62 | parse handlers that raise no non-fatal error are safe |
| `Pipelining.TwoQueriesMixUp` | src/pgwire/session.cpp:56-61 | a refused query followed by an answered one, sent at once, can be mixed up |
| `Pipelining.PipeliningCanFail` | src/pgwire/session.cpp:56-61 | such a server and such an input exist: it refuses its first query and answers the second |
| `Liveness.BusyCanStep` | src/pgwire/session.cpp:41-65 | whatever the client has done, while something is left to write or read some read or write can complete |
| `Liveness.StepLowers` | src/pgwire/session.cpp:41-65 | every step but those of the client lowers the work that is left |
| `Liveness.ScheduleEnds` | src/pgwire/session.cpp:41-65 | so without further bytes from the client every schedule is bounded, whatever the client did before |
| `Liveness.EveryScheduleAnswers` | src/pgwire/session.cpp:41-65 | after any polite run every order of completions ends within a bound, Terminate or not; at rest the whole sequential reply has been sent, or the session was closed on an error reply and at most that reply is missing |
| `Liveness.EveryScheduleAnswersAtWill` | src/pgwire/session.cpp:41-65 | the same for input sent at will in which nothing is answered after a refused query |
| `Liveness.CountingClientAnswered` | src/pgwire/session.cpp:41-133 | a counting client has an answer to every request exactly when the whole reply has arrived and no query was left waiting; the whole reply arrives wherever the session is not closed on an error reply |
| `Completeness.PoliteRunToRest` | src/pgwire/session.cpp:41-65 | any input, Terminate included, can be sent by a polite client and is answered in full by some run |
| `Completeness.EveryPrefixSeen` | src/pgwire/session.cpp:41-65 | every prefix of the sequential reply to an input is what some run has sent |
| `Completeness.LosingRun` | src/pgwire/session.cpp:56-63 | a session closed on an error reply has a polite run that loses the whole of that reply |
| `Completeness.AlwaysAnsweredIff` | src/pgwire/session.cpp:41-65 | for every input: polite clients have the whole reply in every run exactly when the session is not closed with nothing answered after its last refused query |
| `Completeness.AlwaysAnsweredAtWillIff` | src/pgwire/session.cpp:41-65 | clients that send it at will have the whole reply in every run exactly when, in addition, nothing is answered after a refused query |
| `Completeness.VisitAnsweredIff` | src/pgwire/session.cpp:50-63 | queries and then Terminate: every reply arrives in every run exactly when the last answered query was not refused |
| `Completeness.ReplyCanBeLost` | src/pgwire/session.cpp:58-63 | a server and an input for which it fails: one refused query, then Terminate |
| `Merges.EveryRunMerges` | src/pgwire/session.cpp:41-65 | in every run of any client the bytes sent are a merge of beginnings of the replies, and of the whole replies at rest in a session that is not closed |
| `Adapter.BuildFields` | src/duckpg/duckdb_pgwire_extension.cpp:75-88 | the loop lists exactly the mapped columns, in order, with their names and type ids |
| `Adapter.FillRow` | src/duckpg/duckdb_pgwire_extension.cpp:122-165 | the loop writes exactly one cell per mapped column, value or null, and none for the others |
| `Adapter.FillTable` | src/duckpg/duckdb_pgwire_extension.cpp:119-166 | one closed row per result row, in order |
| `Adapter.SentColumnsExactly` | src/duckpg/duckdb_pgwire_extension.cpp:76-83 | the columns sent are the mapped ones, each once and in order |
| `Adapter.HeaderDescribesRows` | src/duckpg/duckdb_pgwire_extension.cpp:75-166 | for every schema and result: all rows have the arity of the field list, each position reads as the name, the type and the values of one column, and every mapped column has a position |
| `Adapter.BothLoopsAgree` | src/duckpg/duckdb_pgwire_extension.cpp:25-38 | a mapped type is listed once and reaches a branch that writes once; any other type is skipped by both loops; which types those are |
| `Adapter.Aligned` | src/duckpg/duckdb_pgwire_extension.cpp:75-166 | after any number of columns, header and row have the same arity and position j of both belongs to the j-th mapped column |
| `Adapter.ClientReadsCell` | src/duckpg/duckdb_pgwire_extension.cpp:130-161 | null cells are the missing values, and integers parse back from their text, within 6, 11 and 20 characters |
| `Adapter.OidReads` | src/duckpg/duckdb_pgwire_extension.cpp:25-38 | a client that knows the type ids of PostgreSQL reads each announced id as the type of the column, and the announced size is the one of that type |
| `Adapter.HeaderSizeMatches` | src/duckpg/duckdb_pgwire_extension.cpp:25-38 | the size announced for a numeric column is the width its values are written with |
| `Adapter.ClientReadsResult` | src/duckpg/duckdb_pgwire_extension.cpp:75-166 | the bytes of a result set decode to a header with all seven attributes, one row per result row, their count and the end of the reply, with each value under the name and type of its column |
| `Adapter.AnswerIsWellBehaved` | src/duckpg/duckdb_pgwire_extension.cpp:40-169 | every outcome of the handler is one the session theorems cover |
| `Adapter.DuckServerIsWellBehaved` | src/duckpg/duckdb_pgwire_extension.cpp:40-169 | so they hold of the extension, for any database |
| `Adapter.ClientReadsSession` | src/duckpg/duckdb_pgwire_extension.cpp:40-169 | from the bytes of a start-up and any queries to what a client decodes: the start-up block and, in order, what belongs to each answer of the database |

## Left out

- ScanFrame: a start-up payload of fewer than four bytes is taken to end the session like a bad length; the source reads past its buffer there, and nothing is claimed about that.
- Run: the session object handles one message after another, with each reply written before the next read; the overlap of the error path is in the step system, which keeps its state as values.
- AsyncWrite: the stream must take all bytes within some number of attempts; otherwise the source tries for ever (see WriteSettlesIff).
- OutcomeOf: parse and row handlers fail only with the SQL exceptions they raise; an exception of another type, which the source lets escape into the promise chain, is not part of this model.
- OidSize: the sizes of the types that the extension can announce are stated (see OidReads); the rest of the table is transcribed and not stated a second time.
- Render: the text and the binary layout of floating-point values are parameters.
- TypedAs: a floating-point value whose text is longer than 255 characters is excluded, and so it is by WriteFloat in text format; the source prints it past the end of its scratch buffer, and nothing is claimed about that.
- TypeOid: which of the two entries for TIMESTAMP the type map keeps is a parameter.
- Sockets, acceptors, the event loop and the promise library: they appear as chunked input, completion steps and explicit continuations.
- Failing reads and writes: reads succeed or the input stops; what the end of a session cuts short is in the model.
- The database: it is any function from the queries of a session so far to prepare errors, execution errors and typed tables; what other sessions do to it is not told apart from that function.
- The server's registry of sessions and its counter: only an easy invariant of a set.
- Durations, timers, log output, the demo, the Go client and the build.
- Extended query messages: declared by the source but not handled; they are dropped frames here.
