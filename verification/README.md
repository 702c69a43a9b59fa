# Jequi, verified

A Dafny model of the parts of Jequi that carry its protocols, with proofs about every run, every
input and every interleaving:

- an HTTP/2 connection as a system of interleaved steps (a frame reader that survives interruption,
  one task per request, a bounded channel of finished stream ids, a writer), with its frame codec;
- HTTP/1 requests and responses over keep-alive connections, read back by a client that frames messages
  only by Transfer-Encoding or Content-Length;
- the request body's single waker slot, the static file path, the configuration lookup, and the plugin
  load order.

## How it is put together

| file | content |
|---|---|
| `Base.dfy` | octets, options, numerals and their round trip, integer division |
| `HeaderFields.dfy` | header maps, and iterating them in any order |
| `Http2Frame.dfy` | frames, encoding into a buffer, batch parsing, the resumable reader |
| `Http2Conn.dfy` | the state of a connection, its events and steps, and runs |
| `Http2Safety.dfy` | the invariant; what a peer may send; no run panics on such a peer |
| `Http2Exact.dfy` | the converse: on any other octets some run panics |
| `Http2Input.dfy` | frames processed are the batch parse of the octets received |
| `Http2Output.dfy` | the octets written read back as what was written, answer by answer, in order |
| `Http2Peer.dfy` | the peer's messages: which orders of them are fine, and that the requests opened are those sent |
| `Http2Replies.dfy` | the client's replies tell what the handlers returned, in blocks of frames that do not mix |
| `PlainCodec.dfy` | a header compression that meets the law the replies need, and a run with an answer |
| `Http2Liveness.dfy` | progress and bounded answering |
| `Http2Server.dfy` | the connection as an object, method by method, against the steps |
| `Http1Text.dfy`, `Http1Write.dfy`, `Http1Read.dfy` | scanning; the writer and its client; the reader and its wire form |
| `Http1Server.dfy` | the HTTP/1 connection as an object, and what its client gets |
| `Agreement.dfy` | the two writers agree; the reader reads what the writer prints |
| `Body.dfy`, `StaticFiles.dfy`, `ConfigMap.dfy`, `PluginOrder.dfy` | the four smaller algorithms |

Source code that updates fields is a class whose methods are proved against functions on values; the
lemmas are about those functions. Lemmas switch automatic induction off, so every induction is spelled
out. An octet is a character below 256. A header map is a map from names to
value lists; wherever the source iterates one, every iteration order is covered.

## What holds, and what does not

Some promises hold only under a condition that a caller or a peer can meet. Each is proved exactly:

- On octets that pass `FineConnection`, a run of an HTTP/2 connection, under any interleaving and fragmentation,
  panics exactly when it polls a read that the peer's close left unfinished, or writes a header block of 2^32 octets
  or more (`NoRunPanics`; `NoPanicWhileOpen` and `ClosedPollPanics` say it for an open and for a closed connection).
  And the octets a peer may send are exactly these: all other octets make some run panic that does neither
  (`PanicFreeExactly`). Fine means that the preface is right, frame types are known, header blocks decode, DATA comes
  for the last request of its stream id while that one waits for it, and HEADERS come on a new id or on one whose last
  request still waits for its DATA (`ReuseExactly`). In terms of what a peer encodes, its octets are fine exactly when
  its requests and bodies come in that order (`FineExactly`).
- The octets written parse back to the frames of the greeting and the answers if and only if every header block
  written is below 2^24 octets, which the writer does not see to (`OutputParsesExactly`); if they do, a client in step
  with the encoder reads one reply for every answer, and it tells the response the handler returned
  (`ClientGetsResponses`, and with the peer's side `PeerServed`).
- The waker slot of a request body loses no wake-up if and only if at most one task waits
  (`NoWakeUpLostExactly`).
- `ReadBody::poll` makes its buffer anew in every poll. The body it publishes is the window of the octets sent that
  starts where its last poll found them, and nothing is lost if and only if no earlier poll found an octet
  (`ReadToEnd`, `BodyWholeExactly`): of a body "ab" that comes in as "a" and then "bc", "bc" is published
  (`SplitBodyShifts`).
- A Content-Length is understood as a number if and only if it says that number, below 2^64, in decimal digits, perhaps
  behind a plus sign and zeros (`ParseSizeExactly`).
- A connection is kept if and only if the last Connection field of its first request says keep-alive, in any case
  (`KeptExactly`).
- The URI is found behind one or two spaces and behind no more (`UriBehindSpaces`).
- A frame decodes to itself if and only if its payload is below 2^24 octets and its id below 2^31 (`ParseEncoded`).
- Plugin handlers run in the order of the lines, whichever plugins are configured, if and only if no line but the last
  is required (`HandlersInLineOrderExactly`); for a given set of configured plugins they do exactly when no two of them
  are inverted in the full order (`ConfiguredInLineOrder`).

What two sides of a proof share, such as header names, flags, frame types and digits, is pinned down by lemmas with
literal octets and characters: `EncodedLayout`, `WireValues`, `OutputIsBlocks`, `NumeralDigit`, `PlainField`,
`MarkedExactly`.

Where the repository's README and the code differ, the model follows the code: path sections are keyed
`path`, not `uri`, and a section replaces the broader one instead of adding to it.

## Assumptions

- Header compression is any stateful codec. What a client recovers from the replies supposes that decoding inverts
  encoding as long as decoder and encoder are in step, and keeps them in step (`Lockstep`); `PlainCodec.dfy` has a codec
  that does, and a run with an answer (`ReplyWitnessed`). A decoder that returns nothing stands for a header block that
  the decoder, or the callback that builds the request, panics on.
- For the converse in `PanicFreeExactly`, the block of a plain 200 response is below 2^32 octets when it is the first one
  encoded (`PlainFits`).
- The chunk size configured for a request is positive and below 2^24 (`Env.Valid`).
- A handler is any function or, for HTTP/2, any response at any time; handlers terminate once the body they wait for is there.
- One poll and one `write_body` are one step each; sending an id on the channel and releasing the shared response are one step.

## Model

| member | source | states |
|---|---|---|
| Base.NumeralRoundTrip | jequi/src/http1/write.rs:25-36 | the decimal and lower-case hexadecimal numerals the writers print denote the number printed, for every number |
| Base.NumeralDigit | jequi/src/http1/write.rs:25-36 | counted from the right, digit k of a numeral is n / base^k mod base, in lower case |
| Base.NumeralLength | jequi/src/http1/write.rs:25-36 | a numeral has as many digits as the number takes and no leading zero |
| HeaderFields.Iterate | jequi/src/http1/write.rs:27-30 | iterating a header map yields every name's values in order, names in whatever order |
| Http2Frame.Encode | jequi/src/http2/frame.rs:150-163 | the buffer filled in place is the nine header octets and the payload |
| Http2Frame.EncodedLayout | jequi/src/http2/frame.rs:28-67 | the octets of a frame that fits: 24-bit length, type code, flags, a zero bit and 31-bit id, most significant first, then the payload |
| Http2Frame.WireValues | jequi/src/http2/mod.rs:1-20 | the octets of the flags and of the connection preface |
| Http2Frame.ParseEncoded | jequi/src/http2/frame.rs:93-163 | decoding inverts encoding, whatever follows, if and only if the payload fits 24 bits and the id 31 |
| Http2Frame.ParseEncodedAll | jequi/src/http2/frame.rs:93-163 | a concatenation of encoded frames parses back to the same frames with nothing left over |
| Http2Frame.EncodedReadBack | jequi/src/http2/frame.rs:93-163 | encoded frames read back as they were, with nothing left over, if and only if all of them fit |
| Http2Frame.EncodeParsed | jequi/src/http2/frame.rs:93-163 | re-encoding a parsed frame gives back its octets with only the reserved bit cleared |
| Http2Frame.ParseAllExtend | jequi/src/http2/frame.rs:93-113 | parsing more octets continues the parse of the earlier ones where it stopped |
| Http2Frame.PollIsParse | jequi/src/http2/frame.rs:93-113 | wherever an interruption left the reader, the next poll finds what batch parsing finds in all octets taken and available, and otherwise keeps them all |
| Http2Safety.AnswerKeeps | jequi/src/http2/conn.rs:44-48 | removing the answered stream keeps streams, tasks, channel and log in agreement |
| Http2Safety.SendKeeps | jequi/src/http2/frame.rs:234-235 | sending an id to a channel with room keeps it free of duplicates, within capacity, and made of the finished unanswered streams |
| Http2Safety.ProcessOk | jequi/src/http2/frame.rs:115-136 | an admitted frame is processed without a panic: a DATA frame finds its stream still open |
| Http2Safety.StepOk | jequi/src/http2/conn.rs:127-136 | a step on a fine peer keeps the invariant, and panics exactly when it polls a read that the close left unfinished or writes an oversize header block |
| Http2Safety.NoRunPanics | jequi/src/http2/conn.rs:105-138 | so does every run, under any interleaving and fragmentation: no other unwrap fails, and the ids opened are the open streams and the answered ones |
| Http2Safety.NoPanicWhileOpen | jequi/src/http2/conn.rs:105-138 | as long as the peer keeps the connection open, nothing but a header block of 2^32 octets or more panics |
| Http2Safety.ClosedPollPanics | jequi/src/http2/frame.rs:94-103 | once the peer has closed, the next poll panics exactly when the octets left hold no complete frame, or preface |
| Http2Safety.NoAnswerBeforeBody | jequi/src/http2/frame.rs:130-136 | a request that waits for its DATA is not answered, and the last one of its id is not queued and has an open stream for the DATA to find |
| Http2Safety.StreamsAccounted | jequi/src/http2/conn.rs:44-48 | the channel is within capacity and free of duplicates, its ids are exactly the streams whose tasks have sent, and the ids opened are open streams plus answered ones |
| Http2Exact.PanicFreeExactly | jequi/src/http2/conn.rs:105-138 | for any octets: no run on them panics, close and oversize blocks apart, if and only if the octets are fine |
| Http2Exact.FaultyConnectionPanics | jequi/src/http2/frame.rs:130-136 | a run that panics on any octets that are not fine: frames are read, no task runs, up to the first frame refused |
| Http2Exact.ReuseExactly | jequi/src/http2/frame.rs:211-218 | two HEADERS frames on one id: no run on these octets panics if and only if the first does not end its stream |
| Http2Input.FramesAreBatchParse | jequi/src/http2/conn.rs:124-135 | in every run the frames processed, followed by those still unread, are the batch parse of all octets received |
| Http2Input.RequestsAreReplay | jequi/src/http2/frame.rs:165-218 | requests and their bodies are determined by the frames alone; scheduling does not show |
| Http2Peer.RequestsAreSent | jequi/src/http2/frame.rs:165-218 | on octets a peer has encoded, whatever the run, the k-th request opened has the id and the fields of the peer's k-th request, pad length and priority octets skipped, and the codecs stay in step |
| Http2Peer.BodiesAreSent | jequi/src/http2/frame.rs:130-136 | if its messages are orderly, each request also has for a body the payload of the DATA that comes next on its stream, or none yet |
| Http2Peer.FineExactly | jequi/src/http2/frame.rs:115-136 | the octets of a peer's messages are fine if and only if every request comes on a new stream or one left open, and every body on one left open |
| Http2Output.DataFrameCount | jequi/src/http2/conn.rs:82-102 | a body takes ceil(n / chunk size) DATA frames, and an empty one takes one |
| Http2Output.DataFramesShape | jequi/src/http2/conn.rs:82-102 | no DATA frame exceeds a chunk or is needlessly empty, and exactly the last ends the stream |
| Http2Output.DataFramesRead | jequi/src/http2/conn.rs:82-102 | the DATA payloads up to the end of the stream concatenate to the response body |
| Http2Output.ReplyDemux | jequi/src/http2/conn.rs:49-103 | a peer in step decodes one block of frames to the status, the headers without hop-by-hop ones, and the body; all its frames fit exactly when the header block does |
| Http2Output.OutputParsesExactly | jequi/src/http2/conn.rs:38-137 | in every run, for any codec, the octets written parse back to the frames of greeting and answers if and only if every header block written is below 2^24 octets |
| Http2Output.ClientReadsReplies | jequi/src/http2/conn.rs:38-137 | in every run whose header blocks fit, a client in step reads back the greeting and the replies logged, uninterleaved, headers decoded in wire order |
| Http2Replies.ResponsesAreReturned | jequi/src/http2/frame.rs:220-236 | in every run a handler returns once at most, and a task past its handler holds exactly the response of that event, through waiting, sending and answering |
| Http2Replies.OutputIsBlocks | jequi/src/http2/conn.rs:38-137 | in every run the octets are the literal greeting and one unmixed block an answer: HEADERS (0x4) on the request's stream, then the body its handler returned in full chunks of the configured size and a last one, which alone carries 0x1 |
| Http2Replies.ClientGetsResponses | jequi/src/http2/conn.rs:38-137 | if header blocks fit, the client's k-th reply is on the stream of the k-th answered request and tells status, body and all but three headers of the response its handler returned |
| Http2Replies.PeerServed | jequi/src/http2/conn.rs:105-138 | from end to end: reply k is for the k-th task to send, on the stream of the message its request was sent in, with that message's fields and body, and no two replies share a stream |
| PlainCodec.PlainLockstep | jequi/src/http2/conn.rs:49-63 | the law of header compression can be met: a codec that numbers its blocks is inverted in step on all header lists |
| PlainCodec.ReplyWitnessed | jequi/src/http2/conn.rs:38-103 | with this codec there is a run that answers a request, meets every hypothesis on replies, and whose octets read back as the one reply |
| Http2Output.RepliesOnce | jequi/src/http2/conn.rs:44-48 | no two replies share a stream, no open stream has one, and replies plus open streams are all ids opened |
| Http2Output.FirstSentFirstAnswered | jequi/src/http2/conn.rs:123-134 | responses are written in the order in which tasks sent their ids |
| Http2Liveness.InternalRun | jequi/src/http2/frame.rs:220-236 | every step of tasks and channel uses up one unit of a measure, and only an oversize header block panics |
| Http2Liveness.SomethingEnabled | jequi/src/http2/conn.rs:123-134 | while a request with its body there is unanswered some step is enabled, even with the channel full |
| Http2Liveness.SendWaitsExactly | jequi/src/http2/conn.rs:123-123 | a task has to wait to send exactly while the channel holds a hundred ids |
| Http2Liveness.EveryRunAnswers | jequi/src/http2/conn.rs:123-135 | without further input at most four steps per request are left, and when none is enabled exactly the requests whose DATA is missing are unanswered |
| Http2Liveness.QuiescenceReached | jequi/src/http2/frame.rs:220-236 | such a state is reached from every state the invariant holds in, unless a header block turns out oversize |
| Http2Server.Connection.constructor | jequi/src/http2/conn.rs:28-35 | a new connection is in the initial state |
| Http2Server.Connection.PollReader | jequi/src/http2/conn.rs:105-133 | one poll of the pending read, with preface, greeting and a peer that may have closed, is the step of the state machine, or its panic |
| Http2Server.Connection.ProcessHeaders | jequi/src/http2/frame.rs:165-237 | skipping pad length and priority, decoding, registering the stream and spawning its task is the step of the state machine |
| Http2Server.Connection.WriteBody | jequi/src/http2/conn.rs:82-102 | the chunk loop, with the last chunk marked by its index, writes the DATA frames of the body |
| Http2Server.Connection.WriteResponse | jequi/src/http2/conn.rs:38-103 | taking the oldest id and writing its response, headers in any order, is the step of the state machine, or its panic, an oversize header block included |
| Http2Server.Connection.HandleConnection | jequi/src/http2/conn.rs:105-137 | over any schedule the object goes through a run of the state machine on the octets heard before the close, and if these are fine it panics exactly when the run is cut short or writes an oversize block |
| Http1Text.TrimPadded | jequi/src/http1/read.rs:40-67 | trimming removes exactly the white space around text that has none of its own |
| Http1Text.NameCharsExactly | jequi/src/http1/read.rs:69-75 | a header name is of lower-case letters, digits and the other token characters |
| Http1Write.ChunksCutBody | jequi/src/http1/write.rs:33-43 | the chunks are the body cut into nonempty pieces, all of full size but the last |
| Http1Write.ChunkCount | jequi/src/http1/write.rs:33-43 | there are ceil(n / chunk size) chunks |
| Http1Write.ReadChunksBack | jequi/src/http1/write.rs:33-45 | a chunked body delimits itself: reading it gives the chunks and what follows it |
| Http1Write.FramingHeader | jequi/src/http1/write.rs:14-26 | exactly one of the two framing headers is sent, once, and it agrees with the octets sent |
| Http1Write.OtherHeadersKept | jequi/src/http1/write.rs:27-30 | every header but the two framing ones is sent with its values, connection and keep-alive among them |
| Http1Write.ReadFieldsBack | jequi/src/http1/write.rs:27-31 | the header text reads back to the fields, and reading stops at the first octet of the body |
| Http1Write.ReadMessageBack | jequi/src/http1/write.rs:10-51 | a client reads a response back as written, with its status, body and headers, and stops exactly behind it |
| Http1Read.UriBehindSpaces | jequi/src/http1/read.rs:29-43 | the first line is read as meant if and only if at most two spaces precede the URI |
| Http1Read.ReadHeadersBack | jequi/src/http1/read.rs:45-77 | header lines ending in LF or CRLF, with any padding, are read to the last-wins map, and reading stops behind the empty line |
| Http1Read.HeadHoldsLast | jequi/src/http1/read.rs:69-75 | the map and the host hold for every name the value of its last field, in any case |
| Http1Read.PlainField | jequi/src/http1/read.rs:45-77 | names of letters in any case, digits and hyphens, visible values, blanks around them and lines ending in LF or CRLF are well-formed |
| Http1Read.PlainLine | jequi/src/http1/read.rs:29-43 | so is a first line of visible words |
| Http1Read.BadFieldRefused | jequi/src/http1/read.rs:61-75 | a name that is no token or a value with a control character is refused |
| Http1Read.LoneReturnRefused | jequi/src/http1/read.rs:50-56 | a carriage return that no line feed follows is invalid data |
| Http1Read.ParseSizeExactly | jequi/src/request.rs:44-61 | a Content-Length is read as n if and only if it is n in decimal digits, perhaps behind a plus sign and zeros, and below 2^64 |
| Http1Read.ParseSizeRefuses | jequi/src/request.rs:44-61 | and refused if and only if it is not decimal digits or says 2^64 or more |
| Http1Read.BadLengthRefused | jequi/src/http1/read.rs:96-106 | a last Content-Length that says no number below 2^64 is invalid data |
| Http1Read.KeptExactly | jequi/src/http1/mod.rs:53-54 | a request keeps the connection if and only if its last Connection field says keep-alive, names and value in any case |
| Http1Read.ReadRequestBack | jequi/src/http1/mod.rs:69-84 | a well-formed request, whose last Content-Length says the length of its body in decimal, is read as it was meant, and reading stops exactly behind it |
| Http1Read.CutRequestRefused | jequi/src/http1/read.rs:18-77 | wherever a well-formed request is cut short, reading it is an unexpected end |
| Http1Read.ReadConnectionBack | jequi/src/http1/mod.rs:44-62 | concatenated requests, the last perhaps cut short, are consumed at message boundaries: all complete ones if the first asks to keep the connection and its handler does not hijack it, and else the first |
| Http1Server.Connection.ParseFirstLine | jequi/src/http1/read.rs:29-43 | the loops over the connection compute the first line as specified, or its error |
| Http1Server.Connection.ParseHeaders | jequi/src/http1/read.rs:45-77 | the header loop computes the header map, the host and the rest of the input as specified, or its error |
| Http1Server.Connection.ReadBodyOf | jequi/src/http1/read.rs:79-121 | the body is the announced number of octets, none without Content-Length, or an error |
| Http1Server.Connection.WriteResponse | jequi/src/http1/write.rs:10-51 | headers are reframed and the octets written are those of the response, chunked just when the body exceeds the chunk size |
| Http1Server.Connection.HandleConnection | jequi/src/http1/mod.rs:44-95 | the requests handled are those the input contains, each answered once, in order, by its handler's response |
| Http1Server.ClientReadsLog | jequi/src/http1/write.rs:10-51 | responses written back to back decode uniquely to the same versions, statuses, headers and bodies |
| Http1Server.ConversationAnswered | jequi/src/http1/mod.rs:44-95 | from end to end, the complete requests of a connection that the first asks to keep are all answered, and the client reads for each the status, body and headers its handler made of it |
| Agreement.StatusFirst | jequi/src/http2/conn.rs:49-63 | a reply carries the status, no connection-specific header, and every other header with its values |
| Agreement.WritersAgree | jequi/src/http2/conn.rs:49-102 | an HTTP/1 and an HTTP/2 client recover the same status, body and headers, framing headers apart, each all that its protocol keeps of the response, for any chunk sizes |
| Agreement.ReaderReadsPrinted | jequi/src/http1/read.rs:45-77 | the request reader reads the header map back from the text the response writer prints, in any order |
| Body.RequestBody.Poll | jequi/src/body.rs:29-36 | a poll is ready just when the body has been written, and otherwise registers its task |
| Body.RequestBody.WriteBody | jequi/src/body.rs:48-54 | writing publishes the body and wakes the registered task |
| Body.NoWakeUpLostExactly | jequi/src/body.rs:13-54 | no run loses a wake-up if and only if at most one task waits |
| Body.LostForever | jequi/src/body.rs:29-54 | a waiting task that has been overwritten in the slot never runs again, unless polled for no reason |
| Body.ScopeJoins | jequi/src/http1/mod.rs:78-90 | with one waiting task, once input has ended and no poll is due, the reader is through, the body published and the task has it; before that the task has it just when the reader is through |
| Body.PublishedOnce | jequi/src/body.rs:48-54 | a published body stays as it is in every continuation |
| Body.RunsAreShort | jequi/src/body.rs:29-54 | neither task nor reader is spun: whatever spurious polls there are, those with a reason are at most three plus one a piece of input |
| Body.PollRead | jequi/src/http1/read.rs:99-122 | every exit but the waiting one has published exactly once, the announced octets or none |
| Body.ReadToEnd | jequi/src/http1/read.rs:99-122 | polling once an arrival publishes the window of the octets sent that starts where the last poll found them, or none, and octets are lost if and only if an earlier poll found one |
| Body.BodyWholeExactly | jequi/src/http1/read.rs:108-116 | body and rest are all that came in if and only if no earlier poll found an octet, and then the body is the first octets sent |
| Body.SplitBodyShifts | jequi/src/http1/read.rs:108-116 | of the body "ab", arriving as "a" and "bc", the reader publishes "bc" |
| StaticFiles.SplitJoins | plugins/jequi_serve_static/src/lib.rs:109-110 | splitting a path at slashes loses nothing |
| StaticFiles.KeptAt | plugins/jequi_serve_static/src/lib.rs:109-110 | the components are the pieces that are neither empty nor a dot, each once and in place |
| StaticFiles.ComponentsJoined | plugins/jequi_serve_static/src/lib.rs:109-110 | components joined by slashes are the components of the path |
| StaticFiles.EmptyPieceIgnored | plugins/jequi_serve_static/src/lib.rs:109-110 | empty pieces and dots put in between change nothing |
| StaticFiles.LeadingDotKept | plugins/jequi_serve_static/src/lib.rs:109-110 | a dot counts only as the very first piece, and the empty path has no component |
| StaticFiles.BelowExactly | plugins/jequi_serve_static/src/lib.rs:102-107 | the configured prefix and the slashes behind it are taken off the path, and nothing else |
| StaticFiles.UriPathEndsAtQuery | jequi/src/request.rs:22-24 | the path of a URI is the part before the first question mark |
| StaticFiles.WalkIsSurvivors | plugins/jequi_serve_static/src/lib.rs:109-116 | pushing and popping leaves exactly the components that no window behind them climbs back over |
| StaticFiles.Normalise | plugins/jequi_serve_static/src/lib.rs:109-116 | the loop computes that subsequence |
| StaticFiles.Resolve | plugins/jequi_serve_static/src/lib.rs:96-124 | a configured file as it is; or the configured directory and the survivors of the components asked for, in the order of the URI, or index.html, and never `..` |
| ConfigMap.Config.Load | jequi/src/config.rs:63-117 | every section is held as the plugins load it, marked with its host or path, and maps exist only where there are entries |
| ConfigMap.Config.Lookup | jequi/src/config.rs:119-160 | the configuration found is that of the longest key that prefixes the request path in the host's scope, or the scope's own, in at most one round more than the path has components |
| ConfigMap.SectionUnique | jequi/src/config.rs:119-160 | that section is unique |
| ConfigMap.HostNameEndsAtPort | jequi/src/config.rs:124-124 | the host is looked up by the part before the first colon |
| ConfigMap.MarkedExactly | jequi/src/config.rs:44-60 | a mapping is given its host or path under config_host or config_path, and is otherwise unchanged |
| ConfigMap.PathMarkedExactly | jequi/src/config.rs:84-96 | a path section is given its path as it was written |
| ConfigMap.ScopeExactly | jequi/src/config.rs:119-127 | the scope of a request is that of the host named before the port, if it has a section, and else the global one |
| PluginOrder.Generate | plugins/src/lib.rs:107-125 | the generator's loop computes the load order and the slots |
| PluginOrder.LoadedOnceInOrder | plugins/src/lib.rs:107-125 | every plugin is loaded exactly once, and one that requires another right after it |
| PluginOrder.Load | plugins/src/lib.rs:127-139 | for any configured plugins no insertion is out of bounds, slot zero stays the main configuration's, and the handlers are the full order filtered by the configured ones |
| PluginOrder.HandledOnce | plugins/src/lib.rs:127-139 | every configured plugin of the list is handled exactly once, the main configuration too, and no other |
| PluginOrder.HandlersInLineOrderExactly | plugins/src/lib.rs:107-139 | handlers run in line order for every set of configured plugins, and for all of them, if and only if no line but the last is required |
| PluginOrder.ConfiguredInLineOrder | plugins/src/lib.rs:127-139 | the configured handlers run in line order if and only if no two of them are inverted in the full order |

## Left out

- Http2Conn.Step: sends an id and releases the shared response in one step, because `Arc::into_inner` in the writer panics if the connection task runs in between, whatever the peer does.
- Http2Server.Connection.HandleConnection: runs handlers, tasks and arrivals as a schedule chosen in advance; threads and memory order are below its steps.
- Http1Read.KeepsAlive: takes a Connection value with octets above 127 for one that does not keep the connection; `to_str` panics on it.
- Http1Server.Connection.ReadBodyOf: takes the body at once, as when one poll finds all of it; what the source's polling reader does otherwise is in `Body.dfy`.
- Http1Server.Connection.HandleRequest: reads the body before the handler starts; the two run side by side in the source, and `Body.dfy` covers that part. What becomes of a connection whose body cannot be read depends on `tokio_scoped`, which is not part of this model.
- PluginOrder.Load: takes what a plugin loads to be a slot's number; what a plugin does to the slots loaded before it is its own configuration.
- PluginOrder.Generate: takes the lines of the plugin list parsed into a name and an optional requirement.
- Filling a request from `:method`, `:path` and `:authority`: a request keeps its decoded fields.
- The chain of plugin handlers with its early exit, the default status 200, and the `server` and `date` headers: a handler is one function.
- ConfigMap.Config.Load: does not say how often a section is handed to the plugins.
- What a hijacked connection does.
- HTTP/2 flow control, SETTINGS values, PRIORITY, RST_STREAM, PING, GOAWAY, CONTINUATION, padding octets and the maximum frame size: the code ignores them.
- TLS, sockets, file reads, content types, YAML parsing, signals, the proxy and the Go plugin.
- UTF-8: text is one character an octet.
