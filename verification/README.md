# PhoenixWire: a verified model

PhoenixWire is a binary wire protocol: base-128 varints, frame headers, hellos, a bearer
request, two 4096-byte windows per connection, and two programs that poll, read, dispatch and
write. These modules model that stack from the codec to the exchange of the two programs and
prove what it is meant to guarantee, for every input, every split of the input into reads and
writes, and every interleaving.

| module | models |
|---|---|
| Bits | the bit operators and the arithmetic they amount to |
| Bytes, Varint, Frame, Handshake, Auth | the codecs of `native/src`: reference functions on byte sequences, their laws, and the C functions over a buffer, proved to compute those functions |
| Streams | streams of any self-delimiting items: cut anywhere, decoded exactly |
| Connection, Buffers, Inbox, Outbox | the life cycle, the read and write windows as byte queues, and how messages leave and enter them |
| Dispatch | the receive loop of both programs as a fold over the stream, for any message handler |
| ServerLoop, ClientLoop | the two programs: classes over their buffers, proved to do what the fold says |
| Replies | what both programs send for what they receive, byte for byte |
| ServerTrace, ClientTrace, ServerRoom, CloseDown | what a server and a client can have heard and said, when replies fit, and how a closing side gets closed |
| LockStep, Exchange, Drive | the two programs together: invariant, safety, progress and termination, on values and on the real buffers |
| Flow, Heartbeat, Reconnect | the byte counters, the ping timers and the reconnect scheduler |
| PhpFrame, StreamClient | the PHP client: its frame codec against the C codec, and its methods |

How to read the model:

- A parser's result 0 is `None` or `Incomplete`; the frame parser's `(size_t)-1` is `Bad`.
- `Fold` is the meaning of a whole input stream: state, unread bytes and everything replied.
  `Valid` of `Server` and `Client` says that state, unread bytes and everything ever enqueued
  are those of one fold over everything ever received, so chunk independence holds of every
  object that was only used through its methods.
- A socket is a parameter: how many bytes it moved, or EAGAIN, or another error.
- The reference functions of the codecs are arithmetic; the methods use the programs' `|` and
  `&` (module `Bits`), with proofs that no bits overlap where an `|` adds. `v >> 7` is written
  `v / 0x80`. 32-bit and 64-bit wrap-around is explicit in `Varint`, `Auth`, `Flow`, `Heartbeat`
  and `PhpFrame`.

Facts of the code that the statements follow:

- `server_main.c:68` asks for HANDSHAKING from DISCONNECTED, which `pw_connection.c:17-21`
  refuses (`Connection.HandshakingEnteredExactly`). The modelled server enters HANDSHAKING by
  way of CONNECTING, as the client does (`client_main.c:48-49`).
- A refused version and a wrong token ask for CLOSING from HANDSHAKING and AUTHENTICATING; both
  requests are refused (`pw_connection.c:29-39`) and the state stays as it was.
- Appends go to `write_buffer + write_len` although sends start at `write_pos`. That is a FIFO
  queue exactly when `write_pos` is 0 (`Buffers.AppendIsFifoExactly`). In the exchange of the two
  programs it always is (`Exchange.AppendsAreSafe`); a client that sends AUTH without waiting for
  the answer to its hello gets there (`Exchange.PipelinedAuthExactly`).
- Nothing bounds a reply by the room in the write window. `ServerRoom.RoomExactly` says
  exactly when every reply fits.
- A read window that is full after dispatch stays as it is, and the next readable poll ends the
  connection unless errno still says EAGAIN (`ServerLoop.FullWindowStays`).
- A client that is closed leaves its loop and closes its socket. The server, which reads before it
  writes, may find the end of the stream and leave with its CLOSE unsent (`Exchange.EndsReached`).
- `pw_auth.c:19` adds in 32 bits, so for the five longest token lengths the serializer takes rooms
  that are too small (`Auth.RoomTestExactly`).
- Both loops look at CLOSING only after a write and poll for writing only while something is
  unsent, so a client that is told to close with nothing unsent stays in CLOSING
  (`CloseDown.ClientToldToClose`).
- The PHP hello spends four bytes on the version, so the C server reads version 0 and the PHP
  client never connects to it (`StreamClient.NeverConnects`). Its frames do agree with C's.
- Structures the programs initialise by name have zeros in their other fields: the nonces and
  the session id of the hellos they send.
- The documentation speaks of TLS, session resumption, error frames and byte-for-byte parity of
  the implementations. The code modelled here has none of these, and the model follows the code.

## Model

| member | source | states |
|---|---|---|
| Bits.OrAdds | native/src/pw_handshake.c:13-18 | or-ing two values of which one lies below bit k and the other has nothing there adds them |
| Bits.AndLow | native/src/pw_varint.c:6-6 | masking with k ones keeps the low k bits |
| Bits.And80 | native/src/pw_varint.c:21-21 | bit 0x80 of a byte is clear if and only if the byte is below 0x80 |
| Bits.AndF0 | native/src/pw_varint.c:25-25 | the top four bits of a byte are clear if and only if the byte is below 0x10 |
| Bits.Bit10Only | native/src/pw_handshake.c:42-47 | or-ing in 0x10, and masking with all other bits, change that bit of 32 and no other |
| Bytes.U32Inverse | native/src/pw_handshake.c:5-18 | the big-endian 32-bit writer and reader are inverse in both directions |
| Bytes.U16Inverse | native/src/pw_handshake.c:20-27 | the same for 16 bits |
| Bytes.EmitU32 | native/src/pw_handshake.c:5-10 | writes the four shifted and masked bytes at the offset, behind what the serializer already wrote, and nothing else |
| Bytes.ReadU32 | native/src/pw_auth.c:11-16 | reads the number those four bytes denote |
| Varint.RoundTrip | native/src/pw_varint.c:3-36 | decoding an encoded 32-bit value gives the value and its size, whatever stands before and after it |
| Varint.DecodeExact | native/src/pw_varint.c:13-36 | decoding yields (v, n) if and only if the first byte without continuation bit is byte n of at most five and the bytes denote v, below 2^32 |
| Varint.DecodeStable | native/src/pw_varint.c:18-35 | a decoded varint fails on every shorter prefix and is the same on every extension of its bytes |
| Varint.EncodeIsGroup | native/src/pw_varint.c:3-11 | an encoding is one terminated group that denotes the encoded number, of any width |
| Varint.EncodeShortest | native/src/pw_varint.c:3-11 | the encoding of a value is the shortest group for it and the only one of its length; a group is an encoding if and only if it does not end in a superfluous zero |
| Varint.ReencodeNotLonger | native/src/pw_varint.c:3-36 | re-encoding a decoded value never takes more bytes than it was decoded from |
| Varint.ReencodeExactly | native/src/pw_varint.c:3-36 | re-encoding a decoded value gives its bytes, or as many, if and only if it was decoded from one byte or its last byte is not zero |
| Varint.GroupFits | native/src/pw_varint.c:21-30 | of the groups of at most five bytes exactly those with a fifth byte of 0x10 or more overflow 32 bits |
| Varint.OrAddsGroup | native/src/pw_varint.c:18-20 | or-ing in the shifted low seven bits keeps the 32-bit accumulator the denoted number modulo 2^32, as no bits overlap and a fifth byte only loses bits |
| Varint.Encode32 | native/src/pw_varint.c:3-11 | the loop writes exactly the encoding at the offset, leaves the rest of the buffer alone and returns the size |
| Varint.Decode32 | native/src/pw_varint.c:13-36 | the loop, with its 32-bit accumulator and its test of the fifth byte, returns what the reference decoder returns on the same window, and 0 exactly where that fails |
| Streams.DecodeCutStream | native/src/server_main.c:159-206 | for any prefix code: cut the stream of any item list anywhere, and the parse-and-advance loop yields exactly the whole items before the cut and a proper prefix of the next |
| Streams.StreamInjective | native/src/server_main.c:159-206 | for any prefix code: different item lists have different streams |
| Frame.HeaderRoundTrip | native/src/pw_frame.c:24-80 | parsing a serialized header, with anything behind it, gives the header and its size |
| Frame.ParseStable | native/src/pw_frame.c:43-80 | a parsed header is Incomplete on every shorter prefix and the same on every extension; a wrong magic stays wrong |
| Frame.ReencodeNotLonger | native/src/pw_frame.c:11-41 | serializing a parsed header again never takes more bytes than were parsed |
| Frame.HeaderCanonical | native/src/pw_frame.c:24-80 | serializing a parsed header reproduces its bytes if and only if neither varint is longer than needed |
| Frame.HeaderSizeBound | native/src/pw_frame.c:11-22 | no header is longer than 15 bytes |
| Frame.TakeRoundTrip | native/src/server_main.c:160-162 | the test `parsed > 0 && read_len >= parsed + length` finds exactly the serialized frame at the front of the window |
| Frame.TakeStable | native/src/server_main.c:160-162 | a frame that was found is the same frame when more bytes have arrived |
| Frame.CutFrameTakesNext | php/src/PhoenixWire/StreamClient.php:173-173 | after a frame cut inside its payload the receiver takes a frame whose missing bytes are those of whatever comes next |
| Frame.FrameStreamDecodes | native/src/pw_frame.c:24-80 | any list of frames, its stream cut anywhere: the loop gets the whole frames before the cut and keeps a proper prefix of the next |
| Frame.FrameStreamInjective | native/src/pw_frame.c:24-41 | different frame lists have different streams |
| Frame.MeasureHeader | native/src/pw_frame.c:11-22 | the size found by encoding both varints into a dummy buffer is the length of the serialized header |
| Frame.SerializeHeader | native/src/pw_frame.c:24-41 | writes exactly the header bytes at the offset, or nothing and 0 when there is no room |
| Frame.ParseHeader | native/src/pw_frame.c:43-80 | returns what the reference parser gives on the window: incomplete, wrong magic, or header and size |
| Handshake.ResumeBitOnly | native/src/pw_handshake.c:42-47 | the RESUME bit is set as asked and every other capability bit is kept |
| Handshake.ClientLayout | native/src/pw_handshake.c:37-61 | at which offsets the fields of a client hello stand, most significant byte first |
| Handshake.ServerLayout | native/src/pw_handshake.c:95-114 | at which offsets the fields of a server hello stand |
| Handshake.ClientFields | native/src/pw_handshake.c:64-89 | which bytes are accepted and what each field of the parsed client hello is; only a resume byte of 1 announces a token |
| Handshake.ServerFields | native/src/pw_handshake.c:117-141 | what each field of the parsed server hello is; only a last byte of 1 accepts the token |
| Handshake.ClientRoundTrip | native/src/pw_handshake.c:29-89 | parsing a serialized client hello gives every field back, with the RESUME bit equal to having a token |
| Handshake.NormaliseOnce | native/src/pw_handshake.c:29-62 | one pass through the serializer normalises a hello, a second changes nothing, and a hello is unchanged if and only if its RESUME bit was right |
| Handshake.ClientCanonical | native/src/pw_handshake.c:29-89 | serializing an accepted client hello reproduces its bytes if and only if its resume byte is 0 or 1 and agrees with the RESUME bit |
| Handshake.ClientStable | native/src/pw_handshake.c:64-89 | a parsed client hello of 24 or 40 bytes is unfinished on every shorter prefix and fixed on every extension |
| Handshake.ServerRoundTrip | native/src/pw_handshake.c:91-141 | server hellos round-trip exactly, for all 32-bit capabilities and 16-bit status values |
| Handshake.ServerCanonical | native/src/pw_handshake.c:91-141 | serializing an accepted server hello reproduces its bytes if and only if its last byte is 0 or 1 |
| Handshake.ServerStable | native/src/pw_handshake.c:117-141 | a server hello is unfinished below 42 bytes and fixed from there on |
| Handshake.SerializeClientHello | native/src/pw_handshake.c:29-62 | writes exactly the 24 or 40 bytes at the offset, or nothing and 0 when there is no room |
| Handshake.ParseClientHello | native/src/pw_handshake.c:64-89 | returns what the reference parser gives on the window |
| Handshake.SerializeServerHello | native/src/pw_handshake.c:91-115 | writes exactly the 42 bytes at the offset, or nothing and 0 when there is no room |
| Handshake.ParseServerHello | native/src/pw_handshake.c:117-141 | returns what the reference parser gives on the window |
| Auth.StrLen | native/src/pw_auth.c:56-56 | the position of the first NUL, or the end |
| Auth.RequestRoundTrip | native/src/pw_auth.c:18-51 | parsing a serialized request, with anything behind it, gives method, token and size |
| Auth.RequestStable | native/src/pw_auth.c:36-51 | a parsed request is unfinished on every shorter prefix and fixed on every extension |
| Auth.AuthenticatesExactly | native/src/pw_auth.c:36-60 | for every expected string, a payload validates if and only if it starts with the one serialized request for that C string; trailing bytes never change the verdict |
| Auth.EndToEnd | native/src/server_main.c:125-135 | serialize a bearer request, frame it, send anything after it: the frame is found and validates if and only if the token is the expected C string |
| Auth.RoomTestExactly | native/src/pw_auth.c:19-20 | the test refuses exactly the rooms that are too small if and only if 5 and the token length do not wrap 32 bits |
| Auth.SerializeRequest | native/src/pw_auth.c:18-34 | writes exactly the request at the offset, or nothing and 0 when the 32-bit test finds no room |
| Auth.ParseRequestAt | native/src/pw_auth.c:36-51 | returns what the reference parser gives on the window |
| Connection.AllowedExactly | native/src/pw_connection.c:16-69 | granted are exactly the step to the successor state, draining when ready, and closing at once unless disconnected or closed |
| Connection.NoWayAround | native/src/pw_connection.c:16-69 | over any requests, unless disconnected again, no connection goes back, and none gets from before authentication to READY, DRAINING or CLOSING without READY being asked for |
| Connection.HandshakingEnteredExactly | native/src/server_main.c:67-68 | HANDSHAKING is entered from CONNECTING only, so the server program's direct request is refused, and by way of CONNECTING it is reached |
| Connection.Conn.Transition | native/src/pw_connection.c:9-76 | moves to the requested state and returns true exactly when the life cycle allows it, and changes nothing otherwise |
| Buffers.ArrivingExactly | native/src/pw_transport.c:42-48 | what arrives is the front of what is pending, all the socket gives or as much as fills the window of 4096 bytes |
| Buffers.Transport.Read | native/src/pw_transport.c:24-56 | for every result of recv: what was received is what was consumed and then the window, the window grows by exactly the bytes that arrived, and the result is their count, 0 at the end or on a full window, or the error |
| Buffers.Transport.Compact | native/src/pw_transport.c:32-40 | the overlapping move brings the window to the front and keeps its bytes |
| Buffers.Transport.Consume | native/src/server_main.c:203-204 | takes the first n bytes out of the read window |
| Buffers.Transport.Commit | native/src/server_main.c:117-118 | the write window after an append, wherever the window starts; the old window and the data if it starts at 0 |
| Buffers.Transport.Write | native/src/pw_transport.c:58-83 | for every result of send: the bytes taken leave the window at its front, what was enqueued is what was sent and then the window, and an empty window starts at 0 again |
| Buffers.AppendIsFifoExactly | native/src/server_main.c:117-118 | appending at write_len extends the window by the data, for all data of a size, if and only if write_pos is 0 or there is nothing to append |
| Inbox.PeekFrame | native/src/server_main.c:160-162 | finds a whole frame in the read window exactly when one is there, with its header, size and payload |
| Outbox.SendHeader | native/src/server_main.c:136-144 | the window after a serialized header is appended at write_len, wherever the window starts: its end is the header if it starts at 0, and nothing changes when there is no room |
| Outbox.SendBytes | native/src/server_main.c:172-173 | the window after bytes are copied to write_len, wherever the window starts: its end is the bytes if it starts at 0 |
| Dispatch.HandledExactly | native/src/server_main.c:90-210 | a message of n bytes is handled as soon as n bytes are there and unfinished before |
| Dispatch.FoldConcat | native/src/server_main.c:87-215 | handling a stream at once, or in two pieces with the leftover kept, gives the same state, leftover and replies |
| Dispatch.ChunkIndependence | native/src/server_main.c:79-216 | for every stream and every split into reads, running the loop after each read ends like one fold over the whole stream |
| Dispatch.FoldQuiescent | native/src/server_main.c:87-215 | what the loop leaves behind gives it nothing more to do |
| Dispatch.SegmentsCover | native/src/server_main.c:87-215 | the handled messages and the leftover are the input, in order and complete |
| Dispatch.FoldCovered | native/src/server_main.c:87-215 | a bound that every single message keeps bounds the replies of every run |
| Dispatch.CleanConcat | native/src/server_main.c:126-127 | a stream shows no wrong magic if and only if it shows none up to any cut and none after it |
| Dispatch.NeverWedged | native/src/pw_transport.c:27-30 | while every message fits the window, a window full after dispatch means that no further message will ever complete |
| Dispatch.OversizeNeverCompletes | native/src/pw_transport.c:27-30 | a message is longer than the window if and only if a full window of it is left unhandled as it is |
| Dispatch.MatchesReceive | native/src/server_main.c:79-216 | one more read keeps the connection equal to a fold over everything received, with everything enqueued equal to the replies |
| Dispatch.MatchesFlush | native/src/server_main.c:218-223 | a partial send, and the step to CLOSED, keep it too |
| Dispatch.SafeTurn | native/src/server_main.c:116-118 | one message with a reply meets the hypotheses of the loop if and only if the unsent bytes start at offset 0 and leave room for the reply |
| Dispatch.AdvanceKeeps | native/src/server_main.c:87-215 | one turn of the loop leads to the same end and keeps the hypotheses of the loop |
| ServerLoop.HandleStable | native/src/server_main.c:90-210 | the server's handling of a message depends on its bytes only, in every state |
| ServerLoop.ReadyTurn | native/src/server_main.c:159-201 | a ready server handles a frame that is all there, with its reply, and is closing after a CLOSE |
| ServerLoop.FullWindowStays | native/src/server_main.c:79-85 | a server whose window is full receives nothing more, whatever the socket does, and a readable poll changes nothing; that poll ends the connection unless errno says EAGAIN, as `alive` of OnReadable states |
| ServerLoop.Server.constructor | native/src/server_main.c:64-68 | a new connection is HANDSHAKING with empty windows |
| ServerLoop.Server.OnClientHello | native/src/server_main.c:90-123 | consumes the hello, moves on or stays, and enqueues exactly the hello reply; nothing without a whole hello |
| ServerLoop.Server.AnswerHello | native/src/server_main.c:98-118 | enqueues the reply whose bytes `Replies.HelloAnswer` gives, and goes on to AUTHENTICATING exactly for version 1 |
| ServerLoop.Server.OnAuthentication | native/src/server_main.c:124-158 | consumes one frame, is ready and enqueues AUTH_OK exactly when it validates |
| ServerLoop.Server.SendVerdict | native/src/server_main.c:128-152 | AUTH_OK for a validating AUTH frame, nothing otherwise; a refused token leaves the state AUTHENTICATING |
| ServerLoop.Server.CheckAuth | native/src/server_main.c:128-131 | the verdict read out of the buffer is the verdict on the frame |
| ServerLoop.Server.OnReady | native/src/server_main.c:159-207 | consumes one frame and enqueues exactly its reply |
| ServerLoop.Server.SendReply | native/src/server_main.c:163-201 | enqueues the reply whose bytes `Replies.ReadyAnswer` gives, and is closing exactly after a CLOSE |
| ServerLoop.Server.Echo | native/src/server_main.c:169-173 | the re-encoded header and the payload copied from the read window are one whole frame in the write window |
| ServerLoop.Server.HandleOne | native/src/server_main.c:87-215 | one turn of the loop does what the message handler says, and reports progress exactly when a message was handled |
| ServerLoop.Server.Pump | native/src/server_main.c:87-215 | the whole loop does what the fold says |
| ServerLoop.Server.OnReadable | native/src/server_main.c:79-216 | a readable poll keeps state, unread bytes and all bytes enqueued those of one fold over everything ever received |
| ServerLoop.Server.OnWritable | native/src/server_main.c:218-223 | a writable poll sends a prefix of what is unsent and closes exactly a CLOSING connection with nothing left |
| ServerTrace.OutputBound | native/src/server_main.c:87-215 | over every run, 4 times the bytes sent are at most 7 times the bytes handled, and at most 18 bytes more are sent than handled for each hello |
| ServerTrace.OutputBoundTight | native/src/server_main.c:98-118 | both bounds are attained by every number of refused 24-byte hellos |
| ServerTrace.FrameReplyBound | native/src/server_main.c:163-201 | no frame is answered with more bytes than it was taken from |
| ServerTrace.GrammarRuns | native/src/server_main.c:90-210 | every grammatical input makes the server ready, or closing, with exactly the reply sequence of its trace |
| ServerTrace.RunIsGrammatical | native/src/server_main.c:90-210 | a server that is ready or closing has heard refused hellos, a version-1 hello, frames that do not validate, a validating AUTH frame, ordinary frames and perhaps a CLOSE, and has sent the matching replies: nothing but hello replies before AUTH_OK |
| ServerTrace.ReadyExactly | native/src/server_main.c:90-210 | the inputs that get the server past authentication are exactly the grammatical ones |
| ServerTrace.GoodAuthExactly | native/src/server_main.c:128-131 | a frame validates if and only if it is an AUTH frame whose payload starts with the literal request for the secret token |
| ServerTrace.RunStates | native/src/pw_connection.c:29-46 | only HANDSHAKING, AUTHENTICATING, READY and CLOSING are reached by handling messages |
| Replies.HelloAnswer | native/src/server_main.c:90-118 | every hello that is whole gets 42 bytes: its capabilities, zeros for nonce and session id, status 0 for version 1 and 1002 otherwise, and 1 last exactly for a version-1 token that does not begin with 0x99; status 0 and nothing else goes on to authentication |
| Replies.AuthAnswer | native/src/server_main.c:124-152 | an AUTH frame whose payload starts with the request for "secret_token" gets the seven bytes of AUTH_OK and makes the server ready; any other frame gets nothing and changes nothing |
| Replies.ReadyAnswer | native/src/server_main.c:159-201 | data gets the same frame back, PING the bytes of an empty PONG on its stream, CLOSE the seven bytes of CLOSE and CLOSING, any other frame nothing |
| Replies.ReadyAnswerRead | native/src/server_main.c:163-184 | parsed again, the echo is the frame that was sent and the PONG has the stream of the PING, for every stream |
| Replies.ClientHello | native/src/client_main.c:52-59 | the 24 bytes of the client's hello |
| Replies.ClientHelloAnswer | native/src/client_main.c:88-122 | any 42 bytes get the 24 bytes of the framed request for "secret_token", fewer get nothing |
| Replies.ClientAuthAnswer | native/src/client_main.c:123-150 | AUTH_OK makes the client ready and gets the bytes of the text on stream 1; any other frame gets nothing and changes nothing |
| Replies.ClientReadyAnswer | native/src/client_main.c:151-196 | a text gets the bytes of PING, a PONG those of CLOSE and CLOSING, a CLOSE only CLOSING, any other frame nothing |
| ClientTrace.StoryRuns | native/src/client_main.c:85-204 | 42 bytes, frames other than AUTH_OK, an AUTH_OK frame, frames other than PONG and CLOSE, and perhaps one of these, make the client ready, or closing, with exactly the request, the text, a PING for every text and a CLOSE for a PONG |
| ClientTrace.RunIsStory | native/src/client_main.c:85-204 | a client that is ready or closing has heard exactly such an input and said exactly that |
| ClientTrace.ReadyByStoryExactly | native/src/client_main.c:123-131 | the inputs that get a client past authentication are exactly these, so it leaves it by an AUTH_OK frame only |
| ServerRoom.MostIsSent | native/src/server_main.c:87-215 | over every run from any state, the bytes handled are answered with no more than 42 for each 24 while handshaking, 7 for the first 24 and then as many as are left while authenticating, and as many when ready |
| ServerRoom.MostReached | native/src/server_main.c:87-215 | these bounds are the least: of each size that can get a reply some clean input is answered with exactly that much |
| ServerRoom.RoomExactly | native/src/server_main.c:116-173 | in every state, for every offset and every unsent bytes, a server has room for the replies to every clean window of n bytes if and only if n bytes get no reply, or the unsent bytes start at offset 0 and leave the most that n bytes are answered with |
| ServerRoom.EmptyOutboxIsSafe | native/src/server_main.c:116-173 | a server with nothing unsent has room for the replies to every clean window of n bytes if and only if it is past the handshake or n is below 2352 |
| ClientLoop.HandleStable | native/src/client_main.c:88-199 | the client's handling of a message depends on its bytes only, in every state |
| ClientLoop.FullWindowStays | native/src/client_main.c:77-83 | a client whose window is full receives nothing more, whatever the socket does, and a readable poll changes nothing; that poll ends the client unless errno says EAGAIN, as `alive` of OnReadable states |
| ClientLoop.Client.constructor | native/src/client_main.c:44-59 | a new client is HANDSHAKING with exactly its hello unsent |
| ClientLoop.Client.OnServerHello | native/src/client_main.c:88-122 | consumes the server hello, whatever its status, and enqueues exactly the framed bearer request |
| ClientLoop.Client.SendAuth | native/src/client_main.c:98-119 | the request serialized into the local array and its header are one whole AUTH frame in the write window |
| ClientLoop.Client.OnAuthentication | native/src/client_main.c:123-150 | consumes one frame; AUTH_OK makes the client ready and enqueues exactly the data frame |
| ClientLoop.Client.OnReady | native/src/client_main.c:151-196 | consumes one frame and enqueues exactly its answer |
| ClientLoop.Client.SendReply | native/src/client_main.c:155-190 | PING for an echo, CLOSE and CLOSING for a PONG, CLOSING alone for a CLOSE |
| ClientLoop.Client.HandleOne | native/src/client_main.c:85-204 | one turn of the loop does what the message handler says |
| ClientLoop.Client.Pump | native/src/client_main.c:85-204 | the whole loop does what the fold says |
| ClientLoop.Client.OnReadable | native/src/client_main.c:77-205 | a readable poll keeps state, unread bytes and all bytes enqueued those of the hello and one fold over everything ever received |
| ClientLoop.Client.OnWritable | native/src/client_main.c:70-75 | a writable poll sends a prefix of what is unsent and closes exactly a CLOSING client with nothing left |
| CloseDown.ClosesExactly | native/src/client_main.c:63-75 | a closing side can still reach CLOSED, by some reads and writes, if and only if something is unsent |
| CloseDown.ClientToldToClose | native/src/client_main.c:186-190 | a client that receives CLOSE can reach CLOSED if and only if something was unsent before |
| CloseDown.ServerToldToClose | native/src/server_main.c:186-201 | a server that receives CLOSE can always reach CLOSED |
| LockStep.SendKeeps | native/src/pw_transport.c:58-83 | a send of any size keeps unread, in-flight and unsent bytes together exactly the outstanding message |
| LockStep.Step | native/src/client_main.c:63-206 | every enabled step, idle polls and the server's leaving included, keeps the invariant that exactly one message is on its way, and lowers the bytes left to move by exactly those it moves |
| LockStep.Reachable | native/src/client_main.c:63-206 | the invariant holds after every possible sequence of steps |
| LockStep.SomeStep | native/src/client_main.c:63-206 | until the client is closed, and the server closed or gone, some byte can be moved |
| LockStep.StepServerLeaves | native/src/server_main.c:79-85 | the server finds the end of the stream only with the last message under way and not all sent |
| LockStep.DoneExactly | native/src/server_main.c:218-223 | both sides are closed if and only if nothing is left to move |
| LockStep.OverExactly | native/src/server_main.c:72-85 | no step but an idle one is enabled if and only if the client is closed and the server closed or gone; then the last message is on the wire as far as it was sent, and the server is closed if and only if it has sent all of it |
| Exchange.ServerTurn | native/src/server_main.c:90-201 | the server answers each of the client's five messages with the next message of the script, in the state of the script |
| Exchange.ClientTurn | native/src/client_main.c:88-190 | the client answers each of the server's first four messages with the next one |
| Exchange.ProgramsFollowScript | native/src/client_main.c:85-204 | for every text that fits, the two programs' handlers follow the ten-message script hello, auth, data, ping, close |
| Exchange.AppendsAreSafe | native/src/server_main.c:87-223 | in every reachable world a read finds its reader's write window empty at write_pos 0, with room for the reply and no wrong magic, so every append is FIFO-correct |
| Exchange.PipelinedAuthExactly | native/src/server_main.c:116-144 | an AUTH frame sent without waiting, read when k bytes of the hello answer are sent, meets the server's hypotheses if and only if k is 0 or all 42 |
| Exchange.PartialAnswerCorrupts | native/src/server_main.c:136-144 | with one byte of the hello answer sent, the append puts a 0 where the client is to read the opcode of AUTH_OK, in any buffer |
| Exchange.ReadyImpliesAuthenticated | native/src/client_main.c:123-131 | in every reachable world a ready client has a server that is READY, CLOSING or CLOSED and that has heard a grammatical trace with a validating AUTH frame |
| Exchange.NeverStuck | native/src/client_main.c:63-206 | in every reachable world some byte can be moved until the client is closed and the server closed or gone, so always until the client is closed |
| Exchange.RunsEnd | native/src/server_main.c:72-224 | no run moves more than a fixed total of bytes or takes more steps than that and one, idle polls aside; it cannot go on if and only if the client is closed and the server closed or gone, and it has moved the total if and only if both are closed |
| Exchange.EndsReached | native/src/server_main.c:79-85 | some run ends with both sides closed, and some run with the server gone before it has sent any of its CLOSE |
| Drive.Do | native/src/client_main.c:63-206 | one poll of either program, on the real buffers, is the corresponding step of the exchange, whether it moves bytes, moves nothing or finds the end of the stream |
| Drive.Run | native/src/server_main.c:72-224 | for every schedule of such polls the two programs on their real buffers end in the world the exchange of values ends in |
| Flow.LowestIsLeast | native/src/pw_flow.c:23-31 | the recursive minimum is attained by, and not above, every prefix sum |
| Flow.ClosedForm | native/src/pw_flow.c:17-31 | without wrap-around the saturating counter is the net sum minus the least net sum so far, so it never under-counts |
| Flow.ClosedFormExactly | native/src/pw_flow.c:17-31 | the closed form holds at every moment of a run, saturating or not, if and only if no 32-bit addition wraps |
| Flow.ExactUnlessWrapped | native/src/pw_flow.c:17-31 | the counter is exact at every moment of a run if and only if no 32-bit addition wraps and never more is sent than was enqueued |
| Flow.LimitKept | native/src/pw_flow.c:12-31 | a counter whose additions are gated never passes a nonzero limit |
| Flow.GateExact | native/src/pw_flow.c:12-15 | the gate decides by the true sum if and only if that sum does not wrap to within the limit |
| Flow.NoLimitAdmitsAll | native/src/pw_flow.c:12-15 | a limit of 0 admits every size at any time |
| Flow.OutstandingWithinLimitExactly | native/src/pw_flow.c:12-31 | every gated run with sizes up to a bound keeps the bytes outstanding within a nonzero limit if and only if bound and limit together do not wrap |
| Flow.ObjectWithinLimit | native/src/pw_flow.c:12-31 | of every flow control asked before each enqueue, with sizes that cannot wrap: the counter covers the bytes outstanding and is within the limit |
| Flow.WrapUndercounts | native/src/pw_flow.c:12-21 | a gated run after which the counter says 9 while over four billion bytes are outstanding |
| Flow.FlowControl.OnEnqueued | native/src/pw_flow.c:17-21 | the outbound counter stays the count of its history, which stays gated exactly when can_send held |
| Flow.FlowControl.OnSent | native/src/pw_flow.c:23-31 | the same for a saturating subtraction |
| Flow.FlowControl.OnReceived | native/src/pw_flow.c:38-42 | the inbound counter stays the count of its history, which stays gated exactly when can_receive held |
| Flow.FlowControl.OnConsumed | native/src/pw_flow.c:44-52 | the same for a saturating subtraction |
| Heartbeat.PingDueExactly | native/src/pw_heartbeat.c:25-33 | a ping is due if and only if the interval is set, none is outstanding, and the interval has passed or its end wraps 64 bits |
| Heartbeat.TimeoutDueExactly | native/src/pw_heartbeat.c:35-39 | the same exact condition for the timeout |
| Heartbeat.FieldsExactly | native/src/pw_heartbeat.c:13-53 | after every history the fields are the time of the last receipt or pong, the time of the last send or ping, and whether a ping came after the last pong |
| Heartbeat.DueExactly | native/src/pw_heartbeat.c:25-39 | when a ping is due and when the peer is timed out, exactly, in terms of the history |
| Heartbeat.PingsSpacedExactly | native/src/pw_heartbeat.c:13-53 | in all runs of a forward clock up to a last time, with pings sent when due, consecutive pings are at least the interval apart if and only if the interval after that time does not wrap 64 bits, or pinging is off |
| Heartbeat.PingsTwiceAtOnce | native/src/pw_heartbeat.c:32-32 | wherever the interval wraps, a run with two pings in the same millisecond |
| Heartbeat.PingsAnswered | native/src/pw_heartbeat.c:25-53 | over every run with pings sent when due, whatever the clock, pings are at most pongs plus one, and plus none when none is outstanding |
| Heartbeat.TimeoutFindsPingExactly | native/src/pw_heartbeat.c:25-39 | with interval at most timeout, both nonzero, a timeout finds a ping outstanding or due in all runs of a forward clock up to a last time if and only if the timeout after that time does not wrap or the two are equal |
| Heartbeat.ObjectPings | native/src/pw_heartbeat.c:13-53 | of every heartbeat whose pings were sent when due: pings are at most pongs plus the outstanding one, and spaced while the interval does not wrap |
| Heartbeat.ObjectFields | native/src/pw_heartbeat.c:13-53 | the same of the fields of every heartbeat object |
| Heartbeat.Heartbeat.IsPingDue | native/src/pw_heartbeat.c:25-33 | a ping is due exactly when the interval is set, no ping is outstanding in the history, and the interval has passed since the last receipt or wraps |
| Heartbeat.Heartbeat.IsTimedOut | native/src/pw_heartbeat.c:35-39 | timed out exactly when the timeout is set and has passed since the last receipt of the history or wraps |
| Heartbeat.Heartbeat.OnRecv | native/src/pw_heartbeat.c:13-17 | the fields stay those of the history, which goes on with a receipt, so that it is the one heard last |
| Heartbeat.Heartbeat.OnSend | native/src/pw_heartbeat.c:19-23 | the fields stay those of the history, which goes on with a send |
| Heartbeat.Heartbeat.OnPong | native/src/pw_heartbeat.c:41-46 | the fields stay those of the history, which goes on with a pong |
| Heartbeat.Heartbeat.OnPingSent | native/src/pw_heartbeat.c:48-53 | the fields stay those of the history, which goes on with a ping and stays one of pings sent when due exactly if this one was due |
| Reconnect.BackoffBounds | php/src/PhoenixWire/AsyncClient.php:56-60 | with nonnegative settings every backoff is between 0 and the maximum |
| Reconnect.BackoffOfInteger | php/src/PhoenixWire/AsyncClient.php:56-60 | with a whole multiplier m the delay after n attempts is the first delay times m to the n, or the maximum |
| Reconnect.BackoffGrows | php/src/PhoenixWire/AsyncClient.php:56-60 | with a multiplier of 1 or more no delay is shorter than the one before |
| Reconnect.DefaultBackoffs | php/src/PhoenixWire/Policy.php:9-12 | the five delays of the default policy |
| Reconnect.CastExactly | php/src/PhoenixWire/AsyncClient.php:59-59 | the cast drops the fraction, towards zero |
| Reconnect.TickKeeps | php/src/PhoenixWire/AsyncClient.php:65-122 | one tick of a forward clock keeps alternation, cap and pace of the whole history |
| Reconnect.ReconnectRuns | php/src/PhoenixWire/AsyncClient.php:56-122 | over any ticks of a forward clock and for any policy, connects and closes strictly alternate, attempts since the last connect never pass the cap, and the n-th attempt comes no earlier than the sum of the first n capped backoffs after the first scheduling |
| Reconnect.LinkIsReported | php/src/PhoenixWire/AsyncClient.php:69-114 | after any ticks the connect or close reported last is what the states show, so none goes unreported |
| Reconnect.AttemptExactly | php/src/PhoenixWire/AsyncClient.php:78-87 | of two ticks of a connection that is down, with nothing scheduled and an attempt left, the second makes an attempt if and only if the backoff has passed |
| Reconnect.SlowRunUsesCap | php/src/PhoenixWire/AsyncClient.php:78-87 | a connection that stays down, looked at in intervals of at least the longest backoff, makes an attempt with every second tick until exactly the cap is used up |
| Reconnect.NoAutoNoTries | php/src/PhoenixWire/AsyncClient.php:79-79 | without autoReconnect nothing is ever attempted |
| Reconnect.OnlyConnects | php/src/PhoenixWire/AsyncClient.php:101-112 | while a connection is not down nothing is scheduled or attempted, and at most one connect is reported |
| Reconnect.AsyncClient.CalculateBackoff | php/src/PhoenixWire/AsyncClient.php:56-60 | the truncated exponential delay, capped |
| Reconnect.AsyncClient.TickOnce | php/src/PhoenixWire/AsyncClient.php:65-122 | the fields and the events are those of the tick function, the history keeps its invariant, and the statistics follow |
| PhpFrame.OrAddsDigit | php/src/PhoenixWire/StreamClient.php:199-210 | or-ing the shifted group into the 64-bit integer keeps it the denoted number modulo 2^64, after any number of groups |
| PhpFrame.Signed64Exactly | php/src/PhoenixWire/StreamClient.php:199-210 | the integer read is the one between -2^63 and 2^63 with the same 64 bits |
| PhpFrame.SendsCFrames | php/src/PhoenixWire/StreamClient.php:151-175 | for all flags and opcodes and every payload shorter than 2^32, the bytes are exactly the C header on stream 0 and the payload |
| PhpFrame.CReceivesExactly | native/src/pw_frame.c:43-80 | the C receiver gets exactly the frame PHP sent if and only if the payload is shorter than 2^32, and waits for ever otherwise |
| PhpFrame.PhpReadsWhatCTakes | php/src/PhoenixWire/StreamClient.php:177-210 | every frame the C side takes, PHP reads with the same opcode, payload and size |
| PhpFrame.AgreeExactly | php/src/PhoenixWire/StreamClient.php:177-210 | on any bytes: both refuse the same ones for their magic, and C takes a frame if and only if PHP reads one and both its varints are of at most five bytes and below 2^32 |
| PhpFrame.WideZeroDisagrees | native/src/pw_varint.c:18-35 | a six-byte stream id that denotes 0 is read by PHP and never by C |
| PhpFrame.LengthKeptExactly | php/src/PhoenixWire/StreamClient.php:186-191 | PHP takes the length that was written if and only if it is below 2^63 |
| PhpFrame.HugeLengthReadAsEmpty | php/src/PhoenixWire/StreamClient.php:186-191 | sixteen bytes that announce 2^63 bytes of payload are read as a frame without any |
| PhpFrame.PhpRoundTripExactly | php/src/PhoenixWire/StreamClient.php:151-197 | what one PHP client sends another reads, opcode, payload and every byte, if and only if the payload is shorter than 2^63 |
| PhpFrame.ReadPrefixExactly | php/src/PhoenixWire/StreamClient.php:177-222 | when only the first k bytes are here, a frame is read if and only if all its bytes are among them, and readFrame throws otherwise |
| StreamClient.AuthPayloadAgrees | php/src/PhoenixWire/StreamClient.php:93-95 | the packed payload is the C serializer's bearer request, and the C parser finds the token in it if and only if its length fits 32 bits |
| StreamClient.HelloVerdictIs | php/src/PhoenixWire/StreamClient.php:76-89 | the verdict on a C server hello is its status |
| StreamClient.HelloVerdictExactly | php/src/PhoenixWire/StreamClient.php:76-89 | the hello is accepted on exactly 42 bytes with the magic and status 0, and the exception otherwise is the right one |
| StreamClient.ConnectsExactly | php/src/PhoenixWire/StreamClient.php:76-107 | after a server hello and any frame, connect succeeds if and only if the status is 0 and the opcode is AUTH_OK; the exceptions name the other status and the other opcode |
| StreamClient.ConnectsOnExactly | php/src/PhoenixWire/StreamClient.php:76-107 | the bytes of a server on which connect succeeds, exactly |
| StreamClient.DeliveredExactly | php/src/PhoenixWire/StreamClient.php:126-133 | the payload of every text or binary frame that is sent is delivered whole, of another frame nothing; PING and CLOSE are answered by the bytes of an empty PONG and CLOSE |
| StreamClient.TextBytes | php/src/PhoenixWire/StreamClient.php:110-112 | the bytes of a text frame |
| StreamClient.ConnectBytes | php/src/PhoenixWire/StreamClient.php:64-97 | the bytes of the hello, and of the AUTH frame for tokens whose lengths take one byte |
| StreamClient.HelloAsCSeesIt | native/src/pw_handshake.c:64-89 | the C parser reads version 0 in the PHP hello, and a resume token exactly when byte 13 of the nonce is 1 |
| StreamClient.NeverConnects | php/src/PhoenixWire/StreamClient.php:62-108 | for every nonce the C server stays HANDSHAKING and connect ends with status 1002, or without an answer when byte 13 of the nonce is 1 |
| StreamClient.StreamClient.FRead | php/src/PhoenixWire/StreamClient.php:215-215 | some of the bytes that are here, in order and none lost; nothing only at the end of the stream, or when none is here and the stream does not block or has waited too long |
| StreamClient.StreamClient.FWrite | php/src/PhoenixWire/StreamClient.php:173-173 | a front part of the data goes behind all that was written: all of it on a blocking stream |
| StreamClient.StreamClient.ReadExact | php/src/PhoenixWire/StreamClient.php:212-222 | however fread cuts the bytes, exactly the next ones are returned, or an exception is thrown: on a stream that waits only after its end, on another one only if not all were here |
| StreamClient.StreamClient.ReadVarint | php/src/PhoenixWire/StreamClient.php:199-210 | the signed 64-bit reading of the group at the front, which alone is consumed, or an exception as above |
| StreamClient.StreamClient.ReadFrame | php/src/PhoenixWire/StreamClient.php:177-197 | the reference result on everything the peer sends, consuming exactly the frame; on a stream that does not wait an exception instead only if the frame was not all here |
| StreamClient.StreamClient.LengthBytes | php/src/PhoenixWire/StreamClient.php:162-169 | the do-while loop produces exactly the varint encoding, of any width |
| StreamClient.StreamClient.SendFrame | php/src/PhoenixWire/StreamClient.php:151-175 | the frame's bytes follow all that was written, on a stream that does not block perhaps only their front part; nothing is written without a stream |
| StreamClient.StreamClient.Connect | php/src/PhoenixWire/StreamClient.php:62-108 | result, bytes written and final state for everything a server can send, and the exception when a wait runs out |
| StreamClient.StreamClient.Send | php/src/PhoenixWire/StreamClient.php:110-112 | writes the data as one text frame, or its front part |
| StreamClient.StreamClient.Receive | php/src/PhoenixWire/StreamClient.php:114-140 | data is returned, PING answered with PONG, and a CLOSE, any failure, or after connect a frame that was not all here, ends the connection with one CLOSE; of an answer perhaps only the front part is written |
| StreamClient.StreamClient.Disconnect | php/src/PhoenixWire/StreamClient.php:142-149 | one CLOSE, or its front part, is written and the stream is gone; a second call changes nothing |

## Left out

- ServerLoop.Server.OnReadable: requires `Safe`: no wrong magic, and replies only into a window at offset 0 with room for them. The loop does not look at the parser's (size_t)-1 nor at the room: after a wrong magic the length is undefined, and an echo without room is written behind the buffer. `Exchange.AppendsAreSafe`, `ServerRoom.RoomExactly` and `Exchange.PipelinedAuthExactly` say where it is met; not modelled is what the loop does elsewhere.
- ServerLoop.Server.Pump: requires `Safe` for the same reason.
- ServerLoop.Server.HandleOne: requires no wrong magic, and offset 0 and room for a reply.
- ServerLoop.Server.OnClientHello: requires offset 0 and room for 42 bytes when a hello is whole; the source without room moves on and answers nothing.
- ServerLoop.Server.AnswerHello: requires offset 0 and room for 42 bytes.
- ServerLoop.Server.OnAuthentication: requires no wrong magic, and offset 0 and room for AUTH_OK.
- ServerLoop.Server.SendVerdict: requires offset 0 and room for AUTH_OK.
- ServerLoop.Server.OnReady: requires no wrong magic, and offset 0 and room for a reply.
- ServerLoop.Server.SendReply: requires offset 0 and room for a reply.
- ServerLoop.Server.Echo: requires offset 0 and room for the echo, which the source copies unchecked.
- ClientLoop.Client.OnReadable: requires `Safe` for the same reason; met in the exchange, not claimed against another server.
- ClientLoop.Client.Pump: requires `Safe` for the same reason.
- ClientLoop.Client.HandleOne: requires no wrong magic, and offset 0 and room for an answer.
- ClientLoop.Client.OnServerHello: requires offset 0 and room for the AUTH frame when a hello is whole.
- ClientLoop.Client.SendAuth: requires offset 0 and room for the AUTH frame.
- ClientLoop.Client.OnAuthentication: requires no wrong magic, and offset 0 and room for the data frame.
- ClientLoop.Client.OnReady: requires no wrong magic, and offset 0 and room for an answer.
- ClientLoop.Client.SendReply: requires offset 0 and room for an answer.
- Inbox.PeekFrame: requires no wrong magic, after which the source compares with an undefined length.
- Buffers.Transport.Commit: requires that the window ends inside the buffer; a longer one would be sent from behind it.
- Outbox.SendHeader: requires that the window ends inside the buffer, where the header is appended at all.
- Outbox.SendBytes: requires that the window ends inside the buffer.
- Exchange.RunsEnd: of the ways a loop ends early it has the end of the stream only; a failing poll, a reset connection and the signal a write to it may raise are not modelled. The client reads nothing of the server's CLOSE, so that message counts over one hop only.
- Drive.Run: the same.
- Auth.SerializeRequest: requires that what the 32-bit test lets through fits, for a token of 2^32-5 bytes or more; the source writes behind the buffer otherwise.
- Flow.ClosedForm: assumes additions that do not wrap; `Flow.ClosedFormExactly` shows that this is exactly when it holds throughout a run.
- Reconnect.ReconnectRuns: uses real arithmetic; floating-point rounding and overflow of the delay are not modelled. The attempt itself is an event, because its connect call is commented out in the source.
- Reconnect.AsyncClient.CalculateBackoff: real arithmetic for PHP's floats, so a delay beyond 64 bits is capped like any other, where PHP leaves the cast to int undefined.
- StreamClient.StreamClient.Receive: the bytes that are left on a stream after an exception are not described, as the connection is closed then.
- StreamClient.StreamClient.Connect: starts behind the socket; the random nonce is a parameter, and TLS and options are not modelled.
- Frame.ParseHeader: the payload pointer of the structure, always NULL there, is not modelled.
- Sockets, poll, accept, fcntl, errno and printing: a poll is a method call, and what the socket did is its parameter.
- What the loops do after a wrong magic: not defined by the source, see `Safe`. The codec keeps the case.
- The 128-byte buffers that only feed the log output: a longer payload does not fit them.
- NULL arguments and failed allocations.
- DRAINING and the other transitions no program requests: in the life cycle only.
- The PHP extension, Server.php, Session.php, Stats.php, Policy.php, Timeouts.php, ClientOptions.php and ClientFactory.php: glue, bookkeeping and constants that would only add easy members.
- pw_log.c and benchmarks.
