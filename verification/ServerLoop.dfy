/** The server's per-connection loop (server_main.c), started in Handshaking. */
module ServerLoop {
  import opened Bytes
  import opened Connection
  import opened Dispatch
  import opened Frame
  import opened Handshake
  import opened Inbox
  import opened Outbox
  import opened Streams
  import opened Buffers
  import Auth

  /** "secret_token" */
  const SECRET_TOKEN: seq<byte> :=
    [0x73, 0x65, 0x63, 0x72, 0x65, 0x74, 0x5F, 0x74, 0x6F, 0x6B, 0x65, 0x6E]

  const ERR_PROTOCOL: u16 := 1002

  const ZEROS: Block := [0, 0, 0, 0, 0, 0, 0, 0, 0, 0, 0, 0, 0, 0, 0, 0]

  // ----- what the server answers -----

  function HelloReply(c: ClientHello): ServerHello {
    if c.version != VERSION_1 then
      ServerHello(MAGIC_1, MAGIC_2, VERSION_1, c.capabilities, ZEROS, ZEROS, ERR_PROTOCOL, false)
    else
      ServerHello(MAGIC_1, MAGIC_2, VERSION_1, c.capabilities, ZEROS, ZEROS, 0,
                  c.resume.Some? && c.resume.value[0] != 0x99)
  }

  const AUTH_OK_HEADER := Header(VERSION_1, FLAG_FIN, AUTH_OK, 0, 0)
  const CLOSE_HEADER := Header(VERSION_1, FLAG_FIN, CLOSE, 0, 0)

  function PongHeader(ping: Header): Header {
    Header(VERSION_1, FLAG_FIN, PONG, ping.streamId, 0)
  }

  /** Is this an AUTH frame with the expected token? */
  predicate GoodAuth(f: Message) {
    f.header.opcode == AUTH && Auth.Authenticates(f.payload, SECRET_TOKEN)
  }

  /** What a ready server sends back for a frame. */
  function FrameReply(f: Message): seq<byte> {
    if f.header.opcode == DATA_BINARY || f.header.opcode == DATA_TEXT then FrameBytes(f)
    else if f.header.opcode == PING then HeaderBytes(PongHeader(f.header))
    else if f.header.opcode == CLOSE then HeaderBytes(CLOSE_HEADER)
    else []
  }

  // ----- one message -----

  function OnHello(w: seq<byte>): Outcome {
    match ParseClient(w)
    case None => NeedMore
    case Some(p) =>
      // A refused version asks for Closing, which Handshaking does not allow.
      var wanted := if p.hello.version != VERSION_1 then Closing else Authenticating;
      Handled(Request(Handshaking, wanted), p.size, ServerHelloBytes(HelloReply(p.hello)))
  }

  predicate RefusedAuth(f: Message) {
    f.header.opcode == AUTH && Auth.ParseRequest(f.payload).Some? && !GoodAuth(f)
  }

  /** A wrong token asks for Closing, which Authenticating does not allow. */
  function AuthNext(f: Message): State {
    if GoodAuth(f) then Request(Authenticating, Ready)
    else if RefusedAuth(f) then Request(Authenticating, Closing)
    else Authenticating
  }

  function AuthReply(f: Message): seq<byte> {
    if GoodAuth(f) then HeaderBytes(AUTH_OK_HEADER) else []
  }

  function OnAuthFrame(r: Taken<Message>): Outcome {
    match r
    case NotYet => NeedMore
    case Broken => BadMagic
    case Took(f, n) => Handled(AuthNext(f), n, AuthReply(f))
  }

  function OnReadyFrame(r: Taken<Message>): Outcome {
    match r
    case NotYet => NeedMore
    case Broken => BadMagic
    case Took(f, n) =>
      Handled(if f.header.opcode == CLOSE then Request(Ready, Closing) else Ready, n, FrameReply(f))
  }

  function Handle(st: State, w: seq<byte>): Outcome {
    match st
    case Handshaking => OnHello(w)
    case Authenticating => OnAuthFrame(Take(w))
    case Ready => OnReadyFrame(Take(w))
    case _ => NeedMore
  }

  lemma HandleCut(st: State, s: seq<byte>)
    requires Handle(st, s).Handled?
    ensures 0 < Handle(st, s).size <= |s|
    ensures Handle(st, s[..Handle(st, s).size]) == Handle(st, s)
  {
    if st == Handshaking {
      ClientCut(s, ParseClient(s).value.size);
    } else {
      TakeCut(s);
    }
  }

  lemma HandleExtend(st: State, s: seq<byte>, t: seq<byte>)
    ensures Handle(st, s).Handled? ==> Handle(st, s + t) == Handle(st, s)
    ensures Handle(st, s).BadMagic? ==> Handle(st, s + t).BadMagic?
  {
    if st == Handshaking {
      if ParseClient(s).Some? {
        ClientExtend(s, t);
      }
    } else {
      TakeStable(s, t);
    }
  }

  lemma HandleStable()
    ensures Stable(Handle)
  {
    forall st, s: seq<byte> | Handle(st, s).Handled?
      ensures 0 < Handle(st, s).size <= |s| && Handle(st, s[..Handle(st, s).size]) == Handle(st, s)
    {
      HandleCut(st, s);
    }
    forall st, s: seq<byte>, t: seq<byte> | Handle(st, s).Handled? ensures Handle(st, s + t) == Handle(st, s) {
      HandleExtend(st, s, t);
    }
    forall st, s: seq<byte>, t: seq<byte> | Handle(st, s).BadMagic? ensures Handle(st, s + t).BadMagic? {
      HandleExtend(st, s, t);
    }
  }

  function ReadyNext(f: Message): State {
    if f.header.opcode == CLOSE then Closing else Ready
  }

  /** A ready server handles a frame that is all there. */
  lemma ReadyTurn(f: Message)
    ensures Turns(Handle, Ready, FrameBytes(f), ReadyNext(f), FrameReply(f))
  {
    TakeWhole(f);
    ReadyOutcome(f, |FrameBytes(f)|);
    assert Handle(Ready, FrameBytes(f)) == OnReadyFrame(Take(FrameBytes(f)));
  }

  lemma ReadyOutcome(f: Message, n: nat)
    ensures OnReadyFrame(Took(f, n)) == Handled(ReadyNext(f), n, FrameReply(f))
  {
  }

  /** The whole-stream meaning of the server: state, unread bytes and everything sent back. */
  function Run(input: seq<byte>): Folded {
    Fold(Handle, Handshaking, input)
  }

  // ----- the loop over its buffers -----

  class Server {
    const transport: Transport
    const conn: Conn

    ghost predicate Shape()
      reads transport, transport.readBuffer, transport.writeBuffer
    {
      transport.Valid()
    }

    ghost function View(): Endpoint
      requires Shape()
      reads transport, transport.readBuffer, transport.writeBuffer, conn
    {
      Endpoint(conn.state, transport.Unread(), transport.writePos, transport.Unsent())
    }

    ghost predicate Valid()
      reads transport, transport.readBuffer, transport.writeBuffer, conn
    {
      Shape() && Matches(Handle, [], transport.received, View(), transport.enqueued)
    }

    constructor ()
      ensures Valid() && fresh(transport) && fresh(transport.readBuffer) && fresh(transport.writeBuffer) && fresh(conn)
      ensures View() == Endpoint(Handshaking, [], 0, []) && transport.received == [] && transport.sent == []
    {
      transport := new Transport();
      conn := new Conn();
      new;
      var _ := conn.Transition(Connecting);
      var _ := conn.Transition(Handshaking);
    }

    method OnClientHello() returns (progress: bool)
      requires Shape() && conn.state == Handshaking
      requires OnHello(transport.Unread()).Handled? ==>
                 transport.writePos == 0 && transport.writeLen + SERVER_HELLO_SIZE <= BUFFER_SIZE
      modifies transport, transport.writeBuffer, conn
      ensures Shape() && transport.received == old(transport.received) && transport.sent == old(transport.sent)
      ensures progress == OnHello(old(transport.Unread())).Handled?
      ensures View() == Advance(old(View()), OnHello(old(transport.Unread())))
    {
      var p := ParseClientHello(transport.readBuffer, transport.readPos, transport.readLen);
      if p.None? {
        return false;
      }
      transport.Consume(p.value.size);
      AnswerHello(p.value.hello);
      return true;
    }

    method AnswerHello(hello: ClientHello)
      requires Shape() && conn.state == Handshaking
      requires transport.writePos == 0 && transport.writeLen + SERVER_HELLO_SIZE <= BUFFER_SIZE
      modifies transport`writeLen, transport`enqueued, transport.writeBuffer, conn
      ensures Shape()
      ensures conn.state == if hello.version == VERSION_1 then Authenticating else Handshaking
      ensures transport.Unread() == old(transport.Unread())
      ensures transport.Unsent() == old(transport.Unsent()) + ServerHelloBytes(HelloReply(hello))
    {
      var status, resumeAccepted := 0, hello.resume.Some? && hello.resume.value[0] != 0x99;
      if hello.version != VERSION_1 {
        status := ERR_PROTOCOL;
        resumeAccepted := false;
        var _ := conn.Transition(Closing);
      } else {
        var _ := conn.Transition(Authenticating);
      }
      var reply := ServerHello(MAGIC_1, MAGIC_2, VERSION_1, hello.capabilities, ZEROS, ZEROS, status, resumeAccepted);
      ghost var before := transport.writeBuffer[..];
      var n := SerializeServerHello(reply, transport.writeBuffer, transport.writeLen, BUFFER_SIZE - transport.writeLen);
      transport.Commit(n, ServerHelloBytes(reply), before);
    }

    method OnAuthentication() returns (progress: bool)
      requires Shape() && conn.state == Authenticating
      requires var o := OnAuthFrame(Take(transport.Unread()));
               && !o.BadMagic?
               && (o.Handled? && o.reply != [] ==>
                     transport.writePos == 0 && transport.writeLen + |o.reply| <= BUFFER_SIZE)
      modifies transport, transport.writeBuffer, conn
      ensures Shape() && transport.received == old(transport.received) && transport.sent == old(transport.sent)
      ensures progress == OnAuthFrame(Take(old(transport.Unread()))).Handled?
      ensures View() == Advance(old(View()), OnAuthFrame(Take(old(transport.Unread()))))
    {
      var found, frame, parsed := PeekFrame(transport);
      if !found {
        return false;
      }
      AnswerAuth(frame, parsed, Take(transport.Unread()).item);
      return true;
    }

    method AnswerAuth(frame: Header, parsed: nat, ghost f: Message)
      requires Shape() && conn.state == Authenticating
      requires parsed + frame.length <= transport.readLen
      requires f.header == frame
      requires f.payload == transport.readBuffer[transport.readPos + parsed..transport.readPos + parsed + frame.length]
      requires AuthReply(f) != [] ==>
                 transport.writePos == 0 && transport.writeLen + |AuthReply(f)| <= BUFFER_SIZE
      modifies transport, transport.writeBuffer, conn
      ensures Shape() && transport.received == old(transport.received) && transport.sent == old(transport.sent)
      ensures View() == Advance(old(View()), OnAuthFrame(Took(f, parsed + frame.length)))
    {
      SendVerdict(frame, parsed, f);
      transport.Consume(parsed + frame.length);
    }

    method SendVerdict(frame: Header, parsed: nat, ghost f: Message)
      requires Shape() && conn.state == Authenticating
      requires parsed + frame.length <= transport.readLen
      requires f.header == frame
      requires f.payload == transport.readBuffer[transport.readPos + parsed..transport.readPos + parsed + frame.length]
      requires AuthReply(f) != [] ==>
                 transport.writePos == 0 && transport.writeLen + |AuthReply(f)| <= BUFFER_SIZE
      modifies transport`writeLen, transport`enqueued, transport.writeBuffer, conn
      ensures Shape() && transport.Unread() == old(transport.Unread())
      ensures transport.Unsent() == old(transport.Unsent()) + AuthReply(f)
      ensures conn.state == AuthNext(f)
    {
      NilLeft(transport.Unsent());
      if frame.opcode == AUTH {
        var accepted, refused := CheckAuth(frame, parsed, f);
        if accepted {
          var _ := conn.Transition(Ready);
          SendHeader(transport, AUTH_OK_HEADER);
        } else if refused {
          var _ := conn.Transition(Closing);
        }
      }
    }

    method CheckAuth(frame: Header, parsed: nat, ghost f: Message) returns (accepted: bool, refused: bool)
      requires Shape() && frame.opcode == AUTH && parsed + frame.length <= transport.readLen
      requires f.header == frame
      requires f.payload == transport.readBuffer[transport.readPos + parsed..transport.readPos + parsed + frame.length]
      ensures accepted == GoodAuth(f)
      ensures refused == RefusedAuth(f)
    {
      var req := Auth.ParseRequestAt(transport.readBuffer, transport.readPos + parsed, frame.length);
      accepted := req.Some? && Auth.ValidBearer(req.value.request, SECRET_TOKEN);
      refused := req.Some? && !accepted;
    }

    method OnReady() returns (progress: bool)
      requires Shape() && conn.state == Ready
      requires var o := OnReadyFrame(Take(transport.Unread()));
               && !o.BadMagic?
               && (o.Handled? && o.reply != [] ==>
                     transport.writePos == 0 && transport.writeLen + |o.reply| <= BUFFER_SIZE)
      modifies transport, transport.writeBuffer, conn
      ensures Shape() && transport.received == old(transport.received) && transport.sent == old(transport.sent)
      ensures progress == OnReadyFrame(Take(old(transport.Unread()))).Handled?
      ensures View() == Advance(old(View()), OnReadyFrame(Take(old(transport.Unread()))))
    {
      var found, frame, parsed := PeekFrame(transport);
      if !found {
        return false;
      }
      AnswerFrame(frame, parsed, Take(transport.Unread()).item);
      return true;
    }

    method AnswerFrame(frame: Header, parsed: nat, ghost f: Message)
      requires Shape() && conn.state == Ready
      requires parsed + frame.length <= transport.readLen
      requires f.header == frame
      requires f.payload == transport.readBuffer[transport.readPos + parsed..transport.readPos + parsed + frame.length]
      requires FrameReply(f) != [] ==>
                 transport.writePos == 0 && transport.writeLen + |FrameReply(f)| <= BUFFER_SIZE
      modifies transport, transport.writeBuffer, conn
      ensures Shape() && transport.received == old(transport.received) && transport.sent == old(transport.sent)
      ensures View() == Advance(old(View()), OnReadyFrame(Took(f, parsed + frame.length)))
    {
      SendReply(frame, parsed, f);
      transport.Consume(parsed + frame.length);
    }

    method SendReply(frame: Header, parsed: nat, ghost f: Message)
      requires Shape() && conn.state == Ready
      requires parsed + frame.length <= transport.readLen
      requires f.header == frame
      requires f.payload == transport.readBuffer[transport.readPos + parsed..transport.readPos + parsed + frame.length]
      requires FrameReply(f) != [] ==>
                 transport.writePos == 0 && transport.writeLen + |FrameReply(f)| <= BUFFER_SIZE
      modifies transport`writeLen, transport`enqueued, transport.writeBuffer, conn
      ensures Shape() && transport.Unread() == old(transport.Unread())
      ensures transport.Unsent() == old(transport.Unsent()) + FrameReply(f)
      ensures conn.state == if frame.opcode == CLOSE then Closing else Ready
    {
      NilLeft(transport.Unsent());
      if frame.opcode == DATA_BINARY || frame.opcode == DATA_TEXT {
        Echo(frame, parsed, f);
      } else if frame.opcode == PING {
        SendHeader(transport, PongHeader(frame));
      } else if frame.opcode == CLOSE {
        SendHeader(transport, CLOSE_HEADER);
        var _ := conn.Transition(Closing);
      }
    }

    /** The header goes out re-encoded, then the payload straight from the read buffer. */
    method Echo(frame: Header, parsed: nat, ghost f: Message)
      requires Shape() && parsed + frame.length <= transport.readLen
      requires f.header == frame
      requires f.payload == transport.readBuffer[transport.readPos + parsed..transport.readPos + parsed + frame.length]
      requires transport.writePos == 0 && transport.writeLen + |FrameBytes(f)| <= BUFFER_SIZE
      modifies transport`writeLen, transport`enqueued, transport.writeBuffer
      ensures Shape() && transport.Unread() == old(transport.Unread())
      ensures transport.Unsent() == old(transport.Unsent()) + FrameBytes(f)
    {
      ghost var was := transport.Unsent();
      SendHeader(transport, frame);
      var payload := transport.readBuffer[transport.readPos + parsed..transport.readPos + parsed + frame.length];
      SendBytes(transport, payload);
      Assoc(was, HeaderBytes(frame), payload);
    }

    /** One turn of the inner loop: false where the source breaks out of it. */
    method HandleOne() returns (progress: bool)
      requires Shape() && transport.readLen > 0
      requires !Handle(conn.state, transport.Unread()).BadMagic?
      requires var o := Handle(conn.state, transport.Unread());
               o.Handled? && o.reply != [] ==>
                 transport.writePos == 0 && transport.writeLen + |o.reply| <= BUFFER_SIZE
      modifies transport, transport.writeBuffer, conn
      ensures Shape() && transport.received == old(transport.received) && transport.sent == old(transport.sent)
      ensures progress == Handle(old(conn.state), old(transport.Unread())).Handled?
      ensures View() == Advance(old(View()), Handle(old(conn.state), old(transport.Unread())))
    {
      if conn.state == Handshaking {
        progress := OnClientHello();
      } else if conn.state == Authenticating {
        progress := OnAuthentication();
      } else if conn.state == Ready {
        progress := OnReady();
      } else {
        progress := false;
      }
    }

    /** The inner loop: `while (transport.read_len > 0)`. */
    method Pump()
      requires Shape() && Safe(Handle, View(), [], BUFFER_SIZE)
      modifies transport, transport.writeBuffer, conn
      ensures Shape() && transport.received == old(transport.received) && transport.sent == old(transport.sent)
      ensures View() == Receive(Handle, old(View()), [])
    {
      while transport.readLen > 0
        invariant Shape() && transport.received == old(transport.received) && transport.sent == old(transport.sent)
        invariant Receive(Handle, View(), []) == Receive(Handle, old(View()), [])
        invariant Safe(Handle, View(), [], BUFFER_SIZE)
        decreases transport.readLen
      {
        ghost var e := View();
        var prevReadLen := transport.readLen;
        NilLeft(e.inbox);
        if Handle(e.state, e.inbox).Handled? {
          HandleCut(e.state, e.inbox);
          AdvanceKeeps(Handle, e, BUFFER_SIZE);
        }
        var progress := HandleOne();
        if !progress || transport.readLen == prevReadLen {
          break;
        }
      }
      AdvanceEnds(Handle, View());
    }

    /** POLLIN: read, then run the loop. `again` is errno == EAGAIN or EWOULDBLOCK after a
        read that gave nothing; without it such a read ends the connection. */
    method OnReadable(pending: seq<byte>, socket: Socket, again: bool) returns (alive: bool)
      requires Valid() && conn.state != Closed
      requires socket.Moved? ==> socket.count <= |pending|
      requires Safe(Handle, View(), Arriving(pending, socket, transport.readLen), BUFFER_SIZE)
      modifies transport, transport.readBuffer, transport.writeBuffer, conn
      ensures Valid() && transport.sent == old(transport.sent)
      ensures transport.received == old(transport.received) + Arriving(pending, socket, old(transport.readLen))
      ensures alive <==> Arriving(pending, socket, old(transport.readLen)) != [] || again
      ensures View() == Receive(Handle, old(View()), Arriving(pending, socket, old(transport.readLen)))
    {
      ghost var chunk, e := Arriving(pending, socket, transport.readLen), View();
      HandleStable();
      MatchesReceive(Handle, [], transport.received, e, transport.sent, chunk);
      ReceiveInTwo(Handle, e, chunk, BUFFER_SIZE);
      if chunk == [] {
        ReceiveNothing(Handle, [], transport.received, e, transport.enqueued);
        NilLeft(transport.received);
        NilLeft(e.inbox);
      }
      var n := transport.Read(pending, socket);
      assert View() == e.(inbox := e.inbox + chunk);
      if n <= 0 && !again {
        return false;
      }
      Pump();
      return true;
    }

    /** POLLOUT, polled only while something is unsent. */
    method OnWritable(socket: Socket) returns (n: int)
      requires Valid() && conn.state != Closed
      requires socket.Moved? ==> socket.count <= transport.writeLen
      modifies transport`writePos, transport`writeLen, transport`sent, conn
      ensures Valid() && transport.received == old(transport.received)
      ensures transport.sent == old(transport.sent) + old(transport.Unsent())[..Leaving(socket)]
      ensures View() == Flush(old(View()), Leaving(socket))
    {
      ghost var e := View();
      MatchesFlush(Handle, [], transport.received, e, transport.enqueued, Leaving(socket));
      NilLeft(transport.sent);
      n := transport.Write(socket);
      if conn.state == Closing && transport.writeLen == 0 {
        var _ := conn.Transition(Closed);
      }
    }
  }

  /** A window that is full after dispatch stays as it is: nothing arrives any more, whatever
      the socket does, and a readable poll of it changes nothing. Its read returns 0, so that
      the poll ends the connection unless errno still says EAGAIN (`alive` of OnReadable). */
  lemma FullWindowStays(s: Server, pending: seq<byte>, socket: Socket)
    requires s.Valid() && s.conn.state != Closed && s.transport.readLen == BUFFER_SIZE
    requires socket.Moved? ==> socket.count <= |pending|
    ensures Arriving(pending, socket, s.transport.readLen) == []
    ensures Receive(Handle, s.View(), []) == s.View()
    ensures Clean(Handle, s.conn.state, s.transport.Unread()) ==> Safe(Handle, s.View(), [], BUFFER_SIZE)
  {
    ReceiveNothing(Handle, [], s.transport.received, s.View(), s.transport.enqueued);
    if Clean(Handle, s.conn.state, s.transport.Unread()) {
      SafeNothing(Handle, [], s.transport.received, s.View(), s.transport.enqueued, BUFFER_SIZE);
    }
  }
}
