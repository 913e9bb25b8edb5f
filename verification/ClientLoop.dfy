/** The client's loop (client_main.c): hello, authentication, one data message, ping, close,
    each step waiting for the answer to the one before. */
module ClientLoop {
  import opened Bytes
  import opened Buffers
  import opened Connection
  import opened Dispatch
  import opened Frame
  import opened Handshake
  import opened Inbox
  import opened Outbox
  import opened Streams
  import Auth
  import ServerLoop

  /** The text of the data message; "Hello from client!" in the program. */
  type Text = s: seq<byte> | |s| < TWO_32

  const SECRET_TOKEN := ServerLoop.SECRET_TOKEN

  const HELLO := ClientHello(MAGIC_1, MAGIC_2, VERSION_1, CAP_AUTH_BEARER, ServerLoop.ZEROS, None)

  const PING_HEADER := Header(VERSION_1, FLAG_FIN, PING, 0, 0)
  const CLOSE_HEADER := Header(VERSION_1, FLAG_FIN, CLOSE, 0, 0)

  const AUTH_REQUEST := Auth.Request(Auth.METHOD_BEARER, SECRET_TOKEN)

  function AuthFrame(): Message { Auth.BearerFrame(SECRET_TOKEN) }

  function DataFrame(text: Text): Message {
    Parts(Header(VERSION_1, FLAG_FIN, DATA_TEXT, 1, |text|), text)
  }

  // ----- one message -----

  /** The server's status is not looked at. */
  function OnHello(w: seq<byte>): Outcome {
    match ParseServer(w)
    case None => NeedMore
    case Some(p) => Handled(Request(Handshaking, Authenticating), p.size, FrameBytes(AuthFrame()))
  }

  function OnAuthFrame(text: Text, r: Taken<Message>): Outcome {
    match r
    case NotYet => NeedMore
    case Broken => BadMagic
    case Took(f, n) =>
      if f.header.opcode == AUTH_OK then Handled(Request(Authenticating, Ready), n, FrameBytes(DataFrame(text)))
      else Handled(Authenticating, n, [])
  }

  function ReadyNext(f: Message): State {
    if f.header.opcode == PONG || f.header.opcode == CLOSE then Request(Ready, Closing) else Ready
  }

  /** A CLOSE from the server is not answered. */
  function ReadyReply(f: Message): seq<byte> {
    if f.header.opcode == DATA_TEXT then HeaderBytes(PING_HEADER)
    else if f.header.opcode == PONG then HeaderBytes(CLOSE_HEADER)
    else []
  }

  function OnReadyFrame(r: Taken<Message>): Outcome {
    match r
    case NotYet => NeedMore
    case Broken => BadMagic
    case Took(f, n) => Handled(ReadyNext(f), n, ReadyReply(f))
  }

  function Handle(text: Text, st: State, w: seq<byte>): Outcome {
    match st
    case Handshaking => OnHello(w)
    case Authenticating => OnAuthFrame(text, Take(w))
    case Ready => OnReadyFrame(Take(w))
    case _ => NeedMore
  }

  function HandlerFor(text: Text): Handler {
    (st, w) => Handle(text, st, w)
  }

  lemma HandleCut(text: Text, st: State, s: seq<byte>)
    requires Handle(text, st, s).Handled?
    ensures 0 < Handle(text, st, s).size <= |s|
    ensures Handle(text, st, s[..Handle(text, st, s).size]) == Handle(text, st, s)
  {
    if st == Handshaking {
    } else {
      TakeCut(s);
    }
  }

  lemma HandleExtend(text: Text, st: State, s: seq<byte>, t: seq<byte>)
    ensures Handle(text, st, s).Handled? ==> Handle(text, st, s + t) == Handle(text, st, s)
    ensures Handle(text, st, s).BadMagic? ==> Handle(text, st, s + t).BadMagic?
  {
    if st != Handshaking {
      TakeStable(s, t);
    }
  }

  lemma HandleStable(text: Text)
    ensures Stable(HandlerFor(text))
  {
    forall st, s: seq<byte> | HandlerFor(text)(st, s).Handled?
      ensures 0 < HandlerFor(text)(st, s).size <= |s|
              && HandlerFor(text)(st, s[..HandlerFor(text)(st, s).size]) == HandlerFor(text)(st, s)
    {
      HandleCut(text, st, s);
    }
    forall st, s: seq<byte>, t: seq<byte> | HandlerFor(text)(st, s).Handled?
      ensures HandlerFor(text)(st, s + t) == HandlerFor(text)(st, s)
    {
      HandleExtend(text, st, s, t);
    }
    forall st, s: seq<byte>, t: seq<byte> | HandlerFor(text)(st, s).BadMagic?
      ensures HandlerFor(text)(st, s + t).BadMagic?
    {
      HandleExtend(text, st, s, t);
    }
  }

  /** The whole-stream meaning of the client, after its hello. */
  function Run(text: Text, input: seq<byte>): Folded {
    Fold(HandlerFor(text), Handshaking, input)
  }

  // ----- the loop over its buffers -----

  class Client {
    const text: Text
    const transport: Transport
    const conn: Conn

    ghost predicate Shape()
      reads transport, transport.readBuffer, transport.writeBuffer
    {
      transport.Valid()
    }

    ghost function View(): Endpoint
      requires Shape()
      reads transport, transport.readBuffer, transport.writeBuffer, conn
    {
      Endpoint(conn.state, transport.Unread(), transport.writePos, transport.Unsent())
    }

    ghost predicate Valid()
      reads transport, transport.readBuffer, transport.writeBuffer, conn
    {
      && Shape()
      && Matches(HandlerFor(text), ClientHelloBytes(HELLO), transport.received, View(), transport.enqueued)
    }

    constructor (text: Text)
      ensures Valid() && this.text == text
      ensures fresh(transport) && fresh(transport.readBuffer) && fresh(transport.writeBuffer) && fresh(conn)
      ensures View() == Endpoint(Handshaking, [], 0, ClientHelloBytes(HELLO))
      ensures transport.received == [] && transport.sent == []
    {
      this.text := text;
      transport := new Transport();
      conn := new Conn();
      new;
      var _ := conn.Transition(Connecting);
      var _ := conn.Transition(Handshaking);
      ghost var before := transport.writeBuffer[..];
      var n := SerializeClientHello(HELLO, transport.writeBuffer, 0, BUFFER_SIZE);
      transport.Commit(n, ClientHelloBytes(HELLO), before);
    }

    method OnServerHello() returns (progress: bool)
      requires Shape() && conn.state == Handshaking
      requires OnHello(transport.Unread()).Handled? ==>
                 transport.writePos == 0 && transport.writeLen + |FrameBytes(AuthFrame())| <= BUFFER_SIZE
      modifies transport, transport.writeBuffer, conn
      ensures Shape() && transport.received == old(transport.received) && transport.sent == old(transport.sent)
      ensures progress == OnHello(old(transport.Unread())).Handled?
      ensures View() == Advance(old(View()), OnHello(old(transport.Unread())))
    {
      var p := ParseServerHello(transport.readBuffer, transport.readPos, transport.readLen);
      if p.None? {
        return false;
      }
      transport.Consume(p.value.size);
      var _ := conn.Transition(Authenticating);
      SendAuth();
      return true;
    }

    method SendAuth()
      requires Shape()
      requires transport.writePos == 0 && transport.writeLen + |FrameBytes(AuthFrame())| <= BUFFER_SIZE
      modifies transport`writeLen, transport`enqueued, transport.writeBuffer
      ensures Shape() && transport.Unread() == old(transport.Unread())
      ensures transport.Unsent() == old(transport.Unsent()) + FrameBytes(AuthFrame())
    {
      var payload := new byte[128];
      var n := Auth.SerializeRequest(AUTH_REQUEST, payload, 0, payload.Length);
      assert payload[..n] == Auth.RequestBytes(AUTH_REQUEST);
      SendFrame(Header(VERSION_1, FLAG_FIN, AUTH, 0, n), payload[..n]);
    }

    /** The header, then the payload. */
    method SendFrame(h: Header, payload: seq<byte>)
      requires Shape() && |payload| == h.length
      requires transport.writePos == 0 && transport.writeLen + |FrameBytes(Parts(h, payload))| <= BUFFER_SIZE
      modifies transport`writeLen, transport`enqueued, transport.writeBuffer
      ensures Shape() && transport.Unread() == old(transport.Unread())
      ensures transport.Unsent() == old(transport.Unsent()) + FrameBytes(Parts(h, payload))
    {
      ghost var was := transport.Unsent();
      SendHeader(transport, h);
      SendBytes(transport, payload);
      Assoc(was, HeaderBytes(h), payload);
    }

    method OnAuthentication() returns (progress: bool)
      requires Shape() && conn.state == Authenticating
      requires var o := OnAuthFrame(text, Take(transport.Unread()));
               && !o.BadMagic?
               && (o.Handled? && o.reply != [] ==>
                     transport.writePos == 0 && transport.writeLen + |o.reply| <= BUFFER_SIZE)
      modifies transport, transport.writeBuffer, conn
      ensures Shape() && transport.received == old(transport.received) && transport.sent == old(transport.sent)
      ensures progress == OnAuthFrame(text, Take(old(transport.Unread()))).Handled?
      ensures View() == Advance(old(View()), OnAuthFrame(text, Take(old(transport.Unread()))))
    {
      var found, frame, parsed := PeekFrame(transport);
      if !found {
        return false;
      }
      AnswerAuth(frame, parsed, Take(transport.Unread()).item);
      return true;
    }

    method AnswerAuth(frame: Header, parsed: nat, ghost f: Message)
      requires Shape() && conn.state == Authenticating
      requires parsed + frame.length <= transport.readLen && f.header == frame
      requires frame.opcode == AUTH_OK ==>
                 transport.writePos == 0 && transport.writeLen + |FrameBytes(DataFrame(text))| <= BUFFER_SIZE
      modifies transport, transport.writeBuffer, conn
      ensures Shape() && transport.received == old(transport.received) && transport.sent == old(transport.sent)
      ensures View() == Advance(old(View()), OnAuthFrame(text, Took(f, parsed + frame.length)))
    {
      NilLeft(transport.Unsent());
      if frame.opcode == AUTH_OK {
        var _ := conn.Transition(Ready);
        SendFrame(Header(VERSION_1, FLAG_FIN, DATA_TEXT, 1, |text|), text);
      }
      transport.Consume(parsed + frame.length);
    }

    method OnReady() returns (progress: bool)
      requires Shape() && conn.state == Ready
      requires var o := OnReadyFrame(Take(transport.Unread()));
               && !o.BadMagic?
               && (o.Handled? && o.reply != [] ==>
                     transport.writePos == 0 && transport.writeLen + |o.reply| <= BUFFER_SIZE)
      modifies transport, transport.writeBuffer, conn
      ensures Shape() && transport.received == old(transport.received) && transport.sent == old(transport.sent)
      ensures progress == OnReadyFrame(Take(old(transport.Unread()))).Handled?
      ensures View() == Advance(old(View()), OnReadyFrame(Take(old(transport.Unread()))))
    {
      var found, frame, parsed := PeekFrame(transport);
      if !found {
        return false;
      }
      AnswerFrame(frame, parsed, Take(transport.Unread()).item);
      return true;
    }

    method AnswerFrame(frame: Header, parsed: nat, ghost f: Message)
      requires Shape() && conn.state == Ready
      requires parsed + frame.length <= transport.readLen && f.header == frame
      requires ReadyReply(f) != [] ==>
                 transport.writePos == 0 && transport.writeLen + |ReadyReply(f)| <= BUFFER_SIZE
      modifies transport, transport.writeBuffer, conn
      ensures Shape() && transport.received == old(transport.received) && transport.sent == old(transport.sent)
      ensures View() == Advance(old(View()), OnReadyFrame(Took(f, parsed + frame.length)))
    {
      SendReply(frame, f);
      transport.Consume(parsed + frame.length);
    }

    method SendReply(frame: Header, ghost f: Message)
      requires Shape() && conn.state == Ready && f.header == frame
      requires ReadyReply(f) != [] ==>
                 transport.writePos == 0 && transport.writeLen + |ReadyReply(f)| <= BUFFER_SIZE
      modifies transport`writeLen, transport`enqueued, transport.writeBuffer, conn
      ensures Shape() && transport.Unread() == old(transport.Unread())
      ensures transport.Unsent() == old(transport.Unsent()) + ReadyReply(f)
      ensures conn.state == ReadyNext(f)
    {
      NilLeft(transport.Unsent());
      if frame.opcode == DATA_TEXT {
        SendHeader(transport, PING_HEADER);
      } else if frame.opcode == PONG {
        SendHeader(transport, CLOSE_HEADER);
        var _ := conn.Transition(Closing);
      } else if frame.opcode == CLOSE {
        var _ := conn.Transition(Closing);
      }
    }

    /** One turn of the inner loop: false where the source breaks out of it. */
    method HandleOne() returns (progress: bool)
      requires Shape() && transport.readLen > 0
      requires !Handle(text, conn.state, transport.Unread()).BadMagic?
      requires var o := Handle(text, conn.state, transport.Unread());
               o.Handled? && o.reply != [] ==>
                 transport.writePos == 0 && transport.writeLen + |o.reply| <= BUFFER_SIZE
      modifies transport, transport.writeBuffer, conn
      ensures Shape() && transport.received == old(transport.received) && transport.sent == old(transport.sent)
      ensures progress == Handle(text, old(conn.state), old(transport.Unread())).Handled?
      ensures View() == Advance(old(View()), Handle(text, old(conn.state), old(transport.Unread())))
    {
      if conn.state == Handshaking {
        progress := OnServerHello();
      } else if conn.state == Authenticating {
        progress := OnAuthentication();
      } else if conn.state == Ready {
        progress := OnReady();
      } else {
        progress := false;
      }
    }

    /** The inner loop: `while (transport.read_len > 0)`. */
    method Pump()
      requires Shape() && Safe(HandlerFor(text), View(), [], BUFFER_SIZE)
      modifies transport, transport.writeBuffer, conn
      ensures Shape() && transport.received == old(transport.received) && transport.sent == old(transport.sent)
      ensures View() == Receive(HandlerFor(text), old(View()), [])
    {
      ghost var h := HandlerFor(text);
      while transport.readLen > 0
        invariant Shape() && transport.received == old(transport.received) && transport.sent == old(transport.sent)
        invariant Receive(h, View(), []) == Receive(h, old(View()), [])
        invariant Safe(h, View(), [], BUFFER_SIZE)
        decreases transport.readLen
      {
        ghost var e := View();
        var prevReadLen := transport.readLen;
        NilLeft(e.inbox);
        if h(e.state, e.inbox).Handled? {
          HandleCut(text, e.state, e.inbox);
          AdvanceKeeps(h, e, BUFFER_SIZE);
        }
        var progress := HandleOne();
        if !progress || transport.readLen == prevReadLen {
          break;
        }
      }
      AdvanceEnds(h, View());
    }

    /** POLLIN: read, then run the loop. `again` is errno == EAGAIN or EWOULDBLOCK after a
        read that gave nothing; without it such a read ends the connection. */
    method OnReadable(pending: seq<byte>, socket: Socket, again: bool) returns (alive: bool)
      requires Valid() && conn.state != Closed
      requires socket.Moved? ==> socket.count <= |pending|
      requires Safe(HandlerFor(text), View(), Arriving(pending, socket, transport.readLen), BUFFER_SIZE)
      modifies transport, transport.readBuffer, transport.writeBuffer, conn
      ensures Valid() && transport.sent == old(transport.sent)
      ensures transport.received == old(transport.received) + Arriving(pending, socket, old(transport.readLen))
      ensures alive <==> Arriving(pending, socket, old(transport.readLen)) != [] || again
      ensures View() == Receive(HandlerFor(text), old(View()), Arriving(pending, socket, old(transport.readLen)))
    {
      ghost var h, first := HandlerFor(text), ClientHelloBytes(HELLO);
      ghost var chunk, e := Arriving(pending, socket, transport.readLen), View();
      HandleStable(text);
      MatchesReceive(h, first, transport.received, e, transport.sent, chunk);
      ReceiveInTwo(h, e, chunk, BUFFER_SIZE);
      if chunk == [] {
        ReceiveNothing(h, first, transport.received, e, transport.enqueued);
        NilLeft(transport.received);
        NilLeft(e.inbox);
      }
      var n := transport.Read(pending, socket);
      assert View() == e.(inbox := e.inbox + chunk);
      if n <= 0 && !again {
        return false;
      }
      Pump();
      return true;
    }

    /** POLLOUT, polled only while something is unsent. */
    method OnWritable(socket: Socket) returns (n: int)
      requires Valid() && conn.state != Closed
      requires socket.Moved? ==> socket.count <= transport.writeLen
      modifies transport`writePos, transport`writeLen, transport`sent, conn
      ensures Valid() && transport.received == old(transport.received)
      ensures transport.sent == old(transport.sent) + old(transport.Unsent())[..Leaving(socket)]
      ensures View() == Flush(old(View()), Leaving(socket))
    {
      ghost var e := View();
      MatchesFlush(HandlerFor(text), ClientHelloBytes(HELLO), transport.received, e, transport.enqueued, Leaving(socket));
      NilLeft(transport.sent);
      n := transport.Write(socket);
      if conn.state == Closing && transport.writeLen == 0 {
        var _ := conn.Transition(Closed);
      }
    }
  }

  /** A window that is full after dispatch stays as it is: nothing arrives any more, whatever
      the socket does, and a readable poll of it changes nothing. Its read returns 0, so that
      the poll ends the connection unless errno still says EAGAIN (`alive` of OnReadable). */
  lemma FullWindowStays(c: Client, pending: seq<byte>, socket: Socket)
    requires c.Valid() && c.conn.state != Closed && c.transport.readLen == BUFFER_SIZE
    requires socket.Moved? ==> socket.count <= |pending|
    ensures Arriving(pending, socket, c.transport.readLen) == []
    ensures Receive(HandlerFor(c.text), c.View(), []) == c.View()
    ensures Clean(HandlerFor(c.text), c.conn.state, c.transport.Unread()) ==> Safe(HandlerFor(c.text), c.View(), [], BUFFER_SIZE)
  {
    ReceiveNothing(HandlerFor(c.text), ClientHelloBytes(HELLO), c.transport.received, c.View(), c.transport.enqueued);
    if Clean(HandlerFor(c.text), c.conn.state, c.transport.Unread()) {
      SafeNothing(HandlerFor(c.text), ClientHelloBytes(HELLO), c.transport.received, c.View(), c.transport.enqueued, BUFFER_SIZE);
    }
  }
}
