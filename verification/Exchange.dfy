/** The two programs together, over reliable byte channels, for every text that fits into a
    buffer and every interleaving and split of their reads and writes. */
module Exchange {
  import opened Bytes
  import opened Connection
  import opened Dispatch
  import opened Frame
  import opened Handshake
  import opened LockStep
  import opened Streams
  import Buffers
  import C = ClientLoop
  import S = ServerLoop
  import T = ServerTrace
  import Varint

  type Text = C.Text

  const ROOM := Buffers.BUFFER_SIZE

  predicate TextFits(text: Text) {
    |FrameBytes(C.DataFrame(text))| <= ROOM
  }

  // ----- the ten messages -----

  /** Message p; even ones go to the server, odd ones to the client. */
  function Msg(text: Text, p: nat): seq<byte> {
    if p == 0 then ClientHelloBytes(C.HELLO)
    else if p == 1 then ServerHelloBytes(S.HelloReply(C.HELLO))
    else if p == 2 then FrameBytes(C.AuthFrame())
    else if p == 3 then HeaderBytes(S.AUTH_OK_HEADER)
    else if p == 4 || p == 5 then FrameBytes(C.DataFrame(text))
    else if p == 6 then HeaderBytes(C.PING_HEADER)
    else if p == 7 then HeaderBytes(S.PongHeader(C.PING_HEADER))
    else if p == 8 then HeaderBytes(C.CLOSE_HEADER)
    else HeaderBytes(S.CLOSE_HEADER)
  }

  /** The state of the client while message p is on its way. */
  function ClientAt(p: nat): State {
    if p < 2 then Handshaking else if p < 4 then Authenticating else if p < 8 then Ready else Closing
  }

  function ServerAt(p: nat): State {
    if p < 1 then Handshaking else if p < 3 then Authenticating else if p < 9 then Ready else Closing
  }

  lemma ServerTurnHello()
    ensures Turns(S.Handle, Handshaking, ClientHelloBytes(C.HELLO), Authenticating, ServerHelloBytes(S.HelloReply(C.HELLO)))
  {
    ClientRoundTrip(C.HELLO, []);
    NilLeft(ClientHelloBytes(C.HELLO));
    NormaliseOnce(C.HELLO);
  }

  lemma GoodAuthOutcome(f: Message, n: nat)
    requires S.GoodAuth(f)
    ensures S.OnAuthFrame(Took(f, n)) == Handled(Ready, n, HeaderBytes(S.AUTH_OK_HEADER))
  {
  }

  lemma ServerTurnAuth(f: Message)
    requires S.GoodAuth(f)
    ensures Turns(S.Handle, Authenticating, FrameBytes(f), Ready, HeaderBytes(S.AUTH_OK_HEADER))
  {
    TakeWhole(f);
    GoodAuthOutcome(f, |FrameBytes(f)|);
    assert S.Handle(Authenticating, FrameBytes(f)) == S.OnAuthFrame(Take(FrameBytes(f)));
  }

  lemma AuthFrameIsGood()
    ensures S.GoodAuth(C.AuthFrame())
  {
    T.GoodAuthExactly(C.AuthFrame());
  }

  lemma ServerTurnHeader(h: Header)
    requires h == C.PING_HEADER || h == C.CLOSE_HEADER
    ensures Turns(S.Handle, Ready, HeaderBytes(h), if h.opcode == CLOSE then Closing else Ready,
                  if h.opcode == CLOSE then HeaderBytes(S.CLOSE_HEADER) else HeaderBytes(S.PongHeader(h)))
  {
    NilLeft(HeaderBytes(h));
    S.ReadyTurn(Parts(h, []));
  }

  /** The server answers message p with message p + 1. */
  lemma ServerTurn(text: Text, p: nat)
    requires p in {0, 2, 4, 6, 8}
    ensures Turns(S.Handle, ServerAt(p), Msg(text, p), ServerAt(p + 1), Msg(text, p + 1))
  {
    if p == 0 {
      ServerTurnHello();
    } else if p == 2 {
      AuthFrameIsGood();
      ServerTurnAuth(C.AuthFrame());
    } else if p == 4 {
      S.ReadyTurn(C.DataFrame(text));
    } else if p == 6 {
      ServerTurnHeader(C.PING_HEADER);
    } else {
      ServerTurnHeader(C.CLOSE_HEADER);
    }
  }

  lemma ClientTurnFrame(text: Text, st: State, f: Message)
    requires (st == Authenticating && f.header.opcode == AUTH_OK) || (st == Ready && f.header.opcode in {DATA_TEXT, PONG})
    ensures Turns(C.HandlerFor(text), st, FrameBytes(f),
                  if st == Authenticating then Ready else C.ReadyNext(f),
                  if st == Authenticating then FrameBytes(C.DataFrame(text)) else C.ReadyReply(f))
  {
    TakeWhole(f);
  }

  lemma ClientTurnHeader(text: Text, h: Header)
    requires h == S.AUTH_OK_HEADER || h == S.PongHeader(C.PING_HEADER)
    ensures h == S.AUTH_OK_HEADER ==>
              Turns(C.HandlerFor(text), Authenticating, HeaderBytes(h), Ready, FrameBytes(C.DataFrame(text)))
    ensures h == S.PongHeader(C.PING_HEADER) ==>
              Turns(C.HandlerFor(text), Ready, HeaderBytes(h), Closing, HeaderBytes(C.CLOSE_HEADER))
  {
    NilLeft(HeaderBytes(h));
    ClientTurnFrame(text, if h == S.AUTH_OK_HEADER then Authenticating else Ready, Parts(h, []));
  }

  lemma ClientTurnHello(text: Text)
    ensures Turns(C.HandlerFor(text), Handshaking, ServerHelloBytes(S.HelloReply(C.HELLO)), Authenticating, FrameBytes(C.AuthFrame()))
  {
  }

  /** The client answers message p with message p + 1. */
  lemma ClientTurn(text: Text, p: nat)
    requires p in {1, 3, 5, 7}
    ensures Turns(C.HandlerFor(text), ClientAt(p), Msg(text, p), ClientAt(p + 1), Msg(text, p + 1))
  {
    if p == 1 {
      ClientTurnHello(text);
    } else if p == 3 {
      ClientTurnHeader(text, S.AUTH_OK_HEADER);
    } else if p == 5 {
      ClientTurnFrame(text, Ready, C.DataFrame(text));
    } else {
      ClientTurnHeader(text, S.PongHeader(C.PING_HEADER));
    }
  }

  lemma MsgSizes(text: Text, p: nat)
    requires TextFits(text) && p <= LAST
    ensures 0 < |Msg(text, p)| <= ROOM
  {
    HeaderSizeBound(S.AUTH_OK_HEADER);
    HeaderSizeBound(C.PING_HEADER);
    HeaderSizeBound(S.PongHeader(C.PING_HEADER));
    HeaderSizeBound(C.CLOSE_HEADER);
    HeaderSizeBound(C.AuthFrame().header);
  }

  function ThisScript(text: Text): Script {
    Script(C.HandlerFor(text), S.Handle, ROOM, p => Msg(text, p), ClientAt, ServerAt)
  }

  lemma AnsweredBy(text: Text, p: nat)
    requires p < LAST
    ensures Answered(ThisScript(text), p) && Waits(ThisScript(text), p)
  {
    if p % 2 == 0 {
      ServerTurn(text, p);
    } else {
      ClientTurn(text, p);
    }
  }

  /** The two programs follow the script, for every text that fits. */
  lemma ProgramsFollowScript(text: Text)
    requires TextFits(text)
    ensures Coherent(ThisScript(text))
  {
    var sc := ThisScript(text);
    S.HandleStable();
    C.HandleStable(text);
    forall p: nat | p < LAST ensures Answered(sc, p) && Waits(sc, p) {
      AnsweredBy(text, p);
    }
    forall p: nat | p <= LAST ensures Closes(sc, p) && 0 < |sc.msg(p)| <= sc.room {
      MsgSizes(text, p);
    }
  }

  // ----- main results -----

  ghost predicate Reached(text: Text, acts: seq<Action>) {
    TextFits(text) && Possible(ThisScript(text), Init(ThisScript(text)), acts)
  }

  function End(text: Text, acts: seq<Action>): World
    requires Possible(ThisScript(text), Init(ThisScript(text)), acts)
  {
    After(ThisScript(text), Init(ThisScript(text)), acts)
  }

  /** Lock step: in every reachable world, a read finds its reader's write buffer empty, at
      write_pos = write_len = 0, with room for the reply and no wrong magic: the hypotheses
      of both loops are always met, so every append of the two programs is FIFO-correct. */
  lemma AppendsAreSafe(text: Text, acts: seq<Action>, k: nat)
    requires Reached(text, acts)
    ensures var w := End(text, acts);
            && (Enabled(ThisScript(text), w, ServerReads(k)) ==>
                  Safe(S.Handle, w.server, w.toServer[..k], ROOM) && w.server.outbox == [] && w.server.pos == 0)
            && (Enabled(ThisScript(text), w, ClientReads(k)) ==>
                  Safe(C.HandlerFor(text), w.client, w.toClient[..k], ROOM) && w.client.outbox == [] && w.client.pos == 0)
  {
    var sc, w := ThisScript(text), End(text, acts);
    ProgramsFollowScript(text);
    var p := Reachable(sc, acts);
    if Enabled(sc, w, ServerReads(k)) {
      var _ := StepServerReads(sc, w, p, k);
    }
    if Enabled(sc, w, ClientReads(k)) {
      var _ := StepClientReads(sc, w, p, k);
    }
  }

  /** Causality: a ready client has a server that has passed authentication, and everything
      that server ever heard is a grammatical trace, with a valid AUTH frame in it. */
  lemma ReadyImpliesAuthenticated(text: Text, acts: seq<Action>)
    requires Reached(text, acts) && End(text, acts).client.state == Ready
    ensures End(text, acts).server.state in {Ready, Closing, Closed}
    ensures exists t, rest :: T.Explains(t, rest, End(text, acts).heard)
  {
    ProgramsFollowScript(text);
    var p := Reachable(ThisScript(text), acts);
    AuthenticatedServer(ThisScript(text), End(text, acts), p);
    T.ReadyExactly(End(text, acts).heard);
  }

  lemma AuthenticatedServer(sc: Script, w: World, p: nat)
    requires Coherent(sc) && Inv(sc, w, p) && sc.clientAt == ClientAt && sc.serverAt == ServerAt
    requires w.client.state == Ready
    ensures w.server.state in {Ready, Closing, Closed}
    ensures Fold(sc.server, Handshaking, w.heard).state in {Ready, Closing}
  {
  }

  /** Progress: until the client is closed, and the server closed or gone, some byte can be
      moved; in particular until the client is closed. */
  lemma NeverStuck(text: Text, acts: seq<Action>)
    requires Reached(text, acts) && !Over(End(text, acts))
    ensures exists a :: Productive(ThisScript(text), End(text, acts), a) && Carried(a) > 0
  {
    ProgramsFollowScript(text);
    var p := Reachable(ThisScript(text), acts);
    var a := SomeStep(ThisScript(text), End(text, acts), p);
  }

  /** Termination: no run moves more than Total bytes, or takes more steps than that and one,
      idle polls aside. It cannot go on if and only if the client is closed and the server
      closed or gone. Then all messages but the last have arrived, and the server is closed
      if and only if it has sent all of the last, which is when Total bytes were moved. */
  lemma RunsEnd(text: Text, acts: seq<Action>)
    requires Reached(text, acts)
    ensures var w, total := End(text, acts), Total(ThisScript(text));
            && Moved(acts) <= total && Steps(acts) <= total + 1
            && (Moved(acts) == total <==> Done(w))
            && (Over(w) <==> forall a :: !Productive(ThisScript(text), w, a))
            && (Over(w) ==>
                  && w.toServer == [] && w.toClient + w.server.outbox == Msg(text, LAST)
                  && (w.server.outbox == [] <==> w.server.state == Closed)
                  && (w.left <==> w.server.state == Closing))
  {
    var sc, w := ThisScript(text), End(text, acts);
    ProgramsFollowScript(text);
    var p := Reachable(sc, acts);
    StepsMove(sc, Init(sc), acts);
    DoneExactly(sc, w, p);
    OverExactly(sc, w, p);
  }

  /** Both ends happen: there is a run after which both sides are closed, and one in which
      the server finds the client gone before it has sent any of its CLOSE, and leaves. */
  lemma EndsReached(text: Text)
    requires TextFits(text)
    ensures exists acts :: Reached(text, acts) && Done(End(text, acts))
    ensures exists acts :: Reached(text, acts) && End(text, acts).left && End(text, acts).server.outbox == Msg(text, LAST)
  {
    ProgramsFollowScript(text);
    var closed, gone := BothEndsHappen(ThisScript(text));
    assert Reached(text, closed) && Reached(text, gone);
    assert Done(End(text, closed));
    assert End(text, gone).left && End(text, gone).server.outbox == Msg(text, LAST);
  }

  // ----- a client that does not wait -----

  /** The server after a hello, when k bytes of its answer have been sent. */
  function HelloAnswered(k: nat): Endpoint
    requires k <= |Receive(S.Handle, Endpoint(Handshaking, [], 0, []), ClientHelloBytes(C.HELLO)).outbox|
  {
    Flush(Receive(S.Handle, Endpoint(Handshaking, [], 0, []), ClientHelloBytes(C.HELLO)), k)
  }

  lemma HelloReceived()
    ensures Receive(S.Handle, Endpoint(Handshaking, [], 0, []), ClientHelloBytes(C.HELLO))
            == Endpoint(Authenticating, [], 0, ServerHelloBytes(S.HelloReply(C.HELLO)))
  {
    S.HandleStable();
    ServerTurnHello();
    NilLeft(ClientHelloBytes(C.HELLO));
    NilLeft(ServerHelloBytes(S.HelloReply(C.HELLO)));
    FoldSegment(S.Handle, Handshaking, ClientHelloBytes(C.HELLO), Authenticating, ServerHelloBytes(S.HelloReply(C.HELLO)), []);
  }

  /** A client that sends its AUTH frame without waiting for the answer to its hello meets
      the hypotheses of the server's loop if and only if that answer is all unsent or all
      sent when the frame is read: a partial send puts the append at a wrong offset. */
  lemma PipelinedAuthExactly(k: nat)
    requires k <= SERVER_HELLO_SIZE
    ensures |Receive(S.Handle, Endpoint(Handshaking, [], 0, []), ClientHelloBytes(C.HELLO)).outbox| == SERVER_HELLO_SIZE
    ensures HelloAnswered(k).pos == if k == SERVER_HELLO_SIZE then 0 else k
    ensures Safe(S.Handle, HelloAnswered(k), FrameBytes(C.AuthFrame()), ROOM) <==> k == 0 || k == SERVER_HELLO_SIZE
  {
    HelloReceived();
    S.HandleStable();
    AuthFrameIsGood();
    ServerTurnAuth(C.AuthFrame());
    HeaderSizeBound(S.AUTH_OK_HEADER);
    SafeTurn(S.Handle, HelloAnswered(k), FrameBytes(C.AuthFrame()), Ready, HeaderBytes(S.AUTH_OK_HEADER), ROOM);
  }

  /** What the append then does, in any buffer: with one byte of the hello answer sent, the
      client is to read a 0 where AUTH_OK has its opcode. */
  lemma PartialAnswerCorrupts(buffer: seq<byte>)
    requires |buffer| == ROOM
    ensures var len := SERVER_HELLO_SIZE - 1;
            var ok := HeaderBytes(S.AUTH_OK_HEADER);
            && |ok| == 7 && ok[4] == AUTH_OK
            && Buffers.AppendedWindow(buffer, 1, len, ok)[len + 4] == 0
  {
    var ok, len := HeaderBytes(S.AUTH_OK_HEADER), SERVER_HELLO_SIZE - 1;
    AuthOkBytes();
    var after := Splice(buffer, len, ok);
    assert after[len + 5] == ok[5];
  }

  lemma AuthOkBytes()
    ensures HeaderBytes(S.AUTH_OK_HEADER) == [MAGIC_1, MAGIC_2, VERSION_1, FLAG_FIN, AUTH_OK, 0, 0]
  {
    assert Varint.Encode(0) == [0];
  }
}
