/** How a closing side gets closed: both poll loops look at CLOSING only after a write, and
    poll for writing only while something is unsent. */
module CloseDown {
  import opened Bytes
  import opened Connection
  import opened Dispatch
  import opened Frame
  import C = ClientLoop
  import S = ServerLoop

  /** One poll of one side: a chunk arrives, or the socket takes k bytes. */
  datatype Poll = Readable(chunk: seq<byte>) | Writable(k: nat)

  /** POLLOUT is only asked for while something is unsent. */
  predicate Offered(e: Endpoint, p: Poll) {
    e.state != Closed && (p.Writable? ==> e.outbox != [] && p.k <= |e.outbox|)
  }

  function Polled(h: Handler, e: Endpoint, p: Poll): Endpoint
    requires Offered(e, p)
  {
    match p
    case Readable(chunk) => Receive(h, e, chunk)
    case Writable(k) => Flush(e, k)
  }

  ghost predicate LeadTo(h: Handler, e: Endpoint, polls: seq<Poll>, end: State)
    decreases |polls|
  {
    if polls == [] then e.state == end
    else Offered(e, polls[0]) && LeadTo(h, Polled(h, e, polls[0]), polls[1..], end)
  }

  ghost predicate CanClose(h: Handler, e: Endpoint) {
    exists polls :: LeadTo(h, e, polls, Closed)
  }

  /** A closing side handles no messages. */
  ghost predicate DeafWhenClosing(h: Handler) {
    forall s: seq<byte> :: h(Closing, s) == NeedMore
  }

  lemma {:induction false} EmptyStays(h: Handler, e: Endpoint, polls: seq<Poll>)
    requires DeafWhenClosing(h) && e.state == Closing && e.outbox == []
    ensures !LeadTo(h, e, polls, Closed)
    decreases |polls|
  {
    if polls != [] && Offered(e, polls[0]) {
      EmptyStays(h, Polled(h, e, polls[0]), polls[1..]);
    }
  }

  /** A closing side can still close, by some reads and writes, if and only if something is
      unsent; otherwise it stays in Closing whatever arrives. */
  lemma ClosesExactly(h: Handler, e: Endpoint)
    requires DeafWhenClosing(h) && e.state == Closing
    ensures CanClose(h, e) <==> e.outbox != []
  {
    if e.outbox != [] {
      var polls := [Writable(|e.outbox|)];
      assert LeadTo(h, Flush(e, |e.outbox|), polls[1..], Closed);
      assert LeadTo(h, e, polls, Closed);
    }
    forall polls | e.outbox == [] ensures !LeadTo(h, e, polls, Closed) {
      EmptyStays(h, e, polls);
    }
  }

  lemma ReceiveOne(h: Handler, e: Endpoint, seg: seq<byte>, reply: seq<byte>)
    requires Stable(h) && DeafWhenClosing(h)
    requires e.inbox == [] && Turns(h, e.state, seg, Closing, reply)
    ensures Receive(h, e, seg) == Endpoint(Closing, [], e.pos, e.outbox + reply)
  {
    NilLeft(seg);
    NilLeft(reply);
    FoldSegment(h, e.state, seg, Closing, reply, []);
  }

  lemma ClientTurn(text: C.Text, f: Message)
    requires f.header.opcode == CLOSE
    ensures Turns(C.HandlerFor(text), Ready, FrameBytes(f), Closing, [])
  {
    TakeWhole(f);
  }

  lemma ServerTurn(f: Message)
    requires f.header.opcode == CLOSE
    ensures Turns(S.Handle, Ready, FrameBytes(f), Closing, HeaderBytes(S.CLOSE_HEADER))
  {
    S.ReadyTurn(f);
  }

  /** A side that goes from READY to CLOSING with this reply can close if and only if it
      has something unsent then. */
  lemma TurnThenClose(h: Handler, e: Endpoint, seg: seq<byte>, reply: seq<byte>)
    requires Stable(h) && DeafWhenClosing(h)
    requires e.inbox == [] && Turns(h, e.state, seg, Closing, reply)
    ensures CanClose(h, Receive(h, e, seg)) <==> e.outbox + reply != []
  {
    ReceiveOne(h, e, seg, reply);
    ClosesExactly(h, Receive(h, e, seg));
  }

  /** A client that is told to close by the server answers nothing, so it gets closed if
      and only if something was unsent before. */
  lemma ClientToldToClose(text: C.Text, e: Endpoint, f: Message)
    requires e.state == Ready && e.inbox == [] && f.header.opcode == CLOSE
    ensures CanClose(C.HandlerFor(text), Receive(C.HandlerFor(text), e, FrameBytes(f))) <==> e.outbox != []
  {
    C.HandleStable(text);
    ClientTurn(text, f);
    TurnThenClose(C.HandlerFor(text), e, FrameBytes(f), []);
    NilLeft(e.outbox);
  }

  /** A server that is told to close answers with a CLOSE, so it can always close. */
  lemma ServerToldToClose(e: Endpoint, f: Message)
    requires e.state == Ready && e.inbox == [] && f.header.opcode == CLOSE
    ensures CanClose(S.Handle, Receive(S.Handle, e, FrameBytes(f)))
  {
    S.HandleStable();
    ServerTurn(f);
    TurnThenClose(S.Handle, e, FrameBytes(f), HeaderBytes(S.CLOSE_HEADER));
    assert |HeaderBytes(S.CLOSE_HEADER)| >= 7;
  }
}
