/** Two message handlers that talk in lock step over reliable byte channels: in every
    interleaving and split of their reads and writes exactly one message is on its way. */
module LockStep {
  import opened Bytes
  import opened Connection
  import opened Dispatch

  const LAST := 9

  /** Message p answers message p - 1; even ones go to the server. `clientAt(p)` and
      `serverAt(p)` are the states of the two sides while message p is on its way. */
  datatype Script = Script(
    client: Handler, server: Handler, room: nat,
    msg: nat -> seq<byte>, clientAt: nat -> State, serverAt: nat -> State)

  /** The receiver of message p answers it with message p + 1. */
  ghost predicate Answered(sc: Script, p: nat) {
    if p % 2 == 0 then Turns(sc.server, sc.serverAt(p), sc.msg(p), sc.serverAt(p + 1), sc.msg(p + 1))
    else Turns(sc.client, sc.clientAt(p), sc.msg(p), sc.clientAt(p + 1), sc.msg(p + 1))
  }

  /** The side that does not receive message p stays in its state. */
  ghost predicate Waits(sc: Script, p: nat) {
    if p % 2 == 0 then sc.clientAt(p + 1) == sc.clientAt(p) || p == 8
    else sc.serverAt(p + 1) == sc.serverAt(p)
  }

  /** The client asks for the close with message 8, the server confirms it with message 9. */
  ghost predicate Closes(sc: Script, p: nat) {
    && (sc.clientAt(p) == Closing <==> p >= 8) && sc.clientAt(p) != Closed
    && (sc.serverAt(p) == Closing <==> p >= 9) && sc.serverAt(p) != Closed
  }

  ghost predicate Coherent(sc: Script) {
    && Stable(sc.client) && Stable(sc.server)
    && (forall p: nat | p < LAST :: Answered(sc, p) && Waits(sc, p))
    && (forall p: nat | p <= LAST :: Closes(sc, p) && 0 < |sc.msg(p)| <= sc.room)
    && sc.serverAt(0) == Handshaking
  }

  /** `heard` is everything the server ever received; `left` says that the server has left
      its loop at the end of the stream. */
  datatype World = World(
    client: Endpoint, toServer: seq<byte>, server: Endpoint, toClient: seq<byte>, heard: seq<byte>, left: bool)

  /** A poll that moves k bytes, or one that moves nothing; or the poll in which the server
      finds the end of the stream, as the client has closed its socket. */
  datatype Action =
    | ClientSends(k: nat) | ServerReads(k: nat) | ServerSends(k: nat) | ClientReads(k: nat)
    | ClientIdles | ServerIdles | ServerLeaves

  function Carried(a: Action): nat {
    if a.ClientIdles? || a.ServerIdles? || a.ServerLeaves? then 0 else a.k
  }

  function Init(sc: Script): World {
    World(Endpoint(sc.clientAt(0), [], 0, sc.msg(0)), [], Endpoint(Handshaking, [], 0, []), [], [], false)
  }

  predicate ServerRuns(w: World) { w.server.state != Closed && !w.left }

  /** A closed side does nothing, and a read needs space. */
  predicate Enabled(sc: Script, w: World, a: Action) {
    match a
    case ClientSends(k) => k > 0 && w.client.state != Closed && k <= |w.client.outbox|
    case ServerReads(k) => k > 0 && ServerRuns(w) && k <= |w.toServer| && |w.server.inbox| + k <= sc.room
    case ServerSends(k) => k > 0 && ServerRuns(w) && k <= |w.server.outbox|
    case ClientReads(k) => k > 0 && w.client.state != Closed && k <= |w.toClient| && |w.client.inbox| + k <= sc.room
    case ClientIdles => w.client.state != Closed
    case ServerIdles => ServerRuns(w)
    case ServerLeaves => ServerRuns(w) && w.client.state == Closed && w.toServer == []
  }

  /** A step after which the world is another one. */
  predicate Productive(sc: Script, w: World, a: Action) {
    Enabled(sc, w, a) && !a.ClientIdles? && !a.ServerIdles?
  }

  function Next(sc: Script, w: World, a: Action): World
    requires Enabled(sc, w, a)
  {
    match a
    case ClientSends(k) =>
      w.(client := Flush(w.client, k), toServer := w.toServer + w.client.outbox[..k])
    case ServerReads(k) =>
      w.(server := Receive(sc.server, w.server, w.toServer[..k]), toServer := w.toServer[k..],
         heard := w.heard + w.toServer[..k])
    case ServerSends(k) =>
      w.(server := Flush(w.server, k), toClient := w.toClient + w.server.outbox[..k])
    case ClientReads(k) =>
      w.(client := Receive(sc.client, w.client, w.toClient[..k]), toClient := w.toClient[k..])
    case ClientIdles => w
    case ServerIdles => w
    case ServerLeaves => w.(left := true)
  }

  /** A sequence of steps, each enabled at its turn. */
  predicate Possible(sc: Script, w: World, acts: seq<Action>)
    decreases |acts|
  {
    acts == [] || (Enabled(sc, w, acts[0]) && Possible(sc, Next(sc, w, acts[0]), acts[1..]))
  }

  function After(sc: Script, w: World, acts: seq<Action>): World
    requires Possible(sc, w, acts)
    decreases |acts|
  {
    if acts == [] then w else After(sc, Next(sc, w, acts[0]), acts[1..])
  }

  function Moved(acts: seq<Action>): nat {
    if acts == [] then 0 else Carried(acts[0]) + Moved(acts[1..])
  }

  /** How many steps of the sequence are not idle. */
  function Steps(acts: seq<Action>): nat {
    if acts == [] then 0
    else (if acts[0].ClientIdles? || acts[0].ServerIdles? then 0 else 1) + Steps(acts[1..])
  }

  // ----- one message on its way -----

  /** Unread, in flight and unsent bytes together are exactly the message; the receiver has
      nothing to send and nothing travels back. */
  ghost predicate Outstanding(sender: Endpoint, wire: seq<byte>, receiver: Endpoint, back: seq<byte>, msg: seq<byte>) {
    && receiver.inbox + wire + sender.outbox == msg
    && |receiver.inbox| < |msg|
    && receiver.outbox == [] && receiver.pos == 0
    && back == [] && sender.inbox == []
    && (sender.outbox == [] ==> sender.pos == 0)
  }

  lemma SendKeeps(sender: Endpoint, wire: seq<byte>, receiver: Endpoint, back: seq<byte>, msg: seq<byte>, k: nat)
    requires Outstanding(sender, wire, receiver, back, msg) && k <= |sender.outbox|
    ensures Outstanding(Flush(sender, k), wire + sender.outbox[..k], receiver, back, msg)
  {
    Split(sender.outbox, k);
    Assoc(receiver.inbox, wire, sender.outbox[..k]);
    Assoc(receiver.inbox + wire, sender.outbox[..k], sender.outbox[k..]);
  }

  /** Reading k bytes either leaves the message unfinished or finishes it, and then the
      reply is on its way, alone, in the other direction. */
  ghost predicate ReadBy(sender: Endpoint, wire: seq<byte>, receiver: Endpoint, back: seq<byte>,
                         msg: seq<byte>, next: State, reply: seq<byte>, k: nat, r: Endpoint)
    requires k <= |wire|
  {
    if |receiver.inbox| + k < |msg| then
      r.state == receiver.state && Outstanding(sender, wire[k..], r, back, msg)
    else
      r.state == next && wire[k..] == [] && sender.outbox == [] && r.outbox == reply
      && |receiver.inbox| + k == |msg|
      && Outstanding(r, back, sender, wire[k..], reply)
  }

  lemma ReadKeeps(h: Handler, sender: Endpoint, wire: seq<byte>, receiver: Endpoint, back: seq<byte>,
                  msg: seq<byte>, next: State, reply: seq<byte>, room: nat, k: nat)
    requires Outstanding(sender, wire, receiver, back, msg) && 0 < k <= |wire|
    requires Stable(h) && Turns(h, receiver.state, msg, next, reply)
    requires 0 < |reply| <= room
    ensures Safe(h, receiver, wire[..k], room)
    ensures ReadBy(sender, wire, receiver, back, msg, next, reply, k, Receive(h, receiver, wire[..k]))
  {
    var got := receiver.inbox + wire[..k];
    Split(wire, k);
    Assoc(receiver.inbox, wire[..k], wire[k..]);
    Assoc(got, wire[k..], sender.outbox);
    assert msg == got + (wire[k..] + sender.outbox);
    NilLeft(reply);
    NilLeft(msg);
    if |got| < |msg| {
      HandledExactly(h, receiver.state, msg, |got|);
      TakeExtend(got, wire[k..] + sender.outbox, |got|);
      assert got[..|got|] == got;
    } else {
      NilLeft(got);
      FoldSegment(h, receiver.state, msg, next, reply, []);
    }
  }

  // ----- the invariant -----

  ghost predicate OnItsWay(sc: Script, w: World, p: nat) {
    if p % 2 == 0 then Outstanding(w.client, w.toServer, w.server, w.toClient, sc.msg(p))
    else Outstanding(w.server, w.toClient, w.client, w.toServer, sc.msg(p))
  }

  ghost predicate StatesAt(sc: Script, w: World, p: nat) {
    && w.client.state == (if p == 9 || (p == 8 && w.client.outbox == []) then Closed else sc.clientAt(p))
    && w.server.state == (if p == 9 && w.server.outbox == [] then Closed else sc.serverAt(p))
    && (p == 9 ==> w.client.inbox == [])
  }

  /** The server is where its whole input leads it. */
  ghost predicate Heard(sc: Script, w: World) {
    var f := Fold(sc.server, Handshaking, w.heard);
    && f.rest == w.server.inbox
    && (w.server.state == f.state || (w.server.state == Closed && f.state == Closing))
  }

  /** The server leaves with its last message unsent, or not at all. */
  ghost predicate Inv(sc: Script, w: World, p: nat) {
    && p <= LAST && OnItsWay(sc, w, p) && StatesAt(sc, w, p) && Heard(sc, w)
    && (w.left ==> p == LAST && w.server.outbox != [])
  }

  /** What is left to move after message p: every byte over two hops, but the last message,
      which a closed client never reads, over one. */
  function Left(sc: Script, p: nat): nat
    decreases LAST - p
  {
    if p >= LAST then 0 else if p == 8 then |sc.msg(9)| else 2 * |sc.msg(p + 1)| + Left(sc, p + 1)
  }

  function Potential(sc: Script, w: World, p: nat): nat {
    if p == LAST then |w.server.outbox|
    else if p % 2 == 0 then 2 * |w.client.outbox| + |w.toServer| + Left(sc, p)
    else 2 * |w.server.outbox| + |w.toClient| + Left(sc, p)
  }

  function Total(sc: Script): nat { 2 * |sc.msg(0)| + Left(sc, 0) }

  lemma InitInv(sc: Script)
    requires Coherent(sc)
    ensures Inv(sc, Init(sc), 0) && Potential(sc, Init(sc), 0) == Total(sc)
  {
    assert Closes(sc, 0);
    NilLeft(sc.msg(0));
    assert Fold(sc.server, Handshaking, []) == Folded(Handshaking, [], []);
  }

  lemma StepClientSends(sc: Script, w: World, p: nat, k: nat)
    requires Coherent(sc) && Inv(sc, w, p) && Enabled(sc, w, ClientSends(k))
    ensures var v := Next(sc, w, ClientSends(k));
            Inv(sc, v, p) && Potential(sc, w, p) == Potential(sc, v, p) + k
  {
    assert Closes(sc, p);
    assert p % 2 == 0;
    SendKeeps(w.client, w.toServer, w.server, w.toClient, sc.msg(p), k);
  }

  lemma StepServerSends(sc: Script, w: World, p: nat, k: nat)
    requires Coherent(sc) && Inv(sc, w, p) && Enabled(sc, w, ServerSends(k))
    ensures var v := Next(sc, w, ServerSends(k));
            Inv(sc, v, p) && Potential(sc, w, p) == Potential(sc, v, p) + k
  {
    assert Closes(sc, p);
    assert p % 2 == 1;
    SendKeeps(w.server, w.toClient, w.client, w.toServer, sc.msg(p), k);
  }

  lemma HeardMore(sc: Script, w: World, chunk: seq<byte>)
    requires Stable(sc.server) && Heard(sc, w) && w.server.state != Closed
    ensures var r := Receive(sc.server, w.server, chunk);
            var f := Fold(sc.server, Handshaking, w.heard + chunk);
            f.rest == r.inbox && f.state == r.state
  {
    FoldConcat(sc.server, Handshaking, w.heard, chunk);
  }

  lemma ServerReadsMessage(sc: Script, w: World, p: nat, k: nat, r: Endpoint, v: World) returns (q: nat)
    requires p % 2 == 0 && p < LAST && OnItsWay(sc, w, p) && StatesAt(sc, w, p) && 0 < k <= |w.toServer|
    requires Waits(sc, p) && Closes(sc, p) && Closes(sc, p + 1)
    requires ReadBy(w.client, w.toServer, w.server, w.toClient, sc.msg(p), sc.serverAt(p + 1), sc.msg(p + 1), k, r)
    requires v.client == w.client && v.server == r && v.toServer == w.toServer[k..] && v.toClient == w.toClient
    ensures p <= q <= p + 1 && OnItsWay(sc, v, q) && StatesAt(sc, v, q)
    ensures Potential(sc, w, p) == Potential(sc, v, q) + k
  {
    q := if |w.server.inbox| + k < |sc.msg(p)| then p else p + 1;
  }

  lemma ClientReadsMessage(sc: Script, w: World, p: nat, k: nat, r: Endpoint, v: World) returns (q: nat)
    requires p % 2 == 1 && p < LAST && OnItsWay(sc, w, p) && StatesAt(sc, w, p) && 0 < k <= |w.toClient|
    requires Waits(sc, p) && Closes(sc, p) && Closes(sc, p + 1)
    requires ReadBy(w.server, w.toClient, w.client, w.toServer, sc.msg(p), sc.clientAt(p + 1), sc.msg(p + 1), k, r)
    requires v.server == w.server && v.client == r && v.toClient == w.toClient[k..] && v.toServer == w.toServer
    ensures p <= q <= p + 1 && OnItsWay(sc, v, q) && StatesAt(sc, v, q)
    ensures Potential(sc, w, p) == Potential(sc, v, q) + k
  {
    q := if |w.client.inbox| + k < |sc.msg(p)| then p else p + 1;
  }

  lemma StepServerReads(sc: Script, w: World, p: nat, k: nat) returns (q: nat)
    requires Coherent(sc) && Inv(sc, w, p) && Enabled(sc, w, ServerReads(k))
    ensures Safe(sc.server, w.server, w.toServer[..k], sc.room)
    ensures w.server.outbox == [] && w.server.pos == 0
    ensures var v := Next(sc, w, ServerReads(k));
            p <= q <= p + 1 && Inv(sc, v, q) && Potential(sc, w, p) == Potential(sc, v, q) + k
  {
    assert p % 2 == 0 && p < LAST;
    assert Answered(sc, p) && Waits(sc, p) && Closes(sc, p) && Closes(sc, p + 1);
    ReadKeeps(sc.server, w.client, w.toServer, w.server, w.toClient, sc.msg(p), sc.serverAt(p + 1), sc.msg(p + 1), sc.room, k);
    HeardMore(sc, w, w.toServer[..k]);
    var v := Next(sc, w, ServerReads(k));
    q := ServerReadsMessage(sc, w, p, k, v.server, v);
  }

  lemma StepClientReads(sc: Script, w: World, p: nat, k: nat) returns (q: nat)
    requires Coherent(sc) && Inv(sc, w, p) && Enabled(sc, w, ClientReads(k))
    ensures Safe(sc.client, w.client, w.toClient[..k], sc.room)
    ensures w.client.outbox == [] && w.client.pos == 0
    ensures var v := Next(sc, w, ClientReads(k));
            p <= q <= p + 1 && Inv(sc, v, q) && Potential(sc, w, p) == Potential(sc, v, q) + k
  {
    assert p % 2 == 1 && p < LAST;
    assert Answered(sc, p) && Waits(sc, p) && Closes(sc, p) && Closes(sc, p + 1);
    ReadKeeps(sc.client, w.server, w.toClient, w.client, w.toServer, sc.msg(p), sc.clientAt(p + 1), sc.msg(p + 1), sc.room, k);
    var v := Next(sc, w, ClientReads(k));
    q := ClientReadsMessage(sc, w, p, k, v.client, v);
  }

  lemma StepServerLeaves(sc: Script, w: World, p: nat)
    requires Coherent(sc) && Inv(sc, w, p) && Enabled(sc, w, ServerLeaves)
    ensures p == LAST && w.server.outbox != []
    ensures var v := Next(sc, w, ServerLeaves);
            Inv(sc, v, p) && Potential(sc, w, p) == Potential(sc, v, p)
  {
    assert Closes(sc, p);
  }

  /** Every step keeps the invariant, stays with its message or goes on to the next, and
      lowers the potential by exactly the bytes it moves. */
  lemma Step(sc: Script, w: World, p: nat, a: Action) returns (q: nat)
    requires Coherent(sc) && Inv(sc, w, p) && Enabled(sc, w, a)
    ensures Inv(sc, Next(sc, w, a), q) && p <= q <= p + 1
    ensures Potential(sc, w, p) == Potential(sc, Next(sc, w, a), q) + Carried(a)
  {
    match a
    case ClientSends(k) => q := p; StepClientSends(sc, w, p, k);
    case ServerReads(k) => q := StepServerReads(sc, w, p, k);
    case ServerSends(k) => q := p; StepServerSends(sc, w, p, k);
    case ClientReads(k) => q := StepClientReads(sc, w, p, k);
    case ServerLeaves => q := p; StepServerLeaves(sc, w, p);
    case _ => q := p;
  }

  /** A poll in which no bytes arrive is allowed, and changes nothing. */
  lemma IdleSafe(h: Handler, e: Endpoint, room: nat)
    requires e.inbox == [] || h(e.state, e.inbox) == NeedMore
    ensures Safe(h, e, [], room) && Receive(h, e, []) == e
  {
    NilLeft(e.inbox);
    NilLeft(e.outbox);
  }

  lemma UnfinishedWaits(h: Handler, sender: Endpoint, wire: seq<byte>, receiver: Endpoint, back: seq<byte>,
                        msg: seq<byte>, next: State, reply: seq<byte>)
    requires Outstanding(sender, wire, receiver, back, msg)
    requires Stable(h) && Turns(h, receiver.state, msg, next, reply)
    ensures h(receiver.state, receiver.inbox) == NeedMore
  {
    var rest := wire + sender.outbox;
    Assoc(receiver.inbox, wire, sender.outbox);
    HandledExactly(h, receiver.state, msg, |receiver.inbox|);
    TakeExtend(receiver.inbox, rest, |receiver.inbox|);
    assert receiver.inbox[..|receiver.inbox|] == receiver.inbox;
  }

  lemma ServerIdlesSafely(sc: Script, w: World, p: nat)
    requires Coherent(sc) && Inv(sc, w, p) && w.server.state != Closed
    ensures Safe(sc.server, w.server, [], sc.room) && Receive(sc.server, w.server, []) == w.server
  {
    if p % 2 == 0 {
      assert Answered(sc, p) && Closes(sc, p);
      UnfinishedWaits(sc.server, w.client, w.toServer, w.server, w.toClient, sc.msg(p), sc.serverAt(p + 1), sc.msg(p + 1));
    }
    IdleSafe(sc.server, w.server, sc.room);
  }

  lemma ClientIdlesSafely(sc: Script, w: World, p: nat)
    requires Coherent(sc) && Inv(sc, w, p) && w.client.state != Closed
    ensures Safe(sc.client, w.client, [], sc.room) && Receive(sc.client, w.client, []) == w.client
  {
    if p % 2 == 1 {
      assert Answered(sc, p) && Closes(sc, p);
      UnfinishedWaits(sc.client, w.server, w.toClient, w.client, w.toServer, sc.msg(p), sc.clientAt(p + 1), sc.msg(p + 1));
    }
    IdleSafe(sc.client, w.client, sc.room);
  }

  lemma {:induction false} RunFrom(sc: Script, w: World, p: nat, acts: seq<Action>) returns (q: nat)
    requires Coherent(sc) && Inv(sc, w, p) && Possible(sc, w, acts)
    ensures Inv(sc, After(sc, w, acts), q)
    ensures Potential(sc, w, p) == Potential(sc, After(sc, w, acts), q) + Moved(acts)
    decreases |acts|
  {
    if acts == [] {
      q := p;
    } else {
      var r := Step(sc, w, p, acts[0]);
      q := RunFrom(sc, Next(sc, w, acts[0]), r, acts[1..]);
    }
  }

  /** Every reachable world has one message on its way, and what was moved is what the
      potential lost. */
  lemma Reachable(sc: Script, acts: seq<Action>) returns (p: nat)
    requires Coherent(sc) && Possible(sc, Init(sc), acts)
    ensures Inv(sc, After(sc, Init(sc), acts), p)
    ensures Total(sc) == Potential(sc, After(sc, Init(sc), acts), p) + Moved(acts)
  {
    InitInv(sc);
    p := RunFrom(sc, Init(sc), 0, acts);
  }

  ghost predicate Done(w: World) {
    w.client.state == Closed && w.server.state == Closed
  }

  /** The end of a run: the client is closed, and the server too or gone. */
  ghost predicate Over(w: World) {
    w.client.state == Closed && (w.server.state == Closed || w.left)
  }

  /** Until the run is over some byte can be moved. */
  lemma SomeStep(sc: Script, w: World, p: nat) returns (a: Action)
    requires Coherent(sc) && Inv(sc, w, p) && !Over(w)
    ensures Productive(sc, w, a) && Carried(a) == 1
  {
    assert Closes(sc, p);
    if p % 2 == 0 {
      a := if w.client.outbox != [] then ClientSends(1) else ServerReads(1);
    } else {
      a := if w.server.outbox != [] then ServerSends(1) else ClientReads(1);
    }
  }

  lemma LeftPositive(sc: Script, p: nat)
    requires Coherent(sc)
    ensures p < LAST ==> Left(sc, p) > 0
  {
    if p < LAST {
      assert Closes(sc, p + 1);
    }
  }

  /** Both sides are closed exactly when nothing is left to move. */
  lemma DoneExactly(sc: Script, w: World, p: nat)
    requires Coherent(sc) && Inv(sc, w, p)
    ensures Done(w) <==> Potential(sc, w, p) == 0
  {
    assert Closes(sc, p);
    LeftPositive(sc, p);
  }

  /** No productive step is enabled exactly when the run is over, and then the server's last
      message is partly on the wire and partly unsent; it is all on the wire if and only if
      the server is closed. */
  lemma OverExactly(sc: Script, w: World, p: nat)
    requires Coherent(sc) && Inv(sc, w, p)
    ensures Over(w) <==> forall a :: !Productive(sc, w, a)
    ensures Over(w) ==> w.toServer == [] && w.toClient + w.server.outbox == sc.msg(LAST)
    ensures Over(w) ==> (w.server.outbox == [] <==> w.server.state == Closed) && (w.left <==> w.server.state == Closing)
  {
    assert Closes(sc, p);
    if !Over(w) {
      var a := SomeStep(sc, w, p);
    }
    NilLeft(w.toClient);
  }

  /** Idle steps aside, a run has no more steps than bytes moved, and the leaving. */
  lemma {:induction false} StepsMove(sc: Script, w: World, acts: seq<Action>)
    requires Possible(sc, w, acts)
    ensures w.left ==> After(sc, w, acts).left
    ensures Steps(acts) + (if w.left then 1 else 0) <= Moved(acts) + if After(sc, w, acts).left then 1 else 0
    decreases |acts|
  {
    if acts != [] {
      StepsMove(sc, Next(sc, w, acts[0]), acts[1..]);
    }
  }

  // ----- both ends happen -----

  /** From every reachable world before the last message, some steps lead to the world in
      which the client is closed and all of the last message is unsent. */
  lemma {:induction false} ToLast(sc: Script, w: World, p: nat) returns (acts: seq<Action>)
    requires Coherent(sc) && Inv(sc, w, p) && p < LAST
    ensures Possible(sc, w, acts)
    ensures Inv(sc, After(sc, w, acts), LAST) && After(sc, w, acts).toClient == [] && !After(sc, w, acts).left
    decreases Potential(sc, w, p)
  {
    assert Closes(sc, p);
    var a := SomeStep(sc, w, p);
    var v := Next(sc, w, a);
    var q := Step(sc, w, p, a);
    var more: seq<Action> := [];
    if q < LAST {
      more := ToLast(sc, v, q);
    }
    acts := [a] + more;
    assert acts[1..] == more;
  }

  lemma {:induction false} AndThen(sc: Script, w: World, acts: seq<Action>, a: Action)
    requires Possible(sc, w, acts) && Enabled(sc, After(sc, w, acts), a)
    ensures Possible(sc, w, acts + [a]) && After(sc, w, acts + [a]) == Next(sc, After(sc, w, acts), a)
    decreases |acts|
  {
    if acts == [] {
      assert acts + [a] == [a] && [a][1..] == [];
    } else {
      assert (acts + [a])[1..] == acts[1..] + [a];
      AndThen(sc, Next(sc, w, acts[0]), acts[1..], a);
    }
  }

  /** Some run ends with both sides closed, and some run with the server gone before it has
      sent any byte of the last message. */
  lemma BothEndsHappen(sc: Script) returns (closed: seq<Action>, gone: seq<Action>)
    requires Coherent(sc)
    ensures Possible(sc, Init(sc), closed) && Done(After(sc, Init(sc), closed))
    ensures Possible(sc, Init(sc), gone)
    ensures var w := After(sc, Init(sc), gone); w.left && w.toClient == [] && w.server.outbox == sc.msg(LAST)
  {
    InitInv(sc);
    var acts := ToLast(sc, Init(sc), 0);
    var w := After(sc, Init(sc), acts);
    assert Closes(sc, LAST);
    LastUnsent(sc, w);
    AndThen(sc, Init(sc), acts, ServerSends(|w.server.outbox|));
    AndThen(sc, Init(sc), acts, ServerLeaves);
    closed, gone := acts + [ServerSends(|w.server.outbox|)], acts + [ServerLeaves];
  }

  lemma LastUnsent(sc: Script, w: World)
    requires Coherent(sc) && Inv(sc, w, LAST) && w.toClient == [] && !w.left
    ensures w.server.outbox == sc.msg(LAST)
    ensures Enabled(sc, w, ServerLeaves)
    ensures Enabled(sc, w, ServerSends(|w.server.outbox|)) && Done(Next(sc, w, ServerSends(|w.server.outbox|)))
  {
    assert Closes(sc, LAST);
    NilLeft(w.server.outbox);
  }
}
