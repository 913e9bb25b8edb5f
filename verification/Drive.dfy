/** The two loops run against each other on their real buffers, by an arbitrary schedule. */
module Drive {
  import opened Bytes
  import opened Buffers
  import opened Connection
  import opened Dispatch
  import opened Exchange
  import opened LockStep
  import C = ClientLoop
  import S = ServerLoop

  ghost predicate Apart(client: C.Client, server: S.Server) {
    && client.transport != server.transport && client.conn != server.conn
    && {client.transport.readBuffer, client.transport.writeBuffer}
       !! {server.transport.readBuffer, server.transport.writeBuffer}
  }

  ghost predicate Running(text: Text, client: C.Client, server: S.Server)
    reads client.transport, client.transport.readBuffer, client.transport.writeBuffer, client.conn
    reads server.transport, server.transport.readBuffer, server.transport.writeBuffer, server.conn
  {
    Apart(client, server) && client.text == text && client.Valid() && server.Valid()
  }

  ghost function WorldOf(client: C.Client, server: S.Server, toServer: seq<byte>, toClient: seq<byte>, left: bool): World
    requires client.Valid() && server.Valid()
    reads client.transport, client.transport.readBuffer, client.transport.writeBuffer, client.conn
    reads server.transport, server.transport.readBuffer, server.transport.writeBuffer, server.conn
  {
    World(client.View(), toServer, server.View(), toClient, server.transport.received, left)
  }

  method FirstUnsent(t: Transport, k: nat) returns (bytes: seq<byte>)
    requires t.Shaped() && k <= t.writeLen
    ensures bytes == t.Unsent()[..k]
  {
    bytes := t.writeBuffer[t.writePos..t.writePos + k];
    SubSlice(t.writeBuffer[..], t.writePos, t.writeLen, 0, k);
  }

  method ClientSend(text: Text, client: C.Client, server: S.Server, toServer: seq<byte>, ghost toClient: seq<byte>, ghost left: bool, k: nat)
    returns (toServer': seq<byte>)
    requires Running(text, client, server)
    requires Enabled(ThisScript(text), WorldOf(client, server, toServer, toClient, left), ClientSends(k))
    modifies client.transport, client.conn
    ensures Running(text, client, server)
    ensures WorldOf(client, server, toServer', toClient, left)
            == Next(ThisScript(text), old(WorldOf(client, server, toServer, toClient, left)), ClientSends(k))
  {
    var bytes := FirstUnsent(client.transport, k);
    var _ := client.OnWritable(Moved(k));
    toServer' := toServer + bytes;
  }

  method ServerSend(text: Text, client: C.Client, server: S.Server, ghost toServer: seq<byte>, toClient: seq<byte>, ghost left: bool, k: nat)
    returns (toClient': seq<byte>)
    requires Running(text, client, server)
    requires Enabled(ThisScript(text), WorldOf(client, server, toServer, toClient, left), ServerSends(k))
    modifies server.transport, server.conn
    ensures Running(text, client, server)
    ensures WorldOf(client, server, toServer, toClient', left)
            == Next(ThisScript(text), old(WorldOf(client, server, toServer, toClient, left)), ServerSends(k))
  {
    var bytes := FirstUnsent(server.transport, k);
    var _ := server.OnWritable(Moved(k));
    toClient' := toClient + bytes;
  }

  method ServerRead(text: Text, client: C.Client, server: S.Server, toServer: seq<byte>, ghost toClient: seq<byte>, ghost left: bool, k: nat)
    requires Running(text, client, server)
    requires Enabled(ThisScript(text), WorldOf(client, server, toServer, toClient, left), ServerReads(k))
    requires Safe(S.Handle, server.View(), toServer[..k], ROOM)
    modifies server.transport, server.transport.readBuffer, server.transport.writeBuffer, server.conn
    ensures Running(text, client, server)
    ensures WorldOf(client, server, toServer[k..], toClient, left)
            == Next(ThisScript(text), old(WorldOf(client, server, toServer, toClient, left)), ServerReads(k))
  {
    assert Arriving(toServer, Moved(k), server.transport.readLen) == toServer[..k];
    var alive := server.OnReadable(toServer, Moved(k), false);
  }

  method ClientRead(text: Text, client: C.Client, server: S.Server, ghost toServer: seq<byte>, toClient: seq<byte>, ghost left: bool, k: nat)
    requires Running(text, client, server)
    requires Enabled(ThisScript(text), WorldOf(client, server, toServer, toClient, left), ClientReads(k))
    requires Safe(C.HandlerFor(text), client.View(), toClient[..k], ROOM)
    modifies client.transport, client.transport.readBuffer, client.transport.writeBuffer, client.conn
    ensures Running(text, client, server)
    ensures WorldOf(client, server, toServer, toClient[k..], left)
            == Next(ThisScript(text), old(WorldOf(client, server, toServer, toClient, left)), ClientReads(k))
  {
    assert Arriving(toClient, Moved(k), client.transport.readLen) == toClient[..k];
    var alive := client.OnReadable(toClient, Moved(k), false);
  }

  /** A poll of the server in which the socket moves nothing: it would block, or the stream
      has ended and errno still says EAGAIN. */
  method ServerIdle(text: Text, client: C.Client, server: S.Server, toServer: seq<byte>, ghost toClient: seq<byte>, ghost left: bool, ended: bool)
    requires Running(text, client, server)
    requires Enabled(ThisScript(text), WorldOf(client, server, toServer, toClient, left), ServerIdles)
    requires Safe(S.Handle, server.View(), [], ROOM) && Receive(S.Handle, server.View(), []) == server.View()
    modifies server.transport, server.transport.readBuffer, server.transport.writeBuffer, server.conn
    ensures Running(text, client, server)
    ensures WorldOf(client, server, toServer, toClient, left) == old(WorldOf(client, server, toServer, toClient, left))
  {
    var socket := if ended then Moved(0) else WouldBlock;
    assert Arriving(toServer, socket, server.transport.readLen) == [];
    NilLeft(server.transport.received);
    var alive := server.OnReadable(toServer, socket, true);
    assert alive;
    ServerIdleWrite(text, client, server, toServer, toClient, left);
  }

  method ServerIdleWrite(text: Text, client: C.Client, server: S.Server, ghost toServer: seq<byte>, ghost toClient: seq<byte>, ghost left: bool)
    requires Running(text, client, server) && server.conn.state != Closed
    modifies server.transport, server.conn
    ensures Running(text, client, server)
    ensures WorldOf(client, server, toServer, toClient, left) == old(WorldOf(client, server, toServer, toClient, left))
  {
    if server.transport.writeLen > 0 {
      var _ := server.OnWritable(WouldBlock);
    }
  }

  method ClientIdle(text: Text, client: C.Client, server: S.Server, ghost toServer: seq<byte>, toClient: seq<byte>, ghost left: bool)
    requires Running(text, client, server)
    requires Enabled(ThisScript(text), WorldOf(client, server, toServer, toClient, left), ClientIdles)
    requires Safe(C.HandlerFor(text), client.View(), [], ROOM)
    requires Receive(C.HandlerFor(text), client.View(), []) == client.View()
    modifies client.transport, client.transport.readBuffer, client.transport.writeBuffer, client.conn
    ensures Running(text, client, server)
    ensures WorldOf(client, server, toServer, toClient, left) == old(WorldOf(client, server, toServer, toClient, left))
  {
    if client.transport.writeLen > 0 {
      var _ := client.OnWritable(WouldBlock);
    }
    assert Arriving(toClient, WouldBlock, client.transport.readLen) == [];
    var alive := client.OnReadable(toClient, WouldBlock, true);
  }

  /** The poll in which the server reads the end of the stream and leaves its loop. */
  method ServerLeave(text: Text, client: C.Client, server: S.Server, ghost toServer: seq<byte>, ghost toClient: seq<byte>, ghost left: bool)
    returns (left': bool)
    requires Running(text, client, server)
    requires Enabled(ThisScript(text), WorldOf(client, server, toServer, toClient, left), ServerLeaves)
    requires Safe(S.Handle, server.View(), [], ROOM) && Receive(S.Handle, server.View(), []) == server.View()
    modifies server.transport, server.transport.readBuffer, server.transport.writeBuffer, server.conn
    ensures Running(text, client, server)
    ensures WorldOf(client, server, toServer, toClient, left')
            == Next(ThisScript(text), old(WorldOf(client, server, toServer, toClient, left)), ServerLeaves)
  {
    assert Arriving([], Moved(0), server.transport.readLen) == [];
    NilLeft(server.transport.received);
    var alive := server.OnReadable([], Moved(0), false);
    left' := !alive;
  }

  ghost function Footprint(client: C.Client, server: S.Server): set<object> {
    {client.transport, client.transport.readBuffer, client.transport.writeBuffer, client.conn,
     server.transport, server.transport.readBuffer, server.transport.writeBuffer, server.conn}
  }

  /** One step of the schedule, in a world where exactly message p is on its way. */
  method Do(text: Text, client: C.Client, server: S.Server, toServer: seq<byte>, toClient: seq<byte>, left: bool,
            a: Action, ghost p: nat)
    returns (toServer': seq<byte>, toClient': seq<byte>, left': bool, ghost q: nat)
    requires Running(text, client, server) && Coherent(ThisScript(text))
    requires Inv(ThisScript(text), WorldOf(client, server, toServer, toClient, left), p)
    requires Enabled(ThisScript(text), WorldOf(client, server, toServer, toClient, left), a)
    modifies Footprint(client, server)
    ensures Running(text, client, server)
    ensures WorldOf(client, server, toServer', toClient', left')
            == Next(ThisScript(text), old(WorldOf(client, server, toServer, toClient, left)), a)
    ensures Inv(ThisScript(text), WorldOf(client, server, toServer', toClient', left'), q)
  {
    ghost var sc, w := ThisScript(text), WorldOf(client, server, toServer, toClient, left);
    q := Step(sc, w, p, a);
    toServer', toClient', left' := toServer, toClient, left;
    match a {
      case ClientSends(k) =>
        toServer' := ClientSend(text, client, server, toServer, toClient, left, k);
      case ServerSends(k) =>
        toClient' := ServerSend(text, client, server, toServer, toClient, left, k);
      case ServerReads(k) =>
        ghost var _ := StepServerReads(sc, w, p, k);
        ServerRead(text, client, server, toServer, toClient, left, k);
        toServer' := toServer[k..];
      case ClientReads(k) =>
        ghost var _ := StepClientReads(sc, w, p, k);
        ClientRead(text, client, server, toServer, toClient, left, k);
        toClient' := toClient[k..];
      case ServerIdles =>
        ServerIdlesSafely(sc, w, p);
        ServerIdle(text, client, server, toServer, toClient, left, client.conn.state == Closed && toServer == []);
      case ClientIdles =>
        ClientIdlesSafely(sc, w, p);
        ClientIdle(text, client, server, toServer, toClient, left);
      case ServerLeaves =>
        ServerIdlesSafely(sc, w, p);
        left' := ServerLeave(text, client, server, toServer, toClient, left);
    }
  }

  method ServerBeside(text: Text, client: C.Client) returns (server: S.Server)
    requires client.text == text && client.Valid()
    ensures fresh(server.transport) && fresh(server.conn)
    ensures fresh(server.transport.readBuffer) && fresh(server.transport.writeBuffer)
    ensures Running(text, client, server)
    ensures WorldOf(client, server, [], [], false)
            == World(old(client.View()), [], Endpoint(Handshaking, [], 0, []), [], [], false)
  {
    ghost var view := client.View();
    server := new S.Server();
    assert client.Valid() && client.View() == view;
  }

  method Start(text: Text) returns (client: C.Client, server: S.Server)
    requires TextFits(text)
    ensures fresh(Footprint(client, server)) && Running(text, client, server)
    ensures WorldOf(client, server, [], [], false) == Init(ThisScript(text))
  {
    client := new C.Client(text);
    server := ServerBeside(text, client);
  }

  /** The rest of the schedule, from index i on, leads from w to `end`. */
  ghost predicate Ahead(sc: Script, w: World, acts: seq<Action>, i: nat, end: World) {
    i <= |acts| && Possible(sc, w, acts[i..]) && After(sc, w, acts[i..]) == end
  }

  lemma AheadNext(sc: Script, w: World, acts: seq<Action>, i: nat, end: World)
    requires Ahead(sc, w, acts, i, end) && i < |acts|
    ensures Enabled(sc, w, acts[i]) && Ahead(sc, Next(sc, w, acts[i]), acts, i + 1, end)
  {
    assert acts[i..][1..] == acts[i + 1..];
  }

  /** After i steps of the schedule, with message p on its way. */
  ghost predicate OnTrack(text: Text, client: C.Client, server: S.Server, toServer: seq<byte>, toClient: seq<byte>, left: bool,
                          acts: seq<Action>, i: nat, end: World, p: nat)
    reads client.transport, client.transport.readBuffer, client.transport.writeBuffer, client.conn
    reads server.transport, server.transport.readBuffer, server.transport.writeBuffer, server.conn
  {
    && Running(text, client, server)
    && Inv(ThisScript(text), WorldOf(client, server, toServer, toClient, left), p)
    && Ahead(ThisScript(text), WorldOf(client, server, toServer, toClient, left), acts, i, end)
  }

  method DoNext(text: Text, client: C.Client, server: S.Server, toServer: seq<byte>, toClient: seq<byte>, left: bool,
                acts: seq<Action>, i: nat, ghost end: World, ghost p: nat)
    returns (toServer': seq<byte>, toClient': seq<byte>, left': bool, ghost q: nat)
    requires i < |acts| && Coherent(ThisScript(text))
    requires OnTrack(text, client, server, toServer, toClient, left, acts, i, end, p)
    modifies Footprint(client, server)
    ensures OnTrack(text, client, server, toServer', toClient', left', acts, i + 1, end, q)
  {
    AheadNext(ThisScript(text), WorldOf(client, server, toServer, toClient, left), acts, i, end);
    toServer', toClient', left', q := Do(text, client, server, toServer, toClient, left, acts[i], p);
  }

  method Begin(text: Text, acts: seq<Action>) returns (client: C.Client, server: S.Server)
    requires Reached(text, acts)
    ensures fresh(Footprint(client, server))
    ensures OnTrack(text, client, server, [], [], false, acts, 0, End(text, acts), 0)
  {
    assert acts[0..] == acts;
    assert Ahead(ThisScript(text), Init(ThisScript(text)), acts, 0, End(text, acts));
    ProgramsFollowScript(text);
    InitInv(ThisScript(text));
    client, server := Start(text);
  }

  /** Any schedule of polls, whether they move bytes or not: the two programs, on their buffers, do what
      the exchange of values does. All hypotheses of their loops are met on the way. */
  method Run(text: Text, acts: seq<Action>)
    returns (client: C.Client, server: S.Server, toServer: seq<byte>, toClient: seq<byte>, left: bool)
    requires Reached(text, acts)
    ensures Running(text, client, server)
    ensures WorldOf(client, server, toServer, toClient, left) == End(text, acts)
  {
    ghost var end := End(text, acts);
    ProgramsFollowScript(text);
    client, server := Begin(text, acts);
    toServer, toClient, left := [], [], false;
    ghost var p := 0;
    var i := 0;
    while i < |acts|
      invariant i <= |acts| && fresh(Footprint(client, server))
      invariant OnTrack(text, client, server, toServer, toClient, left, acts, i, end, p)
    {
      toServer, toClient, left, p := DoNext(text, client, server, toServer, toClient, left, acts, i, end, p);
      i := i + 1;
    }
  }
}
