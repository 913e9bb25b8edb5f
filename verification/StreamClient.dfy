/** The PHP stream client (StreamClient.php) on a connected socket. */
module StreamClient {
  import opened Bits
  import opened Bytes
  import opened Handshake
  import Auth
  import Connection
  import Dispatch
  import Frame
  import PhpFrame
  import ServerLoop
  import Varint

  const DATA_BINARY: byte := 0x01
  const DATA_TEXT: byte := 0x02
  const CLOSE: byte := 0x08
  const PING: byte := 0x09
  const PONG: byte := 0x0A
  const AUTH: byte := 0x0F
  const AUTH_OK: byte := 0x10

  const FLAG_FIN: byte := 0x80

  const STATE_DISCONNECTED := 0
  const STATE_READY := 4

  datatype Error = ClosedUnexpectedly | InvalidFrameMagic | InvalidProtocolMagic
                 | HelloRejected(status: u16) | AuthFailed(opcode: byte)

  /** A PHP result, or the exception thrown instead. */
  datatype Outcome<+T> = Done(value: T) | Thrown(error: Error) {
    predicate IsFailure() { Thrown? }
    function PropagateFailure<U>(): Outcome<U> requires Thrown? { Thrown(error) }
    function Extract(): T requires Done? { value }
  }

  datatype Received = Received(opcode: byte, payload: seq<byte>)

  // ----- what the client says and hears while it connects -----

  /** The PHP hello: pack("CCN", ...) spends four bytes on the version. */
  function HelloBytes(nonce: Block): (s: seq<byte>)
    ensures |s| == 27
  {
    [Frame.MAGIC_1, Frame.MAGIC_2] + U32Bytes(1) + U32Bytes(CAP_AUTH_BEARER) + nonce + [0]
  }

  /** pack("N", ...) keeps the low 32 bits of the length. */
  function AuthPayload(token: seq<byte>): seq<byte> {
    [1] + U32Bytes(|token| % TWO_32) + token
  }

  /** The verdict on the server's 42 bytes. */
  function HelloVerdict(s: seq<byte>): Outcome<bool> {
    if |s| < SERVER_HELLO_SIZE then Thrown(ClosedUnexpectedly)
    else if s[0] != Frame.MAGIC_1 || s[1] != Frame.MAGIC_2 then Thrown(InvalidProtocolMagic)
    else if U16Of(s[39..41]) != 0 then Thrown(HelloRejected(U16Of(s[39..41])))
    else Done(true)
  }

  function FrameOutcome(r: PhpFrame.Read): Outcome<Received> {
    match r
    case Got(opcode, payload, _) => Done(Received(opcode, payload))
    case Closed => Thrown(ClosedUnexpectedly)
    case WrongMagic => Thrown(InvalidFrameMagic)
  }

  function AuthVerdict(r: Outcome<Received>): Outcome<bool> {
    match r
    case Thrown(e) => Thrown(e)
    case Done(f) => if f.opcode == AUTH_OK then Done(true) else Thrown(AuthFailed(f.opcode))
  }

  /** The result of connect, given everything the server sends. */
  function ConnectVerdict(s: seq<byte>): Outcome<bool> {
    if HelloVerdict(s).Done? then AuthVerdict(FrameOutcome(PhpFrame.ReadFrame(s[SERVER_HELLO_SIZE..])))
    else HelloVerdict(s)
  }

  // ----- properties -----

  /** The packed payload is the C serializer's bearer request if and only if the token's
      length fits the field. */
  lemma AuthPayloadAgrees(token: seq<byte>)
    ensures |token| < TWO_32 ==> AuthPayload(token) == Auth.RequestBytes(Auth.Request(Auth.METHOD_BEARER, token))
    ensures Auth.ParseRequest(AuthPayload(token)).Some?
    ensures Auth.ParseRequest(AuthPayload(token)).value.request.token == token <==> |token| < TWO_32
  {
    var n: nat := |token| % TWO_32;
    var r := Auth.Request(Auth.METHOD_BEARER, token[..n]);
    Auth.RequestRoundTrip(r, token[n..]);
    Assoc([1] + U32Bytes(n), token[..n], token[n..]);
    Split(token, n);
    if |token| < TWO_32 {
      assert token[..n] == token;
    }
  }

  /** The verdict on a server hello is its status, whatever follows it. */
  lemma HelloVerdictIs(h: ServerHello, rest: seq<byte>)
    requires h.magic1 == Frame.MAGIC_1 && h.magic2 == Frame.MAGIC_2
    ensures HelloVerdict(ServerHelloBytes(h) + rest)
            == if h.status == 0 then Done(true) else Thrown(HelloRejected(h.status))
  {
    ServerRoundTrip(h, rest);
  }

  /** The verdict on anything else is an exception. */
  lemma HelloVerdictExactly(s: seq<byte>)
    ensures HelloVerdict(s) == Done(true) <==>
            |s| >= 42 && s[0] == 0x50 && s[1] == 0x57 && s[39] == 0 && s[40] == 0
    ensures |s| < 42 ==> HelloVerdict(s) == Thrown(ClosedUnexpectedly)
    ensures |s| >= 42 && (s[0] != 0x50 || s[1] != 0x57) ==> HelloVerdict(s) == Thrown(InvalidProtocolMagic)
  {
  }

  /** connect succeeds exactly after a hello with status 0 and an AUTH_OK frame, and the
      exceptions for another status and another frame name them. */
  lemma ConnectsExactly(h: ServerHello, flags: byte, opcode: byte, payload: seq<byte>, rest: seq<byte>)
    requires h.magic1 == 0x50 && h.magic2 == 0x57 && |payload| < PhpFrame.TWO_63
    ensures ConnectVerdict(ServerHelloBytes(h) + (PhpFrame.FrameBytes(flags, opcode, payload) + rest))
            == if h.status != 0 then Thrown(HelloRejected(h.status))
               else if opcode == 0x10 then Done(true)
               else Thrown(AuthFailed(opcode))
  {
    var answer := PhpFrame.FrameBytes(flags, opcode, payload) + rest;
    HelloVerdictIs(h, answer);
    DropWhole(ServerHelloBytes(h), answer);
    PhpFrame.PhpRoundTripExactly(flags, opcode, payload, rest);
  }

  /** connect succeeds on exactly these bytes of a server. */
  lemma ConnectsOnExactly(s: seq<byte>)
    ensures ConnectVerdict(s) == Done(true) <==>
            && |s| >= 42 && s[0] == 0x50 && s[1] == 0x57 && s[39] == 0 && s[40] == 0
            && PhpFrame.ReadFrame(s[42..]).Got? && PhpFrame.ReadFrame(s[42..]).opcode == 0x10
  {
    HelloVerdictExactly(s);
  }

  /** A frame that is sent, by whatever peer, is delivered: the whole payload of a text or
      binary frame, and nothing of another one. A PING is answered by an empty PONG and a
      CLOSE by an empty CLOSE, as frames again. */
  lemma DeliveredExactly(flags: byte, opcode: byte, payload: seq<byte>, rest: seq<byte>)
    requires |payload| < PhpFrame.TWO_63
    ensures var r := PhpFrame.ReadFrame(PhpFrame.FrameBytes(flags, opcode, payload) + rest);
            && r == PhpFrame.Got(opcode, payload, |PhpFrame.FrameBytes(flags, opcode, payload)|)
            && Delivered(r.opcode, r.payload) == (if opcode == 0x01 || opcode == 0x02 then Some(payload) else None)
            && Reply(r.opcode) == (if opcode == 0x09 then [0x50, 0x57, 0x01, 0x80, 0x0A, 0x00, 0x00]
                                   else if opcode == 0x08 then [0x50, 0x57, 0x01, 0x80, 0x08, 0x00, 0x00]
                                   else [])
  {
    PhpFrame.PhpRoundTripExactly(flags, opcode, payload, rest);
    Varint.OneByte(0);
  }

  /** A text is sent as a frame with opcode 2, flags 0x80 and stream 0. */
  lemma TextBytes(data: seq<byte>)
    ensures PhpFrame.FrameBytes(FLAG_FIN, DATA_TEXT, data)
            == [0x50, 0x57, 0x01, 0x80, 0x02, 0x00] + Varint.Encode(|data|) + data
  {
  }

  /** The hello and the AUTH frame of the client, byte for byte. */
  lemma ConnectBytes(nonce: Block, token: seq<byte>)
    requires |token| < 0x7B
    ensures HelloBytes(nonce) == [0x50, 0x57, 0x00, 0x00, 0x00, 0x01, 0x00, 0x00, 0x00, 0x04] + nonce + [0x00]
    ensures PhpFrame.FrameBytes(FLAG_FIN, AUTH, AuthPayload(token))
            == [0x50, 0x57, 0x01, 0x80, 0x0F, 0x00, 5 + |token|] + ([0x01, 0x00, 0x00, 0x00, |token|] + token)
  {
    U32Shifts(1);
    U32Shifts(4);
    U32Shifts(|token|);
    Varint.OneByte(5 + |token|);
  }

  /** What the C parser sees in the PHP hello: version 0, and a resume token exactly when
      byte 13 of the nonce is 1. */
  lemma HelloAsCSeesIt(nonce: Block, rest: seq<byte>)
    ensures nonce[13] == 1 && |rest| < 13 ==> ParseClient(HelloBytes(nonce) + rest) == None
    ensures nonce[13] != 1 || |rest| >= 13 ==> ParseClient(HelloBytes(nonce) + rest).Some?
    ensures ParseClient(HelloBytes(nonce) + rest).Some? ==>
              ParseClient(HelloBytes(nonce) + rest).value.hello.version == 0
    ensures ParseClient(HelloBytes(nonce) + rest).Some? ==>
              ParseClient(HelloBytes(nonce) + rest).value.size == if nonce[13] == 1 then 40 else 24
  {
    var s := HelloBytes(nonce) + rest;
    U32Shifts(1);
    assert s[2] == 0 && s[23] == nonce[13];
  }

  /** Against the C server connect never succeeds: for every nonce the server stays in
      Handshaking, and the client ends with the server's rejection or, when byte 13 of the
      nonce is 1, gets no answer at all. */
  lemma NeverConnects(nonce: Block)
    ensures var f := ServerLoop.Run(HelloBytes(nonce));
            && f.state == Connection.Handshaking
            && ConnectVerdict(f.out)
               == if nonce[13] == 1 then Thrown(ClosedUnexpectedly)
                  else Thrown(HelloRejected(ServerLoop.ERR_PROTOCOL))
  {
    var s := HelloBytes(nonce);
    HelloAsCSeesIt(nonce, []);
    NilLeft(s);
    var o := ServerLoop.Handle(Connection.Handshaking, s);
    if nonce[13] != 1 {
      var reply := ServerLoop.HelloReply(ParseClient(s).value.hello);
      assert o.Handled? && o.next == Connection.Handshaking && o.reply == ServerHelloBytes(reply);
      HelloVerdictIs(reply, []);
      NilLeft(o.reply);
      assert ParseClient(s[24..]) == None;
      Dispatch.FoldMore(ServerLoop.Handle, Connection.Handshaking, s);
    }
  }

  // ----- the client -----

  function Delivered(opcode: byte, payload: seq<byte>): Option<seq<byte>> {
    if opcode == DATA_TEXT || opcode == DATA_BINARY then Some(payload) else None
  }

  /** Some of the data, or all, went behind what was written before, and nothing else. */
  predicate Wrote(before: seq<byte>, after: seq<byte>, data: seq<byte>, all: bool) {
    before <= after <= before + data && (all ==> after == before + data)
  }

  /** What receive writes for a frame. */
  function Reply(opcode: byte): seq<byte> {
    if opcode == PING then PhpFrame.FrameBytes(FLAG_FIN, PONG, [])
    else if opcode == CLOSE then PhpFrame.FrameBytes(FLAG_FIN, CLOSE, [])
    else []
  }

  /** `$v & 0x7F` */
  method SevenBits(v: nat) returns (b: byte)
    ensures b == v % 0x80
  {
    And7F(v);
    b := And(v, 0x7F);
  }

  /** `$byte |= 0x80` */
  method WithContinuation(b: byte) returns (r: byte)
    requires b < 0x80
    ensures r == b + 0x80
  {
    Or80(b);
    r := Or(b, 0x80);
  }

  /** `$value |= ($byte & 0x7F) << $shift` */
  method OrGroup(value: u64, b: byte, shift: nat, ghost s: seq<byte>, ghost at: nat, ghost n: nat) returns (r: u64)
    requires at <= n < |s| && b == s[n] && shift == 7 * (n - at)
    requires value == Wrap64(Varint.Value(s, at, n))
    ensures r == Wrap64(Varint.Value(s, at, n + 1))
  {
    PhpFrame.OrAddsDigit(s, at, n - at);
    And7F(b);
    r := Or(value, PhpFrame.ShiftLeft(And(b, 0x7F), shift));
  }

  class StreamClient {
    /** `$stream` is not null. */
    var open: bool
    /** The mode of the stream: blocking until connect has succeeded. */
    var blocking: bool
    /** No wait of a blocking read runs into the timeout of the stream. */
    const timely: bool
    var state: nat
    /** The bytes the peer sends that have not been read, how many of them are here already,
        and all bytes written. */
    var inbound: seq<byte>
    var arrived: nat
    var outbound: seq<byte>

    ghost predicate Valid()
      reads this
    {
      arrived <= |inbound|
    }

    /** A read comes up empty at the end of the stream only. */
    predicate Waits()
      reads this
    {
      blocking && timely
    }

    /** Just after stream_socket_client and stream_set_blocking. */
    constructor (arriving: seq<byte>, timely: bool)
      ensures this.timely == timely
      ensures Valid() && open && blocking && state == STATE_DISCONNECTED
      ensures inbound == arriving && arrived == 0 && outbound == []
    {
      this.timely := timely;
      open, blocking, state := true, true, STATE_DISCONNECTED;
      inbound, arrived, outbound := arriving, 0, [];
    }

    /** fread, while more bytes may arrive: some of those that are here. A blocking one waits
        for the first, and comes up empty at the end only, or when it has waited too long;
        another one also when none is here. */
    method FRead(max: nat, ghost s: seq<byte>, ghost at: nat) returns (chunk: seq<byte>)
      requires Valid() && max > 0 && at <= |s| && inbound == s[at..]
      modifies this`inbound, this`arrived
      ensures Valid() && |chunk| + arrived >= old(arrived)
      ensures |chunk| <= max && at + |chunk| <= |s|
      ensures chunk == s[at..at + |chunk|] && inbound == s[at + |chunk|..]
      ensures chunk == [] ==> at == |s| || (!Waits() && old(arrived) == 0)
    {
      assert |inbound| == |s| - at;
      var here: nat :| arrived <= here <= |inbound| && (Waits() && inbound != [] ==> here > 0);
      if here == 0 {
        return [];
      }
      var k: nat :| 1 <= k <= max && k <= here;
      chunk := inbound[..k];
      inbound := inbound[k..];
      arrived := here - k;
    }

    /** readExact, standing at position `at` of the arriving bytes s: for every way fread
        may cut them, the next `length` bytes, or an exception. A stream that waits throws only
        after its end, another one only if not all of the bytes were here. */
    method ReadExact(length: int, ghost s: seq<byte>, ghost at: nat) returns (r: Outcome<seq<byte>>)
      requires Valid() && at <= |s| && inbound == s[at..]
      modifies this`inbound, this`arrived
      ensures Valid()
      ensures var n := if length > 0 then length else 0;
              match r
              case Done(data) =>
                at + n <= |s| && data == s[at..at + n] && inbound == s[at + n..] && n + arrived >= old(arrived)
              case Thrown(e) =>
                && e == ClosedUnexpectedly && (at + n > |s| || (!Waits() && old(arrived) < n))
                && (Waits() ==> inbound == [])
    {
      var data: seq<byte> := [];
      while |data| < length
        invariant Valid() && |data| + arrived >= old(arrived)
        invariant at + |data| <= |s| && (length > 0 ==> |data| <= length) && (length <= 0 ==> data == [])
        invariant data == s[at..at + |data|] && inbound == s[at + |data|..]
        decreases length - |data|
      {
        var chunk := FRead(length - |data|, s, at + |data|);
        if chunk == [] {
          return Thrown(ClosedUnexpectedly);
        }
        TwoSlices(s, at, |data|, |chunk|);
        data := data + chunk;
      }
      r := Done(data);
    }

    /** readVarint: the group at position `at`, as a signed 64-bit integer. */
    method ReadVarint(ghost s: seq<byte>, ghost at: nat) returns (r: Outcome<int>)
      requires Valid() && at <= |s| && inbound == s[at..]
      modifies this`inbound, this`arrived
      ensures Valid()
      ensures var n := Varint.GroupEnd(s, at);
              match r
              case Done(value) =>
                && n > 0 && value == PhpFrame.Signed64(Wrap64(Varint.Value(s, at, n)))
                && inbound == s[n..] && n - at + arrived >= old(arrived)
              case Thrown(e) =>
                && e == ClosedUnexpectedly && (n == 0 || (!Waits() && old(arrived) < n - at))
                && (Waits() ==> inbound == [])
    {
      var value: u64 := 0;       // the bit pattern of $value
      var shift := 0;
      ghost var n := at;
      while true
        invariant Valid() && n - at + arrived >= old(arrived)
        invariant at <= n <= |s| && inbound == s[n..]
        invariant Varint.GroupEnd(s, at) == Varint.GroupEnd(s, n)
        invariant shift == 7 * (n - at) && value == Wrap64(Varint.Value(s, at, n))
        decreases |s| - n
      {
        var raw :- ReadExact(1, s, n);
        value := OrGroup(value, raw[0], shift, s, at, n);
        n := n + 1;
        var last := Varint.IsLast(raw[0]);
        if last {
          break;
        }
        shift := shift + 7;
      }
      r := Done(PhpFrame.Signed64(value));
    }

    /** The end of readFrame: the length at position `at`, and as many bytes. */
    method ReadPayload(ghost s: seq<byte>, ghost at: nat) returns (r: Outcome<seq<byte>>)
      requires Valid() && at <= |s| && inbound == s[at..]
      modifies this`inbound, this`arrived
      ensures Valid()
      ensures var n := Varint.GroupEnd(s, at);
              match r
              case Done(payload) =>
                && n > 0
                && var size := n + PhpFrame.PayloadLength(s, at, n);
                && size <= |s| && payload == s[n..size] && inbound == s[size..] && size - at + arrived >= old(arrived)
              case Thrown(e) =>
                && e == ClosedUnexpectedly && (Waits() ==> inbound == [])
                && (n > 0 ==>
                      var size := n + PhpFrame.PayloadLength(s, at, n);
                      size > |s| || (!Waits() && old(arrived) < size - at))
    {
      var length :- ReadVarint(s, at);
      var payload: seq<byte> := [];
      if length > 0 {
        payload :- ReadExact(length, s, Varint.GroupEnd(s, at));
      }
      r := Done(payload);
    }

    /** readFrame: the reference result on everything the peer sends. A stream that does not
        wait may instead throw, but not when the whole frame is here. */
    method ReadFrame() returns (r: Outcome<Received>)
      requires Valid()
      modifies this`inbound, this`arrived
      ensures Valid()
      ensures Waits() ==> r == FrameOutcome(PhpFrame.ReadFrame(old(inbound)))
      ensures match PhpFrame.ReadFrame(old(inbound))
              case Got(opcode, payload, n) =>
                || (r == Done(Received(opcode, payload)) && inbound == old(inbound)[n..])
                || (r == Thrown(ClosedUnexpectedly) && !Waits() && old(arrived) < n)
              case WrongMagic =>
                || (r == Thrown(InvalidFrameMagic) && inbound == old(inbound)[5..])
                || (r == Thrown(ClosedUnexpectedly) && !Waits() && old(arrived) < 5)
              case Closed => r == Thrown(ClosedUnexpectedly) && (Waits() ==> inbound == [])
    {
      ghost var s := inbound;
      var header :- ReadExact(5, s, 0);
      if header[0] != Frame.MAGIC_1 || header[1] != Frame.MAGIC_2 {
        return Thrown(InvalidFrameMagic);
      }
      var _ :- ReadVarint(s, 5);
      var payload :- ReadPayload(s, Varint.GroupEnd(s, 5));
      r := Done(Received(header[4], payload));
    }

    /** fwrite: a stream that does not block may take only a part. */
    method FWrite(data: seq<byte>)
      modifies this`outbound
      ensures Wrote(old(outbound), outbound, data, blocking)
    {
      var k: nat :| k <= |data| && (blocking ==> k == |data|);
      assert data[..|data|] == data;
      Split(data, k);
      Assoc(outbound, data[..k], data[k..]);
      outbound := outbound + data[..k];
    }

    /** sendFrame: nothing without a stream, else the frame behind all that was written, or
        as much of it as fwrite takes: what it took is not looked at. */
    method SendFrame(opcode: byte, payload: seq<byte>)
      modifies this`outbound
      ensures Wrote(old(outbound), outbound, if open then PhpFrame.FrameBytes(FLAG_FIN, opcode, payload) else [], blocking)
    {
      NilLeft(outbound);
      if !open {
        return;
      }
      var header := FrameHeader(opcode, |payload|);
      FWrite(header + payload);
    }

    method FrameHeader(opcode: byte, length: nat) returns (header: seq<byte>)
      ensures header == [Frame.MAGIC_1, Frame.MAGIC_2, Frame.VERSION_1, FLAG_FIN, opcode, 0] + Varint.Encode(length)
    {
      header := [Frame.MAGIC_1, Frame.MAGIC_2, Frame.VERSION_1, FLAG_FIN, opcode];
      header := header + [0];
      if length == 0 {
        header := header + [0];
      } else {
        var lengthBytes := LengthBytes(length);
        header := header + lengthBytes;
      }
    }

    /** The do-while loop of sendFrame. */
    method LengthBytes(length: nat) returns (bytes: seq<byte>)
      requires length > 0
      ensures bytes == Varint.Encode(length)
    {
      bytes := [];
      var v := length;
      var first := true;
      while first || v > 0
        invariant if first then bytes == [] && v == length else v == 0 || bytes + Varint.Encode(v) == Varint.Encode(length)
        invariant !first && v == 0 ==> bytes == Varint.Encode(length)
        decreases v + if first then 1 else 0
      {
        first := false;
        ghost var rest := Varint.Encode(v);
        var b := SevenBits(v);
        v := v / 0x80;
        if v > 0 {
          b := WithContinuation(b);
          assert rest == [b] + Varint.Encode(v);
          Assoc(bytes, [b], Varint.Encode(v));
        }
        bytes := bytes + [b];
      }
    }

    /** connect, once the socket is there: hello, answer, AUTH, answer. */
    method Connect(nonce: Block, token: seq<byte>) returns (r: Outcome<bool>)
      requires Valid() && open && blocking
      modifies this
      ensures Valid() && open
      ensures r == ConnectVerdict(old(inbound)) || (!timely && r == Thrown(ClosedUnexpectedly))
      ensures || outbound == old(outbound) + HelloBytes(nonce)
                             + (if HelloVerdict(old(inbound)).Done?
                                then PhpFrame.FrameBytes(FLAG_FIN, AUTH, AuthPayload(token)) else [])
              || (!timely && outbound == old(outbound) + HelloBytes(nonce))
      ensures state == (if r.Done? then STATE_READY else old(state)) && blocking == r.Thrown?
    {
      ghost var s := inbound;
      FWrite(HelloBytes(nonce));
      NilLeft(outbound);
      var hello :- ReadExact(SERVER_HELLO_SIZE, s, 0);
      var status := U16Of(hello[39..41]);
      SlicePrefix(s, SERVER_HELLO_SIZE, 39, 41);
      if hello[0] != Frame.MAGIC_1 || hello[1] != Frame.MAGIC_2 {
        return Thrown(InvalidProtocolMagic);
      }
      if status != 0 {
        return Thrown(HelloRejected(status));
      }
      SendFrame(AUTH, AuthPayload(token));
      var answer :- ReadFrame();
      if answer.opcode != AUTH_OK {
        return Thrown(AuthFailed(answer.opcode));
      }
      blocking, state := false, STATE_READY;
      r := Done(true);
    }

    method Send(data: seq<byte>)
      modifies this`outbound
      ensures Wrote(old(outbound), outbound, if open then PhpFrame.FrameBytes(FLAG_FIN, DATA_TEXT, data) else [], blocking)
    {
      SendFrame(DATA_TEXT, data);
    }

    /** receive: `ready` is what stream_select says. Data is returned and a PING answered. A
        CLOSE, a wrong magic, the end of the stream, or on a stream that does not block a
        frame that is not all here, ends the connection with a CLOSE of our own. */
    method Receive(ready: bool) returns (data: Option<seq<byte>>)
      requires Valid()
      modifies this
      ensures Valid()
      ensures !old(open) || !ready ==>
                data == None && open == old(open) && state == old(state)
                && inbound == old(inbound) && outbound == old(outbound)
      ensures old(open) && ready ==>
                match PhpFrame.ReadFrame(old(inbound))
                case Got(opcode, payload, n) =>
                  || (&& inbound == old(inbound)[n..]
                      && data == Delivered(opcode, payload)
                      && open == (opcode != CLOSE)
                      && state == (if opcode == CLOSE then STATE_DISCONNECTED else old(state))
                      && Wrote(old(outbound), outbound, Reply(opcode), old(blocking)))
                  || (&& !old(Waits()) && old(arrived) < n
                      && data == None && !open && state == STATE_DISCONNECTED
                      && Wrote(old(outbound), outbound, Reply(CLOSE), old(blocking)))
                case _ =>
                  && data == None && !open && state == STATE_DISCONNECTED
                  && Wrote(old(outbound), outbound, Reply(CLOSE), old(blocking))
    {
      data := None;
      NilLeft(outbound);
      if !open || !ready {
        return;
      }
      var frame := ReadFrame();
      if frame.Thrown? {
        Disconnect();
        return;
      }
      var opcode := frame.value.opcode;
      if opcode == DATA_TEXT || opcode == DATA_BINARY {
        return Some(frame.value.payload);
      } else if opcode == PING {
        SendFrame(PONG, []);
      } else if opcode == CLOSE {
        Disconnect();
      }
    }

    /** A second disconnect changes nothing. */
    method Disconnect()
      modifies this`open, this`state, this`outbound
      ensures !open && state == if old(open) then STATE_DISCONNECTED else old(state)
      ensures Wrote(old(outbound), outbound, if old(open) then PhpFrame.FrameBytes(FLAG_FIN, CLOSE, []) else [], blocking)
    {
      NilLeft(outbound);
      if open {
        SendFrame(CLOSE, []);
        open, state := false, STATE_DISCONNECTED;
      }
    }
  }

  lemma TwoSlices(s: seq<byte>, at: nat, n: nat, k: nat)
    requires at + n + k <= |s|
    ensures s[at..at + n] + s[at + n..at + n + k] == s[at..at + n + k]
  {
  }
}
