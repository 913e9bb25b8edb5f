/** What both programs send for what they receive, byte for byte. */
module Replies {
  import opened Bytes
  import opened Connection
  import opened Dispatch
  import opened Frame
  import opened Handshake
  import opened Streams
  import Auth
  import C = ClientLoop
  import S = ServerLoop
  import T = ServerTrace
  import Varint

  function Code(c: char): byte { c as int % 0x100 }

  /** The bytes of a text. */
  function Ascii(text: string): (s: seq<byte>)
    ensures |s| == |text|
  {
    seq(|text|, i requires 0 <= i < |text| => Code(text[i]))
  }

  const TOKEN: seq<byte> := Ascii("secret_token")

  lemma TokenIsText()
    ensures S.SECRET_TOKEN == TOKEN && |TOKEN| == 12
  {
  }

  /** A header whose two varints take one byte each. */
  lemma ShortHeader(h: Header)
    requires h.streamId < 0x80 && h.length < 0x80
    ensures HeaderBytes(h) == [0x50, 0x57, h.version, h.flags, h.opcode, h.streamId, h.length]
  {
    Varint.OneByte(h.streamId);
    Varint.OneByte(h.length);
  }

  // ----- the server -----

  /** Every hello gets 42 bytes: its capabilities come back, no nonce and no session id are
      made, the status is 0 for version 1 and 1002 otherwise, and the last byte accepts a
      resume token of version 1 that does not begin with 0x99. Status 0 goes on to
      authentication, and nothing else does. */
  lemma HelloAnswer(s: seq<byte>)
    ensures S.Handle(Handshaking, s).Handled? <==> |s| >= 24 && (s[23] == 1 ==> |s| >= 40)
    ensures var o := S.Handle(Handshaking, s);
            o.Handled? ==>
              && o.size == (if s[23] == 1 then 40 else 24)
              && o.next == (if s[2] == 1 then Authenticating else Handshaking)
              && |o.reply| == 42
              && o.reply[..3] == [0x50, 0x57, 0x01]
              && o.reply[3..7] == s[3..7]
              && (forall i :: 7 <= i < 39 ==> o.reply[i] == 0)
              && o.reply[39..41] == (if s[2] == 1 then [0x00, 0x00] else [0x03, 0xEA])
              && o.reply[41] == (if s[2] == 1 && s[23] == 1 && s[24] != 0x99 then 1 else 0)
  {
    if S.Handle(Handshaking, s).Handled? {
      U32Inverse(0, s[3..7]);
      HelloReplyBytes(ParseClient(s).value.hello);
    }
  }

  lemma HelloReplyBytes(c: ClientHello)
    ensures var r := ServerHelloBytes(S.HelloReply(c));
            && r[..3] == [0x50, 0x57, 0x01] && r[3..7] == U32Bytes(c.capabilities)
            && (forall i :: 7 <= i < 39 ==> r[i] == 0)
            && r[39..41] == (if c.version == 1 then [0x00, 0x00] else [0x03, 0xEA])
            && r[41] == (if c.version == 1 && c.resume.Some? && c.resume.value[0] != 0x99 then 1 else 0)
  {
    var h := S.HelloReply(c);
    ServerLayout(h);
    assert h.nonce == S.ZEROS && h.sessionId == S.ZEROS;
  }

  /** A frame that reaches a server before authentication: the request for the secret token
      makes it ready and gets AUTH_OK; any other frame gets nothing and changes nothing. */
  lemma AuthAnswer(s: seq<byte>)
    requires Take(s).Took?
    ensures var f, n := Take(s).item, Take(s).size;
            S.Handle(Authenticating, s)
            == if f.header.opcode == 0x06 && [1, 0, 0, 0, 12] + TOKEN <= f.payload
               then Handled(Ready, n, [0x50, 0x57, 0x01, 0x10, 0x07, 0x00, 0x00])
               else Handled(Authenticating, n, [])
  {
    var f := Take(s).item;
    T.GoodAuthExactly(f);
    TokenIsText();
    TokenRequest();
    ShortHeader(S.AUTH_OK_HEADER);
    AuthOutcome(f, Take(s).size);
  }

  lemma AuthOutcome(f: Message, n: nat)
    ensures S.OnAuthFrame(Took(f, n))
            == if S.GoodAuth(f) then Handled(Ready, n, HeaderBytes(S.AUTH_OK_HEADER)) else Handled(Authenticating, n, [])
  {
  }

  lemma TokenRequest()
    ensures Auth.RequestBytes(Auth.Request(Auth.METHOD_BEARER, S.SECRET_TOKEN)) == [1, 0, 0, 0, 12] + TOKEN
  {
    TokenIsText();
    U32Shifts(12);
  }

  /** A frame that reaches a ready server: data comes back as the same frame, a PING gets a
      PONG on its stream, a CLOSE gets a CLOSE and starts closing, any other frame nothing. */
  lemma ReadyAnswer(s: seq<byte>)
    requires Take(s).Took?
    ensures var f, n := Take(s).item, Take(s).size;
            S.Handle(Ready, s)
            == if f.header.opcode == 0x01 || f.header.opcode == 0x02 then Handled(Ready, n, FrameBytes(f))
               else if f.header.opcode == 0x03 then
                 Handled(Ready, n, [0x50, 0x57, 0x01, 0x10, 0x04] + Varint.Encode(f.header.streamId) + [0x00])
               else if f.header.opcode == 0x05 then Handled(Closing, n, [0x50, 0x57, 0x01, 0x10, 0x05, 0x00, 0x00])
               else Handled(Ready, n, [])
  {
    var f := Take(s).item;
    ShortHeader(S.CLOSE_HEADER);
    Varint.OneByte(0);
    S.ReadyOutcome(f, Take(s).size);
  }

  /** Reading the answers again: the echo is the frame, and the PONG has the stream of the
      PING and nothing else of it. */
  lemma ReadyAnswerRead(f: Message)
    requires f.header.opcode == 0x01 || f.header.opcode == 0x02 || f.header.opcode == 0x03
    ensures S.Handle(Ready, FrameBytes(f)).Handled?
    ensures var r := Take(S.Handle(Ready, FrameBytes(f)).reply);
            && r.Took?
            && (f.header.opcode != 0x03 ==> r.item == f)
            && (f.header.opcode == 0x03 ==>
                  r.item == Parts(Header(0x01, 0x10, 0x04, f.header.streamId, 0), []))
  {
    TakeWhole(f);
    ReadyAnswer(FrameBytes(f));
    if f.header.opcode == 0x03 {
      var pong := Parts(Header(0x01, 0x10, 0x04, f.header.streamId, 0), []);
      Varint.OneByte(0);
      NilLeft(HeaderBytes(pong.header));
      TakeWhole(pong);
    }
  }

  // ----- the client -----

  /** The hello of the client: version 1, bearer authentication, no resume token. */
  lemma ClientHello()
    ensures ClientHelloBytes(C.HELLO)
            == [0x50, 0x57, 0x01, 0x00, 0x00, 0x00, 0x04] + seq(16, _ => 0) + [0x00]
  {
    U32Shifts(4);
  }

  /** 42 bytes, whatever they are, get the framed request for the secret token. */
  lemma ClientHelloAnswer(text: C.Text, s: seq<byte>)
    ensures C.Handle(text, Handshaking, s)
            == if |s| < 42 then NeedMore
               else Handled(Authenticating, 42, [0x50, 0x57, 0x01, 0x10, 0x06, 0x00, 0x11] + ([1, 0, 0, 0, 12] + TOKEN))
  {
    TokenIsText();
    TokenRequest();
    ShortHeader(C.AuthFrame().header);
  }

  /** AUTH_OK makes the client ready and gets the text on stream 1; before it every frame
      gets nothing and changes nothing. */
  lemma ClientAuthAnswer(text: C.Text, s: seq<byte>)
    requires Take(s).Took?
    ensures var f, n := Take(s).item, Take(s).size;
            C.Handle(text, Authenticating, s)
            == if f.header.opcode == 0x07
               then Handled(Ready, n, [0x50, 0x57, 0x01, 0x10, 0x02, 0x01] + Varint.Encode(|text|) + text)
               else Handled(Authenticating, n, [])
  {
    Varint.OneByte(1);
    DataBytes(text);
    ClientAuthOutcome(text, Take(s).item, Take(s).size);
  }

  lemma {:induction false} DataBytes(text: C.Text)
    ensures FrameBytes(C.DataFrame(text)) == [0x50, 0x57, 0x01, 0x10, 0x02, 0x01] + Varint.Encode(|text|) + text
  {
    Varint.OneByte(1);
    var h := C.DataFrame(text).header;
    assert Fixed(h) + [0x01] == [0x50, 0x57, 0x01, 0x10, 0x02, 0x01];
  }

  lemma ClientAuthOutcome(text: C.Text, f: Message, n: nat)
    ensures C.OnAuthFrame(text, Took(f, n))
            == if f.header.opcode == 0x07 then Handled(Ready, n, FrameBytes(C.DataFrame(text)))
               else Handled(Authenticating, n, [])
  {
  }

  /** A text gets a PING, a PONG gets a CLOSE and starts closing, a CLOSE starts closing and
      gets nothing, and so does any other frame, which changes nothing. */
  lemma ClientReadyAnswer(text: C.Text, s: seq<byte>)
    requires Take(s).Took?
    ensures var f, n := Take(s).item, Take(s).size;
            C.Handle(text, Ready, s)
            == if f.header.opcode == 0x02 then Handled(Ready, n, [0x50, 0x57, 0x01, 0x10, 0x03, 0x00, 0x00])
               else if f.header.opcode == 0x04 then Handled(Closing, n, [0x50, 0x57, 0x01, 0x10, 0x05, 0x00, 0x00])
               else if f.header.opcode == 0x05 then Handled(Closing, n, [])
               else Handled(Ready, n, [])
  {
    ShortHeader(C.PING_HEADER);
    ShortHeader(C.CLOSE_HEADER);
    ClientReadyOutcome(Take(s).item, Take(s).size);
  }

  lemma ClientReadyOutcome(f: Message, n: nat)
    ensures C.OnReadyFrame(Took(f, n))
            == if f.header.opcode == 0x02 then Handled(Ready, n, HeaderBytes(C.PING_HEADER))
               else if f.header.opcode == 0x04 then Handled(Closing, n, HeaderBytes(C.CLOSE_HEADER))
               else if f.header.opcode == 0x05 then Handled(Closing, n, [])
               else Handled(Ready, n, [])
  {
  }
}
