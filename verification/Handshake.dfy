/** Client and server hellos (pw_handshake.c). */
module Handshake {
  import opened Bits
  import opened Bytes

  type Block = s: seq<byte> | |s| == 16 witness seq(16, _ => 0)

  const CAP_AUTH_BEARER: u32 := 0x04
  const CAP_RESUME: u32 := 0x10

  /** `resume` is has_resume_token together with resume_session_id. */
  datatype ClientHello = ClientHello(
    magic1: byte, magic2: byte, version: byte, capabilities: u32, nonce: Block, resume: Option<Block>)

  datatype ServerHello = ServerHello(
    magic1: byte, magic2: byte, version: byte, capabilities: u32, nonce: Block, sessionId: Block,
    status: u16, resumeAccepted: bool)

  datatype ParsedClient = ParsedClient(hello: ClientHello, size: nat)
  datatype ParsedServer = ParsedServer(hello: ServerHello, size: nat)

  const CLIENT_HELLO_SIZE := 24
  const RESUME_HELLO_SIZE := 40
  const SERVER_HELLO_SIZE := 42

  // ----- the RESUME bit -----

  predicate HasResumeBit(caps: u32) { caps % 0x20 >= CAP_RESUME }

  /** The capabilities with the RESUME bit on or off. */
  function WithResumeBit(caps: u32, on: bool): u32 {
    if on == HasResumeBit(caps) then caps
    else if on then caps + CAP_RESUME
    else caps - CAP_RESUME
  }

  lemma BitParts(high: nat, bit: nat, low: nat)
    requires bit < 2 && low < 0x10
    ensures var v := 0x20 * high + 0x10 * bit + low;
            v / 0x20 == high && v % 0x20 == 0x10 * bit + low && v % 0x10 == low
  {
  }

  /** The bit is set as asked and every other bit is kept. */
  lemma ResumeBitOnly(caps: u32, on: bool)
    ensures HasResumeBit(WithResumeBit(caps, on)) == on
    ensures WithResumeBit(caps, on) / 0x20 == caps / 0x20
    ensures WithResumeBit(caps, on) % 0x10 == caps % 0x10
  {
    var high, bit, low := caps / 0x20, caps % 0x20 / 0x10, caps % 0x20 % 0x10;
    assert caps == 0x20 * high + 0x10 * bit + low;
    BitParts(high, bit, low);
    BitParts(high, 1 - bit, low);
  }

  /** What the client serializer makes of a hello. */
  function Normalise(h: ClientHello): ClientHello {
    h.(capabilities := WithResumeBit(h.capabilities, h.resume.Some?))
  }

  // ----- wire images -----

  function ClientHelloBytes(h: ClientHello): (s: seq<byte>)
    ensures |s| == if h.resume.Some? then RESUME_HELLO_SIZE else CLIENT_HELLO_SIZE
  {
    [h.magic1, h.magic2, h.version]
    + U32Bytes(WithResumeBit(h.capabilities, h.resume.Some?))
    + h.nonce
    + (if h.resume.Some? then [1] + h.resume.value else [0])
  }

  function ParseClient(s: seq<byte>): (r: Option<ParsedClient>)
    ensures r.Some? ==> r.value.size <= |s| && r.value.size in {CLIENT_HELLO_SIZE, RESUME_HELLO_SIZE}
  {
    if |s| < CLIENT_HELLO_SIZE || (s[23] == 1 && |s| < RESUME_HELLO_SIZE) then None
    else
      var resume := if s[23] == 1 then Some(s[24..40]) else None;
      Some(ParsedClient(
             ClientHello(s[0], s[1], s[2], U32Of(s[3..7]), s[7..23], resume),
             if s[23] == 1 then RESUME_HELLO_SIZE else CLIENT_HELLO_SIZE))
  }

  function ServerHelloBytes(h: ServerHello): (s: seq<byte>)
    ensures |s| == SERVER_HELLO_SIZE
  {
    [h.magic1, h.magic2, h.version] + U32Bytes(h.capabilities) + h.nonce + h.sessionId
    + U16Bytes(h.status) + [if h.resumeAccepted then 1 else 0]
  }

  function ParseServer(s: seq<byte>): (r: Option<ParsedServer>)
    ensures r.Some? <==> |s| >= SERVER_HELLO_SIZE
    ensures r.Some? ==> r.value.size == SERVER_HELLO_SIZE
  {
    if |s| < SERVER_HELLO_SIZE then None
    else Some(ParsedServer(
                ServerHello(s[0], s[1], s[2], U32Of(s[3..7]), s[7..23], s[23..39], U16Of(s[39..41]), s[41] == 1),
                SERVER_HELLO_SIZE))
  }

  // ----- properties -----

  /** Where the fields of a client hello stand. */
  lemma ClientLayout(h: ClientHello)
    ensures var b, caps := ClientHelloBytes(h), WithResumeBit(h.capabilities, h.resume.Some?);
            && b[..3] == [h.magic1, h.magic2, h.version]
            && b[3..7] == [caps / 0x100_0000, caps / 0x1_0000 % 0x100, caps / 0x100 % 0x100, caps % 0x100]
            && b[7..23] == h.nonce && b[23] == (if h.resume.Some? then 1 else 0)
            && (h.resume.Some? ==> b[24..] == h.resume.value)
  {
    U32Shifts(WithResumeBit(h.capabilities, h.resume.Some?));
  }

  /** Where the fields of a server hello stand. */
  lemma ServerLayout(h: ServerHello)
    ensures var b := ServerHelloBytes(h);
            && b[..3] == [h.magic1, h.magic2, h.version]
            && b[3..7] == U32Bytes(h.capabilities) && b[7..23] == h.nonce && b[23..39] == h.sessionId
            && b[39..41] == [h.status / 0x100, h.status % 0x100] && b[41] == (if h.resumeAccepted then 1 else 0)
            && (forall i :: 7 <= i < 23 ==> b[i] == h.nonce[i - 7])
            && (forall i :: 23 <= i < 39 ==> b[i] == h.sessionId[i - 23])
  {
  }

  /** What the fields of a parsed hello are; only a resume byte of 1 says that a token
      follows, and only a last byte of 1 that it was accepted. */
  lemma ClientFields(s: seq<byte>)
    ensures ParseClient(s).Some? <==> |s| >= 24 && (s[23] == 1 ==> |s| >= 40)
    ensures ParseClient(s).Some? ==>
              var h := ParseClient(s).value.hello;
              && [h.magic1, h.magic2, h.version] == s[..3] && U32Bytes(h.capabilities) == s[3..7] && h.nonce == s[7..23]
              && h.resume == (if s[23] == 1 then Some(s[24..40]) else None)
  {
    if |s| >= 24 { U32Inverse(0, s[3..7]); }
  }

  lemma ServerFields(s: seq<byte>)
    requires |s| >= 42
    ensures var h := ParseServer(s).value.hello;
            && [h.magic1, h.magic2, h.version] == s[..3] && U32Bytes(h.capabilities) == s[3..7]
            && h.nonce == s[7..23] && h.sessionId == s[23..39] && U16Bytes(h.status) == s[39..41]
            && (h.resumeAccepted <==> s[41] == 1)
  {
    U32Inverse(0, s[3..7]);
    U16Inverse(0, s[39..41]);
  }

  /** Every field survives, and the RESUME bit comes to say whether there is a token. */
  lemma ClientRoundTrip(h: ClientHello, rest: seq<byte>)
    ensures ParseClient(ClientHelloBytes(h) + rest) == Some(ParsedClient(Normalise(h), |ClientHelloBytes(h)|))
  {
    var s := ClientHelloBytes(h) + rest;
    var caps := WithResumeBit(h.capabilities, h.resume.Some?);
    U32Inverse(caps, U32Bytes(caps));
    assert s[3..7] == U32Bytes(caps);
    assert s[7..23] == h.nonce;
    if h.resume.Some? {
      assert s[24..40] == h.resume.value;
    }
  }

  /** One pass through the serializer normalises; a second changes nothing. */
  lemma NormaliseOnce(h: ClientHello)
    ensures ClientHelloBytes(Normalise(h)) == ClientHelloBytes(h)
    ensures Normalise(Normalise(h)) == Normalise(h)
    ensures Normalise(h) == h <==> HasResumeBit(h.capabilities) == h.resume.Some?
  {
    ResumeBitOnly(h.capabilities, h.resume.Some?);
  }

  lemma ServerRoundTrip(h: ServerHello, rest: seq<byte>)
    ensures ParseServer(ServerHelloBytes(h) + rest) == Some(ParsedServer(h, SERVER_HELLO_SIZE))
  {
    var s := ServerHelloBytes(h) + rest;
    U32Inverse(h.capabilities, U32Bytes(h.capabilities));
    U16Inverse(h.status, U16Bytes(h.status));
    assert s[3..7] == U32Bytes(h.capabilities);
    assert s[7..23] == h.nonce;
    assert s[23..39] == h.sessionId;
    assert s[39..41] == U16Bytes(h.status);
  }

  /** Re-serializing an accepted client hello reproduces its bytes if and only if its
      resume byte is 0 or 1 and agrees with the RESUME bit. */
  lemma ClientCanonical(s: seq<byte>)
    requires ParseClient(s).Some?
    ensures var p := ParseClient(s).value;
            ClientHelloBytes(p.hello) == s[..p.size] <==>
            s[23] <= 1 && HasResumeBit(U32Of(s[3..7])) == (s[23] == 1)
  {
    var p := ParseClient(s).value;
    var b := ClientHelloBytes(p.hello);
    var caps := U32Of(s[3..7]);
    var out := WithResumeBit(caps, s[23] == 1);
    ResumeBitOnly(caps, s[23] == 1);
    U32Inverse(caps, s[3..7]);
    U32Inverse(out, s[3..7]);
    if b == s[..p.size] {
      assert b[23] == s[23];
      assert b[3..7] == U32Bytes(out);
      SlicePrefix(s, p.size, 3, 7);
      assert out == caps;
    }
    if s[23] <= 1 && HasResumeBit(caps) == (s[23] == 1) {
      HelloPieces(s, p.size);
    }
  }

  lemma HelloPieces(s: seq<byte>, n: nat)
    requires 24 <= n <= |s|
    ensures s[..n] == [s[0], s[1], s[2]] + s[3..7] + s[7..23] + ([s[23]] + s[24..n])
  {
  }

  /** Re-serializing an accepted server hello reproduces its bytes if and only if its last
      byte is 0 or 1. */
  lemma ServerCanonical(s: seq<byte>)
    requires ParseServer(s).Some?
    ensures ServerHelloBytes(ParseServer(s).value.hello) == s[..SERVER_HELLO_SIZE] <==> s[41] <= 1
  {
    var b := ServerHelloBytes(ParseServer(s).value.hello);
    U32Inverse(0, s[3..7]);
    U16Inverse(0, s[39..41]);
    ServerPieces(s);
    assert b[41] <= 1;
  }

  lemma ServerPieces(s: seq<byte>)
    requires |s| >= 42
    ensures s[..42] == [s[0], s[1], s[2]] + s[3..7] + s[7..23] + s[23..39] + s[39..41] + [s[41]]
    ensures s[..42][41] == s[41]
  {
    assert s[..3] == [s[0], s[1], s[2]] && s[..7] == s[..3] + s[3..7] && s[..23] == s[..7] + s[7..23];
    assert s[..39] == s[..23] + s[23..39] && s[..41] == s[..39] + s[39..41] && s[..42] == s[..41] + [s[41]];
  }

  /** The 24/40-byte split: a parsed hello is unfinished on every shorter prefix, also
      between 24 and 39 bytes when it carries a token, and is fixed once complete. */
  lemma ClientStable(s: seq<byte>, t: seq<byte>)
    requires ParseClient(s).Some?
    ensures ParseClient(s + t) == ParseClient(s)
    ensures ParseClient(s[..ParseClient(s).value.size] + t) == ParseClient(s)
    ensures forall k :: 0 <= k < ParseClient(s).value.size ==> ParseClient(s[..k]) == None
  {
    var n := ParseClient(s).value.size;
    ClientExtend(s, t);
    assert s == s[..n] + s[n..];
    ClientCut(s, n);
    ClientExtend(s[..n], t);
  }

  lemma ClientExtend(s: seq<byte>, t: seq<byte>)
    requires ParseClient(s).Some?
    ensures ParseClient(s + t) == ParseClient(s)
  {
    SliceExtend(s, t, 3, 7);
    SliceExtend(s, t, 7, 23);
    if s[23] == 1 {
      SliceExtend(s, t, 24, 40);
    }
  }

  lemma ClientCut(s: seq<byte>, n: nat)
    requires ParseClient(s).Some? && ParseClient(s).value.size <= n <= |s|
    ensures ParseClient(s[..n]) == ParseClient(s)
  {
    SlicePrefix(s, n, 3, 7);
    SlicePrefix(s, n, 7, 23);
    if s[23] == 1 {
      SlicePrefix(s, n, 24, 40);
    }
  }

  lemma ServerExtend(s: seq<byte>, t: seq<byte>)
    requires ParseServer(s).Some?
    ensures ParseServer(s + t) == ParseServer(s)
  {
    SliceExtend(s, t, 3, 7);
    SliceExtend(s, t, 7, 23);
    SliceExtend(s, t, 23, 39);
    SliceExtend(s, t, 39, 41);
  }

  lemma ServerStable(s: seq<byte>, t: seq<byte>)
    requires ParseServer(s).Some?
    ensures ParseServer(s + t) == ParseServer(s)
    ensures ParseServer(s[..SERVER_HELLO_SIZE] + t) == ParseServer(s)
    ensures forall k :: 0 <= k < SERVER_HELLO_SIZE ==> ParseServer(s[..k]) == None
  {
    var n := SERVER_HELLO_SIZE;
    ServerExtend(s, t);
    SlicePrefix(s, n, 3, 7);
    SlicePrefix(s, n, 7, 23);
    SlicePrefix(s, n, 23, 39);
    SlicePrefix(s, n, 39, 41);
    ServerExtend(s[..n], t);
  }

  // ----- the functions of pw_handshake.c -----

  /** `caps |= PW_CAP_RESUME` or `caps &= ~PW_CAP_RESUME` */
  method SetResumeBit(caps: u32, on: bool) returns (r: u32)
    ensures r == WithResumeBit(caps, on)
  {
    Bit10Only(caps);
    if on {
      r := Or(caps, 0x10);
    } else {
      r := And(caps, 0xFFFF_FFEF);
    }
  }

  method SerializeClientHello(h: ClientHello, buffer: array<byte>, at: nat, room: nat) returns (n: nat)
    requires at + room <= buffer.Length
    modifies buffer
    ensures room < |ClientHelloBytes(h)| ==> n == 0 && buffer[..] == old(buffer[..])
    ensures room >= |ClientHelloBytes(h)| ==>
              n == |ClientHelloBytes(h)| && buffer[..] == Splice(old(buffer[..]), at, ClientHelloBytes(h))
  {
    var required := CLIENT_HELLO_SIZE;
    if h.resume.Some? {
      required := required + 16;
    }
    if room < required {
      return 0;
    }
    ghost var base := buffer[..];
    ghost var done := [h.magic1, h.magic2, h.version];
    n := Emit(buffer, at, 0, [h.magic1, h.magic2, h.version], base, []);

    var caps := SetResumeBit(h.capabilities, h.resume.Some?);
    n := EmitU32(buffer, at, n, caps, base, done);
    done := done + U32Bytes(caps);
    n := Emit(buffer, at, n, h.nonce, base, done);
    done := done + h.nonce;

    if h.resume.Some? {
      n := Emit(buffer, at, n, [1], base, done);
      n := Emit(buffer, at, n, h.resume.value, base, done + [1]);
      assert done + [1] + h.resume.value == done + ([1] + h.resume.value);
    } else {
      n := Emit(buffer, at, n, [0], base, done);
    }
  }

  method ParseClientHello(buffer: array<byte>, at: nat, len: nat) returns (r: Option<ParsedClient>)
    requires at + len <= buffer.Length
    ensures r == ParseClient(buffer[at..at + len])
  {
    var required := CLIENT_HELLO_SIZE;
    if len < required {
      return None;
    }
    ghost var b := buffer[..];
    var offset := 3;
    var caps := ReadU32(buffer, at + offset);
    SubSlice(b, at, len, 3, 7);
    offset := offset + 4;
    var nonce: Block := buffer[at + offset..at + offset + 16];
    SubSlice(b, at, len, 7, 23);
    offset := offset + 16;
    var hasResume := buffer[at + offset] == 1;
    offset := offset + 1;
    var resume: Option<Block> := None;
    if hasResume {
      if len < required + 16 {
        return None;
      }
      resume := Some(buffer[at + offset..at + offset + 16]);
      SubSlice(b, at, len, 24, 40);
      offset := offset + 16;
    }
    return Some(ParsedClient(
      ClientHello(buffer[at], buffer[at + 1], buffer[at + 2], caps, nonce, resume), offset));
  }

  method SerializeServerHello(h: ServerHello, buffer: array<byte>, at: nat, room: nat) returns (n: nat)
    requires at + room <= buffer.Length
    modifies buffer
    ensures room < SERVER_HELLO_SIZE ==> n == 0 && buffer[..] == old(buffer[..])
    ensures room >= SERVER_HELLO_SIZE ==>
              n == SERVER_HELLO_SIZE && buffer[..] == Splice(old(buffer[..]), at, ServerHelloBytes(h))
  {
    if room < SERVER_HELLO_SIZE {
      return 0;
    }
    ghost var base := buffer[..];
    ghost var done := [h.magic1, h.magic2, h.version];
    n := Emit(buffer, at, 0, [h.magic1, h.magic2, h.version], base, []);
    n := EmitU32(buffer, at, n, h.capabilities, base, done);
    done := done + U32Bytes(h.capabilities);
    n := Emit(buffer, at, n, h.nonce, base, done);
    done := done + h.nonce;
    n := Emit(buffer, at, n, h.sessionId, base, done);
    done := done + h.sessionId;
    n := EmitU16(buffer, at, n, h.status, base, done);
    done := done + U16Bytes(h.status);
    n := Emit(buffer, at, n, [if h.resumeAccepted then 1 else 0], base, done);
  }

  method ParseServerHello(buffer: array<byte>, at: nat, len: nat) returns (r: Option<ParsedServer>)
    requires at + len <= buffer.Length
    ensures r == ParseServer(buffer[at..at + len])
  {
    if len < SERVER_HELLO_SIZE {
      return None;
    }
    ghost var b := buffer[..];
    var caps := ReadU32(buffer, at + 3);
    SubSlice(b, at, len, 3, 7);
    var nonce: Block := buffer[at + 7..at + 23];
    SubSlice(b, at, len, 7, 23);
    var sessionId: Block := buffer[at + 23..at + 39];
    SubSlice(b, at, len, 23, 39);
    var status := ReadU16(buffer, at + 39);
    SubSlice(b, at, len, 39, 41);
    return Some(ParsedServer(
      ServerHello(buffer[at], buffer[at + 1], buffer[at + 2], caps, nonce, sessionId, status, buffer[at + 41] == 1),
      SERVER_HELLO_SIZE));
  }
}
