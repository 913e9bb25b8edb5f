/** Frame headers (pw_frame.c), and streams of frames. */
module Frame {
  import opened Bytes
  import opened Streams
  import Varint

  const MAGIC_1: byte := 0x50
  const MAGIC_2: byte := 0x57
  const VERSION_1: byte := 0x01
  const FLAG_FIN: byte := 0x10

  const DATA_BINARY: byte := 0x01
  const DATA_TEXT: byte := 0x02
  const PING: byte := 0x03
  const PONG: byte := 0x04
  const CLOSE: byte := 0x05
  const AUTH: byte := 0x06
  const AUTH_OK: byte := 0x07

  datatype Header = Header(version: byte, flags: byte, opcode: byte, streamId: u32, length: u32)

  /** `Bad` is the (size_t)-1 of the parser: five bytes are there and the magic is wrong.
      `Incomplete` is its 0: more bytes are needed, or a varint can never decode. */
  datatype Parsed = Incomplete | Bad | Ok(header: Header, size: nat)

  function Fixed(h: Header): (s: seq<byte>)
    ensures |s| == 5
  {
    [MAGIC_1, MAGIC_2, h.version, h.flags, h.opcode]
  }

  function HeaderBytes(h: Header): (s: seq<byte>)
    ensures |s| >= 7
  {
    Fixed(h) + Varint.Encode(h.streamId) + Varint.Encode(h.length)
  }

  function HeaderSize(h: Header): nat { |HeaderBytes(h)| }

  function Parse(s: seq<byte>): (r: Parsed)
    ensures r.Ok? ==> 7 <= r.size <= |s|
  {
    if |s| < 5 then Incomplete
    else if s[0] != MAGIC_1 || s[1] != MAGIC_2 then Bad
    else
      match Varint.Decode(s, 5)
      case None => Incomplete
      case Some(id) =>
        match Varint.Decode(s, 5 + id.size)
        case None => Incomplete
        case Some(len) => Ok(Header(s[2], s[3], s[4], id.value, len.value), 5 + id.size + len.size)
  }

  // ----- header properties -----

  lemma HeaderRoundTrip(h: Header, rest: seq<byte>)
    ensures Parse(HeaderBytes(h) + rest) == Ok(h, HeaderSize(h))
  {
    var f, id, len := Fixed(h), Varint.Encode(h.streamId), Varint.Encode(h.length);
    Varint.RoundTrip(f, h.streamId, len + rest);
    Varint.RoundTrip(f + id, h.length, rest);
    assert f + id + len + rest == f + id + (len + rest);
  }

  lemma ParseExtend(s: seq<byte>, t: seq<byte>)
    requires Parse(s).Ok?
    ensures Parse(s + t) == Parse(s)
  {
    Varint.DecodeExtend(s, 5, t);
    Varint.DecodeExtend(s, 5 + Varint.Decode(s, 5).value.size, t);
  }

  lemma ParsePrefix(s: seq<byte>, k: nat)
    requires Parse(s).Ok? && k <= |s|
    ensures Parse(s[..k]) == if k < Parse(s).size then Incomplete else Parse(s)
  {
    if k >= 5 {
      var n := Varint.Decode(s, 5).value.size;
      Varint.DecodePrefix(s, 5, k);
      if k >= 5 + n {
        Varint.DecodePrefix(s, 5 + n, k);
      }
    }
  }

  /** A parsed header of n bytes is Incomplete on every shorter prefix and unchanged by
      whatever follows those n bytes; a wrong magic stays wrong. */
  lemma ParseStable(s: seq<byte>, t: seq<byte>)
    ensures Parse(s).Ok? ==> Parse(s + t) == Parse(s)
    ensures Parse(s).Ok? ==> Parse(s[..Parse(s).size] + t) == Parse(s)
    ensures Parse(s).Ok? ==> forall k :: 0 <= k < Parse(s).size ==> Parse(s[..k]) == Incomplete
    ensures Parse(s).Bad? ==> Parse(s + t).Bad?
  {
    if Parse(s).Ok? {
      var n := Parse(s).size;
      ParseExtend(s, t);
      ParsePrefix(s, n);
      ParseExtend(s[..n], t);
      forall k | 0 <= k < n ensures Parse(s[..k]) == Incomplete {
        ParsePrefix(s, k);
      }
    }
  }

  /** Re-encoding what was parsed never needs more bytes than were parsed. */
  lemma ReencodeNotLonger(s: seq<byte>)
    requires Parse(s).Ok?
    ensures HeaderSize(Parse(s).header) <= Parse(s).size
  {
    Varint.ReencodeNotLonger(s, 5);
    Varint.ReencodeNotLonger(s, 5 + Varint.Decode(s, 5).value.size);
  }

  /** The varint of a parsed header that ends before byte `end` is not longer than needed. */
  predicate Tight(s: seq<byte>, start: nat, end: nat)
    requires start < end <= |s|
  {
    end == start + 1 || s[end - 1] != 0
  }

  /** Where the first varint of a parsed header ends. */
  function IdEnd(s: seq<byte>): (n: nat)
    requires Parse(s).Ok?
    ensures 5 < n < Parse(s).size
  {
    5 + Varint.Decode(s, 5).value.size
  }

  /** Re-encoding a parsed header gives exactly its bytes if and only if neither of its
      varints is longer than needed. */
  lemma HeaderCanonical(s: seq<byte>)
    requires Parse(s).Ok?
    ensures HeaderBytes(Parse(s).header) == s[..Parse(s).size]
            <==> Tight(s, 5, IdEnd(s)) && Tight(s, IdEnd(s), Parse(s).size)
  {
    var h, i, n := Parse(s).header, IdEnd(s), Parse(s).size;
    Varint.ReencodeExactly(s, 5);
    Varint.ReencodeExactly(s, i);
    Varint.ReencodeNotLonger(s, 5);
    Varint.ReencodeNotLonger(s, i);
    HeaderPieces(s, i, n);
    assert Fixed(h) == s[..5];
  }

  lemma HeaderPieces(s: seq<byte>, i: nat, n: nat)
    requires 5 <= i <= n <= |s|
    ensures s[..n] == s[..5] + s[5..i] + s[i..n]
  {
  }

  lemma HeaderSizeBound(h: Header)
    ensures HeaderSize(h) <= 15
  {
    Varint.U32EncodeSize(h.streamId);
    Varint.U32EncodeSize(h.length);
  }

  // ----- whole frames -----

  datatype Parts = Parts(header: Header, payload: seq<byte>)
  type Message = m: Parts | |m.payload| == m.header.length
    witness Parts(Header(0, 0, 0, 0, 0), [])

  function FrameBytes(f: Message): (s: seq<byte>)
    ensures |s| >= 7
  {
    HeaderBytes(f.header) + f.payload
  }

  /** The test every receive loop makes: a whole header, and `read_len >= parsed + frame.length`. */
  function Take(s: seq<byte>): (r: Taken<Message>)
    ensures r.Took? ==> 7 <= r.size <= |s|
  {
    match Parse(s)
    case Incomplete => NotYet
    case Bad => Broken
    case Ok(h, n) =>
      if |s| < n + h.length then NotYet else Took(Parts(h, s[n..n + h.length]), n + h.length)
  }

  /** `parsed > 0 && read_len >= parsed + frame.length` */
  predicate Complete(r: Parsed, len: nat) {
    r.Ok? && len >= r.size + r.header.length
  }

  lemma TakeParsed(s: seq<byte>, r: Parsed)
    requires r == Parse(s)
    ensures Take(s).Took? <==> Complete(r, |s|)
    ensures Complete(r, |s|) ==>
              && Take(s).size == r.size + r.header.length && Take(s).item.header == r.header
              && Take(s).item.payload == s[r.size..r.size + r.header.length]
  {
  }

  lemma TakeStable(s: seq<byte>, t: seq<byte>)
    ensures Take(s).Took? ==> Take(s + t) == Take(s)
    ensures Take(s).Broken? ==> Take(s + t).Broken?
  {
    ParseStable(s, t);
    if Take(s).Took? {
      SliceExtend(s, t, Parse(s).size, Take(s).size);
    }
  }

  /** A frame is taken as soon as just its bytes are there. */
  lemma TakeCut(s: seq<byte>)
    requires Take(s).Took?
    ensures Take(s[..Take(s).size]) == Take(s)
  {
    var n, k := Parse(s).size, Take(s).size;
    ParsePrefix(s, k);
    SlicePrefix(s, k, n, k);
  }

  /** A taken frame, sent again, is never longer than the bytes it was taken from. */
  lemma ResendNotLonger(s: seq<byte>)
    requires Take(s).Took?
    ensures |FrameBytes(Take(s).item)| <= Take(s).size
  {
    ReencodeNotLonger(s);
  }

  lemma MiddlePart(a: seq<byte>, b: seq<byte>, c: seq<byte>)
    ensures a + b + c == a + (b + c)
    ensures (a + b + c)[|a|..|a| + |b|] == b
  {
  }

  lemma TakeRoundTrip(f: Message, rest: seq<byte>)
    ensures Take(FrameBytes(f) + rest) == Took(f, |FrameBytes(f)|)
  {
    HeaderRoundTrip(f.header, f.payload + rest);
    MiddlePart(HeaderBytes(f.header), f.payload, rest);
  }

  lemma TakeWhole(f: Message)
    ensures Take(FrameBytes(f)) == Took(f, |FrameBytes(f)|)
  {
    TakeRoundTrip(f, []);
    NilLeft(FrameBytes(f));
  }

  /** A frame cut inside its payload: the receiver makes up the missing bytes from whatever
      comes next, and takes a frame nobody sent. */
  lemma CutFrameTakesNext(f: Message, k: nat, next: seq<byte>)
    requires HeaderSize(f.header) <= k <= |FrameBytes(f)| <= k + |next|
    ensures var missing := |FrameBytes(f)| - k;
            Take(FrameBytes(f)[..k] + next)
            == Took(Parts(f.header, f.payload[..k - HeaderSize(f.header)] + next[..missing]), |FrameBytes(f)|)
  {
    var hb, missing := HeaderBytes(f.header), |FrameBytes(f)| - k;
    var g: Message := Parts(f.header, f.payload[..k - |hb|] + next[..missing]);
    CutBehind(hb, f.payload, k);
    Split(next, missing);
    Assoc(f.payload[..k - |hb|], next[..missing], next[missing..]);
    Assoc(hb, f.payload[..k - |hb|], next);
    Assoc(hb, g.payload, next[missing..]);
    TakeRoundTrip(g, next[missing..]);
  }

  lemma TakePrefix(f: Message, k: nat)
    requires k < |FrameBytes(f)|
    ensures Take(FrameBytes(f)[..k]) == NotYet
  {
    HeaderRoundTrip(f.header, f.payload);
    ParsePrefix(FrameBytes(f), k);
  }

  // ----- streams of frames -----

  lemma FramesArePrefixCode()
    ensures PrefixCode(FrameBytes, Take)
  {
    forall f: Message, rest: seq<byte> ensures Take(FrameBytes(f) + rest) == Took(f, |FrameBytes(f)|) {
      TakeRoundTrip(f, rest);
    }
    forall f: Message, k | 0 <= k < |FrameBytes(f)| ensures Take(FrameBytes(f)[..k]) == NotYet {
      TakePrefix(f, k);
    }
  }

  /** Concatenate any frames and cut the stream after k bytes: the receive loop yields the
      whole frames before the cut and keeps a proper prefix of the next one. */
  lemma FrameStreamDecodes(fs: seq<Message>, k: nat)
    requires k <= |Stream(FrameBytes, fs)|
    ensures var m := Whole(FrameBytes, fs, k);
            var (out, rest) := TakeAll(Take, Stream(FrameBytes, fs)[..k]);
            && out == fs[..m]
            && Stream(FrameBytes, fs)[..k] == Stream(FrameBytes, fs[..m]) + rest
            && (m == |fs| ==> rest == [])
            && (m < |fs| ==> rest < FrameBytes(fs[m]))
  {
    FramesArePrefixCode();
    DecodeCutStream(FrameBytes, Take, fs, k);
  }

  lemma FrameStreamInjective(fs: seq<Message>, gs: seq<Message>)
    requires Stream(FrameBytes, fs) == Stream(FrameBytes, gs)
    ensures fs == gs
  {
    FramesArePrefixCode();
    StreamInjective(FrameBytes, Take, fs, gs);
  }

  // ----- the functions of pw_frame.c -----

  method EmitVarint(buffer: array<byte>, start: nat, offset: nat, v: u32,
                    ghost base: seq<byte>, ghost done: seq<byte>) returns (next: nat)
    requires offset == |done| && start + offset + |Varint.Encode(v)| <= buffer.Length == |base|
    requires buffer[..] == Splice(base, start, done)
    modifies buffer
    ensures next == offset + |Varint.Encode(v)|
    ensures buffer[..] == Splice(base, start, done + Varint.Encode(v))
  {
    var n := Varint.Encode32(v, buffer, start + offset);
    SpliceTwice(base, start, done, Varint.Encode(v));
    next := offset + n;
  }

  /** pw_frame_header_size: encode both varints into a dummy buffer, for their sizes. */
  method MeasureHeader(h: Header) returns (size: nat)
    ensures size == HeaderSize(h)
  {
    Varint.U32EncodeSize(h.streamId);
    Varint.U32EncodeSize(h.length);
    var dummy := new byte[5](_ => 0);
    size := 5;
    var n := Varint.Encode32(h.streamId, dummy, 0);
    size := size + n;
    n := Varint.Encode32(h.length, dummy, 0);
    size := size + n;
  }

  /** 0 and an untouched buffer when there is no room for the header. */
  method SerializeHeader(h: Header, buffer: array<byte>, at: nat, room: nat) returns (n: nat)
    requires at + room <= buffer.Length
    modifies buffer
    ensures room < HeaderSize(h) ==> n == 0 && buffer[..] == old(buffer[..])
    ensures room >= HeaderSize(h) ==>
              n == HeaderSize(h) && buffer[..] == Splice(old(buffer[..]), at, HeaderBytes(h))
  {
    var required := MeasureHeader(h);
    if room < required {
      return 0;
    }
    ghost var base := buffer[..];
    n := Emit(buffer, at, 0, [MAGIC_1, MAGIC_2, h.version, h.flags, h.opcode], base, []);
    n := EmitVarint(buffer, at, n, h.streamId, base, Fixed(h));
    n := EmitVarint(buffer, at, n, h.length, base, Fixed(h) + Varint.Encode(h.streamId));
  }

  method ParseHeader(buffer: array<byte>, at: nat, len: nat) returns (r: Parsed)
    requires at + len <= buffer.Length
    ensures r == Parse(buffer[at..at + len])
  {
    if len < 5 {
      return Incomplete;
    }
    ghost var s := buffer[at..at + len];
    var magic1, magic2 := buffer[at], buffer[at + 1];
    var version, flags, opcode := buffer[at + 2], buffer[at + 3], buffer[at + 4];
    if magic1 != MAGIC_1 || magic2 != MAGIC_2 {
      return Bad;
    }
    var offset := 5;
    var n, streamId := DecodeVarint(buffer, at, offset, len);
    if n == 0 {
      return Incomplete;
    }
    offset := offset + n;
    var length;
    n, length := DecodeVarint(buffer, at, offset, len);
    if n == 0 {
      return Incomplete;
    }
    offset := offset + n;
    return Ok(Header(version, flags, opcode, streamId, length), offset);
  }

  /** pw_varint_decode32(buffer + offset, len - offset), seen from the window at `at`. */
  method DecodeVarint(buffer: array<byte>, at: nat, offset: nat, len: nat) returns (n: nat, value: u32)
    requires offset <= len && at + len <= buffer.Length
    ensures n > 0 <==> Varint.Decode(buffer[at..at + len], offset).Some?
    ensures n > 0 ==> Varint.Decode(buffer[at..at + len], offset) == Some(Varint.Decoded(value, n))
  {
    n, value := Varint.Decode32(buffer, at + offset, len - offset);
    ghost var s := buffer[at..at + len];
    ghost var w := buffer[at + offset..at + offset + (len - offset)];
    SubSlice(buffer[..], at, len, offset, len);
    DecodeRest(s, offset, w);
  }

  /** A varint decodes alike in a window and in what is left of the window. */
  lemma DecodeRest(s: seq<byte>, offset: nat, w: seq<byte>)
    requires offset <= |s| && w == s[offset..|s|]
    ensures Varint.Decode(s, offset) == Varint.Decode(w, 0)
  {
    if Varint.Decode(w, 0).Some? {
      Varint.DecodeSame(w, 0, s, offset, |w|);
    } else if Varint.Decode(s, offset).Some? {
      Varint.DecodeSame(s, offset, w, 0, |w|);
    }
  }
}
