/** When a server's replies fit into its write window: nothing in the loop checks it. */
module ServerRoom {
  import opened Bytes
  import opened Buffers
  import opened Connection
  import opened Dispatch
  import opened Frame
  import opened Handshake
  import opened ServerLoop
  import opened ServerTrace
  import opened Streams
  import Auth
  import Varint

  /** The most that n bytes can be answered with, when the loop starts in st: 42 bytes for
      each hello of 24; 7 for the AUTH frame, which takes 24 at least, and then, as for a
      ready server, as much as comes in frames. */
  function Most(st: State, n: nat): nat {
    match st
    case Handshaking => SERVER_HELLO_SIZE * (n / CLIENT_HELLO_SIZE)
    case Authenticating => if n < 24 then 0 else if n < 31 then 7 else n - 17
    case Ready => if n < 7 then 0 else n
    case _ => 0
  }

  // ----- no more is sent -----

  lemma GoodAuthSize(s: seq<byte>)
    requires Take(s).Took? && GoodAuth(Take(s).item)
    ensures Take(s).size >= 24 && HeaderSize(AUTH_OK_HEADER) == 7
  {
    GoodAuthExactly(Take(s).item);
    ResendNotLonger(s);
    EmptyFrameSize(AUTH_OK_HEADER);
  }

  lemma MoreHellos(size: nat, n: nat)
    requires size >= CLIENT_HELLO_SIZE
    ensures SERVER_HELLO_SIZE + Most(Handshaking, n) <= Most(Handshaking, size + n)
    ensures Most(Authenticating, n) <= Most(Handshaking, n)
  {
    assert (24 + n) / 24 == n / 24 + 1;
    assert (size + n) / 24 >= (24 + n) / 24;
    var q, r := n / 24, n % 24;
    assert n == 24 * q + r;
  }

  /** One message in front. */
  lemma MostStep(st: State, s: seq<byte>, n: nat)
    requires Handle(st, s).Handled?
    ensures var o := Handle(st, s); |o.reply| + Most(o.next, n) <= Most(st, o.size + n)
  {
    var o := Handle(st, s);
    if st == Handshaking {
      MoreHellos(o.size, n);
    } else if st == Authenticating {
      if GoodAuth(Take(s).item) {
        GoodAuthSize(s);
      }
    } else {
      FrameReplyBound(s);
    }
  }

  lemma MostCovers()
    ensures Covers(Handle, Most)
  {
    forall st, s: seq<byte>, n: nat | Handle(st, s).Handled?
      ensures |Handle(st, s).reply| + Most(Handle(st, s).next, n) <= Most(st, Handle(st, s).size + n)
    {
      MostStep(st, s, n);
    }
  }

  /** Over every run, the bytes handled are answered with no more than Most. */
  lemma MostIsSent(st: State, s: seq<byte>)
    ensures |Fold(Handle, st, s).rest| <= |s|
    ensures |Fold(Handle, st, s).out| <= Most(st, |s| - |Fold(Handle, st, s).rest|)
  {
    HandleStable();
    MostCovers();
    FoldCovered(Handle, Most, st, s);
  }

  lemma MostGrows(st: State, m: nat, n: nat)
    requires m <= n
    ensures Most(st, m) <= Most(st, n)
  {
    assert m / 24 <= n / 24;
  }

  lemma RepliesFit(st: State, s: seq<byte>)
    ensures |Fold(Handle, st, s).out| <= Most(st, |s|)
  {
    MostIsSent(st, s);
    MostGrows(st, |s| - |Fold(Handle, st, s).rest|, |s|);
  }

  // ----- as much is sent -----

  function Zeros(n: nat): (s: seq<byte>)
    ensures |s| == n
  {
    seq(n, _ => 0)
  }

  lemma ZeroHello(n: nat)
    requires n >= CLIENT_HELLO_SIZE
    ensures Handle(Handshaking, Zeros(n)).Handled?
    ensures var o := Handle(Handshaking, Zeros(n));
            o.next == Handshaking && o.size == CLIENT_HELLO_SIZE && |o.reply| == SERVER_HELLO_SIZE
            && Zeros(n)[o.size..] == Zeros(n - o.size)
  {
  }

  lemma FewZeros(n: nat)
    requires n < CLIENT_HELLO_SIZE
    ensures Handle(Handshaking, Zeros(n)) == NeedMore
  {
  }

  lemma ZerosStep(n: nat)
    requires n >= CLIENT_HELLO_SIZE
    ensures var s, t := Zeros(n), Zeros(n - CLIENT_HELLO_SIZE);
            && (Clean(Handle, Handshaking, s) <==> Clean(Handle, Handshaking, t))
            && |Fold(Handle, Handshaking, s).out| == SERVER_HELLO_SIZE + |Fold(Handle, Handshaking, t).out|
  {
    ZeroHello(n);
    FoldMore(Handle, Handshaking, Zeros(n));
  }

  /** Zeros are read as refused hellos, of version 0. */
  lemma {:induction false} ZerosRun(k: nat, n: nat)
    requires 24 * k <= n
    ensures |Fold(Handle, Handshaking, Zeros(n)).out| >= 42 * k
  {
    if k > 0 {
      ZerosStep(n);
      ZerosRun(k - 1, n - 24);
    }
  }

  lemma {:induction false} ZerosClean(n: nat)
    ensures Clean(Handle, Handshaking, Zeros(n))
  {
    if n < CLIENT_HELLO_SIZE {
      FewZeros(n);
    } else {
      ZerosClean(n - CLIENT_HELLO_SIZE);
      ZerosStep(n);
    }
  }

  lemma VarintSizes(v: nat)
    requires v < 0x4000
    ensures |Varint.Encode(v)| == if v < 0x80 then 1 else 2
  {
    Varint.Pow128Values();
    Varint.EncodeSize(v, 1);
    Varint.EncodeSize(v, 2);
  }

  /** A data frame of exactly n bytes; 135 takes a longer stream id. */
  function DataOfSize(n: nat): Message
    requires 7 <= n <= BUFFER_SIZE
  {
    var id: u32 := if n == 135 then 0x80 else 0;
    var length: u32 := if n < 135 then n - 7 else n - 8;
    Parts(Header(VERSION_1, FLAG_FIN, DATA_BINARY, id, length), Zeros(length))
  }

  lemma DataHasSize(n: nat)
    requires 7 <= n <= BUFFER_SIZE
    ensures |FrameBytes(DataOfSize(n))| == n
  {
    var h := DataOfSize(n).header;
    VarintSizes(h.streamId);
    VarintSizes(h.length);
  }

  lemma DataTurn(f: Message)
    requires f.header.opcode == DATA_BINARY
    ensures Turns(Handle, Ready, FrameBytes(f), Ready, FrameBytes(f))
  {
    ReadyTurn(f);
  }

  /** An AUTH frame of exactly n bytes, the request for the secret token at its front. */
  function AuthOfSize(n: nat): Message
    requires 24 <= n < 31
  {
    Parts(Header(VERSION_1, FLAG_FIN, AUTH, 0, n - 7),
          Auth.RequestBytes(Auth.Request(Auth.METHOD_BEARER, SECRET_TOKEN)) + Zeros(n - 24))
  }

  lemma AuthHasSize(n: nat)
    requires 24 <= n < 31
    ensures |FrameBytes(AuthOfSize(n))| == n && GoodAuth(AuthOfSize(n))
  {
    VarintSizes(0);
    VarintSizes(n - 7);
    GoodAuthExactly(AuthOfSize(n));
  }

  lemma AuthTakes(f: Message)
    requires GoodAuth(f)
    ensures Turns(Handle, Authenticating, FrameBytes(f), Ready, HeaderBytes(AUTH_OK_HEADER))
  {
    TakeWhole(f);
    AuthTurn(FrameBytes(f), true);
  }

  /** Two messages, one after the other. */
  lemma TurnThen(h: Handler, st: State, seg: seq<byte>, next: State, reply: seq<byte>, rest: seq<byte>)
    requires Stable(h) && Turns(h, st, seg, next, reply)
    ensures Clean(h, st, seg + rest) <==> Clean(h, next, rest)
    ensures |Fold(h, st, seg + rest).out| == |reply| + |Fold(h, next, rest).out|
  {
    FoldSegment(h, st, seg, next, reply, rest);
    DropWhole(seg, rest);
    assert h(st, seg + rest) == h(st, seg);
  }

  lemma NothingLeft(h: Handler, st: State)
    ensures Clean(h, st, []) && Fold(h, st, []).out == []
  {
  }

  lemma AuthReached(n: nat) returns (s: seq<byte>)
    requires 24 <= n <= BUFFER_SIZE
    ensures |s| == n && Clean(Handle, Authenticating, s)
    ensures |Fold(Handle, Authenticating, s).out| == Most(Authenticating, n)
  {
    var first := if n < 31 then n else 24;
    var auth := FrameBytes(AuthOfSize(first));
    AuthHasSize(first);
    AuthTakes(AuthOfSize(first));
    EmptyFrameSize(AUTH_OK_HEADER);
    HandleStable();
    var rest: seq<byte> := [];
    NothingLeft(Handle, Ready);
    if n >= 31 {
      rest := ReadyReached(n - 24);
    }
    TurnThen(Handle, Authenticating, auth, Ready, HeaderBytes(AUTH_OK_HEADER), rest);
    s := auth + rest;
  }

  lemma ReadyReached(n: nat) returns (s: seq<byte>)
    requires 7 <= n <= BUFFER_SIZE
    ensures |s| == n && Clean(Handle, Ready, s) && |Fold(Handle, Ready, s).out| == n
  {
    s := FrameBytes(DataOfSize(n));
    DataHasSize(n);
    DataTurn(DataOfSize(n));
    HandleStable();
    NothingLeft(Handle, Ready);
    TurnThen(Handle, Ready, s, Ready, s, []);
    NilLeft(s);
  }

  /** Most is the least bound: some clean input of n bytes is answered with that much. */
  lemma MostReached(st: State, n: nat) returns (s: seq<byte>)
    requires n <= BUFFER_SIZE && Most(st, n) > 0
    ensures |s| == n && Clean(Handle, st, s) && |Fold(Handle, st, s).out| == Most(st, n)
  {
    match st
    case Handshaking =>
      s := Zeros(n);
      ZerosClean(n);
      ZerosRun(n / 24, n);
      RepliesFit(st, s);
    case Authenticating => s := AuthReached(n);
    case Ready => s := ReadyReached(n);
  }

  // ----- who has room -----

  /** Are the hypotheses of the loop met for every clean window of n bytes? */
  ghost predicate HasRoom(st: State, pos: nat, unsent: seq<byte>, n: nat) {
    forall s: seq<byte> | |s| == n && Clean(Handle, st, s) ::
      Safe(Handle, Endpoint(st, [], pos, unsent), s, BUFFER_SIZE)
  }

  /** Which servers have room for the replies to every clean window of n bytes, whatever
      their state and whatever is unsent: exactly those that cannot owe a reply to n bytes,
      or whose unsent bytes start at offset 0 and leave the most that can be owed. */
  lemma RoomExactly(st: State, pos: nat, unsent: seq<byte>, n: nat)
    requires n <= BUFFER_SIZE
    ensures HasRoom(st, pos, unsent, n) <==>
            Most(st, n) == 0 || (pos == 0 && |unsent| + Most(st, n) <= BUFFER_SIZE)
  {
    var e := Endpoint(st, [], pos, unsent);
    if Most(st, n) == 0 || (pos == 0 && |unsent| + Most(st, n) <= BUFFER_SIZE) {
      forall s: seq<byte> | |s| == n && Clean(Handle, st, s) ensures Safe(Handle, e, s, BUFFER_SIZE) {
        NilLeft(s);
        RepliesFit(st, s);
      }
    } else {
      var s := MostReached(st, n);
      NilLeft(s);
      assert !Safe(Handle, e, s, BUFFER_SIZE);
    }
  }

  lemma MostWithinBuffer(st: State, n: nat)
    requires n <= BUFFER_SIZE
    ensures Most(st, n) <= BUFFER_SIZE <==> st != Handshaking || n < 98 * CLIENT_HELLO_SIZE
  {
  }

  /** With nothing unsent the read window itself bounds the replies, except to hellos: from
      98 hellos on, 42 bytes each no longer fit. */
  lemma EmptyOutboxIsSafe(st: State, n: nat)
    requires n <= BUFFER_SIZE
    ensures HasRoom(st, 0, [], n) <==> st != Handshaking || n < 98 * CLIENT_HELLO_SIZE
  {
    RoomExactly(st, 0, [], n);
    MostWithinBuffer(st, n);
  }
}
