/** What a server connection can have seen and said, over every input stream. */
module ServerTrace {
  import opened Bytes
  import opened Connection
  import opened Dispatch
  import opened Frame
  import opened Handshake
  import opened ServerLoop
  import opened Streams
  import Auth
  import Varint

  // ----- how much a server can send -----

  /** How many hellos the loop handles. */
  function Hellos(st: State, s: seq<byte>): nat
    decreases |s|
  {
    if s == [] then 0
    else
      match Handle(st, s)
      case Handled(next, n, _) =>
        if 0 < n <= |s| then (if st == Handshaking then 1 else 0) + Hellos(next, s[n..]) else 0
      case _ => 0
  }

  lemma EmptyFrameSize(h: Header)
    requires h.length == 0
    ensures HeaderSize(h) == 6 + |Varint.Encode(h.streamId)|
    ensures h.streamId == 0 ==> HeaderSize(h) == 7
  {
    assert Varint.Encode(0) == [0];
  }

  /** A frame's reply is never longer than the bytes the frame was taken from. */
  lemma FrameReplyBound(s: seq<byte>)
    requires Take(s).Took?
    ensures |FrameReply(Take(s).item)| <= Take(s).size
  {
    var f := Take(s).item;
    ResendNotLonger(s);
    EmptyFrameSize(PongHeader(f.header));
    EmptyFrameSize(CLOSE_HEADER);
  }

  lemma ReplyBound(st: State, s: seq<byte>)
    requires Handle(st, s).Handled?
    ensures 4 * |Handle(st, s).reply| <= 7 * Handle(st, s).size
    ensures |Handle(st, s).reply| <= Handle(st, s).size + if st == Handshaking then 18 else 0
  {
    if st == Authenticating {
      EmptyFrameSize(AUTH_OK_HEADER);
    } else if st == Ready {
      FrameReplyBound(s);
    }
  }

  /** Over every run: at most 7 bytes out for 4 bytes in, and at most 18 bytes more out than
      in for each hello. */
  lemma {:induction false} OutputBound(st: State, s: seq<byte>)
    ensures var f := Fold(Handle, st, s);
            && |f.rest| <= |s|
            && 4 * |f.out| <= 7 * (|s| - |f.rest|)
            && |f.out| <= |s| - |f.rest| + 18 * Hellos(st, s)
    decreases |s|
  {
    if s != [] && Handle(st, s).Handled? {
      var o := Handle(st, s);
      HandleCut(st, s);
      ReplyBound(st, s);
      FoldMore(Handle, st, s);
      OutputBound(o.next, s[o.size..]);
    }
  }

  lemma RefusedTurn(s: seq<byte>)
    requires |s| == CLIENT_HELLO_SIZE && s[23] != 1 && s[2] != VERSION_1
    ensures Turns(Handle, Handshaking, s, Handshaking, HelloAnswer(s)) && |HelloAnswer(s)| == SERVER_HELLO_SIZE
  {
  }

  lemma HellosCons(s: seq<byte>, rest: seq<byte>)
    requires Handle(Handshaking, s + rest) == Handle(Handshaking, s)
    requires Turns(Handle, Handshaking, s, Handshaking, HelloAnswer(s))
    ensures Hellos(Handshaking, s + rest) == 1 + Hellos(Handshaking, rest)
  {
    DropWhole(s, rest);
  }

  /** Both bounds are attained by any number of refused 24-byte hellos. */
  lemma {:induction false} OutputBoundTight(hellos: seq<seq<byte>>)
    requires forall s | s in hellos :: |s| == CLIENT_HELLO_SIZE && s[23] != 1 && s[2] != VERSION_1
    ensures var f := Run(Concat(hellos));
            && f.rest == [] && Hellos(Handshaking, Concat(hellos)) == |hellos|
            && 4 * |f.out| == 7 * |Concat(hellos)|
            && |f.out| == |Concat(hellos)| + 18 * |hellos|
    decreases |hellos|
  {
    if hellos != [] {
      var s, tail := hellos[0], Concat(hellos[1..]);
      OutputBoundTight(hellos[1..]);
      HandleStable();
      RefusedTurn(s);
      FoldSegment(Handle, Handshaking, s, Handshaking, HelloAnswer(s), tail);
      HellosCons(s, tail);
    }
  }

  // ----- what a server must have seen -----

  predicate HelloOf(seg: seq<byte>, accepted: bool) {
    ParseClient(seg).Some? && ParseClient(seg).value.size == |seg|
    && (ParseClient(seg).value.hello.version == VERSION_1) == accepted
  }

  predicate FrameOf(seg: seq<byte>) {
    Take(seg).Took? && Take(seg).size == |seg|
  }

  predicate AuthOf(seg: seq<byte>, good: bool) {
    FrameOf(seg) && GoodAuth(Take(seg).item) == good
  }

  predicate DataOf(seg: seq<byte>, close: bool) {
    FrameOf(seg) && (Take(seg).item.header.opcode == CLOSE) == close
  }

  function HelloAnswer(seg: seq<byte>): seq<byte> {
    match ParseClient(seg)
    case Some(p) => ServerHelloBytes(HelloReply(p.hello))
    case None => []
  }

  function FrameAnswer(seg: seq<byte>): seq<byte> {
    match Take(seg)
    case Took(f, _) => FrameReply(f)
    case _ => []
  }

  function NoAnswer(seg: seq<byte>): seq<byte> { [] }

  /** hellos of another version, a hello of version 1, frames that do not validate, the
      AUTH frame, ordinary frames, perhaps a CLOSE frame. */
  datatype Trace = Trace(
    refused: seq<seq<byte>>, hello: seq<byte>, failed: seq<seq<byte>>, auth: seq<byte>,
    frames: seq<seq<byte>>, close: Option<seq<byte>>)

  ghost predicate Grammatical(t: Trace) {
    && (forall s | s in t.refused :: HelloOf(s, false))
    && HelloOf(t.hello, true)
    && (forall s | s in t.failed :: AuthOf(s, false))
    && AuthOf(t.auth, true)
    && (forall s | s in t.frames :: DataOf(s, false))
    && (t.close.Some? ==> DataOf(t.close.value, true))
  }

  function CloseBytes(t: Trace): seq<byte> {
    if t.close.Some? then t.close.value else []
  }

  function Received(t: Trace): seq<byte> {
    Concat(t.refused) + (t.hello + (Concat(t.failed) + (t.auth + (Concat(t.frames) + CloseBytes(t)))))
  }

  /** No echo, PONG or CLOSE before AUTH_OK: up to there only hello replies. */
  function Replied(t: Trace): seq<byte> {
    Answers(HelloAnswer, t.refused) + (HelloAnswer(t.hello) + (HeaderBytes(AUTH_OK_HEADER)
    + (Answers(FrameAnswer, t.frames) + CloseAnswer(t))))
  }

  // One message of each kind.

  lemma HelloTurn(s: seq<byte>, accepted: bool)
    ensures HelloOf(s, accepted) <==>
            Turns(Handle, Handshaking, s, if accepted then Authenticating else Handshaking, HelloAnswer(s))
  {
  }

  lemma AuthTurn(s: seq<byte>, good: bool)
    ensures AuthOf(s, good) <==>
            Turns(Handle, Authenticating, s, if good then Ready else Authenticating,
                  if good then HeaderBytes(AUTH_OK_HEADER) else NoAnswer(s))
  {
  }

  lemma FrameTurn(s: seq<byte>, close: bool)
    ensures DataOf(s, close) <==>
            Turns(Handle, Ready, s, if close then Closing else Ready, FrameAnswer(s))
    ensures DataOf(s, true) ==> FrameAnswer(s) == HeaderBytes(CLOSE_HEADER)
  {
  }

  lemma {:induction false} NoAnswers(segs: seq<seq<byte>>)
    ensures Answers(NoAnswer, segs) == []
    decreases |segs|
  {
    if segs != [] {
      NoAnswers(segs[1..]);
    }
  }

  // Each phase of the trace.

  lemma RunRefused(refused: seq<seq<byte>>, rest: seq<byte>)
    requires forall s | s in refused :: HelloOf(s, false)
    ensures var f := Fold(Handle, Handshaking, rest);
            Fold(Handle, Handshaking, Concat(refused) + rest)
            == Folded(f.state, f.rest, Answers(HelloAnswer, refused) + f.out)
  {
    HandleStable();
    forall s | s in refused ensures Turns(Handle, Handshaking, s, Handshaking, HelloAnswer(s)) {
      HelloTurn(s, false);
    }
    FoldLoop(Handle, Handshaking, refused, HelloAnswer, rest);
  }

  lemma RunFailed(failed: seq<seq<byte>>, rest: seq<byte>)
    requires forall s | s in failed :: AuthOf(s, false)
    ensures Fold(Handle, Authenticating, Concat(failed) + rest) == Fold(Handle, Authenticating, rest)
  {
    HandleStable();
    forall s | s in failed ensures Turns(Handle, Authenticating, s, Authenticating, NoAnswer(s)) {
      AuthTurn(s, false);
    }
    FoldLoop(Handle, Authenticating, failed, NoAnswer, rest);
    NoAnswers(failed);
    NilLeft(Fold(Handle, Authenticating, rest).out);
  }

  lemma RunFrames(frames: seq<seq<byte>>, rest: seq<byte>)
    requires forall s | s in frames :: DataOf(s, false)
    ensures var f := Fold(Handle, Ready, rest);
            Fold(Handle, Ready, Concat(frames) + rest)
            == Folded(f.state, f.rest, Answers(FrameAnswer, frames) + f.out)
  {
    HandleStable();
    forall s | s in frames ensures Turns(Handle, Ready, s, Ready, FrameAnswer(s)) {
      FrameTurn(s, false);
    }
    FoldLoop(Handle, Ready, frames, FrameAnswer, rest);
  }

  lemma RunSegment(st: State, seg: seq<byte>, next: State, reply: seq<byte>, rest: seq<byte>)
    requires Turns(Handle, st, seg, next, reply)
    ensures var f := Fold(Handle, next, rest);
            Fold(Handle, st, seg + rest) == Folded(f.state, f.rest, reply + f.out)
  {
    HandleStable();
    FoldSegment(Handle, st, seg, next, reply, rest);
  }

  function CloseAnswer(t: Trace): seq<byte> {
    if t.close.Some? then HeaderBytes(CLOSE_HEADER) else []
  }

  function CloseState(t: Trace): State {
    if t.close.Some? then Closing else Ready
  }

  /** What follows the ordinary frames: the CLOSE frame of the trace, or nothing yet. */
  lemma RunClose(t: Trace, rest: seq<byte>)
    requires t.close.Some? ==> DataOf(t.close.value, true)
    requires t.close.None? ==> Fold(Handle, Ready, rest) == Folded(Ready, rest, [])
    ensures Fold(Handle, Ready, CloseBytes(t) + rest) == Folded(CloseState(t), rest, CloseAnswer(t))
  {
    if t.close.Some? {
      FrameTurn(t.close.value, true);
      RunSegment(Ready, t.close.value, Closing, HeaderBytes(CLOSE_HEADER), rest);
      NilLeft(HeaderBytes(CLOSE_HEADER));
    } else {
      NilLeft(rest);
    }
  }

  /** Every grammatical trace makes the server ready, or closing, with exactly its replies;
      what follows stays unread while it is unfinished, or for good after a CLOSE. */
  lemma GrammarRuns(t: Trace, rest: seq<byte>)
    requires Grammatical(t)
    requires t.close.None? ==> Fold(Handle, Ready, rest) == Folded(Ready, rest, [])
    ensures Run(Received(t) + rest) == Folded(CloseState(t), rest, Replied(t))
  {
    var s5 := CloseBytes(t) + rest;
    var s4 := Concat(t.frames) + s5;
    var s3 := t.auth + s4;
    var s2 := Concat(t.failed) + s3;
    RunClose(t, rest);
    RunFrames(t.frames, s5);
    AuthTurn(t.auth, true);
    RunSegment(Authenticating, t.auth, Ready, HeaderBytes(AUTH_OK_HEADER), s4);
    RunFailed(t.failed, s3);
    HelloTurn(t.hello, true);
    RunSegment(Handshaking, t.hello, Authenticating, HelloAnswer(t.hello), s2);
    RunRefused(t.refused, t.hello + s2);
    Regroup(t, rest);
  }

  lemma Regroup(t: Trace, rest: seq<byte>)
    ensures Concat(t.refused) + (t.hello + (Concat(t.failed) + (t.auth + (Concat(t.frames) + (CloseBytes(t) + rest)))))
            == Received(t) + rest
  {
    var s4 := Concat(t.frames) + CloseBytes(t);
    Assoc(Concat(t.frames), CloseBytes(t), rest);
    Assoc(t.auth, s4, rest);
    Assoc(Concat(t.failed), t.auth + s4, rest);
    Assoc(t.hello, Concat(t.failed) + (t.auth + s4), rest);
    Assoc(Concat(t.refused), t.hello + (Concat(t.failed) + (t.auth + s4)), rest);
  }

  lemma PassedHello(input: seq<byte>) returns (refused: seq<seq<byte>>, hello: seq<byte>, rest: seq<byte>)
    requires Run(input).state != Handshaking
    ensures forall s | s in refused :: HelloOf(s, false)
    ensures HelloOf(hello, true)
    ensures input == Concat(refused) + (hello + rest)
  {
    HandleStable();
    var tail;
    refused, tail := StayedIn(Handle, Handshaking, input);
    forall s | s in refused ensures HelloOf(s, false) {
      HelloTurn(s, false);
    }
    RunRefused(refused, tail);
    hello, rest := LeftState(Handle, Handshaking, tail);
    HelloTurn(hello, true);
  }

  lemma PassedAuth(s: seq<byte>) returns (failed: seq<seq<byte>>, auth: seq<byte>, rest: seq<byte>)
    requires Fold(Handle, Authenticating, s).state != Authenticating
    ensures forall x | x in failed :: AuthOf(x, false)
    ensures AuthOf(auth, true)
    ensures s == Concat(failed) + (auth + rest)
  {
    HandleStable();
    var tail;
    failed, tail := StayedIn(Handle, Authenticating, s);
    forall x | x in failed ensures AuthOf(x, false) {
      AuthTurn(x, false);
    }
    RunFailed(failed, tail);
    auth, rest := LeftAuth(tail);
  }

  lemma LeftAuth(tail: seq<byte>) returns (auth: seq<byte>, rest: seq<byte>)
    requires Handle(Authenticating, tail).Handled? && Handle(Authenticating, tail).next != Authenticating
    ensures AuthOf(auth, true) && tail == auth + rest
  {
    HandleStable();
    auth, rest := LeftState(Handle, Authenticating, tail);
    AuthTurn(auth, true);
  }

  lemma ReadyFrames(s: seq<byte>) returns (frames: seq<seq<byte>>, close: Option<seq<byte>>, rest: seq<byte>)
    ensures forall x | x in frames :: DataOf(x, false)
    ensures close.Some? ==> DataOf(close.value, true)
    ensures close.None? ==> Fold(Handle, Ready, rest) == Folded(Ready, rest, [])
    ensures s == Concat(frames) + ((if close.Some? then close.value else []) + rest)
  {
    HandleStable();
    var tail;
    frames, tail := StayedIn(Handle, Ready, s);
    forall x | x in frames ensures DataOf(x, false) {
      FrameTurn(x, false);
    }
    NilLeft(tail);
    if tail == [] || !Handle(Ready, tail).Handled? {
      return frames, None, tail;
    }
    var seg;
    seg, rest := LeftState(Handle, Ready, tail);
    FrameTurn(seg, true);
    close := Some(seg);
  }

  /** Whenever the server is ready, or closing after that, its consumed input is a
      grammatical trace and its output is the reply sequence of that trace. */
  lemma RunIsGrammatical(input: seq<byte>) returns (t: Trace)
    requires Run(input).state == Ready || Run(input).state == Closing
    ensures Grammatical(t)
    ensures input == Received(t) + Run(input).rest
    ensures Run(input).out == Replied(t)
    ensures t.close.Some? <==> Run(input).state == Closing
  {
    var refused, hello, s2 := PassedHello(input);
    RunRefused(refused, hello + s2);
    HelloTurn(hello, true);
    RunSegment(Handshaking, hello, Authenticating, HelloAnswer(hello), s2);
    var failed, auth, s4 := PassedAuth(s2);
    var frames, close, rest := ReadyFrames(s4);
    t := Trace(refused, hello, failed, auth, frames, close);
    Regroup(t, rest);
    GrammarRuns(t, rest);
  }

  /** The trace and what is unfinished behind it (or unread for good, after a CLOSE). */
  ghost predicate Explains(t: Trace, rest: seq<byte>, input: seq<byte>) {
    && Grammatical(t) && input == Received(t) + rest
    && (t.close.None? ==> Fold(Handle, Ready, rest) == Folded(Ready, rest, []))
  }

  /** Exactly the grammatical inputs get the server past authentication. */
  lemma ReadyExactly(input: seq<byte>)
    ensures Run(input).state in {Ready, Closing} <==>
            exists t: Trace, rest: seq<byte> :: Explains(t, rest, input)
  {
    if Run(input).state in {Ready, Closing} {
      var t := RunIsGrammatical(input);
      FoldQuiescent(Handle, Handshaking, input);
      assert Explains(t, Run(input).rest, input);
    }
    forall t: Trace, rest: seq<byte> | Explains(t, rest, input)
      ensures Run(input).state in {Ready, Closing}
    {
      GrammarRuns(t, rest);
    }
  }

  /** A validating frame carries the literal request for the secret token at the front of
      its payload, and nothing else validates. */
  lemma GoodAuthExactly(f: Message)
    ensures GoodAuth(f) <==>
            f.header.opcode == AUTH
            && Auth.RequestBytes(Auth.Request(Auth.METHOD_BEARER, SECRET_TOKEN)) <= f.payload
  {
    Auth.AuthenticatesExactly(f.payload, SECRET_TOKEN);
  }

  /** Only four states are ever reached, and they are passed in order. */
  lemma {:induction false} RunStates(st: State, s: seq<byte>)
    requires st in {Handshaking, Authenticating, Ready, Closing}
    ensures Fold(Handle, st, s).state in {Handshaking, Authenticating, Ready, Closing}
    decreases |s|
  {
    if s != [] && Handle(st, s).Handled? && 0 < Handle(st, s).size <= |s| {
      RunStates(Handle(st, s).next, s[Handle(st, s).size..]);
    }
  }
}
