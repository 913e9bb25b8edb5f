/** What a client connection can have heard and said, over every input stream. */
module ClientTrace {
  import opened Bytes
  import opened ClientLoop
  import opened Connection
  import opened Dispatch
  import opened Frame
  import opened Handshake
  import opened ServerTrace

  /** One frame, and nothing else, whose opcode is among these. */
  predicate OneOf(seg: seq<byte>, opcodes: set<byte>) {
    FrameOf(seg) && Take(seg).item.header.opcode in opcodes
  }

  predicate NoneOf(seg: seq<byte>, opcodes: set<byte>) {
    FrameOf(seg) && Take(seg).item.header.opcode !in opcodes
  }

  /** The server hello, frames other than AUTH_OK, the AUTH_OK frame, frames that are neither
      PONG nor CLOSE, perhaps one that is. */
  datatype Story = Story(
    hello: seq<byte>, waits: seq<seq<byte>>, ok: seq<byte>, frames: seq<seq<byte>>, last: Option<seq<byte>>)

  ghost predicate Told(t: Story) {
    && |t.hello| == SERVER_HELLO_SIZE
    && (forall s | s in t.waits :: NoneOf(s, {AUTH_OK}))
    && OneOf(t.ok, {AUTH_OK})
    && (forall s | s in t.frames :: NoneOf(s, {PONG, CLOSE}))
    && (t.last.Some? ==> OneOf(t.last.value, {PONG, CLOSE}))
  }

  function LastBytes(t: Story): seq<byte> {
    if t.last.Some? then t.last.value else []
  }

  function Heard(t: Story): seq<byte> {
    t.hello + (Concat(t.waits) + (t.ok + (Concat(t.frames) + LastBytes(t))))
  }

  function Nothing(seg: seq<byte>): seq<byte> { [] }

  /** A PING for every text. */
  function PingFor(seg: seq<byte>): seq<byte> {
    if OneOf(seg, {DATA_TEXT}) then HeaderBytes(PING_HEADER) else []
  }

  /** A CLOSE for a PONG. */
  function LastAnswer(t: Story): seq<byte> {
    if t.last.Some? && OneOf(t.last.value, {PONG}) then HeaderBytes(CLOSE_HEADER) else []
  }

  /** The request, the data frame once there was AUTH_OK, and then only PINGs and a CLOSE. */
  function Said(text: Text, t: Story): seq<byte> {
    FrameBytes(AuthFrame()) + (FrameBytes(DataFrame(text)) + (Answers(PingFor, t.frames) + LastAnswer(t)))
  }

  function LastState(t: Story): State {
    if t.last.Some? then Closing else Ready
  }

  // One message of each kind.

  lemma HelloTurns(text: Text, s: seq<byte>)
    ensures |s| == SERVER_HELLO_SIZE <==>
            Turns(HandlerFor(text), Handshaking, s, Authenticating, FrameBytes(AuthFrame()))
  {
  }

  lemma WaitTurns(text: Text, s: seq<byte>)
    ensures NoneOf(s, {AUTH_OK}) <==> Turns(HandlerFor(text), Authenticating, s, Authenticating, Nothing(s))
  {
  }

  lemma OkTurns(text: Text, s: seq<byte>)
    ensures OneOf(s, {AUTH_OK}) <==>
            Turns(HandlerFor(text), Authenticating, s, Ready, FrameBytes(DataFrame(text)))
  {
  }

  lemma FrameTurns(text: Text, s: seq<byte>)
    ensures NoneOf(s, {PONG, CLOSE}) <==> Turns(HandlerFor(text), Ready, s, Ready, PingFor(s))
  {
  }

  lemma LastTurns(text: Text, s: seq<byte>)
    ensures OneOf(s, {PONG, CLOSE}) <==>
            Turns(HandlerFor(text), Ready, s, Closing, if OneOf(s, {PONG}) then HeaderBytes(CLOSE_HEADER) else [])
  {
  }

  // Each phase.

  lemma {:induction false} NothingSaid(segs: seq<seq<byte>>)
    ensures Answers(Nothing, segs) == []
    decreases |segs|
  {
    if segs != [] {
      NothingSaid(segs[1..]);
    }
  }

  lemma RunWaits(text: Text, waits: seq<seq<byte>>, rest: seq<byte>)
    requires forall s | s in waits :: NoneOf(s, {AUTH_OK})
    ensures Fold(HandlerFor(text), Authenticating, Concat(waits) + rest) == Fold(HandlerFor(text), Authenticating, rest)
  {
    HandleStable(text);
    forall s | s in waits ensures Turns(HandlerFor(text), Authenticating, s, Authenticating, Nothing(s)) {
      WaitTurns(text, s);
    }
    FoldLoop(HandlerFor(text), Authenticating, waits, Nothing, rest);
    NothingSaid(waits);
    NilLeft(Fold(HandlerFor(text), Authenticating, rest).out);
  }

  lemma RunFramesOf(text: Text, frames: seq<seq<byte>>, rest: seq<byte>)
    requires forall s | s in frames :: NoneOf(s, {PONG, CLOSE})
    ensures var f := Fold(HandlerFor(text), Ready, rest);
            Fold(HandlerFor(text), Ready, Concat(frames) + rest)
            == Folded(f.state, f.rest, Answers(PingFor, frames) + f.out)
  {
    HandleStable(text);
    forall s | s in frames ensures Turns(HandlerFor(text), Ready, s, Ready, PingFor(s)) {
      FrameTurns(text, s);
    }
    FoldLoop(HandlerFor(text), Ready, frames, PingFor, rest);
  }

  lemma RunOne(text: Text, st: State, seg: seq<byte>, next: State, reply: seq<byte>, rest: seq<byte>)
    requires Turns(HandlerFor(text), st, seg, next, reply)
    ensures var f := Fold(HandlerFor(text), next, rest);
            Fold(HandlerFor(text), st, seg + rest) == Folded(f.state, f.rest, reply + f.out)
  {
    HandleStable(text);
    FoldSegment(HandlerFor(text), st, seg, next, reply, rest);
  }

  lemma ClosingIsDeaf(text: Text, rest: seq<byte>)
    ensures Fold(HandlerFor(text), Closing, rest) == Folded(Closing, rest, [])
  {
  }

  lemma RunLast(text: Text, t: Story, rest: seq<byte>)
    requires t.last.Some? ==> OneOf(t.last.value, {PONG, CLOSE})
    requires t.last.None? ==> Fold(HandlerFor(text), Ready, rest) == Folded(Ready, rest, [])
    ensures Fold(HandlerFor(text), Ready, LastBytes(t) + rest) == Folded(LastState(t), rest, LastAnswer(t))
  {
    if t.last.Some? {
      LastTurns(text, t.last.value);
      ClosingIsDeaf(text, rest);
      RunOne(text, Ready, t.last.value, Closing, LastAnswer(t), rest);
      NilLeft(LastAnswer(t));
    } else {
      NilLeft(rest);
    }
  }

  lemma Regrouped(t: Story, rest: seq<byte>)
    ensures t.hello + (Concat(t.waits) + (t.ok + (Concat(t.frames) + (LastBytes(t) + rest)))) == Heard(t) + rest
  {
    var s4 := Concat(t.frames) + LastBytes(t);
    Assoc(Concat(t.frames), LastBytes(t), rest);
    Assoc(t.ok, s4, rest);
    Assoc(Concat(t.waits), t.ok + s4, rest);
    Assoc(t.hello, Concat(t.waits) + (t.ok + s4), rest);
  }

  /** Every such story makes the client ready, or closing after the last frame, with exactly
      this answer. */
  lemma StoryRuns(text: Text, t: Story, rest: seq<byte>)
    requires Told(t)
    requires t.last.None? ==> Fold(HandlerFor(text), Ready, rest) == Folded(Ready, rest, [])
    ensures Run(text, Heard(t) + rest) == Folded(LastState(t), rest, Said(text, t))
  {
    var s4 := LastBytes(t) + rest;
    var s3 := Concat(t.frames) + s4;
    var s2 := t.ok + s3;
    RunLast(text, t, rest);
    RunFramesOf(text, t.frames, s4);
    OkTurns(text, t.ok);
    RunOne(text, Authenticating, t.ok, Ready, FrameBytes(DataFrame(text)), s3);
    RunWaits(text, t.waits, s2);
    HelloTurns(text, t.hello);
    RunOne(text, Handshaking, t.hello, Authenticating, FrameBytes(AuthFrame()), Concat(t.waits) + s2);
    Regrouped(t, rest);
  }

  lemma PastHello(text: Text, input: seq<byte>) returns (hello: seq<byte>, rest: seq<byte>)
    requires Run(text, input).state != Handshaking
    ensures |hello| == SERVER_HELLO_SIZE && input == hello + rest
  {
    HandleStable(text);
    hello, rest := LeftState(HandlerFor(text), Handshaking, input);
    HelloTurns(text, hello);
  }

  lemma PastWaits(text: Text, s: seq<byte>) returns (waits: seq<seq<byte>>, ok: seq<byte>, rest: seq<byte>)
    requires Fold(HandlerFor(text), Authenticating, s).state != Authenticating
    ensures forall x | x in waits :: NoneOf(x, {AUTH_OK})
    ensures OneOf(ok, {AUTH_OK}) && s == Concat(waits) + (ok + rest)
  {
    HandleStable(text);
    var tail;
    waits, tail := StayedIn(HandlerFor(text), Authenticating, s);
    forall x | x in waits ensures NoneOf(x, {AUTH_OK}) {
      StaysByWaiting(text, x);
    }
    RunWaits(text, waits, tail);
    ok, rest := LeftState(HandlerFor(text), Authenticating, tail);
    LeavesByOk(text, ok, HandlerFor(text)(Authenticating, tail));
  }

  lemma StaysByWaiting(text: Text, s: seq<byte>)
    requires HandlerFor(text)(Authenticating, s).Handled?
    requires Turns(HandlerFor(text), Authenticating, s, Authenticating, HandlerFor(text)(Authenticating, s).reply)
    ensures NoneOf(s, {AUTH_OK})
  {
  }

  lemma LeavesByOk(text: Text, s: seq<byte>, o: Outcome)
    requires o.Handled? && o.next != Authenticating && Turns(HandlerFor(text), Authenticating, s, o.next, o.reply)
    ensures OneOf(s, {AUTH_OK})
  {
  }

  lemma PastFrames(text: Text, s: seq<byte>) returns (frames: seq<seq<byte>>, last: Option<seq<byte>>, rest: seq<byte>)
    ensures forall x | x in frames :: NoneOf(x, {PONG, CLOSE})
    ensures last.Some? ==> OneOf(last.value, {PONG, CLOSE})
    ensures last.None? ==> Fold(HandlerFor(text), Ready, rest) == Folded(Ready, rest, [])
    ensures s == Concat(frames) + ((if last.Some? then last.value else []) + rest)
  {
    HandleStable(text);
    var tail;
    frames, tail := StayedIn(HandlerFor(text), Ready, s);
    forall x | x in frames ensures NoneOf(x, {PONG, CLOSE}) {
      StaysReady(text, x);
    }
    NilLeft(tail);
    if tail == [] || !HandlerFor(text)(Ready, tail).Handled? {
      return frames, None, tail;
    }
    var seg;
    seg, rest := LeftState(HandlerFor(text), Ready, tail);
    LeavesReady(text, seg, HandlerFor(text)(Ready, tail));
    last := Some(seg);
  }

  lemma StaysReady(text: Text, s: seq<byte>)
    requires HandlerFor(text)(Ready, s).Handled?
    requires Turns(HandlerFor(text), Ready, s, Ready, HandlerFor(text)(Ready, s).reply)
    ensures NoneOf(s, {PONG, CLOSE})
  {
  }

  lemma LeavesReady(text: Text, s: seq<byte>, o: Outcome)
    requires o.Handled? && o.next != Ready && Turns(HandlerFor(text), Ready, s, o.next, o.reply)
    ensures OneOf(s, {PONG, CLOSE})
  {
  }

  /** Whenever the client is ready, or closing after that, it has heard such a story and has
      said exactly the answer to it. */
  lemma RunIsStory(text: Text, input: seq<byte>) returns (t: Story)
    requires Run(text, input).state == Ready || Run(text, input).state == Closing
    ensures Told(t)
    ensures input == Heard(t) + Run(text, input).rest
    ensures Run(text, input).out == Said(text, t)
    ensures t.last.Some? <==> Run(text, input).state == Closing
  {
    var hello, s2 := PastHello(text, input);
    HelloTurns(text, hello);
    RunOne(text, Handshaking, hello, Authenticating, FrameBytes(AuthFrame()), s2);
    var waits, ok, s4 := PastWaits(text, s2);
    var frames, last, rest := PastFrames(text, s4);
    t := Story(hello, waits, ok, frames, last);
    Regrouped(t, rest);
    StoryRuns(text, t, rest);
  }

  ghost predicate Tells(text: Text, t: Story, rest: seq<byte>, input: seq<byte>) {
    && Told(t) && input == Heard(t) + rest
    && (t.last.None? ==> Fold(HandlerFor(text), Ready, rest) == Folded(Ready, rest, []))
  }

  /** Exactly these inputs get the client past authentication: a client leaves it by an
      AUTH_OK frame only. */
  lemma ReadyByStoryExactly(text: Text, input: seq<byte>)
    ensures Run(text, input).state in {Ready, Closing} <==>
            exists t: Story, rest: seq<byte> :: Tells(text, t, rest, input)
  {
    if Run(text, input).state in {Ready, Closing} {
      var t := RunIsStory(text, input);
      FoldQuiescent(HandlerFor(text), Handshaking, input);
      assert Tells(text, t, Run(text, input).rest, input);
    }
    forall t: Story, rest: seq<byte> | Tells(text, t, rest, input)
      ensures Run(text, input).state in {Ready, Closing}
    {
      StoryRuns(text, t, rest);
    }
  }
}
