/** The receive loop shared by the server and the client, for any message handler:
    handle messages from the front of the window until one is unfinished.

    `BadMagic` marks a window that starts with five bytes of a frame with a wrong magic;
    the loops of the two programs do not define what happens then. */
module Dispatch {
  import opened Bytes
  import opened Connection

  datatype Outcome = NeedMore | BadMagic | Handled(next: State, size: nat, reply: seq<byte>)

  type Handler = (State, seq<byte>) -> Outcome

  datatype Folded = Folded(state: State, rest: seq<byte>, out: seq<byte>)

  /** The whole loop as a left-to-right fold. A message of size 0 would stop it
      (`read_len == prev_read_len`). */
  function Fold(h: Handler, st: State, s: seq<byte>): Folded
    decreases |s|
  {
    if s == [] then Folded(st, s, [])
    else
      match h(st, s)
      case Handled(next, n, reply) =>
        if 0 < n <= |s| then
          var f := Fold(h, next, s[n..]);
          Folded(f.state, f.rest, reply + f.out)
        else Folded(st, s, [])
      case _ => Folded(st, s, [])
  }

  /** The messages the fold handles, as byte segments. */
  function Segments(h: Handler, st: State, s: seq<byte>): seq<seq<byte>>
    decreases |s|
  {
    if s == [] then []
    else
      match h(st, s)
      case Handled(next, n, reply) =>
        if 0 < n <= |s| then [s[..n]] + Segments(h, next, s[n..]) else []
      case _ => []
  }

  /** No window of the fold starts with a wrong magic. */
  predicate Clean(h: Handler, st: State, s: seq<byte>)
    decreases |s|
  {
    s == [] ||
    match h(st, s)
    case Handled(next, n, reply) => 0 < n <= |s| ==> Clean(h, next, s[n..])
    case NeedMore => true
    case BadMagic => false
  }

  /** Every message the fold handles fits into the window. */
  predicate Fits(h: Handler, st: State, s: seq<byte>, limit: nat)
    decreases |s|
  {
    s == [] ||
    match h(st, s)
    case Handled(next, n, reply) => 0 < n <= |s| ==> n <= limit && Fits(h, next, s[n..], limit)
    case _ => true
  }

  /** A handled message is handled alike when just its bytes are there and whatever
      follows them, and a wrong magic stays wrong. */
  ghost predicate Stable(h: Handler) {
    && (forall st, s: seq<byte> | h(st, s).Handled? ::
          0 < h(st, s).size <= |s| && h(st, s[..h(st, s).size]) == h(st, s))
    && (forall st, s: seq<byte>, t: seq<byte> | h(st, s).Handled? :: h(st, s + t) == h(st, s))
    && (forall st, s: seq<byte>, t: seq<byte> | h(st, s).BadMagic? :: h(st, s + t).BadMagic?)
  }

  /** A message of n bytes is handled once n bytes are there, and unfinished before. */
  lemma HandledExactly(h: Handler, st: State, s: seq<byte>, k: nat)
    requires Stable(h) && h(st, s).Handled? && k <= |s|
    ensures h(st, s[..k]) == if k < h(st, s).size then NeedMore else h(st, s)
  {
    var n := h(st, s).size;
    if k < n {
      Split(s, k);
    } else {
      Split(s[..k], n);
      SlicePrefix(s, k, 0, n);
      assert s[..k][..n] == s[..n];
    }
  }

  lemma FoldMore(h: Handler, st: State, s: seq<byte>)
    requires s != [] && h(st, s).Handled? && 0 < h(st, s).size <= |s|
    ensures var f := Fold(h, h(st, s).next, s[h(st, s).size..]);
            Fold(h, st, s) == Folded(f.state, f.rest, h(st, s).reply + f.out)
  {
  }

  /** Handling a stream at once or in two pieces is the same: state, leftover and replies. */
  lemma {:induction false} FoldConcat(h: Handler, st: State, a: seq<byte>, b: seq<byte>)
    requires Stable(h)
    ensures var f := Fold(h, st, a);
            var g := Fold(h, f.state, f.rest + b);
            Fold(h, st, a + b) == Folded(g.state, g.rest, f.out + g.out)
    decreases |a|
  {
    if a == [] {
      NilLeft(b);
      NilLeft(Fold(h, st, b).out);
    } else if h(st, a).Handled? {
      var o := h(st, a);
      assert h(st, a + b) == o;
      DropExtend(a, b, o.size);
      FoldConcat(h, o.next, a[o.size..], b);
      FoldMore(h, st, a);
      FoldMore(h, st, a + b);
      var f := Fold(h, o.next, a[o.size..]);
      Assoc(o.reply, f.out, Fold(h, f.state, f.rest + b).out);
    } else {
      NilLeft(Fold(h, st, a + b).out);
    }
  }

  /** The loop run once per received chunk, the leftover staying in the window. */
  function FoldChunks(h: Handler, st: State, window: seq<byte>, chunks: seq<seq<byte>>): Folded
    decreases |chunks|
  {
    if chunks == [] then Folded(st, window, [])
    else
      var f := Fold(h, st, window + chunks[0]);
      var g := FoldChunks(h, f.state, f.rest, chunks[1..]);
      Folded(g.state, g.rest, f.out + g.out)
  }

  /** Chunk independence: however the input was cut into reads, the loop ends in the state,
      with the leftover and the replies of one fold over the whole input. */
  lemma ChunkIndependence(h: Handler, st: State, chunks: seq<seq<byte>>)
    requires Stable(h)
    ensures FoldChunks(h, st, [], chunks) == Fold(h, st, Concat(chunks))
  {
    ChunksFrom(h, st, [], chunks);
    NilLeft(Concat(chunks));
  }

  /** The same from a window with nothing left to do. */
  lemma {:induction false} ChunksFrom(h: Handler, st: State, window: seq<byte>, chunks: seq<seq<byte>>)
    requires Stable(h)
    requires Fold(h, st, window) == Folded(st, window, [])
    ensures FoldChunks(h, st, window, chunks) == Fold(h, st, window + Concat(chunks))
    decreases |chunks|
  {
    if chunks == [] {
      NilLeft(window);
    } else {
      var c, rest := chunks[0], Concat(chunks[1..]);
      var f := Fold(h, st, window + c);
      FoldQuiescent(h, st, window + c);
      ChunksFrom(h, f.state, f.rest, chunks[1..]);
      FoldConcat(h, st, window + c, rest);
      Assoc(window, c, rest);
    }
  }

  /** What the loop leaves behind gives it nothing more to do. */
  lemma {:induction false} FoldQuiescent(h: Handler, st: State, s: seq<byte>)
    ensures var f := Fold(h, st, s); Fold(h, f.state, f.rest) == Folded(f.state, f.rest, [])
    decreases |s|
  {
    if s != [] && h(st, s).Handled? && 0 < h(st, s).size <= |s| {
      FoldQuiescent(h, h(st, s).next, s[h(st, s).size..]);
    }
  }

  /** The segments are the consumed part of the input. */
  lemma {:induction false} SegmentsCover(h: Handler, st: State, s: seq<byte>)
    ensures s == Concat(Segments(h, st, s)) + Fold(h, st, s).rest
    decreases |s|
  {
    if s != [] && h(st, s).Handled? && 0 < h(st, s).size <= |s| {
      var n, next := h(st, s).size, h(st, s).next;
      SegmentsCover(h, next, s[n..]);
      Split(s, n);
      ConcatCons(s[..n], Segments(h, next, s[n..]));
      Assoc(s[..n], Concat(Segments(h, next, s[n..])), Fold(h, next, s[n..]).rest);
    } else {
      NilLeft(s);
    }
  }

  /** A bound for the replies to n bytes, when the loop starts in a state, that every single
      message keeps. */
  ghost predicate Covers(h: Handler, bound: (State, nat) -> nat) {
    forall st, s: seq<byte>, n: nat | h(st, s).Handled? ::
      |h(st, s).reply| + bound(h(st, s).next, n) <= bound(st, h(st, s).size + n)
  }

  predicate Covered(bound: (State, nat) -> nat, st: State, s: seq<byte>, f: Folded) {
    |f.rest| <= |s| && |f.out| <= bound(st, |s| - |f.rest|)
  }

  lemma CoveredMore(h: Handler, bound: (State, nat) -> nat, st: State, s: seq<byte>)
    requires s != [] && h(st, s).Handled? && 0 < h(st, s).size <= |s|
    requires forall n: nat :: |h(st, s).reply| + bound(h(st, s).next, n) <= bound(st, h(st, s).size + n)
    requires Covered(bound, h(st, s).next, s[h(st, s).size..], Fold(h, h(st, s).next, s[h(st, s).size..]))
    ensures Covered(bound, st, s, Fold(h, st, s))
  {
    FoldMore(h, st, s);
    var o := h(st, s);
    var n := |s| - o.size - |Fold(h, o.next, s[o.size..]).rest|;
    assert |o.reply| + bound(o.next, n) <= bound(st, o.size + n);
  }

  /** Then it bounds the replies of every run. */
  lemma {:induction false} FoldCovered(h: Handler, bound: (State, nat) -> nat, st: State, s: seq<byte>)
    requires Stable(h) && Covers(h, bound)
    ensures Covered(bound, st, s, Fold(h, st, s))
    decreases |s|
  {
    if s != [] && h(st, s).Handled? {
      FoldCovered(h, bound, h(st, s).next, s[h(st, s).size..]);
      CoveredMore(h, bound, st, s);
    }
  }

  /** A clean stream is clean up to any cut, and from there on. */
  lemma {:induction false} CleanConcat(h: Handler, st: State, a: seq<byte>, b: seq<byte>)
    requires Stable(h)
    ensures Clean(h, st, a + b) <==>
            Clean(h, st, a) && Clean(h, Fold(h, st, a).state, Fold(h, st, a).rest + b)
    decreases |a|
  {
    if a == [] {
      NilLeft(b);
    } else if h(st, a).Handled? {
      var o := h(st, a);
      assert h(st, a + b) == o;
      DropExtend(a, b, o.size);
      CleanConcat(h, o.next, a[o.size..], b);
    } else if h(st, a).BadMagic? {
      assert h(st, a + b).BadMagic?;
    }
  }

  /** No wedge: while every message of the stream fits into a window of `limit` bytes, a
      window that is full after dispatch means that no further message will ever complete. */
  lemma {:induction false} NeverWedged(h: Handler, st: State, a: seq<byte>, b: seq<byte>, limit: nat)
    requires Stable(h) && 0 < limit
    requires Fits(h, st, a + b, limit)
    ensures var f := Fold(h, st, a);
            |f.rest| >= limit ==> !h(f.state, f.rest + b).Handled?
    decreases |a|
  {
    if a == [] {
    } else if h(st, a).Handled? {
      var o := h(st, a);
      assert h(st, a + b) == o;
      DropExtend(a, b, o.size);
      NeverWedged(h, o.next, a[o.size..], b, limit);
    } else if |a| >= limit && h(st, a + b).Handled? {
      HandledExactly(h, st, a + b, |a|);
      TakeExtend(a, b, |a|);
      assert a[..|a|] == a;
    }
  }

  /** Wedged: a message is longer than the window if and only if a full window of it is
      left unhandled, as it is. */
  lemma OversizeNeverCompletes(h: Handler, st: State, s: seq<byte>, limit: nat)
    requires Stable(h) && 0 < limit <= |s|
    requires h(st, s).Handled?
    ensures h(st, s).size > limit <==> Fold(h, st, s[..limit]) == Folded(st, s[..limit], [])
                                       && !h(st, s[..limit]).Handled?
  {
    HandledExactly(h, st, s, limit);
  }

  // ----- segments of the input -----

  /** seg is one whole message. */
  ghost predicate Turns(h: Handler, st: State, seg: seq<byte>, next: State, reply: seq<byte>) {
    seg != [] && h(st, seg) == Handled(next, |seg|, reply)
  }

  lemma FoldSegment(h: Handler, st: State, seg: seq<byte>, next: State, reply: seq<byte>, rest: seq<byte>)
    requires Stable(h) && Turns(h, st, seg, next, reply)
    ensures var f := Fold(h, next, rest);
            Fold(h, st, seg + rest) == Folded(f.state, f.rest, reply + f.out)
  {
    assert h(st, seg + rest) == h(st, seg);
    DropWhole(seg, rest);
    FoldMore(h, st, seg + rest);
  }

  function Answers(answer: seq<byte> -> seq<byte>, segs: seq<seq<byte>>): seq<byte> {
    if segs == [] then [] else answer(segs[0]) + Answers(answer, segs[1..])
  }

  /** Messages that leave the state alone. */
  lemma {:induction false} FoldLoop(h: Handler, st: State, segs: seq<seq<byte>>, answer: seq<byte> -> seq<byte>, rest: seq<byte>)
    requires Stable(h)
    requires forall s | s in segs :: Turns(h, st, s, st, answer(s))
    ensures var f := Fold(h, st, rest);
            Fold(h, st, Concat(segs) + rest) == Folded(f.state, f.rest, Answers(answer, segs) + f.out)
    decreases |segs|
  {
    var f := Fold(h, st, rest);
    if segs == [] {
      NilLeft(rest);
      NilLeft(f.out);
    } else {
      var s, tail := segs[0], Concat(segs[1..]);
      FoldLoop(h, st, segs[1..], answer, rest);
      FoldSegment(h, st, s, st, answer(s), tail + rest);
      Assoc(s, tail, rest);
      Assoc(answer(s), Answers(answer, segs[1..]), f.out);
    }
  }

  /** The input up to the first message that leaves st. */
  lemma {:induction false} StayedIn(h: Handler, st: State, s: seq<byte>) returns (segs: seq<seq<byte>>, tail: seq<byte>)
    requires Stable(h)
    ensures forall x | x in segs :: h(st, x).Handled? && Turns(h, st, x, st, h(st, x).reply)
    ensures s == Concat(segs) + tail
    ensures tail == [] || !h(st, tail).Handled? || h(st, tail).next != st
    decreases |s|
  {
    NilLeft(s);
    if s == [] || !h(st, s).Handled? || h(st, s).next != st {
      return [], s;
    }
    var n := h(st, s).size;
    segs, tail := StayedIn(h, st, s[n..]);
    Split(s, n);
    ConcatCons(s[..n], segs);
    Assoc(s[..n], Concat(segs), tail);
    segs := [s[..n]] + segs;
  }

  /** Cutting the message that leaves st off the front. */
  lemma LeftState(h: Handler, st: State, s: seq<byte>) returns (seg: seq<byte>, tail: seq<byte>)
    requires Stable(h) && h(st, s).Handled?
    ensures s == seg + tail && Turns(h, st, seg, h(st, s).next, h(st, s).reply)
  {
    var n := h(st, s).size;
    Split(s, n);
    seg, tail := s[..n], s[n..];
  }

  // ----- one side of a connection, as values -----

  /** What is unread, what is unsent, and where the unsent bytes start in their buffer. */
  datatype Endpoint = Endpoint(state: State, inbox: seq<byte>, pos: nat, outbox: seq<byte>)

  /** A readable poll: bytes arrive and the loop runs. */
  function Receive(h: Handler, e: Endpoint, chunk: seq<byte>): Endpoint {
    var f := Fold(h, e.state, e.inbox + chunk);
    Endpoint(f.state, f.rest, e.pos, e.outbox + f.out)
  }

  /** A writable poll: k bytes leave, and a closing connection with nothing left closes. */
  function Flush(e: Endpoint, k: nat): Endpoint
    requires k <= |e.outbox|
  {
    var outbox := e.outbox[k..];
    var pos := if outbox == [] then 0 else e.pos + k;
    var state := if e.state == Closing && outbox == [] then Request(e.state, Closed) else e.state;
    Endpoint(state, e.inbox, pos, outbox)
  }

  /** The hypotheses under which the C loop's appends and copies mean what `Receive` says:
      no wrong magic, and replies, if any, start in a window at offset 0 with room for them. */
  predicate Safe(h: Handler, e: Endpoint, chunk: seq<byte>, room: nat) {
    var f := Fold(h, e.state, e.inbox + chunk);
    && Clean(h, e.state, e.inbox + chunk)
    && (f.out == [] || (e.pos == 0 && |e.outbox| + |f.out| <= room))
  }

  /** One turn of the loop. */
  function Advance(e: Endpoint, o: Outcome): Endpoint {
    if o.Handled? && o.size <= |e.inbox| then Endpoint(o.next, e.inbox[o.size..], e.pos, e.outbox + o.reply)
    else e
  }

  /** A turn of the loop brings it closer to the same end, as safely. */
  lemma AdvanceKeeps(h: Handler, e: Endpoint, room: nat)
    requires Safe(h, e, [], room)
    requires e.inbox != [] && h(e.state, e.inbox).Handled? && 0 < h(e.state, e.inbox).size <= |e.inbox|
    ensures var e' := Advance(e, h(e.state, e.inbox));
            Receive(h, e', []) == Receive(h, e, []) && Safe(h, e', [], room)
    ensures h(e.state, e.inbox).reply != [] ==> e.pos == 0 && |e.outbox| + |h(e.state, e.inbox).reply| <= room
  {
    var o := h(e.state, e.inbox);
    NilLeft(e.inbox);
    NilLeft(e.inbox[o.size..]);
    FoldMore(h, e.state, e.inbox);
    Assoc(e.outbox, o.reply, Fold(h, o.next, e.inbox[o.size..]).out);
  }

  /** Where the loop stops. */
  lemma AdvanceEnds(h: Handler, e: Endpoint)
    requires e.inbox == [] || !h(e.state, e.inbox).Handled?
    ensures Receive(h, e, []) == e
  {
    NilLeft(e.inbox);
    NilLeft(e.outbox);
  }

  // ----- a whole connection so far -----

  /** Whatever the sizes of the reads and writes so far: the state and the unread bytes are
      those of one fold over everything ever received, and everything ever enqueued is what
      the connection began with and then the replies of that fold. */
  ghost predicate Matches(h: Handler, first: seq<byte>, received: seq<byte>, e: Endpoint, enqueued: seq<byte>) {
    var f := Fold(h, Handshaking, received);
    && f.rest == e.inbox
    && enqueued == first + f.out
    && (e.state == f.state || (e.state == Closed && f.state == Closing && e.outbox == []))
  }

  lemma MatchesReceive(h: Handler, first: seq<byte>, received: seq<byte>, e: Endpoint, sent: seq<byte>, chunk: seq<byte>)
    requires Stable(h) && e.state != Closed
    requires Matches(h, first, received, e, sent + e.outbox)
    ensures Matches(h, first, received + chunk, Receive(h, e, chunk), sent + Receive(h, e, chunk).outbox)
  {
    var f, g := Fold(h, Handshaking, received), Fold(h, e.state, e.inbox + chunk);
    FoldConcat(h, Handshaking, received, chunk);
    Assoc(sent, e.outbox, g.out);
    Assoc(first, f.out, g.out);
  }

  /** Running the loop again without new bytes changes nothing. */
  lemma ReceiveNothing(h: Handler, first: seq<byte>, received: seq<byte>, e: Endpoint, enqueued: seq<byte>)
    requires e.state != Closed && Matches(h, first, received, e, enqueued)
    ensures Receive(h, e, []) == e
  {
    FoldQuiescent(h, Handshaking, received);
    NilLeft(e.inbox);
    NilLeft(e.outbox);
  }

  /** Running the loop again is allowed wherever no wrong magic is in the window. */
  lemma SafeNothing(h: Handler, first: seq<byte>, received: seq<byte>, e: Endpoint, enqueued: seq<byte>, room: nat)
    requires e.state != Closed && Matches(h, first, received, e, enqueued)
    requires Clean(h, e.state, e.inbox)
    ensures Safe(h, e, [], room)
  {
    FoldQuiescent(h, Handshaking, received);
    NilLeft(e.inbox);
  }

  /** One message for an empty window: the loop's hypotheses are exactly that its reply
      starts at offset 0 and has room. */
  lemma SafeTurn(h: Handler, e: Endpoint, seg: seq<byte>, next: State, reply: seq<byte>, room: nat)
    requires Stable(h) && e.inbox == [] && Turns(h, e.state, seg, next, reply) && reply != []
    ensures Safe(h, e, seg, room) <==> e.pos == 0 && |e.outbox| + |reply| <= room
  {
    NilLeft(seg);
    NilLeft(reply);
    assert seg[|seg|..] == [];
    FoldMore(h, e.state, seg);
    assert Fold(h, e.state, seg).out == reply;
    assert Clean(h, next, []);
    assert Clean(h, e.state, seg);
  }

  /** Reading first and running the loop then. */
  lemma ReceiveInTwo(h: Handler, e: Endpoint, chunk: seq<byte>, room: nat)
    ensures var e1 := e.(inbox := e.inbox + chunk);
            Receive(h, e1, []) == Receive(h, e, chunk) && (Safe(h, e1, [], room) <==> Safe(h, e, chunk, room))
  {
    NilLeft(e.inbox + chunk);
  }

  lemma MatchesFlush(h: Handler, first: seq<byte>, received: seq<byte>, e: Endpoint, enqueued: seq<byte>, k: nat)
    requires e.state != Closed && k <= |e.outbox|
    requires Matches(h, first, received, e, enqueued)
    ensures Matches(h, first, received, Flush(e, k), enqueued)
  {
  }
}
