/** Ping and timeout decisions over a millisecond clock (pw_heartbeat.c), in 64-bit arithmetic. */
module Heartbeat {
  import opened Bytes

  datatype Beat = Beat(lastRecv: u64, lastSend: u64, interval: u64, timeout: u64, waiting: bool)

  /** One call each of on_recv, on_send, on_pong and on_ping_sent. */
  datatype Event = Recv(t: u64) | Send(t: u64) | Pong(t: u64) | Ping(t: u64)

  predicate ShouldPing(b: Beat, now: u64) {
    b.interval != 0 && !b.waiting && now >= Wrap64(b.lastRecv + b.interval)
  }

  predicate TimedOut(b: Beat, now: u64) {
    b.timeout != 0 && now >= Wrap64(b.lastRecv + b.timeout)
  }

  function Apply(b: Beat, e: Event): Beat {
    match e
    case Recv(t) => b.(lastRecv := t)
    case Send(t) => b.(lastSend := t)
    case Pong(t) => b.(waiting := false, lastRecv := t)
    case Ping(t) => b.(waiting := true, lastSend := t)
  }

  function After(b: Beat, es: seq<Event>): Beat
    decreases |es|
  {
    if es == [] then b else After(Apply(b, es[0]), es[1..])
  }

  /** The times at which pings are sent. */
  function Pings(es: seq<Event>): seq<u64> {
    if es == [] then []
    else if es[0].Ping? then [es[0].t] + Pings(es[1..])
    else Pings(es[1..])
  }

  function Pongs(es: seq<Event>): nat {
    if es == [] then 0 else (if es[0].Pong? then 1 else 0) + Pongs(es[1..])
  }

  /** Pings are only sent when should_ping says so. */
  predicate Gated(b: Beat, es: seq<Event>)
    decreases |es|
  {
    es == [] || ((es[0].Ping? ==> ShouldPing(b, es[0].t)) && Gated(Apply(b, es[0]), es[1..]))
  }

  /** The clock never runs backwards. */
  predicate Ordered(now: u64, es: seq<Event>)
    decreases |es|
  {
    es == [] || (now <= es[0].t && Ordered(es[0].t, es[1..]))
  }

  /** Nothing happens later than `last`. */
  predicate UpTo(last: u64, es: seq<Event>) {
    es == [] || (es[0].t <= last && UpTo(last, es[1..]))
  }

  // ----- one decision -----

  /** A ping is due after the interval, or at once when its time wraps. */
  lemma PingDueExactly(b: Beat, now: u64)
    requires b.lastRecv <= now
    ensures ShouldPing(b, now) <==>
            b.interval != 0 && !b.waiting && (now - b.lastRecv >= b.interval || b.lastRecv + b.interval >= TWO_64)
  {
  }

  lemma TimeoutDueExactly(b: Beat, now: u64)
    requires b.lastRecv <= now
    ensures TimedOut(b, now) <==>
            b.timeout != 0 && (now - b.lastRecv >= b.timeout || b.lastRecv + b.timeout >= TWO_64)
  {
  }

  // ----- whole runs -----

  /** A new heartbeat has pinged nobody. */
  function New(interval: u64, timeout: u64): Beat { Beat(0, 0, interval, timeout, false) }

  ghost predicate Spaced(pings: seq<u64>, interval: u64) {
    forall i :: 0 <= i < |pings| - 1 ==> pings[i] + interval <= pings[i + 1]
  }

  /** A run of a heartbeat that is used as intended, up to the time `last`. */
  predicate ProperRun(interval: u64, timeout: u64, last: u64, es: seq<Event>) {
    Ordered(0, es) && UpTo(last, es) && Gated(New(interval, timeout), es)
  }

  /** Consecutive pings are at least the interval apart in all runs up to `last` if and only
      if the interval after `last` does not wrap (or pinging is off). */
  lemma PingsSpacedExactly(interval: u64, timeout: u64, last: u64)
    ensures (forall es: seq<Event> | ProperRun(interval, timeout, last, es) :: Spaced(Pings(es), interval))
            <==> interval == 0 || last + interval < TWO_64
  {
    if interval == 0 || last + interval < TWO_64 {
      forall es: seq<Event> | ProperRun(interval, timeout, last, es) ensures Spaced(Pings(es), interval) {
        PingsAreSpaced(interval, timeout, last, es);
      }
    } else {
      PingsTwiceAtOnce(interval, timeout, last);
    }
  }

  lemma PingsAreSpaced(interval: u64, timeout: u64, last: u64, es: seq<Event>)
    requires ProperRun(interval, timeout, last, es)
    requires interval == 0 || last + interval < TWO_64
    ensures Spaced(Pings(es), interval)
  {
    if interval == 0 {
      NoPings(New(interval, timeout), es);
    } else {
      SpacedFrom(New(interval, timeout), 0, None, last, es);
    }
  }

  lemma {:induction false} NoPings(b: Beat, es: seq<Event>)
    requires b.interval == 0 && Gated(b, es)
    ensures Pings(es) == []
    decreases |es|
  {
    if es != [] {
      NoPings(Apply(b, es[0]), es[1..]);
    }
  }

  /** Where the interval wraps, a ping is due again as soon as it is answered. */
  lemma PingsTwiceAtOnce(interval: u64, timeout: u64, t: u64)
    requires t + interval >= TWO_64
    ensures exists es: seq<Event> :: ProperRun(interval, timeout, t, es) && Pings(es) == [t, t] && !Spaced(Pings(es), interval)
  {
    var b := New(interval, timeout);
    var b1 := Apply(b, Recv(t));
    var b2 := Apply(b1, Ping(t));
    var b3 := Apply(b2, Pong(t));
    var e3 := [Ping(t)] + [];
    var e2 := [Pong(t)] + e3;
    var e1 := [Ping(t)] + e2;
    var es := [Recv(t)] + e1;
    Cons(b3, t, t, Ping(t), []);
    Cons(b2, t, t, Pong(t), e3);
    Cons(b1, t, t, Ping(t), e2);
    Cons(b, 0, t, Recv(t), e1);
    assert ProperRun(interval, timeout, t, es) && Pings(es) == [t, t];
    assert Pings(es)[0] + interval > Pings(es)[1];
  }

  /** A run with one more event in front. */
  lemma Cons(b: Beat, now: u64, last: u64, e: Event, es: seq<Event>)
    ensures Gated(b, [e] + es) <==> (e.Ping? ==> ShouldPing(b, e.t)) && Gated(Apply(b, e), es)
    ensures Ordered(now, [e] + es) <==> now <= e.t && Ordered(e.t, es)
    ensures UpTo(last, [e] + es) <==> e.t <= last && UpTo(last, es)
    ensures Pings([e] + es) == (if e.Ping? then [e.t] else []) + Pings(es)
  {
    assert ([e] + es)[1..] == es;
  }

  lemma SpacedCons(t: u64, pings: seq<u64>, interval: u64)
    requires Spaced(pings, interval) && (pings != [] ==> t + interval <= pings[0])
    ensures Spaced([t] + pings, interval)
  {
    var all := [t] + pings;
    forall i | 0 <= i < |all| - 1 ensures all[i] + interval <= all[i + 1] {
      if i > 0 { assert all[i] == pings[i - 1] && all[i + 1] == pings[i]; }
    }
  }

  /** `prev` is the ping before: unanswered, or answered before the last receipt. */
  lemma {:induction false} SpacedFrom(b: Beat, now: u64, prev: Option<u64>, last: u64, es: seq<Event>)
    requires Ordered(now, es) && UpTo(last, es) && Gated(b, es)
    requires b.interval != 0 && last + b.interval < TWO_64
    requires b.lastRecv <= now && (b.lastRecv == 0 || b.lastRecv <= last)
    requires prev.Some? ==> prev.value <= now && (b.waiting || prev.value <= b.lastRecv)
    ensures var pings := Pings(es);
            && Spaced(pings, b.interval)
            && (prev.Some? && pings != [] ==> prev.value + b.interval <= pings[0])
    decreases |es|
  {
    if es != [] {
      var e, tail := es[0], es[1..];
      if e.Ping? {
        PingDueExactly(b, e.t);
        SpacedFrom(Apply(b, e), e.t, Some(e.t), last, tail);
        SpacedCons(e.t, Pings(tail), b.interval);
      } else {
        SpacedFrom(Apply(b, e), e.t, prev, last, tail);
      }
    }
  }

  /** At most one ping is unanswered, whatever the clock does. */
  lemma {:induction false} PingsAnswered(b: Beat, es: seq<Event>)
    requires Gated(b, es)
    ensures |Pings(es)| + (if b.waiting then 1 else 0) <= Pongs(es) + if After(b, es).waiting then 1 else 0
    decreases |es|
  {
    if es != [] {
      PingsAnswered(Apply(b, es[0]), es[1..]);
    }
  }

  lemma {:induction false} AfterKeeps(b: Beat, last: u64, es: seq<Event>)
    requires UpTo(last, es) && b.lastRecv <= last
    ensures After(b, es).interval == b.interval && After(b, es).timeout == b.timeout
    ensures After(b, es).lastRecv <= last
    decreases |es|
  {
    if es != [] {
      AfterKeeps(Apply(b, es[0]), last, es[1..]);
    }
  }

  lemma {:induction false} AfterSnoc(b: Beat, es: seq<Event>, e: Event)
    ensures After(b, es + [e]) == Apply(After(b, es), e)
    ensures Gated(b, es + [e]) <==> Gated(b, es) && (e.Ping? ==> ShouldPing(After(b, es), e.t))
    decreases |es|
  {
    if es == [] {
      assert es + [e] == [e] && [e][1..] == [];
    } else {
      assert (es + [e])[1..] == es[1..] + [e];
      AfterSnoc(Apply(b, es[0]), es[1..], e);
    }
  }

  lemma {:induction false} WaitingMeansPinged(b: Beat, es: seq<Event>)
    ensures !b.waiting && After(b, es).waiting ==> Pings(es) != []
    decreases |es|
  {
    if es != [] {
      WaitingMeansPinged(Apply(b, es[0]), es[1..]);
    }
  }

  /** A run of a forward clock, looked at when it is t. */
  predicate RunAt(es: seq<Event>, t: u64) {
    Ordered(0, es) && UpTo(t, es)
  }

  /** At time t, when it is timed out, a ping is outstanding or due. */
  predicate PingFirst(b: Beat, t: u64) {
    TimedOut(b, t) ==> b.waiting || ShouldPing(b, t)
  }

  /** A timeout never comes before a ping is outstanding or due, in all runs of a forward
      clock up to `last`, if and only if the timeout after `last` does not wrap or the two
      settings are equal. */
  lemma TimeoutFindsPingExactly(interval: u64, timeout: u64, last: u64)
    requires 0 < interval <= timeout
    ensures (forall es: seq<Event>, t: u64 | RunAt(es, t) && t <= last ::
               PingFirst(After(New(interval, timeout), es), t))
            <==> interval == timeout || last + timeout < TWO_64
  {
    if interval == timeout || last + timeout < TWO_64 {
      forall es: seq<Event>, t: u64 | RunAt(es, t) && t <= last
        ensures PingFirst(After(New(interval, timeout), es), t)
      {
        var b := After(New(interval, timeout), es);
        AfterKeeps(New(interval, timeout), t, es);
        PingDueExactly(b, t);
        TimeoutDueExactly(b, t);
      }
    } else {
      // Timed out in the millisecond of the last receipt, when no ping is due yet.
      var t: u64 := TWO_64 - timeout;
      var es := [Recv(t)];
      var b := Apply(New(interval, timeout), Recv(t));
      assert es[1..] == [] && After(b, []) == b;
      assert After(New(interval, timeout), es) == b;
      assert !PingFirst(After(New(interval, timeout), es), t);
      assert RunAt(es, t) && t <= last;
    }
  }

  // ----- what the fields say of the history -----

  /** When something was received last: a receipt or a pong; 0 before the first. */
  function LastHeard(es: seq<Event>): u64 {
    if es == [] then 0
    else
      var e := es[|es| - 1];
      if e.Recv? || e.Pong? then e.t else LastHeard(es[..|es| - 1])
  }

  /** When something was sent last: a send or a ping. */
  function LastSaid(es: seq<Event>): u64 {
    if es == [] then 0
    else
      var e := es[|es| - 1];
      if e.Send? || e.Ping? then e.t else LastSaid(es[..|es| - 1])
  }

  /** Was there a ping after the last pong? */
  predicate Outstanding(es: seq<Event>) {
    es != [] &&
    var e := es[|es| - 1];
    e.Ping? || (!e.Pong? && Outstanding(es[..|es| - 1]))
  }

  lemma {:induction false} FieldsExactly(interval: u64, timeout: u64, es: seq<Event>)
    ensures After(New(interval, timeout), es) == Beat(LastHeard(es), LastSaid(es), interval, timeout, Outstanding(es))
  {
    if es != [] {
      var init, e := es[..|es| - 1], es[|es| - 1];
      FieldsExactly(interval, timeout, init);
      AfterSnoc(New(interval, timeout), init, e);
      assert init + [e] == es;
    }
  }

  /** When a ping is due and when the peer is timed out, in terms of the history alone. */
  lemma DueExactly(interval: u64, timeout: u64, es: seq<Event>, now: u64)
    requires LastHeard(es) <= now
    ensures var b, silence := After(New(interval, timeout), es), now - LastHeard(es);
            && (ShouldPing(b, now) <==>
                  interval != 0 && !Outstanding(es)
                  && (silence >= interval || LastHeard(es) + interval >= TWO_64))
            && (TimedOut(b, now) <==> timeout != 0 && (silence >= timeout || LastHeard(es) + timeout >= TWO_64))
  {
    FieldsExactly(interval, timeout, es);
    PingDueExactly(After(New(interval, timeout), es), now);
    TimeoutDueExactly(After(New(interval, timeout), es), now);
  }

  // ----- the struct -----

  class Heartbeat {
    var lastRecvTime: u64
    var lastSendTime: u64
    const pingInterval: u64
    const timeout: u64
    var waitingForPong: bool
    ghost var events: seq<Event>

    ghost function Value(): Beat
      reads this
    {
      Beat(lastRecvTime, lastSendTime, pingInterval, timeout, waitingForPong)
    }

    /** The fields are those of the history. */
    ghost predicate Valid()
      reads this
    {
      Value() == After(New(pingInterval, timeout), events)
    }

    constructor (pingInterval: u64, timeout: u64)
      ensures Valid() && events == []
      ensures this.pingInterval == pingInterval && this.timeout == timeout
    {
      lastRecvTime, lastSendTime := 0, 0;
      this.pingInterval, this.timeout := pingInterval, timeout;
      waitingForPong := false;
      events := [];
    }

    method OnRecv(now: u64)
      requires Valid()
      modifies this
      ensures Valid() && events == old(events) + [Recv(now)]
    {
      AfterSnoc(New(pingInterval, timeout), events, Recv(now));
      lastRecvTime := now;
      events := events + [Recv(now)];
    }

    method OnSend(now: u64)
      requires Valid()
      modifies this
      ensures Valid() && events == old(events) + [Send(now)]
    {
      AfterSnoc(New(pingInterval, timeout), events, Send(now));
      lastSendTime := now;
      events := events + [Send(now)];
    }

    method IsPingDue(now: u64) returns (due: bool)
      requires Valid()
      ensures due == ShouldPing(After(New(pingInterval, timeout), events), now)
      ensures LastHeard(events) <= now ==>
                (due <==> pingInterval != 0 && !Outstanding(events)
                          && (now - LastHeard(events) >= pingInterval || LastHeard(events) + pingInterval >= TWO_64))
    {
      if LastHeard(events) <= now {
        DueExactly(pingInterval, timeout, events, now);
      }
      if pingInterval == 0 {
        return false;
      }
      if waitingForPong {
        return false;
      }
      return now >= (lastRecvTime + pingInterval) % TWO_64;
    }

    method IsTimedOut(now: u64) returns (late: bool)
      requires Valid()
      ensures late == TimedOut(After(New(pingInterval, timeout), events), now)
      ensures LastHeard(events) <= now ==>
                (late <==> timeout != 0
                           && (now - LastHeard(events) >= timeout || LastHeard(events) + timeout >= TWO_64))
    {
      if LastHeard(events) <= now {
        DueExactly(pingInterval, timeout, events, now);
      }
      if timeout == 0 {
        return false;
      }
      return now >= (lastRecvTime + timeout) % TWO_64;
    }

    method OnPong(now: u64)
      requires Valid()
      modifies this
      ensures Valid() && events == old(events) + [Pong(now)]
    {
      AfterSnoc(New(pingInterval, timeout), events, Pong(now));
      waitingForPong := false;
      lastRecvTime := now;
      events := events + [Pong(now)];
    }

    /** The history stays gated exactly when the ping was due. */
    method OnPingSent(now: u64)
      requires Valid()
      modifies this
      ensures Valid() && events == old(events) + [Ping(now)]
      ensures Gated(New(pingInterval, timeout), events) <==>
              Gated(New(pingInterval, timeout), old(events)) && ShouldPing(old(Value()), now)
    {
      AfterSnoc(New(pingInterval, timeout), events, Ping(now));
      waitingForPong := true;
      lastSendTime := now;
      events := events + [Ping(now)];
    }
  }

  /** The fields of every heartbeat are these facts of its history. */
  lemma ObjectFields(h: Heartbeat)
    requires h.Valid()
    ensures h.lastRecvTime == LastHeard(h.events) && h.lastSendTime == LastSaid(h.events)
    ensures h.waitingForPong == Outstanding(h.events)
  {
    FieldsExactly(h.pingInterval, h.timeout, h.events);
  }

  /** Of every heartbeat whose pings were sent when due: at most one ping is unanswered, and
      while the interval does not wrap they are spaced. */
  lemma ObjectPings(h: Heartbeat, last: u64)
    requires h.Valid() && ProperRun(h.pingInterval, h.timeout, last, h.events)
    ensures |Pings(h.events)| <= Pongs(h.events) + if h.waitingForPong then 1 else 0
    ensures h.waitingForPong ==> Pings(h.events) != []
    ensures last + h.pingInterval < TWO_64 ==> Spaced(Pings(h.events), h.pingInterval)
  {
    var b := New(h.pingInterval, h.timeout);
    PingsAnswered(b, h.events);
    WaitingMeansPinged(b, h.events);
    if last + h.pingInterval < TWO_64 {
      PingsAreSpaced(h.pingInterval, h.timeout, last, h.events);
    }
  }
}
