/** The reconnect scheduler of AsyncClient.php, with real arithmetic for its floats. */
module Reconnect {
  import opened Bytes
  import opened Connection

  datatype Policy = Policy(maxAttempts: int, initialMs: int, maxMs: int, multiplier: real)

  function Power(x: real, n: nat): real {
    if n == 0 then 1.0 else x * Power(x, n - 1)
  }

  /** PHP's (int) truncates toward zero. */
  function Truncated(x: real): int {
    if x >= 0.0 then x.Floor else -((-x).Floor)
  }

  function Backoff(p: Policy, attempts: nat): int {
    var delay := Truncated(p.initialMs as real * Power(p.multiplier, attempts));
    if delay < p.maxMs then delay else p.maxMs
  }

  /** The policies for which a delay is a delay. */
  predicate Sensible(p: Policy) {
    p.initialMs >= 0 && p.maxMs >= 0 && p.multiplier >= 0.0
  }

  lemma {:induction false} PowerNonnegative(x: real, n: nat)
    requires x >= 0.0
    ensures Power(x, n) >= 0.0
  {
    if n > 0 {
      PowerNonnegative(x, n - 1);
      ProductNonnegative(x, Power(x, n - 1));
    }
  }

  lemma ProductNonnegative(x: real, y: real)
    requires x >= 0.0 && y >= 0.0
    ensures x * y >= 0.0
  {
  }

  /** What Wait adds up: delays between nothing and the maximum. */
  lemma BackoffBounds(p: Policy, n: nat)
    requires Sensible(p)
    ensures 0 <= Backoff(p, n) <= p.maxMs
  {
    PowerNonnegative(p.multiplier, n);
    ProductNonnegative(p.initialMs as real, Power(p.multiplier, n));
  }

  /** The cast drops the fraction, towards zero. */
  lemma CastExactly(x: real, n: int)
    ensures x >= 0.0 ==> (Truncated(x) == n <==> n as real <= x < n as real + 1.0)
    ensures x <= 0.0 ==> (Truncated(x) == n <==> n as real - 1.0 < x <= n as real)
  {
  }

  function IntPower(m: nat, n: nat): nat {
    if n == 0 then 1 else IntPower(m, n - 1) * m
  }

  lemma {:induction false} PowerOfInteger(m: nat, n: nat)
    ensures Power(m as real, n) == IntPower(m, n) as real
  {
    if n > 0 {
      PowerOfInteger(m, n - 1);
      ProductOfIntegers(m, IntPower(m, n - 1));
    }
  }

  lemma ProductOfIntegers(a: int, b: int)
    ensures a as real * b as real == (a * b) as real && a * b == b * a
  {
  }

  /** With a whole multiplier m the n-th delay is the first times m to the n, or the maximum. */
  lemma BackoffOfInteger(p: Policy, m: nat, n: nat)
    requires p.multiplier == m as real && p.initialMs >= 0
    ensures var delay := p.initialMs * IntPower(m, n);
            Backoff(p, n) == if delay < p.maxMs then delay else p.maxMs
  {
    PowerOfInteger(m, n);
    ProductOfIntegers(p.initialMs, IntPower(m, n));
    var delay := p.initialMs * IntPower(m, n);
    ProductNonnegative(p.initialMs as real, IntPower(m, n) as real);
    CastExactly(delay as real, delay);
  }

  lemma ProductGrows(a: real, x: real, y: real)
    requires a >= 0.0 && x >= 1.0 && y >= 0.0
    ensures a * y <= a * (x * y)
  {
    ProductNonnegative(x - 1.0, y);
    assert (x - 1.0) * y == x * y - y;
    ProductNonnegative(a, x * y - y);
    assert a * (x * y - y) == a * (x * y) - a * y;
  }

  lemma CastMonotone(x: real, y: real)
    requires 0.0 <= x <= y
    ensures Truncated(x) <= Truncated(y)
  {
  }

  /** With a multiplier of 1 or more no delay is shorter than the one before. */
  lemma BackoffGrows(p: Policy, n: nat)
    requires p.initialMs >= 0 && p.multiplier >= 1.0
    ensures Backoff(p, n) <= Backoff(p, n + 1)
  {
    var a, y := p.initialMs as real, Power(p.multiplier, n);
    PowerNonnegative(p.multiplier, n);
    ProductNonnegative(a, y);
    ProductGrows(a, p.multiplier, y);
    CastMonotone(a * y, a * (p.multiplier * y));
  }

  /** The delays of the default policy: 1, 1.5, 2.25, 3.375 and 5.062 seconds. */
  lemma DefaultBackoffs()
    ensures var p := Policy(5, 1000, 30000, 1.5);
            Backoff(p, 0) == 1000 && Backoff(p, 1) == 1500 && Backoff(p, 2) == 2250
            && Backoff(p, 3) == 3375 && Backoff(p, 4) == 5062
  {
    assert Power(1.5, 0) == 1.0 && Power(1.5, 1) == 1.5 && Power(1.5, 2) == 2.25;
    assert Power(1.5, 3) == 3.375 && Power(1.5, 4) == 5.0625;
  }

  // ----- one tick -----

  datatype Ticker = Ticker(attempts: nat, wasConnected: bool, nextReconnect: real)

  datatype Event = Up(t: real) | Down(t: real) | Scheduled(t: real) | Attempted(t: real)

  /** Down is reported once. */
  function Lost(k: Ticker, now: real): (Ticker, seq<Event>) {
    if k.wasConnected then (k.(wasConnected := false), [Down(now)]) else (k, [])
  }

  /** While there are attempts left: schedule one, or make the one that is due. */
  function Retry(p: Policy, auto: bool, k: Ticker, now: real): (Ticker, seq<Event>) {
    if !auto || k.attempts >= p.maxAttempts then (k, [])
    else if k.nextReconnect == 0.0 then
      (k.(nextReconnect := now + Backoff(p, k.attempts) as real / 1000.0), [Scheduled(now)])
    else if now >= k.nextReconnect then
      (k.(attempts := k.attempts + 1, nextReconnect := 0.0), [Attempted(now)])
    else (k, [])
  }

  /** The fields after a tick, and what it did. */
  function Tick(p: Policy, auto: bool, k: Ticker, state: State, now: real): (Ticker, seq<Event>) {
    if state == Closed || state == Disconnected then
      var (k1, down) := Lost(k, now);
      var (k2, more) := Retry(p, auto, k1, now);
      (k2, down + more)
    else if state == Ready && !k.wasConnected then
      (Ticker(0, true, 0.0), [Up(now)])
    else (k, [])
  }

  // ----- what a history of events should look like -----

  /** Attempts since the last Up. */
  function Attempts(es: seq<Event>): nat {
    if es == [] then 0
    else
      var init := es[..|es| - 1];
      match es[|es| - 1]
      case Up(_) => 0
      case Attempted(_) => Attempts(init) + 1
      case _ => Attempts(init)
  }

  /** The first scheduling since the last Up. */
  function FirstScheduled(es: seq<Event>): Option<real> {
    if es == [] then None
    else
      var first := FirstScheduled(es[..|es| - 1]);
      match es[|es| - 1]
      case Up(_) => None
      case Scheduled(t) => if first.Some? then first else Some(t)
      case _ => first
  }

  /** Seconds that n attempts must take: the first n capped backoffs. */
  function Wait(p: Policy, n: nat): real {
    if n == 0 then 0.0 else Wait(p, n - 1) + Backoff(p, n - 1) as real / 1000.0
  }

  /** Is the link, as reported, up? */
  predicate LinkUp(es: seq<Event>) {
    es != [] &&
    match es[|es| - 1]
    case Up(_) => true
    case Down(_) => false
    case _ => LinkUp(es[..|es| - 1])
  }

  /** Up only when down, Down only when up: they strictly alternate. */
  predicate Alternates(es: seq<Event>) {
    es == [] ||
    var init := es[..|es| - 1];
    && Alternates(init)
    && (es[|es| - 1].Up? ==> !LinkUp(init))
    && (es[|es| - 1].Down? ==> LinkUp(init))
  }

  /** No more attempts than the cap since the last Up, at any time. */
  predicate Capped(p: Policy, es: seq<Event>) {
    es != [] ==>
      && Capped(p, es[..|es| - 1])
      && (es[|es| - 1].Attempted? ==> Attempts(es) <= p.maxAttempts)
  }

  /** The n-th attempt comes no earlier than the sum of the first n capped backoffs after
      the first scheduling. */
  predicate Paced(p: Policy, es: seq<Event>) {
    es != [] ==>
      && Paced(p, es[..|es| - 1])
      && (es[|es| - 1].Attempted? ==>
            FirstScheduled(es).Some? && es[|es| - 1].t >= FirstScheduled(es).value + Wait(p, Attempts(es)))
  }

  // ----- whole runs -----

  ghost predicate Inv(p: Policy, k: Ticker, es: seq<Event>, now: real) {
    && Sound(p, es)
    && k.attempts == Attempts(es) && k.wasConnected == LinkUp(es)
    && var first := FirstScheduled(es);
    && (k.nextReconnect != 0.0 ==> first.Some? && k.nextReconnect >= first.value + Wait(p, k.attempts + 1))
    && (k.nextReconnect == 0.0 && first.Some? ==> now >= first.value + Wait(p, k.attempts))
    && (first.None? ==> k.attempts == 0)
  }

  lemma InvInit(p: Policy)
    ensures Inv(p, Ticker(0, false, 0.0), [], 0.0)
  {
  }

  lemma Snoc(es: seq<Event>, e: Event)
    ensures (es + [e])[..|es + [e]| - 1] == es && (es + [e])[|es + [e]| - 1] == e
  {
  }

  lemma InvDown(p: Policy, k: Ticker, es: seq<Event>, now: real)
    requires Inv(p, k, es, now) && k.wasConnected
    ensures Inv(p, k.(wasConnected := false), es + [Down(now)], now)
  {
    Snoc(es, Down(now));
  }

  lemma InvUp(p: Policy, k: Ticker, es: seq<Event>, now: real)
    requires Inv(p, k, es, now) && !k.wasConnected
    ensures Inv(p, Ticker(0, true, 0.0), es + [Up(now)], now)
  {
    Snoc(es, Up(now));
  }

  lemma InvScheduled(p: Policy, k: Ticker, es: seq<Event>, now: real)
    requires Inv(p, k, es, now) && k.nextReconnect == 0.0
    ensures Inv(p, k.(nextReconnect := now + Backoff(p, k.attempts) as real / 1000.0), es + [Scheduled(now)], now)
  {
    Snoc(es, Scheduled(now));
  }

  lemma InvAttempted(p: Policy, k: Ticker, es: seq<Event>, now: real)
    requires Inv(p, k, es, now) && k.nextReconnect != 0.0 && now >= k.nextReconnect && k.attempts < p.maxAttempts
    ensures Inv(p, k.(attempts := k.attempts + 1, nextReconnect := 0.0), es + [Attempted(now)], now)
  {
    Snoc(es, Attempted(now));
  }

  lemma LostKeeps(p: Policy, k: Ticker, es: seq<Event>, now: real)
    requires Inv(p, k, es, now)
    ensures var (k1, down) := Lost(k, now); Inv(p, k1, es + down, now)
  {
    Ends(es);
    if k.wasConnected {
      InvDown(p, k, es, now);
    }
  }

  lemma RetryKeeps(p: Policy, auto: bool, k: Ticker, es: seq<Event>, now: real)
    requires Inv(p, k, es, now)
    ensures var (k1, more) := Retry(p, auto, k, now); Inv(p, k1, es + more, now)
  {
    Ends(es);
    if auto && k.attempts < p.maxAttempts {
      if k.nextReconnect == 0.0 {
        InvScheduled(p, k, es, now);
      } else if now >= k.nextReconnect {
        InvAttempted(p, k, es, now);
      }
    }
  }

  lemma Ends(es: seq<Event>)
    ensures es + [] == es && [] + es == es
  {
  }

  lemma EventsAssoc(a: seq<Event>, b: seq<Event>, c: seq<Event>)
    ensures a + (b + c) == (a + b) + c
  {
  }

  lemma Later(p: Policy, k: Ticker, es: seq<Event>, before: real, now: real)
    requires before <= now && Inv(p, k, es, before)
    ensures Inv(p, k, es, now)
  {
  }

  /** Every tick of a forward clock keeps cap, pace and alternation. */
  lemma TickKeeps(p: Policy, auto: bool, k: Ticker, es: seq<Event>, before: real, state: State, now: real)
    requires before <= now
    requires Inv(p, k, es, before)
    ensures var (k', did) := Tick(p, auto, k, state, now); Inv(p, k', es + did, now)
  {
    Later(p, k, es, before, now);
    Ends(es);
    if state == Closed || state == Disconnected {
      var (k1, down) := Lost(k, now);
      var (k2, more) := Retry(p, auto, k1, now);
      LostKeeps(p, k, es, now);
      RetryKeeps(p, auto, k1, es + down, now);
      EventsAssoc(es, down, more);
    } else if state == Ready && !k.wasConnected {
      InvUp(p, k, es, now);
    }
  }

  datatype Input = Input(state: State, now: real)

  /** The clock never runs backwards. */
  predicate Forward(before: real, inputs: seq<Input>)
    decreases |inputs|
  {
    inputs == [] || (before <= inputs[0].now && Forward(inputs[0].now, inputs[1..]))
  }

  /** All events of a run of ticks. */
  function History(p: Policy, auto: bool, k: Ticker, inputs: seq<Input>): seq<Event>
    decreases |inputs|
  {
    if inputs == [] then []
    else
      var (k', did) := Tick(p, auto, k, inputs[0].state, inputs[0].now);
      did + History(p, auto, k', inputs[1..])
  }

  predicate Sound(p: Policy, es: seq<Event>) {
    Alternates(es) && Capped(p, es) && Paced(p, es)
  }

  lemma {:induction false} RunKeeps(p: Policy, auto: bool, k: Ticker, es: seq<Event>, before: real, inputs: seq<Input>)
    requires Forward(before, inputs) && Inv(p, k, es, before)
    ensures Sound(p, es + History(p, auto, k, inputs))
    decreases |inputs|
  {
    if inputs == [] {
      Ends(es);
    } else {
      var (k', did) := Tick(p, auto, k, inputs[0].state, inputs[0].now);
      TickKeeps(p, auto, k, es, before, inputs[0].state, inputs[0].now);
      RunKeeps(p, auto, k', es + did, inputs[0].now, inputs[1..]);
      EventsAssoc(es, did, History(p, auto, k', inputs[1..]));
    }
  }

  /** Over any ticks of a forward clock and for every policy: connects and closes alternate,
      attempts since the last connect never pass the cap, and the backoffs pace them. */
  lemma ReconnectRuns(p: Policy, auto: bool, inputs: seq<Input>)
    requires Forward(0.0, inputs)
    ensures var all := History(p, auto, Ticker(0, false, 0.0), inputs);
            Alternates(all) && Capped(p, all) && Paced(p, all)
  {
    var all := History(p, auto, Ticker(0, false, 0.0), inputs);
    InvInit(p);
    RunKeeps(p, auto, Ticker(0, false, 0.0), [], 0.0, inputs);
    Ends(all);
  }

  // ----- what is reported, and when attempts are made -----

  predicate IsDown(state: State) { state == Closed || state == Disconnected }

  /** The link as the inputs show it: READY is up, CLOSED and DISCONNECTED are down, and any
      other state leaves it. */
  function Shown(up: bool, inputs: seq<Input>): bool
    decreases |inputs|
  {
    if inputs == [] then up
    else Shown(if inputs[0].state == Ready then true else if IsDown(inputs[0].state) then false else up, inputs[1..])
  }

  lemma LinkUpSnoc(es: seq<Event>, e: Event)
    ensures LinkUp(es + [e]) == if e.Up? then true else if e.Down? then false else LinkUp(es)
  {
    Snoc(es, e);
  }

  lemma LostLink(k: Ticker, es: seq<Event>, now: real)
    requires k.wasConnected == LinkUp(es)
    ensures var (k1, down) := Lost(k, now); !k1.wasConnected && !LinkUp(es + down)
  {
    Ends(es);
    LinkUpSnoc(es, Down(now));
  }

  lemma RetryLink(p: Policy, auto: bool, k: Ticker, es: seq<Event>, now: real)
    ensures var (k1, more) := Retry(p, auto, k, now); k1.wasConnected == k.wasConnected && LinkUp(es + more) == LinkUp(es)
  {
    Ends(es);
    LinkUpSnoc(es, Scheduled(now));
    LinkUpSnoc(es, Attempted(now));
  }

  lemma TickLink(p: Policy, auto: bool, k: Ticker, es: seq<Event>, state: State, now: real)
    requires k.wasConnected == LinkUp(es)
    ensures var (k1, did) := Tick(p, auto, k, state, now);
            k1.wasConnected == LinkUp(es + did) == if state == Ready then true else if IsDown(state) then false else LinkUp(es)
  {
    Ends(es);
    LinkUpSnoc(es, Up(now));
    if IsDown(state) {
      var (k1, down) := Lost(k, now);
      var (k2, more) := Retry(p, auto, k1, now);
      LostLink(k, es, now);
      RetryLink(p, auto, k1, es + down, now);
      EventsAssoc(es, down, more);
    }
  }

  lemma {:induction false} RunShows(p: Policy, auto: bool, k: Ticker, es: seq<Event>, inputs: seq<Input>)
    requires k.wasConnected == LinkUp(es)
    ensures LinkUp(es + History(p, auto, k, inputs)) == Shown(LinkUp(es), inputs)
    decreases |inputs|
  {
    if inputs == [] {
      Ends(es);
    } else {
      var (k1, did) := Tick(p, auto, k, inputs[0].state, inputs[0].now);
      TickLink(p, auto, k, es, inputs[0].state, inputs[0].now);
      RunShows(p, auto, k1, es + did, inputs[1..]);
      EventsAssoc(es, did, History(p, auto, k1, inputs[1..]));
    }
  }

  /** After any ticks, what was reported last of the link is what the states show: no connect
      and no close goes unreported. */
  lemma LinkIsReported(p: Policy, auto: bool, inputs: seq<Input>)
    ensures LinkUp(History(p, auto, Ticker(0, false, 0.0), inputs)) == Shown(false, inputs)
  {
    RunShows(p, auto, Ticker(0, false, 0.0), [], inputs);
    Ends(History(p, auto, Ticker(0, false, 0.0), inputs));
  }

  /** How many attempts are made. */
  function Tries(es: seq<Event>): nat {
    if es == [] then 0 else (if es[0].Attempted? then 1 else 0) + Tries(es[1..])
  }

  lemma {:induction false} TriesConcat(a: seq<Event>, b: seq<Event>)
    ensures Tries(a + b) == Tries(a) + Tries(b)
    decreases |a|
  {
    if a == [] {
      Ends(b);
    } else {
      assert (a + b)[1..] == a[1..] + b;
      TriesConcat(a[1..], b);
    }
  }

  /** Without autoReconnect nothing is attempted. */
  lemma {:induction false} NoAutoNoTries(p: Policy, k: Ticker, inputs: seq<Input>)
    ensures Tries(History(p, false, k, inputs)) == 0
    decreases |inputs|
  {
    if inputs != [] {
      var (k1, did) := Tick(p, false, k, inputs[0].state, inputs[0].now);
      NoAutoNoTries(p, k1, inputs[1..]);
      TriesConcat(did, History(p, false, k1, inputs[1..]));
      DownOnly(k, inputs[0].now);
      Ends(Lost(k, inputs[0].now).1);
    }
  }

  lemma DownOnly(k: Ticker, now: real)
    ensures Tries(Lost(k, now).1) == 0
  {
    assert [Down(now)][1..] == [];
  }

  /** While the connection is not down, nothing is scheduled or attempted: at most a connect
      is reported, once. */
  lemma {:induction false} OnlyConnects(p: Policy, auto: bool, k: Ticker, inputs: seq<Input>)
    requires forall i | i in inputs :: !IsDown(i.state)
    ensures |History(p, auto, k, inputs)| <= (if k.wasConnected then 0 else 1)
    ensures forall e | e in History(p, auto, k, inputs) :: e.Up?
    decreases |inputs|
  {
    if inputs != [] {
      OnlyConnects(p, auto, Tick(p, auto, k, inputs[0].state, inputs[0].now).0, inputs[1..]);
    }
  }

  /** A tick of a connection that is down, with nothing scheduled and an attempt left. */
  lemma TickSchedules(p: Policy, k: Ticker, state: State, now: real)
    requires IsDown(state) && k.nextReconnect == 0.0 && k.attempts < p.maxAttempts
    ensures var (k1, did) := Tick(p, true, k, state, now);
            k1 == Ticker(k.attempts, false, now + Backoff(p, k.attempts) as real / 1000.0) && Tries(did) == 0
  {
    DownOnly(k, now);
    TriesConcat(Lost(k, now).1, [Scheduled(now)]);
    assert [Scheduled(now)][1..] == [];
  }

  /** And with one scheduled. */
  lemma TickAttempts(p: Policy, k: Ticker, state: State, now: real)
    requires IsDown(state) && k.nextReconnect != 0.0 && k.attempts < p.maxAttempts
    ensures var (k1, did) := Tick(p, true, k, state, now);
            if now >= k.nextReconnect then k1 == Ticker(k.attempts + 1, false, 0.0) && Tries(did) == 1
            else k1 == k.(wasConnected := false) && Tries(did) == 0
  {
    DownOnly(k, now);
    TriesConcat(Lost(k, now).1, [Attempted(now)]);
    assert [Attempted(now)][1..] == [];
    Ends(Lost(k, now).1);
  }

  lemma TwoTicks(p: Policy, auto: bool, k: Ticker, a: Input, b: Input, rest: seq<Input>)
    ensures var (k1, did1) := Tick(p, auto, k, a.state, a.now);
            var (k2, did2) := Tick(p, auto, k1, b.state, b.now);
            Tries(History(p, auto, k, [a, b] + rest)) == Tries(did1) + Tries(did2) + Tries(History(p, auto, k2, rest))
  {
    var (k1, did1) := Tick(p, auto, k, a.state, a.now);
    var (k2, did2) := Tick(p, auto, k1, b.state, b.now);
    assert ([a, b] + rest)[1..] == [b] + rest && ([b] + rest)[1..] == rest;
    TriesConcat(did1, History(p, auto, k1, [b] + rest));
    TriesConcat(did2, History(p, auto, k2, rest));
  }

  /** Of two ticks of a connection that is down, with nothing scheduled and an attempt left,
      the second makes an attempt if and only if the backoff has passed. */
  lemma AttemptExactly(p: Policy, k: Ticker, a: Input, b: Input)
    requires IsDown(a.state) && IsDown(b.state) && k.nextReconnect == 0.0 && k.attempts < p.maxAttempts
    requires a.now + Backoff(p, k.attempts) as real / 1000.0 != 0.0
    ensures Tries(History(p, true, k, [a, b])) == 1 <==> b.now >= a.now + Backoff(p, k.attempts) as real / 1000.0
    ensures Tries(History(p, true, k, [a, b])) <= 1
  {
    TickSchedules(p, k, a.state, a.now);
    var k1 := Tick(p, true, k, a.state, a.now).0;
    TickAttempts(p, k1, b.state, b.now);
    TwoTicks(p, true, k, a, b, []);
    assert [a, b] + [] == [a, b];
  }

  /** A connection that stays down, looked at in intervals of at least the longest backoff. */
  predicate DownAndSlow(p: Policy, before: real, inputs: seq<Input>)
    decreases |inputs|
  {
    inputs == [] ||
    (IsDown(inputs[0].state) && inputs[0].now > 0.0 && inputs[0].now >= before + p.maxMs as real / 1000.0
     && DownAndSlow(p, inputs[0].now, inputs[1..]))
  }

  lemma NoneLeft(p: Policy, k: Ticker, state: State, now: real)
    requires IsDown(state) && k.attempts >= p.maxAttempts
    ensures var (k1, did) := Tick(p, true, k, state, now); k1.attempts == k.attempts && Tries(did) == 0
  {
    DownOnly(k, now);
    Ends(Lost(k, now).1);
  }

  lemma {:induction false} NoneLeftRun(p: Policy, k: Ticker, before: real, inputs: seq<Input>)
    requires k.attempts >= p.maxAttempts && DownAndSlow(p, before, inputs)
    ensures Tries(History(p, true, k, inputs)) == 0
    decreases |inputs|
  {
    if inputs != [] {
      var (k1, did) := Tick(p, true, k, inputs[0].state, inputs[0].now);
      NoneLeft(p, k, inputs[0].state, inputs[0].now);
      NoneLeftRun(p, k1, inputs[0].now, inputs[1..]);
      TriesConcat(did, History(p, true, k1, inputs[1..]));
    }
  }

  function Least(a: int, b: int): int { if a < b then a else b }

  /** Progress: such a connection makes an attempt with every second tick until the cap is
      used up, and so uses up exactly the cap. */
  lemma {:induction false} SlowRunUsesCap(p: Policy, k: Ticker, before: real, inputs: seq<Input>)
    requires Sensible(p) && k.nextReconnect == 0.0 && k.attempts <= p.maxAttempts
    requires DownAndSlow(p, before, inputs)
    ensures Tries(History(p, true, k, inputs)) == Least(p.maxAttempts - k.attempts, |inputs| / 2)
    decreases |inputs|
  {
    if k.attempts == p.maxAttempts {
      NoneLeftRun(p, k, before, inputs);
    } else if |inputs| >= 2 {
      var a, b, rest := inputs[0], inputs[1], inputs[2..];
      assert inputs == [a, b] + rest && inputs[1..][0] == b && inputs[1..][1..] == rest;
      TickSchedules(p, k, a.state, a.now);
      var k1 := Tick(p, true, k, a.state, a.now).0;
      BackoffBounds(p, k.attempts);
      TickAttempts(p, k1, b.state, b.now);
      var k2 := Tick(p, true, k1, b.state, b.now).0;
      SlowRunUsesCap(p, k2, b.now, rest);
      TwoTicks(p, true, k, a, b, rest);
    } else if |inputs| == 1 {
      var a := inputs[0];
      TickSchedules(p, k, a.state, a.now);
      OneTick(p, true, k, inputs);
    }
  }

  lemma OneTick(p: Policy, auto: bool, k: Ticker, inputs: seq<Input>)
    requires |inputs| == 1
    ensures History(p, auto, k, inputs) == Tick(p, auto, k, inputs[0].state, inputs[0].now).1
  {
    var (k1, did) := Tick(p, auto, k, inputs[0].state, inputs[0].now);
    assert inputs[1..] == [] && History(p, auto, k1, []) == [];
    Ends(did);
  }

  // ----- the class -----

  class AsyncClient {
    const policy: Policy
    const autoReconnect: bool
    var reconnectAttempts: nat
    var wasConnected: bool
    var lastTickTime: real
    var nextReconnectTime: real
    var connectedSince: real
    var reconnectCount: nat
    ghost var events: seq<Event>

    ghost function Value(): Ticker
      reads this
    {
      Ticker(reconnectAttempts, wasConnected, nextReconnectTime)
    }

    ghost predicate Valid()
      reads this
    {
      Inv(policy, Value(), events, lastTickTime)
    }

    constructor (policy: Policy, autoReconnect: bool)
      ensures Valid() && events == [] && lastTickTime == 0.0 && reconnectCount == 0
      ensures this.policy == policy && this.autoReconnect == autoReconnect
    {
      this.policy, this.autoReconnect := policy, autoReconnect;
      reconnectAttempts, wasConnected, lastTickTime, nextReconnectTime := 0, false, 0.0, 0.0;
      connectedSince, reconnectCount := 0.0, 0;
      events := [];
    }

    /** calculateBackoff. `power` is pow(backoffMultiplier, reconnectAttempts). */
    method CalculateBackoff() returns (ms: int)
      ensures ms == Backoff(policy, reconnectAttempts)
    {
      var power := Power(policy.multiplier, reconnectAttempts);
      var delay := Truncated(policy.initialMs as real * power);
      ms := if delay < policy.maxMs then delay else policy.maxMs;
    }

    method TickOnce(state: State, now: real)
      requires Valid() && lastTickTime <= now
      modifies this
      ensures Valid() && lastTickTime == now
      ensures Value() == Tick(policy, autoReconnect, old(Value()), state, now).0
      ensures events == old(events) + Tick(policy, autoReconnect, old(Value()), state, now).1
      ensures reconnectCount == old(reconnectCount) + if reconnectAttempts > old(reconnectAttempts) then 1 else 0
      ensures connectedSince ==
              if wasConnected && !old(wasConnected) then now
              else if old(wasConnected) && !wasConnected then 0.0 else old(connectedSince)
    {
      TickKeeps(policy, autoReconnect, Value(), events, lastTickTime, state, now);
      ghost var did := Tick(policy, autoReconnect, Value(), state, now).1;
      TickFields(state, now);
      lastTickTime := now;
      events := events + did;
    }

    method TickFields(state: State, now: real)
      modifies this`reconnectAttempts, this`wasConnected, this`nextReconnectTime, this`connectedSince, this`reconnectCount
      ensures Value() == Tick(policy, autoReconnect, old(Value()), state, now).0
      ensures reconnectCount == old(reconnectCount) + if reconnectAttempts > old(reconnectAttempts) then 1 else 0
      ensures connectedSince ==
              if wasConnected && !old(wasConnected) then now
              else if old(wasConnected) && !wasConnected then 0.0 else old(connectedSince)
    {
      if state == Closed || state == Disconnected {
        if wasConnected {
          wasConnected := false;
          connectedSince := 0.0;
        }
        if autoReconnect {
          if reconnectAttempts < policy.maxAttempts {
            if nextReconnectTime == 0.0 {
              var backoffMs := CalculateBackoff();
              nextReconnectTime := now + backoffMs as real / 1000.0;
            } else if now >= nextReconnectTime {
              reconnectAttempts := reconnectAttempts + 1;
              reconnectCount := reconnectCount + 1;
              nextReconnectTime := 0.0;
            }
          }
        }
      } else if state == Ready {
        if !wasConnected {
          wasConnected := true;
          reconnectAttempts := 0;
          nextReconnectTime := 0.0;
          connectedSince := now;
        }
      }
    }
  }
}
