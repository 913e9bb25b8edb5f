/** Byte counters with limits (pw_flow.c), in 32-bit arithmetic. */
module Flow {
  import opened Bytes

  /** `Put` stands for enqueued or received bytes, `Got` for sent or consumed ones. */
  datatype Event = Put(n: u32) | Got(n: u32)

  // ----- one counter -----

  function Add(current: u32, n: u32): u32 { (current + n) % TWO_32 }

  function Drop(current: u32, n: u32): u32 { if current >= n then current - n else 0 }

  /** pw_flow_can_send, pw_flow_can_receive: a limit of 0 is none. */
  predicate Admits(limit: u32, current: u32, n: u32) {
    limit == 0 || Add(current, n) <= limit
  }

  function Apply(current: u32, e: Event): u32 {
    match e
    case Put(n) => Add(current, n)
    case Got(n) => Drop(current, n)
  }

  function Count(current: u32, es: seq<Event>): u32
    decreases |es|
  {
    if es == [] then current else Count(Apply(current, es[0]), es[1..])
  }

  predicate NoWrap(current: u32, es: seq<Event>)
    decreases |es|
  {
    es == [] || ((es[0].Put? ==> current + es[0].n < TWO_32) && NoWrap(Apply(current, es[0]), es[1..]))
  }

  /** Every Put was admitted at its turn. */
  predicate Gated(limit: u32, current: u32, es: seq<Event>)
    decreases |es|
  {
    es == [] || ((es[0].Put? ==> Admits(limit, current, es[0].n)) && Gated(limit, Apply(current, es[0]), es[1..]))
  }

  // ----- what the counter should say -----

  function Change(e: Event): int {
    match e
    case Put(n) => n
    case Got(n) => 0 - n as int
  }

  /** Bytes put minus bytes got. */
  function Net(es: seq<Event>): int {
    if es == [] then 0 else Change(es[0]) + Net(es[1..])
  }

  /** The least of the net sums after 0, 1, ..., |es| events. */
  function Lowest(es: seq<Event>): (m: int)
    ensures m <= 0
  {
    if es == [] then 0
    else
      var m := Change(es[0]) + Lowest(es[1..]);
      if m < 0 then m else 0
  }

  lemma {:induction false} LowestIsLeast(es: seq<Event>)
    ensures forall k :: 0 <= k <= |es| ==> Lowest(es) <= Net(es[..k])
    ensures exists k :: 0 <= k <= |es| && Lowest(es) == Net(es[..k])
  {
    assert Net(es[..0]) == 0;
    if es != [] {
      var tail := es[1..];
      LowestIsLeast(tail);
      forall k | 0 <= k <= |es| ensures Lowest(es) <= Net(es[..k]) {
        if k > 0 { NetCons(es, k); assert Lowest(tail) <= Net(tail[..k - 1]); }
      }
      if Lowest(es) < 0 {
        var k :| 0 <= k <= |tail| && Lowest(tail) == Net(tail[..k]);
        NetCons(es, k + 1);
        assert Lowest(es) == Net(es[..k + 1]);
      }
    }
  }

  lemma NetCons(es: seq<Event>, k: nat)
    requires 0 < k <= |es|
    ensures Net(es[..k]) == Change(es[0]) + Net(es[1..][..k - 1])
  {
    assert es[..k][1..] == es[1..][..k - 1];
  }

  /** The saturating counter in closed form: the net sum minus the least net sum so far. */
  lemma ClosedForm(es: seq<Event>)
    requires NoWrap(0, es)
    ensures Count(0, es) == Net(es) - Lowest(es)
    ensures Count(0, es) >= Net(es)
    ensures Count(0, es) == Net(es) <==> Lowest(es) == 0
  {
    ClosedFormFrom(0, es);
  }

  lemma {:induction false} ClosedFormFrom(current: u32, es: seq<Event>)
    requires NoWrap(current, es)
    ensures Count(current, es) == Net(es) + if current > -Lowest(es) then current else -Lowest(es)
    decreases |es|
  {
    if es != [] {
      ClosedFormFrom(Apply(current, es[0]), es[1..]);
    }
  }

  /** The closed form, from any start value. */
  function Closed(start: nat, es: seq<Event>): int {
    Net(es) + if start > -Lowest(es) then start else -Lowest(es)
  }

  /** One event on a counter that never wraps. */
  function Unwrapped(start: nat, e: Event): nat {
    match e
    case Put(n) => start + n
    case Got(n) => if start >= n then start - n else 0
  }

  lemma ClosedCons(start: nat, es: seq<Event>, k: nat)
    requires 0 < k <= |es|
    ensures Closed(start, es[..k]) == Closed(Unwrapped(start, es[0]), es[1..][..k - 1])
  {
    assert es[..k][1..] == es[1..][..k - 1];
  }

  ghost predicate ClosedThroughout(start: u32, es: seq<Event>) {
    forall k :: 0 <= k <= |es| ==> Count(start, es[..k]) == Closed(start, es[..k])
  }

  /** The closed form holds at every moment of a run, saturating or not, if and only if no
      addition of the run wraps. */
  lemma ClosedFormExactly(es: seq<Event>)
    ensures (forall k :: 0 <= k <= |es| ==> Count(0, es[..k]) == Net(es[..k]) - Lowest(es[..k])) <==> NoWrap(0, es)
  {
    ClosedExactlyFrom(0, es);
    forall k | 0 <= k <= |es| ensures Closed(0, es[..k]) == Net(es[..k]) - Lowest(es[..k]) {
    }
    if forall k :: 0 <= k <= |es| ==> Count(0, es[..k]) == Net(es[..k]) - Lowest(es[..k]) {
      assert ClosedThroughout(0, es);
    }
  }

  lemma {:induction false} ClosedExactlyFrom(start: u32, es: seq<Event>)
    ensures ClosedThroughout(start, es) <==> NoWrap(start, es)
    decreases |es|
  {
    if es == [] {
      assert es[..0] == [];
    } else {
      var next, tail := Apply(start, es[0]), es[1..];
      ClosedExactlyFrom(next, tail);
      if next == Unwrapped(start, es[0]) {
        ClosedTail(start, es);
      } else {
        FirstWraps(start, es);
      }
    }
  }

  lemma FirstWraps(start: u32, es: seq<Event>)
    requires es != [] && Apply(start, es[0]) != Unwrapped(start, es[0])
    ensures !ClosedThroughout(start, es) && !NoWrap(start, es)
  {
    CountCons(start, es, 1);
    ClosedCons(start, es, 1);
    assert es[1..][..0] == [];
    assert Count(start, es[..1]) != Closed(start, es[..1]);
  }

  lemma ClosedTail(start: u32, es: seq<Event>)
    requires es != [] && Apply(start, es[0]) == Unwrapped(start, es[0])
    ensures ClosedThroughout(start, es) <==> ClosedThroughout(Apply(start, es[0]), es[1..])
  {
    var next, tail := Apply(start, es[0]), es[1..];
    assert es[..0] == [];
    forall k | 0 < k <= |es|
      ensures Count(start, es[..k]) == Count(next, tail[..k - 1]) && Closed(start, es[..k]) == Closed(next, tail[..k - 1])
    {
      CountCons(start, es, k);
      ClosedCons(start, es, k);
    }
    if ClosedThroughout(start, es) {
      forall k | 0 <= k <= |tail| ensures Count(next, tail[..k]) == Closed(next, tail[..k]) {
        assert Count(start, es[..k + 1]) == Closed(start, es[..k + 1]);
        assert (k + 1) - 1 == k;
      }
    }
    if ClosedThroughout(next, tail) {
      forall k | 0 <= k <= |es| ensures Count(start, es[..k]) == Closed(start, es[..k]) {
        if k > 0 { assert Count(next, tail[..k - 1]) == Closed(next, tail[..k - 1]); }
      }
    }
  }

  lemma {:induction false} LowestOfPrefix(es: seq<Event>, k: nat)
    requires k <= |es| && Lowest(es) == 0
    ensures Lowest(es[..k]) == 0
  {
    LowestIsLeast(es);
    LowestIsLeast(es[..k]);
    var j :| 0 <= j <= k && Lowest(es[..k]) == Net(es[..k][..j]);
    assert es[..k][..j] == es[..j];
  }

  /** The counter says exactly how many bytes are outstanding, at every moment of a run, if
      and only if no addition wraps and never more is got than was put. */
  lemma ExactUnlessWrapped(es: seq<Event>)
    ensures (forall k :: 0 <= k <= |es| ==> Count(0, es[..k]) == Net(es[..k]))
            <==> NoWrap(0, es) && Lowest(es) == 0
  {
    ClosedFormExactly(es);
    if forall k :: 0 <= k <= |es| ==> Count(0, es[..k]) == Net(es[..k]) {
      LowestIsLeast(es);
      var j :| 0 <= j <= |es| && Lowest(es) == Net(es[..j]);
      assert Count(0, es[..j]) == Net(es[..j]);
    }
    if Lowest(es) == 0 {
      forall k | 0 <= k <= |es| ensures Lowest(es[..k]) == 0 {
        LowestOfPrefix(es, k);
      }
    }
  }

  lemma CountCons(current: u32, es: seq<Event>, k: nat)
    requires 0 < k <= |es|
    ensures Count(current, es[..k]) == Count(Apply(current, es[0]), es[1..][..k - 1])
  {
    assert es[..k][1..] == es[1..][..k - 1];
  }

  /** A gated counter never passes a nonzero limit, wrapping or not. */
  lemma {:induction false} LimitKept(limit: u32, current: u32, es: seq<Event>)
    requires limit != 0 && current <= limit && Gated(limit, current, es)
    ensures Count(current, es) <= limit
    decreases |es|
  {
    if es != [] {
      LimitKept(limit, Apply(current, es[0]), es[1..]);
    }
  }

  /** A limit of 0 admits everything, at any time. */
  lemma {:induction false} NoLimitAdmitsAll(current: u32, es: seq<Event>)
    ensures Gated(0, current, es) && forall n: u32 :: Admits(0, current, n)
    decreases |es|
  {
    if es != [] {
      NoLimitAdmitsAll(Apply(current, es[0]), es[1..]);
    }
  }

  /** The gate lets more through than the limit if and only if the 32-bit sum wraps. */
  lemma GateExact(limit: u32, current: u32, n: u32)
    requires 0 < limit && current <= limit
    ensures (Admits(limit, current, n) <==> current + n <= limit)
            <==> !(TWO_32 <= current + n <= TWO_32 + limit)
  {
  }

  predicate PutsUpTo(most: u32, es: seq<Event>) {
    es == [] || ((es[0].Put? ==> es[0].n <= most) && PutsUpTo(most, es[1..]))
  }

  /** A gated run never has more bytes outstanding than the limit, whatever its sizes up to
      `most`, if and only if the limit and one such size cannot wrap. */
  lemma OutstandingWithinLimitExactly(limit: u32, most: u32)
    requires limit != 0
    ensures (forall es: seq<Event> | PutsUpTo(most, es) && Gated(limit, 0, es) :: Net(es) <= limit)
            <==> most + limit < TWO_32
  {
    if most + limit < TWO_32 {
      forall es: seq<Event> | PutsUpTo(most, es) && Gated(limit, 0, es) ensures Net(es) <= limit {
        LimitKept(limit, 0, es);
        GatedNoWrap(limit, most, 0, es);
        ClosedForm(es);
      }
    } else {
      OverfillPasses(limit, most, 0);
      assert Net(Overfill(limit, most, 0)) > limit;
    }
  }

  lemma {:induction false} GatedNoWrap(limit: u32, most: u32, current: u32, es: seq<Event>)
    requires limit != 0 && most + limit < TWO_32 && current <= limit
    requires PutsUpTo(most, es) && Gated(limit, current, es)
    ensures NoWrap(current, es)
    decreases |es|
  {
    if es != [] {
      GatedNoWrap(limit, most, Apply(current, es[0]), es[1..]);
    }
  }

  /** Fill the counter up to the limit, then put `most` bytes once more. */
  function Overfill(limit: u32, most: u32, current: u32): seq<Event>
    requires 0 < most && current <= limit
    decreases limit - current
  {
    if current == limit then [Put(most)]
    else
      var n: u32 := if most < limit - current then most else limit - current;
      [Put(n)] + Overfill(limit, most, current + n)
  }

  lemma {:induction false} OverfillPasses(limit: u32, most: u32, current: u32)
    requires 0 < most && current <= limit && most + limit >= TWO_32
    ensures var es := Overfill(limit, most, current);
            PutsUpTo(most, es) && Gated(limit, current, es) && Net(es) == limit - current + most
    decreases limit - current
  {
    if current == limit {
      AtTheLimit(limit, most);
    } else {
      var n: u32 := if most < limit - current then most else limit - current;
      OverfillPasses(limit, most, current + n);
      BelowTheLimit(limit, current, n);
      PutCons(limit, most, current, n, Overfill(limit, most, current + n));
    }
  }

  lemma AtTheLimit(limit: u32, most: u32)
    requires most + limit >= TWO_32
    ensures PutsUpTo(most, [Put(most)]) && Gated(limit, limit, [Put(most)]) && Net([Put(most)]) == most
  {
    assert Add(limit, most) == limit + most - TWO_32;
    assert [Put(most)][1..] == [];
  }

  lemma BelowTheLimit(limit: u32, current: u32, n: u32)
    requires current + n <= limit
    ensures Add(current, n) == current + n && Admits(limit, current, n)
  {
  }

  lemma PutCons(limit: u32, most: u32, current: u32, n: u32, tail: seq<Event>)
    requires n <= most && PutsUpTo(most, tail)
    requires Admits(limit, current, n) && Gated(limit, Add(current, n), tail)
    ensures var es := [Put(n)] + tail;
            PutsUpTo(most, es) && Gated(limit, current, es) && Net(es) == n + Net(tail)
  {
    assert ([Put(n)] + tail)[1..] == tail;
  }

  /** A gated run whose counter says 9 while four billion bytes are outstanding. */
  lemma WrapUndercounts()
    ensures var es := [Put(10), Put(0xFFFF_FFFF)];
            Gated(10, 0, es) && Count(0, es) == 9 && Net(es) == 0x1_0000_0009
  {
    var es := [Put(10), Put(0xFFFF_FFFF)];
    assert es[1..] == [Put(0xFFFF_FFFF)] && es[1..][1..] == [];
    assert Gated(10, 10, es[1..]) && Count(10, es[1..]) == 9;
    assert Net(es[1..]) == 0xFFFF_FFFF;
  }

  // ----- the struct -----

  class FlowControl {
    const maxOutbound: u32
    var currentOutbound: u32
    const maxInbound: u32
    var currentInbound: u32
    ghost var outbound: seq<Event>
    ghost var inbound: seq<Event>

    ghost predicate Valid()
      reads this
    {
      currentOutbound == Count(0, outbound) && currentInbound == Count(0, inbound)
    }

    constructor (maxOutbound: u32, maxInbound: u32)
      ensures Valid() && outbound == [] && inbound == []
      ensures this.maxOutbound == maxOutbound && this.maxInbound == maxInbound
    {
      this.maxOutbound, currentOutbound := maxOutbound, 0;
      this.maxInbound, currentInbound := maxInbound, 0;
      outbound, inbound := [], [];
    }

    predicate CanSend(n: u32)
      reads this
    {
      Admits(maxOutbound, currentOutbound, n)
    }

    predicate CanReceive(n: u32)
      reads this
    {
      Admits(maxInbound, currentInbound, n)
    }

    method OnEnqueued(n: u32)
      requires Valid()
      modifies this`currentOutbound, this`outbound
      ensures Valid() && outbound == old(outbound) + [Put(n)]
      ensures Gated(maxOutbound, 0, outbound) <==> Gated(maxOutbound, 0, old(outbound)) && old(CanSend(n))
    {
      CountSnoc(0, outbound, Put(n));
      GatedSnoc(maxOutbound, 0, outbound, Put(n));
      currentOutbound := (currentOutbound + n) % TWO_32;
      outbound := outbound + [Put(n)];
    }

    method OnSent(n: u32)
      requires Valid()
      modifies this`currentOutbound, this`outbound
      ensures Valid() && outbound == old(outbound) + [Got(n)]
      ensures Gated(maxOutbound, 0, outbound) <==> Gated(maxOutbound, 0, old(outbound))
    {
      CountSnoc(0, outbound, Got(n));
      GatedSnoc(maxOutbound, 0, outbound, Got(n));
      if currentOutbound >= n {
        currentOutbound := currentOutbound - n;
      } else {
        currentOutbound := 0;
      }
      outbound := outbound + [Got(n)];
    }

    method OnReceived(n: u32)
      requires Valid()
      modifies this`currentInbound, this`inbound
      ensures Valid() && inbound == old(inbound) + [Put(n)]
      ensures Gated(maxInbound, 0, inbound) <==> Gated(maxInbound, 0, old(inbound)) && old(CanReceive(n))
    {
      CountSnoc(0, inbound, Put(n));
      GatedSnoc(maxInbound, 0, inbound, Put(n));
      currentInbound := (currentInbound + n) % TWO_32;
      inbound := inbound + [Put(n)];
    }

    method OnConsumed(n: u32)
      requires Valid()
      modifies this`currentInbound, this`inbound
      ensures Valid() && inbound == old(inbound) + [Got(n)]
      ensures Gated(maxInbound, 0, inbound) <==> Gated(maxInbound, 0, old(inbound))
    {
      CountSnoc(0, inbound, Got(n));
      GatedSnoc(maxInbound, 0, inbound, Got(n));
      if currentInbound >= n {
        currentInbound := currentInbound - n;
      } else {
        currentInbound := 0;
      }
      inbound := inbound + [Got(n)];
    }
  }

  lemma {:induction false} CountSnoc(current: u32, es: seq<Event>, e: Event)
    ensures Count(current, es + [e]) == Apply(Count(current, es), e)
    decreases |es|
  {
    if es == [] {
      assert es + [e] == [e];
      assert [e][1..] == [];
    } else {
      assert (es + [e])[1..] == es[1..] + [e];
      CountSnoc(Apply(current, es[0]), es[1..], e);
    }
  }

  lemma {:induction false} GatedSnoc(limit: u32, current: u32, es: seq<Event>, e: Event)
    ensures Gated(limit, current, es + [e]) <==>
            Gated(limit, current, es) && (e.Put? ==> Admits(limit, Count(current, es), e.n))
    decreases |es|
  {
    if es == [] {
      assert es + [e] == [e];
      assert [e][1..] == [];
    } else {
      assert (es + [e])[1..] == es[1..] + [e];
      GatedSnoc(limit, Apply(current, es[0]), es[1..], e);
    }
  }

  /** Of every flow control that was asked before each enqueue, with sizes that cannot wrap:
      the counter covers what is outstanding, and both stay within the limit. */
  lemma ObjectWithinLimit(f: FlowControl, most: u32)
    requires f.Valid() && f.maxOutbound != 0 && Gated(f.maxOutbound, 0, f.outbound)
    requires PutsUpTo(most, f.outbound) && most + f.maxOutbound < TWO_32
    ensures Net(f.outbound) <= f.currentOutbound <= f.maxOutbound
  {
    LimitKept(f.maxOutbound, 0, f.outbound);
    GatedNoWrap(f.maxOutbound, most, 0, f.outbound);
    ClosedForm(f.outbound);
  }
}
