/** The frame encoding of the PHP client (StreamClient.php), and how it agrees with the
    C codec of pw_frame.c. */
module PhpFrame {
  import opened Bits
  import opened Bytes
  import opened Streams
  import opened Varint
  import Frame

  // ----- PHP's 64-bit integers -----

  const TWO_63 := 0x8000_0000_0000_0000

  /** The bit pattern of a PHP integer, read as PHP reads it. */
  function Signed64(pattern: u64): int {
    if pattern < TWO_63 then pattern else pattern - TWO_64
  }

  /** It is the one value between -2^63 and 2^63 with the same 64 bits. */
  lemma Signed64Exactly(pattern: u64, v: int)
    ensures Signed64(pattern) == v <==> -TWO_63 <= v < TWO_63 && v % TWO_64 == pattern
  {
  }

  /** `x << shift`: bits beyond the 64th are lost. */
  function ShiftLeft(x: byte, shift: nat): u64 { Wrap64(Pow2(shift) * x) }

  lemma {:induction false} Pow128Wide(k: nat)
    requires k >= 10
    ensures exists c: nat :: Pow128(k) == TWO_64 * c
  {
    if k == 10 {
      Pow128Values();
      assert Pow128(6) == 0x80 * Pow128(5) && Pow128(7) == 0x80 * Pow128(6);
      assert Pow128(8) == 0x80 * Pow128(7) && Pow128(9) == 0x80 * Pow128(8);
      assert Pow128(10) == 0x80 * Pow128(9) == TWO_64 * 0x40;
    } else {
      Pow128Wide(k - 1);
      var c: nat :| Pow128(k - 1) == TWO_64 * c;
      assert Pow128(k) == TWO_64 * (0x80 * c);
    }
  }

  lemma Pow128Nine()
    ensures Pow128(9) == TWO_63 && forall k: nat :: k <= 8 ==> 0x80 * Pow128(k) <= TWO_63
  {
    Pow128Values();
    assert Pow128(6) == 0x80 * Pow128(5) && Pow128(7) == 0x80 * Pow128(6);
    assert Pow128(8) == 0x80 * Pow128(7) && Pow128(9) == 0x80 * Pow128(8);
    forall k: nat | k <= 8 ensures 0x80 * Pow128(k) <= TWO_63 {
      assert Pow128(0) == 1;
      assert k in {0, 1, 2, 3, 4, 5, 6, 7, 8};
    }
  }

  lemma MultipleWraps(c: nat, d: nat)
    ensures Wrap64(TWO_64 * c * d) == 0
  {
    assert TWO_64 * c * d == TWO_64 * (c * d);
  }

  lemma WrapSmall(v: nat)
    requires v < TWO_64
    ensures Wrap64(v) == v
  {
  }

  lemma WrapSum(a: nat, b: nat)
    requires Wrap64(a) as int + Wrap64(b) < TWO_64
    ensures Wrap64(a) as int + Wrap64(b) == Wrap64(a + b)
  {
  }

  /** The eighth bit of the tenth group is the sign bit; the rest of that group is lost. */
  lemma TopDigit(d: nat)
    ensures Wrap64(TWO_63 * d) == if d % 2 == 0 then 0 else TWO_63
  {
    var q, r := d / 2, d % 2;
    assert TWO_63 * d == TWO_64 * q + TWO_63 * r;
  }

  /** Group k is or-ed into bits that are still zero, so `|=` adds it: the integer is the
      denoted number modulo 2^64 after any number of groups. */
  lemma OrAddsDigit(s: seq<byte>, i: nat, k: nat)
    requires i + k < |s|
    ensures Or(Wrap64(Value(s, i, i + k)), ShiftLeft(s[i + k] % 0x80, 7 * k)) == Wrap64(Value(s, i, i + k + 1))
  {
    var v, d := Value(s, i, i + k), s[i + k] % 0x80;
    ValueBound(s, i, i + k);
    Pow2Sevens(k);
    if k <= 8 {
      LowDigit(k, v, d);
    } else if k == 9 {
      NinthDigit(v, d);
    } else {
      LostDigit(k, v, d);
    }
  }

  /** In 64 bits, or-ing x into v adds it. */
  predicate OrsTo(v: nat, x: nat) {
    Or(Wrap64(v), Wrap64(x)) == Wrap64(v + x)
  }

  lemma OrSmall(v: nat, x: nat)
    requires v + x < TWO_64 && Or(v, x) == v + x
    ensures OrsTo(v, x)
  {
    WrapSmall(v);
    WrapSmall(x);
    WrapSmall(v + x);
  }

  lemma DigitRoom(k: nat, v: nat, d: nat)
    requires k <= 8 && v < Pow128(k) && d < 0x80
    ensures 0 <= Pow128(k) * d < TWO_64 - v
  {
    Pow128Nine();
    MulDigit(Pow128(k), d);
  }

  lemma LowDigit(k: nat, v: nat, d: nat)
    requires k <= 8 && v < Pow128(k) && d < 0x80
    ensures OrsTo(v, Pow128(k) * d)
  {
    DigitRoom(k, v, d);
    OrDigit(k, v, d);
    OrSmall(v, Pow128(k) * d);
  }

  lemma NinthDigit(v: nat, d: nat)
    requires v < Pow128(9)
    ensures OrsTo(v, Pow128(9) * d)
  {
    Pow128Nine();
    OrDigit(9, v, d % 2);
    SignBit(v, d);
  }

  lemma SignBit(v: nat, d: nat)
    requires v < TWO_63 && Or(v, TWO_63 * (d % 2)) == v + TWO_63 * (d % 2)
    ensures OrsTo(v, TWO_63 * d)
  {
    TopDigit(d);
    OrsAs(v, TWO_63 * d, TWO_63 * (d % 2));
  }

  /** Or-ing x is or-ing what 64 bits keep of it. */
  lemma OrsAs(v: nat, x: nat, kept: nat)
    requires Wrap64(x) == kept && v + kept < TWO_64 && Or(v, kept) == v + kept
    ensures OrsTo(v, x)
  {
    WrapSmall(v);
    WrapSum(v, x);
  }

  lemma LostDigit(k: nat, v: nat, d: nat)
    requires k >= 10
    ensures OrsTo(v, Pow128(k) * d)
  {
    Pow128Wide(k);
    var c: nat :| Pow128(k) == TWO_64 * c;
    MultipleWraps(c, d);
    OrLost(v, Pow128(k) * d);
  }

  lemma OrLost(v: nat, x: nat)
    requires Wrap64(x) == 0
    ensures OrsTo(v, x)
  {
    OrZero(Wrap64(v));
    WrapSum(v, x);
  }

  // ----- the encoding -----

  /** What sendFrame writes, for any flags. */
  function FrameBytes(flags: byte, opcode: byte, payload: seq<byte>): (s: seq<byte>)
    ensures |s| >= 7 + |payload|
  {
    [Frame.MAGIC_1, Frame.MAGIC_2, Frame.VERSION_1, flags, opcode, 0] + Encode(|payload|) + payload
  }

  /** What readFrame makes of the bytes the peer sends: a frame and the bytes it takes, or
      the exception it throws. */
  datatype Read = Got(opcode: byte, payload: seq<byte>, size: nat) | Closed | WrongMagic

  /** The length readFrame asks readExact for. */
  function PayloadLength(s: seq<byte>, i: nat, n: nat): nat
    requires i <= n <= |s|
  {
    var length := Signed64(Wrap64(Value(s, i, n)));
    if length > 0 then length else 0
  }

  function ReadFrame(s: seq<byte>): (r: Read)
    ensures r.Got? ==> 7 <= r.size <= |s| && |r.payload| <= r.size
  {
    if |s| < 5 then Closed
    else if s[0] != Frame.MAGIC_1 || s[1] != Frame.MAGIC_2 then WrongMagic
    else
      var idEnd := GroupEnd(s, 5);
      if idEnd == 0 then Closed
      else
        var lengthEnd := GroupEnd(s, idEnd);
        if lengthEnd == 0 then Closed
        else
          var n := PayloadLength(s, idEnd, lengthEnd);
          if |s| < lengthEnd + n then Closed
          else Got(s[4], s[lengthEnd..lengthEnd + n], lengthEnd + n)
  }

  /** A group is found in a prefix exactly when the prefix holds all of it. */
  lemma {:induction false} GroupEndPrefix(s: seq<byte>, i: nat, k: nat)
    requires i <= k <= |s|
    ensures GroupEnd(s[..k], i) == if GroupEnd(s, i) <= k then GroupEnd(s, i) else 0
    decreases k - i
  {
    if i < k && s[i] >= 0x80 {
      GroupEndPrefix(s, i + 1, k);
    }
  }

  lemma LengthPrefix(s: seq<byte>, i: nat, n: nat, k: nat)
    requires i <= n <= k <= |s|
    ensures PayloadLength(s[..k], i, n) == PayloadLength(s, i, n)
  {
    ValueSame(s, i, s[..k], i, n - i);
  }

  /** Reading from a stream of which k bytes are here and no more arrive: the frame is read
      if and only if all its bytes are here, and else readFrame throws. */
  lemma ReadPrefixExactly(s: seq<byte>, k: nat)
    requires ReadFrame(s).Got? && k <= |s|
    ensures ReadFrame(s[..k]) == if k < ReadFrame(s).size then Closed else ReadFrame(s)
  {
    var i := GroupEnd(s, 5);
    var n := GroupEnd(s, i);
    if k >= 5 {
      GroupEndPrefix(s, 5, k);
      if i <= k {
        GroupEndPrefix(s, i, k);
        if n <= k {
          LengthPrefix(s, i, n, k);
          var size := ReadFrame(s).size;
          if size <= k { SlicePrefix(s, k, n, size); }
        }
      }
    }
  }

  // ----- what PHP sends, C parses -----

  function CFrame(flags: byte, opcode: byte, payload: seq<byte>): Frame.Message
    requires |payload| < TWO_32
  {
    Frame.Parts(Frame.Header(Frame.VERSION_1, flags, opcode, 0, |payload|), payload)
  }

  /** sendFrame writes exactly the C header, on stream 0, and the payload. */
  lemma SendsCFrames(flags: byte, opcode: byte, payload: seq<byte>)
    requires |payload| < TWO_32
    ensures FrameBytes(flags, opcode, payload) == Frame.FrameBytes(CFrame(flags, opcode, payload))
  {
    assert Encode(0) == [0];
    var h := CFrame(flags, opcode, payload).header;
    assert Frame.Fixed(h) + [0] == [Frame.MAGIC_1, Frame.MAGIC_2, Frame.VERSION_1, flags, opcode, 0];
  }

  /** An encoded number is found as a group that denotes it, of any width. */
  lemma {:induction false} EncodedGroup(pre: seq<byte>, v: nat, rest: seq<byte>)
    ensures var s, n := pre + Encode(v) + rest, |pre| + |Encode(v)|;
            GroupEnd(s, |pre|) == n && Value(s, |pre|, n) == v
  {
    var s, n := pre + Encode(v) + rest, |Encode(v)|;
    EncodeIsGroup(v);
    assert forall k :: |pre| <= k < |pre| + n ==> s[k] == Encode(v)[k - |pre|];
    GroupEndIs(s, |pre|, |pre| + n);
    ValueSame(s, |pre|, Encode(v), 0, n);
  }

  /** The C receiver gets exactly the frame PHP sent, in front of whatever follows, if and
      only if the payload is shorter than 2^32; a longer one keeps it waiting for ever. */
  lemma CReceivesExactly(flags: byte, opcode: byte, payload: seq<byte>, rest: seq<byte>)
    ensures var s := FrameBytes(flags, opcode, payload);
            |payload| < TWO_32 <==> Frame.Take(s + rest).Took?
    ensures |payload| < TWO_32 ==>
              Frame.Take(FrameBytes(flags, opcode, payload) + rest)
              == Took(CFrame(flags, opcode, payload), |FrameBytes(flags, opcode, payload)|)
    ensures |payload| >= TWO_32 ==> Frame.Take(FrameBytes(flags, opcode, payload) + rest) == NotYet
  {
    if |payload| < TWO_32 {
      SendsCFrames(flags, opcode, payload);
      Frame.TakeRoundTrip(CFrame(flags, opcode, payload), rest);
    } else {
      var pre := [Frame.MAGIC_1, Frame.MAGIC_2, Frame.VERSION_1, flags, opcode];
      var len := Encode(|payload|);
      assert Encode(0) == [0];
      Varint.RoundTrip(pre, 0, len + payload + rest);
      EncodedGroup(pre + [0], |payload|, payload + rest);
      var s := FrameBytes(flags, opcode, payload) + rest;
      assert s == pre + [0] + (len + payload + rest);
      assert s == (pre + [0]) + len + (payload + rest);
    }
  }

  // ----- what C sends or accepts, PHP reads -----

  /** A group of at most five bytes below 2^32: what the C decoder takes. */
  predicate Narrow(s: seq<byte>, i: nat)
    requires i <= |s|
  {
    var n := GroupEnd(s, i);
    n > 0 && n - i <= MAX_BYTES && Value(s, i, n) < TWO_32
  }

  lemma NarrowLength(s: seq<byte>, i: nat)
    requires i <= |s| && Narrow(s, i)
    ensures PayloadLength(s, i, GroupEnd(s, i)) == Value(s, i, GroupEnd(s, i))
  {
    WrapSmall(Value(s, i, GroupEnd(s, i)));
  }

  /** Every frame the C side takes, PHP reads with the same opcode, payload and size. */
  lemma PhpReadsWhatCTakes(s: seq<byte>)
    requires Frame.Take(s).Took?
    ensures var f := Frame.Take(s).item;
            ReadFrame(s) == Got(f.header.opcode, f.payload, Frame.Take(s).size)
  {
    NarrowLength(s, GroupEnd(s, 5));
  }

  /** The exact agreement on any bytes: they refuse the same ones for their magic, and C
      takes the frames PHP reads if and only if both varints are narrow. */
  lemma AgreeExactly(s: seq<byte>)
    ensures Frame.Take(s).Broken? <==> ReadFrame(s) == WrongMagic
    ensures Frame.Take(s).Took? <==>
            ReadFrame(s).Got? && Narrow(s, 5) && Narrow(s, GroupEnd(s, 5))
  {
    if Frame.Take(s).Took? {
      PhpReadsWhatCTakes(s);
    }
    if ReadFrame(s).Got? && Narrow(s, 5) && Narrow(s, GroupEnd(s, 5)) {
      NarrowLength(s, GroupEnd(s, 5));
    }
  }

  /** A stream id of six bytes that denotes 0: PHP reads the frame and C never does. */
  lemma WideZeroDisagrees(version: byte, flags: byte, opcode: byte, rest: seq<byte>)
    ensures var s := [Frame.MAGIC_1, Frame.MAGIC_2, version, flags, opcode,
                      0x80, 0x80, 0x80, 0x80, 0x80, 0x00, 0x00];
            ReadFrame(s) == Got(opcode, [], 12) && Frame.Take(s + rest) == NotYet
  {
    var s := [Frame.MAGIC_1, Frame.MAGIC_2, version, flags, opcode,
              0x80, 0x80, 0x80, 0x80, 0x80, 0x00, 0x00];
    GroupEndIs(s, 5, 11);
    GroupEndIs(s, 11, 12);
    assert Value(s, 11, 11) == 0 && Value(s, 11, 12) == 0;
    GroupEndIs(s + rest, 5, 11);
  }

  /** PHP takes the payload length the sender wrote if and only if it is below 2^63; any
      longer one is read as another length. */
  lemma LengthKeptExactly(s: seq<byte>)
    requires ReadFrame(s).Got?
    ensures var i := GroupEnd(s, 5);
            |ReadFrame(s).payload| == Value(s, i, GroupEnd(s, i)) <==> Value(s, i, GroupEnd(s, i)) < TWO_63
  {
    var i := GroupEnd(s, 5);
    if Value(s, i, GroupEnd(s, i)) < TWO_63 {
      WrapSmall(Value(s, i, GroupEnd(s, i)));
    }
  }

  lemma {:induction false} ZeroDigits(s: seq<byte>, i: nat, n: nat)
    requires i <= n <= |s| && forall j :: i <= j < n ==> s[j] == 0x80
    ensures Value(s, i, n) == 0
  {
    if i < n {
      ZeroDigits(s, i, n - 1);
    }
  }

  /** A frame that announces 2^63 bytes of payload, read as one without any. */
  lemma HugeLengthReadAsEmpty()
    ensures var s: seq<byte> := [0x50, 0x57, 0x01, 0x00, 0x01, 0x00,
                                 0x80, 0x80, 0x80, 0x80, 0x80, 0x80, 0x80, 0x80, 0x80, 0x01];
            ReadFrame(s) == Got(1, [], 16) && GroupEnd(s, 5) == 6 && GroupEnd(s, 6) == 16 && Value(s, 6, 16) == TWO_63
  {
    var s: seq<byte> := [0x50, 0x57, 0x01, 0x00, 0x01, 0x00,
                         0x80, 0x80, 0x80, 0x80, 0x80, 0x80, 0x80, 0x80, 0x80, 0x01];
    GroupEndIs(s, 5, 6);
    GroupEndIs(s, 6, 16);
    ZeroDigits(s, 6, 15);
    Pow128Nine();
    WrapSmall(TWO_63);
  }

  /** What one PHP client sends another one reads, with the same opcode, the same payload
      and every byte of it, if and only if the payload is shorter than 2^63. */
  lemma PhpRoundTripExactly(flags: byte, opcode: byte, payload: seq<byte>, rest: seq<byte>)
    ensures ReadFrame(FrameBytes(flags, opcode, payload) + rest)
            == Got(opcode, payload, |FrameBytes(flags, opcode, payload)|)
            <==> |payload| < TWO_63
  {
    var pre := [Frame.MAGIC_1, Frame.MAGIC_2, Frame.VERSION_1, flags, opcode, 0];
    var len := Encode(|payload|);
    ThreeParts(pre, len, payload, rest);
    EncodedGroup(pre, |payload|, payload + rest);
    GroupEndIs(pre + len + (payload + rest), 5, 6);
    if |payload| < TWO_63 {
      WrapSmall(|payload|);
    }
  }

  lemma ThreeParts(a: seq<byte>, b: seq<byte>, c: seq<byte>, d: seq<byte>)
    ensures a + b + c + d == a + b + (c + d)
    ensures (a + b + (c + d))[|a| + |b|..|a| + |b| + |c|] == c
  {
  }
}
