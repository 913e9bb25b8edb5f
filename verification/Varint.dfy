/** The base-128 varint of pw_varint.c: little-endian groups of seven bits, the high
    bit of a byte saying that another byte follows, at most five bytes and 32 bits. */
module Varint {
  import opened Bits
  import opened Bytes

  datatype Decoded = Decoded(value: u32, size: nat)

  const MAX_BYTES := 5

  function Pow128(k: nat): (p: nat)
    ensures p > 0
  {
    if k == 0 then 1 else 0x80 * Pow128(k - 1)
  }

  function Encode(v: nat): (s: seq<byte>)
    ensures |s| > 0
  {
    if v < 0x80 then [v] else [v % 0x80 + 0x80] + Encode(v / 0x80)
  }

  /** The number the bytes s[i..n] denote, whatever their continuation bits say. */
  function Value(s: seq<byte>, i: nat, n: nat): nat
    requires i <= n <= |s|
  {
    if n == i then 0 else Value(s, i, n - 1) + Pow128(n - 1 - i) * (s[n - 1] % 0x80)
  }

  /** Position just after the first byte from i on without a continuation bit; 0 when there is none. */
  function GroupEnd(s: seq<byte>, i: nat): (n: nat)
    requires i <= |s|
    ensures n == 0 || i < n <= |s|
    decreases |s| - i
  {
    if i == |s| then 0
    else if s[i] < 0x80 then i + 1
    else GroupEnd(s, i + 1)
  }

  /** s[i..n] is a group: exactly its last byte has no continuation bit. */
  ghost predicate IsGroup(s: seq<byte>, i: nat, n: nat) {
    i < n <= |s| && s[n - 1] < 0x80 && forall j :: i <= j < n - 1 ==> s[j] >= 0x80
  }

  /** The reference decoder: the group that begins at i, of at most five bytes and below 2^32. */
  function Decode(s: seq<byte>, i: nat): (r: Option<Decoded>)
    requires i <= |s|
    ensures r.Some? ==> 0 < r.value.size <= |s| - i
  {
    var n := GroupEnd(s, i);
    if n == 0 || n - i > MAX_BYTES || Value(s, i, n) >= TWO_32 then None
    else Some(Decoded(Value(s, i, n), n - i))
  }

  // ----- groups, sizes and values -----

  lemma {:induction false} GroupEndIs(s: seq<byte>, i: nat, n: nat)
    requires i < n && i <= |s|
    ensures GroupEnd(s, i) == n <==> IsGroup(s, i, n)
    decreases |s| - i
  {
    if i < |s| && s[i] >= 0x80 && i + 1 < n {
      GroupEndIs(s, i + 1, n);
    }
  }

  /** A value depends on the bytes, not on where they stand. */
  lemma {:induction false} ValueSame(s: seq<byte>, i: nat, t: seq<byte>, j: nat, len: nat)
    requires i + len <= |s| && j + len <= |t|
    requires forall k :: i <= k < i + len ==> s[k] == t[k - i + j]
    ensures Value(s, i, i + len) == Value(t, j, j + len)
  {
    if len > 0 {
      assert s[i + len - 1] == t[j + len - 1];
      ValueSame(s, i, t, j, len - 1);
    }
  }

  lemma MulAssoc(p: nat, c: nat)
    ensures (0x80 * p) * c == 0x80 * (p * c)
  {
  }

  lemma MulDigit(p: nat, c: nat)
    requires c < 0x80
    ensures 0 <= p * c <= 0x7F * p
  {
  }

  lemma {:induction false} ValueCons(x: byte, t: seq<byte>, n: nat)
    requires n <= |t|
    ensures Value([x] + t, 0, n + 1) == x % 0x80 + 0x80 * Value(t, 0, n)
  {
    if n > 0 {
      ValueCons(x, t, n - 1);
      assert ([x] + t)[n] == t[n - 1];
      MulAssoc(Pow128(n - 1), t[n - 1] % 0x80);
    } else {
      assert Value([x] + t, 0, 0) == 0 && Pow128(0) == 1;
    }
  }

  lemma {:induction false} ValueBound(s: seq<byte>, i: nat, n: nat)
    requires i <= n <= |s|
    ensures Value(s, i, n) < Pow128(n - i)
  {
    if n > i {
      ValueBound(s, i, n - 1);
      MulDigit(Pow128(n - 1 - i), s[n - 1] % 0x80);
    }
  }

  lemma {:induction false} EncodeSize(v: nat, k: nat)
    requires 0 < k
    ensures |Encode(v)| <= k <==> v < Pow128(k)
  {
    if k == 1 {
      assert Pow128(1) == 0x80 * Pow128(0);
      if v >= 0x80 { assert |Encode(v / 0x80)| > 0; }
    } else if v < 0x80 {
      assert Pow128(k) >= 0x80;
    } else {
      EncodeSize(v / 0x80, k - 1);
      assert v / 0x80 < Pow128(k - 1) <==> v < 0x80 * Pow128(k - 1);
    }
  }

  lemma Pow128Values()
    ensures Pow128(1) == 0x80 && Pow128(2) == 0x4000 && Pow128(3) == 0x20_0000
    ensures Pow128(4) == 0x1000_0000 && Pow128(5) == 0x8_0000_0000
  {
    assert Pow128(1) == 0x80 * Pow128(0);
    assert Pow128(2) == 0x80 * Pow128(1);
    assert Pow128(3) == 0x80 * Pow128(2);
    assert Pow128(4) == 0x80 * Pow128(3);
    assert Pow128(5) == 0x80 * Pow128(4);
  }

  lemma U32EncodeSize(v: u32)
    ensures |Encode(v)| <= MAX_BYTES
  {
    Pow128Values();
    EncodeSize(v, MAX_BYTES);
  }

  // ----- main results -----

  lemma OneByte(v: byte)
    requires v < 0x80
    ensures Encode(v) == [v] && IsGroup([v], 0, 1) && Value([v], 0, 1) == v
  {
    assert Value([v], 0, 0) == 0 && Pow128(0) == 1;
  }

  lemma EncodeMore(v: nat)
    requires v >= 0x80
    ensures Encode(v) == [v % 0x80 + 0x80] + Encode(v / 0x80)
  {
  }

  /** An encoding is one terminated group that denotes its number. */
  lemma {:induction false} EncodeIsGroup(v: nat)
    ensures IsGroup(Encode(v), 0, |Encode(v)|) && Value(Encode(v), 0, |Encode(v)|) == v
  {
    if v >= 0x80 {
      EncodeIsGroup(v / 0x80);
      EncodeMore(v);
      GroupCons(v % 0x80 + 0x80, Encode(v / 0x80));
    } else {
      OneByte(v);
    }
  }

  lemma GroupCons(x: byte, t: seq<byte>)
    requires x >= 0x80 && IsGroup(t, 0, |t|)
    ensures IsGroup([x] + t, 0, |t| + 1)
    ensures Value([x] + t, 0, |t| + 1) == x % 0x80 + 0x80 * Value(t, 0, |t|)
  {
    ValueCons(x, t, |t|);
    forall j | 0 <= j < |t| ensures ([x] + t)[j] >= 0x80 {
      if j > 0 { assert ([x] + t)[j] == t[j - 1]; }
    }
  }

  /** A group decodes to its value whatever stands before and after it. */
  lemma DecodeGroup(pre: seq<byte>, g: seq<byte>, rest: seq<byte>)
    requires IsGroup(g, 0, |g|) && |g| <= MAX_BYTES && Value(g, 0, |g|) < TWO_32
    ensures Decode(pre + g + rest, |pre|) == Some(Decoded(Value(g, 0, |g|), |g|))
  {
    var s := pre + g + rest;
    assert forall k :: |pre| <= k < |pre| + |g| ==> s[k] == g[k - |pre|];
    GroupEndIs(s, |pre|, |pre| + |g|);
    ValueSame(s, |pre|, g, 0, |g|);
  }

  lemma RoundTrip(pre: seq<byte>, v: u32, rest: seq<byte>)
    ensures Decode(pre + Encode(v) + rest, |pre|) == Some(Decoded(v, |Encode(v)|))
  {
    EncodeIsGroup(v);
    U32EncodeSize(v);
    DecodeGroup(pre, Encode(v), rest);
  }

  /** Exact acceptance: decoding yields (v, n) if and only if the first terminator is
      byte n of at most five and the bytes up to it denote v, below 2^32. */
  lemma DecodeExact(s: seq<byte>, i: nat, v: u32, n: nat)
    requires i <= |s|
    ensures Decode(s, i) == Some(Decoded(v, n)) <==>
            IsGroup(s, i, i + n) && n <= MAX_BYTES && Value(s, i, i + n) == v
  {
    if n > 0 {
      GroupEndIs(s, i, i + n);
    }
  }

  /** Equal windows decode alike, wherever they stand. */
  lemma DecodeSame(s: seq<byte>, i: nat, t: seq<byte>, j: nat, len: nat)
    requires i + len <= |s| && j + len <= |t|
    requires forall k :: i <= k < i + len ==> s[k] == t[k - i + j]
    requires Decode(s, i).Some? && Decode(s, i).value.size <= len
    ensures Decode(t, j) == Decode(s, i)
  {
    var n := Decode(s, i).value.size;
    GroupEndIs(s, i, i + n);
    forall k | j <= k < j + n - 1 ensures t[k] >= 0x80 {
      assert s[k - j + i] == t[k];
    }
    assert s[i + n - 1] == t[j + n - 1];
    GroupEndIs(t, j, j + n);
    ValueSame(s, i, t, j, n);
  }

  lemma DecodeExtend(s: seq<byte>, i: nat, t: seq<byte>)
    requires i <= |s| && Decode(s, i).Some?
    ensures Decode(s + t, i) == Decode(s, i)
  {
    DecodeSame(s, i, s + t, i, |s| - i);
  }

  lemma DecodePrefix(s: seq<byte>, i: nat, k: nat)
    requires i <= k <= |s| && Decode(s, i).Some?
    ensures Decode(s[..k], i) == if k - i < Decode(s, i).value.size then None else Decode(s, i)
  {
    var n := Decode(s, i).value.size;
    if k - i >= n {
      DecodeSame(s, i, s[..k], i, k - i);
    } else if Decode(s[..k], i).Some? {
      DecodeSame(s[..k], i, s, i, k - i);
    }
  }

  /** A successful decode of n bytes fails on every shorter prefix and gives the same
      result on every extension of those n bytes. */
  lemma DecodeStable(s: seq<byte>, t: seq<byte>)
    requires Decode(s, 0).Some?
    ensures Decode(s[..Decode(s, 0).value.size] + t, 0) == Decode(s, 0)
    ensures forall k :: 0 <= k < Decode(s, 0).value.size ==> Decode(s[..k], 0) == None
  {
    var n := Decode(s, 0).value.size;
    DecodePrefix(s, 0, n);
    DecodeExtend(s[..n], 0, t);
    forall k | 0 <= k < n ensures Decode(s[..k], 0) == None {
      DecodePrefix(s, 0, k);
    }
  }

  /** encode(v) is the shortest group that denotes v, and the only one of its length;
      a group is an encoding exactly when it has no superfluous zero at its end. */
  lemma {:induction false} EncodeShortest(s: seq<byte>)
    requires IsGroup(s, 0, |s|)
    ensures |Encode(Value(s, 0, |s|))| <= |s|
    ensures |Encode(Value(s, 0, |s|))| == |s| <==> s == Encode(Value(s, 0, |s|))
    ensures s == Encode(Value(s, 0, |s|)) <==> |s| == 1 || s[|s| - 1] != 0
  {
    ShortestGroup(s);
  }

  /** v has no encoding longer than s, and one of that length only if s is it. */
  predicate Shortest(s: seq<byte>, v: nat) {
    && 0 < |Encode(v)| <= |s|
    && (|Encode(v)| == |s| <==> s == Encode(v))
    && (s == Encode(v) <==> |s| == 1 || s[|s| - 1] != 0)
  }

  lemma {:induction false} ShortestGroup(s: seq<byte>)
    requires IsGroup(s, 0, |s|)
    ensures Shortest(s, Value(s, 0, |s|))
  {
    if |s| == 1 {
      OneByte(s[0]);
      assert s == [s[0]];
    } else {
      var x, t := s[0], s[1..];
      assert s == [x] + t;
      assert forall j :: 0 <= j < |t| ==> t[j] == s[j + 1];
      ShortestGroup(t);
      GroupCons(x, t);
      ShortestCons(x, t, Value(t, 0, |t|));
    }
  }

  lemma ShortestCons(x: byte, t: seq<byte>, w: nat)
    requires x >= 0x80 && |t| > 0 && Shortest(t, w)
    ensures Shortest([x] + t, x % 0x80 + 0x80 * w)
  {
    var v := x % 0x80 + 0x80 * w;
    if w == 0 {
      assert Encode(v) == [v] && Encode(w) == [0];
    } else {
      assert v / 0x80 == w && v % 0x80 + 0x80 == x;
      EncodeMore(v);
      assert Encode(v)[1..] == Encode(w) && ([x] + t)[1..] == t;
      if |t| == 1 { assert t == Encode(w) == [w]; }
    }
  }

  lemma GroupSlice(s: seq<byte>, i: nat, n: nat)
    requires IsGroup(s, i, i + n)
    ensures var g := s[i..i + n];
            |g| == n && IsGroup(g, 0, n) && Value(g, 0, n) == Value(s, i, i + n) && g[n - 1] == s[i + n - 1]
  {
    var g := s[i..i + n];
    assert forall k :: 0 <= k < n ==> g[k] == s[k + i];
    ValueSame(s, i, g, 0, n);
  }

  /** The decoder's form of the same fact: re-encoding a decoded value never grows it. */
  lemma ReencodeNotLonger(s: seq<byte>, i: nat)
    requires i <= |s| && Decode(s, i).Some?
    ensures |Encode(Decode(s, i).value.value)| <= Decode(s, i).value.size
  {
    var n := Decode(s, i).value.size;
    GroupEndIs(s, i, i + n);
    GroupSlice(s, i, n);
    EncodeShortest(s[i..i + n]);
  }

  /** Re-encoding a decoded value gives its bytes, or as many, if and only if it was decoded
      from one byte or its last byte is not zero. */
  lemma ReencodeExactly(s: seq<byte>, i: nat)
    requires i <= |s| && Decode(s, i).Some?
    ensures var d := Decode(s, i).value;
            && (|Encode(d.value)| == d.size <==> d.size == 1 || s[i + d.size - 1] != 0)
            && (Encode(d.value) == s[i..i + d.size] <==> d.size == 1 || s[i + d.size - 1] != 0)
  {
    var n := Decode(s, i).value.size;
    GroupEndIs(s, i, i + n);
    GroupSlice(s, i, n);
    EncodeShortest(s[i..i + n]);
  }

  // ----- the loops of pw_varint.c -----

  method Encode32(value: u32, buffer: array<byte>, at: nat) returns (n: nat)
    requires at + |Encode(value)| <= buffer.Length
    modifies buffer
    ensures n == |Encode(value)|
    ensures buffer[..] == Splice(old(buffer[..]), at, Encode(value))
  {
    ghost var base := buffer[..];
    ghost var done: seq<byte> := [];
    var v := value;
    n := 0;
    while v >= 0x80
      invariant 0 <= v < TWO_32 && n == |done|
      invariant done + Encode(v) == Encode(value)
      invariant buffer[..] == Splice(base, at, done)
    {
      ghost var e := Encode(v);
      assert e == [v % 0x80 + 0x80] + Encode(v / 0x80);
      var b := Continued(v);
      n := Emit(buffer, at, n, [b], base, done);
      done := done + [v % 0x80 + 0x80];
      v := v / 0x80;
    }
    n := Emit(buffer, at, n, [v], base, done);
  }

  /** The value kept in a uint32_t. */
  function Wrap32(v: nat): (r: u32)
    ensures v < TWO_32 ==> r == v
  {
    v % TWO_32
  }

  lemma {:induction false} Pow2Sevens(k: nat)
    ensures Pow2(7 * k) == Pow128(k)
  {
    if k > 0 {
      Pow2Sevens(k - 1);
      var j := 7 * (k - 1);
      Times16(j);
      assert Pow2(j + 7) == 2 * Pow2(j + 6) == 4 * Pow2(j + 5) == 8 * Pow2(j + 4);
    }
  }

  /** `(uint32_t)x << shift` */
  function ShiftLeft32(x: byte, shift: nat): u32 { Wrap32(Pow2(shift) * x) }

  /** Group n is or-ed into bits that are still zero, so `|=` adds it, except for the bits
      of a fifth byte that the shift loses. */
  lemma OrAddsGroup(w: seq<byte>, n: nat)
    requires n < MAX_BYTES && n < |w|
    ensures Or(Wrap32(Value(w, 0, n)), ShiftLeft32(w[n] % 0x80, 7 * n)) == Wrap32(Value(w, 0, n + 1))
  {
    var v, d := Value(w, 0, n), w[n] % 0x80;
    assert Value(w, 0, n + 1) == v + Pow128(n) * d;
    Pow2Sevens(n);
    ValueBound(w, 0, n);
    Digits(n, v, d);
  }

  /** A digit on top of k groups shares no bit with them. */
  lemma OrDigit(k: nat, v: nat, d: nat)
    requires v < Pow128(k)
    ensures Or(v, Pow128(k) * d) == v + Pow128(k) * d
  {
    Pow2Sevens(k);
    OrAdds(7 * k, v, d);
  }

  lemma Digits(n: nat, v: nat, d: nat)
    requires n < MAX_BYTES && v < Pow128(n) && d < 0x80
    ensures Or(Wrap32(v), Wrap32(Pow128(n) * d)) == Wrap32(v + Pow128(n) * d)
  {
    Pow128Values();
    assert Pow128(0) == 1;
    if n == 4 {
      OrDigit(4, v, d % 0x10);
      FifthDigit(v, d);
    } else {
      OrDigit(n, v, d);
      MulDigit(Pow128(n), d);
      OrSmall32(v, Pow128(n) * d);
    }
  }

  lemma OrSmall32(v: nat, x: nat)
    requires v + x < TWO_32 && Or(v, x) == v + x
    ensures Or(Wrap32(v), Wrap32(x)) == Wrap32(v + x)
  {
  }

  lemma WrapsTo(q: nat, x: nat)
    requires x < TWO_32
    ensures Wrap32(TWO_32 * q + x) == x
  {
  }

  lemma FifthDigit(v: nat, d: nat)
    requires v < 0x1000_0000 && Or(v, 0x1000_0000 * (d % 0x10)) == v + 0x1000_0000 * (d % 0x10)
    ensures Or(Wrap32(v), Wrap32(0x1000_0000 * d)) == Wrap32(v + 0x1000_0000 * d)
  {
    var q, x := d / 0x10, 0x1000_0000 * (d % 0x10);
    assert 0x1000_0000 * d == TWO_32 * q + x;
    WrapsTo(q, x);
    WrapsTo(q, v + x);
    WrapsTo(0, v);
  }

  /** One turn of the decoding loop: `result |= (uint32_t)(b & 0x7F) << shift`. */
  method OrGroup(result: u32, b: byte, shift: nat, ghost w: seq<byte>, ghost n: nat) returns (r: u32)
    requires n < MAX_BYTES && n < |w| && b == w[n] && shift == 7 * n
    requires result == Wrap32(Value(w, 0, n))
    ensures r == Wrap32(Value(w, 0, n + 1))
  {
    OrAddsGroup(w, n);
    And7F(b);
    r := Or(result, ShiftLeft32(And(b, 0x7F), shift));
  }

  /** `(b & 0x80) == 0` */
  method IsLast(b: byte) returns (last: bool)
    ensures last == (b < 0x80)
  {
    And80(b);
    last := And(b, 0x80) == 0;
  }

  /** `(b & 0xF0) != 0` */
  method Overflows(b: byte) returns (over: bool)
    ensures over == (b >= 0x10)
  {
    AndF0(b);
    over := And(b, 0xF0) != 0;
  }

  /** `(v & 0x7F) | 0x80` */
  method Continued(v: nat) returns (b: byte)
    ensures b == v % 0x80 + 0x80
  {
    And7F(v);
    Or80(v % 0x80);
    b := Or(And(v, 0x7F), 0x80);
  }

  /** The decoding loop's verdict on a terminated group: only a fifth byte can be too big. */
  lemma GroupFits(w: seq<byte>, n: nat)
    requires IsGroup(w, 0, n) && n <= MAX_BYTES
    ensures Value(w, 0, n) < TWO_32 <==> !(n == MAX_BYTES && w[n - 1] >= 0x10)
    ensures Value(w, 0, n) < TWO_32 ==> Decode(w, 0) == Some(Decoded(Value(w, 0, n), n))
    ensures Value(w, 0, n) >= TWO_32 ==> Decode(w, 0) == None
  {
    GroupEndIs(w, 0, n);
    Pow128Values();
    ValueBound(w, 0, n);
    ValueBound(w, 0, n - 1);
  }

  lemma NoGroup(w: seq<byte>, n: nat)
    requires n <= |w| && n <= MAX_BYTES && (n == |w| || n == MAX_BYTES)
    requires forall i :: 0 <= i < n ==> w[i] >= 0x80
    ensures Decode(w, 0) == None
  {
    if GroupEnd(w, 0) > 0 {
      GroupEndIs(w, 0, GroupEnd(w, 0));
    }
  }

  /** 0 means "no value": either the group is unfinished or it is not a 32-bit varint. */
  method Decode32(buffer: array<byte>, at: nat, maxLen: nat) returns (n: nat, value: u32)
    requires at + maxLen <= buffer.Length
    ensures n > 0 <==> Decode(buffer[at..at + maxLen], 0).Some?
    ensures n > 0 ==> Decode(buffer[at..at + maxLen], 0) == Some(Decoded(value, n))
  {
    ghost var w := buffer[at..at + maxLen];
    var result: u32 := 0;
    var shift := 0;
    n := 0;
    value := 0;
    while n < maxLen && n < MAX_BYTES
      invariant n <= maxLen && n <= MAX_BYTES
      invariant shift == 7 * n
      invariant forall i :: 0 <= i < n ==> w[i] >= 0x80
      invariant result == Wrap32(Value(w, 0, n))
    {
      var b := buffer[at + n];
      assert b == w[n];
      result := OrGroup(result, b, shift, w, n);
      n := n + 1;
      var last := IsLast(b);
      if last {
        GroupFits(w, n);
        var over := Overflows(b);
        if n == MAX_BYTES && over {
          return 0, 0;
        }
        value := result;
        return;
      }
      shift := shift + 7;
    }
    NoGroup(w, n);
    n := 0;
  }
}
