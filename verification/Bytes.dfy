/** Bytes, fixed-width unsigned integers and the big-endian fields of the wire format.
    The reference functions are arithmetic; the methods use the programs' bit operators
    (module Bits), with `v >> 7` written as `v / 0x80` and `v << 8` as `0x100 * v`. */
module Bytes {
  import opened Bits

  type byte = b: int | 0 <= b < 0x100
  type u16 = v: int | 0 <= v < 0x1_0000
  type u32 = v: int | 0 <= v < 0x1_0000_0000
  type u64 = v: int | 0 <= v < 0x1_0000_0000_0000_0000

  const TWO_32 := 0x1_0000_0000
  const TWO_64 := 0x1_0000_0000_0000_0000

  /** The value kept in a uint64_t. */
  function Wrap64(v: nat): (r: u64)
    ensures v < TWO_64 ==> r == v
  {
    v % TWO_64
  }

  datatype Option<+T> = None | Some(value: T)

  function Min(a: nat, b: nat): nat { if a < b then a else b }

  /** The buffer `s` after `data` has been written over it at offset `at`. */
  function Splice(s: seq<byte>, at: nat, data: seq<byte>): (r: seq<byte>)
    requires at + |data| <= |s|
    ensures |r| == |s|
  {
    s[..at] + data + s[at + |data|..]
  }

  /** Two adjacent writes are one write of the concatenation. */
  lemma SpliceTwice(s: seq<byte>, at: nat, a: seq<byte>, b: seq<byte>)
    requires at + |a| + |b| <= |s|
    ensures Splice(Splice(s, at, a), at + |a|, b) == Splice(s, at, a + b)
  {
  }

  function Concat(parts: seq<seq<byte>>): seq<byte> {
    if parts == [] then [] else parts[0] + Concat(parts[1..])
  }

  lemma ConcatCons(a: seq<byte>, parts: seq<seq<byte>>)
    ensures Concat([a] + parts) == a + Concat(parts)
  {
    assert ([a] + parts)[1..] == parts;
  }

  /** Cutting a concatenation behind its first part. */
  lemma CutBehind(a: seq<byte>, b: seq<byte>, k: nat)
    requires |a| <= k <= |a| + |b|
    ensures (a + b)[..k] == a + b[..k - |a|]
    ensures (a + b)[..k][|a|..] == b[..k - |a|]
  {
  }

  lemma SliceExtend(s: seq<byte>, t: seq<byte>, i: nat, j: nat)
    requires i <= j <= |s|
    ensures (s + t)[i..j] == s[i..j]
  {
  }

  lemma DropExtend(s: seq<byte>, t: seq<byte>, n: nat)
    requires n <= |s|
    ensures (s + t)[n..] == s[n..] + t
  {
  }

  lemma DropWhole(s: seq<byte>, t: seq<byte>)
    ensures (s + t)[|s|..] == t
  {
  }

  lemma TakeExtend(s: seq<byte>, t: seq<byte>, n: nat)
    requires n <= |s|
    ensures (s + t)[..n] == s[..n]
  {
  }

  lemma Assoc(a: seq<byte>, b: seq<byte>, c: seq<byte>)
    ensures a + (b + c) == (a + b) + c
  {
  }

  lemma Split(s: seq<byte>, n: nat)
    requires n <= |s|
    ensures s == s[..n] + s[n..]
  {
  }

  lemma NilLeft(s: seq<byte>)
    ensures [] + s == s && s + [] == s
  {
  }

  lemma SlicePrefix(s: seq<byte>, n: nat, i: nat, j: nat)
    requires i <= j <= n <= |s|
    ensures s[..n][i..j] == s[i..j]
  {
  }

  /** A slice of a window is a slice of the buffer. */
  lemma SubSlice(s: seq<byte>, at: nat, len: nat, i: nat, j: nat)
    requires i <= j <= len && at + len <= |s|
    ensures s[at..at + len][i..j] == s[at + i..at + j]
  {
    var w := s[at..at + len];
    forall k | 0 <= k < j - i ensures w[i..j][k] == s[at + i..at + j][k] {
      assert w[i..j][k] == w[i + k] == s[at + (i + k)];
    }
  }

  // ----- big-endian fields -----

  function U16Bytes(v: u16): (s: seq<byte>)
    ensures |s| == 2
  {
    [v / 0x100, v % 0x100]
  }

  function U16Of(s: seq<byte>): u16
    requires |s| == 2
  {
    s[0] as int * 0x100 + s[1]
  }

  function U32Bytes(v: u32): (s: seq<byte>)
    ensures |s| == 4
  {
    U16Bytes(v / 0x1_0000) + U16Bytes(v % 0x1_0000)
  }

  function U32Of(s: seq<byte>): u32
    requires |s| == 4
  {
    U16Of(s[..2]) as int * 0x1_0000 + U16Of(s[2..])
  }

  /** The two directions are inverse to each other, so both are bijections. */
  lemma U16Inverse(v: u16, s: seq<byte>)
    requires |s| == 2
    ensures U16Of(U16Bytes(v)) == v
    ensures U16Bytes(U16Of(s)) == s
  {
  }

  lemma U32Inverse(v: u32, s: seq<byte>)
    requires |s| == 4
    ensures U32Of(U32Bytes(v)) == v
    ensures U32Bytes(U32Of(s)) == s
  {
    var hi, lo := v / 0x1_0000, v % 0x1_0000;
    assert U32Bytes(v)[..2] == U16Bytes(hi) && U32Bytes(v)[2..] == U16Bytes(lo);
    U16Inverse(hi, s[..2]);
    U16Inverse(lo, s[2..]);
    var w := U32Of(s);
    assert w / 0x1_0000 == U16Of(s[..2]) && w % 0x1_0000 == U16Of(s[2..]);
    assert s == s[..2] + s[2..];
  }

  lemma ShiftTwice(v: u32)
    ensures v / 0x1_0000 / 0x100 == v / 0x100_0000
  {
  }

  lemma MaskThenShift(v: u32)
    ensures v % 0x1_0000 / 0x100 == v / 0x100 % 0x100
    ensures v % 0x1_0000 % 0x100 == v % 0x100
  {
    var q, r := v / 0x1_0000, v % 0x1_0000;
    assert v == 0x1_0000 * q + r;
    assert v / 0x100 == 0x100 * q + r / 0x100;
  }

  /** The four shifted and masked bytes that the C writers store. */
  lemma U32Shifts(v: u32)
    ensures U32Bytes(v) == [v / 0x100_0000, v / 0x1_0000 % 0x100, v / 0x100 % 0x100, v % 0x100]
  {
    ShiftTwice(v);
    MaskThenShift(v);
  }

  // ----- writes into a buffer -----

  /** memcpy into `buffer + at`. */
  method CopyInto(buffer: array<byte>, at: nat, data: seq<byte>)
    requires at + |data| <= buffer.Length
    modifies buffer
    ensures buffer[..] == Splice(old(buffer[..]), at, data)
  {
    forall i | 0 <= i < |data| {
      buffer[at + i] := data[i];
    }
  }

  /** A serializer that has written `done` at `start` goes on with `data`: the step
      `memcpy(buffer + offset, ...); offset += n`. `base` is the buffer it began with. */
  method Emit(buffer: array<byte>, start: nat, offset: nat, data: seq<byte>,
              ghost base: seq<byte>, ghost done: seq<byte>) returns (next: nat)
    requires offset == |done| && start + offset + |data| <= buffer.Length == |base|
    requires buffer[..] == Splice(base, start, done)
    modifies buffer
    ensures next == offset + |data| && buffer[..] == Splice(base, start, done + data)
  {
    CopyInto(buffer, start + offset, data);
    SpliceTwice(base, start, done, data);
    next := offset + |data|;
  }

  /** `v & 0xFF` */
  method LowByte(v: nat) returns (b: byte)
    ensures b == v % 0x100
  {
    AndFF(v);
    b := And(v, 0xFF);
  }

  method EmitU16(buffer: array<byte>, start: nat, offset: nat, v: u16,
                 ghost base: seq<byte>, ghost done: seq<byte>) returns (next: nat)
    requires offset == |done| && start + offset + 2 <= buffer.Length == |base|
    requires buffer[..] == Splice(base, start, done)
    modifies buffer
    ensures next == offset + 2 && buffer[..] == Splice(base, start, done + U16Bytes(v))
  {
    var b1 := LowByte(v / 0x100);
    var b0 := LowByte(v);
    next := Emit(buffer, start, offset, [b1, b0], base, done);
  }

  /** The four bytes that write_u32_be stores. */
  method ShiftedBytes(v: u32) returns (s: seq<byte>)
    ensures s == U32Bytes(v)
  {
    U32Shifts(v);
    var b3 := LowByte(v / 0x100_0000);
    var b2 := LowByte(v / 0x1_0000);
    var b1 := LowByte(v / 0x100);
    var b0 := LowByte(v);
    assert b3 == v / 0x100_0000;
    s := [b3, b2, b1, b0];
  }

  method EmitU32(buffer: array<byte>, start: nat, offset: nat, v: u32,
                 ghost base: seq<byte>, ghost done: seq<byte>) returns (next: nat)
    requires offset == |done| && start + offset + 4 <= buffer.Length == |base|
    requires buffer[..] == Splice(base, start, done)
    modifies buffer
    ensures next == offset + 4 && buffer[..] == Splice(base, start, done + U32Bytes(v))
  {
    var bytes := ShiftedBytes(v);
    next := Emit(buffer, start, offset, bytes, base, done);
  }

  method ReadU16(buffer: array<byte>, at: nat) returns (v: u16)
    requires at + 2 <= buffer.Length
    ensures v == U16Of(buffer[at..at + 2])
  {
    OrTwo(buffer[at], buffer[at + 1]);
    v := Or(0x100 * buffer[at] as int, buffer[at + 1]);
  }

  method ReadU32(buffer: array<byte>, at: nat) returns (v: u32)
    requires at + 4 <= buffer.Length
    ensures v == U32Of(buffer[at..at + 4])
  {
    OrBytes(buffer[at], buffer[at + 1], buffer[at + 2], buffer[at + 3]);
    v := Or(Or(Or(0x100_0000 * buffer[at] as int, 0x1_0000 * buffer[at + 1] as int), 0x100 * buffer[at + 2] as int), buffer[at + 3]);
    ghost var s := buffer[at..at + 4];
    assert s[..2][0] == s[0] && s[..2][1] == s[1] && s[2..][0] == s[2] && s[2..][1] == s[3];
  }
}
