/** The bit operators of the programs on unsigned values, and the arithmetic they amount to. */
module Bits {

  function Pow2(k: nat): (p: nat)
    ensures p > 0
  {
    if k == 0 then 1 else 2 * Pow2(k - 1)
  }

  function Bit(b: bool): nat { if b then 1 else 0 }

  /** `a | b` */
  function Or(a: nat, b: nat): nat {
    if a == 0 && b == 0 then 0 else 2 * Or(a / 2, b / 2) + Bit(a % 2 == 1 || b % 2 == 1)
  }

  /** `a & b` */
  function And(a: nat, b: nat): nat {
    if a == 0 && b == 0 then 0 else 2 * And(a / 2, b / 2) + Bit(a % 2 == 1 && b % 2 == 1)
  }

  lemma {:induction false} OrZero(a: nat)
    ensures Or(0, a) == a && Or(a, 0) == a
  {
    if a > 0 {
      OrZero(a / 2);
    }
  }

  lemma {:induction false} AndZero(a: nat)
    ensures And(0, a) == 0 && And(a, 0) == 0
  {
    if a > 0 {
      AndZero(a / 2);
    }
  }

  lemma OrStep(a: nat, b: nat)
    ensures Or(a, b) == 2 * Or(a / 2, b / 2) + Bit(a % 2 == 1 || b % 2 == 1)
  {
  }

  lemma AndStep(a: nat, b: nat)
    ensures And(a, b) == 2 * And(a / 2, b / 2) + Bit(a % 2 == 1 && b % 2 == 1)
  {
  }

  /** The low k bits of `low` below `high`: `(high << k) | low`. */
  function Join(k: nat, high: nat, low: nat): nat {
    if k == 0 then high else 2 * Join(k - 1, high, low / 2) + low % 2
  }

  lemma Double(p: nat, x: nat, y: nat)
    ensures 2 * (p * x + y) == 2 * p * x + 2 * y
  {
  }

  lemma {:induction false} JoinAdds(k: nat, high: nat, low: nat)
    requires low < Pow2(k)
    ensures Join(k, high, low) == Pow2(k) * high + low
  {
    if k > 0 {
      JoinAdds(k - 1, high, low / 2);
      Double(Pow2(k - 1), high, low / 2);
    }
  }

  /** The bits below bit k and those from there on are or-ed apart. */
  lemma {:induction false} OrSplit(k: nat, ah: nat, al: nat, bh: nat, bl: nat)
    ensures Or(Join(k, ah, al), Join(k, bh, bl)) == Join(k, Or(ah, bh), Or(al, bl))
  {
    if k > 0 {
      OrSplit(k - 1, ah, al / 2, bh, bl / 2);
      OrStep(Join(k, ah, al), Join(k, bh, bl));
      OrStep(al, bl);
    }
  }

  lemma {:induction false} AndSplit(k: nat, ah: nat, al: nat, bh: nat, bl: nat)
    ensures And(Join(k, ah, al), Join(k, bh, bl)) == Join(k, And(ah, bh), And(al, bl))
  {
    if k > 0 {
      AndSplit(k - 1, ah, al / 2, bh, bl / 2);
      AndStep(Join(k, ah, al), Join(k, bh, bl));
      AndStep(al, bl);
    }
  }

  /** Or-ing values without a common bit adds them: one lies below bit k, the other has
      nothing there. */
  lemma OrAdds(k: nat, low: nat, high: nat)
    requires low < Pow2(k)
    ensures Or(low, Pow2(k) * high) == low + Pow2(k) * high
    ensures Or(Pow2(k) * high, low) == low + Pow2(k) * high
  {
    OrSplit(k, 0, low, high, 0);
    OrSplit(k, high, 0, 0, low);
    OrZero(low);
    OrZero(high);
    JoinAdds(k, 0, low);
    JoinAdds(k, high, 0);
    JoinAdds(k, high, low);
  }

  lemma {:induction false} AndOnes(v: nat, k: nat)
    requires v < Pow2(k)
    ensures And(v, Pow2(k) - 1) == v
  {
    if k > 0 {
      var p := Pow2(k - 1);
      AndOnes(v / 2, k - 1);
      AndStep(v, 2 * p - 1);
      assert (2 * p - 1) / 2 == p - 1 && (2 * p - 1) % 2 == 1;
    }
  }

  /** A mask of k ones keeps the low k bits. */
  lemma AndLow(k: nat, high: nat, low: nat)
    requires low < Pow2(k)
    ensures And(Pow2(k) * high + low, Pow2(k) - 1) == low
  {
    JoinAdds(k, high, low);
    JoinAdds(k, 0, Pow2(k) - 1);
    AndSplit(k, high, low, 0, Pow2(k) - 1);
    AndZero(high);
    AndOnes(low, k);
    JoinAdds(k, 0, low);
  }

  /** A mask without low bits. */
  lemma AndHigh(k: nat, high: nat, low: nat, mask: nat)
    requires low < Pow2(k)
    ensures And(Pow2(k) * high + low, Pow2(k) * mask) == Pow2(k) * And(high, mask)
  {
    JoinAdds(k, high, low);
    JoinAdds(k, mask, 0);
    AndSplit(k, high, low, mask, 0);
    AndZero(low);
    JoinAdds(k, And(high, mask), 0);
  }

  /** A mask with all low bits. */
  lemma AndAllLow(k: nat, high: nat, low: nat, mask: nat)
    requires low < Pow2(k)
    ensures And(Pow2(k) * high + low, Pow2(k) * mask + (Pow2(k) - 1)) == Pow2(k) * And(high, mask) + low
  {
    JoinAdds(k, high, low);
    JoinAdds(k, mask, Pow2(k) - 1);
    AndSplit(k, high, low, mask, Pow2(k) - 1);
    AndOnes(low, k);
    JoinAdds(k, And(high, mask), low);
  }

  /** Or-ing in high bits only. */
  lemma OrHigh(k: nat, high: nat, low: nat, more: nat)
    requires low < Pow2(k)
    ensures Or(Pow2(k) * high + low, Pow2(k) * more) == Pow2(k) * Or(high, more) + low
  {
    JoinAdds(k, high, low);
    JoinAdds(k, more, 0);
    OrSplit(k, high, low, more, 0);
    OrZero(low);
    JoinAdds(k, Or(high, more), low);
  }

  lemma Powers()
    ensures Pow2(4) == 0x10 && Pow2(7) == 0x80 && Pow2(8) == 0x100
    ensures Pow2(16) == 0x1_0000 && Pow2(24) == 0x100_0000 && Pow2(27) == 0x800_0000
  {
    Times16(0);
    assert Pow2(7) == 8 * Pow2(4);
    Times16(4);
    Times16(8);
    Times16(12);
    Times16(16);
    Times16(20);
    assert Pow2(27) == 8 * Pow2(24);
  }

  lemma Times16(k: nat)
    ensures Pow2(k + 4) == 0x10 * Pow2(k)
  {
    assert Pow2(k + 2) == 4 * Pow2(k) && Pow2(k + 4) == 4 * Pow2(k + 2);
  }

  // ----- the masks of the programs -----

  /** `(a << 8) | b` of two bytes */
  lemma OrTwo(a: nat, b: nat)
    requires b < 0x100
    ensures Or(0x100 * a, b) == 0x100 * a + b
  {
    Powers();
    OrAdds(8, b, a);
  }

  /** `(a << 24) | (b << 16) | (c << 8) | d` of four */
  lemma OrBytes(a: nat, b: nat, c: nat, d: nat)
    requires a < 0x100 && b < 0x100 && c < 0x100 && d < 0x100
    ensures Or(Or(Or(0x100_0000 * a, 0x1_0000 * b), 0x100 * c), d) == 0x100_0000 * a + 0x1_0000 * b + 0x100 * c + d
  {
    Powers();
    OrAdds(24, 0x1_0000 * b, a);
    OrAdds(16, 0x100 * c, 0x100 * a + b);
    OrTwo(0x1_0000 * a + 0x100 * b + c, d);
  }

  /** `v & 0x7F` */
  lemma And7F(v: nat)
    ensures And(v, 0x7F) == v % 0x80
  {
    Powers();
    AndLow(7, v / 0x80, v % 0x80);
  }

  /** `v & 0xFF` */
  lemma AndFF(v: nat)
    ensures And(v, 0xFF) == v % 0x100
  {
    Powers();
    AndLow(8, v / 0x100, v % 0x100);
  }

  /** `v | 0x80` of seven bits */
  lemma Or80(v: nat)
    requires v < 0x80
    ensures Or(v, 0x80) == v + 0x80
  {
    Powers();
    OrAdds(7, v, 1);
  }

  /** `(b & 0x80) == 0` of a byte */
  lemma And80(b: nat)
    requires b < 0x100
    ensures And(b, 0x80) == 0 <==> b < 0x80
  {
    Powers();
    AndHigh(7, b / 0x80, b % 0x80, 1);
    AndStep(b / 0x80, 1);
    AndZero(0);
  }

  /** `(b & 0xF0) != 0` of a byte */
  lemma AndF0(b: nat)
    requires b < 0x100
    ensures And(b, 0xF0) == 0 <==> b < 0x10
  {
    Powers();
    AndHigh(4, b / 0x10, b % 0x10, 0xF);
    AndOnes(b / 0x10, 4);
  }

  lemma SetLowest(h: nat)
    ensures Or(h, 1) == h - h % 2 + 1
  {
    OrStep(h, 1);
    OrZero(h / 2);
  }

  lemma ClearLowest(h: nat)
    requires h < 0x1000_0000
    ensures And(h, 0xFFF_FFFE) == h - h % 2
  {
    Powers();
    AndStep(h, 0xFFF_FFFE);
    AndOnes(h / 2, 27);
  }

  lemma FifthBit(v: nat)
    ensures v == 0x10 * (v / 0x10) + v % 0x10
    ensures v % 0x20 >= 0x10 <==> v / 0x10 % 2 == 1
  {
  }

  /** `v |= 0x10` and `v &= ~0x10` of 32 bits: only that bit changes. */
  lemma Bit10Only(v: nat)
    requires v < 0x1_0000_0000
    ensures Or(v, 0x10) == if v % 0x20 >= 0x10 then v else v + 0x10
    ensures And(v, 0xFFFF_FFEF) == if v % 0x20 >= 0x10 then v - 0x10 else v
  {
    var h, l := v / 0x10, v % 0x10;
    FifthBit(v);
    SetLowest(h);
    ClearLowest(h);
    SetHigh(h, l);
    ClearHigh(h, l);
  }

  lemma SetHigh(h: nat, l: nat)
    requires l < 0x10
    ensures Or(0x10 * h + l, 0x10) == 0x10 * Or(h, 1) + l
  {
    Powers();
    OrHigh(4, h, l, 1);
  }

  lemma ClearHigh(h: nat, l: nat)
    requires l < 0x10
    ensures And(0x10 * h + l, 0xFFFF_FFEF) == 0x10 * And(h, 0xFFF_FFFE) + l
  {
    Powers();
    AndAllLow(4, h, l, 0xFFF_FFFE);
  }
}
