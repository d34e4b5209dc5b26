/** The leading- and trailing-zero counts of abstract-machine/klib/src/int64.c:
    branch-free binary searches on a 32-bit word, and their 64-bit versions. */
module Int64Counts {
  import opened Powers
  import opened Bits
  import opened Int64

  const ONES: nat := 0xFFFF_FFFF

  lemma SmallPowersOfTwo()
    ensures Pow2(1) == 2 && Pow2(2) == 4 && Pow2(4) == 0x10 && Pow2(8) == 0x100
    ensures Pow2(16) == 0x1_0000 && Pow2(32) == 0x1_0000_0000
  {
    Pow2Zero();
    assert Pow2(2) == 2 * Pow2(1);
    Pow2Add(2, 2);
    Pow2Add(4, 4);
    Pow2Add(8, 8);
    Pow2Add(16, 16);
  }

  // ----- leading zeros

  lemma {:induction false} LenShift(x: nat, h: nat)
    requires x >= Pow2(h)
    ensures Len(x) == h + Len(x / Pow2(h))
  {
    if h == 0 {
      Pow2Zero();
      assert x / 1 == x;
    } else {
      HalfThenQuotient(x, h - 1);
      DivMod(x, 2);
      LenShift(x / 2, h - 1);
    }
  }

  lemma QuotientByOne(x: nat)
    ensures Quotient(x, Pow2(0)) == x
  {
    Pow2Zero();
    assert x / 1 == x;
  }

  /** One halving step of the search: the upper h of the 2h remaining bits are
      looked at through the mask, and the lower ones dropped if they are not zero. */
  lemma ClzStep(x: nat, h: nat, mask: nat)
    requires 1 <= h <= 16 && x < Pow2(2 * h) && mask == Shl(Pow2(h) - 1, h)
    ensures var t := if And(x, mask) == 0 then h else 0;
            var x' := ShiftRight(x, h - t, 32);
            x' < Pow2(h) && Len(x) == Len(x') + h - t
  {
    hide Pow2, And, Len;
    QuotientByOne(x);
    assert h + h == 2 * h;
    Pow2Add(h, h);
    AndHighMask(x, Pow2(h) - 1, h);
    QuotientBelow(x, Pow2(h), Pow2(h));
    AndOnes(x / Pow2(h), h);
    if x >= Pow2(h) { LenShift(x, h); }
    ZeroTest(x, Pow2(h));
  }

  lemma ZeroTest(x: nat, m: nat)
    requires m > 0
    ensures (x / m) * m == 0 <==> x < m
  {
    DivMod(x, m);
    if x < m {
      DivModUnique(x, m, 0, x);
    } else if x / m > 0 {
      MulMonotone(1, x / m, m);
    }
  }

  /** The last two bits, without a branch. */
  lemma ClzLast(x: nat)
    requires x < 4
    ensures And(Sub(2, x, 32), if And(x, 2) == 0 then ONES else 0) == Clz(x, 2)
  {
    SmallPowersOfTwo();
    hide Pow2;
    if x == 0 { AndOnes(2, 32); }
    else if x == 1 { AndOnes(1, 32); }
    else {
      AndHalves(x, 2);
      AndHalves(x / 2, 1);
    }
  }

  /** __clzsi2, for a nonzero word */
  method Clzsi2(a: nat) returns (count: nat)
    requires 0 < a < Pow2(32)
    ensures count == Clz(a, 32) <= 31
    ensures Pow2(31 - count) <= a < Pow2(32 - count)
  {
    SmallPowersOfTwo();
    hide Pow2, And, Len;
    LenBounds(a);
    LenAtMost(a, 32);
    hide ShiftRight, Clz;
    var x := a;
    var t := if And(x, 0xFFFF_0000) == 0 then 16 else 0;
    ClzStep(x, 16, 0xFFFF_0000);
    x := ShiftRight(x, 16 - t, 32);
    var r := t;
    t := if And(x, 0xFF00) == 0 then 8 else 0;
    ClzStep(x, 8, 0xFF00);
    x := ShiftRight(x, 8 - t, 32);
    r := r + t;
    t := if And(x, 0xF0) == 0 then 4 else 0;
    ClzStep(x, 4, 0xF0);
    x := ShiftRight(x, 4 - t, 32);
    r := r + t;
    t := if And(x, 0xC) == 0 then 2 else 0;
    ClzStep(x, 2, 0xC);
    x := ShiftRight(x, 2 - t, 32);
    r := r + t;
    ClzLast(x);
    ClzMeaning(a, x, r);
    count := r + And(Sub(2, x, 32), if And(x, 2) == 0 then ONES else 0);
  }

  lemma ClzMeaning(a: nat, x: nat, r: nat)
    requires Len(a) == Len(x) + 30 - r && a > 0
    ensures r + Clz(x, 2) == Clz(a, 32)
  {
  }

  // ----- trailing zeros

  lemma {:induction false} CtzShift(x: nat, h: nat)
    requires x > 0
    ensures x % Pow2(h) == 0 ==> x / Pow2(h) > 0 && Ctz(x) == h + Ctz(x / Pow2(h))
    ensures x % Pow2(h) != 0 ==> Ctz(x) < h
  {
    if h == 0 {
      Pow2Zero();
      assert x / 1 == x;
    } else {
      HalfThenQuotient(x, h - 1);
      DivMod(x, 2);
      if x % 2 == 0 { CtzShift(x / 2, h - 1); }
    }
  }

  /** One halving step: h trailing bits are dropped when they are all zero. */
  lemma CtzStep(x: nat, h: nat, mask: nat)
    requires x > 0 && 1 <= h <= 16 && Ctz(x) < 2 * h && mask == Pow2(h) - 1
    ensures var t := if And(x, mask) == 0 then h else 0;
            var x' := ShiftRight(x, t, 32);
            x' > 0 && Ctz(x) == t + Ctz(x') && Ctz(x') < h
  {
    QuotientByOne(x);
    AndLowMask(x, h);
    CtzShift(x, h);
  }

  lemma CtzLast(x: nat)
    requires x > 0 && Ctz(x) < 2
    ensures var y := And(x, 3);
            And(Sub(2, ShiftRight(y, 1, 32), 32), if And(y, 1) == 0 then ONES else 0) == Ctz(x)
  {
    hide Pow2, And, Ctz, ShiftRight, Sub;
    SmallPowersOfTwo();
    AndLowMask(x, 2);
    var y := And(x, 3);
    AndLowMask(y, 1);
    LastTwoBits(x, y);
    HalfShift(y);
    SmallSub(y / 2);
    AndOnes(2 - y / 2, 32);
    AndZero(2 - y / 2);
  }

  lemma LastTwoBits(x: nat, y: nat)
    requires x > 0 && Ctz(x) < 2 && y == x % 4
    ensures 0 < y < 4 && y / 2 <= 1 && Ctz(x) == if y % 2 == 0 then 2 - y / 2 else 0
  {
    DivMod(x, 4);
    EvenPlus(2 * (x / 4), y);
    EvenPlus(x / 4, y / 2);
    if x % 2 == 0 { OddHalf(x); }
  }

  lemma OddHalf(x: nat)
    requires x > 0 && x % 2 == 0 && Ctz(x) < 2
    ensures Ctz(x) == 1 && (x / 2) % 2 == 1
  {
  }

  lemma HalfShift(y: nat)
    ensures ShiftRight(y, 1, 32) == y / 2
  {
    assert Pow2(1) == 2;
  }

  lemma SmallSub(t: nat)
    requires t <= 1
    ensures Sub(2, t, 32) == 2 - t
  {
    SmallPowersOfTwo();
    hide Pow2;
  }

  /** __ctzsi2, for a nonzero word */
  method Ctzsi2(a: nat) returns (count: nat)
    requires 0 < a < Pow2(32)
    ensures count == Ctz(a) <= 31
  {
    SmallPowersOfTwo();
    CtzBelow(a, 32);
    hide Pow2, And, Ctz, ShiftRight, Sub;
    var x := a;
    var t := if And(x, 0x0000_FFFF) == 0 then 16 else 0;
    CtzStep(x, 16, 0x0000_FFFF);
    x := ShiftRight(x, t, 32);
    var r := t;
    t := if And(x, 0x00FF) == 0 then 8 else 0;
    CtzStep(x, 8, 0x00FF);
    x := ShiftRight(x, t, 32);
    r := r + t;
    t := if And(x, 0x0F) == 0 then 4 else 0;
    CtzStep(x, 4, 0x0F);
    x := ShiftRight(x, t, 32);
    r := r + t;
    t := if And(x, 0x3) == 0 then 2 else 0;
    CtzStep(x, 2, 0x3);
    x := ShiftRight(x, t, 32);
    r := r + t;
    assert Ctz(a) == r + Ctz(x) && Ctz(x) < 2;
    CtzLast(x);
    x := And(x, 3);
    var last := And(Sub(2, ShiftRight(x, 1, 32), 32), if And(x, 1) == 0 then ONES else 0);
    count := r + last;
  }

  lemma CtzBelow(x: nat, w: nat)
    requires 0 < x < Pow2(w)
    ensures Ctz(x) < w
  {
    CtzShift(x, w);
    DivModUnique(x, Pow2(w), 0, x);
  }

  // ----- 64-bit words

  /** The half that a 64-bit count looks at, selected by a mask. */
  lemma SelectHalf(x: nat, y: nat)
    requires x < Pow2(32) && y < Pow2(32)
    ensures Or(And(x, ONES), And(y, 0)) == x && Or(And(x, 0), And(y, ONES)) == y
  {
    SmallPowersOfTwo();
    AndOnes(x, 32);
    AndOnes(y, 32);
    AndZero(x);
    AndZero(y);
  }

  /** __clzdi2 */
  method Clzdi2(a: nat) returns (count: nat)
    requires 0 < a < Pow2(64)
    ensures count == Clz(a, 64)
  {
    SplitAll(a, 32);
    HalvesZero(Split(a, 32), 32);
    SmallPowersOfTwo();
    MaskBits();
    var x := Split(a, 32);
    LenOfHalves(x, 32);
    hide Pow2, And, Or, Len, All, Split;
    var f := if x.high == 0 then ONES else 0;
    SelectHalf(x.high, x.low);
    var c := Clzsi2(Or(And(x.high, ONES - f), And(x.low, f)));
    count := c + And(f, 32);
  }

  lemma LenOfHalves(x: Dword, w: nat)
    requires IsDword(x, w)
    ensures Len(All(x, w)) == if x.high > 0 then w + Len(x.high) else Len(x.low)
  {
    if x.high > 0 {
      DwordLength(x, w);
      LenUnique(All(x, w), w + Len(x.high));
    } else {
      assert 0 * Pow2(w) == 0;
    }
  }

  lemma MaskBits()
    ensures And(ONES, 32) == 32 && And(0, 32) == 0
  {
    SmallPowersOfTwo();
    AndOnes(32, 32);
    AndCommutes(ONES, 32);
    AndZero(32);
  }

  /** __ctzdi2 */
  method Ctzdi2(a: nat) returns (count: nat)
    requires 0 < a < Pow2(64)
    ensures count == Ctz(a)
  {
    hide Pow2, And, Or, Ctz, All, Split;
    SplitAll(a, 32);
    SmallPowersOfTwo();
    MaskBits();
    var x := Split(a, 32);
    CtzOfHalves(x, 32);
    var f := if x.low == 0 then ONES else 0;
    SelectHalf(x.high, x.low);
    var c := Ctzsi2(Or(And(x.high, f), And(x.low, ONES - f)));
    count := c + And(f, 32);
  }

  lemma CtzOfHalves(x: Dword, w: nat)
    requires IsDword(x, w) && All(x, w) > 0
    ensures x.low == 0 ==> x.high > 0 && Ctz(All(x, w)) == w + Ctz(x.high)
    ensures x.low > 0 ==> Ctz(All(x, w)) == Ctz(x.low)
  {
    if x.low == 0 {
      CtzShift(All(x, w), w);
      ModOfMultiple(x.high, Pow2(w));
    } else {
      CtzOfLow(x.high, x.low, w);
    }
  }

  lemma {:induction false} CtzOfLow(h: nat, l: nat, w: nat)
    requires 0 < l < Pow2(w)
    ensures Ctz(Shl(h, w) + l) == Ctz(l)
  {
    if w == 0 {
      Pow2Zero();
    } else {
      ShlStep(h, w);
      EvenPlus(Shl(h, w - 1), l);
      if l % 2 == 0 { CtzOfLow(h, l / 2, w - 1); }
    }
  }

  lemma ShlStep(h: nat, w: nat)
    requires w > 0
    ensures Shl(h, w) == 2 * Shl(h, w - 1) && Pow2(w) == 2 * Pow2(w - 1)
  {
    DoublePow2(h, w);
  }

  lemma EvenPlus(a: nat, l: nat)
    ensures (2 * a + l) % 2 == l % 2 && (2 * a + l) / 2 == a + l / 2
  {
  }

  /** What the two counts mean: the word lies between the powers of two around its
      highest set bit, and is divisible by the one of its lowest set bit and no larger. */
  lemma TrueCounts(a: nat, w: nat)
    requires 0 < a < Pow2(w)
    ensures var lead := Clz(a, w); 0 <= lead < w && Pow2(w - 1 - lead) <= a < Pow2(w - lead)
    ensures forall k: nat :: Aligned(a, k) <==> k <= Ctz(a)
  {
    LenBounds(a);
    if Len(a) > w { LenTooLong(a, w); }
    forall k: nat ensures Aligned(a, k) <==> k <= Ctz(a) { CtzShift(a, k); }
  }
}
