/** Bitwise operations on unsigned words, defined bit by bit, and what they mean
    arithmetically: shifts with their width limits, masks, and bit counts. */
module Bits {
  import opened Powers

  function And(x: nat, y: nat): (r: nat)
    ensures r <= x && r <= y
  {
    if x == 0 || y == 0 then 0
    else 2 * And(x / 2, y / 2) + if x % 2 == 1 && y % 2 == 1 then 1 else 0
  }

  function Or(x: nat, y: nat): nat {
    if x == 0 then y else if y == 0 then x
    else 2 * Or(x / 2, y / 2) + if x % 2 == 1 || y % 2 == 1 then 1 else 0
  }

  function Xor(x: nat, y: nat): nat {
    if x == 0 then y else if y == 0 then x
    else 2 * Xor(x / 2, y / 2) + if x % 2 != y % 2 then 1 else 0
  }

  /** x << k on a w-bit unsigned word; C leaves k >= w undefined. */
  function ShiftLeft(x: nat, k: nat, w: nat): nat
    requires k < w
  {
    (x * Pow2(k)) % Pow2(w)
  }

  /** x >> k on a w-bit unsigned word. */
  function ShiftRight(x: nat, k: nat, w: nat): nat
    requires k < w
  {
    Quotient(x, Pow2(k))
  }

  /** x - y on w-bit unsigned words. */
  function Sub(x: int, y: int, w: nat): nat {
    (x - y) % Pow2(w)
  }

  /** Number of bits up to the highest set one. */
  function Len(x: nat): nat {
    if x == 0 then 0 else 1 + Len(x / 2)
  }

  /** Leading zeros of a w-bit word. */
  function Clz(x: nat, w: nat): int {
    w - Len(x)
  }

  /** Trailing zeros. */
  function Ctz(x: nat): nat
    requires x > 0
  {
    if x % 2 == 1 then 0 else 1 + Ctz(x / 2)
  }

  // ----- dividing by powers of two

  lemma DivMod(x: int, m: int)
    requires m > 0
    ensures x == (x / m) * m + x % m && 0 <= x % m < m
  {
  }

  lemma QuotientBelow(x: nat, m: nat, n: nat)
    requires m > 0 && x < m * n
    ensures x / m < n
  {
    DivMod(x, m);
    if x / m >= n { MulMonotone(n, x / m, m); }
  }

  lemma HalfOfPow2(k: nat)
    requires k > 0
    ensures Pow2(k) % 2 == 0 && Pow2(k) / 2 == Pow2(k - 1) && (Pow2(k) - 1) / 2 == Pow2(k - 1) - 1 && (Pow2(k) - 1) % 2 == 1
  {
    DivModUnique(Pow2(k) - 1, 2, Pow2(k - 1) - 1, 1);
  }

  lemma HalfThenQuotient(x: nat, k: nat)
    ensures x / Pow2(k + 1) == (x / 2) / Pow2(k)
    ensures x % Pow2(k + 1) == 2 * ((x / 2) % Pow2(k)) + x % 2
  {
    var m := Pow2(k);
    DivMod(x, 2);
    DivMod(x / 2, m);
    var q := (x / 2) / m;
    assert x == q * (2 * m) + (2 * ((x / 2) % m) + x % 2) by {
      assert 2 * (q * m) == q * (2 * m);
    }
    DivModUnique(x, 2 * m, q, 2 * ((x / 2) % m) + x % 2);
  }

  // ----- the bitwise operations, arithmetically

  lemma DoublePow2(a: int, k: nat)
    requires k > 0
    ensures a * Pow2(k) == 2 * (a * Pow2(k - 1))
  {
  }

  lemma AndHalves(x: nat, y: nat)
    ensures And(x, y) == 2 * And(x / 2, y / 2) + if x % 2 == 1 && y % 2 == 1 then 1 else 0
  {
  }

  /** x & (2^k - 1) keeps the low k bits. */
  lemma AndLowMask(x: nat, k: nat)
    ensures And(x, Pow2(k) - 1) == x % Pow2(k)
  {
    AndLow(x, k);
  }

  function Low(x: nat, k: nat): nat {
    x % Pow2(k)
  }

  lemma {:induction false} AndLow(x: nat, k: nat)
    ensures And(x, Pow2(k) - 1) == Low(x, k)
  {
    hide And, Pow2, Low;
    if k == 0 {
      AndLowZero(x);
    } else {
      HalfOfPow2(k);
      HalfThenLow(x, k);
      AndLow(x / 2, k - 1);
      AndOdd(x, Pow2(k) - 1);
    }
  }

  lemma HalfThenLow(x: nat, k: nat)
    requires k > 0
    ensures Low(x, k) == 2 * Low(x / 2, k - 1) + x % 2
  {
    HalfThenQuotient(x, k - 1);
  }

  lemma AndLowZero(x: nat)
    ensures And(x, Pow2(0) - 1) == 0 == Low(x, 0)
  {
  }

  lemma AndOdd(x: nat, y: nat)
    requires y % 2 == 1
    ensures And(x, y) == 2 * And(x / 2, y / 2) + x % 2
  {
    AndHalves(x, y);
  }

  /** A mask of ones above k zeros sees exactly the bits above. */
  lemma {:induction false} AndHighMask(x: nat, y: nat, k: nat)
    ensures And(x, Shl(y, k)) == And(Quotient(x, Pow2(k)), y) * Pow2(k)
  {
    hide And, Pow2, Quotient;
    if k == 0 {
      Pow2Zero();
      ByOne(x);
    } else {
      AndHighMask(x / 2, y, k - 1);
      HalfThenQuotient(x, k - 1);
      DoublePow2(y, k);
      DoublePow2(And(Quotient(x, Pow2(k)), y), k);
      HalfOfDouble(y * Pow2(k - 1));
      AndHalves(x, Shl(y, k));
    }
  }

  lemma ByOne(x: nat)
    ensures Quotient(x, 1) == x
  {
  }

  lemma HalfOfDouble(v: nat)
    ensures (2 * v) / 2 == v && (2 * v) % 2 == 0
  {
  }

  /** Or of parts that do not overlap is their sum. */
  lemma {:induction false} OrDisjoint(x: nat, y: nat, k: nat)
    requires y < Pow2(k)
    ensures Or(x * Pow2(k), y) == x * Pow2(k) + y
  {
    if k == 0 {
      Pow2Zero();
      assert y == 0;
    } else {
      var x' := x * Pow2(k - 1);
      assert x * Pow2(k) == 2 * x';
      assert (2 * x') / 2 == x' && (2 * x') % 2 == 0;
      OrDisjoint(x, y / 2, k - 1);
    }
  }

  /** Xor with all ones is the complement. */
  lemma {:induction false} XorOnes(x: nat, k: nat)
    requires x < Pow2(k)
    ensures Xor(x, Pow2(k) - 1) == Pow2(k) - 1 - x
  {
    if k > 0 && x > 0 {
      HalfOfPow2(k);
      XorOnes(x / 2, k - 1);
    }
  }

  /** And with all ones changes nothing. */
  lemma AndOnes(x: nat, k: nat)
    requires x < Pow2(k)
    ensures And(x, Pow2(k) - 1) == x
  {
    AndLowMask(x, k);
    DivModUnique(x, Pow2(k), 0, x);
  }

  lemma {:induction false} AndCommutes(x: nat, y: nat)
    ensures And(x, y) == And(y, x)
  {
    if x > 0 && y > 0 { AndCommutes(x / 2, y / 2); }
  }

  lemma AndZero(x: nat)
    ensures And(x, 0) == 0 && And(0, x) == 0
  {
  }

  /** x & (x - 1) vanishes exactly for powers of two. */
  lemma {:induction false} PowerOfTwoTest(x: nat)
    requires x > 0
    ensures And(x, x - 1) == 0 <==> x == Pow2(Ctz(x))
    decreases x
  {
    if x % 2 == 1 {
      if x > 1 {
        assert And(x, x - 1) == 2 * And(x / 2, x / 2);
        AndSelf(x / 2);
      }
    } else {
      PowerOfTwoTest(x / 2);
      assert (x - 1) / 2 == x / 2 - 1;
      assert And(x, x - 1) == 2 * And(x / 2, x / 2 - 1);
    }
  }

  lemma {:induction false} AndSelf(x: nat)
    ensures And(x, x) == x
  {
    if x > 0 { AndSelf(x / 2); }
  }

  // ----- bit counts

  lemma {:induction false} LenBounds(x: nat)
    requires x > 0
    ensures Len(x) >= 1 && Pow2(Len(x) - 1) <= x < Pow2(Len(x))
  {
    if x > 1 { LenBounds(x / 2); }
  }

  /** The bounds determine the length. */
  lemma LenUnique(x: nat, n: nat)
    requires n >= 1 && Pow2(n - 1) <= x < Pow2(n)
    ensures Len(x) == n
  {
    LenBounds(x);
    if Len(x) < n { Pow2Monotone(Len(x), n - 1); }
    else if Len(x) > n { Pow2Monotone(n, Len(x) - 1); }
  }

  lemma LenTooLong(x: nat, w: nat)
    requires Len(x) > w
    ensures Pow2(w) <= Pow2(Len(x) - 1)
  {
    Pow2Monotone(w, Len(x) - 1);
  }

  lemma LenAtMost(x: nat, w: nat)
    requires x < Pow2(w)
    ensures Len(x) <= w
  {
    if x > 0 {
      LenBounds(x);
      if Len(x) > w { LenTooLong(x, w); }
    }
  }

  // ----- words made of two halves

  lemma CommonFactor(h: nat, p: nat, r: nat)
    requires p > 0 && r > 0
    ensures p * r > 0 && (h * r) % (p * r) == (h % p) * r && (h % p) * r <= p * r - r
  {
    DivMod(h, p);
    MulMonotone(h % p, p - 1, r);
    MulMonotone(0, h % p, r);
    MulMonotone(1, p, r);
    assert h * r == (h / p) * (p * r) + (h % p) * r by {
      assert h * r == ((h / p) * p + h % p) * r;
    }
    DivModUnique(h * r, p * r, h / p, (h % p) * r);
  }

  /** Bits pushed over the boundary between two words by a shift of k. */
  lemma ShiftPair(h: nat, l: nat, k: nat, w: nat)
    requires 0 < k < w && h < Pow2(w) && l < Pow2(w)
    ensures ShiftLeft(h, w - k, w) == (h % Pow2(k)) * Pow2(w - k)
    ensures l / Pow2(k) < Pow2(w - k)
    ensures Or(ShiftLeft(h, w - k, w), ShiftRight(l, k, w)) == (h % Pow2(k)) * Pow2(w - k) + l / Pow2(k)
    ensures (h % Pow2(k)) * Pow2(w - k) + l / Pow2(k) < Pow2(w)
  {
    hide Pow2, Or;
    Pow2Add(k, w - k);
    CommonFactor(h, Pow2(k), Pow2(w - k));
    QuotientBelow(l, Pow2(k), Pow2(w - k));
    OrDisjoint(h % Pow2(k), l / Pow2(k), w - k);
  }
}
