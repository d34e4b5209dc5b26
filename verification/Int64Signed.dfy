/** The signed divisions and the bit-count routines of
    abstract-machine/klib/src/int64.c. */
module Int64Signed {
  import opened Powers
  import opened Bits
  import opened Int64

  // ----- two's complement numbers of the given width

  predicate InRange(x: int, bits: nat)
    requires bits >= 1
  {
    0 - Pow2(bits - 1) <= x < Pow2(bits - 1)
  }

  function ToUnsigned(x: int, bits: nat): nat {
    x % Pow2(bits)
  }

  function ToSigned(v: nat, bits: nat): int
    requires bits >= 1
  {
    if v < Pow2(bits - 1) then v else v - Pow2(bits)
  }

  /** What a signed register keeps of an arithmetic result. */
  function Wrap(x: int, bits: nat): int
    requires bits >= 1
  {
    ToSigned(ToUnsigned(x, bits), bits)
  }

  /** x >> (bits - 1) on a signed number. */
  function SignShift(x: int): int {
    if x < 0 then -1 else 0
  }

  function SignedXor(x: int, y: int, bits: nat): int
    requires bits >= 1
  {
    ToSigned(Xor(ToUnsigned(x, bits), ToUnsigned(y, bits)), bits)
  }

  function Abs(x: int): nat {
    if x < 0 then -x else x
  }

  // ----- section 6.5.5 of ISO/IEC 9899:2011: truncation toward zero

  function TruncQuotient(a: int, b: int): int
    requires b != 0
  {
    if (a < 0) == (b < 0) then Quotient(Abs(a), Abs(b)) else 0 - Quotient(Abs(a), Abs(b))
  }

  function TruncRemainder(a: int, b: int): int
    requires b != 0
  {
    if a < 0 then 0 - Abs(a) % Abs(b) else Abs(a) % Abs(b)
  }

  /** The law that determines both: the remainder is smaller than the divisor and
      takes the sign of the numerator. */
  lemma TruncLaw(a: int, b: int)
    requires b != 0
    ensures a == TruncQuotient(a, b) * b + TruncRemainder(a, b)
    ensures Abs(TruncRemainder(a, b)) < Abs(b)
    ensures (a >= 0 ==> TruncRemainder(a, b) >= 0) && (a <= 0 ==> TruncRemainder(a, b) <= 0)
  {
    hide Quotient;
    var (x, y) := (Abs(a), Abs(b));
    DivMod(x, y);
    Signs(a, b, Quotient(x, y), x % y);
  }

  lemma Signs(a: int, b: int, q: nat, r: nat)
    requires b != 0 && Abs(a) == q * Abs(b) + r
    ensures a == (if (a < 0) == (b < 0) then q else 0 - q) * b + if a < 0 then 0 - r else r
  {
    assert (0 - q) * b == 0 - q * b && q * (0 - b) == 0 - q * b;
  }

  /** The quotient is representable except for the most negative number by -1. */
  lemma QuotientFits(a: int, b: int, bits: nat)
    requires bits >= 2 && InRange(a, bits) && InRange(b, bits) && b != 0
    ensures InRange(TruncQuotient(a, b), bits) <==> !(a == 0 - Pow2(bits - 1) && b == -1)
  {
    hide Pow2;
    assert Pow2(bits - 1) == 2 * Pow2(bits - 2) by { DoublePow2(1, bits - 1); }
    var (x, y) := (Abs(a), Abs(b));
    QuotientShrinks(x, y);
    DivMod(x, y);
    if y >= 2 {
      QuotientBelow(x, y, Pow2(bits - 2) + 1) by { MulMonotone(2, y, Pow2(bits - 2) + 1); }
    } else {
      assert x / 1 == x;
    }
  }

  // ----- the branch-free negations

  lemma UnsignedValue(x: int, bits: nat)
    requires bits >= 1 && InRange(x, bits)
    ensures ToUnsigned(x, bits) == if x < 0 then x + Pow2(bits) else x
    ensures Wrap(x, bits) == x
  {
    hide Pow2;
    assert Pow2(bits) == 2 * Pow2(bits - 1) by { DoublePow2(1, bits); }
    if x < 0 {
      DivModUnique(x, Pow2(bits), -1, x + Pow2(bits));
    } else {
      DivModUnique(x, Pow2(bits), 0, x);
    }
  }

  lemma MinusOne(bits: nat)
    requires bits >= 1
    ensures InRange(-1, bits) && InRange(0, bits)
    ensures ToUnsigned(-1, bits) == Pow2(bits) - 1 && ToUnsigned(0, bits) == 0
  {
    UnsignedValue(-1, bits);
    UnsignedValue(0, bits);
  }

  lemma XorZero(x: nat)
    ensures Xor(x, 0) == x && Xor(0, x) == x
  {
  }

  /** x ^ 0 is x, x ^ -1 is -x - 1. */
  lemma SignedXorMeaning(x: int, s: int, bits: nat)
    requires bits >= 1 && InRange(x, bits) && (s == 0 || s == -1)
    ensures SignedXor(x, s, bits) == if s == 0 then x else -x - 1
    ensures InRange(SignedXor(x, s, bits), bits)
  {
    hide Pow2, Xor;
    assert Pow2(bits) == 2 * Pow2(bits - 1) by { DoublePow2(1, bits); }
    UnsignedValue(x, bits);
    MinusOne(bits);
    XorZero(ToUnsigned(x, bits));
    if s == -1 { XorOnes(ToUnsigned(x, bits), bits); }
  }

  /** (x ^ s) - s with s the sign of x, read as an unsigned number: |x|, also for
      the most negative x. */
  lemma Magnitude(x: int, bits: nat)
    requires bits >= 1 && InRange(x, bits)
    ensures ToUnsigned(Wrap(SignedXor(x, SignShift(x), bits) - SignShift(x), bits), bits) == Abs(x)
    ensures Abs(x) < Pow2(bits)
  {
    hide Pow2, SignedXor;
    assert Pow2(bits) == 2 * Pow2(bits - 1) by { DoublePow2(1, bits); }
    SignedXorMeaning(x, SignShift(x), bits);
    if Abs(x) == Pow2(bits - 1) {
      DivModUnique(Abs(x), Pow2(bits), 0, Abs(x));
      DivModUnique(Abs(x) - Pow2(bits), Pow2(bits), -1, Abs(x));
    } else {
      UnsignedValue(Abs(x), bits);
    }
  }

  /** (q ^ s) - s on unsigned numbers, read as a signed one: q or -q, wrapped. */
  lemma ApplySign(q: nat, s: int, bits: nat)
    requires bits >= 1 && q < Pow2(bits) && (s == 0 || s == -1)
    ensures ToSigned(Sub(Xor(q, ToUnsigned(s, bits)), ToUnsigned(s, bits), bits), bits) == Wrap(if s == 0 then q else 0 - q, bits)
  {
    hide Pow2, Xor;
    MinusOne(bits);
    XorZero(q);
    if s == -1 { XorOnes(q, bits); }
  }

  // ----- the routines

  /** __divdi3 */
  method Divdi3(a: int, b: int, w: nat) returns (r: int)
    requires w >= 2 && InRange(a, 2 * w) && InRange(b, 2 * w) && b != 0
    ensures r == if a == 0 - Pow2(2 * w - 1) && b == -1 then a else TruncQuotient(a, b)
  {
    hide Pow2, SignedXor, Xor, InRange, Sub, Wrap, ToSigned, ToUnsigned;
    var bits := 2 * w;
    var sA, sB := SignShift(a), SignShift(b);
    var ua := Wrap(SignedXor(a, sA, bits) - sA, bits);
    var ub := Wrap(SignedXor(b, sB, bits) - sB, bits);
    Magnitude(a, bits);
    Magnitude(b, bits);
    MinusOne(bits);
    SignedXorMeaning(sA, sB, bits);
    var s := SignedXor(sA, sB, bits);
    var q, rem := Udivmoddi4(ToUnsigned(ua, bits), ToUnsigned(ub, bits), w);
    DivModUnique(Abs(a), Abs(b), q, rem);
    QuotientShrinks(Abs(a), Abs(b));
    ApplySign(q, s, bits);
    r := ToSigned(Sub(Xor(q, ToUnsigned(s, bits)), ToUnsigned(s, bits), bits), bits);
    DivdiResult(a, b, w);
  }

  lemma DivdiResult(a: int, b: int, w: nat)
    requires w >= 2 && InRange(a, 2 * w) && InRange(b, 2 * w) && b != 0
    ensures Wrap(TruncQuotient(a, b), 2 * w) ==
            if a == 0 - Pow2(2 * w - 1) && b == -1 then a else TruncQuotient(a, b)
  {
    hide Pow2;
    QuotientFits(a, b, 2 * w);
    if a == 0 - Pow2(2 * w - 1) && b == -1 {
      assert Abs(a) / 1 == Abs(a);
      assert Pow2(2 * w) == 2 * Pow2(2 * w - 1) by { DoublePow2(1, 2 * w); }
      DivModUnique(Abs(a), Pow2(2 * w), 0, Abs(a));
    } else {
      UnsignedValue(TruncQuotient(a, b), 2 * w);
    }
  }

  /** __moddi3 */
  method Moddi3(a: int, b: int, w: nat) returns (r: int)
    requires w >= 2 && InRange(a, 2 * w) && InRange(b, 2 * w) && b != 0
    ensures r == TruncRemainder(a, b)
  {
    hide Pow2, SignedXor, Sub, Wrap, ToSigned, ToUnsigned;
    var bits := 2 * w;
    var sB := SignShift(b);
    var ub := Wrap(SignedXor(b, sB, bits) - sB, bits);
    var s := SignShift(a);
    var ua := Wrap(SignedXor(a, s, bits) - s, bits);
    Magnitude(a, bits);
    Magnitude(b, bits);
    var q, rem := Udivmoddi4(ToUnsigned(ua, bits), ToUnsigned(ub, bits), w);
    DivModUnique(Abs(a), Abs(b), q, rem);
    assert InRange(rem, bits);
    var signedRem := ToSigned(rem, bits);
    SignedNat(rem, bits);
    SignedXorMeaning(signedRem, s, bits);
    r := Wrap(SignedXor(signedRem, s, bits) - s, bits);
    UnsignedValue(TruncRemainder(a, b), bits);
  }

  lemma SignedNat(v: nat, bits: nat)
    requires bits >= 1 && InRange(v, bits)
    ensures ToSigned(v, bits) == v
  {
  }

  /** __divmoddi4 */
  method Divmoddi4(a: int, b: int, w: nat) returns (d: int, rem: int)
    requires w >= 2 && InRange(a, 2 * w) && InRange(b, 2 * w) && b != 0
    ensures d == if a == 0 - Pow2(2 * w - 1) && b == -1 then a else TruncQuotient(a, b)
    ensures rem == TruncRemainder(a, b)
  {
    hide Pow2, Wrap;
    d := Divdi3(a, b, w);
    rem := Wrap(a - Wrap(d * b, 2 * w), 2 * w);
    DivmoddiResult(a, b, d, w);
  }

  lemma DivmoddiResult(a: int, b: int, d: int, w: nat)
    requires w >= 2 && InRange(a, 2 * w) && InRange(b, 2 * w) && b != 0
    requires d == if a == 0 - Pow2(2 * w - 1) && b == -1 then a else TruncQuotient(a, b)
    ensures Wrap(a - Wrap(d * b, 2 * w), 2 * w) == TruncRemainder(a, b)
  {
    hide Pow2, Wrap, TruncQuotient, TruncRemainder;
    assert Pow2(2 * w) == 2 * Pow2(2 * w - 1) by { DoublePow2(1, 2 * w); }
    if a == 0 - Pow2(2 * w - 1) && b == -1 {
      ByMinusOne(a);
      WrapHalf(2 * w);
      UnsignedValue(0, 2 * w);
    } else {
      TruncLaw(a, b);
      UnsignedValue(d * b, 2 * w);
      UnsignedValue(TruncRemainder(a, b), 2 * w);
    }
  }

  lemma ByMinusOne(a: int)
    requires a <= 0
    ensures TruncRemainder(a, -1) == 0
  {
  }

  /** The one value of the wrong sign wraps to itself negated. */
  lemma WrapHalf(bits: nat)
    requires bits >= 1
    ensures Wrap(Pow2(bits - 1), bits) == 0 - Pow2(bits - 1)
  {
    var h := Pow2(bits - 1);
    assert Pow2(bits) == 2 * h;
    hide Pow2;
    DivModUnique(h, 2 * h, 0, h);
  }
}
