/** 64-bit division out of 32-bit halves: abstract-machine/klib/src/int64.c. The
    half-word width w (32 in the source) is a parameter, so a double word has
    2w bits. Words are unsigned numbers; every shift is checked to stay below
    the word width. */
module Int64 {
  import opened Powers
  import opened Bits

  /** udwords */
  datatype Dword = Dword(high: nat, low: nat)

  predicate IsDword(d: Dword, w: nat) {
    d.high < Pow2(w) && d.low < Pow2(w)
  }

  /** d.all */
  function All(d: Dword, w: nat): nat {
    Shl(d.high, w) + d.low
  }

  function Split(v: nat, w: nat): Dword {
    Dword(Quotient(v, Pow2(w)), v % Pow2(w))
  }

  lemma SplitAll(v: nat, w: nat)
    requires v < Pow2(2 * w)
    ensures IsDword(Split(v, w), w) && All(Split(v, w), w) == v
  {
    Pow2Add(w, w);
    DivMod(v, Pow2(w));
    QuotientBelow(v, Pow2(w), Pow2(w));
  }

  lemma AllBound(d: Dword, w: nat)
    requires IsDword(d, w)
    ensures All(d, w) < Pow2(2 * w)
  {
    hide Pow2;
    Pow2Add(w, w);
    MulMonotone(d.high, Pow2(w) - 1, Pow2(w));
    assert (Pow2(w) - 1) * Pow2(w) == Pow2(w) * Pow2(w) - Pow2(w);
  }

  /** A double word shifted left by one, with a new lowest bit. */
  function Double(d: Dword, bit: nat, w: nat): Dword
    requires w >= 2
  {
    Dword(Or(ShiftLeft(d.high, 1, w), ShiftRight(d.low, w - 1, w)), Or(ShiftLeft(d.low, 1, w), bit))
  }

  /** (di_int)v >> (bits - 1): all ones for a negative number, else 0. */
  function SignMask(v: nat, bits: nat): nat
    requires bits >= 1
  {
    if v >= Pow2(bits - 1) then Pow2(bits) - 1 else 0
  }

  /** (di_int)(d - r - 1) as a word, before the sign shift. */
  function Below(d: int, r: int, bits: nat): nat {
    (d - r - 1) % Pow2(bits)
  }

  // ----- one step of the loop

  lemma DoubleArith(h: nat, l: nat, bit: nat, t: nat)
    requires t > 0 && h < 2 * t && l < 2 * t && bit <= 1
    ensures ((h % t) * 2 + l / t) * (2 * t) + (l % t) * 2 + bit == (2 * (h * (2 * t) + l)) % ((2 * t) * (2 * t)) + bit
    ensures (h * (2 * t) + l) / ((2 * t) * t) == h / t
    ensures (2 * t) * t > 0
  {
    SplitHigh(h, t);
    SplitLow(h % t, l, t);
    SquareOfDouble(t);
    DoubleShape(h * (2 * t), l, 2 * t, (2 * t) * t, h / t, (h % t) * (2 * t));
  }

  lemma SplitHigh(h: nat, t: nat)
    requires t > 0
    ensures h * (2 * t) == h / t * ((2 * t) * t) + (h % t) * (2 * t)
    ensures 0 <= (h % t) * (2 * t) && (h % t) * (2 * t) + 2 * t <= (2 * t) * t
  {
    var (q, r, u) := (h / t, h % t, 2 * t);
    DivMod(h, t);
    assert h * u == (q * t) * u + r * u;
    assert (q * t) * u == q * (u * t);
    MulMonotone(r + 1, t, u);
    MulMonotone(0, r, u);
    assert (r + 1) * u == r * u + u;
  }

  lemma SplitLow(r: nat, l: nat, t: nat)
    requires t > 0
    ensures (r * 2 + l / t) * (2 * t) + (l % t) * 2 == 2 * (r * (2 * t)) + 2 * l
  {
    DivMod(l, t);
    assert (r * 2 + l / t) * (2 * t) == 2 * (r * (2 * t)) + 2 * (l / t * t);
  }

  lemma SquareOfDouble(t: nat)
    ensures (2 * t) * (2 * t) == 2 * ((2 * t) * t)
    ensures t > 0 ==> (2 * t) * t > 0
  {
  }

  /** Dividing a sum of whole and part by m, and its double by 2m. */
  lemma DoubleShape(v: nat, l: nat, u: nat, m: nat, q: nat, x: nat)
    requires v == q * m + x && x + u <= m && l < u
    ensures (v + l) / m == q && (2 * (v + l)) % (2 * m) == 2 * x + 2 * l
  {
    DivModUnique(v + l, m, q, x + l);
    assert q * (2 * m) == 2 * (q * m);
    DivModUnique(2 * (v + l), 2 * m, q, 2 * x + 2 * l);
  }

  /** Shifting the two halves is shifting the double word. */
  lemma DoubleCorrect(d: Dword, bit: nat, w: nat)
    requires w >= 2 && IsDword(d, w) && bit <= 1
    ensures IsDword(Double(d, bit, w), w)
    ensures All(Double(d, bit, w), w) == Rest(d, w) + bit
    ensures ShiftRight(d.high, w - 1, w) == TopBit(d, w) <= 1
  {
    hide Pow2, Or;
    var t := Pow2(w - 1);
    assert Pow2(w) == 2 * t by { DoublePow2(1, w); }
    Pow2Add(w, w);
    Pow2Add(w, w - 1);
    assert w + (w - 1) == 2 * w - 1;
    ShiftPair(d.high, d.low, w - 1, w);
    ShiftPair(d.low, 0, w - 1, w);
    Pow2One();
    DivMod(d.low, t);
    OrDisjoint(d.low % t, bit, 1);
    DoubleArith(d.high, d.low, bit, t);
    QuotientBelow(d.high, t, 2);
  }

  lemma Pow2One()
    ensures Pow2(1) == 2
  {
    assert Pow2(1) == 2 * Pow2(0);
  }

  /** The sign-shift test is the comparison r >= d, as long as the difference fits
      a signed double word. */
  lemma CompareExact(d: nat, r: nat, bits: nat)
    requires bits >= 1 && 0 - Pow2(bits - 1) <= d - r - 1 < Pow2(bits - 1)
    ensures SignMask(Below(d, r, bits), bits) == if r >= d then Pow2(bits) - 1 else 0
  {
    var h := Pow2(bits - 1);
    assert Pow2(bits) == 2 * h;
    if r >= d {
      DivModUnique(d - r - 1, 2 * h, -1, d - r - 1 + 2 * h);
    } else {
      DivModUnique(d - r - 1, 2 * h, 0, d - r - 1);
    }
  }

  // ----- the shift-subtract loop

  /** The bits of a already consumed, and those unread, moved to the top of a double word. */
  function Top(a: nat, sr: nat): nat {
    Quotient(a, Pow2(sr))
  }

  function Unread(a: nat, sr: nat, w: nat): nat
    requires sr <= 2 * w
  {
    Shl(a % Pow2(sr), 2 * w - sr)
  }

  function Product(x: int, y: int): int {
    x * y
  }

  /** The state before the bit at position sr - 1 of a is consumed: quot is the
      quotient of the bits already consumed; carry holds its lowest bit, q the
      unread bits of a above the rest of it. */
  ghost predicate LoopInv(a: nat, b: nat, q: Dword, r: Dword, carry: nat, sr: nat, quot: nat, w: nat)
    requires w >= 2 && sr <= 2 * w
  {
    && IsDword(q, w) && IsDword(r, w) && carry == quot % 2
    && Top(a, sr) == Product(quot, b) + All(r, w) && All(r, w) < b
    && All(q, w) == Unread(a, sr, w) + quot / 2 && quot / 2 < Pow2(2 * w - sr)
  }

  /** What rules out overflow of the doubled remainder and of the difference: the
      divisor leaves the top bit free, or a single step remains. */
  ghost predicate RoomLeft(a: nat, b: nat, sr: nat, w: nat)
    requires w >= 2
  {
    b <= Pow2(2 * w - 1) || (sr == 1 && a >= Pow2(2 * w - 1))
  }

  /** The highest bit of a double word, and the word shifted left past it. */
  function TopBit(d: Dword, w: nat): nat
    requires w >= 1
  {
    Quotient(All(d, w), Pow2(2 * w - 1))
  }

  function Rest(d: Dword, w: nat): nat {
    (2 * All(d, w)) % Pow2(2 * w)
  }

  /** The bit consumed next, and where it sits in q. */
  lemma NextBit(a: nat, b: nat, q: Dword, r: Dword, carry: nat, sr: nat, quot: nat, w: nat)
    requires w >= 2 && 1 <= sr <= 2 * w - 1 && LoopInv(a, b, q, r, carry, sr, quot, w)
    ensures TopBit(q, w) <= 1 && Top(a, sr - 1) == 2 * Top(a, sr) + TopBit(q, w)
    ensures Rest(q, w) == Unread(a, sr - 1, w) + 2 * (quot / 2)
  {
    hide Pow2;
    var (p, g) := (Pow2(sr - 1), Pow2(2 * w - sr));
    Pow2Add(sr - 1, 2 * w - sr);
    assert sr - 1 + (2 * w - sr) == 2 * w - 1;
    assert Pow2(sr) == 2 * p by { DoublePow2(1, sr); }
    assert Pow2(2 * w) == 2 * (p * g) by { DoublePow2(1, 2 * w); }
    assert Pow2(2 * w - sr + 1) == 2 * g by { DoublePow2(1, 2 * w - sr + 1); }
    NextBitArith(a, p, g, quot / 2);
  }

  lemma NextBitArith(a: nat, p: nat, g: nat, c: nat)
    requires p > 0 && g > 0 && c < g
    ensures var v := (a % (2 * p)) * g + c;
            && p * g > 0 && v / (p * g) <= 1
            && a / p == 2 * (a / (2 * p)) + v / (p * g)
            && (2 * v) % (2 * (p * g)) == (a % p) * (2 * g) + 2 * c
  {
    TwoSteps(a, p);
    var x := a % (2 * p);
    Scaled(x, p, g);
    DoubleShape(x * g, c, g, p * g, x / p, (x % p) * g);
  }

  /** Dividing by p through 2p. */
  lemma TwoSteps(a: nat, p: nat)
    requires p > 0
    ensures a / p == 2 * (a / (2 * p)) + (a % (2 * p)) / p && a % p == (a % (2 * p)) % p && (a % (2 * p)) / p <= 1
  {
    var (k, x) := (a / (2 * p), a % (2 * p));
    DivMod(a, 2 * p);
    DivMod(x, p);
    QuotientBelow(x, p, 2);
    assert (2 * k + x / p) * p == k * (2 * p) + x / p * p;
    DivModUnique(a, p, 2 * k + x / p, x % p);
  }

  lemma Scaled(x: nat, p: nat, g: nat)
    requires p > 0 && g > 0
    ensures x * g == x / p * (p * g) + (x % p) * g && (x % p) * g + g <= p * g && p * g > 0
    ensures (x % p) * (2 * g) == 2 * ((x % p) * g)
  {
    DivMod(x, p);
    assert x * g == (x / p * p) * g + (x % p) * g;
    assert (x / p * p) * g == x / p * (p * g);
    MulMonotone(x % p + 1, p, g);
    assert (x % p + 1) * g == (x % p) * g + g;
    MulMonotone(0, x % p, g);
  }

  /** One iteration of the loop body, on values. */
  function Iterate(d: Dword, q: Dword, r: Dword, carry: nat, w: nat): (Dword, Dword, nat)
    requires w >= 2
  {
    var r1 := Double(r, ShiftRight(q.high, w - 1, w), w);
    var q1 := Double(q, carry, w);
    var s := SignMask(Below(All(d, w), All(r1, w), 2 * w), 2 * w);
    (q1, Split(Sub(All(r1, w), And(All(d, w), s), 2 * w), w), And(s, 1))
  }

  /** The doubled remainder neither overflows nor defeats the sign test, also for
      divisors with the top bit set. */
  lemma StepFits(a: nat, b: nat, r: nat, bit: nat, sr: nat, w: nat, quot: nat)
    requires w >= 2 && 1 <= sr && bit <= 1 && r < b && RoomLeft(a, b, sr, w)
    requires a < Pow2(2 * w) && b < Pow2(2 * w)
    requires Top(a, sr) == Product(quot, b) + r && Top(a, sr - 1) == 2 * Top(a, sr) + bit
    ensures 2 * r + bit < Pow2(2 * w) && 2 * r + bit < 2 * b && (sr > 1 ==> RoomLeft(a, b, sr - 1, w))
    ensures 0 - Pow2(2 * w - 1) <= b - (2 * r + bit) - 1 < Pow2(2 * w - 1)
  {
    hide Pow2;
    assert Pow2(2 * w) == 2 * Pow2(2 * w - 1) by { DoublePow2(1, 2 * w); }
    if b > Pow2(2 * w - 1) {
      Pow2Zero();
      Pow2One();
      assert a / 1 == a;
      if quot >= 1 { MulMonotone(1, quot, b); } else { assert quot * b == 0; }
    }
  }

  /** What one iteration computes, as long as the doubled remainder fits. */
  lemma IterateValues(d: Dword, q: Dword, r: Dword, carry: nat, w: nat)
    requires w >= 2 && IsDword(d, w) && IsDword(q, w) && IsDword(r, w) && carry <= 1
    requires var rv := 2 * All(r, w) + TopBit(q, w);
             rv < Pow2(2 * w) && 0 - Pow2(2 * w - 1) <= All(d, w) - rv - 1 < Pow2(2 * w - 1)
    ensures var rv := 2 * All(r, w) + TopBit(q, w);
            var take := if rv >= All(d, w) then 1 else 0;
            var (q', r', carry') := Iterate(d, q, r, carry, w);
            && IsDword(q', w) && IsDword(r', w) && carry' == take
            && All(q', w) == Rest(q, w) + carry
            && All(r', w) == rv - (if take == 1 then All(d, w) else 0)
  {
    hide Pow2, Double, And, SignMask, All, Rest, TopBit, Sub, Split, IsDword, Below;
    var b := All(d, w);
    var bit := TopBit(q, w);
    AllBound(d, w);
    DoubleCorrect(q, carry, w);
    DoubleCorrect(r, bit, w);
    var rv := 2 * All(r, w) + bit;
    NoCarry(r, 2 * All(r, w), w);
    CompareExact(b, rv, 2 * w);
    MaskMeaning(b, 2 * w);
    SubFits(rv, if rv >= b then b else 0, 2 * w);
    SplitAll(if rv >= b then rv - b else rv, w);
  }

  lemma NoCarry(d: Dword, v: nat, w: nat)
    requires v == 2 * All(d, w) < Pow2(2 * w)
    ensures Rest(d, w) == v
  {
    hide Pow2, All;
    DivModUnique(v, Pow2(2 * w), 0, v);
  }

  lemma SubFits(x: nat, y: nat, bits: nat)
    requires y <= x < Pow2(bits)
    ensures Sub(x, y, bits) == x - y
  {
    hide Pow2;
    DivModUnique(x - y, Pow2(bits), 0, x - y);
  }

  /** Every iteration keeps the invariant with one more bit consumed; in particular
      the remainder stays below the divisor. */
  lemma IterateCorrect(a: nat, d: Dword, q: Dword, r: Dword, carry: nat, sr: nat, quot: nat, w: nat)
    requires w >= 2 && 1 <= sr <= 2 * w - 1 && IsDword(d, w) && a < Pow2(2 * w)
    requires LoopInv(a, All(d, w), q, r, carry, sr, quot, w) && RoomLeft(a, All(d, w), sr, w)
    ensures var (q', r', carry') := Iterate(d, q, r, carry, w);
            LoopInv(a, All(d, w), q', r', carry', sr - 1, 2 * quot + carry', w)
    ensures sr > 1 ==> RoomLeft(a, All(d, w), sr - 1, w)
  {
    hide Pow2, Iterate, All, Top, Unread, RoomLeft, Product, TopBit, Rest;
    var b := All(d, w);
    NextBit(a, b, q, r, carry, sr, quot, w);
    var bit := TopBit(q, w);
    AllBound(d, w);
    StepFits(a, b, All(r, w), bit, sr, w, quot);
    IterateValues(d, q, r, carry, w);
    var (q', r', carry') := Iterate(d, q, r, carry, w);
    NextQuotient(quot, b, All(r, w), bit, carry');
    assert Pow2(2 * w - sr + 1) == 2 * Pow2(2 * w - sr) by { DoublePow2(1, 2 * w - sr + 1); }
  }

  lemma NextQuotient(quot: nat, b: nat, r: nat, bit: nat, take: nat)
    requires take <= 1
    ensures 2 * (Product(quot, b) + r) + bit == Product(2 * quot + take, b) + (2 * r + bit - if take == 1 then b else 0)
    ensures (2 * quot + take) / 2 == quot && (2 * quot + take) % 2 == take && quot == 2 * (quot / 2) + quot % 2
  {
    assert (2 * quot + take) * b == 2 * (quot * b) + take * b;
  }

  lemma MaskMeaning(b: nat, bits: nat)
    requires bits >= 1 && b < Pow2(bits)
    ensures And(Pow2(bits) - 1, 1) == 1 && And(0, 1) == 0
    ensures And(b, Pow2(bits) - 1) == b && And(b, 0) == 0
  {
    AndOnes(b, bits);
    HalfOfPow2(bits);
    AndHalves(Pow2(bits) - 1, 1);
  }

  // ----- where the loop starts

  /** q and r hold a shifted by sr: the low bits at the top of q, the rest in r. */
  ghost predicate Started(n: Dword, q: Dword, r: Dword, sr: nat, w: nat)
    requires sr <= 2 * w
  {
    && IsDword(q, w) && IsDword(r, w)
    && All(r, w) == Top(All(n, w), sr)
    && All(q, w) == Unread(All(n, w), sr, w)
  }

  lemma ShortArith(h: nat, l: nat, p: nat, g: nat)
    requires p > 0 && g > 0
    ensures (h * (p * g) + l) / p == (h / p) * (p * g) + ((h % p) * g + l / p)
    ensures (h * (p * g) + l) % p == l % p
  {
    DivMod(h, p);
    DivMod(l, p);
    var m := (h / p) * (p * g) + ((h % p) * g + l / p);
    assert h * (p * g) == ((h / p) * (p * g)) * p + ((h % p) * g) * p by {
      assert h * (p * g) == ((h / p) * p + h % p) * (p * g);
      assert ((h / p) * p) * (p * g) == ((h / p) * (p * g)) * p;
      assert (h % p) * (p * g) == ((h % p) * g) * p;
    }
    assert m * p == ((h / p) * (p * g)) * p + ((h % p) * g) * p + (l / p) * p;
    DivModUnique(h * (p * g) + l, p, m, l % p);
  }

  /** 1 <= sr <= w - 1 */
  lemma ShortStart(n: Dword, sr: nat, w: nat)
    requires 0 < sr < w && IsDword(n, w)
    ensures Started(n, Dword(ShiftLeft(n.low, w - sr, w), 0),
                    Dword(ShiftRight(n.high, sr, w), Or(ShiftLeft(n.high, w - sr, w), ShiftRight(n.low, sr, w))), sr, w)
  {
    hide Pow2, Or, All, Top, Unread, ShiftLeft, ShiftRight;
    ShortStartQ(n, sr, w);
    ShortStartR(n, sr, w);
  }

  lemma ShortStartR(n: Dword, sr: nat, w: nat)
    requires 0 < sr < w && IsDword(n, w)
    ensures var r := Dword(ShiftRight(n.high, sr, w), Or(ShiftLeft(n.high, w - sr, w), ShiftRight(n.low, sr, w)));
            IsDword(r, w) && All(r, w) == Top(All(n, w), sr)
  {
    hide Pow2, Or, ShiftLeft;
    Pow2Add(sr, w - sr);
    ShiftPair(n.high, n.low, sr, w);
    ShortArith(n.high, n.low, Pow2(sr), Pow2(w - sr));
    QuotientShrinks(n.high, Pow2(sr));
  }

  lemma ShortStartQ(n: Dword, sr: nat, w: nat)
    requires 0 < sr < w && IsDword(n, w)
    ensures var q := Dword(ShiftLeft(n.low, w - sr, w), 0);
            IsDword(q, w) && All(q, w) == Unread(All(n, w), sr, w)
  {
    hide Pow2, Or, ShiftLeft, ShiftRight;
    var (p, g) := (Pow2(sr), Pow2(w - sr));
    Pow2Add(w, w - sr);
    assert w + (w - sr) == 2 * w - sr;
    ShiftPair(n.low, 0, sr, w);
    DivModUnique(0, p, 0, 0);
    LowBits(n, sr, w);
    assert ((n.low % p) * g) * Pow2(w) == (n.low % p) * (Pow2(w) * g);
  }

  lemma LowBits(n: Dword, sr: nat, w: nat)
    requires sr < w
    ensures All(n, w) % Pow2(sr) == n.low % Pow2(sr)
  {
    Pow2Add(sr, w - sr);
    ShortArith(n.high, n.low, Pow2(sr), Pow2(w - sr));
  }

  lemma QuotientShrinks(x: nat, p: nat)
    requires p > 0
    ensures x / p <= x
  {
    DivMod(x, p);
    MulMonotone(1, p, x / p);
  }

  /** sr == w */
  lemma WordStart(n: Dword, w: nat)
    requires IsDword(n, w)
    ensures Started(n, Dword(n.low, 0), Dword(0, n.high), w, w)
  {
    hide Pow2;
    DivModUnique(All(n, w), Pow2(w), n.high, n.low);
    assert 0 * Pow2(w) == 0;
  }

  lemma LongQuotient(h: nat, l: nat, p: nat, v: nat)
    requires p > 0 && v > 0 && l < v
    ensures v * p > 0 && (h * v + l) / (v * p) == h / p && (h * v + l) % (v * p) == (h % p) * v + l
  {
    DivMod(h, p);
    MulMonotone(h % p, p - 1, v);
    MulMonotone(0, h % p, v);
    MulMonotone(1, p, v);
    assert (p - 1) * v == v * p - v;
    assert h * v == (h / p) * (v * p) + (h % p) * v by { assert h * v == ((h / p) * p + h % p) * v; }
    DivModUnique(h * v + l, v * p, h / p, (h % p) * v + l);
  }

  lemma LongRemainder(h0: nat, l: nat, p: nat, g: nat)
    requires p > 0
    ensures (h0 * (p * g) + l) * g == (h0 * g + l / p) * (p * g) + (l % p) * g
  {
    DivMod(l, p);
    assert l * g == (l / p) * (p * g) + (l % p) * g by { assert l * g == ((l / p) * p + l % p) * g; }
    assert (h0 * (p * g)) * g == (h0 * g) * (p * g);
  }

  /** w + 1 <= sr <= 2w - 1 */
  lemma LongStart(n: Dword, sr: nat, w: nat)
    requires w < sr < 2 * w && IsDword(n, w)
    ensures Started(n, Dword(Or(ShiftLeft(n.high, 2 * w - sr, w), ShiftRight(n.low, sr - w, w)), ShiftLeft(n.low, 2 * w - sr, w)),
                    Dword(0, ShiftRight(n.high, sr - w, w)), sr, w)
  {
    hide Pow2, Or;
    var k := sr - w;
    var (p, g) := (Pow2(k), Pow2(w - k));
    Pow2Add(k, w - k);
    Pow2Add(w, k);
    assert w - k == 2 * w - sr && w + k == sr;
    ShiftPair(n.high, n.low, k, w);
    ShiftPair(n.low, 0, k, w);
    LongQuotient(n.high, n.low, p, p * g);
    LongRemainder(n.high % p, n.low, p, g);
    QuotientShrinks(n.high, p);
    assert 0 * Pow2(w) == 0;
    assert 0 / p == 0;
  }

  /** A double word between the powers of two given by its bit length. */
  predicate HasLength(v: nat, len: nat) {
    len >= 1 && Pow2(len - 1) <= v < Pow2(len)
  }

  lemma DwordLength(d: Dword, w: nat)
    requires IsDword(d, w) && d.high > 0
    ensures HasLength(All(d, w), w + Len(d.high)) && 1 <= Len(d.high) <= w
  {
    hide Pow2, Len;
    LenBounds(d.high);
    LenAtMost(d.high, w);
    Lengthened(d.high, d.low, Len(d.high), w);
  }

  lemma Lengthened(h: nat, l: nat, n: nat, w: nat)
    requires n >= 1 && Pow2(n - 1) <= h < Pow2(n) && l < Pow2(w)
    ensures HasLength(Shl(h, w) + l, w + n)
  {
    hide Pow2, Shl;
    Pow2Add(n - 1, w);
    Pow2Add(n, w);
    assert n - 1 + w == w + n - 1;
    BetweenMultiples(Pow2(n - 1), h, Pow2(n), Pow2(w), l);
  }

  lemma BetweenMultiples(lo: nat, h: nat, hi: nat, v: nat, l: nat)
    requires lo <= h < hi && l < v
    ensures lo * v <= h * v + l < hi * v
  {
    MulMonotone(lo, h, v);
    MulMonotone(h + 1, hi, v);
    assert (h + 1) * v == h * v + v;
  }

  /** The shift count chosen from the bit lengths makes the first remainder small
      enough and leaves room for the sign test. */
  lemma StartCorrect(n: Dword, d: Dword, q: Dword, r: Dword, sr: nat, la: nat, lb: nat, w: nat)
    requires w >= 2 && 1 <= sr <= 2 * w - 1 && Started(n, q, r, sr, w)
    requires HasLength(All(n, w), la) && HasLength(All(d, w), lb) && sr == la - lb + 1 && la <= 2 * w && lb <= 2 * w
    ensures Ready(n, d, q, r, sr, w)
  {
    hide Pow2, All, HasLength, RoomLeft, Top, Unread, Started;
    StartedFacts(n, q, r, sr, w);
    RemainderSmall(All(n, w), All(d, w), sr, la, lb);
    RoomAtStart(All(n, w), All(d, w), sr, la, lb, w);
    NoQuotientYet(All(d, w));
  }

  lemma StartedFacts(n: Dword, q: Dword, r: Dword, sr: nat, w: nat)
    requires sr <= 2 * w && Started(n, q, r, sr, w)
    ensures IsDword(q, w) && IsDword(r, w) && All(r, w) == Top(All(n, w), sr) && All(q, w) == Unread(All(n, w), sr, w)
  {
  }

  lemma RemainderSmall(a: nat, b: nat, sr: nat, la: nat, lb: nat)
    requires HasLength(a, la) && HasLength(b, lb) && sr == la - lb + 1
    ensures Top(a, sr) < b
  {
    hide Pow2;
    Pow2Add(sr, lb - 1);
    QuotientBelow(a, Pow2(sr), Pow2(lb - 1));
  }

  lemma RoomAtStart(a: nat, b: nat, sr: nat, la: nat, lb: nat, w: nat)
    requires w >= 2 && HasLength(a, la) && HasLength(b, lb) && sr == la - lb + 1 >= 1 && la <= 2 * w && lb <= 2 * w
    ensures RoomLeft(a, b, sr, w)
  {
    hide Pow2;
    if lb <= 2 * w - 1 { Pow2Monotone(lb, 2 * w - 1); }
  }

  lemma NoQuotientYet(b: nat)
    ensures Product(0, b) == 0
  {
  }

  /** What the branches hand over to the loop. */
  ghost predicate Ready(n: Dword, d: Dword, q: Dword, r: Dword, sr: nat, w: nat) {
    w >= 2 && 1 <= sr <= 2 * w - 1 && LoopInv(All(n, w), All(d, w), q, r, 0, sr, 0, w) && RoomLeft(All(n, w), All(d, w), sr, w)
  }

  // ----- the division

  ghost predicate DividesWith(a: nat, b: nat, q: nat, r: nat) {
    a == q * b + r && r < b
  }

  /** The final loop, from wherever the branches above it started. */
  method DivideLoop(n: Dword, d: Dword, q0: Dword, r0: Dword, sr0: nat, w: nat) returns (quotient: nat, rem: nat)
    requires IsDword(n, w) && IsDword(d, w) && Ready(n, d, q0, r0, sr0, w)
    ensures DividesWith(All(n, w), All(d, w), quotient, rem)
  {
    hide Pow2, All, And, Or;
    var q, r, sr: nat := q0, r0, sr0;
    var carry: nat := 0;
    ghost var quot: nat := 0;
    AllBound(n, w);
    while sr > 0
      invariant sr <= 2 * w - 1
      invariant LoopInv(All(n, w), All(d, w), q, r, carry, sr, quot, w)
      invariant sr > 0 ==> RoomLeft(All(n, w), All(d, w), sr, w)
    {
      IterateCorrect(All(n, w), d, q, r, carry, sr, quot, w);
      r := Double(r, ShiftRight(q.high, w - 1, w), w);
      q := Double(q, carry, w);
      var s := SignMask(Below(All(d, w), All(r, w), 2 * w), 2 * w);
      carry := And(s, 1);
      r := Split(Sub(All(r, w), And(All(d, w), s), 2 * w), w);
      quot := 2 * quot + carry;
      sr := sr - 1;
    }
    LoopEnd(n, d, q, r, carry, quot, w);
    quotient := Or(ShiftLeft(All(q, w), 1, 2 * w), carry);
    rem := All(r, w);
  }

  /** After the last bit, q and carry together are the quotient. */
  lemma LoopEnd(n: Dword, d: Dword, q: Dword, r: Dword, carry: nat, quot: nat, w: nat)
    requires w >= 2 && IsDword(n, w) && LoopInv(All(n, w), All(d, w), q, r, carry, 0, quot, w)
    ensures Or(ShiftLeft(All(q, w), 1, 2 * w), carry) == quot
    ensures DividesWith(All(n, w), All(d, w), quot, All(r, w))
  {
    Pow2Zero();
    Pow2One();
    AllBound(n, w);
    assert All(n, w) / 1 == All(n, w) && All(n, w) % 1 == 0;
    assert 0 * Pow2(2 * w) == 0;
    hide Pow2, Or, All;
    DivMod(quot, 2);
    MulMonotone(1, All(d, w), quot);
    DivModUnique(All(q, w) * 2, Pow2(2 * w), 0, All(q, w) * 2);
    OrDisjoint(quot / 2, carry, 1);
  }

  // ----- the branches that need no loop

  lemma SmallNumerator(n: Dword, d: Dword, w: nat)
    requires IsDword(n, w) && IsDword(d, w) && n.high == 0 && All(d, w) > 0
    ensures d.high == 0 ==> d.low > 0 && DividesWith(All(n, w), All(d, w), n.low / d.low, n.low % d.low)
    ensures d.high > 0 ==> DividesWith(All(n, w), All(d, w), 0, n.low)
  {
    hide Pow2;
    assert 0 * Pow2(w) == 0;
    if d.high == 0 {
      DivMod(n.low, d.low);
    } else {
      MulMonotone(1, d.high, Pow2(w));
      assert 0 * All(d, w) == 0;
    }
  }

  /** The divisor is a multiple of the word size: only the high halves divide. */
  lemma HighHalves(n: Dword, d: Dword, w: nat)
    requires IsDword(n, w) && IsDword(d, w) && d.low == 0 && d.high > 0
    ensures DividesWith(All(n, w), All(d, w), n.high / d.high, All(Dword(n.high % d.high, n.low), w))
  {
    hide Pow2;
    var (q, r, v) := (n.high / d.high, n.high % d.high, Pow2(w));
    DivMod(n.high, d.high);
    assert n.high * v == q * (d.high * v) + r * v by { assert n.high * v == (q * d.high + r) * v; }
    MulMonotone(r, d.high - 1, v);
    assert (d.high - 1) * v == d.high * v - v;
  }

  /** Dividing by a power of two with one mask and one shift. */
  lemma PowerDivisor(x: nat, d: nat, w: nat)
    requires d > 0 && d < Pow2(w) && And(d, d - 1) == 0
    ensures Ctz(d) < w && d == Pow2(Ctz(d))
    ensures And(x, d - 1) == x % d && ShiftRight(x, Ctz(d), w) == x / d
  {
    PowerOfTwoTest(d);
    AndLowMask(x, Ctz(d));
    if Ctz(d) >= w { Pow2Monotone(w, Ctz(d)); }
  }

  /** A one-word power of two below a two-word numerator. */
  lemma LowPowerDivisor(n: Dword, d: Dword, w: nat)
    requires w >= 2 && IsDword(n, w) && IsDword(d, w) && d.high == 0 && d.low > 1 && And(d.low, d.low - 1) == 0
    ensures 0 < Ctz(d.low) < w
    ensures var sr := Ctz(d.low);
            DividesWith(All(n, w), All(d, w),
              All(Dword(ShiftRight(n.high, sr, w), Or(ShiftLeft(n.high, w - sr, w), ShiftRight(n.low, sr, w))), w),
              And(n.low, d.low - 1))
  {
    PowerDivisor(n.low, d.low, w);
    Pow2Zero();
    hide Pow2, Or, And, Ctz, ShiftLeft, ShiftRight, Unread;
    var sr := Ctz(d.low);
    ShortStart(n, sr, w);
    LowBits(n, sr, w);
    DivMod(All(n, w), Pow2(sr));
    assert 0 * Pow2(w) == 0;
  }

  lemma ClzRange(x: nat, w: nat)
    requires 0 < x < Pow2(w)
    ensures 0 <= Clz(x, w) <= w - 1
    ensures Clz(x, w) == w - 1 ==> x == 1
  {
    LenBounds(x);
    LenAtMost(x, w);
    if x > 1 { LenTwo(x); }
  }

  lemma LenTwo(x: nat)
    requires x > 1
    ensures Len(x) >= 2
  {
  }

  /** The difference of two zero counts, in unsigned arithmetic: huge exactly when
      it is negative. */
  lemma ClzDifference(n: nat, d: nat, w: nat)
    requires w >= 2 && 0 < n < Pow2(w) && 0 < d < Pow2(w)
    ensures var sr := Sub(Clz(d, w), Clz(n, w), w);
            && (Clz(d, w) < Clz(n, w) <==> sr > w - 1)
            && (Clz(d, w) >= Clz(n, w) ==> sr == Clz(d, w) - Clz(n, w))
            && (sr == w - 1 ==> d == 1)
  {
    ClzRange(n, w);
    ClzRange(d, w);
    Pow2Large(w);
    hide Pow2, Clz;
    var diff := Clz(d, w) - Clz(n, w);
    if diff < 0 {
      DivModUnique(diff, Pow2(w), -1, diff + Pow2(w));
    } else {
      DivModUnique(diff, Pow2(w), 0, diff);
    }
  }

  /** The divisor's leading word is longer: the quotient is 0. */
  lemma LongerDivisor(n: Dword, d: Dword, w: nat)
    requires w >= 2 && IsDword(n, w) && IsDword(d, w) && n.high > 0 && d.high > 0
    requires Clz(d.high, w) < Clz(n.high, w)
    ensures DividesWith(All(n, w), All(d, w), 0, All(n, w))
  {
    hide Pow2, All;
    DwordLength(n, w);
    DwordLength(d, w);
    Pow2Monotone(w + Len(n.high), w + Len(d.high) - 1);
    assert 0 * All(d, w) == 0;
  }

  lemma {:induction false} Pow2Large(w: nat)
    requires w >= 1
    ensures Pow2(w) >= 2 * w
  {
    if w == 1 { Pow2One(); } else { Pow2Large(w - 1); }
  }

  /** The shift for a one-word divisor that is not a power of two. */
  lemma LowDivisorShift(n: Dword, d: Dword, w: nat)
    requires w >= 2 && IsDword(n, w) && IsDword(d, w) && n.high > 0 && d.high == 0 && d.low > 2
    ensures var sr := 1 + w + Clz(d.low, w) - Clz(n.high, w);
            && 2 <= sr <= 2 * w - 1 && sr == w + Len(n.high) - Len(d.low) + 1
            && HasLength(All(d, w), Len(d.low)) && Len(d.low) <= w
  {
    LenBounds(d.low);
    LenAtMost(d.low, w);
    LenBounds(n.high);
    LenAtMost(n.high, w);
    assert 0 * Pow2(w) == 0;
    LenTwo(d.low);
  }

  /** The three ways the branches set up q and r for a shift of sr. */
  method ShiftStart(n: Dword, sr: nat, w: nat) returns (q: Dword, r: Dword)
    requires w >= 2 && 1 <= sr <= 2 * w - 1 && IsDword(n, w)
    ensures Started(n, q, r, sr, w)
  {
    hide Pow2, Or, ShiftLeft, ShiftRight, Started;
    if sr == w {
      WordStart(n, w);
      q, r := Dword(n.low, 0), Dword(0, n.high);
    } else if sr < w {
      ShortStart(n, sr, w);
      q := Dword(ShiftLeft(n.low, w - sr, w), 0);
      r := Dword(ShiftRight(n.high, sr, w), Or(ShiftLeft(n.high, w - sr, w), ShiftRight(n.low, sr, w)));
    } else {
      LongStart(n, sr, w);
      q := Dword(Or(ShiftLeft(n.high, 2 * w - sr, w), ShiftRight(n.low, sr - w, w)), ShiftLeft(n.low, 2 * w - sr, w));
      r := Dword(0, ShiftRight(n.high, sr - w, w));
    }
  }

  /** How a branch ends: with the result, or with a shift of sr for the loop. */
  datatype Begin = Answer(quotient: nat, rem: nat) | Loop(q: Dword, r: Dword, sr: nat)

  ghost predicate BeginOk(n: Dword, d: Dword, b: Begin, w: nat) {
    match b
    case Answer(quotient, rem) => DividesWith(All(n, w), All(d, w), quotient, rem)
    case Loop(q, r, sr) => Ready(n, d, q, r, sr, w)
  }

  /** The branch for a divisor without a low half. */
  method HighDivisor(n: Dword, d: Dword, w: nat) returns (b: Begin)
    requires w >= 2 && IsDword(n, w) && IsDword(d, w) && n.high > 0 && d.low == 0 && d.high > 0
    ensures BeginOk(n, d, b, w)
  {
    hide Pow2, And, All, Clz, Ctz, ShiftRight, Sub, Started, Ready, DividesWith;
    HighHalves(n, d, w);
    if n.low == 0 {
      return Answer(n.high / d.high, All(Dword(n.high % d.high, 0), w));
    }
    if And(d.high, d.high - 1) == 0 {
      PowerDivisor(n.high, d.high, w);
      return Answer(ShiftRight(n.high, Ctz(d.high), w), All(Dword(And(n.high, d.high - 1), n.low), w));
    }
    ClzDifference(n.high, d.high, w);
    AndOfOne(d.high);
    var sr := Sub(Clz(d.high, w), Clz(n.high, w), w);
    if sr > w - 2 {
      LongerDivisor(n, d, w);
      return Answer(0, All(n, w));
    }
    sr := sr + 1;
    var q, r := ShiftStart(n, sr, w);
    HighStart(n, d, q, r, sr, w);
    b := Loop(q, r, sr);
  }

  /** The branch for a divisor without a high half. */
  method LowDivisor(n: Dword, d: Dword, w: nat) returns (b: Begin)
    requires w >= 2 && IsDword(n, w) && IsDword(d, w) && n.high > 0 && d.low > 0 && d.high == 0
    ensures BeginOk(n, d, b, w)
  {
    hide Pow2, And, Or, All, Clz, Ctz, Len, ShiftLeft, ShiftRight, Started, Ready, HasLength, DividesWith;
    if And(d.low, d.low - 1) == 0 {
      if d.low == 1 {
        DivideByOne(n, d, w);
        return Answer(All(n, w), And(n.low, d.low - 1));
      }
      LowPowerDivisor(n, d, w);
      var sr := Ctz(d.low);
      var q := Dword(ShiftRight(n.high, sr, w), Or(ShiftLeft(n.high, w - sr, w), ShiftRight(n.low, sr, w)));
      return Answer(All(q, w), And(n.low, d.low - 1));
    }
    SmallPowers(d.low);
    LowDivisorShift(n, d, w);
    var sr := 1 + w + Clz(d.low, w) - Clz(n.high, w);
    var q, r := ShiftStart(n, sr, w);
    DwordLength(n, w);
    StartCorrect(n, d, q, r, sr, w + Len(n.high), Len(d.low), w);
    b := Loop(q, r, sr);
  }

  /** The branch for a divisor with both halves. */
  method FullDivisor(n: Dword, d: Dword, w: nat) returns (b: Begin)
    requires w >= 2 && IsDword(n, w) && IsDword(d, w) && n.high > 0 && d.low > 0 && d.high > 0
    ensures BeginOk(n, d, b, w)
  {
    hide Pow2, All, Clz, Sub, Started, Ready, DividesWith;
    ClzDifference(n.high, d.high, w);
    var sr := Sub(Clz(d.high, w), Clz(n.high, w), w);
    if sr > w - 1 {
      LongerDivisor(n, d, w);
      return Answer(0, All(n, w));
    }
    sr := sr + 1;
    var q, r := ShiftStart(n, sr, w);
    HighStart(n, d, q, r, sr, w);
    b := Loop(q, r, sr);
  }

  /** __udivmoddi4 for every numerator and every nonzero divisor. */
  method Udivmoddi4(a: nat, b: nat, w: nat) returns (quotient: nat, rem: nat)
    requires w >= 2 && a < Pow2(2 * w) && 0 < b < Pow2(2 * w)
    ensures DividesWith(a, b, quotient, rem)
  {
    hide Pow2, All, Ready, DividesWith;
    var n, d := Split(a, w), Split(b, w);
    SplitAll(a, w);
    SplitAll(b, w);
    HalvesZero(n, w);
    HalvesZero(d, w);
    if n.high == 0 {
      SmallNumerator(n, d, w);
      if d.high == 0 {
        return n.low / d.low, n.low % d.low;
      }
      return 0, n.low;
    }
    var start: Begin;
    if d.low == 0 {
      // d.high == 0 would be a division by zero, which the caller excludes
      start := HighDivisor(n, d, w);
    } else if d.high == 0 {
      start := LowDivisor(n, d, w);
    } else {
      start := FullDivisor(n, d, w);
    }
    match start
    case Answer(q, r) => return q, r;
    case Loop(q, r, sr) => quotient, rem := DivideLoop(n, d, q, r, sr, w);
  }

  lemma HalvesZero(d: Dword, w: nat)
    ensures All(d, w) == 0 <==> d.high == 0 && d.low == 0
  {
    if d.high == 0 {
      assert 0 * Pow2(w) == 0;
    } else {
      MulMonotone(1, d.high, Pow2(w));
    }
  }

  lemma AndOfOne(x: nat)
    ensures x == 1 ==> And(x, x - 1) == 0
  {
  }

  /** 1 and 2 pass the power-of-two test, so what fails it exceeds 2. */
  lemma SmallPowers(x: nat)
    requires x > 0 && And(x, x - 1) != 0
    ensures x > 2
  {
    if x == 2 {
      AndHalves(2, 1);
    }
  }

  lemma DivideByOne(n: Dword, d: Dword, w: nat)
    requires d.high == 0 && d.low == 1
    ensures All(d, w) == 1 && DividesWith(All(n, w), All(d, w), All(n, w), And(n.low, d.low - 1))
  {
    assert 0 * Pow2(w) == 0;
  }

  lemma HighStart(n: Dword, d: Dword, q: Dword, r: Dword, sr: nat, w: nat)
    requires w >= 2 && IsDword(n, w) && IsDword(d, w) && n.high > 0 && d.high > 0
    requires sr == Clz(d.high, w) - Clz(n.high, w) + 1 && 1 <= sr <= w && Started(n, q, r, sr, w)
    ensures Ready(n, d, q, r, sr, w)
  {
    hide Pow2, All, Len, HasLength, Started, Ready;
    DwordLength(n, w);
    DwordLength(d, w);
    StartCorrect(n, d, q, r, sr, w + Len(n.high), w + Len(d.high), w);
  }
}
