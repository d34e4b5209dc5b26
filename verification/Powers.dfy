/** Powers of two and power-of-two alignment, used by the allocators, the
    page tables and the 64-bit arithmetic. */
module Powers {
  function Pow2(n: nat): (p: nat)
    ensures p >= 1
  {
    if n == 0 then 1 else 2 * Pow2(n - 1)
  }

  predicate Aligned(a: nat, n: nat) {
    a % Pow2(n) == 0
  }

  lemma Pow2Zero()
    ensures Pow2(0) == 1
  {
  }

  lemma {:induction false} Pow2Add(m: nat, n: nat)
    ensures Pow2(m + n) == Pow2(m) * Pow2(n)
  {
    if m > 0 {
      Pow2Add(m - 1, n);
      assert Pow2(m + n) == 2 * (Pow2(m - 1) * Pow2(n));
    }
  }

  lemma {:induction false} Pow2Monotone(m: nat, n: nat)
    requires m <= n
    ensures Pow2(m) <= Pow2(n)
    decreases n
  {
    if m < n {
      Pow2Monotone(m, n - 1);
    }
  }

  /** The powers that name page, block and table sizes. */
  lemma PowerTable()
    ensures Pow2(5) == 32 && Pow2(6) == 64 && Pow2(7) == 128 && Pow2(8) == 256 && Pow2(9) == 512
    ensures Pow2(10) == 1024 && Pow2(11) == 2048 && Pow2(12) == 4096 && Pow2(22) == 0x400000 && Pow2(39) == 0x8000000000
  {
    assert Pow2(5) == 32;
    assert Pow2(6) == 64;
    assert Pow2(7) == 128;
    assert Pow2(8) == 256;
    assert Pow2(9) == 512;
    assert Pow2(10) == 1024;
    assert Pow2(11) == 2048;
    assert Pow2(12) == 4096;
    Pow2Add(12, 10);
    Pow2Add(22, 12);
    Pow2Add(34, 5);
  }

  /** The one place where division facts are taken from their definition. */
  lemma DivModUnique(a: int, m: int, q: int, r: int)
    requires 0 <= r < m
    requires a == q * m + r
    ensures a / m == q && a % m == r
  {
    var q' := a / m;
    assert a == m * q' + a % m;
    if q' > q {
      MulMonotone(1, q' - q, m);
    } else if q' < q {
      MulMonotone(1, q - q', m);
    }
  }

  lemma MulMonotone(a: int, b: int, m: int)
    requires a <= b && 0 <= m
    ensures a * m <= b * m
  {
  }

  /** The C shift n << e, where it does not overflow. */
  function Shl(n: nat, e: nat): (r: nat)
    ensures r == n * Pow2(e)
  {
    MulMonotone(0, n, Pow2(e));
    n * Pow2(e)
  }

  function Quotient(a: nat, m: nat): (q: nat)
    requires m > 0
    ensures q == a / m
  {
    a / m
  }

  lemma ModOfMultiple(q: int, m: int)
    requires m > 0
    ensures (q * m) % m == 0 && (q * m) / m == q
  {
    DivModUnique(q * m, m, q, 0);
  }

  lemma ZeroAligned(n: nat)
    ensures Aligned(0, n)
  {
  }

  lemma MultipleOfAligned(a: nat, n: nat)
    requires Aligned(a, n)
    ensures a == (a / Pow2(n)) * Pow2(n)
  {
    var m := Pow2(n);
    assert a == m * (a / m) + a % m;
  }

  lemma AlignedSum(a: nat, b: nat, n: nat)
    requires Aligned(a, n) && Aligned(b, n)
    ensures Aligned(a + b, n)
  {
    MultipleOfAligned(a, n);
    MultipleOfAligned(b, n);
    var m := Pow2(n);
    assert a + b == (a / m + b / m) * m;
    ModOfMultiple(a / m + b / m, m);
  }

  lemma AlignedWeaken(a: nat, n: nat, m: nat)
    requires m <= n && Aligned(a, n)
    ensures Aligned(a, m)
  {
    MultipleOfAligned(a, n);
    Pow2Add(n - m, m);
    assert a == (a / Pow2(n) * Pow2(n - m)) * Pow2(m);
    ModOfMultiple(a / Pow2(n) * Pow2(n - m), Pow2(m));
  }

  lemma AlignedPow2(n: nat, m: nat)
    requires m <= n
    ensures Aligned(Pow2(n), m)
  {
    Pow2Add(n - m, m);
    ModOfMultiple(Pow2(n - m), Pow2(m));
  }

  lemma AlignedHalves(a: nat, n: nat)
    requires n > 0 && Aligned(a, n)
    ensures Aligned(a, n - 1) && Aligned(a + Pow2(n - 1), n - 1)
  {
    AlignedWeaken(a, n, n - 1);
    AlignedPow2(n - 1, n - 1);
    AlignedSum(a, Pow2(n - 1), n - 1);
  }

  /** Grid points are at least a block apart. */
  lemma GridStep(a: nat, b: nat, c: nat)
    requires Aligned(a, c) && Aligned(b, c) && a < b
    ensures a + Pow2(c) <= b
  {
    MultipleOfAligned(a, c);
    MultipleOfAligned(b, c);
    var m := Pow2(c);
    hide Pow2;
    if b / m <= a / m { MulMonotone(b / m, a / m, m); }
    MulMonotone(a / m + 1, b / m, m);
  }
}
