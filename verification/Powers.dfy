/** Powers of two, and what little arithmetic goes with them. */
module Powers {

  function Pow2(n: nat): (p: nat)
    ensures p >= 1
  {
    if n == 0 then 1 else 2 * Pow2(n - 1)
  }

  lemma {:induction false} Pow2Monotone(m: nat, n: nat)
    requires m <= n
    ensures Pow2(m) <= Pow2(n)
  {
    if m < n {
      Pow2Monotone(m, n - 1);
    }
  }

  lemma {:induction false} Pow2Add(m: nat, n: nat)
    ensures Pow2(m + n) == Pow2(m) * Pow2(n)
  {
    if m > 0 {
      Pow2Add(m - 1, n);
      assert 2 * (Pow2(m - 1) * Pow2(n)) == (2 * Pow2(m - 1)) * Pow2(n);
    }
  }

  lemma Pow2Values()
    ensures Pow2(0) == 1 && Pow2(1) == 2 && Pow2(2) == 4 && Pow2(3) == 8 && Pow2(4) == 16
    ensures Pow2(5) == 32 && Pow2(6) == 64 && Pow2(7) == 128 && Pow2(8) == 256
  {
    assert Pow2(4) == 16;
  }

  lemma MulAtLeast(a: int, b: int, p: nat)
    requires a >= b
    ensures a * p >= b * p
  {}

  const TWO32 := 0x1_0000_0000

  lemma Pow2Is32()
    ensures Pow2(32) == TWO32
  {
    Pow2Values();
    Pow2Add(8, 8);
    Pow2Add(16, 16);
  }

  lemma Pow2Sevens()
    ensures Pow2(7) == 0x80 && Pow2(14) == 0x4000 && Pow2(21) == 0x200000 && Pow2(28) == 0x10000000
  {
    Pow2Values();
    Pow2Add(7, 7);
    Pow2Add(14, 7);
    Pow2Add(14, 14);
  }

  lemma DivMod(x: nat, d: nat)
    requires d >= 1
    ensures x == (x / d) * d + x % d && 0 <= x % d < d && x / d >= 0
  {}

  lemma MulAssoc(a: int, b: int, c: int)
    ensures a * (b * c) == (a * b) * c
  {}

  lemma MulAdd(a: int, b: int, c: int)
    ensures (a + b) * c == a * c + b * c
  {}

  function Over(x: nat, p: nat): nat
    requires p >= 1
  {
    x / p
  }

  /** Division is determined by its result. */
  lemma ModUnique(v: nat, p: nat, q: nat, r: nat)
    requires p >= 1 && v == q * p + r && r < p
    ensures v % p == r && v / p == q
  {
    var q', r' := v / p, v % p;
    assert v == q' * p + r' && 0 <= r' < p;
    if q' > q {
      MulAtLeast(q', q + 1, p);
    } else if q' < q {
      MulAtLeast(q, q' + 1, p);
    }
  }
}
