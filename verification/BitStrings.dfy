/** Strings of bits, most significant first, and the numbers they stand for. */
module BitStrings {
  import opened Powers

  type Bits = seq<bool>

  function Val(b: Bits): nat {
    if b == [] then 0 else 2 * Val(b[..|b| - 1]) + if b[|b| - 1] then 1 else 0
  }

  /** The low n bits of a number. */
  function BitsOf(v: nat, n: nat): (b: Bits)
    ensures |b| == n
  {
    if n == 0 then [] else BitsOf(v / 2, n - 1) + [v % 2 == 1]
  }

  lemma {:induction false} ValBound(b: Bits)
    ensures Val(b) < Pow2(|b|)
  {
    if b != [] {
      ValBound(b[..|b| - 1]);
    }
  }

  lemma {:induction false} OfVal(b: Bits)
    ensures BitsOf(Val(b), |b|) == b
  {
    if b != [] {
      OfVal(b[..|b| - 1]);
      assert Val(b) / 2 == Val(b[..|b| - 1]);
    }
  }

  lemma {:induction false} ValOf(v: nat, n: nat)
    ensures Val(BitsOf(v, n)) == v % Pow2(n)
  {
    if n > 0 {
      ValOf(v / 2, n - 1);
      assert BitsOf(v, n)[..n - 1] == BitsOf(v / 2, n - 1);
      HalfMod(v, Pow2(n - 1));
    }
  }

  lemma ValOfSmall(v: nat, n: nat)
    requires v < Pow2(n)
    ensures Val(BitsOf(v, n)) == v
  {
    ValOf(v, n);
    hide *;
    ModUnique(v, Pow2(n), 0, v);
  }

  lemma HalfMod(v: nat, p: nat)
    requires p >= 1
    ensures v % (2 * p) == 2 * ((v / 2) % p) + v % 2
  {
    var h := v / 2;
    var q, r := h / p, h % p;
    assert v == 2 * h + v % 2 && h == q * p + r;
    assert v == q * (2 * p) + (2 * r + v % 2);
    ModUnique(v, 2 * p, q, 2 * r + v % 2);
  }

  lemma {:induction false} ValAppend(a: Bits, b: Bits)
    ensures Val(a + b) == Val(a) * Pow2(|b|) + Val(b)
  {
    if b == [] {
      assert a + b == a;
    } else {
      var c := b[..|b| - 1];
      ValAppend(a, c);
      assert (a + b)[..|a + b| - 1] == a + c;
      assert 2 * (Val(a) * Pow2(|c|)) == Val(a) * Pow2(|b|);
    }
  }

  /** Bits of one length are told apart by their number. */
  lemma ValInjective(a: Bits, b: Bits)
    requires |a| == |b| && Val(a) == Val(b)
    ensures a == b
  {
    OfVal(a);
    OfVal(b);
  }

  /** The number of the first k bits. */
  lemma ValPrefix(b: Bits, k: nat)
    requires k <= |b|
    ensures Val(b[..k]) == Val(b) / Pow2(|b| - k) && Val(b[k..]) == Val(b) % Pow2(|b| - k)
  {
    hide Val;
    hide Pow2;
    var x, y, p := Val(b[..k]), Val(b[k..]), Pow2(|b| - k);
    ValAppend(b[..k], b[k..]);
    assert b == b[..k] + b[k..];
    ValBound(b[k..]);
    ModUnique(Val(b), p, x, y);
  }

  lemma ModOfMod(x: nat, p: nat, q: nat)
    requires p >= 1 && q >= 1 && q * p >= 1
    ensures x % (q * p) % p == x % p
  {
    var d := q * p;
    var a, r := x / d, x % d;
    var b, c := r / p, r % p;
    DivMod(x, d);
    DivMod(r, p);
    MulAssoc(a, q, p);
    MulAdd(a * q, b, p);
    MulAtLeast(a * q, 0, 1);
    ModUnique(x, p, a * q + b, c);
  }

  /** Only the low bits of a number count for its lower bits. */
  lemma LowBits(x: nat, m: nat, n: nat)
    requires m <= n
    ensures x % Pow2(n) % Pow2(m) == x % Pow2(m)
  {
    Pow2Add(n - m, m);
    hide Pow2;
    ModOfMod(x, Pow2(m), Pow2(n - m));
  }
}
