/** The bits that Huffman decoding has at hand (fw/hpack.c:248-257): the low bits of a 16-bit word,
    filled from the bytes of the input. */
module HuffmanBuffer {
  import opened Headers
  import opened Powers
  import opened BitStrings

  ghost function ByteBits(s: Bytes): Bits {
    if s == [] then [] else BitsOf(s[0], 8) + ByteBits(s[1..])
  }

  /** Of the bits that are left, the first m are the low bits of the word; the others have not been
      taken from the input yet. */
  ghost predicate Buffered(hctx: nat, m: nat, src: Bytes, pos: nat, rest: Bits) {
    && hctx < 65536 && m <= 15 && m <= |rest| && pos <= |src|
    && hctx % Pow2(m) == Val(rest[..m]) && rest[m..] == ByteBits(src[pos..])
  }

  function Shifted(hctx: nat, b: byte): nat {
    (hctx * 256 + b) % 65536
  }

  /** Taking a byte. */
  lemma NextByte(hctx: nat, m: nat, src: Bytes, pos: nat, rest: Bits)
    requires Buffered(hctx, m, src, pos, rest) && m <= 7 && pos < |src|
    ensures Buffered(Shifted(hctx, src[pos]), m + 8, src, pos + 1, rest)
  {
    var b := src[pos];
    var x := BitsOf(b, 8);
    Pow2Values();
    ValOfSmall(b, 8);
    assert src[pos..][1..] == src[pos + 1..];
    assert rest[m..] == x + ByteBits(src[pos + 1..]);
    assert rest == rest[..m] + rest[m..];
    assert rest[..m + 8] == rest[..m] + x;
    assert rest[m + 8..] == ByteBits(src[pos + 1..]);
    ValAppend(rest[..m], x);
    ValBound(rest[..m + 8]);
    hide Val;
    hide BitsOf;
    hide ByteBits;
    ShiftIn(hctx, m, b, Val(rest[..m]));
  }

  lemma ShiftIn(hctx: nat, m: nat, b: nat, v: nat)
    requires m <= 7 && b < 256 && hctx % Pow2(m) == v
    ensures (hctx * 256 + b) % 65536 % Pow2(m + 8) == v * 256 + b
  {
    Pow2Values();
    Pow2Add(8, 8);
    Pow2Add(m, 8);
    LowBits(hctx * 256 + b, m + 8, 16);
    hide Pow2;
    ShiftUp256(hctx, Pow2(m), b, v);
  }

  lemma ShiftUp256(h: nat, p: nat, b: nat, v: nat)
    requires p >= 1 && b < 256 && h % p == v
    ensures (h * 256 + b) % (p * 256) == v * 256 + b
  {
    var q := h / p;
    DivMod(h, p);
    MulAssoc(q, p, 256);
    ModUnique(h * 256 + b, p * 256, q, v * 256 + b);
  }

  /** The next n bits, when there are so many. */
  lemma Peek(hctx: nat, m: nat, src: Bytes, pos: nat, rest: Bits, n: nat)
    requires Buffered(hctx, m, src, pos, rest) && n <= m
    ensures hctx / Pow2(m - n) % Pow2(n) == Val(rest[..n])
  {
    var x := rest[..m];
    assert x[..n] == rest[..n];
    ValPrefix(x, n);
    Pow2Add(n, m - n);
    ValBound(rest[..n]);
    hide Val;
    hide Pow2;
    TopOf(hctx, Pow2(n), Pow2(m - n), Val(x));
  }

  /** The upper part of the lower part of a number. */
  lemma TopOf(h: nat, a: nat, r: nat, v: nat)
    requires a >= 1 && r >= 1 && a * r >= 1 && h % (a * r) == v && v / r < a
    ensures h / r % a == v / r
  {
    var d := a * r;
    var q, t, c := h / d, v / r, v % r;
    DivMod(h, d);
    DivMod(v, r);
    MulAssoc(q, a, r);
    MulAdd(q * a, t, r);
    MulAtLeast(q * a, 0, 1);
    ModUnique(h, r, q * a + t, c);
    ModUnique(q * a + t, a, q, t);
  }

  /** The bits that are left, when they are at most n, with zeros behind them. */
  lemma PeekLast(hctx: nat, m: nat, src: Bytes, rest: Bits, n: nat, z: Bits)
    requires Buffered(hctx, m, src, |src|, rest) && m + |z| == n && forall i :: 0 <= i < |z| ==> !z[i]
    ensures m == |rest| && hctx * Pow2(n - m) % Pow2(n) == Val(rest + z)
  {
    assert rest[m..] == [];
    assert rest[..m] == rest;
    ValAppend(rest, z);
    AllZeros(z);
    ValBound(rest);
    Pow2Add(m, n - m);
    hide Val;
    hide Pow2;
    ShiftUp(hctx, Pow2(m), Pow2(n - m), Val(rest));
  }

  lemma ShiftUp(h: nat, p: nat, r: nat, v: nat)
    requires p >= 1 && r >= 1 && p * r >= 1 && h % p == v
    ensures h * r % (p * r) == v * r
  {
    var q := h / p;
    DivMod(h, p);
    MulAssoc(q, p, r);
    MulAdd(q * p, v, r);
    MulBelow(v, p, r);
    ModUnique(h * r, p * r, q, v * r);
  }

  lemma MulBelow(v: nat, p: nat, r: nat)
    requires v < p && r >= 1
    ensures v * r < p * r
  {
    MulAtLeast(p, v + 1, r);
  }

  lemma {:induction false} AllZeros(b: Bits)
    requires forall i :: 0 <= i < |b| ==> !b[i]
    ensures Val(b) == 0
  {
    if b != [] {
      AllZeros(b[..|b| - 1]);
    }
  }

  /** Using k bits up. */
  lemma Consume(hctx: nat, m: nat, src: Bytes, pos: nat, rest: Bits, k: nat)
    requires Buffered(hctx, m, src, pos, rest) && k <= m
    ensures Buffered(hctx, m - k, src, pos, rest[k..])
  {
    var x := rest[..m];
    ValPrefix(x, k);
    assert x[k..] == rest[k..][..m - k];
    assert rest[k..][m - k..] == rest[m..];
    LowBits(hctx, m - k, m);
  }
}
