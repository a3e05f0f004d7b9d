/** Huffman encoding (fw/hpack.c:3231-3352): codes are joined in a word of 64 bits, which is written
    in big-endian order whenever it is full. */
module HuffmanEncoder {
  import opened Headers
  import opened Powers
  import opened BitStrings
  import opened HuffmanTables
  import opened HuffmanCode
  import opened HuffmanState
  import opened HuffmanBuffer
  import opened HuffmanDecoder

  // ----- words

  /** The low n bytes of a number, most significant first. */
  function BigEndian(v: nat, n: nat): (b: Bytes)
    ensures |b| == n
  {
    if n == 0 then [] else BigEndian(v / 256, n - 1) + [v % 256]
  }

  lemma {:induction false} ByteBitsAppend(a: Bytes, b: Bytes)
    ensures ByteBits(a + b) == ByteBits(a) + ByteBits(b)
  {
    hide BitsOf;
    if a == [] {
      assert a + b == b;
    } else {
      assert (a + b)[1..] == a[1..] + b;
      ByteBitsAppend(a[1..], b);
    }
  }

  lemma {:induction false} ByteBitsLength(a: Bytes)
    ensures |ByteBits(a)| == 8 * |a|
  {
    hide BitsOf;
    if a != [] {
      ByteBitsLength(a[1..]);
    }
  }

  lemma {:induction false} BitsOfSplit(v: nat, n: nat, k: nat, a: nat, b: nat)
    requires k <= n && v == a * Pow2(k) + b && b < Pow2(k)
    ensures BitsOf(v, n) == BitsOf(a, n - k) + BitsOf(b, k)
    decreases k
  {
    if k > 0 {
      var p := Pow2(k - 1);
      MulAssoc(a, p, 2);
      assert v == 2 * (a * p) + b;
      BitsOfSplit(v / 2, n - 1, k - 1, a, b / 2);
    }
  }

  /** The bytes of a word are its bits. */
  lemma {:induction false} BigEndianBits(v: nat, n: nat)
    ensures ByteBits(BigEndian(v, n)) == BitsOf(v, 8 * n)
  {
    if n > 0 {
      BigEndianBits(v / 256, n - 1);
      ByteBitsAppend(BigEndian(v / 256, n - 1), [v % 256]);
      Pow2Values();
      BitsOfSplit(v, 8 * n, 8, v / 256, v % 256);
      assert [v % 256][1..] == [];
      assert ByteBits([v % 256]) == BitsOf(v % 256, 8) + [];
    }
  }

  function Wrap64(x: nat): (w: nat)
    ensures w < 0x1_0000_0000_0000_0000
  {
    x % 0x1_0000_0000_0000_0000
  }

  /** A word shifted to the left, with bits put in their place. */
  function Join(word: nat, len: nat, b: nat): (w: nat)
    ensures w < 0x1_0000_0000_0000_0000
  {
    Wrap64(word * Pow2(len) + b)
  }

  lemma LowOfWrap(x: nat, m: nat)
    requires m <= 64
    ensures Wrap64(x) % Pow2(m) == x % Pow2(m)
  {
    Pow2SixtyFour();
    LowBits(x, m, 64);
  }

  lemma Pow2SixtyFour()
    ensures Pow2(64) == 0x1_0000_0000_0000_0000
  {
    Pow2Values();
    Pow2Add(8, 8);
    Pow2Add(16, 16);
    Pow2Add(32, 32);
  }

  lemma ShiftAppend(h: nat, p: nat, r: nat, b: nat, v: nat)
    requires p >= 1 && r >= 1 && p * r >= 1 && h % p == v && b < r
    ensures (h * r + b) % (p * r) == v * r + b
  {
    var q := h / p;
    DivMod(h, p);
    MulAssoc(q, p, r);
    MulAdd(q * p, v, r);
    MulAdd(v, 1, r);
    MulAtLeast(p, v + 1, r);
    ModUnique(h * r + b, p * r, q, v * r + b);
  }

  /** The word holds the bits that wait. */
  ghost predicate Holds(word: nat, wait: Bits) {
    |wait| <= 64 && word % Pow2(|wait|) == Val(wait)
  }

  /** Joining more bits. */
  lemma JoinBits(word: nat, wait: Bits, x: Bits)
    requires Holds(word, wait) && |wait| + |x| <= 64
    ensures Holds(Join(word, |x|, Val(x)), wait + x)
  {
    hide Val;
    hide Pow2;
    hide Wrap64;
    var l := |x|;
    ValAppend(wait, x);
    ValBound(x);
    Pow2Add(|wait|, l);
    LowOfWrap(word * Pow2(l) + Val(x), |wait| + l);
    ShiftAppend(word, Pow2(|wait|), Pow2(l), Val(x), Val(wait));
  }

  // ----- the buffer

  /** The low n bytes of a number, least significant first. */
  function LittleEndian(v: nat, n: nat): (b: Bytes)
    ensures |b| == n
  {
    if n == 0 then [] else [v % 256] + LittleEndian(v / 256, n - 1)
  }

  /** The buffer and the pointer into it. The pointer is one to words of eight bytes, and so it moves
      by eight where a byte is written through it and it is counted up (fw/hpack.c:3266). */
  class Dest {
    const buf: array<byte>
    /** The distance of the pointer from the start of the buffer. */
    var p: nat
    /** How many bytes have been written behind the buffer. */
    var stray: nat

    constructor (buf0: array<byte>)
      ensures buf == buf0 && p == stray == 0
    {
      buf, p, stray := buf0, 0, 0;
    }

    /** One byte at the given distance. */
    method Put(at: nat, b: byte)
      modifies this`stray, buf
      ensures if at < buf.Length then stray == old(stray) && buf[..] == old(buf[..])[at := b]
              else stray == old(stray) + 1 && buf[..] == old(buf[..])
    {
      if at < buf.Length {
        buf[at] := b;
      } else {
        stray := stray + 1;
      }
    }

    /** All bytes at once, within the buffer. */
    method Inside(bytes: Bytes)
      requires p + |bytes| <= buf.Length
      modifies this`p, this`stray, buf
      ensures p == old(p) + |bytes| && stray == old(stray)
      ensures buf[..] == old(buf[..p]) + bytes + old(buf[p + |bytes|..])
    {
      for k := 0 to |bytes|
        invariant stray == old(stray) && p == old(p) && buf[p..p + k] == bytes[..k]
        invariant buf[..p] == old(buf[..p]) && buf[p + k..] == old(buf[p + k..])
      {
        ghost var now := buf[..];
        Put(p + k, bytes[k]);
        assert buf[..] == now[p + k := bytes[k]];
        assert buf[p..p + k + 1] == buf[p..p + k] + [bytes[k]];
      }
      p := p + |bytes|;
    }

    /** All bytes at once, behind the buffer. */
    method Behind(bytes: Bytes)
      requires p > buf.Length && bytes != []
      modifies this`p, this`stray, buf
      ensures p == old(p) + |bytes| && stray == old(stray) + |bytes| && buf[..] == old(buf[..])
    {
      for k := 0 to |bytes|
        invariant stray == old(stray) + k && p == old(p) && buf[..] == old(buf[..])
      {
        Put(p + k, bytes[k]);
      }
      p := p + |bytes|;
    }

    /** Byte by byte (fw/hpack.c:3260-3269): the end of the buffer is an error only where it is met
        exactly. */
    method WriteBytes(raw: Bytes) returns (ok: bool)
      requires p <= buf.Length < p + |raw| <= p + 8
      modifies this`p, this`stray, buf
      ensures ok <==> old(p) < buf.Length
      ensures if ok then p > buf.Length && stray > old(stray)
              else p == old(p) && stray == old(stray) && buf[..] == old(buf[..])
    {
      var k := 0;
      while k < |raw|
        invariant 0 <= k <= |raw|
        invariant if k == 0 then p == old(p) && stray == old(stray) && buf[..] == old(buf[..])
                  else old(p) < buf.Length < p && stray == old(stray) + k - 1
      {
        if p == buf.Length {
          return false;
        }
        Put(p, raw[k]);
        p := p + 8;
        k := k + 1;
      }
      ok := true;
    }

    /** A piece of one, two, four or eight bytes: at once, if the difference to the end, which is
        taken for an unsigned number, is large enough, and otherwise byte by byte
        (fw/hpack.c:3288-3294, 3312-3317, 3321-3326, 3331-3336, 3341-3343). */
    method Store(bytes: Bytes, raw: Bytes) returns (ok: bool)
      requires 1 <= |bytes| == |raw| <= 8
      modifies this`p, this`stray, buf
      ensures ok <==> old(p) != buf.Length
      ensures old(p) + |bytes| <= buf.Length ==>
                && p == old(p) + |bytes| && stray == old(stray)
                && buf[..] == old(buf[..p]) + bytes + old(buf[p + |bytes|..])
      ensures old(p) + |bytes| > buf.Length && ok ==> p > buf.Length && stray > old(stray)
      ensures !ok ==> p == old(p) && stray == old(stray) && buf[..] == old(buf[..])
    {
      if p > buf.Length {
        Behind(bytes);
        ok := true;
      } else if buf.Length - p >= |bytes| {
        Inside(bytes);
        ok := true;
      } else {
        ok := WriteBytes(raw);
      }
    }
  }

  /** What has been written and what waits in the word are the codes so far. */
  ghost predicate Packed(written: Bytes, wait: Bits, word: nat, t: Bytes) {
    ByteBits(written) + wait == Codes(t) && Holds(word, wait)
  }

  /** How many bytes the encoded string takes (fw/hpack.c:3231-3248). */
  method EncodedLength(src: Bytes) returns (n: nat)
    ensures n == (|Codes(src)| + 7) / 8
  {
    hide Code;
    hide HtLength;
    var bits := 0;
    assert src[..0] == [];
    for i := 0 to |src|
      invariant bits == |Codes(src[..i])|
    {
      assert src[..i + 1] == src[..i] + [src[i]];
      CodesAppend(src[..i], src[i]);
      CodeBound(src[i]);
      bits := bits + HtLength(src[i]);
    }
    assert src[..|src|] == src;
    n := (bits + 7) / 8;
  }

  /** A code that fits in the word. */
  lemma PushFits(written: Bytes, wait: Bits, word: nat, t: Bytes, s: byte)
    requires Packed(written, wait, word, t) && |wait| + |Code(s)| <= 64
    ensures Packed(written, wait + Code(s), Join(word, |Code(s)|, Val(Code(s))), t + [s])
  {
    hide Code;
    hide Holds;
    hide Join;
    CodesAppend(t, s);
    JoinBits(word, wait, Code(s));
    assert ByteBits(written) + (wait + Code(s)) == ByteBits(written) + wait + Code(s);
  }

  /** A code that fills the word: the word is written, and the rest of the code waits. */
  lemma PushFills(written: Bytes, wait: Bits, word: nat, t: Bytes, s: byte)
    requires Packed(written, wait, word, t) && |wait| <= 64 < |wait| + |Code(s)| && |Code(s)| <= 64
    ensures var c := Code(s); var d := 64 - |wait|;
            Packed(written + BigEndian(Join(word, d, Val(c[..d])), 8), c[d..], Val(c), t + [s])
  {
    hide Code;
    hide Join;
    hide BigEndian;
    hide Holds;
    hide ByteBits;
    var c, d := Code(s), 64 - |wait|;
    CodesAppend(t, s);
    var w := Join(word, d, Val(c[..d]));
    JoinBits(word, wait, c[..d]);
    FullWord(w, wait + c[..d]);
    ByteBitsAppend(written, BigEndian(w, 8));
    HoldsTail(c, d);
    SplitCode(ByteBits(written), wait, c, d);
  }

  lemma HoldsTail(c: Bits, d: nat)
    requires d <= |c| <= d + 64
    ensures Holds(Val(c), c[d..])
  {
    hide Val;
    hide Pow2;
    ValPrefix(c, d);
  }

  lemma SplitCode(a: Bits, wait: Bits, c: Bits, d: nat)
    requires d <= |c|
    ensures a + (wait + c[..d]) + c[d..] == a + wait + c
  {}

  /** The bytes of a full word. */
  lemma FullWord(w: nat, wait: Bits)
    requires Holds(w, wait) && |wait| == 64 && w < 0x1_0000_0000_0000_0000
    ensures ByteBits(BigEndian(w, 8)) == wait
  {
    hide *;
    Pow2SixtyFour();
    BigEndianBits(w, 8);
    HoldsIs(w, wait);
    ModUnique(w, Pow2(64), 0, w);
    OfVal(wait);
  }

  lemma HoldsIs(word: nat, wait: Bits)
    requires Holds(word, wait)
    ensures |wait| <= 64 && word % Pow2(|wait|) == Val(wait)
  {
    hide Pow2;
    hide Val;
  }

  /** The bits that wait, moved to the upper end of the word, are its first bytes. */
  lemma TopBytes(word: nat, wait: Bits, k: nat)
    requires Holds(word, wait) && |wait| == 8 * k
    ensures ByteBits(BigEndian(Join(word, 64 - |wait|, 0), 8)[..k]) == wait
  {
    hide Pow2;
    hide Val;
    hide Join;
    hide BigEndian;
    hide BitsOf;
    hide ByteBits;
    var z := Zeros(64 - |wait|);
    AllZeros(z);
    JoinBits(word, wait, z);
    var w := Join(word, 64 - |wait|, 0);
    FullWord(w, wait + z);
    var b := BigEndian(w, 8);
    ByteBitsAppend(b[..k], b[k..]);
    assert b == b[..k] + b[k..];
    ByteBitsLength(b[..k]);
    assert (wait + z)[..8 * k] == wait;
    assert (ByteBits(b[..k]) + ByteBits(b[k..]))[..8 * k] == ByteBits(b[..k]);
  }

  /** All the codes and the padding. */
  lemma Complete(written: Bytes, wait: Bits, t: Bytes, ones: Bits, last: Bytes)
    requires ByteBits(written) + wait == Codes(t) && ByteBits(last) == wait + ones && Padding(ones)
    ensures Encodes(ByteBits(written + last), t) && |written + last| == (|Codes(t)| + 7) / 8
  {
    hide ByteBits;
    hide Codes;
    ByteBitsAppend(written, last);
    ByteBitsLength(written + last);
    var b := ByteBits(written + last);
    assert b == Codes(t) + ones;
    assert b[|Codes(t)|..] == ones;
  }

  lemma {:induction false} CodesGrow(t: Bytes, k: nat)
    requires k <= |t|
    ensures |Codes(t[..k])| <= |Codes(t)|
    decreases |t| - k
  {
    hide Codes;
    hide Code;
    if k < |t| {
      CodesGrow(t, k + 1);
      assert t[..k + 1] == t[..k] + [t[k]];
      CodesAppend(t[..k], t[k]);
    } else {
      assert t[..k] == t;
    }
  }

  /** Nothing has been written behind the buffer, and the bytes before the pointer are right. */
  ghost predicate Fine(d: Dest, wait: Bits, word: nat, t: Bytes)
    reads d, d.buf
  {
    d.stray == 0 && d.p <= d.buf.Length && d.p % 8 == 0 && Packed(d.buf[..d.p], wait, word, t)
  }

  /** A word was begun within the buffer and ended behind it; since then the pointer is behind it. */
  ghost predicate Astray(d: Dest, t: Bytes)
    reads d, d.buf
  {
    d.stray > 0 && d.p > d.buf.Length && d.buf.Length % 8 != 0 && |Codes(t)| > 64 * (d.buf.Length / 8 + 1)
  }

  /** A word that begins at a multiple of eight ends behind the buffer. */
  lemma WordEnds(p: nat, length: nat)
    requires p % 8 == 0 && p < length < p + 8
    ensures length % 8 != 0 && 8 * (length / 8) == p
  {}

  /** A full word is written (fw/hpack.c:3288-3294), bits being more than the codes it ends. */
  method Flush(dst: Dest, full: nat, ghost bits: nat) returns (ok: bool)
    requires dst.stray == 0 ==> dst.p <= dst.buf.Length && dst.p % 8 == 0 && bits > 8 * dst.p + 64
    requires dst.stray > 0 ==> dst.p > dst.buf.Length
    modifies dst, dst.buf
    ensures !ok ==> dst.stray == old(dst.stray) == 0 && dst.buf.Length % 8 == 0 && bits > 8 * dst.buf.Length + 64
    ensures dst.stray == 0 && ok ==> dst.p == old(dst.p) + 8 <= dst.buf.Length && dst.p % 8 == 0
    ensures dst.stray == 0 && ok ==>
              && dst.buf[..dst.p] == old(dst.buf[..dst.p]) + BigEndian(full, 8)
              && dst.buf[dst.p..] == old(dst.buf[..])[dst.p..]
    ensures dst.stray > 0 ==> ok && dst.p > dst.buf.Length
    ensures dst.stray > old(dst.stray) == 0 ==> dst.buf.Length % 8 != 0 && bits > 64 * (dst.buf.Length / 8 + 1)
    ensures old(dst.stray) > 0 ==> dst.stray > 0
  {
    hide BigEndian;
    hide LittleEndian;
    ghost var before, p := dst.buf[..], dst.p;
    if p < dst.buf.Length < p + 8 && p % 8 == 0 {
      WordEnds(p, dst.buf.Length);
    }
    ok := dst.Store(BigEndian(full, 8), LittleEndian(full, 8));
    if dst.stray == 0 && ok {
      assert dst.buf[..p + 8] == before[..p] + BigEndian(full, 8);
    }
  }

  /** One symbol (fw/hpack.c:3277-3296). */
  method Push(dst: Dest, off: nat, word: nat, s: byte, ghost wait: Bits, ghost t: Bytes)
      returns (ok: bool, off': nat, word': nat, ghost wait': Bits)
    requires off == |wait| <= 64 && (Fine(dst, wait, word, t) || Astray(dst, t))
    modifies dst, dst.buf
    ensures ok ==> 0 < off' == |wait'| <= 64 && (Fine(dst, wait', word', t + [s]) || Astray(dst, t + [s]))
    ensures ok && dst.stray == 0 ==> old(dst.p) <= dst.p && dst.buf[dst.p..] == old(dst.buf[..])[dst.p..]
    ensures !ok ==> dst.stray == 0 && dst.buf.Length % 8 == 0 && |Codes(t + [s])| > 8 * dst.buf.Length + 64
  {
    hide Packed;
    hide Code;
    hide Codes;
    hide Join;
    hide HtCode;
    hide BigEndian;
    ghost var c := Code(s);
    CodeBound(s);
    HomeFacts(s);
    CodeShort(s);
    hide HtEncode;
    hide HtLength;
    hide Pow2;
    hide Val;
    CodesAppend(t, s);
    var d, e, l := 64 - off, HtEncode(s), HtLength(s);
    ok, off' := true, off + l;
    if l <= d {
      word' := Join(word, l, e);
      if dst.stray == 0 {
        PushFits(dst.buf[..dst.p], wait, word, t, s);
      }
      wait' := wait + c;
    } else {
      off' := off' - 64;
      ValPrefix(c, d);
      var full := Join(word, d, Over(e, Pow2(off')));
      if dst.stray == 0 {
        PackedLength(dst.buf[..dst.p], wait, word, t);
        PushFills(dst.buf[..dst.p], wait, word, t, s);
      }
      ok := Flush(dst, full, |Codes(t + [s])|);
      word' := e;
      wait' := c[d..];
    }
  }

  lemma PackedLength(written: Bytes, wait: Bits, word: nat, t: Bytes)
    requires Packed(written, wait, word, t)
    ensures |Codes(t)| == 8 * |written| + |wait|
  {
    hide ByteBits;
    hide Codes;
    ByteBitsLength(written);
  }

  lemma CodeShort(s: nat)
    requires s < 256
    ensures 1 <= HtLength(s) <= 30
  {
    if s < 128 {
      CodeShortLow(s);
    } else {
      CodeShortHigh(s);
    }
  }

  lemma CodeShortLow(s: nat)
    requires s < 128
    ensures 1 <= HtLength(s) <= 30
  {}

  lemma CodeShortHigh(s: nat)
    requires 128 <= s < 256
    ensures 1 <= HtLength(s) <= 30
  {}

  /** The end of the buffer is where a piece begins, n bytes being left to write and left bytes of
      room: four, two and one of less than eight bytes are pieces. */
  predicate Between(left: nat, n: nat) {
    left == 0 || (n < 8 && (left == 4 || (n % 2 == 1 && left == n - 1)))
  }

  /** The buffer as it was, with the first k bytes of the word at p. */
  ghost predicate Written(now: Bytes, orig: Bytes, p: nat, word: Bytes, k: nat) {
    k <= |word| && p + k <= |orig| && now == orig[..p] + word[..k] + orig[p + k..]
  }

  lemma WrittenMore(now: Bytes, orig: Bytes, p: nat, word: Bytes, k: nat, n: nat, next: Bytes)
    requires Written(now, orig, p, word, k) && k + n <= |word| && p + k + n <= |orig| && |now| == |orig|
    requires next == now[..p + k] + word[k..k + n] + now[p + k + n..]
    ensures Written(next, orig, p, word, k + n)
  {
    assert word[..k + n] == word[..k] + word[k..k + n];
  }

  /** One piece of the last bytes. */
  method StorePiece(dst: Dest, word: Bytes, k: nat, n: nat, ghost p: nat, ghost orig: Bytes) returns (ok: bool)
    requires k + n <= |word| == 8 && n > 0 && |orig| == dst.buf.Length
    requires if dst.stray == 0 then dst.p == p + k <= |orig| && Written(dst.buf[..], orig, p, word, k)
             else dst.p > |orig|
    modifies dst, dst.buf
    ensures ok <==> old(dst.p) != |orig|
    ensures dst.stray == 0 && ok ==> dst.p == p + k + n <= |orig| && Written(dst.buf[..], orig, p, word, k + n)
    ensures dst.stray > 0 ==> dst.p > |orig|
    ensures dst.stray == 0 <==> old(dst.stray) == 0 && (!ok || p + k + n <= |orig|)
  {
    hide Written;
    ghost var now := dst.buf[..];
    ok := dst.Store(word[k..k + n], word[k..k + n]);
    if dst.stray == 0 && ok {
      assert now[..p + k] == old(dst.buf[..p + k]) && now[p + k + n..] == old(dst.buf[p + k + n..]);
      WrittenMore(now, orig, p, word, k, n, dst.buf[..]);
    }
  }

  /** The last bytes, in pieces of four, two and one, or all eight (fw/hpack.c:3311-3344). */
  method StoreLast(dst: Dest, word: Bytes, off: nat) returns (ok: bool)
    requires |word| == 8 && off % 8 == 0 && 0 < off <= 64
    requires dst.stray == 0 <==> dst.p <= dst.buf.Length
    modifies dst, dst.buf
    ensures old(dst.stray) > 0 ==> ok && dst.stray > 0
    ensures old(dst.stray) == 0 ==>
      (!ok <==> dst.buf.Length < old(dst.p) + off / 8 && Between(dst.buf.Length - old(dst.p), off / 8))
    ensures old(dst.stray) == 0 ==> (dst.stray == 0 <==> !ok || old(dst.p) + off / 8 <= dst.buf.Length)
    ensures old(dst.p) + off / 8 <= dst.buf.Length ==>
              dst.buf[..] == old(dst.buf[..dst.p]) + word[..off / 8] + old(dst.buf[dst.p + off / 8..])
  {
    ghost var p, orig := dst.p, dst.buf[..];
    assert p <= |orig| ==> Written(dst.buf[..], orig, p, word, 0);
    hide Written;
    if off == 64 {
      ok := StorePiece(dst, word, 0, 8, p, orig);
    } else {
      ok := StorePieces(dst, word, off, p, orig);
    }
    if dst.stray == 0 && ok {
      WrittenIs(dst.buf[..], orig, p, word, off / 8);
    }
  }

  /** Less than eight bytes. */
  method StorePieces(dst: Dest, word: Bytes, off: nat, ghost p: nat, ghost orig: Bytes) returns (ok: bool)
    requires |word| == 8 && off % 8 == 0 && 0 < off < 64 && |orig| == dst.buf.Length && dst.p == p
    requires if dst.stray == 0 then p <= |orig| && Written(dst.buf[..], orig, p, word, 0) else p > |orig|
    modifies dst, dst.buf
    ensures old(dst.stray) > 0 ==> ok && dst.stray > 0
    ensures old(dst.stray) == 0 ==> (!ok <==> |orig| < p + off / 8 && Between(|orig| - p, off / 8))
    ensures old(dst.stray) == 0 ==> (dst.stray == 0 <==> !ok || p + off / 8 <= |orig|)
    ensures dst.stray == 0 && ok ==> Written(dst.buf[..], orig, p, word, off / 8)
  {
    hide Written;
    var k, left := 0, off;
    ok := true;
    if left > 31 {
      ok := StorePiece(dst, word, 0, 4, p, orig);
      if !ok {
        return;
      }
      k, left := 4, left - 32;
    }
    if left > 15 {
      ok := StorePiece(dst, word, k, 2, p, orig);
      if !ok {
        return;
      }
      k, left := k + 2, left - 16;
    }
    if left > 0 {
      ok := StorePiece(dst, word, k, 1, p, orig);
      if !ok {
        return;
      }
      k := k + 1;
    }
    assert k == off / 8;
  }

  lemma WrittenIs(now: Bytes, orig: Bytes, p: nat, word: Bytes, k: nat)
    requires Written(now, orig, p, word, k)
    ensures k <= |word| && p + k <= |orig| && now == orig[..p] + word[..k] + orig[p + k..]
  {}

  /** n ones. */
  ghost function Ones(n: nat): (b: Bits)
    ensures |b| == n && forall i :: 0 <= i < n ==> b[i]
  {
    seq(n, _ => true)
  }

  /** Filling the last byte up with ones (fw/hpack.c:3301-3308). */
  method FillUp(off: nat, word: nat, ghost wait: Bits) returns (off': nat, word': nat, ghost ones: Bits)
    requires 0 < off <= 64 && off == |wait|
    ensures off' == |wait + ones| && off' % 8 == 0 && off <= off' <= 64 && Padding(ones)
    ensures Holds(word, wait) ==> Holds(word', wait + ones)
  {
    hide Holds;
    hide Join;
    hide Pow2;
    hide Val;
    var tail := off % 8;
    if tail == 0 {
      assert wait + [] == wait;
      return off, word, [];
    }
    var d := 8 - tail;
    ones := Ones(d);
    Pow2Values();
    AllOnes(ones);
    if Holds(word, wait) {
      JoinBits(word, wait, ones);
    }
    assert 0xFF / Pow2(tail) == Pow2(d) - 1 by {
      ByteOnes(tail);
    }
    word' := Join(word, d, 0xFF / Pow2(tail));
    off' := off + d;
  }

  lemma ByteOnes(tail: nat)
    requires 1 <= tail <= 7
    ensures 0xFF / Pow2(tail) == Pow2(8 - tail) - 1
  {
    Pow2Values();
  }

  /** The call ends with an error: n bytes do not fit, and the buffer ends where a piece begins, words of
      eight bytes before the last one being pieces, too. */
  predicate Stops(length: nat, n: nat) {
    length < n && (length % 8 == 0 || (length / 8 == (n - 1) / 8 && Between(length % 8, (n - 1) % 8 + 1)))
  }

  lemma StopsLast(p: nat, r: nat, length: nat)
    requires p % 8 == 0 && p <= length && 1 <= r <= 8
    ensures Stops(length, p + r) <==> length < p + r && Between(length - p, r)
  {
    assert (p + r - 1) / 8 == p / 8 && (p + r - 1) % 8 == r - 1;
    if length < p + r {
      assert length / 8 == p / 8 && length % 8 == length - p;
    }
  }

  lemma StopsAstray(length: nat, bits: nat)
    requires length % 8 != 0 && bits > 64 * (length / 8 + 1)
    ensures var n := (bits + 7) / 8; n > length && !Stops(length, n)
  {
    var n, q := (bits + 7) / 8, length / 8;
    assert n > 8 * q + 8;
    assert (n - 1) / 8 > q;
  }

  /** What the last bytes will be, and when there is no room for them. */
  lemma FinishFine(dst: Dest, wait: Bits, word: nat, src: Bytes, ones: Bits, word': nat)
    requires Fine(dst, wait, word, src) && 0 < |wait + ones| <= 64 && |wait + ones| % 8 == 0
    requires Padding(ones) && (Holds(word, wait) ==> Holds(word', wait + ones))
    ensures var k := |wait + ones| / 8; var last := BigEndian(Join(word', 64 - 8 * k, 0), 8)[..k];
      && (|Codes(src)| + 7) / 8 == dst.p + k
      && Encodes(ByteBits(dst.buf[..dst.p] + last), src)
      && (Stops(dst.buf.Length, dst.p + k) <==> dst.buf.Length < dst.p + k && Between(dst.buf.Length - dst.p, k))
  {
    hide Encodes;
    hide ByteBits;
    hide Codes;
    hide Holds;
    hide Join;
    hide BigEndian;
    hide Stops;
    hide Between;
    var k := |wait + ones| / 8;
    TopBytes(word', wait + ones, k);
    Complete(dst.buf[..dst.p], wait, src, ones, BigEndian(Join(word', 64 - 8 * k, 0), 8)[..k]);
    StopsLast(dst.p, k, dst.buf.Length);
  }

  /** The end of encoding (fw/hpack.c:3300-3345). */
  method Finish(dst: Dest, off: nat, word: nat, ghost wait: Bits, ghost src: Bytes) returns (ok: bool)
    requires off == |wait| <= 64 && (off == 0 <==> src == []) && (Fine(dst, wait, word, src) || Astray(dst, src))
    modifies dst, dst.buf
    ensures var n := (|Codes(src)| + 7) / 8;
      (ok <==> !Stops(dst.buf.Length, n)) && (dst.stray == 0 <==> n <= dst.buf.Length || !ok)
    ensures var n := (|Codes(src)| + 7) / 8; n <= dst.buf.Length ==>
              old(dst.p) <= n && Encodes(ByteBits(dst.buf[..n]), src) && dst.buf[n..] == old(dst.buf[n..])
  {
    hide Encodes;
    hide ByteBits;
    hide Codes;
    hide Join;
    hide BigEndian;
    NoBits();
    if off == 0 {
      ghost var written := dst.buf[..dst.p];
      Complete(written, wait, src, [], []);
      assert written + [] == written;
      return true;
    }
    hide Stops;
    hide Between;
    hide Holds;
    ghost var before, p := dst.buf[..], dst.p;
    var off', word', ones := FillUp(off, word, wait);
    var be := BigEndian(Join(word', 64 - off', 0), 8);
    if dst.stray == 0 {
      FinishFine(dst, wait, word, src, ones, word');
    } else {
      StopsAstray(dst.buf.Length, |Codes(src)|);
    }
    hide Packed;
    ok := StoreLast(dst, be, off');
    if p + off' / 8 <= dst.buf.Length {
      assert dst.buf[..p + off' / 8] == before[..p] + be[..off' / 8];
    }
  }

  lemma NoBits()
    ensures ByteBits([]) == [] && Padding([]) && Codes([]) == []
  {}

  /** Encoding a string (fw/hpack.c:3250-3352). With the computed length the result is the codes of the
      string and a padding. With less, the call fails if the buffer ends where a piece begins, and
      goes on behind the buffer otherwise. */
  method EncodeCopy(src: Bytes, buf: array<byte>) returns (ok: bool, stray: nat)
    modifies buf
    ensures var n := (|Codes(src)| + 7) / 8; (ok <==> !Stops(buf.Length, n)) && (stray == 0 <==> n <= buf.Length || !ok)
    ensures var n := (|Codes(src)| + 7) / 8;
            n <= buf.Length ==> Encodes(ByteBits(buf[..n]), src) && buf[n..] == old(buf[n..])
  {
    hide Encodes;
    hide Packed;
    hide ByteBits;
    hide Codes;
    var dst := new Dest(buf);
    var off: nat, word: nat := 0, 0;
    ghost var wait: Bits := [];
    StartPacked();
    assert buf[..0] == [] && src[..0] == [];
    for i := 0 to |src|
      invariant dst.buf == buf && fresh(dst) && off == |wait| <= 64 && (off == 0 <==> i == 0)
      invariant Fine(dst, wait, word, src[..i]) || Astray(dst, src[..i])
      invariant dst.stray == 0 ==> buf[dst.p..] == old(buf[..])[dst.p..]
    {
      ghost var t, now := src[..i], buf[..];
      assert src[..i + 1] == t + [src[i]];
      ghost var p := dst.p;
      ok, off, word, wait := Push(dst, off, word, src[i], wait, t);
      if !ok {
        CodesGrow(src, i + 1);
        return false, 0;
      }
      if dst.stray == 0 {
        assert now[dst.p..] == now[p..][dst.p - p..] == old(buf[..])[p..][dst.p - p..];
      }
    }
    assert src[..|src|] == src;
    ghost var now, p := buf[..], dst.p;
    ok := Finish(dst, off, word, wait, src);
    stray := dst.stray;
    ghost var n := (|Codes(src)| + 7) / 8;
    if n <= buf.Length {
      assert now[n..] == now[p..][n - p..] == old(buf[..])[p..][n - p..];
    }
  }

  lemma StartPacked()
    ensures Packed([], [], 0, [])
  {}

  /** Decoding what was encoded gives the string back, and the buffer is never too short. */
  method RoundTrip(src: Bytes, hctx: nat) returns (out: Bytes)
    requires hctx < 65536
    ensures out == src
  {
    hide Encodes;
    hide ByteBits;
    hide Codes;
    var n := EncodedLength(src);
    var dst := new byte[n](_ => 0);
    var ok, stray := EncodeCopy(src, dst);
    assert ok && stray == 0;
    var hp := new HPack(dst[..n], hctx);
    ok := hp.Decode();
    assert ok;
    out := hp.out;
  }

  /** Five symbols of 13 bits and a buffer of one byte: the call succeeds and has written behind the
      buffer. */
  method OneByte() returns (ok: bool, stray: nat)
    ensures ok && stray > 0
  {
    var src: Bytes := [0, 0, 0, 0, 0];
    FiveNulls();
    hide Codes;
    var buf := new byte[1](_ => 0);
    ok, stray := EncodeCopy(src, buf);
  }

  lemma FiveNulls()
    ensures |Codes([0, 0, 0, 0, 0])| == 65
  {
    CodeBound(0);
    assert HtLength(0) == 13;
    hide Code;
    CodesAppend([], 0);
    CodesAppend([0], 0);
    CodesAppend([0, 0], 0);
    CodesAppend([0, 0, 0], 0);
    CodesAppend([0, 0, 0, 0], 0);
    assert [] + [0] == [0] && [0] + [0] == [0, 0] && [0, 0] + [0] == [0, 0, 0];
    assert [0, 0, 0] + [0] == [0, 0, 0, 0] && [0, 0, 0, 0] + [0] == [0, 0, 0, 0, 0];
  }
}
