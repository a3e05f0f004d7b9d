/** Huffman decoding of one string (fw/hpack.c:468-685): seven bits at a time, or three, and the last
    bits of the string apart. */
module HuffmanDecoder {
  import opened Headers
  import opened Powers
  import opened BitStrings
  import opened HuffmanTables
  import opened HuffmanCheck
  import opened HuffmanCode
  import opened HuffmanState
  import opened HuffmanBuffer

  /** What decoding must find out: the string that the bits encode, or that there is none. */
  ghost predicate Verdict(b: Bits, ok: bool, out: Bytes) {
    if ok then Encodes(b, out) && forall t :: Encodes(b, t) ==> t == out
    else forall t :: !Encodes(b, t)
  }

  ghost function Zeros(n: nat): (z: Bits)
    ensures |z| == n && forall i :: 0 <= i < n ==> !z[i]
  {
    seq(n, _ => false)
  }

  lemma {:induction false} OnesAre(b: Bits)
    requires Val(b) + 1 >= Pow2(|b|)
    ensures forall i :: 0 <= i < |b| ==> b[i]
  {
    if b != [] {
      var c := b[..|b| - 1];
      ValBound(c);
      OnesAre(c);
    }
  }

  /** The test for a padding: the bits, with zeros behind them, differ from seven ones in these only
      (fw/hpack.c:507-510, 534-537). */
  lemma OnesCheck(rest: Bits)
    requires |rest| <= 7
    ensures Padding(rest) <==> 127 - Val(rest + Zeros(7 - |rest|)) < Pow2(7 - |rest|)
  {
    hide Pow2;
    hide Val;
    var m, z := |rest|, Zeros(7 - |rest|);
    ValAppend(rest, z);
    AllZeros(z);
    Pow2Add(m, 7 - m);
    Pow2Sevens();
    ValBound(rest);
    OnesArith(Val(rest), Pow2(m), Pow2(7 - m));
    if Padding(rest) {
      AllOnes(rest);
    } else if Val(rest) + 1 >= Pow2(m) {
      OnesAre(rest);
    }
  }

  lemma OnesArith(v: nat, p: nat, r: nat)
    requires v < p && r >= 1 && p * r == 128
    ensures 127 - v * r < r <==> v + 1 >= p
  {
    MulAdd(v, 1, r);
    if v + 1 < p {
      MulAtLeast(p - 1, v + 1, r);
      MulAdd(p - 1, 1, r);
    }
  }

  /** Too few bits for a table with a long prefix: no string. */
  lemma Long(o: nat, rest: Bits)
    requires IsTable(o) && |Prefix(o)| + |rest| >= 8
    ensures !Padding(Prefix(o) + rest)
  {}

  class HPack {
    const src: Bytes
    var curr: int
    var hctx: nat
    var pos: nat
    var out: Bytes
    /** The bits that are not decoded yet. */
    ghost var rest: Bits

    constructor (src0: Bytes, hctx0: nat)
      requires hctx0 < 65536
      ensures src == src0 && curr == -7 && pos == 0 && Ready(0, 7)
    {
      src, curr, hctx, pos, out, rest := src0, -7, hctx0, 0, [], ByteBits(src0);
      new;
      StateStart(ByteBits(src0));
      assert src0[0..] == src0;
      assert rest[..0] == [] && rest[0..] == rest;
      assert Pow2(0) == 1;
    }

    /** At table o, with curr + w bits at hand. */
    ghost predicate Ready(o: nat, w: nat)
      reads this
    {
      && IsTable(o) && 0 <= curr + w && Buffered(hctx, curr + w, src, pos, rest)
      && State(ByteBits(src), out, o, rest) && (o != 0 ==> |Prefix(o)| + |rest| >= 8)
    }

    /** fw/hpack.c:248-257 */
    method SetNext(ghost o: nat, ghost w: nat)
      requires Ready(o, w) && curr + w <= 7 && pos < |src|
      modifies this`curr, this`hctx, this`pos
      ensures Ready(o, w) && curr == old(curr) + 8 && pos == old(pos) + 1
    {
      hide Buffered;
      hide State;
      hide ByteBits;
      hide Prefix;
      NextByte(hctx, curr + w, src, pos, rest);
      curr := curr + 8;
      hctx := Shifted(hctx, src[pos]);
      pos := pos + 1;
    }

    /** The index for the next w bits: the word shifted and masked. */
    function Index(w: nat): (i: nat)
      requires curr >= 0 && w <= 7
      reads this
    {
      (hctx / Pow2(curr)) % Pow2(w)
    }

    lemma IndexIs(o: nat)
      requires Ready(o, Width(o)) && curr >= 0
      ensures |rest| >= Width(o) && Index(Width(o)) == Val(rest[..Width(o)]) && o + Index(Width(o)) < PLACES
      ensures HtDecode(o + Index(Width(o))) == Look(o, rest[..Width(o)])
    {
      hide State;
      hide Prefix;
      hide HtDecode;
      var w := Width(o);
      Peek(hctx, curr + w, src, pos, rest, w);
      LookIs(o, rest[..w]);
    }

    /** A symbol is decoded: it is written, and its bits are used up. */
    method Write(s: byte, shift: int, ghost o: nat, ghost y: Bits, ghost z: Bits)
      requires Ready(o, Width(o)) && Window(o, rest, y, z)
      requires var e := Look(o, y + z);
        0 < e.shift == shift && 1 <= Real(o, e) <= |y| && Real(o, e) <= curr + Width(o) && Symbol(e.offset) == s
      modifies this`curr, this`out, this`rest
      ensures Ready(0, 7) && curr == old(curr) - shift && 0 < |old(rest)| - |rest|
    {
      hide Buffered;
      hide State;
      hide ByteBits;
      hide Look;
      ghost var k := Real(o, Look(o, y + z));
      StateEmit(ByteBits(src), out, o, rest, y, z);
      Consume(hctx, curr + Width(o), src, pos, rest, k);
      BufferedFacts(hctx, curr + Width(o), src, pos, rest);
      out := out + [s];
      curr := curr - shift;
      rest := rest[k..];
    }

    /** One lookup in a table of 128 (fw/hpack.c:612-639): a symbol, or the offset of the next table. */
    method LookBig(o: nat) returns (next: nat)
      requires Ready(o, 7) && o < SMALL && curr >= 1
      modifies this`curr, this`out, this`rest
      ensures Ready(next, 7) && |rest| < |old(rest)| && curr >= -7
      ensures pos == |src| ==> |rest| == curr + 7
    {
      hide Buffered;
      hide State;
      hide ByteBits;
      hide HtDecode;
      hide Look;
      hide Prefix;
      hide Code;
      IndexIs(o);
      ghost var x := rest[..7];
      LookSound(o, x);
      BufferedFacts(hctx, curr + 7, src, pos, rest);
      var e := HtDecode(o + Index(7));
      if e.shift > 0 {
        assert x + [] == x;
        Write(Symbol(e.offset), e.shift, o, x, []);
        next := 0;
      } else {
        StateJump(ByteBits(src), out, o, rest);
        Consume(hctx, curr + 7, src, pos, rest, 7);
        curr := curr + e.shift;
        rest := rest[7..];
        next := e.offset;
      }
      BufferedFacts(hctx, curr + 7, src, pos, rest);
    }

    /** Going on with three bits instead of seven (fw/hpack.c:641). */
    method ToShort(ghost o: nat)
      requires Ready(o, 7)
      modifies this`curr
      ensures Ready(o, 3) && curr == old(curr) + 4
    {
      hide State;
      hide Buffered;
      hide Prefix;
      curr := curr + 4;
    }

    /** One lookup in a table of eight (fw/hpack.c:660-680): a symbol, or the end of decoding. */
    method LookSmall(o: nat) returns (ok: bool)
      requires Ready(o, 3) && o >= SMALL && curr >= 0
      modifies this`curr, this`out, this`rest
      ensures if ok then Ready(0, 7) && -7 <= curr && |rest| < |old(rest)| else Verdict(ByteBits(src), false, out)
    {
      hide Buffered;
      hide State;
      hide ByteBits;
      hide HtDecode;
      hide Look;
      hide Prefix;
      hide Code;
      hide Verdict;
      IndexIs(o);
      ghost var x := rest[..3];
      assert x + [] == x;
      LookSound(o, x);
      BufferedFacts(hctx, curr + 3, src, pos, rest);
      var e := HtDecode(o + Index(3));
      ok := e.shift > 0;
      if ok {
        Write(Symbol(e.offset), e.shift, o, x, []);
      } else {
        RefuseSmall(o, x, []);
      }
    }

    /** The index for the last bits, with zeros behind them. */
    function LastIndex(w: nat): (i: nat)
      requires 0 <= curr + w && curr <= 0 && w <= 7
      reads this
    {
      hctx * Pow2(-curr) % Pow2(w)
    }

    lemma LastIndexIs(o: nat)
      requires Ready(o, Width(o)) && curr <= 0 && pos == |src|
      ensures IsTable(o) && |rest| == curr + Width(o)
      ensures LastIndex(Width(o)) == Val(rest + Zeros(-curr)) && o + LastIndex(Width(o)) < PLACES
      ensures HtDecode(o + LastIndex(Width(o))) == Look(o, rest + Zeros(-curr)) && Window(o, rest, rest, Zeros(-curr))
    {
      hide State;
      hide Prefix;
      hide HtDecode;
      var w := Width(o);
      PeekLast(hctx, curr + w, src, rest, w, Zeros(-curr));
      LookIs(o, rest + Zeros(-curr));
    }

    /** The last bits are no symbol: they are a padding, or the string is not well encoded
        (fw/hpack.c:502-527 and 534-539). */
    method Finish(o: nat, i: nat) returns (ok: bool)
      requires Ready(o, 7) && o < SMALL && -7 < curr <= 0 && pos == |src| && i == LastIndex(7)
      requires var e := Look(o, rest + Zeros(-curr)); !(e.shift > 0 && Real(o, e) <= |rest|)
      ensures Verdict(ByteBits(src), ok, out)
    {
      hide Buffered;
      hide State;
      hide ByteBits;
      hide HtDecode;
      hide Look;
      LastIndexIs(o);
      ghost var z := Zeros(-curr);
      OnesCheck(rest);
      ok := o == 0 && 127 - i < Pow2(-curr);
      if ok {
        StateAccept(ByteBits(src), out, rest);
      } else {
        if o == 0 {
          assert Prefix(0) + rest == rest;
        } else {
          Long(o, rest);
        }
        StateRefuse(ByteBits(src), out, o, rest, rest, z);
      }
    }

    /** The bits are used up: within the code of a symbol the string is not well encoded. */
    method FinishEmpty(o: nat) returns (ok: bool)
      requires Ready(o, Width(o)) && curr + Width(o) == 0 && pos == |src|
      ensures Verdict(ByteBits(src), ok, out) && (o >= SMALL ==> !ok)
    {
      hide Buffered;
      hide State;
      hide ByteBits;
      hide HtDecode;
      hide Look;
      LastIndexIs(o);
      ok := o == 0;
      if ok {
        StateAccept(ByteBits(src), out, rest);
      } else {
        LookSound(o, rest + Zeros(-curr));
        Long(o, rest);
        StateRefuse(ByteBits(src), out, o, rest, rest, Zeros(-curr));
      }
    }

    /** The last bits (fw/hpack.c:468-540). */
    method Tail(offset: nat) returns (ok: bool)
      requires Ready(offset, 7) && offset < SMALL && -7 <= curr <= 0 && pos == |src|
      modifies this`curr, this`out, this`rest
      ensures Verdict(ByteBits(src), ok, out)
    {
      hide Ready;
      hide Verdict;
      var o: nat := offset;
      while curr != -7
        invariant Ready(o, 7) && o < SMALL && -7 <= curr <= 0
        decreases curr + 7
      {
        var more;
        more, ok := TailStep(o);
        if !more {
          return;
        }
        o := 0;
      }
      ok := FinishEmpty(o);
    }

    /** One lookup for the last bits: a symbol, or the end. */
    method TailStep(o: nat) returns (more: bool, ok: bool)
      requires Ready(o, 7) && o < SMALL && -7 < curr <= 0 && pos == |src|
      modifies this`curr, this`out, this`rest
      ensures if more then Ready(0, 7) && -7 <= curr < old(curr) else Verdict(ByteBits(src), ok, out)
    {
      hide Verdict;
      hide HtDecode;
      hide Look;
      hide State;
      hide Buffered;
      hide Prefix;
      hide Code;
      LastIndexIs(o);
      var i := LastIndex(7);
      LookSound(o, rest + Zeros(-curr));
      var e := HtDecode(o + i);
      more, ok := 0 < e.shift <= curr + 7, false;
      if more {
        Write(Symbol(e.offset), e.shift, o, rest, Zeros(-curr));
      } else {
        ok := Finish(o, i);
      }
    }

    /** The last bits, at a table of eight (fw/hpack.c:542-578). */
    method TailSmall(o: nat) returns (ok: bool)
      requires Ready(o, 3) && o >= SMALL && -3 <= curr < 0 && pos == |src|
      modifies this`curr, this`out, this`rest
      ensures Verdict(ByteBits(src), ok, out)
    {
      hide Verdict;
      hide HtDecode;
      hide Look;
      hide State;
      hide Buffered;
      hide Prefix;
      hide Code;
      if curr == -3 {
        ok := FinishEmpty(o);
        return;
      }
      LastIndexIs(o);
      ghost var z := Zeros(-curr);
      LookSound(o, rest + z);
      var e := HtDecode(o + LastIndex(3));
      if 0 < e.shift <= curr + 7 {
        Write(Symbol(e.offset), e.shift, o, rest, z);
        ok := Tail(0);
      } else {
        RefuseSmall(o, rest, z);
        ok := false;
      }
    }

    lemma RefuseSmall(o: nat, y: Bits, z: Bits)
      requires Ready(o, 3) && o >= SMALL && Window(o, rest, y, z)
      requires var e := Look(o, y + z); !(e.shift > 0 && Real(o, e) <= |y|)
      ensures Verdict(ByteBits(src), false, out)
    {
      hide State;
      hide Buffered;
      hide Look;
      hide Prefix;
      hide ByteBits;
      Long(o, rest);
      StateRefuse(ByteBits(src), out, o, rest, y, z);
    }

    /** Decoding the string (fw/hpack.c:580-685): the result is the one string that the bits encode,
        or there is none. */
    method Decode() returns (ok: bool)
      requires Ready(0, 7) && curr == -7 && pos == 0
      modifies this
      ensures Verdict(ByteBits(src), ok, out)
    {
      hide Verdict;
      hide Ready;
      if |src| == 0 {
        ok := FinishEmpty(0);
        return;
      }
      SetNext(0, 7);
      var offset: nat := 0;
      while true
        invariant Ready(offset, 7) && offset < SMALL && -7 <= curr && pos <= |src|
        decreases |rest|
      {
        if curr <= 0 {
          if pos < |src| {
            SetNext(offset, 7);
          } else {
            ok := Tail(offset);
            return;
          }
        }
        offset := LookBig(offset);
        if offset >= SMALL {
          ToShort(offset);
          if curr < 0 {
            if pos < |src| {
              SetNext(offset, 3);
            } else {
              ok := TailSmall(offset);
              return;
            }
          }
          ok := LookSmall(offset);
          if !ok {
            return;
          }
          offset := 0;
        }
      }
    }
  }

  lemma BufferedFacts(hctx: nat, m: nat, src: Bytes, pos: nat, rest: Bits)
    requires Buffered(hctx, m, src, pos, rest)
    ensures m <= |rest| && pos <= |src| && (pos == |src| ==> m == |rest|)
  {}
}
