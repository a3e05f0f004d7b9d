/** The Huffman code of section 5.2 of RFC 7541: what it means for bits to be an encoded string, and
    what an entry of a decoding table says about that. */
module HuffmanCode {
  import opened Headers
  import opened Powers
  import opened BitStrings
  import opened HuffmanTables
  import opened HuffmanCheck

  ghost function Code(s: nat): Bits
    requires s < 256
  {
    BitsOf(HtEncode(s), HtLength(s))
  }

  ghost function Codes(t: Bytes): Bits {
    if t == [] then [] else Code(t[0]) + Codes(t[1..])
  }

  /** The bits that lead to a table. */
  ghost function Prefix(o: nat): Bits
    requires IsTable(o)
  {
    BitsOf(PrefixValue(o), PrefixLength(o))
  }

  /** At most seven bits, all of them one. */
  ghost predicate Padding(b: Bits) {
    |b| <= 7 && forall i :: 0 <= i < |b| ==> b[i]
  }

  /** The bits are the codes of the string and a padding. */
  ghost predicate Encodes(b: Bits, t: Bytes) {
    Codes(t) <= b && Padding(b[|Codes(t)|..])
  }

  // ----- numbers and bits

  lemma Shifts(v: nat, k: nat)
    requires k <= 7
    ensures Left(v, k) == v * Pow2(k) && Right(v, k) == v / Pow2(k)
  {
    Pow2Values();
  }

  lemma PrefixBound(o: nat)
    requires IsTable(o)
    ensures PrefixValue(o) < Pow2(PrefixLength(o))
  {
    Pow2Sevens();
    hide Pow2;
  }

  lemma PrefixBits(o: nat)
    requires IsTable(o)
    ensures Val(Prefix(o)) == PrefixValue(o) && |Prefix(o)| == PrefixLength(o)
  {
    hide PrefixValue;
    hide PrefixLength;
    hide Pow2;
    hide Val;
    hide BitsOf;
    PrefixBound(o);
    ValOfSmall(PrefixValue(o), PrefixLength(o));
  }

  lemma SymbolFacts(o: nat, i: nat, n: nat, k: nat, s: nat)
    requires IsTable(o) && k <= n <= 7 && s < 256 && IsSymbol(o, i, n, k, s)
    ensures HtEncode(s) == Left(PrefixValue(o), k) + Right(i, n - k) && HtLength(s) == PrefixLength(o) + k
  {
    hide HtCode;
    hide PrefixValue;
    hide PrefixLength;
    hide Left;
    hide Right;
  }

  /** A symbol of a table: the prefix of the table and the first k bits of the index. */
  lemma SymbolBits(o: nat, y: Bits, n: nat, k: nat, s: nat)
    requires IsTable(o) && k <= n <= 7 && |y| == n && s < 256 && IsSymbol(o, Val(y), n, k, s)
    ensures Code(s) == Prefix(o) + y[..k]
  {
    hide *;
    var b := Prefix(o) + y[..k];
    SymbolFacts(o, Val(y), n, k, s);
    PrefixBits(o);
    ValAppend(Prefix(o), y[..k]);
    ValPrefix(y, k);
    Shifts(PrefixValue(o), k);
    Shifts(Val(y), n - k);
    assert Val(b) == HtEncode(s) && |b| == HtLength(s);
    OfVal(b);
    CodeIs(s);
  }

  lemma CodeIs(s: nat)
    requires s < 256
    ensures Code(s) == BitsOf(HtEncode(s), HtLength(s))
  {
    hide HtCode;
    hide BitsOf;
  }

  /** The next table: its prefix is that of the table and the seven bits of the index. */
  lemma NextBits(o: nat, y: Bits, e: HtState)
    requires IsTable(o) && |y| == 7 && IsNext(o, Val(y), e)
    ensures Prefix(e.offset) == Prefix(o) + y
  {
    PrefixBits(o);
    PrefixBits(e.offset);
    Pow2Sevens();
    assert PrefixLength(e.offset) == PrefixLength(o) + 7 && PrefixValue(e.offset) == PrefixValue(o) * 128 + Val(y) by {
      hide PrefixValue;
      hide PrefixLength;
    }
    hide *;
    ValAppend(Prefix(o), y);
    ValInjective(Prefix(e.offset), Prefix(o) + y);
  }

  // ----- the way from table to table

  function ParentOf(o: nat): nat {
    if o == 128 || (640 <= o < 664) then 0 else if o == 256 || o == 664 then 128
    else if o == 384 || o == 512 || o < 840 then 256 else 512
  }

  /** Every table but the first is the next one of its parent. */
  lemma ParentOk(o: nat)
    requires IsTable(o) && o != 0
    ensures IsTable(ParentOf(o)) && ParentOf(o) < SMALL && PrefixLength(ParentOf(o)) + 7 == PrefixLength(o)
    ensures PrefixValue(o) == PrefixValue(ParentOf(o)) * 128 + PrefixValue(o) % 128
    ensures HtDecode(ParentOf(o) + PrefixValue(o) % 128) == HtState(-7, o)
  {}

  lemma ParentBits(o: nat)
    requires IsTable(o) && o != 0
    ensures IsTable(ParentOf(o)) && ParentOf(o) < SMALL
    ensures var i := PrefixValue(o) % 128;
      Prefix(o) == Prefix(ParentOf(o)) + BitsOf(i, 7) && HtDecode(ParentOf(o) + i) == HtState(-7, o)
  {
    ParentOk(o);
    var i := PrefixValue(o) % 128;
    hide HtDecode;
    hide ParentOf;
    Pow2Sevens();
    ValOfSmall(i, 7);
    NextBits(ParentOf(o), BitsOf(i, 7), HtState(-7, o));
  }

  /** The way to table h leads over table o. */
  ghost predicate OnPath(o: nat, h: nat)
    requires IsTable(h)
    decreases PrefixLength(h)
  {
    o == h || (h != 0 && OnPath(o, ParentOf(h)))
  }

  lemma {:induction false} RootOnPath(h: nat)
    requires IsTable(h)
    ensures OnPath(0, h)
    decreases PrefixLength(h)
  {
    if h != 0 {
      RootOnPath(ParentOf(h));
    }
  }

  lemma {:induction false} NextOnPath(o: nat, h: nat) returns (p: nat)
    requires IsTable(h) && OnPath(o, h) && o != h
    ensures IsTable(p) && p != 0 && ParentOf(p) == o && OnPath(p, h)
    decreases PrefixLength(h)
  {
    if ParentOf(h) == o {
      p := h;
    } else {
      p := NextOnPath(o, ParentOf(h));
    }
  }

  lemma {:induction false} PathPrefix(o: nat, h: nat)
    requires IsTable(o) && IsTable(h) && OnPath(o, h)
    ensures Prefix(o) <= Prefix(h)
    decreases PrefixLength(h)
  {
    if o != h {
      hide Prefix;
      ParentBits(h);
      PathPrefix(o, ParentOf(h));
    }
  }

  // ----- where the code of a symbol leads

  /** The bits of the code of a symbol that its table decodes. */
  ghost function Remaining(s: nat): int
    requires s < 256 && HomeOk(s)
  {
    HtLength(s) - PrefixLength(Home(s))
  }

  lemma HomeFacts(s: nat)
    requires s < 256
    ensures HomeOk(s) && IsTable(Home(s)) && 1 <= Remaining(s) <= Width(Home(s))
    ensures PrefixValue(Home(s)) * Pow2(Remaining(s)) <= HtEncode(s) < (PrefixValue(Home(s)) + 1) * Pow2(Remaining(s))
    ensures HtLength(s) <= 7 ==> (HtEncode(s) + 1) * Pow2(7 - HtLength(s)) < 127
  {
    CheckHome(s);
    hide HtCode;
    hide Home;
    hide PrefixValue;
    hide PrefixLength;
    var k := Remaining(s);
    Shifts(PrefixValue(Home(s)), k);
    Shifts(PrefixValue(Home(s)) + 1, k);
    if HtLength(s) <= 7 {
      Shifts(HtEncode(s) + 1, 7 - HtLength(s));
    }
    hide Left;
    hide Right;
  }

  lemma CodeBound(s: nat)
    requires s < 256
    ensures Val(Code(s)) == HtEncode(s) && |Code(s)| == HtLength(s)
  {
    HomeFacts(s);
    var o, k := Home(s), Remaining(s);
    PrefixBound(o);
    assert HtLength(s) == PrefixLength(o) + k;
    hide *;
    Pow2Add(PrefixLength(o), k);
    MulAtLeast(Pow2(PrefixLength(o)), PrefixValue(o) + 1, Pow2(k));
    CodeIs(s);
    ValOfSmall(HtEncode(s), HtLength(s));
  }

  /** The code of a symbol begins with the prefix of its table. */
  lemma HomePrefix(s: nat)
    requires s < 256
    ensures HomeOk(s) && IsTable(Home(s)) && Prefix(Home(s)) <= Code(s)
    ensures |Code(s)| == |Prefix(Home(s))| + Remaining(s)
  {
    HomeFacts(s);
    CodeBound(s);
    var o, k := Home(s), Remaining(s);
    PrefixBits(o);
    assert HtLength(s) == PrefixLength(o) + k;
    hide *;
    var b := Code(s)[..PrefixLength(o)];
    ValPrefix(Code(s), PrefixLength(o));
    var v, p := HtEncode(s), Pow2(k);
    assert (PrefixValue(o) + 1) * p == PrefixValue(o) * p + p;
    ModUnique(v, p, PrefixValue(o), v - PrefixValue(o) * p);
    ValInjective(b, Prefix(o));
  }

  lemma LookUp(s: nat, i: nat)
    requires s < 256 && HomeOk(s) && i < (if Home(s) < SMALL then 128 else 8)
    requires HtEncode(s) == Left(PrefixValue(Home(s)), Remaining(s)) + Right(i, Width(Home(s)) - Remaining(s))
    ensures Home(s) + i < PLACES && HtDecode(Home(s) + i) == Entry(Home(s), Remaining(s), s)
  {
    hide Home;
    hide HtCode;
    hide HtDecode;
    hide Left;
    hide Right;
    hide PrefixValue;
    hide PrefixLength;
    CheckBlock(s, i);
  }

  lemma HomeIndex(s: nat, o: nat, k: nat, x: Bits)
    requires s < 256 && IsTable(o) && k <= |x| <= 7 && Code(s) == Prefix(o) + x[..k]
    ensures HtEncode(s) == Left(PrefixValue(o), k) + Right(Val(x), |x| - k)
  {
    hide *;
    CodeBound(s);
    PrefixBits(o);
    ValAppend(Prefix(o), x[..k]);
    ValPrefix(x, k);
    Shifts(PrefixValue(o), k);
    Shifts(Val(x), |x| - k);
  }

  /** At its table, the bits of a symbol are looked up as the symbol. */
  lemma AtHome(s: nat, y: Bits, z: Bits)
    requires s < 256 && IsTable(Home(s)) && Code(s) <= Prefix(Home(s)) + y && |y + z| == Width(Home(s))
    ensures HomeOk(s) && Remaining(s) <= |y| && Home(s) + Val(y + z) < PLACES
    ensures HtDecode(Home(s) + Val(y + z)) == Entry(Home(s), Remaining(s), s)
    ensures Code(s) == Prefix(Home(s)) + y[..Remaining(s)]
  {
    BoundIndex(Home(s), y + z);
    assert Width(Home(s)) <= 7;
    hide *;
    HomePrefix(s);
    HomeFacts(s);
    var o, k := Home(s), Remaining(s);
    assert Code(s) == Prefix(o) + (y + z)[..k];
    HomeIndex(s, o, k, y + z);
    LookUp(s, Val(y + z));
  }

  lemma BoundIndex(o: nat, x: Bits)
    requires IsTable(o) && |x| == Width(o)
    ensures Val(x) < (if o < SMALL then 128 else 8) && o + Val(x) < PLACES
  {
    ValBound(x);
    Pow2Values();
  }

  /** Before its table, the bits of a symbol lead on to the next table on the way. */
  lemma OffHome(s: nat, o: nat, y: Bits)
    requires s < 256 && IsTable(Home(s)) && IsTable(o) && OnPath(o, Home(s)) && o != Home(s)
    requires Code(s) <= Prefix(o) + y
    ensures o < SMALL && |y| > 7 && Val(y[..7]) < 128
    ensures var e := HtDecode(o + Val(y[..7]));
      e.shift == -7 && e.offset > 0 && IsTable(e.offset) && OnPath(e.offset, Home(s))
  {
    hide *;
    var p := NextOnPath(o, Home(s));
    ParentBits(p);
    PathPrefix(p, Home(s));
    HomePrefix(s);
    HomeFacts(s);
    var i := PrefixValue(p) % 128;
    var x := BitsOf(i, 7);
    Pow2Sevens();
    ValOfSmall(i, 7);
    assert Prefix(p) == Prefix(o) + x && Prefix(p) <= Code(s) && |Code(s)| > |Prefix(p)|;
    assert y[..7] == (Prefix(o) + y)[|Prefix(o)|..|Prefix(o)| + 7];
    assert y[..7] == x;
  }

  // ----- looking bits up

  function Real(o: nat, e: HtState): int {
    if o < SMALL then e.shift else e.shift - 4
  }

  ghost function Look(o: nat, x: Bits): HtState
    requires IsTable(o) && |x| == Width(o)
  {
    BoundIndex(o, x);
    HtDecode(o + Val(x))
  }

  /** What a lookup means: a symbol whose code has been read, another table, or the end code. */
  lemma LookSound(o: nat, x: Bits)
    requires IsTable(o) && |x| == Width(o)
    ensures var e := Look(o, x);
            if e.shift > 0 then
              && 1 <= Real(o, e) <= |x| && 0 <= Symbol(e.offset) < 256
              && Code(Symbol(e.offset)) == Prefix(o) + x[..Real(o, e)]
            else if o < SMALL then
              e.shift == -7 && e.offset > 0 && IsTable(e.offset) && Prefix(e.offset) == Prefix(o) + x
            else
              e == HtState(-6, 0)
  {
    BoundIndex(o, x);
    var e := Look(o, x);
    if o < SMALL {
      CheckBig(o, Val(x));
      hide HtDecode;
      hide Prefix;
      hide Code;
      if e.shift > 0 {
        SymbolBits(o, x, 7, e.shift, Symbol(e.offset));
      } else {
        NextBits(o, x, e);
      }
    } else {
      CheckSmall(o, Val(x));
      hide HtDecode;
      hide Prefix;
      hide Code;
      if e.shift > 0 {
        SymbolBits(o, x, 3, e.shift - 4, Symbol(e.offset));
      }
    }
  }

  /** What is left to decode: the string t, of whose first symbol the way to table o has been read. */
  ghost predicate Remains(t: Bytes, o: nat, rest: Bits) {
    IsTable(o) && Encodes(Prefix(o) + rest, t) && (t != [] ==> IsTable(Home(t[0])) && OnPath(o, Home(t[0])))
  }

  /** No code is all ones and short. */
  lemma NotOnes(s: nat)
    requires s < 256
    ensures !Padding(Code(s))
  {
    HomeFacts(s);
    CodeBound(s);
    hide HtCode;
    hide BitsOf;
    var b := Code(s);
    if Padding(b) {
      AllOnes(b);
      var n := |b|;
      assert (HtEncode(s) + 1) * Pow2(7 - n) < 127;
      Pow2Add(n, 7 - n);
      Pow2Sevens();
    }
  }

  lemma {:induction false} AllOnes(b: Bits)
    requires forall i :: 0 <= i < |b| ==> b[i]
    ensures Val(b) + 1 == Pow2(|b|)
  {
    if b != [] {
      AllOnes(b[..|b| - 1]);
    }
  }

  // ----- every string that the bits may encode is followed

  /** The first bits to look up, with something behind them where there are too few. */
  ghost predicate Window(o: nat, rest: Bits, y: Bits, z: Bits) {
    y <= rest && |y + z| == Width(o) && (z != [] ==> y == rest)
  }

  lemma EncodesFirst(b: Bits, t: Bytes)
    requires Encodes(b, t) && t != []
    ensures Code(t[0]) <= b && Encodes(b[|Code(t[0])|..], t[1..])
  {
    hide Code;
    var c := Code(t[0]);
    assert Codes(t) == c + Codes(t[1..]);
    assert b[|c|..][|Codes(t[1..])|..] == b[|Codes(t)|..];
  }

  lemma RemainsFirst(t: Bytes, o: nat, rest: Bits)
    requires Remains(t, o, rest) && t != []
    ensures IsTable(o) && IsTable(Home(t[0])) && OnPath(o, Home(t[0])) && Code(t[0]) <= Prefix(o) + rest
  {
    hide Code;
    hide Prefix;
    hide Home;
    hide OnPath;
    EncodesFirst(Prefix(o) + rest, t);
  }

  lemma EntryReal(o: nat, k: int, s: nat)
    requires s < 256 && k >= 1
    ensures var e := Entry(o, k, s); e.shift > 0 && Symbol(e.offset) == s && Real(o, e) == k
  {}

  /** A lookup at the table of the next symbol finds the symbol; before it, the next table. */
  lemma LookAlong(t: Bytes, o: nat, rest: Bits, y: Bits, z: Bits)
    requires Remains(t, o, rest) && t != [] && Window(o, rest, y, z)
    ensures var e := Look(o, y + z);
            if o == Home(t[0]) then
              && e.shift > 0 && Symbol(e.offset) == t[0] && 1 <= Real(o, e) <= |y|
              && Code(t[0]) == Prefix(o) + rest[..Real(o, e)]
            else
              && o < SMALL && |rest| > 7
              && (z == [] ==> e.shift == -7 && e.offset > 0 && IsTable(e.offset) && OnPath(e.offset, Home(t[0])))
  {
    hide *;
    RemainsFirst(t, o, rest);
    WindowFacts(o, rest, y, z);
    LookIs(o, y + z);
    var s := t[0];
    if o == Home(s) {
      HomePrefix(s);
      HomeFacts(s);
      assert Code(s) <= Prefix(o) + y;
      AtHome(s, y, z);
      EntryReal(o, Remaining(s), s);
      assert y[..Remaining(s)] == rest[..Remaining(s)];
    } else {
      OffHome(s, o, rest);
      WidthIs(o);
      if z == [] {
        assert y + z == y == rest[..7];
      }
    }
  }

  lemma WindowFacts(o: nat, rest: Bits, y: Bits, z: Bits)
    requires Window(o, rest, y, z)
    ensures y <= rest && |y + z| == Width(o) && (z != [] ==> y == rest)
  {}

  lemma LookIs(o: nat, x: Bits)
    requires IsTable(o) && |x| == Width(o)
    ensures o + Val(x) < PLACES && Look(o, x) == HtDecode(o + Val(x))
  {
    BoundIndex(o, x);
    hide HtDecode;
  }

  lemma WidthIs(o: nat)
    ensures Width(o) == if o < SMALL then 7 else 3
  {}

  /** A symbol is found: it is the next one. */
  lemma Emit(t: Bytes, o: nat, rest: Bits, y: Bits, z: Bits)
    requires Remains(t, o, rest) && Window(o, rest, y, z)
    requires var e := Look(o, y + z); e.shift > 0 && 1 <= Real(o, e) <= |y|
    ensures var e := Look(o, y + z); t != [] && t[0] == Symbol(e.offset) && Remains(t[1..], 0, rest[Real(o, e)..])
  {
    hide Code;
    hide Home;
    hide HtDecode;
    hide OnPath;
    var e := Look(o, y + z);
    var k := Real(o, e);
    LookSound(o, y + z);
    assert (y + z)[..k] == rest[..k];
    var c := Code(Symbol(e.offset));
    NotOnes(Symbol(e.offset));
    assert c <= Prefix(o) + rest;
    assert forall i :: 0 <= i < |c| ==> c[i] == (Prefix(o) + rest)[i];
    if t != [] {
      LookAlong(t, o, rest, y, z);
      EncodesFirst(Prefix(o) + rest, t);
      assert (Prefix(o) + rest)[|Code(t[0])|..] == rest[k..];
      assert Prefix(0) + rest[k..] == rest[k..];
      if t[1..] != [] {
        HomeFacts(t[1]);
        RootOnPath(Home(t[1]));
      }
    }
  }

  /** Another table is found: it is on the way. */
  lemma Jump(t: Bytes, o: nat, rest: Bits)
    requires Remains(t, o, rest) && o < SMALL && |rest| >= 7 && Look(o, rest[..7]).shift < 0
    ensures Look(o, rest[..7]).offset > 0 && Remains(t, Look(o, rest[..7]).offset, rest[7..])
  {
    hide Code;
    hide Home;
    hide HtDecode;
    hide OnPath;
    hide Prefix;
    var y, z := rest[..7], [];
    assert y + z == y;
    var e := Look(o, y);
    LookSound(o, y);
    assert Prefix(e.offset) + rest[7..] == Prefix(o) + rest;
    if t != [] {
      LookAlong(t, o, rest, y, z);
    }
  }

  /** Neither a symbol nor enough bits for another table: only the empty string may be left. */
  lemma OnlyPadding(t: Bytes, o: nat, rest: Bits, y: Bits, z: Bits)
    requires Remains(t, o, rest) && Window(o, rest, y, z)
    requires var e := Look(o, y + z); !(e.shift > 0 && Real(o, e) <= |y|) && (|rest| <= 7 || o >= SMALL)
    ensures t == []
  {
    hide Code;
    hide Home;
    hide HtDecode;
    hide OnPath;
    hide Prefix;
    if t != [] {
      LookAlong(t, o, rest, y, z);
    }
  }

  /** The empty string is left exactly where a padding is. */
  lemma EmptyLeft(o: nat, rest: Bits)
    requires IsTable(o)
    ensures Remains([], o, rest) <==> Padding(Prefix(o) + rest)
  {
    hide Prefix;
    assert (Prefix(o) + rest)[0..] == Prefix(o) + rest;
  }
}
