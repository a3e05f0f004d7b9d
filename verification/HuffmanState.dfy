/** The states of Huffman decoding: what has been decoded, the table reached and the bits left. */
module HuffmanState {
  import opened Headers
  import opened BitStrings
  import opened HuffmanTables
  import opened HuffmanCheck
  import opened HuffmanCode

  /** Every string that the bits encode goes on from here. */
  ghost predicate Follows(b: Bits, t: Bytes, out: Bytes, o: nat, rest: Bits) {
    Encodes(b, t) ==> out <= t && Remains(t[|out|..], o, rest)
  }

  ghost predicate State(b: Bits, out: Bytes, o: nat, rest: Bits) {
    && IsTable(o) && b == Codes(out) + Prefix(o) + rest
    && forall t :: Follows(b, t, out, o, rest)
  }

  lemma {:induction false} CodesAppend(t: Bytes, s: byte)
    ensures Codes(t + [s]) == Codes(t) + Code(s)
  {
    hide Code;
    if t == [] {
      assert [s][1..] == [];
    } else {
      assert (t + [s])[1..] == t[1..] + [s];
      CodesAppend(t[1..], s);
    }
  }

  lemma StateStart(b: Bits)
    ensures State(b, [], 0, b)
  {
    hide Home;
    hide OnPath;
    assert Prefix(0) == [];
    assert b == Codes([]) + Prefix(0) + b;
    forall t: Bytes ensures Follows(b, t, [], 0, b) {
      assert t[0..] == t;
      assert Prefix(0) + b == b;
      if t != [] {
        HomeFacts(t[0]);
        RootOnPath(Home(t[0]));
      }
    }
  }

  lemma Regroup(c: Bits, p: Bits, rest: Bits, k: nat)
    requires k <= |rest|
    ensures c + p + rest == (c + (p + rest[..k])) + [] + rest[k..]
  {}

  lemma OneMore(out: Bytes, t: Bytes, s: byte)
    requires out <= t && |out| < |t| && t[|out|..][0] == s
    ensures out + [s] <= t && t[|out|..][1..] == t[|out + [s]|..]
  {}

  /** A symbol has been decoded. */
  lemma StateEmit(b: Bits, out: Bytes, o: nat, rest: Bits, y: Bits, z: Bits)
    requires State(b, out, o, rest) && Window(o, rest, y, z)
    requires var e := Look(o, y + z); e.shift > 0 && 1 <= Real(o, e) <= |y| && 0 <= Symbol(e.offset) < 256
    ensures var e := Look(o, y + z); State(b, out + [Symbol(e.offset)], 0, rest[Real(o, e)..])
  {
    hide Look;
    hide Code;
    hide Remains;
    var e := Look(o, y + z);
    var k, s := Real(o, e), Symbol(e.offset);
    LookSound(o, y + z);
    assert (y + z)[..k] == rest[..k];
    CodesAppend(out, s);
    assert Prefix(0) == [];
    hide Prefix;
    hide Codes;
    Regroup(Codes(out), Prefix(o), rest, k);
    forall t: Bytes ensures Follows(b, t, out + [s], 0, rest[k..]) {
      assert Follows(b, t, out, o, rest);
      if Encodes(b, t) {
        Emit(t[|out|..], o, rest, y, z);
        OneMore(out, t, s);
      }
    }
  }

  /** The way leads to another table. */
  lemma StateJump(b: Bits, out: Bytes, o: nat, rest: Bits)
    requires State(b, out, o, rest) && o < SMALL && |rest| >= 7 && Look(o, rest[..7]).shift <= 0
    ensures var e := Look(o, rest[..7]); e.shift == -7 && e.offset > 0 && State(b, out, e.offset, rest[7..])
    ensures var e := Look(o, rest[..7]); IsTable(e.offset) && |Prefix(e.offset)| == |Prefix(o)| + 7
  {
    hide Look;
    hide Remains;
    hide Prefix;
    hide Codes;
    LookSound(o, rest[..7]);
    var e := Look(o, rest[..7]);
    forall t: Bytes ensures Follows(b, t, out, e.offset, rest[7..]) {
      assert Follows(b, t, out, o, rest);
      if Encodes(b, t) {
        Jump(t[|out|..], o, rest);
      }
    }
  }

  /** No string is encoded: what is left is neither the code of a symbol nor a padding. */
  lemma StateRefuse(b: Bits, out: Bytes, o: nat, rest: Bits, y: Bits, z: Bits)
    requires State(b, out, o, rest) && Window(o, rest, y, z)
    requires var e := Look(o, y + z); !(e.shift > 0 && Real(o, e) <= |y|) && (|rest| <= 7 || o >= SMALL)
    requires !Padding(Prefix(o) + rest)
    ensures forall t :: !Encodes(b, t)
  {
    hide Look;
    hide Remains;
    hide Prefix;
    hide Codes;
    forall t: Bytes ensures !Encodes(b, t) {
      assert Follows(b, t, out, o, rest);
      if Encodes(b, t) {
        OnlyPadding(t[|out|..], o, rest, y, z);
        EmptyLeft(o, rest);
      }
    }
  }

  /** What is left is a padding: the string is decoded, and there is no other. */
  lemma StateAccept(b: Bits, out: Bytes, rest: Bits)
    requires State(b, out, 0, rest) && Padding(rest)
    requires rest == [] ||
      exists y, z :: Window(0, rest, y, z) && var e := Look(0, y + z); !(e.shift > 0 && Real(0, e) <= |y|)
    ensures Encodes(b, out) && forall t :: Encodes(b, t) ==> t == out
  {
    hide Look;
    hide Remains;
    assert Prefix(0) == [];
    hide Prefix;
    hide Codes;
    assert b[|Codes(out)|..] == rest;
    forall t: Bytes | Encodes(b, t) ensures t == out {
      assert Follows(b, t, out, 0, rest);
      var u := t[|out|..];
      if rest == [] {
        if u != [] {
          RemainsFirst(u, 0, rest);
          HomePrefix(u[0]);
          HomeFacts(u[0]);
        }
      } else {
        var y, z :| Window(0, rest, y, z) && var e := Look(0, y + z); !(e.shift > 0 && Real(0, e) <= |y|);
        OnlyPadding(u, 0, rest, y, z);
      }
    }
  }
}
