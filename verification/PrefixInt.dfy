/** Integers of section 5.1 of RFC 7541 (fw/hpack.c:185-243, 391-413; fw/hpack.h:220-226, 281-297). */
module PrefixInt {
  import opened Headers
  import opened Powers
  import opened BitStrings

  const LIMIT := 0x100000

  /** Groups of seven bits, the lowest first, all but the last marked. */
  function Groups(v: nat): (b: Bytes)
    ensures |b| > 0
  {
    if v <= 0x7F then [v] else [v % 128 + 128] + Groups(v / 128)
  }

  /** The integer with a prefix whose largest value is max, below the bits of the mask. */
  function Encoded(v: nat, max: nat, mask: nat): Bytes
    requires max + mask < 256
  {
    if v < max then [v + mask] else [max + mask] + Groups(v - max)
  }

  /** Writing an integer. */
  method WriteInt(index: nat, max: nat, mask: nat) returns (buf: Bytes)
    requires max + mask < 256
    ensures buf == Encoded(index, max, mask)
  {
    if index < max {
      return [index + mask];
    }
    buf := [max + mask];
    var v: nat := index - max;
    while v > 0x7F
      invariant buf + Groups(v) == Encoded(index, max, mask)
    {
      buf := buf + [v % 128 + 128];
      v := v / 128;
    }
    buf := buf + [v];
  }

  /** Its length. */
  method IntSize(index: nat, max: nat) returns (size: nat)
    requires max < 256
    ensures size == |Encoded(index, max, 0)|
  {
    size := 1;
    if index < max {
      return;
    }
    size := size + 1;
    var v: nat := index - max;
    while v > 0x7F
      invariant size + |Groups(v)| == 1 + |Encoded(index, max, 0)|
    {
      size := size + 1;
      v := v / 128;
    }
  }

  /** The buffer has three bytes: it is enough exactly below max + 2^14. */
  lemma FitsIff(index: nat, max: nat, mask: nat)
    requires max + mask < 256
    ensures |Encoded(index, max, mask)| == |Encoded(index, max, 0)|
    ensures |Encoded(index, max, mask)| <= 3 <==> index < max + 0x4000
  {
    if index >= max {
      var v := index - max;
      assert v > 0x7F ==> Groups(v) == [v % 128 + 128] + Groups(v / 128);
      if v / 128 > 0x7F {
        assert Groups(v / 128) == [v / 128 % 128 + 128] + Groups(v / 128 / 128);
      }
    }
  }

  // ----- reading

  /** Where reading stands: the value and the bytes behind it, the value so far and the shift of the
      next byte, or a value above the limit. */
  datatype Read = Done(x: nat, rest: Bytes) | More(x: nat, shift: nat) | Drop

  /** A group in its place, in 32 bits. */
  function Shl(g: nat, m: nat): (d: nat)
    ensures d < TWO32
  {
    g * Pow2(m) % TWO32
  }

  function Flex(x: nat, m: nat, src: Bytes): Read
    decreases |src|
  {
    if src == [] then More(x, m)
    else
      var c := src[0];
      var x' := x + Shl(c % 128, m);
      if x' > LIMIT then Drop
      else if c > 127 then Flex(x', m + 7, src[1..])
      else Done(x', src[1..])
  }

  /** Reading the bytes behind a prefix that is full (fw/hpack.c:189-208). */
  method GetFlexible(x0: nat, src: Bytes) returns (r: Read)
    ensures r == Flex(x0, 0, src)
  {
    hide Shl;
    var x: nat, m: nat, i: nat := x0, 0, 0;
    while true
      invariant i <= |src| && Flex(x, m, src[i..]) == Flex(x0, 0, src)
      decreases |src| - i
    {
      if i == |src| {
        return More(x, m);
      }
      var c := src[i];
      assert src[i..][1..] == src[i + 1..];
      x := x + Shl(c % 128, m);
      m := m + 7;
      i := i + 1;
      if x > LIMIT {
        return Drop;
      }
      if c <= 127 {
        return Done(x, src[i..]);
      }
    }
  }

  lemma ShlSmall(g: nat, m: nat)
    requires g * Pow2(m) < TWO32
    ensures Shl(g, m) == g * Pow2(m)
  {}

  lemma GroupSplit(w: nat, p: nat)
    ensures w * p == w / 128 * (128 * p) + w % 128 * p && w % 128 * p <= w * p
  {
    var q, r := w / 128, w % 128;
    MulAdd(q * 128, r, p);
    MulAssoc(q, 128, p);
    MulAtLeast(q * 128, 0, p);
  }

  /** What was written is read back. */
  lemma {:induction false} FlexGroups(x: nat, m: nat, w: nat, tail: Bytes)
    requires x + w * Pow2(m) <= LIMIT
    ensures Flex(x, m, Groups(w) + tail) == Done(x + w * Pow2(m), tail)
    decreases w
  {
    var src := Groups(w) + tail;
    var p := Pow2(m);
    if w <= 0x7F {
      assert src[1..] == tail;
      ShlSmall(w, m);
    } else {
      assert src[1..] == Groups(w / 128) + tail && src[0] % 128 == w % 128;
      Pow2Add(7, m);
      Pow2Values();
      hide Pow2;
      GroupSplit(w, p);
      ShlSmall(w % 128, m);
      hide Shl;
      FlexGroups(x + w % 128 * p, m + 7, w / 128, tail);
    }
  }

  /** The value of every integer up to the limit comes back, whatever follows it. */
  lemma RoundTrip(v: nat, max: nat, mask: nat, tail: Bytes)
    requires max + mask < 256 && v <= LIMIT
    ensures var b := Encoded(v, max, mask);
            if v < max then b == [v + mask] else b[0] == max + mask && Flex(max, 0, b[1..] + tail) == Done(v, tail)
  {
    if v >= max {
      var w := v - max;
      assert Pow2(0) == 1;
      FlexGroups(max, 0, w, tail);
      assert Encoded(v, max, mask)[1..] == Groups(w);
    }
  }

  // ----- the limit

  /** Section 5.1 of RFC 7541, with the limit of the program. */
  function Exact(x: nat, m: nat, src: Bytes): Read
    decreases |src|
  {
    if src == [] then More(x, m)
    else
      var c := src[0];
      var x' := x + c % 128 * Pow2(m);
      if x' > LIMIT then Drop
      else if c > 127 then Exact(x', m + 7, src[1..])
      else Done(x', src[1..])
  }

  /** The groups up to the last one, or up to the end, together. */
  function Value(m: nat, src: Bytes): nat
    decreases |src|
  {
    if src == [] then 0
    else src[0] % 128 * Pow2(m) + if src[0] > 127 then Value(m + 7, src[1..]) else 0
  }

  /** The same, each group in 32 bits. */
  function Low(m: nat, src: Bytes): nat
    decreases |src|
  {
    if src == [] then 0
    else Shl(src[0] % 128, m) + if src[0] > 127 then Low(m + 7, src[1..]) else 0
  }

  /** Where reading ends with the value v when nothing is dropped. */
  function Ended(v: nat, m: nat, src: Bytes): Read
    decreases |src|
  {
    if src == [] then More(v, m)
    else if src[0] > 127 then Ended(v, m + 7, src[1..])
    else Done(v, src[1..])
  }

  lemma {:induction false} EndedTells(v: nat, w: nat, m: nat, src: Bytes)
    ensures Ended(v, m, src) != Drop && (Ended(v, m, src) == Ended(w, m, src) <==> v == w)
    decreases |src|
  {
    if src != [] && src[0] > 127 {
      EndedTells(v, w, m + 7, src[1..]);
    }
  }

  lemma {:induction false} FlexIs(x: nat, m: nat, src: Bytes)
    requires x <= LIMIT
    ensures Flex(x, m, src) == if x + Low(m, src) > LIMIT then Drop else Ended(x + Low(m, src), m, src)
    decreases |src|
  {
    hide Shl;
    if src != [] && src[0] > 127 && x + Shl(src[0] % 128, m) <= LIMIT {
      FlexIs(x + Shl(src[0] % 128, m), m + 7, src[1..]);
    }
  }

  lemma {:induction false} ExactIs(x: nat, m: nat, src: Bytes)
    requires x <= LIMIT
    ensures Exact(x, m, src) == if x + Value(m, src) > LIMIT then Drop else Ended(x + Value(m, src), m, src)
    decreases |src|
  {
    hide Pow2;
    if src != [] && src[0] > 127 && x + src[0] % 128 * Pow2(m) <= LIMIT {
      ExactIs(x + src[0] % 128 * Pow2(m), m + 7, src[1..]);
    }
  }

  /** Small groups are not cut. */
  lemma {:induction false} LowIsValue(m: nat, src: Bytes)
    ensures Low(m, src) <= Value(m, src)
    ensures Value(m, src) < TWO32 ==> Low(m, src) == Value(m, src)
    decreases |src|
  {
    if src != [] {
      var v := src[0] % 128 * Pow2(m);
      assert v % TWO32 <= v;
      if src[0] > 127 {
        LowIsValue(m + 7, src[1..]);
      }
    }
  }

  /** The value and the limit test are right if and only if an integer above the limit is above it
      in the 32 bits of its groups, too. */
  lemma LimitIsRightIff(x: nat, m: nat, src: Bytes)
    ensures Flex(x, m, src) == Exact(x, m, src) <==>
            (x + Value(m, src) > LIMIT ==> x + Low(m, src) > LIMIT)
  {
    hide Shl;
    hide Pow2;
    hide Ended;
    if x <= LIMIT {
      FlexIs(x, m, src);
      ExactIs(x, m, src);
      LowIsValue(m, src);
      EndedTells(x + Low(m, src), x + Value(m, src), m, src);
    }
  }

  /** A byte is read at a shift of 32 or more, which C does not define; here it shifts everything
      out. */
  predicate Deep(x: nat, m: nat, src: Bytes)
    decreases |src|
  {
    && src != []
    && (m >= 32 || (var x' := x + Shl(src[0] % 128, m); x' <= LIMIT && src[0] > 127 && Deep(x', m + 7, src[1..])))
  }

  /** The first k bytes say that more follows. */
  predicate Marked(src: Bytes, k: nat) {
    k == 0 || (src != [] && src[0] > 127 && Marked(src[1..], k - 1))
  }

  lemma {:induction false} DeepStep(x: nat, m: nat, k: nat, src: Bytes)
    requires m + 7 * k == 35
    ensures Deep(x, m, src) <==> |src| > k && Marked(src, k) && (k > 0 ==> x + Low(m, src[..k]) <= LIMIT)
    decreases k
  {
    hide Shl;
    if k > 0 && src != [] {
      DeepStep(x + Shl(src[0] % 128, m), m + 7, k - 1, src[1..]);
      if |src| > k {
        assert src[..k][1..] == src[1..][..k - 1];
        assert src[1..][..0] == [];
      }
    }
  }

  /** That is so exactly with five bytes that say that more follows, within the limit so far, and a
      sixth one. */
  lemma DeepIff(x: nat, src: Bytes)
    ensures Deep(x, 0, src) <==> |src| >= 6 && Marked(src, 5) && x + Low(0, src[..5]) <= LIMIT
  {
    DeepStep(x, 0, 5, src);
  }

  // ----- the limit on the bytes

  /** Groups of k bytes that say that more follows, and those behind them. */
  lemma {:induction false} GroupsSplit(m: nat, k: nat, src: Bytes)
    requires |src| >= k && Marked(src, k)
    ensures Value(m, src) == Value(m, src[..k]) + Value(m + 7 * k, src[k..])
    ensures Low(m, src) == Low(m, src[..k]) + Low(m + 7 * k, src[k..])
    decreases k
  {
    hide Shl;
    hide Pow2;
    if k == 0 {
      assert src[..0] == [] && src[0..] == src;
    } else {
      GroupsSplit(m + 7, k - 1, src[1..]);
      assert src[..k][1..] == src[1..][..k - 1] && src[1..][k - 1..] == src[k..];
      assert src[..k][0] == src[0];
    }
  }

  /** At most k groups are less than 2^(7k). */
  lemma {:induction false} FewGroups(m: nat, k: nat, src: Bytes)
    requires !(|src| > k && Marked(src, k))
    ensures Value(m, src) + Pow2(m) <= Pow2(m + 7 * k)
    decreases k
  {
    if src == [] {
      Pow2Monotone(m, m + 7 * k);
    } else {
      Pow2Add(7, m);
      Pow2Values();
      hide Pow2;
      MulAtLeast(127, src[0] % 128, Pow2(m));
      if src[0] > 127 {
        FewGroups(m + 7, k - 1, src[1..]);
      } else {
        Pow2Monotone(m + 7, m + 7 * k);
      }
    }
  }

  /** At a shift of 32 or more nothing is left in 32 bits. */
  lemma {:induction false} NothingLow(m: nat, src: Bytes)
    requires m >= 32
    ensures Low(m, src) == 0
    decreases |src|
  {
    if src != [] {
      ShiftedOut(src[0] % 128, m);
      hide Shl;
      NothingLow(m + 7, src[1..]);
    }
  }

  lemma ShiftedOut(g: nat, m: nat)
    requires m >= 32
    ensures Shl(g, m) == 0
  {
    Pow2Add(m - 32, 32);
    Pow2Is32();
    var p := Pow2(m - 32);
    hide Pow2;
    MulAssoc(g, p, TWO32);
    ModUnique(g * p * TWO32, TWO32, g * p, 0);
  }

  /** A value that is not 0 has a group that is not. */
  lemma {:induction false} ValueAtLeast(m: nat, src: Bytes)
    ensures Value(m, src) == 0 || Value(m, src) >= Pow2(m)
    decreases |src|
  {
    if src != [] {
      if src[0] % 128 > 0 {
        MulAtLeast(src[0] % 128, 1, Pow2(m));
      } else if src[0] > 127 {
        Pow2Monotone(m, m + 7);
        ValueAtLeast(m + 7, src[1..]);
      }
    }
  }

  /** The fifth group in 32 bits: its low four bits. */
  lemma FifthGroup(g: nat)
    ensures Shl(g, 28) == g % 16 * 0x1000_0000
  {
    Pow2Sevens();
    ShlIs(g, 28, 0x1000_0000);
  }

  /** So the limit test goes wrong on exactly these bytes: four groups within the limit, a fifth one whose low
      four bits are 0, and anything else in it or behind it. */
  lemma LimitIsWrongIff(x: nat, src: Bytes)
    ensures Flex(x, 0, src) != Exact(x, 0, src) <==>
            && |src| >= 5 && Marked(src, 4) && x + Value(0, src[..4]) <= LIMIT
            && src[4] % 16 == 0 && Value(28, src[4..]) > 0
  {
    hide Shl;
    hide Value;
    hide Low;
    hide Marked;
    hide Flex;
    hide Exact;
    LimitIsRightIff(x, 0, src);
    LowIsValue(0, src);
    Pow2Sevens();
    hide Pow2;
    if |src| > 4 && Marked(src, 4) {
      GroupsSplit(0, 4, src);
      FewGroups(0, 4, src[..4]);
      LowIsValue(0, src[..4]);
      ValueAtLeast(28, src[4..]);
      FifthAndOn(src[4..]);
    } else {
      FewGroups(0, 4, src);
    }
  }

  lemma FifthAndOn(src: Bytes)
    requires src != []
    ensures var g: nat := src[0] % 16; Low(28, src) == g * 0x1000_0000
  {
    hide Shl;
    FifthGroup(src[0] % 128);
    NothingLow(35, src[1..]);
  }

  lemma ShlIs(g: nat, m: nat, p: nat)
    requires Pow2(m) == p
    ensures Shl(g, m) == g * p % TWO32
  {}

  lemma FlexNone(x: nat, m: nat)
    ensures Flex(x, m, []) == More(x, m) && Pow2(0) == 1
  {}

  lemma FlexHead(x: nat, m: nat, c: byte, src: Bytes)
    ensures var x' := x + Shl(c % 128, m);
            Flex(x, m, [c] + src) ==
              if x' > LIMIT then Drop else if c > 127 then Flex(x', m + 7, src) else Done(x', src)
    ensures var x' := x + c % 128 * Pow2(m);
            Exact(x, m, [c] + src) ==
              if x' > LIMIT then Drop else if c > 127 then Exact(x', m + 7, src) else Done(x', src)
  {
    hide Shl;
    hide Pow2;
    assert ([c] + src)[1..] == src;
  }

  /** A full prefix, four empty groups and 2^4 at a shift of 28: the group is shifted out, and the
      prefix alone is the value. */
  lemma LimitIsWrong(x: nat)
    requires x <= LIMIT
    ensures var src := [0x80, 0x80, 0x80, 0x80, 0x10];
            Flex(x, 0, src) == Done(x, []) && Exact(x, 0, src) == Drop
  {
    hide Flex;
    hide Exact;
    hide Shl;
    hide Pow2;
    Pow2Sevens();
    FlexHead(x, 0, 0x80, [0x80, 0x80, 0x80, 0x10]);
    FlexHead(x, 7, 0x80, [0x80, 0x80, 0x10]);
    FlexHead(x, 14, 0x80, [0x80, 0x10]);
    FlexHead(x, 21, 0x80, [0x10]);
    FlexHead(x, 28, 0x10, []);
    assert [0x80, 0x80, 0x80, 0x80, 0x10] == [0x80] + [0x80, 0x80, 0x80, 0x10];
    assert [0x80, 0x80, 0x80, 0x10] == [0x80] + [0x80, 0x80, 0x10];
    assert [0x80, 0x80, 0x10] == [0x80] + [0x80, 0x10];
    assert [0x80, 0x10] == [0x80] + [0x10] && [0x10] == [0x10] + [];
    FlexNone(x, 0);
    ShlIs(0, 0, 1);
    ShlIs(0, 7, 0x80);
    ShlIs(0, 14, 0x4000);
    ShlIs(0, 21, 0x20_0000);
    ShlIs(16, 28, 0x1000_0000);
  }

  // ----- reading that goes on with another fragment

  function Or(a: nat, b: nat): nat {
    if a == 0 then b else 2 * Or(a / 2, b / 2) + if a % 2 == 1 || b % 2 == 1 then 1 else 0
  }

  function And(a: nat, b: nat): nat {
    if a == 0 then 0 else 2 * And(a / 2, b / 2) + if a % 2 == 1 && b % 2 == 1 then 1 else 0
  }

  lemma {:induction false} OrAnd(a: nat, b: nat)
    ensures Or(a, b) + And(a, b) == a + b
    ensures Or(a, b) >= a && Or(a, b) >= b
  {
    if a != 0 {
      OrAnd(a / 2, b / 2);
    }
  }

  lemma {:induction false} OrSwaps(a: nat, b: nat)
    ensures Or(a, b) == Or(b, a)
  {
    if a == 0 {
      OrZero(b);
    } else if b == 0 {
      OrZero(a);
    } else {
      OrSwaps(a / 2, b / 2);
    }
  }

  lemma {:induction false} OrZero(a: nat)
    ensures Or(a, 0) == a
  {
    if a != 0 { OrZero(a / 2); }
  }

  /** The last bit of an or, and the others. */
  lemma OrHalves(a: nat, b: nat)
    ensures Or(a, b) / 2 == Or(a / 2, b / 2)
    ensures Or(a, b) % 2 == if a % 2 == 1 || b % 2 == 1 then 1 else 0
  {}

  lemma {:induction false} OrJoins(a: nat, b: nat, c: nat)
    ensures Or(Or(a, b), c) == Or(a, Or(b, c))
  {
    if a != 0 {
      OrHalves(a, b);
      OrHalves(b, c);
      OrHalves(Or(a, b), c);
      OrHalves(a, Or(b, c));
      OrJoins(a / 2, b / 2, c / 2);
    }
  }

  /** Numbers that keep to different sides of a bit share none. */
  lemma {:induction false} AndApart(a: nat, b: nat, k: nat)
    requires a < Pow2(k) && b % Pow2(k) == 0
    ensures And(a, b) == 0
    decreases k
  {
    if a != 0 {
      var p := Pow2(k - 1);
      HalfMod(b, p);
      AndApart(a / 2, b / 2, k - 1);
    }
  }

  /** The bytes after the first of a later fragment: they are put in with an or. */
  function Rest(x: nat, m: nat, src: Bytes): Read
    decreases |src|
  {
    if src == [] then More(x, m)
    else
      var c := src[0];
      var x' := Or(Shl(c % 128, m), x);
      if x' > LIMIT then Drop
      else if c > 127 then Rest(x', m + 7, src[1..])
      else Done(x', src[1..])
  }

  /** A later fragment. */
  function Continued(x: nat, m: nat, src: Bytes): Read
    requires src != []
  {
    var c := src[0];
    var x' := x + Shl(c % 128, m);
    if x' > LIMIT then Drop else if c > 127 then Rest(x', m + 7, src[1..]) else Done(x', src[1..])
  }

  /** fw/hpack.c:217-243 */
  method GetContinue(x0: nat, m0: nat, src: Bytes) returns (r: Read)
    requires src != []
    ensures r == Continued(x0, m0, src)
  {
    hide Shl;
    hide Or;
    var c, i: nat := src[0], 1;
    var x: nat := x0 + Shl(c % 128, m0);
    var m: nat := m0 + 7;
    if x > LIMIT {
      return Drop;
    }
    while c > 127
      invariant 1 <= i <= |src| && x <= LIMIT
      invariant Continued(x0, m0, src) == if c > 127 then Rest(x, m, src[i..]) else Done(x, src[i..])
      decreases |src| - i
    {
      if i == |src| {
        return More(x, m);
      }
      c := src[i];
      assert src[i..][1..] == src[i + 1..];
      i := i + 1;
      x := Or(Shl(c % 128, m), x);
      m := m + 7;
      if x > LIMIT {
        return Drop;
      }
    }
    r := Done(x, src[i..]);
  }

  /** Reading on after the first fragments, one byte at a time. */
  function ByBytes(r: Read, src: Bytes): Read
    decreases |src|
  {
    match r
    case More(x, m) => if src == [] then r else ByBytes(Continued(x, m, src[..1]), src[1..])
    case Done(x, rest) => Done(x, rest + src)
    case Drop => Drop
  }

  /** What the first fragment leaves, later ones of one byte each finish. */
  lemma {:induction false} OneByOne(x: nat, m: nat, first: Bytes, later: Bytes)
    ensures ByBytes(Flex(x, m, first), later) == Flex(x, m, first + later)
    decreases |first|
  {
    hide Shl;
    if first == [] {
      assert first + later == later;
      Single(x, m, later);
    } else {
      assert (first + later)[1..] == first[1..] + later;
      OneByOne(x + Shl(first[0] % 128, m), m + 7, first[1..], later);
    }
  }

  lemma {:induction false} Single(x: nat, m: nat, later: Bytes)
    ensures ByBytes(More(x, m), later) == Flex(x, m, later)
    decreases |later|
  {
    hide Shl;
    if later != [] {
      var c, one := later[0], later[..1];
      assert one[1..] == [] && [] + later[1..] == later[1..];
      var x' := x + Shl(c % 128, m);
      if x' <= LIMIT && c > 127 {
        assert Continued(x, m, one) == More(x', m + 7);
        Single(x', m + 7, later[1..]);
      }
    }
  }

  function Least(a: nat, b: nat): nat {
    if a < b then a else b
  }

  lemma LessTimes(g: nat, n: nat, p: nat)
    requires g < n && p >= 1
    ensures g * p < n * p
  {
    MulAtLeast(n, g + 1, p);
    MulAdd(g, 1, p);
  }

  lemma CutBelow(v: nat)
    ensures v % TWO32 <= v && v % TWO32 < TWO32
  {}

  /** A group keeps below the place of the next one. */
  lemma ShlBelow(g: nat, m: nat)
    requires g < 128
    ensures Shl(g, m) < Pow2(Least(m + 7, 32))
  {
    var p := Pow2(m);
    Pow2Is32();
    Pow2Add(m, 7);
    Pow2Values();
    hide Pow2;
    LessTimes(g, 128, p);
    CutBelow(g * p);
  }

  /** And clear of the places before it. */
  lemma ShlClear(g: nat, m: nat)
    ensures Shl(g, m) % Pow2(Least(m, 32)) == 0
  {
    var k := Least(m, 32);
    Pow2Is32();
    Pow2Add(m - k, k);
    LowBits(g * Pow2(m), k, 32);
    hide Pow2;
    MulAssoc(g, Pow2(m - k), Pow2(k));
    MultipleMod(g * Pow2(m - k), Pow2(k));
  }

  lemma {:induction false} LowClear(m: nat, k: nat, src: Bytes)
    requires k <= m
    ensures Low(m, src) % Pow2(Least(k, 32)) == 0
    decreases |src|
  {
    hide Shl;
    hide Pow2;
    if src != [] {
      var d := Shl(src[0] % 128, m);
      ShlClear(src[0] % 128, m);
      DivisorMod(d, Least(k, 32), Least(m, 32));
      if src[0] > 127 {
        LowClear(m + 7, k, src[1..]);
        SumMod(d, Low(m + 7, src[1..]), Pow2(Least(k, 32)));
      }
    }
  }

  lemma DivisorMod(d: nat, i: nat, j: nat)
    requires i <= j && d % Pow2(j) == 0
    ensures d % Pow2(i) == 0
  {
    LowBits(d, i, j);
    assert 0 % Pow2(i) == 0;
  }

  lemma SumMod(a: nat, b: nat, p: nat)
    requires p > 0 && a % p == 0 && b % p == 0
    ensures (a + b) % p == 0
  {
    DivMod(a, p);
    DivMod(b, p);
    MulAdd(a / p, b / p, p);
    MultipleMod(a / p + b / p, p);
  }

  lemma MultipleMod(a: nat, p: nat)
    requires p > 0
    ensures a * p % p == 0
  {
    ModUnique(a * p, p, a, 0);
  }

  lemma {:induction false} RestIs(y: nat, m: nat, src: Bytes)
    requires y <= LIMIT
    ensures Rest(y, m, src) == if Or(y, Low(m, src)) > LIMIT then Drop else Ended(Or(y, Low(m, src)), m, src)
    decreases |src|
  {
    if src == [] {
      OrZero(y);
    } else {
      var d := Shl(src[0] % 128, m);
      ShlBelow(src[0] % 128, m);
      hide Shl;
      hide Pow2;
      OrSwaps(d, y);
      if src[0] > 127 {
        var l := Low(m + 7, src[1..]);
        LowClear(m + 7, m + 7, src[1..]);
        AndApart(d, l, Least(m + 7, 32));
        OrAnd(d, l);
        OrJoins(y, d, l);
        OrAnd(Or(y, d), l);
        hide Or;
        if Or(d, y) <= LIMIT {
          RestIs(Or(d, y), m + 7, src[1..]);
        }
      }
    }
  }

  /** No group falls on bits that the value so far has already. */
  predicate Apart(x: nat, m: nat, src: Bytes) {
    And(x, Low(m, src)) == 0
  }

  lemma RestIsRightIff(y: nat, m: nat, src: Bytes)
    requires y <= LIMIT
    ensures Rest(y, m, src) == Flex(y, m, src) <==> Apart(y, m, src) || Or(y, Low(m, src)) > LIMIT
  {
    var l := Low(m, src);
    RestIs(y, m, src);
    FlexIs(y, m, src);
    OrAnd(y, l);
    hide Low;
    hide Ended;
    hide Or;
    hide And;
    hide Rest;
    hide Flex;
    EndedTells(Or(y, l), y + l, m, src);
  }

  /** A later fragment gives what one fragment would if and only if its groups behind the first fall on
      no bit of the value so far, or pass the limit even so. */
  lemma OrIsRightIff(x: nat, m: nat, src: Bytes)
    requires src != []
    ensures var y := x + Shl(src[0] % 128, m);
            Continued(x, m, src) == Flex(x, m, src) <==>
            (src[0] > 127 && y <= LIMIT ==> Apart(y, m + 7, src[1..]) || Or(y, Low(m + 7, src[1..])) > LIMIT)
  {
    hide Shl;
    hide Low;
    hide Or;
    hide And;
    var y, rest := x + Shl(src[0] % 128, m), src[1..];
    if src[0] > 127 && y <= LIMIT {
      assert Continued(x, m, src) == Rest(y, m + 7, rest) && Flex(x, m, src) == Flex(y, m + 7, rest);
      hide Rest;
      hide Flex;
      RestIsRightIff(y, m + 7, rest);
    }
  }

  lemma RestHead(x: nat, m: nat, c: byte, src: Bytes)
    ensures var x' := Or(Shl(c % 128, m), x);
            Rest(x, m, [c] + src) ==
              if x' > LIMIT then Drop else if c > 127 then Rest(x', m + 7, src) else Done(x', src)
    ensures var x' := x + Shl(c % 128, m);
            Continued(x, m, [c] + src) ==
              if x' > LIMIT then Drop else if c > 127 then Rest(x', m + 7, src) else Done(x', src)
  {
    hide Shl;
    hide Or;
    assert ([c] + src)[1..] == src;
  }

  lemma Twice(a: nat, p: nat)
    ensures a * (2 * p) == 2 * (a * p)
  {}

  lemma {:induction false} OrStep(x: nat, y: nat, r: nat)
    ensures Or(2 * x, 2 * y + r) == 2 * Or(x, y + r / 2) + r % 2
  {
    OrHalves(2 * x, 2 * y + r);
  }

  lemma {:induction false} OrItself(a: nat)
    ensures Or(a, a) == a
  {
    if a != 0 { OrItself(a / 2); }
  }

  lemma {:induction false} OrOne(n: nat)
    ensures Or(2 * n + 1, 1) == 2 * n + 1
  {
    hide Or;
    OrZero(n);
    OrHalves(2 * n + 1, 1);
  }

  /** A later fragment of two bytes. */
  lemma TwoBytes(x: nat, m: nat, c: byte, d: byte)
    requires c > 127 >= d && x + Shl(c % 128, m) <= LIMIT
    ensures var y := x + Shl(c % 128, m) + Shl(d, m + 7);
            Flex(x, m, [c, d]) == if y > LIMIT then Drop else Done(y, [])
    ensures var y := Or(Shl(d, m + 7), x + Shl(c % 128, m));
            Continued(x, m, [c, d]) == if y > LIMIT then Drop else Done(y, [])
  {
    hide Shl;
    hide Or;
    assert [c, d] == [c] + [d] && [d] == [d] + [];
    FlexHead(x, m, c, [d]);
    FlexHead(x + Shl(c % 128, m), m + 7, d, []);
    RestHead(x, m, c, [d]);
    RestHead(x + Shl(c % 128, m), m + 7, d, []);
  }

  lemma Encoded256()
    ensures Encoded(256, 127, 128) == [255, 129, 1]
  {
    assert Groups(129) == [129] + Groups(1);
  }

  /** A prefix of seven bits, and 256 behind it: in one fragment it is 256; with the last two bytes in a
      fragment of their own it is 128. */
  lemma OrIsWrong()
    ensures Encoded(256, 127, 128) == [255, 129, 1]
    ensures Flex(127, 0, [129, 1]) == Done(256, []) && Continued(127, 0, [129, 1]) == Done(128, [])
  {
    Encoded256();
    hide Encoded;
    hide Flex;
    hide Continued;
    hide Shl;
    hide Pow2;
    hide Or;
    Pow2Sevens();
    FlexNone(0, 0);
    ShlIs(1, 0, 1);
    ShlIs(1, 7, 0x80);
    OrItself(0x80);
    TwoBytes(127, 0, 129, 1);
  }

  /** An or that is higher up, with bits of one side below. */
  lemma {:induction false} OrHigh(a: nat, b: nat, r: nat, k: nat)
    requires r < Pow2(k)
    ensures Or(a * Pow2(k), b * Pow2(k) + r) == Or(a, b) * Pow2(k) + r
    decreases k
  {
    if k > 0 {
      var p, q := Pow2(k - 1), Pow2(k);
      assert q == 2 * p;
      hide Pow2;
      hide Or;
      Twice(a, p);
      Twice(b, p);
      Twice(Or(a, b), p);
      OrHigh(a, b, r / 2, k - 1);
      OrStep(a * p, b * p, r);
    } else {
      assert Pow2(k) == 1;
    }
  }

  /** A prefix of seven bits, and [255, 255, 63] behind it, which is above the limit: with the last two
      bytes in a fragment of their own it is accepted. */
  lemma OrAccepts()
    ensures Flex(127, 0, [255, 255, 63]) == Drop
    ensures Flex(127, 0, [255]) == More(254, 7) && Continued(254, 7, [255, 63]) == Done(1032318, [])
  {
    hide Flex;
    hide Continued;
    hide Shl;
    hide Pow2;
    Pow2Sevens();
    hide Or;
    FlexNone(254, 7);
    OrOne(31);
    OrHigh(63, 1, 126, 14);
    ShlIs(127, 0, 1);
    ShlIs(127, 7, 0x80);
    ShlIs(63, 14, 0x4000);
    FlexHead(127, 0, 255, [255, 63]);
    FlexHead(127, 0, 255, []);
    TwoBytes(254, 7, 255, 63);
    assert [255, 255, 63] == [255] + [255, 63] && [255] == [255] + [];
  }
}
