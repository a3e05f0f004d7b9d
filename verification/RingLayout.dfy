/** Geometry of the encoder's ring buffer (fw/hpack.c): nodes of varying size laid end to end,
    wrapping before the end of the buffer when the next one does not fit there. */
module RingLayout {
  import opened Headers
  import opened NodeLinks

  /** A node's record without the header text. */
  const NODE_STRUCT: nat := 16

  function Align8(n: nat): (r: nat)
    ensures n <= r < n + 8 && r % 8 == 0
  {
    (n + 7) / 8 * 8
  }

  function NodeLen(h: Header): (r: nat)
    ensures NODE_STRUCT <= r <= EntrySize(h)
  {
    Align8(NODE_STRUCT + Len(h))
  }

  // ----- totals over a sequence of nodes

  function LenSum(hd: seq<Header>, s: seq<int>): nat
    requires InBuffer(hd, s)
  {
    if s == [] then 0 else NodeLen(hd[s[0]]) + LenSum(hd, s[1..])
  }

  function SizeSum(hd: seq<Header>, s: seq<int>): nat
    requires InBuffer(hd, s)
  {
    if s == [] then 0 else EntrySize(hd[s[0]]) + SizeSum(hd, s[1..])
  }

  predicate InBuffer(hd: seq<Header>, s: seq<int>) {
    forall i :: 0 <= i < |s| ==> 0 <= s[i] < |hd|
  }

  lemma {:induction false} SumsAppend(hd: seq<Header>, a: seq<int>, b: seq<int>)
    requires InBuffer(hd, a) && InBuffer(hd, b)
    ensures LenSum(hd, a + b) == LenSum(hd, a) + LenSum(hd, b)
    ensures SizeSum(hd, a + b) == SizeSum(hd, a) + SizeSum(hd, b)
  {
    if a == [] {
      assert a + b == b;
    } else {
      assert (a + b)[1..] == a[1..] + b;
      SumsAppend(hd, a[1..], b);
    }
  }

  lemma {:induction false} LenBelowSize(hd: seq<Header>, s: seq<int>)
    requires InBuffer(hd, s)
    ensures LenSum(hd, s) <= SizeSum(hd, s)
    ensures s != [] ==> LenSum(hd, s) > 0
  {
    if s != [] {
      LenBelowSize(hd, s[1..]);
    }
  }

  lemma {:induction false} SumsFrame(hd: seq<Header>, hd': seq<Header>, s: seq<int>)
    requires InBuffer(hd, s) && |hd| == |hd'| && forall o :: o in s ==> hd[o] == hd'[o]
    ensures LenSum(hd, s) == LenSum(hd', s) && SizeSum(hd, s) == SizeSum(hd', s)
  {
    if s != [] {
      SumsFrame(hd, hd', s[1..]);
    }
  }

  // ----- nodes laid end to end

  /** The nodes s follow one another without a gap from offset a on. */
  predicate Chain(hd: seq<Header>, s: seq<int>, a: int)
    requires InBuffer(hd, s)
  {
    s == [] || (s[0] == a && Chain(hd, s[1..], a + NodeLen(hd[s[0]])))
  }

  lemma {:induction false} ChainRange(hd: seq<Header>, s: seq<int>, a: int)
    requires InBuffer(hd, s) && Chain(hd, s, a)
    ensures forall o :: o in s ==> a <= o && o + NodeLen(hd[o]) <= a + LenSum(hd, s)
  {
    if s != [] {
      ChainRange(hd, s[1..], a + NodeLen(hd[s[0]]));
      assert forall o :: o in s ==> o == s[0] || o in s[1..];
    }
  }

  lemma {:induction false} ChainAppend(hd: seq<Header>, s: seq<int>, a: int, y: int)
    requires InBuffer(hd, s) && Chain(hd, s, a) && 0 <= y < |hd| && y == a + LenSum(hd, s)
    ensures Chain(hd, s + [y], a)
  {
    if s != [] {
      assert (s + [y])[1..] == s[1..] + [y];
      ChainAppend(hd, s[1..], a + NodeLen(hd[s[0]]), y);
    }
  }

  lemma {:induction false} ChainFrame(hd: seq<Header>, hd': seq<Header>, s: seq<int>, a: int)
    requires InBuffer(hd, s) && |hd| == |hd'| && Chain(hd, s, a) && forall o :: o in s ==> hd[o] == hd'[o]
    ensures Chain(hd', s, a)
  {
    if s != [] {
      ChainFrame(hd, hd', s[1..], a + NodeLen(hd[s[0]]));
    }
  }

  /** Each node of a chain ends where the next one begins. */
  lemma {:induction false} ChainNext(hd: seq<Header>, s: seq<int>, a: int, i: nat)
    requires InBuffer(hd, s) && Chain(hd, s, a) && i + 1 < |s|
    ensures s[i + 1] == s[i] + NodeLen(hd[s[i]])
  {
    if i > 0 {
      ChainNext(hd, s[1..], a + NodeLen(hd[s[0]]), i - 1);
    }
  }

  lemma {:induction false} ChainLast(hd: seq<Header>, s: seq<int>, a: int)
    requires InBuffer(hd, s) && Chain(hd, s, a) && s != []
    ensures s[|s| - 1] + NodeLen(hd[s[|s| - 1]]) == a + LenSum(hd, s)
  {
    if |s| > 1 {
      ChainLast(hd, s[1..], a + NodeLen(hd[s[0]]));
    }
  }

  lemma {:induction false} ChainDisjoint(hd: seq<Header>, s: seq<int>, a: int, i: nat, j: nat)
    requires InBuffer(hd, s) && Chain(hd, s, a) && i < j < |s|
    ensures s[i] + NodeLen(hd[s[i]]) <= s[j]
  {
    if i == 0 {
      ChainRange(hd, s[1..], a + NodeLen(hd[s[0]]));
      assert s[j] in s[1..];
    } else {
      ChainDisjoint(hd, s[1..], a + NodeLen(hd[s[0]]), i - 1, j - 1);
    }
  }

  // ----- the ring

  /** The bounds the table keeps: the members shared by the table and its iterator. */
  datatype Bounds = Bounds(first: int, last: int, rbLen: nat, rbSize: nat, size: nat)

  const EMPTY := Bounds(-1, -1, 0, RBUF_SIZE, 0)

  /** The nodes head lie from b.first on, towards the end of the buffer; the nodes tail, which
      came later, from its beginning. */
  predicate Laid(hd: seq<Header>, head: seq<int>, tail: seq<int>, b: Bounds) {
    && |hd| == RBUF_SIZE && InBuffer(hd, head) && InBuffer(hd, tail)
    && b.rbLen == LenSum(hd, head) + LenSum(hd, tail)
    && b.size == SizeSum(hd, head) + SizeSum(hd, tail)
    && (head == [] ==> tail == [] && b == EMPTY)
    && (head != [] ==>
        && b.first == head[0] && b.last == (if tail == [] then head[|head| - 1] else tail[|tail| - 1])
        && Chain(hd, head, b.first) && Chain(hd, tail, 0)
        && (tail == [] ==> b.rbSize == RBUF_SIZE && b.first + LenSum(hd, head) <= RBUF_SIZE)
        && (tail != [] ==> b.first + LenSum(hd, head) == b.rbSize <= RBUF_SIZE && LenSum(hd, tail) <= b.first))
  }

  /** Where the code finds the end of the youngest node, and whether the ring is wrapped. */
  lemma LaidFacts(hd: seq<Header>, head: seq<int>, tail: seq<int>, b: Bounds)
    requires Laid(hd, head, tail, b) && head != []
    ensures 0 <= b.first < RBUF_SIZE && 0 <= b.last < RBUF_SIZE
    ensures b.last + NodeLen(hd[b.last]) == if tail == [] then b.first + LenSum(hd, head) else LenSum(hd, tail)
    ensures tail == [] <==> b.first <= b.last
    ensures b.first == b.last <==> |head + tail| == 1
    ensures b.rbLen <= b.size && b.rbSize <= RBUF_SIZE
  {
    hide NodeLen;
    LenBelowSize(hd, head);
    LenBelowSize(hd, tail);
    ChainRange(hd, head, b.first);
    if tail == [] {
      ChainLast(hd, head, b.first);
      if |head| > 1 { ChainDisjoint(hd, head, b.first, 0, |head| - 1); }
    } else {
      ChainLast(hd, tail, 0);
      ChainRange(hd, tail, 0);
    }
  }

  lemma LaidSums(hd: seq<Header>, head: seq<int>, tail: seq<int>, b: Bounds)
    requires Laid(hd, head, tail, b)
    ensures |hd| == RBUF_SIZE && InBuffer(hd, head + tail)
    ensures b.size == SizeSum(hd, head + tail) && b.rbLen == LenSum(hd, head + tail)
    ensures b.size > 0 ==> head != []
    ensures |head + tail| == 1 ==> tail == [] && b.rbSize == RBUF_SIZE
  {
    SumsAppend(hd, head, tail);
  }

  lemma LaidHead(hd: seq<Header>, head: seq<int>, tail: seq<int>, b: Bounds)
    requires Laid(hd, head, tail, b) && head != []
    ensures b.first == (head + tail)[0] && b.last == (head + tail)[|head + tail| - 1]
  {}

  lemma LaidFirst(hd: seq<Header>, head: seq<int>, tail: seq<int>, b: Bounds)
    requires Laid(hd, head, tail, b)
    ensures b.first < 0 <==> head == []
    ensures head == [] ==> tail == [] && b == EMPTY
    ensures head != [] && b.first <= b.last ==> b.rbSize == RBUF_SIZE && tail == []
  {
    if head != [] { LaidFacts(hd, head, tail, b); }
  }

  /** Dropping the oldest node when another is left. */
  lemma Pop(hd: seq<Header>, head: seq<int>, tail: seq<int>, b: Bounds)
    requires Laid(hd, head, tail, b) && |head + tail| > 1
    ensures head != []
    ensures (|head| == 1 <==> b.last < b.first && b.rbLen - NodeLen(hd[b.first]) == b.last + NodeLen(hd[b.last]))
    ensures b.rbLen >= NodeLen(hd[b.first]) && b.size >= EntrySize(hd[b.first])
    ensures var b' := b.(rbLen := b.rbLen - NodeLen(hd[b.first]), size := b.size - EntrySize(hd[b.first]));
      && (|head| == 1 ==> Laid(hd, tail, [], b'.(first := 0, rbSize := RBUF_SIZE)))
      && (|head| > 1 ==> Laid(hd, head[1..], tail, b'.(first := b.first + NodeLen(hd[b.first]))))
    ensures (head + tail)[1..] == if |head| == 1 then tail else head[1..] + tail
  {
    hide NodeLen;
    LaidFacts(hd, head, tail, b);
    LenBelowSize(hd, head[1..]);
    LenBelowSize(hd, tail);
    if |head| > 1 {
      ChainNext(hd, head, b.first, 0);
      assert b.first + NodeLen(hd[b.first]) + LenSum(hd, head[1..]) == b.first + LenSum(hd, head);
    }
  }

  // ----- what the layout means for the buffer

  /** The walk the code does: from the oldest node, each step to the end of the node, and to the
      start of the buffer where the ring ends. It meets the nodes in the order they came. */
  lemma WalkVisitsRing(hd: seq<Header>, head: seq<int>, tail: seq<int>, b: Bounds, i: nat)
    requires Laid(hd, head, tail, b) && i + 1 < |head + tail|
    ensures head != [] && (head + tail)[0] == b.first && (head + tail)[|head + tail| - 1] == b.last
    ensures var o := (head + tail)[i];
      0 <= o < RBUF_SIZE && (head + tail)[i + 1] == if o + NodeLen(hd[o]) == b.rbSize then 0 else o + NodeLen(hd[o])
  {
    hide NodeLen;
    LaidFacts(hd, head, tail, b);
    if i + 1 < |head| {
      ChainNext(hd, head, b.first, i);
      ChainRange(hd, head, b.first);
      assert head[i + 1] in head;
    } else if i + 1 == |head| {
      ChainLast(hd, head, b.first);
    } else {
      ChainNext(hd, tail, 0, i - |head|);
      ChainRange(hd, tail, 0);
      assert tail[i + 1 - |head|] in tail;
    }
  }

  /** No two nodes overlap, and all lie in the buffer. */
  lemma NodesDisjoint(hd: seq<Header>, head: seq<int>, tail: seq<int>, b: Bounds, i: nat, j: nat)
    requires Laid(hd, head, tail, b) && i < j < |head + tail|
    ensures var x, y := (head + tail)[i], (head + tail)[j];
      && 0 <= x && x + NodeLen(hd[x]) <= RBUF_SIZE && 0 <= y && y + NodeLen(hd[y]) <= RBUF_SIZE
      && (x + NodeLen(hd[x]) <= y || y + NodeLen(hd[y]) <= x)
  {
    hide NodeLen;
    LaidFacts(hd, head, tail, b);
    ChainRange(hd, head, b.first);
    ChainRange(hd, tail, 0);
    if j < |head| {
      ChainDisjoint(hd, head, b.first, i, j);
      assert head[i] in head && head[j] in head;
    } else if i < |head| {
      assert head[i] in head && tail[j - |head|] in tail;
    } else {
      ChainDisjoint(hd, tail, 0, i - |head|, j - |head|);
      assert tail[i - |head|] in tail && tail[j - |head|] in tail;
    }
  }

  // ----- placing a new node

  /** The new node follows the youngest one, at the free end of its part of the buffer. */
  lemma PushNext(hd: seq<Header>, head: seq<int>, tail: seq<int>, b: Bounds, x: Header)
    requires Laid(hd, head, tail, b) && head != []
    requires b.rbLen + NodeLen(x) <= b.rbSize
    requires b.first <= b.last ==> b.last + NodeLen(hd[b.last]) + NodeLen(x) <= RBUF_SIZE
    ensures var y := b.last + NodeLen(hd[b.last]);
      && 0 <= y < RBUF_SIZE && y !in head && y !in tail
      && var b' := b.(last := y, rbLen := b.rbLen + NodeLen(x), size := b.size + EntrySize(x));
      && (tail == [] ==> Laid(hd[y := x], head + [y], [], b'))
      && (tail != [] ==> Laid(hd[y := x], head, tail + [y], b'))
  {
    hide NodeLen;
    LaidFacts(hd, head, tail, b);
    if tail == [] {
      PushHead(hd, head, b, x);
    } else {
      PushTail(hd, head, tail, b, x);
    }
  }

  lemma PushHead(hd: seq<Header>, head: seq<int>, b: Bounds, x: Header)
    requires Laid(hd, head, [], b) && head != []
    requires b.first + LenSum(hd, head) + NodeLen(x) <= RBUF_SIZE
    ensures var y := b.first + LenSum(hd, head);
      && y !in head
      && Laid(hd[y := x], head + [y], [], b.(last := y, rbLen := b.rbLen + NodeLen(x), size := b.size + EntrySize(x)))
  {
    hide NodeLen;
    hide EntrySize;
    hide LenSum;
    hide SizeSum;
    hide Chain;
    var y := b.first + LenSum(hd, head);
    ChainRange(hd, head, b.first);
    PushFrame(hd, head, [], b, y, x);
    PushOne(hd[y := x], head, b.first, y);
  }

  lemma PushTail(hd: seq<Header>, head: seq<int>, tail: seq<int>, b: Bounds, x: Header)
    requires Laid(hd, head, tail, b) && head != [] && tail != []
    requires b.rbLen + NodeLen(x) <= b.rbSize
    ensures var y := LenSum(hd, tail);
      && y < RBUF_SIZE && y !in head && y !in tail
      && Laid(hd[y := x], head, tail + [y], b.(last := y, rbLen := b.rbLen + NodeLen(x), size := b.size + EntrySize(x)))
  {
    hide NodeLen;
    var y := LenSum(hd, tail);
    ChainRange(hd, head, b.first);
    ChainRange(hd, tail, 0);
    PushFrame(hd, head, tail, b, y, x);
    PushOne(hd[y := x], tail, 0, y);
  }

  /** The new node goes to the start of the buffer: there is no room behind the youngest. */
  lemma PushWrap(hd: seq<Header>, head: seq<int>, b: Bounds, x: Header)
    requires Laid(hd, head, [], b) && head != []
    requires b.rbLen + NodeLen(x) <= b.last + NodeLen(hd[b.last])
    ensures 0 !in head
    ensures Laid(hd[0 := x], head, [0],
                 Bounds(b.first, 0, b.rbLen + NodeLen(x), b.last + NodeLen(hd[b.last]), b.size + EntrySize(x)))
  {
    hide NodeLen;
    LaidFacts(hd, head, [], b);
    ChainRange(hd, head, b.first);
    PushFrame(hd, head, [], b, 0, x);
    PushOne(hd[0 := x], [], 0, 0);
    assert [] + [0] == [0];
  }

  /** The first node of an empty buffer. */
  lemma PushEmpty(hd: seq<Header>, x: Header)
    requires |hd| == RBUF_SIZE && NodeLen(x) <= RBUF_SIZE
    ensures Laid(hd[0 := x], [0], [], Bounds(0, 0, NodeLen(x), RBUF_SIZE, EntrySize(x)))
  {
    PushOne(hd[0 := x], [], 0, 0);
  }

  lemma PushOne(hd: seq<Header>, s: seq<int>, a: int, y: int)
    requires InBuffer(hd, s) && Chain(hd, s, a) && 0 <= y < |hd| && y == a + LenSum(hd, s)
    ensures Chain(hd, s + [y], a)
    ensures LenSum(hd, s + [y]) == LenSum(hd, s) + NodeLen(hd[y])
    ensures SizeSum(hd, s + [y]) == SizeSum(hd, s) + EntrySize(hd[y])
  {
    ChainAppend(hd, s, a, y);
    SumsAppend(hd, s, [y]);
  }

  /** Writing a header outside the ring keeps the layout of what is there. */
  lemma PushFrame(hd: seq<Header>, head: seq<int>, tail: seq<int>, b: Bounds, y: int, x: Header)
    requires Laid(hd, head, tail, b) && 0 <= y < RBUF_SIZE && y !in head && y !in tail
    ensures Laid(hd[y := x], head, tail, b)
    ensures LenSum(hd[y := x], head) == LenSum(hd, head) && LenSum(hd[y := x], tail) == LenSum(hd, tail)
    ensures SizeSum(hd[y := x], head) == SizeSum(hd, head) && SizeSum(hd[y := x], tail) == SizeSum(hd, tail)
  {
    SumsFrame(hd, hd[y := x], head);
    SumsFrame(hd, hd[y := x], tail);
    if head != [] {
      ChainFrame(hd, hd[y := x], head, b.first);
      ChainFrame(hd, hd[y := x], tail, 0);
    }
  }

  lemma RingDistinct(hd: seq<Header>, head: seq<int>, tail: seq<int>, b: Bounds)
    requires Laid(hd, head, tail, b)
    ensures forall i, j :: 0 <= i < j < |head + tail| ==> (head + tail)[i] != (head + tail)[j]
  {
    forall i, j | 0 <= i < j < |head + tail| ensures (head + tail)[i] != (head + tail)[j] {
      NodesDisjoint(hd, head, tail, b, i, j);
    }
  }
}
