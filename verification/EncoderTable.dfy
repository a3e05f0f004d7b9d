/** The encoder's dynamic index (fw/hpack.c): the ring buffer that orders the entries by age and
    the search tree through the same nodes, kept in step by additions and evictions. */
module EncoderTable {
  import opened Basics
  import opened Headers
  import opened RedBlack
  import opened NodeLinks
  import opened NodeTree
  import opened RingLayout
  import opened EncoderSpec
  import Fifo

  const MAX_EVICTION: nat := 5

  function Entries(hd: seq<Header>, s: seq<int>): (r: seq<Header>)
    requires InBuffer(hd, s)
    ensures |r| == |s| && forall i :: 0 <= i < |s| ==> r[i] == hd[s[i]]
  {
    seq(|s|, i requires 0 <= i < |s| => hd[s[i]])
  }

  lemma {:induction false} EntriesSize(hd: seq<Header>, s: seq<int>)
    requires InBuffer(hd, s)
    ensures Fifo.TableSize(Entries(hd, s)) == SizeSum(hd, s)
  {
    if s != [] {
      assert Entries(hd, s)[1..] == Entries(hd, s[1..]);
      EntriesSize(hd, s[1..]);
    }
  }

  /** How many of the oldest nodes must go for the rest to fit in limit. */
  ghost function Victims(hd: seq<Header>, s: seq<int>, limit: nat): (k: nat)
    requires InBuffer(hd, s)
    ensures k <= |s|
  {
    Fifo.Dropped(Entries(hd, s), limit)
  }

  lemma VictimsStep(hd: seq<Header>, s: seq<int>, limit: nat)
    requires InBuffer(hd, s)
    ensures SizeSum(hd, s) <= limit ==> Victims(hd, s, limit) == 0
    ensures SizeSum(hd, s) > limit ==> s != [] && Victims(hd, s, limit) == 1 + Victims(hd, s[1..], limit)
  {
    EntriesSize(hd, s);
    if s != [] {
      assert Entries(hd, s)[1..] == Entries(hd, s[1..]);
    }
  }

  lemma VictimsNone(hd: seq<Header>, limit: nat)
    ensures Victims(hd, [], limit) == 0
  {}

  ghost function Members(s: seq<int>): set<int> {
    set o | o in s
  }

  /** The reverse indices of the nodes: consecutive, the youngest having the latest. */
  ghost predicate Indexed(rindex: seq<nat>, s: seq<int>, acc: nat) {
    && |s| <= acc
    && forall i :: 0 <= i < |s| ==> 0 <= s[i] < |rindex| && rindex[s[i]] == acc - (|s| - 1 - i)
  }

  lemma {:induction false} SortedWithout(hd: seq<Header>, s: seq<int>, x: int)
    requires Sorted(hd, s)
    ensures Sorted(hd, Without(s, x))
  {
    if s != [] {
      SortedWithout(hd, s[1..], x);
      WithoutMembers(s[1..], x);
      var w := Without(s[1..], x);
      forall i | 0 <= i < |w| ensures Less(hd[s[0]], hd[w[i]]) {
        assert w[i] in w;
        var j :| 0 <= j < |s[1..]| && s[1..][j] == w[i];
        assert s[j + 1] == w[i];
      }
    }
  }

  lemma SortedFrame(hd: seq<Header>, hd': seq<Header>, s: seq<int>)
    requires Sorted(hd, s) && |hd| == |hd'| && forall o :: o in s ==> 0 <= o < |hd| && hd[o] == hd'[o]
    ensures Sorted(hd', s)
  {}

  /** Where the computation of the evictions stands: del are the first of the ring's nodes to go,
      h and t the rest, and more must go. */
  ghost predicate Evicting(hd: seq<Header>, ring: seq<int>, del: seq<int>, h: seq<int>, t: seq<int>, it: Bounds,
                           limit: nat) {
    && |del| < |ring| && InBuffer(hd, ring) && InBuffer(hd, h + t)
    && del == ring[..|del|] && h + t == ring[|del|..]
    && Laid(hd, h, t, it) && it.size > limit
    && Victims(hd, ring, limit) == |del| + Victims(hd, h + t, limit)
  }

  ghost predicate Evicted(hd: seq<Header>, ring: seq<int>, k: nat, h: seq<int>, t: seq<int>, it: Bounds, limit: nat) {
    && InBuffer(hd, ring) && k == Victims(hd, ring, limit) && h + t == ring[k..]
    && Laid(hd, h, t, it) && it.size <= limit
  }

  lemma EvictingFacts(hd: seq<Header>, ring: seq<int>, del: seq<int>, h: seq<int>, t: seq<int>, it: Bounds, limit: nat)
    requires Evicting(hd, ring, del, h, t, it, limit)
    ensures |hd| == RBUF_SIZE && 0 <= it.first < RBUF_SIZE && 0 <= it.last < RBUF_SIZE && it.first == ring[|del|]
    ensures it.first == it.last <==> |del| + 1 == |ring|
    ensures InBuffer(hd, ring) && Victims(hd, ring, limit) > |del| && h != []
    ensures NodeLen(hd[it.first]) <= it.rbLen && EntrySize(hd[it.first]) <= it.size
  {
    hide NodeLen;
    LaidSums(hd, h, t, it);
    LaidFacts(hd, h, t, it);
    LaidHead(hd, h, t, it);
    VictimsStep(hd, h + t, limit);
  }

  lemma EvictStart(hd: seq<Header>, head: seq<int>, tail: seq<int>, b: Bounds, limit: nat)
    requires Laid(hd, head, tail, b) && b.size > limit
    ensures Evicting(hd, head + tail, [], head, tail, b, limit)
  {
    LaidSums(hd, head, tail, b);
  }

  lemma EvictLast(hd: seq<Header>, ring: seq<int>, del: seq<int>, h: seq<int>, t: seq<int>, it: Bounds, limit: nat)
    requires Evicting(hd, ring, del, h, t, it, limit) && |del| + 1 == |ring|
    ensures it.rbSize == RBUF_SIZE
    ensures Victims(hd, ring, limit) == |ring| && Evicted(hd, ring, |ring|, [], [], EMPTY, limit)
  {
    LaidSums(hd, h, t, it);
    VictimsStep(hd, h + t, limit);
    assert (h + t)[1..] == [];
    VictimsNone(hd, limit);
  }

  /** The bounds once the oldest node is dropped. */
  ghost function Popped(hd: seq<Header>, it: Bounds): Bounds
    requires 0 <= it.first < |hd| && 0 <= it.last < |hd|
    requires NodeLen(hd[it.first]) <= it.rbLen && EntrySize(hd[it.first]) <= it.size
  {
    var f := NodeLen(hd[it.first]);
    var wrapped := it.last < it.first && it.rbLen - f == it.last + NodeLen(hd[it.last]);
    it.(first := if wrapped then 0 else it.first + f, rbSize := if wrapped then RBUF_SIZE else it.rbSize,
        size := it.size - EntrySize(hd[it.first]), rbLen := it.rbLen - f)
  }

  /** What is left once the oldest node is dropped is laid out by the new bounds. */
  lemma PoppedLaid(hd: seq<Header>, h: seq<int>, t: seq<int>, it: Bounds)
    requires Laid(hd, h, t, it) && |h + t| > 1 && 0 <= it.first < |hd| && 0 <= it.last < |hd|
    requires NodeLen(hd[it.first]) <= it.rbLen && EntrySize(hd[it.first]) <= it.size
    ensures var h', t' := if |h| == 1 then t else h[1..], if |h| == 1 then [] else t;
      h' + t' == (h + t)[1..] && Laid(hd, h', t', Popped(hd, it))
  {
    hide Laid;
    hide NodeLen;
    Pop(hd, h, t, it);
  }

  lemma EvictOne(hd: seq<Header>, ring: seq<int>, del: seq<int>, h: seq<int>, t: seq<int>, it: Bounds, limit: nat)
    requires Evicting(hd, ring, del, h, t, it, limit) && |del| + 1 < |ring|
    requires 0 <= it.first < |hd| && 0 <= it.last < |hd| && it.first == ring[|del|]
    requires NodeLen(hd[it.first]) <= it.rbLen && EntrySize(hd[it.first]) <= it.size
    ensures var h', t', it' := if |h| == 1 then t else h[1..], if |h| == 1 then [] else t, Popped(hd, it);
      && h' + t' == ring[|del| + 1..]
      && (it'.size <= limit ==>
          Victims(hd, ring, limit) == |del| + 1 && Evicted(hd, ring, |del| + 1, h', t', it', limit))
      && (it'.size > limit ==> Evicting(hd, ring, del + [it.first], h', t', it', limit))
  {
    hide Laid;
    hide NodeLen;
    hide Victims;
    hide Popped;
    PoppedLaid(hd, h, t, it);
    LaidSums(hd, h, t, it);
    VictimsStep(hd, h + t, limit);
    var h', t', it' := if |h| == 1 then t else h[1..], if |h| == 1 then [] else t, Popped(hd, it);
    assert h' + t' == ring[|del| + 1..];
    LaidSums(hd, h', t', it');
    VictimsStep(hd, h' + t', limit);
  }

  /** The buffer has room for a node of the given length behind the youngest of the nodes live:
      up to its end or, once that is reached, up to the oldest node; a node is never split. */
  ghost predicate Room(hd: seq<Header>, live: seq<int>, len: nat) {
    live == [] ||
    var f, l := live[0], live[|live| - 1];
    0 <= l < |hd| &&
    var end := l + NodeLen(hd[l]);
    if f <= l then end + len <= RBUF_SIZE || len <= f else end + len <= f
  }

  lemma RoomMeans(hd: seq<Header>, h: seq<int>, t: seq<int>, it: Bounds, len: nat)
    requires Laid(hd, h, t, it) && h != []
    ensures |hd| == RBUF_SIZE && 0 <= it.last < RBUF_SIZE
    ensures var end := it.last + NodeLen(hd[it.last]);
      && (it.first <= it.last ==> (Room(hd, h + t, len) <==> end + len <= RBUF_SIZE || it.rbLen + len <= end))
      && (it.first > it.last ==> (Room(hd, h + t, len) <==> it.rbLen + len <= it.rbSize))
  {
    hide NodeLen;
    LaidFacts(hd, h, t, it);
    LaidHead(hd, h, t, it);
  }

  /** The outcome of an addition: refused, done, a BUG_ON, the warning of the second search, or the
      new node written over one that stays in the tree. */
  datatype AddResult = Refused | Added | Bug | Warned | Overwritten

  /** A new node y with the header x has been placed behind the nodes h and t. */
  ghost predicate Fitted(hd: seq<Header>, h: seq<int>, t: seq<int>, h': seq<int>, t': seq<int>, it': Bounds,
                         x: Header) {
    && 0 <= it'.last < |hd| && it'.last !in h + t
    && h' + t' == h + t + [it'.last]
    && Laid(hd[it'.last := x], h', t', it')
  }

  lemma EntriesAfterEviction(hd: seq<Header>, ring: seq<int>, limit: nat)
    requires InBuffer(hd, ring)
    ensures Entries(hd, ring[Victims(hd, ring, limit)..]) == Fifo.Evict(Entries(hd, ring), limit)
  {
    Fifo.EvictIsMinimal(Entries(hd, ring), limit);
  }

  lemma EntriesAfterAddition(hd: seq<Header>, live: seq<int>, y: int, x: Header)
    requires InBuffer(hd, live) && 0 <= y < |hd| && y !in live
    ensures Entries(hd[y := x], live + [y]) == Entries(hd, live) + [x]
  {
    var a, c := Entries(hd[y := x], live + [y]), Entries(hd, live) + [x];
    forall i | 0 <= i < |a| ensures a[i] == c[i] {
      if i < |live| {
        assert live[i] in live;
      }
    }
  }

  lemma IndexedAfterAddition(ri: seq<nat>, ring: seq<int>, k: nat, y: int, acc: nat)
    requires Indexed(ri, ring, acc) && k <= |ring| && 0 <= y < |ri| && y !in ring[k..]
    ensures Indexed(ri[y := acc + 1], ring[k..] + [y], acc + 1)
  {
    var live, s := ring[k..], ring[k..] + [y];
    forall i | 0 <= i < |s| ensures 0 <= s[i] < |ri| && ri[y := acc + 1][s[i]] == acc + 1 - (|s| - 1 - i) {
      if i < |live| {
        assert s[i] == ring[k + i] && s[i] in live;
      }
    }
  }

  lemma LastIndexed(ri: seq<nat>, ring: seq<int>, acc: nat)
    requires Indexed(ri, ring, acc) && ring != []
    ensures var y := ring[|ring| - 1]; 0 <= y < |ri| && ri[y] == acc
  {}

  /** A header the search did not find is on no node of the tree. */
  lemma PlaceMeansAbsent(hd: seq<Header>, t: Tree, p: Place, h: Hole, x: Header)
    requires IsPlace(hd, t, p, h, x)
    ensures forall o :: o in Offsets(t) && 0 <= o < |hd| ==> hd[o] != x
  {
    NotInTree(hd, h, x);
  }

  lemma PlaceFrame(hd: seq<Header>, hd': seq<Header>, t: Tree, p: Place, h: Hole, x: Header)
    requires IsPlace(hd, t, p, h, x) && |hd| == |hd'|
    requires forall o :: o in Offsets(t) && 0 <= o < |hd| ==> hd[o] == hd'[o]
    ensures IsPlace(hd', t, p, h, x)
  {
    PlugOffsets(h, Leaf);
    HoleOffsetsAreInOrder(h);
  }

  /** Linking the new node where the search pointed keeps the nodes in order. */
  lemma SortedAfterAddition(hd: seq<Header>, t: Tree, t': Tree, p: Place, h: Hole, x: Header, y: int)
    requires Sorted(hd, InOrder(t)) && IsPlace(hd, t, p, h, x) && 0 <= y < |hd| && hd[y] == x
    requires InOrder(t') == Before(h) + [y] + After(h)
    ensures Sorted(hd, InOrder(t'))
  {
    assert Plug(h, Leaf) == t && Below(hd, Before(h), x) && Above(hd, After(h), x);
    hide *;
    PlugLeafInOrder(h);
    SortedMerge(hd, Before(h), y, After(h));
  }

  /** With a single node, the search ends below that node. */
  lemma OnlyPlace(t: Tree, h: Hole, y: int)
    requires Plug(h, Leaf) == t && Offsets(t) == {y}
    ensures Parent(h) == y
  {
    PlugOffsets(h, Leaf);
    assert y in HoleOffsets(h);
    assert h.off in HoleOffsets(h);
  }

  lemma OnlyNodeSorted(m: Links, root: int, t: Tree, hd: seq<Header>, y: int)
    requires Holds(m, root, Top, t) && Offsets(t) == {y} && 0 <= y < |hd|
    ensures Sorted(hd, InOrder(t))
  {
    OnlyNode(t, y);
  }

  lemma OnlyNode(t: Tree, y: int)
    requires Distinct(t) && Offsets(t) == {y}
    ensures InOrder(t) == [y]
  {
    assert t.Node? && t.off in Offsets(t);
    assert Offsets(t.left) <= {y} && Offsets(t.right) <= {y};
    NoOffsets(t.left);
    NoOffsets(t.right);
  }

  lemma NoOffsets(t: Tree)
    ensures Offsets(t) == {} ==> t.Leaf?
  {
    if t.Node? { assert t.off in Offsets(t); }
  }

  /** Before the new node is linked: the nodes in the tree are still in order, the one whose
      record is being reused included. */
  lemma SortedBeforeAddition(m: Links, root: int, t: Tree, hd: seq<Header>, y: int, x: Header)
    requires Holds(m, root, Top, t) && Sorted(hd, InOrder(t)) && 0 <= y < |hd|
    requires y in Offsets(t) ==> Offsets(t) == {y}
    ensures Sorted(hd[y := x], InOrder(t))
  {
    if y in Offsets(t) {
      OnlyNodeSorted(m, root, t, hd[y := x], y);
    } else {
      OffsetsAreInOrder(t);
      SortedFrame(hd, hd[y := x], InOrder(t));
    }
  }

  /** The nodes left in the tree once the listed ones are erased: the ring's survivors, or its
      last node when there are none. */
  lemma EvictedMembers(ring: seq<int>, del: seq<int>, k: nat)
    requires k <= |ring| && NoDup(ring)
    requires del == ring[..if k == |ring| && k > 0 then k - 1 else k]
    ensures k == |ring| > 0 ==> Members(ring) - Members(del) == {ring[k - 1]}
    ensures !(k == |ring| > 0) ==> Members(ring) - Members(del) == Members(ring[k..])
  {
    var keep := ring[|del|..];
    assert ring == del + keep;
    forall o ensures o in Members(ring) - Members(del) <==> o in Members(keep) {
      if o in keep {
        var i :| 0 <= i < |keep| && keep[i] == o;
        assert ring[|del| + i] == o;
      }
    }
    assert Members(ring) - Members(del) == Members(keep);
    if k == |ring| > 0 {
      assert keep == [ring[k - 1]];
    }
  }

  lemma RingNoDup(hd: seq<Header>, head: seq<int>, tail: seq<int>, b: Bounds)
    requires Laid(hd, head, tail, b)
    ensures NoDup(head + tail)
  {
    RingDistinct(hd, head, tail, b);
  }

  lemma MembersDistinct(ring: seq<int>, n: nat)
    requires n <= |ring| && NoDup(ring)
    ensures Members(ring[..n]) <= Members(ring)
    ensures NoDup(ring[..n])
  {}

  lemma MembersAppend(s: seq<int>, y: int)
    ensures Members(s + [y]) == Members(s) + {y}
  {}

  lemma {:induction false} VictimsAll(hd: seq<Header>, ring: seq<int>, limit: nat)
    requires InBuffer(hd, ring) && ring != []
    ensures Victims(hd, ring, limit) == |ring| <==> EntrySize(hd[ring[|ring| - 1]]) > limit
    ensures SizeSum(hd, ring) >= EntrySize(hd[ring[|ring| - 1]])
  {
    VictimsStep(hd, ring, limit);
    if |ring| > 1 {
      VictimsAll(hd, ring[1..], limit);
    } else {
      assert ring[1..] == [];
    }
  }

  /** What the computed evictions amount to. */
  lemma AdditionFacts(hd: seq<Header>, head: seq<int>, tail: seq<int>, b: Bounds, limit: nat)
    requires Laid(hd, head, tail, b)
    ensures InBuffer(hd, head + tail)
    ensures head == [] ==> b.size == 0
    ensures b.size <= limit ==> Victims(hd, head + tail, limit) == 0
    ensures head != [] ==> 0 <= b.last < |hd| && b.last == (head + tail)[|head + tail| - 1]
    ensures head != [] ==> (Victims(hd, head + tail, limit) == |head + tail| <==> EntrySize(hd[b.last]) > limit)
    ensures head != [] && EntrySize(hd[b.last]) > limit ==> b.size > limit
  {
    LaidSums(hd, head, tail, b);
    VictimsStep(hd, head + tail, limit);
    if head != [] {
      LaidHead(hd, head, tail, b);
      VictimsAll(hd, head + tail, limit);
    }
  }

  /** The table after an addition is the list of section 4.4 of RFC 7541. */
  lemma AdditionTable(hd: seq<Header>, ring: seq<int>, k: nat, window: nat, ring': seq<int>, y: int, x: Header)
    requires InBuffer(hd, ring) && EntrySize(x) <= window && k == Victims(hd, ring, window - EntrySize(x))
    requires 0 <= y < |hd| && y !in ring[k..] && ring' == ring[k..] + [y]
    ensures InBuffer(hd[y := x], ring') && Entries(hd[y := x], ring') == Fifo.Add(Entries(hd, ring), window, x)
  {
    EntriesAfterEviction(hd, ring, window - EntrySize(x));
    EntriesAfterAddition(hd, ring[k..], y, x);
  }

  /** A decided addition: the k oldest nodes go, del are those to erase, and the bounds, with the
      new node last, fit the nodes that remain and the new one. */
  ghost predicate Planned(hd: seq<Header>, ring: seq<int>, window: nat, x: Header, del: seq<int>, it: Bounds,
                          k: nat, h: seq<int>, t: seq<int>)
  {
    && InBuffer(hd, ring) && EntrySize(x) <= window && k == Victims(hd, ring, window - EntrySize(x))
    && del == ring[..if k == |ring| && k > 0 then k - 1 else k]
    && it.size <= window && 0 <= it.last < |hd| == RBUF_SIZE && it.last !in ring[k..]
    && h + t == ring[k..] + [it.last] && Laid(hd[it.last := x], h, t, it)
    && (k == |ring| ==> it.last == 0)
  }

  lemma PlannedWhenFitted(hd: seq<Header>, ring: seq<int>, window: nat, x: Header, del: seq<int>, it: Bounds,
                          k: nat, h0: seq<int>, t0: seq<int>, h: seq<int>, t: seq<int>)
    requires |hd| == RBUF_SIZE && InBuffer(hd, ring) && EntrySize(x) <= window
    requires k == Victims(hd, ring, window - EntrySize(x)) && h0 + t0 == ring[k..]
    requires del == ring[..if k == |ring| && k > 0 then k - 1 else k]
    requires Fitted(hd, h0, t0, h, t, it, x) && it.size <= window && (h0 == [] ==> it.last == 0)
    ensures Planned(hd, ring, window, x, del, it, k, h, t)
  {
    hide Laid;
    hide EntrySize;
    hide Victims;
  }

  lemma PlannedFirst(hd: seq<Header>, ring: seq<int>, window: nat, x: Header, del: seq<int>, it: Bounds,
                     k: nat, h: seq<int>, t: seq<int>)
    requires Planned(hd, ring, window, x, del, it, k, h, t)
    ensures k <= |ring| && (k == |ring| ==> it.last == 0)
  {}

  lemma PlannedFacts(hd: seq<Header>, ring: seq<int>, window: nat, x: Header, del: seq<int>, it: Bounds,
                     k: nat, h: seq<int>, t: seq<int>)
    requires Planned(hd, ring, window, x, del, it, k, h, t)
    requires NoDup(ring)
    ensures 0 <= it.last < RBUF_SIZE && Members(del) <= Members(ring)
    ensures NoDup(del)
    ensures k <= |ring| && EntrySize(x) <= window && it.last !in ring[k..] && (k == |ring| ==> it.last == 0)
    ensures var rest := Members(ring) - Members(del);
      && (k == |ring| > 0 ==> rest == {ring[k - 1]} && it.last == 0 && (del == [] <==> k == 1))
      && (!(k == |ring| > 0) ==> rest == Members(ring[k..]) && it.last !in rest)
  {
    hide Laid;
    hide Victims;
    MembersDistinct(ring, |del|);
    EvictedMembers(ring, del, k);
  }

  /** The ring lost some of its oldest nodes and gained the node y. */
  predicate Ages(ring: seq<int>, ring': seq<int>, y: int) {
    exists k :: 0 <= k <= |ring| && ring' == ring[k..] + [y]
  }

  /** Whether every entry goes can be read off the bounds. */
  lemma PlannedFlush(hd: seq<Header>, head: seq<int>, tail: seq<int>, b: Bounds, window: nat, x: Header, del: seq<int>,
                     it: Bounds, k: nat, h: seq<int>, t: seq<int>)
    requires Planned(hd, head + tail, window, x, del, it, k, h, t) && Laid(hd, head, tail, b)
    ensures k == |head + tail| > 0 <==> b.first >= 0 && it.first == it.last
    ensures head + tail != [] ==> b.last == (head + tail)[|head + tail| - 1]
  {
    hide Victims;
    LaidFirst(hd, head, tail, b);
    if head != [] { LaidHead(hd, head, tail, b); }
    assert h == [] ==> h + t == [] by { LaidFirst(hd[it.last := x], h, t, it); }
    LaidFacts(hd[it.last := x], h, t, it);
  }

  /** The bytes of a new node y with the header x run over the record of the node o. */
  predicate Reaches(y: int, x: Header, o: int) {
    y < o < y + NodeLen(x)
  }

  /** The new node is written before the evicted ones leave the tree. It never runs over a node
      that stays in the ring, so one that is in the tree is run over exactly when an evicted one
      is, or when every entry goes and the youngest one lies within the new node. */
  lemma WriteReaches(hd: seq<Header>, ring: seq<int>, window: nat, x: Header, del: seq<int>, it: Bounds,
                     k: nat, h: seq<int>, t: seq<int>)
    requires Planned(hd, ring, window, x, del, it, k, h, t)
    ensures k <= |ring| && forall o :: o in ring[k..] ==> !Reaches(it.last, x, o)
    ensures (exists o :: o in ring && Reaches(it.last, x, o)) <==>
      || (exists o :: o in del && Reaches(it.last, x, o))
      || (k == |ring| > 0 && 0 < ring[k - 1] < NodeLen(x))
  {
    hide Victims;
    hide Laid;
    forall o | o in ring[k..] ensures !Reaches(it.last, x, o) {
      var i :| 0 <= i < |ring[k..]| && ring[k..][i] == o;
      NodesDisjoint(hd[it.last := x], h, t, it, i, |ring| - k);
    }
    forall o | o in ring ensures o in ring[..k] || o in ring[k..] {
      assert ring == ring[..k] + ring[k..];
    }
    if k == |ring| > 0 {
      assert ring[..k] == del + [ring[k - 1]];
      assert ring[k - 1] in ring;
    }
  }

  lemma PlannedOutcome(hd: seq<Header>, ring: seq<int>, window: nat, x: Header, del: seq<int>, it: Bounds,
                       k: nat, h: seq<int>, t: seq<int>)
    requires Planned(hd, ring, window, x, del, it, k, h, t)
    ensures k <= |ring| && EntrySize(x) <= window && h + t == ring[k..] + [it.last] && it.size <= window
    ensures 0 <= it.last < |hd| && Laid(hd[it.last := x], h, t, it)
    ensures Members(h + t) == Members(ring[k..]) + {it.last}
    ensures k == |ring| > 0 && it.last != ring[k - 1] ==> ring[k - 1] !in Members(h + t)
    ensures InBuffer(hd, ring) && InBuffer(hd[it.last := x], h + t)
    ensures Entries(hd[it.last := x], h + t) == Fifo.Add(Entries(hd, ring), window, x)
  {
    MembersAppend(ring[k..], it.last);
    AdditionTable(hd, ring, k, window, h + t, it.last, x);
  }

  /** The index computed from a node's reverse index is that of the node's entry. */
  lemma IndexPoints(hd: seq<Header>, ri: seq<nat>, ring: seq<int>, acc: nat, node: int)
    requires InBuffer(hd, ring) && Indexed(ri, ring, acc) && node in ring
    ensures 0 <= node < |ri| && 0 <= node < |hd| && ri[node] <= acc
    ensures Points(Entries(hd, ring), acc - ri[node] + STATIC_ENTRIES + 1, hd[node])
  {
    var i :| 0 <= i < |ring| && ring[i] == node;
    assert Entries(hd, ring)[i] == hd[node];
  }

  lemma SearchMeansScan(hd: seq<Header>, ri: seq<nat>, ring: seq<int>, offs: set<int>, acc: nat,
                        hdr: Header, res: Found, node: int)
    requires InBuffer(hd, ring) && Indexed(ri, ring, acc) && |hd| == |ri| && offs == Members(ring)
    requires res == Full <==> exists o :: o in offs && 0 <= o < |hd| && hd[o] == hdr
    requires res == NameOnly <==>
      && (forall o :: o in offs && 0 <= o < |hd| ==> hd[o] != hdr)
      && exists o :: o in offs && 0 <= o < |hd| && hd[o].name == hdr.name
    requires res == Full ==> node in offs && 0 <= node < |hd| && hd[node] == hdr
    requires res == NameOnly ==> node in offs && 0 <= node < |hd| && hd[node].name == hdr.name
    requires res == NotFound ==> node == NIL
    ensures var index := if 0 <= node < |ri| then acc - ri[node] + STATIC_ENTRIES + 1 else 0;
      index >= 0 && Searched(Entries(hd, ring), hdr, res, index)
  {
    var t := Entries(hd, ring);
    if res != NotFound {
      IndexPoints(hd, ri, ring, acc, node);
    }
    forall e | e in t ensures exists o :: o in offs && 0 <= o < |hd| && hd[o] == e {
      var i :| 0 <= i < |t| && t[i] == e;
      assert ring[i] in offs;
    }
    forall o | o in offs && 0 <= o < |hd| ensures hd[o] in t {
      var i :| 0 <= i < |ring| && ring[i] == o;
      assert t[i] == hd[o];
    }
  }

  lemma MembersTail(ring: seq<int>, n: nat)
    requires n < |ring| && NoDup(ring)
    ensures ring[n] in Members(ring[n..]) && Members(ring[n..]) - {ring[n]} == Members(ring[n + 1..])
    ensures n + 1 == |ring| ==> Members(ring[n..]) == {ring[n]}
  {
    assert ring[n..][0] == ring[n];
    forall o ensures o in Members(ring[n..]) - {ring[n]} <==> o in Members(ring[n + 1..]) {
      assert ring[n..] == [ring[n]] + ring[n + 1..];
      if o in ring[n + 1..] {
        var i :| 0 <= i < |ring[n + 1..]| && ring[n + 1..][i] == o;
        assert ring[n + 1 + i] == o;
      }
    }
  }

  lemma EvictedFacts(hd: seq<Header>, ring: seq<int>, k: nat, h: seq<int>, t: seq<int>, it: Bounds, limit: nat,
                     ri: seq<nat>, acc: nat)
    requires Evicted(hd, ring, k, h, t, it, limit) && Indexed(ri, ring, acc)
    ensures k == Victims(hd, ring, limit) && h + t == ring[k..] && Laid(hd, h, t, it) && it.size <= limit
    ensures InBuffer(hd, h + t) && Indexed(ri, h + t, acc)
    ensures k == |ring| ==> it == EMPTY && Members(h + t) == {}
  {
    assert k == |ring| ==> h + t == [];
  }

  class EncTable {
    const st: Store
    var b: Bounds
    var window: nat
    var idxAcc: nat
    var guard: int
    ghost var head: seq<int>
    ghost var tail: seq<int>

    /** The ring is laid out, the tree is a search tree, and both have the same nodes. */
    ghost predicate Valid()
      reads this`b, this`window, this`idxAcc, this`head, this`tail, st
    {
      && st.Valid()
      && Laid(st.hdrs, head, tail, b)
      && b.size <= window <= RBUF_SIZE
      && Sorted(st.hdrs, InOrder(st.tree))
      && Offsets(st.tree) == Members(head + tail)
      && Indexed(st.rindex, head + tail, idxAcc)
    }

    /** The entries, oldest first. */
    ghost function Table(): seq<Header>
      reads this`head, this`tail, st
    {
      if InBuffer(st.hdrs, head + tail) then Entries(st.hdrs, head + tail) else []
    }

    /** A fresh index (fw/hpack.c:1020-1052) over a buffer of any contents. */
    constructor (window0: nat, links0: Links, hdrs0: seq<Header>, rindex0: seq<nat>)
      requires window0 <= RBUF_SIZE
      requires Sized(links0) && |hdrs0| == |rindex0| == RBUF_SIZE
      ensures Valid() && window == window0 && guard == 0 && head == tail == [] && fresh(st)
    {
      st := new Store(links0, hdrs0, rindex0);
      b, window, idxAcc, guard, head, tail := EMPTY, window0, 0, 0, [], [];
    }

    /** The eviction an addition needs, computed without touching the table
        (fw/hpack.c:2903-2963). */
    method Calc(newSize: nat) returns (ok: bool, del: seq<int>, it: Bounds, ghost h: seq<int>, ghost t: seq<int>)
      requires Laid(st.hdrs, head, tail, b) && b.size > newSize
      ensures InBuffer(st.hdrs, head + tail)
      ensures ok <==> Victims(st.hdrs, head + tail, newSize) <= MAX_EVICTION
      ensures var ring, k := head + tail, Victims(st.hdrs, head + tail, newSize);
        ok ==> ring != [] && del == ring[..if k < |ring| then k else |ring| - 1]
      ensures var ring, k := head + tail, Victims(st.hdrs, head + tail, newSize);
        ok ==> Evicted(st.hdrs, ring, k, h, t, it, newSize)
    {
      hide Evicting;
      hide Evicted;
      hide Laid;
      hide Victims;
      hide NodeLen;
      hide EntrySize;
      ghost var hd, ring := st.hdrs, head + tail;
      EvictStart(hd, head, tail, b, newSize);
      it, del, h, t := b, [], head, tail;
      while true
        invariant |del| < |ring| && |del| <= MAX_EVICTION && del == ring[..|del|]
        invariant Evicting(hd, ring, del, h, t, it, newSize)
        decreases |ring| - |del|
      {
        EvictingFacts(hd, ring, del, h, t, it, newSize);
        if |del| >= MAX_EVICTION {
          return false, del, it, h, t;
        }
        if it.last == it.first {
          EvictLast(hd, ring, del, h, t, it, newSize);
          assert it.rbSize == RBUF_SIZE;
          it := it.(first := NIL, last := NIL, rbLen := 0, size := 0);
          return true, del, it, [], [];
        }
        EvictOne(hd, ring, del, h, t, it, newSize);
        var fLen, fSize := NodeLen(st.hdrs[it.first]), EntrySize(st.hdrs[it.first]);
        del := del + [it.first];
        if it.last < it.first && it.rbLen - fLen == it.last + NodeLen(st.hdrs[it.last]) {
          it := it.(rbSize := RBUF_SIZE, first := 0);
        } else {
          it := it.(first := it.first + fLen);
        }
        it := it.(size := it.size - fSize, rbLen := it.rbLen - fLen);
        h, t := if |h| == 1 then t else h[1..], if |h| == 1 then [] else t;
        if it.size <= newSize {
          return true, del, it, h, t;
        }
      }
    }

    /** Finding room in the buffer for a new node (fw/hpack.c:3067-3114). The first refusal is
        never met with the whole buffer available: the warning there is the assertion. */
    method Fit(hdr: Header, it: Bounds, ghost h: seq<int>, ghost t: seq<int>)
      returns (ok: bool, it': Bounds, ghost h': seq<int>, ghost t': seq<int>)
      requires Laid(st.hdrs, h, t, it) && it.size + EntrySize(hdr) <= window <= RBUF_SIZE
      ensures ok <==> Room(st.hdrs, h + t, NodeLen(hdr))
      ensures ok ==> Fitted(st.hdrs, h, t, h', t', it', hdr) && it'.size == it.size + EntrySize(hdr)
      ensures h == [] ==> ok && it'.last == 0
    {
      hide Laid;
      hide NodeLen;
      hide EntrySize;
      it', h', t' := it, h, t;
      LaidSums(st.hdrs, h, t, it);
      LenBelowSize(st.hdrs, h + t);
      var nodeLen := NodeLen(hdr);
      LaidFirst(st.hdrs, h, t, it);
      if h != [] {
        LaidFacts(st.hdrs, h, t, it);
        RoomMeans(st.hdrs, h, t, it, nodeLen);
      }
      hide Room;
      if it.rbSize < it.rbLen + nodeLen {
        assert it.rbSize != RBUF_SIZE;
        return false, it, h, t;
      } else if it.first < 0 {
        PushEmpty(st.hdrs, hdr);
        it' := it'.(first := 0, last := 0);
        h' := [0];
        it' := it'.(size := it'.size + EntrySize(hdr), rbLen := it'.rbLen + nodeLen);
        return true, it', h', t';
      } else if it.first <= it.last {
        assert it.rbSize == RBUF_SIZE;
        var endSpace := RBUF_SIZE - (it.last + NodeLen(st.hdrs[it.last]));
        if endSpace < nodeLen {
          if it.rbSize - endSpace < it.rbLen + nodeLen {
            return false, it, h, t;
          }
          PushWrap(st.hdrs, h, it, hdr);
          it' := it'.(rbSize := it'.rbSize - endSpace, last := 0);
          t' := [0];
          it' := it'.(size := it'.size + EntrySize(hdr), rbLen := it'.rbLen + nodeLen);
          return true, it', h', t';
        }
      }
      PushNext(st.hdrs, h, t, it, hdr);
      it' := it'.(last := it'.last + NodeLen(st.hdrs[it'.last]));
      if t == [] { h' := h + [it'.last]; } else { t' := t + [it'.last]; }
      it' := it'.(size := it'.size + EntrySize(hdr), rbLen := it'.rbLen + nodeLen);
      ok := true;
    }

    /** Taking the evicted nodes out of the tree (fw/hpack.c:2977-2984). */
    method EraseAll(del: seq<int>, ghost hd: seq<Header>)
      requires st.Valid() && Sorted(hd, InOrder(st.tree))
      requires Members(del) <= Offsets(st.tree)
      requires NoDup(del)
      modifies st`links, st`root, st`tree
      ensures st.Valid() && Sorted(hd, InOrder(st.tree))
      ensures Offsets(st.tree) == old(Offsets(st.tree)) - Members(del)
      ensures del == [] ==> st.tree == old(st.tree)
    {
      hide Holds;
      hide RedBlackTree;
      hide Offsets;
      hide InOrder;
      hide Without;
      hide Sorted;
      ghost var offs := Offsets(st.tree);
      var i := 0;
      while i < |del|
        invariant 0 <= i <= |del|
        invariant st.Valid() && Sorted(hd, InOrder(st.tree))
        invariant Offsets(st.tree) == offs - Members(del[..i])
        invariant i == 0 ==> st.tree == old(st.tree)
      {
        assert del[i] in Members(del) && del[i] !in Members(del[..i]);
        SortedWithout(hd, InOrder(st.tree), del[i]);
        st.Erase(del[i]);
        assert del[..i + 1] == del[..i] + [del[i]];
        MembersAppend(del[..i], del[i]);
        i := i + 1;
      }
      assert del[..i] == del;
    }

    /** Writing the new node y, taking the evicted ones out of the tree, and searching again if
        there were any (fw/hpack.c:3115-3119, 2977-2994). */
    method Unlink(hdr: Header, del: seq<int>, place0: Place, y: int, ghost hole0: Hole, ghost rest: set<int>)
      returns (warned: bool, place: Place, ghost hole: Hole)
      requires st.Valid() && Sorted(st.hdrs, InOrder(st.tree)) && IsPlace(st.hdrs, st.tree, place0, hole0, hdr)
      requires Members(del) <= Offsets(st.tree) && NoDup(del)
      requires 0 <= y < RBUF_SIZE && rest == Offsets(st.tree) - Members(del) && (y in rest ==> rest == {y})
      modifies this`idxAcc, st
      ensures idxAcc == old(idxAcc) + 1
      ensures st.Valid() && st.hdrs == old(st.hdrs)[y := hdr] && st.rindex == old(st.rindex)[y := idxAcc]
      ensures Sorted(st.hdrs, InOrder(st.tree)) && Offsets(st.tree) == rest
      ensures warned <==> y in rest && del != []
      ensures !warned ==> Plug(hole, Leaf) == st.tree && place.parent == Parent(hole) && (place.left <==> hole.InLeft?)
      ensures !warned && y !in rest ==> IsPlace(st.hdrs, st.tree, place, hole, hdr)
    {
      hide Holds;
      hide RedBlackTree;
      hide InOrder;
      hide Plug;
      hide Offsets;
      hide Below;
      hide Above;
      hide Sorted;
      ghost var hd := st.hdrs;
      PlaceMeansAbsent(hd, st.tree, place0, hole0, hdr);
      idxAcc := idxAcc + 1;
      st.hdrs := st.hdrs[y := hdr];
      st.rindex := st.rindex[y := idxAcc];
      place, hole, warned := place0, hole0, false;
      EraseAll(del, hd);
      SortedBeforeAddition(st.links, st.root, st.tree, hd, y, hdr);
      if |del| > 0 {
        var res, node, place1, hole1 := st.Find(hdr);
        if res == Full {
          return true, place, hole;
        }
        place, hole := place1, hole1;
      } else if y !in rest {
        PlaceFrame(hd, st.hdrs, st.tree, place, hole, hdr);
      }
    }

    /** Linking the new node and publishing the new bounds (fw/hpack.c:2996-3002); rest are the
        nodes the evictions leave in the tree. */
    method Commit(hdr: Header, del: seq<int>, place0: Place, it: Bounds,
                  ghost hole0: Hole, ghost rest: set<int>, ghost h: seq<int>, ghost t: seq<int>)
      returns (r: AddResult)
      requires st.Valid() && Sorted(st.hdrs, InOrder(st.tree)) && IsPlace(st.hdrs, st.tree, place0, hole0, hdr)
      requires Members(del) <= Offsets(st.tree) && NoDup(del)
      requires rest == Offsets(st.tree) - Members(del)
      requires 0 <= it.last < RBUF_SIZE && (it.last in rest ==> rest == {it.last})
      modifies this`idxAcc, this`b, this`head, this`tail, st
      ensures r != Refused && r != Overwritten
      ensures (r == Bug <==> it.last in rest && del == []) && (r == Warned <==> it.last in rest && del != [])
      ensures r == Added ==> st.Valid() && Sorted(st.hdrs, InOrder(st.tree)) && Offsets(st.tree) == rest + {it.last}
      ensures r == Added ==> idxAcc == old(idxAcc) + 1 && head == h && tail == t && b == it
      ensures r == Added ==> st.hdrs == old(st.hdrs)[it.last := hdr] && st.rindex == old(st.rindex)[it.last := idxAcc]
    {
      hide Holds;
      hide RedBlackTree;
      hide InOrder;
      hide Plug;
      hide Offsets;
      hide IsPlace;
      hide Sorted;
      hide Before;
      hide After;
      var y := it.last;
      var warned, place, hole := Unlink(hdr, del, place0, y, hole0, rest);
      if warned {
        return Warned;
      }
      ghost var tree1 := st.tree;
      if y in rest {
        OnlyPlace(st.tree, hole, y);
      }
      var bug := st.Add(y, place, hole);
      if bug {
        return Bug;
      }
      SortedAfterAddition(st.hdrs, tree1, st.tree, place, hole, hdr, y);
      b, head, tail := it, h, t;
      r := Added;
    }

    /** Adding the header would evict every entry of a table that has some: the youngest entry
        and the new one do not fit together. Beyond five entries the addition is refused. */
    ghost predicate Flushes(hdr: Header)
      reads this`b, this`window, this`head, this`tail, st
    {
      && 0 <= b.last < |st.hdrs| && |head + tail| <= MAX_EVICTION && EntrySize(hdr) <= window
      && EntrySize(st.hdrs[b.last]) + EntrySize(hdr) > window
    }

    lemma FlushesSome(hdr: Header)
      requires Valid() && Flushes(hdr)
      ensures 0 <= b.last < |st.hdrs| && |head + tail| > 0
    {
      LaidFirst(st.hdrs, head, tail, b);
    }

    /** In a window as large as the buffer, the youngest node lies within the new one or hardly
        behind it when every entry goes. */
    lemma FlushIsNear(hdr: Header)
      requires Valid() && Flushes(hdr) && window == RBUF_SIZE
      ensures b.last < NodeLen(hdr) + 32
    {
      FlushesSome(hdr);
      LaidFirst(st.hdrs, head, tail, b);
      LaidFacts(st.hdrs, head, tail, b);
    }

    /** An addition is accepted: the header fits the window, at most five entries must go for it,
        and the buffer then has room for the node. */
    ghost predicate Accepts(hdr: Header)
      reads this`window, this`head, this`tail, st
    {
      && EntrySize(hdr) <= window && InBuffer(st.hdrs, head + tail)
      && var k := Victims(st.hdrs, head + tail, window - EntrySize(hdr));
         k <= MAX_EVICTION && Room(st.hdrs, (head + tail)[k..], NodeLen(hdr))
    }

    /** Which nodes go for a new one of the given size, if the list of them is long enough
        (fw/hpack.c:3038-3064). */
    method MakeRoom(nodeSize: nat)
      returns (ok: bool, del: seq<int>, it: Bounds, ghost k: nat, ghost h: seq<int>, ghost t: seq<int>)
      requires Laid(st.hdrs, head, tail, b) && b.size <= window <= RBUF_SIZE && nodeSize <= window
      ensures InBuffer(st.hdrs, head + tail) && k == Victims(st.hdrs, head + tail, window - nodeSize)
      ensures ok <==> k <= MAX_EVICTION
      ensures var ring := head + tail; ok ==>
        && del == ring[..if k == |ring| && k > 0 then k - 1 else k]
        && h + t == ring[k..] && Laid(st.hdrs, h, t, it) && it.size + nodeSize <= window
    {
      hide Laid;
      hide Victims;
      LaidSums(st.hdrs, head, tail, b);
      AdditionFacts(st.hdrs, head, tail, b, window - nodeSize);
      ok, it, del, k, h, t := true, b, [], 0, head, tail;
      if b.size + nodeSize > window {
        ok, del, it, h, t := Calc(window - nodeSize);
        k := Victims(st.hdrs, head + tail, window - nodeSize);
      }
    }

    /** Deciding what goes and where the new node is put, without touching the table
        (fw/hpack.c:3022-3114). */
    method Plan(hdr: Header)
      returns (ok: bool, del: seq<int>, it: Bounds, ghost k: nat, ghost h: seq<int>, ghost t: seq<int>)
      requires Laid(st.hdrs, head, tail, b) && b.size <= window <= RBUF_SIZE
      ensures ok <==> Accepts(hdr)
      ensures ok ==> Planned(st.hdrs, head + tail, window, hdr, del, it, k, h, t)
      ensures Flushes(hdr) <==> ok && k == |head + tail| > 0
      ensures head == [] && EntrySize(hdr) <= window ==> ok
    {
      hide Laid;
      hide EntrySize;
      hide Victims;
      hide Planned;
      hide Fitted;
      hide Room;
      ghost var hd, ring := st.hdrs, head + tail;
      LaidSums(hd, head, tail, b);
      LaidFirst(hd, head, tail, b);
      var nodeSize := EntrySize(hdr);
      if nodeSize > window {
        return false, [], b, 0, head, tail;
      }
      AdditionFacts(hd, head, tail, b, window - nodeSize);
      ok, del, it, k, h, t := MakeRoom(nodeSize);
      if !ok {
        return;
      }
      ghost var h0, t0 := h, t;
      LaidFirst(hd, h0, t0, it);
      ok, it, h, t := Fit(hdr, it, h, t);
      if ok {
        PlannedWhenFitted(hd, ring, window, hdr, del, it, k, h0, t0, h, t);
      }
    }

    /** Every entry was evicted for x, but the node y of the youngest one, was, is still in the tree,
        untouched by the new node, which ends before it. */
    ghost predicate Outdated(y: int, x: Header, was: Header)
      reads this`head, this`tail, this`idxAcc, st
    {
      && st.Valid() && Sorted(st.hdrs, InOrder(st.tree)) && Offsets(st.tree) == {0, y} && NodeLen(x) <= y
      && head + tail == [0] && 0 <= y < RBUF_SIZE && st.hdrs[0] == x && st.hdrs[y] == was
      && st.rindex[0] == idxAcc && st.rindex[y] + 1 == idxAcc
    }

    /** Carrying a decided addition out: unless every entry was to go, the table is the one of
        section 4.4 of RFC 7541. If every entry was, the new node is written at the start of the
        buffer while the youngest one is in the tree and stays there: over it, short of it, or in
        its place. In the first case the tree's node is lost, and the model stops there. */
    method AddPlanned(hdr: Header, place: Place, del: seq<int>, it: Bounds, ghost hole: Hole,
                      ghost k: nat, ghost h: seq<int>, ghost t: seq<int>) returns (r: AddResult)
      requires Valid() && IsPlace(st.hdrs, st.tree, place, hole, hdr)
      requires Planned(st.hdrs, head + tail, window, hdr, del, it, k, h, t)
      modifies this`idxAcc, this`b, this`head, this`tail, st
      ensures r != Refused && (r == Added ==> b == it)
      ensures r == Added ==> idxAcc == old(idxAcc) + 1 && Table() == Fifo.Add(old(Table()), window, hdr)
      ensures k <= |old(head + tail)| && EntrySize(hdr) <= window
      ensures r == Added ==> head + tail == old(head + tail)[k..] + [b.last]
      ensures var ring := old(head + tail); !(k == |ring| > 0) ==>
        r == Added && Valid()
      ensures var ring := old(head + tail); k == |ring| > 0 ==>
        && 0 <= ring[k - 1] < |old(st.hdrs)|
        && (r == Added <==> NodeLen(hdr) <= ring[k - 1])
        && (r == Added ==> !Valid() && Outdated(ring[k - 1], hdr, old(st.hdrs)[ring[k - 1]]))
        && (r == Overwritten <==> 0 < ring[k - 1] < NodeLen(hdr))
        && (r == Bug <==> ring[k - 1] == 0 && k == 1) && (r == Warned <==> ring[k - 1] == 0 && k > 1)
    {
      hide Laid;
      hide Holds;
      hide Sorted;
      hide IsPlace;
      hide EntrySize;
      hide Victims;
      hide Entries;
      hide Offsets;
      hide InOrder;
      hide Indexed;
      hide Planned;
      hide Members;
      hide NoDup;
      assert |st.rindex| == RBUF_SIZE;
      hide Store.Valid;
      ghost var hd, ring := st.hdrs, head + tail;
      assert NoDup(ring) by { RingNoDup(hd, head, tail, b); }
      PlannedFacts(hd, ring, window, hdr, del, it, k, h, t);
      PlannedOutcome(hd, ring, window, hdr, del, it, k, h, t);
      PlannedFlush(hd, head, tail, b, window, hdr, del, it, k, h, t);
      if b.first >= 0 && it.first == it.last && 0 < b.last < NodeLen(hdr) {
        return Overwritten;
      }
      r := Commit(hdr, del, place, it, hole, Members(ring) - Members(del), h, t);
      if k == |ring| > 0 {
        LastIndexed(old(st.rindex), ring, old(idxAcc));
        if r == Added {
          assert ring[k - 1] in Offsets(st.tree) && ring[k - 1] !in Members(head + tail);
          assert head + tail == [0];
          assert Offsets(st.tree) == {0, ring[k - 1]};
        }
      } else {
        IndexedAfterAddition(old(st.rindex), ring, k, it.last, old(idxAcc));
      }
    }

    /** Adding a header the search did not find (fw/hpack.c:3010-3126). */
    method AddNode(hdr: Header, place: Place, ghost hole: Hole) returns (r: AddResult)
      requires Valid() && IsPlace(st.hdrs, st.tree, place, hole, hdr)
      modifies this`idxAcc, this`b, this`head, this`tail, st
      ensures window == old(window)
      ensures r == Refused <==> !old(Accepts(hdr))
      ensures r == Refused ==> unchanged(this) && unchanged(st)
      ensures !old(Flushes(hdr)) ==> (r == Refused || r == Added) && Valid()
      ensures r == Added ==>
        idxAcc == old(idxAcc) + 1 && EntrySize(hdr) <= window && Table() == Fifo.Add(old(Table()), window, hdr)
      ensures r == Added ==> Ages(old(head + tail), head + tail, b.last)
      ensures old(head) == [] && EntrySize(hdr) <= window ==> r == Added && b.last == 0
      ensures old(Flushes(hdr)) ==> r != Refused && (r == Added ==> !Valid())
      ensures old(Flushes(hdr)) && r == Added ==>
        0 <= old(b).last < |old(st.hdrs)| && Outdated(old(b).last, hdr, old(st.hdrs)[old(b).last])
      ensures old(Flushes(hdr)) ==>
        && (r == Added <==> NodeLen(hdr) <= old(b.last))
        && (r == Overwritten <==> 0 < old(b.last) < NodeLen(hdr))
        && (r == Bug <==> old(b.last) == 0 && |old(head + tail)| == 1)
        && (r == Warned <==> old(b.last) == 0 && |old(head + tail)| > 1)
    {
      hide Laid;
      hide Sorted;
      hide IsPlace;
      hide EntrySize;
      hide Entries;
      hide Offsets;
      hide InOrder;
      hide Indexed;
      hide Flushes;
      hide Accepts;
      hide Planned;
      hide Members;
      hide Store.Valid;
      hide Table;
      LaidFirst(st.hdrs, head, tail, b);
      if head != [] { LaidHead(st.hdrs, head, tail, b); }
      var ok, del, it, k, h, t := Plan(hdr);
      if !ok {
        return Refused;
      }
      PlannedFirst(st.hdrs, head + tail, window, hdr, del, it, k, h, t);
      r := AddPlanned(hdr, place, del, it, hole, k, h, t);
    }

    /** The index of a node (fw/hpack.c:2266-2275). */
    function GetIndex(node: int): int
      reads this, st
    {
      if 0 <= node < |st.rindex| then idxAcc - st.rindex[node] + STATIC_ENTRIES + 1 else 0
    }

    /** The message may write to the index, and the header is not there. */
    ghost predicate Attempts(hdr: Header, entered: bool)
      reads this`guard, this`head, this`tail, st
    {
      (if entered then guard <= 1 else guard == 0) && hdr !in Table()
    }

    /** The search and the index of what it found are those of a scan of the table. */
    method Search(hdr: Header) returns (res: Found, index: int, place: Place, ghost hole: Hole)
      requires Valid()
      ensures index >= 0 && Searched(Table(), hdr, res, index)
      ensures res != Full ==> IsPlace(st.hdrs, st.tree, place, hole, hdr)
    {
      hide Holds;
      hide RedBlackTree;
      hide Laid;
      hide Sorted;
      hide IsPlace;
      hide Entries;
      hide Offsets;
      hide InOrder;
      hide Indexed;
      hide Searched;
      hide Members;
      LaidSums(st.hdrs, head, tail, b);
      var node;
      res, node, place, hole := st.Find(hdr);
      index := GetIndex(node);
      SearchMeansScan(st.hdrs, st.rindex, head + tail, Offsets(st.tree), idxAcc, hdr, res, node);
    }

    /** Finding the index of a header, and adding it where the guard allows
        (fw/hpack.c:3134-3210); the lock makes this one step. entered is the message's flag. */
    method EncoderIndex(hdr: Header, entered: bool) returns (a: Answer, entered': bool, outcome: AddResult)
      requires Valid()
      modifies this`idxAcc, this`b, this`head, this`tail, this`guard, st
      ensures window == old(window)
      ensures !old(Attempts(hdr, entered) && Flushes(hdr)) ==>
        && Valid() && EncodeStep(old(Table()), window, old(guard), entered, hdr, Table(), guard, entered', a)
        && (a.added <==> old(Attempts(hdr, entered) && Accepts(hdr)))
      ensures old(Attempts(hdr, entered) && Flushes(hdr)) ==>
        && outcome != Refused && 0 <= old(b).last < |old(st.hdrs)|
        && (outcome == Added <==> NodeLen(hdr) <= old(b).last)
        && (outcome == Overwritten <==> 0 < old(b).last < NodeLen(hdr))
        && (outcome == Added ==> Table() == Fifo.Add(old(Table()), window, hdr))
        && (outcome == Added ==> !Valid() && Outdated(old(b).last, hdr, old(st.hdrs)[old(b).last]))
    {
      hide Valid;
      hide Outdated;
      hide Table;
      hide IsPlace;
      hide Searched;
      hide Flushes;
      hide Accepts;
      hide EncodeStep;
      a, entered', outcome := Answer(NotFound, false, 0), entered, Refused;
      if !entered && guard < 0 {
        StepAway(Table(), window, guard, hdr);
        return;
      }
      if Flushes(hdr) { FlushesSome(hdr); }
      var res, index, place, hole := Search(hdr);
      StepRead(Table(), window, guard, entered, hdr, res, index);
      if Attempts(hdr, entered) && EntrySize(hdr) <= window {
        StepAdd(Table(), window, guard, entered, hdr, res, index);
      }
      a := Answer(res, false, index);
      if !entered {
        if res != Full && guard == 0 {
          outcome := AddNode(hdr, place, hole);
        }
        if outcome == Added {
          a, guard, entered' := a.(added := true), -1, true;
        } else if res != NotFound {
          guard, entered' := guard + 1, true;
        }
      } else {
        if res != Full && guard <= 1 {
          outcome := AddNode(hdr, place, hole);
          if outcome == Added {
            a, guard := a.(added := true), -1;
          }
        }
      }
    }

    /** A search for the entry that was evicted last finds it, at the index behind the only entry. */
    method SearchOutdated(y: int, x: Header, was: Header) returns (res: Found, index: int)
      requires Outdated(y, x, was) && was != x
      ensures res == Full && index == STATIC_ENTRIES + 2 && Table() == [x]
    {
      hide Holds;
      hide RedBlackTree;
      hide Sorted;
      hide IsPlace;
      hide InOrder;
      assert y in Offsets(st.tree);
      hide Offsets;
      ghost var hole;
      var node, place;
      res, node, place, hole := st.Find(was);
      index := GetIndex(node);
      assert InBuffer(st.hdrs, [0]) && Entries(st.hdrs, [0]) == [x];
    }

    /** Shrinking the window (fw/hpack.c:3828-3850): here the eviction works on the table itself,
        has no limit, and again leaves the last node in the tree when none survives. */
    method SetWindow(newSize: nat)
      requires Valid()
      modifies this`b, this`window, this`head, this`tail, st`links, st`root, st`tree
      ensures newSize >= old(window) ==> window == old(window) && Valid() && Table() == old(Table())
      ensures newSize < old(window) ==> window == newSize
      ensures newSize < old(window) && old(KeepsSome(newSize)) ==> Valid()
      ensures newSize < old(window) && old(KeepsSome(newSize)) ==> Table() == Fifo.Evict(old(Table()), newSize)
      ensures newSize < old(window) && !old(KeepsSome(newSize)) ==> !Valid() && b == EMPTY
      ensures newSize < old(window) && !old(KeepsSome(newSize)) ==> Offsets(st.tree) == {old(b.last)}
    {
      hide Holds;
      hide RedBlackTree;
      hide Laid;
      hide Sorted;
      hide Offsets;
      hide InOrder;
      hide Indexed;
      hide Members;
      hide Victims;
      hide Entries;
      hide EntrySize;
      LaidSums(st.hdrs, head, tail, b);
      AdditionFacts(st.hdrs, head, tail, b, newSize);
      LaidFirst(st.hdrs, head, tail, b);
      if window <= newSize {
        return;
      }
      ghost var hd, ring, k := st.hdrs, head + tail, Victims(st.hdrs, head + tail, newSize);
      EntriesAfterEviction(hd, ring, newSize);
      assert ring[0..] == ring;
      if b.size > newSize {
        EvictFor(newSize);
        EvictedFacts(hd, ring, k, head, tail, b, newSize, st.rindex, idxAcc);
      }
      window := newSize;
    }

    /** The youngest entry, if there is one, fits in the new window. */
    ghost predicate KeepsSome(newSize: nat)
      reads this, st
    {
      0 <= b.last < |st.hdrs| ==> EntrySize(st.hdrs[b.last]) <= newSize
    }

    /** Eviction straight from the table (fw/hpack.c:2903-2963 without a list). */
    method EvictFor(newSize: nat)
      requires Valid() && b.size > newSize
      modifies this`b, this`head, this`tail, st`links, st`root, st`tree
      ensures st.Valid() && Sorted(st.hdrs, InOrder(st.tree))
      ensures var ring, k := old(head + tail), Victims(st.hdrs, old(head + tail), newSize);
        && Evicted(st.hdrs, ring, k, head, tail, b, newSize)
        && Offsets(st.tree) == (if k < |ring| then Members(head + tail) else {ring[k - 1]})
    {
      hide Holds;
      hide RedBlackTree;
      hide Laid;
      hide Sorted;
      hide Offsets;
      hide InOrder;
      hide Indexed;
      hide Members;
      hide Victims;
      hide Evicting;
      hide Evicted;
      hide NodeLen;
      hide EntrySize;
      hide NoDup;
      hide Without;
      ghost var hd, ring, n := st.hdrs, head + tail, 0;
      EvictStart(hd, head, tail, b, newSize);
      RingNoDup(hd, head, tail, b);
      while true
        invariant st.hdrs == hd && n < |ring| && head + tail == ring[n..]
        invariant Evicting(hd, ring, ring[..n], head, tail, b, newSize)
        invariant st.Valid() && Sorted(hd, InOrder(st.tree)) && Offsets(st.tree) == Members(ring[n..])
        decreases |ring| - n
      {
        EvictingFacts(hd, ring, ring[..n], head, tail, b, newSize);
        MembersTail(ring, n);
        if b.last == b.first {
          EvictLast(hd, ring, ring[..n], head, tail, b, newSize);
          b := b.(first := NIL, last := NIL, rbLen := 0, size := 0);
          head, tail := [], [];
          return;
        }
        EvictOne(hd, ring, ring[..n], head, tail, b, newSize);
        SortedWithout(hd, InOrder(st.tree), b.first);
        st.Erase(b.first);
        var fLen, fSize := NodeLen(st.hdrs[b.first]), EntrySize(st.hdrs[b.first]);
        if b.last < b.first && b.rbLen - fLen == b.last + NodeLen(st.hdrs[b.last]) {
          b := b.(rbSize := RBUF_SIZE, first := 0);
        } else {
          b := b.(first := b.first + fLen);
        }
        b := b.(size := b.size - fSize, rbLen := b.rbLen - fLen);
        head, tail := if |head| == 1 then tail else head[1..], if |head| == 1 then [] else tail;
        assert ring[..n] + [ring[n]] == ring[..n + 1];
        n := n + 1;
        if b.size <= newSize {
          return;
        }
      }
    }
  }

  /** A fresh table with one header. */
  method OneHeader(window: nat, x: Header, links: Links, hdrs: seq<Header>, rindex: seq<nat>)
    returns (tbl: EncTable, first: AddResult)
    requires Sized(links) && |hdrs| == |rindex| == RBUF_SIZE && EntrySize(x) <= window <= RBUF_SIZE
    ensures first == Added && fresh(tbl) && fresh(tbl.st) && tbl.Valid() && tbl.window == window
    ensures tbl.head + tbl.tail == [0] && Offsets(tbl.st.tree) == {0} && tbl.Table() == [x]
    ensures tbl.b.last == 0 && |tbl.st.hdrs| == RBUF_SIZE && tbl.st.hdrs[0] == x
  {
    hide Laid;
    hide Holds;
    hide RedBlackTree;
    hide Sorted;
    hide IsPlace;
    hide InOrder;
    hide Indexed;
    hide EntrySize;
    hide Offsets;
    hide Plug;
    hide EncTable.Accepts;
    hide EncTable.Outdated;
    tbl := new EncTable(window, links, hdrs, rindex);
    LaidFirst(tbl.st.hdrs, tbl.head, tbl.tail, tbl.b);
    assert Offsets(tbl.st.tree) == {};
    var res, node, place, hole := tbl.st.Find(x);
    first := tbl.AddNode(x, place, hole);
    OneEntry(tbl.st.hdrs, tbl.head, tbl.tail, tbl.b, window, x);
  }

  /** The shortest way to the flush: to a fresh table, two headers are added that do not fit
      beside each other. The second meets the BUG_ON of the rotation. */
  method TwoLargeHeaders(window: nat, x: Header, y: Header, links: Links, hdrs: seq<Header>, rindex: seq<nat>)
    returns (first: AddResult, second: AddResult)
    requires Sized(links) && |hdrs| == |rindex| == RBUF_SIZE
    requires EntrySize(x) <= window && EntrySize(y) <= window <= RBUF_SIZE && x != y
    requires EntrySize(x) + EntrySize(y) > window
    ensures first == Added && second == Bug
  {
    hide Laid;
    hide Sorted;
    hide IsPlace;
    hide InOrder;
    hide Indexed;
    hide EntrySize;
    hide Offsets;
    hide EncTable.Accepts;
    hide EncTable.Outdated;
    var tbl;
    tbl, first := OneHeader(window, x, links, hdrs, rindex);
    var res, node, place, hole := tbl.st.Find(y);
    second := tbl.AddNode(y, place, hole);
  }

  lemma OneEntry(hd: seq<Header>, head: seq<int>, tail: seq<int>, b: Bounds, window: nat, x: Header)
    requires Laid(hd, head, tail, b) && EntrySize(x) <= window && b.last == 0
    requires InBuffer(hd, head + tail) && Entries(hd, head + tail) == Fifo.Add([], window, x)
    ensures |head + tail| == 1 && Members(head + tail) == {0} && |hd| > 0 && hd[0] == x
    ensures head + tail == [0] && Entries(hd, head + tail) == [x]
  {
    assert Entries(hd, head + tail) == [x];
    LaidHead(hd, head, tail, b);
    assert head + tail == [0];
  }

  /** A second header that fits beside the first is accepted. */
  lemma SecondAccepted(tbl: EncTable, x: Header, y: Header)
    requires tbl.head + tbl.tail == [0] && |tbl.st.hdrs| == RBUF_SIZE && tbl.st.hdrs[0] == x && tbl.b.last == 0
    requires EntrySize(x) + EntrySize(y) <= tbl.window <= RBUF_SIZE
    ensures tbl.Accepts(y) && !tbl.Flushes(y)
  {
    var hd := tbl.st.hdrs;
    assert Entries(hd, [0]) == [x] && Fifo.TableSize([x]) == EntrySize(x);
    assert Victims(hd, [0], tbl.window - EntrySize(y)) == 0 && [0][0..] == [0];
  }

  /** A fresh table with two headers that fit beside each other. */
  method TwoSmallHeaders(window: nat, x: Header, y: Header, links: Links, hdrs: seq<Header>, rindex: seq<nat>)
    returns (tbl: EncTable, first: AddResult, second: AddResult)
    requires Sized(links) && |hdrs| == |rindex| == RBUF_SIZE && x != y
    requires EntrySize(x) + EntrySize(y) <= window <= RBUF_SIZE
    ensures first == second == Added && fresh(tbl) && fresh(tbl.st) && tbl.Valid() && tbl.window == window
    ensures Members(tbl.head + tbl.tail) == {0, NodeLen(x)} && |tbl.head + tbl.tail| == 2 && tbl.b.last == NodeLen(x)
    ensures 0 <= tbl.b.last < RBUF_SIZE == |tbl.st.hdrs| && tbl.st.hdrs[0] == x && tbl.st.hdrs[tbl.b.last] == y
  {
    hide Laid;
    hide Holds;
    hide RedBlackTree;
    hide Sorted;
    hide IsPlace;
    hide InOrder;
    hide Indexed;
    hide Offsets;
    hide Plug;
    hide EntrySize;
    hide Entries;
    hide Ages;
    hide Victims;
    hide Room;
    hide NodeLen;
    hide EncTable.Outdated;
    tbl, first := OneHeader(window, x, links, hdrs, rindex);
    SecondAccepted(tbl, x, y);
    hide EncTable.Accepts;
    hide EncTable.Flushes;
    var res, node, place, hole := tbl.st.Find(y);
    second := tbl.AddNode(y, place, hole);
    TwoEntries(tbl.st.hdrs, tbl.head, tbl.tail, tbl.b, window, x, y);
  }

  /** The flush behind an earlier entry: the node of the second header, which lies behind that of
      the first, is still in the tree when the third is written at the start of the buffer. Headers
      of 8, 2000 and 2100 bytes and a window of 4096 have it written over; headers of 1, 2000 and
      8 bytes and a window of 2065 have it left in the tree. */
  method ThreeHeaders(window: nat, x: Header, y: Header, z: Header, links: Links, hdrs: seq<Header>, rindex: seq<nat>)
    returns (first: AddResult, second: AddResult, third: AddResult)
    requires Sized(links) && |hdrs| == |rindex| == RBUF_SIZE && x != y && x != z && y != z
    requires EntrySize(x) + EntrySize(y) <= window <= RBUF_SIZE && EntrySize(z) <= window
    requires EntrySize(y) + EntrySize(z) > window
    ensures first == second == Added && third == (if NodeLen(x) < NodeLen(z) then Overwritten else Added)
  {
    hide Laid;
    hide Holds;
    hide RedBlackTree;
    hide Sorted;
    hide IsPlace;
    hide InOrder;
    hide Indexed;
    hide Offsets;
    hide Plug;
    hide EntrySize;
    hide EncTable.Accepts;
    hide EncTable.Outdated;
    var tbl;
    tbl, first, second := TwoSmallHeaders(window, x, y, links, hdrs, rindex);
    var res, node, place, hole := tbl.st.Find(z);
    third := tbl.AddNode(z, place, hole);
  }

  /** Behind a node at the start of the buffer, the second one lies at its end. */
  lemma TwoEntries(hd: seq<Header>, head: seq<int>, tail: seq<int>, b: Bounds, window: nat, x: Header, y: Header)
    requires Laid(hd, head, tail, b) && EntrySize(x) + EntrySize(y) <= window
    requires InBuffer(hd, head + tail) && Entries(hd, head + tail) == Fifo.Add([x], window, y)
    requires Ages([0], head + tail, b.last)
    ensures Members(head + tail) == {0, NodeLen(x)} && |head + tail| == 2 && b.last == NodeLen(x)
    ensures |hd| == RBUF_SIZE && 0 <= b.last < RBUF_SIZE && hd[0] == x && hd[b.last] == y
  {
    hide NodeLen;
    hide EntrySize;
    assert Fifo.TableSize([x]) == EntrySize(x);
    assert Fifo.Add([x], window, y) == [x, y];
    var k :| 0 <= k <= 1 && head + tail == [0][k..] + [b.last];
    assert |head + tail| == 2 && (head + tail)[0] == 0 && (head + tail)[1] == b.last;
    assert Entries(hd, head + tail)[0] == x && Entries(hd, head + tail)[1] == y;
    LaidHead(hd, head, tail, b);
    WalkVisitsRing(hd, head, tail, b, 0);
    NodesDisjoint(hd, head, tail, b, 0, 1);
  }
}
