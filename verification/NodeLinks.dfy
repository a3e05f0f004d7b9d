/** How the node records of the encoder index spell out a tree: the link fields, addressed by
    the records' offsets in the ring buffer, and what writing to them does to the tree. */
module NodeLinks {
  import opened RedBlack

  /** Size of the ring buffer in bytes; node offsets lie below it. */
  const RBUF_SIZE: nat := 4096

  /** The link fields of the records: field by field, indexed by the record's offset. */
  datatype Links = Links(parent: seq<int>, left: seq<int>, right: seq<int>, color: seq<Color>)

  ghost predicate Sized(m: Links) {
    |m.parent| == |m.left| == |m.right| == |m.color| == RBUF_SIZE
  }

  ghost predicate IsNode(o: int) {
    0 <= o < RBUF_SIZE
  }

  // ----- how records spell out a tree

  ghost predicate Shape(m: Links, t: Tree, parent: int)
    requires Sized(m)
  {
    t.Node? ==>
      && IsNode(t.off)
      && m.parent[t.off] == parent
      && m.color[t.off] == t.color
      && m.left[t.off] == Root(t.left)
      && m.right[t.off] == Root(t.right)
      && Shape(m, t.left, t.off)
      && Shape(m, t.right, t.off)
  }

  /** The frames of a hole, the innermost of which links to child. */
  ghost predicate ShapeHole(m: Links, root: int, h: Hole, child: int)
    requires Sized(m)
  {
    match h
    case Top => root == child
    case InLeft(up, x, c, r) =>
      && IsNode(x) && m.parent[x] == Parent(up) && m.color[x] == c
      && m.left[x] == child && m.right[x] == Root(r)
      && Shape(m, r, x) && ShapeHole(m, root, up, x)
    case InRight(up, l, x, c) =>
      && IsNode(x) && m.parent[x] == Parent(up) && m.color[x] == c
      && m.left[x] == Root(l) && m.right[x] == child
      && Shape(m, l, x) && ShapeHole(m, root, up, x)
  }

  /** The records hold the tree t, seen at the place h. */
  ghost predicate Holds(m: Links, root: int, h: Hole, t: Tree) {
    && Sized(m)
    && Shape(m, t, Parent(h))
    && ShapeHole(m, root, h, Root(t))
    && Distinct(t) && DistinctHole(h) && Offsets(t) !! HoleOffsets(h)
  }

  lemma {:induction false} HoldsPlug(m: Links, root: int, h: Hole, t: Tree)
    ensures Holds(m, root, h, t) <==> Holds(m, root, Top, Plug(h, t))
    decreases h
  {
    match h
    case Top =>
    case InLeft(up, x, c, r) =>
      HoldsPlug(m, root, up, Node(t, x, c, r));
    case InRight(up, l, x, c) =>
      HoldsPlug(m, root, up, Node(l, x, c, t));
  }

  // ----- framing

  ghost predicate SameOutside(m: Links, m': Links, changed: set<int>)
    requires Sized(m) && Sized(m')
  {
    forall o :: 0 <= o < RBUF_SIZE && o !in changed ==>
      m'.parent[o] == m.parent[o] && m'.left[o] == m.left[o] && m'.right[o] == m.right[o] && m'.color[o] == m.color[o]
  }

  lemma {:induction false} ShapeOutside(m: Links, m': Links, changed: set<int>, t: Tree, p: int)
    requires Sized(m) && Sized(m')
    requires Shape(m, t, p) && SameOutside(m, m', changed) && changed !! Offsets(t)
    ensures Shape(m', t, p)
  {
    if t.Node? {
      ShapeOutside(m, m', changed, t.left, t.off);
      ShapeOutside(m, m', changed, t.right, t.off);
    }
  }

  /** Framing everything but the parent link and the colour of the tree's own root. */
  lemma ReparentShape(m: Links, m': Links, changed: set<int>, t: Tree, p: int, p': int, c: Color)
    requires Sized(m) && Sized(m')
    requires Shape(m, t, p) && Distinct(t) && SameOutside(m, m', changed) && changed * Offsets(t) <= {Root(t)}
    requires t.Node? ==> m'.parent[t.off] == p' && m'.color[t.off] == c
    requires t.Node? ==> m'.left[t.off] == m.left[t.off] && m'.right[t.off] == m.right[t.off]
    ensures Shape(m', if t.Node? then t.(color := c) else t, p')
  {
    if t.Node? {
      ShapeOutside(m, m', changed, t.left, t.off);
      ShapeOutside(m, m', changed, t.right, t.off);
    }
  }

  lemma {:induction false} ShapeHoleOutside(m: Links, m': Links, changed: set<int>, root: int, h: Hole, child: int)
    requires Sized(m) && Sized(m')
    requires ShapeHole(m, root, h, child) && SameOutside(m, m', changed) && changed !! HoleOffsets(h)
    ensures ShapeHole(m', root, h, child)
  {
    match h
    case Top =>
    case InLeft(up, x, c, r) =>
      ShapeOutside(m, m', changed, r, x);
      ShapeHoleOutside(m, m', changed, root, up, x);
    case InRight(up, l, x, c) =>
      ShapeOutside(m, m', changed, l, x);
      ShapeHoleOutside(m, m', changed, root, up, x);
  }

  /** The innermost frame leads to child', or, at the top, the root does. */
  ghost predicate Redirected(m: Links, m': Links, root: int, root': int, h: Hole, child': int)
    requires Sized(m) && Sized(m')
  {
    match h
    case Top => root' == child'
    case InLeft(_, x, _, _) =>
      IsNode(x) && root' == root && m'.left[x] == child' && m'.right[x] == m.right[x]
      && m'.parent[x] == m.parent[x] && m'.color[x] == m.color[x]
    case InRight(_, _, x, _) =>
      IsNode(x) && root' == root && m'.right[x] == child' && m'.left[x] == m.left[x]
      && m'.parent[x] == m.parent[x] && m'.color[x] == m.color[x]
  }

  lemma RedirectHole(m: Links, m': Links, changed: set<int>, root: int, root': int, h: Hole, child: int, child': int)
    requires Sized(m) && Sized(m')
    requires ShapeHole(m, root, h, child) && DistinctHole(h)
    requires SameOutside(m, m', changed) && changed * HoleOffsets(h) <= {Parent(h)}
    requires Redirected(m, m', root, root', h, child')
    ensures ShapeHole(m', root', h, child')
  {
    match h
    case Top =>
    case InLeft(up, x, c, r) =>
      ShapeOutside(m, m', changed, r, x);
      ShapeHoleOutside(m, m', changed, root, up, x);
    case InRight(up, l, x, c) =>
      ShapeOutside(m, m', changed, l, x);
      ShapeHoleOutside(m, m', changed, root, up, x);
  }

  lemma {:induction false} NoNil(t: Tree)
    requires Distinct(t)
    ensures NIL !in Offsets(t)
  {
    if t.Node? {
      NoNil(t.left);
      NoNil(t.right);
    }
  }

  lemma {:induction false} NoNilHole(h: Hole)
    requires DistinctHole(h)
    ensures NIL !in HoleOffsets(h)
  {
    match h
    case Top =>
    case InLeft(up, x, c, r) => NoNil(r); NoNilHole(up);
    case InRight(up, l, x, c) => NoNil(l); NoNilHole(up);
  }

  /** What the code learns about a node and its surroundings before it rewires them. */
  lemma NodeFacts(m: Links, root: int, h: Hole, t: Tree)
    requires Holds(m, root, h, t)
    ensures Sized(m)
    ensures t.Node? ==> IsNode(t.off) && m.parent[t.off] == Parent(h) && m.color[t.off] == t.color
    ensures t.Node? ==> m.left[t.off] == Root(t.left) && m.right[t.off] == Root(t.right)
    ensures h.Top? ==> Parent(h) == NIL && root == Root(t)
    ensures !h.Top? ==> Parent(h) == h.off && IsNode(h.off) && h.off !in Offsets(t)
    ensures !h.Top? ==> m.parent[h.off] == Parent(h.up) && m.color[h.off] == h.color
    ensures h.InLeft? ==> m.left[h.off] == Root(t) && m.right[h.off] == Root(h.right)
    ensures h.InRight? ==> m.left[h.off] == Root(h.left) && m.right[h.off] == Root(t)
    ensures h.InRight? && t.Node? ==> m.left[h.off] != t.off
    ensures h.InLeft? && t.Node? ==> m.right[h.off] != t.off
  {
    if h.InRight? && t.Node? {
      assert t.off in Offsets(t) && t.off !in Offsets(h.left);
    }
    if h.InLeft? && t.Node? {
      assert t.off in Offsets(t) && t.off !in Offsets(h.right);
    }
  }

  /** Moving the place of attention to a child and back changes nothing. */
  lemma GoLeft(m: Links, root: int, h: Hole, t: Tree)
    requires t.Node?
    ensures Holds(m, root, h, t) <==> Holds(m, root, InLeft(h, t.off, t.color, t.right), t.left)
  {}

  lemma GoRight(m: Links, root: int, h: Hole, t: Tree)
    requires t.Node?
    ensures Holds(m, root, h, t) <==> Holds(m, root, InRight(h, t.left, t.off, t.color), t.right)
  {}

  // ----- rotations on records

  /** The link fields after the step that redirects what led to the place h. */
  function RelinkLeft(left: seq<int>, h: Hole, child: int): seq<int>
    requires h.InLeft? ==> 0 <= h.off < |left|
  {
    if h.InLeft? then left[h.off := child] else left
  }

  function RelinkRight(right: seq<int>, h: Hole, child: int): seq<int>
    requires h.InRight? ==> 0 <= h.off < |right|
  {
    if h.InRight? then right[h.off := child] else right
  }

  function Reparent(parent: seq<int>, t: Tree, p: int): seq<int>
    requires t.Node? ==> 0 <= t.off < |parent|
  {
    if t.Node? then parent[t.off := p] else parent
  }

  /** The records after a left rotation at t, and nothing else changed. */
  ghost predicate RotatedLeftLinks(m: Links, m': Links, root: int, root': int, h: Hole, t: Tree)
    requires Sized(m) && Sized(m') && t.Node? && t.right.Node?
  {
    var x, y, b := t.off, t.right.off, t.right.left;
    && IsNode(x) && IsNode(y) && m'.color == m.color
    && m'.right[x] == Root(b) && m'.parent[x] == y && m'.left[x] == m.left[x]
    && m'.parent[y] == Parent(h) && m'.left[y] == x && m'.right[y] == m.right[y]
    && (b.Node? ==> IsNode(b.off) && m'.parent[b.off] == x
                    && m'.left[b.off] == m.left[b.off] && m'.right[b.off] == m.right[b.off])
    && Redirected(m, m', root, root', h, y)
    && SameOutside(m, m', {x, y, Root(b), Parent(h)})
  }

  lemma LeftRotationShape(m: Links, m': Links, root: int, root': int, h: Hole, t: Tree)
    requires Sized(m') && Holds(m, root, h, t) && t.Node? && t.right.Node?
    requires RotatedLeftLinks(m, m', root, root', h, t)
    ensures Shape(m', RotatedLeft(t), Parent(h))
  {
    var x, y, a, b, d := t.off, t.right.off, t.left, t.right.left, t.right.right;
    var changed := {x, y, Root(b), Parent(h)};
    assert Shape(m, t.right, x) && Distinct(t.right);
    assert Offsets(t.right) == Offsets(b) + {y} + Offsets(d);
    assert Parent(h) !in Offsets(t) && NIL !in Offsets(t) by { NoNil(t); }
    ShapeOutside(m, m', changed, a, x);
    ShapeOutside(m, m', changed, d, y);
    ReparentShape(m, m', changed, b, y, x, if b.Node? then b.color else Black);
  }

  lemma LeftRotation(m: Links, m': Links, root: int, root': int, h: Hole, t: Tree)
    requires Sized(m') && Holds(m, root, h, t) && t.Node? && t.right.Node?
    requires RotatedLeftLinks(m, m', root, root', h, t)
    ensures Holds(m', root', h, RotatedLeft(t))
  {
    LeftRotationShape(m, m', root, root', h, t);
    RotatedLeftKeeps(t);
    RotatedLeftDistinct(t);
    assert {t.off, t.right.off, Root(t.right.left)} <= Offsets(t) + {NIL};
    NoNilHole(h);
    RedirectHole(m, m', {t.off, t.right.off, Root(t.right.left), Parent(h)}, root, root', h, t.off, t.right.off);
  }

  /** What a left rotation reads before it writes. */
  lemma LeftFacts(m: Links, root: int, h: Hole, t: Tree)
    requires Holds(m, root, h, t) && t.Node? && t.right.Node?
    ensures Sized(m)
    ensures var x, y, b := t.off, t.right.off, t.right.left;
      && IsNode(x) && IsNode(y) && x != y
      && m.right[x] == y && m.parent[x] == Parent(h) && m.left[y] == Root(b)
      && (b.Node? ==> IsNode(b.off) && b.off != x && b.off != y && b.off != Parent(h))
      && (!h.Top? ==> IsNode(h.off) && h.off != x && h.off != y)
      && (h.InLeft? ==> m.left[h.off] == x)
      && (h.InRight? ==> m.left[h.off] != x && m.right[h.off] == x)
  {
    NodeFacts(m, root, h, t);
    GoRight(m, root, h, t);
    var h1 := InRight(h, t.left, t.off, t.color);
    NodeFacts(m, root, h1, t.right);
    GoLeft(m, root, h1, t.right);
    NodeFacts(m, root, InLeft(h1, t.right.off, t.right.color, t.right.right), t.right.left);
    assert t.right.off in Offsets(t);
  }

  // ----- right and left swapped

  function MirrorTree(t: Tree): Tree {
    if t.Leaf? then Leaf else Node(MirrorTree(t.right), t.off, t.color, MirrorTree(t.left))
  }

  function MirrorHole(h: Hole): Hole {
    match h
    case Top => Top
    case InLeft(up, x, c, r) => InRight(MirrorHole(up), MirrorTree(r), x, c)
    case InRight(up, l, x, c) => InLeft(MirrorHole(up), x, c, MirrorTree(l))
  }

  function MirrorLinks(m: Links): Links {
    m.(left := m.right, right := m.left)
  }

  lemma {:induction false} MirrorShape(m: Links, t: Tree, p: int)
    requires Sized(m)
    ensures Offsets(MirrorTree(t)) == Offsets(t) && Root(MirrorTree(t)) == Root(t)
    ensures Distinct(MirrorTree(t)) <==> Distinct(t)
    ensures Shape(MirrorLinks(m), MirrorTree(t), p) <==> Shape(m, t, p)
    ensures MirrorTree(MirrorTree(t)) == t
  {
    if t.Node? {
      MirrorShape(m, t.left, t.off);
      MirrorShape(m, t.right, t.off);
    }
  }

  lemma {:induction false} MirrorShapeHole(m: Links, root: int, h: Hole, child: int)
    requires Sized(m)
    ensures HoleOffsets(MirrorHole(h)) == HoleOffsets(h) && Parent(MirrorHole(h)) == Parent(h)
    ensures DistinctHole(MirrorHole(h)) <==> DistinctHole(h)
    ensures ShapeHole(MirrorLinks(m), root, MirrorHole(h), child) <==> ShapeHole(m, root, h, child)
  {
    match h
    case Top =>
    case InLeft(up, x, c, r) =>
      MirrorShape(m, r, x);
      MirrorShapeHole(m, root, up, x);
    case InRight(up, l, x, c) =>
      MirrorShape(m, l, x);
      MirrorShapeHole(m, root, up, x);
  }

  lemma MirrorHolds(m: Links, root: int, h: Hole, t: Tree)
    requires Sized(m)
    ensures Holds(MirrorLinks(m), root, MirrorHole(h), MirrorTree(t)) <==> Holds(m, root, h, t)
  {
    MirrorShape(m, t, Parent(h));
    MirrorShapeHole(m, root, h, Root(t));
  }

  ghost predicate RotatedRightLinks(m: Links, m': Links, root: int, root': int, h: Hole, t: Tree)
    requires Sized(m) && Sized(m') && t.Node? && t.left.Node?
  {
    var x, y, b := t.off, t.left.off, t.left.right;
    && IsNode(x) && IsNode(y) && m'.color == m.color
    && m'.left[x] == Root(b) && m'.parent[x] == y && m'.right[x] == m.right[x]
    && m'.parent[y] == Parent(h) && m'.right[y] == x && m'.left[y] == m.left[y]
    && (b.Node? ==> IsNode(b.off) && m'.parent[b.off] == x
                    && m'.left[b.off] == m.left[b.off] && m'.right[b.off] == m.right[b.off])
    && Redirected(m, m', root, root', h, y)
    && SameOutside(m, m', {x, y, Root(b), Parent(h)})
  }

  lemma RightRotation(m: Links, m': Links, root: int, root': int, h: Hole, t: Tree)
    requires Sized(m') && Holds(m, root, h, t) && t.Node? && t.left.Node?
    requires RotatedRightLinks(m, m', root, root', h, t)
    ensures Holds(m', root', h, RotatedRight(t))
  {
    MirrorHolds(m, root, h, t);
    var t', h' := MirrorTree(t), MirrorHole(h);
    assert t'.right == MirrorTree(t.left) && t'.right.left == MirrorTree(t.left.right);
    MirrorShape(m, t.left.right, t.left.off);
    assert RotatedLeftLinks(MirrorLinks(m), MirrorLinks(m'), root, root', h', t');
    LeftRotation(MirrorLinks(m), MirrorLinks(m'), root, root', h', t');
    assert MirrorTree(RotatedRight(t)) == RotatedLeft(t');
    MirrorHolds(m', root', h, RotatedRight(t));
  }

  /** What a right rotation reads before it writes. */
  lemma RightFacts(m: Links, root: int, h: Hole, t: Tree)
    requires Holds(m, root, h, t) && t.Node? && t.left.Node?
    ensures Sized(m)
    ensures var x, y, b := t.off, t.left.off, t.left.right;
      && IsNode(x) && IsNode(y) && x != y
      && m.left[x] == y && m.parent[x] == Parent(h) && m.right[y] == Root(b)
      && (b.Node? ==> IsNode(b.off) && b.off != x && b.off != y && b.off != Parent(h))
      && (!h.Top? ==> IsNode(h.off) && h.off != x && h.off != y)
      && (h.InLeft? ==> m.left[h.off] == x)
      && (h.InRight? ==> m.left[h.off] != x && m.right[h.off] == x)
  {
    NodeFacts(m, root, h, t);
    GoLeft(m, root, h, t);
    var h1 := InLeft(h, t.off, t.color, t.right);
    NodeFacts(m, root, h1, t.left);
    GoRight(m, root, h1, t.left);
    NodeFacts(m, root, InRight(h1, t.left.left, t.left.off, t.left.color), t.left.right);
    assert t.left.off in Offsets(t);
  }

  // ----- recolouring

  lemma Recoloring(m: Links, root: int, h: Hole, t: Tree, c: Color)
    requires Holds(m, root, h, t) && t.Node?
    ensures Sized(m) && IsNode(t.off)
    ensures Holds(m.(color := m.color[t.off := c]), root, h, t.(color := c))
  {
    var m' := m.(color := m.color[t.off := c]);
    assert t.off in Offsets(t);
    ReparentShape(m, m', {t.off}, t, Parent(h), Parent(h), c);
    ShapeHoleOutside(m, m', {t.off}, root, h, t.off);
  }

  function Recolor(m: Links, x: int, c: Color): Links
    requires 0 <= x < |m.color|
  {
    m.(color := m.color[x := c])
  }

  lemma GoUp(m: Links, root: int, h: Hole, t: Tree)
    requires !h.Top?
    ensures Holds(m, root, h, t) <==> Holds(m, root, h.up, Fill(h, t, h.color))
  {
    if h.InLeft? {
      GoLeft(m, root, h.up, Fill(h, t, h.color));
    } else {
      GoRight(m, root, h.up, Fill(h, t, h.color));
    }
  }

  /** The place of the sibling. */
  function Across(h: Hole, t: Tree): Hole
    requires !h.Top?
  {
    if h.InLeft? then InRight(h.up, t, h.off, h.color) else InLeft(h.up, h.off, h.color, t)
  }

  lemma GoAcross(m: Links, root: int, h: Hole, t: Tree)
    requires !h.Top?
    ensures Holds(m, root, h, t) <==> Holds(m, root, Across(h, t), Sibling(h))
  {
    GoUp(m, root, h, t);
    GoUp(m, root, Across(h, t), Sibling(h));
  }

  lemma RecolorSibling(m: Links, root: int, h: Hole, t: Tree, c: Color)
    requires Holds(m, root, h, t) && !h.Top? && Sibling(h).Node?
    ensures Sized(m) && IsNode(Sibling(h).off)
    ensures Holds(Recolor(m, Sibling(h).off, c), root, WithSibling(h, Sibling(h).(color := c)), t)
  {
    var s := Sibling(h).(color := c);
    GoAcross(m, root, h, t);
    Recoloring(m, root, Across(h, t), Sibling(h), c);
    GoAcross(Recolor(m, Sibling(h).off, c), root, WithSibling(h, s), t);
  }

  lemma RecolorParent(m: Links, root: int, h: Hole, t: Tree, c: Color)
    requires Holds(m, root, h, t) && !h.Top?
    ensures Sized(m) && IsNode(h.off)
    ensures Holds(Recolor(m, h.off, c), root, h.(color := c), t)
    ensures Holds(Recolor(m, h.off, c), root, h.up, Fill(h, t, c))
  {
    GoUp(m, root, h, t);
    Recoloring(m, root, h.up, Fill(h, t, h.color), c);
    GoUp(Recolor(m, h.off, c), root, h.(color := c), t);
  }

  /** Recolouring parent, uncle and grandparent. */
  lemma RecolorFamily(m: Links, root: int, h: Hole, t: Tree)
    requires Holds(m, root, h, t) && !h.Top? && !h.up.Top? && Sibling(h.up).Node?
    ensures Sized(m) && IsNode(h.off) && IsNode(Sibling(h.up).off) && IsNode(h.up.off)
    ensures Holds(Recolor(Recolor(Recolor(m, h.off, Black), Sibling(h.up).off, Black), h.up.off, Red), root, h.up.up,
                  Fill(WithSibling(h.up, Sibling(h.up).(color := Black)), Fill(h, t, Black), Red))
  {
    hide Holds;
    RecolorParent(m, root, h, t, Black);
    var m1 := Recolor(m, h.off, Black);
    RecolorSibling(m1, root, h.up, Fill(h, t, Black), Black);
    var m2, h2 := Recolor(m1, Sibling(h.up).off, Black), WithSibling(h.up, Sibling(h.up).(color := Black));
    RecolorParent(m2, root, h2, Fill(h, t, Black), Red);
  }

  /** Where the rebalancing after an insertion stands: s is the in-order sequence to keep. */
  ghost predicate InsertStep(m: Links, root: int, h: Hole, t: Tree, b: int, s: seq<int>) {
    Holds(m, root, h, t) && Inserting(h, t, b) && InOrder(Plug(h, t)) == s
  }

  /** Rebalanced, but for a root that may have to be blackened. */
  ghost predicate Settled(m: Links, root: int, h: Hole, t: Tree, s: seq<int>) {
    t.Node? && Holds(m, root, h, t) && RedBlackTree(Plug(h, t)) && InOrder(Plug(h, t)) == s
  }

  lemma InsertFacts(m: Links, root: int, h: Hole, t: Tree, b: int, s: seq<int>)
    requires InsertStep(m, root, h, t, b, s) && RedParent(h)
    ensures Sized(m) && !h.Top? && !h.up.Top? && IsRed(t) && IsNode(t.off)
    ensures IsNode(h.off) && IsNode(h.up.off) && m.parent[h.off] == h.up.off
    ensures h.up.InLeft? <==> m.left[h.up.off] == h.off
    ensures h.InLeft? ==> m.left[h.off] == t.off && m.right[h.off] != t.off
    ensures h.InRight? ==> m.right[h.off] == t.off && m.left[h.off] != t.off
    ensures var u := if h.up.InLeft? then m.right[h.up.off] else m.left[h.up.off];
      && u == Root(Sibling(h.up))
      && (u < 0 ==> Sibling(h.up).Leaf?)
      && (u >= 0 ==> Sibling(h.up).Node? && IsNode(u) && m.color[u] == Sibling(h.up).color)
  {
    NodeFacts(m, root, h, t);
    GoUp(m, root, h, t);
    NodeFacts(m, root, h.up, Fill(h, t, h.color));
    GoAcross(m, root, h.up, Fill(h, t, h.color));
    NodeFacts(m, root, Across(h.up, Fill(h, t, h.color)), Sibling(h.up));
  }

  /** The last step: the root is made black. */
  lemma InsertFinish(m: Links, root: int, h: Hole, t: Tree, b: int, s: seq<int>, resting: bool) returns (done: Tree)
    requires !resting ==> InsertStep(m, root, h, t, b, s) && !RedParent(h)
    requires resting ==> Settled(m, root, h, t, s)
    ensures Sized(m) && IsNode(root)
    ensures Holds(Recolor(m, root, Black), root, Top, done) && RedBlackTree(done) && InOrder(done) == s
  {
    if !resting && h.Top? {
      NodeFacts(m, root, h, t);
      Recoloring(m, root, h, t, Black);
      InsertingAtRoot(t, b);
      done := t.(color := Black);
    } else {
      if !resting { InsertingDone(h, t, b); }
      done := Plug(h, t);
      PlugOffsets(h, t);
      HoldsPlug(m, root, h, t);
      NodeFacts(m, root, Top, done);
      Recoloring(m, root, Top, done, Black);
    }
  }

  // ----- the rotations as the code writes them

  lemma LeftRotationWrites(m: Links, m': Links, root: int, root': int, h: Hole, t: Tree)
    requires Holds(m, root, h, t) && t.Node? && t.right.Node?
    requires IsNode(t.off) && IsNode(t.right.off) && (!h.Top? ==> IsNode(h.off))
    requires t.right.left.Node? ==> IsNode(t.right.left.off)
    requires m' == m.(
      parent := Reparent(m.parent, t.right.left, t.off)[t.right.off := Parent(h)][t.off := t.right.off],
      left := RelinkLeft(m.left, h, t.right.off)[t.right.off := t.off],
      right := RelinkRight(m.right[t.off := Root(t.right.left)], h, t.right.off))
    requires root' == if h.Top? then t.right.off else root
    ensures Holds(m', root', h, RotatedLeft(t))
  {
    hide Holds;
    LeftFacts(m, root, h, t);
    LeftRotation(m, m', root, root', h, t);
  }

  lemma RightRotationWrites(m: Links, m': Links, root: int, root': int, h: Hole, t: Tree)
    requires Holds(m, root, h, t) && t.Node? && t.left.Node?
    requires IsNode(t.off) && IsNode(t.left.off) && (!h.Top? ==> IsNode(h.off))
    requires t.left.right.Node? ==> IsNode(t.left.right.off)
    requires m' == m.(
      parent := Reparent(m.parent, t.left.right, t.off)[t.left.off := Parent(h)][t.off := t.left.off],
      left := RelinkLeft(m.left[t.off := Root(t.left.right)], h, t.left.off),
      right := RelinkRight(m.right, h, t.left.off)[t.left.off := t.off])
    requires root' == if h.Top? then t.left.off else root
    ensures Holds(m', root', h, RotatedRight(t))
  {
    hide Holds;
    RightFacts(m, root, h, t);
    RightRotation(m, m', root, root', h, t);
  }

  // ----- deletion

  /** Where the rebalancing after a deletion stands: s is the in-order sequence to keep. */
  ghost predicate DeleteStep(m: Links, root: int, h: Hole, t: Tree, b: int, s: seq<int>) {
    Holds(m, root, h, t) && Deleting(h, t, b) && InOrder(Plug(h, t)) == s
  }

  /** A node's link and colour fields, and its children's. */
  ghost predicate ReadsAs(m: Links, o: int, t: Tree)
    requires Sized(m)
  {
    && o == Root(t)
    && (o >= 0 <==> t.Node?)
    && (t.Node? ==> IsNode(o) && m.color[o] == t.color && m.left[o] == Root(t.left) && m.right[o] == Root(t.right))
  }

  lemma {:induction false} RootOutside(m: Links, root: int, h: Hole, child: int)
    requires Sized(m) && ShapeHole(m, root, h, child) && !h.Top?
    ensures root in HoleOffsets(h)
  {
    if !h.up.Top? {
      RootOutside(m, root, h.up, h.off);
    }
  }

  lemma RootFacts(m: Links, root: int, h: Hole, t: Tree)
    requires Holds(m, root, h, t)
    ensures h.Top? ==> root == Root(t)
    ensures !h.Top? ==> root != Root(t) && root >= 0
  {
    if !h.Top? {
      RootOutside(m, root, h, Root(t));
      NoNilHole(h);
      HoleOffsetsNatural(h);
      assert t.Node? ==> t.off in Offsets(t);
    }
  }

  lemma {:induction false} HoleOffsetsNatural(h: Hole)
    requires DistinctHole(h)
    ensures forall o :: o in HoleOffsets(h) ==> o >= 0
  {
    match h
    case Top =>
    case InLeft(up, x, c, r) => OffsetsNatural(r); HoleOffsetsNatural(up);
    case InRight(up, l, x, c) => OffsetsNatural(l); HoleOffsetsNatural(up);
  }

  lemma {:induction false} OffsetsNatural(t: Tree)
    requires Distinct(t)
    ensures forall o :: o in Offsets(t) ==> o >= 0
  {
    if t.Node? {
      OffsetsNatural(t.left);
      OffsetsNatural(t.right);
    }
  }

  lemma DeleteFacts(m: Links, root: int, h: Hole, t: Tree, b: int, s: seq<int>)
    requires DeleteStep(m, root, h, t, b, s) && !h.Top?
    ensures Sized(m) && IsNode(h.off) && m.color[h.off] == h.color && m.parent[h.off] == Parent(h.up)
    ensures Sibling(h).Node? && ReadsAs(m, Sibling(h).off, Sibling(h))
    ensures ReadsAs(m, Root(Sibling(h).left), Sibling(h).left) && ReadsAs(m, Root(Sibling(h).right), Sibling(h).right)
    ensures m.left[h.off] == Root(t) <==> h.InLeft?
    ensures h.InLeft? ==> m.right[h.off] == Sibling(h).off
    ensures h.InRight? ==> m.left[h.off] == Sibling(h).off
  {
    DeletingSibling(h, t, b);
    NodeFacts(m, root, h, t);
    GoAcross(m, root, h, t);
    var a, q := Across(h, t), Sibling(h);
    NodeFacts(m, root, a, q);
    GoLeft(m, root, a, q);
    NodeFacts(m, root, InLeft(a, q.off, q.color, q.right), q.left);
    GoRight(m, root, a, q);
    NodeFacts(m, root, InRight(a, q.left, q.off, q.color), q.right);
  }

  lemma PaintBrotherRed(m: Links, root: int, h: Hole, t: Tree)
    requires Holds(m, root, h, t) && !h.Top? && Sibling(h).Node?
    ensures Sized(m) && IsNode(Sibling(h).off) && IsNode(h.off)
    ensures Holds(Recolor(Recolor(m, Sibling(h).off, Black), h.off, Red), root, h.up,
                  Fill(WithSibling(h, Sibling(h).(color := Black)), t, Red))
  {
    hide Holds;
    RecolorSibling(m, root, h, t, Black);
    RecolorParent(Recolor(m, Sibling(h).off, Black), root, WithSibling(h, Sibling(h).(color := Black)), t, Red);
  }

  lemma PaintNear(m: Links, root: int, h: Hole, t: Tree)
    requires Holds(m, root, h, t) && !h.Top? && Sibling(h).Node? && Near(h).Node?
    ensures Sized(m) && IsNode(Sibling(h).off) && IsNode(Near(h).off)
    ensures Holds(Recolor(Recolor(m, Near(h).off, Black), Sibling(h).off, Red), root, Across(h, t),
                  Join(h, Near(h).(color := Black), Sibling(h).off, Red, Far(h)))
  {
    hide Holds;
    var a, q, n := Across(h, t), Sibling(h), Near(h);
    GoAcross(m, root, h, t);
    var below := if h.InLeft? then InLeft(a, q.off, q.color, q.right) else InRight(a, q.left, q.off, q.color);
    GoUp(m, root, below, n);
    Recoloring(m, root, below, n, Black);
    RecolorParent(Recolor(m, n.off, Black), root, below, n.(color := Black), Red);
  }

  lemma PaintFar(m: Links, root: int, h: Hole, t: Tree)
    requires Holds(m, root, h, t) && !h.Top? && Sibling(h).Node? && Far(h).Node?
    ensures Sized(m) && IsNode(Sibling(h).off) && IsNode(h.off) && IsNode(Far(h).off)
    ensures Holds(Recolor(Recolor(Recolor(m, Sibling(h).off, h.color), h.off, Black), Far(h).off, Black), root, h.up,
                  Fill(WithSibling(h, Repainted(h)), t, Black))
  {
    hide Holds;
    RecolorSibling(m, root, h, t, h.color);
    var m1, h1 := Recolor(m, Sibling(h).off, h.color), WithSibling(h, Sibling(h).(color := h.color));
    RecolorParent(m1, root, h1, t, Black);
    var m2, h2 := Recolor(m1, h.off, Black), h1.(color := Black);
    GoAcross(m2, root, h2, t);
    var a, q, f := Across(h2, t), Sibling(h2), Far(h2);
    var below := if h.InLeft? then InRight(a, q.left, q.off, q.color) else InLeft(a, q.off, q.color, q.right);
    GoUp(m2, root, below, f);
    Recoloring(m2, root, below, f, Black);
    var m3 := Recolor(m2, f.off, Black);
    GoUp(m3, root, below, f.(color := Black));
    var h3 := WithSibling(h2, Repainted(h));
    GoAcross(m3, root, h3, t);
    GoUp(m3, root, h3, t);
  }

  // ----- taking a node out

  lemma {:induction false} HoldsUnder(m: Links, root: int, path: Hole, base: Hole, t: Tree)
    ensures Holds(m, root, Under(path, base), t) <==> Holds(m, root, base, Plug(path, t))
    decreases path
  {
    match path
    case Top =>
    case InLeft(up, x, c, r) =>
      GoUp(m, root, Under(path, base), t);
      HoldsUnder(m, root, up, base, Node(t, x, c, r));
    case InRight(up, l, x, c) =>
      GoUp(m, root, Under(path, base), t);
      HoldsUnder(m, root, up, base, Node(l, x, c, t));
  }

  /** What the replacement of one branch by another writes: the link above, and the parent
      link of the new branch. */
  function Replaced(m: Links, h: Hole, k: Tree): Links
    requires Sized(m) && (!h.Top? ==> IsNode(h.off)) && (k.Node? ==> IsNode(k.off))
  {
    m.(parent := Reparent(m.parent, k, Parent(h)),
       left := RelinkLeft(m.left, h, Root(k)),
       right := RelinkRight(m.right, h, Root(k)))
  }

  /** Cutting out a node that has at most one child. */
  lemma SpliceOut(m: Links, m': Links, root: int, h: Hole, t: Tree, k: Tree)
    requires Holds(m, root, h, t) && t.Node?
    requires (t.left.Leaf? && k == t.right) || (t.right.Leaf? && k == t.left)
    requires (!h.Top? ==> IsNode(h.off)) && (k.Node? ==> IsNode(k.off))
    requires m' == Replaced(m, h, k)
    ensures Holds(m', if h.Top? then Root(k) else root, h, k)
  {
    var changed := {Root(k), Parent(h)};
    assert Offsets(t) == Offsets(k) + {t.off} && t.off !in Offsets(k);
    assert Shape(m, k, t.off) && Distinct(k);
    NoNil(t);
    NoNilHole(h);
    assert k.Node? ==> k.off in Offsets(k);
    assert Parent(h) !in Offsets(t) by { NodeFacts(m, root, h, t); }
    ReparentShape(m, m', changed, k, t.off, Parent(h), if k.Node? then k.color else Black);
    RedirectHole(m, m', changed, root, if h.Top? then Root(k) else root, h, t.off, Root(k));
  }

  /** The node y takes the position of x between the branches l and r. */
  ghost predicate SubstitutedLinks(m: Links, m': Links, root: int, root': int, h: Hole, l: Tree, y: int,
                                   c: Color, r: Tree)
    requires Sized(m) && Sized(m')
  {
    && IsNode(y)
    && m'.parent[y] == Parent(h) && m'.left[y] == Root(l) && m'.right[y] == Root(r) && m'.color[y] == c
    && (l.Node? ==> IsNode(l.off) && m'.parent[l.off] == y && m'.color[l.off] == m.color[l.off]
                    && m'.left[l.off] == m.left[l.off] && m'.right[l.off] == m.right[l.off])
    && (r.Node? ==> IsNode(r.off) && m'.parent[r.off] == y && m'.color[r.off] == m.color[r.off]
                    && m'.left[r.off] == m.left[r.off] && m'.right[r.off] == m.right[r.off])
    && Redirected(m, m', root, root', h, y)
    && SameOutside(m, m', {y, Root(l), Root(r), Parent(h)})
  }

  lemma Substitution(m: Links, m': Links, root: int, root': int, h: Hole, l: Tree, x: int, y: int, c: Color,
                     r: Tree, pr: int)
    requires Sized(m) && Sized(m')
    requires Shape(m, l, x) && Shape(m, r, pr) && ShapeHole(m, root, h, x)
    requires Distinct(Node(l, y, c, r)) && DistinctHole(h) && Offsets(Node(l, y, c, r)) !! HoleOffsets(h)
    requires SubstitutedLinks(m, m', root, root', h, l, y, c, r)
    ensures Holds(m', root', h, Node(l, y, c, r))
  {
    var t := Node(l, y, c, r);
    var changed := {y, Root(l), Root(r), Parent(h)};
    assert Offsets(t) == Offsets(l) + {y} + Offsets(r);
    NoNil(t);
    NoNilHole(h);
    assert (l.Node? ==> l.off in Offsets(l)) && (r.Node? ==> r.off in Offsets(r))
      && (!h.Top? ==> h.off in HoleOffsets(h));
    ReparentShape(m, m', changed, l, x, y, if l.Node? then l.color else Black);
    ReparentShape(m, m', changed, r, pr, y, if r.Node? then r.color else Black);
    RedirectHole(m, m', changed, root, root', h, x, y);
  }

  lemma CutOutOrder(m: Links, root: int, h: Hole, t: Tree)
    requires Holds(m, root, h, t) && t.Node? && (t.left.Leaf? || t.right.Leaf?)
    ensures InOrder(Plug(h, if t.left.Leaf? then t.right else t.left)) == Without(InOrder(Plug(h, t)), t.off)
  {
    var k := if t.left.Leaf? then t.right else t.left;
    assert InOrder(t.left) + InOrder(t.right) == InOrder(k);
    hide *;
    WithoutNodeOf(m, root, h, t);
    PlugInOrder(h, k);
  }

  lemma WithoutNodeOf(m: Links, root: int, h: Hole, t: Tree)
    requires Holds(m, root, h, t) && t.Node?
    ensures Without(InOrder(Plug(h, t)), t.off) == Before(h) + (InOrder(t.left) + InOrder(t.right)) + After(h)
  {
    WithoutNode(h, t);
  }

  lemma SuccessorOrderOf(m: Links, root: int, h: Hole, t: Tree, path: Hole, low: Tree)
    requires Holds(m, root, h, t)
    requires t.Node? && t.right == Plug(path, low) && LeftPath(path) && low.Node? && low.left.Leaf?
    ensures InOrder(Plug(SuccessorHole(h, t.left, low.off, t.color, path), low.right)) ==
      Without(InOrder(Plug(h, t)), t.off)
  {
    SuccessorOrder(h, t, path, low);
  }

  lemma UnderParent(path: Hole, base: Hole)
    ensures Parent(Under(path, base)) == if path.Top? then Parent(base) else path.off
    ensures !base.Top? ==> !Under(path, base).Top?
  {}

  lemma PlugTop(path: Hole, t: Tree)
    ensures path.Top? ==> Plug(path, t) == t
  {}

  lemma SuccessorPath(t: Tree, path: Hole, low: Tree)
    requires t.Node? && Distinct(t) && t.right == Plug(path, low) && low.Node?
    ensures (!path.Top? ==> path.off != t.off) && low.off in Offsets(t.right)
  {
    hide Plug;
    PlugOffsets(path, low);
    assert low.off in Offsets(low);
    assert !path.Top? ==> path.off in HoleOffsets(path);
  }

  lemma ChildrenFacts(m: Links, root: int, h: Hole, t: Tree)
    requires Holds(m, root, h, t) && t.Node? && t.left.Node?
    ensures IsNode(t.left.off) && t.left.off != t.off && t.left.off != Parent(h)
    ensures forall y :: y in Offsets(t.right) ==> y != t.off && y != t.left.off && y != Parent(h)
    ensures t.right.Node? ==> IsNode(t.right.off)
    ensures Distinct(t)
  {
    NodeFacts(m, root, h, t);
    GoLeft(m, root, h, t);
    NodeFacts(m, root, InLeft(h, t.off, t.color, t.right), t.left);
    assert t.left.off in Offsets(t.left) && t.left.off in Offsets(t);
    NoNil(t);
  }

  /** Once the successor is cut out, its offset is free to stand for the node. */
  lemma SuccessorFree(m: Links, m1: Links, root: int, h: Hole, t: Tree, path: Hole, low: Tree)
    requires Holds(m, root, h, t) && t.Node? && t.right == Plug(path, low) && low.Node? && low.left.Leaf?
    requires Holds(m1, root, Under(path, InRight(h, t.left, t.off, t.color)), low.right)
    ensures Holds(m1, root, h, Node(t.left, t.off, t.color, Plug(path, low.right)))
    ensures low.off !in Offsets(Node(t.left, t.off, t.color, Plug(path, low.right)))
    ensures low.off !in HoleOffsets(h)
  {
    var hx := InRight(h, t.left, t.off, t.color);
    HoldsUnder(m1, root, path, hx, low.right);
    GoRight(m1, root, h, Node(t.left, t.off, t.color, Plug(path, low.right)));
    PlugOffsets(path, low);
    PlugOffsets(path, low.right);
    PlugDistinct(path, low);
    assert low.off in Offsets(low) && low.off in Offsets(t.right) && low.off in Offsets(t);
  }

  /** The writes that put y in the place of a node whose right branch stays. */
  lemma SubstituteWrites(m: Links, m': Links, root: int, root': int, h: Hole, t: Tree, y: int)
    requires Holds(m, root, h, t) && t.Node? && t.left.Node? && t.right.Node?
    requires IsNode(y) && y !in Offsets(t) && y !in HoleOffsets(h)
    requires (!h.Top? ==> IsNode(h.off)) && IsNode(t.left.off) && IsNode(t.right.off)
    requires m' == m.(
      parent := m.parent[t.right.off := y][y := Parent(h)][t.left.off := y],
      left := RelinkLeft(m.left, h, y)[y := t.left.off],
      right := RelinkRight(m.right[y := t.right.off], h, y),
      color := m.color[y := t.color])
    requires root' == if h.Top? then y else root
    ensures Holds(m', root', h, Node(t.left, y, t.color, t.right))
  {
    assert t.left.off in Offsets(t.left) && t.right.off in Offsets(t.right);
    assert !h.Top? ==> h.off in HoleOffsets(h);
    assert Offsets(t) == Offsets(t.left) + {t.off} + Offsets(t.right);
    NoNil(t);
    Substitution(m, m', root, root', h, t.left, t.off, y, t.color, t.right, t.off);
  }

  /** The writes that put the right child, having no left branch, in its parent's place. */
  lemma PromoteWrites(m: Links, m': Links, root: int, root': int, h: Hole, t: Tree)
    requires Holds(m, root, h, t) && t.Node? && t.left.Node? && t.right.Node? && t.right.left.Leaf?
    requires (!h.Top? ==> IsNode(h.off)) && IsNode(t.left.off) && IsNode(t.right.off)
    requires m' == m.(
      parent := m.parent[t.right.off := Parent(h)][t.left.off := t.right.off],
      left := RelinkLeft(m.left, h, t.right.off)[t.right.off := t.left.off],
      right := RelinkRight(m.right, h, t.right.off),
      color := m.color[t.right.off := t.color])
    requires root' == if h.Top? then t.right.off else root
    ensures Holds(m', root', h, Node(t.left, t.right.off, t.color, t.right.right))
  {
    var y, r := t.right.off, t.right.right;
    assert t.left.off in Offsets(t.left) && y in Offsets(t.right);
    assert !h.Top? ==> h.off in HoleOffsets(h);
    assert Offsets(t.right) == {y} + Offsets(r) && Distinct(t.right);
    assert Offsets(t) == Offsets(t.left) + {t.off} + Offsets(t.right);
    assert Shape(m, t.right, t.off);
    assert r.Node? ==> r.off in Offsets(r);
    NoNil(t);
    Substitution(m, m', root, root', h, t.left, t.off, y, t.color, r, y);
  }

  lemma RootOfChild(m: Links, root: int, h: Hole, t: Tree)
    requires Holds(m, root, h, t) && t.Node?
    ensures Sized(m) && IsNode(t.off)
    ensures (m.left[t.off] < 0 <==> t.left.Leaf?) && (m.right[t.off] < 0 <==> t.right.Leaf?)
  {
    assert t.left.Node? ==> t.left.off >= 0 by { assert Distinct(t.left); }
    assert t.right.Node? ==> t.right.off >= 0 by { assert Distinct(t.right); }
  }

  /** Linking a new leaf at an empty place. */
  lemma LinkWrites(m: Links, m': Links, root: int, root': int, h: Hole, y: int)
    requires Holds(m, root, h, Leaf) && IsNode(y) && y !in HoleOffsets(h) && (!h.Top? ==> IsNode(h.off))
    requires m' == m.(
      parent := m.parent[y := Parent(h)],
      left := RelinkLeft(m.left, h, y)[y := NIL],
      right := RelinkRight(m.right, h, y)[y := NIL],
      color := m.color[y := Red])
    requires root' == if h.Top? then y else root
    ensures Holds(m', root', h, Node(Leaf, y, Red, Leaf))
  {
    assert !h.Top? ==> h.off in HoleOffsets(h);
    Substitution(m, m', root, root', h, Leaf, NIL, y, Red, Leaf, NIL);
  }
}
