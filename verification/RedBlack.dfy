/** Coloured binary trees over ring-buffer offsets, trees with a hole, and the red-black
    properties of both. The encoder index keeps such a tree in its node records; here the
    tree is a value, so that what the pointer code does can be said about it. */
module RedBlack {

  datatype Color = Red | Black

  /** A missing node, as the link fields hold it. */
  const NIL: int := -1

  datatype Tree = Leaf | Node(left: Tree, off: int, color: Color, right: Tree)

  /** A tree with one subtree cut out: the frames from the hole up to the root. */
  datatype Hole =
    | Top
    | InLeft(up: Hole, off: int, color: Color, right: Tree)
    | InRight(up: Hole, left: Tree, off: int, color: Color)

  function Root(t: Tree): int {
    if t.Leaf? then NIL else t.off
  }

  function Parent(h: Hole): int {
    if h.Top? then NIL else h.off
  }

  function Plug(h: Hole, t: Tree): Tree
    decreases h
  {
    match h
    case Top => t
    case InLeft(up, x, c, r) => Plug(up, Node(t, x, c, r))
    case InRight(up, l, x, c) => Plug(up, Node(l, x, c, t))
  }

  function Depth(h: Hole): nat {
    if h.Top? then 0 else 1 + Depth(h.up)
  }

  // ----- offsets and in-order sequences

  function Offsets(t: Tree): set<int> {
    if t.Leaf? then {} else Offsets(t.left) + {t.off} + Offsets(t.right)
  }

  function HoleOffsets(h: Hole): set<int> {
    match h
    case Top => {}
    case InLeft(up, x, c, r) => HoleOffsets(up) + {x} + Offsets(r)
    case InRight(up, l, x, c) => HoleOffsets(up) + {x} + Offsets(l)
  }

  function InOrder(t: Tree): seq<int> {
    if t.Leaf? then [] else InOrder(t.left) + [t.off] + InOrder(t.right)
  }

  /** What comes before the hole in order. */
  function Before(h: Hole): seq<int> {
    match h
    case Top => []
    case InLeft(up, x, c, r) => Before(up)
    case InRight(up, l, x, c) => Before(up) + (InOrder(l) + [x])
  }

  /** What comes after the hole in order. */
  function After(h: Hole): seq<int> {
    match h
    case Top => []
    case InLeft(up, x, c, r) => ([x] + InOrder(r)) + After(up)
    case InRight(up, l, x, c) => After(up)
  }

  lemma {:induction false} PlugInOrder(h: Hole, t: Tree)
    ensures InOrder(Plug(h, t)) == Before(h) + InOrder(t) + After(h)
    decreases h
  {
    match h
    case Top =>
    case InLeft(up, x, c, r) =>
      PlugInOrder(up, Node(t, x, c, r));
    case InRight(up, l, x, c) =>
      PlugInOrder(up, Node(l, x, c, t));
  }

  lemma PlugLeafInOrder(h: Hole)
    ensures InOrder(Plug(h, Leaf)) == Before(h) + After(h)
  {
    PlugInOrder(h, Leaf);
  }

  lemma {:induction false} PlugOffsets(h: Hole, t: Tree)
    ensures Offsets(Plug(h, t)) == HoleOffsets(h) + Offsets(t)
    decreases h
  {
    match h
    case Top =>
    case InLeft(up, x, c, r) =>
      PlugOffsets(up, Node(t, x, c, r));
    case InRight(up, l, x, c) =>
      PlugOffsets(up, Node(l, x, c, t));
  }

  lemma {:induction false} OffsetsAreInOrder(t: Tree)
    ensures forall o :: o in Offsets(t) <==> o in InOrder(t)
  {
    if t.Node? {
      OffsetsAreInOrder(t.left);
      OffsetsAreInOrder(t.right);
    }
  }

  // ----- no offset occurs twice

  predicate Distinct(t: Tree) {
    t.Node? ==>
      && t.off >= 0
      && Distinct(t.left) && Distinct(t.right)
      && t.off !in Offsets(t.left) && t.off !in Offsets(t.right)
      && Offsets(t.left) !! Offsets(t.right)
  }

  predicate DistinctHole(h: Hole) {
    match h
    case Top => true
    case InLeft(up, x, c, r) =>
      x >= 0 && DistinctHole(up) && Distinct(r) && x !in Offsets(r)
      && x !in HoleOffsets(up) && Offsets(r) !! HoleOffsets(up)
    case InRight(up, l, x, c) =>
      x >= 0 && DistinctHole(up) && Distinct(l) && x !in Offsets(l)
      && x !in HoleOffsets(up) && Offsets(l) !! HoleOffsets(up)
  }

  lemma {:induction false} PlugDistinct(h: Hole, t: Tree)
    ensures Distinct(Plug(h, t)) <==> Distinct(t) && DistinctHole(h) && Offsets(t) !! HoleOffsets(h)
    decreases h
  {
    match h
    case Top =>
    case InLeft(up, x, c, r) =>
      PlugDistinct(up, Node(t, x, c, r));
    case InRight(up, l, x, c) =>
      PlugDistinct(up, Node(l, x, c, t));
  }

  // ----- rotations

  function RotatedLeft(t: Tree): Tree
    requires t.Node? && t.right.Node?
  {
    Node(Node(t.left, t.off, t.color, t.right.left), t.right.off, t.right.color, t.right.right)
  }

  function RotatedRight(t: Tree): Tree
    requires t.Node? && t.left.Node?
  {
    Node(t.left.left, t.left.off, t.left.color, Node(t.left.right, t.off, t.color, t.right))
  }

  lemma RotatedLeftKeeps(t: Tree)
    requires t.Node? && t.right.Node?
    ensures InOrder(RotatedLeft(t)) == InOrder(t)
    ensures Offsets(RotatedLeft(t)) == Offsets(t)
  {
    assert InOrder(t.right) == InOrder(t.right.left) + [t.right.off] + InOrder(t.right.right);
    assert InOrder(RotatedLeft(t).left) == InOrder(t.left) + [t.off] + InOrder(t.right.left);
  }

  lemma RotatedLeftDistinct(t: Tree)
    requires t.Node? && t.right.Node? && Distinct(t)
    ensures Distinct(RotatedLeft(t))
  {
    var l := RotatedLeft(t).left;
    assert Offsets(l) == Offsets(t.left) + {t.off} + Offsets(t.right.left);
    assert Offsets(t.right) == Offsets(t.right.left) + {t.right.off} + Offsets(t.right.right);
  }

  lemma RotatedRightKeeps(t: Tree)
    requires t.Node? && t.left.Node?
    ensures InOrder(RotatedRight(t)) == InOrder(t)
    ensures Offsets(RotatedRight(t)) == Offsets(t)
  {
    RotatedLeftKeeps(RotatedRight(t));
  }

  // ----- the red-black properties

  predicate IsRed(t: Tree) {
    t.Node? && t.color == Red
  }

  function Weight(c: Color): nat {
    if c == Black then 1 else 0
  }

  /** Every path from the root to a leaf passes h black nodes. */
  predicate Balanced(t: Tree, h: int) {
    if t.Leaf? then h == 0
    else Balanced(t.left, h - Weight(t.color)) && Balanced(t.right, h - Weight(t.color))
  }

  /** No red node has a red child. */
  predicate NoRedRed(t: Tree) {
    t.Node? ==>
      && NoRedRed(t.left) && NoRedRed(t.right)
      && (t.color == Red ==> !IsRed(t.left) && !IsRed(t.right))
  }

  ghost predicate RedBlackTree(t: Tree) {
    !IsRed(t) && NoRedRed(t) && exists h :: Balanced(t, h)
  }

  lemma EmptyRedBlack()
    ensures RedBlackTree(Plug(Top, Leaf))
  {
    assert Balanced(Leaf, 0);
  }

  lemma {:induction false} BalancedHeight(t: Tree, h: int)
    requires Balanced(t, h)
    ensures h >= 0
  {
    if t.Node? {
      BalancedHeight(t.left, h - Weight(t.color));
    }
  }

  lemma {:induction false} BalancedUnique(t: Tree, h: int, k: int)
    requires Balanced(t, h) && Balanced(t, k)
    ensures h == k
  {
    if t.Node? {
      BalancedUnique(t.left, h - Weight(t.color), k - Weight(t.color));
    }
  }

  /** A tree of black height h in the hole makes the whole balanced. */
  predicate BalancedHole(hole: Hole, h: int) {
    match hole
    case Top => true
    case InLeft(up, x, c, r) => Balanced(r, h) && BalancedHole(up, h + Weight(c))
    case InRight(up, l, x, c) => Balanced(l, h) && BalancedHole(up, h + Weight(c))
  }

  predicate RedParent(hole: Hole) {
    !hole.Top? && hole.color == Red
  }

  /** No red-red edge outside the hole, and the root, if outside, is black. */
  predicate NoRedRedHole(hole: Hole) {
    match hole
    case Top => true
    case InLeft(up, x, c, r) =>
      NoRedRed(r) && (c == Red ==> !IsRed(r) && !RedParent(up) && !up.Top?) && NoRedRedHole(up)
    case InRight(up, l, x, c) =>
      NoRedRed(l) && (c == Red ==> !IsRed(l) && !RedParent(up) && !up.Top?) && NoRedRedHole(up)
  }

  lemma {:induction false} PlugRedBlack(hole: Hole, t: Tree, h: int)
    requires Balanced(t, h) && BalancedHole(hole, h)
    requires NoRedRed(t) && NoRedRedHole(hole)
    requires IsRed(t) ==> !RedParent(hole) && !hole.Top?
    ensures RedBlackTree(Plug(hole, t))
    decreases hole
  {
    match hole
    case Top =>
    case InLeft(up, x, c, r) =>
      PlugRedBlack(up, Node(t, x, c, r), h + Weight(c));
    case InRight(up, l, x, c) =>
      PlugRedBlack(up, Node(l, x, c, t), h + Weight(c));
  }

  /** The converse: every subtree of a red-black tree leaves a red-black hole. */
  lemma {:induction false} UnplugRedBlack(hole: Hole, t: Tree) returns (h: int)
    requires RedBlackTree(Plug(hole, t))
    ensures Balanced(t, h) && BalancedHole(hole, h)
    ensures NoRedRed(t) && NoRedRedHole(hole)
    ensures IsRed(t) ==> !RedParent(hole) && !hole.Top?
    decreases hole
  {
    match hole
    case Top =>
      h :| Balanced(t, h);
    case InLeft(up, x, c, r) =>
      var k := UnplugRedBlack(up, Node(t, x, c, r));
      h := k - Weight(c);
    case InRight(up, l, x, c) =>
      var k := UnplugRedBlack(up, Node(l, x, c, t));
      h := k - Weight(c);
  }

  // ----- paths below a place

  /** The place reached from base by going on down along path. */
  function Under(path: Hole, base: Hole): Hole {
    match path
    case Top => base
    case InLeft(up, x, c, r) => InLeft(Under(up, base), x, c, r)
    case InRight(up, l, x, c) => InRight(Under(up, base), l, x, c)
  }

  lemma {:induction false} PlugUnder(path: Hole, base: Hole, t: Tree)
    ensures Plug(Under(path, base), t) == Plug(base, Plug(path, t))
    decreases path
  {
    match path
    case Top =>
    case InLeft(up, x, c, r) =>
      PlugUnder(up, base, Node(t, x, c, r));
    case InRight(up, l, x, c) =>
      PlugUnder(up, base, Node(l, x, c, t));
  }

  lemma {:induction false} UnderRightDepth(path: Hole, h: Hole, l: Tree, x: int, y: int, c: Color, b: int)
    ensures BalancedHole(Under(path, InRight(h, l, x, c)), b) ==> BalancedHole(Under(path, InRight(h, l, y, c)), b)
    ensures NoRedRedHole(Under(path, InRight(h, l, x, c))) ==> NoRedRedHole(Under(path, InRight(h, l, y, c)))
    ensures RedParent(Under(path, InRight(h, l, x, c))) <==> RedParent(Under(path, InRight(h, l, y, c)))
    ensures !Under(path, InRight(h, l, y, c)).Top?
  {
    match path
    case Top =>
    case InLeft(up, z, k, r) => UnderRightDepth(up, h, l, x, y, c, b + Weight(k));
    case InRight(up, l', z, k) => UnderRightDepth(up, h, l, x, y, c, b + Weight(k));
  }

  /** Putting another tree with the same in-order sequence in the hole keeps the whole's. */
  lemma PlugSameOrder(h: Hole, t: Tree, t': Tree)
    requires InOrder(t) == InOrder(t')
    ensures InOrder(Plug(h, t)) == InOrder(Plug(h, t'))
  {
    PlugInOrder(h, t);
    PlugInOrder(h, t');
  }

  // ----- insertion

  /** A red tree t stands in the hole; only the edge above it may be red-red. */
  ghost predicate Inserting(h: Hole, t: Tree, b: int) {
    && IsRed(t) && NoRedRed(t) && Balanced(t, b)
    && BalancedHole(h, b) && NoRedRedHole(h)
  }

  lemma InsertingDone(h: Hole, t: Tree, b: int)
    requires Inserting(h, t, b) && !RedParent(h) && !h.Top?
    ensures RedBlackTree(Plug(h, t))
  {
    PlugRedBlack(h, t, b);
  }

  lemma InsertingAtRoot(t: Tree, b: int)
    requires Inserting(Top, t, b)
    ensures RedBlackTree(t.(color := Black))
  {
    assert Balanced(t.(color := Black), b + 1);
  }

  /** The tree at the parent of the place h: t on its side, and the colour c. */
  function Fill(h: Hole, t: Tree, c: Color): Tree
    requires !h.Top?
  {
    if h.InLeft? then Node(t, h.off, c, h.right) else Node(h.left, h.off, c, t)
  }

  function Sibling(h: Hole): Tree
    requires !h.Top?
  {
    if h.InLeft? then h.right else h.left
  }

  function WithSibling(h: Hole, s: Tree): Hole
    requires !h.Top?
  {
    if h.InLeft? then h.(right := s) else h.(left := s)
  }

  lemma FillSameOrder(h: Hole, t: Tree, t': Tree, s: Tree, c: Color)
    requires !h.Top? && InOrder(t) == InOrder(t') && InOrder(s) == InOrder(Sibling(h))
    ensures InOrder(Fill(h, t, h.color)) == InOrder(Fill(WithSibling(h, s), t', c))
  {}

  /** Red uncle: recolour and go up two levels. */
  lemma RecolorUp(h: Hole, t: Tree, b: int)
    requires Inserting(h, t, b) && RedParent(h) && IsRed(Sibling(h.up))
    ensures var u := Sibling(h.up).(color := Black);
      var g := Fill(WithSibling(h.up, u), Fill(h, t, Black), Red);
      Inserting(h.up.up, g, b + 1) && InOrder(Plug(h.up.up, g)) == InOrder(Plug(h, t))
  {
    assert BalancedHole(h.up, b) && NoRedRedHole(h.up);
    var u := Sibling(h.up).(color := Black);
    var g := Fill(WithSibling(h.up, u), Fill(h, t, Black), Red);
    FillSameOrder(h, t, t, Sibling(h), Black);
    FillSameOrder(h.up, Fill(h, t, h.color), Fill(h, t, Black), u, Red);
    PlugSameOrder(h.up.up, Fill(h.up, Fill(h, t, h.color), h.up.color), g);
    assert Balanced(Sibling(h.up), b) && Balanced(u, b + 1);
    assert Balanced(Fill(h, t, Black), b + 1);
  }

  /** Turning t about its root, away from the side the place h is on. */
  function Turned(h: Hole, t: Tree): Tree
    requires !h.Top? && t.Node?
    requires if h.InLeft? then t.left.Node? else t.right.Node?
  {
    if h.InLeft? then RotatedRight(t) else RotatedLeft(t)
  }

  /** Black uncle, t on the outer side: one turn of the grandparent ends it. */
  lemma TurnOuter(h: Hole, t: Tree, b: int)
    requires Inserting(h, t, b) && RedParent(h) && !IsRed(Sibling(h.up)) && h.InLeft? == h.up.InLeft?
    ensures var g := Fill(h.up, Fill(h, t, Black), Red);
      RedBlackTree(Plug(h.up.up, Turned(h.up, g))) && InOrder(Plug(h.up.up, Turned(h.up, g))) == InOrder(Plug(h, t))
  {
    assert BalancedHole(h.up, b) && NoRedRedHole(h.up);
    var g := Fill(h.up, Fill(h, t, Black), Red);
    var g0 := Fill(h.up, Fill(h, t, h.color), h.up.color);
    RotatedLeftOrRight(g);
    assert InOrder(g) == InOrder(g0) by {
      FillSameOrder(h, t, t, Sibling(h), Black);
      FillSameOrder(h.up, Fill(h, t, h.color), Fill(h, t, Black), Sibling(h.up), Red);
    }
    PlugSameOrder(h.up.up, g0, Turned(h.up, g));
    PlugRedBlack(h.up.up, Turned(h.up, g), b + 1);
  }

  lemma RotatedLeftOrRight(t: Tree)
    ensures t.Node? && t.right.Node? ==> InOrder(RotatedLeft(t)) == InOrder(t)
    ensures t.Node? && t.left.Node? ==> InOrder(RotatedRight(t)) == InOrder(t)
  {
    if t.Node? && t.right.Node? { RotatedLeftKeeps(t); }
    if t.Node? && t.left.Node? { RotatedRightKeeps(t); }
  }

  /** Black uncle, t on the inner side: a turn of the parent brings it to the outer side. */
  lemma TurnInner(h: Hole, t: Tree, b: int)
    requires Inserting(h, t, b) && RedParent(h) && !IsRed(Sibling(h.up)) && h.InLeft? != h.up.InLeft?
    ensures var p := Turned(h, Fill(h, t, Red));
      var h' := if h.InLeft? then InRight(h.up, p.left, p.off, Red) else InLeft(h.up, p.off, Red, p.right);
      var t' := if h.InLeft? then p.right else p.left;
      Inserting(h', t', b) && h'.InLeft? == h'.up.InLeft? && InOrder(Plug(h', t')) == InOrder(Plug(h, t))
  {
    assert BalancedHole(h.up, b) && NoRedRedHole(h.up);
    var p := Turned(h, Fill(h, t, Red));
    RotatedLeftOrRight(Fill(h, t, Red));
    PlugSameOrder(h.up, Fill(h, t, Red), p);
  }

  // ----- deletion

  /** No red-red edge, except perhaps at the root. */
  predicate NoRedRedBelow(t: Tree) {
    t.Node? ==> NoRedRed(t.left) && NoRedRed(t.right)
  }

  /** The tree in the hole is one black node short, and its root may be red above a red
      child or below a red parent; nothing else is wrong. */
  ghost predicate Deleting(h: Hole, t: Tree, b: int) {
    && NoRedRedBelow(t) && Balanced(t, b - 1)
    && BalancedHole(h, b) && NoRedRedHole(h)
  }

  /** The child of the sibling next to the place, and the one away from it. */
  function Near(h: Hole): Tree
    requires !h.Top? && Sibling(h).Node?
  {
    if h.InLeft? then Sibling(h).left else Sibling(h).right
  }

  function Far(h: Hole): Tree
    requires !h.Top? && Sibling(h).Node?
  {
    if h.InLeft? then Sibling(h).right else Sibling(h).left
  }

  /** A sibling's tree put together from its near and far side. */
  function Join(h: Hole, near: Tree, x: int, c: Color, far: Tree): Tree
    requires !h.Top?
  {
    if h.InLeft? then Node(near, x, c, far) else Node(far, x, c, near)
  }

  /** Turning a tree about its root towards the side of the place h, or away from it. */
  function TurnedIn(h: Hole, t: Tree): Tree
    requires !h.Top? && t.Node?
    requires if h.InLeft? then t.right.Node? else t.left.Node?
  {
    if h.InLeft? then RotatedLeft(t) else RotatedRight(t)
  }

  lemma DeletingSibling(h: Hole, t: Tree, b: int)
    requires Deleting(h, t, b) && !h.Top?
    ensures Sibling(h).Node? && b >= 1
    ensures IsRed(Sibling(h)) ==> Near(h).Node? && Far(h).Node? && !IsRed(Near(h)) && !IsRed(Far(h)) && h.color == Black
  {
    BalancedHeight(t, b - 1);
    if IsRed(Sibling(h)) {
      assert Balanced(Near(h), b) && Balanced(Far(h), b);
    }
  }

  lemma SiblingOrder(h: Hole, t: Tree, s: Tree)
    requires !h.Top? && InOrder(s) == InOrder(Sibling(h))
    ensures InOrder(Plug(WithSibling(h, s), t)) == InOrder(Plug(h, t))
  {
    FillSameOrder(h, t, t, s, h.color);
    PlugSameOrder(h.up, Fill(h, t, h.color), Fill(WithSibling(h, s), t, h.color));
  }

  /** The place after a red brother has been turned up: below it, with a black brother. */
  function Lowered(h: Hole): Hole
    requires !h.Top? && Sibling(h).Node?
  {
    var q := Sibling(h).off;
    if h.InLeft? then InLeft(InLeft(h.up, q, Black, Far(h)), h.off, Red, Near(h))
    else InRight(InRight(h.up, Far(h), q, Black), Near(h), h.off, Red)
  }

  lemma BrotherRed(h: Hole, t: Tree, b: int)
    requires Deleting(h, t, b) && !h.Top? && IsRed(Sibling(h))
    ensures Deleting(Lowered(h), t, b) && Sibling(Lowered(h)).Node? && !IsRed(Sibling(Lowered(h)))
    ensures InOrder(Plug(Lowered(h), t)) == InOrder(Plug(h, t))
    ensures var p := Fill(WithSibling(h, Sibling(h).(color := Black)), t, Red);
      TurnedIn(h, p) == Fill(Lowered(h).up, Fill(Lowered(h), t, Red), Black)
  {
    DeletingSibling(h, t, b);
    var p0 := Fill(h, t, h.color);
    var l := Lowered(h);
    assert BalancedHole(h.up, b + 1) && NoRedRedHole(h.up);
    assert Balanced(Near(h), b) && Balanced(Far(h), b);
    assert InOrder(Fill(l.up, Fill(l, t, Red), Black)) == InOrder(p0);
    PlugSameOrder(h.up, p0, Fill(l.up, Fill(l, t, Red), Black));
  }

  /** Black brother, no red nephew: the brother turns red and the shortage moves up. */
  lemma NephewsBlack(h: Hole, t: Tree, b: int)
    requires Deleting(h, t, b) && !h.Top? && Sibling(h).Node? && !IsRed(Sibling(h)) && !IsRed(Near(h)) && !IsRed(Far(h))
    requires !IsRed(t)
    ensures var t' := Fill(WithSibling(h, Sibling(h).(color := Red)), t, h.color);
      Deleting(h.up, t', b + Weight(h.color)) && InOrder(Plug(h.up, t')) == InOrder(Plug(h, t))
  {
    var t' := Fill(WithSibling(h, Sibling(h).(color := Red)), t, h.color);
    FillSameOrder(h, t, t, Sibling(h).(color := Red), h.color);
    PlugSameOrder(h.up, Fill(h, t, h.color), t');
    assert Balanced(Sibling(h).(color := Red), b - 1) && NoRedRed(Sibling(h).(color := Red)) && NoRedRed(t);
  }

  /** Black brother, red near nephew, far one not red: a turn of the brother brings the red
      one to the far side. */
  function Straightened(h: Hole): Hole
    requires !h.Top? && Sibling(h).Node? && Near(h).Node?
  {
    var n := Near(h);
    var inner, outer := if h.InLeft? then n.left else n.right, if h.InLeft? then n.right else n.left;
    WithSibling(h, Join(h, inner, n.off, Black, Join(h, outer, Sibling(h).off, Red, Far(h))))
  }

  lemma NearRedOrder(h: Hole, t: Tree)
    requires !h.Top? && Sibling(h).Node? && Near(h).Node?
    ensures InOrder(Plug(Straightened(h), t)) == InOrder(Plug(h, t))
  {
    assert InOrder(Sibling(Straightened(h))) == InOrder(Sibling(h));
    SiblingOrder(h, t, Sibling(Straightened(h)));
  }

  lemma NearRed(h: Hole, t: Tree, b: int)
    requires Deleting(h, t, b) && !h.Top? && Sibling(h).Node? && !IsRed(Sibling(h)) && IsRed(Near(h)) && !IsRed(Far(h))
    ensures Deleting(Straightened(h), t, b) && !IsRed(Sibling(Straightened(h))) && IsRed(Far(Straightened(h)))
    ensures InOrder(Plug(Straightened(h), t)) == InOrder(Plug(h, t))
    ensures var q := Join(h, Near(h).(color := Black), Sibling(h).off, Red, Far(h));
      Sibling(Straightened(h)) == Turned(h, q)
  {
    hide InOrder;
    hide Plug;
    NearRedOrder(h, t);
    var n, s := Near(h), Sibling(Straightened(h));
    assert Balanced(n, b - 1) && NoRedRed(n);
    assert NoRedRed(Sibling(h)) && NoRedRed(Far(h)) && !IsRed(n.left) && !IsRed(n.right);
    assert Balanced(s, b) && NoRedRed(Far(Straightened(h))) && NoRedRed(s);
  }

  /** Black brother, red far nephew: after recolouring, one turn of the parent ends it. */
  function Repainted(h: Hole): Tree
    requires !h.Top? && Sibling(h).Node? && Far(h).Node?
  {
    Join(h, Near(h), Sibling(h).off, h.color, Far(h).(color := Black))
  }

  lemma FarRed(h: Hole, t: Tree, b: int)
    requires Deleting(h, t, b) && !h.Top? && Sibling(h).Node? && !IsRed(Sibling(h)) && IsRed(Far(h)) && !IsRed(t)
    ensures var p := Fill(WithSibling(h, Repainted(h)), t, Black);
      RedBlackTree(Plug(h.up, TurnedIn(h, p))) && InOrder(Plug(h.up, TurnedIn(h, p))) == InOrder(Plug(h, t))
  {
    var p := Fill(WithSibling(h, Repainted(h)), t, Black);
    var p0 := Fill(h, t, h.color);
    assert InOrder(Repainted(h)) == InOrder(Sibling(h));
    FillSameOrder(h, t, t, Repainted(h), Black);
    RotatedLeftOrRight(p);
    PlugSameOrder(h.up, p0, TurnedIn(h, p));
    assert Balanced(Far(h), b - 1) && Balanced(Near(h), b - 1);
    assert Balanced(Far(h).(color := Black), b);
    assert NoRedRed(Near(h)) && NoRedRed(Far(h)) && NoRedRed(t);
    assert NoRedRed(Far(h).(color := Black));
    PlugRedBlack(h.up, TurnedIn(h, p), b + Weight(h.color));
  }

  /** A red tree in the hole, or the root, absorbs the shortage by turning black. */
  lemma DeletingDone(h: Hole, t: Tree, b: int)
    requires Deleting(h, t, b) && t.Node? && (IsRed(t) || h.Top?)
    ensures RedBlackTree(Plug(h, t.(color := Black)))
    ensures InOrder(Plug(h, t.(color := Black))) == InOrder(Plug(h, t))
  {
    PlugSameOrder(h, t, t.(color := Black));
    if IsRed(t) {
      assert Balanced(t.(color := Black), b);
      PlugRedBlack(h, t.(color := Black), b);
    } else {
      assert t.(color := Black) == t;
    }
  }

  // ----- taking a node out

  /** The sequence without the element x. */
  function Without(s: seq<int>, x: int): seq<int> {
    if s == [] then [] else (if s[0] == x then [] else [s[0]]) + Without(s[1..], x)
  }

  lemma {:induction false} WithoutAbsent(s: seq<int>, x: int)
    requires x !in s
    ensures Without(s, x) == s
  {
    if s != [] {
      WithoutAbsent(s[1..], x);
    }
  }

  lemma {:induction false} WithoutMembers(s: seq<int>, x: int)
    ensures forall o :: o in Without(s, x) <==> o in s && o != x
  {
    if s != [] {
      WithoutMembers(s[1..], x);
    }
  }

  lemma {:induction false} HoleOffsetsAreInOrder(h: Hole)
    ensures forall o :: o in HoleOffsets(h) <==> o in Before(h) || o in After(h)
  {
    match h
    case Top =>
    case InLeft(up, x, c, r) => HoleOffsetsAreInOrder(up); OffsetsAreInOrder(r);
    case InRight(up, l, x, c) => HoleOffsetsAreInOrder(up); OffsetsAreInOrder(l);
  }

  lemma {:induction false} WithoutMiddle(a: seq<int>, x: int, b: seq<int>)
    requires x !in a && x !in b
    ensures Without(a + [x] + b, x) == a + b
  {
    var s := a + [x] + b;
    if a == [] {
      assert s[1..] == b;
      WithoutAbsent(b, x);
    } else {
      assert s[1..] == a[1..] + [x] + b;
      WithoutMiddle(a[1..], x, b);
      assert [a[0]] + (a[1..] + b) == a + b;
    }
  }

  lemma NodeOnce(h: Hole, t: Tree)
    requires t.Node? && Distinct(t) && DistinctHole(h) && Offsets(t) !! HoleOffsets(h)
    ensures t.off !in Before(h) && t.off !in After(h) && t.off !in InOrder(t.left) && t.off !in InOrder(t.right)
  {
    HoleOffsetsAreInOrder(h);
    OffsetsAreInOrder(t.left);
    OffsetsAreInOrder(t.right);
    assert t.off in Offsets(t);
  }

  /** What is left of the in-order sequence once the node at a place is gone. */
  lemma WithoutNode(h: Hole, t: Tree)
    requires t.Node? && Distinct(t) && DistinctHole(h) && Offsets(t) !! HoleOffsets(h)
    ensures Without(InOrder(Plug(h, t)), t.off) == Before(h) + (InOrder(t.left) + InOrder(t.right)) + After(h)
  {
    PlugInOrder(h, t);
    NodeOnce(h, t);
    var a, l, r, b := Before(h), InOrder(t.left), InOrder(t.right), After(h);
    assert InOrder(t) == l + [t.off] + r;
    WithoutMiddle(a + l, t.off, r + b);
    MiddleAssociates(a, l, t.off, r, b);
  }

  lemma MiddleAssociates(a: seq<int>, l: seq<int>, x: int, r: seq<int>, b: seq<int>)
    ensures a + (l + [x] + r) + b == (a + l) + [x] + (r + b)
    ensures (a + l) + (r + b) == a + (l + r) + b
  {}

  /** Every node of a tree has a place in it. */
  lemma {:induction false} Locate(h: Hole, t: Tree, x: int) returns (h': Hole, t': Tree)
    requires x in Offsets(t)
    ensures Plug(h', t') == Plug(h, t) && t'.Node? && t'.off == x
    decreases t
  {
    if t.off == x {
      h', t' := h, t;
    } else if x in Offsets(t.left) {
      h', t' := Locate(InLeft(h, t.off, t.color, t.right), t.left, x);
    } else {
      h', t' := Locate(InRight(h, t.left, t.off, t.color), t.right, x);
    }
  }

  /** A node with at most one child is cut out: what the tree is short of then. */
  lemma CutOut(h: Hole, t: Tree) returns (b: int)
    requires RedBlackTree(Plug(h, t)) && t.Node? && (t.left.Leaf? || t.right.Leaf?)
    ensures var k := if t.left.Leaf? then t.right else t.left;
      && (t.color == Black ==> Deleting(h, k, b))
      && (t.color == Red ==> RedBlackTree(Plug(h, k)))
      && (t.color == Red ==> !h.Top?)
  {
    b := UnplugRedBlack(h, t);
    var k := if t.left.Leaf? then t.right else t.left;
    if t.color == Red {
      PlugRedBlack(h, k, b);
    }
  }

  /** A path that only goes left. */
  predicate LeftPath(path: Hole) {
    path.Top? || (path.InLeft? && LeftPath(path.up))
  }

  lemma {:induction false} LeftPathOrder(path: Hole, t: Tree)
    requires LeftPath(path)
    ensures Before(path) == [] && InOrder(Plug(path, t)) == InOrder(t) + After(path)
  {
    PlugInOrder(path, t);
    if !path.Top? {
      LeftPathOrder(path.up, t);
    }
  }

  /** The place left behind when the successor y takes the node's position. */
  function SuccessorHole(h: Hole, l: Tree, y: int, c: Color, path: Hole): Hole {
    Under(path, InRight(h, l, y, c))
  }

  lemma SuccessorInOrder(t: Tree, path: Hole, low: Tree)
    requires t.Node? && t.right == Plug(path, low) && LeftPath(path) && low.Node? && low.left.Leaf?
    ensures InOrder(Node(t.left, low.off, t.color, Plug(path, low.right))) == InOrder(t.left) + InOrder(t.right)
  {
    hide *;
    InOrderNode(Leaf, low.off, low.color, low.right);
    assert InOrder(low) == [low.off] + InOrder(low.right);
    LeftPathOrder(path, low);
    LeftPathOrder(path, low.right);
    InOrderNode(t.left, low.off, t.color, Plug(path, low.right));
    SuccessorConcat(InOrder(t.left), low.off, InOrder(low.right), After(path));
  }

  lemma InOrderNode(l: Tree, x: int, c: Color, r: Tree)
    ensures InOrder(Node(l, x, c, r)) == InOrder(l) + [x] + InOrder(r)
    ensures InOrder(Leaf) == []
  {}

  lemma SuccessorConcat(l: seq<int>, y: int, r: seq<int>, a: seq<int>)
    ensures l + [y] + (r + a) == l + (([y] + r) + a)
  {}

  lemma SuccessorPlug(h: Hole, l: Tree, y: int, c: Color, path: Hole, r: Tree)
    ensures Plug(SuccessorHole(h, l, y, c, path), r) == Plug(h, Node(l, y, c, Plug(path, r)))
  {
    PlugUnder(path, InRight(h, l, y, c), r);
  }

  lemma SuccessorOrder(h: Hole, t: Tree, path: Hole, low: Tree)
    requires t.Node? && t.right == Plug(path, low) && LeftPath(path) && low.Node? && low.left.Leaf?
    requires Distinct(t) && DistinctHole(h) && Offsets(t) !! HoleOffsets(h)
    ensures InOrder(Plug(SuccessorHole(h, t.left, low.off, t.color, path), low.right)) ==
      Without(InOrder(Plug(h, t)), t.off)
  {
    hide *;
    WithoutNode(h, t);
    SuccessorPlug(h, t.left, low.off, t.color, path, low.right);
    SuccessorInOrder(t, path, low);
    PlugInOrder(h, Node(t.left, low.off, t.color, Plug(path, low.right)));
  }

  lemma SuccessorCut(h: Hole, t: Tree, path: Hole, low: Tree) returns (b: int)
    requires t.Node? && t.right == Plug(path, low) && low.Node? && low.left.Leaf?
    requires RedBlackTree(Plug(h, t))
    ensures var h' := SuccessorHole(h, t.left, low.off, t.color, path);
      && !h'.Top?
      && (low.color == Black ==> Deleting(h', low.right, b))
      && (low.color == Red ==> RedBlackTree(Plug(h', low.right)))
  {
    var base := InRight(h, t.left, t.off, t.color);
    PlugUnder(path, base, low);
    assert Plug(base, t.right) == Plug(h, t);
    b := UnplugRedBlack(Under(path, base), low);
    UnderRightDepth(path, h, t.left, t.off, low.off, t.color, b);
    if low.color == Red {
      PlugRedBlack(SuccessorHole(h, t.left, low.off, t.color, path), low.right, b);
    }
  }

  lemma {:induction false} PlugRoot(path: Hole, a: Tree, b: Tree)
    requires !path.Top?
    ensures Plug(path, a).Node? && Plug(path, b).Node? && Plug(path, a).off == Plug(path, b).off
    decreases path
  {
    if !path.up.Top? {
      PlugRoot(path.up, Fill(path, a, path.color), Fill(path, b, path.color));
    }
  }

  lemma EraseOffsets(t: Tree, t': Tree, x: int)
    requires InOrder(t') == Without(InOrder(t), x)
    ensures Offsets(t') == Offsets(t) - {x}
  {
    hide *;
    var a, b := Offsets(t'), Offsets(t) - {x};
    forall o ensures o in a <==> o in b {
      WithoutMembers(InOrder(t), x);
      OffsetsAreInOrder(t);
      OffsetsAreInOrder(t');
    }
    assert a == b;
  }

  lemma InsertingLeaf(h: Hole, y: int) returns (b: int)
    requires RedBlackTree(Plug(h, Leaf))
    ensures Inserting(h, Node(Leaf, y, Red, Leaf), b)
    ensures InOrder(Plug(h, Node(Leaf, y, Red, Leaf))) == Before(h) + [y] + After(h)
  {
    b := UnplugRedBlack(h, Leaf);
    PlugInOrder(h, Node(Leaf, y, Red, Leaf));
  }

  lemma AddOffsets(t: Tree, t': Tree, h: Hole, y: int)
    requires t == Plug(h, Leaf) && InOrder(t') == Before(h) + [y] + After(h)
    ensures Offsets(t') == Offsets(t) + {y}
  {
    hide *;
    var a, b := Offsets(t'), Offsets(t) + {y};
    forall o ensures o in a <==> o in b {
      OffsetsAreInOrder(t');
      OffsetsAreInOrder(t);
      PlugInOrder(h, Leaf);
      InOrderNode(Leaf, y, Red, Leaf);
    }
    assert a == b;
  }
}
