/** The search tree of the encoder index (fw/hpack.c): node records in the ring buffer, linked
    by offsets, searched, rotated and rebalanced in place. */
module NodeTree {
  import opened Headers
  import opened RedBlack
  import opened NodeLinks
  import opened EncoderSpec

  /** Where a missing header would go: below parent, on its left or right. */
  datatype Place = Place(parent: int, left: bool)

  /** The tree's nodes in order of their headers. */
  ghost predicate Sorted(hdrs: seq<Header>, s: seq<int>) {
    && (forall i :: 0 <= i < |s| ==> 0 <= s[i] < |hdrs|)
    && (forall i, j :: 0 <= i < j < |s| ==> Less(hdrs[s[i]], hdrs[s[j]]))
  }

  ghost predicate Below(hdrs: seq<Header>, s: seq<int>, x: Header) {
    forall o :: o in s ==> 0 <= o < |hdrs| && Less(hdrs[o], x)
  }

  ghost predicate Above(hdrs: seq<Header>, s: seq<int>, x: Header) {
    forall o :: o in s ==> 0 <= o < |hdrs| && Less(x, hdrs[o])
  }

  ghost predicate OtherNames(hdrs: seq<Header>, s: seq<int>, x: Header) {
    forall o :: o in s && 0 <= o < |hdrs| ==> hdrs[o].name != x.name
  }

  /** The place p is the empty place h of the tree t, and x belongs there. */
  ghost predicate IsPlace(hdrs: seq<Header>, t: Tree, p: Place, h: Hole, x: Header) {
    && Plug(h, Leaf) == t && p.parent == Parent(h) && (p.left <==> h.InLeft?)
    && Below(hdrs, Before(h), x) && Above(hdrs, After(h), x)
  }

  lemma SortedSplit(hdrs: seq<Header>, a: seq<int>, x: int, b: seq<int>)
    requires Sorted(hdrs, a + [x] + b)
    ensures 0 <= x < |hdrs| && Below(hdrs, a, hdrs[x]) && Above(hdrs, b, hdrs[x])
  {
    var s := a + [x] + b;
    assert s[|a|] == x;
    forall o | o in a ensures 0 <= o < |hdrs| && Less(hdrs[o], hdrs[x]) {
      var i :| 0 <= i < |a| && a[i] == o;
      assert s[i] == o;
    }
    forall o | o in b ensures 0 <= o < |hdrs| && Less(hdrs[x], hdrs[o]) {
      var i :| 0 <= i < |b| && b[i] == o;
      assert s[|a| + 1 + i] == o;
    }
  }

  lemma SortedMerge(hdrs: seq<Header>, a: seq<int>, x: int, b: seq<int>)
    requires Sorted(hdrs, a + b) && 0 <= x < |hdrs| && Below(hdrs, a, hdrs[x]) && Above(hdrs, b, hdrs[x])
    ensures Sorted(hdrs, a + [x] + b)
  {
    var s, t := a + b, a + [x] + b;
    forall i | 0 <= i < |t| ensures 0 <= t[i] < |hdrs| {
      assert t[i] == if i < |a| then s[i] else if i == |a| then x else s[i - 1];
    }
    forall i, j | 0 <= i < j < |t| ensures Less(hdrs[t[i]], hdrs[t[j]]) {
      assert i < |a| ==> t[i] == s[i] && t[i] in a;
      assert j < |a| ==> t[j] == s[j];
      assert i > |a| ==> t[i] == s[i - 1];
      assert j > |a| ==> t[j] == s[j - 1] && t[j] == b[j - |a| - 1] && t[j] in b;
    }
  }

  /** The header x is smaller than a node's: it is smaller than all that follows the node. */
  lemma SearchLeft(hdrs: seq<Header>, y: int, r: seq<int>, after: seq<int>, x: Header)
    requires 0 <= y < |hdrs| && Above(hdrs, r, hdrs[y]) && Above(hdrs, after, x) && Less(x, hdrs[y])
    ensures Above(hdrs, [y] + r + after, x)
    ensures OtherNames(hdrs, after, x) && hdrs[y].name != x.name ==> OtherNames(hdrs, [y] + r + after, x)
  {
    forall o | o in r ensures Less(x, hdrs[o]) && (hdrs[y].name != x.name ==> hdrs[o].name != x.name) {
      LessTransitive(x, hdrs[y], hdrs[o]);
      if hdrs[y].name != x.name {
        NamesAreConvexDual(x, hdrs[y], hdrs[o]);
      }
    }
  }

  lemma SearchRight(hdrs: seq<Header>, before: seq<int>, l: seq<int>, y: int, x: Header)
    requires 0 <= y < |hdrs| && Below(hdrs, l, hdrs[y]) && Below(hdrs, before, x) && Less(hdrs[y], x)
    ensures Below(hdrs, before + (l + [y]), x)
    ensures OtherNames(hdrs, before, x) && hdrs[y].name != x.name ==> OtherNames(hdrs, before + (l + [y]), x)
  {
    forall o | o in l ensures Less(hdrs[o], x) && (hdrs[y].name != x.name ==> hdrs[o].name != x.name) {
      LessTransitive(hdrs[o], hdrs[y], x);
      if hdrs[y].name != x.name {
        NamesAreConvex(hdrs[o], hdrs[y], x);
      }
    }
  }

  lemma SortedAround(hdrs: seq<Header>, h: Hole, t: Tree)
    requires Sorted(hdrs, InOrder(Plug(h, t))) && t.Node?
    ensures 0 <= t.off < |hdrs| && Below(hdrs, InOrder(t.left), hdrs[t.off])
    ensures Above(hdrs, InOrder(t.right), hdrs[t.off])
  {
    hide Plug;
    PlugInOrder(h, t);
    MiddleAssociates(Before(h), InOrder(t.left), t.off, InOrder(t.right), After(h));
    var a, c := Before(h) + InOrder(t.left), InOrder(t.right) + After(h);
    SortedSplit(hdrs, a, t.off, c);
    assert forall o :: o in InOrder(t.left) ==> o in a;
    assert forall o :: o in InOrder(t.right) ==> o in c;
  }

  /** At an empty place with everything before smaller and everything after greater, the
      header is not in the tree. */
  lemma NotInTree(hdrs: seq<Header>, h: Hole, x: Header)
    requires Below(hdrs, Before(h), x) && Above(hdrs, After(h), x)
    ensures forall o :: o in Offsets(Plug(h, Leaf)) && 0 <= o < |hdrs| ==> hdrs[o] != x
    ensures OtherNames(hdrs, Before(h), x) && OtherNames(hdrs, After(h), x) ==>
      forall o :: o in Offsets(Plug(h, Leaf)) && 0 <= o < |hdrs| ==> hdrs[o].name != x.name
  {
    OffsetsAreInOrder(Plug(h, Leaf));
    PlugInOrder(h, Leaf);
    forall o | o in Offsets(Plug(h, Leaf)) && 0 <= o < |hdrs| ensures hdrs[o] != x {
      assert o in Before(h) || o in After(h);
      CompareAntisymmetric(hdrs[o], x);
    }
  }

  class Store {
    var links: Links
    var root: int
    var hdrs: seq<Header>
    var rindex: seq<nat>
    ghost var tree: Tree

    /** The records hold the tree, and it is a red-black tree. */
    ghost predicate Valid()
      reads this
    {
      && Holds(links, root, Top, tree) && RedBlackTree(tree)
      && |hdrs| == |rindex| == RBUF_SIZE
    }

    /** An empty tree over a buffer of the given contents. */
    constructor (links0: Links, hdrs0: seq<Header>, rindex0: seq<nat>)
      requires Sized(links0) && |hdrs0| == |rindex0| == RBUF_SIZE
      ensures Valid() && tree == Leaf && hdrs == hdrs0
    {
      links, hdrs, rindex, root, tree := links0, hdrs0, rindex0, NIL, Leaf;
      new;
      EmptyRedBlack();
    }

    /** The step the rotations and the replacement share: what led to old leads to child. */
    method Relink(parent: int, from: int, child: int)
      requires Sized(links) && (parent < 0 || IsNode(parent))
      modifies this`links, this`root
      ensures root == if parent < 0 then child else old(root)
      ensures links == if parent < 0 then old(links)
                       else if old(links).left[parent] >= 0 && from == old(links).left[parent]
                       then old(links).(left := old(links).left[parent := child])
                       else old(links).(right := old(links).right[parent := child])
    {
      if parent < 0 {
        root := child;
      } else if links.left[parent] >= 0 && from == links.left[parent] {
        links := links.(left := links.left[parent := child]);
      } else {
        links := links.(right := links.right[parent := child]);
      }
    }

    /** Left rotation (fw/hpack.c:2458-2490); bug is the outcome of its BUG_ON. */
    method LeftRotate(x: int, ghost h: Hole, ghost t: Tree) returns (bug: bool)
      requires Sized(links) && IsNode(x)
      requires links.right[x] >= 0 ==> Holds(links, root, h, t) && t.Node? && t.off == x
      modifies this`links, this`root
      ensures bug <==> old(links.right[x]) < 0
      ensures bug ==> links == old(links) && root == old(root)
      ensures !bug ==> t.right.Node? && Holds(links, root, h, RotatedLeft(t))
    {
      ghost var m := links;
      if links.right[x] < 0 {
        return true;
      }
      assert t.right.Node? by { NodeFacts(m, root, h, t); }
      hide Holds;
      hide Offsets;
      hide Shape;
      hide Distinct;
      LeftFacts(m, root, h, t);
      var y := links.right[x];
      links := links.(right := links.right[x := links.left[y]]);
      var child := links.left[y];
      if child >= 0 {
        links := links.(parent := links.parent[child := x]);
      }
      links := links.(parent := links.parent[y := links.parent[x]]);
      var parent := links.parent[x];
      Relink(parent, x, y);
      links := links.(left := links.left[y := x]);
      links := links.(parent := links.parent[x := y]);

      LeftRotationWrites(m, links, old(root), root, h, t);
      bug := false;
    }

    /** Right rotation (fw/hpack.c:2495-2527). */
    method RightRotate(x: int, ghost h: Hole, ghost t: Tree) returns (bug: bool)
      requires Sized(links) && IsNode(x)
      requires links.left[x] >= 0 ==> Holds(links, root, h, t) && t.Node? && t.off == x
      modifies this`links, this`root
      ensures bug <==> old(links.left[x]) < 0
      ensures bug ==> links == old(links) && root == old(root)
      ensures !bug ==> t.left.Node? && Holds(links, root, h, RotatedRight(t))
    {
      ghost var m := links;
      if links.left[x] < 0 {
        return true;
      }
      assert t.left.Node? by { NodeFacts(m, root, h, t); }
      hide Holds;
      hide Offsets;
      hide Shape;
      hide Distinct;
      RightFacts(m, root, h, t);
      var y := links.left[x];
      links := links.(left := links.left[x := links.right[y]]);
      var child := links.right[y];
      if child >= 0 {
        links := links.(parent := links.parent[child := x]);
      }
      links := links.(parent := links.parent[y := links.parent[x]]);
      var parent := links.parent[x];
      Relink(parent, x, y);
      links := links.(right := links.right[y := x]);
      links := links.(parent := links.parent[x := y]);

      RightRotationWrites(m, links, old(root), root, h, t);
      bug := false;
    }

    /** Setting a node's colour. */
    method SetColor(x: int, c: Color)
      requires Sized(links) && IsNode(x)
      modifies this`links
      ensures links == Recolor(old(links), x, c)
    {
      links := links.(color := links.color[x := c]);
    }

    /** Black uncle on the right: one or two rotations (fw/hpack.c:2554-2567). */
    method InsertTurnLeft(node: int, parent0: int, gparent: int, ghost h: Hole, ghost t: Tree, ghost b: int,
                          ghost s: seq<int>)
      returns (parent: int, ghost t': Tree)
      requires Sized(links) && t.Node? && InsertStep(links, root, h, t, b, s) && RedParent(h) && !h.up.Top?
      requires node == t.off && parent0 == h.off && gparent == h.up.off && h.up.InLeft? && !IsRed(Sibling(h.up))
      modifies this`links, this`root
      ensures Sized(links) && Settled(links, root, h.up.up, t', s) && t'.off == parent && t'.color == Black
    {
      hide Holds;
      hide Inserting;
      hide InOrder;
      hide Plug;
      InsertFacts(links, root, h, t, b, s);
      parent := parent0;
      ghost var h1, t1 := h, t;
      if links.right[parent] >= 0 && node == links.right[parent] {
        GoUp(links, root, h, t);
        TurnInner(h, t, b);
        var bug := LeftRotate(parent, h.up, Fill(h, t, Red));
        assert !bug;
        parent := node;
        ghost var p := RotatedLeft(Fill(h, t, Red));
        h1, t1 := InLeft(h.up, p.off, Red, p.right), p.left;
        GoUp(links, root, h1, t1);
      }
      RecolorParent(links, root, h1, t1, Black);
      SetColor(parent, Black);
      RecolorParent(links, root, h.up, Fill(h1, t1, Black), Red);
      SetColor(gparent, Red);
      ghost var g := Fill(h.up, Fill(h1, t1, Black), Red);
      TurnOuter(h1, t1, b);
      NodeFacts(links, root, h.up.up, g);
      var bug := RightRotate(gparent, h.up.up, g);
      assert !bug;
      t' := RotatedRight(g);
      NodeFacts(links, root, h.up.up, t');
    }

    /** The mirror image (fw/hpack.c:2580-2593), which a node linked to itself also reaches. */
    method InsertTurnRight(node: int, parent0: int, gparent: int, ghost h: Hole, ghost t: Tree, ghost b: int,
                           ghost s: seq<int>,
                           ghost selfLinked: bool)
      returns (bug: bool, parent: int, ghost t': Tree)
      requires Sized(links) && IsNode(node) && IsNode(parent0) && IsNode(gparent)
      requires selfLinked ==> node == parent0 == gparent && links.left[node] == links.right[node] == NIL
      requires !selfLinked ==> t.Node? && InsertStep(links, root, h, t, b, s) && RedParent(h) && !h.up.Top?
      requires !selfLinked ==> node == t.off && parent0 == h.off && gparent == h.up.off
      requires !selfLinked ==> h.up.InRight? && !IsRed(Sibling(h.up))
      modifies this`links, this`root
      ensures bug <==> selfLinked
      ensures Sized(links)
      ensures !bug ==> Settled(links, root, h.up.up, t', s) && t'.off == parent && t'.color == Black
    {
      hide Holds;
      hide Inserting;
      hide InOrder;
      hide Plug;
      if !selfLinked { InsertFacts(links, root, h, t, b, s); }
      parent := parent0;
      ghost var h1, t1 := h, t;
      t' := t;
      if links.left[parent] >= 0 && node == links.left[parent] {
        GoUp(links, root, h, t);
        TurnInner(h, t, b);
        bug := RightRotate(parent, h.up, Fill(h, t, Red));
        assert !bug;
        parent := node;
        ghost var p := RotatedRight(Fill(h, t, Red));
        h1, t1 := InRight(h.up, p.left, p.off, Red), p.right;
        GoUp(links, root, h1, t1);
      }
      if !selfLinked { RecolorParent(links, root, h1, t1, Black); }
      SetColor(parent, Black);
      if !selfLinked { RecolorParent(links, root, h.up, Fill(h1, t1, Black), Red); }
      SetColor(gparent, Red);
      ghost var g := if selfLinked then t else Fill(h.up, Fill(h1, t1, Black), Red);
      if !selfLinked {
        TurnOuter(h1, t1, b);
        NodeFacts(links, root, h.up.up, g);
      }
      bug := LeftRotate(gparent, if selfLinked then h else h.up.up, g);
      if !bug {
        t' := RotatedLeft(g);
        NodeFacts(links, root, h.up.up, t');
      }
    }

    /** Rebalancing after an insertion (fw/hpack.c:2532-2599). A node linked to itself as its
        own parent is what the code meets when the slot of the last evicted node is reused;
        then the BUG_ON of the left rotation fires. Otherwise none fires. */
    method InsertRebalance(start: int, ghost h0: Hole, ghost t0: Tree, ghost b0: int, ghost selfLinked: bool)
      returns (bug: bool, ghost done: Tree)
      requires Sized(links) && IsNode(start)
      requires selfLinked ==> links.parent[start] == start && links.color[start] == Red
      requires selfLinked ==> links.left[start] == NIL && links.right[start] == NIL
      requires !selfLinked ==> t0.Node? && InsertStep(links, root, h0, t0, b0, InOrder(Plug(h0, t0))) && t0.off == start
      modifies this`links, this`root
      ensures bug <==> selfLinked
      ensures Sized(links)
      ensures !bug ==> Holds(links, root, Top, done) && RedBlackTree(done) && InOrder(done) == InOrder(Plug(h0, t0))
    {
      hide Holds;
      hide Inserting;
      hide RedBlackTree;
      hide InOrder;
      hide Plug;
      ghost var s := InOrder(Plug(h0, t0));
      ghost var h, t, b, resting := h0, t0, b0, false;
      bug, done := false, Leaf;
      var node, parent := start, links.parent[start];
      if !selfLinked { NodeFacts(links, root, h, t); }
      while parent >= 0 && links.color[parent] == Red
        invariant Sized(links) && parent < RBUF_SIZE
        invariant selfLinked ==> links == old(links) && root == old(root) && node == parent == start
        invariant !selfLinked && !resting ==> t.Node? && InsertStep(links, root, h, t, b, s)
        invariant !selfLinked && !resting ==> node == t.off && parent == Parent(h)
        invariant !selfLinked && resting ==> Settled(links, root, h, t, s) && parent >= 0
        invariant !selfLinked && resting ==> links.color[parent] == Black
        decreases if resting then 0 else 1 + Depth(h)
      {
        if !selfLinked {
          NodeFacts(links, root, h, t);
          InsertFacts(links, root, h, t, b, s);
          assert Depth(h) == 2 + Depth(h.up.up);
        }
        var gparent := links.parent[parent];
        assert gparent >= 0;
        var gpLeft := links.left[gparent];
        var uncle := if parent == gpLeft then links.right[gparent] else gpLeft;
        if uncle >= 0 && links.color[uncle] == Red {
          RecolorFamily(links, root, h, t);
          RecolorUp(h, t, b);
          SetColor(parent, Black);
          SetColor(uncle, Black);
          SetColor(gparent, Red);
          parent := links.parent[gparent];
          node := gparent;
          t := Fill(WithSibling(h.up, Sibling(h.up).(color := Black)), Fill(h, t, Black), Red);
          h, b := h.up.up, b + 1;
          NodeFacts(links, root, h, t);
        } else if parent == gpLeft {
          parent, t := InsertTurnLeft(node, parent, gparent, h, t, b, s);
          h, resting := h.up.up, true;
          NodeFacts(links, root, h, t);
        } else {
          bug, parent, t := InsertTurnRight(node, parent, gparent, h, t, b, s, selfLinked);
          if bug { return; }
          h, resting := h.up.up, true;
          NodeFacts(links, root, h, t);
        }
      }
      NodeFacts(links, root, h, t);
      done := InsertFinish(links, root, h, t, b, s, resting);
      SetColor(root, Black);
    }

    /** Black brother with a red child, the place on the left (fw/hpack.c:2644-2656). */
    method DeleteTurnLeft(parent: int, brother0: int, lNeph: int, rNeph0: int,
                          ghost h: Hole, ghost t: Tree, ghost b: int, ghost s: seq<int>)
      returns (ghost t': Tree)
      requires DeleteStep(links, root, h, t, b, s) && h.InLeft? && !IsRed(t) && parent == h.off
      requires Sibling(h).Node? && !IsRed(Sibling(h)) && (IsRed(Near(h)) || IsRed(Far(h)))
      requires brother0 == Sibling(h).off && lNeph == Root(Near(h)) && rNeph0 == Root(Far(h))
      modifies this`links, this`root
      ensures Settled(links, root, h.up, t', s)
    {
      hide Holds;
      hide Deleting;
      hide InOrder;
      hide Plug;
      DeleteFacts(links, root, h, t, b, s);
      ghost var h1 := h;
      var brother, rNeph := brother0, rNeph0;
      if rNeph < 0 || links.color[rNeph] == Black {
        PaintNear(links, root, h, t);
        NearRed(h, t, b);
        SetColor(lNeph, Black);
        SetColor(brother, Red);
        NodeFacts(links, root, Across(h, t), Join(h, Near(h).(color := Black), Sibling(h).off, Red, Far(h)));
        var bug := RightRotate(brother, Across(h, t), Join(h, Near(h).(color := Black), Sibling(h).off, Red, Far(h)));
        assert !bug;
        rNeph := brother;
        h1 := Straightened(h);
        GoAcross(links, root, h1, t);
        DeleteFacts(links, root, h1, t, b, s);
        brother := links.right[parent];
      }
      PaintFar(links, root, h1, t);
      FarRed(h1, t, b);
      SetColor(brother, links.color[parent]);
      SetColor(parent, Black);
      SetColor(rNeph, Black);
      ghost var p := Fill(WithSibling(h1, Repainted(h1)), t, Black);
      NodeFacts(links, root, h.up, p);
      var bug := LeftRotate(parent, h.up, p);
      assert !bug;
      t' := RotatedLeft(p);
    }

    /** Black brother with a red child, the place on the right (fw/hpack.c:2682-2694). */
    method DeleteTurnRight(parent: int, brother0: int, lNeph0: int, rNeph: int,
                          ghost h: Hole, ghost t: Tree, ghost b: int, ghost s: seq<int>)
      returns (ghost t': Tree)
      requires DeleteStep(links, root, h, t, b, s) && h.InRight? && !IsRed(t) && parent == h.off
      requires Sibling(h).Node? && !IsRed(Sibling(h)) && (IsRed(Near(h)) || IsRed(Far(h)))
      requires brother0 == Sibling(h).off && rNeph == Root(Near(h)) && lNeph0 == Root(Far(h))
      modifies this`links, this`root
      ensures Settled(links, root, h.up, t', s)
    {
      hide Holds;
      hide Deleting;
      hide InOrder;
      hide Plug;
      DeleteFacts(links, root, h, t, b, s);
      ghost var h1 := h;
      var brother, lNeph := brother0, lNeph0;
      if lNeph < 0 || links.color[lNeph] == Black {
        PaintNear(links, root, h, t);
        NearRed(h, t, b);
        SetColor(rNeph, Black);
        SetColor(brother, Red);
        NodeFacts(links, root, Across(h, t), Join(h, Near(h).(color := Black), Sibling(h).off, Red, Far(h)));
        var bug := LeftRotate(brother, Across(h, t), Join(h, Near(h).(color := Black), Sibling(h).off, Red, Far(h)));
        assert !bug;
        lNeph := brother;
        h1 := Straightened(h);
        GoAcross(links, root, h1, t);
        DeleteFacts(links, root, h1, t, b, s);
        brother := links.left[parent];
      }
      PaintFar(links, root, h1, t);
      FarRed(h1, t, b);
      SetColor(brother, links.color[parent]);
      SetColor(parent, Black);
      SetColor(lNeph, Black);
      ghost var p := Fill(WithSibling(h1, Repainted(h1)), t, Black);
      NodeFacts(links, root, h.up, p);
      var bug := RightRotate(parent, h.up, p);
      assert !bug;
      t' := RotatedRight(p);
    }

    /** One round with the place on the left (fw/hpack.c:2614-2658). The BUG_ONs are the
        assertions on the links. */
    method DeleteRoundLeft(nchild0: int, parent0: int, ghost h: Hole, ghost t: Tree, ghost b: int, ghost s: seq<int>)
      returns (nchild: int, parent: int, ghost h': Hole, ghost t': Tree, ghost b': int, ghost resting: bool)
      requires DeleteStep(links, root, h, t, b, s) && h.InLeft? && !IsRed(t) && nchild0 == Root(t) && parent0 == h.off
      modifies this`links, this`root
      ensures !resting ==> DeleteStep(links, root, h', t', b', s) && t'.Node?
      ensures !resting ==> nchild == t'.off && parent == Parent(h')
      ensures !resting ==> (Depth(h') < Depth(h) || (Depth(h') == Depth(h) && IsRed(t')))
      ensures resting ==> Settled(links, root, h', t', s)
      ensures resting ==> nchild == root
    {
      hide Holds;
      hide Deleting;
      hide InOrder;
      hide Plug;
      DeleteFacts(links, root, h, t, b, s);
      ghost var h1 := h;
      nchild, parent, h', t', b', resting := nchild0, parent0, h, t, b, false;
      assert links.right[parent] >= 0;
      var brother := links.right[parent];
      if links.color[brother] == Red {
        PaintBrotherRed(links, root, h, t);
        BrotherRed(h, t, b);
        SetColor(brother, Black);
        SetColor(parent, Red);
        ghost var p := Fill(WithSibling(h, Sibling(h).(color := Black)), t, Red);
        NodeFacts(links, root, h.up, p);
        var bug := LeftRotate(parent, h.up, p);
        assert !bug;
        h1 := Lowered(h);
        GoUp(links, root, h1.up, Fill(h1, t, Red));
        GoUp(links, root, h1, t);
        DeleteFacts(links, root, h1, t, b, s);
        brother := links.right[parent];
        assert brother >= 0;
      }
      var lNeph, rNeph := links.left[brother], links.right[brother];
      if (lNeph < 0 || links.color[lNeph] == Black) && (rNeph < 0 || links.color[rNeph] == Black) {
        RecolorSibling(links, root, h1, t, Red);
        NephewsBlack(h1, t, b);
        SetColor(brother, Red);
        nchild := parent;
        parent := links.parent[nchild];
        GoUp(links, root, WithSibling(h1, Sibling(h1).(color := Red)), t);
        t' := Fill(WithSibling(h1, Sibling(h1).(color := Red)), t, h1.color);
        h', b' := h1.up, b + Weight(h1.color);
      } else {
        t' := DeleteTurnLeft(parent, brother, lNeph, rNeph, h1, t, b, s);
        h', resting := h1.up, true;
        nchild := root;
      }
    }

    /** One round with the place on the right (fw/hpack.c:2659-2696). The BUG_ONs are the
        assertions on the links. */
    method DeleteRoundRight(nchild0: int, parent0: int, ghost h: Hole, ghost t: Tree, ghost b: int, ghost s: seq<int>)
      returns (nchild: int, parent: int, ghost h': Hole, ghost t': Tree, ghost b': int, ghost resting: bool)
      requires DeleteStep(links, root, h, t, b, s) && h.InRight? && !IsRed(t) && nchild0 == Root(t) && parent0 == h.off
      modifies this`links, this`root
      ensures !resting ==> DeleteStep(links, root, h', t', b', s) && t'.Node?
      ensures !resting ==> nchild == t'.off && parent == Parent(h')
      ensures !resting ==> (Depth(h') < Depth(h) || (Depth(h') == Depth(h) && IsRed(t')))
      ensures resting ==> Settled(links, root, h', t', s)
      ensures resting ==> nchild == root
    {
      hide Holds;
      hide Deleting;
      hide InOrder;
      hide Plug;
      DeleteFacts(links, root, h, t, b, s);
      ghost var h1 := h;
      nchild, parent, h', t', b', resting := nchild0, parent0, h, t, b, false;
      assert links.left[parent] >= 0;
      var brother := links.left[parent];
      if links.color[brother] == Red {
        PaintBrotherRed(links, root, h, t);
        BrotherRed(h, t, b);
        SetColor(brother, Black);
        SetColor(parent, Red);
        ghost var p := Fill(WithSibling(h, Sibling(h).(color := Black)), t, Red);
        NodeFacts(links, root, h.up, p);
        var bug := RightRotate(parent, h.up, p);
        assert !bug;
        h1 := Lowered(h);
        GoUp(links, root, h1.up, Fill(h1, t, Red));
        GoUp(links, root, h1, t);
        DeleteFacts(links, root, h1, t, b, s);
        brother := links.left[parent];
        assert brother >= 0;
      }
      var lNeph, rNeph := links.left[brother], links.right[brother];
      if (lNeph < 0 || links.color[lNeph] == Black) && (rNeph < 0 || links.color[rNeph] == Black) {
        RecolorSibling(links, root, h1, t, Red);
        NephewsBlack(h1, t, b);
        SetColor(brother, Red);
        nchild := parent;
        parent := links.parent[nchild];
        GoUp(links, root, WithSibling(h1, Sibling(h1).(color := Red)), t);
        t' := Fill(WithSibling(h1, Sibling(h1).(color := Red)), t, h1.color);
        h', b' := h1.up, b + Weight(h1.color);
      } else {
        t' := DeleteTurnRight(parent, brother, lNeph, rNeph, h1, t, b, s);
        h', resting := h1.up, true;
        nchild := root;
      }
    }

    /** Rebalancing after a deletion (fw/hpack.c:2604-2700). */
    method DeleteRebalance(nchild0: int, parent0: int, ghost h0: Hole, ghost t0: Tree, ghost b0: int)
      returns (ghost done: Tree)
      requires DeleteStep(links, root, h0, t0, b0, InOrder(Plug(h0, t0))) && (t0.Leaf? ==> !h0.Top?)
      requires nchild0 == Root(t0) && parent0 == Parent(h0)
      modifies this`links, this`root
      ensures Holds(links, root, Top, done) && RedBlackTree(done) && InOrder(done) == InOrder(Plug(h0, t0))
    {
      hide Holds;
      hide Deleting;
      hide RedBlackTree;
      hide InOrder;
      hide Plug;
      ghost var s := InOrder(Plug(h0, t0));
      ghost var h, t, b, resting := h0, t0, b0, false;
      var nchild, parent := nchild0, parent0;
      NodeFacts(links, root, h, t);
      RootFacts(links, root, h, t);
      while nchild < 0 || (nchild != root && links.color[nchild] == Black)
        invariant Sized(links)
        invariant !resting ==> DeleteStep(links, root, h, t, b, s) && parent == Parent(h)
        invariant !resting ==> nchild == Root(t) && (t.Leaf? ==> !h.Top?) && (h.Top? <==> nchild == root)
        invariant !resting && t.Node? ==> IsNode(nchild) && links.color[nchild] == t.color
        invariant resting ==> Settled(links, root, h, t, s) && nchild == root && root >= 0
        decreases if resting then 0 else 1, Depth(h), if IsRed(t) then 0 else 1
      {
        DeleteFacts(links, root, h, t, b, s);
        if nchild == links.left[parent] {
          nchild, parent, h, t, b, resting := DeleteRoundLeft(nchild, parent, h, t, b, s);
        } else {
          nchild, parent, h, t, b, resting := DeleteRoundRight(nchild, parent, h, t, b, s);
        }
        NodeFacts(links, root, h, t);
        RootFacts(links, root, h, t);
      }
      if resting {
        done := InsertFinish(links, root, h, t, b, s, true);
      } else {
        Recoloring(links, root, h, t, Black);
        DeletingDone(h, t, b);
        done := Plug(h, t.(color := Black));
        HoldsPlug(Recolor(links, nchild, Black), root, h, t.(color := Black));
      }
      SetColor(nchild, Black);
    }

    /** The leftmost node of a subtree (fw/hpack.c:2702-2713). */
    method Min(node0: int, ghost h: Hole, ghost t: Tree) returns (node: int, ghost path: Hole, ghost low: Tree)
      requires Holds(links, root, h, t) && t.Node? && node0 == t.off
      ensures Sized(links) && IsNode(node) && links.left[node] < 0
      ensures Plug(path, low) == t && LeftPath(path) && low.Node? && low.left.Leaf? && low.off == node
      ensures Holds(links, root, Under(path, h), low)
    {
      node, path, low := node0, Top, t;
      NodeFacts(links, root, h, t);
      while links.left[node] >= 0
        invariant low.Node? && node == low.off && IsNode(node) && Sized(links)
        invariant Plug(path, low) == t && LeftPath(path)
        invariant Holds(links, root, Under(path, h), low)
        invariant links.left[node] == Root(low.left)
        decreases low
      {
        hide Holds;
        GoLeft(links, root, Under(path, h), low);
        node := links.left[node];
        path, low := InLeft(path, low.off, low.color, low.right), low.left;
        NodeFacts(links, root, Under(path, h), low);
      }
      GoLeft(links, root, Under(path, h), low);
      NodeFacts(links, root, InLeft(Under(path, h), low.off, low.color, low.right), low.left);
    }

    /** Replacing one branch by another, possibly empty, one (fw/hpack.c:2718-2745). */
    method Replace(x: int, k: int, ghost h: Hole, ghost b: Tree)
      requires Sized(links) && IsNode(x) && links.parent[x] == Parent(h) && (!h.Top? ==> IsNode(h.off))
      requires (h.InLeft? ==> links.left[h.off] == x) && (h.InRight? ==> links.left[h.off] != x)
      requires k == Root(b) && (b.Node? ==> IsNode(k))
      modifies this`links, this`root
      ensures links == Replaced(old(links), h, b)
      ensures root == if h.Top? then k else old(root)
    {
      var parent := links.parent[x];
      Relink(parent, x, k);
      if k >= 0 {
        links := links.(parent := links.parent[k := parent]);
      }
    }

    /** Cutting out a node with at most one child (fw/hpack.c:2844-2851, 2888-2889). */
    method EraseLow(node: int, ghost h: Hole, ghost t: Tree) returns (ghost done: Tree)
      requires Holds(links, root, h, t) && t.Node? && t.off == node && RedBlackTree(Plug(h, t))
      requires t.left.Leaf? || t.right.Leaf?
      modifies this`links, this`root
      ensures Holds(links, root, Top, done) && RedBlackTree(done) && InOrder(done) == Without(InOrder(Plug(h, t)), node)
    {
      hide Holds;
      hide RedBlackTree;
      hide InOrder;
      hide Plug;
      hide Deleting;
      ghost var k := if t.left.Leaf? then t.right else t.left;
      NodeFacts(links, root, h, t);
      GoLeft(links, root, h, t);
      GoRight(links, root, h, t);
      if t.left.Leaf? {
        NodeFacts(links, root, InRight(h, t.left, t.off, t.color), t.right);
      } else {
        NodeFacts(links, root, InLeft(h, t.off, t.color, t.right), t.left);
      }
      var parent, black := links.parent[node], links.color[node] == Black;
      var nchild := if links.left[node] < 0 then links.right[node] else links.left[node];
      ghost var m, root0 := links, root;
      Replace(node, nchild, h, k);
      SpliceOut(m, links, root0, h, t, k);
      ghost var b := CutOut(h, t);
      CutOutOrder(m, root0, h, t);
      if black && root >= 0 {
        RootFacts(links, root, h, k);
        done := DeleteRebalance(nchild, parent, h, k, b);
      } else {
        RootFacts(links, root, h, k);
        NodeFacts(links, root, h, k);
        EmptyRedBlack();
        done := Plug(h, k);
        HoldsPlug(links, root, h, k);
      }
    }

    /** The node sv takes over the links above the node, its left branch and its colour
        (fw/hpack.c:2874-2880). */
    method Inherit(node: int, sv: int, ghost h: Hole)
      requires Sized(links) && IsNode(node) && IsNode(sv) && links.parent[node] == Parent(h) && IsNode(links.left[node])
      requires !h.Top? ==> IsNode(h.off) && h.off != node
      requires (h.InLeft? ==> links.left[h.off] == node) && (h.InRight? ==> links.left[h.off] != node)
      modifies this`links, this`root
      ensures links == old(links).(
        parent := old(links).parent[sv := Parent(h)][old(links).left[node] := sv],
        left := RelinkLeft(old(links).left, h, sv)[sv := old(links).left[node]],
        right := RelinkRight(old(links).right, h, sv),
        color := old(links).color[sv := old(links).color[node]])
      ensures root == if h.Top? then sv else old(root)
    {
      Replace(node, sv, h, Node(Leaf, sv, Black, Leaf));
      var nLeft := links.left[node];
      links := links.(parent := links.parent[nLeft := sv]);
      links := links.(left := links.left[sv := links.left[node]]);
      SetColor(sv, links.color[node]);
    }

    /** The successor sv moves to the position of the node (fw/hpack.c:2860-2880). */
    method Promote(node: int, sv: int, nchild: int, ghost h: Hole, ghost t: Tree, ghost path: Hole, ghost low: Tree)
      returns (parent: int)
      requires Holds(links, root, h, t) && t.Node? && t.left.Node? && t.off == node
      requires t.right == Plug(path, low) && low.Node? && low.left.Leaf? && low.off == sv && nchild == Root(low.right)
      requires Holds(links, root, Under(path, InRight(h, t.left, t.off, t.color)), low)
      modifies this`links, this`root
      ensures var h' := SuccessorHole(h, t.left, sv, t.color, path);
        Holds(links, root, h', low.right) && parent == Parent(h')
    {
      hide Holds;
      hide Plug;
      hide Under;
      ghost var hx := InRight(h, t.left, t.off, t.color);
      ghost var hs := Under(path, hx);
      NodeFacts(links, root, h, t);
      NodeFacts(links, root, hs, low);
      GoRight(links, root, hs, low);
      NodeFacts(links, root, InRight(hs, low.left, low.off, low.color), low.right);
      ChildrenFacts(links, root, h, t);
      SuccessorPath(t, path, low);
      PlugTop(path, low);
      PlugTop(path, low.right);
      UnderParent(path, hx);
      UnderParent(path, InRight(h, t.left, sv, t.color));
      ghost var m, root0 := links, root;
      if node != links.parent[sv] {
        parent := links.parent[sv];
        Replace(sv, nchild, hs, low.right);
        SpliceOut(m, links, root0, hs, low, low.right);
        SuccessorFree(m, links, root, h, t, path, low);
        PlugRoot(path, low, low.right);
        ghost var t1 := Node(t.left, t.off, t.color, Plug(path, low.right));
        NodeFacts(links, root, h, t1);
        ChildrenFacts(links, root, h, t1);
        ghost var m1 := links;
        var nRight := links.right[node];
        links := links.(parent := links.parent[nRight := sv]);
        links := links.(right := links.right[sv := links.right[node]]);
        Inherit(node, sv, h);
        SubstituteWrites(m1, links, root0, root, h, t1, sv);
      } else {
        parent := sv;
        Inherit(node, sv, h);
        PromoteWrites(m, links, root0, root, h, t);
      }
      GoRight(links, root, h, Node(t.left, sv, t.color, Plug(path, low.right)));
      HoldsUnder(links, root, path, InRight(h, t.left, sv, t.color), low.right);
    }

    /** Erasing a node with two children (fw/hpack.c:2853-2889): the successor takes its
        position and colour, and the successor's old position is the one cut out. */
    method EraseInner(node: int, ghost h: Hole, ghost t: Tree) returns (ghost done: Tree)
      requires Holds(links, root, h, t) && t.Node? && t.off == node && RedBlackTree(Plug(h, t))
      requires t.left.Node? && t.right.Node?
      modifies this`links, this`root
      ensures Holds(links, root, Top, done) && RedBlackTree(done) && InOrder(done) == Without(InOrder(Plug(h, t)), node)
    {
      hide Holds;
      hide RedBlackTree;
      hide InOrder;
      hide Plug;
      hide Deleting;
      hide Under;
      ghost var hx := InRight(h, t.left, t.off, t.color);
      NodeFacts(links, root, h, t);
      GoRight(links, root, h, t);
      NodeFacts(links, root, hx, t.right);
      var sv, path, low := Min(links.right[node], hx, t.right);
      NodeFacts(links, root, Under(path, hx), low);
      var black, nchild := links.color[sv] == Black, links.right[sv];
      ghost var b := SuccessorCut(h, t, path, low);
      SuccessorOrderOf(links, root, h, t, path, low);
      var parent := Promote(node, sv, nchild, h, t, path, low);
      ghost var h' := SuccessorHole(h, t.left, sv, t.color, path);
      RootFacts(links, root, h', low.right);
      if black && root >= 0 {
        done := DeleteRebalance(nchild, parent, h', low.right, b);
      } else {
        done := Plug(h', low.right);
        HoldsPlug(links, root, h', low.right);
      }
    }

    /** Removal of a node from the tree (fw/hpack.c:2836-2890). */
    method Erase(node: int)
      requires Valid() && node in Offsets(tree)
      modifies this`links, this`root, this`tree
      ensures Valid() && InOrder(tree) == Without(old(InOrder(tree)), node)
      ensures Offsets(tree) == old(Offsets(tree)) - {node}
    {
      ghost var s := InOrder(tree);
      ghost var h, t := Locate(Top, tree, node);
      hide Holds;
      hide RedBlackTree;
      hide Plug;
      PlugTop(Top, tree);
      HoldsPlug(links, root, h, t);
      RootOfChild(links, root, h, t);
      if links.left[node] < 0 || links.right[node] < 0 {
        tree := EraseLow(node, h, t);
      } else {
        tree := EraseInner(node, h, t);
      }
      EraseOffsets(old(tree), tree, node);
    }

    /** Adding a node at the place an unsuccessful search left behind (fw/hpack.c:2752-2772).
        The case of a place below the added node itself is the one the eviction of the last
        node leads to. */
    method Add(y: int, place: Place, ghost h: Hole) returns (bug: bool)
      requires Valid() && IsNode(y) && Plug(h, Leaf) == tree
      requires place.parent == Parent(h) && (place.left <==> h.InLeft?)
      requires y in Offsets(tree) ==> place.parent == y
      modifies this`links, this`root, this`tree
      ensures bug <==> y in old(Offsets(tree))
      ensures !bug ==> Valid() && InOrder(tree) == Before(h) + [y] + After(h)
      ensures !bug ==> Offsets(tree) == old(Offsets(tree)) + {y}
    {
      hide Holds;
      hide RedBlackTree;
      hide Plug;
      hide Inserting;
      PlugTop(Top, tree);
      HoldsPlug(links, root, h, Leaf);
      PlugOffsets(h, Leaf);
      NodeFacts(links, root, h, Leaf);
      ghost var m, root0, selfLinked := links, root, y in Offsets(tree);
      var parent := place.parent;
      links := links.(parent := links.parent[y := parent]);
      if parent < 0 {
        assert root < 0;
        root := y;
      } else if place.left {
        links := links.(left := links.left[parent := y]);
      } else {
        links := links.(right := links.right[parent := y]);
      }
      links := links.(left := links.left[y := NIL], right := links.right[y := NIL]);
      SetColor(y, Red);
      ghost var t, b := Node(Leaf, y, Red, Leaf), 0;
      if !selfLinked {
        LinkWrites(m, links, root0, root, h, y);
        b := InsertingLeaf(h, y);
      }
      ghost var done;
      bug, done := InsertRebalance(y, h, t, b, selfLinked);
      if !bug {
        AddOffsets(tree, done, h, y);
        tree := done;
      }
    }

    /** Search for a header (fw/hpack.c:2783-2831). */
    method Find(hdr: Header) returns (res: Found, node: int, place: Place, ghost h: Hole)
      requires Valid() && Sorted(hdrs, InOrder(tree))
      ensures res == Full <==> exists o :: o in Offsets(tree) && 0 <= o < |hdrs| && hdrs[o] == hdr
      ensures res == NameOnly <==>
        && (forall o :: o in Offsets(tree) && 0 <= o < |hdrs| ==> hdrs[o] != hdr)
        && exists o :: o in Offsets(tree) && 0 <= o < |hdrs| && hdrs[o].name == hdr.name
      ensures res == Full ==> node in Offsets(tree) && IsNode(node) && hdrs[node] == hdr
      ensures res == NameOnly ==> node in Offsets(tree) && IsNode(node) && hdrs[node].name == hdr.name
      ensures res == NotFound ==> node == NIL
      ensures res != Full ==> IsPlace(hdrs, tree, place, h, hdr)
    {
      var parent, at, cmp := NIL, root, 0;
      node, place, h := NIL, Place(NIL, false), Top;
      ghost var t := tree;
      NodeFacts(links, root, Top, tree);
      hide Holds;
      hide RedBlackTree;
      hide InOrder;
      while at >= 0
        invariant Holds(links, root, h, t) && Plug(h, t) == tree
        invariant at == Root(t) && parent == Parent(h) && (t.Node? ==> IsNode(at))
        invariant Below(hdrs, Before(h), hdr) && Above(hdrs, After(h), hdr)
        invariant !h.Top? ==> (cmp < 0 <==> h.InLeft?)
        invariant node >= 0 ==> node in Offsets(tree) && IsNode(node) && hdrs[node].name == hdr.name
        invariant node < 0 ==> node == NIL && OtherNames(hdrs, Before(h), hdr) && OtherNames(hdrs, After(h), hdr)
        decreases t
      {
        NodeFacts(links, root, h, t);
        SortedAround(hdrs, h, t);
        assert at in Offsets(tree) by { PlugOffsets(h, t); }
        parent := at;
        cmp := Compare(hdr, hdrs[at]);
        if node < 0 && hdrs[at].name == hdr.name {
          node := at;
        }
        CompareAntisymmetric(hdr, hdrs[at]);
        if cmp < 0 {
          SearchLeft(hdrs, at, InOrder(t.right), After(h), hdr);
          GoLeft(links, root, h, t);
          at := links.left[at];
          h, t := InLeft(h, t.off, t.color, t.right), t.left;
        } else if cmp > 0 {
          SearchRight(hdrs, Before(h), InOrder(t.left), at, hdr);
          GoRight(links, root, h, t);
          at := links.right[at];
          h, t := InRight(h, t.left, t.off, t.color), t.right;
        } else {
          return Full, at, place, h;
        }
        NodeFacts(links, root, h, t);
      }
      place := Place(parent, parent >= 0 && cmp < 0);
      NodeFacts(links, root, h, t);
      NotInTree(hdrs, h, hdr);
      res := if node >= 0 then NameOnly else NotFound;
    }
  }
}
