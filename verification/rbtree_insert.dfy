/** lib/rbtree.c: what the loop of rb_insert_color keeps, step by step, and the new leaf it starts from. */
module RbInsert {
  import opened RbNodes
  import opened RbOrder
  import opened RbSteps

  /** The loop invariant of rb_insert_color: all is well but for the red node in focus,
      whose parent may be red too. */
  ghost predicate Inserting(c: Ctx, t: Tree) {
    IsRed(t) && Balanced(t) && NoRedRed(t) && CBalanced(c, BH(t)) && COk(c, false)
  }

  /** Parent and uncle black, grandparent red. */
  ghost function Recolored(c: Ctx, t: Tree): Tree
    requires !c.Hole? && !c.up.Hole?
  {
    Fill(c.up.(c := Red, sib := Blacken(c.up.sib)), Fill(c.(c := Black), t))
  }

  lemma RecolorInserting(c: Ctx, t: Tree)
    requires Inserting(c, t) && !c.Hole? && c.c == Red
    ensures !c.up.Hole?
    ensures IsRed(c.up.sib) ==> Inserting(c.up.up, Recolored(c, t))
  {
    assert COk(c.up, true) && CBalanced(c.up, BH(t)) && BH(c.sib) == BH(t);
    var p, u := Fill(c.(c := Black), t), c.up;
    assert Balanced(p) && NoRedRed(p) && BH(p) == BH(t) + 1;
    assert u.c == Black && CBalanced(u.up, BH(t) + 1) && COk(u.up, false);
    if IsRed(u.sib) {
      assert BH(u.sib) == BH(t) && BH(Blacken(u.sib)) == BH(t) + 1;
    }
  }

  lemma RecolorSame(c: Ctx, t: Tree)
    requires !c.Hole? && !c.up.Hole?
    ensures SameNodes(c, t, c.up.up, Recolored(c, t))
  {
    var p := Fill(c.(c := Black), t);
    assert Elems(p) == Elems(Fill(c, t)) && Inorder(p) == Inorder(Fill(c, t));
    assert Inorder(Blacken(c.up.sib)) == Inorder(c.up.sib) && Elems(Blacken(c.up.sib)) == Elems(c.up.sib);
    FillSame(c, t);
    FillSame(c.up, Fill(c, t));
    PlugOrder(c.up.up, Fill(c.up, Fill(c, t)), Recolored(c, t));
  }

  lemma RecolorHolds(m: Mem, root: RbNode?, c: Ctx, t: Tree)
    requires !c.Hole? && !c.up.Hole? && c.up.sib.Node? && Holds(m, root, c, t)
    ensures c.up.sib.n in m && c.n in m && c.up.n in m
    ensures Holds(Painted(Painted(Painted(m, c.up.sib.n, Black), c.n, Black), c.up.n, Red), root, c.up.up, Recolored(c, t))
  {
    FillHolds(m, root, c, t);
    PaintSib(m, root, c.up, Fill(c, t), Black);
    var m1, c1 := Painted(m, c.up.sib.n, Black), c.(up := c.up.(sib := Blacken(c.up.sib)));
    FillHolds(m1, root, c1, t);
    PaintUp(m1, root, c1, t, Black);
    var m2, c2 := Painted(m1, c1.n, Black), c1.(c := Black);
    FillHolds(m2, root, c2, t);
    PaintUp(m2, root, c2.up, Fill(c2, t), Red);
    var m3 := Painted(m2, c2.up.n, Red);
    FillHolds(m3, root, c2.up.(c := Red), Fill(c2, t));
  }

  /** Parent black, grandparent red: done in memory before the grandparent is rotated. */
  ghost function Repainted(c: Ctx): Ctx
    requires !c.Hole? && !c.up.Hole?
  {
    c.(c := Black, up := c.up.(c := Red))
  }

  lemma RepaintHolds(m: Mem, root: RbNode?, c: Ctx, t: Tree)
    requires !c.Hole? && !c.up.Hole? && Holds(m, root, c, t)
    ensures c.n in m && c.up.n in m
    ensures Holds(Painted(Painted(m, c.n, Black), c.up.n, Red), root, c.up.up, Fill(Repainted(c).up, Fill(Repainted(c), t)))
    ensures Elems(Fill(Repainted(c).up, Fill(Repainted(c), t))) + CElems(c.up.up) == Elems(t) + CElems(c)
  {
    PaintUp(m, root, c, t, Black);
    var m1, c1 := Painted(m, c.n, Black), c.(c := Black);
    FillHolds(m1, root, c1, t);
    PaintUp(m1, root, c1.up, Fill(c1, t), Red);
    var m2 := Painted(m1, c.up.n, Red);
    FillHolds(m2, root, Repainted(c).up, Fill(Repainted(c), t));
    FillHolds(m, root, c, t);
    FillHolds(m, root, c.up, Fill(c, t));
    assert Elems(Fill(Repainted(c), t)) == Elems(Fill(c, t));
  }

  /** The focus is the inner grandchild: the parent's rotation makes it the parent, with
      the old parent below it. */
  ghost function Inner(c: Ctx, t: Tree): (Ctx, Tree)
    requires !c.Hole? && t.Node?
  {
    if c.InR? then (InL(t.n, t.c, t.r, c.up), Node(c.sib, c.n, c.c, t.l))
    else (InR(t.l, t.n, t.c, c.up), Node(t.r, c.n, c.c, c.sib))
  }

  lemma InnerInserting(c: Ctx, t: Tree)
    requires Inserting(c, t) && !c.Hole? && c.c == Red
    ensures Inserting(Inner(c, t).0, Inner(c, t).1)
  {
  }

  lemma InnerSame(c: Ctx, t: Tree)
    requires !c.Hole? && t.Node?
    ensures SameNodes(c, t, Inner(c, t).0, Inner(c, t).1)
  {
    var (c', t') := Inner(c, t);
    if c.InR? {
      RotationOrder(c.sib, c.n, t.l, t.n, t.r, c.c, t.c, c.c, t.c);
      RotationElems(c.sib, c.n, t.l, t.n, t.r, c.c, t.c, c.c, t.c);
    } else {
      RotationOrder(t.l, t.n, t.r, c.n, c.sib, t.c, c.c, t.c, c.c);
      RotationElems(t.l, t.n, t.r, c.n, c.sib, t.c, c.c, t.c, c.c);
    }
    FillSame(c, t);
    FillSame(c', t');
    PlugOrder(c.up, Fill(c, t), Fill(c', t'));
  }

  /** The focus is the outer grandchild: after the repainting and the grandparent's
      rotation it has a black parent. */
  ghost function Outer(c: Ctx): Ctx
    requires !c.Hole? && !c.up.Hole?
  {
    if c.InL? then InL(c.n, Black, Node(c.sib, c.up.n, Red, c.up.sib), c.up.up)
    else InR(Node(c.up.sib, c.up.n, Red, c.sib), c.n, Black, c.up.up)
  }

  lemma OuterInserting(c: Ctx, t: Tree)
    requires Inserting(c, t) && !c.Hole? && c.c == Red && !c.up.Hole? && !IsRed(c.up.sib)
    ensures Inserting(Outer(c), t)
  {
    assert CBalanced(c.up, BH(t)) && COk(c.up, true) && c.up.c == Black;
  }

  lemma OuterSame(c: Ctx, t: Tree)
    requires !c.Hole? && !c.up.Hole? && c.InL? == c.up.InL?
    ensures SameNodes(c, t, Outer(c), t)
  {
    if c.InL? {
      RotationOrder(t, c.n, c.sib, c.up.n, c.up.sib, c.c, c.up.c, Black, Red);
      RotationElems(t, c.n, c.sib, c.up.n, c.up.sib, c.c, c.up.c, Black, Red);
    } else {
      RotationOrder(c.up.sib, c.up.n, c.sib, c.n, t, Red, Black, c.up.c, c.c);
      RotationElems(c.up.sib, c.up.n, c.sib, c.n, t, Red, Black, c.up.c, c.c);
    }
    FillSame(c, t);
    FillSame(c.up, Fill(c, t));
    FillSame(Outer(c), t);
    PlugOrder(c.up.up, Fill(c.up, Fill(c, t)), Fill(Outer(c), t));
  }

  /** What the loop of rb_insert_color reads of the parent and grandparent. */
  lemma InsertingReads(m: Mem, root: RbNode?, c: Ctx, t: Tree)
    requires Inserting(c, t) && Holds(m, root, c, t)
    ensures m[t.n].parent == ParentOf(c)
    ensures !c.Hole? ==> m[c.n].color == c.c
    ensures !c.Hole? && c.c == Red ==>
      && !c.up.Hole? && m[c.n].parent == c.up.n && c.up.n != c.n && c.up.n in m
      && (c.up.sib.Node? ==> c.up.sib.n in m)
      && (m[c.n].right == t.n <==> c.InR?) && (m[c.n].left == t.n <==> c.InL?)
      && (m[c.up.n].left == c.n <==> c.up.InL?)
      && (if c.up.InL? then m[c.up.n].right else m[c.up.n].left) == Top(c.up.sib)
      && (c.up.sib.Node? ==> m[c.up.sib.n].color == c.up.sib.c)
  {
    if !c.Hole? && c.c == Red {
      assert COk(c.up, true) && CRepr(m, root, c.up, c.n);
    }
  }

  /** Out of the loop: blackening the root leaves a red-black tree. */
  lemma InsertingDone(c: Ctx, t: Tree)
    requires Inserting(c, t) && (c.Hole? || c.c == Black)
    ensures RedBlack(Blacken(Plug(c, t)))
    ensures !c.Hole? ==> Blacken(Plug(c, t)) == Plug(c, t)
  {
    if !c.Hole? {
      PlugBalanced(c, t);
      PlugNoRedRed(c, t);
    }
  }

  // ---------- a new leaf ----------

  /** An empty slot of a valid tree, as a context. */
  lemma LeafSlot(m: Mem, root: RbNode?, c: Ctx, tree: Tree)
    requires Plug(c, Nil) == tree && Holds(m, root, Hole, tree) && RedBlack(tree)
    ensures Holds(m, root, c, Nil) && CElems(c) == Elems(tree)
    ensures CBalanced(c, 0) && COk(c, false)
    ensures Before(c) + After(c) == Inorder(tree)
  {
    HoldsPlug(m, root, c, Nil);
    PlugElems(c, Nil);
    PlugBalanced(c, Nil);
    PlugNoRedRed(c, Nil);
    PlugInorder(c, Nil);
    assert Before(c) + [] + After(c) == Before(c) + After(c);
  }

  /** rb_link_node as one change of memory. */
  ghost function Linked(m: Mem, x: RbNode, p: RbNode?, left: bool): Mem
    requires p != null ==> p in m
  {
    var m1 := m[x := Cell(p, Red, null, null)];
    if p == null || p == x then m1 else m1[p := if left then m[p].(left := x) else m[p].(right := x)]
  }

  lemma LinkHolds(m: Mem, m': Mem, root: RbNode?, root': RbNode?, c: Ctx, x: RbNode)
    requires Holds(m, root, c, Nil) && x !in CElems(c) && CElems(c) == m.Keys
    requires m' == Linked(m, x, ParentOf(c), c.InL?)
    requires root' == (if c.Hole? then x else root)
    ensures Holds(m', root', c, Node(Nil, x, Red, Nil))
  {
    if !c.Hole? {
      ReprFrame(m, m', c.sib, c.n);
      CReprFrame(m, m', root, c.up, c.n);
    }
  }
}
