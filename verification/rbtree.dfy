/** lib/rbtree.c: the operations on a tree. */
module RbTree {
  import opened Basics
  import opened RbErase
  import opened RbInsert
  import opened RbNodes
  import opened RbOrder
  import opened RbSteps

  class RbRoot {
    var rb_node: RbNode?
    /** The nodes in the tree, and the tree they form. */
    ghost var pool: set<RbNode>
    ghost var tree: Tree

    constructor ()
      ensures rb_node == null && pool == {} && tree == Nil
    {
      rb_node, pool, tree := null, {}, Nil;
    }

    ghost function Memory(): (m: Mem)
      reads `pool, pool
      ensures m.Keys == pool
    {
      Cells(pool)
    }

    /** The heap holds `t` inside `c`, and these are all the nodes. */
    ghost predicate At(c: Ctx, t: Tree)
      reads `pool, pool, `rb_node
    {
      pool == Elems(t) + CElems(c) && Holds(Memory(), rb_node, c, t)
    }

    ghost predicate Valid()
      reads `pool, pool, `rb_node, `tree
    {
      pool == Elems(tree) && Holds(Memory(), rb_node, Hole, tree) && RedBlack(tree)
    }

    /** The nodes in order. */
    ghost function Nodes(): seq<RbNode>
      reads `tree
    {
      Inorder(tree)
    }

    /** rb_set_red, rb_set_black and rb_set_color of include/linux/rbtree.h:21-32 */
    method SetColor(n: RbNode, k: Color)
      requires n in pool
      modifies n`color
      ensures Memory() == Painted(old(Memory()), n, k)
    {
      n.color := k;
    }

    /** lib/rbtree.c:4-25 */
    method RotateLeft(node: RbNode)
      requires node in pool
      requires Rotatable(Memory(), node, node.right, if node.right == null then null else node.right.left, node.parent)
      modifies `rb_node, pool
      ensures RotatedLeft(old(Memory()), Memory(), old(rb_node), rb_node, node)
    {
      var right := node.right;
      var parent := node.parent;
      node.right := right.left;
      if node.right != null {
        right.left.parent := node;
      }
      right.left := node;
      right.parent := parent;
      if parent != null {
        if node == parent.left {
          parent.left := right;
        } else {
          parent.right := right;
        }
      } else {
        rb_node := right;
      }
      node.parent := right;
    }

    /** lib/rbtree.c:27-48 */
    method RotateRight(node: RbNode)
      requires node in pool
      requires Rotatable(Memory(), node, node.left, if node.left == null then null else node.left.right, node.parent)
      requires node.parent != null ==> (node.parent.right == node <==> node.parent.left != node)
      modifies `rb_node, pool
      ensures RotatedRight(old(Memory()), Memory(), old(rb_node), rb_node, node)
    {
      var left := node.left;
      var parent := node.parent;
      node.left := left.right;
      if node.left != null {
        left.right.parent := node;
      }
      left.right := node;
      left.parent := parent;
      if parent != null {
        if node == parent.right {
          parent.right := left;
        } else {
          parent.left := left;
        }
      } else {
        rb_node := left;
      }
      node.parent := left;
    }

    /** The recolouring branch: lib/rbtree.c:60-70 and lib/rbtree.c:85-95 */
    method RecolorFamily(uncle: RbNode, parent: RbNode, gparent: RbNode, ghost c: Ctx, ghost t: Tree)
      requires Inserting(c, t) && At(c, t) && !c.Hole? && c.c == Red && !c.up.Hole? && IsRed(c.up.sib)
      requires uncle == c.up.sib.n && parent == c.n && gparent == c.up.n
      modifies pool
      ensures At(c.up.up, Recolored(c, t)) && Inserting(c.up.up, Recolored(c, t))
      ensures SameNodes(c, t, c.up.up, Recolored(c, t))
    {
      ghost var m := Memory();
      RecolorHolds(m, rb_node, c, t);
      RecolorInserting(c, t);
      RecolorSame(c, t);
      SetColor(uncle, Black);
      SetColor(parent, Black);
      SetColor(gparent, Red);
    }

    /** The rotating branch under a left parent: lib/rbtree.c:72-83 */
    method RotateFamilyLeft(node: RbNode, parent0: RbNode, gparent: RbNode, ghost c0: Ctx, ghost t0: Tree)
        returns (node': RbNode, ghost c': Ctx, ghost t': Tree)
      requires Inserting(c0, t0) && At(c0, t0)
      requires !c0.Hole? && c0.c == Red && c0.up.InL? && !IsRed(c0.up.sib)
      requires node == t0.n && parent0 == c0.n && gparent == c0.up.n
      modifies `rb_node, pool
      ensures IsRed(t') && node' == t'.n && At(c', t') && Inserting(c', t') && SameNodes(c0, t0, c', t')
      ensures c'.InL? && c'.c == Black && c'.up == c0.up.up
    {
      var parent := parent0;
      node', c', t' := node, c0, t0;
      InsertingReads(Memory(), rb_node, c0, t0);
      if parent.right == node {
        c', t' := TurnInnerLeft(parent, c0, t0);
        var tmp := parent;
        parent := node;
        node' := tmp;
      }
      c' := TurnOuterRight(parent, gparent, c', t');
    }

    /** lib/rbtree.c:74-78 */
    method TurnInnerLeft(parent: RbNode, ghost c: Ctx, ghost t: Tree) returns (ghost c': Ctx, ghost t': Tree)
      requires Inserting(c, t) && At(c, t) && c.InR? && c.c == Red && parent == c.n
      modifies `rb_node, pool
      ensures (c', t') == Inner(c, t)
      ensures At(c', t') && Inserting(c', t') && SameNodes(c, t, c', t')
    {
      ghost var m, root := Memory(), rb_node;
      c', t' := Inner(c, t).0, Inner(c, t).1;
      FillHolds(m, root, c, t);
      RotateLeftSafe(m, root, c.up, Fill(c, t));
      RotateLeft(parent);
      RotateLeftHolds(m, Memory(), root, rb_node, c.up, Fill(c, t));
      FillHolds(Memory(), rb_node, c', t');
      InnerInserting(c, t);
      InnerSame(c, t);
    }

    /** lib/rbtree.c:81-83 */
    method TurnOuterRight(parent: RbNode, gparent: RbNode, ghost c: Ctx, ghost t: Tree) returns (ghost c': Ctx)
      requires Inserting(c, t) && At(c, t) && c.InL? && c.c == Red && c.up.InL? && !IsRed(c.up.sib)
      requires parent == c.n && gparent == c.up.n
      modifies `rb_node, pool
      ensures c' == Outer(c)
      ensures At(c', t) && Inserting(c', t) && SameNodes(c, t, c', t)
    {
      ghost var m, root := Memory(), rb_node;
      RepaintHolds(m, root, c, t);
      SetColor(parent, Black);
      SetColor(gparent, Red);
      ghost var m1, g := Memory(), Fill(Repainted(c).up, Fill(Repainted(c), t));
      RotateRightSafe(m1, root, c.up.up, g);
      RotateRight(gparent);
      RotateRightHolds(m1, Memory(), root, rb_node, c.up.up, g);
      c' := Outer(c);
      FillHolds(Memory(), rb_node, c', t);
      OuterInserting(c, t);
      OuterSame(c, t);
    }

    /** The rotating branch under a right parent: lib/rbtree.c:97-108 */
    method RotateFamilyRight(node: RbNode, parent0: RbNode, gparent: RbNode, ghost c0: Ctx, ghost t0: Tree)
        returns (node': RbNode, ghost c': Ctx, ghost t': Tree)
      requires Inserting(c0, t0) && At(c0, t0)
      requires !c0.Hole? && c0.c == Red && c0.up.InR? && !IsRed(c0.up.sib)
      requires node == t0.n && parent0 == c0.n && gparent == c0.up.n
      modifies `rb_node, pool
      ensures IsRed(t') && node' == t'.n && At(c', t') && Inserting(c', t') && SameNodes(c0, t0, c', t')
      ensures c'.InR? && c'.c == Black && c'.up == c0.up.up
    {
      var parent := parent0;
      node', c', t' := node, c0, t0;
      InsertingReads(Memory(), rb_node, c0, t0);
      if parent.left == node {
        c', t' := TurnInnerRight(parent, c0, t0);
        var tmp := parent;
        parent := node;
        node' := tmp;
      }
      c' := TurnOuterLeft(parent, gparent, c', t');
    }

    /** lib/rbtree.c:99-103 */
    method TurnInnerRight(parent: RbNode, ghost c: Ctx, ghost t: Tree) returns (ghost c': Ctx, ghost t': Tree)
      requires Inserting(c, t) && At(c, t) && c.InL? && c.c == Red && parent == c.n
      modifies `rb_node, pool
      ensures (c', t') == Inner(c, t)
      ensures At(c', t') && Inserting(c', t') && SameNodes(c, t, c', t')
    {
      ghost var m, root := Memory(), rb_node;
      c', t' := Inner(c, t).0, Inner(c, t).1;
      FillHolds(m, root, c, t);
      RotateRightSafe(m, root, c.up, Fill(c, t));
      RotateRight(parent);
      RotateRightHolds(m, Memory(), root, rb_node, c.up, Fill(c, t));
      FillHolds(Memory(), rb_node, c', t');
      InnerInserting(c, t);
      InnerSame(c, t);
    }

    /** lib/rbtree.c:106-108 */
    method TurnOuterLeft(parent: RbNode, gparent: RbNode, ghost c: Ctx, ghost t: Tree) returns (ghost c': Ctx)
      requires Inserting(c, t) && At(c, t) && c.InR? && c.c == Red && c.up.InR? && !IsRed(c.up.sib)
      requires parent == c.n && gparent == c.up.n
      modifies `rb_node, pool
      ensures c' == Outer(c)
      ensures At(c', t) && Inserting(c', t) && SameNodes(c, t, c', t)
    {
      ghost var m, root := Memory(), rb_node;
      RepaintHolds(m, root, c, t);
      SetColor(parent, Black);
      SetColor(gparent, Red);
      ghost var m1, g := Memory(), Fill(Repainted(c).up, Fill(Repainted(c), t));
      RotateLeftSafe(m1, root, c.up.up, g);
      RotateLeft(gparent);
      RotateLeftHolds(m1, Memory(), root, rb_node, c.up.up, g);
      c' := Outer(c);
      FillHolds(Memory(), rb_node, c', t);
      OuterInserting(c, t);
      OuterSame(c, t);
    }

    /** lib/rbtree.c:50-113 */
    method InsertColor(node0: RbNode, ghost c0: Ctx, ghost t0: Tree)
      requires t0.Node? && t0.n == node0 && At(c0, t0) && Inserting(c0, t0)
      modifies `rb_node, `tree, pool
      ensures Valid() && Nodes() == Inorder(Plug(c0, t0))
    {
      var node := node0;
      ghost var c, t := c0, t0;
      InsertingReads(Memory(), rb_node, c, t);
      while node.parent != null && node.parent.color == Red
        invariant At(c, t) && IsRed(t) && t.n == node
        invariant Inserting(c, t)
        invariant SameNodes(c0, t0, c, t)
        invariant node.parent == ParentOf(c) && (!c.Hole? ==> c.n.color == c.c)
        decreases Depth(c)
      {
        node, c, t := InsertStep(node, node.parent, c, t);
      }
      InsertingDone(c, t);
      BlackenRoot(c, t);
    }

    /** The loop body: lib/rbtree.c:56-109 */
    method InsertStep(node: RbNode, parent: RbNode, ghost c: Ctx, ghost t: Tree)
        returns (node': RbNode, ghost c': Ctx, ghost t': Tree)
      requires Inserting(c, t) && At(c, t) && !c.Hole? && c.c == Red && node == t.n && parent == c.n
      modifies `rb_node, pool
      ensures At(c', t') && Inserting(c', t') && node' == t'.n && SameNodes(c, t, c', t')
      ensures node'.parent == ParentOf(c') && (!c'.Hole? ==> c'.n.color == c'.c)
      ensures Depth(c') < Depth(c)
    {
      InsertingReads(Memory(), rb_node, c, t);
      var gparent := parent.parent;
      if parent == gparent.left {
        var uncle := gparent.right;
        if uncle != null && uncle.color == Red {
          RecolorFamily(uncle, parent, gparent, c, t);
          node', c', t' := gparent, c.up.up, Recolored(c, t);
        } else {
          node', c', t' := RotateFamilyLeft(node, parent, gparent, c, t);
        }
      } else {
        var uncle := gparent.left;
        if uncle != null && uncle.color == Red {
          RecolorFamily(uncle, parent, gparent, c, t);
          node', c', t' := gparent, c.up.up, Recolored(c, t);
        } else {
          node', c', t' := RotateFamilyRight(node, parent, gparent, c, t);
        }
      }
      InsertingReads(Memory(), rb_node, c', t');
    }

    /** lib/rbtree.c:112 */
    method BlackenRoot(ghost c: Ctx, ghost t: Tree)
      requires t.Node? && At(c, t) && RedBlack(Blacken(Plug(c, t)))
      modifies `tree, pool
      ensures Valid() && Nodes() == Inorder(Plug(c, t))
    {
      PlugElems(c, t);
      HoldsPlug(Memory(), rb_node, c, t);
      PaintHolds(Memory(), rb_node, Hole, Plug(c, t), Black);
      SetColor(rb_node, Black);
      tree := Blacken(Plug(c, t));
    }

    /** Red sibling on the right: lib/rbtree.c:125-130 */
    method LowerLeft(other: RbNode, parent: RbNode, ghost c: Ctx, ghost t: Tree)
      requires Short(c, t) && At(c, t) && c.InL? && IsRed(c.sib) && other == c.sib.n && parent == c.n
      modifies `rb_node, pool
      ensures Lowered(c).sib.Node? && !IsRed(Lowered(c).sib) && At(Lowered(c), t) && Short(Lowered(c), t)
      ensures SameNodes(c, t, Lowered(c), t)
    {
      ghost var m, root := Memory(), rb_node;
      PaintSib(m, root, c, t, Black);
      SetColor(other, Black);
      ghost var c1 := WithSib(c, c.sib.(c := Black));
      PaintUp(Memory(), root, c1, t, Red);
      SetColor(parent, Red);
      ghost var m2, c2, d := Memory(), WithColor(c1, Red), Lowered(c);
      FillHolds(m2, root, c2, t);
      RotateLeftSafe(m2, root, c.up, Fill(c2, t));
      RotateLeft(parent);
      RotateLeftHolds(m2, Memory(), root, rb_node, c.up, Fill(c2, t));
      FillHolds(Memory(), rb_node, d.up, Fill(d, t));
      FillHolds(Memory(), rb_node, d, t);
      LoweredShort(c, t);
      LoweredSame(c, t);
    }

    /** Red sibling on the left: lib/rbtree.c:159-165 */
    method LowerRight(other: RbNode, parent: RbNode, ghost c: Ctx, ghost t: Tree)
      requires Short(c, t) && At(c, t) && c.InR? && IsRed(c.sib) && other == c.sib.n && parent == c.n
      modifies `rb_node, pool
      ensures Lowered(c).sib.Node? && !IsRed(Lowered(c).sib) && At(Lowered(c), t) && Short(Lowered(c), t)
      ensures SameNodes(c, t, Lowered(c), t)
    {
      ghost var m, root := Memory(), rb_node;
      PaintSib(m, root, c, t, Black);
      SetColor(other, Black);
      ghost var c1 := WithSib(c, c.sib.(c := Black));
      PaintUp(Memory(), root, c1, t, Red);
      SetColor(parent, Red);
      ghost var m2, c2, d := Memory(), WithColor(c1, Red), Lowered(c);
      FillHolds(m2, root, c2, t);
      RotateRightSafe(m2, root, c.up, Fill(c2, t));
      RotateRight(parent);
      RotateRightHolds(m2, Memory(), root, rb_node, c.up, Fill(c2, t));
      FillHolds(Memory(), rb_node, d.up, Fill(d, t));
      FillHolds(Memory(), rb_node, d, t);
      LoweredShort(c, t);
      LoweredSame(c, t);
    }

    /** lib/rbtree.c:135-137 and lib/rbtree.c:169-171 */
    method Raise(other: RbNode, ghost c: Ctx, ghost t: Tree)
      requires Short(c, t) && At(c, t) && !IsRed(t) && !c.Hole? && c.sib.Node? && !IsRed(c.sib)
      requires !IsRed(Near(c)) && !IsRed(Far(c)) && other == c.sib.n
      modifies pool
      ensures At(c.up, Raised(c, t)) && Short(c.up, Raised(c, t)) && SameNodes(c, t, c.up, Raised(c, t))
      ensures Top(Raised(c, t)) == c.n && c.n.parent == ParentOf(c.up)
    {
      PaintSib(Memory(), rb_node, c, t, Red);
      SetColor(other, Red);
      FillHolds(Memory(), rb_node, WithSib(c, c.sib.(c := Red)), t);
      RaisedShort(c, t);
      RaisedSame(c, t);
    }

    /** lib/rbtree.c:143-146 */
    method StraightenLeft(other: RbNode, ghost c: Ctx, ghost t: Tree)
      requires Short(c, t) && At(c, t) && c.InL? && c.sib.Node? && !IsRed(c.sib) && IsRed(Near(c)) && !IsRed(Far(c))
      requires other == c.sib.n
      modifies `rb_node, pool
      ensures At(Straightened(c), t) && Short(Straightened(c), t) && SameNodes(c, t, Straightened(c), t)
      ensures IsRed(Far(Straightened(c)))
    {
      ghost var m, root := Memory(), rb_node;
      ShortReads(m, root, c, t);
      PaintNear(m, root, c, t, Black);
      SetColor(other.left, Black);
      ghost var c1 := WithSib(c, SibNode(c, Near(c).(c := Black), c.sib.n, c.sib.c, Far(c)));
      PaintSib(Memory(), root, c1, t, Red);
      SetColor(other, Red);
      ghost var m2, c2 := Memory(), WithSib(c1, c1.sib.(c := Red));
      SibHolds(m2, root, c2, t);
      RotateRightSafe(m2, root, Flip(c, t), c2.sib);
      RotateRight(other);
      RotateRightHolds(m2, Memory(), root, rb_node, Flip(c, t), c2.sib);
      SibHolds(Memory(), rb_node, Straightened(c), t);
      StraightenedShort(c, t);
      StraightenedSame(c, t);
    }

    /** lib/rbtree.c:177-180 */
    method StraightenRight(other: RbNode, ghost c: Ctx, ghost t: Tree)
      requires Short(c, t) && At(c, t) && c.InR? && c.sib.Node? && !IsRed(c.sib) && IsRed(Near(c)) && !IsRed(Far(c))
      requires other == c.sib.n
      modifies `rb_node, pool
      ensures At(Straightened(c), t) && Short(Straightened(c), t) && SameNodes(c, t, Straightened(c), t)
      ensures IsRed(Far(Straightened(c)))
    {
      ghost var m, root := Memory(), rb_node;
      ShortReads(m, root, c, t);
      PaintNear(m, root, c, t, Black);
      SetColor(other.right, Black);
      ghost var c1 := WithSib(c, SibNode(c, Near(c).(c := Black), c.sib.n, c.sib.c, Far(c)));
      PaintSib(Memory(), root, c1, t, Red);
      SetColor(other, Red);
      ghost var m2, c2 := Memory(), WithSib(c1, c1.sib.(c := Red));
      SibHolds(m2, root, c2, t);
      RotateLeftSafe(m2, root, Flip(c, t), c2.sib);
      RotateLeft(other);
      RotateLeftHolds(m2, Memory(), root, rb_node, Flip(c, t), c2.sib);
      SibHolds(Memory(), rb_node, Straightened(c), t);
      StraightenedShort(c, t);
      StraightenedSame(c, t);
    }

    /** The successor takes the place of `x`: lib/rbtree.c:212-237 */
    method TakePlace(x: RbNode, node: RbNode) returns (child: RbNode?, parent: RbNode?, color: Color)
      requires x in pool && node in pool && Spliceable(Memory(), x, node)
      modifies `rb_node, `pool, pool
      ensures pool == old(pool) - {x}
      ensures Spliced(old(Memory()), Memory(), old(rb_node), rb_node, x, node)
      ensures child == old(node.right) && color == old(node.color)
      ensures parent == if old(node.parent) == x then node else old(node.parent)
    {
      if x.parent != null {
        if x.parent.left == x {
          x.parent.left := node;
        } else {
          x.parent.right := node;
        }
      } else {
        rb_node := node;
      }
      child := node.right;
      parent := node.parent;
      color := node.color;
      if parent == x {
        parent := node;
      } else {
        if child != null {
          child.parent := parent;
        }
        parent.left := child;
        node.right := x.right;
        x.right.parent := node;
      }
      node.parent, node.color := x.parent, x.color;
      node.left := x.left;
      x.left.parent := node;
      pool := pool - {x};
    }

    /** lib/rbtree.c:148-151 */
    method SettleLeft(other: RbNode, parent: RbNode, ghost c: Ctx, ghost t: Tree)
      requires Short(c, t) && At(c, t) && !IsRed(t)
      requires c.InL? && c.sib.Node? && !IsRed(c.sib) && IsRed(Far(c)) && other == c.sib.n && parent == c.n
      modifies `rb_node, pool
      ensures At(Hole, Plug(c.up, Settled(c, t))) && Short(Hole, Plug(c.up, Settled(c, t)))
      ensures rb_node == Top(Plug(c.up, Settled(c, t)))
      ensures SameNodes(c, t, Hole, Plug(c.up, Settled(c, t)))
    {
      ghost var m, root := Memory(), rb_node;
      ShortReads(m, root, c, t);
      PaintSib(m, root, c, t, c.c);
      SetColor(other, parent.color);
      ghost var c1 := WithSib(c, c.sib.(c := c.c));
      PaintUp(Memory(), root, c1, t, Black);
      SetColor(parent, Black);
      ghost var c2 := WithColor(c1, Black);
      PaintFar(Memory(), root, c2, t, Black);
      SetColor(other.right, Black);
      ghost var m3, c3 := Memory(), WithSib(c2, SibNode(c2, Near(c2), other, c.c, Far(c2).(c := Black)));
      FillHolds(m3, root, c3, t);
      RotateLeftSafe(m3, root, c.up, Fill(c3, t));
      RotateLeft(parent);
      RotateLeftHolds(m3, Memory(), root, rb_node, c.up, Fill(c3, t));
      SettleWhole(Memory(), rb_node, c, t);
    }

    /** lib/rbtree.c:182-185 */
    method SettleRight(other: RbNode, parent: RbNode, ghost c: Ctx, ghost t: Tree)
      requires Short(c, t) && At(c, t) && !IsRed(t)
      requires c.InR? && c.sib.Node? && !IsRed(c.sib) && IsRed(Far(c)) && other == c.sib.n && parent == c.n
      modifies `rb_node, pool
      ensures At(Hole, Plug(c.up, Settled(c, t))) && Short(Hole, Plug(c.up, Settled(c, t)))
      ensures rb_node == Top(Plug(c.up, Settled(c, t)))
      ensures SameNodes(c, t, Hole, Plug(c.up, Settled(c, t)))
    {
      ghost var m, root := Memory(), rb_node;
      ShortReads(m, root, c, t);
      PaintSib(m, root, c, t, c.c);
      SetColor(other, parent.color);
      ghost var c1 := WithSib(c, c.sib.(c := c.c));
      PaintUp(Memory(), root, c1, t, Black);
      SetColor(parent, Black);
      ghost var c2 := WithColor(c1, Black);
      PaintFar(Memory(), root, c2, t, Black);
      SetColor(other.left, Black);
      ghost var m3, c3 := Memory(), WithSib(c2, SibNode(c2, Near(c2), other, c.c, Far(c2).(c := Black)));
      FillHolds(m3, root, c3, t);
      RotateRightSafe(m3, root, c.up, Fill(c3, t));
      RotateRight(parent);
      RotateRightHolds(m3, Memory(), root, rb_node, c.up, Fill(c3, t));
      SettleWhole(Memory(), rb_node, c, t);
    }

    /** The loop body under a left child once the sibling is black: lib/rbtree.c:132-154 */
    method RepairLeft(other0: RbNode, parent: RbNode, ghost c: Ctx, ghost t: Tree)
        returns (node': RbNode?, parent': RbNode?, done: bool, ghost c': Ctx, ghost t': Tree)
      requires Short(c, t) && At(c, t) && !IsRed(t) && c.InL? && c.sib.Node? && !IsRed(c.sib)
      requires parent == c.n && other0 == c.sib.n
      modifies `rb_node, pool
      ensures At(c', t') && Short(c', t') && SameNodes(c, t, c', t') && node' == Top(t')
      ensures if done then c'.Hole? else parent' == ParentOf(c')
      ensures done || (c' == c.up && t' == Raised(c, t))
    {
      hide Short, Repr, CRepr, Distinct, CDistinct, RedBlack, Plug;
      var other := other0;
      c', t', done, parent' := c, t, false, parent;
      ShortReads(Memory(), rb_node, c, t);
      if (other.left == null || other.left.color == Black) && (other.right == null || other.right.color == Black) {
        Raise(other, c, t);
        node' := parent;
        c', t' := c.up, Raised(c, t);
        parent' := node'.parent;
      } else {
        if other.right == null || other.right.color == Black {
          StraightenLeft(other, c, t);
          c' := Straightened(c);
          ShortReads(Memory(), rb_node, c', t);
          other := parent.right;
        }
        SettleLeft(other, parent, c', t);
        c', t' := Hole, Plug(c'.up, Settled(c', t));
        node', done := rb_node, true;
      }
    }

    /** The loop body under a left child: lib/rbtree.c:124-154 */
    method EraseStepLeft(parent: RbNode, ghost c: Ctx, ghost t: Tree)
        returns (node': RbNode?, parent': RbNode?, done: bool, ghost c': Ctx, ghost t': Tree)
      requires Short(c, t) && At(c, t) && !IsRed(t) && c.InL? && parent == c.n
      modifies `rb_node, pool
      ensures At(c', t') && Short(c', t') && SameNodes(c, t, c', t') && node' == Top(t')
      ensures if done then c'.Hole? else parent' == ParentOf(c') && ErasingRank(c', t') < ErasingRank(c, t)
    {
      ghost var d := c;
      ShortSibling(c, t);
      ShortReads(Memory(), rb_node, c, t);
      var other := parent.right;
      if other.color == Red {
        LowerLeft(other, parent, c, t);
        d := Lowered(c);
        ShortReads(Memory(), rb_node, d, t);
        other := parent.right;
      }
      RaisedRank(c, d, t);
      node', parent', done, c', t' := RepairLeft(other, parent, d, t);
    }

    /** The loop body under a right child once the sibling is black: lib/rbtree.c:166-188 */
    method RepairRight(other0: RbNode, parent: RbNode, ghost c: Ctx, ghost t: Tree)
        returns (node': RbNode?, parent': RbNode?, done: bool, ghost c': Ctx, ghost t': Tree)
      requires Short(c, t) && At(c, t) && !IsRed(t) && c.InR? && c.sib.Node? && !IsRed(c.sib)
      requires parent == c.n && other0 == c.sib.n
      modifies `rb_node, pool
      ensures At(c', t') && Short(c', t') && SameNodes(c, t, c', t') && node' == Top(t')
      ensures if done then c'.Hole? else parent' == ParentOf(c')
      ensures done || (c' == c.up && t' == Raised(c, t))
    {
      hide Short, Repr, CRepr, Distinct, CDistinct, RedBlack, Plug;
      var other := other0;
      c', t', done, parent' := c, t, false, parent;
      ShortReads(Memory(), rb_node, c, t);
      if (other.left == null || other.left.color == Black) && (other.right == null || other.right.color == Black) {
        Raise(other, c, t);
        node' := parent;
        c', t' := c.up, Raised(c, t);
        parent' := node'.parent;
      } else {
        if other.left == null || other.left.color == Black {
          StraightenRight(other, c, t);
          c' := Straightened(c);
          ShortReads(Memory(), rb_node, c', t);
          other := parent.left;
        }
        SettleRight(other, parent, c', t);
        c', t' := Hole, Plug(c'.up, Settled(c', t));
        node', done := rb_node, true;
      }
    }

    /** The loop body under a right child: lib/rbtree.c:158-188 */
    method EraseStepRight(parent: RbNode, ghost c: Ctx, ghost t: Tree)
        returns (node': RbNode?, parent': RbNode?, done: bool, ghost c': Ctx, ghost t': Tree)
      requires Short(c, t) && At(c, t) && !IsRed(t) && c.InR? && parent == c.n
      modifies `rb_node, pool
      ensures At(c', t') && Short(c', t') && SameNodes(c, t, c', t') && node' == Top(t')
      ensures if done then c'.Hole? else parent' == ParentOf(c') && ErasingRank(c', t') < ErasingRank(c, t)
    {
      ghost var d := c;
      ShortSibling(c, t);
      ShortReads(Memory(), rb_node, c, t);
      var other := parent.left;
      if other.color == Red {
        LowerRight(other, parent, c, t);
        d := Lowered(c);
        ShortReads(Memory(), rb_node, d, t);
        other := parent.left;
      }
      RaisedRank(c, d, t);
      node', parent', done, c', t' := RepairRight(other, parent, d, t);
    }

    /** lib/rbtree.c:115-193 */
    method EraseColor(node0: RbNode?, parent0: RbNode?, ghost c0: Ctx, ghost t0: Tree)
      requires At(c0, t0) && Short(c0, t0) && node0 == Top(t0) && parent0 == ParentOf(c0)
      modifies `rb_node, `tree, pool
      ensures Valid() && Nodes() == Inorder(Plug(c0, t0))
    {
      var node, parent := node0, parent0;
      ghost var c, t := c0, t0;
      ErasingReads(Memory(), rb_node, c, t);
      while (node == null || node.color == Black) && node != rb_node
        invariant At(c, t) && Short(c, t) && SameNodes(c0, t0, c, t)
        invariant node == Top(t) && parent == ParentOf(c)
        invariant node != null ==> node.color == t.c
        invariant node == rb_node <==> c.Hole?
        invariant c.InL? ==> c.n.left == node
        invariant c.InR? ==> c.n.left != node
        decreases ErasingRank(c, t)
      {
        var done;
        if parent.left == node {
          node, parent, done, c, t := EraseStepLeft(parent, c, t);
        } else {
          node, parent, done, c, t := EraseStepRight(parent, c, t);
        }
        ErasingReads(Memory(), rb_node, c, t);
        if done {
          break;
        }
      }
      ShortDone(c, t);
      BlackenFocus(node, c, t);
    }

    /** lib/rbtree.c:191-192 */
    method BlackenFocus(node: RbNode?, ghost c: Ctx, ghost t: Tree)
      requires At(c, t) && node == Top(t)
      requires RedBlack(Plug(c, Blacken(t))) && Elems(Plug(c, Blacken(t))) == Elems(t) + CElems(c)
      modifies `tree, pool
      ensures Valid() && tree == Plug(c, Blacken(t))
    {
      if node != null {
        PaintHolds(Memory(), rb_node, c, t, Black);
        SetColor(node, Black);
      }
      HoldsPlug(Memory(), rb_node, c, Blacken(t));
      tree := Plug(c, Blacken(t));
    }

    /** lib/rbtree.c:257-259 */
    method FinishErase(child: RbNode?, parent: RbNode?, color: Color, ghost c: Ctx, ghost t: Tree)
      requires At(c, t) && TakenOut(c, t, color) && child == Top(t) && parent == ParentOf(c)
      modifies `rb_node, `tree, pool
      ensures Valid() && Nodes() == Inorder(Plug(c, t))
    {
      if color == Black {
        EraseColor(child, parent, c, t);
      } else {
        tree := Plug(c, t);
        PlugElems(c, t);
        HoldsPlug(Memory(), rb_node, c, t);
      }
    }

    /** The child takes the place of the node: lib/rbtree.c:242-255 */
    method Bypass(node: RbNode, child: RbNode?) returns (parent: RbNode?, color: Color)
      requires node in pool && Bypassable(Memory(), node, child)
      modifies `rb_node, `pool, pool
      ensures pool == old(pool) - {node} && parent == old(node.parent) && color == old(node.color)
      ensures Unlinked(old(Memory()), Memory(), old(rb_node), rb_node, node, child)
    {
      parent := node.parent;
      color := node.color;
      if child != null {
        child.parent := parent;
      }
      if parent != null {
        if parent.left == node {
          parent.left := child;
        } else {
          parent.right := child;
        }
      } else {
        rb_node := child;
      }
      pool := pool - {node};
    }

    /** The node has at most one child: lib/rbtree.c:242-259 */
    method EraseOne(node: RbNode, child: RbNode?, ghost c: Ctx, ghost t: Tree, ghost ch: Tree)
      requires At(c, t) && t.Node? && t.n == node && child == Top(ch) && TakenOut(c, ch, t.c)
      requires (t.l.Nil? && ch == t.r) || (t.r.Nil? && ch == t.l)
      modifies `rb_node, `pool, `tree, pool
      ensures pool == old(pool) - {node}
      ensures Valid() && Nodes() == Without(Inorder(Plug(c, t)), node)
    {
      ghost var m, root := Memory(), rb_node;
      UnlinkSafe(m, root, c, t, ch);
      var parent, color := Bypass(node, child);
      UnlinkHolds(m, Memory(), root, rb_node, c, t, ch);
      UnlinkOrder(c, t, ch);
      FinishErase(child, parent, color, c, ch);
    }

    /** The leftmost node of the right subtree: lib/rbtree.c:208-210 */
    method Successor(x: RbNode, ghost c: Ctx, ghost t: Tree)
        returns (node: RbNode, ghost seg: Ctx, ghost ts: Tree)
      requires At(c, t) && t.Node? && t.n == x && t.r.Node?
      ensures AllLeft(seg) && ts.Node? && ts.n == node && ts.l.Nil?
      ensures At(Append(seg, InR(t.l, x, t.c, c)), ts)
      ensures Plug(Append(seg, InR(t.l, x, t.c, c)), ts) == Plug(c, t)
      ensures node == FirstOf(Inorder(t.r))
    {
      ghost var o := InR(t.l, x, t.c, c);
      seg, ts := Hole, t.r;
      FillHolds(Memory(), rb_node, o, ts);
      node := x.right;
      while node.left != null
        invariant AllLeft(seg) && ts.Node? && ts.n == node
        invariant At(Append(seg, o), ts)
        invariant Plug(Append(seg, o), ts) == Plug(c, t) && Plug(seg, ts) == t.r
        invariant node.left == Top(ts.l)
        decreases ts
      {
        node := node.left;
        seg, ts := InL(ts.n, ts.c, ts.r, seg), ts.l;
        FillHolds(Memory(), rb_node, Append(seg, o), ts);
      }
      SuccessorFirst(seg, node, ts.c, ts.r);
    }

    /** The node has two children: lib/rbtree.c:206-239 */
    method EraseTwo(x: RbNode, ghost c: Ctx, ghost t: Tree)
      requires At(c, t) && t.Node? && t.n == x && t.l.Node? && t.r.Node? && RedBlack(Plug(c, t))
      modifies `rb_node, `pool, `tree, pool
      ensures pool == old(pool) - {x}
      ensures Valid() && Nodes() == Without(Inorder(Plug(c, t)), x)
    {
      var node, seg, ts := Successor(x, c, t);
      ghost var m, root := Memory(), rb_node;
      ghost var c' := Append(seg, InR(t.l, node, t.c, c));
      SpliceReady(m, root, seg, t.l, x, t.c, c, node, ts.c, ts.r);
      var child, parent, color := TakePlace(x, node);
      SpliceHolds(m, Memory(), root, rb_node, seg, t.l, x, t.c, c, node, ts.c, ts.r);
      FinishErase(child, parent, color, c', ts.r);
    }

    /** lib/rbtree.c:195-260 */
    method Erase(node: RbNode)
      requires Valid() && node in pool
      modifies `rb_node, `pool, `tree, pool
      ensures Valid() && pool == old(pool) - {node}
      ensures Nodes() == Without(old(Nodes()), node)
    {
      ghost var c, t := Focus(node);
      if node.left == null {
        TakenOutOne(c, t, t.r);
        EraseOne(node, node.right, c, t, t.r);
      } else if node.right == null {
        TakenOutOne(c, t, t.l);
        EraseOne(node, node.left, c, t, t.l);
      } else {
        EraseTwo(node, c, t);
      }
    }

    /** A valid tree, seen from one of its nodes. */
    lemma Focus(x: RbNode) returns (c: Ctx, t: Tree)
      requires Valid() && x in pool
      ensures Plug(c, t) == tree && t.Node? && t.n == x && At(c, t)
      ensures Balanced(t) && CBalanced(c, BH(t)) && NoRedRed(t) && COk(c, IsRed(t))
    {
      c, t := Locate(Hole, tree, x);
      PlugElems(c, t);
      HoldsPlug(Memory(), rb_node, c, t);
      PlugBalanced(c, t);
      PlugNoRedRed(c, t);
    }

    /** The positions of the nodes at and below `x`. */
    ghost function SpanOf(x: RbNode): (nat, nat)
      reads `tree
    {
      Span(tree, 0, x)
    }

    lemma NilOrder()
      ensures Inorder(Nil) == []
    {
    }

    /** What a walk down the tree may rely on: where `x` and its children stand. */
    lemma Children(x: RbNode) returns (mid: nat)
      requires Valid() && x in pool
      ensures SpanOf(x).0 <= mid < SpanOf(x).1 <= |Nodes()| && Nodes()[mid] == x
      ensures x.left == null ==> mid == SpanOf(x).0
      ensures x.right == null ==> mid + 1 == SpanOf(x).1
      ensures x.left != null ==> x.left in pool && SpanOf(x.left) == (SpanOf(x).0, mid)
      ensures x.right != null ==> x.right in pool && SpanOf(x.right) == (mid + 1, SpanOf(x).1)
    {
      hide Inorder, Span, Plug, RbRoot.Valid, Balanced, NoRedRed, CBalanced, COk, CRepr, Distinct, CDistinct;
      var c, t := Focus(x);
      NilOrder();
      mid := |Before(c)| + |Inorder(t.l)|;
      Stretch(c, t, mid);
      SpanKids(t, Lo(c));
      SpanPlug(c, t, x);
      if t.l.Node? {
        SpanPlug(c, t, t.l.n);
      }
      if t.r.Node? {
        SpanPlug(c, t, t.r.n);
      }
    }

    /** The nodes in order are the nodes of the tree, each once. */
    lemma NodesNoDup()
      requires Valid()
      ensures NoDup(Nodes())
      ensures forall n :: n in Nodes() <==> n in pool
      ensures forall i :: 0 <= i < |Nodes()| ==> Nodes()[i] in pool
    {
      InorderNoDup(tree);
      forall i | 0 <= i < |Nodes()|
        ensures Nodes()[i] in pool
      {
        InorderElems(tree, Nodes()[i]);
      }
      forall n
        ensures n in Nodes() <==> n in pool
      {
        InorderElems(tree, n);
      }
    }

    lemma TreeHeld()
      requires Valid()
      ensures Repr(Memory(), tree, null) && rb_node == Top(tree)
    {
    }

    lemma RootSpan()
      requires Valid()
      ensures rb_node == null ==> Nodes() == []
      ensures rb_node != null ==> rb_node in pool && SpanOf(rb_node) == (0, |Nodes()|)
    {
    }

    // ----- walking -----

    /** lib/rbtree.c:265-275 */
    method First() returns (n: RbNode?)
      requires Valid()
      ensures n == FirstOf(Nodes())
    {
      n := rb_node;
      if n == null {
        return;
      }
      ghost var c, t := Hole, tree;
      while n.left != null
        invariant t.Node? && t.n == n && At(c, t) && Before(c) == [] && Plug(c, t) == tree
        invariant n.left == Top(t.l)
        decreases t
      {
        n := n.left;
        c, t := InL(t.n, t.c, t.r, c), t.l;
        FillHolds(Memory(), rb_node, c, t);
      }
      PlugInorder(c, t);
    }

    /** lib/rbtree.c:277-287 */
    method Last() returns (n: RbNode?)
      requires Valid()
      ensures n == LastOf(Nodes())
    {
      n := rb_node;
      if n == null {
        return;
      }
      ghost var c, t := Hole, tree;
      while n.right != null
        invariant t.Node? && t.n == n && At(c, t) && After(c) == [] && Plug(c, t) == tree
        invariant n.right == Top(t.r)
        decreases t
      {
        n := n.right;
        c, t := InR(t.l, t.n, t.c, c), t.r;
        FillHolds(Memory(), rb_node, c, t);
      }
      PlugInorder(c, t);
    }

    /** Down and then left as far as we can: lib/rbtree.c:299-302 */
    method LeftmostBelow(x: RbNode, ghost c: Ctx, ghost t: Tree) returns (node: RbNode)
      requires At(c, t) && t.Node? && t.n == x && t.r.Node?
      ensures node == FirstOf(Inorder(t.r))
    {
      ghost var d, u := InR(t.l, t.n, t.c, c), t.r;
      FillHolds(Memory(), rb_node, d, u);
      node := x.right;
      while node.left != null
        invariant u.Node? && u.n == node && At(d, u)
        invariant FirstOf(Inorder(u)) == FirstOf(Inorder(t.r))
        invariant node.left == Top(u.l)
        decreases u
      {
        node := node.left;
        d, u := InL(u.n, u.c, u.r, d), u.l;
        FillHolds(Memory(), rb_node, d, u);
      }
    }

    method RightmostBelow(x: RbNode, ghost c: Ctx, ghost t: Tree) returns (node: RbNode)
      requires At(c, t) && t.Node? && t.n == x && t.l.Node?
      ensures node == LastOf(Inorder(t.l))
    {
      ghost var d, u := InL(t.n, t.c, t.r, c), t.l;
      FillHolds(Memory(), rb_node, d, u);
      node := x.left;
      while node.right != null
        invariant u.Node? && u.n == node && At(d, u)
        invariant LastOf(Inorder(u)) == LastOf(Inorder(t.l))
        invariant node.right == Top(u.r)
        decreases u
      {
        node := node.right;
        d, u := InR(u.l, u.n, u.c, d), u.r;
        FillHolds(Memory(), rb_node, d, u);
      }
    }

    /** lib/rbtree.c:289-315 */
    method Next(node0: RbNode) returns (parent: RbNode?)
      requires Valid() && node0 in pool
      ensures IsNext(Nodes(), node0, parent)
    {
      var node := node0;
      ghost var c, t := Focus(node);
      FocusNext(c, t);
      if node.parent == node {
        return null;
      }
      if node.right != null {
        parent := LeftmostBelow(node, c, t);
        return;
      }
      ghost var after := After(c);
      assert Inorder(t.r) + after == after;
      parent := node.parent;
      while parent != null && node == parent.right
        invariant At(c, t) && t.Node? && t.n == node && parent == ParentOf(c)
        invariant After(c) == after
        decreases Depth(c)
      {
        FillHolds(Memory(), rb_node, c, t);
        c, t := c.up, Fill(c, t);
        node := parent;
        parent := node.parent;
      }
    }

    /** lib/rbtree.c:317-339 */
    method Prev(node0: RbNode) returns (parent: RbNode?)
      requires Valid() && node0 in pool
      ensures IsPrev(Nodes(), node0, parent)
    {
      var node := node0;
      ghost var c, t := Focus(node);
      FocusNext(c, t);
      if node.parent == node {
        return null;
      }
      if node.left != null {
        parent := RightmostBelow(node, c, t);
        return;
      }
      ghost var before := Before(c);
      assert before + Inorder(t.l) == before;
      parent := node.parent;
      while parent != null && node == parent.left
        invariant At(c, t) && t.Node? && t.n == node && parent == ParentOf(c)
        invariant Before(c) == before
        decreases Depth(c)
      {
        FillHolds(Memory(), rb_node, c, t);
        c, t := c.up, Fill(c, t);
        node := parent;
        parent := node.parent;
      }
    }

    /** The loop `for(node = rb_first(root); node; node = rb_next(node))` visits every node
        once, in order: tools/TestCase_RB_tree.c:87. */
    method Forward() returns (visited: seq<RbNode>)
      requires Valid()
      ensures visited == Nodes()
    {
      hide Valid;
      var node := First();
      NodesNoDup();
      visited := [];
      while node != null
        invariant Valid() && (forall i :: 0 <= i < |Nodes()| ==> Nodes()[i] in pool)
        invariant |visited| <= |Nodes()| && visited == Nodes()[..|visited|]
        invariant node == if |visited| < |Nodes()| then Nodes()[|visited|] else null
        decreases |Nodes()| - |visited|
      {
        visited := visited + [node];
        node := Next(node);
      }
    }

    /** And back from the last node by rb_prev. */
    method Backward() returns (visited: seq<RbNode>)
      requires Valid()
      ensures |visited| == |Nodes()| && forall i :: 0 <= i < |visited| ==> visited[i] == Nodes()[|visited| - 1 - i]
    {
      hide Valid;
      var node := Last();
      NodesNoDup();
      visited := [];
      while node != null
        invariant Valid() && (forall i :: 0 <= i < |Nodes()| ==> Nodes()[i] in pool)
        invariant |visited| <= |Nodes()| && forall i :: 0 <= i < |visited| ==> visited[i] == Nodes()[|Nodes()| - 1 - i]
        invariant node == if |visited| < |Nodes()| then Nodes()[|Nodes()| - 1 - |visited|] else null
        decreases |Nodes()| - |visited|
      {
        visited := visited + [node];
        node := Prev(node);
      }
    }

    // ----- insertion of a new leaf -----

    lemma Slot(parent: RbNode?, left: bool) returns (c: Ctx)
      requires Valid()
      requires parent == null ==> rb_node == null
      requires parent != null ==> parent in pool && (if left then parent.left else parent.right) == null
      ensures Holds(Memory(), rb_node, c, Nil) && CElems(c) == pool
      ensures CBalanced(c, 0) && COk(c, false)
      ensures ParentOf(c) == parent && (parent != null ==> (c.InL? <==> left))
      ensures Before(c) + After(c) == Nodes()
      ensures parent == null ==> Nodes() == []
      ensures parent != null ==>
        if left then After(c) != [] && After(c)[0] == parent
        else Before(c) != [] && Before(c)[|Before(c)| - 1] == parent
    {
      if parent != null {
        var u;
        c, u := Focus(parent);
        c := if left then InL(parent, u.c, u.r, c) else InR(u.l, parent, u.c, c);
      } else {
        c := Hole;
      }
      LeafSlot(Memory(), rb_node, c, tree);
    }

    /** rb_link_node: include/linux/rbtree.h:42-49.  The new node hangs, red and childless,
        in an empty slot of `parent` (or at the root of an empty tree). */
    method Link(node: RbNode, parent: RbNode?, left: bool)
      requires node !in pool && (parent != null ==> parent in pool)
      modifies `rb_node, `pool, node, pool
      ensures pool == old(pool) + {node}
      ensures Memory() == Linked(old(Memory()), node, parent, left)
      ensures rb_node == if parent == null then node else old(rb_node)
    {
      node.parent, node.color := parent, Red;
      node.left, node.right := null, null;
      if parent == null {
        rb_node := node;
      } else if left {
        parent.left := node;
      } else {
        parent.right := node;
      }
      pool := pool + {node};
    }

    /** A new leaf: rb_link_node followed by rb_insert_color.  As a left child it comes
        just before its parent, as a right child just after. */
    method Insert(node: RbNode, parent: RbNode?, left: bool)
      requires Valid() && node !in pool
      requires parent == null ==> rb_node == null
      requires parent != null ==> parent in pool && (if left then parent.left else parent.right) == null
      modifies `rb_node, `pool, `tree, node, pool
      ensures Valid() && pool == old(pool) + {node}
      ensures InsertedBeside(old(Nodes()), Nodes(), node, parent, left)
    {
      hide RbRoot.Valid, Before, After, Plug, Repr, CRepr, Distinct, CDistinct;
      ghost var m, root := Memory(), rb_node;
      ghost var c := Slot(parent, left);
      ghost var t := Node(Nil, node, Red, Nil);
      Link(node, parent, left);
      LinkHolds(m, Memory(), root, rb_node, c, node);
      PlugInorder(c, t);
      BesideParent(Before(c), After(c), node, parent, left);
      InsertColor(node, c, t);
    }
  }
}
