/** lib/rbtree.c: rotations and changes of colour, as changes of what memory holds. */
module RbSteps {
  import opened RbNodes

  ghost function Painted(m: Mem, n: RbNode, k: Color): Mem
    requires n in m
  {
    m[n := m[n].(color := k)]
  }

  /** __rb_rotate_left as one change of memory. */
  ghost predicate RotatedLeft(m: Mem, m': Mem, root: RbNode?, root': RbNode?, x: RbNode)
    requires x in m && m[x].right in m
  {
    var y, b, p := m[x].right, m[m[x].right].left, m[x].parent;
    && root' == (if p == null then y else root)
    && m'.Keys == m.Keys
    && (forall n :: n in m ==>
          m'[n] == if n == x then m[x].(right := b, parent := y)
                   else if n == y then m[y].(left := x, parent := p)
                   else if n == b then m[n].(parent := x)
                   else if n == p then (if m[n].left == x then m[n].(left := y) else m[n].(right := y))
                   else m[n])
  }

  ghost predicate RotatedRight(m: Mem, m': Mem, root: RbNode?, root': RbNode?, y: RbNode)
    requires y in m && m[y].left in m
  {
    var x, b, p := m[y].left, m[m[y].left].right, m[y].parent;
    && root' == (if p == null then x else root)
    && m'.Keys == m.Keys
    && (forall n :: n in m ==>
          m'[n] == if n == y then m[y].(left := b, parent := x)
                   else if n == x then m[x].(right := y, parent := p)
                   else if n == b then m[n].(parent := y)
                   else if n == p then (if m[n].left == y then m[n].(left := x) else m[n].(right := x))
                   else m[n])
  }

  /** The nodes a rotation touches are all there and all different. */
  ghost predicate Rotatable(m: Mem, x: RbNode?, y: RbNode?, b: RbNode?, p: RbNode?) {
    && x in m && y in m && x != y
    && b != x && b != y && p != x && p != y
    && (b != null ==> b in m && b != p) && (p != null ==> p in m)
  }

  lemma RotateLeftSafe(m: Mem, root: RbNode?, c: Ctx, t: Tree)
    requires t.Node? && t.r.Node? && Holds(m, root, c, t)
    requires m.Keys == Elems(t) + CElems(c)
    ensures Rotatable(m, t.n, t.r.n, Top(t.r.l), ParentOf(c))
    ensures m[t.n].right == t.r.n && m[t.r.n].left == Top(t.r.l) && m[t.n].parent == ParentOf(c)
  {
    assert Distinct(t.r) && Repr(m, t.r, t.n);
    assert Elems(t) == Elems(t.l) + {t.n} + Elems(t.r.l) + {t.r.n} + Elems(t.r.r);
  }

  lemma RotateLeftHolds(m: Mem, m': Mem, root: RbNode?, root': RbNode?, c: Ctx, t: Tree)
    requires t.Node? && t.r.Node? && Holds(m, root, c, t)
    requires m.Keys == Elems(t) + CElems(c)
    requires m[t.n].right == t.r.n && RotatedLeft(m, m', root, root', t.n)
    ensures Holds(m', root', c, Node(Node(t.l, t.n, t.c, t.r.l), t.r.n, t.r.c, t.r.r))
  {
    hide Repr, CRepr, RotatedLeft;
    RotationElems(t.l, t.n, t.r.l, t.r.n, t.r.r, t.c, t.r.c, t.c, t.r.c);
    RotatedLeftRepr(m, m', root, root', c, t);
    RotatedLeftCtx(m, m', root, root', c, t);
  }

  lemma RotatedLeftRepr(m: Mem, m': Mem, root: RbNode?, root': RbNode?, c: Ctx, t: Tree)
    requires t.Node? && t.r.Node? && Holds(m, root, c, t)
    requires m.Keys == Elems(t) + CElems(c)
    requires m[t.n].right == t.r.n && RotatedLeft(m, m', root, root', t.n)
    ensures Repr(m', Node(Node(t.l, t.n, t.c, t.r.l), t.r.n, t.r.c, t.r.r), ParentOf(c))
  {
    hide CRepr;
    var a, x, b, y, d := t.l, t.n, t.r.l, t.r.n, t.r.r;
    assert Distinct(t.r) && Repr(m, t.r, x);
    assert Elems(t) == Elems(a) + {x} + Elems(b) + {y} + Elems(d);
    ReprFrame(m, m', a, x);
    ReprFrame(m, m', d, y);
    ReprMoved(m, m', b, y, x);
  }

  lemma RotatedLeftCtx(m: Mem, m': Mem, root: RbNode?, root': RbNode?, c: Ctx, t: Tree)
    requires t.Node? && t.r.Node? && Holds(m, root, c, t)
    requires m.Keys == Elems(t) + CElems(c)
    requires m[t.n].right == t.r.n && RotatedLeft(m, m', root, root', t.n)
    ensures CRepr(m', root', c, t.r.n)
  {
    assert Repr(m, t.r, t.n);
    CReprRelinked(m, m', root, root', c, t.n, t.r.n);
  }

  lemma RotateRightSafe(m: Mem, root: RbNode?, c: Ctx, t: Tree)
    requires t.Node? && t.l.Node? && Holds(m, root, c, t)
    requires m.Keys == Elems(t) + CElems(c)
    ensures Rotatable(m, t.n, t.l.n, Top(t.l.r), ParentOf(c))
    ensures m[t.n].left == t.l.n && m[t.l.n].right == Top(t.l.r) && m[t.n].parent == ParentOf(c)
  {
    assert Distinct(t.l) && Repr(m, t.l, t.n);
    assert Elems(t) == Elems(t.l.l) + {t.l.n} + Elems(t.l.r) + {t.n} + Elems(t.r);
  }

  lemma RotateRightHolds(m: Mem, m': Mem, root: RbNode?, root': RbNode?, c: Ctx, t: Tree)
    requires t.Node? && t.l.Node? && Holds(m, root, c, t)
    requires m.Keys == Elems(t) + CElems(c)
    requires m[t.n].left == t.l.n && RotatedRight(m, m', root, root', t.n)
    ensures Holds(m', root', c, Node(t.l.l, t.l.n, t.l.c, Node(t.l.r, t.n, t.c, t.r)))
  {
    hide Repr, CRepr, RotatedRight;
    RotationElems(t.l.l, t.l.n, t.l.r, t.n, t.r, t.l.c, t.c, t.l.c, t.c);
    RotatedRightRepr(m, m', root, root', c, t);
    RotatedRightCtx(m, m', root, root', c, t);
  }

  lemma RotatedRightRepr(m: Mem, m': Mem, root: RbNode?, root': RbNode?, c: Ctx, t: Tree)
    requires t.Node? && t.l.Node? && Holds(m, root, c, t)
    requires m.Keys == Elems(t) + CElems(c)
    requires m[t.n].left == t.l.n && RotatedRight(m, m', root, root', t.n)
    ensures Repr(m', Node(t.l.l, t.l.n, t.l.c, Node(t.l.r, t.n, t.c, t.r)), ParentOf(c))
  {
    hide CRepr;
    var a, x, b, y, d := t.l.l, t.l.n, t.l.r, t.n, t.r;
    assert Distinct(t.l) && Repr(m, t.l, y);
    assert Elems(t) == Elems(a) + {x} + Elems(b) + {y} + Elems(d);
    ReprFrame(m, m', a, x);
    ReprFrame(m, m', d, y);
    ReprMoved(m, m', b, x, y);
  }

  lemma RotatedRightCtx(m: Mem, m': Mem, root: RbNode?, root': RbNode?, c: Ctx, t: Tree)
    requires t.Node? && t.l.Node? && Holds(m, root, c, t)
    requires m.Keys == Elems(t) + CElems(c)
    requires m[t.n].left == t.l.n && RotatedRight(m, m', root, root', t.n)
    ensures CRepr(m', root', c, t.l.n)
  {
    assert Repr(m, t.l, t.n);
    CReprRelinked(m, m', root, root', c, t.n, t.l.n);
  }

  lemma PaintHolds(m: Mem, root: RbNode?, c: Ctx, t: Tree, k: Color)
    requires t.Node? && Holds(m, root, c, t)
    ensures Holds(Painted(m, t.n, k), root, c, t.(c := k))
  {
    var m' := Painted(m, t.n, k);
    ReprFrame(m, m', t.l, t.n);
    ReprFrame(m, m', t.r, t.n);
    CReprFrame(m, m', root, c, t.n);
  }

  ghost function WithSib(c: Ctx, s: Tree): Ctx
    requires !c.Hole?
  {
    if c.InL? then InL(c.n, c.c, s, c.up) else InR(s, c.n, c.c, c.up)
  }

  ghost function WithColor(c: Ctx, k: Color): Ctx
    requires !c.Hole?
  {
    if c.InL? then InL(c.n, k, c.sib, c.up) else InR(c.sib, c.n, k, c.up)
  }

  /** Moving the focus one level up or down changes nothing. */
  lemma FillHolds(m: Mem, root: RbNode?, c: Ctx, t: Tree)
    requires !c.Hole?
    ensures Holds(m, root, c.up, Fill(c, t)) <==> Holds(m, root, c, t)
    ensures Elems(Fill(c, t)) + CElems(c.up) == Elems(t) + CElems(c)
    ensures Plug(c.up, Fill(c, t)) == Plug(c, t)
  {
  }

  /** The two foci have the same nodes around and below them, in the same order. */
  ghost predicate SameNodes(c: Ctx, t: Tree, c': Ctx, t': Tree) {
    && Elems(t) + CElems(c) == Elems(t') + CElems(c')
    && Inorder(Plug(c, t)) == Inorder(Plug(c', t'))
  }

  lemma FillSame(c: Ctx, t: Tree)
    requires !c.Hole?
    ensures SameNodes(c, t, c.up, Fill(c, t))
  {
  }

  /** The context of the sibling of a focus. */
  ghost function Flip(c: Ctx, t: Tree): Ctx
    requires !c.Hole?
  {
    if c.InL? then InR(t, c.n, c.c, c.up) else InL(c.n, c.c, t, c.up)
  }

  lemma PaintUp(m: Mem, root: RbNode?, c: Ctx, t: Tree, k: Color)
    requires !c.Hole? && Holds(m, root, c, t)
    ensures Holds(Painted(m, c.n, k), root, WithColor(c, k), t)
  {
    FillHolds(m, root, c, t);
    PaintHolds(m, root, c.up, Fill(c, t), k);
    FillHolds(Painted(m, c.n, k), root, WithColor(c, k), t);
  }

  lemma PaintSib(m: Mem, root: RbNode?, c: Ctx, t: Tree, k: Color)
    requires !c.Hole? && c.sib.Node? && Holds(m, root, c, t)
    ensures Holds(Painted(m, c.sib.n, k), root, WithSib(c, c.sib.(c := k)), t)
  {
    FillHolds(m, root, c, t);
    FillHolds(m, root, Flip(c, t), c.sib);
    PaintHolds(m, root, Flip(c, t), c.sib, k);
    FillHolds(Painted(m, c.sib.n, k), root, Flip(c, t), c.sib.(c := k));
    FillHolds(Painted(m, c.sib.n, k), root, WithSib(c, c.sib.(c := k)), t);
  }
}
