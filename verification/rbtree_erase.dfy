/** lib/rbtree.c: what the loop of __rb_erase_color keeps, step by step, and the ways rb_erase takes a node out. */
module RbErase {
  import opened RbNodes
  import opened RbOrder
  import opened RbSteps

  /** The loop invariant of __rb_erase_color: the focus is one black node short. */
  ghost predicate Short(c: Ctx, t: Tree) {
    Balanced(t) && NoRedRed(Blacken(t)) && CBalanced(c, BH(t) + 1) && COk(c, false)
  }

  /** The children of the focus's sibling: the one next to the focus, and the far one. */
  ghost function Near(c: Ctx): Tree
    requires !c.Hole? && c.sib.Node?
  {
    if c.InL? then c.sib.l else c.sib.r
  }

  ghost function Far(c: Ctx): Tree
    requires !c.Hole? && c.sib.Node?
  {
    if c.InL? then c.sib.r else c.sib.l
  }

  /** A node with the given near and far children, on the sibling's side of `c`. */
  ghost function SibNode(c: Ctx, near: Tree, n: RbNode, k: Color, far: Tree): Tree {
    if c.InL? then Node(near, n, k, far) else Node(far, n, k, near)
  }

  lemma ShortSibling(c: Ctx, t: Tree)
    requires Short(c, t) && !c.Hole?
    ensures c.sib.Node?
    ensures IsRed(c.sib) ==> c.c == Black && !IsRed(Near(c)) && Near(c).Node?
  {
  }

  /** What the loop of __rb_erase_color reads of parent, sibling and nephews. */
  lemma ShortReads(m: Mem, root: RbNode?, c: Ctx, t: Tree)
    requires !c.Hole? && c.sib.Node? && Holds(m, root, c, t)
    ensures c.n in m && c.sib.n in m && m[c.sib.n].color == c.sib.c && m[c.n].parent == ParentOf(c.up)
    ensures m[c.n].color == c.c
    ensures c.InL? ==> m[c.n].left == Top(t) && m[c.n].right == c.sib.n && Top(t) != c.sib.n
    ensures c.InR? ==> m[c.n].right == Top(t) && m[c.n].left == c.sib.n && Top(t) != c.sib.n
    ensures m[c.sib.n].left == Top(c.sib.l) && m[c.sib.n].right == Top(c.sib.r)
    ensures c.sib.l.Node? ==> c.sib.l.n in m && m[c.sib.l.n].color == c.sib.l.c
    ensures c.sib.r.Node? ==> c.sib.r.n in m && m[c.sib.r.n].color == c.sib.r.c
  {
    assert Repr(m, c.sib, c.n);
    assert Repr(m, c.sib.l, c.sib.n) && Repr(m, c.sib.r, c.sib.n);
  }

  /** Only the whole tree has its top at the root. */
  lemma {:induction false} RootInside(m: Mem, root: RbNode?, c: Ctx, hole: RbNode?)
    requires CRepr(m, root, c, hole) && !c.Hole?
    ensures root in CElems(c)
  {
    if !c.up.Hole? {
      RootInside(m, root, c.up, c.n);
    }
  }

  lemma SibHolds(m: Mem, root: RbNode?, c: Ctx, t: Tree)
    requires !c.Hole?
    ensures Holds(m, root, Flip(c, t), c.sib) <==> Holds(m, root, c, t)
    ensures Elems(c.sib) + CElems(Flip(c, t)) == Elems(t) + CElems(c)
  {
  }

  lemma PaintFar(m: Mem, root: RbNode?, c: Ctx, t: Tree, k: Color)
    requires !c.Hole? && c.sib.Node? && Far(c).Node? && Holds(m, root, c, t)
    ensures Far(c).n in m
    ensures Holds(Painted(m, Far(c).n, k), root, WithSib(c, SibNode(c, Near(c), c.sib.n, c.sib.c, Far(c).(c := k))), t)
  {
    var s := c.sib;
    var cs := if c.InL? then InR(s.l, s.n, s.c, Flip(c, t)) else InL(s.n, s.c, s.r, Flip(c, t));
    SibHolds(m, root, c, t);
    FillHolds(m, root, cs, Far(c));
    PaintHolds(m, root, cs, Far(c), k);
    var m', c' := Painted(m, Far(c).n, k), WithSib(c, SibNode(c, Near(c), s.n, s.c, Far(c).(c := k)));
    FillHolds(m', root, cs, Far(c).(c := k));
    SibHolds(m', root, c', t);
  }

  lemma PaintNear(m: Mem, root: RbNode?, c: Ctx, t: Tree, k: Color)
    requires !c.Hole? && c.sib.Node? && Near(c).Node? && Holds(m, root, c, t)
    ensures Near(c).n in m
    ensures Holds(Painted(m, Near(c).n, k), root, WithSib(c, SibNode(c, Near(c).(c := k), c.sib.n, c.sib.c, Far(c))), t)
  {
    var s := c.sib;
    var cs := if c.InL? then InL(s.n, s.c, s.r, Flip(c, t)) else InR(s.l, s.n, s.c, Flip(c, t));
    SibHolds(m, root, c, t);
    FillHolds(m, root, cs, Near(c));
    PaintHolds(m, root, cs, Near(c), k);
    var m', c' := Painted(m, Near(c).n, k), WithSib(c, SibNode(c, Near(c).(c := k), s.n, s.c, Far(c)));
    FillHolds(m', root, cs, Near(c).(c := k));
    SibHolds(m', root, c', t);
  }

  /** Red sibling: after the rotation at the parent the near nephew is the sibling. */
  ghost function Lowered(c: Ctx): Ctx
    requires !c.Hole? && c.sib.Node?
  {
    if c.InL? then InL(c.n, Red, c.sib.l, InL(c.sib.n, Black, c.sib.r, c.up))
    else InR(c.sib.r, c.n, Red, InR(c.sib.l, c.sib.n, Black, c.up))
  }

  lemma LoweredShort(c: Ctx, t: Tree)
    requires Short(c, t) && !c.Hole? && IsRed(c.sib)
    ensures Short(Lowered(c), t) && Lowered(c).sib.Node? && !IsRed(Lowered(c).sib)
  {
  }

  lemma LoweredSame(c: Ctx, t: Tree)
    requires !c.Hole? && c.sib.Node?
    ensures SameNodes(c, t, Lowered(c), t)
  {
    var s, d := c.sib, Lowered(c);
    if c.InL? {
      RotationOrder(t, c.n, s.l, s.n, s.r, Red, Black, c.c, s.c);
      RotationElems(t, c.n, s.l, s.n, s.r, Red, Black, c.c, s.c);
    } else {
      RotationOrder(s.l, s.n, s.r, c.n, t, s.c, c.c, Black, Red);
      RotationElems(s.l, s.n, s.r, c.n, t, s.c, c.c, Black, Red);
    }
    FillSame(c, t);
    FillSame(d, t);
    FillSame(d.up, Fill(d, t));
    PlugOrder(c.up, Fill(c, t), Fill(d.up, Fill(d, t)));
  }

  /** Black sibling with black children: the sibling turns red and the focus moves up. */
  ghost function Raised(c: Ctx, t: Tree): Tree
    requires !c.Hole? && c.sib.Node?
  {
    Fill(WithSib(c, c.sib.(c := Red)), t)
  }

  lemma RaisedShort(c: Ctx, t: Tree)
    requires Short(c, t) && !IsRed(t) && !c.Hole? && c.sib.Node? && !IsRed(c.sib)
    requires !IsRed(Near(c)) && !IsRed(Far(c))
    ensures Short(c.up, Raised(c, t))
  {
    var s := c.sib.(c := Red);
    assert Balanced(c.sib) && NoRedRed(c.sib);
    assert Balanced(s) && NoRedRed(s) && BH(s) == BH(t);
    assert NoRedRed(t);
    COkBlack(c.up, c.c == Red);
  }

  lemma RaisedSame(c: Ctx, t: Tree)
    requires !c.Hole? && c.sib.Node?
    ensures SameNodes(c, t, c.up, Raised(c, t))
  {
    var s := c.sib.(c := Red);
    assert Elems(s) == Elems(c.sib) && Inorder(s) == Inorder(c.sib);
    FillSame(c, t);
    PlugOrder(c.up, Fill(c, t), Raised(c, t));
  }

  /** Black sibling, far nephew not red: the near nephew is rotated into its place. */
  ghost function Straightened(c: Ctx): Ctx
    requires !c.Hole? && c.sib.Node? && Near(c).Node?
  {
    var x := Near(c);
    WithSib(c, if c.InL? then Node(x.l, x.n, Black, Node(x.r, c.sib.n, Red, c.sib.r))
               else Node(Node(c.sib.l, c.sib.n, Red, x.l), x.n, Black, x.r))
  }

  lemma StraightenedShort(c: Ctx, t: Tree)
    requires Short(c, t) && !c.Hole? && c.sib.Node? && !IsRed(c.sib) && IsRed(Near(c)) && !IsRed(Far(c))
    ensures Short(Straightened(c), t) && IsRed(Far(Straightened(c)))
  {
    var s, x, d := c.sib, Near(c), Straightened(c);
    assert Balanced(s) && NoRedRed(s) && Balanced(x) && NoRedRed(x);
    assert BH(x.l) == BH(x) && BH(x.r) == BH(x) && BH(Far(c)) == BH(x);
    var inner := if c.InL? then Node(x.r, s.n, Red, s.r) else Node(s.l, s.n, Red, x.l);
    assert Balanced(inner) && NoRedRed(inner) && BH(inner) == BH(x);
    assert Balanced(d.sib) && NoRedRed(d.sib) && BH(d.sib) == BH(s);
  }

  lemma StraightenedSame(c: Ctx, t: Tree)
    requires !c.Hole? && c.sib.Node? && Near(c).Node?
    ensures SameNodes(c, t, Straightened(c), t)
  {
    var s, x, d := c.sib, Near(c), Straightened(c);
    if c.InL? {
      RotationOrder(x.l, x.n, x.r, s.n, s.r, x.c, s.c, Black, Red);
      RotationElems(x.l, x.n, x.r, s.n, s.r, x.c, s.c, Black, Red);
    } else {
      RotationOrder(s.l, s.n, x.l, x.n, x.r, Red, Black, s.c, x.c);
      RotationElems(s.l, s.n, x.l, x.n, x.r, Red, Black, s.c, x.c);
    }
    FillSame(c, t);
    FillSame(d, t);
    PlugOrder(c.up, Fill(c, t), Fill(d, t));
  }

  /** Black sibling with a red far child: the last rotation, at the parent. */
  ghost function Settled(c: Ctx, t: Tree): Tree
    requires !c.Hole? && c.sib.Node?
  {
    if c.InL? then Node(Node(t, c.n, Black, c.sib.l), c.sib.n, c.c, Blacken(c.sib.r))
    else Node(Blacken(c.sib.l), c.sib.n, c.c, Node(c.sib.r, c.n, Black, t))
  }

  lemma SettledRedBlack(c: Ctx, t: Tree)
    requires Short(c, t) && !IsRed(t) && !c.Hole? && c.sib.Node? && !IsRed(c.sib) && IsRed(Far(c))
    ensures RedBlack(Plug(c.up, Settled(c, t)))
  {
    var r := Settled(c, t);
    assert Balanced(c.sib) && NoRedRed(c.sib) && NoRedRed(t);
    assert Balanced(Far(c)) && NoRedRed(Far(c)) && BH(Blacken(Far(c))) == BH(t) + 1;
    assert Balanced(Near(c)) && NoRedRed(Near(c)) && BH(Near(c)) == BH(t);
    assert Balanced(Blacken(Far(c))) && NoRedRed(Blacken(Far(c)));
    assert Balanced(r) && NoRedRed(r);
    assert BH(r) == BH(t) + 1 + (if c.c == Black then 1 else 0);
    PlugBalanced(c.up, r);
    PlugNoRedRed(c.up, r);
  }

  lemma SettledSame(c: Ctx, t: Tree)
    requires !c.Hole? && c.sib.Node?
    ensures SameNodes(c, t, c.up, Settled(c, t))
  {
    var s := c.sib;
    if c.InL? {
      assert Elems(Blacken(s.r)) == Elems(s.r) && Inorder(Blacken(s.r)) == Inorder(s.r);
      RotationOrder(t, c.n, s.l, s.n, s.r, Black, c.c, c.c, s.c);
      RotationElems(t, c.n, s.l, s.n, s.r, Black, c.c, c.c, s.c);
    } else {
      assert Elems(Blacken(s.l)) == Elems(s.l) && Inorder(Blacken(s.l)) == Inorder(s.l);
      RotationOrder(s.l, s.n, s.r, c.n, t, s.c, c.c, c.c, Black);
      RotationElems(s.l, s.n, s.r, c.n, t, s.c, c.c, c.c, Black);
    }
    FillSame(c, t);
    PlugOrder(c.up, Fill(c, t), Settled(c, t));
  }

  lemma ShortDone(c: Ctx, t: Tree)
    requires Short(c, t) && (IsRed(t) || c.Hole?)
    ensures RedBlack(Plug(c, Blacken(t)))
    ensures Inorder(Plug(c, Blacken(t))) == Inorder(Plug(c, t))
    ensures Elems(Plug(c, Blacken(t))) == Elems(t) + CElems(c)
  {
    var b := Blacken(t);
    assert Inorder(b) == Inorder(t) && Elems(b) == Elems(t);
    PlugElems(c, b);
    PlugOrder(c, t, b);
    PlugBalanced(c, b);
    PlugNoRedRed(c, b);
  }

  /** Context `seg` inside context `outer`. */
  ghost function Append(seg: Ctx, outer: Ctx): Ctx {
    match seg
    case Hole => outer
    case InL(n, k, sib, up) => InL(n, k, sib, Append(up, outer))
    case InR(sib, n, k, up) => InR(sib, n, k, Append(up, outer))
  }

  /** The way down from a right child to its leftmost node. */
  ghost predicate AllLeft(seg: Ctx) { !seg.Hole? ==> seg.InL? && AllLeft(seg.up) }

  lemma {:induction false} AppendParts(seg: Ctx, outer: Ctx)
    ensures CElems(Append(seg, outer)) == CElems(seg) + CElems(outer)
    ensures CDistinct(Append(seg, outer)) ==> CDistinct(seg) && CDistinct(outer) && CElems(seg) !! CElems(outer)
    ensures CDistinct(seg) && CDistinct(outer) && CElems(seg) !! CElems(outer) ==> CDistinct(Append(seg, outer))
  {
    if !seg.Hole? {
      AppendParts(seg.up, outer);
    }
  }

  lemma {:induction false} AppendOrder(seg: Ctx, outer: Ctx)
    requires AllLeft(seg)
    ensures Before(Append(seg, outer)) == Before(outer)
    ensures After(Append(seg, outer)) == After(seg) + After(outer)
    ensures Before(seg) == []
  {
    if !seg.Hole? {
      AppendOrder(seg.up, outer);
      var first := [seg.n] + Inorder(seg.sib);
      assert first + (After(seg.up) + After(outer)) == (first + After(seg.up)) + After(outer);
    }
  }

  /** The context of the successor, before and after it takes the place of `x`. */
  lemma {:induction false} OwnerSwap(seg: Ctx, l: Tree, x: RbNode, s: RbNode, k: Color, c: Ctx, h: nat, red: bool)
    requires CBalanced(Append(seg, InR(l, x, k, c)), h) && COk(Append(seg, InR(l, x, k, c)), red)
    ensures CBalanced(Append(seg, InR(l, s, k, c)), h) && COk(Append(seg, InR(l, s, k, c)), red)
  {
    if !seg.Hole? {
      OwnerSwap(seg.up, l, x, s, k, c, h + (if seg.c == Black then 1 else 0), seg.c == Red);
    }
  }

  /** Above the successor's parent, only the links to `x` change. */
  lemma {:induction false} OwnerSwapRepr(m: Mem, m': Mem, root: RbNode?, root': RbNode?,
      seg: Ctx, l: Tree, x: RbNode, s: RbNode, k: Color, c: Ctx, hole: RbNode)
    requires x in m && CRepr(m, root, Append(seg, InR(l, x, k, c)), hole)
    requires CDistinct(seg) && AllLeft(seg) && x !in CElems(seg) && hole !in CElems(seg)
    requires forall n :: n in CElems(seg) && n in m ==>
      n in m' && m'[n] == (if n == m[x].right then m[n].(parent := s) else m[n])
    requires s in m' && m'[s] == Cell(ParentOf(c), k, Top(l), m[x].right)
    requires Repr(m', l, s) && CRepr(m', root', c, s)
    ensures CRepr(m', root', Append(seg, InR(l, s, k, c)), hole)
  {
    if !seg.Hole? {
      RightEnd(m, root, seg, l, x, k, c, hole);
      ReprFrame(m, m', seg.sib, seg.n);
      OwnerSwapRepr(m, m', root, root', seg.up, l, x, s, k, c, seg.n);
    }
  }

  /** The outermost node of `seg` is the right child of `x`. */
  lemma {:induction false} RightEnd(m: Mem, root: RbNode?, seg: Ctx, l: Tree, x: RbNode, k: Color, c: Ctx, hole: RbNode)
    requires x in m && CRepr(m, root, Append(seg, InR(l, x, k, c)), hole)
    requires CDistinct(seg) && AllLeft(seg) && hole !in CElems(seg)
    ensures seg.Hole? ==> m[x].right == hole
    ensures !seg.Hole? ==> m[x].right in CElems(seg) && m[x].right !in Elems(seg.sib)
    ensures !seg.Hole? ==> (m[x].right == seg.n <==> seg.up.Hole?)
  {
    if !seg.Hole? {
      RightEnd(m, root, seg.up, l, x, k, c, seg.n);
    }
  }

  /** lib/rbtree.c:242-255 as one change of memory: `x` has at most one child, `child`,
      which takes its place. */
  ghost predicate Unlinked(m: Mem, m': Mem, root: RbNode?, root': RbNode?, x: RbNode, child: RbNode?)
    requires x in m
  {
    var p := m[x].parent;
    && root' == (if p == null then child else root)
    && m'.Keys == m.Keys - {x}
    && (forall n :: n in m' ==>
          && n in m
          && m'[n] == (if n == child then m[n].(parent := p)
                       else if n == p then (if m[n].left == x then m[n].(left := child) else m[n].(right := child))
                       else m[n]))
  }

  ghost predicate Bypassable(m: Mem, x: RbNode, child: RbNode?) {
    x in m && x != child && m[x].parent != x
    && (child != null ==> child in m && child != m[x].parent) && (m[x].parent != null ==> m[x].parent in m)
  }

  lemma UnlinkSafe(m: Mem, root: RbNode?, c: Ctx, t: Tree, ch: Tree)
    requires t.Node? && Holds(m, root, c, t) && m.Keys == Elems(t) + CElems(c)
    requires (t.l.Nil? && ch == t.r) || (t.r.Nil? && ch == t.l)
    ensures Bypassable(m, t.n, Top(ch)) && m[t.n].parent == ParentOf(c) && m[t.n].color == t.c
  {
  }

  lemma UnlinkHolds(m: Mem, m': Mem, root: RbNode?, root': RbNode?, c: Ctx, t: Tree, ch: Tree)
    requires t.Node? && Holds(m, root, c, t) && m.Keys == Elems(t) + CElems(c)
    requires (t.l.Nil? && ch == t.r) || (t.r.Nil? && ch == t.l)
    requires Unlinked(m, m', root, root', t.n, Top(ch))
    ensures Holds(m', root', c, ch) && m'.Keys == Elems(ch) + CElems(c)
  {
    hide Repr, CRepr, Distinct, CDistinct;
    UnlinkParts(m, root, c, t, ch);
    UnlinkFocus(m, m', root, root', c, ch, t.n);
    UnlinkAbove(m, m', root, root', c, ch, t.n);
  }

  lemma UnlinkParts(m: Mem, root: RbNode?, c: Ctx, t: Tree, ch: Tree)
    requires t.Node? && Holds(m, root, c, t) && m.Keys == Elems(t) + CElems(c)
    requires (t.l.Nil? && ch == t.r) || (t.r.Nil? && ch == t.l)
    ensures Elems(t) == Elems(ch) + {t.n} && t.n !in Elems(ch) && t.n !in CElems(c) && Apart(c, ch)
    ensures t.n in m && m[t.n].parent == ParentOf(c) && Repr(m, ch, t.n) && Distinct(ch) && CDistinct(c)
    ensures CRepr(m, root, c, t.n)
  {
  }

  lemma UnlinkFocus(m: Mem, m': Mem, root: RbNode?, root': RbNode?, c: Ctx, ch: Tree, x: RbNode)
    requires x in m && m[x].parent == ParentOf(c) && m.Keys == Elems(ch) + {x} + CElems(c) && Apart(c, ch) && x !in Elems(ch)
    requires Repr(m, ch, x) && Distinct(ch) && Unlinked(m, m', root, root', x, Top(ch))
    ensures Repr(m', ch, ParentOf(c))
  {
    ReprMoved(m, m', ch, x, ParentOf(c));
  }

  lemma UnlinkAbove(m: Mem, m': Mem, root: RbNode?, root': RbNode?, c: Ctx, ch: Tree, x: RbNode)
    requires x in m && m[x].parent == ParentOf(c) && m.Keys == Elems(ch) + {x} + CElems(c) && Apart(c, ch)
    requires x !in CElems(c) && CDistinct(c) && CRepr(m, root, c, x) && Unlinked(m, m', root, root', x, Top(ch))
    ensures CRepr(m', root', c, Top(ch))
  {
    hide Repr, CRepr, Distinct, CDistinct;
    assert Top(ch) != null ==> Top(ch) in Elems(ch);
    CReprRelinked(m, m', root, root', c, x, Top(ch));
  }

  lemma UnlinkOrder(c: Ctx, t: Tree, ch: Tree)
    requires t.Node? && Apart(c, t)
    requires (t.l.Nil? && ch == t.r) || (t.r.Nil? && ch == t.l)
    ensures Inorder(Plug(c, ch)) == Without(Inorder(Plug(c, t)), t.n)
  {
    PlugInorder(c, t);
    PlugInorder(c, ch);
    WithoutTop(c, t);
    DropEmpty(Before(c), Inorder(t.l), Inorder(t.r), After(c));
  }

  lemma DropEmpty(a: seq<RbNode>, l: seq<RbNode>, r: seq<RbNode>, b: seq<RbNode>)
    ensures l == [] ==> (a + l) + (r + b) == a + r + b
    ensures r == [] ==> (a + l) + (r + b) == a + l + b
  {
  }

  /** Taking the top node of the focus out of the order. */
  lemma WithoutTop(c: Ctx, t: Tree)
    requires t.Node? && Apart(c, t)
    ensures Without(Before(c) + Inorder(t) + After(c), t.n)
         == (Before(c) + Inorder(t.l)) + (Inorder(t.r) + After(c))
  {
    InorderElems(t.l, t.n);
    if t.n in Before(c) {
      BeforeElems(c, t.n);
    }
    Regroup(Before(c), Inorder(t.l), t.n, Inorder(t.r), After(c));
    WithoutAt(Before(c) + Inorder(t.l), t.n, Inorder(t.r) + After(c));
  }

  /** lib/rbtree.c:206-237 as one change of memory: the leftmost node `s` of the right
      subtree of `x` takes the place of `x`, and its right child takes its own. */
  ghost predicate Spliced(m: Mem, m': Mem, root: RbNode?, root': RbNode?, x: RbNode, s: RbNode)
    requires x in m && s in m && x != s
  {
    var p, q, child := m[x].parent, m[s].parent, m[s].right;
    && root' == (if p == null then s else root)
    && m'.Keys == m.Keys - {x}
    && m'[s] == Cell(p, m[x].color, m[x].left, if q == x then child else m[x].right)
    && (forall n :: n in m' && n != s ==>
          && n in m
          && m'[n] == (if n == p then (if m[n].left == x then m[n].(left := s) else m[n].(right := s))
                       else if n == m[x].left then m[n].(parent := s)
                       else if q == x then m[n]
                       else if n == q then m[n].(left := child, parent := if n == m[x].right then s else m[n].parent)
                       else if n == m[x].right then m[n].(parent := s)
                       else if n == child then m[n].(parent := q)
                       else m[n]))
  }

  /** What memory holds around `x` when the focus is below it, on the right. */
  lemma {:induction false} AppendOuter(m: Mem, root: RbNode?, seg: Ctx, l: Tree, x: RbNode, k: Color, c: Ctx, hole: RbNode)
    requires CRepr(m, root, Append(seg, InR(l, x, k, c)), hole)
    ensures x in m && m[x] == Cell(ParentOf(c), k, Top(l), m[x].right)
    ensures Repr(m, l, x) && CRepr(m, root, c, x)
  {
    if !seg.Hole? {
      AppendOuter(m, root, seg.up, l, x, k, c, seg.n);
    }
  }

  /** The parts of the tree that a splice moves about share no node. */
  ghost predicate SpliceApart(seg: Ctx, l: Tree, x: RbNode, c: Ctx, s: RbNode, sr: Tree) {
    && AllLeft(seg) && CDistinct(seg) && CDistinct(c) && Distinct(l) && Distinct(sr)
    && x !in CElems(seg) + Elems(l) + CElems(c) + Elems(sr)
    && s !in CElems(seg) + Elems(l) + CElems(c) + Elems(sr)
    && s != x
    && CElems(seg) !! Elems(l) && CElems(seg) !! CElems(c) && CElems(seg) !! Elems(sr)
    && Elems(l) !! CElems(c) && Elems(l) !! Elems(sr) && CElems(c) !! Elems(sr)
  }

  lemma SpliceParts(seg: Ctx, l: Tree, x: RbNode, k: Color, c: Ctx, s: RbNode, sk: Color, sr: Tree)
    requires AllLeft(seg)
    ensures Apart(Append(seg, InR(l, x, k, c)), Node(Nil, s, sk, sr)) ==> SpliceApart(seg, l, x, c, s, sr)
    ensures SpliceApart(seg, l, x, c, s, sr) ==> Apart(Append(seg, InR(l, s, k, c)), sr)
    ensures CElems(Append(seg, InR(l, x, k, c))) == CElems(seg) + Elems(l) + {x} + CElems(c)
  {
    AppendParts(seg, InR(l, x, k, c));
    AppendParts(seg, InR(l, s, k, c));
  }

  lemma SpliceNeighbours(m: Mem, m': Mem, root: RbNode?, root': RbNode?,
      seg: Ctx, l: Tree, x: RbNode, k: Color, c: Ctx, s: RbNode, sr: Tree)
    requires SpliceApart(seg, l, x, c, s, sr)
    requires x in m && s in m && m[x].parent == ParentOf(c) && m[x].left == Top(l)
    requires Repr(m, l, x) && CRepr(m, root, c, x)
    requires m[s].parent == (if seg.Hole? then x else seg.n) && m[s].right == Top(sr)
    requires m[x].right in CElems(seg) + {s}
    requires CElems(seg) + Elems(l) + CElems(c) + Elems(sr) <= m.Keys
    requires Spliced(m, m', root, root', x, s)
    ensures Repr(m', l, s) && CRepr(m', root', c, s)
  {
    ReprMoved(m, m', l, x, s);
    CReprRelinked(m, m', root, root', c, x, s);
  }

  /** The successor is the right child itself. */
  lemma SpliceNear(m: Mem, m': Mem, root: RbNode?, root': RbNode?,
      l: Tree, x: RbNode, k: Color, c: Ctx, s: RbNode, sk: Color, sr: Tree)
    requires Holds(m, root, InR(l, x, k, c), Node(Nil, s, sk, sr))
    requires m.Keys == CElems(c) + Elems(l) + {x, s} + Elems(sr)
    requires x in m && s in m && x != s
    requires Spliced(m, m', root, root', x, s)
    ensures Holds(m', root', InR(l, s, k, c), sr)
  {
    SpliceParts(Hole, l, x, k, c, s, sk, sr);
    SpliceNeighbours(m, m', root, root', Hole, l, x, k, c, s, sr);
    ReprFrame(m, m', sr, s);
  }

  /** The successor is further down, the left child of `seg.n`. */
  lemma SpliceFar(m: Mem, m': Mem, root: RbNode?, root': RbNode?,
      seg: Ctx, l: Tree, x: RbNode, k: Color, c: Ctx, s: RbNode, sk: Color, sr: Tree)
    requires seg.InL? && AllLeft(seg)
    requires Holds(m, root, Append(seg, InR(l, x, k, c)), Node(Nil, s, sk, sr))
    requires m.Keys == CElems(seg) + CElems(c) + Elems(l) + {x, s} + Elems(sr)
    requires x in m && s in m && x != s
    requires Spliced(m, m', root, root', x, s)
    ensures Holds(m', root', Append(seg, InR(l, s, k, c)), sr)
  {
    var q := seg.n;
    SpliceParts(seg, l, x, k, c, s, sk, sr);
    AppendOuter(m, root, seg, l, x, k, c, s);
    RightEnd(m, root, seg, l, x, k, c, s);
    SpliceNeighbours(m, m', root, root', seg, l, x, k, c, s, sr);
    SpliceInner(m, m', root, root', seg, l, x, k, c, s, sk, sr);
    SpliceSpine(m, m', root, root', seg, l, x, c, s, sr);
    OwnerSwapRepr(m, m', root, root', seg.up, l, x, s, k, c, q);
  }

  lemma SpliceInner(m: Mem, m': Mem, root: RbNode?, root': RbNode?,
      seg: Ctx, l: Tree, x: RbNode, k: Color, c: Ctx, s: RbNode, sk: Color, sr: Tree)
    requires seg.InL? && SpliceApart(seg, l, x, c, s, sr)
    requires CRepr(m, root, Append(seg, InR(l, x, k, c)), s) && Repr(m, Node(Nil, s, sk, sr), seg.n)
    requires x in m && m[x].parent == ParentOf(c) && m[x].left == Top(l)
    requires m[x].right in CElems(seg) && m[x].right !in Elems(seg.sib)
    requires m[x].right == seg.n <==> seg.up.Hole?
    requires s in m && Spliced(m, m', root, root', x, s) && CElems(seg) + Elems(sr) <= m.Keys
    ensures Repr(m', sr, seg.n) && Repr(m', seg.sib, seg.n)
  {
    hide Append;
    SibRepr(m, root, seg, l, x, k, c, s);
    SpliceRight(m, m', root, root', seg, l, x, c, s, sk, sr);
    SpliceSib(m, m', root, root', seg, l, x, c, s, sr);
  }

  lemma SibRepr(m: Mem, root: RbNode?, seg: Ctx, l: Tree, x: RbNode, k: Color, c: Ctx, s: RbNode)
    requires seg.InL? && CRepr(m, root, Append(seg, InR(l, x, k, c)), s)
    ensures Repr(m, seg.sib, seg.n)
  {
  }

  lemma SpliceRight(m: Mem, m': Mem, root: RbNode?, root': RbNode?,
      seg: Ctx, l: Tree, x: RbNode, c: Ctx, s: RbNode, sk: Color, sr: Tree)
    requires seg.InL? && SpliceApart(seg, l, x, c, s, sr) && Repr(m, Node(Nil, s, sk, sr), seg.n)
    requires x in m && m[x].parent == ParentOf(c) && m[x].left == Top(l) && m[x].right in CElems(seg)
    requires s in m && Spliced(m, m', root, root', x, s) && CElems(seg) + Elems(sr) <= m.Keys
    ensures Repr(m', sr, seg.n)
  {
    ReprMoved(m, m', sr, s, seg.n);
  }

  lemma SpliceSib(m: Mem, m': Mem, root: RbNode?, root': RbNode?,
      seg: Ctx, l: Tree, x: RbNode, c: Ctx, s: RbNode, sr: Tree)
    requires seg.InL? && SpliceApart(seg, l, x, c, s, sr) && Repr(m, seg.sib, seg.n)
    requires x in m && m[x].parent == ParentOf(c) && m[x].left == Top(l)
    requires m[x].right in CElems(seg) && m[x].right !in Elems(seg.sib)
    requires s in m && m[s].right == Top(sr) && m[s].parent == seg.n
    requires Spliced(m, m', root, root', x, s) && CElems(seg) + Elems(sr) <= m.Keys
    ensures Repr(m', seg.sib, seg.n)
  {
    ReprFrame(m, m', seg.sib, seg.n);
  }

  lemma SpliceSpine(m: Mem, m': Mem, root: RbNode?, root': RbNode?,
      seg: Ctx, l: Tree, x: RbNode, c: Ctx, s: RbNode, sr: Tree)
    requires seg.InL? && SpliceApart(seg, l, x, c, s, sr)
    requires x in m && m[x].parent == ParentOf(c) && m[x].left == Top(l)
    requires m[x].right == seg.n <==> seg.up.Hole?
    requires s in m && m[s].parent == seg.n && m[s].right == Top(sr)
    requires Spliced(m, m', root, root', x, s) && CElems(seg) + Elems(sr) <= m.Keys
    ensures m'[seg.n] == m[seg.n].(left := Top(sr), parent := if seg.up.Hole? then s else m[seg.n].parent)
    ensures forall n :: n in CElems(seg.up) && n in m ==>
      n in m' && m'[n] == (if n == m[x].right then m[n].(parent := s) else m[n])
  {
  }

  /** The nodes a splice touches are all there and all different. */
  ghost predicate Spliceable(m: Mem, x: RbNode, s: RbNode) {
    && x in m && s in m && x != s
    && var p, l, r, q, child := m[x].parent, m[x].left, m[x].right, m[s].parent, m[s].right;
    && l in m && r in m && q in m && (p != null ==> p in m) && (child != null ==> child in m)
    && l != x && l != s && l != q && l != r && l != child
    && p != x && p != s && p != l && p != q && p != r && (p != null ==> p != child)
    && child != x && child != s && child != q && child != r
    && (q == x <==> r == s) && r != x && q != s
    && (q != x ==> m[q].left == s)
  }

  lemma SpliceSafe(m: Mem, root: RbNode?, seg: Ctx, l: Tree, x: RbNode, k: Color, c: Ctx, s: RbNode, sk: Color, sr: Tree)
    requires AllLeft(seg) && l.Node?
    requires Holds(m, root, Append(seg, InR(l, x, k, c)), Node(Nil, s, sk, sr))
    requires m.Keys == CElems(seg) + CElems(c) + Elems(l) + {x, s} + Elems(sr)
    ensures Spliceable(m, x, s)
    ensures m[s].right == Top(sr) && m[s].color == sk
    ensures m[s].parent == (if seg.Hole? then x else seg.n)
  {
    SpliceParts(seg, l, x, k, c, s, sk, sr);
    AppendOuter(m, root, seg, l, x, k, c, s);
    RightEnd(m, root, seg, l, x, k, c, s);
  }

  lemma SettleWhole(m: Mem, root: RbNode?, c: Ctx, t: Tree)
    requires Short(c, t) && !IsRed(t) && !c.Hole? && c.sib.Node? && !IsRed(c.sib) && IsRed(Far(c))
    requires Holds(m, root, c.up, Settled(c, t))
    ensures Holds(m, root, Hole, Plug(c.up, Settled(c, t))) && Short(Hole, Plug(c.up, Settled(c, t)))
    ensures SameNodes(c, t, Hole, Plug(c.up, Settled(c, t)))
  {
    HoldsPlug(m, root, c.up, Settled(c, t));
    SettledRedBlack(c, t);
    SettledSame(c, t);
    PlugElems(c.up, Settled(c, t));
  }

  /** What falls from one round of __rb_erase_color to the next. */
  ghost function ErasingRank(c: Ctx, t: Tree): nat { 2 * Depth(c) + (if IsRed(t) then 0 else 1) }

  lemma RaisedRank(c: Ctx, c': Ctx, t: Tree)
    requires !IsRed(t) && !c.Hole? && c.sib.Node?
    requires c' == c || (c' == Lowered(c) && c'.sib.Node?)
    ensures ErasingRank(c'.up, Raised(c', t)) < ErasingRank(c, t)
  {
  }

  /** What the guard of the loop of __rb_erase_color reads. */
  lemma ErasingReads(m: Mem, root: RbNode?, c: Ctx, t: Tree)
    requires Short(c, t) && Holds(m, root, c, t)
    ensures t.Node? ==> t.n in m && m[t.n].color == t.c
    ensures root == Top(t) <==> c.Hole?
    ensures c.InL? ==> c.n in m && m[c.n].left == Top(t)
    ensures c.InR? ==> c.n in m && m[c.n].left != Top(t)
  {
    if !c.Hole? {
      ShortSibling(c, t);
      ShortReads(m, root, c, t);
      RootInside(m, root, c, Top(t));
    }
  }

  /** After the node is out: one black node short where it was, or nothing amiss. */
  ghost predicate TakenOut(c: Ctx, t: Tree, color: Color) {
    if color == Black then Short(c, t) else RedBlack(Plug(c, t))
  }

  lemma TakenOutOne(c: Ctx, t: Tree, ch: Tree)
    requires t.Node? && ((t.l.Nil? && ch == t.r) || (t.r.Nil? && ch == t.l))
    requires Balanced(t) && NoRedRed(t) && CBalanced(c, BH(t)) && COk(c, IsRed(t))
    ensures TakenOut(c, ch, t.c)
  {
    COkBlack(c, IsRed(t));
    PlugBalanced(c, ch);
    PlugNoRedRed(c, ch);
  }

  lemma {:induction false} AppendPlug(seg: Ctx, outer: Ctx, t: Tree)
    ensures Plug(Append(seg, outer), t) == Plug(outer, Plug(seg, t))
  {
    match seg
    case Hole =>
    case InL(n, k, sib, up) => AppendPlug(up, outer, Node(t, n, k, sib));
    case InR(sib, n, k, up) => AppendPlug(up, outer, Node(sib, n, k, t));
  }

  lemma TakenOutSpliced(seg: Ctx, l: Tree, x: RbNode, k: Color, c: Ctx, s: RbNode, sk: Color, sr: Tree)
    requires RedBlack(Plug(Append(seg, InR(l, x, k, c)), Node(Nil, s, sk, sr)))
    ensures TakenOut(Append(seg, InR(l, s, k, c)), sr, sk)
  {
    var cs, ts := Append(seg, InR(l, x, k, c)), Node(Nil, s, sk, sr);
    PlugBalanced(cs, ts);
    PlugNoRedRed(cs, ts);
    OwnerSwap(seg, l, x, s, k, c, BH(ts), IsRed(ts));
    TakenOutOne(Append(seg, InR(l, s, k, c)), ts, sr);
  }

  lemma SpliceOrder(seg: Ctx, l: Tree, x: RbNode, k: Color, c: Ctx, s: RbNode, sk: Color, sr: Tree)
    requires AllLeft(seg)
    requires Apart(Append(seg, InR(l, x, k, c)), Node(Nil, s, sk, sr))
    ensures Inorder(Plug(Append(seg, InR(l, s, k, c)), sr))
         == Without(Inorder(Plug(Append(seg, InR(l, x, k, c)), Node(Nil, s, sk, sr))), x)
  {
    var ts, after := Node(Nil, s, sk, sr), Plug(seg, sr);
    var r := Plug(seg, ts);
    var t := Node(l, x, k, r);
    AppendPlug(seg, InR(l, x, k, c), ts);
    PlugDistinct(Append(seg, InR(l, x, k, c)), ts);
    PlugDistinct(c, t);
    PlugInorder(c, t);
    WithoutTop(c, t);
    AppendPlug(seg, InR(l, s, k, c), sr);
    PlugInorder(c, Node(l, s, k, after));
    SuccessorFirst(seg, s, sk, sr);
    Reassociate(Before(c), Inorder(l), [s], Inorder(after), After(c));
  }

  lemma SuccessorFirst(seg: Ctx, s: RbNode, sk: Color, sr: Tree)
    requires AllLeft(seg)
    ensures Inorder(Plug(seg, Node(Nil, s, sk, sr))) == [s] + Inorder(Plug(seg, sr))
  {
    AppendOrder(seg, Hole);
    PlugInorder(seg, Node(Nil, s, sk, sr));
    PlugInorder(seg, sr);
    assert [] + ([] + [s] + Inorder(sr)) + After(seg) == [s] + ([] + Inorder(sr) + After(seg));
  }

  lemma Reassociate(a: seq<RbNode>, l: seq<RbNode>, x: seq<RbNode>, r: seq<RbNode>, b: seq<RbNode>)
    ensures a + (l + x + r) + b == (a + l) + ((x + r) + b)
  {
  }

  lemma SpliceElems(seg: Ctx, l: Tree, x: RbNode, k: Color, c: Ctx, s: RbNode, sk: Color, sr: Tree)
    requires Apart(Append(seg, InR(l, x, k, c)), Node(Nil, s, sk, sr)) && AllLeft(seg)
    ensures Elems(Node(Nil, s, sk, sr)) + CElems(Append(seg, InR(l, x, k, c)))
         == CElems(seg) + CElems(c) + Elems(l) + {x, s} + Elems(sr)
    ensures Elems(sr) + CElems(Append(seg, InR(l, s, k, c)))
         == CElems(seg) + CElems(c) + Elems(l) + {s} + Elems(sr)
    ensures x !in CElems(seg) + CElems(c) + Elems(l) + {s} + Elems(sr)
  {
    SpliceParts(seg, l, x, k, c, s, sk, sr);
    AppendParts(seg, InR(l, s, k, c));
  }

  /** Everything about a splice that does not depend on memory afterwards. */
  lemma SpliceReady(m: Mem, root: RbNode?, seg: Ctx, l: Tree, x: RbNode, k: Color, c: Ctx, s: RbNode, sk: Color, sr: Tree)
    requires AllLeft(seg) && l.Node?
    requires Holds(m, root, Append(seg, InR(l, x, k, c)), Node(Nil, s, sk, sr))
    requires m.Keys == Elems(Node(Nil, s, sk, sr)) + CElems(Append(seg, InR(l, x, k, c)))
    requires RedBlack(Plug(Append(seg, InR(l, x, k, c)), Node(Nil, s, sk, sr)))
    ensures Spliceable(m, x, s) && m[s].right == Top(sr) && m[s].color == sk
    ensures (if m[s].parent == x then s else m[s].parent) == ParentOf(Append(seg, InR(l, s, k, c)))
    ensures TakenOut(Append(seg, InR(l, s, k, c)), sr, sk)
    ensures Inorder(Plug(Append(seg, InR(l, s, k, c)), sr))
         == Without(Inorder(Plug(Append(seg, InR(l, x, k, c)), Node(Nil, s, sk, sr))), x)
    ensures Elems(sr) + CElems(Append(seg, InR(l, s, k, c))) == m.Keys - {x}
  {
    SpliceElems(seg, l, x, k, c, s, sk, sr);
    SpliceSafe(m, root, seg, l, x, k, c, s, sk, sr);
    TakenOutSpliced(seg, l, x, k, c, s, sk, sr);
    SpliceOrder(seg, l, x, k, c, s, sk, sr);
    SpliceParts(seg, l, x, k, c, s, sk, sr);
  }

  lemma SpliceHolds(m: Mem, m': Mem, root: RbNode?, root': RbNode?,
      seg: Ctx, l: Tree, x: RbNode, k: Color, c: Ctx, s: RbNode, sk: Color, sr: Tree)
    requires AllLeft(seg) && x in m && s in m && x != s
    requires Holds(m, root, Append(seg, InR(l, x, k, c)), Node(Nil, s, sk, sr))
    requires m.Keys == Elems(Node(Nil, s, sk, sr)) + CElems(Append(seg, InR(l, x, k, c)))
    requires Spliced(m, m', root, root', x, s)
    ensures Holds(m', root', Append(seg, InR(l, s, k, c)), sr)
  {
    SpliceElems(seg, l, x, k, c, s, sk, sr);
    if seg.Hole? {
      SpliceNear(m, m', root, root', l, x, k, c, s, sk, sr);
    } else {
      SpliceFar(m, m', root, root', seg, l, x, k, c, s, sk, sr);
    }
  }
}
