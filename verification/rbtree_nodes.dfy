/** lib/rbtree.c: parent-linked red-black trees.

    Nodes live on the heap with the four fields of `struct rb_node` (the packed
    parent/colour word is two fields).  A ghost `Tree` says which nodes hang where;
    a ghost `Ctx` (the path from a node up to the root) says what surrounds it, so
    the loops that climb by reassigning `node` and `parent` are specified by the
    pair (context, subtree in focus). */
module RbNodes {

  datatype Color = Red | Black

  class RbNode {
    var parent: RbNode?
    var color: Color
    var left: RbNode?
    var right: RbNode?

    constructor ()
      ensures parent == null && left == null && right == null && color == Red
    {
      parent, left, right, color := null, null, null, Red;
    }
  }

  // ---------- trees and contexts as values ----------

  datatype Tree = Nil | Node(l: Tree, n: RbNode, c: Color, r: Tree)

  /** The way up from a hole: `InL` means the hole is the left child of `n`. */
  datatype Ctx =
    | Hole
    | InL(n: RbNode, c: Color, sib: Tree, up: Ctx)
    | InR(sib: Tree, n: RbNode, c: Color, up: Ctx)

  ghost function Elems(t: Tree): set<RbNode> {
    if t.Nil? then {} else Elems(t.l) + {t.n} + Elems(t.r)
  }

  ghost function Top(t: Tree): (x: RbNode?)
    ensures x == null <==> t.Nil?
    ensures x != null ==> x in Elems(t)
  {
    if t.Nil? then null else t.n
  }

  ghost function Inorder(t: Tree): seq<RbNode> {
    if t.Nil? then [] else Inorder(t.l) + [t.n] + Inorder(t.r)
  }

  ghost predicate Distinct(t: Tree) {
    t.Node? ==>
      && t.n !in Elems(t.l) && t.n !in Elems(t.r) && Elems(t.l) !! Elems(t.r)
      && Distinct(t.l) && Distinct(t.r)
  }

  ghost function Plug(c: Ctx, t: Tree): Tree {
    match c
    case Hole => t
    case InL(n, k, sib, up) => Plug(up, Node(t, n, k, sib))
    case InR(sib, n, k, up) => Plug(up, Node(sib, n, k, t))
  }

  ghost function CElems(c: Ctx): set<RbNode> {
    if c.Hole? then {} else Elems(c.sib) + {c.n} + CElems(c.up)
  }

  /** The nodes before and after the hole, in order. */
  ghost function Before(c: Ctx): seq<RbNode> {
    match c
    case Hole => []
    case InL(n, k, sib, up) => Before(up)
    case InR(sib, n, k, up) => Before(up) + Inorder(sib) + [n]
  }

  ghost function After(c: Ctx): seq<RbNode> {
    match c
    case Hole => []
    case InL(n, k, sib, up) => [n] + Inorder(sib) + After(up)
    case InR(sib, n, k, up) => After(up)
  }

  ghost function Depth(c: Ctx): nat {
    if c.Hole? then 0 else 1 + Depth(c.up)
  }

  ghost predicate CDistinct(c: Ctx) {
    !c.Hole? ==>
      && c.n !in Elems(c.sib) && c.n !in CElems(c.up) && Elems(c.sib) !! CElems(c.up)
      && Distinct(c.sib) && CDistinct(c.up)
  }

  // ---------- what memory holds ----------

  /** A snapshot of a node's fields, and of all the nodes of a set. */
  datatype Cell = Cell(parent: RbNode?, color: Color, left: RbNode?, right: RbNode?)
  type Mem = map<RbNode, Cell>

  ghost function Cells(s: set<RbNode>): (m: Mem)
    reads s
    ensures m.Keys == s
  {
    map n | n in s :: Cell(n.parent, n.color, n.left, n.right)
  }

  /** Memory holds `t`, and its top node's parent link is `p`. */
  ghost predicate Repr(m: Mem, t: Tree, p: RbNode?) {
    t.Node? ==>
      && t.n in m && m[t.n] == Cell(p, t.c, Top(t.l), Top(t.r))
      && Repr(m, t.l, t.n) && Repr(m, t.r, t.n)
  }

  lemma ReprKids(m: Mem, t: Tree, p: RbNode?)
    requires Repr(m, t, p) && t.Node?
    ensures t.n in m && m[t.n] == Cell(p, t.c, Top(t.l), Top(t.r)) && Repr(m, t.l, t.n) && Repr(m, t.r, t.n)
  {
  }

  ghost function ParentOf(c: Ctx): (p: RbNode?)
    ensures p != null ==> p in CElems(c)
  {
    if c.Hole? then null else c.n
  }

  /** Memory holds `c` with `hole` in its hole, under the root link `root`. */
  ghost predicate CRepr(m: Mem, root: RbNode?, c: Ctx, hole: RbNode?) {
    match c
    case Hole => root == hole
    case InL(n, k, sib, up) =>
      && n in m && m[n] == Cell(ParentOf(up), k, hole, Top(sib))
      && Repr(m, sib, n) && CRepr(m, root, up, n)
    case InR(sib, n, k, up) =>
      && n in m && m[n] == Cell(ParentOf(up), k, Top(sib), hole)
      && Repr(m, sib, n) && CRepr(m, root, up, n)
  }

  /** No node occurs twice in `t` inside `c`. */
  ghost predicate Apart(c: Ctx, t: Tree) {
    Distinct(t) && CDistinct(c) && Elems(t) !! CElems(c)
  }

  /** Memory holds `t` inside `c`, and nothing is shared. */
  ghost predicate Holds(m: Mem, root: RbNode?, c: Ctx, t: Tree) {
    Apart(c, t) && Repr(m, t, ParentOf(c)) && CRepr(m, root, c, Top(t))
  }

  // ---------- framing: what a change of memory leaves alone ----------

  lemma {:induction false} ReprFrame(m: Mem, m': Mem, t: Tree, p: RbNode?)
    requires Repr(m, t, p)
    requires forall n :: n in Elems(t) && n in m ==> n in m' && m'[n] == m[n]
    ensures Repr(m', t, p)
  {
    if t.Node? {
      ReprFrame(m, m', t.l, t.n);
      ReprFrame(m, m', t.r, t.n);
    }
  }

  /** The same, but the top node's parent link may change. */
  lemma ReprMoved(m: Mem, m': Mem, t: Tree, p: RbNode?, p': RbNode?)
    requires Repr(m, t, p) && Distinct(t)
    requires forall n :: n in Elems(t) && n in m ==>
      n in m' && m'[n] == (if n == Top(t) then m[n].(parent := p') else m[n])
    ensures Repr(m', t, p')
  {
    if t.Node? {
      ReprFrame(m, m', t.l, t.n);
      ReprFrame(m, m', t.r, t.n);
    }
  }

  lemma {:induction false} CReprFrame(m: Mem, m': Mem, root: RbNode?, c: Ctx, hole: RbNode?)
    requires CRepr(m, root, c, hole)
    requires forall n :: n in CElems(c) && n in m ==> n in m' && m'[n] == m[n]
    ensures CRepr(m', root, c, hole)
  {
    if !c.Hole? {
      ReprFrame(m, m', c.sib, c.n);
      CReprFrame(m, m', root, c.up, c.n);
    }
  }

  /** The slot that held `hole` (a link of the parent, or the root) now holds `hole'`. */
  ghost predicate Relinked(m: Mem, m': Mem, root: RbNode?, root': RbNode?, c: Ctx, hole: RbNode?, hole': RbNode?) {
    && root' == (if c.Hole? then hole' else root)
    && (forall n :: n in CElems(c) && n in m ==>
          && n in m'
          && m'[n] == (if n != ParentOf(c) then m[n]
                       else if m[n].left == hole then m[n].(left := hole')
                       else m[n].(right := hole')))
  }

  lemma CReprRelinked(m: Mem, m': Mem, root: RbNode?, root': RbNode?, c: Ctx, hole: RbNode, hole': RbNode?)
    requires CRepr(m, root, c, hole) && CDistinct(c) && hole !in CElems(c)
    requires CElems(c) <= m.Keys
    requires Relinked(m, m', root, root', c, hole, hole')
    ensures CRepr(m', root', c, hole')
  {
    if !c.Hole? {
      ReprFrame(m, m', c.sib, c.n);
      CReprFrame(m, m', root, c.up, c.n);
    }
  }

  // ---------- the red-black rules ----------

  ghost predicate IsRed(t: Tree) { t.Node? && t.c == Red }

  ghost function BH(t: Tree): nat {
    if t.Nil? then 0 else BH(t.l) + (if t.c == Black then 1 else 0)
  }

  /** Every path from the top to a leaf passes the same number of black nodes. */
  ghost predicate Balanced(t: Tree) {
    t.Node? ==> BH(t.l) == BH(t.r) && Balanced(t.l) && Balanced(t.r)
  }

  ghost predicate NoRedRed(t: Tree) {
    t.Node? ==>
      && (t.c == Red ==> !IsRed(t.l) && !IsRed(t.r))
      && NoRedRed(t.l) && NoRedRed(t.r)
  }

  ghost predicate RedBlack(t: Tree) { Balanced(t) && NoRedRed(t) && !IsRed(t) }

  /** Filling the hole with a balanced tree of black height `h` gives a balanced tree. */
  ghost predicate CBalanced(c: Ctx, h: nat) {
    !c.Hole? ==>
      && Balanced(c.sib) && BH(c.sib) == h
      && CBalanced(c.up, h + (if c.c == Black then 1 else 0))
  }

  /** No red node above the hole has a red child, nor is the outermost node red,
      when the hole is filled with a node of the colour told by `red`. */
  ghost predicate COk(c: Ctx, red: bool) {
    if c.Hole? then !red else
      && (c.c == Red ==> !red && !IsRed(c.sib))
      && NoRedRed(c.sib)
      && COk(c.up, c.c == Red)
  }

  ghost function Blacken(t: Tree): Tree { if t.Nil? then Nil else t.(c := Black) }

  // ---------- splitting a tree at a node ----------

  /** One level of `Plug`. */
  ghost function Fill(c: Ctx, t: Tree): Tree
    requires !c.Hole?
  {
    if c.InL? then Node(t, c.n, c.c, c.sib) else Node(c.sib, c.n, c.c, t)
  }

  lemma {:induction false} PlugElems(c: Ctx, t: Tree)
    ensures Elems(Plug(c, t)) == Elems(t) + CElems(c)
  {
    match c
    case Hole =>
    case InL(n, k, sib, up) => PlugElems(up, Node(t, n, k, sib));
    case InR(sib, n, k, up) => PlugElems(up, Node(sib, n, k, t));
  }

  lemma {:induction false} PlugInorder(c: Ctx, t: Tree)
    ensures Inorder(Plug(c, t)) == Before(c) + Inorder(t) + After(c)
  {
    match c
    case Hole =>
    case InL(n, k, sib, up) => PlugInorder(up, Node(t, n, k, sib));
    case InR(sib, n, k, up) => PlugInorder(up, Node(sib, n, k, t));
  }

  /** Only the order of the plugged tree matters for the order of the whole. */
  lemma PlugOrder(c: Ctx, t: Tree, t': Tree)
    requires Inorder(t) == Inorder(t')
    ensures Inorder(Plug(c, t)) == Inorder(Plug(c, t'))
  {
    PlugInorder(c, t);
    PlugInorder(c, t');
  }

  lemma {:induction false} PlugDistinct(c: Ctx, t: Tree)
    ensures Distinct(Plug(c, t)) <==> Apart(c, t)
  {
    match c
    case Hole =>
    case InL(n, k, sib, up) => PlugDistinct(up, Node(t, n, k, sib));
    case InR(sib, n, k, up) => PlugDistinct(up, Node(sib, n, k, t));
  }

  lemma {:induction false} PlugRepr(m: Mem, root: RbNode?, c: Ctx, t: Tree)
    ensures Repr(m, Plug(c, t), null) && root == Top(Plug(c, t)) <==>
      Repr(m, t, ParentOf(c)) && CRepr(m, root, c, Top(t))
  {
    match c
    case Hole =>
    case InL(n, k, sib, up) => PlugRepr(m, root, up, Node(t, n, k, sib));
    case InR(sib, n, k, up) => PlugRepr(m, root, up, Node(sib, n, k, t));
  }

  /** A tree in memory, as a whole and as a subtree in its context. */
  lemma HoldsPlug(m: Mem, root: RbNode?, c: Ctx, t: Tree)
    ensures Holds(m, root, Hole, Plug(c, t)) <==> Holds(m, root, c, t)
  {
    PlugDistinct(c, t);
    PlugRepr(m, root, c, t);
  }

  lemma {:induction false} PlugBalanced(c: Ctx, t: Tree)
    ensures Balanced(Plug(c, t)) <==> Balanced(t) && CBalanced(c, BH(t))
  {
    if !c.Hole? {
      var t' := Fill(c, t);
      PlugBalanced(c.up, t');
      assert Balanced(t') <==> Balanced(t) && Balanced(c.sib) && BH(t) == BH(c.sib);
      assert Balanced(t') ==> BH(t') == BH(t) + (if c.c == Black then 1 else 0);
    }
  }

  lemma {:induction false} PlugNoRedRed(c: Ctx, t: Tree)
    ensures NoRedRed(Plug(c, t)) && !IsRed(Plug(c, t)) <==> NoRedRed(t) && COk(c, IsRed(t))
  {
    match c
    case Hole =>
    case InL(n, k, sib, up) => PlugNoRedRed(up, Node(t, n, k, sib));
    case InR(sib, n, k, up) => PlugNoRedRed(up, Node(sib, n, k, t));
  }

  /** A context that is fine around a red node is fine around a black one. */
  lemma COkBlack(c: Ctx, red: bool)
    requires COk(c, red)
    ensures COk(c, false)
  {
  }

  /** Every node of a tree is the top of a subtree in some context. */
  lemma {:induction false} Locate(c: Ctx, t: Tree, x: RbNode) returns (cx: Ctx, tx: Tree)
    requires x in Elems(t)
    ensures Plug(cx, tx) == Plug(c, t) && tx.Node? && tx.n == x
    decreases t
  {
    if t.n == x {
      cx, tx := c, t;
    } else if x in Elems(t.l) {
      cx, tx := Locate(InL(t.n, t.c, t.r, c), t.l, x);
    } else {
      cx, tx := Locate(InR(t.l, t.n, t.c, c), t.r, x);
    }
  }

  /** A rotation keeps the nodes, their distinctness and their order, whatever the colours. */
  lemma RotationElems(a: Tree, x: RbNode, b: Tree, y: RbNode, d: Tree, cx: Color, cy: Color, cx': Color, cy': Color)
    ensures Elems(Node(Node(a, x, cx, b), y, cy, d)) == Elems(Node(a, x, cx', Node(b, y, cy', d)))
    ensures Distinct(Node(Node(a, x, cx, b), y, cy, d)) <==> Distinct(Node(a, x, cx', Node(b, y, cy', d)))
  {
    var l, r := Node(a, x, cx, b), Node(b, y, cy', d);
    assert Elems(l) == Elems(a) + {x} + Elems(b) && Elems(r) == Elems(b) + {y} + Elems(d);
  }

  lemma RotationOrder(a: Tree, x: RbNode, b: Tree, y: RbNode, d: Tree, cx: Color, cy: Color, cx': Color, cy': Color)
    ensures Inorder(Node(Node(a, x, cx, b), y, cy, d)) == Inorder(Node(a, x, cx', Node(b, y, cy', d)))
  {
    var l, r := Node(a, x, cx, b), Node(b, y, cy', d);
    assert Inorder(l) + [y] + Inorder(d) == Inorder(a) + [x] + Inorder(r);
  }

  lemma {:induction false} InorderElems(t: Tree, n: RbNode)
    ensures n in Inorder(t) <==> n in Elems(t)
  {
    if t.Node? {
      InorderElems(t.l, n);
      InorderElems(t.r, n);
    }
  }

  lemma {:induction false} BeforeElems(c: Ctx, n: RbNode)
    requires n in Before(c)
    ensures n in CElems(c)
  {
    InorderElems(c.sib, n);
    if c.InL? || n in Before(c.up) {
      BeforeElems(c.up, n);
    }
  }

  lemma Regroup(a: seq<RbNode>, l: seq<RbNode>, x: RbNode, r: seq<RbNode>, b: seq<RbNode>)
    ensures a + (l + [x] + r) + b == (a + l) + [x] + (r + b)
  {
  }
}
