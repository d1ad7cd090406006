/** lib/rbtree.c: the nodes in order, the neighbours of a node, and what comes and goes. */
module RbOrder {
  import opened Basics
  import opened RbNodes

  /** `y` is what follows (precedes) `x` in `s`; null past the end. */
  ghost predicate IsNext(s: seq<RbNode>, x: RbNode, y: RbNode?) {
    forall i {:trigger s[i]} :: 0 <= i < |s| && s[i] == x ==> y == if i + 1 < |s| then s[i + 1] else null
  }

  ghost predicate IsPrev(s: seq<RbNode>, x: RbNode, y: RbNode?) {
    forall i {:trigger s[i]} :: 0 <= i < |s| && s[i] == x ==> y == if i > 0 then s[i - 1] else null
  }

  lemma {:induction false} InorderNoDup(t: Tree)
    requires Distinct(t)
    ensures NoDup(Inorder(t))
  {
    if t.Node? {
      InorderNoDup(t.l);
      InorderNoDup(t.r);
      var a, b := Inorder(t.l), Inorder(t.r);
      forall i, j | 0 <= i < j < |Inorder(t)|
        ensures Inorder(t)[i] != Inorder(t)[j]
      {
        if i < |a| && j > |a| {
          InorderElems(t.l, a[i]);
          InorderElems(t.r, b[j - |a| - 1]);
        }
        if i < |a| {
          InorderElems(t.l, a[i]);
        }
        if j > |a| {
          InorderElems(t.r, b[j - |a| - 1]);
        }
      }
    }
  }

  /** The first (last) node of a tree, if any. */
  ghost function FirstOf(s: seq<RbNode>): RbNode? { if s == [] then null else s[0] }

  ghost function LastOf(s: seq<RbNode>): RbNode? { if s == [] then null else s[|s| - 1] }

  /** The neighbours of the node in focus. */
  lemma FocusNext(c: Ctx, t: Tree)
    requires t.Node? && Distinct(Plug(c, t))
    ensures IsNext(Inorder(Plug(c, t)), t.n, FirstOf(Inorder(t.r) + After(c)))
    ensures IsPrev(Inorder(Plug(c, t)), t.n, LastOf(Before(c) + Inorder(t.l)))
  {
    PlugInorder(c, t);
    InorderNoDup(Plug(c, t));
    Regroup(Before(c), Inorder(t.l), t.n, Inorder(t.r), After(c));
    Neighbours(Before(c) + Inorder(t.l), t.n, Inorder(t.r) + After(c));
  }

  /** The stretch of the order that the focus covers: positions `Lo` up to `Hi`. */
  ghost function Lo(c: Ctx): nat { |Before(c)| }

  ghost function Hi(c: Ctx, t: Tree): nat { |Before(c)| + |Inorder(t)| }

  lemma Stretch(c: Ctx, t: Tree, mid: nat)
    requires t.Node? && mid == |Before(c)| + |Inorder(t.l)|
    ensures Lo(c) <= mid < Hi(c, t) <= |Inorder(Plug(c, t))| && Inorder(Plug(c, t))[mid] == t.n
    ensures Lo(InL(t.n, t.c, t.r, c)) == Lo(c) && Hi(InL(t.n, t.c, t.r, c), t.l) == mid
    ensures Lo(InR(t.l, t.n, t.c, c)) == mid + 1 && Hi(InR(t.l, t.n, t.c, c), t.r) == Hi(c, t)
  {
    PlugInorder(c, t);
    Regroup(Before(c), Inorder(t.l), t.n, Inorder(t.r), After(c));
    assert ((Before(c) + Inorder(t.l)) + [t.n] + (Inorder(t.r) + After(c)))[mid] == t.n;
  }

  /** The stretch of the order below `x`, when the order of `t` starts at position `off`. */
  ghost function Span(t: Tree, off: nat, x: RbNode): (nat, nat) {
    if t.Nil? || x == t.n then (off, off + |Inorder(t)|)
    else if x in Elems(t.l) then Span(t.l, off, x)
    else Span(t.r, off + |Inorder(t.l)| + 1, x)
  }

  lemma {:induction false} SpanPlug(c: Ctx, t: Tree, x: RbNode)
    requires x in Elems(t) && Apart(c, t)
    ensures Span(Plug(c, t), 0, x) == Span(t, Lo(c), x)
  {
    match c
    case Hole =>
    case InL(n, k, sib, up) => SpanPlug(up, Node(t, n, k, sib), x);
    case InR(sib, n, k, up) => SpanPlug(up, Node(sib, n, k, t), x);
  }

  /** The children of a node divide its stretch between them. */
  lemma SpanKids(t: Tree, off: nat)
    requires t.Node? && Distinct(t)
    ensures Span(t, off, t.n) == (off, off + |Inorder(t)|)
    ensures t.l.Node? ==> Span(t, off, t.l.n) == (off, off + |Inorder(t.l)|)
    ensures t.r.Node? ==> Span(t, off, t.r.n) == (off + |Inorder(t.l)| + 1, off + |Inorder(t)|)
  {
  }

  lemma Neighbours(a: seq<RbNode>, x: RbNode, b: seq<RbNode>)
    requires NoDup(a + [x] + b)
    ensures IsNext(a + [x] + b, x, FirstOf(b))
    ensures IsPrev(a + [x] + b, x, LastOf(a))
  {
    assert (a + [x] + b)[|a|] == x;
  }

  /** Going right and coming back to the left is staying put, and the other way round. */
  lemma NextPrevInverse(s: seq<RbNode>, x: RbNode, y: RbNode)
    requires NoDup(s) && x in s && y in s
    ensures IsNext(s, x, y) <==> IsPrev(s, y, x)
  {
  }

  /** The tree `s` without its first `x`. */
  ghost function Without(s: seq<RbNode>, x: RbNode): seq<RbNode> {
    if s == [] then [] else if s[0] == x then s[1..] else [s[0]] + Without(s[1..], x)
  }

  lemma {:induction false} WithoutAt(a: seq<RbNode>, x: RbNode, b: seq<RbNode>)
    requires x !in a
    ensures Without(a + [x] + b, x) == a + b
  {
    var s := a + [x] + b;
    if a == [] {
      assert s[1..] == b;
    } else {
      WithoutAt(a[1..], x, b);
      assert s[1..] == a[1..] + [x] + b;
      assert [a[0]] + (a[1..] + b) == a + b;
    }
  }

  /** `s'` is `s` with `x` put in just before (`left`) or just after `p`. */
  ghost predicate InsertedBeside(s: seq<RbNode>, s': seq<RbNode>, x: RbNode, p: RbNode?, left: bool) {
    exists k :: Beside(s, k, p, left) && s' == s[..k] + [x] + s[k..]
  }

  /** Position `k` is just before (after) `p`. */
  ghost predicate Beside(s: seq<RbNode>, k: int, p: RbNode?, left: bool) {
    && 0 <= k <= |s|
    && (p == null ==> s == [])
    && (p != null ==> if left then k < |s| && s[k] == p else k > 0 && s[k - 1] == p)
  }

  lemma BesideParent(a: seq<RbNode>, b: seq<RbNode>, x: RbNode, p: RbNode?, left: bool)
    requires p == null ==> a + b == []
    requires p != null ==> if left then b != [] && b[0] == p else a != [] && a[|a| - 1] == p
    ensures InsertedBeside(a + b, a + ([] + [x] + []) + b, x, p, left)
  {
    var s, k := a + b, |a|;
    assert s[..k] == a && s[k..] == b;
    assert a + ([] + [x] + []) + b == s[..k] + [x] + s[k..];
    assert Beside(s, k, p, left);
  }
}
