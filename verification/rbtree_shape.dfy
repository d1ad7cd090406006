/** What the red-black rules of lib/rbtree.c come to: a definition by paths, and the height. */
module RbShape {
  import opened RbNodes
  import opened RbOrder
  import opened RbTree

  /** The nodes met on the way down from the root to a missing child, true meaning right. */
  ghost predicate IsPath(t: Tree, p: seq<bool>) {
    if t.Nil? then p == [] else p != [] && IsPath(if p[0] then t.r else t.l, p[1..])
  }

  ghost function Blacks(t: Tree, p: seq<bool>): nat
    requires IsPath(t, p)
  {
    if t.Nil? then 0 else (if t.c == Black then 1 else 0) + Blacks(if p[0] then t.r else t.l, p[1..])
  }

  ghost predicate SameBlacks(t: Tree, p: seq<bool>, q: seq<bool>) {
    IsPath(t, p) && IsPath(t, q) ==> Blacks(t, p) == Blacks(t, q)
  }

  /** Every way down meets as many black nodes as any other. */
  ghost predicate EqualPaths(t: Tree) { forall p, q :: SameBlacks(t, p, q) }

  /** Leftmost path, to have one. */
  lemma {:induction false} SomePath(t: Tree) returns (p: seq<bool>)
    ensures IsPath(t, p)
  {
    if t.Nil? {
      p := [];
    } else {
      var q := SomePath(t.l);
      p := [false] + q;
      assert p[1..] == q;
    }
  }

  /** The rule that the code maintains level by level is the one about paths. */
  lemma {:induction false} BalancedIsEqualPaths(t: Tree)
    ensures Balanced(t) <==> EqualPaths(t)
  {
    if t.Node? {
      BalancedIsEqualPaths(t.l);
      BalancedIsEqualPaths(t.r);
      if Balanced(t) {
        forall p, q
          ensures SameBlacks(t, p, q)
        {
          if IsPath(t, p) && IsPath(t, q) {
            BlacksAre(t, p);
            BlacksAre(t, q);
          }
        }
      }
      if EqualPaths(t) {
        KidsEqual(t);
      }
    }
  }

  lemma {:induction false} BlacksAre(t: Tree, p: seq<bool>)
    requires Balanced(t) && IsPath(t, p)
    ensures Blacks(t, p) == BH(t)
  {
    if t.Node? {
      BlacksAre(if p[0] then t.r else t.l, p[1..]);
    }
  }

  /** Paths of the whole tree through either child. */
  lemma KidsEqual(t: Tree)
    requires t.Node? && EqualPaths(t)
    requires (Balanced(t.l) <==> EqualPaths(t.l)) && (Balanced(t.r) <==> EqualPaths(t.r))
    ensures Balanced(t)
  {
    var l := SomePath(t.l);
    var r := SomePath(t.r);
    forall p, q
      ensures SameBlacks(t.l, p, q) && SameBlacks(t.r, p, q)
    {
      Longer(t, false, p);
      Longer(t, false, q);
      Longer(t, true, p);
      Longer(t, true, q);
      assert SameBlacks(t, [false] + p, [false] + q) && SameBlacks(t, [true] + p, [true] + q);
    }
    Longer(t, false, l);
    Longer(t, true, r);
    assert SameBlacks(t, [false] + l, [true] + r);
    BlacksAre(t.l, l);
    BlacksAre(t.r, r);
  }

  lemma Longer(t: Tree, right: bool, p: seq<bool>)
    requires t.Node?
    ensures var k := if right then t.r else t.l;
      && (IsPath(t, [right] + p) <==> IsPath(k, p))
      && (IsPath(k, p) ==> Blacks(t, [right] + p) == (if t.c == Black then 1 else 0) + Blacks(k, p))
  {
  }

  /** No path is more than twice as long as its black nodes are many, a red root aside. */
  lemma {:induction false} PathLength(t: Tree, p: seq<bool>)
    requires NoRedRed(t) && IsPath(t, p)
    ensures |p| <= 2 * Blacks(t, p) + (if IsRed(t) then 1 else 0)
  {
    if t.Node? {
      PathLength(if p[0] then t.r else t.l, p[1..]);
    }
  }

  ghost function Power(n: nat): nat { if n == 0 then 1 else 2 * Power(n - 1) }

  lemma {:induction false} Bushy(t: Tree)
    requires Balanced(t)
    ensures Power(BH(t)) <= |Inorder(t)| + 1
  {
    if t.Node? {
      Bushy(t.l);
      Bushy(t.r);
    }
  }

  /** A red-black tree is shallow: a path of `n` nodes means at least 2^(n/2) - 1 nodes in all. */
  lemma Shallow(t: Tree, p: seq<bool>)
    requires RedBlack(t) && IsPath(t, p)
    ensures Power((|p| + 1) / 2) <= |Inorder(t)| + 1
  {
    PathLength(t, p);
    BlacksAre(t, p);
    Bushy(t);
    PowerGrows((|p| + 1) / 2, BH(t));
  }

  lemma {:induction false} PowerGrows(a: nat, b: nat)
    requires a <= b
    ensures Power(a) <= Power(b)
  {
    if a < b {
      PowerGrows(a, b - 1);
    }
  }
}
