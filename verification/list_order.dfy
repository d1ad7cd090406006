/** mm/page_alloc.c: in what order the blocks stand on the free lists, which are taken from
    at the head. */
module ListOrder {
  import opened Align
  import opened BuddyBlocks
  import opened ZoneLists

  /** What is left of a list when only the blocks of `s` stay, in the order that they had. */
  ghost function Among(l: seq<nat>, s: set<nat>): seq<nat> {
    if l == [] then [] else Among(l[..|l| - 1], s) + if l[|l| - 1] in s then [l[|l| - 1]] else []
  }

  lemma {:induction false} AmongAll(l: seq<nat>, s: set<nat>)
    requires forall i :: 0 <= i < |l| ==> l[i] in s
    ensures Among(l, s) == l
  {
    if l != [] {
      AmongAll(l[..|l| - 1], s);
    }
  }

  lemma {:induction false} AmongJoin(a: seq<nat>, c: seq<nat>, s: set<nat>)
    ensures Among(a + c, s) == Among(a, s) + Among(c, s)
  {
    if c == [] {
      assert a + c == a;
    } else {
      assert (a + c)[..|a + c| - 1] == a + c[..|c| - 1];
      AmongJoin(a, c[..|c| - 1], s);
    }
  }

  lemma {:induction false} AmongTwice(l: seq<nat>, s: set<nat>, u: set<nat>)
    ensures Among(Among(l, s), u) == Among(l, s * u)
  {
    if l != [] {
      var x := l[|l| - 1];
      AmongTwice(l[..|l| - 1], s, u);
      AmongJoin(Among(l[..|l| - 1], s), if x in s then [x] else [], u);
      AmongOne(x, u);
    }
  }

  lemma AmongOne(x: nat, s: set<nat>)
    ensures Among([x], s) == if x in s then [x] else []
  {
  }

  lemma {:induction false} AmongIs(l: seq<nat>, s: set<nat>, p: nat)
    ensures p in Among(l, s) <==> p in l && p in s
  {
    if l != [] {
      AmongIs(l[..|l| - 1], s, p);
      assert l == l[..|l| - 1] + [l[|l| - 1]];
    }
  }

  /** The free blocks of order `k` that start in [lo, hi), the highest first. */
  ghost function Down(b: Blocks, k: nat, lo: nat, hi: nat): seq<nat> {
    if hi <= lo then [] else (if hi - 1 in b && b[hi - 1] == k then [hi - 1] else []) + Down(b, k, lo, hi - 1)
  }

  lemma {:induction false} DownIs(b: Blocks, k: nat, lo: nat, hi: nat, p: nat)
    ensures p in Down(b, k, lo, hi) <==> p in b && b[p] == k && lo <= p < hi
    decreases hi
  {
    if hi > lo {
      DownIs(b, k, lo, hi - 1, p);
    }
  }

  lemma {:induction false} DownFalls(b: Blocks, k: nat, lo: nat, hi: nat, i: nat, j: nat)
    requires i < j < |Down(b, k, lo, hi)|
    ensures Down(b, k, lo, hi)[i] > Down(b, k, lo, hi)[j]
    decreases hi
  {
    var d, d' := Down(b, k, lo, hi), Down(b, k, lo, hi - 1);
    if hi - 1 in b && b[hi - 1] == k {
      assert d == [hi - 1] + d';
      hide Down;
      if i > 0 {
        DownFalls(b, k, lo, hi - 1, i - 1, j - 1);
      } else {
        DownIs(b, k, lo, hi - 1, d'[j - 1]);
      }
    } else {
      assert d == d';
      DownFalls(b, k, lo, hi - 1, i, j);
    }
  }

  lemma {:induction false} DownGap(b: Blocks, k: nat, lo: nat, p: nat, hi: nat)
    requires lo <= p <= hi && forall x :: p <= x < hi ==> x !in b
    ensures Down(b, k, lo, hi) == Down(b, k, lo, p)
    decreases hi
  {
    if hi > p {
      DownGap(b, k, lo, p, hi - 1);
    }
  }

  /** The free blocks of order `k` outside the window. */
  ghost function Out(b: Blocks, k: nat, w: (nat, nat)): set<nat> { set p | p in b && b[p] == k && !(w.0 <= p < w.1) }

  /** The blocks that are no longer free left their lists; the others stand as they stood. */
  ghost predicate Survive(ls: FreeLists, ls': FreeLists, b': Blocks) {
    && Shaped(ls) && Shaped(ls')
    && forall k: nat, t: nat :: k < MAX_ORDER && t < MIGRATE_TYPES ==> ls'[k][t] == Among(ls[k][t], Heads(b', k))
  }

  /** Block `p` joined list `m` of its order, first or last; the blocks that are still free
      stand as they stood. */
  ghost predicate Placed(ls: FreeLists, ls': FreeLists, b': Blocks, p: nat, m: nat, last: bool)
    requires p in b'
  {
    && Shaped(ls) && Shaped(ls')
    && forall k: nat, t: nat :: k < MAX_ORDER && t < MIGRATE_TYPES ==>
      var l := Among(ls[k][t], Heads(b', k) - {p});
      ls'[k][t] == if k == b'[p] && t == m then (if last then l + [p] else [p] + l) else l
  }

  /** The upper halves of the block at `p`, one of each order from `low` up to `high`, are
      first on their lists of type `m`. */
  ghost predicate Cut(ls: FreeLists, ls': FreeLists, p: nat, low: nat, high: nat, m: nat) {
    && Shaped(ls) && Shaped(ls')
    && forall k: nat, t: nat :: k < MAX_ORDER && t < MIGRATE_TYPES ==>
      ls'[k][t] == (if t == m && low <= k < high then [p + Pow2(k)] else []) + ls[k][t]
  }

  /** Block `p` is first on list `m` of its order; the others stand as they stood. */
  ghost predicate Moved(ls: FreeLists, b: Blocks, ls': FreeLists, p: nat, m: nat)
    requires p in b
  {
    && Shaped(ls) && Shaped(ls')
    && forall k: nat, t: nat :: k < MAX_ORDER && t < MIGRATE_TYPES ==>
      ls'[k][t] == (if k == b[p] && t == m then [p] else []) + Among(ls[k][t], Heads(b, k) - {p})
  }

  /** The blocks of the window are first on the lists of type `m`, the highest before the
      others; the blocks outside stand as they stood. */
  ghost predicate Gathered(ls: FreeLists, b: Blocks, ls': FreeLists, w: (nat, nat), m: nat) {
    && Shaped(ls) && Shaped(ls')
    && forall k: nat, t: nat :: k < MAX_ORDER && t < MIGRATE_TYPES ==>
      ls'[k][t] == (if t == m then Down(b, k, w.0, w.1) else []) + Among(ls[k][t], Out(b, k, w))
  }

  /** Block `p` is gone.  Its upper halves down to order `o` are first on the lists of type
      `m`.  After them, on the lists of type `start`, come the blocks of the window, the
      highest first; the blocks outside it stand as they stood. */
  ghost predicate BrokenUp(ls: FreeLists, b: Blocks, ls': FreeLists, p: nat, o: nat, m: nat, w: (nat, nat), start: nat)
    requires p in b
  {
    && Shaped(ls) && Shaped(ls')
    && forall k: nat, t: nat :: k < MAX_ORDER && t < MIGRATE_TYPES ==>
      ls'[k][t] == (if t == m && o <= k < b[p] then [p + Pow2(k)] else [])
        + (if t == start then Among(Down(b, k, w.0, w.1), Heads(b, k) - {p}) else [])
        + Among(ls[k][t], Out(b, k, w) - {p})
  }

  lemma AllHeads(ls: FreeLists, b: Blocks, k: nat, t: nat)
    requires Listed(ls, b) && k < MAX_ORDER && t < MIGRATE_TYPES
    ensures Shaped(ls) && forall i :: 0 <= i < |ls[k][t]| ==> ls[k][t][i] in Heads(b, k)
  {
    hide Flat;
    forall i | 0 <= i < |ls[k][t]|
      ensures ls[k][t][i] in Heads(b, k)
    {
      ListedIs(ls, b, k, t, ls[k][t][i]);
    }
  }

  /** A free block stands in one place only. */
  lemma OnePlaceOnly(ls: FreeLists, b: Blocks, o: nat, m: nat, i: nat, m': nat, i': nat)
    requires Listed(ls, b) && o < MAX_ORDER && m < MIGRATE_TYPES && m' < MIGRATE_TYPES
    requires i < |ls[o][m]| && i' < |ls[o][m']| && ls[o][m][i] == ls[o][m'][i']
    ensures m == m' && i == i'
  {
    if m != m' || i' < i {
      GoneFrom(ls, b, o, m, i, m', i');
    } else if i' > i {
      GoneFrom(ls, b, o, m, i, m', i' - 1);
    }
  }

  lemma GoneFrom(ls: FreeLists, b: Blocks, o: nat, m: nat, i: nat, m': nat, j: nat)
    requires Listed(ls, b) && o < MAX_ORDER && m < MIGRATE_TYPES && m' < MIGRATE_TYPES && i < |ls[o][m]|
    requires j < |DropFrom(ls, o, m, i)[o][m']|
    ensures DropFrom(ls, o, m, i)[o][m'][j] != ls[o][m][i]
  {
    hide Flat;
    var r := DropFrom(ls, o, m, i);
    DropFlat(ls, o, m, i);
    InFlat(r[o], m', r[o][m'][j]);
    assert Flat(ls[o])[ls[o][m][i]] <= 1;
  }

  lemma DropSurvive(ls: FreeLists, b: Blocks, o: nat, m: nat, i: nat)
    requires Listed(ls, b) && o < MAX_ORDER && m < MIGRATE_TYPES && i < |ls[o][m]|
    ensures Survive(ls, DropFrom(ls, o, m, i), b - {ls[o][m][i]})
  {
    hide Listed, Among, Heads;
    ListsShaped(ls, b);
    var p, r := ls[o][m][i], DropFrom(ls, o, m, i);
    forall k: nat, t: nat | k < MAX_ORDER && t < MIGRATE_TYPES
      ensures r[k][t] == Among(ls[k][t], Heads(b - {p}, k))
    {
      DropAmong(ls, b, o, m, i, k, t);
    }
  }

  lemma DropAmong(ls: FreeLists, b: Blocks, o: nat, m: nat, i: nat, k: nat, t: nat)
    requires Listed(ls, b) && o < MAX_ORDER && m < MIGRATE_TYPES && i < |ls[o][m]| && k < MAX_ORDER && t < MIGRATE_TYPES
    ensures DropFrom(ls, o, m, i)[k][t] == Among(ls[k][t], Heads(b - {ls[o][m][i]}, k))
  {
    hide Listed, Among;
    ListsShaped(ls, b);
    var p, l := ls[o][m][i], ls[k][t];
    var s := Heads(b - {p}, k);
    AllHeads(ls, b, k, t);
    forall j | 0 <= j < |l| && !(k == o && t == m && j == i)
      ensures l[j] in s
    {
      if k == o && l[j] == p {
        OnePlaceOnly(ls, b, o, m, i, t, j);
      } else if l[j] == p {
        AllHeads(ls, b, o, m);
      }
    }
    if k == o && t == m {
      assert l == l[..i] + [p] + l[i + 1..];
      AmongJoin(l[..i] + [p], l[i + 1..], s);
      AmongJoin(l[..i], [p], s);
      AmongAll(l[..i], s);
      AmongAll(l[i + 1..], s);
      AmongOne(p, s);
    } else {
      AmongAll(l, s);
    }
  }

  lemma NoneLeft(ls: FreeLists, b: Blocks)
    requires Listed(ls, b)
    ensures Survive(ls, ls, b)
  {
    hide Listed, Among, Heads;
    ListsShaped(ls, b);
    forall k: nat, t: nat | k < MAX_ORDER && t < MIGRATE_TYPES
      ensures ls[k][t] == Among(ls[k][t], Heads(b, k))
    {
      AllHeads(ls, b, k, t);
      AmongAll(ls[k][t], Heads(b, k));
    }
  }

  lemma MoreLeft(ls0: FreeLists, ls: FreeLists, b: Blocks, ls': FreeLists, p: nat)
    requires Survive(ls0, ls, b) && Survive(ls, ls', b - {p})
    ensures Survive(ls0, ls', b - {p})
  {
    hide Among;
    forall k: nat, t: nat | k < MAX_ORDER && t < MIGRATE_TYPES
      ensures ls'[k][t] == Among(ls0[k][t], Heads(b - {p}, k))
    {
      AmongTwice(ls0[k][t], Heads(b, k), Heads(b - {p}, k));
      assert Heads(b, k) * Heads(b - {p}, k) == Heads(b - {p}, k);
    }
  }

  lemma PlaceLast(ls0: FreeLists, ls: FreeLists, b: Blocks, p: nat, o: nat, m: nat, last: bool)
    requires Survive(ls0, ls, b) && p !in b && o < MAX_ORDER && m < MIGRATE_TYPES
    ensures Placed(ls0, AddTo(ls, o, m, p, last), b[p := o], p, m, last)
  {
    hide Among;
    forall k: nat | k < MAX_ORDER
      ensures Heads(b[p := o], k) - {p} == Heads(b, k)
    {
    }
  }

  lemma CutNone(ls: FreeLists, p: nat, high: nat, m: nat)
    requires Shaped(ls)
    ensures Cut(ls, ls, p, high, high, m)
  {
  }

  lemma CutMore(ls0: FreeLists, ls: FreeLists, p: nat, low: nat, high: nat, m: nat)
    requires Cut(ls0, ls, p, low + 1, high, m) && low < high && low < MAX_ORDER && m < MIGRATE_TYPES
    ensures Cut(ls0, AddTo(ls, low, m, p + Pow2(low), false), p, low, high, m)
  {
    hide Pow2;
  }

  lemma MoveOne(ls: FreeLists, b: Blocks, o: nat, m0: nat, i: nat, m: nat)
    requires Listed(ls, b) && o < MAX_ORDER && m0 < MIGRATE_TYPES && m < MIGRATE_TYPES && i < |ls[o][m0]|
    ensures var p := ls[o][m0][i]; p in b && Moved(ls, b, AddTo(DropFrom(ls, o, m0, i), o, m, p, false), p, m)
  {
    hide Among, Listed, Flat;
    ListsShaped(ls, b);
    var p, d := ls[o][m0][i], DropFrom(ls, o, m0, i);
    ListedIs(ls, b, o, m0, p);
    forall k: nat, t: nat | k < MAX_ORDER && t < MIGRATE_TYPES
      ensures d[k][t] == Among(ls[k][t], Heads(b, k) - {p})
    {
      DropAmong(ls, b, o, m0, i, k, t);
      assert Heads(b - {p}, k) == Heads(b, k) - {p};
    }
  }

  lemma GatherNone(ls: FreeLists, b: Blocks, lo: nat, m: nat)
    requires Listed(ls, b)
    ensures Gathered(ls, b, ls, (lo, lo), m)
  {
    hide Among, Listed, Flat;
    ListsShaped(ls, b);
    forall k: nat, t: nat | k < MAX_ORDER && t < MIGRATE_TYPES
      ensures ls[k][t] == Among(ls[k][t], Out(b, k, (lo, lo)))
    {
      AllHeads(ls, b, k, t);
      assert Out(b, k, (lo, lo)) == Heads(b, k);
      AmongAll(ls[k][t], Heads(b, k));
    }
  }

  lemma GatherSkip(ls: FreeLists, b: Blocks, ls': FreeLists, lo: nat, p: nat, m: nat)
    requires Gathered(ls, b, ls', (lo, p), m) && lo <= p && p !in b
    ensures Gathered(ls, b, ls', (lo, p + 1), m)
  {
    forall k: nat | k < MAX_ORDER
      ensures Out(b, k, (lo, p)) == Out(b, k, (lo, p + 1)) && Down(b, k, lo, p + 1) == Down(b, k, lo, p)
    {
      DownGap(b, k, lo, p, p + 1);
    }
  }

  lemma GatherMore(ls: FreeLists, b: Blocks, ls1: FreeLists, ls': FreeLists, lo: nat, p: nat, hi: nat, m: nat)
    requires p in b && lo <= p < hi && forall x :: x in b && p <= x < hi ==> x == p
    requires Gathered(ls, b, ls1, (lo, p), m) && Moved(ls1, b, ls', p, m)
    ensures Gathered(ls, b, ls', (lo, hi), m)
  {
    hide Among, Down, Heads, Out;
    forall k: nat, t: nat | k < MAX_ORDER && t < MIGRATE_TYPES
      ensures ls'[k][t] == (if t == m then Down(b, k, lo, hi) else []) + Among(ls[k][t], Out(b, k, (lo, hi)))
    {
      GatherAmong(b, ls[k][t], k, lo, p, hi);
      AmongJoin(if t == m then Down(b, k, lo, p) else [], Among(ls[k][t], Out(b, k, (lo, p))), Heads(b, k) - {p});
      AmongNothing(Heads(b, k) - {p});
    }
  }

  lemma GatherAmong(b: Blocks, l: seq<nat>, k: nat, lo: nat, p: nat, hi: nat)
    requires p in b && lo <= p < hi && forall x :: x in b && p <= x < hi ==> x == p
    ensures var s := Heads(b, k) - {p};
      && Among(Among(l, Out(b, k, (lo, p))), s) == Among(l, Out(b, k, (lo, hi)))
      && Down(b, k, lo, hi) == (if k == b[p] then [p] else []) + Among(Down(b, k, lo, p), s)
  {
    hide Among, Down;
    var s, d := Heads(b, k) - {p}, Down(b, k, lo, p);
    AmongTwice(l, Out(b, k, (lo, p)), s);
    assert Out(b, k, (lo, p)) * s == Out(b, k, (lo, hi));
    forall i | 0 <= i < |d|
      ensures d[i] in s
    {
      DownIs(b, k, lo, p, d[i]);
    }
    AmongAll(d, s);
    DownGap(b, k, lo, p + 1, hi);
    DownStep(b, k, lo, p);
  }

  lemma DownStep(b: Blocks, k: nat, lo: nat, p: nat)
    requires lo <= p && p in b
    ensures Down(b, k, lo, p + 1) == (if b[p] == k then [p] else []) + Down(b, k, lo, p)
  {
  }

  lemma BreakUp(ls: FreeLists, b: Blocks, ls1: FreeLists, w: (nat, nat), start: nat, mid: FreeLists, p: nat, o: nat, m: nat, ls': FreeLists)
    requires p in b && Gathered(ls, b, ls1, w, start) && Survive(ls1, mid, b - {p}) && Cut(mid, ls', p, o, b[p], m)
    ensures BrokenUp(ls, b, ls', p, o, m, w, start)
  {
    hide Among, Down, Pow2;
    forall k: nat, t: nat | k < MAX_ORDER && t < MIGRATE_TYPES
      ensures mid[k][t] == (if t == start then Among(Down(b, k, w.0, w.1), Heads(b, k) - {p}) else []) + Among(ls[k][t], Out(b, k, w) - {p})
    {
      var s := Heads(b, k) - {p};
      var d := if t == start then Down(b, k, w.0, w.1) else [];
      assert Heads(b - {p}, k) == s;
      AmongJoin(d, Among(ls[k][t], Out(b, k, w)), s);
      AmongTwice(ls[k][t], Out(b, k, w), s);
      assert Out(b, k, w) * s == Out(b, k, w) - {p};
      AmongNothing(s);
    }
  }

  lemma AmongNothing(s: set<nat>)
    ensures Among([], s) == []
  {
  }
}
