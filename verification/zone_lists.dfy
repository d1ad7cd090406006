/** mm/page_alloc.c: the free lists of a zone, and what taking, adding and moving blocks does to them. */
module ZoneLists {
  import opened Align
  import opened BuddyBlocks

  const MIGRATE_UNMOVABLE: nat := 0
  const MIGRATE_RECLAIMABLE: nat := 1
  const MIGRATE_MOVABLE: nat := 2
  const MIGRATE_PCPTYPES: nat := 3
  const MIGRATE_RESERVE: nat := 3
  const MIGRATE_ISOLATE: nat := 4
  const MIGRATE_TYPES: nat := 5
  /** include/linux/pageblock-flags.h:4: a pageblock is the largest block. */
  const PAGEBLOCK_ORDER: nat := MAX_ORDER - 1
  const PAGEBLOCK_NR_PAGES: nat := 1024

  /** free_area[o].free_list[m]: the first pages of free blocks, by order and migratetype. */
  type FreeLists = seq<seq<seq<nat>>>

  predicate Shaped(ls: FreeLists) {
    |ls| == MAX_ORDER && forall o :: 0 <= o < MAX_ORDER ==> |ls[o]| == MIGRATE_TYPES
  }

  /** All the blocks listed at one order. */
  ghost function Flat(l: seq<seq<nat>>): multiset<nat>
    requires |l| == MIGRATE_TYPES
  {
    multiset(l[0]) + multiset(l[1]) + multiset(l[2]) + multiset(l[3]) + multiset(l[4])
  }

  ghost function Heads(b: Blocks, o: nat): set<nat> { set p | p in b && b[p] == o }

  /** Every free block is on exactly one list, once, and that list is of its order. */
  ghost predicate Listed(ls: FreeLists, b: Blocks) {
    Shaped(ls) && forall o :: 0 <= o < MAX_ORDER ==> Flat(ls[o]) == multiset(Heads(b, o))
  }

  /** nr_free counts the blocks of each order. */
  ghost predicate Counts(nr: seq<nat>, ls: FreeLists)
    requires Shaped(ls)
  {
    |nr| == MAX_ORDER && forall o :: 0 <= o < MAX_ORDER ==> nr[o] == |Flat(ls[o])|
  }

  /** The pages that `nr` blocks of each order come to. */
  function Total(nr: seq<nat>): nat {
    if nr == [] then 0 else Total(nr[..|nr| - 1]) + nr[|nr| - 1] * Pow2(|nr| - 1)
  }

  lemma {:induction false} TotalZero(nr: seq<nat>)
    requires forall o :: 0 <= o < |nr| ==> nr[o] == 0
    ensures Total(nr) == 0
  {
    if nr != [] {
      TotalZero(nr[..|nr| - 1]);
    }
  }

  lemma {:induction false} TotalChanges(nr: seq<nat>, o: nat, d: int)
    requires o < |nr| && nr[o] + d >= 0
    ensures Total(nr[o := nr[o] + d]) == Total(nr) + d * Pow2(o)
  {
    var w := nr[o := nr[o] + d];
    if o == |nr| - 1 {
      assert w[..|w| - 1] == nr[..|nr| - 1];
      assert (nr[o] + d) * Pow2(o) == nr[o] * Pow2(o) + d * Pow2(o);
    } else {
      TotalChanges(nr[..|nr| - 1], o, d);
      assert w[..|w| - 1] == nr[..|nr| - 1][o := nr[o] + d];
    }
  }

  function AddTo(ls: FreeLists, o: nat, m: nat, p: nat, tail: bool): (r: FreeLists)
    requires Shaped(ls) && o < MAX_ORDER && m < MIGRATE_TYPES
    ensures Shaped(r)
  {
    ls[o := ls[o][m := if tail then ls[o][m] + [p] else [p] + ls[o][m]]]
  }

  function DropFrom(ls: FreeLists, o: nat, m: nat, i: nat): (r: FreeLists)
    requires Shaped(ls) && o < MAX_ORDER && m < MIGRATE_TYPES && i < |ls[o][m]|
    ensures Shaped(r)
  {
    ls[o := ls[o][m := ls[o][m][..i] + ls[o][m][i + 1..]]]
  }

  lemma ListsShaped(ls: FreeLists, b: Blocks)
    requires Listed(ls, b)
    ensures Shaped(ls)
  {
  }

  lemma CountsShaped(nr: seq<nat>, ls: FreeLists)
    requires Shaped(ls) && Counts(nr, ls)
    ensures |nr| == MAX_ORDER
  {
  }

  lemma AddFlat(ls: FreeLists, o: nat, m: nat, p: nat, tail: bool)
    requires Shaped(ls) && o < MAX_ORDER && m < MIGRATE_TYPES
    ensures Flat(AddTo(ls, o, m, p, tail)[o]) == Flat(ls[o]) + multiset{p}
  {
    var l := ls[o][m];
    assert multiset(if tail then l + [p] else [p] + l) == multiset(l) + multiset{p};
    assert m == 0 || m == 1 || m == 2 || m == 3 || m == 4;
  }

  lemma DropFlat(ls: FreeLists, o: nat, m: nat, i: nat)
    requires Shaped(ls) && o < MAX_ORDER && m < MIGRATE_TYPES && i < |ls[o][m]|
    ensures Flat(ls[o]) == Flat(DropFrom(ls, o, m, i)[o]) + multiset{ls[o][m][i]}
  {
    var l := ls[o][m];
    assert l == l[..i] + [l[i]] + l[i + 1..];
  }

  lemma HeadsAdd(b: Blocks, p: nat, o: nat)
    requires p !in b
    ensures multiset(Heads(b[p := o], o)) == multiset(Heads(b, o)) + multiset{p}
    ensures forall o' :: o' != o ==> Heads(b[p := o], o') == Heads(b, o')
  {
  }

  lemma HeadsRemove(b: Blocks, p: nat)
    requires p in b
    ensures multiset(Heads(b, b[p])) == multiset(Heads(b - {p}, b[p])) + multiset{p}
    ensures forall o' :: o' != b[p] ==> Heads(b - {p}, o') == Heads(b, o')
  {
  }

  lemma AddListed(ls: FreeLists, b: Blocks, nr: seq<nat>, p: nat, o: nat, m: nat, tail: bool)
    requires Listed(ls, b) && Counts(nr, ls) && p !in b && o < MAX_ORDER && m < MIGRATE_TYPES
    ensures Listed(AddTo(ls, o, m, p, tail), b[p := o])
    ensures Counts(nr[o := nr[o] + 1], AddTo(ls, o, m, p, tail))
    ensures Total(nr[o := nr[o] + 1]) == Total(nr) + Pow2(o)
  {
    hide Flat, Heads, Total, Pow2;
    AddFlat(ls, o, m, p, tail);
    HeadsAdd(b, p, o);
    TotalChanges(nr, o, 1);
  }

  lemma InFlat(l: seq<seq<nat>>, m: nat, p: nat)
    requires |l| == MIGRATE_TYPES && m < MIGRATE_TYPES && p in l[m]
    ensures p in Flat(l)
  {
  }

  /** What a list holds are free blocks of its order. */
  lemma ListedIs(ls: FreeLists, b: Blocks, o: nat, m: nat, p: nat)
    requires Listed(ls, b) && o < MAX_ORDER && m < MIGRATE_TYPES && p in ls[o][m]
    ensures p in b && b[p] == o
  {
    InFlat(ls[o], m, p);
    assert p in Heads(b, o);
  }

  lemma DropListed(ls: FreeLists, b: Blocks, nr: seq<nat>, o: nat, m: nat, i: nat)
    requires Listed(ls, b) && Counts(nr, ls) && o < MAX_ORDER && m < MIGRATE_TYPES && i < |ls[o][m]|
    ensures var p := ls[o][m][i];
      && p in b && b[p] == o && nr[o] > 0
      && Listed(DropFrom(ls, o, m, i), b - {p}) && Counts(nr[o := nr[o] - 1], DropFrom(ls, o, m, i))
      && Total(nr[o := nr[o] - 1]) + Pow2(o) == Total(nr)
  {
    hide Flat, Heads, Total, Pow2;
    var p := ls[o][m][i];
    ListedIs(ls, b, o, m, p);
    DropFlat(ls, o, m, i);
    HeadsRemove(b, p);
    var l, l' := Flat(ls[o]), Flat(DropFrom(ls, o, m, i)[o]);
    assert l == l' + multiset{p} && l == multiset(Heads(b - {p}, o)) + multiset{p};
    assert l' == l - multiset{p};
    assert forall o' :: 0 <= o' < MAX_ORDER && o' != o ==> DropFrom(ls, o, m, i)[o'] == ls[o'];
    TotalChanges(nr, o, -1);
  }

  /** A free block is on one of the lists of its order. */
  lemma OnSomeList(ls: FreeLists, b: Blocks, p: nat)
    requires Listed(ls, b) && p in b && b[p] < MAX_ORDER
    ensures exists m :: 0 <= m < MIGRATE_TYPES && p in ls[b[p]][m]
  {
    assert p in Heads(b, b[p]);
    assert p in Flat(ls[b[p]]);
    var l := ls[b[p]];
    assert p in multiset(l[0]) || p in multiset(l[1]) || p in multiset(l[2]) || p in multiset(l[3]) || p in multiset(l[4]);
    assert p in l[0] || p in l[1] || p in l[2] || p in l[3] || p in l[4];
  }

  lemma OrderBounded(b: Blocks, p: nat)
    requires Proper(b) && p in b
    ensures b[p] < MAX_ORDER
  {
  }

  /** The blocks of `b'` that are no blocks of `b` are on the lists of type `m`. */
  ghost predicate NewOn(b: Blocks, ls': FreeLists, b': Blocks, m: nat) {
    forall p :: p in b' && !(p in b && b[p] == b'[p]) ==> OnList(ls', b'[p], m, p)
  }

  /** A block that is still free is still on its list. */
  ghost predicate Stay(ls: FreeLists, ls': FreeLists, b': Blocks) {
    forall o: nat, t: nat, p: nat :: OnList(ls, o, t, p) && p in b' && b'[p] == o ==> OnList(ls', o, t, p)
  }

  /** The blocks in the window that are still free are on the lists of type `m`, and the
      others that are still free are where they were. */
  ghost predicate MovedIn(ls: FreeLists, b: Blocks, ls': FreeLists, b': Blocks, w: (nat, nat), m: nat) {
    && (forall p :: p in b && p in b' && b[p] == b'[p] && w.0 <= p < w.1 ==> OnList(ls', b'[p], m, p))
    && (forall o: nat, t: nat, p: nat :: !(w.0 <= p < w.1) && OnList(ls, o, t, p) && p in b' && b'[p] == o ==> OnList(ls', o, t, p))
  }

  lemma MovedThenStay(ls: FreeLists, b: Blocks, ls1: FreeLists, ls': FreeLists, b': Blocks, w: (nat, nat), m: nat)
    requires Listed(ls, b) && MovedIn(ls, b, ls1, b, w, m) && Stay(ls1, ls', b')
    ensures MovedIn(ls, b, ls', b', w, m)
  {
    hide OnList, Listed;
    forall o: nat, t: nat, p: nat | !(w.0 <= p < w.1) && OnList(ls, o, t, p) && p in b' && b'[p] == o
      ensures OnList(ls', o, t, p)
    {
      OnListIs(ls, b, o, t, p);
    }
  }

  lemma NothingMoved(ls: FreeLists, b: Blocks, m: nat)
    ensures NewOn(b, ls, b, m) && Stay(ls, ls, b)
  {
  }

  lemma DropStay(ls: FreeLists, b: Blocks, o: nat, m: nat, i: nat)
    requires Shaped(ls) && o < MAX_ORDER && m < MIGRATE_TYPES && i < |ls[o][m]| && ls[o][m][i] in b && b[ls[o][m][i]] == o
    ensures Stay(ls, DropFrom(ls, o, m, i), b - {ls[o][m][i]})
  {
  }

  lemma FewerBlocks(ls0: FreeLists, b0: Blocks, ls: FreeLists, b: Blocks, ls': FreeLists, p: nat, m: nat)
    requires NewOn(b0, ls, b, m) && Stay(ls0, ls, b) && Stay(ls, ls', b - {p})
    ensures NewOn(b0, ls', b - {p}, m) && Stay(ls0, ls', b - {p})
  {
  }

  lemma NotListed(ls: FreeLists, b: Blocks, p: nat, o: nat, q: nat, p0: nat, o0: nat)
    requires Listed(ls, b) && o < MAX_ORDER && p <= q < p + Pow2(o) && p0 <= q < p0 + Pow2(o0) && AllBusy(b, p0, o0)
    ensures forall t: nat :: !OnList(ls, o, t, p)
  {
    hide Listed;
    ListsShaped(ls, b);
    assert Inside(q, p0, o0) && Inside(q, p, o);
    forall t: nat | OnList(ls, o, t, p)
      ensures false
    {
      ListedIs(ls, b, o, t, p);
    }
  }

  lemma OnListIs(ls: FreeLists, b: Blocks, o: nat, t: nat, p: nat)
    requires Listed(ls, b) && OnList(ls, o, t, p)
    ensures p in b && b[p] == o
  {
    hide Flat, Heads;
    ListsShaped(ls, b);
    ListedIs(ls, b, o, t, p);
  }

  lemma OneMore(ls0: FreeLists, b0: Blocks, ls: FreeLists, b: Blocks, p: nat, o: nat, m: nat, tail: bool)
    requires Shaped(ls) && o < MAX_ORDER && m < MIGRATE_TYPES && p !in b && NewOn(b0, ls, b, m) && Stay(ls0, ls, b)
    requires forall t: nat :: !OnList(ls0, o, t, p)
    ensures NewOn(b0, AddTo(ls, o, m, p, tail), b[p := o], m) && Stay(ls0, AddTo(ls, o, m, p, tail), b[p := o])
  {
  }

  lemma NotInBusy(b: Blocks, p: nat, o: nat)
    requires AllBusy(b, p, o)
    ensures p !in b
  {
    assert Inside(p, p, o) && !Covers(b, p);
    assert p in b ==> Inside(p, p, b[p]);
  }

  /** A block is taken out, and parts of it come back. */
  lemma OutAndCut(ls0: FreeLists, b0: Blocks, ls: FreeLists, b: Blocks, ls': FreeLists, b': Blocks, p: nat, o: nat, m: nat)
    requires Listed(ls0, b0) && b == b0 - {p} && Stay(ls0, ls, b) && NewOn(b, ls', b', m) && Stay(ls, ls', b') && AllBusy(b', p, o) && p in b0
    ensures NewOn(b0, ls', b', m) && Stay(ls0, ls', b')
  {
    hide OnList, Listed;
    NotInBusy(b', p, o);
    forall o': nat, t: nat, q: nat | OnList(ls0, o', t, q) && q in b' && b'[q] == o'
      ensures OnList(ls', o', t, q)
    {
      OnListIs(ls0, b0, o', t, q);
      assert OnList(ls, o', t, q);
    }
  }

  ghost predicate OnList(ls: FreeLists, o: nat, m: nat, p: nat) {
    o < |ls| && m < |ls[o]| && p in ls[o][m]
  }

  lemma MovedLists(ls: FreeLists, o: nat, m0: nat, i: nat, m: nat)
    requires Shaped(ls) && o < MAX_ORDER && m0 < MIGRATE_TYPES && m < MIGRATE_TYPES && i < |ls[o][m0]|
    ensures var p, r := ls[o][m0][i], AddTo(DropFrom(ls, o, m0, i), o, m, ls[o][m0][i], false);
      OnList(r, o, m, p) && forall o': nat, m': nat, q: nat :: q != p && OnList(ls, o', m', q) ==> OnList(r, o', m', q)
  {
  }
}
