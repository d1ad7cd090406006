/** The theory behind the buddy system of mm/page_alloc.c: sets of free pages cut into
    aligned blocks whose sizes are powers of two. */
module BuddyBlocks {
  import opened Align

  const MAX_ORDER: nat := 11

  function Pow2(n: nat): (r: nat)
    ensures r > 0
  {
    if n == 0 then 1 else 2 * Pow2(n - 1)
  }

  /** __find_buddy_index: the other half of the block of the next order. */
  function Buddy(p: nat, o: nat): (b: int)
  {
    if (p / Pow2(o)) % 2 == 0 then p + Pow2(o) else p - Pow2(o)
  }

  /** Free blocks: from the first page of a block to its order. */
  type Blocks = map<nat, nat>

  ghost predicate Inside(q: int, p: int, o: nat) { p <= q < p + Pow2(o) }

  ghost predicate Covers(b: Blocks, q: int) { exists p :: p in b && Inside(q, p, b[p]) }

  /** Aligned blocks of proper orders that do not overlap. */
  ghost predicate Proper(b: Blocks) {
    && (forall p :: p in b ==> b[p] < MAX_ORDER && p % Pow2(b[p]) == 0)
    && (forall p, p' :: p in b && p' in b && p < p' ==> p + Pow2(b[p]) <= p')
  }

  /** Never two free buddies of one order below the top. */
  ghost predicate Coalesced(b: Blocks) {
    forall p :: p in b && b[p] < MAX_ORDER - 1 ==> !(Buddy(p, b[p]) in b && b[Buddy(p, b[p])] == b[p])
  }

  lemma {:induction false} Pow2Multiple(a: nat, b: nat)
    requires a <= b
    ensures Pow2(b) % Pow2(a) == 0
  {
    if a == b {
      DivModUnique(Pow2(b), 1, 0, Pow2(a));
    } else {
      Pow2Multiple(a, b - 1);
      SumOfMultiples(Pow2(b - 1), Pow2(b - 1), Pow2(a));
    }
  }

  lemma MultipleOfMultiple(x: int, a: nat, b: nat)
    requires a <= b && x % Pow2(b) == 0
    ensures x % Pow2(a) == 0
  {
    Pow2Multiple(a, b);
    var k, j := x / Pow2(b), Pow2(b) / Pow2(a);
    assert x == k * Pow2(b) && Pow2(b) == j * Pow2(a);
    assert k * (j * Pow2(a)) == (k * j) * Pow2(a);
    DivModUnique(x, k * j, 0, Pow2(a));
  }

  /** Two aligned blocks that share a page are nested. */
  lemma Nested(p: int, o: nat, p': int, o': nat, q: int)
    requires o <= o' && p % Pow2(o) == 0 && p' % Pow2(o') == 0
    requires Inside(q, p, o) && Inside(q, p', o')
    ensures p' <= p && p + Pow2(o) <= p' + Pow2(o')
  {
    MultipleOfMultiple(p', o, o');
    Pow2Multiple(o, o');
    SumOfMultiples(p', Pow2(o'), Pow2(o));
    if p < p' {
      MultiplesApart(p, p', Pow2(o));
    }
    if p' + Pow2(o') < p + Pow2(o) {
      MultiplesApart(p, p' + Pow2(o'), Pow2(o));
    }
  }

  /** The buddy of an aligned block is the half that completes the block above. */
  lemma BuddyFacts(p: nat, o: nat)
    requires p % Pow2(o) == 0
    ensures var b := Buddy(p, o);
      && b >= 0 && b % Pow2(o) == 0 && Buddy(b, o) == p
      && (if b > p then p % Pow2(o + 1) == 0 && b == p + Pow2(o) else b % Pow2(o + 1) == 0 && p == b + Pow2(o))
  {
    var h := Pow2(o);
    assert Pow2(o + 1) == 2 * h;
    HalfFacts(p, h);
    OtherHalf(p, h);
  }

  lemma OtherHalf(p: nat, h: nat)
    requires h > 0 && p % h == 0
    ensures if (p / h) % 2 == 0 then ((p + h) / h) % 2 == 1 else p >= h && ((p - h) / h) % 2 == 0
  {
    HalfFacts(p, h);
  }

  lemma HalfFacts(p: nat, h: nat)
    requires h > 0 && p % h == 0
    ensures if (p / h) % 2 == 0 then
        p % (2 * h) == 0 && (p + h) % h == 0 && (p + h) / h == p / h + 1
      else
        p >= h && (p - h) % (2 * h) == 0 && (p - h) % h == 0 && (p - h) / h == p / h - 1
  {
    var k := p / h;
    assert p == k * h;
    if k % 2 == 0 {
      TwiceHalf(k / 2, h);
      DivModUnique(p, k / 2, 0, 2 * h);
      DivModUnique(p + h, k + 1, 0, h);
    } else {
      assert (k - 1) * h == p - h;
      MulNonNeg(k - 1, h);
      TwiceHalf((k - 1) / 2, h);
      DivModUnique(p - h, (k - 1) / 2, 0, 2 * h);
      DivModUnique(p - h, k - 1, 0, h);
    }
  }

  lemma TwiceHalf(j: int, h: int)
    ensures (2 * j) * h == j * (2 * h)
  {
  }

  /** `x ^ (1 << o)`: bit `o` of `x` turned over. */
  function FlipBit(x: nat, o: nat): int {
    if o == 0 then (if x % 2 == 0 then x + 1 else x - 1) else 2 * FlipBit(x / 2, o - 1) + x % 2
  }

  lemma {:induction false} FlipIsBuddy(x: nat, o: nat)
    ensures FlipBit(x, o) == Buddy(x, o)
  {
    if o > 0 {
      FlipIsBuddy(x / 2, o - 1);
      HalfFirst(x, Pow2(o - 1));
    }
  }

  lemma HalfFirst(x: nat, h: nat)
    requires h > 0
    ensures x / (2 * h) == (x / 2) / h
  {
    var q, r := (x / 2) / h, (x / 2) % h;
    assert x / 2 == q * h + r;
    assert q * (2 * h) == 2 * (q * h);
    DivModUnique(x, q, 2 * r + x % 2, 2 * h);
  }

  /** The code turns the bit of the page's index within a block of the order that would come
      after the top one, and moves by the difference: that leads to the buddy as well. */
  lemma MaskedIndex(page: nat, o: nat)
    requires o < MAX_ORDER
    ensures var idx := page % Pow2(MAX_ORDER); page + (FlipBit(idx, o) - idx) == Buddy(page, o)
  {
    hide Pow2, FlipBit;
    FlipIsBuddy(page % Pow2(MAX_ORDER), o);
    MaskedParity(page, o);
  }

  lemma MaskedParity(page: nat, o: nat)
    requires o < MAX_ORDER
    ensures (page / Pow2(o)) % 2 == (page % Pow2(MAX_ORDER) / Pow2(o)) % 2
  {
    hide Pow2;
    Pow2Multiple(o + 1, MAX_ORDER);
    NextPow2(o);
    var m, h := Pow2(MAX_ORDER), Pow2(o);
    var j := Quotient(m, 2 * h);
    SameParity(page, m, j, h);
  }

  lemma Quotient(m: nat, d: nat) returns (j: nat)
    requires d > 0 && m % d == 0
    ensures m == j * d
  {
    j := m / d;
  }

  lemma SameParity(page: nat, m: nat, j: nat, h: nat)
    requires h > 0 && m > 0 && m == j * (2 * h)
    ensures (page / h) % 2 == (page % m / h) % 2
  {
    var idx, q := page % m, page / m;
    var k, r := idx / h, idx % h;
    assert page == q * m + k * h + r;
    assert q * m == q * (j * (2 * h)) == (q * j) * (2 * h) == (2 * (q * j)) * h;
    ParityOf(page, q * j, k, r, h);
  }

  lemma ParityOf(page: nat, c: int, k: nat, r: nat, h: nat)
    requires h > 0 && r < h && page == (2 * c) * h + k * h + r
    ensures (page / h) % 2 == k % 2
  {
    assert (2 * c) * h + k * h == (2 * c + k) * h;
    DivModUnique(page, 2 * c + k, r, h);
  }

  /** The upper half of a block is the buddy of the lower. */
  lemma HalvesAreBuddies(p: nat, o: nat)
    requires p % Pow2(o + 1) == 0
    ensures p % Pow2(o) == 0 && Buddy(p, o) == p + Pow2(o)
  {
    MultipleOfMultiple(p, o, o + 1);
    BuddyFacts(p, o);
    if Buddy(p, o) < p {
      MultiplesApart(Buddy(p, o), p, Pow2(o + 1));
    }
  }

  /** In a coalesced set of blocks, a block all of whose pages are free lies in one of them. */
  lemma {:induction false} CoveredBlock(b: Blocks, p: nat, o: nat) returns (p': nat)
    requires Proper(b) && Coalesced(b) && o < MAX_ORDER && p % Pow2(o) == 0
    requires forall q :: Inside(q, p, o) ==> Covers(b, q)
    ensures p' in b && p' <= p && p + Pow2(o) <= p' + Pow2(b[p'])
    decreases o
  {
    if o == 0 {
      assert Inside(p, p, o);
      p' :| p' in b && Inside(p, p', b[p']);
    } else {
      var h := Pow2(o - 1);
      HalvesAreBuddies(p, o - 1);
      SumOfMultiples(p, h, h);
      SubBlock(b, p, o, p);
      var l := CoveredBlock(b, p, o - 1);
      SubBlock(b, p, o, p + h);
      var r := CoveredBlock(b, p + h, o - 1);
      if b[l] >= o {
        p' := l;
        InsideBigger(l, b[l], p, o, p);
      } else if b[r] >= o {
        p' := r;
        InsideBigger(r, b[r], p, o, p + h);
      } else {
        SameSize(l, b[l], p, o - 1);
        SameSize(r, b[r], p + h, o - 1);
        assert false;
      }
    }
  }

  lemma SubBlock(b: Blocks, p: nat, o: nat, p': nat)
    requires o > 0 && (p' == p || p' == p + Pow2(o - 1))
    requires forall q :: Inside(q, p, o) ==> Covers(b, q)
    ensures forall q :: Inside(q, p', o - 1) ==> Covers(b, q)
  {
    forall q | Inside(q, p', o - 1)
      ensures Covers(b, q)
    {
      assert Inside(q, p, o);
    }
  }

  lemma InsideBigger(l: nat, k: nat, p: nat, o: nat, q: nat)
    requires o > 0 && o <= k && l % Pow2(k) == 0 && p % Pow2(o) == 0
    requires (q == p || q == p + Pow2(o - 1)) && l <= q && q + Pow2(o - 1) <= l + Pow2(k)
    ensures l <= p && p + Pow2(o) <= l + Pow2(k)
  {
    Nested(p, o, l, k, q);
  }

  lemma {:induction false} Pow2Grows(a: nat, b: nat)
    requires a <= b
    ensures Pow2(a) <= Pow2(b) && (a < b ==> Pow2(a) < Pow2(b))
  {
    if a < b {
      Pow2Grows(a, b - 1);
    }
  }

  /** A block of order at most `o` that contains one of order `o` is that one. */
  lemma SameSize(p: int, k: nat, p': int, o: nat)
    requires k <= o && p <= p' && p' + Pow2(o) <= p + Pow2(k)
    ensures p == p' && k == o
  {
    Pow2Grows(k, o);
  }

  /** The free pages determine the blocks. */
  lemma Unique(b: Blocks, c: Blocks)
    requires Proper(b) && Coalesced(b) && Proper(c) && Coalesced(c)
    requires forall q: int :: Covers(b, q) <==> Covers(c, q)
    ensures b == c
  {
    forall p | p in b
      ensures p in c && c[p] == b[p]
    {
      SameBlock(b, c, p);
    }
    forall p | p in c
      ensures p in b && b[p] == c[p]
    {
      SameBlock(c, b, p);
    }
  }

  lemma SameBlock(b: Blocks, c: Blocks, p: nat)
    requires Proper(b) && Coalesced(b) && Proper(c) && Coalesced(c) && p in b
    requires forall q: int :: Covers(b, q) <==> Covers(c, q)
    ensures p in c && c[p] == b[p]
  {
    var p1 := CoveredBlock(c, p, b[p]);
    var p2 := CoveredBlock(b, p1, c[p1]);
    assert p2 == p;
    Pow2Grows(if c[p1] < b[p] then c[p1] else b[p], if c[p1] < b[p] then b[p] else c[p1]);
  }

  // ---------- changing the set of free blocks ----------

  /** No page of the block is free. */
  ghost predicate AllBusy(b: Blocks, p: int, o: nat) { forall q :: Inside(q, p, o) ==> !Covers(b, q) }

  ghost predicate AllFree(b: Blocks, p: int, o: nat) { forall q :: Inside(q, p, o) ==> Covers(b, q) }

  /** `c` has the free pages of `b` and those of the block besides. */
  ghost predicate Gains(b: Blocks, c: Blocks, p: int, o: nat) {
    forall q: int :: Covers(c, q) <==> Covers(b, q) || Inside(q, p, o)
  }

  /** `c` has the free pages of `b` but for those of the block, which were all free. */
  ghost predicate Loses(b: Blocks, c: Blocks, p: int, o: nat) {
    AllFree(b, p, o) && forall q: int :: Covers(c, q) <==> Covers(b, q) && !Inside(q, p, o)
  }

  /** Allocating a block and freeing it again gives back the very same blocks. */
  lemma FreeUndoesAlloc(b: Blocks, c: Blocks, d: Blocks, p: int, o: nat)
    requires Proper(b) && Coalesced(b) && Proper(d) && Coalesced(d)
    requires Loses(b, c, p, o) && Gains(c, d, p, o)
    ensures d == b
  {
    Unique(b, d);
  }

  /** Any number of blocks, freed one after the other. */
  ghost predicate FreedAll(b: Blocks, run: seq<Blocks>, freed: seq<(int, nat)>) {
    && |run| == |freed| + 1 && run[0] == b
    && forall i :: 0 <= i < |freed| ==> Gains(run[i], run[i + 1], freed[i].0, freed[i].1)
  }

  ghost predicate InSome(q: int, freed: seq<(int, nat)>) {
    exists i :: 0 <= i < |freed| && Inside(q, freed[i].0, freed[i].1)
  }

  lemma {:induction false} FreedPages(b: Blocks, run: seq<Blocks>, freed: seq<(int, nat)>, q: int)
    requires FreedAll(b, run, freed)
    ensures Covers(run[|freed|], q) <==> Covers(b, q) || InSome(q, freed)
    decreases |freed|
  {
    if freed != [] {
      var n := |freed| - 1;
      FreedPages(b, run[..n + 1], freed[..n], q);
      assert Gains(run[n], run[n + 1], freed[n].0, freed[n].1);
      if InSome(q, freed) && !Inside(q, freed[n].0, freed[n].1) {
        var i :| 0 <= i < |freed| && Inside(q, freed[i].0, freed[i].1);
        assert freed[..n][i] == freed[i];
      }
      if InSome(q, freed[..n]) {
        var i :| 0 <= i < n && Inside(q, freed[..n][i].0, freed[..n][i].1);
        assert freed[i] == freed[..n][i];
      }
    }
  }

  /** The order in which blocks are freed does not matter: the same blocks, freed in
      whatever order, leave the same free blocks behind. */
  lemma FreeOrderIrrelevant(b: Blocks, run: seq<Blocks>, freed: seq<(int, nat)>, run': seq<Blocks>, freed': seq<(int, nat)>)
    requires FreedAll(b, run, freed) && FreedAll(b, run', freed')
    requires multiset(freed) == multiset(freed')
    requires Proper(run[|freed|]) && Coalesced(run[|freed|]) && Proper(run'[|freed'|]) && Coalesced(run'[|freed'|])
    ensures run[|freed|] == run'[|freed'|]
  {
    forall q: int
      ensures Covers(run[|freed|], q) <==> Covers(run'[|freed'|], q)
    {
      FreedPages(b, run, freed, q);
      FreedPages(b, run', freed', q);
      if InSome(q, freed) {
        SameSome(q, freed, freed');
      }
      if InSome(q, freed') {
        SameSome(q, freed', freed);
      }
    }
    Unique(run[|freed|], run'[|freed'|]);
  }

  lemma SameSome(q: int, freed: seq<(int, nat)>, freed': seq<(int, nat)>)
    requires multiset(freed) == multiset(freed') && InSome(q, freed)
    ensures InSome(q, freed')
  {
    var i :| 0 <= i < |freed| && Inside(q, freed[i].0, freed[i].1);
    assert freed[i] in multiset(freed');
    var j :| 0 <= j < |freed'| && freed'[j] == freed[i];
  }

  /** Two sets of free blocks, each with a block besides, come to the same pages. */
  ghost predicate SamePages(b: Blocks, p: int, o: nat, c: Blocks, p': int, o': nat) {
    forall q: int :: Covers(b, q) || Inside(q, p, o) <==> Covers(c, q) || Inside(q, p', o')
  }

  lemma SamePagesSelf(b: Blocks, p: int, o: nat)
    ensures SamePages(b, p, o, b, p, o)
  {
  }

  lemma NextPow2(o: nat)
    ensures Pow2(o + 1) == Pow2(o) + Pow2(o)
  {
  }

  lemma SamePagesChain(b: Blocks, p: int, o: nat, c: Blocks, p': int, o': nat, d: Blocks, p'': int, o'': nat)
    requires SamePages(b, p, o, c, p', o') && SamePages(c, p', o', d, p'', o'')
    ensures SamePages(b, p, o, d, p'', o'')
  {
  }

  lemma SamePagesGain(b: Blocks, p: int, o: nat, c: Blocks, p': int, o': nat, b': Blocks)
    requires SamePages(b, p, o, c, p', o') && Gains(b, b', p, o)
    ensures Gains(c, b', p', o')
  {
  }

  /** One round of the loop of __free_one_page: the buddy is free, so the two become one
      block of the next order. */
  lemma MergeBuddy(b: Blocks, p: nat, o: nat)
    requires Proper(b) && p % Pow2(o) == 0 && AllBusy(b, p, o)
    requires Buddy(p, o) in b && b[Buddy(p, o)] == o
    ensures var p', c := (if Buddy(p, o) < p then Buddy(p, o) else p), b - {Buddy(p, o)};
      && p' % Pow2(o + 1) == 0 && Proper(c) && AllBusy(c, p', o + 1)
      && (Coalesced(b) ==> Coalesced(c))
      && SamePages(c, p', o + 1, b, p, o)
  {
    var d := Buddy(p, o);
    var p', c := (if d < p then d else p), b - {d};
    BuddyFacts(p, o);
    RemoveBlock(b, d);
  }

  /** A block that is not free joins the free blocks, its buddy not being one of them. */
  lemma AddBlock(b: Blocks, p: nat, o: nat)
    requires Proper(b) && Coalesced(b) && p % Pow2(o) == 0 && o < MAX_ORDER && AllBusy(b, p, o)
    requires o < MAX_ORDER - 1 ==> !(Buddy(p, o) in b && b[Buddy(p, o)] == o)
    ensures p !in b && Proper(b[p := o]) && Coalesced(b[p := o]) && Gains(b, b[p := o], p, o)
  {
    AddProper(b, p, o);
    AddGains(b, p, o);
    var c := b[p := o];
    forall x | x in c && c[x] < MAX_ORDER - 1
      ensures !(Buddy(x, c[x]) in c && c[Buddy(x, c[x])] == c[x])
    {
      BuddyFacts(x, c[x]);
    }
  }

  lemma AddProper(b: Blocks, p: nat, o: nat)
    requires Proper(b) && p % Pow2(o) == 0 && o < MAX_ORDER && AllBusy(b, p, o)
    ensures p !in b && Proper(b[p := o])
  {
    if p in b {
      assert Inside(p, p, b[p]) && Inside(p, p, o);
      assert Covers(b, p);
    }
    forall x | x in b
      ensures if x < p then x + Pow2(b[x]) <= p else p + Pow2(o) <= x
    {
      NotReaching(b, p, o, x);
    }
  }

  lemma NotReaching(b: Blocks, p: nat, o: nat, x: nat)
    requires AllBusy(b, p, o) && x in b
    ensures x != p && if x < p then x + Pow2(b[x]) <= p else p + Pow2(o) <= x
  {
    if x <= p && p < x + Pow2(b[x]) {
      assert Inside(p, x, b[x]) && Inside(p, p, o);
      assert Covers(b, p);
    }
    if p <= x < p + Pow2(o) {
      assert Inside(x, x, b[x]) && Inside(x, p, o);
      assert Covers(b, x);
    }
  }

  lemma AddGains(b: Blocks, p: nat, o: nat)
    requires p !in b
    ensures Gains(b, b[p := o], p, o)
  {
    var c := b[p := o];
    forall q: int
      ensures Covers(c, q) <==> Covers(b, q) || Inside(q, p, o)
    {
      if Covers(b, q) {
        var x :| x in b && Inside(q, x, b[x]);
        assert x in c && c[x] == b[x];
      }
      if Inside(q, p, o) {
        assert p in c && c[p] == o;
      }
    }
  }

  lemma RemoveBlock(b: Blocks, p: nat)
    requires Proper(b) && p in b
    ensures Proper(b - {p}) && AllBusy(b - {p}, p, b[p])
    ensures Coalesced(b) ==> Coalesced(b - {p})
    ensures Loses(b, b - {p}, p, b[p])
  {
    var c := b - {p};
    forall q: int
      ensures Covers(c, q) <==> Covers(b, q) && !Inside(q, p, b[p])
    {
      if Covers(b, q) && !Inside(q, p, b[p]) {
        var x :| x in b && Inside(q, x, b[x]);
        assert x in c;
      }
    }
  }

  /** One round of the loop of expand: the upper half becomes a free block. */
  lemma SplitBlock(b: Blocks, p: nat, o: nat)
    requires Proper(b) && Coalesced(b) && p % Pow2(o + 1) == 0 && o + 1 < MAX_ORDER && AllBusy(b, p, o + 1)
    ensures var u, c := p + Pow2(o), b[p + Pow2(o) := o];
      && u !in b && Proper(c) && Coalesced(c) && AllBusy(c, p, o)
      && p % Pow2(o) == 0 && SamePages(c, p, o, b, p, o + 1)
  {
    var u := p + Pow2(o);
    HalvesAreBuddies(p, o);
    SumOfMultiples(p, Pow2(o), Pow2(o));
    DivModUnique(Pow2(o), 1, 0, Pow2(o));
    BuddyFacts(p, o);
    forall q | Inside(q, u, o)
      ensures !Covers(b, q)
    {
      assert Inside(q, p, o + 1);
    }
    if p in b {
      assert Inside(p, p, b[p]) && Inside(p, p, o + 1);
      assert Covers(b, p);
    }
    AddBlock(b, u, o);
    forall q | Inside(q, p, o)
      ensures !Covers(b[u := o], q)
    {
      assert Inside(q, p, o + 1);
    }
  }
}

