/** mm/page_alloc.c: the watermark check before an allocation. */
module Watermark {
  import opened Align
  import opened Basics
  import opened BuddyBlocks
  import opened PageAlloc
  import opened ZoneLists

  function U(x: int): int { x % WORD }

  /** What ALLOC_HIGH and ALLOC_HARDER leave of the mark: a half of it, three quarters, or
      three quarters of the half, each rounded up. */
  ghost function Least(mark: nat, high: bool, harder: bool): (m: nat)
    ensures m <= mark
    ensures !harder ==> m == if high then (mark + 1) / 2 else mark
    ensures harder ==> 0 <= 4 * m - 3 * (if high then (mark + 1) / 2 else mark) < 4
  {
    var m := if high then mark - mark / 2 else mark;
    if harder then m - m / 4 else m
  }

  /** The pages in blocks below order `o`. */
  ghost function Below(nr: seq<nat>, o: nat): nat
    requires o <= |nr|
  {
    Total(nr[..o])
  }

  /** __zone_watermark_ok: mm/page_alloc.c:1432-1463.  The first comparison mixes a signed
      and an unsigned operand and so is made on unsigned words; the others are signed. */
  method ZoneWatermarkOk(z: Zone, order: nat, mark: nat, reserve: nat, high: bool, harder: bool) returns (ok: bool)
    requires z.Valid() && z.Counted() && order < MAX_ORDER
    ensures ok <==> Passes(z.nr_free, z.free_pages, order, mark, reserve, high, harder)
  {
    hide Zone.Valid, Total;
    var pages := z.free_pages - (Pow2(order) + 1);
    var min := mark;
    if high {
      min := min - min / 2;
    }
    if harder {
      min := min - min / 4;
    }
    assert min == Least(mark, high, harder);
    hide Least;
    if U(pages) <= U(min + reserve) {
      return false;
    }
    var o := 0;
    CountsAre(z);
    BelowNone(z.nr_free);
    while o < order
      invariant o <= order && min == Halved(Least(mark, high, harder), o)
      invariant pages == z.free_pages - (Pow2(order) + 1) - Below(z.nr_free, o)
      invariant forall p :: 0 < p <= o ==> LaterTest(z.nr_free, z.free_pages, order, mark, high, harder, p)
    {
      BelowNext(z.nr_free, o);
      pages := pages - z.nr_free[o] * Pow2(o);
      min := min / 2;
      o := o + 1;
      if pages <= min {
        assert !LaterTest(z.nr_free, z.free_pages, order, mark, high, harder, o);
        return false;
      }
    }
    return true;
  }

  function Halved(m: nat, times: nat): nat {
    if times == 0 then m else Halved(m, times - 1) / 2
  }

  /** Order by order the mark is divided by the size of the blocks. */
  lemma {:induction false} HalvedIs(m: nat, times: nat)
    ensures Halved(m, times) * Pow2(times) <= m < (Halved(m, times) + 1) * Pow2(times)
  {
    if times > 0 {
      HalvedIs(m, times - 1);
      HalfAgain(m, Halved(m, times - 1), Pow2(times - 1));
    }
  }

  lemma HalfAgain(m: nat, h: nat, size: nat)
    requires h * size <= m < (h + 1) * size
    ensures (h / 2) * (2 * size) <= m < (h / 2 + 1) * (2 * size)
  {
    var k := h / 2;
    assert k * (2 * size) == (2 * k) * size && (k + 1) * (2 * size) == (2 * k + 2) * size;
    assert h == 2 * k || h == 2 * k + 1;
    assert (2 * k + 1) * size == (2 * k) * size + size && (2 * k + 2) * size == (2 * k + 1) * size + size;
  }

  ghost predicate FirstTest(free: int, order: nat, mark: nat, reserve: nat, high: bool, harder: bool) {
    U(free - (Pow2(order) + 1)) > U(Least(mark, high, harder) + reserve)
  }

  /** Of the free pages, more than the halved mark are in blocks of order `o` or more. */
  ghost predicate LaterTest(nr: seq<nat>, free: int, order: nat, mark: nat, high: bool, harder: bool, o: int) {
    0 <= o <= |nr| && free - (Pow2(order) + 1) - Below(nr, o) > Halved(Least(mark, high, harder), o)
  }

  ghost predicate Passes(nr: seq<nat>, free: int, order: nat, mark: nat, reserve: nat, high: bool, harder: bool) {
    && FirstTest(free, order, mark, reserve, high, harder)
    && (forall o :: 0 < o <= order ==> LaterTest(nr, free, order, mark, high, harder, o))
  }

  lemma CountsAre(z: Zone)
    requires z.Valid()
    ensures |z.nr_free| == MAX_ORDER
  {
  }

  lemma BelowNone(nr: seq<nat>)
    ensures Below(nr, 0) == 0
  {
  }

  lemma BelowNext(nr: seq<nat>, o: nat)
    requires o < |nr|
    ensures Below(nr, o + 1) == Below(nr, o) + nr[o] * Pow2(o)
  {
    assert nr[..o + 1][..o] == nr[..o];
  }

  lemma BelowAll(nr: seq<nat>)
    ensures Below(nr, |nr|) == Total(nr)
  {
    assert nr[..|nr|] == nr;
  }

  /** If the lower orders do not hold all the pages, some higher one holds a block. */
  lemma {:induction false} SomeAbove(nr: seq<nat>, o: nat, top: nat)
    requires o <= top <= |nr| && Below(nr, o) < Below(nr, top)
    ensures exists k :: o <= k < top && nr[k] > 0
    decreases top
  {
    BelowNext(nr, top - 1);
    if nr[top - 1] == 0 {
      assert nr[top - 1] * Pow2(top - 1) == 0;
      SomeAbove(nr, o, top - 1);
    }
  }

  /** For order 1 and more, a check that passes promises a free block of at least that
      order, with pages to spare beyond the halved mark, whatever the first comparison did. */
  lemma PassMeansBlock(z: Zone, order: nat, mark: nat, reserve: nat, high: bool, harder: bool)
    requires z.Valid() && z.Counted() && 0 < order < MAX_ORDER
    requires Passes(z.nr_free, z.free_pages, order, mark, reserve, high, harder)
    ensures exists p :: p in z.order && z.order[p] >= order
  {
    assert LaterTest(z.nr_free, z.free_pages, order, mark, high, harder, order);
    CountsAre(z);
    BelowAll(z.nr_free);
    SomeAbove(z.nr_free, order, MAX_ORDER);
    var k :| order <= k < MAX_ORDER && z.nr_free[k] > 0;
    CountedBlock(z, k);
  }

  lemma CountedBlock(z: Zone, k: nat)
    requires z.Valid() && k < MAX_ORDER && |z.nr_free| == MAX_ORDER && z.nr_free[k] > 0
    ensures exists p :: p in z.order && z.order[p] == k
  {
  }

  /** The first comparison says what it is meant to say -- free pages above the mark after
      the allocation -- just when the free pages are not short of the block and one more:
      otherwise the difference wraps round and the test passes. */
  lemma FirstTestMeans(free: nat, order: nat, mark: nat, reserve: nat, high: bool, harder: bool)
    requires order < MAX_ORDER && free < WORD / 2 && mark + reserve < WORD / 2
    ensures FirstTest(free, order, mark, reserve, high, harder) <==>
      free < Pow2(order) + 1 || free - (Pow2(order) + 1) > Least(mark, high, harder) + reserve
  {
    assert Pow2(order) <= 1024 by { Pow2Grows(order, 10); assert Pow2(10) == 1024; }
    var d := free - (Pow2(order) + 1);
    if d < 0 {
      DivModUnique(d, -1, d + WORD, WORD);
    } else {
      DivModUnique(d, 0, d, WORD);
    }
    DivModUnique(Least(mark, high, harder) + reserve, 0, Least(mark, high, harder) + reserve, WORD);
  }

  /** For a single page the wrap goes unnoticed: in a zone without a free page, the check
      passes. */
  lemma EmptyZonePasses(z: Zone, mark: nat, reserve: nat, high: bool, harder: bool)
    requires z.free_pages == 0 && mark + reserve < WORD / 2
    ensures Passes(z.nr_free, z.free_pages, 0, mark, reserve, high, harder)
  {
  }

  /** The guard that a caller could test first: with at least two free pages, a passing
      check means more free pages than the mark and the reserve, for every order; and for
      order 1 and more the later tests see to it on their own. */
  lemma PassMeansAboveMark(z: Zone, order: nat, mark: nat, reserve: nat, high: bool, harder: bool)
    requires z.Valid() && z.Counted() && order < MAX_ORDER && z.free_pages < WORD / 2 && mark + reserve < WORD / 2
    requires Passes(z.nr_free, z.free_pages, order, mark, reserve, high, harder)
    ensures z.free_pages - (Pow2(order) + 1) > Least(mark, high, harder) + reserve <==> (order == 0 ==> z.free_pages >= 2)
  {
    FirstTestMeans(z.free_pages, order, mark, reserve, high, harder);
    if order > 0 {
      assert LaterTest(z.nr_free, z.free_pages, order, mark, high, harder, order);
    } else {
      assert Pow2(0) == 1;
    }
  }
}
