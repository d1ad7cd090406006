/** mm/page_alloc.c: the buddy allocator of one zone. */
module PageAlloc {
  import opened Align
  import opened Basics
  import opened BuddyBlocks
  import opened ListOrder
  import opened ZoneLists

  /** What the allocator writes down of a zone. */
  datatype Books = Books(lists: FreeLists, order: Blocks, block_type: map<nat, nat>)

  class Zone {
    const start_pfn: nat
    const spanned: nat
    /** The pages flagged PageBuddy, with the order kept in page_private. */
    var order: Blocks
    var lists: FreeLists
    var nr_free: seq<nat>
    /** The migratetype of each pageblock. */
    var block_type: map<nat, nat>
    /** NR_FREE_PAGES */
    var free_pages: int

    constructor (start_pfn: nat, spanned: nat)
      ensures Valid() && Counted() && order == map[]
      ensures this.start_pfn == start_pfn && this.spanned == spanned
    {
      this.start_pfn, this.spanned := start_pfn, spanned;
      order, block_type, free_pages := map[], map[], 0;
      lists := seq(MAX_ORDER, _ => [[], [], [], [], []]);
      nr_free := seq(MAX_ORDER, _ => 0);
      new;
      TotalZero(nr_free);
    }

    ghost predicate InZone(p: int, o: nat) { start_pfn <= p && p + Pow2(o) <= start_pfn + spanned }

    ghost function Now(): Books
      reads `order, `lists, `block_type
    {
      Books(lists, order, block_type)
    }

    /** The free lists hold exactly the free blocks, which are aligned, apart, inside the
        zone and fully coalesced. */
    ghost predicate Valid()
      reads `order, `lists, `nr_free
    {
      && Proper(order) && Coalesced(order)
      && (forall p :: p in order ==> InZone(p, order[p]))
      && Listed(lists, order) && Counts(nr_free, lists)
    }

    /** The free-page counter is the sum over the orders. */
    ghost predicate Counted()
      reads `nr_free, `free_pages
    {
      free_pages == Total(nr_free)
    }

    /** page_is_buddy for the page at `b`: mm/page_alloc.c:1172-1184 */
    predicate PageIsBuddy(b: int, o: nat)
      reads `order
    {
      start_pfn <= b < start_pfn + spanned && b in order && order[b] == o
    }

    /** list_del of a free block, whichever list it is on, with the counter of its order. */
    method DelBlock(p: nat)
      requires Listed(lists, order) && Counts(nr_free, lists) && p in order && order[p] < MAX_ORDER
      modifies `order, `lists, `nr_free
      ensures order == old(order) - {p} && Listed(lists, order) && Counts(nr_free, lists)
      ensures Total(nr_free) + Pow2(old(order)[p]) == Total(old(nr_free))
      ensures Stay(old(lists), lists, order) && Survive(old(lists), lists, order)
    {
      hide Listed, Counts, Total, Pow2, Flat, Heads, Stay, Survive;
      var o := order[p];
      ListsShaped(lists, order);
      OnSomeList(lists, order, p);
      var m :| 0 <= m < MIGRATE_TYPES && p in lists[o][m];
      var i :| 0 <= i < |lists[o][m]| && lists[o][m][i] == p;
      CountsShaped(nr_free, lists);
      DropListed(lists, order, nr_free, o, m, i);
      DropStay(lists, order, o, m, i);
      DropSurvive(lists, order, o, m, i);
      lists := DropFrom(lists, o, m, i);
      nr_free := nr_free[o := nr_free[o] - 1];
      order := order - {p};
    }

    /** set_page_order, list_add or list_add_tail, and the counter of the order. */
    method AddBlock(p: nat, o: nat, m: nat, tail: bool)
      requires Listed(lists, order) && Counts(nr_free, lists) && p !in order && o < MAX_ORDER && m < MIGRATE_TYPES
      modifies `order, `lists, `nr_free
      ensures order == old(order)[p := o] && Listed(lists, order) && Counts(nr_free, lists)
      ensures Total(nr_free) == Total(old(nr_free)) + Pow2(o)
      ensures lists == AddTo(old(lists), o, m, p, tail)
    {
      hide Listed, Counts, Total, Pow2, Flat, Heads, AddTo;
      ListsShaped(lists, order);
      CountsShaped(nr_free, lists);
      AddListed(lists, order, nr_free, p, o, m, tail);
      lists := AddTo(lists, o, m, p, tail);
      nr_free := nr_free[o := nr_free[o] + 1];
      order := order[p := o];
    }

    /** __free_one_page: mm/page_alloc.c:1206-1271.  The page that is asked whether it is the
        free buddy of the order above is found from `page`, not from the first page of the
        pair: for an upper half it is never that buddy. */
    method FreeOnePage(page0: nat, order0: nat, migratetype: nat)
      requires Valid() && order0 < MAX_ORDER && migratetype < MIGRATE_TYPES
      requires page0 % Pow2(order0) == 0 && InZone(page0, order0) && AllBusy(order, page0, order0)
      modifies `order, `lists, `nr_free
      ensures Valid() && Gains(old(order), order, page0, order0)
      ensures Total(nr_free) == Total(old(nr_free)) + Pow2(order0)
      ensures NewOn(old(order), lists, order, migratetype) && Stay(old(lists), lists, order)
      ensures PutBack(old(lists), lists, order, page0, migratetype)
    {
      hide Proper, Coalesced, Listed, Counts, Total, Pow2, Covers, AllBusy, Gains, SamePages, Buddy, Stay, NewOn, Survive, Placed, GoesLast;
      var page, o := page0, order0;
      SamePagesSelf(order, page, o);
      NothingMoved(lists, order, migratetype);
      NoneLeft(lists, order);
      while o < MAX_ORDER - 1 && PageIsBuddy(Buddy(page, o), o)
        invariant o < MAX_ORDER && page % Pow2(o) == 0 && InZone(page, o) && AllBusy(order, page, o)
        invariant Valid() && SamePages(order, page, o, old(order), page0, order0)
        invariant Total(nr_free) + Pow2(o) == Total(old(nr_free)) + Pow2(order0)
        invariant NewOn(old(order), lists, order, migratetype) && Stay(old(lists), lists, order)
        invariant Survive(old(lists), lists, order)
        invariant page <= page0 < page + Pow2(o)
        decreases MAX_ORDER - o
      {
        var buddy := Buddy(page, o);
        BuddyFacts(page, o);
        NextPow2(o);
        MergeBuddy(order, page, o);
        var page' := if buddy < page then buddy else page;
        SamePagesChain(order - {buddy}, page', o + 1, order, page, o, old(order), page0, order0);
        ghost var before, listed := order, lists;
        DelBlock(buddy);
        FewerBlocks(old(lists), old(order), listed, before, lists, buddy, migratetype);
        MoreLeft(old(lists), listed, before, lists, buddy);
        page, o := page', o + 1;
      }
      BuddyBlocks.AddBlock(order, page, o);
      SamePagesGain(order, page, o, old(order), page0, order0, order[page := o]);
      var buddy := Buddy(page, o);
      var tail := false;
      if o < MAX_ORDER - 2 {
        BuddyFacts(page, o);
        var combined := if buddy < page then buddy else page;
        tail := PageIsBuddy(page + (Buddy(combined, o + 1) - combined), o + 1);
      }
      NotInBusy(order, page, o);
      HigherBuddy(order, page, o);
      PlaceLast(old(lists), lists, order, page, o, migratetype, tail);
      ListsShaped(lists, order);
      NotListed(old(lists), old(order), page, o, page0, page0, order0);
      OneMore(old(lists), old(order), lists, order, page, o, migratetype, tail);
      AddBlock(page, o, migratetype, tail);
      assert Inside(page0, page, order[page]);
    }

    /** free_one_page: mm/page_alloc.c:1273-1283 */
    method FreeOne(page: nat, o: nat, migratetype: nat)
      requires Valid() && Counted() && o < MAX_ORDER && migratetype < MIGRATE_TYPES
      requires page % Pow2(o) == 0 && InZone(page, o) && AllBusy(order, page, o)
      modifies `order, `lists, `nr_free, `free_pages
      ensures Valid() && Counted() && Gains(old(order), order, page, o)
      ensures free_pages == old(free_pages) + Pow2(o)
      ensures NewOn(old(order), lists, order, migratetype) && Stay(old(lists), lists, order)
      ensures PutBack(old(lists), lists, order, page, migratetype)
    {
      hide Proper, Coalesced, Listed, Counts, Total, Pow2, Covers, AllBusy, Gains, Stay, NewOn, PutBack;
      FreeOnePage(page, o, migratetype);
      free_pages := free_pages + Pow2(o);
    }

    /** expand: mm/page_alloc.c:1484-1499.  The block of order `high0` at `page` is cut in
        halves; the upper halves become free, the lowest part of order `low` does not. */
    method Expand(page: nat, low: nat, high0: nat, migratetype: nat)
      requires Valid() && low <= high0 < MAX_ORDER && migratetype < MIGRATE_TYPES
      requires page % Pow2(high0) == 0 && InZone(page, high0) && AllBusy(order, page, high0)
      modifies `order, `lists, `nr_free
      ensures Valid() && page % Pow2(low) == 0 && AllBusy(order, page, low)
      ensures SamePages(order, page, low, old(order), page, high0)
      ensures Total(nr_free) + Pow2(low) == Total(old(nr_free)) + Pow2(high0)
      ensures NewOn(old(order), lists, order, migratetype) && Stay(old(lists), lists, order)
      ensures Cut(old(lists), lists, page, low, high0, migratetype)
    {
      hide Proper, Coalesced, Listed, Counts, Total, Pow2, Covers, AllBusy, Gains, SamePages, Buddy, Stay, NewOn, Cut;
      var high := high0;
      SamePagesSelf(order, page, high);
      NothingMoved(lists, order, migratetype);
      ListsShaped(lists, order);
      CutNone(lists, page, high, migratetype);
      while high > low
        invariant low <= high <= high0 && page % Pow2(high) == 0 && InZone(page, high) && Pow2(high) <= Pow2(high0)
        invariant Valid() && AllBusy(order, page, high)
        invariant SamePages(order, page, high, old(order), page, high0)
        invariant Total(nr_free) + Pow2(high) == Total(old(nr_free)) + Pow2(high0)
        invariant NewOn(old(order), lists, order, migratetype) && Stay(old(lists), lists, order)
        invariant Cut(old(lists), lists, page, high, high0, migratetype)
      {
        high := high - 1;
        var size := Pow2(high);
        NextPow2(high);
        SplitBlock(order, page, high);
        SamePagesChain(order[page + size := high], page, high, order, page, high + 1, old(order), page, high0);
        ListsShaped(lists, order);
        NotListed(old(lists), old(order), page + size, high, page + size, page, high0);
        OneMore(old(lists), old(order), lists, order, page + size, high, migratetype, false);
        CutMore(old(lists), lists, page, high, high0, migratetype);
        AddBlock(page + size, high, migratetype, false);
      }
    }

    /** __rmqueue_smallest: mm/page_alloc.c:1505-1527 */
    method RmqueueSmallest(o: nat, migratetype: nat) returns (page: Option<nat>)
      requires Valid() && o < MAX_ORDER && migratetype < MIGRATE_TYPES
      modifies `order, `lists, `nr_free
      ensures Valid()
      ensures if page.None? then NoneOf(old(lists), o, migratetype) else Smallest(old(lists), o, migratetype, page.value)
      ensures page.None? ==> order == old(order) && lists == old(lists) && nr_free == old(nr_free)
      ensures page.Some? ==> Taken(old(order), order, page.value, o) && Total(nr_free) + Pow2(o) == Total(old(nr_free))
      ensures NewOn(old(order), lists, order, migratetype) && Stay(old(lists), lists, order)
      ensures page.Some? ==> TookSmallest(old(Now()), Now(), o, migratetype, page.value)
    {
      hide Proper, Coalesced, Listed, Counts, Total, Pow2, Covers, AllBusy, Gains, SamePages, Buddy, Loses, Stay, NewOn, Survive, Cut, Gathered, BrokenUp;
      ListsShaped(lists, order);
      var current := o;
      while current < MAX_ORDER
        invariant o <= current <= MAX_ORDER
        invariant forall c :: o <= c < current ==> lists[c][migratetype] == []
      {
        if lists[current][migratetype] != [] {
          var p := lists[current][migratetype][0];
          assert HeadOf(lists, current, migratetype, p);
          ListedIs(lists, order, current, migratetype, p);
          TakeOut(order, p);
          DelBlock(p);
          ghost var mid, listed := order, lists;
          Expand(p, o, current, migratetype);
          OutAndCut(old(lists), old(order), listed, mid, lists, order, p, o, migratetype);
          TakenPart(old(order), mid, order, p, o, current);
          GatherNone(old(lists), old(order), p, migratetype);
          BreakUp(old(lists), old(order), old(lists), (p, p), migratetype, listed, p, o, migratetype, lists);
          return Some(p);
        }
        current := current + 1;
      }
      NothingMoved(lists, order, migratetype);
      return None;
    }

    /** list_del and list_add to the list of another migratetype: mm/page_alloc.c:1568-1570 */
    method MoveBlock(p: nat, m: nat)
      requires Valid() && p in order && m < MIGRATE_TYPES
      modifies `lists
      ensures Valid() && OnList(lists, order[p], m, p) && Moved(old(lists), order, lists, p, m)
      ensures forall o: nat, m': nat, q: nat :: q != p && OnList(old(lists), o, m', q) ==> OnList(lists, o, m', q)
    {
      hide Moved, OnList, Proper, Coalesced, Listed, Counts, Total, Pow2, Flat, Heads, AddTo, DropFrom;
      var o := order[p];
      OrderBounded(order, p);
      ListsShaped(lists, order);
      CountsShaped(nr_free, lists);
      OnSomeList(lists, order, p);
      var m0 :| 0 <= m0 < MIGRATE_TYPES && p in lists[o][m0];
      var i :| 0 <= i < |lists[o][m0]| && lists[o][m0][i] == p;
      DropListed(lists, order, nr_free, o, m0, i);
      AddListed(DropFrom(lists, o, m0, i), order - {p}, nr_free[o := nr_free[o] - 1], p, o, m, false);
      MovedLists(lists, o, m0, i, m);
      MoveOne(lists, order, o, m0, i, m);
      assert (order - {p})[p := o] == order;
      assert nr_free[o := nr_free[o] - 1][o := nr_free[o]] == nr_free;
      lists := AddTo(DropFrom(lists, o, m0, i), o, m, p, false);
    }

    /** move_freepages: mm/page_alloc.c:1534-1576.  The pages that moved are the free pages
        of the range (`start` is the first page of a free block or of a pageblock). */
    method MoveFreepages(start: nat, end: nat, m: nat) returns (moved: nat)
      requires Valid() && m < MIGRATE_TYPES && start <= end + 1
      requires NoneStraddles(order, start) && NoneStraddles(order, end + 1)
      modifies `lists
      ensures Valid() && moved == FreeIn(order, start, end + 1)
      ensures forall p :: p in order && start <= p <= end ==> OnList(lists, order[p], m, p)
      ensures forall o: nat, m': nat, p: nat :: !(start <= p <= end) && OnList(old(lists), o, m', p) ==> OnList(lists, o, m', p)
      ensures Gathered(old(lists), order, lists, (start, end + 1), m)
    {
      hide Gathered, Moved, OnList, Proper, Coalesced, Listed, Counts, Total, Flat, Heads, AddTo, DropFrom, Covers;
      var page := start;
      moved := 0;
      FreeInEmpty(order, start);
      GatherNone(lists, order, start, m);
      while page <= end
        invariant start <= page <= end + 1 && Valid()
        invariant NoneStraddles(order, page) && moved == FreeIn(order, start, page)
        invariant forall p :: p in order && start <= p < page ==> OnList(lists, order[p], m, p)
        invariant forall o: nat, m': nat, p: nat :: !(start <= p < page) && OnList(old(lists), o, m', p) ==> OnList(lists, o, m', p)
        invariant Gathered(old(lists), order, lists, (start, page), m)
        decreases end + 1 - page
      {
        if page !in order {
          SkipBusy(order, start, page);
          GatherSkip(old(lists), order, lists, start, page, m);
          page := page + 1;
        } else {
          var o := order[page];
          PassBlock(order, start, page, end + 1);
          ghost var before := lists;
          MoveBlock(page, m);
          GatherMore(old(lists), order, before, lists, start, page, page + Pow2(o), m);
          page := page + Pow2(o);
          moved := moved + Pow2(o);
        }
      }
    }

    /** The pages around `page` that change type with it: those of its pageblock, from `page`
        on if the zone begins within it, and none if the zone ends within it. */
    ghost function Window(page: nat): (w: (nat, nat))
      ensures var lo := PageBlock(page) * 1024;
        if lo + 1024 > start_pfn + spanned then w == (page, page)
        else w == (if lo < start_pfn then page else lo, lo + 1024)
    {
      PageblockSize();
      var start := AlignDown(page, Pow2(PAGEBLOCK_ORDER));
      var end := start + Pow2(PAGEBLOCK_ORDER);
      if end > start_pfn + spanned then (page, page) else (if start < start_pfn then page else start, end)
    }

    /** move_freepages_block: mm/page_alloc.c:1578-1597 */
    method MoveFreepagesBlock(page: nat, m: nat) returns (moved: nat)
      requires Valid() && m < MIGRATE_TYPES && page in order
      modifies `lists
      ensures Valid() && moved == FreeIn(order, Window(page).0, Window(page).1)
      ensures moved == 0 ==> lists == old(lists)
      ensures moved > 0 ==> OnList(lists, order[page], m, page)
      ensures forall o: nat, m': nat, p: nat :: PageBlock(p) != PageBlock(page) && OnList(old(lists), o, m', p) ==> OnList(lists, o, m', p)
      ensures MovedIn(old(lists), order, lists, order, Window(page), m)
      ensures Gathered(old(lists), order, lists, Window(page), m)
    {
      hide Gathered, Proper, Coalesced, Listed, Counts, Total, Pow2, FreeIn, OnList, NoneStraddles, Covers, Flat, Heads;
      var start := AlignDown(page, Pow2(PAGEBLOCK_ORDER));
      var end := start + Pow2(PAGEBLOCK_ORDER) - 1;
      if end >= start_pfn + spanned {
        FreeInEmpty(order, page);
        GatherNone(lists, order, page, m);
        return 0;
      }
      BlockWindow(order, page);
      var from := if start < start_pfn then page else start;
      moved := MoveFreepages(from, end, m);
      SomeFree(order, from, page, end + 1);
      forall x: nat | from <= x <= end
        ensures PageBlock(x) == PageBlock(page)
      {
        PageblockSize();
        WindowBlock(page, x);
      }
    }

    /** set_pageblock_migratetype: mm/page_alloc.c:330-337 */
    method SetBlockType(page: nat, m: nat, mobility_disabled: bool)
      modifies `block_type
      ensures block_type == old(block_type)[PageBlock(page) := if mobility_disabled then MIGRATE_UNMOVABLE else m]
    {
      block_type := block_type[PageBlock(page) := if mobility_disabled then MIGRATE_UNMOVABLE else m];
    }

    /** __rmqueue_fallback: mm/page_alloc.c:1613-1675.  The largest block of another type;
        with a large one, or for a reclaimable request, its neighbours change type too. */
    method RmqueueFallback(o: nat, start: nat, mobility_disabled: bool) returns (page: Option<nat>)
      requires Valid() && o < MAX_ORDER && start < MIGRATE_RESERVE
      modifies `order, `lists, `nr_free, `block_type
      ensures Valid()
      ensures page.None? <==> NoOther(old(lists), o, start)
      ensures page.None? ==>
        order == old(order) && lists == old(lists) && nr_free == old(nr_free) && block_type == old(block_type)
      ensures page.Some? ==> Taken(old(order), order, page.value, o) && Total(nr_free) + Pow2(o) == Total(old(nr_free))
      ensures page.Some? ==> TookOther(old(Now()), Now(), o, start, mobility_disabled, page.value)
    {
      hide Proper, Coalesced, Listed, Counts, Total, Pow2, Covers, AllBusy, Gains, SamePages, Buddy, Loses, OnList, Zone.BrokenFrom;
      ListsShaped(lists, order);
      var current := MAX_ORDER;
      while current > o
        invariant o <= current <= MAX_ORDER
        invariant Shaped(lists) && NoOther(lists, current, start)
        invariant Valid() && unchanged(`order, `lists, `nr_free, `block_type)
      {
        current := current - 1;
        var i := 0;
        while i < MIGRATE_TYPES - 1
          invariant 0 <= i <= MIGRATE_TYPES - 1
          invariant forall j :: j < i && FallsTo(start, j) ==> lists[current][Fallback(start, j)] == []
          invariant Valid() && unchanged(`order, `lists, `nr_free, `block_type)
        {
          var m := Fallback(start, i);
          if m != MIGRATE_RESERVE && lists[current][m] != [] {
            LargestFound(lists, o, start, current, i);
            page := TakeFallback(o, current, start, m, mobility_disabled);
            assert HeadOf(old(lists), current, m, page.value);
            return;
          }
          i := i + 1;
        }
        NoneAtOrder(lists, start, current);
      }
      return None;
    }

    /** What is left of block `p` from list `m0`.  If the request claims it, it and the pages
        around it go to the lists of type `start`, and if half of the pageblock is free the
        pageblock changes type; so it does if the block is a whole pageblock. */
    ghost predicate BrokenFrom(s: Books, s': Books, o: nat, start: nat, m0: nat, mobility_disabled: bool, p: nat)
      requires p in s.order
    {
      var c, claims := s.order[p], Claims(s.order[p], start, mobility_disabled);
      var w := if claims then Window(p) else (p, p);
      && BrokenUp(s.lists, s.order, s'.lists, p, o, if claims then start else m0, w, start)
      && s'.block_type == if c >= PAGEBLOCK_ORDER || (claims && (FreeIn(s.order, w.0, w.1) >= 512 || mobility_disabled))
        then s.block_type[PageBlock(p) := if mobility_disabled then MIGRATE_UNMOVABLE else start] else s.block_type
    }

    /** The largest block of another type was taken. */
    ghost predicate TookOther(s: Books, s': Books, o: nat, start: nat, mobility_disabled: bool, p: nat)
      requires Shaped(s.lists) && start < MIGRATE_RESERVE
    {
      p in s.order && exists m0 :: (LargestOther(s.lists, o, start, s.order[p], m0) && HeadOf(s.lists, s.order[p], m0, p)
        && BrokenFrom(s, s', o, start, m0, mobility_disabled, p))
    }

    /** Where the block came from and what became of the lists and the types: the smallest of
        the type asked for, else the largest of another type, else the smallest reserved. */
    ghost predicate Served(s: Books, s': Books, o: nat, m: nat, mobility_disabled: bool, p: nat)
      requires Shaped(s.lists) && m <= MIGRATE_RESERVE
    {
      && Taken(s.order, s'.order, p, o)
      && if !NoneOf(s.lists, o, m) then TookSmallest(s, s', o, m, p)
        else if m != MIGRATE_RESERVE && !NoOther(s.lists, o, m) then TookOther(s, s', o, m, mobility_disabled, p)
        else TookSmallest(s, s', o, MIGRATE_RESERVE, p)
    }

    /** The blocks were taken one after another, each as the one before left things. */
    ghost predicate ServedInTurn(s: Books, pages: seq<nat>, s': Books, o: nat, m: nat, mobility_disabled: bool)
      requires m <= MIGRATE_RESERVE
      decreases |pages|
    {
      if pages == [] then s' == s
      else exists mid: Books :: (ServedInTurn(s, pages[..|pages| - 1], mid, o, m, mobility_disabled)
        && Shaped(mid.lists) && Served(mid, s', o, m, mobility_disabled, pages[|pages| - 1]))
    }

    lemma NoneServed(s: Books, o: nat, m: nat, mobility_disabled: bool)
      requires m <= MIGRATE_RESERVE
      ensures ServedInTurn(s, [], s, o, m, mobility_disabled)
    {
    }

    lemma OneMoreServed(s: Books, pages: seq<nat>, mid: Books, p: nat, s': Books, o: nat, m: nat, mobility_disabled: bool)
      requires m <= MIGRATE_RESERVE && ServedInTurn(s, pages, mid, o, m, mobility_disabled)
      requires Shaped(mid.lists) && Served(mid, s', o, m, mobility_disabled, p)
      ensures ServedInTurn(s, pages + [p], s', o, m, mobility_disabled)
    {
      hide Zone.Served;
      assert (pages + [p])[..|pages|] == pages;
    }

    /** The block is found: mm/page_alloc.c:1634-1671 */
    method TakeFallback(o: nat, current: nat, start: nat, m0: nat, mobility_disabled: bool) returns (page: Option<nat>)
      requires Valid() && o <= current < MAX_ORDER && start < MIGRATE_RESERVE && m0 < MIGRATE_TYPES
      requires Shaped(lists) && lists[current][m0] != []
      modifies `order, `lists, `nr_free, `block_type
      ensures Valid() && page == Some(old(lists)[current][m0][0])
      ensures Taken(old(order), order, page.value, o) && Total(nr_free) + Pow2(o) == Total(old(nr_free))
      ensures NewOn(old(order), lists, order, if Claims(current, start, mobility_disabled) then start else m0)
      ensures !Claims(current, start, mobility_disabled) ==> Stay(old(lists), lists, order)
      ensures Claims(current, start, mobility_disabled) ==> MovedIn(old(lists), old(order), lists, order, Window(page.value), start)
      ensures page.value in old(order) && old(order)[page.value] == current
      ensures BrokenFrom(old(Now()), Now(), o, start, m0, mobility_disabled, page.value)
    {
      hide Proper, Coalesced, Listed, Counts, Total, Pow2, Covers, AllBusy, Gains, SamePages, Buddy, Loses, OnList, Stay, NewOn, FreeIn,
        MovedIn, Zone.Window, Survive, Gathered, Cut, BrokenUp;
      var p, m := lists[current][m0][0], m0;
      ListedIs(lists, order, current, m0, p);
      GatherNone(lists, order, p, start);
      HalfPageblock();
      if current >= PAGEBLOCK_ORDER / 2 || start == MIGRATE_RECLAIMABLE || mobility_disabled {
        var pages := MoveFreepagesBlock(p, start);
        if pages >= Pow2(PAGEBLOCK_ORDER - 1) || mobility_disabled {
          SetBlockType(p, start, mobility_disabled);
        }
        m := start;
      }
      TakeOut(order, p);
      ghost var first := lists;
      DelBlock(p);
      ghost var mid, listed := order, lists;
      if current >= PAGEBLOCK_ORDER {
        SetBlockType(p, start, mobility_disabled);
      }
      Expand(p, o, current, m);
      OutAndCut(first, old(order), listed, mid, lists, order, p, o, m);
      if Claims(current, start, mobility_disabled) {
        MovedThenStay(old(lists), old(order), first, lists, order, Window(p), start);
      }
      BreakUp(old(lists), old(order), first, if Claims(current, start, mobility_disabled) then Window(p) else (p, p), start, listed, p, o, m, lists);
      TakenPart(old(order), mid, order, p, o, current);
      page := Some(p);
    }

    /** __rmqueue: mm/page_alloc.c:1681-1704 */
    method Rmqueue(o: nat, migratetype: nat, mobility_disabled: bool) returns (page: Option<nat>)
      requires Valid() && o < MAX_ORDER && migratetype <= MIGRATE_RESERVE
      modifies `order, `lists, `nr_free, `block_type
      ensures Valid()
      ensures page.None? <==> Exhausted(old(lists), o, migratetype)
      ensures page.Some? ==> Served(old(Now()), Now(), o, migratetype, mobility_disabled, page.value)
      ensures page.None? ==>
        order == old(order) && lists == old(lists) && nr_free == old(nr_free) && block_type == old(block_type)
      ensures page.Some? ==> Taken(old(order), order, page.value, o) && Total(nr_free) + Pow2(o) == Total(old(nr_free))
    {
      hide Proper, Coalesced, Listed, Counts, Total, Pow2, Covers, Taken, NoneOf, NoOther, Smallest, NoneAtAll, BrokenUp, Zone.TookOther;
      ListsShaped(lists, order);
      page := RmqueueSmallest(o, migratetype);
      if page.None? && migratetype != MIGRATE_RESERVE {
        OtherTypes(lists, o, migratetype);
        page := RmqueueFallback(o, migratetype, mobility_disabled);
        if page.None? {
          page := RmqueueSmallest(o, MIGRATE_RESERVE);
          if page.Some? {
            SmallestIsSome(old(lists), o, MIGRATE_RESERVE, page.value);
          }
        }
      } else if page.Some? {
        SmallestIsSome(old(lists), o, migratetype, page.value);
        if migratetype != MIGRATE_RESERVE {
          SomeType(old(lists), o, migratetype);
        }
      }
    }

    /** rmqueue_bulk: mm/page_alloc.c:1711-1741.  `at` is where the moving list head stands;
        `pages` are the blocks in the order in which they were taken. */
    method RmqueueBulk(o: nat, count: nat, list0: seq<Cached>, migratetype: nat, cold: bool, mobility_disabled: bool)
      returns (pages: seq<nat>, list: seq<Cached>)
      requires Valid() && Counted() && o < MAX_ORDER && migratetype <= MIGRATE_RESERVE
      modifies `order, `lists, `nr_free, `block_type, `free_pages
      ensures Valid() && Counted() && |pages| <= count && TakenAll(old(order), order, pages, o)
      ensures free_pages == old(free_pages) - |pages| * Pow2(o)
      ensures |pages| < count ==> Exhausted(lists, o, migratetype)
      ensures pages == [] ==> order == old(order) && lists == old(lists)
      ensures pages != [] ==> !Exhausted(old(lists), o, migratetype)
      ensures list == Added(list0, pages, migratetype, cold)
      ensures ServedInTurn(old(Now()), pages, Now(), o, migratetype, mobility_disabled)
    {
      hide Zone.ServedInTurn, Proper, Coalesced, Listed, Counts, Total, Pow2, Covers, Taken, NoneOf, Zone.Served, Exhausted, TakenAll, Backwards, Tagged, Added;
      ListsShaped(lists, order);
      var at := if cold then |list0| else 0;
      pages, list := [], list0;
      TakenNone(order, o);
      NoneServed(Now(), o, migratetype, mobility_disabled);
      AddedNone(list0, migratetype, cold);
      while |pages| < count
        invariant Valid() && |pages| <= count && TakenAll(old(order), order, pages, o)
        invariant Total(nr_free) + |pages| * Pow2(o) == Total(old(nr_free))
        invariant free_pages == old(free_pages)
        invariant at == if cold then |list0| else |pages|
        invariant if pages == [] then order == old(order) && lists == old(lists) else !Exhausted(old(lists), o, migratetype)
        invariant at <= |list| && list == Added(list0, pages, migratetype, cold)
        invariant ServedInTurn(old(Now()), pages, Now(), o, migratetype, mobility_disabled)
      {
        ghost var before, was := order, Now();
        ListsShaped(lists, order);
        var page := Rmqueue(o, migratetype, mobility_disabled);
        if page.None? {
          break;
        }
        TakeAnother(old(order), before, order, pages, page.value, o);
        OneMoreServed(old(Now()), pages, was, page.value, Now(), o, migratetype, mobility_disabled);
        AddedMore(list0, pages, migratetype, cold, page.value);
        list := list[..at] + [Cached(page.value, migratetype)] + list[at..];
        at := if cold then at else at + 1;
        pages := pages + [page.value];
      }
      free_pages := free_pages - |pages| * Pow2(o);
    }
  }

  /** A page on a per-CPU list, with the migratetype that page_private remembers. */
  datatype Cached = Cached(page: nat, migratetype: nat)

  function Tagged(pages: seq<nat>, m: nat): (r: seq<Cached>)
    ensures |r| == |pages| && forall k :: 0 <= k < |r| ==> r[k] == Cached(pages[k], m)
  {
    if pages == [] then [] else Tagged(pages[..|pages| - 1], m) + [Cached(pages[|pages| - 1], m)]
  }

  function Backwards(s: seq<Cached>): (r: seq<Cached>)
    ensures |r| == |s| && forall k :: 0 <= k < |r| ==> r[k] == s[|s| - 1 - k]
  {
    if s == [] then [] else [s[|s| - 1]] + Backwards(s[..|s| - 1])
  }

  /** Pages taken hot stand first, in the order in which they were taken; pages taken cold
      stand last, the latest before the others. */
  function Added(list: seq<Cached>, pages: seq<nat>, m: nat, cold: bool): (r: seq<Cached>)
    ensures |r| == |list| + |pages|
  {
    if cold then list + Backwards(Tagged(pages, m)) else Tagged(pages, m) + list
  }

  lemma AddedNone(list: seq<Cached>, m: nat, cold: bool)
    ensures Added(list, [], m, cold) == list
  {
  }

  /** Where the moving head inserts the next block. */
  lemma AddedMore(list: seq<Cached>, pages: seq<nat>, m: nat, cold: bool, p: nat)
    ensures var at, l := (if cold then |list| else |pages|), Added(list, pages, m, cold);
      Added(list, pages + [p], m, cold) == l[..at] + [Cached(p, m)] + l[at..]
  {
    var t := Tagged(pages + [p], m);
    assert (pages + [p])[..|pages|] == pages;
    assert t == Tagged(pages, m) + [Cached(p, m)];
    assert t[..|pages|] == Tagged(pages, m);
  }

  ghost predicate InBlocks(q: int, pages: seq<nat>, o: nat) {
    exists k :: 0 <= k < |pages| && Inside(q, pages[k], o)
  }

  /** Aligned blocks that were wholly free, apart from one another, are free no more, and
      nothing else changed. */
  ghost predicate TakenAll(b: Blocks, c: Blocks, pages: seq<nat>, o: nat) {
    && (forall k :: 0 <= k < |pages| ==> pages[k] % Pow2(o) == 0 && AllFree(b, pages[k], o))
    && (forall j, k :: 0 <= j < k < |pages| ==> BlocksApart(pages[j], pages[k], o))
    && (forall q: int :: Covers(c, q) <==> Covers(b, q) && !InBlocks(q, pages, o))
  }

  ghost predicate BlocksApart(p: nat, q: nat, o: nat) { p + Pow2(o) <= q || q + Pow2(o) <= p }

  lemma TakenNone(b: Blocks, o: nat)
    ensures TakenAll(b, b, [], o)
  {
  }

  lemma TakeAnother(b: Blocks, c: Blocks, d: Blocks, pages: seq<nat>, p: nat, o: nat)
    requires TakenAll(b, c, pages, o) && Taken(c, d, p, o)
    ensures TakenAll(b, d, pages + [p], o)
  {
    hide Pow2, Covers;
    var more := pages + [p];
    forall k | 0 <= k < |pages|
      ensures BlocksApart(pages[k], p, o)
    {
      assert Inside(p, p, o) && Covers(c, p);
      assert !Inside(p, pages[k], o);
      if p < pages[k] {
        MultiplesApart(p, pages[k], Pow2(o));
      }
    }
    forall q: int
      ensures InBlocks(q, more, o) <==> InBlocks(q, pages, o) || Inside(q, p, o)
    {
      if InBlocks(q, pages, o) {
        var k :| 0 <= k < |pages| && Inside(q, pages[k], o);
        assert more[k] == pages[k];
      }
      assert more[|pages|] == p;
    }
    forall k | 0 <= k < |more|
      ensures more[k] % Pow2(o) == 0 && AllFree(b, more[k], o)
    {
      assert k < |pages| ==> more[k] == pages[k];
    }
  }

  /** fallbacks[start][i]: mm/page_alloc.c:179-192.  The unset last column is 0. */
  function Fallback(start: nat, i: nat): (m: nat)
    requires start < MIGRATE_RESERVE && i < MIGRATE_TYPES - 1
    ensures m < MIGRATE_TYPES
  {
    if i == 3 then 0
    else if i == 2 then MIGRATE_RESERVE
    else if start == MIGRATE_UNMOVABLE then (if i == 0 then MIGRATE_RECLAIMABLE else MIGRATE_MOVABLE)
    else if start == MIGRATE_RECLAIMABLE then (if i == 0 then MIGRATE_UNMOVABLE else MIGRATE_MOVABLE)
    else if i == 0 then MIGRATE_RECLAIMABLE else MIGRATE_UNMOVABLE
  }

  /** The reserve is left to the caller. */
  predicate FallsTo(start: nat, i: int)
    requires start < MIGRATE_RESERVE
  {
    0 <= i < MIGRATE_TYPES - 1 && Fallback(start, i) != MIGRATE_RESERVE
  }

  /** No fallback of the type offers a block. */
  ghost predicate NoFallback(ls: FreeLists, o: nat, start: nat)
    requires Shaped(ls) && start < MIGRATE_RESERVE
  {
    forall i :: FallsTo(start, i) ==> NoneOf(ls, o, Fallback(start, i))
  }

  /** The types that a request of another type falls back to: all but its own and the
      reserve.  The unset last column makes an unmovable request look at its own once more. */
  predicate Tried(start: nat, m: int) { 0 <= m < MIGRATE_RESERVE && (m != start || start == MIGRATE_UNMOVABLE) }

  /** None of these types offers a block. */
  ghost predicate NoOther(ls: FreeLists, o: nat, start: nat)
    requires Shaped(ls)
  {
    forall m :: Tried(start, m) ==> NoneOf(ls, o, m)
  }

  /** No unmovable, reclaimable or movable block of the order. */
  ghost predicate NoneAtAll(ls: FreeLists, o: nat)
    requires Shaped(ls)
  {
    NoneOf(ls, o, MIGRATE_UNMOVABLE) && NoneOf(ls, o, MIGRATE_RECLAIMABLE) && NoneOf(ls, o, MIGRATE_MOVABLE)
  }

  lemma SomeType(ls: FreeLists, o: nat, m: nat)
    requires Shaped(ls) && m < MIGRATE_RESERVE && !NoneOf(ls, o, m)
    ensures !NoneAtAll(ls, o)
  {
  }

  /** No block is left that a request of type `m` may be served from. */
  ghost predicate Exhausted(ls: FreeLists, o: nat, m: nat)
    requires Shaped(ls)
  {
    NoneOf(ls, o, MIGRATE_RESERVE) && (m == MIGRATE_RESERVE || NoneAtAll(ls, o))
  }

  lemma OtherTypes(ls: FreeLists, o: nat, start: nat)
    requires Shaped(ls) && start < MIGRATE_RESERVE && NoneOf(ls, o, start)
    ensures NoOther(ls, o, start) <==> NoneAtAll(ls, o)
  {
    hide NoneOf;
    assert forall m :: 0 <= m < MIGRATE_RESERVE ==> Tried(start, m) || m == start;
  }

  /** Between them, a type and its fallbacks are all the types but the reserve. */
  lemma FallbackTypes(ls: FreeLists, o: nat, start: nat)
    requires Shaped(ls) && start < MIGRATE_RESERVE
    ensures NoFallback(ls, o, start) <==> NoOther(ls, o, start)
    ensures NoneOf(ls, o, start) ==> (NoFallback(ls, o, start) <==> NoneAtAll(ls, o))
  {
    hide NoneOf;
    if NoFallback(ls, o, start) {
      assert FallsTo(start, 0) && FallsTo(start, 1) && FallsTo(start, 3);
      assert NoneOf(ls, o, Fallback(start, 0)) && NoneOf(ls, o, Fallback(start, 1)) && NoneOf(ls, o, Fallback(start, 3));
    }
    forall i | FallsTo(start, i) && NoOther(ls, o, start)
      ensures NoneOf(ls, o, Fallback(start, i))
    {
      assert i == 0 || i == 1 || i == 2 || i == 3;
      assert Tried(start, Fallback(start, i));
    }
    if NoneOf(ls, o, start) {
      OtherTypes(ls, o, start);
    }
  }

  /** No fallback offers a block of order `c`, nor of a higher one. */
  lemma NoneAtOrder(ls: FreeLists, start: nat, c: nat)
    requires Shaped(ls) && start < MIGRATE_RESERVE && c < MAX_ORDER && NoOther(ls, c + 1, start)
    requires forall j :: FallsTo(start, j) ==> ls[c][Fallback(start, j)] == []
    ensures NoOther(ls, c, start)
  {
    forall j | FallsTo(start, j)
      ensures NoneOf(ls, c, Fallback(start, j))
    {
      assert j == 0 || j == 1 || j == 2 || j == 3;
      assert Tried(start, Fallback(start, j)) && NoneOf(ls, c + 1, Fallback(start, j));
    }
    FallbackTypes(ls, c, start);
  }

  /** The first fallback with a block, at the highest order that has one. */
  lemma LargestFound(ls: FreeLists, o: nat, start: nat, c: nat, i: nat)
    requires Shaped(ls) && start < MIGRATE_RESERVE && o <= c < MAX_ORDER && NoOther(ls, c + 1, start)
    requires FallsTo(start, i) && ls[c][Fallback(start, i)] != []
    requires forall j :: j < i && FallsTo(start, j) ==> ls[c][Fallback(start, j)] == []
    ensures LargestOther(ls, o, start, c, Fallback(start, i)) && !NoOther(ls, o, start)
  {
    assert i == 0 || i == 1 || i == 3;
    assert FallsTo(start, 0) && FallsTo(start, 1);
    assert Tried(start, Fallback(start, i)) && !NoneOf(ls, o, Fallback(start, i));
  }

  /** The number of the pageblock that `page` lies in. */
  function PageBlock(page: nat): (n: nat)
    ensures n * 1024 <= page < (n + 1) * 1024
  {
    page / PAGEBLOCK_NR_PAGES
  }

  lemma PageblockSize()
    ensures Pow2(PAGEBLOCK_ORDER) == PAGEBLOCK_NR_PAGES
  {
    assert Pow2(5) == 32 && Pow2(10) == 32 * Pow2(5);
  }

  /** The pageblock around a free block: its ends cut no free block. */
  lemma BlockWindow(b: Blocks, page: nat)
    requires Proper(b) && page in b
    ensures var start := AlignDown(page, Pow2(PAGEBLOCK_ORDER));
      && start <= page < start + Pow2(PAGEBLOCK_ORDER)
      && NoneStraddles(b, start) && NoneStraddles(b, page) && NoneStraddles(b, start + Pow2(PAGEBLOCK_ORDER))
  {
    hide Pow2;
    var n := Pow2(PAGEBLOCK_ORDER);
    var start := AlignDown(page, n);
    BlockBoundary(b, start);
    DivModUnique(n, 1, 0, n);
    SumOfMultiples(start, n, n);
    BlockBoundary(b, start + n);
  }

  lemma WindowBlock(page: nat, x: nat)
    requires AlignDown(page, PAGEBLOCK_NR_PAGES) <= x < AlignDown(page, PAGEBLOCK_NR_PAGES) + PAGEBLOCK_NR_PAGES
    ensures PageBlock(x) == PageBlock(page)
  {
  }

  /** A range that holds a free page counts more than none. */
  lemma SomeFree(b: Blocks, lo: nat, p: nat, hi: nat)
    requires p in b && lo <= p < hi
    ensures FreeIn(b, lo, hi) > 0
  {
    assert Inside(p, p, b[p]);
    var free := set q: int | lo <= q < hi && Covers(b, q);
    assert p in free;
  }

  /** No free block reaches across a pageblock boundary. */
  lemma BlockBoundary(b: Blocks, q: nat)
    requires Proper(b) && q % Pow2(PAGEBLOCK_ORDER) == 0
    ensures NoneStraddles(b, q)
  {
    forall p | p in b && p < q
      ensures p + Pow2(b[p]) <= q
    {
      MultipleOfMultiple(q, b[p], PAGEBLOCK_ORDER);
      MultiplesApart(p, q, Pow2(b[p]));
    }
  }

  /** No free block starts below `q` and reaches beyond it. */
  ghost predicate NoneStraddles(b: Blocks, q: nat) { forall p :: p in b && p < q ==> p + Pow2(b[p]) <= q }

  /** How many pages from `lo` up to `hi` are free. */
  ghost function FreeIn(b: Blocks, lo: nat, hi: nat): nat {
    |set q: int | lo <= q < hi && Covers(b, q)|
  }

  lemma FreeInEmpty(b: Blocks, lo: nat)
    ensures FreeIn(b, lo, lo) == 0
  {
  }

  lemma SkipBusy(b: Blocks, lo: nat, q: nat)
    requires lo <= q && q !in b && NoneStraddles(b, q)
    ensures NoneStraddles(b, q + 1) && FreeIn(b, lo, q + 1) == FreeIn(b, lo, q)
  {
    assert !Covers(b, q);
    assert (set x: int | lo <= x < q + 1 && Covers(b, x)) == (set x: int | lo <= x < q && Covers(b, x));
  }

  predicate Between(x: int, lo: int, hi: int) { lo <= x < hi }

  ghost function Range(lo: int, hi: int): set<int> { set x: int | lo <= x < hi && Between(x, lo, hi) }

  lemma PassBlock(b: Blocks, lo: nat, p: nat, end: nat)
    requires Proper(b) && p in b && lo <= p < end && NoneStraddles(b, p) && NoneStraddles(b, end)
    ensures p + Pow2(b[p]) <= end && NoneStraddles(b, p + Pow2(b[p]))
    ensures FreeIn(b, lo, p + Pow2(b[p])) == FreeIn(b, lo, p) + Pow2(b[p])
    ensures forall x :: x in b && p <= x < p + Pow2(b[p]) ==> x == p
  {
    var n := p + Pow2(b[p]);
    forall x: int | p <= x < n
      ensures Covers(b, x)
    {
      assert Inside(x, p, b[p]);
    }
    FreeStretch(b, lo, p, n);
  }

  /** A stretch of free pages adds its length. */
  lemma FreeStretch(b: Blocks, lo: nat, p: nat, n: nat)
    requires lo <= p <= n && forall x: int :: p <= x < n ==> Covers(b, x)
    ensures FreeIn(b, lo, n) == FreeIn(b, lo, p) + (n - p)
  {
    hide Covers;
    var s1, s3 := (set x: int | lo <= x < p && Covers(b, x)), (set x: int | lo <= x < n && Covers(b, x));
    forall x: int
      ensures x in s3 <==> x in s1 || x in Range(p, n)
    {
      assert p <= x < n <==> Between(x, p, n);
    }
    assert s3 == s1 + Range(p, n);
    RangeSize(p, n);
  }

  lemma {:induction false} RangeSize(a: int, b: int)
    requires a <= b
    ensures |Range(a, b)| == b - a
    decreases b - a
  {
    if a < b {
      RangeSize(a, b - 1);
      forall x: int
        ensures x in Range(a, b) <==> x in Range(a, b - 1) || x == b - 1
      {
        assert Between(x, a, b) <==> Between(x, a, b - 1) || (x == b - 1);
      }
      assert Range(a, b) == Range(a, b - 1) + {b - 1};
    }
  }

  /** When falling back makes the block and its neighbours change type: with 32 pages and
      more, and for reclaimable requests. */
  ghost predicate Claims(c: nat, start: nat, mobility_disabled: bool) {
    Pow2(c) >= 32 || start == MIGRATE_RECLAIMABLE || mobility_disabled
  }

  lemma HalfPageblock()
    ensures Pow2(PAGEBLOCK_ORDER - 1) == 512
    ensures forall c: nat :: Pow2(c) >= 32 <==> c >= PAGEBLOCK_ORDER / 2
  {
    assert Pow2(5) == 32 && Pow2(9) == 16 * Pow2(5);
    forall c: nat
      ensures Pow2(c) >= 32 <==> c >= PAGEBLOCK_ORDER / 2
    {
      if c >= 5 {
        Pow2Grows(5, c);
      } else {
        Pow2Grows(c, 4);
      }
    }
  }

  /** No list of type `m` holds a block of order `o` or more. */
  ghost predicate NoneOf(ls: FreeLists, o: nat, m: nat)
    requires Shaped(ls) && m < MIGRATE_TYPES
  {
    forall c :: o <= c < MAX_ORDER ==> ls[c][m] == []
  }

  /** `p` heads the first list of type `m` that is not empty, going up from order `o`. */
  ghost predicate Smallest(ls: FreeLists, o: nat, m: nat, p: nat)
    requires Shaped(ls) && m < MIGRATE_TYPES
  {
    exists c :: o <= c < MAX_ORDER && HeadOf(ls, c, m, p) && forall c' :: o <= c' < c ==> ls[c'][m] == []
  }

  predicate HeadOf(ls: FreeLists, c: nat, m: nat, p: nat)
    requires Shaped(ls) && c < MAX_ORDER && m < MIGRATE_TYPES
  {
    ls[c][m] != [] && ls[c][m][0] == p
  }

  /** Order `c` is the highest at which another type has a block, and `m` is the type of
      which one is taken: an unmovable request prefers the reclaimable to the movable, a
      reclaimable one the unmovable to the movable, and a movable one the reclaimable to the
      unmovable; its own type comes last. */
  ghost predicate LargestOther(ls: FreeLists, o: nat, start: nat, c: nat, m: nat)
    requires Shaped(ls) && start < MIGRATE_RESERVE
  {
    && o <= c < MAX_ORDER && Tried(start, m) && ls[c][m] != [] && NoOther(ls, c + 1, start)
    && (start == MIGRATE_UNMOVABLE && m == MIGRATE_MOVABLE ==> ls[c][MIGRATE_RECLAIMABLE] == [])
    && (start == MIGRATE_UNMOVABLE && m == MIGRATE_UNMOVABLE ==> ls[c][MIGRATE_RECLAIMABLE] == [] && ls[c][MIGRATE_MOVABLE] == [])
    && (start == MIGRATE_RECLAIMABLE && m == MIGRATE_MOVABLE ==> ls[c][MIGRATE_UNMOVABLE] == [])
    && (start == MIGRATE_MOVABLE && m == MIGRATE_UNMOVABLE ==> ls[c][MIGRATE_RECLAIMABLE] == [])
  }

  /** The smallest block of the type was taken, and what is left of it stays of that type. */
  ghost predicate TookSmallest(s: Books, s': Books, o: nat, m: nat, p: nat)
    requires Shaped(s.lists) && m < MIGRATE_TYPES
  {
    && p in s.order && Smallest(s.lists, o, m, p) && s'.block_type == s.block_type
    && BrokenUp(s.lists, s.order, s'.lists, p, o, m, (p, p), m)
  }

  /** A freed block is added last, so that it is taken late, if it is a lower half and the
      buddy of the pair is free; in all other cases it is added first. */
  ghost predicate GoesLast(b: Blocks, p: nat)
    requires p in b
  {
    b[p] < MAX_ORDER - 2 && p % Pow2(b[p] + 1) == 0 && Buddy(p, b[p] + 1) in b && b[Buddy(p, b[p] + 1)] == b[p] + 1
  }

  /** Below the two top orders, the pair that the block belongs to has a free buddy: such a
      block is meant to be added last. */
  ghost predicate PairBuddyFree(b: Blocks, p: nat)
    requires p in b
  {
    var h := Buddy(AlignDown(p, Pow2(b[p] + 1)), b[p] + 1);
    b[p] < MAX_ORDER - 2 && h in b && b[h] == b[p] + 1
  }

  /** It is, exactly if it is the lower half of the pair; and no other block is. */
  lemma LastIfLower(b: Blocks, p: nat)
    requires p in b
    ensures GoesLast(b, p) <==> PairBuddyFree(b, p) && AlignDown(p, Pow2(b[p] + 1)) == p
  {
    hide Pow2, Buddy;
  }

  lemma SmallOrders()
    ensures Pow2(0) == 1 && Pow2(1) == 2 && Buddy(1, 0) == 0 && Buddy(2, 1) == 0 && Buddy(0, 1) == 2
  {
  }

  /** Page 1 is freed while 2 and 3 are a free block: it goes first. */
  lemma UpperHalfFirst()
    ensures exists b: Blocks, p :: Proper(b) && Coalesced(b) && p in b && PairBuddyFree(b, p) && !GoesLast(b, p)
  {
    var b: Blocks := map[1 := 0, 2 := 1];
    SmallOrders();
    hide Pow2, Buddy;
    assert Proper(b);
    assert Coalesced(b);
    hide Proper, Coalesced;
    assert PairBuddyFree(b, 1);
    assert !GoesLast(b, 1);
  }

  /** The block that now holds `page` joined list `m`, and what it merged with left the lists. */
  ghost predicate PutBack(ls: FreeLists, ls': FreeLists, b': Blocks, page: nat, m: nat) {
    exists p :: p in b' && Inside(page, p, b'[p]) && Placed(ls, ls', b', p, m, GoesLast(b', p))
  }

  /** What the code's test of the higher buddy finds. */
  lemma HigherBuddy(b: Blocks, page: nat, o: nat)
    requires Proper(b) && page % Pow2(o) == 0 && page !in b
    ensures var combined := if Buddy(page, o) < page then Buddy(page, o) else page;
      var x := page + (Buddy(combined, o + 1) - combined);
      combined >= 0 && (o < MAX_ORDER - 2 && x in b && b[x] == o + 1 <==> GoesLast(b[page := o], page))
  {
    hide Pow2, Buddy, Proper;
    BuddyFacts(page, o);
    NextPow2(o);
    var combined := if Buddy(page, o) < page then Buddy(page, o) else page;
    BuddyFacts(combined, o + 1);
    var x := page + (Buddy(combined, o + 1) - combined);
    if combined < page {
      NotAligned(combined, Pow2(o));
      NotAligned(Buddy(combined, o + 1), Pow2(o));
      if x in b {
        BlockAligned(b, x);
      }
    }
  }

  lemma BlockAligned(b: Blocks, p: nat)
    requires Proper(b) && p in b
    ensures p % Pow2(b[p]) == 0
  {
  }

  lemma NotAligned(x: nat, h: nat)
    requires h > 0 && x % (2 * h) == 0
    ensures (x + h) % (2 * h) != 0
  {
    DivModUnique(x + h, x / (2 * h), h, 2 * h);
  }

  lemma SmallestIsSome(ls: FreeLists, o: nat, m: nat, p: nat)
    requires Shaped(ls) && m < MIGRATE_TYPES && Smallest(ls, o, m, p)
    ensures !NoneOf(ls, o, m)
  {
  }

  /** An aligned block that was wholly free is free no more, and nothing else changed. */
  ghost predicate Taken(b: Blocks, c: Blocks, p: nat, o: nat) {
    p % Pow2(o) == 0 && Loses(b, c, p, o)
  }

  lemma TakeOut(b: Blocks, p: nat)
    requires Proper(b) && Coalesced(b) && p in b
    ensures Proper(b - {p}) && Coalesced(b - {p}) && AllBusy(b - {p}, p, b[p]) && p % Pow2(b[p]) == 0
    ensures Loses(b, b - {p}, p, b[p])
  {
    RemoveBlock(b, p);
  }

  lemma TakenPart(b: Blocks, mid: Blocks, c: Blocks, p: nat, o: nat, k: nat)
    requires Loses(b, mid, p, k) && SamePages(c, p, o, mid, p, k) && AllBusy(c, p, o) && o <= k
    requires p % Pow2(o) == 0
    ensures Taken(b, c, p, o)
  {
  }
}
