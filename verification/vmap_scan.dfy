/** First fit as alloc_vmap_area of mm/vmalloc.c does it, over the areas in address order and
    with sums of addresses that wrap as unsigned longs do. */
module VmapScan {
  import opened Align
  import opened Basics
  import opened VmapAreas

  /** Addition of unsigned longs. */
  function Wrap(x: nat): (r: nat)
    ensures r < WORD
    ensures x < WORD ==> r == x
  {
    x % WORD
  }

  /** Alignments are powers of two. */
  predicate Alignment(align: nat) { 0 < align < WORD && WORD % align == 0 }

  /** ALIGN of an unsigned long. */
  function RoundUp(x: nat, align: nat): (r: nat)
    requires align > 0
    ensures r % align == 0
  {
    AlignDown(Wrap(Wrap(x) + align - 1), align)
  }

  lemma AlignDownShift(x: nat, w: nat, align: nat)
    requires align > 0 && w % align == 0 && w <= x
    ensures AlignDown(x, align) >= w && AlignDown(x - w, align) == AlignDown(x, align) - w
  {
    AlignDownGreatest(x, align, w);
    SumOfMultiples(AlignDown(x, align), w, align);
    SumOfMultiples(AlignDown(x - w, align), w, align);
    AlignDownGreatest(x - w, align, AlignDown(x, align) - w);
    AlignDownGreatest(x, align, AlignDown(x - w, align) + w);
  }

  /** What rounding comes to: the sum as it should be, or 2^32 less. */
  lemma RoundUpIs(x: nat, align: nat)
    requires Alignment(align) && x < WORD + PAGE_SIZE
    ensures AlignUp(x, align) < 2 * WORD
    ensures RoundUp(x, align) == if AlignUp(x, align) < WORD then AlignUp(x, align) else AlignUp(x, align) - WORD
  {
    hide AlignDown;
    AlignFits(align);
    RoundUpSum(x, align);
    var y := x + align - 1;
    if y >= WORD {
      AlignDownShift(y, WORD, align);
    }
  }

  /** The two sums wrap like one. */
  lemma RoundUpSum(x: nat, align: nat)
    requires align > 0 && 2 * align <= WORD && x < WORD + PAGE_SIZE
    ensures var y := x + align - 1;
      y < 2 * WORD && RoundUp(x, align) == AlignDown(if y < WORD then y else y - WORD, align)
  {
    hide AlignDown;
  }

  lemma AlignFits(align: nat)
    requires Alignment(align)
    ensures 2 * align <= WORD
  {
    MultiplesApart(align, WORD, align);
  }

  /** The overflow guard `addr + size - 1 < addr` lets exactly the sums up to 2^32 pass; that
      sum itself reads as 0. */
  lemma OverflowGuard(addr: nat, size: nat)
    requires addr < WORD && 0 < size < WORD
    ensures Wrap(addr + size - 1) < addr <==> addr + size > WORD
    ensures addr + size <= WORD ==> Wrap(addr + size) == if addr + size == WORD then 0 else addr + size
  {
  }

  // ---------- what is in the way ----------

  /** `size` bytes from the first address to be tried up to the end of the window. */
  datatype Request = Request(size: nat, align: nat, first: nat, vend: nat)

  predicate Proper(r: Request) {
    0 < r.size < WORD && Alignment(r.align) && r.first < WORD && r.first % r.align == 0 && r.vend < WORD
  }

  /** Area `a` is in the way of a range at `x`: it ends at or above the first address tried,
      starts below the end, and does not leave a page free before `x`. */
  ghost predicate Blocks(a: VmapArea, x: int, r: Request) {
    a.va_end >= r.first && a.va_start < x + r.size && x < a.va_end + PAGE_SIZE
  }

  /** One of the areas from position `c` up to `n` is. */
  ghost predicate BlockedFrom(v: seq<VmapArea>, c: nat, n: nat, x: int, r: Request) {
    exists i :: c <= i < n && i < |v| && Blocks(v[i], x, r)
  }

  ghost predicate Blocked(v: seq<VmapArea>, x: int, r: Request) { BlockedFrom(v, 0, |v|, x, r) }

  /** Aligned, and not below the first address. */
  predicate Place(y: int, r: Request)
    requires r.align > 0
  {
    r.first <= y && y % r.align == 0
  }

  /** Every place below `x` is blocked. */
  ghost predicate BlockedBelow(v: seq<VmapArea>, x: nat, r: Request)
    requires r.align > 0
  {
    forall y :: Place(y, r) && y < x ==> Blocked(v, y, r)
  }

  /** Every place in the window is blocked. */
  ghost predicate NoRoom(v: seq<VmapArea>, r: Request)
    requires r.align > 0
  {
    forall y :: Place(y, r) && y + r.size <= r.vend ==> Blocked(v, y, r)
  }

  lemma BeyondEnd(v: seq<VmapArea>, x: nat, r: Request)
    requires r.align > 0 && BlockedBelow(v, x, r) && x + r.size > r.vend
    ensures NoRoom(v, r)
  {
  }

  /** What is not blocked overlaps nothing. */
  lemma UnblockedApart(v: seq<VmapArea>, a: VmapArea, r: Request)
    requires r.first <= a.va_start < a.va_end == a.va_start + r.size && !Blocked(v, a.va_start, r)
    ensures ApartFrom(v, a)
  {
    forall i | 0 <= i < |v|
      ensures v[i].va_end <= a.va_start || a.va_end <= v[i].va_start
    {
      assert !Blocks(v[i], a.va_start, r);
    }
  }

  // ---------- the scan ----------

  /** Where a step over an area leads, before it wraps. */
  function Past(a: VmapArea, align: nat): nat
    requires align > 0
  {
    AlignUp(a.va_end + PAGE_SIZE, align)
  }

  /** The areas from position `c` up to `n` block every place below `y`, and `y` is a place
      that they do not. */
  ghost predicate Stands(v: seq<VmapArea>, c: nat, n: nat, y: nat, r: Request)
    requires r.align > 0
  {
    Place(y, r) && !BlockedFrom(v, c, n, y, r) && forall z :: Place(z, r) && z < y ==> BlockedFrom(v, c, n, z, r)
  }

  /** The scan that starts at position `c` stands at `y` when it meets area `i`, which is in
      the way of a range in the window, and steps over it. */
  ghost predicate Steps(v: seq<VmapArea>, c: nat, i: nat, y: nat, r: Request)
    requires r.align > 0
  {
    c <= i < |v| && Stands(v, c, i, y, r) && v[i].va_start < y + r.size <= r.vend
  }

  /** The scan comes to the place whose end is exactly 2^32: it is the first place tried, or
      the one past an area that the scan steps over. */
  ghost predicate EndsAtTop(v: seq<VmapArea>, c: nat, r: Request)
    requires r.align > 0
  {
    r.first + r.size == WORD || exists i: nat, y: nat :: Steps(v, c, i, y, r) && Past(v[i], r.align) + r.size == WORD
  }

  /** Having stepped over area `s`, so close to the top that the step wraps, the scan goes on
      from the bottom and is content past area `j`, at `x`. */
  ghost predicate WrapsTo(v: seq<VmapArea>, c: nat, s: nat, y: nat, j: nat, x: nat, r: Request)
    requires r.align > 0
  {
    && Steps(v, c, s, y, r) && Past(v[s], r.align) >= WORD
    && s <= j < |v| && Low(v, s, j, r) && x == Past(v[j], r.align) - WORD
    && (x + r.size == WORD || (x + r.size <= r.vend && (j + 1 < |v| ==> x + r.size <= v[j + 1].va_start)))
  }

  /** From area `s` up to `j` each step leads to the bottom, and the next area is in the way. */
  ghost predicate Low(v: seq<VmapArea>, s: nat, j: nat, r: Request)
    requires r.align > 0
  {
    forall m :: s <= m <= j && m < |v| ==>
      Past(v[m], r.align) >= WORD
      && (m < j && m + 1 < |v| ==> v[m + 1].va_start < Past(v[m], r.align) - WORD + r.size <= r.vend)
  }

  ghost predicate EndsLow(v: seq<VmapArea>, c: nat, x: nat, r: Request)
    requires r.align > 0
  {
    exists s: nat, y: nat, j: nat :: WrapsTo(v, c, s, y, j, x, r)
  }

  /** Where the scan is before it looks at area `k`: it began at `c` and has not wrapped. */
  ghost predicate Scanning(v: seq<VmapArea>, c: nat, k: nat, x: nat, r: Request)
    requires r.align > 0
  {
    && c <= k <= |v| && x < WORD && Stands(v, c, k, x, r) && BlockedBelow(v, x, r)
    && (if k == c then x == r.first else x == Past(v[k - 1], r.align) && Stepped(v, c, k - 1, r))
    && (Passed(v, k, x, r) || (k == c && x == r.first && k < |v| && v[k].va_start < x + r.size))
  }

  ghost predicate Stepped(v: seq<VmapArea>, c: nat, k: nat, r: Request)
    requires r.align > 0
  {
    exists y: nat :: Steps(v, c, k, y, r)
  }

  /** The first `k` areas are out of the way of `x`. */
  ghost predicate Passed(v: seq<VmapArea>, k: nat, x: nat, r: Request) {
    k <= |v| && forall i :: 0 <= i < k ==> v[i].va_end < r.first || v[i].va_end + PAGE_SIZE <= x
  }

  lemma ScanStart(v: seq<VmapArea>, c: nat, r: Request)
    requires Proper(r) && c <= |v|
    requires Passed(v, c, r.first, r) || (c < |v| && v[c].va_start < r.first + r.size)
    ensures Scanning(v, c, c, r.first, r)
  {
  }

  /** The step over an area in the way. */
  lemma ScanStep(v: seq<VmapArea>, c: nat, k: nat, x: nat, r: Request)
    requires Proper(r) && Sorted(v) && Scanning(v, c, k, x, r) && k < |v| && v[k].va_end >= r.first
    requires v[k].va_start < x + r.size <= r.vend
    ensures Steps(v, c, k, x, r)
    ensures Past(v[k], r.align) < WORD ==> Scanning(v, c, k + 1, Past(v[k], r.align), r)
    ensures Past(v[k], r.align) >= WORD ==> NoRoom(v, r)
  {
    hide Stands, BlockedFrom, BlockedBelow;
    assert Steps(v, c, k, x, r);
    var x' := Past(v[k], r.align);
    if k > c {
      AlignUpMonotone(v[k - 1].va_end + PAGE_SIZE, v[k].va_end + PAGE_SIZE, r.align);
    }
    StandsPast(v, c, k, x, x', r);
    if x' >= WORD {
      BeyondEnd(v, x', r);
    }
  }

  lemma StandsPast(v: seq<VmapArea>, c: nat, k: nat, x: nat, x': nat, r: Request)
    requires Proper(r) && Sorted(v) && c <= k < |v| && Stands(v, c, k, x, r) && BlockedBelow(v, x, r)
    requires v[k].va_end >= r.first && v[k].va_start < x + r.size && x' == Past(v[k], r.align) >= x
    ensures Stands(v, c, k + 1, x', r) && BlockedBelow(v, x', r) && Passed(v, k + 1, x', r)
  {
    forall y: nat | Place(y, r) && y < x'
      ensures BlockedFrom(v, c, k + 1, y, r) && Blocked(v, y, r)
    {
      if y < x {
        assert BlockedFrom(v, c, k, y, r);
      } else {
        BlocksUpTo(v[k], x, y, r);
      }
    }
  }

  lemma BlocksUpTo(a: VmapArea, x: nat, y: nat, r: Request)
    requires Proper(r) && a.va_end >= r.first && a.va_start < x + r.size && Place(y, r) && x <= y < Past(a, r.align)
    ensures Blocks(a, y, r)
  {
    if a.va_end + PAGE_SIZE <= y {
      AlignUpLeast(a.va_end + PAGE_SIZE, r.align, y);
    }
  }

  lemma AlignUpMonotone(x: nat, y: nat, align: nat)
    requires align > 0 && x <= y
    ensures AlignUp(x, align) <= AlignUp(y, align)
  {
    AlignUpLeast(x, align, AlignUp(y, align));
  }

  /** A place where the scan stood before area `k` lies past every area it stepped over. */
  lemma StoodPast(v: seq<VmapArea>, c: nat, i: nat, k: nat, y: nat, r: Request)
    requires Proper(r) && Sorted(v) && c <= i < k < |v| && v[i].va_end >= r.first && Steps(v, c, k, y, r)
    ensures Past(v[i], r.align) <= y
  {
    assert !Blocks(v[i], y, r);
    AlignUpLeast(v[i].va_end + PAGE_SIZE, r.align, y);
  }

  /** The scan stands at a place whose range leaves the window or meets no further area. */
  ghost predicate Over(v: seq<VmapArea>, k: nat, x: nat, r: Request) {
    x + r.size > r.vend || k >= |v| || x + r.size <= v[k].va_start
  }

  lemma NoFurther(v: seq<VmapArea>, c: nat, k: nat, x: nat, r: Request, i: nat, y: nat)
    requires Proper(r) && Sorted(v) && Scanning(v, c, k, x, r) && Over(v, k, x, r) && i >= k
    ensures !Steps(v, c, i, y, r)
  {
    assert !BlockedFrom(v, c, k, x, r);
    assert y < x && Place(y, r) ==> BlockedFrom(v, c, k, y, r);
    assert Over(v, k, x, r) && i < |v| ==> !BlockedFrom(v, c, i, x, r) || x + r.size > r.vend;
  }

  /** Nothing before `k` is in the way, and area `k` starts far enough up. */
  lemma NothingBlocks(v: seq<VmapArea>, k: nat, x: nat, r: Request)
    requires Sorted(v) && Passed(v, k, x, r) && (k < |v| ==> x + r.size <= v[k].va_start)
    ensures !Blocked(v, x, r)
  {
  }

  /** A first place that does not fit below 2^32 leaves nothing to scan. */
  lemma NoScan(v: seq<VmapArea>, c: nat, r: Request)
    requires Proper(r) && r.first + r.size > WORD
    ensures ScanOutcome(v, c, r, Nowhere)
  {
  }

  /** How a scan that has not wrapped ends. */
  lemma ScanEnds(v: seq<VmapArea>, c: nat, k: nat, x: nat, r: Request)
    requires Proper(r) && Sorted(v) && Scanning(v, c, k, x, r) && Over(v, k, x, r)
    requires forall i :: c <= i < |v| ==> v[i].va_end >= r.first
    ensures EndsAtTop(v, c, r) <==> x + r.size == WORD
    ensures forall x': nat :: !EndsLow(v, c, x', r)
  {
    hide BlockedFrom, BlockedBelow, Passed, Past;
    forall i: nat, y: nat | Steps(v, c, i, y, r)
      ensures i < k && Past(v[i], r.align) < WORD && (Past(v[i], r.align) + r.size == WORD ==> i == k - 1)
    {
      if i >= k {
        NoFurther(v, c, k, x, r, i, y);
      } else if i < k - 1 {
        var y': nat :| Steps(v, c, k - 1, y', r);
        StoodPast(v, c, i, k - 1, y', r);
      }
    }
    if k > c {
      var y: nat :| Steps(v, c, k - 1, y, r);
    }
  }

  /** How a scan that has wrapped ends: no place is free, and yet it may be content. */
  lemma WrappedEnds(v: seq<VmapArea>, c: nat, s: nat, y: nat, j: nat, x: nat, r: Request)
    requires Proper(r) && Sorted(v) && Steps(v, c, s, y, r) && Past(v[s], r.align) >= WORD && s <= j < |v| && Low(v, s, j, r)
    requires x == Past(v[j], r.align) - WORD && (x + r.size == WORD || Over(v, j + 1, x, r))
    requires forall i :: c <= i < |v| ==> v[i].va_end >= r.first
    ensures !EndsAtTop(v, c, r)
    ensures forall x': nat :: EndsLow(v, c, x', r) <==> x' == x && (x + r.size <= r.vend || x + r.size == WORD)
  {
    hide BlockedFrom, Low, Past;
    assert y + r.size <= r.vend && r.first <= y by { assert Steps(v, c, s, y, r); }
    forall i: nat, z: nat | i < |v| && Steps(v, c, i, z, r)
      ensures Past(v[i], r.align) + r.size != WORD
    {
      OneWrap(v, c, s, y, r, i, z);
    }
    if x + r.size <= r.vend || x + r.size == WORD {
      assert WrapsTo(v, c, s, y, j, x, r);
    }
    forall x': nat | EndsLow(v, c, x', r)
      ensures x' == x && (x + r.size <= r.vend || x + r.size == WORD)
    {
      var s': nat, y': nat, j': nat :| WrapsTo(v, c, s', y', j', x', r);
      OneWrap(v, c, s, y, r, s', y');
      OneEnd(v, s, j, x, j', x', r);
    }
  }

  /** The scan steps over no area past the first at which it wraps. */
  lemma OneWrap(v: seq<VmapArea>, c: nat, s: nat, y: nat, r: Request, i: nat, z: nat)
    requires Proper(r) && Sorted(v) && Steps(v, c, s, y, r) && Past(v[s], r.align) >= WORD && Steps(v, c, i, z, r)
    requires forall i :: c <= i < |v| ==> v[i].va_end >= r.first
    ensures i <= s < |v| && (i < s ==> Past(v[i], r.align) + r.size < WORD)
  {
    if i < s {
      StoodPast(v, c, i, s, y, r);
    } else if i > s {
      StoodPast(v, c, s, i, z, r);
    }
  }

  lemma OneEnd(v: seq<VmapArea>, s: nat, j: nat, x: nat, j': nat, x': nat, r: Request)
    requires r.align > 0 && s <= j < |v| && s <= j' < |v| && Low(v, s, j, r) && Low(v, s, j', r) && 0 < r.size && r.vend < WORD
    requires x == Past(v[j], r.align) - WORD && (x + r.size == WORD || Over(v, j + 1, x, r))
    requires x' == Past(v[j'], r.align) - WORD
    requires x' + r.size == WORD || (x' + r.size <= r.vend && (j' + 1 < |v| ==> x' + r.size <= v[j' + 1].va_start))
    ensures j' == j
    ensures x' == x && (x + r.size <= r.vend || x + r.size == WORD)
  {
    hide Past;
    if j' < j {
      LowAt(v, s, j, j', r);
    } else if j < j' {
      LowAt(v, s, j', j, r);
    }
  }

  lemma LowAt(v: seq<VmapArea>, s: nat, j: nat, m: nat, r: Request)
    requires r.align > 0 && Low(v, s, j, r) && s <= m <= j < |v|
    ensures Past(v[m], r.align) >= WORD
    ensures m < j ==> v[m + 1].va_start < Past(v[m], r.align) - WORD + r.size <= r.vend
  {
    hide Past;
  }

  // ---------- what the search comes to ----------

  /** The range found: inside the window; ending at 2^32; or at the bottom after a wrap. */
  datatype ScanResult = Fits(addr: nat) | AtTop(addr: nat) | AtBottom(addr: nat) | Nowhere

  /** A place that fits is the least one that is not blocked, and is found exactly if there is
      one.  Otherwise the scan may still come to the very top, or wrap and be content. */
  ghost predicate ScanOutcome(v: seq<VmapArea>, c: nat, r: Request, res: ScanResult)
    requires r.align > 0
  {
    && (res.Fits? <==> !NoRoom(v, r))
    && (res.Fits? ==> Place(res.addr, r) && res.addr + r.size <= r.vend && !Blocked(v, res.addr, r) && BlockedBelow(v, res.addr, r))
    && (res.AtTop? <==> EndsAtTop(v, c, r)) && (res.AtTop? ==> res.addr + r.size == WORD)
    && (forall x: nat :: res == AtBottom(x) <==> EndsLow(v, c, x, r))
  }

  /** Where the scan is before it looks at area `k`, having wrapped at area `s`. */
  ghost predicate Wrapping(v: seq<VmapArea>, c: nat, s: nat, y: nat, k: nat, x: nat, r: Request)
    requires r.align > 0
  {
    && Steps(v, c, s, y, r) && Past(v[s], r.align) >= WORD && s < k <= |v| && Low(v, s, k - 1, r)
    && x == Past(v[k - 1], r.align) - WORD && NoRoom(v, r)
  }

  ghost predicate EndsFrom(v: seq<VmapArea>, c: nat, x: nat) { forall i :: c <= i < |v| ==> v[i].va_end >= x }

  /** The first `k` areas end below `x`, the others do not. */
  ghost predicate Splits(v: seq<VmapArea>, k: nat, x: nat) {
    k <= |v| && EndsFrom(v, k, x) && forall i :: 0 <= i < k ==> v[i].va_end < x
  }

  /** The walk down looks at the areas from `lo` up to `hi`, area `k` being its candidate if it
      has one. */
  ghost predicate Narrowing(v: seq<VmapArea>, lo: nat, hi: nat, some: bool, k: nat, addr: nat, end: nat) {
    && lo <= hi <= |v| && (hi < |v| ==> v[hi].va_end >= addr)
    && if lo > 0 then some && k == lo - 1 && v[k].va_end < addr
       else if some then hi <= k < |v| && v[k].va_start < end && v[k].va_end >= addr
       else hi == |v| || v[hi].va_start >= end
  }

  lemma NarrowBegin(v: seq<VmapArea>, addr: nat, end: nat)
    ensures Narrowing(v, 0, |v|, false, 0, addr, end)
  {
  }

  lemma NarrowStep(v: seq<VmapArea>, lo: nat, mid: nat, hi: nat, some: bool, k: nat, addr: nat, end: nat)
    requires Sorted(v) && Narrowing(v, lo, hi, some, k, addr, end) && lo <= mid < hi
    ensures v[mid].va_end < addr ==> Narrowing(v, mid + 1, hi, true, mid, addr, end)
    ensures v[mid].va_end >= addr ==> if !some && v[mid].va_start < end then Narrowing(v, lo, mid, true, mid, addr, end)
      else Narrowing(v, lo, mid, some, k, addr, end)
  {
  }

  lemma NarrowEnd(v: seq<VmapArea>, lo: nat, some: bool, k: nat, addr: nat, end: nat)
    requires Sorted(v) && Narrowing(v, lo, lo, some, k, addr, end)
    ensures !some ==> Splits(v, lo, addr) && (lo < |v| ==> v[lo].va_start >= end)
    ensures some ==> k < |v| && (v[k].va_end < addr ==> Splits(v, k + 1, addr))
    ensures some ==> (v[k].va_end >= addr ==> v[k].va_start < end && EndsFrom(v, k, addr))
  {
  }

  ghost predicate ScanState(v: seq<VmapArea>, c: nat, s: nat, y: nat, k: nat, x: nat, wrapped: bool, r: Request) {
    && Proper(r) && Sorted(v) && EndsFrom(v, c, r.first) && c <= k <= |v| && x < WORD && x % r.align == 0
    && if wrapped then Wrapping(v, c, s, y, k, x, r) else Scanning(v, c, k, x, r)
  }

  lemma ScanBegins(v: seq<VmapArea>, c: nat, r: Request)
    requires Proper(r) && Sorted(v)
    requires Splits(v, c, r.first) || (c < |v| && EndsFrom(v, c, r.first) && v[c].va_start < r.first + r.size)
    ensures ScanState(v, c, 0, 0, c, r.first, false, r)
  {
    ScanStart(v, c, r);
  }

  lemma ScanMoves(v: seq<VmapArea>, c: nat, s: nat, y: nat, k: nat, x: nat, wrapped: bool, r: Request)
    requires ScanState(v, c, s, y, k, x, wrapped, r) && k < |v| && v[k].va_start < x + r.size <= r.vend
    ensures var x' := RoundUp(v[k].va_end + PAGE_SIZE, r.align);
      ScanState(v, c, if wrapped then s else k, if wrapped then y else x, k + 1, x', wrapped || x' < v[k].va_end, r)
  {
    hide Scanning, Wrapping, RoundUp;
    StepTo(v[k], r.align);
    if wrapped {
      WrappedMoves(v, c, s, y, k, x, r);
    } else {
      hide Past;
      ScanStep(v, c, k, x, r);
      if Past(v[k], r.align) >= WORD {
        JustWrapped(v, c, k, x, r);
      }
    }
  }

  /** Where the code gets to. */
  lemma StepTo(a: VmapArea, align: nat)
    requires Alignment(align) && a.va_end < WORD
    ensures var x := RoundUp(a.va_end + PAGE_SIZE, align);
      && x < WORD && x % align == 0
      && (if x < a.va_end then Past(a, align) >= WORD && x == Past(a, align) - WORD else x == Past(a, align))
  {
    RoundUpIs(a.va_end + PAGE_SIZE, align);
    AlignFits(align);
    SumOfMultiples(Past(a, align), WORD, align);
  }

  lemma WrappedMoves(v: seq<VmapArea>, c: nat, s: nat, y: nat, k: nat, x: nat, r: Request)
    requires Sorted(v) && r.align > 0 && Wrapping(v, c, s, y, k, x, r) && k < |v| && v[k].va_start < x + r.size <= r.vend
    ensures Past(v[k], r.align) >= WORD && Wrapping(v, c, s, y, k + 1, Past(v[k], r.align) - WORD, r)
  {
    hide Steps, NoRoom, Sorted, Past;
    PastMonotone(v, k - 1, k, r.align);
    LowMore(v, s, k, x, r);
  }

  lemma PastMonotone(v: seq<VmapArea>, i: nat, j: nat, align: nat)
    requires Sorted(v) && i <= j < |v| && align > 0
    ensures Past(v[i], align) <= Past(v[j], align)
  {
    AlignUpMonotone(v[i].va_end + PAGE_SIZE, v[j].va_end + PAGE_SIZE, align);
  }

  lemma LowMore(v: seq<VmapArea>, s: nat, k: nat, x: nat, r: Request)
    requires r.align > 0 && s < k < |v| && Low(v, s, k - 1, r) && Past(v[k], r.align) >= WORD
    requires x == Past(v[k - 1], r.align) - WORD && v[k].va_start < x + r.size <= r.vend
    ensures Low(v, s, k, r)
  {
    hide Past;
    forall m | s <= m <= k && m < |v|
      ensures Past(v[m], r.align) >= WORD
    {
      if m <= k - 1 {
        LowAt(v, s, k - 1, m, r);
      }
    }
    forall m | s <= m < k && m + 1 < |v|
      ensures v[m + 1].va_start < Past(v[m], r.align) - WORD + r.size <= r.vend
    {
      if m < k - 1 {
        LowAt(v, s, k - 1, m, r);
      } else {
        assert m + 1 == k;
      }
    }
  }

  lemma JustWrapped(v: seq<VmapArea>, c: nat, k: nat, x: nat, r: Request)
    requires r.align > 0 && Steps(v, c, k, x, r) && Past(v[k], r.align) >= WORD && NoRoom(v, r)
    ensures Wrapping(v, c, k, x, k + 1, Past(v[k], r.align) - WORD, r)
  {
    hide Past, NoRoom, Stands;
  }

  lemma ScanFails(v: seq<VmapArea>, c: nat, s: nat, y: nat, k: nat, x: nat, wrapped: bool, r: Request)
    requires ScanState(v, c, s, y, k, x, wrapped, r) && x + r.size > r.vend && x + r.size != WORD
    ensures ScanOutcome(v, c, r, Nowhere)
  {
    hide Steps, Stands, BlockedBelow, Passed, BlockedFrom, NoRoom, Low, Past, EndsAtTop, EndsLow;
    if wrapped {
      WrappedEnds(v, c, s, y, k - 1, x, r);
    } else {
      ScanEnds(v, c, k, x, r);
      BeyondEnd(v, x, r);
    }
  }

  lemma ScanEnded(v: seq<VmapArea>, c: nat, s: nat, y: nat, k: nat, x: nat, wrapped: bool, r: Request)
    requires ScanState(v, c, s, y, k, x, wrapped, r) && (x + r.size == WORD || x + r.size <= r.vend)
    requires k < |v| ==> x + r.size == WORD || x + r.size <= v[k].va_start
    ensures ScanOutcome(v, c, r, if wrapped then AtBottom(x) else if x + r.size == WORD then AtTop(x) else Fits(x))
  {
    hide Steps, BlockedFrom, Low, Past, EndsAtTop, EndsLow;
    if wrapped {
      WrappedEnds(v, c, s, y, k - 1, x, r);
    } else {
      ScanEnds(v, c, k, x, r);
      if x + r.size == WORD {
        BeyondEnd(v, x, r);
      } else {
        NothingBlocks(v, k, x, r);
      }
    }
  }

  lemma ProperRequest(size: nat, align: nat, vstart: nat, vend: nat)
    requires 0 < size < WORD && Alignment(align) && vend < WORD
    ensures Proper(Request(size, align, RoundUp(vstart, align), vend))
  {
  }

  lemma RoundUpBelow(x: nat, align: nat)
    requires Alignment(align)
    ensures RoundUp(x, align) < WORD
  {
  }
}
