/** mm/bootmem.c: a bitmap of pages from which byte ranges are allocated while booting. */
module Bootmem {
  import opened Align
  import opened Basics

  function PfnUp(x: nat): (p: nat)
    ensures x <= p * PAGE_SIZE < x + PAGE_SIZE
  {
    (x + PAGE_SIZE - 1) / PAGE_SIZE
  }

  function PfnDown(x: nat): (p: nat)
    ensures p * PAGE_SIZE <= x < p * PAGE_SIZE + PAGE_SIZE
  {
    x / PAGE_SIZE
  }

  /** Bytes [off, off + size), counted from the start of the node. */
  ghost predicate Within(live: map<nat, nat>, off: nat, x: int) { off in live && off <= x < off + live[off] }

  ghost predicate LiveByte(live: map<nat, nat>, x: int) { exists off :: Within(live, off, x) }

  ghost predicate Disjoint(live: map<nat, nat>) {
    forall a, b, x: int :: Within(live, a, x) && Within(live, b, x) ==> a == b
  }

  /** Every page with a live byte is marked, and from where the last allocation ended to the
      end of that page, if it ended inside one, there is no live byte. */
  ghost predicate Marked(bits: seq<bool>, live: map<nat, nat>, last: nat) {
    && (forall x: nat :: LiveByte(live, x) ==> Set(bits, PfnDown(x)))
    && (last % PAGE_SIZE != 0 ==>
        Set(bits, PfnDown(last)) && forall x: nat :: last <= x < (PfnDown(last) + 1) * PAGE_SIZE ==> !LiveByte(live, x))
  }

  ghost predicate Set(bits: seq<bool>, i: int) { 0 <= i < |bits| && bits[i] }

  ghost predicate AllClear(bits: seq<bool>, lo: int, hi: int) {
    0 <= lo && hi <= |bits| && forall i :: lo <= i < hi ==> !bits[i]
  }

  /** Alignments are powers of two: below the page size they divide it, above they are
      multiples of it. */
  predicate Alignment(align: nat) { align > 0 && (PAGE_SIZE % align == 0 || align % PAGE_SIZE == 0) }

  /** The alignment in pages. */
  function Step(align: nat): (s: nat)
    ensures s > 0 && (align < PAGE_SIZE ==> s == 1)
    ensures align >= PAGE_SIZE && align % PAGE_SIZE == 0 ==> s * PAGE_SIZE == align
  {
    if align / PAGE_SIZE > 1 then align / PAGE_SIZE else 1
  }

  /** align_idx: mm/bootmem.c:41-51 */
  function AlignIdx(base: nat, idx: nat, step: nat): (r: nat)
    requires step > 0
    ensures idx <= r < idx + step && (base + r) % step == 0
  {
    AlignUp(base + idx, step) - base
  }

  lemma AlignIdxLeast(base: nat, idx: nat, step: nat, y: nat)
    requires step > 0 && idx <= y && (base + y) % step == 0
    ensures AlignIdx(base, idx, step) <= y
  {
    AlignUpLeast(base + idx, step, base + y);
  }

  /** A page run that could serve the request, its first page aligned with the node. */
  ghost predicate FreeRun(bits: seq<bool>, base: nat, step: nat, n: nat, end: nat, i: nat)
    requires step > 0
  {
    (base + i) % step == 0 && i + n <= end && end <= |bits| && AllClear(bits, i, i + n)
  }

  ghost predicate NoRun(bits: seq<bool>, base: nat, step: nat, n: nat, end: nat, lo: nat, hi: nat)
    requires step > 0
  {
    forall i: nat :: lo <= i < hi ==> !FreeRun(bits, base, step, n, end, i)
  }

  /** Run `i` is the first from the hint on, when that points beyond page `first` and there
      is one; otherwise it is the first from page `first` on. */
  ghost predicate FirstRun(bits: seq<bool>, base: nat, step: nat, n: nat, end: nat, first: nat, hint: nat, i: nat)
    requires step > 0
  {
    if hint > first && exists j: nat :: j >= hint && FreeRun(bits, base, step, n, end, j)
    then i >= hint && NoRun(bits, base, step, n, end, hint, i)
    else i >= first && NoRun(bits, base, step, n, end, first, i)
  }

  /** find_next_zero_bit: the first clear bit at or after `from`, or `size` or more. */
  method FindNextZero(bits: array<bool>, size: nat, from: nat) returns (i: nat)
    requires size <= bits.Length
    ensures i >= from && (i < size ==> !bits[i]) && forall k :: from <= k < i && k < size ==> bits[k]
  {
    i := from;
    while i < size && bits[i]
      invariant i >= from && forall k :: from <= k < i && k < size ==> bits[k]
      decreases size - i
    {
      i := i + 1;
    }
  }

  /** The first marked page of [lo, hi), or hi. */
  method FirstMarked(bits: array<bool>, lo: nat, hi: nat) returns (i: nat)
    requires lo <= hi <= bits.Length
    ensures lo <= i <= hi && (forall k :: lo <= k < i ==> !bits[k]) && (i < hi ==> bits[i])
  {
    i := lo;
    while i < hi && !bits[i]
      invariant lo <= i <= hi && forall k :: lo <= k < i ==> !bits[k]
    {
      i := i + 1;
    }
  }

  /** The search of alloc_bootmem_core from page `from`: mm/bootmem.c:261-279.  The first
      aligned run of `n` clear pages below `end`, or `end` when there is none. */
  method FindRun(bits: array<bool>, base: nat, step: nat, n: nat, end: nat, from: nat) returns (found: bool, sidx: nat)
    requires step > 0 && n > 0 && end <= bits.Length
    ensures found ==> from <= sidx && FreeRun(bits[..], base, step, n, end, sidx)
    ensures !found ==> forall i: nat :: i >= from ==> !FreeRun(bits[..], base, step, n, end, i)
    ensures found ==> NoRun(bits[..], base, step, n, end, from, sidx)
  {
    hide FreeRun;
    sidx := from;
    while true
      invariant sidx >= from && NoRun(bits[..], base, step, n, end, from, sidx)
      decreases end - sidx
    {
      var z := FindNextZero(bits, end, sidx);
      SkipMarked(bits[..], base, step, n, end, sidx, z);
      var a := AlignIdx(base, z, step);
      SkipUnaligned(bits[..], base, step, n, end, z, a);
      NoRunJoin(bits[..], base, step, n, end, from, sidx, z, a);
      sidx := a;
      var eidx := sidx + n;
      if sidx >= end || eidx > end {
        NoneBeyond(bits[..], base, step, n, end, from, sidx);
        return false, sidx;
      }
      var i := FirstMarked(bits, sidx, eidx);
      if i == eidx {
        ARun(bits[..], base, step, n, end, sidx);
        return true, sidx;
      }
      var next := AlignIdx(base, i, step);
      SkipPast(bits[..], base, step, n, end, sidx, i);
      if next == i {
        next := next + step;
      }
      NoRunJoin(bits[..], base, step, n, end, from, sidx, sidx, next);
      sidx := next;
    }
  }

  lemma SkipMarked(bits: seq<bool>, base: nat, step: nat, n: nat, end: nat, lo: nat, hi: nat)
    requires step > 0 && n > 0 && end <= |bits| && forall k :: lo <= k < hi && k < end ==> bits[k]
    ensures NoRun(bits, base, step, n, end, lo, hi)
  {
    forall i: nat | lo <= i < hi
      ensures !FreeRun(bits, base, step, n, end, i)
    {
      assert i < end ==> bits[i];
    }
  }

  lemma SkipUnaligned(bits: seq<bool>, base: nat, step: nat, n: nat, end: nat, lo: nat, hi: nat)
    requires step > 0 && hi == AlignIdx(base, lo, step)
    ensures NoRun(bits, base, step, n, end, lo, hi)
  {
    forall i: nat | lo <= i < hi
      ensures !FreeRun(bits, base, step, n, end, i)
    {
      if (base + i) % step == 0 {
        AlignIdxLeast(base, lo, step, i);
      }
    }
  }

  /** A run that starts in [sidx, i] would hold page `i`. */
  lemma SkipPast(bits: seq<bool>, base: nat, step: nat, n: nat, end: nat, sidx: nat, i: nat)
    requires step > 0 && sidx <= i < sidx + n && i < |bits| && bits[i]
    ensures var a := AlignIdx(base, i, step);
      NoRun(bits, base, step, n, end, sidx, if a == i then a + step else a)
  {
    var a := AlignIdx(base, i, step);
    forall k: nat | sidx <= k < if a == i then a + step else a
      ensures !FreeRun(bits, base, step, n, end, k)
    {
      if k <= i {
        assert bits[i];
      } else if (base + k) % step == 0 {
        if a == i {
          MultiplesApart(base + i, base + k, step);
        } else {
          AlignIdxLeast(base, i, step, k);
        }
      }
    }
  }

  /** Before the first aligned page nothing fits either. */
  lemma NoneFrom(bits: seq<bool>, base: nat, step: nat, n: nat, end: nat, lo: nat, first: nat)
    requires step > 0 && first == AlignIdx(base, lo, step) && forall i: nat :: i >= first ==> !FreeRun(bits, base, step, n, end, i)
    ensures forall i: nat :: i >= lo ==> !FreeRun(bits, base, step, n, end, i)
  {
    SkipUnaligned(bits, base, step, n, end, lo, first);
  }

  lemma NoRunJoin(bits: seq<bool>, base: nat, step: nat, n: nat, end: nat, a: nat, b: nat, c: nat, d: nat)
    requires step > 0 && NoRun(bits, base, step, n, end, a, b) && NoRun(bits, base, step, n, end, b, c) && NoRun(bits, base, step, n, end, c, d)
    ensures NoRun(bits, base, step, n, end, a, d)
  {
  }

  lemma NoneBeyond(bits: seq<bool>, base: nat, step: nat, n: nat, end: nat, from: nat, sidx: nat)
    requires step > 0 && n > 0 && NoRun(bits, base, step, n, end, from, sidx) && (sidx >= end || sidx + n > end)
    ensures forall i: nat :: i >= from ==> !FreeRun(bits, base, step, n, end, i)
  {
  }

  lemma ARun(bits: seq<bool>, base: nat, step: nat, n: nat, end: nat, sidx: nat)
    requires step > 0 && (base + sidx) % step == 0 && sidx + n <= end <= |bits| && forall k :: sidx <= k < sidx + n ==> !bits[k]
    ensures FreeRun(bits, base, step, n, end, sidx)
  {
  }

  class BootmemData {
    const min_pfn: nat
    const low_pfn: nat
    /** node_bootmem_map: true for a page in use. */
    const bits: array<bool>
    var last_end_off: nat
    var hint_idx: nat
    /** The ranges returned and not yet freed: size by offset. */
    ghost var live: map<nat, nat>

    ghost predicate Valid()
      reads this, bits
    {
      && min_pfn <= low_pfn && bits.Length == low_pfn - min_pfn
      && (forall off :: off in live ==> live[off] > 0)
      && Disjoint(live) && Marked(bits[..], live, last_end_off)
    }

    /** The node as init_bootmem_core leaves it, every page in use. */
    constructor (min_pfn: nat, low_pfn: nat)
      requires min_pfn <= low_pfn
      ensures Valid() && live == map[] && this.min_pfn == min_pfn && this.low_pfn == low_pfn && fresh(bits)
      ensures forall i :: 0 <= i < bits.Length ==> bits[i]
    {
      this.min_pfn, this.low_pfn := min_pfn, low_pfn;
      bits := new bool[low_pfn - min_pfn](_ => true);
      last_end_off, hint_idx, live := 0, 0, map[];
    }

    /** __free: mm/bootmem.c:62-78.  Its BUG is not reached: the pages are all marked. */
    method FreeBits(sidx: nat, eidx: nat)
      requires eidx <= bits.Length && forall i :: sidx <= i < eidx ==> bits[i]
      modifies `hint_idx, bits
      ensures forall i :: 0 <= i < bits.Length ==> bits[i] == (old(bits[i]) && !(sidx <= i < eidx))
      ensures hint_idx == if old(hint_idx) > sidx then sidx else old(hint_idx)
    {
      if hint_idx > sidx {
        hint_idx := sidx;
      }
      var idx := sidx;
      while idx < eidx
        invariant idx >= sidx && hint_idx == if old(hint_idx) > sidx then sidx else old(hint_idx)
        invariant forall i :: 0 <= i < bits.Length ==> bits[i] == (old(bits[i]) && !(sidx <= i < idx && i < eidx))
      {
        bits[idx] := false;
        idx := idx + 1;
      }
    }

    /** __reserve with BOOTMEM_EXCLUSIVE: mm/bootmem.c:80-103.  It never meets a set bit here,
        so the branch that gives the pages back is not reached. */
    method ReserveBits(sidx: nat, eidx: nat)
      requires AllClear(bits[..], sidx, eidx) || eidx <= sidx
      modifies bits
      ensures forall i :: 0 <= i < bits.Length ==> bits[i] == (old(bits[i]) || sidx <= i < eidx)
    {
      var idx := sidx;
      while idx < eidx
        invariant idx == sidx || sidx <= idx <= eidx
        invariant forall i :: 0 <= i < bits.Length ==> bits[i] == (old(bits[i]) || sidx <= i < idx)
      {
        bits[idx] := true;
        idx := idx + 1;
      }
    }

    /** free_bootmem of an earlier result: mm/bootmem.c:173-183, with mark_bootmem for a
        single node.  Pages it shares with others stay marked. */
    method FreeBootmem(off: nat, size: nat)
      requires Valid() && off in live && live[off] == size
      modifies `hint_idx, `live, bits
      ensures Valid() && live == old(live) - {off} && hint_idx <= old(hint_idx)
      ensures forall i :: 0 <= i < bits.Length ==> bits[i] == (old(bits[i]) && !(PfnUp(off) <= i < PfnDown(off + size)))
      ensures PfnUp(off) < PfnDown(off + size) ==> hint_idx <= PfnUp(off)
      ensures hint_idx == if PfnUp(off) < bits.Length && old(hint_idx) > PfnUp(off) then PfnUp(off) else old(hint_idx)
    {
      hide Marked, Disjoint;
      ghost var was := bits[..];
      var sidx, eidx := PfnUp(off), PfnDown(off + size);
      WholePages(was, live, off, last_end_off);
      if sidx < bits.Length {
        FreeBits(sidx, eidx);
      }
      FreedMarked(was, bits[..], live, off, last_end_off);
      live := live - {off};
    }

    /** free_bootmem of memory that no allocation has used, as the boot code hands it over:
        marked pages without a live byte, the last allocation not ending inside them. */
    method Release(sidx: nat, eidx: nat)
      requires Valid() && eidx <= bits.Length && forall i :: sidx <= i < eidx ==> bits[i]
      requires forall x: nat :: sidx * PAGE_SIZE <= x < eidx * PAGE_SIZE ==> !LiveByte(live, x)
      requires last_end_off % PAGE_SIZE == 0 || !(sidx <= PfnDown(last_end_off) < eidx)
      modifies `hint_idx, bits
      ensures Valid() && hint_idx == if old(hint_idx) > sidx then sidx else old(hint_idx)
      ensures forall i :: 0 <= i < bits.Length ==> bits[i] == (old(bits[i]) && !(sidx <= i < eidx))
    {
      hide LiveByte, Disjoint;
      ghost var was := bits[..];
      FreeBits(sidx, eidx);
      forall x: nat | LiveByte(live, x)
        ensures Set(bits[..], PfnDown(x))
      {
        assert Set(was, PfnDown(x));
      }
    }

    /** alloc_bootmem_core: mm/bootmem.c:211-323.  The result is an offset into the node, -1
        for NULL.  A search that starts at the hint is repeated from the goal if it fails. */
    method AllocCore(size: nat, align: nat, goal: nat, limit: nat) returns (off: int)
      requires Valid() && size > 0 && Alignment(align) && (limit != 0 ==> goal + size <= limit)
      modifies `hint_idx, `last_end_off, `live, bits
      ensures Valid()
      ensures off >= 0 ==> (min_pfn * PAGE_SIZE + off) % align == 0 && off + size <= Last(limit) * PAGE_SIZE
      ensures off >= 0 ==> off !in old(live) && live == old(live)[off := size]
      ensures off >= 0 ==> FreeRun(old(bits[..]), min_pfn, Step(align), PfnUp(size), Last(limit), PfnUp(off))
      ensures off >= 0 ==> FirstRun(old(bits[..]), min_pfn, Step(align), PfnUp(size), Last(limit), First(align, goal, limit), old(hint_idx), PfnUp(off))
      ensures off >= 0 ==> min_pfn * PAGE_SIZE + off + size <= low_pfn * PAGE_SIZE
      ensures off >= 0 && limit / PAGE_SIZE != 0 ==> min_pfn * PAGE_SIZE + off + size <= limit
      ensures off >= 0 && GoalUsable(goal, limit) ==> min_pfn + PfnUp(off) >= goal / PAGE_SIZE
      ensures off < 0 && GoalUsable(goal, limit) ==>
        forall i: nat :: min_pfn + i >= goal / PAGE_SIZE ==> !FreeRun(bits[..], min_pfn, Step(align), PfnUp(size), Last(limit), i)
      ensures off < 0 && !GoalUsable(goal, limit) && Last(limit) > 0 ==>
        forall i: nat :: !FreeRun(bits[..], min_pfn, Step(align), PfnUp(size), Last(limit), i)
      ensures off >= 0 ==> Starts(min_pfn, off, PfnUp(off), align, old(last_end_off))
      ensures off >= 0 ==> last_end_off == off + size && hint_idx == PfnUp(off + size)
      ensures off >= 0 ==> forall i :: 0 <= i < bits.Length ==> bits[i] == (old(bits[i]) || PfnUp(off) <= i < PfnUp(off + size))
      ensures off < 0 ==> live == old(live) && bits[..] == old(bits[..]) && hint_idx == old(hint_idx) && last_end_off == old(last_end_off)
      ensures off < 0 ==> Last(limit) > 0 ==>
        forall i: nat :: i >= First(align, goal, limit) ==> !FreeRun(bits[..], min_pfn, Step(align), PfnUp(size), Last(limit), i)
    {
      hide Marked, Disjoint, FreeRun;
      var max := if PfnDown(limit) != 0 && low_pfn > PfnDown(limit) then PfnDown(limit) else low_pfn;
      if max <= min_pfn {
        return -1;
      }
      var step := Step(align);
      var g := PfnDown(goal);
      var start := if g != 0 && min_pfn < g < max then AlignUp(g, step) else AlignUp(min_pfn, step);
      assert max - min_pfn == Last(limit) && start - min_pfn == First(align, goal, limit);
      hide BootmemData.First, BootmemData.Last, FirstRun, Step, Starts, PfnUp;
      var found, sidx := FindFrom(step, PfnUp(size), max - min_pfn, start - min_pfn);
      if !found {
        NoneFrom(bits[..], min_pfn, step, PfnUp(size), max - min_pfn, if GoalUsable(goal, limit) then g - min_pfn else 0, start - min_pfn);
        return -1;
      }
      off := Commit(sidx, size, align, max - min_pfn);
    }

    /** The search with the hint and the fallback: mm/bootmem.c:252-279 and mm/bootmem.c:316-321 */
    method FindFrom(step: nat, n: nat, midx: nat, first: nat) returns (found: bool, sidx: nat)
      requires step > 0 && n > 0 && midx <= bits.Length
      ensures found ==> FreeRun(bits[..], min_pfn, step, n, midx, sidx)
      ensures found ==> FirstRun(bits[..], min_pfn, step, n, midx, first, hint_idx, sidx)
      ensures !found ==> forall i: nat :: i >= first ==> !FreeRun(bits[..], min_pfn, step, n, midx, i)
    {
      hide FreeRun;
      if hint_idx > first {
        SkipUnaligned(bits[..], min_pfn, step, n, midx, hint_idx, AlignIdx(min_pfn, hint_idx, step));
        found, sidx := FindRun(bits, min_pfn, step, n, midx, AlignIdx(min_pfn, hint_idx, step));
        if found {
          return;
        }
      }
      found, sidx := FindRun(bits, min_pfn, step, n, midx, first);
    }

    /** The run is found: mm/bootmem.c:281-301.  The range may begin in the page in which the
        last one ended. */
    method Commit(sidx: nat, size: nat, align: nat, midx: nat) returns (off: nat)
      requires Valid() && size > 0 && Alignment(align) && FreeRun(bits[..], min_pfn, Step(align), PfnUp(size), midx, sidx)
      modifies `hint_idx, `last_end_off, `live, bits
      ensures Valid() && (min_pfn * PAGE_SIZE + off) % align == 0 && off + size <= midx * PAGE_SIZE
      ensures off !in old(live) && live == old(live)[off := size] && last_end_off == off + size && hint_idx == PfnUp(off + size)
      ensures forall i :: 0 <= i < bits.Length ==> bits[i] == (old(bits[i]) || PfnUp(off) <= i < PfnUp(off + size))
      ensures PfnUp(off) == sidx && Starts(min_pfn, off, sidx, align, old(last_end_off))
    {
      hide Marked, Disjoint, FreeRun;
      var start_off := if last_end_off % PAGE_SIZE != 0 && PfnDown(last_end_off) + 1 == sidx
        then AlignUp(min_pfn * PAGE_SIZE + last_end_off, align) - min_pfn * PAGE_SIZE else sidx * PAGE_SIZE;
      ghost var was, last := bits[..], last_end_off;
      Chosen(was, live, last, min_pfn, sidx, size, align, midx, start_off);
      var merge := if PfnDown(start_off) < sidx then 1 else 0;
      var end_off := start_off + size;
      last_end_off := end_off;
      hint_idx := PfnUp(end_off);
      ReserveBits(PfnDown(start_off) + merge, PfnUp(end_off));
      NowMarked(was, bits[..], live, last, min_pfn, sidx, size, align, midx, start_off);
      live := live[start_off := size];
      off := start_off;
    }

    /** The goal lies beyond the first page of the node and before the last that may be used. */
    predicate GoalUsable(goal: nat, limit: nat) {
      min_pfn < goal / PAGE_SIZE < low_pfn && (limit / PAGE_SIZE != 0 ==> goal / PAGE_SIZE < limit / PAGE_SIZE)
    }

    /** One past the last page that may be used, counted from the start of the node.  A limit
        below the first page is taken for none. */
    function Last(limit: nat): (r: int)
      ensures min_pfn + r <= low_pfn && (limit / PAGE_SIZE != 0 ==> min_pfn + r <= limit / PAGE_SIZE)
      ensures min_pfn + r == low_pfn || (limit / PAGE_SIZE != 0 && min_pfn + r == limit / PAGE_SIZE)
    {
      (if PfnDown(limit) != 0 && low_pfn > PfnDown(limit) then PfnDown(limit) else low_pfn) - min_pfn
    }

    /** The page at which the search is to start: the first aligned one from the goal on, or
        from the start of the node. */
    function First(align: nat, goal: nat, limit: nat): (r: nat)
      ensures (min_pfn + r) % Step(align) == 0
      ensures var from := if GoalUsable(goal, limit) then goal / PAGE_SIZE else min_pfn; from <= min_pfn + r < from + Step(align)
    {
      (if PfnDown(goal) != 0 && min_pfn < PfnDown(goal) < Last(limit) + min_pfn
       then AlignUp(PfnDown(goal), Step(align)) else AlignUp(min_pfn, Step(align))) - min_pfn
    }
  }

  /** The range starts with page `sidx`, unless the last one ended inside the page before:
      then it starts at the first aligned byte from there on. */
  predicate Starts(base: nat, off: nat, sidx: nat, align: nat, last: nat)
    requires align > 0
  {
    if last % PAGE_SIZE != 0 && last / PAGE_SIZE + 1 == sidx
    then (base * PAGE_SIZE + off) % align == 0 && last <= off < last + align else off == sidx * PAGE_SIZE
  }

  /** The whole pages of a live range are marked. */
  lemma WholePages(bits: seq<bool>, live: map<nat, nat>, off: nat, last: nat)
    requires off in live && Marked(bits, live, last)
    ensures var s, e := PfnUp(off), PfnDown(off + live[off]);
      s < e ==> e <= |bits| && forall i :: s <= i < e ==> bits[i]
  {
    var s, e := PfnUp(off), PfnDown(off + live[off]);
    forall i: int | s <= i < e
      ensures Set(bits, i) && bits[i]
    {
      assert Within(live, off, i * PAGE_SIZE);
      assert LiveByte(live, i * PAGE_SIZE);
      assert PfnDown(i * PAGE_SIZE) == i;
    }
    assert e > s ==> Set(bits, e - 1);
  }

  lemma FreedMarked(bits: seq<bool>, bits': seq<bool>, live: map<nat, nat>, off: nat, last: nat)
    requires off in live && Marked(bits, live, last) && Disjoint(live) && |bits'| == |bits|
    requires forall i :: 0 <= i < |bits| ==> bits'[i] == (bits[i] && !(PfnUp(off) <= i < PfnDown(off + live[off])))
    ensures Marked(bits', live - {off}, last) && Disjoint(live - {off})
  {
    var live' := live - {off};
    forall a, x: int
      ensures Within(live', a, x) ==> Within(live, a, x) && a != off
    {
    }
    forall x: nat | LiveByte(live', x)
      ensures Set(bits', PfnDown(x)) && LiveByte(live, x)
    {
      var a :| Within(live', a, x);
      assert Within(live, a, x);
      assert !Within(live, off, x);
    }
    if last % PAGE_SIZE != 0 {
      assert Within(live, off, last) ==> LiveByte(live, last);
    }
  }

  /** Where the new range starts, and that no live byte is there. */
  lemma Chosen(bits: seq<bool>, live: map<nat, nat>, last: nat, base: nat, sidx: nat, size: nat, align: nat, end: nat, start: int)
    requires Alignment(align) && size > 0 && Marked(bits, live, last) && FreeRun(bits, base, Step(align), PfnUp(size), end, sidx)
    requires start == if last % PAGE_SIZE != 0 && PfnDown(last) + 1 == sidx
      then AlignUp(base * PAGE_SIZE + last, align) - base * PAGE_SIZE else sidx * PAGE_SIZE
    ensures 0 <= start <= sidx * PAGE_SIZE && (base * PAGE_SIZE + start) % align == 0
    ensures start < sidx * PAGE_SIZE ==> last % PAGE_SIZE != 0 && PfnDown(last) + 1 == sidx && last <= start
    ensures PfnDown(start) + (if PfnDown(start) < sidx then 1 else 0) == sidx && PfnUp(start) == sidx
    ensures PfnUp(start + size) <= sidx + PfnUp(size) && AllClear(bits, sidx, sidx + PfnUp(size)) && sidx + PfnUp(size) <= end
  {
    PageAligned(base + sidx, align);
    assert (base + sidx) * PAGE_SIZE == base * PAGE_SIZE + sidx * PAGE_SIZE;
    if last % PAGE_SIZE != 0 && PfnDown(last) + 1 == sidx {
      AlignUpLeast(base * PAGE_SIZE + last, align, (base + sidx) * PAGE_SIZE);
    }
  }

  /** A page whose number is a multiple of the step starts at an aligned address. */
  lemma PageAligned(p: nat, align: nat)
    requires Alignment(align) && p % Step(align) == 0
    ensures p * PAGE_SIZE % align == 0
  {
    if align % PAGE_SIZE == 0 {
      var s := align / PAGE_SIZE;
      assert align == s * PAGE_SIZE && s >= 1;
      var q := p / s;
      assert p == q * s;
      assert q * s * PAGE_SIZE == q * (s * PAGE_SIZE);
      DivModUnique(p * PAGE_SIZE, q, 0, align);
    } else {
      var k := PAGE_SIZE / align;
      assert PAGE_SIZE == k * align;
      assert p * (k * align) == (p * k) * align;
      DivModUnique(p * PAGE_SIZE, p * k, 0, align);
    }
  }

  /** The bytes of the new range are nobody's. */
  lemma NobodysBytes(bits: seq<bool>, live: map<nat, nat>, last: nat, sidx: nat, n: nat, start: nat, x: nat)
    requires Marked(bits, live, last) && AllClear(bits, sidx, sidx + n) && start <= x < (sidx + n) * PAGE_SIZE
    requires start < sidx * PAGE_SIZE ==> last % PAGE_SIZE != 0 && PfnDown(last) + 1 == sidx && last <= start
    ensures !LiveByte(live, x)
  {
  }

  lemma NowMarked(bits: seq<bool>, bits': seq<bool>, live: map<nat, nat>, last: nat, base: nat, sidx: nat, size: nat, align: nat, end: nat, start: nat)
    requires size > 0 && Marked(bits, live, last) && Disjoint(live) && |bits'| == |bits| && AllClear(bits, sidx, sidx + PfnUp(size))
    requires start <= sidx * PAGE_SIZE && PfnUp(start + size) <= sidx + PfnUp(size)
    requires start < sidx * PAGE_SIZE ==> last % PAGE_SIZE != 0 && PfnDown(last) + 1 == sidx && last <= start
    requires forall i :: 0 <= i < |bits| ==> bits'[i] == (bits[i] || sidx <= i < PfnUp(start + size))
    requires forall off :: off in live ==> live[off] > 0
    ensures start !in live && Disjoint(live[start := size]) && Marked(bits', live[start := size], start + size)
  {
    var live', n, stop := live[start := size], PfnUp(size), start + size;
    forall x: nat | start <= x < (sidx + n) * PAGE_SIZE
      ensures !LiveByte(live, x)
    {
      NobodysBytes(bits, live, last, sidx, n, start, x);
    }
    if start in live {
      assert Within(live, start, start);
      assert LiveByte(live, start);
    }
    forall a, x: int
      ensures Within(live', a, x) <==> Within(live, a, x) || (a == start && start <= x < stop)
    {
    }
    NewDisjoint(live, live', start, stop, (sidx + n) * PAGE_SIZE);
    forall x: nat | LiveByte(live', x)
      ensures Set(bits', PfnDown(x))
    {
      var a :| Within(live', a, x);
      if Within(live, a, x) {
        assert LiveByte(live, x);
        assert Set(bits, PfnDown(x));
      } else if x >= sidx * PAGE_SIZE {
        assert sidx <= PfnDown(x) < PfnUp(stop);
      } else {
        assert PfnDown(x) == PfnDown(last);
      }
    }
    if stop % PAGE_SIZE != 0 {
      assert PfnUp(stop) == PfnDown(stop) + 1;
      forall x: nat | stop <= x < (PfnDown(stop) + 1) * PAGE_SIZE
        ensures !LiveByte(live', x)
      {
        assert !LiveByte(live, x);
      }
    }
  }

  lemma NewDisjoint(live: map<nat, nat>, live': map<nat, nat>, start: nat, stop: nat, top: nat)
    requires Disjoint(live) && stop <= top && forall x: nat :: start <= x < top ==> !LiveByte(live, x)
    requires forall a, x: int :: Within(live', a, x) <==> Within(live, a, x) || (a == start && start <= x < stop)
    ensures Disjoint(live')
  {
    forall a, b, x: int | Within(live', a, x) && Within(live', b, x)
      ensures a == b
    {
      assert Within(live, a, x) ==> LiveByte(live, x);
      assert Within(live, b, x) ==> LiveByte(live, x);
    }
  }
}
