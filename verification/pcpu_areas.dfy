/** pcpu_get_vm_areas of mm/percpu.c: several areas at fixed mutual offsets, placed in the
    vmalloc window by one search from the top. */
module PcpuAreas {
  import opened Align
  import opened Basics
  import opened RbNodes
  import opened RbOrder
  import opened RbTree
  import opened Vmap
  import opened VmapAreas

  /** The value of `x` as an unsigned long. */
  function U(x: int): (r: nat)
    ensures r < WORD
    ensures 0 <= x < WORD ==> r == x
  {
    x % WORD
  }

  /** What the BUG_ONs of mm/percpu.c:606-627 ask of the caller. */
  ghost predicate Layout(offsets: seq<nat>, sizes: seq<nat>) {
    && 0 < |offsets| == |sizes|
    && (forall j :: 0 <= j < |sizes| ==> sizes[j] > 0 && offsets[j] + sizes[j] < WORD)
    && (forall i, j :: 0 <= i < |offsets| && 0 <= j < |offsets| && i != j ==>
          offsets[i] + sizes[i] <= offsets[j] || offsets[j] + sizes[j] <= offsets[i])
  }

  ghost predicate AllAligned(offsets: seq<nat>, sizes: seq<nat>, align: nat)
    requires align > 0 && |offsets| == |sizes|
  {
    forall j :: 0 <= j < |sizes| ==> offsets[j] % align == 0 && sizes[j] % align == 0
  }

  /** No area reaches into `lo` up to `hi`. */
  ghost predicate Clear(v: seq<VmapArea>, lo: int, hi: int) {
    forall i :: 0 <= i < |v| ==> v[i].va_end <= lo || hi <= v[i].va_start
  }

  ghost predicate Fits(v: seq<VmapArea>, offsets: seq<nat>, sizes: seq<nat>, base: int)
    requires |offsets| == |sizes|
  {
    forall j :: 0 <= j < |offsets| ==> Clear(v, base + offsets[j], base + offsets[j] + sizes[j])
  }

  /** No aligned base above `lo` and up to `hi` fits. */
  ghost predicate NoneFits(v: seq<VmapArea>, offsets: seq<nat>, sizes: seq<nat>, align: nat, lo: int, hi: int)
    requires |offsets| == |sizes| && align > 0
  {
    forall c: int :: lo < c <= hi && c % align == 0 ==> !Fits(v, offsets, sizes, c)
  }

  method LastArea(offsets: seq<nat>) returns (last: nat)
    requires offsets != []
    ensures last < |offsets| && forall j :: 0 <= j < |offsets| ==> offsets[j] <= offsets[last]
  {
    last := 0;
    var area := 0;
    while area < |offsets|
      invariant 0 <= area <= |offsets| && last < |offsets|
      invariant forall j :: 0 <= j < area ==> offsets[j] <= offsets[last]
    {
      if offsets[area] > offsets[last] {
        last := area;
      }
      area := area + 1;
    }
  }

  /** The area with the highest offset also ends highest. */
  lemma LastEnds(offsets: seq<nat>, sizes: seq<nat>, last: nat, j: nat)
    requires Layout(offsets, sizes) && last < |offsets| && j < |offsets|
    requires offsets[j] <= offsets[last]
    ensures offsets[j] + sizes[j] <= offsets[last] + sizes[last]
  {
  }

  lemma LastEndsAll(offsets: seq<nat>, sizes: seq<nat>, last: nat)
    requires Layout(offsets, sizes) && last < |offsets|
    requires forall j :: 0 <= j < |offsets| ==> offsets[j] <= offsets[last]
    ensures forall j :: 0 <= j < |offsets| ==> offsets[j] + sizes[j] <= offsets[last] + sizes[last]
  {
    forall j | 0 <= j < |offsets|
      ensures offsets[j] + sizes[j] <= offsets[last] + sizes[last]
    {
      LastEnds(offsets, sizes, last, j);
    }
  }

  /** How far the pieces reach from the base. */
  function Extent(offsets: seq<nat>, sizes: seq<nat>): (r: nat)
    requires |offsets| == |sizes|
    ensures forall j :: 0 <= j < |offsets| ==> offsets[j] + sizes[j] <= r
    ensures offsets != [] ==> exists j :: 0 <= j < |offsets| && offsets[j] + sizes[j] == r
  {
    if offsets == [] then 0
    else
      var rest, n := Extent(offsets[1..], sizes[1..]), offsets[0] + sizes[0];
      assert forall j :: 1 <= j < |offsets| ==> offsets[1..][j - 1] == offsets[j] && sizes[1..][j - 1] == sizes[j];
      if |offsets| == 1 || n > rest then
        assert offsets[0] + sizes[0] == n;
        n
      else
        assert exists j :: 0 <= j < |offsets[1..]| && offsets[1..][j] + sizes[1..][j] == rest;
        rest
  }

  lemma ExtentIs(offsets: seq<nat>, sizes: seq<nat>, last: nat)
    requires |offsets| == |sizes| && last < |offsets|
    requires forall j :: 0 <= j < |offsets| ==> offsets[j] + sizes[j] <= offsets[last] + sizes[last]
    ensures Extent(offsets, sizes) == offsets[last] + sizes[last]
  {
  }

  /** The base from which the search starts: the pieces end below the area next to the
      candidate end `hole`, and inside the window. */
  ghost function StartBase(v: seq<VmapArea>, hole: nat, extent: nat, align: nat, vend: nat): int
    requires align > 0
  {
    TopBelow(v, EndsUpTo(v, hole), align, vend) - extent
  }

  /** An end inside the window and below every area that ends above the candidate end. */
  ghost predicate Below(v: seq<VmapArea>, hole: nat, end: int, vend: nat) {
    end <= vend && forall i :: 0 <= i < |v| && v[i].va_end > hole ==> end <= v[i].va_start
  }

  /** The search starts at the highest base whose pieces end there. */
  lemma StartIsHighest(v: seq<VmapArea>, hole: nat, extent: nat, align: nat, vend: nat, b: int)
    requires Sorted(v) && align > 0 && extent % align == 0 && b % align == 0 && b + extent >= 0
    ensures b <= StartBase(v, hole, extent, align, vend) <==> Below(v, hole, b + extent, vend)
  {
    hide AlignDown, TopBelow;
    SumOfMultiples(b, extent, align);
    EndsUpToSplits(v, hole);
  }

  lemma {:induction false} EndsUpToSplits(v: seq<VmapArea>, x: nat)
    requires Sorted(v)
    ensures var k := EndsUpTo(v, x); forall i :: 0 <= i < |v| ==> (v[i].va_end > x <==> i >= k)
  {
    if v != [] {
      if v[0].va_end <= x {
        EndsUpToSplits(v[1..], x);
        forall i | 0 <= i < |v|
          ensures v[i].va_end > x <==> i >= EndsUpTo(v, x)
        {
          assert i > 0 ==> v[i] == v[1..][i - 1];
        }
      } else {
        assert forall i :: 0 < i < |v| ==> v[0].va_end <= v[i].va_start < v[i].va_end;
      }
    }
  }

  /** The highest aligned base from `lo` up to `top` that fits. */
  ghost predicate Highest(v: seq<VmapArea>, offsets: seq<nat>, sizes: seq<nat>, align: nat, lo: int, top: int, base: int)
    requires |offsets| == |sizes| && align > 0
  {
    lo <= base <= top && base % align == 0 && Fits(v, offsets, sizes, base) && NoneFits(v, offsets, sizes, align, base, top)
  }

  /** The area before `area`, going round. */
  function Prior(area: nat, n: nat): (r: nat)
    requires area < n
    ensures r == if area > 0 then area - 1 else n - 1
  {
    DivModUnique(area + n - 1, if area > 0 then 1 else 0, if area > 0 then area - 1 else n - 1, n);
    (area + n - 1) % n
  }

  /** The areas from `term` down to just above `area`, going round. */
  ghost predicate Checked(j: int, area: int, term: int) {
    if area <= term then area < j <= term else j <= term || j > area
  }

  ghost function Unchecked(area: nat, term: nat, n: nat): nat
    requires area < n && term < n
  {
    if area <= term then n - (term - area) else area - term
  }

  /** Adding `last_end` undoes the underflow that `base` may have suffered. */
  lemma Underflow(b: int, lastEnd: nat)
    requires 0 <= b + lastEnd < WORD && lastEnd < WORD
    ensures U(U(b) + lastEnd) == b + lastEnd
  {
  }

  /** Area `k` overlaps the piece `j` at base `b`: the new base is lower, and nothing
      between fits. */
  lemma MoveBelow(v: seq<VmapArea>, k: nat, offsets: seq<nat>, sizes: seq<nat>, j: nat, b: int, align: nat, vend: nat)
    requires Layout(offsets, sizes) && j < |offsets| && k < |v| && align > 0
    requires v[k].va_start < b + offsets[j] + sizes[j] && v[k].va_end > b + offsets[j]
    requires b + offsets[j] + sizes[j] <= AlignDown(vend, align)
    ensures var b' := TopBelow(v, k, align, vend) - (offsets[j] + sizes[j]);
      b' < b && (AllAligned(offsets, sizes, align) ==> NoneFits(v, offsets, sizes, align, b', b))
  {
    var addr, end := TopBelow(v, k, align, vend), offsets[j] + sizes[j];
    if AllAligned(offsets, sizes, align) {
      forall c: int | addr - end < c <= b && c % align == 0
        ensures !Fits(v, offsets, sizes, c)
      {
        SumOfMultiples(offsets[j], sizes[j], align);
        SumOfMultiples(c, end, align);
        assert c + end > v[k].va_start;
        assert !Clear(v, c + offsets[j], c + offsets[j] + sizes[j]);
      }
    }
  }

  /** Neither neighbour reaches into the piece. */
  lemma PieceClear(v: seq<VmapArea>, k: nat, lo: int, hi: int)
    requires Sorted(v) && k <= |v|
    requires k > 0 ==> v[k - 1].va_end <= lo
    requires k < |v| ==> hi <= v[k].va_start
    ensures Clear(v, lo, hi)
  {
  }

  /** What holds of the search between two rounds: `b` is the base, the pieces checked
      since it last moved are clear, and nothing higher fits. */
  ghost predicate Searching(v: seq<VmapArea>, offsets: seq<nat>, sizes: seq<nat>, align: nat, window: nat,
                            top: int, b: int, area: nat, term: nat, k: nat, last: nat)
  {
    && align > 0 && Layout(offsets, sizes) && area < |offsets| && term < |offsets| && last < |offsets| && k <= |v|
    && b <= top && top + offsets[last] + sizes[last] <= window
    && b + offsets[last] + sizes[last] >= 0
    && (k > 0 ==> v[k - 1].va_end <= b + offsets[area] + sizes[area])
    && (k < |v| ==> v[k].va_end > b + offsets[area] + sizes[area])
    && (forall j :: 0 <= j < |offsets| && Checked(j, area, term) ==> Clear(v, b + offsets[j], b + offsets[j] + sizes[j]))
    && (AllAligned(offsets, sizes, align) ==> b % align == 0 && NoneFits(v, offsets, sizes, align, b, top))
  }

  lemma SearchStart(v: seq<VmapArea>, offsets: seq<nat>, sizes: seq<nat>, align: nat, vend: nat, hole: nat,
                    k0: nat, k: nat, last: nat)
    requires align > 0 && Layout(offsets, sizes) && last < |offsets| && Sorted(v) && k <= k0 <= |v|
    requires EndsAround(v, k0, k0, hole)
    requires var addr := TopBelow(v, k0, align, vend);
      (k > 0 ==> v[k - 1].va_end <= addr) && (forall i :: k <= i < k0 ==> v[i].va_end > addr)
    ensures var b := TopBelow(v, k0, align, vend) - (offsets[last] + sizes[last]);
      Searching(v, offsets, sizes, align, AlignDown(vend, align), b, b, last, last, k, last)
  {
    var addr, end := TopBelow(v, k0, align, vend), offsets[last] + sizes[last];
    if AllAligned(offsets, sizes, align) {
      SumOfMultiples(offsets[last], sizes[last], align);
      SumOfMultiples(addr, end, align);
    }
  }

  /** The area at position `c` overlaps the piece: the base moves below it. */
  lemma SearchMove(v: seq<VmapArea>, offsets: seq<nat>, sizes: seq<nat>, align: nat, vend: nat,
                   top: int, b: int, area: nat, term: nat, k: nat, last: nat, c: nat, k': nat)
    requires align > 0 && |offsets| == |sizes| && area < |offsets| && last < |offsets|
    requires Searching(v, offsets, sizes, align, AlignDown(vend, align), top, b, area, term, k, last) && Sorted(v)
    requires forall j :: 0 <= j < |offsets| ==> offsets[j] + sizes[j] <= offsets[last] + sizes[last]
    requires c < |v| && k' <= c && c <= k <= c + 1
    requires if c == k then v[c].va_start < b + offsets[area] + sizes[area] else v[c].va_end > b + offsets[area]
    requires var addr := TopBelow(v, c, align, vend);
      (k' > 0 ==> v[k' - 1].va_end <= addr) && (forall i :: k' <= i < c ==> v[i].va_end > addr)
    ensures var b' := TopBelow(v, c, align, vend) - (offsets[area] + sizes[area]);
      b' < b && Searching(v, offsets, sizes, align, AlignDown(vend, align), top, b', area, area, k', last)
  {
    var addr, end := TopBelow(v, c, align, vend), offsets[area] + sizes[area];
    assert offsets[area] + sizes[area] <= offsets[last] + sizes[last];
    MoveBelow(v, c, offsets, sizes, area, b, align, vend);
    if AllAligned(offsets, sizes, align) {
      SumOfMultiples(offsets[area], sizes[area], align);
      SumOfMultiples(addr, end, align);
    }
  }

  /** The piece is clear: on to the one before it. */
  lemma SearchNext(v: seq<VmapArea>, offsets: seq<nat>, sizes: seq<nat>, align: nat, window: nat,
                   top: int, b: int, area: nat, term: nat, k: nat, last: nat, k': nat)
    requires |offsets| == |sizes| && area < |offsets|
    requires Searching(v, offsets, sizes, align, window, top, b, area, term, k, last) && Sorted(v)
    requires k > 0 ==> v[k - 1].va_end <= b + offsets[area]
    requires k < |v| ==> b + offsets[area] + sizes[area] <= v[k].va_start
    ensures var area' := Prior(area, |offsets|);
      && (area' == term ==> Fits(v, offsets, sizes, b))
      && (area' != term && b >= 0 && EndsAround(v, k', k', b + offsets[area'] + sizes[area']) ==>
           Searching(v, offsets, sizes, align, window, top, b, area', term, k', last)
           && Unchecked(area', term, |offsets|) < Unchecked(area, term, |offsets|))
  {
    PieceClear(v, k, b + offsets[area], b + offsets[area] + sizes[area]);
  }

  lemma EmptyFits(offsets: seq<nat>, sizes: seq<nat>, align: nat, window: nat, last: nat)
    requires |offsets| == |sizes| && align > 0 && last < |offsets| && window % align == 0
    ensures var base := window - (offsets[last] + sizes[last]);
      && Fits([], offsets, sizes, base) && NoneFits([], offsets, sizes, align, base, base)
      && (AllAligned(offsets, sizes, align) ==> base % align == 0)
  {
    if AllAligned(offsets, sizes, align) {
      SumOfMultiples(offsets[last], sizes[last], align);
      SumOfMultiples(window, offsets[last] + sizes[last], align);
    }
  }

  lemma SearchBounds(v: seq<VmapArea>, offsets: seq<nat>, sizes: seq<nat>, align: nat, window: nat,
                     top: int, b: int, area: nat, term: nat, k: nat, last: nat)
    requires align > 0 && |offsets| == |sizes| && area < |offsets| && last < |offsets| && k <= |v|
    requires Searching(v, offsets, sizes, align, window, top, b, area, term, k, last) && window < WORD
    ensures b <= top && 0 <= b + offsets[last] + sizes[last] <= window
    ensures k > 0 ==> v[k - 1].va_end <= b + offsets[area] + sizes[area]
    ensures k < |v| ==> v[k].va_end > b + offsets[area] + sizes[area]
    ensures offsets[last] + sizes[last] < WORD && sizes[area] > 0
    ensures AllAligned(offsets, sizes, align) ==> b % align == 0
    ensures forall lo :: lo >= b && AllAligned(offsets, sizes, align) ==> NoneFits(v, offsets, sizes, align, lo, top)
  {
  }

  /** `base = pvm_determine_end(&next, &prev, align) - end`: mm/percpu.c:694 and mm/percpu.c:706-708.  The
      area `next0` at position `c` is in the way. */
  method MoveBase(vm: VmapSpace, next0: RbNode?, prev0: RbNode?, offsets: seq<nat>, sizes: seq<nat>, align: nat, end: nat,
                  ghost top: int, ghost b: int, ghost area: nat, ghost term: nat, ghost k: nat, ghost last: nat, ghost c: nat)
      returns (base: nat, next: RbNode?, prev: RbNode?, ghost b': int, ghost k': nat)
    requires vm.Valid() && align > 0 && |offsets| == |sizes| && area < |offsets| && last < |offsets|
    requires Searching(vm.Areas(), offsets, sizes, align, AlignDown(vm.vmalloc_end, align), top, b, area, term, k, last)
    requires forall j :: 0 <= j < |offsets| ==> offsets[j] + sizes[j] <= offsets[last] + sizes[last]
    requires end == offsets[area] + sizes[area]
    requires vm.Between(next0, prev0, c) && c < |vm.Areas()| && c <= k <= c + 1
    requires if c == k then vm.Areas()[c].va_start < b + end else vm.Areas()[c].va_end > b + offsets[area]
    ensures b' < b && base == U(b') && vm.Between(next, prev, k')
    ensures Searching(vm.Areas(), offsets, sizes, align, AlignDown(vm.vmalloc_end, align), top, b', area, area, k', last)
  {
    hide RbRoot.Valid, VmapSpace.Valid, Searching, Sorted, VmapSpace.Between, U, AlignDown, TopBelow;
    var addr;
    addr, next, prev, k' := vm.DetermineEnd(next0, prev0, align, c);
    vm.Sides(next, prev, k');
    vm.AreasSorted();
    SearchMove(vm.Areas(), offsets, sizes, align, vm.vmalloc_end, top, b, area, term, k, last, c, k');
    b' := addr - end;
    base := U(addr - end);
  }

  /** One round: mm/percpu.c:667-723.  Either the search is over, or the base has moved
      down, or one more piece is clear. */
  method Round(vm: VmapSpace, next0: RbNode?, prev0: RbNode?, offsets: seq<nat>, sizes: seq<nat>, align: nat,
               area: nat, term: nat, base0: nat, ghost top: int, ghost b: int, ghost k: nat, ghost last: nat)
      returns (done: bool, base: nat, next: RbNode?, prev: RbNode?, area': nat, term': nat, ghost b': int, ghost k': nat)
    requires vm.Valid() && align > 0 && |offsets| == |sizes| && area < |offsets| && term < |offsets| && last < |offsets|
    requires Searching(vm.Areas(), offsets, sizes, align, AlignDown(vm.vmalloc_end, align), top, b, area, term, k, last)
    requires forall j :: 0 <= j < |offsets| ==> offsets[j] + sizes[j] <= offsets[last] + sizes[last]
    requires vm.Between(next0, prev0, k) && vm.list != []
    requires base0 == b && base0 + offsets[last] + sizes[last] < WORD
    ensures done ==> base == base0 && b' == b && Fits(vm.Areas(), offsets, sizes, base)
    ensures !done ==> base == U(b') && vm.Between(next, prev, k') && area' < |offsets| && term' < |offsets|
    ensures !done ==>
      Searching(vm.Areas(), offsets, sizes, align, AlignDown(vm.vmalloc_end, align), top, b', area', term', k', last)
    ensures !done ==>
      || b' < b
      || (b' == b && Unchecked(area', term', |offsets|) < Unchecked(area, term, |offsets|))
  {
    hide RbRoot.Valid, VmapSpace.Valid, Searching, Sorted, VmapSpace.Between, U, AlignDown, EndsAround, Fits;
    done, base, next, prev, area', term', b', k' := false, base0, next0, prev0, area, term, b, k;
    var end := offsets[area] + sizes[area];
    vm.Sides(next, prev, k);
    vm.AreasSorted();
    if next != null && vm.area[next].va_start < base + end {
      base, next, prev, b', k' := MoveBase(vm, next, prev, offsets, sizes, align, end, top, b, area, term, k, last, k);
      term' := area;
    } else if prev != null && vm.area[prev].va_end > base + offsets[area] {
      next := prev;
      prev := vm.PrevArea(next, k - 1);
      vm.StepDown(next, prev, k - 1);
      base, next, prev, b', k' := MoveBase(vm, next, prev, offsets, sizes, align, end, top, b, area, term, k, last, k - 1);
      term' := area;
    } else {
      area' := Prior(area, |offsets|);
      if area' == term {
        done := true;
      } else {
        end := offsets[area'] + sizes[area'];
        var ok;
        ok, next, prev, k' := vm.FindNextPrev(base + end);
        vm.Sides(next, prev, k');
      }
      SearchNext(vm.Areas(), offsets, sizes, align, AlignDown(vm.vmalloc_end, align), top, b, area, term, k, last, k');
    }
  }

  /** The search: mm/percpu.c:655-723. */
  method FindBase(vm: VmapSpace, offsets: seq<nat>, sizes: seq<nat>, align: nat, last: nat)
      returns (found: bool, base: nat)
    requires vm.Valid() && |offsets| == |sizes| && Layout(offsets, sizes) && align > 0 && last < |offsets|
    requires forall j :: 0 <= j < |offsets| ==> offsets[j] <= offsets[last]
    requires AlignUp(vm.vmalloc_start, align) + offsets[last] + sizes[last] <= AlignDown(vm.vmalloc_end, align) < WORD
    ensures var v, lo := vm.Areas(), AlignUp(vm.vmalloc_start, align);
      var top := StartBase(v, vm.pcpu_hole, Extent(offsets, sizes), align, vm.vmalloc_end);
      && (found ==> lo <= base <= top && Fits(v, offsets, sizes, base))
      && (AllAligned(offsets, sizes, align) ==>
            if found then Highest(v, offsets, sizes, align, lo, top, base) else NoneFits(v, offsets, sizes, align, lo - 1, top))
  {
    hide RbRoot.Valid, VmapSpace.Valid, Sorted, Searching, Fits, NoneFits, AllAligned, Layout;
    hide AlignUp, AlignDown, TopBelow, U, VmapSpace.Between, EndsAround, EndsUpTo;
    LastEndsAll(offsets, sizes, last);
    var vmalloc_start := AlignUp(vm.vmalloc_start, align);
    var vmalloc_end := AlignDown(vm.vmalloc_end, align);
    var last_end := offsets[last] + sizes[last];
    ghost var v := vm.Areas();
    vm.AreasSorted();
    var ok, next, prev, k0 := vm.FindNextPrev(vm.pcpu_hole);
    if !ok {
      assert v == [];
      EmptyFits(offsets, sizes, align, vmalloc_end, last);
      NoAreas(vm.pcpu_hole, align, vm.vmalloc_end);
      return true, vmalloc_end - last_end;
    }
    vm.Sides(next, prev, k0);
    EndsUpToIs(v, k0, vm.pcpu_hole);
    var addr;
    ghost var k;
    addr, next, prev, k := vm.DetermineEnd(next, prev, align, k0);
    SearchStart(v, offsets, sizes, align, vm.vmalloc_end, vm.pcpu_hole, k0, k, last);
    ghost var top := addr - last_end;
    base := U(addr - last_end);
    ghost var b := top;
    var area: nat, term_area: nat, done := last, last, false;
    while true
      invariant area < |offsets| && term_area < |offsets| && base == U(b) && vm.Between(next, prev, k)
      invariant Searching(v, offsets, sizes, align, vmalloc_end, top, b, area, term_area, k, last)
      decreases b + last_end, Unchecked(area, term_area, |offsets|)
    {
      vm.Sides(next, prev, k);
      SearchBounds(v, offsets, sizes, align, vmalloc_end, top, b, area, term_area, k, last);
      Underflow(b, last_end);
      if U(base + last_end) < vmalloc_start + last_end {
        return false, base;
      }
      done, base, next, prev, area, term_area, b, k :=
        Round(vm, next, prev, offsets, sizes, align, area, term_area, base, top, b, k, last);
      if done {
        return true, base;
      }
    }
  }

  lemma NoAreas(hole: nat, align: nat, vend: nat)
    requires align > 0
    ensures TopBelow([], EndsUpTo([], hole), align, vend) == AlignDown(vend, align)
  {
  }

  function Piece(base: nat, offset: nat, size: nat): VmapArea {
    VmapArea(base + offset, base + offset + size, false, false)
  }

  /** The pieces from `area` on are clear. */
  ghost predicate RestClear(v: seq<VmapArea>, offsets: seq<nat>, sizes: seq<nat>, base: nat, area: nat)
    requires |offsets| == |sizes|
  {
    forall j :: area <= j < |offsets| ==> Clear(v, base + offsets[j], base + offsets[j] + sizes[j])
  }

  lemma NextPiece(v: seq<VmapArea>, offsets: seq<nat>, sizes: seq<nat>, base: nat, area: nat)
    requires Layout(offsets, sizes) && area < |offsets| && RestClear(v, offsets, sizes, base, area)
    ensures sizes[area] > 0 && ApartFrom(v, Piece(base, offsets[area], sizes[area]))
  {
    assert Clear(v, base + offsets[area], base + offsets[area] + sizes[area]);
  }

  lemma PieceIn(v: seq<VmapArea>, offsets: seq<nat>, sizes: seq<nat>, base: nat, area: nat, k: nat)
    requires Layout(offsets, sizes) && area < |offsets| && RestClear(v, offsets, sizes, base, area) && k <= |v|
    ensures RestClear(v[..k] + [Piece(base, offsets[area], sizes[area])] + v[k..], offsets, sizes, base, area + 1)
  {
    var a := Piece(base, offsets[area], sizes[area]);
    forall j | area + 1 <= j < |offsets|
      ensures Clear(v[..k] + [a] + v[k..], base + offsets[j], base + offsets[j] + sizes[j])
    {
      assert Clear(v, base + offsets[j], base + offsets[j] + sizes[j]);
    }
  }

  lemma ToSetTakes(vas: seq<RbNode>, i: nat)
    requires NoDup(vas) && i <= |vas|
    ensures ToSet(vas[..0]) == {} && (i < |vas| ==> ToSet(vas[..i + 1]) == ToSet(vas[..i]) + {vas[i]} && vas[i] !in ToSet(vas[..i]))
    ensures forall j :: 0 <= j < i ==> vas[j] in ToSet(vas[..i]) && (i < |vas| ==> vas[j] != vas[i])
    ensures forall n :: n in ToSet(vas[..i]) ==> n in vas
  {
  }

  lemma AllClear(v: seq<VmapArea>, offsets: seq<nat>, sizes: seq<nat>, base: nat)
    requires |offsets| == |sizes| && Fits(v, offsets, sizes, base)
    ensures RestClear(v, offsets, sizes, base, 0)
  {
  }

  /** One piece goes in. */
  method InsertPiece(vm: VmapSpace, n: RbNode, offsets: seq<nat>, sizes: seq<nat>, base: nat, area: nat)
    requires vm.Valid() && vm.Tracked() && n !in vm.root.pool && n !in vm.area
    requires |offsets| == |sizes| && Layout(offsets, sizes) && area < |offsets| && base + Extent(offsets, sizes) < WORD
    requires RestClear(vm.Areas(), offsets, sizes, base, area)
    modifies vm`area, vm`list, vm`log, vm.root, n, vm.root.pool
    ensures vm.Valid() && vm.Tracked() && vm.root.pool == old(vm.root.pool) + {n}
    ensures vm.area == old(vm.area)[n := Piece(base, offsets[area], sizes[area])]
    ensures RestClear(vm.Areas(), offsets, sizes, base, area + 1)
  {
    hide RbRoot.Valid, Sorted, VmapSpace.Valid, Layout, Clear, Tracking, RestClear;
    ghost var v, m := vm.Areas(), vm.area;
    var va := Piece(base, offsets[area], sizes[area]);
    NextPiece(v, offsets, sizes, base, area);
    vm.AreasOf(va);
    ghost var k := vm.InsertVmapArea(n, va);
    PieceIn(v, offsets, sizes, base, area, k);
    TrackHandOut(vm.log, m, v, vm.lazy_nr, vm.purging, vm.flushed, n, va, k);
    vm.log := vm.log + [Handed(va.va_start, va.va_end)];
  }

  /** The pieces go in one by one: mm/percpu.c:726-733. */
  method InsertPieces(vm: VmapSpace, vas: seq<RbNode>, offsets: seq<nat>, sizes: seq<nat>, base: nat)
    requires vm.Valid() && vm.Tracked() && |vas| == |offsets| == |sizes| && Layout(offsets, sizes)
    requires NoDup(vas) && (forall j :: 0 <= j < |vas| ==> vas[j] !in vm.root.pool && vas[j] !in vm.area)
    requires Fits(vm.Areas(), offsets, sizes, base) && base + Extent(offsets, sizes) < WORD
    modifies vm`area, vm`list, vm`log, vm.root, vas, vm.root.pool
    ensures vm.Valid() && vm.Tracked() && vm.root.pool == old(vm.root.pool) + ToSet(vas)
    ensures vm.area.Keys == old(vm.area).Keys + ToSet(vas)
    ensures forall n :: n in old(vm.area) ==> vm.area[n] == old(vm.area)[n]
    ensures forall j :: 0 <= j < |vas| ==> vm.area[vas[j]] == Piece(base, offsets[j], sizes[j])
  {
    hide RbRoot.Valid, Sorted, VmapSpace.Valid, Layout, Clear, VmapSpace.Tracked, RestClear, ToSet, NoDup, Piece, Fits, Extent;
    var area := 0;
    ToSetTakes(vas, 0);
    AllClear(vm.Areas(), offsets, sizes, base);
    while area < |vas|
      invariant area <= |vas| && vm.Valid() && vm.Tracked()
      invariant vm.root.pool == old(vm.root.pool) + ToSet(vas[..area])
      invariant vm.area.Keys == old(vm.area).Keys + ToSet(vas[..area])
      invariant forall n :: n in old(vm.area) ==> vm.area[n] == old(vm.area)[n]
      invariant forall j :: 0 <= j < area ==> vas[j] in vm.area && vm.area[vas[j]] == Piece(base, offsets[j], sizes[j])
      invariant RestClear(vm.Areas(), offsets, sizes, base, area)
    {
      ToSetTakes(vas, area);
      InsertPiece(vm, vas[area], offsets, sizes, base, area);
      area := area + 1;
    }
    assert vas[..area] == vas;
  }

  /** The search again, after one purge, if it fails: mm/percpu.c:655-723 */
  method FindOrPurge(vm: VmapSpace, offsets: seq<nat>, sizes: seq<nat>, align: nat, last: nat)
      returns (found: bool, base: nat, ghost purged: bool)
    requires vm.Valid() && vm.Tracked() && vm.purging == [] && !vm.flushed
    requires |offsets| == |sizes| && Layout(offsets, sizes) && align > 0 && last < |offsets|
    requires forall j :: 0 <= j < |offsets| ==> offsets[j] <= offsets[last]
    requires AlignUp(vm.vmalloc_start, align) + offsets[last] + sizes[last] <= AlignDown(vm.vmalloc_end, align) < WORD
    modifies vm, vm.root, vm.root.pool
    ensures vm.Valid() && vm.Tracked() && vm.root.pool <= old(vm.root.pool) && vm.area.Keys <= old(vm.area).Keys
    ensures var lo, extent := AlignUp(vm.vmalloc_start, align), Extent(offsets, sizes);
      var top := StartBase(vm.Areas(), vm.pcpu_hole, extent, align, vm.vmalloc_end);
      && (found ==> lo <= base <= top && Fits(vm.Areas(), offsets, sizes, base))
      && (AllAligned(offsets, sizes, align) ==>
            && (if found then Highest(vm.Areas(), offsets, sizes, align, lo, top, base)
                else purged && NoneFits(vm.Areas(), offsets, sizes, align, lo - 1, top))
            && (purged ==> NoneFits(old(vm.Areas()), offsets, sizes, align, lo - 1,
                 StartBase(old(vm.Areas()), old(vm.pcpu_hole), extent, align, vm.vmalloc_end))))
    ensures if purged then
        && vm.Areas() == Settled(old(vm.Areas()))
        && vm.pcpu_hole == SettledHole(old(vm.pcpu_hole), old(vm.Areas()), vm.vmalloc_start, vm.vmalloc_end)
      else vm.area == old(vm.area) && vm.Areas() == old(vm.Areas()) && vm.pcpu_hole == old(vm.pcpu_hole)
    ensures forall n :: n in old(vm.area) && !old(vm.area)[n].lazy_free ==> n in vm.area && vm.area[n] == old(vm.area)[n]
    ensures if purged && LazyPages(old(vm.Areas())) > 0
      then exists s, e :: Bounds(old(vm.area), WORD - 1, 0, s, e) && vm.log == old(vm.log) + [Flushed(s, e)] else vm.log == old(vm.log)
  {
    hide RbRoot.Valid, VmapSpace.Valid, Tracking, Sorted, NoneFits, AllAligned, Fits, Highest, Layout, AlignUp, AlignDown, Bounds, LazyPages;
    hide StartBase, Settled, SettledHole, Extent;
    purged := false;
    found, base := FindBase(vm, offsets, sizes, align, last);
    if !found {
      vm.PurgeVmapAreaLazy(WORD - 1, 0, false);
      purged := true;
      found, base := FindBase(vm, offsets, sizes, align, last);
    }
  }

  /** Some aligned base from the start of the window up to where the search starts fits. */
  ghost predicate SomeFits(v: seq<VmapArea>, hole: nat, offsets: seq<nat>, sizes: seq<nat>, align: nat, vstart: nat, vend: nat)
    requires |offsets| == |sizes| && align > 0
  {
    !NoneFits(v, offsets, sizes, align, AlignUp(vstart, align) - 1, StartBase(v, hole, Extent(offsets, sizes), align, vend))
  }

  ghost predicate HighestIn(v: seq<VmapArea>, hole: nat, offsets: seq<nat>, sizes: seq<nat>, align: nat, vstart: nat, vend: nat, base: int)
    requires |offsets| == |sizes| && align > 0
  {
    Highest(v, offsets, sizes, align, AlignUp(vstart, align), StartBase(v, hole, Extent(offsets, sizes), align, vend), base)
  }

  /** What a base is to be: aligned, inside the window and below what ends above the hole, and
      clear of all areas. */
  ghost predicate Wanted(v: seq<VmapArea>, hole: nat, offsets: seq<nat>, sizes: seq<nat>, align: nat, vstart: nat, vend: nat, b: int)
    requires |offsets| == |sizes| && align > 0
  {
    b % align == 0 && vstart <= b && Below(v, hole, b + Extent(offsets, sizes), vend) && Fits(v, offsets, sizes, b)
  }

  /** The base that is found is the highest of these. */
  lemma HighestWanted(v: seq<VmapArea>, hole: nat, offsets: seq<nat>, sizes: seq<nat>, align: nat, vstart: nat, vend: nat, base: int)
    requires Sorted(v) && |offsets| == |sizes| && offsets != [] && align > 0 && AllAligned(offsets, sizes, align)
    ensures HighestIn(v, hole, offsets, sizes, align, vstart, vend, base) <==>
      && Wanted(v, hole, offsets, sizes, align, vstart, vend, base)
      && forall b: int :: Wanted(v, hole, offsets, sizes, align, vstart, vend, b) ==> b <= base
  {
    hide StartBase, Fits, Extent, Below;
    WantedIs(v, hole, offsets, sizes, align, vstart, vend);
  }

  /** And there is one just when one is found. */
  lemma SomeWanted(v: seq<VmapArea>, hole: nat, offsets: seq<nat>, sizes: seq<nat>, align: nat, vstart: nat, vend: nat)
    requires Sorted(v) && |offsets| == |sizes| && offsets != [] && align > 0 && AllAligned(offsets, sizes, align)
    ensures SomeFits(v, hole, offsets, sizes, align, vstart, vend) <==>
      exists b: int :: Wanted(v, hole, offsets, sizes, align, vstart, vend, b)
  {
    hide StartBase, Fits, Extent, Below;
    WantedIs(v, hole, offsets, sizes, align, vstart, vend);
  }

  lemma WantedIs(v: seq<VmapArea>, hole: nat, offsets: seq<nat>, sizes: seq<nat>, align: nat, vstart: nat, vend: nat)
    requires Sorted(v) && |offsets| == |sizes| && offsets != [] && align > 0 && AllAligned(offsets, sizes, align)
    ensures forall b: int :: Wanted(v, hole, offsets, sizes, align, vstart, vend, b) <==>
      b % align == 0 && AlignUp(vstart, align) <= b <= StartBase(v, hole, Extent(offsets, sizes), align, vend) && Fits(v, offsets, sizes, b)
  {
    hide StartBase, Fits, Below, AlignUp, Extent;
    var extent := Extent(offsets, sizes);
    var j :| 0 <= j < |offsets| && offsets[j] + sizes[j] == extent;
    SumOfMultiples(offsets[j], sizes[j], align);
    forall b: int | b % align == 0 && b >= 0
      ensures vstart <= b <==> AlignUp(vstart, align) <= b
      ensures b <= StartBase(v, hole, extent, align, vend) <==> Below(v, hole, b + extent, vend)
    {
      if vstart <= b {
        AlignUpLeast(vstart, align, b);
      }
      StartIsHighest(v, hole, extent, align, vend, b);
    }
  }

  lemma HighestFits(v: seq<VmapArea>, hole: nat, offsets: seq<nat>, sizes: seq<nat>, align: nat, vstart: nat, vend: nat, base: int)
    requires |offsets| == |sizes| && align > 0 && HighestIn(v, hole, offsets, sizes, align, vstart, vend, base)
    ensures SomeFits(v, hole, offsets, sizes, align, vstart, vend)
  {
  }

  /** A window shorter than the pieces reach has no base. */
  lemma TooShort(v: seq<VmapArea>, hole: nat, offsets: seq<nat>, sizes: seq<nat>, align: nat, vstart: nat, vend: nat)
    requires |offsets| == |sizes| && align > 0 && AlignUp(vstart, align) + Extent(offsets, sizes) > AlignDown(vend, align)
    ensures !SomeFits(v, hole, offsets, sizes, align, vstart, vend)
  {
  }

  /** pcpu_get_vm_areas: mm/percpu.c:593-758.  `vas` are the records it allocates, if it
      can.  The search is made on the areas as they are and, if nothing fits, once more on
      those that a purge leaves. */
  method GetVmAreas(vm: VmapSpace, mem_ok: bool, vas: seq<RbNode>, offsets: seq<nat>, sizes: seq<nat>, align: nat)
      returns (found: bool, base: nat)
    requires vm.Valid() && vm.Tracked() && vm.purging == [] && !vm.flushed
    requires 0 < |vas| == |offsets| == |sizes| && Layout(offsets, sizes) && align > 0
    requires NoDup(vas) && (forall j :: 0 <= j < |vas| ==> vas[j] !in vm.root.pool && vas[j] !in vm.area)
    requires AlignUp(vm.vmalloc_start, align) <= AlignDown(vm.vmalloc_end, align) < WORD
    modifies vm, vm.root, vas, vm.root.pool
    ensures vm.Valid() && vm.Tracked()
    ensures AllAligned(offsets, sizes, align) ==>
      var v0, h0 := old(vm.Areas()), old(vm.pcpu_hole);
      var v1, h1 := Settled(v0), SettledHole(h0, v0, vm.vmalloc_start, vm.vmalloc_end);
      && (found <==> (mem_ok && (SomeFits(v0, h0, offsets, sizes, align, vm.vmalloc_start, vm.vmalloc_end)
            || SomeFits(v1, h1, offsets, sizes, align, vm.vmalloc_start, vm.vmalloc_end))))
      && (found ==> if SomeFits(v0, h0, offsets, sizes, align, vm.vmalloc_start, vm.vmalloc_end)
            then HighestIn(v0, h0, offsets, sizes, align, vm.vmalloc_start, vm.vmalloc_end, base)
            else HighestIn(v1, h1, offsets, sizes, align, vm.vmalloc_start, vm.vmalloc_end, base))
    ensures found ==> vm.area.Keys <= old(vm.area).Keys + ToSet(vas)
    ensures forall n :: n in old(vm.area) && !old(vm.area)[n].lazy_free ==> n in vm.area && vm.area[n] == old(vm.area)[n]
    ensures found ==> AlignUp(vm.vmalloc_start, align) <= base
    ensures found ==> forall j :: 0 <= j < |vas| ==>
      && vas[j] in vm.area && vm.area[vas[j]] == Piece(base, offsets[j], sizes[j])
      && base + offsets[j] + sizes[j] <= AlignDown(vm.vmalloc_end, align)
    ensures !found ==> vm.area.Keys <= old(vm.area).Keys
    ensures found ==> exists l :: 0 <= l < |offsets| && offsets[l] + sizes[l] == Extent(offsets, sizes) && vm.pcpu_hole == base + offsets[l]
  {
    hide RbRoot.Valid, VmapSpace.Valid, Tracking, Sorted, Searching, NoneFits, AllAligned, Fits, Layout, AlignUp, AlignDown;
    hide Highest, Settled, SettledHole, Extent, StartBase, TopBelow, EndsUpTo;
    var last := LastArea(offsets);
    LastEndsAll(offsets, sizes, last);
    var last_end := offsets[last] + sizes[last];
    ExtentIs(offsets, sizes, last);
    ghost var v0, h0 := vm.Areas(), vm.pcpu_hole;
    found, base := false, 0;
    if AlignDown(vm.vmalloc_end, align) - AlignUp(vm.vmalloc_start, align) < last_end {
      TooShort(v0, h0, offsets, sizes, align, vm.vmalloc_start, vm.vmalloc_end);
      TooShort(Settled(v0), SettledHole(h0, v0, vm.vmalloc_start, vm.vmalloc_end), offsets, sizes, align, vm.vmalloc_start, vm.vmalloc_end);
      return;
    }
    if !mem_ok {
      return;
    }
    ghost var purged;
    found, base, purged := FindOrPurge(vm, offsets, sizes, align, last);
    if found {
      StartInWindow(vm.Areas(), vm.pcpu_hole, last_end, align, vm.vmalloc_end);
      if AllAligned(offsets, sizes, align) {
        HighestFits(vm.Areas(), vm.pcpu_hole, offsets, sizes, align, vm.vmalloc_start, vm.vmalloc_end, base);
      }
      InsertPieces(vm, vas, offsets, sizes, base);
      vm.pcpu_hole := base + offsets[last];
    }
  }

  lemma StartInWindow(v: seq<VmapArea>, hole: nat, extent: nat, align: nat, vend: nat)
    requires align > 0
    ensures StartBase(v, hole, extent, align, vend) + extent <= AlignDown(vend, align)
  {
  }
}
