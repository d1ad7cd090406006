/** The two ways in which alloc_vmap_area of mm/vmalloc.c leaves its window, as runs. */
module VmapLimits {
  import opened Align
  import opened Basics
  import opened RbNodes
  import opened RbTree
  import opened Vmap
  import opened VmapAreas
  import opened VmapScan

  lemma RoundsTo(x: nat)
    requires x < WORD && x % PAGE_SIZE == 0
    ensures Alignment(PAGE_SIZE) && RoundUp(x, PAGE_SIZE) == x
  {
    AlignUpSelf(x, PAGE_SIZE);
    RoundUpIs(x, PAGE_SIZE);
  }

  /** With no area at all, the first place is taken if it fits. */
  lemma NothingThere(c: nat, q: Request, res: ScanResult)
    requires Proper(q) && ScanOutcome([], c, q, res) && q.first + q.size <= q.vend
    ensures res == Fits(q.first)
  {
    assert Place(q.first, q) && !Blocked([], q.first, q);
  }

  /** The upper half of the address space, asked for from its first address, is handed out
      whatever the end of the window. */
  method UpperHalf(vend: nat) returns (r: AllocResult)
    requires vend < WORD
    ensures r == Searched(AtTop(WORD / 2))
  {
    var vm := new VmapSpace(0, vend);
    var va := new RbNode();
    RoundsTo(WORD / 2);
    ghost var c;
    r, c := vm.AllocVmapArea(va, WORD / 2, PAGE_SIZE, WORD / 2, vend);
    assert EndsAtTop([], c, Request(WORD / 2, PAGE_SIZE, WORD / 2, vend));
  }

  /** Where the scan of a space with one area starts. */
  lemma OneArea(vm: VmapSpace, addr: nat, end: nat)
    requires vm.Valid() && |vm.list| == 1 && vm.Areas()[0].va_end >= addr && vm.Areas()[0].va_start < end
    ensures forall c: nat :: vm.StartsAt(c, addr, end) ==> c == 0
  {
    hide RbRoot.Valid, Sorted;
    vm.Listed(0);
    OneNode(vm.root.tree, vm.list[0]);
  }

  lemma OneNode(t: Tree, n: RbNode)
    requires Inorder(t) == [n]
    ensures t.Node? && t.n == n && t.l == Nil && t.r == Nil
  {
    assert t.Node?;
    assert |Inorder(t.l)| + 1 + |Inorder(t.r)| == 1;
    assert t.l == Nil && t.r == Nil;
    assert Inorder(t)[0] == t.n;
  }

  const LAST_BUT_ONE: nat := WORD - 2 * PAGE_SIZE

  /** The last page but one of the address space is asked for twice: the second time the scan
      steps over the area of the first, and the page at address 0 is handed out. */
  method LastPages() returns (first: AllocResult, second: AllocResult)
    ensures first == Searched(Fits(LAST_BUT_ONE)) && second == Searched(AtBottom(0))
  {
    hide RbRoot.Valid, Sorted, VmapSpace.Valid, VmapSpace.StartsAt, Tracking, ScanOutcome, EndsLow, EndsAtTop, NoRoom, Kept, RoundUp;
    var vm := new VmapSpace(0, WORD - PAGE_SIZE);
    var va := new RbNode();
    RoundsTo(LAST_BUT_ONE);
    ghost var q := Request(PAGE_SIZE, PAGE_SIZE, LAST_BUT_ONE, WORD - PAGE_SIZE);
    ghost var c;
    first, c := vm.AllocVmapArea(va, PAGE_SIZE, PAGE_SIZE, LAST_BUT_ONE, WORD - PAGE_SIZE);
    NothingThere(c, q, if first.Busy? then Nowhere else first.place);
    ghost var a := VmapArea(LAST_BUT_ONE, WORD - PAGE_SIZE, false, false);
    assert vm.Areas() == [a];
    OneArea(vm, q.first, q.first + q.size);
    var vb := new RbNode();
    second, c := vm.AllocVmapArea(vb, PAGE_SIZE, PAGE_SIZE, LAST_BUT_ONE, WORD - PAGE_SIZE);
    AtTheEnd(a, q);
    MustWrap([a], c, q, if second.Busy? then Nowhere else second.place, 0);
  }

  lemma MustWrap(v: seq<VmapArea>, c: nat, q: Request, res: ScanResult, x: nat)
    requires q.align > 0 && ScanOutcome(v, c, q, res) && EndsLow(v, c, x, q)
    ensures res == AtBottom(x)
  {
  }

  lemma AtTheEnd(a: VmapArea, q: Request)
    requires a.va_start == LAST_BUT_ONE && a.va_end == WORD - PAGE_SIZE
    requires q == Request(PAGE_SIZE, PAGE_SIZE, LAST_BUT_ONE, WORD - PAGE_SIZE)
    ensures EndsLow([a], 0, 0, q)
  {
    AlignUpSelf(WORD, PAGE_SIZE);
    assert Stands([a], 0, 0, LAST_BUT_ONE, q);
    assert WrapsTo([a], 0, 0, LAST_BUT_ONE, 0, 0, q);
  }
}
