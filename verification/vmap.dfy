/** mm/vmalloc.c: the kernel virtual address allocator on top of the red-black tree. */
module Vmap {
  import opened Align
  import opened Basics
  import opened RbNodes
  import opened RbOrder
  import opened RbTree
  import opened VmapAreas
  import opened VmapScan

  /** The areas of the nodes of a list, in its order. */
  ghost function View(s: seq<RbNode>, area: map<RbNode, VmapArea>): (v: seq<VmapArea>)
    ensures |v| == |s|
    ensures forall i :: 0 <= i < |s| && s[i] in area ==> v[i] == area[s[i]]
  {
    seq(|s|, i requires 0 <= i < |s| => if s[i] in area then area[s[i]] else VmapArea(0, 0, false, false))
  }

  ghost function InsertAt(s: seq<RbNode>, k: nat, x: RbNode): seq<RbNode>
    requires k <= |s|
  {
    s[..k] + [x] + s[k..]
  }

  lemma PlaceUnique(s: seq<RbNode>, s': seq<RbNode>, x: RbNode, p: RbNode?, left: bool, k: nat)
    requires NoDup(s) && Beside(s, k, p, left) && InsertedBeside(s, s', x, p, left)
    ensures s' == InsertAt(s, k, x)
  {
  }

  lemma InsertSorted(s: seq<RbNode>, area: map<RbNode, VmapArea>, k: nat, x: RbNode, a: VmapArea)
    requires x !in s && (forall n :: n in s ==> n in area) && k <= |s|
    requires Sorted(View(s, area)) && Around(View(s, area), k, k, a) && a.va_start < a.va_end < WORD
    ensures View(InsertAt(s, k, x), area[x := a]) == View(s, area)[..k] + [a] + View(s, area)[k..]
    ensures Sorted(View(InsertAt(s, k, x), area[x := a]))
  {
    InsertView(s, area, k, x, a);
    InsertKeeps(View(s, area), k, a);
  }

  lemma InsertView(s: seq<RbNode>, area: map<RbNode, VmapArea>, k: nat, x: RbNode, a: VmapArea)
    requires x !in s && (forall n :: n in s ==> n in area) && k <= |s|
    ensures View(InsertAt(s, k, x), area[x := a]) == View(s, area)[..k] + [a] + View(s, area)[k..]
  {
  }

  lemma InsertKeeps(v: seq<VmapArea>, k: nat, a: VmapArea)
    requires Sorted(v) && Around(v, k, k, a) && a.va_start < a.va_end < WORD
    ensures k <= |v| && Sorted(v[..k] + [a] + v[k..])
  {
  }

  /** The walk down of alloc_vmap_area, mm/vmalloc.c:390-405, as a function of the tree: which
      areas are looked at depends on its shape. */
  ghost function Candidate(t: Tree, area: map<RbNode, VmapArea>, addr: nat, end: nat, first: RbNode?): RbNode? {
    if t.Nil? || t.n !in area then first
    else if area[t.n].va_end < addr then Candidate(t.r, area, addr, end, t.n)
    else Candidate(t.l, area, addr, end, if first == null && area[t.n].va_start < end then t.n else first)
  }

  lemma CandidateNext(t: Tree, area: map<RbNode, VmapArea>, addr: nat, end: nat, first: RbNode?)
    requires t.Node? ==> t.n in area
    ensures Candidate(t, area, addr, end, first) ==
      if t.Nil? then first else if area[t.n].va_end < addr then Candidate(t.r, area, addr, end, t.n)
      else Candidate(t.l, area, addr, end, if first == null && area[t.n].va_start < end then t.n else first)
  {
  }

  lemma PrevOfInserted(s: seq<RbNode>, k: nat, x: RbNode, y: RbNode?)
    requires k <= |s| && IsPrev(InsertAt(s, k, x), x, y)
    ensures y == if k > 0 then s[k - 1] else null
  {
    assert InsertAt(s, k, x)[k] == x;
  }

  /** What alloc_vmap_area comes to. */
  datatype AllocResult = NoMemory | Busy | Searched(place: ScanResult)

  predicate Granted(r: AllocResult) { r.Searched? && r.place.Fits? }

  /** What is promised: an aligned range inside the window that overlaps no area and leaves a
      page free after each, or an error because there is no memory or no room. */
  ghost predicate Kept(v: seq<VmapArea>, r: AllocResult, size: nat, align: nat, vstart: nat, vend: nat)
    requires align > 0
  {
    match r
    case NoMemory => true
    case Busy => NoRoom(v, Request(size, align, RoundUp(vstart, align), vend))
    case Searched(place) =>
      && !place.Nowhere? && place.addr % align == 0 && vstart <= place.addr && place.addr + size <= vend
      && !Blocked(v, place.addr, Request(size, align, RoundUp(vstart, align), vend))
      && ApartFrom(v, VmapArea(place.addr, place.addr + size, false, false))
  }

  lemma PromiseKept(v: seq<VmapArea>, c: nat, q: Request, vstart: nat, place: ScanResult)
    requires Sorted(v) && Proper(q) && vstart < WORD && q.first == RoundUp(vstart, q.align) && ScanOutcome(v, c, q, place)
    ensures Kept(v, if place.Nowhere? then Busy else Searched(place), q.size, q.align, vstart, q.vend) <==>
      && !EndsAtTop(v, c, q) && (forall x: nat :: !EndsLow(v, c, x, q))
      && (AlignUp(vstart, q.align) < WORD || NoRoom(v, q))
    ensures place.Fits? ==> place.addr + q.size < WORD && ApartFrom(v, VmapArea(place.addr, place.addr + q.size, false, false))
  {
    hide EndsAtTop, EndsLow, Blocked, BlockedBelow, AlignUp, RoundUp;
    if place.Fits? {
      UnblockedApart(v, VmapArea(place.addr, place.addr + q.size, false, false), q);
      FirstIsAbove(vstart, q.align, place.addr);
    } else if place.AtBottom? {
      assert EndsLow(v, c, place.addr, q);
      if vstart <= place.addr && place.addr % q.align == 0 {
        StartOrBelow(vstart, q.align, place.addr);
      }
    }
  }

  lemma StartOrBelow(vstart: nat, align: nat, addr: nat)
    requires Alignment(align) && vstart < WORD && addr % align == 0 && vstart <= addr
    ensures RoundUp(vstart, align) <= addr
  {
    RoundUpIs(vstart, align);
    AlignUpLeast(vstart, align, addr);
  }

  /** Rounding up the start of the window may wrap to 0. */
  lemma FirstIsAbove(vstart: nat, align: nat, addr: nat)
    requires Alignment(align) && vstart < WORD && addr < WORD && addr % align == 0 && RoundUp(vstart, align) <= addr
    ensures vstart <= addr <==> AlignUp(vstart, align) < WORD
  {
    RoundUpIs(vstart, align);
    if AlignUp(vstart, align) >= WORD {
      MultiplesApart(addr, WORD, align);
    }
  }

  // ---------- lazy freeing ----------

  function Pages(a: VmapArea): nat
  {
    if a.va_end < a.va_start then 0 else (a.va_end - a.va_start) / PAGE_SIZE
  }

  /** The pages of the areas flagged VM_LAZY_FREE. */
  function LazyPages(v: seq<VmapArea>): nat {
    if v == [] then 0
    else LazyPages(v[..|v| - 1]) + (if v[|v| - 1].lazy_free then Pages(v[|v| - 1]) else 0)
  }

  lemma {:induction false} LazyPagesAppend(v: seq<VmapArea>, w: seq<VmapArea>)
    ensures LazyPages(v + w) == LazyPages(v) + LazyPages(w)
  {
    if w == [] {
      assert v + w == v;
    } else {
      LazyPagesAppend(v, w[..|w| - 1]);
      assert (v + w)[..|v + w| - 1] == v + w[..|w| - 1];
    }
  }

  /** Putting an area in, or replacing one, changes the total by its own share. */
  lemma LazyPagesSplit(v: seq<VmapArea>, k: nat)
    requires k < |v|
    ensures LazyPages(v) == LazyPages(v[..k]) + LazyPages(v[k + 1..]) + (if v[k].lazy_free then Pages(v[k]) else 0)
  {
    assert v == v[..k] + ([v[k]] + v[k + 1..]);
    assert [v[k]][..0] == [];
    LazyPagesAppend(v[..k], [v[k]] + v[k + 1..]);
    LazyPagesAppend([v[k]], v[k + 1..]);
  }

  /** What happens to ranges over a run: handed out, freed by their owner, flushed. */
  datatype Event = Handed(lo: nat, hi: nat) | Freed(lo: nat, hi: nat) | Flushed(lo: nat, hi: nat)

  /** After event `i`, a flush covered `lo` up to `hi`. */
  ghost predicate Covered(log: seq<Event>, i: nat, lo: nat, hi: nat) {
    exists j :: i < j < |log| && log[j].Flushed? && log[j].lo <= lo && hi <= log[j].hi
  }

  /** The area is still in the tree and waits for a flush. */
  ghost predicate Waiting(area: map<RbNode, VmapArea>, flushed: set<RbNode>, lo: nat, hi: nat) {
    exists n :: n in area && n !in flushed && area[n].va_start == lo && area[n].va_end == hi
  }

  /** Every range ever freed has been flushed since, or is still in the tree. */
  ghost predicate Held(log: seq<Event>, area: map<RbNode, VmapArea>, flushed: set<RbNode>) {
    forall i :: 0 <= i < |log| && log[i].Freed? ==>
      Covered(log, i, log[i].lo, log[i].hi) || Waiting(area, flushed, log[i].lo, log[i].hi)
  }

  predicate Overlap(d: Event, e: Event) { d.lo < e.hi && e.lo < d.hi }

  /** No range was handed out after being freed without a flush of it in between. */
  ghost predicate FlushedBeforeReuse(log: seq<Event>) {
    forall i, g :: 0 <= i < g < |log| && log[i].Freed? && log[g].Handed? && Overlap(log[i], log[g]) ==>
      Covered(log[..g], i, log[i].lo, log[i].hi)
  }

  /** Covering is not undone by later events. */
  lemma CoveredGrows(log: seq<Event>, e: Event, i: nat, lo: nat, hi: nat)
    requires Covered(log, i, lo, hi)
    ensures Covered(log + [e], i, lo, hi)
  {
    var j :| i < j < |log| && log[j].Flushed? && log[j].lo <= lo && hi <= log[j].hi;
    assert (log + [e])[j] == log[j];
  }

  lemma HeldGrows(log: seq<Event>, e: Event, area: map<RbNode, VmapArea>, flushed: set<RbNode>)
    requires Held(log, area, flushed)
    requires e.Freed? ==> Waiting(area, flushed, e.lo, e.hi)
    ensures Held(log + [e], area, flushed)
  {
    forall i | 0 <= i < |log| && log[i].Freed? && Covered(log, i, log[i].lo, log[i].hi)
      ensures Covered(log + [e], i, log[i].lo, log[i].hi)
    {
      CoveredGrows(log, e, i, log[i].lo, log[i].hi);
    }
  }

  lemma HeldMoves(log: seq<Event>, area: map<RbNode, VmapArea>, f: set<RbNode>, area': map<RbNode, VmapArea>, f': set<RbNode>)
    requires Held(log, area, f)
    requires forall lo, hi :: Waiting(area, f, lo, hi) ==> Waiting(area', f', lo, hi)
    ensures Held(log, area', f')
  {
  }

  /** Events other than handing out keep the order of flush and reuse. */
  lemma ReuseGrows(log: seq<Event>, e: Event)
    requires FlushedBeforeReuse(log)
    requires e.Handed? ==> forall i :: 0 <= i < |log| && log[i].Freed? && Overlap(log[i], e) ==>
      Covered(log, i, log[i].lo, log[i].hi)
    ensures FlushedBeforeReuse(log + [e])
  {
    var l := log + [e];
    assert l[..|log|] == log;
    forall i, g | 0 <= i < g < |l| && l[i].Freed? && l[g].Handed? && Overlap(l[i], l[g])
      ensures Covered(l[..g], i, l[i].lo, l[i].hi)
    {
      assert l[i] == log[i];
      if g < |log| {
        assert l[..g] == log[..g] && l[g] == log[g];
      }
    }
  }

  /** Handing out a range that overlaps no area in the tree is safe. */
  lemma HandOut(log: seq<Event>, area: map<RbNode, VmapArea>, flushed: set<RbNode>, a: VmapArea)
    requires Held(log, area, flushed) && FlushedBeforeReuse(log)
    requires forall n :: n in area ==> area[n].va_end <= a.va_start || a.va_end <= area[n].va_start
    ensures FlushedBeforeReuse(log + [Handed(a.va_start, a.va_end)])
    ensures Held(log + [Handed(a.va_start, a.va_end)], area, flushed)
  {
    HeldGrows(log, Handed(a.va_start, a.va_end), area, flushed);
    ReuseGrows(log, Handed(a.va_start, a.va_end));
  }

  /** A flush that covers the areas of `purging` lets them go. */
  lemma FlushAll(log: seq<Event>, area: map<RbNode, VmapArea>, purging: set<RbNode>, lo: nat, hi: nat)
    requires Held(log, area, {}) && FlushedBeforeReuse(log)
    requires forall n :: n in purging && n in area ==> lo <= area[n].va_start && area[n].va_end <= hi
    ensures Held(log + [Flushed(lo, hi)], area, purging) && FlushedBeforeReuse(log + [Flushed(lo, hi)])
  {
    var e := Flushed(lo, hi);
    ReuseGrows(log, e);
    forall i | 0 <= i < |log| && log[i].Freed?
      ensures Covered(log + [e], i, log[i].lo, log[i].hi) || Waiting(area, purging, log[i].lo, log[i].hi)
    {
      if Covered(log, i, log[i].lo, log[i].hi) {
        CoveredGrows(log, e, i, log[i].lo, log[i].hi);
      } else {
        var n :| n in area && area[n].va_start == log[i].lo && area[n].va_end == log[i].hi;
        assert (log + [e])[|log|] == e;
      }
    }
  }

  ghost function ToSet(s: seq<RbNode>): set<RbNode> { set n | n in s }

  /** The bookkeeping of lazy freeing: `lazyNr` counts the pages that wait, `purging` are
      the areas a running purge has collected, and `flushed` says it has flushed them. */
  ghost predicate Tracking(log: seq<Event>, area: map<RbNode, VmapArea>, v: seq<VmapArea>, lazyNr: int,
                           purging: seq<RbNode>, flushed: bool)
  {
    && Held(log, area, if flushed then ToSet(purging) else {})
    && FlushedBeforeReuse(log)
    && lazyNr == LazyPages(v)
    && NoDup(purging)
    && (forall n :: n in purging ==> n in area && area[n].lazy_freeing && !area[n].lazy_free)
  }

  lemma TrackHandOut(log: seq<Event>, area: map<RbNode, VmapArea>, v: seq<VmapArea>, lazyNr: int,
                     purging: seq<RbNode>, flushed: bool, n: RbNode, a: VmapArea, k: nat)
    requires Tracking(log, area, v, lazyNr, purging, flushed)
    requires n !in area && !a.lazy_free && !a.lazy_freeing && k <= |v|
    requires forall m :: m in area ==> area[m].va_end <= a.va_start || a.va_end <= area[m].va_start
    ensures Tracking(log + [Handed(a.va_start, a.va_end)], area[n := a], v[..k] + [a] + v[k..], lazyNr, purging, flushed)
  {
    var f := if flushed then ToSet(purging) else {};
    HandOut(log, area, f, a);
    forall i | 0 <= i < |log| && Waiting(area, f, log[i].lo, log[i].hi)
      ensures Waiting(area[n := a], f, log[i].lo, log[i].hi)
    {
      var m :| m in area && m !in f && area[m].va_start == log[i].lo && area[m].va_end == log[i].hi;
      assert m in area[n := a] && area[n := a][m] == area[m];
    }
    var w := v[..k] + [a] + v[k..];
    LazyPagesSplit(w, k);
    assert w[..k] == v[..k] && w[k + 1..] == v[k..] && v == v[..k] + v[k..];
    LazyPagesAppend(v[..k], v[k..]);
  }

  lemma TrackFree(log: seq<Event>, area: map<RbNode, VmapArea>, v: seq<VmapArea>, lazyNr: int,
                  purging: seq<RbNode>, flushed: bool, n: RbNode, k: nat)
    requires Tracking(log, area, v, lazyNr, purging, flushed)
    requires n in area && !area[n].lazy_free && !area[n].lazy_freeing && k < |v| && v[k] == area[n]
    ensures var a := area[n].(lazy_free := true);
      Tracking(log + [Freed(a.va_start, a.va_end)], area[n := a], v[k := a], lazyNr + Pages(a), purging, flushed)
  {
    var f := if flushed then ToSet(purging) else {};
    var a := area[n].(lazy_free := true);
    forall lo, hi | Waiting(area, f, lo, hi)
      ensures Waiting(area[n := a], f, lo, hi)
    {
      var m :| m in area && m !in f && area[m].va_start == lo && area[m].va_end == hi;
      assert m in area[n := a] && area[n := a][m].va_start == lo;
    }
    assert n !in f && n in area[n := a];
    HeldGrows(log, Freed(a.va_start, a.va_end), area[n := a], f);
    ReuseGrows(log, Freed(a.va_start, a.va_end));
    LazyPagesSplit(v, k);
    LazyPagesSplit(v[k := a], k);
    assert v[k := a][..k] == v[..k] && v[k := a][k + 1..] == v[k + 1..];
  }

  /** The ends of the areas flagged VM_LAZY_FREE, in address order. */
  function LazyEnds(v: seq<VmapArea>): seq<nat> {
    if v == [] then [] else LazyEnds(v[..|v| - 1]) + (if v[|v| - 1].lazy_free then [v[|v| - 1].va_end] else [])
  }

  /** The areas that are not. */
  function Unflagged(v: seq<VmapArea>): seq<VmapArea> {
    if v == [] then [] else Unflagged(v[..|v| - 1]) + (if v[|v| - 1].lazy_free then [] else [v[|v| - 1]])
  }

  lemma {:induction false} UnflaggedAre(v: seq<VmapArea>)
    ensures forall a :: a in Unflagged(v) <==> a in v && !a.lazy_free
  {
    if v != [] {
      UnflaggedAre(v[..|v| - 1]);
      assert v == v[..|v| - 1] + [v[|v| - 1]];
    }
  }

  lemma {:induction false} UnflaggedSorted(v: seq<VmapArea>)
    requires Sorted(v)
    ensures Sorted(Unflagged(v))
  {
    hide Sorted;
    if v == [] {
      assert Unflagged(v) == v;
    } else {
      var n := |v| - 1;
      SortedLess(v, n);
      UnflaggedSorted(v[..n]);
      UnflaggedAre(v[..n]);
      SortedMore(Unflagged(v[..n]), v, n);
      assert Unflagged(v[..n]) + [] == Unflagged(v[..n]);
    }
  }

  lemma SortedLess(v: seq<VmapArea>, n: nat)
    requires Sorted(v) && n <= |v|
    ensures Sorted(v[..n])
  {
  }

  lemma SortedMore(u: seq<VmapArea>, v: seq<VmapArea>, n: nat)
    requires Sorted(u) && Sorted(v) && n < |v| && forall a :: a in u ==> a in v[..n]
    ensures Sorted(u + [v[n]])
  {
    forall i | 0 <= i < |u|
      ensures u[i].va_end <= v[n].va_start
    {
      assert u[i] in v[..n];
    }
  }

  /** The areas after a purge: those that wait for a flush go, unless they come to no page. */
  function Settled(v: seq<VmapArea>): seq<VmapArea> {
    if LazyPages(v) > 0 then Unflagged(v) else seq(|v|, i requires 0 <= i < |v| => Collect(v[i]))
  }

  /** The highest possible candidate for a percpu area: mm/vmalloc.c:152-153 */
  function Raise(hole: nat, end: nat, vstart: nat, vend: nat): (r: nat)
    ensures r >= hole && (vstart < end <= vend ==> r >= end) && (r == hole || (vstart < end <= vend && r == end))
  {
    if end > vstart && end <= vend && end > hole then end else hole
  }

  function RaiseAll(hole: nat, ends: seq<nat>, vstart: nat, vend: nat): nat {
    if ends == [] then hole
    else Raise(RaiseAll(hole, ends[..|ends| - 1], vstart, vend), ends[|ends| - 1], vstart, vend)
  }

  lemma {:induction false} RaiseAllIs(hole: nat, ends: seq<nat>, vstart: nat, vend: nat)
    ensures var r := RaiseAll(hole, ends, vstart, vend);
      && r >= hole && (forall e :: e in ends && vstart < e <= vend ==> r >= e)
      && (r == hole || (r in ends && vstart < r <= vend))
  {
    if ends != [] {
      var n := |ends| - 1;
      RaiseAllIs(hole, ends[..n], vstart, vend);
      assert ends == ends[..n] + [ends[n]];
    }
  }

  /** The candidate was raised by the areas that went: it is the highest of what it was and
      their ends inside the window. */
  ghost predicate RaisedBy(hole: nat, hole': nat, gone: set<RbNode>, area: map<RbNode, VmapArea>, vstart: nat, vend: nat) {
    && hole' >= hole
    && (forall n :: n in gone && n in area && vstart < area[n].va_end <= vend ==> hole' >= area[n].va_end)
    && (hole' == hole || exists n :: n in gone && n in area && vstart < area[n].va_end <= vend && hole' == area[n].va_end)
  }

  lemma RaisedSame(hole: nat, hole': nat, gone: set<RbNode>, gone': set<RbNode>, area: map<RbNode, VmapArea>, vstart: nat, vend: nat)
    requires RaisedBy(hole, hole', gone, area, vstart, vend) && forall n :: n in area ==> (n in gone <==> n in gone')
    ensures RaisedBy(hole, hole', gone', area, vstart, vend)
  {
  }

  lemma NotRaised(hole: nat, area: map<RbNode, VmapArea>, vstart: nat, vend: nat)
    ensures RaisedBy(hole, hole, {}, area, vstart, vend)
  {
  }

  /** Where the flagged areas come to no page, each is smaller than one. */
  lemma NoPageLazy(s: seq<RbNode>, area: map<RbNode, VmapArea>)
    requires (forall n :: n in s <==> n in area) && LazyPages(View(s, area)) == 0
    ensures forall n :: n in area && area[n].lazy_free ==> area[n].va_end - area[n].va_start < PAGE_SIZE
  {
    forall n | n in area && area[n].lazy_free
      ensures area[n].va_end - area[n].va_start < PAGE_SIZE
    {
      var i :| 0 <= i < |s| && s[i] == n;
      PagesCounted(View(s, area), i);
    }
  }

  lemma {:induction false} PagesCounted(v: seq<VmapArea>, i: nat)
    requires i < |v| && v[i].lazy_free
    ensures LazyPages(v) >= Pages(v[i])
  {
    if i < |v| - 1 {
      PagesCounted(v[..|v| - 1], i);
    }
  }

  lemma RaisedByEnds(hole: nat, s: seq<RbNode>, area: map<RbNode, VmapArea>, vstart: nat, vend: nat)
    ensures RaisedBy(hole, RaiseAll(hole, Ends(s, area), vstart, vend), ToSet(s), area, vstart, vend)
  {
    hide RaiseAll;
    var ends := Ends(s, area);
    RaiseAllIs(hole, ends, vstart, vend);
    var r := RaiseAll(hole, ends, vstart, vend);
    forall n | n in ToSet(s) && n in area && vstart < area[n].va_end <= vend
      ensures r >= area[n].va_end
    {
      var i :| 0 <= i < |s| && s[i] == n;
      assert ends[i] in ends;
    }
    if r != hole {
      var i :| 0 <= i < |ends| && ends[i] == r;
      assert s[i] in ToSet(s);
    }
  }

  /** The candidate after a purge. */
  function SettledHole(hole: nat, v: seq<VmapArea>, vstart: nat, vend: nat): nat {
    if LazyPages(v) > 0 then RaiseAll(hole, LazyEnds(v), vstart, vend) else hole
  }

  ghost function Ends(s: seq<RbNode>, area: map<RbNode, VmapArea>): (e: seq<nat>)
    ensures |e| == |s|
  {
    seq(|s|, i requires 0 <= i < |s| => if s[i] in area then area[s[i]].va_end else 0)
  }

  lemma {:induction false} EndsOfLazies(s: seq<RbNode>, area: map<RbNode, VmapArea>)
    requires forall n :: n in s ==> n in area
    ensures Ends(Lazies(s, area), area) == LazyEnds(View(s, area))
  {
    if s != [] {
      var n := |s| - 1;
      EndsOfLazies(s[..n], area);
      assert View(s, area)[..n] == View(s[..n], area);
    }
  }

  /** What the nodes that are left stand for. */
  lemma SettledView(s: seq<RbNode>, area: map<RbNode, VmapArea>, s': seq<RbNode>, area': map<RbNode, VmapArea>)
    requires (forall n :: n in s <==> n in area) && (forall n :: n in s' <==> n in area') && NoDup(s)
    requires area' == area - ToSet(Lazies(s, area)) && Sorted(View(s, area)) && Sorted(View(s', area'))
    ensures View(s', area') == Unflagged(View(s, area))
  {
    hide Sorted, View, NoDup, Lazies, Unflagged;
    var v, w := View(s, area), View(s', area');
    UnflaggedAre(v);
    UnflaggedSorted(v);
    LaziesAre(s, area, Lazies(s, area));
    forall a
      ensures a in w <==> a in Unflagged(v)
    {
      InView(s, area, a);
      InView(s', area', a);
      if n :| n in s && area[n] == a && !a.lazy_free {
        assert n in s' && area'[n] == a;
      }
      if n :| n in s' && area'[n] == a {
        assert n in s && area[n] == a && !a.lazy_free;
      }
    }
    SortedUnique(w, Unflagged(v));
  }

  lemma InView(s: seq<RbNode>, area: map<RbNode, VmapArea>, a: VmapArea)
    requires forall n :: n in s ==> n in area
    ensures a in View(s, area) <==> exists n :: n in s && area[n] == a
  {
    var v := View(s, area);
    if a in v {
      var i :| 0 <= i < |v| && v[i] == a;
      assert s[i] in s && area[s[i]] == a;
    }
    if n :| n in s && area[n] == a {
      var i :| 0 <= i < |s| && s[i] == n;
      assert v[i] == a;
    }
  }

  lemma CollectedView(s: seq<RbNode>, area: map<RbNode, VmapArea>, area': map<RbNode, VmapArea>)
    requires (forall n :: n in s ==> n in area) && Collected(area, area')
    ensures View(s, area') == seq(|s|, i requires 0 <= i < |s| => Collect(View(s, area)[i]))
  {
  }

  lemma SameEnds(s: seq<RbNode>, area: map<RbNode, VmapArea>, area': map<RbNode, VmapArea>)
    requires Collected(area, area')
    ensures Ends(s, area') == Ends(s, area)
  {
  }

  /** The flags of a collected area. */
  function Collect(a: VmapArea): VmapArea {
    if a.lazy_free then a.(lazy_free := false, lazy_freeing := true) else a
  }

  /** The nodes of `s` flagged VM_LAZY_FREE, in order. */
  function Lazies(s: seq<RbNode>, area: map<RbNode, VmapArea>): seq<RbNode> {
    if s == [] then []
    else Lazies(s[..|s| - 1], area) + (if s[|s| - 1] in area && area[s[|s| - 1]].lazy_free then [s[|s| - 1]] else [])
  }

  lemma {:induction false} LaziesAre(s: seq<RbNode>, area: map<RbNode, VmapArea>, p: seq<RbNode>)
    requires NoDup(s) && p == Lazies(s, area)
    ensures forall n :: n in p <==> n in s && n in area && area[n].lazy_free
    ensures NoDup(p)
  {
    if s != [] {
      LaziesAre(s[..|s| - 1], area, Lazies(s[..|s| - 1], area));
    }
  }

  lemma {:induction false} NoLazyPages(v: seq<VmapArea>)
    requires forall i :: 0 <= i < |v| ==> !v[i].lazy_free
    ensures LazyPages(v) == 0
  {
    if v != [] {
      NoLazyPages(v[..|v| - 1]);
    }
  }

  /** `area'` is `area` after the collecting walk. */
  ghost predicate Collected(area: map<RbNode, VmapArea>, area': map<RbNode, VmapArea>) {
    area'.Keys == area.Keys && forall n :: n in area ==> area'[n] == Collect(area[n])
  }

  lemma WaitCollected(area: map<RbNode, VmapArea>, area': map<RbNode, VmapArea>, lo: nat, hi: nat)
    requires Collected(area, area') && Waiting(area, {}, lo, hi)
    ensures Waiting(area', {}, lo, hi)
  {
  }

  lemma TrackCollect(log: seq<Event>, area: map<RbNode, VmapArea>, area': map<RbNode, VmapArea>, s: seq<RbNode>,
                     lazyNr: int, purging: seq<RbNode>)
    requires Tracking(log, area, View(s, area), lazyNr, [], false)
    requires NoDup(s) && (forall n :: n in s ==> n in area) && Collected(area, area')
    requires purging == Lazies(s, area)
    ensures Tracking(log, area', View(s, area'), lazyNr - LazyPages(View(s, area)), purging, false)
  {
    forall lo, hi | Waiting(area, {}, lo, hi)
      ensures Waiting(area', {}, lo, hi)
    {
      WaitCollected(area, area', lo, hi);
    }
    HeldMoves(log, area, {}, area', {});
    LaziesAre(s, area, purging);
    NoLazyPages(View(s, area'));
  }

  /** Without the areas it collected, the walk changed nothing. */
  lemma CollectedRest(s: seq<RbNode>, area: map<RbNode, VmapArea>, area': map<RbNode, VmapArea>, purging: seq<RbNode>)
    requires NoDup(s) && (forall n :: n in s <==> n in area) && Collected(area, area')
    requires purging == Lazies(s, area)
    ensures area' - ToSet(purging) == area - ToSet(purging)
  {
    LaziesAre(s, area, purging);
  }

  lemma OthersKept(s: seq<RbNode>, area: map<RbNode, VmapArea>, purging: seq<RbNode>)
    requires NoDup(s) && purging == Lazies(s, area) && forall n :: n in s <==> n in area
    ensures forall n :: n in area && !area[n].lazy_free ==>
      n in area - ToSet(purging) && (area - ToSet(purging))[n] == area[n]
    ensures forall n :: n in area ==> (n in area - ToSet(purging) <==> !area[n].lazy_free)
  {
    LaziesAre(s, area, purging);
  }

  lemma UnflaggedKept(area: map<RbNode, VmapArea>, area': map<RbNode, VmapArea>)
    requires Collected(area, area')
    ensures forall n :: n in area && !area[n].lazy_free ==> n in area' && area'[n] == area[n]
  {
  }

  /** A range that contains the one given and all flagged areas, and is no wider than that. */
  ghost predicate Bounds(area: map<RbNode, VmapArea>, start0: nat, end0: nat, start: nat, end: nat) {
    && start <= start0 && end >= end0
    && (forall n :: n in area && area[n].lazy_free ==> start <= area[n].va_start && area[n].va_end <= end)
    && (start == start0 || StartOfOne(area, start)) && (end == end0 || EndOfOne(area, end))
  }

  ghost predicate StartOfOne(area: map<RbNode, VmapArea>, x: nat) { exists n :: n in area && area[n].lazy_free && area[n].va_start == x }

  ghost predicate EndOfOne(area: map<RbNode, VmapArea>, x: nat) { exists n :: n in area && area[n].lazy_free && area[n].va_end == x }

  lemma OfOne(area: map<RbNode, VmapArea>, n: RbNode)
    requires n in area && area[n].lazy_free
    ensures StartOfOne(area, area[n].va_start) && EndOfOne(area, area[n].va_end)
  {
  }

  /** The state of the collecting walk after `i` areas. */
  ghost predicate Collecting(s: seq<RbNode>, area0: map<RbNode, VmapArea>, area: map<RbNode, VmapArea>, i: nat,
                             purging: seq<RbNode>, start: nat, end: nat, nr: nat)
  {
    && i <= |s| && area.Keys == area0.Keys && (forall n :: n in s ==> n in area0)
    && (forall j :: 0 <= j < |s| ==> area[s[j]] == if j < i then Collect(area0[s[j]]) else area0[s[j]])
    && purging == Lazies(s[..i], area0) && nr == LazyPages(View(s, area0)[..i])
    && (forall j :: 0 <= j < i && area0[s[j]].lazy_free ==> start <= area0[s[j]].va_start && area0[s[j]].va_end <= end)
  }

  lemma CollectOne(s: seq<RbNode>, area0: map<RbNode, VmapArea>, area: map<RbNode, VmapArea>, i: nat,
                   purging: seq<RbNode>, start: nat, end: nat, nr: nat, start': nat, end': nat)
    requires Collecting(s, area0, area, i, purging, start, end, nr) && i < |s| && NoDup(s)
    requires start' <= start && end <= end'
    requires area[s[i]].lazy_free ==> start' <= area[s[i]].va_start && area[s[i]].va_end <= end'
    ensures area[s[i]].lazy_free ==>
      Collecting(s, area0, area[s[i] := Collect(area[s[i]])], i + 1, purging + [s[i]], start', end', nr + Pages(area[s[i]]))
    ensures !area[s[i]].lazy_free ==> Collecting(s, area0, area, i + 1, purging, start', end', nr)
  {
    var v := View(s, area0);
    assert s[..i + 1][..i] == s[..i] && v[..i + 1][..i] == v[..i];
  }

  lemma CollectStart(s: seq<RbNode>, area: map<RbNode, VmapArea>, start: nat, end: nat)
    requires forall n :: n in s ==> n in area
    ensures Collecting(s, area, area, 0, [], start, end, 0)
  {
  }

  lemma CollectBounds(s: seq<RbNode>, area0: map<RbNode, VmapArea>, area: map<RbNode, VmapArea>,
                      purging: seq<RbNode>, start: nat, end: nat, nr: nat, start0: nat, end0: nat)
    requires Collecting(s, area0, area, |s|, purging, start, end, nr) && forall n :: n in s <==> n in area0
    requires start <= start0 && end >= end0 && (start == start0 || StartOfOne(area0, start)) && (end == end0 || EndOfOne(area0, end))
    ensures Bounds(area0, start0, end0, start, end)
  {
    forall n | n in area0 && area0[n].lazy_free
      ensures start <= area0[n].va_start && area0[n].va_end <= end
    {
      var j :| 0 <= j < |s| && s[j] == n;
    }
  }

  lemma CollectAt(s: seq<RbNode>, area0: map<RbNode, VmapArea>, area: map<RbNode, VmapArea>, i: nat,
                  purging: seq<RbNode>, start: nat, end: nat, nr: nat)
    requires Collecting(s, area0, area, i, purging, start, end, nr) && i < |s|
    ensures s[i] in area0 && s[i] in area && area[s[i]] == area0[s[i]]
  {
  }

  lemma CollectEnd(s: seq<RbNode>, area0: map<RbNode, VmapArea>, area: map<RbNode, VmapArea>,
                   purging: seq<RbNode>, start: nat, end: nat, nr: nat)
    requires Collecting(s, area0, area, |s|, purging, start, end, nr) && NoDup(s)
    requires forall n :: n in s <==> n in area0
    ensures Collected(area0, area) && purging == Lazies(s, area0) && nr == LazyPages(View(s, area0))
    ensures forall n :: n in purging ==> n in area && start <= area[n].va_start && area[n].va_end <= end
  {
    assert s[..|s|] == s && View(s, area0)[..|s|] == View(s, area0);
    LaziesAre(s, area0, purging);
    forall n | n in area0
      ensures area[n] == Collect(area0[n])
      ensures area0[n].lazy_free ==> start <= area[n].va_start && area[n].va_end <= end
    {
      var j :| 0 <= j < |s| && s[j] == n;
    }
  }

  lemma CollectSorted(s: seq<RbNode>, area: map<RbNode, VmapArea>, area': map<RbNode, VmapArea>)
    requires (forall n :: n in s ==> n in area) && Collected(area, area') && Sorted(View(s, area))
    ensures Sorted(View(s, area'))
  {
  }

  /** A purge that frees nothing forgets what it collected: the areas stay in the tree. */
  lemma TrackForget(log: seq<Event>, area: map<RbNode, VmapArea>, v: seq<VmapArea>, lazyNr: int,
                    purging: seq<RbNode>, flushed: bool)
    requires Tracking(log, area, v, lazyNr, purging, flushed)
    ensures Tracking(log, area, v, lazyNr, [], false)
    ensures lazyNr == LazyPages(v)
  {
  }

  lemma TrackFlush(log: seq<Event>, area: map<RbNode, VmapArea>, v: seq<VmapArea>, lazyNr: int,
                   purging: seq<RbNode>, lo: nat, hi: nat)
    requires Tracking(log, area, v, lazyNr, purging, false)
    requires forall n :: n in purging ==> lo <= area[n].va_start && area[n].va_end <= hi
    ensures Tracking(log + [Flushed(lo, hi)], area, v, lazyNr, purging, true)
  {
    FlushAll(log, area, ToSet(purging), lo, hi);
  }

  lemma TrackRelease(log: seq<Event>, area: map<RbNode, VmapArea>, v: seq<VmapArea>, lazyNr: int,
                     purging: seq<RbNode>, k: nat)
    requires Tracking(log, area, v, lazyNr, purging, true) && purging != []
    requires k < |v| && v[k] == area[purging[0]]
    ensures Tracking(log, area - {purging[0]}, v[..k] + v[k + 1..], lazyNr, purging[1..], true)
  {
    var n, f, f' := purging[0], ToSet(purging), ToSet(purging[1..]);
    forall lo, hi | Waiting(area, f, lo, hi)
      ensures Waiting(area - {n}, f', lo, hi)
    {
      var m :| m in area && m !in f && area[m].va_start == lo && area[m].va_end == hi;
      assert m in area - {n} && m !in f';
    }
    LazyPagesSplit(v, k);
    LazyPagesAppend(v[..k], v[k + 1..]);
  }

  ghost function RemoveAt(s: seq<RbNode>, k: nat): seq<RbNode>
    requires k < |s|
  {
    s[..k] + s[k + 1..]
  }

  lemma RemoveView(s: seq<RbNode>, area: map<RbNode, VmapArea>, k: nat)
    requires NoDup(s) && k < |s| && (forall n :: n in s ==> n in area)
    ensures View(RemoveAt(s, k), area - {s[k]}) == View(s, area)[..k] + View(s, area)[k + 1..]
  {
  }

  /** Changing only the flags of an area. */
  lemma ReplaceView(s: seq<RbNode>, area: map<RbNode, VmapArea>, k: nat, a: VmapArea)
    requires NoDup(s) && k < |s| && (forall n :: n in s ==> n in area) && Sorted(View(s, area))
    requires a.va_start == area[s[k]].va_start && a.va_end == area[s[k]].va_end
    ensures View(s, area[s[k] := a]) == View(s, area)[k := a]
    ensures Sorted(View(s, area[s[k] := a])) && View(s, area)[k].va_start < View(s, area)[k].va_end
  {
  }

  lemma WithoutRemoves(s: seq<RbNode>, k: nat)
    requires NoDup(s) && k < |s|
    ensures Without(s, s[k]) == RemoveAt(s, k)
  {
    assert s == s[..k] + [s[k]] + s[k + 1..];
    WithoutAt(s[..k], s[k], s[k + 1..]);
  }

  class VmapSpace {
    /** vmap_area_root, and vmap_area_list with the areas that embed the tree's nodes. */
    const root: RbRoot
    var area: map<RbNode, VmapArea>
    var list: seq<RbNode>
    /** The bounds of the vmalloc window, and vmap_area_pcpu_hole. */
    const vmalloc_start: nat
    const vmalloc_end: nat
    var pcpu_hole: nat
    /** vmap_lazy_nr; the areas a running purge has collected (its `valist`). */
    var lazy_nr: int
    var purging: seq<RbNode>
    /** Whether the running purge has flushed, and what happened to ranges so far. */
    ghost var flushed: bool
    ghost var log: seq<Event>

    constructor (vmalloc_start: nat, vmalloc_end: nat)
      ensures Valid() && Tracked() && fresh(root) && Areas() == [] && root.pool == {} && purging == [] && !flushed
      ensures this.vmalloc_start == vmalloc_start && this.vmalloc_end == vmalloc_end && pcpu_hole == vmalloc_end
    {
      this.vmalloc_start, this.vmalloc_end, pcpu_hole := vmalloc_start, vmalloc_end, vmalloc_end;
      root := new RbRoot();
      area, list, lazy_nr, purging, flushed, log := map[], [], 0, [], false, [];
    }

    /** The tree's in-order sequence is the list, sorted by address without overlaps. */
    ghost predicate Valid()
      reads `area, `list, root, root.pool
    {
      && root.Valid()
      && area.Keys == root.pool
      && list == root.Nodes()
      && Sorted(View(list, area))
    }

    ghost predicate Tracked()
      requires Valid()
      reads `area, `list, `log, `lazy_nr, `purging, `flushed, root, root.pool
    {
      Tracking(log, area, Areas(), lazy_nr, purging, flushed)
    }

    ghost function Areas(): seq<VmapArea>
      requires Valid()
      reads `area, `list, root, root.pool
    {
      View(list, area)
    }

    /** Where `a` belongs: the walk down of mm/vmalloc.c:324-335 */
    method FindPlace(a: VmapArea) returns (parent: RbNode?, left: bool, ghost k: nat)
      requires Valid()
      requires a.va_start < a.va_end
      requires ApartFrom(Areas(), a)
      ensures parent == null ==> root.rb_node == null
      ensures parent != null ==> parent in root.pool && (if left then parent.left else parent.right) == null
      ensures Beside(list, k, parent, left)
      ensures Around(Areas(), k, k, a)
    {
      hide RbRoot.Valid, Sorted, ApartFrom;
      parent, left := null, false;
      var p := root.rb_node;
      ghost var lo, hi, v := 0, |list|, Areas();
      root.RootSpan();
      while p != null
        invariant if p == null then lo == hi else p in root.pool && root.SpanOf(p) == (lo, hi)
        invariant Around(v, lo, hi, a)
        invariant parent == null ==> p == root.rb_node
        invariant parent != null ==> parent in root.pool && (if left then parent.left else parent.right) == p
        invariant parent != null ==> if left then hi < |list| && list[hi] == parent else lo > 0 && list[lo - 1] == parent
        decreases hi - lo
      {
        parent := p;
        ghost var mid := root.Children(p);
        NarrowAround(v, lo, mid, hi, a);
        assert list[mid] == p && v[mid] == area[p];
        var tmp := area[p];
        if a.va_start < tmp.va_end {
          left, p := true, p.left;
          hi := mid;
        } else if a.va_end > tmp.va_start {
          left, p := false, p.right;
          lo := mid + 1;
        } else {
          assert false;
        }
      }
      k := lo;
    }

    /** The tree part of __insert_vmap_area: mm/vmalloc.c:320-337 */
    method LinkIntoTree(node: RbNode, a: VmapArea) returns (ghost k: nat)
      requires Valid() && node !in root.pool
      requires a.va_start < a.va_end < WORD && ApartFrom(Areas(), a)
      modifies `area, root, node, root.pool
      ensures root.Valid() && root.pool == old(root.pool) + {node}
      ensures area == old(area)[node := a] && area.Keys == root.pool
      ensures k <= |list| && NoDup(list) && node !in list
      ensures root.Nodes() == InsertAt(list, k, node)
      ensures Sorted(View(InsertAt(list, k, node), area))
      ensures View(InsertAt(list, k, node), area) == old(Areas())[..k] + [a] + old(Areas())[k..]
    {
      hide RbRoot.Valid;
      var parent, left;
      parent, left, k := FindPlace(a);
      root.NodesNoDup();
      InsertSorted(list, area, k, node, a);
      area := area[node := a];
      root.Insert(node, parent, left);
      PlaceUnique(list, root.Nodes(), node, parent, left, k);
    }

    /** list_add_rcu of `node` after `prev`, or at the head. */
    method ListAdd(prev: RbNode?, node: RbNode, ghost k: nat)
      requires NoDup(list) && k <= |list|
      requires prev == if k > 0 then list[k - 1] else null
      modifies `list
      ensures list == InsertAt(old(list), k, node)
    {
      if prev != null {
        var i :| 0 <= i < |list| && list[i] == prev;
        assert i == k - 1;
        list := list[..i + 1] + [node] + list[i + 1..];
      } else {
        list := [node] + list;
      }
    }

    /** __insert_vmap_area: mm/vmalloc.c:318-348.  The address-sorted list is kept by
        linking the new area after its in-order predecessor. */
    method InsertVmapArea(node: RbNode, a: VmapArea) returns (ghost k: nat)
      requires Valid() && node !in root.pool
      requires a.va_start < a.va_end < WORD && ApartFrom(Areas(), a)
      modifies `area, `list, root, node, root.pool
      ensures Valid() && root.pool == old(root.pool) + {node}
      ensures area == old(area)[node := a]
      ensures k <= |old(list)| && Areas() == old(Areas())[..k] + [a] + old(Areas())[k..]
    {
      hide RbRoot.Valid, Sorted;
      k := LinkIntoTree(node, a);
      var tmp := root.Prev(node);
      PrevOfInserted(list, k, node, tmp);
      ListAdd(tmp, node, k);
    }

    /** The position from which the scan starts: that of the candidate, or the one after it
        when it ends below `addr`. */
    ghost predicate StartsAt(c: nat, addr: nat, end: nat)
      reads `area, `list, root`tree
    {
      var first := Candidate(root.tree, area, addr, end, null);
      c <= |list| && (forall i :: c <= i < |list| && list[i] in area ==> area[list[i]].va_end >= addr)
      && if first == null then forall i :: 0 <= i < c && list[i] in area ==> area[list[i]].va_end < addr
         else if first in area && area[first].va_end < addr then c > 0 && list[c - 1] == first
         else c < |list| && list[c] == first
    }

    /** The tree walk of mm/vmalloc.c:390-405: an area from which to start the scan. */
    method FirstCandidate(addr: nat, end: nat) returns (first: RbNode?, ghost k: nat)
      requires Valid()
      ensures first == Candidate(root.tree, area, addr, end, null)
      ensures if first == null then k <= |list| && Splits(Areas(), k, addr) && (k < |list| ==> Areas()[k].va_start >= end)
        else k < |list| && list[k] == first
      ensures first != null && Areas()[k].va_end < addr ==> Splits(Areas(), k + 1, addr)
      ensures first != null && Areas()[k].va_end >= addr ==>
        Areas()[k].va_start < end && EndsFrom(Areas(), k, addr)
    {
      hide RbRoot.Valid, Repr, Candidate, Sorted, Narrowing, Splits, EndsFrom;
      var n := root.rb_node;
      first := null;
      ghost var lo: nat, hi: nat, v := 0, |list|, Areas();
      ghost var t, p := root.tree, null;
      k := 0;
      root.RootSpan();
      root.TreeHeld();
      NarrowBegin(v, addr, end);
      while n != null
        invariant if n == null then lo == hi else n in root.pool && root.SpanOf(n) == (lo, hi)
        invariant n == Top(t) && Repr(root.Memory(), t, p)
        invariant Candidate(root.tree, area, addr, end, null) == Candidate(t, area, addr, end, first)
        invariant lo <= hi <= |list| && Narrowing(v, lo, hi, first != null, k, addr, end)
        invariant first != null ==> k < |list| && list[k] == first
        decreases hi - lo
      {
        ghost var mid := root.Children(n);
        Listed(mid);
        NarrowStep(v, lo, mid, hi, first != null, k, addr, end);
        var tmp := area[n];
        ReprKids(root.Memory(), t, p);
        CandidateNext(t, area, addr, end, first);
        p := n;
        if tmp.va_end >= addr {
          if first == null && tmp.va_start < end {
            first, k := n, mid;
          }
          n, hi, t := n.left, mid, t.l;
        } else {
          first, k := n, mid;
          n, lo, t := n.right, mid + 1, t.r;
        }
      }
      CandidateNext(t, area, addr, end, first);
      NarrowEnd(v, lo, first != null, k, addr, end);
      if first == null {
        k := lo;
      }
    }

    /** The candidate, or the area after it when it ends too low: mm/vmalloc.c:390-416.  The scan
        starts from there. */
    method FindStart(addr: nat, end: nat) returns (first: RbNode?, ghost k: nat)
      requires Valid()
      ensures StartsAt(k, addr, end) && k <= |list|
      ensures if first == null then Splits(Areas(), k, addr) && (k < |list| ==> Areas()[k].va_start >= end)
        else k < |list| && list[k] == first && first in area && area[first] == Areas()[k]
      ensures Splits(Areas(), k, addr) || (k < |list| && EndsFrom(Areas(), k, addr) && Areas()[k].va_start < end)
    {
      hide RbRoot.Valid, Sorted, Candidate;
      first, k := FirstCandidate(addr, end);
      if first != null {
        Listed(k);
        if area[first].va_end < addr {
          first := NextArea(first, k);
          k := k + 1;
          if first != null {
            Listed(k);
          }
        }
      }
    }

    /** rb_next and rb_prev, as positions in the address order. */
    method NextArea(n: RbNode, ghost k: nat) returns (m: RbNode?)
      requires Valid() && k < |list| && list[k] == n
      ensures m == if k + 1 < |list| then list[k + 1] else null
    {
      hide RbRoot.Valid, Sorted;
      root.NodesNoDup();
      m := root.Next(n);
    }

    method PrevArea(n: RbNode, ghost k: nat) returns (m: RbNode?)
      requires Valid() && k < |list| && list[k] == n
      ensures m == if k > 0 then list[k - 1] else null
    {
      hide RbRoot.Valid, Sorted;
      root.NodesNoDup();
      m := root.Prev(n);
    }

    lemma Listed(k: nat)
      requires Valid() && k < |list|
      ensures list[k] in area && Areas()[k] == area[list[k]]
    {
      root.NodesNoDup();
    }

    /** The search of mm/vmalloc.c:382-433.  `c` is where the scan started.  A step that leads
        downwards has wrapped; the code does not notice, and `wrapped` is there for the result
        to tell. */
    method FindHole(size: nat, align: nat, vstart: nat, vend: nat) returns (r: ScanResult, ghost c: nat)
      requires Valid() && 0 < size < WORD && Alignment(align) && vstart < WORD && vend < WORD
      ensures var q := Request(size, align, RoundUp(vstart, align), vend);
        && (q.first + size <= WORD ==> StartsAt(c, q.first, Wrap(q.first + size)))
        && ScanOutcome(Areas(), c, q, r)
    {
      hide RbRoot.Valid, Sorted, Passed, NoRoom, Wrap, AlignUp, AlignDown, RoundUp;
      hide ScanState, ScanOutcome, VmapSpace.StartsAt, Splits, EndsFrom, Proper;
      ProperRequest(size, align, vstart, vend);
      var addr: nat := RoundUp(vstart, align);
      ghost var v, q := Areas(), Request(size, align, addr, vend);
      c := 0;
      RoundUpBelow(vstart, align);
      OverflowGuard(addr, size);
      if Wrap(addr + size - 1) < addr {
        NoScan(v, c, q);
        return Nowhere, c;
      }
      var first, k := FindStart(addr, Wrap(addr + size));
      c := k;
      ScanBegins(v, c, q);
      var wrapped := false;
      ghost var s: nat, y: nat := 0, 0;
      while first != null && Wrap(addr + size) > area[first].va_start && Wrap(addr + size) <= vend
        invariant c <= k <= |v| && (first == null ==> k == |v| || (!wrapped && v[k].va_start >= Wrap(addr + size)))
        invariant first != null ==> k < |v| && list[k] == first && first in area && area[first] == v[k]
        invariant addr < WORD && addr + size <= WORD && ScanState(v, c, s, y, k, addr, wrapped, q)
        decreases |v| - k
      {
        OverflowGuard(addr, size);
        ScanMoves(v, c, s, y, k, addr, wrapped, q);
        if !wrapped {
          s, y := k, addr;
        }
        addr := RoundUp(area[first].va_end + PAGE_SIZE, align);
        wrapped := wrapped || addr < area[first].va_end;
        RoundUpBelow(area[first].va_end + PAGE_SIZE, align);
        OverflowGuard(addr, size);
        if Wrap(addr + size - 1) < addr {
          ScanFails(v, c, s, y, k + 1, addr, wrapped, q);
          return Nowhere, c;
        }
        first := NextArea(first, k);
        k := k + 1;
        if k < |v| {
          Listed(k);
        }
      }
      OverflowGuard(addr, size);
      if Wrap(addr + size) > vend {
        ScanFails(v, c, s, y, k, addr, wrapped, q);
        return Nowhere, c;
      }
      ScanEnded(v, c, s, y, k, addr, wrapped, q);
      r := if wrapped then AtBottom(addr) else if addr + size == WORD then AtTop(addr) else Fits(addr);
    }

    /** What Areas() says about the areas as a map. */
    lemma AreasOf(a: VmapArea)
      requires Valid() && ApartFrom(Areas(), a)
      ensures forall n :: n in area ==> area[n].va_end <= a.va_start || a.va_end <= area[n].va_start
    {
      root.NodesNoDup();
      forall n | n in area
        ensures area[n].va_end <= a.va_start || a.va_end <= area[n].va_start
      {
        var i :| 0 <= i < |list| && list[i] == n;
        assert Areas()[i] == area[n];
      }
    }

    /** alloc_vmap_area: mm/vmalloc.c:364-460, with `va` the record it allocates.  A range that
        ends at 2^32, or one at the bottom after a wrap, the code would go on to insert. */
    method AllocVmapArea(va: RbNode?, size: nat, align: nat, vstart: nat, vend: nat) returns (r: AllocResult, ghost c: nat)
      requires Valid() && Tracked() && (va != null ==> va !in root.pool)
      requires 0 < size < WORD && size % PAGE_SIZE == 0 && Alignment(align) && vstart < WORD && vend < WORD
      modifies `area, `list, `log, root, (if va == null then {} else {va}), root.pool
      ensures Valid() && Tracked()
      ensures r.NoMemory? <==> va == null
      ensures var q := Request(size, align, RoundUp(vstart, align), vend);
        va != null ==>
          && (q.first + size <= WORD ==> old(StartsAt(c, q.first, Wrap(q.first + size))))
          && (!r.Busy? ==> r.Searched? && ScanOutcome(old(Areas()), c, q, r.place) && !r.place.Nowhere?)
          && (r.Busy? ==> ScanOutcome(old(Areas()), c, q, Nowhere))
          && (Kept(old(Areas()), r, size, align, vstart, vend) <==>
                && !EndsAtTop(old(Areas()), c, q) && (forall x: nat :: !EndsLow(old(Areas()), c, x, q))
                && (AlignUp(vstart, align) < WORD || NoRoom(old(Areas()), q)))
      ensures if Granted(r) then
          var a := VmapArea(r.place.addr, r.place.addr + size, false, false);
          && va != null && area == old(area)[va := a] && root.pool == old(root.pool) + {va}
          && log == old(log) + [Handed(a.va_start, a.va_end)]
          && exists k: nat :: k <= |old(Areas())| && Areas() == old(Areas())[..k] + [a] + old(Areas())[k..]
        else area == old(area) && list == old(list) && root.pool == old(root.pool) && log == old(log)
    {
      hide RbRoot.Valid, Sorted, Tracking, RoundUp, Wrap, ScanOutcome, VmapSpace.StartsAt;
      c := 0;
      if va == null {
        return NoMemory, c;
      }
      var place;
      place, c := FindHole(size, align, vstart, vend);
      ghost var q := Request(size, align, RoundUp(vstart, align), vend);
      RoundUpBelow(vstart, align);
      PromiseKept(Areas(), c, q, vstart, place);
      if place.Nowhere? {
        return Busy, c;
      }
      if place.Fits? {
        var a := VmapArea(place.addr, place.addr + size, false, false);
        AreasOf(a);
        ghost var k := InsertVmapArea(va, a);
        TrackHandOut(log, old(area), old(Areas()), lazy_nr, purging, flushed, va, a, k);
        log := log + [Handed(place.addr, place.addr + size)];
      }
      r := Searched(place);
    }

    /** list_del_rcu */
    method ListDel(n: RbNode, ghost k: nat)
      requires NoDup(list) && k < |list| && list[k] == n
      modifies `list
      ensures list == RemoveAt(old(list), k)
    {
      var i :| 0 <= i < |list| && list[i] == n;
      assert i == k;
      list := list[..i] + list[i + 1..];
    }

    /** __free_vmap_area: mm/vmalloc.c:139-156 */
    method FreeVmapArea(n: RbNode, ghost k: nat)
      requires Valid() && k < |list| && list[k] == n && n in area
      modifies `area, `list, `pcpu_hole, root, root.pool
      ensures Valid() && root.pool == old(root.pool) - {n} && n.parent == n
      ensures area == old(area) - {n} && list == RemoveAt(old(list), k)
      ensures Areas() == old(Areas())[..k] + old(Areas())[k + 1..]
      ensures pcpu_hole == Raise(old(pcpu_hole), old(area)[n].va_end, vmalloc_start, vmalloc_end)
      ensures pcpu_hole >= old(pcpu_hole)
      ensures vmalloc_start < old(area)[n].va_end <= vmalloc_end ==> pcpu_hole >= old(area)[n].va_end
      ensures pcpu_hole == old(pcpu_hole) || (vmalloc_start < old(area)[n].va_end <= vmalloc_end && pcpu_hole == old(area)[n].va_end)
    {
      hide RbRoot.Valid, Sorted, NoDup, RemoveAt, Without;
      root.NodesNoDup();
      RemoveView(list, area, k);
      SortedWithout(View(list, area), k);
      WithoutRemoves(list, k);
      root.Erase(n);
      n.parent := n;
      ListDel(n, k);
      if area[n].va_end > vmalloc_start && area[n].va_end <= vmalloc_end {
        pcpu_hole := if area[n].va_end > pcpu_hole then area[n].va_end else pcpu_hole;
      }
      area := area - {n};
    }

    /** free_vmap_area_noflush: mm/vmalloc.c:567-570 */
    method FreeNoflush(n: RbNode, ghost k: nat)
      requires Valid() && Tracked() && k < |list| && list[k] == n
      requires n in area && !area[n].lazy_free && !area[n].lazy_freeing
      modifies `area, `lazy_nr, `log
      ensures Valid() && Tracked()
      ensures area == old(area)[n := old(area)[n].(lazy_free := true)]
      ensures lazy_nr == old(lazy_nr) + Pages(area[n])
      ensures log == old(log) + [Freed(area[n].va_start, area[n].va_end)]
    {
      hide RbRoot.Valid, Tracking;
      Listed(k);
      root.NodesNoDup();
      TrackFree(log, area, Areas(), lazy_nr, purging, flushed, n, k);
      var a := area[n].(lazy_free := true);
      ReplaceView(list, area, k, a);
      area := area[n := a];
      lazy_nr := lazy_nr + (area[n].va_end - area[n].va_start) / PAGE_SIZE;
      log := log + [Freed(a.va_start, a.va_end)];
    }

    /** The collecting walk of __purge_vmap_area_lazy: mm/vmalloc.c:199-217.  `start` and
        `end` come to bound every area collected, `nr` to count their pages. */
    method PurgeCollect(start0: nat, end0: nat) returns (start: nat, end: nat, nr: nat)
      requires Valid() && Tracked() && purging == [] && !flushed
      modifies `area, `purging, `lazy_nr
      ensures Valid() && Tracked() && Collected(old(area), area)
      ensures purging == Lazies(list, old(area)) && nr == LazyPages(old(Areas()))
      ensures lazy_nr == old(lazy_nr) - nr
      ensures Bounds(old(area), start0, end0, start, end)
      ensures forall n :: n in purging ==> start <= area[n].va_start && area[n].va_end <= end
    {
      hide RbRoot.Valid, Tracking, Sorted, Collecting, Collected, View, LazyPages, Lazies, NoDup, Collect, Pages, StartOfOne, EndOfOne, Bounds;
      root.NodesNoDup();
      start, end, nr := start0, end0, 0;
      CollectStart(list, area, start, end);
      var i := 0;
      while i < |list|
        invariant i <= |list| && area.Keys == old(area).Keys && lazy_nr == old(lazy_nr)
        invariant Collecting(list, old(area), area, i, purging, start, end, nr)
        invariant start <= start0 && end >= end0
        invariant (start == start0 || StartOfOne(old(area), start)) && (end == end0 || EndOfOne(old(area), end))
      {
        var va := list[i];
        ghost var s, e := start, end;
        CollectAt(list, old(area), area, i, purging, start, end, nr);
        if area[va].lazy_free {
          OfOne(old(area), va);
          if area[va].va_start < start {
            start := area[va].va_start;
          }
          if area[va].va_end > end {
            end := area[va].va_end;
          }
          CollectOne(list, old(area), area, i, purging, s, e, nr, start, end);
          nr := nr + Pages(area[va]);
          purging := purging + [va];
          area := area[va := Collect(area[va])];
        } else {
          CollectOne(list, old(area), area, i, purging, s, e, nr, start, end);
        }
        i := i + 1;
      }
      CollectBounds(list, old(area), area, purging, start, end, nr, start0, end0);
      CollectEnd(list, old(area), area, purging, start, end, nr);
      TrackCollect(log, old(area), area, list, lazy_nr, purging);
      CollectSorted(list, old(area), area);
      lazy_nr := lazy_nr - nr;
    }

    /** flush_tlb_kernel_range over what was collected: mm/vmalloc.c:219-220 */
    method PurgeFlush(start: nat, end: nat)
      requires Valid() && Tracked() && !flushed
      requires forall n :: n in purging && n in area ==> start <= area[n].va_start && area[n].va_end <= end
      modifies `log, `flushed
      ensures Valid() && Tracked() && flushed
      ensures log == old(log) + [Flushed(start, end)]
    {
      hide RbRoot.Valid, Tracking, Sorted;
      PurgingListed();
      TrackFlush(log, area, Areas(), lazy_nr, purging, start, end);
      log := log + [Flushed(start, end)];
      flushed := true;
    }

    lemma PurgingListed()
      requires Valid() && Tracked()
      ensures forall n :: n in purging ==> n in area && n in list
    {
      root.NodesNoDup();
    }

    /** The first area that was collected goes. */
    method ReleaseFirst()
      requires Valid() && Tracked() && flushed && purging != []
      modifies `area, `list, `pcpu_hole, `purging, root, root.pool
      ensures Valid() && Tracked() && purging == old(purging)[1..] && old(purging)[0] !in purging
      ensures old(purging)[0] in old(area)
      ensures area == old(area) - {old(purging)[0]} && root.pool <= old(root.pool)
      ensures pcpu_hole == Raise(old(pcpu_hole), old(area)[old(purging)[0]].va_end, vmalloc_start, vmalloc_end)
    {
      hide RbRoot.Valid, Tracking, Sorted;
      var va := purging[0];
      PurgingListed();
      assert va in purging && va in list;
      ghost var k :| 0 <= k < |list| && list[k] == va;
      Listed(k);
      TrackRelease(log, area, Areas(), lazy_nr, purging, k);
      FreeVmapArea(va, k);
      purging := purging[1..];
    }

    /** The areas go: mm/vmalloc.c:222-228 */
    method PurgeRelease()
      requires Valid() && Tracked() && flushed
      modifies `area, `list, `pcpu_hole, `purging, `flushed, root, root.pool
      ensures Valid() && Tracked() && purging == [] && !flushed
      ensures area == old(area) - ToSet(old(purging))
      ensures pcpu_hole == RaiseAll(old(pcpu_hole), Ends(old(purging), old(area)), vmalloc_start, vmalloc_end)
      ensures RaisedBy(old(pcpu_hole), pcpu_hole, ToSet(old(purging)), old(area), vmalloc_start, vmalloc_end)
    {
      hide RbRoot.Valid, Tracking, Sorted, RaisedBy;
      RaisedByEnds(pcpu_hole, purging, area, vmalloc_start, vmalloc_end);
      ghost var all, ends, i := purging, Ends(purging, area), 0;
      while purging != []
        invariant Valid() && Tracked() && root.pool <= old(root.pool)
        invariant area == old(area) - (ToSet(old(purging)) - ToSet(purging))
        invariant flushed && ToSet(purging) <= ToSet(old(purging))
        invariant 0 <= i <= |all| && purging == all[i..]
        invariant pcpu_hole == RaiseAll(old(pcpu_hole), ends[..i], vmalloc_start, vmalloc_end)
        decreases |purging|
      {
        assert purging[0] in purging;
        assert ends[..i + 1][..i] == ends[..i];
        ReleaseFirst();
        i := i + 1;
      }
      assert ends[..i] == ends;
      TrackForget(log, area, Areas(), lazy_nr, purging, flushed);
      flushed := false;
    }

    /** What `m` says of the areas, but for those collected from them. */
    method ReleaseCollected(ghost m: map<RbNode, VmapArea>)
      requires Valid() && Tracked() && flushed && Collected(m, area) && m.Keys == area.Keys && purging == Lazies(list, m)
      requires Sorted(View(list, m))
      modifies `area, `list, `pcpu_hole, `purging, `flushed, root, root.pool
      ensures Valid() && Tracked() && purging == [] && !flushed && root.pool <= old(root.pool)
      ensures area == m - ToSet(Lazies(old(list), m)) && Areas() == Unflagged(View(old(list), m))
      ensures pcpu_hole == RaiseAll(old(pcpu_hole), LazyEnds(View(old(list), m)), vmalloc_start, vmalloc_end)
      ensures RaisedBy(old(pcpu_hole), pcpu_hole, ToSet(Lazies(old(list), m)), m, vmalloc_start, vmalloc_end)
      ensures forall n :: n in m ==> (n in area <==> !m[n].lazy_free)
      ensures forall n :: n in m && !m[n].lazy_free ==> n in area && area[n] == m[n]
    {
      hide RbRoot.Valid, Tracking, Sorted, Lazies, LazyPages, Collected, Unflagged, RaiseAll, LazyEnds, View, Ends, RaisedBy, ToSet, NoDup;
      RaisedByEnds(pcpu_hole, purging, m, vmalloc_start, vmalloc_end);
      ghost var s := list;
      root.NodesNoDup();
      EndsOfLazies(s, m);
      CollectedRest(s, m, area, purging);
      OthersKept(s, m, purging);
      SameEnds(purging, m, area);
      PurgeRelease();
      root.NodesNoDup();
      SettledView(s, m, list, area);
    }

    /** __purge_vmap_area_lazy in one go: mm/vmalloc.c:176-230.  Areas that come to no page
        at all are flagged but stay where they are. */
    method PurgeVmapAreaLazy(start0: nat, end0: nat, force_flush: bool)
      requires Valid() && Tracked() && purging == [] && !flushed
      modifies `area, `list, `pcpu_hole, `purging, `lazy_nr, `flushed, `log, root, root.pool
      ensures Valid() && Tracked() && purging == [] && !flushed && lazy_nr == 0
      ensures root.pool <= old(root.pool) && area.Keys <= old(area).Keys
      ensures Areas() == Settled(old(Areas()))
      ensures pcpu_hole == SettledHole(old(pcpu_hole), old(Areas()), vmalloc_start, vmalloc_end)
      ensures LazyPages(old(Areas())) > 0 ==> area == old(area) - ToSet(Lazies(old(list), old(area)))
      ensures LazyPages(old(Areas())) == 0 ==> Collected(old(area), area)
      ensures (exists n :: n in old(area) && old(area)[n].lazy_free && old(area)[n].va_end - old(area)[n].va_start >= PAGE_SIZE) ==>
        forall n :: n in old(area) ==> (n in area <==> !old(area)[n].lazy_free)
      ensures RaisedBy(old(pcpu_hole), pcpu_hole, old(area).Keys - area.Keys, old(area), vmalloc_start, vmalloc_end)
      ensures forall n :: n in old(area) && !old(area)[n].lazy_free ==> n in area && area[n] == old(area)[n]
      ensures if LazyPages(old(Areas())) > 0 || force_flush
        then exists s, e :: Bounds(old(area), start0, end0, s, e) && log == old(log) + [Flushed(s, e)] else log == old(log)
    {
      hide RbRoot.Valid, Tracking, Sorted, Lazies, LazyPages, ToSet, Collected, Unflagged, RaiseAll, LazyEnds, View, NoDup, RaisedBy, Bounds;
      ghost var s, m := list, area;
      root.NodesNoDup();
      TrackForget(log, area, Areas(), lazy_nr, purging, flushed);
      var start, end, nr := PurgeCollect(start0, end0);
      if nr > 0 || force_flush {
        PurgeFlush(start, end);
      }
      if nr > 0 {
        ReleaseCollected(m);
        RaisedSame(old(pcpu_hole), pcpu_hole, ToSet(Lazies(s, m)), m.Keys - area.Keys, m, vmalloc_start, vmalloc_end);
      } else {
        NoPageLazy(s, m);
        NotRaised(pcpu_hole, m, vmalloc_start, vmalloc_end);
        assert m.Keys - area.Keys == {};
        UnflaggedKept(old(area), area);
        CollectedView(s, m, area);
        TrackForget(log, area, Areas(), lazy_nr, purging, flushed);
        purging, flushed := [], false;
      }
    }

    /** `next` and `prev` are the areas at and before position `k` of the address order. */
    ghost predicate Between(next: RbNode?, prev: RbNode?, k: nat)
      reads `list
    {
      && k <= |list|
      && next == (if k < |list| then list[k] else null)
      && prev == (if k > 0 then list[k - 1] else null)
    }

    lemma Sides(next: RbNode?, prev: RbNode?, k: nat)
      requires Valid() && Between(next, prev, k)
      ensures k <= |Areas()| && |Areas()| == |list|
      ensures next == null <==> k == |list|
      ensures prev == null <==> k == 0
      ensures next != null ==> next in area && area[next] == Areas()[k] && list[k] == next
      ensures prev != null ==> prev in area && area[prev] == Areas()[k - 1] && list[k - 1] == prev
    {
      root.NodesNoDup();
    }

    lemma AreasSorted()
      requires Valid()
      ensures Sorted(Areas()) && |Areas()| == |list|
    {
    }

    lemma StepDown(next: RbNode, prev: RbNode?, k: nat)
      requires Valid() && k < |list| && list[k] == next && prev == (if k > 0 then list[k - 1] else null)
      ensures Between(next, prev, k)
    {
    }

    /** pvm_find_next_prev: mm/vmalloc.c:1059-1090 */
    method FindNextPrev(end: nat) returns (ok: bool, next: RbNode?, prev: RbNode?, ghost k: nat)
      requires Valid()
      ensures ok <==> list != []
      ensures ok ==> Between(next, prev, k) && EndsAround(Areas(), k, k, end)
    {
      hide RbRoot.Valid, Sorted, EndsAround;
      var va: RbNode?;
      va, k := SearchEnd(end);
      if va == null {
        return false, null, null, k;
      }
      PickNeighbours(va, k, end);
      if area[va].va_end > end {
        next := va;
        prev := PrevArea(next, k);
      } else {
        prev := va;
        next := NextArea(prev, k - 1);
      }
      ok := true;
    }

    /** The way down from the root to an area that ends next to `end`, or just there. */
    method SearchEnd(end: nat) returns (va: RbNode?, ghost k: nat)
      requires Valid()
      ensures va == null <==> list == []
      ensures k <= |list| && EndsAround(Areas(), k, k, end)
      ensures va != null ==> (k > 0 && list[k - 1] == va) || (k < |list| && list[k] == va)
    {
      hide RbRoot.Valid, Sorted, EndsAround;
      var n := root.rb_node;
      va := null;
      ghost var lo, hi, v := 0, |list|, Areas();
      root.RootSpan();
      EndsNothing(v, end);
      while n != null
        invariant if n == null then lo == hi else n in root.pool && root.SpanOf(n) == (lo, hi)
        invariant 0 <= lo <= hi <= |list| && EndsAround(v, lo, hi, end)
        invariant va == null ==> n == root.rb_node
        invariant va != null ==> (lo > 0 && list[lo - 1] == va) || (hi < |list| && list[hi] == va)
        decreases hi - lo
      {
        va := n;
        ghost var mid := root.Children(va);
        Listed(mid);
        EndsNarrow(v, lo, mid, hi, end);
        if end < area[va].va_end {
          n, hi := n.left, mid;
        } else if end > area[va].va_end {
          n, lo := n.right, mid + 1;
        } else {
          lo, hi := mid + 1, mid + 1;
          break;
        }
      }
      k := lo;
    }

    lemma PickNeighbours(va: RbNode, k: nat, end: nat)
      requires Valid() && EndsAround(Areas(), k, k, end)
      requires (k > 0 && list[k - 1] == va) || (k < |list| && list[k] == va)
      ensures va in area
      ensures if area[va].va_end > end then k < |list| && list[k] == va else k > 0 && list[k - 1] == va
    {
    }

    /** pvm_determine_end: mm/vmalloc.c:1036-1055.  The neighbours move down until the lower
        one ends at or below the address found. */
    method DetermineEnd(next0: RbNode?, prev0: RbNode?, align: nat, ghost k0: nat)
        returns (addr: nat, next: RbNode?, prev: RbNode?, ghost k: nat)
      requires Valid() && align > 0 && Between(next0, prev0, k0)
      ensures Between(next, prev, k) && k <= k0
      ensures addr == TopBelow(Areas(), k0, align, vmalloc_end)
      ensures k > 0 ==> Areas()[k - 1].va_end <= addr
      ensures forall i :: k <= i < k0 ==> Areas()[i].va_end > addr
    {
      hide RbRoot.Valid, Sorted;
      next, prev, k := next0, prev0, k0;
      if next != null {
        Listed(k);
        addr := AlignDown(area[next].va_start, align);
        if addr > AlignDown(vmalloc_end, align) {
          addr := AlignDown(vmalloc_end, align);
        }
      } else {
        addr := AlignDown(vmalloc_end, align);
      }
      if prev != null {
        Listed(k - 1);
      }
      while prev != null && area[prev].va_end > addr
        invariant Between(next, prev, k) && k <= k0
        invariant prev != null ==> prev in area && area[prev] == Areas()[k - 1]
        invariant forall i :: k <= i < k0 ==> Areas()[i].va_end > addr
        decreases k
      {
        next := prev;
        k := k - 1;
        prev := PrevArea(next, k);
        if prev != null {
          Listed(k - 1);
        }
      }
    }
  }
}
