/** A run of pcpu_alloc and free_percpu at whose end the walk leaves its list (mm/percpu.c). */
module PcpuAstray {
  import opened Align
  import opened Basics
  import opened PcpuChunk
  import opened PcpuMap
  import opened PcpuSlots
  import opened PcpuWalk

  const U: int := PCPU_MIN_UNIT_SIZE

  /** The one chunk of the allocator has this map and this hint. */
  ghost predicate Only(a: Allocator, c: Chunk, m: Map, hint: int)
    reads a, a.chunks, c
  {
    a.Valid() && a.unit == U && a.chunks == {c} && c.map_ == m && c.contig_hint == hint
  }

  /** Block `k` is the first with room. */
  predicate FirstAt(m: Map, k: nat, size: int) {
    k < |m| && m[k] >= size && forall j :: 0 <= j < k ==> m[j] < size
  }

  lemma AtNoAlign(m: Map, hint: int, m': Map, hint': int, size: int, off: int, k: nat)
    requires size > 0 && CutAt(m, hint, m', hint', size, 1, off) && FirstAt(m, k, size)
    ensures m' == CarvedMap(m, k, size, 0) && off == Span(m[..k]) && hint' == if k + 1 == |m| then MaxFree(m') else hint
  {
    hide CarvedMap, Span, MaxFree;
    assert Head(m, k, 1) == 0 && Fits(m, k, size, 1);
  }

  lemma AtOffset(m: Map, hint: int, m': Map, hint': int, off: int, k: nat)
    requires ReturnedAt(m, hint, m', hint', off) && k < |m| && Span(m[..k]) == off && Separated(m)
    ensures m' == TurnedOver(m, k)
    ensures hint' == var b := FreeBefore(m, k) - m[k] + FreeAfter(m, k); if b > hint then b else hint
  {
    hide TurnedOver, Span, FreeBefore, FreeAfter;
    var i: nat :| i < |m| && Span(m[..i]) == off && m[i] < 0 && m' == TurnedOver(m, i)
      && hint' == var b := FreeBefore(m, i) - m[i] + FreeAfter(m, i); if b > hint then b else hint;
    SpanGrows(m, i, k);
    SpanGrows(m, k, i);
  }

  lemma {:induction false} SpanGrows(m: Map, i: nat, k: nat)
    requires i < k <= |m| ==> forall j :: 0 <= j < |m| ==> m[j] != 0
    ensures i < k <= |m| ==> Span(m[..i]) < Span(m[..k])
    decreases k
  {
    if i < k <= |m| {
      SpanNext(m, k - 1);
      SpanGrows(m, i, k - 1);
    }
  }

  /** A request that the chunk is visited for, and has room for. */
  method Take(a: Allocator, c: Chunk, size: nat, ghost m: Map, ghost hint: int, ghost k: nat) returns (off: int)
    requires Only(a, c, m, hint) && FirstAt(m, k, size) && 0 < size <= hint && size <= U
    requires FreeSum(m) >= size && FreeSum(m) >= SIZEOF_INT && hint >= SIZEOF_INT
    modifies a, a.chunks
    ensures var m' := CarvedMap(m, k, size, 0); Only(a, c, m', if k + 1 == |m| then MaxFree(m') else hint)
    ensures off == Span(m[..k]) && c.live == old(c.live)[off := size]
  {
    hide Allocator.Valid, CutAt, Stop, Needed, SizeToSlot;
    VisitedAlone(a, c, size);
    assert a.View(size) == [LookAt(c)];
    TakesIt(LookAt(c), k, size);
    var out := a.PcpuAlloc(size, 1, 1, true);
    off := out.off;
    AtNoAlign(m, hint, c.map_, c.contig_hint, size, off, k);
  }

  lemma VisitedAlone(a: Allocator, c: Chunk, size: nat)
    requires a.Valid() && a.chunks == {c} && FreeSum(c.map_) >= size && FreeSum(c.map_) >= SIZEOF_INT && c.contig_hint >= SIZEOF_INT
    ensures a.Visits(size) == [c]
  {
    hide SizeToSlot, Filed;
    FreeWithin(c);
    SlotGrows(size, FreeSum(c.map_), a.unit);
    a.VisitsOnce(size);
    var o := a.Visits(size);
    assert c in o;
    assert forall i :: 0 <= i < |o| ==> o[i] in a.chunks;
    Alone(o, c);
  }

  lemma FreeWithin(c: Chunk)
    requires c.Valid()
    ensures FreeSum(c.map_) <= c.unit
  {
    FreeSumBounds(c.map_, 0);
  }

  lemma Alone(o: seq<Chunk>, c: Chunk)
    requires NoDup(o) && c in o && forall i :: 0 <= i < |o| ==> o[i] == c
    ensures o == [c]
  {
    Twice(o, c);
  }

  lemma Twice(o: seq<Chunk>, c: Chunk)
    requires forall i :: 0 <= i < |o| ==> o[i] == c
    ensures |o| > 1 ==> !NoDup(o)
  {
    if |o| > 1 {
      assert o[0] == o[1];
    }
  }

  lemma TakesIt(l: Look, k: nat, size: int)
    requires 0 < size <= l.hint && FirstAt(l.m, k, size)
    ensures Stop([l], size, 1) == 0 && Finds([l], size, 1) && Needed([l], size, 1) <= 1
  {
    assert Head(l.m, k, 1) == 0 && Fits(l.m, k, size, 1);
    assert Shorts([l], 0, size) == 0;
  }

  lemma LeavesIt(l: Look, size: int)
    requires 0 < size <= l.hint && MaxFree(l.m) < SIZEOF_INT <= size
    ensures Stop([l], size, 1) == 0 && Strays([l], size, 1) && Needed([l], size, 1) <= 1
  {
    MaxFreeIsMax(l.m);
    assert Shorts([l], 0, size) == 0;
  }

  /** The first request makes the chunk. */
  method Begin(a: Allocator, size: nat) returns (c: Chunk)
    requires a.Valid() && a.unit == U && a.chunks == {} && 0 < size <= U - SIZEOF_INT
    modifies a, a.chunks
    ensures var m := CarvedMap([U], 0, size, 0); Only(a, c, m, MaxFree(m)) && c.live == map[0 := size] && fresh(c)
  {
    hide Allocator.Valid, CutAt, Stop, Needed;
    NoneVisited(a, size);
    assert a.View(size) == [];
    NothingNeeded(size);
    var out := a.PcpuAlloc(size, 1, 1, true);
    c := out.chunk;
    AtNoAlign([U], U, c.map_, c.contig_hint, size, out.off, 0);
    Beginning([U]);
  }

  lemma NoneVisited(a: Allocator, size: nat)
    requires a.Valid() && a.chunks == {}
    ensures a.Visits(size) == []
  {
    a.VisitsOnce(size);
    Anybody(a.Visits(size), a.chunks);
  }

  lemma Anybody(o: seq<Chunk>, s: set<Chunk>)
    requires forall i :: 0 <= i < |o| ==> o[i] in s
    ensures o != [] ==> s != {}
  {
    if o != [] {
      assert o[0] in s;
    }
  }

  lemma NothingNeeded(size: int)
    ensures Stop([], size, 1) == 0 && Needed([], size, 1) == 0
  {
  }

  /** An area is given back. */
  method Give(a: Allocator, c: Chunk, off: int, ghost m: Map, ghost hint: int, ghost k: nat)
    requires Only(a, c, m, hint) && k < |m| && Span(m[..k]) == off && off in c.live
    modifies a, a.chunks
    ensures var b := FreeBefore(m, k) - m[k] + FreeAfter(m, k); Only(a, c, TurnedOver(m, k), if b > hint then b else hint)
    ensures c.live == old(c.live) - {off}
  {
    hide Allocator.Valid, ReturnedAt, TurnedOver, FreeBefore, FreeAfter, Separated;
    ChunkSeparated(a, c);
    a.FreeIn(c, off);
    AtOffset(m, hint, c.map_, c.contig_hint, off, k);
  }

  lemma ChunkSeparated(a: Allocator, c: Chunk)
    requires a.Valid() && c in a.chunks
    ensures Separated(c.map_)
  {
    hide Filed;
    ValidSeparated(c);
  }

  /** A map of four blocks, as numbers. */
  lemma Four(a: int, b: int, c: int, d: int)
    ensures var m := [a, b, c, d];
      && FreeSum(m) == Free(a) + Free(b) + Free(c) + Free(d) && MaxFree(m) == Max(Free(a), Max(Free(b), Max(Free(c), Free(d))))
      && Span(m[..0]) == 0 && Span(m[..1]) == Abs(a) && Span(m[..2]) == Abs(a) + Abs(b)
  {
    var m := [a, b, c, d];
    Front(d, []);
    Front(c, [d]);
    Front(b, [c, d]);
    Front(a, [b, c, d]);
    assert m == [a] + [b, c, d] && [b, c, d] == [b] + [c, d] && [c, d] == [c] + [d] && [d] == [d] + [];
    SpanNext(m, 0);
    SpanNext(m, 1);
  }

  lemma Front(x: int, t: Map)
    ensures FreeSum([x] + t) == Free(x) + FreeSum(t) && MaxFree([x] + t) == Max(Free(x), MaxFree(t))
  {
    assert ([x] + t)[1..] == t;
  }

  function Free(x: int): nat { if x > 0 then x else 0 }

  function Max(x: nat, y: nat): nat { if x > y then x else y }

  /** Small areas end up free on both sides of one that was freed and taken again.  The hint
      still says 8, so the chunk is on a list that a request of 4 bytes visits; it fails there,
      goes to the first list, and the walk never sees the head of its own. */
  method GoesAstray() returns (out: Outcome, c: Chunk)
    ensures out == Astray(c) && c.map_ == [2, -8, 2, 12 - U]
  {
    hide Allocator.Valid, MaxFree, FreeSum, Span, Stop, Needed, Strays, Finds;
    var a := new Allocator(U);
    c := Fill(a);
    Hollow(a, c);
    Four(2, -8, 2, 12 - U);
    VisitedAlone(a, c, 4);
    assert a.View(4) == [LookAt(c)];
    LeavesIt(LookAt(c), 4);
    out := a.PcpuAlloc(4, 1, 1, true);
  }

  /** Four areas fill the chunk. */
  method Fill(a: Allocator) returns (c: Chunk)
    requires a.Valid() && a.unit == U && a.chunks == {}
    modifies a, a.chunks
    ensures Only(a, c, [-2, -8, -2, 12 - U], 0) && fresh(c) && 2 in c.live && 0 in c.live && 10 in c.live
  {
    hide Allocator.Valid, MaxFree, FreeSum, Span, CarvedMap, TurnedOver;
    Filling();
    c := Begin(a, 2);
    var x := Take(a, c, 8, [-2, U - 2], U - 2, 1);
    x := Take(a, c, 2, [-2, -8, U - 10], U - 10, 2);
    x := Take(a, c, U - 12, [-2, -8, -2, U - 12], U - 12, 3);
  }

  /** The second area is freed and taken again, and those beside it are freed. */
  method Hollow(a: Allocator, c: Chunk)
    requires Only(a, c, [-2, -8, -2, 12 - U], 0) && 2 in c.live && 0 in c.live && 10 in c.live
    modifies a, a.chunks
    ensures Only(a, c, [2, -8, 2, 12 - U], 8)
  {
    hide Allocator.Valid, MaxFree, FreeSum, Span, CarvedMap, TurnedOver;
    Hollowing();
    Give(a, c, 2, [-2, -8, -2, 12 - U], 0, 1);
    var x := Take(a, c, 8, [-2, 8, -2, 12 - U], 8, 1);
    Give(a, c, 0, [-2, -8, -2, 12 - U], 8, 0);
    Give(a, c, 10, [2, -8, -2, 12 - U], 8, 2);
  }

  lemma Filling()
    ensures CarvedMap([U], 0, 2, 0) == [-2, U - 2] && CarvedMap([-2, U - 2], 1, 8, 0) == [-2, -8, U - 10]
    ensures CarvedMap([-2, -8, U - 10], 2, 2, 0) == [-2, -8, -2, U - 12]
    ensures CarvedMap([-2, -8, -2, U - 12], 3, U - 12, 0) == [-2, -8, -2, 12 - U]
    ensures MaxFree([-2, U - 2]) == FreeSum([-2, U - 2]) == U - 2 && MaxFree([-2, -8, U - 10]) == FreeSum([-2, -8, U - 10]) == U - 10
    ensures MaxFree([-2, -8, -2, U - 12]) == FreeSum([-2, -8, -2, U - 12]) == U - 12 && MaxFree([-2, -8, -2, 12 - U]) == 0
    ensures Span([-2, U - 2][..1]) == 2 && Span([-2, -8, U - 10][..2]) == 10
  {
    Four(-2, -8, -2, U - 12);
    Four(-2, -8, -2, 12 - U);
    Front(U - 2, []);
    Front(-2, [U - 2]);
    Front(U - 10, []);
    Front(-8, [U - 10]);
    Front(-2, [-8, U - 10]);
    assert [U - 2] + [] == [U - 2] && [-2] + [U - 2] == [-2, U - 2] && [U - 10] + [] == [U - 10];
    assert [-8] + [U - 10] == [-8, U - 10] && [-2] + [-8, U - 10] == [-2, -8, U - 10];
    SpanNext([-2, U - 2], 0);
    SpanNext([-2, -8, U - 10], 0);
    SpanNext([-2, -8, U - 10], 1);
  }

  lemma Hollowing()
    ensures TurnedOver([-2, -8, -2, 12 - U], 1) == [-2, 8, -2, 12 - U] && TurnedOver([-2, -8, -2, 12 - U], 0) == [2, -8, -2, 12 - U]
    ensures TurnedOver([2, -8, -2, 12 - U], 2) == [2, -8, 2, 12 - U] && CarvedMap([-2, 8, -2, 12 - U], 1, 8, 0) == [-2, -8, -2, 12 - U]
    ensures FreeSum([-2, 8, -2, 12 - U]) == 8
    ensures Span([-2, -8, -2, 12 - U][..1]) == 2 && Span([-2, -8, -2, 12 - U][..0]) == 0 && Span([2, -8, -2, 12 - U][..2]) == 10
  {
    Four(-2, 8, -2, 12 - U);
    Four(-2, -8, -2, 12 - U);
    Four(2, -8, -2, 12 - U);
  }
}
