/** What the walk of pcpu_alloc through the chunks comes to (mm/percpu.c:476-502): which chunk
    ends it, and how many maps are enlarged on the way. */
module PcpuWalk {
  import opened Align
  import opened Basics
  import opened PcpuChunk
  import opened PcpuMap

  /** What the walk looks at in a chunk. */
  datatype Look = Look(m: Map, alloc: int, hint: int)

  ghost predicate Roomless(l: Look, size: int, align: nat)
    requires align > 0
  {
    NoneFits(l.m, |l.m|, size, align)
  }

  /** The walk gets past the chunk: its hint turns the request away, or it has no room and yet
      a free block of at least an int, so that it stays on its list. */
  ghost predicate Passes(l: Look, size: int, align: nat)
    requires align > 0
  {
    size > l.hint || (Roomless(l, size, align) && MaxFree(l.m) >= SIZEOF_INT)
  }

  /** The map is to be enlarged before the chunk is tried. */
  predicate Short(l: Look, size: int) { size <= l.hint && l.alloc < |l.m| + 2 }

  /** The first chunk that the walk does not get past, or the end of the walk. */
  ghost function Stop(looks: seq<Look>, size: int, align: nat): (k: nat)
    requires align > 0
    ensures k <= |looks| && (forall i :: 0 <= i < k ==> Passes(looks[i], size, align))
    ensures k < |looks| ==> !Passes(looks[k], size, align)
  {
    if looks == [] || !Passes(looks[0], size, align) then 0 else 1 + Stop(looks[1..], size, align)
  }

  /** How many of the first `n` chunks have a map to be enlarged. */
  function Shorts(looks: seq<Look>, n: nat, size: int): nat
    requires n <= |looks|
  {
    if n == 0 then 0 else Shorts(looks, n - 1, size) + if Short(looks[n - 1], size) then 1 else 0
  }

  /** How many maps the walk enlarges, if there is memory for it. */
  ghost function Needed(looks: seq<Look>, size: int, align: nat): nat
    requires align > 0
  {
    var k := Stop(looks, size, align);
    Shorts(looks, if k < |looks| then k + 1 else k, size)
  }

  /** The walk ends at a chunk with no room, which moves to another list under it. */
  ghost predicate Strays(looks: seq<Look>, size: int, align: nat)
    requires align > 0
  {
    var k := Stop(looks, size, align);
    k < |looks| && Roomless(looks[k], size, align)
  }

  /** The walk ends at a chunk with room. */
  ghost predicate Finds(looks: seq<Look>, size: int, align: nat)
    requires align > 0
  {
    var k := Stop(looks, size, align);
    k < |looks| && !Roomless(looks[k], size, align)
  }

  lemma StopIs(looks: seq<Look>, k: nat, size: int, align: nat)
    requires align > 0 && k <= |looks|
    requires (forall i :: 0 <= i < k ==> Passes(looks[i], size, align)) && (k < |looks| ==> !Passes(looks[k], size, align))
    ensures Stop(looks, size, align) == k
  {
  }

  lemma {:induction false} ShortsSame(looks: seq<Look>, looks': seq<Look>, n: nat, size: int)
    requires n <= |looks| && |looks| == |looks'|
    requires forall i :: 0 <= i < n ==> (Short(looks[i], size) <==> Short(looks'[i], size))
    ensures Shorts(looks', n, size) == Shorts(looks, n, size)
  {
    if n > 0 {
      ShortsSame(looks, looks', n - 1, size);
    }
  }

  /** One map fewer is short. */
  lemma {:induction false} ShortsLess(looks: seq<Look>, looks': seq<Look>, n: nat, j: nat, size: int)
    requires j < n <= |looks| && |looks| == |looks'| && Short(looks[j], size) && !Short(looks'[j], size)
    requires forall i :: 0 <= i < n && i != j ==> (Short(looks[i], size) <==> Short(looks'[i], size))
    ensures Shorts(looks', n, size) == Shorts(looks, n, size) - 1
  {
    if j == n - 1 {
      ShortsSame(looks, looks', j, size);
    } else {
      ShortsLess(looks, looks', n - 1, j, size);
    }
  }

  lemma {:induction false} NoShorts(looks: seq<Look>, n: nat, size: int)
    requires n <= |looks|
    ensures Shorts(looks, n, size) == 0 <==> forall i :: 0 <= i < n ==> !Short(looks[i], size)
  {
    if n > 0 {
      NoShorts(looks, n - 1, size);
    }
  }

  /** The hint is too high for what is left in the chunk: the request is not turned away, has
      no room, and no block of an int is free. */
  ghost predicate Stranding(l: Look, size: int, align: nat)
    requires align > 0
  {
    size <= l.hint && Roomless(l, size, align) && MaxFree(l.m) < SIZEOF_INT
  }

  /** Such a chunk, and no other, strands the walk that comes to it. */
  lemma StraysExactly(looks: seq<Look>, size: int, align: nat)
    requires align > 0
    ensures Strays(looks, size, align) <==>
      exists k :: 0 <= k < |looks| && Stranding(looks[k], size, align) && forall i :: 0 <= i < k ==> Passes(looks[i], size, align)
  {
    hide MaxFree, Roomless;
    if k :| 0 <= k < |looks| && Stranding(looks[k], size, align) && forall i :: 0 <= i < k ==> Passes(looks[i], size, align) {
      StopIs(looks, k, size, align);
    }
  }

  // ---------- the steps of the walk ----------

  /** The first `k` chunks have been tried: the hint of each that failed is its largest free
      block. */
  ghost predicate Tried(looks: seq<Look>, looks': seq<Look>, k: nat, size: int) {
    && k <= |looks| == |looks'|
    && (forall i :: 0 <= i < k ==> looks'[i] == if size > looks[i].hint then looks[i] else looks[i].(hint := MaxFree(looks[i].m)))
    && (forall i :: k <= i < |looks| ==> looks'[i] == looks[i])
  }

  /** A chunk got past is still got past, and whatever has no short map is not short. */
  lemma TriedPasses(l: Look, size: int, align: nat)
    requires align > 0 && Passes(l, size, align)
    ensures Passes(if size > l.hint then l else l.(hint := MaxFree(l.m)), size, align)
  {
  }

  lemma {:induction false} TriedStop(looks: seq<Look>, looks': seq<Look>, k: nat, size: int, align: nat)
    requires align > 0 && Tried(looks, looks', k, size) && k <= Stop(looks, size, align) && Shorts(looks, k, size) == 0
    ensures Stop(looks', size, align) == Stop(looks, size, align) && Needed(looks', size, align) == Needed(looks, size, align)
    ensures Shorts(looks', k, size) == 0
  {
    hide Stop, Passes;
    var s := Stop(looks, size, align);
    forall i | 0 <= i < s
      ensures Passes(looks'[i], size, align)
    {
      TriedPasses(looks[i], size, align);
    }
    StopIs(looks', s, size, align);
    NoShorts(looks, k, size);
    ShortsSame(looks, looks', k, size);
    ShortsSame(looks, looks', if s < |looks| then s + 1 else s, size);
  }

  /** One more chunk has been tried and passed. */
  lemma Advance(looks: seq<Look>, now: seq<Look>, now': seq<Look>, k: nat, size: int, align: nat)
    requires align > 0 && k < |looks| && k <= Stop(looks, size, align) && Shorts(looks, k, size) == 0 && Tried(looks, now, k, size)
    requires Passes(looks[k], size, align) && !Short(looks[k], size)
    requires now' == now[k := if size > looks[k].hint then looks[k] else looks[k].(hint := MaxFree(looks[k].m))]
    ensures k + 1 <= Stop(looks, size, align) && Shorts(looks, k + 1, size) == 0 && Tried(looks, now', k + 1, size)
  {
    hide Passes, MaxFree;
  }

  /** The map of chunk `k` has been enlarged. */
  lemma {:induction false} EnlargedStop(looks: seq<Look>, looks': seq<Look>, k: nat, size: int, align: nat)
    requires align > 0 && k < |looks| == |looks'| && k <= Stop(looks, size, align) && Short(looks[k], size)
    requires looks' == looks[k := looks[k].(alloc := looks'[k].alloc)] && !Short(looks'[k], size)
    ensures Stop(looks', size, align) == Stop(looks, size, align) && Needed(looks', size, align) == Needed(looks, size, align) - 1
  {
    hide Stop, Passes;
    var s := Stop(looks, size, align);
    forall i | 0 <= i < |looks|
      ensures Passes(looks'[i], size, align) <==> Passes(looks[i], size, align)
    {
      SamePasses(looks[i], looks'[i], size, align);
    }
    StopIs(looks', s, size, align);
    ShortsLess(looks, looks', if s < |looks| then s + 1 else s, k, size);
  }

  lemma SamePasses(l: Look, l': Look, size: int, align: nat)
    requires align > 0 && l'.m == l.m && l'.hint == l.hint
    ensures Passes(l', size, align) <==> Passes(l, size, align)
  {
  }

  /** The walk ends at chunk `k`, and no map was short up to there. */
  lemma EndsAt(looks: seq<Look>, k: nat, size: int, align: nat)
    requires align > 0 && k <= |looks| && k <= Stop(looks, size, align) && Shorts(looks, k, size) == 0
    requires k < |looks| ==> !Passes(looks[k], size, align) && !Short(looks[k], size)
    ensures k == Stop(looks, size, align) && Needed(looks, size, align) == 0
  {
    hide Passes;
  }

  /** A short map on the way is one that is needed. */
  lemma {:induction false} NeededSome(looks: seq<Look>, k: nat, size: int, align: nat)
    requires align > 0 && k < |looks| && k <= Stop(looks, size, align) && Short(looks[k], size)
    ensures Needed(looks, size, align) > 0
  {
    var s := Stop(looks, size, align);
    NoShorts(looks, if s < |looks| then s + 1 else s, size);
  }

  /** A chunk without small blocks never leaves its list under the walk. */
  lemma IntSizedStays(looks: seq<Look>, size: int, align: nat)
    requires align > 0 && forall l :: l in looks ==> IntSized(l.m) && FreeSum(l.m) > 0
    ensures !Strays(looks, size, align)
  {
    hide Stop, IntSized, MaxFree, FreeSum;
    var k := Stop(looks, size, align);
    if k < |looks| {
      assert looks[k] in looks;
      IntSizedFree(looks[k].m);
    }
  }
}
