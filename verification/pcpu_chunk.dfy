/** mm/percpu.c: allocating areas of one percpu chunk from its map, and freeing them. */
module PcpuChunk {
  import opened Align
  import opened Basics
  import opened PcpuMap

  /** The bytes that alignment leaves unused before an area in block `k`. */
  function Head(m: Map, k: nat, align: nat): (h: nat)
    requires k < |m| && align > 0
    ensures h < align && (Span(m[..k]) + h) % align == 0
  {
    AlignUp(Span(m[..k]), align) - Span(m[..k])
  }

  /** Block `k` is free and large enough for an aligned area. */
  predicate Fits(m: Map, k: nat, size: int, align: nat)
    requires k < |m| && align > 0
  {
    m[k] >= Head(m, k, align) + size
  }

  /** That is, an aligned area lies within the block. */
  lemma FitsMeans(m: Map, k: nat, size: int, align: nat)
    requires k < |m| && align > 0
    ensures Fits(m, k, size, align) <==>
      exists off: nat :: off % align == 0 && Span(m[..k]) <= off && off + size <= Span(m[..k]) + m[k]
  {
    var from := Span(m[..k]);
    if Fits(m, k, size, align) {
      assert (from + Head(m, k, align)) % align == 0;
    }
    forall off: nat | off % align == 0 && from <= off
      ensures from + Head(m, k, align) <= off
    {
      AlignUpLeast(from, align, off);
    }
  }

  ghost predicate NoneFits(m: Map, n: nat, size: int, align: nat)
    requires n <= |m| && align > 0
  {
    forall k :: 0 <= k < n ==> !Fits(m, k, size, align)
  }

  /** The area lies at the first block that has room for it. */
  ghost predicate FirstFit(m: Map, size: int, align: nat, off: int)
    requires align > 0
  {
    exists k :: 0 <= k < |m| && Fits(m, k, size, align) && NoneFits(m, k, size, align)
      && off == Span(m[..k]) + Head(m, k, align)
  }

  /** An area was cut at offset `off` from the first block with room.  The hint stays, unless
      that was the last block: then it becomes the largest block left. */
  ghost predicate CutAt(m: Map, hint: int, m': Map, hint': int, size: int, align: nat, off: int)
    requires align > 0 && size > 0
  {
    exists k: nat :: k < |m| && Fits(m, k, size, align) && NoneFits(m, k, size, align)
      && off == Span(m[..k]) + Head(m, k, align) && (k == 0 ==> Head(m, k, align) == 0)
      && m' == CarvedMap(m, k, size, Head(m, k, align)) && hint' == if k + 1 == |m| then MaxFree(m') else hint
  }

  class Chunk {
    const unit: int
    /** The entries of chunk->map in use, `|map|` being map_used. */
    var map_: Map
    var map_alloc: int
    var free_size: int
    var contig_hint: int
    /** The areas handed out and not yet freed: the size asked for, by offset. */
    ghost var live: map<int, int>

    /** `free_size` is the sum of the free blocks, and no free block exceeds the hint. */
    ghost predicate Valid()
      reads `map_, `free_size, `contig_hint, `live
    {
      Sane(map_, unit, live) && free_size == FreeSum(map_) && NoneAbove(map_, contig_hint)
    }

    /** pcpu_alloc_chunk: mm/percpu.c:564-587 */
    constructor (unit: int)
      requires unit > 0
      ensures Valid() && this.unit == unit && live == map[] && map_ == [unit] && free_size == unit && contig_hint == unit
      ensures map_alloc == 16
    {
      this.unit := unit;
      map_, map_alloc, free_size, contig_hint, live := [unit], 16, unit, unit, map[];
      Single(unit, 0, map[]);
    }

    /** pcpu_need_to_extend: mm/percpu.c:175-187.  0 when there is room for two more entries. */
    method NeedToExtend() returns (newAlloc: int)
      ensures newAlloc == 0 <==> map_alloc >= |map_| + 2
      ensures newAlloc != 0 ==> newAlloc >= |map_| + 2 && newAlloc > map_alloc
      ensures newAlloc > 16 ==> newAlloc < 2 * (|map_| + 2)
    {
      if map_alloc >= |map_| + 2 {
        return 0;
      }
      newAlloc := 16;
      while newAlloc < |map_| + 2
        invariant newAlloc > 0 && (newAlloc > 16 ==> newAlloc < 2 * (|map_| + 2))
        decreases |map_| + 2 - newAlloc
      {
        newAlloc := newAlloc * 2;
      }
    }

    /** pcpu_extend_area_map: mm/percpu.c:201-224.  `memory` says whether the new map can be had. */
    method ExtendAreaMap(newAlloc: int, memory: bool) returns (ok: bool)
      modifies `map_alloc
      ensures ok == memory
      ensures map_alloc == if memory && newAlloc > old(map_alloc) then newAlloc else old(map_alloc)
    {
      if !memory {
        return false;
      }
      if newAlloc > map_alloc {
        map_alloc := newAlloc;
      }
      return true;
    }

    /** pcpu_split_block: mm/percpu.c:257-277 */
    method SplitBlock(i: nat, head: nat, tail: nat)
      requires i < |map_| && map_[i] > head + tail
      requires |map_| + (if head > 0 then 1 else 0) + (if tail > 0 then 1 else 0) <= map_alloc
      modifies `map_
      ensures map_ == old(map_)[..i] + Pieces(head, old(map_)[i] - head - tail, tail) + old(map_)[i + 1..]
    {
      var j := i;
      if head > 0 {
        map_ := map_[..j] + [head, map_[j] - head] + map_[j + 1..];
        j := j + 1;
      }
      if tail > 0 {
        map_ := map_[..j] + [map_[j] - tail, tail] + map_[j + 1..];
      }
    }

    /** pcpu_alloc_area: mm/percpu.c:315-391.  The caller has seen to room for two more
        entries. */
    method AllocArea(size: int, align: nat) returns (off: int)
      requires Valid() && size > 0 && align > 0 && |map_| + 2 <= map_alloc
      modifies `map_, `free_size, `contig_hint, `live
      ensures Valid()
      ensures off >= 0 ==> off % align == 0 && off !in old(live) && live == old(live)[off := size]
      ensures off >= 0 ==> FirstFit(old(map_), size, align, off) && free_size <= old(free_size) - size
      ensures off >= 0 ==> free_size >= old(free_size) - size - 2 * (SIZEOF_INT - 1) && contig_hint <= old(contig_hint)
      ensures off >= 0 ==> CutAt(old(map_), old(contig_hint), map_, contig_hint, size, align, off)
      ensures off < 0 ==> NoneFits(old(map_), |old(map_)|, size, align) && map_ == old(map_) && live == old(live)
      ensures off < 0 ==> free_size == old(free_size) && contig_hint == MaxFree(map_)
    {
      hide Sane, FreeSum, MaxFree, Span, Head, NoneAbove;
      var maxContig, i := 0, 0;
      off := 0;
      Beginning(map_);
      while i < |map_|
        invariant 0 <= i <= |map_| && off == Span(map_[..i]) && maxContig == MaxFree(map_[..i])
        invariant NoneFits(map_, i, size, align) && Valid()
        invariant map_ == old(map_) && live == old(live) && free_size == old(free_size) && contig_hint == old(contig_hint)
      {
        var head := AlignUp(off, align) - off;
        HeadIs(map_, i, align);
        MaxFreeNext(map_, i);
        if map_[i] >= 0 && map_[i] >= head + size {
          off := Carve(i, off, size, head, maxContig);
          return;
        }
        maxContig := if map_[i] > maxContig then map_[i] else maxContig;
        SpanNext(map_, i);
        off := off + Abs(map_[i]);
        i := i + 1;
      }
      contig_hint := maxContig;
      assert map_[..i] == map_;
      MaxFreeIsMax(map_);
      return -1;
    }

    /** A head of a few bytes goes to the block before: mm/percpu.c:342-352.  That block is in
        use, since free blocks are never neighbours, so the branch of the source that enlarges
        a free one is not reached. */
    method MergeHead(i: nat, head: nat)
      requires Valid() && 0 < i < |map_| && map_[i] > head > 0 && (head < SIZEOF_INT || map_[i - 1] > 0)
      modifies `map_, `free_size
      ensures Valid() && old(map_)[i - 1] < 0 && free_size == old(free_size) - head
      ensures var pre, post := old(map_)[..i - 1] + [old(map_)[i - 1] - head], old(map_)[i + 1..];
        && map_ == pre + [old(map_)[i] - head] + post && Span(pre) == Span(old(map_)[..i]) + head
        && MaxFree(pre) == MaxFree(old(map_)[..i])
    {
      hide Sane, FreeSum, MaxFree, Span, NoneAbove, Separated;
      ghost var pre, post := map_[..i], map_[i + 1..];
      Around(map_, i);
      Grown(pre, map_[i], post, unit, live, head);
      GrownHint(pre, map_[i], post, contig_hint, head, pre[..|pre| - 1] + [pre[|pre| - 1] - head]);
      assert pre[..|pre| - 1] == map_[..i - 1] && map_[i - 1] < 0;
      if map_[i - 1] > 0 {
        assert false;
      }
      map_ := map_[i - 1 := map_[i - 1] - head][i := map_[i] - head];
      free_size := free_size - head;
      assert map_ == pre[..|pre| - 1] + [pre[|pre| - 1] - head] + [old(map_)[i] - head] + post;
    }

    /** Splitting the block if warranted: mm/percpu.c:360-369 */
    method SplitOff(i0: nat, off0: int, head: nat, tail: nat, maxContig0: int) returns (i: nat, off: int, maxContig: int)
      requires i0 < |map_| && map_[i0] > head + tail && |map_| + 2 <= map_alloc
      modifies `map_
      ensures map_ == old(map_)[..i0] + Pieces(head, old(map_)[i0] - head - tail, tail) + old(map_)[i0 + 1..]
      ensures i == (if head > 0 then i0 + 1 else i0) && off == off0 + head
      ensures i < |map_| && map_[i] == old(map_)[i0] - head - tail
      ensures maxContig >= maxContig0 && (head > 0 ==> maxContig >= head) && (tail > 0 ==> maxContig >= tail)
      ensures maxContig == maxContig0 || (head > 0 && maxContig == head) || (tail > 0 && maxContig == tail)
    {
      hide Pieces;
      i, off, maxContig := i0, off0, maxContig0;
      PiecesAt(map_[..i], head, map_[i] - head - tail, tail, map_[i + 1..]);
      if head > 0 || tail > 0 {
        SplitBlock(i, head, tail);
        if head > 0 {
          i := i + 1;
          off := off + head;
          maxContig := if map_[i - 1] > maxContig then map_[i - 1] else maxContig;
        }
        if tail > 0 {
          maxContig := if map_[i + 1] > maxContig then map_[i + 1] else maxContig;
        }
      } else {
        Around(map_, i);
      }
    }

    /** The block is found: mm/percpu.c:342-383 */
    method Carve(i0: nat, off0: nat, size: int, head0: nat, maxContig0: nat) returns (off: int)
      requires Valid() && size > 0 && |map_| + 2 <= map_alloc && i0 < |map_| && off0 == Span(map_[..i0])
      requires map_[i0] >= head0 + size && (i0 == 0 ==> head0 == 0) && maxContig0 == MaxFree(map_[..i0])
      modifies `map_, `free_size, `contig_hint, `live
      ensures Valid() && off == off0 + head0 && off !in old(live) && live == old(live)[off := size]
      ensures old(free_size) - size - 2 * (SIZEOF_INT - 1) <= free_size <= old(free_size) - size && contig_hint <= old(contig_hint)
      ensures map_ == CarvedMap(old(map_), i0, size, head0)
      ensures contig_hint == if i0 + 1 == |old(map_)| then MaxFree(map_) else old(contig_hint)
    {
      hide Sane, FreeSum, MaxFree, Span, NoneAbove, Pieces, CarvedMap;
      var isLast, i, head, maxContig := i0 + 1 == |map_|, i0, head0, maxContig0;
      ghost var pre, post := map_[..i0], map_[i0 + 1..];
      off := off0;
      Around(map_, i);
      if head > 0 && (head < SIZEOF_INT || map_[i - 1] > 0) {
        pre := map_[..i - 1] + [map_[i - 1] - head];
        MergeHead(i, head);
        assert map_[i] == old(map_)[i] - head;
        off := off + head;
        head := 0;
      }
      var tail := map_[i] - head - size;
      if tail < SIZEOF_INT {
        tail := 0;
      }
      ghost var b, used := map_[i], map_[i] - head - tail;
      Carved(pre, b, post, unit, live, head, used, tail, size);
      ghost var most, piece := maxContig, head;
      HintAbove(pre, b, post, contig_hint);
      assert map_[..i] == pre && map_[i + 1..] == post;
      i, off, maxContig := SplitOff(i, off, head, tail, maxContig);
      CarvedCases(old(map_), i0, size, head0, pre, piece, tail, used);
      ghost var hint := contig_hint;
      contig_hint := if isLast then maxContig else if contig_hint > maxContig then contig_hint else maxContig;
      CarvedHint(pre, b, post, hint, most, piece, used, tail, contig_hint);
      free_size := free_size - map_[i];
      NegateAt(pre, head, used, tail, post);
      PiecesMax(pre, head, used, tail);
      assert isLast ==> pre + Pieces(head, -used, tail) + post == pre + Pieces(head, -used, tail);
      map_ := map_[i := -map_[i]];
      live := live[off := size];
    }

    /** pcpu_free_area: mm/percpu.c:395-427, the second memmove taken from `map[i + 2]`. */
    method FreeArea(freeme: int)
      requires Valid() && freeme in live
      modifies `map_, `free_size, `contig_hint, `live
      ensures Valid() && live == old(live) - {freeme} && free_size >= old(free_size) + old(live)[freeme]
      ensures |map_| <= |old(map_)|
      ensures ReturnedAt(old(map_), old(contig_hint), map_, contig_hint, freeme)
      ensures contig_hint == old(contig_hint) || (contig_hint > old(contig_hint) && contig_hint in map_)
    {
      hide Sane, FreeSum, MaxFree, Span, NoneAbove, Starts, Serves, Separated, Before, After, FreeBefore, FreeAfter, Opt;
      var i, off := FindArea(freeme);
      ghost var m, u, hint := map_, -map_[i], contig_hint;
      ghost var a, x, y, c := Before(m, i), FreeBefore(m, i), FreeAfter(m, i), After(m, i);
      Neighbours(m, i, unit, live);
      Freed(a, x, u, y, c, unit, live);
      LeftSpan(m, i);
      i := TurnOver(i);
      contig_hint := if map_[i] > contig_hint then map_[i] else contig_hint;
      FreedHint(a, x, u, y, c, hint, contig_hint);
      live := live - {freeme};
    }

    /** The block is made free and merged with its neighbours: mm/percpu.c:406-423 */
    method TurnOver(i0: nat) returns (i: nat)
      requires i0 < |map_|
      modifies `map_, `free_size
      ensures i < |map_| && map_[i] == FreeBefore(old(map_), i0) - old(map_)[i0] + FreeAfter(old(map_), i0)
      ensures map_ == Before(old(map_), i0) + [map_[i]] + After(old(map_), i0)
      ensures free_size == old(free_size) - old(map_)[i0]
    {
      ghost var m := map_;
      map_ := map_[i0 := -map_[i0]];
      free_size := free_size + map_[i0];
      MergedPrevious(m, i0);
      i := MergePrevious(i0);
      MergedNext(m, i0, map_[i]);
      MergeNext(i);
    }

    /** mm/percpu.c:410-416 */
    method MergePrevious(i0: nat) returns (i: nat)
      requires i0 < |map_|
      modifies `map_
      ensures map_ == WithPrevious(old(map_), i0) && i == if FreeAt(old(map_), i0 - 1) then i0 - 1 else i0
    {
      i := i0;
      if i > 0 && map_[i - 1] >= 0 {
        map_ := map_[i - 1 := map_[i - 1] + map_[i]];
        map_ := map_[..i] + map_[i + 1..];
        i := i - 1;
      }
    }

    /** mm/percpu.c:418-423 */
    method MergeNext(i: nat)
      requires i < |map_|
      modifies `map_
      ensures map_ == WithNext(old(map_), i)
    {
      if i + 1 < |map_| && map_[i + 1] >= 0 {
        map_ := map_[i := map_[i] + map_[i + 1]];
        map_ := map_[..i + 1] + map_[i + 2..];
      }
    }

    /** The block that starts at a live offset: mm/percpu.c:400-404 */
    method FindArea(freeme: int) returns (i: nat, off: int)
      requires Valid() && freeme in live
      ensures i < |map_| && off == Span(map_[..i]) == freeme && map_[i] < 0 && -map_[i] >= live[freeme]
    {
      hide Separated, Span, FreeSum, Starts, Serves;
      i, off := 0, 0;
      Beginning(map_);
      assert map_[0..] == map_;
      while i < |map_| && off != freeme
        invariant 0 <= i <= |map_| && off == Span(map_[..i])
        invariant freeme in Starts(map_[i..], off) && Serves(map_[i..], off, live)
      {
        NextStart(map_[i..], off, live);
        assert map_[i..][1..] == map_[i + 1..];
        SpanNext(map_, i);
        off := off + Abs(map_[i]);
        i := i + 1;
      }
      AtStart(map_, i, off, freeme, live);
    }
  }

  lemma NextStart(m: Map, off: int, live: map<int, int>)
    requires m != [] && Serves(m, off, live)
    ensures Serves(m[1..], off + Abs(m[0]), live)
    ensures forall x :: x in Starts(m, off) && x != off ==> x in Starts(m[1..], off + Abs(m[0]))
  {
  }

  lemma AtStart(m: Map, i: nat, off: int, x: int, live: map<int, int>)
    requires i <= |m| && Separated(m) && x in Starts(m[i..], off) && Serves(m[i..], off, live) && (i < |m| ==> off == x)
    ensures i < |m| && m[i] < 0 && x in live && -m[i] >= live[x]
  {
    assert i < |m|;
    var t := m[i..];
    assert t[0] == m[i];
    forall k | 0 <= k < |t[1..]|
      ensures t[1..][k] != 0
    {
      assert m[i + 1 + k] == t[1..][k];
    }
    StartsWithin(t[1..], off + Abs(t[0]));
  }

  // The free neighbours of block `i`, and the map on either side of them.

  predicate FreeAt(m: Map, i: int) { 0 <= i < |m| && m[i] >= 0 }

  function FreeBefore(m: Map, i: nat): nat { if FreeAt(m, i - 1) then m[i - 1] else 0 }

  function FreeAfter(m: Map, i: nat): nat { if FreeAt(m, i + 1) then m[i + 1] else 0 }

  function Before(m: Map, i: nat): Map
    requires i < |m|
  {
    if FreeAt(m, i - 1) then m[..i - 1] else m[..i]
  }

  function After(m: Map, i: nat): Map
    requires i < |m|
  {
    if FreeAt(m, i + 1) then m[i + 2..] else m[i + 1..]
  }

  /** Used block `i` made free and joined to the free blocks beside it. */
  function TurnedOver(m: Map, i: nat): Map
    requires i < |m|
  {
    Before(m, i) + [FreeBefore(m, i) - m[i] + FreeAfter(m, i)] + After(m, i)
  }

  /** The used block at offset `off` was given back.  The hint rises to what came of it. */
  ghost predicate ReturnedAt(m: Map, hint: int, m': Map, hint': int, off: int) {
    exists i: nat :: i < |m| && Span(m[..i]) == off && m[i] < 0 && m' == TurnedOver(m, i)
      && hint' == var b := FreeBefore(m, i) - m[i] + FreeAfter(m, i); if b > hint then b else hint
  }

  /** What a block of at least an int leaves when it is given back is at least an int. */
  lemma TurnedIntSized(m: Map, i: nat)
    requires i < |m| && IntSized(m) && m[i] < 0
    ensures IntSized(TurnedOver(m, i))
  {
  }

  /** Block `i` joined to the free block before it. */
  function WithPrevious(m: Map, i: nat): Map
    requires i < |m|
  {
    if FreeAt(m, i - 1) then m[..i - 1] + [m[i - 1] + m[i]] + m[i + 1..] else m
  }

  /** Block `i` joined to the free block after it. */
  function WithNext(m: Map, i: nat): Map
    requires i < |m|
  {
    if FreeAt(m, i + 1) then m[..i] + [m[i] + m[i + 1]] + m[i + 2..] else m
  }

  lemma Neighbours(m: Map, i: nat, unit: int, live: map<int, int>)
    requires Sane(m, unit, live) && i < |m|
    ensures var a, x, y, c := Before(m, i), FreeBefore(m, i), FreeAfter(m, i), After(m, i);
      && m == a + Opt(x) + [m[i]] + (Opt(y) + c)
      && (a != [] && x == 0 ==> a[|a| - 1] < 0) && (c != [] && y == 0 ==> c[0] < 0)
      && (x > 0 <==> FreeAt(m, i - 1)) && (y > 0 <==> FreeAt(m, i + 1))
  {
    var a, x, y, c := Before(m, i), FreeBefore(m, i), FreeAfter(m, i), After(m, i);
    hide Span, Starts, Serves;
    assert a + Opt(x) == m[..i];
    assert Opt(y) + c == m[i + 1..];
    Around(m, i);
  }

  lemma LeftSpan(m: Map, i: nat)
    requires i < |m|
    ensures Span(m[..i]) == Span(Before(m, i)) + FreeBefore(m, i)
  {
    if FreeAt(m, i - 1) {
      SpanNext(m, i - 1);
    }
  }

  lemma MergedPrevious(m: Map, i: nat)
    requires i < |m|
    ensures WithPrevious(m[i := -m[i]], i) == Before(m, i) + [FreeBefore(m, i) - m[i]] + m[i + 1..]
    ensures |Before(m, i)| == if FreeAt(m, i - 1) then i - 1 else i
  {
  }

  lemma MergedNext(m: Map, i: nat, v: int)
    requires i < |m|
    ensures var n, j := Before(m, i) + [v] + m[i + 1..], |Before(m, i)|;
      n[j] == v && WithNext(n, j) == Before(m, i) + [v + FreeAfter(m, i)] + After(m, i)
  {
    var c := m[i + 1..];
    JoinNext(Before(m, i), v, c);
    assert i + 1 < |m| ==> c[0] == m[i + 1] && c[1..] == m[i + 2..];
  }

  lemma JoinNext(a: Map, v: int, c: Map)
    ensures (a + [v] + c)[|a|] == v
    ensures WithNext(a + [v] + c, |a|) == if FreeAt(c, 0) then a + [v + c[0]] + c[1..] else a + [v] + c
  {
  }

  lemma FreedHint(a: Map, x: nat, u: int, y: nat, c: Map, hint: int, h: int)
    requires NoneAbove(a + Opt(x) + [-u] + (Opt(y) + c), hint) && h >= hint && h >= x + u + y
    ensures NoneAbove(a + [x + u + y] + c, h)
  {
    var m, m' := a + Opt(x) + [-u] + (Opt(y) + c), a + [x + u + y] + c;
    forall k | 0 <= k < |m'|
      ensures m'[k] <= h
    {
      if k < |a| {
        assert m[k] == a[k];
      } else if k > |a| {
        assert m[k - 1 + |Opt(x)| + 1 + |Opt(y)|] == c[k - |a| - 1];
      }
    }
  }

  // ---------- what the invariant says ----------

  /** Live areas lie inside the unit and do not overlap. */
  lemma {:induction false} AreasApart(m: Map, base: int, live: map<int, int>, x: int, y: int)
    requires (forall i :: 0 <= i < |m| ==> m[i] != 0) && Serves(m, base, live) && x in Starts(m, base) && y in Starts(m, base) && x < y
    ensures x in live && y in live && base <= x && x + live[x] <= y && y + live[y] <= base + Span(m)
  {
    var t, next := m[1..], base + Abs(m[0]);
    StartsWithin(t, next);
    if x != base {
      AreasApart(t, next, live, x, y);
    } else {
      AreaWithin(t, next, live, y);
    }
  }

  lemma {:induction false} AreaWithin(m: Map, base: int, live: map<int, int>, y: int)
    requires (forall i :: 0 <= i < |m| ==> m[i] != 0) && Serves(m, base, live) && y in Starts(m, base)
    ensures y in live && base <= y && y + live[y] <= base + Span(m)
  {
    StartsWithin(m[1..], base + Abs(m[0]));
    if y != base {
      AreaWithin(m[1..], base + Abs(m[0]), live, y);
    }
  }

  lemma LiveApart(m: Map, unit: int, live: map<int, int>, x: int, y: int)
    requires Sane(m, unit, live) && x in live && y in live && x < y
    ensures 0 <= x && x + live[x] <= y && y + live[y] <= unit
  {
    AreasApart(m, 0, live, x, y);
  }

  /** When every area has been freed, the chunk is one free block again. */
  lemma AllFreed(m: Map, unit: int, live: map<int, int>)
    requires Sane(m, unit, live) && live == map[]
    ensures m == [unit]
  {
    assert |m| > 1 ==> m[1 - 1] < 0 || m[1] < 0;
    NoneUsed(m, 0);
    assert m == [m[0]];
    Single(m[0], 0, live);
  }

  lemma {:induction false} NoneUsed(m: Map, base: int)
    requires Starts(m, base) == {}
    ensures forall i :: 0 <= i < |m| ==> m[i] >= 0
  {
    if m != [] {
      assert m[0] < 0 ==> base in Starts(m, base);
      NoneUsed(m[1..], base + Abs(m[0]));
    }
  }

  lemma Beginning(m: Map)
    ensures Span(m[..0]) == 0 && MaxFree(m[..0]) == 0
  {
  }

  lemma HeadIs(m: Map, k: nat, align: nat)
    requires k < |m| && align > 0
    ensures Head(m, k, align) == AlignUp(Span(m[..k]), align) - Span(m[..k])
    ensures k == 0 ==> Head(m, k, align) == 0
  {
    if k == 0 {
      DivModUnique(0, 0, 0, align);
      AlignUpLeast(0, align, 0);
    }
  }

  lemma Around(m: Map, i: nat)
    requires i < |m|
    ensures m == m[..i] + [m[i]] + m[i + 1..]
  {
  }

  lemma GrownHint(pre: Map, b: int, post: Map, hint: int, head: nat, g: Map)
    requires NoneAbove(pre + [b] + post, hint) && pre != [] && g == pre[..|pre| - 1] + [pre[|pre| - 1] - head]
    ensures NoneAbove(g + [b - head] + post, hint) && (pre[|pre| - 1] < 0 ==> MaxFree(g) == MaxFree(pre))
  {
    hide MaxFree;
    var n, m := |pre| - 1, pre + [b] + post;
    var m' := g + [b - head] + post;
    forall k | 0 <= k < |m'|
      ensures m'[k] <= hint
    {
      assert m'[k] <= m[k];
    }
    LastUsed(pre);
    LastUsed(g);
    assert g[..n] == pre[..n];
  }

  lemma LastUsed(m: Map)
    requires m != []
    ensures m[|m| - 1] < 0 ==> MaxFree(m) == MaxFree(m[..|m| - 1])
  {
    MaxFreeNext(m, |m| - 1);
    assert m[..|m| - 1 + 1] == m;
  }

  lemma HintAbove(pre: Map, b: int, post: Map, hint: int)
    requires NoneAbove(pre + [b] + post, hint) && b > 0
    ensures MaxFree(pre) <= hint && b <= hint
  {
    var m := pre + [b] + post;
    MaxFreeIsMax(pre);
    assert m[|pre|] == b;
    assert forall k :: 0 <= k < |pre| ==> m[k] == pre[k];
  }

  /** What the pieces do to the hint: it may stay if it is no less than they are, and once
      the whole map has been looked at, the largest block seen will do. */
  lemma CarvedHint(pre: Map, b: int, post: Map, hint: int, most: nat, head: nat, used: int, tail: nat, h: int)
    requires NoneAbove(pre + [b] + post, hint) && most == MaxFree(pre) && b == head + used + tail && used > 0
    requires (h >= hint || (post == [] && h >= most)) && h >= head && h >= tail && h >= 0
    ensures NoneAbove(pre + Pieces(head, -used, tail) + post, h)
  {
    var m, p := pre + [b] + post, Pieces(head, -used, tail);
    MaxFreeIsMax(pre);
    forall k | 0 <= k < |pre + p + post|
      ensures (pre + p + post)[k] <= h
    {
      if k < |pre| {
        assert m[k] == pre[k];
      } else if k >= |pre| + |p| {
        assert m[k - |p| + 1] == post[k - |pre| - |p|];
      }
    }
  }

  /** Where the used piece comes to lie. */
  lemma PiecesAt(pre: Map, head: nat, used: int, tail: nat, post: Map)
    ensures var m, i := pre + Pieces(head, used, tail) + post, |pre| + (if head > 0 then 1 else 0);
      && i < |m| && m[i] == used && (head > 0 ==> m[i - 1] == head) && (tail > 0 ==> i + 1 < |m| && m[i + 1] == tail)
    ensures head == 0 && tail == 0 ==> pre + Pieces(head, used, tail) + post == pre + [used] + post
  {
  }

  lemma NegateAt(pre: Map, head: nat, used: int, tail: nat, post: Map)
    ensures var m, i := pre + Pieces(head, used, tail) + post, |pre| + (if head > 0 then 1 else 0);
      i < |m| && m[i := -used] == pre + Pieces(head, -used, tail) + post
  {
  }
}
