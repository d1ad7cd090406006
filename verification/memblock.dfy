/** mm/memblock.c: reserving and finding boot-time memory. */
module Memblock {
  import opened Align
  import opened Basics
  import opened MemblockRegions

  /** MEMBLOCK_ERROR */
  const NOT_FOUND: nat := 0

  /** memblock_addrs_adjacent: mm/memblock.c:237-246 */
  function AddrsAdjacent(base1: nat, size1: nat, base2: nat, size2: nat): int {
    if base2 == base1 + size1 then 1 else if base1 == base2 + size2 then -1 else 0
  }

  /** struct memblock_type */
  class MemblockType {
    const regions: array<Region>
    var cnt: nat

    ghost predicate Valid()
      reads `cnt, regions
    {
      cnt < regions.Length && Tidy(regions[..cnt])
    }

    /** The regions in use. */
    ghost function Rs(): Regions
      reads `cnt, regions
      requires cnt <= regions.Length
    {
      regions[..cnt]
    }

    constructor (max: nat)
      requires max > 1
      ensures Valid() && fresh(regions) && regions.Length == max && Rs() == [Region(0, 0)]
    {
      regions := new Region[max](_ => Region(0, 0));
      cnt := 1;
    }

    /** memblock_remove_region: mm/memblock.c:263-273 */
    method RemoveRegion(r: nat)
      requires r < cnt <= regions.Length
      modifies `cnt, regions
      ensures cnt == old(cnt) - 1 && regions[..cnt] == old(regions[..cnt])[..r] + old(regions[..cnt])[r + 1..]
    {
      var i := r;
      while i < cnt - 1
        invariant r <= i < cnt && cnt == old(cnt)
        invariant forall k :: 0 <= k < r || i < k < cnt ==> regions[k] == old(regions[k])
        invariant forall k :: r <= k < i ==> regions[k] == old(regions[k + 1])
      {
        regions[i] := regions[i + 1];
        i := i + 1;
      }
      cnt := cnt - 1;
    }

    /** memblock_coalesce_regions: mm/memblock.c:277-282 */
    method CoalesceRegions(r: nat)
      requires r + 1 < cnt <= regions.Length
      modifies `cnt, regions
      ensures cnt == old(cnt) - 1
      ensures var t := old(regions[..cnt]);
        regions[..cnt] == t[..r] + [Region(t[r].base, t[r].size + t[r + 1].size)] + t[r + 2..]
    {
      regions[r] := Region(regions[r].base, regions[r].size + regions[r + 1].size);
      RemoveRegion(r + 1);
    }

    /** memblock_add_region: mm/memblock.c:431-526.  The result counts the coalescings; a
        full array, which the source would enlarge, is not part of this model.  A range of
        no bytes is taken as well, and may leave an empty region. */
    method AddRegion(base: nat, size: nat) returns (coalesced: int)
      requires Valid() && 1 <= cnt && cnt + 1 < regions.Length
      requires base + size < ADDR_END && (Apart(Rs(), base, size) || Region(base, size) in Rs())
      modifies `cnt, regions
      ensures coalesced >= 0 && 1 <= cnt <= old(cnt) + 1 && (size > 0 ==> Valid() && Ordered(Rs()))
      ensures forall x: int :: In(Rs(), x) <==> old(In(Rs(), x)) || base <= x < base + size
      ensures Dummy(old(Rs())) ==> Rs() == [Region(base, size)]
      ensures Region(base, size) in old(Rs()) && size > 0 ==> Rs() == old(Rs()) && coalesced == 0
      ensures cnt != old(cnt) ==> coalesced == if cnt < old(cnt) then 1 + old(cnt) - cnt else 0
    {
      hide In, Ordered, Apart;
      if cnt == 1 && regions[0].size == 0 {
        regions[0] := Region(base, size);
        Single(old(Rs()), Rs());
        return 0;
      }
      NotDummy(Rs());
      ghost var was := Rs();
      coalesced := 0;
      var i := 0;
      while i < cnt
        invariant 0 <= i <= cnt && coalesced == 0
        invariant forall k :: 0 <= k < i ==> AddrsAdjacent(base, size, regions[k].base, regions[k].size) == 0 && was[k] != Region(base, size)
      {
        var rgn := regions[i];
        if rgn.base == base && rgn.size == size {
          AlreadyThere(was, i);
          return 0;
        }
        var adjacent := AddrsAdjacent(base, size, rgn.base, rgn.size);
        if adjacent != 0 {
          NoneLater(was, i, base, size);
          coalesced := Join(i, base, size, adjacent);
          return;
        }
        i := i + 1;
      }
      InsertSorted(base, size);
      return 0;
    }

    /** The range touches region `i`: mm/memblock.c:459-487 */
    method Join(i: nat, base: nat, size: nat, adjacent: int) returns (coalesced: int)
      requires i < cnt < regions.Length && Ordered(Rs())
      requires base + size < ADDR_END && Apart(Rs(), base, size)
      requires adjacent != 0 && adjacent == AddrsAdjacent(base, size, regions[i].base, regions[i].size)
      requires forall k :: 0 <= k < i ==> AddrsAdjacent(base, size, regions[k].base, regions[k].size) == 0
      modifies `cnt, regions
      ensures coalesced == 1 + old(cnt) - cnt && 1 <= cnt <= old(cnt) && Ordered(Rs())
      ensures forall x: int :: In(Rs(), x) <==> old(In(Rs(), x)) || base <= x < base + size
    {
      hide In, Apart, Ordered, OrderedBut;
      ghost var was := Rs();
      if adjacent > 0 {
        regions[i] := Region(regions[i].base - size, regions[i].size + size);
      } else {
        regions[i] := Region(regions[i].base, regions[i].size + size);
      }
      coalesced := 1;
      ghost var t := Rs();
      Grown(was, i, base, size, adjacent, t);
      ApartBut(t, i);
      if i < cnt - 1 && AddrsAdjacent(regions[i].base, regions[i].size, regions[i + 1].base, regions[i + 1].size) != 0 {
        CoalesceRegions(i);
        Coalesced(t, i, Rs());
        coalesced := 2;
      }
    }

    /** The regions above the range move up one place: mm/memblock.c:499-514 */
    method PutSorted(base: nat, size: nat) returns (ghost p: nat)
      requires 0 < cnt && cnt + 1 < regions.Length
      requires forall k, j :: 0 <= k < j < cnt ==> regions[k].base < regions[j].base
      modifies `cnt, regions
      ensures cnt == old(cnt) + 1 && p <= old(cnt)
      ensures var was := old(regions[..cnt]);
        && regions[..cnt] == was[..p] + [Region(base, size)] + was[p..]
        && (p > 0 ==> was[p - 1].base <= base) && (p < |was| ==> base < was[p].base)
    {
      ghost var was := regions[..cnt];
      var i := cnt - 1;
      while i >= 0
        invariant -1 <= i < cnt == old(cnt)
        invariant forall k :: 0 <= k <= i + 1 && k < cnt ==> regions[k] == was[k]
        invariant forall k :: i + 1 < k <= cnt ==> regions[k] == was[k - 1]
        invariant i + 1 < cnt ==> base < was[i + 1].base
      {
        if base < regions[i].base {
          regions[i + 1] := regions[i];
        } else {
          regions[i + 1] := Region(base, size);
          break;
        }
        i := i - 1;
      }
      p := i + 1;
      if base < regions[0].base {
        regions[0] := Region(base, size);
      }
      cnt := cnt + 1;
      forall k: nat | k < cnt
        ensures regions[k] == if k < p then was[k] else if k == p then Region(base, size) else was[k - 1]
      {
      }
      PutIn(was, p, Region(base, size), regions[..cnt]);
    }

    /** The range becomes a region of its own. */
    method InsertSorted(base: nat, size: nat)
      requires 0 < cnt && cnt + 1 < regions.Length && Ordered(Rs())
      requires base + size < ADDR_END && Apart(Rs(), base, size)
      requires forall k :: 0 <= k < cnt ==> AddrsAdjacent(base, size, regions[k].base, regions[k].size) == 0
      modifies `cnt, regions
      ensures cnt == old(cnt) + 1 && (size > 0 ==> Ordered(Rs()))
      ensures forall x: int :: In(Rs(), x) <==> old(In(Rs(), x)) || base <= x < base + size
    {
      hide In, Apart, Ordered;
      ghost var was := Rs();
      OrderedBases(was);
      ghost var p := PutSorted(base, size);
      if size > 0 {
        Inserted(was, p, base, size);
      } else {
        EmptyInserted(was, p, base, Rs());
      }
    }

    /** __memblock_remove: mm/memblock.c:286-333 */
    method Remove(base: nat, size: nat) returns (err: int)
      requires Valid() && Ordered(Rs()) && cnt + 1 < regions.Length && size > 0 && base + size < ADDR_END
      modifies `cnt, regions
      ensures err < 0 <==> forall k :: 0 <= k < |old(Rs())| ==> !Within(old(Rs())[k], base, base + size)
      ensures Valid() && Ordered(Rs()) && (err < 0 ==> Rs() == old(Rs()))
      ensures err >= 0 ==> forall x: int :: In(Rs(), x) <==> old(In(Rs(), x)) && !(base <= x < base + size)
    {
      hide In, Ordered, Apart;
      ghost var was := Rs();
      var end, i := base + size, 0;
      while i < cnt && !(regions[i].base <= base && end <= regions[i].base + regions[i].size)
        invariant 0 <= i <= cnt
        invariant forall k :: 0 <= k < i ==> !Within(was[k], base, end)
      {
        i := i + 1;
      }
      if i == cnt {
        return -1;
      }
      assert Within(was[i], base, end);
      err := Exclude(i, base, size);
    }

    /** Region `i` gives up the range it holds: mm/memblock.c:305-332.  A hole in its middle
        leaves two regions, of which the upper is added again. */
    method Exclude(i: nat, base: nat, size: nat) returns (err: int)
      requires i < cnt && cnt + 1 < regions.Length && Ordered(Rs()) && size > 0
      requires Within(regions[i], base, base + size)
      modifies `cnt, regions
      ensures err >= 0 && Valid() && Ordered(Rs())
      ensures forall x: int :: In(Rs(), x) <==> old(In(Rs(), x)) && !(base <= x < base + size)
    {
      hide In, Ordered, Apart;
      ghost var was := Rs();
      var end := base + size;
      var begin, top := regions[i].base, regions[i].base + regions[i].size;
      RegionOf(was, i);
      if begin == base && top == end {
        RemoveRegion(i);
        Dropped(was, i);
        InsideIs(was[i], base, end);
        return 0;
      }
      if begin == base {
        regions[i] := Region(end, regions[i].size - size);
        Cut(was, i, Region(end, top - end), base, end);
        assert Rs() == was[i := Region(end, top - end)];
        return 0;
      }
      if top == end {
        regions[i] := Region(begin, regions[i].size - size);
        Cut(was, i, Region(begin, base - begin), base, end);
        assert Rs() == was[i := Region(begin, base - begin)];
        return 0;
      }
      regions[i] := Region(begin, base - begin);
      Cut(was, i, Region(begin, base - begin), base, top);
      ghost var t := Rs();
      assert t == was[i := Region(begin, base - begin)];
      Gap(was, t, base, end, top);
      err := AddRegion(end, top - end);
      Refilled(was, t, Rs(), i, base, end, top);
    }

    /** memblock_search: mm/memblock.c:585-602.  The loop looks at the middle region before it
        tests for an empty range, so the array must not be empty. */
    method Search(addr: nat) returns (found: int)
      requires Valid() && cnt >= 1
      ensures if found >= 0 then found < cnt && Inside(Rs()[found], addr) else !In(Rs(), addr)
    {
      var left, right := 0, cnt;
      while true
        invariant 0 <= left < right <= cnt
        invariant forall k :: 0 <= k < left || right <= k < cnt ==> !Inside(regions[k], addr)
        decreases right - left
      {
        var mid := (right + left) / 2;
        if addr < regions[mid].base {
          right := mid;
        } else if addr >= regions[mid].base + regions[mid].size {
          left := mid + 1;
        } else {
          return mid;
        }
        if !(left < right) {
          break;
        }
      }
      return -1;
    }

    /** memblock_overlaps_region: mm/memblock.c:143-156, with memblock_addrs_overlap */
    method OverlapsRegion(base: nat, size: nat) returns (j: int)
      requires cnt <= regions.Length
      ensures -1 <= j < cnt
      ensures j < 0 ==> forall k :: 0 <= k < cnt ==> !Overlap(regions[k], base, size)
      ensures j >= 0 ==> Overlap(regions[j], base, size)
    {
      var i := 0;
      while i < cnt
        invariant 0 <= i <= cnt
        invariant forall k :: 0 <= k < i ==> !Overlap(regions[k], base, size)
      {
        var r := regions[i];
        if r.base < base + size && base < r.base + r.size {
          break;
        }
        i := i + 1;
      }
      return if i < cnt then i else -1;
    }
  }

  ghost predicate Within(r: Region, base: nat, end: nat) { r.base <= base && end <= End(r) }

  ghost predicate Overlap(r: Region, base: nat, size: nat) { r.base < base + size && base < End(r) }

  lemma PutIn(was: Regions, p: nat, r: Region, rs: Regions)
    requires p <= |was| && |rs| == |was| + 1
    requires forall k: nat {:trigger rs[k]} :: k < |rs| ==> rs[k] == if k < p then was[k] else if k == p then r else was[k - 1]
    ensures rs == was[..p] + [r] + was[p..]
  {
  }

  lemma EmptyInserted(was: Regions, p: nat, base: nat, rs: Regions)
    requires p <= |was| && rs == was[..p] + [Region(base, 0)] + was[p..]
    ensures forall x: int :: In(rs, x) <==> In(was, x)
  {
    hide In;
    forall k: nat | k < |rs|
      ensures rs[k] == if k == p then Region(base, 0) else was[if k < p then k else k - 1]
    {
    }
    forall x: int
      ensures In(rs, x) <==> In(was, x)
    {
      InsertedIn(was, p, Region(base, 0), rs, x);
    }
  }

  lemma OrderedBases(rs: Regions)
    requires Ordered(rs)
    ensures forall k, j :: 0 <= k < j < |rs| ==> rs[k].base < rs[j].base
  {
  }

  lemma RegionOf(rs: Regions, i: nat)
    requires Ordered(rs) && i < |rs|
    ensures rs[i].size > 0 && End(rs[i]) < ADDR_END
  {
  }

  lemma InsideIs(r: Region, base: nat, end: nat)
    requires r.base == base && End(r) == end
    ensures forall x: int :: Inside(r, x) <==> base <= x < end
  {
  }

  /** What was cut off above the hole meets no other region. */
  lemma Gap(rs: Regions, t: Regions, base: nat, end: nat, top: nat)
    requires base < end < top && forall x: int :: In(t, x) <==> In(rs, x) && !(base <= x < top)
    ensures Apart(t, end, top - end)
  {
  }

  lemma Refilled(rs: Regions, t: Regions, u: Regions, i: nat, base: nat, end: nat, top: nat)
    requires i < |rs| && rs[i].base <= base < end < top == End(rs[i])
    requires forall x: int :: In(t, x) <==> In(rs, x) && !(base <= x < top)
    requires forall x: int :: In(u, x) <==> In(t, x) || end <= x < end + (top - end)
    ensures forall x: int :: In(u, x) <==> In(rs, x) && !(base <= x < end)
  {
  }

  lemma Single(was: Regions, rs: Regions)
    requires Dummy(was) && |rs| == 1 && End(rs[0]) < ADDR_END
    ensures (rs[0].size > 0 ==> Ordered(rs)) && forall x: int :: In(rs, x) <==> In(was, x) || Inside(rs[0], x)
  {
  }

  lemma NotDummy(rs: Regions)
    requires Tidy(rs) && !Dummy(rs)
    ensures Ordered(rs)
  {
  }

  lemma AlreadyThere(rs: Regions, i: nat)
    requires i < |rs|
    ensures forall x: int :: rs[i].base <= x < End(rs[i]) ==> In(rs, x)
  {
    forall x: int | rs[i].base <= x < End(rs[i])
      ensures In(rs, x)
    {
      assert Inside(rs[i], x);
    }
  }

  /** A range that touches region `i` is no later region. */
  lemma NoneLater(rs: Regions, i: nat, base: nat, size: nat)
    requires Ordered(rs) && i < |rs| && AddrsAdjacent(base, size, rs[i].base, rs[i].size) != 0
    ensures forall q :: i < q < |rs| ==> rs[q] != Region(base, size)
  {
  }

  // ---------- finding free memory ----------

  /** An aligned range inside [bottom, top) that meets no reserved region.  Address 0 means
      failure, so a search from 0 starts at the second page. */
  ghost predicate Fits(rs: Regions, bottom: nat, top: nat, size: nat, align: nat, a: nat)
    requires align > 0
  {
    && a % align == 0 && (if bottom == 0 then PAGE_SIZE else bottom) <= a && a + size <= top
    && forall k :: 0 <= k < |rs| ==> !Overlap(rs[k], a, size)
  }

  function Max(x: nat, y: nat): (m: nat)
    ensures m >= x && m >= y && (m == x || m == y)
  {
    if x > y then x else y
  }

  function Min(x: nat, y: nat): (m: nat)
    ensures m <= x && m <= y && (m == x || m == y)
  {
    if x < y then x else y
  }

  /** The part of a memory region within the limits, which is not empty, has room at `a`;
      from address 0 on the first page is left out. */
  ghost predicate FitsIn(r: Region, rs: Regions, start: nat, end: nat, size: nat, align: nat, a: nat)
    requires align > 0
  {
    && r.base < End(r) && r.base < end && start < End(r) && start < end
    && a % align == 0 && r.base <= a && start <= a && (r.base == 0 && start == 0 ==> PAGE_SIZE <= a)
    && a + size <= End(r) && a + size <= end
    && forall k :: 0 <= k < |rs| ==> !Overlap(rs[k], a, size)
  }

  class Memblock {
    const memory: MemblockType
    const reserved: MemblockType
    var current_limit: nat
    /** The ranges that allocation has returned. */
    ghost var given: seq<Region>

    /** Allocated ranges are reserved, and no two of them overlap. */
    ghost predicate Valid()
      reads this, memory, reserved, memory.regions, reserved.regions
    {
      && memory != reserved && memory.regions != reserved.regions && memory.Valid() && reserved.Valid()
      && (forall i, x: int :: 0 <= i < |given| && Inside(given[i], x) ==> In(reserved.Rs(), x))
      && (forall i, j, x: int :: 0 <= i < j < |given| && Inside(given[i], x) ==> !Inside(given[j], x))
    }

    constructor (max: nat, limit: nat)
      requires max > 1
      ensures Valid() && given == [] && current_limit == limit
      ensures fresh(memory) && fresh(memory.regions) && memory.Rs() == [Region(0, 0)] && memory.regions.Length == max
      ensures fresh(reserved) && fresh(reserved.regions) && reserved.Rs() == [Region(0, 0)] && reserved.regions.Length == max
    {
      memory := new MemblockType(max);
      reserved := new MemblockType(max);
      current_limit, given := limit, [];
    }

    /** memblock_find_region: mm/memblock.c:161-192 */
    method FindRegion(start: nat, end: nat, size: nat, align: nat) returns (found: nat)
      requires reserved.Valid() && align > 0
      ensures found != NOT_FOUND ==> Fits(reserved.Rs(), start, end, size, align, found)
      ensures forall a: nat :: a > found ==> !Fits(reserved.Rs(), start, end, size, align, a)
    {
      hide Fits;
      if end < size {
        TooSmall(reserved.Rs(), start, end, size, align);
        return NOT_FOUND;
      }
      var base: nat := AlignDown(end - size, align);
      var from := if start == 0 then PAGE_SIZE else start;
      NoneHigher(reserved.Rs(), start, end, size, align, base);
      while from <= base
        invariant base % align == 0 && base + size <= end
        invariant forall a: nat :: a > base ==> !Fits(reserved.Rs(), start, end, size, align, a)
        decreases base
      {
        var j := reserved.OverlapsRegion(base, size);
        if j < 0 {
          ItFits(reserved.Rs(), start, end, size, align, base);
          return base;
        }
        var res := reserved.regions[j].base;
        assert reserved.Rs()[j] == reserved.regions[j];
        if res < size {
          NoneBelow(reserved.Rs(), j, start, end, size, align, base);
          return NOT_FOUND;
        }
        Skipped(reserved.Rs(), j, start, end, size, align, base);
        base := AlignDown(res - size, align);
      }
      NoneUnder(reserved.Rs(), start, end, size, align, base);
      return NOT_FOUND;
    }

    /** memblock_find_base: mm/memblock.c:196-233.  The search goes from the highest memory
        region down; `end` 0 stands for the current limit. */
    method FindBase(size: nat, align: nat, start: nat, end0: nat) returns (found: nat)
      requires memory.Valid() && reserved.Valid() && align > 0
      ensures var end := if end0 == 0 then current_limit else end0;
        && (found != NOT_FOUND ==> exists k :: 0 <= k < memory.cnt && FitsIn(memory.Rs()[k], reserved.Rs(), start, end, size, align, found))
        && (forall k, a: nat :: 0 <= k < memory.cnt && a > found ==> !FitsIn(memory.Rs()[k], reserved.Rs(), start, end, size, align, a))
    {
      hide Fits, FitsIn;
      var end := if end0 == 0 then current_limit else end0;
      var i := memory.cnt - 1;
      while i >= 0
        invariant -1 <= i < memory.cnt
        invariant forall k, a: nat :: i < k < memory.cnt ==> !FitsIn(memory.Rs()[k], reserved.Rs(), start, end, size, align, a)
      {
        var r := memory.regions[i];
        assert r == memory.Rs()[i];
        if r.size >= size {
          if r.base + r.size <= start {
            BelowStart(memory.Rs(), i, reserved.Rs(), start, end, size, align);
            return NOT_FOUND;
          }
          var bottom, top := Max(r.base, start), Min(r.base + r.size, end);
          NotIfEmpty(r, reserved.Rs(), start, end, size, align);
          if bottom < top {
            found := FindRegion(bottom, top, size, align);
            if found != NOT_FOUND {
              FitsInIs(r, reserved.Rs(), start, end, size, align, found);
              AboveInThis(r, reserved.Rs(), start, end, size, align, found);
              HigherThanLower(memory.Rs(), i, reserved.Rs(), start, end, size, align, found);
              return;
            }
            NotInThis(r, reserved.Rs(), start, end, size, align);
          }
        } else {
          NotIfSmall(r, reserved.Rs(), start, end, size, align);
        }
        i := i - 1;
      }
      return NOT_FOUND;
    }

    /** __memblock_alloc_base: mm/memblock.c:546-561.  The size is rounded in 32 bits: one that
        rounds up to 2^32 becomes 0.  The BUG_ON of memblock_find_base prints a message then,
        and the search goes on; what it finds is handed out, and nothing is reserved. */
    method AllocBase(size: nat, align: nat, max: nat) returns (found: nat)
      requires Valid() && 0 < size < ADDR_END && align > 0
      requires 1 <= reserved.cnt && reserved.cnt + 1 < reserved.regions.Length
      modifies reserved`cnt, reserved.regions, `given
      ensures size + align <= ADDR_END ==> Valid() && RoundUp32(size, align) == AlignUp(size, align)
      ensures size + align > ADDR_END ==> RoundUp32(size, align) == 0
      ensures reserved.cnt <= old(reserved.cnt) + 1
      ensures found == NOT_FOUND ==> given == old(given) && reserved.Rs() == old(reserved.Rs())
      ensures found != NOT_FOUND ==> given == old(given) + [Region(found, RoundUp32(size, align))]
      ensures found != NOT_FOUND ==>
        forall x: int :: In(reserved.Rs(), x) <==> old(In(reserved.Rs(), x)) || found <= x < found + RoundUp32(size, align)
      ensures found != NOT_FOUND ==> (Covers(reserved.Rs(), found, size) <==> size + align <= ADDR_END)
      ensures IsHighest(memory.Rs(), old(reserved.Rs()), if max == 0 then current_limit else max, RoundUp32(size, align), align, found)
    {
      hide In, Ordered, Apart, Tidy;
      RoundUp32Is(size, align);
      var rounded := RoundUp32(size, align);
      found := FindBase(rounded, align, 0, max);
      if found != NOT_FOUND {
        ghost var end := if max == 0 then current_limit else max;
        ghost var k: nat :| k < memory.cnt && FitsIn(memory.Rs()[k], reserved.Rs(), 0, end, rounded, align, found);
        FoundApart(memory.Rs(), k, reserved.Rs(), end, rounded, align, found);
        GivenApart(given, reserved.Rs(), found, rounded);
        ghost var was := reserved.Rs();
        var r := reserved.AddRegion(found, rounded);
        given := given + [Region(found, rounded)];
        Promised(was, reserved.Rs(), found, size, align);
      }
    }
  }

  /** With one region of memory, from 1 MB to 2 MB, a request for 0xFFFFF001 bytes is granted:
      its address is the first one after that memory, and nothing is reserved. */
  method GrantsNothing() returns (m: Memblock, found: nat)
    ensures m.memory.Valid() && m.reserved.cnt <= m.reserved.regions.Length
    ensures found == 0x20_0000 && m.memory.Rs() == [Region(0x10_0000, 0x10_0000)]
    ensures forall x: int :: !In(m.reserved.Rs(), x)
  {
    hide IsHighest;
    m := new Memblock(16, 0x20_0000);
    Empty(m.memory.Rs(), 0x10_0000, 0x10_0000);
    var r := m.memory.AddRegion(0x10_0000, 0x10_0000);
    found := m.AllocBase(0xFFFF_F001, 0x1000, 0);
    TopOnly([Region(0, 0)], found);
    Empty([Region(0, 0)], 0, 0);
  }

  lemma Empty(rs: Regions, base: nat, size: nat)
    requires Dummy(rs)
    ensures Apart(rs, base, size) && forall x: int :: !In(rs, x)
  {
  }

  lemma TopOnly(rs: Regions, found: nat)
    requires Dummy(rs) && IsHighest([Region(0x10_0000, 0x10_0000)], rs, 0x20_0000, 0, 0x1000, found)
    ensures found == 0x20_0000
  {
    var ms := [Region(0x10_0000, 0x10_0000)];
    assert FitsIn(ms[0], rs, 0, 0x20_0000, 0, 0x1000, 0x20_0000);
  }

  /** memblock_align_up: mm/memblock.c:124-127.  The sum wraps around. */
  function RoundUp32(x: nat, align: nat): nat
    requires align > 0
  {
    AlignDown((x + align - 1) % ADDR_END, align)
  }

  lemma RoundUp32Is(x: nat, align: nat)
    requires align > 0 && 0 < x < ADDR_END
    ensures RoundUp32(x, align) == if x + align <= ADDR_END then AlignUp(x, align) else 0
  {
    if x + align > ADDR_END {
      AlignDownSmall((x + align - 1) % ADDR_END, align);
    }
  }

  /** Every address of the range is in some region. */
  ghost predicate Covers(rs: Regions, base: nat, size: nat) { forall x: int :: base <= x < base + size ==> In(rs, x) }

  /** The caller has the bytes it asked for just when rounding did not wrap. */
  lemma Promised(was: Regions, rs: Regions, found: nat, size: nat, align: nat)
    requires Tidy(was) && align > 0 && 0 < size < ADDR_END && found % align == 0 && found > 0
    requires forall x: int :: In(rs, x) <==> In(was, x) || found <= x < found + RoundUp32(size, align)
    ensures Covers(rs, found, size) <==> size + align <= ADDR_END
  {
    hide In;
    RoundUp32Is(size, align);
    if size + align > ADDR_END {
      MultiplesDiffer(found, align);
      NoneOver(was, found + size - 1);
      assert !In(rs, found + size - 1);
    }
  }

  /** The highest place in any memory region, or NOT_FOUND when there is none. */
  ghost predicate IsHighest(ms: Regions, rs: Regions, end: nat, size: nat, align: nat, found: nat)
    requires align > 0
  {
    && (found != NOT_FOUND ==> exists k :: 0 <= k < |ms| && FitsIn(ms[k], rs, 0, end, size, align, found))
    && (forall k, a: nat :: 0 <= k < |ms| && a > found ==> !FitsIn(ms[k], rs, 0, end, size, align, a))
  }

  lemma TooSmall(rs: Regions, start: nat, end: nat, size: nat, align: nat)
    requires end < size && align > 0
    ensures forall a: nat :: !Fits(rs, start, end, size, align, a)
  {
  }

  /** No aligned range is higher than the first one tried. */
  lemma NoneHigher(rs: Regions, start: nat, end: nat, size: nat, align: nat, base: nat)
    requires align > 0 && size <= end && base == AlignDown(end - size, align)
    ensures forall a: nat :: a > base ==> !Fits(rs, start, end, size, align, a)
  {
    forall a: nat | a > base && a % align == 0 && a + size <= end
      ensures false
    {
      AlignDownGreatest(end - size, align, a);
    }
  }

  lemma ItFits(rs: Regions, start: nat, end: nat, size: nat, align: nat, base: nat)
    requires align > 0 && base % align == 0 && base + size <= end && (if start == 0 then PAGE_SIZE else start) <= base
    requires forall k :: 0 <= k < |rs| ==> !Overlap(rs[k], base, size)
    ensures Fits(rs, start, end, size, align, base)
  {
  }

  /** Between the range that fails and the place just below what it runs into, nothing fits. */
  lemma Skipped(rs: Regions, j: nat, start: nat, end: nat, size: nat, align: nat, base: nat)
    requires j < |rs| && Overlap(rs[j], base, size) && align > 0 && size <= rs[j].base
    requires forall a: nat :: a > base ==> !Fits(rs, start, end, size, align, a)
    ensures AlignDown(rs[j].base - size, align) < base
    ensures forall a: nat :: a > AlignDown(rs[j].base - size, align) ==> !Fits(rs, start, end, size, align, a)
  {
    var next := AlignDown(rs[j].base - size, align);
    forall a: nat | next < a <= base && a % align == 0
      ensures Overlap(rs[j], a, size)
    {
      if a + size <= rs[j].base {
        AlignDownGreatest(rs[j].base - size, align, a);
      }
    }
  }

  lemma NoneBelow(rs: Regions, j: nat, start: nat, end: nat, size: nat, align: nat, base: nat)
    requires j < |rs| && Overlap(rs[j], base, size) && align > 0 && rs[j].base < size
    requires forall a: nat :: a > base ==> !Fits(rs, start, end, size, align, a)
    ensures forall a: nat :: !Fits(rs, start, end, size, align, a)
  {
  }

  lemma NoneUnder(rs: Regions, start: nat, end: nat, size: nat, align: nat, base: nat)
    requires align > 0 && base < (if start == 0 then PAGE_SIZE else start)
    requires forall a: nat :: a > base ==> !Fits(rs, start, end, size, align, a)
    ensures forall a: nat :: !Fits(rs, start, end, size, align, a)
  {
  }

  lemma FitsInIs(r: Region, rs: Regions, start: nat, end: nat, size: nat, align: nat, a: nat)
    requires align > 0
    ensures var bottom, top := Max(r.base, start), Min(End(r), end);
      FitsIn(r, rs, start, end, size, align, a) <==> bottom < top && Fits(rs, bottom, top, size, align, a)
  {
  }

  lemma NotIfEmpty(r: Region, rs: Regions, start: nat, end: nat, size: nat, align: nat)
    requires align > 0
    ensures Max(r.base, start) >= Min(End(r), end) ==> forall a: nat :: !FitsIn(r, rs, start, end, size, align, a)
  {
  }

  lemma AboveInThis(r: Region, rs: Regions, start: nat, end: nat, size: nat, align: nat, found: nat)
    requires align > 0 && forall a: nat :: a > found ==> !Fits(rs, Max(r.base, start), Min(End(r), end), size, align, a)
    ensures forall a: nat :: a > found ==> !FitsIn(r, rs, start, end, size, align, a)
  {
    hide Fits;
    forall a: nat | a > found
      ensures !FitsIn(r, rs, start, end, size, align, a)
    {
      FitsInIs(r, rs, start, end, size, align, a);
    }
  }

  lemma NotIfSmall(r: Region, rs: Regions, start: nat, end: nat, size: nat, align: nat)
    requires r.size < size && align > 0
    ensures forall a: nat :: !FitsIn(r, rs, start, end, size, align, a)
  {
  }

  lemma NotInThis(r: Region, rs: Regions, start: nat, end: nat, size: nat, align: nat)
    requires align > 0 && forall a: nat :: a > 0 ==> !Fits(rs, Max(r.base, start), Min(End(r), end), size, align, a)
    ensures forall a: nat :: !FitsIn(r, rs, start, end, size, align, a)
  {
    hide Fits;
    AboveInThis(r, rs, start, end, size, align, 0);
  }

  /** The memory regions below one that ends at the start end there too. */
  lemma BelowStart(ms: Regions, i: nat, rs: Regions, start: nat, end: nat, size: nat, align: nat)
    requires Tidy(ms) && i < |ms| && End(ms[i]) <= start && align > 0
    ensures forall k, a: nat :: 0 <= k <= i ==> !FitsIn(ms[k], rs, start, end, size, align, a)
  {
  }

  /** What is found in one memory region is above everything in the regions below. */
  lemma HigherThanLower(ms: Regions, i: nat, rs: Regions, start: nat, end: nat, size: nat, align: nat, found: nat)
    requires Tidy(ms) && i < |ms| && align > 0 && Fits(rs, Max(ms[i].base, start), Min(End(ms[i]), end), size, align, found)
    ensures forall k, a: nat :: 0 <= k < i && a > found ==> !FitsIn(ms[k], rs, start, end, size, align, a)
  {
  }

  lemma NoneOver(rs: Regions, x: int)
    requires Tidy(rs) && x >= ADDR_END
    ensures !In(rs, x)
  {
  }

  lemma FoundApart(ms: Regions, k: nat, rs: Regions, end: nat, size: nat, align: nat, found: nat)
    requires Tidy(ms) && Tidy(rs) && k < |ms| && align > 0 && FitsIn(ms[k], rs, 0, end, size, align, found)
    ensures Apart(rs, found, size) && found + size < ADDR_END
  {
  }

  lemma GivenApart(given: seq<Region>, rs: Regions, base: nat, size: nat)
    requires Apart(rs, base, size) && forall i, x: int :: 0 <= i < |given| && Inside(given[i], x) ==> In(rs, x)
    ensures forall i, x: int :: 0 <= i < |given| && Inside(given[i], x) ==> !Inside(Region(base, size), x)
  {
    hide In;
    forall i, x: int | 0 <= i < |given| && Inside(given[i], x)
      ensures !Inside(Region(base, size), x)
    {
      assert In(rs, x);
    }
  }
}
