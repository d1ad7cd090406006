/** mm/memblock.c: the sorted arrays of regions, as sets of addresses. */
module MemblockRegions {
  import opened Basics

  /** phys_addr_t has 32 bits. */
  const ADDR_END: nat := WORD

  datatype Region = Region(base: nat, size: nat)

  type Regions = seq<Region>

  function End(r: Region): nat { r.base + r.size }

  ghost predicate Inside(r: Region, x: int) { r.base <= x < End(r) }

  ghost predicate In(rs: Regions, x: int) { exists i :: 0 <= i < |rs| && Inside(rs[i], x) }

  /** Sorted, disjoint, and no two regions adjacent. */
  ghost predicate Ordered(rs: Regions) {
    && (forall i :: 0 <= i < |rs| ==> rs[i].size > 0 && End(rs[i]) < ADDR_END)
    && (forall i, j :: 0 <= i < j < |rs| ==> End(rs[i]) < rs[j].base)
  }

  /** memblock_init leaves one region of size 0, which the first addition overwrites. */
  ghost predicate Dummy(rs: Regions) { |rs| == 1 && rs[0].size == 0 }

  ghost predicate Tidy(rs: Regions) { Dummy(rs) || Ordered(rs) }

  ghost predicate Apart(rs: Regions, base: nat, size: nat) { forall x: int :: base <= x < base + size ==> !In(rs, x) }

  lemma ApartFrom(rs: Regions, base: nat, size: nat, i: nat)
    requires Apart(rs, base, size) && i < |rs| && size > 0 && rs[i].size > 0
    ensures End(rs[i]) <= base || base + size <= rs[i].base
  {
    assert Inside(rs[i], rs[i].base) && In(rs, rs[i].base);
    assert Inside(rs[i], base) ==> In(rs, base);
  }

  // ---------- adding a range ----------

  /** The range continues region `i` upwards. */
  lemma GrownUp(rs: Regions, i: nat, base: nat, size: nat)
    requires Ordered(rs) && i < |rs| && size > 0 && base + size < ADDR_END && Apart(rs, base, size) && End(rs[i]) == base
    ensures var t := rs[i := Region(rs[i].base, rs[i].size + size)];
      && (forall x: int :: In(t, x) <==> In(rs, x) || base <= x < base + size)
      && (i + 1 < |rs| ==> base + size <= rs[i + 1].base)
      && (!(i + 1 < |rs| && base + size == rs[i + 1].base) ==> Ordered(t))
  {
    var t := rs[i := Region(rs[i].base, rs[i].size + size)];
    if i + 1 < |rs| {
      ApartFrom(rs, base, size, i + 1);
    }
    forall x: int
      ensures In(t, x) <==> In(rs, x) || base <= x < base + size
    {
      Replaced(rs, i, t[i], x);
      assert Inside(t[i], x) <==> Inside(rs[i], x) || base <= x < base + size;
    }
  }

  lemma Replaced(rs: Regions, i: nat, r: Region, x: int)
    requires i < |rs| && (Inside(rs[i], x) ==> Inside(r, x))
    ensures In(rs[i := r], x) <==> In(rs, x) || Inside(r, x)
  {
    var t := rs[i := r];
    if In(rs, x) {
      var k :| 0 <= k < |rs| && Inside(rs[k], x);
      assert Inside(t[k], x);
    }
    if Inside(r, x) {
      assert Inside(t[i], x);
    }
    if In(t, x) && !Inside(r, x) {
      var k :| 0 <= k < |t| && Inside(t[k], x);
      assert Inside(rs[k], x);
    }
  }

  /** Ordered, except that region `i` may have come to touch the next one. */
  ghost predicate OrderedBut(t: Regions, i: nat) {
    && i < |t| && (forall k :: 0 <= k < |t| ==> t[k].size > 0 && End(t[k]) < ADDR_END)
    && (forall k, j :: 0 <= k < j < |t| && !(k == i && j == i + 1) ==> End(t[k]) < t[j].base)
    && (i + 1 < |t| ==> End(t[i]) <= t[i + 1].base)
  }

  lemma ApartBut(t: Regions, i: nat)
    requires OrderedBut(t, i)
    ensures i < |t| && t[i].size > 0 && (i + 1 < |t| ==> t[i + 1].size > 0 && t[i + 1].base >= End(t[i]))
    ensures !(i + 1 < |t| && End(t[i]) == t[i + 1].base) ==> Ordered(t)
  {
  }

  /** The range continues region `i` on one side. */
  lemma Grown(rs: Regions, i: nat, base: nat, size: nat, adjacent: int, t: Regions)
    requires Ordered(rs) && i < |rs| && base + size < ADDR_END && Apart(rs, base, size)
    requires t == rs[i := if adjacent > 0 then Region(base, rs[i].size + size) else Region(rs[i].base, rs[i].size + size)]
    requires if adjacent > 0 then base + size == rs[i].base else base == End(rs[i])
    requires adjacent > 0 && i > 0 ==> End(rs[i - 1]) != base
    ensures OrderedBut(t, i) && forall x: int :: In(t, x) <==> In(rs, x) || base <= x < base + size
  {
    hide In, Apart;
    if size == 0 {
      assert t == rs;
    } else if adjacent > 0 {
      GrownDown(rs, i, base, size);
    } else {
      GrownUp(rs, i, base, size);
    }
  }

  /** Two regions that have come to touch become one. */
  lemma Coalesced(t: Regions, i: nat, u: Regions)
    requires OrderedBut(t, i) && i + 1 < |t| && End(t[i]) == t[i + 1].base
    requires u == t[..i] + [Region(t[i].base, t[i].size + t[i + 1].size)] + t[i + 2..]
    ensures Ordered(u) && forall x: int :: In(u, x) <==> In(t, x)
  {
    var m := Region(t[i].base, t[i].size + t[i + 1].size);
    forall k: nat | k < |u|
      ensures u[k] == if k == i then m else t[if k < i then k else k + 1]
    {
    }
    forall x: int
      ensures In(u, x) <==> In(t, x)
    {
      CoalescedIn(t, i, u, x);
    }
  }

  lemma CoalescedIn(t: Regions, i: nat, u: Regions, x: int)
    requires i + 1 < |t| && End(t[i]) == t[i + 1].base && |u| == |t| - 1
    requires u[i] == Region(t[i].base, t[i].size + t[i + 1].size)
    requires forall k: nat :: k < |u| && k != i ==> u[k] == t[if k < i then k else k + 1]
    ensures In(u, x) <==> In(t, x)
  {
    if In(u, x) {
      var k :| 0 <= k < |u| && Inside(u[k], x);
      assert Inside(t[if k < i || (k == i && x < End(t[i])) then k else k + 1], x);
    }
    if In(t, x) {
      var k :| 0 <= k < |t| && Inside(t[k], x);
      assert Inside(u[if k <= i then k else k - 1], x);
    }
  }

  /** The range leads up to region `i`. */
  lemma GrownDown(rs: Regions, i: nat, base: nat, size: nat)
    requires Ordered(rs) && i < |rs| && size > 0 && Apart(rs, base, size) && base + size == rs[i].base
    requires i > 0 ==> End(rs[i - 1]) != base
    ensures var t := rs[i := Region(base, rs[i].size + size)];
      Ordered(t) && forall x: int :: In(t, x) <==> In(rs, x) || base <= x < base + size
  {
    var t := rs[i := Region(base, rs[i].size + size)];
    forall k: nat | k < i
      ensures End(rs[k]) < base
    {
      ApartFrom(rs, base, size, i - 1);
      assert k < i - 1 ==> End(rs[k]) < rs[i - 1].base;
    }
    forall x: int
      ensures In(t, x) <==> In(rs, x) || base <= x < base + size
    {
      Replaced(rs, i, t[i], x);
      assert Inside(t[i], x) <==> Inside(rs[i], x) || base <= x < base + size;
    }
  }

  /** The range touches nothing and becomes a region of its own. */
  lemma Inserted(rs: Regions, p: nat, base: nat, size: nat)
    requires Ordered(rs) && p <= |rs| && size > 0 && base + size < ADDR_END && Apart(rs, base, size)
    requires forall k :: 0 <= k < |rs| ==> End(rs[k]) != base && base + size != rs[k].base
    requires (p > 0 ==> rs[p - 1].base <= base) && (p < |rs| ==> base < rs[p].base)
    ensures var t := rs[..p] + [Region(base, size)] + rs[p..];
      Ordered(t) && forall x: int :: In(t, x) <==> In(rs, x) || base <= x < base + size
  {
    var t := rs[..p] + [Region(base, size)] + rs[p..];
    forall k: nat | k < |rs|
      ensures if k < p then End(rs[k]) < base else base + size < rs[k].base
    {
      ApartFrom(rs, base, size, k);
      assert k < p - 1 ==> End(rs[k]) < rs[p - 1].base;
      assert p < k ==> End(rs[p]) < rs[k].base;
    }
    forall k: nat | k < |t|
      ensures t[k] == if k == p then Region(base, size) else rs[if k < p then k else k - 1]
    {
    }
    forall x: int
      ensures In(t, x) <==> In(rs, x) || base <= x < base + size
    {
      InsertedIn(rs, p, Region(base, size), t, x);
    }
  }

  lemma InsertedIn(rs: Regions, p: nat, r: Region, t: Regions, x: int)
    requires p <= |rs| && |t| == |rs| + 1 && t[p] == r
    requires forall k: nat :: k < |t| && k != p ==> t[k] == rs[if k < p then k else k - 1]
    ensures In(t, x) <==> In(rs, x) || Inside(r, x)
  {
    if In(rs, x) {
      var k :| 0 <= k < |rs| && Inside(rs[k], x);
      assert Inside(t[if k < p then k else k + 1], x);
    }
    if Inside(r, x) {
      assert Inside(t[p], x);
    }
    if In(t, x) && !Inside(r, x) {
      var k :| 0 <= k < |t| && Inside(t[k], x);
      assert Inside(rs[if k < p then k else k - 1], x);
    }
  }

  // ---------- removing a range ----------

  /** Region `i` shrinks to a part of itself, or goes. */
  lemma Cut(rs: Regions, i: nat, r: Region, base: nat, end: nat)
    requires Ordered(rs) && i < |rs| && rs[i].base <= base < end <= End(rs[i])
    requires r.size > 0 && rs[i].base <= r.base && End(r) <= End(rs[i])
    requires forall x: int :: Inside(r, x) <==> Inside(rs[i], x) && !(base <= x < end)
    ensures Ordered(rs[i := r]) && forall x: int :: In(rs[i := r], x) <==> In(rs, x) && !(base <= x < end)
  {
    var t := rs[i := r];
    forall x: int
      ensures In(t, x) <==> In(rs, x) && !(base <= x < end)
    {
      if In(t, x) {
        var k :| 0 <= k < |t| && Inside(t[k], x);
        assert Inside(rs[k], x);
        OnlyOne(rs, k, i, x);
      }
      if In(rs, x) && !(base <= x < end) {
        var k :| 0 <= k < |rs| && Inside(rs[k], x);
        assert Inside(t[k], x);
      }
    }
  }

  lemma OnlyOne(rs: Regions, k: nat, i: nat, x: int)
    requires Ordered(rs) && k < |rs| && i < |rs| && Inside(rs[k], x)
    ensures k != i ==> !Inside(rs[i], x)
  {
  }

  lemma Dropped(rs: Regions, i: nat)
    requires Ordered(rs) && i < |rs|
    ensures var t := rs[..i] + rs[i + 1..];
      Ordered(t) && forall x: int :: In(t, x) <==> In(rs, x) && !Inside(rs[i], x)
  {
    var t := rs[..i] + rs[i + 1..];
    forall k: nat | k < |t|
      ensures t[k] == rs[if k < i then k else k + 1]
    {
    }
    forall x: int
      ensures In(t, x) <==> In(rs, x) && !Inside(rs[i], x)
    {
      DroppedIn(rs, i, t, x);
    }
  }

  lemma DroppedIn(rs: Regions, i: nat, t: Regions, x: int)
    requires Ordered(rs) && i < |rs| && |t| == |rs| - 1
    requires forall k: nat :: k < |t| ==> t[k] == rs[if k < i then k else k + 1]
    ensures In(t, x) <==> In(rs, x) && !Inside(rs[i], x)
  {
    if In(t, x) {
      var k :| 0 <= k < |t| && Inside(t[k], x);
      var k' := if k < i then k else k + 1;
      assert Inside(rs[k'], x);
      OnlyOne(rs, k', i, x);
    }
    if In(rs, x) && !Inside(rs[i], x) {
      var k :| 0 <= k < |rs| && Inside(rs[k], x);
      assert Inside(t[if k < i then k else k - 1], x);
    }
  }
}
