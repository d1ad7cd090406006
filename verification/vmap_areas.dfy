/** The areas of mm/vmalloc.c in the order of their addresses. */
module VmapAreas {
  import opened Align
  import opened Basics

  datatype VmapArea = VmapArea(va_start: nat, va_end: nat, lazy_free: bool, lazy_freeing: bool)

  /** In address order, without overlaps. */
  ghost predicate Sorted(v: seq<VmapArea>) {
    && (forall i :: 0 <= i < |v| ==> v[i].va_start < v[i].va_end < WORD)
    && (forall i, j :: 0 <= i < j < |v| ==> v[i].va_end <= v[j].va_start)
  }

  ghost predicate ApartFrom(v: seq<VmapArea>, a: VmapArea) {
    forall i :: 0 <= i < |v| ==> v[i].va_end <= a.va_start || a.va_end <= v[i].va_start
  }

  /** All areas before `lo` end at or below `a`, all from `hi` on start at or above its end. */
  ghost predicate Around(v: seq<VmapArea>, lo: nat, hi: nat, a: VmapArea) {
    && lo <= hi <= |v|
    && (forall i :: 0 <= i < lo ==> v[i].va_end <= a.va_start)
    && (forall i :: hi <= i < |v| ==> a.va_end <= v[i].va_start)
  }

  lemma NarrowAround(v: seq<VmapArea>, lo: nat, mid: nat, hi: nat, a: VmapArea)
    requires Sorted(v) && ApartFrom(v, a) && a.va_start < a.va_end
    requires Around(v, lo, hi, a) && lo <= mid < hi
    ensures a.va_start < v[mid].va_end ==> Around(v, lo, mid, a)
    ensures a.va_start >= v[mid].va_end ==> a.va_end > v[mid].va_start && Around(v, mid + 1, hi, a)
  {
  }

  lemma SortedWithout(v: seq<VmapArea>, k: nat)
    requires Sorted(v) && k < |v|
    ensures Sorted(v[..k] + v[k + 1..])
  {
  }

  // ---------- the areas on either side of an address ----------

  /** The areas before `lo` end at or below `x`, those from `hi` on end above it. */
  ghost predicate EndsAround(v: seq<VmapArea>, lo: nat, hi: nat, x: nat) {
    && lo <= hi <= |v|
    && (forall i :: 0 <= i < lo ==> v[i].va_end <= x)
    && (forall i :: hi <= i < |v| ==> v[i].va_end > x)
  }

  lemma NoneOver(x: nat, align: nat)
    requires align > 0
    ensures forall y: nat :: y % align == 0 && y <= x ==> y <= AlignDown(x, align)
  {
    forall y: nat | y % align == 0 && y <= x
      ensures y <= AlignDown(x, align)
    {
      AlignDownGreatest(x, align, y);
    }
  }

  /** The highest aligned address at or below the area at `k` and the end of the window. */
  function TopBelow(v: seq<VmapArea>, k: nat, align: nat, vend: nat): (addr: nat)
    requires align > 0 && k <= |v|
    ensures addr % align == 0 && addr <= vend && (k < |v| ==> addr <= v[k].va_start)
    ensures forall y: nat :: y % align == 0 && y <= vend && (k < |v| ==> y <= v[k].va_start) ==> y <= addr
  {
    assert forall y: nat :: y % align == 0 && y <= vend ==> y <= AlignDown(vend, align) by {
      NoneOver(vend, align);
    }
    assert k < |v| ==> forall y: nat :: y % align == 0 && y <= v[k].va_start ==> y <= AlignDown(v[k].va_start, align) by {
      if k < |v| {
        NoneOver(v[k].va_start, align);
      }
    }
    var top := AlignDown(vend, align);
    if k < |v| && AlignDown(v[k].va_start, align) < top then AlignDown(v[k].va_start, align) else top
  }

  lemma EndsNothing(v: seq<VmapArea>, x: nat)
    ensures EndsAround(v, 0, |v|, x)
  {
  }

  lemma EndsNarrow(v: seq<VmapArea>, lo: nat, mid: nat, hi: nat, x: nat)
    requires Sorted(v) && EndsAround(v, lo, hi, x) && lo <= mid < hi
    ensures x < v[mid].va_end ==> EndsAround(v, lo, mid, x)
    ensures x >= v[mid].va_end ==> EndsAround(v, mid + 1, hi, x)
    ensures x == v[mid].va_end ==> EndsAround(v, mid + 1, mid + 1, x)
  {
  }

  /** How many areas at the low end of `v` end at or below `x`. */
  ghost function EndsUpTo(v: seq<VmapArea>, x: nat): (k: nat)
    ensures k <= |v|
  {
    if v == [] || v[0].va_end > x then 0 else 1 + EndsUpTo(v[1..], x)
  }

  lemma {:induction false} EndsUpToIs(v: seq<VmapArea>, k: nat, x: nat)
    requires EndsAround(v, k, k, x)
    ensures EndsUpTo(v, x) == k
  {
    if k > 0 {
      EndsUpToIs(v[1..], k - 1, x);
    }
  }

  /** Areas in address order are fixed by which areas there are. */
  lemma {:induction false} SortedUnique(v: seq<VmapArea>, w: seq<VmapArea>)
    requires Sorted(v) && Sorted(w) && forall a :: a in v <==> a in w
    ensures v == w
  {
    assert (v != [] ==> v[0] in v) && (w != [] ==> w[0] in w);
    if v != [] {
      assert v[0] == w[0];
      forall a
        ensures a in v[1..] <==> a in w[1..]
      {
        assert a in v <==> a == v[0] || a in v[1..];
        assert a in w <==> a == w[0] || a in w[1..];
      }
      SortedUnique(v[1..], w[1..]);
      assert v == [v[0]] + v[1..] && w == [w[0]] + w[1..];
    }
  }
}
