/** mm/percpu.c: the slot lists of the chunks and the search through them. */
module PcpuSlots {
  import opened Align
  import opened Basics
  import BuddyBlocks
  import opened PcpuChunk
  import opened PcpuMap
  import opened PcpuWalk

  /** include/linux/bitops.h:26-32: one more than the position of the highest set bit. */
  function Fls(x: nat): nat { if x == 0 then 0 else 1 + Fls(x / 2) }

  lemma {:induction false} FlsGrows(x: nat, y: nat)
    requires x <= y
    ensures Fls(x) <= Fls(y)
  {
    if x > 0 {
      FlsGrows(x / 2, y / 2);
    }
  }

  /** __pcpu_size_to_slot: mm/percpu.c:279-284 */
  function BareSlot(size: nat): nat { if Fls(size) < 4 then 1 else Fls(size) - 3 }

  function NrSlots(unit: nat): nat { BareSlot(unit) + 2 }

  /** pcpu_size_to_slot: mm/percpu.c:285-291 */
  function SizeToSlot(size: nat, unit: nat): nat { if size == unit then NrSlots(unit) - 1 else BareSlot(size) }

  /** pcpu_chunk_slot: mm/percpu.c:292-298 */
  function SlotOf(freeSize: int, hint: int, unit: nat): nat {
    if freeSize < SIZEOF_INT || hint < SIZEOF_INT then 0 else SizeToSlot(freeSize, unit)
  }

  lemma {:induction false} FlsIs(x: nat)
    requires x > 0
    ensures Fls(x) > 0 && BuddyBlocks.Pow2(Fls(x) - 1) <= x < BuddyBlocks.Pow2(Fls(x))
  {
    if x == 1 {
      assert Fls(1) == 1 && BuddyBlocks.Pow2(0) == 1;
    } else {
      FlsIs(x / 2);
    }
  }

  /** The first slot is for what is smaller than 16 bytes, and each further one for what is
      smaller than twice as much: 16 to 31, 32 to 63, and so on. */
  lemma SlotBounds(size: nat, s: nat)
    requires s > 0
    ensures BareSlot(size) == s <==> (s > 1 ==> BuddyBlocks.Pow2(s + 2) <= size) && size < BuddyBlocks.Pow2(s + 3)
  {
    hide BuddyBlocks.Pow2;
    var f := Fls(size);
    if size > 0 {
      FlsIs(size);
    }
    if f <= s + 3 {
      BuddyBlocks.Pow2Grows(f, s + 3);
    } else {
      BuddyBlocks.Pow2Grows(s + 3, f - 1);
    }
    if f >= s + 3 {
      BuddyBlocks.Pow2Grows(s + 2, f - 1);
    } else {
      BuddyBlocks.Pow2Grows(f, s + 2);
    }
  }

  /** The slot at the bottom is for chunks that cannot serve an int, and the one at the top
      for chunks that are wholly free. */
  lemma EndSlots(free: nat, hint: int, unit: nat)
    requires free <= unit
    ensures SlotOf(free, hint, unit) == 0 <==> free < 4 || hint < 4
    ensures SlotOf(free, hint, unit) == NrSlots(unit) - 1 <==> free == unit && free >= 4 && hint >= 4
    ensures NrSlots(unit) - 1 == BareSlot(unit) + 1
  {
    FlsGrows(free, unit);
  }

  lemma SlotGrows(size: nat, free: nat, unit: nat)
    requires size <= free <= unit
    ensures SizeToSlot(size, unit) <= SizeToSlot(free, unit) < NrSlots(unit)
  {
    FlsGrows(size, free);
    FlsGrows(free, unit);
  }

  lemma {:induction false} FreeSumBounds(m: Map, k: nat)
    requires k < |m|
    ensures m[k] <= FreeSum(m) <= Span(m)
  {
    if k > 0 {
      FreeSumBounds(m[1..], k - 1);
    } else if |m| > 1 {
      FreeSumBounds(m[1..], 0);
    }
  }

  /** A chunk that could serve the request is in a slot that the walk visits, and the hint
      does not turn it away, provided that the request is for at least an int. */
  lemma NotSkipped(m: Map, unit: nat, live: map<int, int>, hint: int, k: nat, size: nat, align: nat)
    requires Sane(m, unit, live) && NoneAbove(m, hint) && k < |m| && align > 0 && Fits(m, k, size, align)
    requires size >= SIZEOF_INT
    ensures size <= hint && SizeToSlot(size, unit) <= SlotOf(FreeSum(m), hint, unit) < NrSlots(unit)
  {
    FreeSumBounds(m, k);
    SlotGrows(size, FreeSum(m), unit);
  }

  /** For smaller requests it may be: such a chunk is passed over exactly when it has less
      than an int free, all told or in one piece as far as the hint knows. */
  lemma SmallSkipped(m: Map, unit: nat, live: map<int, int>, hint: int, k: nat, size: nat, align: nat)
    requires Sane(m, unit, live) && NoneAbove(m, hint) && k < |m| && align > 0 && Fits(m, k, size, align)
    requires size < SIZEOF_INT && unit >= SIZEOF_INT
    ensures SlotOf(FreeSum(m), hint, unit) < SizeToSlot(size, unit) <==> FreeSum(m) < SIZEOF_INT || hint < SIZEOF_INT
  {
    FreeSumBounds(m, k);
    SlotGrows(size, FreeSum(m), unit);
  }

  /** A sound chunk has room for the request, and the walk does not look at it. */
  ghost predicate Skipped(m: Map, unit: nat, live: map<int, int>, hint: int, size: nat) {
    && Sane(m, unit, live) && NoneAbove(m, hint) && m != [] && Fits(m, 0, size, 1)
    && SlotOf(FreeSum(m), hint, unit) < SizeToSlot(size, unit)
  }

  /** And it does happen: two bytes are wanted, two are free, and the walk does not look. */
  lemma SkippedExample()
    ensures exists m, live :: Skipped(m, 32, live, 2, 2)
  {
    hide Span, FreeSum, Starts, Serves, BareSlot;
    var a: Map, b: Map, live := [2], [-30], map[2 := 30];
    Single(2, 0, live);
    Single(-30, 2, live);
    Joined(a, b, 0, live);
    HeadIs(a + b, 0, 1);
    SlotPositive(2, 32);
    assert Skipped(a + b, 32, live, 2, 2);
  }

  lemma SlotPositive(size: nat, unit: nat)
    ensures SizeToSlot(size, unit) > 0
  {
  }

  /** Each chunk is on the list of its slot, once, and on no other. */
  ghost predicate Filed(slots: seq<seq<Chunk>>, slot: map<Chunk, nat>) {
    && (forall c :: c in slot ==> slot[c] < |slots| && c in slots[slot[c]])
    && (forall s, c :: 0 <= s < |slots| && c in slots[s] ==> c in slot && slot[c] == s)
    && (forall s :: 0 <= s < |slots| ==> NoDup(slots[s]))
  }

  /** list_del from place `i` of one list, and list_add or list_add_tail to another. */
  function Move(slots: seq<seq<Chunk>>, o: nat, i: nat, n: nat, first: bool): (r: seq<seq<Chunk>>)
    requires o < |slots| && n < |slots| && i < |slots[o]|
    ensures |r| == |slots|
  {
    var c, rest := slots[o][i], slots[o := slots[o][..i] + slots[o][i + 1..]];
    rest[n := if first then [c] + rest[n] else rest[n] + [c]]
  }

  lemma MovedList(slots: seq<seq<Chunk>>, o: nat, i: nat, n: nat, first: bool, s: nat)
    requires o < |slots| && n < |slots| && o != n && i < |slots[o]| && s < |slots|
    requires NoDup(slots[s]) && slots[o][i] !in slots[n]
    ensures var r, c := Move(slots, o, i, n, first)[s], slots[o][i];
      && NoDup(r)
      && forall d :: d in r <==> if s == n then d in slots[n] || d == c else if s == o then d in slots[o] && d != c else d in slots[s]
  {
  }

  /** Chunk `c` went from the list of slot `o` to that of slot `n`: to its head if that is the
      higher one, to its tail if it is the lower one.  All others stand as they stood. */
  ghost predicate Rehung(slots: seq<seq<Chunk>>, slots': seq<seq<Chunk>>, c: Chunk, o: nat, n: nat) {
    && |slots'| == |slots| && o < |slots| && n < |slots|
    && if o == n then slots' == slots
      else
        && (exists i :: 0 <= i < |slots[o]| && slots[o][i] == c && slots'[o] == slots[o][..i] + slots[o][i + 1..])
        && slots'[n] == (if o < n then [c] + slots[n] else slots[n] + [c])
        && forall s :: 0 <= s < |slots| && s != o && s != n ==> slots'[s] == slots[s]
  }

  lemma MoveRehangs(slots: seq<seq<Chunk>>, o: nat, i: nat, n: nat)
    requires o < |slots| && n < |slots| && o != n && i < |slots[o]|
    ensures Rehung(slots, Move(slots, o, i, n, o < n), slots[o][i], o, n)
  {
  }

  lemma MovedTail(slots: seq<seq<Chunk>>, o: nat, i: nat, n: nat)
    requires o < |slots| && n < |slots| && o != n && i < |slots[o]|
    ensures Move(slots, o, i, n, false)[n] == slots[n] + [slots[o][i]]
  {
  }

  lemma Moved(slots: seq<seq<Chunk>>, slot: map<Chunk, nat>, c: Chunk, i: nat, n: nat, first: bool)
    requires Filed(slots, slot) && c in slot && n < |slots| && n != slot[c] && i < |slots[slot[c]]| && slots[slot[c]][i] == c
    ensures Filed(Move(slots, slot[c], i, n, first), slot[c := n])
  {
    hide Move, NoDup;
    var o := slot[c];
    assert c !in slots[n];
    forall s | 0 <= s < |slots|
      ensures NoDup(Move(slots, o, i, n, first)[s])
      ensures forall d :: d in Move(slots, o, i, n, first)[s] <==> d in slot && slot[c := n][d] == s
    {
      MovedList(slots, o, i, n, first, s);
    }
    var r, slot' := Move(slots, o, i, n, first), slot[c := n];
    forall d | d in slot'
      ensures slot'[d] < |r| && d in r[slot'[d]]
    {
      var s := slot'[d];
      assert d in r[s] <==> d in slot && slot'[d] == s;
    }
    forall s | 0 <= s < |r|
      ensures NoDup(r[s]) && forall d :: d in r[s] ==> d in slot' && slot'[d] == s
    {
      assert NoDup(Move(slots, o, i, n, first)[s]);
    }
  }

  /** The chunks in the order of a walk that starts at slot `s`. */
  function Order(slots: seq<seq<Chunk>>, s: nat): seq<Chunk>
    decreases |slots| - s
  {
    if s >= |slots| then [] else slots[s] + Order(slots, s + 1)
  }

  lemma OrderStep(slots: seq<seq<Chunk>>, s: nat)
    requires s < |slots|
    ensures Order(slots, s) == slots[s] + Order(slots, s + 1)
  {
  }

  lemma OrderEnd(slots: seq<seq<Chunk>>, s: nat)
    requires s >= |slots|
    ensures Order(slots, s) == []
  {
  }

  lemma NextOf(order: seq<Chunk>, k: nat, list: seq<Chunk>, i: nat, rest: seq<Chunk>)
    requires k <= |order| && i < |list| && order[k..] == list[i..] + rest
    ensures k < |order| && order[k] == list[i] && order[k + 1..] == list[i + 1..] + rest
  {
    assert order[k..][0] == list[i];
    assert order[k + 1..] == order[k..][1..];
  }

  lemma {:induction false} OrderOnce(slots: seq<seq<Chunk>>, slot: map<Chunk, nat>, s: nat)
    requires Filed(slots, slot)
    ensures NoDup(Order(slots, s)) && forall i :: 0 <= i < |Order(slots, s)| ==> Order(slots, s)[i] in slot
    ensures forall c :: c in Order(slots, s) <==> c in slot && slot[c] >= s
    decreases |slots| - s
  {
    if s < |slots| {
      OrderOnce(slots, slot, s + 1);
      var o := Order(slots, s + 1);
      assert forall c :: c in slots[s] <==> c in slot && slot[c] == s;
      assert forall c :: c in slots[s] + o <==> c in slots[s] || c in o;
      assert forall i :: 0 <= i < |slots[s]| ==> slots[s][i] in slots[s];
    }
  }

  /** A chunk at the front of one list is somewhere in the order, which is otherwise the same. */
  lemma {:induction false} OrderFront(slots: seq<seq<Chunk>>, n: nat, c: Chunk, s: nat) returns (p: nat)
    requires s <= n < |slots|
    ensures p <= |Order(slots, s)|
    ensures Order(slots[n := [c] + slots[n]], s) == Order(slots, s)[..p] + [c] + Order(slots, s)[p..]
    decreases n - s
  {
    var slots', o := slots[n := [c] + slots[n]], Order(slots, s);
    if s == n {
      OrderSame(slots, slots', n + 1);
      p := 0;
    } else {
      var q := OrderFront(slots, n, c, s + 1);
      var o1 := Order(slots, s + 1);
      p := |slots[s]| + q;
      assert o[..p] == slots[s] + o1[..q] && o[p..] == o1[q..];
      assert slots'[s] + (o1[..q] + [c] + o1[q..]) == (slots[s] + o1[..q]) + [c] + o1[q..];
    }
  }

  lemma {:induction false} OrderSame(slots: seq<seq<Chunk>>, slots': seq<seq<Chunk>>, s: nat)
    requires |slots| == |slots'| && forall t :: s <= t < |slots| ==> slots'[t] == slots[t]
    ensures Order(slots', s) == Order(slots, s)
    decreases |slots| - s
  {
    if s < |slots| {
      OrderSame(slots, slots', s + 1);
    }
  }

  function LookAt(c: Chunk): Look
    reads c`map_, c`map_alloc, c`contig_hint
  {
    Look(c.map_, c.map_alloc, c.contig_hint)
  }

  function Looks(order: seq<Chunk>): (r: seq<Look>)
    reads order
    ensures |r| == |order| && forall i :: 0 <= i < |r| ==> r[i] == LookAt(order[i])
  {
    if order == [] then [] else [LookAt(order[0])] + Looks(order[1..])
  }

  /** What list.next holds: an entry of a list, or the head of one. */
  datatype Link = Entry(chunk: Chunk) | ListHead(slot: nat)

  function LinkAt(slots: seq<seq<Chunk>>, s: nat, i: nat): Link
    requires s < |slots| && i <= |slots[s]|
  {
    if i < |slots[s]| then Entry(slots[s][i]) else ListHead(s)
  }

  /** How a search ends, and `Again` where it is to start over. */
  datatype Outcome = Found(chunk: Chunk, off: int) | NoRoom | NoMemory | Illegal | Again | Astray(chunk: Chunk)

  class Allocator {
    const unit: nat
    /** pcpu_slot: the chunks by slot. */
    var slots: seq<seq<Chunk>>
    ghost var chunks: set<Chunk>

    ghost function SlotMap(): map<Chunk, nat>
      reads `chunks, chunks
    {
      map d | d in chunks :: Slot(d)
    }

    /** The lists but for the chunk `c`, which may be on the list of another slot. */
    ghost predicate FiledBut(c: Chunk, o: nat)
      reads this, chunks
    {
      && unit >= SIZEOF_INT && |slots| == NrSlots(unit)
      && (forall d :: d in chunks ==> d.Valid() && d.unit == unit)
      && Filed(slots, SlotMap()[c := o])
    }

    ghost predicate Valid()
      reads this, chunks
    {
      && unit >= SIZEOF_INT && |slots| == NrSlots(unit)
      && (forall d :: d in chunks ==> d.Valid() && d.unit == unit)
      && Filed(slots, SlotMap())
    }

    function Slot(c: Chunk): nat
      reads c`free_size, c`contig_hint
    {
      SlotOf(c.free_size, c.contig_hint, unit)
    }

    constructor (unit: nat)
      requires unit >= SIZEOF_INT
      ensures Valid() && chunks == {} && this.unit == unit
    {
      this.unit, chunks := unit, {};
      slots := seq(NrSlots(unit), _ => []);
    }

    /** pcpu_chunk_relocate for a chunk on a list: mm/percpu.c:302-311 */
    method Relocate(c: Chunk, oslot: nat)
      requires c in chunks && FiledBut(c, oslot)
      modifies `slots
      ensures Valid()
      ensures |slots| == |old(slots)| && (Slot(c) == oslot ==> slots == old(slots))
      ensures Slot(c) < oslot < |slots| ==> slots[Slot(c)] == old(slots)[Slot(c)] + [c]
      ensures Rehung(old(slots), slots, c, oslot, Slot(c))
    {
      hide Chunk.Valid, NrSlots, Filed, SlotOf, Move;
      var nslot := Slot(c);
      ghost var slot := SlotMap()[c := oslot];
      assert SlotMap() == slot[c := nslot];
      InRange(c, unit);
      FiledAt(slots, slot, c);
      if oslot != nslot {
        var i :| 0 <= i < |slots[oslot]| && slots[oslot][i] == c;
        Moved(slots, slot, c, i, nslot, oslot < nslot);
        MovedTail(slots, oslot, i, nslot);
        MoveRehangs(slots, oslot, i, nslot);
        slots := Move(slots, oslot, i, nslot, oslot < nslot);
        assert SlotMap() == slot[c := nslot];
      } else {
        assert slot[c := nslot] == slot;
      }
    }

    /** pcpu_alloc_area with its relocation: mm/percpu.c:315-391 */
    method AllocIn(c: Chunk, size: int, align: nat) returns (off: int)
      requires Valid() && c in chunks && size > 0 && align > 0 && |c.map_| + 2 <= c.map_alloc
      modifies `slots, c`map_, c`free_size, c`contig_hint, c`live
      ensures Valid()
      ensures off >= 0 ==> off % align == 0 && off !in old(c.live) && c.live == old(c.live)[off := size]
      ensures off >= 0 ==> CutAt(old(c.map_), old(c.contig_hint), c.map_, c.contig_hint, size, align, off)
      ensures size >= SIZEOF_INT && IntSized(old(c.map_)) ==> IntSized(c.map_)
      ensures off < 0 ==> NoneFits(c.map_, |c.map_|, size, align) && c.map_ == old(c.map_) && c.live == old(c.live)
      ensures off < 0 ==> c.free_size == old(c.free_size) && c.contig_hint == MaxFree(c.map_)
      ensures |slots| == |old(slots)| && (Slot(c) == old(Slot(c)) ==> slots == old(slots))
      ensures Slot(c) < old(Slot(c)) < |slots| ==> slots[Slot(c)] == old(slots)[Slot(c)] + [c]
      ensures Rehung(old(slots), slots, c, old(Slot(c)), Slot(c))
    {
      hide Chunk.Valid, NrSlots, Filed, SlotOf, CutAt, NoneFits, Separated, IntSized, Rehung;
      var oslot := Slot(c);
      ghost var slot, m, hint := SlotMap(), c.map_, c.contig_hint;
      InRange(c, unit);
      ValidSeparated(c);
      off := c.AllocArea(size, align);
      if off >= 0 && size >= SIZEOF_INT {
        CutIntSized(m, hint, c.map_, c.contig_hint, size, align, off);
      }
      assert SlotMap()[c := oslot] == slot;
      InRange(c, unit);
      Relocate(c, oslot);
    }

    /** pcpu_free_area with its relocation: mm/percpu.c:395-427 */
    method FreeIn(c: Chunk, off: int)
      requires Valid() && c in chunks && off in c.live
      modifies `slots, c`map_, c`free_size, c`contig_hint, c`live
      ensures Valid() && c.live == old(c.live) - {off}
      ensures ReturnedAt(old(c.map_), old(c.contig_hint), c.map_, c.contig_hint, off)
      ensures old(NoSmallBlocks()) ==> NoSmallBlocks()
      ensures Rehung(old(slots), slots, c, old(Slot(c)), Slot(c))
    {
      hide Chunk.Valid, NrSlots, Filed, SlotOf, ReturnedAt, Rehung;
      var oslot := Slot(c);
      ghost var slot, m := SlotMap(), c.map_;
      c.FreeArea(off);
      ReturnedIntSized(m, old(c.contig_hint), c.map_, c.contig_hint, off);
      assert SlotMap()[c := oslot] == slot;
      Relocate(c, oslot);
    }

    /** The chunks that the walk passes over have no room, for an int or more. */
    lemma LowSlotsRefuse(size: nat, align: nat)
      requires Valid() && align > 0
      ensures size >= SIZEOF_INT ==>
        forall d :: d in chunks && Slot(d) < SizeToSlot(size, unit) ==> NoneFits(d.map_, |d.map_|, size, align)
    {
      hide Chunk.Valid, NrSlots, Filed, SlotOf, NoneFits, SizeToSlot;
      forall d | d in chunks && size >= SIZEOF_INT && Slot(d) < SizeToSlot(size, unit)
        ensures NoneFits(d.map_, |d.map_|, size, align)
      {
        SlotRefuses(d, unit, size, align);
      }
    }

    /** The chunks that a walk for `size` bytes comes by. */
    ghost function Visits(size: nat): seq<Chunk>
      reads this
    {
      Order(slots, SizeToSlot(size, unit))
    }

    ghost function View(size: nat): seq<Look>
      reads this, Visits(size)
    {
      Looks(Visits(size))
    }

    /** The walk comes by every chunk from the starting slot up, once. */
    lemma VisitsOnce(size: nat)
      requires Valid()
      ensures NoDup(Visits(size)) && forall i :: 0 <= i < |Visits(size)| ==> Visits(size)[i] in chunks
      ensures forall d :: d in Visits(size) <==> d in chunks && Slot(d) >= SizeToSlot(size, unit)
    {
      hide Chunk.Valid, NrSlots, SlotOf, SizeToSlot, NoDup, Order, Filed;
      OrderOnce(slots, SlotMap(), SizeToSlot(size, unit));
    }

    /** What list.next of the chunk holds. */
    method Next(c: Chunk) returns (next: Link)
      requires Valid() && c in chunks
      ensures forall s, i :: 0 <= s < |slots| && 0 <= i < |slots[s]| && slots[s][i] == c ==> next == LinkAt(slots, s, i + 1)
    {
      hide Chunk.Valid, NrSlots, SlotOf;
      var s := Slot(c);
      assert SlotMap()[c] == s;
      var i :| 0 <= i < |slots[s]| && slots[s][i] == c;
      return LinkAt(slots, s, i + 1);
    }

    /** The first `k` chunks of the walk have been tried, and it got past them. */
    ghost predicate At(order: seq<Chunk>, looks: seq<Look>, k: nat, size: nat, align: nat)
      requires align > 0
      reads order
    {
      k <= Stop(looks, size, align) && Shorts(looks, k, size) == 0 && Tried(looks, Looks(order), k, size)
    }

    /** After a restart the walk ends as it would have, one map being done. */
    ghost predicate Extended(order: seq<Chunk>, looks: seq<Look>, size: nat, align: nat)
      requires align > 0
      reads order
    {
      var now, k := Looks(order), Stop(looks, size, align);
      && |now| == |looks| && Stop(now, size, align) == k && Needed(now, size, align) == Needed(looks, size, align) - 1
      && (k < |looks| ==> now[k].hint == looks[k].hint)
    }

    lemma AtStart(order: seq<Chunk>, size: nat, align: nat)
      requires align > 0
      ensures At(order, Looks(order), 0, size, align)
    {
    }

    lemma NotYetTried(order: seq<Chunk>, looks: seq<Look>, k: nat, size: nat, align: nat)
      requires align > 0 && k < |order| && At(order, looks, k, size, align)
      ensures |looks| == |order| && LookAt(order[k]) == looks[k]
    {
    }

    /** The look at chunk `k` has changed since `now`, and no other. */
    lemma OneChanged(order: seq<Chunk>, now: seq<Look>, k: nat)
      requires k < |order| == |now| && forall i :: 0 <= i < |order| && i != k ==> LookAt(order[i]) == now[i]
      ensures Looks(order) == now[k := LookAt(order[k])]
    {
    }

    /** The walk gets past chunk `k`. */
    lemma GetsPast(order: seq<Chunk>, looks: seq<Look>, now: seq<Look>, k: nat, size: nat, align: nat)
      requires align > 0 && k <= Stop(looks, size, align) && Shorts(looks, k, size) == 0 && Tried(looks, now, k, size)
      requires k < |order| == |now| && forall i :: 0 <= i < |order| && i != k ==> LookAt(order[i]) == now[i]
      requires Passes(now[k], size, align) && !Short(now[k], size)
      requires LookAt(order[k]) == if size > now[k].hint then now[k] else now[k].(hint := MaxFree(now[k].m))
      ensures At(order, looks, k + 1, size, align)
    {
      hide Passes, Stop, Shorts, MaxFree;
      OneChanged(order, now, k);
      Advance(looks, now, Looks(order), k, size, align);
    }

    /** The map of chunk `k` is enlarged. */
    lemma GetsRoom(order: seq<Chunk>, looks: seq<Look>, now: seq<Look>, k: nat, size: nat, align: nat)
      requires align > 0 && k <= Stop(looks, size, align) && Shorts(looks, k, size) == 0 && Tried(looks, now, k, size)
      requires k < |order| == |now| && forall i :: 0 <= i < |order| && i != k ==> LookAt(order[i]) == now[i]
      requires Short(now[k], size) && !Short(LookAt(order[k]), size)
      requires LookAt(order[k]) == now[k].(alloc := order[k].map_alloc)
      ensures Extended(order, looks, size, align)
    {
      hide Passes, Stop, Shorts, Needed, MaxFree;
      OneChanged(order, now, k);
      TriedStop(looks, now, k, size, align);
      EnlargedStop(now, Looks(order), k, size, align);
    }

    ghost predicate Through(order: seq<Chunk>, looks: seq<Look>, k: nat, size: nat, align: nat)
      requires align > 0
      reads this, order
    {
      && NoDup(order) && (forall i :: 0 <= i < |order| ==> order[i] in chunks)
      && k <= |order| == |looks| && At(order, looks, k, size, align)
    }

    /** How the walk of `order` has ended, before its end. */
    ghost predicate Ended(out: Outcome, order: seq<Chunk>, looks: seq<Look>, size: nat, align: nat, memory: bool)
      requires align > 0 && size > 0
      reads order
    {
      var k := Stop(looks, size, align);
      match out
      case Found(c, off) => Needed(looks, size, align) == 0 && k < |order| == |looks| && c == order[k] && !Roomless(looks[k], size, align)
        && off >= 0 && off % align == 0 && CutAt(looks[k].m, looks[k].hint, c.map_, c.contig_hint, size, align, off)
      case Astray(c) => Needed(looks, size, align) == 0 && k < |order| == |looks| && c == order[k] && Roomless(looks[k], size, align)
      case NoMemory => !memory && Needed(looks, size, align) > 0
      case Again => memory && Extended(order, looks, size, align)
      case NoRoom => false
      case Illegal => false
    }

    /** The walk at one chunk: mm/percpu.c:480-501.  `NoRoom` is for going on: the chunk stays
        where it is, or it is now the last of the first list. */
    method TryChunk(c: Chunk, size: nat, align: nat, memory: bool, ghost order: seq<Chunk>, ghost looks: seq<Look>, ghost k: nat)
      returns (out: Outcome)
      requires Valid() && size > 0 && align > 0 && c in chunks && Slot(c) >= SizeToSlot(size, unit)
      requires Through(order, looks, k, size, align) && k < |order| && order[k] == c
      modifies `slots, c`map_, c`map_alloc, c`free_size, c`contig_hint, c`live
      ensures Valid() && |slots| == |old(slots)|
      ensures out.NoRoom? || Ended(out, order, looks, size, align, memory)
      ensures out.Again? || out.NoMemory? ==> slots == old(slots)
      ensures !out.Found? ==> c.live == old(c.live) && c.map_ == old(c.map_)
      ensures out.Found? ==> out.chunk == c && out.off !in old(c.live) && c.live == old(c.live)[out.off := size]
      ensures size >= SIZEOF_INT && IntSized(old(c.map_)) ==> IntSized(c.map_)
      ensures out.NoRoom? && Slot(c) == old(Slot(c)) ==> slots == old(slots) && Through(order, looks, k + 1, size, align)
      ensures out.NoRoom? && Slot(c) != old(Slot(c)) ==>
        Ended(Astray(c), order, looks, size, align, memory) && |slots| > 0 && Slot(c) == 0 && slots[0] == old(slots)[0] + [c]
    {
      hide Chunk.Valid, NrSlots, Filed, SizeToSlot, CutAt, Rehung, Stop, Shorts, Tried, NoneFits, Needed, Extended, IntSized;
      ghost var slot := SlotMap();
      InRange(c, unit);
      NotYetTried(order, looks, k, size, align);
      ghost var look, now := LookAt(c), Looks(order);
      if size > c.contig_hint {
        GetsPast(order, looks, now, k, size, align);
        return NoRoom;
      }
      var newAlloc := c.NeedToExtend();
      if newAlloc > 0 {
        NeededSome(looks, k, size, align);
        var ok := c.ExtendAreaMap(newAlloc, memory);
        if ok {
          GetsRoom(order, looks, now, k, size, align);
        }
        assert SlotMap() == slot;
        return if ok then Again else NoMemory;
      }
      var off := AllocIn(c, size, align);
      if off >= 0 {
        CutHasRoom(look, c.map_, c.contig_hint, size, align, off);
        EndsAt(looks, k, size, align);
        return Found(c, off);
      }
      if MaxFree(look.m) >= SIZEOF_INT {
        GetsPast(order, looks, now, k, size, align);
      } else {
        EndsAt(looks, k, size, align);
      }
      FailedSlot(c.free_size, look.hint, c.contig_hint, size, unit);
      return NoRoom;
    }

    /** One turn of the walk through list `s`: the chunk is tried, and then its link is read. */
    method Turn(c: Chunk, s: nat, ghost i: nat, size: nat, align: nat, memory: bool,
        ghost order: seq<Chunk>, ghost looks: seq<Look>, ghost k: nat)
      returns (out: Outcome, next: Link)
      requires Valid() && size > 0 && align > 0 && SizeToSlot(size, unit) <= s < |slots| && i < |slots[s]| && slots[s][i] == c
      requires Through(order, looks, k, size, align) && k < |order| && order[k] == c
      modifies `slots, c`map_, c`map_alloc, c`free_size, c`contig_hint, c`live
      ensures Valid() && c in chunks && (out.NoRoom? || Ended(out, order, looks, size, align, memory))
      ensures out.Again? || out.NoMemory? ==> slots == old(slots)
      ensures !out.Found? ==> c.live == old(c.live) && c.map_ == old(c.map_)
      ensures out.Found? ==> out.chunk == c && out.off !in old(c.live) && c.live == old(c.live)[out.off := size]
      ensures size >= SIZEOF_INT && IntSized(old(c.map_)) ==> IntSized(c.map_)
      ensures out.NoRoom? && next.ListHead? && next.slot != s ==> Ended(Astray(c), order, looks, size, align, memory)
      ensures out.NoRoom? && !(next.ListHead? && next.slot != s) ==>
        slots == old(slots) && next == LinkAt(slots, s, i + 1) && Through(order, looks, k + 1, size, align)
    {
      hide Chunk.Valid, NrSlots, Filed, SlotOf, SizeToSlot, Through, Ended, IntSized;
      SlotPositive(size, unit);
      ListedHere(slots, SlotMap(), s);
      assert c in SlotMap() && SlotMap()[c] == s;
      out := TryChunk(c, size, align, memory, order, looks, k);
      next := Next(c);
      assert Slot(c) == s && out.NoRoom? ==> slots[s][i] == c;
      assert Slot(c) != s && out.NoRoom? ==> slots[0][|slots[0]| - 1] == c && next == ListHead(0);
    }

    /** The walk through one list: mm/percpu.c:479-501.  The next chunk is read from the links
        of the last one, after that was tried and perhaps moved. */
    method WalkList(s: nat, size: nat, align: nat, memory: bool, ghost order: seq<Chunk>, ghost looks: seq<Look>, ghost k0: nat)
      returns (out: Outcome, ghost k: nat)
      requires Valid() && size > 0 && align > 0 && SizeToSlot(size, unit) <= s < |slots|
      requires Through(order, looks, k0, size, align) && order[k0..] == Order(slots, s)
      modifies `slots, chunks
      ensures Valid() && (out.NoRoom? || Ended(out, order, looks, size, align, memory))
      ensures out.NoRoom? || out.Again? || out.NoMemory? ==> slots == old(slots)
      ensures out.NoRoom? ==> Through(order, looks, k, size, align) && order[k..] == Order(slots, s + 1)
      ensures forall d :: d in chunks && !(out.Found? && d == out.chunk) ==> d.live == old(d.live) && d.map_ == old(d.map_)
      ensures out.Found? ==> out.chunk in chunks && out.off !in old(out.chunk.live) && out.chunk.live == old(out.chunk.live)[out.off := size]
      ensures out.Found? && size >= SIZEOF_INT ==> IntSized(old(out.chunk.map_)) ==> IntSized(out.chunk.map_)
    {
      hide Valid, Rehung, At, NoDup, SizeToSlot, Ended, Order, IntSized;
      ghost var rest := Order(slots, s + 1);
      var pos := LinkAt(slots, s, 0);
      ghost var i := 0;
      k := k0;
      assert order[k..] == slots[s][i..] + rest by {
        OrderStep(slots, s);
      }
      while pos != ListHead(s)
        invariant Valid() && slots == old(slots) && Through(order, looks, k, size, align)
        invariant forall d :: d in chunks ==> d.live == old(d.live) && d.map_ == old(d.map_)
        invariant i <= |slots[s]| && pos == LinkAt(slots, s, i)
        invariant order[k..] == slots[s][i..] + rest
        decreases |slots[s]| - i
      {
        var c := pos.chunk;
        NextOf(order, k, slots[s], i, rest);
        out, pos := Turn(c, s, i, size, align, memory, order, looks, k);
        if !out.NoRoom? {
          return;
        }
        if pos.ListHead? && pos.slot != s {
          return Astray(c), k;
        }
        i, k := i + 1, k + 1;
      }
      assert slots[s][i..] == [];
      return NoRoom, k;
    }

    /** One walk through the lists: mm/percpu.c:476-502 */
    method Walk(size: nat, align: nat, memory: bool) returns (out: Outcome)
      requires Valid() && size > 0 && align > 0
      modifies `slots, chunks
      ensures Valid() && (out.NoRoom? || Ended(out, old(Visits(size)), old(View(size)), size, align, memory))
      ensures out.NoRoom? || out.Again? || out.NoMemory? ==> slots == old(slots)
      ensures out.NoRoom? ==> Through(old(Visits(size)), old(View(size)), |old(Visits(size))|, size, align)
      ensures forall d :: d in chunks && !(out.Found? && d == out.chunk) ==> d.live == old(d.live) && d.map_ == old(d.map_)
      ensures out.Found? ==> out.chunk in chunks && out.off !in old(out.chunk.live) && out.chunk.live == old(out.chunk.live)[out.off := size]
      ensures out.Found? && size >= SIZEOF_INT ==> IntSized(old(out.chunk.map_)) ==> IntSized(out.chunk.map_)
    {
      hide Chunk.Valid, NrSlots, Filed, SlotOf, SizeToSlot, At, NoDup, Ended, Order, IntSized;
      ghost var order, looks := Visits(size), View(size);
      ghost var k: nat := 0;
      VisitsOnce(size);
      assert order[0..] == order;
      AtStart(order, size, align);
      assert Through(order, looks, k, size, align);
      var s := SizeToSlot(size, unit);
      while s < |slots|
        invariant Valid() && slots == old(slots) && Through(order, looks, k, size, align)
        invariant forall d :: d in chunks ==> d.live == old(d.live) && d.map_ == old(d.map_)
        invariant order[k..] == Order(slots, s) && s >= SizeToSlot(size, unit)
        decreases |slots| - s
      {
        out, k := WalkList(s, size, align, memory, order, looks, k);
        if !out.NoRoom? {
          return;
        }
        s := s + 1;
      }
      OrderEnd(slots, s);
      assert |order[k..]| == |order| - k;
      return NoRoom;
    }

    /** The walk through chunks with these looks ends where the one through those does. */
    ghost predicate Like(looks: seq<Look>, now: seq<Look>, size: nat, align: nat)
      requires align > 0
    {
      var k := Stop(looks, size, align);
      && |now| == |looks| && (forall i :: 0 <= i < |now| ==> now[i].m == looks[i].m)
      && Stop(now, size, align) == k && (k < |looks| ==> now[k].hint == looks[k].hint)
    }

    lemma Restarted(order: seq<Chunk>, looks: seq<Look>, now: seq<Look>, size: nat, align: nat, memory: bool)
      requires align > 0 && size > 0 && Like(looks, now, size, align) && Ended(Again, order, now, size, align, memory)
      requires |order| == |now| && forall i :: 0 <= i < |order| ==> order[i].map_ == now[i].m
      ensures memory && Like(looks, Looks(order), size, align) && Needed(Looks(order), size, align) == Needed(now, size, align) - 1
    {
    }

    /** The walk goes past these chunks, and needs no larger map for it. */
    ghost predicate AllPassed(order: seq<Chunk>, size: nat, align: nat)
      requires align > 0
      reads this, order
    {
      forall i :: 0 <= i < |order| ==> order[i] in chunks && Passes(LookAt(order[i]), size, align) && !Short(LookAt(order[i]), size)
    }

    /** Then they have no room, and for an int or more no chunk has. */
    lemma NoneHasRoom(size: nat, align: nat)
      requires Valid() && align > 0 && AllPassed(Visits(size), size, align)
      ensures forall d :: d in chunks && (size >= SIZEOF_INT || Slot(d) >= SizeToSlot(size, unit)) ==> NoneFits(d.map_, |d.map_|, size, align)
    {
      hide NrSlots, Filed, SlotOf, NoneFits, SizeToSlot, Order, Chunk.Valid;
      VisitsOnce(size);
      LowSlotsRefuse(size, align);
      forall d | d in chunks && Slot(d) >= SizeToSlot(size, unit)
        ensures NoneFits(d.map_, |d.map_|, size, align)
      {
        assert d in Visits(size);
        if size > d.contig_hint {
          HintRefuses(d, size, align);
        }
      }
    }

    lemma PassedAll(order: seq<Chunk>, looks: seq<Look>, size: nat, align: nat)
      requires align > 0 && Through(order, looks, |order|, size, align)
      ensures AllPassed(order, size, align)
    {
      hide Passes, Stop, Tried, MaxFree;
      var now := Looks(order);
      TriedStop(looks, now, |order|, size, align);
      NoShorts(now, |order|, size);
      forall i | 0 <= i < |order|
        ensures Passes(LookAt(order[i]), size, align) && !Short(LookAt(order[i]), size)
      {
        assert now[i] == LookAt(order[i]);
      }
    }

    lemma Verdict(out: Outcome, order: seq<Chunk>, looks: seq<Look>, now: seq<Look>, size: nat, align: nat, memory: bool)
      requires align > 0 && size > 0 && |order| == |now| && Like(looks, now, size, align) && !out.Again?
      requires if out.NoRoom? then At(order, now, |order|, size, align) else Ended(out, order, now, size, align, memory)
      ensures !out.Illegal?
      ensures var k := Stop(looks, size, align);
        && (out.NoMemory? <==> Needed(now, size, align) > 0) && (out.NoMemory? ==> !memory)
        && (out.Astray? <==> Needed(now, size, align) == 0 && Strays(looks, size, align))
        && (out.Found? <==> Needed(now, size, align) == 0 && Finds(looks, size, align))
        && (out.NoRoom? <==> Needed(now, size, align) == 0 && k == |looks|)
        && (out.Astray? || out.Found? ==> k < |order| && out.chunk == order[k])
        && (out.Found? ==> out.off >= 0 && out.off % align == 0)
        && (out.Found? ==> CutAt(looks[k].m, looks[k].hint, out.chunk.map_, out.chunk.contig_hint, size, align, out.off))
    {
      hide NoneFits, CutAt, Stop, Tried, Passes;
      if out.NoRoom? {
        EndsAt(now, |order|, size, align);
      }
    }

    /** No block is smaller than an int, as when nothing smaller was ever asked for. */
    ghost predicate NoSmallBlocks()
      reads this, chunks
    {
      forall d :: d in chunks ==> IntSized(d.map_)
    }

    /** Then no chunk is moved under a walk. */
    lemma NeverAstray(size: nat, align: nat)
      requires Valid() && NoSmallBlocks() && align > 0
      ensures !Strays(View(size), size, align)
    {
      hide Strays, NrSlots, Filed, IntSized, NoDup, Order;
      var order := Visits(size);
      VisitsOnce(size);
      SlotPositive(size, unit);
      forall i | 0 <= i < |order|
        ensures IntSized(View(size)[i].m) && FreeSum(View(size)[i].m) > 0
      {
        assert order[i] in chunks && order[i] in order;
      }
      IntSizedStays(View(size), size, align);
    }

    /** The search of pcpu_alloc: mm/percpu.c:474-502.  It starts over each time the lock was
        dropped to enlarge a map; `mem` says how often there is memory for that. */
    method Search(size: nat, align: nat, mem: nat) returns (out: Outcome)
      requires Valid() && size > 0 && align > 0
      modifies `slots, chunks
      ensures Valid() && !out.Illegal? && !out.Again?
      ensures old(NoSmallBlocks()) ==> !out.Astray? && (size >= SIZEOF_INT ==> NoSmallBlocks())
      ensures var looks, k := old(View(size)), Stop(old(View(size)), size, align);
        && (out.NoMemory? <==> Needed(looks, size, align) > mem)
        && (out.Astray? <==> Needed(looks, size, align) <= mem && Strays(looks, size, align))
        && (out.Found? <==> Needed(looks, size, align) <= mem && Finds(looks, size, align))
        && (out.NoRoom? <==> Needed(looks, size, align) <= mem && k == |looks|)
        && (out.Astray? || out.Found? ==> k < |old(Visits(size))| && out.chunk == old(Visits(size))[k])
      ensures out.Found? ==> out.chunk in chunks && out.off !in old(out.chunk.live) && out.chunk.live == old(out.chunk.live)[out.off := size]
      ensures out.Found? && size >= SIZEOF_INT ==> IntSized(old(out.chunk.map_)) ==> IntSized(out.chunk.map_)
      ensures out.Found? ==> out.off >= 0 && out.off % align == 0
      ensures out.Found? ==> var c := out.chunk; CutAt(old(c.map_), old(c.contig_hint), c.map_, c.contig_hint, size, align, out.off)
      ensures out.NoRoom? ==> slots == old(slots)
      ensures out.NoRoom? ==> AllPassed(Visits(size), size, align)
      ensures out.NoRoom? ==> forall d :: d in chunks && Slot(d) >= SizeToSlot(size, unit) ==> NoneFits(d.map_, |d.map_|, size, align)
      ensures out.NoRoom? && size >= SIZEOF_INT ==> forall d :: d in chunks ==> NoneFits(d.map_, |d.map_|, size, align)
      ensures forall d :: d in chunks && !(out.Found? && d == out.chunk) ==> d.live == old(d.live) && d.map_ == old(d.map_)
    {
      hide Chunk.Valid, NrSlots, Filed, SlotOf, SizeToSlot, NoDup, Order, CutAt, Rehung, Roomless, Needed, Passes, At, Ended, Extended, Strays, Finds, IntSized, Stop, NoneFits;
      ghost var order, looks, k := Visits(size), View(size), Stop(View(size), size, align);
      if NoSmallBlocks() {
        NeverAstray(size, align);
      }
      var left: nat := mem;
      VisitsOnce(size);
      while true
        invariant Valid() && slots == old(slots) && left <= mem
        invariant Like(looks, View(size), size, align)
        invariant Needed(View(size), size, align) == Needed(looks, size, align) - (mem - left)
        invariant forall d :: d in chunks ==> d.live == old(d.live) && d.map_ == old(d.map_)
        decreases left
      {
        ghost var now := View(size);
        assert Visits(size) == order;
        assert forall i :: 0 <= i < |order| ==> order[i] in order && now[i].m == order[i].map_;
        out := Walk(size, align, left > 0);
        if !out.Again? {
          Verdict(out, order, looks, now, size, align, left > 0);
          if out.NoRoom? {
            PassedAll(order, now, size, align);
            NoneHasRoom(size, align);
          }
          return;
        }
        forall i | 0 <= i < |order|
          ensures order[i].map_ == now[i].m
        {
          assert order[i] in order;
        }
        Restarted(order, looks, now, size, align, left > 0);
        left := left - 1;
      }
    }

    /** pcpu_create_chunk, once it has its memory, and its relocation from slot -1:
        mm/percpu.c:506-513 */
    method Create() returns (c: Chunk)
      requires Valid() && unit > 0
      modifies `slots, `chunks
      ensures Valid() && fresh(c) && chunks == old(chunks) + {c} && c.live == map[] && c.map_ == [unit]
      ensures Slot(c) == NrSlots(unit) - 1 && LookAt(c) == Look([unit], 16, unit)
      ensures slots == old(slots)[Slot(c) := [c] + old(slots)[Slot(c)]]
    {
      hide Chunk.Valid, NrSlots, Filed;
      ghost var slot := SlotMap();
      assert Filed(slots, slot);
      c := new Chunk(unit);
      var n := Slot(c);
      InRange(c, unit);
      FiledNew(slots, slot, c, n);
      slots := slots[n := [c] + slots[n]];
      chunks := chunks + {c};
      assert SlotMap() == slot[c := n];
    }

    /** A new chunk, and the search once more: mm/percpu.c:506-516 */
    method AllocNew(size: nat, align: nat) returns (out: Outcome)
      requires Valid() && 0 < size <= unit && align > 0 && AllPassed(Visits(size), size, align)
      modifies `slots, `chunks, chunks
      ensures Valid() && out.Found? && fresh(out.chunk) && chunks == old(chunks) + {out.chunk}
      ensures out.off >= 0 && out.off % align == 0 && out.chunk.live == map[out.off := size]
      ensures CutAt([unit], unit, out.chunk.map_, out.chunk.contig_hint, size, align, out.off)
      ensures old(NoSmallBlocks()) && size >= SIZEOF_INT ==> NoSmallBlocks()
      ensures forall d :: d in old(chunks) ==> d.live == old(d.live) && d.map_ == old(d.map_)
    {
      hide Chunk.Valid, NrSlots, Filed, SlotOf, SizeToSlot, NoDup, Order, CutAt, Rehung, Roomless, Needed, Passes, Strays, Finds;
      ghost var slots0 := slots;
      var c := Create();
      TopSlot(size, unit);
      NewChunkServes(slots0, c, Slot(c), size, align);
      out := Search(size, align, 0);
    }

    ghost predicate Legal(size: nat, align: nat) { 1 <= size <= 32768 && align <= 4096 }

    /** Once every chunk has failed, a new one serves the request, and no map is enlarged. */
    lemma NewChunkServes(slots0: seq<seq<Chunk>>, c: Chunk, n: nat, size: nat, align: nat)
      requires align > 0 && SizeToSlot(size, unit) <= n < |slots0| && slots == slots0[n := [c] + slots0[n]]
      requires AllPassed(Order(slots0, SizeToSlot(size, unit)), size, align)
      requires LookAt(c) == Look([unit], 16, unit) && size <= unit
      ensures var looks, k := View(size), Stop(View(size), size, align);
        Needed(looks, size, align) == 0 && Finds(looks, size, align) && Visits(size)[k] == c
    {
      hide Order, Passes, Needed, Shorts, NoneFits, SizeToSlot;
      var o, order, looks := Order(slots0, SizeToSlot(size, unit)), Visits(size), View(size);
      var p := OrderFront(slots0, n, c, SizeToSlot(size, unit));
      assert order[p] == c;
      forall i | 0 <= i < p
        ensures Passes(looks[i], size, align) && !Short(looks[i], size)
      {
        assert order[i] == o[i];
      }
      WholePasses(unit, size, align);
      StopIs(looks, p, size, align);
      NoShorts(looks, p, size);
      EndsAt(looks, p, size, align);
    }

    /** pcpu_alloc for the ordinary chunks: mm/percpu.c:441-445 and mm/percpu.c:474-516.
        `mem` says how often a map can be enlarged, and `memory` whether a new chunk can be had. */
    method PcpuAlloc(size: nat, align: nat, mem: nat, memory: bool) returns (out: Outcome)
      requires Valid() && unit >= PCPU_MIN_UNIT_SIZE && align > 0
      modifies this, chunks
      ensures Valid() && fresh(chunks - old(chunks)) && old(chunks) <= chunks
      ensures (out.Illegal? <==> !Legal(size, align)) && !out.NoRoom? && !out.Again?
      ensures old(NoSmallBlocks()) ==> !out.Astray? && (size >= SIZEOF_INT ==> NoSmallBlocks())
      ensures Legal(size, align) ==> var looks := old(View(size));
        var done, enough := Stop(looks, size, align) == |looks|, Needed(looks, size, align) <= mem;
        && (out.Astray? <==> enough && Strays(looks, size, align))
        && (out.Found? <==> enough && (Finds(looks, size, align) || (done && memory)))
        && (out.NoMemory? <==> !enough || (done && !memory))
      ensures out.Found? ==> out.chunk in chunks && out.off >= 0 && out.off % align == 0
      ensures out.Found? && out.chunk in old(chunks) ==> var c := out.chunk; c.live == old(c.live)[out.off := size] && out.off !in old(c.live)
      ensures out.Found? && out.chunk in old(chunks) ==>
        var c := out.chunk; CutAt(old(c.map_), old(c.contig_hint), c.map_, c.contig_hint, size, align, out.off)
      ensures out.Found? && out.chunk !in old(chunks) ==> out.chunk.live == map[out.off := size]
      ensures out.Found? && out.chunk !in old(chunks) ==>
        CutAt([unit], unit, out.chunk.map_, out.chunk.contig_hint, size, align, out.off)
      ensures out.Astray? || (out.Found? && Finds(old(View(size)), size, align)) ==>
        var k := Stop(old(View(size)), size, align); k < |old(Visits(size))| && out.chunk == old(Visits(size))[k]
      ensures out.Found? && !Finds(old(View(size)), size, align) ==> chunks == old(chunks) + {out.chunk}
      ensures !out.Found? || Finds(old(View(size)), size, align) ==> chunks == old(chunks)
      ensures forall d :: d in old(chunks) && !(out.Found? && d == out.chunk) ==> d.live == old(d.live) && d.map_ == old(d.map_)
    {
      hide Chunk.Valid, NrSlots, Filed, SlotOf, SizeToSlot, NoDup, Order, CutAt, Rehung, Roomless, Needed, Passes, Strays, Finds, IntSized;
      if size == 0 || size > PCPU_MIN_UNIT_SIZE || align > PAGE_SIZE {
        return Illegal;
      }
      out := Search(size, align, mem);
      if !out.NoRoom? {
        return;
      }
      if !memory {
        return NoMemory;
      }
      out := AllocNew(size, align);
    }
  }

  /** PFN_ALIGN(32 << 10) */
  const PCPU_MIN_UNIT_SIZE: nat := 32768

  lemma CutHasRoom(l: Look, m: Map, hint: int, size: int, align: nat, off: int)
    requires align > 0 && size > 0 && CutAt(l.m, l.hint, m, hint, size, align, off)
    ensures !Roomless(l, size, align)
  {
  }

  /** A failure moves the chunk only to the first list, and only if no int is free in one piece. */
  lemma FailedSlot(free: int, hint: int, hint': int, size: nat, unit: nat)
    requires SlotOf(free, hint, unit) >= SizeToSlot(size, unit)
    ensures SlotOf(free, hint', unit) == if hint' >= SIZEOF_INT then SlotOf(free, hint, unit) else 0
    ensures SlotOf(free, hint, unit) > 0
  {
    SlotPositive(size, unit);
  }

  lemma ValidSeparated(c: Chunk)
    requires c.Valid()
    ensures Separated(c.map_)
  {
  }

  lemma ReturnedIntSized(m: Map, hint: int, m': Map, hint': int, off: int)
    requires ReturnedAt(m, hint, m', hint', off)
    ensures IntSized(m) ==> IntSized(m')
  {
    hide IntSized, TurnedOver, Span;
    var i: nat :| i < |m| && Span(m[..i]) == off && m[i] < 0 && m' == TurnedOver(m, i);
    if IntSized(m) {
      TurnedIntSized(m, i);
    }
  }

  lemma CutIntSized(m: Map, hint: int, m': Map, hint': int, size: int, align: nat, off: int)
    requires align > 0 && size >= SIZEOF_INT && Separated(m) && CutAt(m, hint, m', hint', size, align, off)
    ensures IntSized(m) ==> IntSized(m')
  {
    hide IntSized, CarvedMap, Span, NoneFits;
    var k: nat :| k < |m| && Fits(m, k, size, align) && (k == 0 ==> Head(m, k, align) == 0) && m' == CarvedMap(m, k, size, Head(m, k, align));
    if IntSized(m) {
      CarvedIntSized(m, k, size, Head(m, k, align));
    }
  }

  lemma FiledNew(slots: seq<seq<Chunk>>, slot: map<Chunk, nat>, c: Chunk, n: nat)
    requires Filed(slots, slot) && c !in slot && n < |slots|
    ensures Filed(slots[n := [c] + slots[n]], slot[c := n])
  {
  }

  lemma TopSlot(size: nat, unit: nat)
    requires size <= unit
    ensures SizeToSlot(size, unit) <= NrSlots(unit) - 1
  {
    SlotGrows(size, unit, unit);
  }

  lemma WholeFits(unit: nat, size: nat, align: nat)
    requires align > 0 && size <= unit
    ensures !NoneFits([unit], 1, size, align)
  {
    HeadIs([unit], 0, align);
    assert Fits([unit], 0, size, align);
  }

  lemma WholePasses(unit: nat, size: nat, align: nat)
    requires align > 0 && size <= unit
    ensures var l := Look([unit], 16, unit); !Passes(l, size, align) && !Roomless(l, size, align)
  {
    WholeFits(unit, size, align);
  }

  /** A chunk whose slot the walk does not visit has no room, for an int or more. */
  lemma SlotRefuses(c: Chunk, unit: nat, size: nat, align: nat)
    requires c.Valid() && c.unit == unit && size >= SIZEOF_INT && align > 0
    requires SlotOf(c.free_size, c.contig_hint, unit) < SizeToSlot(size, unit)
    ensures NoneFits(c.map_, |c.map_|, size, align)
  {
    hide Sane, SizeToSlot, SlotOf;
    forall k: nat | k < |c.map_|
      ensures !Fits(c.map_, k, size, align)
    {
      if Fits(c.map_, k, size, align) {
        NotSkipped(c.map_, unit, c.live, c.contig_hint, k, size, align);
      }
    }
  }

  lemma ListedHere(slots: seq<seq<Chunk>>, slot: map<Chunk, nat>, s: nat)
    requires Filed(slots, slot) && s < |slots|
    ensures forall c :: c in slots[s] <==> c in slot && slot[c] == s
  {
  }

  /** A request above the hint has no room. */
  lemma HintRefuses(c: Chunk, size: nat, align: nat)
    requires c.Valid() && size > c.contig_hint && align > 0
    ensures NoneFits(c.map_, |c.map_|, size, align)
  {
  }

  lemma FiledAt(slots: seq<seq<Chunk>>, slot: map<Chunk, nat>, c: Chunk)
    requires Filed(slots, slot) && c in slot
    ensures slot[c] < |slots| && c in slots[slot[c]]
  {
  }

  lemma InRange(c: Chunk, unit: nat)
    requires c.Valid() && c.unit == unit
    ensures SlotOf(c.free_size, c.contig_hint, unit) < NrSlots(unit)
  {
    hide NrSlots;
    SlotInRange(c.map_, unit, c.live, c.free_size, c.contig_hint);
  }

  lemma SlotInRange(m: Map, unit: nat, live: map<int, int>, freeSize: int, hint: int)
    requires Sane(m, unit, live) && freeSize == FreeSum(m)
    ensures SlotOf(freeSize, hint, unit) < NrSlots(unit)
  {
    FreeSumBounds(m, 0);
    SlotGrows(0, FreeSum(m), unit);
  }
}
