/** mm/slub.c: a slab cache shared by several CPUs.  Each method is one atomic step, so that a
    run of the system is any sequence of them, by whichever CPUs. */
module Slub {
  import opened Basics
  import opened SlubShrink
  import opened SlubState
  import opened SlubSteps

  class KmemCache {
    const min_partial: nat
    /** oo_objects(s->max): the most objects a slab of this cache has. */
    const max_objects: nat
    var cpus: seq<Cpu>
    var slabs: map<nat, Slab>
    /** The partial list of the node, and its length as the code counts it. */
    var partial: seq<nat>
    var nr_partial: int
    /** The words of the objects that link the free lists. */
    var fp: map<Obj, Ptr>
    ghost var limbo: set<nat>
    ghost var free: map<nat, seq<Obj>>
    ghost var taken: map<nat, seq<Obj>>
    ghost var live: set<Obj>

    ghost function St(): State
      reads this
    {
      State(cpus, slabs, partial, limbo, fp, free, taken, live)
    }

    ghost predicate Valid()
      reads this
    {
      Sane(St()) && nr_partial == |partial| && forall s :: s in slabs ==> slabs[s].objects <= max_objects
    }

    constructor (ncpus: nat, min_partial: nat, max_objects: nat)
      ensures Valid() && live == {} && slabs == map[] && |cpus| == ncpus
      ensures this.min_partial == min_partial && this.max_objects == max_objects
    {
      this.min_partial, this.max_objects := min_partial, max_objects;
      cpus := seq(ncpus, _ => Cpu(None, Null));
      slabs, partial, nr_partial, fp := map[], [], 0, map[];
      limbo, free, taken, live := {}, map[], map[], {};
    }

    // ---------- allocation ----------

    /** The fast path of slab_alloc: mm/slub.c:1107-1118 */
    method AllocFast(cpu: nat) returns (x: Obj)
      requires Valid() && cpu < |cpus| && cpus[cpu].freelist != Null
      modifies `cpus, `taken, `live
      ensures Valid() && x !in old(live) && live == old(live) + {x}
      ensures At(x) == old(cpus)[cpu].freelist && x in fp && cpus == old(cpus)[cpu := Cpu(old(cpus)[cpu].page, fp[x])]
    {
      hide Sane, SaneAt;
      ghost var s := HeldSlab(St(), cpu);
      PopSane(St(), cpu, s);
      ghost var rest := taken[s][1..];
      x := cpus[cpu].freelist.obj;
      cpus := cpus[cpu := Cpu(cpus[cpu].page, fp[x])];
      taken := taken[s := rest];
      live := live + {x};
    }

    /** load_freelist: mm/slub.c:1028-1042 */
    method LoadFreelist(cpu: nat, s: nat) returns (x: Obj)
      requires Valid() && Holds(St(), cpu, s) && cpus[cpu].freelist == Null
      requires s in slabs && slabs[s].freelist != Null
      modifies `cpus, `slabs, `free, `taken, `live
      ensures Valid() && Holds(St(), cpu, s) && x !in old(live) && x.slab == s && live == old(live) + {x}
      ensures |cpus| == |old(cpus)| && forall c :: 0 <= c < |cpus| && c != cpu ==> cpus[c] == old(cpus)[c]
      ensures slabs == old(slabs)[s := Slab(old(slabs)[s].objects, old(slabs)[s].objects, Null, true)]
      ensures At(x) == old(slabs)[s].freelist && x in fp && cpus[cpu] == Cpu(Some(s), fp[x])
    {
      hide Sane, SaneAt;
      Facts(St(), cpu, s);
      LoadSane(St(), cpu, s);
      x := slabs[s].freelist.obj;
      cpus := cpus[cpu := Cpu(Some(s), fp[x])];
      taken, free := taken[s := free[s][1..]], free[s := []];
      slabs := slabs[s := Slab(slabs[s].objects, slabs[s].objects, Null, slabs[s].frozen)];
      live := live + {x};
    }

    // ---------- giving up a slab ----------

    /** unfreeze_slab, with the CPU's reference dropped just before: mm/slub.c:630-667 and
        mm/slub.c:698.  Objects that are still out are the only reason to keep an empty-looking
        slab: the slab goes back to the page allocator just when none of its objects is live
        and the partial list is long enough already. */
    method UnfreezeSlab(cpu: nat, s: nat, tail: bool)
      requires Valid() && Holds(St(), cpu, s) && s in slabs && cpus[cpu].freelist == Null
      modifies `cpus, `slabs, `partial, `nr_partial, `free, `taken
      ensures Valid() && cpus == old(cpus)[cpu := Cpu(None, Null)]
      ensures s in slabs <==> LiveOf(live, s) != {} || |old(partial)| < min_partial
      ensures s in slabs ==> slabs == old(slabs)[s := Slab(old(slabs)[s].objects, old(slabs)[s].inuse, old(slabs)[s].freelist, false)]
      ensures s !in slabs ==> slabs == old(slabs) - {s}
      ensures partial == if s !in slabs || |LiveOf(live, s)| == slabs[s].objects then old(partial)
        else if tail || LiveOf(live, s) == {} then old(partial) + [s] else [s] + old(partial)
    {
      hide Sane, SaneAt, LiveOf;
      ghost var before := St();
      Facts(before, cpu, s);
      Sizes(before, cpu, s);
      var atTail := tail || slabs[s].inuse == 0;
      ThawSane(before, cpu, s, atTail);
      cpus := cpus[cpu := Cpu(None, Null)];
      slabs := slabs[s := Slab(slabs[s].objects, slabs[s].inuse, slabs[s].freelist, false)];
      if slabs[s].inuse != 0 {
        if slabs[s].freelist != Null {
          AddPartial(s, tail);
        }
      } else if nr_partial < min_partial {
        AddPartial(s, true);
      } else {
        NotLimbo(before, cpu, s);
        DropSane(Thaw(before, cpu, s, atTail), s, partial);
        slabs, free, taken := slabs - {s}, free - {s}, taken - {s};
      }
    }

    /** add_partial: mm/slub.c:1155-1165 */
    method AddPartial(s: nat, tail: bool)
      modifies `partial, `nr_partial
      ensures nr_partial == old(nr_partial) + 1
      ensures partial == if tail then old(partial) + [s] else [s] + old(partial)
    {
      nr_partial := nr_partial + 1;
      partial := if tail then partial + [s] else [s] + partial;
    }

    /** One free object goes back from the CPU to the slab: mm/slub.c:684-697 */
    method MergeBack(cpu: nat, s: nat)
      requires Valid() && Holds(St(), cpu, s) && s in slabs && s in taken && cpus[cpu].freelist != Null
      modifies `cpus, `slabs, `fp, `free, `taken
      ensures Valid() && Holds(St(), cpu, s) && s in slabs && s in taken && |taken[s]| < |old(taken)[s]|
      ensures |cpus| == |old(cpus)| && forall c :: 0 <= c < |cpus| && c != cpu ==> cpus[c] == old(cpus)[c]
      ensures slabs[s].objects == old(slabs)[s].objects
      ensures forall s' :: s' != s ==> (s' in slabs <==> s' in old(slabs)) && (s' in slabs ==> slabs[s'] == old(slabs)[s'])
    {
      hide Sane, SaneAt;
      Facts(St(), cpu, s);
      MergeSane(St(), cpu, s);
      var x := cpus[cpu].freelist.obj;
      ghost var rest, more := taken[s][1..], [x] + free[s];
      cpus := cpus[cpu := Cpu(Some(s), fp[x])];
      fp := fp[x := slabs[s].freelist];
      slabs := slabs[s := Slab(slabs[s].objects, slabs[s].inuse - 1, At(x), slabs[s].frozen)];
      taken, free := taken[s := rest], free[s := more];
    }

    /** deactive_slab: mm/slub.c:672-700.  The CPU's free objects go back to the slab first;
        a slab that got some goes to the front of the partial list. */
    method DeactiveSlab(cpu: nat, s: nat)
      requires Valid() && Holds(St(), cpu, s) && s in slabs
      modifies `cpus, `slabs, `partial, `nr_partial, `fp, `free, `taken
      ensures Valid() && cpus == old(cpus)[cpu := Cpu(None, Null)]
      ensures s in slabs <==> LiveOf(live, s) != {} || |old(partial)| < min_partial
      ensures s in slabs ==> !slabs[s].frozen && slabs[s].objects == old(slabs)[s].objects
      ensures forall s' :: s' != s ==> (s' in slabs <==> s' in old(slabs)) && (s' in slabs ==> slabs[s'] == old(slabs)[s'])
      ensures partial == if s !in slabs || |LiveOf(live, s)| == slabs[s].objects then old(partial)
        else if old(cpus)[cpu].freelist == Null || LiveOf(live, s) == {} then old(partial) + [s] else [s] + old(partial)
      ensures old(cpus)[cpu].freelist == Null ==> fp == old(fp) && (s in slabs ==> slabs == Unfrozen(old(slabs), s))
    {
      hide Sane, SaneAt, LiveOf;
      var tail := true;
      Facts(St(), cpu, s);
      while cpus[cpu].freelist != Null
        invariant Valid() && Holds(St(), cpu, s) && s in slabs && s in taken
        invariant |cpus| == |old(cpus)| && forall c :: 0 <= c < |cpus| && c != cpu ==> cpus[c] == old(cpus)[c]
        invariant slabs[s].objects == old(slabs)[s].objects && partial == old(partial)
        invariant forall s' :: s' != s ==> (s' in slabs <==> s' in old(slabs)) && (s' in slabs ==> slabs[s'] == old(slabs)[s'])
        invariant tail ==> cpus == old(cpus) && slabs == old(slabs) && fp == old(fp)
        invariant !tail ==> old(cpus)[cpu].freelist != Null
        decreases |taken[s]|
      {
        MergeBack(cpu, s);
        tail := false;
      }
      UnfreezeSlab(cpu, s, tail);
    }

    // ---------- the slow path of allocation ----------

    /** __slab_alloc while the CPU has a slab: mm/slub.c:1019-1045.  Objects that were freed
        to the slab meanwhile are taken over; a slab without any is given up. */
    method Refill(cpu: nat) returns (x: Option<Obj>)
      requires Valid() && cpu < |cpus| && cpus[cpu].freelist == Null
      modifies `cpus, `slabs, `partial, `nr_partial, `fp, `free, `taken, `live
      ensures Valid() && partial == old(partial)
      ensures |cpus| == |old(cpus)| && forall c :: 0 <= c < |cpus| && c != cpu ==> cpus[c] == old(cpus)[c]
      ensures x.None? ==> live == old(live) && cpus[cpu].page == None && slabs.Keys == old(slabs).Keys
      ensures x.Some? ==> x.value !in old(live) && live == old(live) + {x.value} && cpus[cpu].page == Some(x.value.slab)
      ensures x.Some? <==> old(cpus)[cpu].page.Some? && old(cpus)[cpu].page.value in old(slabs) && old(slabs)[old(cpus)[cpu].page.value].freelist != Null
      ensures x.Some? ==> Loaded(old(slabs), slabs, fp, cpus[cpu], old(cpus)[cpu].page.value, x.value)
      ensures x.None? ==> slabs == if old(cpus)[cpu].page.None? then old(slabs) else Unfrozen(old(slabs), old(cpus)[cpu].page.value)
      ensures fp == old(fp)
    {
      hide Sane, SaneAt, LiveOf;
      if cpus[cpu].page == None {
        return None;
      }
      var s := cpus[cpu].page.value;
      Facts(St(), cpu, s);
      if slabs[s].freelist == Null {
        Sizes(St(), cpu, s);
        DeactiveSlab(cpu, s);
        return None;
      }
      var o := LoadFreelist(cpu, s);
      return Some(o);
    }

    /** get_partial_node and load_freelist: mm/slub.c:944-965 and mm/slub.c:1047-1053.  Slabs
        that other CPUs have locked at the moment are passed over. */
    method TakePartial(cpu: nat, locked: set<nat>) returns (x: Option<Obj>)
      requires Valid() && cpu < |cpus| && cpus[cpu].page == None
      modifies `cpus, `slabs, `partial, `nr_partial, `limbo, `free, `taken, `live
      ensures Valid() && limbo == old(limbo) && slabs.Keys == old(slabs).Keys
      ensures |cpus| == |old(cpus)| && forall c :: 0 <= c < |cpus| && c != cpu ==> cpus[c] == old(cpus)[c]
      ensures x.None? <==> forall s :: s in old(partial) ==> s in locked
      ensures x.None? ==> cpus == old(cpus) && slabs == old(slabs) && partial == old(partial) && live == old(live)
      ensures x.Some? ==> x.value !in old(live) && live == old(live) + {x.value} && cpus[cpu].page == Some(x.value.slab)
      ensures x.Some? ==> FirstUnlocked(old(partial), locked, x.value.slab, partial)
      ensures x.Some? ==> Loaded(old(slabs), slabs, fp, cpus[cpu], x.value.slab, x.value)
    {
      hide Sane, SaneAt;
      if nr_partial == 0 {
        return None;
      }
      var i := 0;
      while i < |partial| && partial[i] in locked
        invariant 0 <= i <= |partial| && forall k :: 0 <= k < i ==> partial[k] in locked
      {
        i := i + 1;
      }
      if i == |partial| {
        return None;
      }
      var s := partial[i];
      Listed(St(), s);
      RemoveAt(partial, i);
      FreezeSane(St(), cpu, s, partial[..i] + partial[i + 1..]);
      partial, nr_partial := partial[..i] + partial[i + 1..], nr_partial - 1;
      TakeUp(cpu, s);
      var o := LoadFreelist(cpu, s);
      return Some(o);
    }

    /** __SetPageSlubFrozen, and the CPU's reference. */
    method TakeUp(cpu: nat, s: nat)
      requires cpu < |cpus| && s in slabs && cpus[cpu].page == None
      requires Sane(Freeze(St(), cpu, s, partial)) && nr_partial == |partial|
      requires forall s :: s in slabs ==> slabs[s].objects <= max_objects
      modifies `cpus, `slabs, `limbo
      ensures Valid() && limbo == old(limbo) - {s} && cpus == old(cpus)[cpu := Cpu(Some(s), Null)]
      ensures slabs == old(slabs)[s := Slab(old(slabs)[s].objects, old(slabs)[s].inuse, old(slabs)[s].freelist, true)]
    {
      slabs := slabs[s := Slab(slabs[s].objects, slabs[s].inuse, slabs[s].freelist, true)];
      cpus := cpus[cpu := Cpu(Some(s), Null)];
      limbo := limbo - {s};
    }

    /** The free list through a fresh slab: mm/slub.c:1655-1663 */
    method LinkObjects(s: nat, n: nat)
      requires n > 0
      modifies `fp
      ensures Chain(fp, At(Obj(s, 0)), InOrder(s, n))
      ensures forall o :: o in old(fp) && o.slab != s ==> o in fp && fp[o] == old(fp)[o]
    {
      var last, p := 0, 0;
      while p < n
        invariant 0 <= p <= n && last == (if p == 0 then 0 else p - 1)
        invariant forall k: nat :: k < last ==> Obj(s, k) in fp && fp[Obj(s, k)] == At(Obj(s, k + 1))
        invariant forall o :: o in old(fp) && o.slab != s ==> o in fp && fp[o] == old(fp)[o]
      {
        fp := fp[Obj(s, last) := At(Obj(s, p))];
        last := p;
        p := p + 1;
      }
      fp := fp[Obj(s, last) := Null];
      ChainInOrder(fp, s, 0, n);
    }

    /** new_slab: mm/slub.c:1630-1670.  The page allocator gave a page that is no slab of this
        cache; it takes part in nothing until a CPU takes it up. */
    method NewSlab(s: nat, objects: nat)
      requires Valid() && s !in slabs && 0 < objects <= max_objects
      modifies `slabs, `limbo, `fp, `free, `taken
      ensures Valid() && limbo == old(limbo) + {s} && free == old(free)[s := InOrder(s, objects)]
      ensures slabs == old(slabs)[s := Slab(objects, 0, At(Obj(s, 0)), false)]
      ensures forall o :: o in old(fp) && o.slab != s ==> o in fp && fp[o] == old(fp)[o]
    {
      hide Sane, SaneAt;
      ghost var before := St();
      LinkObjects(s, objects);
      AllInOrder(s, objects);
      FreshSane(before, s, objects, fp, InOrder(s, objects));
      slabs := slabs[s := Slab(objects, 0, At(Obj(s, 0)), false)];
      free, taken, limbo := free[s := InOrder(s, objects)], taken[s := []], limbo + {s};
    }

    /** The end of __slab_alloc: mm/slub.c:1064-1073.  While the slab was being made, with
        interrupts on, the CPU may have come by another one. */
    method Install(cpu: nat, s: nat) returns (x: Obj)
      requires Valid() && cpu < |cpus| && s in limbo
      modifies this
      ensures Valid() && limbo == old(limbo) - {s}
      ensures |cpus| == |old(cpus)| && forall c :: 0 <= c < |cpus| && c != cpu ==> cpus[c] == old(cpus)[c]
      ensures x.slab == s && x !in old(live) && live == old(live) + {x} && cpus[cpu].page == Some(s)
      ensures old(cpus)[cpu].page == None ==> partial == old(partial) && fp == old(fp) && Loaded(old(slabs), slabs, fp, cpus[cpu], s, x)
    {
      hide Sane, SaneAt, LiveOf;
      InLimbo(St(), s);
      if cpus[cpu].page != None {
        var held := cpus[cpu].page.value;
        Facts(St(), cpu, held);
        DeactiveSlab(cpu, held);
      }
      InLimbo(St(), s);
      FreezeSane(St(), cpu, s, partial);
      TakeUp(cpu, s);
      x := LoadFreelist(cpu, s);
    }

    /** slab_alloc undisturbed: mm/slub.c:1097-1126 with mm/slub.c:1010-1076.  `page` is what
        the page allocator would give, with the number of objects that fit. */
    method SlabAlloc(cpu: nat, locked: set<nat>, page: Option<(nat, nat)>) returns (x: Option<Obj>)
      requires Valid() && cpu < |cpus|
      requires page.Some? ==> page.value.0 !in slabs && 0 < page.value.1 <= max_objects
      modifies this
      ensures Valid()
      ensures x.Some? ==> x.value !in old(live) && live == old(live) + {x.value} && x.value.slab in slabs
      ensures x.None? ==> live == old(live) && page.None? && forall s :: s in old(partial) ==> s in locked
      ensures |cpus| == |old(cpus)| && forall c :: 0 <= c < |cpus| && c != cpu ==> cpus[c] == old(cpus)[c]
      ensures old(cpus)[cpu].freelist != Null ==>
        x == Some(old(cpus)[cpu].freelist.obj) && slabs == old(slabs) && partial == old(partial) && fp == old(fp)
      ensures old(cpus)[cpu].freelist == Null ==>
        var held := old(cpus)[cpu].page;
        if held.Some? && held.value in old(slabs) && old(slabs)[held.value].freelist != Null then
          // the CPU's own slab
          x.Some? && Loaded(old(slabs), slabs, fp, cpus[cpu], held.value, x.value) && partial == old(partial) && fp == old(fp)
        else
          var given := if held.None? then old(slabs) else Unfrozen(old(slabs), held.value);
          if exists s :: s in old(partial) && s !in locked then
            // the first slab of the partial list that is not locked
            x.Some? && FirstUnlocked(old(partial), locked, x.value.slab, partial) && fp == old(fp)
            && Loaded(given, slabs, fp, cpus[cpu], x.value.slab, x.value)
          else if page.Some? then
            // a new slab
            x == Some(Obj(page.value.0, 0)) && partial == old(partial)
            && (forall o :: o in old(fp) && o.slab != page.value.0 ==> o in fp && fp[o] == old(fp)[o])
            && Loaded(given[page.value.0 := Slab(page.value.1, 0, At(Obj(page.value.0, 0)), false)], slabs, fp, cpus[cpu], page.value.0, x.value)
          else
            x.None? && slabs == given && partial == old(partial) && fp == old(fp) && cpus[cpu] == Cpu(None, Null)
    {
      hide Sane, SaneAt;
      if cpus[cpu].freelist != Null {
        var o := AllocFast(cpu);
        x := Some(o);
      } else {
        x := Refill(cpu);
        if x.None? {
          x := TakePartial(cpu, locked);
          if x.None? && page.Some? {
            NewSlab(page.value.0, page.value.1);
            var o := Install(cpu, page.value.0);
            x := Some(o);
          }
        }
      }
      if x.Some? {
        LiveSlab(St(), x.value);
      } else {
        NoSlabNoList(St(), cpu);
      }
    }

    // ---------- freeing ----------

    /** slab_free: mm/slub.c:1812-1835 */
    method SlabFree(cpu: nat, x: Obj)
      requires Valid() && cpu < |cpus| && x in live
      modifies `cpus, `slabs, `partial, `nr_partial, `fp, `free, `taken, `live
      ensures Valid() && live == old(live) - {x} && x.slab in old(slabs)
      ensures |cpus| == |old(cpus)| && forall c :: 0 <= c < |cpus| && c != cpu ==> cpus[c] == old(cpus)[c]
      ensures x.slab in slabs <==> old(slabs)[x.slab].frozen || LiveOf(live, x.slab) != {}
      ensures forall s :: s != x.slab ==> (s in slabs <==> s in old(slabs)) && (s in slabs ==> slabs[s] == old(slabs)[s])
      ensures if old(cpus)[cpu].page == Some(x.slab)
        then cpus[cpu] == Cpu(Some(x.slab), At(x)) && slabs == old(slabs) && partial == old(partial)
        else cpus == old(cpus) && GivenBack(old(slabs), old(partial), slabs, partial, x)
      ensures x.slab in slabs ==> fp == old(fp)[x := if old(cpus)[cpu].page == Some(x.slab)
        then old(cpus)[cpu].freelist else old(slabs)[x.slab].freelist]
    {
      hide Sane, SaneAt, LiveOf, GivenBack;
      LiveSlab(St(), x);
      if cpus[cpu].page == Some(x.slab) {
        Facts(St(), cpu, x.slab);
        PushSane(St(), cpu, x.slab, x);
        fp := fp[x := cpus[cpu].freelist];
        cpus := cpus[cpu := Cpu(Some(x.slab), At(x))];
        taken, live := taken[x.slab := [x] + taken[x.slab]], live - {x};
      } else {
        SlowFree(x);
      }
    }

    /** __slab_free: mm/slub.c:1743-1793 */
    method SlowFree(x: Obj)
      requires Valid() && x in live && x.slab in slabs
      modifies `slabs, `partial, `nr_partial, `fp, `free, `taken, `live
      ensures Valid() && live == old(live) - {x}
      ensures x.slab in slabs <==> old(slabs)[x.slab].frozen || LiveOf(live, x.slab) != {}
      ensures forall s :: s != x.slab ==> (s in slabs <==> s in old(slabs)) && (s in slabs ==> slabs[s] == old(slabs)[s])
      ensures GivenBack(old(slabs), old(partial), slabs, partial, x)
      ensures fp == old(fp)[x := old(slabs)[x.slab].freelist]
    {
      hide Sane, SaneAt, LiveOf, NoDup;
      ghost var before, s := St(), x.slab;
      LiveSlab(before, x);
      var page := x.slab;
      var prior := slabs[page].freelist;
      ghost var listed := if !slabs[page].frozen && free[page] == [] then partial + [page] else partial;
      PushBackSane(before, page, x, listed);
      ghost var pushed := PushBack(before, page, x, listed);
      AfterPush(before, pushed, page, x, listed);
      fp := fp[x := prior];
      slabs := slabs[page := Slab(slabs[page].objects, slabs[page].inuse - 1, At(x), slabs[page].frozen)];
      free, live := free[page := [x] + free[page]], live - {x};
      if slabs[page].frozen {
        return;
      }
      if slabs[page].inuse == 0 {
        if prior != Null {
          RemovePartial(page);
        }
        DropSane(pushed, page, partial);
        slabs, free, taken := slabs - {page}, free - {page}, taken - {page};
        return;
      }
      if prior == Null {
        AddPartial(page, true);
      }
    }

    /** remove_partial: mm/slub.c:1166-1179 */
    method RemovePartial(s: nat)
      requires s in partial && NoDup(partial)
      modifies `partial, `nr_partial
      ensures nr_partial == old(nr_partial) - 1 && |partial| == |old(partial)| - 1
      ensures NoDup(partial) && forall x :: x in partial <==> x in old(partial) && x != s
      ensures LessOne(old(partial), s, partial)
    {
      var i := IndexOf(partial, s);
      RemoveAt(partial, i);
      partial, nr_partial := partial[..i] + partial[i + 1..], nr_partial - 1;
    }

    /** The owner of an object may write what he likes into it, free pointer and all. */
    method UserWrite(x: Obj, word: Ptr)
      requires Valid() && x in live
      modifies `fp
      ensures Valid() && fp == old(fp)[x := word]
    {
      hide Sane, SaneAt;
      WriteSane(St(), x, word);
      fp := fp[x := word];
    }

    /** __flush_cpu_slab: mm/slub.c:2287-2293 */
    method FlushCpu(cpu: nat)
      requires Valid() && cpu < |cpus|
      modifies `cpus, `slabs, `partial, `nr_partial, `fp, `free, `taken
      ensures Valid() && cpus == old(cpus)[cpu := Cpu(None, Null)] && live == old(live)
    {
      hide Sane, SaneAt, LiveOf;
      if cpus[cpu].page != None {
        Facts(St(), cpu, cpus[cpu].page.value);
        DeactiveSlab(cpu, cpus[cpu].page.value);
      } else {
        NoSlabNoList(St(), cpu);
        assert cpus == cpus[cpu := Cpu(None, Null)];
      }
    }

    // ---------- shrinking ----------

    /** flush_all: mm/slub.c:2305-2309 */
    method FlushAll()
      requires Valid()
      modifies `cpus, `slabs, `partial, `nr_partial, `fp, `free, `taken
      ensures Valid() && live == old(live) && |cpus| == |old(cpus)|
      ensures forall c :: 0 <= c < |cpus| ==> cpus[c] == Cpu(None, Null)
    {
      var cpu := 0;
      while cpu < |cpus|
        invariant 0 <= cpu <= |cpus| == |old(cpus)| && Valid()
        invariant forall c :: 0 <= c < cpu ==> cpus[c] == Cpu(None, Null)
      {
        FlushCpu(cpu);
        cpu := cpu + 1;
      }
    }

    /** kmem_cache_shrink after flush_all: mm/slub.c:2459-2500.  The empty slabs of the partial
        list go, save those that someone has locked; the others are put in order, those with
        the most objects in use first. */
    method Shrink(locked: set<nat>)
      requires Valid()
      modifies `slabs, `partial, `nr_partial, `free, `taken
      ensures Valid() && Descending(partial, slabs)
      ensures forall s :: s in partial <==> s in old(partial) && s in slabs
      ensures forall s :: s in slabs <==> s in old(slabs) && !Shrinks(old(partial), old(slabs), locked, s)
      ensures forall s :: s in slabs ==> slabs[s] == old(slabs)[s]
      ensures forall i, j :: 0 <= i < j < |partial| && slabs[partial[i]].inuse == slabs[partial[j]].inuse ==> Later(old(partial), partial[i], partial[j])
    {
      hide Sane, SaneAt, LiveOf, NoDup, Gather, Descending, Sorted, Sifted, Bounded, Shrinks, Reversed, SameOrder, Later;
      var todo, buckets := partial, seq(max_objects, _ => []);
      ghost var partial0, slabs0, kept: seq<nat>, st := partial, slabs, [], St();
      GatherEmpty(buckets);
      EmptySorted(buckets, slabs);
      NothingKept(buckets, partial0);
      SameList(st);
      SiftBegins(partial0, slabs0, locked, max_objects);
      while todo != []
        invariant Sane(st) && st == St().(partial := kept + todo) && nr_partial == |kept| + |todo|
        invariant |buckets| == max_objects && Sorted(buckets, slabs) && multiset(Gather(buckets)) == multiset(kept)
        invariant Sifted(partial0, slabs0, locked, slabs, kept, todo) && Bounded(slabs, max_objects)
        invariant SameOrder(partial0, kept + todo) && Reversed(buckets, kept)
        decreases |todo|
      {
        var page := todo[0];
        ThisPage(st, kept, todo);
        SiftStep(partial0, slabs0, locked, slabs, kept, todo, max_objects);
        if slabs[page].inuse == 0 && page !in locked {
          DropSane(st, page, kept + todo[1..]);
          Unlisted(buckets, slabs, kept, todo);
          OneLess(partial0, kept, todo);
          nr_partial := nr_partial - 1;
          slabs, free, taken := slabs - {page}, free - {page}, taken - {page};
          st := Drop(st, page, kept + todo[1..]);
        } else {
          GatherAdd(buckets, slabs[page].inuse, page);
          IntoBucket(buckets, slabs, page);
          AllKept(buckets, kept, slabs[page].inuse);
          OneMoreKept(buckets, kept, slabs[page].inuse, page);
          buckets := buckets[slabs[page].inuse := [page] + buckets[slabs[page].inuse]];
          assert kept + [page] + todo[1..] == kept + todo;
          kept := kept + [page];
        }
        todo := todo[1..];
      }
      assert kept + todo == kept;
      Rebuilt(st, kept, buckets, slabs);
      InReverse(buckets, slabs, partial0, kept);
      SiftEnds(partial0, slabs0, locked, slabs, kept, todo, max_objects);
      partial := Splice(buckets);
    }
  }

  /** The slabs that shrinking gives back. */
  ghost predicate Shrinks(partial: seq<nat>, slabs: map<nat, Slab>, locked: set<nat>, s: nat) {
    s in partial && s in slabs && slabs[s].inuse == 0 && s !in locked
  }

  /** `todo` of the list is left to look at, `kept` stays, and the slabs that shrinking gives
      back so far are gone from `slabs`. */
  ghost predicate Sifted(partial: seq<nat>, slabs0: map<nat, Slab>, locked: set<nat>, slabs: map<nat, Slab>, kept: seq<nat>, todo: seq<nat>) {
    && (forall s :: s in slabs ==> s in slabs0 && slabs[s] == slabs0[s])
    && (forall s :: s in slabs0 && s !in slabs ==> Shrinks(partial, slabs0, locked, s))
    && (forall s :: s in partial <==> s in kept || s in todo || (s in slabs0 && s !in slabs))
    && (forall s :: s in kept ==> s in slabs && !Shrinks(partial, slabs0, locked, s))
  }

  ghost predicate Bounded(slabs: map<nat, Slab>, most: int) { forall s :: s in slabs ==> slabs[s].objects <= most }

  lemma SiftBegins(partial: seq<nat>, slabs: map<nat, Slab>, locked: set<nat>, most: int)
    requires forall s :: s in slabs ==> slabs[s].objects <= most
    ensures Sifted(partial, slabs, locked, slabs, [], partial) && Bounded(slabs, most)
  {
  }

  lemma SiftStep(partial: seq<nat>, slabs0: map<nat, Slab>, locked: set<nat>, slabs: map<nat, Slab>, kept: seq<nat>, todo: seq<nat>, most: int)
    requires Sifted(partial, slabs0, locked, slabs, kept, todo) && Bounded(slabs, most) && todo != []
    requires todo[0] in slabs && todo[0] !in kept && todo[0] !in todo[1..]
    ensures slabs[todo[0]].objects <= most
    ensures slabs[todo[0]].inuse == 0 && todo[0] !in locked ==>
      Sifted(partial, slabs0, locked, slabs - {todo[0]}, kept, todo[1..]) && Bounded(slabs - {todo[0]}, most)
    ensures !(slabs[todo[0]].inuse == 0 && todo[0] !in locked) ==>
      Sifted(partial, slabs0, locked, slabs, kept + [todo[0]], todo[1..])
  {
    var s := todo[0];
    assert todo == [s] + todo[1..];
    assert s in partial;
  }

  lemma SiftEnds(partial: seq<nat>, slabs0: map<nat, Slab>, locked: set<nat>, slabs: map<nat, Slab>, kept: seq<nat>, todo: seq<nat>, most: int)
    requires Sifted(partial, slabs0, locked, slabs, kept, todo) && todo == [] && Bounded(slabs, most)
    ensures forall s :: s in kept <==> s in partial && s in slabs
    ensures forall s :: s in slabs <==> s in slabs0 && !Shrinks(partial, slabs0, locked, s)
    ensures forall s :: s in slabs ==> slabs[s] == slabs0[s] && slabs[s].objects <= most
  {
  }

  /** list_splice of each bucket at the end of the list: mm/slub.c:2496-2497 */
  method Splice(b: seq<seq<nat>>) returns (l: seq<nat>)
    ensures l == Gather(b)
  {
    l := [];
    var i := |b|;
    assert b[..i] == b;
    while i > 0
      invariant 0 <= i <= |b| && l + Gather(b[..i]) == Gather(b)
    {
      i := i - 1;
      assert b[..i + 1][..i] == b[..i];
      assert l + (b[i] + Gather(b[..i])) == l + b[i] + Gather(b[..i]);
      l := l + b[i];
    }
    assert l + [] == l;
  }

  lemma EmptySorted(b: seq<seq<nat>>, slabs: map<nat, Slab>)
    requires forall k :: 0 <= k < |b| ==> b[k] == []
    ensures Sorted(b, slabs)
  {
  }

  lemma SameList(st: State)
    ensures st.(partial := [] + st.partial) == st
  {
    assert [] + st.partial == st.partial;
  }

  /** The slab at hand is on the partial list, and its count is the index of a bucket. */
  lemma ThisPage(st: State, kept: seq<nat>, todo: seq<nat>)
    requires Sane(st) && st.partial == kept + todo && todo != []
    ensures var s := todo[0]; s in st.slabs && !st.slabs[s].frozen && s !in st.limbo && 0 <= st.slabs[s].inuse < st.slabs[s].objects
    ensures todo[0] !in kept && todo[0] !in todo[1..] && NoDup(kept + todo[1..])
    ensures forall x :: x in kept + todo[1..] <==> x in st.partial && x != todo[0]
  {
    assert todo[0] == st.partial[|kept|];
    assert SaneAt(st, todo[0]);
    InuseBounded(st, todo[0]);
    RemoveAt(kept + todo, |kept|);
    assert (kept + todo)[..|kept|] + (kept + todo)[|kept| + 1..] == kept + todo[1..];
    assert todo[0] !in kept + todo[1..];
  }

  lemma Unlisted(b: seq<seq<nat>>, slabs: map<nat, Slab>, kept: seq<nat>, todo: seq<nat>)
    requires Sorted(b, slabs) && multiset(Gather(b)) == multiset(kept) && todo != [] && todo[0] !in kept
    ensures Sorted(b, slabs - {todo[0]})
  {
    forall k, s | 0 <= k < |b| && s in b[k]
      ensures s != todo[0]
    {
      InGather(b, k, s);
      assert s in multiset(kept);
    }
  }

  lemma {:induction false} InGather(b: seq<seq<nat>>, k: nat, s: nat)
    requires k < |b| && s in b[k]
    ensures s in Gather(b)
  {
    if k < |b| - 1 {
      InGather(b[..|b| - 1], k, s);
    }
  }

  lemma NothingKept(b: seq<seq<nat>>, l: seq<nat>)
    requires forall k :: 0 <= k < |b| ==> b[k] == []
    ensures SameOrder(l, [] + l) && Reversed(b, [])
  {
    assert [] + l == l;
  }

  lemma AllKept(b: seq<seq<nat>>, kept: seq<nat>, k: nat)
    requires multiset(Gather(b)) == multiset(kept) && k < |b|
    ensures forall s :: s in b[k] ==> s in kept
  {
    forall s | s in b[k]
      ensures s in kept
    {
      InGather(b, k, s);
      assert s in multiset(kept);
    }
  }

  lemma InReverse(b: seq<seq<nat>>, slabs: map<nat, Slab>, l: seq<nat>, kept: seq<nat>)
    requires Sorted(b, slabs) && Reversed(b, kept) && SameOrder(l, kept) && forall s :: s in Gather(b) ==> s in slabs
    ensures var g := Gather(b);
      forall i, j :: 0 <= i < j < |g| && slabs[g[i]].inuse == slabs[g[j]].inuse ==> Later(l, g[i], g[j])
  {
    hide Sorted, Reversed, Later;
    var g := Gather(b);
    forall i, j | 0 <= i < j < |g| && slabs[g[i]].inuse == slabs[g[j]].inuse
      ensures Later(l, g[i], g[j])
    {
      assert g[i] in g && g[j] in g;
      EqualsReversed(b, slabs, kept, i, j);
    }
  }

  lemma IntoBucket(b: seq<seq<nat>>, slabs: map<nat, Slab>, s: nat)
    requires Sorted(b, slabs) && s in slabs && 0 <= slabs[s].inuse < |b|
    ensures Sorted(b[slabs[s].inuse := [s] + b[slabs[s].inuse]], slabs)
  {
  }

  lemma Rebuilt(st: State, kept: seq<nat>, b: seq<seq<nat>>, slabs: map<nat, Slab>)
    requires Sane(st) && st.partial == kept && Sorted(b, slabs) && multiset(Gather(b)) == multiset(kept)
    ensures Sane(st.(partial := Gather(b))) && Descending(Gather(b), slabs)
    ensures |Gather(b)| == |kept| && forall s :: s in Gather(b) <==> s in kept
  {
    PermutedNoDup(kept, Gather(b));
    ReorderSane(st, Gather(b));
    GatherDescends(b, slabs);
  }

  /** The object heads the list of its slab, unless the slab went; a slab that had no free
      object and is not frozen joins the partial list at the end; one that went leaves it,
      if it was there. */
  ghost predicate GivenBack(slabs: map<nat, Slab>, partial: seq<nat>, slabs': map<nat, Slab>, partial': seq<nat>, x: Obj) {
    && x.slab in slabs
    && (x.slab in slabs' ==>
          && slabs'[x.slab] == Slab(slabs[x.slab].objects, slabs[x.slab].inuse - 1, At(x), slabs[x.slab].frozen)
          && partial' == if slabs[x.slab].frozen || slabs[x.slab].freelist != Null then partial else partial + [x.slab])
    && (x.slab !in slabs' ==>
          if slabs[x.slab].freelist == Null then partial' == partial else LessOne(partial, x.slab, partial'))
  }

  /** The list without `s`, the others in the order that they had. */
  ghost predicate LessOne(l: seq<nat>, s: nat, l': seq<nat>) {
    exists i :: 0 <= i < |l| && l[i] == s && l' == l[..i] + l[i + 1..]
  }

  /** The slab is held by no CPU any more. */
  function Unfrozen(slabs: map<nat, Slab>, s: nat): map<nat, Slab> {
    if s in slabs then slabs[s := slabs[s].(frozen := false)] else slabs
  }

  /** The object was at the head of the slab's list; the CPU has the slab and the rest of it. */
  ghost predicate Loaded(slabs: map<nat, Slab>, slabs': map<nat, Slab>, fp: map<Obj, Ptr>, c: Cpu, s: nat, x: Obj) {
    && s in slabs && x.slab == s && slabs[s].freelist == At(x) && x in fp && c == Cpu(Some(s), fp[x])
    && slabs' == slabs[s := Slab(slabs[s].objects, slabs[s].objects, Null, true)]
  }

  /** `s` is the first slab of the list that is not locked, and `rest` the list without it. */
  ghost predicate FirstUnlocked(l: seq<nat>, locked: set<nat>, s: nat, rest: seq<nat>) {
    exists i :: 0 <= i < |l| && l[i] == s && s !in locked && rest == l[..i] + l[i + 1..] && AllIn(l[..i], locked)
  }

  predicate AllIn(l: seq<nat>, locked: set<nat>) { forall k :: 0 <= k < |l| ==> l[k] in locked }

  lemma NoSlabNoList(st: State, cpu: nat)
    requires Sane(st) && cpu < |st.cpus| && st.cpus[cpu].page == None
    ensures st.cpus[cpu] == Cpu(None, Null)
  {
    hide SaneAt;
  }

  lemma LiveSlab(st: State, x: Obj)
    requires Sane(st) && x in st.live
    ensures x.slab in st.slabs && x.slab in st.free && x.slab in st.taken
    ensures st.free[x.slab] == [] <==> st.slabs[x.slab].freelist == Null
  {
    assert SaneAt(st, x.slab);
    assert x in LiveOf(st.live, x.slab);
    SlabHead(st, x.slab);
  }

  /** Once the object is back on the list of its slab. */
  lemma AfterPush(st: State, st': State, s: nat, x: Obj, partial: seq<nat>)
    requires Sane(st) && Sane(st') && x in st.live && x.slab == s && s in st.slabs && s in st.free && st' == PushBack(st, s, x, partial)
    ensures s in st'.slabs && s !in st'.limbo && NoDup(partial) && NoDup(st.partial)
    ensures !st'.slabs[s].frozen ==> s in partial && (st'.slabs[s].inuse == 0 <==> LiveOf(st'.live, s) == {})
    ensures !st.slabs[s].frozen ==> (s in st.partial <==> st.free[s] != [])
    ensures st.slabs[s].freelist == Null <==> st.free[s] == []
  {
    assert SaneAt(st, s) && SaneAt(st', s);
    SlabHead(st, s);
    if s in st.limbo {
      EmptyIsUnused(st, s);
    }
    InuseBounded(st', s);
    assert st'.slabs[s].frozen == st.slabs[s].frozen;
  }

  lemma Listed(st: State, s: nat)
    requires Sane(st) && s in st.partial
    ensures s in st.slabs && s in st.free && st.free[s] != [] && st.slabs[s].freelist != Null && NoDup(st.partial) && s !in st.limbo
  {
    assert SaneAt(st, s);
    SlabHead(st, s);
  }

  lemma InLimbo(st: State, s: nat)
    requires Sane(st) && s in st.limbo
    ensures s in st.slabs && s !in st.partial && NoDup(st.partial) && st.slabs[s].freelist != Null
    ensures forall c :: !Holds(st, c, s)
  {
    assert SaneAt(st, s);
    SlabHead(st, s);
    assert !HeldBySome(st, s);
  }

  lemma RemoveAt(l: seq<nat>, i: nat)
    requires i < |l| && NoDup(l)
    ensures var r := l[..i] + l[i + 1..];
      |r| == |l| - 1 && NoDup(r) && forall x :: x in r <==> x in l && x != l[i]
  {
    var r := l[..i] + l[i + 1..];
    forall x
      ensures x in r <==> x in l && x != l[i]
    {
      if x in l && x != l[i] {
        var k :| 0 <= k < |l| && l[k] == x;
        assert r[if k < i then k else k - 1] == x;
      }
    }
  }

  method IndexOf(l: seq<nat>, s: nat) returns (i: nat)
    requires s in l
    ensures i < |l| && l[i] == s
  {
    i := 0;
    while l[i] != s
      invariant i < |l| && s !in l[..i]
      decreases |l| - i
    {
      i := i + 1;
    }
  }

  function InOrder(s: nat, n: nat): (l: seq<Obj>)
    ensures |l| == n && forall k :: 0 <= k < n ==> l[k] == Obj(s, k)
  {
    seq(n, k requires 0 <= k < n => Obj(s, k))
  }

  /** The list that new_slab builds visits the objects in address order. */
  lemma {:induction false} ChainInOrder(fp: map<Obj, Ptr>, s: nat, k: nat, n: nat)
    requires k < n && forall i: nat :: i < n - 1 ==> Obj(s, i) in fp && fp[Obj(s, i)] == At(Obj(s, i + 1))
    requires Obj(s, n - 1) in fp && fp[Obj(s, n - 1)] == Null
    ensures Chain(fp, At(Obj(s, k)), InOrder(s, n)[k..])
    decreases n - k
  {
    var l := InOrder(s, n)[k..];
    assert l[0] == Obj(s, k);
    if k < n - 1 {
      ChainInOrder(fp, s, k + 1, n);
      assert l[1..] == InOrder(s, n)[k + 1..];
    } else {
      assert l[1..] == [];
    }
  }

  lemma {:induction false} AllInOrder(s: nat, n: nat)
    ensures multiset(InOrder(s, n)) == multiset(Objects(s, n))
  {
    if n > 0 {
      AllInOrder(s, n - 1);
      assert InOrder(s, n) == InOrder(s, n - 1) + [Obj(s, n - 1)];
    }
  }

  /** While the CPU's own list is empty, the slab's counts tell how many objects are live. */
  lemma Sizes(st: State, cpu: nat, s: nat)
    requires Sane(st) && Holds(st, cpu, s) && st.cpus[cpu].freelist == Null
    ensures s in st.slabs && s in st.free && st.slabs[s].inuse == |LiveOf(st.live, s)|
    ensures st.slabs[s].inuse == 0 <==> LiveOf(st.live, s) == {}
    ensures st.free[s] == [] <==> |LiveOf(st.live, s)| == st.slabs[s].objects
    ensures st.slabs[s].objects > 0
  {
    assert SaneAt(st, s);
    Facts(st, cpu, s);
    InuseBounded(st, s);
  }

  lemma NotLimbo(st: State, cpu: nat, s: nat)
    requires Sane(st) && Holds(st, cpu, s)
    ensures s !in st.limbo && s !in st.partial && NoDup(st.partial)
  {
    assert SaneAt(st, s);
    Facts(st, cpu, s);
  }

  /** A CPU with objects of its own has a slab they come from. */
  lemma HeldSlab(st: State, cpu: nat) returns (s: nat)
    requires Sane(st) && cpu < |st.cpus| && st.cpus[cpu].freelist != Null
    ensures Holds(st, cpu, s) && s in st.taken && st.taken[s] != []
    ensures st.cpus[cpu].freelist == At(st.taken[s][0]) && st.taken[s][0] in st.fp
  {
    s := st.cpus[cpu].page.value;
    assert Holds(st, cpu, s) && SaneAt(st, s);
    assert HeldBySome(st, s);
    CpuHead(st, cpu, s);
  }

  /** What the code reads of a CPU and the slab it holds. */
  lemma Facts(st: State, cpu: nat, s: nat)
    requires Sane(st) && Holds(st, cpu, s)
    ensures s in st.slabs && s in st.free && s in st.taken && st.slabs[s].frozen
    ensures st.taken[s] == [] <==> st.cpus[cpu].freelist == Null
    ensures st.taken[s] != [] ==> st.cpus[cpu].freelist == At(st.taken[s][0]) && st.taken[s][0] in st.fp
    ensures st.free[s] == [] <==> st.slabs[s].freelist == Null
    ensures st.free[s] != [] ==> st.slabs[s].freelist == At(st.free[s][0]) && st.free[s][0] in st.fp
  {
    assert SaneAt(st, s);
    assert HeldBySome(st, s);
    CpuHead(st, cpu, s);
    SlabHead(st, s);
  }
}
