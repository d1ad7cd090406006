/** The objects of one slab cache (mm/slub.c) and where each of them is. */
module SlubState {
  import opened Basics

  /** The `index`-th object of a slab; slabs are named by their pages. */
  datatype Obj = Obj(slab: nat, index: nat)

  datatype Ptr = Null | At(obj: Obj)

  /** struct page of a slab */
  datatype Slab = Slab(objects: nat, inuse: int, freelist: Ptr, frozen: bool)

  /** struct kmem_cache_cpu */
  datatype Cpu = Cpu(page: Option<nat>, freelist: Ptr)

  /** `fp` is the word in each object that links the free lists; a live object's word is its
      owner's.  `limbo` holds the slabs that new_slab has made and no CPU has taken yet.
      The last three fields say where each object is: on the list of its slab, on the list
      of the CPU that froze its slab, or handed out. */
  datatype State = State(
    cpus: seq<Cpu>, slabs: map<nat, Slab>, partial: seq<nat>, limbo: set<nat>, fp: map<Obj, Ptr>,
    free: map<nat, seq<Obj>>, taken: map<nat, seq<Obj>>, live: set<Obj>)

  // ---------- linked lists in the objects ----------

  /** From `p`, the free pointers run through `l` and end. */
  ghost predicate Chain(fp: map<Obj, Ptr>, p: Ptr, l: seq<Obj>)
    decreases l
  {
    if l == [] then p == Null else p == At(l[0]) && l[0] in fp && Chain(fp, fp[l[0]], l[1..])
  }

  lemma {:induction false} ChainFrame(fp: map<Obj, Ptr>, p: Ptr, l: seq<Obj>, fp': map<Obj, Ptr>)
    requires Chain(fp, p, l) && forall o :: o in l && o in fp ==> o in fp' && fp'[o] == fp[o]
    ensures Chain(fp', p, l)
    decreases l
  {
    if l != [] {
      ChainFrame(fp, fp[l[0]], l[1..], fp');
    }
  }

  lemma ChainPush(fp: map<Obj, Ptr>, p: Ptr, l: seq<Obj>, x: Obj)
    requires Chain(fp, p, l) && x !in l
    ensures Chain(fp[x := p], At(x), [x] + l)
  {
    ChainFrame(fp, p, l, fp[x := p]);
    assert ([x] + l)[1..] == l;
  }

  /** The pointers alone fix the list. */
  lemma {:induction false} ChainUnique(fp: map<Obj, Ptr>, p: Ptr, l: seq<Obj>, m: seq<Obj>)
    requires Chain(fp, p, l) && Chain(fp, p, m)
    ensures l == m
    decreases l
  {
    if l != [] {
      ChainUnique(fp, fp[l[0]], l[1..], m[1..]);
    }
  }

  // ---------- the invariant ----------

  ghost function Objects(s: nat, n: nat): (r: set<Obj>)
    ensures forall o :: o in r <==> o.slab == s && o.index < n
  {
    if n == 0 then {} else Objects(s, n - 1) + {Obj(s, n - 1)}
  }

  ghost function LiveOf(live: set<Obj>, s: nat): set<Obj> { set o | o in live && o.slab == s }

  /** Each object of the slab is in exactly one of the three places, exactly once. */
  ghost predicate Balanced(s: nat, n: nat, free: seq<Obj>, taken: seq<Obj>, live: set<Obj>) {
    multiset(free) + multiset(taken) + multiset(LiveOf(live, s)) == multiset(Objects(s, n))
  }

  ghost predicate Holds(st: State, c: int, s: nat) { 0 <= c < |st.cpus| && st.cpus[c].page == Some(s) }

  ghost predicate HeldBySome(st: State, s: nat) { exists c :: Holds(st, c, s) }

  /** What holds of each slab: its objects are all accounted for; inuse counts those that
      are not on its own list; it is frozen just when a CPU, and then only one, allocates from
      it; and it is on the partial list just when no CPU does and it has free objects. */
  ghost predicate SlabSane(st: State, s: nat)
    requires s in st.slabs
  {
    && s in st.free && s in st.taken
    && Balanced(s, st.slabs[s].objects, st.free[s], st.taken[s], st.live)
    && Chain(st.fp, st.slabs[s].freelist, st.free[s])
    && st.slabs[s].objects > 0 && st.slabs[s].inuse == st.slabs[s].objects - |st.free[s]|
    && (st.slabs[s].frozen <==> HeldBySome(st, s))
    && (!st.slabs[s].frozen ==> st.taken[s] == [])
    && (forall c :: Holds(st, c, s) ==> Chain(st.fp, st.cpus[c].freelist, st.taken[s]))
    && (forall c, c' :: Holds(st, c, s) && Holds(st, c', s) ==> c == c')
    && (s in st.partial <==> !st.slabs[s].frozen && st.free[s] != [] && s !in st.limbo)
    && (s in st.limbo ==> !st.slabs[s].frozen && st.slabs[s].inuse == 0)
  }

  /** What holds of a page that is no slab: nothing refers to it. */
  ghost predicate NoSlab(st: State, s: nat) {
    && s !in st.free && s !in st.taken && s !in st.partial && s !in st.limbo
    && !HeldBySome(st, s) && LiveOf(st.live, s) == {}
  }

  ghost predicate SaneAt(st: State, s: nat) { if s in st.slabs then SlabSane(st, s) else NoSlab(st, s) }

  ghost predicate Idle(st: State) {
    forall c :: 0 <= c < |st.cpus| && st.cpus[c].page == None ==> st.cpus[c].freelist == Null
  }

  ghost predicate Sane(st: State) { NoDup(st.partial) && Idle(st) && forall s: nat :: SaneAt(st, s) }

  // ---------- a step concerns one slab ----------

  /** Nothing that bears on slab `s` differs between the two states. */
  ghost predicate SameAt(st: State, st': State, s: nat) {
    && (s in st.slabs <==> s in st'.slabs) && (s in st.slabs ==> st.slabs[s] == st'.slabs[s])
    && (s in st.free <==> s in st'.free) && (s in st.free ==> st.free[s] == st'.free[s])
    && (s in st.taken <==> s in st'.taken) && (s in st.taken ==> st.taken[s] == st'.taken[s])
    && (s in st.partial <==> s in st'.partial) && (s in st.limbo <==> s in st'.limbo)
    && (forall c :: Holds(st, c, s) <==> Holds(st', c, s))
    && (forall c :: Holds(st, c, s) ==> st.cpus[c] == st'.cpus[c])
    && LiveOf(st.live, s) == LiveOf(st'.live, s)
    && (forall o: Obj :: o.slab == s && o in st.fp ==> o in st'.fp && st'.fp[o] == st.fp[o])
  }

  lemma StaysSane(st: State, st': State, s: nat)
    requires SaneAt(st, s) && SameAt(st, st', s)
    ensures SaneAt(st', s)
  {
    if s in st.slabs {
      var n := st.slabs[s].objects;
      ListsOwn(s, n, st.free[s], st.taken[s], st.live);
      ChainFrame(st.fp, st.slabs[s].freelist, st.free[s], st'.fp);
      forall c | Holds(st', c, s)
        ensures Chain(st'.fp, st'.cpus[c].freelist, st.taken[s])
      {
        assert Holds(st, c, s);
        ChainFrame(st.fp, st.cpus[c].freelist, st.taken[s], st'.fp);
      }
      if HeldBySome(st, s) {
        var c :| Holds(st, c, s);
        assert Holds(st', c, s);
      }
    }
  }

  /** The lists of a slab hold objects of that slab, none of them live. */
  lemma ListsOwn(s: nat, n: nat, free: seq<Obj>, taken: seq<Obj>, live: set<Obj>)
    requires Balanced(s, n, free, taken, live)
    ensures forall o :: o in free || o in taken ==> o.slab == s && o.index < n && o !in live
    ensures forall o :: o in live && o.slab == s ==> o.index < n
    ensures forall o :: o in free ==> o !in taken
  {
    forall o | o in free || o in taken
      ensures o.slab == s && o.index < n && o !in live && !(o in free && o in taken)
    {
      assert o in multiset(free) || o in multiset(taken);
      assert multiset(Objects(s, n))[o] >= 1;
      assert o in Objects(s, n);
      assert multiset(Objects(s, n))[o] == 1;
    }
    forall o | o in live && o.slab == s
      ensures o.index < n
    {
      assert o in multiset(LiveOf(live, s));
      assert o in multiset(Objects(s, n));
    }
  }

  /** No object is on a list twice. */
  lemma OnceOnly(s: nat, n: nat, free: seq<Obj>, taken: seq<Obj>, live: set<Obj>)
    requires Balanced(s, n, free, taken, live)
    ensures free != [] ==> free[0] !in free[1..]
    ensures taken != [] ==> taken[0] !in taken[1..]
  {
    forall o
      ensures multiset(free)[o] <= 1 && multiset(taken)[o] <= 1
    {
      assert multiset(Objects(s, n))[o] <= 1;
    }
    HeadCounts(free);
    HeadCounts(taken);
  }

  lemma HeadCounts(l: seq<Obj>)
    ensures l != [] && l[0] in l[1..] ==> multiset(l)[l[0]] >= 2
  {
    if l != [] {
      assert l == [l[0]] + l[1..];
    }
  }

  /** A step that leaves every other slab alone and this one in order is in order. */
  lemma OneSlab(st: State, st': State, s: nat)
    requires Sane(st) && NoDup(st'.partial) && Idle(st')
    requires forall s': nat :: s' != s ==> SameAt(st, st', s')
    requires SaneAt(st', s)
    ensures Sane(st')
  {
    hide SaneAt, SameAt;
    forall s': nat
      ensures SaneAt(st', s')
    {
      if s' != s {
        StaysSane(st, st', s');
      }
    }
  }

  // ---------- what counting says ----------

  lemma {:induction false} ObjectsSize(s: nat, n: nat)
    ensures |Objects(s, n)| == n
  {
    if n > 0 {
      ObjectsSize(s, n - 1);
    }
  }

  lemma BalancedSizes(s: nat, n: nat, free: seq<Obj>, taken: seq<Obj>, live: set<Obj>)
    requires Balanced(s, n, free, taken, live)
    ensures |free| + |taken| + |LiveOf(live, s)| == n
  {
    ObjectsSize(s, n);
    assert |multiset(free) + multiset(taken) + multiset(LiveOf(live, s))| == |multiset(Objects(s, n))|;
  }

  lemma InuseBounded(st: State, s: nat)
    requires SaneAt(st, s) && s in st.slabs
    ensures 0 <= st.slabs[s].inuse <= st.slabs[s].objects
    ensures st.slabs[s].inuse == |st.taken[s]| + |LiveOf(st.live, s)|
  {
    BalancedSizes(s, st.slabs[s].objects, st.free[s], st.taken[s], st.live);
  }

  /** A slab whose count is down to 0 has no live object. */
  lemma EmptyIsUnused(st: State, s: nat)
    requires SaneAt(st, s) && s in st.slabs && st.slabs[s].inuse == 0
    ensures st.taken[s] == [] && LiveOf(st.live, s) == {} && forall o :: o in st.live ==> o.slab != s
  {
    InuseBounded(st, s);
    forall o | o in st.live
      ensures o.slab != s
    {
      assert o.slab == s ==> o in LiveOf(st.live, s);
    }
  }

  // ---------- what the invariant says ----------

  /** Each object of a slab is in one place, once: handed out, on the list of its slab, or on
      the list of the one CPU that froze the slab. */
  lemma OnePlace(st: State, o: Obj)
    requires Sane(st) && o.slab in st.slabs && o.index < st.slabs[o.slab].objects
    ensures o.slab in st.free && o.slab in st.taken
    ensures (if o in st.live then 1 else 0) + multiset(st.free[o.slab])[o] + multiset(st.taken[o.slab])[o] == 1
    ensures o in st.taken[o.slab] ==> exists c :: Holds(st, c, o.slab) && Chain(st.fp, st.cpus[c].freelist, st.taken[o.slab])
  {
    var s := o.slab;
    assert SaneAt(st, s);
    assert o in Objects(s, st.slabs[s].objects);
    assert multiset(Objects(s, st.slabs[s].objects))[o] == 1;
    assert multiset(LiveOf(st.live, s))[o] == if o in st.live then 1 else 0;
    if o in st.taken[s] {
      var c :| Holds(st, c, s);
    }
  }

  /** A slab is on the partial list exactly when no CPU allocates from it and some of its
      objects, but for a slab still being made, are free. */
  lemma WhenPartial(st: State, s: nat)
    requires Sane(st) && s in st.slabs && s !in st.limbo
    ensures s in st.partial <==> !HeldBySome(st, s) && |LiveOf(st.live, s)| < st.slabs[s].objects
  {
    assert SaneAt(st, s);
    InuseBounded(st, s);
  }

  /** What is live or on a CPU's list is in a slab that the cache still has. */
  lemma NoneDangling(st: State, o: Obj)
    requires Sane(st) && o in st.live
    ensures o.slab in st.slabs && o.index < st.slabs[o.slab].objects && st.slabs[o.slab].inuse > 0
  {
    assert SaneAt(st, o.slab);
    assert o in LiveOf(st.live, o.slab);
    ListsOwn(o.slab, st.slabs[o.slab].objects, st.free[o.slab], st.taken[o.slab], st.live);
    InuseBounded(st, o.slab);
  }
}
