/** The steps of mm/slub.c on the state, and that each keeps the invariant.  A step is what
    one CPU does under one lock, or with its own interrupts off on data of its own. */
module SlubSteps {
  import opened Basics
  import opened SlubState

  function SetCpu(st: State, c: nat, s: nat, p: Ptr, l: seq<Obj>): State
    requires c < |st.cpus|
  {
    st.(cpus := st.cpus[c := Cpu(Some(s), p)], taken := st.taken[s := l])
  }

  function SetSlab(st: State, s: nat, inuse: int, p: Ptr, l: seq<Obj>): State
    requires s in st.slabs
  {
    st.(slabs := st.slabs[s := Slab(st.slabs[s].objects, inuse, p, st.slabs[s].frozen)], free := st.free[s := l])
  }

  /** The CPU that holds the slab goes on holding it, and no other does. */
  lemma SameHolders(st: State, st': State, c: nat, s: nat)
    requires SaneAt(st, s) && Holds(st, c, s) && Holds(st', c, s)
    requires |st'.cpus| == |st.cpus| && forall c' :: 0 <= c' < |st.cpus| && c' != c ==> st'.cpus[c'] == st.cpus[c']
    ensures HeldBySome(st', s) && forall c' :: Holds(st', c', s) ==> c' == c
    ensures forall s', c' :: s' != s ==> (Holds(st, c', s') <==> Holds(st', c', s'))
  {
    assert HeldBySome(st, s);
    forall c' | Holds(st', c', s)
      ensures c' == c
    {
      assert c' != c ==> Holds(st, c', s);
    }
  }

  // ---------- the lists of a CPU ----------

  lemma CpuHead(st: State, c: nat, s: nat)
    requires SaneAt(st, s) && Holds(st, c, s)
    ensures s in st.slabs && s in st.taken && (st.taken[s] == [] <==> st.cpus[c].freelist == Null)
    ensures st.taken[s] != [] ==> st.cpus[c].freelist == At(st.taken[s][0]) && st.taken[s][0] in st.fp
  {
  }

  /** The fast path of slab_alloc. */
  function Pop(st: State, c: nat, s: nat): State
    requires c < |st.cpus| && s in st.taken && st.taken[s] != [] && st.taken[s][0] in st.fp
  {
    var x := st.taken[s][0];
    SetCpu(st, c, s, st.fp[x], st.taken[s][1..]).(live := st.live + {x})
  }

  lemma PopBalanced(s: nat, n: nat, free: seq<Obj>, taken: seq<Obj>, live: set<Obj>)
    requires Balanced(s, n, free, taken, live) && taken != []
    ensures Balanced(s, n, free, taken[1..], live + {taken[0]})
  {
    var x := taken[0];
    ListsOwn(s, n, free, taken, live);
    assert taken == [x] + taken[1..];
    assert LiveOf(live + {x}, s) == LiveOf(live, s) + {x};
  }

  lemma PopSane(st: State, c: nat, s: nat)
    requires Sane(st) && Holds(st, c, s) && s in st.taken && st.taken[s] != [] && st.taken[s][0] in st.fp
    ensures Sane(Pop(st, c, s)) && st.taken[s][0] !in st.live && st.taken[s][0].slab == s
  {
    hide Balanced;
    var st' := Pop(st, c, s);
    assert SaneAt(st, s);
    ListsOwn(s, st.slabs[s].objects, st.free[s], st.taken[s], st.live);
    PopBalanced(s, st.slabs[s].objects, st.free[s], st.taken[s], st.live);
    SameHolders(st, st', c, s);
    OneSlab(st, st', s);
  }

  /** The fast path of slab_free. */
  function Push(st: State, c: nat, s: nat, x: Obj): State
    requires c < |st.cpus| && s in st.taken
  {
    SetCpu(st, c, s, At(x), [x] + st.taken[s]).(fp := st.fp[x := st.cpus[c].freelist], live := st.live - {x})
  }

  lemma PushBalanced(s: nat, n: nat, free: seq<Obj>, taken: seq<Obj>, live: set<Obj>, x: Obj)
    requires Balanced(s, n, free, taken, live) && x in live && x.slab == s
    ensures Balanced(s, n, free, [x] + taken, live - {x}) && Balanced(s, n, [x] + free, taken, live - {x})
  {
    assert LiveOf(live, s) == LiveOf(live - {x}, s) + {x};
  }

  lemma OthersLive(live: set<Obj>, live': set<Obj>, x: Obj)
    requires live' == live - {x} || live' == live + {x}
    ensures forall s :: s != x.slab ==> LiveOf(live', s) == LiveOf(live, s)
  {
  }

  lemma PushSane(st: State, c: nat, s: nat, x: Obj)
    requires Sane(st) && Holds(st, c, s) && x in st.live && x.slab == s
    ensures s in st.taken && Sane(Push(st, c, s, x))
  {
    hide Balanced, Chain, LiveOf;
    assert SaneAt(st, s);
    var st', n := Push(st, c, s, x), st.slabs[s].objects;
    ListsOwn(s, n, st.free[s], st.taken[s], st.live);
    PushBalanced(s, n, st.free[s], st.taken[s], st.live, x);
    ChainFrame(st.fp, st.slabs[s].freelist, st.free[s], st'.fp);
    ChainPush(st.fp, st.cpus[c].freelist, st.taken[s], x);
    OthersLive(st.live, st'.live, x);
    SameHolders(st, st', c, s);
    OneSlab(st, st', s);
  }

  /** What is freed last is handed out first, and taking it leaves all as it was but for its
      own word; taking an object and freeing it at once leaves all as it was. */
  lemma PushPop(st: State, c: nat, s: nat, x: Obj)
    requires Sane(st) && Holds(st, c, s) && x in st.live && x.slab == s
    ensures s in st.taken && Pop(Push(st, c, s, x), c, s) == st.(fp := st.fp[x := st.cpus[c].freelist])
    ensures st.taken[s] != [] ==> st.taken[s][0] in st.fp && Push(Pop(st, c, s), c, s, st.taken[s][0]) == st
  {
    CpuHead(st, c, s);
    var pushed := Push(st, c, s, x);
    assert pushed.taken[s][1..] == st.taken[s];
    assert Pop(pushed, c, s).live == st.live;
    assert Pop(pushed, c, s).cpus == st.cpus;
    if st.taken[s] != [] {
      var y := st.taken[s][0];
      PopSane(st, c, s);
      var popped := Pop(st, c, s);
      assert [y] + st.taken[s][1..] == st.taken[s];
      assert Push(popped, c, s, y).live == st.live;
      assert Push(popped, c, s, y).cpus == st.cpus;
      assert Push(popped, c, s, y).taken == st.taken;
      assert Push(popped, c, s, y).fp == st.fp;
    }
  }

  /** load_freelist: the slab's list goes to the CPU, and its first object to the caller. */
  function Load(st: State, c: nat, s: nat): State
    requires c < |st.cpus| && s in st.slabs && s in st.free && st.free[s] != [] && st.free[s][0] in st.fp
  {
    var x := st.free[s][0];
    SetSlab(SetCpu(st, c, s, st.fp[x], st.free[s][1..]), s, st.slabs[s].objects, Null, []).(live := st.live + {x})
  }

  lemma LoadBalanced(s: nat, n: nat, free: seq<Obj>, live: set<Obj>)
    requires Balanced(s, n, free, [], live) && free != []
    ensures Balanced(s, n, [], free[1..], live + {free[0]})
  {
    var x := free[0];
    ListsOwn(s, n, free, [], live);
    assert free == [x] + free[1..];
    assert LiveOf(live + {x}, s) == LiveOf(live, s) + {x};
  }

  /** The head of a slab's list, as the code reads it. */
  lemma SlabHead(st: State, s: nat)
    requires SaneAt(st, s) && s in st.slabs
    ensures s in st.free && s in st.taken && (st.free[s] == [] <==> st.slabs[s].freelist == Null)
    ensures st.free[s] != [] ==> st.slabs[s].freelist == At(st.free[s][0]) && st.free[s][0] in st.fp
  {
  }

  lemma LoadSane(st: State, c: nat, s: nat)
    requires Sane(st) && Holds(st, c, s) && s in st.slabs && s in st.free && st.free[s] != []
    requires s in st.taken && st.taken[s] == []
    ensures st.free[s][0] in st.fp && Sane(Load(st, c, s)) && st.free[s][0] !in st.live && st.free[s][0].slab == s
  {
    hide Balanced, LiveOf;
    assert SaneAt(st, s);
    SlabHead(st, s);
    var st', n := Load(st, c, s), st.slabs[s].objects;
    ListsOwn(s, n, st.free[s], [], st.live);
    LoadBalanced(s, n, st.free[s], st.live);
    OthersLive(st.live, st'.live, st.free[s][0]);
    SameHolders(st, st', c, s);
    OneSlab(st, st', s);
  }

  /** One round of the loop of deactive_slab. */
  function MergeOne(st: State, c: nat, s: nat): State
    requires c < |st.cpus| && s in st.slabs && s in st.free && s in st.taken && st.taken[s] != [] && st.taken[s][0] in st.fp
  {
    var x := st.taken[s][0];
    SetSlab(SetCpu(st, c, s, st.fp[x], st.taken[s][1..]), s, st.slabs[s].inuse - 1, At(x), [x] + st.free[s])
      .(fp := st.fp[x := st.slabs[s].freelist])
  }

  lemma MergeBalanced(s: nat, n: nat, free: seq<Obj>, taken: seq<Obj>, live: set<Obj>)
    requires Balanced(s, n, free, taken, live) && taken != []
    ensures Balanced(s, n, [taken[0]] + free, taken[1..], live)
  {
    assert taken == [taken[0]] + taken[1..];
  }

  lemma MergeSane(st: State, c: nat, s: nat)
    requires Sane(st) && Holds(st, c, s) && s in st.slabs && s in st.free && s in st.taken && st.taken[s] != []
    ensures st.taken[s][0] in st.fp && Sane(MergeOne(st, c, s))
  {
    hide Balanced;
    assert SaneAt(st, s);
    CpuHead(st, c, s);
    var st', n, x := MergeOne(st, c, s), st.slabs[s].objects, st.taken[s][0];
    ListsOwn(s, n, st.free[s], st.taken[s], st.live);
    OnceOnly(s, n, st.free[s], st.taken[s], st.live);
    MergeBalanced(s, n, st.free[s], st.taken[s], st.live);
    ChainFrame(st.fp, st.fp[x], st.taken[s][1..], st'.fp);
    ChainPush(st.fp, st.slabs[s].freelist, st.free[s], x);
    SameHolders(st, st', c, s);
    OneSlab(st, st', s);
  }

  /** unfreeze_slab for a slab that stays: the CPU lets go of it, and it joins the partial
      list, at either end, when it has free objects. */
  function Thaw(st: State, c: nat, s: nat, tail: bool): State
    requires c < |st.cpus| && s in st.slabs && s in st.free
  {
    st.(cpus := st.cpus[c := Cpu(None, Null)],
        slabs := st.slabs[s := Slab(st.slabs[s].objects, st.slabs[s].inuse, st.slabs[s].freelist, false)],
        partial := if st.free[s] == [] then st.partial else if tail then st.partial + [s] else [s] + st.partial)
  }

  lemma ThawSane(st: State, c: nat, s: nat, tail: bool)
    requires Sane(st) && Holds(st, c, s) && s in st.slabs && s in st.free && s in st.taken && st.taken[s] == []
    ensures Sane(Thaw(st, c, s, tail))
  {
    hide Balanced, Chain;
    assert SaneAt(st, s);
    var st' := Thaw(st, c, s, tail);
    assert HeldBySome(st, s);
    forall c'
      ensures !Holds(st', c', s)
    {
      assert Holds(st', c', s) ==> Holds(st, c', s);
    }
    OneSlab(st, st', s);
  }

  /** A CPU without a slab takes one from the partial list, or one just made. */
  function Freeze(st: State, c: nat, s: nat, partial: seq<nat>): State
    requires c < |st.cpus| && s in st.slabs
  {
    st.(cpus := st.cpus[c := Cpu(Some(s), Null)],
        slabs := st.slabs[s := Slab(st.slabs[s].objects, st.slabs[s].inuse, st.slabs[s].freelist, true)],
        partial := partial, limbo := st.limbo - {s})
  }

  lemma FreezeSane(st: State, c: nat, s: nat, partial: seq<nat>)
    requires Sane(st) && c < |st.cpus| && st.cpus[c].page == None && s in st.slabs && (s in st.partial || s in st.limbo)
    requires NoDup(partial) && forall s' :: s' in partial <==> s' in st.partial && s' != s
    ensures var st' := Freeze(st, c, s, partial);
      Sane(st') && Holds(st', c, s) && s in st'.free && s in st'.taken && st'.free[s] != [] && st'.taken[s] == []
  {
    hide Balanced;
    assert SaneAt(st, s);
    var st' := Freeze(st, c, s, partial);
    forall c' | Holds(st', c', s)
      ensures c' == c
    {
      assert c' != c ==> Holds(st, c', s);
      assert !HeldBySome(st, s);
    }
    assert Holds(st', c, s);
    forall s', c' | s' != s
      ensures Holds(st, c', s') <==> Holds(st', c', s')
    {
    }
    OneSlab(st, st', s);
  }

  /** The slow path of slab_free, before an empty slab is thrown away. */
  function PushBack(st: State, s: nat, x: Obj, partial: seq<nat>): State
    requires s in st.slabs && s in st.free
  {
    SetSlab(st, s, st.slabs[s].inuse - 1, At(x), [x] + st.free[s])
      .(fp := st.fp[x := st.slabs[s].freelist], live := st.live - {x}, partial := partial)
  }

  lemma PushBackSane(st: State, s: nat, x: Obj, partial: seq<nat>)
    requires Sane(st) && x in st.live && x.slab == s && s in st.slabs && s in st.free
    requires partial == if !st.slabs[s].frozen && st.free[s] == [] then st.partial + [s] else st.partial
    ensures Sane(PushBack(st, s, x, partial))
  {
    hide Balanced, Chain, LiveOf;
    assert SaneAt(st, s);
    var st', n := PushBack(st, s, x, partial), st.slabs[s].objects;
    ListsOwn(s, n, st.free[s], st.taken[s], st.live);
    PushBalanced(s, n, st.free[s], st.taken[s], st.live, x);
    ChainPush(st.fp, st.slabs[s].freelist, st.free[s], x);
    forall c | Holds(st', c, s)
      ensures Chain(st'.fp, st'.cpus[c].freelist, st.taken[s])
    {
      assert Holds(st, c, s);
      ChainFrame(st.fp, st.cpus[c].freelist, st.taken[s], st'.fp);
    }
    if HeldBySome(st, s) {
      var c :| Holds(st, c, s);
      assert Holds(st', c, s);
    }
    OthersLive(st.live, st'.live, x);
    forall s', c
      ensures Holds(st, c, s') <==> Holds(st', c, s')
    {
    }
    if s in st.limbo {
      EmptyIsUnused(st, s);
    }
    OneSlab(st, st', s);
  }

  /** discard_slab: the page goes back to the page allocator. */
  function Drop(st: State, s: nat, partial: seq<nat>): State {
    st.(slabs := st.slabs - {s}, free := st.free - {s}, taken := st.taken - {s}, partial := partial)
  }

  lemma DropSane(st: State, s: nat, partial: seq<nat>)
    requires Sane(st) && s in st.slabs && st.slabs[s].inuse == 0 && !st.slabs[s].frozen && s !in st.limbo
    requires NoDup(partial) && forall s' :: s' in partial <==> s' in st.partial && s' != s
    ensures Sane(Drop(st, s, partial)) && forall o :: o in st.live ==> o.slab != s
  {
    hide Balanced, Chain, LiveOf;
    assert SaneAt(st, s);
    EmptyIsUnused(st, s);
    var st' := Drop(st, s, partial);
    forall s', c
      ensures Holds(st, c, s') <==> Holds(st', c, s')
    {
    }
    assert !HeldBySome(st', s);
    OneSlab(st, st', s);
  }

  /** new_slab: all the objects of a fresh page on one list. */
  function Fresh(st: State, s: nat, n: nat, fp: map<Obj, Ptr>, l: seq<Obj>): State {
    st.(slabs := st.slabs[s := Slab(n, 0, At(Obj(s, 0)), false)], free := st.free[s := l], taken := st.taken[s := []],
        limbo := st.limbo + {s}, fp := fp)
  }

  lemma FreshSane(st: State, s: nat, n: nat, fp: map<Obj, Ptr>, l: seq<Obj>)
    requires Sane(st) && s !in st.slabs && n > 0
    requires Chain(fp, At(Obj(s, 0)), l) && multiset(l) == multiset(Objects(s, n))
    requires forall o :: o in st.fp && o.slab != s ==> o in fp && fp[o] == st.fp[o]
    ensures Sane(Fresh(st, s, n, fp, l))
  {
    hide SaneAt, SameAt, Chain, LiveOf;
    var st' := Fresh(st, s, n, fp, l);
    FreshSlab(st, s, n, fp, l);
    forall s': nat | s' != s
      ensures SameAt(st, st', s')
    {
      FreshElsewhere(st, s, n, fp, l, s');
    }
    OneSlab(st, st', s);
  }

  lemma FreshSlab(st: State, s: nat, n: nat, fp: map<Obj, Ptr>, l: seq<Obj>)
    requires Sane(st) && s !in st.slabs && n > 0
    requires Chain(fp, At(Obj(s, 0)), l) && multiset(l) == multiset(Objects(s, n))
    ensures SaneAt(Fresh(st, s, n, fp, l), s)
  {
    hide Chain, LiveOf;
    assert SaneAt(st, s);
    var st' := Fresh(st, s, n, fp, l);
    assert Balanced(s, n, l, [], st.live);
    BalancedSizes(s, n, l, [], st.live);
    forall c
      ensures Holds(st, c, s) <==> Holds(st', c, s)
    {
    }
    assert !HeldBySome(st', s);
  }

  lemma FreshElsewhere(st: State, s: nat, n: nat, fp: map<Obj, Ptr>, l: seq<Obj>, s': nat)
    requires s' != s && forall o :: o in st.fp && o.slab != s ==> o in fp && fp[o] == st.fp[o]
    ensures SameAt(st, Fresh(st, s, n, fp, l), s')
  {
    hide Chain, LiveOf;
    var st' := Fresh(st, s, n, fp, l);
    forall c
      ensures Holds(st, c, s') <==> Holds(st', c, s')
    {
    }
  }

  /** A user writes to an object of his own, over the word that links it when it is free. */
  lemma WriteSane(st: State, x: Obj, v: Ptr)
    requires Sane(st) && x in st.live
    ensures Sane(st.(fp := st.fp[x := v]))
  {
    hide Balanced, Chain;
    var st', s := st.(fp := st.fp[x := v]), x.slab;
    assert SaneAt(st, s);
    assert x in LiveOf(st.live, s);
    forall s', c
      ensures Holds(st, c, s') <==> Holds(st', c, s')
    {
    }
    ListsOwn(s, st.slabs[s].objects, st.free[s], st.taken[s], st.live);
    ChainFrame(st.fp, st.slabs[s].freelist, st.free[s], st'.fp);
    forall c | Holds(st', c, s)
      ensures Chain(st'.fp, st'.cpus[c].freelist, st.taken[s])
    {
      assert Holds(st, c, s);
      ChainFrame(st.fp, st.cpus[c].freelist, st.taken[s], st'.fp);
    }
    if HeldBySome(st, s) {
      var c :| Holds(st, c, s);
      assert Holds(st', c, s);
    }
    OneSlab(st, st', s);
  }

  /** The partial list may be put in another order. */
  lemma ReorderSane(st: State, partial: seq<nat>)
    requires Sane(st) && NoDup(partial) && forall s :: s in partial <==> s in st.partial
    ensures Sane(st.(partial := partial))
  {
    var st' := st.(partial := partial);
    forall s: nat
      ensures SaneAt(st', s)
    {
      assert SaneAt(st, s);
      SameAtAll(st, partial, s);
      StaysSane(st, st', s);
    }
  }

  lemma SameAtAll(st: State, partial: seq<nat>, s: nat)
    requires forall s :: s in partial <==> s in st.partial
    ensures SameAt(st, st.(partial := partial), s)
  {
    var st' := st.(partial := partial);
    forall c
      ensures Holds(st, c, s) <==> Holds(st', c, s)
    {
    }
  }
}
