/** The steps in which lib/radix-tree.c changes a tree, and that each keeps it in order. */
module RadixSteps {
  import opened Basics
  import opened RadixState

  function Nulls(): (s: seq<Slot>)
    ensures |s| == MAP_SIZE && forall k :: 0 <= k < MAP_SIZE ==> s[k] == Null
  {
    seq(MAP_SIZE, _ => Null)
  }

  /** What node `x` relies on is the same in both states. */
  ghost predicate SameFor(st: State, st': State, x: nat)
    requires x in st.nodes && x in st.pos
  {
    && x in st'.nodes && x in st'.pos && st'.nodes[x] == st.nodes[x] && st'.pos[x] == st.pos[x]
    && st.pos[x].0 <= st'.height
    && (forall k: nat, c: nat :: k < |st.nodes[x].slots| && st.nodes[x].slots[k] == Child(c) && c in st.pos && c in st.nodes ==>
        c in st'.nodes && c in st'.pos && st'.pos[c] == st.pos[c])
    && (st.pos[x].0 == 1 ==> forall k: nat :: k < MAP_SIZE ==> SameItem(st, st', Key(st.pos[x].1, k)))
    && (Anchored(st, x, st.pos[x].0, st.pos[x].1) ==> Anchored(st', x, st.pos[x].0, st.pos[x].1))
  }

  ghost predicate SameItem(st: State, st': State, key: nat) {
    (key in st.contents <==> key in st'.contents) && (key in st.contents ==> st.contents[key] == st'.contents[key])
  }

  lemma NodeStays(st: State, st': State, x: nat)
    requires x in st.nodes && x in st.pos && NodeSane(st, x) && SameFor(st, st', x)
    ensures NodeSane(st', x)
  {
  }

  // ---------- hanging a new node below another ----------

  function Hang(st: State, id: nat, q: nat, index: nat, h: nat): State
    requires q in st.nodes && |st.nodes[q].slots| == MAP_SIZE
  {
    var n := st.nodes[q];
    st.(nodes := st.nodes[q := Node(n.height, n.count + 1, n.slots[Offset(index, h + 1) := Child(id)])][id := Node(h, 0, Nulls())],
        pos := st.pos[id := (h, Prefix(index, h))])
  }

  lemma HangSane(st: State, id: nat, q: nat, index: nat, h: nat)
    requires Sane(st) && id !in st.nodes && q in st.nodes && q in st.pos && h > 0 && st.pos[q] == (h + 1, Prefix(index, h + 1))
    requires |st.nodes[q].slots| == MAP_SIZE && st.nodes[q].slots[Offset(index, h + 1)] == Null
    ensures Sane(Hang(st, id, q, index, h))
  {
    hide Key, Up, Digit, Used, Prefix, Offset, NodeSane, Anchored, SameFor, SlotSane, HasLeaf, SameItem;
    var st' := Hang(st, id, q, index, h);
    NothingThere(st, q, index, h + 1);
    RootIsChild(st, q);
    forall x | x in st.nodes
      ensures NodeSane(st', x)
    {
      if x == q {
        HangParent(st, id, q, index, h);
      } else {
        HangOther(st, id, q, index, h, x);
      }
    }
    HangNew(st, id, q, index, h);
    forall key | key in st.contents
      ensures HasLeaf(st', key)
    {
      LeafStays(st, st', key);
    }
  }

  lemma LeafStays(st: State, st': State, key: nat)
    requires HasLeaf(st, key) && forall x :: x in st.nodes && x in st.pos ==> x in st'.nodes && x in st'.pos && st'.pos[x] == st.pos[x]
    ensures HasLeaf(st', key)
  {
  }

  lemma HangOther(st: State, id: nat, q: nat, index: nat, h: nat, x: nat)
    requires Sane(st) && id !in st.nodes && q in st.nodes && q in st.pos && h > 0 && st.pos[q] == (h + 1, Prefix(index, h + 1))
    requires |st.nodes[q].slots| == MAP_SIZE && st.nodes[q].slots[Offset(index, h + 1)] == Null && x in st.nodes && x != q
    ensures NodeSane(Hang(st, id, q, index, h), x)
  {
    hide Key, Up, Digit, Used, Prefix, Offset, NodeSane, Anchored, SlotSane;
    var st' := Hang(st, id, q, index, h);
    assert NodeSane(st, x);
    Bounded(st, x);
    StillAnchored(st, st', x, q, Offset(index, h + 1), id);
    NodeStays(st, st', x);
  }

  lemma HangParent(st: State, id: nat, q: nat, index: nat, h: nat)
    requires Sane(st) && id !in st.nodes && q in st.nodes && q in st.pos && h > 0 && st.pos[q] == (h + 1, Prefix(index, h + 1))
    requires |st.nodes[q].slots| == MAP_SIZE && st.nodes[q].slots[Offset(index, h + 1)] == Null
    ensures NodeSane(Hang(st, id, q, index, h), q)
  {
    hide Key, Up, Digit, Used, Prefix, Offset, NodeSane, Anchored;
    var st', o := Hang(st, id, q, index, h), Offset(index, h + 1);
    DigitsOf(index, h + 1);
    Bounded(st, q);
    StillAnchored(st, st', q, q, o, id);
    SlotWritten(st, st', q, o, Child(id));
  }

  lemma HangNew(st: State, id: nat, q: nat, index: nat, h: nat)
    requires Sane(st) && id !in st.nodes && q in st.nodes && q in st.pos && h > 0 && st.pos[q] == (h + 1, Prefix(index, h + 1))
    requires |st.nodes[q].slots| == MAP_SIZE && st.nodes[q].slots[Offset(index, h + 1)] == Null
    ensures NodeSane(Hang(st, id, q, index, h), id)
  {
    hide Key, Up, Digit, Used, Prefix, Offset, NodeSane, SlotSane;
    var st' := Hang(st, id, q, index, h);
    DigitsOf(index, h + 1);
    Bounded(st, q);
    NothingThere(st, q, index, h + 1);
    RootIsChild(st, q);
    if h == 1 {
      NoLeafNoKeys(st, Prefix(index, h));
    }
    assert Parent(st', q, id, h, Prefix(index, h));
    EmptyNode(st', id, h, Prefix(index, h));
  }

  /** The other nodes keep their parents: only an empty slot of `q` was filled. */
  lemma StillAnchored(st: State, st': State, x: nat, q: nat, o: nat, id: nat)
    requires Sane(st) && x in st.nodes && x in st.pos && q in st.nodes && id !in st.nodes && o < MAP_SIZE == |st.nodes[q].slots|
    requires st.nodes[q].slots[o] == Null && st'.height == st.height && st'.rnode == st.rnode
    requires st'.nodes.Keys == st.nodes.Keys + {id} && st'.pos.Keys == st'.nodes.Keys
    requires forall y :: y in st.nodes && y != q ==> st'.nodes[y] == st.nodes[y]
    requires forall y :: y in st.nodes ==> st'.pos[y] == st.pos[y]
    requires st'.nodes[q].slots == st.nodes[q].slots[o := Child(id)]
    ensures Anchored(st', x, st.pos[x].0, st.pos[x].1)
  {
    hide Key, Up, Digit, Used, SlotSane;
    assert NodeSane(st, x);
    var h, p := st.pos[x].0, st.pos[x].1;
    if h != st.height {
      var y :| Parent(st, y, x, h, p);
      assert Parent(st', y, x, h, p);
    }
  }

  /** A node one of whose slots was written, with its count kept up. */
  lemma SlotWritten(st: State, st': State, q: nat, o: nat, s: Slot)
    requires q in st.nodes && q in st.pos && NodeSane(st, q) && o < |st.nodes[q].slots|
    requires q in st'.nodes && q in st'.pos && st'.pos[q] == st.pos[q] && st.pos[q].0 <= st'.height
    requires st'.nodes[q].height == st.nodes[q].height && st'.nodes[q].slots == st.nodes[q].slots[o := s]
    requires st'.nodes[q].count == st.nodes[q].count + (if s == Null then 0 else 1) - (if st.nodes[q].slots[o] == Null then 0 else 1)
    requires SlotSane(st', st.pos[q].0, st.pos[q].1, o, s) && Anchored(st', q, st.pos[q].0, st.pos[q].1)
    requires forall k: nat, c: nat :: k < MAP_SIZE && k != o && st.nodes[q].slots[k] == Child(c) && c in st.nodes && c in st.pos ==>
      c in st'.nodes && c in st'.pos && st'.pos[c] == st.pos[c]
    requires st.pos[q].0 == 1 ==> forall k: nat :: k < MAP_SIZE && k != o ==> SameItem(st, st', Key(st.pos[q].1, k))
    ensures NodeSane(st', q)
  {
    hide Key, Up, Digit, Used, Anchored;
    UsedChanges(st.nodes[q].slots, o, s);
    var n, h, p := st'.nodes[q], st.pos[q].0, st.pos[q].1;
    forall k: nat | k < MAP_SIZE
      ensures SlotSane(st', h, p, k, n.slots[k])
    {
      assert SlotSane(st, h, p, k, st.nodes[q].slots[k]);
      if h == 1 && k != o {
        assert SameItem(st, st', Key(p, k));
      }
    }
  }

  /** A new node without slots in use, where no item lies under its prefix. */
  lemma EmptyNode(st: State, id: nat, h: nat, p: nat)
    requires id in st.nodes && id in st.pos && st.pos[id] == (h, p) && st.nodes[id] == Node(h, 0, Nulls())
    requires 1 <= h <= st.height && Anchored(st, id, h, p)
    requires h == 1 ==> forall k: nat :: k < MAP_SIZE ==> Key(p, k) !in st.contents
    ensures NodeSane(st, id)
  {
    hide Key, Up, Digit, Used, Anchored;
    UsedNone(Nulls());
  }

  lemma NoLeafNoKeys(st: State, p: nat)
    requires Sane(st) && st.rnode.Child? && forall x :: x in st.pos ==> st.pos[x] != (1, p)
    ensures forall k: nat :: k < MAP_SIZE ==> Key(p, k) !in st.contents
  {
    hide Key, Up, Digit, NodeSane;
    forall k: nat | k < MAP_SIZE
      ensures Key(p, k) !in st.contents
    {
      UpKey(p, k);
      assert Key(p, k) in st.contents ==> HasLeaf(st, Key(p, k));
    }
  }

  // ---------- writing an item ----------

  /** The leaf slot for `index` is set to an item, or cleared. */
  function Write(st: State, q: nat, index: nat, s: Slot): State
    requires q in st.nodes && |st.nodes[q].slots| == MAP_SIZE && !s.Child?
  {
    var n, o := st.nodes[q], Offset(index, 1);
    var count := n.count + (if s == Null then 0 else 1) - (if n.slots[o] == Null then 0 else 1);
    st.(nodes := st.nodes[q := Node(n.height, count, n.slots[o := s])],
        contents := if s == Null then st.contents - {index} else st.contents[index := s.item])
  }

  lemma WriteSane(st: State, q: nat, index: nat, s: Slot)
    requires Sane(st) && q in st.nodes && q in st.pos && st.pos[q] == (1, Prefix(index, 1)) && |st.nodes[q].slots| == MAP_SIZE
    requires !s.Child?
    ensures Sane(Write(st, q, index, s))
  {
    hide Key, Up, Digit, Used, Prefix, Offset, NodeSane, Anchored, SameFor, SlotSane, HasLeaf, SameItem;
    var st' := Write(st, q, index, s);
    RootIsChild(st, q);
    forall x | x in st.nodes
      ensures NodeSane(st', x)
    {
      if x == q {
        WriteLeaf(st, q, index, s);
      } else {
        WriteOther(st, q, index, s, x);
      }
    }
    forall key | key in st'.contents
      ensures HasLeaf(st', key)
    {
      if key == index {
        DigitsOf(index, 1);
        LeafHere(st', q, key);
      } else {
        LeafStays(st, st', key);
      }
    }
  }

  lemma LeafHere(st: State, q: nat, key: nat)
    requires q in st.nodes && q in st.pos && st.pos[q] == (1, Up(key))
    ensures HasLeaf(st, key)
  {
  }

  ghost predicate SameChildren(n: Node, n': Node) {
    |n'.slots| == |n.slots| && forall k :: 0 <= k < |n.slots| && n.slots[k].Child? ==> n'.slots[k] == n.slots[k]
  }

  lemma AnchoredSame(st: State, st': State, x: nat, h: nat, p: nat)
    requires Anchored(st, x, h, p) && st'.height == st.height && st'.rnode == st.rnode && st'.pos == st.pos
    requires forall y :: y in st.nodes ==> y in st'.nodes && SameChildren(st.nodes[y], st'.nodes[y])
    ensures Anchored(st', x, h, p)
  {
    if h != st.height {
      var y :| Parent(st, y, x, h, p);
      assert Parent(st', y, x, h, p);
    }
  }

  lemma LeafHasNoChild(st: State, q: nat)
    requires Sane(st) && q in st.nodes && q in st.pos && st.pos[q].0 == 1
    ensures forall k :: 0 <= k < |st.nodes[q].slots| ==> !st.nodes[q].slots[k].Child?
  {
    hide Key, Up, Digit, Used, Anchored;
    assert NodeSane(st, q);
    forall k: nat | k < |st.nodes[q].slots|
      ensures !st.nodes[q].slots[k].Child?
    {
      assert SlotSane(st, 1, st.pos[q].1, k, st.nodes[q].slots[k]);
    }
  }

  lemma WriteLeaf(st: State, q: nat, index: nat, s: Slot)
    requires Sane(st) && q in st.nodes && q in st.pos && st.pos[q] == (1, Prefix(index, 1)) && |st.nodes[q].slots| == MAP_SIZE
    requires !s.Child?
    ensures NodeSane(Write(st, q, index, s), q)
  {
    hide Up, Used, Prefix, Offset, NodeSane, Anchored, Key, Digit;
    var st', o, p := Write(st, q, index, s), Offset(index, 1), Prefix(index, 1);
    DigitsOf(index, 1);
    assert NodeSane(st, q);
    LeafHasNoChild(st, q);
    LeafAnchor(st, q);
    AnchoredSame(st, st', q, 1, p);
    forall k: nat | k < MAP_SIZE && k != o
      ensures SameItem(st, st', Key(p, k))
    {
      UpKey(p, k);
      UpKey(p, o);
    }
    SlotWritten(st, st', q, o, s);
  }

  lemma LeafAnchor(st: State, q: nat)
    requires Sane(st) && q in st.nodes && q in st.pos
    ensures Anchored(st, q, st.pos[q].0, st.pos[q].1) && 1 <= st.pos[q].0 <= st.height && |st.nodes[q].slots| == MAP_SIZE
  {
    hide Key, Up, Digit, Used, SlotSane, Anchored;
    assert NodeSane(st, q);
  }

  lemma WriteOther(st: State, q: nat, index: nat, s: Slot, x: nat)
    requires Sane(st) && q in st.nodes && q in st.pos && st.pos[q] == (1, Prefix(index, 1)) && |st.nodes[q].slots| == MAP_SIZE
    requires !s.Child? && x in st.nodes && x != q
    ensures NodeSane(Write(st, q, index, s), x)
  {
    hide Up, Used, Prefix, Offset, NodeSane, Anchored, Key, Digit, SlotSane;
    var st', p := Write(st, q, index, s), st.pos[x].1;
    DigitsOf(index, 1);
    assert NodeSane(st, x);
    LeafHasNoChild(st, q);
    LeafAnchor(st, x);
    AnchoredSame(st, st', x, st.pos[x].0, p);
    if st.pos[x].0 == 1 {
      forall k: nat | k < MAP_SIZE
        ensures SameItem(st, st', Key(p, k))
      {
        UpKey(p, k);
      }
    }
    NodeStays(st, st', x);
  }

  // ---------- taking an empty node away ----------

  /** The empty node `id` goes, and with it the pointer to it in `q`. */
  function Prune(st: State, id: nat, q: nat, index: nat, h: nat): State
    requires q in st.nodes && |st.nodes[q].slots| == MAP_SIZE
  {
    var n := st.nodes[q];
    st.(nodes := st.nodes[q := Node(n.height, n.count - 1, n.slots[Offset(index, h + 1) := Null])] - {id}, pos := st.pos - {id})
  }

  /** An empty node and the node above it, on the path to `index`. */
  ghost predicate Prunable(st: State, id: nat, q: nat, index: nat, h: nat) {
    && h > 0 && id in st.nodes && id in st.pos && st.pos[id] == (h, Prefix(index, h)) && st.nodes[id].count == 0
    && q in st.nodes && q in st.pos && st.pos[q] == (h + 1, Prefix(index, h + 1))
    && |st.nodes[q].slots| == MAP_SIZE && st.nodes[q].slots[Offset(index, h + 1)] == Child(id)
  }

  lemma PruneSane(st: State, id: nat, q: nat, index: nat, h: nat)
    requires Sane(st) && Prunable(st, id, q, index, h)
    ensures Sane(Prune(st, id, q, index, h))
  {
    hide Key, Up, Digit, Used, Prefix, Offset, NodeSane, Anchored, SameFor, SlotSane, HasLeaf, SameItem;
    var st' := Prune(st, id, q, index, h);
    RootIsChild(st, q);
    forall x | x in st.nodes && x != id
      ensures NodeSane(st', x)
    {
      if x == q {
        PruneParent(st, id, q, index, h);
      } else {
        PruneOther(st, id, q, index, h, x);
      }
    }
    Bounded(st, q);
    forall key | key in st.contents
      ensures HasLeaf(st', key)
    {
      EmptyHasNone(st, id, key);
      LeafElsewhere(st, st', id, key);
    }
  }

  lemma LeafElsewhere(st: State, st': State, id: nat, key: nat)
    requires HasLeaf(st, key) && id in st.pos && st.pos[id] != (1, Up(key))
    requires forall x :: x in st.nodes && x in st.pos && x != id ==> x in st'.nodes && x in st'.pos && st'.pos[x] == st.pos[x]
    ensures HasLeaf(st', key)
  {
  }

  lemma AllNull(st: State, id: nat)
    requires Sane(st) && id in st.nodes && st.nodes[id].count == 0
    ensures id in st.pos && |st.nodes[id].slots| == MAP_SIZE && forall k :: 0 <= k < MAP_SIZE ==> st.nodes[id].slots[k] == Null
  {
    hide Key, Up, Digit, Used, SlotSane, Anchored;
    assert NodeSane(st, id);
    UsedNone(st.nodes[id].slots);
  }

  /** No key has an empty node for its leaf. */
  lemma EmptyHasNone(st: State, id: nat, key: nat)
    requires Sane(st) && id in st.nodes && st.nodes[id].count == 0 && key in st.contents
    ensures id in st.pos && st.pos[id] != (1, Up(key))
  {
    hide Key, Up, Digit, Used, NodeSane, Anchored;
    AllNull(st, id);
    KeyUp(key);
    assert NodeSane(st, id);
    if st.pos[id] == (1, Up(key)) {
      SlotOf(st, id, Digit(key));
    }
  }

  lemma SlotOf(st: State, id: nat, k: nat)
    requires Sane(st) && id in st.nodes && id in st.pos && k < MAP_SIZE
    ensures |st.nodes[id].slots| == MAP_SIZE && SlotSane(st, st.pos[id].0, st.pos[id].1, k, st.nodes[id].slots[k])
  {
    hide Key, Up, Digit, Used, SlotSane, Anchored;
    assert NodeSane(st, id);
  }

  lemma PruneAnchored(st: State, id: nat, q: nat, index: nat, h: nat, x: nat)
    requires Sane(st) && Prunable(st, id, q, index, h) && x in st.nodes && x != id
    ensures x in st.pos && Anchored(Prune(st, id, q, index, h), x, st.pos[x].0, st.pos[x].1)
  {
    hide Key, Up, Digit, Used, SlotSane, Prefix, Offset, NodeSane;
    var st', hx, p := Prune(st, id, q, index, h), st.pos[x].0, st.pos[x].1;
    LeafAnchor(st, x);
    AllNull(st, id);
    if hx != st.height {
      var y :| Parent(st, y, x, hx, p);
      assert y != id;
      assert Parent(st', y, x, hx, p);
    }
  }

  lemma PruneParent(st: State, id: nat, q: nat, index: nat, h: nat)
    requires Sane(st) && Prunable(st, id, q, index, h)
    ensures q != id && NodeSane(Prune(st, id, q, index, h), q)
  {
    hide Key, Up, Digit, Used, Prefix, Offset, NodeSane, Anchored;
    var st', o := Prune(st, id, q, index, h), Offset(index, h + 1);
    DigitsOf(index, h + 1);
    Bounded(st, q);
    assert NodeSane(st, q);
    PruneAnchored(st, id, q, index, h, q);
    forall k: nat, c: nat | k < MAP_SIZE && k != o && st.nodes[q].slots[k] == Child(c) && c in st.nodes && c in st.pos
      ensures c != id
    {
      SlotOf(st, q, k);
      UpKey(Prefix(index, h + 1), k);
      UpKey(Prefix(index, h + 1), o);
    }
    SlotWritten(st, st', q, o, Null);
  }

  lemma PruneOther(st: State, id: nat, q: nat, index: nat, h: nat, x: nat)
    requires Sane(st) && Prunable(st, id, q, index, h) && x in st.nodes && x != id && x != q
    ensures NodeSane(Prune(st, id, q, index, h), x)
  {
    hide Key, Up, Digit, Used, Prefix, Offset, NodeSane, Anchored;
    var st' := Prune(st, id, q, index, h);
    DigitsOf(index, h + 1);
    Bounded(st, x);
    assert NodeSane(st, x);
    PruneAnchored(st, id, q, index, h, x);
    assert st.pos[x] != st.pos[q];
    forall k: nat, c: nat | k < |st.nodes[x].slots| && st.nodes[x].slots[k] == Child(c) && c in st.nodes && c in st.pos
      ensures c != id
    {
      LeafAnchor(st, x);
      SlotOf(st, x, k);
      UpKey(st.pos[x].1, k);
    }
    NodeStays(st, st', x);
  }

  /** When the root itself is empty, there is no other node and no item. */
  lemma EmptyRoot(st: State)
    requires Sane(st) && st.rnode.Child? && st.nodes[st.rnode.node].count == 0
    ensures st.nodes.Keys == {st.rnode.node} && st.contents == map[]
  {
    hide Key, Up, Digit, Used, Prefix, Offset, NodeSane, Anchored, SlotSane;
    var r := st.rnode.node;
    forall x | x in st.nodes
      ensures x == r
    {
      Bounded(st, x);
      NoneBelow(st, x);
    }
    forall key
      ensures key !in st.contents
    {
      if key in st.contents {
        EmptyHasNone(st, r, key);
      }
    }
  }

  lemma {:induction false} NoneBelow(st: State, x: nat)
    requires Sane(st) && st.rnode.Child? && st.nodes[st.rnode.node].count == 0 && x in st.nodes && x in st.pos && st.pos[x].0 <= st.height
    ensures x == st.rnode.node
    decreases st.height - st.pos[x].0
  {
    hide Key, Up, Digit, Used, NodeSane, SlotSane;
    LeafAnchor(st, x);
    AllNull(st, st.rnode.node);
    if st.pos[x].0 != st.height {
      var q :| Parent(st, q, x, st.pos[x].0, st.pos[x].1);
      NoneBelow(st, q);
    }
  }

  // ---------- the root ----------

  /** radix_tree_extend in an empty tree. */
  lemma SetHeightSane(st: State, h: nat)
    requires Sane(st) && st.rnode.Null? && h <= MAX_PATH
    ensures Sane(st.(height := h))
  {
  }

  /** The first node of an empty tree. */
  function Plant(st: State, id: nat): State {
    st.(rnode := Child(id), nodes := map[id := Node(st.height, 0, Nulls())], pos := map[id := (st.height, 0)])
  }

  lemma PlantSane(st: State, id: nat)
    requires Sane(st) && st.rnode.Null? && st.height > 0
    ensures Sane(Plant(st, id))
  {
    hide Key, Up, Digit, Used;
    EmptyNode(Plant(st, id), id, st.height, 0);
  }

  /** A new root above the old one. */
  function Raise(st: State, id: nat): State {
    st.(height := st.height + 1, rnode := Child(id), nodes := st.nodes[id := Node(st.height + 1, 1, Nulls()[0 := st.rnode])],
        pos := st.pos[id := (st.height + 1, 0)])
  }

  lemma RaiseSane(st: State, id: nat)
    requires Sane(st) && !st.rnode.Null? && id !in st.nodes && st.height < MAX_PATH
    ensures Sane(Raise(st, id))
  {
    hide Key, Up, Digit, Used, NodeSane, Anchored, SlotSane, HasLeaf, SameFor;
    var st' := Raise(st, id);
    forall x | x in st.nodes
      ensures NodeSane(st', x)
    {
      RaiseOther(st, id, x);
    }
    RaiseRoot(st, id);
    forall x | x in st.nodes
      ensures x in st.pos && st.pos[x] != (st.height + 1, 0)
    {
      Bounded(st, x);
    }
    forall key | key in st.contents
      ensures HasLeaf(st', key)
    {
      if st.rnode.Child? {
        LeafStays(st, st', key);
      } else {
        UpKey(0, 0);
        KeyZero(0);
        LeafHere(st', id, key);
      }
    }
  }

  lemma KeyZero(k: nat)
    ensures Key(0, k) == k && Up(0) == 0 && Digit(0) == 0
  {
  }

  lemma RaiseOther(st: State, id: nat, x: nat)
    requires Sane(st) && st.rnode.Child? && id !in st.nodes && st.height < MAX_PATH && x in st.nodes
    ensures NodeSane(Raise(st, id), x)
  {
    hide Key, Up, Digit, Used, NodeSane, SlotSane, Anchored;
    var st' := Raise(st, id);
    assert NodeSane(st, x);
    LeafAnchor(st, x);
    RaiseAnchored(st, id, x, st.pos[x].0, st.pos[x].1);
    NodeStays(st, st', x);
  }

  lemma RaiseAnchored(st: State, id: nat, x: nat, h: nat, p: nat)
    requires Anchored(st, x, h, p) && id !in st.nodes && h <= st.height
    ensures Anchored(Raise(st, id), x, h, p)
  {
    hide Key, Up, Digit, Used;
    var st' := Raise(st, id);
    KeyZero(0);
    if h == st.height {
      assert Parent(st', id, x, h, p);
    } else {
      var y :| Parent(st, y, x, h, p);
      assert Parent(st', y, x, h, p);
    }
  }

  lemma RaiseRoot(st: State, id: nat)
    requires Sane(st) && !st.rnode.Null? && id !in st.nodes && st.height < MAX_PATH
    ensures NodeSane(Raise(st, id), id)
  {
    hide Sane, Up, Digit, Used, HasLeaf, SlotSane;
    var st' := Raise(st, id);
    UsedNone(Nulls());
    UsedChanges(Nulls(), 0, st.rnode);
    forall k: nat | k < MAP_SIZE
      ensures SlotSane(st', st.height + 1, 0, k, st'.nodes[id].slots[k])
    {
      RaiseSlot(st, id, k);
    }
  }

  lemma RaiseSlot(st: State, id: nat, k: nat)
    requires Sane(st) && !st.rnode.Null? && id !in st.nodes && st.height < MAX_PATH && k < MAP_SIZE
    ensures SlotSane(Raise(st, id), st.height + 1, 0, k, Nulls()[0 := st.rnode][k])
  {
  }

  /** One round of radix_tree_shrink: the only slot in use of the root is its first. */
  ghost predicate Shrinkable(st: State) {
    && st.rnode.Child? && st.rnode.node in st.nodes && |st.nodes[st.rnode.node].slots| == MAP_SIZE
    && st.nodes[st.rnode.node].count == 1 && st.nodes[st.rnode.node].slots[0] != Null
  }

  function Lower(st: State): State
    requires st.rnode.Child? && st.rnode.node in st.nodes && |st.nodes[st.rnode.node].slots| == MAP_SIZE && st.height > 0
  {
    st.(height := st.height - 1, rnode := st.nodes[st.rnode.node].slots[0], nodes := st.nodes - {st.rnode.node}, pos := st.pos - {st.rnode.node})
  }

  lemma OnlyFirst(slots: seq<Slot>, k: nat)
    requires |slots| == MAP_SIZE && Used(slots) == 1 && slots[0] != Null && 0 < k < MAP_SIZE
    ensures slots[k] == Null
  {
    UsedChanges(slots, 0, Null);
    UsedNone(slots[0 := Null]);
    assert slots[0 := Null][k] == slots[k];
  }

  lemma LowerSane(st: State)
    requires Sane(st) && Shrinkable(st) && st.height > 0
    ensures Sane(Lower(st))
  {
    hide Key, Up, Digit, Used, NodeSane, Anchored, SlotSane, HasLeaf, SameFor;
    var st', r := Lower(st), st.rnode.node;
    SlotOf(st, r, 0);
    LowerRoot(st);
    forall x | x in st.nodes && x != r
      ensures NodeSane(st', x)
    {
      LowerOther(st, x);
    }
    if st'.rnode.Child? {
      forall key | key in st.contents
        ensures HasLeaf(st', key)
      {
        LeafElsewhere(st, st', r, key);
      }
    }
  }

  lemma LowerAnchored(st: State, x: nat)
    requires Sane(st) && Shrinkable(st) && st.height > 0 && x in st.nodes && x != st.rnode.node
    ensures x in st.pos && 1 <= st.pos[x].0 < st.height && Anchored(Lower(st), x, st.pos[x].0, st.pos[x].1)
  {
    hide Used, NodeSane, SlotSane, HasLeaf, Key;
    var st', r := Lower(st), st.rnode.node;
    LeafAnchor(st, x);
    LeafAnchor(st, r);
    assert NodeSane(st, r);
    var h, p := st.pos[x].0, st.pos[x].1;
    var y :| Parent(st, y, x, h, p);
    if y == r {
      RootCount(st);
      if Digit(p) > 0 {
        OnlyFirst(st.nodes[r].slots, Digit(p));
      }
    } else {
      LeafAnchor(st, y);
      assert Parent(st', y, x, h, p);
    }
  }

  lemma RootCount(st: State)
    requires Sane(st) && st.rnode.Child? && st.rnode.node in st.nodes
    ensures st.nodes[st.rnode.node].count == Used(st.nodes[st.rnode.node].slots)
  {
    hide Key, Up, Digit, Used, SlotSane, Anchored;
    assert NodeSane(st, st.rnode.node);
  }

  lemma LowerOther(st: State, x: nat)
    requires Sane(st) && Shrinkable(st) && st.height > 0 && x in st.nodes && x != st.rnode.node
    ensures NodeSane(Lower(st), x)
  {
    hide Key, Up, Digit, Used, NodeSane, Anchored;
    var st', r := Lower(st), st.rnode.node;
    assert NodeSane(st, x);
    LowerAnchored(st, x);
    LeafAnchor(st, x);
    forall k: nat, c: nat | k < |st.nodes[x].slots| && st.nodes[x].slots[k] == Child(c) && c in st.nodes && c in st.pos
      ensures c != r
    {
      SlotOf(st, x, k);
    }
    NodeStays(st, st', x);
  }

  /** What becomes the root. */
  lemma LowerRoot(st: State)
    requires Sane(st) && Shrinkable(st) && st.height > 0
    ensures RootSane(Lower(st))
    ensures Lower(st).rnode.Child? ==> forall key :: key in st.contents ==> st.pos[st.rnode.node] != (1, Up(key))
  {
    hide Used, NodeSane, Anchored, HasLeaf;
    var st', r := Lower(st), st.rnode.node;
    SlotOf(st, r, 0);
    KeyZero(0);
    if st'.rnode.Item? {
      forall x | x in st.nodes
        ensures x == r
      {
        LeafAnchor(st, x);
        OnlyRoot(st, x);
      }
      forall key | key in st.contents
        ensures key == 0
      {
        OnlyKeyZero(st, key);
      }
      assert st'.contents == map[0 := st'.rnode.item];
    }
  }

  lemma OnlyRoot(st: State, x: nat)
    requires Sane(st) && st.rnode.Child? && st.height == 1 && x in st.nodes
    ensures x == st.rnode.node
  {
  }

  lemma OnlyKeyZero(st: State, key: nat)
    requires Sane(st) && Shrinkable(st) && st.height == 1 && key in st.contents
    ensures key == 0
  {
    hide Used, NodeSane, Anchored;
    var r := st.rnode.node;
    assert HasLeaf(st, key);
    var x :| x in st.nodes && x in st.pos && st.pos[x] == (1, Up(key));
    OnlyRoot(st, x);
    KeyUp(key);
    SlotOf(st, r, Digit(key));
    RootCount(st);
    if Digit(key) > 0 {
      OnlyFirst(st.nodes[r].slots, Digit(key));
    }
  }

  // ---------- no node too many ----------

  /** No node is empty, and a root node has more than its first slot in use. */
  ghost predicate Lean(st: State) { forall id :: id in st.nodes ==> st.nodes[id].count > 0 }

  ghost predicate High(st: State) {
    match st.rnode
    case Null => st.height == 0
    case Item(_) => true
    case Child(r) => r in st.nodes && exists k :: 0 < k < |st.nodes[r].slots| && st.nodes[r].slots[k] != Null
  }

  /** Under a node of a lean tree there is an item. */
  lemma {:induction false} ItemBelow(st: State, id: nat, h: nat, p: nat) returns (key: nat)
    requires Sane(st) && Lean(st) && id in st.nodes && id in st.pos && st.pos[id] == (h, p) && h > 0
    ensures key in st.contents && Prefix(key, h) == p
    decreases h, 1
  {
    hide Key, Up, Digit, Used, NodeSane, Anchored;
    LeafAnchor(st, id);
    assert NodeSane(st, id);
    NotAllNull(st, id);
    var k: nat :| k < MAP_SIZE && st.nodes[id].slots[k] != Null;
    key := ItemUnder(st, id, h, p, k);
  }

  lemma NotAllNull(st: State, id: nat)
    requires Sane(st) && id in st.nodes && st.nodes[id].count > 0
    ensures |st.nodes[id].slots| == MAP_SIZE && exists k: nat :: k < MAP_SIZE && st.nodes[id].slots[k] != Null
  {
    hide Key, Up, Digit, Used, SlotSane, Anchored;
    assert NodeSane(st, id);
    UsedNone(st.nodes[id].slots);
  }

  /** Under a slot in use there is an item. */
  lemma {:induction false} ItemUnder(st: State, id: nat, h: nat, p: nat, k: nat) returns (key: nat)
    requires Sane(st) && Lean(st) && id in st.nodes && id in st.pos && st.pos[id] == (h, p) && h > 0
    requires k < MAP_SIZE == |st.nodes[id].slots| && st.nodes[id].slots[k] != Null
    ensures key in st.contents && Prefix(key, h) == p && Prefix(key, h - 1) == Key(p, k)
    decreases h, 0
  {
    hide Key, Up, Digit, Used, NodeSane, Anchored;
    SlotOf(st, id, k);
    UpKey(p, k);
    if h == 1 {
      key := Key(p, k);
      assert Prefix(key, 0) == key;
      assert Prefix(key, 1) == Up(Prefix(key, 0));
    } else {
      var c := st.nodes[id].slots[k].node;
      key := ItemBelow(st, c, h - 1, Key(p, k));
      assert Prefix(key, h) == Up(Prefix(key, h - 1));
    }
  }
}
