/** The nodes of a radix tree (lib/radix-tree.c) and the finite map they stand for. */
module RadixState {
  import opened Basics

  const MAP_SIZE: nat := 64
  /** RADIX_TREE_MAX_PATH: six digits of six bits cover a 32-bit index. */
  const MAX_PATH: nat := 6
  const INDEX_END: nat := WORD

  /** A slot of a node, or root->rnode: nothing, an item, or a (marked) pointer to a node. */
  datatype Slot = Null | Item(item: nat) | Child(node: nat)

  datatype Node = Node(height: nat, count: int, slots: seq<Slot>)

  /** `nodes` is the memory that the nodes live in.  `pos` says for each node at which height
      it stands and which index prefix it is for; `contents` is the map the tree stands for. */
  datatype State = State(height: nat, rnode: Slot, nodes: map<nat, Node>, pos: map<nat, (nat, nat)>, contents: map<nat, nat>)

  // A prefix and one more digit make the prefix of the level below.

  function Up(p: nat): nat { p / MAP_SIZE }

  /** The last digit, the mask being MAP_SIZE - 1. */
  function Digit(p: nat): (d: nat)
    ensures d < MAP_SIZE
  {
    p % MAP_SIZE
  }

  function Key(p: nat, k: nat): nat { p * MAP_SIZE + k }

  lemma UpKey(p: nat, k: nat)
    requires k < MAP_SIZE
    ensures Up(Key(p, k)) == p && Digit(Key(p, k)) == k
  {
  }

  lemma KeyUp(p: nat)
    ensures Key(Up(p), Digit(p)) == p
  {
  }

  /** index >> (h * RADIX_TREE_MAP_SHIFT) */
  function Prefix(index: nat, h: nat): nat { if h == 0 then index else Up(Prefix(index, h - 1)) }

  /** The slot that leads to `index` in a node of height `h`. */
  function Offset(index: nat, h: nat): (o: nat)
    requires h > 0
    ensures o < MAP_SIZE
  {
    Digit(Prefix(index, h - 1))
  }

  function Used(slots: seq<Slot>): nat {
    if slots == [] then 0 else Used(slots[..|slots| - 1]) + (if slots[|slots| - 1] == Null then 0 else 1)
  }

  lemma {:induction false} UsedChanges(slots: seq<Slot>, k: nat, s: Slot)
    requires k < |slots|
    ensures Used(slots[k := s]) == Used(slots) + (if s == Null then 0 else 1) - (if slots[k] == Null then 0 else 1)
  {
    var n := |slots| - 1;
    if k == n {
      assert slots[k := s][..n] == slots[..n];
    } else {
      UsedChanges(slots[..n], k, s);
      assert slots[k := s][..n] == slots[..n][k := s];
    }
  }

  lemma {:induction false} UsedNone(slots: seq<Slot>)
    ensures Used(slots) == 0 <==> forall k :: 0 <= k < |slots| ==> slots[k] == Null
  {
    if slots != [] {
      var n := |slots| - 1;
      UsedNone(slots[..n]);
      assert forall k :: 0 <= k < n ==> slots[..n][k] == slots[k];
    }
  }

  // ---------- the invariant ----------

  ghost predicate SlotSane(st: State, h: nat, p: nat, k: nat, s: Slot) {
    match s
    case Null => h == 1 ==> Key(p, k) !in st.contents
    case Item(v) => h == 1 && Key(p, k) in st.contents && st.contents[Key(p, k)] == v
    case Child(c) => h > 1 && c in st.nodes && c in st.pos && st.pos[c] == (h - 1, Key(p, k))
  }

  /** `q` holds the pointer to the node at height `h` for prefix `p`. */
  ghost predicate Parent(st: State, q: nat, id: nat, h: nat, p: nat) {
    q in st.nodes && q in st.pos && st.pos[q] == (h + 1, Up(p))
    && Digit(p) < |st.nodes[q].slots| && st.nodes[q].slots[Digit(p)] == Child(id)
  }

  ghost predicate Anchored(st: State, id: nat, h: nat, p: nat) {
    if h == st.height then p == 0 && st.rnode == Child(id) else exists q :: Parent(st, q, id, h, p)
  }

  /** A node's count is the number of its slots in use, each slot leads where it should, and
      some slot, or the root, leads to the node. */
  ghost predicate NodeSane(st: State, id: nat)
    requires id in st.nodes && id in st.pos
  {
    var n, h, p := st.nodes[id], st.pos[id].0, st.pos[id].1;
    && n.height == h && 1 <= h <= st.height && |n.slots| == MAP_SIZE && n.count == Used(n.slots)
    && (forall k: nat :: k < MAP_SIZE ==> SlotSane(st, h, p, k, n.slots[k]))
    && Anchored(st, id, h, p)
  }

  ghost predicate HasLeaf(st: State, key: nat) {
    exists id :: id in st.nodes && id in st.pos && st.pos[id] == (1, Up(key))
  }

  ghost predicate RootSane(st: State) {
    && st.height <= MAX_PATH
    && (st.rnode.Null? ==> st.nodes == map[] && st.contents == map[])
    && (st.rnode.Item? ==> st.height == 0 && st.nodes == map[] && st.contents == map[0 := st.rnode.item])
    && (st.rnode.Child? ==> st.height > 0 && st.rnode.node in st.nodes && st.rnode.node in st.pos && st.pos[st.rnode.node] == (st.height, 0))
  }

  ghost predicate Sane(st: State) {
    && st.pos.Keys == st.nodes.Keys && RootSane(st)
    && (forall id :: id in st.nodes ==> NodeSane(st, id))
    && (forall a, b :: a in st.pos && b in st.pos && st.pos[a] == st.pos[b] ==> a == b)
    && (st.rnode.Child? ==> forall key :: key in st.contents ==> HasLeaf(st, key))
  }

  // ---------- walking down ----------

  lemma DigitsOf(index: nat, h: nat)
    requires h > 0
    ensures Key(Prefix(index, h), Offset(index, h)) == Prefix(index, h - 1)
    ensures Up(Prefix(index, h - 1)) == Prefix(index, h) && Digit(Prefix(index, h - 1)) == Offset(index, h)
    ensures Prefix(index, 0) == index
  {
  }

  /** A node on the way: what its slot for `index` says about the level below. */
  lemma Below(st: State, id: nat, index: nat, h: nat)
    requires Sane(st) && id in st.nodes && id in st.pos && h > 0 && st.pos[id] == (h, Prefix(index, h))
    ensures |st.nodes[id].slots| == MAP_SIZE
    ensures var s := st.nodes[id].slots[Offset(index, h)];
      && (h == 1 ==> (s == Null <==> index !in st.contents) && (index in st.contents ==> s == Item(st.contents[index])))
      && (h > 1 ==> !s.Item? && (s.Child? ==> s.node in st.nodes && s.node in st.pos && st.pos[s.node] == (h - 1, Prefix(index, h - 1))))
  {
    hide Prefix, Offset, Key, Up, Digit, Anchored, RootSane, HasLeaf, Used;
    DigitsOf(index, h);
    assert NodeSane(st, id);
    assert SlotSane(st, h, Prefix(index, h), Offset(index, h), st.nodes[id].slots[Offset(index, h)]);
  }

  /** No node stands where an empty slot points. */
  lemma NothingThere(st: State, id: nat, index: nat, h: nat)
    requires Sane(st) && id in st.nodes && id in st.pos && h > 0 && st.pos[id] == (h, Prefix(index, h))
    requires Offset(index, h) < |st.nodes[id].slots| && st.nodes[id].slots[Offset(index, h)] == Null
    ensures forall x :: x in st.pos ==> st.pos[x] != (h - 1, Prefix(index, h - 1))
  {
    hide *;
    forall x | x in st.pos
      ensures st.pos[x] != (h - 1, Prefix(index, h - 1))
    {
      NotThere(st, id, index, h, x);
    }
  }

  lemma NotThere(st: State, id: nat, index: nat, h: nat, x: nat)
    requires Sane(st) && id in st.nodes && id in st.pos && h > 0 && st.pos[id] == (h, Prefix(index, h)) && x in st.pos
    requires Offset(index, h) < |st.nodes[id].slots| && st.nodes[id].slots[Offset(index, h)] == Null
    ensures st.pos[x] != (h - 1, Prefix(index, h - 1))
  {
    hide *;
    DigitsOf(index, h);
    if st.pos[x] == (h - 1, Prefix(index, h - 1)) {
      LeadsTo(st, id, x, h - 1, Prefix(index, h - 1));
    }
  }

  /** The node above a node has the pointer to it. */
  lemma LeadsTo(st: State, q: nat, id: nat, h: nat, p: nat)
    requires Sane(st) && id in st.pos && q in st.pos && st.pos[id] == (h, p) && st.pos[q] == (h + 1, Up(p))
    ensures q in st.nodes && Digit(p) < |st.nodes[q].slots| && st.nodes[q].slots[Digit(p)] == Child(id)
  {
    hide Prefix, Offset, Key, Up, Digit, RootSane, HasLeaf, Used, SlotSane;
    assert NodeSane(st, q) && NodeSane(st, id);
    var q' :| Parent(st, q', id, h, p);
  }

  /** Under a node there is a path to each leaf below it: if the leaf for `index` is there,
      so is the node at every height. */
  lemma {:induction false} OnThePath(st: State, index: nat, h: nat)
    requires Sane(st) && HasLeaf(st, index) && 1 <= h <= st.height
    ensures exists id :: id in st.nodes && id in st.pos && st.pos[id] == (h, Prefix(index, h))
  {
    hide Prefix, Offset, Key, Up, Digit, RootSane, Used, SlotSane;
    DigitsOf(index, h);
    if h > 1 {
      OnThePath(st, index, h - 1);
      var id :| id in st.nodes && id in st.pos && st.pos[id] == (h - 1, Prefix(index, h - 1));
      assert NodeSane(st, id);
      var q :| Parent(st, q, id, h - 1, Prefix(index, h - 1));
    }
  }

  /** Where the walk ends early there is no item. */
  lemma Missing(st: State, id: nat, index: nat, h: nat)
    requires Sane(st) && id in st.nodes && id in st.pos && h > 0 && st.pos[id] == (h, Prefix(index, h))
    requires Offset(index, h) < |st.nodes[id].slots| && st.nodes[id].slots[Offset(index, h)] == Null
    ensures index !in st.contents
  {
    hide Prefix, Offset, NodeSane;
    if h == 1 {
      Below(st, id, index, h);
    } else if index in st.contents {
      RootIsChild(st, id);
      Bounded(st, id);
      NothingThere(st, id, index, h);
      OnThePath(st, index, h - 1);
    }
  }

  lemma Bounded(st: State, id: nat)
    requires Sane(st) && id in st.nodes
    ensures id in st.pos && 1 <= st.pos[id].0 <= st.height <= MAX_PATH
  {
    hide Key, Up, Digit, Used, SlotSane;
    assert NodeSane(st, id);
  }

  lemma RootIsChild(st: State, id: nat)
    requires Sane(st) && id in st.nodes
    ensures st.rnode.Child?
  {
  }

  /** Every key has a place under the root. */
  lemma KeyInRange(st: State, key: nat)
    requires Sane(st) && key in st.contents
    ensures Prefix(key, st.height) == 0
  {
    hide Key, Up, Digit, Used, SlotSane;
    if st.height > 0 {
      OnThePath(st, key, st.height);
      var id :| id in st.nodes && id in st.pos && st.pos[id] == (st.height, Prefix(key, st.height));
      assert NodeSane(st, id);
    }
  }
}
