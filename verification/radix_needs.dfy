/** How many nodes an insertion into a radix tree takes (lib/radix-tree.c). */
module RadixNeeds {
  import opened Basics
  import opened RadixState

  /** The least height that has a place for the index. */
  function HeightOf(index: nat): nat { if index == 0 then 0 else 1 + HeightOf(Up(index)) }

  /** No node stands on the path to `index` at height `h`. */
  ghost predicate Vacant(pos: map<nat, (nat, nat)>, index: nat, h: nat) {
    forall id :: id in pos ==> pos[id] != (h, Prefix(index, h))
  }

  /** How many of the lowest `h` levels of the path to `index` have no node. */
  ghost function Vacancies(pos: map<nat, (nat, nat)>, index: nat, h: nat): nat {
    if h == 0 then 0 else Vacancies(pos, index, h - 1) + if Vacant(pos, index, h) then 1 else 0
  }

  /** The nodes that go on top of the root, one for each level. */
  ghost function Raises(st: State, index: nat): nat {
    if st.rnode.Null? || HeightOf(index) <= st.height then 0 else HeightOf(index) - st.height
  }

  /** The nodes that inserting at `index` takes: those on top of the root, and one for each
      level of the path that has none.  A root that is raised has the path leave it at once. */
  ghost function Needed(st: State, index: nat): nat {
    if HeightOf(index) <= st.height then Vacancies(st.pos, index, st.height)
    else if st.rnode.Null? then HeightOf(index)
    else Raises(st, index) + HeightOf(index) - 1
  }

  lemma {:induction false} PrefixUp(index: nat, h: nat)
    ensures Prefix(index, h + 1) == Prefix(Up(index), h)
  {
    if h > 0 {
      PrefixUp(index, h - 1);
    }
  }

  lemma {:induction false} HeightIs(index: nat, h: nat)
    ensures Prefix(index, h) == 0 <==> HeightOf(index) <= h
  {
    if h > 0 {
      PrefixUp(index, h - 1);
      HeightIs(Up(index), h - 1);
    }
  }

  lemma {:induction false} AllVacant(pos: map<nat, (nat, nat)>, index: nat, h: nat)
    requires forall j: nat :: 0 < j <= h ==> Vacant(pos, index, j)
    ensures Vacancies(pos, index, h) == h
  {
    if h > 0 {
      AllVacant(pos, index, h - 1);
    }
  }

  /** A node at a higher level makes no difference below. */
  lemma {:induction false} VacantBelow(pos: map<nat, (nat, nat)>, id: nat, h: nat, index: nat, j: nat)
    requires id !in pos && j < h
    ensures Vacancies(pos[id := (h, Prefix(index, h))], index, j) == Vacancies(pos, index, j)
  {
    if j > 0 {
      VacantBelow(pos, id, h, index, j - 1);
      var pos' := pos[id := (h, Prefix(index, h))];
      if Vacant(pos, index, j) {
        assert Vacant(pos', index, j);
      } else {
        var x :| x in pos && pos[x] == (j, Prefix(index, j));
        assert pos'[x] == pos[x];
      }
    }
  }

  /** Where the path has ended it does not go on. */
  lemma {:induction false} VacantOn(st: State, index: nat, h: nat, j: nat)
    requires Sane(st) && 0 < j <= h < st.height && Vacant(st.pos, index, h)
    ensures Vacant(st.pos, index, j)
    decreases h - j
  {
    hide Prefix, Offset, Key, Up, Digit, RootSane, Used, SlotSane, HasLeaf;
    if j < h {
      VacantOn(st, index, h, j + 1);
      DigitsOf(index, j + 1);
      forall id | id in st.pos
        ensures st.pos[id] != (j, Prefix(index, j))
      {
        if st.pos[id] == (j, Prefix(index, j)) {
          Above(st, id, index, j);
        }
      }
    }
  }

  lemma AnchoredBelow(st: State, id: nat)
    requires Sane(st) && id in st.pos && st.pos[id].0 < st.height
    ensures exists q :: Parent(st, q, id, st.pos[id].0, st.pos[id].1)
  {
    hide Key, Up, Digit, RootSane, Used, SlotSane, HasLeaf, Parent;
    assert NodeSane(st, id);
  }

  /** A node on the path that is not the root has one above it. */
  lemma Above(st: State, id: nat, index: nat, j: nat)
    requires Sane(st) && id in st.pos && st.pos[id] == (j, Prefix(index, j)) && j < st.height
    ensures !Vacant(st.pos, index, j + 1)
  {
    hide Prefix, Offset, Key, Up, Digit, RootSane, Used, SlotSane, HasLeaf, NodeSane, Anchored;
    DigitsOf(index, j + 1);
    AnchoredBelow(st, id);
    var q :| Parent(st, q, id, j, Prefix(index, j));
    assert st.pos[q] == (j + 1, Prefix(index, j + 1));
  }

  /** A root that leads to `index` by an empty slot is the one node on the path. */
  lemma VacantUnder(st: State, index: nat)
    requires Sane(st) && st.rnode.Child? && st.rnode.node in st.nodes && Prefix(index, st.height) == 0
    requires Offset(index, st.height) < |st.nodes[st.rnode.node].slots| && st.nodes[st.rnode.node].slots[Offset(index, st.height)] == Null
    ensures st.height > 0 && Vacancies(st.pos, index, st.height) == st.height - 1
  {
    hide Prefix, Offset, NodeSane;
    var r, h := st.rnode.node, st.height;
    assert st.pos[r] == (h, Prefix(index, h));
    NothingThere(st, r, index, h);
    forall j: nat | 0 < j <= h - 1
      ensures Vacant(st.pos, index, j)
    {
      VacantOn(st, index, h - 1, j);
    }
    AllVacant(st.pos, index, h - 1);
  }

  /** In an empty tree there is no node on the path. */
  lemma VacantAll(st: State, index: nat)
    requires Sane(st) && st.rnode.Null?
    ensures Vacancies(st.pos, index, st.height) == st.height
  {
    AllVacant(st.pos, index, st.height);
  }
}
