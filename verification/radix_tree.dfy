/** lib/radix-tree.c: inserting into and deleting from a radix tree. */
module RadixTrees {
  import opened Basics
  import opened RadixNeeds
  import opened RadixState
  import opened RadixSteps

  function Shr(x: nat, n: nat): nat { if n == 0 then x else Shr(x / 2, n - 1) }

  /** __maxindex: lib/radix-tree.c:368-378 */
  function MaxIndex(height: nat): nat {
    var width := height * 6;
    if width > 32 then INDEX_END - 1 else if width == 0 then 0 else Shr(INDEX_END - 1, 32 - width)
  }

  /** A tree of some height has a place for an index just when that is not above the maximum. */
  lemma InRange(index: nat, h: nat)
    requires index < INDEX_END && h <= MAX_PATH
    ensures index <= MaxIndex(h) <==> Prefix(index, h) == 0
    ensures h == MAX_PATH ==> index <= MaxIndex(h)
  {
    Maxima();
    Digits(index, h);
  }

  /** height_to_maxindex: lib/radix-tree.c:380-386 */
  lemma Maxima()
    ensures MaxIndex(0) == 0 && MaxIndex(1) == 0x3F && MaxIndex(2) == 0xFFF && MaxIndex(3) == 0x3_FFFF
    ensures MaxIndex(4) == 0xFF_FFFF && MaxIndex(5) == 0x3FFF_FFFF && MaxIndex(6) == 0xFFFF_FFFF
  {
    var m := INDEX_END - 1;
    var m1 := m / 64;
    var m2 := m1 / 64;
    var m3 := m2 / 64;
    var m4 := m3 / 64;
    ShrSix(m, 20);
    ShrSix(m, 14);
    ShrSix(m, 8);
    ShrSix(m, 2);
    ShrSix(m1, 14);
    ShrSix(m1, 8);
    ShrSix(m1, 2);
    ShrSix(m2, 8);
    ShrSix(m2, 2);
    ShrSix(m3, 2);
    ShrTwo(m);
    ShrTwo(m1);
    ShrTwo(m2);
    ShrTwo(m3);
    ShrTwo(m4);
  }

  lemma ShrTwo(x: nat)
    ensures Shr(x, 2) == x / 4
  {
    assert Shr(x, 2) == Shr(x / 2, 1) == Shr(x / 4, 0);
  }

  lemma ShrSix(x: nat, n: nat)
    ensures Shr(x, n + 6) == Shr(x / 64, n)
  {
    assert Shr(x, n + 6) == Shr(x / 2, n + 5) == Shr(x / 4, n + 4) == Shr(x / 8, n + 3);
    assert Shr(x / 8, n + 3) == Shr(x / 16, n + 2) == Shr(x / 32, n + 1) == Shr(x / 64, n);
  }

  lemma Digits(index: nat, h: nat)
    requires index < INDEX_END && h <= MAX_PATH
    ensures h == 0 ==> Prefix(index, h) == index
    ensures h == 1 ==> Prefix(index, h) == index / 0x40
    ensures h == 2 ==> Prefix(index, h) == index / 0x1000
    ensures h == 3 ==> Prefix(index, h) == index / 0x4_0000
    ensures h == 4 ==> Prefix(index, h) == index / 0x100_0000
    ensures h == 5 ==> Prefix(index, h) == index / 0x4000_0000
    ensures h == 6 ==> Prefix(index, h) == 0
  {
  }

  datatype Error = Ok | Exists | NoMemory

  class RadixTree {
    var height: nat
    var rnode: Slot
    var nodes: map<nat, Node>
    /** Addresses from here on are unused. */
    var next: nat
    ghost var pos: map<nat, (nat, nat)>
    ghost var contents: map<nat, nat>

    ghost function St(): State
      reads this
    {
      State(height, rnode, nodes, pos, contents)
    }

    ghost predicate Valid()
      reads this
    {
      && Sane(St()) && (forall id :: id in nodes ==> id < next)
      && forall key :: key in contents ==> key < INDEX_END
    }

    constructor ()
      ensures Valid() && St() == State(0, Null, map[], map[], map[]) && Lean(St()) && High(St())
    {
      height, rnode, nodes, next := 0, Null, map[], 0;
      pos, contents := map[], map[];
    }

    lemma ValidSane()
      requires Valid()
      ensures Sane(St())
    {
    }

    method SetHeight(h: nat)
      requires Valid() && rnode.Null? && h <= MAX_PATH
      modifies `height
      ensures Valid() && height == h
    {
      hide Sane;
      SetHeightSane(St(), h);
      height := h;
    }

    /** A new root on top: lib/radix-tree.c:511-528 */
    method RaiseOnce()
      requires Valid() && !rnode.Null? && height < MAX_PATH
      modifies `height, `rnode, `nodes, `next, `pos
      ensures Valid() && height == old(height) + 1 && rnode.Child? && |nodes| == |old(nodes)| + 1
      ensures Raised(St()) && (Lean(old(St())) ==> Lean(St()))
    {
      hide Sane, Raised, Lean, Nulls;
      RaiseSane(St(), next);
      RaiseRaised(St(), next);
      nodes := nodes[next := Node(height + 1, 1, Nulls()[0 := rnode])];
      pos := pos[next := (height + 1, 0)];
      rnode := Child(next);
      height := height + 1;
      next := next + 1;
    }

    /** radix_tree_extend: lib/radix-tree.c:495-534.  `mem` is how many more nodes can be had. */
    method Extend(index: nat, mem0: nat) returns (ok: bool, mem: nat)
      requires Valid() && index < INDEX_END && index > MaxIndex(height)
      modifies `height, `rnode, `nodes, `next, `pos
      ensures Valid() && mem <= mem0 && (!ok ==> mem == 0) && |nodes| + mem == |old(nodes)| + mem0
      ensures ok <==> Raises(old(St()), index) <= mem0
      ensures ok ==> mem == mem0 - Raises(old(St()), index)
      ensures rnode.Null? <==> old(rnode).Null?
      ensures ok ==> height > 0 && Prefix(index, height) == 0 && Prefix(index, height - 1) != 0
      ensures height == (if ok then HeightOf(index) else old(height) + mem0)
      ensures height == old(height) ==> St() == old(St())
      ensures height > old(height) && rnode.Child? ==> Raised(St())
      ensures Lean(old(St())) ==> Lean(St())
    {
      hide Valid, Sane, MaxIndex, Prefix, HeightOf, Raised, Lean, Nulls;
      ValidSane();
      Heights(St());
      LeanEmpty(St());
      InRange(index, height);
      HeightIs(index, height);
      mem := mem0;
      var h := HeightFor(index, height);
      HeightIs(index, h);
      HeightIs(index, h - 1);
      if rnode == Null {
        SetHeight(h);
        LeanEmpty(St());
        return true, mem;
      }
      while true
        invariant height < h <= MAX_PATH && Valid() && mem <= mem0 && !rnode.Null?
        invariant contents == old(contents) && |nodes| + mem == |old(nodes)| + mem0
        invariant height == old(height) + (mem0 - mem) && (if mem == mem0 then St() == old(St()) else Raised(St()))
        invariant Lean(old(St())) ==> Lean(St())
        decreases h - height
      {
        if mem == 0 {
          return false, mem;
        }
        mem := mem - 1;
        RaiseOnce();
        if !(h > height) {
          break;
        }
      }
      return true, mem;
    }

    /** The node of a level that has none, below `q`: lib/radix-tree.c:570-577 */
    method HangNode(index: nat, h: nat, q: nat)
      requires Valid() && 0 < h <= height && At(St(), q, index, h + 1) && nodes[q].slots[Offset(index, h + 1)] == Null
      modifies `nodes, `next, `pos
      ensures Valid() && old(next) !in old(nodes) && |nodes| == |old(nodes)| + 1
      ensures St() == Hang(old(St()), old(next), q, index, h)
      ensures LeanBut(old(St()), Child(q)) ==> LeanBut(St(), Child(old(next)))
    {
      hide Sane, Prefix, Offset;
      HangSane(St(), next, q, index, h);
      CountNat(St(), q);
      ghost var st := St();
      var n := nodes[q];
      nodes := nodes[q := Node(n.height, n.count + 1, n.slots[Offset(index, h + 1) := Child(next)])];
      assert nodes.Keys == st.nodes.Keys;
      nodes := nodes[next := Node(h, 0, Nulls())];
      pos := pos[next := (h, Prefix(index, h))];
      next := next + 1;
    }

    /** The first node of an empty tree: lib/radix-tree.c:570-572 and lib/radix-tree.c:578 */
    method PlantNode()
      requires Valid() && height > 0 && rnode == Null
      modifies `rnode, `nodes, `next, `pos
      ensures Valid() && old(nodes) == map[] && |nodes| == 1 && St() == Plant(old(St()), old(next))
    {
      hide Sane, Nulls;
      Heights(St());
      PlantSane(St(), next);
      nodes, rnode := map[next := Node(height, 0, Nulls())], Child(next);
      pos := map[next := (height, 0)];
      next := next + 1;
    }

    /** A node for a level that has none. */
    method MakeNode(index: nat, h: nat, node: Slot) returns (child: Slot)
      requires Valid() && 0 < h <= height && Prefix(index, height) == 0 && !node.Item?
      requires node.Null? ==> h == height && rnode == Null
      requires node.Child? ==> At(St(), node.node, index, h + 1) && nodes[node.node].slots[Offset(index, h + 1)] == Null
      modifies `rnode, `nodes, `next, `pos
      ensures Valid() && child.Child? && At(St(), child.node, index, h)
      ensures child.node !in old(pos) && child.node !in old(nodes) && |nodes| == |old(nodes)| + 1
      ensures pos == old(pos)[child.node := (h, Prefix(index, h))] && nodes[child.node] == Node(h, 0, Nulls())
      ensures rnode == if node.Null? then child else old(rnode)
      ensures LeanBut(old(St()), node) ==> LeanBut(St(), child)
      ensures High(old(St())) && old(rnode) != Null ==> High(St())
      ensures node.Child? && node == rnode && Offset(index, h + 1) > 0 ==> High(St())
    {
      hide Sane, Prefix, Offset, High, Nulls, LeanBut;
      Heights(St());
      PosKeys(St());
      NullSlots();
      child := Child(next);
      if node.Child? {
        HighHang(St(), next, node.node, index, h);
        HangNode(index, h, node.node);
      } else {
        PlantLean(St(), next);
        PlantNode();
      }
    }

    /** One level of the walk of radix_tree_insert: lib/radix-tree.c:568-585.  `node` is the
        node above, Null at the root, and `slot` what its slot for the index holds; a missing
        node is made. */
    method Descend(index: nat, h: nat, node: Slot, slot: Slot, mem0: nat) returns (ok: bool, child: Slot, mem: nat)
      requires Valid() && 0 < h <= height && Prefix(index, height) == 0
      requires node.Null? ==> h == height && slot == rnode
      requires node.Child? ==> At(St(), node.node, index, h + 1) && slot == nodes[node.node].slots[Offset(index, h + 1)]
      requires !node.Item?
      modifies `rnode, `nodes, `next, `pos
      ensures Valid() && (ok <==> slot != Null || mem0 > 0)
      ensures ok ==> Descended(old(St()), St(), index, h, node, slot, child) && mem == if slot == Null then mem0 - 1 else mem0
      ensures !ok ==> St() == old(St()) && mem == 0
    {
      hide Sane, Prefix, Offset, High;
      ghost var st := St();
      mem, child := mem0, slot;
      Heights(st);
      if node.Child? {
        Below(st, node.node, index, h + 1);
      }
      if slot == Null {
        if mem == 0 {
          return false, child, mem;
        }
        mem := mem - 1;
        child := MakeNode(index, h, node);
      } else {
        if node.Child? {
          HighAlready(st, node.node, index, h);
          UsedCount(st, node.node, Offset(index, h + 1));
        }
        FreshAt(St(), child.node, index, h);
      }
      return true, child, mem;
    }

    /** radix_tree_insert: lib/radix-tree.c:544-603 */
    method Insert(index: nat, item: nat, mem0: nat) returns (err: Error, mem: nat)
      requires Valid() && index < INDEX_END
      modifies this
      ensures Valid() && (err == Exists <==> index in old(contents))
      ensures contents == if err == Ok then old(contents)[index := item] else old(contents)
      ensures err == NoMemory <==> mem0 < Needed(old(St()), index)
      ensures err == NoMemory ==> mem == 0 && index !in old(contents)
      ensures err != NoMemory ==> mem == mem0 - Needed(old(St()), index)
      ensures |nodes| + mem == |old(nodes)| + mem0
      ensures err == NoMemory && Lean(old(St())) ==> (Lean(St()) <==> mem0 <= Raises(old(St()), index))
      ensures err == NoMemory && High(old(St())) ==>
        (High(St()) <==> if old(rnode).Null? then mem0 >= 2 else mem0 == 0 || mem0 > Raises(old(St()), index))
      ensures err != NoMemory && Lean(old(St())) && High(old(St())) ==> Lean(St()) && High(St())
    {
      hide Sane, Prefix, Offset, MaxIndex, High, Lean, Vacancies, HeightOf, Raised, LeanBut, HighAfter, Reached;
      ghost var extended, st := false, St();
      mem := mem0;
      Heights(St());
      InRange(index, height);
      HeightIs(index, height);
      NullIsLow(St());
      Reachable(St(), index);
      if index > MaxIndex(height) {
        var ok: bool;
        ok, mem := Extend(index, mem);
        Heights(St());
        if height > st.height && rnode.Child? {
          RaisedLow(St());
        }
        if !ok {
          return NoMemory, mem;
        }
        OffsetTop(index, height);
        ExtendedNeeds(st, St(), index);
        extended := true;
      }
      var walked, node, slot;
      walked, node, slot, mem := WalkDown(index, mem, extended);
      if !walked {
        NullIsLow(St());
        NoVacancy(st.pos, index);
        return NoMemory, mem;
      }
      if slot != Null {
        return Exists, mem;
      }
      Store(index, item, node);
      return Ok, mem;
    }

    /** The loop of radix_tree_insert: lib/radix-tree.c:561-586.  `extended` tells the proof
        that the height was raised just now, so that the root is not in full use yet. */
    method WalkDown(index: nat, mem0: nat, ghost extended: bool) returns (ok: bool, node: Slot, slot: Slot, mem: nat)
      requires Valid() && Prefix(index, height) == 0 && (extended ==> height > 0 && Offset(index, height) > 0)
      modifies `rnode, `nodes, `next, `pos
      ensures Valid() && mem <= mem0 && (!ok ==> mem == 0) && |nodes| + mem == |old(nodes)| + mem0
      ensures ok <==> Vacancies(old(pos), index, height) <= mem0
      ensures ok ==> mem == mem0 - Vacancies(old(pos), index, height)
      ensures !ok ==> index !in contents
      ensures !ok && mem0 == 0 ==> St() == old(St())
      ensures !ok && mem0 > 0 ==> !Lean(St())
      ensures !ok && mem0 > 0 && (extended || High(old(St()))) ==> (High(St()) <==> !(old(rnode).Null? && mem0 == 1))
      ensures ok ==> Reached(St(), index, node, slot) && (slot != Null <==> index in contents)
      ensures ok && Lean(old(St())) ==> LeanBut(St(), node) && (slot != Null ==> Lean(St()))
      ensures ok && (extended || High(old(St()))) ==> HighAfter(St(), index, node)
      ensures ok && slot != Null && (extended || High(old(St()))) ==> High(St())
    {
      hide Sane, Prefix, Offset, MaxIndex, High, Lean, LeanBut, Vacancies, Nulls, At, OnTheWay, Descended, HighAfter, Reached;
      ghost var st0, made := St(), 0;
      mem := mem0;
      var h := height;
      node, slot := Null, rnode;
      WalkBegins(st0, index, extended);
      while h > 0
        invariant Valid() && mem <= mem0 && OnTheWay(st0, St(), index, h, node, slot, mem0 - mem, extended)
        decreases h
      {
        WalkFacts(st0, St(), index, h, node, slot, mem0 - mem, extended);
        ghost var st, left := St(), mem;
        var child;
        ok, child, mem := Descend(index, h, node, slot, mem);
        if !ok {
          WalkFails(st0, St(), index, h, node, slot, mem0, extended);
          return;
        }
        DescendFacts(st, St(), index, h, node, slot, child);
        WalkStep(st0, st, St(), index, h, node, slot, child, mem0 - left, extended);
        node, slot := child, nodes[child.node].slots[Offset(index, h)];
        h := h - 1;
      }
      ok := true;
      WalkEnds(st0, St(), index, node, slot, mem0 - mem, extended);
    }

    /** The end of radix_tree_insert: lib/radix-tree.c:591-600 */
    method Store(index: nat, item: nat, node: Slot)
      requires Valid() && Reached(St(), index, node, Null) && index < INDEX_END
      modifies `rnode, `nodes, `contents
      ensures Valid() && contents == old(contents)[index := item] && |nodes| == |old(nodes)|
      ensures LeanBut(old(St()), node) ==> Lean(St())
      ensures HighAfter(old(St()), index, node) ==> High(St())
    {
      hide Sane, Prefix, Offset, High, Lean;
      Heights(St());
      if node.Child? {
        CountNat(St(), node.node);
        WriteSane(St(), node.node, index, Item(item));
        HighWrite(St(), node.node, index, item);
        LeanWrite(St(), node.node, index, item);
        var n := nodes[node.node];
        ghost var keys := nodes.Keys;
        nodes := nodes[node.node := Node(n.height, n.count + 1, n.slots[Offset(index, 1) := Item(item)])];
        assert nodes.Keys == keys;
        contents := contents[index := item];
      } else {
        RootItem(St(), index);
        rnode := Item(item);
        contents := contents[index := item];
        RootSaneNow(St());
        HighItem(St());
        LeanEmpty(St());
      }
    }

    // ---------- deletion ----------

    /** radix_tree_shrink: lib/radix-tree.c:311-366 */
    method Shrink()
      requires Valid() && rnode.Child?
      modifies `height, `rnode, `nodes, `pos
      ensures Valid() && (Lean(old(St())) ==> Lean(St()) && High(St()))
    {
      hide Sane, High, Lean;
      Heights(St());
      while height > 0
        invariant Valid() && contents == old(contents) && (Lean(old(St())) ==> Lean(St()))
        invariant if height == 0 then rnode.Item? else rnode.Child?
        decreases height
      {
        Heights(St());
        var top := nodes[rnode.node];
        if top.count != 1 || top.slots[0] == Null {
          InFullUse(St());
          return;
        }
        LowerSane(St());
        LeanLower(St());
        LowerSlot(St());
        nodes, pos := nodes - {rnode.node}, pos - {rnode.node};
        rnode := top.slots[0];
        height := height - 1;
      }
      HighItem(St());
    }

    /** The walk of radix_tree_delete: lib/radix-tree.c:244-263 */
    method FindPath(index: nat) returns (slot: Slot, path: seq<nat>)
      requires Valid() && height > 0 && Prefix(index, height) == 0
      ensures slot == if index in contents then Item(contents[index]) else Null
      ensures slot != Null ==> |path| == height && Path(St(), index, path)
    {
      hide Sane, Prefix, Offset;
      Heights(St());
      slot, path := rnode, [];
      var h := height;
      while h > 0
        invariant 0 <= h <= height && |path| == height - h
        invariant h == height ==> slot == rnode
        invariant h < height ==> Path(St(), index, path) && slot == nodes[path[|path| - 1]].slots[Offset(index, h + 1)]
        invariant h == 0 ==> slot == if index in contents then Item(contents[index]) else Null
        decreases h
      {
        if h < height {
          NothingHere(St(), Child(path[|path| - 1]), slot, index, h);
          Below(St(), path[|path| - 1], index, h + 1);
        }
        if slot == Null {
          return;
        }
        FreshAt(St(), slot.node, index, h);
        PathGrows(St(), index, path, slot);
        path := path + [slot.node];
        Below(St(), slot.node, index, h);
        slot := nodes[slot.node].slots[Offset(index, h)];
        h := h - 1;
      }
    }

    /** radix_tree_delete: lib/radix-tree.c:220-307 */
    method Delete(index: nat) returns (slot: Slot)
      requires Valid() && index < INDEX_END
      modifies `height, `rnode, `nodes, `pos, `contents
      ensures Valid() && slot == if index in old(contents) then Item(old(contents)[index]) else Null
      ensures contents == old(contents) - {index}
      ensures Lean(old(St())) && High(old(St())) ==> Lean(St()) && High(St())
    {
      hide Sane, Prefix, Offset, MaxIndex, High, Lean;
      Heights(St());
      InRange(index, height);
      Reachable(St(), index);
      if index > MaxIndex(height) {
        return Null;
      }
      if height == 0 {
        RootItem(St(), index);
        slot := rnode;
        rnode := Null;
        contents := contents - {index};
        EmptySane(St());
        return;
      }
      var path;
      slot, path := FindPath(index);
      if slot == Null {
        return;
      }
      Unlink(index, path);
    }

    /** An empty node goes, and with it the slot that led to it. */
    method ReleaseNode(index: nat, path: seq<nat>, i: nat)
      requires Valid() && Path(St(), index, path) && 0 < i == |path| - 1 && path[i] in nodes && nodes[path[i]].count == 0
      modifies `nodes, `pos
      ensures Valid() && Path(St(), index, path[..i]) && path[i - 1] in nodes
      ensures LeanBut(old(St()), Child(path[i])) ==> LeanBut(St(), Child(path[i - 1]))
      ensures High(old(St())) && i > 1 ==> High(St())
    {
      hide Sane, Prefix, Offset, High, LeanBut, Path, Prunable;
      PrunableHere(St(), index, path, i);
      PruneSane(St(), path[i], path[i - 1], index, height - i);
      PrunePath(St(), index, path, i);
      PathAt(St(), index, path, i - 1);
      var q := nodes[path[i - 1]];
      nodes := nodes[path[i - 1] := Node(q.height, q.count - 1, q.slots[Offset(index, height - i + 1) := Null])];
      nodes, pos := nodes - {path[i]}, pos - {path[i]};
    }

    /** The way back up: lib/radix-tree.c:274-303.  The item goes from its leaf; each node
        left empty goes too, up to the root. */
    method Unlink(index: nat, path: seq<nat>)
      requires Valid() && height > 0 && |path| == height && Path(St(), index, path) && index in contents
      modifies `height, `rnode, `nodes, `pos, `contents
      ensures Valid() && contents == old(contents) - {index}
      ensures Lean(old(St())) && High(old(St())) ==> Lean(St()) && High(St())
    {
      hide Sane, Prefix, Offset, High, Lean, LeanBut, Path, Prunable;
      ghost var lean, high := Lean(St()), High(St());
      var i := height - 1;
      PathAt(St(), index, path, i);
      Below(St(), path[i], index, 1);
      WriteSane(St(), path[i], index, Null);
      WritePath(St(), index, path);
      WriteLean(St(), path[i], index);
      PathRoot(St(), index, path);
      var n := nodes[path[i]];
      nodes := nodes[path[i] := Node(n.height, n.count - 1, n.slots[Offset(index, 1) := Null])];
      contents := contents - {index};
      assert path[..i + 1] == path;
      while nodes[path[i]].count == 0 && i > 0
        invariant 0 <= i < height == |path| && height == old(height) && contents == old(contents) - {index} && path[i] in nodes
        invariant Valid() && Path(St(), index, path[..i + 1])
        invariant lean ==> LeanBut(St(), Child(path[i]))
        invariant high && i > 0 ==> High(St())
        decreases i
      {
        ReleaseNode(index, path[..i + 1], i);
        assert path[..i + 1][..i] == path[..i];
        i := i - 1;
      }
      PathAt(St(), index, path[..i + 1], i);
      CountNat(St(), path[i]);
      if nodes[path[i]].count != 0 {
        LeanAgain(St(), path[i]);
        PathRoot(St(), index, path[..i + 1]);
        if Child(path[i]) == rnode {
          Shrink();
        } else {
          assert i > 0;
        }
        return;
      }
      PathRoot(St(), index, path[..i + 1]);
      EmptyRoot(St());
      height, rnode := 0, Null;
      nodes, pos := map[], map[];
      EmptySane(St());
    }
  }

  /** The nodes from the root down towards `index`. */
  ghost predicate Path(st: State, index: nat, path: seq<nat>) {
    && 0 < |path| <= st.height && st.rnode == Child(path[0])
    && (forall j: nat :: j < |path| ==> At(st, path[j], index, st.height - j))
    && (forall j: nat :: j + 1 < |path| ==> Leads(st, path[j], path[j + 1], index, st.height - j))
  }

  ghost predicate Leads(st: State, a: nat, b: nat, index: nat, h: nat) {
    h > 0 && a in st.nodes && Offset(index, h) < |st.nodes[a].slots| && st.nodes[a].slots[Offset(index, h)] == Child(b)
  }

  lemma PathGrows(st: State, index: nat, path: seq<nat>, slot: Slot)
    requires slot.Child? && |path| < st.height && At(st, slot.node, index, st.height - |path|)
    requires if path == [] then slot == st.rnode
      else Path(st, index, path) && slot == st.nodes[path[|path| - 1]].slots[Offset(index, st.height - |path| + 1)]
    ensures Path(st, index, path + [slot.node])
  {
  }

  lemma PathAt(st: State, index: nat, path: seq<nat>, i: nat)
    requires Path(st, index, path) && i < |path|
    ensures At(st, path[i], index, st.height - i)
  {
  }

  lemma PathRoot(st: State, index: nat, path: seq<nat>)
    requires Path(st, index, path) && path != []
    ensures st.rnode == Child(path[0]) && (forall j :: 0 < j < |path| ==> path[j] != path[0])
  {
  }

  lemma WritePath(st: State, index: nat, path: seq<nat>)
    requires Sane(st) && Path(st, index, path) && |path| == st.height && index in st.contents
    ensures var q, k := path[|path| - 1], |path| - 1;
      && q in st.nodes && |st.nodes[q].slots| == MAP_SIZE && Path(Write(st, q, index, Null), index, path)
  {
    hide Sane, Prefix, Offset;
    var k := |path| - 1;
    var q := path[k];
    assert At(st, q, index, st.height - k);
    var st' := Write(st, q, index, Null);
    forall j: nat | j < |path|
      ensures At(st', path[j], index, st.height - j) && (j < k ==> path[j] != q)
    {
      assert At(st, path[j], index, st.height - j);
    }
    forall j: nat | j + 1 < |path|
      ensures Leads(st', path[j], path[j + 1], index, st.height - j)
    {
      assert Leads(st, path[j], path[j + 1], index, st.height - j);
    }
  }

  lemma WriteLean(st: State, q: nat, index: nat)
    requires q in st.nodes && |st.nodes[q].slots| == MAP_SIZE
    ensures Lean(st) ==> LeanBut(Write(st, q, index, Null), Child(q))
    ensures High(st) && st.rnode.Child? && st.rnode != Child(q) ==> High(Write(st, q, index, Null))
  {
  }

  lemma PrunableHere(st: State, index: nat, path: seq<nat>, i: nat)
    requires Path(st, index, path) && 0 < i == |path| - 1 && path[i] in st.nodes && st.nodes[path[i]].count == 0
    ensures Prunable(st, path[i], path[i - 1], index, st.height - i)
  {
  }

  lemma PrunePath(st: State, index: nat, path: seq<nat>, i: nat)
    requires Sane(st) && Path(st, index, path) && 0 < i == |path| - 1 && Prunable(st, path[i], path[i - 1], index, st.height - i)
    ensures var st' := Prune(st, path[i], path[i - 1], index, st.height - i);
      && Path(st', index, path[..i]) && path[i - 1] in st'.nodes
      && (LeanBut(st, Child(path[i])) ==> LeanBut(st', Child(path[i - 1])))
      && (High(st) && i > 1 ==> High(st'))
  {
    hide Sane;
    var st' := Prune(st, path[i], path[i - 1], index, st.height - i);
    forall j: nat | j <= i
      ensures At(st, path[j], index, st.height - j)
    {
    }
    forall j: nat | j < i
      ensures At(st', path[..i][j], index, st.height - j) && (j < i - 1 ==> path[j] != path[i - 1])
    {
      assert At(st, path[j], index, st.height - j) && At(st, path[i], index, st.height - i) && At(st, path[i - 1], index, st.height - (i - 1));
    }
    forall j: nat | j + 1 < i
      ensures Leads(st', path[..i][j], path[..i][j + 1], index, st.height - j)
    {
      assert Leads(st, path[j], path[j + 1], index, st.height - j);
    }
  }

  lemma LeanAgain(st: State, q: nat)
    requires q in st.nodes && st.nodes[q].count > 0
    ensures LeanBut(st, Child(q)) ==> Lean(st)
  {
  }

  lemma EmptySane(st: State)
    ensures st.height == 0 && st.rnode == Null && st.nodes == map[] && st.pos == map[] && st.contents == map[] ==>
      Sane(st) && Lean(st) && High(st)
  {
  }

  /** A root that cannot be lowered has more than its first slot in use. */
  lemma InFullUse(st: State)
    requires Sane(st) && st.rnode.Child? && !Shrinkable(st)
    ensures Lean(st) ==> High(st)
  {
    hide NodeSane, SlotSane, Anchored;
    Heights(st);
    RootCount(st);
    if !High(st) {
      OnlyFirstUsed(st.nodes[st.rnode.node].slots);
    }
  }

  lemma OnlyFirstUsed(slots: seq<Slot>)
    requires slots != [] && forall k :: 0 < k < |slots| ==> slots[k] == Null
    ensures Used(slots) == if slots[0] == Null then 0 else 1
  {
  }

  lemma LeanLower(st: State)
    requires Shrinkable(st) && st.height > 0
    ensures Lean(st) ==> Lean(Lower(st))
  {
  }

  lemma LowerSlot(st: State)
    requires Sane(st) && Shrinkable(st) && st.height > 0
    ensures if st.height == 1 then Lower(st).rnode.Item? else Lower(st).rnode.Child?
  {
    hide NodeSane, Anchored;
    Heights(st);
    SlotOf(st, st.rnode.node, 0);
  }

  // ---------- what the invariant says ----------

  /** Without failed allocations, the height is the least that has a place for every key. */
  lemma MinimalHeight(st: State)
    requires Sane(st) && Lean(st) && High(st) && forall key :: key in st.contents ==> key < INDEX_END
    ensures forall key :: key in st.contents ==> key <= MaxIndex(st.height)
    ensures st.height > 0 ==> exists key :: key in st.contents && key > MaxIndex(st.height - 1)
  {
    hide NodeSane, MaxIndex, Prefix;
    Heights(st);
    forall key | key in st.contents
      ensures key <= MaxIndex(st.height)
    {
      KeyInRange(st, key);
      InRange(key, st.height);
    }
    if st.height > 0 {
      var r := st.rnode.node;
      var k: nat :| 0 < k < |st.nodes[r].slots| && st.nodes[r].slots[k] != Null;
      var key := ItemUnder(st, r, st.height, 0, k);
      InRange(key, st.height - 1);
    }
  }

  /** Where the walk ends: at the leaf for `index`, or at the root when the height is 0. */
  ghost predicate Reached(st: State, index: nat, node: Slot, slot: Slot) {
    match node
    case Null => st.height == 0 && Prefix(index, 0) == 0 && slot == st.rnode
    case Item(_) => false
    case Child(q) => At(st, q, index, 1) && slot == st.nodes[q].slots[Offset(index, 1)]
  }

  /** The root is in full use, or will be once the item is stored. */
  ghost predicate HighAfter(st: State, index: nat, node: Slot) {
    High(st) || node.Null? || (node == st.rnode && Offset(index, 1) > 0)
  }

  /** Whether the level the walk comes to has a node. */
  lemma VacantHere(st: State, node: Slot, slot: Slot, index: nat, h: nat)
    requires Sane(st) && !node.Item? && 0 < h <= st.height && Prefix(index, st.height) == 0 && (node.Null? ==> h == st.height && slot == st.rnode)
    requires node.Child? ==> At(st, node.node, index, h + 1) && slot == st.nodes[node.node].slots[Offset(index, h + 1)]
    ensures Vacancies(st.pos, index, h) == Vacancies(st.pos, index, h - 1) + if slot == Null then 1 else 0
  {
    hide Prefix, Offset, NodeSane;
    if node.Child? {
      Below(st, node.node, index, h + 1);
      if slot == Null {
        NothingThere(st, node.node, index, h + 1);
      } else {
        assert st.pos[slot.node] == (h, Prefix(index, h));
      }
    } else if slot != Null {
      assert st.pos[slot.node] == (h, Prefix(index, h));
    }
  }

  lemma NullSlots()
    ensures forall k :: 0 <= k < MAP_SIZE == |Nulls()| ==> Nulls()[k] == Null
  {
  }

  lemma NoVacancy(pos: map<nat, (nat, nat)>, index: nat)
    ensures Vacancies(pos, index, 0) == 0
  {
  }

  lemma PlantLean(st: State, id: nat)
    ensures LeanBut(Plant(st, id), Child(id))
  {
  }

  lemma EmptyNotLean(st: State, q: nat)
    requires q in st.nodes && st.nodes[q].count == 0 && st.nodes[q].slots == Nulls()
    ensures !Lean(st) && (st.rnode == Child(q) ==> !High(st))
  {
  }

  /** What one level of the walk does: the node at height `h` was there or was made. */
  ghost predicate Descended(st: State, st': State, index: nat, h: nat, node: Slot, slot: Slot, child: Slot) {
    && st'.height == st.height && st'.contents == st.contents && h > 0
    && child.Child? && At(st', child.node, index, h) && st'.rnode != Null
    && (slot != Null ==> st' == st)
    && (slot == Null ==> child.node !in st.pos && st'.pos == st.pos[child.node := (h, Prefix(index, h))])
    && (slot == Null ==> |st'.nodes| == |st.nodes| + 1 && st'.nodes[child.node] == Node(h, 0, Nulls()))
    && (LeanBut(st, node) ==> LeanBut(st', child))
    && (if node.Null? then st'.rnode == child else st'.rnode == st.rnode)
    && (High(st) && st.rnode != Null ==> High(st'))
    && (node.Child? && node == st.rnode && Offset(index, h + 1) > 0 ==> High(st'))
  }

  /** The walk has come from the root in `st0` down to height `h`, and has made `made` nodes. */
  ghost predicate OnTheWay(st0: State, st: State, index: nat, h: nat, node: Slot, slot: Slot, made: int, extended: bool) {
    && h <= st.height == st0.height && st.contents == st0.contents && Prefix(index, st.height) == 0
    && (extended ==> st.height > 0 && Offset(index, st.height) > 0)
    && (h == st.height ==> node.Null? && slot == st.rnode)
    && (h < st.height ==> node.Child? && At(st, node.node, index, h + 1) && slot == st.nodes[node.node].slots[Offset(index, h + 1)])
    && (h == st.height - 1 ==> node == st.rnode)
    && (Lean(st0) ==> LeanBut(st, node))
    && (High(st0) && st.rnode == Null && !extended ==> st.height == 0)
    && (extended || High(st0) ==> High(st) || (extended && (h == st.height || h == st.height - 1)))
    && 0 <= made && |st.nodes| == |st0.nodes| + made && (made == 0 ==> st == st0)
    && Vacancies(st.pos, index, h) + made == Vacancies(st0.pos, index, st0.height)
    && (made > 0 ==> node.Child? && slot == Null && node.node in st.nodes && st.nodes[node.node] == Node(h + 1, 0, Nulls()))
    && (if st0.rnode.Null? then made == st.height - h else h >= st.height - 1 ==> made == 0)
  }

  lemma WalkBegins(st: State, index: nat, extended: bool)
    requires Sane(st) && Prefix(index, st.height) == 0 && (extended ==> st.height > 0 && Offset(index, st.height) > 0)
    ensures OnTheWay(st, st, index, st.height, Null, st.rnode, 0, extended)
  {
    hide Sane, Prefix, Offset, Vacancies;
  }

  lemma WalkFacts(st0: State, st: State, index: nat, h: nat, node: Slot, slot: Slot, made: int, extended: bool)
    requires OnTheWay(st0, st, index, h, node, slot, made, extended)
    ensures h <= st.height && Prefix(index, st.height) == 0 && !node.Item?
    ensures (h < st.height ==> node.Child?) && (node.Null? ==> h == st.height && slot == st.rnode)
    ensures node.Child? ==> At(st, node.node, index, h + 1) && node.node in st.nodes && |st.nodes[node.node].slots| == MAP_SIZE
    ensures node.Child? ==> slot == st.nodes[node.node].slots[Offset(index, h + 1)]
  {
    hide Prefix, Offset, Vacancies, High, Lean, LeanBut;
  }

  lemma DescendFacts(st: State, st': State, index: nat, h: nat, node: Slot, slot: Slot, child: Slot)
    requires Descended(st, st', index, h, node, slot, child)
    ensures child.Child? && child.node in st'.nodes && |st'.nodes[child.node].slots| == MAP_SIZE && st'.height == st.height
  {
    hide Prefix, Offset, High, Lean, LeanBut;
  }

  lemma WalkStep(st0: State, st: State, st': State, index: nat, h: nat, node: Slot, slot: Slot, child: Slot, made: int, extended: bool)
    requires Sane(st) && h > 0 && OnTheWay(st0, st, index, h, node, slot, made, extended)
    requires Descended(st, st', index, h, node, slot, child)
    ensures child.node in st'.nodes && Offset(index, h) < |st'.nodes[child.node].slots|
    ensures var made' := if slot == Null then made + 1 else made;
      OnTheWay(st0, st', index, h - 1, child, st'.nodes[child.node].slots[Offset(index, h)], made', extended)
  {
    hide Sane, Prefix, Offset, Vacancies, High, Lean, LeanBut, Nulls;
    VacantHere(st, node, slot, index, h);
    NullSlots();
    if slot == Null {
      VacantBelow(st.pos, child.node, h, index, h - 1);
    }
  }

  /** Without memory for the next node, the walk ends there.  The node above is empty if the
      walk made it, and the root is in full use unless it is that node. */
  lemma WalkFails(st0: State, st: State, index: nat, h: nat, node: Slot, slot: Slot, made: nat, extended: bool)
    requires Sane(st) && h > 0 && OnTheWay(st0, st, index, h, node, slot, made, extended) && slot == Null
    ensures index !in st.contents && made < Vacancies(st0.pos, index, st0.height)
    ensures |st.nodes| == |st0.nodes| + made && (made == 0 ==> st == st0)
    ensures made > 0 ==> !Lean(st)
    ensures made > 0 && (extended || High(st0)) ==> (High(st) <==> !(st0.rnode.Null? && made == 1))
  {
    hide Sane, Prefix, Offset, Vacancies, High, Lean, LeanBut, Nulls;
    VacantHere(st, node, slot, index, h);
    NothingHere(st, node, slot, index, h);
    NullSlots();
    if made > 0 {
      EmptyNotLean(st, node.node);
    }
  }

  lemma WalkEnds(st0: State, st: State, index: nat, node: Slot, slot: Slot, made: int, extended: bool)
    requires Sane(st) && OnTheWay(st0, st, index, 0, node, slot, made, extended)
    ensures Reached(st, index, node, slot) && (slot != Null <==> index in st.contents)
    ensures made == Vacancies(st0.pos, index, st0.height) && |st.nodes| == |st0.nodes| + made
    ensures Lean(st0) ==> LeanBut(st, node) && (slot != Null ==> Lean(st))
    ensures extended || High(st0) ==> HighAfter(st, index, node) && (slot != Null ==> High(st))
  {
    hide Sane, Prefix, Offset, Vacancies, High, Lean, LeanBut, Nulls;
    AtTheEnd(st, index, node, slot);
    NoVacancy(st.pos, index);
    if slot != Null && node.Child? {
      LeanNow(st, node.node, Offset(index, 1));
      HighAlready(st, node.node, index, 0);
    }
  }

  lemma AtTheEnd(st: State, index: nat, node: Slot, slot: Slot)
    requires Sane(st) && Prefix(index, st.height) == 0
    requires st.height == 0 ==> node.Null? && slot == st.rnode
    requires st.height > 0 ==> node.Child? && At(st, node.node, index, 1) && slot == st.nodes[node.node].slots[Offset(index, 1)]
    ensures Reached(st, index, node, slot) && (slot != Null <==> index in st.contents)
    ensures st.height == 0 ==> (slot != Null ==> High(st)) && Lean(st)
  {
    hide Prefix, Offset;
    if st.height > 0 {
      Below(st, node.node, index, 1);
    } else {
      RootItem(st, index);
      Heights(st);
    }
  }

  lemma LeanEmpty(st: State)
    ensures st.nodes == map[] ==> Lean(st)
  {
  }

  lemma LeanNow(st: State, q: nat, k: nat)
    requires Sane(st) && q in st.nodes && k < |st.nodes[q].slots| && st.nodes[q].slots[k] != Null
    ensures LeanBut(st, Child(q)) ==> Lean(st)
  {
    UsedCount(st, q, k);
  }

  lemma LeanWrite(st: State, q: nat, index: nat, item: nat)
    requires Sane(st) && q in st.nodes && |st.nodes[q].slots| == MAP_SIZE && st.nodes[q].slots[Offset(index, 1)] == Null
    ensures LeanBut(st, Child(q)) ==> Lean(Write(st, q, index, Item(item)))
  {
    CountNat(st, q);
  }

  lemma OffsetTop(index: nat, h: nat)
    requires h > 0 && Prefix(index, h) == 0 && Prefix(index, h - 1) != 0
    ensures Offset(index, h) > 0
  {
  }

  lemma NullIsLow(st: State)
    ensures High(st) && st.rnode == Null ==> st.height == 0
  {
  }

  lemma HighItem(st: State)
    requires st.rnode.Item?
    ensures High(st)
  {
  }

  /** An index that the height has no place for is no key. */
  lemma Reachable(st: State, index: nat)
    requires Sane(st)
    ensures index in st.contents ==> Prefix(index, st.height) == 0
  {
    if index in st.contents {
      KeyInRange(st, index);
    }
  }

  lemma NothingHere(st: State, node: Slot, slot: Slot, index: nat, h: nat)
    requires Sane(st) && !node.Item? && (node.Null? ==> slot == st.rnode)
    requires node.Child? ==> At(st, node.node, index, h + 1) && slot == st.nodes[node.node].slots[Offset(index, h + 1)]
    ensures slot == Null ==> index !in st.contents
  {
    if slot == Null && node.Child? {
      Missing(st, node.node, index, h + 1);
    }
  }

  lemma HighWrite(st: State, q: nat, index: nat, item: nat)
    requires q in st.nodes && |st.nodes[q].slots| == MAP_SIZE
    ensures High(st) && st.rnode != Null ==> High(Write(st, q, index, Item(item)))
    ensures st.rnode == Child(q) && Offset(index, 1) > 0 ==> High(Write(st, q, index, Item(item)))
  {
    hide Offset;
    var st' := Write(st, q, index, Item(item));
    if st.rnode == Child(q) && Offset(index, 1) > 0 {
      assert st'.nodes[q].slots[Offset(index, 1)] != Null;
    }
    if High(st) && st.rnode.Child? {
      var r := st.rnode.node;
      var k :| 0 < k < |st.nodes[r].slots| && st.nodes[r].slots[k] != Null;
      assert st'.nodes[r].slots[k] != Null;
    }
  }

  /** In a tree of height 0 the root holds the item for index 0. */
  lemma RootItem(st: State, index: nat)
    requires Sane(st) && st.height == 0 && Prefix(index, 0) == 0
    ensures index == 0 && st.nodes == map[] && st.pos == map[] && (index in st.contents <==> st.rnode != Null)
    ensures st.rnode == Null ==> st.contents == map[]
  {
  }

  lemma RootSaneNow(st: State)
    requires st.height == 0 && st.nodes == map[] && st.pos == map[] && st.rnode.Item? && st.contents == map[0 := st.rnode.item]
    ensures Sane(st)
  {
  }

  /** The node stands on the path to `index` at height `h`. */
  ghost predicate At(st: State, id: nat, index: nat, h: nat) {
    id in st.nodes && id in st.pos && st.pos[id] == (h, Prefix(index, h)) && |st.nodes[id].slots| == MAP_SIZE
  }

  lemma FreshAt(st: State, id: nat, index: nat, h: nat)
    requires Sane(st) && id in st.nodes && id in st.pos && st.pos[id] == (h, Prefix(index, h))
    ensures At(st, id, index, h)
  {
    LeafAnchor(st, id);
  }

  /** No node is empty but perhaps this one. */
  ghost predicate LeanBut(st: State, node: Slot) {
    forall id :: id in st.nodes && node != Child(id) ==> st.nodes[id].count > 0
  }

  lemma CountNat(st: State, id: nat)
    requires Sane(st) && id in st.nodes
    ensures st.nodes[id].count >= 0
  {
    hide Key, Up, Digit, Used, SlotSane, Anchored;
    assert NodeSane(st, id);
  }

  /** A node with a slot in use is not empty. */
  lemma UsedCount(st: State, id: nat, k: nat)
    requires Sane(st) && id in st.nodes && k < |st.nodes[id].slots| && st.nodes[id].slots[k] != Null
    ensures st.nodes[id].count > 0
  {
    hide Key, Up, Digit, Used, SlotSane, Anchored;
    assert NodeSane(st, id);
    UsedNone(st.nodes[id].slots);
  }

  lemma HighHang(st: State, id: nat, q: nat, index: nat, h: nat)
    requires q in st.nodes && |st.nodes[q].slots| == MAP_SIZE && id !in st.nodes && st.nodes[q].slots[Offset(index, h + 1)] == Null
    ensures High(st) && st.rnode != Null ==> High(Hang(st, id, q, index, h))
    ensures st.rnode == Child(q) && Offset(index, h + 1) > 0 ==> High(Hang(st, id, q, index, h))
  {
    hide Offset;
    var st' := Hang(st, id, q, index, h);
    if st.rnode == Child(q) && Offset(index, h + 1) > 0 {
      assert st'.nodes[q].slots[Offset(index, h + 1)] != Null;
    }
    if High(st) && st.rnode.Child? {
      var r := st.rnode.node;
      var k :| 0 < k < |st.nodes[r].slots| && st.nodes[r].slots[k] != Null;
      assert st'.nodes[r].slots[k] != Null;
    }
  }

  lemma HighAlready(st: State, q: nat, index: nat, h: nat)
    requires q in st.nodes && |st.nodes[q].slots| == MAP_SIZE && st.nodes[q].slots[Offset(index, h + 1)] != Null
    ensures st.rnode == Child(q) && Offset(index, h + 1) > 0 ==> High(st)
  {
  }

  /** The least height that has a place for the index: lib/radix-tree.c:503-505 */
  method HeightFor(index: nat, height: nat) returns (h: nat)
    requires index < INDEX_END && height <= MAX_PATH && index > MaxIndex(height)
    ensures height < h <= MAX_PATH && Prefix(index, h) == 0 && Prefix(index, h - 1) != 0
  {
    hide MaxIndex, Prefix;
    InRange(index, height);
    h := height + 1;
    InRange(index, h);
    while index > MaxIndex(h)
      invariant height < h <= MAX_PATH && Prefix(index, h - 1) != 0
      invariant index <= MaxIndex(h) <==> Prefix(index, h) == 0
      decreases MAX_PATH - h
    {
      InRange(index, h);
      h := h + 1;
      InRange(index, h);
    }
  }

  /** The root has been raised, so only its first slot is in use. */
  ghost predicate Raised(st: State) {
    st.rnode.Child? && st.rnode.node in st.nodes
    && var slots := st.nodes[st.rnode.node].slots; |slots| == MAP_SIZE && forall k :: 0 < k < |slots| ==> slots[k] == Null
  }

  lemma RaiseRaised(st: State, id: nat)
    requires id !in st.nodes
    ensures Raised(Raise(st, id)) && (Lean(st) ==> Lean(Raise(st, id))) && |Raise(st, id).nodes| == |st.nodes| + 1
  {
  }

  lemma RaisedLow(st: State)
    requires Raised(st)
    ensures !High(st)
  {
  }

  /** The nodes still missing once the tree is high enough. */
  lemma ExtendedNeeds(st: State, st': State, index: nat)
    requires Sane(st') && HeightOf(index) > st.height && st'.height == HeightOf(index) && Prefix(index, st'.height) == 0
    requires Offset(index, st'.height) > 0
    requires (st'.rnode.Null? <==> st.rnode.Null?) && (st'.rnode.Child? ==> Raised(st')) && !st'.rnode.Item?
    ensures Needed(st, index) == Raises(st, index) + Vacancies(st'.pos, index, st'.height)
  {
    hide Sane, Prefix, Offset, Vacancies, HeightOf;
    Heights(st');
    if st'.rnode.Null? {
      VacantAll(st', index);
    } else {
      VacantUnder(st', index);
    }
  }

  lemma PosKeys(st: State)
    requires Sane(st)
    ensures st.pos.Keys == st.nodes.Keys && (st.rnode.Null? ==> st.pos == map[])
  {
  }

  lemma Heights(st: State)
    requires Sane(st)
    ensures st.height <= MAX_PATH && (st.rnode.Null? ==> st.nodes == map[] && st.contents == map[])
    ensures st.rnode.Item? ==> st.height == 0 && st.nodes == map[] && st.contents == map[0 := st.rnode.item]
    ensures st.rnode.Child? ==> st.height > 0 && st.rnode.node in st.nodes && |st.nodes[st.rnode.node].slots| == MAP_SIZE
    ensures st.rnode.Child? ==> st.rnode.node in st.pos && st.pos[st.rnode.node] == (st.height, 0)
    ensures st.height == 0 ==> !st.rnode.Child?
  {
    hide Key, Up, Digit, Used, SlotSane, Anchored;
    if st.rnode.Child? {
      assert NodeSane(st, st.rnode.node);
    }
  }

  /** A failed insertion may leave an empty node behind, and more height than the keys need:
      so does the insertion of index 64 into an empty tree with memory for one node. */
  method EmptyNodeStays() returns (t: RadixTree)
    ensures t.Valid() && t.contents == map[] && !Lean(t.St()) && !High(t.St())
  {
    hide Sane, Lean, High, Prefix, Vacancies;
    t := new RadixTree();
    TwoNeeded();
    Heights(t.St());
    NullIsLow(t.St());
    var err, mem := t.Insert(64, 0, 1);
  }

  lemma TwoNeeded()
    ensures HeightOf(64) == 2
  {
    assert Up(64) == 1 && Up(1) == 0;
  }
}
