/** mm/mempool.c: a reserve of elements whose size may change.  Each method is a section under
    the pool's lock or between two of them, so that the windows in which a resize has dropped
    the lock lie between steps, and a run is any sequence of steps of any tasks. */
module Mempool {
  import opened Basics

  /** Where a resize stands whenever it does not hold the lock. */
  datatype Resizer =
    | Freeing(target: nat, element: nat)
    | Relocking(target: nat)
    | Growing(target: nat)
    | Refilling
    | Adding(element: nat)

  /** Where an element is. */
  datatype Place = Pooled | WithClient | InHand(task: nat) | Returned

  ghost predicate Holds(rs: map<nat, Resizer>, t: nat, e: nat) { t in rs && HasInHand(rs[t], e) }

  ghost predicate HasInHand(r: Resizer, e: nat) { (r.Freeing? || r.Adding?) && r.element == e }

  /** The pool array has just the pooled elements, once each, and a resize in a window holds
      just what is in its hand. */
  ghost predicate Placed(pool: seq<nat>, rs: map<nat, Resizer>, place: map<nat, Place>) {
    && NoDup(pool)
    && (forall e :: e in pool <==> e in place && place[e] == Pooled)
    && (forall t, e :: Holds(rs, t, e) <==> e in place && place[e] == InHand(t))
  }

  /** The target of a shrinking resize that has yet to set min_nr. */
  ghost predicate Shrinking(rs: map<nat, Resizer>, t: nat, n: nat) { t in rs && ShrinksTo(rs[t], n) }

  ghost predicate ShrinksTo(r: Resizer, n: nat) { (r.Relocking? || r.Freeing?) && r.target == n }

  ghost predicate IsFreeing(rs: map<nat, Resizer>, t: nat, n: nat) { t in rs && rs[t].Freeing? && rs[t].target == n }

  ghost predicate AllBelow(rs: map<nat, Resizer>, n: nat) { forall t: nat, k: nat :: Shrinking(rs, t, k) ==> k <= n }

  class Pool {
    var elements: array<nat>
    var curr_nr: nat
    var min_nr: nat
    var tasks: map<nat, Resizer>
    ghost var place: map<nat, Place>

    /** What every step keeps, in every interleaving. */
    ghost predicate Valid()
      reads `elements, `curr_nr, `min_nr, `tasks, `place, elements
    {
      && curr_nr <= min_nr && curr_nr <= elements.Length
      && Placed(elements[..curr_nr], tasks, place)
    }

    /** The array is long enough, and stays so whatever shrinking resizes in a window do next. */
    ghost predicate Safe()
      reads `elements, `min_nr, `tasks
    {
      min_nr <= elements.Length && AllBelow(tasks, elements.Length)
    }

    /** mempool_create_node, before it fills the pool: mm/mempool.c:37-56 */
    constructor (min_nr: nat)
      ensures Valid() && Safe() && fresh(elements) && elements.Length == min_nr && tasks == map[] && place == map[]
      ensures this.min_nr == min_nr && curr_nr == 0
    {
      elements := new nat[min_nr](_ => 0);
      this.min_nr, curr_nr, tasks, place := min_nr, 0, map[], map[];
    }

    /** add_element: mm/mempool.c:14-18, with its BUG_ON and the bound of the array */
    method AddElement(e: nat)
      requires curr_nr < min_nr && curr_nr < elements.Length
      modifies `curr_nr, elements
      ensures curr_nr == old(curr_nr) + 1 && elements[..curr_nr] == old(elements[..curr_nr]) + [e]
    {
      elements[curr_nr] := e;
      curr_nr := curr_nr + 1;
    }

    /** remove_element: mm/mempool.c:20-24 */
    method RemoveElement() returns (e: nat)
      requires 0 < curr_nr <= elements.Length
      modifies `curr_nr
      ensures curr_nr == old(curr_nr) - 1 && old(elements[..curr_nr]) == elements[..curr_nr] + [e]
    {
      curr_nr := curr_nr - 1;
      e := elements[curr_nr];
    }

    /** mempool_alloc served by the backing allocator: mm/mempool.c:213-215.  The allocator
        gives an element that nobody has. */
    method AllocBacking(e: nat)
      requires Valid() && (e in place ==> place[e] == Returned)
      modifies `place
      ensures Valid() && place == old(place)[e := WithClient]
    {
      place := place[e := WithClient];
    }

    /** mempool_alloc served by the pool: mm/mempool.c:217-223 */
    method AllocPool() returns (found: bool, e: nat)
      requires Valid()
      modifies `curr_nr, `place
      ensures Valid() && (found <==> old(curr_nr) > 0) && (!found ==> place == old(place) && curr_nr == old(curr_nr))
      ensures found ==> e in old(place) && old(place)[e] == Pooled && place == old(place)[e := WithClient]
    {
      if curr_nr == 0 {
        return false, 0;
      }
      e := RemoveElement();
      Leaves(elements[..curr_nr], e, tasks, place, WithClient);
      place := place[e := WithClient];
      found := true;
    }

    /** mempool_free: mm/mempool.c:254-273.  The first look at the counts is made without the
        lock, so that what it saw may be out of date. */
    method Free(e: nat, sawRoom: bool)
      requires Valid() && Safe() && e in place && place[e] == WithClient
      modifies `curr_nr, `place, elements
      ensures Valid() && place == old(place)[e := if sawRoom && old(curr_nr) < min_nr then Pooled else Returned]
      ensures curr_nr == if sawRoom && old(curr_nr) < min_nr then old(curr_nr) + 1 else old(curr_nr)
    {
      if sawRoom && curr_nr < min_nr {
        Joins(elements[..curr_nr], e, tasks, place);
        AddElement(e);
        place := place[e := Pooled];
        return;
      }
      place := place[e := Returned];
    }

    // ---------- mempool_resize: mm/mempool.c:126-183 ----------

    /** The first section under the lock: mm/mempool.c:134-145 */
    method ResizeStart(t: nat, target: nat)
      requires Valid() && t !in tasks && target > 0
      modifies `curr_nr, `min_nr, `tasks, `place
      ensures Valid() && (old(Safe()) ==> Safe())
      ensures target > old(min_nr) ==> tasks == old(tasks)[t := Growing(target)] && min_nr == old(min_nr)
      ensures target > old(min_nr) ==> curr_nr == old(curr_nr) && place == old(place)
      ensures target <= old(min_nr) && target >= old(curr_nr) ==> min_nr == target && tasks == old(tasks)
      ensures target <= old(min_nr) && target >= old(curr_nr) ==> curr_nr == old(curr_nr) && place == old(place)
      ensures target <= old(min_nr) && target < old(curr_nr) ==> IsFreeing(tasks, t, target) && TakesTop(t)
      ensures target <= old(min_nr) && target < old(curr_nr) ==> min_nr == old(min_nr)
    {
      if target <= min_nr {
        ShrinkTurn(t, target);
      } else {
        LetGo(elements[..curr_nr], tasks, place, t, Growing(target));
        MovesOn(tasks, t, Growing(target), tasks[t := Growing(target)]);
        tasks := tasks[t := Growing(target)];
      }
    }

    /** The task has come to hold the last element of the pool, and nothing else has changed. */
    twostate predicate TakesTop(t: nat)
      reads this, elements
    {
      && t in tasks && tasks[t].Freeing? && tasks == old(tasks)[t := tasks[t]]
      && curr_nr + 1 == old(curr_nr) <= old(elements).Length && elements == old(elements)
      && old(elements[..curr_nr]) == elements[..curr_nr] + [tasks[t].element]
      && place == old(place)[tasks[t].element := InHand(t)]
    }

    /** One turn of the shrinking loop, under the lock: mm/mempool.c:136-143.  When there is
        nothing more to take out, min_nr is set, whatever has become of the array meanwhile. */
    method ShrinkTurn(t: nat, target: nat)
      requires Valid() && (t in tasks ==> tasks[t] == Relocking(target))
      modifies `curr_nr, `min_nr, `tasks, `place
      ensures Valid() && (old(Safe()) && target <= elements.Length ==> Safe())
      ensures old(curr_nr) > target ==> min_nr == old(min_nr) && IsFreeing(tasks, t, target) && TakesTop(t)
      ensures old(curr_nr) <= target ==> min_nr == target && curr_nr == old(curr_nr) && place == old(place) && tasks == old(tasks) - {t}
      ensures target > elements.Length ==> min_nr > elements.Length
    {
      if target < curr_nr {
        var e := RemoveElement();
        MovesOn(tasks, t, Freeing(target, e), tasks[t := Freeing(target, e)]);
        Taken(elements[..curr_nr], e, tasks, place, t, target);
        tasks := tasks[t := Freeing(target, e)];
        place := place[e := InHand(t)];
      } else {
        LetGo(elements[..curr_nr], tasks, place, t, Refilling);
        MovesOn(tasks, t, Refilling, tasks - {t});
        min_nr := target;
        tasks := tasks - {t};
      }
    }

    /** pool->free between two sections: mm/mempool.c:139 */
    method FreeHeld(t: nat)
      requires Valid() && t in tasks && tasks[t].Freeing?
      modifies `tasks, `place
      ensures Valid() && (Safe() <==> old(Safe()))
      ensures tasks == old(tasks)[t := Relocking(old(tasks)[t].target)] && place == old(place)[old(tasks)[t].element := Returned]
    {
      var e, target := tasks[t].element, tasks[t].target;
      GivesBack(elements[..curr_nr], tasks, place, t, e, Relocking(target), Returned);
      TargetsStay(tasks, t, Relocking(target), elements.Length);
      tasks := tasks[t := Relocking(target)];
      place := place[e := Returned];
    }

    /** The section that swaps the arrays: mm/mempool.c:152-166.  It keeps the pool safe just
        when the new array is no shorter than the target of any shrinking resize that is in a
        window at the time. */
    method Swap(t: nat)
      requires Valid() && t in tasks && tasks[t].Growing?
      modifies `elements, `min_nr, `tasks
      ensures Valid() && place == old(place) && curr_nr == old(curr_nr)
      ensures var target := old(tasks)[t].target;
        if target <= old(min_nr) then elements == old(elements) && min_nr == old(min_nr) && tasks == old(tasks) - {t}
        else fresh(elements) && elements.Length == target == min_nr && tasks == old(tasks)[t := Refilling]
      ensures old(tasks)[t].target > old(min_nr) ==> (Safe() <==> AllBelow(old(tasks), elements.Length))
      ensures old(tasks)[t].target <= old(min_nr) && old(Safe()) ==> Safe()
    {
      var target := tasks[t].target;
      LetGo(elements[..curr_nr], tasks, place, t, Refilling);
      TargetsStay(tasks, t, Refilling, target);
      OthersStay(tasks, t, elements.Length);
      if target <= min_nr {
        tasks := tasks - {t};
        return;
      }
      var more := CopyOf(elements, curr_nr, target);
      elements, min_nr := more, target;
      tasks := tasks[t := Refilling];
    }

    /** kmalloc failed: mm/mempool.c:149-150 and mm/mempool.c:168-169 */
    method GrowFails(t: nat)
      requires Valid() && t in tasks && (tasks[t].Growing? || tasks[t].Refilling?)
      modifies `tasks
      ensures Valid() && (old(Safe()) ==> Safe()) && tasks == old(tasks) - {t}
    {
      LetGo(elements[..curr_nr], tasks, place, t, Refilling);
      TargetsStay(tasks, t, Refilling, elements.Length);
      OthersStay(tasks, t, elements.Length);
      tasks := tasks - {t};
    }

    /** pool->alloc gave an element while the lock was dropped: mm/mempool.c:167 */
    method RefillAlloc(t: nat, e: nat)
      requires Valid() && t in tasks && tasks[t].Refilling? && (e in place ==> place[e] == Returned)
      modifies `tasks, `place
      ensures Valid() && (Safe() <==> old(Safe()))
      ensures tasks == old(tasks)[t := Adding(e)] && place == old(place)[e := InHand(t)]
    {
      ComesToHand(elements[..curr_nr], tasks, place, t, e);
      TargetsStay(tasks, t, Adding(e), elements.Length);
      tasks := tasks[t := Adding(e)];
      place := place[e := InHand(t)];
    }

    /** The section that adds it, unless the pool has filled up: mm/mempool.c:170-178 */
    method AddSection(t: nat)
      requires Valid() && Safe() && t in tasks && tasks[t].Adding?
      modifies `curr_nr, `tasks, `place, elements
      ensures Valid() && Safe()
      ensures place == old(place)[old(tasks)[t].element := if old(curr_nr) < min_nr then Pooled else Returned]
      ensures tasks == if old(curr_nr) + 1 < min_nr then old(tasks)[t := Refilling] else old(tasks) - {t}
    {
      var e := tasks[t].element;
      GivesBack(elements[..curr_nr], tasks, place, t, e, Refilling, WithClient);
      TargetsStay(tasks, t, Refilling, elements.Length);
      OthersStay(tasks, t, elements.Length);
      if curr_nr < min_nr {
        Joins(elements[..curr_nr], e, tasks - {t}, place[e := WithClient]);
        Joins(elements[..curr_nr], e, tasks[t := Refilling], place[e := WithClient]);
        assert place[e := WithClient][e := Pooled] == place[e := Pooled];
        AddElement(e);
        place := place[e := Pooled];
        tasks := if curr_nr < min_nr then tasks[t := Refilling] else tasks - {t};
      } else {
        GivesBack(elements[..curr_nr], tasks, place, t, e, Refilling, Returned);
        tasks := tasks - {t};
        place := place[e := Returned];
      }
    }
  }

  /** kmalloc and memcpy: mm/mempool.c:148 and mm/mempool.c:159-160 */
  method CopyOf(a: array<nat>, n: nat, length: nat) returns (b: array<nat>)
    requires n <= a.Length && n <= length
    ensures fresh(b) && b.Length == length && b[..n] == a[..n]
  {
    b := new nat[length](_ => 0);
    var i := 0;
    while i < n
      invariant 0 <= i <= n && b[..i] == a[..i]
    {
      b[i] := a[i];
      i := i + 1;
    }
  }

  /** mempool_create: a pool with all its elements: mm/mempool.c:58-72 */
  method FullPool(n: nat) returns (p: Pool)
    ensures fresh(p) && fresh(p.elements) && p.Valid() && p.Safe()
    ensures p.curr_nr == p.min_nr == p.elements.Length == n && p.tasks == map[]
  {
    p := new Pool(n);
    var e := 0;
    while e < n
      invariant 0 <= e <= n && p.curr_nr == e && p.min_nr == n == p.elements.Length && p.tasks == map[]
      invariant p.Valid() && p.Safe() && fresh(p.elements) && forall x :: x in p.place ==> x < e
    {
      p.AllocBacking(e);
      p.Free(e, true);
      e := e + 1;
    }
  }

  /** A resize to 3 waits for the lock, and one to 1 has come and gone. */
  method TwoShrinks() returns (p: Pool)
    ensures fresh(p) && fresh(p.elements) && p.Valid() && p.tasks == map[0 := Relocking(3)] && p.curr_nr == p.min_nr == 1
  {
    hide Pool.Valid, Pool.Safe;
    p := FullPool(4);
    p.ResizeStart(0, 3);
    p.FreeHeld(0);
    p.ResizeStart(1, 1);
    p.FreeHeld(1);
    p.ShrinkTurn(1, 1);
    p.FreeHeld(1);
    p.ShrinkTurn(1, 1);
  }

  /** The counts do not stay within the array under all interleavings of resizes: a shrink to
      3 that has dropped the lock, another to 1, growth to 2 with a new array of that length,
      and then the first one sets min_nr to 3. */
  method RacingResizes() returns (p: Pool)
    ensures fresh(p) && p.Valid() && p.min_nr > p.elements.Length
  {
    hide Pool.Valid, Pool.Safe;
    p := TwoShrinks();
    p.ResizeStart(2, 2);
    p.Swap(2);
    p.ShrinkTurn(0, 3);
  }

  /** An element leaves the pool for another place. */
  lemma Leaves(rest: seq<nat>, e: nat, rs: map<nat, Resizer>, place: map<nat, Place>, p: Place)
    requires Placed(rest + [e], rs, place) && (p == WithClient || p == Returned)
    ensures e in place && place[e] == Pooled && Placed(rest, rs, place[e := p])
  {
    var pool := rest + [e];
    assert pool[|rest|] == e && e in pool;
    forall x
      ensures x in rest <==> x in pool && x != e
    {
      if x in rest {
        var i :| 0 <= i < |rest| && rest[i] == x;
        assert pool[i] == x;
      }
    }
    forall i, j | 0 <= i < j < |rest|
      ensures rest[i] != rest[j]
    {
      assert pool[i] != pool[j];
    }
  }

  /** A client's element joins the pool. */
  lemma Joins(pool: seq<nat>, e: nat, rs: map<nat, Resizer>, place: map<nat, Place>)
    requires Placed(pool, rs, place) && e in place && place[e] == WithClient
    ensures Placed(pool + [e], rs, place[e := Pooled])
  {
  }

  /** One task moves on, or is done; the others stay as they are. */
  lemma MovesOn(rs: map<nat, Resizer>, t: nat, r: Resizer, rs': map<nat, Resizer>)
    requires rs' == rs[t := r] || rs' == rs - {t}
    ensures forall u: nat, x: nat {:trigger Holds(rs', u, x)} :: u != t ==> (Holds(rs', u, x) <==> Holds(rs, u, x))
    ensures forall u: nat, n: nat {:trigger Shrinking(rs', u, n)} :: u != t ==> (Shrinking(rs', u, n) <==> Shrinking(rs, u, n))
    ensures forall x: nat {:trigger Holds(rs', t, x)} :: Holds(rs', t, x) ==> rs' == rs[t := r] && HasInHand(r, x)
    ensures forall n: nat {:trigger Shrinking(rs', t, n)} :: Shrinking(rs', t, n) ==> rs' == rs[t := r] && ShrinksTo(r, n)
  {
    hide HasInHand, ShrinksTo;
  }

  lemma HoldsNow(rs: map<nat, Resizer>, t: nat, e: nat)
    requires t in rs && HasInHand(rs[t], e)
    ensures Holds(rs, t, e)
  {
  }

  /** A task moves on without its target changing, if it is shrinking the pool at all. */
  lemma TargetsStay(rs: map<nat, Resizer>, t: nat, r: Resizer, n: nat)
    requires t in rs && forall k :: ShrinksTo(rs[t], k) <==> ShrinksTo(r, k)
    ensures AllBelow(rs[t := r], n) <==> AllBelow(rs, n)
  {
    var rs' := rs[t := r];
    forall u: nat, k: nat
      ensures Shrinking(rs', u, k) <==> Shrinking(rs, u, k)
    {
      assert u != t && u in rs ==> rs'[u] == rs[u];
    }
    SameBelow(rs, rs', n);
  }

  lemma SameBelow(rs: map<nat, Resizer>, rs': map<nat, Resizer>, n: nat)
    requires forall u: nat, k: nat :: Shrinking(rs', u, k) <==> Shrinking(rs, u, k)
    ensures AllBelow(rs', n) <==> AllBelow(rs, n)
  {
    hide Shrinking;
  }

  /** A task that is not shrinking the pool is done. */
  lemma OthersStay(rs: map<nat, Resizer>, t: nat, n: nat)
    requires t in rs ==> !rs[t].Relocking? && !rs[t].Freeing?
    ensures AllBelow(rs - {t}, n) <==> AllBelow(rs, n)
  {
    forall u: nat, k: nat
      ensures Shrinking(rs - {t}, u, k) <==> Shrinking(rs, u, k)
    {
    }
  }

  /** A shrinking resize takes an element out. */
  lemma Taken(rest: seq<nat>, e: nat, rs: map<nat, Resizer>, place: map<nat, Place>, t: nat, target: nat)
    requires Placed(rest + [e], rs, place) && (t in rs ==> rs[t].Relocking?)
    ensures Placed(rest, rs[t := Freeing(target, e)], place[e := InHand(t)])
  {
    hide Holds;
    Leaves(rest, e, rs, place, Returned);
    MovesOn(rs, t, Freeing(target, e), rs[t := Freeing(target, e)]);
    NothingInHand(rs, place, t);
    HoldsNow(rs[t := Freeing(target, e)], t, e);
  }

  /** A task with nothing in its hand, and what it may do next. */
  lemma NothingInHand(rs: map<nat, Resizer>, place: map<nat, Place>, t: nat)
    requires t in rs ==> !rs[t].Freeing? && !rs[t].Adding?
    requires forall u, e :: Holds(rs, u, e) <==> e in place && place[e] == InHand(u)
    ensures forall x :: x in place ==> place[x] != InHand(t)
    ensures forall x :: !Holds(rs, t, x)
  {
    forall x: nat
      ensures !Holds(rs, t, x)
    {
    }
  }

  lemma LetGo(pool: seq<nat>, rs: map<nat, Resizer>, place: map<nat, Place>, t: nat, r: Resizer)
    requires Placed(pool, rs, place) && (t in rs ==> !rs[t].Freeing? && !rs[t].Adding?) && !r.Freeing? && !r.Adding?
    ensures Placed(pool, rs - {t}, place) && Placed(pool, rs[t := r], place)
  {
    hide Holds;
    NothingInHand(rs, place, t);
    MovesOn(rs, t, r, rs - {t});
    MovesOn(rs, t, r, rs[t := r]);
  }

  /** What a task has in its hand goes back to the backing allocator. */
  lemma GivesBack(pool: seq<nat>, rs: map<nat, Resizer>, place: map<nat, Place>, t: nat, e: nat, r: Resizer, p: Place)
    requires Placed(pool, rs, place) && Holds(rs, t, e) && !r.Freeing? && !r.Adding? && !p.InHand? && p != Pooled
    ensures Placed(pool, rs - {t}, place[e := p]) && Placed(pool, rs[t := r], place[e := p])
  {
    hide Holds;
    OneInHand(rs, t, e);
    MovesOn(rs, t, r, rs - {t});
    MovesOn(rs, t, r, rs[t := r]);
  }

  lemma OneInHand(rs: map<nat, Resizer>, t: nat, e: nat)
    requires Holds(rs, t, e)
    ensures forall x :: Holds(rs, t, x) ==> x == e
  {
  }

  /** An element from the backing allocator comes into a task's hand. */
  lemma ComesToHand(pool: seq<nat>, rs: map<nat, Resizer>, place: map<nat, Place>, t: nat, e: nat)
    requires Placed(pool, rs, place) && t in rs && rs[t].Refilling? && (e in place ==> place[e] == Returned)
    ensures Placed(pool, rs[t := Adding(e)], place[e := InHand(t)])
  {
    NothingInHand(rs, place, t);
    MovesOn(rs, t, Adding(e), rs[t := Adding(e)]);
    HoldsNow(rs[t := Adding(e)], t, e);
  }
}
