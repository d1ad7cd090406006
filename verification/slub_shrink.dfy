/** The bucket sort by which kmem_cache_shrink orders the partial list. */
module SlubShrink {
  import opened Basics
  import opened SlubState

  /** The buckets, the last one first: list_splice from `objects - 1` down to 0. */
  function Gather(b: seq<seq<nat>>): seq<nat> {
    if b == [] then [] else b[|b| - 1] + Gather(b[..|b| - 1])
  }

  lemma {:induction false} GatherAdd(b: seq<seq<nat>>, k: nat, s: nat)
    requires k < |b|
    ensures multiset(Gather(b[k := [s] + b[k]])) == multiset(Gather(b)) + multiset{s}
  {
    var w, n := b[k := [s] + b[k]], |b| - 1;
    if k < n {
      GatherAdd(b[..n], k, s);
      assert w[..n] == b[..n][k := [s] + b[k]];
    } else {
      assert w[..n] == b[..n];
      assert multiset([s] + b[n]) == multiset{s} + multiset(b[n]);
    }
  }

  lemma {:induction false} GatherEmpty(b: seq<seq<nat>>)
    requires forall k :: 0 <= k < |b| ==> b[k] == []
    ensures Gather(b) == []
  {
    if b != [] {
      GatherEmpty(b[..|b| - 1]);
    }
  }

  /** Bucket `k` holds slabs with `k` objects in use. */
  ghost predicate Sorted(b: seq<seq<nat>>, slabs: map<nat, Slab>) {
    forall k, s :: 0 <= k < |b| && s in b[k] ==> s in slabs && slabs[s].inuse == k
  }

  ghost predicate Descending(l: seq<nat>, slabs: map<nat, Slab>) {
    && (forall s :: s in l ==> s in slabs)
    && (forall i, j :: 0 <= i < j < |l| ==> slabs[l[i]].inuse >= slabs[l[j]].inuse)
  }

  /** The slabs with the most objects in use come first. */
  lemma {:induction false} GatherDescends(b: seq<seq<nat>>, slabs: map<nat, Slab>)
    requires Sorted(b, slabs)
    ensures Descending(Gather(b), slabs) && forall s :: s in Gather(b) ==> slabs[s].inuse < |b|
  {
    if b != [] {
      var n := |b| - 1;
      GatherDescends(b[..n], slabs);
      var l, m := b[n], Gather(b[..n]);
      forall i, j | 0 <= i < j < |l + m|
        ensures slabs[(l + m)[i]].inuse >= slabs[(l + m)[j]].inuse
      {
        assert i < |l| ==> (l + m)[i] in l;
        assert j < |l| ==> (l + m)[j] in l;
        assert j >= |l| ==> (l + m)[j] in m;
      }
    }
  }

  /** `s` stands after `t` on the list. */
  ghost predicate Later(l: seq<nat>, s: nat, t: nat) {
    exists i, j :: 0 <= j < i < |l| && l[i] == s && l[j] == t
  }

  /** What is left of a list is in the order that it had. */
  ghost predicate SameOrder(l: seq<nat>, l': seq<nat>) {
    forall s, t :: Later(l', s, t) ==> Later(l, s, t)
  }

  /** Each bucket is filled at its head. */
  ghost predicate Reversed(b: seq<seq<nat>>, kept: seq<nat>) {
    forall k, i, j :: 0 <= k < |b| && 0 <= i < j < |b[k]| ==> Later(kept, b[k][i], b[k][j])
  }

  lemma OneLess(l0: seq<nat>, kept: seq<nat>, todo: seq<nat>)
    requires SameOrder(l0, kept + todo) && todo != []
    ensures SameOrder(l0, kept + todo[1..])
  {
    var l, l' := kept + todo, kept + todo[1..];
    forall s, t | Later(l', s, t)
      ensures Later(l, s, t)
    {
      var i, j :| 0 <= j < i < |l'| && l'[i] == s && l'[j] == t;
      var i', j' := if i < |kept| then i else i + 1, if j < |kept| then j else j + 1;
      assert l[i'] == s && l[j'] == t;
    }
  }

  lemma OneMoreKept(b: seq<seq<nat>>, kept: seq<nat>, k: nat, s: nat)
    requires Reversed(b, kept) && k < |b| && forall t :: t in b[k] ==> t in kept
    ensures Reversed(b[k := [s] + b[k]], kept + [s])
  {
    var w, l := b[k := [s] + b[k]], kept + [s];
    forall k', i, j | 0 <= k' < |w| && 0 <= i < j < |w[k']|
      ensures Later(l, w[k'][i], w[k'][j])
    {
      if k' == k && i == 0 {
        var t := b[k][j - 1];
        assert t in b[k] && t in kept;
        var n :| 0 <= n < |kept| && kept[n] == t;
        assert l[n] == t && l[|kept|] == s;
      } else {
        var a, c := if k' == k then i - 1 else i, if k' == k then j - 1 else j;
        assert Later(kept, b[k'][a], b[k'][c]);
        var x, y :| 0 <= y < x < |kept| && kept[x] == b[k'][a] && kept[y] == b[k'][c];
        assert l[x] == kept[x] && l[y] == kept[y];
      }
    }
  }

  /** Slabs with equally many objects in use come from one bucket. */
  lemma {:induction false} EqualsReversed(b: seq<seq<nat>>, slabs: map<nat, Slab>, kept: seq<nat>, i: nat, j: nat)
    requires Sorted(b, slabs) && Reversed(b, kept) && i < j < |Gather(b)|
    requires Gather(b)[i] in slabs && Gather(b)[j] in slabs && slabs[Gather(b)[i]].inuse == slabs[Gather(b)[j]].inuse
    ensures Later(kept, Gather(b)[i], Gather(b)[j])
  {
    var n := |b| - 1;
    var l, m := b[n], Gather(b[..n]);
    assert Gather(b) == l + m;
    GatherDescends(b[..n], slabs);
    assert j >= |l| ==> m[j - |l|] in m && slabs[m[j - |l|]].inuse < n;
    assert i < |l| ==> l[i] in l && slabs[l[i]].inuse == n;
    if j < |l| {
      assert Later(kept, b[n][i], b[n][j]);
    } else if i >= |l| {
      EqualsReversed(b[..n], slabs, kept, i - |l|, j - |l|);
    }
  }

  /** A list with the elements of another, each as often, has no duplicates either. */
  lemma PermutedNoDup(l: seq<nat>, m: seq<nat>)
    requires multiset(l) == multiset(m) && NoDup(l)
    ensures NoDup(m) && |m| == |l| && forall s :: s in m <==> s in l
  {
    assert |multiset(l)| == |multiset(m)|;
    forall s
      ensures s in m <==> s in l
    {
      assert s in multiset(l) <==> s in multiset(m);
    }
    forall i, j | 0 <= i < j < |m|
      ensures m[i] != m[j]
    {
      CountsOnce(l, m[i]);
      CountsTwice(m, i, j);
    }
  }

  lemma {:induction false} CountsOnce(l: seq<nat>, s: nat)
    requires NoDup(l)
    ensures multiset(l)[s] <= 1
  {
    if l != [] {
      CountsOnce(l[1..], s);
      assert l == [l[0]] + l[1..];
      assert l[0] == s ==> s !in multiset(l[1..]);
    }
  }

  lemma CountsTwice(m: seq<nat>, i: nat, j: nat)
    requires i < j < |m|
    ensures m[i] == m[j] ==> multiset(m)[m[i]] >= 2
  {
    assert m == m[..i] + [m[i]] + m[i + 1..];
    assert m[j] in m[i + 1..] by {
      assert m[i + 1..][j - i - 1] == m[j];
    }
    assert m[j] in multiset(m[i + 1..]);
  }
}
