/** The area map of a percpu chunk (mm/percpu.c): positive entries are free blocks, negative
    ones are used, and a block starts where the entries before it end. */
module PcpuMap {
  import opened Align

  type Map = seq<int>

  const SIZEOF_INT: int := 4

  function Abs(x: int): nat { if x < 0 then -x else x }

  /** The bytes that the entries span. */
  function Span(m: Map): nat { if m == [] then 0 else Abs(m[0]) + Span(m[1..]) }

  function FreeSum(m: Map): nat { if m == [] then 0 else (if m[0] > 0 then m[0] else 0) + FreeSum(m[1..]) }

  /** The offsets at which used blocks start, the first entry being at `base`. */
  ghost function Starts(m: Map, base: int): set<int> {
    if m == [] then {} else (if m[0] < 0 then {base} else {}) + Starts(m[1..], base + Abs(m[0]))
  }

  /** Each used block serves the request recorded for its offset. */
  ghost predicate Serves(m: Map, base: int, live: map<int, int>) {
    m != [] ==> (m[0] < 0 ==> base in live && live[base] <= -m[0]) && Serves(m[1..], base + Abs(m[0]), live)
  }

  /** Blocks are not empty, and no two free ones are neighbours. */
  ghost predicate Separated(m: Map) {
    (forall i :: 0 <= i < |m| ==> m[i] != 0) && (forall i :: 0 < i < |m| ==> m[i - 1] < 0 || m[i] < 0)
  }

  ghost predicate NoneAbove(m: Map, hint: int) { forall i :: 0 <= i < |m| ==> m[i] <= hint }

  // ---------- taking maps apart ----------

  lemma {:induction false} Joined(a: Map, b: Map, base: int, live: map<int, int>)
    ensures Span(a + b) == Span(a) + Span(b) && FreeSum(a + b) == FreeSum(a) + FreeSum(b)
    ensures Starts(a + b, base) == Starts(a, base) + Starts(b, base + Span(a))
    ensures Serves(a + b, base, live) <==> Serves(a, base, live) && Serves(b, base + Span(a), live)
  {
    if a == [] {
      assert a + b == b;
    } else {
      assert (a + b)[1..] == a[1..] + b;
      Joined(a[1..], b, base + Abs(a[0]), live);
    }
  }

  lemma {:induction false} StartsWithin(m: Map, base: int)
    requires forall i :: 0 <= i < |m| ==> m[i] != 0
    ensures forall x :: x in Starts(m, base) ==> base <= x < base + Span(m)
  {
    if m != [] {
      StartsWithin(m[1..], base + Abs(m[0]));
    }
  }

  /** Only the records of the blocks themselves matter. */
  lemma {:induction false} ServesOwn(m: Map, base: int, live: map<int, int>, live': map<int, int>)
    requires Serves(m, base, live)
    requires forall x :: x in Starts(m, base) && x in live ==> x in live' && live'[x] == live[x]
    ensures Serves(m, base, live')
  {
    if m != [] {
      ServesOwn(m[1..], base + Abs(m[0]), live, live');
    }
  }

  lemma SpanNext(m: Map, i: nat)
    requires i < |m|
    ensures Span(m[..i + 1]) == Span(m[..i]) + Abs(m[i])
  {
    Joined(m[..i], [m[i]], 0, map[]);
    assert m[..i + 1] == m[..i] + [m[i]];
    assert Span([m[i]]) == Abs(m[i]) + Span([m[i]][1..]);
  }

  /** The largest free block, 0 when there is none. */
  function MaxFree(m: Map): nat {
    if m == [] then 0 else if m[0] > MaxFree(m[1..]) then m[0] else MaxFree(m[1..])
  }

  lemma {:induction false} MaxFreeIsMax(m: Map)
    ensures NoneAbove(m, MaxFree(m)) && (MaxFree(m) == 0 || MaxFree(m) in m)
  {
    if m != [] {
      MaxFreeIsMax(m[1..]);
    }
  }

  lemma {:induction false} MaxFreeNext(m: Map, i: nat)
    requires i < |m|
    ensures MaxFree(m[..i + 1]) == if m[i] > MaxFree(m[..i]) then m[i] else MaxFree(m[..i])
  {
    if i > 0 {
      MaxFreeNext(m[1..], i - 1);
      assert m[1..][..i] == m[..i + 1][1..] && m[1..][..i - 1] == m[..i][1..];
    } else {
      assert m[..1][1..] == [];
    }
  }

  lemma {:induction false} MaxFreeJoined(a: Map, b: Map)
    ensures MaxFree(a + b) == if MaxFree(a) > MaxFree(b) then MaxFree(a) else MaxFree(b)
  {
    if a == [] {
      assert a + b == b;
    } else {
      assert (a + b)[1..] == a[1..] + b;
      MaxFreeJoined(a[1..], b);
    }
  }

  /** No block, used or free, is smaller than an int. */
  predicate IntSized(m: Map) { forall i :: 0 <= i < |m| ==> Abs(m[i]) >= SIZEOF_INT }

  lemma {:induction false} IntSizedFree(m: Map)
    requires IntSized(m) && FreeSum(m) > 0
    ensures MaxFree(m) >= SIZEOF_INT
  {
    if m[0] <= 0 {
      assert forall i :: 0 <= i < |m[1..]| ==> m[1..][i] == m[i + 1];
      IntSizedFree(m[1..]);
    }
  }

  // ---------- the state of a chunk ----------

  /** The map spans the unit, no two free blocks are neighbours, and the used blocks are
      the live areas. */
  ghost predicate Sane(m: Map, unit: int, live: map<int, int>) {
    && m != [] && Span(m) == unit && Separated(m)
    && live.Keys == Starts(m, 0) && Serves(m, 0, live)
  }

  // ---------- allocating ----------

  /** The pieces of a block: `head` and `tail` bytes stay free, if any. */
  function Pieces(head: nat, used: int, tail: nat): Map {
    (if head > 0 then [head] else []) + [used] + (if tail > 0 then [tail] else [])
  }

  /** The map after an area was cut from block `k`, `head` bytes into it.  Less than an int
      before the area goes to the block before, less than an int after it stays with it. */
  function CarvedMap(m: Map, k: nat, size: int, head: nat): Map
    requires k < |m| && m[k] >= head + size && (k == 0 ==> head == 0)
  {
    var small := 0 < head < SIZEOF_INT;
    var pre := if small then m[..k - 1] + [m[k - 1] - head] else m[..k];
    var lead, rest := if small then 0 else head, m[k] - head - size;
    var tail := if rest < SIZEOF_INT then 0 else rest;
    pre + Pieces(lead, -(size + rest - tail), tail) + m[k + 1..]
  }

  /** The case of a small head, and the case of any other. */
  lemma CarvedCases(m: Map, k: nat, size: int, head: nat, pre: Map, lead: nat, tail: nat, used: int)
    requires k < |m| && m[k] >= head + size && (k == 0 ==> head == 0)
    requires if 0 < head < SIZEOF_INT then lead == 0 && pre == m[..k - 1] + [m[k - 1] - head] else lead == head && pre == m[..k]
    requires tail == (if m[k] - head - size < SIZEOF_INT then 0 else m[k] - head - size) && used == m[k] - head - tail
    ensures CarvedMap(m, k, size, head) == pre + Pieces(lead, -used, tail) + m[k + 1..]
  {
  }

  /** Cutting an area of at least an int leaves no smaller pieces. */
  lemma CarvedIntSized(m: Map, k: nat, size: int, head: nat)
    requires k < |m| && m[k] >= head + size && (k == 0 ==> head == 0) && size >= SIZEOF_INT && IntSized(m)
    requires k > 0 ==> m[k - 1] < 0
    ensures IntSized(CarvedMap(m, k, size, head))
  {
  }

  lemma PiecesMax(pre: Map, head: nat, used: int, tail: nat)
    requires used > 0
    ensures var x := MaxFree(pre + Pieces(head, -used, tail));
      x >= MaxFree(pre) && x >= head && x >= tail && (x == MaxFree(pre) || x == head || x == tail)
  {
    var h, t := if head > 0 then [head] else [], if tail > 0 then [tail] else [];
    ThreeMax(pre, h, [-used], t);
    MaxFreeSingle(head);
    MaxFreeSingle(tail);
    MaxFreeSingle(-used);
  }

  lemma ThreeMax(pre: Map, h: Map, u: Map, t: Map)
    ensures var x := MaxFree(pre + (h + u + t));
      && x >= MaxFree(pre) && x >= MaxFree(h) && x >= MaxFree(u) && x >= MaxFree(t)
      && (x == MaxFree(pre) || x == MaxFree(h) || x == MaxFree(u) || x == MaxFree(t))
  {
    hide MaxFree;
    MaxFreeJoined(pre, h + u + t);
    MaxFreeJoined(h + u, t);
    MaxFreeJoined(h, u);
  }

  lemma MaxFreeSingle(x: int)
    ensures MaxFree(if x == 0 then [] else [x]) == if x > 0 then x else 0
  {
    if x != 0 {
      assert [x][1..] == [];
    }
  }

  lemma PiecesFacts(head: nat, size: int, tail: nat, base: int, live: map<int, int>)
    requires size > 0
    ensures var p := Pieces(head, -size, tail);
      && Span(p) == head + size + tail && FreeSum(p) == head + tail && Starts(p, base) == {base + head}
      && (Serves(p, base, live) <==> base + head in live && live[base + head] <= size)
      && Separated(p)
  {
    var h, u: Map, t := (if head > 0 then [head] else []), [-size], (if tail > 0 then [tail] else []);
    Single(head, base, live);
    Single(-size, base + head, live);
    Single(tail, base + head + size, live);
    Joined(h, u, base, live);
    Joined(h + u, t, base, live);
  }

  lemma Single(x: int, base: int, live: map<int, int>)
    ensures var m := if x == 0 then [] else [x];
      && Span(m) == Abs(x) && FreeSum(m) == (if x > 0 then x else 0)
      && Starts(m, base) == (if x < 0 then {base} else {})
      && (Serves(m, base, live) <==> (x < 0 ==> base in live && live[base] <= -x))
  {
    if x != 0 {
      assert [x][1..] == [];
    }
  }

  /** A free block is cut and its middle part is taken. */
  lemma Carved(pre: Map, b: int, post: Map, unit: int, live: map<int, int>, head: nat, used: int, tail: nat, size: int)
    requires Sane(pre + [b] + post, unit, live) && b > 0 && b == head + used + tail && 0 < size <= used
    requires head > 0 ==> pre != []
    ensures var m, off := pre + Pieces(head, -used, tail) + post, Span(pre) + head;
      && off !in live && Sane(m, unit, live[off := size]) && FreeSum(m) == FreeSum(pre + [b] + post) - used
  {
    hide Span, FreeSum, Starts, Serves, Separated, Pieces;
    var m, off, live' := pre + Pieces(head, -used, tail) + post, Span(pre) + head, live[Span(pre) + head := size];
    Parts(pre, [b], post, live);
    Parts(pre, Pieces(head, -used, tail), post, live');
    Single(b, Span(pre), live);
    PiecesFacts(head, used, tail, Span(pre), live');
    NonZero(pre, b, post);
    StartsWithin(pre, 0);
    StartsWithin(post, Span(pre) + b);
    ServesOwn(pre, 0, live, live');
    ServesOwn(post, Span(pre) + b, live, live');
    CutSeparated(pre, b, post, head, used, tail);
  }

  lemma NonZero(pre: Map, b: int, post: Map)
    requires Separated(pre + [b] + post)
    ensures (forall i :: 0 <= i < |pre| ==> pre[i] != 0) && (forall i :: 0 <= i < |post| ==> post[i] != 0)
    ensures pre != [] && b > 0 ==> pre[|pre| - 1] < 0
    ensures post != [] && b > 0 ==> post[0] < 0
  {
    var m := pre + [b] + post;
    forall i | 0 <= i < |post|
      ensures post[i] != 0
    {
      assert m[|pre| + 1 + i] == post[i];
    }
    forall i | 0 <= i < |pre|
      ensures pre[i] != 0
    {
      assert m[i] == pre[i];
    }
    if pre != [] {
      assert m[|pre| - 1] == pre[|pre| - 1] && m[|pre|] == b;
    }
    if post != [] {
      assert m[|pre| + 1] == post[0] && m[|pre| + 1 - 1] == b;
    }
  }

  lemma Parts(pre: Map, mid: Map, post: Map, live: map<int, int>)
    ensures var m := pre + mid + post;
      && Span(m) == Span(pre) + Span(mid) + Span(post) && FreeSum(m) == FreeSum(pre) + FreeSum(mid) + FreeSum(post)
      && Starts(m, 0) == Starts(pre, 0) + Starts(mid, Span(pre)) + Starts(post, Span(pre) + Span(mid))
      && (Serves(m, 0, live) <==> Serves(pre, 0, live) && Serves(mid, Span(pre), live) && Serves(post, Span(pre) + Span(mid), live))
  {
    Joined(pre, mid, 0, live);
    Joined(pre + mid, post, 0, live);
  }

  /** Two separated maps go together when a used block is at the seam. */
  lemma SeparatedJoin(a: Map, b: Map)
    requires Separated(a) && Separated(b)
    requires a != [] && b != [] ==> a[|a| - 1] < 0 || b[0] < 0
    ensures Separated(a + b)
  {
  }

  lemma SeparatedParts(a: Map, b: Map)
    requires Separated(a + b)
    ensures Separated(a) && Separated(b)
  {
    forall i | 0 <= i < |b|
      ensures b[i] != 0 && (i > 0 ==> b[i - 1] < 0 || b[i] < 0)
    {
      assert (a + b)[|a| + i] == b[i];
      assert i > 0 ==> (a + b)[|a| + i - 1] == b[i - 1];
    }
    forall i | 0 <= i < |a|
      ensures a[i] != 0 && (i > 0 ==> a[i - 1] < 0 || a[i] < 0)
    {
      assert (a + b)[i] == a[i];
      assert i > 0 ==> (a + b)[i - 1] == a[i - 1];
    }
  }

  lemma CutSeparated(pre: Map, b: int, post: Map, head: nat, used: int, tail: nat)
    requires Separated(pre + [b] + post) && b > 0 && used > 0
    ensures Separated(pre + Pieces(head, -used, tail) + post)
  {
    NonZero(pre, b, post);
    SeparatedParts(pre + [b], post);
    SeparatedParts(pre, [b]);
    var p := Pieces(head, -used, tail);
    assert Separated(p);
    SeparatedJoin(pre, p);
    SeparatedJoin(pre + p, post);
  }

  /** A used block grows by the few bytes that alignment left behind it. */
  lemma Grown(pre: Map, b: int, post: Map, unit: int, live: map<int, int>, head: nat)
    requires Sane(pre + [b] + post, unit, live) && b > head && pre != []
    ensures pre[|pre| - 1] < 0
    ensures var g := pre[..|pre| - 1] + [pre[|pre| - 1] - head];
      && Sane(g + [b - head] + post, unit, live) && FreeSum(g + [b - head] + post) == FreeSum(pre + [b] + post) - head
      && Span(g) == Span(pre) + head
  {
    hide Span, FreeSum, Starts, Serves, Separated;
    NonZero(pre, b, post);
    var n := |pre| - 1;
    var last := pre[n];
    var g := pre[..n] + [last - head];
    assert pre == pre[..n] + [last];
    Parts(pre, [b], post, live);
    Parts(g, [b - head], post, live);
    Joined(pre[..n], [last], 0, live);
    Joined(pre[..n], [last - head], 0, live);
    Single(b, Span(pre), live);
    Single(b - head, Span(g), live);
    Single(last, Span(pre[..n]), live);
    Single(last - head, Span(pre[..n]), live);
    GrownSeparated(pre, b, post, head);
  }

  lemma GrownSeparated(pre: Map, b: int, post: Map, head: nat)
    requires Separated(pre + [b] + post) && b > head && pre != [] && pre[|pre| - 1] < 0
    ensures Separated(pre[..|pre| - 1] + [pre[|pre| - 1] - head] + [b - head] + post)
  {
    var m, m' := pre + [b] + post, pre[..|pre| - 1] + [pre[|pre| - 1] - head] + [b - head] + post;
    forall i | 0 <= i < |m'|
      ensures m'[i] != 0 && (i > 0 ==> m'[i - 1] < 0 || m'[i] < 0)
    {
      assert m[i] < 0 <==> m'[i] < 0;
      assert m[i] == 0 <==> m'[i] == 0;
      if i > 0 {
        assert m[i - 1] < 0 <==> m'[i - 1] < 0;
      }
    }
  }

  // ---------- freeing ----------

  function Opt(x: int): Map { if x == 0 then [] else [x] }

  /** A used block becomes free and takes in the free blocks beside it, if any. */
  lemma Freed(a: Map, x: nat, u: int, y: nat, c: Map, unit: int, live: map<int, int>)
    requires u > 0 && Sane(a + Opt(x) + [-u] + (Opt(y) + c), unit, live)
    requires (a != [] && x == 0 ==> a[|a| - 1] < 0) && (c != [] && y == 0 ==> c[0] < 0)
    ensures var off := Span(a) + x;
      && off in live && Sane(a + [x + u + y] + c, unit, live - {off})
      && FreeSum(a + [x + u + y] + c) == FreeSum(a + Opt(x) + [-u] + (Opt(y) + c)) + u
  {
    hide Span, FreeSum, Starts, Serves, Separated, Opt;
    var off, end, live' := Span(a) + x, Span(a) + x + u + y, live - {Span(a) + x};
    var m := a + Opt(x) + [-u] + (Opt(y) + c);
    BeforeFree(a, x, u, y, c, m, off, end, live);
    AfterFree(a, x + u + y, c, end, live');
    FreedSeparated(a, x, u, y, c);
    FreedLive(a, c, off, end, live);
  }

  lemma FreedLive(a: Map, c: Map, off: int, end: int, live: map<int, int>)
    requires (forall i :: 0 <= i < |a| ==> a[i] != 0) && (forall i :: 0 <= i < |c| ==> c[i] != 0)
    requires Span(a) <= off < end && Starts(a, 0) + {off} + Starts(c, end) == live.Keys
    requires Serves(a, 0, live) && Serves(c, end, live)
    ensures var live' := live - {off};
      Starts(a, 0) + Starts(c, end) == live'.Keys && Serves(a, 0, live') && Serves(c, end, live')
  {
    hide Span, Starts, Serves;
    StartsWithin(a, 0);
    StartsWithin(c, end);
    ServesOwn(a, 0, live, live - {off});
    ServesOwn(c, end, live, live - {off});
  }

  lemma BeforeFree(a: Map, x: nat, u: int, y: nat, c: Map, m: Map, off: int, end: int, live: map<int, int>)
    requires u > 0 && m == a + Opt(x) + [-u] + (Opt(y) + c) && off == Span(a) + x && end == off + u + y
    ensures Span(m) == end + Span(c) && FreeSum(m) == FreeSum(a) + x + y + FreeSum(c)
    ensures Starts(m, 0) == Starts(a, 0) + {off} + Starts(c, end)
    ensures Serves(m, 0, live) ==> Serves(a, 0, live) && Serves(c, end, live)
  {
    hide Span, FreeSum, Starts, Serves, Opt;
    var l, r, after := a + Opt(x), Opt(y) + c, off + u;
    FreeLeft(a, x, live);
    FreeRight(y, c, after, live);
    Single(-u, off, live);
    Parts(l, [-u], r, live);
    assert Span(l) == off && end == after + y;
  }

  lemma FreeLeft(a: Map, x: nat, live: map<int, int>)
    ensures var l := a + Opt(x);
      && Span(l) == Span(a) + x && FreeSum(l) == FreeSum(a) + x && Starts(l, 0) == Starts(a, 0)
      && (Serves(l, 0, live) ==> Serves(a, 0, live))
  {
    Joined(a, Opt(x), 0, live);
    Single(x, Span(a), live);
  }

  lemma FreeRight(y: nat, c: Map, base: int, live: map<int, int>)
    ensures var r := Opt(y) + c;
      && Span(r) == y + Span(c) && FreeSum(r) == y + FreeSum(c) && Starts(r, base) == Starts(c, base + y)
      && (Serves(r, base, live) ==> Serves(c, base + y, live))
  {
    Joined(Opt(y), c, base, live);
    Single(y, base, live);
  }

  lemma AfterFree(a: Map, b: int, c: Map, end: int, live: map<int, int>)
    requires b > 0 && end == Span(a) + b
    ensures var m := a + [b] + c;
      && Span(m) == end + Span(c) && FreeSum(m) == FreeSum(a) + b + FreeSum(c)
      && Starts(m, 0) == Starts(a, 0) + Starts(c, end)
      && (Serves(a, 0, live) && Serves(c, end, live) ==> Serves(m, 0, live))
  {
    hide Span, FreeSum, Starts, Serves;
    Parts(a, [b], c, live);
    Single(b, Span(a), live);
  }

  lemma FreedSeparated(a: Map, x: nat, u: int, y: nat, c: Map)
    requires u > 0 && Separated(a + Opt(x) + [-u] + (Opt(y) + c))
    requires (a != [] && x == 0 ==> a[|a| - 1] < 0) && (c != [] && y == 0 ==> c[0] < 0)
    ensures Separated(a + [x + u + y] + c)
    ensures (forall i :: 0 <= i < |a| ==> a[i] != 0) && (forall i :: 0 <= i < |c| ==> c[i] != 0)
  {
    SeparatedParts(a + Opt(x) + [-u], Opt(y) + c);
    SeparatedParts(a + Opt(x), [-u]);
    SeparatedParts(a, Opt(x));
    SeparatedParts(Opt(y), c);
    var l, r := a + Opt(x), Opt(y) + c;
    if a != [] && x > 0 {
      assert l[|a|] == x && l[|a| - 1] == a[|a| - 1];
    }
    if c != [] && y > 0 {
      assert r[1] == c[0] && r[0] == y;
    }
    assert Separated([x + u + y]);
    SeparatedJoin(a, [x + u + y]);
    SeparatedJoin(a + [x + u + y], c);
  }
}
