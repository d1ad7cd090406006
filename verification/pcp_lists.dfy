/** mm/page_alloc.c: the per-CPU lists of single pages in front of a zone's buddy system. */
module PcpLists {
  import opened Align
  import opened Basics
  import opened BuddyBlocks
  import opened ListOrder
  import opened PageAlloc
  import opened ZoneLists

  type Lists = seq<seq<Cached>>

  /** The page is on one of the lists. */
  ghost predicate Held(ls: Lists, q: int) {
    exists m: nat, i: nat :: m < |ls| && i < |ls[m]| && ls[m][i].page == q
  }

  ghost predicate Distinct(ls: Lists) {
    forall m: nat, i: nat, m': nat, i': nat ::
      m < |ls| && i < |ls[m]| && m' < |ls| && i' < |ls[m']| && ls[m][i].page == ls[m'][i'].page ==> m == m' && i == i'
  }

  /** The cached pages are pages of the zone that the buddy system does not list. */
  ghost predicate Cacheable(ls: Lists, z: Zone, b: Blocks) {
    forall m: nat, i: nat :: m < |ls| && i < |ls[m]| ==>
      z.InZone(ls[m][i].page, 0) && !Covers(b, ls[m][i].page) && ls[m][i].migratetype < MIGRATE_TYPES
  }

  function Length(ls: Lists): nat {
    if ls == [] then 0 else Length(ls[..|ls| - 1]) + |ls[|ls| - 1]|
  }

  lemma {:induction false} LengthChanges(ls: Lists, m: nat, l: seq<Cached>)
    requires m < |ls|
    ensures Length(ls[m := l]) == Length(ls) + |l| - |ls[m]|
  {
    var w := ls[m := l];
    if m == |ls| - 1 {
      assert w[..|w| - 1] == ls[..|ls| - 1];
    } else {
      LengthChanges(ls[..|ls| - 1], m, l);
      assert w[..|w| - 1] == ls[..|ls| - 1][m := l];
    }
  }

  lemma {:induction false} SomeListed(ls: Lists)
    requires Length(ls) > 0
    ensures exists m :: 0 <= m < |ls| && ls[m] != []
  {
    if ls[|ls| - 1] == [] {
      SomeListed(ls[..|ls| - 1]);
      var m :| 0 <= m < |ls| - 1 && ls[..|ls| - 1][m] != [];
      assert ls[m] != [];
    }
  }

  function Without(ls: Lists, m: nat, i: nat): (r: Lists)
    requires m < |ls| && i < |ls[m]|
    ensures |r| == |ls|
  {
    ls[m := ls[m][..i] + ls[m][i + 1..]]
  }

  lemma TakeOff(ls: Lists, m: nat, i: nat, z: Zone, b: Blocks)
    requires m < |ls| && i < |ls[m]| && Distinct(ls) && Cacheable(ls, z, b)
    ensures var r := Without(ls, m, i);
      && Distinct(r) && Cacheable(r, z, b) && Length(r) == Length(ls) - 1
      && (forall q: int :: Held(r, q) <==> Held(ls, q) && q != ls[m][i].page)
  {
    var r := Without(ls, m, i);
    LengthChanges(ls, m, r[m]);
    forall q: int
      ensures Held(r, q) <==> Held(ls, q) && q != ls[m][i].page
    {
      HeldWithout(ls, m, i, q);
    }
  }

  lemma HeldWithout(ls: Lists, m: nat, i: nat, q: int)
    requires m < |ls| && i < |ls[m]| && Distinct(ls)
    ensures Held(Without(ls, m, i), q) <==> Held(ls, q) && q != ls[m][i].page
  {
    var r := Without(ls, m, i);
    if Held(ls, q) && q != ls[m][i].page {
      var m': nat, i': nat :| m' < |ls| && i' < |ls[m']| && ls[m'][i'].page == q;
      assert r[m'][if m' == m && i' > i then i' - 1 else i'] == ls[m'][i'];
    }
  }

  function With(ls: Lists, m: nat, i: nat, c: Cached): (r: Lists)
    requires m < |ls| && i <= |ls[m]|
    ensures |r| == |ls|
  {
    ls[m := ls[m][..i] + [c] + ls[m][i..]]
  }

  lemma PutOn(ls: Lists, m: nat, i: nat, c: Cached, z: Zone, b: Blocks)
    requires m < |ls| && i <= |ls[m]| && Distinct(ls) && Cacheable(ls, z, b)
    requires !Held(ls, c.page) && z.InZone(c.page, 0) && !Covers(b, c.page) && c.migratetype < MIGRATE_TYPES
    ensures var r := With(ls, m, i, c);
      && Distinct(r) && Cacheable(r, z, b) && Length(r) == Length(ls) + 1
      && (forall q: int :: Held(r, q) <==> Held(ls, q) || q == c.page)
  {
    var r := With(ls, m, i, c);
    LengthChanges(ls, m, r[m]);
    forall q: int
      ensures Held(r, q) <==> Held(ls, q) || q == c.page
    {
      HeldWith(ls, m, i, c, q);
    }
  }

  lemma HeldWith(ls: Lists, m: nat, i: nat, c: Cached, q: int)
    requires m < |ls| && i <= |ls[m]|
    ensures Held(With(ls, m, i, c), q) <==> Held(ls, q) || q == c.page
  {
    var r := With(ls, m, i, c);
    if Held(ls, q) {
      var m': nat, i': nat :| m' < |ls| && i' < |ls[m']| && ls[m'][i'].page == q;
      assert r[m'][if m' == m && i' >= i then i' + 1 else i'] == ls[m'][i'];
    }
    assert r[m][i].page == c.page;
  }

  /** Each list lost pages at its tail only. */
  predicate Shortened(ls: Lists, r: Lists) {
    |r| == |ls| && forall m :: 0 <= m < |ls| ==> r[m] <= ls[m]
  }

  /** The pages that left the lists became free, and no others. */
  ghost predicate Returned(ls: Lists, b: Blocks, r: Lists, c: Blocks) {
    forall q: int :: Covers(c, q) <==> Covers(b, q) || (Held(ls, q) && !Held(r, q))
  }

  /** One page from the tail of a list, given to __free_one_page. */
  lemma ReturnOne(ls: Lists, b: Blocks, r: Lists, c: Blocks, m: nat, z: Zone, d: Blocks)
    requires Shortened(ls, r) && Returned(ls, b, r, c) && Distinct(r) && Cacheable(r, z, c)
    requires forall q: int :: Held(r, q) ==> Held(ls, q)
    requires m < |r| && r[m] != [] && Gains(c, d, r[m][|r[m]| - 1].page, 0)
    ensures var t := Without(r, m, |r[m]| - 1);
      && Shortened(ls, t) && Returned(ls, b, t, d) && Distinct(t) && Cacheable(t, z, d)
      && Length(t) == Length(r) - 1 && (forall q: int :: Held(t, q) ==> Held(ls, q))
  {
    hide Covers;
    var i := |r[m]| - 1;
    var t, p := Without(r, m, i), r[m][i].page;
    TakeOff(r, m, i, z, c);
    assert t[m] == r[m][..i];
    assert Held(r, p);
    JustOne(p);
    forall m': nat, i': nat | m' < |t| && i' < |t[m']|
      ensures !Covers(d, t[m'][i'].page)
    {
      assert Held(t, t[m'][i'].page);
    }
  }

  /** A page of a list may be freed. */
  lemma MayFree(ls: Lists, m: nat, i: nat, z: Zone, b: Blocks)
    requires m < |ls| && i < |ls[m]| && Cacheable(ls, z, b)
    ensures var p := ls[m][i].page; Pow2(0) == 1 && p % Pow2(0) == 0 && z.InZone(p, 0) && AllBusy(b, p, 0) && ls[m][i].migratetype < MIGRATE_TYPES
  {
  }

  // ---------- which lists the pages leave ----------

  function After(m: nat, d: nat): nat { (m + d) % MIGRATE_PCPTYPES }

  /** How far round it is from list `m` to the next that is not empty. */
  function Gap(ls: Lists, m: nat): nat
    requires |ls| == MIGRATE_PCPTYPES
  {
    if ls[After(m, 1)] != [] then 1 else if ls[After(m, 2)] != [] then 2 else 3
  }

  /** List `m` without its last `t` pages. */
  function Cropped(ls: Lists, m: nat, t: nat): (c: Lists)
    requires m < |ls| && t <= |ls[m]|
    ensures |c| == |ls| && |c[m]| == |ls[m]| - t
  {
    ls[m := ls[m][..|ls[m]| - t]]
  }

  function Least(x: nat, y: nat): nat { if x < y then x else y }

  /** The lists after `n` pages left them, turn by turn, list `m` having had the last turn.
      The next list that is not empty gives one page for each list passed on the way to it,
      and for each that an earlier turn was short of. */
  function Trimmed(ls: Lists, m: nat, short: nat, n: nat): Lists
    requires |ls| == MIGRATE_PCPTYPES
    decreases n
  {
    var to, due := After(m, Gap(ls, m)), short + Gap(ls, m);
    var k := Least(n, Least(due, |ls[to]|));
    if k == 0 then ls else Trimmed(Cropped(ls, to, k), to, due - k, n - k)
  }

  /** The pages that leave, in the order in which they do: from the tail of each list. */
  function Leaving(ls: Lists, m: nat, short: nat, n: nat): seq<Cached>
    requires |ls| == MIGRATE_PCPTYPES
    decreases n
  {
    var to, due := After(m, Gap(ls, m)), short + Gap(ls, m);
    var k := Least(n, Least(due, |ls[to]|));
    if k == 0 then [] else Backwards(ls[to][|ls[to]| - k..]) + Leaving(Cropped(ls, to, k), to, due - k, n - k)
  }

  /** The pages went to the buddy system one after another: each to the list of the type it
      is tagged with, in the block that it became part of. */
  ghost predicate GivenBack(s: Books, pages: seq<Cached>, s': Books)
    decreases |pages|
  {
    if pages == [] then s' == s
    else
      var others, last := pages[..|pages| - 1], pages[|pages| - 1];
      exists mid: Books :: GivenBack(s, others, mid) && OneBack(mid, last, s')
  }

  ghost predicate OneBack(s: Books, c: Cached, s': Books) {
    && Gains(s.order, s'.order, c.page, 0) && s'.block_type == s.block_type
    && PutBack(s.lists, s'.lists, s'.order, c.page, c.migratetype)
    && NewOn(s.order, s'.lists, s'.order, c.migratetype) && Stay(s.lists, s'.lists, s'.order)
  }

  lemma NoneBack(s: Books)
    ensures GivenBack(s, [], s)
  {
  }

  lemma OneMoreBack(s: Books, pages: seq<Cached>, mid: Books, c: Cached, s': Books)
    requires GivenBack(s, pages, mid) && OneBack(mid, c, s')
    ensures GivenBack(s, pages + [c], s')
  {
    hide OneBack;
    assert (pages + [c])[..|pages|] == pages;
  }

  /** The lists give evenly while none runs out: in turn, from the one after `m` on. */
  lemma {:induction false} Evenly(ls: Lists, m: nat, n: nat, i: nat)
    requires |ls| == MIGRATE_PCPTYPES && m < MIGRATE_PCPTYPES && i < MIGRATE_PCPTYPES
    requires forall j :: 0 <= j < |ls| ==> |ls[j]| >= n
    ensures |Trimmed(ls, m, 0, n)| == |ls|
    ensures |Trimmed(ls, m, 0, n)[i]| == |ls[i]| - (n + 2 - (i + 2 - m) % 3) / 3
    decreases n
  {
    hide Trimmed;
    EvenTurn(ls, m, n);
    if n > 0 {
      Evenly(Cropped(ls, After(m, 1), 1), After(m, 1), n - 1, i);
      EvenShare(m, n, i);
    }
  }

  /** The list after an empty one gives two pages for each that the other gives. */
  lemma {:induction false} TwiceAsMuch(ls: Lists, e: nat, k: nat)
    requires |ls| == MIGRATE_PCPTYPES && e < MIGRATE_PCPTYPES && ls[e] == []
    requires |ls[After(e, 1)]| >= 2 * k && |ls[After(e, 2)]| >= k
    ensures var r := Trimmed(ls, After(e, 2), 0, 3 * k);
      |r| == |ls| && |r[After(e, 1)]| == |ls[After(e, 1)]| - 2 * k && |r[After(e, 2)]| == |ls[After(e, 2)]| - k
    decreases k
  {
    hide Trimmed;
    if k == 0 {
      TrimNone(ls, After(e, 2), 0);
    } else {
      var a, b := After(e, 1), After(e, 2);
      UnevenTurns(ls, e, 3 * k);
      TwiceAsMuch(Cropped(Cropped(ls, a, 2), b, 1), e, k - 1);
    }
  }

  lemma Around(e: nat)
    requires e < MIGRATE_PCPTYPES
    ensures After(After(e, 2), 1) == e && After(After(e, 2), 2) == After(e, 1) && After(After(e, 1), 1) == After(e, 2)
    ensures After(e, 1) < MIGRATE_PCPTYPES && After(e, 2) < MIGRATE_PCPTYPES && After(e, 1) != After(e, 2)
  {
  }

  lemma OthersStay(ls: Lists, m: nat, t: nat, j: nat)
    requires m < |ls| && t <= |ls[m]| && j < |ls| && j != m
    ensures |Cropped(ls, m, t)| == |ls| && Cropped(ls, m, t)[j] == ls[j]
  {
  }

  lemma GapOne(ls: Lists, m: nat)
    requires |ls| == MIGRATE_PCPTYPES && ls[After(m, 1)] != []
    ensures Gap(ls, m) == 1
  {
  }

  lemma GapTwo(ls: Lists, m: nat)
    requires |ls| == MIGRATE_PCPTYPES && ls[After(m, 1)] == [] && ls[After(m, 2)] != []
    ensures Gap(ls, m) == 2
  {
  }

  lemma UnevenTurns(ls: Lists, e: nat, n: nat)
    requires |ls| == MIGRATE_PCPTYPES && e < MIGRATE_PCPTYPES && ls[e] == [] && n >= 3
    requires |ls[After(e, 1)]| >= 2 && |ls[After(e, 2)]| >= 1
    ensures var a, b := After(e, 1), After(e, 2);
      Trimmed(ls, b, 0, n) == Trimmed(Cropped(Cropped(ls, a, 2), b, 1), b, 0, n - 3)
  {
    hide Trimmed, Leaving, Gap, Cropped, After, Backwards;
    var a, b := After(e, 1), After(e, 2);
    Around(e);
    var c := Cropped(ls, a, 2);
    OthersStay(ls, a, 2, b);
    GapTwo(ls, b);
    GapOne(c, a);
    TurnOut(ls, b, 0, n, 2);
    TurnOut(c, a, 0, n - 2, 1);
  }

  lemma EvenTurn(ls: Lists, m: nat, n: nat)
    requires |ls| == MIGRATE_PCPTYPES && m < MIGRATE_PCPTYPES && forall j :: 0 <= j < |ls| ==> |ls[j]| >= n
    ensures Trimmed(ls, m, 0, n) == if n == 0 then ls else Trimmed(Cropped(ls, After(m, 1), 1), After(m, 1), 0, n - 1)
  {
  }

  lemma EvenShare(m: nat, n: nat, i: nat)
    requires m < MIGRATE_PCPTYPES && i < MIGRATE_PCPTYPES && n > 0
    ensures (n + 2 - (i + 2 - m) % 3) / 3 == (n + 1 - (i + 2 - After(m, 1)) % 3) / 3 + if i == After(m, 1) then 1 else 0
  {
  }

  /** Round to the next list that is not empty: mm/page_alloc.c:1318-1323 */
  method NextList(ls: Lists, m: nat, rounds0: nat) returns (migratetype: nat, rounds: nat)
    requires |ls| == MIGRATE_PCPTYPES && m < MIGRATE_PCPTYPES && exists j :: 0 <= j < |ls| && ls[j] != []
    ensures migratetype == After(m, Gap(ls, m)) < MIGRATE_PCPTYPES && rounds == rounds0 + Gap(ls, m) > rounds0 && ls[migratetype] != []
  {
    ghost var full :| 0 <= full < |ls| && ls[full] != [];
    ghost var d := 1;
    rounds := rounds0 + 1;
    migratetype := if m + 1 == MIGRATE_PCPTYPES then 0 else m + 1;
    while ls[migratetype] == []
      invariant 1 <= d <= MIGRATE_PCPTYPES && migratetype == After(m, d) < MIGRATE_PCPTYPES && rounds == rounds0 + d
      invariant forall j :: 1 <= j < d ==> ls[After(m, j)] == []
      decreases MIGRATE_PCPTYPES - d
    {
      AllRound(m, full);
      rounds := rounds + 1;
      migratetype := if migratetype + 1 == MIGRATE_PCPTYPES then 0 else migratetype + 1;
      d := d + 1;
    }
  }

  lemma AllRound(m: nat, j: nat)
    requires m < MIGRATE_PCPTYPES && j < MIGRATE_PCPTYPES
    ensures j == After(m, 1) || j == After(m, 2) || j == After(m, 3)
  {
  }

  lemma CropNone(ls: Lists, m: nat, t: nat)
    requires m < |ls| && t == 0
    ensures Cropped(ls, m, t) == ls
  {
    assert ls[m][..|ls[m]|] == ls[m];
  }

  lemma CropOne(ls: Lists, m: nat, t: nat)
    requires m < |ls| && t < |ls[m]|
    ensures var c := Cropped(ls, m, t);
      m < |c| && |c[m]| == |ls[m]| - t && Without(c, m, |c[m]| - 1) == Cropped(ls, m, t + 1) && c[m][|c[m]| - 1] == ls[m][|ls[m]| - t - 1]
  {
    var l, c, i := ls[m], Cropped(ls, m, t), |ls[m]| - t - 1;
    assert c[m] == l[..i + 1] && c[m][..i] + c[m][i + 1..] == l[..i];
  }

  lemma TrimNone(ls: Lists, m: nat, short: nat)
    requires |ls| == MIGRATE_PCPTYPES
    ensures Trimmed(ls, m, short, 0) == ls && Leaving(ls, m, short, 0) == []
  {
  }

  lemma BackwardsNone(l: seq<Cached>)
    ensures Backwards(l[|l|..]) == []
  {
  }

  lemma BackwardsOne(l: seq<Cached>, t: nat)
    requires t < |l|
    ensures Backwards(l[|l| - t..]) + [l[|l| - t - 1]] == Backwards(l[|l| - t - 1..])
  {
    var a, b := Backwards(l[|l| - t..]) + [l[|l| - t - 1]], Backwards(l[|l| - t - 1..]);
    assert |a| == |b| && forall k :: 0 <= k < |a| ==> a[k] == l[|l| - 1 - k] == b[k];
  }

  lemma BackOne(s: Books, c: Cached, s': Books)
    requires Gains(s.order, s'.order, c.page, 0) && s'.block_type == s.block_type
    requires PutBack(s.lists, s'.lists, s'.order, c.page, c.migratetype)
    requires NewOn(s.order, s'.lists, s'.order, c.migratetype) && Stay(s.lists, s'.lists, s'.order)
    ensures OneBack(s, c, s')
  {
  }

  /** A turn ends when enough pages have left, or as many as were due, or the list is empty. */
  lemma TrimTurn(ls: Lists, m: nat, short: nat, n: nat, ls': Lists, n': nat, rounds: nat)
    requires |ls| == MIGRATE_PCPTYPES && n' < n
    requires var to, due := After(m, Gap(ls, m)), short + Gap(ls, m);
      && n - n' <= |ls[to]| && n - n' <= due && ls' == Cropped(ls, to, n - n')
      && (n' > 0 ==> rounds + (n - n') == due && (rounds == 0 || ls'[to] == []))
    ensures |ls'| == MIGRATE_PCPTYPES && Trimmed(ls', After(m, Gap(ls, m)), rounds, n') == Trimmed(ls, m, short, n)
    ensures var l := ls[After(m, Gap(ls, m))];
      Leaving(ls, m, short, n) == Backwards(l[|l| - (n - n')..]) + Leaving(ls', After(m, Gap(ls, m)), rounds, n')
  {
    hide Cropped, Gap, Trimmed, Leaving, Backwards;
    var to, due := After(m, Gap(ls, m)), short + Gap(ls, m);
    TurnOut(ls, m, short, n, n - n');
    if n' == 0 {
      TrimNone(ls', to, rounds);
      TrimNone(ls', to, due - n);
    }
  }

  lemma TurnOut(ls: Lists, m: nat, short: nat, n: nat, k: nat)
    requires |ls| == MIGRATE_PCPTYPES
    requires var to, due := After(m, Gap(ls, m)), short + Gap(ls, m); 0 < k <= due && k <= |ls[to]| && k == Least(n, Least(due, |ls[to]|))
    ensures var to, due := After(m, Gap(ls, m)), short + Gap(ls, m);
      && Trimmed(ls, m, short, n) == Trimmed(Cropped(ls, to, k), to, due - k, n - k)
      && Leaving(ls, m, short, n) == Backwards(ls[to][|ls[to]| - k..]) + Leaving(Cropped(ls, to, k), to, due - k, n - k)
  {
    hide Cropped, Gap, Backwards;
  }

  /** One turn: mm/page_alloc.c:1325-1330.  Pages leave the tail of one list, at least one
      and no more than are due. */
  method GiveTurn(zone: Zone, was: Lists, migratetype: nat, due: nat, start: nat) returns (ls: Lists, rounds: nat, toFree: nat)
    requires zone.Valid() && |was| == MIGRATE_PCPTYPES && Distinct(was) && Cacheable(was, zone, zone.order)
    requires migratetype < |was| && was[migratetype] != [] && due > 0 && start > 0
    modifies zone`order, zone`lists, zone`nr_free
    ensures zone.Valid() && Distinct(ls) && Cacheable(ls, zone, zone.order)
    ensures Shortened(was, ls) && Returned(was, old(zone.order), ls, zone.order) && forall q: int :: Held(ls, q) ==> Held(was, q)
    ensures toFree < start && start - toFree <= due && start - toFree <= |was[migratetype]|
    ensures |ls| == |was| && ls == Cropped(was, migratetype, start - toFree) && Length(ls) == Length(was) - (start - toFree)
    ensures toFree > 0 ==> rounds + (start - toFree) == due && (rounds == 0 || ls[migratetype] == [])
    ensures Total(zone.nr_free) == Total(old(zone.nr_free)) + (start - toFree)
    ensures GivenBack(old(zone.Now()), Backwards(was[migratetype][|was[migratetype]| - (start - toFree)..]), zone.Now())
  {
    hide GivenBack, OneBack, NewOn, Stay, PutBack, Zone.Valid, Covers, Pow2, Total, Distinct, Cacheable, Held, Shortened, Returned, Gains, AllBusy, Length, Cropped, Backwards;
    ls, rounds, toFree := was, due, start;
    ghost var l, gone: seq<Cached> := was[migratetype], [];
    ReturnNone(ls, zone.order);
    NoneBack(zone.Now());
    CropNone(was, migratetype, start - toFree);
    BackwardsNone(l);
    var more := true;
    while more
      invariant toFree <= start && |ls| == MIGRATE_PCPTYPES && start - toFree <= due
      invariant if more then toFree > 0 && rounds > 0 && ls[migratetype] != [] else toFree < start
      invariant start - toFree <= |l| && ls == Cropped(was, migratetype, start - toFree)
      invariant gone == Backwards(l[|l| - (start - toFree)..]) && GivenBack(old(zone.Now()), gone, zone.Now())
      invariant toFree > 0 ==> rounds + (start - toFree) == due && (more || rounds == 0 || ls[migratetype] == [])
      invariant zone.Valid() && Distinct(ls) && Cacheable(ls, zone, zone.order)
      invariant Shortened(was, ls) && Returned(was, old(zone.order), ls, zone.order) && (forall q: int :: Held(ls, q) ==> Held(was, q))
      invariant Length(ls) == Length(was) - (start - toFree) && Total(zone.nr_free) == Total(old(zone.nr_free)) + (start - toFree)
      decreases toFree, more
    {
      ghost var before := zone.Now();
      var i := |ls[migratetype]| - 1;
      var c := ls[migratetype][i];
      MayFree(ls, migratetype, i, zone, zone.order);
      zone.FreeOnePage(c.page, 0, c.migratetype);
      ReturnOne(was, old(zone.order), ls, before.order, migratetype, zone, zone.order);
      CropOne(was, migratetype, start - toFree);
      BackOne(before, c, zone.Now());
      OneMoreBack(old(zone.Now()), gone, before, c, zone.Now());
      BackwardsOne(l, start - toFree);
      gone := gone + [c];
      ls := Without(ls, migratetype, i);
      toFree := toFree - 1;
      more := toFree > 0;
      if more {
        rounds := rounds - 1;
        more := rounds > 0 && ls[migratetype] != [];
      }
    }
  }

  /** free_pcppages_bulk: mm/page_alloc.c:1296-1335.  Round robin over the lists; `rounds`
      is batch_free.  The search for a list that is not empty ends because `toFree` pages
      are still listed; without them it would go round for ever. */
  method FreePcppagesBulk(zone: Zone, count: nat, ls0: Lists) returns (ls: Lists)
    requires zone.Valid() && zone.Counted() && |ls0| == MIGRATE_PCPTYPES && Distinct(ls0) && Cacheable(ls0, zone, zone.order)
    requires count <= Length(ls0)
    modifies zone`order, zone`lists, zone`nr_free, zone`free_pages
    ensures zone.Valid() && zone.Counted() && Distinct(ls) && Cacheable(ls, zone, zone.order)
    ensures Shortened(ls0, ls) && Length(ls) == Length(ls0) - count
    ensures Returned(ls0, old(zone.order), ls, zone.order) && forall q: int :: Held(ls, q) ==> Held(ls0, q)
    ensures zone.free_pages == old(zone.free_pages) + count
    ensures ls == Trimmed(ls0, 0, 0, count)
    ensures GivenBack(old(zone.Now()), Leaving(ls0, 0, 0, count), zone.Now())
  {
    hide Leaving, GivenBack, Backwards, Zone.Valid, Covers, Pow2, Total, Distinct, Cacheable, Held, Shortened, Returned, Length, Trimmed, Gap, Cropped;
    ls := ls0;
    var migratetype: nat, rounds: nat, toFree: nat := 0, 0, count;
    ghost var gone: seq<Cached> := [];
    ReturnNone(ls, zone.order);
    NoneBack(zone.Now());
    while toFree > 0
      invariant migratetype < MIGRATE_PCPTYPES && toFree <= count
      invariant |ls| == MIGRATE_PCPTYPES && Trimmed(ls, migratetype, rounds, toFree) == Trimmed(ls0, 0, 0, count)
      invariant gone + Leaving(ls, migratetype, rounds, toFree) == Leaving(ls0, 0, 0, count)
      invariant GivenBack(old(zone.Now()), gone, zone.Now())
      invariant zone.Valid() && Distinct(ls) && Cacheable(ls, zone, zone.order)
      invariant Shortened(ls0, ls) && Returned(ls0, old(zone.order), ls, zone.order) && (forall q: int :: Held(ls, q) ==> Held(ls0, q))
      invariant Length(ls) == Length(ls0) - (count - toFree)
      invariant Total(zone.nr_free) == old(Total(zone.nr_free)) + (count - toFree) && zone.free_pages == old(zone.free_pages)
      decreases toFree
    {
      ghost var start, was, at, short, before := toFree, ls, migratetype, rounds, zone.Now();
      SomeListed(ls);
      migratetype, rounds := NextList(ls, migratetype, rounds);
      ls, rounds, toFree := GiveTurn(zone, ls, migratetype, rounds, toFree);
      ghost var out := Backwards(was[migratetype][|was[migratetype]| - (start - toFree)..]);
      ReturnedOn(ls0, old(zone.order), was, before.order, ls, zone.order);
      BackJoin(old(zone.Now()), gone, before, out, zone.Now());
      TrimTurn(was, at, short, start, ls, toFree, rounds);
      assert gone + (out + Leaving(ls, migratetype, rounds, toFree)) == gone + out + Leaving(ls, migratetype, rounds, toFree);
      gone := gone + out;
    }
    TrimNone(ls, migratetype, rounds);
    assert gone + [] == gone;
    zone.free_pages := zone.free_pages + count;
  }

  lemma ReturnedOn(ls0: Lists, b0: Blocks, ls: Lists, b: Blocks, ls': Lists, b': Blocks)
    requires Shortened(ls0, ls) && Returned(ls0, b0, ls, b) && Shortened(ls, ls') && Returned(ls, b, ls', b')
    requires forall q: int :: (Held(ls, q) ==> Held(ls0, q)) && (Held(ls', q) ==> Held(ls, q))
    ensures Shortened(ls0, ls') && Returned(ls0, b0, ls', b')
  {
    hide Held, Covers;
  }

  lemma {:induction false} BackJoin(s: Books, pages: seq<Cached>, mid: Books, more: seq<Cached>, s': Books)
    requires GivenBack(s, pages, mid) && GivenBack(mid, more, s')
    ensures GivenBack(s, pages + more, s')
    decreases |more|
  {
    hide OneBack;
    if more == [] {
      assert pages + more == pages;
    } else {
      var others, c := more[..|more| - 1], more[|more| - 1];
      var last: Books :| GivenBack(mid, others, last) && OneBack(last, c, s');
      BackJoin(s, pages, mid, others, last);
      OneMoreBack(s, pages + others, last, c, s');
      assert pages + others + [c] == pages + more;
    }
  }

  lemma ReturnNone(ls: Lists, b: Blocks)
    ensures Shortened(ls, ls) && Returned(ls, b, ls, b)
  {
  }

  /** struct per_cpu_pages */
  datatype Pcp = Pcp(count: int, high: int, batch: int, lists: Lists)

  /** `count` counts the listed pages.  The batch is never more than the lists hold when
      they are trimmed: setup_pageset keeps it between 1 and the larger of `high` and 1. */
  ghost predicate Kept(p: Pcp, z: Zone, b: Blocks) {
    && |p.lists| == MIGRATE_PCPTYPES && Distinct(p.lists) && Cacheable(p.lists, z, b)
    && p.count == Length(p.lists) && 1 <= p.batch <= (if p.high < 1 then 1 else p.high)
  }

  ghost predicate HeldAny(ps: seq<Pcp>, q: int) { exists c :: 0 <= c < |ps| && Held(ps[c].lists, q) }

  /** Every page is in one place only: free in the buddy system, on one list of one CPU, or
      handed out. */
  ghost predicate Sound(z: Zone, managed: set<int>, b: Blocks, ps: seq<Pcp>, live: Blocks) {
    && (forall c :: 0 <= c < |ps| ==> Kept(ps[c], z, b))
    && (forall c, c', q: int :: 0 <= c < |ps| && 0 <= c' < |ps| && Held(ps[c].lists, q) && Held(ps[c'].lists, q) ==> c == c')
    && Proper(live) && (forall p :: p in live ==> z.InZone(p, live[p]))
    && (forall q: int :: Covers(live, q) ==> !Covers(b, q) && !HeldAny(ps, q))
    && (forall q: int :: q in managed <==> Covers(b, q) || HeldAny(ps, q) || Covers(live, q))
  }

  lemma HeldAnyAfter(ps: seq<Pcp>, cpu: nat, p: Pcp, q: int)
    requires cpu < |ps|
    requires forall c, c' :: 0 <= c < |ps| && 0 <= c' < |ps| && Held(ps[c].lists, q) && Held(ps[c'].lists, q) ==> c == c'
    ensures HeldAny(ps[cpu := p], q) <==> Held(p.lists, q) || (HeldAny(ps, q) && !Held(ps[cpu].lists, q))
  {
    var ps' := ps[cpu := p];
    if Held(p.lists, q) {
      assert ps'[cpu] == p;
    }
    if HeldAny(ps, q) && !Held(ps[cpu].lists, q) {
      var c :| 0 <= c < |ps| && Held(ps[c].lists, q);
      assert ps'[c] == ps[c];
    }
  }

  /** One CPU's lists change, and with them what is free or handed out: enough to know is
      where each page went. */
  lemma Step(z: Zone, managed: set<int>, b: Blocks, ps: seq<Pcp>, live: Blocks, cpu: nat, b': Blocks, p: Pcp, live': Blocks)
    requires Sound(z, managed, b, ps, live) && cpu < |ps| && Kept(p, z, b')
    requires Proper(live') && forall x :: x in live' ==> z.InZone(x, live'[x])
    requires forall q: int :: MovedWell(b, ps[cpu].lists, live, b', p.lists, live', q)
    ensures Sound(z, managed, b', ps[cpu := p], live')
  {
    hide Covers, Held, Proper, Length, HeldAny, Distinct;
    var ps' := ps[cpu := p];
    forall q: int
      ensures HeldAny(ps', q) <==> Held(p.lists, q) || (HeldAny(ps, q) && !Held(ps[cpu].lists, q))
      ensures Held(ps[cpu].lists, q) ==> HeldAny(ps, q)
    {
      HeldAnyAfter(ps, cpu, p, q);
      HeldSome(ps, cpu, q);
    }
    forall c | 0 <= c < |ps'| && c != cpu
      ensures Kept(ps'[c], z, b')
    {
      forall m: nat, i: nat | m < |ps[c].lists| && i < |ps[c].lists[m]|
        ensures !Covers(b', ps[c].lists[m][i].page)
      {
        HeldAt(ps[c].lists, m, i);
        assert MovedWell(b, ps[cpu].lists, live, b', p.lists, live', ps[c].lists[m][i].page);
        HeldSome(ps, c, ps[c].lists[m][i].page);
        HeldNotFree(ps[c].lists, z, b, ps[c].lists[m][i].page);
      }
    }
    forall c, q: int | 0 <= c < |ps| && c != cpu && Held(ps[c].lists, q)
      ensures !Held(p.lists, q)
    {
      HeldSome(ps, c, q);
      HeldNotFree(ps[c].lists, z, b, q);
      assert MovedWell(b, ps[cpu].lists, live, b', p.lists, live', q);
    }
    forall q: int
      ensures HeldAny(ps, q) ==> !Covers(b, q)
    {
      AnyNotFree(ps, z, b, q);
    }
    forall q: int
      ensures Covers(live', q) ==> !Covers(b', q) && !HeldAny(ps', q)
      ensures q in managed <==> Covers(b', q) || HeldAny(ps', q) || Covers(live', q)
    {
      assert MovedWell(b, ps[cpu].lists, live, b', p.lists, live', q);
    }
  }

  lemma JustOne(p: int)
    ensures forall q: int {:trigger Inside(q, p, 0)} :: Inside(q, p, 0) <==> q == p
  {
  }

  lemma HeldNotFree(ls: Lists, z: Zone, b: Blocks, q: int)
    requires Cacheable(ls, z, b)
    ensures Held(ls, q) ==> !Covers(b, q)
  {
  }

  lemma AnyNotFree(ps: seq<Pcp>, z: Zone, b: Blocks, q: int)
    requires forall c :: 0 <= c < |ps| ==> Kept(ps[c], z, b)
    ensures HeldAny(ps, q) ==> !Covers(b, q)
  {
  }

  lemma HeldAt(ls: Lists, m: nat, i: nat)
    requires m < |ls| && i < |ls[m]|
    ensures Held(ls, ls[m][i].page)
  {
  }

  lemma HeldSome(ps: seq<Pcp>, c: nat, q: int)
    requires c < |ps|
    ensures Held(ps[c].lists, q) ==> HeldAny(ps, q)
  {
  }

  /** The page `q` is in one of the three places after the step just if it was before, and
      not in two of them. */
  ghost predicate MovedWell(b: Blocks, ls: Lists, live: Blocks, b': Blocks, ls': Lists, live': Blocks, q: int) {
    && (Covers(b, q) || Held(ls, q) || Covers(live, q) <==> Covers(b', q) || Held(ls', q) || Covers(live', q))
    && (Covers(b', q) ==> !Held(ls', q) && !Covers(live', q))
    && (Held(ls', q) ==> !Covers(live', q))
  }

  /** The list that rmqueue_bulk filled, when it was empty before. */
  lemma Refill(ls: Lists, m: nat, pages: seq<nat>, mt: nat, cold: bool, z: Zone, b: Blocks, b': Blocks)
    requires m < |ls| && ls[m] == [] && Distinct(ls) && Cacheable(ls, z, b) && mt < MIGRATE_TYPES
    requires TakenAll(b, b', pages, 0) && forall q: int :: Covers(b, q) ==> z.InZone(q, 0)
    ensures var r := ls[m := Added([], pages, mt, cold)];
      && Distinct(r) && Cacheable(r, z, b') && Length(r) == Length(ls) + |pages|
      && forall q: int :: Held(r, q) <==> Held(ls, q) || q in pages
  {
    hide Covers;
    var r := ls[m := Added([], pages, mt, cold)];
    LengthChanges(ls, m, r[m]);
    forall k | 0 <= k < |pages|
      ensures Covers(b, pages[k]) && !Covers(b', pages[k])
    {
      assert Inside(pages[k], pages[k], 0) && InBlocks(pages[k], pages, 0);
    }
    forall j, k | 0 <= j < k < |pages|
      ensures pages[j] != pages[k]
    {
      assert BlocksApart(pages[j], pages[k], 0);
    }
    forall q: int
      ensures Held(r, q) <==> Held(ls, q) || q in pages
    {
      HeldRefilled(ls, m, pages, mt, cold, q);
    }
  }

  lemma HeldRefilled(ls: Lists, m: nat, pages: seq<nat>, mt: nat, cold: bool, q: int)
    requires m < |ls| && ls[m] == []
    ensures Held(ls[m := Added([], pages, mt, cold)], q) <==> Held(ls, q) || q in pages
  {
    var r: Lists := ls[m := Added([], pages, mt, cold)];
    if Held(ls, q) {
      var m': nat, i: nat :| m' < |ls| && i < |ls[m']| && ls[m'][i].page == q;
      assert r[m'][i].page == q;
    }
    if q in pages {
      var k :| 0 <= k < |pages| && pages[k] == q;
      assert r[m][if cold then |pages| - 1 - k else k].page == q;
    }
  }

  /** A zone with the lists of its CPUs and, for the statement only, the blocks handed out. */
  class PageSets {
    const zone: Zone
    var pcp: seq<Pcp>
    ghost var live: Blocks
    ghost const managed: set<int>

    ghost predicate Valid()
      reads `pcp, `live, zone
    {
      zone.Valid() && zone.Counted() && Sound(zone, managed, zone.order, pcp, live)
    }

    /** Everything starts free, as free_all_bootmem leaves it. */
    constructor (zone: Zone, pcp: seq<Pcp>)
      requires zone.Valid() && zone.Counted()
      requires forall c :: 0 <= c < |pcp| ==> Fresh(pcp[c])
      ensures Valid() && this.zone == zone && this.pcp == pcp && live == map[]
    {
      hide Covers, Zone.Valid, Sound, Fresh;
      this.zone, this.pcp, live := zone, pcp, map[];
      managed := FreeSet(zone, zone.order);
      new;
      FreePagesInZone(zone);
      FreshSound(zone, zone.order, pcp);
    }

    /** buffered_rmqueue for one page: mm/page_alloc.c:1833-1853 */
    method TakeCached(cpu: nat, migratetype: nat, cold: bool, mobility_disabled: bool) returns (page: Option<nat>)
      requires Valid() && cpu < |pcp| && migratetype < MIGRATE_PCPTYPES
      modifies `pcp, `live, zone`order, zone`lists, zone`nr_free, zone`block_type, zone`free_pages
      ensures Valid() && |pcp| == |old(pcp)| && forall c :: 0 <= c < |pcp| && c != cpu ==> pcp[c] == old(pcp)[c]
      ensures page.None? <==> old(pcp)[cpu].lists[migratetype] == [] && Exhausted(old(zone.lists), 0, migratetype)
      ensures page.None? ==> zone.order == old(zone.order) && zone.lists == old(zone.lists) && pcp == old(pcp) && live == old(live)
      ensures page.Some? ==> AllBusy(old(live), page.value, 0) && live == old(live)[page.value := 0]
      ensures page.Some? ==> zone.free_pages + pcp[cpu].count + 1 == old(zone.free_pages + pcp[cpu].count)
      ensures var l := old(pcp)[cpu].lists[migratetype];
        l != [] ==>
          var i := if cold then |l| - 1 else 0;
          && page == Some(l[i].page) && zone.Now() == old(zone.Now())
          && pcp[cpu].lists == old(pcp)[cpu].lists[migratetype := if cold then l[..i] else l[1..]]
      ensures old(pcp)[cpu].lists[migratetype] == [] && page.Some? ==>
        Refilled(zone, old(zone.Now()), old(pcp)[cpu], zone.Now(), pcp[cpu], migratetype, cold, mobility_disabled, page.value)
    {
      hide Zone.Valid, Zone.ServedInTurn, Covers, Sound, Exhausted, Distinct, Cacheable, Held, Length, Added, TakenAll, Without, Refilled;
      var p := pcp[cpu];
      SoundCpu(zone, managed, zone.order, pcp, live, cpu);
      ZoneShaped(zone);
      FreePagesInZone(zone);
      if p.lists[migratetype] == [] {
        var pages, list := zone.RmqueueBulk(0, p.batch, [], migratetype, cold, mobility_disabled);
        p := p.(count := p.count + |pages|, lists := p.lists[migratetype := list]);
        assert list == [] ==> p == pcp[cpu];
        RefillSound(zone, managed, old(zone.order), pcp, live, cpu, zone.order, migratetype, pages, cold);
        ghost var was := pcp[cpu];
        pcp := pcp[cpu := p];
        if list == [] {
          return None;
        }
        FirstTaken(pages, migratetype, cold);
        ZoneShaped(zone);
        WithoutEnd(p.lists, migratetype, cold);
        assert p.lists[migratetype := Added([], pages[1..], migratetype, cold)] == was.lists[migratetype := Added([], pages[1..], migratetype, cold)];
        IsRefilled(zone, old(zone.Now()), was, zone.Now(), migratetype, cold, mobility_disabled, pages);
      }
      var i := if cold then |p.lists[migratetype]| - 1 else 0;
      page := Some(p.lists[migratetype][i].page);
      WithoutEnd(p.lists, migratetype, cold);
      p := p.(count := p.count - 1, lists := Without(p.lists, migratetype, i));
      HandOutSound(zone, managed, zone.order, pcp, live, cpu, migratetype, i);
      pcp := pcp[cpu := p];
      live := live[page.value := 0];
    }

    /** buffered_rmqueue for a block: mm/page_alloc.c:1854-1874 */
    method TakeBlock(o: nat, migratetype: nat, mobility_disabled: bool) returns (page: Option<nat>)
      requires Valid() && o < MAX_ORDER && migratetype <= MIGRATE_RESERVE
      modifies `live, zone`order, zone`lists, zone`nr_free, zone`block_type, zone`free_pages
      ensures Valid()
      ensures page.None? <==> Exhausted(old(zone.lists), o, migratetype)
      ensures page.None? ==> zone.order == old(zone.order) && zone.lists == old(zone.lists) && live == old(live)
      ensures page.Some? ==> AllBusy(old(live), page.value, o) && live == old(live)[page.value := o]
      ensures page.Some? ==> zone.free_pages + Pow2(o) == old(zone.free_pages)
      ensures page.Some? ==> Shaped(old(zone.lists)) && zone.Served(old(zone.Now()), zone.Now(), o, migratetype, mobility_disabled, page.value)
    {
      hide Zone.Valid, Covers, Sound, Exhausted, Taken, Total, Pow2;
      FreePagesInZone(zone);
      FreeBlockInZone(zone, o);
      page := zone.Rmqueue(o, migratetype, mobility_disabled);
      if page.Some? {
        zone.free_pages := zone.free_pages - Pow2(o);
        TakeBlockSound(zone, managed, old(zone.order), pcp, live, zone.order, page.value, o);
        live := live[page.value := o];
      }
    }

    /** get_pageblock_migratetype.  A block type that was never set reads as 0. */
    function BlockType(page: nat): (t: nat)
      reads zone`block_type
      ensures forall n: nat :: n * 1024 <= page < (n + 1) * 1024 ==> t == if n in zone.block_type then zone.block_type[n] else MIGRATE_UNMOVABLE
    {
      if PageBlock(page) in zone.block_type then zone.block_type[PageBlock(page)] else 0
    }

    /** free_hot_cold_page: mm/page_alloc.c:1341-1391.  Pages of an isolated block bypass the
        lists; those of a reserved block are listed as movable. */
    method FreeHotColdPage(cpu: nat, page: nat, cold: bool)
      requires Valid() && cpu < |pcp| && page in live && live[page] == 0
      requires BlockType(page) < MIGRATE_TYPES
      modifies `pcp, `live, zone`order, zone`lists, zone`nr_free, zone`free_pages
      ensures Valid() && live == old(live) - {page}
      ensures |pcp| == |old(pcp)| && forall c :: 0 <= c < |pcp| && c != cpu ==> pcp[c] == old(pcp)[c]
      ensures zone.free_pages + pcp[cpu].count == old(zone.free_pages + pcp[cpu].count) + 1
      ensures |old(pcp)[cpu].lists| == MIGRATE_PCPTYPES
      ensures Freed(old(zone.Now()), old(pcp)[cpu], zone.Now(), pcp[cpu], page, BlockType(page), cold)
    {
      hide Zone.Valid, Covers, Sound, Total, Pow2, AllBusy, Distinct, Cacheable, Held, Length, Gains, Returned, Trimmed,
        GivenBack, Leaving, PutBack, NewOn, Stay, OneBack, Put, With, Proper, Zone.InZone, PageSets.BlockType;
      var migratetype := BlockType(page);
      var tag := migratetype;
      OnePage();
      LiveBlock(zone, managed, zone.order, pcp, live, page);
      SoundCpu(zone, managed, zone.order, pcp, live, cpu);
      if migratetype >= MIGRATE_PCPTYPES {
        if migratetype == MIGRATE_ISOLATE {
          zone.FreeOne(page, 0, migratetype);
          BackOne(old(zone.Now()), Cached(page, migratetype), zone.Now());
          FreeBlockSound(zone, managed, old(zone.order), pcp, live, zone.order, page);
          live := live - {page};
          return;
        }
        migratetype := MIGRATE_MOVABLE;
      }
      var p := pcp[cpu];
      var i := if cold then |p.lists[migratetype]| else 0;
      IsPut(p, page, tag, cold, migratetype, i);
      p := p.(count := p.count + 1, lists := With(p.lists, migratetype, i, Cached(page, tag)));
      CacheSound(zone, managed, zone.order, pcp, live, cpu, migratetype, i, Cached(page, tag));
      pcp, live := pcp[cpu := p], live - {page};
      if p.count >= p.high {
        SoundCpu(zone, managed, zone.order, pcp, live, cpu);
        var ls := FreePcppagesBulk(zone, p.batch, p.lists);
        p := p.(count := p.count - p.batch, lists := ls);
        TrimSound(zone, managed, old(zone.order), pcp, live, cpu, zone.order, ls, p.batch);
        pcp := pcp[cpu := p];
      }
    }

    /** __free_pages: mm/page_alloc.c:1410-1418, with __free_pages_ok: mm/page_alloc.c:1392-1408 */
    method FreePages(cpu: nat, page: nat, o: nat)
      requires Valid() && cpu < |pcp| && page in live && live[page] == o
      requires BlockType(page) < MIGRATE_TYPES
      modifies `pcp, `live, zone`order, zone`lists, zone`nr_free, zone`free_pages
      ensures Valid() && live == old(live) - {page}
      ensures |pcp| == |old(pcp)| && forall c :: 0 <= c < |pcp| && c != cpu ==> pcp[c] == old(pcp)[c]
      ensures zone.free_pages + pcp[cpu].count == old(zone.free_pages + pcp[cpu].count) + Pow2(o)
      ensures o > 0 ==> pcp == old(pcp) && Gains(old(zone.order), zone.order, page, o)
      ensures o > 0 ==> NewOn(old(zone.order), zone.lists, zone.order, BlockType(page)) && Stay(old(zone.lists), zone.lists, zone.order)
      ensures o > 0 ==> PutBack(old(zone.lists), zone.lists, zone.order, page, BlockType(page))
      ensures o == 0 ==> |old(pcp)[cpu].lists| == MIGRATE_PCPTYPES && Freed(old(zone.Now()), old(pcp)[cpu], zone.Now(), pcp[cpu], page, BlockType(page), false)
    {
      hide Zone.Valid, Covers, Sound, Total, Pow2, AllBusy, Gains, NewOn, Stay, PutBack, Freed;
      if o == 0 {
        FreeHotColdPage(cpu, page, false);
        OnePage();
      } else {
        var migratetype := BlockType(page);
        LiveBlock(zone, managed, zone.order, pcp, live, page);
        zone.FreeOne(page, o, migratetype);
        FreeBlockSound(zone, managed, old(zone.order), pcp, live, zone.order, page);
        live := live - {page};
      }
    }
  }

  /** The page first on the list of its type if hot, last if cold. */
  function Put(p: Pcp, page: nat, blockType: nat, cold: bool): Pcp
    requires |p.lists| == MIGRATE_PCPTYPES
  {
    var m, c := if blockType < MIGRATE_PCPTYPES then blockType else MIGRATE_MOVABLE, Cached(page, blockType);
    p.(count := p.count + 1, lists := p.lists[m := if cold then p.lists[m] + [c] else [c] + p.lists[m]])
  }

  lemma IsPut(p: Pcp, page: nat, blockType: nat, cold: bool, m: nat, i: nat)
    requires |p.lists| == MIGRATE_PCPTYPES && m == (if blockType < MIGRATE_PCPTYPES then blockType else MIGRATE_MOVABLE)
    requires i == if cold then |p.lists[m]| else 0
    ensures Put(p, page, blockType, cold) == p.(count := p.count + 1, lists := With(p.lists, m, i, Cached(page, blockType)))
  {
    var l, c := p.lists[m], Cached(page, blockType);
    assert l[..i] + [c] + l[i..] == if cold then l + [c] else [c] + l;
  }

  /** What freeing a single page does.  One of an isolated pageblock goes back to the zone;
      others are listed, and when that makes too many a batch leaves the lists for the zone. */
  ghost predicate Freed(s: Books, p0: Pcp, s': Books, p': Pcp, page: nat, blockType: nat, cold: bool)
    requires |p0.lists| == MIGRATE_PCPTYPES
  {
    if blockType == MIGRATE_ISOLATE then OneBack(s, Cached(page, MIGRATE_ISOLATE), s') && p' == p0
    else
      var p := Put(p0, page, blockType, cold);
      if p.count < p.high then p' == p && s' == s
      else
        && p.batch > 0 && p' == p.(count := p.count - p.batch, lists := Trimmed(p.lists, 0, 0, p.batch))
        && Shortened(p.lists, p'.lists) && GivenBack(s, Leaving(p.lists, 0, 0, p.batch), s')
  }

  /** A list that was empty got `batch` pages from the zone, or as many as there were, and
      the first of them was handed out. */
  ghost predicate Refilled(z: Zone, s: Books, p: Pcp, s': Books, p': Pcp, m: nat, cold: bool, mobility_disabled: bool, page: nat)
    requires m < MIGRATE_PCPTYPES && |p.lists| == MIGRATE_PCPTYPES
  {
    exists more: seq<nat> ::
      && |more| + 1 <= p.batch && z.ServedInTurn(s, [page] + more, s', 0, m, mobility_disabled)
      && (|more| + 1 < p.batch ==> Shaped(s'.lists) && Exhausted(s'.lists, 0, m))
      && p' == p.(count := p.count + |more|, lists := p.lists[m := Added([], more, m, cold)])
  }

  lemma ZoneShaped(z: Zone)
    requires z.Valid()
    ensures Shaped(z.lists)
  {
  }

  lemma WithoutEnd(ls: Lists, m: nat, cold: bool)
    requires m < |ls| && ls[m] != []
    ensures Without(ls, m, if cold then |ls[m]| - 1 else 0) == ls[m := if cold then ls[m][..|ls[m]| - 1] else ls[m][1..]]
  {
    var l := ls[m];
    if cold {
      assert l[..|l| - 1] + l[|l|..] == l[..|l| - 1];
    } else {
      assert l[..0] + l[1..] == l[1..];
    }
  }

  /** Hot or cold, it stands where the next page is taken from. */
  lemma FirstTaken(pages: seq<nat>, m: nat, cold: bool)
    requires pages != []
    ensures var l, more := Added([], pages, m, cold), Added([], pages[1..], m, cold);
      if cold then l == more + [Cached(pages[0], m)] else l == [Cached(pages[0], m)] + more
  {
    hide Tagged, Backwards;
    var t, t', c := Tagged(pages, m), Tagged(pages[1..], m), Cached(pages[0], m);
    assert t == [c] + t';
    if cold {
      assert [] + Backwards(t) == [] + Backwards(t') + [c];
    } else {
      assert t + [] == [c] + (t' + []);
    }
  }

  lemma IsRefilled(z: Zone, s: Books, p: Pcp, s': Books, m: nat, cold: bool, mobility_disabled: bool, pages: seq<nat>)
    requires m < MIGRATE_PCPTYPES && |p.lists| == MIGRATE_PCPTYPES && 0 < |pages| <= p.batch
    requires z.ServedInTurn(s, pages, s', 0, m, mobility_disabled)
    requires |pages| < p.batch ==> Shaped(s'.lists) && Exhausted(s'.lists, 0, m)
    ensures Refilled(z, s, p, s', p.(count := p.count + |pages| - 1, lists := p.lists[m := Added([], pages[1..], m, cold)]), m, cold, mobility_disabled, pages[0])
  {
    hide Zone.ServedInTurn, Exhausted, Added;
    assert [pages[0]] + pages[1..] == pages;
  }

  lemma OnePage()
    ensures Pow2(0) == 1
  {
  }

  /** A block that is handed out may be freed. */
  lemma LiveBlock(z: Zone, managed: set<int>, b: Blocks, ps: seq<Pcp>, live: Blocks, p: nat)
    requires Sound(z, managed, b, ps, live) && p in live
    ensures live[p] < MAX_ORDER && p % Pow2(live[p]) == 0 && z.InZone(p, live[p]) && AllBusy(b, p, live[p])
  {
  }

  lemma FreeBlockInZone(z: Zone, o: nat)
    requires z.Valid()
    ensures forall p: nat :: AllFree(z.order, p, o) ==> z.InZone(p, o)
  {
    forall p: nat | AllFree(z.order, p, o)
      ensures z.InZone(p, o)
    {
      hide Covers;
      FreePagesInZone(z);
      assert Inside(p, p, o) && Inside(p + Pow2(o) - 1, p, o);
      assert Covers(z.order, p) && Covers(z.order, p + Pow2(o) - 1);
    }
  }

  lemma TakeBlockSound(z: Zone, managed: set<int>, b: Blocks, ps: seq<Pcp>, live: Blocks, b': Blocks, p: nat, o: nat)
    requires Sound(z, managed, b, ps, live) && Taken(b, b', p, o) && o < MAX_ORDER
    requires AllFree(b, p, o) ==> z.InZone(p, o)
    ensures AllBusy(live, p, o) && Sound(z, managed, b', ps, live[p := o])
  {
    hide Covers, Held, HeldAny, Distinct, Length;
    forall q: int
      ensures HeldAny(ps, q) ==> !Covers(b, q)
      ensures Covers(live, q) ==> !Covers(b, q)
    {
      AnyNotFree(ps, z, b, q);
    }
    assert AllFree(b, p, o);
    AddProper(live, p, o);
    AddGains(live, p, o);
  }

  lemma FreeBlockSound(z: Zone, managed: set<int>, b: Blocks, ps: seq<Pcp>, live: Blocks, b': Blocks, p: nat)
    requires Sound(z, managed, b, ps, live) && p in live && Gains(b, b', p, live[p])
    ensures Sound(z, managed, b', ps, live - {p})
  {
    hide Covers, Held, HeldAny, Distinct, Length;
    RemoveBlock(live, p);
    forall c | 0 <= c < |ps|
      ensures Kept(ps[c], z, b')
    {
      forall m: nat, i: nat | m < |ps[c].lists| && i < |ps[c].lists[m]|
        ensures !Covers(b', ps[c].lists[m][i].page)
      {
        HeldAt(ps[c].lists, m, i);
        HeldSome(ps, c, ps[c].lists[m][i].page);
      }
    }
    forall q: int
      ensures HeldAny(ps, q) ==> !Covers(b, q)
    {
      AnyNotFree(ps, z, b, q);
    }
  }

  /** One page goes from its owner to a list. */
  lemma CacheSound(z: Zone, managed: set<int>, b: Blocks, ps: seq<Pcp>, live: Blocks, cpu: nat, m: nat, i: nat, t: Cached)
    requires Sound(z, managed, b, ps, live) && cpu < |ps| && m < MIGRATE_PCPTYPES && |ps[cpu].lists| == MIGRATE_PCPTYPES
    requires i <= |ps[cpu].lists[m]| && t.page in live && live[t.page] == 0 && t.migratetype < MIGRATE_TYPES
    ensures var p := Pcp(ps[cpu].count + 1, ps[cpu].high, ps[cpu].batch, With(ps[cpu].lists, m, i, t));
      Kept(p, z, b) && Sound(z, managed, b, ps[cpu := p], live - {t.page})
  {
    hide Covers, Held, Proper, Length, HeldAny, Distinct, Cacheable, Sound, Pow2;
    var ls, page := ps[cpu].lists, t.page;
    SoundCpu(z, managed, b, ps, live, cpu);
    SoundLive(z, managed, b, ps, live);
    RemoveBlock(live, page);
    JustOne(page);
    LiveApart(z, managed, b, ps, live, cpu, page);
    assert Inside(page, page, 0);
    PutOn(ls, m, i, t, z, b);
    var p := Pcp(ps[cpu].count + 1, ps[cpu].high, ps[cpu].batch, With(ls, m, i, t));
    forall q: int
      ensures MovedWell(b, ls, live, b, p.lists, live - {page}, q)
    {
      HeldNotFree(ls, z, b, q);
      LiveApart(z, managed, b, ps, live, cpu, q);
    }
    Step(z, managed, b, ps, live, cpu, b, p, live - {page});
  }

  /** The pages that free_pcppages_bulk gave back. */
  lemma TrimSound(z: Zone, managed: set<int>, b: Blocks, ps: seq<Pcp>, live: Blocks, cpu: nat, b': Blocks, ls': Lists, n: nat)
    requires Sound(z, managed, b, ps, live) && cpu < |ps| && |ls'| == MIGRATE_PCPTYPES
    requires Distinct(ls') && Cacheable(ls', z, b') && Length(ls') == ps[cpu].count - n
    requires Returned(ps[cpu].lists, b, ls', b') && forall q: int :: Held(ls', q) ==> Held(ps[cpu].lists, q)
    ensures Sound(z, managed, b', ps[cpu := Pcp(ps[cpu].count - n, ps[cpu].high, ps[cpu].batch, ls')], live)
  {
    hide Covers, Held, Proper, Length, HeldAny, Distinct, Cacheable, Sound, Pow2;
    var p := Pcp(ps[cpu].count - n, ps[cpu].high, ps[cpu].batch, ls');
    SoundCpu(z, managed, b, ps, live, cpu);
    SoundLive(z, managed, b, ps, live);
    forall q: int
      ensures MovedWell(b, ps[cpu].lists, live, b', ls', live, q)
    {
      HeldNotFree(ls', z, b', q);
      LiveApart(z, managed, b, ps, live, cpu, q);
    }
    Step(z, managed, b, ps, live, cpu, b', p, live);
  }

  /** setup_pageset: empty lists, and a batch that trimming never overdraws. */
  predicate Fresh(p: Pcp) {
    p.lists == [[], [], []] && p.count == 0 && 1 <= p.batch <= (if p.high < 1 then 1 else p.high)
  }

  ghost function FreeSet(z: Zone, b: Blocks): set<int> {
    set q: int | z.start_pfn <= q < z.start_pfn + z.spanned && Covers(b, q)
  }

  lemma FreePagesInZone(z: Zone)
    requires z.Valid()
    ensures forall q: int :: Covers(z.order, q) ==> z.start_pfn <= q < z.start_pfn + z.spanned && z.InZone(q, 0)
  {
  }

  lemma FreshSound(z: Zone, b: Blocks, ps: seq<Pcp>)
    requires forall c :: 0 <= c < |ps| ==> Fresh(ps[c])
    requires forall q: int :: Covers(b, q) ==> z.start_pfn <= q < z.start_pfn + z.spanned && z.InZone(q, 0)
    ensures Sound(z, FreeSet(z, b), b, ps, map[])
  {
    hide Covers, Held, Length, Distinct, Cacheable, Proper;
    forall c | 0 <= c < |ps|
      ensures Kept(ps[c], z, b) && forall q: int :: !Held(ps[c].lists, q)
    {
      FreshKept(ps[c], z, b);
    }
    NothingProper();
  }

  lemma FreshKept(p: Pcp, z: Zone, b: Blocks)
    requires Fresh(p)
    ensures Kept(p, z, b) && forall q: int :: !Held(p.lists, q)
  {
    hide Covers, Length, Zone.InZone;
    ThreeEmpty();
  }

  lemma ThreeEmpty()
    ensures Length([[], [], []]) == 0
  {
    var ls: Lists := [[], [], []];
    assert Length(ls[..1]) == 0;
    assert ls[..2][..1] == ls[..1];
    assert Length(ls[..2]) == 0;
  }

  lemma NothingProper()
    ensures Proper(map[]) && forall q: int :: !Covers(map[], q)
  {
  }

  lemma SoundCpu(z: Zone, managed: set<int>, b: Blocks, ps: seq<Pcp>, live: Blocks, cpu: nat)
    requires Sound(z, managed, b, ps, live) && cpu < |ps|
    ensures Kept(ps[cpu], z, b)
  {
  }

  lemma RefillSound(z: Zone, managed: set<int>, b: Blocks, ps: seq<Pcp>, live: Blocks, cpu: nat, b': Blocks, m: nat, pages: seq<nat>, cold: bool)
    requires Sound(z, managed, b, ps, live) && cpu < |ps| && m < MIGRATE_PCPTYPES && |ps[cpu].lists| == MIGRATE_PCPTYPES
    requires ps[cpu].lists[m] == [] && TakenAll(b, b', pages, 0) && forall q: int :: Covers(b, q) ==> z.InZone(q, 0)
    ensures var p := Pcp(ps[cpu].count + |pages|, ps[cpu].high, ps[cpu].batch, ps[cpu].lists[m := Added([], pages, m, cold)]);
      Kept(p, z, b') && Sound(z, managed, b', ps[cpu := p], live)
  {
    hide Covers, Held, Proper, Length, HeldAny, Distinct, Cacheable, Added, Sound;
    var ls := ps[cpu].lists;
    SoundCpu(z, managed, b, ps, live, cpu);
    Refill(ls, m, pages, m, cold, z, b, b');
    var p := Pcp(ps[cpu].count + |pages|, ps[cpu].high, ps[cpu].batch, ls[m := Added([], pages, m, cold)]);
    forall q: int
      ensures MovedWell(b, ls, live, b', p.lists, live, q)
    {
      BulkPages(b, b', pages, q);
      HeldNotFree(ls, z, b, q);
      HeldNotFree(p.lists, z, b', q);
      LiveApart(z, managed, b, ps, live, cpu, q);
    }
    SoundLive(z, managed, b, ps, live);
    Step(z, managed, b, ps, live, cpu, b', p, live);
  }

  lemma BulkPages(b: Blocks, b': Blocks, pages: seq<nat>, q: int)
    requires TakenAll(b, b', pages, 0)
    ensures Covers(b', q) <==> Covers(b, q) && q !in pages
    ensures q in pages ==> Covers(b, q)
  {
  }

  lemma LiveApart(z: Zone, managed: set<int>, b: Blocks, ps: seq<Pcp>, live: Blocks, cpu: nat, q: int)
    requires Sound(z, managed, b, ps, live) && cpu < |ps|
    ensures Covers(live, q) ==> !Covers(b, q) && !Held(ps[cpu].lists, q)
  {
  }

  lemma SoundLive(z: Zone, managed: set<int>, b: Blocks, ps: seq<Pcp>, live: Blocks)
    requires Sound(z, managed, b, ps, live)
    ensures Proper(live) && forall p :: p in live ==> z.InZone(p, live[p])
  {
  }

  /** One page goes from a list to its new owner. */
  lemma HandOutSound(z: Zone, managed: set<int>, b: Blocks, ps: seq<Pcp>, live: Blocks, cpu: nat, m: nat, i: nat)
    requires Sound(z, managed, b, ps, live) && cpu < |ps| && m < MIGRATE_PCPTYPES && |ps[cpu].lists| == MIGRATE_PCPTYPES
    requires i < |ps[cpu].lists[m]|
    ensures var p, q := Pcp(ps[cpu].count - 1, ps[cpu].high, ps[cpu].batch, Without(ps[cpu].lists, m, i)), ps[cpu].lists[m][i].page;
      AllBusy(live, q, 0) && Sound(z, managed, b, ps[cpu := p], live[q := 0])
  {
    hide Covers, Held, Proper, Length, HeldAny, Distinct, Cacheable, Sound, Pow2;
    var ls, page := ps[cpu].lists, ps[cpu].lists[m][i].page;
    SoundCpu(z, managed, b, ps, live, cpu);
    SoundLive(z, managed, b, ps, live);
    TakeOff(ls, m, i, z, b);
    MayFree(ls, m, i, z, b);
    HeldAt(ls, m, i);
    LiveApart(z, managed, b, ps, live, cpu, page);
    JustOne(page);
    AddProper(live, page, 0);
    AddGains(live, page, 0);
    var p := Pcp(ps[cpu].count - 1, ps[cpu].high, ps[cpu].batch, Without(ls, m, i));
    var live' := live[page := 0];
    forall q: int
      ensures MovedWell(b, ls, live, b, p.lists, live', q)
    {
      HeldNotFree(ls, z, b, q);
      LiveApart(z, managed, b, ps, live, cpu, q);
    }
    Step(z, managed, b, ps, live, cpu, b, p, live');
  }
}
