/**
 small/mempool.c: objects of one size in aligned slabs. The slots of a slab are live, on its free
 list, or past free_offset; a slab is full, cold, hot or the spare one.
 */
module Mempool {

  import opened Common
  import opened SlabCacheModel
  import opened SlabCache

  /** The aligned size of struct mslab. */
  const MSLAB_SIZEOF := 112

  /** A slab is recycled once this fraction of it is free. */
  const COLD_FRACTION := 8

  /** What mempool_create_with_order computes; slabs have 2^level bytes. */
  datatype Geo = Geo(objsize: nat, objcount: nat, offset: nat, level: nat)

  ghost predicate GeoOk(g: Geo) {
    g.objsize > 0 && g.objcount > 0 && g.offset > 0 && g.offset + g.objcount * g.objsize == Pow2(g.level)
  }

  lemma Division(room: nat, d: nat)
    requires d > 0
    ensures var n := room / d; n * d <= room < n * d + d && (room >= d ==> n > 0)
  {
    var n := room / d;
    assert room == d * n + room % d;
    if n <= 0 { assert d * n <= 0; }
  }

  /** mempool_create_with_order */
  function Create(objsize: nat, level: nat): Geo
    requires objsize > 0 && Pow2(level) > MSLAB_SIZEOF
  {
    var room := Pow2(level) - MSLAB_SIZEOF;
    Division(room, objsize);
    Geo(objsize, room / objsize, Pow2(level) - room / objsize * objsize, level)
  }

  /** Objects start past the header and fill the slab to its end, and no object more would fit. */
  lemma CreateOk(objsize: nat, level: nat)
    requires objsize > 0 && Pow2(level) >= MSLAB_SIZEOF + objsize
    ensures var g := Create(objsize, level);
            GeoOk(g) && MSLAB_SIZEOF <= g.offset < MSLAB_SIZEOF + objsize
  {
    hide Pow2;
    Division(Pow2(level) - MSLAB_SIZEOF, objsize);
  }

  // ---------- slots ----------

  function OffsetOf(g: Geo, i: int): int { g.offset + i * g.objsize }

  function Slot(g: Geo, a: nat, i: nat): nat { a + OffsetOf(g, i) }

  lemma FitsBelow(x: nat, y: nat, p: nat)
    requires x < y
    ensures x * p + p <= y * p
  {
    var d := y - x - 1;
    assert y * p == x * p + p + d * p;
  }

  /** Masking any pointer into a slot, not just to its start, gives the slab. */
  lemma SlotIn(g: Geo, a: nat, i: nat, d: nat)
    requires GeoOk(g) && Aligned(a, g.level) && i < g.objcount && d < g.objsize
    ensures a < Slot(g, a, i) && Slot(g, a, i) + g.objsize <= a + Pow2(g.level)
    ensures Base(Slot(g, a, i) + d, g.level) == a
  {
    hide Aligned, Pow2, Base;
    FitsBelow(i, g.objcount, g.objsize);
    BaseOf(Slot(g, a, i) + d, a, g.level);
  }

  /** Different slots do not overlap. */
  lemma SlotsApart(g: Geo, a: nat, i: nat, b: nat, j: nat)
    requires GeoOk(g) && Aligned(a, g.level) && Aligned(b, g.level) && i < g.objcount && j < g.objcount
    requires a != b || i != j
    ensures Slot(g, a, i) + g.objsize <= Slot(g, b, j) || Slot(g, b, j) + g.objsize <= Slot(g, a, i)
  {
    hide Aligned, Pow2, Base;
    SlotIn(g, a, i, 0);
    SlotIn(g, b, j, 0);
    if a == b {
      if i < j { FitsBelow(i, j, g.objsize); } else { FitsBelow(j, i, g.objsize); }
    } else {
      Nested(a, g.level, b, g.level);
    }
  }

  lemma SameSlot(g: Geo, a: nat, i: nat, b: nat, j: nat)
    requires GeoOk(g) && Aligned(a, g.level) && Aligned(b, g.level) && i < g.objcount && j < g.objcount
    requires Slot(g, a, i) == Slot(g, b, j)
    ensures a == b && i == j
  {
    if a != b || i != j { SlotsApart(g, a, i, b, j); }
  }

  // ---------- one slab ----------

  /** struct mslab; the free list links pointers to freed objects. */
  datatype Mslab = Mslab(freeList: seq<nat>, freeOffset: nat, nfree: nat, inHot: bool)

  /** mslab_create */
  function Fresh(g: Geo): Mslab { Mslab([], g.offset, g.objcount, false) }

  /** Slots that have ever been handed out. */
  function Touched(g: Geo, m: Mslab): int { |m.freeList| + g.objcount - m.nfree }

  ghost function LiveIn(g: Geo, a: nat, live: set<nat>): set<nat> {
    set i | 0 <= i < g.objcount && Slot(g, a, i) in live
  }

  /** A slot is live, or on the free list, or past free_offset, and just one of these. */
  ghost predicate SlotOk(g: Geo, a: nat, m: Mslab, live: set<nat>, i: nat) {
    var p := Slot(g, a, i);
    && (i < Touched(g, m) <==> (p in live || p in m.freeList))
    && !(p in live && p in m.freeList)
  }

  ghost predicate SlabOk(g: Geo, a: nat, m: Mslab, live: set<nat>) {
    && Aligned(a, g.level) && m.nfree == g.objcount - |LiveIn(g, a, live)|
    && m.freeOffset == OffsetOf(g, Touched(g, m)) && |m.freeList| <= m.nfree
    && (forall i :: 0 <= i < g.objcount ==> SlotOk(g, a, m, live, i))
    && NoDup(m.freeList) && (forall p :: p in m.freeList ==> exists i :: 0 <= i < g.objcount && p == Slot(g, a, i))
  }

  /** mslab_alloc's slot: the head of the free list, or else the first untouched one. */
  function Next(a: nat, m: Mslab): nat { if m.freeList != [] then m.freeList[0] else a + m.freeOffset }

  function Taken(g: Geo, m: Mslab): Mslab
    requires m.nfree > 0
  {
    if m.freeList != [] then m.(freeList := m.freeList[1..], nfree := m.nfree - 1)
    else m.(freeOffset := m.freeOffset + g.objsize, nfree := m.nfree - 1)
  }

  lemma NextSlot(g: Geo, a: nat, m: Mslab, live: set<nat>) returns (i: nat)
    requires GeoOk(g) && SlabOk(g, a, m, live) && m.nfree > 0
    ensures i < g.objcount && Next(a, m) == Slot(g, a, i) && Slot(g, a, i) !in live
    ensures m.freeList == [] ==> i == Touched(g, m)
  {
    if m.freeList != [] {
      assert m.freeList[0] in m.freeList;
      i :| 0 <= i < g.objcount && m.freeList[0] == Slot(g, a, i);
    } else {
      i := Touched(g, m);
    }
    assert SlotOk(g, a, m, live, i);
  }

  lemma LiveMore(g: Geo, a: nat, i: nat, live: set<nat>)
    requires GeoOk(g) && Aligned(a, g.level) && i < g.objcount && Slot(g, a, i) !in live
    ensures LiveIn(g, a, live + {Slot(g, a, i)}) == LiveIn(g, a, live) + {i} && i !in LiveIn(g, a, live)
  {
    forall j | 0 <= j < g.objcount && Slot(g, a, j) == Slot(g, a, i) ensures i == j {
      SameSlot(g, a, i, a, j);
    }
  }

  /** mslab_alloc hands out a slot that was not live. */
  lemma TakenOk(g: Geo, a: nat, m: Mslab, live: set<nat>, i: nat)
    requires GeoOk(g) && SlabOk(g, a, m, live) && m.nfree > 0
    requires i < g.objcount && Next(a, m) == Slot(g, a, i) && Slot(g, a, i) !in live
    requires m.freeList == [] ==> i == Touched(g, m)
    ensures SlabOk(g, a, Taken(g, m), live + {Next(a, m)})
  {
    hide Aligned, Slot, GeoOk, OffsetOf;
    var m', p := Taken(g, m), Next(a, m);
    LiveMore(g, a, i, live);
    TakenSlots(g, a, m, live, i);
    if m.freeList == [] { OffsetStep(g, Touched(g, m)); } else { HeadOut(m.freeList); }
  }

  lemma TakenSlots(g: Geo, a: nat, m: Mslab, live: set<nat>, i: nat)
    requires GeoOk(g) && Aligned(a, g.level) && m.nfree > 0 && NoDup(m.freeList)
    requires i < g.objcount && Next(a, m) == Slot(g, a, i) && Slot(g, a, i) !in live
    requires m.freeList == [] ==> i == Touched(g, m)
    requires forall j :: 0 <= j < g.objcount ==> SlotOk(g, a, m, live, j)
    ensures forall j :: 0 <= j < g.objcount ==> SlotOk(g, a, Taken(g, m), live + {Next(a, m)}, j)
  {
    hide Aligned, Slot, GeoOk;
    if m.freeList != [] { HeadOut(m.freeList); }
    forall j | 0 <= j < g.objcount ensures SlotOk(g, a, Taken(g, m), live + {Next(a, m)}, j) {
      assert SlotOk(g, a, m, live, j);
      if j != i { Distinct(g, a, i, j); }
    }
  }

  lemma OffsetStep(g: Geo, n: int)
    ensures OffsetOf(g, n + 1) == OffsetOf(g, n) + g.objsize
  {
    Times(g.objsize, n);
  }

  lemma Distinct(g: Geo, a: nat, i: nat, j: nat)
    requires GeoOk(g) && Aligned(a, g.level) && i < g.objcount && j < g.objcount && i != j
    ensures Slot(g, a, i) != Slot(g, a, j)
  {
    if Slot(g, a, i) == Slot(g, a, j) { SameSlot(g, a, i, a, j); }
  }

  lemma HeadOut(s: seq<nat>)
    requires s != [] && NoDup(s)
    ensures NoDup(s[1..]) && s[0] !in s[1..] && forall p :: p in s <==> p == s[0] || p in s[1..]
  {
    assert s == [s[0]] + s[1..];
  }

  /** mslab_free's slot update. */
  function Given(m: Mslab, ptr: nat): Mslab { m.(freeList := [ptr] + m.freeList, nfree := m.nfree + 1) }

  lemma GivenOk(g: Geo, a: nat, m: Mslab, live: set<nat>, i: nat)
    requires GeoOk(g) && SlabOk(g, a, m, live) && i < g.objcount && Slot(g, a, i) in live
    ensures SlabOk(g, a, Given(m, Slot(g, a, i)), live - {Slot(g, a, i)}) && m.nfree < g.objcount
  {
    hide Aligned, Slot, GeoOk, OffsetOf, LiveIn;
    var p := Slot(g, a, i);
    var m', live' := Given(m, p), live - {p};
    assert live' + {p} == live;
    LiveMore(g, a, i, live');
    assert SlotOk(g, a, m, live, i);
    GivenSlots(g, a, m, live, i);
  }

  lemma GivenCount(m: Mslab, ptr: nat)
    ensures Given(m, ptr).nfree == m.nfree + 1 && Given(m, ptr).inHot == m.inHot
  {
  }

  lemma GivenSlots(g: Geo, a: nat, m: Mslab, live: set<nat>, i: nat)
    requires GeoOk(g) && Aligned(a, g.level) && i < g.objcount && Slot(g, a, i) in live
    requires forall j :: 0 <= j < g.objcount ==> SlotOk(g, a, m, live, j)
    ensures forall j :: 0 <= j < g.objcount ==>
              SlotOk(g, a, Given(m, Slot(g, a, i)), live - {Slot(g, a, i)}, j)
  {
    hide Aligned, Slot, GeoOk;
    var p := Slot(g, a, i);
    forall j | 0 <= j < g.objcount ensures SlotOk(g, a, Given(m, p), live - {p}, j) {
      assert SlotOk(g, a, m, live, j) && SlotOk(g, a, m, live, i);
      if j != i { Distinct(g, a, i, j); }
    }
  }

  /** A slab all of whose slots are free again holds no live object, and only then. */
  lemma EmptySlab(g: Geo, a: nat, m: Mslab, live: set<nat>)
    requires SlabOk(g, a, m, live)
    ensures m.nfree == g.objcount <==> forall i :: 0 <= i < g.objcount ==> Slot(g, a, i) !in live
    ensures m.nfree == 0 <==> forall i :: 0 <= i < g.objcount ==> Slot(g, a, i) in live
  {
    var s, all := LiveIn(g, a, live), UpTo(g.objcount);
    if forall i :: 0 <= i < g.objcount ==> Slot(g, a, i) !in live {
      assert s == {};
    }
    forall i | 0 <= i < g.objcount ensures i in s <==> Slot(g, a, i) in live {
    }
    if m.nfree == 0 { Subset(s, all); }
    if forall i :: 0 <= i < g.objcount ==> Slot(g, a, i) in live {
      assert s == all;
    }
  }

  ghost function UpTo(n: nat): (s: set<nat>)
    ensures |s| == n && forall i :: i in s <==> 0 <= i < n
  {
    if n == 0 then {} else UpTo(n - 1) + {n - 1}
  }

  lemma Subset(s: set<nat>, t: set<nat>)
    requires s <= t && |s| == |t|
    ensures s == t
  {
    if s != t {
      var x :| x in t && x !in s;
      Smaller(s, t - {x});
    }
  }

  lemma {:induction false} Smaller(s: set<nat>, t: set<nat>)
    requires s <= t
    ensures |s| <= |t|
    decreases t
  {
    if t != {} {
      var x :| x in t;
      Smaller(s - {x}, t - {x});
    }
  }

  /** An object in another slab does not matter. */
  lemma OtherSlab(g: Geo, b: nat, m: Mslab, live: set<nat>, live': set<nat>, a: nat, i: nat)
    requires GeoOk(g) && SlabOk(g, b, m, live) && a != b && Aligned(a, g.level) && i < g.objcount
    requires live' == live + {Slot(g, a, i)} || live' == live - {Slot(g, a, i)}
    ensures SlabOk(g, b, m, live')
  {
    hide Aligned, Slot, GeoOk;
    forall j | 0 <= j < g.objcount ensures Slot(g, b, j) in live <==> Slot(g, b, j) in live' {
      if Slot(g, a, i) == Slot(g, b, j) { SameSlot(g, a, i, b, j); }
    }
    assert LiveIn(g, b, live) == LiveIn(g, b, live');
    forall j | 0 <= j < g.objcount ensures SlotOk(g, b, m, live', j) {
      assert SlotOk(g, b, m, live, j);
    }
  }

  lemma FreshOk(g: Geo, a: nat, live: set<nat>)
    requires GeoOk(g) && Aligned(a, g.level) && forall i :: 0 <= i < g.objcount ==> Slot(g, a, i) !in live
    ensures SlabOk(g, a, Fresh(g), live)
  {
    assert LiveIn(g, a, live) == {};
    forall i | 0 <= i < g.objcount ensures SlotOk(g, a, Fresh(g), live, i) {
    }
  }

  // ---------- the pool ----------

  /** struct mempool: hot is the set of slabs in the hot_slabs tree, cold the cold_slabs list. */
  datatype Pool = Pool(g: Geo, slabs: map<nat, Mslab>, hot: set<nat>, firstHot: Option<nat>, cold: seq<nat>,
                       spare: Option<nat>, used: int, total: int)

  /** A slab is full, or hot, or cold with less than an eighth free, or the spare one. A hot slab is not
      empty, unless slabs have one object each. */
  ghost predicate Placed(p: Pool, a: nat) {
    a in p.slabs && var m := p.slabs[a];
    && (m.inHot <==> a in p.hot) && (m.inHot ==> m.nfree > 0 && (p.g.objcount > 1 ==> m.nfree < p.g.objcount))
    && (p.spare == Some(a) <==> m.nfree == p.g.objcount && !m.inHot)
    && (a in p.cold <==> !m.inHot && 0 < m.nfree < p.g.objcount)
    && (a in p.cold ==> m.nfree < p.g.objcount / COLD_FRACTION)
  }

  /** first_hot_slab is the lowest hot slab. */
  ghost predicate First(hot: set<nat>, first: Option<nat>) {
    if first.None? then hot == {} else first.value in hot && forall b :: b in hot ==> first.value <= b
  }

  ghost predicate InPool(p: Pool, x: nat) {
    exists a, i :: a in p.slabs && 0 <= i < p.g.objcount && x == Slot(p.g, a, i)
  }

  /** All of it but where slab except is placed. */
  ghost predicate InvBut(p: Pool, live: set<nat>, except: set<nat>) {
    && GeoOk(p.g)
    && (forall a :: a in p.slabs ==> SlabOk(p.g, a, p.slabs[a], live))
    && (forall a :: a in p.slabs && a !in except ==> Placed(p, a))
    && p.hot <= p.slabs.Keys && (forall a :: a in p.cold ==> a in p.slabs) && NoDup(p.cold)
    && (p.spare.Some? ==> p.spare.value in p.slabs)
    && (forall x :: x in live ==> InPool(p, x))
    && p.total == Pow2(p.g.level) * |p.slabs|
  }

  /** The size of the live objects. */
  ghost function Bulk(g: Geo, live: set<nat>): int { g.objsize * |live| }

  lemma BulkStep(g: Geo, live: set<nat>, x: nat)
    requires x !in live
    ensures Bulk(g, live + {x}) == Bulk(g, live) + g.objsize
  {
    Times(g.objsize, |live|);
  }

  ghost predicate PoolOk(p: Pool, live: set<nat>) {
    InvBut(p, live, {}) && First(p.hot, p.firstHot) && p.used == Bulk(p.g, live)
  }

  /** Slab a has been chosen to allocate from: it is hot, for all it may still be empty. */
  ghost predicate Ready(p: Pool, live: set<nat>, a: nat) {
    && InvBut(p, live, {a}) && First(p.hot, p.firstHot) && p.used == Bulk(p.g, live)
    && a in p.hot && p.slabs[a].inHot && p.slabs[a].nfree > 0 && p.spare != Some(a) && a !in p.cold
  }

  /** The lowest element, and the one after x, as the tree's first and next find them. */
  ghost predicate IsLeast(s: set<nat>, x: nat) { x in s && forall y :: y in s ==> x <= y }

  lemma {:induction false} LeastExists(s: set<nat>) returns (x: nat)
    requires s != {}
    ensures IsLeast(s, x)
    decreases s
  {
    var z :| z in s;
    x := z;
    if s != {z} {
      var y := LeastExists(s - {z});
      x := if z < y then z else y;
      assert forall v :: v in s ==> v == z || v in s - {z};
    }
  }

  predicate Above(s: set<nat>, x: nat, m: nat) { x < m && forall y :: y in s && x < y ==> m <= y }

  lemma AboveExists(s: set<nat>, x: nat, z: nat)
    requires z in s && x < z
    ensures exists m :: m in s && Above(s, x, m)
  {
    var above := set y | y in s && x < y;
    assert z in above;
    var m := LeastExists(above);
    forall y | y in s && x < y ensures m <= y {
      assert y in above;
    }
    assert m in s && Above(s, x, m);
  }

  /** mslab_tree_next */
  method NextAfter(s: set<nat>, x: nat) returns (r: Option<nat>)
    ensures IsNext(s, x, r)
  {
    hide Above;
    if forall y :: y in s ==> y <= x { return None; }
    ghost var z :| z in s && x < z;
    AboveExists(s, x, z);
    var m :| m in s && Above(s, x, m);
    AboveIs(s, x, m);
    return Some(m);
  }

  lemma AboveIs(s: set<nat>, x: nat, m: nat)
    requires m in s && Above(s, x, m)
    ensures IsNext(s, x, Some(m))
  {
  }

  // ---------- mslab_alloc ----------

  /** next is the slab after a in the tree. */
  function TakeFrom(p: Pool, a: nat, next: Option<nat>): Pool
    requires a in p.slabs && p.slabs[a].nfree > 0
  {
    var m := Taken(p.g, p.slabs[a]);
    var p' := p.(used := p.used + p.g.objsize);
    if m.nfree > 0 then p'.(slabs := p.slabs[a := m])
    else p'.(slabs := p.slabs[a := m.(inHot := false)], hot := p.hot - {a},
             firstHot := if p.firstHot == Some(a) then next else p.firstHot)
  }

  ghost predicate IsNext(hot: set<nat>, a: nat, next: Option<nat>) {
    && (next.None? ==> forall y :: y in hot ==> y <= a)
    && (next.Some? ==> next.value in hot && a < next.value && forall y :: y in hot && a < y ==> next.value <= y)
  }

  lemma FirstWithout(hot: set<nat>, first: Option<nat>, a: nat, next: Option<nat>)
    requires First(hot, first) && a in hot && IsNext(hot, a, next)
    ensures First(hot - {a}, if first == Some(a) then next else first)
  {
  }

  lemma {:induction false} SlabsBut(p: Pool, p': Pool, a: nat, i: nat, live: set<nat>, live': set<nat>)
    requires InvBut(p, live, {a}) && a in p.slabs && i < p.g.objcount
    requires live' == live + {Slot(p.g, a, i)} || live' == live - {Slot(p.g, a, i)}
    requires p'.g == p.g && p'.slabs.Keys == p.slabs.Keys && SlabOk(p.g, a, p'.slabs[a], live')
    requires forall b :: b in p.slabs && b != a ==> p'.slabs[b] == p.slabs[b]
    ensures forall b :: b in p'.slabs ==> SlabOk(p.g, b, p'.slabs[b], live')
    ensures forall x :: x in live' ==> InPool(p', x)
  {
    hide Placed, GeoOk, Slot;
    forall b | b in p'.slabs ensures SlabOk(p.g, b, p'.slabs[b], live') {
      if b != a {
        AlignedSlab(p.g, a, p.slabs[a], live);
        OtherSlab(p.g, b, p.slabs[b], live, live', a, i);
      }
    }
    forall x | x in live' ensures InPool(p', x) {
      if x == Slot(p.g, a, i) {
        assert a in p'.slabs;
      } else {
        assert InPool(p, x);
      }
    }
  }

  lemma AlignedSlab(g: Geo, a: nat, m: Mslab, live: set<nat>)
    requires SlabOk(g, a, m, live)
    ensures Aligned(a, g.level)
  {
  }

  /** mslab_alloc: a slot that was free becomes live, and the slab leaves the tree when full. */
  lemma TakeOk(p: Pool, a: nat, next: Option<nat>, live: set<nat>) returns (i: nat)
    requires Ready(p, live, a) && IsNext(p.hot, a, next)
    ensures a in p.slabs && i < p.g.objcount && Next(a, p.slabs[a]) == Slot(p.g, a, i) && Slot(p.g, a, i) !in live
    ensures PoolOk(TakeFrom(p, a, next), live + {Slot(p.g, a, i)})
  {
    hide GeoOk, Slot, Aligned, SlabOk, InPool, Taken, Next, Placed, Bulk;
    var m, p' := p.slabs[a], TakeFrom(p, a, next);
    i := NextSlot(p.g, a, m, live);
    var live' := live + {Slot(p.g, a, i)};
    TakenOk(p.g, a, m, live, i);
    var m' := Taken(p.g, m);
    NotHotOk(p.g, a, m', live');
    SlabsBut(p, p', a, i, live, live');
    FirstWithout(p.hot, p.firstHot, a, next);
    assert p'.slabs.Keys == p.slabs.Keys;
    BulkStep(p.g, live, Slot(p.g, a, i));
    TakePlaced(p, a, next, live);
  }

  lemma TakePlaced(p: Pool, a: nat, next: Option<nat>, live: set<nat>)
    requires Ready(p, live, a)
    ensures forall b :: b in p.slabs ==> Placed(TakeFrom(p, a, next), b)
  {
    hide Slot, SlabOk, InPool, Taken, First, NoDup;
    var m, p' := p.slabs[a], TakeFrom(p, a, next);
    TakenCount(p.g, m);
    SlabCount(p.g, a, m, live);
    forall b | b in p.slabs ensures Placed(p', b) {
      if b != a { assert Placed(p, b); }
    }
  }

  lemma NotHotOk(g: Geo, a: nat, m: Mslab, live: set<nat>)
    requires SlabOk(g, a, m, live)
    ensures forall b :: SlabOk(g, a, m.(inHot := b), live)
  {
    forall b, i | 0 <= i < g.objcount ensures SlotOk(g, a, m.(inHot := b), live, i) {
      assert SlotOk(g, a, m, live, i);
    }
  }

  lemma TakenCount(g: Geo, m: Mslab)
    requires m.nfree > 0
    ensures Taken(g, m).nfree == m.nfree - 1 && Taken(g, m).inHot == m.inHot
  {
  }

  lemma SlabCount(g: Geo, a: nat, m: Mslab, live: set<nat>)
    requires SlabOk(g, a, m, live)
    ensures m.nfree <= g.objcount
  {
  }

  // ---------- mslab_free ----------

  /** A list without an element, which need not be in it. */
  function Drop(s: seq<nat>, a: nat): seq<nat> {
    if s == [] then [] else if s[0] == a then s[1..] else [s[0]] + Drop(s[1..], a)
  }

  lemma {:induction false} DropOk(s: seq<nat>, a: nat)
    requires NoDup(s)
    ensures NoDup(Drop(s, a)) && forall x :: x in Drop(s, a) <==> x in s && x != a
  {
    if s != [] {
      HeadOut(s);
      DropOk(s[1..], a);
    }
  }

  /** The object is on the free list, and where the slab belongs is open. */
  function GiveBack(p: Pool, a: nat, ptr: nat): Pool
    requires a in p.slabs
  {
    p.(used := p.used - p.g.objsize, slabs := p.slabs[a := Given(p.slabs[a], ptr)])
  }

  /** Where slab a, one of whose objects was just freed, was before. */
  ghost predicate Freed(p: Pool, live: set<nat>, a: nat) {
    && InvBut(p, live, {a}) && First(p.hot, p.firstHot) && p.used == Bulk(p.g, live)
    && a in p.slabs && var m := p.slabs[a];
    && 0 < m.nfree <= p.g.objcount && p.spare != Some(a) && (m.inHot <==> a in p.hot) && (m.inHot ==> m.nfree > 1)
    && (a in p.cold <==> !m.inHot && m.nfree > 1)
    && (a in p.cold ==> m.nfree <= p.g.objcount / COLD_FRACTION)
  }

  lemma GiveBackOk(p: Pool, a: nat, i: nat, live: set<nat>)
    requires PoolOk(p, live) && a in p.slabs && i < p.g.objcount && Slot(p.g, a, i) in live
    ensures Freed(GiveBack(p, a, Slot(p.g, a, i)), live - {Slot(p.g, a, i)}, a)
  {
    hide GeoOk, Slot, Aligned, SlabOk, InPool, Given, Bulk;
    var x := Slot(p.g, a, i);
    var q, live' := GiveBack(p, a, x), live - {x};
    assert Placed(p, a);
    GivenCount(p.slabs[a], x);
    GivenOk(p.g, a, p.slabs[a], live, i);
    SlabsBut(p, q, a, i, live, live');
    assert q.slabs.Keys == p.slabs.Keys;
    assert live == live' + {x};
    BulkStep(p.g, live', x);
    forall b | b in q.slabs && b != a ensures Placed(q, b) {
      assert Placed(p, b);
    }
  }

  /** Slab a's place changes, nothing else. */
  lemma Replace(p: Pool, p': Pool, live: set<nat>, a: nat, hot: bool)
    requires InvBut(p, live, {a}) && a in p.slabs
    requires p' == p.(slabs := p.slabs[a := p.slabs[a].(inHot := hot)], hot := p'.hot, firstHot := p'.firstHot,
                      cold := p'.cold, spare := p'.spare)
    requires forall b :: b != a ==> (b in p'.hot <==> b in p.hot) && (b in p'.cold <==> b in p.cold)
    requires forall b :: b in p.slabs && b != a ==> (p'.spare == Some(b) <==> p.spare == Some(b))
    requires NoDup(p'.cold) && (p'.spare.Some? ==> p'.spare.value in p.slabs)
    ensures InvBut(p', live, {a}) && (Placed(p', a) ==> InvBut(p', live, {}))
  {
    hide GeoOk, Slot, Aligned, SlabOk;
    assert p'.slabs.Keys == p.slabs.Keys;
    NotHotOk(p.g, a, p.slabs[a], live);
    forall b | b in p'.slabs && b != a ensures Placed(p', b) {
      assert Placed(p, b);
    }
    forall x | x in live ensures InPool(p', x) {
      assert InPool(p, x);
    }
  }

  /** To the tree, once an eighth is free. */
  function Warm(p: Pool, a: nat): Pool
    requires a in p.slabs
  {
    p.(slabs := p.slabs[a := p.slabs[a].(inHot := true)], cold := Drop(p.cold, a), hot := p.hot + {a},
       firstHot := if p.firstHot.None? || p.firstHot.value > a then Some(a) else p.firstHot)
  }

  lemma WarmOk(p: Pool, live: set<nat>, a: nat)
    requires Freed(p, live, a) && !p.slabs[a].inHot && p.slabs[a].nfree >= p.g.objcount / COLD_FRACTION
    ensures PoolOk(Warm(p, a), live)
  {
    hide Slot, Aligned, SlabOk, InPool;
    DropOk(p.cold, a);
    Replace(p, Warm(p, a), live, a, true);
  }

  /** With one object per slab, freeing it takes the first branch of mslab_free: the empty slab enters
      the tree, and is neither made the spare one nor given back. */
  lemma OneObject(p: Pool, a: nat, i: nat, live: set<nat>)
    requires PoolOk(p, live) && a in p.slabs && i < p.g.objcount == 1 && Slot(p.g, a, i) in live
    ensures var q := GiveBack(p, a, Slot(p.g, a, i));
            && !q.slabs[a].inHot && q.slabs[a].nfree >= q.g.objcount / COLD_FRACTION
            && PoolOk(Warm(q, a), live - {Slot(p.g, a, i)})
            && a in Warm(q, a).hot && Warm(q, a).slabs[a].nfree == q.g.objcount && Warm(q, a).spare != Some(a)
  {
    hide Slot, Aligned, SlabOk, InPool, PoolOk;
    GiveBackOk(p, a, i, live);
    var x := Slot(p.g, a, i);
    WarmOk(GiveBack(p, a, x), live - {x}, a);
  }

  function Chill(p: Pool, a: nat): Pool { p.(cold := [a] + p.cold) }

  lemma ChillOk(p: Pool, live: set<nat>, a: nat)
    requires Freed(p, live, a) && !p.slabs[a].inHot && p.slabs[a].nfree == 1 < p.g.objcount / COLD_FRACTION
    ensures PoolOk(Chill(p, a), live)
  {
    hide Slot, Aligned, SlabOk, InPool;
    assert p.slabs == p.slabs[a := p.slabs[a].(inHot := false)];
    Replace(p, Chill(p, a), live, a, false);
  }

  lemma StayOk(p: Pool, live: set<nat>, a: nat)
    requires Freed(p, live, a) && 1 < p.slabs[a].nfree < p.g.objcount
    requires p.slabs[a].inHot || p.slabs[a].nfree < p.g.objcount / COLD_FRACTION
    ensures PoolOk(p, live)
  {
    hide Slot, Aligned, SlabOk, InPool;
    assert p.slabs == p.slabs[a := p.slabs[a].(inHot := p.slabs[a].inHot)];
    Replace(p, p, live, a, p.slabs[a].inHot);
  }

  /** An empty slab leaves the tree. */
  function Leave(p: Pool, a: nat, next: Option<nat>): Pool
    requires a in p.slabs
  {
    p.(slabs := p.slabs[a := p.slabs[a].(inHot := false)], hot := p.hot - {a},
       firstHot := if p.firstHot == Some(a) then next else p.firstHot)
  }

  /** slab_list_del: slab s goes back to the slab cache. */
  function Discard(p: Pool, s: nat): Pool { p.(slabs := p.slabs - {s}, total := p.total - Pow2(p.g.level)) }

  /** A slab without live objects is not missed. */
  lemma DiscardOk(p: Pool, live: set<nat>, except: set<nat>, s: nat)
    requires InvBut(p, live, except) && s in p.slabs && p.slabs[s].nfree == p.g.objcount && p.spare != Some(s)
    requires s !in p.hot && s !in p.cold
    ensures InvBut(Discard(p, s), live, except)
    ensures forall i :: 0 <= i < p.g.objcount ==> Slot(p.g, s, i) !in live
  {
    hide GeoOk, Slot, Aligned, SlabOk, Pow2;
    var p' := Discard(p, s);
    EmptySlab(p.g, s, p.slabs[s], live);
    forall b | b in p'.slabs && b !in except ensures Placed(p', b) {
      assert Placed(p, b);
    }
    forall x | x in live ensures InPool(p', x) {
      assert InPool(p, x);
      var b, i :| b in p.slabs && 0 <= i < p.g.objcount && x == Slot(p.g, b, i);
      assert b in p'.slabs;
    }
    assert p'.slabs.Keys == p.slabs.Keys - {s};
    assert |p.slabs| == |p.slabs.Keys| == |p'.slabs| + 1;
    Times(Pow2(p.g.level), |p'.slabs|);
  }

  /** The lowest empty slab becomes or stays the spare one. */
  function SwapSpare(p: Pool, a: nat, next: Option<nat>): Pool
    requires a in p.slabs && p.spare.Some? && p.spare.value != a
  {
    var q := Discard(p.(spare := None), p.spare.value);
    Leave(q, a, next).(spare := Some(a))
  }

  lemma SwapSpareOk(p: Pool, live: set<nat>, a: nat, next: Option<nat>)
    requires Freed(p, live, a) && p.slabs[a].inHot && p.slabs[a].nfree == p.g.objcount && IsNext(p.hot, a, next)
    requires p.spare.Some?
    ensures PoolOk(SwapSpare(p, a, next), live)
  {
    hide Slot, Aligned, SlabOk, InPool, Pow2;
    var s := p.spare.value;
    assert Placed(p, s);
    var p1 := p.(spare := None);
    forall b | b in p.slabs && b != a && b != s ensures Placed(p1, b) {
      assert Placed(p, b);
    }
    StillIn(p, p1, live);
    DiscardOk(p1, live, {a, s}, s);
    var q := Discard(p1, s);
    Replace(q, SwapSpare(p, a, next), live, a, false);
    FirstWithout(p.hot, p.firstHot, a, next);
  }

  lemma LeaveOk(p: Pool, live: set<nat>, a: nat, next: Option<nat>)
    requires Freed(p, live, a) && p.slabs[a].inHot && p.slabs[a].nfree == p.g.objcount && IsNext(p.hot, a, next)
    ensures p.spare.None? ==> PoolOk(Leave(p, a, next).(spare := Some(a)), live)
    ensures PoolOk(Discard(Leave(p, a, next), a), live)
  {
    hide Slot, Aligned, SlabOk, InPool, Pow2;
    var q := Leave(p, a, next);
    FirstWithout(p.hot, p.firstHot, a, next);
    Replace(p, q, live, a, false);
    if p.spare.None? { Replace(p, q.(spare := Some(a)), live, a, false); }
    DiscardOk(q, live, {a}, a);
  }

  // ---------- mempool_alloc: choosing a slab ----------

  /** The slab chosen enters the tree, which was empty. */
  function Enter(p: Pool, a: nat): Pool
    requires a in p.slabs
  {
    p.(slabs := p.slabs[a := p.slabs[a].(inHot := true)], hot := p.hot + {a}, firstHot := Some(a))
  }

  lemma HotReady(p: Pool, live: set<nat>)
    requires PoolOk(p, live) && p.firstHot.Some?
    ensures Ready(p, live, p.firstHot.value)
  {
    hide Slot, Aligned, SlabOk, InPool, Pow2, GeoOk;
    assert Placed(p, p.firstHot.value);
  }

  lemma SpareReady(p: Pool, live: set<nat>)
    requires PoolOk(p, live) && p.hot == {} && p.spare.Some?
    ensures Ready(Enter(p.(spare := None), p.spare.value), live, p.spare.value)
  {
    hide Slot, Aligned, SlabOk, InPool, Pow2;
    var a := p.spare.value;
    assert Placed(p, a);
    Replace(p, Enter(p.(spare := None), a), live, a, true);
  }

  lemma ColdReady(p: Pool, live: set<nat>)
    requires PoolOk(p, live) && p.hot == {} && p.cold != []
    ensures p.cold[0] in p.slabs && Ready(Enter(p.(cold := p.cold[1..]), p.cold[0]), live, p.cold[0])
  {
    hide Slot, Aligned, SlabOk, InPool, Pow2, GeoOk;
    var a := p.cold[0];
    assert Placed(p, a);
    HeadOut(p.cold);
    Replace(p, Enter(p.(cold := p.cold[1..]), a), live, a, true);
  }

  /** A slab from the slab cache, with the header written. */
  function Grow(p: Pool, a: nat): Pool { p.(slabs := p.slabs[a := Fresh(p.g)], total := p.total + Pow2(p.g.level)) }

  /** Nothing is live in a slab that is not the pool's. */
  lemma NotLive(p: Pool, live: set<nat>, a: nat)
    requires InvBut(p, live, {}) && a !in p.slabs && Aligned(a, p.g.level)
    ensures forall i :: 0 <= i < p.g.objcount ==> Slot(p.g, a, i) !in live
  {
    hide Slot, Aligned, SlabOk, Pow2, GeoOk, Placed;
    forall i | 0 <= i < p.g.objcount ensures Slot(p.g, a, i) !in live {
      if Slot(p.g, a, i) in live {
        assert InPool(p, Slot(p.g, a, i));
        var b, j :| b in p.slabs && 0 <= j < p.g.objcount && Slot(p.g, a, i) == Slot(p.g, b, j);
        AlignedSlab(p.g, b, p.slabs[b], live);
        SameSlot(p.g, a, i, b, j);
      }
    }
  }

  lemma GrowOk(p: Pool, live: set<nat>, a: nat)
    requires InvBut(p, live, {}) && a !in p.slabs && Aligned(a, p.g.level)
    ensures InvBut(Grow(p, a), live, {a})
  {
    hide Slot, Aligned, SlabOk, Pow2, GeoOk, InPool;
    var q := Grow(p, a);
    NotLive(p, live, a);
    FreshOk(p.g, a, live);
    forall b | b in p.slabs ensures Placed(q, b) {
      assert Placed(p, b);
    }
    StillIn(p, q, live);
    GrowTotal(p, a);
  }

  lemma GrowTotal(p: Pool, a: nat)
    requires a !in p.slabs && p.total == Pow2(p.g.level) * |p.slabs|
    ensures Grow(p, a).total == Pow2(p.g.level) * |Grow(p, a).slabs|
  {
    hide Pow2;
    var q := Grow(p, a);
    assert q.slabs.Keys == p.slabs.Keys + {a} && |q.slabs| == |q.slabs.Keys| == |p.slabs| + 1;
    Times(Pow2(p.g.level), |p.slabs|);
  }

  lemma StillIn(p: Pool, p': Pool, live: set<nat>)
    requires p'.g == p.g && (forall a :: a in p.slabs ==> a in p'.slabs) && forall x :: x in live ==> InPool(p, x)
    ensures forall x :: x in live ==> InPool(p', x)
  {
    hide Slot;
    forall x | x in live ensures InPool(p', x) {
      assert InPool(p, x);
    }
  }

  lemma GrowReady(p: Pool, live: set<nat>, a: nat)
    requires PoolOk(p, live) && p.hot == {} && a !in p.slabs && Aligned(a, p.g.level)
    ensures Ready(Enter(Grow(p, a), a), live, a)
  {
    hide Slot, Aligned, SlabOk, Pow2, InPool, Placed;
    GrowOk(p, live, a);
    var q := Grow(p, a);
    Replace(q, Enter(q, a), live, a, true);
  }

  /** Every slot of every slab is live. */
  ghost predicate Full(p: Pool, live: set<nat>) {
    forall a, i :: a in p.slabs && 0 <= i < p.g.objcount ==> Slot(p.g, a, i) in live
  }

  /** No slot is free exactly when nothing is hot, cold or spare. */
  lemma AllFull(p: Pool, live: set<nat>)
    requires PoolOk(p, live)
    ensures Full(p, live) <==> p.hot == {} && p.spare.None? && p.cold == []
  {
    hide Slot, Aligned, SlabOk, Pow2, InPool, GeoOk;
    if p.hot == {} && p.spare.None? && p.cold == [] {
      forall a, i | a in p.slabs && 0 <= i < p.g.objcount ensures Slot(p.g, a, i) in live {
        assert Placed(p, a);
        SlabCount(p.g, a, p.slabs[a], live);
        EmptySlab(p.g, a, p.slabs[a], live);
      }
    } else if Full(p, live) {
      var a: nat;
      if p.hot != {} { a :| a in p.hot; } else if p.spare.Some? { a := p.spare.value; } else { a := p.cold[0]; }
      assert Placed(p, a) && p.g.objcount > 0 by { SomeObject(p.g); }
      EmptySlab(p.g, a, p.slabs[a], live);
      assert false;
    }
  }

  lemma SomeObject(g: Geo)
    requires GeoOk(g)
    ensures g.objcount > 0
  {
  }

  // ---------- the pool over its slab cache ----------

  /** Freeing one more object of slab a makes it empty. */
  predicate Retires(p: Pool, a: nat) { a in p.slabs && p.slabs[a].inHot && p.slabs[a].nfree + 1 == p.g.objcount }

  /** Of an empty slab and the spare one, the lower is the spare. */
  function SpareNow(p: Pool, a: nat): Option<nat> {
    if !Retires(p, a) then p.spare
    else if p.spare.Some? && p.spare.value < a then p.spare else Some(a)
  }

  /** The higher goes back to the cache. */
  function PutNow(p: Pool, a: nat): Option<nat> {
    if !Retires(p, a) || p.spare.None? then None
    else if p.spare.value < a then Some(a) else p.spare
  }

  function AsSet(x: Option<nat>): set<nat> { if x.None? then {} else {x.value} }

  /** The pool's slabs are slabs of order that the cache has handed out. */
  ghost predicate Owned(h: Heap, slabs: set<nat>, order: nat) {
    slabs <= Busy(h) && forall a :: a in slabs ==> Order(h, a) == order
  }

  /** The slabs r of others stay as they are. */
  ghost predicate Undisturbed(h: Heap, h': Heap, r: set<nat>) { Kept(h, h', r) && r <= Busy(h') }

  lemma ListCount(c: State)
    requires Inv(c, None)
    ensures |c.lists| == c.h.max + 1
  {
  }

  lemma GrantedOwned(h: Heap, h': Heap, slabs: set<nat>, b: nat, order: nat)
    requires Tiled(h') && Owned(h, slabs, order) && Granted(h, h', b, order)
    ensures Owned(h', slabs + {b}, order) && b !in slabs && b !in Busy(h) && Aligned(b, h'.lb + order)
    ensures Undisturbed(h, h', Busy(h) - slabs) && Busy(h') - (slabs + {b}) == Busy(h) - slabs
  {
    hide Tiled;
    HeaderAt(h', b);
  }

  lemma PutOwned(h: Heap, h': Heap, slabs: set<nat>, b: nat, order: nat)
    requires Owned(h, slabs, order) && Busy(h') == Busy(h) - {b} && Kept(h, h', Busy(h')) && b in slabs
    ensures Owned(h', slabs - {b}, order) && Undisturbed(h, h', Busy(h) - slabs)
    ensures Busy(h') - (slabs - {b}) == Busy(h) - slabs
  {
  }

  lemma SameOwned(h: Heap, slabs: set<nat>)
    requires Tiled(h)
    ensures Undisturbed(h, h, Busy(h) - slabs)
  {
    hide Tiled;
    OthersInMap(h);
  }

  class MemPool {
    const g: Geo
    const order: nat
    const cache: Cache
    var slabs: map<nat, Mslab>
    var hot: set<nat>
    var firstHot: Option<nat>
    var cold: seq<nat>
    var spare: Option<nat>
    var used: int
    var total: int
    /** The objects handed out and not yet freed. */
    ghost var live: set<nat>

    ghost function P(): Pool
      reads this
    {
      Pool(g, slabs, hot, firstHot, cold, spare, used, total)
    }

    ghost predicate Valid()
      reads this, cache
    {
      cache.Valid() && PoolOk(P(), live) && Owned(cache.S().h, slabs.Keys, order) && g.level == cache.lb + order
    }

    constructor (cache: Cache, objsize: nat, order: nat)
      requires cache.Valid() && order <= cache.max && objsize > 0
      requires Pow2(cache.lb + order) >= MSLAB_SIZEOF + objsize
      ensures Valid() && live == {} && this.cache == cache && this.order == order && slabs == map[]
      ensures g.objsize == objsize && g.level == cache.lb + order
    {
      CreateOk(objsize, cache.lb + order);
      g := Create(objsize, cache.lb + order);
      this.order, this.cache := order, cache;
      slabs, hot, firstHot, cold, spare, used, total := map[], {}, None, [], None, 0, 0;
      live := {};
    }

    /** mslab_alloc, and the counting in mempool_alloc. */
    method MslabAlloc(a: nat) returns (ptr: nat)
      requires Ready(P(), live, a)
      modifies this
      ensures PoolOk(P(), live) && slabs.Keys == old(slabs.Keys)
      ensures ptr !in old(live) && live == old(live) + {ptr} && InPool(P(), ptr)
      ensures a in old(slabs) && ptr == Next(a, old(slabs)[a])
      ensures var l := old(slabs)[a].freeList; l != [] ==> ptr == l[0]
    {
      hide GeoOk, Slot, Aligned, SlabOk, InPool, Placed, PoolOk, Pow2, InvBut;
      ReadyFacts(P(), live, a);
      ghost var p, l := P(), live;
      var next := NextAfter(hot, a);
      ghost var i := TakeOk(p, a, next, l);
      used := used + g.objsize;
      var m := slabs[a];
      ptr := Next(a, m);
      m := Taken(g, m);
      slabs := slabs[a := m];
      if m.nfree == 0 {
        if firstHot == Some(a) { firstHot := next; }
        hot := hot - {a};
        slabs := slabs[a := m.(inHot := false)];
      }
      live := live + {ptr};
      assert P() == TakeFrom(p, a, next);
      PointerIn(P(), a, i);
    }

    method Fetch(mapped: Option<nat>) returns (r: Option<nat>)
      requires Valid() && order <= cache.max
      requires mapped.Some? ==> mapped.value !in cache.arena && Aligned(mapped.value, cache.lb + cache.max)
      modifies cache
      ensures cache.Valid() && Undisturbed(old(cache.S().h), cache.S().h, Busy(old(cache.S().h)) - slabs.Keys)
      ensures r.None? <==> mapped.None? && NoneFrom(old(cache.lists), order)
      ensures cache.large == old(cache.large)
      ensures r.None? ==> Owned(cache.S().h, slabs.Keys, order) && cache.S() == old(cache.S())
      ensures r.Some? ==> Busy(cache.S().h) - (slabs.Keys + {r.value}) == Busy(old(cache.S().h)) - slabs.Keys
      ensures r.Some? ==>
                Owned(cache.S().h, slabs.Keys + {r.value}, order) && r.value !in slabs && Aligned(r.value, g.level)
      ensures r.Some? ==> r.value !in Busy(old(cache.S().h))
    {
      hide PoolOk, Pow2, Inv, Tiled, Owned, Undisturbed, Granted, Busy, Kept, Aligned, FirstFit;
      ghost var h := cache.S().h;
      ListCount(cache.S());
      TiledOf(cache.S());
      SameOwned(h, slabs.Keys);
      r := cache.GetWithOrder(order, mapped);
      if r.Some? {
        TiledOf(cache.S());
        GrantedOwned(h, cache.S().h, slabs.Keys, r.value, order);
      }
    }

    /** A slab from the cache joins the pool, if there is one. */
    method Extend(mapped: Option<nat>) returns (r: Option<nat>)
      requires Valid() && order <= cache.max && hot == {}
      requires mapped.Some? ==> mapped.value !in cache.arena && Aligned(mapped.value, cache.lb + cache.max)
      modifies this, cache
      ensures cache.Valid() && Owned(cache.S().h, slabs.Keys, order) && live == old(live)
      ensures r.None? <==> mapped.None? && NoneFrom(old(cache.lists), order)
      ensures r.None? ==> P() == old(P()) && cache.S() == old(cache.S())
      ensures r.Some? ==> r.value in slabs && Ready(Enter(P(), r.value), live, r.value) && r.value !in old(slabs)
      ensures old(slabs.Keys) <= slabs.Keys && slabs.Keys - old(slabs.Keys) !! Busy(old(cache.S().h))
      ensures Undisturbed(old(cache.S().h), cache.S().h, Busy(old(cache.S().h)) - old(slabs.Keys))
      ensures Busy(cache.S().h) - slabs.Keys == Busy(old(cache.S().h)) - old(slabs.Keys)
      ensures cache.large == old(cache.large)
    {
      hide PoolOk, Ready, Pow2, Inv, Owned, Undisturbed, Aligned, Busy;
      r := Fetch(mapped);
      if r.Some? {
        var slab := r.value;
        GrowReady(P(), live, slab);
        assert slabs[slab := Fresh(g)].Keys == slabs.Keys + {slab};
        slabs := slabs[slab := Fresh(g)];
        total := total + Pow2(g.level);
      }
    }

    /** The slab to allocate from: the lowest hot one, the spare one, a new one or a cold one. */
    method Choose(mapped: Option<nat>) returns (r: Option<nat>)
      requires Valid() && order <= cache.max
      requires mapped.Some? ==> mapped.value !in cache.arena && Aligned(mapped.value, cache.lb + cache.max)
      modifies this, cache
      ensures cache.Valid() && Owned(cache.S().h, slabs.Keys, order) && live == old(live)
      ensures r.None? <==> mapped.None? && NoneFrom(old(cache.lists), order) && Full(old(P()), old(live))
      ensures r.None? ==> P() == old(P()) && cache.S() == old(cache.S())
      ensures r.Some? ==> Ready(P(), live, r.value)
      ensures old(firstHot).Some? ==> r == old(firstHot) && P() == old(P())
      ensures old(firstHot).None? && old(spare).Some? ==> r == old(spare)
      ensures old(firstHot).None? && old(spare).None? && r.Some? ==>
                || r.value !in old(slabs)
                || (old(cold) != [] && r.value == old(cold)[0] && mapped.None? && NoneFrom(old(cache.lists), order))
      ensures old(slabs.Keys) <= slabs.Keys && slabs.Keys - old(slabs.Keys) !! Busy(old(cache.S().h))
      ensures Undisturbed(old(cache.S().h), cache.S().h, Busy(old(cache.S().h)) - old(slabs.Keys))
      ensures Busy(cache.S().h) - slabs.Keys == Busy(old(cache.S().h)) - old(slabs.Keys)
      ensures cache.large == old(cache.large)
    {
      hide PoolOk, Ready, Pow2, Inv, Tiled, Owned, Undisturbed, Granted, Busy, Kept, Aligned, Full;
      ghost var p, h := P(), cache.S().h;
      TiledOf(cache.S());
      SameOwned(h, slabs.Keys);
      HotIff(p, live);
      AllFull(p, live);
      r := firstHot;
      if r.None? {
        if spare.Some? {
          SpareReady(p, live);
          r := spare;
          spare := None;
        } else {
          r := Extend(mapped);
          if r.None? {
            if cold == [] { return; }
            ColdReady(p, live);
            r := Some(cold[0]);
            cold := cold[1..];
          }
        }
        var slab := r.value;
        assert slabs[slab := slabs[slab].(inHot := true)].Keys == slabs.Keys;
        slabs := slabs[slab := slabs[slab].(inHot := true)];
        hot := hot + {slab};
        firstHot := r;
      } else {
        HotReady(p, live);
      }
    }

    /** mempool_alloc; mapped is what slab_map would give. */
    method Alloc(mapped: Option<nat>) returns (r: Option<nat>)
      requires Valid() && order <= cache.max
      requires mapped.Some? ==> mapped.value !in cache.arena && Aligned(mapped.value, cache.lb + cache.max)
      modifies this, cache
      ensures Valid()
      ensures r.Some? ==> r.value !in old(live) && live == old(live) + {r.value} && InPool(P(), r.value)
      ensures r.None? <==> mapped.None? && NoneFrom(old(cache.lists), order) && Full(old(P()), old(live))
      ensures r.None? ==> P() == old(P()) && live == old(live) && cache.S() == old(cache.S())
      ensures old(firstHot).Some? ==>
                var a := old(firstHot).value; a in old(slabs) && r == Some(Next(a, old(slabs)[a]))
      ensures old(slabs.Keys) <= slabs.Keys && slabs.Keys - old(slabs.Keys) !! Busy(old(cache.S().h))
      ensures Undisturbed(old(cache.S().h), cache.S().h, Busy(old(cache.S().h)) - old(slabs.Keys))
      ensures Busy(cache.S().h) - slabs.Keys == Busy(old(cache.S().h)) - old(slabs.Keys)
      ensures cache.large == old(cache.large)
    {
      hide PoolOk, Ready, Pow2, Inv, Tiled, Owned, Undisturbed, Granted, Busy, Kept, Aligned, Slot, InPool, Full;
      r := Choose(mapped);
      if r.None? { return; }
      var ptr := MslabAlloc(r.value);
      r := Some(ptr);
    }

    /** mslab_free's own changes; put is the slab to return to the cache, if any. */
    method MslabFree(a: nat, ptr: nat) returns (put: Option<nat>)
      requires PoolOk(P(), live) && a in slabs && InPool(P(), ptr) && ptr in live
      requires exists i :: 0 <= i < g.objcount && ptr == Slot(g, a, i)
      modifies this
      ensures PoolOk(P(), live) && live == old(live) - {ptr}
      ensures put == PutNow(old(P()), a) && spare == SpareNow(old(P()), a)
      ensures put.None? ==> slabs.Keys == old(slabs.Keys)
      ensures put.Some? ==> put.value in old(slabs.Keys) && slabs.Keys == old(slabs.Keys) - {put.value}
    {
      hide PoolOk, Pow2, Slot, InPool, Freed;
      StillPlaced(P(), live, a);
      ghost var i :| 0 <= i < g.objcount && ptr == Slot(g, a, i);
      GiveBackOk(P(), a, i, live);
      put := None;
      used := used - g.objsize;
      var m := Given(slabs[a], ptr);
      slabs := slabs[a := m];
      live := live - {ptr};
      ghost var p := P();
      FreedFacts(p, live, a);
      if !m.inHot && m.nfree >= g.objcount / COLD_FRACTION {
        WarmOk(p, live, a);
        cold := Drop(cold, a);
        hot := hot + {a};
        slabs := slabs[a := m.(inHot := true)];
        if firstHot.None? || firstHot.value > a { firstHot := Some(a); }
        assert P() == Warm(p, a);
      } else if m.nfree == 1 {
        ChillOk(p, live, a);
        cold := [a] + cold;
      } else if m.nfree == g.objcount {
        put := Retire(a);
      } else {
        StayOk(p, live, a);
      }
    }

    /** The end of mslab_free, for a slab that has become empty. */
    method Retire(a: nat) returns (put: Option<nat>)
      requires Freed(P(), live, a) && slabs[a].inHot && slabs[a].nfree == g.objcount
      modifies this
      ensures PoolOk(P(), live) && live == old(live)
      ensures put.None? ==> slabs.Keys == old(slabs.Keys)
      ensures put.Some? ==> put.value in old(slabs.Keys) && slabs.Keys == old(slabs.Keys) - {put.value}
      ensures put == if old(spare).Some? && old(spare).value < a then Some(a) else old(spare)
      ensures spare == Some(if old(spare).Some? && old(spare).value < a then old(spare).value else a)
    {
      hide PoolOk, Pow2, Freed;
      ghost var p := P();
      FreedFacts(p, live, a);
      put := None;
      var next := NextAfter(hot, a);
      LeaveOk(p, live, a, next);
      if firstHot == Some(a) { firstHot := next; }
      hot := hot - {a};
      slabs := slabs[a := slabs[a].(inHot := false)];
      assert P() == Leave(p, a, next) && slabs.Keys == old(slabs.Keys);
      if spare.Some? && spare.value > a {
        SwapSpareOk(p, live, a, next);
        put := spare;
        slabs := slabs - {put.value};
        total := total - Pow2(g.level);
        spare := Some(a);
        assert P().slabs == SwapSpare(p, a, next).slabs;
        assert P() == SwapSpare(p, a, next);
      } else if spare.Some? {
        put := Some(a);
        slabs := slabs - {a};
        total := total - Pow2(g.level);
      } else {
        spare := Some(a);
      }
    }

    /** mempool_free_slab, with the slab that the object lies in. */
    method FreeSlab(slab: nat, ptr: nat)
      requires Valid() && ptr in live && slab == Base(ptr, g.level)
      modifies this, cache
      ensures Valid() && live == old(live) - {ptr}
      ensures var a := Base(ptr, g.level);
              spare == SpareNow(old(P()), a) && slabs.Keys == old(slabs.Keys) - AsSet(PutNow(old(P()), a))
      ensures Undisturbed(old(cache.S().h), cache.S().h, Busy(old(cache.S().h)) - old(slabs.Keys))
      ensures Busy(cache.S().h) - slabs.Keys == Busy(old(cache.S().h)) - old(slabs.Keys)
      ensures cache.large == old(cache.large)
    {
      hide PoolOk, Pow2, Inv, Tiled, Owned, Undisturbed, Busy, Kept, Base;
      ghost var h, keys := cache.S().h, slabs.Keys;
      TiledOf(cache.S());
      SameOwned(h, keys);
      OwnerOf(P(), live, ptr);
      var put := MslabFree(slab, ptr);
      if put.Some? {
        assert put.value in Busy(h) by { OwnedBusy(h, keys, order, put.value); }
        var unmapped := cache.PutWithOrder(put.value);
        PutOwned(h, cache.S().h, keys, put.value, order);
      }
    }

    /** mempool_free: the slab is found by masking the pointer. */
    method Free(ptr: nat)
      requires Valid() && ptr in live
      modifies this, cache
      ensures Valid() && live == old(live) - {ptr}
      ensures var a := Base(ptr, g.level);
              spare == SpareNow(old(P()), a) && slabs.Keys == old(slabs.Keys) - AsSet(PutNow(old(P()), a))
      ensures Undisturbed(old(cache.S().h), cache.S().h, Busy(old(cache.S().h)) - old(slabs.Keys))
      ensures Busy(cache.S().h) - slabs.Keys == Busy(old(cache.S().h)) - old(slabs.Keys)
      ensures cache.large == old(cache.large)
    {
      var slab := Base(ptr, g.level);
      FreeSlab(slab, ptr);
    }

    /** mempool_free_spare_slab */
    method FreeSpare()
      requires Valid() && spare.Some?
      modifies this, cache
      ensures Valid() && live == old(live) && spare.None? && slabs.Keys == old(slabs.Keys) - {old(spare).value}
      ensures Undisturbed(old(cache.S().h), cache.S().h, Busy(old(cache.S().h)) - old(slabs.Keys))
      ensures Busy(cache.S().h) - slabs.Keys == Busy(old(cache.S().h)) - old(slabs.Keys)
      ensures cache.large == old(cache.large)
    {
      hide PoolOk, Pow2, Inv, Tiled, Owned, Undisturbed, Busy, Kept;
      ghost var h, keys := cache.S().h, slabs.Keys;
      var s := spare.value;
      DropSpare(P(), live);
      slabs := slabs - {s};
      total := total - Pow2(g.level);
      spare := None;
      assert slabs.Keys == keys - {s};
      assert P() == Discard(old(P()).(spare := None), s);
      assert s in Busy(h) by { OwnedBusy(h, keys, order, s); }
      var unmapped := cache.PutWithOrder(s);
      PutOwned(h, cache.S().h, keys, s, order);
    }
  }

  lemma StillPlaced(p: Pool, live: set<nat>, a: nat)
    requires PoolOk(p, live) && a in p.slabs
    ensures p.slabs[a].inHot ==> p.slabs[a].nfree > 0
  {
    hide SlabOk, Slot, GeoOk;
    assert Placed(p, a);
  }

  lemma FreedFacts(p: Pool, live: set<nat>, a: nat)
    requires Freed(p, live, a)
    ensures p.g.objcount > 0 && p.g.objcount / COLD_FRACTION < p.g.objcount && a in p.slabs
    ensures 0 < p.slabs[a].nfree <= p.g.objcount
    ensures p.slabs[a].nfree == 1 ==> !p.slabs[a].inHot
    ensures p.spare.Some? ==> p.spare.value in p.slabs && p.spare.value != a
  {
    hide SlabOk, Slot, Placed;
  }

  lemma OwnedBusy(h: Heap, slabs: set<nat>, order: nat, a: nat)
    requires Owned(h, slabs, order) && a in slabs
    ensures a in Busy(h)
  {
  }

  /** The mask leads from an object to its slab. */
  lemma OwnerOf(p: Pool, live: set<nat>, ptr: nat)
    requires PoolOk(p, live) && ptr in live
    ensures var a := Base(ptr, p.g.level);
            a in p.slabs && InPool(p, ptr) && exists i :: 0 <= i < p.g.objcount && ptr == Slot(p.g, a, i)
  {
    hide Placed, SlabOk, Base, GeoOk, Slot;
    assert InPool(p, ptr);
    var a, i :| a in p.slabs && 0 <= i < p.g.objcount && ptr == Slot(p.g, a, i);
    AlignedSlab(p.g, a, p.slabs[a], live);
    ObjectPositive(p.g);
    SlotIn(p.g, a, i, 0);
  }

  lemma ObjectPositive(g: Geo)
    requires GeoOk(g)
    ensures g.objsize > 0
  {
  }

  lemma DropSpare(p: Pool, live: set<nat>)
    requires PoolOk(p, live) && p.spare.Some?
    ensures p.spare.value in p.slabs && PoolOk(Discard(p.(spare := None), p.spare.value), live)
  {
    hide SlabOk, InPool, Pow2;
    var s, p1 := p.spare.value, p.(spare := None);
    assert Placed(p, s);
    forall b | b in p.slabs && b != s ensures Placed(p1, b) {
      assert Placed(p, b);
    }
    StillIn(p, p1, live);
    DiscardOk(p1, live, {s}, s);
  }

  lemma ReadyFacts(p: Pool, live: set<nat>, a: nat)
    requires Ready(p, live, a)
    ensures a in p.slabs && p.slabs[a].nfree > 0
  {
    hide SlabOk, GeoOk, Placed;
  }

  lemma HotIff(p: Pool, live: set<nat>)
    requires PoolOk(p, live)
    ensures p.firstHot.None? <==> p.hot == {}
    ensures p.spare.Some? ==> p.spare.value in p.slabs
    ensures forall a :: a in p.cold ==> a in p.slabs
  {
    hide SlabOk, GeoOk, Placed;
  }

  lemma PointerIn(p: Pool, a: nat, i: nat)
    requires a in p.slabs && i < p.g.objcount
    ensures InPool(p, Slot(p.g, a, i))
  {
  }
}
