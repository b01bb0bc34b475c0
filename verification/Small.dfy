/**
 small/small.c: the allocator for small objects, over one memory pool per size class and one slab
 cache below them all.
 */
module Small {

  import opened Common
  import opened SmallClass
  import opened SmallModel
  import Mem = Mempool
  import Slabs = SlabCache
  import Heap = SlabCacheModel

  /** Waste below this part of the group's limit lets an empty pool be deactivated. */
  const IDLE_FRACTION := 4

  // ---------- the pools' books ----------

  /** The mutable part of struct small_alloc's pools and groups, and the live objects. */
  datatype Books = Books(active: seq<set<nat>>, used: seq<nat>, waste: seq<int>, objs: map<nat, Obj>, over: seq<int>)

  ghost predicate Grouped(groups: seq<Group>, orders: seq<nat>, groupOf: seq<nat>) {
    && GroupsTo(groups, orders, |orders|) && |groupOf| == |orders|
    && forall p :: 0 <= p < |orders| ==>
         groupOf[p] < |groups| && groups[groupOf[p]].first <= p <= groups[groupOf[p]].last
  }

  /** The pools that objects of one class may come from. */
  predicate Together(groupOf: seq<nat>, p: nat, q: nat) { p < |groupOf| && q < |groupOf| && groupOf[p] == groupOf[q] }

  /** Each pool allocates from the lowest active pool at or above it, and its waste is what its
      live objects lose in the pools they came from, and over what was charged too much. */
  ghost predicate BooksOk(b: Books, sizes: seq<nat>, groups: seq<Group>, groupOf: seq<nat>) {
    && |b.active| == |groups| && |b.used| == |b.waste| == |b.over| == |sizes| == |groupOf|
    && (forall k :: 0 <= k < |groups| ==> Selected(groups[k], b.active[k], b.used))
    && (forall x :: x in b.objs ==>
          Together(groupOf, b.objs[x].cls, b.objs[x].owner) && b.objs[x].cls <= b.objs[x].owner)
    && (forall p :: 0 <= p < |sizes| ==> b.over[p] >= 0 && b.waste[p] == Owed(sizes, b.objs, p) + b.over[p])
  }

  /** The pool a class allocates from is in its group. */
  lemma UsedTogether(b: Books, sizes: seq<nat>, groups: seq<Group>, orders: seq<nat>, groupOf: seq<nat>, p: nat)
    requires BooksOk(b, sizes, groups, groupOf) && Grouped(groups, orders, groupOf) && p < |groupOf|
    ensures |b.used| == |b.waste| == |b.over| == |groupOf| && |b.active| == |groups|
    ensures groupOf[p] < |groups| && groups[groupOf[p]].first <= p
    ensures p <= b.used[p] < |groupOf| && Together(groupOf, p, b.used[p])
    ensures Active(groups[groupOf[p]], b.active[groupOf[p]], b.used[p])
    ensures forall r :: p <= r < b.used[p] ==> !Active(groups[groupOf[p]], b.active[groupOf[p]], r)
  {
    hide Owed;
    var k := groupOf[p];
    assert Serves(groups[k], b.active[k], p, b.used[p]);
    GroupsApart(groups, orders, k, groupOf[b.used[p]], b.used[p]);
  }

  lemma ObjTogether(b: Books, sizes: seq<nat>, groups: seq<Group>, groupOf: seq<nat>, x: nat)
    requires BooksOk(b, sizes, groups, groupOf) && x in b.objs
    ensures Together(groupOf, b.objs[x].cls, b.objs[x].owner) && |groupOf| == |sizes|
  {
    hide Owed, Selected;
  }

  lemma GroupsApart(groups: seq<Group>, orders: seq<nat>, k: nat, l: nat, p: nat)
    requires GroupsTo(groups, orders, |orders|) && k < |groups| && l < |groups|
    requires groups[k].first <= p <= groups[k].last && groups[l].first <= p <= groups[l].last
    ensures k == l
  {
    if k < l { Before(groups, orders, k, l); } else if l < k { Before(groups, orders, l, k); }
  }

  lemma {:induction false} Before(groups: seq<Group>, orders: seq<nat>, k: nat, l: nat)
    requires GroupsTo(groups, orders, |orders|) && k < l < |groups|
    ensures groups[k].last < groups[l].first
    decreases l
  {
    assert groups[l - 1 + 1].first == groups[l - 1].last + 1 && GroupOk(groups[l - 1], orders);
    if k < l - 1 { Before(groups, orders, k, l - 1); }
  }

  /** Pools that serve one class have slabs of one order. */
  lemma SameOrder(groups: seq<Group>, orders: seq<nat>, groupOf: seq<nat>, p: nat, q: nat)
    requires Grouped(groups, orders, groupOf) && Together(groupOf, p, q)
    ensures orders[p] == orders[q]
  {
    assert GroupOk(groups[groupOf[p]], orders);
  }

  /** A group's mask changes, and with it the pools its members allocate from. */
  lemma Reselected(b: Books, b': Books, sizes: seq<nat>, groups: seq<Group>, orders: seq<nat>, groupOf: seq<nat>,
                   k: nat)
    requires BooksOk(b, sizes, groups, groupOf) && Grouped(groups, orders, groupOf) && k < |groups|
    requires b' == b.(active := b'.active, used := b'.used) && |b'.active| == |b.active| && |b'.used| == |b.used|
    requires forall l :: 0 <= l < |groups| && l != k ==> b'.active[l] == b.active[l]
    requires Selected(groups[k], b'.active[k], b'.used)
    requires forall p :: 0 <= p < |b.used| && !(groups[k].first <= p <= groups[k].last) ==> b'.used[p] == b.used[p]
    ensures BooksOk(b', sizes, groups, groupOf)
  {
    hide Owed;
    forall l | 0 <= l < |groups| ensures Selected(groups[l], b'.active[l], b'.used) {
      if l != k {
        forall p | groups[l].first <= p <= groups[l].last ensures Serves(groups[l], b'.active[l], p, b'.used[p]) {
          if groups[k].first <= p <= groups[k].last { GroupsApart(groups, orders, k, l, p); }
        }
      }
    }
  }

  /** With fewer pools active, a class is served by a pool not smaller. */
  lemma FewerServe(g: Group, active: set<nat>, active': set<nat>, p: nat, q: nat, q': nat)
    requires Serves(g, active, p, q) && Serves(g, active', p, q') && active' <= active
    ensures q <= q'
  {
    assert Active(g, active, q');
  }

  /** smalloc's bookkeeping: class p got x from pool q, and is charged for the pool now in use. */
  function Charge(b: Books, sizes: seq<nat>, p: nat, q: nat, x: nat): Books
    requires p < |sizes| == |b.used| == |b.waste| == |b.over| && q < |sizes| && b.used[p] < |sizes|
  {
    var u := SizeAt(sizes, b.used[p]);
    b.(waste := b.waste[p := b.waste[p] + u - SizeAt(sizes, p)], objs := b.objs[x := Obj(p, q)],
       over := b.over[p := b.over[p] + u - SizeAt(sizes, q)])
  }

  ghost predicate Increasing(sizes: seq<nat>) { forall i, j :: 0 <= i < j < |sizes| ==> sizes[i] < sizes[j] }

  lemma ChargeOk(b: Books, sizes: seq<nat>, groups: seq<Group>, groupOf: seq<nat>, p: nat, q: nat, x: nat)
    requires BooksOk(b, sizes, groups, groupOf) && Increasing(sizes) && x !in b.objs
    requires p < |sizes| && p <= q <= b.used[p] < |sizes| && Together(groupOf, p, q)
    ensures BooksOk(Charge(b, sizes, p, q, x), sizes, groups, groupOf)
  {
    hide Owed;
    var c := Charge(b, sizes, p, q, x);
    forall r | 0 <= r < |sizes| ensures c.over[r] >= 0 && c.waste[r] == Owed(sizes, c.objs, r) + c.over[r] {
      OwedMore(sizes, b.objs, r, x, Obj(p, q));
      assert q < b.used[p] ==> sizes[q] < sizes[b.used[p]];
    }
  }

  /** smfree's bookkeeping. */
  function Discharge(b: Books, sizes: seq<nat>, p: nat, q: nat, x: nat): Books
    requires p < |sizes| == |b.waste| && q < |sizes|
  {
    b.(waste := b.waste[p := b.waste[p] - (SizeAt(sizes, q) - SizeAt(sizes, p))], objs := b.objs - {x})
  }

  /** The waste suffices for the subtraction. */
  lemma DischargeOk(b: Books, sizes: seq<nat>, groups: seq<Group>, groupOf: seq<nat>, p: nat, q: nat, x: nat)
    requires BooksOk(b, sizes, groups, groupOf) && Increasing(sizes) && x in b.objs && b.objs[x] == Obj(p, q)
    ensures p <= q < |sizes| == |b.waste| && b.waste[p] >= SizeAt(sizes, q) - SizeAt(sizes, p) >= 0
    ensures BooksOk(Discharge(b, sizes, p, q, x), sizes, groups, groupOf)
  {
    hide Owed;
    assert Together(groupOf, p, q);
    var c := Discharge(b, sizes, p, q, x);
    assert p < q ==> sizes[p] < sizes[q];
    forall r | 0 <= r < |sizes| ensures c.waste[r] == Owed(sizes, c.objs, r) + c.over[r] {
      OwedOne(sizes, b.objs, r, x);
    }
    forall y | y in c.objs ensures Excess(sizes, c.objs[y], p) >= 0 {
      var o := b.objs[y];
      assert Together(groupOf, o.cls, o.owner) && (o.cls < o.owner ==> sizes[o.cls] < sizes[o.owner]);
    }
    OwedCovers(sizes, c.objs, p);
  }

  // ---------- the allocator over its pools ----------

  /** Slabs of two pools are different blocks, so no pointer is in both. */
  lemma NotShared(h: Heap.Heap, p: Mem.Pool, q: Mem.Pool, o: nat, r: nat, x: nat)
    requires Heap.Tiled(h) && Mem.Owned(h, p.slabs.Keys, o) && Mem.Owned(h, q.slabs.Keys, r)
    requires p.g.level == h.lb + o && q.g.level == h.lb + r && p.slabs.Keys !! q.slabs.Keys
    requires Mem.GeoOk(p.g) && Mem.GeoOk(q.g)
    requires Mem.InPool(p, x)
    ensures !Mem.InPool(q, x)
  {
    if Mem.InPool(q, x) {
      var a, i :| a in p.slabs && 0 <= i < p.g.objcount && x == Mem.Slot(p.g, a, i);
      var b, j :| b in q.slabs && 0 <= j < q.g.objcount && x == Mem.Slot(q.g, b, j);
      SlotHeld(h, p, o, a, i);
      SlotHeld(h, q, r, b, j);
      Heap.Overlap(h, a, b, x);
    }
  }

  lemma SlotHeld(h: Heap.Heap, p: Mem.Pool, o: nat, a: nat, i: nat)
    requires Heap.Tiled(h) && Mem.Owned(h, p.slabs.Keys, o) && p.g.level == h.lb + o && Mem.GeoOk(p.g)
    requires a in p.slabs && i < p.g.objcount
    ensures Heap.Holds(h, a, Mem.Slot(p.g, a, i)) && Mem.Slot(p.g, a, i) + p.g.objsize <= Heap.End(h, a)
  {
    hide Heap.Tiled, Pow2;
    Heap.HeaderAt(h, a);
    Mem.SlotIn(p.g, a, i, 0);
  }

  // ---------- creation ----------

  /** mempool_create: the order of slabs that hold about a hundred objects or headers. */
  function PoolOrder(lb: nat, max: nat, objsize: nat): int {
    var overhead := if objsize > Mem.MSLAB_SIZEOF then objsize else Mem.MSLAB_SIZEOF;
    Slabs.SlabOrder(lb, max, if 100 * overhead > Pow2(lb + max) then Pow2(lb + max) else 100 * overhead)
  }

  predicate Enough(lb: nat, o: nat, objsize: nat) {
    Pow2(lb + o) >= 100 * objsize && Pow2(lb + o) >= 100 * Mem.MSLAB_SIZEOF
  }

  /** The least order, or the largest, whose slabs hold a hundred objects and a hundred headers. */
  lemma PoolOrderOk(lb: nat, max: nat, objsize: nat)
    requires Pow2(lb + max) >= Mem.MSLAB_SIZEOF + objsize
    ensures var o := PoolOrder(lb, max, objsize);
            && 0 <= o <= max && Pow2(lb + o) >= Mem.MSLAB_SIZEOF + objsize
            && (o == max || Enough(lb, o, objsize)) && forall i: nat :: i < o ==> !Enough(lb, i, objsize)
  {
    hide Pow2, Slabs.SlabOrder;
    var overhead := if objsize > Mem.MSLAB_SIZEOF then objsize else Mem.MSLAB_SIZEOF;
    var size := if 100 * overhead > Pow2(lb + max) then Pow2(lb + max) else 100 * overhead;
    Slabs.SlabOrderIsLeast(lb, max, size);
    var o := PoolOrder(lb, max, objsize);
    if o < max { Slabs.Pow2Grows(lb + o, lb + max); }
    forall i: nat | i < o ensures !Enough(lb, i, objsize) {
      assert Slabs.OrderSize(lb, i) < size;
    }
  }

  lemma Within(c: Class, sizes: seq<nat>, objsizeMax: nat)
    requires SizesOk(c, sizes) && sizes[0] > 0 && sizes[|sizes| - 1] <= objsizeMax
    ensures |sizes| > 0 && forall i :: 0 <= i < |sizes| ==> 0 < sizes[i] <= objsizeMax
  {
    forall i | 0 <= i < |sizes| ensures 0 < sizes[i] <= objsizeMax {
      assert i > 0 ==> sizes[0] < sizes[i];
      assert i < |sizes| - 1 ==> sizes[i] < sizes[|sizes| - 1];
    }
  }

  lemma EmptyBooks(b: Books, sizes: seq<nat>, groups: seq<Group>, orders: seq<nat>, groupOf: seq<nat>)
    requires Grouped(groups, orders, groupOf) && |sizes| == |orders| && |b.active| == |groups| && |b.used| == |sizes|
    requires forall k :: 0 <= k < |groups| ==> Selected(groups[k], b.active[k], b.used)
    requires b.waste == b.over == seq(|sizes|, _ => 0) && b.objs == map[]
    ensures BooksOk(b, sizes, groups, groupOf)
  {
  }

  method PoolOrders(cache: Slabs.Cache, sizes: seq<nat>, ghost objsizeMax: nat) returns (orders: seq<nat>)
    requires forall i :: 0 <= i < |sizes| ==> sizes[i] <= objsizeMax
    requires Pow2(cache.lb + cache.max) >= Mem.MSLAB_SIZEOF + objsizeMax
    ensures |orders| == |sizes|
    ensures forall i :: 0 <= i < |sizes| ==>
              orders[i] <= cache.max && Pow2(cache.lb + orders[i]) >= Mem.MSLAB_SIZEOF + sizes[i]
    ensures forall i :: 0 <= i < |sizes| ==> orders[i] == PoolOrder(cache.lb, cache.max, sizes[i])
  {
    hide Pow2, PoolOrder;
    orders := [];
    for i := 0 to |sizes|
      invariant |orders| == i
      invariant forall j :: 0 <= j < i ==> orders[j] == PoolOrder(cache.lb, cache.max, sizes[j])
      invariant forall j :: 0 <= j < i ==>
                  orders[j] <= cache.max && Pow2(cache.lb + orders[j]) >= Mem.MSLAB_SIZEOF + sizes[j]
    {
      PoolOrderOk(cache.lb, cache.max, sizes[i]);
      orders := orders + [PoolOrder(cache.lb, cache.max, sizes[i])];
    }
  }

  ghost predicate Made(p: Mem.MemPool, cache: Slabs.Cache, size: nat, order: nat)
    reads p, p.cache
  {
    && p.Valid() && p.cache == cache && p.order == order <= cache.max && p.g.objsize == size
    && p.g.level == cache.lb + order && p.live == {} && p.slabs == map[]
  }

  method MakePools(cache: Slabs.Cache, sizes: seq<nat>, orders: seq<nat>) returns (pools: seq<Mem.MemPool>)
    requires cache.Valid() && |orders| == |sizes|
    requires forall i :: 0 <= i < |sizes| ==>
               && sizes[i] > 0 && orders[i] <= cache.max
               && Pow2(cache.lb + orders[i]) >= Mem.MSLAB_SIZEOF + sizes[i]
    ensures |pools| == |sizes|
    ensures forall i :: 0 <= i < |pools| ==> fresh(pools[i]) && Made(pools[i], cache, sizes[i], orders[i])
    ensures forall i, j :: 0 <= i < j < |pools| ==> pools[i] != pools[j]
  {
    hide Pow2, Slabs.Inv, Mem.PoolOk;
    pools := [];
    for i := 0 to |sizes|
      invariant |pools| == i
      invariant forall j :: 0 <= j < i ==> fresh(pools[j]) && Made(pools[j], cache, sizes[j], orders[j])
      invariant forall j, k :: 0 <= j < k < i ==> pools[j] != pools[k]
    {
      var p := new Mem.MemPool(cache, sizes[i], orders[i]);
      pools := pools + [p];
    }
  }

  method IndexGroups(groups: seq<Group>, orders: seq<nat>) returns (groupOf: seq<nat>)
    requires GroupsTo(groups, orders, |orders|)
    ensures Grouped(groups, orders, groupOf)
  {
    groupOf := [];
    for i := 0 to |orders|
      invariant |groupOf| == i
      invariant forall p :: 0 <= p < i ==>
                groupOf[p] < |groups| && groups[groupOf[p]].first <= p <= groups[groupOf[p]].last
    {
      ghost var w := GroupExists(groups, orders, |orders|, i);
      var k: nat :| k < |groups| && groups[k].first <= i <= groups[k].last;
      groupOf := groupOf + [k];
    }
  }

  /** small_mempool_create_group's first activation: all pools allocate from the last of the group. */
  method FirstActive(groups: seq<Group>, orders: seq<nat>) returns (active: seq<set<nat>>, used: seq<nat>)
    requires GroupsTo(groups, orders, |orders|)
    ensures |active| == |groups| && |used| == |orders|
    ensures forall k :: 0 <= k < |groups| ==> active[k] == {groups[k].last - groups[k].first}
    ensures forall k :: 0 <= k < |groups| ==> Selected(groups[k], active[k], used)
    ensures forall k, p :: 0 <= k < |groups| && groups[k].first <= p <= groups[k].last ==> used[p] == groups[k].last
  {
    active, used := [], seq(|orders|, _ => 0);
    for k := 0 to |groups|
      invariant |active| == k && |used| == |orders|
      invariant forall l :: 0 <= l < k ==> active[l] == {groups[l].last - groups[l].first}
      invariant forall l :: 0 <= l < k ==> Selected(groups[l], active[l], used)
    {
      assert GroupOk(groups[k], orders);
      var a := {groups[k].last - groups[k].first};
      ghost var was := used;
      used := UpdateGroup(groups[k], a, used);
      active := active + [a];
      forall l | 0 <= l < k ensures Selected(groups[l], active[l], used) {
        Before(groups, orders, l, k);
        assert Selected(groups[l], active[l], was);
      }
    }
  }

  /** small_mempool_create: sizes, slab orders, pools, groups, and all pools served by the last of their group. */
  method Layout(cache: Slabs.Cache, cls: Class, objsizeMax: nat)
    returns (sizes: seq<nat>, orders: seq<nat>, pools: seq<Mem.MemPool>, groups: seq<Group>, groupOf: seq<nat>,
             active: seq<set<nat>>, used: seq<nat>)
    requires cache.Valid() && objsizeMax > 0 && Pow2(cache.lb + cache.max) >= Mem.MSLAB_SIZEOF + objsizeMax
    ensures SizesOk(cls, sizes) && |orders| == |pools| == |used| == |sizes| > 0 && Grouped(groups, orders, groupOf)
    ensures forall i :: 0 <= i < |pools| ==> fresh(pools[i]) && Made(pools[i], cache, sizes[i], orders[i])
    ensures forall i, j :: 0 <= i < j < |pools| ==> pools[i] != pools[j]
    ensures |groupOf| == |sizes| && forall p :: 0 <= p < |groupOf| ==> groupOf[p] < |groups|
    ensures |active| == |groups| && forall k :: 0 <= k < |groups| ==> Selected(groups[k], active[k], used)
    ensures forall p :: 0 <= p < |sizes| ==> used[p] == groups[groupOf[p]].last
    ensures forall i :: 0 <= i < |sizes| ==> orders[i] == PoolOrder(cache.lb, cache.max, sizes[i])
  {
    hide Slabs.Inv, Mem.PoolOk, Mem.Owned, Pow2, SizesOk, GroupsTo, Selected, Made, PoolOrder;
    sizes := CreateSizes(cls, objsizeMax);
    Within(cls, sizes, objsizeMax);
    orders := PoolOrders(cache, sizes, objsizeMax);
    pools := MakePools(cache, sizes, orders);
    groups := CreateAllGroups(orders);
    groupOf := IndexGroups(groups, orders);
    active, used := FirstActive(groups, orders);
  }

  lemma LastsIn(groups: seq<Group>, orders: seq<nat>, groupOf: seq<nat>)
    requires Grouped(groups, orders, groupOf)
    ensures forall k :: 0 <= k < |groups| ==> groups[k].last < |orders|
  {
    forall k | 0 <= k < |groups| ensures groups[k].last < |orders| {
      assert GroupOk(groups[k], orders);
    }
  }

  function QuarterSlab(cache: Slabs.Cache, orders: seq<nat>, g: Group): nat {
    if g.last < |orders| then Pow2(cache.lb + orders[g.last]) / 4 else 0
  }

  /** What the outside answers during one call: slab_map at the first attempt and at the second, the
      quota for a large slab, and malloc. */
  datatype Outside = Outside(mapped: Option<nat>, again: Option<nat>, quota: bool, memory: Option<nat>)

  /** A slab that slab_map may give: aligned, and not one that the cache has. */
  predicate Mappable(cache: Slabs.Cache, mapped: Option<nat>)
    reads cache
  {
    mapped.Some? ==> mapped.value !in cache.arena && Heap.Aligned(mapped.value, cache.lb + cache.max)
  }

  /** x is the data of a large slab. */
  ghost predicate IsLarge(x: nat, large: seq<Slabs.Large>) {
    x >= Slabs.SLAB_SIZEOF && exists i :: 0 <= i < |large| && large[i].addr == x - Slabs.SLAB_SIZEOF
  }

  /** A large slab was added, with its data at x. */
  predicate LargeAdded(x: nat, size: nat, large: seq<Slabs.Large>, large': seq<Slabs.Large>) {
    && x >= Slabs.SLAB_SIZEOF
    && large' == [Slabs.Large(x - Slabs.SLAB_SIZEOF, size + Slabs.SLAB_SIZEOF)] + large
  }

  /** The large slab with its data at x has left the list. */
  ghost predicate LargeRemoved(x: nat, large: seq<Slabs.Large>, large': seq<Slabs.Large>) {
    && x >= Slabs.SLAB_SIZEOF
    && exists i :: 0 <= i < |large| && large[i].addr == x - Slabs.SLAB_SIZEOF && large' == Without(large, i)
  }

  /** slab_map gives a slab at the second attempt. */
  predicate Offered(cache: Slabs.Cache, again: Option<nat>)
    reads cache
  {
    again.Some? && Mappable(cache, again)
  }

  class Small {
    const cls: Class
    const sizes: seq<nat>
    const orders: seq<nat>
    const groups: seq<Group>
    const groupOf: seq<nat>
    /** A quarter of the slab size, for each group. */
    const wasteMax: seq<nat>
    const cache: Slabs.Cache
    const pools: seq<Mem.MemPool>
    var active: seq<set<nat>>
    var usedPool: seq<nat>
    var waste: seq<int>
    /** The live objects, and for each class what was charged beyond what they lose. */
    ghost var objs: map<nat, Obj>
    ghost var over: seq<int>

    ghost predicate Fixed()
    {
      && SizesOk(cls, sizes) && |pools| == |sizes| == |orders| && Grouped(groups, orders, groupOf)
      && |wasteMax| == |groups|
      && (forall k :: 0 <= k < |groups| ==> wasteMax[k] == QuarterSlab(cache, orders, groups[k]))
      && (forall i, j :: 0 <= i < j < |pools| ==> pools[i] != pools[j])
      && forall i :: 0 <= i < |pools| ==> PoolFixed(pools[i], sizes[i], orders[i])
    }

    ghost predicate PoolFixed(p: Mem.MemPool, size: nat, order: nat) {
      p.cache == cache && p.order == order <= cache.max && p.g.objsize == size && p.g.level == cache.lb + order
    }

    ghost function Repr(): set<object> { set p | p in pools }

    ghost function B(): Books
      reads this
    {
      Books(active, usedPool, waste, objs, over)
    }

    ghost predicate PoolIn(p: Mem.MemPool)
      reads p, cache
    {
      p.cache == cache && p.Valid()
    }

    ghost predicate SlabsApart()
      reads Repr()
    {
      forall i, j :: 0 <= i < j < |pools| ==> pools[i].slabs.Keys !! pools[j].slabs.Keys
    }

    ghost predicate PoolsIn()
      reads cache, Repr()
    {
      forall i :: 0 <= i < |pools| ==> PoolIn(pools[i])
    }

    /** The pools are sound and no slab is in two of them. */
    ghost predicate Layer()
      reads cache, Repr()
    {
      cache.Valid() && PoolsIn() && SlabsApart()
    }

    /** The live objects are those of the pools. */
    ghost predicate Linked(objs: map<nat, Obj>)
      reads Repr()
    {
      && (forall x :: x in objs ==> objs[x].owner < |pools| && x in pools[objs[x].owner].live)
      && forall i, x :: 0 <= i < |pools| && x in pools[i].live ==> x in objs && objs[x].owner == i
    }

    ghost predicate Valid()
      reads this, cache, Repr()
    {
      Fixed() && Layer() && Linked(objs) && BooksOk(B(), sizes, groups, groupOf)
    }

    /** small_alloc_create, with the size classes given. */
    constructor (cache: Slabs.Cache, cls: Class, objsizeMax: nat)
      requires cache.Valid() && objsizeMax > 0
      requires Pow2(cache.lb + cache.max) >= Mem.MSLAB_SIZEOF + objsizeMax
      ensures Valid() && objs == map[] && this.cache == cache && this.cls == cls
      ensures over == seq(|sizes|, _ => 0) && waste == seq(|sizes|, _ => 0)
      ensures forall p :: 0 <= p < |sizes| ==> p < |usedPool| && usedPool[p] == groups[groupOf[p]].last
      ensures forall i :: 0 <= i < |sizes| ==> orders[i] == PoolOrder(cache.lb, cache.max, sizes[i])
      ensures |wasteMax| == |groups| && forall k :: 0 <= k < |groups| ==>
                groups[k].last < |orders| && wasteMax[k] == Pow2(cache.lb + orders[groups[k].last]) / 4
    {
      hide Slabs.Inv, Mem.PoolOk, Mem.Owned, Pow2, SizesOk, Grouped, GroupsTo, Selected, Owed, BooksOk, PoolOrder;
      var sizes, orders, pools, groups, groupOf, active, used := Layout(cache, cls, objsizeMax);
      this.cache, this.cls, this.sizes, this.orders, this.groups := cache, cls, sizes, orders, groups;
      this.pools, this.groupOf := pools, groupOf;
      wasteMax := seq(|groups|, k requires 0 <= k < |groups| => QuarterSlab(cache, orders, groups[k]));
      this.active, usedPool := active, used;
      waste, over, objs := seq(|sizes|, _ => 0), seq(|sizes|, _ => 0), map[];
      new;
      LastsIn(groups, orders, groupOf);
      EmptyBooks(B(), this.sizes, this.groups, this.orders, this.groupOf);
      assert forall i :: 0 <= i < |this.pools| ==> Made(this.pools[i], cache, sizes[i], orders[i]);
    }

    /** Pool i alone has changed, and the slab cache. */
    twostate lemma LayerKept(i: nat)
      requires Fixed() && i < |pools| && old(Layer()) && cache.Valid() && pools[i].Valid()
      requires forall j :: 0 <= j < |pools| && j != i ==> unchanged(pools[j])
      requires Mem.Undisturbed(old(cache.S().h), cache.S().h, Slabs.Busy(old(cache.S().h)) - old(pools[i].slabs.Keys))
      requires forall s :: s in pools[i].slabs.Keys && s !in old(pools[i].slabs.Keys) ==>
                s !in Slabs.Busy(old(cache.S().h))
      ensures Layer()
    {
      hide Slabs.Inv, Mem.PoolOk;
      forall j | 0 <= j < |pools| && j != i
        ensures PoolIn(pools[j]) && pools[j].slabs.Keys !! pools[i].slabs.Keys
      {
        assert old(PoolIn(pools[j])) && pools[j] != pools[i];
        assert pools[j].slabs.Keys !! old(pools[i].slabs.Keys);
      }
    }

    /** Pool i can serve nothing: all slots are live, and the cache has no slab for it. */
    ghost predicate Starved(i: nat, mapped: Option<nat>)
      requires i < |pools| && i < |orders|
      reads cache, Repr()
    {
      mapped.None? && Slabs.NoneFrom(cache.lists, orders[i]) && Mem.Full(pools[i].P(), pools[i].live)
    }

    lemma NotOffered(i: nat, mapped: Option<nat>)
      requires i < |pools| && i < |orders|
      ensures Starved(i, mapped) ==> mapped.None? && Starved(i, None)
    {
    }

    /** mempool_alloc on pool i. */
    method PoolAlloc(i: nat, mapped: Option<nat>) returns (r: Option<nat>)
      requires Fixed() && Layer() && i < |pools| && Mappable(cache, mapped)
      modifies cache, pools[i]
      ensures Layer() && cache.large == old(cache.large)
      ensures r.None? <==> old(Starved(i, mapped))
      ensures r.None? ==> Starved(i, mapped) && pools[i].live == old(pools[i].live) && cache.S() == old(cache.S())
      ensures r.Some? ==> pools[i].live == old(pools[i].live) + {r.value}
      ensures r.Some? ==> forall j :: 0 <= j < |pools| ==> r.value !in old(pools[j].live)
    {
      hide Slabs.Inv, Mem.PoolOk, Mem.Owned, Mem.Undisturbed, Slabs.Busy, Mem.InPool, Mem.Slot, Mem.Full;
      assert PoolFixed(pools[i], sizes[i], orders[i]);
      r := pools[i].Alloc(mapped);
      LayerKept(i);
      if r.Some? {
        forall j | 0 <= j < |pools| && j != i ensures r.value !in pools[j].live {
          LiveInOne(i, j, r.value);
        }
      }
    }

    lemma LiveInOne(i: nat, j: nat, x: nat)
      requires Fixed() && Layer() && i < |pools| && j < |pools| && i != j && Mem.InPool(pools[i].P(), x)
      ensures x !in pools[j].live
    {
      hide Mem.InPool, Heap.Tiled, Mem.Owned, Slabs.Inv, Mem.PoolOk;
      if x in pools[j].live {
        assert PoolFixed(pools[i], sizes[i], orders[i]) && PoolFixed(pools[j], sizes[j], orders[j]);
        Mem.OwnerOf(pools[j].P(), pools[j].live, x);
        PoolGeo(pools[i].P(), pools[i].live);
        PoolGeo(pools[j].P(), pools[j].live);
        Slabs.TiledOf(cache.S());
        NotShared(cache.S().h, pools[i].P(), pools[j].P(), orders[i], orders[j], x);
      }
    }

    /** mempool_free_slab on pool i. */
    method PoolFree(i: nat, slab: nat, ptr: nat)
      requires Fixed() && Layer() && i < |pools| && ptr in pools[i].live && slab == Heap.Base(ptr, pools[i].g.level)
      modifies cache, pools[i]
      ensures Layer() && pools[i].live == old(pools[i].live) - {ptr} && cache.large == old(cache.large)
    {
      hide Slabs.Inv, Mem.PoolOk, Mem.Owned, Mem.Undisturbed, Slabs.Busy, Heap.Base;
      assert PoolFixed(pools[i], sizes[i], orders[i]);
      pools[i].FreeSlab(slab, ptr);
      LayerKept(i);
    }

    /** The end of a turn of the sweep: a deactivated pool keeps no spare slab. */
    method PoolFreeSpare(i: nat)
      requires Fixed() && Layer() && i < |pools|
      modifies cache, pools[i]
      ensures Layer() && pools[i].live == old(pools[i].live) && pools[i].spare.None?
      ensures cache.large == old(cache.large)
    {
      hide Slabs.Inv, Mem.PoolOk, Mem.Owned, Mem.Undisturbed, Slabs.Busy;
      assert PoolFixed(pools[i], sizes[i], orders[i]);
      if pools[i].spare.Some? {
        pools[i].FreeSpare();
        LayerKept(i);
      }
    }

    /** small_mempool_activate */
    method Activate(i: nat)
      requires Fixed() && BooksOk(B(), sizes, groups, groupOf) && i < |pools|
      modifies this`active, this`usedPool
      ensures BooksOk(B(), sizes, groups, groupOf)
      ensures |active| == |old(active)| && forall k :: 0 <= k < |active| ==>
                active[k] == old(active)[k] + if k == groupOf[i] then {i - groups[k].first} else {}
      ensures i < |usedPool| && usedPool[i] == i
    {
      hide SizesOk, Owed;
      var k := groupOf[i];
      assert Selected(groups[k], active[k], usedPool);
      ghost var b := B();
      active := active[k := active[k] + {i - groups[k].first}];
      usedPool := UpdateGroup(groups[k], active[k], usedPool);
      assert Active(groups[k], active[k], i) && Serves(groups[k], active[k], i, usedPool[i]);
      Reselected(b, B(), sizes, groups, orders, groupOf, k);
    }

    /** small_mempool_deactivate */
    method Deactivate(i: nat)
      requires Fixed() && BooksOk(B(), sizes, groups, groupOf) && i < |pools| && i != groups[groupOf[i]].last
      modifies this`active, this`usedPool
      ensures BooksOk(B(), sizes, groups, groupOf)
      ensures |active| == |old(active)| && forall k :: 0 <= k < |active| ==>
                active[k] == old(active)[k] - if k == groupOf[i] then {i - groups[k].first} else {}
      ensures |usedPool| == |old(usedPool)| && forall p :: 0 <= p < |usedPool| ==> old(usedPool)[p] <= usedPool[p]
    {
      hide SizesOk, Owed;
      var k := groupOf[i];
      assert Selected(groups[k], active[k], usedPool);
      ghost var b := B();
      active := active[k := active[k] - {i - groups[k].first}];
      usedPool := UpdateGroup(groups[k], active[k], usedPool);
      Reselected(b, B(), sizes, groups, orders, groupOf, k);
      forall p | groups[k].first <= p <= groups[k].last ensures b.used[p] <= usedPool[p] {
        FewerServe(groups[k], b.active[k], active[k], p, b.used[p], usedPool[p]);
      }
    }

    ghost predicate IsOn(i: nat)
      reads this`active
    {
      && i < |groupOf| && groupOf[i] < |groups| && groupOf[i] < |active|
      && Active(groups[groupOf[i]], active[groupOf[i]], i)
    }

    /** An active pool that is not its group's last, has no live object and little waste. */
    ghost predicate IsIdle(i: nat)
      reads this, Repr()
    {
      && IsOn(i) && i < |pools| && i < |waste| && groupOf[i] < |wasteMax|
      && i != groups[groupOf[i]].last && pools[i].live == {} && waste[i] < wasteMax[groupOf[i]] / IDLE_FRACTION
    }

    /** Pool i is on, and still is once the pools have been swept, if they are. */
    ghost predicate StaysOn(i: nat, swept: bool)
      reads this, Repr()
    {
      IsOn(i) && !(swept && IsIdle(i))
    }

    /** small_mempool_can_be_deactivated */
    method CanBeDeactivated(i: nat) returns (r: bool)
      requires Valid() && i < |pools|
      ensures r <==> IsIdle(i)
    {
      hide SizesOk, Owed, Slabs.Inv, Mem.Owned, Mem.PoolOk, GroupsTo;
      var k := groupOf[i];
      if !Active(groups[k], active[k], i) { return false; }
      NoneLive(pools[i].P(), pools[i].live);
      if pools[i].used / pools[i].g.objsize != 0 { return false; }
      if waste[i] >= wasteMax[k] / IDLE_FRACTION { return false; }
      return i != groups[k].last;
    }

    /** One turn of the sweep. */
    method SweepOne(i: nat)
      requires Valid() && i < |pools|
      modifies this`active, this`usedPool, cache, pools[i]
      ensures Valid() && |usedPool| == |old(usedPool)| && pools[i].live == old(pools[i].live)
      ensures forall p :: 0 <= p < |usedPool| ==> old(usedPool)[p] <= usedPool[p]
      ensures forall j: nat :: IsOn(j) <==> old(IsOn(j)) && !(j == i && old(IsIdle(i)))
      ensures (old(IsIdle(i)) ==> pools[i].spare.None?) && cache.large == old(cache.large)
    {
      hide SizesOk, Owed, Grouped, BooksOk, PoolFixed, Fixed, PoolIn, Slabs.Inv, IsOn;
      Shape();
      var idle := CanBeDeactivated(i);
      if idle {
        Idle(i);
        PoolFreeSpare(i);
      }
    }

    method Idle(i: nat)
      requires Valid() && IsIdle(i)
      modifies this`active, this`usedPool
      ensures Valid() && |usedPool| == |old(usedPool)|
      ensures forall p :: 0 <= p < |usedPool| ==> old(usedPool)[p] <= usedPool[p]
      ensures forall j: nat :: IsOn(j) <==> old(IsOn(j)) && j != i
    {
      hide SizesOk, Owed, Grouped, BooksOk, PoolFixed, Fixed, PoolIn, Slabs.Inv;
      Deactivate(i);
      LayerSame();
    }

    /** small_mempool_group_sweep_sparse: exactly the idle pools are deactivated. */
    method Sweep()
      requires Valid()
      modifies this`active, this`usedPool, cache, Repr()
      ensures Valid() && |usedPool| == |old(usedPool)|
      ensures forall i :: 0 <= i < |pools| ==> pools[i].live == old(pools[i].live)
      ensures forall p :: 0 <= p < |usedPool| ==> old(usedPool)[p] <= usedPool[p]
      ensures forall j: nat :: IsOn(j) <==> old(StaysOn(j, true))
      ensures forall j: nat :: old(IsIdle(j)) ==> j < |pools| && pools[j].spare.None?
      ensures cache.large == old(cache.large)
    {
      hide SizesOk, Owed, Layer, Linked, Fixed, BooksOk, IsOn;
      Shape();
      var i := 0;
      while i < |pools|
        invariant 0 <= i <= |pools| && Valid() && |usedPool| == |old(usedPool)|
        invariant forall j :: 0 <= j < |pools| ==> pools[j].live == old(pools[j].live)
        invariant forall p :: 0 <= p < |usedPool| ==> old(usedPool)[p] <= usedPool[p]
        invariant forall j: nat :: IsOn(j) <==> old(IsOn(j)) && !(j < i && old(IsIdle(j)))
        invariant forall j :: 0 <= j < i && old(IsIdle(j)) ==> pools[j].spare.None?
        invariant cache.large == old(cache.large)
        decreases |pools| - i
      {
        SweepOne(i);
        i := i + 1;
      }
    }

    /** Only the large slabs of the cache have changed. */
    twostate lemma LayerSame()
      requires old(Layer()) && cache.Valid() && cache.S().h == old(cache.S().h)
      requires forall j :: 0 <= j < |pools| ==> unchanged(pools[j])
      ensures Layer()
    {
      hide Slabs.Inv, Mem.PoolOk, Mem.Owned;
      forall j | 0 <= j < |pools| ensures PoolIn(pools[j]) {
        assert old(PoolIn(pools[j]));
      }
    }

    /** A class allocates from its own pool, or has not lost much by allocating from another. */
    ghost predicate OwnOrCheap(p: nat)
      reads this
    {
      p < |usedPool| && p < |waste| && p < |groupOf| && groupOf[p] < |wasteMax| &&
      (usedPool[p] == p || waste[p] < wasteMax[groupOf[p]])
    }

    lemma Shape()
      requires Fixed()
      ensures SizesOk(cls, sizes) && Increasing(sizes) && |pools| == |sizes| == |orders|
      ensures Grouped(groups, orders, groupOf)
      ensures |wasteMax| == |groups| && |groupOf| == |sizes| > 0
      ensures forall p :: 0 <= p < |groupOf| ==> groupOf[p] < |groups|
      ensures forall i, j :: 0 <= i < |pools| && 0 <= j < |pools| && i != j ==> pools[i] != pools[j]
    {
      IncreasingSizes(cls, sizes);
    }

    /** The pool that class p allocates from, once the pools have been swept, if they are. */
    ghost predicate WillUse(p: nat, u: nat, swept: bool)
      reads this, Repr()
    {
      Together(groupOf, p, u) && p <= u && StaysOn(u, swept) && forall j: nat :: p <= j < u ==> !StaysOn(j, swept)
    }

    /** What smalloc does for class p: u is the pool that the class uses when it is charged. The object comes
        from the pool that the class used at the start; the class is charged for u; and its own pool is
        activated exactly when that takes its waste to the limit. */
    twostate predicate Served(p: nat, new r: Option<nat>, retried: bool, u: nat)
      reads this, Repr()
    {
      && p < |sizes| && u < |sizes| && p < |old(usedPool)| && p < |old(waste)| && p < |old(over)|
      && old(usedPool)[p] < |sizes| && p < |groupOf| && groupOf[p] < |wasteMax| && p < |waste|
      && old(WillUse(p, u, retried)) && (!retried ==> u == old(usedPool)[p] && over == old(over))
      && if r.None? then
           && objs == old(objs) && waste == old(waste) && over == old(over)
           && forall j: nat :: IsOn(j) <==> old(StaysOn(j, retried))
         else
           && r.value !in old(objs) && objs == old(objs)[r.value := Obj(p, old(usedPool)[p])]
           && waste == old(waste)[p := old(waste)[p] + SizeAt(sizes, u) - SizeAt(sizes, p)]
           && over == old(over)[p := old(over)[p] + SizeAt(sizes, u) - SizeAt(sizes, old(usedPool)[p])]
           && forall j: nat :: IsOn(j) <==>
                old(StaysOn(j, retried)) || (j == p && u != p && waste[p] >= wasteMax[groupOf[p]])
    }

    /** When smalloc tries again and when it fails: pool q of the class can serve nothing at the start, and
        nothing after the sweep either. */
    twostate predicate Attempts(p: nat, outside: Outside, new r: Option<nat>, retried: bool)
      reads this, cache, Repr()
    {
      p < |old(usedPool)| && p < |sizes| &&
      var q := old(usedPool)[p];
      && p <= q < |orders| && q < |pools| && q < |sizes| && sizes[p] <= sizes[q]
      && (retried <==> old(Starved(q, outside.mapped)))
      && (r.None? ==> retried && Starved(q, None) && !Offered(cache, outside.again))
    }

    /** smalloc. retried says whether the first attempt failed, and pools were swept; u is the pool that the
        object's class is charged for. */
    method Smalloc(size: nat, outside: Outside) returns (r: Option<nat>, retried: bool, ghost u: nat)
      requires Valid() && Mappable(cache, outside.mapped)
      requires outside.memory.Some? ==>
                 forall i :: 0 <= i < |cache.large| ==> cache.large[i].addr != outside.memory.value
      modifies this, cache, Repr()
      ensures Valid()
      ensures Search(cls, sizes, size) < 0 ==> B() == old(B()) && !retried
      ensures Search(cls, sizes, size) < 0 ==> (r.None? <==> !outside.quota || outside.memory.None?)
      ensures Search(cls, sizes, size) < 0 && r.Some? ==>
                && r.value == outside.memory.value + Slabs.SLAB_SIZEOF
                && LargeAdded(r.value, size, old(cache.large), cache.large)
      ensures Search(cls, sizes, size) >= 0 || r.None? ==> cache.large == old(cache.large)
      ensures var p := Search(cls, sizes, size); p >= 0 ==>
                && p < |sizes| && size <= sizes[p] && Served(p, r, retried, u) && Attempts(p, outside, r, retried)
                && (r.Some? ==> OwnOrCheap(p))
    {
      hide Layer, Search, BooksOk, Grouped, Owed, SizesOk, PoolFixed, Linked, Served, Starved, Attempts, OwnOrCheap,
        LargeAdded, QuarterSlab;
      retried, u := false, 0;
      Shape();
      SearchOk(cls, sizes, size);
      var p := Search(cls, sizes, size);
      if p == -1 {
        r := AllocLarge(size, outside);
      } else {
        r, retried, u := AllocSmall(p, outside);
      }
    }

    /** slab_get_large, and the data pointer. */
    method AllocLarge(size: nat, outside: Outside) returns (r: Option<nat>)
      requires Valid()
      requires outside.memory.Some? ==>
                 forall i :: 0 <= i < |cache.large| ==> cache.large[i].addr != outside.memory.value
      modifies cache
      ensures Valid() && (r.None? <==> !outside.quota || outside.memory.None?)
      ensures r.Some? ==>
                && r.value == outside.memory.value + Slabs.SLAB_SIZEOF
                && LargeAdded(r.value, size, old(cache.large), cache.large)
      ensures r.None? ==> cache.large == old(cache.large)
    {
      hide Slabs.Inv, Mem.PoolOk, Mem.Owned, BooksOk, Grouped, Owed, SizesOk, Fixed;
      var got := cache.GetLarge(size, outside.quota, outside.memory);
      LayerSame();
      r := if got.None? then None else Some(got.value + Slabs.SLAB_SIZEOF);
    }

    /** The path of smalloc through the pools, for class p. */
    method AllocSmall(p: nat, outside: Outside) returns (r: Option<nat>, retried: bool, ghost u: nat)
      requires Valid() && p < |sizes| && Mappable(cache, outside.mapped)
      modifies this, cache, Repr()
      ensures Valid() && Served(p, r, retried, u) && cache.large == old(cache.large)
      ensures Attempts(p, outside, r, retried) && (r.Some? ==> OwnOrCheap(p))
    {
      hide Layer, BooksOk, Grouped, Owed, SizesOk, PoolFixed, Fixed, Linked, Starved, WillUse, IsOn, StaysOn, IsIdle;
      Shape();
      UsedTogether(B(), sizes, groups, orders, groupOf, p);
      NowUsed(p);
      var q := usedPool[p];
      u := q;
      assert p < q ==> sizes[p] < sizes[q];
      r := Draw(q, outside.mapped);
      retried := r.None?;
      SameOn(q);
      if retried { u, r := Retry(p, q, outside.again); }
      if r.Some? { Record(p, q, r.value); }
    }

    /** The second attempt: the pools are swept first. */
    method Retry(p: nat, q: nat, offer: Option<nat>) returns (ghost u: nat, r: Option<nat>)
      requires Valid() && p < |sizes| && q < |pools|
      modifies this`active, this`usedPool, cache, Repr()
      ensures Layer() && (r.None? ==> Linked(objs)) && cache.large == old(cache.large) && q < |orders|
      ensures BooksOk(B(), sizes, groups, groupOf) && |old(usedPool)| == |usedPool| == |sizes|
      ensures u == usedPool[p] && old(usedPool)[p] <= u < |sizes|
      ensures old(WillUse(p, u, true)) && forall j: nat :: IsOn(j) <==> old(StaysOn(j, true))
      ensures r.None? ==> Starved(q, None) && !Offered(cache, offer)
      ensures r.Some? ==> r.value !in objs && forall c :: Linked(objs[r.value := Obj(c, q)])
    {
      hide Layer, BooksOk, Grouped, Owed, SizesOk, PoolFixed, Fixed, Linked, Starved, WillUse, IsOn, StaysOn, IsIdle;
      Shape();
      Sweep();
      UsedTogether(B(), sizes, groups, orders, groupOf, p);
      NowUsed(p);
      u := usedPool[p];
      SweptUse();
      var again := if Offered(cache, offer) then offer else None;
      r := Draw(q, again);
      NotOffered(q, again);
    }

    /** The class uses the pool it will use if nothing is swept. */
    lemma NowUsed(p: nat)
      requires Fixed() && BooksOk(B(), sizes, groups, groupOf) && p < |sizes|
      ensures p < |usedPool| && WillUse(p, usedPool[p], false)
    {
      hide Owed, SizesOk;
      Shape();
      UsedTogether(B(), sizes, groups, orders, groupOf, p);
      var k, u := groupOf[p], usedPool[p];
      forall j: nat | p <= j < u ensures !IsOn(j) {
        GroupsApart(groups, orders, k, groupOf[j], j);
      }
    }

    twostate lemma SweptUse()
      requires forall j: nat :: IsOn(j) <==> old(StaysOn(j, true))
      ensures forall p: nat, u: nat :: WillUse(p, u, false) ==> old(WillUse(p, u, true))
    {
      forall p: nat, u: nat | WillUse(p, u, false) ensures old(WillUse(p, u, true)) {
        assert StaysOn(u, false);
        forall j: nat | p <= j < u ensures !old(StaysOn(j, true)) {
          assert !StaysOn(j, false);
        }
      }
    }

    twostate lemma TurnedOn(i: nat)
      requires i < |groupOf| && groupOf[i] < |groups| == |active| == |old(active)|
      requires groups[groupOf[i]].first <= i
      requires forall k :: 0 <= k < |active| ==>
                 active[k] == old(active)[k] + if k == groupOf[i] then {i - groups[k].first} else {}
      ensures forall j: nat :: IsOn(j) <==> old(IsOn(j)) || j == i
    {
    }

    /** An attempt to draw from pool q leaves alone which pools are on and, if it fails, which are idle. */
    twostate lemma SameOn(q: nat)
      requires B() == old(B()) && forall i :: 0 <= i < |pools| && i != q ==> pools[i].live == old(pools[i].live)
      ensures forall j: nat :: IsOn(j) == old(StaysOn(j, false))
      ensures q < |pools| && pools[q].live == old(pools[q].live) ==>
                forall j: nat, swept: bool :: StaysOn(j, swept) == old(StaysOn(j, swept))
      ensures q < |pools| && pools[q].live == old(pools[q].live) ==>
                forall p: nat, u: nat, swept: bool :: WillUse(p, u, swept) ==> old(WillUse(p, u, swept))
    {
    }

    /** An object from pool q, which is not yet in the books. */
    method Draw(q: nat, mapped: Option<nat>) returns (r: Option<nat>)
      requires Valid() && q < |pools| && Mappable(cache, mapped)
      modifies cache, pools[q]
      ensures Layer() && (r.None? ==> Linked(objs)) && cache.large == old(cache.large) && q < |orders|
      ensures r.None? <==> old(Starved(q, mapped))
      ensures r.None? ==> Starved(q, mapped) && pools[q].live == old(pools[q].live) && cache.S() == old(cache.S())
      ensures r.Some? ==> r.value !in objs && forall c :: Linked(objs[r.value := Obj(c, q)])
    {
      hide Layer, BooksOk, Owed, PoolFixed, Fixed;
      Shape();
      r := PoolAlloc(q, mapped);
    }

    /** The end of smalloc: class p is charged for what it got from pool q. */
    method Record(p: nat, q: nat, x: nat)
      requires Fixed() && BooksOk(B(), sizes, groups, groupOf) && x !in objs
      requires p < |sizes| && p <= q < |sizes| && Together(groupOf, p, q) && q <= usedPool[p] < |sizes|
      modifies this
      ensures BooksOk(B(), sizes, groups, groupOf) && objs == old(objs)[x := Obj(p, q)]
      ensures p < |usedPool| == |waste| == |old(waste)| == |over| && p < |groupOf| && groupOf[p] < |wasteMax|
      ensures var u := old(usedPool)[p];
              && waste == old(waste)[p := old(waste)[p] + SizeAt(sizes, u) - SizeAt(sizes, p)]
              && over == old(over)[p := old(over)[p] + SizeAt(sizes, u) - SizeAt(sizes, q)]
              && forall j: nat :: IsOn(j) <==> old(IsOn(j)) || (j == p && u != p && waste[p] >= wasteMax[groupOf[p]])
      ensures usedPool[p] == p || waste[p] < wasteMax[groupOf[p]]
    {
      hide SizesOk, Owed, Grouped, Selected, PoolFixed, Increasing, IsOn, QuarterSlab, BooksOk;
      ghost var b := B();
      Shape();
      UsedTogether(b, sizes, groups, orders, groupOf, p);
      ChargeOk(b, sizes, groups, groupOf, p, q, x);
      over := over[p := over[p] + SizeAt(sizes, usedPool[p]) - SizeAt(sizes, q)];
      objs := objs[x := Obj(p, q)];
      var foreign := usedPool[p] != p;
      if foreign {
        waste := waste[p := waste[p] + SizeAt(sizes, usedPool[p]) - SizeAt(sizes, p)];
      }
      assert waste == Charge(b, sizes, p, q, x).waste;
      if foreign && waste[p] >= wasteMax[groupOf[p]] {
        Activate(p);
        UsedTogether(B(), sizes, groups, orders, groupOf, p);
        TurnedOn(p);
      }
    }

    /** The object is no longer live, and its class's waste is less by what the object lost. */
    twostate predicate Discharged(ptr: nat)
      reads this
    {
      ptr in old(objs) && objs == old(objs) - {ptr} &&
      var o := old(objs)[ptr];
      && o.cls < |sizes| && o.owner < |sizes| && o.cls < |old(waste)|
      && waste == old(waste)[o.cls := old(waste)[o.cls] - (SizeAt(sizes, o.owner) - SizeAt(sizes, o.cls))]
    }

    /** smfree: the slab found with the class's own mask belongs to the pool the object came from, and the
        class's waste loses what the object lost there. */
    method Smfree(ptr: nat, size: nat)
      requires Valid()
      requires Search(cls, sizes, size) >= 0 ==> ptr in objs && objs[ptr].cls == Search(cls, sizes, size)
      requires Search(cls, sizes, size) < 0 ==> IsLarge(ptr, cache.large)
      modifies this`waste, this`objs, cache, Repr()
      ensures Valid()
      ensures Search(cls, sizes, size) >= 0 ==> Discharged(ptr) && cache.large == old(cache.large)
      ensures Search(cls, sizes, size) < 0 ==>
                objs == old(objs) && waste == old(waste) && LargeRemoved(ptr, old(cache.large), cache.large)
    {
      hide Layer, Search, BooksOk, Grouped, Owed, SizesOk, PoolFixed, Linked, Discharged, LargeRemoved, QuarterSlab;
      Shape();
      var p := Search(cls, sizes, size);
      if p < 0 {
        FreeLarge(ptr);
      } else {
        FreeSmall(ptr, p);
      }
    }

    method FreeLarge(ptr: nat)
      requires Valid() && IsLarge(ptr, cache.large)
      modifies cache
      ensures Valid() && LargeRemoved(ptr, old(cache.large), cache.large)
    {
      hide Slabs.Inv, Mem.PoolOk, Mem.Owned, BooksOk, Grouped, Owed, SizesOk, Fixed;
      cache.PutLarge(ptr - Slabs.SLAB_SIZEOF);
      LayerSame();
    }

    method FreeSmall(ptr: nat, p: nat)
      requires Valid() && ptr in objs && objs[ptr].cls == p
      modifies this`waste, this`objs, cache, Repr()
      ensures Valid() && Discharged(ptr) && cache.large == old(cache.large)
    {
      hide Layer, BooksOk, Grouped, Owed, SizesOk, PoolFixed, Fixed, Heap.Base, Increasing, Linked;
      Shape();
      ghost var o, b := objs[ptr].owner, B();
      DischargeOk(b, sizes, groups, groupOf, p, o, ptr);
      OwnerFound(ptr);
      var slab := Heap.Base(ptr, pools[p].g.level);
      var q: nat :| q < |pools| && slab in pools[q].slabs;
      assert q == o;
      GiveBack(q, slab, ptr);
      waste := waste[p := waste[p] - (SizeAt(sizes, q) - SizeAt(sizes, p))];
      objs := objs - {ptr};
      assert B() == Discharge(b, sizes, p, o, ptr);
    }

    /** The object goes back to pool q, and is still in the books. */
    method GiveBack(q: nat, slab: nat, ptr: nat)
      requires Valid() && q < |pools| && ptr in objs && objs[ptr].owner == q && slab == Heap.Base(ptr, pools[q].g.level)
      modifies cache, pools[q]
      ensures Layer() && Linked(objs - {ptr}) && cache.large == old(cache.large)
    {
      hide Layer, BooksOk, Owed, PoolFixed, Fixed, Heap.Base;
      Shape();
      PoolFree(q, slab, ptr);
    }

    /** No two live objects overlap, whatever their sizes and pools. */
    lemma ObjectsApart(x: nat, y: nat)
      requires Valid() && x in objs && y in objs && x != y
      ensures objs[x].owner < |sizes| && objs[y].owner < |sizes|
      ensures x + sizes[objs[x].owner] <= y || y + sizes[objs[y].owner] <= x
    {
      hide Owed, SizesOk, Selected, Heap.Base, Slabs.Inv, Mem.PoolOk, Mem.Owned, BooksOk, Heap.Tiled, Mem.GeoOk,
        Mem.Slot;
      var o, u := objs[x].owner, objs[y].owner;
      assert PoolFixed(pools[o], sizes[o], orders[o]) && PoolFixed(pools[u], sizes[u], orders[u]);
      var p, q, h := pools[o].P(), pools[u].P(), cache.S().h;
      Mem.OwnerOf(p, pools[o].live, x);
      Mem.OwnerOf(q, pools[u].live, y);
      PoolGeo(p, pools[o].live);
      PoolGeo(q, pools[u].live);
      Slabs.TiledOf(cache.S());
      var a, i :| a in p.slabs && 0 <= i < p.g.objcount && x == Mem.Slot(p.g, a, i);
      var b, j :| b in q.slabs && 0 <= j < q.g.objcount && y == Mem.Slot(q.g, b, j);
      if o == u {
        SlabAligned(p, pools[o].live, a);
        SlabAligned(p, pools[o].live, b);
        Mem.SlotsApart(p.g, a, i, b, j);
      } else {
        SlotHeld(h, p, orders[o], a, i);
        SlotHeld(h, q, orders[u], b, j);
        assert p.slabs.Keys !! q.slabs.Keys && a in p.slabs.Keys && b in q.slabs.Keys;
        BlocksApart(h, a, b);
      }
    }

    /** Masking with the level of the object's class finds a slab of its owner, and of no other pool. */
    lemma OwnerFound(ptr: nat)
      requires Valid() && ptr in objs
      ensures objs[ptr].cls < |pools| && objs[ptr].owner < |pools|
      ensures pools[objs[ptr].cls].g.level == pools[objs[ptr].owner].g.level
      ensures var slab := Heap.Base(ptr, pools[objs[ptr].cls].g.level);
              forall q: nat :: q < |pools| ==> (slab in pools[q].slabs <==> q == objs[ptr].owner)
    {
      hide Owed, SizesOk, Selected, Heap.Base, Slabs.Inv, Mem.PoolOk, Mem.Owned, BooksOk, Grouped, QuarterSlab;
      var p, o := objs[ptr].cls, objs[ptr].owner;
      ObjTogether(B(), sizes, groups, groupOf, ptr);
      SameOrder(groups, orders, groupOf, p, o);
      assert PoolFixed(pools[p], sizes[p], orders[p]) && PoolFixed(pools[o], sizes[o], orders[o]);
      assert pools[o].Valid();
      Mem.OwnerOf(pools[o].P(), pools[o].live, ptr);
      var slab := Heap.Base(ptr, pools[p].g.level);
      forall q: nat | q < |pools| && q != o ensures slab !in pools[q].slabs {
        assert pools[o].slabs.Keys !! pools[q].slabs.Keys;
        assert slab in pools[o].slabs.Keys;
      }
    }
  }

  lemma PoolGeo(p: Mem.Pool, live: set<nat>)
    requires Mem.PoolOk(p, live)
    ensures Mem.GeoOk(p.g)
  {
  }

  lemma NoneLive(p: Mem.Pool, live: set<nat>)
    requires Mem.PoolOk(p, live)
    ensures p.g.objsize > 0 && (p.used / p.g.objsize == 0 <==> live == {})
  {
    hide Mem.InvBut, Mem.First;
    Positive(p, live);
    if live != {} { Times(p.g.objsize, |live|); }
  }

  lemma Positive(p: Mem.Pool, live: set<nat>)
    requires Mem.PoolOk(p, live)
    ensures p.g.objsize > 0
  {
    hide Mem.SlabOk, Mem.Placed;
  }

  lemma Times(d: nat, n: nat)
    requires d > 0 && n > 0
    ensures d * n / d > 0
  {
    assert d * n >= d;
  }

  lemma IncreasingSizes(c: Class, sizes: seq<nat>)
    requires SizesOk(c, sizes)
    ensures Increasing(sizes)
  {
  }

  lemma SlabAligned(p: Mem.Pool, live: set<nat>, a: nat)
    requires Mem.PoolOk(p, live) && a in p.slabs
    ensures Heap.Aligned(a, p.g.level)
  {
    hide Mem.Placed, Heap.Aligned;
    Mem.AlignedSlab(p.g, a, p.slabs[a], live);
  }

  lemma BlocksApart(h: Heap.Heap, a: nat, b: nat)
    requires Heap.Tiled(h) && a in h.live && b in h.live && a != b
    ensures Heap.End(h, a) <= b || Heap.End(h, b) <= a
  {
  }
}
