/**
 What small/small.c computes about its pools: their sizes, the groups of pools that share a slab
 order, the pool each allocates from, and the memory lost by allocating from a larger one.
 */
module SmallModel {

  import opened SmallClass

  // ---------- the pools and the search ----------

  const SMALL_MEMPOOL_MAX := 1024
  const POOL_PER_GROUP_MAX := 32

  /** The object sizes that small_mempool_create gives to its pools. */
  ghost predicate SizesOk(c: Class, sizes: seq<nat>) {
    && 0 < |sizes| <= SMALL_MEMPOOL_MAX
    && (forall i :: 0 <= i < |sizes| - 1 ==> sizes[i] == CalcSize(c, i))
    && sizes[|sizes| - 1] <= CalcSize(c, |sizes| - 1)
    && (forall i, j :: 0 <= i < j < |sizes| ==> sizes[i] < sizes[j])
  }

  /** The size loop of small_mempool_create: sizes of the classes, the last cut off at the maximum. */
  method CreateSizes(c: Class, objsizeMax: nat) returns (sizes: seq<nat>)
    requires objsizeMax > 0
    ensures SizesOk(c, sizes)
    ensures sizes[0] > 0 && sizes[|sizes| - 1] <= objsizeMax
    ensures sizes[|sizes| - 1] == objsizeMax || |sizes| == SMALL_MEMPOOL_MAX
  {
    hide CalcSize;
    var objsize := 0;
    sizes := [];
    while objsize < objsizeMax && |sizes| < SMALL_MEMPOOL_MAX
      invariant |sizes| <= SMALL_MEMPOOL_MAX && (sizes == [] ==> objsize == 0) && objsize <= objsizeMax
      invariant sizes != [] ==> SizesOk(c, sizes) && sizes[|sizes| - 1] == objsize && sizes[0] > 0
      invariant sizes != [] && objsize < objsizeMax ==> objsize == CalcSize(c, |sizes| - 1)
      decreases SMALL_MEMPOOL_MAX - |sizes|
    {
      var n := |sizes|;
      if n > 0 { SizesIncrease(c, n - 1, n); } else { SizePositive(c, 0); }
      ghost var was := sizes;
      objsize := CalcSize(c, n);
      if objsize > objsizeMax { objsize := objsizeMax; }
      sizes := sizes + [objsize];
      assert forall i :: 0 <= i < n ==> sizes[i] == was[i];
    }
  }

  /** small_mempool_search: the class of a size that is not too large. */
  function Search(c: Class, sizes: seq<nat>, size: nat): int
    requires sizes != []
  {
    if size > sizes[|sizes| - 1] then -1 else CalcOffset(c, size)
  }

  /** The search finds the pool with the smallest objects that are large enough, if there is any. */
  lemma SearchOk(c: Class, sizes: seq<nat>, size: nat)
    requires SizesOk(c, sizes)
    ensures var p := Search(c, sizes, size);
            && p >= -1 && (p == -1 <==> forall i :: 0 <= i < |sizes| ==> sizes[i] < size)
            && (p >= 0 ==> p < |sizes| && size <= sizes[p] && forall i :: 0 <= i < p ==> sizes[i] < size)
  {
    hide CalcSize, CalcOffset;
    var n := |sizes|;
    if size <= sizes[n - 1] {
      Galois(c, size, n - 1);
      LeastClass(c, size);
    } else {
      forall i | 0 <= i < n ensures sizes[i] < size {
        assert i < n - 1 ==> sizes[i] < sizes[n - 1];
      }
    }
  }

  // ---------- groups ----------

  /** Pools first..last, which share a slab order. */
  datatype Group = Group(first: nat, last: nat)

  /** Pools of one slab order end here. */
  predicate RunEnds(orders: seq<nat>, p: nat)
    requires p < |orders|
  {
    p + 1 == |orders| || orders[p + 1] != orders[p]
  }

  /** A group has one slab order, and ends with it or with its 32nd pool. */
  ghost predicate GroupOk(g: Group, orders: seq<nat>) {
    && g.first <= g.last < |orders| && g.last - g.first < POOL_PER_GROUP_MAX
    && (forall i :: g.first <= i <= g.last ==> orders[i] == orders[g.first])
    && (g.last - g.first + 1 == POOL_PER_GROUP_MAX || RunEnds(orders, g.last))
  }

  /** The groups split the first n pools into consecutive runs. */
  ghost predicate GroupsTo(groups: seq<Group>, orders: seq<nat>, n: nat) {
    && (forall k :: 0 <= k < |groups| ==> GroupOk(groups[k], orders))
    && (forall k :: 0 <= k < |groups| - 1 ==> groups[k + 1].first == groups[k].last + 1)
    && (if groups == [] then n == 0 else groups[0].first == 0 && groups[|groups| - 1].last + 1 == n)
  }

  lemma AddGroup(groups: seq<Group>, orders: seq<nat>, g: Group)
    requires GroupsTo(groups, orders, g.first) && GroupOk(g, orders)
    ensures GroupsTo(groups + [g], orders, g.last + 1)
  {
    var r := groups + [g];
    forall k | 0 <= k < |r| ensures GroupOk(r[k], orders) {
    }
    forall k | 0 <= k < |r| - 1 ensures r[k + 1].first == r[k].last + 1 {
      assert k < |groups| - 1 ==> r[k + 1] == groups[k + 1] && r[k] == groups[k];
    }
  }

  /** small_mempool_group_last_pool */
  method LastInGroup(first: nat, last: nat) returns (r: nat)
    requires first <= last
    ensures r == if last - first < POOL_PER_GROUP_MAX then last else first + POOL_PER_GROUP_MAX - 1
  {
    var count := 0;
    r := first;
    while r < last && count < POOL_PER_GROUP_MAX - 1
      invariant first <= r <= last && count == r - first && count <= POOL_PER_GROUP_MAX - 1
      decreases last - r
    {
      count := count + 1;
      r := r + 1;
    }
  }

  /** small_mempool_create_groups: pools first..last, all of one order. */
  method CreateGroups(groups: seq<Group>, ghost orders: seq<nat>, first: nat, last: nat) returns (r: seq<Group>)
    requires first <= last < |orders| && GroupsTo(groups, orders, first)
    requires RunEnds(orders, last) && forall i :: first <= i <= last ==> orders[i] == orders[first]
    ensures GroupsTo(r, orders, last + 1)
  {
    r := groups;
    var at := first;
    while at <= last
      invariant first <= at <= last + 1 && GroupsTo(r, orders, at)
      decreases last + 1 - at
    {
      var end := LastInGroup(at, last);
      AddGroup(r, orders, Group(at, end));
      r := r + [Group(at, end)];
      at := end + 1;
    }
  }

  /** The grouping loop of small_mempool_create: a new order closes the groups of the last one. */
  method CreateAllGroups(orders: seq<nat>) returns (groups: seq<Group>)
    requires orders != []
    ensures GroupsTo(groups, orders, |orders|)
  {
    groups := [];
    var cur, order, i := 0, orders[0], 0;
    while i < |orders|
      invariant 0 <= cur <= i <= |orders| && cur < |orders| && GroupsTo(groups, orders, cur) && (i > 0 ==> cur < i)
      invariant order == orders[cur] && forall j :: cur <= j < i ==> orders[j] == order
    {
      if orders[i] != order {
        order := orders[i];
        groups := CreateGroups(groups, orders, cur, i - 1);
        cur := i;
      }
      i := i + 1;
    }
    groups := CreateGroups(groups, orders, cur, |orders| - 1);
  }

  /** Every pool is in one group. */
  lemma {:induction false} GroupExists(groups: seq<Group>, orders: seq<nat>, n: nat, i: nat) returns (k: nat)
    requires GroupsTo(groups, orders, n) && i < n
    ensures k < |groups| && groups[k].first <= i <= groups[k].last
    decreases |groups|
  {
    var m := |groups| - 1;
    if i >= groups[m].first {
      k := m;
    } else {
      var rest := groups[..m];
      assert m > 0 && groups[m - 1 + 1].first == groups[m - 1].last + 1;
      assert GroupsTo(rest, orders, groups[m].first);
      k := GroupExists(rest, orders, groups[m].first, i);
    }
  }

  // ---------- selecting the pool ----------

  predicate Active(g: Group, active: set<nat>, p: nat) { p >= g.first && p - g.first in active }

  /** The lowest active pool at or above p in its group: the lowest common bit of the group's
      active_pool_mask and the pool's appropriate_pool_mask. The mask is a set of bit numbers. */
  ghost predicate Serves(g: Group, active: set<nat>, p: nat, q: nat) {
    && g.first <= p <= q <= g.last && Active(g, active, q)
    && forall r :: p <= r < q ==> !Active(g, active, r)
  }

  /** __builtin_ffs(active & ~0 << from) - 1, when there is such a bit. */
  method LowestBit(active: set<nat>, from: nat, ghost top: nat) returns (b: nat)
    requires from <= top && top in active
    ensures from <= b <= top && b in active && forall i :: from <= i < b ==> i !in active
  {
    b := from;
    while b !in active
      invariant from <= b <= top && forall i :: from <= i < b ==> i !in active
      decreases top - b
    {
      b := b + 1;
    }
  }

  /** Only active bits of the group, the last pool's among them. */
  ghost predicate MaskOk(g: Group, active: set<nat>) {
    g.first <= g.last && g.last - g.first in active && forall b :: b in active ==> b <= g.last - g.first
  }

  /** Every pool of the group allocates from the lowest active pool at or above it. */
  ghost predicate Selected(g: Group, active: set<nat>, used: seq<nat>) {
    g.last < |used| && MaskOk(g, active) && forall p :: g.first <= p <= g.last ==> Serves(g, active, p, used[p])
  }

  /** small_mempool_update_group */
  method UpdateGroup(g: Group, active: set<nat>, used: seq<nat>) returns (r: seq<nat>)
    requires MaskOk(g, active) && g.last < |used|
    ensures |r| == |used| && Selected(g, active, r)
    ensures forall p :: 0 <= p < |used| && !(g.first <= p <= g.last) ==> r[p] == used[p]
  {
    r := used;
    var p := g.first;
    while p <= g.last
      invariant g.first <= p <= g.last + 1 && |r| == |used|
      invariant forall i :: g.first <= i < p ==> Serves(g, active, i, r[i])
      invariant forall i :: 0 <= i < |used| && !(g.first <= i < p) ==> r[i] == used[i]
    {
      var b := LowestBit(active, p - g.first, g.last - g.first);
      r := r[p := g.first + b];
      assert Serves(g, active, p, g.first + b);
      p := p + 1;
    }
  }

  // ---------- waste ----------

  /** A live object: the pool its size belongs to, and the pool it was allocated from. */
  datatype Obj = Obj(cls: nat, owner: nat)

  function SizeAt(sizes: seq<nat>, i: nat): int
    requires i < |sizes|
  {
    sizes[i]
  }

  function Excess(sizes: seq<nat>, o: Obj, cls: nat): int {
    if o.cls == cls && o.cls < |sizes| && o.owner < |sizes| then SizeAt(sizes, o.owner) - SizeAt(sizes, o.cls) else 0
  }

  /** The sum over the live objects of class cls of owner size less own size. */
  ghost function Owed(sizes: seq<nat>, objs: map<nat, Obj>, cls: nat): int {
    if objs == map[] then 0 else
      var x :| x in objs;
      Excess(sizes, objs[x], cls) + Owed(sizes, objs - {x}, cls)
  }

  lemma {:induction false} OwedOne(sizes: seq<nat>, objs: map<nat, Obj>, cls: nat, y: nat)
    requires y in objs
    ensures Owed(sizes, objs, cls) == Excess(sizes, objs[y], cls) + Owed(sizes, objs - {y}, cls)
    decreases |objs|
  {
    var x :| x in objs && Owed(sizes, objs, cls) == Excess(sizes, objs[x], cls) + Owed(sizes, objs - {x}, cls);
    if x != y {
      assert y in objs - {x} && x in objs - {y};
      assert objs - {x} - {y} == objs - {y} - {x};
      OwedOne(sizes, objs - {x}, cls, y);
      OwedOne(sizes, objs - {y}, cls, x);
    }
  }

  lemma OwedMore(sizes: seq<nat>, objs: map<nat, Obj>, cls: nat, y: nat, o: Obj)
    requires y !in objs
    ensures Owed(sizes, objs[y := o], cls) == Owed(sizes, objs, cls) + Excess(sizes, o, cls)
  {
    OwedOne(sizes, objs[y := o], cls, y);
    assert objs[y := o] - {y} == objs;
  }

  /** When owners are never smaller, no object's share exceeds the sum. */
  lemma {:induction false} OwedCovers(sizes: seq<nat>, objs: map<nat, Obj>, cls: nat)
    requires forall x :: x in objs ==> Excess(sizes, objs[x], cls) >= 0
    ensures Owed(sizes, objs, cls) >= 0
    decreases |objs|
  {
    if objs != map[] {
      var x :| x in objs;
      OwedOne(sizes, objs, cls, x);
      OwedCovers(sizes, objs - {x}, cls);
    }
  }
}
