/**
 small/slab_cache.c: the per-order free lists and counters over the blocks of SlabCacheModel, and
 the operations that take and return slabs.
 */
module SlabCache {

  import opened Common
  import opened SlabCacheModel

  /** A slab that slab_get_large obtained. */
  datatype Large = Large(addr: nat, size: nat)

  /** struct slab_cache. lists and total are orders[].slabs and orders[].stats.total. */
  datatype State = State(h: Heap, lists: seq<seq<nat>>, total: seq<int>, used: seq<int>, large: seq<Large>,
                         allocTotal: int, allocUsed: int)

  // ---------- books ----------

  function Sum(s: seq<int>): int { if s == [] then 0 else s[0] + Sum(s[1..]) }

  function SumLarge(s: seq<Large>): int { if s == [] then 0 else s[0].size + SumLarge(s[1..]) }

  lemma {:induction false} SumUpdate(s: seq<int>, i: nat, v: int)
    requires i < |s|
    ensures Sum(s[i := v]) == Sum(s) - s[i] + v
  {
    if i == 0 {
      assert s[i := v][1..] == s[1..];
    } else {
      assert s[i := v][1..] == s[1..][i - 1 := v];
      SumUpdate(s[1..], i - 1, v);
    }
  }

  lemma {:induction false} SumZero(s: seq<int>)
    requires forall i :: 0 <= i < |s| ==> s[i] == 0
    ensures Sum(s) == 0
  {
    if s != [] { SumZero(s[1..]); }
  }

  lemma {:induction false} SumWithout(s: seq<Large>, i: nat)
    requires i < |s|
    ensures SumLarge(Without(s, i)) == SumLarge(s) - s[i].size
  {
    if i == 0 {
      assert Without(s, 0) == s[1..];
    } else {
      assert Without(s, i)[1..] == Without(s[1..], i - 1);
      SumWithout(s[1..], i - 1);
    }
  }

  function SizeOf(h: Heap, o: nat): int { Pow2(h.lb + o) }

  ghost function AtOrder(h: Heap, r: set<nat>, o: nat): set<nat> { set b | b in r && Order(h, b) == o }

  /** The size of all blocks of order o in r. */
  ghost function Bytes(h: Heap, r: set<nat>, o: nat): int { SizeOf(h, o) * |AtOrder(h, r, o)| }

  ghost predicate Books(h: Heap, r: set<nat>, counter: seq<int>) {
    |counter| == h.max + 1 && forall o :: 0 <= o <= h.max ==> counter[o] == Bytes(h, r, o)
  }

  function Bill(counter: seq<int>, o: nat, size: int): seq<int>
    requires o < |counter|
  {
    counter[o := counter[o] + size]
  }

  function Unbill(counter: seq<int>, o: nat, size: int): seq<int>
    requires o < |counter|
  {
    counter[o := counter[o] - size]
  }

  ghost predicate SameAt(h: Heap, h': Heap, r: set<nat>) {
    h.lb == h'.lb && h.max == h'.max && forall b :: b in r ==> Order(h, b) == Order(h', b)
  }

  lemma BytesMore(h: Heap, h': Heap, r: set<nat>, x: nat, o: nat)
    requires SameAt(h, h', r) && x !in r
    ensures Bytes(h', r + {x}, o) == Bytes(h, r, o) + if o == Order(h', x) then SizeOf(h, o) else 0
  {
    hide Order, Pow2;
    if o == Order(h', x) {
      assert AtOrder(h', r + {x}, o) == AtOrder(h, r, o) + {x};
      Times(SizeOf(h, o), |AtOrder(h, r, o)|);
    } else {
      assert AtOrder(h', r + {x}, o) == AtOrder(h, r, o);
    }
  }

  lemma Times(p: int, n: int)
    ensures p * (n + 1) == p * n + p
  {
  }

  /** One block more in the books, or one less. */
  lemma Billed(h: Heap, h': Heap, r: set<nat>, x: nat, counter: seq<int>)
    requires SameAt(h, h', r) && x !in r && Order(h', x) <= h.max && |counter| == h.max + 1
    ensures Books(h, r, counter) ==
            Books(h', r + {x}, Bill(counter, Order(h', x), SizeOf(h, Order(h', x))))
  {
    hide Order, Bytes, SizeOf;
    var c' := Bill(counter, Order(h', x), SizeOf(h, Order(h', x)));
    forall o | 0 <= o <= h.max ensures counter[o] == Bytes(h, r, o) <==> c'[o] == Bytes(h', r + {x}, o) {
      BytesMore(h, h', r, x, o);
    }
  }

  // ---------- the free lists ----------

  /** List o holds the free blocks of order o in r, each once. */
  ghost predicate Listed(h: Heap, r: set<nat>, lists: seq<seq<nat>>) {
    && |lists| == h.max + 1
    && (forall o, b :: 0 <= o <= h.max ==> (b in lists[o] <==> b in r && Free(h, b) && Order(h, b) == o))
    && (forall o :: 0 <= o <= h.max ==> NoDup(lists[o]))
  }

  ghost predicate SameFree(h: Heap, h': Heap, r: set<nat>) {
    SameAt(h, h', r) && forall b :: b in r ==> Free(h, b) == Free(h', b)
  }

  lemma ListAdd(h: Heap, h': Heap, r: set<nat>, x: nat, lists: seq<seq<nat>>)
    requires SameFree(h, h', r) && Listed(h, r, lists) && x !in r && Free(h', x) && Order(h', x) <= h.max
    ensures var o := Order(h', x); Listed(h', r + {x}, lists[o := [x] + lists[o]])
  {
    hide Order, Free;
    var ox := Order(h', x);
    var lists' := lists[ox := [x] + lists[ox]];
    forall o, b | 0 <= o <= h.max ensures b in lists'[o] <==> b in r + {x} && Free(h', b) && Order(h', b) == o {
    }
    assert x !in lists[ox];
  }

  lemma ListDel(h: Heap, h': Heap, r: set<nat>, o: nat, k: nat, lists: seq<seq<nat>>)
    requires Listed(h, r, lists) && o <= h.max && k < |lists[o]| && SameFree(h, h', r - {lists[o][k]})
    ensures Listed(h', r - {lists[o][k]}, lists[o := Without(lists[o], k)])
  {
    hide Order, Free;
    var x, l := lists[o][k], lists[o];
    var l' := Without(l, k);
    forall b ensures b in l' <==> b in l && b != x {
      if b in l' {
        var i :| 0 <= i < |l'| && l'[i] == b;
        assert b == l[if i < k then i else i + 1];
      }
      if b in l && b != x {
        var i :| 0 <= i < |l| && l[i] == b;
        assert b == l'[if i < k then i else i - 1];
      }
    }
    var lists' := lists[o := l'];
    forall i, b | 0 <= i <= h.max ensures b in lists'[i] <==> b in r - {x} && Free(h', b) && Order(h', b) == i {
      assert x in lists[o] && (b in lists[i] <==> b in r && Free(h, b) && Order(h, b) == i);
    }
  }

  // ---------- the invariant ----------

  ghost function Busy(h: Heap): set<nat> { set b | b in h.live && !Free(h, b) }

  ghost function HeldSet(held: Option<nat>): set<nat> { if held.Some? then {held.value} else {} }

  ghost function HeldSize(h: Heap, held: Option<nat>): int { if held.Some? then SizeOf(h, Order(h, held.value)) else 0 }

  /** Blocks tile the arena slabs and are coalesced; each free one is in its list; the counters are
      the sizes of the blocks and balance with allocated.stats; the top list has at most one slab.
      A block held by a split or merge in progress is in no list and in no counter. */
  ghost predicate Inv(c: State, held: Option<nat>) {
    && Tiled(c.h) && Coalesced(c.h, HeldSet(held)) && (held.Some? ==> held.value in c.h.live && Free(c.h, held.value))
    && Listed(c.h, c.h.live - HeldSet(held), c.lists) && |c.lists[c.h.max]| <= 1
    && Books(c.h, c.h.live - HeldSet(held), c.total) && Books(c.h, Busy(c.h), c.used)
    && c.allocTotal == Sum(c.total) + HeldSize(c.h, held) + SumLarge(c.large)
    && c.allocTotal == SizeOf(c.h, c.h.max) * |c.h.arena| + SumLarge(c.large)
    && c.allocUsed == Sum(c.used) + SumLarge(c.large)
  }

  /** What callers that hold slabs rely on: theirs are not touched. */
  ghost predicate Kept(h: Heap, h': Heap, r: set<nat>) {
    h.lb == h'.lb && h.max == h'.max &&
    forall b :: b in r ==> b in h'.live && b in h.hdr && b in h'.hdr && h'.hdr[b] == h.hdr[b]
  }

  lemma OrderAt(c: State, b: nat)
    requires Tiled(c.h) && b in c.h.live
    ensures b in c.h.hdr && Order(c.h, b) <= c.h.max && c.h.hdr[b].size == SizeOf(c.h, Order(c.h, b))
  {
    hide Aligned, Base, Pow2, Listed, Books, Coalesced;
    HeaderAt(c.h, b);
  }

  // ---------- steps ----------

  /** Take free block k of list o off the list and out of the books. */
  function Hold(c: State, o: nat, k: nat): State
    requires o < |c.lists| == |c.total| && k < |c.lists[o]|
  {
    c.(lists := c.lists[o := Without(c.lists[o], k)], total := Unbill(c.total, o, SizeOf(c.h, o)))
  }

  lemma HoldOk(c: State, o: nat, k: nat)
    requires Inv(c, None) && o <= c.h.max && k < |c.lists[o]|
    ensures Inv(Hold(c, o, k), Some(c.lists[o][k])) && Order(c.h, c.lists[o][k]) == o
  {
    hide Tiled, Free, Order, Pow2;
    var b, r := c.lists[o][k], c.h.live;
    var c' := Hold(c, o, k);
    assert r - {} == r;
    assert b in r && Free(c.h, b) && Order(c.h, b) == o;
    ListDel(c.h, c.h, r, o, k, c.lists);
    assert (r - {b}) + {b} == r;
    assert Bill(c'.total, o, SizeOf(c.h, o)) == c.total;
    Billed(c.h, c.h, r - {b}, b, c'.total);
    SumUpdate(c.total, o, c'.total[o]);
  }

  /** Put the block held into its list and the books. */
  function Shelve(c: State, b: nat): State
    requires Order(c.h, b) < |c.lists| == |c.total|
  {
    var o := Order(c.h, b);
    c.(lists := c.lists[o := [b] + c.lists[o]], total := Bill(c.total, o, SizeOf(c.h, o)))
  }

  lemma ShelveOk(c: State, b: nat)
    requires Inv(c, Some(b)) && !FreeBuddies(c.h, b)
    requires Order(c.h, b) == c.h.max ==> c.lists[c.h.max] == []
    ensures Order(c.h, b) <= c.h.max && Inv(Shelve(c, b), None)
  {
    hide Tiled, Free, Order, Pow2, Coalesced, FreeBuddies;
    OrderAt(c, b);
    Release(c.h, b);
    var r, o := c.h.live - {b}, Order(c.h, b);
    ListAdd(c.h, c.h, r, b, c.lists);
    Billed(c.h, c.h, r, b, c.total);
    assert r + {b} == c.h.live && c.h.live - {} == c.h.live;
    SumUpdate(c.total, o, c.total[o] + SizeOf(c.h, o));
  }

  /** slab_split: the new buddy goes to its list. */
  function SplitHeld(c: State, b: nat): State
    requires 0 < Order(c.h, b) <= |c.lists| == |c.total|
  {
    var o, h' := Order(c.h, b) - 1, Split(c.h, b);
    c.(h := h', lists := c.lists[o := [Pal(h', b)] + c.lists[o]], total := Bill(c.total, o, SizeOf(c.h, o)))
  }

  lemma SplitHeldOk(c: State, b: nat)
    requires Inv(c, Some(b)) && Order(c.h, b) > 0
    ensures Order(c.h, b) <= c.h.max
    ensures Inv(SplitHeld(c, b), Some(b)) && Order(SplitHeld(c, b).h, b) == Order(c.h, b) - 1
    ensures Busy(SplitHeld(c, b).h) == Busy(c.h) && Kept(c.h, SplitHeld(c, b).h, c.h.live - {b})
  {
    hide Tiled, Pow2, Coalesced, Sum, Bytes, HeaderOk;
    OrderAt(c, b);
    SplitTiled(c.h, b);
    SplitCoalesced(c.h, b);
    var h, h', r := c.h, Split(c.h, b), c.h.live - {b};
    var o, y := Order(c.h, b) - 1, Pal(h', b);
    assert (h'.live - {b}) == r + {y};
    assert SameFree(h, h', r);
    ListAdd(h, h', r, y, c.lists);
    Billed(h, h', r, y, c.total);
    SumUpdate(c.total, o, c.total[o] + SizeOf(h, o));
    assert Busy(h') == Busy(h);
    BooksSame(h, h', Busy(h), c.used);
    Doubled(h, o);
  }

  lemma Doubled(h: Heap, o: nat)
    ensures SizeOf(h, o + 1) == 2 * SizeOf(h, o)
  {
  }

  lemma BooksSame(h: Heap, h': Heap, r: set<nat>, counter: seq<int>)
    requires SameAt(h, h', r)
    ensures Books(h, r, counter) == Books(h', r, counter)
  {
    hide Order, Pow2;
    forall o | 0 <= o <= h.max ensures Bytes(h, r, o) == Bytes(h', r, o) {
      assert AtOrder(h, r, o) == AtOrder(h', r, o);
    }
  }

  /** slab_merge: the buddy, entry k of its list, leaves the list and the books. */
  function MergeHeld(c: State, b: nat, k: nat): State
    requires Order(c.h, b) < |c.lists| == |c.total| && k < |c.lists[Order(c.h, b)]|
    requires b in c.h.hdr && c.lists[Order(c.h, b)][k] in c.h.hdr
  {
    var o := Order(c.h, b);
    var y := c.lists[o][k];
    c.(h := Merge(c.h, b, y), lists := c.lists[o := Without(c.lists[o], k)],
       total := Unbill(c.total, o, SizeOf(c.h, o)))
  }

  lemma BuddyListed(c: State, b: nat) returns (k: nat)
    requires Inv(c, Some(b)) && FreeBuddies(c.h, b)
    ensures Order(c.h, b) < |c.lists| == |c.total| && k < |c.lists[Order(c.h, b)]|
    ensures c.lists[Order(c.h, b)][k] == Pal(c.h, b) && b in c.h.hdr && Pal(c.h, b) in c.h.hdr
    ensures c.h.hdr[Pal(c.h, b)].size == SizeOf(c.h, Order(c.h, b))
  {
    hide Tiled, Pow2, Bytes, Coalesced;
    MergeTiled(c.h, b);
    OrderAt(c, Pal(c.h, b));
    assert Pal(c.h, b) in c.lists[Order(c.h, b)];
    k :| 0 <= k < |c.lists[Order(c.h, b)]| && c.lists[Order(c.h, b)][k] == Pal(c.h, b);
  }

  lemma MergeHeldOk(c: State, b: nat, k: nat)
    requires Inv(c, Some(b)) && FreeBuddies(c.h, b) && b in c.h.hdr
    requires Order(c.h, b) < |c.lists| == |c.total| && k < |c.lists[Order(c.h, b)]|
    requires c.lists[Order(c.h, b)][k] == Pal(c.h, b) && Pal(c.h, b) in c.h.hdr
    ensures var low, c' := Low(b, Pal(c.h, b)), MergeHeld(c, b, k);
            && Inv(c', Some(low)) && Order(c'.h, low) == Order(c.h, b) + 1
            && Busy(c'.h) == Busy(c.h) && Kept(c.h, c'.h, Busy(c.h))
  {
    hide Tiled, Pow2, Coalesced, Sum, Bytes, HeaderOk;
    var y, o := Pal(c.h, b), Order(c.h, b);
    MergeTiled(c.h, b);
    MergeCoalesced(c.h, b);
    var h, h', r, low, c' := c.h, Merge(c.h, b, y), c.h.live - {b}, Low(b, y), MergeHeld(c, b, k);
    assert h'.live - {low} == r - {y};
    assert SameFree(h, h', r - {y});
    ListDel(h, h', r, o, k, c.lists);
    assert Bill(c'.total, o, SizeOf(h, o)) == c.total && (r - {y}) + {y} == r;
    BooksSame(h, h', r - {y}, c'.total);
    Billed(h, h, r - {y}, y, c'.total);
    SumUpdate(c.total, o, c'.total[o]);
    assert Busy(h') == Busy(h);
    BooksSame(h, h', Busy(h), c.used);
    Doubled(h, o);
  }

  /** slab_set_used, on the block held, once it is back in the books. */
  function UseHeld(c: State, b: nat): State
    requires Order(c.h, b) < |c.used| == |c.total| && b in c.h.hdr
  {
    var o := Order(c.h, b);
    c.(h := Marked(c.h, b, o + 1), total := Bill(c.total, o, SizeOf(c.h, o)), used := Bill(c.used, o, SizeOf(c.h, o)),
       allocUsed := c.allocUsed + SizeOf(c.h, o))
  }

  lemma UseHeldOk(c: State, b: nat)
    requires Inv(c, Some(b))
    ensures Order(c.h, b) < |c.used| == |c.total| && b in c.h.hdr
    ensures var c' := UseHeld(c, b);
            Inv(c', None) && Busy(c'.h) == Busy(c.h) + {b} && b !in Busy(c.h) && Kept(c.h, c'.h, c.h.live - {b})
  {
    hide Tiled, Pow2, Coalesced, Sum, Bytes, HeaderOk;
    OrderAt(c, b);
    var o, h, r := Order(c.h, b), c.h, c.h.live - {b};
    var h', c' := Marked(h, b, o + 1), UseHeld(c, b);
    MarkedTiled(h, b, o + 1);
    MarkedCoalesced(h, b, o + 1);
    assert r + {b} == h'.live == h'.live - {};
    Billed(h, h', r, b, c.total);
    assert Busy(h') == Busy(h) + {b};
    Billed(h, h', Busy(h), b, c.used);
    SumUpdate(c.total, o, c.total[o] + SizeOf(h, o));
    SumUpdate(c.used, o, c.used[o] + SizeOf(h, o));
    ListedUsed(h, h', b, c.lists);
    assert forall x :: x in r ==> x in h.hdr by { OthersInMap(h); }
  }

  lemma ListedUsed(h: Heap, h': Heap, b: nat, lists: seq<seq<nat>>)
    requires h.live == h'.live && b in h.live && SameFree(h, h', h.live - {b}) && !Free(h', b)
    requires Listed(h, h.live - {b}, lists)
    ensures Listed(h', h'.live, lists)
  {
    hide Order, Free;
    forall o, x | 0 <= o <= h.max ensures x in lists[o] <==> x in h'.live && Free(h', x) && Order(h', x) == o {
      assert x in lists[o] <==> x in h.live - {b} && Free(h, x) && Order(h, x) == o;
    }
  }

  /** slab_set_free, and the block out of the books for the merge. */
  function FreeHeld(c: State, b: nat): State
    requires Order(c.h, b) < |c.used| == |c.total| && b in c.h.hdr
  {
    var o := Order(c.h, b);
    c.(h := Marked(c.h, b, 0), total := Unbill(c.total, o, SizeOf(c.h, o)), used := Unbill(c.used, o, SizeOf(c.h, o)),
       allocUsed := c.allocUsed - SizeOf(c.h, o))
  }

  lemma FreeHeldOk(c: State, b: nat)
    requires Inv(c, None) && b in Busy(c.h)
    ensures Order(c.h, b) < |c.used| == |c.total| && b in c.h.hdr
    ensures var c' := FreeHeld(c, b);
            Inv(c', Some(b)) && Busy(c'.h) == Busy(c.h) - {b} && Kept(c.h, c'.h, c.h.live - {b})
  {
    hide Tiled, Pow2, Sum, Bytes, HeaderOk;
    OrderAt(c, b);
    var o, h, r := Order(c.h, b), c.h, c.h.live - {b};
    var h', c' := Marked(h, b, 0), FreeHeld(c, b);
    MarkedTiled(h, b, 0);
    MarkedCoalesced(h, b, 0);
    assert r + {b} == h.live == h.live - {};
    assert Bill(c'.total, o, SizeOf(h, o)) == c.total && Bill(c'.used, o, SizeOf(h, o)) == c.used;
    Billed(h', h, r, b, c'.total);
    assert Busy(h') + {b} == Busy(h);
    Billed(h', h, Busy(h'), b, c'.used);
    SumUpdate(c.total, o, c'.total[o]);
    SumUpdate(c.used, o, c'.used[o]);
    ListedFree(h, h', b, c.lists);
    assert forall x :: x in r ==> x in h.hdr by { OthersInMap(h); }
  }

  lemma ListedFree(h: Heap, h': Heap, b: nat, lists: seq<seq<nat>>)
    requires h.live == h'.live && b in h.live && SameFree(h, h', h.live - {b}) && !Free(h, b)
    requires Listed(h, h.live, lists)
    ensures Listed(h', h'.live - {b}, lists)
  {
    hide Order, Free;
    forall o, x | 0 <= o <= h.max ensures x in lists[o] <==> x in h'.live - {b} && Free(h', x) && Order(h', x) == o {
    }
  }

  /** slab_map's slab comes in as one free block. */
  function MapSlab(c: State, s: nat): State
    requires c.h.max < |c.lists| == |c.total|
  {
    var o, h' := c.h.max, Mapped(c.h, s);
    c.(h := h', lists := c.lists[o := [s] + c.lists[o]], total := Bill(c.total, o, SizeOf(c.h, o)),
       allocTotal := c.allocTotal + SizeOf(c.h, o))
  }

  lemma MapSlabOk(c: State, s: nat)
    requires Inv(c, None) && s !in c.h.arena && Aligned(s, Top(c.h)) && c.lists[c.h.max] == []
    ensures Inv(MapSlab(c, s), None) && Busy(MapSlab(c, s).h) == Busy(c.h) && Kept(c.h, MapSlab(c, s).h, Busy(c.h))
  {
    hide Tiled, Pow2, Sum, Bytes, Coalesced, Mapped, Order, Free, Aligned, Joined, Busy, Kept;
    var h, h', o, r := c.h, Mapped(c.h, s), c.h.max, c.h.live;
    assert r - {} == r && h'.live - {} == h'.live;
    MappedFacts(h, s);
    ListAdd(h, h', r, s, c.lists);
    Billed(h, h', r, s, c.total);
    SumUpdate(c.total, o, c.total[o] + SizeOf(h, o));
    BooksSame(h, h', Busy(h), c.used);
    Times(SizeOf(h, o), |h.arena|);
  }

  lemma MappedFacts(h: Heap, s: nat)
    requires Tiled(h) && s !in h.arena && Aligned(s, Top(h)) && Coalesced(h, {})
    ensures var h' := Mapped(h, s);
            && Tiled(h') && Coalesced(h', {}) && SameFree(h, h', h.live) && Free(h', s) && Order(h', s) == h.max
            && h'.live == h.live + {s} && s !in h.live && h'.arena == h.arena + {s} && s !in h.arena
            && Busy(h') == Busy(h) && Kept(h, h', Busy(h)) && SameAt(h, h', Busy(h))
  {
    hide Tiled, Pow2, Coalesced, Aligned, Base;
    MappedOk(h, s);
  }

  /** A whole arena slab is handed back. */
  function UnmapHeld(c: State, s: nat): State {
    c.(h := Unmapped(c.h, s), allocTotal := c.allocTotal - SizeOf(c.h, c.h.max))
  }

  lemma UnmapHeldOk(c: State, s: nat)
    requires Inv(c, Some(s)) && Order(c.h, s) == c.h.max
    ensures Inv(UnmapHeld(c, s), None) && Busy(UnmapHeld(c, s).h) == Busy(c.h) && s in c.h.arena
    ensures Kept(c.h, UnmapHeld(c, s).h, c.h.live - {s})
  {
    hide Tiled, Pow2, Sum, Bytes, HeaderOk, Aligned, Base;
    var h, h', r := c.h, Unmapped(c.h, s), c.h.live - {s};
    UnmappedOk(h, s);
    assert h'.live - {} == r;
    ListedSame(h, h', r, c.lists);
    BooksSame(h, h', r, c.total);
    assert Busy(h') == Busy(h);
    BooksSame(h, h', Busy(h), c.used);
    Times(SizeOf(h, h.max), |h'.arena|);
  }

  lemma ListedSame(h: Heap, h': Heap, r: set<nat>, lists: seq<seq<nat>>)
    requires SameFree(h, h', r) && Listed(h, r, lists)
    ensures Listed(h', r, lists)
  {
    hide Order, Free;
    forall o, x | 0 <= o <= h.max ensures x in lists[o] <==> x in r && Free(h', x) && Order(h', x) == o {
    }
  }

  /** When every ordered slab has been returned, at most one arena slab is left, whole, and the books show
      it and the large slabs. */
  lemma AllReturned(c: State)
    requires Inv(c, None) && Busy(c.h) == {}
    ensures c.h.live == c.h.arena && |c.h.arena| <= 1 && (c.h.arena != {} ==> |c.h.arena| == 1)
    ensures c.allocTotal == SizeOf(c.h, c.h.max) * |c.h.arena| + SumLarge(c.large)
    ensures c.allocUsed == SumLarge(c.large)
  {
    hide Tiled, Pow2, Coalesced;
    forall b | b in c.h.live ensures Free(c.h, b) {
      assert b !in Busy(c.h);
    }
    AllFreeAllWhole(c.h);
    var l := c.lists[c.h.max];
    assert c.h.live - {} == c.h.live;
    assert forall b :: b in l <==> b in c.h.arena;
    assert c.h.arena == if l == [] then {} else {l[0]};
    forall o | 0 <= o < |c.used| ensures c.used[o] == 0 {
      assert AtOrder(c.h, {}, o) == {};
    }
    SumZero(c.used);
  }

  // ---------- sizes ----------

  /** The aligned size of struct slab. */
  const SLAB_SIZEOF := 48

  /** 32 less the number of leading zeros of a positive unsigned. */
  function BitLength(n: nat): nat { if n == 0 then 0 else 1 + BitLength(n / 2) }

  lemma {:induction false} BitLengthIs(n: nat)
    requires n > 0
    ensures BitLength(n) > 0 && Pow2(BitLength(n) - 1) <= n < Pow2(BitLength(n))
  {
    if n > 1 { BitLengthIs(n / 2); }
  }

  lemma {:induction false} Pow2Grows(i: nat, j: nat)
    requires i < j
    ensures 2 * Pow2(i) <= Pow2(j)
    decreases j
  {
    if i + 1 < j { Pow2Grows(i, j - 1); }
  }

  /** slab_order_size */
  function OrderSize(lb: nat, o: nat): nat { Pow2(lb + o) }

  /** slab_order */
  function SlabOrder(lb: nat, max: nat, size: nat): int {
    if size <= Pow2(lb) then 0
    else if size > Pow2(lb + max) then max + 1
    else BitLength(size - 1) - lb
  }

  /** The least order whose slabs hold size bytes, and max + 1 exactly when none does. */
  lemma SlabOrderIsLeast(lb: nat, max: nat, size: nat)
    ensures var o := SlabOrder(lb, max, size);
            && 0 <= o <= max + 1 && (o == max + 1 <==> size > OrderSize(lb, max))
            && (o <= max ==> size <= OrderSize(lb, o))
            && (forall i: nat :: i < o ==> OrderSize(lb, i) < size)
  {
    var o := SlabOrder(lb, max, size);
    if Pow2(lb) < size <= Pow2(lb + max) {
      PowPos(lb);
      BitLengthIs(size - 1);
      var k := BitLength(size - 1);
      if k < lb { Pow2Grows(k, lb); }
      if k > lb + max { if lb + max < k - 1 { Pow2Grows(lb + max, k - 1); } }
    }
    if max > 0 { Pow2Grows(lb, lb + max); }
    forall i: nat | i < o ensures OrderSize(lb, i) < size {
      if o <= max {
        var k := BitLength(size - 1);
        if lb + i < k - 1 { Pow2Grows(lb + i, k - 1); }
      } else if i < max {
        Pow2Grows(lb + i, lb + max);
      }
    }
  }

  // ---------- the cache ----------

  class Cache {
    const lb: nat
    const max: nat
    var hdr: map<nat, Header>
    var lists: seq<seq<nat>>
    var total: seq<int>
    var used: seq<int>
    var arena: set<nat>
    var large: seq<Large>
    var allocTotal: int
    var allocUsed: int
    ghost var live: set<nat>

    ghost function S(): State
      reads this
    {
      State(Heap(lb, max, arena, live, hdr), lists, total, used, large, allocTotal, allocUsed)
    }

    ghost predicate Valid()
      reads this
    {
      Inv(S(), None)
    }

    constructor (lb: nat, max: nat)
      ensures Valid() && Busy(S().h) == {} && arena == {} && large == [] && this.lb == lb && this.max == max
    {
      this.lb, this.max := lb, max;
      hdr, live, arena, large, allocTotal, allocUsed := map[], {}, {}, [], 0, 0;
      lists, total, used := seq(max + 1, _ => []), seq(max + 1, _ => 0), seq(max + 1, _ => 0);
      new;
      SumZero(total);
      assert forall o :: AtOrder(S().h, {}, o) == {};
      assert Busy(S().h) == {};
    }

    /** slab_split */
    method Split(slab: nat)
      requires Inv(S(), Some(slab)) && Order(S().h, slab) > 0
      modifies this
      ensures Order(old(S()).h, slab) <= max && S() == SplitHeld(old(S()), slab) && Inv(S(), Some(slab))
      ensures Busy(S().h) == Busy(old(S()).h) && Kept(old(S()).h, S().h, Busy(old(S()).h))
      ensures Order(S().h, slab) == Order(old(S()).h, slab) - 1
    {
      hide Inv, Tiled, Books, Listed, Busy, Kept, Pow2;
      ghost var c := S();
      LooseFacts(c, slab);
      SplitHeldOk(c, slab);
      KeptBusy(c.h, SplitHeld(c, slab).h, slab);
      var newOrder := hdr[slab].order - 1;
      var newSize := Pow2(lb + newOrder);
      hdr := hdr[slab := Header(newOrder, newSize, 0)];
      var buddy := Buddy(slab, lb + hdr[slab].order);
      hdr := hdr[buddy := Header(newOrder, newSize, 0)];
      lists := lists[newOrder := [buddy] + lists[newOrder]];
      total := Bill(total, newOrder, newSize);
      live := live + {buddy};
      assert S() == SplitHeld(c, slab);
    }

    /** slab_merge */
    method Merge(slab: nat, buddy: nat) returns (merged: nat)
      requires Inv(S(), Some(slab)) && FreeBuddies(S().h, slab) && buddy == Pal(S().h, slab)
      modifies this
      ensures merged == Low(slab, buddy) && Inv(S(), Some(merged))
      ensures Busy(S().h) == Busy(old(S()).h) && Kept(old(S()).h, S().h, Busy(old(S()).h))
      ensures Order(S().h, merged) == Order(old(S()).h, slab) + 1 && arena == old(arena) && large == old(large)
      ensures |lists| == |old(lists)| == max + 1 && lists[max] == old(lists)[max]
      ensures Base(merged, lb + max) == Base(slab, lb + max)
    {
      hide Inv, Tiled, Books, Listed, Busy, Kept, Pow2;
      ghost var c := S();
      LooseFacts(c, slab);
      ghost var at := BuddyListed(c, slab);
      PalInSlab(c.h, slab);
      var o := hdr[slab].order;
      var k := IndexOf(lists[o], buddy);
      MergeHeldOk(c, slab, k);
      merged := if slab > buddy then buddy else slab;
      lists := lists[o := Without(lists[o], k)];
      total := Unbill(total, o, hdr[buddy].size);
      hdr := hdr[merged := hdr[merged].(order := o + 1, size := Pow2(lb + o + 1))];
      live := live - {slab + buddy - merged};
      assert S() == MergeHeld(c, slab, k);
    }

    /** slab_get_with_order; mapped is what slab_map would give. */
    method GetWithOrder(order: nat, mapped: Option<nat>) returns (r: Option<nat>)
      requires Valid() && order <= max
      requires mapped.Some? ==> mapped.value !in arena && Aligned(mapped.value, lb + max)
      modifies this
      ensures Valid() && large == old(large)
      ensures r.None? <==> mapped.None? && NoneFrom(old(lists), order)
      ensures r.None? ==> S() == old(S())
      ensures r.Some? ==> Granted(old(S()).h, S().h, r.value, order) && arena != {}
      ensures FirstFit(old(lists), order, max, r) || (NoneFrom(old(lists), order) && r == mapped)
      ensures arena == old(arena) + if FirstFit(old(lists), order, max, r) || r.None? then {} else {r.value}
    {
      hide Inv, Tiled, Books, Listed, Busy, Kept, Aligned, Granted, Pow2;
      ghost var c := S();
      Shape(c);
      var i := order;
      while lists[i] == []
        invariant order <= i <= max && S() == c && forall o :: order <= o < i ==> lists[o] == []
        decreases max - i
      {
        if i == max {
          if mapped.None? { return None; }
          var slab := mapped.value;
          MapSlabOk(c, slab);
          hdr := hdr[slab := Header(max, Pow2(lb + max), 0)];
          arena, live := arena + {slab}, live + {slab};
          allocTotal := allocTotal + hdr[slab].size;
          lists := lists[i := [slab] + lists[i]];
          total := Bill(total, i, hdr[slab].size);
          assert S() == MapSlab(c, slab);
          break;
        }
        i := i + 1;
      }
      ghost var c1 := S();
      r := Take(i, order);
      Grant(c.h, c1.h, S().h, r.value, order);
      GrantedLive(c.h, S().h, r.value, order);
      ArenaNotEmpty(S(), r.value);
    }

    /** The rest of slab_get_with_order, with list i not empty. */
    method Take(i: nat, order: nat) returns (r: Option<nat>)
      requires Valid() && order <= i <= max && |lists| == max + 1 && lists[i] != []
      modifies this
      ensures Valid() && r == Some(old(lists)[i][0]) && arena == old(arena) && large == old(large)
      ensures Granted(old(S()).h, S().h, r.value, order)
    {
      hide Inv, Tiled, Books, Listed, Busy, Kept, Granted, Pow2;
      ghost var c0 := S();
      Shape(c0);
      HoldOk(c0, i, 0);
      var slab := lists[i][0];
      lists := lists[i := Without(lists[i], 0)];
      ghost var c := Hold(c0, i, 0);
      LooseFacts(c, slab);
      if hdr[slab].order != order {
        total := Unbill(total, i, hdr[slab].size);
        assert S() == c;
        while hdr[slab].order != order
          invariant Inv(S(), Some(slab)) && slab in hdr && order <= hdr[slab].order && |total| == max + 1
          invariant Busy(S().h) == Busy(c0.h) && Kept(c0.h, S().h, Busy(c0.h)) && arena == c0.h.arena
          invariant large == c0.large
          decreases if slab in hdr then hdr[slab].order else 0
        {
          ghost var was := S();
          Split(slab);
          KeptOn(c0.h, was.h, S().h, Busy(c0.h));
          LooseFacts(S(), slab);
        }
        c := S();
        LooseFacts(c, slab);
        total := Bill(total, order, hdr[slab].size);
      }
      UseHeldOk(c, slab);
      allocUsed := allocUsed + hdr[slab].size;
      used := Bill(used, hdr[slab].order, hdr[slab].size);
      hdr := hdr[slab := hdr[slab].(inUse := 1 + hdr[slab].order)];
      assert S().total == UseHeld(c, slab).total;
      assert S() == UseHeld(c, slab);
      Used(c0.h, c, slab);
      r := Some(slab);
    }

    /** The buddy, if slab_put_with_order may merge with it: it reads the header at the buddy's
        address, whatever block starts there. */
    method FreeBuddy(slab: nat) returns (buddy: Option<nat>)
      requires Tiled(S().h) && slab in live && Free(S().h, slab)
      ensures buddy.Some? <==> FreeBuddies(S().h, slab)
      ensures buddy.Some? ==> buddy.value == Pal(S().h, slab)
    {
      hide Tiled, Pow2;
      OrderAt(S(), slab);
      if hdr[slab].order == max { return None; }
      BuddyIsLive(S().h, slab);
      OrderAt(S(), Pal(S().h, slab));
      var y := Buddy(slab, lb + hdr[slab].order);
      return if hdr[y].order == hdr[slab].order && hdr[y].inUse == 0 then Some(y) else None;
    }

    /** slab_put_with_order; unmapped is the arena slab given back, if any. */
    method PutWithOrder(b: nat) returns (unmapped: Option<nat>)
      requires Valid() && b in Busy(S().h)
      modifies this
      ensures Valid() && large == old(large)
      ensures Busy(S().h) == Busy(old(S()).h) - {b} && Kept(old(S()).h, S().h, Busy(S().h))
      ensures |old(lists)| == max + 1
      ensures unmapped.Some? <==> old(lists)[max] != [] && Idle(S().h, Base(b, lb + max))
      ensures unmapped.None? ==> arena == old(arena)
      ensures unmapped.Some? ==>
                && unmapped.value == Base(b, lb + max) && unmapped.value in old(arena)
                && arena == old(arena) - {unmapped.value}
      ensures arena != {} && (Busy(S().h) == {} ==> |arena| == 1)
    {
      hide Inv, Tiled, Books, Listed, Busy, Kept, Pow2, FreeBuddies, Free, Idle, Base;
      ghost var c0 := S();
      FreeHeldOk(c0, b);
      ghost var c := FreeHeld(c0, b);
      LooseFacts(c, b);
      KeptRest(c0, b);
      var slab := b;
      allocUsed := allocUsed - hdr[slab].size;
      used := Unbill(used, hdr[slab].order, hdr[slab].size);
      hdr := hdr[slab := hdr[slab].(inUse := 0)];
      assert S().total == Rebill(c, slab).total;
      var buddy := FreeBuddy(slab);
      if buddy.Some? {
        total := Unbill(total, hdr[slab].order, hdr[slab].size);
        assert S() == c;
        while buddy.Some?
          invariant Inv(S(), Some(slab)) && slab in hdr && |total| == max + 1
          invariant buddy.Some? <==> FreeBuddies(S().h, slab)
          invariant buddy.Some? ==> buddy.value == Pal(S().h, slab)
          invariant Busy(S().h) == Busy(c.h) && Kept(c0.h, S().h, Busy(c.h)) && arena == c0.h.arena && large == c0.large
          invariant |lists| == max + 1 && lists[max] == c0.lists[max] && Base(slab, lb + max) == Base(b, lb + max)
          decreases if slab in hdr then max - hdr[slab].order else 0, buddy.Some?
        {
          ghost var was := S();
          LooseFacts(was, slab);
          slab := Merge(slab, buddy.value);
          KeptOn(c0.h, was.h, S().h, Busy(c.h));
          LooseFacts(S(), slab);
          buddy := FreeBuddy(slab);
        }
        c := S();
        LooseFacts(c, slab);
        total := Bill(total, hdr[slab].order, hdr[slab].size);
      }
      unmapped := Return(slab, c);
      KeptOn(c0.h, c.h, S().h, Busy(c.h));
      if Busy(S().h) == {} { AllReturned(S()); }
    }

    /** The end of slab_put_with_order: to the free list, or, of two whole slabs, back to the arena. */
    method Return(slab: nat, ghost c: State) returns (unmapped: Option<nat>)
      requires Inv(c, Some(slab)) && !FreeBuddies(c.h, slab)
      requires Order(c.h, slab) < |c.total| && S() == Rebill(c, slab)
      modifies this
      ensures Valid() && Busy(S().h) == Busy(c.h) && Kept(c.h, S().h, Busy(c.h)) && large == old(large)
      ensures |old(lists)| == max + 1
      ensures unmapped.Some? <==> old(lists)[max] != [] && Idle(S().h, Base(slab, lb + max))
      ensures unmapped.None? ==> arena == old(arena)
      ensures unmapped.Some? ==>
                && unmapped.value == slab == Base(slab, lb + max) && slab in old(arena)
                && arena == old(arena) - {unmapped.value}
      ensures arena != {}
    {
      hide Inv, Tiled, Books, Listed, Busy, Kept, Pow2, FreeBuddies, Free, Idle, Base;
      LooseFacts(c, slab);
      if hdr[slab].order == max && lists[max] != [] {
        UnmapHeldOk(c, slab);
        GoneIdle(c, slab);
        KeptBusy(c.h, UnmapHeld(c, slab).h, slab);
        arena, live := arena - {slab}, live - {slab};
        allocTotal := allocTotal - hdr[slab].size;
        total := Unbill(total, max, hdr[slab].size);
        assert S() == UnmapHeld(c, slab);
        unmapped := Some(slab);
        ListedLive(S(), max, 0);
        ArenaNotEmpty(S(), lists[max][0]);
      } else {
        ShelveOk(c, slab);
        ShelvedWhole(c, slab);
        lists := lists[hdr[slab].order := [slab] + lists[hdr[slab].order]];
        assert S() == Shelve(c, slab);
        unmapped := None;
        KeptSame(c, slab);
        ArenaNotEmpty(S(), slab);
      }
    }

    /** slab_get_large; quota says whether quota_use let it through, memory what malloc returned. */
    method GetLarge(size: nat, quota: bool, memory: Option<nat>) returns (r: Option<nat>)
      requires Valid()
      requires memory.Some? ==> forall i :: 0 <= i < |large| ==> large[i].addr != memory.value
      modifies this
      ensures Valid() && r == (if quota then memory else None)
      ensures r.None? ==> S() == old(S())
      ensures S() == old(S()).(large := large, allocTotal := allocTotal, allocUsed := allocUsed)
      ensures large == if r.None? then old(large) else [Large(r.value, size + SLAB_SIZEOF)] + old(large)
    {
      if !quota { return None; }
      if memory.None? { return None; }
      var bytes := size + SLAB_SIZEOF;
      ghost var was := large;
      large := [Large(memory.value, bytes)] + large;
      allocTotal, allocUsed := allocTotal + bytes, allocUsed + bytes;
      assert large[1..] == was;
      return memory;
    }

    /** slab_put_large */
    method PutLarge(slab: nat)
      requires Valid() && exists i :: 0 <= i < |large| && large[i].addr == slab
      modifies this
      ensures Valid() && S() == old(S()).(large := large, allocTotal := allocTotal, allocUsed := allocUsed)
      ensures exists i :: 0 <= i < |old(large)| && old(large)[i].addr == slab && large == Without(old(large), i)
    {
      hide Tiled, Books, Listed, Coalesced, Sum;
      var i := 0;
      while large[i].addr != slab
        invariant 0 <= i < |large| && exists j :: i <= j < |large| && large[j].addr == slab
        decreases |large| - i
      {
        i := i + 1;
      }
      SumWithout(large, i);
      allocTotal, allocUsed := allocTotal - large[i].size, allocUsed - large[i].size;
      large := Without(large, i);
    }

    /** slab_get: the slab has the size that slab_real_size foretells. */
    method Get(size: nat, mapped: Option<nat>, quota: bool, memory: Option<nat>) returns (r: Option<nat>)
      requires Valid()
      requires mapped.Some? ==> mapped.value !in arena && Aligned(mapped.value, lb + max)
      requires memory.Some? ==> forall i :: 0 <= i < |large| ==> large[i].addr != memory.value
      modifies this
      ensures Valid()
      ensures r.None? ==> S() == old(S())
      ensures size + SLAB_SIZEOF <= Pow2(lb + max) ==>
                && var o := SlabOrder(lb, max, size + SLAB_SIZEOF);
                o >= 0 && (r.None? <==> mapped.None? && NoneFrom(old(lists), o))
      ensures size + SLAB_SIZEOF > Pow2(lb + max) ==> r == if quota then memory else None
      ensures r.Some? && size + SLAB_SIZEOF <= Pow2(lb + max) ==>
                && Granted(old(S()).h, S().h, r.value, SlabOrder(lb, max, size + SLAB_SIZEOF)) && large == old(large)
                && r.value in hdr && hdr[r.value].size == RealSize(lb, max, size)
      ensures r.Some? && size + SLAB_SIZEOF > Pow2(lb + max) ==>
                && S().h == old(S()).h && large == [Large(r.value, RealSize(lb, max, size))] + old(large)
    {
      hide Inv, Tiled, Pow2;
      SlabOrderIsLeast(lb, max, size + SLAB_SIZEOF);
      var order := SlabOrder(lb, max, size + SLAB_SIZEOF);
      if order == max + 1 {
        r := GetLarge(size, quota, memory);
      } else {
        r := GetWithOrder(order, mapped);
        if r.Some? { OrderAt(S(), r.value) by { TiledOf(S()); } }
      }
    }
  }

  /** slab_real_size */
  function RealSize(lb: nat, max: nat, size: nat): nat {
    var order := SlabOrder(lb, max, size + SLAB_SIZEOF);
    if order == max + 1 then size + SLAB_SIZEOF else if order >= 0 then Pow2(lb + order) else 0
  }

  /** No slab of the order asked for or a higher one is free. */
  predicate NoneFrom(lists: seq<seq<nat>>, order: nat) { forall o :: order <= o < |lists| ==> lists[o] == [] }

  /** r is the first slab of the first list, from the order asked for up, that is not empty. */
  predicate FirstFit(lists: seq<seq<nat>>, order: nat, max: nat, r: Option<nat>)
    requires |lists| == max + 1
  {
    exists i :: order <= i <= max && lists[i] != [] && r == Some(lists[i][0]) &&
                forall o :: order <= o < i ==> lists[o] == []
  }

  /** A slab of the order asked for, in nobody's use before; all slabs in use stay as they are. */
  ghost predicate Granted(h: Heap, h': Heap, b: nat, order: int) {
    && b in h'.live && b !in Busy(h) && Busy(h') == Busy(h) + {b} && Order(h', b) == order
    && Kept(h, h', Busy(h))
  }

  lemma Used(h0: Heap, c: State, b: nat)
    requires Inv(c, Some(b)) && Busy(c.h) == Busy(h0) && Kept(h0, c.h, Busy(h0))
    requires Order(c.h, b) < |c.used| == |c.total| && b in c.h.hdr
    ensures Granted(h0, UseHeld(c, b).h, b, Order(c.h, b))
  {
    hide Tiled, Pow2, Books, Listed, Coalesced;
  }

  lemma Grant(h0: Heap, h1: Heap, h: Heap, b: nat, order: nat)
    requires Busy(h0) == Busy(h1) && Kept(h0, h1, Busy(h0)) && Granted(h1, h, b, order)
    ensures Granted(h0, h, b, order)
  {
  }

  lemma ArenaNotEmpty(c: State, b: nat)
    requires Inv(c, None) && b in c.h.live
    ensures c.h.arena != {}
  {
    hide Listed, Books, Coalesced;
    HeaderAt(c.h, b);
  }

  lemma GrantedLive(h: Heap, h': Heap, b: nat, order: nat)
    requires Granted(h, h', b, order)
    ensures b in h'.live
  {
  }

  /** A whole slab that goes leaves no block in use behind. */
  lemma GoneIdle(c: State, s: nat)
    requires Inv(c, Some(s)) && Order(c.h, s) == c.h.max
    ensures s == Base(s, Top(c.h)) && Idle(UnmapHeld(c, s).h, s)
  {
    hide Tiled, Base, Pow2, Listed, Books;
    UnmappedOk(c.h, s);
    HeaderAt(c.h, s);
    BaseOf(s, s, Top(c.h));
  }

  lemma ShelvedWhole(c: State, b: nat)
    requires Inv(c, Some(b)) && !FreeBuddies(c.h, b)
    ensures Order(c.h, b) == c.h.max <==> Idle(c.h, Base(b, Top(c.h)))
  {
    hide Tiled, Base, Pow2, Listed, Books, Idle, FreeBuddies;
    Release(c.h, b);
    WholeExactly(c.h, b);
  }

  lemma PalInSlab(h: Heap, b: nat)
    requires Tiled(h) && FreeBuddies(h, b)
    ensures Order(h, b) < h.max && Base(Pal(h, b), Top(h)) == Base(b, Top(h))
  {
    hide Tiled, Base, Pow2, Buddy;
    HeaderAt(h, b);
    BuddyInSlab(b, Level(h, b), Top(h));
  }

  lemma KeptOn(h0: Heap, h1: Heap, h: Heap, r: set<nat>)
    requires Kept(h0, h1, r) && Kept(h1, h, r)
    ensures Kept(h0, h, r)
  {
  }

  /** The state with the block held back in the books, though in no list. */
  ghost function Rebill(c: State, b: nat): State
    requires Order(c.h, b) < |c.total|
  {
    c.(total := Bill(c.total, Order(c.h, b), SizeOf(c.h, Order(c.h, b))))
  }

  lemma KeptRest(c: State, b: nat)
    requires Order(c.h, b) < |c.used| == |c.total| && b in c.h.hdr && b in Busy(c.h)
    requires Kept(c.h, FreeHeld(c, b).h, c.h.live - {b}) && Busy(FreeHeld(c, b).h) == Busy(c.h) - {b}
    ensures Kept(c.h, FreeHeld(c, b).h, Busy(FreeHeld(c, b).h))
  {
  }

  lemma KeptSame(c: State, b: nat)
    requires Inv(c, Some(b))
    ensures Kept(c.h, c.h, Busy(c.h))
  {
    hide Tiled;
    OthersInMap(c.h);
  }

  lemma ListedLive(c: State, o: nat, k: nat)
    requires Inv(c, None) && o <= c.h.max && k < |c.lists[o]|
    ensures c.lists[o][k] in c.h.live
  {
    hide Tiled;
    assert c.lists[o][k] in c.lists[o] && c.h.live - {} == c.h.live;
  }

  lemma TiledOf(c: State)
    requires Inv(c, None)
    ensures Tiled(c.h)
  {
  }

  lemma Shape(c: State)
    requires Inv(c, None)
    ensures |c.lists| == |c.total| == |c.used| == c.h.max + 1 && Kept(c.h, c.h, Busy(c.h)) && Kept(c.h, c.h, c.h.live)
  {
    hide Tiled;
    OthersInMap(c.h);
  }

  lemma LooseFacts(c: State, b: nat)
    requires Inv(c, Some(b))
    ensures b in c.h.live && b in c.h.hdr && Order(c.h, b) <= c.h.max && Free(c.h, b)
    ensures |c.lists| == |c.total| == |c.used| == c.h.max + 1 && c.h.hdr[b].size == SizeOf(c.h, Order(c.h, b))
    ensures Tiled(c.h)
  {
    hide Tiled;
    OrderAt(c, b);
  }

  lemma KeptBusy(h: Heap, h': Heap, b: nat)
    requires Kept(h, h', h.live - {b}) && Free(h, b)
    ensures Kept(h, h', Busy(h))
  {
  }

  function IndexOf(s: seq<nat>, x: nat): (k: nat)
    requires x in s
    ensures k < |s| && s[k] == x
  {
    if s[0] == x then 0 else 1 + IndexOf(s[1..], x)
  }
}
