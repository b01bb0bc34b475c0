/**
 The state that small/slab_cache.c keeps, as a value: a buddy system over aligned arena slabs.
 Addresses are in bytes; a block of order o has 2^(lb + o) bytes, lb being order0_size_lb.
 */
module SlabCacheModel {

  import opened Common

  // ---------- powers of two and alignment ----------

  /** The k low bits are clear. */
  predicate Aligned(a: nat, k: nat) { k == 0 || (a % 2 == 0 && Aligned(a / 2, k - 1)) }

  /** slab_buddy: the address with bit k negated. */
  function Buddy(a: nat, k: nat): nat {
    if k > 0 then 2 * Buddy(a / 2, k - 1) + a % 2 else if a % 2 == 0 then a + 1 else a - 1
  }

  /** The address with the k low bits cleared, as slab_from_ptr masks it. */
  function Base(a: nat, k: nat): nat { if k == 0 then a else 2 * Base(a / 2, k - 1) }

  /** Halving a block. */
  lemma {:induction false} Halves(a: nat, k: nat)
    requires Aligned(a, k + 1)
    ensures Pow2(k + 1) == Pow2(k) + Pow2(k)
    ensures Aligned(a, k) && Aligned(a + Pow2(k), k)
    ensures Buddy(a, k) == a + Pow2(k) && Buddy(a + Pow2(k), k) == a
  {
    if k > 0 {
      Halves(a / 2, k - 1);
      assert (a + Pow2(k)) / 2 == a / 2 + Pow2(k - 1);
    }
  }

  /** A block and its buddy are the halves of one block. */
  lemma {:induction false} Buddies(a: nat, k: nat)
    requires Aligned(a, k)
    ensures Aligned(Buddy(a, k), k) && Buddy(Buddy(a, k), k) == a
    ensures var low := Low(a, Buddy(a, k));
            Aligned(low, k + 1) && low + Pow2(k) == a + Buddy(a, k) - low
  {
    if k > 0 { Buddies(a / 2, k - 1); }
  }

  function Low(a: nat, b: nat): nat { if a > b then b else a }

  /** Two aligned blocks are apart or one holds the other. */
  lemma {:induction false} Nested(a: nat, i: nat, b: nat, j: nat)
    requires i <= j && Aligned(a, i) && Aligned(b, j)
    ensures a + Pow2(i) <= b || b + Pow2(j) <= a || (b <= a && a + Pow2(i) <= b + Pow2(j))
  {
    if i > 0 { Nested(a / 2, i - 1, b / 2, j - 1); }
  }

  lemma {:induction false} BaseIs(a: nat, k: nat)
    ensures Aligned(Base(a, k), k) && Base(a, k) <= a < Base(a, k) + Pow2(k)
  {
    if k > 0 { BaseIs(a / 2, k - 1); }
  }

  /** The base is the only aligned address within reach. */
  lemma {:induction false} BaseOf(a: nat, b: nat, k: nat)
    requires Aligned(b, k) && b <= a < b + Pow2(k)
    ensures Base(a, k) == b
  {
    if k > 0 { BaseOf(a / 2, b / 2, k - 1); }
  }

  /** An aligned block lies in one arena slab. */
  lemma InOneSlab(a: nat, i: nat, u: nat, top: nat)
    requires Aligned(a, i) && i <= top && a <= u < a + Pow2(i)
    ensures Base(u, top) == Base(a, top) && a + Pow2(i) <= Base(a, top) + Pow2(top)
  {
    BaseIs(a, top);
    Nested(a, i, Base(a, top), top);
    BaseOf(u, Base(a, top), top);
  }

  lemma BuddyInSlab(a: nat, i: nat, top: nat)
    requires Aligned(a, i) && i < top
    ensures Base(Buddy(a, i), top) == Base(a, top)
  {
    Buddies(a, i);
    var b := Buddy(a, i);
    var low := Low(a, b);
    Halves(low, i);
    PowPos(i);
    InOneSlab(low, i + 1, a, top);
    InOneSlab(low, i + 1, b, top);
  }

  // ---------- blocks ----------

  /** What a slab's header says; a used block has inUse == order + 1. */
  datatype Header = Header(order: nat, size: nat, inUse: nat)

  /** live is the set of blocks; headers of blocks that were merged away stay behind in hdr. */
  datatype Heap = Heap(lb: nat, max: nat, arena: set<nat>, live: set<nat>, hdr: map<nat, Header>)

  function Top(h: Heap): nat { h.lb + h.max }

  function Order(h: Heap, b: nat): nat { if b in h.hdr then h.hdr[b].order else 0 }

  function Level(h: Heap, b: nat): nat { h.lb + Order(h, b) }

  /** The end of a block. */
  function End(h: Heap, b: nat): nat { b + if b in h.hdr then h.hdr[b].size else 0 }

  /** The buddy of a block. */
  function Pal(h: Heap, b: nat): nat { Buddy(b, Level(h, b)) }

  predicate InArena(h: Heap, u: nat) { Base(u, Top(h)) in h.arena }

  predicate HeaderOk(h: Heap, b: nat) {
    b in h.hdr && var d := h.hdr[b];
    d.order <= h.max && d.size == Pow2(Level(h, b)) && (d.inUse == 0 || d.inUse == d.order + 1)
    && Aligned(b, Level(h, b)) && InArena(h, b)
  }

  predicate Free(h: Heap, b: nat) { b in h.hdr && h.hdr[b].inUse == 0 }

  predicate Holds(h: Heap, b: nat, u: nat) { b in h.live && b <= u < End(h, b) }

  ghost predicate Headers(h: Heap) { forall b :: b in h.live ==> HeaderOk(h, b) }

  ghost predicate Apart(h: Heap) { forall a, b :: a in h.live && b in h.live && a < b ==> End(h, a) <= b }

  ghost predicate Covered(h: Heap) { forall u: nat :: InArena(h, u) ==> exists b :: Holds(h, b, u) }

  ghost predicate Arena(h: Heap) { forall s :: s in h.arena ==> Aligned(s, Top(h)) }

  /** Blocks tile the mapped arena slabs: each is aligned to its size, they do not overlap, and
      every byte of an arena slab is in one. */
  ghost predicate Tiled(h: Heap) { Headers(h) && Apart(h) && Covered(h) && Arena(h) }

  /** A free block and its free buddy, which a merge would join. */
  predicate FreeBuddies(h: Heap, b: nat) {
    && b in h.live && Free(h, b) && Order(h, b) < h.max
    && Pal(h, b) in h.live && Free(h, Pal(h, b)) && Order(h, Pal(h, b)) == Order(h, b)
  }

  /** No two free buddies below the largest order, but for a pair with the block held. */
  ghost predicate Coalesced(h: Heap, held: set<nat>) {
    forall b :: FreeBuddies(h, b) && b !in held ==> Pal(h, b) in held
  }

  lemma HeaderAt(h: Heap, b: nat)
    requires Tiled(h) && b in h.live
    ensures HeaderOk(h, b) && End(h, b) == b + Pow2(Level(h, b)) > b
  {
  }

  /** The header at a block's buddy address is that of a live block, not larger than it: what
      slab_put_with_order relies on when it reads buddy->order. */
  lemma BuddyIsLive(h: Heap, b: nat)
    requires Tiled(h) && b in h.live && Order(h, b) < h.max
    ensures Pal(h, b) in h.live && Order(h, Pal(h, b)) <= Order(h, b)
  {
    hide Aligned, Base, Buddy, Pow2, Headers, Apart, Covered;
    HeaderAt(h, b);
    var k, y := Level(h, b), Pal(h, b);
    Buddies(b, k);
    BuddyInSlab(b, k, Top(h));
    var c := HolderOf(h, y);
    HeaderAt(h, c);
    var j := Level(h, c);
    if j > k {
      Halves(Low(b, y), k);
      Nested(Low(b, y), k + 1, c, j);
      Overlap(h, b, c, b);
    } else {
      Nested(c, j, y, k);
    }
  }

  lemma HolderOf(h: Heap, u: nat) returns (c: nat)
    requires Tiled(h) && InArena(h, u)
    ensures Holds(h, c, u)
  {
    c :| Holds(h, c, u);
  }

  lemma Overlap(h: Heap, a: nat, b: nat, u: nat)
    requires Tiled(h) && Holds(h, a, u) && Holds(h, b, u)
    ensures a == b
  {
  }

  // ---------- the steps of split and merge ----------

  /** slab_split: the block becomes its lower half, the buddy is new. */
  function Split(h: Heap, b: nat): Heap
    requires Order(h, b) > 0
  {
    var o := Order(h, b) - 1;
    var y := Buddy(b, h.lb + o);
    var d := Header(o, Pow2(h.lb + o), 0);
    h.(live := h.live + {y}, hdr := h.hdr[b := d][y := d])
  }

  /** One block replaced by its halves, or two halves by their block. */
  ghost predicate Halved(h: Heap, h': Heap, b: nat, y: nat) {
    && h.lb == h'.lb && h.max == h'.max && h.arena == h'.arena
    && b in h.live && y !in h.live && h'.live == h.live + {y}
    && HeaderOk(h, b) && HeaderOk(h', b) && HeaderOk(h', y) && Order(h, b) == Order(h', b) + 1 == Order(h', y) + 1
    && End(h', b) == y && End(h', y) == End(h, b) && b < y < End(h, b)
    && forall c :: c in h.live && c != b ==> c in h.hdr && c in h'.hdr && h.hdr[c] == h'.hdr[c]
  }

  lemma HalvedHeaders(h: Heap, h': Heap, b: nat, y: nat)
    requires Halved(h, h', b, y)
    ensures Headers(h) == Headers(h')
  {
    hide Aligned, Base, Pow2;
    forall c | c in h.live && c != b ensures HeaderOk(h, c) == HeaderOk(h', c) {
    }
  }

  lemma HalvedApart(h: Heap, h': Heap, b: nat, y: nat)
    requires Halved(h, h', b, y)
    ensures Apart(h) == Apart(h')
  {
    hide HeaderOk;
    forall c | c in h.live && c != b ensures End(h, c) == End(h', c) {
    }
  }

  lemma HalvedCovered(h: Heap, h': Heap, b: nat, y: nat)
    requires Halved(h, h', b, y)
    ensures Covered(h) == Covered(h')
  {
    hide HeaderOk, Base;
    forall c | c in h.live && c != b ensures End(h, c) == End(h', c) {
    }
    forall u: nat ensures InArena(h, u) == InArena(h', u) {
    }
    if Covered(h) {
      forall u: nat | InArena(h', u) ensures exists c :: Holds(h', c, u) {
        var c :| Holds(h, c, u);
        assert Holds(h', if c == b && u >= y then y else c, u);
      }
    }
    if Covered(h') {
      forall u: nat | InArena(h, u) ensures exists c :: Holds(h, c, u) {
        var c :| Holds(h', c, u);
        assert Holds(h, if c == y then b else c, u);
      }
    }
  }

  lemma HalvedTiled(h: Heap, h': Heap, b: nat, y: nat)
    requires Halved(h, h', b, y)
    ensures Tiled(h) == Tiled(h')
  {
    HalvedHeaders(h, h', b, y);
    HalvedApart(h, h', b, y);
    HalvedCovered(h, h', b, y);
  }

  lemma SplitTiled(h: Heap, b: nat)
    requires Tiled(h) && b in h.live && Order(h, b) > 0
    ensures var h' := Split(h, b); Halved(h, h', b, Pal(h', b)) && Tiled(h') && Pal(h', Pal(h', b)) == b
  {
    hide Aligned, Base, Buddy, Pow2, Headers, Apart, Covered;
    HeaderAt(h, b);
    var k := Level(h, b) - 1;
    var h' := Split(h, b);
    Halves(b, k);
    PowPos(k);
    var y := Pal(h', b);
    InOneSlab(b, k + 1, y, Top(h));
    if y in h.live {
      HeaderAt(h, y);
      Overlap(h, b, y, y);
    }
    OthersInMap(h);
    HalvedTiled(h, h', b, y);
  }

  lemma OthersInMap(h: Heap)
    requires Tiled(h)
    ensures forall c :: c in h.live ==> c in h.hdr
  {
    forall c | c in h.live ensures c in h.hdr { HeaderAt(h, c); }
  }

  lemma PowPos(k: nat)
    ensures Pow2(k) > 0
  {
  }

  lemma PalBack(h: Heap, c: nat)
    requires Tiled(h) && FreeBuddies(h, c)
    ensures Pal(h, Pal(h, c)) == c
  {
    HeaderAt(h, c);
    Buddies(c, Level(h, c));
  }

  lemma SameBuddies(h: Heap, h': Heap, c: nat)
    requires h.lb == h'.lb && h.max == h'.max && FreeBuddies(h', c)
    requires forall x :: x in {c, Pal(h', c)} ==> x in h.live && x in h.hdr && x in h'.hdr && h.hdr[x] == h'.hdr[x]
    ensures FreeBuddies(h, c) && Pal(h, c) == Pal(h', c)
  {
  }

  /** Only the pair made by the split can be free buddies now. */
  lemma SplitCoalesced(h: Heap, b: nat)
    requires Tiled(h) && b in h.live && Order(h, b) > 0 && Coalesced(h, {b})
    ensures Coalesced(Split(h, b), {b})
  {
    hide Aligned, Base, Pow2, Buddy, Tiled;
    SplitTiled(h, b);
    var h' := Split(h, b);
    var y := Pal(h', b);
    forall c | FreeBuddies(h', c) && c != b ensures Pal(h', c) == b {
      if c != y && Pal(h', c) != b {
        PalBack(h', c);
        SameBuddies(h, h', c);
      }
    }
  }

  /** slab_merge: the lower of the two takes the next order, the other's header stays behind. */
  function Merge(h: Heap, b: nat, y: nat): Heap
    requires b in h.hdr && y in h.hdr
  {
    var low := Low(b, y);
    var o := Order(h, low) + 1;
    h.(live := h.live - {b + y - low}, hdr := h.hdr[low := h.hdr[low].(order := o, size := Pow2(h.lb + o))])
  }

  lemma MergeTiled(h: Heap, b: nat)
    requires Tiled(h) && FreeBuddies(h, b)
    ensures var y := Pal(h, b); var h' := Merge(h, b, y);
            Halved(h', h, Low(b, y), b + y - Low(b, y)) && y != b && Tiled(h') && Free(h', Low(b, y))
  {
    hide Aligned, Base, Buddy, Pow2, Headers, Apart, Covered;
    HeaderAt(h, b);
    var k, y := Level(h, b), Pal(h, b);
    HeaderAt(h, y);
    Buddies(b, k);
    PowPos(k);
    var low, h' := Low(b, y), Merge(h, b, y);
    Halves(low, k);
    OthersInMap(h);
    HalvedTiled(h', h, low, b + y - low);
  }

  lemma MergeCoalesced(h: Heap, b: nat)
    requires Tiled(h) && FreeBuddies(h, b) && Coalesced(h, {b})
    ensures Coalesced(Merge(h, b, Pal(h, b)), {Low(b, Pal(h, b))})
  {
    hide Aligned, Base, Pow2, Buddy, Tiled;
    var y := Pal(h, b);
    MergeTiled(h, b);
    var low, h' := Low(b, y), Merge(h, b, y);
    PalBack(h, b);
    forall c | FreeBuddies(h', c) && c != low ensures Pal(h', c) == low {
      if Pal(h', c) != low {
        assert FreeBuddies(h, c);
        PalBack(h, c);
      }
    }
  }

  // ---------- mapping and unmapping ----------

  function Mapped(h: Heap, s: nat): Heap {
    h.(arena := h.arena + {s}, live := h.live + {s}, hdr := h.hdr[s := Header(h.max, Pow2(Top(h)), 0)])
  }

  /** An arena slab more or less, as one whole block. */
  ghost predicate Joined(h: Heap, h': Heap, s: nat) {
    && h.lb == h'.lb && h.max == h'.max && Aligned(s, Top(h))
    && s !in h.arena && h'.arena == h.arena + {s} && s !in h.live && h'.live == h.live + {s}
    && s in h'.hdr && Order(h', s) == h.max && (Free(h', s) || h'.hdr[s].inUse == h.max + 1)
    && End(h', s) == s + Pow2(Top(h))
    && forall c :: c in h.live ==> c in h.hdr && c in h'.hdr && h.hdr[c] == h'.hdr[c] && Base(c, Top(h)) != s
  }

  lemma ApartFromSlab(h: Heap, c: nat, s: nat)
    requires HeaderOk(h, c) && Base(c, Top(h)) != s && Aligned(s, Top(h))
    ensures End(h, c) <= s || s + Pow2(Top(h)) <= c
  {
    hide Aligned, Base, Pow2;
    var top := Top(h);
    BaseIs(c, top);
    PowPos(Level(h, c));
    InOneSlab(c, Level(h, c), c, top);
    Nested(Base(c, top), top, s, top);
  }

  lemma JoinedHeaders(h: Heap, h': Heap, s: nat)
    requires Joined(h, h', s)
    ensures Headers(h) == Headers(h')
  {
    hide Aligned, Base, Pow2;
    PowPos(Top(h));
    BaseOf(s, s, Top(h));
    forall c | c in h.live ensures HeaderOk(h, c) == HeaderOk(h', c) {
    }
  }

  lemma JoinedApart(h: Heap, h': Heap, s: nat)
    requires Joined(h, h', s) && Headers(h)
    ensures Apart(h) == Apart(h')
  {
    hide Aligned, Base, Pow2, HeaderOk;
    forall c | c in h.live ensures End(h, c) == End(h', c) && (End(h, c) <= s || End(h', s) <= c) {
      ApartFromSlab(h, c, s);
    }
    PowPos(Top(h));
  }

  lemma JoinedCovered(h: Heap, h': Heap, s: nat)
    requires Joined(h, h', s)
    ensures Covered(h) == Covered(h')
  {
    hide Aligned, Base, Pow2;
    forall c | c in h.live ensures End(h, c) == End(h', c) {
    }
    forall u: nat ensures Base(u, Top(h)) == s <==> Holds(h', s, u) {
      BaseIs(u, Top(h));
      if Holds(h', s, u) { BaseOf(u, s, Top(h)); }
    }
    if Covered(h) {
      forall u: nat | InArena(h', u) ensures exists c :: Holds(h', c, u) {
        if Base(u, Top(h)) != s {
          assert InArena(h, u);
          var c :| Holds(h, c, u);
          assert Holds(h', c, u);
        }
      }
    }
    if Covered(h') {
      forall u: nat | InArena(h, u) ensures exists c :: Holds(h, c, u) {
        assert InArena(h', u);
        var c :| Holds(h', c, u);
        assert Holds(h, c, u);
      }
    }
  }

  lemma JoinedTiled(h: Heap, h': Heap, s: nat)
    requires Joined(h, h', s)
    ensures Tiled(h) == Tiled(h')
  {
    hide Headers, Apart, Covered, Aligned, Base, Pow2;
    JoinedHeaders(h, h', s);
    if Headers(h) { JoinedApart(h, h', s); }
    JoinedCovered(h, h', s);
  }

  lemma MappedOk(h: Heap, s: nat)
    requires Tiled(h) && s !in h.arena && Aligned(s, Top(h)) && Coalesced(h, {})
    ensures Joined(h, Mapped(h, s), s) && Tiled(Mapped(h, s)) && Coalesced(Mapped(h, s), {})
  {
    hide Aligned, Base, Pow2, Buddy, Headers, Apart, Covered;
    var h' := Mapped(h, s);
    PowPos(Top(h));
    BaseOf(s, s, Top(h));
    forall c | c in h.live ensures c != s && c in h.hdr && Base(c, Top(h)) != s {
      HeaderAt(h, c);
    }
    JoinedTiled(h, h', s);
    forall c | FreeBuddies(h', c) ensures false {
      PalBack(h', c);
      SameBuddies(h, h', c);
    }
  }

  function Unmapped(h: Heap, s: nat): Heap { h.(arena := h.arena - {s}, live := h.live - {s}) }

  lemma UnmappedOk(h: Heap, s: nat)
    requires Tiled(h) && s in h.live && Order(h, s) == h.max && Coalesced(h, {s})
    ensures Joined(Unmapped(h, s), h, s) && Tiled(Unmapped(h, s)) && Coalesced(Unmapped(h, s), {})
  {
    hide Aligned, Base, Pow2, Buddy, Headers, Apart, Covered;
    var h', top := Unmapped(h, s), Top(h);
    HeaderAt(h, s);
    PowPos(top);
    BaseOf(s, s, top);
    forall c | c in h'.live ensures c in h.hdr && Base(c, top) != s {
      HeaderAt(h, c);
      BaseIs(c, top);
      if Base(c, top) == s { Overlap(h, s, c, c); }
    }
    JoinedTiled(h', h, s);
    forall c | FreeBuddies(h', c) ensures false {
      SameBuddies(h, h', c);
    }
  }

  /** slab_set_used and slab_set_free. */
  function Marked(h: Heap, b: nat, inUse: nat): Heap
    requires b in h.hdr
  {
    h.(hdr := h.hdr[b := h.hdr[b].(inUse := inUse)])
  }

  lemma MarkedTiled(h: Heap, b: nat, inUse: nat)
    requires Tiled(h) && b in h.live && (inUse == 0 || inUse == Order(h, b) + 1)
    ensures b in h.hdr && Tiled(Marked(h, b, inUse))
  {
    hide Aligned, Base, Pow2;
    HeaderAt(h, b);
    var h' := Marked(h, b, inUse);
    forall c | c in h.live ensures HeaderOk(h', c) && End(h', c) == End(h, c) {
      HeaderAt(h, c);
    }
    MarkedCovered(h, h');
  }

  lemma MarkedCovered(h: Heap, h': Heap)
    requires Covered(h) && h'.arena == h.arena && Top(h') == Top(h) && h'.live == h.live
    requires forall c :: c in h.live ==> End(h', c) == End(h, c)
    ensures Covered(h')
  {
    hide Base;
    forall u: nat | InArena(h', u) ensures exists c :: Holds(h', c, u) {
      assert InArena(h, u);
      var c :| Holds(h, c, u);
      assert Holds(h', c, u);
    }
  }

  /** A used block breaks no pair; a freed one may make a pair. */
  lemma MarkedCoalesced(h: Heap, b: nat, inUse: nat)
    requires Tiled(h) && b in h.live && Coalesced(h, {b}) && b in h.hdr
    ensures Coalesced(Marked(h, b, inUse), if inUse == 0 then {b} else {})
  {
    hide Aligned, Base, Pow2, Buddy, Tiled;
    var h' := Marked(h, b, inUse);
    forall c | FreeBuddies(h', c) && c != b && Pal(h', c) != b ensures FreeBuddies(h, c) {
    }
  }

  /** A block that has no free buddy need not be held. */
  lemma Release(h: Heap, b: nat)
    requires Tiled(h) && b in h.live && Coalesced(h, {b}) && !FreeBuddies(h, b)
    ensures Coalesced(h, {})
  {
    hide Aligned, Base, Pow2, Buddy, Tiled;
    forall c | FreeBuddies(h, c) ensures false {
      PalBack(h, c);
    }
  }

  /** With nothing in use, every block has been merged back to a whole arena slab. */
  lemma AllFreeAllWhole(h: Heap)
    requires Tiled(h) && Coalesced(h, {}) && forall b :: b in h.live ==> Free(h, b)
    ensures forall b :: b in h.live ==> Order(h, b) == h.max
    ensures h.live == h.arena
  {
    hide Aligned, Base, Pow2, Buddy, Covered, Apart, Headers;
    var top := Top(h);
    PowPos(top);
    forall b | b in h.live ensures Order(h, b) == h.max && b in h.arena {
      HeaderAt(h, b);
      if Order(h, b) < h.max { SmallestIsWhole(h, b); }
      BaseOf(b, b, top);
    }
    forall s | s in h.arena ensures s in h.live {
      BaseOf(s, s, top);
      var c := HolderOf(h, s);
      HeaderAt(h, c);
      BaseOf(s, c, top);
    }
  }

  /** A free block below the largest order, in an arena slab with nothing in use, has a smaller one beside
      it, and so on for ever. */
  lemma {:induction false} SmallestIsWhole(h: Heap, b: nat)
    requires Tiled(h) && Coalesced(h, {}) && b in h.live && Order(h, b) < h.max
    requires forall x :: x in h.live && Base(x, Top(h)) == Base(b, Top(h)) ==> Free(h, x)
    ensures false
    decreases Order(h, b)
  {
    hide Aligned, Base, Pow2, Buddy, Tiled;
    HeaderAt(h, b);
    BuddyIsLive(h, b);
    BuddyInSlab(b, Level(h, b), Top(h));
    if Order(h, Pal(h, b)) < Order(h, b) { SmallestIsWhole(h, Pal(h, b)); }
  }

  /** No block in use lies in arena slab s. */
  ghost predicate Idle(h: Heap, s: nat) { forall x :: x in h.live && !Free(h, x) ==> Base(x, Top(h)) != s }

  /** A free block has grown to a whole arena slab exactly when nothing in that slab is in use. */
  lemma WholeExactly(h: Heap, b: nat)
    requires Tiled(h) && Coalesced(h, {}) && b in h.live && Free(h, b)
    ensures Order(h, b) == h.max <==> Idle(h, Base(b, Top(h)))
    ensures Order(h, b) == h.max ==> b == Base(b, Top(h))
  {
    hide Aligned, Base, Pow2, Buddy, Tiled;
    HeaderAt(h, b);
    var top := Top(h);
    if Order(h, b) == h.max {
      BaseOf(b, b, top);
      forall x | x in h.live && Base(x, top) == b ensures Free(h, x) {
        HeaderAt(h, x);
        BaseIs(x, top);
        Overlap(h, b, x, x);
      }
    } else if Idle(h, Base(b, top)) {
      SmallestIsWhole(h, b);
    }
  }
}
