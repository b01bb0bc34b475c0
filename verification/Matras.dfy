/**
 The block allocator itself (small/matras.c): the methods below follow the C functions
 step by step and are proved against what a user of read views relies on.
 */
module Matras {

  import opened Common
  import opened MatrasModel

  class Matras {
    const g: Geo
    const capacity: nat
    /** Extents held, by address. */
    var mem: Mem
    var head: View
    /** Read views, oldest first: the prev_view chain of the head, reversed. */
    var views: seq<View>
    var extentCount: nat
    /** The allocator's list of reserved extents. */
    var reserved: seq<Addr>
    /** How many extents the outside will give before it refuses. Between calls it is anything. */
    var offers: nat

    /** The position each held extent serves. */
    ghost var tag: Tags
    /** Held extents that no view reaches any more. */
    ghost var leaked: set<Addr>
    /** What the head held when each view was created. */
    ghost var snaps: seq<seq<Block>>

    /** The books of the extent allocator. */
    ghost predicate Pool()
      reads this`mem, this`tag, this`extentCount, this`reserved
    {
      && GeoOk(g) && tag.Keys == mem.Keys && extentCount == |mem.Keys|
      && NoDup(reserved) && forall i :: 0 <= i < |reserved| ==> reserved[i] !in mem
    }

    /** Valid, except that the head may be short of blocks in an extent it shares. */
    ghost predicate CoreValid()
      reads this
    {
      && Pool() && head.count <= capacity <= End(g, Root)
      && Core(g, mem, tag, views, head)
      && Accounted(g, mem, tag, Chain(views, head), leaked)
      && AsSnapped(g, mem, views, snaps)
    }

    ghost predicate Valid()
      reads this
    {
      CoreValid() && HeadGrowing(g, mem, views, head)
    }

    ghost function Blocks(): seq<Block>
      reads this
      requires GeoOk(g)
    {
      Contents(g, mem, head)
    }

    constructor (g: Geo, offers: nat)
      requires GeoOk(g)
      ensures Valid() && this.g == g && head.count == 0 && views == [] && extentCount == 0 && reserved == []
      ensures leaked == {} && snaps == [] && this.offers == offers
      ensures capacity == if End(g, Root) > 0x1_0000_0000 then 0x1_0000_0000 else End(g, Root)
    {
      this.g := g;
      capacity := if End(g, Root) > 0x1_0000_0000 then 0x1_0000_0000 else End(g, Root);
      mem, head, views, extentCount, reserved, this.offers := map[], View(0, 0), [], 0, [], offers;
      tag, leaked, snaps := map[], {}, [];
    }

    // ---------- extents ----------

    /** The extents to be had before a request fails. */
    ghost function Credit(): nat
      reads this`reserved, this`offers
    {
      |reserved| + offers
    }

    /** The address of a reserved extent, or else one from the outside, which may refuse. */
    method TakeAddr() returns (r: Option<Addr>)
      requires Pool()
      modifies this`reserved, this`offers
      ensures Pool()
      ensures reserved == if old(reserved) == [] then [] else old(reserved)[1..]
      ensures Credit() == if r.Some? then old(Credit()) - 1 else 0
      ensures r.None? <==> old(Credit()) == 0
      ensures r.Some? ==> r.value !in mem && r.value !in reserved
    {
      if |reserved| > 0 {
        r := Some(reserved[0]);
        reserved := reserved[1..];
      } else if offers == 0 {
        r := None;
      } else {
        offers := offers - 1;
        var y := FreshAddr(mem.Keys);
        r := Some(y);
      }
    }

    method AllocExtent(ghost q: Pos, table: bool) returns (r: Option<Addr>)
      requires Pool() && (table <==> !q.Leaf?)
      modifies this`mem, this`tag, this`extentCount, this`reserved, this`offers
      ensures Pool()
      ensures reserved == if old(reserved) == [] then [] else old(reserved)[1..]
      ensures Credit() == if r.Some? then old(Credit()) - 1 else 0
      ensures r.None? <==> old(Credit()) == 0
      ensures r.None? ==> mem == old(mem) && tag == old(tag)
      ensures r.Some? ==>
                && r.value !in old(mem) && r.value in mem && mem == old(mem)[r.value := mem[r.value]]
                && OkExtent(g, mem[r.value], q) && tag == old(tag)[r.value := q]
    {
      r := TakeAddr();
      if r.None? { return; }
      var y := r.value;
      var e := RawExtent(q, table);
      assert mem[y := e].Keys == mem.Keys + {y};
      mem, tag := mem[y := e], tag[y := q];
      extentCount := extentCount + 1;
    }

    /** A fresh extent holds anything at all. */
    method RawExtent(ghost q: Pos, table: bool) returns (e: Extent)
      requires table <==> !q.Leaf?
      ensures OkExtent(g, e, q)
    {
      if table {
        var slots: seq<Addr> :| |slots| == g.p by { assert |seq(g.p, i => 0)| == g.p; }
        e := Table(slots);
      } else {
        var blocks: seq<Block> :| |blocks| == g.n by { assert |seq(g.n, i => 0)| == g.n; }
        e := Data(blocks);
      }
    }

    method FreshAddr(used: set<Addr>) returns (y: Addr)
      ensures y !in used
    {
      ghost var n := MaxBound(used);
      assert n !in used;
      y :| y !in used;
    }

    ghost function MaxBound(s: set<nat>): (n: nat)
      ensures forall x :: x in s ==> x < n
    {
      if s == {} then 0 else
        var x :| x in s;
        var m := MaxBound(s - {x});
        assert forall y :: y in s ==> y == x || y in s - {x};
        if x < m then m else x + 1
    }

    method FreeExtent(a: Addr)
      requires Pool() && a in mem && a !in reserved
      modifies this`mem, this`tag, this`extentCount
      ensures Pool() && mem == old(mem) - {a} && tag == old(tag) - {a}
    {
      assert (mem - {a}).Keys == mem.Keys - {a};
      mem, tag := mem - {a}, tag - {a};
      extentCount := extentCount - 1;
    }

    /** matras_copy_read_view_extent */
    method CopyExtent(x: Addr, ghost q: Pos) returns (r: Option<Addr>)
      requires Pool() && x in mem && OkExtent(g, mem[x], q)
      modifies this`mem, this`tag, this`extentCount, this`reserved, this`offers
      ensures Pool()
      ensures reserved == if old(reserved) == [] then [] else old(reserved)[1..]
      ensures Credit() == if r.Some? then old(Credit()) - 1 else 0
      ensures r.None? <==> old(Credit()) == 0
      ensures r.None? ==> mem == old(mem) && tag == old(tag)
      ensures r.Some? ==>
                r.value !in old(mem) && mem == old(mem)[r.value := old(mem)[x]] && tag == old(tag)[r.value := q]
    {
      r := AllocExtent(q, mem[x].Table?);
      if r.Some? {
        mem := mem[r.value := mem[x]];
      }
    }

    // ---------- touching a block ----------

    /** Puts the copy y of the head's extent x in its place. */
    method LinkCopy(q: Pos, parent: Addr, x: Addr, y: Addr, ghost mem0: Mem)
      requires Pool() && x in mem0 && y !in mem0 && mem == mem0[y := mem0[x]] && x == At(g, mem0, head, q)
      requires parent == At(g, mem0, head, Up(g, q)) && SlotOf(g, q) < g.p
      requires q != Root ==> parent in mem0 && OkExtent(g, mem0[parent], Up(g, q))
      modifies this`mem, this`head
      ensures Pool() && mem == CopyMem(g, mem0, old(head), q, y) && head == CopyHead(old(head), q, y)
    {
      ghost var keys := mem.Keys;
      if q == Root {
        head := head.(root := y);
      } else {
        mem := Store(mem, parent, SlotOf(g, q), y);
        assert mem.Keys == keys;
      }
    }

    /** One level of matras_touch_no_check: if the head still shares its extent at q with the
        newest view, it gets a copy of its own. */
    method OwnExtent(q: Pos) returns (ok: bool)
      requires CoreValid() && views != [] && Covers(g, head.count, q) && Covers(g, Last(views).count, q)
      requires q != Root ==> !Share(g, mem, Last(views), head, Up(g, q))
      modifies this`mem, this`tag, this`extentCount, this`reserved, this`offers, this`head
      ensures CoreValid() && head.count == old(head.count) && Blocks() == old(Blocks())
      ensures old(HeadGrowing(g, mem, views, head)) ==> HeadGrowing(g, mem, views, head)
      ensures forall r :: r != q ==> (Share(g, mem, Last(views), head, r) <==> old(Share(g, mem, Last(views), head, r)))
      ensures ok <==> !Share(g, mem, Last(views), head, q)
      ensures forall i :: old(Writable(g, mem, views, head, i)) ==> Writable(g, mem, views, head, i)
      ensures reserved == if old(Share(g, mem, Last(views), head, q)) && old(reserved) != [] then old(reserved)[1..]
                          else old(reserved)
      ensures ok <==> !old(Share(g, mem, Last(views), head, q)) || old(Credit()) > 0
      ensures |reserved| <= |old(reserved)|
      ensures Credit() == old(Credit()) - if ok && old(Share(g, mem, Last(views), head, q)) then 1 else 0
    {
      hide Core, Accounted, HeadGrowing, SameViews, Contents, AsSnapped, CopyMem, CopyHead, At, Up, SlotOf, OkExtent,
        Start, Writable;
      HeadAt(g, mem, tag, views, head, q);
      var parent, x := At(g, mem, head, Up(g, q)), At(g, mem, head, q);
      if x != At(g, mem, Last(views), q) {
        return true;
      }
      ghost var mem0, tag0, head0 := mem, tag, head;
      var y := CopyExtent(x, q);
      if y.None? {
        return false;
      }
      LinkCopy(q, parent, x, y.value, mem0);
      OwnStep(g, mem0, tag0, views, head0, q, y.value, leaked);
      KeepSnapped(g, mem0, mem, views, snaps);
      ok := true;
    }

    /** The extents that touching one more block can cost. */
    ghost function TouchCost(): nat
      reads this
      requires GeoOk(g)
    {
      if views != [] && Share(g, mem, Last(views), head, Root) then 3 else 2
    }

    /** The extents that touching block id does cost: one for each level that is shared. */
    ghost function PathCost(id: nat): nat
      reads this
      requires GeoOk(g)
    {
      SharedOnPath(g, mem, views, head, id)
    }

    method TouchNoCheck(id: nat) returns (r: Option<Addr>)
      requires CoreValid() && id < head.count && NeedsTouch(g, views, id)
      modifies this`mem, this`tag, this`extentCount, this`reserved, this`offers, this`head
      ensures CoreValid() && head.count == old(head.count) && Blocks() == old(Blocks())
      ensures old(HeadGrowing(g, mem, views, head)) ==> HeadGrowing(g, mem, views, head)
      ensures r.Some? ==> Writable(g, mem, views, head, id) && r.value == At(g, mem, head, LeafOf(g, id))
      ensures r.None? ==> Share(g, mem, Last(views), head, LeafOf(g, id))
      ensures forall i :: old(Writable(g, mem, views, head, i)) ==> Writable(g, mem, views, head, i)
      ensures |reserved| + old(TouchCost()) >= |old(reserved)|
      ensures |old(reserved)| >= old(TouchCost()) ==> r.Some? && TouchCost() == 2
      ensures |reserved| <= |old(reserved)|
      ensures r.Some? <==> old(Credit()) >= old(PathCost(id))
      ensures Credit() == if r.Some? then old(Credit()) - old(PathCost(id)) else 0
    {
      hide Core, Accounted, HeadGrowing, Contents, Writable, OkView, AsSnapped;
      TouchPath(g, mem, tag, views, head, id);
      var ok := OwnExtent(Root);
      if ok {
        ok := OwnExtent(MidOf(g, id));
        if ok {
          ok := OwnExtent(LeafOf(g, id));
        }
      }
      if !ok {
        LeafShared(id);
        return None;
      }
      OwnedWritable(g, mem, tag, views, head, id);
      return Some(At(g, mem, head, LeafOf(g, id)));
    }

    lemma LeafShared(id: nat)
      requires Core(g, mem, tag, views, head) && views != []
      requires Covers(g, head.count, LeafOf(g, id)) && Covers(g, Last(views).count, LeafOf(g, id))
      requires || Share(g, mem, Last(views), head, Root)
               || Share(g, mem, Last(views), head, MidOf(g, id))
               || Share(g, mem, Last(views), head, LeafOf(g, id))
      ensures Share(g, mem, Last(views), head, LeafOf(g, id))
    {
      SplitId(g, id);
      if !Share(g, mem, Last(views), head, LeafOf(g, id)) {
        ShareDown(g, mem, tag, Last(views), head, LeafOf(g, id));
      }
    }

    /** matras_touch: the address through which block id of the head may now be written. */
    method Touch(id: nat) returns (r: Option<Addr>)
      requires CoreValid() && id < head.count
      modifies this`mem, this`tag, this`extentCount, this`reserved, this`offers, this`head
      ensures CoreValid() && head.count == old(head.count) && Blocks() == old(Blocks())
      ensures old(HeadGrowing(g, mem, views, head)) ==> HeadGrowing(g, mem, views, head)
      ensures r.Some? ==> Writable(g, mem, views, head, id) && r.value == At(g, mem, head, LeafOf(g, id))
      ensures r.None? ==> NeedsTouch(g, views, id) && Share(g, mem, Last(views), head, LeafOf(g, id))
      ensures forall i :: old(Writable(g, mem, views, head, i)) ==> Writable(g, mem, views, head, i)
      ensures |reserved| + old(TouchCost()) >= |old(reserved)|
      ensures |old(reserved)| >= old(TouchCost()) ==> r.Some?
      ensures NeedsTouch(g, views, id) && |old(reserved)| >= old(TouchCost()) ==> TouchCost() == 2
      ensures !NeedsTouch(g, views, id) ==> r.Some? && reserved == old(reserved) && TouchCost() == old(TouchCost())
      ensures |reserved| <= |old(reserved)|
      ensures r.Some? <==> old(Credit()) >= old(PathCost(id))
      ensures Credit() == if r.Some? then old(Credit()) - old(PathCost(id)) else 0
    {
      hide Core, Accounted, HeadGrowing, Contents, Writable, AsSnapped;
      if !NeedsTouch(g, views, id) {
        NotNeededWritable(g, mem, tag, views, head, id);
        return Some(At(g, mem, head, LeafOf(g, id)));
      }
      r := TouchNoCheck(id);
    }

    /** The user's store through a pointer that matras_alloc or matras_touch gave out. */
    method Write(id: nat, b: Block)
      requires Valid() && id < head.count && Writable(g, mem, views, head, id)
      modifies this`mem
      ensures Valid() && Blocks() == old(Blocks())[id := b]
      ensures forall i :: old(Writable(g, mem, views, head, i)) ==> Writable(g, mem, views, head, i)
    {
      hide Core, Accounted, HeadGrowing, Contents, Writable, SameViews, AsSnapped;
      WriteStep(g, mem, tag, views, head, leaked, id, b);
      ghost var mem0 := mem;
      var x := At(g, mem, head, LeafOf(g, id));
      mem := mem[x := Data(mem[x].blocks[id % g.n := b])];
      assert mem.Keys == mem0.Keys;
      KeepSnapped(g, mem0, mem, views, snaps);
    }

    // ---------- allocating blocks ----------

    /** Valid, with some extents made for the next block that no view has yet. */
    ghost predicate Building(pending: set<Addr>)
      reads this
    {
      && Pool() && AsSnapped(g, mem, views, snaps) && head.count < capacity <= End(g, Root)
      && Inv(g, mem, tag, views, head)
      && Accounted(g, mem, tag, Chain(views, head), leaked + pending) && pending !! leaked
    }

    /** The new extent y serves position q, and nothing else changed but its parent's slot. */
    ghost predicate Linked(mem0: Mem, head0: View, parent: Addr, q: Pos, y: Addr)
      reads this
      requires GeoOk(g)
    {
      && y !in mem0 && y in mem && y in tag && tag[y] == q && OkExtent(g, mem[y], q)
      && (forall a :: a in mem0 ==> a in mem && ((a == parent && q != Root) || mem[a] == mem0[a]))
      && (q == Root ==> head == head0.(root := y))
      && (q != Root ==>
            && head == head0 && parent in mem && OkExtent(g, mem[parent], Up(g, q))
            && Slot(mem, parent, SlotOf(g, q)) == y)
    }

    method Link(q: Pos, parent: Addr, y: Addr, ghost mem0: Mem, ghost tag0: Tags)
      requires Pool() && y !in mem0 && y in mem && mem == mem0[y := mem[y]] && tag == tag0[y := q]
      requires OkExtent(g, mem[y], q)
      requires Linkable(g, mem0, tag0, views, head, parent, q)
      modifies this`mem, this`head
      ensures Pool() && mem == MadeMem(g, mem0, parent, q, y, old(mem)[y]) && head == CopyHead(old(head), q, y)
      ensures Linked(mem0, old(head), parent, q, y)
    {
      ghost var keys := mem.Keys;
      if q == Root {
        head := head.(root := y);
      } else {
        mem := Store(mem, parent, SlotOf(g, q), y);
        assert mem.Keys == keys;
      }
    }

    /** A call that needs cost extents succeeds exactly when there are as many, and uses up just those. */
    static predicate Paid(before: nat, after: nat, cost: nat, ok: bool) {
      (ok <==> before >= cost) && after == if ok then before - cost else 0
    }

    /** A new extent for position q, hooked into its parent table or made the root. */
    method MakeExtent(q: Pos, parent: Addr, ghost pending: set<Addr>) returns (r: Option<Addr>)
      requires Building(pending) && Linkable(g, mem, tag, views, head, parent, q)
      modifies this`mem, this`tag, this`extentCount, this`reserved, this`offers, this`head
      ensures r.None? ==> Building(pending) && mem == old(mem) && tag == old(tag) && head == old(head)
      ensures |reserved| <= |old(reserved)| && Paid(old(Credit()), Credit(), 1, r.Some?)
      ensures r.Some? ==>
                && Building(pending + {r.value}) && Linked(old(mem), old(head), parent, q, r.value)
                && (forall a :: a in pending ==> a in old(mem)) && tag == old(tag)[r.value := q]
                && Blocks() == old(Blocks())
    {
      hide Inv, Accounted, Contents, SameViews, Linked, Linkable, OkExtent, AsSnapped, Building, Chain;
      OpenBuilding(pending);
      ghost var mem0, tag0 := mem, tag;
      r := AllocExtent(q, !q.Leaf?);
      if r.None? {
        CloseBuilding(pending);
      } else {
        Hook(q, parent, r.value, mem0, tag0, pending);
      }
    }

    /** Hooks the extent y, just allocated, into its place. */
    method Hook(q: Pos, parent: Addr, y: Addr, ghost mem0: Mem, ghost tag0: Tags, ghost pending: set<Addr>)
      requires Pool() && y !in mem0 && y in mem && mem == mem0[y := mem[y]] && tag == tag0[y := q]
      requires OkExtent(g, mem[y], q)
      requires Linkable(g, mem0, tag0, views, head, parent, q) && tag0.Keys == mem0.Keys
      requires AsSnapped(g, mem0, views, snaps) && Inv(g, mem0, tag0, views, head)
      requires head.count < capacity <= End(g, Root)
      requires Accounted(g, mem0, tag0, Chain(views, head), leaked + pending) && pending !! leaked
      requires forall a :: a in leaked || a in pending ==> a in mem0
      modifies this`mem, this`head
      ensures Building(pending + {y}) && Linked(mem0, old(head), parent, q, y)
      ensures Blocks() == Contents(g, mem0, old(head))
    {
      hide Inv, Accounted, Contents, SameViews, Linked, MadeMem, CopyHead, Linkable, OkExtent, AsSnapped, Building,
        Chain;
      ghost var head0, e := head, mem[y];
      Link(q, parent, y, mem0, tag0);
      MakeStep(g, mem0, tag0, views, head0, leaked + pending, parent, q, y, e);
      KeepSnapped(g, mem0, mem, views, snaps);
      assert leaked + pending + {y} == leaked + (pending + {y});
      CloseBuilding(pending + {y});
    }

    lemma OpenBuilding(pending: set<Addr>)
      requires Building(pending)
      ensures Pool() && AsSnapped(g, mem, views, snaps) && Inv(g, mem, tag, views, head)
      ensures head.count < capacity <= End(g, Root)
      ensures Accounted(g, mem, tag, Chain(views, head), leaked + pending) && pending !! leaked
      ensures forall a :: a in leaked || a in pending ==> a in mem
    {
    }

    lemma CloseBuilding(pending: set<Addr>)
      requires Pool() && AsSnapped(g, mem, views, snaps) && Inv(g, mem, tag, views, head)
      requires head.count < capacity <= End(g, Root)
      requires Accounted(g, mem, tag, Chain(views, head), leaked + pending) && pending !! leaked
      ensures Building(pending)
    {
    }

    /** No view uses the slot for the next extent, in a table just made or in one of the head's own. */
    lemma SlotFree(pending: set<Addr>, parent: Addr, q: Pos)
      requires Building(pending) && Start(g, q) == head.count && q != Root
      requires || (parent in pending && parent in tag && tag[parent] == Up(g, q))
               || (Covers(g, head.count, Up(g, q)) && OnPath(g, head.count, Up(g, q)) &&
                   parent == At(g, mem, head, Up(g, q)))
      ensures forall v :: v in Chain(views, head) && Reaches(g, mem, tag, v, parent) ==> !Covers(g, v.count, q)
    {
      if parent in pending {
        var chain := Chain(views, head);
        forall v | v in chain
          ensures !Reaches(g, mem, tag, v, parent)
        {
          var k :| 0 <= k < |chain| && chain[k] == v;
          assert !Reached(g, mem, tag, chain, parent);
        }
      } else {
        RoomForNext(g, mem, tag, views, head, Up(g, q), q);
      }
    }

    method FreePending(a: Addr, ghost pending: set<Addr>)
      requires Building(pending) && a in pending
      modifies this`mem, this`tag, this`extentCount
      ensures Building(pending - {a}) && Blocks() == old(Blocks())
      ensures mem == old(mem) - {a} && tag == old(tag) - {a}
    {
      hide Core, Accounted, HeadGrowing, Contents, OkView, Reaches, Covers, AsSnapped;
      ghost var mem0, tag0, chain := mem, tag, Chain(views, head);
      ExtraHeld(g, mem, tag, chain, leaked + pending);
      FreeStep(g, mem, tag, views, head, leaked + pending, {a});
      FreeExtent(a);
      assert leaked + pending - {a} == leaked + (pending - {a});
      assert forall k :: 0 <= k < |views| ==> chain[k] == views[k];
      assert chain[|views|] == head;
      SameContents(mem0, mem);
      KeepSnapped(g, mem0, mem, views, snaps);
    }

    lemma SameContents(mem0: Mem, mem1: Mem)
      requires GeoOk(g) && SameViews(g, mem0, mem1, Chain(views, head))
      ensures SameViews(g, mem0, mem1, views) && Contents(g, mem0, head) == Contents(g, mem1, head)
    {
      var chain := Chain(views, head);
      assert chain[|views|] == head && SameView(g, mem0, mem1, chain[|views|]);
      forall k | 0 <= k < |views|
        ensures SameView(g, mem0, mem1, views[k])
      {
        assert chain[k] == views[k];
      }
    }

    /** Every extent that begins with the head's next block has been made and hooked up. */
    ghost predicate Made(pending: set<Addr>)
      reads this
      requires GeoOk(g)
    {
      && (forall q :: Start(g, q) == head.count ==> OkAt(g, mem, tag, head, q) && At(g, mem, head, q) in pending)
      && (forall a :: a in pending ==> a in tag && Start(g, tag[a]) == head.count && At(g, mem, head, tag[a]) == a)
    }

    ghost predicate Serves(a: Addr, q: Pos, pending: set<Addr>)
      reads this
    {
      a in mem && a in tag && tag[a] == q && OkExtent(g, mem[a], q) && a in pending
    }

    lemma MadeAll(pending: set<Addr>, e1: Addr, e2: Addr, e3: Addr)
      requires GeoOk(g) && head.count < End(g, Root)
      requires var id := head.count;
               var m, l := MidOf(g, id), LeafOf(g, id);
               && e1 == head.root && e2 == At(g, mem, head, m) && e3 == Slot(mem, e2, SlotOf(g, l))
               && (id == 0 ==> Serves(e1, Root, pending))
               && (BeginsMid(g, id) ==> Serves(e2, m, pending))
               && (BeginsLeaf(g, id) ==> Serves(e3, l, pending))
               && forall a :: a in pending ==>
                    (id == 0 && a == e1) || (BeginsMid(g, id) && a == e2) || (BeginsLeaf(g, id) && a == e3)
      ensures Made(pending)
    {
      FirstBlock(g, head.count);
      forall q | Start(g, q) == head.count
        ensures OkAt(g, mem, tag, head, q) && At(g, mem, head, q) in pending
      {
        StartOnPath(g, head.count + 1, q);
        OnPathUnique(g, head.count, q);
      }
    }

    lemma StartBuilding()
      requires Valid() && head.count < capacity
      ensures Building({}) && GeoOk(g) && head.count < End(g, Root)
    {
      assert leaked + {} == leaked;
    }

    lemma HeadExtent(pending: set<Addr>, q: Pos)
      requires Building(pending) && Covers(g, head.count, q)
      ensures OkAt(g, mem, tag, head, q) && OkAt(g, mem, tag, head, Up(g, q))
    {
      HeadAt(g, mem, tag, views, head, q);
    }

    /** The second-level table over the head's next block, made if that block begins it. */
    method MidForNext(e1: Addr, ghost pending: set<Addr>) returns (r: Option<Addr>)
      requires Building(pending) && GeoOk(g) && head.count < End(g, Root) && e1 == head.root
      requires if head.count == 0 then Serves(e1, Root, pending) else OkAt(g, mem, tag, head, Root)
      modifies this`mem, this`tag, this`extentCount, this`reserved, this`offers, this`head
      ensures Blocks() == old(Blocks()) && head == old(head)
      ensures |reserved| <= |old(reserved)|
      ensures Paid(old(Credit()), Credit(), if BeginsMid(g, head.count) then 1 else 0, r.Some?)
      ensures r.None? ==> Building(pending) && BeginsMid(g, head.count)
      ensures r.Some? ==>
                && var m := MidOf(g, head.count);
                && r.value == At(g, mem, head, m) && e1 != r.value && Serves(r.value, m, {r.value})
                && (head.count == 0 ==> Serves(e1, Root, pending))
                && e1 in mem && (BeginsMid(g, head.count) ==> r.value !in pending)
                && if BeginsMid(g, head.count) then Building(pending + {r.value}) else Building(pending)
    {
      hide Building, Contents, Reaches, BeginsMid, BeginsLeaf;
      FirstBlock(g, head.count);
      var m := MidOf(g, head.count);
      if !BeginsMid(g, head.count) {
        HeadExtent(pending, m);
        r := Some(At(g, mem, head, m));
      } else {
        SlotFree(pending, e1, m);
        r := MakeExtent(m, e1, pending);
      }
    }

    /** The root over the head's next block, made if that is the first. */
    method RootForNext() returns (r: Option<Addr>, ghost pending: set<Addr>)
      requires Building({})
      modifies this`mem, this`tag, this`extentCount, this`reserved, this`offers, this`head
      ensures head.count == old(head.count) && Building(pending) && Blocks() == old(Blocks())
      ensures head.count > 0 ==> head == old(head)
      ensures |reserved| <= |old(reserved)| && Paid(old(Credit()), Credit(), if head.count == 0 then 1 else 0, r.Some?)
      ensures r.None? ==> pending == {}
      ensures r.Some? ==>
                && r.value == head.root && (forall a :: a in pending <==> head.count == 0 && a == r.value)
                && if head.count == 0 then Serves(r.value, Root, pending) else OkAt(g, mem, tag, head, Root)
    {
      hide Building, Contents, Reaches;
      BuildingGeo({});
      pending := {};
      if head.count > 0 {
        HeadExtent(pending, Root);
        return Some(head.root), pending;
      }
      r := MakeExtent(Root, 0, pending);
      if r.Some? { pending := pending + {r.value}; }
    }

    /** How many tables a block begins. */
    function NewTables(id: nat): nat
      requires GeoOk(g)
    {
      (if id == 0 then 1 else 0) + if BeginsMid(g, id) then 1 else 0
    }

    /** How many extents a block begins, on all levels: what its allocation costs. */
    static function NewExtents(g: Geo, id: nat): nat
      requires GeoOk(g)
    {
      (if id == 0 then 1 else 0) + (if BeginsMid(g, id) then 1 else 0) + if BeginsLeaf(g, id) then 1 else 0
    }

    /** The two tables over the head's next block, made if that block begins them. */
    method TablesForNext() returns (ok: bool, e1: Addr, e2: Addr, ghost pending: set<Addr>)
      requires Valid() && head.count < capacity
      modifies this`mem, this`tag, this`extentCount, this`reserved, this`offers, this`head
      ensures head.count == old(head.count) && Building(pending) && Blocks() == old(Blocks())
      ensures head.count > 0 ==> head == old(head)
      ensures |reserved| <= |old(reserved)| && Paid(old(Credit()), Credit(), NewTables(head.count), ok)
      ensures !ok ==> pending == {}
      ensures ok ==>
                && var m := MidOf(g, head.count);
                && e1 == head.root && e2 == At(g, mem, head, m)
                && e1 != e2 && e1 in mem && Serves(e2, m, {e2})
                && (head.count == 0 ==> Serves(e1, Root, pending))
                && forall a :: a in pending <==> (head.count == 0 && a == e1) || (BeginsMid(g, head.count) && a == e2)
    {
      hide Valid, Building, Contents, Reaches, BeginsMid, MidOf, At, OkAt, OkExtent;
      StartBuilding();
      ok, e1, e2 := false, 0, 0;
      var r;
      r, pending := RootForNext();
      if r.None? { return; }
      e1 := r.value;
      r := MidForNext(e1, pending);
      if r.None? {
        FreeTables(head.count == 0, e1, false, e2, pending);
        pending := {};
        return;
      }
      ok, e2, pending := true, r.value, if BeginsMid(g, head.count) then pending + {r.value} else pending;
    }

    /** Takes back the tables made for a block that could not get its third extent. */
    method FreeTables(made1: bool, e1: Addr, made2: bool, e2: Addr, ghost pending: set<Addr>)
      requires Building(pending) && (made1 && made2 ==> e1 != e2)
      requires forall a :: a in pending <==> (made1 && a == e1) || (made2 && a == e2)
      modifies this`mem, this`tag, this`extentCount
      ensures Building({}) && Blocks() == old(Blocks())
    {
      hide Building, Contents, AsSnapped;
      ghost var left := pending;
      if made1 { FreePending(e1, left); left := left - {e1}; }
      if made2 { FreePending(e2, left); left := left - {e2}; }
      assert left == {};
    }

    /** The extent that will hold the head's next block, which begins it. */
    method LeafForNext(e2: Addr, ghost pending: set<Addr>) returns (r: Option<Addr>)
      requires Building(pending) && BeginsLeaf(g, head.count)
      requires var m := MidOf(g, head.count);
               e2 == At(g, mem, head, m) && Serves(e2, m, {e2}) && (BeginsMid(g, head.count) ==> e2 in pending)
      modifies this`mem, this`tag, this`extentCount, this`reserved, this`offers, this`head
      ensures Blocks() == old(Blocks()) && head == old(head)
      ensures |reserved| <= |old(reserved)| && Paid(old(Credit()), Credit(), 1, r.Some?)
      ensures r.None? ==> Building(pending) && mem == old(mem) && tag == old(tag)
      ensures r.Some? ==>
                && var l := LeafOf(g, head.count);
                && Building(pending + {r.value}) && r.value !in old(mem)
                && Serves(r.value, l, {r.value}) && tag == old(tag)[r.value := l]
                && (forall a :: a in old(mem) ==> a in mem && (a == e2 || mem[a] == old(mem)[a]))
                && OkExtent(g, mem[e2], Up(g, l)) && Slot(mem, e2, SlotOf(g, l)) == r.value
    {
      hide Inv, Core, Accounted, HeadGrowing, Contents, OkView, Reaches, AsSnapped, BeginsMid, BeginsLeaf, LeafOf,
        MidOf;
      FirstBlock(g, head.count);
      var l := LeafOf(g, head.count);
      SlotFree(pending, e2, l);
      r := MakeExtent(l, e2, pending);
    }

    /** The last step of matras_alloc_internal, once both tables are there. */
    method FinishNext(e1: Addr, e2: Addr, ghost made: set<Addr>) returns (r: Option<Addr>, ghost pending: set<Addr>)
      requires Building(made)
      requires && var m := MidOf(g, head.count);
               && e1 == head.root && e2 == At(g, mem, head, m)
               && e1 != e2 && e1 in mem && Serves(e2, m, {e2})
               && (head.count == 0 ==> Serves(e1, Root, made))
               && forall a :: a in made <==> (head.count == 0 && a == e1) || (BeginsMid(g, head.count) && a == e2)
      modifies this`mem, this`tag, this`extentCount, this`reserved, this`offers, this`head
      ensures head == old(head) && Building(pending) && Blocks() == old(Blocks())
      ensures |reserved| <= |old(reserved)|
      ensures Paid(old(Credit()), Credit(), if BeginsLeaf(g, head.count) then 1 else 0, r.Some?)
      ensures r.None? ==> pending == {}
      ensures r.Some? ==> Made(pending) && r.value == At(g, mem, head, LeafOf(g, head.count))
    {
      hide Building, Contents, Reaches, Made, BeginsMid, BeginsLeaf, OkExtent, MidOf, LeafOf;
      BuildingGeo(made);
      FirstBlock(g, head.count);
      var l := LeafOf(g, head.count);
      if !BeginsLeaf(g, head.count) {
        r, pending := Some(Slot(mem, e2, SlotOf(g, l))), made;
        MadeAll(pending, e1, e2, r.value);
        return;
      }
      r := LeafForNext(e2, made);
      if r.None? {
        FreeTables(head.count == 0, e1, BeginsMid(g, head.count), e2, made);
        return None, {};
      }
      pending := made + {r.value};
      MadeAll(pending, e1, e2, r.value);
    }

    lemma BuildingGeo(pending: set<Addr>)
      requires Building(pending)
      ensures GeoOk(g) && head.count < End(g, Root)
    {
    }

    /** matras_alloc_internal: makes the extents that block head.count needs and returns the one
        that will hold it. They are not yet part of any view. */
    method AllocInternal() returns (r: Option<Addr>, ghost pending: set<Addr>)
      requires Valid() && head.count < capacity
      modifies this`mem, this`tag, this`extentCount, this`reserved, this`offers, this`head
      ensures head.count == old(head.count) && Building(pending) && Blocks() == old(Blocks())
      ensures head.count > 0 ==> head == old(head)
      ensures |reserved| <= |old(reserved)| && Paid(old(Credit()), Credit(), NewExtents(g, head.count), r.Some?)
      ensures r.None? ==> pending == {}
      ensures r.Some? ==> Made(pending) && r.value == At(g, mem, head, LeafOf(g, head.count))
    {
      hide Building, Valid, Contents, Reaches, Made, BeginsMid, BeginsLeaf, MidOf, LeafOf, At, Slot, Serves;
      var ok, e1, e2;
      ok, e1, e2, pending := TablesForNext();
      if !ok { return None, pending; }
      r, pending := FinishNext(e1, e2, pending);
    }

    /** What matras_alloc_range asserts of its range. */
    static predicate RangeOk(g: Geo, count: nat, range: nat) {
      range > 0 && count % range == 0 && g.n % range == 0
    }

    lemma Grow(pending: set<Addr>, r: nat)
      requires Building(pending) && Made(pending) && RangeOk(g, head.count, r) && head.count + r <= capacity
      ensures var head' := head.(count := head.count + r);
              && Inv(g, mem, tag, views, head') && Accounted(g, mem, tag, Chain(views, head'), leaked)
              && Contents(g, mem, head')[..head.count] == Contents(g, mem, head)
              && forall id :: head.count <= id < head'.count ==> Writable(g, mem, views, head', id)
    {
      var count := head.count + r;
      forall q | Covers(g, count, q) && !Covers(g, head.count, q)
        ensures OkAt(g, mem, tag, head, q) && At(g, mem, head, q) in pending
      {
        RangeStart(g, head.count, r, q);
      }
      assert leaked + pending - pending == leaked;
      GrowStep(g, mem, tag, views, head, count, leaked + pending, pending);
      forall id | head.count <= id < count
        ensures Writable(g, mem, views, head.(count := count), id)
      {
        GrowWritable(g, mem, tag, views, head, count, leaked + pending, pending, id);
      }
    }

    /** The head takes in the next blocks, their extents made. */
    method Commit(range: nat, ghost pending: set<Addr>)
      requires Building(pending) && Made(pending) && RangeOk(g, head.count, range) && head.count + range <= capacity
      modifies this`head
      ensures Valid() && head == old(head).(count := old(head.count) + range)
      ensures Blocks()[..old(head.count)] == old(Blocks())
      ensures forall id :: old(head.count) <= id < head.count ==> Writable(g, mem, views, head, id)
    {
      Grow(pending, range);
      hide Core, Accounted, HeadGrowing, Contents, Writable, Made, RangeOk, AsSnapped;
      head := head.(count := head.count + range);
    }

    /** matras_alloc_range; matras_alloc is the range of one block. */
    method AllocRange(range: nat) returns (r: Option<Addr>)
      requires Valid() && RangeOk(g, head.count, range)
      modifies this`mem, this`tag, this`extentCount, this`reserved, this`offers, this`head
      ensures Valid() && (old(head.count) > 0 ==> head.root == old(head.root))
      ensures r.None? ==> head.count == old(head.count) && Blocks() == old(Blocks())
      ensures old(head.count) + range > capacity ==> r.None? && Credit() == old(Credit())
      ensures old(head.count) + range <= capacity ==>
                Paid(old(Credit()), Credit(), NewExtents(g, old(head.count)), r.Some?)
      ensures |reserved| <= |old(reserved)|
      ensures r.Some? ==>
                && head.count == old(head.count) + range && Blocks()[..old(head.count)] == old(Blocks())
                && r.value == At(g, mem, head, LeafOf(g, old(head.count)))
                && forall id :: old(head.count) <= id < head.count ==> Writable(g, mem, views, head, id)
    {
      hide Core, Accounted, HeadGrowing, Contents, Writable, Made, AsSnapped;
      if head.count + range > capacity {
        return None;
      }
      ghost var pending;
      r, pending := AllocInternal();
      if r.Some? {
        Commit(range, pending);
      } else {
        assert leaked + pending == leaked;
      }
    }

    method Alloc() returns (r: Option<Addr>, id: nat)
      requires Valid()
      modifies this`mem, this`tag, this`extentCount, this`reserved, this`offers, this`head
      ensures Valid() && id == old(head.count) && (id > 0 ==> head.root == old(head.root))
      ensures r.None? ==> head.count == id && Blocks() == old(Blocks())
      ensures id == capacity ==> r.None? && Credit() == old(Credit())
      ensures id < capacity ==> Paid(old(Credit()), Credit(), NewExtents(g, id), r.Some?)
      ensures |reserved| <= |old(reserved)|
      ensures r.Some? ==>
                && head.count == id + 1 && Blocks()[..id] == old(Blocks())
                && r.value == At(g, mem, head, LeafOf(g, id)) && Writable(g, mem, views, head, id)
    {
      hide Core, Accounted, HeadGrowing, Contents, Writable, AsSnapped;
      id := head.count;
      r := AllocRange(1);
    }

    // ---------- giving blocks back ----------

    method FreeIf(free: bool, a: Addr)
      requires Pool() && (free ==> a in mem)
      modifies this`mem, this`tag, this`extentCount
      ensures Pool()
      ensures var f := if free then {a} else {}; mem == old(mem) - f && tag == old(tag) - f
    {
      if free { FreeExtent(a); }
    }

    static lemma MinusMinus<V>(m: map<Addr, V>, s: set<Addr>, t: set<Addr>)
      ensures m - s - t == m - (s + t)
    {
    }

    /** Frees the extents that begin with block id of the head. */
    method FreeFrom(id: nat) returns (ghost gone: set<Addr>)
      requires Pool()
      requires var q2, q3 := MidOf(g, id), LeafOf(g, id);
               OkAt(g, mem, tag, head, Root) && OkAt(g, mem, tag, head, q2) && OkAt(g, mem, tag, head, q3)
      modifies this`mem, this`tag, this`extentCount
      ensures Pool() && mem == old(mem) - gone && tag == old(tag) - gone
      ensures gone == old(Begun(g, mem, head, id))
    {
      var e1, e2, e3 := At(g, mem, head, Root), At(g, mem, head, MidOf(g, id)), At(g, mem, head, LeafOf(g, id));
      var free2, free3 := BeginsMid(g, id), BeginsLeaf(g, id);
      gone := Begun(g, mem, head, id);
      ghost var f1, f2, f3 := if id == 0 then {e1} else {}, if free2 then {e2} else {}, if free3 then {e3} else {};
      assert gone == f3 + f2 + f1;
      assert e1 in mem && e2 in mem && e3 in mem && e1 != e2 && e1 != e3 && e2 != e3;
      hide At, OkExtent, Begun;
      FreeIf(free3, e3);
      FreeIf(free2, e2);
      FreeIf(id == 0, e1);
      MinusMinus(old(mem), f3, f2);
      MinusMinus(old(mem), f3 + f2, f1);
      MinusMinus(old(tag), f3, f2);
      MinusMinus(old(tag), f3 + f2, f1);
    }

    /** matras_dealloc. The touch of the last block is not checked there; whether it worked is
        returned here. It works exactly when there are as many extents to be had as levels shared on
        the way to the block, and the tree stays sound exactly when it works or the newest view does
        not have the block. */
    method Dealloc() returns (touched: bool)
      requires CoreValid() && head.count > 0
      modifies this`mem, this`tag, this`extentCount, this`reserved, this`offers, this`head
      ensures head.count == old(head.count) - 1
      ensures touched <==> old(Credit()) >= old(PathCost(head.count - 1))
      ensures old(ReadyToTouch(1)) ==> touched
      ensures Valid() <==> touched || views == [] || Last(views).count <= head.count
      ensures Valid() ==> Blocks() == old(Blocks())[..head.count]
      ensures !Valid() ==> Damaged(g, mem, views, head)
      ensures |reserved| <= |old(reserved)| && Credit() <= old(Credit()) <= Credit() + 3
    {
      hide Core, Accounted, HeadGrowing, Contents, Writable, NeedsTouch, TouchCost, ReadyToTouch, Damaged, Share,
        AsSnapped;
      var id := head.count - 1;
      if ReadyToTouch(1) { ReadyOne(id); }
      var t := Touch(id);
      touched := t.Some?;
      if !touched { Needed(id); }
      DropLast(id, touched);
    }

    /** The rest of matras_dealloc. */
    method DropLast(id: nat, ghost touched: bool)
      requires CoreValid() && id + 1 == head.count
      requires touched ==> Writable(g, mem, views, head, id)
      requires !touched ==> views != [] && Share(g, mem, Last(views), head, LeafOf(g, id))
      modifies this`mem, this`tag, this`extentCount, this`head
      ensures head.count == id
      ensures touched || Last(views).count <= id ==> Valid() && Blocks() == old(Blocks())[..id]
      ensures !touched && Last(views).count > id ==> !Valid() && Damaged(g, mem, views, head)
    {
      hide Core, Accounted, HeadGrowing, Contents, Writable, OkView, Dropped, AsSnapped, Damaged;
      ghost var mem0, tag0, head0 := mem, tag, head;
      LastBlock(id);
      DroppedAre(g, mem, tag, views, head, id);
      ghost var gone := FreeFrom(id);
      head := head.(count := id);
      if touched || Last(views).count <= id {
        if !touched {
          NotNeededWritable(g, mem0, tag0, views, head0, id);
        }
        assert gone == Dropped(g, mem0, tag0, head0, id);
        DeallocStep(g, mem0, tag0, views, head0, id, leaked);
        KeepSnapped(g, mem0, mem, views, snaps);
      } else {
        CoreOkViews(mem0, tag0, head0);
        UnsafeShrink(g, mem0, tag0, views, head0, id, mem, tag, gone);
        Damage(g, mem0, tag0, views, head0, id, mem, gone);
      }
    }

    lemma Needed(id: nat)
      requires GeoOk(g) && NeedsTouch(g, views, id)
      ensures views != []
    {
    }

    lemma ReadyOne(id: nat)
      requires GeoOk(g) && ReadyToTouch(1)
      ensures !NeedsTouch(g, views, id) || |reserved| >= TouchCost()
    {
    }

    lemma CoreOkViews(mem0: Mem, tag0: Tags, head0: View)
      requires Core(g, mem0, tag0, views, head0)
      ensures OkViews(g, mem0, tag0, views)
    {
    }

    lemma LastBlock(id: nat)
      requires CoreValid() && id + 1 == head.count
      ensures var q2, q3 := MidOf(g, id), LeafOf(g, id);
              OkAt(g, mem, tag, head, Root) && OkAt(g, mem, tag, head, q2) && OkAt(g, mem, tag, head, q3)
    {
      FirstBlock(g, id);
    }

    /** matras_dealloc_range. The count goes down by all but one of the blocks before the touch. */
    method DeallocRange(range: nat) returns (touched: bool)
      requires Valid() && head.count > 0 && RangeOk(g, head.count, range)
      modifies this`mem, this`tag, this`extentCount, this`reserved, this`offers, this`head
      ensures head.count == old(head.count) - range
      ensures touched <==> old(Credit()) >= old(PathCost(head.count - range))
      ensures old(ReadyToTouch(1)) ==> touched
      ensures Valid() <==> touched || views == [] || Last(views).count <= head.count
      ensures Valid() ==> Blocks() == old(Blocks())[..head.count]
      ensures !Valid() ==> Damaged(g, mem, views, head)
      ensures |reserved| <= |old(reserved)| && Credit() <= old(Credit()) <= Credit() + 3
    {
      hide Core, Accounted, HeadGrowing, Contents, RangeOk, AsSnapped, SharedOnPath, Damaged;
      ghost var count := head.count;
      PartRange(range);
      ShorterPath(g, mem, views, head, head.count - range, head.count - (range - 1));
      head := head.(count := head.count - (range - 1));
      assert Blocks() == old(Blocks())[..head.count];
      touched := Dealloc();
      assert old(Blocks())[..count - (range - 1)][..count - range] == old(Blocks())[..count - range];
    }

    lemma PartRange(range: nat)
      requires Valid() && head.count > 0 && RangeOk(g, head.count, range)
      ensures 1 <= range <= head.count
      ensures var head' := head.(count := head.count - (range - 1));
              && Core(g, mem, tag, views, head') && Accounted(g, mem, tag, Chain(views, head'), leaked)
              && Contents(g, mem, head') == Contents(g, mem, head)[..head'.count]
    {
      var id := head.count - range;
      DivStart(head.count, range);
      assert head.count / range >= 1;
      assert (head.count / range - 1) * range == head.count - range;
      DivModUnique(id, range, head.count / range - 1, 0);
      forall q | Covers(g, head.count, q)
        ensures Covers(g, id + 1, q)
      {
        if id <= Start(g, q) { RangeStart(g, id, range, q); }
      }
      PartShrink(g, mem, tag, views, head, id + 1, leaked);
    }

    // ---------- read views ----------

    /** matras_create_read_view */
    method CreateReadView()
      requires Valid()
      modifies this`views, this`snaps
      ensures Valid() && views == old(views) + [head] && snaps == old(snaps) + [Blocks()]
    {
      hide Core, Accounted, HeadGrowing, Contents;
      SnapshotStep(g, mem, tag, views, head, leaked);
      views := views + [head];
      snaps := snaps + [Contents(g, mem, head)];
    }

    /** The walk has freed exactly these extents so far. */
    ghost predicate Freed(mem0: Mem, tag0: Tags, done: set<Addr>)
      reads this`mem, this`tag, this`extentCount, this`reserved
    {
      Pool() && mem == mem0 - done && tag == tag0 - done
    }

    /** Frees one more extent of the walk. */
    method FreeNext(a: Addr, ghost mem0: Mem, ghost tag0: Tags, ghost done: set<Addr>)
      requires Freed(mem0, tag0, done) && a in mem0 && a !in done
      modifies this`mem, this`tag, this`extentCount
      ensures Freed(mem0, tag0, done + {a})
    {
      FreeExtent(a);
      MinusMinus(mem0, done, {a});
      MinusMinus(tag0, done, {a});
    }

    /** Whether view w has extent e at position q, as the walk tests it. */
    method Has(w: View, q: Pos, e: Addr, ghost mem0: Mem, ghost tag0: Tags, ghost done: set<Addr>) returns (same: bool)
      requires GeoOk(g) && Freed(mem0, tag0, done) && OkView(g, mem0, tag0, w)
      requires forall r :: Covers(g, w.count, r) ==> At(g, mem0, w, r) !in done
      ensures same <==> Covers(g, w.count, q) && At(g, mem0, w, q) == e
    {
      same := w.count > Start(g, q) && At(g, mem, w, q) == e;
      if Covers(g, w.count, q) {
        ReadThrough(g, mem0, tag0, w, done, q);
      }
    }

    /** One third-level extent of the walk: kept by a neighbour, or freed. */
    method FreeLeaf(v: View, older: Option<View>, newer: View, j: nat, e2: Addr, ghost mem0: Mem, ghost tag0: Tags,
                    ghost f: set<Addr>)
      requires Doomed(g, mem0, tag0, v, older, newer, f)
      requires Freed(mem0, tag0, FreedBelow(g, tag0, f, j / g.p) + LeavesUnder(g, tag0, f, j / g.p, j % g.p))
      requires Covers(g, v.count, Leaf(j)) && e2 == At(g, mem0, v, Mid(j / g.p))
      requires !Kept(g, mem0, v, older, newer, Root) && !Kept(g, mem0, v, older, newer, Mid(j / g.p))
      modifies this`mem, this`tag, this`extentCount
      ensures Freed(mem0, tag0, FreedBelow(g, tag0, f, j / g.p) + LeavesUnder(g, tag0, f, j / g.p, j % g.p + 1))
    {
      hide Doomed, OkView, OkExtent, FreedBelow, LeavesUnder, At, Slot, Start, Freed;
      DoomedViews(v, older, newer, mem0, tag0, f);
      ghost var below, leaves := FreedBelow(g, tag0, f, j / g.p), LeavesUnder(g, tag0, f, j / g.p, j % g.p);
      NextLeaf(g, mem0, tag0, v, older, newer, f, j);
      FreedMem(mem0, tag0, below + leaves);
      ReadLeaf(g, mem0, tag0, v, older, newer, j, f);
      var q, e3 := Leaf(j), Slot(mem, e2, j % g.p);
      var kept := Has(newer, q, e3, mem0, tag0, below + leaves);
      if !kept && older.Some? {
        kept := Has(older.value, q, e3, mem0, tag0, below + leaves);
      }
      assert kept <==> Kept(g, mem0, v, older, newer, q);
      ghost var more := LeavesUnder(g, tag0, f, j / g.p, j % g.p + 1);
      if !kept {
        FreeNext(e3, mem0, tag0, below + leaves);
        assert below + leaves + {e3} == below + more;
      } else {
        assert below + leaves == below + more;
      }
    }

    /** The inner loop of matras_destroy_read_view: the third-level extents under extent i. */
    method FreeLeaves(v: View, older: Option<View>, newer: View, i: nat, e2: Addr, ghost mem0: Mem, ghost tag0: Tags,
                      ghost f: set<Addr>)
      requires Doomed(g, mem0, tag0, v, older, newer, f) && Freed(mem0, tag0, FreedBelow(g, tag0, f, i)) && GeoOk(g)
      requires Covers(g, v.count, Mid(i)) && e2 == At(g, mem0, v, Mid(i))
      requires !Kept(g, mem0, v, older, newer, Root) && !Kept(g, mem0, v, older, newer, Mid(i))
      modifies this`mem, this`tag, this`extentCount
      ensures Freed(mem0, tag0, FreedBelow(g, tag0, f, i) + LeavesUnder(g, tag0, f, i, g.p))
    {
      hide OkView, FreedBelow, LeavesUnder, Freed, Kept, LeafIn, Doomed, Start, At, Slot;
      var j1, k, j2 := i * (g.p * g.n), 0, 0;
      NoLeavesYet(g, tag0, f, i);
      while k < g.p && j1 + j2 < v.count
        invariant k <= g.p && j2 == k * g.n
        invariant Freed(mem0, tag0, FreedBelow(g, tag0, f, i) + LeavesUnder(g, tag0, f, i, k))
      {
        LeafOfMid(g, i, k);
        FreeLeaf(v, older, newer, LeafIn(g, i, k), e2, mem0, tag0, f);
        assert (k + 1) * g.n == k * g.n + g.n;
        k, j2 := k + 1, j2 + g.n;
      }
      if k < g.p { LeafOfMid(g, i, k); }
      NoMoreLeaves(g, mem0, tag0, v, older, newer, f, i, k);
    }

    lemma DoomedViews(v: View, older: Option<View>, newer: View, mem0: Mem, tag0: Tags, f: set<Addr>)
      requires Doomed(g, mem0, tag0, v, older, newer, f)
      ensures GeoOk(g) && OkView(g, mem0, tag0, newer) && (older.Some? ==> OkView(g, mem0, tag0, older.value))
    {
    }

    lemma FreedMem(mem0: Mem, tag0: Tags, done: set<Addr>)
      requires Freed(mem0, tag0, done)
      ensures mem == mem0 - done
    {
    }

    /** One second-level extent of the walk: kept with all under it, or freed after its leaves. */
    method FreeMid(v: View, older: Option<View>, newer: View, i: nat, ghost mem0: Mem, ghost tag0: Tags,
                   ghost f: set<Addr>)
      requires Doomed(g, mem0, tag0, v, older, newer, f) && Freed(mem0, tag0, FreedBelow(g, tag0, f, i))
      requires Covers(g, v.count, Mid(i)) && !Kept(g, mem0, v, older, newer, Root)
      modifies this`mem, this`tag, this`extentCount
      ensures Freed(mem0, tag0, FreedBelow(g, tag0, f, i + 1))
    {
      hide OkView, OkExtent, FreedBelow, LeavesUnder, Doomed, At, Slot, Start;
      DoomedViews(v, older, newer, mem0, tag0, f);
      ghost var below, leaves := FreedBelow(g, tag0, f, i), LeavesUnder(g, tag0, f, i, g.p);
      WalkStart(g, mem0, tag0, v, older, newer, f, i);
      NextMid(g, mem0, tag0, v, older, newer, f, i);
      var e2 := Slot(mem, v.root, i);
      var kept := Has(newer, Mid(i), e2, mem0, tag0, below);
      if !kept && older.Some? {
        kept := Has(older.value, Mid(i), e2, mem0, tag0, below);
      }
      assert kept <==> Kept(g, mem0, v, older, newer, Mid(i));
      if !kept {
        FreeLeaves(v, older, newer, i, e2, mem0, tag0, f);
        FreeNext(e2, mem0, tag0, below + leaves);
      }
    }

    /** The loops of matras_destroy_read_view. */
    method FreeTree(v: View, older: Option<View>, newer: View, ghost mem0: Mem, ghost tag0: Tags, ghost f: set<Addr>)
      requires Doomed(g, mem0, tag0, v, older, newer, f) && Freed(mem0, tag0, {})
      requires v.count > 0 && !Kept(g, mem0, v, older, newer, Root)
      modifies this`mem, this`tag, this`extentCount
      ensures Freed(mem0, tag0, f)
    {
      hide OkView, FreedBelow, Freed, Kept, Doomed, At, Slot;
      WalkStart(g, mem0, tag0, v, older, newer, f, 0);
      var i, j1 := 0, 0;
      while j1 < v.count
        invariant j1 == i * (g.p * g.n) && j1 < v.count + g.p * g.n
        invariant Freed(mem0, tag0, FreedBelow(g, tag0, f, i))
        decreases v.count + g.p * g.n - j1
      {
        FreeMid(v, older, newer, i, mem0, tag0, f);
        assert (i + 1) * (g.p * g.n) == i * (g.p * g.n) + g.p * g.n;
        i, j1 := i + 1, j1 + g.p * g.n;
      }
      NoMoreMids(g, mem0, tag0, v, older, newer, f, i);
      FreeNext(v.root, mem0, tag0, FreedBelow(g, tag0, f, i));
    }

    /** The part of matras_destroy_read_view after the view is unlinked. */
    method FreeView(v: View, older: Option<View>, newer: View, ghost f: set<Addr>)
      requires Doomed(g, mem, tag, v, older, newer, f) && Pool()
      modifies this`mem, this`tag, this`extentCount
      ensures Freed(old(mem), old(tag), f)
    {
      hide OkView, Doomed;
      assert mem - {} == mem && tag - {} == tag;
      if v.count == 0 {
        NothingFreed(g, mem, tag, v, older, newer, f);
        return;
      }
      if v.root == newer.root && newer.count > 0 {
        NothingFreed(g, mem, tag, v, older, newer, f);
        return;
      }
      if older.Some? && v.root == older.value.root && older.value.count > 0 {
        NothingFreed(g, mem, tag, v, older, newer, f);
        return;
      }
      FreeTree(v, older, newer, mem, tag, f);
    }

    method DropView(k: nat)
      requires Valid() && k < |views|
      modifies this`mem, this`tag, this`extentCount, this`views, this`snaps, this`leaked
      ensures Valid() && Blocks() == old(Blocks())
      ensures views == Without(old(views), k) && snaps == Without(old(snaps), k)
      ensures mem == old(mem) - old(FreedSet(g, mem, tag, views, head, k))
      ensures tag == old(tag) - old(FreedSet(g, mem, tag, views, head, k))
      ensures leaked == old(leaked) + old(LeakedSet(g, mem, tag, views, head, k))
      ensures k == 0 ==> leaked == old(leaked)
    {
      hide Core, Accounted, HeadGrowing, Contents, OkView, Doomed, FreedSet, LeakedSet, SameViews, Without, Older,
        Newer, Chain, SameView, AsSnapped;
      var v, older, newer := views[k], Older(views, k), Newer(views, head, k);
      ghost var mem0 := mem;
      ghost var f, l := FreedSet(g, mem, tag, views, head, k), LeakedSet(g, mem, tag, views, head, k);
      DropDoomed(g, mem, tag, views, head, k, leaked);
      DestroyStep(g, mem, tag, views, head, k, leaked);
      DropSnapped(g, mem, views, snaps, k);
      views, snaps, leaked := Without(views, k), Without(snaps, k), leaked + l;
      FreeView(v, older, newer, f);
      KeepSnapped(g, mem0, mem, views, snaps);
      assert k == 0 ==> leaked == old(leaked);
    }

    /** matras_destroy_read_view. An index outside the chain stands for a view that is not in it. */
    method DestroyReadView(k: nat)
      requires Valid()
      modifies this`mem, this`tag, this`extentCount, this`views, this`snaps, this`leaked
      ensures Valid() && Blocks() == old(Blocks())
      ensures k >= |old(views)| ==>
                views == old(views) && snaps == old(snaps) && mem == old(mem) && leaked == old(leaked)
      ensures k < |old(views)| ==>
                && views == Without(old(views), k) && snaps == Without(old(snaps), k)
                && mem == old(mem) - old(FreedSet(g, mem, tag, views, head, k))
                && leaked == old(leaked) + old(LeakedSet(g, mem, tag, views, head, k))
      ensures k == 0 ==> leaked == old(leaked)
    {
      hide Core, Accounted, HeadGrowing, Contents, OkView, FreedSet, LeakedSet, Without, AsSnapped;
      if k < |views| {
        DropView(k);
      }
    }

    // ---------- destroying everything ----------

    /** The first loop of matras_destroy: the views go, newest first. */
    method DestroyViews()
      requires Valid()
      modifies this`mem, this`tag, this`extentCount, this`views, this`snaps, this`leaked
      ensures Valid() && views == []
      ensures leaked == old(leaked) + old(LeakFrom(g, mem, tag, views, head, 0))
    {
      ghost var mem0, tag0, views0, leaked0 := mem, tag, views, leaked;
      var n := |views|;
      assert views0[..n] == views0 && leaked0 + {} == leaked0;
      assert GeoOk(g) && SameViews(g, mem0, mem, Chain(views, head));
      hide Valid, SameViews, LeakedSet, FreedSet, LeakFrom, Without, Chain;
      assert leaked == leaked0 + LeakFrom(g, mem0, tag0, views0, head, n) by { LeakEnd(mem0, tag0, views0); }
      while views != []
        invariant Valid() && n == |views| <= |views0| && views == views0[..n]
        invariant SameViews(g, mem0, mem, Chain(views, head))
        invariant forall a :: a in tag ==> a in tag0 && tag[a] == tag0[a]
        invariant leaked == leaked0 + LeakFrom(g, mem0, tag0, views0, head, n)
        decreases n
      {
        n := |views| - 1;
        DestroyNewest(mem0, tag0, n);
        LeakUnfold(g, mem0, tag0, views0, head, n, leaked0);
        ghost var views1 := views;
        DropView(n);
        WithoutLast(views0, n);
        assert views1[..n] == views0[..n];
      }
    }

    lemma LeakEnd(mem0: Mem, tag0: Tags, views0: seq<View>)
      requires GeoOk(g)
      ensures LeakFrom(g, mem0, tag0, views0, head, |views0|) == {}
    {
    }

    static lemma WithoutLast<T>(s: seq<T>, n: nat)
      requires n < |s|
      ensures Without(s[..n + 1], n) == s[..n]
    {
    }

    lemma DestroyNewest(mem0: Mem, tag0: Tags, n: nat)
      requires Valid() && n + 1 == |views|
      requires SameViews(g, mem0, mem, Chain(views, head))
      requires forall a :: a in tag ==> a in tag0 && tag[a] == tag0[a]
      ensures LeakedSet(g, mem, tag, views, head, n) == LeakedSet(g, mem0, tag0, views, head, n)
      ensures SameViews(g, mem0, mem - FreedSet(g, mem, tag, views, head, n), Chain(views[..n], head))
    {
      var f := FreedSet(g, mem, tag, views, head, n);
      DestroyStep(g, mem, tag, views, head, n, leaked);
      LeakStable(g, mem0, mem, tag0, tag, views, head, n);
      SameTrans(g, mem0, mem, mem - f, views, head, n);
    }

    /** The second loop of matras_destroy: with no views left, every extent of the head goes. */
    method FreeHead()
      requires Valid() && views == []
      modifies this`mem, this`tag, this`extentCount
      ensures Pool() && mem.Keys == leaked
    {
      if head.count == 0 {
        NothingHeld(g, mem, tag, head, leaked);
        return;
      }
      ghost var f, mem0 := mem.Keys - leaked, mem;
      HeadDoomed(g, mem, tag, head, leaked);
      ExtraHeld(g, mem, tag, Chain([], head), leaked);
      assert mem - {} == mem && tag - {} == tag;
      hide Core, HeadGrowing, Doomed, Kept, Accounted, Contents, AsSnapped;
      FreeTree(head, None, View(0, 0), mem, tag, f);
      assert (mem0 - f).Keys == leaked;
    }

    /** matras_reset, that is matras_destroy and then an empty head. The assertion at the end of
        matras_destroy, that no extent is left, holds exactly when nothing was lost on the way. */
    method Reset()
      requires Valid()
      modifies this`mem, this`tag, this`extentCount, this`views, this`snaps, this`leaked, this`head
      ensures Valid() && views == [] && head.count == 0
      ensures leaked == old(leaked) + old(LeakFrom(g, mem, tag, views, head, 0))
      ensures extentCount == |leaked|
      ensures old(views) == [] && old(leaked) == {} ==> extentCount == 0
    {
      hide LeakFrom, Accounted, Contents, Core, HeadGrowing;
      if views == [] { LeakEnd(mem, tag, views); }
      DestroyViews();
      FreeHead();
      head := head.(count := 0);
      NoViews(g, mem, tag, head.root, leaked);
    }

    // ---------- reserving extents ----------

    /** matras_allocator_reserve: extents move from the outside to the reserve, as many as it has. */
    method AllocatorReserve(count: nat) returns (ok: bool)
      requires Pool()
      modifies this`reserved, this`offers
      ensures Pool() && Credit() == old(Credit()) && |reserved| >= |old(reserved)|
      ensures ok <==> |reserved| >= count
      ensures ok <==> old(Credit()) >= count || |old(reserved)| >= count
      ensures |reserved| == if !ok then old(Credit()) else if |old(reserved)| > count then |old(reserved)| else count
    {
      while |reserved| < count
        invariant Pool() && |reserved| >= |old(reserved)| && Credit() == old(Credit())
        invariant |reserved| <= count || reserved == old(reserved)
        decreases count - |reserved|
      {
        if offers == 0 {
          return false;
        }
        ReserveOne();
      }
      return true;
    }

    /** One extent from the outside goes to the head of the reserve. */
    method ReserveOne()
      requires Pool() && offers > 0
      modifies this`reserved, this`offers
      ensures Pool() && offers == old(offers) - 1 && |reserved| == |old(reserved)| + 1
    {
      offers := offers - 1;
      var y := FreshAddr(mem.Keys + set a | a in reserved);
      reserved := [y] + reserved;
    }

    /** The held extents are those that some view or the head reaches, and the lost ones. */
    ghost function ReachedSet(): set<Addr>
      reads this
      requires GeoOk(g)
    {
      set a | a in mem && Reached(g, mem, tag, Chain(views, head), a)
    }

    lemma Lengths()
      requires Valid()
      ensures |snaps| == |views| && |Blocks()| == head.count
    {
    }

    lemma CostBound()
      requires GeoOk(g)
      ensures forall id :: PathCost(id) <= 3
    {
    }

    lemma SomeBlock(range: nat)
      requires RangeOk(g, head.count, range) && range <= head.count
      ensures head.count > 0
    {
    }

    lemma CountIsReached()
      requires Valid()
      ensures extentCount == |ReachedSet()| + |leaked|
    {
      hide Core, HeadGrowing, Contents, AsSnapped, Reached;
      assert mem.Keys == ReachedSet() + leaked && ReachedSet() !! leaked;
    }

    /** Reserved extents are enough to touch any so many blocks. */
    ghost predicate ReadyToTouch(count: nat)
      reads this
      requires GeoOk(g)
    {
      || count == 0 || views == [] || Last(views).count == 0
      || |reserved| >= 2 * (count - 1) + TouchCost()
    }

    /** No touch will copy, or there are two extents for each and one for a root that is still shared. */
    ghost predicate TouchesGranted(count: nat)
      reads this
    {
      || count == 0 || views == [] || Last(views).count == 0
      || Credit() >= 2 * count + if head.root == Last(views).root then 1 else 0
    }

    /** matras_touch_reserve */
    method TouchReserve(count: nat) returns (ok: bool)
      requires Valid()
      modifies this`reserved, this`offers
      ensures Valid() && Credit() == old(Credit()) && (ok ==> ReadyToTouch(count))
      ensures ok <==> old(TouchesGranted(count))
    {
      hide Core, Accounted, HeadGrowing, Contents, AsSnapped;
      if count == 0 { return true; }
      if views == [] { return true; }
      if Last(views).count == 0 { return true; }
      var extra := if head.root == Last(views).root then 1 else 0;
      ok := AllocatorReserve(count * 2 + extra);
    }

    /** After a successful reservation for that many, touches of any blocks cannot fail, whatever the
        outside does. */
    method TouchAll(ids: seq<nat>) returns (rs: seq<Option<Addr>>)
      requires Valid() && ReadyToTouch(|ids|) && forall i :: 0 <= i < |ids| ==> ids[i] < head.count
      modifies this`mem, this`tag, this`extentCount, this`reserved, this`offers, this`head
      ensures Valid() && head.count == old(head.count) && Blocks() == old(Blocks())
      ensures |rs| == |ids| && forall i :: 0 <= i < |ids| ==> rs[i].Some? && Writable(g, mem, views, head, ids[i])
    {
      hide Core, Accounted, HeadGrowing, Contents, Writable, Share, AsSnapped;
      rs := [];
      for i := 0 to |ids|
        invariant Valid() && head.count == old(head.count) && Blocks() == old(Blocks())
        invariant ReadyToTouch(|ids| - i) && |rs| == i
        invariant forall j :: 0 <= j < i ==> rs[j].Some? && Writable(g, mem, views, head, ids[j])
      {
        var r := Touch(ids[i]);
        rs := rs + [r];
      }
    }
  }

  // ---------- runs ----------

  /** One call of the interface, as a user may issue it. */
  datatype Op =
    | AllocAndWrite(b: Block)
    | AllocRangeAndWrite(bs: seq<Block>)
    | TouchAndWrite(id: nat, b: Block)
    | DeallocLast
    | DeallocLastRange(range: nat)
    | ReserveTouches(count: nat)
    | CreateView
    | DestroyView(k: nat)

  /** What a user has in mind: the blocks, and for each live view the blocks there were. */
  datatype Abs = Abs(blocks: seq<Block>, snaps: seq<seq<Block>>)

  /** The meaning of a call that was or was not granted the extents it needed. Calls that break what
      the source asserts of their arguments do nothing. */
  function AbsStep(g: Geo, s: Abs, op: Op, ok: bool): Abs
    requires GeoOk(g)
  {
    var n := |s.blocks|;
    match op
    case AllocAndWrite(b) => if ok then s.(blocks := s.blocks + [b]) else s
    case AllocRangeAndWrite(bs) => if ok && Matras.RangeOk(g, n, |bs|) then s.(blocks := s.blocks + bs) else s
    case TouchAndWrite(id, b) => if ok && id < n then s.(blocks := s.blocks[id := b]) else s
    case DeallocLast => if n > 0 then s.(blocks := s.blocks[..n - 1]) else s
    case DeallocLastRange(r) => if r <= n && Matras.RangeOk(g, n, r) then s.(blocks := s.blocks[..n - r]) else s
    case ReserveTouches(_) => s
    case CreateView => s.(snaps := s.snaps + [s.blocks])
    case DestroyView(k) => if k < |s.snaps| then s.(snaps := Without(s.snaps, k)) else s
  }

  function AbsRun(g: Geo, s: Abs, ops: seq<Op>, oks: seq<bool>): Abs
    requires GeoOk(g) && |ops| == |oks|
  {
    if ops == [] then s else
      var n := |ops| - 1;
      AbsStep(g, AbsRun(g, s, ops[..n], oks[..n]), ops[n], oks[n])
  }

  lemma AbsMore(g: Geo, s: Abs, ops: seq<Op>, oks: seq<bool>, ok: bool)
    requires GeoOk(g) && |oks| < |ops|
    ensures AbsRun(g, s, ops[..|oks| + 1], oks + [ok]) == AbsStep(g, AbsRun(g, s, ops[..|oks|], oks), ops[|oks|], ok)
  {
    var n := |oks|;
    assert ops[..n + 1][..n] == ops[..n] && (oks + [ok])[..n] == oks;
  }

  /** Every DestroyView is of the oldest view. */
  predicate OldestFirst(ops: seq<Op>) { forall i :: 0 <= i < |ops| && ops[i].DestroyView? ==> ops[i].k == 0 }

  /** An allocation that the capacity does not allow. */
  predicate Beyond(g: Geo, capacity: nat, n: nat, op: Op) {
    || (op.AllocAndWrite? && n == capacity)
    || (op.AllocRangeAndWrite? && Matras.RangeOk(g, n, |op.bs|) && n + |op.bs| > capacity)
  }

  /** What an operation costs with n blocks: of an allocation exactly, of a touch or a reserve at most. */
  function Cost(g: Geo, n: nat, op: Op): nat
    requires GeoOk(g)
  {
    match op
    case AllocAndWrite(_) => Matras.NewExtents(g, n)
    case AllocRangeAndWrite(_) => Matras.NewExtents(g, n)
    case TouchAndWrite(_, _) => 3
    case ReserveTouches(count) => 2 * count + 1
    case _ => 0
  }

  /** The stores of a user into a range just allocated. */
  method WriteRange(m: Matras, first: nat, bs: seq<Block>)
    requires m.Valid() && first + |bs| == m.head.count
    requires forall i :: first <= i < m.head.count ==> Writable(m.g, m.mem, m.views, m.head, i)
    modifies m`mem
    ensures m.Valid() && m.Blocks() == old(m.Blocks())[..first] + bs
  {
    hide Core, Accounted, HeadGrowing, Contents, Writable, Share, AsSnapped;
    m.Lengths();
    var i := 0;
    assert m.Blocks() == m.Blocks()[..first] + bs[..0] + m.Blocks()[first..];
    while i < |bs|
      invariant 0 <= i <= |bs| && m.Valid() && |old(m.Blocks())| == m.head.count
      invariant m.Blocks() == old(m.Blocks())[..first] + bs[..i] + old(m.Blocks())[first + i..]
      invariant forall j :: first <= j < m.head.count ==> Writable(m.g, m.mem, m.views, m.head, j)
    {
      m.Write(first + i, bs[i]);
      i := i + 1;
    }
    assert bs[..i] == bs;
  }

  /** There are the extents that an operation needs, and the room. */
  ghost predicate Granted(m: Matras, op: Op)
    requires m.Valid()
    reads m
  {
    var n := m.head.count;
    match op
    case AllocAndWrite(_) => n < m.capacity && m.Credit() >= Matras.NewExtents(m.g, n)
    case AllocRangeAndWrite(bs) =>
      Matras.RangeOk(m.g, n, |bs|) ==> n + |bs| <= m.capacity && m.Credit() >= Matras.NewExtents(m.g, n)
    case TouchAndWrite(id, _) => id < n ==> m.Credit() >= m.PathCost(id)
    case ReserveTouches(count) => m.TouchesGranted(count)
    case _ => true
  }

  /** One call. It answers whether the extents it needed were granted; a dealloc may do damage. */
  method Call(m: Matras, op: Op) returns (ok: bool, damaged: bool)
    requires m.Valid()
    modifies m
    ensures damaged ==> (op.DeallocLast? || op.DeallocLastRange?) && !m.Valid() && Damaged(m.g, m.mem, m.views, m.head)
    ensures damaged ==> m.snaps == old(m.snaps) && old(m.Credit()) <= 3
    ensures !damaged ==> m.Valid() && Abs(m.Blocks(), m.snaps) == AbsStep(m.g, old(Abs(m.Blocks(), m.snaps)), op, ok)
    ensures ok <==> old(Granted(m, op))
    ensures Beyond(m.g, m.capacity, old(|m.Blocks()|), op) ==> !ok
    ensures !ok ==> Beyond(m.g, m.capacity, old(|m.Blocks()|), op) || old(m.Credit() < Cost(m.g, |m.Blocks()|, op))
    ensures (op.DestroyView? ==> op.k == 0) ==> m.leaked == old(m.leaked)
  {
    hide Core, Accounted, HeadGrowing, Contents, Writable, Share, AsSnapped, Damaged, Matras.RangeOk, Matras.PathCost;
    ok, damaged := true, false;
    m.Lengths();
    m.CostBound();
    match op {
      case AllocAndWrite(b) =>
        var r, id := m.Alloc();
        ok := r.Some?;
        if ok {
          m.Write(id, b);
          assert m.Blocks() == old(m.Blocks()) + [b];
        }
      case AllocRangeAndWrite(bs) =>
        if Matras.RangeOk(m.g, m.head.count, |bs|) {
          var first := m.head.count;
          var r := m.AllocRange(|bs|);
          ok := r.Some?;
          if ok { WriteRange(m, first, bs); }
        }
      case TouchAndWrite(id, b) =>
        if id < m.head.count {
          var r := m.Touch(id);
          ok := r.Some?;
          if ok { m.Write(id, b); }
        }
      case DeallocLast =>
        if m.head.count > 0 {
          var touched := m.Dealloc();
          damaged := !touched && Last(m.views).count > m.head.count;
        }
      case DeallocLastRange(range) =>
        if range <= m.head.count && Matras.RangeOk(m.g, m.head.count, range) {
          m.SomeBlock(range);
          var touched := m.DeallocRange(range);
          damaged := !touched && Last(m.views).count > m.head.count;
        }
      case ReserveTouches(count) => ok := m.TouchReserve(count);
      case CreateView => m.CreateReadView();
      case DestroyView(k) => m.DestroyReadView(k);
    }
  }

  /** Any sequence of calls, in any order, with any number of extents that the outside is ready to give
      at each: the head's blocks and every live view's snapshot are those of the abstract run, and by
      Valid each view reads its snapshot. With views destroyed oldest first no extent is lost. The run
      stops early only at a dealloc whose unchecked touch fails while the newest view still has the
      block, and with four extents to be had at every call it does not stop. */
  method Run(m: Matras, ops: seq<Op>, grants: seq<nat>) returns (oks: seq<bool>)
    requires m.Valid() && |grants| == |ops|
    modifies m
    ensures |oks| <= |ops|
    ensures |oks| == |ops| ==>
              m.Valid() && Abs(m.Blocks(), m.snaps) == AbsRun(m.g, old(Abs(m.Blocks(), m.snaps)), ops, oks)
    ensures |oks| < |ops| ==> ops[|oks|].DeallocLast? || ops[|oks|].DeallocLastRange?
    ensures |oks| < |ops| ==> !m.Valid() && Damaged(m.g, m.mem, m.views, m.head)
    ensures |oks| < |ops| ==> m.snaps == AbsRun(m.g, old(Abs(m.Blocks(), m.snaps)), ops[..|oks|], oks).snaps
    ensures OldestFirst(ops) ==> m.leaked == old(m.leaked)
    ensures |oks| < |ops| ==> grants[|oks|] <= 3
    ensures forall i :: 0 <= i < |oks| && !oks[i] ==>
              var n := |AbsRun(m.g, old(Abs(m.Blocks(), m.snaps)), ops[..i], oks[..i]).blocks|;
              grants[i] < Cost(m.g, n, ops[i]) || Beyond(m.g, m.capacity, n, ops[i])
    ensures forall i :: 0 <= i < |oks| ==>
              var n := |AbsRun(m.g, old(Abs(m.Blocks(), m.snaps)), ops[..i], oks[..i]).blocks|;
              Beyond(m.g, m.capacity, n, ops[i]) ==> !oks[i]
  {
    hide Core, Accounted, HeadGrowing, Contents, AsSnapped, Damaged, AbsStep, AbsRun, Beyond, Cost, Granted;
    ghost var s := Abs(m.Blocks(), m.snaps);
    oks := [];
    AbsNone(m.g, s, ops);
    while |oks| < |ops|
      invariant |oks| <= |ops| && m.Valid() && Abs(m.Blocks(), m.snaps) == AbsRun(m.g, s, ops[..|oks|], oks)
      invariant OldestFirst(ops) ==> m.leaked == old(m.leaked)
      invariant forall i :: 0 <= i < |oks| && !oks[i] ==>
                  var n := |AbsRun(m.g, s, ops[..i], oks[..i]).blocks|;
                  grants[i] < Cost(m.g, n, ops[i]) || Beyond(m.g, m.capacity, n, ops[i])
      invariant forall i :: 0 <= i < |oks| ==>
                  var n := |AbsRun(m.g, s, ops[..i], oks[..i]).blocks|;
                  Beyond(m.g, m.capacity, n, ops[i]) ==> !oks[i]
      decreases |ops| - |oks|
    {
      ghost var was := oks;
      m.offers := grants[|oks|];
      var ok, damaged := Call(m, ops[|oks|]);
      if damaged { return; }
      AbsMore(m.g, s, ops, oks, ok);
      oks := oks + [ok];
      assert oks[..|was|] == was && forall i :: 0 <= i < |was| ==> oks[..i] == was[..i];
    }
    assert ops[..|oks|] == ops;
  }

  /** From creation to matras_destroy: with every view destroyed on the way, oldest first, no extent is
      left, as the assertion at the end of matras_destroy says. */
  method RunAndDestroy(g: Geo, ops: seq<Op>, grants: seq<nat>) returns (m: Matras, oks: seq<bool>)
    requires GeoOk(g) && |grants| == |ops|
    ensures fresh(m) && |oks| <= |ops|
    ensures |oks| == |ops| ==> m.Valid() && m.head.count == 0 && m.views == []
    ensures |oks| == |ops| && OldestFirst(ops) && AbsRun(g, Abs([], []), ops, oks).snaps == [] ==> m.extentCount == 0
    ensures |oks| < |ops| ==> grants[|oks|] <= 3
  {
    hide Core, Accounted, HeadGrowing, Contents, AsSnapped, Damaged, AbsStep, AbsRun, LeakFrom, Beyond, Cost;
    m := new Matras(g, 0);
    m.Lengths();
    assert Abs(m.Blocks(), m.snaps) == Abs([], []);
    oks := Run(m, ops, grants);
    if |oks| == |ops| {
      m.Lengths();
      m.Reset();
    }
  }

  lemma AbsNone(g: Geo, s: Abs, ops: seq<Op>)
    requires GeoOk(g)
    ensures AbsRun(g, s, ops[..0], []) == s
  {
  }

  // ---------- what goes wrong ----------

  /** The assertion at the end of matras_destroy is not always true: two views, the second taken
      after growth, one touch of a block only the second has, and then matras_destroy. */
  method LeakAtDestroy() returns (m: Matras)
    ensures fresh(m) && m.Valid() && m.views == [] && m.head.count == 0 && m.extentCount > 0
  {
    hide Core, Accounted, HeadGrowing, Contents, LeakFrom, OkView, AsSnapped, Writable, Matras.NewExtents,
      Matras.PathCost;
    m := new Matras(Geo(2, 1), 20);
    AtMostThree(m.g);
    var r, id := m.Alloc();
    m.CreateReadView();
    r, id := m.Alloc();
    m.CreateReadView();
    m.CostBound();
    r := m.Touch(1);
    SomethingLeaks(m.g, m.mem, m.tag, m.views, m.head);
    m.Reset();
  }

  /** The unchecked touch of matras_dealloc does damage: two blocks in one extent, a view of them, and
      no extent to be had for the touch. */
  method DamageAtDealloc() returns (m: Matras)
    ensures fresh(m) && |m.views| == 1 && |m.snaps| == 1 && |m.snaps[0]| == 2
    ensures GeoOk(m.g) && Damaged(m.g, m.mem, m.views, m.head) && m.head.count == 1 && !BeginsLeaf(m.g, 1)
    ensures forall b :: ReadsNext(m.g, m.mem, m.head, m.views[0], b)
  {
    hide Core, Accounted, HeadGrowing, Contents, OkView, AsSnapped, Writable, Damaged, ReadsNext, NeedsTouch,
      BeginsLeaf, Share, At, Matras.NewExtents, Matras.ReadyToTouch, Matras.TouchCost;
    TwoInOne();
    m := new Matras(Geo(1, 2), 20);
    AtMostThree(m.g);
    var r, id := m.Alloc();
    r, id := m.Alloc();
    m.CreateReadView();
    m.offers := 0;
    m.Lengths();
    RootShared(m.g, m.mem, Last(m.views), m.head);
    var touched := m.Dealloc();
    forall b ensures ReadsNext(m.g, m.mem, m.head, m.views[0], b) {
      DamageShows(m.g, m.mem, m.views, m.head, b);
    }
  }

  lemma AtMostThree(g: Geo)
    requires GeoOk(g)
    ensures forall id :: Matras.NewExtents(g, id) <= 3
  {
  }

  lemma TwoInOne()
    ensures End(Geo(1, 2), Root) == 2 && !BeginsLeaf(Geo(1, 2), 1)
    ensures forall views :: views != [] && Last(views).count == 2 ==> NeedsTouch(Geo(1, 2), views, 1)
  {
  }

  lemma RootShared(g: Geo, mem: Mem, v: View, w: View)
    requires GeoOk(g) && v == w && v.count > 0
    ensures Share(g, mem, v, w, Root)
  {
  }
}
