/**
 small/lsregion.c and include/small/lsregion.h: a log of allocations in slabs, flushed from a
 savepoint and collected from the front. A slab's contents are a sequence of bytes of any type, so
 that what is proved of the sequences holds of each byte.
 */
module LsRegion {

  import opened Common

  const NOT_USED := -1

  /** The aligned size of struct lslab. */
  const HEADER := 48

  /** struct lslab with its contents; slab_used is HEADER + |data|. */
  datatype Slab<T> = Slab(addr: nat, size: nat, data: seq<T>, id: int, maxId: int)

  /** struct lsregion_svp */
  datatype Svp = Svp(id: int, pos: nat)

  /** An iovec with the bytes it leads to. */
  datatype Iov<T> = Iov(addr: nat, data: seq<T>)

  /** lslab_pos and lslab_end */
  function Pos<T>(s: Slab<T>): nat { s.addr + HEADER + |s.data| }

  function End<T>(s: Slab<T>): nat { s.addr + s.size }

  // ---------- what is left to flush ----------

  /** The part of a slab that a savepoint has not passed. */
  function Part<T>(s: Slab<T>, svp: Svp): seq<T> {
    if s.id < svp.id then [] else if s.id == svp.id && svp.pos <= |s.data| then s.data[svp.pos..] else s.data
  }

  function Rest<T>(slabs: seq<Slab<T>>, svp: Svp): seq<T> {
    if slabs == [] then [] else Part(slabs[0], svp) + Rest(slabs[1..], svp)
  }

  function Bytes<T>(iov: seq<Iov<T>>): seq<T> {
    if iov == [] then [] else Bytes(iov[..|iov| - 1]) + iov[|iov| - 1].data
  }

  lemma {:induction false} RestSplit<T>(slabs: seq<Slab<T>>, k: nat, svp: Svp)
    requires k <= |slabs|
    ensures Rest(slabs, svp) == Rest(slabs[..k], svp) + Rest(slabs[k..], svp)
  {
    if k > 0 {
      RestSplit(slabs[1..], k - 1, svp);
      assert slabs[..k][1..] == slabs[1..][..k - 1] && slabs[1..][k - 1..] == slabs[k..];
    } else {
      assert slabs[..0] == [] && slabs[0..] == slabs;
    }
  }

  lemma {:induction false} RestEmpty<T>(slabs: seq<Slab<T>>, svp: Svp)
    requires forall j :: 0 <= j < |slabs| ==> Part(slabs[j], svp) == []
    ensures Rest(slabs, svp) == []
  {
    if slabs != [] { RestEmpty(slabs[1..], svp); }
  }

  lemma {:induction false} RestSame<T>(slabs: seq<Slab<T>>, svp: Svp, svp': Svp)
    requires forall j :: 0 <= j < |slabs| ==> Part(slabs[j], svp) == Part(slabs[j], svp')
    ensures Rest(slabs, svp) == Rest(slabs, svp')
  {
    if slabs != [] { RestSame(slabs[1..], svp, svp'); }
  }

  lemma RestLast<T>(slabs: seq<Slab<T>>, s: Slab<T>, svp: Svp)
    ensures Rest(slabs + [s], svp) == Rest(slabs, svp) + Part(s, svp)
  {
    RestSplit(slabs + [s], |slabs|, svp);
    assert (slabs + [s])[..|slabs|] == slabs && (slabs + [s])[|slabs|..] == [s];
    assert Rest([s], svp) == Part(s, svp) + Rest([], svp);
  }

  // ---------- the invariant ----------

  /** Slab ids increase and, for slabs in use, allocation ids do not decrease; a slab never used is empty. */
  ghost predicate Ordered<T>(slabs: seq<Slab<T>>, slabId: int, lastId: int) {
    && (forall j :: 0 <= j < |slabs| ==> 0 < slabs[j].id <= slabId && NOT_USED <= slabs[j].maxId <= lastId)
    && (forall j :: 0 <= j < |slabs| && slabs[j].maxId == NOT_USED ==> slabs[j].data == [])
    && (forall j :: 0 <= j < |slabs| ==> HEADER + |slabs[j].data| <= slabs[j].size)
    && (forall i, j :: 0 <= i < j < |slabs| ==> slabs[i].id < slabs[j].id) && (slabs != [] ==> Last(slabs).id == slabId)
    && forall i, j :: 0 <= i < j < |slabs| && slabs[j].maxId != NOT_USED ==> slabs[i].maxId <= slabs[j].maxId
  }

  /** No two slabs end with the same allocation id. */
  ghost predicate Strict<T>(slabs: seq<Slab<T>>) {
    forall i, j :: 0 <= i < j < |slabs| && slabs[j].maxId != NOT_USED ==> slabs[i].maxId < slabs[j].maxId
  }

  /** Bytes are left to flush behind a slab that was reserved and never used. */
  ghost predicate Blocked<T>(slabs: seq<Slab<T>>, svp: Svp) {
    exists i, j :: 0 <= i < j < |slabs| && slabs[i].maxId == NOT_USED && Part(slabs[j], svp) != []
  }

  /** The savepoint is within the slab it names, if that is still there. */
  ghost predicate SvpOk<T>(slabs: seq<Slab<T>>, slabId: int, svp: Svp) {
    svp.id <= slabId && forall j :: 0 <= j < |slabs| && slabs[j].id == svp.id ==> svp.pos <= |slabs[j].data|
  }

  /** All that was allocated with ids up to m is flushed. */
  ghost predicate Covers<T>(slabs: seq<Slab<T>>, svp: Svp, m: int) {
    forall j :: 0 <= j < |slabs| && slabs[j].maxId <= m ==> Part(slabs[j], svp) == []
  }

  function Used<T>(slabs: seq<Slab<T>>): int { if slabs == [] then 0 else |slabs[0].data| + Used(slabs[1..]) }

  function Total<T>(slabs: seq<Slab<T>>): int { if slabs == [] then 0 else slabs[0].size + Total(slabs[1..]) }

  lemma {:induction false} SumLast<T>(slabs: seq<Slab<T>>, s: Slab<T>)
    ensures Used(slabs + [s]) == Used(slabs) + |s.data| && Total(slabs + [s]) == Total(slabs) + s.size
  {
    if slabs == [] {
      assert [s][1..] == [];
    } else {
      assert (slabs + [s])[1..] == slabs[1..] + [s];
      SumLast(slabs[1..], s);
    }
  }

  function Front<T>(slabs: seq<Slab<T>>): seq<Slab<T>>
    requires slabs != []
  {
    slabs[..|slabs| - 1]
  }

  function Last<T>(slabs: seq<Slab<T>>): Slab<T>
    requires slabs != []
  {
    slabs[|slabs| - 1]
  }

  /** Only the last slab may be unused: every reserve was consumed. */
  ghost predicate Tight<T>(slabs: seq<Slab<T>>) { forall j :: 0 <= j < |slabs| - 1 ==> slabs[j].maxId != NOT_USED }

  ghost predicate AllUsed<T>(slabs: seq<Slab<T>>) { forall j :: 0 <= j < |slabs| ==> slabs[j].maxId != NOT_USED }

  /** A collection up to m reaches every slab that was never used. */
  ghost predicate UnusedWithin<T>(slabs: seq<Slab<T>>, m: int) {
    forall i, j :: 0 <= j <= i < |slabs| && slabs[i].maxId == NOT_USED ==> slabs[j].maxId <= m
  }

  /** lslab_use on the last slab. */
  function Use<T>(slabs: seq<Slab<T>>, content: seq<T>, id: int): seq<Slab<T>>
    requires slabs != []
  {
    Front(slabs) + [Last(slabs).(data := Last(slabs).data + content, maxId := id)]
  }

  lemma UseOk<T>(slabs: seq<Slab<T>>, content: seq<T>, slabId: int, lastId: int, id: int)
    requires slabs != [] && Ordered(slabs, slabId, lastId) && lastId <= id && NOT_USED < id
    requires HEADER + |Last(slabs).data| + |content| <= Last(slabs).size
    ensures Ordered(Use(slabs, content, id), slabId, id) && (Tight(slabs) ==> AllUsed(Use(slabs, content, id)))
    ensures Strict(slabs) && lastId < id ==> Strict(Use(slabs, content, id))
    ensures Used(Use(slabs, content, id)) == Used(slabs) + |content| && Total(Use(slabs, content, id)) == Total(slabs)
  {
    hide Used, Total;
    var s, t := Last(slabs), Use(slabs, content, id);
    assert slabs == Front(slabs) + [s];
    UseOrdered(slabs, content, slabId, lastId, id);
    UseMarks(slabs, content, lastId, id);
    SumLast(Front(slabs), s);
    SumLast(Front(slabs), t[|slabs| - 1]);
  }

  lemma UseOrdered<T>(slabs: seq<Slab<T>>, content: seq<T>, slabId: int, lastId: int, id: int)
    requires slabs != [] && Ordered(slabs, slabId, lastId) && lastId <= id && NOT_USED < id
    requires HEADER + |Last(slabs).data| + |content| <= Last(slabs).size
    ensures Ordered(Use(slabs, content, id), slabId, id)
  {
    var t := Use(slabs, content, id);
    assert forall j :: 0 <= j < |slabs| - 1 ==> t[j] == slabs[j];
  }

  lemma UseMarks<T>(slabs: seq<Slab<T>>, content: seq<T>, lastId: int, id: int)
    requires slabs != [] && lastId <= id && NOT_USED < id && forall j :: 0 <= j < |slabs| ==> slabs[j].maxId <= lastId
    ensures Tight(slabs) ==> AllUsed(Use(slabs, content, id))
    ensures Strict(slabs) && lastId < id ==> Strict(Use(slabs, content, id))
  {
    var t := Use(slabs, content, id);
    assert forall j :: 0 <= j < |slabs| - 1 ==> t[j] == slabs[j];
  }

  /** New bytes come after all that is left to flush, wherever the savepoint is. */
  lemma UseRest<T>(slabs: seq<Slab<T>>, content: seq<T>, slabId: int, id: int, svp: Svp)
    requires slabs != [] && SvpOk(slabs, slabId, svp) && Last(slabs).id >= svp.id
    ensures Rest(Use(slabs, content, id), svp) == Rest(slabs, svp) + content
    ensures SvpOk(Use(slabs, content, id), slabId, svp)
  {
    var s, t := Last(slabs), Use(slabs, content, id);
    var s' := t[|t| - 1];
    assert slabs == Front(slabs) + [s] && t == Front(slabs) + [s'];
    RestLast(Front(slabs), s, svp);
    RestLast(Front(slabs), s', svp);
    assert Part(s', svp) == Part(s, svp) + content;
    assert forall j :: 0 <= j < |slabs| - 1 ==> t[j] == slabs[j];
  }

  lemma UseCovers<T>(slabs: seq<Slab<T>>, content: seq<T>, id: int, svp: Svp, m: int)
    requires slabs != [] && Covers(slabs, svp, m) && m < id
    ensures Covers(Use(slabs, content, id), svp, m)
  {
    var t := Use(slabs, content, id);
    assert forall j :: 0 <= j < |slabs| - 1 ==> t[j] == slabs[j];
  }

  /** A new slab at the end changes nothing to flush. */
  lemma AddOk<T>(slabs: seq<Slab<T>>, s: Slab<T>, slabId: int, lastId: int)
    requires Ordered(slabs, slabId, lastId) && s.id == slabId + 1 > 0 && s.data == [] && s.maxId == NOT_USED
    requires s.size >= HEADER && NOT_USED <= lastId
    ensures Ordered(slabs + [s], slabId + 1, lastId)
    ensures Used(slabs + [s]) == Used(slabs) && Total(slabs + [s]) == Total(slabs) + s.size
  {
    SumLast(slabs, s);
    var t := slabs + [s];
    forall i, j | 0 <= i < j < |t| ensures t[i].id < t[j].id {
    }
  }

  lemma AddRest<T>(slabs: seq<Slab<T>>, s: Slab<T>, slabId: int, svp: Svp, m: int)
    requires SvpOk(slabs, slabId, svp) && s.id == slabId + 1 && s.data == []
    ensures SvpOk(slabs + [s], slabId + 1, svp) && Rest(slabs + [s], svp) == Rest(slabs, svp)
    ensures Covers(slabs, svp, m) ==> Covers(slabs + [s], svp, m)
  {
    RestLast(slabs, s, svp);
    assert Part(s, svp) == [];
  }

  lemma {:induction false} RestNone<T>(slabs: seq<Slab<T>>, svp: Svp, j: nat)
    requires j < |slabs| && Rest(slabs, svp) == []
    ensures Part(slabs[j], svp) == []
  {
    if j > 0 { RestNone(slabs[1..], svp, j - 1); }
  }

  /** Dropping the leading slabs up to the first with an id above m loses nothing exactly when all that
      was allocated with ids up to m is flushed. */
  lemma DropExact<T>(slabs: seq<Slab<T>>, k: nat, slabId: int, lastId: int, svp: Svp, m: int)
    requires Ordered(slabs, slabId, lastId) && k <= |slabs| && (k < |slabs| ==> slabs[k].maxId > m)
    requires forall j :: 0 <= j < k ==> slabs[j].maxId <= m
    ensures Rest(slabs[k..], svp) == Rest(slabs, svp) <==> Covers(slabs, svp, m)
  {
    hide Rest, Part;
    RestSplit(slabs, k, svp);
    if Covers(slabs, svp, m) {
      RestEmpty(slabs[..k], svp);
    }
    if Rest(slabs[k..], svp) == Rest(slabs, svp) {
      assert |Rest(slabs[..k], svp)| == 0;
      forall j | 0 <= j < |slabs| && slabs[j].maxId <= m ensures Part(slabs[j], svp) == [] {
        if j < k { RestNone(slabs[..k], svp, j); } else { EmptyPart(slabs[j], svp); }
      }
    }
  }

  lemma EmptyPart<T>(s: Slab<T>, svp: Svp)
    ensures s.data == [] ==> Part(s, svp) == []
  {
  }

  lemma DropSvp<T>(slabs: seq<Slab<T>>, k: nat, slabId: int, svp: Svp, m: int)
    requires k <= |slabs|
    ensures SvpOk(slabs, slabId, svp) ==> SvpOk(slabs[k..], slabId, svp)
    ensures Covers(slabs, svp, m) ==> Covers(slabs[k..], svp, m)
  {
    hide Part;
    var t := slabs[k..];
    assert forall j :: 0 <= j < |t| ==> t[j] == slabs[j + k];
  }

  lemma DropOk<T>(slabs: seq<Slab<T>>, slabId: int, lastId: int)
    requires slabs != [] && Ordered(slabs, slabId, lastId)
    ensures Ordered(slabs[1..], slabId, lastId)
  {
    var t := slabs[1..];
    assert forall j :: 0 <= j < |t| ==> t[j] == slabs[j + 1];
  }

  /** An iovec leads to the end part of a slab. */
  ghost predicate IsPart<T>(slabs: seq<Slab<T>>, v: Iov<T>) {
    exists k, d :: 0 <= k < |slabs| && 0 <= d <= |slabs[k].data| &&
                   v.addr == slabs[k].addr + HEADER + d && v.data == slabs[k].data[d..]
  }

  /** The savepoint is at the end of the slab or beyond it. */
  predicate Passed<T>(s: Slab<T>, svp: Svp) { s.id < svp.id || (s.id == svp.id && |s.data| == svp.pos) }

  /** The iovec for what a savepoint has not passed of a slab. */
  function IovOf<T>(s: Slab<T>, svp: Svp): Iov<T> {
    var from := if s.id == svp.id && svp.pos <= |s.data| then svp.pos else 0;
    Iov(s.addr + HEADER + from, s.data[from..])
  }

  /** All there is to emit: slabs not passed, in order, up to the first that was never used. */
  function Due<T>(slabs: seq<Slab<T>>, svp: Svp): seq<Iov<T>> {
    if slabs == [] || slabs[0].maxId == NOT_USED then [] else
      (if Passed(slabs[0], svp) then [] else [IovOf(slabs[0], svp)]) + Due(slabs[1..], svp)
  }

  function UpTo<T>(s: seq<T>, limit: nat): seq<T> { if limit < |s| then s[..limit] else s }

  lemma DueNext<T>(slabs: seq<Slab<T>>, svp: Svp, k: nat)
    requires k < |slabs|
    ensures Due(slabs[k..], svp) ==
            if slabs[k].maxId == NOT_USED then [] else
            (if Passed(slabs[k], svp) then [] else [IovOf(slabs[k], svp)]) + Due(slabs[k + 1..], svp)
  {
    assert slabs[k..][1..] == slabs[k + 1..];
  }

  lemma DueEnds<T>(slabs: seq<Slab<T>>, svp: Svp)
    ensures slabs[0..] == slabs && Due(slabs[|slabs|..], svp) == []
  {
  }

  /** The flush ended with slab e: savepoint and id are that slab's. */
  ghost predicate EndsAt<T>(slabs: seq<Slab<T>>, svp: Svp, iov: seq<Iov<T>>, svp': Svp, maxId: int, e: nat)
    requires e < |slabs| && iov != []
  {
    && iov[|iov| - 1] == IovOf(slabs[e], svp) && svp' == Svp(slabs[e].id, |slabs[e].data|)
    && maxId == slabs[e].maxId
  }

  lemma MakesPart<T>(slabs: seq<Slab<T>>, k: nat, d: nat)
    requires k < |slabs| && d <= |slabs[k].data|
    ensures IsPart(slabs, Iov(slabs[k].addr + HEADER + d, slabs[k].data[d..]))
  {
  }

  function Repeat<T>(x: T, n: nat): seq<T> { seq(n, _ => x) }

  datatype Reserved = Reserved(pos: nat, unaligned: nat)

  /** A reservation of size bytes at the end of the last slab. */
  ghost predicate Fits<T>(slabs: seq<Slab<T>>, r: Reserved, size: nat, alignment: nat)
    requires alignment > 0
  {
    && slabs != [] && r.unaligned == Pos(Last(slabs))
    && r.pos % alignment == 0 && r.unaligned <= r.pos < r.unaligned + alignment
    && r.pos == Align(r.unaligned, alignment) && r.pos + size <= End(Last(slabs))
  }

  /** The last slab has room for size bytes. */
  predicate Room<T>(slabs: seq<Slab<T>>, size: nat, alignment: nat)
    requires alignment > 0
  {
    slabs != [] && Align(Pos(Last(slabs)), alignment) + size <= End(Last(slabs))
  }

  function SlabSize(arenaSize: nat, size: nat, alignment: nat): int {
    if size + alignment - 1 + HEADER > arenaSize then size + alignment - 1 + HEADER else arenaSize
  }

  /** Exactly the leading slabs with no id above m have gone. */
  ghost predicate Collected<T>(was: seq<Slab<T>>, slabs: seq<Slab<T>>, m: int) {
    && |slabs| <= |was| && slabs == was[|was| - |slabs|..]
    && (forall j :: 0 <= j < |was| - |slabs| ==> was[j].maxId <= m) && (slabs != [] ==> slabs[0].maxId > m)
  }

  /** The slab kept for the next reserve once these have gone: the one kept already, or else the first of
      them that is of the arena's size, emptied. */
  function Recycled<T>(cached: Option<Slab<T>>, gone: seq<Slab<T>>, arenaSize: nat): Option<Slab<T>> {
    if gone == [] then cached else
      var before := Recycled(cached, gone[..|gone| - 1], arenaSize);
      var s := gone[|gone| - 1];
      if before.None? && s.size <= arenaSize then Some(s.(data := [], id := NOT_USED, maxId := NOT_USED)) else before
  }

  lemma RecycledMore<T>(cached: Option<Slab<T>>, slabs: seq<Slab<T>>, k: nat, arenaSize: nat)
    requires k < |slabs|
    ensures Recycled(cached, slabs[..k + 1], arenaSize) ==
            var before := Recycled(cached, slabs[..k], arenaSize);
            if before.None? && slabs[k].size <= arenaSize
            then Some(slabs[k].(data := [], id := NOT_USED, maxId := NOT_USED)) else before
  {
    assert slabs[..k + 1][..k] == slabs[..k];
  }

  class Region<T> {
    const arenaSize: nat
    var slabs: seq<Slab<T>>
    var cached: Option<Slab<T>>
    var slabId: int
    var used: int
    var total: int
    /** The greatest allocation id so far. */
    ghost var lastId: int

    ghost predicate Valid()
      reads this
    {
      && arenaSize >= HEADER && NOT_USED <= lastId && slabId >= 0 && Ordered(slabs, slabId, lastId)
      && (cached.Some? ==> cached.value.size == arenaSize && cached.value.data == [])
      && used == Used(slabs)
      && total == Total(slabs) + (if cached.Some? then cached.value.size else 0)
      && forall j :: 0 <= j < |slabs| ==> slabs[j].size >= arenaSize
    }

    constructor (arenaSize: nat)
      requires arenaSize > HEADER
      ensures Valid() && slabs == [] && slabId == 0 && lastId == NOT_USED && this.arenaSize == arenaSize
    {
      this.arenaSize := arenaSize;
      slabs, cached, slabId, used, total, lastId := [], None, 0, 0, 0, NOT_USED;
    }

    /** A new slab at the end of the list. */
    method AddSlab(addr: nat, size: nat)
      requires Valid() && size >= arenaSize
      modifies this`slabs, this`slabId, this`total
      ensures Valid() && slabId == old(slabId) + 1 && slabs == old(slabs) + [Slab(addr, size, [], slabId, NOT_USED)]
    {
      hide Ordered, Used, Total;
      slabId := slabId + 1;
      ghost var was := slabs;
      slabs := slabs + [Slab(addr, size, [], slabId, NOT_USED)];
      total := total + size;
      AddOk(was, Last(slabs), slabId - 1, lastId);
    }

    /** There is no slab to be had and none with room. */
    ghost predicate Refuses(size: nat, alignment: nat, memory: Option<nat>)
      requires alignment > 0
      reads this`slabs, this`cached
    {
      && memory.None? && !Room(slabs, size, alignment)
      && (SlabSize(arenaSize, size, alignment) > arenaSize || cached.None?)
    }

    /** A reserve takes the cached slab. */
    ghost predicate Recycles(size: nat, alignment: nat)
      requires alignment > 0
      reads this`slabs, this`cached
    {
      !Room(slabs, size, alignment) && SlabSize(arenaSize, size, alignment) <= arenaSize && cached.Some?
    }

    /** lsregion_aligned_reserve and its slow path; memory is what malloc or slab_map gives. */
    method AlignedReserve(size: nat, alignment: nat, memory: Option<nat>) returns (r: Option<Reserved>)
      requires Valid() && alignment > 0
      modifies this`slabs, this`slabId, this`total, this`cached
      ensures Valid()
      ensures r.None? <==> old(Refuses(size, alignment, memory))
      ensures r.Some? ==> Fits(slabs, r.value, size, alignment)
      ensures Room(old(slabs), size, alignment) || r.None? ==> slabs == old(slabs) && slabId == old(slabId)
      ensures !Room(old(slabs), size, alignment) && r.Some? ==>
                && slabs != [] && slabs == old(slabs) + [Last(slabs)] && slabId == old(slabId) + 1 == Last(slabs).id
                && Last(slabs).data == [] && Last(slabs).maxId == NOT_USED
                && Last(slabs).size == SlabSize(arenaSize, size, alignment)
                && (if old(Recycles(size, alignment)) then Last(slabs).addr == old(cached).value.addr
                    else memory.Some? && Last(slabs).addr == memory.value)
      ensures cached == if old(Recycles(size, alignment)) then None else old(cached)
    {
      hide Align, Ordered, Used, Total;
      if slabs != [] {
        var slab := Last(slabs);
        AlignIs(Pos(slab), alignment);
        var pos := Align(Pos(slab), alignment);
        if pos + size <= End(slab) { return Some(Reserved(pos, Pos(slab))); }
      }
      var alignedSize := size + alignment - 1;
      if alignedSize + HEADER > arenaSize {
        if memory.None? { return None; }
        AddSlab(memory.value, alignedSize + HEADER);
      } else if cached.Some? {
        var slab := cached.value;
        cached := None;
        total := total - slab.size;
        AddSlab(slab.addr, slab.size);
      } else {
        if memory.None? { return None; }
        AddSlab(memory.value, arenaSize);
      }
      var slab := Last(slabs);
      AlignIs(Pos(slab), alignment);
      r := Some(Reserved(Align(Pos(slab), alignment), Pos(slab)));
    }

    /** A reserve on its own: nothing is added to what savepoints have left to flush. */
    method Reserve(size: nat, alignment: nat, memory: Option<nat>) returns (r: Option<Reserved>)
      requires Valid() && alignment > 0
      modifies this`slabs, this`slabId, this`total, this`cached
      ensures Valid() && (r.None? <==> old(Refuses(size, alignment, memory)))
      ensures r.Some? ==> Room(slabs, size, alignment) && Fits(slabs, r.value, size, alignment)
      ensures AllUsed(old(slabs)) ==> Tight(slabs) && (AllUsed(slabs) || Room(slabs, size, alignment))
      ensures Strict(old(slabs)) ==> Strict(slabs)
      ensures forall svp :: SvpOk(old(slabs), old(slabId), svp) ==>
                SvpOk(slabs, slabId, svp) && Rest(slabs, svp) == Rest(old(slabs), svp)
      ensures forall svp, m :: SvpOk(old(slabs), old(slabId), svp) && Covers(old(slabs), svp, m) ==>
                Covers(slabs, svp, m)
    {
      hide Align, Ordered, Used, Total, Rest, SvpOk, Covers, AllUsed, Tight, Strict;
      ghost var s0, i0 := slabs, slabId;
      r := AlignedReserve(size, alignment, memory);
      TightOrUsed(s0);
      if slabs != s0 {
        forall svp | SvpOk(s0, i0, svp) ensures SvpOk(slabs, slabId, svp) && Rest(slabs, svp) == Rest(s0, svp) {
          AddRest(s0, Last(slabs), i0, svp, 0);
        }
        forall svp, m | SvpOk(s0, i0, svp) && Covers(s0, svp, m) ensures Covers(slabs, svp, m) {
          AddRest(s0, Last(slabs), i0, svp, m);
        }
        AddTight(s0, slabs);
      }
    }

    /** lsregion_aligned_alloc of content; the bytes skipped to align it are pad. */
    method AlignedAlloc(content: seq<T>, pad: T, alignment: nat, id: int, memory: Option<nat>)
      returns (r: Option<nat>, ghost added: seq<T>)
      requires Valid() && alignment > 0 && lastId <= id && NOT_USED < id
      modifies this
      ensures Valid()
      ensures r.None? <==> old(Refuses(|content|, alignment, memory))
      ensures r.None? ==> slabs == old(slabs) && slabId == old(slabId) && lastId == old(lastId) && added == []
      ensures r.Some? ==> lastId == id && slabs != [] && Last(slabs).maxId == id && |added| < alignment + |content|
      ensures r.Some? && !Room(old(slabs), |content|, alignment) ==>
                Front(slabs) == old(slabs) && Last(slabs).size == SlabSize(arenaSize, |content|, alignment)
      ensures Room(old(slabs), |content|, alignment) ==> slabs != [] && Front(slabs) == Front(old(slabs))
      ensures AllUsed(old(slabs)) || (Tight(old(slabs)) && Room(old(slabs), |content|, alignment)) ==> AllUsed(slabs)
      ensures Strict(old(slabs)) && old(lastId) < id ==> Strict(slabs)
      ensures r.Some? ==> exists n: nat :: added == Repeat(pad, n) + content
      ensures r.Some? ==> r.value + |content| == Pos(Last(slabs)) && r.value % alignment == 0
      ensures forall svp :: SvpOk(old(slabs), old(slabId), svp) ==>
                SvpOk(slabs, slabId, svp) && Rest(slabs, svp) == Rest(old(slabs), svp) + added
      ensures forall svp, m :: SvpOk(old(slabs), old(slabId), svp) && m < id && Covers(old(slabs), svp, m) ==>
                Covers(slabs, svp, m)
    {
      hide Align, Ordered, Used, Total, Rest, SvpOk, Covers, AllUsed, Tight, Room, Strict;
      ghost var s0, i0 := slabs, slabId;
      var res := AlignedReserve(|content|, alignment, memory);
      if res.None? {
        TightOrUsed(s0);
        added := [];
        return None, [];
      }
      var skip := res.value.pos - res.value.unaligned;
      var bytes := Repeat(pad, skip) + content;
      Consume(bytes, id, s0, i0);
      added := bytes;
      r := Some(res.value.pos);
    }

    /** The end of lsregion_aligned_alloc: lslab_use on the last slab, which a reserve may just have added. */
    method Consume(bytes: seq<T>, id: int, ghost s0: seq<Slab<T>>, ghost i0: int)
      requires Valid() && slabs != [] && lastId <= id && NOT_USED < id
      requires HEADER + |Last(slabs).data| + |bytes| <= Last(slabs).size
      requires || (slabs == s0 && slabId == i0)
               || (slabs == s0 + [Last(slabs)] && slabId == i0 + 1 == Last(slabs).id && Last(slabs).data == [] &&
                   Last(slabs).maxId == NOT_USED)
      modifies this`slabs, this`used, this`lastId
      ensures Valid() && slabs == Use(old(slabs), bytes, id) && lastId == id
      ensures AllUsed(s0) || (Tight(s0) && old(slabs) == s0) ==> AllUsed(slabs)
      ensures Strict(s0) && old(lastId) < id ==> Strict(slabs)
      ensures forall svp :: SvpOk(s0, i0, svp) ==>
                SvpOk(slabs, slabId, svp) && Rest(slabs, svp) == Rest(s0, svp) + bytes
      ensures forall svp, m :: SvpOk(s0, i0, svp) && m < id && Covers(s0, svp, m) ==> Covers(slabs, svp, m)
    {
      hide Ordered, Used, Total, Rest, SvpOk, Covers, AllUsed, Tight, Strict;
      UseOk(slabs, bytes, slabId, lastId, id);
      Added(s0, slabs, i0, slabId, lastId, bytes, id);
      slabs := Use(slabs, bytes, id);
      used := used + |bytes|;
      lastId := id;
    }

    /** lsregion_gc: slabs whose allocations all have ids up to minId go, from the front. What a
        savepoint has left to flush stays exactly if all that was allocated with such ids is flushed. */
    method Gc(minId: int)
      requires Valid()
      modifies this`slabs, this`cached, this`used, this`total
      ensures Valid() && Collected(old(slabs), slabs, minId)
      ensures cached == Recycled(old(cached), old(slabs)[..|old(slabs)| - |slabs|], arenaSize)
      ensures forall svp :: Rest(slabs, svp) == Rest(old(slabs), svp) <==> Covers(old(slabs), svp, minId)
      ensures forall svp :: SvpOk(old(slabs), slabId, svp) ==> SvpOk(slabs, slabId, svp)
      ensures forall svp, m :: Covers(old(slabs), svp, m) ==> Covers(slabs, svp, m)
      ensures (AllUsed(old(slabs)) ==> AllUsed(slabs)) && (Tight(old(slabs)) ==> Tight(slabs))
      ensures Strict(old(slabs)) ==> Strict(slabs)
      ensures old(slabs) != [] && slabs != [] ==> Last(slabs) == Last(old(slabs))
      ensures UnusedWithin(old(slabs), minId) ==> AllUsed(slabs)
    {
      hide Ordered, Rest, Part, Used, Total, SvpOk, Covers;
      ghost var s0, k := slabs, 0;
      assert s0[0..] == s0;
      while slabs != [] && slabs[0].maxId <= minId
        invariant Valid() && 0 <= k <= |s0| && slabs == s0[k..] && forall j :: 0 <= j < k ==> s0[j].maxId <= minId
        invariant cached == Recycled(old(cached), s0[..k], arenaSize)
        decreases |slabs|
      {
        var slab := slabs[0];
        DropOk(slabs, slabId, lastId);
        DropSums(slabs);
        RecycledMore(old(cached), s0, k, arenaSize);
        slabs := slabs[1..];
        k := k + 1;
        used := used - |slab.data|;
        if slab.size > arenaSize {
          total := total - slab.size;
        } else if cached.Some? {
          total := total - slab.size;
        } else {
          cached := Some(slab.(data := [], id := NOT_USED, maxId := NOT_USED));
        }
      }
      forall svp ensures Rest(slabs, svp) == Rest(s0, svp) <==> Covers(s0, svp, minId) {
        DropExact(s0, k, slabId, lastId, svp, minId);
      }
      forall svp ensures SvpOk(s0, slabId, svp) ==> SvpOk(slabs, slabId, svp) {
        DropSvp(s0, k, slabId, svp, 0);
      }
      forall svp, m ensures Covers(s0, svp, m) ==> Covers(slabs, svp, m) {
        DropSvp(s0, k, slabId, svp, m);
      }
      DropUse(s0, k, minId);
    }

    /** lsregion_to_iovec: what is emitted and what is left make up what was left before. With room to
        spare nothing is left, unless a slab that was never used stands before bytes to flush. */
    method ToIovec(limit: nat, svp: Svp) returns (iov: seq<Iov<T>>, svp': Svp, maxId: int)
      requires Valid() && SvpOk(slabs, slabId, svp)
      ensures |iov| <= limit && |iov| <= |slabs| && Rest(slabs, svp) == Bytes(iov) + Rest(slabs, svp')
      ensures SvpOk(slabs, slabId, svp') && NOT_USED <= maxId <= lastId
      ensures Covers(slabs, svp', maxId - 1) && (Strict(slabs) ==> Covers(slabs, svp', maxId))
      ensures (maxId == NOT_USED <==> iov == []) && (iov == [] ==> svp' == svp)
      ensures iov == UpTo(Due(slabs, svp), limit)
      ensures iov != [] ==> exists e :: 0 <= e < |slabs| && EndsAt(slabs, svp, iov, svp', maxId, e)
      ensures forall v :: v in iov ==> IsPart(slabs, v)
      ensures forall m :: Covers(slabs, svp, m) ==> Covers(slabs, svp', m)
      ensures |iov| < limit ==> (Rest(slabs, svp') == [] <==> !Blocked(slabs, svp))
      ensures slabs != [] && slabs[0].maxId == NOT_USED ==> iov == []
    {
      hide Rest, Bytes, IsPart, Used, Total, SvpOk, Covers, Part, Ordered, Emitted, Blocked, Strict, Due, EndsAt;
      iov, svp', maxId := [], svp, NOT_USED;
      DueEnds(slabs, svp);
      var k := 0;
      ghost var e := -1;
      EmitNone(slabs, slabId, svp);
      while k < |slabs|
        invariant 0 <= k <= |slabs| && |iov| <= limit && Emitted(slabs, slabId, svp, svp', iov, k, e, maxId)
        invariant forall v :: v in iov ==> IsPart(slabs, v)
        invariant |iov| <= k && forall j :: 0 <= j < k ==> slabs[j].maxId != NOT_USED
        invariant iov + Due(slabs[k..], svp) == Due(slabs, svp)
        invariant iov != [] ==> 0 <= e < |slabs| && EndsAt(slabs, svp, iov, svp', maxId, e)
        decreases |slabs| - k
      {
        DueNext(slabs, svp, k);
        var slab := slabs[k];
        if slab.maxId == NOT_USED { break; }
        if slab.id < svp.id || (slab.id == svp.id && |slab.data| == svp.pos) {
          Skip(slabs, slabId, svp, svp', iov, k, e, maxId);
          k := k + 1;
          continue;
        }
        if |iov| >= limit { break; }
        var from := if slab.id == svp.id then svp.pos else 0;
        Emit(slabs, slabId, lastId, svp, svp', iov, k, e, maxId);
        MakesPart(slabs, k, from);
        Ended(slabs, svp, iov, k, from);
        iov := iov + [Iov(slab.addr + HEADER + from, slab.data[from..])];
        svp' := Svp(slab.id, |slab.data|);
        maxId := slab.maxId;
        e := k;
        k := k + 1;
      }
      FlushEnd(slabs, slabId, lastId, svp, svp', iov, k, e, maxId);
    }
  }

  lemma Ended<T>(slabs: seq<Slab<T>>, svp: Svp, iov: seq<Iov<T>>, k: nat, from: nat)
    requires k < |slabs| && from <= |slabs[k].data| && from == if slabs[k].id == svp.id then svp.pos else 0
    ensures var v := Iov(slabs[k].addr + HEADER + from, slabs[k].data[from..]);
            && v == IovOf(slabs[k], svp)
            && EndsAt(slabs, svp, iov + [v], Svp(slabs[k].id, |slabs[k].data|), slabs[k].maxId, k)
  {
  }

  /** What an allocation does to what savepoints see: perhaps a new slab, then bytes at its end. */
  lemma Added<T>(s0: seq<Slab<T>>, s1: seq<Slab<T>>, i0: int, slabId: int, lastId: int, bytes: seq<T>, id: int)
    requires s1 != [] && Ordered(s1, slabId, lastId) && NOT_USED < id
    requires || (s1 == s0 && slabId == i0)
             || (s1 == s0 + [Last(s1)] && slabId == i0 + 1 == Last(s1).id && Last(s1).data == [] &&
                 Last(s1).maxId == NOT_USED)
    ensures forall svp :: SvpOk(s0, i0, svp) ==>
              SvpOk(Use(s1, bytes, id), slabId, svp) && Rest(Use(s1, bytes, id), svp) == Rest(s0, svp) + bytes
    ensures forall svp, m :: SvpOk(s0, i0, svp) && m < id && Covers(s0, svp, m) ==> Covers(Use(s1, bytes, id), svp, m)
    ensures AllUsed(s0) || (Tight(s0) && s1 == s0) ==> AllUsed(Use(s1, bytes, id))
    ensures Strict(s0) ==> Strict(s1)
  {
    hide Rest, SvpOk, Covers, Ordered, Part;
    forall svp | SvpOk(s0, i0, svp)
      ensures SvpOk(Use(s1, bytes, id), slabId, svp) && Rest(Use(s1, bytes, id), svp) == Rest(s0, svp) + bytes
    {
      if s1 != s0 { AddRest(s0, Last(s1), i0, svp, 0); }
      LastId(s1, slabId, lastId, svp);
      UseRest(s1, bytes, slabId, id, svp);
    }
    forall svp, m | SvpOk(s0, i0, svp) && m < id && Covers(s0, svp, m) ensures Covers(Use(s1, bytes, id), svp, m) {
      if s1 != s0 { AddRest(s0, Last(s1), i0, svp, m); }
      UseCovers(s1, bytes, id, svp, m);
    }
    AddedUse(s0, s1, bytes, id);
  }

  lemma AddedUse<T>(s0: seq<Slab<T>>, s1: seq<Slab<T>>, bytes: seq<T>, id: int)
    requires s1 != [] && NOT_USED < id && (s1 == s0 || (s1 == s0 + [Last(s1)] && Last(s1).maxId == NOT_USED))
    ensures AllUsed(s0) || (Tight(s0) && s1 == s0) ==> AllUsed(Use(s1, bytes, id))
    ensures Strict(s0) ==> Strict(s1)
  {
    var t := Use(s1, bytes, id);
    assert forall j :: 0 <= j < |s1| - 1 ==> t[j] == s1[j];
    assert s1 != s0 ==> forall j :: 0 <= j < |s0| ==> s1[j] == s0[j];
  }

  lemma TightOrUsed<T>(slabs: seq<Slab<T>>)
    ensures AllUsed(slabs) ==> Tight(slabs)
  {
  }

  lemma AddTight<T>(s0: seq<Slab<T>>, s1: seq<Slab<T>>)
    requires s1 != [] && s1 == s0 + [Last(s1)] && Last(s1).maxId == NOT_USED
    ensures (AllUsed(s0) ==> Tight(s1)) && (Strict(s0) ==> Strict(s1))
  {
  }

  lemma DropUse<T>(slabs: seq<Slab<T>>, k: nat, m: int)
    requires k <= |slabs| && (k < |slabs| ==> slabs[k].maxId > m)
    ensures (AllUsed(slabs) ==> AllUsed(slabs[k..])) && (Tight(slabs) ==> Tight(slabs[k..]))
    ensures Strict(slabs) ==> Strict(slabs[k..])
    ensures k < |slabs| ==> Last(slabs[k..]) == Last(slabs)
    ensures UnusedWithin(slabs, m) ==> AllUsed(slabs[k..])
  {
    var t := slabs[k..];
    assert forall j :: 0 <= j < |t| ==> t[j] == slabs[j + k];
  }

  lemma EmitNone<T>(slabs: seq<Slab<T>>, slabId: int, svp: Svp)
    requires SvpOk(slabs, slabId, svp)
    ensures Emitted(slabs, slabId, svp, svp, [], 0, -1, NOT_USED)
  {
    assert slabs[0..] == slabs;
  }

  lemma LastId<T>(slabs: seq<Slab<T>>, slabId: int, lastId: int, svp: Svp)
    requires slabs != [] && Ordered(slabs, slabId, lastId) && SvpOk(slabs, slabId, svp)
    ensures Last(slabs).id >= svp.id
  {
  }

  lemma DropSums<T>(slabs: seq<Slab<T>>)
    requires slabs != []
    ensures Used(slabs[1..]) == Used(slabs) - |slabs[0].data| && Total(slabs[1..]) == Total(slabs) - slabs[0].size
  {
  }

  /** The flush loop at slab k: e is the last slab emitted, -1 if there is none. */
  ghost predicate Emitted<T>(slabs: seq<Slab<T>>, slabId: int, svp: Svp, svp': Svp, iov: seq<Iov<T>>, k: nat, e: int,
                             maxId: int)
    requires k <= |slabs|
  {
    && Rest(slabs, svp) == Bytes(iov) + Rest(slabs[k..], svp)
    && (forall j :: 0 <= j < k ==> Part(slabs[j], svp') == [])
    && (forall j :: k <= j < |slabs| ==> Part(slabs[j], svp') == Part(slabs[j], svp))
    && (forall j :: 0 <= j < |slabs| && Part(slabs[j], svp) == [] ==> Part(slabs[j], svp') == [])
    && SvpOk(slabs, slabId, svp') && -1 <= e < k
    && (if e == -1 then iov == [] && svp' == svp && maxId == NOT_USED
        else iov != [] && maxId == slabs[e].maxId != NOT_USED)
  }

  lemma Skip<T>(slabs: seq<Slab<T>>, slabId: int, svp: Svp, svp': Svp, iov: seq<Iov<T>>, k: nat, e: int, maxId: int)
    requires k < |slabs| && Emitted(slabs, slabId, svp, svp', iov, k, e, maxId)
    requires slabs[k].id < svp.id || (slabs[k].id == svp.id && |slabs[k].data| == svp.pos)
    ensures Emitted(slabs, slabId, svp, svp', iov, k + 1, e, maxId)
  {
    hide Bytes, SvpOk;
    assert slabs[k..][1..] == slabs[k + 1..];
    assert Part(slabs[k], svp) == [];
  }

  lemma BytesMore<T>(iov: seq<Iov<T>>, v: Iov<T>)
    ensures Bytes(iov + [v]) == Bytes(iov) + v.data
  {
    assert (iov + [v])[..|iov|] == iov;
  }

  lemma Emit<T>(slabs: seq<Slab<T>>, slabId: int, lastId: int, svp: Svp, svp': Svp, iov: seq<Iov<T>>, k: nat, e: int,
                maxId: int)
    requires k < |slabs| && Emitted(slabs, slabId, svp, svp', iov, k, e, maxId) && Ordered(slabs, slabId, lastId)
    requires SvpOk(slabs, slabId, svp) && slabs[k].id >= svp.id && slabs[k].maxId != NOT_USED
    ensures var s := slabs[k]; var from := if s.id == svp.id then svp.pos else 0;
            && from <= |s.data|
            && var v := Iov(s.addr + HEADER + from, s.data[from..]);
            && Emitted(slabs, slabId, svp, Svp(s.id, |s.data|), iov + [v], k + 1, k, s.maxId)
  {
    hide Bytes, Rest, Part, Ordered;
    var s := slabs[k];
    var from := if s.id == svp.id then svp.pos else 0;
    var v := Iov(s.addr + HEADER + from, s.data[from..]);
    EmitParts(slabs, slabId, lastId, svp, k);
    RestFirst(slabs, k, svp);
    BytesMore(iov, v);
    Regroup(Bytes(iov), v.data, Rest(slabs[k + 1..], svp));
  }

  lemma Regroup<T>(a: seq<T>, b: seq<T>, c: seq<T>)
    ensures a + (b + c) == (a + b) + c
  {
  }

  lemma RestFirst<T>(slabs: seq<Slab<T>>, k: nat, svp: Svp)
    requires k < |slabs|
    ensures Rest(slabs[k..], svp) == Part(slabs[k], svp) + Rest(slabs[k + 1..], svp)
  {
    assert slabs[k..][1..] == slabs[k + 1..];
  }

  lemma EmitParts<T>(slabs: seq<Slab<T>>, slabId: int, lastId: int, svp: Svp, k: nat)
    requires k < |slabs| && Ordered(slabs, slabId, lastId) && SvpOk(slabs, slabId, svp) && slabs[k].id >= svp.id
    ensures var s := slabs[k]; var from := if s.id == svp.id then svp.pos else 0;
            && from <= |s.data| && Part(s, svp) == s.data[from..] && SvpOk(slabs, slabId, Svp(s.id, |s.data|))
            && forall j :: 0 <= j < |slabs| ==>
                 Part(slabs[j], Svp(s.id, |s.data|)) == if j <= k then [] else Part(slabs[j], svp)
  {
    var s := slabs[k];
    forall j | 0 <= j < |slabs|
      ensures Part(slabs[j], Svp(s.id, |s.data|)) == if j <= k then [] else Part(slabs[j], svp)
    {
      assert j < k ==> slabs[j].id < s.id;
      assert j > k ==> s.id < slabs[j].id;
    }
    forall j | 0 <= j < |slabs| && j != k ensures slabs[j].id != s.id {
      assert j < k ==> slabs[j].id < s.id;
      assert j > k ==> s.id < slabs[j].id;
    }
  }

  lemma FlushEnd<T>(slabs: seq<Slab<T>>, slabId: int, lastId: int, svp: Svp, svp': Svp, iov: seq<Iov<T>>, k: nat,
                    e: int, maxId: int)
    requires k <= |slabs| && Emitted(slabs, slabId, svp, svp', iov, k, e, maxId) && Ordered(slabs, slabId, lastId)
    requires NOT_USED <= lastId && forall j :: 0 <= j < k ==> slabs[j].maxId != NOT_USED
    ensures Rest(slabs, svp) == Bytes(iov) + Rest(slabs, svp') && NOT_USED <= maxId <= lastId
    ensures SvpOk(slabs, slabId, svp')
    ensures Covers(slabs, svp', maxId - 1) && (Strict(slabs) ==> Covers(slabs, svp', maxId))
    ensures forall m :: Covers(slabs, svp, m) ==> Covers(slabs, svp', m)
    ensures (maxId == NOT_USED <==> iov == []) && (iov == [] ==> svp' == svp)
    ensures k == |slabs| || slabs[k].maxId == NOT_USED ==> (Rest(slabs, svp') == [] <==> !Blocked(slabs, svp))
  {
    hide Bytes, SvpOk, Rest, Part, Ordered, Blocked;
    RestSplit(slabs, k, svp');
    RestEmpty(slabs[..k], svp');
    RestSame(slabs[k..], svp, svp');
    FlushCovers(slabs, slabId, lastId, svp', k, e, maxId);
    FlushAll(slabs, slabId, lastId, svp, svp', k);
  }

  lemma FlushCovers<T>(slabs: seq<Slab<T>>, slabId: int, lastId: int, svp: Svp, k: nat, e: int, maxId: int)
    requires Ordered(slabs, slabId, lastId) && NOT_USED <= lastId && -1 <= e < k <= |slabs|
    requires forall j :: 0 <= j < k ==> Part(slabs[j], svp) == []
    requires if e == -1 then maxId == NOT_USED else maxId == slabs[e].maxId
    ensures Covers(slabs, svp, maxId - 1) && NOT_USED <= maxId <= lastId
    ensures Strict(slabs) ==> Covers(slabs, svp, maxId)
  {
    forall j | k <= j < |slabs|
      ensures slabs[j].maxId == NOT_USED || (slabs[j].maxId >= maxId && (Strict(slabs) ==> slabs[j].maxId > maxId))
    {
      if e >= 0 && slabs[j].maxId != NOT_USED { assert slabs[e].maxId <= slabs[j].maxId; }
    }
  }

  /** The flush stopped at slab k, the first never used one, or went through all of them. */
  lemma FlushAll<T>(slabs: seq<Slab<T>>, slabId: int, lastId: int, svp: Svp, svp': Svp, k: nat)
    requires Ordered(slabs, slabId, lastId) && k <= |slabs| && forall j :: 0 <= j < k ==> slabs[j].maxId != NOT_USED
    requires forall j :: 0 <= j < k ==> Part(slabs[j], svp') == []
    requires forall j :: k <= j < |slabs| ==> Part(slabs[j], svp') == Part(slabs[j], svp)
    ensures k == |slabs| || slabs[k].maxId == NOT_USED ==> (Rest(slabs, svp') == [] <==> !Blocked(slabs, svp))
  {
    hide Rest, Part;
    if k == |slabs| || slabs[k].maxId == NOT_USED {
      if k < |slabs| { EmptyPart(slabs[k], svp); }
      if Rest(slabs, svp') == [] {
        forall j | k < j < |slabs| ensures Part(slabs[j], svp) == [] {
          RestNone(slabs, svp', j);
        }
      } else if forall j :: k <= j < |slabs| ==> Part(slabs[j], svp) == [] {
        RestEmpty(slabs, svp');
      }
    }
  }

  // ---------- runs ----------

  /** What a user does: allocate with an id that is step greater than the last one, or once more with the
      last one if step is 0, reserve, flush to at most limit iovecs, or collect up to an id. */
  datatype Op<T> =
    | Alloc(content: seq<T>, pad: T, alignment: nat, memory: Option<nat>, step: nat)
    | Reserve(size: nat, alignment: nat, memory: Option<nat>)
    | Flush(limit: nat)
    | Collect(id: int)

  /** The reserve that is not consumed yet. */
  function Owing<T>(ops: seq<Op<T>>): Option<Op<T>> {
    if ops == [] then None else
      var op := ops[|ops| - 1];
      if op.Alloc? then None else if op.Reserve? then Some(op) else Owing(ops[..|ops| - 1])
  }

  /** An allocation that fits what was reserved. */
  predicate FitsIn<T>(a: Op<T>, r: Op<T>)
    requires a.Alloc? && r.Reserve?
  {
    (a.alignment == r.alignment && |a.content| <= r.size) || |a.content| + a.alignment - 1 <= r.size
  }

  predicate Consumes<T>(ops: seq<Op<T>>, i: nat)
    requires i < |ops|
  {
    var r := Owing(ops[..i]);
    r.Some? && (ops[i].Alloc? || ops[i].Reserve?) ==> r.value.Reserve? && ops[i].Alloc? && FitsIn(ops[i], r.value)
  }

  /** Every reserve is consumed by an allocation that fits it, before another one. */
  ghost predicate Disciplined<T>(ops: seq<Op<T>>) {
    && (forall i :: 0 <= i < |ops| && (ops[i].Alloc? || ops[i].Reserve?) ==> ops[i].alignment > 0)
    && forall i :: 0 <= i < |ops| ==> Consumes(ops, i)
  }

  /** The bytes that an operation adds to the log: an allocation that succeeds adds its content, after
      less than alignment bytes skipped; one can fail only if the outside gave it no memory. */
  ghost predicate Adds<T>(op: Op<T>, ok: bool, b: seq<T>) {
    if !op.Alloc? then b == []
    else if !ok then b == [] && op.memory.None?
    else exists n: nat :: b == Repeat(op.pad, n) + op.content && n < op.alignment
  }

  ghost predicate Logged<T>(ops: seq<Op<T>>, oks: seq<bool>, log: seq<T>)
    requires |oks| == |ops|
  {
    var n := |ops| - 1;
    if n < 0 then log == []
    else exists cut :: 0 <= cut <= |log| && Logged(ops[..n], oks[..n], log[..cut]) && Adds(ops[n], oks[n], log[cut..])
  }

  lemma LogMore<T>(ops: seq<Op<T>>, oks: seq<bool>, ok: bool, log: seq<T>, b: seq<T>)
    requires |oks| < |ops| && Logged(ops[..|oks|], oks, log) && Adds(ops[|oks|], ok, b)
    ensures Logged(ops[..|oks| + 1], oks + [ok], log + b)
  {
    hide Adds;
    var i, cut := |oks|, |log|;
    assert ops[..i + 1][..i] == ops[..i] && (log + b)[..cut] == log && (log + b)[cut..] == b;
    assert (oks + [ok])[..i] == oks;
  }

  /** Every slab is used, or the last one is held for the reserve that is owing. */
  ghost predicate Kept<T>(slabs: seq<Slab<T>>, owing: Option<Op<T>>) {
    AllUsed(slabs) ||
    (owing.Some? && owing.value.Reserve? && owing.value.alignment > 0 && Tight(slabs)
     && Room(slabs, owing.value.size, owing.value.alignment))
  }

  /** A user: the savepoint carried, the last id used, the ids up to which everything is flushed,
      whether no id was used twice, and all that was emitted. */
  class User<T> {
    const region: Region<T>
    var svp: Svp
    var id: int
    var done: int
    var distinct: bool
    var emitted: seq<T>
    ghost var log: seq<T>

    ghost predicate Valid()
      reads this, region
    {
      && region.Valid() && SvpOk(region.slabs, region.slabId, svp)
      && NOT_USED <= id == region.lastId && done <= id && Covers(region.slabs, svp, done)
      && (distinct ==> Strict(region.slabs)) && emitted + Rest(region.slabs, svp) == log
    }

    constructor (arenaSize: nat)
      requires arenaSize > HEADER
      ensures Valid() && fresh(region) && region.slabs == [] && emitted == [] && log == []
    {
      hide Ordered, Rest, Part, Used, Total, SvpOk, Covers, AllUsed, Strict;
      var r := new Region<T>(arenaSize);
      region := r;
      svp, id, done, distinct, emitted, log := Svp(NOT_USED, 0), NOT_USED, NOT_USED, true, [], [];
      Initially<T>(Svp(NOT_USED, 0));
    }

    method Alloc(content: seq<T>, pad: T, alignment: nat, memory: Option<nat>, step: nat)
      returns (ok: bool, ghost added: seq<T>)
      requires Valid() && alignment > 0
      modifies this, region
      ensures Valid() && emitted == old(emitted) && log == old(log) + added
      ensures !ok <==> old(region.Refuses(|content|, alignment, memory))
      ensures Adds(Op.Alloc(content, pad, alignment, memory, step), ok, added)
      ensures id == if !ok then old(id) else if old(id) == NOT_USED && step == 0 then 0 else old(id) + step
      ensures AllUsed(old(region.slabs)) ==> AllUsed(region.slabs)
      ensures Tight(old(region.slabs)) && Room(old(region.slabs), |content|, alignment) ==> AllUsed(region.slabs)
    {
      hide Ordered, Rest, Part, Used, Total, SvpOk, Covers, AllUsed, Tight, Room, Align, Strict;
      var a := if id == NOT_USED && step == 0 then 0 else id + step;
      if done >= a {
        CoversLess(region.slabs, svp, a - 1, done);
        done := a - 1;
      }
      ghost var rest := Rest(region.slabs, svp);
      var r;
      r, added := region.AlignedAlloc(content, pad, alignment, a, memory);
      ok := r.Some?;
      AllocAdds(Op.Alloc(content, pad, alignment, memory, step), added, ok);
      Regroup(emitted, rest, added);
      log := log + added;
      if ok {
        distinct := distinct && a > id;
        id := a;
      }
    }

    method Reserve(size: nat, alignment: nat, memory: Option<nat>)
      requires Valid() && alignment > 0
      modifies this, region
      ensures Valid() && emitted == old(emitted) && log == old(log)
      ensures AllUsed(old(region.slabs)) ==>
                Tight(region.slabs) && (AllUsed(region.slabs) || Room(region.slabs, size, alignment))
    {
      hide Ordered, Rest, Part, Used, Total, SvpOk, Covers, AllUsed, Tight, Room, Strict;
      var r := region.Reserve(size, alignment, memory);
    }

    method Flush(limit: nat) returns (cnt: nat, maxId: int)
      requires Valid()
      modifies this
      ensures Valid() && log == old(log) && cnt <= limit && cnt <= |region.slabs|
      ensures var iov := UpTo(Due(region.slabs, old(svp)), limit);
              && cnt == |iov| && emitted == old(emitted) + Bytes(iov)
              && if cnt == 0 then svp == old(svp) && maxId == NOT_USED
                 else exists e :: 0 <= e < |region.slabs| && EndsAt(region.slabs, old(svp), iov, svp, maxId, e)
      ensures var safe := if distinct then maxId else maxId - 1; done == if safe > old(done) then safe else old(done)
      ensures cnt < limit && !Blocked(region.slabs, old(svp)) ==> emitted == log
    {
      hide Ordered, Rest, Part, Used, Total, SvpOk, Covers, Bytes, IsPart, Strict, Blocked, Due, EndsAt;
      var iov, next;
      iov, next, maxId := region.ToIovec(limit, svp);
      Regroup(emitted, Bytes(iov), Rest(region.slabs, next));
      emitted := emitted + Bytes(iov);
      svp := next;
      cnt := |iov|;
      var safe := if distinct then maxId else maxId - 1;
      if safe > done { done := safe; }
    }

    /** A collection up to an id that flushes have covered. */
    method Collect(upTo: int)
      requires Valid()
      modifies this, region
      ensures Valid() && emitted == old(emitted) && log == old(log) && svp == old(svp)
      ensures var m := if upTo < done then upTo else done;
              done == old(done) && Collected(old(region.slabs), region.slabs, m)
      ensures (AllUsed(old(region.slabs)) ==> AllUsed(region.slabs))
      ensures (Tight(old(region.slabs)) ==> Tight(region.slabs))
      ensures old(region.slabs) != [] && region.slabs != [] ==> Last(region.slabs) == Last(old(region.slabs))
    {
      hide Ordered, Rest, Part, Used, Total, SvpOk, Covers, AllUsed, Tight, Strict;
      var m := if upTo < done then upTo else done;
      CoversLess(region.slabs, svp, m, done);
      region.Gc(m);
    }
  }

  lemma OwingNext<T>(ops: seq<Op<T>>, i: nat)
    requires i < |ops|
    ensures Owing(ops[..i + 1]) ==
            if ops[i].Alloc? then None else if ops[i].Reserve? then Some(ops[i]) else Owing(ops[..i])
  {
    assert ops[..i + 1][..i] == ops[..i];
  }

  /** The allocation that consumes a reserve finds room. */
  lemma FitsRoom<T>(slabs: seq<Slab<T>>, a: Op<T>, r: Op<T>)
    requires a.Alloc? && r.Reserve? && FitsIn(a, r) && a.alignment > 0 && r.alignment > 0
    requires Room(slabs, r.size, r.alignment)
    ensures Room(slabs, |a.content|, a.alignment)
  {
    hide Align;
    AlignIs(Pos(Last(slabs)), a.alignment);
    AlignIs(Pos(Last(slabs)), r.alignment);
  }

  /** One operation of a run. */
  method Serve<T>(user: User<T>, ops: seq<Op<T>>, i: nat) returns (ok: bool, ghost added: seq<T>)
    requires user.Valid() && i < |ops| && Disciplined(ops) && Kept(user.region.slabs, Owing(ops[..i]))
    modifies user, user.region
    ensures user.Valid() && user.log == old(user.log) + added && Adds(ops[i], ok, added)
    ensures Kept(user.region.slabs, Owing(ops[..i + 1]))
  {
    hide Owing, AllUsed, Tight, Room, Blocked, Adds, User.Valid;
    OwingNext(ops, i);
    ghost var owing := Owing(ops[..i]);
    assert Consumes(ops, i);
    ok, added := true, [];
    NothingAdded(ops[i]);
    match ops[i] {
      case Alloc(content, pad, alignment, memory, step) =>
        if owing.Some? && owing.value.alignment > 0 &&
           Room(user.region.slabs, owing.value.size, owing.value.alignment) {
          FitsRoom(user.region.slabs, ops[i], owing.value);
        }
        ok, added := user.Alloc(content, pad, alignment, memory, step);
      case Reserve(size, alignment, memory) =>
        user.Reserve(size, alignment, memory);
      case Flush(limit) =>
        var cnt, maxId := user.Flush(limit);
      case Collect(upTo) =>
        ghost var was := user.region.slabs;
        user.Collect(upTo);
        if owing.Some? && owing.value.Reserve? && owing.value.alignment > 0 {
          RoomLast(was, user.region.slabs, owing.value.size, owing.value.alignment);
        }
    }
  }

  lemma NothingAdded<T>(op: Op<T>)
    ensures !op.Alloc? ==> Adds(op, true, [])
  {
  }

  lemma RoomLast<T>(s0: seq<Slab<T>>, s1: seq<Slab<T>>, size: nat, alignment: nat)
    requires alignment > 0 && (s0 != [] && s1 != [] ==> Last(s1) == Last(s0))
    ensures s1 == [] ==> AllUsed(s1)
    ensures s1 != [] && Room(s0, size, alignment) ==> Room(s1, size, alignment)
  {
  }

  /** The flush is exactly-once on every run in which reserves are consumed: what was emitted and what
      is left to flush is the log of all that was allocated, in order; a last flush without limit emits
      the rest. Ids may grow by any step and may repeat; a collection goes up to any id that a flush
      returned or less, or one less where ids did repeat. */
  method Run<T>(arenaSize: nat, ops: seq<Op<T>>) returns (emitted: seq<T>, oks: seq<bool>)
    requires arenaSize > HEADER && Disciplined(ops)
    ensures |oks| == |ops| && Logged(ops, oks, emitted)
  {
    hide Logged, Kept, Owing, AllUsed, Tight, Room, Blocked, Adds, Disciplined, User.Valid;
    var user := new User<T>(arenaSize);
    oks := [];
    NothingLogged(ops);
    NothingKept(user.region.slabs, Owing(ops[..0]));
    while |oks| < |ops|
      invariant |oks| <= |ops| && fresh(user) && fresh(user.region) && user.Valid()
      invariant Logged(ops[..|oks|], oks, user.log) && Kept(user.region.slabs, Owing(ops[..|oks|]))
      decreases |ops| - |oks|
    {
      ghost var log := user.log;
      var ok, added := Serve(user, ops, |oks|);
      LogMore(ops, oks, ok, log, added);
      oks := oks + [ok];
    }
    assert ops[..|oks|] == ops;
    KeptFree(user.region.slabs, Owing(ops), user.svp);
    var cnt, maxId := user.Flush(|user.region.slabs| + 1);
    emitted := user.emitted;
  }

  lemma NothingLogged<T>(ops: seq<Op<T>>)
    ensures Logged(ops[..0], [], [])
  {
  }

  lemma NothingKept<T>(slabs: seq<Slab<T>>, owing: Option<Op<T>>)
    requires slabs == []
    ensures Kept(slabs, owing)
  {
  }

  /** Nothing stands in the way of a flush. */
  lemma KeptFree<T>(slabs: seq<Slab<T>>, owing: Option<Op<T>>, svp: Svp)
    requires Kept(slabs, owing)
    ensures !Blocked(slabs, svp)
  {
  }

  lemma AllocAdds<T>(op: Op<T>, b: seq<T>, done: bool)
    requires op.Alloc? && (!done ==> op.memory.None? && b == [])
    requires done ==> |b| < op.alignment + |op.content| && exists n: nat :: b == Repeat(op.pad, n) + op.content
    ensures Adds(op, done, b)
  {
  }

  lemma Initially<T>(svp: Svp)
    ensures SvpOk<T>([], 0, Svp(NOT_USED, 0)) && AllUsed<T>([]) && Strict<T>([]) && Rest<T>([], svp) == []
    ensures Covers<T>([], svp, NOT_USED)
  {
  }

  lemma CoversLess<T>(slabs: seq<Slab<T>>, svp: Svp, m: int, done: int)
    requires Covers(slabs, svp, done) && m <= done
    ensures Covers(slabs, svp, m)
  {
  }

  // ---------- what goes wrong ----------

  lemma NoPad<T>(x: T, b: seq<T>, content: seq<T>)
    requires |b| < 1 + |content| && exists n: nat :: b == Repeat(x, n) + content
    ensures b == content
  {
    var n: nat :| b == Repeat(x, n) + content;
    assert n == 0;
  }

  /** A slab with no more than n bytes left has no room for more. */
  lemma NoRoom<T>(slabs: seq<Slab<T>>, n: nat)
    requires slabs != [] && Last(slabs).size < HEADER + |Last(slabs).data| + n
    ensures !Room(slabs, n, 1)
  {
    hide Align;
    AlignIs(Pos(Last(slabs)), 1);
  }

  /** A reserve that is not consumed, and an allocation in a slab of its own. */
  method ReserveThenAlloc<T>(x: T) returns (region: Region<T>)
    ensures fresh(region) && region.Valid() && |region.slabs| == 2 && region.lastId == 0
    ensures region.slabs[0].maxId == NOT_USED && region.slabs[1].maxId == 0
    ensures SvpOk(region.slabs, region.slabId, Svp(NOT_USED, 0))
    ensures Rest(region.slabs, Svp(NOT_USED, 0)) == [x, x, x]
  {
    hide Ordered, Rest, Used, Total, SvpOk, Strict, Align, Room, Covers, AllUsed, Tight;
    region := new Region<T>(HEADER + 2);
    var svp := Svp(NOT_USED, 0);
    Initially<T>(svp);
    NoSlab<T>(1);
    var res := region.AlignedReserve(1, 1, Some(0));
    ghost var s := Last(region.slabs);
    assert region.slabs == [s];
    AddRest([], s, 0, svp, 0);
    assert [] + [s] == region.slabs;
    NoRoom(region.slabs, 3);
    var r, added := region.AlignedAlloc([x, x, x], x, 1, 0, Some(1000));
    NoPad(x, added, [x, x, x]);
    assert Front(region.slabs) == [s] && region.slabs[0] == s;
  }

  /** A reserve that is not consumed holds up the flush, until a collection reaches the unused slab. */
  method UnconsumedReserve<T>(x: T, limit: nat) returns (stuck: seq<Iov<T>>, freed: seq<Iov<T>>)
    requires limit > 1
    ensures stuck == [] && Bytes(freed) == [x, x, x]
  {
    hide Ordered, Rest, Bytes, Used, Total, SvpOk, IsPart, Strict, Align, Room, Covers, Blocked, AllUsed, Tight;
    var region := ReserveThenAlloc(x);
    var svp, maxId;
    stuck, svp, maxId := region.ToIovec(limit, Svp(NOT_USED, 0));
    UnusedCovered(region.slabs, region.slabId, region.lastId, svp);
    region.Gc(NOT_USED);
    NotBlocked(region.slabs, svp);
    freed, svp, maxId := region.ToIovec(limit, svp);
  }

  lemma UnusedCovered<T>(slabs: seq<Slab<T>>, slabId: int, lastId: int, svp: Svp)
    requires Ordered(slabs, slabId, lastId)
    ensures Covers(slabs, svp, NOT_USED)
  {
  }

  lemma NoSlab<T>(n: nat)
    ensures !Room<T>([], n, 1)
  {
  }

  lemma DataFits<T>(slabs: seq<Slab<T>>, slabId: int, lastId: int, svp: Svp)
    requires Ordered(slabs, slabId, lastId)
    ensures forall j :: 0 <= j < |slabs| ==> |slabs[j].data| <= slabs[j].size - HEADER && slabs[j].maxId <= lastId
    ensures |slabs| == 1 ==> |slabs[0].data| >= |Rest(slabs, svp)|
  {
    if |slabs| == 1 { assert slabs[1..] == []; }
  }

  lemma NotBlocked<T>(slabs: seq<Slab<T>>, svp: Svp)
    requires AllUsed(slabs)
    ensures !Blocked(slabs, svp)
  {
  }

  lemma ShortPart<T>(slabs: seq<Slab<T>>, iov: seq<Iov<T>>, n: nat)
    requires |iov| <= 1 && (forall v :: v in iov ==> IsPart(slabs, v))
    requires forall j :: 0 <= j < |slabs| ==> |slabs[j].data| <= n
    ensures |Bytes(iov)| <= n
  {
    if iov != [] {
      assert iov[0] in iov && iov[..0] == [];
    }
  }

  /** Two slabs that both end with id 0, each with two bytes. */
  method TwoOfOneId<T>(x: T) returns (region: Region<T>, ghost log: seq<T>)
    ensures fresh(region) && region.Valid() && region.lastId == 0 && |region.slabs| == 2 && AllUsed(region.slabs)
    ensures forall j :: 0 <= j < 2 ==> |region.slabs[j].data| <= 2 && region.slabs[j].maxId <= 0
    ensures log == [x, x, x, x] && SvpOk(region.slabs, region.slabId, Svp(NOT_USED, 0))
    ensures Rest(region.slabs, Svp(NOT_USED, 0)) == log
  {
    hide Ordered, Rest, Used, Total, SvpOk, Strict, Align, Room, Covers, AllUsed, Tight, Recycled;
    region := new Region<T>(HEADER + 2);
    var svp := Svp(NOT_USED, 0);
    Initially<T>(svp);
    NoSlab<T>(2);
    var r;
    r, log := region.AlignedAlloc([x, x], x, 1, 0, Some(0));
    NoPad(x, log, [x, x]);
    ghost var s := region.slabs[0];
    assert region.slabs == [s];
    DataFits(region.slabs, region.slabId, region.lastId, svp);
    NoRoom(region.slabs, 2);
    ghost var more;
    r, more := region.AlignedAlloc([x, x], x, 1, 0, Some(1000));
    NoPad(x, more, [x, x]);
    log := log + more;
    assert Front(region.slabs) == [s] && region.slabs[0] == s;
    DataFits(region.slabs, region.slabId, region.lastId, svp);
  }

  /** Ids that repeat lose bytes: two slabs of one id, a flush with room for the first alone, and a
      collection up to the id that the flush returned. Four bytes were allocated, at most two are
      emitted, and none are left. */
  method EqualIds<T>(x: T) returns (iov: seq<Iov<T>>, svp: Svp, region: Region<T>, ghost log: seq<T>)
    ensures fresh(region) && region.Valid() && region.lastId == 0 && region.used == 0
    ensures log == [x, x, x, x] && |Bytes(iov)| <= 2 && Rest(region.slabs, svp) == []
  {
    hide Ordered, Rest, Bytes, Used, Total, SvpOk, Strict, Align, Room, Blocked, Covers, IsPart, Due, EndsAt, Recycled,
      AllUsed;
    region, log := TwoOfOneId(x);
    svp := Svp(NOT_USED, 0);
    NotBlocked(region.slabs, svp);
    var maxId;
    iov, svp, maxId := region.ToIovec(1, svp);
    assert iov != [];
    ShortPart(region.slabs, iov, 2);
    region.Gc(maxId);
    assert region.slabs == [];
    Emptied(region.slabs, svp);
  }

  lemma Emptied<T>(slabs: seq<Slab<T>>, svp: Svp)
    requires slabs == []
    ensures Used(slabs) == 0 && Rest(slabs, svp) == []
  {
  }
}
