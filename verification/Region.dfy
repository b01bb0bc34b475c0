/**
 small/region.c and include/small/region.h: a stack of bytes in slabs, the newest slab first. Bytes
 are of any type; a slab's memory past its used part keeps what was written there.
 */
module Region {

  import opened Common

  /** The aligned size of struct rslab. */
  const RSLAB_SIZEOF := 56

  /** struct rslab; data is all its memory after the header. */
  datatype Rslab<T> = Rslab(addr: nat, data: seq<T>, used: nat)

  function Unused<T>(s: Rslab<T>): int { |s.data| - s.used }

  /** rslab_data_end */
  function DataEnd<T>(s: Rslab<T>): nat { s.addr + RSLAB_SIZEOF + s.used }

  function Bytes<T>(s: Rslab<T>): seq<T>
    requires s.used <= |s.data|
  {
    s.data[..s.used]
  }

  ghost predicate SlabsOk<T>(slabs: seq<Rslab<T>>) { forall i :: 0 <= i < |slabs| ==> slabs[i].used <= |slabs[i].data| }

  /** The bytes allocated so far, the oldest first. */
  function Contents<T>(slabs: seq<Rslab<T>>): seq<T>
    requires SlabsOk(slabs)
  {
    if slabs == [] then [] else Contents(slabs[1..]) + Bytes(slabs[0])
  }

  function Total<T>(slabs: seq<Rslab<T>>): int {
    if slabs == [] then 0 else RSLAB_SIZEOF + |slabs[0].data| + Total(slabs[1..])
  }

  /** memcpy of b to position at. */
  function Splice<T>(d: seq<T>, at: nat, b: seq<T>): seq<T>
    requires at + |b| <= |d|
  {
    d[..at] + b + d[at + |b|..]
  }

  /** Memory that slab_get gives for a new slab. */
  datatype Block<T> = Block(addr: nat, data: seq<T>)

  class Region<T> {
    var slabs: seq<Rslab<T>>
    var used: nat
    var total: int

    ghost predicate Valid()
      reads this
    {
      SlabsOk(slabs) && used == |Contents(slabs)| && total == Total(slabs)
    }

    constructor ()
      ensures Valid() && slabs == []
    {
      slabs, used, total := [], 0, 0;
    }

    /** The newest slab has room. */
    static predicate Fits(slabs: seq<Rslab<T>>, size: nat) { slabs != [] && size <= Unused(slabs[0]) }

    /** region_reserve and region_reserve_slow: room for size bytes at the end of the newest slab. */
    method Reserve(size: nat, block: Option<Block<T>>) returns (r: Option<nat>)
      requires Valid() && (block.Some? ==> size <= |block.value.data|)
      modifies this`slabs, this`total
      ensures Valid() && Contents(slabs) == Contents(old(slabs))
      ensures r.None? <==> block.None? && !Fits(old(slabs), size)
      ensures r.None? || Fits(old(slabs), size) ==> slabs == old(slabs)
      ensures r.Some? ==> Fits(slabs, size) && r.value == DataEnd(slabs[0])
      ensures r.Some? && !Fits(old(slabs), size) ==>
                block.Some? && slabs == [Rslab(block.value.addr, block.value.data, 0)] + old(slabs)
      ensures slabs == old(slabs) || (slabs != [] && slabs[0].used == 0 && slabs[1..] == old(slabs))
    {
      if Fits(slabs, size) { return Some(DataEnd(slabs[0])); }
      if block.None? { return None; }
      ghost var was := slabs;
      slabs := [Rslab(block.value.addr, block.value.data, 0)] + slabs;
      assert slabs[1..] == was;
      total := total + RSLAB_SIZEOF + |block.value.data|;
      r := Some(DataEnd(slabs[0]));
    }

    /** region_alloc's end: size bytes of the newest slab's memory become allocated. */
    method Take(size: nat)
      requires Valid() && slabs != [] && size <= Unused(slabs[0])
      modifies this`slabs, this`used
      ensures Valid() && slabs == [old(slabs)[0].(used := old(slabs)[0].used + size)] + old(slabs)[1..]
      ensures var s := old(slabs)[0];
              Contents(slabs) == Contents(old(slabs)) + s.data[s.used..s.used + size]
      ensures size <= slabs[0].used && Contents(slabs) == Contents(old(slabs)) + Last(Bytes(slabs[0]), size)
    {
      used := used + size;
      ghost var was := slabs;
      var s := slabs[0].(used := slabs[0].used + size);
      slabs := [s] + slabs[1..];
      assert slabs[1..] == was[1..];
      assert Bytes(s) == Bytes(was[0]) + s.data[was[0].used..s.used];
      assert Last(Bytes(s), size) == s.data[was[0].used..s.used];
      assert total == Total(slabs);
    }

    /** region_alloc: the new bytes are those that the memory returned holds. */
    method Alloc(size: nat, block: Option<Block<T>>) returns (r: Option<nat>)
      requires Valid() && size > 0 && (block.Some? ==> size <= |block.value.data|)
      modifies this
      ensures Valid()
      ensures r.None? <==> block.None? && !Fits(old(slabs), size)
      ensures r.None? ==> slabs == old(slabs) && used == old(used)
      ensures r.Some? ==> slabs != [] && r.value + size == DataEnd(slabs[0]) && size <= slabs[0].used
      ensures r.Some? ==> Contents(slabs) == Contents(old(slabs)) + Last(Bytes(slabs[0]), size)
      ensures Fits(old(slabs), size) ==>
                && r == Some(DataEnd(old(slabs)[0])) && slabs != []
                && slabs == [old(slabs)[0].(used := old(slabs)[0].used + size)] + old(slabs)[1..]
      ensures r.Some? && !Fits(old(slabs), size) ==>
                block.Some? && slabs == [Rslab(block.value.addr, block.value.data, size)] + old(slabs)
    {
      r := Reserve(size, block);
      if r.Some? { Take(size); }
    }

    /** region_aligned_alloc: the bytes skipped count as allocated; n is how many there are in all. */
    method AlignedAlloc(size: nat, alignment: nat, block: Option<Block<T>>) returns (r: Option<nat>, n: nat)
      requires Valid() && size > 0 && alignment > 0 && (block.Some? ==> size + alignment - 1 <= |block.value.data|)
      modifies this
      ensures Valid()
      ensures r.None? <==> block.None? && !Fits(old(slabs), size + alignment - 1)
      ensures r.None? ==> slabs == old(slabs) && used == old(used)
      ensures r.Some? ==> slabs != [] && r.value + size == DataEnd(slabs[0]) && r.value % alignment == 0
      ensures r.Some? ==> size <= n < size + alignment && n <= slabs[0].used && n <= DataEnd(slabs[0])
      ensures Fits(old(slabs), size + alignment - 1) ==>
                slabs == [old(slabs)[0].(used := old(slabs)[0].used + n)] + old(slabs)[1..]
      ensures r.Some? && !Fits(old(slabs), size + alignment - 1) ==>
                block.Some? && slabs == [Rslab(block.value.addr, block.value.data, n)] + old(slabs)
      ensures r.Some? ==> Contents(slabs) == Contents(old(slabs)) + Last(Bytes(slabs[0]), n)
    {
      hide Align, Contents, Total, Bytes, Last, SlabsOk;
      n := 0;
      var at := Reserve(size + alignment - 1, block);
      if at.None? { return None, 0; }
      AlignIs(at.value, alignment);
      var ptr := Align(at.value, alignment);
      n := ptr - at.value + size;
      Take(n);
      assert DataEnd(slabs[0]) - n == at.value;
      r := Some(ptr);
    }

    /** The user writes to the memory of the newest slab, past the allocated part. */
    method Write(offset: nat, b: seq<T>)
      requires Valid() && slabs != [] && slabs[0].used + offset + |b| <= |slabs[0].data|
      modifies this`slabs
      ensures Valid() && Contents(slabs) == Contents(old(slabs)) && slabs != [] && slabs[1..] == old(slabs)[1..]
      ensures slabs[0] == old(slabs)[0].(data := Splice(old(slabs)[0].data, old(slabs)[0].used + offset, b))
      ensures |slabs[0].data| == |old(slabs)[0].data|
    {
      ghost var was := slabs;
      var s := slabs[0];
      slabs := [s.(data := Splice(s.data, s.used + offset, b))] + slabs[1..];
      assert slabs[1..] == was[1..];
      assert Bytes(slabs[0]) == Bytes(s);
    }

    /** region_truncate leaves exactly the first bytes; freed are the slabs given back to the cache, which
        are those with none of them down to the newest slab that has some. */
    method Truncate(size: nat) returns (freed: seq<nat>)
      requires Valid() && size <= used
      modifies this
      ensures Valid() && used == size && Contents(slabs) == Contents(old(slabs))[..size]
      ensures |slabs| + |freed| == |old(slabs)| && freed == Addrs(old(slabs)[..|freed|])
      ensures slabs != [] ==>
                && 0 < slabs[0].used && slabs[1..] == old(slabs)[|freed| + 1..]
                && slabs[0] == old(slabs)[|freed|].(used := slabs[0].used)
    {
      hide Contents, Total;
      var cut := used - size;
      ghost var all, n := Contents(slabs), 0;
      freed := [];
      while slabs != []
        invariant SlabsOk(slabs) && total == Total(slabs)
        invariant 0 <= n <= |old(slabs)| && slabs == old(slabs)[n..] && freed == Addrs(old(slabs)[..n]) && |freed| == n
        invariant cut >= 0 && size + cut <= |all| && |Contents(slabs)| == size + cut
        invariant Contents(slabs) == all[..size + cut]
        decreases |slabs|
      {
        var s := slabs[0];
        Newest(slabs);
        if s.used > cut {
          Trim(slabs, cut);
          slabs := [s.(used := s.used - cut)] + slabs[1..];
          assert all[..size + cut][..size] == all[..size];
          cut := 0;
          used := size;
          return;
        }
        cut := cut - s.used;
        assert Contents(slabs[1..]) == Contents(slabs)[..size + cut];
        AddrsMore(old(slabs), n);
        total := total - (RSLAB_SIZEOF + |s.data|);
        freed := freed + [s.addr];
        slabs := slabs[1..];
        n := n + 1;
      }
      NoContents(slabs);
      used := size;
    }

    /** region_reset empties the newest slab alone. */
    method Reset()
      requires Valid()
      modifies this
      ensures Valid() && slabs == if old(slabs) == [] then [] else [old(slabs)[0].(used := 0)] + old(slabs)[1..]
      ensures old(slabs) != [] ==> SlabsOk(old(slabs)[1..]) && Contents(slabs) == Contents(old(slabs)[1..])
      ensures Contents(slabs) == [] <==>
                old(slabs) == [] || (SlabsOk(old(slabs)[1..]) && Contents(old(slabs)[1..]) == [])
    {
      if slabs != [] {
        ghost var was := slabs;
        used := used - slabs[0].used;
        slabs := [slabs[0].(used := 0)] + slabs[1..];
        assert slabs[1..] == was[1..];
      }
    }

    /** region_join: the last size bytes as one chunk, in place or copied to the end. */
    method Join(size: nat, block: Option<Block<T>>) returns (r: Option<nat>)
      requires Valid() && 0 < size <= used && (block.Some? ==> size <= |block.value.data|)
      modifies this
      ensures Valid()
      ensures old(slabs) != []
      ensures r.None? <==> old(slabs)[0].used < size && block.None? && !Fits(old(slabs), size)
      ensures r.None? ==> slabs == old(slabs)
      ensures r.Some? ==> slabs != [] && size <= slabs[0].used && r.value + size == DataEnd(slabs[0])
      ensures r.Some? ==> Last(Bytes(slabs[0]), size) == Last(Contents(old(slabs)), size)
      ensures old(slabs)[0].used >= size ==> slabs == old(slabs)
      ensures old(slabs)[0].used < size && r.Some? ==>
                Contents(slabs) == Contents(old(slabs)) + Last(Contents(old(slabs)), size)
    {
      hide Contents, Total;
      SomeSlab(slabs);
      if slabs[0].used >= size {
        LastIn(Contents(slabs[1..]), Bytes(slabs[0]), size);
        return Some(DataEnd(slabs[0]) - size);
      }
      var count := |slabs|;
      r := Reserve(size, block);
      if r.None? { return None; }
      var j := |slabs| - count;
      Gather(j, size);
      Take(size);
    }

    /** The copying loop of region_join, from the newest slab to the oldest, into the memory reserved
        at the end of slab 0. first is the slab that was the newest before the reservation. */
    method Gather(first: nat, size: nat)
      requires Valid() && size <= used && slabs != [] && size <= Unused(slabs[0]) && first <= 1 && first < |slabs|
      requires first == 1 ==> slabs[0].used == 0
      modifies this`slabs
      ensures Valid() && Contents(slabs) == Contents(old(slabs))
      ensures slabs != [] && slabs[1..] == old(slabs)[1..] && slabs[0].addr == old(slabs)[0].addr
      ensures slabs[0].used == old(slabs)[0].used && |slabs[0].data| == |old(slabs)[0].data|
      ensures slabs[0].data[slabs[0].used..slabs[0].used + size] == Last(Contents(old(slabs)), size)
    {
      hide Contents, Total, Splice, SlabsOk, Gathered, Bytes;
      var offset: nat, j: nat := size, first;
      ghost var all, from := Contents(slabs), slabs;
      GatherStart(slabs, first, size);
      while offset > 0 && slabs[j].used <= offset
        invariant Valid() && Gathered(slabs, all, j, offset, size)
        invariant offset > 0 ==> j < |slabs|
        invariant Contents(slabs) == all && slabs != [] && slabs[1..] == from[1..]
        invariant slabs[0] == from[0].(data := slabs[0].data) && |slabs[0].data| == |from[0].data|
        decreases |slabs| - j
      {
        ghost var was := slabs;
        SlabOk(slabs, j);
        RoomLeft(slabs, all, j, offset, size);
        Write(offset - slabs[j].used, Bytes(slabs[j]));
        GatherStep(was, slabs, all, j, offset, size);
        RestSame(was, slabs, 1);
        offset := offset - slabs[j].used;
        j := j + 1;
      }
      if offset > 0 {
        ghost var was := slabs;
        SlabOk(slabs, j);
        RoomLeft(slabs, all, j, offset, size);
        Write(0, Last(Bytes(slabs[j]), offset));
        GatherLast(was, slabs, all, j, offset, size);
      } else {
        GatherDone(slabs, all, j, size);
      }
    }

    /** region_free: every slab is given back. */
    method Free() returns (freed: seq<nat>)
      modifies this
      ensures Valid() && slabs == [] && freed == Addrs(old(slabs))
    {
      freed := [];
      var i := 0;
      AddrsNone(slabs);
      while i < |slabs|
        invariant 0 <= i <= |slabs| && slabs == old(slabs) && freed == Addrs(slabs[..i])
      {
        AddrsMore(slabs, i);
        freed := freed + [slabs[i].addr];
        i := i + 1;
      }
      assert slabs[..i] == slabs;
      slabs, used, total := [], 0, 0;
    }
  }

  function Addrs<T>(slabs: seq<Rslab<T>>): (r: seq<nat>)
    ensures |r| == |slabs|
  {
    if slabs == [] then [] else Addrs(slabs[..|slabs| - 1]) + [slabs[|slabs| - 1].addr]
  }

  lemma AddrsNone<T>(slabs: seq<Rslab<T>>)
    ensures Addrs(slabs[..0]) == []
  {
  }

  lemma AddrsMore<T>(slabs: seq<Rslab<T>>, i: nat)
    requires i < |slabs|
    ensures Addrs(slabs[..i + 1]) == Addrs(slabs[..i]) + [slabs[i].addr]
  {
    assert slabs[..i + 1][..i] == slabs[..i];
  }

  lemma Newest<T>(slabs: seq<Rslab<T>>)
    requires SlabsOk(slabs) && slabs != []
    ensures SlabsOk(slabs[1..]) && Contents(slabs) == Contents(slabs[1..]) + Bytes(slabs[0])
    ensures Total(slabs) == RSLAB_SIZEOF + |slabs[0].data| + Total(slabs[1..])
  {
  }

  lemma Trim<T>(slabs: seq<Rslab<T>>, cut: nat)
    requires SlabsOk(slabs) && slabs != [] && cut <= slabs[0].used
    ensures var t := [slabs[0].(used := slabs[0].used - cut)] + slabs[1..];
            && SlabsOk(t) && Total(t) == Total(slabs) && cut <= |Contents(slabs)|
            && Contents(t) == Contents(slabs)[..|Contents(slabs)| - cut]
  {
    var s := slabs[0];
    var t := [s.(used := s.used - cut)] + slabs[1..];
    assert t[1..] == slabs[1..] && Bytes(t[0]) == Bytes(s)[..s.used - cut];
    assert Contents(slabs) == Contents(slabs[1..]) + Bytes(s);
  }

  lemma NoContents<T>(slabs: seq<Rslab<T>>)
    requires SlabsOk(slabs)
    ensures slabs == [] ==> Contents(slabs) == []
  {
  }

  /** region_reset is documented to mark the region as empty; after two slabs it is not. */
  method ResetLeaves<T>(x: T) returns (region: Region<T>)
    ensures fresh(region) && region.Valid() && Contents(region.slabs) == [x] && region.used == 1
  {
    hide Total, Contents, Bytes, Last;
    region := new Region<T>();
    var r := region.Alloc(1, Some(Block(0, [x])));
    ghost var first := region.slabs;
    assert first == [Rslab(0, [x], 1)];
    OneByte(x);
    r := region.Alloc(1, Some(Block(1000, [x])));
    assert region.slabs[1..] == first;
    region.Reset();
  }

  lemma OneByte<T>(x: T)
    ensures Contents([Rslab(0, [x], 1)]) == [x]
  {
    assert [Rslab(0, [x], 1)][1..] == [];
  }

  /** The last n elements. */
  function Last<T>(s: seq<T>, n: nat): seq<T>
    requires n <= |s|
  {
    s[|s| - n..]
  }

  lemma SomeSlab<T>(slabs: seq<Rslab<T>>)
    requires SlabsOk(slabs) && |Contents(slabs)| > 0
    ensures slabs != [] && SlabsOk(slabs[1..]) && Contents(slabs) == Contents(slabs[1..]) + Bytes(slabs[0])
  {
  }

  lemma LastIn<T>(a: seq<T>, b: seq<T>, n: nat)
    requires n <= |b|
    ensures Last(b, n) == Last(a + b, n)
  {
  }

  /** A slab that was just added holds nothing. */
  lemma SkipEmpty<T>(slabs: seq<Rslab<T>>, first: nat)
    requires SlabsOk(slabs) && first <= 1 && first < |slabs| && (first == 1 ==> slabs[0].used == 0)
    ensures SlabsOk(slabs[first..]) && Contents(slabs[first..]) == Contents(slabs)
  {
    assert slabs[0..] == slabs;
  }

  lemma Below<T>(slabs: seq<Rslab<T>>, j: nat)
    requires SlabsOk(slabs) && j <= |slabs|
    ensures SlabsOk(slabs[j..])
    ensures j < |slabs| ==>
              SlabsOk(slabs[j + 1..]) && Contents(slabs[j..]) == Contents(slabs[j + 1..]) + Bytes(slabs[j])
    ensures j == |slabs| ==> Contents(slabs[j..]) == []
  {
    if j < |slabs| {
      assert slabs[j..][1..] == slabs[j + 1..];
    }
  }

  lemma RestSame<T>(a: seq<Rslab<T>>, b: seq<Rslab<T>>, j: nat)
    requires a != [] && b != [] && a[1..] == b[1..] && 1 <= j <= |a|
    ensures |a| == |b| && a[j..] == b[j..]
  {
    assert a[j..] == a[1..][j - 1..] && |a[1..]| == |b[1..]|;
    assert b[j..] == b[1..][j - 1..];
  }

  /** After the copy, the memory from at to end is b and what was there behind it. */
  lemma SpliceAt<T>(d: seq<T>, at: nat, b: seq<T>, end: nat)
    requires at + |b| <= end <= |d|
    ensures |Splice(d, at, b)| == |d| && Splice(d, at, b)[at..end] == b + d[at + |b|..end]
  {
  }

  lemma LastOf<T>(a: seq<T>, b: seq<T>, tail: seq<T>, n: nat)
    requires n <= |b|
    ensures Last(a + b + tail, n + |tail|) == Last(b, n) + tail
  {
  }

  /** What is left to copy lies in the slabs from j on; the rest is in place behind it. */
  ghost predicate Gathered<T>(slabs: seq<Rslab<T>>, all: seq<T>, j: nat, offset: nat, size: nat) {
    && slabs != [] && SlabsOk(slabs) && j <= |slabs| && offset <= size <= |all| && size <= Unused(slabs[0])
    && SlabsOk(slabs[j..])
    && all == Contents(slabs[j..]) + slabs[0].data[slabs[0].used + offset..slabs[0].used + size]
  }

  lemma SlabOk<T>(slabs: seq<Rslab<T>>, j: nat)
    requires SlabsOk(slabs) && j < |slabs|
    ensures slabs[j].used <= |slabs[j].data| && |Bytes(slabs[j])| == slabs[j].used
  {
  }

  lemma RoomLeft<T>(slabs: seq<Rslab<T>>, all: seq<T>, j: nat, offset: nat, size: nat)
    requires Gathered(slabs, all, j, offset, size)
    ensures slabs[0].used + offset <= slabs[0].used + size <= |slabs[0].data|
  {
  }

  lemma GatherStart<T>(slabs: seq<Rslab<T>>, first: nat, size: nat)
    requires SlabsOk(slabs) && first <= 1 && first < |slabs| && (first == 1 ==> slabs[0].used == 0)
    requires size <= |Contents(slabs)| && size <= Unused(slabs[0])
    ensures Gathered(slabs, Contents(slabs), first, size, size)
  {
    SkipEmpty(slabs, first);
  }

  lemma GatherStep<T>(was: seq<Rslab<T>>, slabs: seq<Rslab<T>>, all: seq<T>, j: nat, offset: nat, size: nat)
    requires Gathered(was, all, j, offset, size) && j < |was| && was[j].used <= offset
    requires slabs != [] && slabs[1..] == was[1..] && SlabsOk(slabs)
    requires SlabsOk(was)
    requires slabs[0] == was[0].(data := Splice(was[0].data, was[0].used + offset - was[j].used, Bytes(was[j])))
    ensures |slabs| == |was| && slabs[j].used == was[j].used && Gathered(slabs, all, j + 1, offset - was[j].used, size)
    ensures offset - was[j].used > 0 ==> j + 1 < |slabs|
  {
    hide Contents, Splice;
    var base, n := was[0].used, was[j].used;
    RestSame(was, slabs, j + 1);
    RestSame(was, slabs, 1);
    assert j > 0 ==> slabs[j] == slabs[1..][j - 1] && was[j] == was[1..][j - 1];
    Below(was, j);
    SpliceAt(was[0].data, base + offset - n, Bytes(was[j]), base + size);
    Below(slabs, j + 1);
  }

  lemma GatherLast<T>(was: seq<Rslab<T>>, slabs: seq<Rslab<T>>, all: seq<T>, j: nat, offset: nat, size: nat)
    requires Gathered(was, all, j, offset, size) && j < |was| && was[j].used >= offset > 0
    requires slabs != [] && SlabsOk(slabs) && SlabsOk(was)
    requires slabs[0] == was[0].(data := Splice(was[0].data, was[0].used, Last(Bytes(was[j]), offset)))
    ensures slabs[0].data[slabs[0].used..slabs[0].used + size] == Last(all, size)
  {
    hide Contents, Splice;
    var base := was[0].used;
    Below(was, j);
    SpliceAt(was[0].data, base, Last(Bytes(was[j]), offset), base + size);
    LastOf(Contents(was[j + 1..]), Bytes(was[j]), was[0].data[base + offset..base + size], offset);
  }

  lemma GatherDone<T>(slabs: seq<Rslab<T>>, all: seq<T>, j: nat, size: nat)
    requires Gathered(slabs, all, j, 0, size)
    ensures slabs[0].data[slabs[0].used..slabs[0].used + size] == Last(all, size)
  {
  }
}
