/**
 The three-level extent tree of matras and its read views, as values.

 A view reaches a block through a root extent, a second-level extent and a third-level
 extent. Views share extents freely. What keeps the sharing sound is stated here, together
 with the lemmas that show how each kind of change to the tree keeps it.
 */
module MatrasModel {

  import opened Common

  type Addr = nat
  type Block = int

  /** Pointers per extent and blocks per extent. */
  datatype Geo = Geo(p: nat, n: nat)

  /** An extent holds either pointers to other extents or blocks. */
  datatype Extent = Table(slots: seq<Addr>) | Data(blocks: seq<Block>)

  /** The place of an extent in the tree: the root, second-level extent i, third-level extent j. */
  datatype Pos = Root | Mid(i: nat) | Leaf(j: nat)

  type Mem = map<Addr, Extent>
  type Tags = map<Addr, Pos>

  datatype View = View(root: Addr, count: nat)

  // ---------- positions and the block ids under them ----------

  ghost predicate GeoOk(g: Geo) { g.p >= 1 && g.n >= 1 }

  function Start(g: Geo, q: Pos): nat {
    match q
    case Root => 0
    case Mid(i) => i * (g.p * g.n)
    case Leaf(j) => j * g.n
  }

  function End(g: Geo, q: Pos): nat {
    match q
    case Root => g.p * (g.p * g.n)
    case Mid(i) => (i + 1) * (g.p * g.n)
    case Leaf(j) => (j + 1) * g.n
  }

  /** The view with this many blocks has an extent at position q. */
  predicate Covers(g: Geo, count: nat, q: Pos) { Start(g, q) < count }

  function Up(g: Geo, q: Pos): Pos
    requires GeoOk(g)
  {
    match q
    case Root => Root
    case Mid(i) => Root
    case Leaf(j) => Mid(j / g.p)
  }

  /** The second-level and the third-level position over a block id: the first two indices it
      is split into by shifts and masks. */
  function MidOf(g: Geo, id: nat): Pos
    requires GeoOk(g)
  {
    Mid(id / g.n / g.p)
  }

  function LeafOf(g: Geo, id: nat): Pos
    requires GeoOk(g)
  {
    Leaf(id / g.n)
  }

  /** Block id is the first of its second-level, of its third-level extent. */
  predicate BeginsMid(g: Geo, id: nat)
    requires GeoOk(g)
  {
    id % g.n == 0 && id / g.n % g.p == 0
  }

  predicate BeginsLeaf(g: Geo, id: nat)
    requires GeoOk(g)
  {
    id % g.n == 0
  }

  /** Slot index of a position in its parent table. */
  function SlotOf(g: Geo, q: Pos): nat
    requires GeoOk(g)
  {
    match q
    case Root => 0
    case Mid(i) => i
    case Leaf(j) => j % g.p
  }

  /** The position that slot k of the table at q points to. */
  function Child(g: Geo, q: Pos, k: nat): Pos {
    match q
    case Root => Mid(k)
    case Mid(i) => Leaf(i * g.p + k)
    case Leaf(j) => Leaf(j)
  }

  /** Block id lies under position q. */
  predicate OnPath(g: Geo, id: nat, q: Pos) { Start(g, q) <= id < End(g, q) }

  lemma ChildPos(g: Geo, i: nat, k: nat)
    requires GeoOk(g) && k < g.p
    ensures (i * g.p + k) / g.p == i && (i * g.p + k) % g.p == k
  {
    DivModUnique(i * g.p + k, g.p, i, k);
  }

  lemma SameCell(s: nat, i: nat, k: nat, id: nat)
    requires i * s <= id < (i + 1) * s && k * s <= id < (k + 1) * s
    ensures i == k
  {
    if i < k { MulMono(i + 1, k, s); }
    if k < i { MulMono(k + 1, i, s); }
  }

  lemma DivStart(x: nat, d: nat)
    requires d > 0
    ensures (x / d) * d <= x < (x / d + 1) * d && (x % d == 0 <==> (x / d) * d == x)
  {
    assert (x / d + 1) * d == (x / d) * d + d;
  }

  lemma LeafEnd(p: nat, n: nat, j: nat)
    requires p >= 1 && n >= 1
    ensures (j / p) * (p * n) <= j * n && (j + 1) * n <= (j / p + 1) * (p * n)
    ensures (j / p) * (p * n) == j * n <==> j % p == 0
  {
    var i := j / p;
    var t := i * p;
    DivStart(j, p);
    assert (i + 1) * p == t + p;
    MulMono(t, j, n);
    MulMono(j + 1, t + p, n);
    assert t * n == i * (p * n) && (t + p) * n == (i + 1) * (p * n);
    if t < j { MulStrict(t, j, n); }
  }

  lemma MulStrict(a: nat, b: nat, c: nat)
    requires a < b && c > 0
    ensures a * c < b * c
  {
    MulMono(a + 1, b, c);
  }

  /** The ranges of block ids that the split of an id stands for. */
  lemma SplitId(g: Geo, id: nat)
    requires GeoOk(g)
    ensures OnPath(g, id, LeafOf(g, id)) && OnPath(g, id, MidOf(g, id))
    ensures Start(g, MidOf(g, id)) <= Start(g, LeafOf(g, id)) <= id
    ensures BeginsLeaf(g, id) <==> Start(g, LeafOf(g, id)) == id
    ensures BeginsMid(g, id) <==> Start(g, MidOf(g, id)) == id
  {
    hide Start, End;
    IdSpan(g, id);
    LeafSpan(g, id / g.n);
  }

  lemma IdSpan(g: Geo, id: nat)
    requires GeoOk(g)
    ensures var l := LeafOf(g, id); Start(g, l) <= id < End(g, l) && (id % g.n == 0 <==> Start(g, l) == id)
  {
    DivStart(id, g.n);
  }

  lemma LeafSpan(g: Geo, j: nat)
    requires GeoOk(g)
    ensures var m, l := Mid(j / g.p), Leaf(j);
            && Start(g, m) <= Start(g, l) < End(g, l) <= End(g, m) && (j % g.p == 0 <==> Start(g, m) == Start(g, l))
  {
    LeafEnd(g.p, g.n, j);
    assert (j + 1) * g.n == j * g.n + g.n;
  }

  /** The positions over a block id are the three that its split names. */
  lemma OnPathUnique(g: Geo, id: nat, q: Pos)
    requires GeoOk(g) && OnPath(g, id, q)
    ensures q == Root || q == MidOf(g, id) || q == LeafOf(g, id)
  {
    SplitId(g, id);
    match q
    case Root =>
    case Mid(i) => SameCell(g.p * g.n, i, MidOf(g, id).i, id);
    case Leaf(j) => SameCell(g.n, j, id / g.n, id);
  }

  lemma MulCancel(a: nat, b: nat, c: nat)
    requires a * c < b * c
    ensures a < b
  {
    if b <= a { MulMono(b, a, c); }
  }

  /** The slot indices of a covered position fit an extent. */
  lemma CoveredFits(g: Geo, count: nat, q: Pos)
    requires GeoOk(g) && count <= End(g, Root) && Covers(g, count, q)
    ensures q.Mid? ==> q.i < g.p
    ensures q.Leaf? ==> q.j / g.p < g.p && Covers(g, count, Mid(q.j / g.p))
  {
    match q
    case Root =>
    case Mid(i) => MulCancel(i, g.p, g.p * g.n);
    case Leaf(j) =>
      LeafEnd(g.p, g.n, j);
      MulCancel(j / g.p, g.p, g.p * g.n);
  }

  lemma StartOnPath(g: Geo, count: nat, q: Pos)
    requires GeoOk(g) && count <= End(g, Root) && Covers(g, count, q)
    ensures OnPath(g, Start(g, q), q)
  {
    match q
    case Root =>
    case Mid(i) => assert (i + 1) * (g.p * g.n) == i * (g.p * g.n) + g.p * g.n;
    case Leaf(j) => assert (j + 1) * g.n == j * g.n + g.n;
  }

  // ---------- reading the tree ----------

  function Slot(mem: Mem, a: Addr, k: nat): Addr {
    if a in mem && mem[a].Table? && k < |mem[a].slots| then mem[a].slots[k] else 0
  }

  /** The extent that view v has at position q. */
  function At(g: Geo, mem: Mem, v: View, q: Pos): Addr
    requires GeoOk(g)
  {
    match q
    case Root => v.root
    case Mid(i) => Slot(mem, v.root, i)
    case Leaf(j) => Slot(mem, Slot(mem, v.root, j / g.p), j % g.p)
  }

  predicate OkExtent(g: Geo, e: Extent, q: Pos) {
    if q.Leaf? then e.Data? && |e.blocks| == g.n else e.Table? && |e.slots| == g.p
  }

  ghost predicate OkAt(g: Geo, mem: Mem, tag: Tags, v: View, q: Pos)
    requires GeoOk(g)
  {
    var a := At(g, mem, v, q);
    a in mem && a in tag && tag[a] == q && OkExtent(g, mem[a], q)
  }

  /** Every extent the view needs is held, has the right shape and serves one position only. */
  ghost predicate OkView(g: Geo, mem: Mem, tag: Tags, v: View)
    requires GeoOk(g)
  {
    && v.count <= End(g, Root)
    && forall q :: Covers(g, v.count, q) ==> OkAt(g, mem, tag, v, q)
  }

  function BlockAt(g: Geo, mem: Mem, v: View, id: nat): Block
    requires GeoOk(g)
  {
    var a := At(g, mem, v, LeafOf(g, id));
    if a in mem && mem[a].Data? && id % g.n < |mem[a].blocks| then mem[a].blocks[id % g.n] else 0
  }

  /** What a reader of the view sees, block by block. */
  ghost function Contents(g: Geo, mem: Mem, v: View): (s: seq<Block>)
    requires GeoOk(g)
    ensures |s| == v.count
  {
    seq(v.count, id requires id >= 0 => BlockAt(g, mem, v, id))
  }

  ghost predicate Share(g: Geo, mem: Mem, v: View, w: View, q: Pos)
    requires GeoOk(g)
  {
    && Covers(g, v.count, q) && Covers(g, w.count, q)
    && At(g, mem, v, q) == At(g, mem, w, q)
  }

  // ---------- the sharing invariant of the chain, oldest view first, head last ----------

  ghost predicate OkViews(g: Geo, mem: Mem, tag: Tags, chain: seq<View>)
    requires GeoOk(g)
  {
    forall k :: 0 <= k < |chain| ==> OkView(g, mem, tag, chain[k])
  }

  /** An extent shared by two views is shared by every view between them. */
  ghost predicate Contiguous(g: Geo, mem: Mem, chain: seq<View>)
    requires GeoOk(g)
  {
    forall a, b, c, q :: 0 <= a < b < c < |chain| && Share(g, mem, chain[a], chain[c], q) ==>
                           Share(g, mem, chain[a], chain[b], q)
  }

  /** Of two views that share an extent, the newer has every block of it that the older has. */
  ghost predicate Growing(g: Geo, mem: Mem, chain: seq<View>)
    requires GeoOk(g)
  {
    forall a, c, q :: 0 <= a < c < |chain| && Share(g, mem, chain[a], chain[c], q) ==>
                        chain[a].count <= chain[c].count || End(g, q) <= chain[c].count
  }

  function Last(views: seq<View>): View
    requires views != []
  {
    views[|views| - 1]
  }

  function Chain(views: seq<View>, head: View): seq<View> { views + [head] }

  /** The invariant, short of the head having every block of the extents it shares. */
  ghost predicate Core(g: Geo, mem: Mem, tag: Tags, views: seq<View>, head: View) {
    && GeoOk(g)
    && OkViews(g, mem, tag, views) && OkView(g, mem, tag, head)
    && Contiguous(g, mem, Chain(views, head))
    && Growing(g, mem, views)
  }

  ghost predicate HeadGrowing(g: Geo, mem: Mem, views: seq<View>, head: View)
    requires GeoOk(g)
  {
    forall k, q :: 0 <= k < |views| && Share(g, mem, views[k], head, q) ==>
                     views[k].count <= head.count || End(g, q) <= head.count
  }

  ghost predicate Inv(g: Geo, mem: Mem, tag: Tags, views: seq<View>, head: View) {
    Core(g, mem, tag, views, head) && HeadGrowing(g, mem, views, head)
  }

  /** No view that has block id shares with w any extent on the way to it. */
  ghost predicate Writable(g: Geo, mem: Mem, views: seq<View>, w: View, id: nat)
    requires GeoOk(g)
  {
    forall k, q :: 0 <= k < |views| && OnPath(g, id, q) && Share(g, mem, views[k], w, q) ==>
                     views[k].count <= id
  }

  // ---------- which extents are reached ----------

  ghost predicate Reaches(g: Geo, mem: Mem, tag: Tags, v: View, a: Addr)
    requires GeoOk(g)
  {
    a in tag && Covers(g, v.count, tag[a]) && At(g, mem, v, tag[a]) == a
  }

  ghost predicate Reached(g: Geo, mem: Mem, tag: Tags, chain: seq<View>, a: Addr)
    requires GeoOk(g)
  {
    exists k :: 0 <= k < |chain| && Reaches(g, mem, tag, chain[k], a)
  }

  /** Every held extent is reached from some view, except exactly the given ones. */
  ghost predicate Accounted(g: Geo, mem: Mem, tag: Tags, chain: seq<View>, extra: set<Addr>)
    requires GeoOk(g)
  {
    && tag.Keys == mem.Keys
    && extra <= mem.Keys
    && forall a :: a in mem ==> (Reached(g, mem, tag, chain, a) <==> a !in extra)
  }

  // ---------- frames: changes of memory that a view does not notice ----------

  /** The view sees the same tree and the same blocks in both memories. */
  ghost predicate SameView(g: Geo, mem: Mem, mem': Mem, v: View)
    requires GeoOk(g)
  {
    && (forall q :: Covers(g, v.count, q) ==> At(g, mem', v, q) == At(g, mem, v, q))
    && Contents(g, mem', v) == Contents(g, mem, v)
  }

  lemma CoversLeaf(g: Geo, count: nat, id: nat)
    requires GeoOk(g) && id < count
    ensures Covers(g, count, LeafOf(g, id))
  {
    SplitId(g, id);
  }

  /** Memory that keeps every extent of the view as it is. */
  lemma AgreeFrame(g: Geo, mem: Mem, mem': Mem, tag: Tags, tag': Tags, v: View)
    requires GeoOk(g) && OkView(g, mem, tag, v)
    requires forall q :: Covers(g, v.count, q) ==>
                           var a := At(g, mem, v, q);
                           a in mem' && mem'[a] == mem[a] && a in tag' && tag'[a] == tag[a]
    ensures SameView(g, mem, mem', v) && OkView(g, mem', tag', v)
  {
    forall q | Covers(g, v.count, q)
      ensures At(g, mem', v, q) == At(g, mem, v, q)
    {
      CoveredFits(g, v.count, q);
      if q != Root {
        assert Covers(g, v.count, Root) && At(g, mem, v, Root) == v.root;
        if q.Leaf? {
          var m := Mid(q.j / g.p);
          assert Covers(g, v.count, m);
          assert At(g, mem', v, m) == At(g, mem, v, m);
        }
      }
    }
    SameBlocks(g, mem, mem', tag, v);
  }

  lemma SameBlocks(g: Geo, mem: Mem, mem': Mem, tag: Tags, v: View)
    requires GeoOk(g) && OkView(g, mem, tag, v)
    requires forall q :: Covers(g, v.count, q) ==> At(g, mem', v, q) == At(g, mem, v, q)
    requires forall q :: Covers(g, v.count, q) && q.Leaf? ==>
                           At(g, mem, v, q) in mem' && mem'[At(g, mem, v, q)] == mem[At(g, mem, v, q)]
    ensures Contents(g, mem', v) == Contents(g, mem, v)
  {
    forall id | 0 <= id < v.count
      ensures BlockAt(g, mem', v, id) == BlockAt(g, mem, v, id)
    {
      CoversLeaf(g, v.count, id);
    }
  }

  /** Storing to slot k of table x, when the view does not use that slot. */
  lemma SlotFrame(g: Geo, mem: Mem, tag: Tags, v: View, x: Addr, k: nat, y: Addr)
    requires GeoOk(g) && OkView(g, mem, tag, v)
    requires x in mem && mem[x].Table? && k < |mem[x].slots| == g.p && x in tag && !tag[x].Leaf?
    requires !(Reaches(g, mem, tag, v, x) && Covers(g, v.count, Child(g, tag[x], k)))
    ensures var mem' := mem[x := Table(mem[x].slots[k := y])];
            SameView(g, mem, mem', v) && OkView(g, mem', tag, v)
  {
    var mem' := mem[x := Table(mem[x].slots[k := y])];
    forall q | Covers(g, v.count, q)
      ensures At(g, mem', v, q) == At(g, mem, v, q)
    {
      SlotFrameAt(g, mem, tag, v, x, k, y, q);
    }
    forall q | Covers(g, v.count, q)
      ensures OkAt(g, mem', tag, v, q)
    {
      assert OkAt(g, mem, tag, v, q);
    }
    SameBlocks(g, mem, mem', tag, v);
  }

  lemma SlotFrameAt(g: Geo, mem: Mem, tag: Tags, v: View, x: Addr, k: nat, y: Addr, q: Pos)
    requires GeoOk(g) && OkView(g, mem, tag, v) && Covers(g, v.count, q)
    requires x in mem && mem[x].Table? && k < |mem[x].slots| == g.p && x in tag && !tag[x].Leaf?
    requires !(Reaches(g, mem, tag, v, x) && Covers(g, v.count, Child(g, tag[x], k)))
    ensures At(g, mem[x := Table(mem[x].slots[k := y])], v, q) == At(g, mem, v, q)
    decreases q.Leaf?
  {
    CoveredFits(g, v.count, q);
    assert Covers(g, v.count, Root);
    assert OkAt(g, mem, tag, v, Root);
    match q
    case Root =>
    case Mid(i) =>
      assert Child(g, Root, i) == q;
    case Leaf(j) =>
      var m := Mid(j / g.p);
      SlotFrameAt(g, mem, tag, v, x, k, y, m);
      assert OkAt(g, mem, tag, v, m);
      assert Child(g, m, j % g.p) == q;
  }

  lemma SameId(n: nat, i: nat, id: nat)
    requires n > 0
    ensures i / n == id / n && i % n == id % n ==> i == id
    ensures i / n == id / n && i < id ==> i % n < id % n
  {
  }

  /** Storing block id of extent x, when the view has no block id there. */
  lemma BlockFrame(g: Geo, mem: Mem, tag: Tags, v: View, x: Addr, id: nat, b: Block)
    requires GeoOk(g) && OkView(g, mem, tag, v)
    requires x in mem && mem[x].Data? && |mem[x].blocks| == g.n && x in tag && tag[x] == LeafOf(g, id)
    requires Reaches(g, mem, tag, v, x) ==> v.count <= id
    ensures var mem' := mem[x := Data(mem[x].blocks[id % g.n := b])];
            SameView(g, mem, mem', v) && OkView(g, mem', tag, v)
  {
    var mem' := mem[x := Data(mem[x].blocks[id % g.n := b])];
    TablesUntouched(g, mem, mem', tag, v, x);
    forall i | 0 <= i < v.count
      ensures BlockAt(g, mem', v, i) == BlockAt(g, mem, v, i)
    {
      CoversLeaf(g, v.count, i);
      var q := LeafOf(g, i);
      assert OkAt(g, mem, tag, v, q);
      if At(g, mem, v, q) == x {
        assert Reaches(g, mem, tag, v, x);
        SameId(g.n, i, id);
      }
    }
  }

  lemma TablesUntouched(g: Geo, mem: Mem, mem': Mem, tag: Tags, v: View, x: Addr)
    requires GeoOk(g) && OkView(g, mem, tag, v)
    requires x in mem && x in tag && tag[x].Leaf? && x in mem'
    requires mem' == mem[x := mem'[x]] && OkExtent(g, mem'[x], tag[x])
    ensures forall q :: Covers(g, v.count, q) ==> At(g, mem', v, q) == At(g, mem, v, q)
    ensures OkView(g, mem', tag, v)
  {
    forall q | Covers(g, v.count, q)
      ensures At(g, mem', v, q) == At(g, mem, v, q) && OkAt(g, mem', tag, v, q)
    {
      CoveredFits(g, v.count, q);
      assert OkAt(g, mem, tag, v, q);
      assert OkAt(g, mem, tag, v, Root) by { assert Covers(g, v.count, Root); }
      if q.Leaf? { assert OkAt(g, mem, tag, v, Mid(q.j / g.p)); }
    }
  }

  // ---------- steps ----------

  /** All views in the list see the same in both memories. */
  ghost predicate SameViews(g: Geo, mem: Mem, mem': Mem, views: seq<View>)
    requires GeoOk(g)
  {
    forall k :: 0 <= k < |views| ==> SameView(g, mem, mem', views[k])
  }

  /** Each view reads what was put down for it. */
  ghost predicate AsSnapped(g: Geo, mem: Mem, views: seq<View>, snaps: seq<seq<Block>>)
    requires GeoOk(g)
  {
    |snaps| == |views| && forall k :: 0 <= k < |views| ==> Contents(g, mem, views[k]) == snaps[k]
  }

  lemma KeepSnapped(g: Geo, mem: Mem, mem': Mem, views: seq<View>, snaps: seq<seq<Block>>)
    requires GeoOk(g) && AsSnapped(g, mem, views, snaps) && SameViews(g, mem, mem', views)
    ensures AsSnapped(g, mem', views, snaps)
  {
    forall k | 0 <= k < |views|
      ensures Contents(g, mem', views[k]) == snaps[k]
    {
      assert SameView(g, mem, mem', views[k]);
    }
  }

  /** A change that old views do not notice, and that gives the head no new sharing. */
  lemma HeadStep(g: Geo, mem: Mem, mem': Mem, tag: Tags, tag': Tags, views: seq<View>, head: View, head': View)
    requires Core(g, mem, tag, views, head)
    requires SameViews(g, mem, mem', views) && OkViews(g, mem', tag', views)
    requires OkView(g, mem', tag', head')
    requires forall k, q :: 0 <= k < |views| && Share(g, mem', views[k], head', q) ==>
                              Share(g, mem, views[k], head, q)
    ensures Core(g, mem', tag', views, head')
  {
    var c0, c1 := Chain(views, head), Chain(views, head');
    forall a, b, c, q | 0 <= a < b < c < |c1| && Share(g, mem', c1[a], c1[c], q)
      ensures Share(g, mem', c1[a], c1[b], q)
    {
      assert c1[a] == views[a] == c0[a] && c1[b] == views[b] == c0[b];
      assert Share(g, mem, c0[a], c0[c], q);
      assert Share(g, mem, c0[a], c0[b], q);
    }
    forall a, c, q | 0 <= a < c < |views| && Share(g, mem', views[a], views[c], q)
      ensures views[a].count <= views[c].count || End(g, q) <= views[c].count
    {
      assert Share(g, mem, views[a], views[c], q);
    }
  }

  /** If any view shares with the head, the newest view does, and it has as many of the blocks. */
  lemma NewestShares(g: Geo, mem: Mem, tag: Tags, views: seq<View>, head: View, k: nat, q: Pos)
    requires Core(g, mem, tag, views, head) && k < |views| && Share(g, mem, views[k], head, q)
    ensures var w := Last(views);
            Share(g, mem, w, head, q) && (views[k].count <= w.count || End(g, q) <= w.count)
  {
    var c := Chain(views, head);
    var l := |views| - 1;
    if k < l {
      assert Share(g, mem, c[k], c[|views|], q);
      assert Share(g, mem, c[k], c[l], q);
      assert Share(g, mem, views[k], views[l], q);
    }
  }

  ghost predicate Private(g: Geo, mem: Mem, views: seq<View>, head: View, q: Pos)
    requires GeoOk(g)
  {
    forall k :: 0 <= k < |views| ==> !Share(g, mem, views[k], head, q)
  }

  /** Comparing with the newest view alone tells whether the head's extent is its own. */
  lemma PrivateByNewest(g: Geo, mem: Mem, tag: Tags, views: seq<View>, head: View, q: Pos)
    requires Core(g, mem, tag, views, head)
    requires views != [] ==> !Share(g, mem, Last(views), head, q)
    ensures Private(g, mem, views, head, q)
  {
    forall k | 0 <= k < |views|
      ensures !Share(g, mem, views[k], head, q)
    {
      if Share(g, mem, views[k], head, q) {
        NewestShares(g, mem, tag, views, head, k, q);
      }
    }
  }

  function Store(mem: Mem, x: Addr, k: nat, y: Addr): Mem
    requires x in mem && mem[x].Table? && k < |mem[x].slots|
  {
    mem[x := Table(mem[x].slots[k := y])]
  }

  /** Adding a fresh extent is noticed by no view. */
  lemma FreshFrame(g: Geo, mem: Mem, tag: Tags, v: View, y: Addr, e: Extent, q: Pos)
    requires GeoOk(g) && OkView(g, mem, tag, v) && y !in mem
    ensures SameView(g, mem, mem[y := e], v) && OkView(g, mem[y := e], tag[y := q], v)
  {
    forall r | Covers(g, v.count, r)
      ensures var a := At(g, mem, v, r); a in mem && a != y && a in tag
    {
      assert OkAt(g, mem, tag, v, r);
    }
    AgreeFrame(g, mem, mem[y := e], tag, tag[y := q], v);
  }

  lemma ParentCovered(g: Geo, count: nat, q: Pos)
    requires GeoOk(g) && count <= End(g, Root) && Covers(g, count, q)
    ensures Covers(g, count, Up(g, q)) && SlotOf(g, q) < g.p
    ensures q != Root ==> Child(g, Up(g, q), SlotOf(g, q)) == q
  {
    CoveredFits(g, count, q);
  }

  /** The head after copying its extent at q to the fresh address y: memory. */
  function CopyMem(g: Geo, mem: Mem, head: View, q: Pos, y: Addr): Mem
    requires GeoOk(g) && At(g, mem, head, q) in mem && y !in mem
    requires q != Root ==> var x := At(g, mem, head, Up(g, q));
                           x in mem && mem[x].Table? && SlotOf(g, q) < |mem[x].slots|
  {
    var mem1 := mem[y := mem[At(g, mem, head, q)]];
    if q == Root then mem1 else Store(mem1, At(g, mem, head, Up(g, q)), SlotOf(g, q), y)
  }

  function CopyHead(head: View, q: Pos, y: Addr): View {
    if q == Root then head.(root := y) else head
  }

  lemma CopyAt(g: Geo, mem: Mem, tag: Tags, head: View, q: Pos, y: Addr, r: Pos)
    requires GeoOk(g) && OkView(g, mem, tag, head) && y !in mem && tag.Keys == mem.Keys
    requires Covers(g, head.count, q) && Covers(g, head.count, r)
    requires OkAt(g, mem, tag, head, q) && OkAt(g, mem, tag, head, Up(g, q)) && SlotOf(g, q) < g.p
    ensures At(g, CopyMem(g, mem, head, q, y), CopyHead(head, q, y), r) ==
            if r == q then y else At(g, mem, head, r)
    decreases r.Leaf?
  {
    var mem', head' := CopyMem(g, mem, head, q, y), CopyHead(head, q, y);
    ParentCovered(g, head.count, q);
    ParentCovered(g, head.count, r);
    assert OkAt(g, mem, tag, head, r) && OkAt(g, mem, tag, head, Up(g, r));
    if r.Leaf? {
      var m := Mid(r.j / g.p);
      CopyAt(g, mem, tag, head, q, y, m);
      assert At(g, mem', head', r) == Slot(mem', At(g, mem', head', m), r.j % g.p);
      assert r.j == (r.j / g.p) * g.p + r.j % g.p;
    }
  }

  /** Copying the head's extent at q, once its parent table is the head's own. */
  lemma CopyStep(g: Geo, mem: Mem, tag: Tags, views: seq<View>, head: View, q: Pos, y: Addr)
    requires Core(g, mem, tag, views, head) && y !in mem && tag.Keys == mem.Keys
    requires Covers(g, head.count, q)
    requires OkAt(g, mem, tag, head, q) && OkAt(g, mem, tag, head, Up(g, q)) && SlotOf(g, q) < g.p
    requires q != Root ==> Private(g, mem, views, head, Up(g, q))
    ensures var mem', head', tag' := CopyMem(g, mem, head, q, y), CopyHead(head, q, y), tag[y := q];
            && SameViews(g, mem, mem', views)
            && Core(g, mem', tag', views, head')
            && Contents(g, mem', head') == Contents(g, mem, head)
            && (forall r :: Covers(g, head.count, r) ==>
                              At(g, mem', head', r) == if r == q then y else At(g, mem, head, r))
            && (forall k, r :: 0 <= k < |views| && Share(g, mem', views[k], head', r) ==>
                                 r != q && Share(g, mem, views[k], head, r))
  {
    var mem', head', tag' := CopyMem(g, mem, head, q, y), CopyHead(head, q, y), tag[y := q];
    forall k | 0 <= k < |views|
      ensures SameView(g, mem, mem', views[k]) && OkView(g, mem', tag', views[k])
    {
      CopyFrame(g, mem, tag, views[k], head, q, y);
    }
    forall r | Covers(g, head.count, r)
      ensures At(g, mem', head', r) == if r == q then y else At(g, mem, head, r)
      ensures OkAt(g, mem', tag', head', r)
    {
      CopyAt(g, mem, tag, head, q, y, r);
      assert OkAt(g, mem, tag, head, r);
    }
    CopyContents(g, mem, tag, head, q, y);
    forall k, r | 0 <= k < |views| && Share(g, mem', views[k], head', r)
      ensures r != q && Share(g, mem, views[k], head, r)
    {
      assert At(g, mem', views[k], r) == At(g, mem, views[k], r);
      assert OkAt(g, mem, tag, views[k], r);
    }
    HeadStep(g, mem, mem', tag, tag', views, head, head');
  }

  lemma CopyFrame(g: Geo, mem: Mem, tag: Tags, v: View, head: View, q: Pos, y: Addr)
    requires GeoOk(g) && OkView(g, mem, tag, v) && OkView(g, mem, tag, head)
    requires y !in mem && tag.Keys == mem.Keys && Covers(g, head.count, q)
    requires OkAt(g, mem, tag, head, q) && OkAt(g, mem, tag, head, Up(g, q)) && SlotOf(g, q) < g.p
    requires q != Root ==> !Share(g, mem, v, head, Up(g, q))
    ensures SameView(g, mem, CopyMem(g, mem, head, q, y), v)
    ensures OkView(g, CopyMem(g, mem, head, q, y), tag[y := q], v)
  {
    var mem1, tag1 := mem[y := mem[At(g, mem, head, q)]], tag[y := q];
    FreshFrame(g, mem, tag, v, y, mem[At(g, mem, head, q)], q);
    if q != Root {
      ParentCovered(g, head.count, q);
      var x := At(g, mem, head, Up(g, q));
      assert !Reaches(g, mem1, tag1, v, x) by {
        if Covers(g, v.count, tag1[x]) {
          assert At(g, mem1, v, tag1[x]) == At(g, mem, v, tag1[x]);
        }
      }
      SlotFrame(g, mem1, tag1, v, x, SlotOf(g, q), y);
    }
  }

  lemma CopyContents(g: Geo, mem: Mem, tag: Tags, head: View, q: Pos, y: Addr)
    requires GeoOk(g) && OkView(g, mem, tag, head) && y !in mem && tag.Keys == mem.Keys
    requires Covers(g, head.count, q)
    requires OkAt(g, mem, tag, head, q) && OkAt(g, mem, tag, head, Up(g, q)) && SlotOf(g, q) < g.p
    ensures Contents(g, CopyMem(g, mem, head, q, y), CopyHead(head, q, y)) == Contents(g, mem, head)
  {
    var mem', head' := CopyMem(g, mem, head, q, y), CopyHead(head, q, y);
    forall id | 0 <= id < head.count
      ensures BlockAt(g, mem', head', id) == BlockAt(g, mem, head, id)
    {
      var r := LeafOf(g, id);
      CoversLeaf(g, head.count, id);
      CopyAt(g, mem, tag, head, q, y, r);
      assert OkAt(g, mem, tag, head, r);
    }
  }

  /** A copied extent keeps the accounts when a view still has the original. */
  lemma CopyAccounted(g: Geo, mem: Mem, tag: Tags, views: seq<View>, head: View, q: Pos, y: Addr, extra: set<Addr>)
    requires Core(g, mem, tag, views, head) && y !in mem
    requires Covers(g, head.count, q)
    requires OkAt(g, mem, tag, head, q) && OkAt(g, mem, tag, head, Up(g, q)) && SlotOf(g, q) < g.p
    requires q != Root ==> Private(g, mem, views, head, Up(g, q))
    requires views != [] && Share(g, mem, Last(views), head, q)
    requires Accounted(g, mem, tag, Chain(views, head), extra)
    ensures var mem', head', tag' := CopyMem(g, mem, head, q, y), CopyHead(head, q, y), tag[y := q];
            Accounted(g, mem', tag', Chain(views, head'), extra)
  {
    var mem', head', tag' := CopyMem(g, mem, head, q, y), CopyHead(head, q, y), tag[y := q];
    var c0, c1 := Chain(views, head), Chain(views, head');
    var h := |views|;
    CopyStep(g, mem, tag, views, head, q, y);
    assert Reaches(g, mem', tag', c1[h], y);
    forall a | a in mem
      ensures Reached(g, mem', tag', c1, a) <==> Reached(g, mem, tag, c0, a)
    {
      CopyReached(g, mem, mem', tag, views, head, head', q, y, a);
    }
  }

  lemma CopyReached(g: Geo, mem: Mem, mem': Mem, tag: Tags, views: seq<View>, head: View, head': View, q: Pos,
                    y: Addr, a: Addr)
    requires GeoOk(g) && a in mem && y !in mem && tag.Keys == mem.Keys && head'.count == head.count
    requires SameViews(g, mem, mem', views)
    requires forall r :: Covers(g, head.count, r) ==>
                           At(g, mem', head', r) == if r == q then y else At(g, mem, head, r)
    requires views != [] && Share(g, mem, Last(views), head, q)
    ensures Reached(g, mem', tag[y := q], Chain(views, head'), a) <==> Reached(g, mem, tag, Chain(views, head), a)
  {
    var tag', c0, c1, h := tag[y := q], Chain(views, head), Chain(views, head'), |views|;
    assert SameView(g, mem, mem', views[h - 1]);
    if Reached(g, mem, tag, c0, a) {
      var k :| 0 <= k < |c0| && Reaches(g, mem, tag, c0[k], a);
      if k < h {
        assert SameView(g, mem, mem', views[k]);
        assert Reaches(g, mem', tag', c1[k], a);
      } else if tag[a] == q {
        assert Reaches(g, mem', tag', c1[h - 1], a);
      } else {
        assert Reaches(g, mem', tag', c1[h], a);
      }
    }
    if Reached(g, mem', tag', c1, a) {
      var k :| 0 <= k < |c1| && Reaches(g, mem', tag', c1[k], a);
      if k < h { assert SameView(g, mem, mem', views[k]); }
      assert Reaches(g, mem, tag, c0[k], a);
    }
  }

  lemma HeadAt(g: Geo, mem: Mem, tag: Tags, views: seq<View>, head: View, q: Pos)
    requires Core(g, mem, tag, views, head) && Covers(g, head.count, q)
    ensures OkAt(g, mem, tag, head, q) && OkAt(g, mem, tag, head, Up(g, q)) && SlotOf(g, q) < g.p
  {
    ParentCovered(g, head.count, q);
  }

  /** Everything a copy of the extent at q keeps, for a head that shared it with the newest view. */
  lemma OwnStep(g: Geo, mem: Mem, tag: Tags, views: seq<View>, head: View, q: Pos, y: Addr, extra: set<Addr>)
    requires Core(g, mem, tag, views, head) && y !in mem
    requires Covers(g, head.count, q) && SlotOf(g, q) < g.p
    requires OkAt(g, mem, tag, head, q) && OkAt(g, mem, tag, head, Up(g, q))
    requires views != [] && Share(g, mem, Last(views), head, q)
    requires q != Root ==> !Share(g, mem, Last(views), head, Up(g, q))
    requires Accounted(g, mem, tag, Chain(views, head), extra)
    ensures var mem', head', tag' := CopyMem(g, mem, head, q, y), CopyHead(head, q, y), tag[y := q];
            && SameViews(g, mem, mem', views)
            && Core(g, mem', tag', views, head')
            && Accounted(g, mem', tag', Chain(views, head'), extra)
            && Contents(g, mem', head') == Contents(g, mem, head)
            && (HeadGrowing(g, mem, views, head) ==> HeadGrowing(g, mem', views, head'))
            && (forall id :: Writable(g, mem, views, head, id) ==> Writable(g, mem', views, head', id))
            && (forall r :: Share(g, mem', Last(views), head', r) <==>
                              r != q && Share(g, mem, Last(views), head, r))
  {
    if q != Root {
      PrivateByNewest(g, mem, tag, views, head, Up(g, q));
    }
    CopyStep(g, mem, tag, views, head, q, y);
    CopyAccounted(g, mem, tag, views, head, q, y, extra);
  }

  // ---------- when a block of the head may be written ----------

  /** The test in matras_needs_touch. */
  predicate NeedsTouch(g: Geo, views: seq<View>, id: nat)
    requires GeoOk(g)
  {
    views != [] && Last(views).count > 0 && id / g.n <= (Last(views).count - 1) / g.n
  }

  /** How many levels the head shares with the newest view on the way to a block, if the test for a
      touch asks for one. */
  ghost function SharedOnPath(g: Geo, mem: Mem, views: seq<View>, head: View, id: nat): nat
    requires GeoOk(g)
  {
    if !NeedsTouch(g, views, id) then 0 else
      (if Share(g, mem, Last(views), head, Root) then 1 else 0)
      + (if Share(g, mem, Last(views), head, MidOf(g, id)) then 1 else 0)
      + (if Share(g, mem, Last(views), head, LeafOf(g, id)) then 1 else 0)
  }

  lemma ShorterPath(g: Geo, mem: Mem, views: seq<View>, head: View, id: nat, count: nat)
    requires GeoOk(g) && id < count <= head.count
    ensures SharedOnPath(g, mem, views, head.(count := count), id) == SharedOnPath(g, mem, views, head, id)
  {
    SplitId(g, id);
  }

  lemma NeedsTouchCovers(g: Geo, views: seq<View>, id: nat)
    requires GeoOk(g) && views != []
    ensures NeedsTouch(g, views, id) <==> Covers(g, Last(views).count, LeafOf(g, id))
  {
    var c := Last(views).count;
    var j := id / g.n;
    if c > 0 {
      var l := (c - 1) / g.n;
      assert c - 1 == l * g.n + (c - 1) % g.n;
      if j <= l { MulMono(j, l, g.n); }
      if l < j { MulMono(l + 1, j, g.n); assert (l + 1) * g.n == l * g.n + g.n; }
    }
  }

  /** When the test says no, or the newest view has no such block, the block is free to write. */
  lemma NotNeededWritable(g: Geo, mem: Mem, tag: Tags, views: seq<View>, head: View, id: nat)
    requires Core(g, mem, tag, views, head)
    requires !NeedsTouch(g, views, id) || Last(views).count <= id
    ensures Writable(g, mem, views, head, id)
  {
    SplitId(g, id);
    forall k, q | 0 <= k < |views| && OnPath(g, id, q) && Share(g, mem, views[k], head, q)
      ensures views[k].count <= id
    {
      NewestShares(g, mem, tag, views, head, k, q);
      NeedsTouchCovers(g, views, id);
    }
  }

  /** A block all of whose extents are the head's own is free to write. */
  lemma PrivateWritable(g: Geo, mem: Mem, views: seq<View>, head: View, id: nat)
    requires GeoOk(g)
    requires Private(g, mem, views, head, Root)
    requires Private(g, mem, views, head, MidOf(g, id))
    requires Private(g, mem, views, head, LeafOf(g, id))
    ensures Writable(g, mem, views, head, id)
  {
    forall k, q | 0 <= k < |views| && OnPath(g, id, q) && Share(g, mem, views[k], head, q)
      ensures false
    {
      OnPathUnique(g, id, q);
    }
  }

  /** The three positions a touch of block id goes through are covered on both sides. */
  lemma TouchPath(g: Geo, mem: Mem, tag: Tags, views: seq<View>, head: View, id: nat)
    requires Core(g, mem, tag, views, head) && id < head.count && NeedsTouch(g, views, id)
    ensures Up(g, LeafOf(g, id)) == MidOf(g, id)
    ensures forall v :: v == head || v == Last(views) ==>
                          && Covers(g, v.count, Root) && Covers(g, v.count, MidOf(g, id))
                          && Covers(g, v.count, LeafOf(g, id))
  {
    SplitId(g, id);
    CoversLeaf(g, head.count, id);
    NeedsTouchCovers(g, views, id);
    CoveredFits(g, head.count, LeafOf(g, id));
    assert OkView(g, mem, tag, Last(views));
    CoveredFits(g, Last(views).count, LeafOf(g, id));
  }

  lemma OwnedWritable(g: Geo, mem: Mem, tag: Tags, views: seq<View>, head: View, id: nat)
    requires Core(g, mem, tag, views, head) && views != []
    requires !Share(g, mem, Last(views), head, Root)
    requires !Share(g, mem, Last(views), head, MidOf(g, id))
    requires !Share(g, mem, Last(views), head, LeafOf(g, id))
    ensures Writable(g, mem, views, head, id)
  {
    PrivateByNewest(g, mem, tag, views, head, Root);
    PrivateByNewest(g, mem, tag, views, head, MidOf(g, id));
    PrivateByNewest(g, mem, tag, views, head, LeafOf(g, id));
    PrivateWritable(g, mem, views, head, id);
  }

  /** A write to a free block changes that block of the head and nothing else anywhere. */
  lemma WriteStep(g: Geo, mem: Mem, tag: Tags, views: seq<View>, head: View, extra: set<Addr>, id: nat, b: Block)
    requires Inv(g, mem, tag, views, head) && id < head.count && Writable(g, mem, views, head, id)
    requires Accounted(g, mem, tag, Chain(views, head), extra)
    ensures var x := At(g, mem, head, LeafOf(g, id));
            && OkAt(g, mem, tag, head, LeafOf(g, id))
            && var mem' := mem[x := Data(mem[x].blocks[id % g.n := b])];
            && SameViews(g, mem, mem', views)
            && Inv(g, mem', tag, views, head)
            && Accounted(g, mem', tag, Chain(views, head), extra)
            && Contents(g, mem', head) == Contents(g, mem, head)[id := b]
            && forall i :: Writable(g, mem, views, head, i) ==> Writable(g, mem', views, head, i)
  {
    CoversLeaf(g, head.count, id);
    var q := LeafOf(g, id);
    var x := At(g, mem, head, q);
    assert OkAt(g, mem, tag, head, q);
    var mem' := mem[x := Data(mem[x].blocks[id % g.n := b])];
    SplitId(g, id);
    forall k | 0 <= k < |views|
      ensures SameView(g, mem, mem', views[k]) && OkView(g, mem', tag, views[k])
    {
      assert Reaches(g, mem, tag, views[k], x) ==> Share(g, mem, views[k], head, q);
      BlockFrame(g, mem, tag, views[k], x, id, b);
    }
    TablesUntouched(g, mem, mem', tag, head, x);
    HeadStep(g, mem, mem', tag, tag, views, head, head);
    WriteAccounted(g, mem, mem', tag, views, head, extra);
    WriteContents(g, mem, tag, head, id, b);
    forall i | Writable(g, mem, views, head, i) ensures Writable(g, mem', views, head, i) {
      SameShares(g, mem, mem', views, head, i);
    }
  }

  /** A block stays free to write when neither the views nor the head are led elsewhere. */
  lemma SameShares(g: Geo, mem: Mem, mem': Mem, views: seq<View>, head: View, i: nat)
    requires GeoOk(g) && SameViews(g, mem, mem', views) && Writable(g, mem, views, head, i)
    requires forall r :: Covers(g, head.count, r) ==> At(g, mem', head, r) == At(g, mem, head, r)
    ensures Writable(g, mem', views, head, i)
  {
    forall k, r | 0 <= k < |views| && OnPath(g, i, r) && Share(g, mem', views[k], head, r) ensures views[k].count <= i {
      assert SameView(g, mem, mem', views[k]);
      assert Share(g, mem, views[k], head, r);
    }
  }

  lemma WriteContents(g: Geo, mem: Mem, tag: Tags, head: View, id: nat, b: Block)
    requires GeoOk(g) && OkView(g, mem, tag, head) && id < head.count
    requires OkAt(g, mem, tag, head, LeafOf(g, id))
    ensures var x := At(g, mem, head, LeafOf(g, id));
            var mem' := mem[x := Data(mem[x].blocks[id % g.n := b])];
            Contents(g, mem', head) == Contents(g, mem, head)[id := b]
  {
    var x := At(g, mem, head, LeafOf(g, id));
    var mem' := mem[x := Data(mem[x].blocks[id % g.n := b])];
    TablesUntouched(g, mem, mem', tag, head, x);
    forall i | 0 <= i < head.count
      ensures BlockAt(g, mem', head, i) == if i == id then b else BlockAt(g, mem, head, i)
    {
      CoversLeaf(g, head.count, i);
      assert OkAt(g, mem, tag, head, LeafOf(g, i));
      SameId(g.n, i, id);
    }
  }

  lemma WriteAccounted(g: Geo, mem: Mem, mem': Mem, tag: Tags, views: seq<View>, head: View, extra: set<Addr>)
    requires GeoOk(g) && Accounted(g, mem, tag, Chain(views, head), extra) && mem'.Keys == mem.Keys
    requires SameViews(g, mem, mem', views)
    requires forall q :: Covers(g, head.count, q) ==> At(g, mem', head, q) == At(g, mem, head, q)
    ensures Accounted(g, mem', tag, Chain(views, head), extra)
  {
    var chain := Chain(views, head);
    forall a, k | a in mem && 0 <= k < |chain|
      ensures Reaches(g, mem', tag, chain[k], a) <==> Reaches(g, mem, tag, chain[k], a)
    {
      if k < |views| { assert SameView(g, mem, mem', views[k]); }
    }
    forall a | a in mem
      ensures Reached(g, mem', tag, chain, a) <==> Reached(g, mem, tag, chain, a)
    {
      if k :| 0 <= k < |chain| && Reaches(g, mem, tag, chain[k], a) {
        assert Reaches(g, mem', tag, chain[k], a);
      }
      if k :| 0 <= k < |chain| && Reaches(g, mem', tag, chain[k], a) {
        assert Reaches(g, mem, tag, chain[k], a);
      }
    }
  }

  // ---------- growing and shrinking the head ----------

  lemma ExtraHeld(g: Geo, mem: Mem, tag: Tags, chain: seq<View>, extra: set<Addr>)
    requires GeoOk(g) && Accounted(g, mem, tag, chain, extra)
    ensures extra <= mem.Keys
  {
  }

  /** Views that see the same tree reach the same extents. */
  lemma AccountedSame(g: Geo, mem: Mem, mem': Mem, tag: Tags, chain: seq<View>, extra: set<Addr>)
    requires GeoOk(g) && Accounted(g, mem, tag, chain, extra) && mem'.Keys == mem.Keys
    requires SameViews(g, mem, mem', chain)
    ensures Accounted(g, mem', tag, chain, extra)
  {
    forall a | a in mem
      ensures Reached(g, mem', tag, chain, a) <==> Reached(g, mem, tag, chain, a)
    {
      if k :| 0 <= k < |chain| && Reaches(g, mem, tag, chain[k], a) {
        assert SameView(g, mem, mem', chain[k]);
        assert Reaches(g, mem', tag, chain[k], a);
      }
      if k :| 0 <= k < |chain| && Reaches(g, mem', tag, chain[k], a) {
        assert SameView(g, mem, mem', chain[k]);
        assert Reaches(g, mem, tag, chain[k], a);
      }
    }
  }

  /** A fresh extent that no view has yet. */
  lemma FreshStep(g: Geo, mem: Mem, tag: Tags, views: seq<View>, head: View, extra: set<Addr>, y: Addr, e: Extent,
                  q: Pos)
    requires Inv(g, mem, tag, views, head) && y !in mem
    requires Accounted(g, mem, tag, Chain(views, head), extra)
    ensures var mem', tag' := mem[y := e], tag[y := q];
            && SameViews(g, mem, mem', Chain(views, head))
            && Inv(g, mem', tag', views, head)
            && Accounted(g, mem', tag', Chain(views, head), extra + {y})
  {
    var mem', tag', chain := mem[y := e], tag[y := q], Chain(views, head);
    forall k | 0 <= k < |chain|
      ensures SameView(g, mem, mem', chain[k]) && OkView(g, mem', tag', chain[k])
    {
      assert OkView(g, mem, tag, chain[k]);
      FreshFrame(g, mem, tag, chain[k], y, e, q);
    }
    SameInv(g, mem, mem', tag, tag', views, head);
    forall a | a in mem'
      ensures Reached(g, mem', tag', chain, a) <==> a !in extra + {y}
    {
      if k :| 0 <= k < |chain| && Reaches(g, mem', tag', chain[k], a) {
        assert OkAt(g, mem, tag, chain[k], tag'[a]);
        assert Reaches(g, mem, tag, chain[k], a);
      }
      if a in mem {
        if k :| 0 <= k < |chain| && Reaches(g, mem, tag, chain[k], a) {
          assert SameView(g, mem, mem', chain[k]);
          assert Reaches(g, mem', tag', chain[k], a);
        }
      }
    }
  }

  lemma SameInv(g: Geo, mem: Mem, mem': Mem, tag: Tags, tag': Tags, views: seq<View>, head: View)
    requires Core(g, mem, tag, views, head)
    requires SameViews(g, mem, mem', Chain(views, head))
    requires OkViews(g, mem', tag', Chain(views, head))
    ensures Core(g, mem', tag', views, head)
    ensures HeadGrowing(g, mem, views, head) ==> HeadGrowing(g, mem', views, head)
  {
    var chain := Chain(views, head);
    assert chain[|views|] == head && SameView(g, mem, mem', head);
    forall k | 0 <= k < |views|
      ensures SameView(g, mem, mem', views[k]) && OkView(g, mem', tag', views[k])
    {
      assert chain[k] == views[k];
    }
    HeadStep(g, mem, mem', tag, tag', views, head, head);
  }

  /** Hooking an extent into a slot that no view uses. */
  lemma LinkStep(g: Geo, mem: Mem, tag: Tags, views: seq<View>, head: View, extra: set<Addr>, x: Addr, k: nat, y: Addr)
    requires Inv(g, mem, tag, views, head)
    requires x in mem && mem[x].Table? && k < |mem[x].slots| == g.p && x in tag && !tag[x].Leaf?
    requires Accounted(g, mem, tag, Chain(views, head), extra)
    requires forall v :: v in Chain(views, head) && Reaches(g, mem, tag, v, x) ==>
                           !Covers(g, v.count, Child(g, tag[x], k))
    ensures var mem' := Store(mem, x, k, y);
            && SameViews(g, mem, mem', Chain(views, head))
            && Inv(g, mem', tag, views, head)
            && Accounted(g, mem', tag, Chain(views, head), extra)
  {
    var mem', chain := Store(mem, x, k, y), Chain(views, head);
    forall i | 0 <= i < |chain|
      ensures SameView(g, mem, mem', chain[i]) && OkView(g, mem', tag, chain[i])
    {
      assert OkView(g, mem, tag, chain[i]) && chain[i] in chain;
      SlotFrame(g, mem, tag, chain[i], x, k, y);
    }
    SameInv(g, mem, mem', tag, tag, views, head);
    AccountedSame(g, mem, mem', tag, chain, extra);
  }

  /** The table over the head's next block has room: nobody uses the slot the next extent goes to. */
  lemma RoomForNext(g: Geo, mem: Mem, tag: Tags, views: seq<View>, head: View, q: Pos, c: Pos)
    requires Inv(g, mem, tag, views, head) && Covers(g, head.count, q) && OnPath(g, head.count, q)
    requires Start(g, c) == head.count
    ensures forall v :: v in Chain(views, head) && Reaches(g, mem, tag, v, At(g, mem, head, q)) ==>
                          !Covers(g, v.count, c)
  {
    assert OkAt(g, mem, tag, head, q);
    forall v | v in Chain(views, head) && Reaches(g, mem, tag, v, At(g, mem, head, q))
      ensures v.count <= head.count
    {
      if v != head {
        var k :| 0 <= k < |views| && views[k] == v;
        assert Share(g, mem, views[k], head, q);
      }
    }
  }

  /** A fresh extent nobody has, hooked into a slot nobody uses: the new memory. */
  function MadeMem(g: Geo, mem: Mem, parent: Addr, q: Pos, y: Addr, e: Extent): Mem
    requires GeoOk(g) && y !in mem
    requires q != Root ==> parent in mem && mem[parent].Table? && SlotOf(g, q) < |mem[parent].slots|
  {
    if q == Root then mem[y := e] else Store(mem[y := e], parent, SlotOf(g, q), y)
  }

  /** A new extent for position q may be hooked into the parent table: no view uses the slot. */
  ghost predicate Linkable(g: Geo, mem: Mem, tag: Tags, views: seq<View>, head: View, parent: Addr, q: Pos)
    requires GeoOk(g)
  {
    && (q == Root ==> head.count == 0)
    && (q != Root ==>
          && parent in mem && parent in tag && tag[parent] == Up(g, q) && OkExtent(g, mem[parent], Up(g, q))
          && SlotOf(g, q) < g.p && Child(g, Up(g, q), SlotOf(g, q)) == q
          && forall v :: v in Chain(views, head) && Reaches(g, mem, tag, v, parent) ==> !Covers(g, v.count, q))
  }

  lemma MakeStep(g: Geo, mem: Mem, tag: Tags, views: seq<View>, head: View, extra: set<Addr>, parent: Addr, q: Pos,
                 y: Addr, e: Extent)
    requires Inv(g, mem, tag, views, head) && y !in mem && Linkable(g, mem, tag, views, head, parent, q)
    requires Accounted(g, mem, tag, Chain(views, head), extra)
    ensures var mem', tag', head' := MadeMem(g, mem, parent, q, y, e), tag[y := q], CopyHead(head, q, y);
            && SameViews(g, mem, mem', views) && Contents(g, mem', head') == Contents(g, mem, head)
            && Inv(g, mem', tag', views, head')
            && Accounted(g, mem', tag', Chain(views, head'), extra + {y})
  {
    var chain := Chain(views, head);
    FreshStep(g, mem, tag, views, head, extra, y, e, q);
    var mem1, tag1 := mem[y := e], tag[y := q];
    assert chain[|views|] == head && forall k :: 0 <= k < |views| ==> chain[k] == views[k];
    if q == Root {
      EmptyHead(g, mem1, tag1, views, head, y, extra + {y});
    } else {
      forall v | v in chain && Reaches(g, mem1, tag1, v, parent)
        ensures !Covers(g, v.count, q)
      {
        var k :| 0 <= k < |chain| && chain[k] == v;
        assert SameView(g, mem, mem1, chain[k]);
        assert Reaches(g, mem, tag, v, parent);
      }
      LinkStep(g, mem1, tag1, views, head, extra + {y}, parent, SlotOf(g, q), y);
      var mem2 := Store(mem1, parent, SlotOf(g, q), y);
      forall k | 0 <= k < |chain|
        ensures SameView(g, mem, mem2, chain[k])
      {
        assert SameView(g, mem, mem1, chain[k]) && SameView(g, mem1, mem2, chain[k]);
      }
    }
  }

  /** An empty head has no extents, whatever its root pointer says. */
  lemma EmptyHead(g: Geo, mem: Mem, tag: Tags, views: seq<View>, head: View, root: Addr, extra: set<Addr>)
    requires Inv(g, mem, tag, views, head) && head.count == 0
    requires Accounted(g, mem, tag, Chain(views, head), extra)
    ensures Inv(g, mem, tag, views, head.(root := root))
    ensures Accounted(g, mem, tag, Chain(views, head.(root := root)), extra)
  {
    var head' := head.(root := root);
    HeadStep(g, mem, mem, tag, tag, views, head, head');
    var c0, c1, h := Chain(views, head), Chain(views, head'), |views|;
    forall a | a in mem
      ensures Reached(g, mem, tag, c1, a) <==> Reached(g, mem, tag, c0, a)
    {
      if k :| 0 <= k < |c0| && Reaches(g, mem, tag, c0[k], a) { assert Reaches(g, mem, tag, c1[k], a); }
      if k :| 0 <= k < |c1| && Reaches(g, mem, tag, c1[k], a) { assert Reaches(g, mem, tag, c0[k], a); }
    }
  }

  /** Which extents begin at block id, and where they hang. */
  lemma FirstBlock(g: Geo, id: nat)
    requires GeoOk(g) && id < End(g, Root)
    ensures var m, l := MidOf(g, id), LeafOf(g, id);
            && m.i < g.p && Up(g, l) == m && SlotOf(g, l) < g.p && SlotOf(g, m) == m.i
            && (BeginsMid(g, id) <==> Start(g, m) == id) && (BeginsLeaf(g, id) <==> Start(g, l) == id)
            && OnPath(g, id, m) && OnPath(g, id, l) && OnPath(g, id, Root)
            && Start(g, m) <= Start(g, l) <= id
            && Child(g, Root, SlotOf(g, m)) == m && Child(g, m, SlotOf(g, l)) == l
    ensures BeginsMid(g, id) ==> BeginsLeaf(g, id)
    ensures id == 0 ==> BeginsMid(g, id)
  {
    SplitId(g, id);
    CoveredFits(g, id + 1, LeafOf(g, id));
  }

  lemma CloseMultiples(x: nat, y: nat, r: nat)
    requires r > 0 && x % r == 0 && y % r == 0 && y <= x < y + r
    ensures x == y
  {
    DivStart(x, r);
    DivStart(y, r);
    if y / r < x / r { MulMono(y / r + 1, x / r, r); }
  }

  /** Ids of a range of r, when r divides both the first id and the extent, begin at most one extent per level. */
  lemma RangeStart(g: Geo, id: nat, r: nat, q: Pos)
    requires GeoOk(g) && r > 0 && id % r == 0 && g.n % r == 0
    requires id <= Start(g, q) < id + r
    ensures Start(g, q) == id
  {
    var t := match q case Root => 0 case Mid(i) => i * g.p case Leaf(j) => j;
    assert Start(g, q) == t * g.n by {
      if q.Mid? { assert q.i * (g.p * g.n) == (q.i * g.p) * g.n; }
    }
    DivStart(g.n, r);
    var w := g.n / r;
    assert t * (w * r) == (t * w) * r;
    DivModUnique(t * g.n, r, t * w, 0);
    CloseMultiples(t * g.n, id, r);
  }

  /** The head takes in new blocks, whose new extents no view has. */
  lemma GrowStep(g: Geo, mem: Mem, tag: Tags, views: seq<View>, head: View, count: nat, extra: set<Addr>,
                 pending: set<Addr>)
    requires Inv(g, mem, tag, views, head) && head.count < count <= End(g, Root)
    requires Accounted(g, mem, tag, Chain(views, head), extra) && pending <= extra
    requires forall q :: Covers(g, count, q) && !Covers(g, head.count, q) ==>
                           OkAt(g, mem, tag, head, q) && At(g, mem, head, q) in pending
    requires forall a :: a in pending ==> Covers(g, count, tag[a]) && At(g, mem, head, tag[a]) == a
    ensures Inv(g, mem, tag, views, head.(count := count))
    ensures Accounted(g, mem, tag, Chain(views, head.(count := count)), extra - pending)
    ensures Contents(g, mem, head.(count := count))[..head.count] == Contents(g, mem, head)
  {
    var head' := head.(count := count);
    var c0, c1 := Chain(views, head), Chain(views, head');
    forall q | Covers(g, count, q)
      ensures At(g, mem, head', q) == At(g, mem, head, q) && OkAt(g, mem, tag, head', q)
    {
      if Covers(g, head.count, q) { assert OkAt(g, mem, tag, head, q); }
    }
    forall k, q | 0 <= k < |views| && Share(g, mem, views[k], head', q)
      ensures Share(g, mem, views[k], head, q)
    {
      if !Covers(g, head.count, q) {
        var a := At(g, mem, head, q);
        assert Reaches(g, mem, tag, c0[k], a);
        assert Reached(g, mem, tag, c0, a);
      }
    }
    HeadStep(g, mem, mem, tag, tag, views, head, head');
    forall a | a in mem
      ensures Reached(g, mem, tag, c1, a) <==> a !in extra - pending
    {
      GrowReached(g, mem, tag, views, head, count, pending, a);
    }
    assert forall id :: 0 <= id < head.count ==> BlockAt(g, mem, head', id) == BlockAt(g, mem, head, id);
  }

  lemma GrowReached(g: Geo, mem: Mem, tag: Tags, views: seq<View>, head: View, count: nat, pending: set<Addr>, a: Addr)
    requires GeoOk(g) && head.count < count && a in mem && tag.Keys == mem.Keys && pending <= mem.Keys
    requires forall q :: Covers(g, count, q) && !Covers(g, head.count, q) ==> At(g, mem, head, q) in pending
    requires forall a :: a in pending ==> Covers(g, count, tag[a]) && At(g, mem, head, tag[a]) == a
    ensures Reached(g, mem, tag, Chain(views, head.(count := count)), a) <==>
            a in pending || Reached(g, mem, tag, Chain(views, head), a)
  {
    var c0, c1, h := Chain(views, head), Chain(views, head.(count := count)), |views|;
    assert forall q :: At(g, mem, c1[h], q) == At(g, mem, c0[h], q);
    if k :| 0 <= k < |c1| && Reaches(g, mem, tag, c1[k], a) {
      assert k < h ==> Reaches(g, mem, tag, c0[k], a);
      assert k == h ==> a in pending || Reaches(g, mem, tag, c0[h], a);
    }
    if k :| 0 <= k < |c0| && Reaches(g, mem, tag, c0[k], a) {
      assert Reaches(g, mem, tag, c1[k], a);
    }
    if a in pending { assert Reaches(g, mem, tag, c1[h], a); }
  }

  /** Blocks just taken in are free to write. */
  lemma GrowWritable(g: Geo, mem: Mem, tag: Tags, views: seq<View>, head: View, count: nat, extra: set<Addr>,
                     pending: set<Addr>, id: nat)
    requires Inv(g, mem, tag, views, head) && head.count <= id < count
    requires Accounted(g, mem, tag, Chain(views, head), extra) && pending <= extra
    requires forall q :: Covers(g, count, q) && !Covers(g, head.count, q) ==>
                           OkAt(g, mem, tag, head, q) && At(g, mem, head, q) in pending
    ensures Writable(g, mem, views, head.(count := count), id)
  {
    var head', c0 := head.(count := count), Chain(views, head);
    forall k, q | 0 <= k < |views| && OnPath(g, id, q) && Share(g, mem, views[k], head', q)
      ensures views[k].count <= id
    {
      assert At(g, mem, head', q) == At(g, mem, head, q);
      if Covers(g, head.count, q) {
        assert Share(g, mem, views[k], head, q);
      } else {
        assert Reaches(g, mem, tag, c0[k], At(g, mem, head, q));
      }
    }
  }

  /** Giving up blocks that begin no extent changes no sharing, though the head may then be
      short of blocks in an extent it shares. */
  lemma PartShrink(g: Geo, mem: Mem, tag: Tags, views: seq<View>, head: View, count: nat, extra: set<Addr>)
    requires Core(g, mem, tag, views, head) && count <= head.count
    requires Accounted(g, mem, tag, Chain(views, head), extra)
    requires forall q :: Covers(g, head.count, q) ==> Covers(g, count, q)
    ensures Core(g, mem, tag, views, head.(count := count))
    ensures Accounted(g, mem, tag, Chain(views, head.(count := count)), extra)
    ensures Contents(g, mem, head.(count := count)) == Contents(g, mem, head)[..count]
  {
    var head' := head.(count := count);
    var c0, c1 := Chain(views, head), Chain(views, head');
    forall q | Covers(g, count, q)
      ensures At(g, mem, head', q) == At(g, mem, head, q) && OkAt(g, mem, tag, head', q)
    {
      assert OkAt(g, mem, tag, head, q);
    }
    HeadStep(g, mem, mem, tag, tag, views, head, head');
    forall a | a in mem
      ensures Reached(g, mem, tag, c1, a) <==> Reached(g, mem, tag, c0, a)
    {
      if k :| 0 <= k < |c0| && Reaches(g, mem, tag, c0[k], a) { assert Reaches(g, mem, tag, c1[k], a); }
      if k :| 0 <= k < |c1| && Reaches(g, mem, tag, c1[k], a) { assert Reaches(g, mem, tag, c0[k], a); }
    }
    assert forall i :: 0 <= i < count ==> BlockAt(g, mem, head', i) == BlockAt(g, mem, head, i);
  }

  /** The extents that begin with block id, by the positions that block splits into. */
  function Begun(g: Geo, mem: Mem, head: View, id: nat): set<Addr>
    requires GeoOk(g)
  {
    (if BeginsLeaf(g, id) then {At(g, mem, head, LeafOf(g, id))} else {})
    + (if BeginsMid(g, id) then {At(g, mem, head, MidOf(g, id))} else {})
    + (if id == 0 then {At(g, mem, head, Root)} else {})
  }

  lemma DroppedAre(g: Geo, mem: Mem, tag: Tags, views: seq<View>, head: View, id: nat)
    requires Core(g, mem, tag, views, head) && id + 1 == head.count
    ensures Dropped(g, mem, tag, head, id) == Begun(g, mem, head, id)
    ensures !BeginsLeaf(g, id) ==> Begun(g, mem, head, id) == {}
  {
    FirstBlock(g, id);
    var m, l := MidOf(g, id), LeafOf(g, id);
    var d := Dropped(g, mem, tag, head, id);
    assert OkAt(g, mem, tag, head, Root) && OkAt(g, mem, tag, head, m) && OkAt(g, mem, tag, head, l);
    assert At(g, mem, head, Root) in d <==> id == 0;
    assert At(g, mem, head, m) in d <==> Start(g, m) == id;
    assert At(g, mem, head, l) in d <==> Start(g, l) == id;
    forall a | a in d
      ensures a in Begun(g, mem, head, id)
    {
      StartOnPath(g, head.count, tag[a]);
      OnPathUnique(g, id, tag[a]);
    }
  }

  /** The newest view has block head.count, and either an extent on its way there is no longer held
      or the head's next block will be stored in the very place the view reads. */
  ghost predicate Damaged(g: Geo, mem: Mem, views: seq<View>, head: View)
    requires GeoOk(g)
  {
    views != [] && head.count < Last(views).count &&
    var v, m, l := Last(views), MidOf(g, head.count), LeafOf(g, head.count);
    if BeginsLeaf(g, head.count) then
      v.root !in mem || At(g, mem, v, m) !in mem || At(g, mem, v, l) !in mem
    else
      var x := At(g, mem, v, l);
      x in mem && OkExtent(g, mem[x], l) && At(g, mem, head, l) == x
  }

  lemma Damage(g: Geo, mem: Mem, tag: Tags, views: seq<View>, head: View, id: nat, mem': Mem, gone: set<Addr>)
    requires GeoOk(g) && OkViews(g, mem, tag, views) && views != [] && id + 1 == head.count <= End(g, Root)
    requires id < Last(views).count && Share(g, mem, Last(views), head, LeafOf(g, id))
    requires mem' == mem - gone
    requires if BeginsLeaf(g, id) then At(g, mem, head, LeafOf(g, id)) in gone else gone == {}
    ensures Damaged(g, mem', views, head.(count := id))
  {
    var v := Last(views);
    assert OkView(g, mem, tag, views[|views| - 1]);
    CoversLeaf(g, v.count, id);
    CoveredFits(g, v.count, LeafOf(g, id));
    assert OkAt(g, mem, tag, v, LeafOf(g, id)) && OkAt(g, mem, tag, v, Root);
  }

  /** After matras_alloc of the head's next block, which begins no extent, and a store of b through
      its pointer, view v reads b there. */
  ghost predicate ReadsNext(g: Geo, mem: Mem, head: View, v: View, b: Block)
    requires GeoOk(g)
  {
    var x := At(g, mem, head, LeafOf(g, head.count));
    x in mem && mem[x].Data? && |mem[x].blocks| == g.n &&
    BlockAt(g, mem[x := Data(mem[x].blocks[head.count % g.n := b])], v, head.count) == b
  }

  /** The user sees it: the newest view reads whatever is stored in the head's next block. */
  lemma DamageShows(g: Geo, mem: Mem, views: seq<View>, head: View, b: Block)
    requires GeoOk(g) && Damaged(g, mem, views, head) && !BeginsLeaf(g, head.count)
    ensures ReadsNext(g, mem, head, Last(views), b)
  {
    var v, l := Last(views), LeafOf(g, head.count);
    var x := At(g, mem, head, l);
    var mem' := mem[x := Data(mem[x].blocks[head.count % g.n := b])];
    assert forall a, k :: Slot(mem', a, k) == Slot(mem, a, k);
    assert At(g, mem', v, l) == At(g, mem, v, l);
  }

  /** What a failed touch costs: the shrunken head is short of a block the newest view has in an
      extent they share, or that extent is gone. */
  lemma UnsafeShrink(g: Geo, mem: Mem, tag: Tags, views: seq<View>, head: View, id: nat, mem': Mem, tag': Tags,
                     gone: set<Addr>)
    requires GeoOk(g) && OkViews(g, mem, tag, views) && views != [] && id + 1 == head.count <= End(g, Root)
    requires id < Last(views).count && Share(g, mem, Last(views), head, LeafOf(g, id))
    requires mem' == mem - gone
    requires if BeginsLeaf(g, id) then At(g, mem, head, LeafOf(g, id)) in gone else gone == {}
    ensures !Core(g, mem', tag', views, head.(count := id)) || !HeadGrowing(g, mem', views, head.(count := id))
  {
    var v, q := Last(views), LeafOf(g, id);
    FirstBlock(g, id);
    if BeginsLeaf(g, id) {
      CoversLeaf(g, v.count, id);
      assert OkView(g, mem, tag, views[|views| - 1]);
      CoveredFits(g, v.count, q);
      assert OkAt(g, mem', tag', v, Root) && OkAt(g, mem', tag', v, Mid(q.j / g.p)) ==>
          At(g, mem', v, q) == At(g, mem, v, q);
    } else {
      assert Share(g, mem', views[|views| - 1], head.(count := id), q);
    }
  }

  /** The head gives up its blocks from id on, once no view can be reading them. */
  lemma ShrinkStep(g: Geo, mem: Mem, tag: Tags, views: seq<View>, head: View, id: nat)
    requires Core(g, mem, tag, views, head) && id < head.count
    requires Writable(g, mem, views, head, id)
    ensures Inv(g, mem, tag, views, head.(count := id))
    ensures Contents(g, mem, head.(count := id)) == Contents(g, mem, head)[..id]
  {
    var head' := head.(count := id);
    forall q | Covers(g, id, q)
      ensures OkAt(g, mem, tag, head', q)
    {
      assert OkAt(g, mem, tag, head, q);
    }
    forall k, q | 0 <= k < |views| && Share(g, mem, views[k], head', q)
      ensures Share(g, mem, views[k], head, q)
      ensures views[k].count <= id || End(g, q) <= id
    {
      assert At(g, mem, head', q) == At(g, mem, head, q);
      assert Share(g, mem, views[k], head, q);
      assert OnPath(g, id, q) || End(g, q) <= id;
    }
    HeadStep(g, mem, mem, tag, tag, views, head, head');
    assert forall i :: 0 <= i < id ==> BlockAt(g, mem, head', i) == BlockAt(g, mem, head, i);
  }

  /** The extents whose first block is id. */
  ghost function Dropped(g: Geo, mem: Mem, tag: Tags, head: View, id: nat): set<Addr>
    requires GeoOk(g)
  {
    set a | a in tag && Reaches(g, mem, tag, head, a) && !Covers(g, id, tag[a])
  }

  lemma ShrinkAccounted(g: Geo, mem: Mem, tag: Tags, views: seq<View>, head: View, id: nat, extra: set<Addr>)
    requires Core(g, mem, tag, views, head) && id + 1 == head.count
    requires Writable(g, mem, views, head, id)
    requires Accounted(g, mem, tag, Chain(views, head), extra)
    ensures Accounted(g, mem, tag, Chain(views, head.(count := id)), extra + Dropped(g, mem, tag, head, id))
    ensures Dropped(g, mem, tag, head, id) !! extra
  {
    var d := Dropped(g, mem, tag, head, id);
    forall a | a in mem
      ensures Reached(g, mem, tag, Chain(views, head.(count := id)), a) <==> a !in extra + d
      ensures a in d ==> a !in extra
    {
      ShrinkReached(g, mem, tag, views, head, id, a);
    }
  }

  lemma ShrinkReached(g: Geo, mem: Mem, tag: Tags, views: seq<View>, head: View, id: nat, a: Addr)
    requires Core(g, mem, tag, views, head) && id + 1 == head.count && a in tag
    requires Writable(g, mem, views, head, id)
    ensures var was, d := Reached(g, mem, tag, Chain(views, head), a), a in Dropped(g, mem, tag, head, id);
            (d ==> was) && (Reached(g, mem, tag, Chain(views, head.(count := id)), a) <==> was && !d)
  {
    var c0, c1, h := Chain(views, head), Chain(views, head.(count := id)), |views|;
    assert At(g, mem, c1[h], tag[a]) == At(g, mem, c0[h], tag[a]);
    if a in Dropped(g, mem, tag, head, id) {
      assert Reaches(g, mem, tag, c0[h], a);
      StartOnPath(g, head.count, tag[a]);
      forall k | 0 <= k < h
        ensures !Reaches(g, mem, tag, views[k], a)
      {
        assert Reaches(g, mem, tag, views[k], a) ==> Share(g, mem, views[k], head, tag[a]);
      }
    } else {
      if k :| 0 <= k < |c0| && Reaches(g, mem, tag, c0[k], a) { assert Reaches(g, mem, tag, c1[k], a); }
      if k :| 0 <= k < |c1| && Reaches(g, mem, tag, c1[k], a) { assert Reaches(g, mem, tag, c0[k], a); }
    }
  }

  /** Giving an extent that no view reaches back to the allocator. */
  lemma FreeStep(g: Geo, mem: Mem, tag: Tags, views: seq<View>, head: View, extra: set<Addr>, f: set<Addr>)
    requires Inv(g, mem, tag, views, head)
    requires Accounted(g, mem, tag, Chain(views, head), extra) && f <= extra
    ensures SameViews(g, mem, mem - f, Chain(views, head))
    ensures Inv(g, mem - f, tag - f, views, head)
    ensures Accounted(g, mem - f, tag - f, Chain(views, head), extra - f)
  {
    var mem', tag', chain := mem - f, tag - f, Chain(views, head);
    forall k | 0 <= k < |chain|
      ensures SameView(g, mem, mem', chain[k]) && OkView(g, mem', tag', chain[k])
    {
      assert OkView(g, mem, tag, chain[k]);
      forall q | Covers(g, chain[k].count, q)
        ensures At(g, mem, chain[k], q) in mem'
      {
        assert OkAt(g, mem, tag, chain[k], q);
        assert Reaches(g, mem, tag, chain[k], At(g, mem, chain[k], q));
      }
      AgreeFrame(g, mem, mem', tag, tag', chain[k]);
    }
    SameInv(g, mem, mem', tag, tag', views, head);
    forall a | a in mem'
      ensures Reached(g, mem', tag', chain, a) <==> Reached(g, mem, tag, chain, a)
    {
      if k :| 0 <= k < |chain| && Reaches(g, mem, tag, chain[k], a) {
        assert SameView(g, mem, mem', chain[k]);
        assert Reaches(g, mem', tag', chain[k], a);
      }
      if k :| 0 <= k < |chain| && Reaches(g, mem', tag', chain[k], a) {
        assert SameView(g, mem, mem', chain[k]);
        assert Reaches(g, mem, tag, chain[k], a);
      }
    }
  }

  /** Giving up the last block, with the extents it began, once it is free to write. */
  lemma DeallocStep(g: Geo, mem: Mem, tag: Tags, views: seq<View>, head: View, id: nat, extra: set<Addr>)
    requires Core(g, mem, tag, views, head) && id + 1 == head.count
    requires Writable(g, mem, views, head, id)
    requires Accounted(g, mem, tag, Chain(views, head), extra)
    ensures var gone, head' := Dropped(g, mem, tag, head, id), head.(count := id);
            && Core(g, mem - gone, tag - gone, views, head') && HeadGrowing(g, mem - gone, views, head')
            && Accounted(g, mem - gone, tag - gone, Chain(views, head'), extra)
            && SameViews(g, mem, mem - gone, views)
            && Contents(g, mem - gone, head') == Contents(g, mem, head)[..id]
  {
    var gone, head' := Dropped(g, mem, tag, head, id), head.(count := id);
    var chain := Chain(views, head');
    ShrinkStep(g, mem, tag, views, head, id);
    ShrinkAccounted(g, mem, tag, views, head, id, extra);
    FreeStep(g, mem, tag, views, head', extra + gone, gone);
    assert extra + gone - gone == extra;
    assert SameView(g, mem, mem - gone, chain[|views|]);
    forall k | 0 <= k < |views|
      ensures SameView(g, mem, mem - gone, views[k])
    {
      assert chain[k] == views[k];
    }
  }

  // ---------- dropping a view ----------

  /** The older neighbour of view k, if it has one, and its newer neighbour. */
  function Older(views: seq<View>, k: nat): Option<View>
    requires k < |views|
  {
    if k == 0 then None else Some(views[k - 1])
  }

  function Newer(views: seq<View>, head: View, k: nat): View
    requires k < |views|
  {
    if k + 1 < |views| then views[k + 1] else head
  }

  /** One of the two neighbours shares the extent at q. */
  ghost predicate Kept(g: Geo, mem: Mem, v: View, older: Option<View>, newer: View, q: Pos)
    requires GeoOk(g)
  {
    Share(g, mem, v, newer, q) || (older.Some? && Share(g, mem, older.value, v, q))
  }

  /** The extents a dropped view's tree is searched for: nothing on the way there is kept. */
  ghost predicate FreedPos(g: Geo, mem: Mem, v: View, older: Option<View>, newer: View, q: Pos)
    requires GeoOk(g)
  {
    && Covers(g, v.count, q)
    && !Kept(g, mem, v, older, newer, Root)
    && !Kept(g, mem, v, older, newer, Up(g, q))
    && !Kept(g, mem, v, older, newer, q)
  }

  /** The extents that nobody keeps but that hang off a table the older neighbour keeps,
      past the older neighbour's last block. */
  ghost predicate LeakedPos(g: Geo, mem: Mem, v: View, older: Option<View>, newer: View, q: Pos)
    requires GeoOk(g)
  {
    && Covers(g, v.count, q)
    && !Share(g, mem, v, newer, q)
    && older.Some? && !Covers(g, older.value.count, q)
    && (Share(g, mem, older.value, v, Root) || Share(g, mem, older.value, v, Up(g, q)))
  }

  ghost function FreedSet(g: Geo, mem: Mem, tag: Tags, views: seq<View>, head: View, k: nat): set<Addr>
    requires GeoOk(g) && k < |views|
  {
    set a | a in tag && Reaches(g, mem, tag, views[k], a) &&
            FreedPos(g, mem, views[k], Older(views, k), Newer(views, head, k), tag[a])
  }

  ghost function LeakedSet(g: Geo, mem: Mem, tag: Tags, views: seq<View>, head: View, k: nat): set<Addr>
    requires GeoOk(g) && k < |views|
  {
    set a | a in tag && Reaches(g, mem, tag, views[k], a) &&
            LeakedPos(g, mem, views[k], Older(views, k), Newer(views, head, k), tag[a])
  }

  /** An extent of view k is reached from another view exactly when a neighbour shares it. */
  lemma LocalIsEnough(g: Geo, mem: Mem, tag: Tags, views: seq<View>, head: View, k: nat, a: Addr)
    requires Core(g, mem, tag, views, head) && k < |views| && Reaches(g, mem, tag, views[k], a)
    ensures Reached(g, mem, tag, Chain(Without(views, k), head), a) <==>
            Kept(g, mem, views[k], Older(views, k), Newer(views, head, k), tag[a])
  {
    var c0, c1 := Chain(views, head), Chain(Without(views, k), head);
    var q := tag[a];
    if i :| 0 <= i < |c1| && Reaches(g, mem, tag, c1[i], a) {
      var j := if i < k then i else i + 1;
      assert c1[i] == c0[j];
      if j < k - 1 {
        assert Share(g, mem, c0[j], c0[k], q);
        assert Share(g, mem, c0[j], c0[k - 1], q);
      }
      if j > k + 1 {
        assert Share(g, mem, c0[k], c0[j], q);
        assert Share(g, mem, c0[k], c0[k + 1], q);
      }
    }
    if Kept(g, mem, views[k], Older(views, k), Newer(views, head, k), q) {
      if Share(g, mem, views[k], Newer(views, head, k), q) {
        assert c1[k] == c0[k + 1] == Newer(views, head, k);
        assert Reaches(g, mem, tag, c1[k], a);
      } else {
        assert c1[k - 1] == views[k - 1];
        assert Reaches(g, mem, tag, c1[k - 1], a);
      }
    }
  }

  /** Sharing a table means sharing everything under it that both views have. */
  lemma ShareDown(g: Geo, mem: Mem, tag: Tags, v: View, w: View, q: Pos)
    requires GeoOk(g) && OkView(g, mem, tag, v) && OkView(g, mem, tag, w)
    requires Covers(g, v.count, q) && Covers(g, w.count, q)
    requires Share(g, mem, v, w, Root) || Share(g, mem, v, w, Up(g, q))
    ensures Share(g, mem, v, w, q)
  {
  }

  lemma StartUnder(g: Geo, count: nat, q: Pos)
    requires GeoOk(g) && count <= End(g, Root) && Covers(g, count, q)
    ensures OnPath(g, Start(g, q), Root) && OnPath(g, Start(g, q), Up(g, q))
  {
    CoveredFits(g, count, q);
    if q.Leaf? {
      LeafEnd(g.p, g.n, q.j);
      assert (q.j + 1) * g.n == q.j * g.n + g.n;
    }
  }

  /** A table shared with the newer neighbour hides nothing: the neighbour has all of it. */
  lemma NewerKeepsAll(g: Geo, mem: Mem, tag: Tags, views: seq<View>, head: View, k: nat, q: Pos)
    requires Inv(g, mem, tag, views, head) && k < |views| && Covers(g, views[k].count, q)
    requires var w := Newer(views, head, k);
             Share(g, mem, views[k], w, Root) || Share(g, mem, views[k], w, Up(g, q))
    ensures Share(g, mem, views[k], Newer(views, head, k), q)
  {
    var v, w := views[k], Newer(views, head, k);
    StartUnder(g, v.count, q);
    assert OkView(g, mem, tag, w);
    var t := if Share(g, mem, v, w, Root) then Root else Up(g, q);
    assert v.count <= w.count || End(g, t) <= w.count by {
      if k + 1 < |views| { assert Share(g, mem, views[k], views[k + 1], t); }
    }
    ShareDown(g, mem, tag, v, w, q);
  }

  /** Of the extents only the dropped view has, those not freed are exactly the leaked ones. */
  lemma FreedOrLeaked(g: Geo, mem: Mem, tag: Tags, views: seq<View>, head: View, k: nat, q: Pos)
    requires Inv(g, mem, tag, views, head) && k < |views| && Covers(g, views[k].count, q)
    ensures var v, o, w := views[k], Older(views, k), Newer(views, head, k);
            && (FreedPos(g, mem, v, o, w, q) ==> !LeakedPos(g, mem, v, o, w, q))
            && (FreedPos(g, mem, v, o, w, q) || LeakedPos(g, mem, v, o, w, q) <==> !Kept(g, mem, v, o, w, q))
  {
    var v, o, w := views[k], Older(views, k), Newer(views, head, k);
    if Share(g, mem, v, w, Root) || Share(g, mem, v, w, Up(g, q)) {
      NewerKeepsAll(g, mem, tag, views, head, k, q);
    }
    if o.Some? {
      assert OkView(g, mem, tag, views[k - 1]);
      if Covers(g, o.value.count, q) && (Share(g, mem, o.value, v, Root) || Share(g, mem, o.value, v, Up(g, q))) {
        ShareDown(g, mem, tag, o.value, v, q);
      }
    }
  }

  /** Taking view k out of the chain keeps the invariant, and strands exactly the extents
      that are then freed or leaked. */
  lemma DropStep(g: Geo, mem: Mem, tag: Tags, views: seq<View>, head: View, k: nat, extra: set<Addr>)
    requires Inv(g, mem, tag, views, head) && k < |views|
    requires Accounted(g, mem, tag, Chain(views, head), extra)
    ensures Inv(g, mem, tag, Without(views, k), head)
    ensures var f, l := FreedSet(g, mem, tag, views, head, k), LeakedSet(g, mem, tag, views, head, k);
            && f !! l && f !! extra && l !! extra
            && Accounted(g, mem, tag, Chain(Without(views, k), head), extra + f + l)
  {
    var f, l := FreedSet(g, mem, tag, views, head, k), LeakedSet(g, mem, tag, views, head, k);
    var rest := Without(views, k);
    DropInv(g, mem, tag, views, head, k);
    forall a | a in mem
      ensures Reached(g, mem, tag, Chain(rest, head), a) <==> a !in extra + f + l
      ensures !(a in f && a in l) && (a in f + l ==> a !in extra)
    {
      DropReached(g, mem, tag, views, head, k, a);
    }
  }

  lemma DropReached(g: Geo, mem: Mem, tag: Tags, views: seq<View>, head: View, k: nat, a: Addr)
    requires Inv(g, mem, tag, views, head) && k < |views| && a in mem && tag.Keys == mem.Keys
    ensures var f, l := a in FreedSet(g, mem, tag, views, head, k), a in LeakedSet(g, mem, tag, views, head, k);
            var was := Reached(g, mem, tag, Chain(views, head), a);
            && !(f && l) && (f || l ==> was)
            && (Reached(g, mem, tag, Chain(Without(views, k), head), a) <==> was && !f && !l)
  {
    var c0, c1 := Chain(views, head), Chain(Without(views, k), head);
    if Reaches(g, mem, tag, views[k], a) {
      assert Reaches(g, mem, tag, c0[k], a);
      LocalIsEnough(g, mem, tag, views, head, k, a);
      FreedOrLeaked(g, mem, tag, views, head, k, tag[a]);
    } else {
      if i :| 0 <= i < |c0| && Reaches(g, mem, tag, c0[i], a) {
        assert c1[if i < k then i else i - 1] == c0[i];
      }
      if i :| 0 <= i < |c1| && Reaches(g, mem, tag, c1[i], a) {
        assert c0[Before(k, i)] == c1[i];
      }
    }
  }

  /** Where element i of a list with element k taken out stood before. */
  function Before(k: nat, i: nat): nat { if i < k then i else i + 1 }

  lemma DropSnapped(g: Geo, mem: Mem, views: seq<View>, snaps: seq<seq<Block>>, k: nat)
    requires GeoOk(g) && AsSnapped(g, mem, views, snaps) && k < |views|
    ensures |snaps| == |views| && AsSnapped(g, mem, Without(views, k), Without(snaps, k))
  {
  }

  lemma DropInv(g: Geo, mem: Mem, tag: Tags, views: seq<View>, head: View, k: nat)
    requires Inv(g, mem, tag, views, head) && k < |views|
    ensures Inv(g, mem, tag, Without(views, k), head)
  {
    var rest := Without(views, k);
    forall i | 0 <= i < |rest|
      ensures rest[i] == views[Before(k, i)] && OkView(g, mem, tag, rest[i])
    {
    }
    DropContiguous(g, mem, views, head, k);
    forall a, c, q | 0 <= a < c < |rest| && Share(g, mem, rest[a], rest[c], q)
      ensures rest[a].count <= rest[c].count || End(g, q) <= rest[c].count
    {
      assert Share(g, mem, views[Before(k, a)], views[Before(k, c)], q);
    }
    forall i, q | 0 <= i < |rest| && Share(g, mem, rest[i], head, q)
      ensures rest[i].count <= head.count || End(g, q) <= head.count
    {
      assert Share(g, mem, views[Before(k, i)], head, q);
    }
  }

  lemma DropContiguous(g: Geo, mem: Mem, views: seq<View>, head: View, k: nat)
    requires GeoOk(g) && k < |views| && Contiguous(g, mem, Chain(views, head))
    ensures Contiguous(g, mem, Chain(Without(views, k), head))
  {
    var c0, c1 := Chain(views, head), Chain(Without(views, k), head);
    assert forall i :: 0 <= i < |c1| ==> c1[i] == c0[Before(k, i)];
    forall a, b, c, q | 0 <= a < b < c < |c1| && Share(g, mem, c1[a], c1[c], q)
      ensures Share(g, mem, c1[a], c1[b], q)
    {
      assert Share(g, mem, c0[Before(k, a)], c0[Before(k, c)], q);
      assert Share(g, mem, c0[Before(k, a)], c0[Before(k, b)], q);
    }
  }

  /** Taking a snapshot of the head keeps the invariant and reaches nothing new. */
  lemma SnapshotStep(g: Geo, mem: Mem, tag: Tags, views: seq<View>, head: View, extra: set<Addr>)
    requires Inv(g, mem, tag, views, head)
    requires Accounted(g, mem, tag, Chain(views, head), extra)
    ensures Inv(g, mem, tag, views + [head], head)
    ensures Accounted(g, mem, tag, Chain(views + [head], head), extra)
  {
    var views' := views + [head];
    var h := |views|;
    SnapshotContiguous(g, mem, views, head);
    forall a, c, q | 0 <= a < c < |views'| && Share(g, mem, views'[a], views'[c], q)
      ensures views'[a].count <= views'[c].count || End(g, q) <= views'[c].count
    {
      assert views'[a] == views[a];
      if c < h { assert Share(g, mem, views[a], views[c], q); }
    }
    forall a | a in mem
      ensures Reached(g, mem, tag, Chain(views', head), a) <==> Reached(g, mem, tag, Chain(views, head), a)
    {
      SnapshotReached(g, mem, tag, views, head, a);
    }
  }

  lemma SnapshotReached(g: Geo, mem: Mem, tag: Tags, views: seq<View>, head: View, a: Addr)
    requires GeoOk(g)
    ensures Reached(g, mem, tag, Chain(views + [head], head), a) <==> Reached(g, mem, tag, Chain(views, head), a)
  {
    var c0, c1, h := Chain(views, head), Chain(views + [head], head), |views|;
    if i :| 0 <= i < |c1| && Reaches(g, mem, tag, c1[i], a) {
      assert Reaches(g, mem, tag, c0[if i == h + 1 then h else i], a);
    }
    if i :| 0 <= i < |c0| && Reaches(g, mem, tag, c0[i], a) {
      assert Reaches(g, mem, tag, c1[i], a);
    }
  }

  lemma SnapshotContiguous(g: Geo, mem: Mem, views: seq<View>, head: View)
    requires GeoOk(g) && Contiguous(g, mem, Chain(views, head))
    ensures Contiguous(g, mem, Chain(views + [head], head))
  {
    var c0, c1, h := Chain(views, head), Chain(views + [head], head), |views|;
    assert c1[..h + 1] == c0 && c1[h + 1] == head == c0[h];
    forall a, b, c, q | 0 <= a < b < c < |c1| && Share(g, mem, c1[a], c1[c], q)
      ensures Share(g, mem, c1[a], c1[b], q)
    {
      assert Share(g, mem, c0[a], c0[if c == h + 1 then h else c], q);
    }
  }

  /** What the walk over a dropped view's tree relies on: the neighbours' extents stay. */
  ghost predicate Doomed(g: Geo, mem: Mem, tag: Tags, v: View, older: Option<View>, newer: View, f: set<Addr>) {
    && GeoOk(g) && tag.Keys == mem.Keys
    && OkView(g, mem, tag, v) && OkView(g, mem, tag, newer) && (older.Some? ==> OkView(g, mem, tag, older.value))
    && (forall a :: a in f <==> a in tag && Reaches(g, mem, tag, v, a) && FreedPos(g, mem, v, older, newer, tag[a]))
    && (forall q :: Covers(g, newer.count, q) ==> At(g, mem, newer, q) !in f)
    && (older.Some? ==> forall q :: Covers(g, older.value.count, q) ==> At(g, mem, older.value, q) !in f)
  }

  lemma DropDoomed(g: Geo, mem: Mem, tag: Tags, views: seq<View>, head: View, k: nat, extra: set<Addr>)
    requires Inv(g, mem, tag, views, head) && k < |views|
    requires Accounted(g, mem, tag, Chain(views, head), extra)
    ensures Doomed(g, mem, tag, views[k], Older(views, k), Newer(views, head, k), FreedSet(g, mem, tag, views, head, k))
  {
    var v, older, newer := views[k], Older(views, k), Newer(views, head, k);
    assert OkView(g, mem, tag, newer);
    forall q | Covers(g, newer.count, q)
      ensures At(g, mem, newer, q) !in FreedSet(g, mem, tag, views, head, k)
    {
      assert OkAt(g, mem, tag, newer, q);
    }
    if older.Some? {
      forall q | Covers(g, older.value.count, q)
        ensures At(g, mem, older.value, q) !in FreedSet(g, mem, tag, views, head, k)
      {
        assert OkAt(g, mem, tag, older.value, q);
      }
    }
  }

  /** A neighbour is read the same while the walk frees extents. */
  lemma ReadThrough(g: Geo, mem: Mem, tag: Tags, w: View, done: set<Addr>, q: Pos)
    requires GeoOk(g) && OkView(g, mem, tag, w) && Covers(g, w.count, q)
    requires forall r :: Covers(g, w.count, r) ==> At(g, mem, w, r) !in done
    ensures At(g, mem - done, w, q) == At(g, mem, w, q)
  {
    forall r | Covers(g, w.count, r)
      ensures At(g, mem, w, r) in mem - done
    {
      assert OkAt(g, mem, tag, w, r);
    }
    AgreeFrame(g, mem, mem - done, tag, tag, w);
  }

  /** The leaves under second-level extent i that the walk frees, up to the first n of them. */
  ghost function LeavesUnder(g: Geo, tag: Tags, f: set<Addr>, i: nat, n: nat): set<Addr>
    requires GeoOk(g)
  {
    set a | a in f && a in tag && tag[a].Leaf? && tag[a].j / g.p == i && tag[a].j % g.p < n
  }

  /** Everything below the root that the walk frees, under the first i second-level extents. */
  ghost function FreedBelow(g: Geo, tag: Tags, f: set<Addr>, i: nat): set<Addr>
    requires GeoOk(g)
  {
    set a | a in f && a in tag && ((tag[a].Mid? && tag[a].i < i) || (tag[a].Leaf? && tag[a].j / g.p < i))
  }

  /** The third-level extent in slot k of second-level extent i. */
  function LeafIn(g: Geo, i: nat, k: nat): nat { i * g.p + k }

  lemma LeafOfMid(g: Geo, i: nat, k: nat)
    requires GeoOk(g) && k < g.p
    ensures Start(g, Leaf(LeafIn(g, i, k))) == i * (g.p * g.n) + k * g.n
    ensures LeafIn(g, i, k) / g.p == i && LeafIn(g, i, k) % g.p == k
  {
    ChildPos(g, i, k);
    assert (i * g.p + k) * g.n == i * (g.p * g.n) + k * g.n;
  }

  /** One more leaf: it is freed exactly if neither neighbour has it. */
  lemma NextLeaf(g: Geo, mem: Mem, tag: Tags, v: View, older: Option<View>, newer: View, f: set<Addr>, j: nat)
    requires Doomed(g, mem, tag, v, older, newer, f) && Covers(g, v.count, Leaf(j))
    requires !Kept(g, mem, v, older, newer, Root) && !Kept(g, mem, v, older, newer, Mid(j / g.p))
    ensures var q := Leaf(j); var a := At(g, mem, v, q);
            var some, more := LeavesUnder(g, tag, f, j / g.p, j % g.p), LeavesUnder(g, tag, f, j / g.p, j % g.p + 1);
            && a in mem
            && (Kept(g, mem, v, older, newer, q) ==> more == some)
            && (!Kept(g, mem, v, older, newer, q) ==>
                  a !in some && a !in FreedBelow(g, tag, f, j / g.p) && more == some + {a})
  {
    var q := Leaf(j);
    var a := At(g, mem, v, q);
    assert OkAt(g, mem, tag, v, q) && Up(g, q) == Mid(j / g.p);
    forall b | b in LeavesUnder(g, tag, f, j / g.p, j % g.p + 1) && b !in LeavesUnder(g, tag, f, j / g.p, j % g.p)
      ensures tag[b] == q && b == a
    {
      SameId(g.p, tag[b].j, j);
    }
  }

  /** The tables the walk reads are still there when it comes to a leaf. */
  lemma ReadLeaf(g: Geo, mem: Mem, tag: Tags, v: View, older: Option<View>, newer: View, j: nat, f: set<Addr>)
    requires Doomed(g, mem, tag, v, older, newer, f) && Covers(g, v.count, Leaf(j))
    ensures var done := FreedBelow(g, tag, f, j / g.p) + LeavesUnder(g, tag, f, j / g.p, j % g.p);
            && Slot(mem - done, At(g, mem, v, Mid(j / g.p)), j % g.p) == At(g, mem, v, Leaf(j))
            && (forall r :: Covers(g, newer.count, r) ==> At(g, mem, newer, r) !in done)
            && (older.Some? ==> forall r :: Covers(g, older.value.count, r) ==> At(g, mem, older.value, r) !in done)
  {
    CoveredFits(g, v.count, Leaf(j));
    assert OkAt(g, mem, tag, v, Mid(j / g.p));
  }

  lemma LeafBeyond(g: Geo, count: nat, i: nat, k: nat, j: nat)
    requires GeoOk(g) && j / g.p == i && k <= j % g.p && !Covers(g, count, Leaf(LeafIn(g, i, k)))
    ensures !Covers(g, count, Leaf(j))
  {
    assert j == i * g.p + j % g.p;
    MulMono(i * g.p + k, j, g.n);
  }

  /** Past the view's last block there are no more leaves to free. */
  lemma NoMoreLeaves(g: Geo, mem: Mem, tag: Tags, v: View, older: Option<View>, newer: View, f: set<Addr>, i: nat,
                     k: nat)
    requires Doomed(g, mem, tag, v, older, newer, f) && k <= g.p
    requires k < g.p ==> !Covers(g, v.count, Leaf(LeafIn(g, i, k)))
    ensures LeavesUnder(g, tag, f, i, k) == LeavesUnder(g, tag, f, i, g.p)
  {
    forall b | b in LeavesUnder(g, tag, f, i, g.p)
      ensures b in LeavesUnder(g, tag, f, i, k)
    {
      if k <= tag[b].j % g.p { LeafBeyond(g, v.count, i, k, tag[b].j); }
    }
  }

  /** One more second-level extent: freed with its leaves, or kept with all of them. */
  lemma NextMid(g: Geo, mem: Mem, tag: Tags, v: View, older: Option<View>, newer: View, f: set<Addr>, i: nat)
    requires Doomed(g, mem, tag, v, older, newer, f) && Covers(g, v.count, Mid(i))
    requires !Kept(g, mem, v, older, newer, Root)
    ensures var a := At(g, mem, v, Mid(i));
            && OkAt(g, mem, tag, v, Mid(i))
            && LeavesUnder(g, tag, f, i, g.p) !! FreedBelow(g, tag, f, i)
            && (Kept(g, mem, v, older, newer, Mid(i)) ==>
                  a !in f && FreedBelow(g, tag, f, i + 1) == FreedBelow(g, tag, f, i))
            && (!Kept(g, mem, v, older, newer, Mid(i)) ==>
                  && a in f && a !in FreedBelow(g, tag, f, i) && a !in LeavesUnder(g, tag, f, i, g.p)
                  && FreedBelow(g, tag, f, i + 1) == FreedBelow(g, tag, f, i) + LeavesUnder(g, tag, f, i, g.p) + {a})
  {
    var a := At(g, mem, v, Mid(i));
    assert OkAt(g, mem, tag, v, Mid(i));
    forall b | b in FreedBelow(g, tag, f, i + 1) && b !in FreedBelow(g, tag, f, i)
      ensures !Kept(g, mem, v, older, newer, Mid(i)) && (b == a || b in LeavesUnder(g, tag, f, i, g.p))
    {
    }
  }

  lemma NoLeavesYet(g: Geo, tag: Tags, f: set<Addr>, i: nat)
    requires GeoOk(g)
    ensures FreedBelow(g, tag, f, i) + LeavesUnder(g, tag, f, i, 0) == FreedBelow(g, tag, f, i)
  {
  }

  /** After the last second-level extent only the root is left. */
  lemma NoMoreMids(g: Geo, mem: Mem, tag: Tags, v: View, older: Option<View>, newer: View, f: set<Addr>, i: nat)
    requires Doomed(g, mem, tag, v, older, newer, f) && v.count > 0 && !Covers(g, v.count, Mid(i))
    requires !Kept(g, mem, v, older, newer, Root)
    ensures v.root in mem && v.root in f && v.root !in FreedBelow(g, tag, f, i)
    ensures f == FreedBelow(g, tag, f, i) + {v.root}
  {
    assert Covers(g, v.count, Root) && OkAt(g, mem, tag, v, Root);
    forall b | b in f
      ensures b in FreedBelow(g, tag, f, i) + {v.root}
    {
      var q := tag[b];
      CoveredFits(g, v.count, q);
      if q.Mid? && i <= q.i { MulMono(i, q.i, g.p * g.n); }
      if q.Leaf? && i <= q.j / g.p { MulMono(i, q.j / g.p, g.p * g.n); }
    }
  }

  /** A view that keeps its root with a neighbour, or has none, has nothing to free. */
  lemma NothingFreed(g: Geo, mem: Mem, tag: Tags, v: View, older: Option<View>, newer: View, f: set<Addr>)
    requires Doomed(g, mem, tag, v, older, newer, f)
    requires v.count == 0 || Kept(g, mem, v, older, newer, Root)
    ensures f == {}
  {
  }

  lemma WalkStart(g: Geo, mem: Mem, tag: Tags, v: View, older: Option<View>, newer: View, f: set<Addr>, i: nat)
    requires Doomed(g, mem, tag, v, older, newer, f)
    ensures GeoOk(g) && g.p * g.n > 0 && FreedBelow(g, tag, f, 0) == {}
    ensures Covers(g, v.count, Mid(i)) ==>
              var done := FreedBelow(g, tag, f, i);
              && Slot(mem - done, v.root, i) == At(g, mem, v, Mid(i))
              && (forall r :: Covers(g, newer.count, r) ==> At(g, mem, newer, r) !in done)
              && (older.Some? ==> forall r :: Covers(g, older.value.count, r) ==> At(g, mem, older.value, r) !in done)
  {
    if Covers(g, v.count, Mid(i)) {
      assert Covers(g, v.count, Root) && OkAt(g, mem, tag, v, Root);
    }
  }

  /** Dropping view k and freeing what the walk finds: the other views notice nothing, no extent
      of theirs is freed, and what is lost is exactly the leaked set. */
  lemma DestroyStep(g: Geo, mem: Mem, tag: Tags, views: seq<View>, head: View, k: nat, extra: set<Addr>)
    requires Inv(g, mem, tag, views, head) && k < |views|
    requires Accounted(g, mem, tag, Chain(views, head), extra)
    ensures var f, l := FreedSet(g, mem, tag, views, head, k), LeakedSet(g, mem, tag, views, head, k);
            var rest := Without(views, k);
            && Core(g, mem - f, tag - f, rest, head) && HeadGrowing(g, mem - f, rest, head)
            && Accounted(g, mem - f, tag - f, Chain(rest, head), extra + l)
            && SameViews(g, mem, mem - f, rest) && SameView(g, mem, mem - f, head)
            && Contents(g, mem - f, head) == Contents(g, mem, head)
            && (k == 0 ==> l == {})
  {
    var f, l, rest := FreedSet(g, mem, tag, views, head, k), LeakedSet(g, mem, tag, views, head, k), Without(views, k);
    DropStep(g, mem, tag, views, head, k, extra);
    FreeStep(g, mem, tag, rest, head, extra + f + l, f);
    assert extra + f + l - f == extra + l;
    var chain := Chain(rest, head);
    assert SameView(g, mem, mem - f, chain[|rest|]);
    forall i | 0 <= i < |rest|
      ensures SameView(g, mem, mem - f, rest[i])
    {
      assert chain[i] == rest[i];
    }
  }

  // ---------- destroying everything ----------

  /** What is lost when the views from n on are destroyed newest first, as the tree stands now. */
  ghost function LeakFrom(g: Geo, mem: Mem, tag: Tags, views: seq<View>, head: View, n: nat): set<Addr>
    requires GeoOk(g)
    decreases |views| - n
  {
    if n >= |views| then {} else
      LeakedSet(g, mem, tag, views[..n + 1], head, n) + LeakFrom(g, mem, tag, views, head, n + 1)
  }

  lemma LeakUnfold(g: Geo, mem: Mem, tag: Tags, views: seq<View>, head: View, n: nat, lost: set<Addr>)
    requires GeoOk(g) && n < |views|
    ensures lost + LeakFrom(g, mem, tag, views, head, n + 1) + LeakedSet(g, mem, tag, views[..n + 1], head, n)
         == lost + LeakFrom(g, mem, tag, views, head, n)
  {
  }

  /** What a view would leak does not change while newer views are destroyed. */
  lemma LeakStable(g: Geo, mem: Mem, mem': Mem, tag: Tags, tag': Tags, views: seq<View>, head: View, k: nat)
    requires GeoOk(g) && |views| == k + 1 && OkViews(g, mem', tag', views)
    requires SameViews(g, mem, mem', Chain(views, head))
    requires forall a :: a in tag' ==> a in tag && tag[a] == tag'[a]
    ensures LeakedSet(g, mem', tag', views, head, k) == LeakedSet(g, mem, tag, views, head, k)
  {
    var chain, v := Chain(views, head), views[k];
    assert forall i :: 0 <= i < |views| ==> chain[i] == views[i];
    assert SameView(g, mem, mem', chain[k]) && SameView(g, mem, mem', chain[k + 1]);
    if k > 0 { assert SameView(g, mem, mem', chain[k - 1]); }
    forall q
      ensures LeakedPos(g, mem', v, Older(views, k), head, q) <==> LeakedPos(g, mem, v, Older(views, k), head, q)
    {
    }
    forall a | a in tag && Reaches(g, mem, tag, v, a)
      ensures a in tag' && Reaches(g, mem', tag', v, a)
    {
      assert OkAt(g, mem', tag', v, tag[a]);
    }
  }

  lemma SameTrans(g: Geo, mem0: Mem, mem1: Mem, mem2: Mem, views: seq<View>, head: View, k: nat)
    requires GeoOk(g) && k + 1 == |views|
    requires SameViews(g, mem0, mem1, Chain(views, head)) && SameViews(g, mem1, mem2, Without(views, k))
    requires SameView(g, mem1, mem2, head)
    ensures SameViews(g, mem0, mem2, Chain(views[..k], head))
  {
    var c0, c1 := Chain(views, head), Chain(views[..k], head);
    assert Without(views, k) == views[..k];
    forall i | 0 <= i < |c1|
      ensures SameView(g, mem0, mem2, c1[i])
    {
      var j := if i == k then k + 1 else i;
      assert c1[i] == c0[j] && SameView(g, mem0, mem1, c0[j]);
      if i < k { assert SameView(g, mem1, mem2, Without(views, k)[i]); }
    }
  }

  /** With no views left, all that the head reaches may go. */
  lemma HeadDoomed(g: Geo, mem: Mem, tag: Tags, head: View, extra: set<Addr>)
    requires Core(g, mem, tag, [], head) && Accounted(g, mem, tag, Chain([], head), extra)
    ensures Doomed(g, mem, tag, head, None, View(0, 0), mem.Keys - extra)
    ensures !Kept(g, mem, head, None, View(0, 0), Root)
  {
    var chain := Chain([], head);
    forall a | a in mem
      ensures Reached(g, mem, tag, chain, a) <==> Reaches(g, mem, tag, head, a)
    {
      assert chain[0] == head;
    }
  }

  lemma NothingHeld(g: Geo, mem: Mem, tag: Tags, head: View, extra: set<Addr>)
    requires GeoOk(g) && head.count == 0 && Accounted(g, mem, tag, Chain([], head), extra)
    ensures mem.Keys == extra
  {
    forall a | a in mem
      ensures !Reached(g, mem, tag, Chain([], head), a)
    {
    }
  }

  lemma NoViews(g: Geo, mem: Mem, tag: Tags, root: Addr, extra: set<Addr>)
    requires GeoOk(g) && tag.Keys == mem.Keys == extra
    ensures Core(g, mem, tag, [], View(root, 0)) && HeadGrowing(g, mem, [], View(root, 0))
    ensures Accounted(g, mem, tag, Chain([], View(root, 0)), extra)
  {
  }

  /** Two views of one root, the second with a block more, which the head has since copied away:
      that block's extent is lost when the second view goes first. */
  lemma SomethingLeaks(g: Geo, mem: Mem, tag: Tags, views: seq<View>, head: View)
    requires g == Geo(2, 1) && Core(g, mem, tag, views, head)
    requires |views| == 2 && views[0].count == 1 && views[1].count == 2 && head.count == 2
    requires views[0].root == views[1].root && Writable(g, mem, views, head, 1)
    ensures LeakFrom(g, mem, tag, views, head, 0) != {}
  {
    var q := Leaf(1);
    var a := At(g, mem, views[1], q);
    assert Start(g, q) == 1 && OnPath(g, 1, q);
    assert OkAt(g, mem, tag, views[1], q);
    assert !Share(g, mem, views[1], head, q);
    assert Share(g, mem, views[0], views[1], Root);
    assert views[..2] == views;
    assert a in LeakedSet(g, mem, tag, views, head, 1);
    assert a in LeakFrom(g, mem, tag, views, head, 1);
  }
}