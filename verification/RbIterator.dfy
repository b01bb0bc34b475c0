/**
 The iterators of include/small/rb.h: a path of nodes from the root to the node it points at, from
 which the next node is found without parent links.
 */
module RbIterator {

  import opened Common
  import opened RbTree

  function Top(path: seq<Tree>): Tree
    requires path != []
  {
    path[|path| - 1]
  }

  function Below(path: seq<Tree>): seq<Tree>
    requires path != []
  {
    path[..|path| - 1]
  }

  /** The keys that the iterator has yet to return: that of the node it points at, those right of
      it, and those of the ancestors it lies left of, with what is right of them. */
  function Upcoming(path: seq<Tree>): seq<int>
    requires Nodes(path)
    decreases |path|, 1
  {
    if path == [] then [] else [Top(path).key] + InOrder(Top(path).right) + Above(path)
  }

  function Above(path: seq<Tree>): seq<int>
    requires Nodes(path)
    decreases |path|, 0
  {
    if |path| < 2 then [] else
      var up := Below(path);
      if Top(up).right == Top(path) then Above(up) else Upcoming(up)
  }

  predicate Nodes(path: seq<Tree>) { forall i :: 0 <= i < |path| ==> path[i].Node? }

  /** A way down a sorted tree of height h. */
  ghost predicate PathOk(path: seq<Tree>, h: nat) {
    && Nodes(path)
    && (forall i :: 0 <= i < |path| ==> Sorted(InOrder(path[i])) && i + Height(path[i]) <= h)
    && forall i :: 0 <= i < |path| - 1 ==> path[i + 1] == path[i].left || path[i + 1] == path[i].right
  }

  lemma Cuts(l: seq<int>, k: int, r: seq<int>)
    requires Sorted(l + [k] + r)
    ensures Sorted(l) && Sorted(r) && (l != [] && r != [] ==> l[0] < r[0])
  {
    var s := l + [k] + r;
    assert forall i :: 0 <= i < |l| ==> l[i] == s[i];
    assert forall i :: 0 <= i < |r| ==> r[i] == s[|l| + 1 + i];
  }

  lemma SortedParts(t: Tree)
    requires t.Node? && Sorted(InOrder(t))
    ensures Sorted(InOrder(t.left)) && Sorted(InOrder(t.right)) && (t.left.Node? ==> t.left != t.right)
  {
    hide Sorted;
    Cuts(InOrder(t.left), t.key, InOrder(t.right));
  }

  lemma Push(path: seq<Tree>, c: Tree, h: nat)
    requires PathOk(path, h) && path != [] && c.Node? && (c == Top(path).left || c == Top(path).right)
    ensures PathOk(path + [c], h)
  {
    hide InOrder;
    SortedParts(Top(path));
    var q := path + [c];
    forall i | 0 <= i < |q| - 1 ensures q[i + 1] == q[i].left || q[i + 1] == q[i].right {
    }
  }

  lemma PushedLeft(path: seq<Tree>, h: nat)
    requires PathOk(path, h) && path != [] && Top(path).left.Node?
    ensures var d := Top(path).left;
            && Nodes(path + [d])
            && InOrder(d) + Above(path + [d]) == InOrder(Top(path)) + Above(path)
  {
    hide InOrder, Sorted, Height, Above;
    var c := Top(path);
    var q := path + [c.left];
    SortedParts(c);
    assert Below(q) == path && Top(q) == c.left;
    AboveLeft(q);
    Open(c, (_, _, _) => 0);
    Chain(InOrder(c.left), [c.key], InOrder(c.right), Above(path));
  }

  lemma AboveLeft(path: seq<Tree>)
    requires Nodes(path) && |path| >= 2 && Top(Below(path)).right != Top(path)
    ensures Nodes(Below(path))
    ensures Above(path) == [Top(Below(path)).key] + InOrder(Top(Below(path)).right) + Above(Below(path))
  {
  }

  lemma Chain(a: seq<int>, b: seq<int>, c: seq<int>, d: seq<int>)
    ensures a + (b + c + d) == a + b + c + d
  {
  }

  /** rbtn_iter_go_left_down, with the first node pushed already. */
  method GoLeftDown(path: seq<Tree>, ghost h: nat) returns (r: seq<Tree>)
    requires PathOk(path, h) && path != []
    ensures PathOk(r, h) && Upcoming(r) == InOrder(Top(path)) + Above(path)
    ensures |r| + 1 == |path| + LeftSpine(Top(path))
  {
    hide InOrder, Above, Upcoming, Sorted, Height;
    r := path;
    while Top(r).left.Node?
      invariant PathOk(r, h) && r != [] && InOrder(Top(r)) + Above(r) == InOrder(Top(path)) + Above(path)
      invariant |r| + LeftSpine(Top(r)) == |path| + LeftSpine(Top(path))
      decreases Top(r)
    {
      PushedLeft(r, h);
      Push(r, Top(r).left, h);
      r := r + [Top(r).left];
    }
    NoLeft(r);
  }

  lemma NoLeft(r: seq<Tree>)
    requires Nodes(r) && r != [] && Top(r).left.Nil?
    ensures Upcoming(r) == InOrder(Top(r)) + Above(r)
  {
  }

  /** rbtn_iter_go_right_up: to the first ancestor that the path leaves to the left. */
  method GoRightUp(path: seq<Tree>, ghost h: nat) returns (r: seq<Tree>)
    requires PathOk(path, h) && path != []
    ensures PathOk(r, h) && Upcoming(r) == Above(path) && |r| < |path|
  {
    hide InOrder, Sorted, Height;
    var count := |path| - 1;
    assert path[..count + 1] == path;
    while count > 0 && path[count - 1].right == path[count]
      invariant 0 <= count < |path| && Above(path[..count + 1]) == Above(path)
      decreases count
    {
      assert Below(path[..count + 1]) == path[..count];
      count := count - 1;
    }
    assert count > 0 ==> Below(path[..count + 1]) == path[..count];
    r := path[..count];
  }

  /** ifirst */
  method IFirst(root: Tree) returns (path: seq<Tree>)
    requires Sorted(InOrder(root))
    ensures PathOk(path, Height(root)) && Upcoming(path) == InOrder(root) && |path| == LeftSpine(root)
  {
    if root.Nil? { return []; }
    path := GoLeftDown([root], Height(root));
    assert InOrder(root) + [] == InOrder(root);
  }

  /** inext returns the node pointed at and moves on; the path is never longer than the tree is high. */
  method INext(path: seq<Tree>, ghost h: nat) returns (key: Option<int>, r: seq<Tree>)
    requires PathOk(path, h)
    ensures PathOk(r, h) && |r| <= h
    ensures key.None? <==> path == []
    ensures key.Some? ==> Upcoming(path) == [key.value] + Upcoming(r)
    ensures key.None? ==> r == []
  {
    hide InOrder, Sorted;
    if path == [] { return None, []; }
    key := Some(Top(path).key);
    if Top(path).right.Node? {
      var q := path + [Top(path).right];
      Push(path, Top(path).right, h);
      assert Below(q) == path && Above(q) == Above(path);
      r := GoLeftDown(q, h);
    } else {
      RightNil(Top(path));
      r := GoRightUp(path, h);
    }
    Short(r, h);
  }

  lemma RightNil(t: Tree)
    requires t.Node? && t.right.Nil?
    ensures InOrder(t.right) == []
  {
  }

  lemma Short(path: seq<Tree>, h: nat)
    requires PathOk(path, h)
    ensures |path| <= h
  {
    hide InOrder, Sorted;
    if path != [] { assert Height(Top(path)) > 0; }
  }

  /** Iteration returns every key once, in order, and never has more path entries than the tree is high. */
  method Iterate(root: Tree) returns (keys: seq<int>, ghost longest: nat)
    requires Sorted(InOrder(root))
    ensures keys == InOrder(root) && longest <= Height(root)
  {
    hide InOrder, Sorted, Upcoming, Height;
    var path := IFirst(root);
    Short(path, Height(root));
    keys, longest := [], |path|;
    while path != []
      invariant PathOk(path, Height(root)) && keys + Upcoming(path) == InOrder(root) && longest <= Height(root)
      decreases |InOrder(root)| - |keys|
    {
      var key, next := INext(path, Height(root));
      Grow(keys, Upcoming(path), key.value, Upcoming(next));
      keys := keys + [key.value];
      path := next;
      longest := if |path| > longest then |path| else longest;
    }
    NothingUpcoming();
  }

  lemma Grow(keys: seq<int>, up: seq<int>, k: int, rest: seq<int>)
    requires up == [k] + rest
    ensures keys + up == keys + [k] + rest
  {
  }

  lemma NothingUpcoming()
    ensures Upcoming([]) == []
  {
  }

  /** A legal tree with fewer than 3 * 2^24 - 2 nodes can be iterated with a path of 48 entries. */
  lemma IteratorFits(root: Tree, f: Callback, path: seq<Tree>)
    requires Legal(root, f) && |InOrder(root)| < 3 * Pow2(24) - 2 && PathOk(path, Height(root))
    ensures |path| <= ITERATOR
  {
    hide InOrder, Sorted, Height, Pow2;
    PathsFit(root, f);
    Short(path, Height(root));
  }
}
