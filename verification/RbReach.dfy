/**
 The trees that inserting keys from the greatest down to the least makes. Their left spine is a binary
 counter with the digits 1 and 2; where all digits are 2 the tree is the sparsest of its height, so
 that the sizes at which the paths of include/small/rb.h are too short are reached by inserts alone.
 */
module RbReach {

  import opened Common
  import opened RbTree
  import opened RbIterator

  /** The digits of n are those of a number with h of them. */
  predicate Counts(h: nat, n: nat) { Pow2(h) - 1 <= n <= Pow2(h + 1) - 2 }

  lemma Powers(h: nat)
    ensures Pow2(0) == 1 && Pow2(h) >= 1 && Pow2(h + 1) == 2 * Pow2(h) && (h > 0 ==> Pow2(h) == 2 * Pow2(h - 1))
  {
  }

  /** The tree of n keys from base on whose left spine counts n: for each digit, from the most significant
      one at the root, a black node with a full tree at its right, and a red one below it if the digit
      is 2. */
  function Spine(h: nat, n: nat, base: int, f: Callback): (t: Tree)
    requires Counts(h, n)
    ensures !IsRed(t) && (h > 0 ==> t.Node?)
  {
    if h == 0 then Nil else
      Powers(h - 1);
      Powers(h);
      var p := Pow2(h - 1);
      if n <= 3 * p - 2 then Twig(h, n - p, base, false, f) else
        var m := n - 2 * p;
        Augment(Node(Twig(h, m, base, true, f), base + m + p, false, 0, Full(h - 1, base + m + p + 1, f)), f)
  }

  /** One node of the spine: the m keys of the lower digits, its own and those of a full tree. */
  function Twig(h: nat, m: nat, base: int, red: bool, f: Callback): Tree
    requires h > 0 && Counts(h - 1, m)
    decreases h, 0
  {
    Augment(Node(Spine(h - 1, m, base, f), base + m, red, 0, Full(h - 1, base + m + 1, f)), f)
  }

  /** What a spine of twos becomes when the counter overflows: one red node over two full trees. */
  function Carry(h: nat, base: int, f: Callback): Tree {
    Augment(Node(Full(h, base, f), base + Pow2(h) - 1, true, 0, Full(h, base + Pow2(h), f)), f)
  }

  lemma NoDigits(base: int, f: Callback)
    ensures Counts(0, 0) && Spine(0, 0, base, f) == Nil
  {
  }

  /** The least number of h digits has ones alone. */
  lemma {:induction false} Ones(h: nat, base: int, f: Callback)
    ensures Counts(h, Pow2(h) - 1) && Spine(h, Pow2(h) - 1, base, f) == Full(h, base, f)
  {
    hide Pow2;
    Powers(h);
    if h > 0 {
      Powers(h - 1);
      Ones(h - 1, base, f);
    }
  }

  /** Inserting a key below all others, at one node of the spine: the lower digits count on, or a carry
      comes up. */
  lemma {:induction false} TwigStep(h: nat, m: nat, base: int, red: bool, f: Callback)
    requires h > 0 && Counts(h - 1, m)
    ensures Pow2(h) >= 2 && (m < Pow2(h) - 2 ==> Counts(h - 1, m + 1))
    ensures var step := InsertRec(Twig(h, m, base + 1, red, f), base, f);
            if m < Pow2(h) - 2 then step == Done(Twig(h, m + 1, base, red, f))
            else
              var k := base + Pow2(h) - 1;
              step == Up(Augment(Node(Carry(h - 1, base, f), k, red, 0, Full(h - 1, k + 1, f)), f))
    decreases h, 0, 0
  {
    hide Pow2, Spine, Full;
    Powers(h);
    Powers(h - 1);
    SpineStep(h - 1, m, base, f);
  }

  /** What goes on at a node that the key belongs to the left of. */
  lemma LeftOf(t: Tree, x: int, f: Callback)
    requires t.Node? && x < t.key
    ensures InsertRec(t, x, f) == match InsertRec(t.left, x, f)
                                  case Up(sub) => InsertStep(t, true, sub, f)
                                  case Done(sub) => Done(Augment(t.(left := sub), f))
  {
  }

  /** The carry that comes up to a node whose digit is 1 makes it 2. */
  lemma OneToTwo(h: nat, base: int, f: Callback)
    requires h > 0
    ensures var p := Pow2(h - 1);
            && Counts(h, 3 * p - 1)
            && Spine(h, 3 * p - 1, base, f) ==
               Augment(Node(Carry(h - 1, base, f), base + 2 * p - 1, false, 0, Full(h - 1, base + 2 * p, f)), f)
  {
    hide Pow2, Full;
    Powers(h);
    Powers(h - 1);
    Ones(h - 1, base, f);
  }

  /** The digit is 1: a lower digit counts on, or it becomes 2. */
  lemma {:induction false} OneStep(h: nat, m: nat, base: int, f: Callback)
    requires h > 0 && Counts(h - 1, m)
    ensures var p := Pow2(h - 1);
            && Counts(h, m + p) && Counts(h, m + p + 1)
            && InsertRec(Spine(h, m + p, base + 1, f), base, f).t == Spine(h, m + p + 1, base, f)
    decreases h, 0, 1
  {
    hide Pow2, InsertRec, Twig, Full;
    Powers(h);
    Powers(h - 1);
    TwigStep(h, m, base, false, f);
    OneToTwo(h, base, f);
  }

  /** The carry that comes up to a node whose digit is 2 goes on up. */
  lemma Apart(h: nat, n: Tree, base: int, f: Callback)
    requires h > 0 && n.Node? && !n.red
    requires var p := Pow2(h - 1); n.key == base + 3 * p - 1 && n.right == Full(h - 1, base + 3 * p, f)
    ensures var p := Pow2(h - 1);
            var sub := Augment(Node(Carry(h - 1, base, f), base + 2 * p - 1, true, 0, Full(h - 1, base + 2 * p, f)), f);
            InsertStep(n, true, sub, f) == Up(Carry(h, base, f))
  {
    hide Pow2;
    Powers(h);
  }

  /** The digit is 2: a lower digit counts on, or the node and the red one below it come apart. */
  lemma {:induction false} TwoStep(h: nat, m: nat, base: int, f: Callback)
    requires h > 0 && Counts(h - 1, m)
    ensures var p := Pow2(h - 1);
            && Counts(h, m + 2 * p) && (m < 2 * p - 2 ==> Counts(h, m + 2 * p + 1))
            && var step := InsertRec(Spine(h, m + 2 * p, base + 1, f), base, f);
            if m < 2 * p - 2 then step.t == Spine(h, m + 2 * p + 1, base, f) else step == Up(Carry(h, base, f))
    decreases h, 0, 1
  {
    hide Pow2, InsertRec, Twig, Full, Carry, InsertStep;
    Powers(h);
    Powers(h - 1);
    var t := Spine(h, m + 2 * Pow2(h - 1), base + 1, f);
    TwigStep(h, m, base, true, f);
    LeftOf(t, base, f);
    if m == 2 * Pow2(h - 1) - 2 { Apart(h, t, base, f); }
  }

  /** Inserting a key below all others adds one to the counter. */
  lemma {:induction false} SpineStep(h: nat, n: nat, base: int, f: Callback)
    requires Counts(h, n)
    ensures n < Pow2(h + 1) - 2 ==> Counts(h, n + 1)
    ensures var step := InsertRec(Spine(h, n, base + 1, f), base, f);
            if n < Pow2(h + 1) - 2 then step.t == Spine(h, n + 1, base, f)
            else step == Up(Carry(h, base, f))
    decreases h, 1
  {
    hide Pow2, Twig, Spine;
    Powers(h);
    if h > 0 {
      hide InsertRec, Carry;
      Powers(h - 1);
      var p := Pow2(h - 1);
      if n <= 3 * p - 2 { OneStep(h, n - p, base, f); } else { TwoStep(h, n - 2 * p, base, f); }
    } else {
      NoDigits(base + 1, f);
    }
  }

  /** The tree that inserting base + n - 1, and so on down to base, makes. */
  function Inserted(n: nat, base: int, f: Callback): Tree {
    if n == 0 then Nil else InsertTree(Inserted(n - 1, base + 1, f), base, f)
  }

  lemma BlackStays(root: Tree, x: int, f: Callback)
    ensures var step := InsertRec(root, x, f); !IsRed(step.t) ==> InsertTree(root, x, f) == step.t
  {
  }

  lemma CarryRoot(h: nat, base: int, f: Callback)
    ensures var t := Carry(h, base, f); t.Node? && t.(red := false) == Full(h + 1, base, f)
  {
  }

  /** It is the one whose spine counts n. */
  lemma {:induction false} InsertedIs(h: nat, n: nat, base: int, f: Callback)
    requires Counts(h, n)
    ensures Inserted(n, base, f) == Spine(h, n, base, f)
    decreases n
  {
    hide Pow2, Spine, InsertRec, Full;
    Powers(h);
    if n == 0 {
      NoDigits(base, f);
    } else if n >= Pow2(h) {
      InsertedIs(h, n - 1, base + 1, f);
      SpineStep(h, n - 1, base, f);
      BlackStays(Spine(h, n - 1, base + 1, f), base, f);
    } else {
      Powers(h - 1);
      InsertedIs(h - 1, n - 1, base + 1, f);
      SpineStep(h - 1, n - 1, base, f);
      CarryRoot(h - 1, base, f);
      Ones(h, base, f);
    }
  }

  /** A spine of twos is the sparsest tree of an even height. */
  lemma {:induction false} Twos(b: nat, f: Callback)
    ensures Counts(b, Pow2(b + 1) - 2) && Spine(b, Pow2(b + 1) - 2, 0, f) == SparsestEven(b, f)
  {
    hide Pow2, Full;
    Powers(b);
    if b > 0 {
      Powers(b - 1);
      Twos(b - 1, f);
    }
  }

  /** The sparsest trees of every height are reached by inserts. */
  lemma SparsestReached(b: nat, f: Callback)
    ensures Pow2(b) >= 1
    ensures Inserted(Pow2(b + 1) - 2, 0, f) == SparsestEven(b, f)
    ensures Inserted(3 * Pow2(b) - 2, 0, f) == SparsestOdd(b, f)
  {
    hide Pow2, Full, Inserted, SparsestEven;
    Powers(b);
    Powers(b + 1);
    Twos(b, f);
    InsertedIs(b, Pow2(b + 1) - 2, 0, f);
    InsertedIs(b + 1, 3 * Pow2(b) - 2, 0, f);
  }

  /** Inserts the keys below n into an empty tree, from the greatest down. */
  method InsertDown(n: nat, f: Callback) returns (t: Tree)
    ensures Legal(t, f) && t == Inserted(n, 0, f)
    ensures forall k :: k in Elems(t) <==> 0 <= k < n
  {
    hide Legal, InsertTree;
    t := Nil;
    var i := n;
    NothingInserted(f);
    while i > 0
      invariant 0 <= i <= n && Legal(t, f) && t == Inserted(n - i, i, f)
      invariant forall k :: k in Elems(t) <==> i <= k < n
    {
      i := i - 1;
      var depth;
      t, depth := Insert(t, i, f);
    }
  }

  lemma NothingInserted(f: Callback)
    ensures Legal(Nil, f) && Elems(Nil) == {}
  {
    assert Ok(Nil, 0);
  }

  /** The place of a key below all others is at the end of the left spine. */
  lemma {:induction false} WayLeft(t: Tree, x: int)
    requires forall k :: k in InOrder(t) ==> x < k
    ensures Way(t, x) == LeftSpine(t)
  {
    if t.Node? {
      assert t.key in InOrder(t) && forall k :: k in InOrder(t.left) ==> k in InOrder(t);
      WayLeft(t.left, x);
    }
  }

  /** Of both sizes in PathsFit there is a tree that inserts alone make, whose left spine is one entry
      longer than the iterator's path, or leaves no entry for a new node at the end of insert's. */
  lemma BoundsReached(f: Callback)
    ensures Pow2(24) >= 1 && Pow2(65) >= 2
    ensures var t := Inserted(3 * Pow2(24) - 2, 0, f);
            |InOrder(t)| == 3 * Pow2(24) - 2 && LeftSpine(t) == ITERATOR + 1
    ensures var t := Inserted(Pow2(65) - 2, 0, f);
            |InOrder(t)| == Pow2(65) - 2 && LeftSpine(t) == PATH
  {
    hide Pow2, InOrder, Inserted, SparsestOdd, SparsestEven, LeftSpine, Legal;
    Powers(24);
    Powers(64);
    SparsestReached(24, f);
    SparsestReached(64, f);
    BoundsExact(f);
  }

  /** Such a run of inserts, and the first node of an iteration, which is the whole tree: one entry too many. */
  method IteratorOverflows(f: Callback) returns (t: Tree, path: seq<Tree>)
    ensures Legal(t, f) && |InOrder(t)| == 3 * Pow2(24) - 2
    ensures Nodes(path) && Upcoming(path) == InOrder(t) && |path| == ITERATOR + 1
  {
    hide Pow2, InOrder, Inserted, LeftSpine, Elems, Upcoming, PathOk, Height, Ok, AugOk;
    BoundsReached(f);
    t := InsertDown(3 * Pow2(24) - 2, f);
    path := IFirst(t);
  }

  /** Such a run of inserts, and one more: the path of the last one has one entry too many. */
  method PathOverflows(f: Callback) returns (t: Tree, depth: nat)
    ensures Legal(t, f) && Elems(t) == Elems(Inserted(Pow2(65) - 2, 0, f)) + {-1} && depth == PATH + 1
  {
    hide Pow2, InOrder, Inserted, LeftSpine, Way, InsertTree, Height, Ok, AugOk;
    BoundsReached(f);
    t := InsertDown(Pow2(65) - 2, f);
    assert forall k :: k in InOrder(t) ==> k in Elems(t);
    WayLeft(t, -1);
    t, depth := Insert(t, -1, f);
  }
}
