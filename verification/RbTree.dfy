/**
 The left-leaning red-black tree that include/small/rb.h generates. Insert and remove wind down
 with an explicit path and unwind along it, as there; nodes are values here, so the links that
 the C code patches in place are the nodes handed up from one step to the next.
 */
module RbTree {

  import opened Common

  /** aug is the datum that the augmentation callback maintains. */
  datatype Tree = Nil | Node(left: Tree, key: int, red: bool, aug: int, right: Tree)

  /** The callback: a node's datum from its key and its children's data. */
  type Callback = (int, Option<int>, Option<int>) -> int

  predicate IsRed(t: Tree) { t.Node? && t.red }

  function AugOf(t: Tree): Option<int> { if t.Nil? then None else Some(t.aug) }

  /** rbtn_augment */
  function Augment(t: Tree, f: Callback): Tree
    requires t.Node?
  {
    t.(aug := f(t.key, AugOf(t.left), AugOf(t.right)))
  }

  // ---------- what a legal tree is ----------

  function InOrder(t: Tree): seq<int> {
    if t.Nil? then [] else InOrder(t.left) + [t.key] + InOrder(t.right)
  }

  ghost predicate Sorted(s: seq<int>) { forall i, j :: 0 <= i < j < |s| ==> s[i] < s[j] }

  /** A legal subtree of black height h: no red right child, no red child of a red node, and the
      same number of black nodes on every way down. */
  predicate Ok(t: Tree, h: nat) {
    match t
    case Nil => h == 0
    case Node(l, _, red, _, r) =>
      !IsRed(r) && (red ==> !IsRed(l)) && (red || h > 0) &&
      var hc := if red then h else h - 1;
      Ok(l, hc) && Ok(r, hc)
  }

  /** Every node's datum is what the callback computes for its subtree. */
  predicate AugOk(t: Tree, f: Callback) {
    t.Node? ==> t.aug == f(t.key, AugOf(t.left), AugOf(t.right)) && AugOk(t.left, f) && AugOk(t.right, f)
  }

  ghost predicate Legal(t: Tree, f: Callback) {
    !IsRed(t) && (exists h: nat :: Ok(t, h)) && Sorted(InOrder(t)) && AugOk(t, f)
  }

  // ---------- the path ----------

  datatype Frame = Frame(node: Tree, goLeft: bool)

  ghost predicate Frames(path: seq<Frame>) { forall i :: 0 <= i < |path| ==> path[i].node.Node? }

  function Fill(fr: Frame, sub: Tree): Tree
    requires fr.node.Node?
  {
    if fr.goLeft then fr.node.(left := sub) else fr.node.(right := sub)
  }

  /** Keys before and after the place the path leads to. */
  ghost function Before(path: seq<Frame>): seq<int>
    requires Frames(path)
  {
    if path == [] then [] else
      var fr := path[|path| - 1];
      Before(path[..|path| - 1]) + if fr.goLeft then [] else InOrder(fr.node.left) + [fr.node.key]
  }

  ghost function After(path: seq<Frame>): seq<int>
    requires Frames(path)
  {
    if path == [] then [] else
      var fr := path[|path| - 1];
      (if fr.goLeft then [fr.node.key] + InOrder(fr.node.right) else []) + After(path[..|path| - 1])
  }

  /** The place the path leads to may hold a red node. */
  predicate RedOk(path: seq<Frame>) {
    path != [] && path[|path| - 1].goLeft && path[|path| - 1].node.Node? && !path[|path| - 1].node.red
  }

  /** A black subtree of black height h in this place makes a legal tree of black height top. */
  ghost predicate Fits(path: seq<Frame>, h: nat, top: nat) {
    if path == [] then h == top else
      var fr, up := path[|path| - 1], path[..|path| - 1];
      && fr.node.Node?
      && (fr.goLeft ==> Ok(fr.node.right, h) && !IsRed(fr.node.right))
      && (!fr.goLeft ==> Ok(fr.node.left, h) && (fr.node.red ==> !IsRed(fr.node.left)))
      && (fr.node.red ==> RedOk(up))
      && Fits(up, if fr.node.red then h else h + 1, top)
  }

  ghost predicate AugFits(path: seq<Frame>, f: Callback) {
    forall i :: 0 <= i < |path| ==>
                  path[i].node.Node? && AugOk(if path[i].goLeft then path[i].node.right else path[i].node.left, f)
  }

  /** rbtn_augment_propagate, with the links on the path: every ancestor is recomputed bottom up. */
  function Propagated(path: seq<Frame>, sub: Tree, f: Callback): Tree
    requires forall i :: 0 <= i < |path| ==> path[i].node.Node?
    decreases |path|
  {
    if path == [] then sub else
      Propagated(path[..|path| - 1], Augment(Fill(path[|path| - 1], sub), f), f)
  }

  method Propagate(path: seq<Frame>, n: nat, sub: Tree, f: Callback) returns (t: Tree)
    requires Frames(path) && n <= |path|
    ensures t == Propagated(path[..n], sub, f)
  {
    t := sub;
    var i := n;
    while i > 0
      invariant 0 <= i <= n && Propagated(path[..i], t, f) == Propagated(path[..n], sub, f)
    {
      i := i - 1;
      assert path[..i + 1][..i] == path[..i];
      t := Augment(Fill(path[i], t), f);
    }
    assert path[..0] == [];
  }

  /** Putting a legal subtree in its place makes a legal tree, with its keys between the others. */
  lemma {:induction false} PropagatedOk(path: seq<Frame>, sub: Tree, f: Callback, h: nat, top: nat)
    requires Frames(path) && Fits(path, h, top) && AugFits(path, f)
    requires Ok(sub, h) && (IsRed(sub) ==> RedOk(path)) && AugOk(sub, f)
    ensures var t := Propagated(path, sub, f);
            && Ok(t, top) && !IsRed(t) && AugOk(t, f)
            && InOrder(t) == Before(path) + InOrder(sub) + After(path)
    decreases |path|
  {
    if path != [] {
      var n := |path| - 1;
      var fr, up := path[n], path[..n];
      var t := Augment(Fill(fr, sub), f);
      PropagatedOk(up, t, f, if fr.node.red then h else h + 1, top);
      FillKeys(path, sub, f);
    }
  }

  lemma FillKeys(path: seq<Frame>, sub: Tree, f: Callback)
    requires Frames(path) && path != []
    ensures var fr, up := path[|path| - 1], path[..|path| - 1];
            Before(up) + InOrder(Augment(Fill(fr, sub), f)) + After(up) == Before(path) + InOrder(sub) + After(path)
  {
    hide Before, After, InOrder, AugOk;
    var fr, up := path[|path| - 1], path[..|path| - 1];
    var b, a, s := Before(up), After(up), InOrder(sub);
    var t := Augment(Fill(fr, sub), f);
    FrameKeys(path);
    Open(t, f);
    if fr.goLeft {
      var k, r := [fr.node.key], InOrder(fr.node.right);
      Shift(b, s, k + r, a);
      assert s + k + r == s + (k + r);
    } else {
      var l, k := InOrder(fr.node.left), [fr.node.key];
      Shift(b, l + k, s, a);
    }
  }

  lemma FrameKeys(path: seq<Frame>)
    requires Frames(path) && path != []
    ensures var fr, up := path[|path| - 1], path[..|path| - 1];
            && Before(path) == (if fr.goLeft then Before(up) else Before(up) + (InOrder(fr.node.left) + [fr.node.key]))
            && After(path) == (if fr.goLeft then ([fr.node.key] + InOrder(fr.node.right)) + After(up) else After(up))
  {
  }

  lemma Shift(b: seq<int>, s: seq<int>, r: seq<int>, a: seq<int>)
    ensures b + (s + r) + a == b + s + (r + a) == (b + s) + r + a
  {
  }

  // ---------- one step of unwinding ----------

  /** rbtn_rotate_right and rbtn_rotate_left, with the two callbacks that follow each of them. */
  function RotateRight(t: Tree, f: Callback): Tree
    requires t.Node? && t.left.Node?
  {
    Augment(t.left.(right := Augment(t.(left := t.left.right), f)), f)
  }

  function RotateLeft(t: Tree, f: Callback): Tree
    requires t.Node? && t.right.Node?
  {
    Augment(t.right.(left := Augment(t.(right := t.right.left), f)), f)
  }

  /** Either the tree above needs no more than its data recomputed, or the step above is next. */
  datatype Step = Done(t: Tree) | Up(t: Tree)

  /** The body of insert's unwind loop, for node n with the new subtree sub below it. */
  function InsertStep(n: Tree, goLeft: bool, sub: Tree, f: Callback): Step
    requires n.Node? && sub.Node?
  {
    if goLeft then
      if !sub.red then Done(Augment(n.(left := sub), f))
      else if IsRed(sub.left) then Up(RotateRight(n.(left := sub.(left := sub.left.(red := false))), f))
      else Up(Augment(n.(left := sub), f))
    else
      if !sub.red then Done(Augment(n.(right := sub), f))
      else if IsRed(n.left) then
        Up(Augment(n.(left := n.left.(red := false), right := sub.(red := false), red := true), f))
      else Up(RotateLeft(n.(right := sub.(red := n.red), red := true), f))
  }

  /** The body of remove's unwind loop, cmp < 0: sub, the new left child, is one black node short. */
  function RemoveLeftStep(n: Tree, sub: Tree, f: Callback): Step
    requires n.Node? && n.right.Node?
  {
    var c, right := n.(left := sub), n.right;
    if n.red then
      if IsRed(right.left) then Done(RotateLeft(c.(red := false, right := RotateRight(right, f)), f))
      else Done(RotateLeft(c, f))
    else if IsRed(right.left) then
      Done(RotateLeft(c.(right := RotateRight(right.(left := right.left.(red := false)), f)), f))
    else Up(RotateLeft(c.(red := true), f))
  }

  /** The same for cmp > 0: sub is the new right child. */
  function RemoveRightStep(n: Tree, sub: Tree, f: Callback): Step
    requires n.Node? && n.left.Node? && (n.left.red ==> n.left.right.Node?)
  {
    var c, left := n.(right := sub), n.left;
    if left.red then
      var lr := left.right;
      if IsRed(lr.left) then
        var t := RotateRight(c.(left := lr.(left := lr.left.(red := false))), f);
        Done(RotateLeft(left.(right := t), f))
      else Done(RotateRight(c.(left := left.(right := lr.(red := true))), f).(red := false))
    else if n.red then
      if IsRed(left.left) then
        Done(RotateRight(c.(red := false, left := left.(red := true, left := left.left.(red := false))), f))
      else Done(Augment(c.(left := left.(red := true), red := false), f))
    else if IsRed(left.left) then Done(RotateRight(c.(left := left.(left := left.left.(red := false))), f))
    else Up(Augment(c.(left := left.(red := true)), f))
  }

  function Keys(n: Tree, goLeft: bool, sub: Tree): seq<int>
    requires n.Node?
  {
    if goLeft then InOrder(sub) + [n.key] + InOrder(n.right) else InOrder(n.left) + [n.key] + InOrder(sub)
  }

  lemma Open(t: Tree, f: Callback)
    requires t.Node?
    ensures InOrder(t) == InOrder(t.left) + [t.key] + InOrder(t.right)
    ensures AugOk(t, f) == (t == Augment(t, f) && AugOk(t.left, f) && AugOk(t.right, f))
    ensures forall c :: InOrder(t.(red := c)) == InOrder(t) && AugOk(t.(red := c), f) == AugOk(t, f)
  {
  }

  lemma OpenOk(t: Tree, h: nat)
    requires t.Node?
    ensures Ok(t, h) == (!IsRed(t.right) && (t.red ==> !IsRed(t.left)) && (t.red || h > 0) &&
                         var hc := if t.red then h else h - 1;
                         Ok(t.left, hc) && Ok(t.right, hc))
  {
  }

  lemma Regroup(a: seq<int>, x: int, b: seq<int>, y: int, c: seq<int>)
    ensures (a + [x] + b) + [y] + c == a + [x] + (b + [y] + c)
  {
  }

  lemma RotateRightOk(t: Tree, f: Callback)
    requires t.Node? && t.left.Node?
    ensures InOrder(RotateRight(t, f)) == InOrder(t)
    ensures AugOk(t.left.left, f) && AugOk(t.left.right, f) && AugOk(t.right, f) ==> AugOk(RotateRight(t, f), f)
  {
    hide InOrder, AugOk;
    Open(t, f);
    Open(t.left, f);
    var r := RotateRight(t, f);
    Open(r, f);
    Open(r.right, f);
    Regroup(InOrder(t.left.left), t.left.key, InOrder(t.left.right), t.key, InOrder(t.right));
  }

  lemma RotateLeftOk(t: Tree, f: Callback)
    requires t.Node? && t.right.Node?
    ensures InOrder(RotateLeft(t, f)) == InOrder(t)
    ensures AugOk(t.left, f) && AugOk(t.right.left, f) && AugOk(t.right.right, f) ==> AugOk(RotateLeft(t, f), f)
  {
    hide InOrder, AugOk;
    Open(t, f);
    Open(t.right, f);
    var r := RotateLeft(t, f);
    Open(r, f);
    Open(r.left, f);
    Regroup(InOrder(t.left), t.key, InOrder(t.right.left), t.right.key, InOrder(t.right.right));
  }

  /** A subtree on its way up in insert: legal, but a red node may have a red left child. */
  predicate Rising(t: Tree, h: nat) {
    t.Node? && !IsRed(t.right) && (t.red || h > 0) &&
    var hc := if t.red then h else h - 1;
    Ok(t.left, hc) && Ok(t.right, hc)
  }

  predicate TwoReds(t: Tree) { IsRed(t) && IsRed(t.left) }

  /** A step of insert's unwinding keeps the keys and the data. */
  lemma InsertStepKeys(n: Tree, goLeft: bool, sub: Tree, f: Callback)
    requires n.Node? && sub.Node? && AugOk(sub, f) && AugOk(if goLeft then n.right else n.left, f)
    ensures var t := InsertStep(n, goLeft, sub, f).t; InOrder(t) == Keys(n, goLeft, sub) && AugOk(t, f)
  {
    hide InOrder, AugOk;
    Open(sub, f);
    if goLeft {
      if TwoReds(sub) {
        Open(sub.left, f);
        var t := sub.(left := sub.left.(red := false));
        Open(t, f);
        Open(n.(left := t), f);
        RotateRightOk(n.(left := t), f);
      } else {
        Open(Augment(n.(left := sub), f), f);
      }
    } else if sub.red && !IsRed(n.left) {
      var t := n.(right := sub.(red := n.red), red := true);
      Open(t, f);
      RotateLeftOk(t, f);
    } else {
      if n.left.Node? { Open(n.left, f); }
      Open(InsertStep(n, goLeft, sub, f).t, f);
    }
  }

  /** What a step hands up, in a place of black height h below top. */
  ghost predicate StepOk(step: Step, up: seq<Frame>, h: nat) {
    && (step.Done? ==> Ok(step.t, h) && (IsRed(step.t) ==> RedOk(up)))
    && (step.Up? ==> Rising(step.t, h) && (TwoReds(step.t) ==> RedOk(up)))
  }

  function HeightAt(n: Tree, h: nat): nat requires n.Node? { if n.red then h else h + 1 }

  /** A step of insert's unwinding keeps colours and black height but for two reds in a row. */
  lemma InsertStepOk(path: seq<Frame>, sub: Tree, f: Callback, h: nat, top: nat)
    requires path != [] && Fits(path, h, top) && Rising(sub, h) && (TwoReds(sub) ==> RedOk(path))
    ensures var fr, up := path[|path| - 1], path[..|path| - 1];
            && Fits(up, HeightAt(fr.node, h), top)
            && StepOk(InsertStep(fr.node, fr.goLeft, sub, f), up, HeightAt(fr.node, h))
  {
    hide Ok;
    var fr := path[|path| - 1];
    var n, h' := fr.node, HeightAt(fr.node, h);
    var t := InsertStep(n, fr.goLeft, sub, f).t;
    OpenOk(sub, h);
    OpenOk(t, h');
    if fr.goLeft && TwoReds(sub) {
      OpenOk(sub.left, h);
      OpenOk(t.left, h + 1);
      OpenOk(t.right, h + 1);
    } else if !fr.goLeft && sub.red {
      if n.left.Node? { OpenOk(n.left, h); }
      if IsRed(n.left) {
        OpenOk(t.left, h + 1);
        OpenOk(t.right, h + 1);
      } else {
        OpenOk(t.left, h);
      }
    }
  }

  lemma RemoveLeftStepKeys(n: Tree, sub: Tree, f: Callback)
    requires n.Node? && n.right.Node? && AugOk(sub, f) && AugOk(n.right, f)
    ensures var t := RemoveLeftStep(n, sub, f).t; InOrder(t) == Keys(n, true, sub) && AugOk(t, f)
  {
    hide InOrder, AugOk;
    var right := n.right;
    Open(right, f);
    var c := n.(left := sub);
    if IsRed(right.left) {
      Open(right.left, f);
      var r := if n.red then right else right.(left := right.left.(red := false));
      Open(r, f);
      RotateRightOk(r, f);
      var r' := RotateRight(r, f);
      Open(r', f);
      var c' := c.(red := false, right := r');
      Open(c', f);
      RotateLeftOk(c', f);
    } else {
      var c' := c.(red := true);
      Open(c', f);
      RotateLeftOk(c', f);
    }
  }

  lemma RemoveRightStepKeys(n: Tree, sub: Tree, f: Callback)
    requires n.Node? && n.left.Node? && (n.left.red ==> n.left.right.Node?) && AugOk(sub, f) && AugOk(n.left, f)
    ensures var t := RemoveRightStep(n, sub, f).t; InOrder(t) == Keys(n, false, sub) && AugOk(t, f)
  {
    hide InOrder, AugOk;
    var left := n.left;
    Open(left, f);
    if left.red {
      Open(left.right, f);
      RemoveRightRedKeys(n, sub, f);
    } else if IsRed(left.left) {
      Open(left.left, f);
      var l := left.(red := n.red, left := left.left.(red := false));
      Open(l, f);
      var c' := n.(right := sub, red := false, left := l);
      Open(c', f);
      RotateRightOk(c', f);
    } else {
      var c' := Augment(n.(right := sub, red := false, left := left.(red := true)), f);
      Open(c', f);
    }
  }

  lemma RemoveRightRedKeys(n: Tree, sub: Tree, f: Callback)
    requires n.Node? && n.left.Node? && n.left.red && n.left.right.Node? && AugOk(sub, f) && AugOk(n.left, f)
    ensures var t := RemoveRightStep(n, sub, f).t; InOrder(t) == Keys(n, false, sub) && AugOk(t, f)
  {
    hide InOrder, AugOk;
    var left, lr := n.left, n.left.right;
    Open(left, f);
    Open(lr, f);
    if IsRed(lr.left) {
      Open(lr.left, f);
      var lr' := lr.(left := lr.left.(red := false));
      Open(lr', f);
      var c := n.(right := sub, left := lr');
      Open(c, f);
      RotateRightOk(c, f);
      var t := RotateRight(c, f);
      Open(t, f);
      var u := left.(right := t);
      Open(u, f);
      RotateLeftOk(u, f);
      Regroup(InOrder(left.left), left.key, InOrder(lr), n.key, InOrder(sub));
    } else {
      var l := left.(right := lr.(red := true));
      Open(l, f);
      var c := n.(right := sub, left := l);
      Open(c, f);
      RotateRightOk(c, f);
      Open(RotateRight(c, f), f);
    }
  }

  /** What a step of remove's unwinding hands up: balance restored, or one black node short. */
  ghost predicate ShortOk(step: Step, up: seq<Frame>, h: nat) {
    && (step.Done? ==> Ok(step.t, h) && (IsRed(step.t) ==> RedOk(up)))
    && (step.Up? ==> h > 0 && Ok(step.t, h - 1) && !IsRed(step.t))
  }

  lemma RemoveLeftStepOk(path: seq<Frame>, sub: Tree, f: Callback, h: nat, top: nat)
    requires path != [] && Fits(path, h + 1, top) && Ok(sub, h) && !IsRed(sub) && path[|path| - 1].goLeft
    ensures var n, up := path[|path| - 1].node, path[..|path| - 1];
            && Fits(up, HeightAt(n, h + 1), top) && n.right.Node?
            && ShortOk(RemoveLeftStep(n, sub, f), up, HeightAt(n, h + 1))
  {
    hide Ok;
    var n, up := path[|path| - 1].node, path[..|path| - 1];
    var right := n.right;
    NotNil(right, h);
    OpenOk(right, h + 1);
    var step := RemoveLeftStep(n, sub, f);
    var t := step.t;
    if IsRed(right.left) {
      OpenOk(right.left, h);
      OpenOk(t, HeightAt(n, h + 1));
      OpenOk(t.left, h + 1);
      OpenOk(t.right, h + 1);
    } else {
      OpenOk(t, h + 1);
      OpenOk(t.left, h);
    }
  }

  lemma NotNil(t: Tree, h: nat)
    requires Ok(t, h + 1)
    ensures t.Node?
  {
  }

  lemma RemoveRightStepOk(path: seq<Frame>, sub: Tree, f: Callback, h: nat, top: nat)
    requires path != [] && Fits(path, h + 1, top) && Ok(sub, h) && !IsRed(sub) && !path[|path| - 1].goLeft
    ensures var n, up := path[|path| - 1].node, path[..|path| - 1];
            && Fits(up, HeightAt(n, h + 1), top) && n.left.Node? && (n.left.red ==> n.left.right.Node?)
            && ShortOk(RemoveRightStep(n, sub, f), up, HeightAt(n, h + 1))
  {
    hide Ok;
    var n, up := path[|path| - 1].node, path[..|path| - 1];
    var left, h' := n.left, HeightAt(n, h + 1);
    NotNil(left, h);
    OpenOk(left, h + 1);
    if left.red {
      var lr := left.right;
      NotNil(lr, h);
      OpenOk(lr, h + 1);
      var t := RemoveRightStep(n, sub, f).t;
      OpenOk(t, h + 2);
      if IsRed(lr.left) {
        OpenOk(lr.left, h);
        OpenOk(t.left, h + 1);
        OpenOk(t.left.right, h + 1);
        OpenOk(t.right, h + 1);
      } else {
        OpenOk(t.right, h + 1);
        OpenOk(t.right.left, h);
      }
    } else {
      var t := RemoveRightStep(n, sub, f).t;
      if IsRed(left.left) {
        OpenOk(left.left, h);
        OpenOk(t, h');
        OpenOk(t.left, h + 1);
        OpenOk(t.right, h + 1);
      } else {
        OpenOk(t, h + 1);
        OpenOk(t.left, h);
      }
    }
  }

  // ---------- winding ----------

  function Height(t: Tree): nat {
    if t.Nil? then 0 else 1 + if Height(t.left) > Height(t.right) then Height(t.left) else Height(t.right)
  }

  function Elems(t: Tree): set<int> { set k | k in InOrder(t) }

  /** The path leads from the root to the subtree cur, of black height h. */
  ghost predicate At(root: Tree, path: seq<Frame>, cur: Tree, h: nat, top: nat, f: Callback) {
    && Frames(path) && Fits(path, h, top) && AugFits(path, f)
    && Ok(cur, h) && (IsRed(cur) ==> RedOk(path)) && AugOk(cur, f)
    && Before(path) + InOrder(cur) + After(path) == InOrder(root)
    && |path| + Height(cur) <= Height(root)
  }

  function Child(t: Tree, goLeft: bool): Tree requires t.Node? { if goLeft then t.left else t.right }

  lemma Descend(root: Tree, path: seq<Frame>, cur: Tree, goLeft: bool, h: nat, top: nat, f: Callback) returns (hc: nat)
    requires At(root, path, cur, h, top, f) && cur.Node?
    ensures At(root, path + [Frame(cur, goLeft)], Child(cur, goLeft), hc, top, f)
    ensures HeightAt(cur, hc) == h
  {
    hc := if cur.red then h else h - 1;
    var fr := Frame(cur, goLeft);
    var path' := path + [fr];
    assert path'[..|path'| - 1] == path && path'[|path'| - 1] == fr;
    FillKeys(path', Child(cur, goLeft), f);
    assert Augment(Fill(fr, Child(cur, goLeft)), f) == cur;
  }

  ghost predicate Between(path: seq<Frame>, x: int)
    requires Frames(path)
  {
    (forall k :: k in Before(path) ==> k < x) && (forall k :: k in After(path) ==> x < k)
  }

  lemma Parted(b: seq<int>, l: seq<int>, k: int, r: seq<int>, a: seq<int>)
    requires Sorted(b + (l + [k] + r) + a)
    ensures (forall e :: e in l ==> e < k) && (forall e :: e in r ==> k < e)
  {
    var s := b + (l + [k] + r) + a;
    assert s[|b| + |l|] == k;
    forall e | e in l ensures e < k {
      var i :| 0 <= i < |l| && l[i] == e;
      assert s[|b| + i] == e;
    }
    forall e | e in r ensures k < e {
      var i :| 0 <= i < |r| && r[i] == e;
      assert s[|b| + |l| + 1 + i] == e;
    }
  }

  lemma DescendBetween(root: Tree, path: seq<Frame>, cur: Tree, h: nat, top: nat, f: Callback, x: int)
    requires At(root, path, cur, h, top, f) && cur.Node? && Sorted(InOrder(root)) && Between(path, x) && cur.key != x
    ensures Between(path + [Frame(cur, x < cur.key)], x)
  {
    Parted(Before(path), InOrder(cur.left), cur.key, InOrder(cur.right), After(path));
    var path' := path + [Frame(cur, x < cur.key)];
    assert path'[..|path'| - 1] == path;
  }

  // ---------- insert ----------

  lemma Spliced(b: seq<int>, x: int, a: seq<int>)
    requires Sorted(b + a) && (forall k :: k in b ==> k < x) && (forall k :: k in a ==> x < k)
    ensures Sorted(b + [x] + a)
    ensures (set k | k in b + [x] + a) == (set k | k in b + a) + {x}
  {
    var s, r := b + [x] + a, b + a;
    forall i, j | 0 <= i < j < |s| ensures s[i] < s[j] {
      assert i < |b| ==> s[i] == r[i] && s[i] in b;
      assert i > |b| ==> s[i] == r[i - 1];
      assert j < |b| ==> s[j] == r[j];
      assert j > |b| ==> s[j] == r[j - 1] && s[j] == a[j - |b| - 1] && s[j] in a;
    }
  }

  /** Unwinding state: the subtree sub in the place of the first i frames completes the keys all. */
  ghost predicate Unwinding(path: seq<Frame>, i: nat, sub: Tree, all: seq<int>, f: Callback)
    requires i <= |path|
  {
    && Frames(path) && AugFits(path, f) && AugOk(sub, f)
    && Before(path[..i]) + InOrder(sub) + After(path[..i]) == all
  }

  lemma UnwindStep(path: seq<Frame>, i: nat, sub: Tree, all: seq<int>, t: Tree, f: Callback)
    requires 0 < i <= |path| && Unwinding(path, i, sub, all, f) && AugOk(t, f)
    requires InOrder(t) == Keys(path[i - 1].node, path[i - 1].goLeft, sub)
    ensures Unwinding(path, i - 1, t, all, f)
  {
    var p := path[..i];
    assert p[..i - 1] == path[..i - 1] && Frames(p);
    FillKeys(p, sub, f);
    assert InOrder(Augment(Fill(p[i - 1], sub), f)) == InOrder(t);
  }

  lemma Start(root: Tree, top: nat, f: Callback, x: int)
    requires Ok(root, top) && !IsRed(root) && AugOk(root, f)
    ensures At(root, [], root, top, top, f) && Between([], x)
  {
    assert [] + InOrder(root) + [] == InOrder(root);
  }

  lemma KeyAt(root: Tree, path: seq<Frame>, cur: Tree, h: nat, top: nat, f: Callback)
    requires At(root, path, cur, h, top, f) && cur.Node?
    ensures cur.key in Elems(root)
  {
    assert cur.key in InOrder(cur);
  }

  lemma Ended(root: Tree, path: seq<Frame>, h: nat, top: nat, f: Callback)
    requires At(root, path, Nil, h, top, f)
    ensures h == 0 && |path| <= Height(root)
  {
  }

  /** Insert by recursion: what the step at the root of t hands up. */
  function InsertRec(t: Tree, x: int, f: Callback): (step: Step)
    ensures step.t.Node?
  {
    if t.Nil? then Up(Augment(Node(Nil, x, true, 0, Nil), f)) else
      var goLeft := x < t.key;
      match InsertRec(Child(t, goLeft), x, f)
      case Up(sub) => InsertStep(t, goLeft, sub, f)
      case Done(sub) => Done(Augment(Fill(Frame(t, goLeft), sub), f))
  }

  /** The tree that insert makes: the root ends black. */
  function InsertTree(root: Tree, x: int, f: Callback): Tree {
    match InsertRec(root, x, f)
    case Up(t) => t.(red := false)
    case Done(t) => t
  }

  /** What unwinding along a path makes of the step below it. */
  function Unwound(path: seq<Frame>, step: Step, f: Callback): Tree
    requires step.t.Node? && forall i :: 0 <= i < |path| ==> path[i].node.Node?
    decreases |path|
  {
    if step.Done? then Propagated(path, step.t, f)
    else if path == [] then step.t.(red := false)
    else
      var fr := path[|path| - 1];
      Unwound(path[..|path| - 1], InsertStep(fr.node, fr.goLeft, step.t, f), f)
  }

  /** Going down one node leaves the tree that insert makes the same. */
  lemma UnwoundChild(path: seq<Frame>, cur: Tree, x: int, f: Callback)
    requires Frames(path) && cur.Node?
    ensures var path' := path + [Frame(cur, x < cur.key)];
            Unwound(path', InsertRec(Child(cur, x < cur.key), x, f), f) == Unwound(path, InsertRec(cur, x, f), f)
  {
    var path' := path + [Frame(cur, x < cur.key)];
    assert path'[..|path'| - 1] == path;
  }

  lemma UnwoundAll(root: Tree, x: int, f: Callback)
    ensures Unwound([], InsertRec(root, x, f), f) == InsertTree(root, x, f)
  {
  }

  /** So does going up one. */
  lemma UnwoundTurn(path: seq<Frame>, i: nat, sub: Tree, f: Callback)
    requires 0 < i <= |path| && Frames(path) && sub.Node?
    ensures var step := InsertStep(path[i - 1].node, path[i - 1].goLeft, sub, f);
            step.t.Node? && Unwound(path[..i], Up(sub), f) == Unwound(path[..i - 1], step, f)
  {
    assert path[..i][..i - 1] == path[..i - 1];
  }

  lemma UnwoundEnd(path: seq<Frame>, i: nat, step: Step, f: Callback)
    requires i <= |path| && Frames(path) && step.t.Node?
    ensures step.Done? ==> Unwound(path[..i], step, f) == Propagated(path[..i], step.t, f)
    ensures step.Up? && i == 0 ==> Unwound(path[..i], step, f) == step.t.(red := false)
  {
  }

  /** The nodes on the way down to the place of x. */
  function Way(t: Tree, x: int): nat { if t.Nil? then 0 else 1 + Way(Child(t, x < t.key), x) }

  lemma OpenWay(t: Tree, x: int, f: Callback)
    ensures Way(t, x) == if t.Nil? then 0 else 1 + Way(Child(t, x < t.key), x)
    ensures t.Nil? ==> InsertRec(t, x, f) == Up(Augment(Node(Nil, x, true, 0, Nil), f))
  {
  }

  /** insert: the tree stays legal and gains exactly x, and is the one that the recursive form makes;
      depth is the number of path entries used. */
  method Insert(root: Tree, x: int, f: Callback) returns (t: Tree, depth: nat)
    requires Legal(root, f) && x !in Elems(root)
    ensures Legal(t, f) && Elems(t) == Elems(root) + {x} && t == InsertTree(root, x, f)
    ensures depth == Way(root, x) + 1 <= Height(root) + 1
  {
    hide Elems, Ok, At, Between, AugOk, Sorted, InOrder, Height, InsertRec, InsertTree, Unwound, Way;
    ghost var top: nat :| Ok(root, top);
    ghost var h: nat := top;
    var cur, path := root, [];
    Start(root, top, f, x);
    UnwoundAll(root, x, f);
    while cur.Node?
      invariant Frames(path) && At(root, path, cur, h, top, f) && Between(path, x)
      invariant Unwound(path, InsertRec(cur, x, f), f) == InsertTree(root, x, f)
      invariant |path| + Way(cur, x) == Way(root, x)
      decreases cur
    {
      UnwoundChild(path, cur, x, f);
      OpenWay(cur, x, f);
      KeyAt(root, path, cur, h, top, f);
      DescendBetween(root, path, cur, h, top, f, x);
      h := Descend(root, path, cur, x < cur.key, h, top, f);
      path, cur := path + [Frame(cur, x < cur.key)], Child(cur, x < cur.key);
    }
    Ended(root, path, h, top, f);
    OpenWay(cur, x, f);
    depth := |path| + 1;
    t := InsertUnwind(root, path, x, f, top);
  }

  /** The new leaf below the path, and what is left to restore on the way up. */
  lemma NewLeaf(root: Tree, path: seq<Frame>, x: int, f: Callback, top: nat) returns (all: seq<int>)
    requires At(root, path, Nil, 0, top, f) && Frames(path) && Between(path, x) && Sorted(InOrder(root))
    ensures Unwinding(path, |path|, Augment(Node(Nil, x, true, 0, Nil), f), all, f)
    ensures Fits(path[..|path|], 0, top) && Rising(Augment(Node(Nil, x, true, 0, Nil), f), 0)
    ensures Sorted(all) && (set k | k in all) == Elems(root) + {x}
  {
    hide Before, After, Sorted, Fits, AugFits;
    var leaf := Augment(Node(Nil, x, true, 0, Nil), f);
    all := Before(path) + [x] + After(path);
    assert path[..|path|] == path;
    assert InOrder(leaf) == [x];
    assert InOrder(root) == Before(path) + After(path);
    Spliced(Before(path), x, After(path));
  }

  /** One turn of insert's unwind loop. */
  lemma InsertTurn(path: seq<Frame>, i: nat, sub: Tree, all: seq<int>, f: Callback, h: nat, top: nat)
    requires 0 < i <= |path| && Unwinding(path, i, sub, all, f)
    requires Fits(path[..i], h, top) && Rising(sub, h) && (TwoReds(sub) ==> RedOk(path[..i]))
    ensures var fr := path[i - 1];
            && fr.node.Node? && sub.Node? && Fits(path[..i - 1], HeightAt(fr.node, h), top)
            && var step := InsertStep(fr.node, fr.goLeft, sub, f);
            && Unwinding(path, i - 1, step.t, all, f)
            && StepOk(step, path[..i - 1], HeightAt(fr.node, h))
  {
    hide Fits, AugOk, Ok, Before, After, InsertStep, InOrder, StepOk, RedOk;
    var p, fr := path[..i], path[i - 1];
    assert p[..i - 1] == path[..i - 1] && p[i - 1] == fr;
    InsertStepOk(p, sub, f, h, top);
    InsertStepKeys(fr.node, fr.goLeft, sub, f);
    UnwindStep(path, i, sub, all, InsertStep(fr.node, fr.goLeft, sub, f).t, f);
  }

  /** Putting a finished subtree in its place. */
  lemma Finish(path: seq<Frame>, i: nat, sub: Tree, all: seq<int>, f: Callback, h: nat, top: nat)
    requires i <= |path| && Unwinding(path, i, sub, all, f) && Sorted(all)
    requires Fits(path[..i], h, top) && Ok(sub, h) && (IsRed(sub) ==> RedOk(path[..i]))
    ensures Frames(path[..i])
    ensures var t := Propagated(path[..i], sub, f); Legal(t, f) && Elems(t) == set k | k in all
  {
    PropagatedOk(path[..i], sub, f, h, top);
  }

  lemma Blacken(path: seq<Frame>, sub: Tree, all: seq<int>, f: Callback, h: nat, top: nat)
    requires Unwinding(path, 0, sub, all, f) && Sorted(all) && Rising(sub, h) && !TwoReds(sub)
    ensures var t := sub.(red := false); Legal(t, f) && Elems(t) == set k | k in all
  {
    assert [] + InOrder(sub) + [] == InOrder(sub);
    assert Ok(sub.(red := false), if sub.red then h + 1 else h);
  }

  method InsertUnwind(ghost root: Tree, path: seq<Frame>, x: int, f: Callback, ghost top: nat) returns (t: Tree)
    requires At(root, path, Nil, 0, top, f) && Frames(path) && Between(path, x) && Sorted(InOrder(root))
    ensures Legal(t, f) && Elems(t) == Elems(root) + {x}
    ensures t == Unwound(path, Up(Augment(Node(Nil, x, true, 0, Nil), f)), f)
  {
    hide Elems, Legal, AugFits, Fits, Ok, At, Between, AugOk, Sorted, InOrder, Before, After, InsertStep, Unwound;
    assert path[..|path|] == path;
    var sub := Augment(Node(Nil, x, true, 0, Nil), f);
    ghost var all := NewLeaf(root, path, x, f, top);
    ghost var h: nat := 0;
    var i := |path|;
    while i > 0
      invariant 0 <= i <= |path| && Unwinding(path, i, sub, all, f)
      invariant Fits(path[..i], h, top) && Rising(sub, h) && (TwoReds(sub) ==> RedOk(path[..i]))
      invariant Unwound(path[..i], Up(sub), f) == Unwound(path, Up(Augment(Node(Nil, x, true, 0, Nil), f)), f)
    {
      InsertTurn(path, i, sub, all, f, h, top);
      UnwoundTurn(path, i, sub, f);
      i := i - 1;
      var fr := path[i];
      var step := InsertStep(fr.node, fr.goLeft, sub, f);
      h := HeightAt(fr.node, h);
      sub := step.t;
      if step.Done? {
        t := Propagate(path, i, sub, f);
        Finish(path, i, sub, all, f, h, top);
        UnwoundEnd(path, i, step, f);
        return;
      }
    }
    Blacken(path, sub, all, f, h, top);
    UnwoundEnd(path, 0, Up(sub), f);
    t := sub.(red := false);
  }

  // ---------- remove ----------

  lemma Cut(b: seq<int>, x: int, a: seq<int>)
    requires Sorted(b + [x] + a)
    ensures Sorted(b + a)
    ensures (set k | k in b + a) == (set k | k in b + [x] + a) - {x}
  {
    var s, r := b + [x] + a, b + a;
    forall i | 0 <= i < |r| ensures r[i] == s[if i < |b| then i else i + 1] {
    }
    assert s[|b|] == x;
    forall k | k in r ensures k in s && k != x {
      var i :| 0 <= i < |r| && r[i] == k;
    }
    forall k | k in s && k != x ensures k in r {
      var i :| 0 <= i < |s| && s[i] == k;
      assert i < |b| ==> r[i] == k;
      assert i > |b| ==> r[i - 1] == k;
    }
  }

  /** The place of a leaf to prune, after which the keys all remain. */
  ghost predicate Prunable(path: seq<Frame>, red: bool, all: seq<int>, f: Callback, top: nat) {
    && Frames(path) && AugFits(path, f) && Before(path) + After(path) == all
    && Fits(path, if red then 0 else 1, top) && (red ==> RedOk(path))
  }

  /** One turn of remove's unwind loop. */
  lemma RemoveTurn(path: seq<Frame>, i: nat, sub: Tree, all: seq<int>, f: Callback, h: nat, top: nat)
    requires 0 < i <= |path| && Unwinding(path, i, sub, all, f)
    requires Fits(path[..i], h + 1, top) && Ok(sub, h) && !IsRed(sub)
    ensures var fr := path[i - 1];
            && fr.node.Node? && Fits(path[..i - 1], HeightAt(fr.node, h + 1), top)
            && HasSibling(fr)
            && var step := RemoveStep(fr, sub, f);
            && Unwinding(path, i - 1, step.t, all, f)
            && ShortOk(step, path[..i - 1], HeightAt(fr.node, h + 1))
  {
    hide Fits, AugOk, Ok, Before, After, RemoveLeftStep, RemoveRightStep, InOrder, ShortOk;
    var p, fr := path[..i], path[i - 1];
    assert p[..i - 1] == path[..i - 1] && p[i - 1] == fr;
    if fr.goLeft {
      RemoveLeftStepOk(p, sub, f, h, top);
      RemoveLeftStepKeys(fr.node, sub, f);
    } else {
      RemoveRightStepOk(p, sub, f, h, top);
      RemoveRightStepKeys(fr.node, sub, f);
    }
    UnwindStep(path, i, sub, all, RemoveStep(fr, sub, f).t, f);
  }

  /** The nodes that remove's step looks at without asking whether they are there. */
  predicate HasSibling(fr: Frame) {
    fr.node.Node? &&
    if fr.goLeft then fr.node.right.Node?
    else fr.node.left.Node? && (fr.node.left.red ==> fr.node.left.right.Node?)
  }

  function RemoveStep(fr: Frame, sub: Tree, f: Callback): Step
    requires HasSibling(fr)
  {
    if fr.goLeft then RemoveLeftStep(fr.node, sub, f) else RemoveRightStep(fr.node, sub, f)
  }

  lemma Pruned(path: seq<Frame>, red: bool, all: seq<int>, f: Callback, top: nat)
    requires Prunable(path, red, all, f, top)
    ensures path[..|path|] == path && Unwinding(path, |path|, Nil, all, f)
  {
    assert path[..|path|] == path;
    assert Before(path) + [] + After(path) == Before(path) + After(path);
  }

  lemma Shorter(path: seq<Frame>, sub: Tree, all: seq<int>, f: Callback, h: nat)
    requires Unwinding(path, 0, sub, all, f) && Sorted(all) && Ok(sub, h) && !IsRed(sub)
    ensures Legal(sub, f) && Elems(sub) == set k | k in all
  {
    assert [] + InOrder(sub) + [] == InOrder(sub);
  }

  /** Prune the leaf in the place the path leads to, and restore the balance. */
  method Prune(path: seq<Frame>, red: bool, f: Callback, ghost all: seq<int>, ghost top: nat) returns (t: Tree)
    requires Prunable(path, red, all, f, top) && Sorted(all)
    ensures Legal(t, f) && Elems(t) == set k | k in all
  {
    hide Elems, Legal, AugFits, Fits, Ok, AugOk, Sorted, InOrder, Before, After, RemoveStep, HasSibling, RedOk;
    Pruned(path, red, all, f, top);
    var sub := Nil;
    ghost var h: nat := 0;
    assert Ok(Nil, 0) by { NilOk(); }
    var i := |path|;
    if red {
      t := Propagate(path, i, Nil, f);
      Finish(path, i, Nil, all, f, 0, top);
      return;
    }
    while i > 0
      invariant 0 <= i <= |path| && Unwinding(path, i, sub, all, f)
      invariant Fits(path[..i], h + 1, top) && Ok(sub, h) && !IsRed(sub)
    {
      RemoveTurn(path, i, sub, all, f, h, top);
      i := i - 1;
      var step := RemoveStep(path[i], sub, f);
      ghost var h' := HeightAt(path[i].node, h + 1);
      sub := step.t;
      if step.Done? {
        t := Propagate(path, i, sub, f);
        Finish(path, i, sub, all, f, h', top);
        return;
      }
      h := h' - 1;
    }
    Shorter(path, sub, all, f, h);
    t := sub;
  }

  lemma NilOk()
    ensures Ok(Nil, 0)
  {
  }

  /** Below node k, where the path turns right, it follows left links to the successor. */
  ghost predicate Spine(path: seq<Frame>, k: nat) {
    k < |path| && !path[k].goLeft && forall i :: k < i < |path| ==> path[i].goLeft
  }

  /** The successor takes the node's place, colour and children. */
  function Swap(path: seq<Frame>, k: nat): seq<Frame>
    requires k < |path| - 1 && path[k].node.Node? && path[|path| - 1].node.Node?
  {
    var node, succ := path[k].node, path[|path| - 1].node;
    path[k := path[k].(node := succ.(left := node.left, right := node.right, red := node.red))][..|path| - 1]
  }

  /** The last key before the place the path leads to is the node's. */
  lemma {:induction false} SpineBefore(path: seq<Frame>, k: nat)
    requires Frames(path) && Spine(path, k)
    ensures Before(path) == Before(path[..k]) + (InOrder(path[k].node.left) + [path[k].node.key])
    decreases |path|
  {
    var m := |path| - 1;
    if m > k {
      assert path[..m][..k] == path[..k];
      SpineBefore(path[..m], k);
    }
  }

  lemma {:induction false} SpineAfter(path: seq<Frame>, k: nat, n: Tree)
    requires Frames(path) && Spine(path, k) && n.Node?
    ensures After(path[k := path[k].(node := n)]) == After(path)
    decreases |path|
  {
    var m := |path| - 1;
    var path' := path[k := path[k].(node := n)];
    if m == k {
      assert path'[..m] == path[..m];
    } else {
      assert path'[..m] == path[..m][k := path[k].(node := n)];
      SpineAfter(path[..m], k, n);
    }
  }

  lemma {:induction false} SpineFits(path: seq<Frame>, k: nat, n: Tree, h: nat, top: nat)
    requires Spine(path, k) && Fits(path, h, top) && path[k].node.Node?
    requires n.Node? && n.left == path[k].node.left && n.red == path[k].node.red
    ensures Fits(path[k := path[k].(node := n)], h, top)
    decreases |path|
  {
    hide Ok;
    var m := |path| - 1;
    var path' := path[k := path[k].(node := n)];
    if m == k {
      assert path'[..m] == path[..m];
    } else {
      assert path'[..m] == path[..m][k := path[k].(node := n)];
      SpineFits(path[..m], k, n, HeightAt(path[m].node, h), top);
      assert RedOk(path[..m]) ==> RedOk(path'[..m]);
    }
  }

  lemma SwapAssoc(b: seq<int>, x: int, y: int, a: seq<int>)
    ensures (b + [x]) + ([y] + a) == b + [x] + ([y] + a)
    ensures (b + [y]) + a == b + ([y] + a)
  {
  }

  /** With the successor in the node's place, what remains to prune is the successor's. */
  lemma SwapOk(root: Tree, path: seq<Frame>, k: nat, h: nat, top: nat, f: Callback) returns (b: seq<int>, all: seq<int>)
    requires At(root, path, Nil, h, top, f) && k < |path| - 1 && Spine(path, k)
    ensures Frames(path) && Prunable(Swap(path, k), path[|path| - 1].node.red, all, f, top)
    ensures exists a :: InOrder(root) == b + [path[k].node.key] + a && all == b + a
  {
    hide Ok, Before, After, InOrder, Fits, AugOk;
    var m := |path| - 1;
    var node, succ := path[k].node, path[m].node;
    var n := succ.(left := node.left, right := node.right, red := node.red);
    var up := path[..m];
    LastOnSpine(path, h, top);
    var q := Swap(path, k);
    assert q == up[k := up[k].(node := n)];
    SpineBefore(up, k);
    SpineBefore(q, k);
    SpineAfter(up, k, n);
    SpineFits(up, k, n, HeightAt(succ, 0), top);
    assert up[..k] == q[..k];
    b := Before(up[..k]) + InOrder(node.left);
    var a := After(up);
    assert Before(up) == b + [node.key] && Before(q) == b + [succ.key];
    all := b + ([succ.key] + a);
    SwapAssoc(b, node.key, succ.key, a);
    NilKeys();
    assert InOrder(root) == (b + [node.key]) + [] + ([succ.key] + a);
    assert RedOk(up) ==> RedOk(q);
  }

  lemma NilKeys()
    ensures InOrder(Nil) == []
  {
  }

  /** The successor is a leaf. */
  lemma LastOnSpine(path: seq<Frame>, h: nat, top: nat)
    requires Frames(path) && path != [] && path[|path| - 1].goLeft && Fits(path, h, top) && Ok(Nil, h)
    ensures h == 0 && var m := |path| - 1;
            && Fits(path[..m], HeightAt(path[m].node, 0), top) && (path[m].node.red ==> RedOk(path[..m]))
            && Before(path) == Before(path[..m]) && After(path) == [path[m].node.key] + After(path[..m])
  {
    var r := path[|path| - 1].node.right;
    assert r.Nil?;
  }

  lemma Leftmost(root: Tree, path: seq<Frame>, cur: Tree, h: nat, top: nat, f: Callback)
    requires At(root, path, cur, h, top, f) && cur.Node? && cur.right.Nil?
    ensures Frames(path) && InOrder(cur) == InOrder(cur.left) + [cur.key]
    ensures cur.left.Node? ==>
              && !cur.red && cur.left.red && Ok(cur.left.(red := false), h) && AugOk(cur.left.(red := false), f)
              && Unwinding(path, |path|, cur.left.(red := false), Before(path) + InOrder(cur.left) + After(path), f)
              && Fits(path[..|path|], h, top)
    ensures cur.left.Nil? ==> Prunable(path, cur.red, Before(path) + InOrder(cur.left) + After(path), f, top)
    ensures InOrder(root) == (Before(path) + InOrder(cur.left)) + [cur.key] + After(path)
  {
    hide Before, After, Fits;
    assert path[..|path|] == path;
    OpenOk(cur, h);
    if cur.left.Node? {
      OpenOk(cur.left, if cur.red then h else h - 1);
      Open(cur.left, f);
    } else {
      assert h == if cur.red then 0 else 1;
      assert Before(path) + InOrder(cur.left) + After(path) == Before(path) + After(path);
    }
    Shift(Before(path), InOrder(cur.left), [cur.key], After(path));
    assert InOrder(cur) == InOrder(cur.left) + [cur.key];
  }

  /** remove: the tree stays legal and loses exactly x; depth is the number of path entries used. */
  method Remove(root: Tree, x: int, f: Callback) returns (t: Tree, depth: nat)
    requires Legal(root, f) && x in Elems(root)
    ensures Legal(t, f) && Elems(t) == Elems(root) - {x}
    ensures depth <= Height(root) + 1
  {
    hide Elems, Ok, At, Between, AugOk, Sorted, InOrder, Height, Legal;
    ghost var top: nat := LegalHeight(root, f);
    ghost var h: nat := top;
    var cur, path := root, [];
    Start(root, top, f, x);
    while cur.Node? && cur.key != x
      invariant Frames(path) && At(root, path, cur, h, top, f) && Between(path, x)
      decreases cur
    {
      DescendBetween(root, path, cur, h, top, f, x);
      h := Descend(root, path, cur, x < cur.key, h, top, f);
      path, cur := path + [Frame(cur, x < cur.key)], Child(cur, x < cur.key);
    }
    Found(root, path, cur, h, top, f, x);
    t, depth := RemoveFound(root, path, cur, f, h, top);
  }

  lemma LegalHeight(root: Tree, f: Callback) returns (top: nat)
    requires Legal(root, f)
    ensures Ok(root, top) && !IsRed(root) && AugOk(root, f) && Sorted(InOrder(root))
  {
    top :| Ok(root, top);
  }

  lemma Found(root: Tree, path: seq<Frame>, cur: Tree, h: nat, top: nat, f: Callback, x: int)
    requires At(root, path, cur, h, top, f) && Between(path, x) && x in Elems(root)
    ensures cur.Node?
  {
    assert x in InOrder(root);
  }

  /** The rest of remove, with the node found at the end of the path. */
  method RemoveFound(ghost root: Tree, upper: seq<Frame>, node: Tree, f: Callback, ghost hn: nat, ghost top: nat)
    returns (t: Tree, depth: nat)
    requires At(root, upper, node, hn, top, f) && node.Node? && Sorted(InOrder(root))
    ensures Legal(t, f) && Elems(t) == Elems(root) - {node.key}
    ensures depth <= Height(root) + 1
  {
    hide Elems, Ok, At, AugOk, Sorted, InOrder, Height, Legal, Fits, Before, After, Swap, Unwinding, Prunable;
    var path, cur := upper + [Frame(node, false)], node.right;
    var k := |upper|;
    ghost var h: nat := Descend(root, upper, node, false, hn, top, f);
    while cur.Node?
      invariant At(root, path, cur, h, top, f) && Spine(path, k) && path[k] == Frame(node, false)
      invariant |path| == k + 1 ==> cur == node.right && path[..k] == upper
      invariant |path| > k + 1 ==> path[|path| - 1].node.Node?
      decreases cur
    {
      h := Descend(root, path, cur, true, h, top, f);
      path, cur := path + [Frame(cur, true)], cur.left;
    }
    Ended(root, path, h, top, f);
    depth := |path| + 1;
    if |path| > k + 1 {
      ghost var b, all := SwapOk(root, path, k, h, top, f);
      RemoveKeys(root, b, node.key, all);
      t := Prune(Swap(path, k), path[|path| - 1].node.red, f, all, top);
    } else {
      Leftmost(root, upper, node, hn, top, f);
      ghost var b := Before(upper) + InOrder(node.left);
      ghost var all := b + After(upper);
      RemoveKeys(root, b, node.key, all);
      if node.left.Node? {
        Finish(upper, k, node.left.(red := false), all, f, hn, top);
        t := Propagate(upper, k, node.left.(red := false), f);
      } else {
        t := Prune(upper, node.red, f, all, top);
      }
    }
  }

  lemma RemoveKeys(root: Tree, b: seq<int>, x: int, all: seq<int>)
    requires Sorted(InOrder(root)) && exists a :: InOrder(root) == b + [x] + a && all == b + a
    ensures Sorted(all) && (set k | k in all) == Elems(root) - {x}
  {
    var a :| InOrder(root) == b + [x] + a && all == b + a;
    Cut(b, x, a);
  }

  // ---------- height ----------

  /** Two more than the fewest nodes of a legal tree of height h: 2, 3, 4, 6, 8, 12, ... */
  function Fewest2(h: nat): nat {
    if h == 0 then 2 else if h == 1 then 3 else 2 * Fewest2(h - 2)
  }

  lemma {:induction false} FewestStep(h: nat, b: nat)
    requires h <= 2 * b
    ensures Fewest2(h) < Fewest2(h + 1) <= Fewest2(h) + Pow2(b) && Fewest2(h) <= 2 * Pow2(b)
  {
    if h >= 2 { FewestStep(h - 2, b - 1); } else { assert b > 0 ==> Pow2(b) >= 2; }
  }

  lemma {:induction false} FewestGrows(h: nat, h': nat)
    requires h <= h'
    ensures Fewest2(h) <= Fewest2(h')
    decreases h'
  {
    if h < h' {
      FewestGrows(h, h' - 1);
      FewestStep(h' - 1, h');
    }
  }

  /** A legal tree is at most twice as high as its black height, and has at least the nodes of the
      sparsest legal tree of its height. */
  lemma {:induction false} Sparse(t: Tree, b: nat)
    requires Ok(t, b) && !IsRed(t)
    ensures Height(t) <= 2 * b
    ensures |InOrder(t)| + 1 >= Pow2(b) && |InOrder(t)| + 2 >= Fewest2(Height(t))
    decreases t
  {
    hide InOrder, Ok, Fewest2, Pow2;
    Size(t);
    if t.Node? {
      OpenOk(t, b);
      var l, r := t.left, t.right;
      Sparse(r, b - 1);
      FewestStep(Height(r), b - 1);
      Fewer(Height(t), b);
      if IsRed(l) {
        OpenOk(l, b - 1);
        Size(l);
        Sparse(l.left, b - 1);
        Sparse(l.right, b - 1);
        FewestStep(Height(l.left), b - 1);
        FewestStep(Height(l.right), b - 1);
      } else {
        Sparse(l, b - 1);
        FewestStep(Height(l), b - 1);
      }
    } else {
      NilHeight(b);
    }
  }

  lemma Size(t: Tree)
    ensures |InOrder(t)| == if t.Nil? then 0 else |InOrder(t.left)| + 1 + |InOrder(t.right)|
  {
  }

  lemma Fewer(h: nat, b: nat)
    requires b > 0
    ensures Pow2(b) == 2 * Pow2(b - 1) && (h >= 2 ==> Fewest2(h) == 2 * Fewest2(h - 2))
  {
  }

  lemma NilHeight(b: nat)
    requires Ok(Nil, b)
    ensures b == 0 && Pow2(0) == 1 && Fewest2(0) == 2
  {
  }

  lemma {:induction false} FewestIs(c: nat)
    ensures Fewest2(2 * c) == Pow2(c + 1) && Fewest2(2 * c + 1) == 3 * Pow2(c)
  {
    if c > 0 { FewestIs(c - 1); }
  }

  /** The path array of insert and remove has 128 entries, the iterator's 48. */
  const PATH := 128
  const ITERATOR := 48

  /** A legal tree of fewer than 2^65 - 2 nodes fits insert's and remove's path, one of fewer than
      3 * 2^24 - 2 nodes the iterator's. */
  lemma PathsFit(t: Tree, f: Callback)
    requires Legal(t, f)
    ensures |InOrder(t)| < Pow2(65) - 2 ==> Height(t) + 1 <= PATH
    ensures |InOrder(t)| < 3 * Pow2(24) - 2 ==> Height(t) <= ITERATOR
  {
    hide InOrder, Pow2, Fewest2, Height;
    var b := LegalHeight(t, f);
    Sparse(t, b);
    FewestIs(64);
    FewestIs(24);
    if Height(t) >= 128 { FewestGrows(128, Height(t)); }
    if Height(t) >= 49 { FewestGrows(49, Height(t)); }
  }

  /** A full subtree of black nodes, with keys from base on. */
  function Full(b: nat, base: int, f: Callback): Tree {
    if b == 0 then Nil else
      Augment(Node(Full(b - 1, base, f), base + Pow2(b - 1) - 1, false, 0, Full(b - 1, base + Pow2(b - 1), f)), f)
  }

  /** The sparsest trees of heights 2 * b and 2 * b + 1, with keys from 0 on. */
  function SparsestEven(b: nat, f: Callback): Tree
    decreases b, 1
  {
    if b == 0 then Nil else
      var n, p := Pow2(b) - 2, Pow2(b - 1);
      Augment(Node(SparsestRed(b, f), n + p, false, 0, Full(b - 1, n + p + 1, f)), f)
  }

  function SparsestRed(b: nat, f: Callback): Tree
    requires b > 0
    decreases b, 0
  {
    var n := Pow2(b) - 2;
    Augment(Node(SparsestEven(b - 1, f), n, true, 0, Full(b - 1, n + 1, f)), f)
  }

  function SparsestOdd(b: nat, f: Callback): Tree {
    var n := Pow2(b + 1) - 2;
    Augment(Node(SparsestEven(b, f), n, false, 0, Full(b, n + 1, f)), f)
  }

  function Range(base: int, n: nat): seq<int> { seq(n, i => base + i) }

  lemma RangeJoin(base: int, n: nat, m: nat)
    ensures Range(base, n) + [base + n] + Range(base + n + 1, m) == Range(base, n + 1 + m)
  {
  }

  lemma {:induction false} FullOk(b: nat, base: int, f: Callback)
    ensures var t := Full(b, base, f);
            Ok(t, b) && !IsRed(t) && AugOk(t, f) && InOrder(t) == Range(base, Pow2(b) - 1)
  {
    hide InOrder, AugOk, Ok, Range, Pow2;
    Bases(f);
    if b > 0 {
      var n := Pow2(b - 1);
      Fewer(0, b);
      FullOk(b - 1, base, f);
      FullOk(b - 1, base + n, f);
      RangeJoin(base, n - 1, n - 1);
      Open(Full(b, base, f), f);
      OpenOk(Full(b, base, f), b);
    }
  }

  lemma Bases(f: Callback)
    ensures Ok(Nil, 0) && AugOk(Nil, f) && InOrder(Nil) == [] && Pow2(0) == 1
    ensures forall base :: Range(base, 0) == []
  {
  }

  /** The nodes that go_left_down pushes. */
  function LeftSpine(t: Tree): nat { if t.Nil? then 0 else 1 + LeftSpine(t.left) }

  lemma {:induction false} SparsestEvenOk(b: nat, f: Callback)
    ensures Pow2(b + 1) >= 2
    ensures var t := SparsestEven(b, f);
            && Ok(t, b) && !IsRed(t) && AugOk(t, f) && LeftSpine(t) == 2 * b
            && InOrder(t) == Range(0, Pow2(b + 1) - 2)
    decreases b, 1
  {
    hide InOrder, AugOk, Ok, Range, Pow2, Full, SparsestRed;
    Fewer(0, b + 1);
    Bases(f);
    if b > 0 {
      Fewer(0, b);
      var n, p := Pow2(b) - 2, Pow2(b - 1);
      SparsestRedOk(b, f);
      FullOk(b - 1, n + p + 1, f);
      var t := SparsestEven(b, f);
      Open(t, f);
      OpenOk(t, b);
      RangeJoin(0, n + p, p - 1);
    }
  }

  lemma {:induction false} SparsestRedOk(b: nat, f: Callback)
    requires b > 0
    ensures var t := SparsestRed(b, f);
            && Ok(t, b - 1) && AugOk(t, f) && LeftSpine(t) == 2 * b - 1 && Pow2(b) >= 2
            && InOrder(t) == Range(0, Pow2(b) - 2 + Pow2(b - 1))
    decreases b, 0
  {
    hide InOrder, AugOk, Ok, Range, Pow2, Full, SparsestEven;
    SparsestEvenOk(b - 1, f);
    FullOk(b - 1, Pow2(b) - 1, f);
    var t := SparsestRed(b, f);
    Open(t, f);
    OpenOk(t, b - 1);
    RangeJoin(0, Pow2(b) - 2, Pow2(b - 1) - 1);
  }

  lemma SparsestOddOk(b: nat, f: Callback)
    ensures var t := SparsestOdd(b, f);
            && Ok(t, b + 1) && !IsRed(t) && AugOk(t, f) && LeftSpine(t) == 2 * b + 1
            && InOrder(t) == Range(0, 3 * Pow2(b) - 2)
  {
    hide InOrder, AugOk, Ok, Range, Pow2, Full, SparsestEven;
    Fewer(0, b + 1);
    SparsestEvenOk(b, f);
    FullOk(b, Pow2(b + 1) - 1, f);
    var t := SparsestOdd(b, f);
    Open(t, f);
    OpenOk(t, b + 1);
    RangeJoin(0, Pow2(b + 1) - 2, Pow2(b) - 1);
  }

  /** The bounds of PathsFit are exact: of those sizes there are legal trees whose leftmost way
      down, which ifirst follows, is one entry longer than the iterator's path, and leaves no entry
      for a new node at the end of insert's. */
  lemma BoundsExact(f: Callback)
    ensures var t := SparsestOdd(24, f);
            Legal(t, f) && |InOrder(t)| == 3 * Pow2(24) - 2 && LeftSpine(t) == ITERATOR + 1
    ensures var t := SparsestEven(64, f);
            Legal(t, f) && |InOrder(t)| == Pow2(65) - 2 && LeftSpine(t) == PATH
  {
    hide Pow2, SparsestOdd, SparsestEven, InOrder;
    SparsestOddOk(24, f);
    SparsestEvenOk(64, f);
  }
}
