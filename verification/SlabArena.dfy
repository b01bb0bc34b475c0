/**
 small/slab_arena.c: slab_map and slab_unmap as interleaved steps of any number of threads. The
 stack of free slabs is one atomic step here; ArenaOverLifo shows that it may be, as long as fewer
 than 2^16 pushes fall into the window of a pop. The counters count slabs.
 */
module SlabArena {

  import opened Common

  type Tid = nat

  /** A slab of the preallocated area, or one that mmap gave. */
  datatype Slab = Pre(index: nat) | Mapped(addr: nat)

  /** Where a thread stands in slab_map: the cache was empty; the quota was used; the slab counter
      was raised beyond the preallocated area; mmap failed; the counter was lowered again. */
  datatype Pc = Idle | Asked | Granted | Beyond | Failed | Refund

  /** prealloc slabs are there from the start. held is what callers of slab_map have; charged is the
      arena's share of the quota. */
  datatype State = State(prealloc: nat, stack: seq<Slab>, held: set<Slab>, used: nat, charged: nat, pcs: map<Tid, Pc>)

  datatype Action =
    | Pop(t: Tid)
    | UseQuota(t: Tid, granted: bool)
    | FetchAdd(t: Tid)
    | Mmap(t: Tid, ok: bool, addr: nat)
    | Subtract(t: Tid)
    | ReleaseQuota(t: Tid)
    | Unmap(t: Tid, slab: Slab)

  function PcOf(s: State, t: Tid): Pc { if t in s.pcs then s.pcs[t] else Idle }

  function Exists(s: State): set<Slab> { (set x | x in s.stack) + s.held }

  predicate Enabled(s: State, a: Action) {
    match a
    case Pop(t) => PcOf(s, t).Idle?
    case UseQuota(t, _) => PcOf(s, t).Asked?
    case FetchAdd(t) => PcOf(s, t).Granted?
    case Mmap(t, ok, addr) => PcOf(s, t).Beyond? && (ok ==> Mapped(addr) !in Exists(s))
    case Subtract(t) => PcOf(s, t).Failed?
    case ReleaseQuota(t) => PcOf(s, t).Refund?
    case Unmap(t, slab) => PcOf(s, t).Idle? && slab in s.held
  }

  /** The slab that a step hands to a caller of slab_map. */
  datatype Given = Nothing | Slab(slab: Slab)

  function Hands(s: State, a: Action): Given {
    match a
    case Pop(_) => if s.stack == [] then Nothing else Given.Slab(s.stack[0])
    case FetchAdd(_) => if s.used + 1 <= s.prealloc then Given.Slab(Pre(s.used)) else Nothing
    case Mmap(_, ok, addr) => if ok then Given.Slab(Mapped(addr)) else Nothing
    case _ => Nothing
  }

  function Step(s: State, a: Action): State
    requires Enabled(s, a)
  {
    match a
    case Pop(t) =>
      if s.stack == [] then s.(pcs := s.pcs[t := Asked]) else s.(stack := s.stack[1..])
    case UseQuota(t, granted) =>
      if granted then s.(charged := s.charged + 1, pcs := s.pcs[t := Granted]) else s.(pcs := s.pcs[t := Idle])
    case FetchAdd(t) =>
      s.(used := s.used + 1, pcs := s.pcs[t := if s.used + 1 <= s.prealloc then Idle else Beyond])
    case Mmap(t, ok, _) => s.(pcs := s.pcs[t := if ok then Idle else Failed])
    case Subtract(t) => s.(used := if s.used > 0 then s.used - 1 else 0, pcs := s.pcs[t := Refund])
    case ReleaseQuota(t) => s.(charged := if s.charged > 0 then s.charged - 1 else 0, pcs := s.pcs[t := Idle])
    case Unmap(t, slab) => s.(stack := [slab] + s.stack, held := s.held - {slab})
  }

  function Apply(s: State, a: Action): State
    requires Enabled(s, a)
  {
    var s', g := Step(s, a), Hands(s, a);
    if g.Nothing? then s' else s'.(held := s'.held + {g.slab})
  }

  function Init(prealloc: nat): State { State(prealloc, [], {}, 0, 0, map[]) }

  // ---------- the invariant ----------

  predicate Counting(pc: Pc) { pc.Beyond? || pc.Failed? }
  predicate Paying(pc: Pc) { pc.Granted? || pc.Beyond? || pc.Failed? || pc.Refund? }

  /** Threads that have raised the slab counter, or the quota, for a slab that does not exist. */
  ghost function Counted(s: State): set<Tid> { set t | t in s.pcs && Counting(s.pcs[t]) }
  ghost function Payers(s: State): set<Tid> { set t | t in s.pcs && Paying(s.pcs[t]) }

  /** No slab is in two places. */
  ghost predicate Apart(stack: seq<Slab>, held: set<Slab>) {
    NoDup(stack) && forall x :: x in stack ==> x !in held
  }

  /** The preallocated slabs handed out so far are the first ones, all of them before the first
      mmap; the counters count the slabs e and the requests under way. */
  ghost predicate Counts(prealloc: nat, e: set<Slab>, used: nat, charged: nat, counted: nat, payers: nat) {
    && (forall k: nat :: Pre(k) in e <==> k < prealloc && k < used)
    && (used < prealloc ==> counted == 0 && forall x :: x in e ==> x.Pre?)
    && used == |e| + counted && charged == |e| + payers
  }

  ghost predicate Inv(s: State) {
    Apart(s.stack, s.held) && Counts(s.prealloc, Exists(s), s.used, s.charged, |Counted(s)|, |Payers(s)|)
  }

  lemma {:induction false} AtLeast(e: set<Slab>, n: nat)
    requires forall k: nat :: k < n ==> Pre(k) in e
    ensures |e| >= n
  {
    if n > 0 { AtLeast(e - {Pre(n - 1)}, n - 1); }
  }

  function Bit(b: bool): nat { if b then 1 else 0 }

  /** One thread moves. */
  lemma Moved(s: State, s': State, t: Tid)
    requires s'.pcs == s.pcs[t := PcOf(s', t)]
    ensures |Counted(s')| == |Counted(s)| + Bit(Counting(PcOf(s', t))) - Bit(Counting(PcOf(s, t)))
    ensures |Payers(s')| == |Payers(s)| + Bit(Paying(PcOf(s', t))) - Bit(Paying(PcOf(s, t)))
  {
    assert Counted(s') - {t} == Counted(s) - {t} && Payers(s') - {t} == Payers(s) - {t};
    assert t in Counted(s) <==> Counting(PcOf(s, t));
    assert t in Payers(s) <==> Paying(PcOf(s, t));
    CardOut(Counted(s), t);
    CardOut(Counted(s'), t);
    CardOut(Payers(s), t);
    CardOut(Payers(s'), t);
  }

  lemma CardOut(a: set<Tid>, t: Tid)
    ensures |a| == |a - {t}| + Bit(t in a)
  {
    if t !in a { assert a - {t} == a; }
  }

  lemma Still(s: State, s': State)
    requires s'.pcs == s.pcs
    ensures Counted(s') == Counted(s) && Payers(s') == Payers(s)
  {
  }

  /** Whoever gets a slab is its only holder. */
  lemma NotHeld(s: State, a: Action)
    requires Inv(s) && Enabled(s, a) && Hands(s, a).Slab?
    ensures Hands(s, a).slab !in s.held && Hands(s, a).slab in Apply(s, a).held
  {
    hide Counted, Payers;
    assert a.Pop? ==> s.stack[0] in s.stack;
    assert a.FetchAdd? ==> Pre(s.used) !in Exists(s);
  }

  /** A step ends a call of slab_map without a slab. */
  predicate Fails(s: State, a: Action)
    requires Enabled(s, a)
  {
    !a.Unmap? && Hands(s, a).Nothing? && PcOf(Apply(s, a), a.t).Idle?
  }

  /** slab_map fails exactly when the quota or mmap refuses, and asks for neither while there is a slab on
      the stack, nor for mmap while a preallocated slab was never handed out. */
  lemma FailsExactly(s: State, a: Action)
    requires Inv(s) && Enabled(s, a)
    ensures Fails(s, a) <==> a.ReleaseQuota? || (a.UseQuota? && !a.granted)
    ensures a.Pop? && s.stack != [] ==> Hands(s, a) == Given.Slab(s.stack[0])
    ensures a.FetchAdd? && s.used < s.prealloc ==> Hands(s, a).Slab? && Hands(s, a).slab !in Exists(s)
    ensures PcOf(Apply(s, a), a.t).Refund? ==> a.Subtract?
    ensures PcOf(Apply(s, a), a.t).Failed? && !PcOf(s, a.t).Failed? ==> a.Mmap? && !a.ok
  {
    hide Counted, Payers;
    assert a.FetchAdd? ==> Pre(s.used) !in Exists(s);
  }

  lemma PopKeeps(s: State, t: Tid)
    requires Inv(s) && Enabled(s, Pop(t))
    ensures Inv(Apply(s, Pop(t)))
  {
    hide Counted, Payers;
    var s' := Apply(s, Pop(t));
    if s.stack == [] {
      Moved(s, s', t);
    } else {
      Still(s, s');
      PopTop(s.stack, s.held);
    }
    assert Exists(s') == Exists(s);
  }

  lemma PopTop(stack: seq<Slab>, held: set<Slab>)
    requires Apart(stack, held) && stack != []
    ensures Apart(stack[1..], held + {stack[0]})
    ensures (set x | x in stack[1..]) + (held + {stack[0]}) == (set x | x in stack) + held
  {
    assert stack == [stack[0]] + stack[1..];
  }

  lemma QuotaKeeps(s: State, a: Action)
    requires Inv(s) && Enabled(s, a) && (a.UseQuota? || a.ReleaseQuota?)
    ensures Inv(Apply(s, a))
  {
    hide Counted, Payers, Exists;
    var t, s' := a.t, Apply(s, a);
    Moved(s, s', t);
    SameSlabs(s, s');
  }

  lemma SameSlabs(s: State, s': State)
    requires s'.stack == s.stack && s'.held == s.held
    ensures Exists(s') == Exists(s)
  {
  }

  lemma MoreSlabs(s: State, s': State, x: Slab)
    requires Apart(s.stack, s.held) && s'.stack == s.stack && s'.held == s.held + {x} && x !in Exists(s)
    ensures Exists(s') == Exists(s) + {x} && Apart(s'.stack, s'.held)
  {
  }

  lemma FetchAddKeeps(s: State, t: Tid)
    requires Inv(s) && Enabled(s, FetchAdd(t))
    ensures Inv(Apply(s, FetchAdd(t)))
  {
    hide Counted, Payers, Exists;
    var s' := Apply(s, FetchAdd(t));
    Moved(s, s', t);
    if s.used + 1 <= s.prealloc {
      MoreSlabs(s, s', Pre(s.used));
    } else {
      SameSlabs(s, s');
    }
  }

  lemma MmapKeeps(s: State, a: Action)
    requires Inv(s) && Enabled(s, a) && a.Mmap?
    ensures Inv(Apply(s, a))
  {
    hide Counted, Payers, Exists;
    var t, s' := a.t, Apply(s, a);
    Moved(s, s', t);
    if a.ok {
      MoreSlabs(s, s', Mapped(a.addr));
    } else {
      SameSlabs(s, s');
    }
  }

  lemma SubtractKeeps(s: State, t: Tid)
    requires Inv(s) && Enabled(s, Subtract(t))
    ensures Inv(Apply(s, Subtract(t))) && Apply(s, Subtract(t)).used == s.used - 1 >= s.prealloc
  {
    hide Counted, Payers, Exists;
    var s' := Apply(s, Subtract(t));
    Moved(s, s', t);
    SameSlabs(s, s');
    assert |Counted(s)| > 0;
    AtLeast(Exists(s), s.prealloc);
  }

  lemma UnmapKeeps(s: State, a: Action)
    requires Inv(s) && Enabled(s, a) && a.Unmap?
    ensures Inv(Apply(s, a))
  {
    hide Counted, Payers;
    var s' := Apply(s, a);
    Still(s, s');
    assert Exists(s') == Exists(s);
  }

  lemma StepKeeps(s: State, a: Action)
    requires Inv(s) && Enabled(s, a)
    ensures Inv(Apply(s, a))
  {
    hide Inv, Apply;
    match a {
      case Pop(t) => PopKeeps(s, t);
      case UseQuota(_, _) => QuotaKeeps(s, a);
      case FetchAdd(t) => FetchAddKeeps(s, t);
      case Mmap(_, _, _) => MmapKeeps(s, a);
      case Subtract(t) => SubtractKeeps(s, t);
      case ReleaseQuota(_) => QuotaKeeps(s, a);
      case Unmap(_, _) => UnmapKeeps(s, a);
    }
  }

  predicate CanRun(s: State, run: seq<Action>)
    decreases |run|
  {
    run == [] || (Enabled(s, run[0]) && CanRun(Apply(s, run[0]), run[1..]))
  }

  function After(s: State, run: seq<Action>): State
    requires CanRun(s, run)
    decreases |run|
  {
    if run == [] then s else After(Apply(s, run[0]), run[1..])
  }

  /** On every run no slab has two holders. When no call is under way the counters are exact, and
      slab_arena_destroy finds all slabs in its stack once they have all been returned. */
  lemma {:induction false} RunKeeps(s: State, run: seq<Action>)
    requires Inv(s) && CanRun(s, run)
    ensures Inv(After(s, run))
    decreases |run|
  {
    if run != [] {
      StepKeeps(s, run[0]);
      RunKeeps(Apply(s, run[0]), run[1..]);
    }
  }

  lemma InitOk(prealloc: nat)
    ensures Inv(Init(prealloc))
  {
    assert Exists(Init(prealloc)) == {} && Counted(Init(prealloc)) == {} && Payers(Init(prealloc)) == {};
  }

  lemma Quiet(prealloc: nat, run: seq<Action>)
    requires CanRun(Init(prealloc), run)
    ensures var s := After(Init(prealloc), run);
            (forall t :: t in s.pcs ==> s.pcs[t].Idle? || s.pcs[t].Asked?) && s.held == {} ==>
              s.used == s.charged == |s.stack|
  {
    var s := After(Init(prealloc), run);
    InitOk(prealloc);
    RunKeeps(Init(prealloc), run);
    if (forall t :: t in s.pcs ==> s.pcs[t].Idle? || s.pcs[t].Asked?) && s.held == {} {
      assert Counted(s) == {} && Payers(s) == {};
      Card(s.stack);
      assert Exists(s) == set x | x in s.stack;
    }
  }

  lemma {:induction false} Card(s: seq<Slab>)
    requires NoDup(s)
    ensures |set x | x in s| == |s|
  {
    if s != [] {
      Card(s[1..]);
      assert s == [s[0]] + s[1..];
      assert (set x | x in s) == (set x | x in s[1..]) + {s[0]};
    }
  }
}
