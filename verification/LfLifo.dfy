/**
 The lock-free stack of free slabs (include/small/lf_lifo.h), as interleaved steps of any number
 of threads. A word holds a 64K-aligned address and, in its low 16 bits, a counter. Loads, the
 store to the element and the compare-exchange are separate steps; the weak compare-exchange may
 fail for no reason; whoever holds a slab may write anything into it.
 */
module LfLifo {

  import opened Common

  const ALIGN: nat := 0x1_0000

  type Word = nat
  type Slab = nat
  type Tid = nat

  /** aba_value() and lf_lifo() */
  function Aba(w: Word): nat { w % ALIGN }
  function Ptr(w: Word): Slab { w - w % ALIGN }

  predicate IsSlab(a: Slab) { a > 0 && a % ALIGN == 0 }

  /** Where a thread stands in lf_lifo_push or lf_lifo_pop. `at` is the number of pushes that
      had succeeded when the head was loaded. */
  datatype Pc =
    | Idle
    | PushBegun(elem: Slab)
    | PushLoaded(elem: Slab, tail: Word)
    | PushLinked(elem: Slab, tail: Word)
    | PopBegun
    | PopLoaded(tail: Word, at: nat)
    | PopRead(tail: Word, next: Slab, at: nat)

  /** The shared word and the slabs' first words; who holds what; and, for the specification,
      the stack that the operations are meant to maintain and a count of pushes. */
  datatype State = State(
    head: Word, mem: map<Slab, Word>, held: set<Slab>, pcs: map<Tid, Pc>,
    stack: seq<Slab>, pushes: nat)

  datatype Action =
    | Obtain(slab: Slab)
    | Scribble(slab: Slab, w: Word)
    | PushStart(t: Tid, elem: Slab)
    | PushLoad(t: Tid)
    | PushLink(t: Tid)
    | PushCas(t: Tid, spurious: bool)
    | PopStart(t: Tid)
    | PopLoad(t: Tid)
    | PopNext(t: Tid)
    | PopCas(t: Tid, spurious: bool)

  function PcOf(s: State, t: Tid): Pc { if t in s.pcs then s.pcs[t] else Idle }

  predicate Enabled(s: State, a: Action) {
    match a
    case Obtain(slab) => IsSlab(slab) && slab !in s.mem
    case Scribble(slab, w) => slab in s.held
    case PushStart(t, elem) => PcOf(s, t).Idle? && elem in s.held
    case PushLoad(t) => PcOf(s, t).PushBegun?
    case PushLink(t) => PcOf(s, t).PushLoaded?
    case PushCas(t, _) => PcOf(s, t).PushLinked?
    case PopStart(t) => PcOf(s, t).Idle?
    case PopLoad(t) => PcOf(s, t).PopBegun?
    case PopNext(t) => PcOf(s, t).PopLoaded? && Ptr(PcOf(s, t).tail) in s.mem
    case PopCas(t, _) => PcOf(s, t).PopRead?
  }

  function Goto(s: State, t: Tid, pc: Pc): State { s.(pcs := s.pcs[t := pc]) }

  function Apply(s: State, a: Action): State
    requires Enabled(s, a)
  {
    match a
    case Obtain(slab) => s.(mem := s.mem[slab := 0], held := s.held + {slab})
    case Scribble(slab, w) => s.(mem := s.mem[slab := w])
    case PushStart(t, elem) => Goto(s.(held := s.held - {elem}), t, PushBegun(elem))
    case PushLoad(t) => Goto(s, t, PushLoaded(s.pcs[t].elem, s.head))
    case PushLink(t) =>
      var pc := s.pcs[t];
      Goto(s.(mem := s.mem[pc.elem := pc.tail]), t, PushLinked(pc.elem, pc.tail))
    case PushCas(t, spurious) =>
      var pc := s.pcs[t];
      if s.head == pc.tail && !spurious then
        Goto(s.(head := pc.elem + (Aba(pc.tail) + 1) % ALIGN, stack := [pc.elem] + s.stack, pushes := s.pushes + 1),
             t, Idle)
      else
        Goto(s, t, PushBegun(pc.elem))
    case PopStart(t) => Goto(s, t, PopBegun)
    case PopLoad(t) =>
      if Ptr(s.head) == 0 then Goto(s, t, Idle) else Goto(s, t, PopLoaded(s.head, s.pushes))
    case PopNext(t) =>
      var pc := s.pcs[t];
      Goto(s, t, PopRead(pc.tail, Ptr(s.mem[Ptr(pc.tail)]), pc.at))
    case PopCas(t, spurious) =>
      var pc := s.pcs[t];
      if s.head == pc.tail && !spurious then
        Goto(s.(head := pc.next + Aba(pc.tail), held := s.held + {Ptr(pc.tail)},
                stack := if s.stack == [] then [] else s.stack[1..]), t, Idle)
      else
        Goto(s, t, PopBegun)
  }

  /** Fewer than n pushes fall between a pop's load and its compare-exchange. */
  predicate Within(s: State, a: Action, n: nat) {
    a.PopCas? && PcOf(s, a.t).PopRead? ==> s.pushes - PcOf(s, a.t).at < n
  }

  /** A pop's compare-exchange comes before the counter can have gone all the way round. */
  predicate InWindow(s: State, a: Action) { Within(s, a, ALIGN) }

  function Init(): State { State(0, map[], {}, map[], [], 0) }

  // ---------- the invariant ----------

  function Top(stack: seq<Slab>): Slab { if stack == [] then 0 else stack[0] }

  /** The slab a thread is pushing is its own until the compare-exchange. */
  predicate Pushing(pc: Pc, a: Slab) { (pc.PushBegun? || pc.PushLoaded? || pc.PushLinked?) && pc.elem == a }

  /** Each slab of the stack points to the next. */
  ghost predicate Chained(mem: map<Slab, Word>, stack: seq<Slab>) {
    && NoDup(stack)
    && (forall i :: 0 <= i < |stack| ==> stack[i] in mem && IsSlab(stack[i]))
    && (forall i :: 0 <= i < |stack| ==> Ptr(mem[stack[i]]) == Top(stack[i + 1..]))
  }

  /** The words in memory spell out the stack. */
  ghost predicate Spells(s: State) {
    Ptr(s.head) == Top(s.stack) && Aba(s.head) == s.pushes % ALIGN && Chained(s.mem, s.stack)
  }

  /** Every slab is in one place: held, being pushed by one thread, or in the stack. */
  ghost predicate OneOwner(s: State) {
    && (forall a :: a in s.held ==> a in s.mem && IsSlab(a) && a !in s.stack)
    && (forall t, a :: t in s.pcs && Pushing(s.pcs[t], a) ==> a in s.mem && IsSlab(a) && a !in s.stack && a !in s.held)
    && (forall t, u, a :: t in s.pcs && u in s.pcs && Pushing(s.pcs[t], a) && Pushing(s.pcs[u], a) ==> t == u)
  }

  /** What a thread inside pop or push may rely on. */
  ghost predicate Local(s: State, pc: Pc) {
    && (pc.PushLinked? ==> pc.elem in s.mem && s.mem[pc.elem] == pc.tail)
    && (pc.PopLoaded? || pc.PopRead? ==>
          && IsSlab(Ptr(pc.tail)) && Ptr(pc.tail) in s.mem && pc.at <= s.pushes && Aba(pc.tail) == pc.at % ALIGN
          && (pc.at == s.pushes ==> Ptr(pc.tail) == Top(s.stack) || Ptr(pc.tail) !in s.stack))
    && (pc.PopRead? ==> pc.next % ALIGN == 0)
    && (pc.PopRead? && pc.at == s.pushes && Ptr(pc.tail) == Top(s.stack) ==>
          s.stack != [] && pc.next == Top(s.stack[1..]))
  }

  ghost predicate Inv(s: State) {
    && Spells(s) && OneOwner(s)
    && forall t :: t in s.pcs ==> Local(s, s.pcs[t])
  }

  lemma Unpack(a: Slab, c: nat)
    requires a % ALIGN == 0 && c < ALIGN
    ensures Ptr(a + c) == a && Aba(a + c) == c
  {
  }

  lemma Repack(w: Word)
    ensures Ptr(w) % ALIGN == 0 && Ptr(w) + Aba(w) == w
  {
  }

  lemma NextRound(n: nat)
    ensures (n % ALIGN + 1) % ALIGN == (n + 1) % ALIGN
  {
  }

  lemma SameRound(at: nat, now: nat)
    requires at <= now < at + ALIGN && at % ALIGN == now % ALIGN
    ensures at == now
  {
  }

  // ---------- every step keeps it ----------

  /** A step that changes one thread's place only. */
  lemma GotoKeeps(s: State, t: Tid, pc: Pc)
    requires Inv(s) && Local(s, pc)
    requires forall a :: Pushing(pc, a) ==> t in s.pcs && Pushing(s.pcs[t], a)
    ensures Inv(Goto(s, t, pc))
  {
    var s' := Goto(s, t, pc);
    forall u | u in s'.pcs
      ensures Local(s', s'.pcs[u])
    {
      assert Local(s, s'.pcs[u]);
    }
  }

  /** A write to a slab outside the stack, by the one who holds it or is pushing it. */
  lemma WriteKeeps(s: State, a: Slab, w: Word)
    requires Inv(s) && a in s.mem && a !in s.stack
    requires forall t :: t in s.pcs && s.pcs[t].PushLinked? ==> s.pcs[t].elem != a
    ensures Inv(s.(mem := s.mem[a := w]))
  {
    var s' := s.(mem := s.mem[a := w]);
    forall t | t in s'.pcs
      ensures Local(s', s'.pcs[t])
    {
      assert Local(s, s.pcs[t]);
    }
  }

  lemma ObtainKeeps(s: State, slab: Slab)
    requires Inv(s) && IsSlab(slab) && slab !in s.mem
    ensures Inv(s.(mem := s.mem[slab := 0], held := s.held + {slab}))
  {
    var s' := s.(mem := s.mem[slab := 0], held := s.held + {slab});
    forall t | t in s'.pcs
      ensures Local(s', s'.pcs[t])
    {
      assert Local(s, s.pcs[t]);
    }
  }

  lemma PushStartKeeps(s: State, t: Tid, elem: Slab)
    requires Inv(s) && PcOf(s, t).Idle? && elem in s.held
    ensures Inv(Goto(s.(held := s.held - {elem}), t, PushBegun(elem)))
  {
    var s' := Goto(s.(held := s.held - {elem}), t, PushBegun(elem));
    forall u | u in s'.pcs
      ensures Local(s', s'.pcs[u])
    {
      if u != t { assert Local(s, s.pcs[u]); }
    }
  }

  lemma ChainPush(mem: map<Slab, Word>, stack: seq<Slab>, a: Slab)
    requires Chained(mem, stack) && a in mem && IsSlab(a) && a !in stack && Ptr(mem[a]) == Top(stack)
    ensures Chained(mem, [a] + stack)
  {
    hide IsSlab, Ptr;
    var st := [a] + stack;
    assert st[1..] == stack;
    assert forall i :: 0 < i < |st| ==> st[i] == stack[i - 1] && st[i + 1..] == stack[i..];
  }

  lemma ChainPop(mem: map<Slab, Word>, stack: seq<Slab>)
    requires Chained(mem, stack) && stack != []
    ensures Chained(mem, stack[1..]) && stack[0] !in stack[1..]
    ensures |stack| > 1 ==> IsSlab(stack[1])
  {
    var st := stack[1..];
    assert forall i :: 0 <= i < |st| ==> st[i] == stack[i + 1] && st[i + 1..] == stack[i + 2..];
  }

  lemma PushSpells(s: State, t: Tid)
    requires Inv(s) && PcOf(s, t).PushLinked? && s.head == s.pcs[t].tail
    ensures Spells(Apply(s, PushCas(t, false)))
  {
    hide Chained;
    var pc := s.pcs[t];
    assert Local(s, pc) && Pushing(pc, pc.elem);
    Unpack(pc.elem, (Aba(pc.tail) + 1) % ALIGN);
    NextRound(s.pushes);
    ChainPush(s.mem, s.stack, pc.elem);
  }

  /** A push that goes through puts its slab on top: the link it stored is the head it replaced. */
  lemma PushKeeps(s: State, t: Tid)
    requires Inv(s) && PcOf(s, t).PushLinked? && s.head == s.pcs[t].tail
    ensures Inv(Apply(s, PushCas(t, false)))
  {
    hide Spells;
    PushSpells(s, t);
    var pc, s' := s.pcs[t], Apply(s, PushCas(t, false));
    assert Pushing(pc, pc.elem);
    forall u | u in s'.pcs
      ensures Local(s', s'.pcs[u])
    {
      if u != t { assert Local(s, s.pcs[u]); }
    }
  }

  /** A pop that goes through in time takes the top: its compare-exchange saw the very head it
      loaded, nothing was pushed since, so the slab below the top is still the one it read. */
  lemma PopTakesTop(s: State, t: Tid)
    requires Inv(s) && PcOf(s, t).PopRead? && s.head == s.pcs[t].tail && InWindow(s, PopCas(t, false))
    ensures s.stack != [] && Ptr(s.pcs[t].tail) == s.stack[0] && s.pcs[t].next == Top(s.stack[1..])
  {
    assert Local(s, s.pcs[t]);
    SameRound(s.pcs[t].at, s.pushes);
  }

  lemma PopSpells(s: State, t: Tid)
    requires Inv(s) && PcOf(s, t).PopRead? && s.head == s.pcs[t].tail && InWindow(s, PopCas(t, false))
    ensures Spells(Apply(s, PopCas(t, false)))
  {
    hide Chained;
    PopTakesTop(s, t);
    ChainPop(s.mem, s.stack);
    var pc := s.pcs[t];
    assert pc.next == 0 || (|s.stack| > 1 && pc.next == s.stack[1]);
    Unpack(pc.next, Aba(pc.tail));
  }

  lemma PopKeeps(s: State, t: Tid)
    requires Inv(s) && PcOf(s, t).PopRead? && s.head == s.pcs[t].tail && InWindow(s, PopCas(t, false))
    ensures Inv(Apply(s, PopCas(t, false)))
  {
    hide Spells, OneOwner, Local;
    PopTakesTop(s, t);
    PopSpells(s, t);
    TopIsFree(s);
    var s' := Apply(s, PopCas(t, false));
    PopOwner(s, s', t);
    PopLocal(s, s', t);
  }

  lemma PopOwner(s: State, s': State, t: Tid)
    requires Inv(s) && s.stack != [] && s'.stack == s.stack[1..] && s'.mem == s.mem && s'.held == s.held + {s.stack[0]}
    requires s'.pcs == s.pcs[t := Idle] && s.stack[0] !in s.stack[1..] && s.stack[0] in s.mem && IsSlab(s.stack[0])
    requires forall u :: u in s.pcs ==> !Pushing(s.pcs[u], s.stack[0])
    ensures OneOwner(s')
  {
    hide Spells, Local;
  }

  /** Without the window: a pop that goes through leaves memory spelling out the stack exactly when
      the link it read is still that of the top. */
  lemma PopExactly(s: State, t: Tid)
    requires Inv(s) && PcOf(s, t).PopRead? && s.head == s.pcs[t].tail
    ensures s.stack != []
    ensures Spells(Apply(s, PopCas(t, false))) <==> s.pcs[t].next == Top(s.stack[1..])
  {
    hide Chained;
    var pc := s.pcs[t];
    assert Local(s, pc);
    TopIsSlab(s);
    ChainPop(s.mem, s.stack);
    Unpack(pc.next, Aba(pc.tail));
  }

  lemma TopIsSlab(s: State)
    requires Spells(s)
    ensures s.stack == [] ==> Ptr(s.head) == 0
    ensures s.stack != [] ==> IsSlab(s.stack[0]) && Ptr(s.head) == s.stack[0]
  {
  }

  /** The top slab appears once in the stack, and nobody holds it or is pushing it. */
  lemma TopIsFree(s: State)
    requires Inv(s) && s.stack != []
    ensures s.stack[0] !in s.stack[1..] && s.stack[0] !in s.held && s.stack[0] in s.mem && IsSlab(s.stack[0])
    ensures forall t :: t in s.pcs ==> !Pushing(s.pcs[t], s.stack[0])
  {
  }

  lemma PopLocal(s: State, s': State, t: Tid)
    requires Inv(s) && s.stack != [] && s'.stack == s.stack[1..] && s'.mem == s.mem && s'.pushes == s.pushes
    requires s'.pcs == s.pcs[t := Idle] && s.stack[0] !in s.stack[1..]
    ensures forall u :: u in s'.pcs ==> Local(s', s'.pcs[u])
  {
    hide Spells, OneOwner;
    forall u | u in s'.pcs
      ensures Local(s', s'.pcs[u])
    {
      if u != t {
        assert Local(s, s.pcs[u]);
        var pc := s.pcs[u];
        if (pc.PopLoaded? || pc.PopRead?) && pc.at == s.pushes {
          assert Ptr(pc.tail) !in s'.stack && Ptr(pc.tail) != 0;
        }
      }
    }
  }

  lemma StepKeeps(s: State, a: Action)
    requires Inv(s) && Enabled(s, a) && InWindow(s, a)
    ensures Inv(Apply(s, a))
  {
    match a
    case Obtain(slab) => ObtainKeeps(s, slab);
    case Scribble(slab, w) => WriteKeeps(s, slab, w) by {
      forall t | t in s.pcs && s.pcs[t].PushLinked?
        ensures s.pcs[t].elem != slab
      {
        assert Pushing(s.pcs[t], s.pcs[t].elem);
      }
    }
    case PushStart(t, elem) => PushStartKeeps(s, t, elem);
    case PushLoad(t) => GotoKeeps(s, t, PushLoaded(s.pcs[t].elem, s.head));
    case PushLink(t) =>
      var pc := s.pcs[t];
      assert Pushing(pc, pc.elem);
      forall u | u in s.pcs && s.pcs[u].PushLinked?
        ensures s.pcs[u].elem != pc.elem
      {
        assert Pushing(s.pcs[u], s.pcs[u].elem);
      }
      WriteKeeps(s, pc.elem, pc.tail);
      GotoKeeps(s.(mem := s.mem[pc.elem := pc.tail]), t, PushLinked(pc.elem, pc.tail));
    case PushCas(t, spurious) =>
      if s.head == s.pcs[t].tail && !spurious { PushKeeps(s, t); } else { GotoKeeps(s, t, PushBegun(s.pcs[t].elem)); }
    case PopStart(t) => GotoKeeps(s, t, PopBegun);
    case PopLoad(t) =>
      Repack(s.head);
      if Ptr(s.head) == 0 { GotoKeeps(s, t, Idle); } else { GotoKeeps(s, t, PopLoaded(s.head, s.pushes)); }
    case PopNext(t) =>
      var pc := s.pcs[t];
      assert Local(s, pc);
      Repack(s.mem[Ptr(pc.tail)]);
      assert s.stack != [] ==> s.stack[0] in s.mem && Ptr(s.mem[s.stack[0]]) == Top(s.stack[1..]);
      GotoKeeps(s, t, PopRead(pc.tail, Ptr(s.mem[Ptr(pc.tail)]), pc.at));
    case PopCas(t, spurious) =>
      if s.head == s.pcs[t].tail && !spurious { PopKeeps(s, t); } else { GotoKeeps(s, t, PopBegun); }
  }

  // ---------- runs ----------

  predicate CanRun(s: State, run: seq<Action>)
    decreases |run|
  {
    run == [] || (Enabled(s, run[0]) && CanRun(Apply(s, run[0]), run[1..]))
  }

  predicate RunWithin(s: State, run: seq<Action>, n: nat)
    requires CanRun(s, run)
    decreases |run|
  {
    run == [] || (Within(s, run[0], n) && RunWithin(Apply(s, run[0]), run[1..], n))
  }

  function After(s: State, run: seq<Action>): State
    requires CanRun(s, run)
    decreases |run|
  {
    if run == [] then s else After(Apply(s, run[0]), run[1..])
  }

  /** Over every interleaving, memory spells out the stack and every slab has one place. */
  lemma {:induction false} RunKeeps(s: State, run: seq<Action>)
    requires Inv(s) && CanRun(s, run) && RunWithin(s, run, ALIGN)
    ensures Inv(After(s, run))
    decreases |run|
  {
    if run != [] {
      StepKeeps(s, run[0]);
      RunKeeps(Apply(s, run[0]), run[1..]);
    }
  }

  /** The stack that one action is specified to leave, by the effect a caller sees. */
  predicate IsPush(s: State, a: Action) { a.PushCas? && Enabled(s, a) && !a.spurious && s.head == s.pcs[a.t].tail }
  predicate IsPop(s: State, a: Action) { a.PopCas? && Enabled(s, a) && !a.spurious && s.head == s.pcs[a.t].tail }
  predicate IsEmpty(s: State, a: Action) { a.PopLoad? && Enabled(s, a) && Ptr(s.head) == 0 }

  /** Each successful compare-exchange is one push or one pop of the stack that memory spells;
      nothing else changes it; a pop that returns nothing saw it empty; and a slab handed out is
      one that nobody else holds or is pushing. */
  lemma Linearizable(run: seq<Action>, a: Action)
    requires CanRun(Init(), run) && RunWithin(Init(), run, ALIGN)
    requires Enabled(After(Init(), run), a) && InWindow(After(Init(), run), a)
    ensures var s := After(Init(), run); var s' := Apply(s, a);
            && Spells(s) && Spells(s') && OneOwner(s')
            && (IsPush(s, a) ==> s'.stack == [s.pcs[a.t].elem] + s.stack)
            && (IsPop(s, a) ==>
                  && s.stack != [] && s'.stack == s.stack[1..] && Ptr(s.pcs[a.t].tail) == s.stack[0]
                  && s.stack[0] !in s.held && s'.held == s.held + {s.stack[0]}
                  && forall t :: t in s.pcs ==> !Pushing(s.pcs[t], s.stack[0]))
            && (!IsPush(s, a) && !IsPop(s, a) ==> s'.stack == s.stack)
            && (IsEmpty(s, a) ==> s.stack == [])
  {
    RunKeeps(Init(), run);
    var s := After(Init(), run);
    StepKeeps(s, a);
    if IsPop(s, a) { PopTakesTop(s, a.t); }
  }

  // ---------- without the window ----------

  /** One push more than the window allows. */
  const WRAP: nat := ALIGN + 1

  lemma {:induction false} RunAppend(s: State, r1: seq<Action>, r2: seq<Action>)
    requires CanRun(s, r1) && CanRun(After(s, r1), r2)
    ensures CanRun(s, r1 + r2) && After(s, r1 + r2) == After(After(s, r1), r2)
    ensures RunWithin(s, r1, WRAP) && RunWithin(After(s, r1), r2, WRAP) ==> RunWithin(s, r1 + r2, WRAP)
    decreases |r1|
  {
    if r1 == [] {
      assert r1 + r2 == r2;
    } else {
      assert (r1 + r2)[1..] == r1[1..] + r2;
      RunAppend(Apply(s, r1[0]), r1[1..], r2);
    }
  }

  lemma Nothing(s: State)
    ensures CanRun(s, []) && After(s, []) == s && RunWithin(s, [], WRAP)
  {
  }

  lemma One(s: State, a: Action, rest: seq<Action>)
    requires Enabled(s, a) && CanRun(Apply(s, a), rest)
    ensures CanRun(s, [a] + rest) && After(s, [a] + rest) == After(Apply(s, a), rest)
    ensures Within(s, a, WRAP) && RunWithin(Apply(s, a), rest, WRAP) ==> RunWithin(s, [a] + rest, WRAP)
  {
    assert ([a] + rest)[1..] == rest;
  }

  function PushRun(t: Tid, x: Slab): seq<Action> {
    [PushStart(t, x)] + ([PushLoad(t)] + ([PushLink(t)] + ([PushCas(t, false)] + [])))
  }

  function PopRun(t: Tid): seq<Action> {
    [PopStart(t)] + ([PopLoad(t)] + ([PopNext(t)] + ([PopCas(t, false)] + [])))
  }

  function Pushed(s: State, t: Tid, x: Slab): State {
    State(x + (Aba(s.head) + 1) % ALIGN, s.mem[x := s.head], s.held - {x}, s.pcs[t := Idle], [x] + s.stack,
          s.pushes + 1)
  }

  function Popped(s: State, t: Tid): State
    requires Ptr(s.head) in s.mem
  {
    State(Ptr(s.mem[Ptr(s.head)]) + Aba(s.head), s.mem, s.held + {Ptr(s.head)}, s.pcs[t := Idle],
          if s.stack == [] then [] else s.stack[1..], s.pushes)
  }

  /** A push, and a pop, that nobody interrupts. */
  lemma PushAlone(s: State, t: Tid, x: Slab)
    requires PcOf(s, t).Idle? && x in s.held
    ensures CanRun(s, PushRun(t, x)) && After(s, PushRun(t, x)) == Pushed(s, t, x) && RunWithin(s, PushRun(t, x), WRAP)
  {
    var s1 := Apply(s, PushStart(t, x));
    var s2 := Apply(s1, PushLoad(t));
    var s3 := Apply(s2, PushLink(t));
    var s4 := Apply(s3, PushCas(t, false));
    One(s3, PushCas(t, false), []);
    One(s2, PushLink(t), [PushCas(t, false)] + []);
    One(s1, PushLoad(t), [PushLink(t)] + ([PushCas(t, false)] + []));
    One(s, PushStart(t, x), [PushLoad(t)] + ([PushLink(t)] + ([PushCas(t, false)] + [])));
    assert s4.pcs == s.pcs[t := Idle];
  }

  lemma PopAlone(s: State, t: Tid)
    requires PcOf(s, t).Idle? && Ptr(s.head) != 0 && Ptr(s.head) in s.mem
    ensures CanRun(s, PopRun(t)) && After(s, PopRun(t)) == Popped(s, t) && RunWithin(s, PopRun(t), WRAP)
  {
    var s1 := Apply(s, PopStart(t));
    var s2 := Apply(s1, PopLoad(t));
    var s3 := Apply(s2, PopNext(t));
    var s4 := Apply(s3, PopCas(t, false));
    One(s3, PopCas(t, false), []);
    One(s2, PopNext(t), [PopCas(t, false)] + []);
    One(s1, PopLoad(t), [PopNext(t)] + ([PopCas(t, false)] + []));
    One(s, PopStart(t), [PopLoad(t)] + ([PopNext(t)] + ([PopCas(t, false)] + [])));
    assert s4.pcs == s.pcs[t := Idle];
  }

  function Cycles(t: Tid, x: Slab, n: nat): seq<Action> {
    if n == 0 then [] else PushRun(t, x) + PopRun(t) + Cycles(t, x, n - 1)
  }

  /** Pushing and popping one slab on an empty stack moves the counter and nothing else. */
  lemma {:induction false} CyclesRun(s: State, t: Tid, x: Slab, n: nat)
    requires s.stack == [] && s.head < ALIGN && x in s.held && IsSlab(x) && t in s.pcs && s.pcs[t] == Idle
    ensures CanRun(s, Cycles(t, x, n)) && RunWithin(s, Cycles(t, x, n), WRAP)
    ensures var s' := After(s, Cycles(t, x, n));
            && s'.head == (s.head + n) % ALIGN && s'.held == s.held && s'.pcs == s.pcs && s'.stack == []
            && s'.pushes == s.pushes + n
    decreases n
  {
    hide CanRun, RunWithin, After, Apply, PushRun, PopRun, Aba, Ptr;
    if n == 0 {
      Nothing(s);
    } else {
      PushAlone(s, t, x);
      var s1 := Pushed(s, t, x);
      CyclePops(s, t, x);
      PopAlone(s1, t);
      var s2 := Popped(s1, t);
      RunAppend(s, PushRun(t, x), PopRun(t));
      CyclesRun(s2, t, x, n - 1);
      RunAppend(s, PushRun(t, x) + PopRun(t), Cycles(t, x, n - 1));
      CounterAdd(s.head, n);
    }
  }

  lemma CyclePops(s: State, t: Tid, x: Slab)
    requires s.stack == [] && s.head < ALIGN && x in s.held && IsSlab(x) && t in s.pcs && s.pcs[t] == Idle
    ensures var s1 := Pushed(s, t, x);
            && Ptr(s1.head) == x && x in s1.mem && s1.pcs == s.pcs
            && var s2 := Popped(s1, t);
            && s2.head == (s.head + 1) % ALIGN && s2.held == s.held && s2.pcs == s.pcs && s2.stack == []
            && s2.pushes == s.pushes + 1
  {
    Unpack(x, (Aba(s.head) + 1) % ALIGN);
  }

  lemma CounterAdd(c: nat, n: nat)
    requires n > 0
    ensures ((c + 1) % ALIGN + (n - 1)) % ALIGN == (c + n) % ALIGN
  {
  }

  /** Exactly 2^16 pushes between a pop's load and its compare-exchange are enough to break the
      stack: the head comes to point to a slab that somebody holds. */
  lemma WrapBreaks(s: State, a: Slab, b: Slab, x: Slab, t: Tid, u: Tid)
    requires Inv(s) && s.stack == [a, b] && x in s.held && t != u
    requires t in s.pcs && s.pcs[t] == PopRead(s.head, b, s.pushes) && u in s.pcs && s.pcs[u] == Idle
    ensures var run := PopRun(u) + PopRun(u) + Cycles(u, x, ALIGN - 1) + PushRun(u, a) + [PopCas(t, false)];
            && CanRun(s, run) && RunWithin(s, run, WRAP)
            && var s' := After(s, run);
            && s'.pushes == s.pushes + ALIGN && s'.stack == [] && Ptr(s'.head) == b && b in s'.held
  {
    hide CanRun, RunWithin, After, Apply, PushRun, PopRun, Cycles, Inv, Aba, Ptr, Enabled;
    TwoPops(s, a, b, u);
    var s2 := After(s, PopRun(u) + PopRun(u));
    CyclesRun(s2, u, x, ALIGN - 1);
    var s3 := After(s2, Cycles(u, x, ALIGN - 1));
    RunAppend(s, PopRun(u) + PopRun(u), Cycles(u, x, ALIGN - 1));
    PushAlone(s3, u, a);
    var s4 := Pushed(s3, u, a);
    RunAppend(s, PopRun(u) + PopRun(u) + Cycles(u, x, ALIGN - 1), PushRun(u, a));
    LateCas(s, s3, a, b, t, u);
    One(s4, PopCas(t, false), []);
    assert [PopCas(t, false)] + [] == [PopCas(t, false)];
    RunAppend(s, PopRun(u) + PopRun(u) + Cycles(u, x, ALIGN - 1) + PushRun(u, a), [PopCas(t, false)]);
  }

  lemma TwoPops(s: State, a: Slab, b: Slab, u: Tid)
    requires Inv(s) && s.stack == [a, b] && u in s.pcs && s.pcs[u] == Idle
    ensures IsSlab(a) && IsSlab(b) && a != b && a in s.mem && b in s.mem && Ptr(s.head) == a
    ensures forall x :: x in s.held ==> IsSlab(x)
    ensures CanRun(s, PopRun(u) + PopRun(u)) && RunWithin(s, PopRun(u) + PopRun(u), WRAP)
    ensures var s2 := After(s, PopRun(u) + PopRun(u));
            && s2.head == Aba(s.head) < ALIGN && s2.stack == [] && s2.pcs == s.pcs && s2.held == s.held + {a} + {b}
            && s2.pushes == s.pushes
  {
    hide CanRun, RunWithin, After, Apply, PopRun;
    var c := Aba(s.head);
    assert s.stack[0] == a && s.stack[1] == b && s.stack[1..] == [b] && s.stack[2..] == [];
    assert Ptr(s.mem[s.stack[0]]) == b && Ptr(s.mem[s.stack[1]]) == 0;
    PopAlone(s, u);
    Unpack(b, c);
    PopAlone(Popped(s, u), u);
    Unpack(0, c);
    RunAppend(s, PopRun(u), PopRun(u));
  }

  /** The stale compare-exchange finds the head it loaded, and installs a slab that is held. */
  lemma LateCas(s: State, s3: State, a: Slab, b: Slab, t: Tid, u: Tid)
    requires IsSlab(a) && IsSlab(b) && Ptr(s.head) == a && t != u && a in s3.held && b in s3.held && a != b
    requires s3.head == (Aba(s.head) + (ALIGN - 1)) % ALIGN && s3.stack == [] && s3.pushes == s.pushes + (ALIGN - 1)
    requires u in s3.pcs && s3.pcs[u] == Idle && t in s3.pcs && s3.pcs[t] == PopRead(s.head, b, s.pushes)
    ensures var s4 := Pushed(s3, u, a);
            && Enabled(s4, PopCas(t, false)) && Within(s4, PopCas(t, false), WRAP)
            && var s5 := Apply(s4, PopCas(t, false));
            && CanRun(s5, []) && After(s5, []) == s5 && RunWithin(s5, [], WRAP)
            && s5.pushes == s.pushes + ALIGN && s5.stack == [] && Ptr(s5.head) == b && b in s5.held
  {
    Round(Aba(s.head));
    Repack(s.head);
    Unpack(b, Aba(s.head));
  }

  lemma Round(c: nat)
    requires c < ALIGN
    ensures (((c + (ALIGN - 1)) % ALIGN) % ALIGN + 1) % ALIGN == c
  {
  }

  /** Such a run exists from the very start, with 2^16 pushes in the window of one pop and fewer in all
      others. */
  lemma WrapFromStart() returns (run: seq<Action>)
    ensures CanRun(Init(), run) && RunWithin(Init(), run, WRAP)
    ensures var s := After(Init(), run); s.stack == [] && IsSlab(Ptr(s.head)) && Ptr(s.head) in s.held && !Inv(s)
  {
    var a, b, x := ALIGN, 2 * ALIGN, 3 * ALIGN;
    var get := [Obtain(a)] + ([Obtain(b)] + ([Obtain(x)] + []));
    var pop := [PopStart(1)] + ([PopLoad(1)] + ([PopNext(1)] + []));
    var s0 := State(0, map[a := 0, b := 0, x := 0], {a, b, x}, map[], [], 0);
    var s1, s2 := Pushed(s0, 2, b), Pushed(Pushed(s0, 2, b), 2, a);
    var s3 := s2.(pcs := s2.pcs[1 := PopRead(s2.head, b, 2)]);
    GetThree(a, b, x);
    PushAlone(s0, 2, b);
    RunAppend(Init(), get, PushRun(2, b));
    PushAlone(s1, 2, a);
    RunAppend(Init(), get + PushRun(2, b), PushRun(2, a));
    TwoPushed(a, b, x);
    PopHalf(s2, b);
    RunAppend(Init(), get + PushRun(2, b) + PushRun(2, a), pop);
    WrapBreaks(s3, a, b, x, 1, 2);
    var rest := PopRun(2) + PopRun(2) + Cycles(2, x, ALIGN - 1) + PushRun(2, a) + [PopCas(1, false)];
    run := get + PushRun(2, b) + PushRun(2, a) + pop + rest;
    RunAppend(Init(), get + PushRun(2, b) + PushRun(2, a) + pop, rest);
  }

  lemma GetThree(a: Slab, b: Slab, x: Slab)
    requires IsSlab(a) && IsSlab(b) && IsSlab(x) && a != b && b != x && a != x
    ensures var get := [Obtain(a)] + ([Obtain(b)] + ([Obtain(x)] + []));
            && CanRun(Init(), get) && RunWithin(Init(), get, WRAP)
            && After(Init(), get) == State(0, map[a := 0, b := 0, x := 0], {a, b, x}, map[], [], 0)
  {
    var s1 := Apply(Init(), Obtain(a));
    var s2 := Apply(s1, Obtain(b));
    One(s2, Obtain(x), []);
    One(s1, Obtain(b), [Obtain(x)] + []);
    One(Init(), Obtain(a), [Obtain(b)] + ([Obtain(x)] + []));
  }

  lemma TwoPushed(a: Slab, b: Slab, x: Slab)
    requires a == ALIGN && b == 2 * ALIGN && x == 3 * ALIGN
    ensures var s := Pushed(Pushed(State(0, map[a := 0, b := 0, x := 0], {a, b, x}, map[], [], 0), 2, b), 2, a);
            && s == State(a + 2, map[a := b + 1, b := 0, x := 0], {x}, map[2 := Idle], [a, b], 2)
            && Inv(s.(pcs := s.pcs[1 := PopRead(s.head, b, 2)]))
  {
    hide Inv;
    var s1 := Pushed(State(0, map[a := 0, b := 0, x := 0], {a, b, x}, map[], [], 0), 2, b);
    assert s1 == State(b + 1, map[a := 0, b := 0, x := 0], {a, x}, map[2 := Idle], [b], 1);
    var s := Pushed(s1, 2, a);
    assert s == State(a + 2, map[a := b + 1, b := 0, x := 0], {x}, map[2 := Idle], [a, b], 2);
    assert s.pcs[1 := PopRead(s.head, b, 2)] == map[1 := PopRead(s.head, b, 2), 2 := Idle];
    WitnessInv(s.(pcs := map[1 := PopRead(s.head, b, 2), 2 := Idle]), a, b, x);
  }

  lemma WitnessInv(s: State, a: Slab, b: Slab, x: Slab)
    requires a == ALIGN && b == 2 * ALIGN && x == 3 * ALIGN
    requires s == State(a + 2, map[a := b + 1, b := 0, x := 0], {x}, map[1 := PopRead(a + 2, b, 2), 2 := Idle], [a, b],
                        2)
    ensures Inv(s)
  {
    assert s.stack[1..] == [b] && s.stack[2..] == [];
    assert Ptr(s.head) == a && Aba(s.head) == 2 && Ptr(b + 1) == b && Ptr(0) == 0;
    hide Ptr, Aba;
    assert Spells(s);
    assert Local(s, s.pcs[1]) && Local(s, s.pcs[2]);
  }

  lemma PopHalf(s: State, b: Slab)
    requires s.pcs == map[2 := Idle] && Ptr(s.head) != 0 && Ptr(s.head) in s.mem && Ptr(s.mem[Ptr(s.head)]) == b
    ensures var pop := [PopStart(1)] + ([PopLoad(1)] + ([PopNext(1)] + []));
            && CanRun(s, pop) && RunWithin(s, pop, WRAP)
            && After(s, pop) == s.(pcs := s.pcs[1 := PopRead(s.head, b, s.pushes)])
  {
    var s1 := Apply(s, PopStart(1));
    var s2 := Apply(s1, PopLoad(1));
    One(s2, PopNext(1), []);
    One(s1, PopLoad(1), [PopNext(1)] + []);
    One(s, PopStart(1), [PopLoad(1)] + ([PopNext(1)] + []));
    assert Apply(s2, PopNext(1)).pcs == s.pcs[1 := PopRead(s.head, b, s.pushes)];
  }

  lemma {:induction false} WithinMore(s: State, run: seq<Action>, m: nat, n: nat)
    requires CanRun(s, run) && RunWithin(s, run, m) && m <= n
    ensures RunWithin(s, run, n)
    decreases |run|
  {
    if run != [] { WithinMore(Apply(s, run[0]), run[1..], m, n); }
  }

  /** The window is exact: 2^16 is the greatest bound on the pushes in a pop's window under which every
      run from the empty stack keeps the invariant. */
  lemma WindowExactly(n: nat)
    ensures (forall run :: CanRun(Init(), run) && RunWithin(Init(), run, n) ==> Inv(After(Init(), run))) <==> n <= ALIGN
  {
    hide Inv, CanRun, RunWithin, After;
    if n <= ALIGN {
      InitOk();
      forall run | CanRun(Init(), run) && RunWithin(Init(), run, n) ensures Inv(After(Init(), run)) {
        WithinMore(Init(), run, n, ALIGN);
        RunKeeps(Init(), run);
      }
    } else {
      var run := WrapFromStart();
      WithinMore(Init(), run, WRAP, n);
    }
  }

  lemma InitOk()
    ensures Inv(Init())
  {
  }
}
