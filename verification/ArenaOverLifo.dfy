/**
 small/slab_arena.c over include/small/lf_lifo.h: slab_map and slab_unmap with the stack of free slabs
 taken apart into the steps of LfLifo. As long as fewer than 2^16 pushes fall into the window of a pop,
 the steps add up to those of SlabArena, where the stack is one atomic step, so that what is proved
 there holds of the whole.
 */
module ArenaOverLifo {

  import L = LfLifo
  import A = SlabArena

  /** name tells which slab of the arena lies at an address. The arena's part changes at the steps at
      which its abstract stack changes. */
  datatype State = State(lifo: L.State, arena: A.State, name: map<nat, A.Slab>)

  /** A step inside lf_lifo_push or lf_lifo_pop or a write by a holder, or a step of slab_map outside of
      them; addr is where the slab that it hands out lies. */
  datatype Action = Lifo(l: L.Action) | Arena(a: A.Action, addr: nat)

  predicate Enabled(s: State, act: Action) {
    match act
    case Lifo(l) =>
      && L.Enabled(s.lifo, l) && !l.Obtain?
      && (l.PopStart? || l.PushStart? ==> A.PcOf(s.arena, l.t).Idle?)
    case Arena(a, addr) =>
      && A.Enabled(s.arena, a) && !a.Pop? && !a.Unmap? && L.PcOf(s.lifo, a.t).Idle?
      && (A.Hands(s.arena, a).Slab? ==> L.Enabled(s.lifo, L.Obtain(addr)))
  }

  /** The step of the abstract arena that a step of the stack stands for, if any: a push or a pop takes
      effect at its compare-exchange, a pop that finds nothing at its load. */
  function Meaning(s: State, l: L.Action): (r: seq<A.Action>)
    ensures |r| <= 1
  {
    if L.IsPush(s.lifo, l) && s.lifo.pcs[l.t].elem in s.name then [A.Unmap(l.t, s.name[s.lifo.pcs[l.t].elem])]
    else if L.IsPop(s.lifo, l) || L.IsEmpty(s.lifo, l) then [A.Pop(l.t)]
    else []
  }

  function Apply(s: State, act: Action): State
    requires Enabled(s, act)
  {
    match act
    case Lifo(l) =>
      var m, lifo := Meaning(s, l), L.Apply(s.lifo, l);
      if m != [] && A.Enabled(s.arena, m[0]) then s.(lifo := lifo, arena := A.Apply(s.arena, m[0]))
      else s.(lifo := lifo)
    case Arena(a, addr) =>
      var g, arena := A.Hands(s.arena, a), A.Apply(s.arena, a);
      if g.Slab? then s.(lifo := L.Apply(s.lifo, L.Obtain(addr)), arena := arena, name := s.name[addr := g.slab])
      else s.(arena := arena)
  }

  predicate InWindow(s: State, act: Action) { act.Lifo? ==> L.InWindow(s.lifo, act.l) }

  // ---------- how the two fit together ----------

  /** The slab is with a caller: held, or on its way back into the stack. */
  ghost predicate IsOut(l: L.State, a: nat) { a in l.held || exists t :: t in l.pcs && L.Pushing(l.pcs[t], a) }

  ghost predicate Names(name: map<nat, A.Slab>, mem: map<nat, nat>) {
    name.Keys == mem.Keys && forall a, b :: a in name && b in name && name[a] == name[b] ==> a == b
  }

  ghost predicate SameStack(name: map<nat, A.Slab>, stack: seq<nat>, abs: seq<A.Slab>) {
    |abs| == |stack| && forall i :: 0 <= i < |stack| ==> stack[i] in name && abs[i] == name[stack[i]]
  }

  ghost predicate SameHolders(s: State) {
    && (forall a :: a in s.name ==> (s.name[a] in s.arena.held <==> IsOut(s.lifo, a)))
    && forall x :: x in s.arena.held ==> exists a :: a in s.name && s.name[a] == x
  }

  /** Every slab is with a caller or in the stack. */
  ghost predicate NoneLost(s: State) { forall a :: a in s.name ==> IsOut(s.lifo, a) || a in s.lifo.stack }

  /** A thread is in one of the two at a time. */
  predicate InOne(s: State, t: nat) { L.PcOf(s.lifo, t).Idle? || A.PcOf(s.arena, t).Idle? }

  ghost predicate Threads(s: State) { forall t :: InOne(s, t) }

  ghost predicate Inv(s: State) {
    && L.Inv(s.lifo) && A.Inv(s.arena) && Names(s.name, s.lifo.mem)
    && SameStack(s.name, s.lifo.stack, s.arena.stack) && SameHolders(s) && Threads(s) && NoneLost(s)
  }

  // ---------- every step keeps it ----------

  lemma OutInMem(l: L.State, a: nat)
    requires L.Inv(l) && IsOut(l, a)
    ensures a in l.mem && a !in l.stack
  {
  }

  /** Steps that neither push nor pop leave the slabs where they are. */
  lemma Silent(s: State, l: L.Action)
    requires L.Inv(s.lifo) && L.Enabled(s.lifo, l) && !l.Obtain? && !L.IsPush(s.lifo, l) && !L.IsPop(s.lifo, l)
    ensures var l' := L.Apply(s.lifo, l); l'.stack == s.lifo.stack && l'.mem.Keys == s.lifo.mem.Keys
    ensures forall a :: IsOut(L.Apply(s.lifo, l), a) <==> IsOut(s.lifo, a)
  {
    hide L.Spells, L.Local;
    var l0, l1 := s.lifo, L.Apply(s.lifo, l);
    assert l1.mem.Keys == l0.mem.Keys by {
      if l.PushLink? { assert L.Pushing(l0.pcs[l.t], l0.pcs[l.t].elem); }
    }
    forall a ensures IsOut(l1, a) <==> IsOut(l0, a) {
      if t :| t in l0.pcs && L.Pushing(l0.pcs[t], a) {
        assert t in l1.pcs && L.Pushing(l1.pcs[t], a);
      }
      if l.PushStart? && a == l.elem { assert L.Pushing(l1.pcs[l.t], a); }
      if t :| t in l1.pcs && L.Pushing(l1.pcs[t], a) {
        assert (l.PushStart? && t == l.t) || (t in l0.pcs && L.Pushing(l0.pcs[t], a));
      }
    }
  }

  /** A push hands the slab from its caller to the stack. */
  lemma PushMoves(s: State, l: L.Action)
    requires L.Inv(s.lifo) && L.IsPush(s.lifo, l)
    ensures var e, l' := s.lifo.pcs[l.t].elem, L.Apply(s.lifo, l);
            && IsOut(s.lifo, e) && l'.stack == [e] + s.lifo.stack && l'.mem == s.lifo.mem
            && forall a :: IsOut(l', a) <==> IsOut(s.lifo, a) && a != e
  {
    hide L.Spells, L.Local;
    var l0, l1, e := s.lifo, L.Apply(s.lifo, l), s.lifo.pcs[l.t].elem;
    assert L.Pushing(l0.pcs[l.t], e);
    forall a ensures IsOut(l1, a) <==> IsOut(l0, a) && a != e {
      if t :| t in l0.pcs && L.Pushing(l0.pcs[t], a) {
        if a != e { assert t in l1.pcs && L.Pushing(l1.pcs[t], a); }
      }
      if t :| t in l1.pcs && L.Pushing(l1.pcs[t], a) {
        assert t in l0.pcs && L.Pushing(l0.pcs[t], a);
      }
    }
  }

  /** A pop in the window hands the top of the stack to its caller, and nobody else has it. */
  lemma PopMoves(s: State, l: L.Action)
    requires L.Inv(s.lifo) && L.IsPop(s.lifo, l) && L.InWindow(s.lifo, l)
    ensures s.lifo.stack != []
    ensures var x, l' := s.lifo.stack[0], L.Apply(s.lifo, l);
            && !IsOut(s.lifo, x) && L.Ptr(s.lifo.pcs[l.t].tail) == x
            && l'.stack == s.lifo.stack[1..] && l'.mem == s.lifo.mem
            && forall a :: IsOut(l', a) <==> IsOut(s.lifo, a) || a == x
  {
    L.PopTakesTop(s.lifo, l.t);
    L.TopIsFree(s.lifo);
    hide L.Spells, L.Local;
    var l0, l1, x := s.lifo, L.Apply(s.lifo, l), s.lifo.stack[0];
    forall a ensures IsOut(l1, a) <==> IsOut(l0, a) || a == x {
      if t :| t in l0.pcs && L.Pushing(l0.pcs[t], a) {
        assert t in l1.pcs && L.Pushing(l1.pcs[t], a);
      }
      if t :| t in l1.pcs && L.Pushing(l1.pcs[t], a) {
        assert t in l0.pcs && L.Pushing(l0.pcs[t], a);
      }
    }
  }

  lemma SilentKeeps(s: State, l: L.Action)
    requires Inv(s) && Enabled(s, Lifo(l)) && InWindow(s, Lifo(l))
    requires !L.IsPush(s.lifo, l) && !L.IsPop(s.lifo, l) && !L.IsEmpty(s.lifo, l)
    ensures Inv(Apply(s, Lifo(l))) && Apply(s, Lifo(l)).arena == s.arena
  {
    hide L.Inv, A.Inv, IsOut;
    L.StepKeeps(s.lifo, l);
    Silent(s, l);
    var s' := Apply(s, Lifo(l));
    forall t ensures InOne(s', t) {
      assert InOne(s, t);
    }
  }

  lemma EmptyKeeps(s: State, l: L.Action)
    requires Inv(s) && Enabled(s, Lifo(l)) && L.IsEmpty(s.lifo, l)
    ensures Inv(Apply(s, Lifo(l))) && s.arena.stack == []
    ensures A.Enabled(s.arena, A.Pop(l.t)) && Apply(s, Lifo(l)).arena == A.Apply(s.arena, A.Pop(l.t))
  {
    hide A.Inv, IsOut;
    L.StepKeeps(s.lifo, l);
    L.TopIsSlab(s.lifo);
    hide L.Inv;
    Silent(s, l);
    assert InOne(s, l.t);
    A.StepKeeps(s.arena, A.Pop(l.t));
    var s' := Apply(s, Lifo(l));
    forall t ensures InOne(s', t) {
      assert InOne(s, t);
    }
  }

  lemma PushKeeps(s: State, l: L.Action)
    requires Inv(s) && Enabled(s, Lifo(l)) && L.IsPush(s.lifo, l)
    ensures Inv(Apply(s, Lifo(l)))
    ensures Meaning(s, l) != [] && A.Enabled(s.arena, Meaning(s, l)[0])
    ensures Apply(s, Lifo(l)).arena == A.Apply(s.arena, Meaning(s, l)[0])
  {
    hide L.Inv, A.Inv, IsOut;
    L.StepKeeps(s.lifo, l);
    PushMoves(s, l);
    var e, s' := s.lifo.pcs[l.t].elem, Apply(s, Lifo(l));
    OutInMem(s.lifo, e);
    assert InOne(s, l.t);
    A.StepKeeps(s.arena, A.Unmap(l.t, s.name[e]));
    Swapped(s.name, s.lifo.stack, s.arena.stack, e);
    forall t ensures InOne(s', t) {
      assert InOne(s, t);
    }
  }

  lemma Swapped(name: map<nat, A.Slab>, stack: seq<nat>, abs: seq<A.Slab>, e: nat)
    requires SameStack(name, stack, abs) && e in name
    ensures SameStack(name, [e] + stack, [name[e]] + abs)
  {
  }

  lemma PopKeeps(s: State, l: L.Action)
    requires Inv(s) && Enabled(s, Lifo(l)) && L.IsPop(s.lifo, l) && L.InWindow(s.lifo, l)
    ensures Inv(Apply(s, Lifo(l))) && s.lifo.stack != [] && s.lifo.stack[0] in s.name
    ensures A.Enabled(s.arena, A.Pop(l.t)) && Apply(s, Lifo(l)).arena == A.Apply(s.arena, A.Pop(l.t))
    ensures A.Hands(s.arena, A.Pop(l.t)) == A.Given.Slab(s.name[L.Ptr(s.lifo.pcs[l.t].tail)])
  {
    hide L.Inv, A.Inv, IsOut;
    L.StepKeeps(s.lifo, l);
    PopMoves(s, l);
    assert InOne(s, l.t);
    A.StepKeeps(s.arena, A.Pop(l.t));
    var s' := Apply(s, Lifo(l));
    forall t ensures InOne(s', t) {
      assert InOne(s, t);
    }
  }

  lemma ArenaKeeps(s: State, a: A.Action, addr: nat)
    requires Inv(s) && Enabled(s, Arena(a, addr))
    ensures Inv(Apply(s, Arena(a, addr)))
  {
    hide L.Inv, A.Inv, IsOut, L.Apply, A.Hands;
    A.StepKeeps(s.arena, a);
    var s', g := Apply(s, Arena(a, addr)), A.Hands(s.arena, a);
    Outside(s.arena, a);
    if g.Slab? {
      L.StepKeeps(s.lifo, L.Obtain(addr));
      Obtained(s.lifo, addr);
      HandsNew(s.arena, a);
      NewName(s, g.slab);
      Joins(s, s', addr, g.slab);
    }
    forall t ensures InOne(s', t) {
      assert InOne(s, t);
    }
  }

  lemma Joins(s: State, s': State, addr: nat, x: A.Slab)
    requires Names(s.name, s.lifo.mem) && SameStack(s.name, s.lifo.stack, s.arena.stack) && SameHolders(s)
    requires NoneLost(s)
    requires forall a :: a in s.name ==> s.name[a] != x
    requires s'.name == s.name[addr := x] && addr !in s.lifo.mem && s'.lifo.mem.Keys == s.lifo.mem.Keys + {addr}
    requires s'.lifo.stack == s.lifo.stack && s'.arena.stack == s.arena.stack && s'.arena.held == s.arena.held + {x}
    requires forall a :: IsOut(s'.lifo, a) <==> IsOut(s.lifo, a) || a == addr
    ensures Names(s'.name, s'.lifo.mem) && SameStack(s'.name, s'.lifo.stack, s'.arena.stack) && SameHolders(s')
    ensures NoneLost(s')
  {
    hide IsOut;
    forall y | y in s'.arena.held ensures exists a :: a in s'.name && s'.name[a] == y {
      if y == x {
        assert s'.name[addr] == y;
      } else {
        var a :| a in s.name && s.name[a] == y;
        assert s'.name[a] == y;
      }
    }
  }

  /** What the steps of slab_map outside of the stack do to the arena's stack and holders. */
  lemma Outside(s: A.State, a: A.Action)
    requires A.Enabled(s, a) && !a.Pop? && !a.Unmap?
    ensures var s' := A.Apply(s, a);
            && s'.stack == s.stack && (forall t :: t != a.t ==> A.PcOf(s', t) == A.PcOf(s, t))
            && s'.held == s.held + if A.Hands(s, a).Slab? then {A.Hands(s, a).slab} else {}
  {
  }

  lemma Obtained(l: L.State, addr: nat)
    requires L.Inv(l) && L.Enabled(l, L.Obtain(addr))
    ensures var l' := L.Apply(l, L.Obtain(addr));
            && l'.stack == l.stack && l'.pcs == l.pcs && l'.mem.Keys == l.mem.Keys + {addr} && addr !in l.mem
            && forall a :: IsOut(l', a) <==> IsOut(l, a) || a == addr
  {
    hide L.Spells, L.Local;
  }

  lemma HandsNew(s: A.State, a: A.Action)
    requires A.Inv(s) && A.Enabled(s, a) && !a.Pop? && A.Hands(s, a).Slab?
    ensures A.Hands(s, a).slab !in A.Exists(s)
  {
    hide A.Apart, A.Counted, A.Payers;
  }

  /** A slab handed out from outside the stack is not the name of any address yet. */
  lemma NewName(s: State, x: A.Slab)
    requires SameStack(s.name, s.lifo.stack, s.arena.stack) && SameHolders(s) && NoneLost(s) && x !in A.Exists(s.arena)
    ensures forall a :: a in s.name ==> s.name[a] != x
  {
    hide IsOut;
    forall a | a in s.name ensures s.name[a] in A.Exists(s.arena) {
      if a in s.lifo.stack {
        var i :| 0 <= i < |s.lifo.stack| && s.lifo.stack[i] == a;
        assert s.arena.stack[i] == s.name[a];
      }
    }
  }

  /** Every step in the window keeps the invariant, and is a step of SlabArena or none. */
  lemma StepRefines(s: State, act: Action)
    requires Inv(s) && Enabled(s, act) && InWindow(s, act)
    ensures Inv(Apply(s, act))
    ensures || Apply(s, act).arena == s.arena
            || exists b :: A.Enabled(s.arena, b) && Apply(s, act).arena == A.Apply(s.arena, b)
  {
    hide Inv, A.Enabled, A.Apply, L.Apply;
    match act
    case Arena(a, addr) => ArenaKeeps(s, a, addr);
    case Lifo(l) =>
      if L.IsPush(s.lifo, l) {
        PushKeeps(s, l);
      } else if L.IsPop(s.lifo, l) {
        PopKeeps(s, l);
      } else if L.IsEmpty(s.lifo, l) {
        EmptyKeeps(s, l);
      } else {
        SilentKeeps(s, l);
      }
  }

  // ---------- runs ----------

  function Init(prealloc: nat): State { State(L.Init(), A.Init(prealloc), map[]) }

  predicate CanRun(s: State, run: seq<Action>)
    decreases |run|
  {
    run == [] || (Enabled(s, run[0]) && CanRun(Apply(s, run[0]), run[1..]))
  }

  predicate RunInWindow(s: State, run: seq<Action>)
    requires CanRun(s, run)
    decreases |run|
  {
    run == [] || (InWindow(s, run[0]) && RunInWindow(Apply(s, run[0]), run[1..]))
  }

  function After(s: State, run: seq<Action>): State
    requires CanRun(s, run)
    decreases |run|
  {
    if run == [] then s else After(Apply(s, run[0]), run[1..])
  }

  lemma {:induction false} RunRefines(s: State, run: seq<Action>)
    requires Inv(s) && CanRun(s, run) && RunInWindow(s, run)
    ensures Inv(After(s, run))
    decreases |run|
  {
    if run != [] {
      StepRefines(s, run[0]);
      RunRefines(Apply(s, run[0]), run[1..]);
    }
  }

  lemma InitOk(prealloc: nat)
    ensures Inv(Init(prealloc))
  {
    L.InitOk();
    A.InitOk(prealloc);
  }

  /** On every run in the window slab_map hands out no slab that another caller has: neither by a pop
      of the stack, nor as the next preallocated slab or a new one. */
  lemma OneHolder(prealloc: nat, run: seq<Action>, act: Action)
    requires CanRun(Init(prealloc), run) && RunInWindow(Init(prealloc), run)
    requires Enabled(After(Init(prealloc), run), act) && InWindow(After(Init(prealloc), run), act)
    ensures var s := After(Init(prealloc), run);
            && (act.Lifo? && L.IsPop(s.lifo, act.l) ==>
                  var x := L.Ptr(s.lifo.pcs[act.l.t].tail);
                  !IsOut(s.lifo, x) && IsOut(Apply(s, act).lifo, x) && x in s.name && s.name[x] !in s.arena.held)
            && (act.Arena? && A.Hands(s.arena, act.a).Slab? ==>
                  && !IsOut(s.lifo, act.addr) && act.addr !in s.lifo.stack && IsOut(Apply(s, act).lifo, act.addr)
                  && A.Hands(s.arena, act.a).slab !in s.arena.held)
  {
    hide L.Spells, L.Local, A.Counts;
    InitOk(prealloc);
    RunRefines(Init(prealloc), run);
    var s := After(Init(prealloc), run);
    if act.Lifo? && L.IsPop(s.lifo, act.l) {
      PopMoves(s, act.l);
    }
    if act.Arena? && A.Hands(s.arena, act.a).Slab? {
      A.NotHeld(s.arena, act.a);
      if IsOut(s.lifo, act.addr) { OutInMem(s.lifo, act.addr); }
    }
  }
}
