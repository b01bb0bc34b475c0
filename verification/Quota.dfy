/**
 include/small/quota.h: a limit on memory in one word, changed by compare-exchange loops, as
 interleaved steps of any number of threads.
 */
module Quota {

  const UNIT := 1024
  const WORD32 := 0x1_0000_0000
  const QUOTA_MAX := UNIT * (WORD32 - 1)

  /** A size in units, rounded up. */
  function Units(size: nat): nat { (size + (UNIT - 1)) / UNIT }

  type Tid = nat

  /** The upper and the lower half of the word. */
  function Total(w: nat): nat { w / WORD32 }
  function Used(w: nat): nat { w % WORD32 }
  function Pack(total: nat, used: nat): nat { total * WORD32 + used }

  lemma Unpack(total: nat, used: nat)
    requires used < WORD32
    ensures Total(Pack(total, used)) == total && Used(Pack(total, used)) == used
  {
  }

  // ---------- the steps ----------

  /** quota_set, quota_use and quota_release, of a number of units. */
  datatype Call = Set(units: nat) | Use(units: nat) | Release(units: nat)

  datatype Pc = Idle | Begun(call: Call) | Loaded(call: Call, word: nat)

  /** held is what is in use, by whatever thread; a release takes its units out of it when it begins. */
  datatype State = State(word: nat, pcs: map<Tid, Pc>, held: nat)

  datatype Action = Start(t: Tid, call: Call) | Load(t: Tid) | Cas(t: Tid, spurious: bool)

  function PcOf(s: State, t: Tid): Pc { if t in s.pcs then s.pcs[t] else Idle }

  /** quota_use's new_used_in_units: a 32-bit sum. */
  function NewUsed(used: nat, units: nat): nat { (used + units) % WORD32 }

  /** The value that the loop would install, given the one it loaded. */
  function Next(call: Call, w: nat): int {
    match call
    case Set(units) => Pack(units, Used(w))
    case Use(units) => Pack(Total(w), NewUsed(Used(w), units))
    case Release(units) => Total(w) * WORD32 + (Used(w) - units)
  }

  /** The call gives up after the load. */
  predicate Refuses(call: Call, w: nat) {
    match call
    case Set(units) => units < Used(w)
    case Use(units) => NewUsed(Used(w), units) > Total(w)
    case Release(_) => false
  }

  predicate Enabled(s: State, a: Action) {
    match a
    case Start(t, call) =>
      && PcOf(s, t).Idle? && call.units < WORD32
      && (!call.Set? ==> call.units > 0) && (call.Release? ==> call.units <= s.held)
    case Load(t) => PcOf(s, t).Begun?
    case Cas(t, _) => PcOf(s, t).Loaded?
  }

  function Goto(s: State, t: Tid, pc: Pc): State { s.(pcs := s.pcs[t := pc]) }

  predicate Succeeds(s: State, a: Action) { a.Cas? && PcOf(s, a.t).Loaded? && s.word == s.pcs[a.t].word && !a.spurious }

  function Apply(s: State, a: Action): State
    requires Enabled(s, a)
  {
    match a
    case Start(t, call) => Goto(if call.Release? then s.(held := s.held - call.units) else s, t, Begun(call))
    case Load(t) =>
      var call := s.pcs[t].call;
      if Refuses(call, s.word) then Goto(s, t, Idle) else Goto(s, t, Loaded(call, s.word))
    case Cas(t, spurious) =>
      var call := s.pcs[t].call;
      var next := Next(call, s.word);
      if Succeeds(s, a) && next >= 0 then
        Goto(s.(word := next, held := if call.Use? then s.held + call.units else s.held), t, Idle)
      else Goto(s, t, Begun(call))
  }

  /** The sum does not leave 32 bits. */
  predicate NoWrap(s: State, a: Action) {
    Succeeds(s, a) && s.pcs[a.t].call.Use? ==> Used(s.word) + s.pcs[a.t].call.units < WORD32
  }

  // ---------- the invariant ----------

  /** The units that a thread is giving back. */
  function Giving(pc: Pc): nat { if !pc.Idle? && pc.call.Release? then pc.call.units else 0 }

  ghost function Sum(m: map<Tid, Pc>): nat {
    if m == map[] then 0 else
      var t :| t in m;
      Giving(m[t]) + Sum(m - {t})
  }

  lemma {:induction false} SumOne(m: map<Tid, Pc>, u: Tid)
    requires u in m
    ensures Sum(m) == Giving(m[u]) + Sum(m - {u})
    decreases |m|
  {
    var t :| t in m && Sum(m) == Giving(m[t]) + Sum(m - {t});
    if t != u {
      assert m - {t} - {u} == m - {u} - {t};
      SumOne(m - {t}, u);
      SumOne(m - {u}, t);
    }
  }

  lemma SumChange(s: State, t: Tid, pc: Pc)
    ensures Sum(s.pcs[t := pc]) == Sum(s.pcs) - Giving(PcOf(s, t)) + Giving(pc) && Giving(PcOf(s, t)) <= Sum(s.pcs)
  {
    SumOne(s.pcs[t := pc], t);
    assert s.pcs[t := pc] - {t} == s.pcs - {t};
    if t in s.pcs { SumOne(s.pcs, t); } else { assert s.pcs - {t} == s.pcs; }
  }

  /** What a thread knows: its call is in range, and what it loaded lets it go on. */
  ghost predicate Local(pc: Pc) {
    !pc.Idle? ==>
      && pc.call.units < WORD32 && (!pc.call.Set? ==> pc.call.units > 0)
      && (pc.Loaded? ==> !Refuses(pc.call, pc.word))
  }

  /** What is in use and what is being given back. */
  ghost function Outstanding(s: State): nat { s.held + Sum(s.pcs) }

  /** The used half is what is outstanding, within the limit. */
  ghost predicate Inv(s: State) {
    && Used(s.word) <= Total(s.word) < WORD32 && Used(s.word) == Outstanding(s)
    && forall t :: t in s.pcs ==> Local(s.pcs[t])
  }

  lemma GotoKeeps(s: State, t: Tid, pc: Pc)
    requires Inv(s) && Local(pc) && Giving(pc) == Giving(PcOf(s, t))
    ensures Inv(Goto(s, t, pc))
  {
    hide Refuses, Used, Total, Sum;
    SumChange(s, t, pc);
  }

  lemma StartKeeps(s: State, t: Tid, call: Call)
    requires Inv(s) && Enabled(s, Start(t, call))
    ensures Inv(Apply(s, Start(t, call)))
  {
    hide Refuses, Used, Total, Sum;
    SumChange(s, t, Begun(call));
  }

  /** A successful compare-exchange keeps the books, unless a use wraps. */
  lemma CasKeeps(s: State, a: Action)
    requires Inv(s) && Enabled(s, a) && Succeeds(s, a) && NoWrap(s, a)
    ensures Inv(Apply(s, a)) && Used(Apply(s, a).word) == Outstanding(Apply(s, a)) <= Total(Apply(s, a).word)
  {
    hide Sum, Pack, Used, Total;
    var t, call := a.t, s.pcs[a.t].call;
    assert Local(s.pcs[t]);
    SumChange(s, t, Idle);
    Installed(call, s.word);
  }

  /** The halves of the word that a call installs. */
  lemma Installed(call: Call, w: nat)
    requires call.units < WORD32 && Used(w) <= Total(w) < WORD32 && !Refuses(call, w)
    requires call.Release? ==> call.units <= Used(w)
    ensures Next(call, w) >= 0
    ensures Total(Next(call, w)) == (if call.Set? then call.units else Total(w))
    ensures Used(Next(call, w)) <= Total(Next(call, w))
    ensures Used(Next(call, w)) == match call
                                   case Set(_) => Used(w)
                                   case Use(units) => NewUsed(Used(w), units)
                                   case Release(units) => Used(w) - units
  {
    match call
    case Set(units) => Unpack(units, Used(w));
    case Use(units) => Unpack(Total(w), NewUsed(Used(w), units));
    case Release(units) => Unpack(Total(w), Used(w) - units);
  }

  lemma StepKeeps(s: State, a: Action)
    requires Inv(s) && Enabled(s, a) && NoWrap(s, a)
    ensures Inv(Apply(s, a))
  {
    hide Sum, Refuses, Pack, Used, Total;
    match a {
      case Start(t, call) => StartKeeps(s, t, call);
      case Load(t) =>
        assert Local(s.pcs[t]);
        var call := s.pcs[t].call;
        NeverRefused(call, s.word);
        GotoKeeps(s, t, if Refuses(call, s.word) then Idle else Loaded(call, s.word));
      case Cas(t, spurious) =>
        assert Local(s.pcs[t]);
        if Succeeds(s, a) {
          CasKeeps(s, a);
        } else {
          GotoKeeps(s, t, Begun(s.pcs[t].call));
        }
    }
  }

  lemma NeverRefused(call: Call, w: nat)
    ensures call.Release? ==> !Refuses(call, w)
  {
  }

  predicate CanRun(s: State, run: seq<Action>)
    decreases |run|
  {
    run == [] || (Enabled(s, run[0]) && NoWrap(s, run[0]) && CanRun(Apply(s, run[0]), run[1..]))
  }

  function After(s: State, run: seq<Action>): State
    requires CanRun(s, run)
    decreases |run|
  {
    if run == [] then s else After(Apply(s, run[0]), run[1..])
  }

  /** quota_init */
  function Init(total: nat): State { State(Pack(Units(total), 0), map[], 0) }

  /** On every run without a wrap, however the threads interleave, the used half is within the
      limit and is exactly what the threads hold. */
  lemma {:induction false} RunKeeps(s: State, run: seq<Action>)
    requires Inv(s) && CanRun(s, run)
    ensures Inv(After(s, run))
    decreases |run|
  {
    if run != [] {
      StepKeeps(s, run[0]);
      RunKeeps(Apply(s, run[0]), run[1..]);
    }
  }

  lemma InitOk(total: nat)
    requires total <= QUOTA_MAX
    ensures Inv(Init(total)) && Total(Init(total).word) == Units(total)
  {
    Unpack(Units(total), 0);
  }

  /** A use that wraps is let through, and from then on the books are wrong: a successful use keeps
      the invariant exactly when the sum stays within 32 bits. */
  lemma WrapExactly(s: State, a: Action)
    requires Inv(s) && Enabled(s, a) && Succeeds(s, a) && s.pcs[a.t].call.Use?
    ensures Inv(Apply(s, a)) <==> Used(s.word) + s.pcs[a.t].call.units < WORD32
  {
    hide Sum, Pack, Used, Total;
    var t, call := a.t, s.pcs[a.t].call;
    assert Local(s.pcs[t]);
    if NoWrap(s, a) {
      CasKeeps(s, a);
    } else {
      SumChange(s, t, Idle);
      Installed(call, s.word);
      assert Used(Apply(s, a).word) < Outstanding(Apply(s, a));
    }
  }

  /** A wrapping use is never refused. */
  lemma WrapAccepted(w: nat, units: nat)
    requires Used(w) <= Total(w) && units < WORD32 && Used(w) + units >= WORD32
    ensures !Refuses(Use(units), w)
  {
  }

  /** A quota_set is refused exactly when the new limit is below what is outstanding; one that gets through
      installs the limit and leaves what is used. */
  lemma SetExactly(s: State, t: Tid)
    requires Inv(s) && !PcOf(s, t).Idle? && PcOf(s, t).call.Set?
    ensures var units := s.pcs[t].call.units;
            && (PcOf(s, t).Begun? ==> (PcOf(Apply(s, Load(t)), t).Idle? <==> units < Outstanding(s)))
            && (Succeeds(s, Cas(t, false)) ==>
                  && var s' := Apply(s, Cas(t, false));
                  Total(s'.word) == units && Used(s'.word) == Used(s.word) && Outstanding(s') == Outstanding(s))
  {
    hide Sum, Pack, Used, Total;
    assert Local(s.pcs[t]);
    if Succeeds(s, Cas(t, false)) {
      SumChange(s, t, Idle);
      Installed(s.pcs[t].call, s.word);
    }
  }

  /** Without a wrap a use is refused exactly when it would exceed the limit. */
  lemma RefusedExactly(w: nat, units: nat)
    requires Used(w) + units < WORD32
    ensures Refuses(Use(units), w) <==> Used(w) + units > Total(w)
  {
  }

  lemma One(s: State, a: Action, rest: seq<Action>)
    requires Enabled(s, a) && NoWrap(s, a) && CanRun(Apply(s, a), rest)
    ensures CanRun(s, [a] + rest) && After(s, [a] + rest) == After(Apply(s, a), rest)
  {
    assert ([a] + rest)[1..] == rest;
  }

  /** A thread alone uses units: up to the compare-exchange. */
  lemma UseAlone(s: State, t: Tid, units: nat, rest: seq<Action>)
    requires PcOf(s, t).Idle? && 0 < units < WORD32 && !Refuses(Use(units), s.word)
    requires CanRun(Goto(s, t, Loaded(Use(units), s.word)), rest)
    ensures CanRun(s, [Start(t, Use(units))] + ([Load(t)] + rest))
    ensures After(s, [Start(t, Use(units))] + ([Load(t)] + rest)) == After(Goto(s, t, Loaded(Use(units), s.word)), rest)
  {
    hide Refuses, Used, Total, Pack, Next;
    var s1 := Goto(s, t, Begun(Use(units)));
    assert Apply(s, Start(t, Use(units))) == s1;
    assert Goto(s1, t, Loaded(Use(units), s.word)) == Goto(s, t, Loaded(Use(units), s.word));
    One(s1, Load(t), rest);
    One(s, Start(t, Use(units)), [Load(t)] + rest);
  }

  /** From a fresh quota: two uses that together exceed any limit, both let through. */
  lemma OverQuota() returns (run: seq<Action>)
    ensures CanRun(Init(QUOTA_MAX), run)
    ensures var s, last := After(Init(QUOTA_MAX), run), Cas(1, false);
            Inv(s) && Enabled(s, last) && Succeeds(s, last) && Apply(s, last).held > Total(s.word)
  {
    hide Sum;
    var s, max := Init(QUOTA_MAX), WORD32 - 1;
    InitOk(QUOTA_MAX);
    Unpack(max, 0);
    Unpack(max, 1);
    Unpack(max, NewUsed(1, max));
    var s2 := Goto(s, 0, Loaded(Use(1), s.word));
    var s3 := Apply(s2, Cas(0, false));
    assert s3.word == Pack(max, 1) && s3.held == 1;
    var s5 := Goto(s3, 1, Loaded(Use(max), s3.word));
    UseAlone(s3, 1, max, []);
    var run3 := [Start(1, Use(max))] + ([Load(1)] + []);
    One(s2, Cas(0, false), run3);
    UseAlone(s, 0, 1, [Cas(0, false)] + run3);
    run := [Start(0, Use(1))] + ([Load(0)] + ([Cas(0, false)] + run3));
    assert After(s, run) == s5;
    RunKeeps(s, run);
  }
}
