/**
 The self-disarming lookup hook of kext/vnode.c as an interleaving machine.

 One transition is one access to a shared variable.  A thread owns a stack of
 activations of the hook, top first, so that a dispatch that arrives while the
 same thread is already inside the hook (re-entry) is an ordinary transition.
 A schedule is any sequence of labels; quantifying over schedules is
 quantifying over every interleaving of any number of threads.
 */
module LookupMachine {
  import opened CTypes
  import HookControl

  /** sebsd_hooks_enabled, split into SEBSD_HOOK_VNODE_LOOKUP (0x10) and everything else. */
  datatype Mask = Mask(lookup: bool, others: HookControl.Mask)

  /** What an activation does next.  `reentry` marks the detected path. */
  datatype Pc =
    | LoadOwner
    | SetRecursed
    | StoreOwner
    | AddDepth
    | CompareMax(d: nat)
    | StoreMax(d: nat)
    | AddCount
    | TestFuse(n: nat)
    | ClearSlot(reentry: bool)
    | LoadMask(reentry: bool)
    | StoreMask(reentry: bool, seen: Mask)
    | SubDepth
    | ClearOwner

  datatype Next = Goto(pc: Pc) | Return

  /** The shared variables; `slot` says whether the framework's slot is non-NULL. */
  datatype Globals = Globals(
    slot: bool,
    mask: Mask,
    owner: nat,
    depth: nat,
    maxdepth: nat,
    recursed: bool,
    count: nat,
    fuse: int)

  datatype State = State(g: Globals, stacks: seq<seq<Pc>>)

  /** Dispatch is the framework's load of the slot, Advance one step of the hook. */
  datatype Label = Dispatch(t: nat) | Advance(t: nat)

  /** The thread pointer of thread number t: unique and never 0. */
  function Self(t: nat): nat {
    t + 1
  }

  /** Increment and decrement of an unsigned int. */
  function Inc(x: nat): nat {
    if x + 1 < UINT_LIMIT then x + 1 else 0
  }

  function Dec(x: nat): nat {
    if x == 0 then UINT_LIMIT - 1 else x - 1
  }

  /** What one step of an activation does to the shared variables. */
  function Effect(g: Globals, self: nat, pc: Pc): Globals {
    match pc
    case SetRecursed => g.(recursed := true)
    case StoreOwner => g.(owner := self)
    case AddDepth => g.(depth := Inc(g.depth))
    case StoreMax(d) => g.(maxdepth := d)
    case AddCount => g.(count := Inc(g.count))
    case ClearSlot(_) => g.(slot := false)
    case StoreMask(_, seen) => g.(mask := seen.(lookup := false))
    case SubDepth => g.(depth := Dec(g.depth))
    case ClearOwner => g.(owner := 0)
    case LoadOwner | CompareMax(_) | TestFuse(_) | LoadMask(_) => g
  }

  /** Where that step leaves the activation; what it read is in the globals before the step. */
  function Succ(g: Globals, self: nat, pc: Pc): Next {
    match pc
    case LoadOwner => Goto(if g.owner == self then SetRecursed else StoreOwner)
    case SetRecursed => Goto(ClearSlot(true))
    case StoreOwner => Goto(AddDepth)
    case AddDepth => Goto(CompareMax(Inc(g.depth)))
    case CompareMax(d) => Goto(if d > g.maxdepth then StoreMax(d) else AddCount)
    case StoreMax(_) => Goto(AddCount)
    case AddCount => Goto(TestFuse(Inc(g.count)))
    case TestFuse(n) => Goto(if g.fuse > 0 && n >= g.fuse then ClearSlot(false) else SubDepth)
    case ClearSlot(re) => Goto(LoadMask(re))
    case LoadMask(re) => Goto(StoreMask(re, g.mask))
    case StoreMask(re, _) => if re then Return else Goto(SubDepth)
    case SubDepth => Goto(ClearOwner)
    case ClearOwner => Return
  }

  function Resume(next: Next): seq<Pc> {
    if next.Goto? then [next.pc] else []
  }

  predicate Effective(s: State, l: Label) {
    && l.t < |s.stacks|
    && (l.Dispatch? ==> s.g.slot)
    && (l.Advance? ==> s.stacks[l.t] != [])
  }

  /** A dispatch that finds the slot NULL is skipped by the framework; a thread outside the hook does not advance. */
  function Step(s: State, l: Label): State {
    if !Effective(s, l) then s
    else if l.Dispatch? then s.(stacks := s.stacks[l.t := [LoadOwner] + s.stacks[l.t]])
    else
      var stack := s.stacks[l.t];
      var next := Succ(s.g, Self(l.t), stack[0]);
      State(Effect(s.g, Self(l.t), stack[0]), s.stacks[l.t := Resume(next) + stack[1..]])
  }

  /** The state after a schedule; the number of threads and the fuse never change. */
  function Run(s: State, sch: seq<Label>): (r: State)
    ensures |r.stacks| == |s.stacks| && r.g.fuse == s.g.fuse
  {
    if sch == [] then s
    else Step(Run(s, sch[..|sch| - 1]), sch[|sch| - 1])
  }

  /** The slot has just been armed, nobody is inside the hook and the statistics are reset. */
  predicate Armed(s: State) {
    && s.g.slot && s.g.mask.lookup
    && s.g.owner == 0 && s.g.depth == 0 && s.g.maxdepth == 0 && s.g.count == 0
    && !s.g.recursed
    && -INT_MAX - 1 <= s.g.fuse <= INT_MAX
    && Quiescent(s)
  }

  predicate Quiescent(s: State) {
    forall t :: 0 <= t < |s.stacks| ==> s.stacks[t] == []
  }

  // ----- counting activations -----

  /** What is counted over the activations: membership of a region of the hook's body, or steps. */
  datatype Tally =
    | Anywhere                 // inside the hook at all
    | Window                   // between its owner store and its owner clear
    | Deep                     // between its depth add and its depth sub
    | Uncounted                // has not drawn a ticket and may still do so
    | Overdrawn(fuse: int)     // drew a ticket at or past the fuse and has not cleared the slot
    | Detected                 // on the re-entry path, slot not cleared yet
    | MaskPending              // slot cleared, mask bit not dropped yet
    | Recording                // depth taken, maxdepth not settled yet
    | Unflagged                // will find its own thread in `owner`, flag not set yet
    | Unanswered               // as Unflagged, or flag set and slot not cleared yet
    | StepsLeft                // how many steps are left at most

  predicate IsDeep(pc: Pc) {
    || pc.CompareMax? || pc.StoreMax? || pc.AddCount? || pc.TestFuse? || pc.SubDepth?
    || (pc.ClearSlot? && !pc.reentry)
    || (pc.LoadMask? && !pc.reentry)
    || (pc.StoreMask? && !pc.reentry)
  }

  predicate In(r: Tally, pc: Pc) {
    match r
    case Anywhere => true
    case Window =>
      pc.AddDepth? || pc.ClearOwner? || IsDeep(pc)
    case Deep => IsDeep(pc)
    case Uncounted =>
      pc.LoadOwner? || pc.StoreOwner? || pc.AddDepth? || pc.CompareMax? || pc.StoreMax? || pc.AddCount?
    case Overdrawn(fuse) => (pc.TestFuse? && pc.n >= fuse) || (pc.ClearSlot? && !pc.reentry)
    case Detected => pc.SetRecursed? || (pc.ClearSlot? && pc.reentry)
    case MaskPending => pc.LoadMask? || pc.StoreMask?
    case Recording => pc.CompareMax? || pc.StoreMax?
    case Unflagged => pc.LoadOwner? || pc.SetRecursed?
    case Unanswered => pc.LoadOwner? || pc.SetRecursed? || (pc.ClearSlot? && pc.reentry)
    case StepsLeft => true
  }

  function Remaining(pc: Pc): nat {
    match pc
    case LoadOwner => 12
    case StoreOwner => 11
    case AddDepth => 10
    case CompareMax(_) => 9
    case StoreMax(_) => 8
    case AddCount => 7
    case TestFuse(_) => 6
    case SetRecursed => 6
    case ClearSlot(_) => 5
    case LoadMask(_) => 4
    case StoreMask(_, _) => 3
    case SubDepth => 2
    case ClearOwner => 1
  }

  function Weight(r: Tally, pc: Pc): nat {
    if r.StepsLeft? then Remaining(pc) else if In(r, pc) then 1 else 0
  }

  function NextWeight(r: Tally, next: Next): nat {
    if next.Goto? then Weight(r, next.pc) else 0
  }

  function CountIn(r: Tally, stack: seq<Pc>): nat {
    if stack == [] then 0 else Weight(r, stack[0]) + CountIn(r, stack[1..])
  }

  function CountAll(r: Tally, stacks: seq<seq<Pc>>): nat {
    if stacks == [] then 0 else CountIn(r, stacks[0]) + CountAll(r, stacks[1..])
  }

  lemma {:induction false} CountAllUpdate(r: Tally, stacks: seq<seq<Pc>>, t: nat, stack: seq<Pc>)
    requires t < |stacks|
    ensures CountAll(r, stacks[t := stack]) + CountIn(r, stacks[t]) == CountAll(r, stacks) + CountIn(r, stack)
  {
    if t == 0 {
      assert stacks[t := stack][1..] == stacks[1..];
    } else {
      assert stacks[t := stack][1..] == stacks[1..][t - 1 := stack];
      CountAllUpdate(r, stacks[1..], t - 1, stack);
    }
  }

  lemma {:induction false} CountAllAtLeast(r: Tally, stacks: seq<seq<Pc>>, t: nat)
    requires t < |stacks|
    ensures CountAll(r, stacks) >= CountIn(r, stacks[t])
  {
    if t > 0 {
      CountAllAtLeast(r, stacks[1..], t - 1);
    }
  }

  lemma {:induction false} CountAllZero(r: Tally, stacks: seq<seq<Pc>>)
    requires forall t :: 0 <= t < |stacks| ==> stacks[t] == []
    ensures CountAll(r, stacks) == 0
  {
    if stacks != [] {
      CountAllZero(r, stacks[1..]);
    }
  }

  /** What a step takes out of a region: the activation it moves, as it was. */
  function Loss(r: Tally, s: State, l: Label): nat
    requires Effective(s, l)
  {
    if l.Dispatch? then 0 else Weight(r, s.stacks[l.t][0])
  }

  /** What a step puts into a region: the activation it moves, as it becomes. */
  function Gain(r: Tally, s: State, l: Label): nat
    requires Effective(s, l)
  {
    if l.Dispatch? then Weight(r, LoadOwner)
    else
      NextWeight(r, Succ(s.g, Self(l.t), s.stacks[l.t][0]))
  }

  /** A step changes the population of a region only through the activation it moves. */
  lemma {:induction false} CountStep(r: Tally, s: State, l: Label)
    requires Effective(s, l)
    ensures CountAll(r, Step(s, l).stacks) == CountAll(r, s.stacks) + Gain(r, s, l) - Loss(r, s, l)
    ensures CountAll(r, s.stacks) >= Loss(r, s, l)
  {
    var stack := s.stacks[l.t];
    var stack' := Step(s, l).stacks[l.t];
    CountAllUpdate(r, s.stacks, l.t, stack');
    CountAllAtLeast(r, s.stacks, l.t);
    if l.Dispatch? {
      assert stack'[1..] == stack;
    } else if Succ(s.g, Self(l.t), stack[0]).Goto? {
      assert stack'[1..] == stack[1..];
    } else {
      assert stack' == stack[1..];
    }
  }

  /** Some activation of some thread is at pc. */
  ghost predicate Alive(s: State, pc: Pc) {
    exists t, k :: 0 <= t < |s.stacks| && 0 <= k < |s.stacks[t]| && s.stacks[t][k] == pc
  }

  /** The place a step brings an activation to, if the activation does not return. */
  function Arrival(s: State, l: Label): Next
    requires Effective(s, l)
  {
    if l.Dispatch? then Goto(LoadOwner) else Succ(s.g, Self(l.t), s.stacks[l.t][0])
  }

  /** Some activation at pc is not the one that this label moves. */
  ghost predicate Unmoved(s: State, l: Label, pc: Pc) {
    exists t, k :: 0 <= t < |s.stacks| && 0 <= k < |s.stacks[t]| && s.stacks[t][k] == pc && !(l == Advance(t) && k == 0)
  }

  /** Every activation is where it was before the step, except the one that arrived. */
  lemma {:induction false} StepAlive(s: State, l: Label, pc: Pc)
    requires Effective(s, l) && Alive(Step(s, l), pc)
    ensures Unmoved(s, l, pc) || Arrival(s, l) == Goto(pc)
    ensures Unmoved(s, l, pc) ==> Alive(s, pc)
  {
    var s' := Step(s, l);
    var t, k :| 0 <= t < |s'.stacks| && 0 <= k < |s'.stacks[t]| && s'.stacks[t][k] == pc;
    if t != l.t {
      assert s.stacks[t][k] == pc;
    } else if l.Dispatch? {
      assert k > 0 ==> s.stacks[t][k - 1] == pc;
    } else if Arrival(s, l).Goto? {
      assert k > 0 ==> s.stacks[t][k] == pc;
    } else {
      assert s.stacks[t][k + 1] == pc;
    }
  }

  /** Every activation stays where it was, except the one that moved; the one that arrived is there. */
  lemma {:induction false} AliveStays(s: State, l: Label, pc: Pc)
    requires Effective(s, l)
    ensures Alive(s, pc) ==> Alive(Step(s, l), pc) || (l.Advance? && pc == s.stacks[l.t][0])
    ensures Arrival(s, l).Goto? ==> Alive(Step(s, l), Arrival(s, l).pc)
  {
    var s' := Step(s, l);
    if Arrival(s, l).Goto? {
      assert s'.stacks[l.t][0] == Arrival(s, l).pc;
    }
    if Alive(s, pc) {
      var t, k :| 0 <= t < |s.stacks| && 0 <= k < |s.stacks[t]| && s.stacks[t][k] == pc;
      if t != l.t {
        assert s'.stacks[t][k] == pc;
      } else if l.Dispatch? {
        assert s'.stacks[t][k + 1] == pc;
      } else if k > 0 {
        assert s'.stacks[t][if Arrival(s, l).Goto? then k else k - 1] == pc;
      }
    }
  }

  /** An activation anywhere in a region makes the region's population positive. */
  lemma {:induction false} AliveCounts(r: Tally, s: State, pc: Pc)
    requires Alive(s, pc) && In(r, pc)
    ensures CountAll(r, s.stacks) > 0
  {
    var t, k :| 0 <= t < |s.stacks| && 0 <= k < |s.stacks[t]| && s.stacks[t][k] == pc;
    AliveInStack(r, s.stacks[t], k);
    CountAllAtLeast(r, s.stacks, t);
  }

  lemma {:induction false} AliveInStack(r: Tally, stack: seq<Pc>, k: nat)
    requires k < |stack| && In(r, stack[k])
    ensures CountIn(r, stack) > 0
  {
    if k > 0 {
      AliveInStack(r, stack[1..], k - 1);
    }
  }

  // ----- histories -----

  function Max(a: nat, b: nat): nat {
    if a >= b then a else b
  }

  /** The largest number of activations of a region that were live at once. */
  function Peak(r: Tally, s: State, sch: seq<Label>): (p: nat)
    ensures p >= CountAll(r, Run(s, sch).stacks)
  {
    if sch == [] then CountAll(r, s.stacks)
    else Max(Peak(r, s, sch[..|sch| - 1]), CountAll(r, Run(s, sch).stacks))
  }

  /** How many dispatches found the slot non-NULL, that is, entered the hook. */
  function Entries(s: State, sch: seq<Label>): nat {
    if sch == [] then 0
    else
      var before := sch[..|sch| - 1];
      var l := sch[|sch| - 1];
      Entries(s, before) + (if l.Dispatch? && Effective(Run(s, before), l) then 1 else 0)
  }

  /** No dispatch arrives on a thread that is already inside the hook. */
  predicate NoReentry(s: State, sch: seq<Label>) {
    sch == [] ||
    var before := sch[..|sch| - 1];
    var l := sch[|sch| - 1];
    && NoReentry(s, before)
    && (l.Dispatch? && l.t < |s.stacks| ==> Run(s, before).stacks[l.t] == [])
  }

  // ----- schedules -----

  lemma {:induction false} RunConcat(s: State, a: seq<Label>, b: seq<Label>)
    ensures Run(s, a + b) == Run(Run(s, a), b)
    ensures NoReentry(s, a) && NoReentry(Run(s, a), b) ==> NoReentry(s, a + b)
  {
    if b == [] {
      assert a + b == a;
    } else {
      var before := b[..|b| - 1];
      RunConcat(s, a, before);
      assert (a + b)[..|a + b| - 1] == a + before;
    }
  }

  /** The globals and the activation after k uninterrupted steps. */
  function Solo(g: Globals, self: nat, k: nat): (Globals, Next) {
    if k == 0 then (g, Goto(LoadOwner))
    else
      var (g', next) := Solo(g, self, k - 1);
      if next.Return? then (g', next) else (Effect(g', self, next.pc), Succ(g', self, next.pc))
  }

  /** One step of a thread whose top activation stands at a.1, or that has just returned. */
  lemma {:induction false} SoloAdvance(s: State, t: nat, a: (Globals, Next), b: (Globals, Next))
    requires t < |s.stacks| && (s.stacks[t] == [] || a.1.Goto?)
    requires b == if a.1.Return? then a else (Effect(a.0, Self(t), a.1.pc), Succ(a.0, Self(t), a.1.pc))
    ensures Step(State(a.0, s.stacks[t := Resume(a.1) + s.stacks[t]]), Advance(t))
         == State(b.0, s.stacks[t := Resume(b.1) + s.stacks[t]])
  {
    if a.1.Goto? {
      assert ([a.1.pc] + s.stacks[t])[1..] == s.stacks[t];
    }
  }

  lemma {:induction false} RunSnoc(s: State, sch: seq<Label>, l: Label)
    ensures Run(s, sch + [l]) == Step(Run(s, sch), l)
  {
    assert (sch + [l])[..|sch|] == sch;
  }

  lemma {:induction false} EntriesConcat(s: State, a: seq<Label>, b: seq<Label>)
    ensures Entries(s, a + b) == Entries(s, a) + Entries(Run(s, a), b)
  {
    if b == [] {
      assert a + b == a;
    } else {
      var before := b[..|b| - 1];
      EntriesConcat(s, a, before);
      RunConcat(s, a, before);
      assert (a + b)[..|a + b| - 1] == a + before;
    }
  }

  lemma {:induction false} EntriesSnoc(s: State, sch: seq<Label>, l: Label)
    ensures Entries(s, sch + [l]) == Entries(s, sch) + if l.Dispatch? && Effective(Run(s, sch), l) then 1 else 0
  {
    assert (sch + [l])[..|sch|] == sch;
  }

  lemma {:induction false} NoReentrySnoc(s: State, sch: seq<Label>, l: Label)
    requires NoReentry(s, sch) && (l.Dispatch? && l.t < |s.stacks| ==> Run(s, sch).stacks[l.t] == [])
    ensures NoReentry(s, sch + [l])
  {
    assert (sch + [l])[..|sch|] == sch;
  }

  /**
   Some schedule runs thread t alone for k steps of a fresh dispatch, on top of
   whatever the thread was doing, as long as the dispatch has not returned
   before its last step.
   */
  lemma {:induction false} RunsSolo(s: State, t: nat, k: nat) returns (sch: seq<Label>)
    requires t < |s.stacks| && s.g.slot
    requires s.stacks[t] == [] || k == 0 || Solo(s.g, Self(t), k - 1).1.Goto?
    ensures Run(s, sch)
         == State(Solo(s.g, Self(t), k).0, s.stacks[t := Resume(Solo(s.g, Self(t), k).1) + s.stacks[t]])
    ensures s.stacks[t] == [] ==> NoReentry(s, sch)
    ensures Entries(s, sch) == 1
  {
    if k == 0 {
      sch := [] + [Dispatch(t)];
      RunSnoc(s, [], Dispatch(t));
      EntriesSnoc(s, [], Dispatch(t));
      if s.stacks[t] == [] {
        NoReentrySnoc(s, [], Dispatch(t));
      }
    } else {
      var before := RunsSolo(s, t, k - 1);
      sch := before + [Advance(t)];
      RunSnoc(s, before, Advance(t));
      EntriesSnoc(s, before, Advance(t));
      SoloAdvance(s, t, Solo(s.g, Self(t), k - 1), Solo(s.g, Self(t), k));
      if s.stacks[t] == [] {
        NoReentrySnoc(s, before, Advance(t));
      }
    }
  }

  /** The first four steps of an activation that is not a re-entry: own, count in, compare. */
  lemma {:induction false} SoloEnters(g: Globals, self: nat)
    requires g.owner != self && g.depth + 1 < UINT_LIMIT
    ensures Solo(g, self, 4) ==
      (g.(owner := self, depth := g.depth + 1),
       Goto(if g.depth + 1 > g.maxdepth then StoreMax(g.depth + 1) else AddCount))
    ensures Solo(g, self, 3).1 == Goto(CompareMax(g.depth + 1))
  {
    assert Solo(g, self, 1) == (g, Goto(StoreOwner));
    assert Solo(g, self, 2) == (g.(owner := self), Goto(AddDepth));
    assert Solo(g, self, 3) == (g.(owner := self, depth := g.depth + 1), Goto(CompareMax(g.depth + 1)));
  }

  /** After six steps the ticket is drawn, and the slot has not been touched. */
  lemma {:induction false} SoloDraws(g: Globals, self: nat)
    requires g.owner != self && g.depth + 1 < UINT_LIMIT && g.count + 1 < UINT_LIMIT
    ensures
      var d := g.depth + 1;
      var drawn := g.(owner := self, depth := d, maxdepth := Max(g.maxdepth, d), count := g.count + 1);
      Solo(g, self, 6) ==
        (drawn, if d > g.maxdepth then Goto(TestFuse(drawn.count)) else Succ(drawn, self, TestFuse(drawn.count)))
  {
    SoloEnters(g, self);
    var d := g.depth + 1;
    if d > g.maxdepth {
      assert Solo(g, self, 5) == (g.(owner := self, depth := d, maxdepth := d), Goto(AddCount));
    } else {
      assert Solo(g, self, 5) == (g.(owner := self, depth := d, count := g.count + 1), Goto(TestFuse(g.count + 1)));
    }
  }

  /** Nine steps are a whole dispatch when the fuse does not blow. */
  lemma {:induction false} SoloReturns(g: Globals, self: nat)
    requires g.owner != self && g.depth + 1 < UINT_LIMIT && g.count + 1 < UINT_LIMIT
    requires g.fuse <= 0 || g.count + 1 < g.fuse
    ensures Solo(g, self, 9) ==
      (g.(owner := 0, maxdepth := Max(g.maxdepth, g.depth + 1), count := g.count + 1), Return)
  {
    SoloDraws(g, self);
    var drawn := Solo(g, self, 6).0;
    if g.depth + 1 > g.maxdepth {
      assert Solo(g, self, 7) == (drawn, Goto(SubDepth));
      assert Solo(g, self, 8) == (drawn.(depth := g.depth), Goto(ClearOwner));
    } else {
      assert Solo(g, self, 7) == (drawn.(depth := g.depth), Goto(ClearOwner));
      assert Solo(g, self, 8) == (drawn.(depth := g.depth, owner := 0), Return);
    }
  }
}
