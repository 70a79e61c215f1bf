/**
 How far the fuse of the lookup hook can be overshot.

 The slot stays armed while tickets are drawn, so activations that entered
 before it was cleared may still draw one.  `Exposure` bounds everything that
 ever enters the hook by the fuse and the largest number of simultaneous
 activations, re-entered ones included; `ExposureIsReached` shows that this
 cannot be improved, and `FuseIsDispatchLimit` when the fuse is the limit it is
 meant to be.  `OvershootBound`, `OvershootIsReached` and `FuseLimitsOneThread`
 say the same for a number of threads that do not re-enter.
 */
module LookupFuse {
  import opened CTypes
  import opened LookupMachine

  /** Relates the ticket counter, the activations in flight by region and the number of entries so far. */
  ghost predicate Books(g: Globals, uncounted: int, detected: int, overdrawn: int, entries: nat) {
    && g.count + uncounted <= entries
    && (g.slot ==> entries == g.count + uncounted + detected)
    && (g.slot ==> g.count <= g.fuse - 1 + overdrawn)
  }

  ghost predicate Ledger(s: State, entries: nat) {
    Books(s.g, CountAll(Uncounted, s.stacks), CountAll(Detected, s.stacks),
          CountAll(Overdrawn(s.g.fuse), s.stacks), entries)
  }

  lemma {:induction false} BooksStep(g: Globals, self: nat, pc: Pc, u: int, det: int, over: int, entries: nat)
    requires Books(g, u, det, over, entries)
    requires u >= Weight(Uncounted, pc) && over >= 0 && g.fuse > 0 && entries < UINT_LIMIT
    ensures
      var next := Succ(g, self, pc);
      Books(Effect(g, self, pc),
            u - Weight(Uncounted, pc) + NextWeight(Uncounted, next),
            det - Weight(Detected, pc) + NextWeight(Detected, next),
            over - Weight(Overdrawn(g.fuse), pc) + NextWeight(Overdrawn(g.fuse), next), entries)
  {}

  lemma {:induction false} DisjointTallies(fuse: int, stack: seq<Pc>)
    ensures CountIn(Anywhere, stack)
         >= CountIn(Uncounted, stack) + CountIn(Detected, stack) + CountIn(Overdrawn(fuse), stack)
  {
    if stack != [] {
      DisjointTallies(fuse, stack[1..]);
    }
  }

  lemma {:induction false} DisjointTalliesAll(fuse: int, stacks: seq<seq<Pc>>)
    ensures CountAll(Anywhere, stacks)
         >= CountAll(Uncounted, stacks) + CountAll(Detected, stacks) + CountAll(Overdrawn(fuse), stacks)
  {
    if stacks != [] {
      DisjointTallies(fuse, stacks[0]);
      DisjointTalliesAll(fuse, stacks[1..]);
    }
  }

  lemma {:induction false} LedgerDispatch(s: State, l: Label, entries: nat)
    requires l.Dispatch? && Effective(s, l) && Ledger(s, entries)
    ensures Ledger(Step(s, l), entries + 1)
  {
    CountStep(Uncounted, s, l);
    CountStep(Detected, s, l);
    CountStep(Overdrawn(s.g.fuse), s, l);
  }

  lemma {:induction false} LedgerAdvance(s: State, l: Label, entries: nat)
    requires l.Advance? && Effective(s, l) && Ledger(s, entries)
    requires s.g.fuse > 0 && entries < UINT_LIMIT
    ensures Ledger(Step(s, l), entries)
  {
    CountStep(Uncounted, s, l);
    CountStep(Detected, s, l);
    CountStep(Overdrawn(s.g.fuse), s, l);
    BooksStep(s.g, Self(l.t), s.stacks[l.t][0], CountAll(Uncounted, s.stacks), CountAll(Detected, s.stacks),
              CountAll(Overdrawn(s.g.fuse), s.stacks), entries);
  }

  /**
   In every interleaving of any number of threads with arbitrary re-entry, at
   most fuse - 1 + p dispatches enter the hook, where p is the largest number
   of activations alive at once.  No operator re-arms the slot.
   */
  lemma {:induction false} Exposure(s: State, sch: seq<Label>)
    requires Armed(s) && s.g.fuse > 0
    requires s.g.fuse - 1 + Peak(Anywhere, s, sch) < UINT_LIMIT
    ensures Ledger(Run(s, sch), Entries(s, sch))
    ensures Entries(s, sch) <= s.g.fuse - 1 + Peak(Anywhere, s, sch)
  {
    if sch == [] {
      CountAllZero(Uncounted, s.stacks);
      CountAllZero(Detected, s.stacks);
    } else {
      var before, l := sch[..|sch| - 1], sch[|sch| - 1];
      Exposure(s, before);
      if Effective(Run(s, before), l) {
        if l.Dispatch? {
          LedgerDispatch(Run(s, before), l, Entries(s, before));
        } else {
          LedgerAdvance(Run(s, before), l, Entries(s, before));
        }
      }
    }
    DisjointTalliesAll(s.g.fuse, Run(s, sch).stacks);
  }

  /** Without re-entry there are never more activations than threads. */
  lemma {:induction false} OneActivationPerThread(s: State, sch: seq<Label>)
    requires Quiescent(s) && NoReentry(s, sch)
    ensures forall t :: 0 <= t < |s.stacks| ==> |Run(s, sch).stacks[t]| <= 1
    ensures Peak(Anywhere, s, sch) <= |s.stacks|
  {
    if sch != [] {
      OneActivationPerThread(s, sch[..|sch| - 1]);
    }
    AtMostOneEach(Run(s, sch).stacks);
  }

  lemma {:induction false} AtMostOneEach(stacks: seq<seq<Pc>>)
    requires forall t :: 0 <= t < |stacks| ==> |stacks[t]| <= 1
    ensures CountAll(Anywhere, stacks) <= |stacks|
  {
    if stacks != [] {
      AtMostOneEach(stacks[1..]);
      assert CountIn(Anywhere, stacks[0]) <= 1 by {
        assert |stacks[0]| == 1 ==> stacks[0][1..] == [];
      }
    }
  }

  /** The overshoot bound for P threads that do not re-enter: count never passes fuse - 1 + P. */
  lemma {:induction false} OvershootBound(s: State, sch: seq<Label>)
    requires Armed(s) && s.g.fuse > 0 && NoReentry(s, sch)
    requires s.g.fuse - 1 + |s.stacks| < UINT_LIMIT
    ensures Run(s, sch).g.count <= Entries(s, sch) <= s.g.fuse - 1 + |s.stacks|
  {
    OneActivationPerThread(s, sch);
    Exposure(s, sch);
  }

  /** Once the fuse has been reached and nobody is between its ticket and its slot store, the slot is NULL. */
  lemma {:induction false} FuseBlown(s: State, sch: seq<Label>)
    requires Armed(s) && s.g.fuse > 0
    requires s.g.fuse - 1 + Peak(Anywhere, s, sch) < UINT_LIMIT
    requires Run(s, sch).g.count >= s.g.fuse
    requires CountAll(Overdrawn(s.g.fuse), Run(s, sch).stacks) == 0
    ensures !Run(s, sch).g.slot
  {
    Exposure(s, sch);
  }

  // ----- the slot is pulled for a reason, and the mask follows it -----

  /** What holds of an activation at pc while the globals are g. */
  ghost predicate Justified(g: Globals, pc: Pc) {
    match pc
    case TestFuse(n) => g.fuse > 0 ==> n <= g.count
    case ClearSlot(re) => if re then g.recursed else 0 < g.fuse <= g.count
    case _ => true
  }

  ghost predicate Accountable(s: State) {
    && (forall pc :: Alive(s, pc) ==> Justified(s.g, pc))
    && (!s.g.slot ==> s.g.recursed || 0 < s.g.fuse <= s.g.count)
  }

  lemma {:induction false} JustifiedStep(g: Globals, self: nat, moved: Pc, other: Pc)
    requires Justified(g, moved) && Justified(g, other)
    requires g.fuse > 0 ==> g.count + Weight(Uncounted, moved) < UINT_LIMIT
    ensures Justified(Effect(g, self, moved), other)
    ensures Succ(g, self, moved).Goto? ==> Justified(Effect(g, self, moved), Succ(g, self, moved).pc)
  {}

  lemma {:induction false} AccountableStep(s: State, l: Label)
    requires Effective(s, l) && Accountable(s)
    requires s.g.fuse > 0 ==> s.g.count + CountAll(Uncounted, s.stacks) < UINT_LIMIT
    ensures Accountable(Step(s, l))
  {
    CountStep(Uncounted, s, l);
    if l.Advance? {
      var top := s.stacks[l.t][0];
      assert Alive(s, top);
      forall pc | Alive(Step(s, l), pc) ensures Justified(Step(s, l).g, pc) {
        StepAlive(s, l, pc);
        JustifiedStep(s.g, Self(l.t), top, if Alive(s, pc) then pc else top);
      }
    } else {
      forall pc | Alive(Step(s, l), pc) ensures Justified(Step(s, l).g, pc) {
        StepAlive(s, l, pc);
      }
    }
  }

  lemma {:induction false} AccountableRun(s: State, sch: seq<Label>)
    requires Armed(s)
    requires s.g.fuse > 0 ==> s.g.fuse - 1 + Peak(Anywhere, s, sch) < UINT_LIMIT
    ensures Accountable(Run(s, sch))
  {
    if sch != [] {
      var before, l := sch[..|sch| - 1], sch[|sch| - 1];
      AccountableRun(s, before);
      if Effective(Run(s, before), l) {
        if s.g.fuse > 0 {
          Exposure(s, before);
        }
        AccountableStep(Run(s, before), l);
      }
    }
  }

  /** The slot is never pulled early: either re-entry was seen or the fuse was reached. */
  lemma {:induction false} SlotPulledForAReason(s: State, sch: seq<Label>)
    requires Armed(s)
    requires s.g.fuse > 0 ==> s.g.fuse - 1 + Peak(Anywhere, s, sch) < UINT_LIMIT
    ensures !Run(s, sch).g.slot ==> Run(s, sch).g.recursed || 0 < s.g.fuse <= Run(s, sch).g.count
  {
    AccountableRun(s, sch);
  }

  // ----- the mask follows the slot -----

  /** What an activation on its way to the mask has read; m is the mask the slot was armed under. */
  ghost predicate Careful(g: Globals, m: Mask, pc: Pc) {
    match pc
    case LoadMask(_) => !g.slot
    case StoreMask(_, seen) => !g.slot && (seen == m || seen == m.(lookup := false))
    case _ => true
  }

  /** What holds of the mask, given how many activations are between clearing the slot and dropping the bit. */
  ghost predicate Reported(g: Globals, m: Mask, pending: nat) {
    && (g.mask == m || g.mask == m.(lookup := false))
    && (g.slot ==> g.mask == m)
    && (!g.slot ==> g.mask == m.(lookup := false) || pending > 0)
  }

  ghost predicate MaskTracked(s: State, m: Mask) {
    && (forall pc :: Alive(s, pc) ==> Careful(s.g, m, pc))
    && Reported(s.g, m, CountAll(MaskPending, s.stacks))
  }

  lemma {:induction false} MaskStep(g: Globals, self: nat, m: Mask, moved: Pc, pending: nat)
    requires Reported(g, m, pending) && Careful(g, m, moved) && pending >= Weight(MaskPending, moved)
    ensures
      var next := Succ(g, self, moved);
      && Reported(Effect(g, self, moved), m, pending - Weight(MaskPending, moved) + NextWeight(MaskPending, next))
      && (next.Goto? ==> Careful(Effect(g, self, moved), m, next.pc))
  {}

  lemma {:induction false} MaskTrackedStep(s: State, l: Label, m: Mask)
    requires Effective(s, l) && MaskTracked(s, m)
    ensures MaskTracked(Step(s, l), m)
  {
    CountStep(MaskPending, s, l);
    if l.Advance? {
      assert Alive(s, s.stacks[l.t][0]);
      MaskStep(s.g, Self(l.t), m, s.stacks[l.t][0], CountAll(MaskPending, s.stacks));
    }
    forall pc | Alive(Step(s, l), pc) ensures Careful(Step(s, l).g, m, pc) {
      StepAlive(s, l, pc);
    }
  }

  lemma {:induction false} MaskTrackedRun(s: State, sch: seq<Label>)
    requires Armed(s)
    ensures MaskTracked(Run(s, sch), s.g.mask)
  {
    if sch != [] {
      MaskTrackedRun(s, sch[..|sch| - 1]);
      if Effective(Run(s, sch[..|sch| - 1]), sch[|sch| - 1]) {
        MaskTrackedStep(Run(s, sch[..|sch| - 1]), sch[|sch| - 1], s.g.mask);
      }
    }
  }

  /**
   Although the mask update is a plain load and store that any number of
   threads may interleave, it never disturbs another bit, never drops the bit
   while the slot is armed, and agrees with the slot once the hook is empty.
   */
  lemma {:induction false} MaskFollowsSlot(s: State, sch: seq<Label>)
    requires Armed(s)
    ensures Run(s, sch).g.mask.others == s.g.mask.others
    ensures Run(s, sch).g.slot ==> Run(s, sch).g.mask.lookup
    ensures Quiescent(Run(s, sch)) ==> Run(s, sch).g.mask.lookup == Run(s, sch).g.slot
  {
    MaskTrackedRun(s, sch);
    if Quiescent(Run(s, sch)) {
      CountAllZero(MaskPending, Run(s, sch).stacks);
    }
  }

  // ----- clearing one's own slot is safe -----

  /** How many labels of a schedule did something. */
  function Progress(s: State, sch: seq<Label>): nat {
    if sch == [] then 0
    else Progress(s, sch[..|sch| - 1]) + if Effective(Run(s, sch[..|sch| - 1]), sch[|sch| - 1]) then 1 else 0
  }

  lemma {:induction false} StepsLeftBound(stack: seq<Pc>)
    ensures CountIn(StepsLeft, stack) <= 12 * CountIn(Anywhere, stack)
    ensures CountIn(StepsLeft, stack) == 0 <==> stack == []
  {
    if stack != [] {
      StepsLeftBound(stack[1..]);
    }
  }

  lemma {:induction false} StepsLeftBoundAll(stacks: seq<seq<Pc>>)
    ensures CountAll(StepsLeft, stacks) <= 12 * CountAll(Anywhere, stacks)
    ensures CountAll(StepsLeft, stacks) == 0 <==> forall t :: 0 <= t < |stacks| ==> stacks[t] == []
  {
    if stacks != [] {
      StepsLeftBound(stacks[0]);
      StepsLeftBoundAll(stacks[1..]);
      assert stacks == [stacks[0]] + stacks[1..];
    }
  }

  lemma {:induction false} SuccShrinks(g: Globals, self: nat, pc: Pc)
    ensures NextWeight(StepsLeft, Succ(g, self, pc)) < Weight(StepsLeft, pc)
  {}

  lemma {:induction false} DrainStep(s: State, l: Label)
    requires !s.g.slot && Effective(s, l)
    ensures !Step(s, l).g.slot && l.Advance?
    ensures CountAll(StepsLeft, Step(s, l).stacks) < CountAll(StepsLeft, s.stacks)
  {
    CountStep(StepsLeft, s, l);
    SuccShrinks(s.g, Self(l.t), s.stacks[l.t][0]);
  }

  /**
   Once the slot is NULL it stays NULL and nothing enters any more.  As long as
   an activation is in flight some thread can step, and whatever the schedule
   the hook is empty after at most twelve steps per such activation.
   */
  lemma {:induction false} Drain(s: State, sch: seq<Label>)
    requires !s.g.slot
    ensures !Run(s, sch).g.slot
    ensures Entries(s, sch) == 0
    ensures Progress(s, sch) + CountAll(StepsLeft, Run(s, sch).stacks) <= 12 * CountAll(Anywhere, s.stacks)
    ensures CountAll(StepsLeft, Run(s, sch).stacks) == 0 <==> Quiescent(Run(s, sch))
    ensures Quiescent(Run(s, sch)) || exists t :: Effective(Run(s, sch), Advance(t))
    ensures Progress(s, sch) == 12 * CountAll(Anywhere, s.stacks) ==> Quiescent(Run(s, sch))
  {
    DrainFrom(s, sch);
    StepsLeftBoundAll(s.stacks);
    StepsLeftBoundAll(Run(s, sch).stacks);
    if !Quiescent(Run(s, sch)) {
      var t :| 0 <= t < |s.stacks| && Run(s, sch).stacks[t] != [];
      assert Effective(Run(s, sch), Advance(t));
    }
  }

  lemma {:induction false} DrainFrom(s: State, sch: seq<Label>)
    requires !s.g.slot
    ensures !Run(s, sch).g.slot && Entries(s, sch) == 0
    ensures Progress(s, sch) + CountAll(StepsLeft, Run(s, sch).stacks) <= CountAll(StepsLeft, s.stacks)
  {
    if sch != [] {
      var before, l := sch[..|sch| - 1], sch[|sch| - 1];
      DrainFrom(s, before);
      if Effective(Run(s, before), l) {
        DrainStep(Run(s, before), l);
      }
    }
  }

  // ----- the bounds are reached -----

  /** A schedule never has more activations alive than it found and let in. */
  lemma {:induction false} PeakByEntries(s: State, sch: seq<Label>)
    ensures Peak(Anywhere, s, sch) <= CountAll(Anywhere, s.stacks) + Entries(s, sch)
  {
    if sch != [] {
      var before, l := sch[..|sch| - 1], sch[|sch| - 1];
      PeakByEntries(s, before);
      if Effective(Run(s, before), l) {
        CountStep(Anywhere, Run(s, before), l);
      }
    }
  }

  lemma {:induction false} PeakConcat(r: Tally, s: State, a: seq<Label>, b: seq<Label>)
    ensures Peak(r, s, a + b) <= Max(Peak(r, s, a), Peak(r, Run(s, a), b))
  {
    if b == [] {
      assert a + b == a;
    } else {
      PeakConcat(r, s, a, b[..|b| - 1]);
      RunConcat(s, a, b);
      assert (a + b)[..|a + b| - 1] == a + b[..|b| - 1];
    }
  }

  /** The first i threads have drawn a ticket and not cleared the slot; the others have not entered. */
  ghost predicate Crowded(s: State, i: nat) {
    && i <= |s.stacks| && s.g.slot && s.g.owner <= i && s.g.depth == i
    && (forall t :: i <= t < |s.stacks| ==> s.stacks[t] == [])
  }

  /** One whole dispatch on an idle machine draws one ticket and leaves it idle, as long as the fuse is not reached. */
  lemma {:induction false} OneDispatch(s: State, t: nat) returns (sch: seq<Label>)
    requires t < |s.stacks| && Quiescent(s) && Crowded(s, 0) && s.g.owner == 0
    requires s.g.count + 1 < s.g.fuse && s.g.count + 1 < UINT_LIMIT
    ensures NoReentry(s, sch) && Entries(s, sch) == 1
    ensures var r := Run(s, sch);
      Quiescent(r) && Crowded(r, 0) && r.g.owner == 0 && r.g.count == s.g.count + 1
  {
    SoloReturns(s.g, Self(t));
    sch := RunsSolo(s, t, 9);
    assert [] + s.stacks[t] == s.stacks[t];
  }

  /** Another thread enters and draws its ticket while the slot is still armed. */
  lemma {:induction false} OneMore(s: State, i: nat) returns (sch: seq<Label>)
    requires Crowded(s, i) && i < |s.stacks| && i + 1 < UINT_LIMIT
    requires s.g.count + 1 < UINT_LIMIT
    ensures NoReentry(s, sch) && Entries(s, sch) == 1
    ensures Crowded(Run(s, sch), i + 1)
    ensures Run(s, sch).g.count == s.g.count + 1
  {
    SoloDraws(s.g, Self(i));
    sch := RunsSolo(s, i, 6);
  }

  lemma {:induction false} Repeat(s: State, n: nat) returns (sch: seq<Label>)
    requires Quiescent(s) && Crowded(s, 0) && s.g.owner == 0 && |s.stacks| > 0
    requires s.g.count + n < s.g.fuse && s.g.count + n < UINT_LIMIT
    ensures NoReentry(s, sch) && Entries(s, sch) == n
    ensures Peak(Anywhere, s, sch) <= 1
    ensures var r := Run(s, sch); Quiescent(r) && Crowded(r, 0) && r.g.owner == 0 && r.g.count == s.g.count + n
  {
    sch := [];
    if n > 0 {
      var before := Repeat(s, n - 1);
      var last := OneDispatch(Run(s, before), 0);
      RunConcat(s, before, last);
      EntriesConcat(s, before, last);
      CountAllZero(Anywhere, Run(s, before).stacks);
      PeakByEntries(Run(s, before), last);
      PeakConcat(Anywhere, s, before, last);
      sch := before + last;
    } else {
      CountAllZero(Anywhere, s.stacks);
    }
  }

  lemma {:induction false} Crowd(s: State, i: nat) returns (sch: seq<Label>)
    requires Crowded(s, 0) && i <= |s.stacks| && i < UINT_LIMIT
    requires s.g.count + i < UINT_LIMIT
    ensures NoReentry(s, sch) && Entries(s, sch) == i
    ensures Crowded(Run(s, sch), i) && Run(s, sch).g.count == s.g.count + i
  {
    sch := [];
    if i > 0 {
      var before := Crowd(s, i - 1);
      var last := OneMore(Run(s, before), i - 1);
      RunConcat(s, before, last);
      EntriesConcat(s, before, last);
      sch := before + last;
    }
  }

  /**
   The overshoot bound is exact: for every fuse and every number of threads
   some interleaving without re-entry draws fuse - 1 + P tickets.  In
   particular a fuse of 1 does not limit the hook to one dispatch.
   */
  lemma {:induction false} OvershootIsReached(s: State) returns (sch: seq<Label>)
    requires Armed(s) && s.g.fuse > 0 && |s.stacks| > 0
    requires s.g.fuse - 1 + |s.stacks| < UINT_LIMIT
    ensures NoReentry(s, sch)
    ensures Run(s, sch).g.count == Entries(s, sch) == s.g.fuse - 1 + |s.stacks|
  {
    var warm := Repeat(s, s.g.fuse - 1);
    var crowd := Crowd(Run(s, warm), |s.stacks|);
    RunConcat(s, warm, crowd);
    EntriesConcat(s, warm, crowd);
    sch := warm + crowd;
  }

  /** Dispatches that arrive one after the other on thread 0, each before the one below it has moved. */
  lemma {:induction false} Pile(s: State, n: nat) returns (sch: seq<Label>)
    requires s.g.slot && |s.stacks| > 0
    ensures Run(s, sch).g == s.g && Entries(s, sch) == n
  {
    sch := [];
    if n > 0 {
      var before := Pile(s, n - 1);
      sch := before + [Dispatch(0)];
      RunSnoc(s, before, Dispatch(0));
      EntriesSnoc(s, before, Dispatch(0));
    }
  }

  /**
   The bound of Exposure is exact: for every fuse and every p some interleaving
   with at most p activations alive at once lets fuse - 1 + p dispatches in.
   One re-entered thread is enough.
   */
  lemma {:induction false} ExposureIsReached(s: State, p: nat) returns (sch: seq<Label>)
    requires Armed(s) && s.g.fuse > 0 && |s.stacks| > 0 && p > 0
    ensures Peak(Anywhere, s, sch) <= p
    ensures Entries(s, sch) == s.g.fuse - 1 + p
  {
    var warm := Repeat(s, s.g.fuse - 1);
    var pile := Pile(Run(s, warm), p);
    RunConcat(s, warm, pile);
    EntriesConcat(s, warm, pile);
    CountAllZero(Anywhere, Run(s, warm).stacks);
    PeakByEntries(Run(s, warm), pile);
    PeakConcat(Anywhere, s, warm, pile);
    sch := warm + pile;
  }

  /**
   A positive fuse limits the hook to that many dispatches, as its comment
   promises, if and only if there is never more than one activation at once,
   re-entered ones included.
   */
  lemma {:induction false} FuseIsDispatchLimit(s: State, p: nat)
    requires Armed(s) && s.g.fuse > 0 && |s.stacks| > 0
    ensures (forall sch :: Peak(Anywhere, s, sch) <= p ==> Entries(s, sch) <= s.g.fuse) <==> p <= 1
  {
    if p <= 1 {
      forall sch | Peak(Anywhere, s, sch) <= p ensures Entries(s, sch) <= s.g.fuse {
        Exposure(s, sch);
      }
    } else {
      var sch := ExposureIsReached(s, 2);
      assert Peak(Anywhere, s, sch) <= p && Entries(s, sch) > s.g.fuse;
    }
  }

  /** For threads that do not re-enter: if and only if there is at most one of them. */
  lemma {:induction false} FuseLimitsOneThread(s: State)
    requires Armed(s) && s.g.fuse > 0
    ensures (forall sch :: NoReentry(s, sch) ==> Entries(s, sch) <= s.g.fuse) <==> |s.stacks| <= 1
  {
    if |s.stacks| <= 1 {
      forall sch | NoReentry(s, sch) ensures Entries(s, sch) <= s.g.fuse {
        OvershootBound(s, sch);
      }
    } else {
      var warm := Repeat(s, s.g.fuse - 1);
      var crowd := Crowd(Run(s, warm), 2);
      RunConcat(s, warm, crowd);
      EntriesConcat(s, warm, crowd);
      assert NoReentry(s, warm + crowd) && Entries(s, warm + crowd) > s.g.fuse;
    }
  }
}
