/**
 What `depth` and `maxdepth` of the lookup hook mean.

 `depth` is exact in every interleaving.  `maxdepth` is updated by an
 unsynchronised compare-then-store: it never exceeds the true peak
 (MaxDepthSound), and a lagging store can lower it (MaxDepthLost).  It ends at
 the peak exactly when the peak was stored while no smaller store was pending
 (MaxDepthIsPeak), and is right throughout exactly when no store overtakes a
 smaller one (MaxDepthExact).
 */
module LookupDepth {
  import opened CTypes
  import opened LookupMachine
  import opened LookupReentry

  /** What an unsigned int shows of n. */
  function LowWord(n: nat): nat {
    if n < UINT_LIMIT then n else LowWord(n - UINT_LIMIT)
  }

  lemma {:induction false} LowWordInc(n: nat)
    ensures LowWord(n + 1) == Inc(LowWord(n)) && LowWord(n) < UINT_LIMIT
    ensures Dec(LowWord(n + 1)) == LowWord(n)
  {
    if n >= UINT_LIMIT {
      LowWordInc(n - UINT_LIMIT);
    }
  }

  lemma {:induction false} LowWordIsMod(n: nat)
    ensures LowWord(n) == n % 0x1_0000_0000
  {
    if n >= UINT_LIMIT {
      LowWordIsMod(n - UINT_LIMIT);
    }
  }

  /** `depth` counts the activations between the add and the sub, in the width of an unsigned int. */
  lemma {:induction false} DepthExact(s: State, sch: seq<Label>)
    requires Armed(s)
    ensures Run(s, sch).g.depth == LowWord(CountAll(Deep, Run(s, sch).stacks))
    ensures Quiescent(Run(s, sch)) ==> Run(s, sch).g.depth == 0
  {
    if sch == [] {
      CountAllZero(Deep, s.stacks);
    } else {
      var before, l := sch[..|sch| - 1], sch[|sch| - 1];
      DepthExact(s, before);
      if Effective(Run(s, before), l) {
        DepthStep(Run(s, before), l);
      }
    }
    if Quiescent(Run(s, sch)) {
      CountAllZero(Deep, Run(s, sch).stacks);
    }
  }

  lemma {:induction false} DepthStep(s: State, l: Label)
    requires Effective(s, l) && s.g.depth == LowWord(CountAll(Deep, s.stacks))
    ensures Step(s, l).g.depth == LowWord(CountAll(Deep, Step(s, l).stacks))
  {
    CountStep(Deep, s, l);
    if l.Advance? {
      DepthMove(s.g, Self(l.t), s.stacks[l.t][0], CountAll(Deep, s.stacks));
    }
  }

  lemma {:induction false} DepthMove(g: Globals, self: nat, pc: Pc, deep: nat)
    requires g.depth == LowWord(deep) && deep >= Weight(Deep, pc)
    ensures Effect(g, self, pc).depth == LowWord(deep + NextWeight(Deep, Succ(g, self, pc)) - Weight(Deep, pc))
  {
    LowWordInc(deep);
    if pc.SubDepth? {
      LowWordInc(deep - 1);
    }
  }

  // ----- what the two-step update records -----

  /** The depth whose compare-and-store completes with this step, 0 if none does. */
  function Settles(s: State, l: Label): nat {
    if !Effective(s, l) || l.Dispatch? then 0
    else
      match s.stacks[l.t][0]
      case CompareMax(d) => if d > s.g.maxdepth then 0 else d
      case StoreMax(d) => d
      case _ => 0
  }

  /** The largest depth whose compare-and-store has completed in the run. */
  function Recorded(s: State, sch: seq<Label>): nat {
    if sch == [] then 0
    else Max(Recorded(s, sch[..|sch| - 1]), Settles(Run(s, sch[..|sch| - 1]), sch[|sch| - 1]))
  }

  /** The depth an activation holds and has not settled yet. */
  function Held(pc: Pc): nat {
    match pc
    case CompareMax(d) => d
    case StoreMax(d) => d
    case _ => 0
  }

  ghost predicate Bounded(s: State, peak: nat) {
    s.g.maxdepth <= peak && forall pc :: Alive(s, pc) ==> Held(pc) <= peak
  }

  lemma {:induction false} BoundedStep(s: State, l: Label, peak: nat)
    requires Effective(s, l) && Bounded(s, peak)
    requires s.g.depth == LowWord(CountAll(Deep, s.stacks))
    ensures Bounded(Step(s, l), Max(peak, CountAll(Deep, Step(s, l).stacks)))
    ensures Settles(s, l) <= peak
  {
    CountStep(Deep, s, l);
    if l.Advance? {
      assert Alive(s, s.stacks[l.t][0]);
    }
    forall pc | Alive(Step(s, l), pc) ensures Held(pc) <= Max(peak, CountAll(Deep, Step(s, l).stacks)) {
      StepAlive(s, l, pc);
    }
  }

  /** In every interleaving, however stores overtake each other, maxdepth never exceeds the true peak. */
  lemma {:induction false} MaxDepthSound(s: State, sch: seq<Label>)
    requires Armed(s)
    ensures Bounded(Run(s, sch), Peak(Deep, s, sch))
    ensures Recorded(s, sch) <= Peak(Deep, s, sch)
  {
    if sch != [] {
      var before, l := sch[..|sch| - 1], sch[|sch| - 1];
      MaxDepthSound(s, before);
      DepthExact(s, before);
      if Effective(Run(s, before), l) {
        BoundedStep(Run(s, before), l, Peak(Deep, s, before));
      }
    }
  }

  /** The peak is recorded, or an activation still holds it. */
  ghost predicate Tracked(s: State, recorded: nat, peak: nat) {
    recorded == peak || exists pc :: Alive(s, pc) && Held(pc) == peak
  }

  lemma {:induction false} TrackedStep(s: State, l: Label, recorded: nat, peak: nat)
    requires Effective(s, l) && Tracked(s, recorded, peak) && Bounded(s, peak) && recorded <= peak
    requires s.g.depth == LowWord(CountAll(Deep, s.stacks)) && CountAll(Deep, s.stacks) <= peak
    requires CountAll(Deep, Step(s, l).stacks) < UINT_LIMIT
    ensures Tracked(Step(s, l), Max(recorded, Settles(s, l)), Max(peak, CountAll(Deep, Step(s, l).stacks)))
  {
    CountStep(Deep, s, l);
    BoundedStep(s, l, peak);
    if CountAll(Deep, Step(s, l).stacks) > peak {
      NewPeakIsHeld(s, l, peak);
    } else if recorded != peak {
      var pc :| Alive(s, pc) && Held(pc) == peak;
      AliveStays(s, l, pc);
    }
  }

  /** The step that makes a new peak holds it. */
  lemma {:induction false} NewPeakIsHeld(s: State, l: Label, peak: nat)
    requires Effective(s, l) && s.g.depth == LowWord(CountAll(Deep, s.stacks))
    requires CountAll(Deep, s.stacks) <= peak < CountAll(Deep, Step(s, l).stacks) < UINT_LIMIT
    ensures exists pc :: Alive(Step(s, l), pc) && Held(pc) == CountAll(Deep, Step(s, l).stacks)
  {
    CountStep(Deep, s, l);
    AliveStays(s, l, Arrival(s, l).pc);
    assert Held(Arrival(s, l).pc) == CountAll(Deep, Step(s, l).stacks);
  }

  lemma {:induction false} TrackedRun(s: State, sch: seq<Label>)
    requires Armed(s) && Peak(Deep, s, sch) < UINT_LIMIT
    ensures Tracked(Run(s, sch), Recorded(s, sch), Peak(Deep, s, sch))
  {
    if sch == [] {
      CountAllZero(Deep, s.stacks);
    } else {
      var before, l := sch[..|sch| - 1], sch[|sch| - 1];
      TrackedRun(s, before);
      MaxDepthSound(s, before);
      DepthExact(s, before);
      if Effective(Run(s, before), l) {
        TrackedStep(Run(s, before), l, Recorded(s, before), Peak(Deep, s, before));
      }
    }
  }

  /** With no update under way, what has been recorded is the true peak, in every interleaving. */
  lemma {:induction false} RecordedIsPeak(s: State, sch: seq<Label>)
    requires Armed(s) && Peak(Deep, s, sch) < UINT_LIMIT
    requires CountAll(Recording, Run(s, sch).stacks) == 0
    ensures Recorded(s, sch) == Peak(Deep, s, sch)
  {
    TrackedRun(s, sch);
    MaxDepthSound(s, sch);
    if Recorded(s, sch) < Peak(Deep, s, sch) {
      var pc :| Alive(Run(s, sch), pc) && Held(pc) == Peak(Deep, s, sch);
      AliveCounts(Recording, Run(s, sch), pc);
    }
  }

  // ----- when maxdepth is the peak -----

  /** No activation is about to store a depth below d. */
  ghost predicate Unchallenged(s: State, d: nat) {
    forall pc :: Alive(s, pc) && pc.StoreMax? ==> pc.d >= d
  }

  /** This step stores d. */
  predicate Stores(s: State, l: Label, d: nat) {
    Effective(s, l) && l.Advance? && s.stacks[l.t][0] == StoreMax(d)
  }

  /** Step i of the run stores d and leaves no smaller store pending. */
  ghost predicate StoredForGood(s: State, sch: seq<Label>, i: nat, d: nat) {
    && i < |sch|
    && Stores(Run(s, sch[..i]), sch[i], d)
    && Unchallenged(Step(Run(s, sch[..i]), sch[i]), d)
  }

  ghost predicate Secured(s: State, sch: seq<Label>, d: nat) {
    exists i: nat :: StoredForGood(s, sch, i, d)
  }

  /** Only a store of d, or a state where d is in the register already, leads to a state where d is unchallenged. */
  lemma {:induction false} UnchallengedBefore(s: State, l: Label, d: nat)
    requires Step(s, l).g.maxdepth == d && Unchallenged(Step(s, l), d)
    ensures Stores(s, l, d) || (s.g.maxdepth == d && Unchallenged(s, d))
  {
    if Effective(s, l) && !Stores(s, l, d) {
      forall pc | Alive(s, pc) && pc.StoreMax? ensures pc.d >= d {
        AliveStays(s, l, pc);
      }
    }
  }

  /** A value in the register that nothing smaller can overwrite was stored for good. */
  lemma {:induction false} WasSecured(s: State, sch: seq<Label>, d: nat)
    requires s.g.maxdepth != d
    requires Run(s, sch).g.maxdepth == d && Unchallenged(Run(s, sch), d)
    ensures Secured(s, sch, d)
  {
    var i := |sch| - 1;
    var before := sch[..i];
    UnchallengedBefore(Run(s, before), sch[i], d);
    if Stores(Run(s, before), sch[i], d) {
      assert StoredForGood(s, sch, i, d);
    } else {
      WasSecured(s, before, d);
      SecuredLater(s, before, sch[i], d);
      assert before + [sch[i]] == sch;
    }
  }

  lemma {:induction false} SecuredLater(s: State, before: seq<Label>, l: Label, d: nat)
    requires Secured(s, before, d)
    ensures Secured(s, before + [l], d)
  {
    var i: nat :| StoredForGood(s, before, i, d);
    assert (before + [l])[..i] == before[..i];
    assert StoredForGood(s, before + [l], i, d);
  }

  /** With the peak in the register and no smaller store pending, no step makes one pending. */
  lemma {:induction false} UnchallengedAfter(s: State, l: Label, d: nat)
    requires s.g.maxdepth == d && Unchallenged(s, d) && Bounded(s, d)
    ensures Step(s, l).g.maxdepth == d && Unchallenged(Step(s, l), d)
  {
    if Effective(s, l) {
      if l.Advance? {
        assert Alive(s, s.stacks[l.t][0]);
      }
      forall pc | Alive(Step(s, l), pc) && pc.StoreMax? ensures pc.d >= d {
        StepAlive(s, l, pc);
      }
    }
  }

  /** A peak that was stored for good stays in the register. */
  lemma {:induction false} SecuredStays(s: State, sch: seq<Label>, i: nat)
    requires Armed(s) && StoredForGood(s, sch, i, Peak(Deep, s, sch))
    ensures Run(s, sch).g.maxdepth == Peak(Deep, s, sch)
    ensures Unchallenged(Run(s, sch), Peak(Deep, s, sch))
  {
    var d := Peak(Deep, s, sch);
    var before := sch[..|sch| - 1];
    if i < |sch| - 1 {
      assert before[..i] == sch[..i];
      PeakStored(s, before, i, d);
      SecuredStays(s, before, i);
      MaxDepthSound(s, before);
      UnchallengedAfter(Run(s, before), sch[|sch| - 1], d);
    }
  }

  /** A depth that was stored is no more than the peak. */
  lemma {:induction false} PeakStored(s: State, sch: seq<Label>, i: nat, d: nat)
    requires Armed(s) && i < |sch| && Stores(Run(s, sch[..i]), sch[i], d)
    ensures Peak(Deep, s, sch) >= d
  {
    var before := sch[..|sch| - 1];
    if i < |sch| - 1 {
      assert before[..i] == sch[..i];
      PeakStored(s, before, i, d);
    } else {
      MaxDepthSound(s, before);
      assert Alive(Run(s, before), StoreMax(d));
    }
  }

  /** What is in the register unchallenged was stored for good, and the peak stored for good stays there. */
  lemma {:induction false} PeakSecured(s: State, sch: seq<Label>, peak: nat)
    requires Armed(s) && peak == Peak(Deep, s, sch) && peak > 0
    ensures Run(s, sch).g.maxdepth == peak && Unchallenged(Run(s, sch), peak) <==> Secured(s, sch, peak)
  {
    if Secured(s, sch, peak) {
      var i: nat :| StoredForGood(s, sch, i, peak);
      SecuredStays(s, sch, i);
    } else if Run(s, sch).g.maxdepth == peak && Unchallenged(Run(s, sch), peak) {
      WasSecured(s, sch, peak);
    }
  }

  lemma {:induction false} NoneRecording(s: State, d: nat)
    requires CountAll(Recording, s.stacks) == 0
    ensures Unchallenged(s, d)
  {
    if !Unchallenged(s, d) {
      var pc :| Alive(s, pc) && pc.StoreMax? && pc.d < d;
      AliveCounts(Recording, s, pc);
    }
  }

  /**
   When the register shows the peak.  A run with a positive peak ends with the
   peak in maxdepth and no smaller store pending if and only if some step
   stored the peak while no smaller store was pending.  So once every update is
   complete, that is what decides whether maxdepth is the peak.
   */
  lemma {:induction false} MaxDepthIsPeak(s: State, sch: seq<Label>, peak: nat)
    requires Armed(s) && peak == Peak(Deep, s, sch)
    ensures peak == 0 ==> Run(s, sch).g.maxdepth == 0
    ensures peak > 0 ==> (Run(s, sch).g.maxdepth == peak && Unchallenged(Run(s, sch), peak) <==> Secured(s, sch, peak))
    ensures peak > 0 && CountAll(Recording, Run(s, sch).stacks) == 0 ==>
      (Run(s, sch).g.maxdepth == peak <==> Secured(s, sch, peak))
  {
    MaxDepthSound(s, sch);
    if peak > 0 {
      PeakSecured(s, sch, peak);
    }
    if CountAll(Recording, Run(s, sch).stacks) == 0 {
      NoneRecording(Run(s, sch), peak);
    }
  }

  // ----- when maxdepth is right throughout a run -----

  /** This step stores a depth below the maxdepth it overwrites. */
  predicate Lowers(s: State, l: Label) {
    && Effective(s, l) && l.Advance?
    && s.stacks[l.t][0].StoreMax? && s.stacks[l.t][0].d < s.g.maxdepth
  }

  predicate NoLoweringStore(s: State, sch: seq<Label>) {
    sch == [] || (NoLoweringStore(s, sch[..|sch| - 1]) && !Lowers(Run(s, sch[..|sch| - 1]), sch[|sch| - 1]))
  }

  /** In every state of the run maxdepth is the largest depth recorded so far. */
  predicate AccurateThroughout(s: State, sch: seq<Label>) {
    && Run(s, sch).g.maxdepth == Recorded(s, sch)
    && (sch == [] || AccurateThroughout(s, sch[..|sch| - 1]))
  }

  /** This step stores a depth while a smaller one is still to be stored. */
  ghost predicate Overtakes(s: State, l: Label) {
    && Effective(s, l) && l.Advance? && s.stacks[l.t][0].StoreMax?
    && !Unchallenged(s, s.stacks[l.t][0].d)
  }

  ghost predicate NoOvertaking(s: State, sch: seq<Label>) {
    sch == [] || (NoOvertaking(s, sch[..|sch| - 1]) && !Overtakes(Run(s, sch[..|sch| - 1]), sch[|sch| - 1]))
  }

  lemma {:induction false} AccurateIffNeverLowered(s: State, sch: seq<Label>)
    requires Armed(s)
    ensures AccurateThroughout(s, sch) <==> NoLoweringStore(s, sch)
  {
    if sch != [] {
      var before, l := sch[..|sch| - 1], sch[|sch| - 1];
      AccurateIffNeverLowered(s, before);
      if Run(s, before).g.maxdepth == Recorded(s, before) {
        AccurateStep(Run(s, before), l);
      }
    }
  }

  /** A step keeps an accurate maxdepth accurate if and only if it does not lower it. */
  lemma {:induction false} AccurateStep(s: State, l: Label)
    ensures Step(s, l).g.maxdepth == Max(s.g.maxdepth, Settles(s, l)) <==> !Lowers(s, l)
  {}

  /** No lowering store and no update under way make maxdepth the peak. */
  lemma {:induction false} NeverLoweredIsPeak(s: State, sch: seq<Label>)
    requires Armed(s) && Peak(Deep, s, sch) < UINT_LIMIT
    requires NoLoweringStore(s, sch) && CountAll(Recording, Run(s, sch).stacks) == 0
    ensures Run(s, sch).g.maxdepth == Peak(Deep, s, sch)
  {
    AccurateIffNeverLowered(s, sch);
    RecordedIsPeak(s, sch);
  }

  lemma {:induction false} OrderedStep(s: State, l: Label)
    requires Unchallenged(s, s.g.maxdepth) && !Overtakes(s, l)
    ensures !Lowers(s, l) && Unchallenged(Step(s, l), Step(s, l).g.maxdepth)
  {
    if Effective(s, l) {
      if l.Advance? {
        assert Alive(s, s.stacks[l.t][0]);
      }
      forall pc | Alive(Step(s, l), pc) && pc.StoreMax? ensures pc.d >= Step(s, l).g.maxdepth {
        StepAlive(s, l, pc);
      }
    }
  }

  /** Stores that do not overtake a smaller one never lower maxdepth. */
  lemma {:induction false} OrderedStoresNeverLower(s: State, sch: seq<Label>)
    requires Armed(s) && NoOvertaking(s, sch)
    ensures NoLoweringStore(s, sch)
    ensures Unchallenged(Run(s, sch), Run(s, sch).g.maxdepth)
  {
    if sch != [] {
      var before, l := sch[..|sch| - 1], sch[|sch| - 1];
      var r := Run(s, before);
      OrderedStoresNeverLower(s, before);
      OrderedStep(r, l);
    }
  }

  /** A store that was overtaken lowers maxdepth, or is still to come. */
  lemma {:induction false} OvertakenStoreLowers(s: State, sch: seq<Label>)
    requires Armed(s) && NoLoweringStore(s, sch) && !NoOvertaking(s, sch)
    ensures !Unchallenged(Run(s, sch), Run(s, sch).g.maxdepth)
  {
    var before, l := sch[..|sch| - 1], sch[|sch| - 1];
    var r := Run(s, before);
    if NoOvertaking(s, before) {
      assert Overtakes(r, l);
      var pc :| Alive(r, pc) && pc.StoreMax? && pc.d < r.stacks[l.t][0].d;
      AliveStays(r, l, pc);
    } else {
      OvertakenStoreLowers(s, before);
      var pc :| Alive(r, pc) && pc.StoreMax? && pc.d < r.g.maxdepth;
      if Effective(r, l) {
        AliveStays(r, l, pc);
      }
    }
  }

  /**
   When maxdepth is right throughout.  In every state of a run maxdepth is the
   largest depth recorded, and no smaller store is left pending at the end, if
   and only if no store of the run overtakes a smaller one.
   */
  lemma {:induction false} MaxDepthExact(s: State, sch: seq<Label>)
    requires Armed(s)
    ensures
      var r := Run(s, sch);
      && (AccurateThroughout(s, sch) && Unchallenged(r, r.g.maxdepth) <==> NoOvertaking(s, sch))
      && (CountAll(Recording, r.stacks) == 0 ==> (AccurateThroughout(s, sch) <==> NoOvertaking(s, sch)))
  {
    AccurateIffNeverLowered(s, sch);
    if NoOvertaking(s, sch) {
      OrderedStoresNeverLower(s, sch);
    } else if NoLoweringStore(s, sch) {
      OvertakenStoreLowers(s, sch);
    }
    if CountAll(Recording, Run(s, sch).stacks) == 0 {
      NoneRecording(Run(s, sch), Run(s, sch).g.maxdepth);
    }
  }

  /** Every store follows its compare at once: nothing else is scheduled in between. */
  predicate UpdatesAreAtomic(s: State, sch: seq<Label>) {
    sch == [] ||
    var before := sch[..|sch| - 1];
    var r := Run(s, before);
    && UpdatesAreAtomic(s, before)
    && forall t, k :: 0 <= t < |r.stacks| && 0 <= k < |r.stacks[t]| && r.stacks[t][k].StoreMax? ==>
         sch[|sch| - 1] == Advance(t) && k == 0
  }

  /** Uninterleaved stores overtake nothing, so with no update under way maxdepth is the peak. */
  lemma {:induction false} AtomicUpdatesNeverLower(s: State, sch: seq<Label>)
    requires Armed(s) && UpdatesAreAtomic(s, sch)
    ensures NoOvertaking(s, sch) && NoLoweringStore(s, sch)
    ensures CountAll(Recording, Run(s, sch).stacks) == 0 && Peak(Deep, s, sch) < UINT_LIMIT ==>
      Run(s, sch).g.maxdepth == Peak(Deep, s, sch)
  {
    if sch != [] {
      AtomicUpdatesNeverLower(s, sch[..|sch| - 1]);
    }
    OrderedStoresNeverLower(s, sch);
    if CountAll(Recording, Run(s, sch).stacks) == 0 && Peak(Deep, s, sch) < UINT_LIMIT {
      NeverLoweredIsPeak(s, sch);
    }
  }

  /** The first activation of a thread, stopped just before it stores maxdepth. */
  lemma {:induction false} ReachesStore(s: State, t: nat) returns (sch: seq<Label>)
    requires t < |s.stacks| && s.g.slot && s.stacks[t] == []
    requires s.g.owner != Self(t) && s.g.maxdepth <= s.g.depth && s.g.depth + 1 < UINT_LIMIT
    ensures Run(s, sch)
         == State(s.g.(owner := Self(t), depth := s.g.depth + 1), s.stacks[t := [StoreMax(s.g.depth + 1)]])
  {
    SoloEnters(s.g, Self(t));
    sch := RunsSolo(s, t, 4);
    assert [StoreMax(s.g.depth + 1)] + [] == [StoreMax(s.g.depth + 1)];
  }

  /** Two stores under way, the later one first: the earlier one overwrites it. */
  lemma {:induction false} Overtaken(s: State) returns (sch: seq<Label>)
    requires |s.stacks| >= 2 && s.stacks[0] == [StoreMax(1)] && s.stacks[1] == [StoreMax(2)]
    ensures Run(s, sch) == State(s.g.(maxdepth := 1), s.stacks[0 := [AddCount]][1 := [AddCount]])
  {
    var s1 := Step(s, Advance(1));
    assert s1 == State(s.g.(maxdepth := 2), s.stacks[1 := [AddCount]]) by {
      assert [AddCount] + s.stacks[1][1..] == [AddCount];
    }
    assert Step(s1, Advance(0)) == State(s.g.(maxdepth := 1), s.stacks[0 := [AddCount]][1 := [AddCount]]) by {
      assert [AddCount] + s1.stacks[0][1..] == [AddCount];
      assert s.stacks[1 := [AddCount]][0 := [AddCount]] == s.stacks[0 := [AddCount]][1 := [AddCount]];
    }
    sch := [Advance(1)] + [Advance(0)];
    RunSnoc(s, [], Advance(1));
    assert [] + [Advance(1)] == [Advance(1)];
    RunSnoc(s, [Advance(1)], Advance(0));
  }

  /** Two threads in the hook, each about to store the depth it has seen. */
  lemma {:induction false} ReachBothStores(s: State) returns (sch: seq<Label>)
    requires Armed(s) && |s.stacks| >= 2
    ensures Run(s, sch).g.depth == 2
    ensures Run(s, sch).stacks == s.stacks[0 := [StoreMax(1)]][1 := [StoreMax(2)]]
  {
    var first := ReachesStore(s, 0);
    var second := ReachesStore(Run(s, first), 1);
    RunConcat(s, first, second);
    sch := first + second;
  }

  lemma {:induction false} PeakShown(s: State, sch: seq<Label>)
    requires Armed(s)
    ensures Run(s, sch).g.depth <= Peak(Deep, s, sch)
  {
    DepthExact(s, sch);
    LowWordBelow(CountAll(Deep, Run(s, sch).stacks));
  }

  lemma {:induction false} LowWordBelow(n: nat)
    ensures LowWord(n) <= n
  {
    if n >= UINT_LIMIT {
      LowWordBelow(n - UINT_LIMIT);
    }
  }

  /** The lost update: two threads were in the hook at once, every update is complete, and maxdepth reads 1. */
  lemma {:induction false} MaxDepthLost(s: State) returns (sch: seq<Label>)
    requires Armed(s) && |s.stacks| >= 2
    ensures Peak(Deep, s, sch) >= 2 && Run(s, sch).g.maxdepth == 1
    ensures forall t :: 0 <= t < |s.stacks| ==> Run(s, sch).stacks[t] == if t < 2 then [AddCount] else []
  {
    var both := ReachBothStores(s);
    var last := Overtaken(Run(s, both));
    RunConcat(s, both, last);
    sch := both + last;
    PeakShown(s, sch);
  }

  /**
   A thread on its own never makes `depth` or `maxdepth` exceed 1, whatever it
   is re-entered by: a maxdepth above 1 is evidence of a second thread.
   */
  lemma {:induction false} SoloDepth(s: State, sch: seq<Label>, t: nat)
    requires Armed(s) && OnlyThread(s, sch, t) && t < |s.stacks|
    ensures Run(s, sch).g.depth <= 1 && Run(s, sch).g.maxdepth <= 1
  {
    SoloPeak(s, sch, t);
    DepthExact(s, sch);
    MaxDepthSound(s, sch);
    assert CountAll(Deep, Run(s, sch).stacks) <= 1;
  }

  /** No schedule takes `depth` past 1 if and only if there is at most one thread. */
  lemma {:induction false} DeepNeedsTwoThreads(s: State)
    requires Armed(s)
    ensures (forall sch :: Run(s, sch).g.depth <= 1) <==> |s.stacks| <= 1
  {
    if |s.stacks| >= 2 {
      var sch := ReentryMissed(s);
      assert Run(s, sch).g.depth == 2;
    } else {
      forall sch ensures Run(s, sch).g.depth <= 1 {
        if |s.stacks| == 1 {
          SoloDepth(s, sch, 0);
        } else {
          DepthExact(s, sch);
        }
      }
    }
  }
}
