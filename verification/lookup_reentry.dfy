/**
 What the re-entry detector of the lookup hook proves and what it misses.

 `recursed` is sound in every interleaving (NoFalsePositive, RecursedIsEvidence).
 A re-entry is detected exactly when the last write of `owner` was its own
 thread's store (DetectedExactly).  So detection is complete while no other
 thread writes `owner` (ReentryDetected), a miss needs such a write inside the
 outer activation's window (MissNeedsInterference), and it happens
 (ReentryMissed).
 */
module LookupReentry {
  import opened CTypes
  import opened LookupMachine
  import opened LookupFuse

  /** The steps of a detected re-entry. */
  predicate OnDetectedPath(pc: Pc) {
    || pc.SetRecursed?
    || (pc.ClearSlot? && pc.reentry)
    || (pc.LoadMask? && pc.reentry)
    || (pc.StoreMask? && pc.reentry)
  }

  /** Every activation on the detected path sits above one that is in its owner window. */
  predicate Nested(stack: seq<Pc>) {
    stack == [] ||
    ((OnDetectedPath(stack[0]) ==> CountIn(Window, stack[1..]) > 0) && Nested(stack[1..]))
  }

  ghost predicate OwnerIsInside(s: State) {
    && (s.g.owner != 0 ==> s.g.owner <= |s.stacks| && CountIn(Window, s.stacks[s.g.owner - 1]) > 0)
    && (forall t :: 0 <= t < |s.stacks| ==> Nested(s.stacks[t]))
  }

  /** The stack of the moving thread: its new top, if any, over the old rest. */
  lemma {:induction false} MovedStack(s: State, l: Label)
    requires Effective(s, l)
    ensures l.Dispatch? ==> Step(s, l).stacks[l.t] == [LoadOwner] + s.stacks[l.t]
    ensures l.Dispatch? ==> Step(s, l).stacks[l.t][1..] == s.stacks[l.t]
    ensures l.Advance? && Arrival(s, l).Return? ==> Step(s, l).stacks[l.t] == s.stacks[l.t][1..]
    ensures l.Advance? && Arrival(s, l).Goto? ==>
      && Step(s, l).stacks[l.t] != [] && Step(s, l).stacks[l.t][0] == Arrival(s, l).pc
      && Step(s, l).stacks[l.t][1..] == s.stacks[l.t][1..]
  {}

  lemma {:induction false} OwnerIsInsideStep(s: State, l: Label)
    requires Effective(s, l) && OwnerIsInside(s)
    ensures OwnerIsInside(Step(s, l))
  {
    MovedStack(s, l);
    var s' := Step(s, l);
    if l.Advance? {
      var pc := s.stacks[l.t][0];
      assert Nested(s'.stacks[l.t]);
      assert s'.g.owner == if pc.StoreOwner? then Self(l.t) else if pc.ClearOwner? then 0 else s.g.owner;
      assert CountIn(Window, s.stacks[l.t]) == Weight(Window, pc) + CountIn(Window, s.stacks[l.t][1..]);
    }
  }

  lemma {:induction false} OwnerIsInsideRun(s: State, sch: seq<Label>)
    requires Armed(s)
    ensures OwnerIsInside(Run(s, sch))
  {
    if sch != [] {
      OwnerIsInsideRun(s, sch[..|sch| - 1]);
      if Effective(Run(s, sch[..|sch| - 1]), sch[|sch| - 1]) {
        OwnerIsInsideStep(Run(s, sch[..|sch| - 1]), sch[|sch| - 1]);
      }
    }
  }

  /** The next step of this label stores `recursed`. */
  predicate Flags(s: State, l: Label) {
    Effective(s, l) && l.Advance? && s.stacks[l.t][0] == SetRecursed
  }

  /**
   No false positives: in every interleaving of any number of threads with
   arbitrary nesting, an activation about to set `recursed` has an outer
   activation of the same thread between its owner store and its owner clear.
   */
  lemma {:induction false} NoFalsePositive(s: State, sch: seq<Label>, l: Label)
    requires Armed(s) && Flags(Run(s, sch), l)
    ensures CountIn(Window, Run(s, sch).stacks[l.t][1..]) > 0
  {
    OwnerIsInsideRun(s, sch);
  }

  /** A set flag is evidence: some step of the run stored it while really nested. */
  lemma {:induction false} RecursedIsEvidence(s: State, sch: seq<Label>) returns (i: nat)
    requires Armed(s) && Run(s, sch).g.recursed
    ensures i < |sch| && Flags(Run(s, sch[..i]), sch[i])
    ensures CountIn(Window, Run(s, sch[..i]).stacks[sch[i].t][1..]) > 0
  {
    i := |sch| - 1;
    var before := sch[..i];
    if Run(s, before).g.recursed {
      i := RecursedIsEvidence(s, before);
      assert before[..i] == sch[..i];
    } else {
      NoFalsePositive(s, before, sch[i]);
    }
  }

  /** Threads that never re-enter never raise the flag. */
  lemma {:induction false} NoReentryNoFlag(s: State, sch: seq<Label>)
    requires Armed(s) && NoReentry(s, sch)
    ensures !Run(s, sch).g.recursed
  {
    if Run(s, sch).g.recursed {
      var i := RecursedIsEvidence(s, sch);
      NoReentryPrefix(s, sch, i);
      OneActivationPerThread(s, sch[..i]);
    }
  }

  lemma {:induction false} NoReentryPrefix(s: State, sch: seq<Label>, i: nat)
    requires NoReentry(s, sch) && i <= |sch|
    ensures NoReentry(s, sch[..i])
  {
    if i == |sch| {
      assert sch[..i] == sch;
    } else {
      NoReentryPrefix(s, sch[..|sch| - 1], i);
      assert sch[..|sch| - 1][..i] == sch[..i];
    }
  }

  // ----- completeness while nobody else writes owner -----

  predicate WritesOwner(s: State, l: Label) {
    Effective(s, l) && l.Advance? && (s.stacks[l.t][0].StoreOwner? || s.stacks[l.t][0].ClearOwner?)
  }

  /** The activation of thread t with n - 1 others below it clears `owner`: its window ends. */
  predicate Closes(s: State, l: Label, t: nat, n: nat) {
    Effective(s, l) && l == Advance(t) && |s.stacks[t]| == n && s.stacks[t][0] == ClearOwner
  }

  predicate KeepsWindow(s: State, l: Label, t: nat, n: nat) {
    (l.t != t ==> !WritesOwner(s, l)) && !Closes(s, l, t, n)
  }

  /** No other thread writes `owner`, and the window of that activation stays open. */
  predicate WindowKept(s: State, sch: seq<Label>, t: nat, n: nat) {
    sch == [] ||
    var before := sch[..|sch| - 1];
    var l := sch[|sch| - 1];
    WindowKept(s, before, t, n) && KeepsWindow(Run(s, before), l, t, n)
  }

  /** Thread t has been dispatched again, with the slot armed, after its owner store. */
  predicate Reentered(s: State, sch: seq<Label>, t: nat) {
    sch != [] &&
    var before := sch[..|sch| - 1];
    Reentered(s, before, t) || (sch[|sch| - 1] == Dispatch(t) && Effective(Run(s, before), Dispatch(t)))
  }

  /** Only activations that are about to be detected, or have been. */
  predicate Caught(above: seq<Pc>) {
    above == [] || ((above[0].LoadOwner? || OnDetectedPath(above[0])) && Caught(above[1..]))
  }

  /** The flag and the slot carry the answer, or an activation above still has to give it. */
  predicate Answered(g: Globals, above: seq<Pc>) {
    && (g.recursed || CountIn(Unflagged, above) > 0)
    && (!g.slot || CountIn(Unanswered, above) > 0)
  }

  /** Thread t owns `owner` and is re-entered `above` its activations `base`. */
  predicate Trapped(s: State, t: nat, above: seq<Pc>, base: seq<Pc>) {
    && t < |s.stacks| && s.g.owner == Self(t)
    && s.stacks[t] == above + base
    && Caught(above)
  }

  /** What one step of the re-entered thread makes of the activations above. */
  lemma {:induction false} CaughtMove(g: Globals, self: nat, above: seq<Pc>)
    requires above != [] && Caught(above) && g.owner == self
    ensures
      var g' := Effect(g, self, above[0]);
      var above' := Resume(Succ(g, self, above[0])) + above[1..];
      && Caught(above')
      && (Answered(g, above) ==> Answered(g', above'))
      && g'.owner == g.owner && g'.depth == g.depth && g'.count == g.count && g'.maxdepth == g.maxdepth
  {
    var next := Succ(g, self, above[0]);
    if next.Goto? {
      assert (Resume(next) + above[1..])[1..] == above[1..];
    } else {
      assert Resume(next) + above[1..] == above[1..];
    }
  }

  lemma {:induction false} TrappedStep(s: State, l: Label, t: nat, above: seq<Pc>, base: seq<Pc>)
    returns (above': seq<Pc>)
    requires Trapped(s, t, above, base)
    requires l.t != t ==> !WritesOwner(s, l)
    requires l == Advance(t) ==> |s.stacks[t]| > |base|
    ensures Trapped(Step(s, l), t, above', base)
    ensures Answered(s.g, above) ==> Answered(Step(s, l).g, above')
    ensures Effective(s, l) && l == Dispatch(t) ==> Answered(Step(s, l).g, above')
  {
    above' := above;
    if Effective(s, l) && l.t == t {
      if l.Dispatch? {
        above' := [LoadOwner] + above;
        assert [LoadOwner] + s.stacks[t] == above' + base;
        assert above'[1..] == above;
      } else {
        var resume := Resume(Succ(s.g, Self(t), above[0]));
        above' := resume + above[1..];
        CaughtMove(s.g, Self(t), above);
        assert s.stacks[t][1..] == above[1..] + base;
        assert resume + (above[1..] + base) == above' + base;
      }
    }
  }

  /** The outer activation moves inside its window. */
  lemma {:induction false} OuterStep(s: State, t: nat, outer: Pc, rest: seq<Pc>) returns (outer': Pc)
    requires Trapped(s, t, [], [outer] + rest) && In(Window, outer) && outer != ClearOwner
    ensures Trapped(Step(s, Advance(t)), t, [], [outer'] + rest) && In(Window, outer')
    ensures Answered(s.g, []) ==> Answered(Step(s, Advance(t)).g, [])
  {
    assert [] + ([outer] + rest) == [outer] + rest;
    assert ([outer] + rest)[1..] == rest;
    outer' := Succ(s.g, Self(t), outer).pc;
    assert [] + ([outer'] + rest) == [outer'] + rest;
  }

  /** From the owner store on, thread t owns `owner` and everything above its outer activation is caught. */
  lemma {:induction false} WindowRun(s: State, sch: seq<Label>, t: nat) returns (above: seq<Pc>, outer: Pc)
    requires t < |s.stacks| && s.stacks[t] != [] && s.stacks[t][0] == StoreOwner
    requires sch != [] && sch[0] == Advance(t) && WindowKept(s, sch, t, |s.stacks[t]|)
    ensures Trapped(Run(s, sch), t, above, [outer] + s.stacks[t][1..]) && In(Window, outer)
    ensures Reentered(s, sch, t) ==> Answered(Run(s, sch).g, above)
  {
    var before, l := sch[..|sch| - 1], sch[|sch| - 1];
    var rest := s.stacks[t][1..];
    if before == [] {
      assert Run(s, before) == s && !Reentered(s, before, t) && l == Advance(t);
      above, outer := [], AddDepth;
      assert [] + ([AddDepth] + rest) == [AddDepth] + rest;
    } else {
      above, outer := WindowRun(s, before, t);
      if l == Advance(t) && above == [] {
        assert [] + ([outer] + rest) == [outer] + rest;
        outer := OuterStep(Run(s, before), t, outer, rest);
      } else {
        above := TrappedStep(Run(s, before), l, t, above, [outer] + rest);
      }
    }
  }

  /**
   Detection is complete inside the window.  Let thread t store `owner`, let no
   other thread write it, and let the window stay open: t may run the
   activation on and be re-entered any number of times, at any point, while
   other threads take any other steps.  Then `owner` stays t's, and whenever t
   is back at the outer activation after a re-entry the flag is set and the
   slot is NULL.
   */
  lemma {:induction false} ReentryDetected(s: State, sch: seq<Label>, t: nat)
    requires t < |s.stacks| && s.stacks[t] != [] && s.stacks[t][0] == StoreOwner
    requires sch != [] && sch[0] == Advance(t) && WindowKept(s, sch, t, |s.stacks[t]|)
    ensures Run(s, sch).g.owner == Self(t)
    ensures |Run(s, sch).stacks[t]| >= |s.stacks[t]|
    ensures Reentered(s, sch, t) && |Run(s, sch).stacks[t]| == |s.stacks[t]| ==>
      Run(s, sch).g.recursed && !Run(s, sch).g.slot
  {
    var above, outer := WindowRun(s, sch, t);
  }

  lemma {:induction false} CaughtStep(s: State, t: nat, above: seq<Pc>, base: seq<Pc>)
    requires Trapped(s, t, above, base) && above != []
    ensures SameBooks(s.g, Step(s, Advance(t)).g)
    ensures base == Lowest(Step(s, Advance(t)).stacks[t], |base|) == Lowest(s.stacks[t], |base|)
  {
    CaughtMove(s.g, Self(t), above);
    var above' := TrappedStep(s, Advance(t), t, above, base);
    LowestOf(above, base);
    LowestOf(above', base);
  }

  predicate SameBooks(g: Globals, g': Globals) {
    g'.owner == g.owner && g'.depth == g.depth && g'.count == g.count && g'.maxdepth == g.maxdepth
  }

  /** The n outermost activations of a stack. */
  function Lowest(stack: seq<Pc>, n: nat): seq<Pc> {
    if n <= |stack| then stack[|stack| - n..] else stack
  }

  lemma {:induction false} LowestOf(above: seq<Pc>, base: seq<Pc>)
    ensures Lowest(above + base, |base|) == base
  {}

  /** A step of such a re-entry leaves owner, depth, count, maxdepth and the outer activation alone. */
  lemma {:induction false} ReentryIsInert(s: State, sch: seq<Label>, t: nat)
    requires t < |s.stacks| && s.stacks[t] != [] && s.stacks[t][0] == StoreOwner
    requires sch != [] && sch[0] == Advance(t) && WindowKept(s, sch, t, |s.stacks[t]|)
    requires |Run(s, sch).stacks[t]| > |s.stacks[t]|
    ensures SameBooks(Run(s, sch).g, Step(Run(s, sch), Advance(t)).g)
    ensures Lowest(Step(Run(s, sch), Advance(t)).stacks[t], |s.stacks[t]|)
         == Lowest(Run(s, sch).stacks[t], |s.stacks[t]|)
  {
    var above, outer := WindowRun(s, sch, t);
    CaughtStep(Run(s, sch), t, above, [outer] + s.stacks[t][1..]);
  }

  // ----- exactly when a re-entry is detected -----

  /** The last write of `owner` in the run, if there was one. */
  datatype OwnerWrite = Never | Stored(t: nat) | Cleared(t: nat)

  function LastOwnerWrite(s: State, sch: seq<Label>): OwnerWrite {
    if sch == [] then Never
    else
      var before := sch[..|sch| - 1];
      var l := sch[|sch| - 1];
      if !WritesOwner(Run(s, before), l) then LastOwnerWrite(s, before)
      else if Run(s, before).stacks[l.t][0].StoreOwner? then Stored(l.t) else Cleared(l.t)
  }

  function OwnerAfter(w: OwnerWrite): nat {
    if w.Stored? then Self(w.t) else 0
  }

  lemma {:induction false} OwnerStep(s: State, l: Label)
    ensures !WritesOwner(s, l) ==> Step(s, l).g.owner == s.g.owner
    ensures WritesOwner(s, l) ==> Step(s, l).g.owner == if s.stacks[l.t][0].StoreOwner? then Self(l.t) else 0
  {}

  lemma {:induction false} OwnerIsLastWrite(s: State, sch: seq<Label>)
    requires Armed(s)
    ensures Run(s, sch).g.owner == OwnerAfter(LastOwnerWrite(s, sch))
  {
    if sch != [] {
      OwnerIsLastWrite(s, sch[..|sch| - 1]);
      OwnerStep(Run(s, sch[..|sch| - 1]), sch[|sch| - 1]);
    }
  }

  /** In every interleaving the owner test fires if and only if the last write of `owner` is its own thread's store. */
  lemma {:induction false} DetectedExactly(s: State, sch: seq<Label>, t: nat)
    requires Armed(s) && t < |s.stacks|
    requires Run(s, sch).stacks[t] != [] && Run(s, sch).stacks[t][0] == LoadOwner
    ensures Step(Run(s, sch), Advance(t)).stacks[t][0] == SetRecursed <==> LastOwnerWrite(s, sch) == Stored(t)
  {
    OwnerIsLastWrite(s, sch);
  }

  /** Thread t has an activation with n - 1 others below it, and it is in its owner window. */
  predicate WindowOpen(s: State, t: nat, n: nat) {
    t < |s.stacks| && 0 < n <= |s.stacks[t]| && In(Window, s.stacks[t][|s.stacks[t]| - n])
  }

  /** This step is the owner store that opens that window. */
  predicate Opens(s: State, l: Label, t: nat, n: nat) {
    Effective(s, l) && l == Advance(t) && |s.stacks[t]| == n && s.stacks[t][0] == StoreOwner
  }

  lemma {:induction false} WindowBefore(s: State, l: Label, t: nat, n: nat)
    requires WindowOpen(Step(s, l), t, n)
    ensures Opens(s, l, t, n) || (WindowOpen(s, t, n) && !Closes(s, l, t, n))
  {
    if Effective(s, l) {
      MovedStack(s, l);
    }
  }

  /** Step i of the run opens the window, and it has been open since. */
  ghost predicate OpenSince(s: State, sch: seq<Label>, t: nat, n: nat, i: nat) {
    && i < |sch| && Opens(Run(s, sch[..i]), sch[i], t, n)
    && forall j :: i < j < |sch| ==> WindowOpen(Run(s, sch[..j]), t, n) && !Closes(Run(s, sch[..j]), sch[j], t, n)
  }

  lemma {:induction false} StillOpen(s: State, before: seq<Label>, l: Label, t: nat, n: nat, i: nat)
    requires OpenSince(s, before, t, n, i)
    requires WindowOpen(Run(s, before), t, n) && !Closes(Run(s, before), l, t, n)
    ensures OpenSince(s, before + [l], t, n, i)
  {
    var sch := before + [l];
    forall j | i <= j < |sch|
      ensures i < j ==> WindowOpen(Run(s, sch[..j]), t, n) && !Closes(Run(s, sch[..j]), sch[j], t, n)
      ensures sch[..j] == before[..j]
    {
      assert sch[..j] == before[..j];
      assert j == |before| ==> sch[..j] == before;
    }
  }

  /** Every open window was opened by an owner store and has stayed open since. */
  lemma {:induction false} WindowWasOpened(s: State, sch: seq<Label>, t: nat, n: nat) returns (i: nat)
    requires Armed(s) && WindowOpen(Run(s, sch), t, n)
    ensures OpenSince(s, sch, t, n, i)
  {
    assert sch != [];
    i := |sch| - 1;
    var before, l := sch[..i], sch[i];
    WindowBefore(Run(s, before), l, t, n);
    if !Opens(Run(s, before), l, t, n) {
      i := WindowWasOpened(s, before, t, n);
      StillOpen(s, before, l, t, n, i);
      assert sch == before + [l];
    }
  }

  lemma {:induction false} KeptSnoc(s: State, before: seq<Label>, l: Label, t: nat, n: nat)
    requires WindowKept(s, before, t, n) && KeepsWindow(Run(s, before), l, t, n)
    ensures WindowKept(s, before + [l], t, n)
  {
    assert (before + [l])[..|before|] == before;
  }

  /** The rest of a run, seen as a run of its own. */
  lemma {:induction false} RunFrom(s: State, sch: seq<Label>, i: nat, m: nat)
    requires i <= m <= |sch|
    ensures Run(Run(s, sch[..i]), sch[i..m]) == Run(s, sch[..m])
  {
    RunConcat(s, sch[..i], sch[i..m]);
    assert sch[..i] + sch[i..m] == sch[..m];
  }

  predicate KeepsWindowAt(s: State, sch: seq<Label>, t: nat, n: nat, k: nat) {
    k < |sch| && KeepsWindow(Run(s, sch[..k]), sch[k], t, n)
  }

  lemma {:induction false} KeptOneMore(s: State, sch: seq<Label>, t: nat, n: nat, i: nat, m: nat)
    requires i <= m < |sch|
    requires WindowKept(Run(s, sch[..i]), sch[i..m], t, n) && KeepsWindowAt(s, sch, t, n, m)
    ensures WindowKept(Run(s, sch[..i]), sch[i..m + 1], t, n)
  {
    RunFrom(s, sch, i, m);
    KeptSnoc(Run(s, sch[..i]), sch[i..m], sch[m], t, n);
    assert sch[i..m] + [sch[m]] == sch[i..m + 1];
  }

  lemma {:induction false} KeptSince(s: State, sch: seq<Label>, t: nat, n: nat, i: nat, m: nat)
    requires i <= m <= |sch|
    requires forall k :: i <= k < m ==> KeepsWindowAt(s, sch, t, n, k)
    ensures WindowKept(Run(s, sch[..i]), sch[i..m], t, n)
  {
    if i < m {
      KeptSince(s, sch, t, n, i, m - 1);
      KeptOneMore(s, sch, t, n, i, m - 1);
    }
  }

  /**
   What a false negative takes: a dispatch of t that arrives while an outer
   activation of t is in its owner window goes undetected only if another
   thread wrote `owner` inside that window.
   */
  lemma {:induction false} MissNeedsInterference(s: State, sch: seq<Label>, t: nat, n: nat) returns (i: nat, j: nat)
    requires Armed(s) && WindowOpen(Run(s, sch), t, n) && n < |Run(s, sch).stacks[t]|
    requires Run(s, sch).stacks[t][0] == LoadOwner && LastOwnerWrite(s, sch) != Stored(t)
    ensures i < j < |sch| && Opens(Run(s, sch[..i]), sch[i], t, n)
    ensures sch[j].t != t && WritesOwner(Run(s, sch[..j]), sch[j])
    ensures WindowOpen(Run(s, sch[..j]), t, n)
  {
    i := WindowWasOpened(s, sch, t, n);
    if forall k :: i <= k < |sch| ==> KeepsWindowAt(s, sch, t, n, k) {
      KeptSince(s, sch, t, n, i, |sch|);
      RunFrom(s, sch, i, |sch|);
      assert sch[..|sch|] == sch;
      ReentryDetected(Run(s, sch[..i]), sch[i..|sch|], t);
      OwnerIsLastWrite(s, sch);
      assert false;
    }
    j :| i <= j < |sch| && !KeepsWindowAt(s, sch, t, n, j);
  }

  // ----- the limit of the detector -----

  /** An activation that does not find its own thread in `owner` counts itself in, whatever its thread was doing. */
  lemma {:induction false} EntersUndetected(s: State, t: nat) returns (sch: seq<Label>)
    requires t < |s.stacks| && s.g.slot && s.g.owner != Self(t) && s.g.depth + 1 < UINT_LIMIT
    ensures
      var r := Run(s, sch);
      && r.g.owner == Self(t) && r.g.depth == s.g.depth + 1 && r.g.recursed == s.g.recursed && r.g.slot
      && |r.stacks[t]| == |s.stacks[t]| + 1 && In(Deep, r.stacks[t][0]) && r.stacks[t][1..] == s.stacks[t]
      && forall u :: 0 <= u < |s.stacks| && u != t ==> r.stacks[u] == s.stacks[u]
  {
    SoloEnters(s.g, Self(t));
    sch := RunsSolo(s, t, 4);
  }

  /** Two steps into the hook a thread has put its own pointer into `owner`. */
  lemma {:induction false} OverwritesOwner(s: State, t: nat) returns (sch: seq<Label>)
    requires t < |s.stacks| && s.g.slot && s.g.owner != Self(t) && s.stacks[t] == []
    ensures Run(s, sch) == State(s.g.(owner := Self(t)), s.stacks[t := [AddDepth]])
  {
    assert Solo(s.g, Self(t), 1) == (s.g, Goto(StoreOwner));
    sch := RunsSolo(s, t, 2);
    assert [AddDepth] + [] == [AddDepth];
  }

  /**
   Another thread that overwrites `owner` hides a genuine re-entry: thread 0 is
   inside twice, both activations count towards `depth`, and neither the flag
   nor the slot shows it.
   */
  lemma {:induction false} ReentryMissed(s: State) returns (sch: seq<Label>)
    requires Armed(s) && |s.stacks| >= 2
    ensures var r := Run(s, sch);
      CountIn(Deep, r.stacks[0]) == 2 && r.g.depth == 2 && !r.g.recursed && r.g.slot
  {
    var outer := EntersUndetected(s, 0);
    var s1 := Run(s, outer);
    var other := OverwritesOwner(s1, 1);
    var s2 := Run(s1, other);
    var inner := EntersUndetected(s2, 0);
    RunConcat(s, outer, other);
    RunConcat(s, outer + other, inner);
    sch := outer + other + inner;
    var stack := Run(s, sch).stacks[0];
    assert stack[1..] == s1.stacks[0] && s1.stacks[0][1..] == [];
    assert CountIn(Deep, s1.stacks[0]) == 1;
  }

  // ----- one thread on its own -----

  /** Every label that names a thread names t. */
  predicate OnlyThread(s: State, sch: seq<Label>, t: nat) {
    forall i :: 0 <= i < |sch| ==> sch[i].t == t || sch[i].t >= |s.stacks|
  }

  /** Below an activation that has passed the owner test nobody is in the owner window. */
  predicate Exclusive(stack: seq<Pc>) {
    stack == [] ||
    (((stack[0].StoreOwner? || In(Window, stack[0])) ==> CountIn(Window, stack[1..]) == 0) && Exclusive(stack[1..]))
  }

  /** The owner word says exactly whether the only running thread has an activation in its window. */
  predicate Alone(s: State, t: nat) {
    && t < |s.stacks|
    && (forall u :: 0 <= u < |s.stacks| && u != t ==> s.stacks[u] == [])
    && Exclusive(s.stacks[t])
    && s.g.owner == if CountIn(Window, s.stacks[t]) > 0 then Self(t) else 0
  }

  lemma {:induction false} AloneStep(s: State, l: Label)
    requires Effective(s, l) && Alone(s, l.t)
    ensures Alone(Step(s, l), l.t)
  {
    MovedStack(s, l);
    if l.Advance? {
      var pc := s.stacks[l.t][0];
      assert CountIn(Window, s.stacks[l.t]) == Weight(Window, pc) + CountIn(Window, s.stacks[l.t][1..]);
    }
  }

  lemma {:induction false} AloneRun(s: State, sch: seq<Label>, t: nat)
    requires Armed(s) && OnlyThread(s, sch, t) && t < |s.stacks|
    ensures Alone(Run(s, sch), t)
  {
    if sch != [] {
      AloneRun(s, sch[..|sch| - 1], t);
      if Effective(Run(s, sch[..|sch| - 1]), sch[|sch| - 1]) {
        AloneStep(Run(s, sch[..|sch| - 1]), sch[|sch| - 1]);
      }
    }
  }

  /** For a thread on its own the detector is exact: it fires if and only if an outer activation is in its window. */
  lemma {:induction false} SoloDetection(s: State, sch: seq<Label>, t: nat)
    requires Armed(s) && OnlyThread(s, sch, t) && t < |s.stacks|
    requires Run(s, sch).stacks[t] != [] && Run(s, sch).stacks[t][0] == LoadOwner
    ensures Succ(Run(s, sch).g, Self(t), LoadOwner) == Goto(SetRecursed) <==>
      CountIn(Window, Run(s, sch).stacks[t][1..]) > 0
  {
    AloneRun(s, sch, t);
  }

  lemma {:induction false} ExclusiveBound(stack: seq<Pc>)
    requires Exclusive(stack)
    ensures CountIn(Deep, stack) <= CountIn(Window, stack) <= 1
  {
    if stack != [] {
      ExclusiveBound(stack[1..]);
    }
  }

  lemma {:induction false} CountOnly(r: Tally, stacks: seq<seq<Pc>>, t: nat)
    requires t < |stacks| && forall u :: 0 <= u < |stacks| && u != t ==> stacks[u] == []
    ensures CountAll(r, stacks) == CountIn(r, stacks[t])
  {
    if t == 0 {
      CountAllZero(r, stacks[1..]);
    } else {
      CountOnly(r, stacks[1..], t - 1);
    }
  }

  /** However a single thread is nested, at most one of its activations is ever between add and sub. */
  lemma {:induction false} SoloPeak(s: State, sch: seq<Label>, t: nat)
    requires Armed(s) && OnlyThread(s, sch, t) && t < |s.stacks|
    ensures Peak(Deep, s, sch) <= 1
  {
    AloneRun(s, sch, t);
    ExclusiveBound(Run(s, sch).stacks[t]);
    CountOnly(Deep, Run(s, sch).stacks, t);
    if sch != [] {
      SoloPeak(s, sch[..|sch| - 1], t);
    }
  }
}
