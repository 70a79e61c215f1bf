/**
 What an activation of the lookup hook does with the values it has read itself.

 Other threads may change every shared variable between two steps of an
 activation.  `Locals` reads from the run what the activation's own accesses
 left or found; `FuseAnswersTicket` and `StoresWhatItTook` show that its later
 steps go by those values and by nothing else, and `SharedExactly` that the
 shared variables are what the steps of the run made them.
 */
module LookupTicket {
  import opened CTypes
  import opened LookupDepth
  import opened LookupMachine

  datatype Option<T> = None | Some(value: T)

  /** The values that one activation has taken so far: its depth, its ticket, and the mask it has read. */
  datatype Local = Local(depth: Option<nat>, ticket: Option<nat>, mask: Option<Mask>)

  /** A dispatch that becomes the activation of thread t with h - 1 others below it. */
  predicate Begins(s: State, l: Label, t: nat, h: nat) {
    Effective(s, l) && l == Dispatch(t) && |s.stacks[t]| + 1 == h
  }

  /** A step of that activation. */
  predicate StepsOf(s: State, l: Label, t: nat, h: nat) {
    Effective(s, l) && l == Advance(t) && |s.stacks[t]| == h
  }

  /** What that activation has taken after the step. */
  function LocalAfter(s: State, l: Label, t: nat, h: nat, loc: Local): Local {
    if Begins(s, l, t, h) then Local(None, None, None)
    else if !StepsOf(s, l, t, h) then loc
    else
      match s.stacks[t][0]
      case AddDepth => loc.(depth := Some(Step(s, l).g.depth))
      case AddCount => loc.(ticket := Some(Step(s, l).g.count))
      case LoadMask(_) => loc.(mask := Some(s.g.mask))
      case _ => loc
  }

  /** What the last activation of thread t at height h has taken in the run. */
  function Locals(s: State, sch: seq<Label>, t: nat, h: nat): Local {
    if sch == [] then Local(None, None, None)
    else
      var before := sch[..|sch| - 1];
      LocalAfter(Run(s, before), sch[|sch| - 1], t, h, Locals(s, before, t, h))
  }

  /** The ticket has reached a positive fuse. */
  predicate Due(fuse: int, loc: Local) {
    loc.ticket.Some? && 0 < fuse <= loc.ticket.value
  }

  /** What an activation at pc has taken, and what it has done about its ticket. */
  ghost predicate Remembers(g: Globals, pc: Pc, loc: Local) {
    match pc
    case CompareMax(d) => loc.depth == Some(d) && loc.ticket == None
    case StoreMax(d) => loc.depth == Some(d) && loc.ticket == None
    case TestFuse(n) => loc.ticket == Some(n)
    case ClearSlot(re) => if re then loc.ticket == None else Due(g.fuse, loc)
    case LoadMask(re) => !g.slot && if re then loc.ticket == None else Due(g.fuse, loc)
    case StoreMask(re, seen) =>
      loc.mask == Some(seen) && !g.slot && if re then loc.ticket == None else Due(g.fuse, loc)
    case SubDepth | ClearOwner => loc.ticket.Some? && (Due(g.fuse, loc) ==> !g.slot)
    case _ => loc.ticket == None
  }

  predicate Present(s: State, t: nat, h: nat) {
    t < |s.stacks| && 0 < h <= |s.stacks[t]|
  }

  function PcAt(s: State, t: nat, h: nat): Pc
    requires Present(s, t, h)
  {
    s.stacks[t][|s.stacks[t]| - h]
  }

  /** An activation is where it was, unless the step is its own or brought it in. */
  lemma {:induction false} PcAfter(s: State, l: Label, t: nat, h: nat)
    requires Effective(s, l) && Present(Step(s, l), t, h)
    ensures Begins(s, l, t, h) ==> PcAt(Step(s, l), t, h) == LoadOwner
    ensures StepsOf(s, l, t, h) ==> Arrival(s, l) == Goto(PcAt(Step(s, l), t, h))
    ensures !Begins(s, l, t, h) && !StepsOf(s, l, t, h) ==>
      Present(s, t, h) && PcAt(Step(s, l), t, h) == PcAt(s, t, h)
  {
    if l.t == t && l.Advance? {
      assert Step(s, l).stacks[t] == Resume(Arrival(s, l)) + s.stacks[t][1..];
    }
  }

  /** One step, of the activation itself or of another, which never arms the slot again. */
  lemma {:induction false} RemembersStep(s: State, l: Label, t: nat, h: nat, loc: Local)
    requires Present(s, t, h) ==> Remembers(s.g, PcAt(s, t, h), loc)
    requires Effective(s, l) && Present(Step(s, l), t, h)
    ensures Remembers(Step(s, l).g, PcAt(Step(s, l), t, h), LocalAfter(s, l, t, h, loc))
  {
    PcAfter(s, l, t, h);
  }

  lemma {:induction false} RemembersRun(s: State, sch: seq<Label>, t: nat, h: nat)
    requires Armed(s)
    ensures Present(Run(s, sch), t, h) ==> Remembers(Run(s, sch).g, PcAt(Run(s, sch), t, h), Locals(s, sch, t, h))
  {
    if sch != [] && Present(Run(s, sch), t, h) {
      var before, l := sch[..|sch| - 1], sch[|sch| - 1];
      RemembersRun(s, before, t, h);
      if Effective(Run(s, before), l) {
        RemembersStep(Run(s, before), l, t, h, Locals(s, before, t, h));
      }
    }
  }

  /**
   The fuse is tested on the activation's own ticket, the value its own add left
   in `count`, however far others have taken `count` since.  An activation
   stores the slot on the fuse path only if its ticket has reached a positive
   fuse; one whose ticket has not goes on to its depth sub and never touches
   slot or mask; and one whose ticket has does not reach its depth sub before
   the slot is NULL.
   */
  lemma {:induction false} FuseAnswersTicket(s: State, sch: seq<Label>, t: nat)
    requires Armed(s) && t < |s.stacks| && Run(s, sch).stacks[t] != []
    ensures
      var r, r' := Run(s, sch), Step(Run(s, sch), Advance(t));
      var pc, loc := r.stacks[t][0], Locals(s, sch, t, |r.stacks[t]|);
      && (pc == ClearSlot(false) ==> loc.ticket.Some? && 0 < s.g.fuse <= loc.ticket.value)
      && (pc.TestFuse? ==>
            && loc.ticket.Some? && r'.g == r.g
            && r'.stacks[t][0] == if 0 < s.g.fuse <= loc.ticket.value then ClearSlot(false) else SubDepth)
      && (loc.ticket.Some? && !(0 < s.g.fuse <= loc.ticket.value) ==>
            && (pc.TestFuse? || pc == SubDepth || pc == ClearOwner)
            && r'.g.slot == r.g.slot && r'.g.mask == r.g.mask)
      && (loc.ticket.Some? && 0 < s.g.fuse <= loc.ticket.value && (pc == SubDepth || pc == ClearOwner) ==> !r.g.slot)
  {
    RemembersRun(s, sch, t, |Run(s, sch).stacks[t]|);
  }

  /**
   The depth compared with and stored to maxdepth is the one the activation's
   own add left, and the mask it stores is the one its own load found, without
   the lookup bit.
   */
  lemma {:induction false} StoresWhatItTook(s: State, sch: seq<Label>, t: nat)
    requires Armed(s) && t < |s.stacks| && Run(s, sch).stacks[t] != []
    ensures
      var r, r' := Run(s, sch), Step(Run(s, sch), Advance(t));
      var pc, loc := r.stacks[t][0], Locals(s, sch, t, |r.stacks[t]|);
      && (pc.CompareMax? ==>
            && loc.depth.Some? && r'.g == r.g
            && (r'.stacks[t][0].StoreMax? <==> loc.depth.value > r.g.maxdepth))
      && (pc.StoreMax? ==> loc.depth.Some? && r'.g == r.g.(maxdepth := loc.depth.value))
      && (pc.StoreMask? ==>
            loc.mask.Some? && r'.g == r.g.(mask := Mask(false, loc.mask.value.others)))
  {
    RemembersRun(s, sch, t, |Run(s, sch).stacks[t]|);
  }

  // ----- the shared variables, from the steps of the run -----

  datatype Access = DrawsTicket | PullsSlot | SetsFlag

  predicate Makes(s: State, l: Label, a: Access) {
    && Effective(s, l) && l.Advance?
    && match a
       case DrawsTicket => s.stacks[l.t][0].AddCount?
       case PullsSlot => s.stacks[l.t][0].ClearSlot?
       case SetsFlag => s.stacks[l.t][0].SetRecursed?
  }

  /** How many steps of the run make that access. */
  function Times(s: State, sch: seq<Label>, a: Access): nat {
    if sch == [] then 0
    else
      var before := sch[..|sch| - 1];
      Times(s, before, a) + if Makes(Run(s, before), sch[|sch| - 1], a) then 1 else 0
  }

  lemma {:induction false} AccessStep(s: State, l: Label)
    ensures Step(s, l).g.count == if Makes(s, l, DrawsTicket) then Inc(s.g.count) else s.g.count
    ensures Step(s, l).g.slot == (s.g.slot && !Makes(s, l, PullsSlot))
    ensures Step(s, l).g.recursed == (s.g.recursed || Makes(s, l, SetsFlag))
  {}

  lemma {:induction false} TicketStep(s: State, l: Label, n: nat)
    requires s.g.count == LowWord(n)
    ensures Step(s, l).g.count == LowWord(n + if Makes(s, l, DrawsTicket) then 1 else 0)
  {
    AccessStep(s, l);
    LowWordInc(n);
  }

  lemma {:induction false} CountExact(s: State, sch: seq<Label>, n: nat)
    requires Armed(s) && n == Times(s, sch, DrawsTicket)
    ensures Run(s, sch).g.count == LowWord(n)
  {
    if sch != [] {
      var before, l := sch[..|sch| - 1], sch[|sch| - 1];
      var m := Times(s, before, DrawsTicket);
      CountExact(s, before, m);
      TicketStep(Run(s, before), l, m);
    }
  }

  lemma {:induction false} SlotAndFlagExact(s: State, sch: seq<Label>)
    requires Armed(s)
    ensures Run(s, sch).g.slot <==> Times(s, sch, PullsSlot) == 0
    ensures Run(s, sch).g.recursed <==> Times(s, sch, SetsFlag) > 0
  {
    if sch != [] {
      SlotAndFlagExact(s, sch[..|sch| - 1]);
      AccessStep(Run(s, sch[..|sch| - 1]), sch[|sch| - 1]);
    }
  }

  /** Every add is counted, the slot is NULL once a step has pulled it, and the flag is set once a step has set it. */
  lemma {:induction false} SharedExactly(s: State, sch: seq<Label>)
    requires Armed(s)
    ensures Run(s, sch).g.count == Times(s, sch, DrawsTicket) % 0x1_0000_0000
    ensures Run(s, sch).g.slot <==> Times(s, sch, PullsSlot) == 0
    ensures Run(s, sch).g.recursed <==> Times(s, sch, SetsFlag) > 0
  {
    CountExact(s, sch, Times(s, sch, DrawsTicket));
    LowWordIsMod(Times(s, sch, DrawsTicket));
    SlotAndFlagExact(s, sch);
  }
}
