/**
 The hook as the C code writes it: one object holding the shared variables, one
 method per C function, run without interruption.  `CheckLookup` is proved
 against `Dispatched`, and `DispatchIsARun` shows that the interleaving machine
 reaches the same state when nothing interleaves.  `FuseBlowIsOneEvent` relates
 the interleaved fuse blows to the single event of HookControl.
 */
module LookupHook {
  import HookControl
  import opened CTypes
  import opened LookupFuse
  import opened LookupMachine
  import opened LookupReentry

  /** The shared variables after a dispatch that nothing interrupted. */
  function Dispatched(g: Globals, self: nat): Globals {
    if g.owner == self then g.(recursed := true, slot := false, mask := g.mask.(lookup := false))
    else
      var blown := g.fuse > 0 && Inc(g.count) >= g.fuse;
      g.(owner := 0,
         depth := Dec(Inc(g.depth)),
         maxdepth := Max(g.maxdepth, Inc(g.depth)),
         count := Inc(g.count),
         slot := g.slot && !blown,
         mask := if blown then g.mask.(lookup := false) else g.mask)
  }

  class Hook {
    var slot: bool
    var mask: Mask
    var owner: nat
    var depth: nat
    var maxdepth: nat
    var recursed: bool
    var count: nat
    var fuse: int

    function View(): Globals
      reads this
    {
      Globals(slot, mask, owner, depth, maxdepth, recursed, count, fuse)
    }

    /** sebsd_hooks_blow_lookup_fuse */
    method BlowLookupFuse()
      modifies this`slot, this`mask
      ensures View() == old(View()).(slot := false, mask := old(mask).(lookup := false))
    {
      slot := false;
      mask := mask.(lookup := false);
    }

    /** sebsd_vnode_check_lookup: always grants access. */
    method CheckLookup(self: nat) returns (denied: int)
      modifies this
      ensures denied == 0
      ensures View() == Dispatched(old(View()), self)
    {
      denied := 0;
      if owner == self {
        recursed := true;
        BlowLookupFuse();
        return;
      }
      owner := self;
      depth := Inc(depth);
      var d := depth;
      if d > maxdepth {
        maxdepth := d;
      }
      count := Inc(count);
      var n := count;
      if fuse > 0 && n >= fuse {
        BlowLookupFuse();
      }
      depth := Dec(depth);
      owner := 0;
    }
  }

  /** The tail of a dispatch, from its ticket on; it returns with step m and not before. */
  lemma {:induction false} SoloFinishes(g: Globals, self: nat, k: nat) returns (m: nat)
    requires Solo(g, self, k).1 == Goto(TestFuse(Solo(g, self, k).0.count))
    ensures
      var a := Solo(g, self, k).0;
      var blown := a.fuse > 0 && a.count >= a.fuse;
      Solo(g, self, m) ==
        (a.(depth := Dec(a.depth), owner := 0, slot := a.slot && !blown,
            mask := if blown then a.mask.(lookup := false) else a.mask), Return)
    ensures m > 0 && Solo(g, self, m - 1).1.Goto?
  {
    var a := Solo(g, self, k).0;
    if a.fuse > 0 && a.count >= a.fuse {
      assert Solo(g, self, k + 1) == (a, Goto(ClearSlot(false)));
      assert Solo(g, self, k + 2) == (a.(slot := false), Goto(LoadMask(false)));
      assert Solo(g, self, k + 3) == (a.(slot := false), Goto(StoreMask(false, a.mask)));
      var b := a.(slot := false, mask := a.mask.(lookup := false));
      assert Solo(g, self, k + 4) == (b, Goto(SubDepth));
      assert Solo(g, self, k + 5) == (b.(depth := Dec(a.depth)), Goto(ClearOwner));
      m := k + 6;
    } else {
      assert Solo(g, self, k + 1) == (a, Goto(SubDepth));
      assert Solo(g, self, k + 2) == (a.(depth := Dec(a.depth)), Goto(ClearOwner));
      m := k + 3;
    }
  }

  lemma {:induction false} SoloDetects(g: Globals, self: nat)
    requires g.owner == self
    ensures Solo(g, self, 5) == (Dispatched(g, self), Return) && Solo(g, self, 4).1.Goto?
  {
    assert Solo(g, self, 1) == (g, Goto(SetRecursed));
    assert Solo(g, self, 2) == (g.(recursed := true), Goto(ClearSlot(true)));
    assert Solo(g, self, 3) == (g.(recursed := true, slot := false), Goto(LoadMask(true)));
    assert Solo(g, self, 4) == (g.(recursed := true, slot := false), Goto(StoreMask(true, g.mask)));
  }

  lemma {:induction false} SoloTicket(g: Globals, self: nat) returns (k: nat)
    requires g.owner != self
    ensures Solo(g, self, k) ==
      (g.(owner := self, depth := Inc(g.depth), maxdepth := Max(g.maxdepth, Inc(g.depth)), count := Inc(g.count)),
       Goto(TestFuse(Inc(g.count))))
  {
    var d := Inc(g.depth);
    assert Solo(g, self, 1) == (g, Goto(StoreOwner));
    assert Solo(g, self, 2) == (g.(owner := self), Goto(AddDepth));
    assert Solo(g, self, 3) == (g.(owner := self, depth := d), Goto(CompareMax(d)));
    if d > g.maxdepth {
      assert Solo(g, self, 4) == (g.(owner := self, depth := d), Goto(StoreMax(d)));
      assert Solo(g, self, 5) == (g.(owner := self, depth := d, maxdepth := d), Goto(AddCount));
      k := 6;
    } else {
      assert Solo(g, self, 4) == (g.(owner := self, depth := d), Goto(AddCount));
      k := 5;
    }
  }

  /**
   When nothing interleaves, the machine does what the C function does, on top
   of whatever the thread was doing when the dispatch arrived.
   */
  lemma {:induction false} DispatchIsARun(s: State, t: nat) returns (sch: seq<Label>)
    requires t < |s.stacks| && s.g.slot
    ensures Run(s, sch) == State(Dispatched(s.g, Self(t)), s.stacks)
  {
    if s.g.owner == Self(t) {
      SoloDetects(s.g, Self(t));
      sch := RunsSolo(s, t, 5);
    } else {
      var k := SoloTicket(s.g, Self(t));
      var m := SoloFinishes(s.g, Self(t), k);
      sch := RunsSolo(s, t, m);
    }
    assert [] + s.stacks[t] == s.stacks[t];
  }

  /** The detected path belongs to nested dispatches: a thread outside the hook never finds itself in `owner`. */
  lemma {:induction false} OutsideNeverDetects(s: State, sch: seq<Label>, t: nat)
    requires Armed(s) && t < |s.stacks| && Run(s, sch).stacks[t] == []
    ensures Run(s, sch).g.owner != Self(t)
  {
    OwnerIsInsideRun(s, sch);
  }

  // ----- the fuse blow as one event -----

  function MaskOf(mask: HookControl.Mask): Mask {
    Mask(HookControl.UNSAFE_BIT in mask, HookControl.Disarmed(mask))
  }

  /** The same slot and the same mask, as the two models see them. */
  predicate Represents(g: Globals, k: HookControl.Kext) {
    (g.slot <==> HookControl.VnodeLookup in k.ops) && g.mask == MaskOf(k.mask)
  }

  lemma {:induction false} BlowRepresents(g: Globals, k: HookControl.Kext)
    requires k.mapped && Represents(g, k)
    ensures Represents(g.(slot := false, mask := g.mask.(lookup := false)), HookControl.Next(k, HookControl.FuseBlow))
  {
    assert HookControl.Disarmed(HookControl.Disarmed(k.mask)) == HookControl.Disarmed(k.mask);
  }

  /**
   HookControl takes a fuse blow as one event.  That is what any number of
   threads make of it: however their dispatches and their unsynchronised slot
   and mask stores interleave, once the hook is empty mask and slot are as they
   were, or as one FuseBlow leaves them.
   */
  lemma {:induction false} FuseBlowIsOneEvent(s: State, sch: seq<Label>, k: HookControl.Kext)
    requires Armed(s) && Represents(s.g, k) && k.mapped
    requires Quiescent(Run(s, sch))
    ensures Represents(Run(s, sch).g, if Run(s, sch).g.slot then k else HookControl.Next(k, HookControl.FuseBlow))
  {
    MaskFollowsSlot(s, sch);
    BlowRepresents(s.g, k);
    assert Run(s, sch).g.mask == s.g.mask.(lookup := Run(s, sch).g.slot);
  }
}
