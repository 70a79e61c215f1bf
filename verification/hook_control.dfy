/**
 kext/main.c: which hooks are installed.  The mask is what `sysctl
 sedarwin.hooks` reports, the ops vector what the framework dispatches through,
 and this module says when the two agree over every run of loads, unload
 attempts, operator writes and fuse blows.
 */
module HookControl {
  /** The slots of struct mac_policy_ops that the policy fills. */
  datatype Slot =
    | PolicyInit | PolicyInitbsd | PolicyDestroy
    | VnodeOpen | VnodeCreate | VnodeUnlink | VnodeRename | VnodeLookup
    | VnodeReadlink | VnodeGetattr | VnodeSetattrlist
    | LabelAssociateExtattr | LabelCopy
    | FileMmap | FileLibraryValidation
    | ProcSignal | ProcFork | ProcExit
    | SocketConnect | SocketCreate | SocketListen
    | PtyGrant
    | ExecCheck | ExecComplete

  const LIFECYCLE: set<Slot> := {PolicyInit, PolicyInitbsd, PolicyDestroy}

  /** An int used as a bitmask: the numbers of the bits that are set. */
  type Mask = m: set<nat> | forall b :: b in m ==> b < 32

  // SEBSD_HOOK_ALL | SEBSD_HOOK_UNSAFE is 0x1fffff: bits 0 to 20.  SEBSD_HOOK_UNSAFE is 0x10: bit 4.
  const KNOWN_BITS: nat := 21
  const UNSAFE_BIT: nat := 4

  const EPERM: int := 1
  const EINVAL: int := 22
  const KERN_SUCCESS: int := 0
  const KERN_FAILURE: int := 5

  /** The number of the SEBSD_HOOK_ bit of a per-event slot; lifecycle slots have none. */
  function Bit(slot: Slot): (b: nat)
    requires slot !in LIFECYCLE
    ensures b < KNOWN_BITS
    ensures b == UNSAFE_BIT <==> slot == VnodeLookup
  {
    match slot
    case VnodeOpen => 0
    case VnodeCreate => 1
    case VnodeUnlink => 2
    case VnodeRename => 3
    case VnodeLookup => 4
    case VnodeReadlink => 5
    case VnodeGetattr => 6
    case VnodeSetattrlist => 7
    case LabelAssociateExtattr => 8
    case LabelCopy => 9
    case FileMmap => 10
    case FileLibraryValidation => 11
    case ProcSignal => 12
    case ProcFork => 13
    case ProcExit => 14
    case SocketConnect => 15
    case SocketCreate => 16
    case SocketListen => 17
    case PtyGrant => 18
    case ExecCheck => 19
    case ExecComplete => 20
  }

  predicate Names(mask: Mask, slot: Slot) {
    slot !in LIFECYCLE && Bit(slot) in mask
  }

  /** The per-event hooks a mask names. */
  function Decode(mask: Mask): set<Slot> {
    set slot: Slot | Names(mask, slot)
  }

  /** The kext's statics, whether its image is mapped, and the ops vector as the set of non-NULL slots. */
  datatype Kext = Kext(mapped: bool, registered: bool, mask: Mask, unsafe: int, ops: set<Slot>)

  /** The initialised data a fresh load starts from. */
  const FRESH: Kext := Kext(true, false, {}, 0, {})
  const BOOT: Kext := FRESH.(mapped := false)

  datatype Event =
    | Load(regError: int)
    | Unload(unregError: int)
    | WriteHooks(value: Mask, copyError: int, isWrite: bool)
    | WriteUnsafe(setting: int)
    | FuseBlow

  function Install(ops: set<Slot>, mask: Mask): set<Slot> {
    ops * LIFECYCLE + Decode(mask)
  }

  /** value & ~(SEBSD_HOOK_ALL | SEBSD_HOOK_UNSAFE) == 0 */
  predicate OnlyKnown(value: Mask) {
    forall b :: b in value ==> b < KNOWN_BITS
  }

  /** mask & ~SEBSD_HOOK_VNODE_LOOKUP */
  function Disarmed(mask: Mask): Mask {
    mask - {UNSAFE_BIT}
  }

  /** What the hooks handler answers. */
  function Verdict(k: Kext, value: Mask, copyError: int, isWrite: bool): int {
    if copyError != 0 || !isWrite then copyError
    else if !OnlyKnown(value) then EINVAL
    else if UNSAFE_BIT in value && k.unsafe == 0 then EPERM
    else 0
  }

  predicate Accepted(k: Kext, e: Event) {
    && e.WriteHooks? && k.mapped && k.registered
    && e.isWrite && Verdict(k, e.value, e.copyError, e.isWrite) == 0
  }

  /** The sysctls exist, and the hooks can be dispatched, only while the policy is registered. */
  function Next(k: Kext, e: Event): Kext {
    match e
    case Load(regError) =>
      if k.mapped then k
      else
        var installed := FRESH.(ops := Install(FRESH.ops + LIFECYCLE, FRESH.mask));
        if regError != 0 then installed.(mapped := false) else installed.(registered := true)
    case Unload(unregError) =>
      if !k.mapped then k
      else if !k.registered then k.(mapped := false)
      else
        var cleared := k.(ops := Install(k.ops, {}));
        if unregError != 0 then cleared else cleared.(registered := false, mapped := false)
    case WriteHooks(value, _, _) =>
      if Accepted(k, e) then k.(mask := value, ops := Install(k.ops, value)) else k
    case WriteUnsafe(setting) => if k.mapped && k.registered then k.(unsafe := setting) else k
    case FuseBlow => if k.mapped then k.(mask := Disarmed(k.mask), ops := k.ops - {VnodeLookup}) else k
  }

  function Run(events: seq<Event>): Kext {
    if events == [] then BOOT
    else Next(Run(events[..|events| - 1]), events[|events| - 1])
  }

  // ----- mask and slots -----

  function PerEvent(k: Kext): set<Slot> {
    k.ops - LIFECYCLE
  }

  /** The slots are exactly what the mask reports. */
  predicate Agrees(k: Kext) {
    PerEvent(k) == Decode(k.mask)
  }

  lemma {:induction false} InstallParts(ops: set<Slot>, mask: Mask)
    ensures Install(ops, mask) - LIFECYCLE == Decode(mask)
    ensures Install(ops, mask) * LIFECYCLE == ops * LIFECYCLE
    ensures Decode({}) == {}
  {}

  /** Dropping the lookup bit removes exactly the lookup hook from what the mask names. */
  lemma {:induction false} DropLookup(mask: Mask)
    ensures Decode(Disarmed(mask)) == Decode(mask) - {VnodeLookup}
  {}

  /** An unload attempt on the registered policy: the slots are cleared, the mask is not. */
  predicate Cuts(k: Kext, e: Event) {
    e.Unload? && k.mapped && k.registered
  }

  predicate Rewrites(k: Kext, e: Event) {
    Accepted(k, e) || (e.Load? && !k.mapped)
  }

  /** Some unload attempt has not been followed by an accepted write or a fresh load. */
  predicate Stale(events: seq<Event>) {
    events != [] &&
    var k := Run(events[..|events| - 1]);
    var e := events[|events| - 1];
    Cuts(k, e) || (Stale(events[..|events| - 1]) && !Rewrites(k, e))
  }

  lemma {:induction false} SlotsFollowMask(events: seq<Event>)
    ensures if Stale(events) then PerEvent(Run(events)) == {} else Agrees(Run(events))
  {
    if events == [] {
      InstallParts({}, {});
    } else {
      SlotsFollowMask(events[..|events| - 1]);
      SlotsStep(Run(events[..|events| - 1]), events[|events| - 1]);
    }
  }

  /** What one event does to the agreement of mask and slots. */
  lemma {:induction false} SlotsStep(k: Kext, e: Event)
    ensures Rewrites(k, e) ==> Agrees(Next(k, e))
    ensures Cuts(k, e) ==> PerEvent(Next(k, e)) == {}
    ensures !Cuts(k, e) && Agrees(k) ==> Agrees(Next(k, e))
    ensures !Rewrites(k, e) && PerEvent(k) == {} ==> PerEvent(Next(k, e)) == {}
  {
    match e
    case Load(_) => InstallParts(LIFECYCLE, {});
    case Unload(_) => InstallParts(k.ops, {});
    case WriteHooks(value, _, _) => InstallParts(k.ops, value);
    case WriteUnsafe(_) =>
    case FuseBlow => DropLookup(k.mask);
  }

  /** In every run the slots are the decoding of the mask, unless an unload attempt left a non-empty mask behind. */
  lemma {:induction false} AgreementExact(events: seq<Event>)
    ensures Agrees(Run(events)) <==> !Stale(events) || Decode(Run(events).mask) == {}
    ensures PerEvent(Run(events)) <= Decode(Run(events).mask)
  {
    SlotsFollowMask(events);
  }

  /** Without an unload attempt they always agree. */
  lemma {:induction false} AgreeUntilUnload(events: seq<Event>)
    requires forall e :: e in events ==> !e.Unload?
    ensures Agrees(Run(events))
  {
    NeverStale(events);
    SlotsFollowMask(events);
  }

  lemma {:induction false} NeverStale(events: seq<Event>)
    requires forall e :: e in events ==> !e.Unload?
    ensures !Stale(events)
  {
    if events != [] {
      assert events[|events| - 1] in events;
      NeverStale(events[..|events| - 1]);
    }
  }

  /** The disagreement is real: after a refused unload the mask still reports a hook that is no longer installed. */
  lemma {:induction false} MaskOutlivesSlots() returns (events: seq<Event>)
    ensures Run(events).mapped && Run(events).registered
    ensures VnodeOpen in Decode(Run(events).mask) && VnodeOpen !in Run(events).ops
  {
    var one: Mask := {0};
    var e1, e2, e3 := Load(0), WriteHooks(one, 0, true), Unload(1);
    events := [e1, e2, e3];
    assert events[..2] == [e1, e2] && [e1, e2][..1] == [e1] && [e1][..0] == [];
    var k1 := Next(BOOT, e1);
    var k2 := Next(k1, e2);
    assert Run([e1]) == k1;
    assert Run([e1, e2]) == k2;
    assert Run(events) == Next(k2, e3);
    assert Names(one, VnodeOpen);
    InstallParts(k2.ops, {});
  }

  /** The lifecycle slots are installed by a load and touched by nothing else. */
  lemma {:induction false} LifecycleKept(events: seq<Event>)
    ensures Run(events).mapped ==> LIFECYCLE <= Run(events).ops && Run(events).registered
    ensures forall e: Event :: Run(events).mapped && !e.Load? ==> Next(Run(events), e).ops * LIFECYCLE == LIFECYCLE
  {
    if events != [] {
      LifecycleKept(events[..|events| - 1]);
      LifecycleStep(Run(events[..|events| - 1]), events[|events| - 1]);
    }
    forall e: Event | Run(events).mapped && !e.Load?
      ensures Next(Run(events), e).ops * LIFECYCLE == LIFECYCLE
    {
      LifecycleStep(Run(events), e);
    }
  }

  lemma {:induction false} LifecycleStep(k: Kext, e: Event)
    ensures e.Load? && !k.mapped ==> LIFECYCLE <= Next(k, e).ops
    ensures !(e.Load? && !k.mapped) ==> Next(k, e).ops * LIFECYCLE == k.ops * LIFECYCLE
  {
    match e
    case Load(_) => InstallParts(LIFECYCLE, {});
    case Unload(_) => InstallParts(k.ops, {});
    case WriteHooks(value, _, _) => InstallParts(k.ops, value);
    case WriteUnsafe(_) =>
    case FuseBlow =>
  }

  // ----- the numbers of the hooks -----

  /** The slots of the bits 1 << 0 to 1 << 20, as sebsd.h numbers them. */
  const HOOKS: seq<Slot> := [
    VnodeOpen, VnodeCreate, VnodeUnlink, VnodeRename,
    VnodeLookup, VnodeReadlink, VnodeGetattr, VnodeSetattrlist,
    LabelAssociateExtattr, LabelCopy, FileMmap, FileLibraryValidation,
    ProcSignal, ProcFork, ProcExit, SocketConnect,
    SocketCreate, SocketListen, PtyGrant, ExecCheck,
    ExecComplete
  ]

  /** The per-event slots in `ops` are exactly the ones that the numbers in the mask stand for. */
  predicate ByNumber(ops: set<Slot>, mask: Mask) {
    forall n :: 0 <= n < 21 ==> (HOOKS[n] in ops <==> n in mask)
  }

  lemma {:induction false} HookNumber(n: nat)
    requires n < 21
    ensures HOOKS[n] !in {PolicyInit, PolicyInitbsd, PolicyDestroy} && Bit(HOOKS[n]) == n
  {}

  lemma {:induction false} SlotHasNumber(slot: Slot)
    requires slot !in {PolicyInit, PolicyInitbsd, PolicyDestroy}
    ensures slot in HOOKS
  {
    assert HOOKS[Bit(slot)] == slot;
  }

  /** For every mask: the slot of each number goes by its own bit, and the lifecycle slots by none. */
  lemma {:induction false} SlotsByNumber(ops: set<Slot>, mask: Mask)
    ensures ByNumber(Decode(mask), mask)
    ensures ByNumber(Install(ops, mask), mask)
    ensures forall s :: s in {PolicyInit, PolicyInitbsd, PolicyDestroy} ==> (s in Install(ops, mask) <==> s in ops)
    ensures forall s :: s !in {PolicyInit, PolicyInitbsd, PolicyDestroy} ==> s in HOOKS
  {
    forall n | 0 <= n < 21 ensures HOOKS[n] in Decode(mask) <==> n in mask {
      HookNumber(n);
      assert HOOKS[n] in Decode(mask) <==> Names(mask, HOOKS[n]);
    }
    forall n | 0 <= n < 21 ensures HOOKS[n] in Install(ops, mask) <==> n in mask {
      HookNumber(n);
    }
    forall s: Slot | s !in {PolicyInit, PolicyInitbsd, PolicyDestroy} ensures s in HOOKS {
      SlotHasNumber(s);
    }
  }

  // ----- the state as the events decide it -----

  /** A kind of event, which may depend on what came before it. */
  type Kind = (seq<Event>, Event) -> bool

  /** Event i is of kind `on`, and none of kind `off` has come since. */
  ghost predicate HoldsSince(on: Kind, off: Kind, events: seq<Event>, i: nat) {
    i < |events| && on(events[..i], events[i]) && forall j :: i < j < |events| ==> !off(events[..j], events[j])
  }

  ghost predicate Since(on: Kind, off: Kind, events: seq<Event>) {
    exists i: nat :: HoldsSince(on, off, events, i)
  }

  lemma {:induction false} SinceLast(on: Kind, off: Kind, events: seq<Event>)
    requires events != []
    ensures
      var before, e := events[..|events| - 1], events[|events| - 1];
      Since(on, off, events) <==> on(before, e) || (Since(on, off, before) && !off(before, e))
  {
    var n: nat := |events| - 1;
    var before, e := events[..n], events[n];
    assert forall i :: 0 <= i <= n ==> before[..i] == events[..i];
    if on(before, e) {
      assert HoldsSince(on, off, events, n);
    }
    if Since(on, off, before) && !off(before, e) {
      var i: nat :| HoldsSince(on, off, before, i);
      assert HoldsSince(on, off, events, i);
    }
    if Since(on, off, events) && !on(before, e) {
      var i: nat :| HoldsSince(on, off, events, i);
      assert HoldsSince(on, off, before, i);
    }
  }

  ghost predicate Loads(before: seq<Event>, e: Event) {
    e == Load(0)
  }

  ghost predicate Unloads(before: seq<Event>, e: Event) {
    e == Unload(0)
  }

  /** A load has succeeded, and no unload since. */
  ghost predicate Live(events: seq<Event>) {
    Since(Loads, Unloads, events)
  }

  ghost predicate FreshLoad(before: seq<Event>, e: Event) {
    e == Load(0) && !Live(before)
  }

  ghost predicate TurnsKey(before: seq<Event>, e: Event) {
    e.WriteUnsafe? && e.setting != 0 && Live(before)
  }

  ghost predicate ResetsKey(before: seq<Event>, e: Event) {
    FreshLoad(before, e) || (e.WriteUnsafe? && Live(before))
  }

  /** The second key: a nonzero value was written to `unsafe`, and no other value and no fresh load has come since. */
  ghost predicate Keyed(events: seq<Event>) {
    Since(TurnsKey, ResetsKey, events)
  }

  /** A write that reaches the handler, has no bit above 0x100000, and comes with the key if it carries 0x10. */
  ghost predicate LegalWrite(before: seq<Event>, e: Event) {
    && e.WriteHooks? && e.isWrite && e.copyError == 0 && Live(before)
    && (forall b :: b in e.value ==> b <= 20)
    && (4 in e.value ==> Keyed(before))
  }

  /** The policy is mapped and registered exactly while the events say so. */
  lemma {:induction false} LiveExact(events: seq<Event>)
    ensures Run(events).mapped == Run(events).registered == Live(events)
  {
    if events != [] {
      LiveExact(events[..|events| - 1]);
      SinceLast(Loads, Unloads, events);
    }
  }

  lemma {:induction false} KeyExact(events: seq<Event>)
    ensures Live(events) ==> (Run(events).unsafe != 0 <==> Keyed(events))
  {
    LiveExact(events);
    if events != [] {
      var before := events[..|events| - 1];
      KeyExact(before);
      LiveExact(before);
      SinceLast(Loads, Unloads, events);
      SinceLast(TurnsKey, ResetsKey, events);
    }
  }

  lemma {:induction false} AcceptedExact(events: seq<Event>, e: Event)
    ensures Accepted(Run(events), e) <==> LegalWrite(events, e)
  {
    LiveExact(events);
    KeyExact(events);
  }

  /** The answer to a read or write: 22 for unknown bits, 1 for 0x10 without the key, else what the copy answered. */
  lemma {:induction false} VerdictOnEvents(events: seq<Event>, value: Mask, copyError: int, isWrite: bool)
    requires Live(events)
    ensures Verdict(Run(events), value, copyError, isWrite) ==
      if copyError != 0 || !isWrite then copyError
      else if exists b :: b in value && b >= 21 then 22
      else if 4 in value && !Keyed(events) then 1
      else 0
  {
    KeyExact(events);
  }

  ghost predicate Sets(bit: nat, before: seq<Event>, e: Event) {
    LegalWrite(before, e) && bit in e.value
  }

  ghost predicate Drops(bit: nat, before: seq<Event>, e: Event) {
    || (LegalWrite(before, e) && bit !in e.value)
    || (e.Load? && !Live(before))
    || (e.FuseBlow? && Live(before) && bit == 4)
  }

  /** Over whole runs: the mask has exactly the bits of the last legal write, less 0x10 if the fuse has blown since. */
  lemma {:induction false} MaskExactly(events: seq<Event>, bit: nat)
    ensures bit in Run(events).mask <==> Since((b, e) => Sets(bit, b, e), (b, e) => Drops(bit, b, e), events)
  {
    if events != [] {
      var before, e := events[..|events| - 1], events[|events| - 1];
      MaskExactly(before, bit);
      LiveExact(before);
      AcceptedExact(before, e);
      SinceLast((b, e) => Sets(bit, b, e), (b, e) => Drops(bit, b, e), events);
    }
  }

  /** Any unload attempt clears a slot, even one that is then refused. */
  ghost predicate Removes(bit: nat, before: seq<Event>, e: Event) {
    (LegalWrite(before, e) && bit !in e.value) || e.Unload? || (e.FuseBlow? && bit == 4)
  }

  /** What one event does to one per-event slot. */
  lemma {:induction false} SlotStep(k: Kext, e: Event, slot: Slot)
    requires slot !in LIFECYCLE && k.mapped == k.registered && (!k.mapped ==> slot !in k.ops)
    ensures slot in Next(k, e).ops <==>
      if Accepted(k, e) then Bit(slot) in e.value
      else slot in k.ops && !e.Unload? && !(e.FuseBlow? && slot == VnodeLookup)
    ensures !Next(k, e).mapped ==> slot !in Next(k, e).ops
  {
    match e
    case Load(_) => InstallParts(LIFECYCLE, {});
    case Unload(_) => InstallParts(k.ops, {});
    case WriteHooks(value, _, _) => assert slot in Install(k.ops, value) <==> Names(value, slot);
    case WriteUnsafe(_) =>
    case FuseBlow =>
  }

  /** Over whole runs: the slot of a bit is non-NULL exactly if a legal write set it and nothing removed it since. */
  lemma {:induction false} HooksExactly(events: seq<Event>, bit: nat)
    requires bit < 21
    ensures HOOKS[bit] in Run(events).ops <==> Since((b, e) => Sets(bit, b, e), (b, e) => Removes(bit, b, e), events)
    ensures !Live(events) ==> HOOKS[bit] !in Run(events).ops
  {
    LiveExact(events);
    HookNumber(bit);
    if events != [] {
      var before, e := events[..|events| - 1], events[|events| - 1];
      HooksExactly(before, bit);
      LiveExact(before);
      AcceptedExact(before, e);
      SlotStep(Run(before), e, HOOKS[bit]);
      SinceLast((b, e) => Sets(bit, b, e), (b, e) => Removes(bit, b, e), events);
    }
  }

  // ----- the quarantine -----

  /** A write of 0x10, and of known bits only, with the key turned. */
  ghost predicate Arms(before: seq<Event>, e: Event) {
    && e.WriteHooks? && e.isWrite && e.copyError == 0 && Live(before)
    && (forall b :: b in e.value ==> b <= 20) && 4 in e.value
    && Keyed(before)
  }

  ghost predicate Disarms(before: seq<Event>, e: Event) {
    e.FuseBlow? || e.Unload? || (LegalWrite(before, e) && 4 !in e.value)
  }

  /**
   Over whole runs, from the events alone: the lookup slot is non-NULL if and
   only if a write carried 0x10 after a nonzero value had been written to
   `unsafe`, with no other write to `unsafe` and no fresh load in between, and
   no fuse blow, unload attempt or clearing write has come since.
   */
  lemma {:induction false} Quarantine(events: seq<Event>)
    ensures VnodeLookup in Run(events).ops <==> Since(Arms, Disarms, events)
  {
    if events != [] {
      var before, e := events[..|events| - 1], events[|events| - 1];
      Quarantine(before);
      HooksExactly(before, 4);
      LiveExact(before);
      AcceptedExact(before, e);
      SlotStep(Run(before), e, VnodeLookup);
      SinceLast(Arms, Disarms, events);
    }
  }

  /** Reads, failed copies and rejected writes, in any number, leave mask, slots and keys alone. */
  lemma {:induction false} RejectedWritesDoNothing(events: seq<Event>, rejected: seq<Event>)
    requires forall i :: 0 <= i < |rejected| ==> rejected[i].WriteHooks? && !Accepted(Run(events), rejected[i])
    ensures Run(events + rejected) == Run(events)
  {
    if rejected == [] {
      assert events + rejected == events;
    } else {
      var before := rejected[..|rejected| - 1];
      RejectedWritesDoNothing(events, before);
      assert (events + rejected)[..|events + rejected| - 1] == events + before;
    }
  }

  /** A write gets EPERM exactly when it names the lookup hook and no unknown bit, and the key is missing. */
  lemma {:induction false} VerdictExact(k: Kext, value: Mask)
    ensures Verdict(k, value, 0, true) == EINVAL <==> exists b :: b in value && b >= KNOWN_BITS
    ensures Verdict(k, value, 0, true) == EPERM <==> OnlyKnown(value) && VnodeLookup in Decode(value) && k.unsafe == 0
  {
    assert VnodeLookup in Decode(value) <==> Names(value, VnodeLookup);
  }

  // ----- the C functions -----

  /** The slots with a bit below k follow the mask, the others are as they were. */
  function Patched(was: set<Slot>, mask: Mask, k: nat): set<Slot> {
    set s: Slot | if s !in LIFECYCLE && Bit(s) < k then Bit(s) in mask else s in was
  }

  lemma {:induction false} PatchedAll(was: set<Slot>, mask: Mask)
    ensures Patched(was, mask, 0) == was
    ensures Patched(was, mask, KNOWN_BITS) == Install(was, mask)
  {}

  lemma {:induction false} BitInjective(s: Slot, t: Slot)
    requires s !in LIFECYCLE && t !in LIFECYCLE && Bit(s) == Bit(t)
    ensures s == t
  {}

  /** The statics of kext/main.c and its entry points. */
  class Module {
    var mapped: bool
    var registered: bool
    var hooksEnabled: Mask
    var unsafeEnabled: int
    var ops: set<Slot>
    var sysctls: bool

    constructor ()
      ensures View() == BOOT && !sysctls
    {
      mapped, registered, hooksEnabled, unsafeEnabled, ops, sysctls := false, false, {}, 0, {}, false;
    }

    function View(): Kext
      reads this
    {
      Kext(mapped, registered, hooksEnabled, unsafeEnabled, ops)
    }

    /** The sysctls are linked in exactly while the policy is registered. */
    predicate Valid()
      reads this
    {
      sysctls == registered && (registered ==> mapped)
    }

    /** One line of sebsd_install_hooks: the slot gets its function or NULL.  The lines go bit by bit. */
    method Assign(mask: Mask, bit: nat, slot: Slot, ghost was: set<Slot>)
      requires slot !in LIFECYCLE && bit == Bit(slot)
      requires ops == Patched(was, mask, bit)
      modifies this`ops
      ensures ops == Patched(was, mask, bit + 1)
    {
      if bit in mask {
        ops := ops + {slot};
      } else {
        ops := ops - {slot};
      }
      forall s | s !in LIFECYCLE && Bit(s) == bit ensures s == slot {
        BitInjective(s, slot);
      }
    }

    /** sebsd_install_lifecycle */
    method InstallLifecycle()
      modifies this`ops
      ensures ops == old(ops) + LIFECYCLE
    {
      ops := ops + {PolicyInit};
      ops := ops + {PolicyInitbsd};
      ops := ops + {PolicyDestroy};
    }

    /** sebsd_install_hooks, in the groups its text has */
    method InstallHooks(mask: Mask)
      modifies this`ops
      ensures ops == Install(old(ops), mask)
      ensures ByNumber(ops, mask)
      ensures forall s :: s in {PolicyInit, PolicyInitbsd, PolicyDestroy} ==> (s in ops <==> s in old(ops))
    {
      ghost var was := ops;
      PatchedAll(was, mask);
      SlotsByNumber(was, mask);
      InstallVnodeChecks(mask, was);
      InstallLabelAndFileHooks(mask, was);
      InstallProcAndSocketHooks(mask, was);
      InstallPtyAndExecHooks(mask, was);
    }

    /** The vnode checks. */
    method InstallVnodeChecks(mask: Mask, ghost was: set<Slot>)
      requires ops == Patched(was, mask, 0)
      modifies this`ops
      ensures ops == Patched(was, mask, 8)
    {
      Assign(mask, 0, VnodeOpen, was);
      Assign(mask, 1, VnodeCreate, was);
      Assign(mask, 2, VnodeUnlink, was);
      Assign(mask, 3, VnodeRename, was);
      Assign(mask, 4, VnodeLookup, was);
      Assign(mask, 5, VnodeReadlink, was);
      Assign(mask, 6, VnodeGetattr, was);
      Assign(mask, 7, VnodeSetattrlist, was);
    }

    /** The vnode label and file hooks. */
    method InstallLabelAndFileHooks(mask: Mask, ghost was: set<Slot>)
      requires ops == Patched(was, mask, 8)
      modifies this`ops
      ensures ops == Patched(was, mask, 12)
    {
      Assign(mask, 8, LabelAssociateExtattr, was);
      Assign(mask, 9, LabelCopy, was);
      Assign(mask, 10, FileMmap, was);
      Assign(mask, 11, FileLibraryValidation, was);
    }

    /** The process and socket hooks. */
    method InstallProcAndSocketHooks(mask: Mask, ghost was: set<Slot>)
      requires ops == Patched(was, mask, 12)
      modifies this`ops
      ensures ops == Patched(was, mask, 18)
    {
      Assign(mask, 12, ProcSignal, was);
      Assign(mask, 13, ProcFork, was);
      Assign(mask, 14, ProcExit, was);
      Assign(mask, 15, SocketConnect, was);
      Assign(mask, 16, SocketCreate, was);
      Assign(mask, 17, SocketListen, was);
    }

    /** The terminal and exec hooks. */
    method InstallPtyAndExecHooks(mask: Mask, ghost was: set<Slot>)
      requires ops == Patched(was, mask, 18)
      modifies this`ops
      ensures ops == Patched(was, mask, 21)
    {
      Assign(mask, 18, PtyGrant, was);
      Assign(mask, 19, ExecCheck, was);
      Assign(mask, 20, ExecComplete, was);
    }

    /** sebsd_hooks_blow_lookup_fuse */
    method BlowLookupFuse()
      requires mapped
      modifies this`ops, this`hooksEnabled
      ensures View() == Next(old(View()), FuseBlow)
    {
      ops := ops - {VnodeLookup};
      hooksEnabled := hooksEnabled - {UNSAFE_BIT};
    }

    /** sebsd_sysctl_hooks_handler: `copyError` is what sysctl_handle_int answers, `value` what it copied in. */
    method HooksHandler(value: Mask, copyError: int, isWrite: bool) returns (error: int)
      requires Valid() && sysctls
      modifies this`ops, this`hooksEnabled
      ensures error == Verdict(old(View()), value, copyError, isWrite)
      ensures View() == Next(old(View()), WriteHooks(value, copyError, isWrite))
    {
      if copyError != 0 || !isWrite {
        return copyError;
      }
      if !OnlyKnown(value) {
        return EINVAL;
      }
      if UNSAFE_BIT in value && unsafeEnabled == 0 {
        return EPERM;
      }
      hooksEnabled := value;
      InstallHooks(value);
      return 0;
    }

    /** sebsd_mac_policy_register, on the image the kernel has just mapped */
    method Register(regError: int) returns (status: int)
      requires Valid() && mapped && !registered
      modifies this`ops, this`sysctls, this`registered
      ensures Valid() && status == if regError != 0 then KERN_FAILURE else KERN_SUCCESS
      ensures View() ==
        old(View()).(registered := regError == 0, ops := Install(old(ops) + LIFECYCLE, old(hooksEnabled)))
    {
      InstallLifecycle();
      InstallHooks(hooksEnabled);
      sysctls := true;
      if regError != 0 {
        sysctls := false;
        return KERN_FAILURE;
      }
      registered := true;
      return KERN_SUCCESS;
    }

    /** sebsd_mac_policy_unregister */
    method Unregister(unregError: int) returns (status: int)
      requires Valid() && mapped
      modifies this`ops, this`sysctls, this`registered
      ensures Valid() && status == if old(registered) && unregError != 0 then KERN_FAILURE else KERN_SUCCESS
      ensures View() ==
        if !old(registered) then old(View())
        else old(View()).(registered := unregError != 0, ops := Install(old(ops), {}))
    {
      if !registered {
        return KERN_SUCCESS;
      }
      InstallHooks({});
      if unregError != 0 {
        return KERN_FAILURE;
      }
      registered := false;
      sysctls := false;
      return KERN_SUCCESS;
    }

    /** What reaches the module from outside: the kernel's loader, operators, and the hook itself. */
    method Deliver(e: Event)
      requires Valid()
      modifies this
      ensures Valid() && View() == Next(old(View()), e)
    {
      match e {
        case Load(regError) =>
          if !mapped {
            mapped, registered, hooksEnabled, unsafeEnabled, ops, sysctls := true, false, {}, 0, {}, false;
            var status := Register(regError);
            mapped := status == KERN_SUCCESS;
          }
        case Unload(unregError) =>
          if mapped {
            var status := Unregister(unregError);
            mapped := status != KERN_SUCCESS;
          }
        case WriteHooks(value, copyError, isWrite) =>
          if sysctls {
            var error := HooksHandler(value, copyError, isWrite);
          }
        case WriteUnsafe(setting) =>
          if sysctls {
            unsafeEnabled := setting;
          }
        case FuseBlow =>
          if mapped {
            BlowLookupFuse();
          }
      }
    }
  }

  /** Every sequence of events drives the C functions through the run that the theorems are about. */
  method Execute(events: seq<Event>) returns (m: Module)
    ensures fresh(m) && m.Valid() && m.View() == Run(events)
  {
    m := new Module();
    var i := 0;
    assert events[..0] == [];
    while i < |events|
      invariant 0 <= i <= |events|
      invariant fresh(m) && m.Valid() && m.View() == Run(events[..i])
    {
      m.Deliver(events[i]);
      assert events[..i + 1][..i] == events[..i];
      i := i + 1;
    }
    assert events[..i] == events;
  }
}
