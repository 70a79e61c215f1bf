# SEDarwin: verified model of the policy kext's hard parts

A Dafny 4.11 project that models five pieces of SEDarwin and proves what their
comments promise, or says exactly when they do not hold. `dafny verify
dfyconfig.toml` checks everything.

| files | what they model |
|---|---|
| `lookup_machine.dfy`, `lookup_fuse.dfy`, `lookup_reentry.dfy`, `lookup_depth.dfy`, `lookup_ticket.dfy`, `lookup_hook.dfy` | the self-disarming lookup hook of `kext/vnode.c`, as an interleaving machine and as the C function |
| `sbuf_size.dfy`, `sbuf_text.dfy`, `sbuf.dfy` | the growable string buffer of `lib/libkern-bsd/sbuf.c` |
| `hook_control.dfy` | the hook mask and the ops vector of `kext/main.c` |
| `macho_format.dfy`, `macho.dfy` | the Mach-O walker of `kext/MachO.c` |
| `csflags.dfy` | the code-signing flag renderer of `kext/spawn.c` |
| `ctypes.dfy` | limits of the C types |

## How it is modelled

**The lookup hook.** One transition is one access to a shared variable, under
sequential consistency. A thread owns a stack of activations, so a dispatch
that arrives while its thread is already in the hook is an ordinary transition,
possible at any point. The framework's load of the slot is the first step of a
dispatch; a NULL slot skips it. The `&=` on the mask is a load and a store. A
schedule is any finite sequence of labels, so a lemma over all schedules is a
statement about every interleaving of any number of threads. `unsigned int`
counters wrap. `LookupHook.Hook` is the C function on an object with mutable
fields; `DispatchIsARun` shows that it is what the machine does when nothing
interleaves, and `FuseBlowIsOneEvent` that interleaved fuse blows amount to the
single event that the hook-control model takes them for.

**The string buffer.** `Sbufs.Sbuf` is the struct with its array, changed in
place, over a heap that tracks live allocations: freeing needs a live
allocation, so a verified caller cannot free twice or free a caller's buffer.
Each method is proved against a function on a plain byte sequence with a size
and flags (`SbufText`), and the statements about whole runs are made there;
`Sbufs.Execute` carries them to the object. PAGE_SIZE is a parameter, any power
of two from 16 to 2^30. `mem` arguments say whether an allocation succeeds,
`Formatted` is what vsnprintf answers, and the sysctl copy-in and the
framework's register and unregister calls are arguments too.

**Hook control.** Loads, unload attempts, operator writes and fuse blows are
atomic events. A load starts from the image's initial data, since the kernel
maps it afresh. Bitmasks are sets of bit numbers.

**Mach-O.** Words are read little-endian whatever the magic says, and only
`nfat_arch` is converted, as in the code. The constants are those of the
published Mach-O format; `<mach-o/loader.h>`, `<mach-o/fat.h>` and
`<kern/cs_blobs.h>` are not part of the repository.

## Where the comments and the code disagree

* `kext/vnode.c:148` says that a fuse of 1 allows exactly one dispatch. Up to
  fuse - 1 + p dispatches get in when p activations are alive at once, and
  never more (`Exposure`, `ExposureIsReached`): the fuse is a limit on
  dispatches if and only if there is never more than one activation at once
  (`FuseIsDispatchLimit`). A single thread that is re-entered is enough to pass
  it. For P threads that do not re-enter the bound is fuse - 1 + P, and it is
  reached (`OvershootBound`, `OvershootIsReached`, `FuseLimitsOneThread`).
* `kext/vnode.c:201-203` says that a depth above 1 can come from re-entry on one
  thread. A detected re-entry never adds to `depth`, so a thread on its own
  keeps `depth` and `maxdepth` at 1 at most however it is nested (`SoloDepth`):
  a depth above 1 is possible if and only if there are two threads
  (`DeepNeedsTwoThreads`).
* `kext/main.c:225` calls `maxdepth` the peak of simultaneous entries. The
  compare and the store are two steps, so a late store can lower it
  (`MaxDepthLost`). Once all updates are complete it is the peak if and only if
  some step stored the peak while no smaller store was pending
  (`MaxDepthIsPeak`), and it is right throughout a run if and only if no store
  overtook a smaller one (`MaxDepthExact`). It is never above the peak.
* `kext/main.c:181-182` says that the mask reports what is installed. A refused
  unload clears the slots but not the mask (`kext/main.c:427`);
  `AgreementExact` says when the two agree.
* `sbuf_new` accepts a caller's buffer of length 0 (`lib/libkern-bsd/sbuf.c:204-208`),
  which makes the capacity wrap; the result is valid if and only if the length
  is positive (`Sbufs.Sbuf.New`).
* SBUF_FINISHED survives `sbuf_setpos` and the appends, so it does not mean that
  the text is NUL-terminated (`FinishedButNotTerminated`,
  `AppendUncoversLeftovers`). `SbufText.KeepsNul` says for each operation when
  the NUL survives: finish and an accepted printf always write one, and most
  others need the buffer to hold one already where the text is going to end.
  The condition is exact (`NulKept`, `TerminatedExactly`), and the buffer as
  finish left it decides whether the text is terminated after any operations
  that do not grow it (`FinishAndRun`).

## Model

| member | source | states |
|---|---|---|
| LookupFuse.Exposure | kext/vnode.c:238-272 | In every interleaving with arbitrary re-entry at most fuse - 1 + p dispatches ever enter the hook, p being the largest number of simultaneous activations (while fuse - 1 + p fits an unsigned int); the ticket counter is accounted for exactly while the slot is armed |
| LookupFuse.OvershootBound | kext/vnode.c:259-267 | P threads without re-entry: count never exceeds the entries, nor fuse - 1 + P |
| LookupFuse.OvershootIsReached | kext/vnode.c:143-151 | That bound is exact too: for every fuse and P some schedule without re-entry enters, and draws a ticket, fuse - 1 + P times |
| LookupFuse.ExposureIsReached | kext/vnode.c:143-151 | Exposure's bound is exact: for every fuse and every p, one re-entered thread reaches fuse - 1 + p entries with at most p activations at once |
| LookupFuse.FuseIsDispatchLimit | kext/vnode.c:143-151 | Over all schedules with at most p activations at once, re-entered or not, a positive fuse limits the entries to that many if and only if p <= 1 |
| LookupFuse.FuseLimitsOneThread | kext/vnode.c:143-151 | Over all schedules without re-entry, a positive fuse limits the entries to that many if and only if there is at most one thread |
| LookupFuse.FuseBlown | kext/vnode.c:265-267 | Once count has reached the fuse and nobody is between its ticket and its slot store, the slot is NULL |
| LookupFuse.SlotPulledForAReason | kext/vnode.c:247-267 | The slot is NULL only if re-entry was seen or a positive fuse was reached |
| LookupTicket.FuseAnswersTicket | kext/vnode.c:259-267 | In every run the fuse is tested on the ticket that the activation's own add left, read from the run: one whose ticket has reached a positive fuse, and no other, stores the slot on the fuse path, and does so before its depth sub; one whose ticket has not never touches slot or mask |
| LookupTicket.StoresWhatItTook | kext/vnode.c:254-257 | The depth compared with and stored to maxdepth is the one the activation's own add left, and the mask it stores is the one its own load found, without the lookup bit |
| LookupTicket.SharedExactly | kext/vnode.c:247-267 | count is the number of adds of the run modulo 2^32, the slot is NULL exactly once a step has cleared it, the flag is set exactly once a step has set it |
| LookupFuse.MaskFollowsSlot | kext/main.c:179-189 | Interleaved mask updates never disturb another bit or drop the bit early, and agree with the slot once the hook is empty |
| LookupFuse.Drain | kext/vnode.c:157-160 | Clearing one's own slot is safe: nothing enters any more, some thread can always step until the hook is empty, and it is empty after at most twelve steps per activation in flight |
| LookupReentry.NoFalsePositive | kext/vnode.c:194-199 | Whoever is about to set `recursed` has an outer activation between its owner store and its owner clear |
| LookupReentry.RecursedIsEvidence | kext/vnode.c:194-199 | If the flag is set, some step of the run stored it while really nested |
| LookupReentry.NoReentryNoFlag | kext/vnode.c:194-199 | Threads that never re-enter never raise the flag |
| LookupReentry.ReentryDetected | kext/vnode.c:247-270 | From an activation's owner store until its owner clear, if no other thread writes owner: owner stays the thread's, and whenever it is back from a re-entry, which may come at any point of the window, the flag is set and the slot is NULL |
| LookupReentry.ReentryIsInert | kext/vnode.c:247-252 | No step of such a re-entry changes owner, depth, count, maxdepth or the outer activation |
| LookupReentry.DetectedExactly | kext/vnode.c:247-253 | In every interleaving the owner test fires if and only if the last write of owner was the same thread's store |
| LookupReentry.MissNeedsInterference | kext/vnode.c:194-196 | A re-entry inside an open owner window goes undetected only if another thread wrote owner inside that window |
| LookupReentry.ReentryMissed | kext/vnode.c:194-196 | A false negative: another thread's owner store hides a re-entry, both activations count in depth, flag and slot unchanged |
| LookupReentry.SoloDetection | kext/vnode.c:247-252 | For a thread on its own the detector fires if and only if an outer activation is in its owner window |
| LookupDepth.DepthExact | kext/vnode.c:254-269 | depth is the number of activations between add and sub, modulo 2^32, and 0 when nobody is inside |
| LookupDepth.MaxDepthSound | kext/vnode.c:254-257 | maxdepth never exceeds the true peak, in every interleaving |
| LookupDepth.RecordedIsPeak | kext/vnode.c:254-257 | With no update under way, the largest depth whose compare-and-store completed is the true peak |
| LookupDepth.MaxDepthIsPeak | kext/vnode.c:255-257 | A run ends with the peak in maxdepth and no smaller store pending if and only if some step stored the peak while no smaller store was pending; with no update under way that decides whether maxdepth is the peak |
| LookupDepth.MaxDepthExact | kext/vnode.c:255-257 | maxdepth is the largest completed depth in every state of a run, with no smaller store left pending, if and only if no store overtakes a smaller one |
| LookupDepth.NeverLoweredIsPeak | kext/vnode.c:255-257 | No lowering store and no update under way: maxdepth is the peak |
| LookupDepth.OrderedStoresNeverLower | kext/vnode.c:255-257 | Stores that overtake no smaller one never lower maxdepth, whatever else falls between compare and store |
| LookupDepth.AtomicUpdatesNeverLower | kext/vnode.c:255-257 | If every store follows its compare at once, nothing is overtaken, and with no update under way maxdepth is the peak |
| LookupDepth.MaxDepthLost | kext/vnode.c:255-257 | Two threads, all updates complete, peak 2, maxdepth 1 |
| LookupDepth.SoloDepth | kext/vnode.c:201-203 | One thread, any nesting: depth and maxdepth stay at most 1 |
| LookupDepth.DeepNeedsTwoThreads | kext/vnode.c:201-203 | No schedule takes depth past 1 if and only if there is at most one thread |
| LookupHook.Hook.CheckLookup | kext/vnode.c:238-272 | The whole new state of an uninterrupted dispatch, on the detected and the ordinary path |
| LookupHook.Hook.BlowLookupFuse | kext/main.c:184-189 | Clears exactly the lookup slot and the lookup bit |
| LookupHook.DispatchIsARun | kext/vnode.c:238-272 | The interleaving machine reaches the C function's state when nothing interleaves, on top of whatever the thread was doing, so for nested dispatches too |
| LookupHook.OutsideNeverDetects | kext/vnode.c:247-252 | The detected path is reached by nested dispatches only |
| LookupHook.FuseBlowIsOneEvent | kext/main.c:184-189 | Once the hook is empty, any interleaving has left slot and mask as they were or as one FuseBlow event of HookControl leaves them |
| SbufSize.ExtendSize | lib/libkern-bsd/sbuf.c:125-151 | Doubling loop and page rounding return the least rung that is large enough; failure exactly beyond MaxSize, size then unchanged |
| SbufSize.CeilIsLeast | lib/libkern-bsd/sbuf.c:135-143 | The computed size is a rung, at least the target, and below every other such rung |
| SbufSize.CeilMonotone | lib/libkern-bsd/sbuf.c:125-151 | Rounding up is monotone |
| SbufSize.CeilIdempotent | lib/libkern-bsd/sbuf.c:125-151 | Rounding up is idempotent |
| SbufSize.RungBelowPage | lib/libkern-bsd/sbuf.c:83-85 | Up to a page the rungs are the powers of two from 16 |
| SbufSize.RungPages | lib/libkern-bsd/sbuf.c:140-143 | From a page on they are the multiples of the page |
| SbufSize.MaskRoundsUp | lib/libkern-bsd/sbuf.c:142 | The mask arithmetic, bit by bit, is rounding up to a page |
| SbufSize.CeilFits | lib/libkern-bsd/sbuf.c:131-147 | The rounded size fits an int if and only if the target is at most MaxSize |
| SbufSize.MaxSizeInPages | lib/libkern-bsd/sbuf.c:145-147 | MaxSize is PAGE_SIZE * (INT_MAX / PAGE_SIZE) |
| SbufText.DoWellFormed | lib/libkern-bsd/sbuf.c:236-677 | Every operation keeps 0 <= length < size <= INT_MAX, never shrinks the buffer and keeps its kind |
| SbufText.SizeIsPathIndependent | lib/libkern-bsd/sbuf.c:295-381 | Over any run, failures included, the size is a function of the initial size and the largest demand granted |
| SbufText.SplitAppend | lib/libkern-bsd/sbuf.c:402-609 | However the bytes are split over a run of bcat, cat, printf and non-NUL putc: if all pieces succeed, one append of all the bytes does, with the same content, size and flags; if no allocation fails they succeed exactly when it does |
| SbufText.PutcAppendsLowByte | lib/libkern-bsd/sbuf.c:590-609 | putc of any int appends its low byte, as bcat would; if that is 0 the text is unchanged, and success, failure and size are those of appending a byte |
| SbufText.CopiesAreClearAndAppend | lib/libkern-bsd/sbuf.c:272-490 | A clear leaves nothing but size and kind; bcpy and cpy are a clear followed by bcat and cat |
| SbufText.SetPosUndoesAppend | lib/libkern-bsd/sbuf.c:251-260 | After an append setpos cuts back to any length in between; a position outside the text is refused and changes nothing |
| SbufText.TrimUndoesSpace | lib/libkern-bsd/sbuf.c:611-641 | Trim undoes the appending of any spaces, newlines and tabs to a text that ends in none; on an overflowed sbuf it fails and does nothing |
| SbufText.ReallocationBound | lib/libkern-bsd/sbuf.c:295-332 | An AUTOEXTEND heap sbuf that has reached a page has been reallocated at most log2(PAGE_SIZE / 16) + size / PAGE_SIZE - 1 times |
| SbufText.FailedAppend | lib/libkern-bsd/sbuf.c:402-444 | A failed append changes nothing but the overflow flag |
| SbufText.OverflowSticks | lib/libkern-bsd/sbuf.c:402-411 | Once overflowed, every append fails until clear, finish, bcpy or cpy |
| SbufText.NulKept | lib/libkern-bsd/sbuf.c:251-677 | For each operation the condition, checkable beforehand on text, buffer and operation, under which it leaves a NUL-terminated sbuf terminated; otherwise the byte after the text is known not to be NUL, or is new memory or what a formatting error left |
| SbufText.TerminatedExactly | lib/libkern-bsd/sbuf.c:251-677 | Over any run after finish the text is known to be terminated throughout if and only if every operation keeps the NUL |
| SbufText.DecidedInPlace | lib/libkern-bsd/sbuf.c:251-677 | As long as an sbuf does not grow and no formatting fails, its buffer and the operations decide every byte of it |
| SbufText.AppendsStayTerminated | lib/libkern-bsd/sbuf.c:216-233 | In a zero-filled buffer accepted appends leave the text terminated without finish, until it grows |
| Sbufs.Sbuf.New | lib/libkern-bsd/sbuf.c:182-234 | When it succeeds, the resulting fields, what it owns, its own buffer zero-filled, nothing leaked on failure, and valid if and only if a supplied buffer has at least one byte |
| Sbufs.UserFlags | lib/libkern-bsd/sbuf.c:182-199 | The legal flags are exactly those up to 0xffff, and bit 0 is SBUF_AUTOEXTEND |
| Sbufs.Sbuf.Extend | lib/libkern-bsd/sbuf.c:295-332 | Succeeds exactly when allowed, in range and memory is to be had; content kept, old heap buffer freed, caller's buffer not |
| Sbufs.Sbuf.EnsureCapacity | lib/libkern-bsd/sbuf.c:370-381 | Grants exactly the demands that fit or can be made to fit |
| Sbufs.Sbuf.Bcat | lib/libkern-bsd/sbuf.c:402-418 | Appends, or sets the overflow flag and changes nothing else |
| Sbufs.Sbuf.Bcpy | lib/libkern-bsd/sbuf.c:439-444 | Replaces the text and resets both flags |
| Sbufs.Sbuf.Cat | lib/libkern-bsd/sbuf.c:463-467 | Appends the bytes up to the first NUL |
| Sbufs.Sbuf.Cpy | lib/libkern-bsd/sbuf.c:485-490 | Replaces the text by the bytes up to the first NUL |
| Sbufs.Sbuf.Vprintf | lib/libkern-bsd/sbuf.c:511-544 | At most two passes, and exactly the effect of appending the formatted text; on success the text is terminated, and a refused call leaves as much of the formatted text behind it as fits, and a NUL in the last byte |
| Sbufs.Sbuf.Putc | lib/libkern-bsd/sbuf.c:590-609 | Appends the converted char; a NUL is dropped but still demands a byte |
| Sbufs.Sbuf.Trim | lib/libkern-bsd/sbuf.c:629-641 | Drops exactly the trailing whitespace |
| Sbufs.Sbuf.SetPos | lib/libkern-bsd/sbuf.c:251-260 | Cuts the text at a position inside it and refuses any other |
| Sbufs.Sbuf.Clear | lib/libkern-bsd/sbuf.c:272-278 | Empties the text and resets both flags |
| Sbufs.Sbuf.Finish | lib/libkern-bsd/sbuf.c:670-677 | Terminates the text, sets FINISHED, resets the overflow flag |
| Sbufs.Sbuf.Delete | lib/libkern-bsd/sbuf.c:98-109 | Frees exactly what the sbuf owns |
| Sbufs.Call | lib/libkern-bsd/sbuf.c:251-677 | One operation of any kind: its effect on text and heap; only finish and printf write past the text, and every other retained byte stays what it was, across a reallocation too |
| Sbufs.Execute | lib/libkern-bsd/sbuf.c:251-677 | Any sequence of operations on the object refines the run of the text, keeps it valid and everybody else's allocations untouched, allocates once per change of size, and leaves the predicted bytes in the whole buffer |
| Sbufs.FinishAndRun | lib/libkern-bsd/sbuf.c:670-677 | After finish and any operations: terminated if every operation keeps the NUL; and if the sbuf has not grown and no formatting failed, terminated if and only if the run on the bytes that finish left says so |
| Sbufs.Lifetime | lib/libkern-bsd/sbuf.c:98-234 | New, any operations, delete, whatever fails: the live allocations are as before |
| Sbufs.FinishedButNotTerminated | lib/libkern-bsd/sbuf.c:251-260 | A finished sbuf that setpos leaves without a NUL |
| Sbufs.AppendUncoversLeftovers | lib/libkern-bsd/sbuf.c:590-609 | A finished and terminated sbuf that an append leaves without one |
| HookControl.AgreementExact | kext/main.c:136-189 | In every run slots equal the decoding of the mask unless an unload attempt left a mask behind that names a hook; inclusion holds always |
| HookControl.AgreeUntilUnload | kext/main.c:160-189 | Without unload attempts mask and slots always agree |
| HookControl.MaskOutlivesSlots | kext/main.c:427-437 | After a refused unload the mask reports a hook that is gone |
| HookControl.LifecycleKept | kext/main.c:282-296 | The lifecycle slots are there while the module is mapped and no mask operation touches them |
| HookControl.LiveExact | kext/main.c:372-443 | The policy is mapped and registered exactly if a load has succeeded and no unload since |
| HookControl.KeyExact | kext/main.c:85-93 | While it is, the second key is turned exactly if a nonzero value was written to `unsafe`, with no other value and no fresh load since |
| HookControl.MaskExactly | kext/main.c:136-189 | Every bit of the mask, from the events alone: set by the last legal write, dropped only by the next, by a fresh load, or, for 0x10, by a fuse blow |
| HookControl.HooksExactly | kext/main.c:136-443 | Every per-event slot, from the events alone: non-NULL exactly if a legal write has set its bit and no legal write without it, unload attempt or, for lookup, fuse blow has come since |
| HookControl.Quarantine | kext/main.c:150-161 | From the events alone: the lookup slot is non-NULL if and only if a write carried 0x10 after a nonzero value had been written to `unsafe`, with no other such write and no fresh load in between, and no fuse blow, unload attempt or clearing write has come since |
| HookControl.VerdictOnEvents | kext/main.c:146-164 | The answer to every read and write in every run: the copy's error, 22 for unknown bits, 1 for 0x10 without the key, else 0 |
| HookControl.SlotsByNumber | include/sedarwin/sebsd.h:41-61 | For every mask, each of the 21 per-event slots goes by its own bit as sebsd.h numbers them, and the three lifecycle slots by none |
| HookControl.RejectedWritesDoNothing | kext/main.c:146-158 | Any number of reads, failed copies and rejected writes change nothing |
| HookControl.VerdictExact | kext/main.c:150-158 | EINVAL exactly for unknown bits, EPERM exactly for the lookup bit among known bits without the key |
| HookControl.Module.InstallHooks | kext/main.c:313-343 | Each per-event slot is installed exactly if its own number in sebsd.h is in the mask, the lifecycle slots are kept |
| HookControl.Module.InstallLifecycle | kext/main.c:290-296 | Adds exactly the three lifecycle slots |
| HookControl.Module.HooksHandler | kext/main.c:136-164 | The answer and the whole new state of a read or write |
| HookControl.Module.BlowLookupFuse | kext/main.c:184-189 | The fuse-blow event |
| HookControl.Module.Register | kext/main.c:372-406 | Installs from the mask; the sysctls stay linked only on success |
| HookControl.Module.Unregister | kext/main.c:408-443 | Clears the per-event slots even when the framework then refuses; the mask is kept |
| HookControl.Execute | kext/main.c:136-443 | Any sequence of events drives the functions through the run the lemmas speak about |
| MachOFormat.FirstArm64 | kext/MachO.c:86-93 | The slice reported is the first whose raw cputype is CPU_TYPE_ARM64 |
| MachOFormat.Walk | kext/MachO.c:41-55 | At most ncmds commands and at most (len - 32) / 8 are consumed |
| MachOFormat.RoundTrip | kext/MachO.c:19-58 | Parsing a serialized header of either magic and a command list, with any trailing bytes, gives the fields back and codesign exactly when the list has LC_CODE_SIGNATURE |
| MachOFormat.ParseExactly | kext/MachO.c:36-56 | For any announced ncmds, any commands and any tail that holds no whole command (short, or a size below 8 or beyond the end): exactly the first ncmds of the commands are met, and nothing of the tail |
| MachOFormat.CutRoundTrip | kext/MachO.c:41-55 | The first n bytes of any image: refused without the whole header; otherwise exactly the commands that end at or before n are met, and codesign is 1 exactly when a signature is among them |
| MachOFormat.FatRoundTrip | kext/MachO.c:75-93 | Parsing a serialized fat header with any slices and trailing bytes: the number of slices, and of the first slice stored as CPU_TYPE_ARM64 that type and the low 24 bits of the subtype, or zeros |
| MachOFormat.FatCut | kext/MachO.c:68-78 | A fat header without all of its slices is refused, however little is missing |
| MachOFormat.AcceptedMagics | kext/MachO.c:24-74 | What is accepted starts with one of four byte sequences, either order of either magic, which tell fat from thin |
| MachOFormat.AsIntExact | kext/MachO.c:32-34 | A stored word comes back as the int congruent to it modulo 2^32 |
| MachOFormat.Extends | kext/MachO.c:41-93 | Longer buffers still parse, with equal fields except codesign, which goes from 0 to 1 exactly when the walk was cut short before the signature |
| MachO.WalkCommands | kext/MachO.c:36-56 | The loop meets exactly the commands of the reference walk and flags the signature among them |
| MachO.Thin | kext/MachO.c:19-58 | Accepts exactly the 64-bit magics with a whole header; the info is the reference's, or still zero |
| MachO.Fat | kext/MachO.c:60-95 | Accepts exactly when all slices are present; the info is the reference's, or still zero |
| MachO.MachoInfoOf | kext/MachO.c:97-120 | The parser as a whole: result, info on success, zero info on failure, untouched info when there is nothing to read |
| CsFlags.CsflagBits | kext/spawn.c:19-59 | Writes the first len - 1 characters of the comma-separated rendering and a NUL, and nothing past len |
| CsFlags.Recovered | kext/spawn.c:27-54 | With 20 bytes nothing is cut and the ten flags are read back from the text |
| CsFlags.NineteenIsTooFew | kext/spawn.c:27-54 | With all ten flags set the rendering is V,A,S,H,K,R,T,D,P,I, and 19 bytes lose the last letter |
| CsFlags.LetterPerFlag | kext/spawn.c:44-53 | Each letter is printed if and only if its own flag bit is set, pair by pair |
| CsFlags.CommasBetween | kext/spawn.c:27-41 | Letters and commas alternate, beginning and ending with a letter |
| CsFlags.LettersInOrder | kext/spawn.c:44-53 | The letters come in the order V A S H K R T D P I, each at most once |

## Left out

- Exposure: like OvershootBound, OvershootIsReached, FuseBlown and SlotPulledForAReason, assumes that fuse - 1 + p fits an unsigned int, that is, fewer than 2^31 simultaneous activations; a ticket counter that wraps could fall below the fuse again.
- RecordedIsPeak: like NeverLoweredIsPeak and the last clause of AtomicUpdatesNeverLower, assumes fewer than 2^32 simultaneous activations; DepthExact, MaxDepthSound, MaxDepthIsPeak and MaxDepthExact do not.
- NulKept: nothing is claimed about bytes of new memory that nothing has been written to, or about those that vsnprintf leaves past the text after a formatting error.
- Operator writes during a lookup dispatch: the interleaving machine arms the slot once, and HookControl takes each handler write, fuse blow and entry point as one step.
- Memory orders weaker than sequential consistency, tracing output and the name-cache freeze itself.
- The other MAC hooks (`kext/file.c`, `kext/net.c`, `kext/proc.c`, `kext/tty.c`, the rest of `kext/vnode.c`): they test the trace gate, print and return 0.
- The ABI layout of `include/sedarwin/sebsd_mac.h`: fixed offsets covered by static assertions. A slot is modelled as installed or NULL; the struct's types already tie each slot to its own function.
- Appending an sbuf's own buffer to itself, user flags other than SBUF_AUTOEXTEND (stored and ignored), and the accessors `sbuf_data`, `sbuf_len`, `sbuf_done` and `sbuf_overflowed`.
- Byte-swapped Mach-O images and slice selection in big-endian fat files: the code accepts the magics but compares raw fields, and nothing is claimed beyond that.
- `sebsd_macho_selftest`: one instance of RoundTrip.
