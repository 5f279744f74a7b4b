# Frog: a verified model of its state machines, codecs and indexes

Frog injects an agent into a game process. The agent runs WebAssembly scripts that write game
memory, hook game methods and tap its network traffic, and it reloads those scripts while the game
runs. This project models the parts of the agent whose behaviour is decided by its own code and
proves what they promise.

- **Hot reload and hooks.** `ProcessMemory` (memory as a finite map of committed bytes), `ThunkSlab`,
  `InlineDetour`, `HookRuntime` (installation and removal with every rollback), `HookTable` (the same
  as a mutable object, and all runs of it), `WriteJournal`, `MemHost`, `HotReload` (whole runs of a
  script and their teardown), `ReloadExactness` and `ReloadOrders` (exactly which runs a teardown
  undoes, for one order of the journal and for every order), `ReloadLoop` (publications, handler calls,
  drains and fallbacks in any order), `TrappedScripts` and `Orchestrator` (the mutable registry,
  journal and mailbox).
- **Dispatch.** `Dispatch` interprets arbitrarily nested trees of hooked calls.
- **Codecs and the capture stream.** `Bytes`, `MemValue`, `InvokeArgs`, `Marshal`, `FrameRing`,
  `CaptureStream`, `PendingReceives`.
- **Memory index and scanners.** `Regions`, `RegionChurn`, `Scan`, `ClassTable`.
- **Metadata.** `FieldLayout`, `Metadata`, `FieldWalk`, `InstanceWalk`.
- **Calendar.** `CivilDate`.

The operating system, the instruction decoder and the script engine are not modelled: their answers
(which page was allocated, how many bytes a prologue gives up, whether a read was accepted) are inputs
of each step, constrained only by the contracts those services have. Everything is proved for all
such answers.

Some results are negative or exact:

- A series of journaled writes is undone for all data and all map orders if and only if it is clean
  (`WriteJournal.RestoredExactlyWhenClean`); overlapping first touches of different addresses never
  are (`WriteJournal.OverlapNotUndone`).
- A reload does not undo every run. `ReloadExactness` follows where each byte comes from through
  writes, records, patches and removals. `ReloadOrders.UndoneExactly` states, from the session right
  before the reload, which scripts are undone in every game and in every order of the journal map;
  `ReloadOrders.RestoredInEveryOrder` does so for one given game, conditional writes included. For a
  script that only installs hooks the condition is that its prologues do not overlap
  (`ReloadExactness.InstallsUndoneExactly`), because hooks are removed in slot order and the highest
  slot wins. `ReloadExactness.DoubleHookWitness` is a game of 32 zero bytes in which hooking one
  function twice leaves a jump behind; `ReloadOrders.LaterHookLower` is the family of runs in which a
  second hook over the same code is harmless.
- A script whose main function traps is never registered, so no reload undoes it. Loading and
  unloading a clean script gives the game back exactly when it completed or left nothing behind by
  itself (`TrappedScripts.LoadUnloadExactly`); `TrappedScripts.TrapWitness` is one write that the next
  script finds, and hooks of such a script stay until some script removes their very slot
  (`TrappedScripts.TrappedHooksStay`).
- The timestamp is right exactly while the year fits 32 bits (`CivilDate.TimestampCorrect`); the
  source's comment claims 1970 to 2099 only.
- A variable-length primitive argument is encoded but never decoded (`InvokeArgs.VarLengthPrimitiveLost`);
  all other values round-trip (`InvokeArgs.RoundTripExactly` is an equivalence).
- A float argument survives register write-back exactly when the two conversions give its bits back,
  which a signalling NaN need not (`Marshal.MarshalRoundTrip`).
- A completion is captured for the socket of its latest posting exactly when that posting found room
  in the table or repeated the note already there (`PendingReceives.AttributedExactly`);
  `PendingReceives.WrongSocketWitness` is a run that captures for the wrong socket.

## Model

| member | source | states |
|---|---|---|
| `HotReload.WholeRunRestores` | crates/agent/src/runtime/orchestrator.rs:62-146 | for every clean run of writes, conditional writes, hook installs and removals by a script, in every journal order, teardown gives back the game memory found at spawn (with the permanent writes applied), the hook table found at spawn and intact bookkeeping |
| `HotReload.ManyReloadsRestore` | crates/agent/src/runtime/orchestrator.rs:62-146 | any number of clean scripts loaded and torn down in a row leaves game memory and hook table as before the first |
| `HotReload.StepKeeps` | crates/agent/src/runtime/mem_host.rs:84-146 | every host call of a clean script keeps the session restorable: journal records hold original bytes, every changed byte is on record or under an own patch |
| `HotReload.TeardownRestores` | crates/agent/src/runtime/orchestrator.rs:104-134 | reverting and unhooking a restorable session restores the tracked memory, frees exactly the runtime's own slots and leaves the others untouched |
| `HotReload.UnhookKeeps` | crates/agent/src/runtime/orchestrator.rs:110-123 | removing the collected hooks in any order without repeats empties exactly those slots and keeps everything restorable |
| `HotReload.Owned` | crates/agent/src/runtime/orchestrator.rs:168-179 | the collected ids are exactly the slots the runtime owns, without repeats |
| `HotReload.NoPermanentSameBase` | crates/agent/src/runtime/mem_host.rs:281-299 | without permanent writes the memory to give back is the one found at spawn |
| `HotReload.WriteStepStores` | crates/agent/src/runtime/mem_host.rs:84-110 | after a script's write, an accessible range holds the front of the input and an inaccessible one is as before; the journal has the address exactly if it had it or the range was readable; hooks are untouched |
| `HotReload.WriteIfStepCompares` | crates/agent/src/runtime/mem_host.rs:116-147 | a conditional write by a script is its write when memory holds the expected value, and no step at all when it does not |
| `HotReload.PermanentStepStores` | crates/agent/src/runtime/mem_host.rs:281-299 | a permanent write changes memory like a write and never the journal |
| `HotReload.InstallStepPublishes` | crates/agent/src/internals/hook_runtime/api.rs:108-194 | a slot filled by a script's installation carries the method and handler asked for and the script's own id |
| `HotReload.RemoveStepEmpties` | crates/agent/src/internals/hook_runtime/api.rs:205-222 | a removal by a script empties the slot of the handle, whoever owns it, and no other |
| `HotReload.RunJoins` | crates/agent/src/runtime/mem_host.rs:513-592 | a run is its first part followed by the rest from there |
| `ReloadExactness.RestoredExactly` | crates/agent/src/runtime/orchestrator.rs:62-146 | for every run, clean or not, every answer of the system and every journal order: the reload leaves the memory found at spawn with the permanent writes applied if and only if the script removed no foreign hook and, byte by byte, the value the teardown leaves is the wanted one |
| `ReloadExactness.UndoneExactlyAsAnswered` | crates/agent/src/runtime/orchestrator.rs:62-146 | given one order of the journal and one set of answers to the teardown, a run without conditional writes is undone in every game with the same committed addresses if and only if it removes no foreign hook and every game byte ends up coming from where it should |
| `ReloadOrders.UndoneExactly` | crates/agent/src/runtime/orchestrator.rs:62-146 | a run without conditional writes is undone in every game with the same committed addresses, in every order of the journal and by every accepted teardown, if and only if it removes no foreign hook and, right before the reload, each game byte has in the highest own slot over it the wanted source, or, without own hooks over it, only such records (itself, if none) |
| `ReloadOrders.RestoredInEveryOrder` | crates/agent/src/runtime/orchestrator.rs:62-146 | the same for one given game and all runs, conditional writes included, comparing byte values instead of sources |
| `ReloadOrders.EveryWalkPasses` | crates/agent/src/runtime/orchestrator.rs:101-108 | whatever is required of a byte holds after every walk of the journal map exactly when it holds of every accepted record over the byte, or of the byte itself when there is none |
| `ReloadExactness.TornByte` | crates/agent/src/runtime/orchestrator.rs:101-123 | after reverting and unhooking, a game byte holds what its trail says: the copy of the highest protected own slot over it, else the copy of the last record written back, else what it held |
| `ReloadExactness.HighestSlotWins` | crates/agent/src/runtime/orchestrator.rs:110-123 | whatever happened before, a byte under own prologues ends as what the highest own slot over it recorded when it was hooked |
| `ReloadExactness.LaterMustSitLower` | crates/agent/src/runtime/orchestrator.rs:110-123 | of two own hooks over a game byte, the first having recorded the byte to give back and the later something else, the teardown gives the byte back if and only if the later one sits in the lower slot |
| `ReloadOrders.LaterHookLower` | crates/agent/src/runtime/orchestrator.rs:110-123 | hooking A and B, removing A and hooking C over B puts C into the slot below B, and where A did not lie the reload gives the game's byte back under both |
| `ReloadExactness.InstallsUndoneExactly` | crates/agent/src/internals/hook_runtime/registry.rs:85-92 | a script that only installs hooks is undone in every game if and only if the prologues it patched do not overlap |
| `ReloadExactness.SecondHookRecordsFirstPatch` | crates/agent/src/inline_detour.rs:89-180 | a hook over code that is already hooked records, byte by byte where they overlap, the jump to the first hook's thunk, whatever the two prologue lengths and starts |
| `ReloadExactness.DoubleHookNotUndone` | crates/agent/src/runtime/orchestrator.rs:110-123 | after hooking overlapping code twice, the reload leaves in the overlap the jump to the first hook's thunk, which has been given back |
| `ReloadExactness.DoubleHookWitness` | crates/agent/src/runtime/orchestrator.rs:110-123 | a concrete game and two installations after which a reload leaves 0x48 where 0 was |
| `ReloadExactness.TornThunk` | crates/agent/src/runtime/orchestrator.rs:110-123 | a teardown gives back the thunk of every own hook, cleanly torn down or not |
| `ReloadLoop.LatestScriptSpawned` | crates/agent/src/runtime/orchestrator.rs:34-50 | in every interleaving of publications, handler calls, drains and fallbacks each reload spawns the script published last, and a drain reloads exactly when nothing but handler calls happened since a publication |
| `ReloadLoop.WaitingScriptTaken` | crates/agent/src/runtime/orchestrator.rs:34-50 | a waiting script is what a drain or a fallback reloads, and it leaves the mailbox; with none waiting a drain does nothing and a fallback takes what was published |
| `ReloadLoop.ReloadRegisters` | crates/agent/src/runtime/orchestrator.rs:62-162 | empty bytes use no id and leave nothing alive; a script runs under the next id in the torn-down world and lives on exactly if it completes |
| `ReloadLoop.ActsInOrder` | crates/agent/src/runtime/mem_host.rs:84-146 | each host call of a handler takes effect after the ones before it, on the world and the journal of the live script |
| `ReloadLoop.StartsOnTheGround` | crates/agent/src/runtime/orchestrator.rs:34-146 | in every interleaving of clean scripts and clean handler calls, each script starts in what its predecessor started in with the permanent writes of its main function and handlers, or, if the predecessor trapped, with everything it did |
| `ReloadLoop.StartsInRestoredGame` | crates/agent/src/runtime/orchestrator.rs:34-146 | if no script traps or writes permanently, each script starts in the game memory and with the hook table that were there before the first, whatever clean handlers did in between |
| `TrappedScripts.LoadUnloadExactly` | crates/agent/src/runtime/mem_host.rs:513-592 | loading and unloading a clean script gives back game memory (with its permanent writes) and hook table if and only if its main function completed, or it has no hook left and every byte it wrote has its original value again |
| `TrappedScripts.TrapWitness` | crates/agent/src/runtime/mem_host.rs:513-592 | a game in which a clean script writes one byte and traps: the next script starts with that byte |
| `TrappedScripts.TrappedHooksStay` | crates/agent/src/runtime/orchestrator.rs:110-123 | through any later events, a hook of a trapped script is still published if and only if no script removed its slot, and then its thunk is still taken |
| `Orchestrator.Agent.Unload` | crates/agent/src/runtime/orchestrator.rs:62-134 | the mutable teardown: the new state is the teardown of the session for some enumeration of its journal, or nothing changes when no runtime lives |
| `Orchestrator.Agent.Reload` | crates/agent/src/runtime/orchestrator.rs:62-162 | reload is teardown followed by spawning the new script with a fresh id in the torn-down world; empty bytes only unload |
| `Orchestrator.Agent.DrainReload` | crates/agent/src/internals/hook_runtime/dispatcher.rs:105-108 | the end of a dispatch on the mutable objects is the drain event of the reload loop: nothing without a pending script, else its reload, with the mailbox emptied first |
| `Orchestrator.Agent.FallbackReload` | crates/agent/src/runtime/watcher.rs:136-152 | the watcher after its deadline is the fallback event of the loop: it reloads what is pending, else what it published last |
| `Orchestrator.Agent.TryLoad` | crates/agent/src/runtime/watcher.rs:102-152 | a script that parses is reloaded exactly once in place of whatever was waiting, whether a dispatch takes it before the deadline or the watcher does; one that does not parse changes nothing |
| `Orchestrator.Agent.RunHandlers` | crates/agent/src/runtime/mem_host.rs:84-146 | handler calls of the live script on the mutable objects are the corresponding event of the reload loop |
| `Orchestrator.Agent.HotSwap` | crates/agent/src/runtime/orchestrator.rs:62-146 | when the running script is a clean run from a world `spawned`, its successor starts in the game memory of `spawned`, up to the predecessor's permanent writes, and with the hook table of `spawned` |
| `Orchestrator.Agent.LoadAndUnload` | crates/agent/src/runtime/orchestrator.rs:62-146 | on the mutable objects, loading and unloading a clean script gives back memory, up to its permanent writes, and hook table if and only if its main function completed or it left nothing behind |
| `Orchestrator.Agent.Spawn` | crates/agent/src/runtime/mem_host.rs:513-592 | a script runs with a fresh id and empty journal and is registered exactly when its main function returns |
| `Orchestrator.Agent.HostWrite` | crates/agent/src/runtime/mem_host.rs:84-110 | the first touch is journaled before the guarded write; malformed input changes nothing |
| `Orchestrator.Agent.HostWriteIf` | crates/agent/src/runtime/mem_host.rs:116-147 | the mutable conditional write is the function that `MemHost.WriteIfRefused`, `MemHost.WriteIfMatches` and `MemHost.WriteIfDiffers` decide |
| `Orchestrator.Agent.RunScript` | crates/agent/src/runtime/mem_host.rs:513-592 | running host calls one after the other is the fold of the step function over world and journal |
| `Orchestrator.Agent.CollectOwned` | crates/agent/src/runtime/orchestrator.rs:168-179 | the scan returns exactly the owned slots in slot order |
| `WriteJournal.RestoredExactlyWhenClean` | crates/agent-core/src/spine/journal.rs:29-53 | a series of journaled writes is undone for all data and all orders if and only if first touches find unwritten bytes and every written byte is on record |
| `WriteJournal.OverlapNotUndone` | crates/agent-core/src/spine/journal.rs:29-41 | two overlapping first touches of different addresses are not clean: for some data and some order the revert does not restore |
| `WriteJournal.RevertRestores` | crates/agent/src/runtime/orchestrator.rs:101-108 | records that agree with a memory put it back wherever they reach and touch nothing else, in any order |
| `WriteJournal.UncleanPoisons` | crates/agent-core/src/spine/journal.rs:29-41 | the touch that breaks cleanliness leaves a byte no revert can be trusted with |
| `WriteJournal.Journal.Touch` | crates/agent-core/src/spine/journal.rs:29-41 | the first readable touch of an address records its bytes; later or unreadable ones change nothing |
| `WriteJournal.Journal.TakeEntries` | crates/agent-core/src/spine/journal.rs:51-53 | hands over all records and empties the journal |
| `WriteJournal.RevertAll` | crates/agent/src/runtime/orchestrator.rs:101-108 | walking the map writes every record back exactly once, in some enumeration of its keys |
| `HookTable.NoThunkLeak` | crates/agent/src/internals/hook_runtime/api.rs:108-222 | after every run of successful and failed installs and removes, slab slots in use are exactly the thunks of published hooks and there are at most two pages |
| `HookTable.ReachableConsistent` | crates/agent/src/internals/hook_runtime/api.rs:108-222 | with clear prologues every reachable world keeps slots, thunks, patches and trampolines consistent and disjoint, and free slab slots all traps |
| `HookTable.InitialConsistent` | crates/agent/src/internals/hook_runtime/registry.rs:85-99 | the world without hooks is consistent, so every reachable world is |
| `HookTable.HandleToMachineCode` | crates/agent/src/internals/hook_runtime/thunks.rs:76-122 | the thunk of slot n loads n and the shim, its prologue passes verification with that thunk as detour, and no two hooks share thunk bytes |
| `HookTable.HookedCode` | crates/agent/src/inline_detour.rs:89-180 | in every consistent world the prologue of a live slot jumps to its thunk, the thunk hands the slot number to the shim, and the trampoline holds the stolen bytes and the jump to the byte behind them |
| `HookTable.Table.Install` | crates/agent/src/internals/hook_runtime/api.rs:108-194 | the mutable installation with its rollbacks is the installation function, which `HookRuntime.InstallPublishes` describes from its arguments |
| `HookTable.Table.Remove` | crates/agent/src/internals/hook_runtime/api.rs:205-222 | the mutable removal is the removal function; an unknown handle is refused without effect |
| `HookTable.Table.AllocSlot` | crates/agent/src/internals/hook_runtime/registry.rs:85-92 | returns the lowest unpublished slot, or the table size |
| `HookTable.Table.EmitThunk` | crates/agent/src/internals/hook_runtime/thunks.rs:76-122 | the page loop takes the lowest free slot of the first page with room and grows only when all are full |
| `HookTable.Table.FreeThunk` | crates/agent/src/internals/hook_runtime/thunks.rs:126-140 | fills the slot with traps and returns it to the page that holds it |
| `HookRuntime.InstallKeeps` | crates/agent/src/internals/hook_runtime/api.rs:108-194 | every outcome of an installation, rollbacks included, keeps the world consistent |
| `HookRuntime.RemoveKeeps` | crates/agent/src/internals/hook_runtime/api.rs:205-222 | removal keeps the world consistent even when the prologue cannot be rewritten |
| `HookRuntime.InstallBooks` | crates/agent/src/internals/hook_runtime/api.rs:108-194 | thunk bookkeeping survives an installation whatever code it patches |
| `HookRuntime.RemoveBooks` | crates/agent/src/internals/hook_runtime/api.rs:205-222 | thunk bookkeeping survives a removal whatever code it patched |
| `HookRuntime.InstallPages` | crates/agent/src/internals/hook_runtime/thunks.rs:76-92 | 256 hooks never need a third slab page |
| `HookRuntime.FirstVacant` | crates/agent/src/internals/hook_runtime/registry.rs:85-92 | the lowest unpublished slot |
| `HookRuntime.InstallPublishes` | crates/agent/src/internals/hook_runtime/api.rs:108-194 | exactly when an installation succeeds, and that it then fills the lowest vacant slot with the method, handler, owner, thunk and target asked for and no other slot; a failed one fills none |
| `HookRuntime.RemoveEmpties` | crates/agent/src/internals/hook_runtime/api.rs:205-222 | removal empties the slot of the handle and no other; an unknown handle changes nothing |
| `ThunkSlab.EmitKeeps` | crates/agent/src/internals/hook_runtime/thunks.rs:33-122 | emission gives out a slot nobody uses, holding the thunk code, and changes no other slot and nothing outside the slab |
| `ThunkSlab.FreeKeeps` | crates/agent/src/internals/hook_runtime/thunks.rs:56-140 | freeing returns exactly that slot, filled with traps, and leaves all others alone |
| `ThunkSlab.SlotsApart` | crates/agent/src/internals/hook_runtime/thunks.rs:33-63 | distinct slots of well-formed pages never overlap |
| `ThunkSlab.FullPagesCount` | crates/agent/src/internals/hook_runtime/thunks.rs:49-54 | two full pages hold 256 slots in use |
| `ThunkSlab.LowestFree` | crates/agent/src/internals/hook_runtime/thunks.rs:49-54 | trailing zeros of the bitmap: the lowest free slot |
| `ThunkSlab.EmitTakesLowest` | crates/agent/src/internals/hook_runtime/thunks.rs:76-122 | the slot given out is the lowest free one of the first page with room; a page is added only when no slot is free, and emission fails only when none can be added |
| `ThunkSlab.FreedTraps` | crates/agent/src/internals/hook_runtime/thunks.rs:126-140 | each of the 32 bytes of a freed slot is 0xCC |
| `InlineDetour.InstallUninstall` | crates/agent/src/inline_detour.rs:43-180 | removing a patch right after installing it restores the whole memory |
| `InlineDetour.RefusedInstallNoTrace` | crates/agent/src/inline_detour.rs:89-180 | a refused installation leaves memory as it was, for one of three reasons |
| `InlineDetour.PatchedVerifies` | crates/agent/src/inline_detour.rs:30-41 | a prologue that holds the patch passes verification |
| `InlineDetour.VerifyRejectsOtherDetour` | crates/agent/src/inline_detour.rs:30-41 | verification fails for any other detour |
| `InlineDetour.InstallsCode` | crates/agent/src/inline_detour.rs:89-180 | a successful installation leaves the stolen bytes, FF 25 00 00 00 00 and the address behind them in the trampoline, and the jump to the detour padded with 0x90 in the prologue; no other byte changes; it succeeds exactly with 12 stolen bytes, a trampoline and a writable page |
| `InlineDetour.UninstallsCode` | crates/agent/src/inline_detour.rs:43-75 | removal gives the prologue back if its page can be written, frees the trampoline in any case and changes nothing else |
| `InlineDetour.VerifiesExactly` | crates/agent/src/inline_detour.rs:30-41 | verification says yes exactly when the first 12 bytes are the jump to this detour |
| `MemHost.TypedBytes` | crates/agent/src/runtime/mem_host.rs:90-97 | a typed write is refused exactly for variable-length types and short inputs, and stores the prefix of the input of exactly the type's width |
| `MemHost.WriteEffect` | crates/agent/src/runtime/mem_host.rs:84-110 | malformed input changes nothing; otherwise the range holds the front of the input if it can be accessed and is unchanged if not, nothing else changes, and a readable first touch records the bytes that were there |
| `MemHost.PermanentEffect` | crates/agent/src/runtime/mem_host.rs:281-299 | a permanent write leaves the memory and the status of a journaled one |
| `MemHost.WriteIfRefused` | crates/agent/src/runtime/mem_host.rs:116-133 | a short buffer or a type without width is a bad type, an unreadable range is unreadable, and neither changes memory or journal |
| `MemHost.WriteIfMatches` | crates/agent/src/runtime/mem_host.rs:134-147 | where memory holds the expected value, the address is journaled and the new bytes are stored, or only journaled if the page refuses |
| `MemHost.WriteIfDiffers` | crates/agent/src/runtime/mem_host.rs:134-147 | where memory holds any other value the status is "changed" and memory and journal stay as they are |
| `MemHost.FloatsAgree` | crates/agent/src/runtime/mem_host.rs:134 | floats are compared as IEEE 754 numbers: the two zeros match, a NaN matches nothing, not even itself; all other types bit by bit |
| `Dispatch.Dispatcher.DispatchRust` | crates/agent/src/internals/hook_runtime/dispatcher.rs:18-93 | for every nested call tree, reentry flags, context stack and lock are as before, and events and runs of the original are those of the reference |
| `Dispatch.Dispatcher.WithCurrentContext` | crates/agent/src/internals/hook_runtime/api.rs:54-100 | the pushed context is the one popped, however deep the handler nests, and the events are those of the reference, which `Dispatch.FirstEvent` and `Dispatch.AfterTheHandler` describe |
| `Dispatch.Dispatcher.CallHookHandler` | crates/agent/src/runtime/host.rs:39-69 | runs the handler exactly when the registry is free, a script is parked and the handler is callable; only the top context changes |
| `Dispatch.Dispatcher.DoAction` | crates/agent/src/internals/hook_runtime/api.rs:243-340 | a host call updates only its own context and reaches the trampoline of its own method |
| `Dispatch.OneHandlerAtATime` | crates/agent/src/runtime/host.rs:39-69 | no handler starts while another runs, in any call tree |
| `Dispatch.ActiveNotReentered` | crates/agent/src/internals/hook_runtime/registry.rs:117-121 | a method being dispatched never enters its handler again below itself |
| `Dispatch.OriginalSkippedExactly` | crates/agent/src/internals/hook_runtime/dispatcher.rs:40-90 | the runs a dispatch owes to one call of its own: none exactly when its handler ran, set a return value and did not call the original, one for nested or reentered calls |
| `Dispatch.BusyRunsEachOriginalOnce` | crates/agent/src/internals/hook_runtime/dispatcher.rs:18-93 | in the log of any call tree dispatched while a handler runs, each hook's original runs exactly as often as the tree has published calls of it |
| `Dispatch.OriginalsAddUp` | crates/agent/src/internals/hook_runtime/dispatcher.rs:18-93 | in the log of any dispatch, originals run exactly as often as the per-call rule says of every call in the tree together |
| `Dispatch.FirstEvent` | crates/agent/src/internals/hook_runtime/dispatcher.rs:18-60 | the handler starts exactly when the hook exists, its method is not active, the arguments are readable, the registry is free, a script is parked and the handler is callable; otherwise the original runs first, or the call is missed |
| `Dispatch.AfterTheHandler` | crates/agent/src/internals/hook_runtime/dispatcher.rs:65-86 | behind the handler comes its return value, and nothing more, if it set one before any trap; nothing if it only called the original; the original otherwise |
| `Dispatch.CountsAddUp` | crates/agent/src/internals/hook_runtime/dispatcher.rs:18-93 | in the log of any call tree every event of every slot (originals run, handlers entered and left, values returned, calls missed) occurs exactly as often as its calls account for |
| `Dispatch.OwnReturns` | crates/agent/src/internals/hook_runtime/dispatcher.rs:65-77 | a call returns a value of its own exactly when its handler runs and sets one before any trap |
| `Dispatch.OwnTrampolineFound` | crates/agent/src/internals/hook_runtime/api.rs:296-340 | looking the trampoline up by method finds the handler's own slot exactly when no lower slot hooks the same method |
| `InvokeArgs.RoundTripExactly` | crates/agent-core/src/spine/invoke_arg.rs:30-111 | the encodable values are exactly those that decode back to themselves with their exact length |
| `InvokeArgs.ParseEncoding` | crates/agent-core/src/spine/invoke_arg.rs:30-111 | decoding an encoding followed by any bytes returns the value and the encoding's length |
| `InvokeArgs.EncodingOfParse` | crates/agent-core/src/spine/invoke_arg.rs:65-111 | whatever decodes is encodable and re-encodes to exactly the bytes consumed |
| `InvokeArgs.PrefixFree` | crates/agent-core/src/spine/invoke_arg.rs:30-61 | no encoding is a prefix of another value's encoding |
| `InvokeArgs.ArgumentListRoundTrip` | crates/agent/src/runtime/mem_host.rs:482-492 | a count-prefixed argument list round-trips whatever follows it |
| `InvokeArgs.VarLengthPrimitiveLost` | crates/agent-core/src/spine/invoke_arg.rs:65-80 | variable-length primitives never decode |
| `InvokeArgs.WireForm` | crates/agent-core/src/spine/invoke_arg.rs:20-61 | the first byte is the type's tag or one of 12 to 16; behind it the value, the handle, or a 32-bit little-endian length or count and the body |
| `InvokeArgs.ElementsInOrder` | crates/agent-core/src/spine/invoke_arg.rs:51-55 | element number i is written behind the earlier ones and before the later ones |
| `InvokeArgs.Utf8Exactly` | crates/agent-core/src/spine/invoke_arg.rs:83-89 | the strings that decode are exactly the UTF-8 encodings (section 3 of RFC 3629) of sequences of Unicode scalar values |
| `InvokeArgs.Encode` | crates/agent-core/src/spine/invoke_arg.rs:30-61 | the growing-buffer loop writes the format |
| `InvokeArgs.Decode` | crates/agent-core/src/spine/invoke_arg.rs:65-111 | the recursive consuming loop reads the format and terminates on every input |
| `InvokeArgs.DecodeArgs` | crates/agent/src/runtime/mem_host.rs:482-492 | the cursor loop decodes exactly the counted values or fails |
| `MemValue.FixedRoundTrip` | crates/agent-core/src/mem_value.rs:48-88 | every fixed-width value decodes from its encoding |
| `MemValue.FixedReEncode` | crates/agent-core/src/mem_value.rs:48-88 | every byte string of the width decodes to a value of the type that re-encodes to it |
| `MemValue.FromTag` | crates/agent-core/src/mem_value.rs:28-36 | tags 0 to 11 and the value types are in bijection, all other tags are refused |
| `MemValue.TagOrder` | crates/agent-core/src/mem_value.rs:9-36 | tags count through unsigned, signed and float types in ascending width, with bytes and text last |
| `MemValue.DecodedNumber` | crates/agent-core/src/mem_value.rs:65-88 | a decoded value is the little-endian number of its bytes, for signed types in two's complement |
| `Marshal.MarshalRoundTrip` | crates/agent/src/internals/marshal.rs:264-384 | reading after write-back returns the argument list if and only if each float survives its conversion |
| `Marshal.RegRoundTrip` | crates/agent/src/internals/marshal.rs:279-384 | truncation undoes zero and sign extension |
| `Marshal.OthersUntouched` | crates/agent/src/internals/marshal.rs:314-384 | `this` and every register no argument maps to keep their contents |
| `Marshal.WriteBackSucceedsExactly` | crates/agent/src/internals/marshal.rs:314-384 | write-back succeeds exactly for type-correct fixed-width primitives that all have a register |
| `Marshal.WrittenSlots` | crates/agent/src/internals/marshal.rs:353-384 | contents of every integer and float register after write-back |
| `Marshal.RegArgs.FromArgs` | crates/agent/src/internals/marshal.rs:314-332 | the write-back loop: full success, or the first refused argument's error with exactly the earlier arguments written |
| `Marshal.RegArgs.ToArgs` | crates/agent/src/internals/marshal.rs:264-277 | the reading loop: all declared arguments or the first error |
| `Marshal.RegArgs.PackReturn` | crates/agent/src/internals/marshal.rs:396-431 | the return value goes to its type's register, the other and both on refusal are zero |
| `Marshal.RegisterOf` | crates/agent/src/internals/marshal.rs:366-382 | an integer goes to its register modulo 2^64, a double as its bits, a single widened |
| `Marshal.ValueOf` | crates/agent/src/internals/marshal.rs:292-309 | a register is read as the low bytes of the type's width, in two's complement for signed types |
| `Marshal.ReadsDeclared` | crates/agent/src/internals/marshal.rs:264-310 | reading succeeds exactly when every declared argument has a register and a width, and takes each from its own: behind `this` for instance methods, floats from the float file |
| `Marshal.ReadFailsAt` | crates/agent/src/internals/marshal.rs:279-309 | a failed read reports the first argument without a register or a width, and which it lacks |
| `FrameRing.Ring.Push` | crates/agent-core/src/protocol.rs:39-49 | the ring holds the newest frames within the limits, its byte count is exact, and evicted and resident frames together are the push order |
| `FrameRing.Ring.Drain` | crates/agent-core/src/protocol.rs:63-66 | hands over exactly the resident frames in order and starts over |
| `FrameRing.Ring.Collect` | crates/agent-core/src/protocol.rs:82-97 | the lazy iterator walks oldest to newest without consuming |
| `FrameRing.NewestIsLongest` | crates/agent-core/src/protocol.rs:39-49 | what is resident is the longest suffix within the limits |
| `FrameRing.NewestWithinLimits` | crates/agent-core/src/protocol.rs:39-49 | what stays is at most `max_frames` frames and at most `max_bytes` bytes unless it is a single frame, and with one older frame it would not be |
| `FrameRing.NewestStep` | crates/agent-core/src/protocol.rs:39-49 | forgetting evicted frames does not change what the next push leaves |
| `FrameRing.ResidentExactly` | crates/agent-core/src/protocol.rs:39-49 | a frame is resident exactly when everything from it on fits |
| `CaptureStream.EndToEnd` | scratch/listen_packets.py:23-41 | however the byte stream is chunked, the listener reports direction, socket and payload of exactly the written frames in order, of the first few of them after some of the chunks, and keeps nothing back |
| `CaptureStream.SplitAppend` | scratch/listen_packets.py:27-36 | cutting the stream anywhere does not change what is parsed |
| `CaptureStream.SplitRecords` | crates/agent/src/protocol/capture.rs:58-65 | written records are parsed back in order and what follows is parsed as if alone |
| `CaptureStream.RecordLayout` | crates/agent/src/protocol/capture.rs:60-65 | byte 0 is 0 for an outgoing frame and 1 for an incoming one, the next eight are the socket and four the length, both little-endian, the rest is the payload |
| `CaptureStream.Listener.Feed` | scratch/listen_packets.py:23-38 | one chunk: all complete records are reported and no complete record stays in the buffer |
| `CaptureStream.Listener.FeedAll` | scratch/listen_packets.py:23-38 | a connection's chunks are parsed like their concatenation |
| `CaptureStream.Serve` | crates/agent/src/protocol/capture.rs:35-73 | the stream written over any interleaving of captures and drains is the records of the delivered frames |
| `CaptureStream.Tap` | crates/agent/src/protocol/capture.rs:35-73 | from captures through ring and stream to the listener: for every interleaving of captures and ticks and every cut of the stream the listener reports direction, socket and payload of exactly the delivered frames, in order, and keeps nothing back |
| `CaptureStream.DeliveredRepresentable` | crates/agent/src/protocol/capture.rs:35-43 | every frame that passes the size filter and is delivered has a record that reads back |
| `CaptureStream.LosslessWithinLimits` | crates/agent/src/protocol/capture.rs:35-73 | while the limits are not exceeded between drains, every captured frame is delivered |
| `CaptureStream.DrainDelivers` | crates/agent/src/protocol/capture.rs:35-73 | a tick delivers the newest frames within the limits of what was captured since the tick before it |
| `CaptureStream.CaptureGathered` | crates/agent/src/protocol/capture.rs:222-243 | the gathered-buffer loop pushes frames for exactly the pieces |
| `CaptureStream.PiecesExact` | crates/agent/src/protocol/capture.rs:222-243 | the pieces are the first `max` bytes of the buffers' contents, none empty |
| `CaptureStream.GatheredExactly` | crates/agent/src/protocol/capture.rs:222-243 | a gathered transfer of at most 64 MiB is captured completely: the frames carry its direction, socket and time, and their payloads are the first `max` bytes of the buffers |
| `PendingReceives.NotedExactly` | crates/agent/src/protocol/capture.rs:416-433 | after any run, a noted receive is exactly the latest accepted posting of its address that was not completed, closed or posted over |
| `PendingReceives.NotesBounded` | crates/agent/src/protocol/capture.rs:426-430 | the table never exceeds 4096 entries |
| `PendingReceives.AttributedExactly` | crates/agent/src/protocol/capture.rs:416-433 | after any run, the completion of an address finds its latest posting, accepted or not, exactly when that posting found room or repeated the note |
| `PendingReceives.WrongSocketWitness` | crates/agent/src/protocol/capture.rs:426-430 | after 4096 postings, reposting one address on another socket makes its completion capture the data for the old socket |
| `PendingReceives.PendingIo.Complete` | crates/agent/src/protocol/capture.rs:537-560 | a completion always drops the note and captures the transferred bytes for the noted socket |
| `PendingReceives.CompletionExactly` | crates/agent/src/protocol/capture.rs:537-560 | the frames of a noted completion are incoming data of the noted socket, together the first transferred bytes of its buffers; without a note nothing is captured |
| `PendingReceives.PendingIo.Close` | crates/agent/src/protocol/capture.rs:500-505 | closing a socket drops exactly its notes |
| `Regions.Capture` | crates/agent/src/external/region_map.rs:42-73 | the walk ends for every oracle; over a partitioned address space it yields the sorted, disjoint readable runs below where it stopped |
| `Regions.InRegion` | crates/agent/src/external/region_map.rs:76-88 | true exactly when one region contains the whole range, an overflowing range never |
| `Regions.BinarySearch` | crates/agent/src/external/region_map.rs:81-85 | the match, or the insertion point |
| `Regions.IndexSound` | crates/agent/src/external/region_map.rs:42-88 | every byte of an accepted range is readable according to the oracle |
| `Regions.IndexComplete` | crates/agent/src/external/region_map.rs:42-88 | a range inside one readable run below the stop is accepted |
| `Regions.WantedExactly` | crates/agent/src/external/region_map.rs:20-62 | indexed are committed runs of at least eight bytes with one of the six readable protections and no guard bit |
| `RegionChurn.Diff` | crates/agent-core/src/region_churn.rs:28-51 | the two-pointer merge counts exactly the set differences and the common starts with different ends |
| `RegionChurn.SizeBalance` | crates/agent-core/src/region_churn.rs:28-51 | the snapshot size changes by added less removed |
| `RegionChurn.QuietExactly` | crates/agent-core/src/region_churn.rs:28-51 | nothing is reported exactly when the snapshots are equal |
| `Scan.AobScan` | crates/agent/src/external/scan.rs:132-163 | the scan with its first-byte skip returns exactly the first `max_hits` occurrences in region order |
| `Scan.OccurrencesExact` | crates/agent/src/external/scan.rs:144-160 | the naive list is complete, correct and ascending, overlaps included |
| `Scan.AllOccurrencesExact` | crates/agent/src/external/scan.rs:132-163 | an address is listed exactly when the bytes there are the pattern, inside one region |
| `Scan.AllOccurrencesAscend` | crates/agent/src/external/scan.rs:132-163 | over regions in address order the list is in address order |
| `Scan.SkipIsSafe` | crates/agent/src/external/scan.rs:147-158 | skipping offsets without the first byte loses nothing |
| `ClassTable.FindClassTable` | crates/agent/src/external/scan.rs:74-127 | the result is the first of the densest maximal null-or-class runs of the coalesced regions with at least the minimum of classes |
| `ClassTable.Coalesce` | crates/agent/src/external/scan.rs:78-87 | same addresses, same order, no two intervals touch |
| `ClassTable.NoDenserRun` | crates/agent/src/external/scan.rs:89-126 | no run at all, maximal or not, has more classes than the one found, or the minimum if none was |
| `ClassTable.TableIsRun` | crates/agent/src/external/scan.rs:74-127 | the address and length found are a run of null or class pointers inside one joined interval, with at least the minimum of classes, and it cannot be made longer at either end |
| `ClassTable.TableIsFirstDensest` | crates/agent/src/external/scan.rs:110-126 | no run of slots, by addresses, holds more class pointers, and every one that starts before it holds fewer |
| `ClassTable.NoTable` | crates/agent/src/external/scan.rs:110-126 | nothing is found only when every run holds fewer class pointers than the minimum |
| `FieldLayout.WindowsTile` | crates/agent-core/src/metadata.rs:220-251 | every byte of the struct belongs to exactly one present field and no field sticks out |
| `FieldLayout.AbsentExactly` | crates/agent-core/src/metadata.rs:220-223 | a field is absent exactly from the versions below its first and above its last, both included in its range |
| `FieldLayout.FieldOffset` | crates/agent-core/src/metadata.rs:238-251 | the offset of a field is the size of the table before it with absent fields deleted; unknown or absent fields have none |
| `FieldLayout.StructSize` | crates/agent-core/src/metadata.rs:225-233 | the size is that of the table with absent fields deleted |
| `FieldLayout.StartsAscend` | crates/agent-core/src/metadata.rs:225-251 | a field ends before every later one starts |
| `FieldLayout.LookupFindsOwnWindow` | crates/agent-core/src/metadata.rs:238-251 | with distinct names each field is found at its own entry |
| `Metadata.ParseReturnsDatabase` | crates/agent-core/src/metadata.rs:93-159 | parsing a blob that represents a database under a layout returns exactly that database in order |
| `Metadata.AcceptedExactly` | crates/agent-core/src/metadata.rs:77-107 | a blob is accepted exactly when it starts with AF 1B B1 FA and its header words are there, place all four tables inside and give the image table a size that fits |
| `Metadata.WordsExactly` | crates/agent-core/src/metadata.rs:118-155 | a type entry is readable exactly when its name index is; other words out of reach count as zero |
| `Metadata.TypeExactly` | crates/agent-core/src/metadata.rs:118-155 | a readable type entry yields one class with its two names from the string table and its own index, an unreadable one none |
| `Metadata.TypeFieldsExactly` | crates/agent-core/src/metadata.rs:130-147 | its fields are those of its range, none if the first index is negative or out of reach |
| `Metadata.FieldExactly` | crates/agent-core/src/metadata.rs:136-147 | a field entry is skipped exactly when its name index is out of reach; its type index may be missing |
| `Metadata.ImageExactly` | crates/agent-core/src/metadata.rs:114-122 | an image yields the types of its range, none if the first index is negative or out of reach |
| `Metadata.Relocation` | crates/agent-core/src/metadata.rs:163-206 | behind any bytes without the magic the blob is found at its own offset and parsed as if alone, and nothing before it parses |
| `Metadata.NoMagicBefore` | crates/agent-core/src/metadata.rs:163-172 | the magic cannot overlap itself, so none straddles the seam |
| `Metadata.ParseMetadata` | crates/agent-core/src/metadata.rs:93-159 | the nested loops push exactly the readable classes of all images in order; implausible headers are refused |
| `Metadata.ParseType` | crates/agent-core/src/metadata.rs:118-155 | one type entry with its fields; an unreadable name skips it |
| `Metadata.FindAndParse` | crates/agent-core/src/metadata.rs:186-206 | returns the first offset at which a supported, non-empty blob parses, or nothing if there is none |
| `Metadata.DumpAtExactly` | crates/agent-core/src/metadata.rs:186-206 | an offset has a dump exactly when the magic and a supported version are there and the blob from there on parses to at least one class |
| `Metadata.FindMagicOffsets` | crates/agent-core/src/metadata.rs:163-172 | all offsets of the magic, ascending |
| `Metadata.StoredBytes` | crates/agent-core/src/metadata.rs:40-55 | reading an integer returns a value exactly when its little-endian bytes are there |
| `Metadata.StoredNameIsRead` | crates/agent-core/src/metadata.rs:57-66 | a stored NUL-terminated name is read back |
| `Metadata.ReadName` | crates/agent-core/src/metadata.rs:57-66 | the bytes up to the first NUL or the end, for every position |
| `Metadata.NameExactly` | crates/agent-core/src/metadata.rs:57-66 | a name is free of NULs, equals the bytes from its position on and ends at a NUL or at the end of the blob |
| `FieldWalk.ResumableIsOneShot` | crates/agent/src/internals/api.rs:290-344 | the iterator driven through the backend yields the fields of the one-shot walk in order |
| `FieldWalk.DrainedFrom` | crates/agent/src/internals/api.rs:290-344 | resuming from any slot yields exactly the fields from that slot on |
| `FieldWalk.ForEachField` | crates/agent/src/internals/api.rs:66-90 | the callback sees the real fields in order, up to and including the one it stops at |
| `FieldWalk.FieldsAt` | crates/agent/src/internals/api.rs:290-344 | the next real field at or after the cursor with the slot just past it |
| `FieldWalk.FieldInfoIter.Next` | crates/agent-core/src/spine/access.rs:119-138 | the cursor moves exactly when a field is yielded, strictly forward, against any backend |
| `FieldWalk.FieldInfoIter.Drain` | crates/agent-core/src/spine/access.rs:116-150 | draining ends against any backend, even one that changes its answers, after at most one item per slot |
| `FieldWalk.FieldInfoByName` | crates/agent/src/internals/api.rs:100-117 | the lookup reports offset, type and static flag of the first field of that name, as the iterator does |
| `FieldWalk.SlotExactly` | crates/agent/src/internals/api.rs:66-90 | a slot ends the list exactly at a null name, and holds a field exactly when its 32-byte record describes it: name at 0, type at 8, offset at 24 (less the header for value types), token at 28, none of them null, and a type word with a plausible code |
| `FieldWalk.FieldsInAt` | crates/agent/src/internals/api.rs:66-90 | before the end mark each record is listed or skipped on its own, in order; behind it none is listed |
| `FieldWalk.VisitsUntil` | crates/agent/src/internals/api.rs:66-90 | the callback sees name, offset and type of the fields in order, stops after the first visit it asks to stop at, and otherwise sees all |
| `FieldWalk.FirstNamedExactly` | crates/agent/src/internals/api.rs:100-117 | the field found has the name and no earlier one has it; none is found exactly when none has it |
| `FieldWalk.TypeCodes` | crates/agent-core/src/mem_value.rs:117-134 | codes 4 to 11 are pairs of a signed and an unsigned integer of doubling width; only code 1 has no value |
| `FieldWalk.ShiftIsDivision` | crates/agent/src/internals/api.rs:80-82 | the code is cut out of the type word by dividing by a power of two |
| `InstanceWalk.InstanceIter.Next` | crates/agent-core/src/spine/access.rs:211-231 | the retry loop ends against any backend and returns the next candidate that passes validation |
| `InstanceWalk.InstanceIter.Drain` | crates/agent-core/src/spine/access.rs:208-231 | draining yields exactly the candidates that pass validation, in order |
| `InstanceWalk.FilterAt` | crates/agent-core/src/spine/access.rs:211-231 | every candidate is judged on its own: kept in its place when valid, dropped when not |
| `InstanceWalk.ScanCandidates` | crates/agent/src/internals/api.rs:400-418 | over a cached hit list every hit is a candidate once, in order |
| `CivilDate.CivilMatchesCalendar` | crates/agent/src/runtime/state_file.rs:72-88 | the arithmetic agrees with the day-by-day Gregorian calendar on every day |
| `CivilDate.TimestampCorrect` | crates/agent/src/runtime/state_file.rs:72-88 | the date is right exactly while the year fits 32 bits, and then valid |
| `CivilDate.NextDay` | crates/agent/src/runtime/state_file.rs:72-88 | 86400 seconds later is the next calendar date at the same time of day |
| `CivilDate.ClockExact` | crates/agent/src/runtime/state_file.rs:72-77 | hour, minute and second are in range and recombine to the seconds of the day |
| `CivilDate.YearOfEraCorrect` | crates/agent/src/runtime/state_file.rs:78-82 | the era division finds the one year whose window holds the day |
| `CivilDate.CivilFromDays` | crates/agent/src/runtime/state_file.rs:78-88 | every day yields a valid Gregorian date, with no unsigned subtraction below zero |

## Left out

- Win32 calls, the instruction decoder, calibration and the WebAssembly engine: their answers are inputs of the steps.
- The assembly of the shim and of replay: a thunk is its bytes, a replay is one "original ran" event.
- Concurrency: one game thread; lock contention that drops a frame, a note or a reload, and reloads drained inside a nested dispatch, are not modelled.
- A handler that removes its own hook while it is being dispatched.
- The counters of dispatches that found the registry contended or the handler missing: diagnostics, no dispatch decision reads them.
- HotReload.WholeRunRestores: assumes every step is clean (first touches of game bytes readable and unwritten, prologues of successful installations clear of patches, journaled and permanent bytes) and that the final reverts and unhooks are accepted by the system; this is sufficient, the exact conditions are `ReloadExactness.RestoredExactly` and `ReloadOrders.UndoneExactly`.
- ReloadOrders.UndoneExactly: excludes conditional writes, whose branch depends on the contents the lemma quantifies over, and compares games under the same answers of the system; `ReloadOrders.RestoredInEveryOrder` covers them game by game.
- ReloadLoop.StartsOnTheGround: assumes that scripts which complete and handlers are clean and that teardowns are accepted; events of the two threads are taken in the order in which they happen, and polling and deadlines are not modelled.
- Orchestrator.Agent.Spawn: the host calls a script makes are given as a list; which of them its code makes for which answers is not modelled, and a handler that traps is one that makes no further calls.
- The runtime's list of owned hooks: display only, the slot scan is authoritative.
- The runtime registry is a vector that never holds more than one entry: modelled as an optional runtime.
- Slab bitmaps are sequences of booleans, and byte-by-byte stores of one thunk or patch are one store.
- Page protections of journaled reads and writes appear as accepted or refused answers.
- Read-side host calls and their status codes, logging, the state file's text and atomic rename, tunables from the environment.
- `Value::decode` of byte and string values, and lossy UTF-8 decoding of names: names stay byte strings.
- Memory taken up front for a claimed argument count.
- Floating-point arithmetic: floats are bit patterns, the two conversions of the marshaller are given functions.
- Packing arguments for `runtime_invoke` and unpacking boxed returns: pointers into foreign memory.
- A batch lost when the client disconnects in the middle of a write, and reconnecting.
- The concrete version tables of the metadata structs: the layout results hold for any table.
- The FFI branch of the field walk, method lookup, type-name printing, export resolution and signature heuristics.
- Wrap-around of addresses near the end of the address space in field and type table arithmetic: addresses are unbounded there.
- scratch/decode_packets.py, version-proxy, entry and path plumbing.
