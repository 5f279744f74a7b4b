/**
 Hot reload (`orchestrator.rs`): whatever a script did to the game through journaled writes
 and hooks is undone when its runtime is torn down. `Session` is one runtime at work,
 `Restorable` what each of its steps keeps, and `WholeRunRestores` the whole-run result.
 */
module HotReload {
  import opened Bytes
  import opened MemValue
  import opened ProcessMemory
  import opened ThunkSlab
  import opened InlineDetour
  import opened HookRuntime
  import opened WriteJournal
  import opened MemHost

  /** The world and the journal of the one running script. */
  datatype Session = Session(world: World, entries: Entries)

  datatype ScriptStep =
    | Write(addr: Addr, ty: ValType, input: seq<Byte>, readable: bool, writable: bool)
    | WriteIf(addr: Addr, ty: ValType, expected: seq<Byte>, input: seq<Byte>, readable: bool, writable: bool)
    | WritePermanent(addr: Addr, ty: ValType, input: seq<Byte>, writable: bool)
    | InstallStep(methodPtr: nat, handler: nat, answers: InstallAnswers)
    | RemoveStep(handle: nat, protect: bool)

  predicate StepPossible(w: World, step: ScriptStep) {
    BitmapsFull(w.slab) && (step.InstallStep? ==> InstallAnswersOk(w, step.answers))
  }

  function StepAfter(s: Session, id: nat, step: ScriptStep): Session
    requires StepPossible(s.world, step)
  {
    match step
    case Write(addr, ty, input, readable, writable) =>
      var r := HostWrite(s.world.mem, s.entries, addr, ty, input, readable, writable);
      Session(s.world.(mem := r.mem), r.entries)
    case WriteIf(addr, ty, expected, input, readable, writable) =>
      var r := HostWriteIf(s.world.mem, s.entries, addr, ty, expected, input, readable, writable);
      Session(s.world.(mem := r.mem), r.entries)
    case WritePermanent(addr, ty, input, writable) =>
      Session(s.world.(mem := HostWritePermanent(s.world.mem, addr, ty, input, writable).0), s.entries)
    case InstallStep(methodPtr, handler, answers) =>
      Session(InstallHook(s.world, methodPtr, handler, id, answers).0, s.entries)
    case RemoveStep(handle, protect) =>
      Session(RemoveHook(s.world, handle, protect).0, s.entries)
  }

  /** A script's `install` publishes its method and handler under the script's own id. */
  lemma InstallStepPublishes(s: Session, id: nat, methodPtr: nat, handler: nat, a: InstallAnswers, k: nat)
    requires StepPossible(s.world, InstallStep(methodPtr, handler, a)) && k < |s.world.slots|
    requires s.world.slots[k].None?
    ensures var s' := StepAfter(s, id, InstallStep(methodPtr, handler, a));
            && s'.entries == s.entries && |s'.world.slots| == |s.world.slots|
            && (s'.world.slots[k].Some? ==>
                  var c := s'.world.slots[k].value; c.methodPtr == methodPtr && c.handler == handler && c.owner == id)
  {
    InstallPublishes(s.world, methodPtr, handler, id, a);
  }

  /** A script's `write` stores the value and may add one journal entry; hooks and slab stay as they are. */
  lemma WriteStepStores(s: Session, id: nat, addr: Addr, ty: ValType, input: seq<Byte>, readable: bool, writable: bool)
    requires StepPossible(s.world, Write(addr, ty, input, readable, writable))
    requires FixedWidth(ty).Some? && FixedWidth(ty).value <= |input|
    ensures var (s', w) := (StepAfter(s, id, Write(addr, ty, input, readable, writable)), FixedWidth(ty).value);
            && s'.world == s.world.(mem := s'.world.mem)
            && (if CanAccess(s.world.mem, addr, w, writable) then Holds(s'.world.mem, addr, input[..w])
                else s'.world.mem == s.world.mem)
            && (forall x :: x in s.world.mem && !Within(x, addr, w) ==> x in s'.world.mem && s'.world.mem[x] == s.world.mem[x])
            && (addr in s'.entries <==> addr in s.entries || CanAccess(s.world.mem, addr, w, readable))
            && (forall a :: a in s.entries ==> a in s'.entries && s'.entries[a] == s.entries[a])
  {
    WriteEffect(s.world.mem, s.entries, addr, ty, input, readable, writable);
  }

  /** Its `write_permanent` stores the same and leaves the journal alone. */
  lemma PermanentStepStores(s: Session, id: nat, addr: Addr, ty: ValType, input: seq<Byte>, writable: bool)
    requires StepPossible(s.world, WritePermanent(addr, ty, input, writable))
    ensures var s' := StepAfter(s, id, WritePermanent(addr, ty, input, writable));
            s' == Session(StepAfter(s, id, Write(addr, ty, input, false, writable)).world, s.entries)
  {
    PermanentEffect(s.world.mem, s.entries, addr, ty, input, false, writable);
  }

  /** Its `write_if` is a `write` when the value there is the expected one, and nothing otherwise. */
  lemma WriteIfStepCompares(s: Session, id: nat, addr: Addr, ty: ValType, expected: seq<Byte>, input: seq<Byte>,
                            readable: bool, writable: bool)
    requires StepPossible(s.world, WriteIf(addr, ty, expected, input, readable, writable))
    requires FixedWidth(ty).Some? && FixedWidth(ty).value <= |expected| && FixedWidth(ty).value <= |input|
    requires CanAccess(s.world.mem, addr, FixedWidth(ty).value, readable)
    ensures var (now, want) := (Load(s.world.mem, addr, FixedWidth(ty).value), expected[..FixedWidth(ty).value]);
            StepAfter(s, id, WriteIf(addr, ty, expected, input, readable, writable)) ==
            if (if IsFloat(ty) then SameFloat(ty, now, want) else now == want)
            then StepAfter(s, id, Write(addr, ty, input, readable, writable)) else s
  {
    var (now, want) := (Load(s.world.mem, addr, FixedWidth(ty).value), expected[..FixedWidth(ty).value]);
    if if IsFloat(ty) then SameFloat(ty, now, want) else now == want {
      WriteIfMatches(s.world.mem, s.entries, addr, ty, expected, input, readable, writable);
    } else {
      WriteIfDiffers(s.world.mem, s.entries, addr, ty, expected, input, readable, writable);
    }
  }

  /** Its `remove` empties the slot of the handle and no other, whoever owns it. */
  lemma RemoveStepEmpties(s: Session, id: nat, handle: nat, protect: bool)
    requires StepPossible(s.world, RemoveStep(handle, protect))
    ensures var s' := StepAfter(s, id, RemoveStep(handle, protect));
            && s'.entries == s.entries && |s'.world.slots| == |s.world.slots|
            && forall j :: 0 <= j < |s.world.slots| ==>
                 s'.world.slots[j] == if j == handle then None else s.world.slots[j]
  {
    RemoveEmpties(s.world, handle, protect);
  }

  predicate RunPossible(s: Session, id: nat, steps: seq<ScriptStep>)
    decreases |steps|
  {
    steps == [] ||
    (StepPossible(s.world, steps[0]) && RunPossible(StepAfter(s, id, steps[0]), id, steps[1..]))
  }

  function RunAfter(s: Session, id: nat, steps: seq<ScriptStep>): Session
    requires RunPossible(s, id, steps)
    decreases |steps|
  {
    if steps == [] then s else RunAfter(StepAfter(s, id, steps[0]), id, steps[1..])
  }

  /** Steps take effect one after the other, in the order the script makes them. */
  lemma {:induction false} RunJoins(s: Session, id: nat, first: seq<ScriptStep>, rest: seq<ScriptStep>)
    requires RunPossible(s, id, first + rest)
    ensures RunPossible(s, id, first) && RunPossible(RunAfter(s, id, first), id, rest)
    ensures RunAfter(s, id, first + rest) == RunAfter(RunAfter(s, id, first), id, rest)
    decreases |first|
  {
    if first == [] {
      assert first + rest == rest;
    } else {
      assert (first + rest)[1..] == first[1..] + rest;
      RunJoins(StepAfter(s, id, first[0]), id, first[1..], rest);
    }
  }

  // ----- tearing a runtime down -----

  /** `collect_owned_hook_ids` from slot `from` on, in slot order. */
  function Owned(slots: seq<Option<HookCtx>>, id: nat, from: nat): (ids: seq<nat>)
    requires from <= |slots|
    ensures forall n :: n in ids <==> from <= n < |slots| && slots[n].Some? && slots[n].value.owner == id
    ensures forall i, j :: 0 <= i < j < |ids| ==> ids[i] != ids[j]
    decreases |slots| - from
  {
    if from == |slots| then []
    else if slots[from].Some? && slots[from].value.owner == id then [from] + Owned(slots, id, from + 1)
    else Owned(slots, id, from + 1)
  }

  /** Remove the hooks one after the other; `protect` are those whose page can be made writable. */
  function UnhookAll(w: World, ids: seq<nat>, protect: set<nat>): (r: World)
    requires BitmapsFull(w.slab)
    ensures BitmapsFull(r.slab)
    decreases |ids|
  {
    if ids == [] then w
    else UnhookAll(RemoveHook(w, ids[0], ids[0] in protect).0, ids[1..], protect)
  }

  /** Steps 2 and 3 of `registry_reload`: revert the journal, then remove the runtime's hooks. */
  function Teardown(s: Session, id: nat, order: seq<Addr>, ok: set<Addr>, protect: set<nat>): World
    requires BitmapsFull(s.world.slab) && Enumerates(order, s.entries)
  {
    var w := s.world.(mem := Revert(s.world.mem, s.entries, order, ok));
    UnhookAll(w, Owned(w.slots, id, 0), protect)
  }

  // ----- what can be undone -----

  predicate Owns(w: World, n: int, id: nat) { Live(w, n) && Ctx(w, n).owner == id }

  ghost predicate OwnTrampoline(w: World, id: nat, x: Addr) {
    exists n :: Owns(w, n, id) && Within(x, Ctx(w, n).patch.trampoline, TrampolineSize(Ctx(w, n).patch))
  }

  ghost predicate OwnPrologue(w: World, id: nat, x: Addr) {
    exists n :: Owns(w, n, id) && Within(x, Ctx(w, n).patch.target, |Ctx(w, n).patch.original|)
  }

  /** A byte of the game proper: not the agent's, and not under one of the script's patches. */
  ghost predicate GameByte(w: World, id: nat, x: Addr) {
    !InSlab(w.slab, x) && !OwnTrampoline(w, id, x) && !OwnPrologue(w, id, x)
  }

  ghost predicate GameRange(w: World, id: nat, addr: Addr, len: nat) {
    forall x :: Within(x, addr, len) ==> GameByte(w, id, x)
  }

  function Widths(entries: Entries): map<Addr, nat> {
    map a | a in entries :: |entries[a]|
  }

  /** The game memory a teardown must give back, and the bytes the script has written since. */
  datatype Track = Track(base: Mem, dirty: set<Addr>)

  /** The journaled write a step performs, if it gets as far as the journal. */
  function TouchOf(s: Session, step: ScriptStep): Option<Touch> {
    match step
    case Write(addr, ty, input, readable, writable) =>
      (match TypedBytes(ty, input)
       case None => None
       case Some(data) => Some(Touch(addr, |data|, readable, writable)))
    case WriteIf(addr, ty, expected, input, readable, writable) =>
      if HostWriteIf(s.world.mem, s.entries, addr, ty, expected, input, readable, writable).status in {Done, Unwritable}
      then Some(Touch(addr, |TypedBytes(ty, input).value|, readable, writable))
      else None
    case _ => None
  }

  /** The bytes a permanent write lands, if it does. */
  function PermanentOf(s: Session, step: ScriptStep): Option<seq<Byte>> {
    match step
    case WritePermanent(addr, ty, input, writable) =>
      var data := TypedBytes(ty, input);
      if data.Some? && writable && Mapped(s.world.mem, addr, |data.value|) then data else None
    case _ => None
  }

  /**
   The conditions under which a step can be undone: journaled writes are clean and stay in the
   game; permanent writes and new patches avoid journaled ranges and the script's own patches;
   a script removes only its own hooks, and their pages can be made writable.
   */
  ghost predicate CleanStep(s: Session, id: nat, t: Track, step: ScriptStep)
    requires StepPossible(s.world, step)
  {
    match step
    case Write(_, _, _, _, _) | WriteIf(_, _, _, _, _, _) =>
      TouchOf(s, step).Some? ==> CleanGameTouch(s, id, t, TouchOf(s, step).value)
    case WritePermanent(addr, _, _, _) =>
      PermanentOf(s, step).Some? ==> UnjournaledGame(s, id, addr, |PermanentOf(s, step).value|)
    case InstallStep(methodPtr, handler, answers) =>
      InstallHook(s.world, methodPtr, handler, id, answers).1.Ok? ==>
        UnjournaledGame(s, id, answers.entry.value, answers.patch.stolen)
    case RemoveStep(handle, protect) =>
      Live(s.world, handle) ==> Owns(s.world, handle, id) && protect
  }

  ghost predicate CleanGameTouch(s: Session, id: nat, t: Track, touch: Touch) {
    var r := Reach(Widths(s.entries), t.dirty);
    && CleanTouch(s.world.mem, r, touch)
    && (Records(s.world.mem, r.widths, touch) || Lands(s.world.mem, touch) ==>
          GameRange(s.world, id, touch.addr, touch.width))
  }

  ghost predicate UnjournaledGame(s: Session, id: nat, addr: Addr, len: nat) {
    GameRange(s.world, id, addr, len) && forall x :: Within(x, addr, len) ==> !Covered(s.entries, x)
  }

  function TrackAfter(s: Session, t: Track, step: ScriptStep): Track {
    var touch, permanent := TouchOf(s, step), PermanentOf(s, step);
    if touch.Some? && Lands(s.world.mem, touch.value) then
      t.(dirty := t.dirty + Span(touch.value.addr, touch.value.width))
    else if permanent.Some? then t.(base := Store(t.base, step.addr, permanent.value))
    else t
  }

  ghost predicate CleanRun(s: Session, id: nat, t: Track, steps: seq<ScriptStep>)
    requires RunPossible(s, id, steps)
    decreases |steps|
  {
    steps == [] ||
    (CleanStep(s, id, t, steps[0]) &&
     CleanRun(StepAfter(s, id, steps[0]), id, TrackAfter(s, t, steps[0]), steps[1..]))
  }

  function TrackRun(s: Session, id: nat, t: Track, steps: seq<ScriptStep>): Track
    requires RunPossible(s, id, steps)
    decreases |steps|
  {
    if steps == [] then t
    else TrackRun(StepAfter(s, id, steps[0]), id, TrackAfter(s, t, steps[0]), steps[1..])
  }

  /** Committed memory is the game's, the slab's and the script's trampolines, apart from each other. */
  ghost predicate MapOk(w: World, id: nat, base: Mem) {
    && (forall x :: x in w.mem <==> x in base || InSlab(w.slab, x) || OwnTrampoline(w, id, x))
    && (forall x :: x in base ==> !InSlab(w.slab, x) && !OwnTrampoline(w, id, x))
  }

  /** Game bytes differ from `base` only where written or patched. */
  ghost predicate BytesOk(w: World, id: nat, t: Track) {
    forall x :: x in w.mem && x in t.base && x !in t.dirty && !OwnPrologue(w, id, x) ==> w.mem[x] == t.base[x]
  }

  /** The script's patches keep the original bytes. */
  ghost predicate PatchesOk(w: World, id: nat, base: Mem) {
    forall n :: Owns(w, n, id) ==> Holds(base, Ctx(w, n).patch.target, Ctx(w, n).patch.original)
  }

  ghost predicate RecordsOk(entries: Entries, base: Mem) {
    forall a :: a in entries ==> Holds(base, a, entries[a])
  }

  ghost predicate DirtyCovered(entries: Entries, dirty: set<Addr>) {
    forall x :: x in dirty ==> Covered(entries, x)
  }

  ghost predicate RecordsAvoidPatches(w: World, entries: Entries, id: nat) {
    forall x :: Covered(entries, x) ==> !OwnPrologue(w, id, x)
  }

  /** Where game memory can differ from `base`, the originals are on record. */
  ghost predicate Restorable(s: Session, id: nat, t: Track) {
    && Books(s.world, None)
    && MapOk(s.world, id, t.base) && BytesOk(s.world, id, t) && PatchesOk(s.world, id, t.base)
    && RecordsOk(s.entries, t.base) && DirtyCovered(s.entries, t.dirty)
    && RecordsAvoidPatches(s.world, s.entries, id)
  }

  /** Game memory is `base` again; only slab pages are extra. */
  ghost predicate Restored(w: World, base: Mem) {
    && (forall x :: x in w.mem <==> x in base || InSlab(w.slab, x))
    && (forall x :: x in base ==> !InSlab(w.slab, x) && w.mem[x] == base[x])
  }

  /** The part of memory that is not the agent's slab. */
  ghost function GameMemory(w: World): Mem {
    map x | x in w.mem && !InSlab(w.slab, x) :: w.mem[x]
  }

  ghost predicate NoHooksOf(w: World, id: nat) {
    forall n :: Live(w, n) ==> Ctx(w, n).owner != id
  }

  lemma SpawnRestorable(w: World, id: nat)
    requires Books(w, None) && NoHooksOf(w, id)
    ensures Restorable(Session(w, map[]), id, Track(GameMemory(w), {}))
  {
  }

  // ----- journaled and permanent writes -----

  /** Bookkeeping looks at which addresses are committed, not at their bytes. */
  lemma BooksIgnoreBytes(w: World, mem: Mem)
    requires Books(w, None) && mem.Keys == w.mem.Keys
    ensures Books(w.(mem := mem), None)
  {
    forall p | 0 <= p < |w.slab| ensures Mapped(mem, w.slab[p].base, PAGE_BYTES) {
      assert Mapped(w.mem, w.slab[p].base, PAGE_BYTES);
    }
    forall n | Live(w, n)
      ensures Mapped(mem, Ctx(w, n).patch.trampoline, TrampolineSize(Ctx(w, n).patch))
      ensures OffSlab(w.slab, Ctx(w, n).patch.trampoline, TrampolineSize(Ctx(w, n).patch))
    {
      assert BookedSlot(w, n, None);
    }
    BooksMoved(w, w.(mem := mem), None, None);
  }

  /** What a script owns depends on the slots alone. */
  lemma SameOwnership(w: World, w': World, id: nat)
    requires w'.slots == w.slots
    ensures forall x :: OwnTrampoline(w', id, x) <==> OwnTrampoline(w, id, x)
    ensures forall x :: OwnPrologue(w', id, x) <==> OwnPrologue(w, id, x)
    ensures forall n :: Owns(w', n, id) <==> Owns(w, n, id)
  {
    assert forall n :: Owns(w', n, id) <==> Owns(w, n, id);
    forall x ensures OwnTrampoline(w', id, x) <==> OwnTrampoline(w, id, x) {
      if OwnTrampoline(w, id, x) {
        var n :| Owns(w, n, id) && Within(x, Ctx(w, n).patch.trampoline, TrampolineSize(Ctx(w, n).patch));
        assert Owns(w', n, id);
      }
    }
    forall x ensures OwnPrologue(w', id, x) <==> OwnPrologue(w, id, x) {
      if OwnPrologue(w, id, x) {
        var n :| Owns(w, n, id) && Within(x, Ctx(w, n).patch.target, |Ctx(w, n).patch.original|);
        assert Owns(w', n, id);
      }
    }
  }

  lemma ReachedIsCovered(entries: Entries, x: Addr)
    ensures Reached(Widths(entries), x) <==> Covered(entries, x)
  {
    if Reached(Widths(entries), x) {
      var a :| a in Widths(entries) && Within(x, a, Widths(entries)[a]);
      assert Covers(entries, a, x);
    }
    if Covered(entries, x) {
      var a :| Covers(entries, a, x);
      assert a in Widths(entries) && Within(x, a, Widths(entries)[a]);
    }
  }

  /** A committed game byte that no journaled write has reached holds its original. */
  lemma CleanByte(s: Session, id: nat, t: Track, x: Addr)
    requires Restorable(s, id, t) && x in s.world.mem && x !in t.dirty && GameByte(s.world, id, x)
    ensures x in t.base && s.world.mem[x] == t.base[x]
  {
  }

  /** A clean first touch finds the original bytes. */
  lemma FindsOriginals(s: Session, id: nat, t: Track, touch: Touch)
    requires Restorable(s, id, t) && CleanGameTouch(s, id, t, touch)
    requires Records(s.world.mem, Widths(s.entries), touch)
    ensures Holds(t.base, touch.addr, Load(s.world.mem, touch.addr, touch.width))
  {
    forall x: Addr | touch.addr <= x < touch.addr + touch.width ensures x in t.base && s.world.mem[x] == t.base[x] {
      assert Within(x, touch.addr, touch.width);
      CleanByte(s, id, t, x);
    }
  }

  lemma TouchRecords(s: Session, id: nat, t: Track, touch: Touch)
    requires Restorable(s, id, t) && CleanGameTouch(s, id, t, touch)
    ensures RecordsOk(Touched(s.entries, s.world.mem, touch.addr, touch.width, touch.readable), t.base)
  {
    if Records(s.world.mem, Widths(s.entries), touch) { FindsOriginals(s, id, t, touch); }
    TouchedOk(s.entries, s.world.mem, t.base, touch);
  }

  lemma TouchedOk(entries: Entries, mem: Mem, base: Mem, touch: Touch)
    requires RecordsOk(entries, base)
    requires Records(mem, Widths(entries), touch) ==> Holds(base, touch.addr, Load(mem, touch.addr, touch.width))
    ensures RecordsOk(Touched(entries, mem, touch.addr, touch.width, touch.readable), base)
  {
  }

  lemma CoveredStays(entries: Entries, mem: Mem, touch: Touch, x: Addr)
    requires Covered(entries, x)
    ensures Covered(Touched(entries, mem, touch.addr, touch.width, touch.readable), x)
  {
    var a :| Covers(entries, a, x);
    assert Covers(Touched(entries, mem, touch.addr, touch.width, touch.readable), a, x);
  }

  lemma TouchCovers(s: Session, id: nat, t: Track, touch: Touch, dirty: set<Addr>)
    requires DirtyCovered(s.entries, t.dirty) && CleanGameTouch(s, id, t, touch)
    requires dirty <= if Lands(s.world.mem, touch) then t.dirty + Span(touch.addr, touch.width) else t.dirty
    ensures DirtyCovered(Touched(s.entries, s.world.mem, touch.addr, touch.width, touch.readable), dirty)
  {
    var entries := Touched(s.entries, s.world.mem, touch.addr, touch.width, touch.readable);
    assert Widths(entries) == ReachAfter(s.world.mem, Reach(Widths(s.entries), t.dirty), touch).widths;
    forall x | x in dirty ensures Covered(entries, x) {
      if x in t.dirty {
        CoveredStays(s.entries, s.world.mem, touch, x);
      } else {
        ReachedIsCovered(entries, x);
      }
    }
  }

  lemma TouchAvoids(s: Session, id: nat, t: Track, touch: Touch)
    requires RecordsAvoidPatches(s.world, s.entries, id) && CleanGameTouch(s, id, t, touch)
    ensures RecordsAvoidPatches(s.world, Touched(s.entries, s.world.mem, touch.addr, touch.width, touch.readable), id)
  {
    var entries := Touched(s.entries, s.world.mem, touch.addr, touch.width, touch.readable);
    forall x | Covered(entries, x) ensures !OwnPrologue(s.world, id, x) {
      var a :| Covers(entries, a, x);
      if Covers(s.entries, a, x) { assert Covered(s.entries, x); } else { assert GameByte(s.world, id, x); }
    }
  }

  lemma SamePatches(w: World, mem: Mem, id: nat, base: Mem)
    requires PatchesOk(w, id, base)
    ensures PatchesOk(w.(mem := mem), id, base)
  {
    forall n | Owns(w.(mem := mem), n, id) ensures Holds(base, Ctx(w, n).patch.target, Ctx(w, n).patch.original) {
      assert Owns(w, n, id);
    }
  }

  lemma TouchKeeps(s: Session, id: nat, t: Track, touch: Touch, data: seq<Byte>)
    requires Restorable(s, id, t) && CleanGameTouch(s, id, t, touch) && |data| == touch.width
    ensures var mem := RawWrite(s.world.mem, touch.addr, data, touch.writable);
            var entries := Touched(s.entries, s.world.mem, touch.addr, touch.width, touch.readable);
            var dirty := if Lands(s.world.mem, touch) then t.dirty + Span(touch.addr, touch.width) else t.dirty;
            Restorable(Session(s.world.(mem := mem), entries), id, t.(dirty := dirty))
  {
    var mem := RawWrite(s.world.mem, touch.addr, data, touch.writable);
    TouchRecords(s, id, t, touch);
    TouchCovers(s, id, t, touch, if Lands(s.world.mem, touch) then t.dirty + Span(touch.addr, touch.width) else t.dirty);
    TouchAvoids(s, id, t, touch);
    BooksIgnoreBytes(s.world, mem);
    SameOwnership(s.world, s.world.(mem := mem), id);
    SamePatches(s.world, mem, id, t.base);
  }

  /** Bytes outside the written range keep any record of them valid. */
  lemma RecordKept(base: Mem, addr: Addr, data: seq<Byte>, a: Addr, bytes: seq<Byte>)
    requires Holds(base, a, bytes) && forall x :: Within(x, a, |bytes|) ==> !Within(x, addr, |data|)
    ensures Holds(Store(base, addr, data), a, bytes)
  {
  }

  lemma PermanentRecords(s: Session, id: nat, base: Mem, addr: Addr, data: seq<Byte>)
    requires UnjournaledGame(s, id, addr, |data|) && PatchesOk(s.world, id, base) && RecordsOk(s.entries, base)
    ensures PatchesOk(s.world, id, Store(base, addr, data)) && RecordsOk(s.entries, Store(base, addr, data))
  {
    forall n | Owns(s.world, n, id)
      ensures Holds(Store(base, addr, data), Ctx(s.world, n).patch.target, Ctx(s.world, n).patch.original)
    {
      var p := Ctx(s.world, n).patch;
      forall x | Within(x, p.target, |p.original|) ensures !Within(x, addr, |data|) {
        assert OwnPrologue(s.world, id, x);
        assert !GameByte(s.world, id, x);
      }
      RecordKept(base, addr, data, p.target, p.original);
    }
    forall a | a in s.entries ensures Holds(Store(base, addr, data), a, s.entries[a]) {
      forall x | Within(x, a, |s.entries[a]|) ensures !Within(x, addr, |data|) {
        assert Covers(s.entries, a, x);
      }
      RecordKept(base, addr, data, a, s.entries[a]);
    }
  }

  lemma PermanentKeeps(s: Session, id: nat, t: Track, addr: Addr, data: seq<Byte>)
    requires Restorable(s, id, t) && Mapped(s.world.mem, addr, |data|)
    requires UnjournaledGame(s, id, addr, |data|)
    ensures Restorable(Session(s.world.(mem := Store(s.world.mem, addr, data)), s.entries), id,
                       t.(base := Store(t.base, addr, data)))
  {
    var mem := Store(s.world.mem, addr, data);
    BooksIgnoreBytes(s.world, mem);
    SameOwnership(s.world, s.world.(mem := mem), id);
    PermanentRecords(s, id, t.base, addr, data);
    SamePatches(s.world, mem, id, Store(t.base, addr, data));
    assert BytesOk(s.world.(mem := mem), id, t.(base := Store(t.base, addr, data))) by {
      StoreBoth(s.world.mem, t.base, addr, data);
    }
  }

  /** The same store on two memories keeps their agreement. */
  lemma StoreBoth(mem: Mem, base: Mem, addr: Addr, data: seq<Byte>)
    ensures forall x :: x in mem && x in base && mem[x] == base[x] ==>
              Store(mem, addr, data)[x] == Store(base, addr, data)[x]
  {
  }

  // ----- hooks -----

  /** Everything off the slab is as before; addresses new to the slab were not committed. */
  ghost predicate SlabOnly(w: World, w': World) {
    && w'.slots == w.slots
    && (forall x :: x in w'.mem <==> x in w.mem || InSlab(w'.slab, x))
    && (forall x :: x in w.mem && !InSlab(w.slab, x) ==> w'.mem[x] == w.mem[x])
    && (forall x :: InSlab(w.slab, x) ==> InSlab(w'.slab, x))
    && (forall x :: InSlab(w'.slab, x) && !InSlab(w.slab, x) ==> x !in w.mem)
  }

  /** The hook `c` has been published in slot `n` with its prologue patched. */
  ghost predicate Hooked(w: World, w': World, n: nat, c: HookCtx) {
    && n < |w.slots| && w.slots[n].None? && w'.slots == w.slots[n := Some(c)]
    && (forall x :: x in w'.mem <==> x in w.mem || InSlab(w'.slab, x) || Within(x, c.patch.trampoline, TrampolineSize(c.patch)))
    && (forall x :: Within(x, c.patch.trampoline, TrampolineSize(c.patch)) ==> x !in w.mem && !InSlab(w'.slab, x))
    && (forall x :: x in w.mem && !InSlab(w.slab, x) && !Within(x, c.patch.target, |c.patch.original|) ==> w'.mem[x] == w.mem[x])
    && (forall x :: Within(x, c.patch.target, |c.patch.original|) ==> x in w.mem)
    && (forall x: Addr :: Within(x, c.patch.target, |c.patch.original|) && !InSlab(w.slab, x) ==>
          c.patch.original[x - c.patch.target] == w.mem[x])
    && (forall x :: InSlab(w.slab, x) ==> InSlab(w'.slab, x))
    && (forall x :: InSlab(w'.slab, x) && !InSlab(w.slab, x) ==> x !in w.mem)
  }

  lemma EmitFreeEffect(w: World, id: nat, page: Option<Addr>)
    requires Books(w, None) && PageAnswerOk(w.mem, page)
    requires Emit(w.slab, w.mem, id, w.shim, page).thunk.Some?
    ensures var e := Emit(w.slab, w.mem, id, w.shim, page);
            var (slab, mem) := Free(e.slab, e.mem, e.thunk.value);
            SlabOnly(w, w.(mem := mem, slab := slab))
  {
    var e := Emit(w.slab, w.mem, id, w.shim, page);
    EmitKeeps(w.slab, w.mem, id, w.shim, page);
    FreeKeeps(e.slab, e.mem, e.thunk.value);
  }

  /** What writing a patch does to a memory. */
  ghost predicate Patched(mem: Mem, m: Mem, p: Patch) {
    && (forall x :: x in m <==> x in mem || Within(x, p.trampoline, TrampolineSize(p)))
    && (forall x :: Within(x, p.trampoline, TrampolineSize(p)) ==> x !in mem)
    && (forall x :: x in mem && !Within(x, p.target, |p.original|) ==> m[x] == mem[x])
    && (forall x: Addr :: Within(x, p.target, |p.original|) ==> x in mem && p.original[x - p.target] == mem[x])
  }

  lemma PatchEffect(mem: Mem, target: Addr, detour: Addr, a: PatchAnswers)
    requires AnswersOk(mem, target, a) && InlineDetour.Install(mem, target, detour, a).1.Some?
    ensures var (m, p) := InlineDetour.Install(mem, target, detour, a);
            Patched(mem, m, p.value) && p.value.target == target && |p.value.original| == a.stolen
  {
  }

  lemma EmitThenPatch(w: World, e: Emitted, m: Mem, id: nat, c: HookCtx)
    requires id < |w.slots| && w.slots[id].None? && Patched(e.mem, m, c.patch)
    requires forall x :: x in w.mem && !InSlab(w.slab, x) ==> x in e.mem && e.mem[x] == w.mem[x]
    requires forall x :: x in e.mem <==> x in w.mem || InSlab(e.slab, x)
    requires forall x :: InSlab(w.slab, x) ==> InSlab(e.slab, x)
    requires forall x :: InSlab(e.slab, x) && !InSlab(w.slab, x) ==> x !in w.mem
    requires forall x :: Within(x, c.patch.target, |c.patch.original|) ==> x in w.mem
    ensures Hooked(w, World(m, w.slots[id := Some(c)], e.slab, w.shim), id, c)
  {
  }

  lemma EmitPatchEffect(w: World, id: nat, page: Option<Addr>, c: HookCtx, a: PatchAnswers)
    requires Books(w, None) && PageAnswerOk(w.mem, page) && id < |w.slots| && w.slots[id].None?
    requires Emit(w.slab, w.mem, id, w.shim, page).thunk == Some(c.thunk)
    requires AnswersOk(w.mem, c.patch.target, a)
    requires AnswersOk(Emit(w.slab, w.mem, id, w.shim, page).mem, c.patch.target, a)
    requires InlineDetour.Install(Emit(w.slab, w.mem, id, w.shim, page).mem, c.patch.target, c.thunk, a).1 == Some(c.patch)
    ensures var e := Emit(w.slab, w.mem, id, w.shim, page);
            Hooked(w, Published(w.(mem := e.mem, slab := e.slab), id, c, a), id, c)
  {
    var e := Emit(w.slab, w.mem, id, w.shim, page);
    EmitKeeps(w.slab, w.mem, id, w.shim, page);
    PatchEffect(e.mem, c.patch.target, c.thunk, a);
    EmitThenPatch(w, e, InlineDetour.Install(e.mem, c.patch.target, c.thunk, a).0, id, c);
  }

  lemma InstallEffect(w: World, methodPtr: nat, handler: nat, owner: nat, a: InstallAnswers)
    requires Books(w, None) && InstallAnswersOk(w, a)
    ensures var (w', r) := InstallHook(w, methodPtr, handler, owner, a);
            match r
            case Err(_) => SlabOnly(w, w')
            case Ok(n) =>
              && n < |w'.slots| && w'.slots[n].Some? && Hooked(w, w', n, w'.slots[n].value)
              && w'.slots[n].value.owner == owner && a.entry == Some(w'.slots[n].value.patch.target)
              && |w'.slots[n].value.patch.original| == a.patch.stolen
  {
    var id := FirstVacant(w.slots);
    if a.signature && id < |w.slots| {
      var e := Emit(w.slab, w.mem, id, w.shim, a.page);
      if e.thunk.Some? {
        EmitFreeEffect(w, id, a.page);
        if a.ready && a.entry.Some? && a.entry.value != 0 {
          AnswersOkAfterEmit(w, id, a);
          var (patched, patch) := InlineDetour.Install(e.mem, a.entry.value, e.thunk.value, a.patch);
          if patch.None? {
            RefusedInstallNoTrace(e.mem, a.entry.value, e.thunk.value, a.patch);
          } else {
            EmitPatchEffect(w, id, a.page, HookCtx(methodPtr, handler, owner, e.thunk.value, patch.value), a.patch);
          }
        }
      }
    }
  }

  lemma SlabOnlyKeeps(s: Session, w': World, id: nat, t: Track)
    requires Restorable(s, id, t) && SlabOnly(s.world, w') && Books(w', None)
    ensures Restorable(Session(w', s.entries), id, t)
  {
    SameOwnership(s.world, w', id);
  }

  /** The script's ranges once `c`, its own new hook, is published in the vacant slot `k`. */
  lemma OwnershipGrows(w: World, w': World, id: nat, k: nat, c: HookCtx)
    requires k < |w.slots| && w.slots[k].None? && w'.slots == w.slots[k := Some(c)] && c.owner == id
    ensures forall x :: OwnTrampoline(w', id, x) <==>
              OwnTrampoline(w, id, x) || Within(x, c.patch.trampoline, TrampolineSize(c.patch))
    ensures forall x :: OwnPrologue(w', id, x) <==>
              OwnPrologue(w, id, x) || Within(x, c.patch.target, |c.patch.original|)
    ensures forall n :: Owns(w', n, id) <==> Owns(w, n, id) || n == k
  {
    assert Owns(w', k, id);
    forall n ensures Owns(w', n, id) <==> Owns(w, n, id) || n == k {}
    forall x ensures OwnTrampoline(w', id, x) <==>
      OwnTrampoline(w, id, x) || Within(x, c.patch.trampoline, TrampolineSize(c.patch))
    {
      if OwnTrampoline(w, id, x) {
        var n :| Owns(w, n, id) && Within(x, Ctx(w, n).patch.trampoline, TrampolineSize(Ctx(w, n).patch));
        assert Owns(w', n, id);
      }
    }
    forall x ensures OwnPrologue(w', id, x) <==>
      OwnPrologue(w, id, x) || Within(x, c.patch.target, |c.patch.original|)
    {
      if OwnPrologue(w, id, x) {
        var n :| Owns(w, n, id) && Within(x, Ctx(w, n).patch.target, |Ctx(w, n).patch.original|);
        assert Owns(w', n, id);
      }
    }
  }

  lemma HookedKeeps(s: Session, w': World, id: nat, t: Track, k: nat, c: HookCtx)
    requires Restorable(s, id, t) && Hooked(s.world, w', k, c) && Books(w', None) && c.owner == id
    requires UnjournaledGame(s, id, c.patch.target, |c.patch.original|)
    ensures Restorable(Session(w', s.entries), id, t)
  {
    OwnershipGrows(s.world, w', id, k, c);
    forall x: Addr | Within(x, c.patch.target, |c.patch.original|)
      ensures x in t.base && c.patch.original[x - c.patch.target] == t.base[x]
    {
      assert GameByte(s.world, id, x) && x in s.world.mem;
      assert x !in t.dirty by { assert !Covered(s.entries, x); }
    }
    assert Holds(t.base, c.patch.target, c.patch.original);
    forall n | Owns(w', n, id) ensures Holds(t.base, Ctx(w', n).patch.target, Ctx(w', n).patch.original) {
      if n != k { assert Owns(s.world, n, id); }
    }
  }

  lemma InstallStepKeeps(s: Session, id: nat, t: Track, methodPtr: nat, handler: nat, a: InstallAnswers)
    requires Restorable(s, id, t) && InstallAnswersOk(s.world, a)
    requires InstallHook(s.world, methodPtr, handler, id, a).1.Ok? ==>
               UnjournaledGame(s, id, a.entry.value, a.patch.stolen)
    ensures Restorable(Session(InstallHook(s.world, methodPtr, handler, id, a).0, s.entries), id, t)
  {
    InstallEffect(s.world, methodPtr, handler, id, a);
    InstallBooks(s.world, methodPtr, handler, id, a);
    var (w', r) := InstallHook(s.world, methodPtr, handler, id, a);
    match r
    case Err(_) => SlabOnlyKeeps(s, w', id, t);
    case Ok(n) => HookedKeeps(s, w', id, t, n, w'.slots[n].value);
  }

  /** The hook of slot `h` is gone, and so is its trampoline. */
  ghost predicate Released(w: World, w': World, h: nat, c: HookCtx) {
    && h < |w.slots| && w.slots[h] == Some(c) && w'.slots == w.slots[h := None]
    && (forall x :: x in w'.mem <==> x in w.mem && !Within(x, c.patch.trampoline, TrampolineSize(c.patch)))
    && (forall x :: InSlab(w'.slab, x) <==> InSlab(w.slab, x))
  }

  /** What the removal left in memory: the original prologue, if its page could be made writable. */
  ghost predicate Unhooked(w: World, w': World, h: nat, c: HookCtx, protect: bool) {
    && Released(w, w', h, c)
    && (forall x :: x in w'.mem && !InSlab(w.slab, x) ==>
          w'.mem[x] == if protect && Within(x, c.patch.target, |c.patch.original|) then c.patch.original[x - c.patch.target]
                       else w.mem[x])
  }

  lemma RemoveEffect(w: World, h: nat, protect: bool)
    requires Books(w, None) && Live(w, h)
    ensures Unhooked(w, RemoveHook(w, h, protect).0, h, Ctx(w, h), protect)
  {
    var c := Ctx(w, h);
    var m := Uninstall(w.mem, c.patch, protect);
    assert BookedSlot(w, h, None);
    forall p | 0 <= p < |w.slab| ensures Mapped(m, w.slab[p].base, PAGE_BYTES) {
      assert Mapped(w.mem, w.slab[p].base, PAGE_BYTES);
      assert Apart(w.slab[p].base, PAGE_BYTES, c.patch.trampoline, TrampolineSize(c.patch));
    }
    FreeKeeps(w.slab, m, c.thunk);
  }

  lemma TrampolinesShrink(w: World, w': World, id: nat, h: nat, c: HookCtx, x: Addr)
    requires Books(w, None) && Released(w, w', h, c) && c.owner == id
    ensures OwnTrampoline(w', id, x) <==>
              OwnTrampoline(w, id, x) && !Within(x, c.patch.trampoline, TrampolineSize(c.patch))
  {
    if OwnTrampoline(w', id, x) {
      var n :| Owns(w', n, id) && Within(x, Ctx(w', n).patch.trampoline, TrampolineSize(Ctx(w', n).patch));
      assert Owns(w, n, id) && Live(w, h) && BookedApart(w, n, h);
    }
    if OwnTrampoline(w, id, x) && !Within(x, c.patch.trampoline, TrampolineSize(c.patch)) {
      var n :| Owns(w, n, id) && Within(x, Ctx(w, n).patch.trampoline, TrampolineSize(Ctx(w, n).patch));
      assert Owns(w', n, id);
    }
  }

  lemma ProloguesShrink(w: World, w': World, id: nat, h: nat, c: HookCtx, x: Addr)
    requires Released(w, w', h, c) && c.owner == id
    ensures OwnPrologue(w, id, x) ==> OwnPrologue(w', id, x) || Within(x, c.patch.target, |c.patch.original|)
    ensures OwnPrologue(w', id, x) ==> OwnPrologue(w, id, x)
  {
    if OwnPrologue(w, id, x) && !Within(x, c.patch.target, |c.patch.original|) {
      var n :| Owns(w, n, id) && Within(x, Ctx(w, n).patch.target, |Ctx(w, n).patch.original|);
      assert Owns(w', n, id);
    }
    if OwnPrologue(w', id, x) {
      var n :| Owns(w', n, id) && Within(x, Ctx(w', n).patch.target, |Ctx(w', n).patch.original|);
      assert Owns(w, n, id);
    }
  }

  lemma OwnershipShrinks(w: World, w': World, id: nat, h: nat, c: HookCtx)
    requires Books(w, None) && Released(w, w', h, c) && c.owner == id
    ensures forall x :: OwnTrampoline(w', id, x) <==>
              OwnTrampoline(w, id, x) && !Within(x, c.patch.trampoline, TrampolineSize(c.patch))
    ensures forall x :: OwnPrologue(w, id, x) ==>
              OwnPrologue(w', id, x) || Within(x, c.patch.target, |c.patch.original|)
    ensures forall x :: OwnPrologue(w', id, x) ==> OwnPrologue(w, id, x)
    ensures forall n :: Owns(w', n, id) <==> Owns(w, n, id) && n != h
  {
    forall n ensures Owns(w', n, id) <==> Owns(w, n, id) && n != h {}
    forall x ensures OwnTrampoline(w', id, x) <==>
      OwnTrampoline(w, id, x) && !Within(x, c.patch.trampoline, TrampolineSize(c.patch))
    {
      TrampolinesShrink(w, w', id, h, c, x);
    }
    forall x | OwnPrologue(w, id, x) ensures OwnPrologue(w', id, x) || Within(x, c.patch.target, |c.patch.original|) {
      ProloguesShrink(w, w', id, h, c, x);
    }
    forall x | OwnPrologue(w', id, x) ensures OwnPrologue(w, id, x) { ProloguesShrink(w, w', id, h, c, x); }
  }

  lemma UnhookedMapOk(w: World, w': World, id: nat, base: Mem, h: nat, c: HookCtx)
    requires Books(w, None) && MapOk(w, id, base) && Released(w, w', h, c) && c.owner == id
    ensures MapOk(w', id, base)
  {
    OwnershipShrinks(w, w', id, h, c);
    assert Owns(w, h, id);
    forall x | Within(x, c.patch.trampoline, TrampolineSize(c.patch)) ensures OwnTrampoline(w, id, x) {}
  }

  lemma UnhookedBytesOk(w: World, w': World, id: nat, t: Track, h: nat, c: HookCtx)
    requires Books(w, None) && MapOk(w, id, t.base) && BytesOk(w, id, t) && PatchesOk(w, id, t.base)
    requires Unhooked(w, w', h, c, true) && c.owner == id
    ensures BytesOk(w', id, t) && PatchesOk(w', id, t.base)
  {
    OwnershipShrinks(w, w', id, h, c);
    assert Owns(w, h, id);
    assert Holds(t.base, c.patch.target, c.patch.original);
    forall n | Owns(w', n, id) ensures Holds(t.base, Ctx(w', n).patch.target, Ctx(w', n).patch.original) {
      assert Owns(w, n, id);
    }
  }

  lemma RemoveStepKeeps(s: Session, id: nat, t: Track, h: nat)
    requires Restorable(s, id, t) && Owns(s.world, h, id)
    ensures Restorable(Session(RemoveHook(s.world, h, true).0, s.entries), id, t)
  {
    var w' := RemoveHook(s.world, h, true).0;
    var c := Ctx(s.world, h);
    RemoveBooks(s.world, h, true);
    RemoveEffect(s.world, h, true);
    UnhookedMapOk(s.world, w', id, t.base, h, c);
    UnhookedBytesOk(s.world, w', id, t, h, c);
    assert RecordsAvoidPatches(w', s.entries, id) by { OwnershipShrinks(s.world, w', id, h, c); }
  }

  // ----- whole runs -----

  lemma StepKeeps(s: Session, id: nat, t: Track, step: ScriptStep)
    requires Restorable(s, id, t) && StepPossible(s.world, step) && CleanStep(s, id, t, step)
    ensures Restorable(StepAfter(s, id, step), id, TrackAfter(s, t, step))
  {
    match step
    case Write(addr, ty, input, readable, writable) =>
      WriteStepKeeps(s, id, t, step);
    case WriteIf(addr, ty, expected, input, readable, writable) =>
      WriteStepKeeps(s, id, t, step);
    case WritePermanent(addr, ty, input, writable) =>
      if PermanentOf(s, step).Some? { PermanentKeeps(s, id, t, addr, PermanentOf(s, step).value); }
    case InstallStep(methodPtr, handler, answers) =>
      InstallStepKeeps(s, id, t, methodPtr, handler, answers);
    case RemoveStep(handle, protect) =>
      if Live(s.world, handle) { RemoveStepKeeps(s, id, t, handle); }
  }

  /** A write step is nothing, or exactly one touch and guarded write of the typed bytes. */
  lemma WriteStepEffect(s: Session, id: nat, step: ScriptStep)
    requires (step.Write? || step.WriteIf?) && StepPossible(s.world, step)
    ensures match TouchOf(s, step)
            case None => StepAfter(s, id, step) == s
            case Some(touch) =>
              && touch.addr == step.addr && TypedBytes(step.ty, step.input).Some?
              && var data := TypedBytes(step.ty, step.input).value;
                 |data| == touch.width &&
                 StepAfter(s, id, step) ==
                   Session(s.world.(mem := RawWrite(s.world.mem, touch.addr, data, touch.writable)),
                           Touched(s.entries, s.world.mem, touch.addr, touch.width, touch.readable))
  {
  }

  lemma WriteStepKeeps(s: Session, id: nat, t: Track, step: ScriptStep)
    requires (step.Write? || step.WriteIf?) && StepPossible(s.world, step)
    requires Restorable(s, id, t) && CleanStep(s, id, t, step)
    ensures Restorable(StepAfter(s, id, step), id, TrackAfter(s, t, step))
  {
    WriteStepEffect(s, id, step);
    match TouchOf(s, step)
    case None =>
    case Some(touch) => TouchKeeps(s, id, t, touch, TypedBytes(step.ty, step.input).value);
  }

  lemma {:induction false} RunKeeps(s: Session, id: nat, t: Track, steps: seq<ScriptStep>)
    requires Restorable(s, id, t) && RunPossible(s, id, steps) && CleanRun(s, id, t, steps)
    ensures Restorable(RunAfter(s, id, steps), id, TrackRun(s, id, t, steps))
    decreases |steps|
  {
    if steps == [] {
    } else {
      StepKeeps(s, id, t, steps[0]);
      RunKeeps(StepAfter(s, id, steps[0]), id, TrackAfter(s, t, steps[0]), steps[1..]);
    }
  }

  // ----- teardown -----

  lemma RevertKeeps(s: Session, id: nat, t: Track, order: seq<Addr>, ok: set<Addr>)
    requires Restorable(s, id, t) && Enumerates(order, s.entries) && s.entries.Keys <= ok
    ensures var mem := Revert(s.world.mem, s.entries, order, ok);
            Restorable(Session(s.world.(mem := mem), map[]), id, t.(dirty := {}))
  {
    var mem := Revert(s.world.mem, s.entries, order, ok);
    var w' := s.world.(mem := mem);
    RevertRestores(s.world.mem, s.entries, order, ok, t.base);
    BooksIgnoreBytes(s.world, mem);
    SameOwnership(s.world, s.world.(mem := mem), id);
    SamePatches(s.world, mem, id, t.base);
    forall x | x in mem && x in t.base && !OwnPrologue(w', id, x) ensures mem[x] == t.base[x] {
      if Covered(s.entries, x) {
        var a :| Covers(s.entries, a, x);
        assert a in order;
      }
    }
    assert forall x :: !Covered(map[], x);
  }

  lemma RemoveSlots(w: World, h: nat, protect: bool)
    requires BitmapsFull(w.slab) && Live(w, h)
    ensures RemoveHook(w, h, protect).0.slots == w.slots[h := None]
  {
  }

  lemma StillOwned(w: World, w': World, id: nat, ids: seq<nat>)
    requires ids != [] && ids[0] < |w.slots| && w'.slots == w.slots[ids[0] := None]
    requires forall n :: n in ids ==> Owns(w, n, id)
    requires forall i, j :: 0 <= i < j < |ids| ==> ids[i] != ids[j]
    ensures forall n :: n in ids[1..] ==> Owns(w', n, id) && n != ids[0]
  {
    forall n | n in ids[1..] ensures Owns(w', n, id) && n != ids[0] {
      var i :| 0 <= i < |ids[1..]| && ids[1..][i] == n;
      assert ids[i + 1] == n && Owns(w, n, id);
    }
  }

  /** Removing all hooks of the script, in any order without repeats. */
  lemma {:induction false} UnhookKeeps(w: World, id: nat, base: Mem, ids: seq<nat>, protect: set<nat>)
    requires Restorable(Session(w, map[]), id, Track(base, {}))
    requires forall n :: n in ids ==> Owns(w, n, id) && n in protect
    requires forall i, j :: 0 <= i < j < |ids| ==> ids[i] != ids[j]
    ensures var r := UnhookAll(w, ids, protect);
            && Restorable(Session(r, map[]), id, Track(base, {}))
            && |r.slots| == |w.slots|
            && (forall n :: 0 <= n < |w.slots| ==> r.slots[n] == if n in ids then None else w.slots[n])
    decreases |ids|
  {
    if ids == [] {
    } else {
      var h := ids[0];
      assert h in ids;
      RemoveStepKeeps(Session(w, map[]), id, Track(base, {}), h);
      RemoveSlots(w, h, true);
      var w' := RemoveHook(w, h, true).0;
      StillOwned(w, w', id, ids);
      UnhookKeeps(w', id, base, ids[1..], protect);
    }
  }

  lemma TeardownRestores(s: Session, id: nat, t: Track, order: seq<Addr>, ok: set<Addr>, protect: set<nat>)
    requires Restorable(s, id, t) && Enumerates(order, s.entries) && s.entries.Keys <= ok
    requires forall n :: Owns(s.world, n, id) ==> n in protect
    ensures var w := Teardown(s, id, order, ok, protect);
            && Books(w, None) && Restored(w, t.base) && |w.slots| == |s.world.slots|
            && (forall n :: 0 <= n < |w.slots| ==>
                  w.slots[n] == if Owns(s.world, n, id) then None else s.world.slots[n])
  {
    RevertKeeps(s, id, t, order, ok);
    var w1 := s.world.(mem := Revert(s.world.mem, s.entries, order, ok));
    var ids := Owned(w1.slots, id, 0);
    forall n | n in ids ensures Owns(w1, n, id) && n in protect {
      assert Owns(s.world, n, id);
    }
    UnhookKeeps(w1, id, t.base, ids, protect);
    var w := UnhookAll(w1, ids, protect);
    forall x ensures !OwnTrampoline(w, id, x) && !OwnPrologue(w, id, x) {
      forall n ensures !Owns(w, n, id) {
        if Live(w, n) { assert n !in ids; }
      }
    }
  }

  /** Slots published before the session are as they were; the others are the session's own. */
  ghost predicate SlotsSince(w0: World, w: World, id: nat) {
    && |w.slots| == |w0.slots|
    && forall n :: 0 <= n < |w.slots| ==>
         w.slots[n] == w0.slots[n] || (w0.slots[n].None? && Owns(w, n, id))
  }

  lemma StepSlots(w0: World, s: Session, id: nat, t: Track, step: ScriptStep)
    requires NoHooksOf(w0, id) && SlotsSince(w0, s.world, id) && Restorable(s, id, t)
    requires StepPossible(s.world, step) && CleanStep(s, id, t, step)
    ensures SlotsSince(w0, StepAfter(s, id, step).world, id)
  {
    match step
    case Write(_, _, _, _, _) =>
    case WriteIf(_, _, _, _, _, _) =>
    case WritePermanent(_, _, _, _) =>
    case InstallStep(methodPtr, handler, answers) =>
      InstallEffect(s.world, methodPtr, handler, id, answers);
    case RemoveStep(handle, protect) =>
      if Live(s.world, handle) { assert !(Live(w0, handle) && Ctx(w0, handle).owner == id); }
  }

  lemma {:induction false} RunSlots(w0: World, s: Session, id: nat, t: Track, steps: seq<ScriptStep>)
    requires NoHooksOf(w0, id) && SlotsSince(w0, s.world, id)
    requires Restorable(s, id, t) && RunPossible(s, id, steps) && CleanRun(s, id, t, steps)
    ensures SlotsSince(w0, RunAfter(s, id, steps).world, id)
    decreases |steps|
  {
    if steps == [] {
    } else {
      StepSlots(w0, s, id, t, steps[0]);
      StepKeeps(s, id, t, steps[0]);
      RunSlots(w0, StepAfter(s, id, steps[0]), id, TrackAfter(s, t, steps[0]), steps[1..]);
    }
  }

  function Spawned(w: World): Session { Session(w, map[]) }

  ghost function Fresh(w: World): Track { Track(GameMemory(w), {}) }

  /** A script's life: what it did, and how the system answered while it was torn down. */
  datatype Life = Life(steps: seq<ScriptStep>, order: seq<Addr>, ok: set<Addr>, protect: set<nat>)

  ghost predicate CleanLife(w: World, id: nat, life: Life) {
    && RunPossible(Spawned(w), id, life.steps) && CleanRun(Spawned(w), id, Fresh(w), life.steps)
    && var s := RunAfter(Spawned(w), id, life.steps);
       && BitmapsFull(s.world.slab) && Enumerates(life.order, s.entries)
       && s.entries.Keys <= life.ok
       && forall n :: Owns(s.world, n, id) ==> n in life.protect
  }

  ghost function AfterLife(w: World, id: nat, life: Life): World
    requires CleanLife(w, id, life)
  {
    Teardown(RunAfter(Spawned(w), id, life.steps), id, life.order, life.ok, life.protect)
  }

  /**
   Whatever a script wrote through the journal and hooked, tearing its runtime down gives back
   the game memory it was spawned in, with exactly its permanent writes applied, and the hook
   table it was spawned in. The order in which the journal is walked does not matter.
   */
  lemma WholeRunRestores(w: World, id: nat, life: Life)
    requires Books(w, None) && NoHooksOf(w, id) && CleanLife(w, id, life)
    ensures GameMemory(AfterLife(w, id, life)) == TrackRun(Spawned(w), id, Fresh(w), life.steps).base
    ensures AfterLife(w, id, life).slots == w.slots && Books(AfterLife(w, id, life), None)
  {
    SpawnRestorable(w, id);
    RunKeeps(Spawned(w), id, Fresh(w), life.steps);
    RunSlots(w, Spawned(w), id, Fresh(w), life.steps);
    var s := RunAfter(Spawned(w), id, life.steps);
    var t := TrackRun(Spawned(w), id, Fresh(w), life.steps);
    TeardownRestores(s, id, t, life.order, life.ok, life.protect);
    RestoredIsBase(AfterLife(w, id, life), t.base);
    SlotsBack(w, s.world, AfterLife(w, id, life), id);
  }

  lemma RestoredIsBase(w: World, base: Mem)
    requires Restored(w, base)
    ensures GameMemory(w) == base
  {
  }

  lemma SlotsBack(w0: World, w: World, w': World, id: nat)
    requires NoHooksOf(w0, id) && SlotsSince(w0, w, id) && |w'.slots| == |w.slots|
    requires forall n :: 0 <= n < |w'.slots| ==> w'.slots[n] == if Owns(w, n, id) then None else w.slots[n]
    ensures w'.slots == w0.slots
  {
    forall n | 0 <= n < |w0.slots| ensures w'.slots[n] == w0.slots[n] {
      assert Live(w0, n) ==> Ctx(w0, n).owner != id;
    }
  }

  /** Without permanent writes the game memory to give back is the one found at spawn. */
  lemma {:induction false} NoPermanentSameBase(s: Session, id: nat, t: Track, steps: seq<ScriptStep>)
    requires RunPossible(s, id, steps) && forall i :: 0 <= i < |steps| ==> !steps[i].WritePermanent?
    ensures TrackRun(s, id, t, steps).base == t.base
    decreases |steps|
  {
    if steps == [] {
    } else {
      NoPermanentSameBase(StepAfter(s, id, steps[0]), id, TrackAfter(s, t, steps[0]), steps[1..]);
    }
  }

  ghost predicate CleanLives(w: World, next: nat, lives: seq<Life>)
    decreases |lives|
  {
    lives == [] ||
    (CleanLife(w, next, lives[0]) && CleanLives(AfterLife(w, next, lives[0]), next + 1, lives[1..]))
  }

  ghost function AfterLives(w: World, next: nat, lives: seq<Life>): World
    requires CleanLives(w, next, lives)
    decreases |lives|
  {
    if lives == [] then w else AfterLives(AfterLife(w, next, lives[0]), next + 1, lives[1..])
  }

  /** Runtime ids are handed out in increasing order and never reused. */
  ghost predicate OwnersBelow(w: World, next: nat) {
    forall n :: Live(w, n) ==> Ctx(w, n).owner < next
  }

  /** Any number of hot reloads in a row leaves the game as it was before the first. */
  lemma {:induction false} ManyReloadsRestore(w: World, next: nat, lives: seq<Life>)
    requires Books(w, None) && OwnersBelow(w, next) && CleanLives(w, next, lives)
    requires forall i, k :: 0 <= i < |lives| && 0 <= k < |lives[i].steps| ==> !lives[i].steps[k].WritePermanent?
    ensures GameMemory(AfterLives(w, next, lives)) == GameMemory(w)
    ensures AfterLives(w, next, lives).slots == w.slots
    decreases |lives|
  {
    if lives == [] {
    } else {
      assert NoHooksOf(w, next);
      WholeRunRestores(w, next, lives[0]);
      NoPermanentSameBase(Spawned(w), next, Fresh(w), lives[0].steps);
      var w' := AfterLife(w, next, lives[0]);
      assert OwnersBelow(w', next + 1) by {
        forall n | Live(w', n) ensures Ctx(w', n).owner < next + 1 { assert Live(w, n); }
      }
      ManyReloadsRestore(w', next + 1, lives[1..]);
    }
  }
}
