/**
 Scripts whose main function traps. Such a script is never registered (`mem_host.rs`), so no
 reload reverts its journal or collects its hooks (`orchestrator.rs`).
 */
module TrappedScripts {
  import opened Bytes
  import opened MemValue
  import opened ProcessMemory
  import opened ThunkSlab
  import opened HookRuntime
  import opened WriteJournal
  import opened HotReload
  import opened ReloadExactness
  import opened ReloadLoop

  // ----- loading and unloading -----

  /** The script has no hooks left, and every byte it wrote has its original value again. */
  ghost predicate LeavesNothing(s: Session, id: nat, t: Track) {
    && (forall n :: !Owns(s.world, n, id))
    && forall x :: x in t.dirty ==> x in s.world.mem && x in t.base && s.world.mem[x] == t.base[x]
  }

  /** A restorable session needs no teardown exactly when it leaves nothing. */
  lemma NothingToUndo(w0: World, s: Session, id: nat, t: Track)
    requires Restorable(s, id, t) && NoHooksOf(w0, id) && SlotsSince(w0, s.world, id)
    ensures GameMemory(s.world) == t.base && s.world.slots == w0.slots <==> LeavesNothing(s, id, t)
  {
    if LeavesNothing(s, id, t) {
      forall x ensures !OwnTrampoline(s.world, id, x) && !OwnPrologue(s.world, id, x) {}
      assert GameMemory(s.world) == t.base;
    } else if GameMemory(s.world) == t.base && s.world.slots == w0.slots {
      forall n ensures !Owns(s.world, n, id) {
        if Live(s.world, n) { assert Live(w0, n); }
      }
      forall x | x in t.dirty ensures x in s.world.mem && x in t.base && s.world.mem[x] == t.base[x] {
        DirtyInBase(s, id, t, x);
        assert x in GameMemory(s.world);
      }
      assert false;
    }
  }

  lemma DirtyInBase(s: Session, id: nat, t: Track, x: Addr)
    requires Restorable(s, id, t) && x in t.dirty
    ensures x in t.base
  {
    var a :| Covers(s.entries, a, x);
    assert Holds(t.base, a, s.entries[a]);
  }

  /**
   Loading a clean script and unloading whatever then runs gives back the game memory found
   before, with the script's permanent writes, and the hook table, exactly when its main function
   completed or it left nothing behind by itself.
   */
  lemma LoadUnloadExactly(h: Host, main: seq<ScriptStep>, completes: bool, load: Walk, walk: Walk)
    requires h.live.None? && Books(h.world, None) && OwnersBelow(h.world, h.nextId)
    requires ReloadPossible(h, Wasm(main, completes), load) && CleanRun(Spawned(h.world), h.nextId, Fresh(h.world), main)
    requires TearPossible(AfterReload(h, Wasm(main, completes), load), walk)
    requires Accepts(AfterReload(h, Wasm(main, completes), load), walk)
    ensures var end := StartOf(AfterReload(h, Wasm(main, completes), load), walk);
            var s, t := RunAfter(Spawned(h.world), h.nextId, main), TrackRun(Spawned(h.world), h.nextId, Fresh(h.world), main);
            GameMemory(end) == t.base && end.slots == h.world.slots <==> completes || LeavesNothing(s, h.nextId, t)
  {
    var w, id := h.world, h.nextId;
    var s, t := RunAfter(Spawned(w), id, main), TrackRun(Spawned(w), id, Fresh(w), main);
    assert NoHooksOf(w, id);
    if completes {
      WholeRunRestores(w, id, Life(main, walk.order, walk.ok, walk.protect));
    } else {
      SpawnRestorable(w, id);
      RunKeeps(Spawned(w), id, Fresh(w), main);
      RunSlots(w, Spawned(w), id, Fresh(w), main);
      NothingToUndo(w, s, id, t);
    }
  }

  // ----- a game in which it happens -----

  function Poke(): ScriptStep { Write(ENTRY, TyU8, [1], true, true) }

  function Trapping(): Script { Wasm([Poke()], false) }

  lemma PokeLands(w: World)
    requires Ready(w)
    ensures StepPossible(w, Poke()) && StepAfter(Spawned(w), 1, Poke()).world == w.(mem := w.mem[ENTRY := 1])
  {
    assert Store(w.mem, ENTRY, [1]) == w.mem[ENTRY := 1];
  }

  lemma PokeClean(w: World)
    requires Ready(w)
    ensures RunPossible(Spawned(w), 1, [Poke()]) && CleanRun(Spawned(w), 1, Fresh(w), [Poke()])
  {
    assert CleanStep(Spawned(w), 1, Fresh(w), Poke());
  }

  lemma PokeRun(w: World, steps: seq<ScriptStep>)
    requires steps == [Poke()] && StepPossible(w, Poke())
    ensures RunPossible(Spawned(w), 1, steps)
    ensures RunAfter(Spawned(w), 1, steps) == StepAfter(Spawned(w), 1, Poke())
  {
    assert steps[1..] == [];
  }

  /** One write by a script that then traps: the next script finds it. */
  lemma TrapWitness(h: Host, walk: Walk)
    requires h == Host(ZeroGame(), None, 1, None)
    ensures var events := [Fallback(Trapping(), walk), Fallback(Wasm([], true), walk)];
            && LoopPossible(h, events) && Grounded(h, Ground(Fresh(h.world), h.world.slots))
            && CleanRun(Spawned(h.world), 1, Fresh(h.world), [Poke()])
            && ENTRY in GameMemory(h.world) && GameMemory(h.world)[ENTRY] == 0
            && var r := Reloads(h, events)[1];
               r.Some? && ENTRY in GameMemory(r.value.start) && GameMemory(r.value.start)[ENTRY] == 1
  {
    ZeroGameReady();
    PokeLands(h.world);
    PokeClean(h.world);
    PokeRun(h.world, [Poke()]);
  }

  // ----- hooks nobody collects -----

  /** The hook `c` is published in slot `n`. */
  predicate Has(w: World, n: nat, c: HookCtx) { n < |w.slots| && w.slots[n] == Some(c) }

  predicate Removes(steps: seq<ScriptStep>, n: nat) {
    exists k :: 0 <= k < |steps| && steps[k].RemoveStep? && steps[k].handle == n
  }

  lemma StepHas(s: Session, id: nat, step: ScriptStep, n: nat, c: HookCtx)
    requires StepPossible(s.world, step) && c.owner != id
    ensures Has(StepAfter(s, id, step).world, n, c) <==> Has(s.world, n, c) && !(step.RemoveStep? && step.handle == n)
  {
    if step.InstallStep? { InstallSlots(s.world, step.methodPtr, step.handler, id, step.answers); }
  }

  /** A script of another id takes the hook away exactly by removing its slot. */
  lemma {:induction false} RunHas(s: Session, id: nat, steps: seq<ScriptStep>, n: nat, c: HookCtx)
    requires RunPossible(s, id, steps) && c.owner != id
    ensures Has(RunAfter(s, id, steps).world, n, c) <==> Has(s.world, n, c) && !Removes(steps, n)
    decreases |steps|
  {
    if steps == [] {
    } else {
      StepHas(s, id, steps[0], n, c);
      RunHas(StepAfter(s, id, steps[0]), id, steps[1..], n, c);
      RemovesCons(steps, n);
    }
  }

  lemma RemovesCons(steps: seq<ScriptStep>, n: nat)
    requires steps != []
    ensures Removes(steps, n) <==> (steps[0].RemoveStep? && steps[0].handle == n) || Removes(steps[1..], n)
  {
    if k :| 0 < k < |steps| && steps[k].RemoveStep? && steps[k].handle == n {
      assert steps[1..][k - 1] == steps[k];
    }
    if k :| 0 <= k < |steps[1..]| && steps[1..][k].RemoveStep? && steps[1..][k].handle == n {
      assert steps[k + 1] == steps[1..][k];
    }
  }

  /** Tearing down another runtime leaves the hook alone. */
  lemma TeardownHas(s: Session, id: nat, walk: Walk, n: nat, c: HookCtx)
    requires BitmapsFull(s.world.slab) && Enumerates(walk.order, s.entries) && c.owner != id
    ensures Has(Teardown(s, id, walk.order, walk.ok, walk.protect), n, c) <==> Has(s.world, n, c)
  {
    var w := s.world.(mem := Revert(s.world.mem, s.entries, walk.order, walk.ok));
    SlotsOnlyVacate(w, Owned(w.slots, id, 0), walk.protect);
  }

  /** No runtime that lives or will live has the hook's owner as its id. */
  predicate Orphan(h: Host, c: HookCtx) {
    c.owner < h.nextId && (h.live.Some? ==> h.live.value.0 < h.nextId && h.live.value.0 != c.owner)
  }

  /** The host calls an event makes. */
  function StepsOf(h: Host, e: Event): seq<ScriptStep> {
    if e.Act? then if h.live.None? then [] else e.steps
    else if Taken(h, e).None? || Taken(h, e).value.Empty? then []
    else Taken(h, e).value.main
  }

  lemma EventHas(h: Host, e: Event, n: nat, c: HookCtx)
    requires EventPossible(h, e) && Orphan(h, c)
    ensures Has(AfterEvent(h, e).world, n, c) <==> Has(h.world, n, c) && !Removes(StepsOf(h, e), n)
    ensures Orphan(AfterEvent(h, e), c)
  {
    if e.Act? {
      if h.live.Some? { RunHas(Working(h), h.live.value.0, e.steps, n, c); }
    } else if Taken(h, e).Some? {
      var start := StartOf(h.(pending := None), e.walk);
      if h.live.Some? { TeardownHas(Working(h), h.live.value.0, e.walk, n, c); }
      if Taken(h, e).value.Wasm? { RunHas(Spawned(start), h.nextId, Taken(h, e).value.main, n, c); }
    }
  }

  predicate NeverRemoved(h: Host, events: seq<Event>, n: nat)
    requires LoopPossible(h, events)
    decreases |events|
  {
    events == [] ||
    (!Removes(StepsOf(h, events[0]), n) && NeverRemoved(AfterEvent(h, events[0]), events[1..], n))
  }

  lemma {:induction false} LoopHas(h: Host, events: seq<Event>, n: nat, c: HookCtx)
    requires LoopPossible(h, events) && Orphan(h, c)
    ensures Has(LoopAfter(h, events).world, n, c) <==> Has(h.world, n, c) && NeverRemoved(h, events, n)
    decreases |events|
  {
    if events == [] {
    } else {
      EventHas(h, events[0], n, c);
      LoopHas(AfterEvent(h, events[0]), events[1..], n, c);
    }
  }

  lemma ReloadBooks(h: Host, script: Script, walk: Walk)
    requires Books(h.world, None) && ReloadPossible(h, script, walk)
    ensures Books(AfterReload(h, script, walk).world, None)
  {
    var start := StartOf(h, walk);
    if h.live.Some? {
      var w := h.world.(mem := Revert(h.world.mem, h.live.value.1, walk.order, walk.ok));
      BooksIgnoreBytes(h.world, w.mem);
      UnhookBooks(w, Owned(w.slots, h.live.value.0, 0), walk.protect);
    }
    if script.Wasm? { RunAccounted(Spawned(start), h.nextId, Fresh(start), script.main); }
  }

  lemma EventBooks(h: Host, e: Event)
    requires Books(h.world, None) && EventPossible(h, e)
    ensures Books(AfterEvent(h, e).world, None)
  {
    if e.Act? {
      if h.live.Some? { RunAccounted(Working(h), h.live.value.0, Fresh(h.world), e.steps); }
    } else if Taken(h, e).Some? {
      ReloadBooks(h.(pending := None), Taken(h, e).value, e.walk);
    }
  }

  lemma {:induction false} LoopBooks(h: Host, events: seq<Event>)
    requires Books(h.world, None) && LoopPossible(h, events)
    ensures Books(LoopAfter(h, events).world, None)
    decreases |events|
  {
    if events == [] {
    } else {
      EventBooks(h, events[0]);
      LoopBooks(AfterEvent(h, events[0]), events[1..]);
    }
  }

  /**
   A hook installed by a script that trapped keeps its slot and its thunk through every later
   sequence of events, until some script removes that very slot: no reload collects it.
   */
  lemma TrappedHooksStay(h: Host, main: seq<ScriptStep>, walk: Walk, events: seq<Event>, n: nat)
    requires Books(h.world, None) && ReloadPossible(h, Wasm(main, false), walk)
    requires LoopPossible(AfterReload(h, Wasm(main, false), walk), events)
    requires Owns(AfterReload(h, Wasm(main, false), walk).world, n, h.nextId)
    ensures var h', c := AfterReload(h, Wasm(main, false), walk), Ctx(AfterReload(h, Wasm(main, false), walk).world, n);
            var end := LoopAfter(h', events).world;
            && (Has(end, n, c) <==> NeverRemoved(h', events, n))
            && (Has(end, n, c) ==> c.thunk in Allocated(end.slab))
  {
    var h' := AfterReload(h, Wasm(main, false), walk);
    LoopHas(h', events, n, Ctx(h'.world, n));
    ReloadBooks(h, Wasm(main, false), walk);
    LoopBooks(h', events);
    var end := LoopAfter(h', events).world;
    if Has(end, n, Ctx(h'.world, n)) { assert Live(end, n) && BookedSlot(end, n, None); }
  }
}
