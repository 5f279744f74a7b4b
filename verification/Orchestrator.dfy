/**
 The reload orchestrator over the mutable hook table, journal and runtime registry. The
 registry is a vector that never holds more than one runtime, so it is an optional runtime.
 */
module Orchestrator {
  import opened Bytes
  import opened ProcessMemory
  import opened ThunkSlab
  import opened HookRuntime
  import opened HookTable
  import opened WriteJournal
  import MemHost
  import MemValue
  import opened HotReload
  import opened ReloadLoop
  import opened TrappedScripts

  /** A live script: its id and the journal kept in its host state. */
  class Runtime {
    const id: nat
    const journal: Journal

    constructor (id: nat, journal: Journal)
      ensures this.id == id && this.journal == journal
    {
      this.id := id;
      this.journal := journal;
    }
  }

  class Agent {
    const table: Table
    var registry: Option<Runtime>
    var nextId: nat
    var pending: Option<Script>

    constructor (table: Table)
      ensures this.table == table && registry == None && nextId == 1 && pending == None
    {
      this.table := table;
      registry := None;
      nextId := 1;
      pending := None;
    }

    function HostOf(): Host
      reads this, table, if registry.Some? then {registry.value.journal} else {}
    {
      Host(table.AsWorld(), if registry.None? then None else Some((registry.value.id, registry.value.journal.entries)),
           nextId, pending)
    }

    function SessionOf(journal: Journal): Session
      reads this, table, journal
    {
      Session(table.AsWorld(), journal.entries)
    }

    /** Journal first, then write. */
    method HostWrite(journal: Journal, addr: Addr, ty: MemValue.ValType, input: seq<Byte>, readable: bool, writable: bool)
      returns (status: MemHost.Status)
      modifies table`mem, journal
      ensures MemHost.Wrote(table.mem, journal.entries, status)
           == MemHost.HostWrite(old(table.mem), old(journal.entries), addr, ty, input, readable, writable)
    {
      var data := MemHost.TypedBytes(ty, input);
      if data.None? { return MemHost.BadType; }
      var first := journal.Touch(table.mem, addr, |data.value|, readable);
      status := MemHost.StoreStatus(table.mem, addr, data.value, writable);
      table.mem := RawWrite(table.mem, addr, data.value, writable);
    }

    method HostWriteIf(journal: Journal, addr: Addr, ty: MemValue.ValType, expected: seq<Byte>, input: seq<Byte>,
                       readable: bool, writable: bool) returns (status: MemHost.Status)
      modifies table`mem, journal
      ensures MemHost.Wrote(table.mem, journal.entries, status)
           == MemHost.HostWriteIf(old(table.mem), old(journal.entries), addr, ty, expected, input, readable, writable)
    {
      var want, data := MemHost.TypedBytes(ty, expected), MemHost.TypedBytes(ty, input);
      if want.None? || data.None? { return MemHost.BadType; }
      var current := RawRead(table.mem, addr, |data.value|, readable);
      if current.None? { return MemHost.Unreadable; }
      if !MemHost.TypedEqual(ty, current.value, want.value) { return MemHost.Changed; }
      status := HostWrite(journal, addr, ty, input, readable, writable);
    }

    /** One host call made by the script of runtime `rt`. */
    method Perform(rt: Runtime, step: ScriptStep)
      requires StepPossible(table.AsWorld(), step)
      modifies table, rt.journal
      ensures SessionOf(rt.journal) == StepAfter(old(SessionOf(rt.journal)), rt.id, step)
    {
      match step {
        case Write(addr, ty, input, readable, writable) =>
          var status := HostWrite(rt.journal, addr, ty, input, readable, writable);
        case WriteIf(addr, ty, expected, input, readable, writable) =>
          var status := HostWriteIf(rt.journal, addr, ty, expected, input, readable, writable);
        case WritePermanent(addr, ty, input, writable) =>
          table.mem := MemHost.HostWritePermanent(table.mem, addr, ty, input, writable).0;
        case InstallStep(methodPtr, handler, answers) =>
          var r := table.Install(methodPtr, handler, rt.id, answers);
        case RemoveStep(handle, protect) =>
          var r := table.Remove(handle, protect);
      }
    }

    method RunScript(rt: Runtime, steps: seq<ScriptStep>)
      requires RunPossible(SessionOf(rt.journal), rt.id, steps)
      modifies table, rt.journal
      ensures SessionOf(rt.journal) == RunAfter(old(SessionOf(rt.journal)), rt.id, steps)
    {
      var i := 0;
      assert steps[0..] == steps;
      while i < |steps|
        invariant i <= |steps|
        invariant RunPossible(SessionOf(rt.journal), rt.id, steps[i..])
        invariant RunAfter(SessionOf(rt.journal), rt.id, steps[i..]) == RunAfter(old(SessionOf(rt.journal)), rt.id, steps)
      {
        assert steps[i..][1..] == steps[i + 1..] && steps[i..][0] == steps[i];
        Perform(rt, steps[i]);
        i := i + 1;
      }
    }

    /**
     `run_wasm_with_mem`: a fresh id and journal, then the script's main function. Only a
     script that returns is registered; one that traps leaves its writes and hooks behind.
     */
    method Spawn(main: seq<ScriptStep>, completes: bool)
      requires registry.None? && RunPossible(Spawned(table.AsWorld()), nextId, main)
      modifies this`registry, this`nextId, table
      ensures nextId == old(nextId) + 1
      ensures table.AsWorld() == RunAfter(Spawned(old(table.AsWorld())), old(nextId), main).world
      ensures registry.Some? <==> completes
      ensures registry.Some? ==>
        && fresh(registry.value) && fresh(registry.value.journal) && registry.value.id == old(nextId)
        && registry.value.journal.entries == RunAfter(Spawned(old(table.AsWorld())), old(nextId), main).entries
    {
      var journal := new Journal();
      var rt := new Runtime(nextId, journal);
      nextId := nextId + 1;
      RunScript(rt, main);
      if completes { registry := Some(rt); }
    }

    /** Scan the slots for hooks of runtime `id`. */
    method CollectOwned(id: nat) returns (ids: seq<nat>)
      ensures ids == Owned(table.slots, id, 0)
    {
      ids := [];
      var n := 0;
      while n < |table.slots|
        invariant n <= |table.slots|
        invariant ids + Owned(table.slots, id, n) == Owned(table.slots, id, 0)
      {
        if table.slots[n].Some? && table.slots[n].value.owner == id {
          assert ids + ([n] + Owned(table.slots, id, n + 1)) == (ids + [n]) + Owned(table.slots, id, n + 1);
          ids := ids + [n];
        }
        n := n + 1;
      }
      assert ids + [] == ids;
    }

    method RemoveEach(ids: seq<nat>, protect: set<nat>)
      requires BitmapsFull(table.slab)
      modifies table
      ensures table.AsWorld() == UnhookAll(old(table.AsWorld()), ids, protect)
    {
      var i := 0;
      assert ids[0..] == ids;
      while i < |ids|
        invariant i <= |ids| && BitmapsFull(table.slab)
        invariant UnhookAll(table.AsWorld(), ids[i..], protect) == UnhookAll(old(table.AsWorld()), ids, protect)
      {
        assert ids[i..][1..] == ids[i + 1..] && ids[i..][0] == ids[i];
        var r := table.Remove(ids[i], ids[i] in protect);
        i := i + 1;
      }
    }

    /**
     `registry_reload` up to and including the drop of the old runtime: with no runtime nothing
     happens; otherwise the journal is taken and reverted in the map's own order, the runtime's
     hooks are removed, the runtime is dropped.
     */
    method Unload(ok: set<Addr>, protect: set<nat>)
      requires BitmapsFull(table.slab)
      modifies this`registry, table, if registry.Some? then {registry.value.journal} else {}
      ensures registry == None && nextId == old(nextId) && pending == old(pending)
      ensures exists order :: TearPossible(old(HostOf()), Walk(order, ok, protect))
                && table.AsWorld() == StartOf(old(HostOf()), Walk(order, ok, protect))
    {
      if registry.None? {
        assert TearPossible(HostOf(), Walk([], ok, protect));
        return;
      }
      var rt := registry.value;
      var entries := rt.journal.TakeEntries();
      ghost var before := table.mem;
      table.mem := RevertAll(table.mem, entries, ok);
      ghost var order :| Enumerates(order, entries) && table.mem == Revert(before, entries, order, ok);
      var ids := CollectOwned(rt.id);
      RemoveEach(ids, protect);
      registry := None;
      assert TearPossible(old(HostOf()), Walk(order, ok, protect));
    }

    /** All of `registry_reload`: unload whatever runs, then spawn the new script, if there is one. */
    method Reload(script: Script, ok: set<Addr>, protect: set<nat>)
      requires BitmapsFull(table.slab)
      requires forall order :: TearPossible(HostOf(), Walk(order, ok, protect)) ==>
                 ReloadPossible(HostOf(), script, Walk(order, ok, protect))
      modifies this`registry, this`nextId, table, if registry.Some? then {registry.value.journal} else {}
      ensures pending == old(pending)
      ensures exists order :: ReloadPossible(old(HostOf()), script, Walk(order, ok, protect))
                && HostOf() == AfterReload(old(HostOf()), script, Walk(order, ok, protect))
    {
      Unload(ok, protect);
      ghost var order :| TearPossible(old(HostOf()), Walk(order, ok, protect))
        && table.AsWorld() == StartOf(old(HostOf()), Walk(order, ok, protect));
      assert ReloadPossible(old(HostOf()), script, Walk(order, ok, protect));
      if script.Wasm? { Spawn(script.main, script.completes); }
    }

    /** What handlers of the live script do when hooked calls run them. */
    method RunHandlers(steps: seq<ScriptStep>)
      requires EventPossible(HostOf(), Act(steps))
      modifies table, if registry.Some? then {registry.value.journal} else {}
      ensures HostOf() == AfterEvent(old(HostOf()), Act(steps))
    {
      if registry.None? { return; }
      RunScript(registry.value, steps);
    }

    // ----- the mailbox -----

    /** The watcher: an unconsumed script is replaced. */
    method PublishReload(script: Script)
      modifies this`pending
      ensures HostOf() == AfterEvent(old(HostOf()), Publish(script))
    {
      pending := Some(script);
    }

    method TakeReloadPending() returns (script: Option<Script>)
      modifies this`pending
      ensures script == old(pending) && HostOf() == old(HostOf()).(pending := None)
    {
      script := pending;
      pending := None;
    }

    /** The end of a dispatch: reload if a script is waiting. */
    method DrainReload(ok: set<Addr>, protect: set<nat>)
      requires BitmapsFull(table.slab)
      requires forall order :: TearPossible(HostOf(), Walk(order, ok, protect)) ==>
                 EventPossible(HostOf(), Drain(Walk(order, ok, protect)))
      modifies this, table, if registry.Some? then {registry.value.journal} else {}
      ensures exists order :: EventPossible(old(HostOf()), Drain(Walk(order, ok, protect)))
                && HostOf() == AfterEvent(old(HostOf()), Drain(Walk(order, ok, protect)))
    {
      ghost var h := HostOf();
      var script := TakeReloadPending();
      if script.None? {
        assert EventPossible(h, Drain(Walk([], ok, protect)));
        return;
      }
      forall order | TearPossible(HostOf(), Walk(order, ok, protect))
        ensures ReloadPossible(HostOf(), script.value, Walk(order, ok, protect))
      {
        assert TearPossible(h, Walk(order, ok, protect)) && EventPossible(h, Drain(Walk(order, ok, protect)));
      }
      Reload(script.value, ok, protect);
      ghost var order :| ReloadPossible(h.(pending := None), script.value, Walk(order, ok, protect))
        && HostOf() == AfterReload(h.(pending := None), script.value, Walk(order, ok, protect));
      assert EventPossible(h, Drain(Walk(order, ok, protect)));
    }

    /** The watcher after its deadline: reload what is waiting, or again what it has just published. */
    method FallbackReload(published: Script, ok: set<Addr>, protect: set<nat>)
      requires BitmapsFull(table.slab)
      requires forall order :: TearPossible(HostOf(), Walk(order, ok, protect)) ==>
                 EventPossible(HostOf(), Fallback(published, Walk(order, ok, protect)))
      modifies this, table, if registry.Some? then {registry.value.journal} else {}
      ensures exists order :: EventPossible(old(HostOf()), Fallback(published, Walk(order, ok, protect)))
                && HostOf() == AfterEvent(old(HostOf()), Fallback(published, Walk(order, ok, protect)))
    {
      ghost var h := HostOf();
      var taken := TakeReloadPending();
      var script := if taken.Some? then taken.value else published;
      forall order | TearPossible(HostOf(), Walk(order, ok, protect))
        ensures ReloadPossible(HostOf(), script, Walk(order, ok, protect))
      {
        assert TearPossible(h, Walk(order, ok, protect)) && EventPossible(h, Fallback(published, Walk(order, ok, protect)));
      }
      Reload(script, ok, protect);
      ghost var order :| ReloadPossible(h.(pending := None), script, Walk(order, ok, protect))
        && HostOf() == AfterReload(h.(pending := None), script, Walk(order, ok, protect));
      assert EventPossible(h, Fallback(published, Walk(order, ok, protect)));
    }

    /**
     The watcher on a changed file: a script that does not parse is ignored; otherwise it is
     published, and either the end of a dispatch takes it before the deadline or the watcher does.
     In both cases that script is reloaded, once, in place of whatever was waiting.
     */
    method TryLoad(script: Script, parses: bool, drained: bool, ok: set<Addr>, protect: set<nat>)
      requires BitmapsFull(table.slab)
      requires forall order :: TearPossible(HostOf(), Walk(order, ok, protect)) ==>
                 ReloadPossible(HostOf().(pending := None), script, Walk(order, ok, protect))
      modifies this, table, if registry.Some? then {registry.value.journal} else {}
      ensures !parses ==> HostOf() == old(HostOf())
      ensures parses ==>
        (exists order :: ReloadPossible(old(HostOf()).(pending := None), script, Walk(order, ok, protect))
           && HostOf() == AfterReload(old(HostOf()).(pending := None), script, Walk(order, ok, protect)))
    {
      if !parses { return; }
      ghost var h := HostOf();
      PublishReload(script);
      forall order | TearPossible(HostOf(), Walk(order, ok, protect))
        ensures EventPossible(HostOf(), Drain(Walk(order, ok, protect)))
        ensures EventPossible(HostOf(), Fallback(script, Walk(order, ok, protect)))
      {
        assert TearPossible(h, Walk(order, ok, protect));
        assert HostOf().(pending := None) == h.(pending := None);
      }
      ghost var published := HostOf();
      assert published.(pending := None) == h.(pending := None);
      if drained {
        DrainReload(ok, protect);
        ghost var order :| EventPossible(published, Drain(Walk(order, ok, protect)))
          && HostOf() == AfterEvent(published, Drain(Walk(order, ok, protect)));
        assert ReloadPossible(h.(pending := None), script, Walk(order, ok, protect));
      } else {
        FallbackReload(script, ok, protect);
        ghost var order :| EventPossible(published, Fallback(script, Walk(order, ok, protect)))
          && HostOf() == AfterEvent(published, Fallback(script, Walk(order, ok, protect)));
        assert ReloadPossible(h.(pending := None), script, Walk(order, ok, protect));
      }
    }

    // ----- clean scripts -----

    /**
     Swapping a clean script for any other: the new one starts in the game memory the old one
     was spawned in, up to the old one's permanent writes, and with the same hook table.
     */
    method HotSwap(script: Script, ok: set<Addr>, protect: set<nat>, ghost spawned: World, ghost main: seq<ScriptStep>)
      returns (ghost start: World)
      requires registry.Some? && BitmapsFull(table.slab)
      requires Books(spawned, None) && NoHooksOf(spawned, registry.value.id)
      requires RunPossible(Spawned(spawned), registry.value.id, main)
      requires CleanRun(Spawned(spawned), registry.value.id, Fresh(spawned), main)
      requires SessionOf(registry.value.journal) == RunAfter(Spawned(spawned), registry.value.id, main)
      requires registry.value.journal.entries.Keys <= ok
      requires forall n :: Owns(table.AsWorld(), n, registry.value.id) ==> n in protect
      requires forall order :: TearPossible(HostOf(), Walk(order, ok, protect)) ==>
                 ReloadPossible(HostOf(), script, Walk(order, ok, protect))
      modifies this`registry, this`nextId, table, registry.value.journal
      ensures exists order :: ReloadPossible(old(HostOf()), script, Walk(order, ok, protect))
                && start == StartOf(old(HostOf()), Walk(order, ok, protect))
                && HostOf() == AfterReload(old(HostOf()), script, Walk(order, ok, protect))
      ensures GameMemory(start) == TrackRun(Spawned(spawned), old(registry).value.id, Fresh(spawned), main).base
      ensures start.slots == spawned.slots
    {
      ghost var h, id := HostOf(), registry.value.id;
      Reload(script, ok, protect);
      ghost var order :| ReloadPossible(h, script, Walk(order, ok, protect))
        && HostOf() == AfterReload(h, script, Walk(order, ok, protect));
      start := StartOf(h, Walk(order, ok, protect));
      WholeRunRestores(spawned, id, Life(main, order, ok, protect));
    }

    /**
     Loading and unloading a clean script leaves the game memory, up to its permanent writes, and
     the hook table as they were exactly when its main function completed or it left nothing
     behind, however the journal map is walked.
     */
    method LoadAndUnload(main: seq<ScriptStep>, completes: bool, ok: set<Addr>, protect: set<nat>)
      requires registry.None? && Books(table.AsWorld(), None) && OwnersBelow(table.AsWorld(), nextId)
      requires RunPossible(Spawned(table.AsWorld()), nextId, main)
      requires CleanRun(Spawned(table.AsWorld()), nextId, Fresh(table.AsWorld()), main)
      requires completes ==> RunAfter(Spawned(table.AsWorld()), nextId, main).entries.Keys <= ok
      requires completes ==>
                 forall n :: Owns(RunAfter(Spawned(table.AsWorld()), nextId, main).world, n, nextId) ==> n in protect
      modifies this`registry, this`nextId, table
      ensures registry == None
      ensures var w, id := old(table.AsWorld()), old(nextId);
              var s, t := RunAfter(Spawned(w), id, main), TrackRun(Spawned(w), id, Fresh(w), main);
              GameMemory(table.AsWorld()) == t.base && table.slots == w.slots <==> completes || LeavesNothing(s, id, t)
    {
      ghost var h := HostOf();
      LoadedBooks(h.world, h.nextId, main);
      Spawn(main, completes);
      ghost var loaded := HostOf();
      assert loaded == AfterReload(h, Wasm(main, completes), Walk([], {}, {}));
      Unload(ok, protect);
      ghost var order :| TearPossible(loaded, Walk(order, ok, protect))
        && table.AsWorld() == StartOf(loaded, Walk(order, ok, protect));
      LoadUnloadExactly(h, main, completes, Walk([], {}, {}), Walk(order, ok, protect));
    }
  }

  lemma LoadedBooks(w: World, id: nat, main: seq<ScriptStep>)
    requires Books(w, None) && OwnersBelow(w, id) && RunPossible(Spawned(w), id, main)
    requires CleanRun(Spawned(w), id, Fresh(w), main)
    ensures BitmapsFull(RunAfter(Spawned(w), id, main).world.slab)
  {
    SpawnRestorable(w, id);
    RunKeeps(Spawned(w), id, Fresh(w), main);
  }
}
