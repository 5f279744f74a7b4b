/**
 The reload loop: the watcher publishes scripts into a mailbox (`orchestrator.rs`), hooked calls
 run the live script's handlers, the end of a dispatch drains the mailbox (`dispatcher.rs`), and
 after a deadline the watcher reloads by itself (`watcher.rs`). Events of both threads are taken
 in the order in which they happen.
 */
module ReloadLoop {
  import opened Bytes
  import opened ProcessMemory
  import opened ThunkSlab
  import opened HookRuntime
  import opened WriteJournal
  import opened HotReload
  import opened ReloadExactness

  /** The published bytes: empty ones only unload, others are a script and how its main ends. */
  datatype Script = Empty | Wasm(main: seq<ScriptStep>, completes: bool)

  /** The world, the live runtime with its journal, the next id, the mailbox. */
  datatype Host = Host(world: World, live: Option<(nat, Entries)>, nextId: nat, pending: Option<Script>)

  /** How the journal is walked and which write-backs and page changes the system accepts. */
  datatype Walk = Walk(order: seq<Addr>, ok: set<Addr>, protect: set<nat>)

  predicate TearPossible(h: Host, walk: Walk) {
    h.live.Some? ==> BitmapsFull(h.world.slab) && Enumerates(walk.order, h.live.value.1)
  }

  /** The world the next script starts in. */
  function StartOf(h: Host, walk: Walk): World
    requires TearPossible(h, walk)
  {
    if h.live.None? then h.world
    else Teardown(Session(h.world, h.live.value.1), h.live.value.0, walk.order, walk.ok, walk.protect)
  }

  predicate ReloadPossible(h: Host, script: Script, walk: Walk) {
    TearPossible(h, walk) && (script.Wasm? ==> RunPossible(Spawned(StartOf(h, walk)), h.nextId, script.main))
  }

  /** `registry_reload`: tear the live runtime down, spawn the script under a fresh id; a trap registers nothing. */
  function AfterReload(h: Host, script: Script, walk: Walk): Host
    requires ReloadPossible(h, script, walk)
  {
    var start := StartOf(h, walk);
    match script
    case Empty => h.(world := start, live := None)
    case Wasm(main, completes) =>
      var s := RunAfter(Spawned(start), h.nextId, main);
      h.(world := s.world, live := if completes then Some((h.nextId, s.entries)) else None, nextId := h.nextId + 1)
  }

  /**
   Empty bytes use up no id and leave nothing alive. A script runs its main under the next id, from
   the world the old one left; it lives on exactly if it completes.
   */
  lemma ReloadRegisters(h: Host, script: Script, walk: Walk)
    requires ReloadPossible(h, script, walk)
    ensures var h' := AfterReload(h, script, walk);
            && h'.pending == h.pending
            && (script.Empty? ==> h'.live.None? && h'.nextId == h.nextId && h'.world == StartOf(h, walk))
            && (script.Wasm? ==>
                  && h'.nextId == h.nextId + 1 && (h'.live.Some? <==> script.completes)
                  && h'.world == RunAfter(Session(StartOf(h, walk), map[]), h.nextId, script.main).world
                  && (script.completes ==> h'.live.value.0 == h.nextId))
  {
  }

  /** A fallback carries what the watcher has just published; `Act` is what handlers of the live script do. */
  datatype Event =
    | Publish(script: Script)
    | Act(steps: seq<ScriptStep>)
    | Drain(walk: Walk)
    | Fallback(published: Script, walk: Walk)

  /** The script an event reloads, if it reloads. */
  function Taken(h: Host, e: Event): Option<Script> {
    match e
    case Publish(_) => None
    case Act(_) => None
    case Drain(_) => h.pending
    case Fallback(published, _) => Some(if h.pending.Some? then h.pending.value else published)
  }

  /** The session of the live script. */
  function Working(h: Host): Session
    requires h.live.Some?
  {
    Session(h.world, h.live.value.1)
  }

  predicate EventPossible(h: Host, e: Event) {
    && (Taken(h, e).Some? ==> ReloadPossible(h.(pending := None), Taken(h, e).value, e.walk))
    && (e.Act? && h.live.Some? ==> RunPossible(Working(h), h.live.value.0, e.steps))
  }

  /** Without a live script no handler runs. */
  function AfterAct(h: Host, steps: seq<ScriptStep>): Host
    requires h.live.Some? ==> RunPossible(Working(h), h.live.value.0, steps)
  {
    if h.live.None? then h else
    var id := h.live.value.0;
    var s := RunAfter(Working(h), id, steps);
    h.(world := s.world, live := Some((id, s.entries)))
  }

  function AfterEvent(h: Host, e: Event): Host
    requires EventPossible(h, e)
  {
    if e.Publish? then h.(pending := Some(e.script))
    else if e.Act? then AfterAct(h, e.steps)
    else if Taken(h, e).None? then h
    else AfterReload(h.(pending := None), Taken(h, e).value, e.walk)
  }

  /** Handler calls make their steps in order, on the world and the journal of the live script. */
  lemma ActsInOrder(h: Host, first: seq<ScriptStep>, step: ScriptStep)
    requires h.live.Some? && EventPossible(h, Act(first + [step]))
    ensures EventPossible(h, Act(first)) && AfterEvent(h, Act(first)).live.Some?
    ensures var h' := AfterEvent(h, Act(first));
            && StepPossible(h'.world, step) && h'.live.value.0 == h.live.value.0
            && var s := StepAfter(Session(h'.world, h'.live.value.1), h.live.value.0, step);
               AfterEvent(h, Act(first + [step])) == h.(world := s.world, live := Some((h.live.value.0, s.entries)))
    ensures AfterEvent(h, Act([])) == h
  {
    RunJoins(Working(h), h.live.value.0, first, [step]);
    OneStep(RunAfter(Working(h), h.live.value.0, first), h.live.value.0, step);
  }

  lemma OneStep(s: Session, id: nat, step: ScriptStep)
    requires RunPossible(s, id, [step])
    ensures StepPossible(s.world, step) && RunAfter(s, id, [step]) == StepAfter(s, id, step)
  {
    assert [step][1..] == [];
  }

  /** A reload: the script spawned and the world it starts in. */
  datatype Reloaded = Reloaded(script: Script, start: World)

  function ReloadOf(h: Host, e: Event): Option<Reloaded>
    requires EventPossible(h, e)
  {
    if Taken(h, e).None? then None
    else Some(Reloaded(Taken(h, e).value, StartOf(h.(pending := None), e.walk)))
  }

  /**
   A waiting script is what a drain or a fallback reloads, and it is taken out of the mailbox; with
   none waiting a drain does nothing and a fallback reloads what the watcher has just published.
   */
  lemma WaitingScriptTaken(h: Host, e: Event)
    requires EventPossible(h, e) && (e.Drain? || e.Fallback?)
    ensures AfterEvent(h, e).pending == None
    ensures h.pending.Some? ==> ReloadOf(h, e).Some? && ReloadOf(h, e).value.script == h.pending.value
    ensures h.pending.None? && e.Drain? ==> ReloadOf(h, e) == None && AfterEvent(h, e) == h
    ensures h.pending.None? && e.Fallback? ==> ReloadOf(h, e).Some? && ReloadOf(h, e).value.script == e.published
  {
  }

  predicate LoopPossible(h: Host, events: seq<Event>)
    decreases |events|
  {
    events == [] || (EventPossible(h, events[0]) && LoopPossible(AfterEvent(h, events[0]), events[1..]))
  }

  function LoopAfter(h: Host, events: seq<Event>): Host
    requires LoopPossible(h, events)
    decreases |events|
  {
    if events == [] then h else LoopAfter(AfterEvent(h, events[0]), events[1..])
  }

  /** What each event of the loop reloads. */
  function Reloads(h: Host, events: seq<Event>): (r: seq<Option<Reloaded>>)
    requires LoopPossible(h, events)
    ensures |r| == |events|
    decreases |events|
  {
    if events == [] then [] else [ReloadOf(h, events[0])] + Reloads(AfterEvent(h, events[0]), events[1..])
  }

  // ----- the latest script wins -----

  function Latest(last: Option<Script>, events: seq<Event>): Option<Script>
    decreases |events|
  {
    if events == [] then last
    else Latest(if events[0].Publish? then Some(events[0].script) else last, events[1..])
  }

  /** The one watcher thread falls back to what it published last. */
  predicate WatcherOrder(last: Option<Script>, events: seq<Event>)
    decreases |events|
  {
    events == [] ||
    ((events[0].Fallback? ==> last == Some(events[0].published)) &&
     WatcherOrder(if events[0].Publish? then Some(events[0].script) else last, events[1..]))
  }

  /** The last event before `i` other than handler calls is number `j - 1`, or there is none and `j` is 0. */
  predicate QuietSince(events: seq<Event>, j: nat, i: nat)
    requires i <= |events|
  {
    j <= i && forall k :: j <= k < i ==> events[k].Act?
  }

  /** Nothing but handler calls happened since a publication. */
  ghost predicate Waiting(pending: bool, events: seq<Event>, i: nat)
    requires i <= |events|
  {
    exists j: nat :: QuietSince(events, j, i) && if j == 0 then pending else events[j - 1].Publish?
  }

  lemma WaitingLater(pending: bool, events: seq<Event>, i: nat)
    requires 0 < i <= |events|
    ensures var now := events[0].Publish? || (events[0].Act? && pending);
            Waiting(pending, events, i) <==> Waiting(now, events[1..], i - 1)
  {
    var now, later := events[0].Publish? || (events[0].Act? && pending), events[1..];
    if Waiting(pending, events, i) {
      var j: nat :| QuietSince(events, j, i) && if j == 0 then pending else events[j - 1].Publish?;
      var j' := if j == 0 then 0 else j - 1;
      assert QuietSince(later, j', i - 1) && if j' == 0 then now else later[j' - 1].Publish?;
    }
    if Waiting(now, later, i - 1) {
      var j: nat :| QuietSince(later, j, i - 1) && if j == 0 then now else later[j - 1].Publish?;
      var j' := if j == 0 && !events[0].Publish? then 0 else j + 1;
      assert QuietSince(events, j', i) && if j' == 0 then pending else events[j' - 1].Publish?;
    }
  }

  /**
   In every interleaving of publications, handler calls, drains and fallbacks, each reload spawns
   the script published last; a drain reloads exactly when that script has not been taken yet.
   */
  lemma {:induction false} LatestScriptSpawned(h: Host, last: Option<Script>, events: seq<Event>, i: nat)
    requires LoopPossible(h, events) && WatcherOrder(last, events) && i < |events|
    requires h.pending.Some? ==> h.pending == last
    ensures var r := Reloads(h, events)[i];
            && (r.Some? ==> Some(r.value.script) == Latest(last, events[..i]))
            && (r.Some? <==> events[i].Fallback? || (events[i].Drain? && Waiting(h.pending.Some?, events, i)))
    decreases |events|
  {
    if i == 0 {
      assert h.pending.Some? ==> QuietSince(events, 0, 0);
    } else {
      var e := events[0];
      var last' := if e.Publish? then Some(e.script) else last;
      assert events[..i][0] == e && events[..i][1..] == events[1..][..i - 1];
      WaitingLater(h.pending.Some?, events, i);
      LaterReload(h, events, i);
      LatestScriptSpawned(AfterEvent(h, e), last', events[1..], i - 1);
    }
  }

  lemma LaterReload(h: Host, events: seq<Event>, i: nat)
    requires LoopPossible(h, events) && 0 < i < |events|
    ensures LoopPossible(AfterEvent(h, events[0]), events[1..])
    ensures Reloads(h, events)[i] == Reloads(AfterEvent(h, events[0]), events[1..])[i - 1]
  {
  }

  // ----- what each script starts in -----

  /**
   What the next script has to find: the game memory the live one was spawned in with its
   permanent writes, and the hook table it was spawned in. `dirty` are the bytes the live
   script has written.
   */
  datatype Ground = Ground(track: Track, slots: seq<Option<HookCtx>>)

  /** A script that traps is never undone, so all it did becomes part of the ground. */
  ghost function GroundOfScript(start: World, id: nat, g: Ground, script: Script): Ground
    requires script.Wasm? ==> RunPossible(Spawned(start), id, script.main)
  {
    match script
    case Empty => g.(track := Track(g.track.base, {}))
    case Wasm(main, completes) =>
      if completes then g.(track := TrackRun(Spawned(start), id, Track(g.track.base, {}), main))
      else Ground(Fresh(RunAfter(Spawned(start), id, main).world), RunAfter(Spawned(start), id, main).world.slots)
  }

  ghost function GroundAfter(h: Host, g: Ground, e: Event): Ground
    requires EventPossible(h, e)
  {
    if e.Act? then
      if h.live.None? then g else g.(track := TrackRun(Working(h), h.live.value.0, g.track, e.steps))
    else if Taken(h, e).None? then g
    else GroundOfScript(StartOf(h.(pending := None), e.walk), h.nextId, g, Taken(h, e).value)
  }

  /** The ground before each event. */
  ghost function Grounds(h: Host, g: Ground, events: seq<Event>): (r: seq<Ground>)
    requires LoopPossible(h, events)
    ensures |r| == |events|
    decreases |events|
  {
    if events == [] then [] else [g] + Grounds(AfterEvent(h, events[0]), GroundAfter(h, g, events[0]), events[1..])
  }

  /** The live script can be undone down to the ground; with none alive the world is the ground. */
  ghost predicate Grounded(h: Host, g: Ground) {
    && Books(h.world, None) && OwnersBelow(h.world, h.nextId)
    && match h.live
       case None => GameMemory(h.world) == g.track.base && h.world.slots == g.slots
       case Some((id, entries)) =>
         && id < h.nextId && Restorable(Session(h.world, entries), id, g.track)
         && NoHooksOf(h.world.(slots := g.slots), id) && SlotsSince(h.world.(slots := g.slots), h.world, id)
  }

  /** The system accepts every write-back and page change of the teardown. */
  ghost predicate Accepts(h: Host, walk: Walk) {
    h.live.Some? ==> h.live.value.1.Keys <= walk.ok && forall n :: Owns(h.world, n, h.live.value.0) ==> n in walk.protect
  }

  /** Scripts and handlers are clean; a script that traps may do anything. */
  ghost predicate CleanEvent(h: Host, g: Ground, e: Event)
    requires EventPossible(h, e)
  {
    && (e.Act? && h.live.Some? ==> CleanRun(Working(h), h.live.value.0, g.track, e.steps))
    && (Taken(h, e).Some? ==>
          && Accepts(h, e.walk)
          && var script, start := Taken(h, e).value, StartOf(h.(pending := None), e.walk);
             script.Wasm? && script.completes ==>
               CleanRun(Spawned(start), h.nextId, Track(g.track.base, {}), script.main))
  }

  ghost predicate CleanLoop(h: Host, g: Ground, events: seq<Event>)
    requires LoopPossible(h, events)
    decreases |events|
  {
    events == [] ||
    (CleanEvent(h, g, events[0]) && CleanLoop(AfterEvent(h, events[0]), GroundAfter(h, g, events[0]), events[1..]))
  }

  lemma StartGrounded(h: Host, walk: Walk, g: Ground)
    requires Grounded(h, g) && TearPossible(h, walk) && Accepts(h, walk)
    ensures var start := StartOf(h, walk);
            && Books(start, None) && OwnersBelow(start, h.nextId)
            && GameMemory(start) == g.track.base && start.slots == g.slots
  {
    if h.live.Some? {
      var (id, entries) := h.live.value;
      var start := StartOf(h, walk);
      TeardownRestores(Working(h), id, g.track, walk.order, walk.ok, walk.protect);
      RestoredIsBase(start, g.track.base);
      SlotsBack(h.world.(slots := g.slots), h.world, start, id);
      forall n | Live(start, n) ensures Ctx(start, n).owner < h.nextId { assert Live(h.world, n); }
    }
  }

  lemma StepOwners(s: Session, id: nat, step: ScriptStep, next: nat)
    requires Books(s.world, None) && StepPossible(s.world, step) && OwnersBelow(s.world, next) && id < next
    ensures Books(StepAfter(s, id, step).world, None) && OwnersBelow(StepAfter(s, id, step).world, next)
  {
    StepAccounted(s, id, map[], step);
    if step.InstallStep? { InstallSlots(s.world, step.methodPtr, step.handler, id, step.answers); }
    var w := StepAfter(s, id, step).world;
    forall n | Live(w, n) && Ctx(w, n).owner != id ensures Ctx(w, n).owner < next { assert Live(s.world, n); }
  }

  /** Whatever a script does, thunks stay accounted for and owners stay below the next id. */
  lemma {:induction false} RunOwners(s: Session, id: nat, steps: seq<ScriptStep>, next: nat)
    requires Books(s.world, None) && RunPossible(s, id, steps) && OwnersBelow(s.world, next) && id < next
    ensures Books(RunAfter(s, id, steps).world, None) && OwnersBelow(RunAfter(s, id, steps).world, next)
    decreases |steps|
  {
    if steps == [] {
    } else {
      StepOwners(s, id, steps[0], next);
      RunOwners(StepAfter(s, id, steps[0]), id, steps[1..], next);
    }
  }

  /** A clean run of the script with this id goes on from any restorable session. */
  lemma RunGrounded(s: Session, id: nat, steps: seq<ScriptStep>, next: nat, t: Track, slots: seq<Option<HookCtx>>)
    requires Restorable(s, id, t) && OwnersBelow(s.world, next) && id < next
    requires NoHooksOf(s.world.(slots := slots), id) && SlotsSince(s.world.(slots := slots), s.world, id)
    requires RunPossible(s, id, steps) && CleanRun(s, id, t, steps)
    ensures var end := RunAfter(s, id, steps);
            && Restorable(end, id, TrackRun(s, id, t, steps)) && OwnersBelow(end.world, next)
            && NoHooksOf(end.world.(slots := slots), id) && SlotsSince(end.world.(slots := slots), end.world, id)
  {
    var end, w0 := RunAfter(s, id, steps), s.world.(slots := slots);
    RunKeeps(s, id, t, steps);
    RunSlots(w0, s, id, t, steps);
    RunOwners(s, id, steps, next);
    SameStart(w0, end.world.(slots := slots), end.world, id);
  }

  lemma SameStart(w0: World, v0: World, w: World, id: nat)
    requires w0.slots == v0.slots && NoHooksOf(w0, id) && SlotsSince(w0, w, id)
    ensures NoHooksOf(v0, id) && SlotsSince(v0, w, id)
  {
    forall n | Live(v0, n) ensures Ctx(v0, n).owner != id { assert Live(w0, n); }
  }

  lemma SpawnGrounded(start: World, id: nat, g: Ground)
    requires Books(start, None) && OwnersBelow(start, id) && GameMemory(start) == g.track.base && start.slots == g.slots
    ensures Restorable(Spawned(start), id, Track(g.track.base, {})) && OwnersBelow(start, id + 1)
    ensures NoHooksOf(start.(slots := g.slots), id) && SlotsSince(start.(slots := g.slots), start, id)
  {
    assert start.(slots := g.slots) == start && NoHooksOf(start, id);
    SpawnRestorable(start, id);
  }

  lemma ReloadGrounded(h: Host, script: Script, walk: Walk, g: Ground)
    requires Grounded(h, g) && ReloadPossible(h, script, walk) && Accepts(h, walk)
    requires script.Wasm? && script.completes ==>
               CleanRun(Spawned(StartOf(h, walk)), h.nextId, Track(g.track.base, {}), script.main)
    ensures GameMemory(StartOf(h, walk)) == g.track.base && StartOf(h, walk).slots == g.slots
    ensures Grounded(AfterReload(h, script, walk), GroundOfScript(StartOf(h, walk), h.nextId, g, script))
  {
    var start, id := StartOf(h, walk), h.nextId;
    StartGrounded(h, walk, g);
    SpawnGrounded(start, id, g);
    if script.Wasm? {
      if script.completes {
        RunGrounded(Spawned(start), id, script.main, id + 1, Track(g.track.base, {}), g.slots);
      } else {
        RunOwners(Spawned(start), id, script.main, id + 1);
      }
    }
  }

  lemma EventGrounded(h: Host, g: Ground, e: Event)
    requires Grounded(h, g) && EventPossible(h, e) && CleanEvent(h, g, e)
    ensures Grounded(AfterEvent(h, e), GroundAfter(h, g, e))
    ensures var r := ReloadOf(h, e);
            r.Some? ==> GameMemory(r.value.start) == g.track.base && r.value.start.slots == g.slots
  {
    if e.Act? {
      if h.live.Some? { RunGrounded(Working(h), h.live.value.0, e.steps, h.nextId, g.track, g.slots); }
    } else if Taken(h, e).Some? {
      ReloadGrounded(h.(pending := None), Taken(h, e).value, e.walk, g);
    }
  }

  /**
   In every interleaving of publications, handler calls, drains and fallbacks, every script starts
   in the ground: what its predecessor started in, with the permanent writes of its main function
   and of its handlers, or, if the predecessor trapped, with everything it did.
   */
  lemma {:induction false} StartsOnTheGround(h: Host, g: Ground, events: seq<Event>, i: nat)
    requires Grounded(h, g) && LoopPossible(h, events) && CleanLoop(h, g, events) && i < |events|
    ensures var r, ground := Reloads(h, events)[i], Grounds(h, g, events)[i];
            r.Some? ==> GameMemory(r.value.start) == ground.track.base && r.value.start.slots == ground.slots
    decreases |events|
  {
    var h', g' := AfterEvent(h, events[0]), GroundAfter(h, g, events[0]);
    EventGrounded(h, g, events[0]);
    if i == 0 {
    } else {
      LaterReload(h, events, i);
      StartsOnTheGround(h', g', events[1..], i - 1);
    }
  }

  // ----- scripts that complete and write nothing permanently -----

  predicate Undoable(steps: seq<ScriptStep>) { forall k :: 0 <= k < |steps| ==> !steps[k].WritePermanent? }

  predicate UndoableScript(script: Script) { script.Wasm? ==> script.completes && Undoable(script.main) }

  predicate UndoableEvent(e: Event) {
    match e
    case Publish(script) => UndoableScript(script)
    case Act(steps) => Undoable(steps)
    case Drain(_) => true
    case Fallback(published, _) => UndoableScript(published)
  }

  lemma SameGround(h: Host, g: Ground, e: Event)
    requires EventPossible(h, e) && UndoableEvent(e) && (h.pending.Some? ==> UndoableScript(h.pending.value))
    ensures GroundAfter(h, g, e).track.base == g.track.base && GroundAfter(h, g, e).slots == g.slots
    ensures AfterEvent(h, e).pending.Some? ==> UndoableScript(AfterEvent(h, e).pending.value)
  {
    if e.Act? {
      if h.live.Some? { NoPermanentSameBase(Working(h), h.live.value.0, g.track, e.steps); }
    } else if Taken(h, e).Some? {
      var script, start := Taken(h, e).value, StartOf(h.(pending := None), e.walk);
      if script.Wasm? { NoPermanentSameBase(Spawned(start), h.nextId, Track(g.track.base, {}), script.main); }
    }
  }

  /**
   If no script traps or writes permanently, every script starts in the game memory and with
   the hook table that were there before the first.
   */
  lemma StartsInRestoredGame(h: Host, g: Ground, events: seq<Event>, i: nat)
    requires Grounded(h, g) && LoopPossible(h, events) && CleanLoop(h, g, events) && i < |events|
    requires (h.pending.Some? ==> UndoableScript(h.pending.value)) && forall k :: 0 <= k < |events| ==> UndoableEvent(events[k])
    ensures var r := Reloads(h, events)[i];
            r.Some? ==> GameMemory(r.value.start) == g.track.base && r.value.start.slots == g.slots
  {
    StartsOnTheGround(h, g, events, i);
    GroundStays(h, g, events, i);
  }

  lemma {:induction false} GroundStays(h: Host, g: Ground, events: seq<Event>, i: nat)
    requires LoopPossible(h, events) && i < |events|
    requires (h.pending.Some? ==> UndoableScript(h.pending.value)) && forall k :: 0 <= k < |events| ==> UndoableEvent(events[k])
    ensures Grounds(h, g, events)[i].track.base == g.track.base && Grounds(h, g, events)[i].slots == g.slots
    decreases |events|
  {
    if i == 0 {
    } else {
      SameGround(h, g, events[0]);
      GroundStays(AfterEvent(h, events[0]), GroundAfter(h, g, events[0]), events[1..], i - 1);
    }
  }
}
