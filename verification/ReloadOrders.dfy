/**
 Which runs a reload undoes in whatever order the journal map is iterated. The order exists only
 while the reload runs, so the conditions here look at the session right before it.
 */
module ReloadOrders {
  import opened Bytes
  import opened ProcessMemory
  import opened HookRuntime
  import opened WriteJournal
  import opened HotReload
  import opened ReloadExactness

  /** What a byte may come from in the end. */
  type Test = Source -> bool

  function Is(want: Source): Test { (s: Source) => s == want }

  function Reads(want: Source, c: Byte): Test { (s: Source) => Eval(s, c) == Eval(want, c) }

  // ----- the journal -----

  /** Every record over the byte that can be written back passes; without one, the byte itself does. */
  ghost predicate RecordsPass(now: Source, records: map<Addr, Source>, accepted: set<Addr>, test: Test) {
    if exists a :: a in records && a in accepted
    then forall a :: a in records && a in accepted ==> test(records[a])
    else test(now)
  }

  lemma {:induction false} RevertSnocSource(now: Source, records: map<Addr, Source>, order: seq<Addr>, a: Addr,
                                            accepted: set<Addr>)
    requires a in records && a in accepted
    ensures RevertSource(now, records, order + [a], accepted) == records[a]
    decreases |order|
  {
    if order == [] {
      assert [a][1..] == [];
    } else {
      assert (order + [a])[1..] == order[1..] + [a];
      RevertSnocSource(if order[0] in records && order[0] in accepted then records[order[0]] else now,
                       records, order[1..], a, accepted);
    }
  }

  /** Any walk ends with some accepted record over the byte, or with the byte itself if there is none. */
  lemma {:induction false} RevertPasses(now: Source, records: map<Addr, Source>, order: seq<Addr>, accepted: set<Addr>,
                                        test: Test)
    requires forall a :: a in records && a in accepted ==> test(records[a])
    requires test(now) || exists i :: 0 <= i < |order| && order[i] in records && order[i] in accepted
    ensures test(RevertSource(now, records, order, accepted))
    decreases |order|
  {
    if order == [] {
    } else {
      var hit := order[0] in records && order[0] in accepted;
      if !test(now) && !hit {
        var i :| 0 <= i < |order| && order[i] in records && order[i] in accepted;
        assert order[1..][i - 1] == order[i];
      }
      RevertPasses(if hit then records[order[0]] else now, records, order[1..], accepted, test);
    }
  }

  lemma {:induction false} NoAccepted(now: Source, records: map<Addr, Source>, order: seq<Addr>, accepted: set<Addr>)
    requires forall a :: a in records ==> a !in accepted
    ensures RevertSource(now, records, order, accepted) == now
    decreases |order|
  {
    if order == [] {
    } else {
      NoAccepted(now, records, order[1..], accepted);
    }
  }

  lemma AnOrder(entries: Entries) returns (order: seq<Addr>)
    ensures Enumerates(order, entries)
  {
    order := Enumeration(entries.Keys);
    assert forall i :: 0 <= i < |order| ==> order[i] in order;
  }

  /** An enumeration of the journal that ends with the record at `a`. */
  lemma LastOrder(entries: Entries, a: Addr) returns (front: seq<Addr>)
    requires a in entries
    ensures Enumerates(front + [a], entries)
  {
    front := Enumeration(entries.Keys - {a});
    assert forall i :: 0 <= i < |front| ==> front[i] in front;
  }

  /** The byte passes after every walk of the journal exactly when its records do. */
  lemma EveryWalkPasses(now: Source, records: map<Addr, Source>, entries: Entries, accepted: set<Addr>, test: Test)
    requires records.Keys <= entries.Keys
    ensures (forall order :: Enumerates(order, entries) ==> test(RevertSource(now, records, order, accepted))) <==>
            RecordsPass(now, records, accepted, test)
  {
    if a :| a in records && a in accepted && !test(records[a]) {
      var front := LastOrder(entries, a);
      RevertSnocSource(now, records, front, a, accepted);
    } else {
      forall order | Enumerates(order, entries) && RecordsPass(now, records, accepted, test)
        ensures test(RevertSource(now, records, order, accepted))
      {
        if a :| a in records && a in accepted { assert a in order; }
        RevertPasses(now, records, order, accepted, test);
      }
      var order := AnOrder(entries);
      if forall a :: a in records ==> a !in accepted { NoAccepted(now, records, order, accepted); }
    }
  }

  // ----- one byte of a teardown -----

  /** The teardown is accepted: every write-back and every page change. */
  ghost predicate Granted(s: Session, id: nat, order: seq<Addr>, ok: set<Addr>, protect: set<nat>) {
    Enumerates(order, s.entries) && s.entries.Keys <= ok && forall n: nat :: Owns(s.world, n, id) ==> n in protect
  }

  /**
   Under own hooks the copy in the highest slot counts; elsewhere every record of the byte counts,
   because any of them may be written back last.
   */
  ghost predicate EndsRight(s: Session, tr: Trail, test: Test) {
    if tr.hooks != map[] then forall n :: n in tr.hooks && (forall m :: m in tr.hooks ==> m <= n) ==> test(tr.hooks[n])
    else RecordsPass(tr.now, tr.records, Accepted(s.world.mem, s.entries, s.entries.Keys), test)
  }

  /** Copies are held by own hooks and by records of the journal. */
  ghost predicate HeldHere(s: Session, id: nat, tr: Trail) {
    tr.records.Keys <= s.entries.Keys && forall n :: n in tr.hooks ==> Owns(s.world, n, id)
  }

  lemma SomeAnswer(s: Session, id: nat) returns (order: seq<Addr>, ok: set<Addr>, protect: set<nat>)
    ensures Granted(s, id, order, ok, protect)
  {
    order := AnOrder(s.entries);
    ok := s.entries.Keys;
    protect := set n: nat | n < |s.world.slots| && Owns(s.world, n, id);
  }

  lemma SourceUnderHooks(s: Session, id: nat, tr: Trail, order: seq<Addr>, ok: set<Addr>, protect: set<nat>) returns (top: nat)
    requires HeldHere(s, id, tr) && tr.hooks != map[] && Granted(s, id, order, ok, protect)
    ensures top in tr.hooks && forall m :: m in tr.hooks ==> m <= top
    ensures TornSource(s, id, tr, order, ok, protect) == tr.hooks[top]
  {
    assert tr.hooks.Keys != {} by { var n :| n in tr.hooks; }
    top := Highest(tr.hooks.Keys);
    TopSource(s, id, tr, order, ok, protect, top);
  }

  lemma SourceWithoutHooks(s: Session, id: nat, tr: Trail, order: seq<Addr>, ok: set<Addr>, protect: set<nat>)
    requires tr.hooks == map[] && Granted(s, id, order, ok, protect)
    ensures TornSource(s, id, tr, order, ok, protect) ==
            RevertSource(tr.now, tr.records, order, Accepted(s.world.mem, s.entries, s.entries.Keys))
  {
    assert Accepted(s.world.mem, s.entries, ok) == Accepted(s.world.mem, s.entries, s.entries.Keys);
    NoHook(RevertSource(tr.now, tr.records, order, Accepted(s.world.mem, s.entries, ok)), tr.hooks, s.world.slots, id, 0,
           protect);
  }

  /** A byte ends right after every accepted teardown exactly when the copies over it are right. */
  lemma EveryTeardownPasses(s: Session, id: nat, tr: Trail, test: Test)
    requires HeldHere(s, id, tr)
    ensures (forall order, ok, protect :: Granted(s, id, order, ok, protect) ==>
              test(TornSource(s, id, tr, order, ok, protect))) <==>
            EndsRight(s, tr, test)
  {
    var accepted := Accepted(s.world.mem, s.entries, s.entries.Keys);
    var order0, ok0, protect0 := SomeAnswer(s, id);
    if tr.hooks != map[] {
      var top0 := SourceUnderHooks(s, id, tr, order0, ok0, protect0);
      forall order, ok, protect | Granted(s, id, order, ok, protect)
        ensures TornSource(s, id, tr, order, ok, protect) == tr.hooks[top0]
      {
        var top := SourceUnderHooks(s, id, tr, order, ok, protect);
      }
    } else {
      EveryWalkPasses(tr.now, tr.records, s.entries, accepted, test);
      forall order, ok, protect | Granted(s, id, order, ok, protect)
        ensures TornSource(s, id, tr, order, ok, protect) == RevertSource(tr.now, tr.records, order, accepted)
      {
        SourceWithoutHooks(s, id, tr, order, ok, protect);
      }
      forall order | Enumerates(order, s.entries) ensures Granted(s, id, order, ok0, protect0) {}
    }
  }

  // ----- whole runs -----

  /** The session a run of the script ends in. */
  function Ending(w: World, id: nat, steps: seq<ScriptStep>): Session
    requires RunPossible(Spawned(w), id, steps)
  {
    RunAfter(Spawned(w), id, steps)
  }

  function TrailOf(w: World, id: nat, steps: seq<ScriptStep>, x: Addr): Trail
    requires RunPossible(Spawned(w), id, steps)
  {
    TrailRun(Spawned(w), id, x, UNTOUCHED, steps)
  }

  /** A life with these steps whose teardown the system accepts, in any journal order. */
  ghost predicate Accepting(w: World, id: nat, steps: seq<ScriptStep>, life: Life) {
    && life.steps == steps && LifePossible(w, id, life)
    && Granted(Ending(w, id, steps), id, life.order, life.ok, life.protect)
  }

  lemma TrailHeld(w: World, id: nat, steps: seq<ScriptStep>, x: Addr)
    requires Books(w, None) && NoHooksOf(w, id) && RunPossible(Spawned(w), id, steps)
    requires OwnRemovals(Spawned(w), id, steps) && x in GameMemory(w)
    ensures HeldHere(Ending(w, id, steps), id, TrailOf(w, id, steps, x))
  {
    SpawnRestorable(w, id);
    SpawnFollows(w, id, x);
    RunFollows(Spawned(w), id, x, w.mem[x], Fresh(w), UNTOUCHED, steps);
    var s, tr := Ending(w, id, steps), TrailOf(w, id, steps, x);
    assert forall a :: a in tr.records ==> Covers(s.entries, a, x);
  }

  lemma AcceptingLife(w: World, id: nat, steps: seq<ScriptStep>) returns (life: Life)
    requires Books(w, None) && NoHooksOf(w, id) && RunPossible(Spawned(w), id, steps)
    ensures Accepting(w, id, steps, life)
  {
    RunAccounted(Spawned(w), id, Fresh(w), steps);
    var order, ok, protect := SomeAnswer(Ending(w, id, steps), id);
    life := Life(steps, order, ok, protect);
  }

  lemma GrantedLife(w: World, id: nat, steps: seq<ScriptStep>, order: seq<Addr>, ok: set<Addr>, protect: set<nat>)
    requires Books(w, None) && NoHooksOf(w, id) && RunPossible(Spawned(w), id, steps)
    requires Granted(Ending(w, id, steps), id, order, ok, protect)
    ensures Accepting(w, id, steps, Life(steps, order, ok, protect))
  {
    RunAccounted(Spawned(w), id, Fresh(w), steps);
  }

  /** What the end of a byte is in one life, over all lives. */
  lemma EveryLifePasses(w: World, id: nat, steps: seq<ScriptStep>, x: Addr, test: Test)
    requires Books(w, None) && NoHooksOf(w, id) && RunPossible(Spawned(w), id, steps)
    requires OwnRemovals(Spawned(w), id, steps) && x in GameMemory(w)
    ensures (forall life :: Accepting(w, id, steps, life) ==> test(Outcome(w, id, life, x).0)) <==>
            EndsRight(Ending(w, id, steps), TrailOf(w, id, steps, x), test)
  {
    var s, tr := Ending(w, id, steps), TrailOf(w, id, steps, x);
    TrailHeld(w, id, steps, x);
    EveryTeardownPasses(s, id, tr, test);
    if forall life :: Accepting(w, id, steps, life) ==> test(Outcome(w, id, life, x).0) {
      forall order, ok, protect | Granted(s, id, order, ok, protect) ensures test(TornSource(s, id, tr, order, ok, protect)) {
        GrantedLife(w, id, steps, order, ok, protect);
        assert Outcome(w, id, Life(steps, order, ok, protect), x).0 == TornSource(s, id, tr, order, ok, protect);
      }
    }
  }

  /**
   In one game: every accepted teardown, in every order of the journal, gives back the memory
   found at spawn with the permanent writes, if and only if the script removed no foreign hook
   and every game byte ends right.
   */
  lemma RestoredInEveryOrder(w: World, id: nat, steps: seq<ScriptStep>)
    requires Books(w, None) && NoHooksOf(w, id) && RunPossible(Spawned(w), id, steps)
    ensures (forall life :: Accepting(w, id, steps, life) ==> Undone(w, id, life)) <==>
            && OwnRemovals(Spawned(w), id, steps)
            && forall x :: x in GameMemory(w) ==>
                 EndsRight(Ending(w, id, steps), TrailOf(w, id, steps, x), Reads(TrailOf(w, id, steps, x).want, w.mem[x]))
  {
    if OwnRemovals(Spawned(w), id, steps) {
      forall x | x in GameMemory(w)
        ensures EndsRight(Ending(w, id, steps), TrailOf(w, id, steps, x), Reads(TrailOf(w, id, steps, x).want, w.mem[x])) <==>
                forall life :: Accepting(w, id, steps, life) ==>
                  Reads(TrailOf(w, id, steps, x).want, w.mem[x])(Outcome(w, id, life, x).0)
      {
        EveryLifePasses(w, id, steps, x, Reads(TrailOf(w, id, steps, x).want, w.mem[x]));
      }
      forall life | Accepting(w, id, steps, life)
        ensures Undone(w, id, life) <==> forall x :: x in GameMemory(w) ==>
                  Reads(TrailOf(w, id, steps, x).want, w.mem[x])(Outcome(w, id, life, x).0)
      {
        RestoredExactly(w, id, life);
      }
    } else {
      var life := AcceptingLife(w, id, steps);
      RestoredExactly(w, id, life);
    }
  }

  // ----- every game -----

  lemma SameGranted(s: Session, r: Session, id: nat, order: seq<Addr>, ok: set<Addr>, protect: set<nat>)
    requires SameSession(s, r) && Granted(s, id, order, ok, protect)
    ensures Granted(r, id, order, ok, protect)
  {
    SameAccepted(s, r, ok);
    forall n: nat | Owns(r.world, n, id) ensures n in protect {
      assert SameSlot(s.world.slots[n], r.world.slots[n]) && Owns(s.world, n, id);
    }
  }

  lemma SameAccepting(w: World, v: World, id: nat, steps: seq<ScriptStep>, life: Life)
    requires SameGame(w, v) && Unconditional(steps) && RunPossible(Spawned(w), id, steps) && Accepting(w, id, steps, life)
    ensures RunPossible(Spawned(v), id, steps) && Accepting(v, id, steps, life)
  {
    SameRun(Spawned(w), Spawned(v), id, 0, UNTOUCHED, steps);
    SameLife(w, v, id, life, 0);
    SameGranted(Ending(w, id, steps), Ending(v, id, steps), id, life.order, life.ok, life.protect);
  }

  /** The same teardowns are possible in all those games. */
  lemma AcceptingAlike(w: World, v: World, id: nat, steps: seq<ScriptStep>, life: Life)
    requires SameGame(w, v) && Unconditional(steps) && RunPossible(Spawned(w), id, steps)
    ensures RunPossible(Spawned(v), id, steps) && (Accepting(w, id, steps, life) <==> Accepting(v, id, steps, life))
  {
    SameRun(Spawned(w), Spawned(v), id, 0, UNTOUCHED, steps);
    if Accepting(w, id, steps, life) { SameAccepting(w, v, id, steps, life); }
    if Accepting(v, id, steps, life) { SameAccepting(v, w, id, steps, life); }
  }

  /** In every game with the same addresses, every accepted teardown in any journal order undoes the steps. */
  ghost predicate AlwaysUndone(w: World, id: nat, steps: seq<ScriptStep>) {
    forall v, life :: SameGame(w, v) && Accepting(v, id, steps, life) ==> Undone(v, id, life)
  }

  /**
   Exactly which scripts are undone whatever code and data the game holds and in whatever order
   the journal is walked: those that remove no foreign hook and in which, right before the reload,
   every game byte has only right copies over it.
   */
  lemma UndoneExactly(w: World, id: nat, steps: seq<ScriptStep>)
    requires Books(w, None) && NoHooksOf(w, id) && RunPossible(Spawned(w), id, steps) && Unconditional(steps)
    ensures AlwaysUndone(w, id, steps) <==>
            && OwnRemovals(Spawned(w), id, steps)
            && forall x :: x in GameMemory(w) ==>
                 EndsRight(Ending(w, id, steps), TrailOf(w, id, steps, x), Is(TrailOf(w, id, steps, x).want))
  {
    forall life | Accepting(w, id, steps, life)
      ensures (forall v :: SameGame(w, v) ==> Undone(v, id, life)) <==>
              OwnRemovals(Spawned(w), id, steps) && forall x :: x in GameMemory(w) ==>
                Is(TrailOf(w, id, steps, x).want)(Outcome(w, id, life, x).0)
    {
      UndoneExactlyAsAnswered(w, id, life);
    }
    forall v, life | SameGame(w, v) ensures Accepting(w, id, steps, life) <==> Accepting(v, id, steps, life) {
      AcceptingAlike(w, v, id, steps, life);
    }
    var some := AcceptingLife(w, id, steps);
    if OwnRemovals(Spawned(w), id, steps) {
      forall x | x in GameMemory(w)
        ensures EndsRight(Ending(w, id, steps), TrailOf(w, id, steps, x), Is(TrailOf(w, id, steps, x).want)) <==>
                forall life :: Accepting(w, id, steps, life) ==>
                  Is(TrailOf(w, id, steps, x).want)(Outcome(w, id, life, x).0)
      {
        EveryLifePasses(w, id, steps, x, Is(TrailOf(w, id, steps, x).want));
      }
    }
  }

  // ----- a later hook in a lower slot -----

  lemma StepThenRest(s: Session, id: nat, steps: seq<ScriptStep>)
    requires RunPossible(s, id, steps) && steps != []
    ensures StepPossible(s.world, steps[0]) && RunPossible(StepAfter(s, id, steps[0]), id, steps[1..])
    ensures RunAfter(s, id, steps) == RunAfter(StepAfter(s, id, steps[0]), id, steps[1..])
  {
  }

  /** Hook A, hook B, remove A, hook C. */
  ghost predicate Rehooks(w: World, id: nat, steps: seq<ScriptStep>, s1: Session, s2: Session, s3: Session, s4: Session,
                          a: nat, b: nat, c: nat)
  {
    && |steps| == 4
    && Installs(Spawned(w), id, steps[0], a) && s1 == StepAfter(Spawned(w), id, steps[0])
    && Installs(s1, id, steps[1], b) && s2 == StepAfter(s1, id, steps[1])
    && steps[2] == RemoveStep(a, true) && StepPossible(s2.world, steps[2]) && s3 == StepAfter(s2, id, steps[2])
    && Installs(s3, id, steps[3], c) && s4 == StepAfter(s3, id, steps[3])
  }

  lemma RehooksRun(w: World, id: nat, steps: seq<ScriptStep>, s1: Session, s2: Session, s3: Session, s4: Session,
                   a: nat, b: nat, c: nat)
    requires RunPossible(Spawned(w), id, steps) && Rehooks(w, id, steps, s1, s2, s3, s4, a, b, c)
    ensures RunAfter(Spawned(w), id, steps) == s4
  {
    StepThenRest(Spawned(w), id, steps);
    StepThenRest(s1, id, steps[1..]);
    StepThenRest(s2, id, steps[1..][1..]);
    StepThenRest(s3, id, steps[1..][1..][1..]);
  }

  /** The freed slot is the lowest vacant one again. */
  lemma SlotReused(slots: seq<Option<HookCtx>>, after: seq<Option<HookCtx>>, a: nat, b: nat, h: Option<HookCtx>,
                   k: Option<HookCtx>)
    requires a == FirstVacant(slots) && a < b < |slots| && after == slots[a := h][b := k][a := None]
    ensures FirstVacant(after) == a
  {
    VacantAt(after, a);
  }

  lemma RemovedLower(slots: seq<Option<HookCtx>>, s2: Session, id: nat, base: Mem, s3: Session, i3: ScriptStep, a: nat, b: nat)
    requires Books(s2.world, None) && MapOk(s2.world, id, base)
    requires a == FirstVacant(slots) && a < b < |slots| && Owns(s2.world, a, id) && Owns(s2.world, b, id)
    requires s2.world.slots == slots[a := s2.world.slots[a]][b := s2.world.slots[b]]
    requires i3 == RemoveStep(a, true) && StepPossible(s2.world, i3) && s3 == StepAfter(s2, id, i3)
    ensures Books(s3.world, None) && MapOk(s3.world, id, base) && FirstVacant(s3.world.slots) == a
    ensures s3.world.slots == s2.world.slots[a := None]
  {
    StepAccounted(s2, id, base, i3);
    RemoveSlots(s2.world, a, true);
    SlotReused(slots, s3.world.slots, a, b, s2.world.slots[a], s2.world.slots[b]);
  }

  /** After removing the hook in the lower of two slots, the next one goes there. */
  lemma Rehooked(slots: seq<Option<HookCtx>>, s2: Session, id: nat, base: Mem, s3: Session, i3: ScriptStep, s4: Session,
                 i4: ScriptStep, a: nat, b: nat, c: nat)
    requires Books(s2.world, None) && MapOk(s2.world, id, base)
    requires a == FirstVacant(slots) && a < b < |slots| && Owns(s2.world, a, id) && Owns(s2.world, b, id)
    requires s2.world.slots == slots[a := s2.world.slots[a]][b := s2.world.slots[b]]
    requires i3 == RemoveStep(a, true) && StepPossible(s2.world, i3) && s3 == StepAfter(s2, id, i3)
    requires Installs(s3, id, i4, c) && s4 == StepAfter(s3, id, i4)
    ensures c == a && Books(s4.world, None) && MapOk(s4.world, id, base)
    ensures s4.world.slots == s2.world.slots[a := s4.world.slots[a]] && |s4.world.slots| == |s2.world.slots|
  {
    RemovedLower(slots, s2, id, base, s3, i3, a, b);
    InstalledSlot(s3, id, base, i4, c);
    Overwritten(s2.world.slots, s3.world.slots, s4.world.slots, a);
  }

  lemma Overwritten(before: seq<Option<HookCtx>>, between: seq<Option<HookCtx>>, after: seq<Option<HookCtx>>, a: nat)
    requires a < |before| && between == before[a := None] && |after| == |between| && after == between[a := after[a]]
    ensures after == before[a := after[a]]
  {
  }

  lemma RehooksSlots(w: World, id: nat, steps: seq<ScriptStep>, s1: Session, s2: Session, s3: Session, s4: Session,
                     a: nat, b: nat, c: nat)
    requires Books(w, None) && NoHooksOf(w, id) && Rehooks(w, id, steps, s1, s2, s3, s4, a, b, c)
    ensures c == a < b && Owns(s4.world, b, id) && Live(s2.world, b) && Ctx(s4.world, b) == Ctx(s2.world, b)
    ensures forall n :: Owns(s4.world, n, id) ==> n == a || n == b
    ensures Books(s1.world, None) && MapOk(s1.world, id, GameMemory(w))
    ensures Books(s4.world, None) && MapOk(s4.world, id, GameMemory(w))
  {
    TwoInstalls(w, id, s1, s2, steps[0], steps[1], a, b);
    Rehooked(w.slots, s2, id, GameMemory(w), s3, steps[2], s4, steps[3], a, b, c);
    forall n | Owns(s4.world, n, id) && n != a ensures n == b { assert Owns(s2.world, n, id); }
  }

  /** An installation leaves game bytes outside its prologue alone. */
  lemma OutsideKept(w: World, id: nat, step: ScriptStep, s1: Session, k: nat, x: Addr)
    requires Books(w, None) && Installs(Spawned(w), id, step, k) && s1 == StepAfter(Spawned(w), id, step)
    requires x in GameMemory(w) && !Under(s1.world, k, x)
    ensures x in s1.world.mem && s1.world.mem[x] == GameMemory(w)[x]
  {
    InstalledHooked(Spawned(w), id, step, s1, k);
  }

  /** What B recorded is still its record in the end. */
  lemma RehooksRecord(w: World, id: nat, steps: seq<ScriptStep>, s1: Session, s2: Session, s3: Session, s4: Session,
                      a: nat, b: nat, c: nat, x: Addr)
    requires Books(w, None) && NoHooksOf(w, id) && Rehooks(w, id, steps, s1, s2, s3, s4, a, b, c)
    requires Under(s4.world, b, x) && x in GameMemory(w)
    ensures x in s1.world.mem && Copy(s4.world, b, x) == s1.world.mem[x]
  {
    RehooksSlots(w, id, steps, s1, s2, s3, s4, a, b, c);
    SameUnder(s2.world, s4.world, b, x);
    InstalledRecord(s1, id, GameMemory(w), steps[1], s2, b, x);
  }

  lemma RehooksTorn(w: World, id: nat, life: Life, s1: Session, s2: Session, s3: Session, s4: Session,
                    a: nat, b: nat, c: nat, x: Addr)
    requires Books(w, None) && NoHooksOf(w, id) && LifePossible(w, id, life)
    requires Rehooks(w, id, life.steps, s1, s2, s3, s4, a, b, c)
    requires Under(s4.world, b, x) && x in GameMemory(w) && b in life.protect
    ensures c < b && x in GameMemory(Torn(w, id, life))
    ensures GameMemory(Torn(w, id, life))[x] == Copy(s4.world, b, x)
  {
    RehooksRun(w, id, life.steps, s1, s2, s3, s4, a, b, c);
    RehooksSlots(w, id, life.steps, s1, s2, s3, s4, a, b, c);
    TornTo(w, id, s4, b, x, life);
  }

  /**
   Hooking C over B after removing A is undone under both: C sits in A's slot, below B, so B is
   unhooked last and puts back what it found, the game's byte unless A lay there too.
   */
  lemma LaterHookLower(w: World, id: nat, life: Life, s1: Session, s2: Session, s3: Session, s4: Session,
                       a: nat, b: nat, c: nat, x: Addr)
    requires Books(w, None) && NoHooksOf(w, id) && LifePossible(w, id, life)
    requires Rehooks(w, id, life.steps, s1, s2, s3, s4, a, b, c)
    requires Under(s4.world, b, x) && Under(s4.world, c, x) && x in GameMemory(w) && b in life.protect
    ensures c < b && x in GameMemory(Torn(w, id, life)) && x in s1.world.mem
    ensures GameMemory(Torn(w, id, life))[x] == s1.world.mem[x]
    ensures !Under(s1.world, a, x) ==> GameMemory(Torn(w, id, life))[x] == GameMemory(w)[x]
  {
    RehooksRecord(w, id, life.steps, s1, s2, s3, s4, a, b, c, x);
    RehooksTorn(w, id, life, s1, s2, s3, s4, a, b, c, x);
    if !Under(s1.world, a, x) { OutsideKept(w, id, life.steps[0], s1, a, x); }
  }
}
