/**
 Exactly which runs of a script a reload undoes, whatever the system answers. One game byte is
 followed through the run: `Trail` says where the byte in memory, in the journal records and in
 the script's patches comes from, without knowing what the game's memory holds.
 */
module ReloadExactness {
  import opened Bytes
  import opened MemValue
  import opened ProcessMemory
  import opened ThunkSlab
  import opened InlineDetour
  import opened HookRuntime
  import opened WriteJournal
  import opened MemHost
  import opened HotReload
  import HookTable

  /** Where a byte comes from: the game as it was at spawn, or a store of the run. */
  datatype Source = Original | Fixed(b: Byte)

  function Eval(s: Source, c: Byte): Byte { if s.Original? then c else s.b }

  /**
   One address: the byte in memory, the byte a reload should leave (permanent writes included),
   and the copies held by the journal records and the script's patches that reach it.
   */
  datatype Trail = Trail(now: Source, want: Source, records: map<Addr, Source>, hooks: map<nat, Source>)

  const UNTOUCHED := Trail(Original, Original, map[], map[])

  predicate Under(w: World, n: int, x: Addr) {
    Live(w, n) && Within(x, Ctx(w, n).patch.target, |Ctx(w, n).patch.original|)
  }

  /** What the hook in slot `n` recorded of the byte, and what it put there. */
  function Copy(w: World, n: int, x: Addr): Byte
    requires Under(w, n, x)
  {
    Ctx(w, n).patch.original[x - Ctx(w, n).patch.target]
  }

  function Jump(w: World, n: int, x: Addr): Byte
    requires Under(w, n, x) && JUMP_BYTES <= |Ctx(w, n).patch.original|
  {
    PatchCode(Ctx(w, n).thunk, |Ctx(w, n).patch.original|)[x - Ctx(w, n).patch.target]
  }

  function TouchTrail(s: Session, x: Addr, tr: Trail, touch: Touch, data: seq<Byte>): Trail
    requires |data| == touch.width
  {
    if !Within(x, touch.addr, touch.width) then tr else
    var records := if Records(s.world.mem, Widths(s.entries), touch) then tr.records[touch.addr := tr.now] else tr.records;
    tr.(records := records, now := if Lands(s.world.mem, touch) then Fixed(data[x - touch.addr]) else tr.now)
  }

  function PatchTrail(x: Addr, tr: Trail, n: nat, p: Patch, code: seq<Byte>): Trail
    requires |code| == |p.original|
  {
    if !Within(x, p.target, |code|) then tr
    else tr.(hooks := tr.hooks[n := tr.now], now := Fixed(code[x - p.target]))
  }

  function HookTrail(w: World, x: Addr, tr: Trail, n: nat): Trail
    requires Live(w, n) && JUMP_BYTES <= |Ctx(w, n).patch.original|
  {
    var p := Ctx(w, n).patch;
    PatchTrail(x, tr, n, p, PatchCode(p.detour, |p.original|))
  }

  /** The code an installation leaves in the prologue. */
  lemma InstallCode(w: World, methodPtr: nat, handler: nat, owner: nat, a: InstallAnswers)
    requires BitmapsFull(w.slab) && InstallAnswersOk(w, a)
    ensures var (w', r) := InstallHook(w, methodPtr, handler, owner, a);
            r.Ok? ==>
              && r.value < |w'.slots| && w'.slots[r.value].Some?
              && var c := w'.slots[r.value].value;
                 && JUMP_BYTES <= |c.patch.original| && c.patch.detour == c.thunk
                 && Holds(w'.mem, c.patch.target, PatchCode(c.thunk, |c.patch.original|))
  {
    var (w', r) := InstallHook(w, methodPtr, handler, owner, a);
    if r.Ok? {
      var e := Emit(w.slab, w.mem, FirstVacant(w.slots), w.shim, a.page);
      AnswersOkAfterEmit(w, FirstVacant(w.slots), a);
      PatchHolds(e.mem, a.entry.value, e.thunk.value, a.patch);
    }
  }

  function RemoveTrail(tr: Trail, h: nat, protect: bool): Trail {
    if h !in tr.hooks then tr else tr.(now := if protect then tr.hooks[h] else tr.now, hooks := tr.hooks - {h})
  }

  /** The trail after a step; it looks at addresses and sizes, never at the game's bytes. */
  function TrailAfter(s: Session, id: nat, x: Addr, tr: Trail, step: ScriptStep): Trail
    requires StepPossible(s.world, step)
  {
    match step
    case Write(_, ty, input, _, _) =>
      if TouchOf(s, step).None? then tr else TouchTrail(s, x, tr, TouchOf(s, step).value, TypedBytes(ty, input).value)
    case WriteIf(_, ty, _, input, _, _) =>
      if TouchOf(s, step).None? then tr else TouchTrail(s, x, tr, TouchOf(s, step).value, TypedBytes(ty, input).value)
    case WritePermanent(addr, _, _, _) =>
      var data := PermanentOf(s, step);
      if data.None? || !Within(x, addr, |data.value|) then tr
      else tr.(now := Fixed(data.value[x - addr]), want := Fixed(data.value[x - addr]))
    case InstallStep(methodPtr, handler, answers) =>
      InstallCode(s.world, methodPtr, handler, id, answers);
      var (w', r) := InstallHook(s.world, methodPtr, handler, id, answers);
      if r.Err? then tr else HookTrail(w', x, tr, r.value)
    case RemoveStep(h, protect) => RemoveTrail(tr, h, protect)
  }

  function TrailRun(s: Session, id: nat, x: Addr, tr: Trail, steps: seq<ScriptStep>): Trail
    requires RunPossible(s, id, steps)
    decreases |steps|
  {
    if steps == [] then tr
    else TrailRun(StepAfter(s, id, steps[0]), id, x, TrailAfter(s, id, x, tr, steps[0]), steps[1..])
  }

  /** The journal walk: the last accepted record that reaches the byte stays. */
  function RevertSource(now: Source, records: map<Addr, Source>, order: seq<Addr>, accepted: set<Addr>): Source
    decreases |order|
  {
    if order == [] then now
    else RevertSource(if order[0] in records && order[0] in accepted then records[order[0]] else now,
                      records, order[1..], accepted)
  }

  /** The unhooking: the last patch put back over the byte stays. */
  function UnhookSource(now: Source, hooks: map<nat, Source>, ids: seq<nat>, protect: set<nat>): Source
    decreases |ids|
  {
    if ids == [] then now
    else UnhookSource(if ids[0] in hooks && ids[0] in protect then hooks[ids[0]] else now, hooks, ids[1..], protect)
  }

  /** Records whose write-back the system accepts. */
  ghost function Accepted(mem: Mem, entries: Entries, ok: set<Addr>): set<Addr> {
    set a | a in entries && a in ok && Mapped(mem, a, |entries[a]|)
  }

  ghost function TornSource(s: Session, id: nat, tr: Trail, order: seq<Addr>, ok: set<Addr>, protect: set<nat>): Source {
    UnhookSource(RevertSource(tr.now, tr.records, order, Accepted(s.world.mem, s.entries, ok)),
                 tr.hooks, Owned(s.world.slots, id, 0), protect)
  }

  // ----- the trail is right -----

  /** The patches of the script over one byte, and the byte itself. */
  ghost predicate HooksFollow(w: World, id: nat, x: Addr, c: Byte, now: Source, hooks: map<nat, Source>) {
    && x in w.mem && w.mem[x] == Eval(now, c)
    && (forall n :: n in hooks <==> Owns(w, n, id) && Under(w, n, x))
    && (forall n :: n in hooks ==> Ctx(w, n).patch.original[x - Ctx(w, n).patch.target] == Eval(hooks[n], c))
  }

  ghost predicate RecordsFollow(entries: Entries, x: Addr, c: Byte, records: map<Addr, Source>) {
    && (forall a :: a in records <==> Covers(entries, a, x))
    && (forall a :: a in records ==> entries[a][x - a] == Eval(records[a], c))
  }

  /** The trail describes the byte `x`, which held `c` at spawn. */
  ghost predicate Follows(s: Session, id: nat, x: Addr, c: Byte, base: Mem, tr: Trail) {
    && x in base && base[x] == Eval(tr.want, c)
    && HooksFollow(s.world, id, x, c, tr.now, tr.hooks) && RecordsFollow(s.entries, x, c, tr.records)
  }

  /** A script removes only its own hooks. */
  predicate OwnRemoval(s: Session, id: nat, step: ScriptStep) {
    step.RemoveStep? && Live(s.world, step.handle) ==> Owns(s.world, step.handle, id)
  }

  lemma SameSlotsFollow(w: World, w': World, id: nat, x: Addr, c: Byte, now: Source, now': Source, hooks: map<nat, Source>)
    requires HooksFollow(w, id, x, c, now, hooks) && w'.slots == w.slots
    requires x in w'.mem && w'.mem[x] == Eval(now', c)
    ensures HooksFollow(w', id, x, c, now', hooks)
  {
    assert forall n :: Owns(w', n, id) && Under(w', n, x) <==> Owns(w, n, id) && Under(w, n, x);
  }

  lemma RecordAdded(entries: Entries, x: Addr, c: Byte, records: map<Addr, Source>, a: Addr, bytes: seq<Byte>, b: Source)
    requires RecordsFollow(entries, x, c, records) && a !in entries
    requires Within(x, a, |bytes|) ==> bytes[x - a] == Eval(b, c)
    ensures RecordsFollow(entries[a := bytes], x, c, if Within(x, a, |bytes|) then records[a := b] else records)
  {
    assert a !in records;
  }

  lemma TouchRecordsFollow(s: Session, x: Addr, c: Byte, tr: Trail, touch: Touch, data: seq<Byte>)
    requires x in s.world.mem && s.world.mem[x] == Eval(tr.now, c) && RecordsFollow(s.entries, x, c, tr.records)
    requires |data| == touch.width
    ensures RecordsFollow(Touched(s.entries, s.world.mem, touch.addr, touch.width, touch.readable), x, c,
                          TouchTrail(s, x, tr, touch, data).records)
  {
    if Records(s.world.mem, Widths(s.entries), touch) {
      var bytes := Load(s.world.mem, touch.addr, touch.width);
      RecordAdded(s.entries, x, c, tr.records, touch.addr, bytes, tr.now);
    }
  }

  lemma TouchFollows(s: Session, id: nat, x: Addr, c: Byte, base: Mem, tr: Trail, touch: Touch, data: seq<Byte>)
    requires Follows(s, id, x, c, base, tr) && |data| == touch.width
    ensures var mem := RawWrite(s.world.mem, touch.addr, data, touch.writable);
            var entries := Touched(s.entries, s.world.mem, touch.addr, touch.width, touch.readable);
            Follows(Session(s.world.(mem := mem), entries), id, x, c, base, TouchTrail(s, x, tr, touch, data))
  {
    var tr' := TouchTrail(s, x, tr, touch, data);
    TouchRecordsFollow(s, x, c, tr, touch, data);
    SameSlotsFollow(s.world, s.world.(mem := RawWrite(s.world.mem, touch.addr, data, touch.writable)), id, x, c,
                    tr.now, tr'.now, tr.hooks);
  }

  lemma PermanentFollows(s: Session, id: nat, x: Addr, c: Byte, base: Mem, tr: Trail, addr: Addr, data: seq<Byte>)
    requires Follows(s, id, x, c, base, tr) && Mapped(s.world.mem, addr, |data|)
    ensures var tr' := if !Within(x, addr, |data|) then tr
                       else tr.(now := Fixed(data[x - addr]), want := Fixed(data[x - addr]));
            Follows(Session(s.world.(mem := Store(s.world.mem, addr, data)), s.entries), id, x, c,
                    Store(base, addr, data), tr')
  {
    var now := if !Within(x, addr, |data|) then tr.now else Fixed(data[x - addr]);
    SameSlotsFollow(s.world, s.world.(mem := Store(s.world.mem, addr, data)), id, x, c, tr.now, now, tr.hooks);
  }

  lemma SlabOnlyFollows(s: Session, w': World, id: nat, x: Addr, c: Byte, base: Mem, tr: Trail)
    requires Follows(s, id, x, c, base, tr) && SlabOnly(s.world, w') && !InSlab(s.world.slab, x)
    ensures Follows(Session(w', s.entries), id, x, c, base, tr)
  {
    SameSlotsFollow(s.world, w', id, x, c, tr.now, tr.now, tr.hooks);
  }

  lemma HookAdded(w: World, w': World, id: nat, x: Addr, c: Byte, now: Source, hooks: map<nat, Source>,
                  k: nat, h: HookCtx, b: Source)
    requires HooksFollow(w, id, x, c, now, hooks) && k < |w.slots| && w.slots[k].None?
    requires w'.slots == w.slots[k := Some(h)] && h.owner == id && x in w'.mem && w'.mem[x] == Eval(b, c)
    requires Within(x, h.patch.target, |h.patch.original|) ==> h.patch.original[x - h.patch.target] == Eval(now, c)
    ensures var hooks' := if Within(x, h.patch.target, |h.patch.original|) then hooks[k := now] else hooks;
            HooksFollow(w', id, x, c, b, hooks')
  {
    assert forall n :: n != k ==> (Owns(w', n, id) && Under(w', n, x) <==> Owns(w, n, id) && Under(w, n, x));
    assert k !in hooks && Owns(w', k, id);
  }

  lemma HookedFollows(s: Session, w': World, id: nat, x: Addr, c: Byte, base: Mem, tr: Trail, k: nat, h: HookCtx, code: seq<Byte>)
    requires Follows(s, id, x, c, base, tr) && Hooked(s.world, w', k, h) && !InSlab(s.world.slab, x) && h.owner == id
    requires |code| == |h.patch.original| && Holds(w'.mem, h.patch.target, code)
    ensures Follows(Session(w', s.entries), id, x, c, base, PatchTrail(x, tr, k, h.patch, code))
  {
    HookAdded(s.world, w', id, x, c, tr.now, tr.hooks, k, h, PatchTrail(x, tr, k, h.patch, code).now);
  }

  lemma InstallStepFollows(s: Session, id: nat, x: Addr, c: Byte, base: Mem, tr: Trail, step: ScriptStep)
    requires Books(s.world, None) && Follows(s, id, x, c, base, tr) && !InSlab(s.world.slab, x)
    requires step.InstallStep? && StepPossible(s.world, step)
    ensures Follows(StepAfter(s, id, step), id, x, c, base, TrailAfter(s, id, x, tr, step))
  {
    if InstallHook(s.world, step.methodPtr, step.handler, id, step.answers).1.Err? {
      RefusedFollows(s, id, x, c, base, tr, step);
    } else {
      AcceptedFollows(s, id, x, c, base, tr, step);
    }
  }

  lemma RefusedFollows(s: Session, id: nat, x: Addr, c: Byte, base: Mem, tr: Trail, step: ScriptStep)
    requires Books(s.world, None) && Follows(s, id, x, c, base, tr) && !InSlab(s.world.slab, x)
    requires step.InstallStep? && StepPossible(s.world, step)
    requires InstallHook(s.world, step.methodPtr, step.handler, id, step.answers).1.Err?
    ensures Follows(StepAfter(s, id, step), id, x, c, base, TrailAfter(s, id, x, tr, step))
  {
    InstallEffect(s.world, step.methodPtr, step.handler, id, step.answers);
    SlabOnlyFollows(s, InstallHook(s.world, step.methodPtr, step.handler, id, step.answers).0, id, x, c, base, tr);
  }

  /** The trail of a successful installation. */
  lemma AcceptedTrail(s: Session, id: nat, x: Addr, tr: Trail, step: ScriptStep, w': World, n: nat)
    requires step.InstallStep? && StepPossible(s.world, step)
    requires InstallHook(s.world, step.methodPtr, step.handler, id, step.answers) == (w', Ok(n))
    ensures Live(w', n) && JUMP_BYTES <= |Ctx(w', n).patch.original|
    ensures var h := Ctx(w', n); var code := PatchCode(h.thunk, |h.patch.original|);
            Holds(w'.mem, h.patch.target, code) && TrailAfter(s, id, x, tr, step) == PatchTrail(x, tr, n, h.patch, code)
  {
    InstallCode(s.world, step.methodPtr, step.handler, id, step.answers);
  }

  lemma AcceptedFollows(s: Session, id: nat, x: Addr, c: Byte, base: Mem, tr: Trail, step: ScriptStep)
    requires Books(s.world, None) && Follows(s, id, x, c, base, tr) && !InSlab(s.world.slab, x)
    requires step.InstallStep? && StepPossible(s.world, step)
    requires InstallHook(s.world, step.methodPtr, step.handler, id, step.answers).1.Ok?
    ensures Follows(StepAfter(s, id, step), id, x, c, base, TrailAfter(s, id, x, tr, step))
  {
    var (w', r) := InstallHook(s.world, step.methodPtr, step.handler, id, step.answers);
    InstallEffect(s.world, step.methodPtr, step.handler, id, step.answers);
    AcceptedTrail(s, id, x, tr, step, w', r.value);
    var h := Ctx(w', r.value);
    HookedFollows(s, w', id, x, c, base, tr, r.value, h, PatchCode(h.thunk, |h.patch.original|));
  }

  /** Removing an own hook, with or without its prologue put back. */
  lemma UnhookFollows(w: World, w': World, id: nat, x: Addr, c: Byte, now: Source, hooks: map<nat, Source>, h: nat, protect: bool)
    requires HooksFollow(w, id, x, c, now, hooks) && Owns(w, h, id) && Unhooked(w, w', h, Ctx(w, h), protect)
    requires !InSlab(w.slab, x) && !Within(x, Ctx(w, h).patch.trampoline, TrampolineSize(Ctx(w, h).patch))
    ensures HooksFollow(w', id, x, c, if h in hooks && protect then hooks[h] else now, hooks - {h})
  {
    assert forall n :: n != h ==> (Owns(w', n, id) && Under(w', n, x) <==> Owns(w, n, id) && Under(w, n, x));
    assert !Live(w', h);
  }

  lemma OwnTrampolineAway(w: World, id: nat, base: Mem, x: Addr, h: nat)
    requires MapOk(w, id, base) && x in base && Owns(w, h, id)
    ensures !InSlab(w.slab, x) && !Within(x, Ctx(w, h).patch.trampoline, TrampolineSize(Ctx(w, h).patch))
  {
  }

  lemma WriteStepFollows(s: Session, id: nat, x: Addr, c: Byte, base: Mem, tr: Trail, step: ScriptStep)
    requires (step.Write? || step.WriteIf?) && StepPossible(s.world, step) && Follows(s, id, x, c, base, tr)
    ensures Follows(StepAfter(s, id, step), id, x, c, base, TrailAfter(s, id, x, tr, step))
  {
    WriteStepEffect(s, id, step);
    var touch := TouchOf(s, step);
    if touch.Some? { TouchFollows(s, id, x, c, base, tr, touch.value, TypedBytes(step.ty, step.input).value); }
  }

  lemma RemovedFollows(s: Session, w': World, id: nat, x: Addr, c: Byte, base: Mem, tr: Trail, h: nat, protect: bool)
    requires MapOk(s.world, id, base) && Follows(s, id, x, c, base, tr) && Owns(s.world, h, id)
    requires Unhooked(s.world, w', h, Ctx(s.world, h), protect)
    ensures Follows(Session(w', s.entries), id, x, c, base, RemoveTrail(tr, h, protect))
  {
    OwnTrampolineAway(s.world, id, base, x, h);
    UnhookFollows(s.world, w', id, x, c, tr.now, tr.hooks, h, protect);
    assert h !in tr.hooks ==> tr.hooks - {h} == tr.hooks;
  }

  lemma RemoveFollows(s: Session, w': World, id: nat, x: Addr, c: Byte, base: Mem, tr: Trail, h: nat, protect: bool)
    requires Books(s.world, None) && MapOk(s.world, id, base) && Follows(s, id, x, c, base, tr)
    requires (Live(s.world, h) ==> Owns(s.world, h, id)) && w' == RemoveHook(s.world, h, protect).0
    ensures Follows(Session(w', s.entries), id, x, c, base, RemoveTrail(tr, h, protect))
  {
    if Live(s.world, h) {
      RemoveEffect(s.world, h, protect);
      RemovedFollows(s, w', id, x, c, base, tr, h, protect);
    }
  }

  lemma RemoveStepFollows(s: Session, id: nat, x: Addr, c: Byte, base: Mem, tr: Trail, step: ScriptStep)
    requires Books(s.world, None) && MapOk(s.world, id, base) && Follows(s, id, x, c, base, tr)
    requires step.RemoveStep? && StepPossible(s.world, step) && OwnRemoval(s, id, step)
    ensures Follows(StepAfter(s, id, step), id, x, c, base, TrailAfter(s, id, x, tr, step))
  {
    RemoveFollows(s, RemoveHook(s.world, step.handle, step.protect).0, id, x, c, base, tr, step.handle, step.protect);
  }

  lemma PermanentStepFollows(s: Session, id: nat, x: Addr, c: Byte, t: Track, tr: Trail, step: ScriptStep)
    requires step.WritePermanent? && StepPossible(s.world, step) && Follows(s, id, x, c, t.base, tr)
    ensures Follows(StepAfter(s, id, step), id, x, c, TrackAfter(s, t, step).base, TrailAfter(s, id, x, tr, step))
  {
    var data := PermanentOf(s, step);
    if data.Some? { PermanentFollows(s, id, x, c, t.base, tr, step.addr, data.value); }
  }

  lemma OtherBaseKept(s: Session, t: Track, step: ScriptStep)
    requires !step.WritePermanent?
    ensures TrackAfter(s, t, step).base == t.base
  {
  }

  lemma StepFollows(s: Session, id: nat, x: Addr, c: Byte, t: Track, tr: Trail, step: ScriptStep)
    requires Books(s.world, None) && MapOk(s.world, id, t.base) && Follows(s, id, x, c, t.base, tr)
    requires StepPossible(s.world, step) && OwnRemoval(s, id, step)
    ensures Follows(StepAfter(s, id, step), id, x, c, TrackAfter(s, t, step).base, TrailAfter(s, id, x, tr, step))
  {
    if step.WritePermanent? {
      PermanentStepFollows(s, id, x, c, t, tr, step);
    } else {
      OtherBaseKept(s, t, step);
      if step.InstallStep? {
        InstallStepFollows(s, id, x, c, t.base, tr, step);
      } else if step.RemoveStep? {
        RemoveStepFollows(s, id, x, c, t.base, tr, step);
      } else {
        WriteStepFollows(s, id, x, c, t.base, tr, step);
      }
    }
  }

  // ----- whole runs -----

  predicate OwnRemovals(s: Session, id: nat, steps: seq<ScriptStep>)
    requires RunPossible(s, id, steps)
    decreases |steps|
  {
    steps == [] || (OwnRemoval(s, id, steps[0]) && OwnRemovals(StepAfter(s, id, steps[0]), id, steps[1..]))
  }

  lemma SameKeysMapOk(w: World, mem: Mem, id: nat, base: Mem)
    requires MapOk(w, id, base) && mem.Keys == w.mem.Keys
    ensures MapOk(w.(mem := mem), id, base)
  {
    SameOwnership(w, w.(mem := mem), id);
  }

  lemma InstallMapOk(w: World, id: nat, base: Mem, methodPtr: nat, handler: nat, a: InstallAnswers)
    requires Books(w, None) && MapOk(w, id, base) && InstallAnswersOk(w, a)
    ensures MapOk(InstallHook(w, methodPtr, handler, id, a).0, id, base)
  {
    var (w', r) := InstallHook(w, methodPtr, handler, id, a);
    InstallEffect(w, methodPtr, handler, id, a);
    match r
    case Err(_) => SameOwnership(w, w', id);
    case Ok(n) => OwnershipGrows(w, w', id, n, w'.slots[n].value);
  }

  /** Committed memory stays accounted for, and so do thunks, whatever a step does to bytes. */
  lemma StepAccounted(s: Session, id: nat, base: Mem, step: ScriptStep)
    requires Books(s.world, None) && StepPossible(s.world, step)
    ensures Books(StepAfter(s, id, step).world, None)
    ensures MapOk(s.world, id, base) && OwnRemoval(s, id, step) ==> MapOk(StepAfter(s, id, step).world, id, base)
  {
    match step
    case InstallStep(methodPtr, handler, answers) =>
      InstallBooks(s.world, methodPtr, handler, id, answers);
      if MapOk(s.world, id, base) { InstallMapOk(s.world, id, base, methodPtr, handler, answers); }
    case RemoveStep(h, protect) =>
      RemoveBooks(s.world, h, protect);
      if MapOk(s.world, id, base) && Live(s.world, h) && OwnRemoval(s, id, step) {
        RemoveEffect(s.world, h, protect);
        UnhookedMapOk(s.world, RemoveHook(s.world, h, protect).0, id, base, h, Ctx(s.world, h));
      }
    case _ =>
      var mem := StepAfter(s, id, step).world.mem;
      BooksIgnoreBytes(s.world, mem);
      if MapOk(s.world, id, base) { SameKeysMapOk(s.world, mem, id, base); }
  }

  lemma BaseKeys(s: Session, t: Track, step: ScriptStep)
    ensures TrackAfter(s, t, step).base.Keys == t.base.Keys
  {
  }

  lemma SameKeysBase(w: World, id: nat, a: Mem, b: Mem)
    requires MapOk(w, id, a) && a.Keys == b.Keys
    ensures MapOk(w, id, b)
  {
  }

  lemma {:induction false} RunFollows(s: Session, id: nat, x: Addr, c: Byte, t: Track, tr: Trail, steps: seq<ScriptStep>)
    requires Books(s.world, None) && MapOk(s.world, id, t.base) && Follows(s, id, x, c, t.base, tr)
    requires RunPossible(s, id, steps) && OwnRemovals(s, id, steps)
    ensures Follows(RunAfter(s, id, steps), id, x, c, TrackRun(s, id, t, steps).base, TrailRun(s, id, x, tr, steps))
    decreases |steps|
  {
    if steps == [] {
    } else {
      var s', t' := StepAfter(s, id, steps[0]), TrackAfter(s, t, steps[0]);
      StepFollows(s, id, x, c, t, tr, steps[0]);
      StepAccounted(s, id, t.base, steps[0]);
      BaseKeys(s, t, steps[0]);
      SameKeysBase(s'.world, id, t.base, t'.base);
      RunFollows(s', id, x, c, t', TrailAfter(s, id, x, tr, steps[0]), steps[1..]);
    }
  }

  lemma {:induction false} RunAccounted(s: Session, id: nat, t: Track, steps: seq<ScriptStep>)
    requires Books(s.world, None) && RunPossible(s, id, steps)
    ensures Books(RunAfter(s, id, steps).world, None) && TrackRun(s, id, t, steps).base.Keys == t.base.Keys
    ensures MapOk(s.world, id, t.base) && OwnRemovals(s, id, steps) ==>
              MapOk(RunAfter(s, id, steps).world, id, TrackRun(s, id, t, steps).base)
    decreases |steps|
  {
    if steps == [] {
    } else {
      var s', t' := StepAfter(s, id, steps[0]), TrackAfter(s, t, steps[0]);
      StepAccounted(s, id, t.base, steps[0]);
      BaseKeys(s, t, steps[0]);
      if MapOk(s.world, id, t.base) && OwnRemovals(s, id, steps) { SameKeysBase(s'.world, id, t.base, t'.base); }
      RunAccounted(s', id, t', steps[1..]);
    }
  }

  // ----- teardown, byte by byte -----

  lemma {:induction false} RevertedByte(mem: Mem, entries: Entries, order: seq<Addr>, ok: set<Addr>, x: Addr, c: Byte,
                                        now: Source, records: map<Addr, Source>)
    requires forall i :: 0 <= i < |order| ==> order[i] in entries
    requires x in mem && mem[x] == Eval(now, c) && RecordsFollow(entries, x, c, records)
    ensures Revert(mem, entries, order, ok)[x] == Eval(RevertSource(now, records, order, Accepted(mem, entries, ok)), c)
    decreases |order|
  {
    if order == [] {
    } else {
      var a := order[0];
      var accepted := Accepted(mem, entries, ok);
      var m := RawWrite(mem, a, entries[a], a in ok);
      assert Accepted(m, entries, ok) == accepted;
      assert a in records <==> Covers(entries, a, x);
      RevertedByte(m, entries, order[1..], ok, x, c, if a in records && a in accepted then records[a] else now, records);
    }
  }

  lemma RemovedOne(w: World, w': World, id: nat, base: Mem, h: nat, protect: bool)
    requires Books(w, None) && MapOk(w, id, base) && Owns(w, h, id) && w' == RemoveHook(w, h, protect).0
    ensures Books(w', None) && MapOk(w', id, base) && w'.slots == w.slots[h := None]
    ensures Unhooked(w, w', h, Ctx(w, h), protect)
  {
    RemoveEffect(w, h, protect);
    RemoveBooks(w, h, protect);
    UnhookedMapOk(w, w', id, base, h, Ctx(w, h));
  }

  /** Unhooking keeps the accounts. */
  lemma {:induction false} UnhookedAccounted(w: World, id: nat, base: Mem, ids: seq<nat>, protect: set<nat>)
    requires Books(w, None) && MapOk(w, id, base)
    requires forall n :: n in ids ==> Owns(w, n, id)
    requires forall i, j :: 0 <= i < j < |ids| ==> ids[i] != ids[j]
    ensures Books(UnhookAll(w, ids, protect), None) && MapOk(UnhookAll(w, ids, protect), id, base)
    decreases |ids|
  {
    if ids == [] {
    } else {
      var h := ids[0];
      var w' := RemoveHook(w, h, h in protect).0;
      assert h in ids;
      RemovedOne(w, w', id, base, h, h in protect);
      StillOwned(w, w', id, ids);
      UnhookedAccounted(w', id, base, ids[1..], protect);
    }
  }

  lemma {:induction false} UnhookedByte(w: World, id: nat, base: Mem, x: Addr, c: Byte, now: Source, hooks: map<nat, Source>,
                                        ids: seq<nat>, protect: set<nat>)
    requires Books(w, None) && MapOk(w, id, base) && x in base && HooksFollow(w, id, x, c, now, hooks)
    requires forall n :: n in ids ==> Owns(w, n, id)
    requires forall i, j :: 0 <= i < j < |ids| ==> ids[i] != ids[j]
    ensures var r := UnhookAll(w, ids, protect);
            x in r.mem && r.mem[x] == Eval(UnhookSource(now, hooks, ids, protect), c)
    decreases |ids|
  {
    if ids == [] {
    } else {
      var h := ids[0];
      var w' := RemoveHook(w, h, h in protect).0;
      assert h in ids;
      RemovedOne(w, w', id, base, h, h in protect);
      OwnTrampolineAway(w, id, base, x, h);
      UnhookFollows(w, w', id, x, c, now, hooks, h, h in protect);
      StillOwned(w, w', id, ids);
      var now' := if h in hooks && h in protect then hooks[h] else now;
      UnhookedByte(w', id, base, x, c, now', hooks - {h}, ids[1..], protect);
      OthersUnhooked(now', hooks, h, ids[1..], protect);
    }
  }

  /** A patch that is already off does not matter for the rest. */
  lemma {:induction false} OthersUnhooked(now: Source, hooks: map<nat, Source>, h: nat, ids: seq<nat>, protect: set<nat>)
    requires h !in ids
    ensures UnhookSource(now, hooks - {h}, ids, protect) == UnhookSource(now, hooks, ids, protect)
    decreases |ids|
  {
    if ids == [] {
    } else {
      assert ids[0] in ids;
      OthersUnhooked(if ids[0] in hooks && ids[0] in protect then hooks[ids[0]] else now, hooks, h, ids[1..], protect);
    }
  }

  lemma {:induction false} SlotsOnlyVacate(w: World, ids: seq<nat>, protect: set<nat>)
    requires BitmapsFull(w.slab)
    ensures var r := UnhookAll(w, ids, protect);
            && |r.slots| == |w.slots|
            && (forall n :: 0 <= n < |w.slots| ==> r.slots[n] == if n in ids then None else w.slots[n])
    decreases |ids|
  {
    if ids == [] {
    } else {
      SlotsOnlyVacate(RemoveHook(w, ids[0], ids[0] in protect).0, ids[1..], protect);
    }
  }

  lemma NoneOwnedAfter(w: World, id: nat, ids: seq<nat>, protect: set<nat>)
    requires BitmapsFull(w.slab) && ids == Owned(w.slots, id, 0)
    ensures forall x :: !OwnTrampoline(UnhookAll(w, ids, protect), id, x)
  {
    SlotsOnlyVacate(w, ids, protect);
    var r := UnhookAll(w, ids, protect);
    forall n ensures !Owns(r, n, id) {
      if Live(r, n) { assert n !in ids; }
    }
  }

  lemma OwnedAre(w: World, id: nat)
    ensures forall n :: n in Owned(w.slots, id, 0) <==> Owns(w, n, id)
  {
  }

  lemma RevertFollows(s: Session, id: nat, x: Addr, c: Byte, base: Mem, tr: Trail, order: seq<Addr>, ok: set<Addr>, w1: World)
    requires Books(s.world, None) && MapOk(s.world, id, base) && Follows(s, id, x, c, base, tr)
    requires Enumerates(order, s.entries) && w1 == s.world.(mem := Revert(s.world.mem, s.entries, order, ok))
    ensures Books(w1, None) && MapOk(w1, id, base)
    ensures HooksFollow(w1, id, x, c, RevertSource(tr.now, tr.records, order, Accepted(s.world.mem, s.entries, ok)), tr.hooks)
  {
    RevertedByte(s.world.mem, s.entries, order, ok, x, c, tr.now, tr.records);
    BooksIgnoreBytes(s.world, w1.mem);
    SameKeysMapOk(s.world, w1.mem, id, base);
    SameSlotsFollow(s.world, w1, id, x, c, tr.now,
                    RevertSource(tr.now, tr.records, order, Accepted(s.world.mem, s.entries, ok)), tr.hooks);
  }

  /** After any teardown, a game byte comes from where its trail says. */
  lemma TornByte(s: Session, id: nat, x: Addr, c: Byte, base: Mem, tr: Trail, order: seq<Addr>, ok: set<Addr>, protect: set<nat>)
    requires Books(s.world, None) && MapOk(s.world, id, base) && Follows(s, id, x, c, base, tr)
    requires Enumerates(order, s.entries)
    ensures var w := Teardown(s, id, order, ok, protect);
            x in w.mem && w.mem[x] == Eval(TornSource(s, id, tr, order, ok, protect), c)
  {
    var w1 := s.world.(mem := Revert(s.world.mem, s.entries, order, ok));
    RevertFollows(s, id, x, c, base, tr, order, ok, w1);
    OwnedAre(w1, id);
    UnhookedByte(w1, id, base, x, c, RevertSource(tr.now, tr.records, order, Accepted(s.world.mem, s.entries, ok)),
                 tr.hooks, Owned(w1.slots, id, 0), protect);
  }

  /** After any teardown, game memory has the addresses it had at spawn. */
  lemma TornKeys(s: Session, id: nat, base: Mem, order: seq<Addr>, ok: set<Addr>, protect: set<nat>)
    requires Books(s.world, None) && MapOk(s.world, id, base) && Enumerates(order, s.entries)
    ensures GameMemory(Teardown(s, id, order, ok, protect)).Keys == base.Keys
  {
    var w1 := s.world.(mem := Revert(s.world.mem, s.entries, order, ok));
    BooksIgnoreBytes(s.world, w1.mem);
    SameKeysMapOk(s.world, w1.mem, id, base);
    var ids := Owned(w1.slots, id, 0);
    OwnedAre(w1, id);
    UnhookedAccounted(w1, id, base, ids, protect);
    NoneOwnedAfter(w1, id, ids, protect);
  }

  // ----- what a reload leaves, exactly -----

  ghost predicate LifePossible(w: World, id: nat, life: Life) {
    && RunPossible(Spawned(w), id, life.steps)
    && var s := RunAfter(Spawned(w), id, life.steps);
       BitmapsFull(s.world.slab) && Enumerates(life.order, s.entries)
  }

  /** The world after the script ran and was torn down, cleanly or not. */
  ghost function Torn(w: World, id: nat, life: Life): World
    requires LifePossible(w, id, life)
  {
    Teardown(RunAfter(Spawned(w), id, life.steps), id, life.order, life.ok, life.protect)
  }

  /** The game memory found at spawn with the script's permanent writes. */
  ghost function Wanted(w: World, id: nat, life: Life): Mem
    requires LifePossible(w, id, life)
  {
    TrackRun(Spawned(w), id, Fresh(w), life.steps).base
  }

  /** Where the byte comes from in the end, and where it should come from. */
  ghost function Outcome(w: World, id: nat, life: Life, x: Addr): (Source, Source)
    requires LifePossible(w, id, life)
  {
    var s, tr := RunAfter(Spawned(w), id, life.steps), TrailRun(Spawned(w), id, x, UNTOUCHED, life.steps);
    (TornSource(s, id, tr, life.order, life.ok, life.protect), tr.want)
  }

  lemma SpawnFollows(w: World, id: nat, x: Addr)
    requires Books(w, None) && NoHooksOf(w, id) && x in GameMemory(w)
    ensures Follows(Spawned(w), id, x, w.mem[x], GameMemory(w), UNTOUCHED)
  {
  }

  /** One byte of a script's life: what is there in the end, and what should be. */
  lemma LifeByte(w: World, id: nat, life: Life, x: Addr)
    requires Books(w, None) && NoHooksOf(w, id) && LifePossible(w, id, life) && OwnRemovals(Spawned(w), id, life.steps)
    requires x in GameMemory(w)
    ensures var (end, want) := Outcome(w, id, life, x);
            && x in Torn(w, id, life).mem && Torn(w, id, life).mem[x] == Eval(end, w.mem[x])
            && x in Wanted(w, id, life) && Wanted(w, id, life)[x] == Eval(want, w.mem[x])
  {
    SpawnRestorable(w, id);
    SpawnFollows(w, id, x);
    RunAccounted(Spawned(w), id, Fresh(w), life.steps);
    RunFollows(Spawned(w), id, x, w.mem[x], Fresh(w), UNTOUCHED, life.steps);
    TornByte(RunAfter(Spawned(w), id, life.steps), id, x, w.mem[x], Wanted(w, id, life),
             TrailRun(Spawned(w), id, x, UNTOUCHED, life.steps), life.order, life.ok, life.protect);
  }

  lemma LifeKeys(w: World, id: nat, life: Life)
    requires Books(w, None) && NoHooksOf(w, id) && LifePossible(w, id, life) && OwnRemovals(Spawned(w), id, life.steps)
    ensures GameMemory(Torn(w, id, life)).Keys == GameMemory(w).Keys == Wanted(w, id, life).Keys
  {
    SpawnRestorable(w, id);
    RunAccounted(Spawned(w), id, Fresh(w), life.steps);
    TornKeys(RunAfter(Spawned(w), id, life.steps), id, Wanted(w, id, life), life.order, life.ok, life.protect);
  }

  // ----- foreign hooks -----

  /** The address is not game memory, and no teardown brings it back. */
  ghost predicate Gone(w: World, id: nat, x: Addr) {
    x !in w.mem || InSlab(w.slab, x) || OwnTrampoline(w, id, x)
  }

  lemma RemovalGone(w: World, w': World, id: nat, x: Addr, h: nat)
    requires Books(w, None) && Live(w, h) && Released(w, w', h, Ctx(w, h)) && Gone(w, id, x)
    ensures Gone(w', id, x)
  {
    if x in w'.mem && OwnTrampoline(w, id, x) {
      var n :| Owns(w, n, id) && Within(x, Ctx(w, n).patch.trampoline, TrampolineSize(Ctx(w, n).patch));
      assert Owns(w', n, id);
    }
  }

  lemma InstallGone(w: World, id: nat, x: Addr, methodPtr: nat, handler: nat, a: InstallAnswers)
    requires Books(w, None) && InstallAnswersOk(w, a) && Gone(w, id, x)
    ensures Gone(InstallHook(w, methodPtr, handler, id, a).0, id, x)
  {
    var (w', r) := InstallHook(w, methodPtr, handler, id, a);
    InstallEffect(w, methodPtr, handler, id, a);
    match r
    case Err(_) => SameOwnership(w, w', id);
    case Ok(n) => OwnershipGrows(w, w', id, n, w'.slots[n].value);
  }

  lemma StepGone(s: Session, id: nat, x: Addr, step: ScriptStep)
    requires Books(s.world, None) && StepPossible(s.world, step) && Gone(s.world, id, x)
    ensures Gone(StepAfter(s, id, step).world, id, x)
  {
    match step
    case InstallStep(methodPtr, handler, answers) => InstallGone(s.world, id, x, methodPtr, handler, answers);
    case RemoveStep(h, protect) =>
      if Live(s.world, h) {
        RemoveEffect(s.world, h, protect);
        RemovalGone(s.world, RemoveHook(s.world, h, protect).0, id, x, h);
      }
    case _ => SameOwnership(s.world, StepAfter(s, id, step).world, id);
  }

  lemma {:induction false} RunGone(s: Session, id: nat, x: Addr, steps: seq<ScriptStep>)
    requires Books(s.world, None) && RunPossible(s, id, steps) && Gone(s.world, id, x)
    ensures Gone(RunAfter(s, id, steps).world, id, x)
    decreases |steps|
  {
    if steps == [] {
    } else {
      StepGone(s, id, x, steps[0]);
      StepAccounted(s, id, map[], steps[0]);
      RunGone(StepAfter(s, id, steps[0]), id, x, steps[1..]);
    }
  }

  lemma {:induction false} UnhookGone(w: World, id: nat, x: Addr, ids: seq<nat>, protect: set<nat>)
    requires Books(w, None) && Gone(w, id, x)
    ensures Gone(UnhookAll(w, ids, protect), id, x) && Books(UnhookAll(w, ids, protect), None)
    decreases |ids|
  {
    if ids == [] {
    } else {
      var h := ids[0];
      RemoveBooks(w, h, h in protect);
      if Live(w, h) {
        RemoveEffect(w, h, h in protect);
        RemovalGone(w, RemoveHook(w, h, h in protect).0, id, x, h);
      }
      UnhookGone(RemoveHook(w, h, h in protect).0, id, x, ids[1..], protect);
    }
  }

  /** Removing a hook of somebody else frees a trampoline that was there at spawn. */
  lemma ForeignTrampoline(w: World, id: nat, base: Mem, h: nat, protect: bool) returns (x: Addr)
    requires Books(w, None) && MapOk(w, id, base) && Live(w, h) && !Owns(w, h, id)
    ensures x in base && Gone(RemoveHook(w, h, protect).0, id, x)
  {
    x := Ctx(w, h).patch.trampoline;
    assert BookedSlot(w, h, None);
    forall n | Owns(w, n, id) ensures !Within(x, Ctx(w, n).patch.trampoline, TrampolineSize(Ctx(w, n).patch)) {
      assert BookedApart(w, n, h);
    }
    RemoveEffect(w, h, protect);
  }

  lemma {:induction false} ForeignRemovalGone(s: Session, id: nat, t: Track, steps: seq<ScriptStep>) returns (x: Addr)
    requires Books(s.world, None) && MapOk(s.world, id, t.base) && RunPossible(s, id, steps) && !OwnRemovals(s, id, steps)
    ensures x in t.base && Gone(RunAfter(s, id, steps).world, id, x)
    decreases |steps|
  {
    var s', t' := StepAfter(s, id, steps[0]), TrackAfter(s, t, steps[0]);
    StepAccounted(s, id, t.base, steps[0]);
    if OwnRemoval(s, id, steps[0]) {
      BaseKeys(s, t, steps[0]);
      SameKeysBase(s'.world, id, t.base, t'.base);
      x := ForeignRemovalGone(s', id, t', steps[1..]);
    } else {
      x := ForeignTrampoline(s.world, id, t.base, steps[0].handle, steps[0].protect);
      RunGone(s', id, x, steps[1..]);
    }
  }

  /** A teardown leaves no own trampoline, so what is gone is not game memory. */
  lemma TornGone(s: Session, id: nat, x: Addr, order: seq<Addr>, ok: set<Addr>, protect: set<nat>)
    requires Books(s.world, None) && Gone(s.world, id, x) && Enumerates(order, s.entries)
    ensures x !in GameMemory(Teardown(s, id, order, ok, protect))
  {
    var w1 := s.world.(mem := Revert(s.world.mem, s.entries, order, ok));
    BooksIgnoreBytes(s.world, w1.mem);
    SameOwnership(s.world, w1, id);
    var ids := Owned(w1.slots, id, 0);
    UnhookGone(w1, id, x, ids, protect);
    NoneOwnedAfter(w1, id, ids, protect);
  }

  /**
   Exactly when a reload undoes a run, for the game as it was at spawn and whatever the system
   answered: the script removed no foreign hook, and every game byte comes back to the value
   it should have.
   */
  lemma RestoredExactly(w: World, id: nat, life: Life)
    requires Books(w, None) && NoHooksOf(w, id) && LifePossible(w, id, life)
    ensures GameMemory(Torn(w, id, life)) == Wanted(w, id, life) <==>
            && OwnRemovals(Spawned(w), id, life.steps)
            && forall x :: x in GameMemory(w) ==>
                 Eval(Outcome(w, id, life, x).0, w.mem[x]) == Eval(Outcome(w, id, life, x).1, w.mem[x])
  {
    if OwnRemovals(Spawned(w), id, life.steps) {
      LifeKeys(w, id, life);
      forall x | x in GameMemory(w)
        ensures GameMemory(Torn(w, id, life))[x] == Eval(Outcome(w, id, life, x).0, w.mem[x])
        ensures Wanted(w, id, life)[x] == Eval(Outcome(w, id, life, x).1, w.mem[x])
      {
        LifeByte(w, id, life, x);
      }
    } else {
      SpawnRestorable(w, id);
      RunAccounted(Spawned(w), id, Fresh(w), life.steps);
      var x := ForeignRemovalGone(Spawned(w), id, Fresh(w), life.steps);
      TornGone(RunAfter(Spawned(w), id, life.steps), id, x, life.order, life.ok, life.protect);
      assert x in Wanted(w, id, life);
    }
  }

  // ----- whatever the game's code and data are -----

  predicate SamePlaces(p: Patch, q: Patch) {
    p.target == q.target && p.detour == q.detour && p.trampoline == q.trampoline && |p.original| == |q.original|
  }

  predicate SameHook(c: HookCtx, d: HookCtx) {
    c.methodPtr == d.methodPtr && c.handler == d.handler && c.owner == d.owner && c.thunk == d.thunk &&
    SamePlaces(c.patch, d.patch)
  }

  predicate SameSlot(a: Option<HookCtx>, b: Option<HookCtx>) {
    (a.Some? <==> b.Some?) && (a.Some? ==> SameHook(a.value, b.value))
  }

  /** Two worlds that differ at most in bytes. */
  ghost predicate SameShape(w: World, v: World) {
    && w.mem.Keys == v.mem.Keys && w.slab == v.slab && w.shim == v.shim && |w.slots| == |v.slots|
    && forall n :: 0 <= n < |w.slots| ==> SameSlot(w.slots[n], v.slots[n])
  }

  ghost predicate SameSession(s: Session, r: Session) {
    SameShape(s.world, r.world) && Widths(s.entries) == Widths(r.entries)
  }

  lemma SameVacant(a: seq<Option<HookCtx>>, b: seq<Option<HookCtx>>)
    requires |a| == |b| && forall n :: 0 <= n < |a| ==> SameSlot(a[n], b[n])
    ensures FirstVacant(a) == FirstVacant(b)
  {
    assert forall n :: 0 <= n < |a| ==> (a[n].Some? <==> b[n].Some?);
  }

  lemma SameMapped(m: Mem, n: Mem)
    requires m.Keys == n.Keys
    ensures forall a: Addr, len: nat :: Mapped(m, a, len) <==> Mapped(n, a, len)
    ensures forall a: Addr, len: nat :: Unmapped(m, a, len) <==> Unmapped(n, a, len)
  {
    assert forall x: Addr :: x in m <==> x in n;
  }

  lemma SamePossible(w: World, v: World, step: ScriptStep)
    requires SameShape(w, v) && StepPossible(w, step)
    ensures StepPossible(v, step)
  {
    SameMapped(w.mem, v.mem);
  }

  lemma SameEmit(slab: Slab, m: Mem, n: Mem, id: nat, shim: nat, page: Option<Addr>)
    requires m.Keys == n.Keys && BitmapsFull(slab) && PageAnswerOk(m, page) && PageAnswerOk(n, page)
    ensures var e, f := Emit(slab, m, id, shim, page), Emit(slab, n, id, shim, page);
            e.slab == f.slab && e.thunk == f.thunk && e.mem.Keys == f.mem.Keys
  {
  }

  lemma SameFree(slab: Slab, m: Mem, n: Mem, a: Addr)
    requires m.Keys == n.Keys && BitmapsFull(slab)
    ensures Free(slab, m, a).0 == Free(slab, n, a).0 && Free(slab, m, a).1.Keys == Free(slab, n, a).1.Keys
  {
  }

  lemma SamePatch(m: Mem, n: Mem, target: Addr, detour: Addr, a: PatchAnswers)
    requires m.Keys == n.Keys && AnswersOk(m, target, a) && AnswersOk(n, target, a)
    ensures var (m', p) := InlineDetour.Install(m, target, detour, a);
            var (n', q) := InlineDetour.Install(n, target, detour, a);
            m'.Keys == n'.Keys && (p.Some? <==> q.Some?) && (p.Some? ==> SamePlaces(p.value, q.value))
  {
  }

  lemma SameGivenBack(w: World, v: World, slab: Slab, m: Mem, n: Mem, thunk: Addr)
    requires SameShape(w, v) && m.Keys == n.Keys && BitmapsFull(slab)
    ensures SameShape(w.(mem := Free(slab, m, thunk).1, slab := Free(slab, m, thunk).0),
                      v.(mem := Free(slab, n, thunk).1, slab := Free(slab, n, thunk).0))
  {
    SameFree(slab, m, n, thunk);
  }

  lemma SamePublished(w: World, v: World, m: Mem, n: Mem, slab: Slab, id: nat, c: HookCtx, d: HookCtx)
    requires SameShape(w, v) && m.Keys == n.Keys && id < |w.slots| && SameHook(c, d)
    ensures SameShape(World(m, w.slots[id := Some(c)], slab, w.shim), World(n, v.slots[id := Some(d)], slab, v.shim))
  {
  }

  /** The part of an installation after its thunk has been emitted. */
  lemma SamePatched(w: World, v: World, e: Emitted, f: Emitted, id: nat, a: InstallAnswers, c: HookCtx)
    requires SameShape(w, v) && id < |w.slots| && e.slab == f.slab && e.mem.Keys == f.mem.Keys && BitmapsFull(e.slab)
    requires a.entry.Some? && AnswersOk(e.mem, a.entry.value, a.patch) && AnswersOk(f.mem, a.entry.value, a.patch)
    ensures var (m, p) := InlineDetour.Install(e.mem, a.entry.value, c.thunk, a.patch);
            var (n, q) := InlineDetour.Install(f.mem, a.entry.value, c.thunk, a.patch);
            && (p.Some? <==> q.Some?)
            && SameShape(w.(mem := Free(e.slab, m, c.thunk).1, slab := Free(e.slab, m, c.thunk).0),
                         v.(mem := Free(e.slab, n, c.thunk).1, slab := Free(e.slab, n, c.thunk).0))
            && (p.Some? ==> SameShape(World(m, w.slots[id := Some(c.(patch := p.value))], e.slab, w.shim),
                                      World(n, v.slots[id := Some(c.(patch := q.value))], e.slab, v.shim)))
  {
    var (m, p) := InlineDetour.Install(e.mem, a.entry.value, c.thunk, a.patch);
    var (n, q) := InlineDetour.Install(f.mem, a.entry.value, c.thunk, a.patch);
    SamePatch(e.mem, f.mem, a.entry.value, c.thunk, a.patch);
    SameGivenBack(w, v, e.slab, m, n, c.thunk);
    if p.Some? { SamePublished(w, v, m, n, e.slab, id, c.(patch := p.value), c.(patch := q.value)); }
  }

  lemma SameInstall(w: World, v: World, methodPtr: nat, handler: nat, owner: nat, a: InstallAnswers)
    requires SameShape(w, v) && BitmapsFull(w.slab) && InstallAnswersOk(w, a) && InstallAnswersOk(v, a)
    ensures var (w', r) := InstallHook(w, methodPtr, handler, owner, a);
            var (v', q) := InstallHook(v, methodPtr, handler, owner, a);
            SameShape(w', v') && r == q
  {
    SameVacant(w.slots, v.slots);
    var id := FirstVacant(w.slots);
    if a.signature && id < |w.slots| {
      var e, f := Emit(w.slab, w.mem, id, w.shim, a.page), Emit(v.slab, v.mem, id, v.shim, a.page);
      SameEmit(w.slab, w.mem, v.mem, id, w.shim, a.page);
      if e.thunk.Some? {
        var t := e.thunk.value;
        SameGivenBack(w, v, e.slab, e.mem, f.mem, t);
        if a.ready && a.entry.Some? && a.entry.value != 0 {
          AnswersOkAfterEmit(w, id, a);
          AnswersOkAfterEmit(v, id, a);
          SamePatched(w, v, e, f, id, a, HookCtx(methodPtr, handler, owner, t, Patch(0, 0, 0, [])));
        }
      }
    }
  }

  lemma SameRemove(w: World, v: World, h: nat, protect: bool)
    requires SameShape(w, v) && BitmapsFull(w.slab)
    ensures SameShape(RemoveHook(w, h, protect).0, RemoveHook(v, h, protect).0)
  {
    if h < |w.slots| { assert SameSlot(w.slots[h], v.slots[h]); }
    if Live(w, h) {
      var m, n := Uninstall(w.mem, Ctx(w, h).patch, protect), Uninstall(v.mem, Ctx(v, h).patch, protect);
      assert m.Keys == n.Keys;
      SameFree(w.slab, m, n, Ctx(w, h).thunk);
    }
  }

  predicate Unconditional(steps: seq<ScriptStep>) { forall i :: 0 <= i < |steps| ==> !steps[i].WriteIf? }

  lemma SameTouch(s: Session, r: Session, addr: Addr, data: seq<Byte>, readable: bool, writable: bool)
    requires SameSession(s, r)
    ensures SameSession(
              Session(s.world.(mem := RawWrite(s.world.mem, addr, data, writable)),
                      Touched(s.entries, s.world.mem, addr, |data|, readable)),
              Session(r.world.(mem := RawWrite(r.world.mem, addr, data, writable)),
                      Touched(r.entries, r.world.mem, addr, |data|, readable)))
  {
    SameTouched(s.entries, r.entries, s.world.mem, r.world.mem, addr, |data|, readable);
    SameMapped(s.world.mem, r.world.mem);
  }

  lemma SameTouched(d: Entries, e: Entries, m: Mem, n: Mem, addr: Addr, width: nat, readable: bool)
    requires Widths(d) == Widths(e) && m.Keys == n.Keys
    ensures Widths(Touched(d, m, addr, width, readable)) == Widths(Touched(e, n, addr, width, readable))
  {
    SameMapped(m, n);
    assert d.Keys == Widths(d).Keys && e.Keys == Widths(e).Keys;
  }

  lemma SameWriteStep(s: Session, r: Session, id: nat, x: Addr, tr: Trail, step: ScriptStep)
    requires SameSession(s, r) && StepPossible(s.world, step) && StepPossible(r.world, step) && step.Write?
    ensures SameSession(StepAfter(s, id, step), StepAfter(r, id, step))
    ensures TrailAfter(s, id, x, tr, step) == TrailAfter(r, id, x, tr, step)
  {
    var data := TypedBytes(step.ty, step.input);
    if data.Some? {
      SameTouch(s, r, step.addr, data.value, step.readable, step.writable);
      SameMapped(s.world.mem, r.world.mem);
    }
  }

  lemma SamePermanentStep(s: Session, r: Session, id: nat, x: Addr, tr: Trail, step: ScriptStep)
    requires SameSession(s, r) && StepPossible(s.world, step) && StepPossible(r.world, step) && step.WritePermanent?
    ensures SameSession(StepAfter(s, id, step), StepAfter(r, id, step))
    ensures TrailAfter(s, id, x, tr, step) == TrailAfter(r, id, x, tr, step)
  {
    SameMapped(s.world.mem, r.world.mem);
  }

  lemma SameHookTrail(w: World, v: World, x: Addr, tr: Trail, n: nat)
    requires SameShape(w, v) && Live(w, n) && Live(v, n)
    requires JUMP_BYTES <= |Ctx(w, n).patch.original| && JUMP_BYTES <= |Ctx(v, n).patch.original|
    ensures HookTrail(w, x, tr, n) == HookTrail(v, x, tr, n)
  {
    assert SameSlot(w.slots[n], v.slots[n]);
  }

  lemma SameInstallStep(s: Session, r: Session, id: nat, x: Addr, tr: Trail, methodPtr: nat, handler: nat, a: InstallAnswers)
    requires SameSession(s, r) && BitmapsFull(s.world.slab) && InstallAnswersOk(s.world, a) && InstallAnswersOk(r.world, a)
    ensures SameShape(InstallHook(s.world, methodPtr, handler, id, a).0, InstallHook(r.world, methodPtr, handler, id, a).0)
    ensures var step := InstallStep(methodPtr, handler, a);
            TrailAfter(s, id, x, tr, step) == TrailAfter(r, id, x, tr, step)
  {
    var (w', q) := InstallHook(s.world, methodPtr, handler, id, a);
    var (v', q') := InstallHook(r.world, methodPtr, handler, id, a);
    SameInstall(s.world, r.world, methodPtr, handler, id, a);
    InstallCode(s.world, methodPtr, handler, id, a);
    InstallCode(r.world, methodPtr, handler, id, a);
    if q.Ok? { SameHookTrail(w', v', x, tr, q.value); }
  }

  /** Sessions that differ at most in bytes take a step alike, and its trail is the same. */
  lemma SameStep(s: Session, r: Session, id: nat, x: Addr, tr: Trail, step: ScriptStep)
    requires SameSession(s, r) && StepPossible(s.world, step) && !step.WriteIf?
    ensures StepPossible(r.world, step) && SameSession(StepAfter(s, id, step), StepAfter(r, id, step))
    ensures TrailAfter(s, id, x, tr, step) == TrailAfter(r, id, x, tr, step)
  {
    SamePossible(s.world, r.world, step);
    if step.Write? {
      SameWriteStep(s, r, id, x, tr, step);
    } else if step.WritePermanent? {
      SamePermanentStep(s, r, id, x, tr, step);
    } else if step.InstallStep? {
      SameInstallStep(s, r, id, x, tr, step.methodPtr, step.handler, step.answers);
    } else {
      SameRemove(s.world, r.world, step.handle, step.protect);
    }
  }

  lemma SameOwnRemoval(s: Session, r: Session, id: nat, step: ScriptStep)
    requires SameSession(s, r)
    ensures OwnRemoval(s, id, step) == OwnRemoval(r, id, step)
  {
    if step.RemoveStep? && step.handle < |s.world.slots| {
      assert SameSlot(s.world.slots[step.handle], r.world.slots[step.handle]);
    }
  }

  lemma {:induction false} SameRun(s: Session, r: Session, id: nat, x: Addr, tr: Trail, steps: seq<ScriptStep>)
    requires SameSession(s, r) && RunPossible(s, id, steps) && Unconditional(steps)
    ensures RunPossible(r, id, steps) && SameSession(RunAfter(s, id, steps), RunAfter(r, id, steps))
    ensures OwnRemovals(s, id, steps) == OwnRemovals(r, id, steps)
    ensures TrailRun(s, id, x, tr, steps) == TrailRun(r, id, x, tr, steps)
    decreases |steps|
  {
    if steps == [] {
    } else {
      SameStep(s, r, id, x, tr, steps[0]);
      SameOwnRemoval(s, r, id, steps[0]);
      SameRun(StepAfter(s, id, steps[0]), StepAfter(r, id, steps[0]), id, x, TrailAfter(s, id, x, tr, steps[0]), steps[1..]);
    }
  }

  lemma {:induction false} SameOwned(a: seq<Option<HookCtx>>, b: seq<Option<HookCtx>>, id: nat, from: nat)
    requires |a| == |b| && from <= |a| && forall n :: 0 <= n < |a| ==> SameSlot(a[n], b[n])
    ensures Owned(a, id, from) == Owned(b, id, from)
    decreases |a| - from
  {
    if from == |a| {
    } else {
      assert SameSlot(a[from], b[from]);
      SameOwned(a, b, id, from + 1);
    }
  }

  /** The same hooks and agent memory; the game may hold any code and data at the same addresses. */
  ghost predicate SameGame(w: World, v: World) {
    && v.slots == w.slots && v.slab == w.slab && v.shim == w.shim && v.mem.Keys == w.mem.Keys
    && forall x :: x in w.mem && InSlab(w.slab, x) ==> v.mem[x] == w.mem[x]
  }

  lemma SameAccepted(s: Session, r: Session, ok: set<Addr>)
    requires SameSession(s, r)
    ensures Accepted(s.world.mem, s.entries, ok) == Accepted(r.world.mem, r.entries, ok)
    ensures s.entries.Keys == r.entries.Keys
  {
    SameMapped(s.world.mem, r.world.mem);
    assert s.entries.Keys == Widths(s.entries).Keys && r.entries.Keys == Widths(r.entries).Keys;
    forall a | a in s.entries ensures |s.entries[a]| == |r.entries[a]| {
      assert Widths(s.entries)[a] == Widths(r.entries)[a];
    }
  }

  lemma SameLife(w: World, v: World, id: nat, life: Life, x: Addr)
    requires SameGame(w, v) && LifePossible(w, id, life) && Unconditional(life.steps)
    ensures LifePossible(v, id, life) && Outcome(v, id, life, x) == Outcome(w, id, life, x)
    ensures OwnRemovals(Spawned(w), id, life.steps) == OwnRemovals(Spawned(v), id, life.steps)
  {
    SameRun(Spawned(w), Spawned(v), id, x, UNTOUCHED, life.steps);
    var s, r := RunAfter(Spawned(w), id, life.steps), RunAfter(Spawned(v), id, life.steps);
    SameAccepted(s, r, life.ok);
    SameOwned(s.world.slots, r.world.slots, id, 0);
  }

  lemma SameBooks(w: World, v: World, id: nat)
    requires SameGame(w, v) && Books(w, None) && NoHooksOf(w, id)
    ensures Books(v, None) && NoHooksOf(v, id) && GameMemory(v).Keys == GameMemory(w).Keys
  {
    BooksIgnoreBytes(w, v.mem);
    assert v == w.(mem := v.mem);
    forall n | Live(v, n) ensures Ctx(v, n).owner != id { assert Live(w, n); }
    forall x ensures x in GameMemory(v) <==> x in GameMemory(w) {
      assert x in v.mem.Keys <==> x in w.mem.Keys;
    }
    assert forall x :: x in GameMemory(v).Keys <==> x in GameMemory(w).Keys;
  }

  /** A game that tells the two sources apart at `x`. */
  lemma TellApart(w: World, x: Addr, a: Source, b: Source) returns (v: World)
    requires x in GameMemory(w) && a != b
    ensures SameGame(w, v) && x in v.mem && Eval(a, v.mem[x]) != Eval(b, v.mem[x])
  {
    var c: Byte := ((if a.Fixed? then a.b else b.b) + 1) % 256;
    v := w.(mem := w.mem[x := c]);
    assert v.mem.Keys == w.mem.Keys;
  }

  /** The reload undoes the run in this game. */
  ghost predicate Undone(w: World, id: nat, life: Life) {
    LifePossible(w, id, life) && GameMemory(Torn(w, id, life)) == Wanted(w, id, life)
  }

  /**
   Exactly which runs are undone whatever code and data the game holds: those that remove no
   foreign hook and in which every game byte comes, in the end, from where it should.
   */
  lemma UndoneExactlyAsAnswered(w: World, id: nat, life: Life)
    requires Books(w, None) && NoHooksOf(w, id) && LifePossible(w, id, life) && Unconditional(life.steps)
    ensures (forall v :: SameGame(w, v) ==> Undone(v, id, life)) <==>
            && OwnRemovals(Spawned(w), id, life.steps)
            && forall x :: x in GameMemory(w) ==> Outcome(w, id, life, x).0 == Outcome(w, id, life, x).1
  {
    if OwnRemovals(Spawned(w), id, life.steps) {
      if x :| x in GameMemory(w) && Outcome(w, id, life, x).0 != Outcome(w, id, life, x).1 {
        var v := TellApart(w, x, Outcome(w, id, life, x).0, Outcome(w, id, life, x).1);
        SameLife(w, v, id, life, x);
        SameBooks(w, v, id);
        RestoredExactly(v, id, life);
        assert !Undone(v, id, life);
      } else {
        forall v | SameGame(w, v) ensures Undone(v, id, life) {
          SameBooks(w, v, id);
          SameLife(w, v, id, life, 0);
          forall x | x in GameMemory(v) ensures Outcome(v, id, life, x) == Outcome(w, id, life, x) && x in GameMemory(w) {
            SameLife(w, v, id, life, x);
          }
          RestoredExactly(v, id, life);
        }
      }
    } else {
      RestoredExactly(w, id, life);
      assert SameGame(w, w) && !Undone(w, id, life);
    }
  }

  // ----- the highest slot has the last word -----

  /** Where the byte comes from after the slot `k` has been looked at. */
  function UnhookSlot(now: Source, hooks: map<nat, Source>, slot: Option<HookCtx>, id: nat, k: nat, protect: set<nat>): Source {
    if slot.Some? && slot.value.owner == id && k in hooks && k in protect then hooks[k] else now
  }

  /** Unhooking goes slot by slot. */
  lemma OwnedStep(now: Source, hooks: map<nat, Source>, slots: seq<Option<HookCtx>>, id: nat, from: nat, protect: set<nat>)
    requires from < |slots|
    ensures UnhookSource(now, hooks, Owned(slots, id, from), protect) ==
            UnhookSource(UnhookSlot(now, hooks, slots[from], id, from, protect), hooks, Owned(slots, id, from + 1), protect)
  {
    var owned := slots[from].Some? && slots[from].value.owner == id;
    if owned { assert ([from] + Owned(slots, id, from + 1))[1..] == Owned(slots, id, from + 1); }
  }

  lemma {:induction false} TopHook(now: Source, hooks: map<nat, Source>, slots: seq<Option<HookCtx>>, id: nat, from: nat,
                                   protect: set<nat>, n: nat)
    requires from <= n < |slots| && slots[n].Some? && slots[n].value.owner == id && n in hooks && n in protect
    requires forall m :: n < m < |slots| && m in hooks ==> m !in protect
    ensures UnhookSource(now, hooks, Owned(slots, id, from), protect) == hooks[n]
    decreases n - from
  {
    OwnedStep(now, hooks, slots, id, from, protect);
    if from == n {
      NoHook(hooks[n], hooks, slots, id, n + 1, protect);
    } else {
      TopHook(UnhookSlot(now, hooks, slots[from], id, from, protect), hooks, slots, id, from + 1, protect, n);
    }
  }

  lemma {:induction false} NoHook(now: Source, hooks: map<nat, Source>, slots: seq<Option<HookCtx>>, id: nat, from: nat,
                                  protect: set<nat>)
    requires from <= |slots| && forall m :: from <= m < |slots| && m in hooks ==> m !in protect
    ensures UnhookSource(now, hooks, Owned(slots, id, from), protect) == now
    decreases |slots| - from
  {
    if from == |slots| {
    } else {
      OwnedStep(now, hooks, slots, id, from, protect);
      NoHook(now, hooks, slots, id, from + 1, protect);
    }
  }

  /** The bytes and copies a session holds of one address, as they are. */
  ghost function Actual(s: Session, id: nat, x: Addr, base: Mem): Trail
    requires x in s.world.mem && x in base
  {
    Trail(Fixed(s.world.mem[x]), Fixed(base[x]),
          map a | a in s.entries && Covers(s.entries, a, x) :: Fixed(s.entries[a][x - a]),
          map n: nat | n < |s.world.slots| && Owns(s.world, n, id) && Under(s.world, n, x) ::
            Fixed(Copy(s.world, n, x)))
  }

  /**
   Hooks are removed in slot order, so a byte under own prologues ends up as what the highest
   own slot over it recorded when it was hooked, whatever happened before.
   */
  lemma HighestSlotWins(s: Session, id: nat, base: Mem, x: Addr, n: nat, order: seq<Addr>, ok: set<Addr>, protect: set<nat>)
    requires Books(s.world, None) && MapOk(s.world, id, base) && x in base && Enumerates(order, s.entries)
    requires Owns(s.world, n, id) && Under(s.world, n, x) && n in protect
    requires forall m: nat :: m > n && Owns(s.world, m, id) && Under(s.world, m, x) ==> m !in protect
    ensures var w := Teardown(s, id, order, ok, protect);
            x in w.mem && w.mem[x] == Copy(s.world, n, x)
  {
    var tr := Actual(s, id, x, base);
    ActualFollows(s, id, x, base);
    ActualHooks(s, id, x, base, n);
    TornByte(s, id, x, 0, base, tr, order, ok, protect);
    TopSource(s, id, tr, order, ok, protect, n);
  }

  lemma ActualHooks(s: Session, id: nat, x: Addr, base: Mem, n: nat)
    requires x in s.world.mem && x in base && Owns(s.world, n, id) && Under(s.world, n, x)
    ensures var tr := Actual(s, id, x, base);
            && n in tr.hooks && tr.hooks[n] == Fixed(Copy(s.world, n, x))
            && forall m: nat :: m in tr.hooks ==> Owns(s.world, m, id) && Under(s.world, m, x)
  {
  }

  lemma ActualFollows(s: Session, id: nat, x: Addr, base: Mem)
    requires x in s.world.mem && x in base
    ensures Follows(s, id, x, 0, base, Actual(s, id, x, base))
  {
  }

  lemma TopSource(s: Session, id: nat, tr: Trail, order: seq<Addr>, ok: set<Addr>, protect: set<nat>, n: nat)
    requires Owns(s.world, n, id) && n in tr.hooks && n in protect
    requires forall m: nat :: m > n && m in tr.hooks ==> m !in protect
    ensures TornSource(s, id, tr, order, ok, protect) == tr.hooks[n]
  {
    TopHook(RevertSource(tr.now, tr.records, order, Accepted(s.world.mem, s.entries, ok)), tr.hooks, s.world.slots, id, 0,
            protect, n);
  }

  /**
   Of two hooks over a byte, the first having recorded what the byte should be and the later
   something else, the byte comes back exactly if the later one sits in the lower slot.
   */
  lemma LaterMustSitLower(s: Session, id: nat, base: Mem, x: Addr, first: nat, later: nat,
                          order: seq<Addr>, ok: set<Addr>, protect: set<nat>)
    requires Books(s.world, None) && MapOk(s.world, id, base) && x in base && Enumerates(order, s.entries)
    requires Owns(s.world, first, id) && Under(s.world, first, x) && first in protect
    requires Owns(s.world, later, id) && Under(s.world, later, x) && later in protect
    requires forall m: nat :: Owns(s.world, m, id) && Under(s.world, m, x) ==> m == first || m == later
    requires Copy(s.world, first, x) == base[x] && Copy(s.world, later, x) != base[x]
    ensures var w := Teardown(s, id, order, ok, protect);
            x in w.mem && (w.mem[x] == base[x] <==> later < first)
  {
    if later < first {
      HigherWins(s, id, base, x, first, later, order, ok, protect);
    } else {
      HigherWins(s, id, base, x, later, first, order, ok, protect);
    }
  }

  lemma HigherWins(s: Session, id: nat, base: Mem, x: Addr, top: nat, other: nat,
                   order: seq<Addr>, ok: set<Addr>, protect: set<nat>)
    requires Books(s.world, None) && MapOk(s.world, id, base) && x in base && Enumerates(order, s.entries)
    requires Owns(s.world, top, id) && Under(s.world, top, x) && top in protect && other <= top
    requires forall m: nat :: Owns(s.world, m, id) && Under(s.world, m, x) ==> m == top || m == other
    ensures var w := Teardown(s, id, order, ok, protect);
            x in w.mem && w.mem[x] == Copy(s.world, top, x)
  {
    HighestSlotWins(s, id, base, x, top, order, ok, protect);
  }

  // ----- scripts that only hook -----

  predicate InstallsOnly(steps: seq<ScriptStep>) { forall i :: 0 <= i < |steps| ==> steps[i].InstallStep? }

  /** Without removals later hooks sit in higher slots, and only the first over a byte recorded the game's. */
  ghost predicate Stacked(s: Session, id: nat, x: Addr, tr: Trail) {
    && s.entries == map[] && tr.records == map[] && tr.want.Original?
    && (forall n :: n in tr.hooks <==> Owns(s.world, n, id) && Under(s.world, n, x))
    && (forall n: nat, m: nat :: Owns(s.world, n, id) && m < n ==> Live(s.world, m))
    && (tr.now.Original? <==> tr.hooks == map[])
    && LowestIsOriginal(tr.hooks)
  }

  predicate LowestIsOriginal(hooks: map<nat, Source>) {
    forall n :: n in hooks ==> (hooks[n].Original? <==> forall m :: m in hooks ==> n <= m)
  }

  lemma LaterIsFixed(hooks: map<nat, Source>, k: nat, now: Source)
    requires LowestIsOriginal(hooks) && (now.Original? <==> hooks == map[]) && forall n :: n in hooks ==> n < k
    ensures LowestIsOriginal(hooks[k := now])
  {
    var later := hooks[k := now];
    assert forall m :: m in later <==> m in hooks || m == k;
    assert hooks == map[] || exists m :: m in hooks;
    forall n | n in later ensures later[n].Original? <==> forall m :: m in later ==> n <= m {
      if n != k { assert hooks[n].Original? <==> forall m :: m in hooks ==> n <= m; }
    }
  }

  /** What an installation does to the slots: nothing, or the lowest vacant one gets an own hook. */
  lemma InstallSlots(w: World, methodPtr: nat, handler: nat, owner: nat, a: InstallAnswers)
    requires BitmapsFull(w.slab) && InstallAnswersOk(w, a)
    ensures var (w', r) := InstallHook(w, methodPtr, handler, owner, a);
            match r
            case Err(_) => w'.slots == w.slots
            case Ok(k) =>
              && k == FirstVacant(w.slots) && k < |w.slots| == |w'.slots| && w'.slots[k].Some?
              && w'.slots[k].value.owner == owner && w'.slots == w.slots[k := w'.slots[k]]
  {
  }

  lemma StackedHook(s: Session, w': World, id: nat, x: Addr, tr: Trail, k: nat, h: HookCtx, code: seq<Byte>)
    requires Stacked(s, id, x, tr) && k == FirstVacant(s.world.slots) && k < |s.world.slots|
    requires w'.slots == s.world.slots[k := Some(h)] && h.owner == id && |code| == |h.patch.original|
    ensures Stacked(Session(w', s.entries), id, x, PatchTrail(x, tr, k, h.patch, code))
  {
    assert forall n :: n != k ==> (Owns(w', n, id) && Under(w', n, x) <==> Owns(s.world, n, id) && Under(s.world, n, x));
    assert forall n: nat :: Owns(s.world, n, id) && k < n ==> Live(s.world, k);
    assert Owns(w', k, id) && k !in tr.hooks;
    forall n: nat, m: nat | Owns(w', n, id) && m < n ensures Live(w', m) {
      assert n == k ==> Live(s.world, m);
      assert n != k ==> Owns(s.world, n, id);
    }
    LaterIsFixed(tr.hooks, k, tr.now);
    assert Within(x, h.patch.target, |code|) ==> k in PatchTrail(x, tr, k, h.patch, code).hooks;
  }

  lemma {:induction false} RunStacked(s: Session, id: nat, x: Addr, tr: Trail, steps: seq<ScriptStep>)
    requires RunPossible(s, id, steps) && InstallsOnly(steps) && Stacked(s, id, x, tr)
    ensures Stacked(RunAfter(s, id, steps), id, x, TrailRun(s, id, x, tr, steps)) && OwnRemovals(s, id, steps)
    decreases |steps|
  {
    if steps == [] {
    } else {
      var step := steps[0];
      var (w', r) := InstallHook(s.world, step.methodPtr, step.handler, id, step.answers);
      InstallSlots(s.world, step.methodPtr, step.handler, id, step.answers);
      InstallCode(s.world, step.methodPtr, step.handler, id, step.answers);
      if r.Err? {
        SameStacked(s, w', id, x, tr);
      } else {
        var h := w'.slots[r.value].value;
        StackedHook(s, w', id, x, tr, r.value, h, PatchCode(h.patch.detour, |h.patch.original|));
      }
      RunStacked(StepAfter(s, id, step), id, x, TrailAfter(s, id, x, tr, step), steps[1..]);
    }
  }

  lemma SameStacked(s: Session, w': World, id: nat, x: Addr, tr: Trail)
    requires Stacked(s, id, x, tr) && w'.slots == s.world.slots
    ensures Stacked(Session(w', s.entries), id, x, tr)
  {
    assert forall n :: Owns(w', n, id) && Under(w', n, x) <==> Owns(s.world, n, id) && Under(s.world, n, x);
    forall n: nat, m: nat | Owns(w', n, id) && m < n ensures Live(w', m) {
      assert Owns(s.world, n, id) && Live(s.world, m);
    }
  }

  lemma {:induction false} Highest(s: set<nat>) returns (top: nat)
    requires s != {}
    ensures top in s && forall n :: n in s ==> n <= top
  {
    var n :| n in s;
    if s == {n} {
      top := n;
    } else {
      assert s - {n} != {} && forall m :: m in s ==> m == n || m in s - {n};
      top := Highest(s - {n});
      if top < n { top := n; }
    }
  }

  lemma {:induction false} NoRecord(now: Source, order: seq<Addr>, accepted: set<Addr>)
    ensures RevertSource(now, map[], order, accepted) == now
    decreases |order|
  {
    if order == [] {
    } else {
      NoRecord(now, order[1..], accepted);
    }
  }

  /** The byte comes back whatever it is exactly when no two hooks of the script are over it. */
  lemma StackedOutcome(s: Session, id: nat, x: Addr, tr: Trail, order: seq<Addr>, ok: set<Addr>, protect: set<nat>)
    requires Stacked(s, id, x, tr) && Enumerates(order, s.entries)
    requires forall n: nat :: Owns(s.world, n, id) ==> n in protect
    ensures TornSource(s, id, tr, order, ok, protect).Original? <==>
            forall n, m :: n in tr.hooks && m in tr.hooks ==> n == m
  {
    NoRecord(tr.now, order, Accepted(s.world.mem, s.entries, ok));
    if tr.hooks == map[] {
      NoHook(tr.now, tr.hooks, s.world.slots, id, 0, protect);
    } else {
      assert tr.hooks.Keys != {} by { var n :| n in tr.hooks; }
      var top := Highest(tr.hooks.Keys);
      TopSource(s, id, tr, order, ok, protect, top);
    }
  }

  ghost predicate AtMostOneOver(w: World, id: nat, x: Addr) {
    forall n, m :: Owns(w, n, id) && Under(w, n, x) && Owns(w, m, id) && Under(w, m, x) ==> n == m
  }

  /** No game byte lies under two hooks of the script. */
  ghost predicate ProloguesApart(game: Mem, w: World, id: nat) {
    forall x :: x in game ==> AtMostOneOver(w, id, x)
  }

  lemma InstallsByte(w: World, id: nat, life: Life, x: Addr)
    requires NoHooksOf(w, id) && LifePossible(w, id, life) && InstallsOnly(life.steps)
    requires forall n: nat :: Owns(RunAfter(Spawned(w), id, life.steps).world, n, id) ==> n in life.protect
    ensures OwnRemovals(Spawned(w), id, life.steps)
    ensures Outcome(w, id, life, x).0 == Outcome(w, id, life, x).1 <==>
            AtMostOneOver(RunAfter(Spawned(w), id, life.steps).world, id, x)
  {
    var tr := TrailRun(Spawned(w), id, x, UNTOUCHED, life.steps);
    SpawnStacked(w, id, x);
    RunStacked(Spawned(w), id, x, UNTOUCHED, life.steps);
    StackedOutcome(RunAfter(Spawned(w), id, life.steps), id, x, tr, life.order, life.ok, life.protect);
  }

  /**
   A script that only installs hooks is undone in every game exactly when the prologues it
   patched do not overlap: the later of two overlapping hooks always gets the higher slot.
   */
  lemma InstallsUndoneExactly(w: World, id: nat, life: Life)
    requires Books(w, None) && NoHooksOf(w, id) && LifePossible(w, id, life) && InstallsOnly(life.steps)
    requires forall n: nat :: Owns(RunAfter(Spawned(w), id, life.steps).world, n, id) ==> n in life.protect
    ensures (forall v :: SameGame(w, v) ==> Undone(v, id, life)) <==>
            ProloguesApart(GameMemory(w), RunAfter(Spawned(w), id, life.steps).world, id)
  {
    UndoneExactlyAsAnswered(w, id, life);
    InstallsByte(w, id, life, 0);
    forall x | x in GameMemory(w)
      ensures Outcome(w, id, life, x).0 == Outcome(w, id, life, x).1 <==>
              AtMostOneOver(RunAfter(Spawned(w), id, life.steps).world, id, x)
    {
      InstallsByte(w, id, life, x);
    }
  }

  lemma SpawnStacked(w: World, id: nat, x: Addr)
    requires NoHooksOf(w, id)
    ensures Stacked(Spawned(w), id, x, UNTOUCHED)
  {
  }

  // ----- hooking the same code twice -----

  /** A hook over code that is already hooked records the first hook's jump. */
  lemma SecondHookRecordsFirstPatch(w: World, n1: nat, w': World, n2: nat, c2: HookCtx, x: Addr)
    requires Live(w, n1) && SlotOk(w, n1) && Hooked(w, w', n2, c2)
    requires Under(w, n1, x) && Within(x, c2.patch.target, |c2.patch.original|)
    ensures var c1 := Ctx(w, n1);
            c2.patch.original[x - c2.patch.target] == PatchCode(c1.thunk, |c1.patch.original|)[x - c1.patch.target]
  {
    var p := Ctx(w, n1).patch;
    assert !InSlab(w.slab, x) by {
      assert forall i :: 0 <= i < |w.slab| ==> Apart(w.slab[i].base, PAGE_BYTES, p.target, |p.original|);
    }
  }

  /** An installation by the script that succeeds. */
  ghost predicate Installs(s: Session, id: nat, step: ScriptStep, k: nat) {
    && step.InstallStep? && StepPossible(s.world, step)
    && InstallHook(s.world, step.methodPtr, step.handler, id, step.answers).1 == Ok(k)
  }

  lemma InstalledSlot(s: Session, id: nat, base: Mem, step: ScriptStep, k: nat)
    requires Books(s.world, None) && MapOk(s.world, id, base) && Installs(s, id, step, k)
    ensures var s' := StepAfter(s, id, step);
            && Books(s'.world, None) && MapOk(s'.world, id, base) && s'.entries == s.entries
            && k == FirstVacant(s.world.slots) && k < |s.world.slots| == |s'.world.slots| && Owns(s'.world, k, id)
            && s'.world.slots == s.world.slots[k := s'.world.slots[k]]
            && JUMP_BYTES <= |Ctx(s'.world, k).patch.original|
  {
    StepAccounted(s, id, base, step);
    InstallSlots(s.world, step.methodPtr, step.handler, id, step.answers);
    InstallCode(s.world, step.methodPtr, step.handler, id, step.answers);
  }

  lemma InstalledHooked(s: Session, id: nat, step: ScriptStep, s': Session, k: nat)
    requires Books(s.world, None) && Installs(s, id, step, k) && s' == StepAfter(s, id, step)
    ensures Live(s'.world, k) && Hooked(s.world, s'.world, k, Ctx(s'.world, k))
  {
    InstallEffect(s.world, step.methodPtr, step.handler, id, step.answers);
  }

  /** An installation records the byte it finds. */
  lemma HookedRecord(w: World, w': World, k: nat, c: HookCtx, x: Addr)
    requires Hooked(w, w', k, c) && Within(x, c.patch.target, |c.patch.original|) && !InSlab(w.slab, x)
    ensures x in w.mem && c.patch.original[x - c.patch.target] == w.mem[x]
  {
  }

  lemma HeldByte(mem: Mem, start: Addr, bs: seq<Byte>, x: Addr)
    requires Holds(mem, start, bs) && Within(x, start, |bs|)
    ensures x in mem && mem[x] == bs[x - start]
  {
  }

  lemma InstalledCode(s: Session, id: nat, step: ScriptStep, s': Session, k: nat)
    requires Installs(s, id, step, k) && s' == StepAfter(s, id, step)
    ensures Live(s'.world, k) && JUMP_BYTES <= |Ctx(s'.world, k).patch.original|
    ensures var c := Ctx(s'.world, k); Holds(s'.world.mem, c.patch.target, PatchCode(c.thunk, |c.patch.original|))
  {
    InstallCode(s.world, step.methodPtr, step.handler, id, step.answers);
  }

  /** An installation leaves its jump. */
  lemma InstalledJump(s': Session, k: nat, x: Addr)
    requires Under(s'.world, k, x) && JUMP_BYTES <= |Ctx(s'.world, k).patch.original|
    requires var c := Ctx(s'.world, k); Holds(s'.world.mem, c.patch.target, PatchCode(c.thunk, |c.patch.original|))
    ensures x in s'.world.mem && s'.world.mem[x] == Jump(s'.world, k, x)
  {
    var c := Ctx(s'.world, k);
    HeldByte(s'.world.mem, c.patch.target, PatchCode(c.thunk, |c.patch.original|), x);
  }

  /** The second of two hooks of a script gets a higher slot and is the only other one it owns. */
  lemma SecondSlotHigher(w: World, w1: World, w2: World, id: nat, n1: nat, n2: nat)
    requires NoHooksOf(w, id) && n1 == FirstVacant(w.slots) && n1 < |w.slots| == |w1.slots| == |w2.slots|
    requires w1.slots == w.slots[n1 := w1.slots[n1]] && w1.slots[n1].Some?
    requires n2 == FirstVacant(w1.slots) && n2 < |w1.slots| && w2.slots == w1.slots[n2 := w2.slots[n2]]
    ensures n1 < n2 && forall n :: Owns(w2, n, id) ==> n == n1 || n == n2
    ensures Live(w2, n1) && Ctx(w2, n1) == Ctx(w1, n1)
  {
    assert forall m :: 0 <= m < n1 ==> w1.slots[m] == w.slots[m];
    assert forall n :: Live(w2, n) && n != n1 && n != n2 ==> Live(w, n) && w.slots[n] == w2.slots[n];
  }

  /** Two installations by a fresh script: where their hooks sit, and that all memory is accounted for. */
  lemma TwoInstalls(w: World, id: nat, s1: Session, s2: Session, i1: ScriptStep, i2: ScriptStep, n1: nat, n2: nat)
    requires Books(w, None) && NoHooksOf(w, id)
    requires Installs(Spawned(w), id, i1, n1) && s1 == StepAfter(Spawned(w), id, i1)
    requires Installs(s1, id, i2, n2) && s2 == StepAfter(s1, id, i2)
    ensures Books(s1.world, None) && MapOk(s1.world, id, GameMemory(w)) && s1.entries == map[]
    ensures Books(s2.world, None) && MapOk(s2.world, id, GameMemory(w)) && s2.entries == map[]
    ensures n1 == FirstVacant(w.slots) && n1 < n2 < |w.slots| && Owns(s2.world, n1, id) && Owns(s2.world, n2, id)
    ensures forall n :: Owns(s2.world, n, id) ==> n == n1 || n == n2
    ensures Live(s1.world, n1) && Ctx(s2.world, n1) == Ctx(s1.world, n1)
    ensures s2.world.slots == w.slots[n1 := s2.world.slots[n1]][n2 := s2.world.slots[n2]]
  {
    SpawnRestorable(w, id);
    InstalledSlot(Spawned(w), id, GameMemory(w), i1, n1);
    InstalledSlot(s1, id, GameMemory(w), i2, n2);
    SecondSlotHigher(w, s1.world, s2.world, id, n1, n2);
  }

  lemma TwoHooks(w: World, id: nat, s1: Session, s2: Session, i1: ScriptStep, i2: ScriptStep, n1: nat, n2: nat, x: Addr)
    requires Books(w, None) && NoHooksOf(w, id) && x in GameMemory(w)
    requires Installs(Spawned(w), id, i1, n1) && s1 == StepAfter(Spawned(w), id, i1)
    requires Installs(s1, id, i2, n2) && s2 == StepAfter(s1, id, i2)
    requires Under(s2.world, n1, x) && Under(s2.world, n2, x)
    ensures Books(s2.world, None) && MapOk(s2.world, id, GameMemory(w)) && s2.entries == map[]
    ensures n1 < n2 && Owns(s2.world, n1, id) && Owns(s2.world, n2, id)
    ensures forall n :: Owns(s2.world, n, id) ==> n == n1 || n == n2
    ensures JUMP_BYTES <= |Ctx(s2.world, n1).patch.original| && Copy(s2.world, n2, x) == Jump(s2.world, n1, x)
  {
    TwoInstalls(w, id, s1, s2, i1, i2, n1, n2);
    SameUnder(s1.world, s2.world, n1, x);
    FirstJump(Spawned(w), id, i1, s1, n1, x);
    InstalledRecord(s1, id, GameMemory(w), i2, s2, n2, x);
  }

  lemma SameUnder(w: World, v: World, n: nat, x: Addr)
    requires Live(w, n) && Live(v, n) && Ctx(w, n) == Ctx(v, n) && Under(v, n, x)
    ensures Under(w, n, x) && Copy(w, n, x) == Copy(v, n, x)
    ensures JUMP_BYTES <= |Ctx(w, n).patch.original| ==> Jump(w, n, x) == Jump(v, n, x)
  {
  }

  lemma FirstJump(s: Session, id: nat, step: ScriptStep, s': Session, k: nat, x: Addr)
    requires Installs(s, id, step, k) && s' == StepAfter(s, id, step) && Under(s'.world, k, x)
    ensures JUMP_BYTES <= |Ctx(s'.world, k).patch.original| && x in s'.world.mem
    ensures s'.world.mem[x] == Jump(s'.world, k, x)
  {
    InstalledCode(s, id, step, s', k);
    InstalledJump(s', k, x);
  }

  /** An installation over a game byte records it. */
  lemma InstalledRecord(s: Session, id: nat, base: Mem, step: ScriptStep, s': Session, k: nat, x: Addr)
    requires Books(s.world, None) && MapOk(s.world, id, base) && x in base
    requires Installs(s, id, step, k) && s' == StepAfter(s, id, step) && Under(s'.world, k, x)
    ensures x in s.world.mem && Copy(s'.world, k, x) == s.world.mem[x]
  {
    InstalledHooked(s, id, step, s', k);
    HookedRecord(s.world, s'.world, k, Ctx(s'.world, k), x);
  }

  /**
   Hooking code twice is not undone: the prologue is left with the first hook's jump, to a
   thunk that has been given back. So the reload fails wherever that jump differs from the code.
   */
  lemma DoubleHookNotUndone(w: World, id: nat, life: Life, s1: Session, s2: Session, n1: nat, n2: nat, x: Addr)
    requires Books(w, None) && NoHooksOf(w, id) && LifePossible(w, id, life) && |life.steps| == 2
    requires Installs(Spawned(w), id, life.steps[0], n1) && s1 == StepAfter(Spawned(w), id, life.steps[0])
    requires Installs(s1, id, life.steps[1], n2) && s2 == StepAfter(s1, id, life.steps[1])
    requires Under(s2.world, n1, x) && Under(s2.world, n2, x)
    requires x in GameMemory(w) && n2 in life.protect
    ensures var c1, end := Ctx(s2.world, n1), Torn(w, id, life);
            && JUMP_BYTES <= |c1.patch.original| && c1.thunk !in Allocated(end.slab)
            && x in GameMemory(end) && GameMemory(end)[x] == Jump(s2.world, n1, x)
  {
    TwoSteps(Spawned(w), id, life.steps);
    TwoHooks(w, id, s1, s2, life.steps[0], life.steps[1], n1, n2, x);
    TwoHooksTorn(w, id, s2, n1, n2, x, life);
  }

  lemma TwoSteps(s: Session, id: nat, steps: seq<ScriptStep>)
    requires RunPossible(s, id, steps) && |steps| == 2
    ensures StepPossible(s.world, steps[0]) && StepPossible(StepAfter(s, id, steps[0]).world, steps[1])
    ensures RunAfter(s, id, steps) == StepAfter(StepAfter(s, id, steps[0]), id, steps[1])
  {
    var s1 := StepAfter(s, id, steps[0]);
    assert steps[1..][0] == steps[1] && steps[1..][1..] == [];
    assert RunPossible(s1, id, steps[1..]);
    assert RunAfter(s1, id, steps[1..]) == RunAfter(StepAfter(s1, id, steps[1]), id, []);
  }

  lemma TornTo(w: World, id: nat, s: Session, b: nat, x: Addr, life: Life)
    requires Books(s.world, None) && MapOk(s.world, id, GameMemory(w)) && x in GameMemory(w)
    requires Owns(s.world, b, id) && Under(s.world, b, x) && b in life.protect
    requires forall n :: Owns(s.world, n, id) ==> n <= b
    requires LifePossible(w, id, life) && s == RunAfter(Spawned(w), id, life.steps)
    ensures x in GameMemory(Torn(w, id, life)) && GameMemory(Torn(w, id, life))[x] == Copy(s.world, b, x)
  {
    HighestSlotWins(s, id, GameMemory(w), x, b, life.order, life.ok, life.protect);
    TornKeys(s, id, GameMemory(w), life.order, life.ok, life.protect);
    assert x in GameMemory(Torn(w, id, life)).Keys;
  }

  lemma TwoHooksTorn(w: World, id: nat, s2: Session, n1: nat, n2: nat, x: Addr, life: Life)
    requires Books(s2.world, None) && MapOk(s2.world, id, GameMemory(w)) && x in GameMemory(w)
    requires n1 < n2 && Owns(s2.world, n1, id) && Owns(s2.world, n2, id) && Under(s2.world, n2, x) && n2 in life.protect
    requires forall n :: Owns(s2.world, n, id) ==> n == n1 || n == n2
    requires LifePossible(w, id, life) && s2 == RunAfter(Spawned(w), id, life.steps)
    ensures var end := Torn(w, id, life);
            && x in GameMemory(end) && GameMemory(end)[x] == Copy(s2.world, n2, x)
            && Ctx(s2.world, n1).thunk !in Allocated(end.slab)
  {
    TornTo(w, id, s2, n2, x, life);
    TornThunk(s2, id, n1, life.order, life.ok, life.protect);
  }

  /** A teardown gives back the thunk of every own hook. */
  lemma TornThunk(s: Session, id: nat, n: nat, order: seq<Addr>, ok: set<Addr>, protect: set<nat>)
    requires Books(s.world, None) && Owns(s.world, n, id) && Enumerates(order, s.entries)
    ensures Ctx(s.world, n).thunk !in Allocated(Teardown(s, id, order, ok, protect).slab)
  {
    var w1 := s.world.(mem := Revert(s.world.mem, s.entries, order, ok));
    var ids := Owned(w1.slots, id, 0);
    var w := UnhookAll(w1, ids, protect);
    BooksIgnoreBytes(s.world, w1.mem);
    UnhookBooks(w1, ids, protect);
    SlotsOnlyVacate(w1, ids, protect);
    forall k | Live(w, k) ensures Ctx(w, k).thunk != Ctx(s.world, n).thunk {
      assert k !in ids && Live(w1, k) && Live(w1, n) && k != n && BookedApart(w1, k, n);
    }
    assert !HasHook(w, Ctx(s.world, n).thunk);
  }

  lemma {:induction false} UnhookBooks(w: World, ids: seq<nat>, protect: set<nat>)
    requires Books(w, None)
    ensures Books(UnhookAll(w, ids, protect), None)
    decreases |ids|
  {
    if ids == [] {
    } else {
      RemoveBooks(w, ids[0], ids[0] in protect);
      UnhookBooks(RemoveHook(w, ids[0], ids[0] in protect).0, ids[1..], protect);
    }
  }

  // ----- one game in which it happens -----

  const ENTRY: Addr := 0x1000
  const PAGE: Addr := 0x10000

  function Patching(trampoline: Addr, page: Option<Addr>): InstallAnswers {
    InstallAnswers(true, page, true, Some(ENTRY), PatchAnswers(JUMP_BYTES, Some(trampoline), true))
  }

  /** The same code hooked twice; 12 bytes are what decoding a first hook's jump gives up. */
  const FIRST := InstallStep(1, 1, Patching(0x30000, Some(PAGE)))
  const SECOND := InstallStep(1, 2, Patching(0x40000, None))

  /** A game of 32 zero bytes. */
  function ZeroGame(): World { HookTable.Initial(Commit(map[], ENTRY, seq(DECODE_WINDOW, _ => 0)), 0) }

  lemma VacantAt(slots: seq<Option<HookCtx>>, k: nat)
    requires k < |slots| && slots[k].None? && forall m :: 0 <= m < k ==> slots[m].Some?
    ensures FirstVacant(slots) == k
  {
  }

  /** Both pages of answers are possible and both installations succeed. */
  lemma InstallSucceeds(w: World, owner: nat, handler: nat, a: InstallAnswers, k: nat)
    requires BitmapsFull(w.slab) && InstallAnswersOk(w, a) && k == FirstVacant(w.slots) && k < |w.slots|
    requires a.signature && a.ready && a.entry.Some? && a.entry.value != 0
    requires a.patch.stolen >= JUMP_BYTES && a.patch.trampoline.Some? && a.patch.protect
    requires FirstOpen(w.slab) < |w.slab| || a.page.Some?
    ensures var (w', r) := InstallHook(w, 1, handler, owner, a);
            && r == Ok(k) && |w'.slots| == |w.slots| && w'.slots[k].Some? && w'.slots == w.slots[k := w'.slots[k]]
            && w'.slab == Emit(w.slab, w.mem, k, w.shim, a.page).slab
            && var p := w'.slots[k].value.patch;
               p.target == a.entry.value && |p.original| == a.patch.stolen && p.trampoline == a.patch.trampoline.value
  {
    AnswersOkAfterEmit(w, k, a);
  }

  /** 32 committed bytes, no hooks, no slab. */
  ghost predicate Ready(w: World) {
    && Books(w, None) && NoHooksOf(w, 1) && FirstVacant(w.slots) == 0 && w.slots[1].None? && w.slab == []
    && (forall x :: x in w.mem <==> Within(x, ENTRY, DECODE_WINDOW))
  }

  lemma ZeroGameReady()
    ensures Ready(ZeroGame()) && ENTRY in GameMemory(ZeroGame()) && ZeroGame().mem[ENTRY] == 0
  {
    var w := ZeroGame();
    HookTable.InitialConsistent(w.mem, 0);
    VacantAt(w.slots, 0);
    assert ENTRY in w.mem;
  }

  lemma FirstSlab(mem: Mem, shim: nat)
    requires Unmapped(mem, PAGE, PAGE_BYTES)
    ensures var slab := Emit([], mem, 0, shim, Some(PAGE)).slab;
            |slab| == 1 && slab[0].base == PAGE && FirstOpen(slab) == 0
  {
    var slab := Emit([], mem, 0, shim, Some(PAGE)).slab;
    assert slab[0].free[1];
  }

  /** The game after the first hook. */
  ghost predicate HookedOnce(w1: World) {
    && |w1.slots| == MAX_HOOKS && w1.slots[0].Some? && w1.slots[1].None? && Under(w1, 0, ENTRY)
    && Ctx(w1, 0).patch.target == ENTRY
    && BitmapsFull(w1.slab) && |w1.slab| == 1 && w1.slab[0].base == PAGE && FirstOpen(w1.slab) == 0
    && forall x :: x in w1.mem <==>
         Within(x, ENTRY, DECODE_WINDOW) || Within(x, PAGE, PAGE_BYTES) || Within(x, 0x30000, 26)
  }

  lemma FirstHook(w: World) returns (w1: World)
    requires Ready(w)
    ensures Installs(Spawned(w), 1, FIRST, 0) && Session(w1, map[]) == StepAfter(Spawned(w), 1, FIRST)
    ensures HookedOnce(w1)
  {
    var a := Patching(0x30000, Some(PAGE));
    w1 := InstallHook(w, 1, 1, 1, a).0;
    FirstAnswersOk(w);
    FirstInstall(w, w1);
    FirstMemory(w, w1);
  }

  lemma FirstInstall(w: World, w1: World)
    requires Ready(w) && InstallAnswersOk(w, Patching(0x30000, Some(PAGE)))
    requires w1 == InstallHook(w, 1, 1, 1, Patching(0x30000, Some(PAGE))).0
    ensures InstallHook(w, 1, 1, 1, Patching(0x30000, Some(PAGE))).1 == Ok(0)
    ensures |w1.slots| == MAX_HOOKS && w1.slots[0].Some? && w1.slots[1].None? && Under(w1, 0, ENTRY)
    ensures var p := Ctx(w1, 0).patch; p.target == ENTRY && p.trampoline == 0x30000 && |p.original| == JUMP_BYTES
    ensures BitmapsFull(w1.slab) && |w1.slab| == 1 && w1.slab[0].base == PAGE && FirstOpen(w1.slab) == 0
  {
    FirstSlab(w.mem, w.shim);
    InstallSucceeds(w, 1, 1, Patching(0x30000, Some(PAGE)), 0);
  }

  lemma FirstAnswersOk(w: World)
    requires Ready(w)
    ensures InstallAnswersOk(w, Patching(0x30000, Some(PAGE)))
  {
  }

  lemma FirstMemory(w: World, w1: World)
    requires Ready(w) && InstallAnswersOk(w, Patching(0x30000, Some(PAGE)))
    requires var (w', r) := InstallHook(w, 1, 1, 1, Patching(0x30000, Some(PAGE)));
             w1 == w' && r == Ok(0) && |w1.slab| == 1 && w1.slab[0].base == PAGE
    requires 0 < |w1.slots| && w1.slots[0].Some? && Ctx(w1, 0).patch.trampoline == 0x30000
    requires |Ctx(w1, 0).patch.original| == JUMP_BYTES
    ensures forall x :: x in w1.mem <==>
              Within(x, ENTRY, DECODE_WINDOW) || Within(x, PAGE, PAGE_BYTES) || Within(x, 0x30000, 26)
  {
    InstallEffect(w, 1, 1, 1, Patching(0x30000, Some(PAGE)));
  }

  lemma SecondHook(w1: World)
    requires HookedOnce(w1)
    ensures Installs(Session(w1, map[]), 1, SECOND, 1)
    ensures var w2 := StepAfter(Session(w1, map[]), 1, SECOND).world;
            Under(w2, 0, ENTRY) && Under(w2, 1, ENTRY) && Ctx(w2, 0).patch.target == ENTRY
  {
    VacantAt(w1.slots, 1);
    SecondAnswersOk(w1);
    InstallSucceeds(w1, 1, 2, Patching(0x40000, None), 1);
  }

  lemma SecondAnswersOk(w1: World)
    requires HookedOnce(w1)
    ensures InstallAnswersOk(w1, Patching(0x40000, None))
  {
  }

  lemma TwoInstallsLife(w: World, id: nat, s1: Session, s2: Session, i1: ScriptStep, i2: ScriptStep, n1: nat, n2: nat)
    requires Books(w, None) && Installs(Spawned(w), id, i1, n1) && s1 == StepAfter(Spawned(w), id, i1)
    requires Installs(s1, id, i2, n2) && s2 == StepAfter(s1, id, i2)
    ensures var life := Life([i1, i2], [], {}, {n1, n2});
            LifePossible(w, id, life) && TrackRun(Spawned(w), id, Fresh(w), [i1, i2]).base == GameMemory(w)
  {
    var steps := [i1, i2];
    TwoStepsPossible(Spawned(w), id, steps);
    TwoSteps(Spawned(w), id, steps);
    InstallLeaves(Spawned(w), id, i1, n1);
    InstallLeaves(s1, id, i2, n2);
    NoPermanentSameBase(Spawned(w), id, Fresh(w), steps);
  }

  lemma TwoStepsPossible(s: Session, id: nat, steps: seq<ScriptStep>)
    requires |steps| == 2 && StepPossible(s.world, steps[0])
    requires StepPossible(StepAfter(s, id, steps[0]).world, steps[1])
    ensures RunPossible(s, id, steps)
  {
    assert steps[1..][0] == steps[1] && steps[1..][1..] == [];
    assert RunPossible(StepAfter(s, id, steps[0]), id, steps[1..]);
  }

  lemma InstallLeaves(s: Session, id: nat, step: ScriptStep, k: nat)
    requires Books(s.world, None) && Installs(s, id, step, k)
    ensures Books(StepAfter(s, id, step).world, None) && StepAfter(s, id, step).entries == s.entries
  {
    StepAccounted(s, id, map[], step);
  }

  lemma FirstByte(thunk: Addr, n: nat)
    requires n >= JUMP_BYTES
    ensures PatchCode(thunk, n)[0] == 0x48
  {
  }

  /** In this game the reload leaves a jump where there was a zero. */
  lemma DoubleHookWitness() returns (w: World, life: Life)
    ensures Books(w, None) && NoHooksOf(w, 1) && LifePossible(w, 1, life) && !Undone(w, 1, life)
    ensures ENTRY in GameMemory(w) && GameMemory(w)[ENTRY] == 0
    ensures ENTRY in GameMemory(Torn(w, 1, life)) && GameMemory(Torn(w, 1, life))[ENTRY] == 0x48
  {
    ZeroGameReady();
    var w1 := FirstHook(ZeroGame());
    SecondHook(w1);
    w, life := DoubleHookAt(ZeroGame(), w1, FIRST, SECOND);
  }

  lemma DoubleHookAt(w0: World, w1: World, i1: ScriptStep, i2: ScriptStep) returns (w: World, life: Life)
    requires Books(w0, None) && NoHooksOf(w0, 1) && ENTRY in GameMemory(w0) && w0.mem[ENTRY] == 0
    requires Installs(Spawned(w0), 1, i1, 0) && Session(w1, map[]) == StepAfter(Spawned(w0), 1, i1)
    requires Installs(Session(w1, map[]), 1, i2, 1)
    requires var w2 := StepAfter(Session(w1, map[]), 1, i2).world;
             Under(w2, 0, ENTRY) && Under(w2, 1, ENTRY) && Ctx(w2, 0).patch.target == ENTRY
    ensures w == w0 && LifePossible(w, 1, life) && !Undone(w, 1, life)
    ensures ENTRY in GameMemory(Torn(w, 1, life)) && GameMemory(Torn(w, 1, life))[ENTRY] == 0x48
  {
    w, life := w0, Life([i1, i2], [], {}, {0, 1});
    var s1 := Session(w1, map[]);
    var s2 := StepAfter(s1, 1, i2);
    TwoInstallsLife(w, 1, s1, s2, i1, i2, 0, 1);
    DoubleHookNotUndone(w, 1, life, s1, s2, 0, 1, ENTRY);
    FirstByte(Ctx(s2.world, 0).thunk, |Ctx(s2.world, 0).patch.original|);
  }
}
