/**
 The hook lifecycle (`hook_runtime/api.rs`, `registry.rs`): 256 slots, each tied to one slab
 thunk, one patched prologue and one trampoline. `InstallHook` and `RemoveHook` say what the
 operations do to the world; `Consistent` is what every run of them keeps.
 */
module HookRuntime {
  import opened Bytes
  import opened ProcessMemory
  import opened ThunkSlab
  import opened InlineDetour

  const MAX_HOOKS: nat := 256

  datatype HookCtx = HookCtx(methodPtr: nat, handler: nat, owner: nat, thunk: Addr, patch: Patch)

  datatype HookError = SlotPoolExhausted | MethodNotHookable | PatchFailed | UnknownHandle

  datatype Result<+T> = Ok(value: T) | Err(error: HookError)

  /** Memory, the published slots, the thunk slab and the address of the universal shim. */
  datatype World = World(mem: Mem, slots: seq<Option<HookCtx>>, slab: Slab, shim: nat)

  /** Everything outside the agent that one `install_hook` consults. */
  datatype InstallAnswers = InstallAnswers(
    signature: bool,             // the method's signature could be read
    page: Option<Addr>,          // a new slab page, if one is asked for
    ready: bool,                 // the internals context exists
    entry: Option<Addr>,         // the method's code address, if readable
    patch: PatchAnswers)

  predicate Live(w: World, n: int) { 0 <= n < |w.slots| && w.slots[n].Some? }

  function Ctx(w: World, n: int): HookCtx
    requires Live(w, n)
  {
    w.slots[n].value
  }

  function TrampolineSize(p: Patch): nat { |p.original| + JUMP_BACK_BYTES }

  /** `alloc_slot`: the lowest unpublished slot, or the table size. */
  function FirstVacant(slots: seq<Option<HookCtx>>): (n: nat)
    ensures n <= |slots| && (n < |slots| ==> slots[n].None?)
    ensures forall m :: 0 <= m < n ==> slots[m].Some?
  {
    if slots == [] || slots[0].None? then 0 else 1 + FirstVacant(slots[1..])
  }

  /** The system's answers are about the world as it is: fresh pages, a committed target. */
  predicate InstallAnswersOk(w: World, a: InstallAnswers) {
    && PageAnswerOk(w.mem, a.page)
    && (a.entry.Some? && a.entry.value != 0 ==> AnswersOk(w.mem, a.entry.value, a.patch))
    && (a.page.Some? && a.patch.trampoline.Some? ==>
          Apart(a.page.value, PAGE_BYTES, a.patch.trampoline.value, a.patch.stolen + JUMP_BACK_BYTES))
  }

  lemma AnswersOkAfterEmit(w: World, id: nat, a: InstallAnswers)
    requires BitmapsFull(w.slab) && InstallAnswersOk(w, a) && a.entry.Some? && a.entry.value != 0
    ensures AnswersOk(Emit(w.slab, w.mem, id, w.shim, a.page).mem, a.entry.value, a.patch)
  {
  }

  function InstallHook(w: World, methodPtr: nat, handler: nat, owner: nat, a: InstallAnswers): (World, Result<nat>)
    requires BitmapsFull(w.slab) && InstallAnswersOk(w, a)
  {
    if !a.signature then (w, Err(MethodNotHookable)) else
    var id := FirstVacant(w.slots);
    if id == |w.slots| then (w, Err(SlotPoolExhausted)) else
    var e := Emit(w.slab, w.mem, id, w.shim, a.page);
    if e.thunk.None? then (w, Err(PatchFailed)) else
    var thunk := e.thunk.value;
    if !a.ready || a.entry.None? || a.entry.value == 0 then
      var (slab, mem) := Free(e.slab, e.mem, thunk);
      (w.(mem := mem, slab := slab), Err(PatchFailed))
    else
      AnswersOkAfterEmit(w, id, a);
      var (patched, patch) := InlineDetour.Install(e.mem, a.entry.value, thunk, a.patch);
      if patch.None? then
        var (slab, mem) := Free(e.slab, patched, thunk);
        (w.(mem := mem, slab := slab), Err(PatchFailed))
      else
        var ctx := HookCtx(methodPtr, handler, owner, thunk, patch.value);
        (World(patched, w.slots[id := Some(ctx)], e.slab, w.shim), Ok(id))
  }

  function RemoveHook(w: World, handle: nat, protect: bool): (World, Result<()>)
    requires BitmapsFull(w.slab)
  {
    if !Live(w, handle) then (w, Err(UnknownHandle)) else
    var ctx := Ctx(w, handle);
    var restored := Uninstall(w.mem, ctx.patch, protect);
    var (slab, mem) := Free(w.slab, restored, ctx.thunk);
    (World(mem, w.slots[handle := None], slab, w.shim), Ok(()))
  }

  /**
   An installation succeeds exactly when nothing it consults refuses, and then publishes what it
   was asked for in the lowest vacant slot; the error tells which step refused.
   */
  lemma InstallPublishes(w: World, methodPtr: nat, handler: nat, owner: nat, a: InstallAnswers)
    requires BitmapsFull(w.slab) && InstallAnswersOk(w, a)
    ensures var (w', r) := InstallHook(w, methodPtr, handler, owner, a);
            var full := forall k :: 0 <= k < |w.slots| ==> w.slots[k].Some?;
            var thunk := Emit(w.slab, w.mem, FirstVacant(w.slots), w.shim, a.page).thunk;
            && (r == Err(MethodNotHookable) <==> !a.signature)
            && (r == Err(SlotPoolExhausted) <==> a.signature && full)
            && (r.Ok? <==> a.signature && !full && thunk.Some? && a.ready && a.entry.Some? && a.entry.value != 0
                           && a.patch.stolen >= 12 && a.patch.trampoline.Some? && a.patch.protect)
            && r != Err(UnknownHandle)
            && (r.Err? ==> w'.slots == w.slots)
            && (r.Ok? ==>
                  var k := r.value;
                  && k < |w.slots| && w.slots[k].None? && (forall j :: 0 <= j < k ==> w.slots[j].Some?)
                  && |w'.slots| == |w.slots| && (forall j :: 0 <= j < |w.slots| && j != k ==> w'.slots[j] == w.slots[j])
                  && Live(w', k)
                  && var c := Ctx(w', k);
                     && c.methodPtr == methodPtr && c.handler == handler && c.owner == owner && Some(c.thunk) == thunk
                     && c.patch.target == a.entry.value && c.patch.detour == c.thunk
                     && c.patch.trampoline == a.patch.trampoline.value && |c.patch.original| == a.patch.stolen)
  {
    var id := FirstVacant(w.slots);
    if a.signature && id < |w.slots| && a.entry.Some? && a.entry.value != 0 { AnswersOkAfterEmit(w, id, a); }
  }

  /** Removal empties exactly the slot named; a slot that holds no hook is refused without effect. */
  lemma RemoveEmpties(w: World, handle: nat, protect: bool)
    requires BitmapsFull(w.slab)
    ensures var (w', r) := RemoveHook(w, handle, protect);
            && (handle >= |w.slots| || w.slots[handle].None? ==> w' == w && r == Err(UnknownHandle))
            && (handle < |w.slots| && w.slots[handle].Some? ==>
                  && r == Ok(()) && |w'.slots| == |w.slots| && w'.slots[handle].None?
                  && forall j :: 0 <= j < |w.slots| && j != handle ==> w'.slots[j] == w.slots[j])
  {
  }

  // ----- the invariant -----

  predicate OffSlab(slab: Slab, start: Addr, len: nat) {
    forall p :: 0 <= p < |slab| ==> Apart(slab[p].base, PAGE_BYTES, start, len)
  }

  /** One number from the script's handle to the machine code of the patched prologue. */
  ghost predicate SlotOk(w: World, n: nat)
    requires Live(w, n)
  {
    var c := Ctx(w, n);
    && c.thunk in Allocated(w.slab)
    && Holds(w.mem, c.thunk, ThunkCode(n, w.shim))
    && c.patch.detour == c.thunk
    && JUMP_BYTES <= |c.patch.original| <= DECODE_WINDOW
    && Holds(w.mem, c.patch.target, PatchCode(c.thunk, |c.patch.original|))
    && Holds(w.mem, c.patch.trampoline, TrampolineCode(c.patch.original, c.patch.target + |c.patch.original|))
    && OffSlab(w.slab, c.patch.target, |c.patch.original|)
    && OffSlab(w.slab, c.patch.trampoline, TrampolineSize(c.patch))
  }

  predicate PatchesApart(p: Patch, q: Patch) {
    && Apart(p.target, |p.original|, q.target, |q.original|)
    && Apart(p.trampoline, TrampolineSize(p), q.trampoline, TrampolineSize(q))
  }

  predicate Separate(w: World, n: nat, m: nat)
    requires Live(w, n) && Live(w, m)
  {
    var c, d := Ctx(w, n), Ctx(w, m);
    && (n != m ==> c.thunk != d.thunk && PatchesApart(c.patch, d.patch))
    && Apart(c.patch.target, |c.patch.original|, d.patch.trampoline, TrampolineSize(d.patch))
  }

  ghost predicate HasHook(w: World, thunk: Addr) {
    exists n :: Live(w, n) && Ctx(w, n).thunk == thunk
  }

  /** Slab slots in use are exactly the thunks of published hooks; nothing overlaps. */
  ghost predicate Consistent(w: World) {
    && |w.slots| == MAX_HOOKS && w.shim < U64_LIMIT
    && WellFormed(w.slab, w.mem) && FreeSlotsTrap(w.slab, w.mem)
    && (forall n :: Live(w, n) ==> SlotOk(w, n))
    && (forall n, m :: Live(w, n) && Live(w, m) ==> Separate(w, n, m))
    && (forall a :: a in Allocated(w.slab) ==> HasHook(w, a))
  }

  lemma HookStays(w: World, w': World, thunk: Addr)
    requires HasHook(w, thunk)
    requires forall n :: Live(w, n) && Ctx(w, n).thunk == thunk ==> Live(w', n) && Ctx(w', n) == Ctx(w, n)
    ensures HasHook(w', thunk)
  {
  }

  /** The prologue to be patched touches neither the slab nor any live patch. */
  ghost predicate PrologueClear(w: World, target: Addr, len: nat) {
    && OffSlab(w.slab, target, len)
    && forall n :: Live(w, n) ==>
         && Apart(target, len, Ctx(w, n).patch.target, |Ctx(w, n).patch.original|)
         && Apart(target, len, Ctx(w, n).patch.trampoline, TrampolineSize(Ctx(w, n).patch))
  }

  ghost predicate InstallClear(w: World, a: InstallAnswers) {
    a.entry.Some? ==> PrologueClear(w, a.entry.value, a.patch.stolen)
  }

  predicate SameRange(before: Mem, after: Mem, start: Addr, len: nat) {
    forall x :: start <= x < start + len && x in before ==> x in after && after[x] == before[x]
  }

  lemma SlotOkKept(w: World, w': World, n: nat)
    requires Live(w, n) && SlotOk(w, n) && Live(w', n) && Ctx(w', n) == Ctx(w, n) && w'.shim == w.shim
    requires Ctx(w, n).thunk in Allocated(w'.slab)
    requires SameRange(w.mem, w'.mem, Ctx(w, n).thunk, SLOT_BYTES)
    requires SameRange(w.mem, w'.mem, Ctx(w, n).patch.target, |Ctx(w, n).patch.original|)
    requires SameRange(w.mem, w'.mem, Ctx(w, n).patch.trampoline, TrampolineSize(Ctx(w, n).patch))
    requires OffSlab(w'.slab, Ctx(w, n).patch.target, |Ctx(w, n).patch.original|)
    requires OffSlab(w'.slab, Ctx(w, n).patch.trampoline, TrampolineSize(Ctx(w, n).patch))
    ensures SlotOk(w', n)
  {
  }

  // ----- installing -----

  /** After a thunk is emitted, all hooks are as before and one slab slot has no hook yet. */
  ghost predicate Pending(w: World, spare: Addr) {
    && |w.slots| == MAX_HOOKS && w.shim < U64_LIMIT
    && WellFormed(w.slab, w.mem) && FreeSlotsTrap(w.slab, w.mem)
    && (forall n :: Live(w, n) ==> SlotOk(w, n) && Ctx(w, n).thunk != spare)
    && (forall n, m :: Live(w, n) && Live(w, m) ==> Separate(w, n, m))
    && spare in Allocated(w.slab)
    && (forall a :: a in Allocated(w.slab) && a != spare ==> HasHook(w, a))
  }

  lemma OffGrownSlab(slab: Slab, mem: Mem, page: Addr, start: Addr, len: nat)
    requires OffSlab(slab, start, len) && Mapped(mem, start, len) && len > 0
    requires Unmapped(mem, page, PAGE_BYTES)
    ensures OffSlab(slab + [FreshPage(page)], start, len)
  {
    FreshIsApart(mem, start, len, page, PAGE_BYTES);
  }

  /** A range of committed memory off the slab stays off the slab when a thunk is emitted. */
  lemma OffSlabAfterEmit(slab: Slab, mem: Mem, id: nat, shim: nat, page: Option<Addr>, start: Addr, len: nat)
    requires WellFormed(slab, mem) && PageAnswerOk(mem, page)
    requires OffSlab(slab, start, len) && Mapped(mem, start, len) && len > 0
    ensures var e := Emit(slab, mem, id, shim, page);
            OffSlab(e.slab, start, len) && SameRange(mem, e.mem, start, len)
  {
    var e := Emit(slab, mem, id, shim, page);
    if page.Some? { OffGrownSlab(slab, mem, page.value, start, len); }
    var p := FirstOpen(slab);
    var grown := if p < |slab| || page.None? then slab else slab + [FreshPage(page.value)];
    forall q | 0 <= q < |e.slab| ensures Apart(e.slab[q].base, PAGE_BYTES, start, len) {
      assert e.slab[q].base == grown[q].base;
    }
    forall x | start <= x < start + len && x in mem ensures x in e.mem && e.mem[x] == mem[x] {
      if p < |slab| {
        assert Apart(slab[p].base, PAGE_BYTES, start, len);
        SlotInSlab(slab, mem, p, LowestFree(slab[p].free));
        assert !Within(x, slab[p].base, PAGE_BYTES);
      } else if page.Some? {
        assert Apart(e.slab[p].base, PAGE_BYTES, start, len);
      }
    }
  }

  lemma PendingAfterEmit(w: World, id: nat, page: Option<Addr>)
    requires Consistent(w) && PageAnswerOk(w.mem, page)
    requires Emit(w.slab, w.mem, id, w.shim, page).thunk.Some?
    ensures var e := Emit(w.slab, w.mem, id, w.shim, page);
            Pending(w.(mem := e.mem, slab := e.slab), e.thunk.value)
  {
    var e := Emit(w.slab, w.mem, id, w.shim, page);
    var w' := w.(mem := e.mem, slab := e.slab);
    EmitKeeps(w.slab, w.mem, id, w.shim, page);
    forall n | Live(w', n) ensures SlotOk(w', n) && Ctx(w', n).thunk != e.thunk.value {
      assert Live(w, n) && SlotOk(w, n);
      var c := Ctx(w, n);
      forall x | c.thunk <= x < c.thunk + SLOT_BYTES && x in w.mem ensures x in e.mem && e.mem[x] == w.mem[x] {
        assert Within(x, c.thunk, SLOT_BYTES);
      }
      OffSlabAfterEmit(w.slab, w.mem, id, w.shim, page, c.patch.target, |c.patch.original|);
      OffSlabAfterEmit(w.slab, w.mem, id, w.shim, page, c.patch.trampoline, TrampolineSize(c.patch));
      SlotOkKept(w, w', n);
    }
    forall n, m | Live(w', n) && Live(w', m) ensures Separate(w', n, m) {
      assert Live(w, n) && Live(w, m) && Separate(w, n, m);
    }
    forall a | a in Allocated(w'.slab) && a != e.thunk.value ensures HasHook(w', a) {
      HookStays(w, w', a);
    }
  }

  lemma ThunkOffRange(slab: Slab, mem: Mem, thunk: Addr, start: Addr, len: nat)
    requires WellFormed(slab, mem) && thunk in Allocated(slab) && OffSlab(slab, start, len)
    ensures Apart(thunk, SLOT_BYTES, start, len) && Mapped(mem, thunk, SLOT_BYTES)
  {
  }

  /** Giving the spare thunk back makes the world consistent again. */
  lemma ReleaseSpare(w: World, spare: Addr)
    requires Pending(w, spare)
    ensures var (slab, mem) := Free(w.slab, w.mem, spare);
            Consistent(w.(mem := mem, slab := slab))
  {
    var (slab, mem) := Free(w.slab, w.mem, spare);
    var w' := w.(mem := mem, slab := slab);
    FreeKeeps(w.slab, w.mem, spare);
    SameBases(w.slab, w.mem, spare);
    forall n | Live(w', n) ensures SlotOk(w', n) {
      assert Live(w, n) && SlotOk(w, n);
      var c := Ctx(w, n);
      forall x | c.thunk <= x < c.thunk + SLOT_BYTES && x in w.mem ensures x in mem && mem[x] == w.mem[x] {
        assert Within(x, c.thunk, SLOT_BYTES);
      }
      ThunkOffRange(w.slab, w.mem, spare, c.patch.target, |c.patch.original|);
      ThunkOffRange(w.slab, w.mem, spare, c.patch.trampoline, TrampolineSize(c.patch));
      SlotOkKept(w, w', n);
    }
    forall n, m | Live(w', n) && Live(w', m) ensures Separate(w', n, m) {
      assert Live(w, n) && Live(w, m) && Separate(w, n, m);
    }
    forall a | a in Allocated(slab) ensures HasHook(w', a) {
      HookStays(w, w', a);
    }
  }

  lemma SameBases(slab: Slab, mem: Mem, a: Addr)
    requires BitmapsFull(slab)
    ensures var s := Free(slab, mem, a).0;
            |s| == |slab| && forall p :: 0 <= p < |s| ==> s[p].base == slab[p].base
  {
  }

  /** A patch leaves every range alone that is committed and apart from the prologue. */
  lemma PatchLeaves(mem: Mem, target: Addr, detour: Addr, a: PatchAnswers, start: Addr, len: nat)
    requires AnswersOk(mem, target, a) && InlineDetour.Install(mem, target, detour, a).1.Some?
    requires Apart(target, a.stolen, start, len)
    ensures SameRange(mem, InlineDetour.Install(mem, target, detour, a).0, start, len)
  {
  }

  lemma PatchHolds(mem: Mem, target: Addr, detour: Addr, a: PatchAnswers)
    requires AnswersOk(mem, target, a) && InlineDetour.Install(mem, target, detour, a).1.Some?
    ensures var (m, p) := InlineDetour.Install(mem, target, detour, a);
            && Holds(m, target, PatchCode(detour, a.stolen))
            && Holds(m, p.value.trampoline, TrampolineCode(p.value.original, target + a.stolen))
            && |p.value.original| == a.stolen && Holds(mem, target, p.value.original)
            && Apart(target, a.stolen, p.value.trampoline, a.stolen + JUMP_BACK_BYTES)
            && JUMP_BYTES <= a.stolen
  {
    var code, patch := TrampolineCode(Load(mem, target, a.stolen), target + a.stolen), PatchCode(detour, a.stolen);
    InstalledAs(mem, target, detour, a, code, patch);
    InstalledBytes(mem, target, detour, a, code, patch);
    FreshIsApart(mem, target, DECODE_WINDOW, a.trampoline.value, a.stolen + JUMP_BACK_BYTES);
  }

  lemma SlabKeptByPatch(slab: Slab, mem: Mem, target: Addr, detour: Addr, a: PatchAnswers)
    requires WellFormed(slab, mem) && FreeSlotsTrap(slab, mem)
    requires AnswersOk(mem, target, a) && InlineDetour.Install(mem, target, detour, a).1.Some?
    requires OffSlab(slab, target, a.stolen)
    ensures var m := InlineDetour.Install(mem, target, detour, a).0;
            WellFormed(slab, m) && FreeSlotsTrap(slab, m)
    ensures OffSlab(slab, a.trampoline.value, a.stolen + JUMP_BACK_BYTES)
  {
    var m := InlineDetour.Install(mem, target, detour, a).0;
    forall p | 0 <= p < |slab|
      ensures Mapped(m, slab[p].base, PAGE_BYTES)
      ensures Apart(slab[p].base, PAGE_BYTES, a.trampoline.value, a.stolen + JUMP_BACK_BYTES)
    {
      assert Mapped(mem, slab[p].base, PAGE_BYTES);
      FreshIsApart(mem, slab[p].base, PAGE_BYTES, a.trampoline.value, a.stolen + JUMP_BACK_BYTES);
    }
    forall p, i | SlotAt(slab, p, i) && slab[p].free[i] ensures Holds(m, SlotAddr(slab[p], i), Traps(SLOT_BYTES)) {
      SlotInSlab(slab, mem, p, i);
      PatchLeaves(mem, target, detour, a, slab[p].base, PAGE_BYTES);
    }
  }

  /** What `PublishKeeps` is given: a patch just written for the spare thunk `c.thunk`. */
  ghost predicate Publishable(w: World, id: nat, c: HookCtx, a: PatchAnswers) {
    && Pending(w, c.thunk) && id < MAX_HOOKS && !Live(w, id)
    && Holds(w.mem, c.thunk, ThunkCode(id, w.shim))
    && AnswersOk(w.mem, c.patch.target, a) && PrologueClear(w, c.patch.target, a.stolen)
    && InlineDetour.Install(w.mem, c.patch.target, c.thunk, a).1 == Some(c.patch)
  }

  function Published(w: World, id: nat, c: HookCtx, a: PatchAnswers): World
    requires id < |w.slots| && AnswersOk(w.mem, c.patch.target, a)
  {
    World(InlineDetour.Install(w.mem, c.patch.target, c.thunk, a).0, w.slots[id := Some(c)], w.slab, w.shim)
  }

  lemma HoldsKept(before: Mem, after: Mem, start: Addr, bs: seq<Byte>)
    requires Holds(before, start, bs) && SameRange(before, after, start, |bs|)
    ensures Holds(after, start, bs)
  {
  }

  lemma SpareThunkKept(w: World, id: nat, c: HookCtx, a: PatchAnswers)
    requires Publishable(w, id, c, a)
    ensures Holds(Published(w, id, c, a).mem, c.thunk, ThunkCode(id, w.shim))
    ensures OffSlab(w.slab, c.patch.trampoline, TrampolineSize(c.patch))
  {
    var m := Published(w, id, c, a).mem;
    ThunkOffRange(w.slab, w.mem, c.thunk, c.patch.target, a.stolen);
    PatchLeaves(w.mem, c.patch.target, c.thunk, a, c.thunk, SLOT_BYTES);
    HoldsKept(w.mem, m, c.thunk, ThunkCode(id, w.shim));
    SlabKeptByPatch(w.slab, w.mem, c.patch.target, c.thunk, a);
  }

  lemma NewSlotOk(w: World, w': World, id: nat, c: HookCtx, a: PatchAnswers)
    requires AnswersOk(w.mem, c.patch.target, a)
    requires InlineDetour.Install(w.mem, c.patch.target, c.thunk, a) == (w'.mem, Some(c.patch))
    requires w'.slab == w.slab && w'.shim == w.shim && Live(w', id) && Ctx(w', id) == c
    requires c.thunk in Allocated(w.slab) && OffSlab(w.slab, c.patch.target, a.stolen)
    requires OffSlab(w.slab, c.patch.trampoline, TrampolineSize(c.patch))
    requires Holds(w'.mem, c.thunk, ThunkCode(id, w.shim))
    ensures SlotOk(w', id)
  {
    PatchHolds(w.mem, c.patch.target, c.thunk, a);
  }

  lemma PublishedSeparate(w: World, id: nat, c: HookCtx, a: PatchAnswers, n: nat, k: nat)
    requires Publishable(w, id, c, a)
    requires Live(Published(w, id, c, a), n) && Live(Published(w, id, c, a), k)
    ensures Separate(Published(w, id, c, a), n, k)
  {
    if n != id && k != id {
      assert Live(w, n) && Live(w, k) && Separate(w, n, k);
    } else if n != id {
      assert Live(w, n);
      NewPatchApart(w, c, a, n);
    } else if k != id {
      assert Live(w, k);
      NewPatchApart(w, c, a, k);
    } else {
      PatchHolds(w.mem, c.patch.target, c.thunk, a);
    }
  }

  lemma PublishedHooks(w: World, w': World, id: nat, c: HookCtx)
    requires id < |w.slots| && w.slots[id].None? && w'.slots == w.slots[id := Some(c)]
    requires forall t :: t in Allocated(w.slab) && t != c.thunk ==> HasHook(w, t)
    ensures forall t :: t in Allocated(w.slab) ==> HasHook(w', t)
  {
    forall t | t in Allocated(w.slab) ensures HasHook(w', t) {
      if t == c.thunk {
        assert Live(w', id) && Ctx(w', id).thunk == t;
      } else {
        HookStays(w, w', t);
      }
    }
  }

  /** Publishing a freshly patched hook in a vacant slot uses up the spare thunk. */
  lemma PublishKeeps(w: World, id: nat, c: HookCtx, a: PatchAnswers)
    requires Publishable(w, id, c, a)
    ensures Consistent(Published(w, id, c, a))
  {
    var w' := Published(w, id, c, a);
    SpareThunkKept(w, id, c, a);
    NewSlotOk(w, w', id, c, a);
    SlabKeptByPatch(w.slab, w.mem, c.patch.target, c.thunk, a);
    forall n | Live(w', n) ensures SlotOk(w', n) {
      if n != id {
        assert Live(w, n);
        OldSlotKept(w, w', c, a, n);
      }
    }
    forall n, k | Live(w', n) && Live(w', k) ensures Separate(w', n, k) {
      PublishedSeparate(w, id, c, a, n, k);
    }
    PublishedHooks(w, w', id, c);
  }

  lemma OldSlotKept(w: World, w': World, c: HookCtx, a: PatchAnswers, n: nat)
    requires Pending(w, c.thunk) && Live(w, n)
    requires AnswersOk(w.mem, c.patch.target, a) && PrologueClear(w, c.patch.target, a.stolen)
    requires InlineDetour.Install(w.mem, c.patch.target, c.thunk, a).1 == Some(c.patch)
    requires w'.mem == InlineDetour.Install(w.mem, c.patch.target, c.thunk, a).0
    requires Live(w', n) && Ctx(w', n) == Ctx(w, n) && w'.slab == w.slab && w'.shim == w.shim
    ensures SlotOk(w', n)
  {
    var d := Ctx(w, n);
    assert SlotOk(w, n);
    ThunkOffRange(w.slab, w.mem, d.thunk, c.patch.target, a.stolen);
    PatchLeaves(w.mem, c.patch.target, c.thunk, a, d.thunk, SLOT_BYTES);
    PatchLeaves(w.mem, c.patch.target, c.thunk, a, d.patch.target, |d.patch.original|);
    PatchLeaves(w.mem, c.patch.target, c.thunk, a, d.patch.trampoline, TrampolineSize(d.patch));
    SlotOkKept(w, w', n);
  }

  lemma NewPatchApart(w: World, c: HookCtx, a: PatchAnswers, n: nat)
    requires Pending(w, c.thunk) && Live(w, n)
    requires AnswersOk(w.mem, c.patch.target, a) && PrologueClear(w, c.patch.target, a.stolen)
    requires InlineDetour.Install(w.mem, c.patch.target, c.thunk, a).1 == Some(c.patch)
    ensures var d := Ctx(w, n);
            && d.thunk != c.thunk
            && PatchesApart(c.patch, d.patch) && PatchesApart(d.patch, c.patch)
            && Apart(c.patch.target, |c.patch.original|, d.patch.trampoline, TrampolineSize(d.patch))
            && Apart(d.patch.target, |d.patch.original|, c.patch.trampoline, TrampolineSize(c.patch))
  {
    var d := Ctx(w, n);
    assert SlotOk(w, n);
    PatchHolds(w.mem, c.patch.target, c.thunk, a);
    FreshIsApart(w.mem, d.patch.target, |d.patch.original|, c.patch.trampoline, TrampolineSize(c.patch));
    FreshIsApart(w.mem, d.patch.trampoline, TrampolineSize(d.patch), c.patch.trampoline, TrampolineSize(c.patch));
  }

  lemma PrologueClearAfterEmit(w: World, id: nat, page: Option<Addr>, target: Addr, len: nat)
    requires Consistent(w) && PageAnswerOk(w.mem, page) && PrologueClear(w, target, len)
    requires Mapped(w.mem, target, len) && len > 0
    ensures var e := Emit(w.slab, w.mem, id, w.shim, page);
            PrologueClear(w.(mem := e.mem, slab := e.slab), target, len)
  {
    var e := Emit(w.slab, w.mem, id, w.shim, page);
    OffSlabAfterEmit(w.slab, w.mem, id, w.shim, page, target, len);
    forall n | Live(w.(mem := e.mem, slab := e.slab), n)
      ensures Apart(target, len, Ctx(w, n).patch.target, |Ctx(w, n).patch.original|)
      ensures Apart(target, len, Ctx(w, n).patch.trampoline, TrampolineSize(Ctx(w, n).patch))
    {
      assert Live(w, n);
    }
  }

  /** Every outcome of an installation, with all its rollbacks, keeps the world consistent. */
  lemma InstallKeeps(w: World, methodPtr: nat, handler: nat, owner: nat, a: InstallAnswers)
    requires Consistent(w) && InstallAnswersOk(w, a) && InstallClear(w, a)
    ensures Consistent(InstallHook(w, methodPtr, handler, owner, a).0)
  {
    var id := FirstVacant(w.slots);
    if a.signature && id < |w.slots| {
      var e := Emit(w.slab, w.mem, id, w.shim, a.page);
      if e.thunk.Some? {
        var w1 := w.(mem := e.mem, slab := e.slab);
        EmitKeeps(w.slab, w.mem, id, w.shim, a.page);
        PendingAfterEmit(w, id, a.page);
        ReleaseSpare(w1, e.thunk.value);
        if a.ready && a.entry.Some? && a.entry.value != 0 {
          AnswersOkAfterEmit(w, id, a);
          var (patched, patch) := InlineDetour.Install(e.mem, a.entry.value, e.thunk.value, a.patch);
          if patch.None? {
            RefusedInstallNoTrace(e.mem, a.entry.value, e.thunk.value, a.patch);
          } else {
            PrologueClearAfterEmit(w, id, a.page, a.entry.value, a.patch.stolen);
            PublishKeeps(w1, id, HookCtx(methodPtr, handler, owner, e.thunk.value, patch.value), a.patch);
          }
        }
      }
    }
  }

  // ----- removing -----

  /** Uninstalling a live hook leaves every other hook's bytes and the slab alone. */
  lemma UninstallLeaves(w: World, h: nat, protect: bool, start: Addr, len: nat)
    requires Live(w, h)
    requires Apart(Ctx(w, h).patch.target, |Ctx(w, h).patch.original|, start, len)
    requires Apart(Ctx(w, h).patch.trampoline, TrampolineSize(Ctx(w, h).patch), start, len)
    ensures SameRange(w.mem, Uninstall(w.mem, Ctx(w, h).patch, protect), start, len)
  {
  }

  lemma SlabKeptByUninstall(w: World, h: nat, protect: bool)
    requires Consistent(w) && Live(w, h)
    ensures var m := Uninstall(w.mem, Ctx(w, h).patch, protect);
            WellFormed(w.slab, m) && FreeSlotsTrap(w.slab, m)
  {
    var m := Uninstall(w.mem, Ctx(w, h).patch, protect);
    assert SlotOk(w, h);
    forall p | 0 <= p < |w.slab| ensures SameRange(w.mem, m, w.slab[p].base, PAGE_BYTES) {
      UninstallLeaves(w, h, protect, w.slab[p].base, PAGE_BYTES);
    }
    forall p | 0 <= p < |w.slab| ensures Mapped(m, w.slab[p].base, PAGE_BYTES) {
      assert Mapped(w.mem, w.slab[p].base, PAGE_BYTES);
      assert SameRange(w.mem, m, w.slab[p].base, PAGE_BYTES);
    }
    forall p, i | SlotAt(w.slab, p, i) && w.slab[p].free[i]
      ensures Holds(m, SlotAddr(w.slab[p], i), Traps(SLOT_BYTES))
    {
      SlotInSlab(w.slab, w.mem, p, i);
      assert SameRange(w.mem, m, w.slab[p].base, PAGE_BYTES);
    }
  }

  lemma UnpublishKeeps(w: World, h: nat, protect: bool)
    requires Consistent(w) && Live(w, h)
    ensures Pending(World(Uninstall(w.mem, Ctx(w, h).patch, protect), w.slots[h := None], w.slab, w.shim), Ctx(w, h).thunk)
  {
    var w' := World(Uninstall(w.mem, Ctx(w, h).patch, protect), w.slots[h := None], w.slab, w.shim);
    var c := Ctx(w, h);
    SlabKeptByUninstall(w, h, protect);
    assert SlotOk(w, h);
    forall n | Live(w', n) ensures SlotOk(w', n) && Ctx(w', n).thunk != c.thunk {
      assert Live(w, n) && SlotOk(w, n) && Separate(w, h, n) && Separate(w, n, h);
      var d := Ctx(w, n);
      ThunkOffRange(w.slab, w.mem, d.thunk, c.patch.target, |c.patch.original|);
      ThunkOffRange(w.slab, w.mem, d.thunk, c.patch.trampoline, TrampolineSize(c.patch));
      UninstallLeaves(w, h, protect, d.thunk, SLOT_BYTES);
      UninstallLeaves(w, h, protect, d.patch.target, |d.patch.original|);
      UninstallLeaves(w, h, protect, d.patch.trampoline, TrampolineSize(d.patch));
      SlotOkKept(w, w', n);
    }
    forall n, m | Live(w', n) && Live(w', m) ensures Separate(w', n, m) {
      assert Live(w, n) && Live(w, m) && Separate(w, n, m);
    }
    forall t | t in Allocated(w'.slab) && t != c.thunk ensures HasHook(w', t) {
      HookStays(w, w', t);
    }
  }

  /** Removing a hook, even one whose prologue cannot be rewritten, keeps the world consistent. */
  lemma RemoveKeeps(w: World, handle: nat, protect: bool)
    requires Consistent(w)
    ensures Consistent(RemoveHook(w, handle, protect).0)
  {
    if Live(w, handle) {
      UnpublishKeeps(w, handle, protect);
      ReleaseSpare(World(Uninstall(w.mem, Ctx(w, handle).patch, protect), w.slots[handle := None], w.slab, w.shim),
                   Ctx(w, handle).thunk);
    }
  }

  // ----- bookkeeping under any patching, overlapping prologues included -----

  /**
   What holds of slots and slab whatever the methods' prologues are: the slab slots in use are
   the thunks of the published hooks, one each, and trampolines are allocations of their own.
   `spare` is a thunk that has been emitted but not yet published, if any.
   */
  ghost predicate Books(w: World, spare: Option<Addr>) {
    && |w.slots| == MAX_HOOKS && WellFormed(w.slab, w.mem)
    && (forall n :: Live(w, n) ==> BookedSlot(w, n, spare))
    && (forall n, m :: Live(w, n) && Live(w, m) && n != m ==> BookedApart(w, n, m))
    && (forall a :: a in Allocated(w.slab) ==> HasHook(w, a) || spare == Some(a))
    && (spare.Some? ==> spare.value in Allocated(w.slab))
  }

  ghost predicate BookedSlot(w: World, n: nat, spare: Option<Addr>)
    requires Live(w, n)
  {
    var c := Ctx(w, n);
    && c.thunk in Allocated(w.slab) && spare != Some(c.thunk)
    && Mapped(w.mem, c.patch.trampoline, TrampolineSize(c.patch))
    && OffSlab(w.slab, c.patch.trampoline, TrampolineSize(c.patch))
  }

  predicate BookedApart(w: World, n: nat, m: nat)
    requires Live(w, n) && Live(w, m)
  {
    var c, d := Ctx(w, n), Ctx(w, m);
    && c.thunk != d.thunk
    && Apart(c.patch.trampoline, TrampolineSize(c.patch), d.patch.trampoline, TrampolineSize(d.patch))
  }

  /** The same hooks over another memory and slab. */
  lemma BooksMoved(w: World, w': World, spare: Option<Addr>, spare': Option<Addr>)
    requires Books(w, spare) && w'.slots == w.slots && WellFormed(w'.slab, w'.mem)
    requires forall a :: a in Allocated(w'.slab) <==> (a in Allocated(w.slab) && Some(a) != spare) || Some(a) == spare'
    requires spare'.None? || spare' == spare || spare'.value !in Allocated(w.slab)
    requires forall n :: Live(w, n) ==>
      && Mapped(w'.mem, Ctx(w, n).patch.trampoline, TrampolineSize(Ctx(w, n).patch))
      && OffSlab(w'.slab, Ctx(w, n).patch.trampoline, TrampolineSize(Ctx(w, n).patch))
    ensures Books(w', spare')
  {
    forall n | Live(w', n) ensures BookedSlot(w', n, spare') {
      assert Live(w, n) && BookedSlot(w, n, spare);
    }
    forall n, m | Live(w', n) && Live(w', m) && n != m ensures BookedApart(w', n, m) {
      assert Live(w, n) && Live(w, m) && BookedApart(w, n, m);
    }
    forall a | a in Allocated(w'.slab) && spare' != Some(a) ensures HasHook(w', a) {
      HookStays(w, w', a);
    }
  }

  lemma EmitBooks(w: World, id: nat, page: Option<Addr>)
    requires Books(w, None) && PageAnswerOk(w.mem, page)
    requires Emit(w.slab, w.mem, id, w.shim, page).thunk.Some?
    ensures var e := Emit(w.slab, w.mem, id, w.shim, page);
            Books(w.(mem := e.mem, slab := e.slab), e.thunk)
  {
    var e := Emit(w.slab, w.mem, id, w.shim, page);
    EmitKeeps(w.slab, w.mem, id, w.shim, page);
    var w' := w.(mem := e.mem, slab := e.slab);
    forall n | Live(w, n)
      ensures Mapped(e.mem, Ctx(w, n).patch.trampoline, TrampolineSize(Ctx(w, n).patch))
      ensures OffSlab(e.slab, Ctx(w, n).patch.trampoline, TrampolineSize(Ctx(w, n).patch))
    {
      assert BookedSlot(w, n, None);
      OffSlabAfterEmit(w.slab, w.mem, id, w.shim, page, Ctx(w, n).patch.trampoline, TrampolineSize(Ctx(w, n).patch));
    }
    BooksMoved(w, w', None, e.thunk);
  }

  lemma FreeBooks(w: World, spare: Addr)
    requires Books(w, Some(spare))
    ensures var (slab, mem) := Free(w.slab, w.mem, spare); Books(w.(mem := mem, slab := slab), None)
  {
    var (slab, mem) := Free(w.slab, w.mem, spare);
    FreeKeeps(w.slab, w.mem, spare);
    SameBases(w.slab, w.mem, spare);
    forall n | Live(w, n)
      ensures Mapped(mem, Ctx(w, n).patch.trampoline, TrampolineSize(Ctx(w, n).patch))
      ensures OffSlab(slab, Ctx(w, n).patch.trampoline, TrampolineSize(Ctx(w, n).patch))
    {
      assert BookedSlot(w, n, Some(spare));
    }
    BooksMoved(w, w.(mem := mem, slab := slab), Some(spare), None);
  }

  lemma NewTrampolineApart(w: World, c: HookCtx, a: PatchAnswers, n: nat)
    requires Books(w, Some(c.thunk)) && Live(w, n) && AnswersOk(w.mem, c.patch.target, a)
    requires InlineDetour.Install(w.mem, c.patch.target, c.thunk, a).1 == Some(c.patch)
    ensures var d := Ctx(w, n).patch;
            && Apart(d.trampoline, TrampolineSize(d), c.patch.trampoline, TrampolineSize(c.patch))
            && Ctx(w, n).thunk != c.thunk
  {
    assert BookedSlot(w, n, Some(c.thunk));
    var d := Ctx(w, n).patch;
    FreshIsApart(w.mem, d.trampoline, TrampolineSize(d), c.patch.trampoline, TrampolineSize(c.patch));
  }

  lemma NewSlotBooked(w: World, id: nat, c: HookCtx, a: PatchAnswers)
    requires Books(w, Some(c.thunk)) && id < MAX_HOOKS && AnswersOk(w.mem, c.patch.target, a)
    requires InlineDetour.Install(w.mem, c.patch.target, c.thunk, a).1 == Some(c.patch)
    ensures WellFormed(w.slab, Published(w, id, c, a).mem)
    ensures BookedSlot(Published(w, id, c, a), id, None)
  {
    var size := a.stolen + JUMP_BACK_BYTES;
    PatchHolds(w.mem, c.patch.target, c.thunk, a);
    forall p | 0 <= p < |w.slab| ensures Apart(w.slab[p].base, PAGE_BYTES, c.patch.trampoline, size) {
      FreshIsApart(w.mem, w.slab[p].base, PAGE_BYTES, c.patch.trampoline, size);
    }
    assert Mapped(Published(w, id, c, a).mem, c.patch.trampoline, size);
  }

  lemma PublishBooks(w: World, id: nat, c: HookCtx, a: PatchAnswers)
    requires Books(w, Some(c.thunk)) && id < MAX_HOOKS && !Live(w, id)
    requires AnswersOk(w.mem, c.patch.target, a)
    requires InlineDetour.Install(w.mem, c.patch.target, c.thunk, a).1 == Some(c.patch)
    ensures Books(Published(w, id, c, a), None)
  {
    var w' := Published(w, id, c, a);
    NewSlotBooked(w, id, c, a);
    forall n | Live(w', n) ensures BookedSlot(w', n, None) {
      if n != id { assert Live(w, n) && BookedSlot(w, n, Some(c.thunk)); }
    }
    forall n, m | Live(w', n) && Live(w', m) && n != m ensures BookedApart(w', n, m) {
      if n == id {
        NewTrampolineApart(w, c, a, m);
      } else if m == id {
        NewTrampolineApart(w, c, a, n);
      } else {
        assert Live(w, n) && Live(w, m) && BookedApart(w, n, m);
      }
    }
    PublishedHooks(w, w', id, c);
  }

  lemma InstallBooks(w: World, methodPtr: nat, handler: nat, owner: nat, a: InstallAnswers)
    requires Books(w, None) && InstallAnswersOk(w, a)
    ensures Books(InstallHook(w, methodPtr, handler, owner, a).0, None)
  {
    var id := FirstVacant(w.slots);
    if a.signature && id < |w.slots| {
      var e := Emit(w.slab, w.mem, id, w.shim, a.page);
      if e.thunk.Some? {
        var w1 := w.(mem := e.mem, slab := e.slab);
        EmitBooks(w, id, a.page);
        FreeBooks(w1, e.thunk.value);
        if a.ready && a.entry.Some? && a.entry.value != 0 {
          AnswersOkAfterEmit(w, id, a);
          var (patched, patch) := InlineDetour.Install(e.mem, a.entry.value, e.thunk.value, a.patch);
          if patch.None? {
            RefusedInstallNoTrace(e.mem, a.entry.value, e.thunk.value, a.patch);
          } else {
            PublishBooks(w1, id, HookCtx(methodPtr, handler, owner, e.thunk.value, patch.value), a.patch);
          }
        }
      }
    }
  }

  lemma RemoveBooks(w: World, h: nat, protect: bool)
    requires Books(w, None)
    ensures Books(RemoveHook(w, h, protect).0, None)
  {
    if Live(w, h) {
      var c := Ctx(w, h);
      assert BookedSlot(w, h, None);
      var w1 := World(Uninstall(w.mem, c.patch, protect), w.slots[h := None], w.slab, w.shim);
      forall p | 0 <= p < |w.slab| ensures Mapped(w1.mem, w.slab[p].base, PAGE_BYTES) {
        assert Mapped(w.mem, w.slab[p].base, PAGE_BYTES);
        assert Apart(w.slab[p].base, PAGE_BYTES, c.patch.trampoline, TrampolineSize(c.patch));
      }
      forall n | Live(w1, n) ensures BookedSlot(w1, n, Some(c.thunk)) {
        assert Live(w, n) && BookedSlot(w, n, None) && BookedApart(w, h, n);
      }
      forall n, m | Live(w1, n) && Live(w1, m) && n != m ensures BookedApart(w1, n, m) {
        assert Live(w, n) && Live(w, m) && BookedApart(w, n, m);
      }
      forall t | t in Allocated(w1.slab) && t != c.thunk ensures HasHook(w1, t) {
        HookStays(w, w1, t);
      }
      FreeBooks(w1, c.thunk);
    }
  }

  // ----- the slab never needs a third page -----

  ghost function Thunks(slots: seq<Option<HookCtx>>): set<Addr> {
    set n | 0 <= n < |slots| && slots[n].Some? :: slots[n].value.thunk
  }

  /** A vacant slot leaves fewer thunks than slots. */
  lemma {:induction false} ThunksSize(slots: seq<Option<HookCtx>>)
    ensures |Thunks(slots)| <= |slots|
    ensures (exists n :: 0 <= n < |slots| && slots[n].None?) ==> |Thunks(slots)| < |slots|
  {
    if slots == [] {
    } else {
      var k := |slots| - 1;
      var front := slots[..k];
      ThunksSize(front);
      var last := if slots[k].Some? then {slots[k].value.thunk} else {};
      assert Thunks(slots) == Thunks(front) + last;
      if n :| 0 <= n < |slots| && slots[n].None? {
        assert n < k ==> front[n].None?;
      }
    }
  }

  lemma InstallPages(w: World, methodPtr: nat, handler: nat, owner: nat, a: InstallAnswers)
    requires Books(w, None) && InstallAnswersOk(w, a) && |w.slab| <= 2
    ensures |InstallHook(w, methodPtr, handler, owner, a).0.slab| <= 2
  {
    var id := FirstVacant(w.slots);
    if a.signature && id < |w.slots| && FirstOpen(w.slab) == |w.slab| == 2 {
      FullPagesCount(w.slab, w.mem);
      forall t | t in Allocated(w.slab) ensures t in Thunks(w.slots) {
        assert HasHook(w, t);
        var n :| Live(w, n) && Ctx(w, n).thunk == t;
        assert w.slots[n].Some? && w.slots[n].value.thunk == t;
      }
      SubsetSize(Allocated(w.slab), Thunks(w.slots));
      ThunksSize(w.slots);
    }
  }
}
