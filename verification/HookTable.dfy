/**
 The hook table as the mutable object it is in the source, and what holds after every run of
 installations and removals.
 */
module HookTable {
  import opened Bytes
  import opened ProcessMemory
  import opened ThunkSlab
  import opened InlineDetour
  import opened HookRuntime

  class Table {
    var mem: Mem
    var slots: seq<Option<HookCtx>>
    var slab: Slab
    const shim: nat

    function AsWorld(): World
      reads this
    {
      World(mem, slots, slab, shim)
    }

    constructor (mem: Mem, shim: nat)
      ensures AsWorld() == Initial(mem, shim)
      ensures |slots| == 256 && forall k :: 0 <= k < 256 ==> slots[k].None?
    {
      this.mem := mem;
      this.shim := shim;
      slots := seq(MAX_HOOKS, _ => None);
      slab := [];
    }

    /** Scan for an unpublished slot. */
    method AllocSlot() returns (id: nat)
      ensures id == FirstVacant(slots)
    {
      id := 0;
      while id < |slots| && slots[id].Some?
        invariant id <= |slots|
        invariant FirstVacant(slots) == id + FirstVacant(slots[id..])
      {
        assert slots[id..][1..] == slots[id + 1..];
        id := id + 1;
      }
    }

    /** Try the pages in order, grow the slab when all are full, then write the thunk. */
    method EmitThunk(id: nat, page: Option<Addr>) returns (thunk: Option<Addr>)
      requires BitmapsFull(slab) && PageAnswerOk(mem, page)
      modifies this`mem, this`slab
      ensures Emitted(slab, mem, thunk) == Emit(old(slab), old(mem), id, shim, page)
    {
      var p := 0;
      while p < |slab| && LowestFree(slab[p].free) == |slab[p].free|
        invariant p <= |slab|
        invariant FirstOpen(slab) == p + FirstOpen(slab[p..])
      {
        assert slab[p..][1..] == slab[p + 1..];
        p := p + 1;
      }
      if p == |slab| {
        if page.None? { return None; }
        mem := Commit(mem, page.value, Traps(PAGE_BYTES));
        slab := slab + [FreshPage(page.value)];
      }
      var i := LowestFree(slab[p].free);
      var a := SlotAddr(slab[p], i);
      slab := Take(slab, p, i);
      mem := Store(mem, a, ThunkCode(id, shim));
      thunk := Some(a);
    }

    /** Overwrite with traps first, then give the slot back to the page that holds it. */
    method FreeThunk(a: Addr)
      requires BitmapsFull(slab)
      modifies this`mem, this`slab
      ensures (slab, mem) == Free(old(slab), old(mem), a)
    {
      mem := Store(mem, a, Traps(SLOT_BYTES));
      var p := 0;
      while p < |slab| && !Within(a, slab[p].base, PAGE_BYTES)
        invariant p <= |slab|
        invariant PageOf(slab, a) == p + PageOf(slab[p..], a)
      {
        assert slab[p..][1..] == slab[p + 1..];
        p := p + 1;
      }
      if p < |slab| {
        slab := Give(slab, p, (a - slab[p].base) / SLOT_BYTES);
      }
    }

    method Install(methodPtr: nat, handler: nat, owner: nat, a: InstallAnswers) returns (r: Result<nat>)
      requires BitmapsFull(slab) && InstallAnswersOk(AsWorld(), a)
      modifies this`mem, this`slab, this`slots
      ensures (AsWorld(), r) == InstallHook(old(AsWorld()), methodPtr, handler, owner, a)
    {
      if !a.signature { return Err(MethodNotHookable); }
      var id := AllocSlot();
      if id == |slots| { return Err(SlotPoolExhausted); }
      ghost var w := AsWorld();
      var thunk := EmitThunk(id, a.page);
      if thunk.None? { return Err(PatchFailed); }
      if !a.ready || a.entry.None? || a.entry.value == 0 {
        FreeThunk(thunk.value);
        return Err(PatchFailed);
      }
      AnswersOkAfterEmit(w, id, a);
      var (patched, patch) := InlineDetour.Install(mem, a.entry.value, thunk.value, a.patch);
      mem := patched;
      if patch.None? {
        FreeThunk(thunk.value);
        return Err(PatchFailed);
      }
      slots := slots[id := Some(HookCtx(methodPtr, handler, owner, thunk.value, patch.value))];
      r := Ok(id);
    }

    method Remove(handle: nat, protect: bool) returns (r: Result<()>)
      requires BitmapsFull(slab)
      modifies this`mem, this`slab, this`slots
      ensures (AsWorld(), r) == RemoveHook(old(AsWorld()), handle, protect)
    {
      if handle >= |slots| || slots[handle].None? { return Err(UnknownHandle); }
      var ctx := slots[handle].value;
      slots := slots[handle := None];
      mem := Uninstall(mem, ctx.patch, protect);
      FreeThunk(ctx.thunk);
      r := Ok(());
    }
  }

  // ----- runs -----

  function Initial(mem: Mem, shim: nat): World {
    World(mem, seq(MAX_HOOKS, _ => None), [], shim)
  }

  datatype HookStep =
    | DoInstall(methodPtr: nat, handler: nat, owner: nat, answers: InstallAnswers)
    | DoRemove(handle: nat, protect: bool)

  predicate Possible(w: World, s: HookStep) {
    BitmapsFull(w.slab) && (s.DoInstall? ==> InstallAnswersOk(w, s.answers))
  }

  function After(w: World, s: HookStep): World
    requires Possible(w, s)
  {
    match s
    case DoInstall(m, h, o, a) => InstallHook(w, m, h, o, a).0
    case DoRemove(h, protect) => RemoveHook(w, h, protect).0
  }

  predicate PossibleRun(w: World, steps: seq<HookStep>)
    decreases |steps|
  {
    steps == [] || (Possible(w, steps[0]) && PossibleRun(After(w, steps[0]), steps[1..]))
  }

  function Run(w: World, steps: seq<HookStep>): World
    requires PossibleRun(w, steps)
    decreases |steps|
  {
    if steps == [] then w else Run(After(w, steps[0]), steps[1..])
  }

  lemma InitialConsistent(mem: Mem, shim: nat)
    requires shim < U64_LIMIT
    ensures Consistent(Initial(mem, shim)) && Books(Initial(mem, shim), None)
  {
  }

  /**
   No thunk leaks and no third page, whatever is installed or removed and whichever step of an
   installation fails: slab slots in use are exactly the thunks of published hooks.
   */
  lemma {:induction false} NoThunkLeak(w: World, steps: seq<HookStep>)
    requires Books(w, None) && |w.slab| <= 2 && PossibleRun(w, steps)
    ensures var r := Run(w, steps);
            Books(r, None) && |r.slab| <= 2 && Allocated(r.slab) == Thunks(r.slots)
    decreases |steps|
  {
    if steps == [] {
      ThunksAreAllocated(w);
    } else {
      match steps[0] {
        case DoInstall(m, h, o, a) =>
          InstallBooks(w, m, h, o, a);
          InstallPages(w, m, h, o, a);
        case DoRemove(h, protect) =>
          RemoveBooks(w, h, protect);
          RemovePages(w, h, protect);
      }
      NoThunkLeak(After(w, steps[0]), steps[1..]);
    }
  }

  lemma RemovePages(w: World, h: nat, protect: bool)
    requires BitmapsFull(w.slab)
    ensures |RemoveHook(w, h, protect).0.slab| == |w.slab|
  {
  }

  lemma ThunksAreAllocated(w: World)
    requires Books(w, None)
    ensures Allocated(w.slab) == Thunks(w.slots)
  {
    forall t | t in Allocated(w.slab) ensures t in Thunks(w.slots) {
      assert HasHook(w, t);
      var n :| Live(w, n) && Ctx(w, n).thunk == t;
      assert w.slots[n].Some? && w.slots[n].value.thunk == t;
    }
    forall t | t in Thunks(w.slots) ensures t in Allocated(w.slab) {
      var n :| 0 <= n < |w.slots| && w.slots[n].Some? && w.slots[n].value.thunk == t;
      assert Live(w, n) && BookedSlot(w, n, None);
    }
  }

  /** Every installation of the run patches a prologue clear of the slab and of the live patches. */
  ghost predicate ClearRun(w: World, steps: seq<HookStep>)
    requires PossibleRun(w, steps)
    decreases |steps|
  {
    steps == [] ||
    ((steps[0].DoInstall? ==> InstallClear(w, steps[0].answers)) && ClearRun(After(w, steps[0]), steps[1..]))
  }

  /** With clear prologues every reachable world is consistent. */
  lemma {:induction false} ReachableConsistent(w: World, steps: seq<HookStep>)
    requires Consistent(w) && PossibleRun(w, steps) && ClearRun(w, steps)
    ensures Consistent(Run(w, steps))
    decreases |steps|
  {
    if steps == [] {
    } else {
      match steps[0] {
        case DoInstall(m, h, o, a) => InstallKeeps(w, m, h, o, a);
        case DoRemove(h, protect) => RemoveKeeps(w, h, protect);
      }
      ReachableConsistent(After(w, steps[0]), steps[1..]);
    }
  }

  /**
   One number from the script's handle to the machine code: the thunk of slot `n` loads `n`,
   the prologue of slot `n` jumps to that thunk, and no two hooks share a thunk.
   */
  lemma HandleToMachineCode(w: World, n: nat)
    requires Consistent(w) && Live(w, n) && n < MAX_HOOKS
    ensures var c := Ctx(w, n);
            && Mapped(w.mem, c.thunk, SLOT_BYTES)
            && LeNat(Load(w.mem, c.thunk, SLOT_BYTES)[2..10]) == n
            && LeNat(Load(w.mem, c.thunk, SLOT_BYTES)[12..20]) == w.shim
            && Mapped(w.mem, c.patch.target, JUMP_BYTES) && VerifyPatched(w.mem, c.patch)
            && c.patch.detour == c.thunk
    ensures forall m :: Live(w, m) && m != n ==> Apart(Ctx(w, n).thunk, SLOT_BYTES, Ctx(w, m).thunk, SLOT_BYTES)
  {
    var c := Ctx(w, n);
    assert SlotOk(w, n);
    HoldsPrefix(w.mem, c.thunk, ThunkCode(n, w.shim), SLOT_BYTES);
    assert ThunkCode(n, w.shim)[..SLOT_BYTES] == ThunkCode(n, w.shim);
    ThunkFields(n, w.shim);
    ThunkRepresentable(w, n);
    PatchedVerifies(w.mem, c.patch);
    forall m | Live(w, m) && m != n ensures Apart(c.thunk, SLOT_BYTES, Ctx(w, m).thunk, SLOT_BYTES) {
      assert SlotOk(w, m) && Separate(w, n, m);
      DistinctThunksApart(w.slab, w.mem, c.thunk, Ctx(w, m).thunk);
    }
  }

  /** At `at` lies `mov r10, id; mov r11, shim; jmp r11` and nothing but traps after it. */
  ghost predicate Forwards(mem: Mem, at: Addr, id: nat, shim: nat) {
    && Holds(mem, at, [0x49, 0xBA]) && HoldsNumber(mem, at + 2, 8, id)
    && Holds(mem, at + 10, [0x49, 0xBB]) && HoldsNumber(mem, at + 12, 8, shim)
    && Holds(mem, at + 20, [0x41, 0xFF, 0xE3])
    && forall x :: at + 23 <= x < at + 32 ==> x in mem && mem[x] == 0xCC
  }

  lemma CodeForwards(mem: Mem, at: Addr, mov10: seq<Byte>, id: seq<Byte>, mov11: seq<Byte>, shim: seq<Byte>, jmp: seq<Byte>,
                     pad: seq<Byte>)
    requires |mov10| == 2 && |id| == 8 && |mov11| == 2 && |shim| == 8 && |jmp| == 3
    requires Holds(mem, at, mov10 + id + mov11 + shim + jmp + pad)
    ensures Holds(mem, at, mov10) && HoldsNumber(mem, at + 2, 8, LeNat(id)) && Holds(mem, at + 10, mov11)
    ensures HoldsNumber(mem, at + 12, 8, LeNat(shim)) && Holds(mem, at + 20, jmp) && Holds(mem, at + 23, pad)
  {
    var code, rest := mov10 + id + mov11 + shim + jmp + pad, shim + jmp + pad;
    assert code == [] + (mov10 + id + mov11) + rest && code == (mov10 + id + mov11) + rest + [];
    HoldsPart(mem, at, [], mov10 + id + mov11, rest);
    HoldsPart(mem, at, mov10 + id + mov11, rest, []);
    ThreeParts(mem, at, mov10, id, mov11);
    ThreeParts(mem, at + 12, shim, jmp, pad);
  }

  lemma ThreeParts(mem: Mem, at: Addr, a: seq<Byte>, b: seq<Byte>, c: seq<Byte>)
    requires Holds(mem, at, a + b + c)
    ensures Holds(mem, at, a) && Holds(mem, at + |a|, b) && Holds(mem, at + |a| + |b|, c)
  {
    assert a + b + c == [] + a + (b + c) && a + b + c == (a + b) + c + [];
    HoldsPart(mem, at, [], a, b + c);
    HoldsPart(mem, at, a, b, c);
    HoldsPart(mem, at, a + b, c, []);
  }

  lemma ThunkForwards(mem: Mem, at: Addr, id: nat, shim: nat)
    requires Holds(mem, at, ThunkCode(id, shim)) && id < U64_LIMIT && shim < U64_LIMIT
    ensures Forwards(mem, at, id, shim)
  {
    AddressField(id, LeBytes(id, 8));
    AddressField(shim, LeBytes(shim, 8));
    CodeForwards(mem, at, [0x49, 0xBA], LeBytes(id, 8), [0x49, 0xBB], LeBytes(shim, 8), [0x41, 0xFF, 0xE3], Traps(9));
  }

  /**
   The machine code of every live hook: its prologue jumps to its thunk, the thunk passes the slot
   number to the shim, and its trampoline runs the stolen instructions and goes on behind them.
   */
  lemma HookedCode(w: World, n: nat)
    requires Consistent(w) && Live(w, n) && n < MAX_HOOKS
    requires Ctx(w, n).patch.target + |Ctx(w, n).patch.original| < U64_LIMIT
    ensures var c := Ctx(w, n);
            && Detours(w.mem, c.patch.target, c.thunk, |c.patch.original|)
            && Forwards(w.mem, c.thunk, n, w.shim)
            && Replays(w.mem, c.patch.trampoline, c.patch.original, c.patch.target + |c.patch.original|)
  {
    ThunkRepresentable(w, n);
    SlotCode(w, n);
  }

  lemma SlotCode(w: World, n: nat)
    requires Live(w, n) && SlotOk(w, n) && n < U64_LIMIT && w.shim < U64_LIMIT && Ctx(w, n).thunk < U64_LIMIT
    requires Ctx(w, n).patch.target + |Ctx(w, n).patch.original| < U64_LIMIT
    ensures var c := Ctx(w, n);
            && Detours(w.mem, c.patch.target, c.thunk, |c.patch.original|)
            && Forwards(w.mem, c.thunk, n, w.shim)
            && Replays(w.mem, c.patch.trampoline, c.patch.original, c.patch.target + |c.patch.original|)
  {
    var c := Ctx(w, n);
    PatchDetours(w.mem, c.patch.target, c.thunk, |c.patch.original|);
    ThunkForwards(w.mem, c.thunk, n, w.shim);
    TrampolineReplays(w.mem, c.patch.trampoline, c.patch.original, c.patch.target + |c.patch.original|);
  }

  lemma ThunkFields(id: nat, shim: nat)
    requires id < U64_LIMIT && shim < U64_LIMIT
    ensures LeNat(ThunkCode(id, shim)[2..10]) == id
    ensures LeNat(ThunkCode(id, shim)[12..20]) == shim
  {
    Capacities();
    LeRoundTrip(id, 8);
    LeRoundTrip(shim, 8);
    ThunkSlices(LeBytes(id, 8), LeBytes(shim, 8));
  }

  lemma ThunkSlices(id: seq<Byte>, shim: seq<Byte>)
    requires |id| == 8 && |shim| == 8
    ensures var code := [0x49, 0xBA] + id + [0x49, 0xBB] + shim + [0x41, 0xFF, 0xE3] + Traps(9);
            code[2..10] == id && code[12..20] == shim
  {
  }

  lemma ThunkRepresentable(w: World, n: nat)
    requires Consistent(w) && Live(w, n)
    ensures Ctx(w, n).thunk < U64_LIMIT
  {
  }

  lemma DistinctThunksApart(slab: Slab, mem: Mem, a: Addr, b: Addr)
    requires WellFormed(slab, mem) && a in Allocated(slab) && b in Allocated(slab) && a != b
    ensures Apart(a, SLOT_BYTES, b, SLOT_BYTES)
  {
  }
}
