/**
 The thunk slab of `thunks.rs`: pages of 128 slots of 32 bytes, a bitmap of free slots per
 page (`free[i]` is bit i), lowest free slot first, a new page only when all are full.
 */
module ThunkSlab {
  import opened Bytes
  import opened ProcessMemory

  const SLOT_BYTES: nat := 32
  const PAGE_BYTES: nat := 4096
  const SLOTS_PER_PAGE: nat := 128
  const INT3: Byte := 0xCC

  datatype SlabPage = SlabPage(base: Addr, free: seq<bool>)
  type Slab = seq<SlabPage>

  function SlotAddr(page: SlabPage, i: nat): Addr { page.base + SLOT_BYTES * i }

  predicate SlotAt(slab: Slab, p: int, i: int) { 0 <= p < |slab| && 0 <= i < |slab[p].free| }

  predicate BitmapsFull(slab: Slab) {
    forall p :: 0 <= p < |slab| ==> |slab[p].free| == SLOTS_PER_PAGE
  }

  /** Full bitmaps, pages committed, representable and pairwise disjoint. */
  predicate WellFormed(slab: Slab, mem: Mem) {
    && BitmapsFull(slab)
    && (forall p :: 0 <= p < |slab| ==>
          slab[p].base + PAGE_BYTES <= U64_LIMIT && Mapped(mem, slab[p].base, PAGE_BYTES))
    && (forall p, q :: 0 <= p < q < |slab| ==> Apart(slab[p].base, PAGE_BYTES, slab[q].base, PAGE_BYTES))
  }

  predicate InSlab(slab: Slab, x: Addr) {
    exists p :: 0 <= p < |slab| && Within(x, slab[p].base, PAGE_BYTES)
  }

  /** Addresses of the slots in use. */
  ghost function Allocated(slab: Slab): set<Addr> {
    set p, i | 0 <= p < |slab| && 0 <= i < |slab[p].free| && !slab[p].free[i] :: SlotAddr(slab[p], i)
  }

  function Traps(n: nat): (bs: seq<Byte>)
    ensures |bs| == n && forall i :: 0 <= i < n ==> bs[i] == 0xCC
  {
    seq(n, _ => INT3)
  }

  /** `mov r10, id; mov r11, shim; jmp r11`, padded with traps to the slot size. */
  function ThunkCode(id: nat, shim: nat): (bs: seq<Byte>)
    ensures |bs| == SLOT_BYTES
  {
    [0x49, 0xBA] + LeBytes(id, 8) + [0x49, 0xBB] + LeBytes(shim, 8) + [0x41, 0xFF, 0xE3] + Traps(9)
  }

  ghost predicate FreeSlotsTrap(slab: Slab, mem: Mem) {
    forall p, i :: SlotAt(slab, p, i) && slab[p].free[i] ==> Holds(mem, SlotAddr(slab[p], i), Traps(SLOT_BYTES))
  }

  // ----- the allocator -----

  /** `trailing_zeros` of the bitmap: the lowest free slot, or the bitmap's size. */
  function LowestFree(free: seq<bool>): (i: nat)
    ensures i <= |free| && (i < |free| ==> free[i])
    ensures forall j :: 0 <= j < i ==> !free[j]
  {
    if free == [] || free[0] then 0 else 1 + LowestFree(free[1..])
  }

  /** Index of the first page with a free slot, or the number of pages. */
  function FirstOpen(slab: Slab): (p: nat)
    ensures p <= |slab|
    ensures p < |slab| ==> LowestFree(slab[p].free) < |slab[p].free|
    ensures forall q :: 0 <= q < p ==> LowestFree(slab[q].free) == |slab[q].free|
  {
    if slab == [] || LowestFree(slab[0].free) < |slab[0].free| then 0 else 1 + FirstOpen(slab[1..])
  }

  function FreshPage(base: Addr): SlabPage {
    SlabPage(base, seq(SLOTS_PER_PAGE, _ => true))
  }

  function Take(slab: Slab, p: nat, i: nat): Slab
    requires SlotAt(slab, p, i)
  {
    slab[p := slab[p].(free := slab[p].free[i := false])]
  }

  function Give(slab: Slab, p: nat, i: nat): Slab
    requires SlotAt(slab, p, i)
  {
    slab[p := slab[p].(free := slab[p].free[i := true])]
  }

  datatype Emitted = Emitted(slab: Slab, mem: Mem, thunk: Option<Addr>)

  /** Answer of `VirtualAlloc` for a page: fresh, and inside the 64-bit address space. */
  predicate PageAnswerOk(mem: Mem, page: Option<Addr>) {
    page.Some? ==> Unmapped(mem, page.value, PAGE_BYTES) && page.value + PAGE_BYTES <= U64_LIMIT
  }

  /** `emit_thunk`: reserve a slot, growing the slab by `page` when all pages are full, and write it. */
  function Emit(slab: Slab, mem: Mem, id: nat, shim: nat, page: Option<Addr>): (e: Emitted)
    requires BitmapsFull(slab) && PageAnswerOk(mem, page)
    ensures BitmapsFull(e.slab)
  {
    var p := FirstOpen(slab);
    if p < |slab| then
      var i := LowestFree(slab[p].free);
      var a := SlotAddr(slab[p], i);
      Emitted(Take(slab, p, i), Store(mem, a, ThunkCode(id, shim)), Some(a))
    else if page.None? then Emitted(slab, mem, None)
    else
      var grown := slab + [FreshPage(page.value)];
      var m := Commit(mem, page.value, Traps(PAGE_BYTES));
      Emitted(Take(grown, p, 0), Store(m, page.value, ThunkCode(id, shim)), Some(page.value))
  }

  /** Page that holds `a`, or the number of pages. */
  function PageOf(slab: Slab, a: Addr): (p: nat)
    ensures p <= |slab|
    ensures p < |slab| ==> Within(a, slab[p].base, PAGE_BYTES)
    ensures forall q :: 0 <= q < p ==> !Within(a, slab[q].base, PAGE_BYTES)
  {
    if slab == [] || Within(a, slab[0].base, PAGE_BYTES) then 0 else 1 + PageOf(slab[1..], a)
  }

  /** `free_thunk`: overwrite the slot with traps and return it to its page. */
  function Free(slab: Slab, mem: Mem, a: Addr): (r: (Slab, Mem))
    requires BitmapsFull(slab)
    ensures BitmapsFull(r.0)
  {
    var m := Store(mem, a, Traps(SLOT_BYTES));
    var p := PageOf(slab, a);
    if p < |slab| then (Give(slab, p, (a - slab[p].base) / SLOT_BYTES), m) else (slab, m)
  }

  // ----- slots do not interfere -----

  lemma SlotsApart(slab: Slab, mem: Mem, p: nat, i: nat, q: nat, j: nat)
    requires WellFormed(slab, mem) && SlotAt(slab, p, i) && SlotAt(slab, q, j) && (p, i) != (q, j)
    ensures Apart(SlotAddr(slab[p], i), SLOT_BYTES, SlotAddr(slab[q], j), SLOT_BYTES)
  {
  }

  lemma SlotInSlab(slab: Slab, mem: Mem, p: nat, i: nat)
    requires WellFormed(slab, mem) && SlotAt(slab, p, i)
    ensures forall x :: Within(x, SlotAddr(slab[p], i), SLOT_BYTES) ==> Within(x, slab[p].base, PAGE_BYTES)
    ensures Mapped(mem, SlotAddr(slab[p], i), SLOT_BYTES)
    ensures PageOf(slab, SlotAddr(slab[p], i)) == p
    ensures (SlotAddr(slab[p], i) - slab[p].base) / SLOT_BYTES == i
  {
  }

  lemma TakeAllocated(slab: Slab, mem: Mem, p: nat, i: nat)
    requires WellFormed(slab, mem) && SlotAt(slab, p, i) && slab[p].free[i]
    ensures var a := SlotAddr(slab[p], i);
            a !in Allocated(slab) && Allocated(Take(slab, p, i)) == Allocated(slab) + {a}
  {
    var a := SlotAddr(slab[p], i);
    var taken := Take(slab, p, i);
    if a in Allocated(slab) {
      var q, j :| 0 <= q < |slab| && 0 <= j < |slab[q].free| && !slab[q].free[j] && SlotAddr(slab[q], j) == a;
      SlotsApart(slab, mem, p, i, q, j);
    }
    forall b | b in Allocated(slab) + {a} ensures b in Allocated(taken) {
      if b == a {
        assert !taken[p].free[i] && SlotAddr(taken[p], i) == b;
      } else {
        var q, j :| 0 <= q < |slab| && 0 <= j < |slab[q].free| && !slab[q].free[j] && SlotAddr(slab[q], j) == b;
        assert !taken[q].free[j] && SlotAddr(taken[q], j) == b;
      }
    }
    forall b | b in Allocated(taken) ensures b in Allocated(slab) + {a} {
      var q, j :| 0 <= q < |taken| && 0 <= j < |taken[q].free| && !taken[q].free[j] && SlotAddr(taken[q], j) == b;
      assert (q, j) == (p, i) || (!slab[q].free[j] && SlotAddr(slab[q], j) == b);
    }
  }

  lemma GiveAllocated(slab: Slab, mem: Mem, p: nat, i: nat)
    requires WellFormed(slab, mem) && SlotAt(slab, p, i) && !slab[p].free[i]
    ensures Allocated(Give(slab, p, i)) == Allocated(slab) - {SlotAddr(slab[p], i)}
  {
    var given := Give(slab, p, i);
    TakeAllocated(given, mem, p, i);
    assert given[p].free[i := false] == slab[p].free;
    assert Take(given, p, i) == slab;
  }

  /** Slots in use, other than `a`, keep their bytes. */
  ghost predicate OthersKept(slab: Slab, a: Addr, before: Mem, after: Mem) {
    forall b, x :: b in Allocated(slab) && b != a && Within(x, b, SLOT_BYTES) && x in before ==>
      x in after && after[x] == before[x]
  }

  /** Storing into one slot leaves every other slot alone. */
  lemma StoreInSlot(slab: Slab, mem: Mem, p: nat, i: nat, code: seq<Byte>)
    requires WellFormed(slab, mem) && SlotAt(slab, p, i) && |code| == SLOT_BYTES
    ensures var a := SlotAddr(slab[p], i); var m := Store(mem, a, code);
            Holds(m, a, code) && OthersKept(slab, a, mem, m) &&
            (forall q, j :: SlotAt(slab, q, j) && (q, j) != (p, i) && Holds(mem, SlotAddr(slab[q], j), Traps(SLOT_BYTES))
               ==> Holds(m, SlotAddr(slab[q], j), Traps(SLOT_BYTES)))
  {
    var a := SlotAddr(slab[p], i);
    var m := Store(mem, a, code);
    SlotInSlab(slab, mem, p, i);
    forall b, x | b in Allocated(slab) && b != a && Within(x, b, SLOT_BYTES) && x in mem
      ensures m[x] == mem[x]
    {
      var q, j :| 0 <= q < |slab| && 0 <= j < |slab[q].free| && !slab[q].free[j] && SlotAddr(slab[q], j) == b;
      SlotsApart(slab, mem, p, i, q, j);
    }
    forall q, j | SlotAt(slab, q, j) && (q, j) != (p, i) && Holds(mem, SlotAddr(slab[q], j), Traps(SLOT_BYTES))
      ensures Holds(m, SlotAddr(slab[q], j), Traps(SLOT_BYTES))
    {
      SlotsApart(slab, mem, p, i, q, j);
    }
  }

  /** Adding a fresh trap-filled page keeps the slab well formed and takes no slot. */
  lemma GrowKeeps(slab: Slab, mem: Mem, base: Addr)
    requires WellFormed(slab, mem) && PageAnswerOk(mem, Some(base))
    ensures var grown := slab + [FreshPage(base)]; var m := Commit(mem, base, Traps(PAGE_BYTES));
            WellFormed(grown, m) && Allocated(grown) == Allocated(slab)
            && (FreeSlotsTrap(slab, mem) ==> FreeSlotsTrap(grown, m))
  {
    var grown := slab + [FreshPage(base)];
    var m := Commit(mem, base, Traps(PAGE_BYTES));
    forall q | 0 <= q < |slab| ensures Apart(slab[q].base, PAGE_BYTES, base, PAGE_BYTES) {
      FreshIsApart(mem, slab[q].base, PAGE_BYTES, base, PAGE_BYTES);
    }
    if FreeSlotsTrap(slab, mem) {
      forall q, j | SlotAt(grown, q, j) && grown[q].free[j]
        ensures Holds(m, SlotAddr(grown[q], j), Traps(SLOT_BYTES))
      {
        if q < |slab| { assert SlotAt(slab, q, j) && slab[q].free[j]; }
      }
    }
    forall b | b in Allocated(slab) ensures b in Allocated(grown) {
      var q, j :| 0 <= q < |slab| && 0 <= j < |slab[q].free| && !slab[q].free[j] && SlotAddr(slab[q], j) == b;
      assert !grown[q].free[j] && SlotAddr(grown[q], j) == b;
    }
    forall b | b in Allocated(grown) ensures b in Allocated(slab) {
      var q, j :| 0 <= q < |grown| && 0 <= j < |grown[q].free| && !grown[q].free[j] && SlotAddr(grown[q], j) == b;
      assert q < |slab| && !slab[q].free[j] && SlotAddr(slab[q], j) == b;
    }
  }

  /** Writing a thunk into a free slot and taking it. */
  lemma TakeKeeps(slab: Slab, mem: Mem, p: nat, i: nat, code: seq<Byte>)
    requires WellFormed(slab, mem) && |code| == SLOT_BYTES
    requires SlotAt(slab, p, i) && slab[p].free[i]
    ensures var a := SlotAddr(slab[p], i); var m := Store(mem, a, code);
            WellFormed(Take(slab, p, i), m)
            && (FreeSlotsTrap(slab, mem) ==> FreeSlotsTrap(Take(slab, p, i), m))
            && Holds(m, a, code) && OthersKept(slab, a, mem, m)
            && a !in Allocated(slab) && Allocated(Take(slab, p, i)) == Allocated(slab) + {a}
            && InSlab(slab, a)
  {
    StoreInSlot(slab, mem, p, i, code);
    TakeAllocated(slab, mem, p, i);
    var taken := Take(slab, p, i);
    if FreeSlotsTrap(slab, mem) {
      forall q, j | SlotAt(taken, q, j) && taken[q].free[j]
        ensures Holds(Store(mem, SlotAddr(slab[p], i), code), SlotAddr(taken[q], j), Traps(SLOT_BYTES))
      {
        assert SlotAt(slab, q, j) && slab[q].free[j] && (q, j) != (p, i);
      }
    }
    SlotInSlab(slab, mem, p, i);
    assert Within(SlotAddr(slab[p], i), slab[p].base, PAGE_BYTES);
  }

  // ----- what the two operations guarantee -----

  /** A thunk is given out at `a`: a slot nobody uses is written, nothing else changes. */
  ghost predicate GivesOut(slab: Slab, mem: Mem, after: Slab, m: Mem, a: Addr, code: seq<Byte>) {
    && WellFormed(after, m) && |slab| <= |after|
    && (FreeSlotsTrap(slab, mem) ==> FreeSlotsTrap(after, m))
    && a !in Allocated(slab) && Allocated(after) == Allocated(slab) + {a}
    && Holds(m, a, code) && OthersKept(slab, a, mem, m)
    && (forall x :: x in mem && !InSlab(slab, x) ==> x in m && m[x] == mem[x])
    && (forall x :: x in m <==> x in mem || InSlab(after, x))
    && (forall x :: InSlab(slab, x) ==> InSlab(after, x))
    && (forall x :: InSlab(after, x) && !InSlab(slab, x) ==> x !in mem)
  }

  lemma OpenPageGivesOut(slab: Slab, mem: Mem, p: nat, i: nat, code: seq<Byte>)
    requires WellFormed(slab, mem) && |code| == SLOT_BYTES && SlotAt(slab, p, i) && slab[p].free[i]
    ensures GivesOut(slab, mem, Take(slab, p, i), Store(mem, SlotAddr(slab[p], i), code), SlotAddr(slab[p], i), code)
  {
    TakeKeeps(slab, mem, p, i, code);
    SlotInSlab(slab, mem, p, i);
    SameFootprint(slab, Take(slab, p, i));
  }

  lemma NewPageGivesOut(slab: Slab, mem: Mem, base: Addr, code: seq<Byte>)
    requires WellFormed(slab, mem) && PageAnswerOk(mem, Some(base)) && |code| == SLOT_BYTES
    ensures var grown, m := slab + [FreshPage(base)], Commit(mem, base, Traps(PAGE_BYTES));
            GivesOut(slab, mem, Take(grown, |slab|, 0), Store(m, base, code), base, code)
  {
    var grown, m := slab + [FreshPage(base)], Commit(mem, base, Traps(PAGE_BYTES));
    GrowKeeps(slab, mem, base);
    assert SlotAddr(grown[|slab|], 0) == base;
    OpenPageGivesOut(grown, m, |slab|, 0, code);
    GrownFootprint(slab, base);
  }

  /** `emit_thunk` gives out a slot nobody uses, writes it, and changes nothing else. */
  lemma EmitKeeps(slab: Slab, mem: Mem, id: nat, shim: nat, page: Option<Addr>)
    requires WellFormed(slab, mem) && PageAnswerOk(mem, page)
    ensures var e := Emit(slab, mem, id, shim, page);
            && WellFormed(e.slab, e.mem)
            && (FreeSlotsTrap(slab, mem) ==> FreeSlotsTrap(e.slab, e.mem))
            && (e.thunk.None? ==> e.slab == slab && e.mem == mem)
            && (e.thunk.Some? ==>
                 && e.thunk.value !in Allocated(slab)
                 && Allocated(e.slab) == Allocated(slab) + {e.thunk.value}
                 && Holds(e.mem, e.thunk.value, ThunkCode(id, shim))
                 && OthersKept(slab, e.thunk.value, mem, e.mem))
            && (forall x :: x in mem && !InSlab(slab, x) ==> x in e.mem && e.mem[x] == mem[x])
            && (forall x :: x in e.mem <==> x in mem || InSlab(e.slab, x))
            && (forall x :: InSlab(slab, x) ==> InSlab(e.slab, x))
            && (forall x :: InSlab(e.slab, x) && !InSlab(slab, x) ==> x !in mem)
            && |slab| <= |e.slab|
  {
    var e := Emit(slab, mem, id, shim, page);
    var p := FirstOpen(slab);
    if p < |slab| {
      var i := LowestFree(slab[p].free);
      OpenPageGivesOut(slab, mem, p, i, ThunkCode(id, shim));
    } else if page.Some? {
      NewPageGivesOut(slab, mem, page.value, ThunkCode(id, shim));
      assert SlotAddr((slab + [FreshPage(page.value)])[p], 0) == page.value;
    }
  }

  ghost predicate AllTaken(slab: Slab) { forall p, i :: SlotAt(slab, p, i) ==> !slab[p].free[i] }

  /** Slot `i` of page `p` is free, and no slot before it is. */
  ghost predicate LowestIn(slab: Slab, p: nat, i: nat)
    requires SlotAt(slab, p, i)
  {
    slab[p].free[i] && forall q, j :: SlotAt(slab, q, j) && (q < p || (q == p && j < i)) ==> !slab[q].free[j]
  }

  lemma FirstOpenExactly(slab: Slab)
    ensures var p := FirstOpen(slab);
            if p == |slab| then AllTaken(slab)
            else SlotAt(slab, p, LowestFree(slab[p].free)) && LowestIn(slab, p, LowestFree(slab[p].free))
  {
  }

  /**
   The slot given out is the lowest free one of the first page that has one; a page is added only
   when none has, and nothing is given out only when none can be added either.
   */
  lemma EmitTakesLowest(slab: Slab, mem: Mem, id: nat, shim: nat, page: Option<Addr>)
    requires BitmapsFull(slab) && PageAnswerOk(mem, page)
    ensures var e := Emit(slab, mem, id, shim, page);
            && (e.thunk.None? <==> AllTaken(slab) && page.None?)
            && (AllTaken(slab) && page.Some? ==> e.thunk == page && |e.slab| == |slab| + 1)
            && (!AllTaken(slab) ==> |e.slab| == |slab|)
            && (!AllTaken(slab) ==>
                  exists p, i :: SlotAt(slab, p, i) && LowestIn(slab, p, i)
                                 && e.thunk == Some(slab[p].base + 32 * i) && e.slab == Take(slab, p, i))
  {
    FirstOpenExactly(slab);
    var p := FirstOpen(slab);
    if p < |slab| {
      var i := LowestFree(slab[p].free);
      assert slab[p].free[i];
      assert SlotAt(slab, p, i) && LowestIn(slab, p, i);
    }
  }

  lemma SameFootprint(a: Slab, b: Slab)
    requires |a| == |b| && forall p :: 0 <= p < |a| ==> a[p].base == b[p].base
    ensures forall x :: InSlab(a, x) <==> InSlab(b, x)
  {
  }

  lemma GrownFootprint(slab: Slab, base: Addr)
    ensures var grown := slab + [FreshPage(base)];
            forall x :: InSlab(grown, x) <==> InSlab(slab, x) || Within(x, base, PAGE_BYTES)
  {
    var grown := slab + [FreshPage(base)];
    forall x ensures InSlab(grown, x) <==> InSlab(slab, x) || Within(x, base, PAGE_BYTES) {
      if InSlab(slab, x) {
        var p :| 0 <= p < |slab| && Within(x, slab[p].base, PAGE_BYTES);
        assert Within(x, grown[p].base, PAGE_BYTES);
      }
      if Within(x, base, PAGE_BYTES) { assert Within(x, grown[|slab|].base, PAGE_BYTES); }
      if InSlab(grown, x) {
        var p :| 0 <= p < |grown| && Within(x, grown[p].base, PAGE_BYTES);
        if p < |slab| { assert Within(x, slab[p].base, PAGE_BYTES); }
      }
    }
  }

  /** Trapping a slot in use and giving it back. */
  lemma GiveKeeps(slab: Slab, mem: Mem, p: nat, i: nat)
    requires WellFormed(slab, mem) && SlotAt(slab, p, i) && !slab[p].free[i]
    ensures var a := SlotAddr(slab[p], i); var m := Store(mem, a, Traps(SLOT_BYTES));
            WellFormed(Give(slab, p, i), m)
            && (FreeSlotsTrap(slab, mem) ==> FreeSlotsTrap(Give(slab, p, i), m))
            && OthersKept(slab, a, mem, m)
            && Allocated(Give(slab, p, i)) == Allocated(slab) - {a}
  {
    GiveAllocated(slab, mem, p, i);
    StoreInSlot(slab, mem, p, i, Traps(SLOT_BYTES));
    var given := Give(slab, p, i);
    if FreeSlotsTrap(slab, mem) {
      forall q, j | SlotAt(given, q, j) && given[q].free[j]
        ensures Holds(Store(mem, SlotAddr(slab[p], i), Traps(SLOT_BYTES)), SlotAddr(given[q], j), Traps(SLOT_BYTES))
      {
        if (q, j) != (p, i) { assert SlotAt(slab, q, j) && slab[q].free[j]; }
      }
    }
  }

  lemma FreeAt(slab: Slab, mem: Mem, p: nat, i: nat)
    requires WellFormed(slab, mem) && SlotAt(slab, p, i)
    ensures Free(slab, mem, SlotAddr(slab[p], i))
         == (Give(slab, p, i), Store(mem, SlotAddr(slab[p], i), Traps(SLOT_BYTES)))
    ensures forall x :: Within(x, SlotAddr(slab[p], i), SLOT_BYTES) ==> InSlab(slab, x)
  {
  }

  /** `free_thunk` of a slot in use returns exactly that slot, filled with traps. */
  lemma FreeKeeps(slab: Slab, mem: Mem, a: Addr)
    requires WellFormed(slab, mem) && a in Allocated(slab)
    ensures var (s, m) := Free(slab, mem, a);
            && WellFormed(s, m) && (FreeSlotsTrap(slab, mem) ==> FreeSlotsTrap(s, m))
            && Allocated(s) == Allocated(slab) - {a}
            && OthersKept(slab, a, mem, m)
            && m.Keys == mem.Keys && |s| == |slab|
            && (forall x :: x in mem && !InSlab(slab, x) ==> m[x] == mem[x])
            && (forall x :: InSlab(s, x) <==> InSlab(slab, x))
  {
    var p, i :| 0 <= p < |slab| && 0 <= i < |slab[p].free| && !slab[p].free[i] && SlotAddr(slab[p], i) == a;
    FreeAt(slab, mem, p, i);
    GiveKeeps(slab, mem, p, i);
    SameFootprint(slab, Give(slab, p, i));
  }

  /** All 32 bytes of a slot given back are traps. */
  lemma FreedTraps(slab: Slab, mem: Mem, a: Addr)
    requires WellFormed(slab, mem) && a in Allocated(slab)
    ensures forall x :: a <= x < a + 32 ==> x in Free(slab, mem, a).1 && Free(slab, mem, a).1[x] == 0xCC
  {
    var p, i :| 0 <= p < |slab| && 0 <= i < |slab[p].free| && !slab[p].free[i] && SlotAddr(slab[p], i) == a;
    FreeAt(slab, mem, p, i);
    assert Mapped(mem, slab[p].base, PAGE_BYTES);
  }

  // ----- how far the slab can grow -----

  ghost function FirstSlots(base: Addr, n: nat): (s: set<Addr>)
    ensures |s| == n
    ensures forall a :: a in s ==> base <= a < base + SLOT_BYTES * n && (a - base) % SLOT_BYTES == 0
  {
    if n == 0 then {} else FirstSlots(base, n - 1) + {base + SLOT_BYTES * (n - 1)}
  }

  lemma FullPageSlots(slab: Slab, p: nat) returns (full: set<Addr>)
    requires p < |slab| && |slab[p].free| == SLOTS_PER_PAGE && LowestFree(slab[p].free) == SLOTS_PER_PAGE
    ensures |full| == SLOTS_PER_PAGE && full <= Allocated(slab)
    ensures forall a :: a in full ==> Within(a, slab[p].base, PAGE_BYTES)
  {
    full := FirstSlots(slab[p].base, SLOTS_PER_PAGE);
    forall a | a in full ensures a in Allocated(slab) && Within(a, slab[p].base, PAGE_BYTES) {
      var i := (a - slab[p].base) / SLOT_BYTES;
      assert !slab[p].free[i] && SlotAddr(slab[p], i) == a;
    }
  }

  /** Two full pages hold 256 slots in use. */
  lemma FullPagesCount(slab: Slab, mem: Mem)
    requires WellFormed(slab, mem) && |slab| >= 2 && FirstOpen(slab) == |slab|
    ensures |Allocated(slab)| >= 2 * SLOTS_PER_PAGE
  {
    var s0 := FullPageSlots(slab, 0);
    var s1 := FullPageSlots(slab, 1);
    DisjointSize(s0, s1, Allocated(slab));
  }

  lemma DisjointSize(a: set<Addr>, b: set<Addr>, c: set<Addr>)
    requires a <= c && b <= c && a !! b
    ensures |a| + |b| <= |c|
  {
    SubsetSize(a + b, c);
  }
}
