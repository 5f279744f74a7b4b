/**
 The write journal (`journal.rs`) and its revert: the first touch of an address records the
 bytes found there; reverting writes every record back, in whatever order the map yields.
 Reverting a series of journaled writes gives back the memory for all written data and all
 orders exactly when the series is clean: nothing is recorded over bytes already written,
 and nothing is written that no record covers.
 */
module WriteJournal {
  import opened Bytes
  import opened ProcessMemory

  type Entries = map<Addr, seq<Byte>>

  /** Answer of the validated read: the bytes, unless the range is refused or not committed. */
  function RawRead(mem: Mem, addr: Addr, width: nat, readable: bool): Option<seq<Byte>> {
    if readable && Mapped(mem, addr, width) then Some(Load(mem, addr, width)) else None
  }

  /** The guarded write: all or nothing. */
  function RawWrite(mem: Mem, addr: Addr, data: seq<Byte>, writable: bool): Mem {
    if writable && Mapped(mem, addr, |data|) then Store(mem, addr, data) else mem
  }

  function Touched(entries: Entries, mem: Mem, addr: Addr, width: nat, readable: bool): Entries {
    if addr in entries then entries
    else match RawRead(mem, addr, width, readable)
         case Some(bytes) => entries[addr := bytes]
         case None => entries
  }

  class Journal {
    var entries: Entries

    constructor ()
      ensures entries == map[]
    {
      entries := map[];
    }

    method Touch(mem: Mem, addr: Addr, width: nat, readable: bool) returns (first: bool)
      modifies this
      ensures entries == Touched(old(entries), mem, addr, width, readable)
      ensures first <==> addr !in old(entries) && addr in entries
    {
      if addr in entries { return false; }
      match RawRead(mem, addr, width, readable) {
        case Some(bytes) =>
          entries := entries[addr := bytes];
          first := true;
        case None => first := false;
      }
    }

    method TakeEntries() returns (taken: Entries)
      modifies this
      ensures taken == old(entries) && entries == map[]
    {
      taken := entries;
      entries := map[];
    }
  }

  // ----- revert -----

  /** Write the records back in the given order; `ok` are the addresses whose write is accepted. */
  function Revert(mem: Mem, entries: Entries, order: seq<Addr>, ok: set<Addr>): (r: Mem)
    requires forall i :: 0 <= i < |order| ==> order[i] in entries
    ensures r.Keys == mem.Keys
  {
    if order == [] then mem else
    Revert(RawWrite(mem, order[0], entries[order[0]], order[0] in ok), entries, order[1..], ok)
  }

  /** Every address of the journal once, as iterating the map yields them. */
  predicate Enumerates(order: seq<Addr>, entries: Entries) {
    && (forall i :: 0 <= i < |order| ==> order[i] in entries)
    && (forall a :: a in entries ==> a in order)
    && Distinct(order)
  }

  predicate Distinct(order: seq<Addr>) { forall i, j :: 0 <= i < j < |order| ==> order[i] != order[j] }

  /** `registry_reload` walks the map in an order it does not control. */
  method RevertAll(mem: Mem, entries: Entries, ok: set<Addr>) returns (r: Mem)
    ensures exists order :: Enumerates(order, entries) && r == Revert(mem, entries, order, ok)
  {
    var left := entries.Keys;
    r := mem;
    ghost var order: seq<Addr> := [];
    while left != {}
      invariant left <= entries.Keys && Distinct(order)
      invariant forall a :: a in order <==> a in entries && a !in left
      invariant r == Revert(mem, entries, order, ok)
      decreases left
    {
      var a :| a in left;
      RevertSnoc(mem, entries, order, a, ok);
      r := RawWrite(r, a, entries[a], a in ok);
      order := order + [a];
      left := left - {a};
    }
    assert Enumerates(order, entries);
  }

  lemma {:induction false} RevertSnoc(mem: Mem, entries: Entries, order: seq<Addr>, a: Addr, ok: set<Addr>)
    requires a in entries && forall i :: 0 <= i < |order| ==> order[i] in entries
    ensures Revert(mem, entries, order + [a], ok) == RawWrite(Revert(mem, entries, order, ok), a, entries[a], a in ok)
    decreases |order|
  {
    if order == [] {
      assert [] + [a] == [a];
    } else {
      assert (order + [a])[1..] == order[1..] + [a];
      RevertSnoc(RawWrite(mem, order[0], entries[order[0]], order[0] in ok), entries, order[1..], a, ok);
    }
  }

  ghost predicate Covers(entries: Entries, a: Addr, x: Addr) {
    a in entries && Within(x, a, |entries[a]|)
  }

  ghost predicate Covered(entries: Entries, x: Addr) {
    exists a :: Covers(entries, a, x)
  }

  /** Records that all agree with `base` put `base` back wherever they reach, and touch nothing else. */
  lemma {:induction false} RevertRestores(mem: Mem, entries: Entries, order: seq<Addr>, ok: set<Addr>, base: Mem)
    requires forall i :: 0 <= i < |order| ==> order[i] in entries && order[i] in ok
    requires forall a :: a in entries ==> Holds(base, a, entries[a])
    requires base.Keys <= mem.Keys
    ensures var r := Revert(mem, entries, order, ok);
            && (forall a, x :: a in order && Covers(entries, a, x) && x in base ==> r[x] == base[x])
            && (forall x :: x in mem && x in base && mem[x] == base[x] ==> r[x] == base[x])
            && (forall x :: x in mem && !Covered(entries, x) ==> r[x] == mem[x])
    decreases |order|
  {
    if order == [] {
    } else {
      var a := order[0];
      var m := RawWrite(mem, a, entries[a], true);
      assert Mapped(mem, a, |entries[a]|);
      forall x | Covers(entries, a, x) ensures x in base && m[x] == base[x] {}
      forall x | x in mem && !Covered(entries, x) ensures m[x] == mem[x] {
        assert !Covers(entries, a, x);
      }
      RevertRestores(m, entries, order[1..], ok, base);
    }
  }

  // ----- a series of journaled writes -----

  /** What is known of a journaled write before its data: where, how wide, what the system answers. */
  datatype Touch = Touch(addr: Addr, width: nat, readable: bool, writable: bool)

  datatype Journaled = Journaled(mem: Mem, entries: Entries)

  /** `host_write`: touch, then write. */
  function WriteOne(j: Journaled, t: Touch, data: seq<Byte>): Journaled {
    Journaled(RawWrite(j.mem, t.addr, data, t.writable),
              Touched(j.entries, j.mem, t.addr, |data|, t.readable))
  }

  predicate Fits(ts: seq<Touch>, data: seq<seq<Byte>>) {
    |ts| == |data| && forall i :: 0 <= i < |ts| ==> |data[i]| == ts[i].width
  }

  function WriteAll(j: Journaled, ts: seq<Touch>, data: seq<seq<Byte>>): Journaled
    requires Fits(ts, data)
    decreases |ts|
  {
    if ts == [] then j else WriteAll(WriteOne(j, ts[0], data[0]), ts[1..], data[1..])
  }

  /** Where records reach, and which bytes have been written: all a clean series depends on. */
  datatype Reach = Reach(widths: map<Addr, nat>, dirty: set<Addr>)

  ghost predicate Reached(widths: map<Addr, nat>, x: Addr) {
    exists a :: a in widths && Within(x, a, widths[a])
  }

  function Span(a: Addr, n: nat): (s: set<Addr>)
    ensures forall x :: x in s <==> Within(x, a, n)
  {
    set x | a <= x < a + n && Within(x, a, n)
  }

  predicate Records(mem: Mem, widths: map<Addr, nat>, t: Touch) {
    t.addr !in widths && t.readable && Mapped(mem, t.addr, t.width)
  }

  predicate Lands(mem: Mem, t: Touch) { t.writable && Mapped(mem, t.addr, t.width) }

  function ReachAfter(mem: Mem, r: Reach, t: Touch): Reach {
    Reach(if Records(mem, r.widths, t) then r.widths[t.addr := t.width] else r.widths,
          if Lands(mem, t) then r.dirty + Span(t.addr, t.width) else r.dirty)
  }

  /** First touches find unwritten bytes, and whatever is written is on record. */
  ghost predicate CleanTouch(mem: Mem, r: Reach, t: Touch) {
    && (Records(mem, r.widths, t) ==> forall x :: Within(x, t.addr, t.width) ==> x !in r.dirty)
    && (Lands(mem, t) ==> forall x :: Within(x, t.addr, t.width) ==> Reached(ReachAfter(mem, r, t).widths, x))
  }

  ghost predicate CleanSeries(mem: Mem, r: Reach, ts: seq<Touch>)
    decreases |ts|
  {
    ts == [] || (CleanTouch(mem, r, ts[0]) && CleanSeries(mem, ReachAfter(mem, r, ts[0]), ts[1..]))
  }

  /** `r` describes the journal and the differences of `j` from the memory `base`. */
  ghost predicate Describes(r: Reach, j: Journaled, base: Mem) {
    && j.mem.Keys == base.Keys
    && r.widths.Keys == j.entries.Keys
    && (forall a :: a in j.entries ==> |j.entries[a]| == r.widths[a] && Mapped(base, a, r.widths[a]))
    && (forall x :: x in base && x !in r.dirty ==> j.mem[x] == base[x])
    && r.dirty <= base.Keys
  }

  /** While the series is clean, records hold original bytes and cover every written byte. */
  ghost predicate Faithful(r: Reach, j: Journaled, base: Mem) {
    && Describes(r, j, base)
    && (forall a :: a in j.entries ==> Holds(base, a, j.entries[a]))
    && (forall x :: x in r.dirty ==> Reached(r.widths, x))
  }

  lemma DescribesAfter(r: Reach, j: Journaled, base: Mem, t: Touch, data: seq<Byte>)
    requires Describes(r, j, base) && |data| == t.width
    ensures Describes(ReachAfter(base, r, t), WriteOne(j, t, data), base)
  {
  }

  lemma ReachedGrows(mem: Mem, r: Reach, t: Touch, x: Addr)
    requires Reached(r.widths, x)
    ensures Reached(ReachAfter(mem, r, t).widths, x)
  {
    var a :| a in r.widths && Within(x, a, r.widths[a]);
    assert a in ReachAfter(mem, r, t).widths;
  }

  lemma RecordsFaithful(r: Reach, j: Journaled, base: Mem, t: Touch, data: seq<Byte>)
    requires Faithful(r, j, base) && |data| == t.width && CleanTouch(base, r, t)
    ensures forall a :: a in WriteOne(j, t, data).entries ==> Holds(base, a, WriteOne(j, t, data).entries[a])
  {
  }

  lemma DirtyReached(r: Reach, base: Mem, t: Touch)
    requires (forall x :: x in r.dirty ==> Reached(r.widths, x)) && CleanTouch(base, r, t)
    ensures var r' := ReachAfter(base, r, t); forall x :: x in r'.dirty ==> Reached(r'.widths, x)
  {
    var r' := ReachAfter(base, r, t);
    forall x | x in r'.dirty ensures Reached(r'.widths, x) {
      if x in r.dirty { ReachedGrows(base, r, t, x); }
    }
  }

  lemma FaithfulAfter(r: Reach, j: Journaled, base: Mem, t: Touch, data: seq<Byte>)
    requires Faithful(r, j, base) && |data| == t.width && CleanTouch(base, r, t)
    ensures Faithful(ReachAfter(base, r, t), WriteOne(j, t, data), base)
  {
    DescribesAfter(r, j, base, t, data);
    RecordsFaithful(r, j, base, t, data);
    DirtyReached(r, base, t);
  }

  lemma {:induction false} CleanFaithful(r: Reach, j: Journaled, base: Mem, ts: seq<Touch>, data: seq<seq<Byte>>)
    returns (r': Reach)
    requires Faithful(r, j, base) && Fits(ts, data) && CleanSeries(base, r, ts)
    ensures Faithful(r', WriteAll(j, ts, data), base)
    decreases |ts|
  {
    r' := r;
    if ts == [] {
    } else {
      FaithfulAfter(r, j, base, ts[0], data[0]);
      r' := CleanFaithful(ReachAfter(base, r, ts[0]), WriteOne(j, ts[0], data[0]), base, ts[1..], data[1..]);
    }
  }

  lemma FaithfulRestored(r: Reach, j: Journaled, base: Mem, order: seq<Addr>)
    requires Faithful(r, j, base) && Enumerates(order, j.entries)
    ensures Revert(j.mem, j.entries, order, j.entries.Keys) == base
  {
    RevertRestores(j.mem, j.entries, order, j.entries.Keys, base);
    var m := Revert(j.mem, j.entries, order, j.entries.Keys);
    forall x | x in base ensures m[x] == base[x] { FaithfulByte(r, j, base, order, m, x); }
  }

  /** A byte is on record or was never written; either way reverting leaves it as it was. */
  lemma FaithfulByte(r: Reach, j: Journaled, base: Mem, order: seq<Addr>, m: Mem, x: Addr)
    requires Faithful(r, j, base) && Enumerates(order, j.entries) && x in base && m.Keys == j.mem.Keys
    requires forall a :: a in order && Covers(j.entries, a, x) ==> m[x] == base[x]
    requires j.mem[x] == base[x] ==> m[x] == base[x]
    ensures m[x] == base[x]
  {
    if x in r.dirty {
      var a := RecordOf(r, j, base, x);
      assert a in order;
    }
  }

  lemma RecordOf(r: Reach, j: Journaled, base: Mem, x: Addr) returns (a: Addr)
    requires Describes(r, j, base) && Reached(r.widths, x)
    ensures Covers(j.entries, a, x)
  {
    a :| a in r.widths && Within(x, a, r.widths[a]);
  }

  // ----- an unclean series can be made to fail -----

  function Flip(b: Byte): Byte { (b + 1) % 256 }

  function FlippedByte(base: Mem, x: Addr): Byte { if x in base then Flip(base[x]) else 0 }

  /** Data that changes every committed byte of the range. */
  function FlippedData(base: Mem, t: Touch): (data: seq<Byte>)
    ensures |data| == t.width
    ensures forall i :: 0 <= i < t.width && t.addr + i in base ==> data[i] == Flip(base[t.addr + i])
  {
    FlippedRange(base, t.addr, t.width)
  }

  function FlippedRange(base: Mem, a: Addr, n: nat): (data: seq<Byte>)
    ensures |data| == n
    ensures forall i :: 0 <= i < n ==> data[i] == FlippedByte(base, a + i)
    decreases n
  {
    if n == 0 then [] else [FlippedByte(base, a)] + FlippedRange(base, a + 1, n - 1)
  }

  ghost predicate Flipped(r: Reach, j: Journaled, base: Mem) {
    Describes(r, j, base) && forall x :: x in r.dirty ==> j.mem[x] == Flip(base[x])
  }

  ghost predicate HoldsFlip(j: Journaled, base: Mem, a: Addr, x: Addr) {
    Covers(j.entries, a, x) && x in base && j.entries[a][x - a] == Flip(base[x])
  }

  /** A changed byte that no record covers, or that some record holds changed. */
  ghost predicate Poisoned(r: Reach, j: Journaled, base: Mem, x: Addr) {
    x in r.dirty && ((exists a :: HoldsFlip(j, base, a, x)) || !Covered(j.entries, x))
  }

  lemma FlippedAfter(r: Reach, j: Journaled, base: Mem, t: Touch)
    requires Flipped(r, j, base)
    ensures Flipped(ReachAfter(base, r, t), WriteOne(j, t, FlippedData(base, t)), base)
  {
    DescribesAfter(r, j, base, t, FlippedData(base, t));
    forall x | x in ReachAfter(base, r, t).dirty
      ensures WriteOne(j, t, FlippedData(base, t)).mem[x] == Flip(base[x])
    {
      FlippedByteAfter(r, j, base, t, x);
    }
  }

  lemma FlippedByteAfter(r: Reach, j: Journaled, base: Mem, t: Touch, x: Addr)
    requires Flipped(r, j, base) && x in ReachAfter(base, r, t).dirty && x in base
    ensures WriteOne(j, t, FlippedData(base, t)).mem[x] == Flip(base[x])
  {
    var data := FlippedData(base, t);
    if Lands(base, t) && Within(x, t.addr, t.width) { assert data[x - t.addr] == Flip(base[t.addr + (x - t.addr)]); }
  }

  lemma PoisonStays(r: Reach, j: Journaled, base: Mem, t: Touch, x: Addr)
    requires Flipped(r, j, base) && Poisoned(r, j, base, x)
    ensures Poisoned(ReachAfter(base, r, t), WriteOne(j, t, FlippedData(base, t)), base, x)
  {
    var j' := WriteOne(j, t, FlippedData(base, t));
    if a :| HoldsFlip(j, base, a, x) {
      assert HoldsFlip(j', base, a, x);
    } else if Covered(j'.entries, x) {
      var a :| Covers(j'.entries, a, x);
      assert !Covers(j.entries, a, x);
      assert HoldsFlip(j', base, a, x);
    }
  }

  lemma CoveredIsReached(r: Reach, j: Journaled, base: Mem, x: Addr)
    requires Describes(r, j, base) && !Reached(r.widths, x)
    ensures !Covered(j.entries, x)
  {
  }

  /** Recording a byte that was already written. */
  lemma DirtyRecordPoisons(r: Reach, j: Journaled, base: Mem, t: Touch, x: Addr)
    requires Flipped(r, j, base) && Records(base, r.widths, t) && Within(x, t.addr, t.width) && x in r.dirty
    ensures Poisoned(ReachAfter(base, r, t), WriteOne(j, t, FlippedData(base, t)), base, x)
  {
    assert HoldsFlip(WriteOne(j, t, FlippedData(base, t)), base, t.addr, x);
  }

  /** Writing a byte that no record covers. */
  lemma UncoveredWritePoisons(r: Reach, j: Journaled, base: Mem, t: Touch, x: Addr)
    requires Flipped(r, j, base) && Lands(base, t) && Within(x, t.addr, t.width)
    requires !Reached(ReachAfter(base, r, t).widths, x)
    ensures Poisoned(ReachAfter(base, r, t), WriteOne(j, t, FlippedData(base, t)), base, x)
  {
    DescribesAfter(r, j, base, t, FlippedData(base, t));
    CoveredIsReached(ReachAfter(base, r, t), WriteOne(j, t, FlippedData(base, t)), base, x);
  }

  /** The touch that breaks cleanliness leaves a poisoned byte. */
  lemma UncleanPoisons(r: Reach, j: Journaled, base: Mem, t: Touch) returns (x: Addr)
    requires Flipped(r, j, base) && !CleanTouch(base, r, t)
    ensures Poisoned(ReachAfter(base, r, t), WriteOne(j, t, FlippedData(base, t)), base, x)
  {
    if Records(base, r.widths, t) && exists y :: Within(y, t.addr, t.width) && y in r.dirty {
      x :| Within(x, t.addr, t.width) && x in r.dirty;
      DirtyRecordPoisons(r, j, base, t, x);
    } else {
      x :| Lands(base, t) && Within(x, t.addr, t.width) && !Reached(ReachAfter(base, r, t).widths, x);
      UncoveredWritePoisons(r, j, base, t, x);
    }
  }

  lemma PoisonedRun(r: Reach, j: Journaled, base: Mem, ts: seq<Touch>, poison: Option<Addr>)
    returns (data: seq<seq<Byte>>, r': Reach, x: Addr)
    requires Flipped(r, j, base)
    requires match poison case Some(y) => Poisoned(r, j, base, y) case None => !CleanSeries(base, r, ts)
    ensures Fits(ts, data)
    ensures Flipped(r', WriteAll(j, ts, data), base) && Poisoned(r', WriteAll(j, ts, data), base, x)
    decreases |ts|
  {
    if ts == [] { return [], r, poison.value; }
    var d := FlippedData(base, ts[0]);
    FlippedAfter(r, j, base, ts[0]);
    var next := poison;
    if poison.Some? {
      PoisonStays(r, j, base, ts[0], poison.value);
    } else if !CleanTouch(base, r, ts[0]) {
      var y := UncleanPoisons(r, j, base, ts[0]);
      next := Some(y);
    }
    data, r', x := PoisonedRun(ReachAfter(base, r, ts[0]), WriteOne(j, ts[0], d), base, ts[1..], next);
    data := [d] + data;
  }

  lemma Enumeration(s: set<Addr>) returns (order: seq<Addr>)
    ensures Distinct(order) && forall a :: a in order <==> a in s
  {
    order := [];
    var left := s;
    while left != {}
      invariant left <= s && Distinct(order) && forall a :: a in order <==> a in s && a !in left
    {
      var a :| a in left;
      order := order + [a];
      left := left - {a};
    }
  }

  /** Writing the poisoned record back last leaves its changed byte behind. */
  lemma PoisonLast(j: Journaled, base: Mem, a: Addr, x: Addr) returns (order: seq<Addr>)
    requires HoldsFlip(j, base, a, x) && Mapped(j.mem, a, |j.entries[a]|)
    ensures Enumerates(order, j.entries)
    ensures Revert(j.mem, j.entries, order, j.entries.Keys) != base
  {
    var keys := j.entries.Keys;
    var others := Enumeration(keys - {a});
    assert forall i :: 0 <= i < |others| ==> others[i] in others;
    var before := Revert(j.mem, j.entries, others, keys);
    RevertSnoc(j.mem, j.entries, others, a, keys);
    order := others + [a];
    assert Store(before, a, j.entries[a])[x] == Flip(base[x]);
  }

  lemma PoisonNotRestored(r: Reach, j: Journaled, base: Mem, x: Addr) returns (order: seq<Addr>)
    requires Flipped(r, j, base) && Poisoned(r, j, base, x)
    ensures Enumerates(order, j.entries)
    ensures Revert(j.mem, j.entries, order, j.entries.Keys) != base
  {
    if a :| HoldsFlip(j, base, a, x) {
      order := PoisonLast(j, base, a, x);
    } else {
      order := Enumeration(j.entries.Keys);
      assert forall i :: 0 <= i < |order| ==> order[i] in order;
      UncoveredUntouched(j.mem, j.entries, order, j.entries.Keys, x);
    }
  }

  lemma {:induction false} UncoveredUntouched(mem: Mem, entries: Entries, order: seq<Addr>, ok: set<Addr>, x: Addr)
    requires x in mem && !Covered(entries, x)
    requires forall i :: 0 <= i < |order| ==> order[i] in entries
    ensures Revert(mem, entries, order, ok)[x] == mem[x]
    decreases |order|
  {
    if order == [] {
    } else {
      var a := order[0];
      assert !Covers(entries, a, x);
      UncoveredUntouched(RawWrite(mem, a, entries[a], a in ok), entries, order[1..], ok, x);
    }
  }

  /** Reverting after the series with this data, in this order, gives `base` back. */
  ghost predicate RevertsTo(base: Mem, ts: seq<Touch>, data: seq<seq<Byte>>, order: seq<Addr>)
    requires Fits(ts, data)
  {
    var j := WriteAll(Journaled(base, map[]), ts, data);
    Enumerates(order, j.entries) ==> Revert(j.mem, j.entries, order, j.entries.Keys) == base
  }

  /**
   Exactly the clean series of journaled writes are undone by the revert for whatever data
   they wrote and in whatever order the journal map is iterated.
   */
  lemma RestoredExactlyWhenClean(base: Mem, ts: seq<Touch>)
    ensures CleanSeries(base, Reach(map[], {}), ts)
       <==> forall data, order :: Fits(ts, data) ==> RevertsTo(base, ts, data, order)
  {
    var r, j := Reach(map[], {}), Journaled(base, map[]);
    if CleanSeries(base, r, ts) {
      forall data, order | Fits(ts, data) ensures RevertsTo(base, ts, data, order) {
        var r' := CleanFaithful(r, j, base, ts, data);
        var end := WriteAll(j, ts, data);
        if Enumerates(order, end.entries) { FaithfulRestored(r', end, base, order); }
      }
    } else {
      var data, r', x := PoisonedRun(r, j, base, ts, None);
      var order := PoisonNotRestored(r', WriteAll(j, ts, data), base, x);
      assert !RevertsTo(base, ts, data, order);
    }
  }

  /** Overlapping first touches of two addresses can always end wrong: the second records what the first wrote. */
  lemma OverlapNotUndone(base: Mem, a: Addr, m: nat, b: Addr, n: nat, x: Addr)
    requires a != b && Mapped(base, a, m) && Mapped(base, b, n) && Within(x, a, m) && Within(x, b, n)
    ensures var ts := [Touch(a, m, true, true), Touch(b, n, true, true)];
            && !CleanSeries(base, Reach(map[], {}), ts)
            && exists data, order :: Fits(ts, data) && !RevertsTo(base, ts, data, order)
  {
    var ts := [Touch(a, m, true, true), Touch(b, n, true, true)];
    var r := ReachAfter(base, Reach(map[], {}), ts[0]);
    assert x in r.dirty && Records(base, r.widths, ts[1]) && !CleanTouch(base, r, ts[1]);
    assert ts[1..][0] == ts[1];
    assert !CleanSeries(base, r, ts[1..]);
    RestoredExactlyWhenClean(base, ts);
  }
}
