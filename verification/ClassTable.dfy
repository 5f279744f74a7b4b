/**
 The search for the class table (`find_class_table`): regions that touch are coalesced, then
 the densest maximal run of 8-byte slots that are null or point to a class is picked.
 */
module ClassTable {
  import opened Bytes

  type Interval = (nat, nat)

  /** What a slot holds: nothing yet, a pointer to a class-shaped struct, or anything else. */
  datatype Kind = Null | Class | Other

  // ----- coalescing -----

  predicate Sorted(regions: seq<Interval>) {
    && (forall i :: 0 <= i < |regions| ==> regions[i].0 < regions[i].1)
    && (forall i, j :: 0 <= i < j < |regions| ==> regions[i].1 <= regions[j].0)
  }

  predicate Covers(iv: Interval, x: nat) { iv.0 <= x < iv.1 }

  ghost predicate Covered(regions: seq<Interval>, x: nat) {
    exists i :: 0 <= i < |regions| && Covers(regions[i], x)
  }

  predicate NoneTouch(regions: seq<Interval>) {
    forall i, j :: 0 <= i < j < |regions| ==> regions[i].1 < regions[j].0
  }

  lemma CoveredSnoc(regions: seq<Interval>, r: Interval, x: nat)
    ensures Covered(regions + [r], x) <==> Covered(regions, x) || Covers(r, x)
  {
    var all := regions + [r];
    if Covered(regions, x) {
      var i :| 0 <= i < |regions| && Covers(regions[i], x);
      assert Covers(all[i], x);
    }
    if Covers(r, x) { assert Covers(all[|regions|], x); }
    if Covered(all, x) {
      var i :| 0 <= i < |all| && Covers(all[i], x);
      if i < |regions| { assert Covers(regions[i], x); }
    }
  }

  /** Stretching the last interval to the end of a region that touches it. */
  lemma StretchCovers(front: seq<Interval>, last: Interval, r: Interval, x: nat)
    requires last.0 < last.1 == r.0 < r.1
    ensures Covered(front + [(last.0, r.1)], x) <==> Covered(front + [last], x) || Covers(r, x)
  {
    CoveredSnoc(front, last, x);
    CoveredSnoc(front, (last.0, r.1), x);
  }

  /** The interval list after one more region. */
  function Absorb(merged: seq<Interval>, r: Interval): seq<Interval> {
    if merged != [] && merged[|merged| - 1].1 == r.0
    then merged[..|merged| - 1] + [(merged[|merged| - 1].0, r.1)]
    else merged + [r]
  }

  lemma AbsorbCovers(merged: seq<Interval>, r: Interval, x: nat)
    requires Sorted(merged) && r.0 < r.1
    ensures Covered(Absorb(merged, r), x) <==> Covered(merged, x) || Covers(r, x)
  {
    if merged != [] && merged[|merged| - 1].1 == r.0 {
      var k := |merged| - 1;
      assert merged == merged[..k] + [merged[k]];
      StretchCovers(merged[..k], merged[k], r, x);
    } else {
      CoveredSnoc(merged, r, x);
    }
  }

  lemma AbsorbKeeps(merged: seq<Interval>, r: Interval)
    requires Sorted(merged) && NoneTouch(merged) && r.0 < r.1
    requires merged != [] ==> merged[|merged| - 1].1 <= r.0
    ensures Sorted(Absorb(merged, r)) && NoneTouch(Absorb(merged, r))
  {
    if merged != [] && merged[|merged| - 1].1 == r.0 {
      WiderLast(merged, r.1);
    } else {
      OneMore(merged, r);
    }
  }

  lemma WiderLast(merged: seq<Interval>, end: nat)
    requires Sorted(merged) && NoneTouch(merged) && merged != [] && merged[|merged| - 1].1 < end
    ensures var wider := merged[..|merged| - 1] + [(merged[|merged| - 1].0, end)]; Sorted(wider) && NoneTouch(wider)
  {
  }

  lemma OneMore(merged: seq<Interval>, r: Interval)
    requires Sorted(merged) && NoneTouch(merged) && r.0 < r.1 && (merged != [] ==> merged[|merged| - 1].1 < r.0)
    ensures Sorted(merged + [r]) && NoneTouch(merged + [r])
  {
  }

  lemma AbsorbNext(merged: seq<Interval>, regions: seq<Interval>, i: nat)
    requires i < |regions| && Sorted(merged) && regions[i].0 < regions[i].1
    requires forall x: nat :: Covered(merged, x) <==> Covered(regions[..i], x)
    ensures forall x: nat :: Covered(Absorb(merged, regions[i]), x) <==> Covered(regions[..i + 1], x)
  {
    assert regions[..i + 1] == regions[..i] + [regions[i]];
    forall x: nat ensures Covered(Absorb(merged, regions[i]), x) <==> Covered(regions[..i + 1], x) {
      AbsorbCovers(merged, regions[i], x);
      CoveredSnoc(regions[..i], regions[i], x);
    }
  }

  /** The same addresses in the same order, with no two intervals touching. */
  method Coalesce(regions: seq<Interval>) returns (merged: seq<Interval>)
    requires Sorted(regions)
    ensures Sorted(merged) && NoneTouch(merged)
    ensures forall x: nat :: Covered(merged, x) <==> Covered(regions, x)
  {
    merged := [];
    var i := 0;
    while i < |regions|
      invariant i <= |regions| && Sorted(merged) && NoneTouch(merged)
      invariant merged != [] ==> i > 0 && merged[|merged| - 1].1 == regions[i - 1].1
      invariant forall x: nat :: Covered(merged, x) <==> Covered(regions[..i], x)
    {
      var r := regions[i];
      AbsorbKeeps(merged, r);
      AbsorbNext(merged, regions, i);
      var k := |merged| - 1;
      if merged != [] && merged[k].1 == r.0 {
        merged := merged[..k] + [(merged[k].0, r.1)];
      } else {
        merged := merged + [r];
      }
      i := i + 1;
    }
    assert regions[..|regions|] == regions;
  }

  // ----- runs -----

  type Memory = nat -> Kind

  function Slots(iv: Interval): nat { if iv.0 <= iv.1 then (iv.1 - iv.0) / 8 else 0 }

  function KindAt(mem: Memory, iv: Interval, k: nat): Kind { mem(iv.0 + 8 * k) }

  /** Slots lo..hi of the interval are all null or class. */
  ghost predicate IsRun(mem: Memory, iv: Interval, lo: nat, hi: nat) {
    lo < hi <= Slots(iv) && forall k: nat :: lo <= k < hi ==> KindAt(mem, iv, k) != Other
  }

  /** A run that cannot be extended on either side. */
  ghost predicate IsMaximal(mem: Memory, iv: Interval, lo: nat, hi: nat) {
    && IsRun(mem, iv, lo, hi)
    && (lo > 0 ==> KindAt(mem, iv, lo - 1) == Other)
    && (hi < Slots(iv) ==> KindAt(mem, iv, hi) == Other)
  }

  function Classes(mem: Memory, iv: Interval, lo: nat, hi: nat): nat
    decreases hi
  {
    if hi <= lo then 0 else Classes(mem, iv, lo, hi - 1) + if KindAt(mem, iv, hi - 1) == Class then 1 else 0
  }

  /** A run: its interval, its slots, its classes. */
  datatype Run = Run(iv: nat, lo: nat, hi: nat)

  ghost predicate Candidate(mem: Memory, ivs: seq<Interval>, r: Run) {
    r.iv < |ivs| && IsMaximal(mem, ivs[r.iv], r.lo, r.hi)
  }

  function Score(mem: Memory, ivs: seq<Interval>, r: Run): nat
    requires r.iv < |ivs|
  {
    Classes(mem, ivs[r.iv], r.lo, r.hi)
  }

  predicate Earlier(a: Run, b: Run) { a.iv < b.iv || (a.iv == b.iv && a.lo < b.lo) }

  /** Runs the scan has closed when it stands at slot `k` of interval `n`. */
  predicate Closed(r: Run, n: nat, k: nat) { r.iv < n || (r.iv == n && r.hi < k) }

  /** The best of the closed runs: none has more classes, none before it has as many. */
  ghost predicate BestOf(mem: Memory, ivs: seq<Interval>, min: nat, best: Option<Run>, n: nat, k: nat) {
    && (best.Some? ==> Candidate(mem, ivs, best.value) && Closed(best.value, n, k) && Score(mem, ivs, best.value) >= min)
    && (forall r :: Candidate(mem, ivs, r) && Closed(r, n, k) ==> Beaten(mem, ivs, min, best, r))
  }

  ghost predicate Beaten(mem: Memory, ivs: seq<Interval>, min: nat, best: Option<Run>, r: Run)
    requires r.iv < |ivs|
    requires best.Some? ==> best.value.iv < |ivs|
  {
    match best
    case None => Score(mem, ivs, r) < min
    case Some(b) =>
      Score(mem, ivs, r) <= Score(mem, ivs, b) && (Earlier(r, b) ==> Score(mem, ivs, r) < Score(mem, ivs, b))
  }

  /** The replacement rule of the scan: enough classes, and strictly more than the best so far. */
  predicate Improves(mem: Memory, ivs: seq<Interval>, min: nat, best: Option<Run>, r: Run)
    requires r.iv < |ivs|
    requires best.Some? ==> best.value.iv < |ivs|
  {
    Score(mem, ivs, r) >= min && (best.None? || Score(mem, ivs, r) > Score(mem, ivs, best.value))
  }

  /** The open run at slot `k`: where it started, if there is one. */
  ghost predicate OpenRun(mem: Memory, iv: Interval, open: bool, lo: nat, k: nat, classes: nat) {
    && k <= Slots(iv)
    && (open ==> IsRun(mem, iv, lo, k) && (lo > 0 ==> KindAt(mem, iv, lo - 1) == Other) && classes == Classes(mem, iv, lo, k))
    && (!open ==> k == 0 || KindAt(mem, iv, k - 1) == Other)
  }

  // ----- the scan -----

  /** Address, slots and classes of the best run, as the source keeps them. */
  type Best = Option<(nat, nat, nat)>

  ghost predicate Shows(mem: Memory, ivs: seq<Interval>, best: Best, run: Option<Run>) {
    match run
    case None => best.None?
    case Some(r) =>
      && r.iv < |ivs| && r.lo <= r.hi
      && best == Some((ivs[r.iv].0 + 8 * r.lo, r.hi - r.lo, Score(mem, ivs, r)))
  }

  /** The end of a run: replace the best if this one has enough classes and strictly more. */
  method Finish(mem: Memory, ivs: seq<Interval>, min: nat, best: Best, ghost run: Option<Run>,
                start: nat, slots: nat, classes: nat, ghost r: Run) returns (next: Best, ghost nextRun: Option<Run>)
    requires Shows(mem, ivs, best, run) && Shows(mem, ivs, Some((start, slots, classes)), Some(r))
    ensures Shows(mem, ivs, next, nextRun)
    ensures nextRun == if Improves(mem, ivs, min, run, r) then Some(r) else run
  {
    if classes >= min && (best.None? || classes > best.value.2) {
      next, nextRun := Some((start, slots, classes)), Some(r);
    } else {
      next, nextRun := best, run;
    }
  }

  /** The slot after the open run is something else: the run is closed. */
  method EndRun(mem: Memory, ivs: seq<Interval>, min: nat, best: Best, ghost run: Option<Run>,
                n: nat, ghost lo: nat, ghost k: nat, start: nat, slots: nat, classes: nat)
    returns (next: Best, ghost nextRun: Option<Run>)
    requires n < |ivs| && k < Slots(ivs[n]) && KindAt(mem, ivs[n], k) == Other
    requires OpenRun(mem, ivs[n], true, lo, k, classes) && start == ivs[n].0 + 8 * lo && slots == k - lo
    requires Shows(mem, ivs, best, run) && BestOf(mem, ivs, min, run, n, k)
    ensures Shows(mem, ivs, next, nextRun) && BestOf(mem, ivs, min, nextRun, n, k + 1)
  {
    CloseOpen(mem, ivs, min, run, n, lo, k, classes);
    next, nextRun := Finish(mem, ivs, min, best, run, start, slots, classes, Run(n, lo, k));
  }

  /** The interval ends: so does the open run, if there is one. */
  method EndInterval(mem: Memory, ivs: seq<Interval>, min: nat, best: Best, ghost run: Option<Run>, n: nat,
                     open: bool, ghost lo: nat, ghost k: nat, start: nat, slots: nat, classes: nat)
    returns (next: Best, ghost nextRun: Option<Run>)
    requires n < |ivs| && k == Slots(ivs[n]) && OpenRun(mem, ivs[n], open, lo, k, classes)
    requires open ==> start == ivs[n].0 + 8 * lo && slots == k - lo
    requires Shows(mem, ivs, best, run) && BestOf(mem, ivs, min, run, n, k)
    ensures Shows(mem, ivs, next, nextRun) && BestOf(mem, ivs, min, nextRun, n + 1, 0)
  {
    if open {
      CloseLast(mem, ivs, min, run, n, lo, k, classes);
      next, nextRun := Finish(mem, ivs, min, best, run, start, slots, classes, Run(n, lo, k));
    } else {
      NothingLast(mem, ivs, min, run, n, lo, k, classes);
      next, nextRun := best, run;
    }
  }

  /** A null or class slot opens a run or goes on with the open one. */
  lemma GrowRun(mem: Memory, iv: Interval, open: bool, lo: nat, k: nat, classes: nat)
    requires OpenRun(mem, iv, open, lo, k, classes) && k < Slots(iv) && KindAt(mem, iv, k) != Other
    ensures var from, had := if open then lo else k, if open then classes else 0;
            OpenRun(mem, iv, true, from, k + 1, had + if KindAt(mem, iv, k) == Class then 1 else 0)
  {
  }

  /** A null or class slot: the open run goes on, or one opens here. */
  method OpenSlot(mem: Memory, ivs: seq<Interval>, min: nat, ghost run: Option<Run>, n: nat,
                  a: nat, open: bool, ghost lo: nat, ghost k: nat, start: nat, slots: nat, classes: nat)
    returns (runStart: nat, runSlots: nat, runClasses: nat, ghost from: nat)
    requires n < |ivs| && k < Slots(ivs[n]) && KindAt(mem, ivs[n], k) != Other && a == ivs[n].0 + 8 * k
    requires OpenRun(mem, ivs[n], open, lo, k, classes) && BestOf(mem, ivs, min, run, n, k)
    requires open ==> start == ivs[n].0 + 8 * lo && slots == k - lo
    ensures OpenRun(mem, ivs[n], true, from, k + 1, runClasses) && BestOf(mem, ivs, min, run, n, k + 1)
    ensures from == (if open then lo else k) && runStart == ivs[n].0 + 8 * from && runSlots == k + 1 - from
  {
    KeepOpen(mem, ivs, min, run, n, k);
    GrowRun(mem, ivs[n], open, lo, k, classes);
    runStart, runSlots, runClasses, from := start, slots, classes, lo;
    if !open { runStart, runSlots, runClasses, from := a, 0, 0, k; }
    runSlots := runSlots + 1;
    if mem(a) == Class { runClasses := runClasses + 1; }
  }

  /** The first slot of the run that is open at slot `k`. */
  function OpenStart(mem: Memory, iv: Interval, k: nat): Option<nat>
    decreases k
  {
    if k == 0 || KindAt(mem, iv, k - 1) == Other then None
    else if OpenStart(mem, iv, k - 1).Some? then OpenStart(mem, iv, k - 1) else Some(k - 1)
  }

  lemma {:induction false} OpenStartRun(mem: Memory, iv: Interval, k: nat, open: bool, lo: nat, classes: nat)
    requires k <= Slots(iv) && open == OpenStart(mem, iv, k).Some?
    requires open ==> lo == OpenStart(mem, iv, k).value && lo <= k && classes == Classes(mem, iv, lo, k)
    ensures OpenRun(mem, iv, open, lo, k, classes)
    decreases k
  {
    if !open {
    } else if OpenStart(mem, iv, k - 1).Some? {
      OpenStartBelow(mem, iv, k - 1);
      OpenStartRun(mem, iv, k - 1, true, lo, Classes(mem, iv, lo, k - 1));
    } else {
      assert k - 1 == 0 || KindAt(mem, iv, k - 2) == Other;
    }
  }

  lemma {:induction false} OpenStartBelow(mem: Memory, iv: Interval, k: nat)
    requires OpenStart(mem, iv, k).Some?
    ensures OpenStart(mem, iv, k).value < k
    decreases k
  {
    if OpenStart(mem, iv, k - 1).None? {
    } else {
      OpenStartBelow(mem, iv, k - 1);
    }
  }

  /** Where the scan of interval `n` stands at slot `k`: the open run and the best of the closed ones. */
  ghost predicate ScanAt(mem: Memory, ivs: seq<Interval>, min: nat, n: nat, k: nat, best: Best, run: Option<Run>,
                         open: bool, lo: nat, start: nat, slots: nat, classes: nat)
    requires n < |ivs|
  {
    && open == OpenStart(mem, ivs[n], k).Some?
    && (open ==> lo == OpenStart(mem, ivs[n], k).value && lo <= k && classes == Classes(mem, ivs[n], lo, k))
    && (open ==> start == ivs[n].0 + 8 * lo && slots == k - lo)
    && Shows(mem, ivs, best, run) && BestOf(mem, ivs, min, run, n, k)
  }

  /** One slot: it opens or extends a run, ends the open one, or does nothing. */
  method ScanSlot(mem: Memory, ivs: seq<Interval>, min: nat, n: nat, ghost k: nat, a: nat, best0: Best, ghost run0: Option<Run>,
                  open0: bool, ghost lo0: nat, start0: nat, slots0: nat, classes0: nat)
    returns (best: Best, ghost run: Option<Run>, open: bool, ghost lo: nat, start: nat, slots: nat, classes: nat)
    requires n < |ivs| && k < Slots(ivs[n]) && a == ivs[n].0 + 8 * k
    requires ScanAt(mem, ivs, min, n, k, best0, run0, open0, lo0, start0, slots0, classes0)
    ensures ScanAt(mem, ivs, min, n, k + 1, best, run, open, lo, start, slots, classes)
  {
    best, run, open, lo, start, slots, classes := best0, run0, open0, lo0, start0, slots0, classes0;
    var slot := mem(a);
    assert slot == KindAt(mem, ivs[n], k);
    OpenStartRun(mem, ivs[n], k, open, lo, classes);
    if slot != Other {
      start, slots, classes, lo := OpenSlot(mem, ivs, min, run, n, a, open, lo, k, start, slots, classes);
      open := true;
    } else if open {
      best, run := EndRun(mem, ivs, min, best, run, n, lo, k, start, slots, classes);
      open := false;
    } else {
      NothingOpen(mem, ivs, min, run, n, lo, k, classes);
    }
  }

  lemma SlotInside(iv: Interval, k: nat)
    requires iv.0 <= iv.1 && k <= Slots(iv)
    ensures iv.0 + 8 * k + 8 <= iv.1 <==> k < Slots(iv)
  {
  }

  /** The slots of one interval. */
  method ScanSlots(mem: Memory, ivs: seq<Interval>, n: nat, min: nat, best0: Best, ghost run0: Option<Run>)
    returns (best: Best, ghost run: Option<Run>, inRun: bool, ghost lo: nat, runStart: nat, runSlots: nat, runClasses: nat)
    requires n < |ivs| && ivs[n].0 <= ivs[n].1
    requires ScanAt(mem, ivs, min, n, 0, best0, run0, false, 0, 0, 0, 0)
    ensures ScanAt(mem, ivs, min, n, Slots(ivs[n]), best, run, inRun, lo, runStart, runSlots, runClasses)
  {
    best, run := best0, run0;
    runStart, runSlots, runClasses, inRun, lo := 0, 0, 0, false, 0;
    var a, end := ivs[n].0, ivs[n].1;
    ghost var k := 0;
    while a + 8 <= end
      invariant a == ivs[n].0 + 8 * k && k <= Slots(ivs[n])
      invariant ScanAt(mem, ivs, min, n, k, best, run, inRun, lo, runStart, runSlots, runClasses)
      decreases Slots(ivs[n]) - k
    {
      SlotInside(ivs[n], k);
      best, run, inRun, lo, runStart, runSlots, runClasses :=
        ScanSlot(mem, ivs, min, n, k, a, best, run, inRun, lo, runStart, runSlots, runClasses);
      a, k := a + 8, k + 1;
    }
    SlotInside(ivs[n], k);
  }

  method ScanInterval(mem: Memory, ivs: seq<Interval>, n: nat, min: nat, best0: Best, ghost run0: Option<Run>)
    returns (best: Best, ghost run: Option<Run>)
    requires n < |ivs| && ivs[n].0 <= ivs[n].1
    requires Shows(mem, ivs, best0, run0) && BestOf(mem, ivs, min, run0, n, 0)
    ensures Shows(mem, ivs, best, run) && BestOf(mem, ivs, min, run, n + 1, 0)
  {
    var inRun, runStart, runSlots, runClasses;
    ghost var lo;
    best, run, inRun, lo, runStart, runSlots, runClasses := ScanSlots(mem, ivs, n, min, best0, run0);
    OpenStartRun(mem, ivs[n], Slots(ivs[n]), inRun, lo, runClasses);
    best, run := EndInterval(mem, ivs, min, best, run, n, inRun, lo, Slots(ivs[n]), runStart, runSlots, runClasses);
  }

  /** A run that goes on past slot `k` is not closed by slot `k`. */
  lemma KeepOpen(mem: Memory, ivs: seq<Interval>, min: nat, run: Option<Run>, n: nat, k: nat)
    requires n < |ivs| && k < Slots(ivs[n]) && KindAt(mem, ivs[n], k) != Other
    requires BestOf(mem, ivs, min, run, n, k)
    ensures BestOf(mem, ivs, min, run, n, k + 1)
  {
  }

  lemma CloseOpen(mem: Memory, ivs: seq<Interval>, min: nat, run: Option<Run>, n: nat, lo: nat, k: nat, classes: nat)
    requires n < |ivs| && k < Slots(ivs[n]) && KindAt(mem, ivs[n], k) == Other
    requires OpenRun(mem, ivs[n], true, lo, k, classes) && BestOf(mem, ivs, min, run, n, k)
    ensures BestOf(mem, ivs, min, if Improves(mem, ivs, min, run, Run(n, lo, k)) then Some(Run(n, lo, k)) else run, n, k + 1)
  {
  }

  lemma NothingOpen(mem: Memory, ivs: seq<Interval>, min: nat, run: Option<Run>, n: nat, lo: nat, k: nat, classes: nat)
    requires n < |ivs| && k < Slots(ivs[n])
    requires OpenRun(mem, ivs[n], false, lo, k, classes) && BestOf(mem, ivs, min, run, n, k)
    ensures BestOf(mem, ivs, min, run, n, k + 1)
  {
  }

  lemma CloseLast(mem: Memory, ivs: seq<Interval>, min: nat, run: Option<Run>, n: nat, lo: nat, k: nat, classes: nat)
    requires n < |ivs| && k == Slots(ivs[n])
    requires OpenRun(mem, ivs[n], true, lo, k, classes) && BestOf(mem, ivs, min, run, n, k)
    ensures BestOf(mem, ivs, min, if Improves(mem, ivs, min, run, Run(n, lo, k)) then Some(Run(n, lo, k)) else run, n + 1, 0)
  {
  }

  lemma NothingLast(mem: Memory, ivs: seq<Interval>, min: nat, run: Option<Run>, n: nat, lo: nat, k: nat, classes: nat)
    requires n < |ivs| && k == Slots(ivs[n])
    requires OpenRun(mem, ivs[n], false, lo, k, classes) && BestOf(mem, ivs, min, run, n, k)
    ensures BestOf(mem, ivs, min, run, n + 1, 0)
  {
  }

  /** Result of the search: nothing reaches the minimum, or the first of the densest runs. */
  ghost predicate FirstDensest(mem: Memory, ivs: seq<Interval>, min: nat, run: Option<Run>) {
    && (run.Some? ==> Candidate(mem, ivs, run.value) && Score(mem, ivs, run.value) >= min)
    && (forall r :: Candidate(mem, ivs, r) ==> Beaten(mem, ivs, min, run, r))
  }

  /** The intervals are the regions with touching ones joined. */
  ghost predicate Joined(ivs: seq<Interval>, regions: seq<Interval>) {
    Sorted(ivs) && NoneTouch(ivs) && forall x: nat :: Covered(ivs, x) <==> Covered(regions, x)
  }

  /** The address and size of the first of the densest runs, or nothing. */
  ghost predicate IsTable(mem: Memory, ivs: seq<Interval>, min: nat, table: Option<(nat, nat)>) {
    exists run: Option<Run> :: FirstDensest(mem, ivs, min, run) && Answers(ivs, table, run)
  }

  predicate Answers(ivs: seq<Interval>, table: Option<(nat, nat)>, run: Option<Run>) {
    match run
    case None => table.None?
    case Some(r) => r.iv < |ivs| && r.lo <= r.hi && table == Some((ivs[r.iv].0 + 8 * r.lo, r.hi - r.lo))
  }

  /** `find_class_table` over the first `maxScan` captured regions. */
  method FindClassTable(regions: seq<Interval>, maxScan: nat, min: nat, mem: Memory) returns (table: Option<(nat, nat)>)
    requires Sorted(regions)
    ensures var taken := if |regions| <= maxScan then regions else regions[..maxScan];
            exists ivs :: Joined(ivs, taken) && IsTable(mem, ivs, min, table)
  {
    var merged := Coalesce(if |regions| <= maxScan then regions else regions[..maxScan]);
    ghost var run := None;
    var best: Best := None;
    var n := 0;
    while n < |merged|
      invariant n <= |merged| && Shows(mem, merged, best, run) && BestOf(mem, merged, min, run, n, 0)
    {
      best, run := ScanInterval(mem, merged, n, min, best, run);
      n := n + 1;
    }
    table := if best.None? then None else Some((best.value.0, best.value.1));
    TableShown(mem, merged, min, best, run);
  }

  lemma TableShown(mem: Memory, ivs: seq<Interval>, min: nat, best: Best, run: Option<Run>)
    requires Shows(mem, ivs, best, run) && BestOf(mem, ivs, min, run, |ivs|, 0)
    ensures IsTable(mem, ivs, min, if best.None? then None else Some((best.value.0, best.value.1)))
  {
    assert FirstDensest(mem, ivs, min, run);
  }

  /** Every run lies inside a maximal one, which has at least as many classes. */
  lemma RunInMaximal(mem: Memory, iv: Interval, lo: nat, hi: nat) returns (a: nat, b: nat)
    requires IsRun(mem, iv, lo, hi)
    ensures a <= lo && hi <= b && IsMaximal(mem, iv, a, b)
    ensures Classes(mem, iv, lo, hi) <= Classes(mem, iv, a, b)
  {
    a, b := lo, hi;
    while a > 0 && KindAt(mem, iv, a - 1) != Other
      invariant a <= lo && IsRun(mem, iv, a, hi)
    {
      a := a - 1;
    }
    while b < Slots(iv) && KindAt(mem, iv, b) != Other
      invariant hi <= b && IsRun(mem, iv, a, b)
      decreases Slots(iv) - b
    {
      b := b + 1;
    }
    ClassesGrow(mem, iv, lo, hi, a, b);
  }

  lemma {:induction false} ClassesGrow(mem: Memory, iv: Interval, lo: nat, hi: nat, a: nat, b: nat)
    requires a <= lo && hi <= b
    ensures Classes(mem, iv, lo, hi) <= Classes(mem, iv, a, b)
    decreases b
  {
    if b > hi {
      ClassesGrow(mem, iv, lo, hi, a, b - 1);
    } else if hi > lo {
      ClassesGrow(mem, iv, lo, hi - 1, a, hi - 1);
    }
  }

  /** No run at all, maximal or not, has more classes than the one found. */
  lemma NoDenserRun(mem: Memory, ivs: seq<Interval>, min: nat, run: Option<Run>, n: nat, lo: nat, hi: nat)
    requires FirstDensest(mem, ivs, min, run) && n < |ivs| && IsRun(mem, ivs[n], lo, hi)
    ensures match run
            case None => Classes(mem, ivs[n], lo, hi) < min
            case Some(r) => Classes(mem, ivs[n], lo, hi) <= Score(mem, ivs, r)
  {
    var a, b := RunInMaximal(mem, ivs[n], lo, hi);
    assert Candidate(mem, ivs, Run(n, a, b));
  }

  // ----- the answer in terms of addresses -----

  function KindOf(mem: Memory, addr: nat, k: nat): Kind { mem(addr + 8 * k) }

  /** The class pointers among `slots` slots from `addr` on. */
  function ClassSlots(mem: Memory, addr: nat, slots: nat): set<nat> {
    set k: nat | k < slots && KindOf(mem, addr, k) == Class
  }

  /** Inside interval `n`, in step with its start, `slots` slots from `addr` are null or class pointers. */
  ghost predicate RunIn(mem: Memory, ivs: seq<Interval>, n: nat, addr: nat, slots: nat) {
    && n < |ivs| && ivs[n].0 <= addr && (addr - ivs[n].0) % 8 == 0 && slots > 0 && addr + 8 * slots <= ivs[n].1
    && forall k: nat :: k < slots ==> KindOf(mem, addr, k) != Other
  }

  lemma ClassSlotsStep(mem: Memory, addr: nat, k: nat)
    ensures |ClassSlots(mem, addr, k + 1)| == |ClassSlots(mem, addr, k)| + if KindOf(mem, addr, k) == Class then 1 else 0
  {
    assert ClassSlots(mem, addr, k + 1) ==
           ClassSlots(mem, addr, k) + if KindOf(mem, addr, k) == Class then {k} else {};
  }

  lemma {:induction false} ClassesCounted(mem: Memory, iv: Interval, lo: nat, slots: nat)
    ensures |ClassSlots(mem, iv.0 + 8 * lo, slots)| == Classes(mem, iv, lo, lo + slots)
    decreases slots
  {
    if slots == 0 {
      assert ClassSlots(mem, iv.0 + 8 * lo, 0) == {};
    } else {
      ClassesCounted(mem, iv, lo, slots - 1);
      ClassSlotsStep(mem, iv.0 + 8 * lo, slots - 1);
      assert KindAt(mem, iv, lo + slots - 1) == KindOf(mem, iv.0 + 8 * lo, slots - 1);
    }
  }

  /** A run by addresses is a run by slots of its interval. */
  lemma RunInSlots(mem: Memory, ivs: seq<Interval>, n: nat, addr: nat, slots: nat) returns (lo: nat)
    requires RunIn(mem, ivs, n, addr, slots)
    ensures addr == ivs[n].0 + 8 * lo && IsRun(mem, ivs[n], lo, lo + slots)
    ensures |ClassSlots(mem, addr, slots)| == Classes(mem, ivs[n], lo, lo + slots)
  {
    lo := (addr - ivs[n].0) / 8;
    ClassesCounted(mem, ivs[n], lo, slots);
    forall k: nat | lo <= k < lo + slots ensures KindAt(mem, ivs[n], k) != Other {
      assert KindOf(mem, addr, k - lo) != Other;
    }
  }

  lemma SlotsRunIn(mem: Memory, ivs: seq<Interval>, n: nat, lo: nat, hi: nat)
    requires n < |ivs| && ivs[n].0 <= ivs[n].1 && IsRun(mem, ivs[n], lo, hi)
    ensures RunIn(mem, ivs, n, ivs[n].0 + 8 * lo, hi - lo)
    ensures |ClassSlots(mem, ivs[n].0 + 8 * lo, hi - lo)| == Classes(mem, ivs[n], lo, hi)
  {
    ClassesCounted(mem, ivs[n], lo, hi - lo);
    var (addr, slots) := (ivs[n].0 + 8 * lo, hi - lo);
    forall k: nat | k < slots ensures KindOf(mem, addr, k) != Other {
      assert KindAt(mem, ivs[n], lo + k) != Other;
    }
  }

  /** Nothing found means no run has `min` class pointers. */
  lemma NoTable(mem: Memory, ivs: seq<Interval>, min: nat, n: nat, addr: nat, slots: nat)
    requires IsTable(mem, ivs, min, None) && RunIn(mem, ivs, n, addr, slots)
    ensures |ClassSlots(mem, addr, slots)| < min
  {
    var lo := RunInSlots(mem, ivs, n, addr, slots);
    NoDenserRun(mem, ivs, min, None, n, lo, lo + slots);
  }

  /** The run behind a table that was found. */
  lemma RunShown(mem: Memory, ivs: seq<Interval>, min: nat, table: (nat, nat)) returns (run: Run)
    requires IsTable(mem, ivs, min, Some(table))
    ensures FirstDensest(mem, ivs, min, Some(run)) && table == (ivs[run.iv].0 + 8 * run.lo, run.hi - run.lo)
  {
    var r: Option<Run> :| FirstDensest(mem, ivs, min, r) && Answers(ivs, Some(table), r);
    run := r.value;
  }

  lemma CannotGrow(mem: Memory, ivs: seq<Interval>, n: nat, lo: nat, hi: nat)
    requires n < |ivs| && IsMaximal(mem, ivs[n], lo, hi)
    ensures !RunIn(mem, ivs, n, ivs[n].0 + 8 * lo, hi - lo + 1)
  {
    if RunIn(mem, ivs, n, ivs[n].0 + 8 * lo, hi - lo + 1) {
      var from := RunInSlots(mem, ivs, n, ivs[n].0 + 8 * lo, hi - lo + 1);
    }
  }

  lemma CannotStartBefore(mem: Memory, ivs: seq<Interval>, n: nat, lo: nat, hi: nat, addr: nat)
    requires n < |ivs| && IsMaximal(mem, ivs[n], lo, hi) && addr + 8 == ivs[n].0 + 8 * lo
    ensures !RunIn(mem, ivs, n, addr, hi - lo + 1)
  {
    if RunIn(mem, ivs, n, addr, hi - lo + 1) {
      var from := RunInSlots(mem, ivs, n, addr, hi - lo + 1);
    }
  }

  lemma MaximalIsRun(mem: Memory, ivs: seq<Interval>, run: Run, table: (nat, nat))
    requires Sorted(ivs) && Candidate(mem, ivs, run) && table == (ivs[run.iv].0 + 8 * run.lo, run.hi - run.lo)
    ensures RunIn(mem, ivs, run.iv, table.0, table.1)
    ensures |ClassSlots(mem, table.0, table.1)| == Score(mem, ivs, run)
    ensures !RunIn(mem, ivs, run.iv, table.0, table.1 + 1)
  {
    SlotsRunIn(mem, ivs, run.iv, run.lo, run.hi);
    CannotGrow(mem, ivs, run.iv, run.lo, run.hi);
  }

  /** A table found is a run with at least `min` class pointers that cannot be made longer. */
  lemma TableIsRun(mem: Memory, ivs: seq<Interval>, min: nat, table: (nat, nat)) returns (n: nat)
    requires Sorted(ivs) && IsTable(mem, ivs, min, Some(table))
    ensures RunIn(mem, ivs, n, table.0, table.1) && |ClassSlots(mem, table.0, table.1)| >= min
    ensures !RunIn(mem, ivs, n, table.0, table.1 + 1)
    ensures table.0 >= 8 ==> !RunIn(mem, ivs, n, table.0 - 8, table.1 + 1)
  {
    var run := RunShown(mem, ivs, min, table);
    n := run.iv;
    MaximalIsRun(mem, ivs, run, table);
    if table.0 >= 8 { CannotStartBefore(mem, ivs, n, run.lo, run.hi, table.0 - 8); }
  }

  /** A run has no more classes than the best one, and fewer if it starts before it. */
  lemma RunBeaten(mem: Memory, ivs: seq<Interval>, min: nat, best: Run, n: nat, lo: nat, hi: nat)
    requires Sorted(ivs) && FirstDensest(mem, ivs, min, Some(best)) && n < |ivs| && IsRun(mem, ivs[n], lo, hi)
    ensures Classes(mem, ivs[n], lo, hi) <= Score(mem, ivs, best)
    ensures n < best.iv || (n == best.iv && lo < best.lo) ==> Classes(mem, ivs[n], lo, hi) < Score(mem, ivs, best)
  {
    var a, b := RunInMaximal(mem, ivs[n], lo, hi);
    var r := Run(n, a, b);
    assert Candidate(mem, ivs, r);
    assert Beaten(mem, ivs, min, Some(best), r);
  }

  lemma StartsEarlier(ivs: seq<Interval>, n: nat, lo: nat, m: nat, at: nat)
    requires Sorted(ivs) && n < |ivs| && m < |ivs| && ivs[n].0 + 8 * lo < ivs[m].0 + 8 * at < ivs[m].1
    ensures n < m || (n == m && lo < at)
  {
  }

  lemma FewerBefore(mem: Memory, ivs: seq<Interval>, min: nat, best: Run, table: (nat, nat), n: nat, addr: nat, slots: nat)
    requires Sorted(ivs) && FirstDensest(mem, ivs, min, Some(best)) && RunIn(mem, ivs, n, addr, slots)
    requires RunIn(mem, ivs, best.iv, table.0, table.1) && table.0 == ivs[best.iv].0 + 8 * best.lo
    ensures |ClassSlots(mem, addr, slots)| <= Score(mem, ivs, best)
    ensures addr < table.0 ==> |ClassSlots(mem, addr, slots)| < Score(mem, ivs, best)
  {
    var lo := RunInSlots(mem, ivs, n, addr, slots);
    RunBeaten(mem, ivs, min, best, n, lo, lo + slots);
    if addr < table.0 { StartsEarlier(ivs, n, lo, best.iv, best.lo); }
  }

  /** No run has more class pointers than the table found, and one that starts before it has fewer. */
  lemma TableIsFirstDensest(mem: Memory, ivs: seq<Interval>, min: nat, table: (nat, nat), n: nat, addr: nat, slots: nat)
    requires Sorted(ivs) && IsTable(mem, ivs, min, Some(table)) && RunIn(mem, ivs, n, addr, slots)
    ensures |ClassSlots(mem, addr, slots)| <= |ClassSlots(mem, table.0, table.1)|
    ensures addr < table.0 ==> |ClassSlots(mem, addr, slots)| < |ClassSlots(mem, table.0, table.1)|
  {
    var run := RunShown(mem, ivs, min, table);
    MaximalIsRun(mem, ivs, run, table);
    FewerBefore(mem, ivs, min, run, table, n, addr, slots);
  }
}
