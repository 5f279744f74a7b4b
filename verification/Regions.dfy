/**
 The index of readable memory (`region_map.rs`): a walk of the page oracle builds a sorted list
 of regions, a binary search answers whether a range lies inside one.
 */
module Regions {
  import opened Bytes

  const USIZE_MAX: nat := U64_LIMIT - 1

  /** Answer of `VirtualQuery`: the run of equal pages around the address. */
  datatype Pages = Pages(base: nat, size: nat, committed: bool, protect: bv32)

  datatype Region = Region(start: nat, end: nat, protect: bv32)

  const READ_MASK: bv32 := 0xEE
  const GUARD: bv32 := 0x100

  predicate IsReadable(protect: bv32) {
    protect & READ_MASK != 0 && protect & GUARD == 0
  }

  predicate Wanted(p: Pages) { p.committed && IsReadable(p.protect) && p.size >= 8 }

  /**
   What is indexed: committed runs of at least eight bytes whose protection is one of the readable
   ones (read-only, read-write, write-copy, each also executable) without the guard bit.
   */
  lemma WantedExactly(p: Pages)
    ensures Wanted(p) <==>
            && p.committed && p.size >= 8 && p.protect & 0x100 == 0
            && (|| p.protect & 0x02 != 0 || p.protect & 0x04 != 0 || p.protect & 0x08 != 0
                || p.protect & 0x20 != 0 || p.protect & 0x40 != 0 || p.protect & 0x80 != 0)
  {
  }

  predicate Contains(r: Region, x: nat) { r.start <= x < r.end }

  ghost predicate InSome(regions: seq<Region>, x: nat) {
    exists i :: 0 <= i < |regions| && Contains(regions[i], x)
  }

  /** Ascending, disjoint, none empty, below the top of the address space. */
  predicate SortedDisjoint(regions: seq<Region>) {
    && (forall i :: 0 <= i < |regions| ==> regions[i].start < regions[i].end <= USIZE_MAX)
    && (forall i, j :: 0 <= i < j < |regions| ==> regions[i].end <= regions[j].start)
  }

  type Oracle = nat -> Option<Pages>

  predicate Machine(p: Pages) { p.base <= USIZE_MAX && p.size <= USIZE_MAX }

  /** Answers are machine words. */
  ghost predicate MachineOracle(query: Oracle) {
    forall a: nat :: query(a).Some? ==> Machine(query(a).value)
  }

  ghost predicate Around(query: Oracle, a: nat, p: Pages) {
    && p.base <= a < p.base + p.size <= USIZE_MAX
    && forall b: nat :: p.base <= b < p.base + p.size ==> query(b) == Some(p)
  }

  /** Each answered address lies in the run it is answered with, and the run answers alike everywhere. */
  ghost predicate Partitions(query: Oracle) {
    forall a: nat :: query(a).Some? ==> Around(query, a, query(a).value)
  }

  function SaturatingAdd(a: nat, b: nat): (r: nat)
    ensures r <= a + b && r < U64_LIMIT && (r == a + b || r + 1 == U64_LIMIT)
  {
    if a + b > USIZE_MAX then USIZE_MAX else a + b
  }

  /** Stable insertion by start address, as `sort_by_key` orders. */
  function Insert(r: Region, sorted: seq<Region>): seq<Region> {
    if sorted == [] || r.start <= sorted[0].start then [r] + sorted
    else [sorted[0]] + Insert(r, sorted[1..])
  }

  function SortByStart(regions: seq<Region>): seq<Region> {
    if regions == [] then [] else Insert(regions[0], SortByStart(regions[1..]))
  }

  lemma {:induction false} SortedStays(regions: seq<Region>)
    requires SortedDisjoint(regions)
    ensures SortByStart(regions) == regions
  {
    if regions == [] {
    } else {
      SortedStays(regions[1..]);
      assert regions == [regions[0]] + regions[1..];
    }
  }

  /** Region `r` is one whole readable run of pages. */
  ghost predicate IsRun(query: Oracle, r: Region) {
    r.start <= r.end && query(r.start) == Some(Pages(r.start, r.end - r.start, true, r.protect))
  }

  ghost predicate Decided(query: Oracle, regions: seq<Region>, a: nat) {
    query(a).Some? && (Wanted(query(a).value) <==> InSome(regions, a))
  }

  /** Below `limit`, the list holds exactly the wanted addresses. */
  ghost predicate Indexed(query: Oracle, regions: seq<Region>, limit: nat) {
    && (forall a: nat :: a < limit ==> Decided(query, regions, a))
    && (forall i :: 0 <= i < |regions| ==> regions[i].end <= limit && IsRun(query, regions[i]))
  }

  /** The list so far is right and `addr` starts a new run. */
  ghost predicate Walked(query: Oracle, regions: seq<Region>, addr: nat) {
    SortedDisjoint(regions) && Indexed(query, regions, addr) && Boundary(query, addr)
  }

  /** No run of pages straddles `addr`. */
  ghost predicate Boundary(query: Oracle, addr: nat) {
    addr == 0 || (query(addr - 1).Some? && query(addr - 1).value.base + query(addr - 1).value.size == addr)
  }

  /**
   The walk. It ends for every oracle; when the oracle partitions the address space, the list is
   sorted and disjoint and indexes every address below where the walk stopped: the end of the
   answered addresses, or the region budget.
   */
  method Capture(query: Oracle, maxRegions: nat) returns (regions: seq<Region>, ghost limit: nat)
    requires MachineOracle(query)
    ensures |regions| <= maxRegions || |regions| == 1
    ensures Partitions(query) ==> SortedDisjoint(regions) && Indexed(query, regions, limit)
    ensures Partitions(query) ==> query(limit).None? || |regions| >= maxRegions
  {
    var found: seq<Region> := [];
    var addr := 0;
    limit := 0;
    while true
      invariant addr <= USIZE_MAX && limit == addr
      invariant |found| < maxRegions || |found| == 0
      invariant Partitions(query) ==> Walked(query, found, addr)
      decreases USIZE_MAX - addr
    {
      var answer := query(addr);
      if answer.None? { break; }
      assert Machine(answer.value);
      var next := SaturatingAdd(answer.value.base, answer.value.size);
      WalkOn(query, found, addr, answer.value);
      limit := next;
      if Wanted(answer.value) {
        found := found + [Region(answer.value.base, next, answer.value.protect)];
        if |found| >= maxRegions { break; }
      }
      if next <= addr { break; }
      addr := next;
    }
    if Partitions(query) { SortedStays(found); }
    SortLength(found);
    regions := SortByStart(found);
  }

  /** One answer extends the walk by the run it describes. */
  lemma WalkOn(query: Oracle, regions: seq<Region>, addr: nat, p: Pages)
    requires query(addr) == Some(p) && (Partitions(query) ==> Walked(query, regions, addr))
    ensures Partitions(query) ==>
      var next := SaturatingAdd(p.base, p.size);
      addr < next && Walked(query, if Wanted(p) then regions + [Region(p.base, next, p.protect)] else regions, next)
  {
    if Partitions(query) {
      assert Around(query, addr, p);
      BoundaryStarts(query, addr);
      if Wanted(p) {
        WalkOnWanted(query, regions, addr, p);
      } else {
        forall a: nat | a < p.base + p.size ensures Decided(query, regions, a) {
          if a >= addr {
            assert query(a) == Some(p);
            assert !InSome(regions, a);
          }
        }
        assert query(p.base + p.size - 1) == Some(p);
      }
    }
  }

  lemma InSomeSnoc(regions: seq<Region>, r: Region, x: nat)
    ensures InSome(regions + [r], x) <==> InSome(regions, x) || Contains(r, x)
  {
    var all := regions + [r];
    if InSome(regions, x) {
      var i :| 0 <= i < |regions| && Contains(regions[i], x);
      assert Contains(all[i], x);
    }
    if Contains(r, x) { assert Contains(all[|regions|], x); }
    if InSome(all, x) {
      var i :| 0 <= i < |all| && Contains(all[i], x);
      if i < |regions| { assert Contains(regions[i], x); }
    }
  }

  lemma WalkOnWanted(query: Oracle, regions: seq<Region>, addr: nat, p: Pages)
    requires Walked(query, regions, addr) && query(addr) == Some(p) && p.base == addr && Around(query, addr, p) && Wanted(p)
    ensures Walked(query, regions + [Region(p.base, p.base + p.size, p.protect)], p.base + p.size)
  {
    var r := Region(p.base, p.base + p.size, p.protect);
    var next := p.base + p.size;
    forall a: nat | a < next ensures Decided(query, regions + [r], a) {
      InSomeSnoc(regions, r, a);
      if a < addr {
        assert Decided(query, regions, a);
      } else {
        assert query(a) == Some(p);
      }
    }
    assert query(next - 1) == Some(p);
    assert IsRun(query, r);
  }

  lemma {:induction false} SortLength(regions: seq<Region>)
    ensures |SortByStart(regions)| == |regions|
  {
    if regions == [] {
    } else {
      SortLength(regions[1..]);
      InsertLength(regions[0], SortByStart(regions[1..]));
    }
  }

  lemma {:induction false} InsertLength(r: Region, sorted: seq<Region>)
    ensures |Insert(r, sorted)| == |sorted| + 1
  {
    if sorted == [] || r.start <= sorted[0].start {
    } else {
      InsertLength(r, sorted[1..]);
    }
  }

  lemma BoundaryStarts(query: Oracle, addr: nat)
    requires Partitions(query) && Boundary(query, addr) && query(addr).Some?
    ensures query(addr).value.base == addr
  {
  }

  // ----- lookup -----

  /** `binary_search_by` on the start addresses: the match, or where it would be inserted. */
  method BinarySearch(regions: seq<Region>, addr: nat) returns (found: bool, i: nat)
    requires SortedDisjoint(regions)
    ensures found ==> i < |regions| && regions[i].start == addr
    ensures !found ==> i <= |regions|
    ensures !found ==> forall j :: 0 <= j < i ==> regions[j].start < addr
    ensures !found ==> forall j :: i <= j < |regions| ==> addr < regions[j].start
  {
    var lo, hi := 0, |regions|;
    while lo < hi
      invariant 0 <= lo <= hi <= |regions|
      invariant forall j :: 0 <= j < lo ==> regions[j].start < addr
      invariant forall j :: hi <= j < |regions| ==> addr < regions[j].start
    {
      var mid := lo + (hi - lo) / 2;
      if regions[mid].start == addr { return true, mid; }
      if regions[mid].start < addr {
        lo := mid + 1;
      } else {
        hi := mid;
      }
    }
    return false, lo;
  }

  predicate Holds(r: Region, addr: nat, len: nat) { r.start <= addr && addr + len <= r.end }

  /** True exactly when one region contains the whole range, an overflowing range never. */
  method InRegion(regions: seq<Region>, addr: nat, len: nat) returns (r: bool)
    requires SortedDisjoint(regions)
    ensures r <==> exists i :: 0 <= i < |regions| && Holds(regions[i], addr, len)
  {
    if addr + len > USIZE_MAX { return false; }
    var found, i := BinarySearch(regions, addr);
    if !found {
      if i == 0 { return false; }
      i := i - 1;
    }
    r := regions[i].start <= addr && addr + len <= regions[i].end;
    if r {
      assert Holds(regions[i], addr, len);
    } else {
      forall k | 0 <= k < |regions| ensures !Holds(regions[k], addr, len) {
        if k < i { assert regions[k].end <= regions[i].start; }
      }
    }
  }

  /** A range the index accepts is readable page by page according to the oracle it was built from. */
  lemma IndexSound(query: Oracle, regions: seq<Region>, limit: nat, i: nat, addr: nat, len: nat, x: nat)
    requires Indexed(query, regions, limit) && i < |regions| && Holds(regions[i], addr, len)
    requires addr <= x < addr + len
    ensures query(x).Some? && Wanted(query(x).value)
  {
    assert Contains(regions[i], x);
    assert Decided(query, regions, x);
  }

  /** Inside the indexed part, a range within one readable run of pages is accepted. */
  lemma IndexComplete(query: Oracle, regions: seq<Region>, limit: nat, addr: nat, len: nat)
    requires Partitions(query) && Indexed(query, regions, limit) && SortedDisjoint(regions)
    requires addr < limit && query(addr).Some? && Wanted(query(addr).value)
    requires addr + len <= query(addr).value.base + query(addr).value.size
    ensures exists i :: 0 <= i < |regions| && Holds(regions[i], addr, len)
  {
    assert Decided(query, regions, addr);
    var i :| 0 <= i < |regions| && Contains(regions[i], addr);
    assert IsRun(query, regions[i]);
    var q := Pages(regions[i].start, regions[i].end - regions[i].start, true, regions[i].protect);
    assert Around(query, regions[i].start, q);
    assert query(addr) == Some(q);
    assert Holds(regions[i], addr, len);
  }
}
