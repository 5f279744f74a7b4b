/**
 Process memory as a finite map from committed addresses to bytes. Allocating commits a
 fresh range, releasing removes it, storing changes bytes of committed addresses only.
 */
module ProcessMemory {
  import opened Bytes

  type Addr = nat
  type Mem = map<Addr, Byte>

  predicate Within(x: Addr, start: Addr, len: nat) { start <= x < start + len }

  predicate Apart(a: Addr, m: nat, b: Addr, n: nat) { a + m <= b || b + n <= a }

  predicate Mapped(mem: Mem, start: Addr, len: nat) {
    forall x :: start <= x < start + len ==> x in mem
  }

  predicate Unmapped(mem: Mem, start: Addr, len: nat) {
    forall x :: start <= x < start + len ==> x !in mem
  }

  /** `bs` is what memory holds from `start` on. */
  predicate Holds(mem: Mem, start: Addr, bs: seq<Byte>) {
    forall x :: start <= x < start + |bs| ==> x in mem && mem[x] == bs[x - start]
  }

  function Load(mem: Mem, start: Addr, len: nat): (bs: seq<Byte>)
    requires Mapped(mem, start, len)
    ensures |bs| == len && Holds(mem, start, bs)
    decreases len, start
  {
    if len == 0 then [] else
    [mem[start]] + Load(mem, start + 1, len - 1)
  }

  function Store(mem: Mem, start: Addr, bs: seq<Byte>): (r: Mem)
    ensures r.Keys == mem.Keys
    ensures forall x :: x in mem && !Within(x, start, |bs|) ==> r[x] == mem[x]
    ensures forall x :: x in mem && Within(x, start, |bs|) ==> r[x] == bs[x - start]
    ensures Mapped(mem, start, |bs|) ==> Holds(r, start, bs)
  {
    map x | x in mem :: if Within(x, start, |bs|) then bs[x - start] else mem[x]
  }

  /** Commit the fresh range of `bs` with those contents. */
  function Commit(mem: Mem, start: Addr, bs: seq<Byte>): (r: Mem)
    requires Unmapped(mem, start, |bs|)
    ensures Holds(r, start, bs)
    ensures forall x :: x in r <==> x in mem || Within(x, start, |bs|)
    ensures forall x :: x in mem ==> r[x] == mem[x]
  {
    mem + map x | start <= x < start + |bs| && Within(x, start, |bs|) :: bs[x - start]
  }

  function Release(mem: Mem, start: Addr, len: nat): (r: Mem)
    ensures forall x :: x in r <==> x in mem && !Within(x, start, len)
    ensures forall x :: x in r ==> r[x] == mem[x]
  {
    map x | x in mem && !Within(x, start, len) :: mem[x]
  }

  lemma HoldsUnique(mem: Mem, start: Addr, a: seq<Byte>, b: seq<Byte>)
    requires Holds(mem, start, a) && Holds(mem, start, b) && |a| == |b|
    ensures a == b
  {
    forall i | 0 <= i < |a| ensures a[i] == b[i] {
      assert start + i in mem;
    }
  }

  lemma FreshIsApart(mem: Mem, a: Addr, m: nat, b: Addr, n: nat)
    requires Mapped(mem, a, m) && Unmapped(mem, b, n) && m > 0 && n > 0
    ensures Apart(a, m, b, n)
  {
    var x := if a <= b then b else a;
    assert a <= x < a + m ==> x in mem;
    assert b <= x < b + n ==> x !in mem;
  }
}
