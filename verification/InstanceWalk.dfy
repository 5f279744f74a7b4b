/**
 Instance discovery (`access.rs`): the iterator asks a scan backend for candidates and keeps
 asking until one passes validation. The backend owns the cursor, a machine word.
 */
module InstanceWalk {
  import opened Bytes

  type Cursor = c: nat | c < U64_LIMIT

  /** One backend call: the candidate, if any, and where it left the cursor. */
  datatype Answer = Answer(candidate: Option<nat>, cursor: Cursor)

  type Backend = Cursor -> Answer

  /** A live answer brings a candidate and moves the cursor on. */
  predicate Live(a: Answer, before: Cursor) { a.candidate.Some? && a.cursor > before }

  /** All candidates of a backend that answers its k-th call from now with `backend(k)`. */
  function Candidates(backend: nat -> Backend, k: nat, cursor: Cursor): seq<nat>
    decreases U64_LIMIT - cursor
  {
    var a := backend(k)(cursor);
    if !Live(a, cursor) then [] else [a.candidate.value] + Candidates(backend, k + 1, a.cursor)
  }

  function Filter(valid: nat -> bool, s: seq<nat>): seq<nat> {
    if s == [] then [] else (if valid(s[0]) then [s[0]] else []) + Filter(valid, s[1..])
  }

  lemma FilterCons(valid: nat -> bool, c: nat, s: seq<nat>)
    ensures Filter(valid, [c] + s) == (if valid(c) then [c] else []) + Filter(valid, s)
  {
  }

  lemma {:induction false} FilterAppend(valid: nat -> bool, a: seq<nat>, b: seq<nat>)
    ensures Filter(valid, a + b) == Filter(valid, a) + Filter(valid, b)
  {
    if a == [] {
      assert a + b == b;
    } else {
      FilterAppend(valid, a[1..], b);
      assert (a + b)[1..] == a[1..] + b;
      ConcatAssoc(if valid(a[0]) then [a[0]] else [], Filter(valid, a[1..]), Filter(valid, b));
    }
  }

  /** Every candidate is judged on its own: kept when valid, dropped when not, in order. */
  lemma FilterAt(valid: nat -> bool, before: seq<nat>, c: nat, after: seq<nat>)
    ensures Filter(valid, before + [c] + after) ==
            Filter(valid, before) + (if valid(c) then [c] else []) + Filter(valid, after)
  {
    FilterAppend(valid, before + [c], after);
    FilterAppend(valid, before, [c]);
    FilterCons(valid, c, []);
    assert [c] + [] == [c] && (if valid(c) then [c] else []) + [] == if valid(c) then [c] else [];
  }

  class InstanceIter {
    const klass: nat
    var cursor: Cursor

    constructor (klass: nat)
      ensures this.klass == klass && cursor == 0
    {
      this.klass := klass;
      cursor := 0;
    }

    /**
     The retry loop ends against any backend: it skips the candidates that fail validation and
     returns the next one that passes, `calls` backend calls later, or nothing once they run out.
     */
    method Next(backend: nat -> Backend, valid: nat -> bool, start: nat) returns (item: Option<nat>, calls: nat)
      modifies this`cursor
      ensures item.Some? ==> cursor > old(cursor)
      ensures var found := Filter(valid, Candidates(backend, start, old(cursor)));
              found == if item.None? then []
                       else [item.value] + Filter(valid, Candidates(backend, start + calls, cursor))
    {
      calls := 0;
      ghost var left := Candidates(backend, start, cursor);
      ghost var found := Filter(valid, left);
      while true
        invariant cursor >= old(cursor)
        invariant found == Filter(valid, left)
        invariant left == Candidates(backend, start + calls, cursor)
        decreases U64_LIMIT - cursor
      {
        var before := cursor;
        var a := backend(start + calls)(cursor);
        calls := calls + 1;
        cursor := a.cursor;
        if a.candidate.None? { return None, calls; }
        if cursor <= before { return None, calls; }
        left := Candidates(backend, start + calls, cursor);
        FilterCons(valid, a.candidate.value, left);
        if valid(a.candidate.value) { return a.candidate, calls; }
      }
      item := None;
    }

    /** Draining it yields exactly the candidates that pass validation, in order. */
    method Drain(backend: nat -> Backend, valid: nat -> bool) returns (items: seq<nat>)
      modifies this`cursor
      ensures items == Filter(valid, Candidates(backend, 0, old(cursor)))
    {
      items := [];
      var k := 0;
      var more := true;
      ghost var all := Filter(valid, Candidates(backend, 0, cursor));
      ghost var left := all;
      while more
        invariant all == items + left
        invariant left == if more then Filter(valid, Candidates(backend, k, cursor)) else []
        decreases more, U64_LIMIT - cursor
      {
        var item, calls := Next(backend, valid, k);
        if item.Some? {
          k := k + calls;
          left := Filter(valid, Candidates(backend, k, cursor));
          ConcatAssoc(items, [item.value], left);
          items := items + [item.value];
        } else {
          more, left := false, [];
        }
      }
    }
  }

  // ----- the scan backend -----

  /** Streams a cached hit list; the cursor is an index into it. */
  function ScanBackend(hits: seq<nat>): nat -> Backend
    requires |hits| < U64_LIMIT
  {
    (k: nat) => (cursor: Cursor) =>
      if cursor >= |hits| then Answer(None, cursor) else Answer(Some(hits[cursor]), cursor + 1)
  }

  /** Over a hit list the iterator sees every hit once, in order. */
  lemma {:induction false} ScanCandidates(hits: seq<nat>, k: nat, cursor: Cursor)
    requires cursor <= |hits| < U64_LIMIT
    ensures Candidates(ScanBackend(hits), k, cursor) == hits[cursor..]
    decreases |hits| - cursor
  {
    if cursor >= |hits| {
    } else {
      ScanCandidates(hits, k + 1, cursor + 1);
      assert hits[cursor..] == [hits[cursor]] + hits[cursor + 1..];
    }
  }
}
