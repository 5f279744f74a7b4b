/**
 The pattern scan (`scan.rs`) with its first-byte skip, against the naive search of every offset.
 */
module Scan {
  import opened Bytes
  import opened Regions

  // ----- pattern scan -----

  /** A readable region with its bytes. */
  datatype Chunk = Chunk(start: nat, bytes: seq<Byte>)

  predicate OccursAt(bytes: seq<Byte>, pattern: seq<Byte>, at: nat) {
    at + |pattern| <= |bytes| && bytes[at..at + |pattern|] == pattern
  }

  /** Addresses of all occurrences at offset `from` or later, overlapping ones included. */
  function Occurrences(c: Chunk, pattern: seq<Byte>, from: nat): seq<nat>
    decreases |c.bytes| - from
  {
    if from + |pattern| > |c.bytes| || pattern == [] then []
    else (if OccursAt(c.bytes, pattern, from) then [c.start + from] else []) + Occurrences(c, pattern, from + 1)
  }

  function AllOccurrences(chunks: seq<Chunk>, pattern: seq<Byte>): seq<nat> {
    if chunks == [] then [] else Occurrences(chunks[0], pattern, 0) + AllOccurrences(chunks[1..], pattern)
  }

  function TakeAtMost(s: seq<nat>, n: nat): seq<nat> { if |s| <= n then s else s[..n] }

  /** The naive list is complete, correct and ascending. */
  lemma {:induction false} OccurrencesExact(c: Chunk, pattern: seq<Byte>, from: nat)
    requires pattern != []
    ensures forall a: nat :: a in Occurrences(c, pattern, from) <==>
              c.start + from <= a && OccursAt(c.bytes, pattern, a - c.start)
    ensures forall i, j :: 0 <= i < j < |Occurrences(c, pattern, from)| ==>
              Occurrences(c, pattern, from)[i] < Occurrences(c, pattern, from)[j]
    decreases |c.bytes| - from
  {
    if from + |pattern| > |c.bytes| {
    } else {
      OccurrencesExact(c, pattern, from + 1);
      var later := Occurrences(c, pattern, from + 1);
      var here := if OccursAt(c.bytes, pattern, from) then [c.start + from] else [];
      assert Occurrences(c, pattern, from) == here + later;
      forall a: nat ensures a in here + later <==> c.start + from <= a && OccursAt(c.bytes, pattern, a - c.start) {
        if c.start + from <= a {
          assert a - c.start == from || c.start + (from + 1) <= a;
        }
      }
      FirstThenLater(here, later, c.start + from);
    }
  }

  lemma FirstThenLater(here: seq<nat>, later: seq<nat>, at: nat)
    requires here == [] || here == [at]
    requires forall a: nat :: a in later ==> at < a
    requires forall i, j :: 0 <= i < j < |later| ==> later[i] < later[j]
    ensures forall i, j :: 0 <= i < j < |here + later| ==> (here + later)[i] < (here + later)[j]
  {
    forall i, j | 0 <= i < j < |here + later| ensures (here + later)[i] < (here + later)[j] {
      if i < |here| { assert later[j - |here|] in later; }
    }
  }

  predicate Ascending(s: seq<nat>) { forall i, j :: 0 <= i < j < |s| ==> s[i] < s[j] }

  /** Regions in address order, none reaching into the next. */
  predicate InOrder(chunks: seq<Chunk>) {
    forall i, j :: 0 <= i < j < |chunks| ==> chunks[i].start + |chunks[i].bytes| <= chunks[j].start
  }

  /** The pattern lies at address `a`, inside one region. */
  ghost predicate Found(chunks: seq<Chunk>, pattern: seq<Byte>, a: nat) {
    exists c :: c in chunks && c.start <= a && a - c.start + |pattern| <= |c.bytes| &&
                c.bytes[a - c.start..a - c.start + |pattern|] == pattern
  }

  lemma FoundCons(chunks: seq<Chunk>, pattern: seq<Byte>, a: nat)
    requires chunks != []
    ensures Found(chunks, pattern, a) <==> Found(chunks[..1], pattern, a) || Found(chunks[1..], pattern, a)
  {
    assert chunks == chunks[..1] + chunks[1..];
  }

  /** The list is every address the pattern lies at. */
  lemma {:induction false} AllOccurrencesExact(chunks: seq<Chunk>, pattern: seq<Byte>)
    requires pattern != []
    ensures forall a: nat :: a in AllOccurrences(chunks, pattern) <==> Found(chunks, pattern, a)
  {
    if chunks == [] {
    } else {
      AllOccurrencesExact(chunks[1..], pattern);
      OccurrencesExact(chunks[0], pattern, 0);
      var (here, later) := (Occurrences(chunks[0], pattern, 0), AllOccurrences(chunks[1..], pattern));
      forall a: nat ensures a in here + later <==> Found(chunks, pattern, a) {
        FoundCons(chunks, pattern, a);
      }
    }
  }

  /** Over regions in address order it is in address order. */
  lemma {:induction false} AllOccurrencesAscend(chunks: seq<Chunk>, pattern: seq<Byte>)
    requires pattern != [] && InOrder(chunks)
    ensures Ascending(AllOccurrences(chunks, pattern))
  {
    if chunks == [] {
    } else {
      AllOccurrencesAscend(chunks[1..], pattern);
      OccurrencesExact(chunks[0], pattern, 0);
      AllOccurrencesExact(chunks[..1], pattern);
      AllOccurrencesExact(chunks[1..], pattern);
      assert AllOccurrences(chunks[..1], pattern) == Occurrences(chunks[0], pattern, 0) + [];
      RegionsInOrder(chunks, pattern, Occurrences(chunks[0], pattern, 0), AllOccurrences(chunks[1..], pattern));
    }
  }

  lemma RegionsInOrder(chunks: seq<Chunk>, pattern: seq<Byte>, here: seq<nat>, later: seq<nat>)
    requires chunks != [] && pattern != [] && InOrder(chunks) && Ascending(here) && Ascending(later)
    requires forall a: nat :: a in here ==> Found(chunks[..1], pattern, a)
    requires forall a: nat :: a in later ==> Found(chunks[1..], pattern, a)
    ensures Ascending(here + later)
  {
    forall i, j | 0 <= i < |here| && 0 <= j < |later| ensures here[i] < later[j] {
      assert Found(chunks[..1], pattern, here[i]) && Found(chunks[1..], pattern, later[j]);
    }
  }

  /** Offsets that do not start with the pattern's first byte can be skipped. */
  lemma {:induction false} SkipIsSafe(c: Chunk, pattern: seq<Byte>, from: nat, to: nat)
    requires pattern != [] && from <= to
    requires forall k :: from <= k < to && k + |pattern| <= |c.bytes| ==> c.bytes[k] != pattern[0]
    ensures Occurrences(c, pattern, from) == Occurrences(c, pattern, to)
    decreases if from < to then to - from else 0
  {
    if from >= to {
    } else {
      SkipIsSafe(c, pattern, from + 1, to);
      if from + |pattern| <= |c.bytes| {
        assert c.bytes[from..from + |pattern|][0] == c.bytes[from];
      }
    }
  }

  /** Offset of the first byte equal to `b` in the window, or the window's end. */
  method Position(bytes: seq<Byte>, from: nat, to: nat, b: Byte) returns (at: nat)
    requires from <= to <= |bytes|
    ensures from <= at <= to && (at < to ==> bytes[at] == b)
    ensures forall k :: from <= k < at ==> bytes[k] != b
  {
    at := from;
    while at < to && bytes[at] != b
      invariant from <= at <= to
      invariant forall k :: from <= k < at ==> bytes[k] != b
    {
      at := at + 1;
    }
  }

  lemma TakeMore(hits: seq<nat>, found: seq<nat>, more: seq<nat>, max: nat)
    requires |hits + found| >= max
    ensures TakeAtMost(hits + (found + more), max) == TakeAtMost(hits + found, max)
  {
  }

  /** `aob_scan`: exactly the first `maxHits` occurrences in region order. */
  method AobScan(chunks: seq<Chunk>, pattern: seq<Byte>, maxHits: nat) returns (hits: seq<nat>)
    ensures var all := if pattern == [] then [] else AllOccurrences(chunks, pattern);
            hits <= all && |hits| == if |all| <= maxHits then |all| else maxHits
  {
    hits := [];
    if pattern == [] || maxHits == 0 { return; }
    ghost var all := AllOccurrences(chunks, pattern);
    var r := 0;
    assert chunks[0..] == chunks && hits + all == all;
    while r < |chunks|
      invariant r <= |chunks| && |hits| < maxHits
      invariant hits + AllOccurrences(chunks[r..], pattern) == all
    {
      ghost var rest := AllOccurrences(chunks[r + 1..], pattern);
      assert chunks[r..][0] == chunks[r] && chunks[r..][1..] == chunks[r + 1..];
      ConcatAssoc(hits, Occurrences(chunks[r], pattern, 0), rest);
      var full;
      ghost var before := hits;
      hits, full := ScanChunk(chunks[r], pattern, maxHits, hits);
      if full {
        TakeMore(before, Occurrences(chunks[r], pattern, 0), rest, maxHits);
        return;
      }
      r := r + 1;
    }
    assert chunks[r..] == [] && hits + [] == hits;
  }

  /** The naive list from a candidate offset on, with what has been found before it. */
  lemma AtCandidate(hits: seq<nat>, c: Chunk, pattern: seq<Byte>, i: nat, at: nat)
    requires pattern != [] && i <= at && at + |pattern| <= |c.bytes|
    requires forall k :: i <= k < at && k + |pattern| <= |c.bytes| ==> c.bytes[k] != pattern[0]
    ensures hits + Occurrences(c, pattern, i) ==
            (if OccursAt(c.bytes, pattern, at) then hits + [c.start + at] else hits) + Occurrences(c, pattern, at + 1)
  {
    SkipIsSafe(c, pattern, i, at);
    ConcatAssoc(hits, [c.start + at], Occurrences(c, pattern, at + 1));
  }

  /** One region: appends its occurrences, stopping as soon as there are enough. */
  method ScanChunk(c: Chunk, pattern: seq<Byte>, maxHits: nat, soFar: seq<nat>) returns (hits: seq<nat>, full: bool)
    requires pattern != [] && |soFar| < maxHits
    ensures full ==> |soFar + Occurrences(c, pattern, 0)| >= maxHits
    ensures full ==> hits == TakeAtMost(soFar + Occurrences(c, pattern, 0), maxHits)
    ensures !full ==> hits == soFar + Occurrences(c, pattern, 0) && |hits| < maxHits
  {
    hits := soFar;
    full := false;
    ghost var all := soFar + Occurrences(c, pattern, 0);
    var len := |c.bytes|;
    if len < |pattern| { return; }
    var i := 0;
    while i + |pattern| <= len
      invariant i <= len - |pattern| + 1 && |hits| < maxHits
      invariant hits + Occurrences(c, pattern, i) == all
      decreases len - i
    {
      var at := Position(c.bytes, i, len - |pattern| + 1, pattern[0]);
      if at == len - |pattern| + 1 {
        SkipIsSafe(c, pattern, i, at);
        return;
      }
      AtCandidate(hits, c, pattern, i, at);
      if c.bytes[at..at + |pattern|] == pattern {
        hits := hits + [c.start + at];
        if |hits| >= maxHits { return hits, true; }
      }
      i := at + 1;
    }
  }
}
