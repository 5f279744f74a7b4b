/**
 The two-pointer diff of two region snapshots (`region_churn.rs`) against the set diff of their
 start addresses.
 */
module RegionChurn {

  datatype Churn = Churn(added: nat, removed: nat, changed: nat)

  type Snapshot = seq<(nat, nat)>

  predicate Sorted(s: Snapshot) {
    forall i, j :: 0 <= i < j < |s| ==> s[i].0 < s[j].0
  }

  ghost function Starts(s: Snapshot): set<nat> {
    set i | 0 <= i < |s| :: s[i].0
  }

  /** Starts present in both with different ends. */
  ghost function Resized(prev: Snapshot, cur: Snapshot): set<nat> {
    set i, j | 0 <= i < |prev| && 0 <= j < |cur| && prev[i].0 == cur[j].0 && prev[i].1 != cur[j].1 :: prev[i].0
  }

  /** The counts of the set diff. */
  ghost function SetDiff(prev: Snapshot, cur: Snapshot): Churn {
    Churn(|Starts(cur) - Starts(prev)|, |Starts(prev) - Starts(cur)|, |Resized(prev, cur)|)
  }

  function Plus(a: Churn, b: Churn): Churn {
    Churn(a.added + b.added, a.removed + b.removed, a.changed + b.changed)
  }

  /** The snapshot without its first region. */
  lemma StartsTail(s: Snapshot)
    requires s != [] && Sorted(s)
    ensures Starts(s) == {s[0].0} + Starts(s[1..]) && s[0].0 !in Starts(s[1..]) && Sorted(s[1..])
    ensures forall x :: x in Starts(s[1..]) ==> s[0].0 < x
  {
  }

  /** Removing an element that is only in `a`. */
  lemma CountOne(a: set<nat>, b: set<nat>, x: nat)
    requires x !in a
    ensures x !in b ==> |({x} + a) - b| == |a - b| + 1
    ensures x in b ==> ({x} + a) - b == a - b
    ensures b - ({x} + a) == (b - a) - {x}
  {
    if x !in b { assert ({x} + a) - b == {x} + (a - b); }
  }

  lemma ResizedTailLeft(prev: Snapshot, cur: Snapshot)
    requires prev != [] && Sorted(prev) && prev[0].0 !in Starts(cur)
    ensures Resized(prev, cur) == Resized(prev[1..], cur)
  {
  }

  lemma ResizedTailRight(prev: Snapshot, cur: Snapshot)
    requires cur != [] && Sorted(cur) && cur[0].0 !in Starts(prev)
    ensures Resized(prev, cur) == Resized(prev, cur[1..])
  {
  }

  lemma ResizedHeads(prev: Snapshot, cur: Snapshot)
    requires prev != [] && cur != [] && Sorted(prev) && Sorted(cur) && prev[0].0 == cur[0].0
    ensures Resized(prev, cur) == (if prev[0].1 != cur[0].1 then {prev[0].0} else {}) + Resized(prev[1..], cur[1..])
    ensures prev[0].0 !in Resized(prev[1..], cur[1..])
  {
  }

  // ----- one step of the merge -----

  lemma SameStart(prev: Snapshot, cur: Snapshot)
    requires prev != [] && cur != [] && Sorted(prev) && Sorted(cur) && prev[0].0 == cur[0].0
    ensures SetDiff(prev, cur) == Plus(Churn(0, 0, if prev[0].1 != cur[0].1 then 1 else 0), SetDiff(prev[1..], cur[1..]))
  {
    StartsTail(prev);
    StartsTail(cur);
    ResizedHeads(prev, cur);
    assert Starts(cur) - Starts(prev) == Starts(cur[1..]) - Starts(prev[1..]);
    assert Starts(prev) - Starts(cur) == Starts(prev[1..]) - Starts(cur[1..]);
  }

  lemma OnlyPrev(prev: Snapshot, cur: Snapshot)
    requires prev != [] && Sorted(prev) && Sorted(cur) && prev[0].0 !in Starts(cur)
    ensures SetDiff(prev, cur) == Plus(Churn(0, 1, 0), SetDiff(prev[1..], cur))
  {
    StartsTail(prev);
    ResizedTailLeft(prev, cur);
    CountOne(Starts(prev[1..]), Starts(cur), prev[0].0);
    assert Starts(cur) - Starts(prev) == Starts(cur) - Starts(prev[1..]);
  }

  lemma OnlyCur(prev: Snapshot, cur: Snapshot)
    requires cur != [] && Sorted(prev) && Sorted(cur) && cur[0].0 !in Starts(prev)
    ensures SetDiff(prev, cur) == Plus(Churn(1, 0, 0), SetDiff(prev, cur[1..]))
  {
    StartsTail(cur);
    ResizedTailRight(prev, cur);
    CountOne(Starts(cur[1..]), Starts(prev), cur[0].0);
    assert Starts(prev) - Starts(cur) == Starts(prev) - Starts(cur[1..]);
  }

  lemma Below(s: Snapshot, x: nat)
    requires Sorted(s) && (s == [] || x < s[0].0)
    ensures x !in Starts(s)
  {
  }

  lemma FirstInPrev(prev: Snapshot, cur: Snapshot)
    requires prev != [] && cur != [] && Sorted(prev) && Sorted(cur) && prev[0].0 < cur[0].0
    ensures SetDiff(prev, cur) == Plus(Churn(0, 1, 0), SetDiff(prev[1..], cur)) && Sorted(prev[1..])
  {
    Below(cur, prev[0].0);
    OnlyPrev(prev, cur);
  }

  lemma FirstInCur(prev: Snapshot, cur: Snapshot)
    requires prev != [] && cur != [] && Sorted(prev) && Sorted(cur) && cur[0].0 < prev[0].0
    ensures SetDiff(prev, cur) == Plus(Churn(1, 0, 0), SetDiff(prev, cur[1..])) && Sorted(cur[1..])
  {
    Below(prev, cur[0].0);
    OnlyCur(prev, cur);
  }

  lemma {:induction false} StartsSize(s: Snapshot)
    requires Sorted(s)
    ensures |Starts(s)| == |s|
  {
    if s == [] {
    } else {
      StartsTail(s);
      StartsSize(s[1..]);
    }
  }

  lemma OneEmpty(prev: Snapshot, cur: Snapshot)
    requires Sorted(prev) && Sorted(cur) && (prev == [] || cur == [])
    ensures SetDiff(prev, cur) == Churn(|cur|, |prev|, 0)
  {
    StartsSize(prev);
    StartsSize(cur);
    assert prev == [] ==> Starts(cur) - Starts(prev) == Starts(cur) && Starts(prev) - Starts(cur) == {};
    assert cur == [] ==> Starts(prev) - Starts(cur) == Starts(prev) && Starts(cur) - Starts(prev) == {};
    assert Resized(prev, cur) == {};
  }

  /** The merge as a recursion over the two snapshots. */
  function Merge(prev: Snapshot, cur: Snapshot): Churn
    decreases |prev| + |cur|
  {
    if prev == [] || cur == [] then Churn(|cur|, |prev|, 0)
    else if prev[0].0 == cur[0].0 then
      Plus(Churn(0, 0, if prev[0].1 != cur[0].1 then 1 else 0), Merge(prev[1..], cur[1..]))
    else if prev[0].0 < cur[0].0 then Plus(Churn(0, 1, 0), Merge(prev[1..], cur))
    else Plus(Churn(1, 0, 0), Merge(prev, cur[1..]))
  }

  lemma {:induction false} MergeIsSetDiff(prev: Snapshot, cur: Snapshot)
    requires Sorted(prev) && Sorted(cur)
    ensures Merge(prev, cur) == SetDiff(prev, cur)
    decreases |prev| + |cur|
  {
    if prev == [] || cur == [] {
      OneEmpty(prev, cur);
    } else if prev[0].0 == cur[0].0 {
      SameStart(prev, cur);
      MergeIsSetDiff(prev[1..], cur[1..]);
    } else if prev[0].0 < cur[0].0 {
      FirstInPrev(prev, cur);
      MergeIsSetDiff(prev[1..], cur);
    } else {
      FirstInCur(prev, cur);
      MergeIsSetDiff(prev, cur[1..]);
    }
  }

  /** One turn of the merge, seen from the counts so far. */
  lemma MergeStep(prev: Snapshot, cur: Snapshot, i: nat, j: nat, churn: Churn)
    requires i < |prev| && j < |cur|
    ensures Plus(churn, Merge(prev[i..], cur[j..])) ==
            if prev[i].0 == cur[j].0 then
              Plus(churn.(changed := churn.changed + if prev[i].1 != cur[j].1 then 1 else 0), Merge(prev[i + 1..], cur[j + 1..]))
            else if prev[i].0 < cur[j].0 then Plus(churn.(removed := churn.removed + 1), Merge(prev[i + 1..], cur[j..]))
            else Plus(churn.(added := churn.added + 1), Merge(prev[i..], cur[j + 1..]))
  {
    assert prev[i..][1..] == prev[i + 1..] && cur[j..][1..] == cur[j + 1..];
  }

  lemma MergeEnd(prev: Snapshot, cur: Snapshot, i: nat, j: nat)
    requires i <= |prev| && j <= |cur| && (i == |prev| || j == |cur|)
    ensures Merge(prev[i..], cur[j..]) == Churn(|cur| - j, |prev| - i, 0)
  {
  }

  /** The linear merge; it allocates nothing and looks at each region once. */
  method Diff(prev: Snapshot, cur: Snapshot) returns (churn: Churn)
    requires Sorted(prev) && Sorted(cur)
    ensures churn == SetDiff(prev, cur)
  {
    var i, j := 0, 0;
    churn := Churn(0, 0, 0);
    ghost var all := Merge(prev, cur);
    assert prev[0..] == prev && cur[0..] == cur;
    while i < |prev| && j < |cur|
      invariant i <= |prev| && j <= |cur|
      invariant all == Plus(churn, Merge(prev[i..], cur[j..]))
      decreases |prev| - i + |cur| - j
    {
      MergeStep(prev, cur, i, j, churn);
      if prev[i].0 == cur[j].0 {
        if prev[i].1 != cur[j].1 { churn := churn.(changed := churn.changed + 1); }
        i := i + 1;
        j := j + 1;
      } else if prev[i].0 < cur[j].0 {
        churn := churn.(removed := churn.removed + 1);
        i := i + 1;
      } else {
        churn := churn.(added := churn.added + 1);
        j := j + 1;
      }
    }
    MergeEnd(prev, cur, i, j);
    churn := churn.(removed := churn.removed + (|prev| - i), added := churn.added + (|cur| - j));
    MergeIsSetDiff(prev, cur);
  }

  /** The size of the snapshot changes by what was added less what was removed. */
  lemma SizeBalance(prev: Snapshot, cur: Snapshot)
    requires Sorted(prev) && Sorted(cur)
    ensures |cur| - |prev| == SetDiff(prev, cur).added - SetDiff(prev, cur).removed
  {
    StartsSize(prev);
    StartsSize(cur);
    var p, c := Starts(prev), Starts(cur);
    assert |c| == |c * p| + |c - p| by { assert c == (c * p) + (c - p); }
    assert |p| == |c * p| + |p - c| by { assert p == (c * p) + (p - c); }
  }

  lemma {:induction false} QuietMerge(prev: Snapshot, cur: Snapshot)
    ensures Merge(prev, cur) == Churn(0, 0, 0) <==> prev == cur
    decreases |prev| + |cur|
  {
    if prev == [] || cur == [] || prev[0].0 != cur[0].0 {
    } else {
      QuietMerge(prev[1..], cur[1..]);
      assert prev == [prev[0]] + prev[1..] && cur == [cur[0]] + cur[1..];
    }
  }

  /** Nothing is reported exactly when the snapshots are the same. */
  lemma QuietExactly(prev: Snapshot, cur: Snapshot)
    requires Sorted(prev) && Sorted(cur)
    ensures SetDiff(prev, cur) == Churn(0, 0, 0) <==> prev == cur
  {
    MergeIsSetDiff(prev, cur);
    QuietMerge(prev, cur);
  }
}
