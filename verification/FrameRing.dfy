/**
 The bounded capture ring (`protocol.rs`): oldest frames are dropped while there are too many
 frames, or too many bytes in more than one frame.
 */
module FrameRing {
  import opened Bytes

  datatype Direction = C2S | S2C

  datatype RawFrame = RawFrame(timestamp: nat, direction: Direction, socket: nat, bytes: seq<Byte>)

  function TotalBytes(frames: seq<RawFrame>): nat {
    if frames == [] then 0 else |frames[0].bytes| + TotalBytes(frames[1..])
  }

  lemma {:induction false} TotalBytesAppend(a: seq<RawFrame>, b: seq<RawFrame>)
    ensures TotalBytes(a + b) == TotalBytes(a) + TotalBytes(b)
  {
    if a == [] {
      assert a + b == b;
    } else {
      TotalBytesAppend(a[1..], b);
      assert (a + b)[1..] == a[1..] + b;
    }
  }

  /** Within both limits; a single frame may exceed the byte limit. */
  predicate FitsIn(frames: seq<RawFrame>, maxFrames: nat, maxBytes: nat) {
    |frames| <= maxFrames && (TotalBytes(frames) <= maxBytes || |frames| <= 1)
  }

  /** The newest frames that are within the limits; `NewestIsLongest` says there are no more. */
  function Newest(history: seq<RawFrame>, maxFrames: nat, maxBytes: nat): (r: seq<RawFrame>)
    ensures |r| <= |history| && FitsIn(r, maxFrames, maxBytes)
  {
    if history == [] || FitsIn(history, maxFrames, maxBytes) then history
    else Newest(history[1..], maxFrames, maxBytes)
  }

  /** `Newest` is a suffix of the history, and every suffix within the limits is a suffix of it. */
  lemma {:induction false} NewestIsLongest(history: seq<RawFrame>, k: nat, maxFrames: nat, maxBytes: nat)
    requires k <= |history|
    ensures var r := Newest(history, maxFrames, maxBytes); r == history[|history| - |r|..]
    ensures FitsIn(history[k..], maxFrames, maxBytes) ==> |history| - k <= |Newest(history, maxFrames, maxBytes)|
    decreases |history|
  {
    assert history[0..] == history;
    if history == [] || FitsIn(history, maxFrames, maxBytes) {
    } else {
      NewestIsLongest(history[1..], if k == 0 then 0 else k - 1, maxFrames, maxBytes);
      if k > 0 { assert history[k..] == history[1..][k - 1..]; }
    }
  }

  /** What stays is within both limits, and one older frame would be too many frames or bytes. */
  lemma {:induction false} NewestWithinLimits(history: seq<RawFrame>, maxFrames: nat, maxBytes: nat)
    ensures var r := Newest(history, maxFrames, maxBytes);
            && |r| <= maxFrames && (TotalBytes(r) > maxBytes ==> |r| <= 1)
            && (|r| < |history| ==>
                  var more := history[|history| - |r| - 1..];
                  |more| > maxFrames || (TotalBytes(more) > maxBytes && |more| > 1))
    decreases |history|
  {
    if history == [] || FitsIn(history, maxFrames, maxBytes) {
    } else {
      NewestWithinLimits(history[1..], maxFrames, maxBytes);
      var n := |Newest(history, maxFrames, maxBytes)|;
      assert n < |history[1..]| ==> history[|history| - n - 1..] == history[1..][|history[1..]| - n - 1..];
      assert n == |history[1..]| ==> history[|history| - n - 1..] == history;
    }
  }

  lemma {:induction false} SuffixFits(frames: seq<RawFrame>, k: nat, maxFrames: nat, maxBytes: nat)
    requires k <= |frames| && FitsIn(frames, maxFrames, maxBytes)
    ensures FitsIn(frames[k..], maxFrames, maxBytes)
  {
    TotalBytesAppend(frames[..k], frames[k..]);
    assert frames[..k] + frames[k..] == frames;
  }

  lemma LongerDoesNotFit(history: seq<RawFrame>, f: RawFrame, maxFrames: nat, maxBytes: nat)
    requires history != [] && !FitsIn(history, maxFrames, maxBytes)
    ensures !FitsIn(history + [f], maxFrames, maxBytes)
  {
    TotalBytesAppend(history, [f]);
  }

  /** Forgetting what is already evicted does not change what the next frame leaves. */
  lemma {:induction false} NewestStep(history: seq<RawFrame>, f: RawFrame, maxFrames: nat, maxBytes: nat)
    ensures Newest(Newest(history, maxFrames, maxBytes) + [f], maxFrames, maxBytes)
         == Newest(history + [f], maxFrames, maxBytes)
    decreases |history|
  {
    if history == [] || FitsIn(history, maxFrames, maxBytes) {
    } else {
      LongerDoesNotFit(history, f, maxFrames, maxBytes);
      assert (history + [f])[1..] == history[1..] + [f];
      NewestStep(history[1..], f, maxFrames, maxBytes);
    }
  }

  lemma Appended(evicted: seq<RawFrame>, frames: seq<RawFrame>, f: RawFrame)
    ensures evicted + (frames + [f]) == (evicted + frames) + [f]
    ensures TotalBytes(frames + [f]) == TotalBytes(frames) + |f.bytes|
  {
    TotalBytesAppend(frames, [f]);
    assert TotalBytes([f]) == |f.bytes|;
  }

  /** Dropping the oldest frame of a list that does not fit. */
  lemma EvictStep(evicted: seq<RawFrame>, frames: seq<RawFrame>, maxFrames: nat, maxBytes: nat)
    requires frames != [] && !FitsIn(frames, maxFrames, maxBytes)
    ensures (evicted + [frames[0]]) + frames[1..] == evicted + frames
    ensures TotalBytes(frames[1..]) == TotalBytes(frames) - |frames[0].bytes|
    ensures Newest(frames[1..], maxFrames, maxBytes) == Newest(frames, maxFrames, maxBytes)
  {
  }

  lemma NewestOfFitting(frames: seq<RawFrame>, maxFrames: nat, maxBytes: nat)
    requires FitsIn(frames, maxFrames, maxBytes)
    ensures Newest(frames, maxFrames, maxBytes) == frames
  {
  }

  class Ring {
    var frames: seq<RawFrame>
    var totalBytes: nat
    const maxFrames: nat
    const maxBytes: nat

    // Everything pushed since the ring was last drained, and the part of it that was evicted.
    ghost var pushed: seq<RawFrame>
    ghost var evicted: seq<RawFrame>

    /** What the ring holds does not depend on how it got there. */
    ghost predicate Valid()
      reads this
    {
      && evicted + frames == pushed
      && frames == Newest(pushed, maxFrames, maxBytes)
      && totalBytes == TotalBytes(frames)
    }

    constructor (maxFrames: nat, maxBytes: nat)
      ensures Valid() && frames == [] && pushed == []
      ensures this.maxFrames == maxFrames && this.maxBytes == maxBytes
    {
      this.maxFrames := maxFrames;
      this.maxBytes := maxBytes;
      frames := [];
      totalBytes := 0;
      pushed := [];
      evicted := [];
    }

    method Push(frame: RawFrame)
      requires Valid()
      modifies this
      ensures Valid() && pushed == old(pushed) + [frame]
      ensures old(evicted) <= evicted
    {
      NewestStep(pushed, frame, maxFrames, maxBytes);
      Appended(evicted, frames, frame);
      totalBytes := totalBytes + |frame.bytes|;
      frames := frames + [frame];
      pushed := pushed + [frame];
      ghost var kept := Newest(pushed, maxFrames, maxBytes);
      while |frames| > maxFrames || (totalBytes > maxBytes && |frames| > 1)
        invariant totalBytes == TotalBytes(frames)
        invariant evicted + frames == pushed && old(evicted) <= evicted
        invariant pushed == old(pushed) + [frame]
        invariant Newest(frames, maxFrames, maxBytes) == kept
        decreases |frames|
      {
        EvictOldest();
      }
      NewestOfFitting(frames, maxFrames, maxBytes);
    }

    method EvictOldest()
      requires |frames| > maxFrames || (totalBytes > maxBytes && |frames| > 1)
      requires totalBytes == TotalBytes(frames)
      modifies this`frames, this`totalBytes, this`evicted
      ensures frames == old(frames)[1..] && evicted == old(evicted) + [old(frames)[0]]
      ensures evicted + frames == old(evicted) + old(frames) && totalBytes == TotalBytes(frames)
      ensures Newest(frames, maxFrames, maxBytes) == Newest(old(frames), maxFrames, maxBytes)
    {
      EvictStep(evicted, frames, maxFrames, maxBytes);
      var dropped := frames[0];
      evicted := evicted + [dropped];
      frames := frames[1..];
      totalBytes := totalBytes - |dropped.bytes|;
    }

    /** Hand over all resident frames in order and start over. */
    method Drain() returns (out: seq<RawFrame>)
      requires Valid()
      modifies this
      ensures Valid() && frames == [] && pushed == []
      ensures out == old(frames) == Newest(old(pushed), maxFrames, maxBytes)
      ensures old(evicted) + out == old(pushed)
    {
      out := frames;
      totalBytes := 0;
      frames := [];
      pushed := [];
      evicted := [];
    }

    /** The frame at `idx`, oldest first. */
    method Get(idx: nat) returns (f: Option<RawFrame>)
      ensures f == if idx < |frames| then Some(frames[idx]) else None
    {
      if idx >= |frames| { return None; }
      f := Some(frames[idx]);
    }

    /** The lazy iterator, driven to its end, walks the ring oldest to newest without consuming it. */
    method Collect() returns (out: seq<RawFrame>)
      ensures out == frames
    {
      var cursor, limit := 0, |frames|;
      out := [];
      while cursor < limit
        invariant cursor <= limit && out == frames[..cursor]
      {
        var f := Get(cursor);
        cursor := cursor + 1;
        out := out + [f.value];
      }
    }
  }

  /** A frame is resident exactly when everything from it on still fits. */
  lemma ResidentExactly(history: seq<RawFrame>, k: nat, maxFrames: nat, maxBytes: nat)
    requires k < |history|
    ensures k >= |history| - |Newest(history, maxFrames, maxBytes)| <==> FitsIn(history[k..], maxFrames, maxBytes)
  {
    var r := Newest(history, maxFrames, maxBytes);
    var from := |history| - |r|;
    NewestIsLongest(history, k, maxFrames, maxBytes);
    if k >= from {
      SuffixFits(r, k - from, maxFrames, maxBytes);
      assert r[k - from..] == history[k..];
    }
  }
}
