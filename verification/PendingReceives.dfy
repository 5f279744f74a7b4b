/**
 Overlapped receives waiting for their completion (`capture.rs`): a receive that cannot finish
 at once is noted under its OVERLAPPED address, its completion takes the note back and captures
 the data, closing a socket drops the socket's notes.
 */
module PendingReceives {
  import opened Bytes
  import opened CaptureStream
  import opened FrameRing

  const MAX_PENDING: nat := 4096

  type Addr = nat

  /** Socket and buffer array of a posted receive. */
  datatype Receive = Receive(socket: nat, buffers: Addr, count: nat)

  type Notes = map<Addr, Receive>

  /** Steps of the detours; `transferred` bytes are in the buffers when a completion is seen. */
  datatype Step = Submit(overlapped: Addr, receive: Receive) | Complete(overlapped: Addr) | Close(socket: nat)

  function Without(notes: Notes, overlapped: Addr): Notes {
    map o | o in notes && o != overlapped :: notes[o]
  }

  function After(notes: Notes, s: Step): Notes {
    match s
    case Submit(o, r) => if |notes| < MAX_PENDING then notes[o := r] else notes
    case Complete(o) => Without(notes, o)
    case Close(socket) => map o | o in notes && notes[o].socket != socket :: notes[o]
  }

  function Run(steps: seq<Step>): Notes {
    if steps == [] then map[] else After(Run(steps[..|steps| - 1]), steps[|steps| - 1])
  }

  /** The frames a completion captures: the noted buffers' bytes, for the noted socket. */
  function CompletionFrames(notes: Notes, overlapped: Addr, stamp: nat, transferred: nat,
                            load: Receive -> seq<Option<seq<Byte>>>): seq<RawFrame>
  {
    if overlapped !in notes then []
    else Kept(Pieces(load(notes[overlapped]), transferred), stamp, S2C, notes[overlapped].socket)
  }

  class PendingIo {
    var notes: Notes
    var capHits: nat

    constructor ()
      ensures notes == map[] && capHits == 0
    {
      notes, capHits := map[], 0;
    }

    /** A full table drops the note and counts it. */
    method Submit(overlapped: Addr, receive: Receive)
      modifies this
      ensures notes == After(old(notes), Step.Submit(overlapped, receive))
      ensures capHits == old(capHits) + if |old(notes)| < MAX_PENDING then 0 else 1
    {
      if |notes| < MAX_PENDING {
        notes := notes[overlapped := receive];
      } else {
        capHits := capHits + 1;
      }
    }

    /** The note goes even if nothing was transferred; data is captured for the noted socket. */
    method Complete(ring: Ring, stamp: nat, overlapped: Addr, transferred: nat, load: Receive -> seq<Option<seq<Byte>>>)
      requires ring.Valid()
      modifies this`notes, ring
      ensures ring.Valid() && notes == After(old(notes), Step.Complete(overlapped))
      ensures ring.pushed == old(ring.pushed) +
                CompletionFrames(old(notes), overlapped, stamp, transferred, load)
    {
      if overlapped !in notes {
        assert Without(notes, overlapped) == notes;
        assert ring.pushed + [] == ring.pushed;
        return;
      }
      var receive := notes[overlapped];
      notes := Without(notes, overlapped);
      CaptureGathered(ring, stamp, S2C, receive.socket, load(receive), transferred);
    }

    method Close(socket: nat)
      modifies this`notes
      ensures notes == After(old(notes), Step.Close(socket))
    {
      notes := map o | o in notes && notes[o].socket != socket :: notes[o];
    }
  }

  /** A noted completion is captured as incoming data of the noted socket, nothing else is captured at all. */
  lemma CompletionExactly(notes: Notes, overlapped: Addr, stamp: nat, transferred: nat,
                          load: Receive -> seq<Option<seq<Byte>>>)
    requires transferred <= 0x400_0000
    ensures var frames := CompletionFrames(notes, overlapped, stamp, transferred, load);
            if overlapped !in notes then frames == []
            else
              var data := Contents(load(notes[overlapped]));
              && Payloads(frames) == (if |data| <= transferred then data else data[..transferred])
              && forall f :: f in frames ==> f.direction == S2C && f.socket == notes[overlapped].socket && f.timestamp == stamp
  {
    if overlapped in notes {
      GatheredExactly(load(notes[overlapped]), transferred, stamp, S2C, notes[overlapped].socket);
    }
  }

  // ----- over every run -----

  /** The step leaves the receive `r` noted under `o` alone. */
  predicate Spares(s: Step, before: Notes, o: Addr, r: Receive) {
    match s
    case Submit(p, _) => p != o || |before| >= MAX_PENDING
    case Complete(p) => p != o
    case Close(socket) => socket != r.socket
  }

  /** After step `k` the receive posted there is neither completed nor closed nor posted over. */
  predicate Undisturbed(steps: seq<Step>, k: nat, o: Addr, r: Receive) {
    forall j :: k < j < |steps| ==> Spares(steps[j], Run(steps[..j]), o, r)
  }

  /** Step `k` posts `r` under `o` and there is room for it. */
  predicate Posts(steps: seq<Step>, k: nat, o: Addr, r: Receive) {
    k < |steps| && steps[k] == Submit(o, r) && |Run(steps[..k])| < MAX_PENDING
  }

  lemma KeptUndisturbed(steps: seq<Step>, s: Step, k: nat, o: Addr, r: Receive)
    requires k < |steps|
    ensures Posts(steps + [s], k, o, r) == Posts(steps, k, o, r)
    ensures Undisturbed(steps + [s], k, o, r) <==> Undisturbed(steps, k, o, r) && Spares(s, Run(steps), o, r)
  {
    var all := steps + [s];
    assert forall j :: 0 <= j <= |steps| ==> all[..j] == steps[..j];
    assert all[..|steps|] == steps && all[|steps|] == s;
  }

  /** The table never exceeds its cap. */
  lemma {:induction false} NotesBounded(steps: seq<Step>)
    ensures |Run(steps)| <= 4096
  {
    if steps == [] {
    } else {
      var before, s := Run(steps[..|steps| - 1]), steps[|steps| - 1];
      NotesBounded(steps[..|steps| - 1]);
      SubsetSize(After(before, s).Keys, before.Keys + if s.Submit? then {s.overlapped} else {});
      if !(s.Submit? && |before| < MAX_PENDING) { SubsetSize(After(before, s).Keys, before.Keys); }
    }
  }

  /**
   A completion is attributed to the latest accepted posting of its OVERLAPPED address that has
   been neither completed nor closed, and to nothing else.
   */
  lemma {:induction false} NotedExactly(steps: seq<Step>, o: Addr, r: Receive)
    ensures o in Run(steps) && Run(steps)[o] == r <==>
            exists k: nat :: Posts(steps, k, o, r) && Undisturbed(steps, k, o, r)
  {
    if steps == [] {
    } else {
      var n := |steps| - 1;
      var before, s := steps[..n], steps[n];
      assert steps == before + [s];
      NotedExactly(before, o, r);
      forall k: nat | Posts(steps, k, o, r) && Undisturbed(steps, k, o, r)
        ensures o in Run(steps) && Run(steps)[o] == r
      {
        if k < n { KeptUndisturbed(before, s, k, o, r); }
      }
      if o in Run(steps) && Run(steps)[o] == r {
        if s == Submit(o, r) && |Run(before)| < MAX_PENDING {
          assert Posts(steps, n, o, r) && Undisturbed(steps, n, o, r);
        } else {
          var k: nat :| Posts(before, k, o, r) && Undisturbed(before, k, o, r);
          KeptUndisturbed(before, s, k, o, r);
        }
      }
    }
  }

  // ----- postings that a full table drops -----

  /** Nothing after step `k` posts or completes `o`, or closes the socket of `r`. */
  predicate Last(steps: seq<Step>, k: nat, o: Addr, r: Receive) {
    && k < |steps| && steps[k] == Submit(o, r)
    && forall j :: k < j < |steps| ==>
         match steps[j]
         case Submit(p, _) => p != o
         case Complete(p) => p != o
         case Close(socket) => socket != r.socket
  }

  /**
   The completion of the latest posting of an address finds that posting, accepted or not,
   exactly when there was room for it or the very same receive was already noted.
   */
  lemma {:induction false} AttributedExactly(steps: seq<Step>, k: nat, o: Addr, r: Receive)
    requires Last(steps, k, o, r)
    ensures var before := Run(steps[..k]);
            o in Run(steps) && Run(steps)[o] == r <==> |before| < 4096 || (o in before && before[o] == r)
    decreases |steps|
  {
    var n := |steps| - 1;
    assert steps[..n][..k] == steps[..k];
    if k == n {
    } else {
      assert Last(steps[..n], k, o, r);
      AttributedExactly(steps[..n], k, o, r);
    }
  }

  /** `n` receives posted on socket 1, one per address. */
  function Posted(n: nat): (steps: seq<Step>)
    ensures |steps| == n
  {
    if n == 0 then [] else Posted(n - 1) + [Submit(n - 1, Receive(1, 0, 1))]
  }

  lemma RunSnoc(steps: seq<Step>, s: Step)
    ensures Run(steps + [s]) == After(Run(steps), s)
  {
    assert (steps + [s])[..|steps|] == steps;
  }

  lemma NewNote(notes: Notes, o: Addr, r: Receive)
    requires o !in notes
    ensures |notes[o := r]| == |notes| + 1
  {
    assert notes[o := r].Keys == notes.Keys + {o};
    assert |notes.Keys + {o}| == |notes.Keys| + 1;
  }

  lemma {:induction false} PostedRun(n: nat)
    requires n <= MAX_PENDING
    ensures var notes := Run(Posted(n));
            |notes| == n && (forall o: Addr :: o in notes <==> o < n) &&
            forall o: Addr :: o in notes ==> notes[o] == Receive(1, 0, 1)
  {
    if n == 0 {
    } else {
      PostedRun(n - 1);
      var before := Run(Posted(n - 1));
      RunSnoc(Posted(n - 1), Submit(n - 1, Receive(1, 0, 1)));
      NewNote(before, n - 1, Receive(1, 0, 1));
    }
  }

  /**
   A run in which data is captured for the wrong socket: the table is full, address 0 is posted
   again on socket 2, and its completion is captured for socket 1.
   */
  lemma WrongSocketWitness(n: nat, stamp: nat, data: seq<Byte>)
    requires n == MAX_PENDING && 0 < |data| <= MAX_BYTES
    ensures var steps := Posted(n) + [Submit(0, Receive(2, 0, 1))];
            && Last(steps, n, 0, Receive(2, 0, 1))
            && CompletionFrames(Run(steps), 0, stamp, |data|, _ => [Some(data)]) == [RawFrame(stamp, S2C, 1, data)]
  {
    PostedRun(n);
    RunSnoc(Posted(n), Submit(0, Receive(2, 0, 1)));
    OnePiece(stamp, data);
  }

  lemma OnePiece(stamp: nat, data: seq<Byte>)
    requires 0 < |data| <= MAX_BYTES
    ensures Kept(Pieces([Some(data)], |data|), stamp, S2C, 1) == [RawFrame(stamp, S2C, 1, data)]
  {
    assert data[..|data|] == data;
    assert Pieces([Some(data)], |data|) == [data];
  }
}
