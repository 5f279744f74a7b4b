/**
 The capture stream end to end: gathered buffers are pushed into the ring, drained batches are
 written as `[u8 direction][u64 socket][u32 length][payload]` records (`capture.rs`), and the
 listener (`listen_packets.py`) parses whatever chunks the connection delivers.
 */
module CaptureStream {
  import opened Bytes
  import opened FrameRing

  const HEADER: nat := 13
  const MAX_BYTES: nat := 64 * 1024 * 1024

  /** What the listener reports of a frame. */
  datatype Packet = Packet(direction: Direction, socket: nat, payload: seq<Byte>)

  /** The writer's direction byte, and the listener's reading of one. */
  function DirectionByte(d: Direction): Byte { if d.C2S? then 0 else 1 }

  function DirectionOf(b: Byte): Direction { if b == 0 then C2S else S2C }

  /** What is reported is the frames: direction, socket and payload of each, in order. */
  ghost predicate Reports(packets: seq<Packet>, frames: seq<RawFrame>) {
    && |packets| == |frames|
    && forall i :: 0 <= i < |frames| ==>
         && packets[i].direction == frames[i].direction
         && packets[i].socket == frames[i].socket
         && packets[i].payload == frames[i].bytes
  }

  function Packets(frames: seq<RawFrame>): (r: seq<Packet>)
    ensures Reports(r, frames)
  {
    seq(|frames|, i requires 0 <= i < |frames| => Packet(frames[i].direction, frames[i].socket, frames[i].bytes))
  }

  function Record(f: RawFrame): (bs: seq<Byte>)
    ensures |bs| == HEADER + |f.bytes|
  {
    [DirectionByte(f.direction)] + LeBytes(f.socket, 8) + LeBytes(|f.bytes|, 4) + f.bytes
  }

  /** One record on the wire: 0 for an outgoing frame and 1 for an incoming one, socket, length, payload. */
  lemma RecordLayout(f: RawFrame)
    requires f.socket < U64_LIMIT && |f.bytes| < U32_LIMIT
    ensures |Record(f)| == 13 + |f.bytes|
    ensures Record(f)[0] == (if f.direction == C2S then 0 else 1)
    ensures LeNat(Record(f)[1..9]) == f.socket
    ensures LeNat(Record(f)[9..13]) == |f.bytes|
    ensures Record(f)[13..] == f.bytes
  {
    Capacities();
    LeRoundTrip(f.socket, 8);
    LeRoundTrip(|f.bytes|, 4);
    PartsLayout(Record(f)[0], LeBytes(f.socket, 8), LeBytes(|f.bytes|, 4), f.bytes);
  }

  lemma PartsLayout(d: Byte, socket: seq<Byte>, length: seq<Byte>, body: seq<Byte>)
    requires |socket| == 8 && |length| == 4
    ensures var buf := [d] + socket + length + body;
            buf[0] == d && buf[1..9] == socket && buf[9..13] == length && buf[13..] == body
  {
  }

  function Records(frames: seq<RawFrame>): seq<Byte> {
    if frames == [] then [] else Record(frames[0]) + Records(frames[1..])
  }

  /** Frames the capture path lets through: a 64-bit socket and a payload of at most 64 MiB. */
  predicate Representable(f: RawFrame) {
    f.socket < U64_LIMIT && |f.bytes| <= MAX_BYTES
  }

  predicate AllRepresentable(frames: seq<RawFrame>) {
    forall i :: 0 <= i < |frames| ==> Representable(frames[i])
  }

  /** The server's write loop over one drained batch. */
  method WriteBatch(frames: seq<RawFrame>) returns (buf: seq<Byte>)
    ensures buf == Records(frames)
  {
    buf := [];
    for i := 0 to |frames|
      invariant buf + Records(frames[i..]) == Records(frames)
    {
      var f := frames[i];
      assert frames[i..][1..] == frames[i + 1..];
      RecordsCons(buf, frames, i);
      buf := buf + [DirectionByte(f.direction)];
      buf := buf + LeBytes(f.socket, 8);
      buf := buf + LeBytes(|f.bytes|, 4);
      buf := buf + f.bytes;
    }
    assert buf + [] == buf;
  }

  lemma RecordsCons(buf: seq<Byte>, frames: seq<RawFrame>, i: nat)
    requires i < |frames|
    ensures var f := frames[i];
            buf + Records(frames[i..]) ==
            buf + [DirectionByte(f.direction)] + LeBytes(f.socket, 8) + LeBytes(|f.bytes|, 4) + f.bytes + Records(frames[i + 1..])
  {
  }

  // ----- the listener -----

  /** Length of the record at the front of the buffer, if it is all there. */
  function FrontLength(buf: seq<Byte>): (n: nat)
    ensures n == 0 || HEADER <= n <= |buf|
  {
    if |buf| < HEADER then 0 else
    var n := HEADER + LeNat(buf[9..13]);
    if |buf| < n then 0 else n
  }

  function Front(buf: seq<Byte>): Packet
    requires FrontLength(buf) > 0
  {
    Packet(DirectionOf(buf[0]), LeNat(buf[1..9]), buf[13..FrontLength(buf)])
  }

  /** All complete records of the buffer, and the bytes left over. */
  function Split(buf: seq<Byte>): (r: (seq<Packet>, seq<Byte>))
    ensures FrontLength(r.1) == 0
    decreases |buf|
  {
    var n := FrontLength(buf);
    if n == 0 then ([], buf) else
    var rest := Split(buf[n..]);
    ([Front(buf)] + rest.0, rest.1)
  }

  class Listener {
    var buf: seq<Byte>
    var emitted: seq<Packet>

    constructor ()
      ensures buf == [] && emitted == []
    {
      buf := [];
      emitted := [];
    }

    /** One received chunk: parse as many complete records as the buffer holds. */
    method Feed(data: seq<Byte>)
      modifies this
      ensures emitted == old(emitted) + Split(old(buf) + data).0
      ensures buf == Split(old(buf) + data).1
      ensures FrontLength(buf) == 0
    {
      buf := buf + data;
      ghost var all := buf;
      assert emitted + Split(buf).0 == emitted + Split(all).0;
      while |buf| >= HEADER
        invariant emitted + Split(buf).0 == old(emitted) + Split(all).0
        invariant Split(buf).1 == Split(all).1
        decreases |buf|
      {
        var length := LeNat(buf[9..13]);
        if |buf| < HEADER + length { break; }
        var packet := Packet(DirectionOf(buf[0]), LeNat(buf[1..9]), buf[13..HEADER + length]);
        assert emitted + ([packet] + Split(buf[HEADER + length..]).0)
            == (emitted + [packet]) + Split(buf[HEADER + length..]).0;
        buf := buf[HEADER + length..];
        emitted := emitted + [packet];
      }
      assert emitted + [] == emitted;
    }

    /** A whole connection, chunk after chunk. */
    method FeedAll(chunks: seq<seq<Byte>>)
      requires FrontLength(buf) == 0
      modifies this
      ensures emitted == old(emitted) + Split(old(buf) + Join(chunks)).0
      ensures buf == Split(old(buf) + Join(chunks)).1
      ensures FrontLength(buf) == 0
    {
      assert chunks[..0] == [] && buf + [] == buf;
      assert emitted + [] == emitted;
      ghost var start, before := buf, emitted;
      for i := 0 to |chunks|
        invariant emitted == before + Split(start + Join(chunks[..i])).0
        invariant buf == Split(start + Join(chunks[..i])).1
        invariant FrontLength(buf) == 0
      {
        NextChunk(start, before, chunks, i);
        Feed(chunks[i]);
      }
      assert chunks[..|chunks|] == chunks;
    }
  }

  /** What has been parsed of `i` chunks, and what the next one adds. */
  lemma NextChunk(start: seq<Byte>, before: seq<Packet>, chunks: seq<seq<Byte>>, i: nat)
    requires i < |chunks|
    ensures var (now, next) := (Split(start + Join(chunks[..i])), Split(start + Join(chunks[..i + 1])));
            && next.1 == Split(now.1 + chunks[i]).1
            && before + next.0 == (before + now.0) + Split(now.1 + chunks[i]).0
  {
    var sofar := start + Join(chunks[..i]);
    JoinSnoc(chunks, i);
    ConcatAssoc(start, Join(chunks[..i]), chunks[i]);
    SplitAppend(sofar, chunks[i]);
    ConcatAssoc(before, Split(sofar).0, Split(Split(sofar).1 + chunks[i]).0);
  }

  function Join(chunks: seq<seq<Byte>>): seq<Byte> {
    if chunks == [] then [] else chunks[0] + Join(chunks[1..])
  }

  lemma {:induction false} JoinAppend(a: seq<seq<Byte>>, b: seq<seq<Byte>>)
    ensures Join(a + b) == Join(a) + Join(b)
  {
    if a == [] {
      assert a + b == b;
    } else {
      JoinAppend(a[1..], b);
      assert (a + b)[1..] == a[1..] + b;
      ConcatAssoc(a[0], Join(a[1..]), Join(b));
    }
  }

  lemma JoinTwo(chunks: seq<seq<Byte>>, k: nat)
    requires k <= |chunks|
    ensures Join(chunks[..k]) + Join(chunks[k..]) == Join(chunks)
  {
    assert chunks == chunks[..k] + chunks[k..];
    JoinAppend(chunks[..k], chunks[k..]);
  }

  lemma JoinSnoc(chunks: seq<seq<Byte>>, i: nat)
    requires i < |chunks|
    ensures Join(chunks[..i + 1]) == Join(chunks[..i]) + chunks[i]
  {
    assert chunks[..i + 1] == chunks[..i] + [chunks[i]];
    JoinAppend(chunks[..i], [chunks[i]]);
    assert Join([chunks[i]]) == chunks[i] + [];
  }

  /** A record that is complete stays the front record, whatever arrives after it. */
  lemma FrontStable(a: seq<Byte>, b: seq<Byte>)
    requires FrontLength(a) > 0
    ensures FrontLength(a + b) == FrontLength(a) && Front(a + b) == Front(a)
    ensures (a + b)[FrontLength(a)..] == a[FrontLength(a)..] + b
  {
    assert (a + b)[9..13] == a[9..13] && (a + b)[1..9] == a[1..9];
    assert (a + b)[13..FrontLength(a)] == a[13..FrontLength(a)];
  }

  /** Cutting the stream anywhere does not change what is parsed from it. */
  lemma {:induction false} SplitAppend(a: seq<Byte>, b: seq<Byte>)
    ensures Split(a + b).0 == Split(a).0 + Split(Split(a).1 + b).0
    ensures Split(a + b).1 == Split(Split(a).1 + b).1
    decreases |a|
  {
    var n := FrontLength(a);
    if n == 0 {
    } else {
      FrontStable(a, b);
      SplitFront(a);
      SplitFront(a + b);
      SplitAppend(a[n..], b);
      ConcatAssoc([Front(a)], Split(a[n..]).0, Split(Split(a).1 + b).0);
    }
  }

  lemma SplitFront(buf: seq<Byte>)
    requires FrontLength(buf) > 0
    ensures var rest := Split(buf[FrontLength(buf)..]); Split(buf) == ([Front(buf)] + rest.0, rest.1)
  {
  }

  lemma FrontOfParts(d: Byte, socket: seq<Byte>, length: seq<Byte>, body: seq<Byte>, tail: seq<Byte>)
    requires |socket| == 8 && |length| == 4 && LeNat(length) == |body|
    ensures var buf := [d] + socket + length + body + tail;
            && FrontLength(buf) == HEADER + |body|
            && Front(buf) == Packet(DirectionOf(d), LeNat(socket), body)
            && buf[HEADER + |body|..] == tail
  {
    var buf := [d] + socket + length + body + tail;
    assert buf[1..9] == socket && buf[9..13] == length && buf[13..13 + |body|] == body;
  }

  lemma FrontOfRecord(f: RawFrame, tail: seq<Byte>)
    requires Representable(f)
    ensures FrontLength(Record(f) + tail) == |Record(f)|
    ensures Front(Record(f) + tail) == Packet(f.direction, f.socket, f.bytes)
    ensures (Record(f) + tail)[|Record(f)|..] == tail
  {
    Capacities();
    LeRoundTrip(f.socket, 8);
    LeRoundTrip(|f.bytes|, 4);
    FrontOfParts(DirectionByte(f.direction), LeBytes(f.socket, 8), LeBytes(|f.bytes|, 4), f.bytes, tail);
  }

  lemma PacketsCons(frames: seq<RawFrame>, more: seq<Packet>)
    requires frames != []
    ensures var f := frames[0];
            Packets(frames) + more == [Packet(f.direction, f.socket, f.bytes)] + (Packets(frames[1..]) + more)
  {
  }

  /** Written records are parsed back in order, and what follows them is parsed as if alone. */
  lemma {:induction false} SplitRecords(frames: seq<RawFrame>, tail: seq<Byte>)
    requires AllRepresentable(frames)
    ensures Split(Records(frames) + tail) == (Packets(frames) + Split(tail).0, Split(tail).1)
  {
    if frames == [] {
      assert Records(frames) + tail == tail;
      assert Packets(frames) + Split(tail).0 == Split(tail).0;
      assert Split(tail) == (Split(tail).0, Split(tail).1);
    } else {
      var rest := Records(frames[1..]) + tail;
      assert Records(frames) + tail == Record(frames[0]) + rest;
      FrontOfRecord(frames[0], rest);
      SplitRecords(frames[1..], tail);
      PacketsCons(frames, Split(tail).0);
    }
  }

  lemma {:induction false} RecordsAppend(a: seq<RawFrame>, b: seq<RawFrame>)
    ensures Records(a + b) == Records(a) + Records(b)
  {
    if a == [] {
      assert a + b == b;
    } else {
      RecordsAppend(a[1..], b);
      assert (a + b)[1..] == a[1..] + b;
      ConcatAssoc(Record(a[0]), Records(a[1..]), Records(b));
    }
  }

  // ----- from the ring to the listener -----

  datatype Event = Captured(frame: RawFrame) | Drained

  /** `capture` refuses empty and oversized payloads. */
  function Taken(f: RawFrame): (r: seq<RawFrame>)
    ensures |f.bytes| == 0 || |f.bytes| > 67108864 <==> r == []
    ensures r == [] || r == [f]
  {
    if 0 < |f.bytes| <= MAX_BYTES then [f] else []
  }

  /** Frames handed to the connection when capture and drain events follow each other. */
  function Delivered(pushed: seq<RawFrame>, events: seq<Event>, maxFrames: nat, maxBytes: nat): seq<RawFrame>
    decreases |events|
  {
    if events == [] then []
    else match events[0]
      case Captured(f) => Delivered(pushed + Taken(f), events[1..], maxFrames, maxBytes)
      case Drained => Newest(pushed, maxFrames, maxBytes) + Delivered([], events[1..], maxFrames, maxBytes)
  }

  /** What an event sends, and what the ring has been given since then. */
  function Sent(pushed: seq<RawFrame>, e: Event, maxFrames: nat, maxBytes: nat): seq<RawFrame> {
    if e.Drained? then Newest(pushed, maxFrames, maxBytes) else []
  }

  function Held(pushed: seq<RawFrame>, e: Event): seq<RawFrame> {
    if e.Drained? then [] else pushed + Taken(e.frame)
  }

  lemma DeliveredStep(out: seq<RawFrame>, pushed: seq<RawFrame>, events: seq<Event>, i: nat, maxFrames: nat, maxBytes: nat)
    requires i < |events|
    ensures out + Delivered(pushed, events[i..], maxFrames, maxBytes) ==
            (out + Sent(pushed, events[i], maxFrames, maxBytes)) +
            Delivered(Held(pushed, events[i]), events[i + 1..], maxFrames, maxBytes)
  {
    assert events[i..][0] == events[i] && events[i..][1..] == events[i + 1..];
    ConcatAssoc(out, Sent(pushed, events[i], maxFrames, maxBytes),
                Delivered(Held(pushed, events[i]), events[i + 1..], maxFrames, maxBytes));
  }

  /** A capture pushes; a tick of the server drains the ring and encodes the batch. */
  method ServeEvent(ring: Ring, e: Event) returns (buf: seq<Byte>)
    requires ring.Valid()
    modifies ring
    ensures ring.Valid() && ring.pushed == Held(old(ring.pushed), e)
    ensures buf == Records(Sent(old(ring.pushed), e, ring.maxFrames, ring.maxBytes))
  {
    match e {
      case Captured(f) =>
        Capture(ring, f.timestamp, f.direction, f.socket, f.bytes);
        buf := [];
      case Drained =>
        var frames := ring.Drain();
        buf := WriteBatch(frames);
    }
  }

  /** The capture side: what the connection writes while captures and ticks follow each other. */
  method Serve(ring: Ring, events: seq<Event>) returns (stream: seq<Byte>)
    requires ring.Valid()
    modifies ring
    ensures ring.Valid()
    ensures stream == Records(Delivered(old(ring.pushed), events, ring.maxFrames, ring.maxBytes))
  {
    stream := [];
    ghost var out: seq<RawFrame> := [];
    ghost var all := Delivered(ring.pushed, events, ring.maxFrames, ring.maxBytes);
    var i := 0;
    assert events[0..] == events && out + all == all;
    while i < |events|
      invariant i <= |events| && ring.Valid()
      invariant stream == Records(out)
      invariant out + Delivered(ring.pushed, events[i..], ring.maxFrames, ring.maxBytes) == all
    {
      DeliveredStep(out, ring.pushed, events, i, ring.maxFrames, ring.maxBytes);
      ghost var sent := Sent(ring.pushed, events[i], ring.maxFrames, ring.maxBytes);
      var buf := ServeEvent(ring, events[i]);
      RecordsAppend(out, sent);
      stream, out := stream + buf, out + sent;
      i := i + 1;
    }
    assert out + [] == out;
  }

  lemma ParsedPrefix(frames: seq<RawFrame>, sofar: seq<Byte>, coming: seq<Byte>)
    requires AllRepresentable(frames) && sofar + coming == Records(frames)
    ensures Split(sofar + coming) == (Packets(frames), [])
    ensures Split(sofar).0 <= Packets(frames)
  {
    SplitRecords(frames, []);
    assert Records(frames) + [] == Records(frames);
    assert Packets(frames) + [] == Packets(frames);
    SplitAppend(sofar, coming);
  }

  lemma ReportsPrefix(some: seq<Packet>, packets: seq<Packet>, frames: seq<RawFrame>)
    requires some <= packets && Reports(packets, frames)
    ensures |some| <= |frames| && Reports(some, frames[..|some|])
  {
  }

  /**
   However the byte stream is cut into chunks, the listener reports exactly the delivered
   frames in order and keeps nothing back; after some of the chunks, the first few of them.
   */
  lemma EndToEnd(frames: seq<RawFrame>, chunks: seq<seq<Byte>>, k: nat)
    requires AllRepresentable(frames) && Join(chunks) == Records(frames) && k <= |chunks|
    ensures Reports(Split(Join(chunks)).0, frames) && Split(Join(chunks)).1 == []
    ensures var some := Split(Join(chunks[..k])).0; |some| <= |frames| && Reports(some, frames[..|some|])
  {
    var (sofar, coming) := (Join(chunks[..k]), Join(chunks[k..]));
    JoinTwo(chunks, k);
    ParsedPrefix(frames, sofar, coming);
    ReportsPrefix(Split(sofar).0, Packets(frames), frames);
  }

  /** Sockets are 64-bit handles. */
  predicate SocketsFit(events: seq<Event>) {
    forall i :: 0 <= i < |events| && events[i].Captured? ==> events[i].frame.socket < U64_LIMIT
  }

  /** What the capture filter lets into the ring can be written and read back. */
  lemma {:induction false} DeliveredRepresentable(pushed: seq<RawFrame>, events: seq<Event>, maxFrames: nat, maxBytes: nat)
    requires AllRepresentable(pushed) && SocketsFit(events)
    ensures AllRepresentable(Delivered(pushed, events, maxFrames, maxBytes))
    decreases |events|
  {
    if events == [] {
    } else {
      match events[0] {
        case Captured(f) =>
          DeliveredRepresentable(pushed + Taken(f), events[1..], maxFrames, maxBytes);
        case Drained =>
          NewestIsLongest(pushed, |pushed|, maxFrames, maxBytes);
          DeliveredRepresentable([], events[1..], maxFrames, maxBytes);
      }
    }
  }

  /** A way of cutting any byte stream into chunks. */
  ghost predicate Cuts(cut: seq<Byte> -> seq<seq<Byte>>) { forall s :: Join(cut(s)) == s }

  /**
   From the hooked calls to the listener: whatever is captured and drained in whatever order,
   and however the connection cuts the stream, the listener reports exactly the delivered
   frames, in order, and keeps nothing back.
   */
  method Tap(ring: Ring, listener: Listener, events: seq<Event>, cut: seq<Byte> -> seq<seq<Byte>>)
    requires ring.Valid() && ring.pushed == [] && listener.buf == [] && SocketsFit(events) && Cuts(cut)
    modifies ring, listener
    ensures ring.Valid() && listener.buf == []
    ensures old(listener.emitted) <= listener.emitted
    ensures Reports(listener.emitted[|old(listener.emitted)|..], Delivered([], events, ring.maxFrames, ring.maxBytes))
  {
    var stream := Serve(ring, events);
    ghost var frames := Delivered([], events, ring.maxFrames, ring.maxBytes);
    DeliveredRepresentable([], events, ring.maxFrames, ring.maxBytes);
    listener.FeedAll(cut(stream));
    EndToEnd(frames, cut(stream), 0);
    assert [] + stream == stream;
  }

  /** A frame within the limits at every drain: the limits never evict anything. */
  predicate NeverOverfull(pushed: seq<RawFrame>, events: seq<Event>, maxFrames: nat, maxBytes: nat)
    decreases |events|
  {
    if events == [] then true
    else match events[0]
      case Captured(f) => NeverOverfull(pushed + Taken(f), events[1..], maxFrames, maxBytes)
      case Drained => FitsIn(pushed, maxFrames, maxBytes) && NeverOverfull([], events[1..], maxFrames, maxBytes)
  }

  /** The frames captured by the events, in order: what passed the size filter. */
  function CapturedFrames(events: seq<Event>): seq<RawFrame> {
    if events == [] then []
    else (if events[0].Captured? then Taken(events[0].frame) else []) + CapturedFrames(events[1..])
  }

  lemma CapturedFramesSnoc(events: seq<Event>)
    ensures CapturedFrames(events + [Drained]) == CapturedFrames(events)
  {
    if events == [] {
      assert [] + [Drained] == [Drained];
    } else {
      CapturedFramesSnoc(events[1..]);
      assert (events + [Drained])[1..] == events[1..] + [Drained];
    }
  }

  /** Without overflow nothing is lost: what is delivered by a final drain is all that was captured. */
  lemma {:induction false} LosslessWithinLimits(pushed: seq<RawFrame>, events: seq<Event>, maxFrames: nat, maxBytes: nat)
    requires NeverOverfull(pushed, events + [Drained], maxFrames, maxBytes)
    ensures Delivered(pushed, events + [Drained], maxFrames, maxBytes) == pushed + CapturedFrames(events)
    decreases |events|
  {
    var all := events + [Drained];
    if events == [] {
      assert all == [Drained] && all[1..] == [];
      assert NeverOverfull([], [], maxFrames, maxBytes);
      assert pushed + [] == pushed;
    } else {
      assert all[0] == events[0] && all[1..] == events[1..] + [Drained];
      match events[0] {
        case Captured(f) =>
          LosslessWithinLimits(pushed + Taken(f), events[1..], maxFrames, maxBytes);
          ConcatAssoc(pushed, Taken(f), CapturedFrames(events[1..]));
        case Drained =>
          LosslessWithinLimits([], events[1..], maxFrames, maxBytes);
          assert [] + CapturedFrames(events[1..]) == CapturedFrames(events[1..]);
      }
    }
  }

  /** A drain delivers the newest fitting suffix of everything captured since the one before it. */
  lemma {:induction false} DrainDelivers(pushed: seq<RawFrame>, caught: seq<Event>, rest: seq<Event>,
                                         maxFrames: nat, maxBytes: nat)
    requires forall e :: e in caught ==> e.Captured?
    ensures Delivered(pushed, caught + [Drained] + rest, maxFrames, maxBytes) ==
            Newest(pushed + CapturedFrames(caught), maxFrames, maxBytes) + Delivered([], rest, maxFrames, maxBytes)
    decreases |caught|
  {
    var all := caught + [Drained] + rest;
    if caught == [] {
      assert all[0] == Drained && all[1..] == rest;
      assert pushed + [] == pushed;
    } else {
      var f := caught[0].frame;
      assert all[0] == caught[0] && all[1..] == caught[1..] + [Drained] + rest;
      DrainDelivers(pushed + Taken(f), caught[1..], rest, maxFrames, maxBytes);
      ConcatAssoc(pushed, Taken(f), CapturedFrames(caught[1..]));
    }
  }

  // ----- gathered buffers -----

  function Min(a: nat, b: nat): nat { if a < b then a else b }

  /** The pieces `capture_wsabufs` takes from the buffers: at most `max` bytes, null and empty ones skipped. */
  function Pieces(bufs: seq<Option<seq<Byte>>>, max: nat): seq<seq<Byte>> {
    if bufs == [] || max == 0 then []
    else if bufs[0].None? || bufs[0].value == [] then Pieces(bufs[1..], max)
    else
      var take := Min(max, |bufs[0].value|);
      [bufs[0].value[..take]] + Pieces(bufs[1..], max - take)
  }

  function Contents(bufs: seq<Option<seq<Byte>>>): seq<Byte> {
    if bufs == [] then [] else (if bufs[0].Some? then bufs[0].value else []) + Contents(bufs[1..])
  }

  lemma TakeAcross(b: seq<Byte>, rest: seq<Byte>, max: nat)
    ensures var take := Min(max, |b|);
            (b + rest)[..Min(max, |b + rest|)] == b[..take] + rest[..Min(max - take, |rest|)]
  {
  }

  lemma ContentsCons(bufs: seq<Option<seq<Byte>>>)
    requires bufs != []
    ensures bufs[0].None? || bufs[0].value == [] ==> Contents(bufs) == Contents(bufs[1..])
    ensures bufs[0].Some? ==> Contents(bufs) == bufs[0].value + Contents(bufs[1..])
  {
  }

  /** The pieces are the first `max` bytes of the buffers' contents, none of them empty. */
  lemma {:induction false} PiecesExact(bufs: seq<Option<seq<Byte>>>, max: nat)
    ensures Join(Pieces(bufs, max)) == Contents(bufs)[..Min(max, |Contents(bufs)|)]
    ensures forall p :: p in Pieces(bufs, max) ==> p != []
  {
    if bufs == [] || max == 0 {
    } else {
      ContentsCons(bufs);
      if bufs[0].None? || bufs[0].value == [] {
        PiecesExact(bufs[1..], max);
      } else {
        var take := Min(max, |bufs[0].value|);
        PiecesExact(bufs[1..], max - take);
        TakeAcross(bufs[0].value, Contents(bufs[1..]), max);
      }
    }
  }

  /** Frames pushed for the pieces. */
  function Kept(pieces: seq<seq<Byte>>, stamp: nat, d: Direction, socket: nat): seq<RawFrame> {
    if pieces == [] then []
    else Taken(RawFrame(stamp, d, socket, pieces[0])) + Kept(pieces[1..], stamp, d, socket)
  }

  function Payloads(frames: seq<RawFrame>): seq<Byte> {
    if frames == [] then [] else frames[0].bytes + Payloads(frames[1..])
  }

  lemma {:induction false} KeptPieces(pieces: seq<seq<Byte>>, stamp: nat, d: Direction, socket: nat)
    requires forall p :: p in pieces ==> 0 < |p| <= 0x400_0000
    ensures Payloads(Kept(pieces, stamp, d, socket)) == Join(pieces)
    ensures forall f :: f in Kept(pieces, stamp, d, socket) ==> f.timestamp == stamp && f.direction == d && f.socket == socket
  {
    if pieces == [] {
    } else {
      KeptPieces(pieces[1..], stamp, d, socket);
      assert pieces[0] in pieces;
    }
  }

  lemma {:induction false} PiecesBounded(bufs: seq<Option<seq<Byte>>>, max: nat)
    ensures forall p :: p in Pieces(bufs, max) ==> |p| <= max
  {
    if bufs == [] || max == 0 {
    } else if bufs[0].None? || bufs[0].value == [] {
      PiecesBounded(bufs[1..], max);
    } else {
      PiecesBounded(bufs[1..], max - Min(max, |bufs[0].value|));
    }
  }

  /**
   A gathered transfer of at most 64 MiB is captured completely: frames of its socket, direction
   and time whose payloads are, in order, the first `max` bytes of the buffers.
   */
  lemma GatheredExactly(bufs: seq<Option<seq<Byte>>>, max: nat, stamp: nat, d: Direction, socket: nat)
    requires max <= 0x400_0000
    ensures var frames := Kept(Pieces(bufs, max), stamp, d, socket);
            && Payloads(frames) == (if |Contents(bufs)| <= max then Contents(bufs) else Contents(bufs)[..max])
            && forall f :: f in frames ==> f.timestamp == stamp && f.direction == d && f.socket == socket
  {
    PiecesExact(bufs, max);
    PiecesBounded(bufs, max);
    KeptPieces(Pieces(bufs, max), stamp, d, socket);
  }

  method Capture(ring: Ring, stamp: nat, d: Direction, socket: nat, bytes: seq<Byte>)
    requires ring.Valid()
    modifies ring
    ensures ring.Valid()
    ensures ring.pushed == old(ring.pushed) + Taken(RawFrame(stamp, d, socket, bytes))
  {
    assert ring.pushed + [] == ring.pushed;
    if |bytes| == 0 || |bytes| > MAX_BYTES { return; }
    ring.Push(RawFrame(stamp, d, socket, bytes));
  }

  /** Frames captured from buffer `i` on add up to those of the buffer and those of the rest. */
  lemma GatherStep(bufs: seq<Option<seq<Byte>>>, i: nat, remaining: nat, stamp: nat, d: Direction, socket: nat)
    requires i < |bufs| && remaining > 0 && bufs[i].Some? && bufs[i].value != []
    ensures var b := bufs[i].value; var take := Min(remaining, |b|);
            Kept(Pieces(bufs[i..], remaining), stamp, d, socket) ==
            Taken(RawFrame(stamp, d, socket, b[..take])) + Kept(Pieces(bufs[i + 1..], remaining - take), stamp, d, socket)
  {
  }

  lemma GatherSkip(bufs: seq<Option<seq<Byte>>>, i: nat, remaining: nat)
    requires i < |bufs| && (bufs[i].None? || bufs[i].value == [])
    ensures Pieces(bufs[i..], remaining) == Pieces(bufs[i + 1..], remaining)
  {
  }

  /** One turn of the loop: what of buffer `i` is captured, and how many bytes are still wanted. */
  method CaptureBuffer(ring: Ring, stamp: nat, d: Direction, socket: nat,
                       bufs: seq<Option<seq<Byte>>>, i: nat, remaining: nat)
    returns (left: nat, ghost got: seq<RawFrame>, ghost rest: seq<RawFrame>)
    requires ring.Valid() && i < |bufs| && remaining > 0
    modifies ring
    ensures ring.Valid() && ring.pushed == old(ring.pushed) + got
    ensures Kept(Pieces(bufs[i..], remaining), stamp, d, socket) == got + rest
    ensures rest == Kept(Pieces(bufs[i + 1..], left), stamp, d, socket)
  {
    if bufs[i].None? || bufs[i].value == [] {
      GatherSkip(bufs, i, remaining);
      left, got := remaining, [];
    } else {
      var take := Min(remaining, |bufs[i].value|);
      GatherStep(bufs, i, remaining, stamp, d, socket);
      Capture(ring, stamp, d, socket, bufs[i].value[..take]);
      left, got := remaining - take, Taken(RawFrame(stamp, d, socket, bufs[i].value[..take]));
    }
    rest := Kept(Pieces(bufs[i + 1..], left), stamp, d, socket);
  }

  /** `capture_wsabufs` with the ring free: the frames of exactly the pieces, in order. */
  method CaptureGathered(ring: Ring, stamp: nat, d: Direction, socket: nat, bufs: seq<Option<seq<Byte>>>, max: nat)
    requires ring.Valid()
    modifies ring
    ensures ring.Valid() && ring.pushed == old(ring.pushed) + Kept(Pieces(bufs, max), stamp, d, socket)
  {
    var remaining: nat := max;
    var i := 0;
    ghost var all := Kept(Pieces(bufs, max), stamp, d, socket);
    ghost var rest := all;
    ghost var whole := ring.pushed + all;
    assert bufs[0..] == bufs;
    while i < |bufs| && remaining != 0
      invariant i <= |bufs| && ring.Valid()
      invariant whole == ring.pushed + rest
      invariant rest == Kept(Pieces(bufs[i..], remaining), stamp, d, socket)
      decreases |bufs| - i
    {
      ghost var got;
      ghost var before := ring.pushed;
      remaining, got, rest := CaptureBuffer(ring, stamp, d, socket, bufs, i, remaining);
      ConcatAssoc(before, got, rest);
      i := i + 1;
    }
    NoPieces(bufs[i..], remaining);
    assert whole == ring.pushed + [];
  }

  lemma NoPieces(bufs: seq<Option<seq<Byte>>>, max: nat)
    requires bufs == [] || max == 0
    ensures Pieces(bufs, max) == []
  {
  }
}
