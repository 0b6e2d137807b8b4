/** Proxy::read: packets for the SDK handed out as a byte stream. */
module SdkStream {
  import opened Bytes
  import P = Packets

  type Frame = seq<Byte>

  /** The SDK's channel, the byte queue and the first-read flag, with the history of what passed through. */
  datatype Stream = Stream(
    arrived: seq<Frame>,     // packets ever sent to the channel, as bytes
    taken: nat,              // how many of them have been received from it
    buffer: seq<Byte>,
    hasReceived: bool,
    dropped: seq<Byte>,      // history
    returned: seq<Byte>)     // history: the results of all reads, concatenated

  const EMPTY: Stream := Stream([], 0, [], false, [], [])

  datatype Event = Arrive(frame: Frame) | Read(len: nat)

  /** How many bytes the first read drops: none when the SDK is looking for frame bytes one at a time. */
  function DropCount(len: nat): (n: nat)
    ensures n == 0 || n == 2 || n == 4
  {
    if len == 1 then 0 else if len == 2 then 2 else 4
  }

  /** Encoded packets have at least 11 bytes; a read blocks while there is nothing to read from. */
  predicate Possible(s: Stream, e: Event) {
    match e
    case Arrive(frame) => |frame| >= 11
    case Read(_) => s.buffer != [] || s.taken < |s.arrived|
  }

  /** The byte queue refilled with one packet when it has run empty. */
  function Refilled(s: Stream): Stream
    requires Possible(s, Read(0))
  {
    if s.buffer != [] then s else s.(taken := s.taken + 1, buffer := s.arrived[s.taken])
  }

  /** The first read drops what the SDK believes it has already consumed. */
  function Aligned(s: Stream, len: nat): Stream
    requires s.hasReceived || DropCount(len) <= |s.buffer|
  {
    if s.hasReceived then s
    else s.(hasReceived := true, buffer := s.buffer[DropCount(len)..], dropped := s.dropped + s.buffer[..DropCount(len)])
  }

  function Min(x: nat, y: nat): nat {
    if x < y then x else y
  }

  function Taken(s: Stream, n: nat): Stream
    requires n <= |s.buffer|
  {
    s.(buffer := s.buffer[n..], returned := s.returned + s.buffer[..n])
  }

  // ---- conservation ----

  function Flat(parts: seq<Frame>): seq<Byte> {
    if parts == [] then [] else parts[0] + Flat(parts[1..])
  }

  /** Nothing is lost, duplicated or reordered. */
  predicate Conserved(s: Stream) {
    s.taken <= |s.arrived| && s.dropped + s.returned + s.buffer == Flat(s.arrived[..s.taken])
  }

  predicate EndsWith(whole: seq<Byte>, tail: seq<Byte>) {
    |tail| <= |whole| && tail == whole[|whole| - |tail|..]
  }

  /** The queue holds the end of the last packet taken, so no read crosses a packet boundary. */
  predicate WithinFrame(s: Stream) {
    if 0 < s.taken <= |s.arrived| then EndsWith(s.arrived[s.taken - 1], s.buffer) else s.buffer == []
  }

  predicate Inv(s: Stream) {
    && Conserved(s) && WithinFrame(s)
    && (forall i | 0 <= i < |s.arrived| :: |s.arrived[i]| >= 11)
    && (!s.hasReceived ==> s.buffer == [] && s.taken == 0 && s.dropped == [] && s.returned == [])
  }

  lemma {:induction false} FlatSnoc(parts: seq<Frame>, part: Frame)
    ensures Flat(parts + [part]) == Flat(parts) + part
  {
    if parts == [] {
      assert parts + [part] == [part];
      assert Flat([part]) == part + Flat([part][1..]);
    } else {
      assert (parts + [part])[1..] == parts[1..] + [part];
      FlatSnoc(parts[1..], part);
    }
  }

  lemma RefillKeeps(s: Stream)
    requires Inv(s) && Possible(s, Read(0))
    ensures var r := Refilled(s);
            && Conserved(r) && WithinFrame(r) && r.buffer != [] && 0 < r.taken
            && (!s.hasReceived ==> |r.buffer| >= 11)
  {
    if s.buffer == [] {
      FlatSnoc(s.arrived[..s.taken], s.arrived[s.taken]);
      assert s.arrived[..s.taken + 1] == s.arrived[..s.taken] + [s.arrived[s.taken]];
    }
  }

  // ---- reads ----

  /** The state from which a read takes its bytes. */
  function Ready(s: Stream, len: nat): Stream
    requires Inv(s) && Possible(s, Read(len))
  {
    RefillKeeps(s);
    Aligned(Refilled(s), len)
  }

  /** What a read returns. */
  function Output(s: Stream, len: nat): seq<Byte>
    requires Inv(s) && Possible(s, Read(len))
  {
    var r := Ready(s, len);
    r.buffer[..Min(len, |r.buffer|)]
  }

  function Handle(s: Stream, e: Event): Stream
    requires Inv(s) && Possible(s, e)
  {
    match e
    case Arrive(frame) => s.(arrived := s.arrived + [frame])
    case Read(len) => Taken(Ready(s, len), |Output(s, len)|)
  }

  lemma Regroup(a: seq<Byte>, b: seq<Byte>, n: nat)
    requires n <= |b|
    ensures a + b == a + b[..n] + b[n..]
  {
    assert b == b[..n] + b[n..];
  }

  lemma AlignKeeps(s: Stream, len: nat)
    requires Conserved(s) && WithinFrame(s) && (s.hasReceived || (DropCount(len) < |s.buffer| && s.returned == []))
    ensures var a := Aligned(s, len);
            && Conserved(a) && WithinFrame(a) && a.hasReceived && (s.buffer != [] ==> a.buffer != [])
            && |a.dropped| == |s.dropped| + (if s.hasReceived then 0 else DropCount(len))
  {
    if !s.hasReceived {
      hide Flat;
      Regroup(s.dropped, s.buffer, DropCount(len));
      var a := Aligned(s, len);
      assert a.dropped + [] + a.buffer == s.dropped + [] + s.buffer;
    }
  }

  lemma TakeKeeps(s: Stream, n: nat)
    requires Conserved(s) && WithinFrame(s) && n <= |s.buffer|
    ensures Conserved(Taken(s, n)) && WithinFrame(Taken(s, n))
  {
    hide Flat;
    Regroup(s.dropped + s.returned, s.buffer, n);
    assert s.dropped + (s.returned + s.buffer[..n]) == s.dropped + s.returned + s.buffer[..n];
  }

  lemma ReadyKeeps(s: Stream, len: nat)
    requires Inv(s) && Possible(s, Read(len))
    ensures var a := Ready(s, len);
            && Conserved(a) && WithinFrame(a) && a.hasReceived && a.buffer != [] && 0 < a.taken
            && a.arrived == s.arrived && a.returned == s.returned
            && |a.dropped| == |s.dropped| + (if s.hasReceived then 0 else DropCount(len))
  {
    RefillKeeps(s);
    hide Conserved;
    hide WithinFrame;
    AlignKeeps(Refilled(s), len);
  }

  lemma EndOfFrame(s: Stream, n: nat)
    requires WithinFrame(s) && 0 < s.taken <= |s.arrived| && n <= |s.buffer|
    ensures EndsWith(s.arrived[s.taken - 1], s.buffer[..n] + s.buffer[n..])
  {
    assert s.buffer[..n] + s.buffer[n..] == s.buffer;
  }

  /**
   * A read keeps the invariant and returns between 1 and len bytes, all from within a single packet and fewer than len
   * only up to that packet's end.
   */
  lemma ReadKeeps(s: Stream, len: nat)
    requires Inv(s) && Possible(s, Read(len))
    ensures var t, out := Handle(s, Read(len)), Output(s, len);
            && Inv(t) && t.hasReceived && t.arrived == s.arrived && t.returned == s.returned + out
            && |t.dropped| == |s.dropped| + (if s.hasReceived then 0 else DropCount(len))
            && |out| <= len && (len > 0 ==> out != []) && (|out| == len || t.buffer == [])
            && 0 < t.taken && EndsWith(t.arrived[t.taken - 1], out + t.buffer)
  {
    ReadyKeeps(s, len);
    var r := Ready(s, len);
    hide Ready;
    hide Conserved;
    hide Flat;
    hide EndsWith;
    var n := Min(len, |r.buffer|);
    TakeKeeps(r, n);
    EndOfFrame(r, n);
  }

  lemma ArriveKeeps(s: Stream, frame: Frame)
    requires Inv(s) && |frame| >= 11
    ensures Inv(Handle(s, Arrive(frame)))
  {
    hide Flat;
    assert (s.arrived + [frame])[..s.taken] == s.arrived[..s.taken];
  }

  function Arrived(e: Event): seq<Frame> {
    if e.Arrive? then [e.frame] else []
  }

  lemma StepKeeps(s: Stream, e: Event)
    requires Inv(s) && Possible(s, e)
    ensures var t := Handle(s, e);
            && Inv(t) && t.arrived == s.arrived + Arrived(e)
            && t.hasReceived == (s.hasReceived || e.Read?)
            && |t.dropped| == |s.dropped| + if s.hasReceived || e.Arrive? then 0 else DropCount(e.len)
  {
    match e {
      case Arrive(frame) => ArriveKeeps(s, frame);
      case Read(len) => ReadKeeps(s, len);
    }
  }

  ghost predicate Run(s: Stream, events: seq<Event>, last: Stream)
    requires Inv(s)
    decreases |events|
  {
    if events == [] then last == s
    else Possible(s, events[0]) && (StepKeeps(s, events[0]); Run(Handle(s, events[0]), events[1..], last))
  }

  function Arrivals(events: seq<Event>): seq<Frame> {
    if events == [] then [] else Arrived(events[0]) + Arrivals(events[1..])
  }

  /** What the first read of a run drops. */
  function Dropped(events: seq<Event>): nat {
    if events == [] then 0 else if events[0].Read? then DropCount(events[0].len) else Dropped(events[1..])
  }

  lemma Assoc(a: seq<Frame>, b: seq<Frame>, c: seq<Frame>)
    ensures a + b + c == a + (b + c)
  {}

  lemma {:induction false} RunKeeps(s: Stream, events: seq<Event>, last: Stream)
    requires Inv(s) && Run(s, events, last)
    ensures Inv(last)
    ensures last.arrived == s.arrived + Arrivals(events)
    ensures |last.dropped| == |s.dropped| + if s.hasReceived then 0 else Dropped(events)
    decreases |events|
  {
    if events == [] {
      assert s.arrived + [] == s.arrived;
    } else {
      StepKeeps(s, events[0]);
      var t := Handle(s, events[0]);
      hide Inv;
      hide Handle;
      RunKeeps(t, events[1..], last);
      Assoc(s.arrived, Arrived(events[0]), Arrivals(events[1..]));
    }
  }

  /**
   * Over any run of arrivals and reads, the dropped prefix, all returned bytes and the bytes still queued are together
   * exactly the encodings of the packets taken, a prefix of those that arrived; the drop happens once and its size is
   * settled by the first read.
   */
  lemma StreamOverRuns(events: seq<Event>, last: Stream)
    requires Run(EMPTY, events, last)
    ensures last.arrived == Arrivals(events) && last.taken <= |last.arrived|
    ensures last.dropped + last.returned + last.buffer == Flat(last.arrived[..last.taken])
    ensures |last.dropped| == Dropped(events)
  {
    RunKeeps(EMPTY, events, last);
  }

  /**
   * What the first read shows of the first packet: to a reader that asks for one byte, the first frame byte; to one that
   * asks for two, the length; and to any other, which takes itself to have read four bytes already, what follows these.
   */
  lemma FirstReadShows(s: Stream, len: nat, p: P.Packet)
    requires Inv(s) && !s.hasReceived && s.arrived != [] && len > 0
    requires P.Encodable(p.payload) && s.arrived[0] == P.PacketBytes(p)
    ensures |P.PacketBytes(p)| >= 11
    ensures var f := P.PacketBytes(p);
            && Output(s, len) == (if len == 1 then [68]
                                  else if len == 2 then [p.length % 0x100, p.length / 0x100]
                                  else if len <= |f| - 4 then f[4..4 + len] else f[4..])
            && Handle(s, Read(len)).dropped == (if len == 1 then [] else if len == 2 then [68, 75] else f[..4])
  {
    hide P.CommandBytes;
    var f := P.PacketBytes(p);
    assert f[..10] == P.Header(p);
    var h := P.Header(p);
    assert h[0] == 68 && h[..2] == [68, 75] && h[2..4] == U16Bytes(p.length);
    assert f[0] == f[..10][0] && f[..2] == f[..10][..2] && f[2..4] == f[..10][2..4];
    hide P.PacketBytes;
    hide P.Header;
    var r := Refilled(s);
    assert r.buffer == f && s.dropped == [];
    assert f[..1] == [f[0]] && f[2..][..2] == f[2..4];
    if 2 < len <= |f| - 4 {
      assert f[4..][..len] == f[4..4 + len];
    }
  }

  // ---- the proxy's own loops ----

  lemma SealSame(p: P.Packet)
    requires P.Encodable(p.payload)
    ensures P.Encodable(P.Seal(p).payload) && P.PacketBytes(P.Seal(p)) == P.PacketBytes(p)
  {}

  lemma ReadFields(s: Stream, len: nat)
    requires Inv(s) && Possible(s, Read(len))
    ensures var r, t := Refilled(s), Handle(s, Read(len));
            && (s.hasReceived || DropCount(len) <= |r.buffer|)
            && t.arrived == s.arrived && t.taken == r.taken && t.hasReceived
            && var queue := if s.hasReceived then r.buffer else r.buffer[DropCount(len)..];
               var n := Min(len, |queue|);
               Output(s, len) == queue[..n] && t.buffer == queue[n..]
  {
    RefillKeeps(s);
  }

  class ByteProxy {
    var sdkReceive: seq<P.Packet>
    var sdkBuffer: seq<Byte>
    var sdkHasReceived: bool

    constructor ()
      ensures sdkReceive == [] && sdkBuffer == [] && !sdkHasReceived
    {
      sdkReceive, sdkBuffer, sdkHasReceived := [], [], false;
    }

    /** The channel holds the packets that arrived and have not been taken. */
    ghost predicate Queued(arrived: seq<Frame>, taken: nat)
      reads this`sdkReceive
    {
      |arrived| == taken + |sdkReceive|
      && forall i | 0 <= i < |sdkReceive| :: P.Encodable(sdkReceive[i].payload) && arrived[taken + i] == P.PacketBytes(sdkReceive[i])
    }

    /** The fields are those of a stream with some history. */
    ghost predicate Represents(s: Stream)
      reads this
    {
      Inv(s) && Queued(s.arrived, s.taken) && s.buffer == sdkBuffer && s.hasReceived == sdkHasReceived
    }

    method Deliver(packet: P.Packet, ghost s: Stream)
      requires Represents(s) && P.Encodable(packet.payload)
      modifies this`sdkReceive
      ensures Represents(Handle(s, Arrive(P.PacketBytes(packet))))
    {
      assert |P.PacketBytes(packet)| >= 11;
      hide P.PacketBytes;
      hide P.Encodable;
      hide Inv;
      ArriveKeeps(s, P.PacketBytes(packet));
      sdkReceive := sdkReceive + [packet];
    }

    /** Waits for a packet when the queue is empty. */
    method Refill(ghost s: Stream)
      requires Represents(s) && (sdkBuffer != [] || sdkReceive != [])
      modifies this`sdkReceive, this`sdkBuffer
      ensures Queued(s.arrived, Refilled(s).taken) && Refilled(s).buffer == sdkBuffer
    {
      hide Inv;
      hide P.PacketBytes;
      hide P.Encodable;
      if sdkBuffer == [] {
        var data := sdkReceive[0];
        assert s.arrived[s.taken + 0] == P.PacketBytes(data);
        SealSame(data);
        sdkReceive := sdkReceive[1..];
        data := P.Seal(data);
        sdkBuffer := P.PacketBytes(data);
      }
    }

    /** The first read's drop. */
    method SkipFirst(len: nat)
      requires sdkHasReceived || DropCount(len) <= |sdkBuffer|
      modifies this`sdkBuffer, this`sdkHasReceived
      ensures sdkHasReceived
      ensures sdkBuffer == if old(sdkHasReceived) then old(sdkBuffer) else old(sdkBuffer)[DropCount(len)..]
    {
      if !sdkHasReceived {
        if len == 1 {
        } else if len == 2 {
          sdkBuffer := sdkBuffer[2..];
        } else {
          sdkBuffer := sdkBuffer[4..];
        }
        sdkHasReceived := true;
      }
    }

    /** The last loop of the read. */
    method Drain(len: nat) returns (temp: seq<Byte>)
      modifies this`sdkBuffer
      ensures var n := Min(len, |old(sdkBuffer)|);
              temp == old(sdkBuffer)[..n] && sdkBuffer == old(sdkBuffer)[n..]
    {
      temp := [];
      while |temp| < len && sdkBuffer != []
        invariant |temp| <= len && temp + sdkBuffer == old(sdkBuffer)
        decreases |sdkBuffer|
      {
        temp := temp + [sdkBuffer[0]];
        sdkBuffer := sdkBuffer[1..];
      }
    }

    method Read(len: nat, ghost s: Stream) returns (temp: seq<Byte>)
      requires Represents(s) && (sdkBuffer != [] || sdkReceive != [])
      modifies this
      ensures Represents(Handle(s, Event.Read(len)))
      ensures temp == Output(s, len)
    {
      ReadKeeps(s, len);
      ReadFields(s, len);
      Refill(s);
      hide Inv;
      hide Queued;
      hide Handle;
      hide Ready;
      hide Refilled;
      hide Output;
      SkipFirst(len);
      temp := Drain(len);
    }
  }
}
