/** From the bytes on the hubs' wire to the bytes the SDK reads: frame reader, id-sharing proxy and byte stream in a row. */
module EndToEnd {
  import opened Bytes
  import opened Packets
  import Reader = FrameReader
  import Routing = ReplyRouting
  import Exact = RoutingExact
  import Sdk = SdkStream

  function PacketsOf(items: seq<Routing.Item>): seq<Packet> {
    seq(|items|, i requires 0 <= i < |items| => items[i].packet)
  }

  /** The frame a hub sent, with both numbers and the checksum patched when it answers a request of the SDK. */
  function Answer(i: Routing.Item): seq<seq<Byte>>
    requires Encodable(i.packet.payload)
  {
    match i.origin
    case FromSdk(n) => [Patched(PacketBytes(i.packet), n)]
    case Legacy => [PacketBytes(i.packet)]
    case _ => []
  }

  lemma TailEncodable(ps: seq<Packet>)
    requires AllEncodable(ps) && ps != []
    ensures AllEncodable(ps[1..])
  {
    assert forall p | p in ps[1..] :: p in ps;
  }

  function Answers(items: seq<Routing.Item>): seq<seq<Byte>>
    requires AllEncodable(PacketsOf(items))
  {
    if items == [] then []
    else
      assert PacketsOf(items)[1..] == PacketsOf(items[1..]);
      assert PacketsOf(items)[0] in PacketsOf(items);
      TailEncodable(PacketsOf(items));
      Answer(items[0]) + Answers(items[1..])
  }

  function Encodings(ps: seq<Packet>): (frames: seq<seq<Byte>>)
    requires AllEncodable(ps)
    ensures |frames| == |ps| && forall i | 0 <= i < |ps| :: Encodable(ps[i].payload) && frames[i] == PacketBytes(ps[i])
  {
    assert forall i | 0 <= i < |ps| :: ps[i] in ps;
    seq(|ps|, i requires 0 <= i < |ps| && Encodable(ps[i].payload) => PacketBytes(ps[i]))
  }

  lemma EncodingsAppend(a: seq<Packet>, b: seq<Packet>)
    requires AllEncodable(a) && AllEncodable(b)
    ensures AllEncodable(a + b) && Encodings(a + b) == Encodings(a) + Encodings(b)
  {}

  lemma OneAnswer(i: Routing.Item)
    requires Encodable(i.packet.payload)
    ensures AllEncodable(Routing.ForSdk(i)) && Encodings(Routing.ForSdk(i)) == Answer(i)
  {
    match i.origin {
      case FromSdk(n) => ReplyPatched(i.packet, n);
      case _ =>
    }
  }

  /** Encoding what the SDK is to see gives the hubs' own frames, patched. */
  lemma {:induction false} ViewIsAnswers(items: seq<Routing.Item>)
    requires AllEncodable(PacketsOf(items))
    ensures AllEncodable(Routing.SdkView(items)) && Encodings(Routing.SdkView(items)) == Answers(items)
  {
    if items == [] {
    } else {
      assert PacketsOf(items)[1..] == PacketsOf(items[1..]);
      assert PacketsOf(items)[0] in PacketsOf(items);
      TailEncodable(PacketsOf(items));
      OneAnswer(items[0]);
      ViewIsAnswers(items[1..]);
      EncodingsAppend(Routing.ForSdk(items[0]), Routing.SdkView(items[1..]));
    }
  }

  lemma {:induction false} GoodsEncodable(port: Reader.Port, t: Table, locked: bool, sent: nat, chunks: seq<Reader.Chunk>)
    requires Reader.Legible(port, t, locked, chunks)
    ensures AllEncodable(Reader.Goods(Reader.ReadChunks(port, t, sent, chunks)))
    decreases chunks
  {
    if chunks == [] {
    } else {
      var c, rest := chunks[0], chunks[1..];
      hide WellFormed;
      Reader.LegibleParts(port, t, locked, chunks);
      var next := if c.Good? then Reader.Counted(port, sent) else sent;
      GoodsEncodable(port, t, c.Good?, next, rest);
      Reader.GoodsCons(c, Reader.ReadChunks(port, t, next, rest));
    }
  }

  /** The SDK's channel has received the encodings of a prefix of these packets. */
  ghost predicate Delivered(frames: seq<seq<Byte>>, ps: seq<Packet>) {
    |frames| <= |ps| && forall i | 0 <= i < |frames| :: Encodable(ps[i].payload) && frames[i] == PacketBytes(ps[i])
  }

  /**
   * Whatever frames the hubs put on the wire, some of them damaged and with noise between them, and whatever run the proxy makes of the packets its
   * reader finds there, from any start, so long as its reads are right: the bytes the SDK's stream drops, returns and
   * still holds are, in order and without a gap, the undamaged frames that answer the SDK's own requests, with both
   * numbers and the checksum patched, and the drop is the first read's.
   */
  lemma SdkReadsItsAnswers(
      port: Reader.Port, t: Table, r: Reader.Reader, chunks: seq<Reader.Chunk>,
      s: Routing.System, now: int, n: nat, steps: seq<Routing.Step>, last: Routing.System,
      events: seq<Sdk.Event>, stream: Sdk.Stream)
    requires |r.buf| >= 4 && (r.locked ==> r.wasLocked) && Reader.Legible(port, t, r.locked, chunks)
    requires Routing.Init(s, now, n) && Exact.AnyRun(s, steps, last) && Exact.RightReads(s, steps)
    requires PacketsOf(last.heard) == Reader.ReadAll(port, t, r, Reader.Wire(port, t, r.locked, chunks)).packets
    requires Sdk.Run(Sdk.EMPTY, events, stream) && Delivered(Sdk.Arrivals(events), last.toSdk)
    ensures PacketsOf(last.heard) == Reader.Goods(Reader.ReadChunks(port, t, r.sent, chunks))
    ensures AllEncodable(PacketsOf(last.read)) && stream.taken <= |Answers(last.read)|
    ensures stream.dropped + stream.returned + stream.buffer == Sdk.Flat(Answers(last.read)[..stream.taken])
    ensures |stream.dropped| == Sdk.Dropped(events)
  {
    hide Reader.ReadAll;
    hide Reader.Wire;
    hide Reader.Legible;
    hide Reader.ReadChunks;
    hide Exact.AnyRun;
    hide Exact.RightReads;
    hide Routing.Init;
    hide Sdk.Run;
    hide PacketBytes;
    hide Encodable;
    hide Sdk.Inv;
    hide Reader.Goods;
    hide Sdk.Flat;
    Reader.DamageIsLocal(port, t, r, chunks);
    GoodsEncodable(port, t, r.locked, r.sent, chunks);
    Routing.InitRouted(s, now, n);
    Exact.RoutedExactly(s, steps, last);
    Sdk.StreamOverRuns(events, stream);
    forall p | p in PacketsOf(last.read)
      ensures p in PacketsOf(last.heard)
    {
      var i :| 0 <= i < |last.read| && PacketsOf(last.read)[i] == p;
      assert PacketsOf(last.heard)[i] == p;
    }
    ViewIsAnswers(last.read);
    assert Sdk.Arrivals(events)[..stream.taken] == Answers(last.read)[..stream.taken];
  }

  lemma OneRead(s: Routing.System, now: int) returns (last: Routing.System)
    requires Routing.Init(s, now, 1)
    ensures Exact.AnyRun(s, [Routing.Read], last) && Exact.RightReads(s, [Routing.Read])
    ensures last.toSdk == [s.legacy] && PacketsOf(last.heard) == [s.legacy]
  {
    last := Routing.Apply(s, Routing.Read);
    var steps := [Routing.Read];
    assert steps[1..] == [];
    assert Routing.Run(last, [], last);
    assert Routing.Run(s, steps, last);
    Exact.RunsAreRight(s, now, 1, steps, last);
  }

  lemma OneFrame(port: Reader.Port, t: Table, p: Packet) returns (r: Reader.Reader, chunks: seq<Reader.Chunk>)
    requires WellFormed(t, p) && Reader.Fits(port, p) && Reader.Survives(port, t, 0, [p])
    ensures |r.buf| >= 4 && !r.locked && Reader.Legible(port, t, r.locked, chunks)
    ensures Reader.ReadAll(port, t, r, Reader.Wire(port, t, r.locked, chunks)).packets == [p]
  {
    r, chunks := Reader.Reader(false, false, seq(128, _ => 0), 0), [Reader.Good(p)];
    assert chunks[1..] == [];
    Reader.DamageIsLocal(port, t, r, chunks);
  }

  lemma OneArrival(frame: seq<Byte>) returns (events: seq<Sdk.Event>, stream: Sdk.Stream)
    requires |frame| >= 11
    ensures Sdk.Run(Sdk.EMPTY, events, stream) && Sdk.Arrivals(events) == [frame]
  {
    var arrival := Sdk.Arrive(frame);
    events := [arrival];
    assert events[1..] == [] && [frame] + [] == [frame];
    Sdk.ArriveKeeps(Sdk.EMPTY, frame);
    stream := Sdk.Handle(Sdk.EMPTY, arrival);
    assert Sdk.Run(stream, [], stream);
  }

  lemma LongEnough(t: Table, p: Packet)
    requires WellFormed(t, p)
    ensures Encodable(p.payload) && |PacketBytes(p)| >= 11 && Delivered([PacketBytes(p)], [p])
  {
    PacketRoundTrip(t, p, []);
  }

  /** There are such sessions: the packet the SDK was waiting for arrives, is read off the wire, routed and delivered. */
  lemma FirstPacketGetsThrough(port: Reader.Port, t: Table, s: Routing.System, now: int)
    returns (r: Reader.Reader, chunks: seq<Reader.Chunk>, last: Routing.System, events: seq<Sdk.Event>, stream: Sdk.Stream)
    requires Routing.Init(s, now, 1) && WellFormed(t, s.legacy)
    requires Reader.Fits(port, s.legacy) && Reader.Survives(port, t, 0, [s.legacy])
    ensures |r.buf| >= 4 && !r.locked && Reader.Legible(port, t, r.locked, chunks)
    ensures Exact.AnyRun(s, [Routing.Read], last) && Exact.RightReads(s, [Routing.Read]) && last.toSdk == [s.legacy]
    ensures PacketsOf(last.heard) == Reader.ReadAll(port, t, r, Reader.Wire(port, t, r.locked, chunks)).packets == [s.legacy]
    ensures Sdk.Run(Sdk.EMPTY, events, stream) && Delivered(Sdk.Arrivals(events), last.toSdk) && Sdk.Arrivals(events) != []
  {
    LongEnough(t, s.legacy);
    hide WellFormed;
    hide Encodable;
    hide Delivered;
    hide Reader.Survives;
    hide Reader.Fits;
    hide Routing.Init;
    hide Exact.AnyRun;
    hide Exact.RightReads;
    hide Reader.ReadAll;
    hide Reader.Wire;
    hide Reader.Legible;
    hide Sdk.Run;
    hide Sdk.Arrivals;
    hide PacketBytes;
    r, chunks := OneFrame(port, t, s.legacy);
    last := OneRead(s, now);
    events, stream := OneArrival(PacketBytes(s.legacy));
  }
}
