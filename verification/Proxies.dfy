/** The write proxy, the read proxy and the Blaze side of id registration. */
module Proxies {
  import opened Bytes
  import opened Packets
  import opened MessageIds

  /** A request of the SDK that went out under another id; the packet is kept for logging. */
  datatype IdTransform = IdTransform(oldId: Byte, newId: Byte, oldPack: Packet)

  /** The loop variables of the read proxy. */
  datatype ReadPhase = ReadPhase(first: bool, firstPacket: Option<Packet>, hadSecond: bool)

  const STARTING: ReadPhase := ReadPhase(true, None, false)

  datatype Side = Sdk | Blaze

  /** One received packet: the loop variables, list and token count after it, and where which packet went. */
  datatype ReadEffect = ReadEffect(phase: ReadPhase, watch: seq<IdTransform>, tokens: nat, side: Side, packet: Packet)

  /** The first entry with this new id, or the length of the list. */
  function FindWatch(watch: seq<IdTransform>, id: Byte): (i: nat)
    ensures i <= |watch| && (i < |watch| ==> watch[i].newId == id)
    ensures forall j | 0 <= j < i :: watch[j].newId != id
  {
    if watch == [] then 0
    else if watch[0].newId == id then 0
    else 1 + FindWatch(watch[1..], id)
  }

  /** The part of the loop after start-up: look the reference number up, restore and route. */
  function Lookup(phase: ReadPhase, watch: seq<IdTransform>, tokens: nat, d: Packet): ReadEffect {
    var i := FindWatch(watch, d.refNum);
    if i < |watch| then ReadEffect(phase, watch[..i] + watch[i + 1..], tokens, Sdk, Renumber(d, watch[i].oldId))
    else ReadEffect(phase, watch, tokens, Blaze, d)
  }

  /** One turn of the read proxy's loop. */
  function ReadOne(phase: ReadPhase, watch: seq<IdTransform>, tokens: nat, d: Packet): ReadEffect {
    if d.payload.QueryInterfaceResponse? && tokens > 0 then ReadEffect(phase, watch, tokens - 1, Blaze, d)
    else if phase.first then ReadEffect(ReadPhase(false, Some(d), phase.hadSecond), watch, tokens, Sdk, d)
    else if !phase.hadSecond && phase.firstPacket == Some(d) then ReadEffect(phase, watch, tokens, Sdk, d)
    else Lookup(phase.(hadSecond := true), watch, tokens, d)
  }

  /** packets_to_watch, shared by the two proxies of a hub. */
  class WatchList {
    var entries: seq<IdTransform>

    constructor ()
      ensures entries == []
    {
      entries := [];
    }
  }

  /** The process-wide channel of interface-query tokens. */
  class QueryTracker {
    var tokens: nat

    constructor ()
      ensures tokens == 0
    {
      tokens := 0;
    }

    method AskForInterfaceQuery()
      modifies this
      ensures tokens == old(tokens) + 1
    {
      tokens := tokens + 1;
    }
  }

  class ReadProxy {
    const watching: WatchList
    const tracker: QueryTracker
    var first: bool
    var firstPacket: Option<Packet>
    var hadSecond: bool
    var toSdk: seq<Packet>
    var toBlaze: seq<Packet>

    constructor (watching: WatchList, tracker: QueryTracker)
      ensures this.watching == watching && this.tracker == tracker
      ensures Phase() == STARTING && toSdk == [] && toBlaze == []
    {
      this.watching, this.tracker := watching, tracker;
      first, firstPacket, hadSecond := true, None, false;
      toSdk, toBlaze := [], [];
    }

    function Phase(): ReadPhase
      reads this
    {
      ReadPhase(first, firstPacket, hadSecond)
    }

    /** The body of the receive loop for one packet. */
    method Receive(packet: Packet)
      requires !first ==> firstPacket.Some?
      modifies this, watching, tracker
      ensures var e := ReadOne(old(Phase()), old(watching.entries), old(tracker.tokens), packet);
              && Phase() == e.phase && watching.entries == e.watch && tracker.tokens == e.tokens
              && toSdk == old(toSdk) + (if e.side == Sdk then [e.packet] else [])
              && toBlaze == old(toBlaze) + (if e.side == Blaze then [e.packet] else [])
      ensures !first ==> firstPacket.Some?
    {
      var d := packet;
      if d.payload.QueryInterfaceResponse? && tracker.tokens > 0 {
        tracker.tokens := tracker.tokens - 1;
        toBlaze := toBlaze + [d];
        return;
      }
      if first {
        firstPacket, first := Some(d), false;
        toSdk := toSdk + [d];
        return;
      }
      if !hadSecond {
        if firstPacket.value == d {
          toSdk := toSdk + [d];
          return;
        }
        hadSecond := true;
      }
      var i := 0;
      while i < |watching.entries| && watching.entries[i].newId != d.refNum
        invariant i <= FindWatch(watching.entries, d.refNum)
      {
        i := i + 1;
      }
      if i == |watching.entries| {
        toBlaze := toBlaze + [d];
      } else {
        var it := watching.entries[i];
        watching.entries := watching.entries[..i] + watching.entries[i + 1..];
        d := d.(msgNum := it.oldId);
        d := d.(refNum := it.oldId);
        toSdk := toSdk + [d];
      }
    }
  }

  class WriteProxy {
    const watching: WatchList
    const list: MessageList
    var toWrite: seq<seq<Packet>>

    constructor (watching: WatchList, now: int)
      ensures this.watching == watching && fresh(list) && fresh(list.times)
      ensures list.times[..] == FreshTable(now) && toWrite == []
    {
      this.watching := watching;
      list := new MessageList(now);
      toWrite := [];
    }

    /** do_proxy on the regular channel: checksums are recomputed and empty batches dropped. */
    method SendRegular(batch: seq<Packet>)
      requires AllEncodable(batch)
      modifies this`toWrite
      ensures toWrite == old(toWrite) + if batch == [] then [] else [seq(|batch|, i requires 0 <= i < |batch| => Seal(batch[i]))]
    {
      var packets := batch;
      for i := 0 to |packets|
        invariant |packets| == |batch|
        invariant forall j | 0 <= j < |packets| :: packets[j] == if j < i then Seal(batch[j]) else batch[j]
      {
        packets := packets[i := Seal(packets[i])];
      }
      if |packets| == 0 {
        return;
      }
      assert packets == seq(|batch|, i requires 0 <= i < |batch| => Seal(batch[i]));
      toWrite := toWrite + [packets];
    }

    /** do_proxy on the SDK's channel: draw an id, remember the transform, rewrite the packet. */
    method SendSdk(packet: Packet, r: Reading) returns (id: Byte)
      requires Encodable(packet.payload) && list.times.Length == SLOTS
      modifies this`toWrite, watching, list.times
      ensures IsOldest(old(list.times[..]), r.scan, id) && list.times[..] == old(list.times[..])[id := r.stamp]
      ensures watching.entries == old(watching.entries) + [IdTransform(packet.msgNum, id, packet)]
      ensures toWrite == old(toWrite) + [[Seal(Renumber(packet, id))]]
    {
      id := list.RegisterPacket(r);
      var transform := IdTransform(packet.msgNum, id, packet);
      var p := packet.(refNum := transform.newId);
      p := p.(msgNum := transform.newId);
      p := p.(checksum := Checksum(p));
      watching.entries := watching.entries + [transform];
      toWrite := toWrite + [[p]];
    }
  }

  /** The packets of a batch, each under its own id. */
  function Numbered(ps: seq<Packet>, ids: seq<Byte>): seq<Packet>
    requires |ps| == |ids| && AllEncodable(ps)
  {
    seq(|ps|, i requires 0 <= i < |ps| => Seal(Renumber(ps[i], ids[i])))
  }

  /** prepare_send_packets; prepare_send_packet is the case of one packet. */
  method PrepareSendPackets(list: MessageList, batch: seq<Packet>, rs: seq<Reading>) returns (packets: seq<Packet>, ids: seq<Byte>)
    requires AllEncodable(batch) && |rs| == |batch| <= 255 && list.times.Length == SLOTS
    modifies list.times
    ensures Draws(old(list.times[..]), rs, ids, list.times[..]) && |ids| == |batch|
    ensures packets == Numbered(batch, ids)
    ensures forall i | 0 <= i < |batch| ::
              && packets[i].msgNum == packets[i].refNum == ids[i] && packets[i].payload == batch[i].payload
              && Encodable(packets[i].payload) && packets[i].checksum == Checksum(packets[i])
  {
    ids := list.RegisterPackets(rs);
    packets := batch;
    for i := 0 to |batch|
      invariant |packets| == |batch|
      invariant forall j | 0 <= j < |batch| :: packets[j] == if j < i then Seal(Renumber(batch[j], ids[j])) else batch[j]
    {
      var p := packets[i].(msgNum := ids[i], refNum := ids[i]);
      packets := packets[i := p.(checksum := Checksum(p))];
    }
    assert packets == Numbered(batch, ids);
  }
}
