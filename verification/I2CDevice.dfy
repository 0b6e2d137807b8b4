/** The in-flight ids of an I2C device: which replies it takes, what it asks next, and what a register write puts on the bus. */
module I2CDevice {
  import opened Bytes
  import opened LynxCommands
  import opened Packets

  /**
   * I2CDeviceResult: Asked covers both Nack results, which only say that the packet was used up. Formatting an undefined
   * reason panics, after the new query was sent.
   */
  datatype Reply = Data(bytes: seq<Byte>) | Asked | Panicked | Passed(packet: Packet)

  // ---- the list ----

  /** The list without the first occurrence of id. */
  function Remove(pif: seq<Byte>, id: Byte): (r: seq<Byte>)
    ensures id in pif ==> |r| == |pif| - 1
    ensures id !in pif ==> r == pif
  {
    if pif == [] then [] else if pif[0] == id then pif[1..] else [pif[0]] + Remove(pif[1..], id)
  }

  lemma {:induction false} RemoveTakesOne(pif: seq<Byte>, id: Byte, x: Byte)
    ensures multiset(Remove(pif, id))[x] == multiset(pif)[x] - if x == id && id in pif then 1 else 0
  {
    if pif == [] {
    } else {
      assert pif == [pif[0]] + pif[1..];
      if pif[0] != id {
        RemoveTakesOne(pif[1..], id, x);
      }
    }
  }

  lemma {:induction false} RemoveAt(pif: seq<Byte>, index: nat)
    requires index < |pif| && pif[index] !in pif[..index]
    ensures Remove(pif, pif[index]) == pif[..index] + pif[index + 1..]
  {
    if index == 0 {
    } else {
      assert pif[0] in pif[..index] && pif[1..][..index - 1] == pif[..index][1..];
      RemoveAt(pif[1..], index - 1);
      assert pif[..index] == [pif[0]] + pif[1..][..index - 1];
    }
  }

  // ---- one reply ----

  /** The device's list with the history of its life. */
  datatype Device = Device(
    pif: seq<Byte>,
    added: seq<Byte>,      // ids registered from outside
    queried: seq<Byte>,    // ids of the read queries fired
    answered: seq<Byte>,   // tracked ids taken off the list by a reply
    delivered: seq<seq<Byte>>,
    strays: nat,           // tracked ids answered by something else, the packet passing on
    passed: seq<Packet>)

  const NEW: Device := Device([], [], [], [], [], 0, [])

  predicate IsReadData(c: Command) {
    c.Lynx? && c.command.I2CReadStatusResponse?
  }

  function AddPif(d: Device, id: Byte): Device {
    d.(pif := d.pif + [id], added := d.added + [id])
  }

  /** try_interpret_response; nextId is the number its new read query would be sent under. */
  function Interpret(d: Device, packet: Packet, nextId: Byte): (Device, Reply) {
    var id := packet.refNum;
    if id !in d.pif then (d.(passed := d.passed + [packet]), Passed(packet))
    else
      var took := d.(pif := Remove(d.pif, id), answered := d.answered + [id]);
      if IsReadData(packet.payload) then
        var bytes := packet.payload.command.data;
        (took.(delivered := d.delivered + [bytes]), Data(bytes))
      else if packet.payload.Nack? || packet.payload.Ack? then
        (took.(pif := took.pif + [nextId], queried := d.queried + [nextId]),
         if Printable(packet.payload) then Asked else Panicked)
      else (took.(strays := d.strays + 1, passed := d.passed + [packet]), Passed(packet))
  }

  // ---- the device as the code keeps it ----

  class InFlight {
    var packetsInFlight: seq<Byte>
    var queries: seq<Byte>      // ids of the read queries sent
    var warnings: nat           // messages telling the scheduler to slow down

    constructor ()
      ensures packetsInFlight == [] && queries == [] && warnings == 0
    {
      packetsInFlight, queries, warnings := [], [], 0;
    }

    ghost predicate Shows(d: Device)
      reads this
    {
      packetsInFlight == d.pif && queries == d.queried
    }

    method Add(id: Byte, ghost d: Device)
      requires Shows(d)
      modifies this`packetsInFlight
      ensures Shows(AddPif(d, id))
    {
      packetsInFlight := packetsInFlight + [id];
    }

    /** Takes the first occurrence of the id off the list. */
    method IsPif(id: Byte) returns (found: bool)
      modifies this`packetsInFlight
      ensures found <==> id in old(packetsInFlight)
      ensures packetsInFlight == Remove(old(packetsInFlight), id)
    {
      var index := 0;
      while index < |packetsInFlight| && packetsInFlight[index] != id
        invariant 0 <= index <= |packetsInFlight| && id !in packetsInFlight[..index]
        invariant packetsInFlight == old(packetsInFlight)
      {
        index := index + 1;
      }
      found := index < |packetsInFlight|;
      if found {
        RemoveAt(packetsInFlight, index);
        packetsInFlight := packetsInFlight[..index] + packetsInFlight[index + 1..];
      }
    }

    method FireRead(nextId: Byte)
      modifies this`packetsInFlight, this`queries
      ensures packetsInFlight == old(packetsInFlight) + [nextId] && queries == old(queries) + [nextId]
    {
      queries := queries + [nextId];
      packetsInFlight := packetsInFlight + [nextId];
    }

    /** The scheduler is warned of a Nack to a tracked id when there is a channel for it, and of nothing else. */
    method TryInterpretResponse(packet: Packet, nextId: Byte, channel: bool, ghost d: Device) returns (reply: Reply)
      requires Shows(d)
      modifies this
      ensures Shows(Interpret(d, packet, nextId).0) && reply == Interpret(d, packet, nextId).1
      ensures warnings == old(warnings) + if channel && packet.refNum in d.pif && packet.payload.Nack? then 1 else 0
    {
      var tracked := IsPif(packet.refNum);
      if tracked {
        match packet.payload {
          case Lynx(_, I2CReadStatusResponse(_, data)) =>
            return Data(data);
          case Nack(reason) =>
            if channel {
              warnings := warnings + 1;
            }
            FireRead(nextId);
            return if KnownReason(reason) then Asked else Panicked;
          case Ack(_) =>
            FireRead(nextId);
            return Asked;
          case _ =>
        }
      }
      reply := Passed(packet);
    }

    /** The handlers see the data; the packet goes on to the next consumer only when it was not used up. */
    method MaybeConsumePacket(packet: Packet, nextId: Byte, channel: bool, ghost d: Device)
      returns (handled: Option<seq<Byte>>, rest: Option<Packet>, panicked: bool)
      requires Shows(d)
      modifies this
      ensures Shows(Interpret(d, packet, nextId).0)
      ensures rest == if Interpret(d, packet, nextId).1.Passed? then Some(packet) else None
      ensures panicked <==> packet.refNum in d.pif && packet.payload.Nack? && !KnownReason(packet.payload.reason)
      ensures handled == if packet.refNum in d.pif && IsReadData(packet.payload) then Some(packet.payload.command.data) else None
    {
      var reply := TryInterpretResponse(packet, nextId, channel, d);
      panicked := reply == Panicked;
      match reply {
        case Data(bytes) => handled, rest := Some(bytes), None;
        case Asked => handled, rest := None, None;
        case Panicked => handled, rest := None, None;
        case Passed(p) => handled, rest := None, Some(p);
      }
    }
  }

  // ---- whole runs ----

  datatype Event = Added(id: Byte) | Received(packet: Packet, nextId: Byte)

  function Step(d: Device, e: Event): Device {
    match e
    case Added(id) => AddPif(d, id)
    case Received(packet, nextId) => Interpret(d, packet, nextId).0
  }

  function After(events: seq<Event>): Device {
    if events == [] then NEW else Step(After(events[..|events| - 1]), events[|events| - 1])
  }

  /** Every time id x was tracked it is either still tracked or was answered. */
  ghost predicate Accounted(d: Device, x: Byte) {
    multiset(d.pif)[x] + multiset(d.answered)[x] == multiset(d.added)[x] + multiset(d.queried)[x]
  }

  lemma OneMore(ids: seq<Byte>, id: Byte, x: Byte)
    ensures multiset(ids + [id])[x] == multiset(ids)[x] + if x == id then 1 else 0
  {}

  lemma StepAccounts(d: Device, e: Event, x: Byte)
    requires Accounted(d, x)
    ensures Accounted(Step(d, e), x)
  {
    hide Remove;
    match e {
      case Added(id) =>
        OneMore(d.pif, id, x);
        OneMore(d.added, id, x);
      case Received(packet, nextId) =>
        RemoveTakesOne(d.pif, packet.refNum, x);
        OneMore(d.answered, packet.refNum, x);
        OneMore(Remove(d.pif, packet.refNum), nextId, x);
        OneMore(d.queried, nextId, x);
    }
  }

  lemma {:induction false} IdsConserved(events: seq<Event>, x: Byte)
    ensures Accounted(After(events), x)
  {
    if events == [] {
    } else {
      IdsConserved(events[..|events| - 1], x);
      StepAccounts(After(events[..|events| - 1]), events[|events| - 1], x);
    }
  }

  /**
   * Tracked ids = ids added from outside less data deliveries less strays: every Ack or Nack of a tracked id is paid
   * back by exactly one query. So a poll that meets no stray stays alive until its data arrives, and delivers once.
   */
  lemma {:induction false} InFlightConserved(events: seq<Event>)
    ensures var d := After(events);
            |d.pif| == |d.added| - |d.delivered| - d.strays && |d.answered| == |d.queried| + |d.delivered| + d.strays
  {
    if events == [] {
    } else {
      InFlightConserved(events[..|events| - 1]);
    }
  }

  /**
   * What a packet is to the device: its data, a reason to ask again, which panics on a Nack that cannot be formatted, or
   * nothing, when its number is not tracked or it is of another kind.
   */
  lemma AnswersExactly(d: Device, packet: Packet, nextId: Byte)
    ensures var (after, reply) := Interpret(d, packet, nextId);
            var tracked, status := packet.refNum in d.pif, packet.payload.Ack? || packet.payload.Nack?;
            && (reply.Data? <==> tracked && IsReadData(packet.payload))
            && (reply.Data? ==> reply.bytes == packet.payload.command.data && after.delivered == d.delivered + [reply.bytes])
            && (reply.Asked? || reply.Panicked? <==> tracked && status)
            && (reply.Panicked? <==> tracked && packet.payload.Nack? && !KnownReason(packet.payload.reason))
            && (reply == Passed(packet) <==> !tracked || (!status && !IsReadData(packet.payload)))
  {}

  /** The list loses an answered number and gains that of the query sent for an Ack or a Nack, each once. */
  lemma ListAfter(d: Device, packet: Packet, nextId: Byte, x: Byte)
    ensures var after, tracked := Interpret(d, packet, nextId).0.pif, packet.refNum in d.pif;
            var asked := tracked && (packet.payload.Ack? || packet.payload.Nack?);
            multiset(after)[x] == multiset(d.pif)[x] - (if tracked && x == packet.refNum then 1 else 0)
                                  + if asked && x == nextId then 1 else 0
  {
    RemoveTakesOne(d.pif, packet.refNum, x);
    OneMore(Remove(d.pif, packet.refNum), nextId, x);
    hide Remove;
  }

  /** Packets that pass leave the list alone exactly when their number is not tracked. */
  lemma PassingIsTransparent(d: Device, packet: Packet, nextId: Byte)
    requires Interpret(d, packet, nextId).1.Passed?
    ensures Interpret(d, packet, nextId).1.packet == packet
    ensures Interpret(d, packet, nextId).0.pif == d.pif <==> packet.refNum !in d.pif
    ensures packet.refNum in d.pif ==> !IsReadData(packet.payload) && !packet.payload.Ack? && !packet.payload.Nack?
  {
  }

  ghost predicate Distinct(ids: seq<Byte>) {
    forall x: Byte :: multiset(ids)[x] <= 1
  }

  lemma DistinctSnoc(ids: seq<Byte>, next: Byte)
    requires Distinct(ids)
    ensures Distinct(ids + [next]) <==> next !in ids
  {
    assert next in ids <==> multiset(ids)[next] > 0;
    assert multiset(ids + [next])[next] == multiset(ids)[next] + 1;
  }

  lemma RemoveDistinct(ids: seq<Byte>, id: Byte)
    requires Distinct(ids)
    ensures Distinct(Remove(ids, id)) && forall x: Byte :: x in Remove(ids, id) <==> x in ids && x != id
  {
    forall x: Byte
      ensures multiset(Remove(ids, id))[x] <= 1 && (x in Remove(ids, id) <==> x in ids && x != id)
    {
      RemoveTakesOne(ids, id, x);
      assert x in Remove(ids, id) <==> multiset(Remove(ids, id))[x] > 0;
      assert x in ids <==> multiset(ids)[x] > 0;
    }
  }

  /** The list has no repeats after the next event exactly when that event brings in a number that is not then tracked. */
  lemma DistinctStep(d: Device, e: Event)
    requires Distinct(d.pif)
    ensures Distinct(Step(d, e).pif)
            <==> (match e
                  case Added(id) => id !in d.pif
                  case Received(packet, nextId) =>
                    Interpret(d, packet, nextId).1 in {Asked, Panicked} ==> nextId !in d.pif || nextId == packet.refNum)
  {
    match e {
      case Added(id) => DistinctSnoc(d.pif, id);
      case Received(packet, nextId) =>
        RemoveDistinct(d.pif, packet.refNum);
        DistinctSnoc(Remove(d.pif, packet.refNum), nextId);
    }
    hide Distinct;
    hide Remove;
  }

  // ---- register writes ----

  /** write_data_i: the payload is the register and then the data, but the one-byte form sends payload[0]. */
  function WriteCommand(bus: Byte, address: Byte, register: Byte, data: seq<Byte>): LynxCommand {
    var payload := [register] + data;
    if |data| == 1 then I2CSingleByteWrite(bus, address, payload[0])
    else I2CWriteMultipleBytes(bus, address, payload)
  }

  /** The payload of a write: bus and address, then one byte, or a count and the register with up to 254 bytes of data. */
  lemma WriteBytes(bus: Byte, address: Byte, register: Byte, data: seq<Byte>)
    ensures LynxEncodable(WriteCommand(bus, address, register, data)) <==> |data| <= 254
    ensures |data| <= 254 ==>
              LynxBytes(WriteCommand(bus, address, register, data))
              == if |data| == 1 then [bus, address, register] else [bus, address, |data| + 1, register] + data
  {}

  /** What a write puts on the bus fixes the register and the data, except that a one-byte write loses its byte. */
  lemma WriteKeepsData(bus: Byte, address: Byte, register: Byte, data: seq<Byte>, register': Byte, data': seq<Byte>)
    ensures WriteCommand(bus, address, register, data) == WriteCommand(bus, address, register', data')
            <==> register == register' && (data == data' || |data| == |data'| == 1)
  {
    assert ([register] + data)[1..] == data && ([register'] + data')[1..] == data';
    assert ([register] + data)[0] == register && ([register'] + data')[0] == register';
  }
}
