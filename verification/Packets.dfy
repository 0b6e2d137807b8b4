/** Packets, commands and modules: packet.rs, command.rs, commands.rs, command_utils.rs and base_lynx_command.rs. */
module Packets {
  import opened Bytes
  import opened LynxCommands
  import opened Utf8

  const FRAME: seq<Byte> := [68, 75]

  const ACK: U16 := 0x7F01
  const NACK: U16 := 0x7F02
  const KEEP_ALIVE: U16 := 0x7F04
  const QUERY_INTERFACE: U16 := 0x7F07

  datatype Module = Module(addr: Byte, first: U16, count: U16)

  const NULL_MODULE := Module(0, 0, 0)

  /** HUB_0 and HUB_1, in the order they are searched; empty before initialisation. */
  type Table = seq<Module>

  datatype Command =
    | Ack(attentionRequired: bool)
    | Nack(reason: Byte)
    | KeepAlive
    | QueryInterface(name: seq<Byte>)
    | QueryInterfaceResponse(first: U16, count: U16)
    | Lynx(module_: Module, command: LynxCommand)
    | Unknown(packId: U16, data: seq<Byte>)

  datatype Packet = Packet(
    length: U16, dest: Byte, src: Byte, msgNum: Byte, refNum: Byte,
    packetId: U16, payload: Command, checksum: Byte)

  // ---- ids and module ranges ----

  /** Clears the response bit. */
  function CommandNumber(id: U16): U16 {
    id % RESPONSE_BIT
  }

  /** u16 addition as the release profile computes it. */
  function WrapAdd(x: U16, y: U16): U16 {
    (x as int + y as int) % 0x1_0000
  }

  /** The relative id of a command in the module's range; the upper bound is inclusive. */
  function IsModuleCommand(m: Module, id: U16): Option<U16> {
    if id > WrapAdd(m.first, m.count) || id < m.first then None else Some(id - m.first)
  }

  /** The relative id of a response, response bit kept; never for an id that is also a command. */
  function IsModuleResponse(m: Module, id: U16): Option<U16> {
    if IsModuleCommand(m, id).Some? then None
    else if CommandNumber(id) > WrapAdd(m.first, m.count) || CommandNumber(id) < m.first then None
    else Some(id - m.first)
  }

  function FindModule(t: Table, addr: Byte): Option<Module> {
    if t == [] then None else if t[0].addr == addr then Some(t[0]) else FindModule(t[1..], addr)
  }

  /** The first module with this address. */
  lemma {:induction false} FirstModule(t: Table, addr: Byte, i: nat)
    requires i < |t| && t[i].addr == addr && forall j | 0 <= j < i :: t[j].addr != addr
    ensures FindModule(t, addr) == Some(t[i])
  {
    if i == 0 {
    } else {
      FirstModule(t[1..], addr, i - 1);
    }
  }

  lemma {:induction false} NoModule(t: Table, addr: Byte)
    requires forall j | 0 <= j < |t| :: t[j].addr != addr
    ensures FindModule(t, addr) == None
  {
    if t == [] {
    } else {
      NoModule(t[1..], addr);
    }
  }

  /** The relative ids of a module's commands, both ends of the range included; a range past sixteen bits has none. */
  predicate CommandRel(m: Module, rel: U16) {
    m.first as int + m.count as int < 0x1_0000 && rel <= m.count
  }

  /** Those of its responses: the response bit and then an id of the range, unless that makes it a command. */
  predicate ResponseRel(m: Module, rel: U16) {
    m.first as int + m.count as int < 0x1_0000 && 0x8000 <= rel as int <= 0x8000 + m.count as int && !CommandRel(m, rel)
  }

  lemma ModuleIdsExactly(m: Module, id: U16, rel: U16)
    ensures IsModuleCommand(m, id) == Some(rel) <==> CommandRel(m, rel) && id as int == m.first as int + rel as int
    ensures IsModuleResponse(m, id) == Some(rel) <==> ResponseRel(m, rel) && id as int == m.first as int + rel as int
  {}

  function PairWith(m: Module, rel: Option<U16>): Option<(Module, U16)> {
    match rel
    case Some(id) => Some((m, id))
    case None => None
  }

  /** The module a packet belongs to: the destination's as a command, otherwise the source's as a response. */
  function Route(t: Table, id: U16, src: Byte, dest: Byte): Option<(Module, U16)> {
    match FindModule(t, dest)
    case Some(m) => PairWith(m, IsModuleCommand(m, id))
    case None =>
      match FindModule(t, src)
      case Some(m) => PairWith(m, IsModuleResponse(m, id))
      case None => None
  }

  /** Whose packet it is: a module's when sent to it under one of its command ids, or from it to no module as a response. */
  lemma RouteExactly(t: Table, id: U16, src: Byte, dest: Byte, m: Module, rel: U16)
    ensures Route(t, id, src, dest) == Some((m, rel))
            <==> id as int == m.first as int + rel as int
                 && ((FindModule(t, dest) == Some(m) && CommandRel(m, rel))
                     || (FindModule(t, dest) == None && FindModule(t, src) == Some(m) && ResponseRel(m, rel)))
  {
    ModuleIdsExactly(m, id, rel);
    hide FindModule;
    hide IsModuleCommand;
    hide IsModuleResponse;
  }

  function ToPacketId(c: Command): U16 {
    match c
    case Ack(_) => ACK
    case Nack(_) => NACK
    case KeepAlive => KEEP_ALIVE
    case QueryInterface(_) => QUERY_INTERFACE
    case QueryInterfaceResponse(_, _) => QUERY_INTERFACE + RESPONSE_BIT
    case Lynx(m, command) => WrapAdd(LynxId(command), m.first)
    case Unknown(id, _) => id
  }

  /** Ids one of the standard decoders accepts. */
  predicate IsStandardId(id: U16) {
    CommandNumber(id) == ACK || CommandNumber(id) == NACK || CommandNumber(id) == KEEP_ALIVE || CommandNumber(id) == QUERY_INTERFACE
  }

  // ---- commands as bytes ----

  function CommandLen(c: Command): nat {
    match c
    case Ack(_) => 1
    case Nack(_) => 1
    case KeepAlive => 0
    case QueryInterface(name) => |name|
    case QueryInterfaceResponse(_, _) => 4
    case Lynx(_, command) => LynxLen(command)
    case Unknown(_, data) => |data|
  }

  predicate Encodable(c: Command) {
    c.Lynx? ==> LynxEncodable(c.command)
  }

  /** Into<Vec<u8>> for Command; a zero length short-circuits to no bytes. */
  function CommandBytes(c: Command): seq<Byte>
    requires Encodable(c)
  {
    if CommandLen(c) == 0 then []
    else
      match c
      case Ack(attention) => [if attention then 1 else 0]
      case Nack(reason) => [reason]
      case KeepAlive => []
      case QueryInterface(name) => name
      case QueryInterfaceResponse(first, count) => U16Bytes(first) + U16Bytes(count)
      case Lynx(_, command) => LynxBytes(command)
      case Unknown(_, data) => data
  }

  lemma CommandLenAgrees(c: Command)
    requires Encodable(c)
    ensures |CommandBytes(c)| == CommandLen(c)
    ensures c.Lynx? ==> CommandBytes(c) == LynxBytes(c.command)
  {
    if c.Lynx? {
      LynxLenAgrees(c.command);
    }
  }

  function OnModule(m: Module, c: Outcome<LynxCommand>): Outcome<Command> {
    match c
    case Ok(command) => Ok(Lynx(m, command))
    case NoValue => NoValue
    case Panics => Panics
  }

  /** LynxCommandData::from_bytes. */
  function LynxFromBytes(t: Table, id: U16, data: seq<Byte>, src: Byte, dest: Byte): Outcome<Command> {
    if t == [] then Ok(Lynx(NULL_MODULE, LynxUnknown(id, data)))
    else
      match Route(t, id, src, dest)
      case Some(route) => OnModule(route.0, ToCommand(route.1, data))
      case None => NoValue
  }

  /** Command::from_bytes: the standard decoders in order, then the modules, then Unknown. */
  function CommandFromBytes(t: Table, id: U16, data: seq<Byte>, src: Byte, dest: Byte): Outcome<Command> {
    if CommandNumber(id) == ACK then if |data| < 1 then Panics else Ok(Ack(data[0] != 0))
    else if CommandNumber(id) == NACK then if |data| < 1 then Panics else Ok(Nack(data[0]))
    else if CommandNumber(id) == KEEP_ALIVE then Ok(KeepAlive)
    else if id == QUERY_INTERFACE then Ok(QueryInterface(data))
    else if id == QUERY_INTERFACE + RESPONSE_BIT then
      if |data| < 4 then Panics else Ok(QueryInterfaceResponse(ReadU16(data[0..2]), ReadU16(data[2..4])))
    else
      match LynxFromBytes(t, id, data, src, dest)
      case Ok(c) => Ok(c)
      case Panics => Panics
      case NoValue => Ok(Unknown(id, data))
  }

  // ---- packets as bytes ----

  /** The ten bytes before the payload. */
  function Header(p: Packet): (h: seq<Byte>)
    ensures |h| == 10
  {
    FRAME + U16Bytes(p.length) + [p.dest, p.src, p.msgNum, p.refNum] + U16Bytes(p.packetId)
  }

  /** Packet::checksum. */
  function Checksum(p: Packet): Byte
    requires Encodable(p.payload)
  {
    Sum(Header(p) + CommandBytes(p.payload))
  }

  /** Packet::checksum field by field, as it feeds the checksum object. */
  method ComputeChecksum(p: Packet) returns (c: Byte)
    requires Encodable(p.payload)
    ensures c == Total(Header(p) + CommandBytes(p.payload)) % 0x100
  {
    hide CommandBytes;
    hide Encodable;
    hide U16Bytes;
    hide Total;
    var sum := new BSChecksum();
    assert Total([]) == 0 by {
      EmptyTotal();
    }
    ghost var seen: seq<Byte> := [];
    sum.ConsumeBytes(FRAME);
    Consumed(seen, FRAME);
    seen := seen + FRAME;
    sum.ConsumeBytes(U16Bytes(p.length));
    Consumed(seen, U16Bytes(p.length));
    seen := seen + U16Bytes(p.length);
    assert sum.value == Total(seen) % 0x100;
    var fields := [p.dest, p.src, p.msgNum, p.refNum];
    sum.ConsumeBytes(fields);
    Consumed(seen, fields);
    seen := seen + fields;
    assert sum.value == Total(seen) % 0x100;
    sum.ConsumeBytes(U16Bytes(p.packetId));
    Consumed(seen, U16Bytes(p.packetId));
    seen := seen + U16Bytes(p.packetId);
    assert sum.value == Total(seen) % 0x100 && seen == Header(p);
    sum.ConsumeBytes(CommandBytes(p.payload));
    Consumed(seen, CommandBytes(p.payload));
    c := sum.value;
  }

  /** Packet::encode, used by the USB writer: the stored checksum goes out. */
  function StoredBytes(p: Packet): seq<Byte>
    requires Encodable(p.payload)
  {
    Header(p) + CommandBytes(p.payload) + [p.checksum]
  }

  /** Into<Vec<u8>> for Packet, used by the UART writer and the SDK stream: the checksum is recomputed. */
  function PacketBytes(p: Packet): seq<Byte>
    requires Encodable(p.payload)
  {
    Header(p) + CommandBytes(p.payload) + [Checksum(p)]
  }

  /** Packet::new_full; the length is cast to u16. */
  function NewFull(c: Command, dest: Byte, src: Byte, refNum: Byte, msgNum: Byte): Packet
    requires Encodable(c)
  {
    var p := Packet((11 + CommandLen(c)) % 0x1_0000, dest, src, msgNum, refNum, ToPacketId(c), c, 0);
    p.(checksum := Checksum(p))
  }

  /** Packet::from_data: None on wrong frame bytes or checksum, a panic on a frame too short for its fields. */
  function FromData(t: Table, data: seq<Byte>): Outcome<Packet> {
    if |data| < 2 then Panics
    else if data[0..2] != FRAME then NoValue
    else if |data| < 10 then Panics
    else
      var len := ReadU16(data[2..4]);
      if len == 0 || len > |data| then Panics
      else if Sum(data[..len - 1]) != data[len - 1] then NoValue
      else if len < 11 then Panics
      else
        var id := ReadU16(data[8..10]);
        match CommandFromBytes(t, id, data[10..len - 1], data[5], data[4])
        case Ok(c) => Ok(Packet(len, data[4], data[5], data[6], data[7], id, c, data[len - 1]))
        case _ => Panics
  }

  // ---- packets that can be formatted for a log ----

  predicate KnownReason(r: Byte) {
    r <= 18 || 20 <= r <= 28 || r == 30 || r == 31 || 40 <= r <= 46 || 50 <= r <= 52 || r >= 253
  }

  function UntilNul(name: seq<Byte>): seq<Byte> {
    if name == [] || name[0] == 0 then [] else [name[0]] + UntilNul(name[1..])
  }

  lemma {:induction false} UpToFirstNul(name: seq<Byte>)
    ensures var n := |UntilNul(name)|;
            && n <= |name| && UntilNul(name) == name[..n]
            && 0 !in name[..n] && (n < |name| ==> name[n] == 0)
  {
    if name == [] || name[0] == 0 {
    } else {
      UpToFirstNul(name[1..]);
      var n := |UntilNul(name)|;
      assert name[..n] == [name[0]] + name[1..][..n - 1];
    }
  }

  /** Formatting a packet panics on a Nack whose reason is undefined and on an interface name that is not text. */
  predicate Printable(c: Command) {
    match c
    case Nack(reason) => KnownReason(reason)
    case QueryInterface(name) => IsUtf8(UntilNul(name))
    case _ => true
  }

  lemma {:induction false} AsciiPrintable(name: seq<Byte>)
    requires forall i | 0 <= i < |name| :: name[i] < 0x80
    ensures IsUtf8(UntilNul(name))
  {
    if name == [] || name[0] == 0 {
    } else {
      AsciiPrintable(name[1..]);
      assert UntilNul(name)[1..] == UntilNul(name[1..]);
    }
  }

  /**
   * A packet cannot be formatted exactly when it is a Nack with a code left undefined, or the name of an interface that
   * is no text up to its first NUL.
   */
  lemma PrintableExactly(c: Command)
    ensures c.Nack? ==>
              (!Printable(c) <==> c.reason == 19 || c.reason == 29 || 32 <= c.reason <= 39 || 47 <= c.reason <= 49
                                  || 53 <= c.reason <= 252)
    ensures c.QueryInterface? ==>
              (Printable(c) <==> exists cs :: IsText(cs) && TextBytes(cs) == UntilNul(c.name))
    ensures !c.Nack? && !c.QueryInterface? ==> Printable(c)
  {
    if c.QueryInterface? {
      Utf8Exactly(UntilNul(c.name));
    }
  }

  // ---- decoding inverts encoding ----

  predicate CanonicalCommand(t: Table, p: Packet) {
    var id := p.packetId;
    match p.payload
    case Ack(_) => CommandNumber(id) == ACK
    case Nack(_) => CommandNumber(id) == NACK
    case KeepAlive => CommandNumber(id) == KEEP_ALIVE
    case QueryInterface(_) => id == QUERY_INTERFACE
    case QueryInterfaceResponse(_, _) => id == QUERY_INTERFACE + RESPONSE_BIT
    case Lynx(m, c) =>
      !IsStandardId(id) &&
      if t == [] then m == NULL_MODULE && c.LynxUnknown? && c.packId == id
      else LynxCanonical(c) && Route(t, id, p.src, p.dest) == Some((m, LynxId(c)))
    case Unknown(packId, _) =>
      packId == id && !IsStandardId(id) && t != [] && Route(t, id, p.src, p.dest) == None
  }

  /** A packet as a well-behaved sender builds it, seen with module table t. */
  predicate WellFormed(t: Table, p: Packet) {
    Encodable(p.payload) && CanonicalCommand(t, p)
    && p.length as int == 11 + CommandLen(p.payload)
    && p.checksum == Checksum(p)
  }

  lemma CommandRoundTrip(t: Table, p: Packet)
    requires Encodable(p.payload) && CanonicalCommand(t, p)
    ensures CommandFromBytes(t, p.packetId, CommandBytes(p.payload), p.src, p.dest) == Ok(p.payload)
  {
    CommandLenAgrees(p.payload);
    match p.payload {
      case QueryInterfaceResponse(first, count) =>
        var b := CommandBytes(p.payload);
        assert b[0..2] == U16Bytes(first) && b[2..4] == U16Bytes(count);
        U16RoundTrip(first);
        U16RoundTrip(count);
      case Lynx(m, c) =>
        if t != [] {
          LynxRoundTrip(c);
        }
      case _ =>
    }
  }

  lemma HeaderFields(p: Packet, data: seq<Byte>)
    requires |data| >= 10 && data[..10] == Header(p)
    ensures data[0..2] == FRAME && ReadU16(data[2..4]) == p.length && ReadU16(data[8..10]) == p.packetId
    ensures data[4] == p.dest && data[5] == p.src && data[6] == p.msgNum && data[7] == p.refNum
  {
    var h := Header(p);
    assert h[0..2] == FRAME && h[2..4] == U16Bytes(p.length) && h[8..10] == U16Bytes(p.packetId);
    assert h[4..8] == [p.dest, p.src, p.msgNum, p.refNum];
    assert data[0..2] == h[0..2] && data[2..4] == h[2..4] && data[8..10] == h[8..10] && data[4..8] == h[4..8];
    U16RoundTrip(p.length);
    U16RoundTrip(p.packetId);
    assert data[4] == data[4..8][0] && data[5] == data[4..8][1] && data[6] == data[4..8][2] && data[7] == data[4..8][3];
  }

  /** Decoding an encoded packet gives the packet back, whatever stale bytes follow it in the buffer. */
  lemma PacketRoundTrip(t: Table, p: Packet, stale: seq<Byte>)
    requires WellFormed(t, p)
    ensures |PacketBytes(p)| == p.length as int
    ensures FromData(t, PacketBytes(p) + stale) == Ok(p)
  {
    CommandLenAgrees(p.payload);
    var data := PacketBytes(p) + stale;
    var body := CommandBytes(p.payload);
    assert data[..10] == Header(p);
    HeaderFields(p, data);
    assert data[..p.length - 1] == Header(p) + body;
    assert data[10..p.length - 1] == body;
    assert data[p.length - 1] == p.checksum;
    CommandRoundTrip(t, p);
  }

  /** Where the fields of an encoded packet are, byte by byte. */
  lemma FrameLayout(p: Packet)
    requires Encodable(p.payload) && p.length as int == 11 + CommandLen(p.payload)
    ensures var b := PacketBytes(p);
            && |b| == p.length as int && b[0] == 68 && b[1] == 75 && b[2] as int + 0x100 * b[3] as int == p.length
            && b[4] == p.dest && b[5] == p.src && b[6] == p.msgNum && b[7] == p.refNum
            && b[8] as int + 0x100 * b[9] as int == p.packetId && b[10..|b| - 1] == CommandBytes(p.payload)
            && b[|b| - 1] == Total(b[..|b| - 1]) % 0x100
  {
    CommandLenAgrees(p.payload);
    hide CommandBytes;
    hide CommandLen;
    hide Encodable;
    var b := PacketBytes(p);
    assert b[..10] == Header(p);
    HeaderFields(p, b);
    assert b[2] == b[2..4][0] && b[3] == b[2..4][1] && b[8] == b[8..10][0] && b[9] == b[8..10][1];
    assert b[..|b| - 1] == Header(p) + CommandBytes(p.payload);
  }

  /** A frame that ends where its length field says, with a sum that fits. */
  predicate Fitting(b: seq<Byte>) {
    |b| >= 10 && b[0] == 68 && b[1] == 75
    && var n := b[2] as int + 0x100 * b[3] as int; 0 < n <= |b| && Total(b[..n - 1]) % 0x100 == b[n - 1]
  }

  /** The decoder refuses exactly what does not start a frame and what has a length within the data and another sum. */
  lemma RefusedExactly(t: Table, b: seq<Byte>)
    ensures FromData(t, b) == NoValue
            <==> |b| >= 2
                 && (b[0] != 68 || b[1] != 75 || (|b| >= 10 && 0 < b[2] as int + 0x100 * b[3] as int <= |b| && !Fitting(b)))
  {
    if |b| >= 2 {
      assert b[0..2] == FRAME <==> b[0] == 68 && b[1] == 75;
    }
  }

  /** It accepts exactly a fitting frame of at least eleven bytes with a payload it can decode, and panics on all else. */
  lemma DecodedExactly(t: Table, b: seq<Byte>)
    ensures FromData(t, b).Ok?
            <==> Fitting(b)
                 && var n := b[2] as int + 0x100 * b[3] as int;
                    n >= 11 && CommandFromBytes(t, b[8] as int + 0x100 * b[9] as int, b[10..n - 1], b[5], b[4]).Ok?
  {
    hide CommandFromBytes;
    if |b| >= 2 {
      assert b[0..2] == FRAME <==> b[0] == 68 && b[1] == 75;
    }
  }

  /** No two different well-formed packets share an encoding: dispatch is unambiguous. */
  lemma EncodingInjective(t: Table, p: Packet, q: Packet)
    requires WellFormed(t, p) && WellFormed(t, q) && PacketBytes(p) == PacketBytes(q)
    ensures p == q
  {
    PacketRoundTrip(t, p, []);
    PacketRoundTrip(t, q, []);
  }

  /** The module's range stays below the standard ids and covers the command. */
  predicate Covers(m: Module, c: LynxCommand) {
    m.first as int + m.count as int < ACK as int && CommandNumber(LynxId(c)) <= m.count
  }

  /** Adding the module base is undone by is_module_command or is_module_response, and by exactly one of them. */
  lemma ModuleIdsSurvive(m: Module, c: LynxCommand)
    requires Covers(m, c)
    ensures var id := WrapAdd(LynxId(c), m.first);
            && !IsStandardId(id)
            && IsModuleCommand(m, id) == (if LynxId(c) < RESPONSE_BIT then Some(LynxId(c)) else None)
            && IsModuleResponse(m, id) == (if LynxId(c) < RESPONSE_BIT then None else Some(LynxId(c)))
  {
    hide LynxId;
  }

  lemma LynxIdBack(t: Table, id: U16, data: seq<Byte>, src: Byte, dest: Byte, c: Command)
    requires LynxFromBytes(t, id, data, src, dest) == Ok(c)
    ensures ToPacketId(c) == id
  {
    if t != [] {
      var route := Route(t, id, src, dest).value;
      RouteExactly(t, id, src, dest, route.0, route.1);
      LynxIdKept(route.1, data, c.command);
    }
    hide ToCommand;
    hide LynxId;
    hide Route;
  }

  /** A decoded command has the id it came under, unless that is an Ack, Nack or keep-alive with the response bit set. */
  lemma IdBack(t: Table, id: U16, data: seq<Byte>, src: Byte, dest: Byte, c: Command)
    requires CommandFromBytes(t, id, data, src, dest) == Ok(c)
    ensures ToPacketId(c) == id <==> id < RESPONSE_BIT || !(c.Ack? || c.Nack? || c.KeepAlive?)
  {
    if c.Lynx? {
      LynxIdBack(t, id, data, src, dest, c);
    }
    hide LynxFromBytes;
    hide LynxId;
  }

  /** What new_full builds: every field as given, and a length that is right exactly when it fits sixteen bits. */
  lemma BuiltSealed(c: Command, dest: Byte, src: Byte, refNum: Byte, msgNum: Byte)
    requires Encodable(c)
    ensures var p := NewFull(c, dest, src, refNum, msgNum);
            && (p.length as int == 11 + CommandLen(p.payload) <==> CommandLen(c) <= 0xFFF4)
            && p.checksum == Checksum(p) && p.payload == c && p.packetId == ToPacketId(c)
            && p.dest == dest && p.src == src && p.refNum == refNum && p.msgNum == msgNum
  {
    hide Encodable;
    hide CommandLen;
    hide ToPacketId;
    hide CommandBytes;
    hide Sum;
  }

  lemma BuiltWellFormed(t: Table, m: Module, c: LynxCommand, dest: Byte, src: Byte, refNum: Byte, msgNum: Byte)
    requires LynxCanonical(c) && LynxLen(c) <= 0xFFF4 && t != []
    requires var id := WrapAdd(LynxId(c), m.first); !IsStandardId(id) && Route(t, id, src, dest) == Some((m, LynxId(c)))
    ensures LynxEncodable(c) && WellFormed(t, NewFull(Lynx(m, c), dest, src, refNum, msgNum))
  {
    assert LynxEncodable(c);
    hide LynxCanonical;
    hide LynxEncodable;
    hide LynxLen;
    hide LynxBytes;
    hide LynxId;
    hide IsStandardId;
    hide Route;
    hide Checksum;
    hide NewFull;
    BuiltSealed(Lynx(m, c), dest, src, refNum, msgNum);
  }

  /** A command built for a module, addressed to it, is well formed. */
  lemma BuiltCommandWellFormed(t: Table, m: Module, c: LynxCommand, src: Byte, refNum: Byte, msgNum: Byte)
    requires FindModule(t, m.addr) == Some(m) && Covers(m, c) && LynxId(c) < RESPONSE_BIT
    requires LynxCanonical(c) && LynxLen(c) <= 0xFFF4
    ensures LynxEncodable(c) && WellFormed(t, NewFull(Lynx(m, c), m.addr, src, refNum, msgNum))
  {
    ModuleIdsSurvive(m, c);
    hide LynxCanonical;
    hide WellFormed;
    hide NewFull;
    hide LynxId;
    BuiltWellFormed(t, m, c, m.addr, src, refNum, msgNum);
  }

  /** A response from a module to an address that is no module's is well formed. */
  lemma BuiltResponseWellFormed(t: Table, m: Module, c: LynxCommand, dest: Byte, refNum: Byte, msgNum: Byte)
    requires FindModule(t, m.addr) == Some(m) && FindModule(t, dest) == None && Covers(m, c) && LynxId(c) >= RESPONSE_BIT
    requires LynxCanonical(c) && LynxLen(c) <= 0xFFF4
    ensures LynxEncodable(c) && WellFormed(t, NewFull(Lynx(m, c), dest, m.addr, refNum, msgNum))
  {
    ModuleIdsSurvive(m, c);
    hide LynxCanonical;
    hide WellFormed;
    hide NewFull;
    hide LynxId;
    BuiltWellFormed(t, m, c, dest, m.addr, refNum, msgNum);
  }

  // ---- encoding inverts decoding: the transparent relay ----

  /** Payload bytes in the encoders' own form for the command they decode to. */
  predicate NormalCommand(t: Table, id: U16, data: seq<Byte>, src: Byte, dest: Byte) {
    if CommandNumber(id) == ACK then |data| == 1 && data[0] <= 1
    else if CommandNumber(id) == NACK then |data| == 1
    else if CommandNumber(id) == KEEP_ALIVE then |data| == 0
    else if id == QUERY_INTERFACE then true
    else if id == QUERY_INTERFACE + RESPONSE_BIT then |data| == 4
    else
      match Route(t, id, src, dest)
      case Some(route) => NormalPayload(route.1, data)
      case None => true
  }

  /** A frame with nothing after it and a payload in normal form. */
  predicate NormalFrame(t: Table, b: seq<Byte>)
    requires |b| >= 11
  {
    |b| == ReadU16(b[2..4]) as int && NormalCommand(t, ReadU16(b[8..10]), b[10..|b| - 1], b[5], b[4])
  }

  lemma RoutedTransparent(t: Table, id: U16, data: seq<Byte>, src: Byte, dest: Byte, c: Command)
    requires CommandFromBytes(t, id, data, src, dest) == Ok(c) && Encodable(c) && c.Lynx? && t != []
    ensures |CommandBytes(c)| <= |data|
    ensures CommandBytes(c) == data <==> NormalCommand(t, id, data, src, dest)
  {
    CommandLenAgrees(c);
    hide ToCommand;
    hide LynxBytes;
    hide LynxLen;
    hide NormalPayload;
    hide CommandBytes;
    hide Encodable;
    var rel := Route(t, id, src, dest).value.1;
    LynxReencode(rel, data, c.command);
    LynxTransparent(rel, data, c.command);
  }

  lemma CommandTransparent(t: Table, id: U16, data: seq<Byte>, src: Byte, dest: Byte, c: Command)
    requires CommandFromBytes(t, id, data, src, dest) == Ok(c) && Encodable(c)
    ensures |CommandBytes(c)| <= |data|
    ensures CommandBytes(c) == data <==> NormalCommand(t, id, data, src, dest)
  {
    if c.Lynx? && t != [] {
      RoutedTransparent(t, id, data, src, dest, c);
    } else {
      hide ToCommand;
      hide LynxLen;
      if c.QueryInterfaceResponse? {
        U16BytesOfRead(data[0..2]);
        U16BytesOfRead(data[2..4]);
        assert data[..4] == data[0..2] + data[2..4];
      }
    }
  }

  lemma DecodedFrame(t: Table, b: seq<Byte>, p: Packet)
    requires FromData(t, b) == Ok(p)
    ensures 11 <= p.length as int <= |b| && Header(p) == b[..10]
    ensures Sum(b[..p.length - 1]) == p.checksum == b[p.length - 1]
    ensures CommandFromBytes(t, p.packetId, b[10..p.length - 1], p.src, p.dest) == Ok(p.payload)
  {
    U16BytesOfRead(b[2..4]);
    U16BytesOfRead(b[8..10]);
    assert b[..10] == b[0..2] + b[2..4] + b[4..8] + b[8..10];
    assert b[4..8] == [b[4], b[5], b[6], b[7]];
  }

  /** Decoding then encoding is the identity on a frame exactly when the frame is in normal form. */
  lemma FrameTransparent(t: Table, b: seq<Byte>, p: Packet)
    requires FromData(t, b) == Ok(p) && Encodable(p.payload)
    ensures PacketBytes(p) == b <==> NormalFrame(t, b)
  {
    DecodedFrame(t, b, p);
    HeaderFields(p, b);
    hide FromData;
    hide CommandFromBytes;
    hide NormalCommand;
    hide CommandBytes;
    hide Encodable;
    hide ReadU16;
    var n := p.length as int;
    var data := b[10..n - 1];
    CommandTransparent(t, p.packetId, data, p.src, p.dest, p.payload);
    assert b[..n - 1] == Header(p) + data;
    if PacketBytes(p) == b {
      assert |b| == n;
      assert PacketBytes(p)[10..n - 1] == CommandBytes(p.payload);
    }
    if NormalFrame(t, b) {
      assert b == b[..n - 1] + [b[n - 1]];
    }
  }

  /** Both numbers replaced, as the proxies do on the way out and on the way back. */
  function Renumber(p: Packet, n: Byte): Packet {
    p.(msgNum := n, refNum := n)
  }

  /** packet.checksum = packet.checksum() */
  function Seal(p: Packet): Packet
    requires Encodable(p.payload)
  {
    p.(checksum := Checksum(p))
  }

  /** The bytes of b with both numbers replaced and the last byte recomputed. */
  function Patched(b: seq<Byte>, n: Byte): seq<Byte>
    requires |b| >= 11
  {
    var front := b[..6] + [n, n] + b[8..|b| - 1];
    front + [Sum(front)]
  }

  /** Relaying bytes under a new id changes both numbers and the checksum and nothing else, exactly for normal frames. */
  lemma RelayTransparent(t: Table, b: seq<Byte>, p: Packet, n: Byte)
    requires FromData(t, b) == Ok(p) && Encodable(p.payload)
    ensures |b| >= 11
    ensures PacketBytes(Renumber(p, n)) == Patched(b, n) <==> NormalFrame(t, b)
  {
    DecodedFrame(t, b, p);
    HeaderFields(p, b);
    hide FromData;
    hide CommandFromBytes;
    hide NormalCommand;
    hide CommandBytes;
    hide Encodable;
    hide ReadU16;
    var q := Renumber(p, n);
    var len := p.length as int;
    var data, body := b[10..len - 1], CommandBytes(p.payload);
    CommandTransparent(t, p.packetId, data, p.src, p.dest, p.payload);
    assert Header(q) == Header(p)[..6] + [n, n] + Header(p)[8..];
    var rest := b[10..|b| - 1];
    var front := b[..6] + [n, n] + b[8..|b| - 1];
    assert front == Header(q) + rest by {
      assert b[..6] == b[..10][..6] && b[8..|b| - 1] == b[..10][8..] + rest;
    }
    assert PacketBytes(q)[10..10 + |body|] == body;
    assert Patched(b, n)[10..|b| - 1] == rest;
  }

  /** A reply handed to the SDK under its old number encodes to the hub's frame with both numbers and the checksum patched. */
  lemma ReplyPatched(d: Packet, n: Byte)
    requires Encodable(d.payload)
    ensures |PacketBytes(d)| >= 11
    ensures PacketBytes(Renumber(d, n)) == Patched(PacketBytes(d), n)
  {
    var b, body, q := PacketBytes(d), CommandBytes(d.payload), Renumber(d, n);
    hide CommandBytes;
    hide Sum;
    assert Header(q) == Header(d)[..6] + [n, n] + Header(d)[8..];
    assert b[..6] == Header(d)[..6] && b[8..|b| - 1] == Header(d)[8..] + body;
    assert b[..6] + [n, n] + b[8..|b| - 1] == Header(q) + body;
  }

  predicate MinimumAt(b: seq<Byte>, k: nat) {
    k + 4 <= |b| && ReadI32(b[k..k + 4]) == -0x8000_0000
  }

  lemma MinimumWithin(b: seq<Byte>, lo: nat, hi: nat, k: nat)
    requires lo + k + 4 <= hi <= |b|
    ensures MinimumAt(b[lo..hi], k) <==> MinimumAt(b, lo + k)
  {
    var inner := b[lo..hi];
    assert inner[k..k + 4] == [inner[k], inner[k + 1], inner[k + 2], inner[k + 3]];
    assert b[lo + k..lo + k + 4] == [inner[k], inner[k + 1], inner[k + 2], inner[k + 3]];
  }

  lemma PidfPayloadEncodable(data: seq<Byte>, c: LynxCommand)
    requires ToCommand(51, data) == Ok(c)
    ensures |data| >= 19
    ensures LynxEncodable(c) <==>
            !(MinimumAt(data, 2) || MinimumAt(data, 6) || MinimumAt(data, 10) || MinimumAt(data, 14))
  {
    PidfFixedPoint(ReadI32(data[2..6]));
    PidfFixedPoint(ReadI32(data[6..10]));
    PidfFixedPoint(ReadI32(data[10..14]));
    PidfFixedPoint(ReadI32(data[14..18]));
  }

  lemma OthersEncodable(id: U16, data: seq<Byte>, c: LynxCommand)
    requires ToCommand(id, data) == Ok(c)
    ensures if c.SetMotorPIDF? then id == 51 else LynxEncodable(c)
  {}

  lemma CommandEncodable(t: Table, id: U16, data: seq<Byte>, src: Byte, dest: Byte, c: Command)
    requires CommandFromBytes(t, id, data, src, dest) == Ok(c)
    ensures Encodable(c) <==>
            !(c.Lynx? && c.command.SetMotorPIDF? &&
              (MinimumAt(data, 2) || MinimumAt(data, 6) || MinimumAt(data, 10) || MinimumAt(data, 14)))
  {
    hide ToCommand;
    if c.Lynx? && t != [] {
      var rel := Route(t, id, src, dest).value.1;
      assert ToCommand(rel, data) == Ok(c.command);
      OthersEncodable(rel, data, c.command);
      if c.command.SetMotorPIDF? {
        PidfPayloadEncodable(data, c.command);
      }
    }
  }

  lemma PidfLength(t: Table, id: U16, data: seq<Byte>, src: Byte, dest: Byte, c: Command)
    requires CommandFromBytes(t, id, data, src, dest) == Ok(c) && c.Lynx? && c.command.SetMotorPIDF?
    ensures |data| >= 19
  {
    var rel := Route(t, id, src, dest).value.1;
    assert ToCommand(rel, data) == Ok(c.command);
  }

  /** A decoded packet can be encoded again unless it carries a PIDF coefficient of -2^31. */
  lemma DecodedEncodable(t: Table, b: seq<Byte>, p: Packet)
    requires FromData(t, b) == Ok(p)
    ensures Encodable(p.payload) <==>
            !(p.payload.Lynx? && p.payload.command.SetMotorPIDF? &&
              (MinimumAt(b, 12) || MinimumAt(b, 16) || MinimumAt(b, 20) || MinimumAt(b, 24)))
  {
    hide *;
    DecodedFrame(t, b, p);
    var n := p.length as int;
    var data := b[10..n - 1];
    CommandEncodable(t, p.packetId, data, p.src, p.dest, p.payload);
    if p.payload.Lynx? && p.payload.command.SetMotorPIDF? {
      PidfLength(t, p.packetId, data, p.src, p.dest, p.payload);
      MinimumWithin(b, 10, n - 1, 2);
      MinimumWithin(b, 10, n - 1, 6);
      MinimumWithin(b, 10, n - 1, 10);
      MinimumWithin(b, 10, n - 1, 14);
    }
  }

  // ---- several packets ----

  predicate AllEncodable(ps: seq<Packet>) {
    forall p | p in ps :: Encodable(p.payload)
  }

  predicate AllWellFormed(t: Table, ps: seq<Packet>) {
    forall p | p in ps :: WellFormed(t, p)
  }

  /** The concatenated encodings, as conv_byte_vec builds them. */
  function Stream(ps: seq<Packet>): seq<Byte>
    requires AllEncodable(ps)
  {
    if ps == [] then [] else PacketBytes(ps[0]) + Stream(ps[1..])
  }

  lemma {:induction false} StreamAppend(ps: seq<Packet>, qs: seq<Packet>)
    requires AllEncodable(ps) && AllEncodable(qs)
    ensures AllEncodable(ps + qs) && Stream(ps + qs) == Stream(ps) + Stream(qs)
  {
    if ps == [] {
      assert ps + qs == qs;
    } else {
      assert (ps + qs)[1..] == ps[1..] + qs;
      StreamAppend(ps[1..], qs);
    }
  }
}
