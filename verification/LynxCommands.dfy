/** The module-relative commands of lynx_commands.rs: packet ids, lengths, encoders and decoders. */
module LynxCommands {
  import opened Bytes

  // num_enum types with contiguous u8 representations are modelled by their representation.
  type AdcChannel = x: Byte | x < 15
  type AdcMode = x: Byte | x < 2
  type RunMode = x: Byte | x < 3
  type ZeroPower = x: Byte | x < 2
  type SpeedCode = x: Byte | x < 4 || x == 255

  const UNKNOWN_SPEED: SpeedCode := 255

  datatype Quad<+T> = Quad(m0: T, m1: T, m2: T, m3: T)

  datatype LynxCommand =
    | GetADCCommand(channel: AdcChannel, mode: AdcMode)
    | GetADCResponse(value: I16)
    | GetBulkDataCommand
    | GetBulkDataResponse(digitalInputs: Byte, motorStatus: Byte, positions: Quad<I32>, velocities: Quad<I16>, analog: Quad<I16>)
    | SetMotorPower(motor: Byte, power: I16)
    | SetServoPulseWidth(servo: Byte, pulseWidth: U16)
    | SetMotorChannelEnable(motor: Byte, enabled: bool)
    | GetMotorChannelModeCommand(motor: Byte)
    | GetMotorChannelModeResponse(runMode: RunMode, zeroPower: ZeroPower)
    | SetMotorChannelMode(motor: Byte, runMode: RunMode, zeroPower: ZeroPower)
    | I2CSingleByteWrite(bus: Byte, address: Byte, byte: Byte)
    | I2CWriteMultipleBytes(bus: Byte, address: Byte, payload: seq<Byte>)
    | I2CWriteReadMultipleBytes(bus: Byte, address: Byte, bytesToRead: Byte, startAddress: Byte)
    | I2CReadStatusQuery(bus: Byte)
    | I2CReadStatusResponse(status: Byte, data: seq<Byte>)
    | SetMotorPIDF(motor: Byte, pidfMode: RunMode, p: real, i: real, d: real, f: real, algorithm: Byte)
    | SetMotorVelocityTarget(motor: Byte, velocity: I16)
    | SetMotorTargetPosition(motor: Byte, position: I32, tolerance: U16)
    | I2CWriteStatusQuery(bus: Byte)
    | I2CWriteStatusResponse(status: Byte, bytesWritten: Byte)
    | I2CConfigureChannel(bus: Byte, speed: SpeedCode)
    | LynxUnknown(packId: U16, data: seq<Byte>)

  /** to_packet_id, before the module base is added. */
  function LynxId(c: LynxCommand): U16 {
    match c
    case GetADCCommand(_, _) => 7
    case GetADCResponse(_) => 7 + RESPONSE_BIT
    case GetBulkDataCommand => 0
    case GetBulkDataResponse(_, _, _, _, _) => RESPONSE_BIT
    case SetMotorPower(_, _) => 15
    case SetServoPulseWidth(_, _) => 33
    case SetMotorChannelEnable(_, _) => 10
    case GetMotorChannelModeCommand(_) => 9
    case GetMotorChannelModeResponse(_, _) => 9 + RESPONSE_BIT
    case SetMotorChannelMode(_, _, _) => 8
    case I2CSingleByteWrite(_, _, _) => 37
    case I2CWriteMultipleBytes(_, _, _) => 38
    case I2CWriteReadMultipleBytes(_, _, _, _) => 52
    case I2CReadStatusQuery(_) => 41
    case I2CReadStatusResponse(_, _) => 41 + RESPONSE_BIT
    case SetMotorPIDF(_, _, _, _, _, _, _) => 51
    case SetMotorVelocityTarget(_, _) => 17
    case SetMotorTargetPosition(_, _, _) => 19
    case I2CWriteStatusQuery(_) => 42
    case I2CWriteStatusResponse(_, _) => 42 + RESPONSE_BIT
    case I2CConfigureChannel(_, _) => 43
    case LynxUnknown(id, _) => id
  }

  /** Ids that to_command recognises; every other id becomes LynxUnknown. */
  const KNOWN_IDS: set<int> :=
    {0, 7, 8, 9, 10, 15, 17, 19, 33, 37, 38, 41, 42, 43, 51, 52,
     0x8000, 0x8007, 0x8009, 0x8029, 0x802A}

  /** get_bytes_len. */
  function LynxLen(c: LynxCommand): nat {
    match c
    case GetADCCommand(_, _) => 2
    case GetADCResponse(_) => 2
    case GetBulkDataCommand => 0
    case GetBulkDataResponse(_, _, _, _, _) => 34
    case SetMotorPower(_, _) => 3
    case SetServoPulseWidth(_, _) => 3
    case SetMotorChannelEnable(_, _) => 2
    case GetMotorChannelModeCommand(_) => 1
    case GetMotorChannelModeResponse(_, _) => 2
    case SetMotorChannelMode(_, _, _) => 3
    case I2CSingleByteWrite(_, _, _) => 3
    case I2CWriteMultipleBytes(_, _, payload) => 3 + |payload|
    case I2CWriteReadMultipleBytes(_, _, _, _) => 4
    case I2CReadStatusQuery(_) => 1
    case I2CReadStatusResponse(_, data) => 2 + |data|
    case SetMotorPIDF(_, _, _, _, _, _, _) => 19
    case SetMotorVelocityTarget(_, _) => 3
    case SetMotorTargetPosition(_, _, _) => 7
    case I2CWriteStatusQuery(_) => 1
    case I2CWriteStatusResponse(_, _) => 2
    case I2CConfigureChannel(_, _) => 2
    case LynxUnknown(_, data) => |data|
  }

  // ---- PIDF coefficients: 16.16 fixed point ----

  function Scaled(c: real): real {
    (if c < 0.0 then -c else c) * 65536.0 + 0.5
  }

  /** Outside this range to_i32 yields None and the encoder panics. */
  predicate CoefficientFits(c: real) {
    Scaled(c).Floor < 0x8000_0000
  }

  function CoefficientToInternal(c: real): I32
    requires CoefficientFits(c)
  {
    Scaled(c).Floor * (if c < 0.0 then -1 else 1)
  }

  function InternalToCoefficient(n: I32): real {
    n as real / 65536.0
  }

  /**
   * A coefficient goes out as the nearest multiple of 2^-16, halves away from zero, and is refused exactly when that
   * multiple would be 32768 or more in size.
   */
  lemma CoefficientNearest(c: real)
    ensures CoefficientFits(c) <==> -32768.0 < c - 0.5 / 65536.0 && c + 0.5 / 65536.0 < 32768.0
    ensures CoefficientFits(c) ==>
              var n := CoefficientToInternal(c) as real;
              if c < 0.0 then n - 0.5 < c * 65536.0 <= n + 0.5 else n - 0.5 <= c * 65536.0 < n + 0.5
  {}

  /** Every wire value except the minimum survives the conversion to a float and back; the minimum panics. */
  lemma PidfFixedPoint(n: I32)
    ensures CoefficientFits(InternalToCoefficient(n)) <==> n != -0x8000_0000
    ensures n != -0x8000_0000 ==> CoefficientToInternal(InternalToCoefficient(n)) == n
  {
    var c := InternalToCoefficient(n);
    var m: int := if n < 0 then -(n as int) else n;
    assert Scaled(c) == m as real + 0.5;
    assert Scaled(c).Floor == m;
  }

  /** Coefficients that some wire value other than the minimum denotes. */
  predicate OnGrid(c: real) {
    CoefficientFits(c) && InternalToCoefficient(CoefficientToInternal(c)) == c
  }

  // ---- encoders ----

  /** Values the encoders accept; they panic on the others. */
  predicate LynxEncodable(c: LynxCommand) {
    match c
    case I2CWriteMultipleBytes(_, _, payload) => |payload| <= 255
    case SetMotorPIDF(_, _, p, i, d, f, _) =>
      CoefficientFits(p) && CoefficientFits(i) && CoefficientFits(d) && CoefficientFits(f)
    case _ => true
  }

  function PositionBytes(q: Quad<I32>): (b: seq<Byte>)
    ensures |b| == 16
  {
    I32Bytes(q.m0) + I32Bytes(q.m1) + I32Bytes(q.m2) + I32Bytes(q.m3)
  }

  function I16QuadBytes(q: Quad<I16>): (b: seq<Byte>)
    ensures |b| == 8
  {
    I16Bytes(q.m0) + I16Bytes(q.m1) + I16Bytes(q.m2) + I16Bytes(q.m3)
  }

  /** The Into<Vec<u8>> implementations. */
  function LynxBytes(c: LynxCommand): seq<Byte>
    requires LynxEncodable(c)
  {
    match c
    case GetADCCommand(channel, mode) => [channel, mode]
    case GetADCResponse(value) => I16Bytes(value)
    case GetBulkDataCommand => []
    case GetBulkDataResponse(digital, status, positions, velocities, analog) =>
      [digital] + PositionBytes(positions) + [status] + I16QuadBytes(velocities) + I16QuadBytes(analog)
    case SetMotorPower(motor, power) => [motor] + I16Bytes(power)
    case SetServoPulseWidth(servo, width) => [servo] + U16Bytes(width)
    case SetMotorChannelEnable(motor, enabled) => [motor, if enabled then 1 else 0]
    case GetMotorChannelModeCommand(motor) => [motor]
    case GetMotorChannelModeResponse(run, zero) => [run, zero]
    case SetMotorChannelMode(motor, run, zero) => [motor, run, zero]
    case I2CSingleByteWrite(bus, address, byte) => [bus, address, byte]
    case I2CWriteMultipleBytes(bus, address, payload) => [bus, address, |payload|] + payload
    case I2CWriteReadMultipleBytes(bus, address, count, start) => [bus, address, count, start]
    case I2CReadStatusQuery(bus) => [bus]
    case I2CReadStatusResponse(status, data) => [status, |data| % 0x100] + data
    case SetMotorPIDF(motor, mode, p, i, d, f, algorithm) =>
      [motor, mode] + I32Bytes(CoefficientToInternal(p)) + I32Bytes(CoefficientToInternal(i))
      + I32Bytes(CoefficientToInternal(d)) + I32Bytes(CoefficientToInternal(f)) + [algorithm]
    case SetMotorVelocityTarget(motor, velocity) => [motor] + I16Bytes(velocity)
    case SetMotorTargetPosition(motor, position, tolerance) => [motor] + I32Bytes(position) + U16Bytes(tolerance)
    case I2CWriteStatusQuery(bus) => [bus]
    case I2CWriteStatusResponse(status, written) => [status, written]
    case I2CConfigureChannel(bus, speed) => [bus, speed]
    case LynxUnknown(_, data) => data
  }

  /** get_bytes_len agrees with every encoder. */
  lemma LynxLenAgrees(c: LynxCommand)
    requires LynxEncodable(c)
    ensures |LynxBytes(c)| == LynxLen(c)
  {}

  // ---- decoders ----

  function ReadPositions(b: seq<Byte>): Quad<I32>
    requires |b| == 16
  {
    Quad(ReadI32(b[0..4]), ReadI32(b[4..8]), ReadI32(b[8..12]), ReadI32(b[12..16]))
  }

  function ReadI16Quad(b: seq<Byte>): Quad<I16>
    requires |b| == 8
  {
    Quad(ReadI16(b[0..2]), ReadI16(b[2..4]), ReadI16(b[4..6]), ReadI16(b[6..8]))
  }

  /** The shortest payload the decoder of a known id reads without an index panic. */
  function WireLen(id: U16, data: seq<Byte>): nat {
    if id == 7 then 2
    else if id == 0x8007 then 2
    else if id == 0 then 0
    else if id == 0x8000 then 34
    else if id == 15 then 3
    else if id == 33 then 3
    else if id == 10 then 2
    else if id == 9 then 1
    else if id == 0x8009 then 2
    else if id == 8 then 3
    else if id == 37 then 3
    else if id == 38 then if |data| < 3 then 3 else 3 + data[2]
    else if id == 52 then 4
    else if id == 41 then 1
    else if id == 0x8029 then if |data| < 2 then 2 else 2 + data[1]
    else if id == 51 then 19
    else if id == 17 then 3
    else if id == 19 then 7
    else if id == 42 then 1
    else if id == 0x802A then 2
    else if id == 43 then 2
    else |data|
  }

  /** to_command: the chain of from_bytes attempts, on an id without module base. */
  function ToCommand(id: U16, data: seq<Byte>): (r: Outcome<LynxCommand>)
    ensures r != NoValue
  {
    if |data| < WireLen(id, data) then Panics
    else if id == 7 then
      if data[0] < 15 && data[1] < 2 then Ok(GetADCCommand(data[0], data[1])) else Panics
    else if id == 0x8007 then Ok(GetADCResponse(ReadI16(data[0..2])))
    else if id == 0 then Ok(GetBulkDataCommand)
    else if id == 0x8000 then
      Ok(GetBulkDataResponse(data[0], data[17], ReadPositions(data[1..17]), ReadI16Quad(data[18..26]), ReadI16Quad(data[26..34])))
    else if id == 15 then Ok(SetMotorPower(data[0], ReadI16(data[1..3])))
    else if id == 33 then Ok(SetServoPulseWidth(data[0], ReadU16(data[1..3])))
    else if id == 10 then Ok(SetMotorChannelEnable(data[0], data[1] != 0))
    else if id == 9 then Ok(GetMotorChannelModeCommand(data[0]))
    else if id == 0x8009 then
      if data[0] < 3 && data[1] < 2 then Ok(GetMotorChannelModeResponse(data[0], data[1])) else Panics
    else if id == 8 then
      if data[1] < 3 && data[2] < 2 then Ok(SetMotorChannelMode(data[0], data[1], data[2])) else Panics
    else if id == 37 then Ok(I2CSingleByteWrite(data[0], data[1], data[2]))
    else if id == 38 then Ok(I2CWriteMultipleBytes(data[0], data[1], data[3..3 + data[2]]))
    else if id == 52 then Ok(I2CWriteReadMultipleBytes(data[0], data[1], data[2], data[3]))
    else if id == 41 then Ok(I2CReadStatusQuery(data[0]))
    else if id == 0x8029 then Ok(I2CReadStatusResponse(data[0], data[2..2 + data[1]]))
    else if id == 51 then
      if data[1] < 3 then
        Ok(SetMotorPIDF(data[0], data[1],
                        InternalToCoefficient(ReadI32(data[2..6])), InternalToCoefficient(ReadI32(data[6..10])),
                        InternalToCoefficient(ReadI32(data[10..14])), InternalToCoefficient(ReadI32(data[14..18])),
                        data[18]))
      else Panics
    else if id == 17 then Ok(SetMotorVelocityTarget(data[0], ReadI16(data[1..3])))
    else if id == 19 then Ok(SetMotorTargetPosition(data[0], ReadI32(data[1..5]), ReadU16(data[5..7])))
    else if id == 42 then Ok(I2CWriteStatusQuery(data[0]))
    else if id == 0x802A then Ok(I2CWriteStatusResponse(data[0], data[1]))
    else if id == 43 then
      Ok(I2CConfigureChannel(data[0], if data[1] < 4 then data[1] else UNKNOWN_SPEED))
    else Ok(LynxUnknown(id, data))
  }

  /**
   * What the decoders panic on: a payload shorter than they read, and numbers outside the enumerations of ADC channels
   * and modes, run modes and zero-power behaviours; an undefined I2C speed is taken as unknown.
   */
  lemma DecodePanicsExactly(id: U16, data: seq<Byte>)
    ensures ToCommand(id, data) == Panics
            <==> |data| < WireLen(id, data)
                 || (id == 7 && (data[0] > 14 || data[1] > 1)) || (id == 0x8009 && (data[0] > 2 || data[1] > 1))
                 || (id == 8 && (data[1] > 2 || data[2] > 1)) || (id == 51 && data[1] > 2)
    ensures id == 43 && |data| >= 2 ==>
              ToCommand(id, data) == Ok(I2CConfigureChannel(data[0], if data[1] <= 3 then data[1] else 255))
  {}

  // ---- round trips ----

  /** Commands that a decoder can produce from the bytes their encoder writes. */
  predicate LynxCanonical(c: LynxCommand) {
    LynxEncodable(c) &&
    match c
    case I2CReadStatusResponse(_, data) => |data| <= 255
    case SetMotorPIDF(_, _, p, i, d, f, _) => OnGrid(p) && OnGrid(i) && OnGrid(d) && OnGrid(f)
    case LynxUnknown(id, _) => id !in KNOWN_IDS
    case _ => true
  }

  lemma QuadRoundTrips(p: Quad<I32>, q: Quad<I16>)
    ensures ReadPositions(PositionBytes(p)) == p
    ensures ReadI16Quad(I16QuadBytes(q)) == q
  {
    var b := PositionBytes(p);
    assert b[0..4] == I32Bytes(p.m0) && b[4..8] == I32Bytes(p.m1) && b[8..12] == I32Bytes(p.m2) && b[12..16] == I32Bytes(p.m3);
    I32RoundTrip(p.m0); I32RoundTrip(p.m1); I32RoundTrip(p.m2); I32RoundTrip(p.m3);
    var h := I16QuadBytes(q);
    assert h[0..2] == I16Bytes(q.m0) && h[2..4] == I16Bytes(q.m1) && h[4..6] == I16Bytes(q.m2) && h[6..8] == I16Bytes(q.m3);
    I16RoundTrip(q.m0); I16RoundTrip(q.m1); I16RoundTrip(q.m2); I16RoundTrip(q.m3);
  }

  lemma BulkRoundTrip(c: LynxCommand)
    requires c.GetBulkDataResponse?
    ensures ToCommand(0x8000, LynxBytes(c)) == Ok(c)
  {
    var b := LynxBytes(c);
    QuadRoundTrips(c.positions, c.velocities);
    QuadRoundTrips(c.positions, c.analog);
    assert b[1..17] == PositionBytes(c.positions);
    assert b[18..26] == I16QuadBytes(c.velocities);
    assert b[26..34] == I16QuadBytes(c.analog);
  }

  lemma PidfRoundTrip(c: LynxCommand)
    requires c.SetMotorPIDF? && LynxCanonical(c)
    ensures ToCommand(51, LynxBytes(c)) == Ok(c)
  {
    var b := LynxBytes(c);
    var p, i, d, f := CoefficientToInternal(c.p), CoefficientToInternal(c.i), CoefficientToInternal(c.d), CoefficientToInternal(c.f);
    assert b[2..6] == I32Bytes(p) && b[6..10] == I32Bytes(i) && b[10..14] == I32Bytes(d) && b[14..18] == I32Bytes(f);
    I32RoundTrip(p); I32RoundTrip(i); I32RoundTrip(d); I32RoundTrip(f);
  }

  predicate HasIntegers(c: LynxCommand) {
    c.GetADCResponse? || c.SetMotorPower? || c.SetServoPulseWidth? || c.SetMotorVelocityTarget? || c.SetMotorTargetPosition?
  }

  lemma IntegerRoundTrip(c: LynxCommand)
    requires HasIntegers(c)
    ensures ToCommand(LynxId(c), LynxBytes(c)) == Ok(c)
  {
    var b := LynxBytes(c);
    match c {
      case GetADCResponse(value) => I16RoundTrip(value); assert b[0..2] == b;
      case SetMotorPower(_, power) => I16RoundTrip(power); assert b[1..3] == I16Bytes(power);
      case SetServoPulseWidth(_, width) => U16RoundTrip(width); assert b[1..3] == U16Bytes(width);
      case SetMotorVelocityTarget(_, velocity) => I16RoundTrip(velocity); assert b[1..3] == I16Bytes(velocity);
      case SetMotorTargetPosition(_, position, tolerance) =>
        assert b[1..5] == I32Bytes(position) && b[5..7] == U16Bytes(tolerance);
        I32RoundTrip(position);
        U16RoundTrip(tolerance);
    }
  }

  predicate HasTail(c: LynxCommand) {
    c.I2CWriteMultipleBytes? || c.I2CReadStatusResponse? || c.LynxUnknown?
  }

  lemma TailRoundTrip(c: LynxCommand)
    requires HasTail(c) && LynxCanonical(c)
    ensures ToCommand(LynxId(c), LynxBytes(c)) == Ok(c)
  {
    var b := LynxBytes(c);
    match c {
      case I2CWriteMultipleBytes(bus, address, payload) =>
        assert b == [bus, address, |payload|] + payload;
        assert b[3..] == payload && b[3..3 + |payload|] == b[3..];
      case I2CReadStatusResponse(status, data) =>
        assert b == [status, |data|] + data;
        assert b[2..] == data && b[2..2 + |data|] == b[2..];
      case LynxUnknown(_, _) =>
    }
  }

  /** Decoding the encoding of a canonical command under its own id gives the command back. */
  lemma LynxRoundTrip(c: LynxCommand)
    requires LynxCanonical(c)
    ensures ToCommand(LynxId(c), LynxBytes(c)) == Ok(c)
  {
    if HasIntegers(c) {
      IntegerRoundTrip(c);
    } else if HasTail(c) {
      TailRoundTrip(c);
    } else if c.GetBulkDataResponse? {
      BulkRoundTrip(c);
    } else if c.SetMotorPIDF? {
      PidfRoundTrip(c);
    }
  }

  /** The count of a read response is cut to a byte, so more than 255 bytes of data come back as the rest by 256. */
  lemma LongReadCut(status: Byte, data: seq<Byte>)
    ensures ToCommand(0x8029, LynxBytes(I2CReadStatusResponse(status, data)))
            == Ok(I2CReadStatusResponse(status, data[..|data| % 0x100]))
  {
    var b := LynxBytes(I2CReadStatusResponse(status, data));
    assert b[2..] == data && b[2..2 + |data| % 0x100] == data[..|data| % 0x100];
  }

  lemma PidfOffGrid(c: LynxCommand)
    requires c.SetMotorPIDF? && LynxEncodable(c) && ToCommand(51, LynxBytes(c)) == Ok(c)
    ensures LynxCanonical(c)
  {
    var b := LynxBytes(c);
    var p, i, d, f := CoefficientToInternal(c.p), CoefficientToInternal(c.i), CoefficientToInternal(c.d), CoefficientToInternal(c.f);
    assert b[2..6] == I32Bytes(p) && b[6..10] == I32Bytes(i) && b[10..14] == I32Bytes(d) && b[14..18] == I32Bytes(f);
    I32RoundTrip(p); I32RoundTrip(i); I32RoundTrip(d); I32RoundTrip(f);
  }

  lemma KnownNotUnknown(id: U16, data: seq<Byte>)
    requires id in KNOWN_IDS
    ensures ToCommand(id, data) != Ok(LynxUnknown(id, data))
  {}

  /** An encodable command comes back as it was exactly when it is canonical. */
  lemma LynxRoundTripExactly(c: LynxCommand)
    requires LynxEncodable(c)
    ensures ToCommand(LynxId(c), LynxBytes(c)) == Ok(c) <==> LynxCanonical(c)
  {
    if LynxCanonical(c) {
      LynxRoundTrip(c);
    } else if ToCommand(LynxId(c), LynxBytes(c)) == Ok(c) {
      match c {
        case I2CReadStatusResponse(status, data) => LongReadCut(status, data);
        case SetMotorPIDF(_, _, _, _, _, _, _) => PidfOffGrid(c);
        case LynxUnknown(id, data) => KnownNotUnknown(id, data);
        case _ =>
      }
    }
  }

  /** Payloads in the encoder's own form: exact length, boolean bytes 0 or 1, speed codes it can name. */
  predicate NormalPayload(id: U16, data: seq<Byte>) {
    |data| == WireLen(id, data)
    && (id == 10 ==> data[1] <= 1)
    && (id == 43 ==> data[1] < 4 || data[1] == 255)
  }

  lemma QuadBytesOfRead(b: seq<Byte>, h: seq<Byte>)
    requires |b| == 16 && |h| == 8
    ensures PositionBytes(ReadPositions(b)) == b
    ensures I16QuadBytes(ReadI16Quad(h)) == h
  {
    I32BytesOfRead(b[0..4]); I32BytesOfRead(b[4..8]); I32BytesOfRead(b[8..12]); I32BytesOfRead(b[12..16]);
    assert b == b[0..4] + b[4..8] + b[8..12] + b[12..16];
    I16BytesOfRead(h[0..2]); I16BytesOfRead(h[2..4]); I16BytesOfRead(h[4..6]); I16BytesOfRead(h[6..8]);
    assert h == h[0..2] + h[2..4] + h[4..6] + h[6..8];
  }

  lemma BulkBytesOfRead(data: seq<Byte>)
    requires |data| >= 34
    ensures LynxBytes(ToCommand(0x8000, data).value) == data[..34]
  {
    QuadBytesOfRead(data[1..17], data[18..26]);
    QuadBytesOfRead(data[1..17], data[26..34]);
    assert data[..34] == [data[0]] + data[1..17] + [data[17]] + data[18..26] + data[26..34];
  }

  lemma PidfBytesOfRead(data: seq<Byte>, c: LynxCommand)
    requires |data| >= 19 && ToCommand(51, data) == Ok(c) && LynxEncodable(c)
    ensures LynxBytes(c) == data[..19]
  {
    var p, i, d, f := ReadI32(data[2..6]), ReadI32(data[6..10]), ReadI32(data[10..14]), ReadI32(data[14..18]);
    PidfFixedPoint(p); PidfFixedPoint(i); PidfFixedPoint(d); PidfFixedPoint(f);
    I32BytesOfRead(data[2..6]); I32BytesOfRead(data[6..10]); I32BytesOfRead(data[10..14]); I32BytesOfRead(data[14..18]);
    assert data[..19] == data[0..2] + data[2..6] + data[6..10] + data[10..14] + data[14..18] + [data[18]];
    assert data[0..2] == [data[0], data[1]];
  }

  predicate IsIntegerId(id: U16) {
    id == 0x8007 || id == 15 || id == 17 || id == 33 || id == 19
  }

  lemma IntegerBytesOfRead(id: U16, data: seq<Byte>)
    requires IsIntegerId(id) && |data| >= WireLen(id, data)
    ensures LynxBytes(ToCommand(id, data).value) == data[..WireLen(id, data)]
  {
    if id == 0x8007 {
      I16BytesOfRead(data[0..2]);
    } else if id == 15 || id == 17 {
      I16BytesOfRead(data[1..3]);
      assert data[..3] == [data[0]] + data[1..3];
    } else if id == 33 {
      U16BytesOfRead(data[1..3]);
      assert data[..3] == [data[0]] + data[1..3];
    } else {
      I32BytesOfRead(data[1..5]);
      U16BytesOfRead(data[5..7]);
      assert data[..7] == [data[0]] + data[1..5] + data[5..7];
    }
  }

  lemma TailBytesOfRead(id: U16, data: seq<Byte>)
    requires (id == 38 || id == 0x8029) && |data| >= WireLen(id, data)
    ensures LynxBytes(ToCommand(id, data).value) == data[..WireLen(id, data)]
  {
    if id == 38 {
      assert data[..3 + data[2]] == [data[0], data[1], data[2]] + data[3..3 + data[2]];
    } else {
      assert data[..2 + data[1]] == [data[0], data[1]] + data[2..2 + data[1]];
    }
  }

  /** What re-encoding writes: the part the decoder read, unless a boolean or speed byte was normalised. */
  function Reencoded(id: U16, data: seq<Byte>): seq<Byte>
    requires |data| >= WireLen(id, data)
  {
    if id == 10 then [data[0], if data[1] == 0 then 0 else 1]
    else if id == 43 then [data[0], if data[1] < 4 then data[1] else 255]
    else data[..WireLen(id, data)]
  }

  lemma LynxIdKept(id: U16, data: seq<Byte>, c: LynxCommand)
    requires ToCommand(id, data) == Ok(c)
    ensures LynxId(c) == id
  {}

  /** Payloads of single bytes only. */
  lemma PlainReencode(id: U16, data: seq<Byte>, c: LynxCommand)
    requires ToCommand(id, data) == Ok(c) && LynxEncodable(c)
    requires id != 0x8000 && id != 51 && !IsIntegerId(id) && id != 38 && id != 0x8029
    ensures LynxBytes(c) == Reencoded(id, data)
  {
    hide LynxEncodable;
  }

  lemma LynxReencode(id: U16, data: seq<Byte>, c: LynxCommand)
    requires ToCommand(id, data) == Ok(c) && LynxEncodable(c)
    ensures LynxId(c) == id
    ensures LynxBytes(c) == Reencoded(id, data)
  {
    LynxIdKept(id, data, c);
    if id == 0x8000 {
      BulkBytesOfRead(data);
    } else if id == 51 {
      PidfBytesOfRead(data, c);
    } else if IsIntegerId(id) {
      IntegerBytesOfRead(id, data);
    } else if id == 38 || id == 0x8029 {
      TailBytesOfRead(id, data);
    } else {
      PlainReencode(id, data, c);
    }
    hide LynxBytes;
    hide ToCommand;
    hide LynxId;
  }

  /** Decoding then encoding is the identity on a payload exactly when the payload is in normal form. */
  lemma LynxTransparent(id: U16, data: seq<Byte>, c: LynxCommand)
    requires ToCommand(id, data) == Ok(c) && LynxEncodable(c)
    ensures LynxBytes(c) == data <==> NormalPayload(id, data)
  {
    LynxReencode(id, data, c);
  }
}
