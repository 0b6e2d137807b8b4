/** The serial and USB read threads: lock on the frame bytes, read frames into one reused buffer, fall back to locking on error. */
module FrameReader {
  import opened Bytes
  import opened Packets

  /** The two readers differ in what they check and when: read.rs and usb_handler.rs. */
  datatype Port = Serial | Usb

  const USB_BUFFER := 1024

  /** The loop variables of a read thread; sent is the serial thread's count of packets passed on. */
  datatype Reader = Reader(locked: bool, wasLocked: bool, buf: seq<Byte>, sent: nat)

  /** Blocked on the port with some bytes not yet part of a complete read, or dead after a panic. */
  datatype End = Waiting(locked: bool, unread: seq<Byte>) | Dead

  /** Packets sent to the proxy, and how often a lock was given up. */
  datatype ReadLog = ReadLog(packets: seq<Packet>, losses: nat, end: End)

  function Emit(p: Packet, log: ReadLog): ReadLog {
    log.(packets := [p] + log.packets)
  }

  function Lose(log: ReadLog): ReadLog {
    log.(losses := log.losses + 1)
  }

  /** Vec::resize to at least n, zero filled. */
  function Resized(buf: seq<Byte>, n: nat): (r: seq<Byte>)
    ensures |r| == if |buf| < n then n else |buf|
  {
    if |buf| < n then buf + seq(n - |buf|, _ => 0) else buf
  }

  /** The outcome of one pass of the loop while locked. */
  datatype Pass = Blocked | Died | Lost(next: Reader, used: nat) | Frame(packet: Packet, next: Reader, used: nat)

  /** The header bytes: after locking, the frame bytes are known and only the length is read. */
  function HeadOf(was: bool, input: seq<Byte>): (head: seq<Byte>)
    requires |input| >= if was then 4 else 2
    ensures |head| == 4
  {
    if was then input[..4] else FRAME + input[..2]
  }

  /** The buffer after head and body were read over it, grown to hold them. */
  function Filled(buf: seq<Byte>, head: seq<Byte>, body: seq<Byte>): seq<Byte>
    requires |head| == 4 <= |buf|
  {
    var n := 4 + |body|;
    head + body + Resized(head + buf[4..], n)[n..]
  }

  /**
   * Whether a packet kills the thread before it is passed on: the serial thread gives up on the 52nd packet if no hub is
   * initialised by then, the USB thread always formats what it has read.
   */
  predicate Kills(port: Port, t: Table, sent: nat, p: Packet) {
    match port
    case Serial => t == [] && sent > 50
    case Usb => !Printable(p.payload)
  }

  /** Only the serial thread counts what it passed on. */
  function Counted(port: Port, sent: nat): nat {
    if port == Serial then sent + 1 else sent
  }

  /** One pass of the loop while locked, on the bytes still on the port. */
  function LockedPass(port: Port, t: Table, r: Reader, input: seq<Byte>): (s: Pass)
    requires |r.buf| >= 4
    ensures s.Lost? || s.Frame? ==> 0 < s.used <= |input| && |s.next.buf| >= 4
  {
    var k: nat := if r.wasLocked then 4 else 2;
    if |input| < k then Blocked
    else
      var head := HeadOf(r.wasLocked, input);
      if port == Serial && head[..2] != FRAME then Lost(Reader(false, r.wasLocked, head + r.buf[4..], r.sent), k)
      else
        var n: nat := ReadU16(head[2..]);
        if n < 4 || (port == Usb && n > USB_BUFFER) then Died
        else if |input| < k + n - 4 then Blocked
        else
          var full := Filled(r.buf, head, input[k..k + n - 4]);
          match FromData(t, if port == Usb then full[..n] else full)
          case Ok(p) =>
            if Kills(port, t, r.sent, p) then Died else Frame(p, Reader(true, true, full, Counted(port, r.sent)), k + n - 4)
          case NoValue => Lost(Reader(false, r.wasLocked, full, r.sent), k + n - 4)
          case Panics => Died
  }

  /** What the read thread does with the bytes arriving on the port. */
  function ReadAll(port: Port, t: Table, r: Reader, input: seq<Byte>): ReadLog
    requires |r.buf| >= 4
    decreases |input|
  {
    if !r.locked then
      // attempt_lock: the byte after a lone first frame byte is consumed as well
      if |input| == 0 then ReadLog([], 0, Waiting(false, input))
      else if input[0] != FRAME[0] then ReadAll(port, t, Reader(false, false, r.buf, r.sent), input[1..])
      else if |input| == 1 then ReadLog([], 0, Waiting(false, input))
      else ReadAll(port, t, Reader(input[1] == FRAME[1], false, r.buf, r.sent), input[2..])
    else
      match LockedPass(port, t, r, input)
      case Blocked => ReadLog([], 0, Waiting(true, input))
      case Died => ReadLog([], 0, Dead)
      case Lost(next, used) => Lose(ReadAll(port, t, next, input[used..]))
      case Frame(p, next, used) => Emit(p, ReadAll(port, t, next, input[used..]))
  }

  lemma SliceOfTail(s: seq<Byte>, at: nat, i: nat, j: nat)
    requires at <= at + i <= at + j <= |s|
    ensures s[at..][i..j] == s[at + i..at + j]
  {}

  lemma AfterPass(port: Port, t: Table, r: Reader, input: seq<Byte>, s: Pass)
    requires r.locked && |r.buf| >= 4 && s == LockedPass(port, t, r, input)
    ensures s.Lost? || s.Frame? ==> 0 < s.used <= |input| && |s.next.buf| >= 4
    ensures s.Frame? ==> ReadAll(port, t, r, input) == Emit(s.packet, ReadAll(port, t, s.next, input[s.used..]))
    ensures s.Lost? ==> !s.next.locked
    ensures s.Lost? ==> ReadAll(port, t, r, input) == Lose(ReadAll(port, t, s.next, input[s.used..]))
    ensures s.Blocked? ==> ReadAll(port, t, r, input) == ReadLog([], 0, Waiting(true, input))
    ensures s.Died? ==> ReadAll(port, t, r, input) == ReadLog([], 0, Dead)
  {}

  lemma SameFill(buf: seq<Byte>, other: seq<Byte>, head: seq<Byte>, body: seq<Byte>)
    requires |buf| == |other| >= 4 && buf[4..] == other[4..] && |head| == 4
    ensures Filled(buf, head, body) == Filled(other, head, body)
  {}

  lemma SamePass(port: Port, t: Table, r: Reader, q: Reader, input: seq<Byte>)
    requires |r.buf| == |q.buf| >= 4 && r.buf[4..] == q.buf[4..] && r.wasLocked == q.wasLocked && r.sent == q.sent
    ensures LockedPass(port, t, r, input) == LockedPass(port, t, q, input)
  {
    hide FromData;
    hide ReadU16;
    hide HeadOf;
    hide Filled;
    hide Kills;
    forall head: seq<Byte>, body: seq<Byte> | |head| == 4
      ensures Filled(r.buf, head, body) == Filled(q.buf, head, body)
    {
      SameFill(r.buf, q.buf, head, body);
    }
  }

  /** The first four bytes of the buffer are overwritten before they are looked at. */
  lemma {:induction false} FrontIrrelevant(port: Port, t: Table, r: Reader, q: Reader, input: seq<Byte>)
    requires |r.buf| == |q.buf| >= 4 && r.buf[4..] == q.buf[4..]
    requires r.locked == q.locked && r.sent == q.sent && (r.locked ==> r.wasLocked == q.wasLocked)
    ensures ReadAll(port, t, r, input) == ReadAll(port, t, q, input)
    decreases |input|
  {
    hide LockedPass;
    if r.locked {
      SamePass(port, t, r, q, input);
    } else if |input| > 0 && input[0] != FRAME[0] {
      FrontIrrelevant(port, t, Reader(false, false, r.buf, r.sent), Reader(false, false, q.buf, q.sent), input[1..]);
    } else if |input| > 1 {
      var lock := input[1] == FRAME[1];
      FrontIrrelevant(port, t, Reader(lock, false, r.buf, r.sent), Reader(lock, false, q.buf, q.sent), input[2..]);
    }
  }

  // ---- bytes arriving in pieces ----

  lemma PassGrows(port: Port, t: Table, r: Reader, a: seq<Byte>, b: seq<Byte>)
    requires |r.buf| >= 4 && LockedPass(port, t, r, a) != Blocked
    ensures LockedPass(port, t, r, a + b) == LockedPass(port, t, r, a)
  {
    hide FromData;
    hide Filled;
    var k: nat := if r.wasLocked then 4 else 2;
    assert (a + b)[..4 - (4 - k)] == a[..k];
    var head := HeadOf(r.wasLocked, a);
    assert HeadOf(r.wasLocked, a + b) == head;
    var n: nat := ReadU16(head[2..]);
    if n >= 4 && k + n - 4 <= |a| {
      assert (a + b)[k..k + n - 4] == a[k..k + n - 4];
    }
  }

  /** What was read first and what was read after it. */
  function Continued(log: ReadLog, more: ReadLog): ReadLog {
    ReadLog(log.packets + more.packets, log.losses + more.losses, more.end)
  }

  /** The loop variables when the input is used up, or at a panic. */
  function Reached(port: Port, t: Table, r: Reader, input: seq<Byte>): (last: Reader)
    requires |r.buf| >= 4
    ensures |last.buf| >= 4
    decreases |input|
  {
    if !r.locked then
      if |input| == 0 then r
      else if input[0] != FRAME[0] then Reached(port, t, Reader(false, false, r.buf, r.sent), input[1..])
      else if |input| == 1 then r
      else Reached(port, t, Reader(input[1] == FRAME[1], false, r.buf, r.sent), input[2..])
    else
      match LockedPass(port, t, r, input)
      case Blocked => r
      case Died => r
      case Lost(next, used) => Reached(port, t, next, input[used..])
      case Frame(_, next, used) => Reached(port, t, next, input[used..])
  }

  /** The log once more bytes have come. */
  function Resumed(port: Port, t: Table, r: Reader, a: seq<Byte>, b: seq<Byte>): ReadLog
    requires |r.buf| >= 4
  {
    var log := ReadAll(port, t, r, a);
    match log.end
    case Dead => log
    case Waiting(_, unread) => Continued(log, ReadAll(port, t, Reached(port, t, r, a), unread + b))
  }

  /** One lock attempt on bytes that are all there. */
  lemma AttemptFirst(port: Port, t: Table, r: Reader, a: seq<Byte>, b: seq<Byte>) returns (next: Reader, used: nat)
    requires |r.buf| >= 4 && !r.locked && a != [] && (a[0] == FRAME[0] ==> |a| > 1)
    ensures 0 < used <= |a| && |next.buf| >= 4
    ensures ReadAll(port, t, r, a) == ReadAll(port, t, next, a[used..])
    ensures Reached(port, t, r, a) == Reached(port, t, next, a[used..])
    ensures ReadAll(port, t, r, a + b) == ReadAll(port, t, next, a[used..] + b)
  {
    hide LockedPass;
    used := if a[0] != FRAME[0] then 1 else 2;
    next := Reader(used == 2 && a[1] == FRAME[1], false, r.buf, r.sent);
    assert (a + b)[used..] == a[used..] + b;
  }

  lemma ReachedAfter(port: Port, t: Table, r: Reader, a: seq<Byte>, s: Pass)
    requires |r.buf| >= 4 && r.locked && s == LockedPass(port, t, r, a) && (s.Lost? || s.Frame?)
    requires 0 < s.used <= |a| && |s.next.buf| >= 4
    ensures Reached(port, t, r, a) == Reached(port, t, s.next, a[s.used..])
  {
    hide LockedPass;
  }

  /** One locked pass on bytes that are all there. */
  lemma PassFirst(port: Port, t: Table, r: Reader, a: seq<Byte>, b: seq<Byte>, s: Pass)
    requires |r.buf| >= 4 && r.locked && s == LockedPass(port, t, r, a) && (s.Lost? || s.Frame?)
    ensures 0 < s.used <= |a| && |s.next.buf| >= 4
    ensures var tail := ReadAll(port, t, s.next, a[s.used..]);
            ReadAll(port, t, r, a) == if s.Frame? then Emit(s.packet, tail) else Lose(tail)
    ensures var tail := ReadAll(port, t, s.next, a[s.used..] + b);
            ReadAll(port, t, r, a + b) == if s.Frame? then Emit(s.packet, tail) else Lose(tail)
    ensures Reached(port, t, r, a) == Reached(port, t, s.next, a[s.used..])
  {
    hide LockedPass;
    hide ReadAll;
    PassGrows(port, t, r, a, b);
    AfterPass(port, t, r, a, s);
    AfterPass(port, t, r, a + b, s);
    ReachedAfter(port, t, r, a, s);
    hide Reached;
    assert (a + b)[s.used..] == a[s.used..] + b;
  }

  lemma EmitContinued(p: Packet, log: ReadLog, more: ReadLog)
    ensures Continued(Emit(p, log), more) == Emit(p, Continued(log, more))
  {
    assert [p] + log.packets + more.packets == [p] + (log.packets + more.packets);
  }

  lemma PassThen(port: Port, t: Table, r: Reader, a: seq<Byte>, b: seq<Byte>, s: Pass)
    requires |r.buf| >= 4 && r.locked && s == LockedPass(port, t, r, a) && (s.Lost? || s.Frame?)
    requires 0 < s.used <= |a| && |s.next.buf| >= 4
    requires ReadAll(port, t, s.next, a[s.used..] + b) == Resumed(port, t, s.next, a[s.used..], b)
    ensures ReadAll(port, t, r, a + b) == Resumed(port, t, r, a, b)
    ensures ReadAll(port, t, r, a).end == ReadAll(port, t, s.next, a[s.used..]).end
    ensures Reached(port, t, r, a) == Reached(port, t, s.next, a[s.used..])
  {
    PassFirst(port, t, r, a, b, s);
    hide LockedPass;
    hide ReadAll;
    hide Reached;
    var log := ReadAll(port, t, s.next, a[s.used..]);
    if s.Frame? && log.end.Waiting? {
      EmitContinued(s.packet, log, ReadAll(port, t, Reached(port, t, s.next, a[s.used..]), log.end.unread + b));
    }
  }

  /** Nothing more can be done with the bytes at hand. */
  lemma StuckThen(port: Port, t: Table, r: Reader, a: seq<Byte>, b: seq<Byte>)
    requires |r.buf| >= 4 && if r.locked then LockedPass(port, t, r, a).Blocked? else a == [] || a == [FRAME[0]]
    ensures ReadAll(port, t, r, a) == ReadLog([], 0, Waiting(r.locked, a)) && Reached(port, t, r, a) == r
    ensures ReadAll(port, t, r, a + b) == Resumed(port, t, r, a, b)
  {
    hide LockedPass;
    var more := ReadAll(port, t, r, a + b);
    assert ReadAll(port, t, r, a) == ReadLog([], 0, Waiting(r.locked, a)) && Reached(port, t, r, a) == r;
    hide ReadAll;
    hide Reached;
    assert [] + more.packets == more.packets;
  }

  lemma DeadThen(port: Port, t: Table, r: Reader, a: seq<Byte>, b: seq<Byte>)
    requires |r.buf| >= 4 && r.locked && LockedPass(port, t, r, a).Died?
    ensures ReadAll(port, t, r, a) == ReadLog([], 0, Dead) == ReadAll(port, t, r, a + b)
  {
    PassGrows(port, t, r, a, b);
    hide LockedPass;
  }

  /**
   * How the bytes are cut up on arrival makes no difference: what was read so far stays, and what comes next is read as
   * if it followed the bytes still unread; a dead thread stays dead.
   */
  lemma {:induction false} ReadInPieces(port: Port, t: Table, r: Reader, a: seq<Byte>, b: seq<Byte>)
    requires |r.buf| >= 4
    ensures ReadAll(port, t, r, a + b) == Resumed(port, t, r, a, b)
    ensures ReadAll(port, t, r, a).end.Waiting? ==> Reached(port, t, r, a).locked == ReadAll(port, t, r, a).end.locked
    decreases |a|
  {
    hide LockedPass;
    hide ReadAll;
    hide Reached;
    hide Continued;
    if r.locked {
      var s := LockedPass(port, t, r, a);
      match s {
        case Blocked =>
          StuckThen(port, t, r, a, b);
        case Died =>
          DeadThen(port, t, r, a, b);
        case _ =>
          PassFirst(port, t, r, a, b, s);
          ReadInPieces(port, t, s.next, a[s.used..], b);
          PassThen(port, t, r, a, b, s);
      }
    } else if a == [] || a == [FRAME[0]] {
      StuckThen(port, t, r, a, b);
    } else {
      var next, used := AttemptFirst(port, t, r, a, b);
      ReadInPieces(port, t, next, a[used..], b);
    }
  }

  // ---- locked reading of well-formed frames ----

  /** The USB reader's buffer has a fixed size. */
  predicate Fits(port: Port, p: Packet) {
    port == Usb ==> p.length as int <= USB_BUFFER
  }

  predicate AllFit(port: Port, ps: seq<Packet>) {
    forall p | p in ps :: Fits(port, p)
  }

  /** A frame's bytes as far as the reader trusts them before it decodes: frame bytes, and a length that is theirs. */
  predicate Framed(port: Port, b: seq<Byte>) {
    4 <= |b| < 0x1_0000 && (port == Usb ==> |b| <= USB_BUFFER) && b[..2] == FRAME && b[2..4] == U16Bytes(|b|)
  }

  /** The header read under lock, or after locking, is the frame's. */
  lemma HeadIs(was: bool, b: seq<Byte>, rest: seq<Byte>)
    requires |b| >= 4 && b[..2] == FRAME
    ensures HeadOf(was, b[if was then 0 else 2..] + rest) == b[..4]
  {
    var input := b[if was then 0 else 2..] + rest;
    if was {
      assert input[..4] == b[..4];
    } else {
      assert input[..2] == b[2..4] && b[..4] == b[..2] + b[2..4];
    }
  }

  lemma BodyIs(b: seq<Byte>, skip: nat, rest: seq<Byte>)
    requires skip <= 4 <= |b|
    ensures (b[skip..] + rest)[4 - skip..|b| - skip] == b[4..] && (b[skip..] + rest)[|b| - skip..] == rest
  {}

  /** What the decoder is handed begins with the frame, whatever the buffer held. */
  lemma FilledIs(buf: seq<Byte>, b: seq<Byte>) returns (stale: seq<Byte>)
    requires 4 <= |b| && 4 <= |buf|
    ensures Filled(buf, b[..4], b[4..]) == b + stale && Filled(buf, b[..4], b[4..])[..|b|] == b
  {
    stale := Resized(b[..4] + buf[4..], |b|)[|b|..];
    assert b[..4] + b[4..] == b;
  }

  /** A locked pass over a framed stretch of bytes uses up exactly that and does as the decoder says. */
  lemma LockedOn(port: Port, t: Table, was: bool, buf: seq<Byte>, sent: nat, b: seq<Byte>, rest: seq<Byte>) returns (stale: seq<Byte>)
    requires Framed(port, b) && |buf| >= 4
    ensures var skip := if was then 0 else 2;
            var full := Filled(buf, b[..4], b[4..]);
            && |full| >= 4 && (if port == Usb then stale == [] else full == b + stale)
            && (b[skip..] + rest)[|b| - skip..] == rest
            && LockedPass(port, t, Reader(true, was, buf, sent), b[skip..] + rest)
               == match FromData(t, b + stale)
                  case Ok(p) =>
                    if Kills(port, t, sent, p) then Died else Frame(p, Reader(true, true, full, Counted(port, sent)), |b| - skip)
                  case NoValue => Lost(Reader(false, was, full, sent), |b| - skip)
                  case Panics => Died
  {
    hide FromData;
    hide HeadOf;
    hide Filled;
    var skip := if was then 0 else 2;
    HeadIs(was, b, rest);
    BodyIs(b, skip, rest);
    stale := FilledIs(buf, b);
    if port == Usb {
      stale := [];
      assert b + stale == b;
    }
    assert b[..4][..2] == b[..2] && b[..4][2..] == b[2..4];
    U16RoundTrip(|b|);
  }

  /** A locked pass over a well-formed frame yields it, whatever the buffer holds, unless it kills the thread. */
  lemma LockedFrame(port: Port, t: Table, was: bool, buf: seq<Byte>, sent: nat, p: Packet, rest: seq<Byte>)
    requires WellFormed(t, p) && Fits(port, p) && |buf| >= 4
    ensures |PacketBytes(p)| >= 4
    ensures var skip := if was then 0 else 2;
            var full := Filled(buf, PacketBytes(p)[..4], PacketBytes(p)[4..]);
            && |full| >= 4
            && LockedPass(port, t, Reader(true, was, buf, sent), PacketBytes(p)[skip..] + rest)
               == (if Kills(port, t, sent, p) then Died else Frame(p, Reader(true, true, full, Counted(port, sent)), p.length - skip))
            && (PacketBytes(p)[skip..] + rest)[p.length - skip..] == rest
  {
    PacketRoundTrip(t, p, []);
    assert Framed(port, PacketBytes(p));
    hide LockedPass;
    hide Filled;
    hide FromData;
    var stale := LockedOn(port, t, was, buf, sent, PacketBytes(p), rest);
    PacketRoundTrip(t, p, stale);
  }

  lemma TailEncodable(t: Table, ps: seq<Packet>)
    requires AllWellFormed(t, ps) && ps != []
    ensures AllEncodable(ps) && AllEncodable(ps[1..]) && AllWellFormed(t, ps[1..])
  {
    assert forall q | q in ps[1..] :: q in ps;
  }

  // ---- locking ----

  /** How attempt_lock leaves a run of noise: between attempts, inside one, or locked onto it. */
  datatype LockScan = Clean | Half | Found

  function Scan(noise: seq<Byte>): LockScan {
    if noise == [] then Clean
    else if noise[0] != FRAME[0] then Scan(noise[1..])
    else if |noise| == 1 then Half
    else if noise[1] == FRAME[1] then Found
    else Scan(noise[2..])
  }

  lemma {:induction false} QuietNoiseIsClean(noise: seq<Byte>)
    requires FRAME[0] !in noise
    ensures Scan(noise) == Clean
  {
    if noise == [] {
    } else {
      assert noise[0] in noise;
      QuietNoiseIsClean(noise[1..]);
    }
  }

  /** Noise that ends between attempts is skipped; noise that ends inside one takes a byte of what follows with it. */
  lemma {:induction false} SkipNoise(port: Port, t: Table, was: bool, buf: seq<Byte>, sent: nat, noise: seq<Byte>, input: seq<Byte>)
    requires |buf| >= 4 && Scan(noise) != Found
    requires Scan(noise) == Half ==> input != [] && input[0] != FRAME[1]
    ensures ReadAll(port, t, Reader(false, was, buf, sent), noise + input)
            == ReadAll(port, t, Reader(false, false, buf, sent), if Scan(noise) == Half then input[1..] else input)
    decreases |noise|
  {
    var all := noise + input;
    if noise == [] {
      assert all == input;
    } else if noise[0] != FRAME[0] {
      assert all[1..] == noise[1..] + input;
      SkipNoise(port, t, false, buf, sent, noise[1..], input);
    } else if |noise| == 1 {
      assert all[2..] == input[1..];
    } else {
      assert all[2..] == noise[2..] + input;
      SkipNoise(port, t, false, buf, sent, noise[2..], input);
    }
  }

  /** Frame bytes met while looking for them lock the reader. */
  lemma Locking(port: Port, t: Table, was: bool, buf: seq<Byte>, sent: nat, b: seq<Byte>, rest: seq<Byte>)
    requires |buf| >= 4 && |b| >= 2 && b[..2] == FRAME
    ensures ReadAll(port, t, Reader(false, was, buf, sent), b + rest) == ReadAll(port, t, Reader(true, false, buf, sent), b[2..] + rest)
  {
    var all := b + rest;
    assert all[0] == b[..2][0] && all[1] == b[..2][1];
    assert all[2..] == b[2..] + rest;
  }

  // ---- what can be on the wire ----

  /**
   * A stretch of the wire: a frame as sent; one of the right length whose sum does not fit; one that kills the reader; or
   * noise that the reader finds its way out of.
   */
  datatype Chunk = Good(packet: Packet) | Bad(bytes: seq<Byte>) | Fatal(bytes: seq<Byte>) | Noise(bytes: seq<Byte>)

  predicate Damaged(port: Port, b: seq<Byte>) {
    Framed(port, b) && |b| >= 10 && Total(b[..|b| - 1]) % 0x100 != b[|b| - 1]
  }

  /**
   * A length too small for its own field or too big for the USB buffer, or a frame the decoder panics on; the USB reader
   * trusts a lock without looking at the frame bytes.
   */
  predicate Deadly(port: Port, t: Table, locked: bool, b: seq<Byte>) {
    |b| >= 4 && (b[..2] == FRAME || (locked && port == Usb))
    && var n := b[2] as int + 0x100 * b[3] as int;
       n < 4 || (port == Usb && n > 1024)
       || (Framed(port, b) && (port == Serial ==> n >= 10) && FromData(t, b) == Panics)
  }

  /** What a locked reader loses to noise: the header, or on USB as many bytes as the noise gives for a length. */
  function LostTo(port: Port, noise: seq<Byte>): int
    requires |noise| >= 4
  {
    if port == Serial then 4 else noise[2] as int + 0x100 * noise[3] as int
  }

  /** Noise with no frame start in what is left of it once the lock is gone, and not ending inside a lock attempt. */
  predicate Harmless(port: Port, locked: bool, noise: seq<Byte>) {
    if !locked then Scan(noise) == Clean
    else
      |noise| >= 4 && noise[..2] != FRAME && 4 <= LostTo(port, noise) <= |noise| && LostTo(port, noise) <= 1024
      && Scan(noise[LostTo(port, noise)..]) == Clean
  }

  predicate Readable(port: Port, t: Table, locked: bool, c: Chunk) {
    match c
    case Good(p) => WellFormed(t, p) && Fits(port, p)
    case Bad(b) => Damaged(port, b)
    case Fatal(b) => Deadly(port, t, locked, b)
    case Noise(b) => Harmless(port, locked, b)
  }

  /** The reader is locked after a good frame and after nothing else. */
  predicate Legible(port: Port, t: Table, locked: bool, chunks: seq<Chunk>)
    decreases chunks
  {
    chunks == [] || (Readable(port, t, locked, chunks[0]) && Legible(port, t, chunks[0].Good?, chunks[1..]))
  }

  function ChunkBytes(c: Chunk): seq<Byte>
    requires c.Good? ==> Encodable(c.packet.payload)
  {
    if c.Good? then PacketBytes(c.packet) else c.bytes
  }

  function Wire(port: Port, t: Table, locked: bool, chunks: seq<Chunk>): seq<Byte>
    requires Legible(port, t, locked, chunks)
    decreases chunks
  {
    if chunks == [] then [] else ChunkBytes(chunks[0]) + Wire(port, t, chunks[0].Good?, chunks[1..])
  }

  function Goods(chunks: seq<Chunk>): seq<Packet> {
    if chunks == [] then [] else (if chunks[0].Good? then [chunks[0].packet] else []) + Goods(chunks[1..])
  }

  /** A lock is lost to a damaged frame, and to noise if there is a lock. */
  function Losses(locked: bool, chunks: seq<Chunk>): nat
    decreases chunks
  {
    if chunks == [] then 0
    else (if chunks[0].Bad? || (locked && chunks[0].Noise?) then 1 else 0) + Losses(chunks[0].Good?, chunks[1..])
  }

  /** Whether the reader is locked once it has read these. */
  function LockedAfter(locked: bool, chunks: seq<Chunk>): bool
    decreases chunks
  {
    if chunks == [] then locked else LockedAfter(chunks[0].Good?, chunks[1..])
  }

  lemma RejectDamaged(t: Table, b: seq<Byte>, stale: seq<Byte>)
    requires Damaged(Serial, b)
    ensures FromData(t, b + stale) == NoValue
  {
    var data := b + stale;
    U16RoundTrip(|b|);
    assert data[0..2] == b[..2] && data[2..4] == b[2..4];
    assert data[..|b| - 1] == b[..|b| - 1];
  }

  /** Changing any one byte of a well-formed frame behind its length damages it. */
  lemma OneByteDamages(port: Port, t: Table, p: Packet, i: nat, x: Byte)
    requires WellFormed(t, p) && Fits(port, p) && 4 <= i < p.length as int
    ensures |PacketBytes(p)| == p.length as int
    ensures x != PacketBytes(p)[i] ==> Damaged(port, PacketBytes(p)[i := x])
  {
    PacketRoundTrip(t, p, []);
    assert Framed(port, PacketBytes(p));
    hide PacketBytes;
    hide FromData;
    var b, n := PacketBytes(p), p.length as int;
    if x != b[i] {
      FrameLayout(p);
      hide WellFormed;
      var c := b[i := x];
      assert c[..2] == b[..2] && c[2..4] == b[2..4];
      if i < n - 1 {
        OneByteSeen(b[..n - 1], i, x);
        assert c[..n - 1] == b[..n - 1][i := x];
      } else {
        assert c[..n - 1] == b[..n - 1];
      }
    }
  }

  lemma NoFrameRefused(t: Table, data: seq<Byte>)
    requires |data| >= 2 && data[..2] != FRAME
    ensures FromData(t, data) == NoValue
  {
    assert data[0..2] == data[..2];
  }

  /** Changing any one byte of a well-formed frame other than its length makes the decoder refuse it, whatever follows it. */
  lemma OneByteRefused(t: Table, p: Packet, stale: seq<Byte>, i: nat, x: Byte)
    requires WellFormed(t, p) && i < p.length as int && i != 2 && i != 3
    ensures |PacketBytes(p)| == p.length as int
    ensures x != PacketBytes(p)[i] ==> FromData(t, PacketBytes(p)[i := x] + stale) == NoValue
  {
    PacketRoundTrip(t, p, []);
    var b := PacketBytes(p);
    if x != b[i] {
      if i < 2 {
        assert b[..2] == FRAME;
        assert (b[i := x] + stale)[..2] == b[..2][i := x];
        hide FromData;
        NoFrameRefused(t, b[i := x] + stale);
      } else {
        hide FromData;
        hide PacketBytes;
        OneByteDamages(Serial, t, p, i, x);
        RejectDamaged(t, b[i := x], stale);
      }
    }
  }

  /** A locked pass over a damaged frame uses up exactly that frame and gives the lock up. */
  lemma LockedDamage(port: Port, t: Table, was: bool, buf: seq<Byte>, sent: nat, b: seq<Byte>, rest: seq<Byte>)
    requires Damaged(port, b) && |buf| >= 4
    ensures var skip := if was then 0 else 2;
            var full := Filled(buf, b[..4], b[4..]);
            && |full| >= 4
            && LockedPass(port, t, Reader(true, was, buf, sent), b[skip..] + rest) == Lost(Reader(false, was, full, sent), |b| - skip)
            && (b[skip..] + rest)[|b| - skip..] == rest
  {
    hide LockedPass;
    hide Filled;
    hide FromData;
    var stale := LockedOn(port, t, was, buf, sent, b, rest);
    RejectDamaged(t, b, stale);
  }

  /** Bytes behind the end of a frame do not matter. */
  lemma StaleIrrelevant(t: Table, port: Port, b: seq<Byte>, stale: seq<Byte>)
    requires Framed(port, b) && |b| >= 10
    ensures FromData(t, b + stale) == FromData(t, b)
  {
    hide CommandFromBytes;
    U16RoundTrip(|b|);
    var data, n := b + stale, |b|;
    assert data[0..2] == b[0..2] && data[2..4] == b[2..4] && data[8..10] == b[8..10];
    assert data[..n - 1] == b[..n - 1];
    if n >= 11 {
      assert data[10..n - 1] == b[10..n - 1];
    }
  }

  /** A locked pass dies on a frame the decoder panics on. */
  lemma LockedPanic(port: Port, t: Table, was: bool, buf: seq<Byte>, sent: nat, b: seq<Byte>, rest: seq<Byte>)
    requires Framed(port, b) && (port == Serial ==> |b| >= 10) && FromData(t, b) == Panics && |buf| >= 4
    ensures LockedPass(port, t, Reader(true, was, buf, sent), b[if was then 0 else 2..] + rest) == Died
  {
    hide LockedPass;
    hide Filled;
    hide FromData;
    var stale := LockedOn(port, t, was, buf, sent, b, rest);
    if port == Serial {
      StaleIrrelevant(t, port, b, stale);
    } else {
      assert b + [] == b;
    }
  }

  /** And as soon as it has read a length it cannot work with. */
  lemma LockedLength(port: Port, t: Table, was: bool, buf: seq<Byte>, sent: nat, b: seq<Byte>, rest: seq<Byte>)
    requires |buf| >= 4 && |b| >= 4 && (b[..2] == FRAME || (was && port == Usb))
    requires var n := b[2] as int + 0x100 * b[3] as int; n < 4 || (port == Usb && n > 1024)
    ensures LockedPass(port, t, Reader(true, was, buf, sent), b[if was then 0 else 2..] + rest) == Died
  {
    hide FromData;
    var input := b[if was then 0 else 2..] + rest;
    var head := HeadOf(was, input);
    assert head == b[..4] by {
      if b[..2] == FRAME {
        HeadIs(was, b, rest);
      } else {
        assert input[..4] == b[..4];
      }
    }
    assert head[..2] == b[..2] && head[2..] == [b[2], b[3]];
  }

  lemma LockedDeadly(port: Port, t: Table, was: bool, buf: seq<Byte>, sent: nat, b: seq<Byte>, rest: seq<Byte>)
    requires |buf| >= 4 && Deadly(port, t, was, b)
    ensures LockedPass(port, t, Reader(true, was, buf, sent), b[if was then 0 else 2..] + rest) == Died
  {
    hide LockedPass;
    hide FromData;
    var n := b[2] as int + 0x100 * b[3] as int;
    if n < 4 || (port == Usb && n > 1024) {
      LockedLength(port, t, was, buf, sent, b, rest);
    } else {
      assert n == |b| by {
        assert b[2..4] == [b[2], b[3]];
        U16RoundTrip(|b|);
      }
      LockedPanic(port, t, was, buf, sent, b, rest);
    }
  }

  lemma FilledLength(buf: seq<Byte>, head: seq<Byte>, body: seq<Byte>)
    requires |head| == 4 <= |buf|
    ensures |Filled(buf, head, body)| >= |buf|
  {}

  /** On the serial port a frame too short for its fields is summed with what is left in the buffer counted as its header. */
  lemma RuntFrame(t: Table, was: bool, buf: seq<Byte>, sent: nat, b: seq<Byte>, rest: seq<Byte>)
    requires Framed(Serial, b) && |b| < 10 <= |buf|
    ensures var s := LockedPass(Serial, t, Reader(true, was, buf, sent), b[if was then 0 else 2..] + rest);
            if Total(b[..|b| - 1]) % 0x100 == b[|b| - 1] then s == Died
            else s.Lost? && s.used == |b| - (if was then 0 else 2)
  {
    hide LockedPass;
    hide CommandFromBytes;
    var stale := LockedOn(Serial, t, was, buf, sent, b, rest);
    var data := b + stale;
    FilledLength(buf, b[..4], b[4..]);
    U16RoundTrip(|b|);
    assert data[0..2] == b[..2] && data[2..4] == b[2..4];
    assert data[..|b| - 1] == b[..|b| - 1];
  }

  /** Bytes under lock that start no frame: the lock is given up for the ones read so far. */
  lemma LockedNoise(port: Port, t: Table, buf: seq<Byte>, sent: nat, noise: seq<Byte>, rest: seq<Byte>) returns (full: seq<Byte>)
    requires |buf| >= 4 && Harmless(port, true, noise)
    ensures |full| >= 4
    ensures LockedPass(port, t, Reader(true, true, buf, sent), noise + rest)
            == Lost(Reader(false, true, full, sent), LostTo(port, noise))
  {
    hide FromData;
    var input := noise + rest;
    var head, n := input[..4], LostTo(port, noise);
    assert head == noise[..4] && head[..2] == noise[..2] && head[2..] == [noise[2], noise[3]];
    if port == Serial {
      full := head + buf[4..];
    } else {
      full := Filled(buf, head, input[4..n]);
      assert full[..n][..2] == head[..2];
      NoFrameRefused(t, full[..n]);
    }
  }

  /** Noise is read past, at the price of the lock if there is one. */
  lemma NoiseStep(port: Port, t: Table, r: Reader, noise: seq<Byte>, rest: seq<Byte>) returns (next: Reader)
    requires |r.buf| >= 4 && (r.locked ==> r.wasLocked) && Harmless(port, r.locked, noise)
    ensures |next.buf| >= 4 && !next.locked && next.sent == r.sent
    ensures var after := ReadAll(port, t, next, rest);
            ReadAll(port, t, r, noise + rest) == if r.locked then Lose(after) else after
  {
    hide LockedPass;
    hide LostTo;
    if r.locked {
      var full := LockedNoise(port, t, r.buf, r.sent, noise, rest);
      var n := LostTo(port, noise);
      AfterPass(port, t, r, noise + rest, LockedPass(port, t, r, noise + rest));
      assert (noise + rest)[n..] == noise[n..] + rest;
      SkipNoise(port, t, true, full, r.sent, noise[n..], rest);
      next := Reader(false, false, full, r.sent);
    } else {
      SkipNoise(port, t, r.wasLocked, r.buf, r.sent, noise, rest);
      next := Reader(false, false, r.buf, r.sent);
    }
  }

  predicate IsFrame(c: Chunk) {
    c.Good? || c.Bad?
  }

  /** Reading one frame under lock, its frame bytes already consumed when the lock is new. */
  lemma LockedChunk(port: Port, t: Table, was: bool, buf: seq<Byte>, sent: nat, c: Chunk, rest: seq<Byte>) returns (full: seq<Byte>)
    requires |buf| >= 4 && IsFrame(c) && Readable(port, t, was, c)
    ensures |full| >= 4 && |ChunkBytes(c)| >= 4
    ensures ReadAll(port, t, Reader(true, was, buf, sent), ChunkBytes(c)[if was then 0 else 2..] + rest)
            == if c.Bad? then Lose(ReadAll(port, t, Reader(false, was, full, sent), rest))
               else if Kills(port, t, sent, c.packet) then ReadLog([], 0, Dead)
               else Emit(c.packet, ReadAll(port, t, Reader(true, true, full, Counted(port, sent)), rest))
  {
    var input := ChunkBytes(c)[if was then 0 else 2..] + rest;
    if c.Good? {
      LockedFrame(port, t, was, buf, sent, c.packet, rest);
    } else {
      LockedDamage(port, t, was, buf, sent, c.bytes, rest);
    }
    full := Filled(buf, ChunkBytes(c)[..4], ChunkBytes(c)[4..]);
    hide LockedPass;
    hide PacketBytes;
    hide WellFormed;
    hide Filled;
    AfterPass(port, t, Reader(true, was, buf, sent), input, LockedPass(port, t, Reader(true, was, buf, sent), input));
  }

  lemma FrameFirst(port: Port, t: Table, locked: bool, c: Chunk)
    requires IsFrame(c) && Readable(port, t, locked, c)
    ensures |ChunkBytes(c)| >= 4 && ChunkBytes(c)[..2] == FRAME
  {}

  /** Reading one frame, locked or not. */
  lemma FrameStep(port: Port, t: Table, r: Reader, c: Chunk, rest: seq<Byte>) returns (next: Reader)
    requires |r.buf| >= 4 && (r.locked ==> r.wasLocked) && IsFrame(c) && Readable(port, t, r.locked, c)
    ensures |next.buf| >= 4 && next.locked == c.Good? && (next.locked ==> next.wasLocked)
    ensures next.sent == if c.Good? then Counted(port, r.sent) else r.sent
    ensures var after := ReadAll(port, t, next, rest);
            ReadAll(port, t, r, ChunkBytes(c) + rest)
            == if c.Bad? then Lose(after) else if Kills(port, t, r.sent, c.packet) then ReadLog([], 0, Dead)
               else Emit(c.packet, after)
  {
    var full := LockedChunk(port, t, r.locked, r.buf, r.sent, c, rest);
    next := if c.Good? then Reader(true, true, full, Counted(port, r.sent)) else Reader(false, r.locked, full, r.sent);
    FrameFirst(port, t, r.locked, c);
    hide ChunkBytes;
    hide ReadAll;
    hide Kills;
    hide Readable;
    var b := ChunkBytes(c);
    if r.locked {
      assert b[0..] == b;
    } else {
      Locking(port, t, r.wasLocked, r.buf, r.sent, b, rest);
    }
  }

  lemma FatalLocks(port: Port, t: Table, b: seq<Byte>)
    requires Deadly(port, t, false, b)
    ensures |b| >= 4 && b[..2] == FRAME
  {}

  lemma FatalStep(port: Port, t: Table, r: Reader, b: seq<Byte>, rest: seq<Byte>)
    requires |r.buf| >= 4 && (r.locked ==> r.wasLocked) && Deadly(port, t, r.locked, b)
    ensures ReadAll(port, t, r, b + rest) == ReadLog([], 0, Dead)
  {
    LockedDeadly(port, t, r.locked, r.buf, r.sent, b, rest);
    hide LockedPass;
    hide Deadly;
    var skip := if r.locked then 0 else 2;
    AfterPass(port, t, Reader(true, r.locked, r.buf, r.sent), b[skip..] + rest, Died);
    if r.locked {
      assert b[0..] == b;
    } else {
      assert b[..2] == FRAME && |b| >= 2 by {
        FatalLocks(port, t, b);
      }
      Locking(port, t, r.wasLocked, r.buf, r.sent, b, rest);
    }
  }

  lemma FatalReadable(port: Port, t: Table, locked: bool, c: Chunk)
    requires c.Fatal? && Readable(port, t, locked, c)
    ensures Deadly(port, t, locked, c.bytes)
  {}

  lemma NoiseReadable(port: Port, t: Table, locked: bool, c: Chunk)
    requires c.Noise? && Readable(port, t, locked, c)
    ensures Harmless(port, locked, c.bytes)
  {}

  lemma BytesOf(c: Chunk)
    requires !c.Good?
    ensures ChunkBytes(c) == c.bytes
  {}

  lemma LegibleParts(port: Port, t: Table, locked: bool, chunks: seq<Chunk>)
    requires Legible(port, t, locked, chunks) && chunks != []
    ensures Readable(port, t, locked, chunks[0]) && Legible(port, t, chunks[0].Good?, chunks[1..])
    ensures chunks[0].Good? ==> Encodable(chunks[0].packet.payload)
    ensures Wire(port, t, locked, chunks) == ChunkBytes(chunks[0]) + Wire(port, t, chunks[0].Good?, chunks[1..])
  {}

  /** Reading one stretch of the wire. */
  lemma ChunkStep(port: Port, t: Table, r: Reader, c: Chunk, rest: seq<Byte>) returns (next: Reader)
    requires |r.buf| >= 4 && (r.locked ==> r.wasLocked) && Readable(port, t, r.locked, c)
    ensures |next.buf| >= 4 && next.locked == c.Good? && (next.locked ==> next.wasLocked)
    ensures next.sent == if c.Good? then Counted(port, r.sent) else r.sent
    ensures c.Good? ==> Encodable(c.packet.payload)
    ensures var after := ReadAll(port, t, next, rest);
            ReadAll(port, t, r, ChunkBytes(c) + rest)
            == if c.Fatal? || (c.Good? && Kills(port, t, r.sent, c.packet)) then ReadLog([], 0, Dead)
               else if c.Good? then Emit(c.packet, after)
               else if c.Bad? || r.locked then Lose(after)
               else after
  {
    hide ReadAll;
    hide Kills;
    if IsFrame(c) {
      next := FrameStep(port, t, r, c, rest);
      hide PacketBytes;
    } else {
      BytesOf(c);
      hide ChunkBytes;
      if c.Noise? {
        NoiseReadable(port, t, r.locked, c);
        hide Readable;
        next := NoiseStep(port, t, r, c.bytes, rest);
      } else {
        FatalReadable(port, t, r.locked, c);
        hide Readable;
        FatalStep(port, t, r, c.bytes, rest);
        next := Reader(false, false, r.buf, r.sent);
      }
    }
  }

  /** What is read before something kills the thread, or everything. */
  function ReadChunks(port: Port, t: Table, sent: nat, chunks: seq<Chunk>): (read: seq<Chunk>)
    ensures |read| <= |chunks|
    decreases chunks
  {
    if chunks == [] then []
    else
      match chunks[0]
      case Good(p) =>
        if Kills(port, t, sent, p) then [] else [chunks[0]] + ReadChunks(port, t, Counted(port, sent), chunks[1..])
      case Fatal(_) => []
      case _ => [chunks[0]] + ReadChunks(port, t, sent, chunks[1..])
  }

  /** None of these packets kills the thread: the serial one stops at 51 without a hub, the USB one at what it cannot format. */
  predicate Survives(port: Port, t: Table, sent: nat, ps: seq<Packet>) {
    match port
    case Serial => t == [] && ps != [] ==> sent + |ps| <= 51
    case Usb => forall p | p in ps :: Printable(p.payload)
  }

  lemma SameTail<X>(x: X, a: seq<X>, b: seq<X>)
    ensures [x] + a == [x] + b <==> a == b
    ensures ([x] + a)[1..] == a
  {
    assert ([x] + a)[1..] == a && ([x] + b)[1..] == b;
  }

  lemma NoGoods()
    ensures Goods([]) == []
  {}

  lemma GoodsCons(c: Chunk, rest: seq<Chunk>)
    ensures Goods([c] + rest) == if c.Good? then [c.packet] + Goods(rest) else Goods(rest)
  {
    assert ([c] + rest)[1..] == rest;
  }

  lemma SurvivesCons(port: Port, t: Table, sent: nat, p: Packet, rest: seq<Packet>)
    ensures Survives(port, t, sent, [p] + rest) <==> !Kills(port, t, sent, p) && Survives(port, t, Counted(port, sent), rest)
  {
    assert forall q | q in rest :: q in [p] + rest;
  }

  predicate NoneFatal(chunks: seq<Chunk>) {
    forall c | c in chunks :: !c.Fatal?
  }

  /** Everything is read exactly when nothing is fatal and the good frames are survived. */
  lemma {:induction false} AllReadWhenSurvived(port: Port, t: Table, sent: nat, chunks: seq<Chunk>)
    ensures NoneFatal(chunks) && Survives(port, t, sent, Goods(chunks)) <==> ReadChunks(port, t, sent, chunks) == chunks
    ensures NoneFatal(chunks) ==>
              (Survives(port, t, sent, Goods(chunks)) <==> Goods(ReadChunks(port, t, sent, chunks)) == Goods(chunks))
    decreases chunks
  {
    if chunks == [] {
    } else {
      var c, rest := chunks[0], chunks[1..];
      assert chunks == [c] + rest;
      assert NoneFatal(chunks) <==> !c.Fatal? && NoneFatal(rest);
      hide NoneFatal;
      var next := if c.Good? then Counted(port, sent) else sent;
      AllReadWhenSurvived(port, t, next, rest);
      var tail := ReadChunks(port, t, next, rest);
      SameTail(c, tail, rest);
      GoodsCons(c, tail);
      GoodsCons(c, rest);
      hide Goods;
      if c.Good? {
        SurvivesCons(port, t, sent, c.packet, Goods(rest));
        SameTail(c.packet, Goods(tail), Goods(rest));
        NoGoods();
      }
    }
  }

  /** What the first stretch adds to what the rest is read as. */
  lemma ReadFirst(port: Port, t: Table, locked: bool, sent: nat, chunks: seq<Chunk>)
    requires chunks != []
    ensures var c, rest := chunks[0], chunks[1..];
            var all, tail := ReadChunks(port, t, sent, chunks), ReadChunks(port, t, if c.Good? then Counted(port, sent) else sent, rest);
            if c.Fatal? || (c.Good? && Kills(port, t, sent, c.packet)) then all == []
            else
              && |all| == |tail| + 1
              && Goods(all) == (if c.Good? then [c.packet] else []) + Goods(tail)
              && Losses(locked, all) == (if c.Bad? || (locked && c.Noise?) then 1 else 0) + Losses(c.Good?, tail)
    ensures Goods([]) == [] && Losses(locked, []) == 0
    ensures LockedAfter(locked, chunks) == LockedAfter(chunks[0].Good?, chunks[1..])
  {
    var c, rest := chunks[0], chunks[1..];
    var tail := ReadChunks(port, t, if c.Good? then Counted(port, sent) else sent, rest);
    assert ([c] + tail)[1..] == tail;
    hide Kills;
    hide Counted;
  }

  lemma NothingToRead(port: Port, t: Table, r: Reader)
    requires |r.buf| >= 4
    ensures ReadAll(port, t, r, []) == ReadLog([], 0, Waiting(r.locked, []))
    ensures ReadChunks(port, t, r.sent, []) == [] && Goods([]) == [] && Losses(r.locked, []) == 0 && LockedAfter(r.locked, []) == r.locked
  {}

  /**
   * Damage is local: whatever frames are on the wire, some with a sum that does not fit, and noise between them, exactly
   * the good ones are read, in order, and a lock is lost once per damaged frame and per stretch of noise met under it,
   * whatever is in the buffer and locked or not at the start; all this up to what kills the thread, if anything does.
   */
  lemma {:induction false} DamageIsLocal(port: Port, t: Table, r: Reader, chunks: seq<Chunk>)
    requires |r.buf| >= 4 && (r.locked ==> r.wasLocked) && Legible(port, t, r.locked, chunks)
    ensures ReadAll(port, t, r, Wire(port, t, r.locked, chunks))
            == var read := ReadChunks(port, t, r.sent, chunks);
               ReadLog(Goods(read), Losses(r.locked, read),
                       if |read| == |chunks| then Waiting(LockedAfter(r.locked, chunks), []) else Dead)
    decreases |chunks|
  {
    hide Readable;
    hide ChunkBytes;
    hide ReadAll;
    hide Kills;
    hide Goods;
    hide Losses;
    hide ReadChunks;
    hide LockedAfter;
    if chunks == [] {
      NothingToRead(port, t, r);
    } else {
      var c, rest := chunks[0], chunks[1..];
      LegibleParts(port, t, r.locked, chunks);
      hide Legible;
      hide Wire;
      var next := ChunkStep(port, t, r, c, Wire(port, t, c.Good?, rest));
      DamageIsLocal(port, t, next, rest);
      ReadFirst(port, t, r.locked, r.sent, chunks);
    }
  }

  lemma {:induction false} Undamaged(port: Port, t: Table, locked: bool, ps: seq<Packet>) returns (chunks: seq<Chunk>)
    requires AllWellFormed(t, ps) && AllFit(port, ps)
    ensures Legible(port, t, locked, chunks) && AllEncodable(ps) && Wire(port, t, locked, chunks) == Stream(ps)
    ensures Goods(chunks) == ps && Losses(locked, chunks) == 0 && NoneFatal(chunks)
    ensures LockedAfter(locked, chunks) == (locked || ps != [])
    decreases |ps|
  {
    chunks := [];
    if ps == [] {
    } else {
      TailEncodable(t, ps);
      var rest := Undamaged(port, t, true, ps[1..]);
      chunks := [Good(ps[0])] + rest;
      assert chunks[1..] == rest;
    }
  }

  // ---- the stream theorem ----

  function TotalLength(ps: seq<Packet>): nat {
    if ps == [] then 0 else ps[0].length + TotalLength(ps[1..])
  }

  lemma FilledHead(buf: seq<Byte>, head: seq<Byte>, body: seq<Byte>)
    requires |head| == 4 <= |buf|
    ensures var full := Filled(buf, head, body);
            full[2..4] == head[2..] && full[..4 + |body|][2..4] == head[2..]
  {
    hide Resized;
    var full := Filled(buf, head, body);
    assert full[2..4] == [head[2], head[3]] == head[2..];
  }

  /** A frame read under lock is as long as its length field says. */
  lemma FrameUses(port: Port, t: Table, r: Reader, input: seq<Byte>)
    requires |r.buf| >= 4 && LockedPass(port, t, r, input).Frame?
    ensures var s := LockedPass(port, t, r, input);
            s.next.locked && s.next.wasLocked && s.packet.length == s.used + if r.wasLocked then 0 else 2
  {
    var k: nat := if r.wasLocked then 4 else 2;
    var head := HeadOf(r.wasLocked, input);
    var n: nat := ReadU16(head[2..]);
    FilledHead(r.buf, head, input[k..k + n - 4]);
  }

  /** Each packet read accounts for its own bytes of the input. */
  lemma {:induction false} EmittedBytes(port: Port, t: Table, r: Reader, input: seq<Byte>)
    requires |r.buf| >= 4
    ensures TotalLength(ReadAll(port, t, r, input).packets) <= |input| + (if r.locked && !r.wasLocked then 2 else 0)
    decreases |input|
  {
    if !r.locked {
      if |input| > 0 && input[0] != FRAME[0] {
        EmittedBytes(port, t, Reader(false, false, r.buf, r.sent), input[1..]);
      } else if |input| > 1 {
        EmittedBytes(port, t, Reader(input[1] == FRAME[1], false, r.buf, r.sent), input[2..]);
      }
    } else {
      match LockedPass(port, t, r, input) {
        case Blocked =>
        case Died =>
        case Lost(next, used) =>
          EmittedBytes(port, t, next, input[used..]);
        case Frame(p, next, used) =>
          FrameUses(port, t, r, input);
          EmittedBytes(port, t, next, input[used..]);
          var tail := ReadAll(port, t, next, input[used..]).packets;
          assert ([p] + tail)[1..] == tail;
      }
    }
  }

  lemma {:induction false} StreamLength(t: Table, ps: seq<Packet>)
    requires AllWellFormed(t, ps)
    ensures |Stream(ps)| == TotalLength(ps)
  {
    if ps == [] {
    } else {
      PacketRoundTrip(t, ps[0], []);
      StreamLength(t, ps[1..]);
    }
  }

  /**
   * Frames sent after noise that holds no frame start of its own are read back exactly, in order and without losing
   * lock, if and only if the noise does not end inside a lock attempt (a lone first frame byte just before the frames)
   * and none of the packets kills the thread.
   */
  lemma StreamRoundTrip(port: Port, t: Table, was: bool, buf: seq<Byte>, sent: nat, noise: seq<Byte>, ps: seq<Packet>)
    requires |buf| >= 4 && AllWellFormed(t, ps) && AllFit(port, ps) && ps != [] && Scan(noise) != Found
    ensures var log := ReadAll(port, t, Reader(false, was, buf, sent), noise + Stream(ps));
            && (Scan(noise) == Clean && Survives(port, t, sent, ps) ==> log == ReadLog(ps, 0, Waiting(true, [])))
            && (log.packets == ps <==> Scan(noise) == Clean && Survives(port, t, sent, ps))
  {
    PacketRoundTrip(t, ps[0], []);
    assert Stream(ps)[0] == FRAME[0];
    SkipNoise(port, t, was, buf, sent, noise, Stream(ps));
    if Scan(noise) == Clean {
      var chunks := Undamaged(port, t, false, ps);
      DamageIsLocal(port, t, Reader(false, false, buf, sent), chunks);
      AllReadWhenSurvived(port, t, sent, chunks);
    } else {
      EmittedBytes(port, t, Reader(false, false, buf, sent), Stream(ps)[1..]);
      StreamLength(t, ps);
    }
  }

  /**
   * A locked reader that meets noise loses its lock once, finds it again at the next frame and reads on: on the serial
   * port after four bytes that start no frame, on USB after as many as those give for a length.
   */
  lemma LockRegained(port: Port, t: Table, buf: seq<Byte>, sent: nat, noise: seq<Byte>, ps: seq<Packet>)
    requires |buf| >= 4 && AllWellFormed(t, ps) && AllFit(port, ps) && Harmless(port, true, noise)
    ensures AllEncodable(ps)
    ensures var log := ReadAll(port, t, Reader(true, true, buf, sent), noise + Stream(ps));
            && (Survives(port, t, sent, ps) ==> log == ReadLog(ps, 1, Waiting(ps != [], [])))
            && (log.packets == ps <==> Survives(port, t, sent, ps))
  {
    var chunks := Undamaged(port, t, false, ps);
    hide Harmless;
    var next := NoiseStep(port, t, Reader(true, true, buf, sent), noise, Stream(ps));
    hide ReadAll;
    DamageIsLocal(port, t, next, chunks);
    AllReadWhenSurvived(port, t, sent, chunks);
  }

  /** In particular four bytes that do not start with the frame bytes. */
  lemma FourBytesLost(t: Table, buf: seq<Byte>, sent: nat, junk: seq<Byte>, ps: seq<Packet>)
    requires |buf| >= 4 && AllWellFormed(t, ps) && |junk| == 4 && junk[..2] != [68, 75] && Survives(Serial, t, sent, ps)
    ensures AllEncodable(ps)
    ensures ReadAll(Serial, t, Reader(true, true, buf, sent), junk + Stream(ps)) == ReadLog(ps, 1, Waiting(ps != [], []))
  {
    assert junk[4..] == [];
    LockRegained(Serial, t, buf, sent, junk, ps);
  }

  // ---- the thread itself ----

  class ReadThread {
    var locked: bool
    var wasLocked: bool
    var packetNum: nat
    var reading: array<Byte>

    constructor ()
      ensures !locked && !wasLocked && packetNum == 0 && reading.Length == 128 && fresh(reading)
    {
      locked, wasLocked, packetNum := false, false, 0;
      reading := new Byte[128](_ => 0);
    }

    ghost function State(): Reader
      reads this, reading
    {
      Reader(locked, wasLocked, reading[..], packetNum)
    }

    /** attempt_lock: consumes one or two bytes; false when the port blocks first. */
    method AttemptLock(ghost t: Table, wire: seq<Byte>, at: nat) returns (read: bool, next: nat)
      requires at <= |wire| && !locked && reading.Length >= 4
      modifies this`locked, this`wasLocked
      ensures at <= next <= |wire| && (read ==> at < next)
      ensures ReadAll(Serial, t, old(State()), wire[at..])
              == if read then ReadAll(Serial, t, State(), wire[next..]) else ReadLog([], 0, Waiting(false, wire[at..]))
    {
      wasLocked := false;
      if at == |wire| {
        return false, at;
      }
      assert wire[at..][1..] == wire[at + 1..];
      if wire[at] != FRAME[0] {
        return true, at + 1;
      }
      if at + 1 == |wire| {
        return false, at;
      }
      assert wire[at..][2..] == wire[at + 2..];
      locked := wire[at + 1] == FRAME[1];
      return true, at + 2;
    }

    /** The two reads of the header: after a lock only the length is still to come. */
    method ReadHeader(wire: seq<Byte>, at: nat)
      requires reading.Length >= 4 && at + (if wasLocked then 4 else 2) <= |wire|
      modifies reading
      ensures reading[..] == HeadOf(wasLocked, wire[at..]) + old(reading[..])[4..]
    {
      if wasLocked {
        forall i | 0 <= i < 4 { reading[i] := wire[at + i]; }
      } else {
        reading[0], reading[1] := FRAME[0], FRAME[1];
        reading[2], reading[3] := wire[at], wire[at + 1];
      }
    }

    /** read_exact into reading[4..n]. */
    method ReadBody(wire: seq<Byte>, at: nat, n: nat)
      requires 4 <= n <= reading.Length && at + n - 4 <= |wire|
      modifies reading
      ensures reading[..] == old(reading[..])[..4] + wire[at..at + n - 4] + old(reading[..])[n..]
    {
      forall i | 4 <= i < n { reading[i] := wire[at + i - 4]; }
    }

    /** reading.resize(n, 0) when the buffer is shorter than the frame. */
    method Grow(n: nat)
      modifies this`reading
      ensures reading[..] == Resized(old(reading[..]), n)
      ensures reading == old(reading) || fresh(reading)
    {
      if reading.Length < n {
        var was := reading;
        reading := new Byte[n](i requires 0 <= i < n reads was => if i < was.Length then was[i] else 0);
      }
    }

    /** The buffer grown to the frame's length and the rest of the frame read into it. */
    method FillFrame(wire: seq<Byte>, at: nat, n: nat, ghost start: seq<Byte>, ghost head: seq<Byte>)
      requires 4 <= n && at + n - 4 <= |wire| && |head| == 4 <= |start|
      requires reading[..] == head + start[4..]
      modifies this`reading, reading
      ensures reading == old(reading) || fresh(reading)
      ensures reading[..] == Filled(start, head, wire[at..at + n - 4])
    {
      Grow(n);
      ghost var grown := reading[..];
      ReadBody(wire, at, n);
      assert grown[..4] == head;
    }

    /** Packet::from_data on the filled buffer decides whether the lock is kept; too many packets and no hub end it all. */
    method Judge(t: Table, used: nat) returns (s: Pass)
      requires locked
      modifies this`locked, this`wasLocked, this`packetNum
      ensures s == match FromData(t, reading[..])
                   case Ok(p) =>
                     if Kills(Serial, t, old(packetNum), p) then Died
                     else Frame(p, Reader(true, true, reading[..], old(packetNum) + 1), used)
                   case NoValue => Lost(Reader(false, old(wasLocked), reading[..], old(packetNum)), used)
                   case Panics => Died
      ensures s.Lost? || s.Frame? ==> State() == s.next
    {
      match FromData(t, reading[..]) {
        case Ok(p) =>
          if packetNum > 50 && t == [] {
            return Died;
          }
          packetNum := packetNum + 1;
          wasLocked := locked;
          s := Frame(p, Reader(locked, wasLocked, reading[..], packetNum), used);
        case NoValue =>
          locked := false;
          s := Lost(Reader(locked, wasLocked, reading[..], packetNum), used);
        case Panics =>
          s := Died;
      }
    }

    /** One pass of the loop while locked. */
    method ReadFrame(t: Table, wire: seq<Byte>, at: nat) returns (s: Pass)
      requires at <= |wire| && locked && reading.Length >= 4
      modifies this, reading
      ensures reading == old(reading) || fresh(reading)
      ensures s == LockedPass(Serial, t, old(State()), wire[at..])
      ensures s.Lost? || s.Frame? ==> State() == s.next
    {
      hide FromData;
      hide Filled;
      hide HeadOf;
      hide ReadU16;
      ghost var start, input := reading[..], wire[at..];
      var k: nat := if wasLocked then 4 else 2;
      if |wire| - at < k {
        return Blocked;
      }
      ghost var head := HeadOf(wasLocked, input);
      ReadHeader(wire, at);
      assert reading[..] == head + start[4..];
      assert reading[..2] == head[..2] && reading[2..4] == head[2..];
      if reading[..2] != FRAME {
        locked := false;
        return Lost(Reader(locked, wasLocked, reading[..], packetNum), k);
      }
      var n: nat := ReadU16(reading[2..4]);
      if n < 4 {
        Grow(n);
        return Died;
      }
      if |wire| - at - k < n - 4 {
        Grow(n);
        return Blocked;
      }
      FillFrame(wire, at + k, n, start, head);
      SliceOfTail(wire, at, k, k + n - 4);
      s := Judge(t, k + n - 4);
    }

    /** A locked pass at a position of the port: the packet it sent, if any, and where it left off. */
    method ReadLocked(t: Table, wire: seq<Byte>, at: nat) returns (alive: bool, next: nat, packet: Option<Packet>, died: bool)
      requires at <= |wire| && locked && reading.Length >= 4
      modifies this, reading
      ensures reading == old(reading) || fresh(reading)
      ensures alive ==> !died && at < next <= |wire| && reading.Length >= 4
      ensures var log := ReadAll(Serial, t, old(State()), wire[at..]);
              if !alive then log.packets == [] && log.losses == 0 && packet == None && (died <==> log.end == Dead)
              else
                var more := ReadAll(Serial, t, State(), wire[next..]);
                log == if packet.Some? then Emit(packet.value, more) else Lose(more)
    {
      hide LockedPass;
      ghost var r := State();
      var s := ReadFrame(t, wire, at);
      AfterPass(Serial, t, r, wire[at..], s);
      if s.Lost? || s.Frame? {
        assert wire[at..][s.used..] == wire[at + s.used..];
        return true, at + s.used, if s.Frame? then Some(s.packet) else None, false;
      }
      return false, at, None, s.Died?;
    }

    /** Reading a port that delivers these bytes and then blocks, unless the thread has died by then. */
    method Run(t: Table, wire: seq<Byte>) returns (sent: seq<Packet>, losses: nat, died: bool)
      requires reading.Length >= 4
      modifies this, reading
      ensures var log := ReadAll(Serial, t, old(State()), wire);
              sent == log.packets && losses == log.losses && (died <==> log.end == Dead)
    {
      hide LockedPass;
      hide ReadAll;
      sent, losses, died := [], 0, false;
      var at, alive := 0, true;
      ghost var log := ReadAll(Serial, t, State(), wire);
      assert wire[0..] == wire;
      while alive
        invariant reading == old(reading) || fresh(reading)
        invariant at <= |wire| && (alive ==> reading.Length >= 4)
        invariant alive ==> !died
        invariant if alive then
                    var more := ReadAll(Serial, t, State(), wire[at..]);
                    log == Continued(ReadLog(sent, losses, log.end), more)
                  else log.packets == sent && log.losses == losses && (died <==> log.end == Dead)
        decreases |wire| - at, alive
      {
        if !locked {
          alive, at := AttemptLock(t, wire, at);
        } else {
          var next, packet;
          alive, next, packet, died := ReadLocked(t, wire, at);
          if packet.Some? {
            sent, at := sent + [packet.value], next;
          } else if alive {
            losses, at := losses + 1, next;
          }
        }
      }
    }
  }
}
