/** The USB threads: packets encoded side by side into one buffer, and the lock loop of the reader. */
module UsbHandler {
  import opened Bytes
  import opened Packets
  import opened FrameReader

  // ---- writer ----

  /** What a run of Packet::encode calls leaves in the buffer: the stored checksums go out. */
  function StoredStream(ps: seq<Packet>): seq<Byte>
    requires AllEncodable(ps)
  {
    if ps == [] then [] else StoredBytes(ps[0]) + StoredStream(ps[1..])
  }

  lemma {:induction false} StoredSnoc(ps: seq<Packet>, p: Packet)
    requires AllEncodable(ps) && Encodable(p.payload)
    ensures AllEncodable(ps + [p]) && StoredStream(ps + [p]) == StoredStream(ps) + StoredBytes(p)
  {
    if ps == [] {
      assert [p][1..] == [];
    } else {
      assert (ps + [p])[1..] == ps[1..] + [p];
      StoredSnoc(ps[1..], p);
    }
  }

  lemma {:induction false} StoredLength(ps: seq<Packet>)
    requires AllEncodable(ps)
    ensures |StoredStream(ps)| == |Stream(ps)|
  {
    if ps == [] {
    } else {
      StoredLength(ps[1..]);
    }
  }

  /** conv_byte_vec, which the UART writer uses; the source takes the first packet out of a list it knows to be non-empty. */
  method ConvByteVec(packets: seq<Packet>) returns (bytes: seq<Byte>)
    requires AllEncodable(packets) && packets != []
    ensures bytes == Stream(packets)
  {
    bytes := PacketBytes(packets[0]);
    assert packets[..1] == [packets[0]] && [packets[0]][1..] == [];
    hide PacketBytes;
    for i := 1 to |packets|
      invariant AllEncodable(packets[..i]) && bytes == Stream(packets[..i])
    {
      var next := [packets[i]];
      assert packets[i] in packets && next[1..] == [];
      StreamAppend(packets[..i], next);
      assert packets[..i + 1] == packets[..i] + next;
      bytes := bytes + PacketBytes(packets[i]);
    }
    assert packets[..|packets|] == packets;
  }

  /** The USB writer and the UART writer put the same bytes on the wire exactly when every stored checksum is right. */
  lemma {:induction false} WritersAgree(ps: seq<Packet>)
    requires AllEncodable(ps)
    ensures StoredStream(ps) == Stream(ps) <==> forall i | 0 <= i < |ps| :: ps[i].checksum == Checksum(ps[i])
  {
    if ps == [] {
    } else {
      var p := ps[0];
      var n := |StoredBytes(p)|;
      WritersAgree(ps[1..]);
      assert StoredStream(ps)[..n] == StoredBytes(p) && StoredStream(ps)[n..] == StoredStream(ps[1..]);
      assert Stream(ps)[..n] == PacketBytes(p) && Stream(ps)[n..] == Stream(ps[1..]);
      assert StoredBytes(p)[n - 1] == p.checksum && PacketBytes(p)[n - 1] == Checksum(p);
      assert forall i | 1 <= i < |ps| :: ps[i] == ps[1..][i - 1];
    }
  }

  /** So they do for a batch whose checksums were recomputed, as the write proxy does with every batch. */
  lemma SealedAgree(ps: seq<Packet>, sealed: seq<Packet>)
    requires AllEncodable(ps) && |sealed| == |ps| && forall i | 0 <= i < |ps| :: ps[i] in ps && sealed[i] == Seal(ps[i])
    ensures AllEncodable(sealed) && StoredStream(sealed) == Stream(sealed)
  {
    forall p | p in sealed
      ensures Encodable(p.payload)
    {
      var i :| 0 <= i < |sealed| && sealed[i] == p;
      assert ps[i] in ps;
    }
    WritersAgree(sealed);
  }

  /** What the USB writer puts on the wire for well-formed packets, a reader on either port reads back exactly unless one kills it. */
  lemma WriteThenRead(port: Port, t: Table, was: bool, buf: seq<Byte>, sent: nat, ps: seq<Packet>)
    requires |buf| >= 4 && AllWellFormed(t, ps) && AllFit(port, ps) && ps != []
    ensures AllEncodable(ps)
    ensures var log := ReadAll(port, t, Reader(false, was, buf, sent), StoredStream(ps));
            && (Survives(port, t, sent, ps) ==> log == ReadLog(ps, 0, Waiting(true, [])))
            && (log.packets == ps <==> Survives(port, t, sent, ps))
  {
    StreamRoundTrip(port, t, was, buf, sent, [], ps);
    hide ReadAll;
    hide PacketBytes;
    assert [] + Stream(ps) == Stream(ps);
    assert forall i | 0 <= i < |ps| :: ps[i] in ps;
    WritersAgree(ps);
  }

  /** Packet::encode into the slice of buf that starts at pos; the rest of the slice begins at next. */
  method Encode(p: Packet, buf: array<Byte>, pos: nat) returns (next: nat)
    requires Encodable(p.payload) && pos + |StoredBytes(p)| <= buf.Length
    modifies buf
    ensures next == pos + |StoredBytes(p)|
    ensures buf[..next] == old(buf[..pos]) + StoredBytes(p) && buf[next..] == old(buf[next..])
  {
    var head, payload := Header(p), CommandBytes(p.payload);
    forall i | 0 <= i < 10 { buf[pos + i] := head[i]; }
    forall i | 0 <= i < |payload| { buf[pos + 10 + i] := payload[i]; }
    buf[pos + 10 + |payload|] := p.checksum;
    next := pos + 11 + |payload|;
    assert buf[pos..next] == StoredBytes(p);
    assert buf[..pos] == old(buf[..pos]) && buf[next..] == old(buf[next..]);
  }

  /** The next region starts where the previous ones end and ends within the whole. */
  lemma Adjacent(packets: seq<Packet>, i: nat)
    requires AllEncodable(packets) && i < |packets|
    ensures AllEncodable(packets[..i]) && AllEncodable(packets[..i + 1])
    ensures StoredStream(packets[..i + 1]) == StoredStream(packets[..i]) + StoredBytes(packets[i])
    ensures |StoredStream(packets[..i + 1])| <= |Stream(packets)|
  {
    var done, rest := packets[..i + 1], packets[i + 1..];
    hide Encodable;
    hide StoredBytes;
    hide StoredStream;
    hide Stream;
    assert packets[..i + 1] == packets[..i] + [packets[i]] && packets == done + rest;
    assert packets[i] in packets && forall p | p in done || p in rest :: p in packets;
    assert AllEncodable(packets[..i]) && AllEncodable(done) && AllEncodable(rest);
    StoredSnoc(packets[..i], packets[i]);
    StreamAppend(done, rest);
    StoredLength(done);
  }

  lemma TailOfTail(s: seq<Byte>, t: seq<Byte>, i: nat, j: nat)
    requires i <= j <= |s| == |t| && s[i..] == t[i..]
    ensures s[j..] == t[j..]
  {
    assert s[j..] == s[i..][j - i..] && t[j..] == t[i..][j - i..];
  }

  /** The buffer loop of do_write_thread. */
  method WritePackets(packets: seq<Packet>, buf: array<Byte>) returns (bytes: nat)
    requires AllEncodable(packets) && |Stream(packets)| <= buf.Length
    modifies buf
    ensures bytes == |Stream(packets)|
    ensures buf[..bytes] == StoredStream(packets) && buf[bytes..] == old(buf[bytes..])
  {
    bytes := 0;
    StoredLength(packets);
    assert packets[..0] == [] && AllEncodable(packets[..0]);
    assert forall i | 0 <= i < |packets| :: packets[i] in packets;
    assert forall i | 0 <= i < |packets| :: Encodable(packets[i].payload);
    assert StoredStream(packets[..0]) == [];
    hide *;
    ghost var untouched := buf[..];
    for i := 0 to |packets|
      invariant AllEncodable(packets[..i]) && bytes == |StoredStream(packets[..i])|
      invariant bytes <= buf.Length
      invariant buf[..bytes] == StoredStream(packets[..i]) && buf[bytes..] == untouched[bytes..]
    {
      Adjacent(packets, i);
      ghost var start, before := bytes, buf[..];
      bytes := Encode(packets[i], buf, bytes);
      TailOfTail(before, untouched, start, bytes);
    }
    assert packets[..|packets|] == packets;
  }

  // ---- reader ----

  /** The header read over the front of the buffer. */
  lemma HeaderRead(start: seq<Byte>, input: seq<Byte>, pos: nat)
    requires |start| >= 4 && (pos == 0 || (pos == 2 && start[..2] == FRAME)) && |input| >= 4 - pos
    ensures start[..pos] + input[..4 - pos] + start[4..] == HeadOf(pos == 0, input) + start[4..]
  {}

  /** The body read behind the header fills the frame. */
  lemma BodyRead(start: seq<Byte>, head: seq<Byte>, body: seq<Byte>)
    requires |head| == 4 && 4 + |body| <= |start|
    ensures var b := head + start[4..];
            b[..4] + body + b[4 + |body|..] == Filled(start, head, body)
  {}

  class ReadThread {
    var assumeLock: bool
    var bytes: array<Byte>

    constructor ()
      ensures !assumeLock && bytes.Length == USB_BUFFER && fresh(bytes)
    {
      assumeLock := false;
      bytes := new Byte[USB_BUFFER](_ => 0);
    }

    /** pos is 2 right after locking and 0 when the lock was already assumed. */
    ghost function State(pos: nat): Reader
      reads this, bytes
    {
      Reader(assumeLock, pos == 0, bytes[..], 0)
    }

    /** One turn of the loops that look for the frame bytes: one or two bytes are read; false when the wire blocks. */
    method TryLock(ghost t: Table, wire: seq<Byte>, at: nat) returns (read: bool, next: nat, pos: nat)
      requires at <= |wire| && bytes.Length == USB_BUFFER
      modifies bytes
      ensures at <= next <= |wire| && (read ==> at < next)
      ensures pos == 0 || (pos == 2 && read && bytes[..2] == FRAME)
      ensures var log := ReadAll(Usb, t, Reader(false, true, old(bytes[..]), 0), wire[at..]);
              log == if read then ReadAll(Usb, t, Reader(pos == 2, pos == 0, bytes[..], 0), wire[next..])
                     else ReadLog([], 0, Waiting(false, wire[at..]))
    {
      hide LockedPass;
      if at == |wire| {
        return false, at, 0;
      }
      assert wire[at..][1..] == wire[at + 1..];
      ghost var start := bytes[..];
      bytes[0] := wire[at];
      if bytes[0] != FRAME[0] {
        FrontIrrelevant(Usb, t, Reader(false, false, start, 0), Reader(false, true, bytes[..], 0), wire[at + 1..]);
        return true, at + 1, 0;
      }
      if at + 1 == |wire| {
        return false, at, 0;
      }
      assert wire[at..][2..] == wire[at + 2..];
      bytes[1] := wire[at + 1];
      pos := if bytes[1] == FRAME[1] then 2 else 0;
      FrontIrrelevant(Usb, t, Reader(pos == 2, false, start, 0), Reader(pos == 2, pos == 0, bytes[..], 0), wire[at + 2..]);
      return true, at + 2, pos;
    }

    /** do_read: len bytes of the wire into the buffer at pos. */
    method DoRead(wire: seq<Byte>, at: nat, pos: nat, len: nat)
      requires at + len <= |wire| && pos + len <= bytes.Length
      modifies bytes
      ensures bytes[..] == old(bytes[..pos]) + wire[at..at + len] + old(bytes[pos + len..])
    {
      ghost var start := bytes[..];
      for i := 0 to len
        invariant forall j | 0 <= j < bytes.Length ::
                    bytes[j] == if pos <= j < pos + i then wire[at + j - pos] else start[j]
      {
        bytes[pos + i] := wire[at + i];
      }
      assert bytes[pos..pos + len] == wire[at..at + len];
      assert bytes[..] == bytes[..pos] + bytes[pos..pos + len] + bytes[pos + len..];
      assert bytes[..pos] == start[..pos] && bytes[pos + len..] == start[pos + len..];
    }

    /** The header, the body, Packet::from_data and the formatting of the result, once the frame bytes are in the buffer or a lock is assumed. */
    method ReadFrame(t: Table, wire: seq<Byte>, at: nat, pos: nat) returns (s: Pass)
      requires at <= |wire| && assumeLock && bytes.Length == USB_BUFFER
      requires pos == 0 || (pos == 2 && bytes[..2] == FRAME)
      modifies this`assumeLock, bytes
      ensures s == LockedPass(Usb, t, old(State(pos)), wire[at..])
      ensures s.Lost? || s.Frame? ==> bytes[..] == s.next.buf && assumeLock == s.next.locked && s.next.sent == 0
    {
      hide FromData;
      hide ReadU16;
      hide Filled;
      hide HeadOf;
      ghost var start, input := bytes[..], wire[at..];
      var k := 4 - pos;
      if |wire| - at < k {
        return Blocked;
      }
      DoRead(wire, at, pos, k);
      ghost var head := HeadOf(pos == 0, input);
      HeaderRead(start, input, pos);
      assert wire[at..at + k] == input[..k];
      assert bytes[..] == head + start[4..];
      assert bytes[2..4] == head[2..];
      var n: nat := ReadU16(bytes[2..4]);
      if n < 4 || n > USB_BUFFER {
        return Died;
      }
      if |wire| - at - k < n - 4 {
        return Blocked;
      }
      DoRead(wire, at + k, 4, n - 4);
      SliceOfTail(wire, at, k, k + n - 4);
      BodyRead(start, head, input[k..k + n - 4]);
      match FromData(t, bytes[..n]) {
        case Ok(p) => s := if Printable(p.payload) then Frame(p, Reader(true, true, bytes[..], 0), k + n - 4) else Died;
        case NoValue =>
          assumeLock := false;
          s := Lost(Reader(false, pos == 0, bytes[..], 0), k + n - 4);
        case Panics => s := Died;
      }
    }

    /** The loop of start_usb_read_thread on a wire that delivers these bytes and then blocks. */
    method Run(t: Table, wire: seq<Byte>) returns (sent: seq<Packet>, losses: nat, died: bool)
      requires bytes.Length == USB_BUFFER
      modifies this`assumeLock, bytes
      ensures var log := ReadAll(Usb, t, old(State(0)), wire);
              sent == log.packets && losses == log.losses && (died <==> log.end == Dead)
    {
      hide LockedPass;
      hide ReadAll;
      sent, losses, died := [], 0, false;
      var at, pos, alive := 0, 0, true;
      ghost var log := ReadAll(Usb, t, State(0), wire);
      assert wire[0..] == wire;
      while alive
        invariant at <= |wire| && bytes.Length == USB_BUFFER
        invariant pos == 0 || (pos == 2 && assumeLock && bytes[..2] == FRAME)
        invariant alive ==> !died
        invariant if alive then
                    var more := ReadAll(Usb, t, State(pos), wire[at..]);
                    log == Continued(ReadLog(sent, losses, log.end), more)
                  else log.packets == sent && log.losses == losses && (died <==> log.end == Dead)
        decreases |wire| - at, alive
      {
        if !assumeLock {
          alive, at, pos := TryLock(t, wire, at);
          assumeLock := pos == 2;
        } else {
          ghost var r := State(pos);
          var s := ReadFrame(t, wire, at, pos);
          AfterPass(Usb, t, r, wire[at..], s);
          if s.Frame? {
            FrameUses(Usb, t, r, wire[at..]);
          }
          pos := 0;
          if s.Lost? || s.Frame? {
            assert wire[at..][s.used..] == wire[at + s.used..];
            at := at + s.used;
            FrontIrrelevant(Usb, t, s.next, State(0), wire[at..]);
            if s.Frame? {
              sent := sent + [s.packet];
            } else {
              losses := losses + 1;
            }
          } else {
            alive, died := false, s.Died?;
          }
        }
      }
    }
  }
}
