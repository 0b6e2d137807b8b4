/** Machine integers of the wire format and their little-endian layout. */
module Bytes {

  type Byte = x: int | 0 <= x < 0x100
  type U16 = x: int | 0 <= x < 0x1_0000
  type I16 = x: int | -0x8000 <= x < 0x8000
  type I32 = x: int | -0x8000_0000 <= x < 0x8000_0000

  const RESPONSE_BIT: U16 := 0x8000

  /** An outcome of Rust code that returns an Option but may also panic. */
  datatype Outcome<+T> = Ok(value: T) | NoValue | Panics

  datatype Option<+T> = None | Some(value: T)

  function U16Bytes(x: U16): (b: seq<Byte>)
    ensures |b| == 2
  {
    [x % 0x100, x / 0x100]
  }

  function ReadU16(b: seq<Byte>): U16
    requires |b| == 2
  {
    b[0] as int + 0x100 * b[1] as int
  }

  /** Two's complement of a 16-bit value. */
  function I16Bytes(x: I16): (b: seq<Byte>)
    ensures |b| == 2
  {
    U16Bytes(if x < 0 then x + 0x1_0000 else x)
  }

  function ReadI16(b: seq<Byte>): I16
    requires |b| == 2
  {
    var u := ReadU16(b);
    if u < 0x8000 then u else u - 0x1_0000
  }

  /** Two's complement of a 32-bit value. */
  function I32Bytes(x: I32): (b: seq<Byte>)
    ensures |b| == 4
  {
    var u := if x < 0 then x + 0x1_0000_0000 else x;
    U16Bytes(u % 0x1_0000) + U16Bytes(u / 0x1_0000)
  }

  function ReadI32(b: seq<Byte>): I32
    requires |b| == 4
  {
    var u := ReadU16(b[..2]) as int + 0x1_0000 * ReadU16(b[2..]) as int;
    if u < 0x8000_0000 then u else u - 0x1_0000_0000
  }

  lemma U16RoundTrip(x: U16)
    ensures ReadU16(U16Bytes(x)) == x
  {}

  lemma U16BytesOfRead(b: seq<Byte>)
    requires |b| == 2
    ensures U16Bytes(ReadU16(b)) == b
  {}

  lemma I16RoundTrip(x: I16)
    ensures ReadI16(I16Bytes(x)) == x
  {}

  /** Two's complement: a signed value and its bytes, least significant first, are congruent. */
  lemma TwosComplement(b: seq<Byte>, q: seq<Byte>)
    requires |b| == 2 && |q| == 4
    ensures (b[0] + 0x100 * b[1] - ReadI16(b)) % 0x1_0000 == 0
    ensures (q[0] + 0x100 * q[1] + 0x1_0000 * q[2] + 0x100_0000 * q[3] - ReadI32(q)) % 0x1_0000_0000 == 0
  {}

  lemma I16BytesOfRead(b: seq<Byte>)
    requires |b| == 2
    ensures I16Bytes(ReadI16(b)) == b
  {}

  lemma I32RoundTrip(x: I32)
    ensures ReadI32(I32Bytes(x)) == x
  {
    var u := if x < 0 then x + 0x1_0000_0000 else x;
    var b := I32Bytes(x);
    assert b[..2] == U16Bytes(u % 0x1_0000) && b[2..] == U16Bytes(u / 0x1_0000);
    U16RoundTrip(u % 0x1_0000);
    U16RoundTrip(u / 0x1_0000);
  }

  lemma I32BytesOfRead(b: seq<Byte>)
    requires |b| == 4
    ensures I32Bytes(ReadI32(b)) == b
  {
    var lo, hi := ReadU16(b[..2]), ReadU16(b[2..]);
    var u := lo as int + 0x1_0000 * hi as int;
    assert u % 0x1_0000 == lo && u / 0x1_0000 == hi;
    U16BytesOfRead(b[..2]);
    U16BytesOfRead(b[2..]);
    assert b == b[..2] + b[2..];
  }

  // ---- BSChecksum: a wrapping byte sum ----

  function Total(s: seq<Byte>): nat {
    if s == [] then 0 else s[0] + Total(s[1..])
  }

  /** overflowing_add on a byte. */
  function Wrapped(x: nat): Byte {
    x % 0x100
  }

  function Sum(s: seq<Byte>): Byte {
    Wrapped(Total(s))
  }

  lemma {:induction false} TotalAppend(s: seq<Byte>, t: seq<Byte>)
    ensures Total(s + t) == Total(s) + Total(t)
  {
    if s == [] {
      assert s + t == t;
    } else {
      assert (s + t)[1..] == s[1..] + t;
      TotalAppend(s[1..], t);
    }
  }

  lemma TotalSnoc(s: seq<Byte>, b: Byte)
    ensures Total(s + [b]) == Total(s) + b
  {
    TotalAppend(s, [b]);
  }

  lemma {:induction false} TotalUpdate(b: seq<Byte>, i: nat, x: Byte)
    requires i < |b|
    ensures Total(b[i := x]) == Total(b) - b[i] + x
  {
    if i == 0 {
      assert b[0 := x][1..] == b[1..];
    } else {
      assert b[i := x][1..] == b[1..][i - 1 := x];
      TotalUpdate(b[1..], i - 1, x);
    }
  }

  /** A checksum sees every change of a single byte. */
  lemma OneByteSeen(b: seq<Byte>, i: nat, x: Byte)
    requires i < |b|
    ensures Sum(b[i := x]) == Sum(b) <==> x == b[i]
  {
    TotalUpdate(b, i, x);
    if Sum(b[i := x]) == Sum(b) {
      assert (x - b[i]) % 0x100 == 0;
    }
  }

  lemma AddWraps(x: nat, y: nat)
    ensures Wrapped(Wrapped(x) + y) == Wrapped(x + y)
  {
    var q, r := x / 0x100, x % 0x100;
    var d := (r + y) / 0x100;
    assert x + y == 0x100 * (q + d) + (r + y) % 0x100;
  }

  lemma EmptyTotal()
    ensures Total([]) == 0
  {}

  /** What a checksum object holds goes on as the sum of all it has consumed. */
  lemma Consumed(seen: seq<Byte>, more: seq<Byte>)
    ensures (Total(seen) % 0x100 + Total(more)) % 0x100 == Total(seen + more) % 0x100
  {
    TotalAppend(seen, more);
    AddWraps(Total(seen), Total(more));
  }

  /** The checksum object of packet.rs: consume_u8, consume_bytes and consume_vec_bytes fold bytes into value. */
  class BSChecksum {
    var value: Byte

    constructor ()
      ensures value == 0
    {
      value := 0;
    }

    method ConsumeBytes(bytes: seq<Byte>)
      modifies this
      ensures value == (old(value) + Total(bytes)) % 0x100
    {
      ghost var start := value;
      assert bytes[..0] == [];
      for i := 0 to |bytes|
        invariant value == Wrapped(start + Total(bytes[..i]))
      {
        TotalSnoc(bytes[..i], bytes[i]);
        assert bytes[..i + 1] == bytes[..i] + [bytes[i]];
        AddWraps(start + Total(bytes[..i]), bytes[i]);
        value := Wrapped(value + bytes[i]);
      }
      assert bytes[..|bytes|] == bytes;
    }
  }
}
