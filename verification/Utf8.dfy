/** What String::from_utf8 accepts. */
module Utf8 {
  import opened Bytes

  predicate Continues(b: Byte) {
    0x80 <= b <= 0xBF
  }

  /** The well-formed byte sequences of section 4 of RFC 3629. */
  predicate IsUtf8(b: seq<Byte>)
    decreases |b|
  {
    b == []
    || (b[0] < 0x80 && IsUtf8(b[1..]))
    || (|b| >= 2 && 0xC2 <= b[0] <= 0xDF && Continues(b[1]) && IsUtf8(b[2..]))
    || (|b| >= 3 && Continues(b[1]) && Continues(b[2])
        && 0xE0 <= b[0] <= 0xEF && (b[0] == 0xE0 ==> b[1] >= 0xA0) && (b[0] == 0xED ==> b[1] <= 0x9F)
        && IsUtf8(b[3..]))
    || (|b| >= 4 && Continues(b[1]) && Continues(b[2]) && Continues(b[3])
        && 0xF0 <= b[0] <= 0xF4 && (b[0] == 0xF0 ==> b[1] >= 0x90) && (b[0] == 0xF4 ==> b[1] <= 0x8F)
        && IsUtf8(b[4..]))
  }

  /** The characters: all numbers but the surrogates. */
  predicate IsScalar(c: int) {
    0 <= c < 0x11_0000 && !(0xD800 <= c < 0xE000)
  }

  predicate IsText(cs: seq<int>) {
    forall c | c in cs :: IsScalar(c)
  }

  /** One character, by section 3 of RFC 3629. */
  function CharBytes(c: int): seq<Byte>
    requires IsScalar(c)
  {
    var d := c / 0x40;
    if c < 0x80 then [c]
    else if c < 0x800 then [0xC0 + d, 0x80 + c % 0x40]
    else if c < 0x1_0000 then [0xE0 + d / 0x40, 0x80 + d % 0x40, 0x80 + c % 0x40]
    else [0xF0 + d / 0x40 / 0x40, 0x80 + d / 0x40 % 0x40, 0x80 + d % 0x40, 0x80 + c % 0x40]
  }

  function TextBytes(cs: seq<int>): seq<Byte>
    requires IsText(cs)
  {
    if cs == [] then [] else CharBytes(cs[0]) + TextBytes(cs[1..])
  }

  lemma CharThenText(c: int, rest: seq<Byte>)
    requires IsScalar(c) && IsUtf8(rest)
    ensures IsUtf8(CharBytes(c) + rest)
  {
    var b := CharBytes(c) + rest;
    assert b[|CharBytes(c)|..] == rest;
  }

  lemma {:induction false} TextIsUtf8(cs: seq<int>)
    requires IsText(cs)
    ensures IsUtf8(TextBytes(cs))
  {
    if cs == [] {
    } else {
      TextIsUtf8(cs[1..]);
      CharThenText(cs[0], TextBytes(cs[1..]));
    }
  }

  lemma Digits(high: int, low: int)
    requires 0 <= low < 0x40
    ensures (high * 0x40 + low) / 0x40 == high && (high * 0x40 + low) % 0x40 == low
  {}

  lemma FirstOfFour(b: seq<Byte>) returns (c: int)
    requires IsUtf8(b) && b != [] && b[0] >= 0xF0
    ensures |b| >= 4 && IsScalar(c) && CharBytes(c) == b[..4] && IsUtf8(b[4..])
  {
    var high: int, x: int, y: int, z: int := b[0] - 0xF0, b[1] - 0x80, b[2] - 0x80, b[3] - 0x80;
    Digits(high, x);
    Digits(high * 0x40 + x, y);
    c := ((high * 0x40 + x) * 0x40 + y) * 0x40 + z;
    Digits((high * 0x40 + x) * 0x40 + y, z);
    assert 0x1_0000 <= c < 0x11_0000;
  }

  /** The first character and where it ends. */
  lemma FirstChar(b: seq<Byte>) returns (c: int, n: nat)
    requires IsUtf8(b) && b != []
    ensures IsScalar(c) && 0 < n <= |b| && CharBytes(c) == b[..n] && IsUtf8(b[n..])
  {
    var lead: int := b[0];
    if lead < 0x80 {
      return lead, 1;
    }
    var x: int := b[1] - 0x80;
    if lead < 0xE0 {
      Digits(lead - 0xC0, x);
      return (lead - 0xC0) * 0x40 + x, 2;
    }
    var y: int := b[2] - 0x80;
    if lead < 0xF0 {
      c := ((lead - 0xE0) * 0x40 + x) * 0x40 + y;
      Digits(lead - 0xE0, x);
      Digits((lead - 0xE0) * 0x40 + x, y);
      assert 0x800 <= c < 0x1_0000;
      return c, 3;
    }
    c := FirstOfFour(b);
    n := 4;
  }

  /** The two sections agree: the byte sequences accepted are exactly the encodings of texts. */
  lemma {:induction false} Utf8Exactly(b: seq<Byte>)
    ensures IsUtf8(b) <==> exists cs :: IsText(cs) && TextBytes(cs) == b
    decreases |b|
  {
    if IsUtf8(b) {
      if b == [] {
        assert IsText([]) && TextBytes([]) == b;
      } else {
        var c, n := FirstChar(b);
        Utf8Exactly(b[n..]);
        hide IsUtf8;
        var rest :| IsText(rest) && TextBytes(rest) == b[n..];
        assert ([c] + rest)[1..] == rest && b == b[..n] + b[n..];
        assert IsText([c] + rest) && TextBytes([c] + rest) == b;
      }
    }
    forall cs | IsText(cs) && TextBytes(cs) == b
      ensures IsUtf8(b)
    {
      TextIsUtf8(cs);
    }
  }
}
