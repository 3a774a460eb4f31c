/** Octets, fixed-width integers and their network (big-endian) encodings.

    All machine integers are modelled as mathematical integers; a truncating
    cast of the original is written out as `% 2^n`.  Dafny's `/` and `%` round
    towards minus infinity for a positive divisor, so `v / 256 % 256` is the
    next octet of the two's complement representation of a negative `v` too. */
module Bytes {

  type u8 = x: int | 0 <= x < 0x100
  type u16 = x: int | 0 <= x < 0x1_0000
  type i8 = x: int | -0x80 <= x < 0x80
  type i16 = x: int | -0x8000 <= x < 0x8000
  type i32 = x: int | -0x8000_0000 <= x < 0x8000_0000
  type i64 = x: int | -0x8000_0000_0000_0000 <= x < 0x8000_0000_0000_0000

  function Hi(v: int): u8 { v / 0x100 % 0x100 }

  function Lo(v: int): u8 { v % 0x100 }

  function Half(v: int, i: nat): u8 { if i == 0 then Hi(v) else Lo(v) }

  // ---- encoding -----------------------------------------------------------

  /** High octet first. */
  function BE16(v: int): (s: seq<u8>)
    ensures |s| == 2
  {
    seq(2, i requires 0 <= i < 2 => Half(v, i))
  }

  function BE32(v: int): (s: seq<u8>)
    ensures |s| == 4
  {
    BE16(v / 0x1_0000) + BE16(v)
  }

  function BE64(v: int): (s: seq<u8>)
    ensures |s| == 8
  {
    BE32(v / 0x1_0000_0000) + BE32(v)
  }

  // ---- decoding -----------------------------------------------------------

  function U16(s: seq<u8>, o: nat): (v: u16)
    requires o + 2 <= |s|
  {
    var hi: int, lo: int := s[o], s[o + 1];
    0x100 * hi + lo
  }

  function U32(s: seq<u8>, o: nat): int
    requires o + 4 <= |s|
  {
    var hi: int, lo: int := U16(s, o), U16(s, o + 2);
    0x1_0000 * hi + lo
  }

  function U64(s: seq<u8>, o: nat): int
    requires o + 8 <= |s|
  {
    0x1_0000_0000 * U32(s, o) + U32(s, o + 4)
  }

  // ---- two's complement reinterpretation (C and Java narrowing casts) -------

  function ToI8(v: int): i8 { (v + 0x80) % 0x100 - 0x80 }

  function ToI16(v: int): i16 { (v + 0x8000) % 0x1_0000 - 0x8000 }

  function ToI32(v: int): i32 { (v + 0x8000_0000) % 0x1_0000_0000 - 0x8000_0000 }

  function ToI64(v: int): i64 {
    (v + 0x8000_0000_0000_0000) % 0x1_0000_0000_0000_0000 - 0x8000_0000_0000_0000
  }

  lemma BE16Is(v: int)
    ensures BE16(v) == [Hi(v), Lo(v)]
  {}

  // ---- round trips --------------------------------------------------------

  lemma JoinOctets(v: int)
    ensures 0x100 * (v / 0x100 % 0x100) + v % 0x100 == v % 0x1_0000
  {}

  lemma RoundTrip16(s: seq<u8>, o: nat, v: int)
    requires o + 2 <= |s| && s[o..o + 2] == BE16(v)
    ensures U16(s, o) == v % 0x1_0000
  {
    BE16Is(v);
    assert s[o..o + 2][0] == s[o] && s[o..o + 2][1] == s[o + 1];
    JoinOctets(v);
  }

  lemma SplitBE32(s: seq<u8>, o: nat, v: int)
    requires o + 4 <= |s| && s[o..o + 4] == BE32(v)
    ensures s[o..o + 2] == BE16(v / 0x1_0000) && s[o + 2..o + 4] == BE16(v)
  {
    hide BE16;
    var t := s[o..o + 4];
    assert s[o..o + 2] == t[..2] && s[o + 2..o + 4] == t[2..];
  }

  lemma Residue32(v: int, k: int, r: int)
    requires v == 0x1_0000_0000 * k + r && 0 <= r < 0x1_0000_0000
    ensures v % 0x1_0000_0000 == r
  {}

  lemma Residue64(v: int, k: int, r: int)
    requires v == 0x1_0000_0000_0000_0000 * k + r && 0 <= r < 0x1_0000_0000_0000_0000
    ensures v % 0x1_0000_0000_0000_0000 == r
  {}

  lemma Halves16(v: int)
    ensures v == 0x1_0000 * (v / 0x1_0000) + v % 0x1_0000 && 0 <= v % 0x1_0000 < 0x1_0000
  {}

  lemma Halves32(v: int)
    ensures v == 0x1_0000_0000 * (v / 0x1_0000_0000) + v % 0x1_0000_0000 && 0 <= v % 0x1_0000_0000 < 0x1_0000_0000
  {}

  lemma JoinWords(v: int)
    ensures 0x1_0000 * (v / 0x1_0000 % 0x1_0000) + v % 0x1_0000 == v % 0x1_0000_0000
  {
    Halves16(v);
    Halves16(v / 0x1_0000);
    Residue32(v, v / 0x1_0000 / 0x1_0000, 0x1_0000 * (v / 0x1_0000 % 0x1_0000) + v % 0x1_0000);
  }

  lemma JoinInts(v: int)
    ensures 0x1_0000_0000 * (v / 0x1_0000_0000 % 0x1_0000_0000) + v % 0x1_0000_0000 == v % 0x1_0000_0000_0000_0000
  {
    Halves32(v);
    Halves32(v / 0x1_0000_0000);
    Residue64(v, v / 0x1_0000_0000 / 0x1_0000_0000,
              0x1_0000_0000 * (v / 0x1_0000_0000 % 0x1_0000_0000) + v % 0x1_0000_0000);
  }

  lemma RoundTrip32(s: seq<u8>, o: nat, v: int)
    requires o + 4 <= |s| && s[o..o + 4] == BE32(v)
    ensures U32(s, o) == v % 0x1_0000_0000
  {
    SplitBE32(s, o, v);
    RoundTrip16(s, o, v / 0x1_0000);
    RoundTrip16(s, o + 2, v);
    hide U16, BE16;
    JoinWords(v);
  }

  lemma RoundTrip64(s: seq<u8>, o: nat, v: int)
    requires o + 8 <= |s| && s[o..o + 8] == BE64(v)
    ensures U64(s, o) == v % 0x1_0000_0000_0000_0000
  {
    hide U32, BE32;
    var t := s[o..o + 8];
    assert s[o..o + 4] == t[..4] && s[o + 4..o + 8] == t[4..];
    RoundTrip32(s, o, v / 0x1_0000_0000);
    RoundTrip32(s, o + 4, v);
    JoinInts(v);
  }
}
