/** The Internet checksum routines of JpcapSender.c against RFC 1071. */
module Checksum {
  import opened Bytes

  /** Byte order of the machine the C code runs on. */
  datatype Host = LittleEndian | BigEndian

  /** The value the host reads from two adjacent octets. */
  function Word(host: Host, a: u8, b: u8): u16 {
    match host
    case LittleEndian => a + 0x100 * b
    case BigEndian => 0x100 * a + b
  }

  /** The two octets a host store of the 16-bit value v leaves in memory. */
  function Store(host: Host, v: u16): (s: seq<u8>)
    ensures |s| == 2 && Word(host, s[0], s[1]) == v
  {
    match host
    case LittleEndian => [Lo(v), Hi(v)]
    case BigEndian => [Hi(v), Lo(v)]
  }

  function Swap(v: u16): u16 { 0x100 * (v % 0x100) + v / 0x100 }

  /** htons and ntohs, which are the same function. */
  function Htons(host: Host, v: u16): (r: u16)
    ensures Store(host, r) == BE16(v)
  {
    BE16Is(v);
    match host
    case LittleEndian => Swap(v)
    case BigEndian => v
  }

  // ---- RFC 1071 -------------------------------------------------------------

  /** Sum of the 16-bit words of s as the host reads them; an odd last octet is
      padded with a zero octet on its right (section 1 of RFC 1071). */
  function Sum(host: Host, s: seq<u8>): nat
    decreases |s|
  {
    if |s| == 0 then 0
    else if |s| == 1 then Word(host, s[0], 0)
    else Word(host, s[0], s[1]) + Sum(host, s[2..])
  }

  /** One's complement sum: carries are wrapped around until none is left. */
  function Fold(n: nat): (r: u16)
    decreases n
  {
    if n < 0x1_0000 then n else Fold(n / 0x1_0000 + n % 0x1_0000)
  }

  /** The checksum of section 1 of RFC 1071, on big-endian words. */
  function Rfc1071(s: seq<u8>): u16 { 0xffff - Fold(Sum(BigEndian, s)) }

  /** A region that carries its checksum verifies when it sums to all ones. */
  predicate Verifies(s: seq<u8>) { Fold(Sum(BigEndian, s)) == 0xffff }

  // ---- the C routines ---------------------------------------------------------

  /** The last two lines of both routines: two folds and a complement. */
  function TwoFolds(sum: nat): u16 {
    var once := sum % 0x1_0000 + sum / 0x1_0000;
    0xffff - (once / 0x1_0000 + once % 0x1_0000) % 0x1_0000
  }

  /** The octets in_cksum really sums: with an odd size, a little-endian host
      drops the last octet and takes the one after the region instead. */
  ghost function Seen(host: Host, s: seq<u8>, next: seq<u8>): seq<u8>
    requires |s| % 2 == 1 ==> |next| == 1
  {
    if |s| % 2 == 1 && host == LittleEndian then s[..|s| - 1] + [0] + next else s
  }

  /** The octets in_cksum2 really sums: with an odd size, a big-endian host
      takes the last octet as the low half of its word. */
  ghost function Seen2(host: Host, s: seq<u8>): (r: seq<u8>)
    ensures |r| <= |s| + 1
  {
    if |s| % 2 == 1 && host == BigEndian then s[..|s| - 1] + [0, s[|s| - 1]] else s
  }

  function MaskHigh(v: u16): u16 { v - v % 0x100 }

  lemma SumStep(host: Host, s: seq<u8>)
    requires |s| >= 2
    ensures Sum(host, s) == Word(host, s[0], s[1]) + Sum(host, s[2..])
  {}

  /** The loop both routines share: the words that lie wholly in the region. */
  method AddWords(host: Host, m: array<u8>, off: nat, size: nat, start: nat) returns (sum: nat)
    requires off + size <= m.Length
    ensures sum == start + Sum(host, m[off..off + size - size % 2])
  {
    sum := start;
    var data, left := off, size;
    ghost var words, odd := size / 2, size % 2;
    while left > 1
      invariant left == 2 * words + odd && data + left == off + size
      invariant sum + Sum(host, m[data..off + size - odd]) == start + Sum(host, m[off..off + size - odd])
    {
      SumStep(host, m[data..off + size - odd]);
      assert m[data..off + size - odd][2..] == m[data + 2..off + size - odd];
      sum := sum + Word(host, m[data], m[data + 1]);
      data := data + 2;
      left := left - 2;
      words := words - 1;
    }
  }

  // ---- arithmetic modulo 65535 -----------------------------------------------

  /** Wrapping carries around changes a sum by multiples of 65535 only, and never
      turns a positive sum into zero. */
  lemma {:induction false} FoldIsResidue(n: nat) returns (k: nat)
    ensures n == Fold(n) + 0xffff * k
    ensures Fold(n) == 0 <==> n == 0
    decreases n
  {
    if n < 0x1_0000 {
      k := 0;
    } else {
      var rest := FoldIsResidue(n / 0x1_0000 + n % 0x1_0000);
      k := rest + n / 0x1_0000;
    }
  }

  lemma Multiples(x: u16, y: u16, k: int, j: int)
    requires x + 0xffff * k == y + 0xffff * j && (x == 0 <==> y == 0)
    ensures x == y
  {}

  /** A value in 0..65535 congruent to n, and zero exactly when n is, is the
      one's complement sum of n. */
  lemma FoldUnique(n: nat, x: u16, k: int)
    requires n == x + 0xffff * k && (x == 0 <==> n == 0)
    ensures Fold(n) == x
  {
    var j := FoldIsResidue(n);
    Multiples(x, Fold(n), k, j);
  }

  /** Two folds suffice for every raw sum that fits 32 bits. */
  lemma TwoFoldsSuffice(sum: nat)
    requires sum < 0x1_0000_0000
    ensures TwoFolds(sum) == 0xffff - Fold(sum)
  {
    var once := sum % 0x1_0000 + sum / 0x1_0000;
    var twice := once / 0x1_0000 + once % 0x1_0000;
    assert twice < 0x1_0000;
    FoldUnique(sum, twice, once / 0x1_0000 + sum / 0x1_0000);
  }

  /** Swapping the octets of a word is multiplication by 256 modulo 65535. */
  lemma SwapIsTimes256(v: u16)
    ensures 0x100 * v == Swap(v) + 0xffff * (v / 0x100)
  {}

  lemma {:induction false} SumsDifferBy(s: seq<u8>) returns (k: nat)
    ensures 0x100 * Sum(LittleEndian, s) == Sum(BigEndian, s) + 0xffff * k
    ensures Sum(LittleEndian, s) == 0 <==> Sum(BigEndian, s) == 0
    decreases |s|
  {
    if |s| < 2 {
      k := 0;
    } else {
      var rest := SumsDifferBy(s[2..]);
      k := rest + s[1];
    }
  }

  /** Section 2(B) of RFC 1071: summing in the other byte order gives the
      swapped sum, so the host's sum is the swapped big-endian sum. */
  lemma ByteOrderIndependence(s: seq<u8>)
    ensures Fold(Sum(BigEndian, s)) == Swap(Fold(Sum(LittleEndian, s)))
  {
    var d := SumsDifferBy(s);
    var k := FoldIsResidue(Sum(LittleEndian, s));
    var f := Fold(Sum(LittleEndian, s));
    SwapIsTimes256(f);
    FoldUnique(Sum(BigEndian, s), Swap(f), f / 0x100 + 0x100 * k - d);
  }

  lemma {:induction false} SumBound(host: Host, s: seq<u8>)
    ensures Sum(host, s) <= (|s| + 1) / 2 * 0xffff
    decreases |s|
  {
    if |s| >= 2 { SumBound(host, s[2..]); }
  }

  lemma HiLo(h: u8, l: u8)
    ensures Hi(0x100 * h + l) == h && Lo(0x100 * h + l) == l
  {}

  lemma StoreSwapped(f: u16)
    ensures Store(LittleEndian, 0xffff - f) == BE16(0xffff - Swap(f))
  {
    var h, l := f / 0x100, f % 0x100;
    assert f == 0x100 * h + l && Swap(f) == 0x100 * l + h;
    HiLo(0xff - h, 0xff - l);
    HiLo(0xff - l, 0xff - h);
  }

  lemma StoredIsRfc1071(host: Host, s: seq<u8>)
    requires |s| <= 0x2_0000
    ensures Store(host, TwoFolds(Sum(host, s))) == BE16(Rfc1071(s))
  {
    SumBound(host, s);
    TwoFoldsSuffice(Sum(host, s));
    if host == LittleEndian {
      ByteOrderIndependence(s);
      StoreSwapped(Fold(Sum(host, s)));
    }
  }

  // ---- in_cksum --------------------------------------------------------------

  /** The closing lines of both routines. */
  method Finish(host: Host, sum: nat, ghost s: seq<u8>) returns (r: u16)
    requires sum == Sum(host, s)
    ensures |s| <= 0x2_0000 ==> Store(host, r) == BE16(Rfc1071(s))
  {
    var once := sum % 0x1_0000 + sum / 0x1_0000;
    r := 0xffff - (once / 0x1_0000 + once % 0x1_0000) % 0x1_0000;
    assert r == TwoFolds(sum);
    if |s| <= 0x2_0000 { StoredIsRfc1071(host, s); }
  }

  lemma MaskedWord(host: Host, a: u8, b: u8)
    ensures MaskHigh(Word(host, a, b))
         == if host == LittleEndian then Word(host, 0, b) else Word(host, a, 0)
  {}

  lemma {:induction false} SumConcat(host: Host, a: seq<u8>, b: seq<u8>)
    requires |a| % 2 == 0
    ensures Sum(host, a + b) == Sum(host, a) + Sum(host, b)
    decreases |a|
  {
    if a == [] {
      assert a + b == b;
    } else {
      assert (a + b)[2..] == a[2..] + b;
      SumConcat(host, a[2..], b);
    }
  }

  lemma SeenSum(host: Host, s: seq<u8>, next: seq<u8>)
    requires |next| == |s| % 2
    ensures Sum(host, Seen(host, s, next))
         == Sum(host, s[..|s| - |s| % 2])
          + if |s| % 2 == 0 then 0 else MaskHigh(Word(host, s[|s| - 1], next[0]))
  {
    if |s| % 2 == 0 {
      assert s[..|s|] == s;
    } else {
      var even, tail := s[..|s| - 1], if host == LittleEndian then [0] + next else [s[|s| - 1]];
      assert Seen(host, s, next) == even + tail;
      hide Word, Seen;
      SumConcat(host, even, tail);
      MaskedWord(host, s[|s| - 1], next[0]);
      assert Sum(host, tail) == MaskHigh(Word(host, s[|s| - 1], next[0]));
    }
  }

  /** in_cksum (JpcapSender.c:338-350).  The result, stored by the host, is the
      big-endian RFC 1071 checksum of the octets seen. */
  method InCksum(host: Host, m: array<u8>, off: nat, size: nat) returns (r: u16)
    requires off + size + size % 2 <= m.Length
    ensures size <= 0x1_fffe ==>
              Store(host, r) == BE16(Rfc1071(Seen(host, m[off..off + size], m[off + size..off + size + size % 2])))
  {
    var sum := AddWords(host, m, off, size, 0);
    ghost var s, next := m[off..off + size], m[off + size..off + size + size % 2];
    assert m[off..off + size - size % 2] == s[..size - size % 2];
    if size % 2 > 0 {
      sum := sum + MaskHigh(Word(host, m[off + size - 1], m[off + size]));
    }
    SeenSum(host, s, next);
    r := Finish(host, sum, Seen(host, s, next));
  }

  // ---- in_cksum2 -------------------------------------------------------------

  /** The pseudo-header of section 3.1 of RFC 793 and of RFC 768. */
  function Pseudo(addresses: seq<u8>, protocol: u8, length: u16): seq<u8> {
    addresses + [0, protocol] + BE16(length)
  }

  /** The words in_cksum2 starts from: two addresses, protocol and length. */
  function PseudoWords(host: Host, a: seq<u8>, protocol: u8, length: u16): nat
    requires |a| == 8
  {
    Word(host, a[0], a[1]) + Word(host, a[2], a[3]) + Word(host, a[4], a[5])
    + Word(host, a[6], a[7]) + Htons(host, protocol) + length
  }

  lemma Seen2Sum(host: Host, s: seq<u8>)
    ensures Sum(host, Seen2(host, s))
         == Sum(host, s[..|s| - |s| % 2]) + if |s| % 2 == 0 then 0 else s[|s| - 1]
  {
    if |s| % 2 == 0 {
      assert s[..|s|] == s;
    } else {
      var even, last := s[..|s| - 1], s[|s| - 1];
      var tail := if host == BigEndian then [0, last] else [last];
      assert Seen2(host, s) == even + tail;
      SumConcat(host, even, tail);
    }
  }

  lemma OctetIs(v: u8)
    ensures Hi(v) == 0 && Lo(v) == v
  {}

  lemma SumOfNone(host: Host)
    ensures Sum(host, []) == 0
  {}

  lemma HtonsStored(host: Host, v: u16)
    ensures Word(host, Hi(v), Lo(v)) == Htons(host, v) && Htons(host, Htons(host, v)) == v
  {}

  lemma SumOf2(host: Host, w: seq<u8>, rest: seq<u8>)
    requires |w| == 2
    ensures Sum(host, w + rest) == Word(host, w[0], w[1]) + Sum(host, rest)
    ensures Sum(host, w) == Word(host, w[0], w[1])
  {
    assert (w + rest)[2..] == rest;
  }

  lemma SumOf8(host: Host, a: seq<u8>)
    requires |a| == 8
    ensures Sum(host, a) == Word(host, a[0], a[1]) + Word(host, a[2], a[3])
                          + Word(host, a[4], a[5]) + Word(host, a[6], a[7])
  {
    assert a == a[..2] + a[2..] && a[2..] == a[2..4] + a[4..] && a[4..] == a[4..6] + a[6..];
    SumOf2(host, a[..2], a[2..]);
    SumOf2(host, a[2..4], a[4..]);
    SumOf2(host, a[4..6], a[6..]);
    SumStep(host, a[6..]);
  }

  lemma PseudoSum(host: Host, a: seq<u8>, protocol: u8, length: u16)
    requires |a| == 8
    ensures |Pseudo(a, protocol, Htons(host, length))| == 12
    ensures Sum(host, Pseudo(a, protocol, Htons(host, length))) == PseudoWords(host, a, protocol, length)
  {
    var n := Htons(host, length);
    var w5, w6 := [0, protocol], BE16(n);
    BE16Is(n);
    HtonsStored(host, protocol);
    HtonsStored(host, n);
    OctetIs(protocol);
    HtonsStored(host, length);
    hide BE16, Word, Hi, Lo, Htons, Sum;
    assert Pseudo(a, protocol, n) == a + (w5 + w6);
    SumConcat(host, a, w5 + w6);
    SumOf2(host, w5, w6);
    SumOf2(host, w6, []);
    assert w6 + [] == w6;
    SumOf8(host, a);
    SumOfNone(host);
  }

  /** in_cksum2 (JpcapSender.c:352-378): addresses and protocol come from the IP
      header at ip, `length` is already in network order. */
  method InCksum2(host: Host, m: array<u8>, ip: nat, length: u16, off: nat, size: nat)
    returns (r: u16)
    requires ip + 20 <= m.Length && off + size <= m.Length
    ensures size <= 0x1_fff0 ==>
              Store(host, r) == BE16(Rfc1071(Pseudo(m[ip + 12..ip + 20], m[ip + 9], Htons(host, length))
                                             + Seen2(host, m[off..off + size])))
  {
    hide *;
    var sum: nat := PseudoWords(host, m[ip + 12..ip + 20], m[ip + 9], length);
    ghost var pseudo := Pseudo(m[ip + 12..ip + 20], m[ip + 9], Htons(host, length));
    PseudoSum(host, m[ip + 12..ip + 20], m[ip + 9], length);
    sum := AddWords(host, m, off, size, sum);
    ghost var s := m[off..off + size];
    assert m[off..off + size - size % 2] == s[..size - size % 2];
    if size % 2 > 0 {
      sum := sum + m[off + size - 1];
    }
    Seen2Sum(host, s);
    SumConcat(host, pseudo, Seen2(host, s));
    r := Finish(host, sum, pseudo + Seen2(host, s));
  }

  // ---- what the checksum promises -----------------------------------------------

  lemma VerifiesArithmetic(zeroed: nat, f: u16, k: int, n: nat, g: u16, j: int, field: u16)
    requires zeroed == f + 0xffff * k && n == g + 0xffff * j && n == zeroed + field
    requires (f == 0 <==> zeroed == 0) && (g == 0 <==> n == 0)
    ensures g == 0xffff <==>
              field == 0xffff - f || (f == 0xffff && field == 0xffff) || (f == 0 && field == 0 && zeroed != 0)
  {
    assert g == f + field + 0xffff * (k - j);
  }

  predicate AllZero(s: seq<u8>) { forall i :: 0 <= i < |s| ==> s[i] == 0 }

  lemma HiLoJoin(v: u16)
    ensures Word(BigEndian, Hi(v), Lo(v)) == v
  {}

  lemma SumWithField(before: seq<u8>, field: u16, after: seq<u8>)
    requires |before| % 2 == 0
    ensures Sum(BigEndian, before + BE16(field) + after)
         == Sum(BigEndian, before) + field + Sum(BigEndian, after)
  {
    BE16Is(field);
    HiLoJoin(field);
    assert before + BE16(field) + after == before + (BE16(field) + after);
    SumConcat(BigEndian, before, BE16(field) + after);
    SumOf2(BigEndian, BE16(field), after);
  }

  lemma {:induction false} ZeroSum(s: seq<u8>)
    ensures Sum(BigEndian, s) == 0 <==> AllZero(s)
    decreases |s|
  {
    if |s| >= 2 {
      ZeroSum(s[2..]);
      assert s == s[..2] + s[2..];
      assert AllZero(s) <==> s[0] == 0 && s[1] == 0 && AllZero(s[2..]);
    }
  }

  /** With the field zeroed, exactly the values congruent to the RFC 1071
      checksum make the region verify: the checksum itself, and its other
      one's complement zero. */
  lemma VerifiesIff(before: seq<u8>, field: u16, after: seq<u8>)
    requires |before| % 2 == 0
    ensures var c := Rfc1071(before + [0, 0] + after);
            Verifies(before + BE16(field) + after) <==>
              field == c || (c == 0 && field == 0xffff) || (c == 0xffff && field == 0 && !AllZero(before + after))
  {
    BE16Is(0);
    var zeroed, n := Sum(BigEndian, before + BE16(0) + after), Sum(BigEndian, before + BE16(field) + after);
    SumWithField(before, field, after);
    SumWithField(before, 0, after);
    ZeroSum(before + after);
    SumConcat(BigEndian, before, after);
    var k := FoldIsResidue(zeroed);
    var j := FoldIsResidue(n);
    VerifiesArithmetic(zeroed, Fold(zeroed), k, n, Fold(n), j, field);
  }

  lemma SameFoldIff(n: nat, a: u16, b: u16)
    requires a < 0xffff && b < 0xffff
    ensures Fold(n + a) == Fold(n + b) <==> a == b
  {
    var k := FoldIsResidue(n + a);
    var j := FoldIsResidue(n + b);
    hide *;
    if Fold(n + a) == Fold(n + b) {
      assert a - b == 0xffff * (k - j);
    }
  }

  /** in_cksum with an odd size on a little-endian host is right exactly when
      the last octet and the one after the region are both zero. */
  lemma OddInCksumExact(s: seq<u8>, next: u8)
    requires |s| % 2 == 1
    ensures Rfc1071(Seen(LittleEndian, s, [next])) == Rfc1071(s) <==> s[|s| - 1] == 0 && next == 0
  {
    var even, last := s[..|s| - 1], s[|s| - 1];
    assert s == even + [last] && even + [0] + [next] == even + [0, next];
    SumConcat(BigEndian, even, [last]);
    SumConcat(BigEndian, even, [0, next]);
    SameFoldIff(Sum(BigEndian, even), next, Word(BigEndian, last, 0));
  }

  /** in_cksum2 with an odd size on a big-endian host is right exactly when the
      last octet is zero. */
  lemma OddInCksum2Exact(pseudo: seq<u8>, s: seq<u8>)
    requires |s| % 2 == 1 && |pseudo| % 2 == 0
    ensures Rfc1071(pseudo + Seen2(BigEndian, s)) == Rfc1071(pseudo + s) <==> s[|s| - 1] == 0
  {
    var even, last := s[..|s| - 1], s[|s| - 1];
    assert s == even + [last];
    SumConcat(BigEndian, pseudo, s);
    SumConcat(BigEndian, pseudo, Seen2(BigEndian, s));
    SumConcat(BigEndian, even, [last]);
    SumConcat(BigEndian, even, [0, last]);
    SameFoldIff(Sum(BigEndian, pseudo) + Sum(BigEndian, even), last, Word(BigEndian, last, 0));
  }
}
