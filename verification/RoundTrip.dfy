/** The analyser undoes the builder. */
module RoundTrip {
  import opened Bytes
  import opened Checksum
  import opened Packets
  import opened Sender
  import opened Captor

  // ---- single octets and words ---------------------------------------------------

  lemma Nibble(b3: bool, b2: bool, b1: bool, b0: bool)
    ensures var n := Bit(b3, 8) + Bit(b2, 4) + Bit(b1, 2) + Bit(b0, 1);
            TestBit(n, 8) == b3 && TestBit(n, 4) == b2 && TestBit(n, 2) == b1 && TestBit(n, 1) == b0
  {}

  /** Adding an even number to the quotient leaves the bit alone. */
  lemma SameBit(v: nat, lo: nat, weight: nat, k: nat)
    requires weight > 0 && v / weight == 2 * k + lo / weight
    ensures TestBit(v, weight) == TestBit(lo, weight)
  {
    var q := lo / weight;
    assert (2 * k + q) % 2 == q % 2;
  }

  lemma LowQuotients(hi: nat, lo: nat)
    requires lo < 0x10
    ensures var v := 0x10 * hi + lo;
            v / 8 == 2 * hi + lo / 8 && v / 4 == 4 * hi + lo / 4 && v / 2 == 8 * hi + lo / 2
  {}

  lemma LowNibble(hi: nat, lo: nat)
    requires lo < 0x10
    ensures var v := 0x10 * hi + lo;
            TestBit(v, 8) == TestBit(lo, 8) && TestBit(v, 4) == TestBit(lo, 4)
            && TestBit(v, 2) == TestBit(lo, 2) && TestBit(v, 1) == TestBit(lo, 1)
  {
    hide TestBit;
    var v := 0x10 * hi + lo;
    LowQuotients(hi, lo);
    SameBit(v, lo, 8, hi);
    SameBit(v, lo, 4, 2 * hi);
    SameBit(v, lo, 2, 4 * hi);
    SameBit(v, lo, 1, 8 * hi);
  }

  lemma HighNibble(hi: nat, lo: nat)
    requires lo < 0x10
    ensures var v := 0x10 * hi + lo;
            TestBit(v, 0x80) == TestBit(hi, 8) && TestBit(v, 0x40) == TestBit(hi, 4)
            && TestBit(v, 0x20) == TestBit(hi, 2) && TestBit(v, 0x10) == TestBit(hi, 1)
  {
    var v := 0x10 * hi + lo;
    assert v / 0x80 == hi / 8;
    assert v / 0x40 == hi / 4;
    assert v / 0x20 == hi / 2;
    assert v / 0x10 == hi;
  }

  lemma HighWeights(b3: bool, b2: bool, b1: bool, b0: bool)
    ensures Bit(b3, 0x80) + Bit(b2, 0x40) + Bit(b1, 0x20) + Bit(b0, 0x10)
         == 0x10 * (Bit(b3, 8) + Bit(b2, 4) + Bit(b1, 2) + Bit(b0, 1))
  {}

  lemma LowWeights(b3: bool, b2: bool, b1: bool, b0: bool)
    ensures Bit(b3, 8) + Bit(b2, 4) + Bit(b1, 2) + Bit(b0, 1) < 0x10
  {}

  lemma TopWeights(b2: bool, b1: bool, b0: bool)
    ensures Bit(b2, 0x8000) + Bit(b1, 0x4000) + Bit(b0, 0x2000) == 0x2000 * (Bit(b2, 4) + Bit(b1, 2) + Bit(b0, 1))
    ensures Bit(b2, 4) + Bit(b1, 2) + Bit(b0, 1) < 8
  {}

  lemma TosIs(f: Ip, hi: nat, lo: nat)
    requires f.InRange()
    requires hi == 2 * f.priority + Bit(f.dFlag, 1) && lo == Bit(f.tFlag, 8) + Bit(f.rFlag, 4) + f.rsvTos
    ensures lo < 0x10 && TosOctet(f) == 0x10 * hi + lo && TosOctet(f) / 0x20 == f.priority
            && TosOctet(f) % 4 == f.rsvTos
  {}

  lemma SmallFlags(p: nat, d: bool, t: bool, r: bool, low: nat)
    requires low < 4
    ensures TestBit(2 * p + Bit(d, 1), 1) == d
    ensures TestBit(Bit(t, 8) + Bit(r, 4) + low, 8) == t && TestBit(Bit(t, 8) + Bit(r, 4) + low, 4) == r
  {}

  lemma TosReads(f: Ip)
    requires f.InRange()
    ensures var t := TosOctet(f);
            && t / 0x20 == f.priority && t % 4 == f.rsvTos
            && TestBit(t, 0x10) == f.dFlag && TestBit(t, 0x08) == f.tFlag && TestBit(t, 0x04) == f.rFlag
  {
    var p: int, r: int := f.priority, f.rsvTos;
    var hi, lo := 2 * p + Bit(f.dFlag, 1), Bit(f.tFlag, 8) + Bit(f.rFlag, 4) + r;
    TosIs(f, hi, lo);
    hide TestBit, TosOctet, Bit;
    HighNibble(hi, lo);
    LowNibble(hi, lo);
    SmallFlags(p, f.dFlag, f.tFlag, f.rFlag, r);
  }

  lemma FlagHalves(t: Tcp) returns (hi: nat, lo: nat)
    ensures hi == Bit(t.rsv1, 8) + Bit(t.rsv2, 4) + Bit(t.urg, 2) + Bit(t.ack, 1)
    ensures lo == Bit(t.psh, 8) + Bit(t.rst, 4) + Bit(t.syn, 2) + Bit(t.fin, 1)
    ensures lo < 0x10 && FlagOctet(t) == 0x10 * hi + lo
  {
    hide Bit;
    HighWeights(t.rsv1, t.rsv2, t.urg, t.ack);
    LowWeights(t.psh, t.rst, t.syn, t.fin);
    hi := Bit(t.rsv1, 8) + Bit(t.rsv2, 4) + Bit(t.urg, 2) + Bit(t.ack, 1);
    lo := Bit(t.psh, 8) + Bit(t.rst, 4) + Bit(t.syn, 2) + Bit(t.fin, 1);
  }

  lemma FlagsRead(t: Tcp)
    ensures var v := FlagOctet(t);
            && TestBit(v, 0x80) == t.rsv1 && TestBit(v, 0x40) == t.rsv2 && TestBit(v, 0x20) == t.urg
            && TestBit(v, 0x10) == t.ack && TestBit(v, 0x08) == t.psh && TestBit(v, 0x04) == t.rst
            && TestBit(v, 0x02) == t.syn && TestBit(v, 0x01) == t.fin
  {
    var hi, lo := FlagHalves(t);
    hide TestBit, FlagOctet, Bit;
    HighNibble(hi, lo);
    LowNibble(hi, lo);
    Nibble(t.rsv1, t.rsv2, t.urg, t.ack);
    Nibble(t.psh, t.rst, t.syn, t.fin);
  }

  lemma WordReads(s: seq<u8>, o: nat, v: int)
    requires o + 2 <= |s| && s[o..o + 2] == BE16(v)
    ensures U16(s, o) == v % 0x1_0000
    ensures -0x8000 <= v < 0x8000 ==> ToI16(U16(s, o)) == v
    ensures 0 <= v < 0x1_0000 ==> U16(s, o) == v
  {
    RoundTrip16(s, o, v);
  }

  lemma HighByteSmall(h: nat)
    requires h < 0x20
    ensures !TestBit(h, 0x80) && !TestBit(h, 0x40) && !TestBit(h, 0x20)
  {}

  lemma WordIs(s: seq<u8>, o: nat, hi: u8, lo: u8)
    requires o + 2 <= |s| && s[o] == hi && s[o + 1] == lo
    ensures U16(s, o) == 0x100 * hi + lo
  {}

  lemma Residue2000(k: nat, r: nat)
    requires r < 0x2000
    ensures (0x2000 * k + r) % 0x2000 == r
  {}

  lemma OffsetReads(m: nat, h: nat, l: nat)
    requires h < 0x20 && l < 0x100 && m % 0x20 == l % 0x20
    ensures (0x100 * m + h) % 0x2000 == 0x100 * h + l <==> h == l
  {
    assert 0x100 * m + h == 0x2000 * (m / 0x20) + (0x100 * (l % 0x20) + h);
    Residue2000(m / 0x20, 0x100 * (l % 0x20) + h);
  }

  lemma FragmentRead(s: seq<u8>, o: nat, m: u8, h: nat, l: nat)
    requires o + IP_LEN <= |s| && s[o + 6] == m && s[o + 7] == h
    requires h < 0x20 && l < 0x100 && m % 0x20 == l % 0x20
    ensures var g := AnalyzeIp(s, o);
            && !g.rsvFrag && !g.dontFrag && !g.moreFrag && (g.offset == 0x100 * h + l <==> h == l)
  {
    hide TestBit, ToI16, U16;
    HighByteSmall(h);
    WordIs(s, o + 6, m, h);
    OffsetReads(m, h, l);
  }

  lemma ModWord(k: nat, h: nat)
    requires h < 0x100
    ensures (0x100 * k + h) % 0x1_0000 == 0x100 * (k % 0x100) + h
  {
    var q, r := k / 0x100, k % 0x100;
    assert 0x100 * k + h == 0x1_0000 * q + (0x100 * r + h);
  }

  lemma SwapIs(h: nat, l: nat)
    requires h < 0x100 && l < 0x100
    ensures Swap(0x100 * h + l) == 0x100 * l + h
  {}

  lemma FlagSum(n: nat, h: nat, l: nat)
    requires h < 0x100
    ensures (0x2000 * n + (0x100 * l + h)) % 0x1_0000 == 0x100 * ((0x20 * n + l) % 0x100) + h
  {
    var k := 0x20 * n + l;
    assert 0x2000 * n + (0x100 * l + h) == 0x100 * k + h;
    ModWord(k, h);
  }

  lemma OffWordSum(f: Ip, n: nat)
    requires n == Bit(f.rsvFrag, 4) + Bit(f.dontFrag, 2) + Bit(f.moreFrag, 1)
    ensures OffWord(f) == (0x2000 * n + Swap(f.offset % 0x1_0000)) % 0x1_0000
  {
    TopWeights(f.rsvFrag, f.dontFrag, f.moreFrag);
    hide Bit, Swap;
  }

  lemma OffWordIs(f: Ip, h: nat, l: nat, k: nat)
    requires 0 <= f.offset < 0x2000 && f.offset == 0x100 * h + l && l < 0x100
    requires k == 0x20 * (Bit(f.rsvFrag, 4) + Bit(f.dontFrag, 2) + Bit(f.moreFrag, 1)) + l
    ensures OffWord(f) == 0x100 * (k % 0x100) + h
  {
    hide Bit, Swap, OffWord;
    var n := Bit(f.rsvFrag, 4) + Bit(f.dontFrag, 2) + Bit(f.moreFrag, 1);
    assert f.offset % 0x1_0000 == 0x100 * h + l;
    OffWordSum(f, n);
    SwapIs(h, l);
    FlagSum(n, h, l);
  }

  lemma Residue20(k: nat, l: nat)
    requires l < 0x100 && (k - l) % 0x20 == 0 && k >= l
    ensures k % 0x100 % 0x20 == l % 0x20
  {}

  predicate FragmentComesBack(f: Ip, g: Ip) {
    g.rsvFrag == f.rsvFrag && g.dontFrag == f.dontFrag && g.moreFrag == f.moreFrag && g.offset == f.offset
  }

  lemma ShortFragment(f: Ip, s: seq<u8>, o: nat)
    requires 0 <= f.offset < 0x2000 && o + IP_LEN <= |s| && s[o + 6..o + 8] == BE16(OffWord(f))
    ensures FragmentComesBack(f, AnalyzeIp(s, o)) <==> f.NoFlags() && f.offset / 0x100 == f.offset % 0x100
  {
    var h, l := f.offset / 0x100, f.offset % 0x100;
    var k := 0x20 * (Bit(f.rsvFrag, 4) + Bit(f.dontFrag, 2) + Bit(f.moreFrag, 1)) + l;
    OffWordIs(f, h, l, k);
    BE16Is(OffWord(f));
    HiLo(k % 0x100, h);
    assert s[o + 6..o + 8][0] == s[o + 6] && s[o + 6..o + 8][1] == s[o + 7];
    assert s[o + 6] == k % 0x100 && s[o + 7] == h;
    hide OffWord, BE16, Hi, Lo, TestBit, U16;
    Residue20(k, l);
    FragmentRead(s, o, k % 0x100, h, l);
    assert f.offset == 0x100 * h + l && f.offset / 0x100 == h && f.offset % 0x100 == l;
  }

  lemma OffsetBound(s: seq<u8>, o: nat)
    requires o + IP_LEN <= |s|
    ensures 0 <= AnalyzeIp(s, o).offset < 0x2000
  {
    hide U16, TestBit, ToI16;
  }

  /** What the analyser reads from the fragment word, for every offset: it gives the
      fields back exactly when the offset has 13 bits, no flag is set and the two octets
      of the offset agree. */
  lemma FragmentFieldsExact(f: Ip, s: seq<u8>, o: nat)
    requires o + IP_LEN <= |s| && s[o + 6..o + 8] == BE16(OffWord(f))
    ensures FragmentComesBack(f, AnalyzeIp(s, o))
       <==> 0 <= f.offset < 0x2000 && f.NoFlags() && f.offset / 0x100 == f.offset % 0x100
  {
    if 0 <= f.offset < 0x2000 {
      ShortFragment(f, s, o);
    } else {
      OffsetBound(s, o);
    }
  }

  lemma TopBits(x: u8)
    ensures x / 0x80 == x / 0x20 / 4 && x / 0x40 == x / 0x20 / 2
  {}

  lemma BitsOf(p: nat)
    requires p < 8
    ensures p == 4 * (p / 4 % 2) + 2 * (p / 2 % 2) + p % 2
  {}

  lemma SameBits(p: nat, q: nat)
    requires p < 8 && q < 8
    ensures p / 4 % 2 == q / 4 % 2 && p / 2 % 2 == q / 2 % 2 && p % 2 == q % 2 <==> p == q
  {
    BitsOf(p);
    BitsOf(q);
  }

  /** Section 3.1 of RFC 791 has the flags in octet 6 and the analyser looks in octet 7:
      for every header the offset is right, and the flags exactly when the top three bits
      of the two octets agree. */
  lemma FlagsReadExactly(s: seq<u8>, o: nat)
    requires o + IP_LEN <= |s|
    ensures var g, x, y := AnalyzeIp(s, o), s[o + 6], s[o + 7];
            && g.offset == U16(s, o + 6) % 0x2000
            && (g.rsvFrag == (x / 0x80 % 2 == 1) && g.dontFrag == (x / 0x40 % 2 == 1)
                && g.moreFrag == (x / 0x20 % 2 == 1)
                <==> x / 0x20 == y / 0x20)
  {
    hide U16, ToI16;
    TopBits(s[o + 6]);
    TopBits(s[o + 7]);
    SameBits(s[o + 6] / 0x20, s[o + 7] / 0x20);
  }

  // ---- headers ---------------------------------------------------------------------

  lemma Part(s: seq<u8>, o: nat, n: nat, x: nat, y: nat, whole: seq<u8>)
    requires o + n <= |s| && x <= y <= n && s[o..o + n] == whole
    ensures |whole| == n && s[o + x..o + y] == whole[x..y]
  {
    SubSlice(s, o, n, x, y);
  }

  lemma Octet(s: seq<u8>, o: nat, n: nat, x: nat, whole: seq<u8>)
    requires o + n <= |s| && x < n && s[o..o + n] == whole
    ensures |whole| == n && s[o + x] == whole[x]
  {}

  /** The pieces of an IPv4 header in place. */
  ghost predicate IpAt(s: seq<u8>, o: nat, f: Ip, protocol: u8, total: int)
  {
    && f.Valid() && o + IP_LEN <= |s|
    && s[o] == 0x45 && s[o + 1] == TosOctet(f) && s[o + 2..o + 4] == BE16(total) && s[o + 4..o + 6] == BE16(f.ident)
    && s[o + 6..o + 8] == BE16(OffWord(f)) && s[o + 8] == Lo(f.hopLimit) && s[o + 9] == protocol
    && s[o + 12..o + 16] == f.src && s[o + 16..o + 20] == f.dst
  }

  lemma IpPieces(f: Ip, protocol: u8, total: int)
    requires f.Valid()
    ensures var h := IpBytes(f, protocol, total);
            && h[0] == 0x45 && h[1] == TosOctet(f) && h[2..4] == BE16(total) && h[4..6] == BE16(f.ident)
            && h[6..8] == BE16(OffWord(f)) && h[8] == Lo(f.hopLimit) && h[9] == protocol
            && h[12..16] == f.src && h[16..20] == f.dst
  {
    hide BE16, TosOctet, OffWord, Lo, Rfc1071;
    var a := IpBefore(f, protocol, total);
    var h := IpBytes(f, protocol, total);
    assert a[2..4] == BE16(total) && a[4..6] == BE16(f.ident) && a[6..8] == BE16(OffWord(f));
    assert h[..10] == a && h[12..] == f.src + f.dst;
    assert h[2..4] == a[2..4] && h[4..6] == a[4..6] && h[6..8] == a[6..8];
    assert h[12..16] == h[12..][..4] && h[16..20] == h[12..][4..];
  }

  lemma IpInPlace(s: seq<u8>, o: nat, f: Ip, protocol: u8, total: int)
    requires f.Valid() && o + IP_LEN <= |s| && s[o..o + IP_LEN] == IpBytes(f, protocol, total)
    ensures IpAt(s, o, f, protocol, total)
  {
    var h := IpBytes(f, protocol, total);
    IpPieces(f, protocol, total);
    hide IpBytes, BE16, TosOctet, OffWord, Lo;
    Octet(s, o, IP_LEN, 0, h);
    Octet(s, o, IP_LEN, 1, h);
    Octet(s, o, IP_LEN, 8, h);
    Octet(s, o, IP_LEN, 9, h);
    Part(s, o, IP_LEN, 2, 4, h);
    Part(s, o, IP_LEN, 4, 6, h);
    Part(s, o, IP_LEN, 6, 8, h);
    Part(s, o, IP_LEN, 12, 16, h);
    Part(s, o, IP_LEN, 16, 20, h);
  }

  /** What comes back of the IPv4 fields: the TOS parts as the octet holds them, the
      low octets of the rest, the identification as a signed short, and no flag. */
  function Carried(f: Ip, protocol: u8): Ip {
    var t := TosOctet(f);
    f.(priority := t / 0x20, rsvTos := t % 4,
       dFlag := TestBit(t, 0x10), tFlag := TestBit(t, 0x08), rFlag := TestBit(t, 0x04),
       rsvFrag := false, dontFrag := false, moreFrag := false,
       ident := ToI16(f.ident), hopLimit := Lo(f.hopLimit), protocol := protocol)
  }

  lemma AssembleIp(s: seq<u8>, o: nat, f: Ip, protocol: u8)
    requires o + IP_LEN <= |s| && f.AtStart() && s[o + 1] == TosOctet(f)
    requires !TestBit(s[o + 7], 0x80) && !TestBit(s[o + 7], 0x40) && !TestBit(s[o + 7], 0x20)
    requires FragmentOffset(s, o) == 0 && ToI16(U16(s, o + 4)) == ToI16(f.ident)
    requires s[o + 8] == Lo(f.hopLimit) && s[o + 9] == protocol
    requires s[o + 12..o + 16] == f.src && s[o + 16..o + 20] == f.dst
    ensures AnalyzeIp(s, o) == Carried(f, protocol)
  {
    hide U16, TestBit, ToI16, TosOctet, Lo, FragmentOffset;
  }

  lemma SwapZero()
    ensures Swap(0) == 0
  {}

  lemma FlagOctets(n: nat)
    requires n < 8
    ensures Lo(0x2000 * n) == 0 && Hi(0x2000 * n) % 0x20 == 0
  {
    assert 0x2000 * n == 0x100 * (0x20 * n);
    HiLo(0x20 * n, 0);
  }

  /** The flags without an offset: they all end up in the first octet. */
  lemma FlagWord(f: Ip)
    requires f.AtStart()
    ensures Lo(OffWord(f)) == 0 && Hi(OffWord(f)) % 0x20 == 0
  {
    var n := Bit(f.rsvFrag, 4) + Bit(f.dontFrag, 2) + Bit(f.moreFrag, 1);
    TopWeights(f.rsvFrag, f.dontFrag, f.moreFrag);
    SwapZero();
    hide Bit, Swap, Lo, Hi;
    assert OffWord(f) == 0x2000 * n;
    FlagOctets(n);
  }

  lemma FlagsGone(s: seq<u8>, o: nat, f: Ip)
    requires o + IP_LEN <= |s| && f.AtStart() && s[o + 6..o + 8] == BE16(OffWord(f))
    ensures FragmentOffset(s, o) == 0
    ensures !TestBit(s[o + 7], 0x80) && !TestBit(s[o + 7], 0x40) && !TestBit(s[o + 7], 0x20)
  {
    FlagWord(f);
    BE16Is(OffWord(f));
    assert s[o + 6..o + 8][0] == s[o + 6] && s[o + 6..o + 8][1] == s[o + 7];
    HighByteSmall(0);
    hide OffWord, Hi, Lo, BE16;
    WordIs(s, o + 6, s[o + 6], 0);
    Residue2000(s[o + 6] / 0x20, 0);
  }

  lemma ShortOfWord(v: int)
    ensures ToI16(v % 0x1_0000) == ToI16(v)
  {
    var k := v / 0x1_0000;
    assert (v + 0x8000 - 0x1_0000 * k) % 0x1_0000 == (v + 0x8000) % 0x1_0000;
  }

  lemma ShortReads(s: seq<u8>, o: nat, v: int)
    requires o + 2 <= |s| && s[o..o + 2] == BE16(v)
    ensures ToI16(U16(s, o)) == ToI16(v)
  {
    RoundTrip16(s, o, v);
    ShortOfWord(v);
    hide U16, BE16, ToI16;
  }

  /** Analysing a built header gives back the carried fields, and the payload is not
      taken for a later fragment. */
  lemma IpReads(s: seq<u8>, o: nat, f: Ip, protocol: u8, total: nat)
    requires f.AtStart() && total < 0x8000 && IpAt(s, o, f, protocol, total)
    ensures AnalyzeIp(s, o) == Carried(f, protocol)
    ensures IpHeaderLen(s, o) == IP_LEN && ToI16(U16(s, o + 2)) == total
    ensures FragmentOffset(s, o) == 0 && s[o + 9] == protocol
  {
    hide U16, BE16, TosOctet, OffWord, TestBit, ToI16, Lo, AnalyzeIp, FragmentOffset, Carried;
    FlagsGone(s, o, f);
    WordReads(s, o + 2, total);
    ShortReads(s, o + 4, f.ident);
    AssembleIp(s, o, f, protocol);
  }

  lemma TosParts(t: u8)
    ensures 0 <= t / 0x20 < 8 && 0 <= t % 4 < 4
  {}

  /** The fields come back as they were exactly when each is in its range and no
      fragment flag is set. */
  lemma CarriedExactly(f: Ip, protocol: u8)
    ensures Carried(f, protocol) == f.(protocol := protocol) <==> f.InRange() && f.NoFlags()
  {
    if f.InRange() {
      TosReads(f);
      hide TosOctet;
      assert ToI16(f.ident) == f.ident && Lo(f.hopLimit) == f.hopLimit;
    } else {
      TosParts(TosOctet(f));
      hide TosOctet, TestBit;
    }
  }

  /** An identification above 0x7fff is legal, is sent, and comes back negative. */
  lemma IdentExactly(f: Ip, protocol: u8)
    ensures Carried(f, protocol).ident == f.ident <==> -0x8000 <= f.ident < 0x8000
    ensures 0x8000 <= f.ident < 0x1_0000 ==> Carried(f, protocol).ident == f.ident - 0x1_0000
    ensures f.ident == 40000 ==> Carried(f, protocol).ident == -25536
  {
    hide TosOctet, TestBit;
  }

  ghost predicate TcpAt(s: seq<u8>, o: nat, t: Tcp) {
    && o + TCP_LEN <= |s|
    && s[o..o + 2] == BE16(t.srcPort) && s[o + 2..o + 4] == BE16(t.dstPort)
    && s[o + 4..o + 8] == BE32(t.sequence) && s[o + 8..o + 12] == BE32(t.ackNum)
    && s[o + 12] / 0x10 == 5 && s[o + 13] == FlagOctet(t) && s[o + 14..o + 16] == BE16(t.window)
    && s[o + 18..o + 20] == BE16(t.urgentPointer)
  }

  lemma TcpPieces(t: Tcp, x2: u8, sum: u16, data: seq<u8>)
    requires x2 < 0x10
    ensures TcpAt(Sealed(TcpBefore(t, x2), sum, TcpAfter(t, data)), 0, t)
    ensures Sealed(TcpBefore(t, x2), sum, TcpAfter(t, data))[TCP_LEN..] == data
  {
    hide BE16, BE32, FlagOctet;
    var a, z := TcpBefore(t, x2), TcpAfter(t, data);
    var h := Sealed(a, sum, z);
    assert a[0..2] == BE16(t.srcPort) && a[2..4] == BE16(t.dstPort) && a[4..8] == BE32(t.sequence)
        && a[8..12] == BE32(t.ackNum) && a[14..16] == BE16(t.window);
    assert h[..16] == a && h[18..] == z && z[..2] == BE16(t.urgentPointer) && z[2..] == data;
    assert h[0..2] == a[0..2] && h[2..4] == a[2..4] && h[4..8] == a[4..8] && h[8..12] == a[8..12]
           && h[14..16] == a[14..16];
    assert h[18..20] == z[..2] && h[20..] == z[2..];
  }

  lemma TcpInPlace(s: seq<u8>, o: nat, n: nat, t: Tcp, x2: u8, sum: u16, data: seq<u8>)
    requires x2 < 0x10 && o + n <= |s| && s[o..o + n] == Sealed(TcpBefore(t, x2), sum, TcpAfter(t, data))
    ensures TcpAt(s, o, t) && s[o + TCP_LEN..o + n] == data
  {
    var h := Sealed(TcpBefore(t, x2), sum, TcpAfter(t, data));
    TcpPieces(t, x2, sum, data);
    hide Sealed, TcpBefore, TcpAfter, BE16, BE32, FlagOctet;
    Part(s, o, n, 0, 2, h);
    Part(s, o, n, 2, 4, h);
    Part(s, o, n, 4, 8, h);
    Part(s, o, n, 8, 12, h);
    Octet(s, o, n, 12, h);
    Octet(s, o, n, 13, h);
    Part(s, o, n, 14, 16, h);
    Part(s, o, n, 18, 20, h);
    Part(s, o, n, 20, n, h);
    assert h[20..n] == h[20..];
  }

  /** The low octets of each number come back. */
  function CarriedTcp(t: Tcp): Tcp {
    t.(srcPort := t.srcPort % 0x1_0000, dstPort := t.dstPort % 0x1_0000, window := t.window % 0x1_0000,
       sequence := t.sequence % 0x1_0000_0000, ackNum := t.ackNum % 0x1_0000_0000)
  }

  lemma CarriedTcpExactly(t: Tcp)
    ensures CarriedTcp(t) == t <==> t.InRange()
  {
    if t.InRange() {
      assert t.sequence % 0x1_0000_0000 == t.sequence && t.ackNum % 0x1_0000_0000 == t.ackNum;
    }
  }

  function CarriedUdp(u: Udp): Udp { u.(srcPort := u.srcPort % 0x1_0000, dstPort := u.dstPort % 0x1_0000) }

  lemma CarriedUdpExactly(u: Udp)
    ensures CarriedUdp(u) == u <==> u.InRange()
  {}

  lemma TcpReads(s: seq<u8>, o: nat, t: Tcp)
    requires TcpAt(s, o, t)
    ensures AnalyzeTcp(s, o) == CarriedTcp(t) && TcpHeaderLen(s, o) == TCP_LEN
  {
    hide U16, U32, BE16, BE32, FlagOctet, TestBit, ToI16;
    FlagsRead(t);
    WordReads(s, o, t.srcPort);
    WordReads(s, o + 2, t.dstPort);
    RoundTrip32(s, o + 4, t.sequence);
    RoundTrip32(s, o + 8, t.ackNum);
    WordReads(s, o + 14, t.window);
    WordReads(s, o + 18, t.urgentPointer);
  }

  lemma UdpPieces(u: Udp, sum: u16, data: seq<u8>)
    ensures var h := Sealed(UdpBefore(u, UDP_LEN + |data|), sum, data);
            && h[0..2] == BE16(u.srcPort) && h[2..4] == BE16(u.dstPort) && h[4..6] == BE16(UDP_LEN + |data|)
            && h[8..] == data
  {
    hide BE16;
    var a := UdpBefore(u, UDP_LEN + |data|);
    assert a[0..2] == BE16(u.srcPort) && a[2..4] == BE16(u.dstPort) && a[4..6] == BE16(UDP_LEN + |data|);
    var h := Sealed(a, sum, data);
    assert h[..6] == a;
    assert h[0..2] == a[0..2] && h[2..4] == a[2..4] && h[4..6] == a[4..6];
  }

  lemma UdpInPlace(s: seq<u8>, o: nat, n: nat, u: Udp, sum: u16, data: seq<u8>)
    requires UDP_LEN + |data| < 0x1_0000
    requires o + n <= |s| && s[o..o + n] == Sealed(UdpBefore(u, UDP_LEN + |data|), sum, data)
    ensures n == UDP_LEN + |data| && s[o + UDP_LEN..o + n] == data
    ensures Udp(U16(s, o), U16(s, o + 2)) == CarriedUdp(u) && U16(s, o + 4) == UDP_LEN + |data|
  {
    var h := Sealed(UdpBefore(u, UDP_LEN + |data|), sum, data);
    UdpPieces(u, sum, data);
    hide Sealed, UdpBefore, BE16, U16;
    Part(s, o, n, 0, 2, h);
    Part(s, o, n, 2, 4, h);
    Part(s, o, n, 4, 6, h);
    Part(s, o, n, 8, n, h);
    assert h[8..n] == h[8..];
    WordReads(s, o, u.srcPort);
    WordReads(s, o + 2, u.dstPort);
    WordReads(s, o + 4, UDP_LEN + |data|);
  }

  lemma ArpPieces(a: Arp)
    requires a.Valid()
    ensures var h := ArpBytes(a);
            && h[0..2] == BE16(a.hardtype) && h[2..4] == BE16(a.prototype) && h[4] == 6 && h[5] == 4
            && h[6..8] == BE16(a.operation) && h[8..14] == a.senderHard && h[14..18] == a.senderProto
            && h[18..24] == a.targetHard && h[24..28] == a.targetProto
  {
    hide BE16;
  }

  lemma ArpReads(s: seq<u8>, o: nat, a: Arp)
    requires a.Valid() && o + ARP_LEN <= |s| && s[o..o + ARP_LEN] == ArpBytes(a)
    ensures ArpLen(s, o) == ARP_LEN && AnalyzeArp(s, o) == a
  {
    var h := ArpBytes(a);
    ArpPieces(a);
    hide ArpBytes, BE16, U16;
    Octet(s, o, ARP_LEN, 4, h);
    Octet(s, o, ARP_LEN, 5, h);
    Part(s, o, ARP_LEN, 0, 2, h);
    Part(s, o, ARP_LEN, 2, 4, h);
    Part(s, o, ARP_LEN, 6, 8, h);
    Part(s, o, ARP_LEN, 8, 14, h);
    Part(s, o, ARP_LEN, 14, 18, h);
    Part(s, o, ARP_LEN, 18, 24, h);
    Part(s, o, ARP_LEN, 24, 28, h);
    WordReads(s, o, a.hardtype);
    WordReads(s, o + 2, a.prototype);
    WordReads(s, o + 6, a.operation);
  }

  /** An ARP packet as RFC 826 draws it, with addresses of any length. */
  function Rfc826(hard: i16, proto: i16, operation: i16, sh: seq<u8>, sp: seq<u8>, th: seq<u8>, tp: seq<u8>): seq<u8>
    requires |sh| < 0x100 && |sp| < 0x100
  {
    BE16(hard) + BE16(proto) + [|sh|, |sp|] + BE16(operation) + sh + sp + th + tp
  }

  lemma ArpHeadIs(s: seq<u8>, o: nat, hard: i16, proto: i16, operation: i16, h: u8, p: u8)
    requires o + 8 <= |s| && s[o..o + 8] == BE16(hard) + BE16(proto) + [h, p] + BE16(operation)
    ensures ToI16(U16(s, o)) == hard && ToI16(U16(s, o + 2)) == proto && ToI16(U16(s, o + 6)) == operation
    ensures s[o + 4] == h && s[o + 5] == p
  {
    hide BE16, U16, ToI16;
    var t := BE16(hard) + BE16(proto) + [h, p] + BE16(operation);
    assert t[0..2] == BE16(hard) && t[2..4] == BE16(proto) && t[6..8] == BE16(operation);
    Part(s, o, 8, 0, 2, t);
    Part(s, o, 8, 2, 4, t);
    Part(s, o, 8, 6, 8, t);
    Octet(s, o, 8, 4, t);
    Octet(s, o, 8, 5, t);
    WordReads(s, o, hard);
    WordReads(s, o + 2, proto);
    WordReads(s, o + 6, operation);
  }

  lemma TwoParts(s: seq<u8>, o: nat, a: seq<u8>, b: seq<u8>)
    requires o + |a| + |b| <= |s| && s[o..o + |a| + |b|] == a + b
    ensures s[o..o + |a|] == a && s[o + |a|..o + |a| + |b|] == b
  {
    var t := a + b;
    assert t[..|a|] == a && t[|a|..] == b;
    Part(s, o, |t|, 0, |a|, t);
    Part(s, o, |t|, |a|, |t|, t);
  }

  lemma FourParts(s: seq<u8>, o: nat, a: seq<u8>, b: seq<u8>, c: seq<u8>, d: seq<u8>, e: seq<u8>)
    requires o + |a| + |b| + |c| + |d| + |e| <= |s|
    requires s[o..o + |a| + |b| + |c| + |d| + |e|] == a + b + c + d + e
    ensures var x, y := o + |a|, o + |a| + |b|;
            && s[o..x] == a && s[x..x + |b|] == b && s[y..y + |c|] == c
            && s[y + |c|..y + |c| + |d|] == d && s[y + |c| + |d|..y + |c| + |d| + |e|] == e
  {
    TwoParts(s, o, a + b + c + d, e);
    TwoParts(s, o, a + b + c, d);
    TwoParts(s, o, a + b, c);
    TwoParts(s, o, a, b);
  }

  /** The analyser reads every such packet, wherever it lies. */
  lemma ArpReadsAny(s: seq<u8>, o: nat, hard: i16, proto: i16, operation: i16,
                    sh: seq<u8>, sp: seq<u8>, th: seq<u8>, tp: seq<u8>)
    requires |sh| == |th| < 0x100 && |sp| == |tp| < 0x100
    requires var n := 8 + 2 * |sh| + 2 * |sp|;
             o + n <= |s| && s[o..o + n] == Rfc826(hard, proto, operation, sh, sp, th, tp)
    ensures ArpLen(s, o) == 8 + 2 * |sh| + 2 * |sp|
    ensures AnalyzeArp(s, o) == Arp(hard, proto, |sh|, |sp|, operation, sh, sp, th, tp)
  {
    hide BE16, U16, ToI16;
    FourParts(s, o, BE16(hard) + BE16(proto) + [|sh|, |sp|] + BE16(operation), sh, sp, th, tp);
    ArpHeadIs(s, o, hard, proto, operation, |sh|, |sp|);
  }

  lemma EtherReads(s: seq<u8>, e: Ether)
    requires e.Valid() && ETHER_LEN <= |s| && s[..ETHER_LEN] == EtherBytes(e)
    ensures AnalyzeLink(s, EthernetLink) == Some(e) && NetType(s, EthernetLink) == e.frametype % 0x1_0000
  {
    hide BE16;
    var h := EtherBytes(e);
    assert h[0..6] == e.dst && h[6..12] == e.src && h[12..14] == BE16(e.frametype);
    assert s[0..6] == h[0..6] && s[6..12] == h[6..12] && s[12..14] == h[12..14];
    WordReads(s, 12, e.frametype);
  }
}
