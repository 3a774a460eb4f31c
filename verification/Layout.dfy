/** The octets the builder lays out, place by place and in numbers, as RFC 791, 793, 768,
    792 and 826 draw the headers. */
module Layout {
  import opened Bytes
  import opened Checksum
  import opened Packets
  import opened Sender
  import opened RoundTrip

  function Flag(b: bool): nat { if b then 1 else 0 }

  // ---- Ethernet and IPv4 ---------------------------------------------------------------

  ghost predicate EtherOnWire(e: Ether, s: seq<u8>) {
    |s| == 14 && s[0..6] == e.dst && s[6..12] == e.src && U16(s, 12) == e.frametype % 0x1_0000
  }

  lemma EtherLayout(e: Ether)
    requires e.Valid()
    ensures EtherOnWire(e, EtherBytes(e))
  {
    hide BE16, U16;
    var s := EtherBytes(e);
    assert s[12..14] == BE16(e.frametype);
    RoundTrip16(s, 12, e.frametype);
  }

  function TosNumber(f: Ip): int {
    (0x20 * f.priority + 0x10 * Flag(f.dFlag) + 8 * Flag(f.tFlag) + 4 * Flag(f.rFlag) + f.rsvTos) % 0x100
  }

  /** The flags are in place; the offset has its octets swapped. */
  function FragmentNumber(f: Ip): int {
    (0x8000 * Flag(f.rsvFrag) + 0x4000 * Flag(f.dontFrag) + 0x2000 * Flag(f.moreFrag)
     + 0x100 * (f.offset % 0x100) + f.offset / 0x100 % 0x100) % 0x1_0000
  }

  ghost predicate IpOnWire(f: Ip, protocol: int, total: int, s: seq<u8>) {
    && |s| >= 20 && s[0] == 0x45 && s[1] == TosNumber(f) && U16(s, 2) == total % 0x1_0000
    && U16(s, 4) == f.ident % 0x1_0000 && U16(s, 6) == FragmentNumber(f)
    && s[8] == f.hopLimit % 0x100 && s[9] == protocol && s[12..16] == f.src && s[16..20] == f.dst
  }

  lemma SwappedOffset(v: int)
    ensures Swap(v % 0x1_0000) == 0x100 * (v % 0x100) + v / 0x100 % 0x100
  {
    JoinOctets(v);
    SwapIs(v / 0x100 % 0x100, v % 0x100);
  }

  lemma FragmentIs(f: Ip)
    ensures OffWord(f) == FragmentNumber(f)
  {
    SwappedOffset(f.offset);
    hide Swap;
  }

  lemma TosIsNumber(f: Ip)
    ensures TosOctet(f) == TosNumber(f)
  {}

  lemma IpNumbers(s: seq<u8>, f: Ip, protocol: u8, total: int)
    requires IpAt(s, 0, f, protocol, total)
    ensures IpOnWire(f, protocol, total, s)
  {
    FragmentIs(f);
    TosIsNumber(f);
    hide BE16, U16, TosOctet, OffWord, TosNumber, FragmentNumber;
    RoundTrip16(s, 2, total);
    RoundTrip16(s, 4, f.ident);
    RoundTrip16(s, 6, OffWord(f));
  }

  lemma IpLayout(f: Ip, protocol: u8, total: int, rest: seq<u8>)
    requires f.Valid()
    ensures IpOnWire(f, protocol, total, IpBytes(f, protocol, total) + rest)
  {
    hide IpBytes, IpAt, IpOnWire;
    var s := IpBytes(f, protocol, total) + rest;
    assert s[0..0 + IP_LEN] == IpBytes(f, protocol, total);
    IpInPlace(s, 0, f, protocol, total);
    IpNumbers(s, f, protocol, total);
  }

  // ---- TCP and UDP -----------------------------------------------------------------------

  ghost predicate TcpOnWire(t: Tcp, x2: int, data: seq<u8>, s: seq<u8>) {
    && |s| == 20 + |data| && U16(s, 0) == t.srcPort % 0x1_0000 && U16(s, 2) == t.dstPort % 0x1_0000
    && U32(s, 4) == t.sequence % 0x1_0000_0000 && U32(s, 8) == t.ackNum % 0x1_0000_0000 && s[12] == 0x50 + x2
    && s[13] == 0x80 * Flag(t.rsv1) + 0x40 * Flag(t.rsv2) + 0x20 * Flag(t.urg) + 0x10 * Flag(t.ack)
                + 8 * Flag(t.psh) + 4 * Flag(t.rst) + 2 * Flag(t.syn) + Flag(t.fin)
    && U16(s, 14) == t.window % 0x1_0000 && U16(s, 18) == t.urgentPointer % 0x1_0000 && s[20..] == data
  }

  lemma TcpFlags(t: Tcp)
    ensures FlagOctet(t)
         == 0x80 * Flag(t.rsv1) + 0x40 * Flag(t.rsv2) + 0x20 * Flag(t.urg) + 0x10 * Flag(t.ack)
            + 8 * Flag(t.psh) + 4 * Flag(t.rst) + 2 * Flag(t.syn) + Flag(t.fin)
  {}

  lemma ReservedKept(t: Tcp, x2: u8, sum: u16, data: seq<u8>)
    requires x2 < 0x10
    ensures Sealed(TcpBefore(t, x2), sum, TcpAfter(t, data))[12] == 0x50 + x2
  {
    hide BE16, BE32, FlagOctet;
  }

  lemma TcpLayout(f: Ip, t: Tcp, x2: u8, data: seq<u8>)
    requires x2 < 0x10
    ensures TcpOnWire(t, x2, data, TcpSegment(f, t, x2, data))
  {
    var sum := TransportSum(f.src + f.dst, PROTO_TCP, TcpBefore(t, x2), TcpAfter(t, data));
    var s := TcpSegment(f, t, x2, data);
    TcpFlags(t);
    TcpPieces(t, x2, sum, data);
    ReservedKept(t, x2, sum, data);
    hide Sealed, TcpBefore, TcpAfter, TransportSum, BE16, BE32, U16, U32, FlagOctet;
    RoundTrip16(s, 0, t.srcPort);
    RoundTrip16(s, 2, t.dstPort);
    RoundTrip32(s, 4, t.sequence);
    RoundTrip32(s, 8, t.ackNum);
    RoundTrip16(s, 14, t.window);
    RoundTrip16(s, 18, t.urgentPointer);
  }

  ghost predicate UdpOnWire(u: Udp, data: seq<u8>, s: seq<u8>) {
    && |s| == 8 + |data| && U16(s, 0) == u.srcPort % 0x1_0000 && U16(s, 2) == u.dstPort % 0x1_0000
    && U16(s, 4) == (8 + |data|) % 0x1_0000 && s[8..] == data
  }

  lemma UdpLayout(f: Ip, u: Udp, data: seq<u8>)
    ensures UdpOnWire(u, data, UdpSegment(f, u, data))
  {
    var before := UdpBefore(u, UDP_LEN + |data|);
    var sum := NonZero(TransportSum(f.src + f.dst, PROTO_UDP, before, data));
    var s := UdpSegment(f, u, data);
    UdpPieces(u, sum, data);
    hide Sealed, UdpBefore, TransportSum, BE16, U16;
    RoundTrip16(s, 0, u.srcPort);
    RoundTrip16(s, 2, u.dstPort);
    RoundTrip16(s, 4, UDP_LEN + |data|);
  }

  // ---- ICMP ----------------------------------------------------------------------------------

  /** The IPv4 header that an error message quotes: length, protocol and checksum octets
      are those of the buffer, and the fragment word is in the order of the host. */
  ghost predicate QuotedOnWire(f: Ip, was: seq<u8>, s: seq<u8>, o: nat)
    requires |was| >= o + 20
  {
    && |s| >= o + 20 && s[o] == 0x45 && s[o + 1] == TosNumber(f) && s[o + 2..o + 4] == was[o + 2..o + 4]
    && U16(s, o + 4) == f.ident % 0x1_0000 && s[o + 6] + 0x100 * (s[o + 7] as int) == FragmentNumber(f)
    && s[o + 8] == f.hopLimit % 0x100 && s[o + 9..o + 12] == was[o + 9..o + 12]
    && s[o + 12..o + 16] == f.src && s[o + 16..o + 20] == f.dst
  }

  /** An ICMP message by its type octet; was is what the buffer held in its place. */
  ghost predicate IcmpOnWire(c: Icmp, data: seq<u8>, was: seq<u8>, s: seq<u8>) {
    var kind := c.kind % 0x100;
    && |s| >= 2 && s[0] == kind && s[1] == c.code % 0x100
    && (kind in {0, 8, 13, 14, 17, 18} ==>
          |s| >= 8 && U16(s, 4) == c.id % 0x1_0000 && U16(s, 6) == c.sequence % 0x1_0000)
    && (kind in {0, 8} ==> s[8..] == data)
    && (kind in {13, 14} ==> |s| == 20 && U32(s, 8) == c.otime % 0x1_0000_0000
                             && U32(s, 12) == c.rtime % 0x1_0000_0000 && U32(s, 16) == c.ttime % 0x1_0000_0000)
    && (kind in {17, 18} ==> |s| == 12 && U32(s, 8) == c.mask % 0x1_0000_0000)
    && (kind in {3, 4, 5, 11, 12} ==>
          && |s| == (if c.ippacket.Some? then 32 else 12) <= |was|
          && s[4..8] == (if kind == 5 then c.redirect else was[4..8])
          && if c.ippacket.Some? then QuotedOnWire(c.ippacket.value, was, s, 8) && s[28..32] == was[28..32]
             else s[8..12] == was[8..12])
    && (kind !in {0, 3, 4, 5, 8, 11, 12, 13, 14, 17, 18} ==> |s| == 2)
  }

  lemma IcmpParts(c: Icmp, data: seq<u8>, was: seq<u8>, next: u8)
    requires c.Valid() && |was| == IcmpLen(c, |data|) && KindOf(c.kind % 0x100) != OtherKind
    ensures var s := IcmpMessage(c, data, was, next);
            |s| == |was| && s[0] == c.kind % 0x100 && s[1] == c.code % 0x100 && s[4..] == IcmpTail(c, data, was)
  {
    hide BE16, IcmpTail, Rfc1071, LittleSeen;
  }

  lemma IdsAt(s: seq<u8>, id: int, sequence: int, rest: seq<u8>)
    requires |s| >= 4 && s[4..] == BE16(id) + BE16(sequence) + rest
    ensures |s| >= 8 && U16(s, 4) == id % 0x1_0000 && U16(s, 6) == sequence % 0x1_0000 && s[8..] == rest
  {
    hide BE16, U16;
    var t := s[4..];
    assert s[4..6] == t[0..2] && s[6..8] == t[2..4] && s[8..] == t[4..];
    RoundTrip16(s, 4, id);
    RoundTrip16(s, 6, sequence);
  }

  lemma TimesAt(s: seq<u8>, a: int, b: int, c: int)
    requires |s| >= 8 && s[8..] == BE32(a) + BE32(b) + BE32(c)
    ensures |s| == 20 && U32(s, 8) == a % 0x1_0000_0000
    ensures U32(s, 12) == b % 0x1_0000_0000 && U32(s, 16) == c % 0x1_0000_0000
  {
    hide BE32, U32;
    var t := s[8..];
    assert s[8..12] == t[0..4] && s[12..16] == t[4..8] && s[16..20] == t[8..12];
    RoundTrip32(s, 8, a);
    RoundTrip32(s, 12, b);
    RoundTrip32(s, 16, c);
  }

  lemma MaskAt(s: seq<u8>, a: int)
    requires |s| >= 8 && s[8..] == BE32(a)
    ensures |s| == 12 && U32(s, 8) == a % 0x1_0000_0000
  {
    hide BE32, U32;
    assert s[8..12] == s[8..];
    RoundTrip32(s, 8, a);
  }

  lemma HostOrder(v: u16)
    ensures var t := Store(LittleEndian, v); t[0] + 0x100 * (t[1] as int) == v
  {}

  lemma QuotedParts(f: Ip, length: seq<u8>, protoSum: seq<u8>)
    requires f.Valid() && |length| == 2 && |protoSum| == 3
    ensures var h := RawIpBytes(f, length, protoSum);
            && h[0] == 0x45 && h[1] == TosOctet(f) && h[2..4] == length && h[4..6] == BE16(f.ident)
            && h[6..8] == Store(LittleEndian, OffWord(f)) && h[8] == Lo(f.hopLimit) && h[9..12] == protoSum
            && h[12..16] == f.src && h[16..20] == f.dst
  {
    hide BE16, TosOctet, OffWord, Lo, Store;
    var a := [0x45, TosOctet(f)] + length + BE16(f.ident);
    var b := Store(LittleEndian, OffWord(f)) + [Lo(f.hopLimit)] + protoSum;
    var h := a + b + (f.src + f.dst);
    assert RawIpBytes(f, length, protoSum) == h;
    assert h[0] == a[0] && h[1] == a[1] && h[2..4] == a[2..4] && h[4..6] == a[4..6];
    assert h[6..8] == b[0..2] && h[8] == b[2] && h[9..12] == b[3..6];
  }

  lemma LoIs(v: int)
    ensures Lo(v) == v % 0x100
  {}

  lemma QuotedLayout(f: Ip, was: seq<u8>, s: seq<u8>)
    requires f.Valid() && |was| >= 28 && |s| >= 28 && s[8..28] == RawIpBytes(f, was[10..12], was[17..20])
    ensures QuotedOnWire(f, was, s, 8)
  {
    var h := RawIpBytes(f, was[10..12], was[17..20]);
    QuotedParts(f, was[10..12], was[17..20]);
    FragmentIs(f);
    TosIsNumber(f);
    HostOrder(OffWord(f));
    hide RawIpBytes, BE16, U16, TosOctet, OffWord, TosNumber, FragmentNumber, Store, Lo;
    Octet(s, 8, 20, 0, h);
    Octet(s, 8, 20, 1, h);
    Octet(s, 8, 20, 8, h);
    Part(s, 8, 20, 2, 4, h);
    Part(s, 8, 20, 4, 6, h);
    Part(s, 8, 20, 6, 8, h);
    Part(s, 8, 20, 9, 12, h);
    Part(s, 8, 20, 12, 16, h);
    Part(s, 8, 20, 16, 20, h);
    assert s[14] == s[14..16][0] && s[15] == s[14..16][1];
    RoundTrip16(s, 12, f.ident);
    assert Lo(f.hopLimit) == f.hopLimit % 0x100 by { LoIs(f.hopLimit); }
  }

  lemma ErrorLayout(c: Icmp, data: seq<u8>, was: seq<u8>, s: seq<u8>)
    requires c.Valid() && KindOf(c.kind % 0x100) == Error && |was| == IcmpLen(c, |data|) == |s|
    requires s[4..] == IcmpTail(c, data, was)
    ensures s[4..8] == (if c.kind % 0x100 == 5 then c.redirect else was[4..8])
    ensures if c.ippacket.Some? then QuotedOnWire(c.ippacket.value, was, s, 8) && s[28..32] == was[28..32]
            else s[8..12] == was[8..12]
  {
    hide RawIpBytes, QuotedOnWire;
    var first := if c.kind % 0x100 == 5 then c.redirect else was[4..8];
    var t := s[4..];
    assert s[4..8] == t[0..4] == first;
    if c.ippacket.Some? {
      var raw := RawIpBytes(c.ippacket.value, was[10..12], was[17..20]);
      assert t == first + raw + was[28..32];
      assert s[8..28] == t[4..24] == raw && s[28..32] == t[24..28] == was[28..32];
      QuotedLayout(c.ippacket.value, was, s);
    } else {
      assert s[8..12] == t[4..8] == was[8..12];
    }
  }

  /** Every ICMP message set_icmp lays out has its fields where RFC 792 and RFC 950 put
      them. */
  lemma IcmpLayout(c: Icmp, data: seq<u8>, was: seq<u8>, next: u8)
    requires c.Valid() && |was| == IcmpLen(c, |data|)
    ensures IcmpOnWire(c, data, was, IcmpMessage(c, data, was, next))
  {
    hide BE16, BE32, U16, U32, Rfc1071, LittleSeen, Sealed, RawIpBytes, QuotedOnWire;
    var s := IcmpMessage(c, data, was, next);
    if KindOf(c.kind % 0x100) == OtherKind { return; }
    IcmpParts(c, data, was, next);
    hide IcmpMessage;
    match KindOf(c.kind % 0x100) {
      case Echo => IdsAt(s, c.id, c.sequence, data);
      case Timestamp =>
        IdsAt(s, c.id, c.sequence, BE32(c.otime) + BE32(c.rtime) + BE32(c.ttime));
        TimesAt(s, c.otime, c.rtime, c.ttime);
      case Mask =>
        IdsAt(s, c.id, c.sequence, BE32(c.mask));
        MaskAt(s, c.mask);
      case Error => ErrorLayout(c, data, was, s);
    }
  }

  // ---- ARP -------------------------------------------------------------------------------------

  /** An ARP packet with address lengths h and p: each octet belongs to the last address
      that was copied over it, and the octets between addresses keep their values. */
  ghost predicate ArpOnWire(a: Arp, was: seq<u8>, s: seq<u8>) {
    var h: int, p: int := a.hlen % 0x100, a.plen % 0x100;
    && 28 <= |s| <= |was| && U16(s, 0) == a.hardtype % 0x1_0000 && U16(s, 2) == a.prototype % 0x1_0000
    && s[4] == h && s[5] == p && U16(s, 6) == a.operation % 0x1_0000
    && |a.senderHard| >= h && |a.targetHard| >= h && |a.senderProto| >= p && |a.targetProto| >= p
    && 18 + h <= |s| && 24 + p <= |s|
    && forall i :: 8 <= i < |s| ==>
         s[i] == if 24 <= i < 24 + p then a.targetProto[i - 24]
                 else if 18 <= i < 18 + h then a.targetHard[i - 18]
                 else if 14 <= i < 14 + p then a.senderProto[i - 14]
                 else if i < 8 + h then a.senderHard[i - 8]
                 else was[i]
  }

  lemma ArpHeadAt(a: Arp, s: seq<u8>)
    requires |s| >= 8 && s[..8] == ArpHead(a)
    ensures U16(s, 0) == a.hardtype % 0x1_0000 && U16(s, 2) == a.prototype % 0x1_0000
    ensures s[4] == a.hlen % 0x100 && s[5] == a.plen % 0x100 && U16(s, 6) == a.operation % 0x1_0000
  {
    hide BE16, U16;
    var t := ArpHead(a);
    assert s[0..2] == t[0..2] == BE16(a.hardtype) && s[2..4] == t[2..4] == BE16(a.prototype);
    assert s[6..8] == t[6..8] == BE16(a.operation);
    RoundTrip16(s, 0, a.hardtype);
    RoundTrip16(s, 2, a.prototype);
    RoundTrip16(s, 6, a.operation);
  }

  lemma OverlayAt(was: seq<u8>, o: nat, t: seq<u8>, i: nat)
    requires o + |t| <= |was| && i < |was|
    ensures Overlay(was, o, t)[i] == if o <= i < o + |t| then t[i - o] else was[i]
  {}

  /** One octet of a laid-out packet. */
  lemma ArpOctetAt(a: Arp, was: seq<u8>, i: nat)
    requires a.Sized() && ArpReach(a) <= |was| && i < |was|
    ensures var h: int, p: int := a.hlen % 0x100, a.plen % 0x100;
            ArpLaid(was, 0, a)[i]
            == if 24 <= i < 24 + p then a.targetProto[i - 24]
               else if 18 <= i < 18 + h then a.targetHard[i - 18]
               else if 14 <= i < 14 + p then a.senderProto[i - 14]
               else if 8 <= i < 8 + h then a.senderHard[i - 8]
               else if i < 8 then ArpHead(a)[i]
               else was[i]
  {
    hide ArpHead, Overlay;
    var b := Overlay(was, 0, ArpHead(a));
    var c := Overlay(b, 8, a.senderHard[..a.HardLen()]);
    var d := Overlay(c, 14, a.senderProto[..a.ProtoLen()]);
    var e := Overlay(d, 18, a.targetHard[..a.HardLen()]);
    OverlayAt(was, 0, ArpHead(a), i);
    OverlayAt(b, 8, a.senderHard[..a.HardLen()], i);
    OverlayAt(c, 14, a.senderProto[..a.ProtoLen()], i);
    OverlayAt(d, 18, a.targetHard[..a.HardLen()], i);
    OverlayAt(e, 24, a.targetProto[..a.ProtoLen()], i);
  }

  lemma ReachIs(a: Arp)
    requires a.Sized()
    ensures var h: int, p: int := a.hlen % 0x100, a.plen % 0x100;
            && 28 <= ArpReach(a) && 18 + h <= ArpReach(a) && 24 + p <= ArpReach(a)
            && |a.senderHard| >= h && |a.targetHard| >= h && |a.senderProto| >= p && |a.targetProto| >= p
  {}

  lemma ArpLayout(a: Arp, was: seq<u8>)
    requires a.Sized() && ArpReach(a) <= |was|
    ensures ArpOnWire(a, was, ArpLaid(was, 0, a)[..ArpReach(a)])
  {
    var now := ArpLaid(was, 0, a);
    var s := now[..ArpReach(a)];
    hide ArpLaid, ArpHead, U16;
    forall i | 0 <= i < 8 ensures s[i] == ArpHead(a)[i] { ArpOctetAt(a, was, i); }
    assert s[..8] == ArpHead(a);
    ArpHeadAt(a, s);
    ReachIs(a);
    forall i | 8 <= i < |s|
      ensures var h: int, p: int := a.hlen % 0x100, a.plen % 0x100;
              s[i] == if 24 <= i < 24 + p then a.targetProto[i - 24]
                      else if 18 <= i < 18 + h then a.targetHard[i - 18]
                      else if 14 <= i < 14 + p then a.senderProto[i - 14]
                      else if i < 8 + h then a.senderHard[i - 8]
                      else was[i]
    {
      ArpOctetAt(a, was, i);
    }
  }

  // ---- whole packets ----------------------------------------------------------------------------

  /** What set_packet lays out behind the Ethernet header, and the length it returns for
      it; area is what the buffer held. */
  ghost predicate OnWire(p: Packet, area: seq<u8>, s: seq<u8>, length: nat) {
    match p.payload
    case TcpPayload(f, t) =>
      && length == |p.data| + 40 && IpOnWire(f, 6, length, s) && |area| > 32
      && TcpOnWire(t, area[32] % 0x10, if |p.data| > 1560 then p.data[..1560] else p.data, s[20..])
    case UdpPayload(f, u) =>
      && length == |p.data| + 28 && IpOnWire(f, 17, length, s)
      && UdpOnWire(u, if |p.data| > 1572 then p.data[..1572] else p.data, s[20..])
    case IcmpPayload(f, c) =>
      && IpOnWire(f, 1, length, s) && |s| <= |area| && IcmpOnWire(c, p.data, area[20..|s|], s[20..])
      && length == (if c.kind % 0x100 in {0, 3, 4, 5, 8, 11, 12, 13, 14, 17, 18} then |s| else 20 + |p.data|)
    case IpPayload(f) =>
      length == |p.data| + 20 && IpOnWire(f, f.protocol % 0x100, length, s) && s[20..] == p.data
    case ArpPayload(a) => length == |p.data| + 28 && ArpOnWire(a, area, s)
    case OtherPayload => length == |p.data| && s == p.data
  }

  lemma IcmpPart(c: Icmp, data: seq<u8>, area: seq<u8>)
    requires c.Valid() && IP_LEN + (if KindOf(c.kind % 0x100) == OtherKind then 2 else IcmpLen(c, |data|)) <= |area|
    ensures var n, rest := IcmpLen(c, |data|), area[IP_LEN..];
            var s := IcmpMessage(c, data, rest[..n], OctetAt(rest, n));
            && |s| == (if KindOf(c.kind % 0x100) == OtherKind then 2 else n)
            && IcmpOnWire(c, data, area[IP_LEN..IP_LEN + |s|], s)
  {
    hide QuotedOnWire, Rfc1071, LittleSeen, IcmpTail;
    var n, rest := IcmpLen(c, |data|), area[IP_LEN..];
    IcmpLayout(c, data, rest[..n], OctetAt(rest, n));
    assert rest[..n] == area[IP_LEN..IP_LEN + n];
  }

  /** The whole packet, for every class. */
  lemma PacketLayout(p: Packet, area: seq<u8>)
    requires p.Valid() && Space(p) <= |area|
    ensures OnWire(p, area, NetBytes(p, area), NetLen(p))
  {
    hide TcpSegment, UdpSegment, IcmpMessage, IpBytes, ArpLaid, IpOnWire, TcpOnWire, UdpOnWire, IcmpOnWire, ArpOnWire;
    match p.payload {
      case TcpPayload(f, t) =>
        IpLayout(f, PROTO_TCP, NetLen(p), Behind(p, area[IP_LEN..]));
        TcpLayout(f, t, area[IP_LEN..][12] % 0x10, Room(p.data, IP_LEN + TCP_LEN));
      case UdpPayload(f, u) =>
        IpLayout(f, PROTO_UDP, NetLen(p), Behind(p, area[IP_LEN..]));
        UdpLayout(f, u, Room(p.data, IP_LEN + UDP_LEN));
      case IcmpPayload(f, c) =>
        IpLayout(f, PROTO_ICMP, NetLen(p), Behind(p, area[IP_LEN..]));
        IcmpPart(c, p.data, area);
      case IpPayload(f) => IpLayout(f, Lo(f.protocol), NetLen(p), Behind(p, area[IP_LEN..]));
      case ArpPayload(a) => ArpLayout(a, area);
      case OtherPayload =>
    }
  }
}
