/** The packet objects of jpcap and the octets each header is made of.
    The host is little-endian, as the repository's own IP.H assumes. */
module Packets {
  import opened Bytes
  import opened Checksum

  const ETHER_LEN := 14
  const IP_LEN := 20
  const TCP_LEN := 20
  const UDP_LEN := 8
  const ICMP_LEN := 8
  const ARP_LEN := 28
  const MAX_PACKET_SIZE := 1600
  const MIN_FRAME := 60

  const ETHERTYPE_IP: u16 := 0x0800
  const ETHERTYPE_ARP: u16 := 0x0806
  const ETHERTYPE_REVARP: u16 := 0x8035
  const ETHERTYPE_IPV6: u16 := 0x86dd
  const UNKNOWN_PROTO: u16 := 0xffff

  const PROTO_ICMP: u8 := 1
  const PROTO_TCP: u8 := 6
  const PROTO_UDP: u8 := 17

  datatype Option<T> = None | Some(value: T)

  datatype Ether = Ether(dst: seq<u8>, src: seq<u8>, frametype: i16) {
    predicate Valid() { |dst| == 6 && |src| == 6 }
  }

  /** The IPv4 fields of an IPPacket. */
  datatype Ip = Ip(priority: i8, rsvTos: i8, dFlag: bool, tFlag: bool, rFlag: bool,
                   rsvFrag: bool, dontFrag: bool, moreFrag: bool, offset: i16, ident: i32,
                   hopLimit: i16, protocol: i16, src: seq<u8>, dst: seq<u8>) {
    predicate Valid() { |src| == 4 && |dst| == 4 }

    /** The payload is not a later part of a datagram. */
    predicate AtStart() { offset == 0 }

    predicate NoFlags() { !rsvFrag && !dontFrag && !moreFrag }

    /** The fields that a header field holds have the values it is read as. */
    predicate InRange() {
      0 <= priority < 8 && 0 <= rsvTos < 4 && -0x8000 <= ident < 0x8000 && 0 <= hopLimit < 0x100
    }
  }

  datatype Tcp = Tcp(srcPort: i32, dstPort: i32, sequence: i64, ackNum: i64,
                     urg: bool, ack: bool, psh: bool, rst: bool, syn: bool, fin: bool,
                     rsv1: bool, rsv2: bool, window: i32, urgentPointer: i16) {
    predicate InRange() {
      && 0 <= srcPort < 0x1_0000 && 0 <= dstPort < 0x1_0000 && 0 <= window < 0x1_0000
      && 0 <= sequence < 0x1_0000_0000 && 0 <= ackNum < 0x1_0000_0000
    }
  }

  datatype Udp = Udp(srcPort: i32, dstPort: i32) {
    predicate InRange() { 0 <= srcPort < 0x1_0000 && 0 <= dstPort < 0x1_0000 }
  }

  datatype Icmp = Icmp(kind: i8, code: i8, id: i16, sequence: i16, redirect: seq<u8>,
                       ippacket: Option<Ip>, otime: i32, rtime: i32, ttime: i32, mask: i32) {
    predicate Valid() { |redirect| == 4 && (ippacket.Some? ==> ippacket.value.Valid()) }
  }

  datatype Arp = Arp(hardtype: i16, prototype: i16, hlen: i16, plen: i16, operation: i16,
                     senderHard: seq<u8>, senderProto: seq<u8>, targetHard: seq<u8>, targetProto: seq<u8>) {
    predicate Valid() {
      hlen == 6 && plen == 4
      && |senderHard| == 6 && |senderProto| == 4 && |targetHard| == 6 && |targetProto| == 4
    }

    /** The address lengths as the header octets hold them. */
    function HardLen(): u8 { Lo(hlen) }
    function ProtoLen(): u8 { Lo(plen) }

    /** Every address array has the octets the length fields promise. */
    predicate Sized() {
      && |senderHard| >= HardLen() && |targetHard| >= HardLen()
      && |senderProto| >= ProtoLen() && |targetProto| >= ProtoLen()
    }
  }

  datatype Payload =
    | TcpPayload(ip: Ip, tcp: Tcp)
    | UdpPayload(ip: Ip, udp: Udp)
    | IcmpPayload(ip: Ip, icmp: Icmp)
    | IpPayload(ip: Ip)
    | ArpPayload(arp: Arp)
    | OtherPayload

  /** A packet handed to the sender: class, Ethernet header and data array. */
  datatype Packet = Packet(ether: Option<Ether>, payload: Payload, data: seq<u8>) {
    predicate Valid() {
      && (ether.Some? ==> ether.value.Valid())
      && match payload {
           case TcpPayload(ip, _) => ip.Valid()
           case UdpPayload(ip, _) => ip.Valid()
           case IcmpPayload(ip, icmp) => ip.Valid() && icmp.Valid()
           case IpPayload(ip) => ip.Valid()
           case ArpPayload(arp) => arp.Sized()
           case OtherPayload => true
         }
    }

    function EtherLen(): nat { if ether.Some? then ETHER_LEN else 0 }
  }

  function Bit(b: bool, weight: nat): nat { if b then weight else 0 }

  predicate TestBit(v: nat, weight: nat) requires weight > 0 { v / weight % 2 == 1 }

  // ---- header octets -----------------------------------------------------------

  function EtherBytes(e: Ether): seq<u8> { e.dst + e.src + BE16(e.frametype) }

  function TosOctet(f: Ip): u8 {
    (f.priority * 0x20 + f.rsvTos + Bit(f.dFlag, 0x10) + Bit(f.tFlag, 0x08) + Bit(f.rFlag, 0x04)) % 0x100
  }

  /** The value set_ip computes for ip_off before any byte swap: the flags in
      host order plus an offset that is already swapped. */
  function OffWord(f: Ip): u16 {
    (Bit(f.rsvFrag, 0x8000) + Bit(f.dontFrag, 0x4000) + Bit(f.moreFrag, 0x2000) + Swap(f.offset % 0x1_0000)) % 0x1_0000
  }

  /** A region with a 16-bit checksum field between two parts. */
  function Sealed(before: seq<u8>, sum: u16, after: seq<u8>): (s: seq<u8>)
    ensures |s| == |before| + 2 + |after|
  {
    before + BE16(sum) + after
  }

  /** The IPv4 header up to its checksum. */
  function IpBefore(f: Ip, protocol: u8, total: int): (s: seq<u8>)
    ensures |s| == 10
  {
    [0x45, TosOctet(f)] + BE16(total) + BE16(f.ident) + BE16(OffWord(f)) + [Lo(f.hopLimit), protocol]
  }

  /** The finished IPv4 header: total length and checksum in place. */
  function IpBytes(f: Ip, protocol: u8, total: int): (s: seq<u8>)
    requires f.Valid()
    ensures |s| == IP_LEN
  {
    var before, after := IpBefore(f, protocol, total), f.src + f.dst;
    Sealed(before, Rfc1071(Sealed(before, 0, after)), after)
  }

  /** What set_ip alone leaves in a 20-octet area: the length and the protocol
      and checksum octets keep their values, and ip_off is still in host order. */
  function RawIpBytes(f: Ip, length: seq<u8>, protoSum: seq<u8>): (s: seq<u8>)
    requires f.Valid() && |length| == 2 && |protoSum| == 3
    ensures |s| == IP_LEN
  {
    [0x45, TosOctet(f)] + length + BE16(f.ident) + Store(LittleEndian, OffWord(f))
    + [Lo(f.hopLimit)] + protoSum + f.src + f.dst
  }

  function FlagOctet(t: Tcp): u8 {
    Bit(t.rsv1, 0x80) + Bit(t.rsv2, 0x40) + Bit(t.urg, 0x20) + Bit(t.ack, 0x10)
    + Bit(t.psh, 0x08) + Bit(t.rst, 0x04) + Bit(t.syn, 0x02) + Bit(t.fin, 0x01)
  }

  /** A TCP header without options up to its checksum; x2 is the reserved half
      octet, which the builder leaves as it finds it. */
  function TcpBefore(t: Tcp, x2: u8): (s: seq<u8>)
    requires x2 < 0x10
    ensures |s| == 16
  {
    BE16(t.srcPort) + BE16(t.dstPort) + BE32(t.sequence) + BE32(t.ackNum)
    + [0x50 + x2, FlagOctet(t)] + BE16(t.window)
  }

  /** The data that still fits the buffer behind the two headers. */
  function Room(data: seq<u8>, headers: nat): (s: seq<u8>)
    requires headers <= MAX_PACKET_SIZE
    ensures s <= data
  {
    if |data| + headers > MAX_PACKET_SIZE then data[..MAX_PACKET_SIZE - headers] else data
  }

  function TcpAfter(t: Tcp, data: seq<u8>): (s: seq<u8>)
    ensures |s| == 2 + |data|
  {
    BE16(t.urgentPointer) + data
  }

  function UdpBefore(u: Udp, length: int): (s: seq<u8>)
    ensures |s| == 6
  {
    BE16(u.srcPort) + BE16(u.dstPort) + BE16(length)
  }

  /** The checksum of a TCP or UDP segment with its pseudo-header. */
  function TransportSum(addresses: seq<u8>, protocol: u8, before: seq<u8>, after: seq<u8>): u16 {
    Rfc1071(Pseudo(addresses, protocol, (|before| + 2 + |after|) % 0x1_0000) + Sealed(before, 0, after))
  }

  function TcpSegment(f: Ip, t: Tcp, x2: u8, data: seq<u8>): (s: seq<u8>)
    requires x2 < 0x10
    ensures |s| == TCP_LEN + |data|
  {
    var before, after := TcpBefore(t, x2), TcpAfter(t, data);
    Sealed(before, TransportSum(f.src + f.dst, PROTO_TCP, before, after), after)
  }

  /** A UDP checksum of zero is sent as all ones. */
  function NonZero(sum: u16): u16 { if sum == 0 then 0xffff else sum }

  function UdpSegment(f: Ip, u: Udp, data: seq<u8>): (s: seq<u8>)
    ensures |s| == UDP_LEN + |data|
  {
    var before := UdpBefore(u, UDP_LEN + |data|);
    Sealed(before, NonZero(TransportSum(f.src + f.dst, PROTO_UDP, before, data)), data)
  }

  function ArpBytes(a: Arp): (s: seq<u8>)
    requires a.Valid()
    ensures |s| == ARP_LEN
  {
    BE16(a.hardtype) + BE16(a.prototype) + [6, 4] + BE16(a.operation)
    + a.senderHard + a.senderProto + a.targetHard + a.targetProto
  }

  /** The octets of was with t at o. */
  function Overlay(was: seq<u8>, o: nat, t: seq<u8>): (now: seq<u8>)
    requires o + |t| <= |was|
    ensures |now| == |was|
  {
    was[..o] + t + was[o + |t|..]
  }

  function Longest(a: nat, b: nat): nat { if a < b then b else a }

  /** How far set_arp reaches: the addresses go to fixed places with any length. */
  function ArpReach(a: Arp): (n: nat)
    ensures n >= ARP_LEN
  {
    Longest(18 + a.HardLen(), Longest(24 + a.ProtoLen(), ARP_LEN))
  }

  function ArpHead(a: Arp): (s: seq<u8>)
    ensures |s| == 8
  {
    BE16(a.hardtype) + BE16(a.prototype) + [a.HardLen(), a.ProtoLen()] + BE16(a.operation)
  }

  /** The buffer after set_arp: addresses longer than 6 and 4 octets run into the fields
      behind them and are overwritten there. */
  function ArpLaid(was: seq<u8>, o: nat, a: Arp): (now: seq<u8>)
    requires a.Sized() && o + ArpReach(a) <= |was|
    ensures |now| == |was|
  {
    var b := Overlay(was, o, ArpHead(a));
    var c := Overlay(b, o + 8, a.senderHard[..a.HardLen()]);
    var d := Overlay(c, o + 14, a.senderProto[..a.ProtoLen()]);
    var e := Overlay(d, o + 18, a.targetHard[..a.HardLen()]);
    Overlay(e, o + 24, a.targetProto[..a.ProtoLen()])
  }

  datatype IcmpKind = Echo | Error | Timestamp | Mask | OtherKind

  function KindOf(kind: u8): IcmpKind {
    if kind == 0 || kind == 8 then Echo
    else if kind == 5 || kind == 3 || kind == 4 || kind == 11 || kind == 12 then Error
    else if kind == 13 || kind == 14 then Timestamp
    else if kind == 17 || kind == 18 then Mask
    else OtherKind
  }

  /** Length of the ICMP message set_icmp lays out (0: nothing but type and code). */
  function IcmpLen(c: Icmp, dataLen: nat): nat {
    match KindOf(c.kind % 0x100)
    case Echo => ICMP_LEN + dataLen
    case Error => if c.ippacket.Some? then 12 + IP_LEN else 12
    case Timestamp => 20
    case Mask => 12
    case OtherKind => 0
  }

  /** Octets of the ICMP message after type, code and checksum.  Areas the
      original does not write keep what the buffer held before (was). */
  function IcmpTail(c: Icmp, data: seq<u8>, was: seq<u8>): (s: seq<u8>)
    requires c.Valid() && |was| == IcmpLen(c, |data|)
    ensures KindOf(c.kind % 0x100) != OtherKind ==> |s| + 4 == IcmpLen(c, |data|)
  {
    var idseq := BE16(c.id) + BE16(c.sequence);
    match KindOf(c.kind % 0x100)
    case Echo => idseq + data
    case Error =>
      (if c.kind % 0x100 == 5 then c.redirect else was[4..8])
      + (if c.ippacket.Some? then RawIpBytes(c.ippacket.value, was[10..12], was[17..20]) + was[28..32] else was[8..12])
    case Timestamp => idseq + BE32(c.otime) + BE32(c.rtime) + BE32(c.ttime)
    case Mask => idseq + BE32(c.mask)
    case OtherKind => []
  }

  /** in_cksum's view of a region on a little-endian host. */
  function LittleSeen(s: seq<u8>, next: u8): seq<u8> {
    if |s| % 2 == 1 then s[..|s| - 1] + [0] + [next] else s
  }

  /** The octets set_icmp writes: was is the message area before, next the octet
      behind it, which in_cksum reads when the size is odd. */
  function IcmpMessage(c: Icmp, data: seq<u8>, was: seq<u8>, next: u8): seq<u8>
    requires c.Valid() && |was| == IcmpLen(c, |data|)
  {
    var before, tail := [c.kind % 0x100, c.code % 0x100], IcmpTail(c, data, was);
    if KindOf(c.kind % 0x100) == OtherKind then before
    else Sealed(before, Rfc1071(LittleSeen(Sealed(before, 0, tail), next)), tail)
  }

  function OctetAt(s: seq<u8>, i: nat): u8 { if i < |s| then s[i] else 0 }

  /** The length set_packet returns for the part behind the Ethernet header. */
  function NetLen(p: Packet): nat {
    match p.payload
    case TcpPayload(_, _) => |p.data| + IP_LEN + TCP_LEN
    case UdpPayload(_, _) => |p.data| + IP_LEN + UDP_LEN
    case IcmpPayload(_, c) =>
      IP_LEN + if KindOf(c.kind % 0x100) == OtherKind then |p.data| else IcmpLen(c, |p.data|)
    case IpPayload(_) => |p.data| + IP_LEN
    case ArpPayload(_) => |p.data| + ARP_LEN
    case OtherPayload => |p.data|
  }

  /** How far behind the Ethernet header set_packet reaches into the buffer. */
  function Space(p: Packet): nat {
    match p.payload
    case TcpPayload(_, _) => IP_LEN + TCP_LEN + |Room(p.data, IP_LEN + TCP_LEN)|
    case UdpPayload(_, _) => IP_LEN + UDP_LEN + |Room(p.data, IP_LEN + UDP_LEN)|
    case IcmpPayload(_, c) =>
      var n := IcmpLen(c, |p.data|);
      IP_LEN + if n < 2 then 2 else n + n % 2
    case IpPayload(_) => IP_LEN + |p.data|
    case ArpPayload(a) => ArpReach(a)
    case OtherPayload => |p.data|
  }

  /** The octets set_packet lays out behind the IPv4 header; area is what the
      buffer held from there on. */
  function Behind(p: Packet, area: seq<u8>): seq<u8>
    requires p.Valid() && Space(p) <= IP_LEN + |area|
  {
    match p.payload
    case TcpPayload(f, t) => TcpSegment(f, t, area[12] % 0x10, Room(p.data, IP_LEN + TCP_LEN))
    case UdpPayload(f, u) => UdpSegment(f, u, Room(p.data, IP_LEN + UDP_LEN))
    case IcmpPayload(f, c) =>
      var n := IcmpLen(c, |p.data|);
      IcmpMessage(c, p.data, area[..n], OctetAt(area, n))
    case _ => p.data
  }

  /** The octets set_packet lays out behind the Ethernet header. */
  function NetBytes(p: Packet, area: seq<u8>): seq<u8>
    requires p.Valid() && Space(p) <= |area|
  {
    match p.payload
    case TcpPayload(f, _) => IpBytes(f, PROTO_TCP, NetLen(p)) + Behind(p, area[IP_LEN..])
    case UdpPayload(f, _) => IpBytes(f, PROTO_UDP, NetLen(p)) + Behind(p, area[IP_LEN..])
    case IcmpPayload(f, _) => IpBytes(f, PROTO_ICMP, NetLen(p)) + Behind(p, area[IP_LEN..])
    case IpPayload(f) => IpBytes(f, Lo(f.protocol), NetLen(p)) + Behind(p, area[IP_LEN..])
    case ArpPayload(a) => ArpLaid(area, 0, a)[..ArpReach(a)]
    case OtherPayload => p.data
  }

  function LinkBytes(p: Packet): (s: seq<u8>)
    requires p.Valid()
    ensures |s| == p.EtherLen()
  {
    if p.ether.Some? then EtherBytes(p.ether.value) else []
  }
}
