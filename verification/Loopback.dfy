/** Building, padding and capturing a packet gives its contents back. */
module Loopback {
  import opened Bytes
  import opened Checksum
  import opened Packets
  import opened Sender
  import opened Captor
  import opened CaptureLaws
  import opened RoundTrip

  predicate IsType(p: Packet, nproto: u16) { p.ether.Some? && p.ether.value.frametype % 0x1_0000 == nproto }

  /** The packets the round trip is promised for. */
  predicate Ordinary(p: Packet) {
    && p.Valid() && p.ether.Some? && ETHER_LEN + NetLen(p) <= MAX_PACKET_SIZE
    && match p.payload
       case TcpPayload(f, _) => f.AtStart() && IsType(p, ETHERTYPE_IP)
       case UdpPayload(f, _) => f.AtStart() && IsType(p, ETHERTYPE_IP)
       case IpPayload(f) =>
         f.AtStart() && IsType(p, ETHERTYPE_IP)
         && Lo(f.protocol) != PROTO_TCP && Lo(f.protocol) != PROTO_UDP && Lo(f.protocol) != PROTO_ICMP
       case IcmpPayload(f, c) => f.AtStart() && IsType(p, ETHERTYPE_IP) && KindOf(c.kind % 0x100) != OtherKind
       case ArpPayload(a) => a.Valid() && IsType(p, ETHERTYPE_ARP)
       case OtherPayload =>
         !IsType(p, ETHERTYPE_IP) && !IsType(p, ETHERTYPE_ARP) && !IsType(p, ETHERTYPE_IPV6)
         && !IsType(p, UNKNOWN_PROTO) && ETHER_LEN + |p.data| >= MIN_FRAME
         && !IsType(p, PROTO_TCP) && !IsType(p, PROTO_UDP) && !IsType(p, PROTO_ICMP)
  }

  /** What is behind the eight octets of the ICMP header. */
  predicate IsIcmpData(c: Icmp, data: seq<u8>, got: seq<u8>) {
    match KindOf(c.kind % 0x100)
    case Echo => got == data
    case Timestamp => got == BE32(c.otime) + BE32(c.rtime) + BE32(c.ttime)
    case Mask => got == BE32(c.mask)
    case Error => |got| + ICMP_LEN == IcmpLen(c, |data|)
    case OtherKind => false
  }

  /** The captured packet carries what was sent. */
  predicate Recovered(p: Packet, r: Capture)
    requires Ordinary(p)
  {
    && r.Captured? && r.ether == p.ether
    && match p.payload
       case TcpPayload(f, t) =>
         && r.class_ == TcpClass && r.net == Ip4Net(Carried(f, PROTO_TCP), ToI16(NetLen(p)), [])
         && r.transport == TcpTransport(CarriedTcp(t), []) && |r.header| == ETHER_LEN + IP_LEN + TCP_LEN
         && r.data == p.data
       case UdpPayload(f, u) =>
         && r.class_ == UdpClass && r.net == Ip4Net(Carried(f, PROTO_UDP), ToI16(NetLen(p)), [])
         && r.transport == UdpTransport(CarriedUdp(u), UDP_LEN + |p.data|) && |r.header| == ETHER_LEN + IP_LEN + UDP_LEN
         && r.data == p.data
       case IcmpPayload(f, c) =>
         && r.class_ == IcmpClass && r.net == Ip4Net(Carried(f, PROTO_ICMP), ToI16(NetLen(p)), [])
         && |r.header| == ETHER_LEN + IP_LEN + ICMP_LEN && IsIcmpData(c, p.data, r.data)
       case IpPayload(f) =>
         && r.class_ == IpClass && r.net == Ip4Net(Carried(f, Lo(f.protocol)), ToI16(NetLen(p)), [])
         && r.transport == NoTransport && |r.header| == ETHER_LEN + IP_LEN && r.data == p.data
       case ArpPayload(a) =>
         r.class_ == ArpClass && r.net == ArpNet(a) && |r.header| == ETHER_LEN + ARP_LEN && r.data == []
       case OtherPayload =>
         |r.header| == ETHER_LEN && r.data == p.data && r.net == NoNet && r.transport == NoTransport
  }

  /** The octets laid out behind the Ethernet header: set_arp writes no data, although
      its length counts them. */
  function LaidLen(p: Packet): (n: nat)
    ensures n <= NetLen(p)
  {
    if p.payload.ArpPayload? then ARP_LEN else NetLen(p)
  }

  /** s starts with the octets of p, and caplen of its octets are the frame; what
      pads a short frame does not matter. */
  ghost predicate FrameOf(p: Packet, area: seq<u8>, s: seq<u8>, caplen: nat) {
    && p.Valid() && p.ether.Some? && Space(p) <= |area| && MIN_FRAME <= caplen <= |s| && caplen <= MAX_PACKET_SIZE
    && |NetBytes(p, area)| == LaidLen(p) && ETHER_LEN + NetLen(p) <= caplen
    && s[..ETHER_LEN] == EtherBytes(p.ether.value)
    && s[ETHER_LEN..ETHER_LEN + LaidLen(p)] == NetBytes(p, area)
  }

  // ---- the stages of get_packet on an IPv4 frame -------------------------------------

  ghost predicate Ip4Frame(s: seq<u8>, caplen: nat, e: Ether, f: Ip, protocol: u8, total: nat) {
    && e.Valid() && e.frametype % 0x1_0000 == ETHERTYPE_IP && f.Valid() && f.AtStart()
    && MIN_FRAME <= caplen <= |s| && caplen <= MAX_PACKET_SIZE && IP_LEN <= total && ETHER_LEN + total <= caplen
    && s[..ETHER_LEN] == EtherBytes(e) && IpAt(s, ETHER_LEN, f, protocol, total)
  }

  lemma IpReads14(s: seq<u8>, f: Ip, protocol: u8, total: nat)
    requires f.AtStart() && total < 0x8000 && IpAt(s, ETHER_LEN, f, protocol, total)
    ensures |s| >= 34 && AnalyzeIp(s, 14) == Carried(f, protocol)
    ensures IpHeaderLen(s, 14) == 20 && ToI16(U16(s, 16)) == total && FragmentOffset(s, 14) == 0 && s[23] == protocol
  {
    IpReads(s, 14, f, protocol, total);
  }

  lemma AvailableIs(caplen: nat)
    requires ETHER_LEN <= caplen <= MAX_PACKET_SIZE
    ensures Available(caplen, EthernetLink) == caplen - ETHER_LEN
  {}

  lemma Ip4Stages(s: seq<u8>, caplen: nat, junk: u16, e: Ether, f: Ip, protocol: u8, total: nat)
    requires Ip4Frame(s, caplen, e, f, protocol, total)
    ensures Readable(s, EthernetLink) && NetType(s, EthernetLink) == ETHERTYPE_IP
    ensures AnalyzeLink(s, EthernetLink) == Some(e) && NetStart(s, EthernetLink) == ETHER_LEN
    ensures AnalyzeNet(s, caplen, EthernetLink) == NetStage(Ip4Net(Carried(f, protocol), total, []), IP_LEN, total)
    ensures TransportOf(s, caplen, EthernetLink, junk) == protocol
    ensures Clamp(ETHERTYPE_IP, protocol, total, caplen, ETHER_LEN) == total
  {
    hide IpAt, EtherBytes, U16, TosOctet, BE16;
    EtherReads(s, e);
    IpReads14(s, f, protocol, total);
    hide AnalyzeIp, AnalyzeLink, ToI16, FragmentOffset, Carried;
    AvailableIs(caplen);
    ClampBounds(ETHERTYPE_IP, protocol, total, caplen, ETHER_LEN);
  }

  /** The last stage: where headers end inside the total length, the rest is data. */
  lemma SplitIs(s: seq<u8>, total: nat, netHlen: nat, transportHlen: nat)
    requires netHlen + transportHlen <= total && transportHlen < 0x100 && ETHER_LEN + total <= |s|
             && total <= MAX_PACKET_SIZE
    ensures Split(s, ETHER_LEN, total, netHlen, transportHlen)
         == Some((s[..ETHER_LEN + netHlen + transportHlen], s[ETHER_LEN + netHlen + transportHlen..ETHER_LEN + total]))
  {}

  lemma Ip4Result(s: seq<u8>, caplen: nat, junk: u16, e: Ether, f: Ip, protocol: u8, total: nat, t: Transport,
          hlen: nat)
    requires Ip4Frame(s, caplen, e, f, protocol, total) && IP_LEN + hlen <= total && hlen <= 60
    requires AnalyzeTransport(s, ETHER_LEN + IP_LEN, protocol) == TransportStage(t, hlen)
    ensures var at := ETHER_LEN + IP_LEN + hlen;
            Analyse(s, caplen, EthernetLink, junk)
            == Captured(ClassOf(ETHERTYPE_IP, protocol), Some(e), Ip4Net(Carried(f, protocol), total, []), t,
                        s[..at], s[at..ETHER_LEN + total])
  {
    Ip4Stages(s, caplen, junk, e, f, protocol, total);
    SplitIs(s, total, IP_LEN, hlen);
    hide Ip4Frame, Readable, AnalyzeNet, AnalyzeLink, AnalyzeTransport, TransportOf, Split, Clamp, NetType, NetStart;
  }

  // ---- the payloads -----------------------------------------------------------------

  lemma Within(s: seq<u8>, a: nat, n: nat, x: nat, whole: seq<u8>, head: seq<u8>, tail: seq<u8>)
    requires a + n <= |s| && s[a..a + n] == whole && whole == head + tail && |head| == x
    ensures a + x <= |s| && s[a..a + x] == head && s[a + x..a + n] == tail
  {
    assert s[a..a + n][..x] == s[a..a + x];
    assert s[a..a + n][x..] == s[a + x..a + n];
  }

  lemma Ip4Located(p: Packet, area: seq<u8>, s: seq<u8>, caplen: nat, f: Ip, protocol: u8)
    requires Ordinary(p) && FrameOf(p, area, s, caplen) && IsIp(p, f, protocol)
    ensures Ip4Frame(s, caplen, p.ether.value, f, protocol, NetLen(p))
    ensures s[ETHER_LEN + IP_LEN..ETHER_LEN + NetLen(p)] == Behind(p, area[IP_LEN..])
  {
    hide IpBytes, Behind, EtherBytes;
    Within(s, ETHER_LEN, NetLen(p), IP_LEN, NetBytes(p, area), IpBytes(f, protocol, NetLen(p)),
           Behind(p, area[IP_LEN..]));
    IpInPlace(s, ETHER_LEN, f, protocol, NetLen(p));
  }

  /** The octets behind the IPv4 header, as the transport stage sees them. */
  ghost predicate BehindAt(p: Packet, rest: seq<u8>, s: seq<u8>) {
    && Ordinary(p) && Space(p) <= IP_LEN + |rest| && ETHER_LEN + IP_LEN <= ETHER_LEN + NetLen(p) <= |s|
    && s[ETHER_LEN + IP_LEN..ETHER_LEN + NetLen(p)] == Behind(p, rest)
  }

  lemma TcpStage(p: Packet, rest: seq<u8>, s: seq<u8>)
    requires BehindAt(p, rest, s) && p.payload.TcpPayload?
    ensures AnalyzeTransport(s, ETHER_LEN + IP_LEN, PROTO_TCP)
         == TransportStage(TcpTransport(CarriedTcp(p.payload.tcp), []), TCP_LEN)
    ensures s[ETHER_LEN + IP_LEN + TCP_LEN..ETHER_LEN + NetLen(p)] == p.data
  {
    var f, t, x2 := p.payload.ip, p.payload.tcp, rest[12] % 0x10;
    hide TransportSum, Sealed, TcpBefore, TcpAfter, AnalyzeTcp;
    var sum := TransportSum(f.src + f.dst, PROTO_TCP, TcpBefore(t, x2), TcpAfter(t, p.data));
    TcpInPlace(s, ETHER_LEN + IP_LEN, TCP_LEN + |p.data|, t, x2, sum, p.data);
    TcpReads(s, ETHER_LEN + IP_LEN, t);
  }

  lemma UdpStage(p: Packet, rest: seq<u8>, s: seq<u8>)
    requires BehindAt(p, rest, s) && p.payload.UdpPayload?
    ensures AnalyzeTransport(s, ETHER_LEN + IP_LEN, PROTO_UDP)
         == TransportStage(UdpTransport(CarriedUdp(p.payload.udp), UDP_LEN + |p.data|), UDP_LEN)
    ensures s[ETHER_LEN + IP_LEN + UDP_LEN..ETHER_LEN + NetLen(p)] == p.data
  {
    var f, u, n := p.payload.ip, p.payload.udp, UDP_LEN + |p.data|;
    hide TransportSum, Sealed, UdpBefore, U16;
    var sum := NonZero(TransportSum(f.src + f.dst, PROTO_UDP, UdpBefore(u, n), p.data));
    UdpInPlace(s, ETHER_LEN + IP_LEN, n, u, sum, p.data);
  }

  lemma IcmpEnds(p: Packet, rest: seq<u8>)
    requires Ordinary(p) && p.payload.IcmpPayload? && Space(p) <= IP_LEN + |rest|
    ensures ICMP_LEN <= |Behind(p, rest)| == NetLen(p) - IP_LEN
    ensures IsIcmpData(p.payload.icmp, p.data, Behind(p, rest)[ICMP_LEN..])
  {
    hide Rfc1071, BE16, BE32, LittleSeen, RawIpBytes;
    var c := p.payload.icmp;
    var n := IcmpLen(c, |p.data|);
    var m := Behind(p, rest);
    var tail := IcmpTail(c, p.data, rest[..n]);
    assert m[4..] == tail && m[8..] == tail[4..];
  }

  lemma IcmpStage(p: Packet, rest: seq<u8>, s: seq<u8>)
    requires BehindAt(p, rest, s) && p.payload.IcmpPayload?
    ensures IP_LEN + ICMP_LEN <= NetLen(p)
    ensures AnalyzeTransport(s, ETHER_LEN + IP_LEN, PROTO_ICMP) == TransportStage(IcmpTransport, ICMP_LEN)
    ensures IsIcmpData(p.payload.icmp, p.data, s[ETHER_LEN + IP_LEN + ICMP_LEN..ETHER_LEN + NetLen(p)])
  {
    IcmpEnds(p, rest);
    hide Behind, IsIcmpData, NetLen;
    var whole := Behind(p, rest);
    Within(s, ETHER_LEN + IP_LEN, |whole|, ICMP_LEN, whole, whole[..ICMP_LEN], whole[ICMP_LEN..]);
  }

  lemma IpStage(p: Packet, rest: seq<u8>, s: seq<u8>, f: Ip, protocol: u8)
    requires BehindAt(p, rest, s) && p.payload == IpPayload(f) && protocol == Lo(f.protocol)
    ensures AnalyzeTransport(s, ETHER_LEN + IP_LEN, protocol) == TransportStage(NoTransport, 0)
    ensures s[ETHER_LEN + IP_LEN..ETHER_LEN + NetLen(p)] == p.data
    ensures ClassOf(ETHERTYPE_IP, protocol) == IpClass
  {}

  lemma NetLenSmall(p: Packet)
    requires Ordinary(p)
    ensures ToI16(NetLen(p)) == NetLen(p)
  {
    Narrow(NetLen(p));
  }

  lemma InFrame(p: Packet, area: seq<u8>, s: seq<u8>, caplen: nat, f: Ip, protocol: u8)
    requires Ordinary(p) && FrameOf(p, area, s, caplen) && IsIp(p, f, protocol)
    ensures Ip4Frame(s, caplen, p.ether.value, f, protocol, NetLen(p))
    ensures IP_LEN <= |area| && ETHER_LEN + IP_LEN <= ETHER_LEN + NetLen(p) <= |s|
    ensures BehindAt(p, area[IP_LEN..], s) && ToI16(NetLen(p)) == NetLen(p)
  {
    hide NetBytes, EtherBytes, Behind, Ip4Frame, IpBytes;
    NetLenSmall(p);
    Ip4Located(p, area, s, caplen, f, protocol);
  }

  lemma TcpLoop(p: Packet, area: seq<u8>, s: seq<u8>, caplen: nat, junk: u16)
    requires Ordinary(p) && FrameOf(p, area, s, caplen) && p.payload.TcpPayload?
    ensures Recovered(p, Analyse(s, caplen, EthernetLink, junk))
  {
    hide FrameOf, Ip4Frame, BehindAt, AnalyzeTransport, Analyse, ToI16;
    InFrame(p, area, s, caplen, p.payload.ip, PROTO_TCP);
    TcpStage(p, area[IP_LEN..], s);
    Ip4Result(s, caplen, junk, p.ether.value, p.payload.ip, PROTO_TCP, NetLen(p),
              TcpTransport(CarriedTcp(p.payload.tcp), []), TCP_LEN);
  }

  lemma UdpLoop(p: Packet, area: seq<u8>, s: seq<u8>, caplen: nat, junk: u16)
    requires Ordinary(p) && FrameOf(p, area, s, caplen) && p.payload.UdpPayload?
    ensures Recovered(p, Analyse(s, caplen, EthernetLink, junk))
  {
    hide FrameOf, Ip4Frame, BehindAt, AnalyzeTransport, Analyse, ToI16;
    InFrame(p, area, s, caplen, p.payload.ip, PROTO_UDP);
    UdpStage(p, area[IP_LEN..], s);
    Ip4Result(s, caplen, junk, p.ether.value, p.payload.ip, PROTO_UDP, NetLen(p),
              UdpTransport(CarriedUdp(p.payload.udp), UDP_LEN + |p.data|), UDP_LEN);
  }

  lemma EnoughOctets(p: Packet, area: seq<u8>, s: seq<u8>, caplen: nat)
    requires FrameOf(p, area, s, caplen)
    ensures caplen <= |s| && |s| >= MIN_FRAME
  {
    hide NetBytes, EtherBytes;
  }

  lemma IpLoopOf(p: Packet, area: seq<u8>, s: seq<u8>, caplen: nat, junk: u16, f: Ip, protocol: u8)
    requires Ordinary(p) && FrameOf(p, area, s, caplen) && p.payload == IpPayload(f)
    requires protocol == Lo(f.protocol)
    ensures |s| >= ETHER_LEN + IP_LEN
    ensures Analyse(s, caplen, EthernetLink, junk)
         == Captured(IpClass, p.ether, Ip4Net(Carried(f, protocol), ToI16(NetLen(p)), []), NoTransport,
             s[..ETHER_LEN + IP_LEN], p.data)
  {
    hide FrameOf, Ip4Frame, BehindAt, AnalyzeTransport, Analyse, ToI16, Lo, ClassOf;
    InFrame(p, area, s, caplen, f, protocol);
    IpStage(p, area[IP_LEN..], s, f, protocol);
    Ip4Result(s, caplen, junk, p.ether.value, f, protocol, NetLen(p), NoTransport, 0);
  }

  lemma IpRecovered(p: Packet, header: seq<u8>)
    requires Ordinary(p) && p.payload.IpPayload? && |header| == ETHER_LEN + IP_LEN
    ensures Recovered(p, Captured(IpClass, p.ether,
                                  Ip4Net(Carried(p.payload.ip, Lo(p.payload.ip.protocol)), ToI16(NetLen(p)), []),
                                  NoTransport, header, p.data))
  {
    hide ToI16;
  }

  lemma IpLoop(p: Packet, area: seq<u8>, s: seq<u8>, caplen: nat, junk: u16)
    requires Ordinary(p) && FrameOf(p, area, s, caplen) && p.payload.IpPayload?
    ensures Recovered(p, Analyse(s, caplen, EthernetLink, junk))
  {
    hide FrameOf, Analyse, Recovered, Lo, Ordinary;
    EnoughOctets(p, area, s, caplen);
    IpLoopOf(p, area, s, caplen, junk, p.payload.ip, Lo(p.payload.ip.protocol));
    IpRecovered(p, s[..ETHER_LEN + IP_LEN]);
  }

  lemma IcmpLoop(p: Packet, area: seq<u8>, s: seq<u8>, caplen: nat, junk: u16)
    requires Ordinary(p) && FrameOf(p, area, s, caplen) && p.payload.IcmpPayload?
    ensures Recovered(p, Analyse(s, caplen, EthernetLink, junk))
  {
    hide FrameOf, Ip4Frame, BehindAt, AnalyzeTransport, Analyse, ToI16;
    InFrame(p, area, s, caplen, p.payload.ip, PROTO_ICMP);
    IcmpStage(p, area[IP_LEN..], s);
    Ip4Result(s, caplen, junk, p.ether.value, p.payload.ip, PROTO_ICMP, NetLen(p), IcmpTransport, ICMP_LEN);
  }

  lemma ArpResult(s: seq<u8>, caplen: nat, junk: u16, ether: Option<Ether>, a: Arp)
    requires MIN_FRAME <= caplen <= |s| && NetType(s, EthernetLink) == ETHERTYPE_ARP
    requires AnalyzeLink(s, EthernetLink) == ether && ArpLen(s, ETHER_LEN) == ARP_LEN && AnalyzeArp(s, ETHER_LEN) == a
    requires Available(caplen, EthernetLink) == caplen - ETHER_LEN
    requires Clamp(ETHERTYPE_ARP, ETHERTYPE_ARP, ARP_LEN, caplen, ETHER_LEN) == ARP_LEN
    requires Split(s, ETHER_LEN, ARP_LEN, ARP_LEN, 0) == Some((s[..42], s[42..42]))
    ensures Analyse(s, caplen, EthernetLink, junk) == Captured(ArpClass, ether, ArpNet(a), NoTransport, s[..42], [])
  {
    hide U16, Available, Clamp, Split, AnalyzeLink, AnalyzeArp, ArpLen, NetType;
    assert TransportOf(s, caplen, EthernetLink, junk) == ETHERTYPE_ARP;
    assert AnalyzeNet(s, caplen, EthernetLink) == NetStage(ArpNet(a), ARP_LEN, ARP_LEN);
    assert s[42..42] == [];
  }

  lemma ArpAreaIs(p: Packet, area: seq<u8>)
    requires Ordinary(p) && p.payload.ArpPayload? && Space(p) <= |area|
    ensures NetBytes(p, area) == ArpBytes(p.payload.arp)
  {
    var a := p.payload.arp;
    ArpLaidIs(area, 0, a);
    hide ArpLaid, ArpBytes;
    var now := ArpLaid(area, 0, a);
    assert now == ArpBytes(a) + area[ARP_LEN..];
  }

  lemma ArpLoop(p: Packet, area: seq<u8>, s: seq<u8>, caplen: nat, junk: u16)
    requires Ordinary(p) && FrameOf(p, area, s, caplen) && p.payload.ArpPayload?
    ensures Recovered(p, Analyse(s, caplen, EthernetLink, junk))
  {
    var a := p.payload.arp;
    ArpAreaIs(p, area);
    hide EtherBytes, ArpBytes, U16, NetBytes;
    EtherReads(s, p.ether.value);
    ArpReads(s, ETHER_LEN, a);
    AvailableIs(caplen);
    ClampBounds(ETHERTYPE_ARP, ETHERTYPE_ARP, ARP_LEN, caplen, ETHER_LEN);
    SplitIs(s, ARP_LEN, ARP_LEN, 0);
    ArpResult(s, caplen, junk, p.ether, a);
  }

  /** A frame of a type get_packet does not know, such as a trace packet, arrives
      whole: it is long enough not to be padded. */
  lemma OtherLoop(p: Packet, area: seq<u8>, s: seq<u8>, caplen: nat, junk: u16)
    requires Ordinary(p) && FrameOf(p, area, s, caplen) && p.payload.OtherPayload? && caplen == ETHER_LEN + |p.data|
    ensures Recovered(p, Analyse(s, caplen, EthernetLink, junk))
  {
    hide EtherBytes, U16;
    EtherReads(s, p.ether.value);
    AvailableIs(caplen);
    Narrow(caplen - ETHER_LEN);
    var nproto := NetType(s, EthernetLink);
    SplitIs(s, |p.data|, 0, 0);
    ClampBounds(nproto, nproto, |p.data|, caplen, ETHER_LEN);
    hide Available, Clamp, Split, AnalyzeLink, NetType, ToI16, NetBytes, FrameOf;
    assert TransportOf(s, caplen, EthernetLink, junk) == nproto;
    assert AnalyzeNet(s, caplen, EthernetLink) == NetStage(NoNet, 0, |p.data|);
  }

  // ---- the whole loop -----------------------------------------------------------------

  lemma Fronts(e: seq<u8>, n: seq<u8>, rest: seq<u8>, k: nat, z: seq<u8>, s: seq<u8>, length: nat)
    requires |e| + |n| <= k <= |e| + |n| + |rest| && length <= |s|
    requires s[..length] == (e + n + rest)[..k] + z
    ensures s[..|e|] == e && |e| + |n| <= |s| && s[|e|..|e| + |n|] == n
  {
    var t, u := s[..length], e + n + rest;
    assert |t| >= k;
    assert s[..|e|] == t[..|e|] == u[..|e|] == e;
    assert s[|e|..|e| + |n|] == t[|e|..|e| + |n|] == u[|e|..|e| + |n|] == n;
  }

  lemma FrameIs(p: Packet, area: seq<u8>, rest: seq<u8>, s: seq<u8>, length: nat)
    requires Ordinary(p) && Space(p) <= |area| && |NetBytes(p, area)| == LaidLen(p)
    requires length == Longest(ETHER_LEN + NetLen(p), MIN_FRAME) && length <= |s| && length <= MAX_PACKET_SIZE
    requires ETHER_LEN + NetLen(p) <= ETHER_LEN + LaidLen(p) + |rest|
    requires s[..length] == (LinkBytes(p) + NetBytes(p, area) + rest)[..ETHER_LEN + NetLen(p)]
                          + Zeros(length - ETHER_LEN - NetLen(p))
    ensures FrameOf(p, area, s, length)
  {
    hide EtherBytes, NetBytes;
    var e, n := LinkBytes(p), NetBytes(p, area);
    Fronts(e, n, rest, ETHER_LEN + NetLen(p), Zeros(length - ETHER_LEN - NetLen(p)), s, length);
  }

  lemma SpaceFits(p: Packet, area: seq<u8>)
    requires Ordinary(p) && Space(p) <= |area|
    ensures |NetBytes(p, area)| == LaidLen(p)
  {
    if p.payload.ArpPayload? { ArpAreaIs(p, area); }
    hide Sealed, Rfc1071, TransportSum, IcmpTail, LittleSeen, IpBefore, TcpBefore, UdpBefore, TcpAfter, ArpLaid;
  }

  /** Every ordinary packet comes back from its frame. */
  lemma LoopRecovers(p: Packet, area: seq<u8>, s: seq<u8>, caplen: nat, junk: u16)
    requires Ordinary(p) && FrameOf(p, area, s, caplen)
    requires caplen == Longest(ETHER_LEN + NetLen(p), MIN_FRAME)
    ensures Recovered(p, Analyse(s, caplen, EthernetLink, junk))
  {
    hide FrameOf, Recovered, Analyse;
    match p.payload {
      case TcpPayload(_, _) => TcpLoop(p, area, s, caplen, junk);
      case UdpPayload(_, _) => UdpLoop(p, area, s, caplen, junk);
      case IcmpPayload(_, _) => IcmpLoop(p, area, s, caplen, junk);
      case IpPayload(_) => IpLoop(p, area, s, caplen, junk);
      case ArpPayload(_) => ArpLoop(p, area, s, caplen, junk);
      case OtherPayload => OtherLoop(p, area, s, caplen, junk);
    }
  }

  /** Sending a packet and capturing the frame that leaves recovers it, whatever the
      buffer and the uninitialised variable held before. */
  method SendAndCapture(buf: array<u8>, p: Packet, junk: u16) returns (r: Capture)
    requires buf.Length == MAX_PACKET_SIZE && Ordinary(p) && ETHER_LEN + Space(p) <= MAX_PACKET_SIZE
    modifies buf
    ensures Recovered(p, r)
  {
    hide NetBytes, LinkBytes, Recovered, Analyse, FrameOf, Space;
    ghost var was, area := buf[..], buf[ETHER_LEN..];
    SpaceFits(p, area);
    ghost var rest := was[ETHER_LEN + LaidLen(p)..];
    var length := SendPacket(buf, p);
    FrameIs(p, area, rest, buf[..], length);
    LoopRecovers(p, area, buf[..], length, junk);
    r := GetPacket(buf, length, EthernetLink, junk);
  }

  /** The headers come back as they were sent exactly when every field is in its range
      and no fragment flag is set; whatever they are, the data does (LoopRecovers). */
  lemma HeadersExactly(p: Packet, r: Capture)
    requires Ordinary(p) && Recovered(p, r)
    ensures match p.payload
            case TcpPayload(f, t) =>
              r.net.ip == f.(protocol := PROTO_TCP) && r.transport.tcp == t
              <==> f.InRange() && f.NoFlags() && t.InRange()
            case UdpPayload(f, u) =>
              r.net.ip == f.(protocol := PROTO_UDP) && r.transport.udp == u
              <==> f.InRange() && f.NoFlags() && u.InRange()
            case IcmpPayload(f, _) => r.net.ip == f.(protocol := PROTO_ICMP) <==> f.InRange() && f.NoFlags()
            case IpPayload(f) => r.net.ip == f.(protocol := Lo(f.protocol)) <==> f.InRange() && f.NoFlags()
            case _ => true
  {
    hide Carried, CarriedTcp, CarriedUdp;
    match p.payload {
      case TcpPayload(f, t) =>
        CarriedExactly(f, PROTO_TCP);
        CarriedTcpExactly(t);
      case UdpPayload(f, u) =>
        CarriedExactly(f, PROTO_UDP);
        CarriedUdpExactly(u);
      case IcmpPayload(f, _) => CarriedExactly(f, PROTO_ICMP);
      case IpPayload(f) => CarriedExactly(f, Lo(f.protocol));
      case _ =>
    }
  }
}
