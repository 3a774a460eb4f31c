/** The capture analyser get_packet of JpcapCaptor.c and the analyze_ functions. */
module Captor {
  import opened Bytes
  import opened Packets
  import opened Ipv6Walk

  /** pcap link types the code distinguishes. */
  datatype Link = RawLink | EthernetLink | TokenRingLink | OtherLink

  /** offset_data and offset_type of the link types that have them. */
  function LinkLen(link: Link): nat {
    match link
    case EthernetLink => 14
    case TokenRingLink => 22
    case _ => 0
  }

  datatype Class = TcpClass | UdpClass | IcmpClass | IpClass | ArpClass | PlainClass

  datatype Net =
    | NoNet
    | Ip4Net(ip: Ip, length: i16, ipOption: seq<u8>)
    | Ip6Net(headers: seq<OptHeader>)
    | ArpNet(arp: Arp)

  datatype Transport =
    | NoTransport
    | TcpTransport(tcp: Tcp, tcpOption: seq<u8>)
    | UdpTransport(udp: Udp, udpLength: u16)
    | IcmpTransport

  /** Fault: the original reads outside the memory it was given, or asks Java for
      an array of negative length. */
  datatype Capture =
    | Fault
    | Captured(class_: Class, ether: Option<Ether>, net: Net, transport: Transport,
               header: seq<u8>, data: seq<u8>)

  // ---- header analysis --------------------------------------------------------

  function FragmentOffset(s: seq<u8>, o: nat): u16
    requires o + 8 <= |s|
  {
    U16(s, o + 6) % 0x2000
  }

  function AnalyzeIp(s: seq<u8>, o: nat): Ip
    requires o + IP_LEN <= |s|
  {
    var tos := s[o + 1];
    // the flags are masked in host order, the offset in network order
    var hostHigh := s[o + 7];
    Ip(tos / 0x20, tos % 4, TestBit(tos, 0x10), TestBit(tos, 0x08), TestBit(tos, 0x04),
       TestBit(hostHigh, 0x80), TestBit(hostHigh, 0x40), TestBit(hostHigh, 0x20),
       FragmentOffset(s, o), ToI16(U16(s, o + 4)), s[o + 8], s[o + 9],
       s[o + 12..o + 16], s[o + 16..o + 20])
  }

  function IpHeaderLen(s: seq<u8>, o: nat): nat
    requires o < |s|
  {
    s[o] % 0x10 * 4
  }

  function AnalyzeTcp(s: seq<u8>, o: nat): Tcp
    requires o + TCP_LEN <= |s|
  {
    var flags := s[o + 13];
    Tcp(U16(s, o), U16(s, o + 2), U32(s, o + 4), U32(s, o + 8),
        TestBit(flags, 0x20), TestBit(flags, 0x10), TestBit(flags, 0x08), TestBit(flags, 0x04),
        TestBit(flags, 0x02), TestBit(flags, 0x01), TestBit(flags, 0x80), TestBit(flags, 0x40),
        U16(s, o + 14), ToI16(U16(s, o + 18)))
  }

  function TcpHeaderLen(s: seq<u8>, o: nat): nat
    requires o + 12 < |s|
  {
    s[o + 12] / 0x10 * 4
  }

  function ArpLen(s: seq<u8>, o: nat): nat
    requires o + 6 <= |s|
  {
    var hl: int, pl: int := s[o + 4], s[o + 5];
    8 + 2 * hl + 2 * pl
  }

  function AnalyzeArp(s: seq<u8>, o: nat): Arp
    requires o + 8 <= |s| && o + ArpLen(s, o) <= |s|
  {
    var hl: int, pl: int := s[o + 4], s[o + 5];
    var a := o + 8;
    Arp(ToI16(U16(s, o)), ToI16(U16(s, o + 2)), hl, pl, ToI16(U16(s, o + 6)),
        s[a..a + hl], s[a + hl..a + hl + pl],
        s[a + hl + pl..a + hl + pl + hl], s[a + hl + pl + hl..a + hl + pl + hl + pl])
  }

  function AnalyzeLink(s: seq<u8>, link: Link): Option<Ether>
    requires LinkLen(link) <= |s|
  {
    if link == EthernetLink then Some(Ether(s[0..6], s[6..12], ToI16(U16(s, 12)))) else None
  }

  // ---- protocol classification ----------------------------------------------------

  function NetType(s: seq<u8>, link: Link): u16
    requires LinkLen(link) <= |s|
  {
    match link
    case RawLink => ETHERTYPE_IP
    case EthernetLink => U16(s, 12)
    case TokenRingLink => U16(s, 20)
    case OtherLink => UNKNOWN_PROTO
  }

  /** Captured octets behind the link header, as the short clen holds them. */
  function Available(caplen: nat, link: Link): i16 { ToI16(ToI16(caplen) - LinkLen(link)) }

  function AfterExtension(next: u8): u16 { if next == ESP || next == NONE then 0xffff else next }

  /** The IPv6 loop of get_packet: what tproto, clen and dp become. */
  function Chain(s: seq<u8>, dp: nat, clen: int, tproto: u16): (r: (u16, int, nat))
    requires clen > 0 ==> dp + clen + 40 <= |s|
    ensures r.2 - dp == clen - r.1 >= 0
    ensures clen >= -2048 ==> r.1 >= -2048
    decreases clen
  {
    if IsExtension(tproto) && clen > 0 then
      var step := Size(tproto, s[dp + 1]);
      Chain(s, dp + step, clen - step, AfterExtension(s[dp]))
    else (tproto, clen, dp)
  }

  /** Enough memory for the fields the classification reads. */
  predicate Readable(s: seq<u8>, link: Link) {
    && LinkLen(link) <= |s|
    && (NetType(s, link) == ETHERTYPE_IP ==> LinkLen(link) + IP_LEN <= |s|)
    && (NetType(s, link) == ETHERTYPE_IPV6 ==> LinkLen(link) + 40 <= |s|)
  }

  lemma AvailableBound(caplen: nat, link: Link)
    ensures Available(caplen, link) > 0 ==> LinkLen(link) + Available(caplen, link) <= caplen
  {}

  /** tproto and clen after the first switch; junk is what the uninitialised
      variable tproto holds. */
  function Classified(s: seq<u8>, caplen: nat, link: Link, junk: u16): (u16, int)
    requires caplen <= |s| && Readable(s, link)
  {
    var dl, clen, nproto := LinkLen(link), Available(caplen, link), NetType(s, link);
    if clen <= 0 then (junk, clen)
    else if nproto == ETHERTYPE_IP then
      var left := clen - IpHeaderLen(s, dl);
      (if left > 0 && FragmentOffset(s, dl) == 0 then s[dl + 9] else ETHERTYPE_IP, left)
    else if nproto == ETHERTYPE_IPV6 then
      if clen - 40 > 0 then
        AvailableBound(caplen, link);
        var r := Chain(s, dl, clen - 40, s[dl + 6]); (r.0, r.1)
      else (junk, clen - 40)
    else if nproto == ETHERTYPE_ARP then
      (if clen - ARP_LEN > 0 then ETHERTYPE_ARP else junk, clen - ARP_LEN)
    else (nproto, clen)
  }

  /** A transport header that is cut off makes the protocol unknown: -1 in a
      u_short is UNKNOWN_PROTO. */
  function CheckTruncated(tproto: u16, clen: int): u16 {
    if (tproto == PROTO_TCP && clen < TCP_LEN) || (tproto == PROTO_UDP && clen < UDP_LEN)
       || (tproto == PROTO_ICMP && clen < ICMP_LEN)
    then 0xffff else tproto
  }

  function TransportOf(s: seq<u8>, caplen: nat, link: Link, junk: u16): u16
    requires caplen <= |s| && Readable(s, link)
  {
    var c := Classified(s, caplen, link, junk);
    CheckTruncated(c.0, c.1)
  }

  function ClassOf(nproto: u16, tproto: u16): Class {
    if tproto == PROTO_TCP then TcpClass
    else if tproto == PROTO_UDP then UdpClass
    else if tproto == PROTO_ICMP then IcmpClass
    else if nproto == ETHERTYPE_IP || nproto == ETHERTYPE_IPV6 then IpClass
    else if nproto == ETHERTYPE_ARP || nproto == ETHERTYPE_REVARP then ArpClass
    else PlainClass
  }

  // ---- lengths --------------------------------------------------------------------

  function U32Of(v: int): nat { v % 0x1_0000_0000 }

  /** The clamp step applies: neither protocol is "unknown". */
  predicate Clamps(nproto: u16, tproto: u16) { nproto != UNKNOWN_PROTO && tproto != UNKNOWN_PROTO }

  /** The network length after the clamp; the comparison is unsigned. */
  function Clamp(nproto: u16, tproto: u16, clen: i16, caplen: nat, dl: nat): i16 {
    if Clamps(nproto, tproto) && U32Of(clen) > U32Of(caplen - dl) then ToI16(caplen - dl) else clen
  }

  /** The network stage: contents, header length and length before the clamp. */
  datatype NetStage = NetFault | NetStage(net: Net, hlen: i16, clen: i16)

  function AnalyzeNet(s: seq<u8>, caplen: nat, link: Link): NetStage
    requires Readable(s, link)
  {
    var dl, nproto := LinkLen(link), NetType(s, link);
    if nproto == ETHERTYPE_IP then
      var hlen := IpHeaderLen(s, dl);
      if hlen > IP_LEN && dl + hlen > |s| then NetFault
      else
        var option := if hlen > IP_LEN then s[dl + IP_LEN..dl + hlen] else [];
        var length := ToI16(U16(s, dl + 2));
        NetStage(Ip4Net(AnalyzeIp(s, dl), length, option), hlen, length)
    else if nproto == ETHERTYPE_IPV6 then
      match Walk(s, dl + 40, s[dl + 6])
      case None => NetFault
      case Some(hs) =>
        NetStage(Ip6Net(hs), ToI16(40 + Sizes(hs)), ToI16(ToI16(U16(s, dl + 4)) + 40))
    else if nproto == ETHERTYPE_ARP then
      if dl + 8 > |s| || dl + ArpLen(s, dl) > |s| then NetFault
      else NetStage(ArpNet(AnalyzeArp(s, dl)), ArpLen(s, dl), ArpLen(s, dl))
    else if nproto == UNKNOWN_PROTO then NetStage(NoNet, 0, ToI16(caplen))
    else NetStage(NoNet, 0, ToI16(caplen - dl))
  }

  datatype TransportStage = TransportFault | TransportStage(transport: Transport, hlen: nat)

  function AnalyzeTransport(s: seq<u8>, at: int, tproto: u16): (r: TransportStage)
    ensures r.TransportStage? ==> r.hlen <= 60
  {
    if tproto == PROTO_TCP then
      if at < 0 || at + TCP_LEN > |s| then TransportFault
      else
        var hlen := TcpHeaderLen(s, at);
        if hlen > TCP_LEN && at + hlen > |s| then TransportFault
        else
          var option := if hlen > TCP_LEN then s[at + TCP_LEN..at + hlen] else [];
          TransportStage(TcpTransport(AnalyzeTcp(s, at), option), hlen)
    else if tproto == PROTO_UDP then
      if at < 0 || at + UDP_LEN > |s| then TransportFault
      else TransportStage(UdpTransport(Udp(U16(s, at), U16(s, at + 2)), U16(s, at + 4)), UDP_LEN)
    else if tproto == PROTO_ICMP then
      if at < 0 || at + ICMP_LEN > |s| then TransportFault else TransportStage(IcmpTransport, ICMP_LEN)
    else TransportStage(NoTransport, 0)
  }

  /** Where data points before the network header is analysed: the link header
      is skipped only for a known network protocol. */
  function NetStart(s: seq<u8>, link: Link): nat
    requires LinkLen(link) <= |s|
  {
    if NetType(s, link) == UNKNOWN_PROTO then 0 else LinkLen(link)
  }

  /** The two arrays handed to Java. */
  function Split(s: seq<u8>, start: nat, length: i16, netHlen: i16, transportHlen: nat): Option<(seq<u8>, seq<u8>)>
    requires transportHlen < 0x100
  {
    var clen := ToI16(length - netHlen);
    var hlen := if transportHlen > clen then clen else transportHlen;
    var rest := ToI16(clen - hlen);
    var at := start + netHlen + hlen;
    var headerLen := ToI16(at);
    if headerLen < 0 || headerLen > |s| || at < 0 || rest < 0 || at + rest > |s| then None
    else Some((s[..headerLen], s[at..at + rest]))
  }

  /** The octet count left for data is never negative, whatever the header lengths. */
  lemma RestNotNegative(length: i16, netHlen: i16, transportHlen: nat)
    requires transportHlen < 0x100
    ensures var clen := ToI16(length - netHlen);
            ToI16(clen - if transportHlen > clen then clen else transportHlen)
            == clen - (if transportHlen > clen then clen else transportHlen) >= 0
  {}

  lemma Narrow(v: int)
    ensures 0 <= v < 0x8000 ==> ToI16(v) == v
  {}

  /** Conservation: header and data are cut from the frame without gap or overlap,
      and together they are as long as the link header plus the network length. */
  lemma SplitConserves(s: seq<u8>, start: nat, length: i16, netHlen: i16, transportHlen: nat)
    requires transportHlen < 0x100 && length - netHlen >= -0x8000 && length - netHlen < 0x8000
    requires start + length < 0x8000
    ensures var r := Split(s, start, length, netHlen, transportHlen);
            r.Some? ==>
              && |r.value.0| + |r.value.1| == start + length
              && start + length <= |s| && r.value.0 + r.value.1 == s[..start + length]
  {
    var clen: int := length - netHlen;
    RestNotNegative(length, netHlen, transportHlen);
    var hlen: int := if transportHlen > clen then clen else transportHlen;
    var at: int := start + netHlen + hlen;
    assert at + (clen - hlen) == start + length;
    assert ToI16(clen) == clen;
    var r := Split(s, start, length, netHlen, transportHlen);
    if r.Some? {
      Narrow(at);
      assert r.value == (s[..at], s[at..start + length]);
    }
  }

  /** get_packet on a memory s whose first caplen octets are the captured frame. */
  function Analyse(s: seq<u8>, caplen: nat, link: Link, junk: u16): Capture
    requires caplen <= |s|
  {
    if !Readable(s, link) then Fault
    else
      var nproto, tproto, start := NetType(s, link), TransportOf(s, caplen, link, junk), NetStart(s, link);
      match AnalyzeNet(s, caplen, link)
      case NetFault => Fault
      case NetStage(net, netHlen, length) =>
        match AnalyzeTransport(s, start + netHlen, tproto)
        case TransportFault => Fault
        case TransportStage(transport, hlen) =>
          match Split(s, start, Clamp(nproto, tproto, length, caplen, LinkLen(link)), netHlen, hlen)
          case None => Fault
          case Some(parts) =>
            Captured(ClassOf(nproto, tproto), AnalyzeLink(s, link), net, transport, parts.0, parts.1)
  }

  // ---- the imperative code ----------------------------------------------------------

  /** The IPv6 loop (JpcapCaptor.c:740-771): dp starts at the IPv6 header itself,
      never passes the captured octets and moves exactly as clen shrinks. */
  method WalkChain(m: array<u8>, start: nat, left: int) returns (tproto: u16, clen: int)
    requires 0 < left && start + left + 40 <= m.Length
    ensures var r := Chain(m[..], start, left, m[start + 6]); tproto == r.0 && clen == r.1
  {
    var dp := start;
    clen := left;
    tproto := m[dp + 6];
    while IsExtension(tproto) && clen > 0
      invariant dp - start == left - clen >= 0
      invariant Chain(m[..], dp, clen, tproto) == Chain(m[..], start, left, m[start + 6])
      decreases clen
    {
      var next, len: int := m[dp], m[dp + 1];
      if tproto == AH {
        dp := dp + (len + 2) * 4;
        clen := clen - (len + 2) * 4;
      } else if tproto == FRAGMENT {
        dp := dp + 8;
        clen := clen - 8;
      } else {
        dp := dp + (len + 1) * 8;
        clen := clen - (len + 1) * 8;
      }
      tproto := next;
      if tproto == ESP || tproto == NONE { tproto := 0xffff; }
    }
  }

  /** The first two switches of get_packet (JpcapCaptor.c:705-793). */
  method Classify(m: array<u8>, caplen: nat, link: Link, junk: u16) returns (tproto: u16)
    requires caplen <= m.Length && Readable(m[..], link)
    ensures tproto == TransportOf(m[..], caplen, link, junk)
  {
    hide ToI16, Chain, U16;
    var dl, nproto := LinkLen(link), NetType(m[..], link);
    var clen: int := Available(caplen, link);
    tproto := junk;
    if clen > 0 {
      if nproto == ETHERTYPE_IP {
        clen := clen - IpHeaderLen(m[..], dl);
        if clen > 0 && FragmentOffset(m[..], dl) == 0 {
          tproto := m[dl + 9];
        } else {
          tproto := ETHERTYPE_IP;
        }
      } else if nproto == ETHERTYPE_IPV6 {
        clen := clen - 40;
        if clen > 0 {
          AvailableBound(caplen, link);
          tproto, clen := WalkChain(m, dl, clen);
        }
      } else if nproto == ETHERTYPE_ARP {
        clen := clen - ARP_LEN;
        if clen > 0 { tproto := ETHERTYPE_ARP; }
      } else {
        tproto := nproto;
      }
    }
    if (tproto == PROTO_TCP && clen < TCP_LEN) || (tproto == PROTO_UDP && clen < UDP_LEN)
       || (tproto == PROTO_ICMP && clen < ICMP_LEN) {
      tproto := 0xffff;
    }
  }

  /** The network switch of get_packet (JpcapCaptor.c:833-856). */
  method NetworkStage(m: array<u8>, caplen: nat, link: Link) returns (r: NetStage)
    requires Readable(m[..], link)
    ensures r == AnalyzeNet(m[..], caplen, link)
  {
    hide ToI16, U16, Walk;
    var dl, nproto := LinkLen(link), NetType(m[..], link);
    if nproto == ETHERTYPE_IPV6 {
      var walk := AnalyzeIpv6(m, dl);
      match walk {
        case OutOfMemory => r := NetFault;
        case Walked(headers, hlen, _) =>
          var clen: int := ToI16(U16(m[..], dl + 4));
          r := NetStage(Ip6Net(headers), ToI16(hlen), ToI16(clen + 40));
      }
    } else {
      r := AnalyzeNet(m[..], caplen, link);
    }
  }

  /** The closing lines of get_packet (JpcapCaptor.c:861-903). */
  method SplitFrame(m: array<u8>, start: nat, length: i16, netHlen: i16, transportHlen: nat)
    returns (r: Option<(seq<u8>, seq<u8>)>)
    requires transportHlen < 0x100
    ensures r == Split(m[..], start, length, netHlen, transportHlen)
    ensures r.Some? && -0x8000 <= length - netHlen < 0x8000 && start + length < 0x8000 ==>
              && |r.value.0| + |r.value.1| == start + length
              && start + length <= m.Length && r.value.0 + r.value.1 == m[..start + length]
  {
    if -0x8000 <= length - netHlen < 0x8000 && start + length < 0x8000 {
      SplitConserves(m[..], start, length, netHlen, transportHlen);
    }
    var data := start + netHlen;
    var clen: int := ToI16(length - netHlen);
    var hlen: int := transportHlen;
    if hlen > clen { hlen := clen; }
    clen := ToI16(clen - hlen);
    data := data + hlen;
    hlen := ToI16(data);
    if hlen < 0 || hlen > m.Length || data < 0 || clen < 0 || data + clen > m.Length { return None; }
    r := Some((m[..hlen], m[data..data + clen]));
  }

  /** get_packet (JpcapCaptor.c:696-904). */
  method GetPacket(m: array<u8>, caplen: nat, link: Link, junk: u16) returns (r: Capture)
    requires caplen <= m.Length
    ensures r == Analyse(m[..], caplen, link, junk)
  {
    hide TransportOf, AnalyzeNet, AnalyzeTransport, AnalyzeLink, Split, ToI16, U16, Walk;
    if !Readable(m[..], link) { return Fault; }
    var nproto := NetType(m[..], link);
    var tproto := Classify(m, caplen, link, junk);
    var data := 0;
    if nproto != UNKNOWN_PROTO { data := LinkLen(link); }
    var stage := NetworkStage(m, caplen, link);
    if stage.NetFault? { return Fault; }
    var clen, hlen := stage.clen, stage.hlen;
    if nproto != UNKNOWN_PROTO && tproto != UNKNOWN_PROTO
       && U32Of(clen) > U32Of(caplen - LinkLen(link)) {
      clen := ToI16(caplen - LinkLen(link));
    }
    var at: int := data + hlen;
    var transport := AnalyzeTransport(m[..], at, tproto);
    if transport.TransportFault? { return Fault; }
    var parts := SplitFrame(m, data, clen, hlen, transport.hlen);
    if parts.None? { return Fault; }
    r := Captured(ClassOf(nproto, tproto), AnalyzeLink(m[..], link), stage.net, transport.transport,
                  parts.value.0, parts.value.1);
  }
}
