/** Where get_packet cuts a frame, in terms of the octets of the frame alone. */
module Frames {
  import opened Bytes
  import opened Packets
  import opened Ipv6Walk
  import opened Captor
  import opened CaptureLaws

  function Least(a: int, b: int): int { if a < b then a else b }

  /** header is the frame up to k, data the rest up to n. */
  predicate CutAt(r: Capture, s: seq<u8>, k: int, n: int) {
    r.Captured? && 0 <= k <= n <= |s| && r.header == s[..k] && r.data == s[k..n]
  }

  /** Where the link header ends and which network protocol it announces. */
  predicate Framed(s: seq<u8>, link: Link, dl: nat, nproto: int) {
    match link
    case RawLink => dl == 0 && nproto == 0x0800
    case EthernetLink => dl == 14 <= |s| && U16(s, 12) == nproto
    case TokenRingLink => dl == 22 <= |s| && U16(s, 20) == nproto
    case OtherLink => dl == 0 && nproto == 0xffff
  }

  lemma FramedIs(s: seq<u8>, link: Link, dl: nat, nproto: int)
    requires Framed(s, link, dl, nproto)
    ensures LinkLen(link) == dl <= |s| && NetType(s, link) == nproto
    ensures nproto != 0xffff ==> NetStart(s, link) == dl
  {}

  /** The closing arithmetic in one step: the headers end where they say, or where the
      network length ends. */
  lemma SplitCuts(s: seq<u8>, start: nat, length: i16, netHlen: i16, transportHlen: nat)
    requires transportHlen < 0x100 && netHlen >= 0 && 0 <= start + length < 0x8000 && length - netHlen >= -0x8000
    ensures var k, n := Least(start + netHlen + transportHlen, start + length), start + length;
            Split(s, start, length, netHlen, transportHlen) == if n <= |s| then Some((s[..k], s[k..n])) else None
  {
    RestNotNegative(length, netHlen, transportHlen);
    var clen: int := length - netHlen;
    assert ToI16(clen) == clen;
    var hlen: int := if transportHlen > clen then clen else transportHlen;
    var at: int := start + netHlen + hlen;
    Narrow(at);
  }

  lemma ClampIsLeast(nproto: u16, tproto: u16, length: i16, total: nat, caplen: nat, dl: nat)
    requires nproto != 0xffff && tproto != 0xffff && dl <= caplen < 0x8000
    requires total < 0x1_0000 && (length == total || (length == total - 0x1_0000 && total >= 0x8000))
    ensures Clamp(nproto, tproto, length, caplen, dl) == Least(total, caplen - dl)
  {
    Narrow(caplen - dl);
  }

  lemma SignedTotal(total: u16)
    ensures ToI16(total) == if total < 0x8000 then total else total - 0x1_0000
  {}

  /** The stages of get_packet before the transport header, with the length after the
      clamp. */
  predicate Staged(s: seq<u8>, caplen: nat, link: Link, junk: u16, dl: nat, tproto: u16, stage: NetStage,
                   clamped: int)
  {
    && caplen <= |s| && Readable(s, link) && LinkLen(link) == NetStart(s, link) == dl <= |s|
    && TransportOf(s, caplen, link, junk) == tproto
    && AnalyzeNet(s, caplen, link) == stage && stage.NetStage? && stage.hlen >= 0
    && Clamp(NetType(s, link), tproto, stage.clen, caplen, dl) == clamped
    && 0 <= dl + clamped < 0x8000 && clamped - stage.hlen >= -0x8000
  }

  /** A frame cut behind its headers: the packet that is handed over. */
  function Handed(s: seq<u8>, class_: Class, ether: Option<Ether>, net: Net, t: Transport, at: int, n: int): Capture {
    var k := Least(at, n);
    if 0 <= k <= n <= |s| then Captured(class_, ether, net, t, s[..k], s[k..n]) else Fault
  }

  /** The stages put together. */
  lemma Assemble(s: seq<u8>, caplen: nat, link: Link, junk: u16, dl: nat, tproto: u16, stage: NetStage, clamped: int)
    requires Staged(s, caplen, link, junk, dl, tproto, stage, clamped)
    ensures caplen <= |s| && LinkLen(link) <= |s| && stage.NetStage?
    ensures var r := Analyse(s, caplen, link, junk);
            match AnalyzeTransport(s, dl + stage.hlen, tproto)
            case TransportFault => r == Fault
            case TransportStage(t, hlen) =>
              r == Handed(s, ClassOf(NetType(s, link), tproto), AnalyzeLink(s, link), stage.net, t,
                          dl + stage.hlen + hlen, dl + clamped)
  {
    hide TransportOf, AnalyzeNet, AnalyzeTransport, AnalyzeLink, Clamp, NetType, NetStart, Readable, Split, ClassOf;
    match AnalyzeTransport(s, dl + stage.hlen, tproto) {
      case TransportFault =>
      case TransportStage(t, hlen) => SplitCuts(s, dl, clamped, stage.hlen, hlen);
    }
  }

  // ---- IPv4 -----------------------------------------------------------------------------------

  /** Length of the IPv4 header. */
  function Ihl(s: seq<u8>, dl: nat): int
    requires dl < |s|
  {
    4 * (s[dl] % 0x10)
  }

  /** The payload of the header at dl starts the datagram and some of it was captured. */
  predicate Starts(s: seq<u8>, caplen: nat, dl: nat)
    requires dl + 20 <= |s|
  {
    U16(s, dl + 6) % 0x2000 == 0 && caplen - dl - Ihl(s, dl) > 0
  }

  /** The transport protocol number a class stands for, and the octets its header needs. */
  predicate Whole(proto: int, left: int, c: Class) {
    match c
    case TcpClass => proto == 6 && left >= 20
    case UdpClass => proto == 17 && left >= 8
    case IcmpClass => proto == 1 && left >= 8
    case _ => false
  }

  function Recognised(proto: int, left: int): Class {
    if Whole(proto, left, TcpClass) then TcpClass
    else if Whole(proto, left, UdpClass) then UdpClass
    else if Whole(proto, left, IcmpClass) then IcmpClass
    else IpClass
  }

  function Class4(s: seq<u8>, caplen: nat, dl: nat): Class
    requires dl + 20 <= |s|
  {
    if Starts(s, caplen, dl) then Recognised(s[dl + 9], caplen - dl - Ihl(s, dl)) else IpClass
  }

  /** A transport header that is cut off. */
  predicate CutOff(proto: int, left: int) {
    (proto == 6 && left < 20) || (proto == 17 && left < 8) || (proto == 1 && left < 8)
  }

  /** The length of the transport header at `at`. */
  function TransportEnd(s: seq<u8>, at: int, c: Class): int
    requires c == TcpClass ==> 0 <= at && at + 12 < |s|
  {
    match c
    case TcpClass => 4 * (s[at + 12] / 0x10)
    case UdpClass => 8
    case IcmpClass => 8
    case _ => 0
  }

  lemma Ip4Transport(s: seq<u8>, caplen: nat, link: Link, junk: u16, dl: nat)
    requires caplen <= |s| && dl < caplen < 0x8000 && Framed(s, link, dl, 0x0800) && dl + 20 <= |s|
    ensures TransportOf(s, caplen, link, junk)
         == if !Starts(s, caplen, dl) then 0x0800
            else if CutOff(s[dl + 9], caplen - dl - Ihl(s, dl)) then 0xffff else s[dl + 9]
  {
    FramedIs(s, link, dl, 0x0800);
    Narrow(caplen);
    Narrow(caplen - dl);
    hide U16, ToI16, NetType, Framed;
  }

  lemma Ip4Stage(s: seq<u8>, caplen: nat, link: Link, dl: nat)
    requires Framed(s, link, dl, 0x0800) && dl + 20 <= |s|
    ensures AnalyzeNet(s, caplen, link)
         == if Ihl(s, dl) > 20 && dl + Ihl(s, dl) > |s| then NetFault
            else NetStage(Ip4Net(AnalyzeIp(s, dl), ToI16(U16(s, dl + 2)),
                                 if Ihl(s, dl) > 20 then s[dl + 20..dl + Ihl(s, dl)] else []),
                          Ihl(s, dl), ToI16(U16(s, dl + 2)))
  {
    FramedIs(s, link, dl, 0x0800);
    hide U16, ToI16, AnalyzeIp, NetType, Framed;
  }

  /** The octets that are read of a transport header are there. */
  predicate Fits(s: seq<u8>, at: int, c: Class) {
    && 0 <= at && c in {TcpClass, UdpClass, IcmpClass, IpClass}
    && (c == TcpClass ==> at + 20 <= |s|) && (c == UdpClass ==> at + 8 <= |s|)
  }

  /** What a captured packet says about the transport header at `at`. */
  predicate Describes(t: Transport, s: seq<u8>, at: int, c: Class)
    requires Fits(s, at, c)
  {
    match c
    case TcpClass =>
      var end := TransportEnd(s, at, c);
      t.TcpTransport? && end <= |s| - at && t.tcpOption == if end > 20 then s[at + 20..at + end] else []
    case UdpClass => t == UdpTransport(Udp(U16(s, at), U16(s, at + 2)), U16(s, at + 4))
    case IcmpClass => t == IcmpTransport
    case _ => t == NoTransport
  }

  lemma TransportIs(s: seq<u8>, at: int, proto: u16, left: int)
    requires 0 <= at && left <= |s| - at && !CutOff(proto, left)
    ensures var c := Recognised(proto, left);
            && Fits(s, at, c)
            && match AnalyzeTransport(s, at, proto)
               case TransportFault => c == TcpClass && at + TransportEnd(s, at, c) > |s|
               case TransportStage(t, hlen) => Describes(t, s, at, c) && hlen == TransportEnd(s, at, c) <= 60
  {
    hide U16, AnalyzeTcp;
  }

  /** What get_packet makes of an IPv4 frame: a transport header of class c, the network
      length n. */
  predicate Ip4Packet(r: Capture, s: seq<u8>, dl: nat, c: Class, n: int)
    requires dl + 20 <= |s| && Fits(s, dl + Ihl(s, dl), c)
  {
    var at := dl + Ihl(s, dl);
    && CutAt(r, s, Least(at + TransportEnd(s, at, c), n), n) && r.class_ == c && r.net.Ip4Net?
    && (if Ihl(s, dl) > 20 then at <= |s| && r.net.ipOption == s[dl + 20..at] else r.net.ipOption == [])
    && Describes(r.transport, s, at, c)
  }

  lemma Ip4Readable(s: seq<u8>, link: Link, dl: nat)
    requires Framed(s, link, dl, 0x0800) && dl + 20 <= |s|
    ensures Readable(s, link) && NetStart(s, link) == dl
  {
    FramedIs(s, link, dl, 0x0800);
    hide NetType;
  }

  lemma AnalyseFaults(s: seq<u8>, caplen: nat, link: Link, junk: u16)
    requires caplen <= |s| && Readable(s, link) && AnalyzeNet(s, caplen, link).NetFault?
    ensures Analyse(s, caplen, link, junk) == Fault
  {
    hide AnalyzeNet, TransportOf, Readable;
  }

  /** The protocol that is analysed. */
  function Proto4(s: seq<u8>, caplen: nat, dl: nat): (proto: u16)
    requires dl + 20 <= |s|
  {
    if Starts(s, caplen, dl) then s[dl + 9] else 0x0800
  }

  predicate NotCutOff(s: seq<u8>, caplen: nat, dl: nat)
    requires dl + 20 <= |s|
  {
    Starts(s, caplen, dl) ==> !CutOff(s[dl + 9], caplen - dl - Ihl(s, dl))
  }

  lemma Class4Is(s: seq<u8>, caplen: nat, dl: nat)
    requires dl + 20 <= |s| && dl < caplen <= |s| && NotCutOff(s, caplen, dl)
    ensures var c, proto, left := Class4(s, caplen, dl), Proto4(s, caplen, dl), caplen - dl - Ihl(s, dl);
            && c == Recognised(proto, left) == ClassOf(0x0800, proto) && !CutOff(proto, left)
            && Fits(s, dl + Ihl(s, dl), c) && Ihl(s, dl) >= 0
  {
    hide U16;
  }

  function Option4(s: seq<u8>, dl: nat): seq<u8>
    requires dl + 20 <= |s|
  {
    if 20 < Ihl(s, dl) <= |s| - dl then s[dl + 20..dl + Ihl(s, dl)] else []
  }

  function Stage4(s: seq<u8>, dl: nat): NetStage
    requires dl + 20 <= |s|
  {
    NetStage(Ip4Net(AnalyzeIp(s, dl), ToI16(U16(s, dl + 2)), Option4(s, dl)), Ihl(s, dl), ToI16(U16(s, dl + 2)))
  }

  /** The header fits the memory. */
  predicate Inside4(s: seq<u8>, dl: nat)
    requires dl + 20 <= |s|
  {
    Ihl(s, dl) > 20 ==> dl + Ihl(s, dl) <= |s|
  }

  lemma Ip4Clamped(s: seq<u8>, caplen: nat, dl: nat)
    requires dl < caplen < 0x8000 && dl + 20 <= |s| && NotCutOff(s, caplen, dl)
    ensures var n := Least(U16(s, dl + 2), caplen - dl);
            Clamp(0x0800, Proto4(s, caplen, dl), ToI16(U16(s, dl + 2)), caplen, dl) == n
            && 0 <= n && dl + n <= caplen && n - Ihl(s, dl) >= -0x8000
  {
    var proto, total := Proto4(s, caplen, dl), U16(s, dl + 2);
    SignedTotal(total);
    ClampIsLeast(0x0800, proto, ToI16(total), total, caplen, dl);
    hide Starts, U16, ToI16, Clamp, CutOff;
  }

  lemma Ip4Staged(s: seq<u8>, caplen: nat, link: Link, junk: u16, dl: nat)
    requires caplen <= |s| && dl < caplen < 0x8000 && Framed(s, link, dl, 0x0800) && dl + 20 <= |s|
    requires NotCutOff(s, caplen, dl) && Inside4(s, dl)
    ensures LinkLen(link) <= |s| && NetType(s, link) == 0x0800
    ensures Staged(s, caplen, link, junk, dl, Proto4(s, caplen, dl), Stage4(s, dl), Least(U16(s, dl + 2), caplen - dl))
  {
    FramedIs(s, link, dl, 0x0800);
    Ip4Readable(s, link, dl);
    Ip4Transport(s, caplen, link, junk, dl);
    Ip4Stage(s, caplen, link, dl);
    Ip4Clamped(s, caplen, dl);
    hide Starts, Framed, Readable, NetType, NetStart, LinkLen, TransportOf, AnalyzeNet, U16, ToI16, Clamp, AnalyzeIp,
      CutOff, Least;
  }

  lemma Ip4Fault(s: seq<u8>, caplen: nat, link: Link, junk: u16, dl: nat)
    requires caplen <= |s| && Framed(s, link, dl, 0x0800) && dl + 20 <= |s| && !Inside4(s, dl)
    ensures Analyse(s, caplen, link, junk) == Fault
  {
    FramedIs(s, link, dl, 0x0800);
    Ip4Readable(s, link, dl);
    Ip4Stage(s, caplen, link, dl);
    hide Framed, AnalyzeNet, Analyse, Readable;
    AnalyseFaults(s, caplen, link, junk);
  }

  lemma LeastBounds(length: nat, room: nat)
    ensures 0 <= Least(length, room) <= room
  {}

  lemma StageLength4(s: seq<u8>, dl: nat)
    requires dl + 20 <= |s|
    ensures Stage4(s, dl).NetStage? && Stage4(s, dl).hlen == Ihl(s, dl)
  {}

  /** A captured packet, as the octets of the frame say; a fault only where a header
      reaches out of the memory. */
  predicate Ip4Outcome(r: Capture, s: seq<u8>, caplen: nat, dl: nat, c: Class)
    requires dl + 20 <= |s| && Fits(s, dl + Ihl(s, dl), c)
  {
    var at := dl + Ihl(s, dl);
    && (r.Captured? <==> Inside4(s, dl) && (c == TcpClass ==> at + TransportEnd(s, at, c) <= |s|))
    && (r.Captured? ==> Ip4Packet(r, s, dl, c, dl + Least(U16(s, dl + 2), caplen - dl)))
  }

  lemma OutcomeFault4(r: Capture, s: seq<u8>, caplen: nat, dl: nat, c: Class)
    requires dl + 20 <= |s| && Fits(s, dl + Ihl(s, dl), c) && r == Fault
    requires c == TcpClass && dl + Ihl(s, dl) + TransportEnd(s, dl + Ihl(s, dl), c) > |s|
    ensures Ip4Outcome(r, s, caplen, dl, c)
  {}

  lemma HandedIs4(s: seq<u8>, caplen: nat, dl: nat, c: Class, ether: Option<Ether>, t: Transport, hlen: nat, n: nat)
    requires dl + 20 <= |s| && Fits(s, dl + Ihl(s, dl), c) && dl <= n <= |s| && Inside4(s, dl)
    requires n == dl + Least(U16(s, dl + 2), caplen - dl)
    requires Describes(t, s, dl + Ihl(s, dl), c) && hlen == TransportEnd(s, dl + Ihl(s, dl), c)
    ensures Ip4Outcome(Handed(s, c, ether, Stage4(s, dl).net, t, dl + Ihl(s, dl) + hlen, n), s, caplen, dl, c)
  {
    hide TransportEnd, U16;
  }

  lemma Ip4Finish(s: seq<u8>, caplen: nat, link: Link, junk: u16, dl: nat)
    requires caplen <= |s| && dl < caplen < 0x8000 && dl + 20 <= |s|
    requires LinkLen(link) <= |s| && NetType(s, link) == 0x0800 && NotCutOff(s, caplen, dl) && Inside4(s, dl)
    requires Staged(s, caplen, link, junk, dl, Proto4(s, caplen, dl), Stage4(s, dl), Least(U16(s, dl + 2), caplen - dl))
    requires Fits(s, dl + Ihl(s, dl), Class4(s, caplen, dl))
    ensures Ip4Outcome(Analyse(s, caplen, link, junk), s, caplen, dl, Class4(s, caplen, dl))
  {
    hide *;
    var c, at, proto, n := Class4(s, caplen, dl), dl + Ihl(s, dl), Proto4(s, caplen, dl),
      Least(U16(s, dl + 2), caplen - dl);
    Class4Is(s, caplen, dl);
    Assemble(s, caplen, link, junk, dl, proto, Stage4(s, dl), n);
    TransportIs(s, at, proto, caplen - at);
    LeastBounds(U16(s, dl + 2), caplen - dl);
    StageLength4(s, dl);
    match AnalyzeTransport(s, at, proto) {
      case TransportFault => OutcomeFault4(Analyse(s, caplen, link, junk), s, caplen, dl, c);
      case TransportStage(t, hlen) => HandedIs4(s, caplen, dl, c, AnalyzeLink(s, link), t, hlen, dl + n);
    }
  }

  /** Every captured IPv4 frame whose transport header, if it has one that is recognised,
      was not cut off: class, options and cut are those of RFC 791 and RFC 793. */
  lemma Ip4Cut(s: seq<u8>, caplen: nat, link: Link, junk: u16, dl: nat)
    requires caplen <= |s| && dl < caplen < 0x8000 && Framed(s, link, dl, 0x0800) && dl + 20 <= |s|
    requires NotCutOff(s, caplen, dl)
    ensures Fits(s, dl + Ihl(s, dl), Class4(s, caplen, dl))
    ensures Ip4Outcome(Analyse(s, caplen, link, junk), s, caplen, dl, Class4(s, caplen, dl))
  {
    Class4Is(s, caplen, dl);
    if Inside4(s, dl) {
      Ip4Staged(s, caplen, link, junk, dl);
      hide *;
      Ip4Finish(s, caplen, link, junk, dl);
    } else {
      Ip4Fault(s, caplen, link, junk, dl);
      hide Analyse, Class4, Framed, Ip4Packet, TransportEnd;
    }
  }

  lemma TcpClassIs(s: seq<u8>, caplen: nat, dl: nat)
    requires dl + 20 <= |s| && U16(s, dl + 6) % 0x2000 == 0 && s[dl + 9] == 6
    requires caplen - dl - 4 * (s[dl] % 0x10) >= 20 && caplen <= |s|
    ensures NotCutOff(s, caplen, dl) && Class4(s, caplen, dl) == TcpClass && Inside4(s, dl)
  {
    hide U16;
  }

  lemma TcpOutcome(r: Capture, s: seq<u8>, caplen: nat, dl: nat, at: nat, end: nat, n: int)
    requires dl + 20 <= |s| && at == dl + 4 * (s[dl] % 0x10) && at + 20 <= |s| && end == at + 4 * (s[at + 12] / 0x10)
    requires n == dl + Least(U16(s, dl + 2), caplen - dl)
    requires Inside4(s, dl) && Fits(s, dl + Ihl(s, dl), TcpClass) && Ip4Outcome(r, s, caplen, dl, TcpClass)
    ensures r.Captured? <==> end <= |s|
    ensures r.Captured? ==>
              && r.class_ == TcpClass && CutAt(r, s, Least(end, n), n) && r.transport.TcpTransport?
              && r.transport.tcpOption == if end > at + 20 then s[at + 20..end] else []
  {
    hide U16, CutAt, Least;
  }

  /** A TCP segment in plain numbers, options included: at is where it starts, end where
      its header ends, n where the datagram ends or the captured octets do. */
  lemma TcpCut(s: seq<u8>, caplen: nat, link: Link, junk: u16, dl: nat, at: nat, end: nat, n: int)
    requires caplen <= |s| && dl < caplen < 0x8000 && Framed(s, link, dl, 0x0800) && dl + 20 <= |s|
    requires U16(s, dl + 6) % 0x2000 == 0 && s[dl + 9] == 6
    requires at == dl + 4 * (s[dl] % 0x10) && caplen - at >= 20 && end == at + 4 * (s[at + 12] / 0x10)
    requires n == dl + Least(U16(s, dl + 2), caplen - dl)
    ensures var r := Analyse(s, caplen, link, junk);
            && (r.Captured? <==> end <= |s|)
            && (r.Captured? ==>
                  && r.class_ == TcpClass && CutAt(r, s, Least(end, n), n) && r.transport.TcpTransport?
                  && r.transport.tcpOption == if end > at + 20 then s[at + 20..end] else [])
  {
    TcpClassIs(s, caplen, dl);
    hide *;
    Ip4Cut(s, caplen, link, junk, dl);
    TcpOutcome(Analyse(s, caplen, link, junk), s, caplen, dl, at, end, n);
  }

  lemma CutOffTransport(s: seq<u8>, at: int)
    ensures AnalyzeTransport(s, at, 0xffff) == TransportStage(NoTransport, 0)
  {}

  lemma CutOffStaged(s: seq<u8>, caplen: nat, link: Link, junk: u16, dl: nat)
    requires caplen <= |s| && dl < caplen < 0x8000 && Framed(s, link, dl, 0x0800) && dl + 20 <= |s|
    requires !NotCutOff(s, caplen, dl) && dl + U16(s, dl + 2) < 0x8000
    ensures LinkLen(link) <= |s| && NetType(s, link) == 0x0800 && Inside4(s, dl) && Ihl(s, dl) >= 0
    ensures Staged(s, caplen, link, junk, dl, 0xffff, Stage4(s, dl), U16(s, dl + 2))
  {
    FramedIs(s, link, dl, 0x0800);
    Ip4Readable(s, link, dl);
    Ip4Transport(s, caplen, link, junk, dl);
    Ip4Stage(s, caplen, link, dl);
    SignedTotal(U16(s, dl + 2));
    hide Framed, Readable, NetType, NetStart, LinkLen, TransportOf, AnalyzeNet, U16, ToI16, AnalyzeIp, CutOff;
  }

  lemma HandedCutOff(s: seq<u8>, dl: nat, ether: Option<Ether>, n: nat)
    requires dl + 20 <= |s| && Inside4(s, dl) && dl <= n
    ensures Fits(s, dl + Ihl(s, dl), IpClass)
    ensures var r := Handed(s, ClassOf(0x0800, 0xffff), ether, Stage4(s, dl).net, NoTransport, dl + Ihl(s, dl), n);
            (r.Captured? <==> n <= |s|) && (r.Captured? ==> Ip4Packet(r, s, dl, IpClass, n))
  {
    hide U16;
  }

  /** A frame whose transport header was cut off is a plain IP packet, and the length its
      IPv4 header announces is believed, captured or not. */
  lemma Ip4CutOff(s: seq<u8>, caplen: nat, link: Link, junk: u16, dl: nat)
    requires caplen <= |s| && dl < caplen < 0x8000 && Framed(s, link, dl, 0x0800) && dl + 20 <= |s|
    requires !NotCutOff(s, caplen, dl) && dl + U16(s, dl + 2) < 0x8000
    ensures var r, n := Analyse(s, caplen, link, junk), dl + U16(s, dl + 2);
            && Fits(s, dl + Ihl(s, dl), IpClass)
            && (r.Captured? <==> n <= |s|) && (r.Captured? ==> Ip4Packet(r, s, dl, IpClass, n))
  {
    CutOffStaged(s, caplen, link, junk, dl);
    hide *;
    StageLength4(s, dl);
    Assemble(s, caplen, link, junk, dl, 0xffff, Stage4(s, dl), U16(s, dl + 2));
    CutOffTransport(s, dl + Ihl(s, dl));
    HandedCutOff(s, dl, AnalyzeLink(s, link), dl + U16(s, dl + 2));
  }

  // ---- IPv6 -----------------------------------------------------------------------------------

  /** The network length of an IPv6 packet, in 16 bits. */
  function Total6(s: seq<u8>, dl: nat): u16
    requires dl + 40 <= |s|
  {
    (U16(s, dl + 4) + 40) % 0x1_0000
  }

  lemma SignedTotal6(v: u16)
    ensures var total: int, length: int := (v + 40) % 0x1_0000, ToI16(ToI16(v) + 40);
            length == total || (length == total - 0x1_0000 && total >= 0x8000)
  {}

  function Proto6(s: seq<u8>, caplen: nat, dl: nat): (proto: u16)
    requires dl + 40 <= |s|
  {
    if IsExtension(s[dl + 6]) then s[dl] else s[dl + 6]
  }

  function Stage6(s: seq<u8>, dl: nat, hs: seq<OptHeader>): NetStage
    requires dl + 40 <= |s| && 40 + Sizes(hs) < 0x8000
  {
    NetStage(Ip6Net(hs), 40 + Sizes(hs), ToI16(ToI16(U16(s, dl + 4)) + 40))
  }

  /** A frame with an IPv6 header at dl, of which an octet behind the header was captured. */
  predicate Frame6(s: seq<u8>, caplen: nat, link: Link, dl: nat) {
    && dl + 40 < caplen <= |s| && caplen < 0x8000 && Framed(s, link, dl, 0x86dd) && s[dl] / 0x10 == 6
  }

  lemma AvailableIs(caplen: nat, link: Link, dl: nat)
    requires LinkLen(link) == dl < caplen < 0x8000
    ensures Available(caplen, link) == caplen - dl
  {
    Narrow(caplen);
    Narrow(caplen - dl);
  }

  lemma Ip6Facts(s: seq<u8>, caplen: nat, link: Link, junk: u16, dl: nat)
    requires Frame6(s, caplen, link, dl) && !CutOff(s[dl + 6], caplen - dl - 40)
    ensures Readable(s, link) && LinkLen(link) == NetStart(s, link) == dl && NetType(s, link) == 0x86dd
    ensures TransportOf(s, caplen, link, junk) == Proto6(s, caplen, dl)
    ensures Clamp(0x86dd, Proto6(s, caplen, dl), ToI16(ToI16(U16(s, dl + 4)) + 40), caplen, dl)
         == Least(Total6(s, dl), caplen - dl)
  {
    FramedIs(s, link, dl, 0x86dd);
    hide Framed, NetType, U16, ToI16;
    assert Readable(s, link);
    Ipv6TransportExact(s, caplen, link, junk);
    AvailableIs(caplen, link, dl);
    hide TransportOf, Available, Clamp;
    SignedTotal6(U16(s, dl + 4));
    ClampIsLeast(0x86dd, Proto6(s, caplen, dl), ToI16(ToI16(U16(s, dl + 4)) + 40), Total6(s, dl), caplen, dl);
  }

  lemma Ip6Stage(s: seq<u8>, caplen: nat, link: Link, dl: nat)
    requires Framed(s, link, dl, 0x86dd) && dl + 40 <= |s|
    ensures Readable(s, link)
    ensures match Walk(s, dl + 40, s[dl + 6])
            case None => AnalyzeNet(s, caplen, link) == NetFault
            case Some(hs) => 40 + Sizes(hs) < 0x8000 ==> AnalyzeNet(s, caplen, link) == Stage6(s, dl, hs)
  {
    FramedIs(s, link, dl, 0x86dd);
    hide Framed, NetType, U16, Walk, Sizes;
    if Walk(s, dl + 40, s[dl + 6]).Some? { Narrow(40 + Sizes(Walk(s, dl + 40, s[dl + 6]).value)); }
    hide ToI16;
  }

  function Class6(s: seq<u8>, caplen: nat, dl: nat): Class
    requires dl + 40 <= |s|
  {
    Recognised(s[dl + 6], caplen - dl - 40)
  }

  /** The network header behind which an IPv6 packet carries its transport header: a
      recognised one has no extension headers before it. */
  lemma NoneBefore(s: seq<u8>, caplen: nat, dl: nat, hs: seq<OptHeader>)
    requires dl + 40 < caplen <= |s| && Walk(s, dl + 40, s[dl + 6]) == Some(hs) && s[dl] / 0x10 == 6
    requires !CutOff(s[dl + 6], caplen - dl - 40)
    ensures var c, at, proto := Class6(s, caplen, dl), dl + 40 + Sizes(hs), Proto6(s, caplen, dl);
            var left := if hs == [] then caplen - dl - 40 else |s| - at;
            && left <= |s| - at && !CutOff(proto, left) && c == Recognised(proto, left) == ClassOf(0x86dd, proto)
            && Fits(s, at, c)
  {
    if hs == [] { assert Sizes(hs) == 0; }
    if IsExtension(s[dl + 6]) { assert 0x60 <= s[dl] < 0x70; }
  }

  /** What get_packet makes of an IPv6 frame with the extension headers hs. */
  predicate Ip6Packet(r: Capture, s: seq<u8>, dl: nat, hs: seq<OptHeader>, c: Class, n: int)
    requires Fits(s, dl + 40 + Sizes(hs), c)
  {
    var at := dl + 40 + Sizes(hs);
    && CutAt(r, s, Least(at + TransportEnd(s, at, c), n), n) && r.class_ == c && r.net == Ip6Net(hs)
    && Describes(r.transport, s, at, c)
  }

  predicate Ip6Outcome(r: Capture, s: seq<u8>, caplen: nat, dl: nat, hs: seq<OptHeader>, c: Class)
    requires dl + 40 <= |s| && Fits(s, dl + 40 + Sizes(hs), c)
  {
    var at := dl + 40 + Sizes(hs);
    && (r.Captured? <==> (c == TcpClass ==> at + TransportEnd(s, at, c) <= |s|))
    && (r.Captured? ==> Ip6Packet(r, s, dl, hs, c, dl + Least(Total6(s, dl), caplen - dl)))
  }

  lemma Total6Bounds(s: seq<u8>, caplen: nat, dl: nat)
    requires dl + 40 < caplen <= |s|
    ensures 0 <= Least(Total6(s, dl), caplen - dl) <= caplen - dl
  {
    hide U16;
  }

  lemma Ip6Staged(s: seq<u8>, caplen: nat, link: Link, junk: u16, dl: nat, hs: seq<OptHeader>)
    requires Frame6(s, caplen, link, dl) && !CutOff(s[dl + 6], caplen - dl - 40)
    requires Walk(s, dl + 40, s[dl + 6]) == Some(hs) && 40 + Sizes(hs) < 0x8000
    ensures LinkLen(link) <= |s| && NetType(s, link) == 0x86dd
    ensures Staged(s, caplen, link, junk, dl, Proto6(s, caplen, dl), Stage6(s, dl, hs),
                   Least(Total6(s, dl), caplen - dl))
  {
    Ip6Facts(s, caplen, link, junk, dl);
    Ip6Stage(s, caplen, link, dl);
    Total6Bounds(s, caplen, dl);
    hide Framed, Walk, Sizes, Readable, NetType, NetStart, LinkLen, TransportOf, AnalyzeNet, U16, ToI16, Clamp, Least,
      Proto6, Total6;
  }

  lemma OutcomeFault6(r: Capture, s: seq<u8>, caplen: nat, dl: nat, hs: seq<OptHeader>, c: Class)
    requires dl + 40 <= |s| && Fits(s, dl + 40 + Sizes(hs), c) && r == Fault
    requires c == TcpClass && dl + 40 + Sizes(hs) + TransportEnd(s, dl + 40 + Sizes(hs), c) > |s|
    ensures Ip6Outcome(r, s, caplen, dl, hs, c)
  {}

  lemma HandedIs6(s: seq<u8>, caplen: nat, dl: nat, hs: seq<OptHeader>, c: Class, ether: Option<Ether>, t: Transport,
                  hlen: nat, n: nat)
    requires dl + 40 <= |s| && 40 + Sizes(hs) < 0x8000 && Fits(s, dl + 40 + Sizes(hs), c) && dl <= n <= |s|
    requires n == dl + Least(Total6(s, dl), caplen - dl)
    requires Describes(t, s, dl + 40 + Sizes(hs), c) && hlen == TransportEnd(s, dl + 40 + Sizes(hs), c)
    ensures Ip6Outcome(Handed(s, c, ether, Stage6(s, dl, hs).net, t, dl + 40 + Sizes(hs) + hlen, n),
                       s, caplen, dl, hs, c)
  {
    hide TransportEnd, U16, Total6, Sizes;
  }

  lemma StageLength6(s: seq<u8>, dl: nat, hs: seq<OptHeader>)
    requires dl + 40 <= |s| && 40 + Sizes(hs) < 0x8000
    ensures Stage6(s, dl, hs).NetStage? && Stage6(s, dl, hs).hlen == 40 + Sizes(hs)
  {}

  lemma Ip6Finish(s: seq<u8>, caplen: nat, link: Link, junk: u16, dl: nat, hs: seq<OptHeader>, left: int)
    requires caplen <= |s| && dl + 40 < caplen < 0x8000 && 40 + Sizes(hs) < 0x8000
    requires LinkLen(link) <= |s| && NetType(s, link) == 0x86dd
    requires Staged(s, caplen, link, junk, dl, Proto6(s, caplen, dl), Stage6(s, dl, hs),
                    Least(Total6(s, dl), caplen - dl))
    requires var c, at, proto := Class6(s, caplen, dl), dl + 40 + Sizes(hs), Proto6(s, caplen, dl);
             && left <= |s| - at && !CutOff(proto, left) && c == Recognised(proto, left) == ClassOf(0x86dd, proto)
             && Fits(s, at, c)
    ensures Ip6Outcome(Analyse(s, caplen, link, junk), s, caplen, dl, hs, Class6(s, caplen, dl))
  {
    hide *;
    var c, at, proto, n := Class6(s, caplen, dl), dl + 40 + Sizes(hs), Proto6(s, caplen, dl),
      Least(Total6(s, dl), caplen - dl);
    Assemble(s, caplen, link, junk, dl, proto, Stage6(s, dl, hs), n);
    TransportIs(s, at, proto, left);
    Total6Bounds(s, caplen, dl);
    StageLength6(s, dl, hs);
    match AnalyzeTransport(s, at, proto) {
      case TransportFault => OutcomeFault6(Analyse(s, caplen, link, junk), s, caplen, dl, hs, c);
      case TransportStage(t, hlen) => HandedIs6(s, caplen, dl, hs, c, AnalyzeLink(s, link), t, hlen, dl + n);
    }
  }

  /** Every captured IPv6 frame whose transport header was not cut off: the network header
      is 40 octets and the chain of extension headers. */
  lemma Ip6Cut(s: seq<u8>, caplen: nat, link: Link, junk: u16, dl: nat, hs: seq<OptHeader>)
    requires Frame6(s, caplen, link, dl) && !CutOff(s[dl + 6], caplen - dl - 40)
    requires Walk(s, dl + 40, s[dl + 6]) == Some(hs) && 40 + Sizes(hs) < 0x8000
    ensures Fits(s, dl + 40 + Sizes(hs), Class6(s, caplen, dl))
    ensures Ip6Outcome(Analyse(s, caplen, link, junk), s, caplen, dl, hs, Class6(s, caplen, dl))
  {
    Ip6Staged(s, caplen, link, junk, dl, hs);
    NoneBefore(s, caplen, dl, hs);
    var left := if hs == [] then caplen - dl - 40 else |s| - (dl + 40 + Sizes(hs));
    hide Class6, Proto6, Sizes, Walk, Framed, Total6, Stage6, Staged, Recognised, ClassOf, CutOff, Fits, Ip6Outcome,
      Analyse, U16, Least, NetType, LinkLen;
    Ip6Finish(s, caplen, link, junk, dl, hs, left);
  }

  // ---- ARP and other types --------------------------------------------------------------------

  lemma ArpStaged(s: seq<u8>, caplen: nat, link: Link, junk: u16, dl: nat, size: nat)
    requires dl + 28 < caplen <= |s| && caplen < 0x8000 && Framed(s, link, dl, 0x0806) && dl + size <= |s|
    requires size == 8 + 2 * (s[dl + 4] as int) + 2 * (s[dl + 5] as int)
    ensures LinkLen(link) <= |s| && NetType(s, link) == 0x0806
    ensures Staged(s, caplen, link, junk, dl, 0x0806, NetStage(ArpNet(AnalyzeArp(s, dl)), size, size),
                   Least(size, caplen - dl))
  {
    FramedIs(s, link, dl, 0x0806);
    AvailableIs(caplen, link, dl);
    ClampIsLeast(0x0806, 0x0806, size, size, caplen, dl);
    hide Framed, NetType, U16, ToI16, AnalyzeArp, Clamp, Available, NetStart;
  }

  lemma ArpFault(s: seq<u8>, caplen: nat, link: Link, junk: u16, dl: nat)
    requires dl + 28 < caplen <= |s| && Framed(s, link, dl, 0x0806)
    requires dl + 8 + 2 * (s[dl + 4] as int) + 2 * (s[dl + 5] as int) > |s|
    ensures Analyse(s, caplen, link, junk) == Fault
  {
    FramedIs(s, link, dl, 0x0806);
    hide Framed, NetType, U16, ToI16, AnalyzeArp, NetStart, Analyse;
    AnalyseFaults(s, caplen, link, junk);
  }

  lemma NoTransportHeader(s: seq<u8>, at: int, nproto: u16)
    requires nproto !in {1, 6, 17}
    ensures AnalyzeTransport(s, at, nproto) == TransportStage(NoTransport, 0)
    ensures ClassOf(nproto, nproto) == if nproto == 0x0800 || nproto == 0x86dd then IpClass
                                       else if nproto == 0x0806 || nproto == 0x8035 then ArpClass else PlainClass
  {}

  lemma HandedWhole(s: seq<u8>, c: Class, ether: Option<Ether>, net: Net, at: nat, n: nat)
    requires n <= |s|
    ensures var r := Handed(s, c, ether, net, NoTransport, at, n);
            CutAt(r, s, Least(at, n), n) && r.Captured? && r.class_ == c && r.net == net && r.transport == NoTransport
  {}

  lemma LeastOfBoth(dl: int, size: int, room: int)
    ensures Least(dl + size, dl + Least(size, room)) == dl + Least(size, room)
  {}

  /** An ARP packet is header to its end, or to the end of the captured octets. */
  lemma ArpCut(s: seq<u8>, caplen: nat, link: Link, junk: u16, dl: nat)
    requires dl + 28 < caplen <= |s| && caplen < 0x8000 && Framed(s, link, dl, 0x0806)
    ensures var r, size := Analyse(s, caplen, link, junk), 8 + 2 * (s[dl + 4] as int) + 2 * (s[dl + 5] as int);
            var n := dl + Least(size, caplen - dl);
            && (r.Captured? <==> dl + size <= |s|)
            && (r.Captured? ==>
                  && r.class_ == ArpClass && CutAt(r, s, n, n) && r.transport == NoTransport
                  && r.net == ArpNet(AnalyzeArp(s, dl)))
  {
    hide Analyse, AnalyzeTransport, AnalyzeArp, Framed, Staged, Handed, Least, CutAt, NetType, AnalyzeLink, ClassOf,
      U16;
    var size := 8 + 2 * (s[dl + 4] as int) + 2 * (s[dl + 5] as int);
    if dl + size > |s| {
      ArpFault(s, caplen, link, junk, dl);
    } else {
      var stage := NetStage(ArpNet(AnalyzeArp(s, dl)), size, size);
      var n := Least(size, caplen - dl);
      ArpStaged(s, caplen, link, junk, dl, size);
      Assemble(s, caplen, link, junk, dl, 0x0806, stage, n);
      NoTransportHeader(s, dl + size, 0x0806);
      LeastBounds(size, caplen - dl);
      HandedWhole(s, ArpClass, AnalyzeLink(s, link), stage.net, dl + size, dl + n);
      LeastOfBoth(dl, size, caplen - dl);
    }
  }

  lemma OtherStaged(s: seq<u8>, caplen: nat, link: Link, junk: u16, dl: nat, nproto: u16)
    requires dl < caplen <= |s| && caplen < 0x8000 && Framed(s, link, dl, nproto)
    requires nproto !in {1, 6, 17, 0x0800, 0x0806, 0x86dd, 0xffff}
    ensures LinkLen(link) <= |s| && NetType(s, link) == nproto
    ensures Staged(s, caplen, link, junk, dl, nproto, NetStage(NoNet, 0, caplen - dl), caplen - dl)
  {
    FramedIs(s, link, dl, nproto);
    AvailableIs(caplen, link, dl);
    Narrow(caplen - dl);
    ClampIsLeast(nproto, nproto, caplen - dl, caplen - dl, caplen, dl);
    hide Framed, NetType, U16, ToI16, Clamp, Available, NetStart;
  }

  /** A frame of any other type: the link header is the header, everything behind it data. */
  lemma OtherCut(s: seq<u8>, caplen: nat, link: Link, junk: u16, dl: nat, nproto: u16)
    requires dl < caplen <= |s| && caplen < 0x8000 && Framed(s, link, dl, nproto)
    requires nproto !in {1, 6, 17, 0x0800, 0x0806, 0x86dd, 0xffff}
    ensures var r := Analyse(s, caplen, link, junk);
            CutAt(r, s, dl, caplen) && r.class_ == (if nproto == 0x8035 then ArpClass else PlainClass) && r.net == NoNet
  {
    hide Analyse, AnalyzeTransport, Framed, Staged, Handed, CutAt, NetType, AnalyzeLink, ClassOf;
    OtherStaged(s, caplen, link, junk, dl, nproto);
    Assemble(s, caplen, link, junk, dl, nproto, NetStage(NoNet, 0, caplen - dl), caplen - dl);
    NoTransportHeader(s, dl, nproto);
    HandedWhole(s, ClassOf(nproto, nproto), AnalyzeLink(s, link), NoNet, dl, caplen);
  }
}
