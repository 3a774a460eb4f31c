/** What get_packet keeps for every captured frame, and what JpcapWriter makes of it. */
module CaptureLaws {
  import opened Bytes
  import opened Packets
  import opened Ipv6Walk
  import opened Captor

  /** The network length get_packet works with after the clamp step. */
  function NetworkLength(s: seq<u8>, caplen: nat, link: Link, junk: u16): i16
    requires caplen <= |s| && Readable(s, link) && AnalyzeNet(s, caplen, link).NetStage?
  {
    Clamp(NetType(s, link), TransportOf(s, caplen, link, junk), AnalyzeNet(s, caplen, link).clen, caplen, LinkLen(link))
  }

  /** The signed 16-bit arithmetic on the lengths of a capture does not wrap. */
  predicate NoWrap(s: seq<u8>, caplen: nat, link: Link, junk: u16)
    requires caplen <= |s| && Readable(s, link) && AnalyzeNet(s, caplen, link).NetStage?
  {
    var length := NetworkLength(s, caplen, link, junk);
    -0x8000 <= length - AnalyzeNet(s, caplen, link).hlen < 0x8000 && NetStart(s, link) + length < 0x8000
  }

  /** get_packet conserves octets: whatever the analysers return, header and data
      are the start of the frame, as long as the arithmetic does not wrap. */
  lemma CaptureConserves(s: seq<u8>, caplen: nat, link: Link, junk: u16)
    requires caplen <= |s|
    ensures var r := Analyse(s, caplen, link, junk);
            r.Captured? && NoWrap(s, caplen, link, junk) ==>
              var n := NetStart(s, link) + NetworkLength(s, caplen, link, junk);
              |r.header| + |r.data| == n && 0 <= n <= |s| && r.header + r.data == s[..n]
  {
    hide TransportOf, AnalyzeNet, AnalyzeTransport, AnalyzeLink, ToI16, U16, Walk, Split;
    if !Analyse(s, caplen, link, junk).Captured? { return; }
    var stage := AnalyzeNet(s, caplen, link);
    var length := NetworkLength(s, caplen, link, junk);
    var tproto := TransportOf(s, caplen, link, junk);
    var transport := AnalyzeTransport(s, NetStart(s, link) + stage.hlen, tproto);
    if NoWrap(s, caplen, link, junk) {
      SplitConserves(s, NetStart(s, link), length, stage.hlen, transport.hlen);
    }
  }

  lemma ClampBounds(nproto: u16, tproto: u16, clen: i16, caplen: nat, dl: nat)
    requires Clamps(nproto, tproto) && dl <= caplen < 0x8000
    ensures 0 <= Clamp(nproto, tproto, clen, caplen, dl) <= caplen - dl
    ensures 0 <= clen <= caplen - dl ==> Clamp(nproto, tproto, clen, caplen, dl) == clen
  {}

  /** Where the clamp applies, the network length is between 0 and what was captured
      behind the link header, and the arithmetic does not wrap. */
  lemma ClampedIsBounded(s: seq<u8>, caplen: nat, link: Link, junk: u16)
    requires caplen <= |s| && caplen < 0x8000 && LinkLen(link) <= caplen
    requires Analyse(s, caplen, link, junk).Captured?
    requires Clamps(NetType(s, link), TransportOf(s, caplen, link, junk))
    requires AnalyzeNet(s, caplen, link).hlen >= 0
    ensures NoWrap(s, caplen, link, junk) && NetStart(s, link) == LinkLen(link)
    ensures LinkLen(link) <= NetStart(s, link) + NetworkLength(s, caplen, link, junk) <= caplen
  {
    assert Readable(s, link) && AnalyzeNet(s, caplen, link).NetStage?;
    hide TransportOf, AnalyzeNet, Analyse, U16, Walk;
    ClampBounds(NetType(s, link), TransportOf(s, caplen, link, junk), AnalyzeNet(s, caplen, link).clen,
                caplen, LinkLen(link));
  }

  lemma PrefixLength(s: seq<u8>, n: nat, m: nat)
    requires n <= |s| && m <= |s|
    ensures s[..n] <= s[..m] <==> n <= m
  {
    if n <= m { assert s[..n] == s[..m][..n]; }
  }

  /** Header and data stay inside the captured octets exactly when the clamp applies,
      or when the length that the network header announces was captured anyway. */
  lemma InsideExactly(s: seq<u8>, caplen: nat, link: Link, junk: u16)
    requires caplen <= |s| && caplen < 0x8000 && LinkLen(link) <= caplen
    ensures var r := Analyse(s, caplen, link, junk);
            r.Captured? && NoWrap(s, caplen, link, junk) && AnalyzeNet(s, caplen, link).hlen >= 0 ==>
              (r.header + r.data <= s[..caplen]
               <==> Clamps(NetType(s, link), TransportOf(s, caplen, link, junk))
                    || NetStart(s, link) + AnalyzeNet(s, caplen, link).clen <= caplen)
  {
    var r := Analyse(s, caplen, link, junk);
    if r.Captured? && NoWrap(s, caplen, link, junk) && AnalyzeNet(s, caplen, link).hlen >= 0 {
      CaptureConserves(s, caplen, link, junk);
      var n := NetStart(s, link) + NetworkLength(s, caplen, link, junk);
      PrefixLength(s, n, caplen);
      if Clamps(NetType(s, link), TransportOf(s, caplen, link, junk)) {
        ClampedIsBounded(s, caplen, link, junk);
      } else {
        hide TransportOf, AnalyzeNet, Analyse, U16, Walk;
        assert NetworkLength(s, caplen, link, junk) == AnalyzeNet(s, caplen, link).clen;
      }
    }
  }

  lemma TruncatedSplit(s: seq<u8>, total: nat)
    requires 20 < total < 0x7000 && 14 + total <= |s|
    ensures Split(s, 14, total, 20, 0) == Some((s[..34], s[34..14 + total]))
    ensures s[..34] + s[34..14 + total] == s[..14 + total]
  {}

  /** A family that leaves them: when a TCP header is cut off, the transport protocol
      becomes "unknown", and the length of the IPv4 header is believed. */
  lemma TruncatedEscapes(s: seq<u8>, caplen: nat, junk: u16)
    requires caplen <= |s| && 34 < caplen < 54
    requires NetType(s, EthernetLink) == ETHERTYPE_IP && s[14] == 0x45 && FragmentOffset(s, 14) == 0
             && s[23] == PROTO_TCP
    requires caplen < 14 + U16(s, 16) <= |s| && U16(s, 16) < 0x7000
    ensures var r := Analyse(s, caplen, EthernetLink, junk);
            && TransportOf(s, caplen, EthernetLink, junk) == UNKNOWN_PROTO
            && r.Captured? && r.header + r.data == s[..14 + U16(s, 16)] && |r.header + r.data| > caplen
  {
    var total := U16(s, 16);
    hide AnalyzeIp, AnalyzeLink, U16;
    Narrow(caplen);
    Narrow(caplen - 14);
    Narrow(total);
    assert Available(caplen, EthernetLink) == caplen - 14;
    assert TransportOf(s, caplen, EthernetLink, junk) == UNKNOWN_PROTO;
    assert AnalyzeNet(s, caplen, EthernetLink) == NetStage(Ip4Net(AnalyzeIp(s, 14), total, []), 20, total);
    TruncatedSplit(s, total);
    hide TransportOf, AnalyzeNet, Split, ToI16, Available;
    assert Analyse(s, caplen, EthernetLink, junk)
        == Captured(IpClass, AnalyzeLink(s, EthernetLink), Ip4Net(AnalyzeIp(s, 14), total, []), NoTransport,
                    s[..34], s[34..14 + total]);
  }

  /** Where the clamp applies, header and data are a prefix of the captured octets. */
  lemma ClampedIsPrefix(s: seq<u8>, caplen: nat, link: Link, junk: u16)
    requires caplen <= |s| && caplen < 0x8000 && LinkLen(link) <= caplen
    requires Analyse(s, caplen, link, junk).Captured?
    requires Clamps(NetType(s, link), TransportOf(s, caplen, link, junk))
    requires AnalyzeNet(s, caplen, link).hlen >= 0
    ensures var r := Analyse(s, caplen, link, junk);
            var n := LinkLen(link) + NetworkLength(s, caplen, link, junk);
            LinkLen(link) <= n <= caplen && r.header + r.data == s[..n]
  {
    CaptureConserves(s, caplen, link, junk);
    ClampedIsBounded(s, caplen, link, junk);
    hide TransportOf, AnalyzeNet, Analyse, U16, Walk;
  }

  /** A frame of an unknown link type, or with type 0xffff, is handed over whole
      as data. */
  lemma UnknownIsWhole(s: seq<u8>, caplen: nat, link: Link, junk: u16)
    requires caplen <= |s| && caplen < 0x8000 && Readable(s, link) && NetType(s, link) == UNKNOWN_PROTO
    requires 0 < Available(caplen, link)
    ensures var r := Analyse(s, caplen, link, junk);
            r.Captured? && r.class_ == PlainClass && r.header == [] && r.data == s[..caplen]
  {
    hide AnalyzeLink;
    Narrow(caplen);
    assert TransportOf(s, caplen, link, junk) == UNKNOWN_PROTO;
    assert AnalyzeNet(s, caplen, link) == NetStage(NoNet, 0, caplen);
    assert Split(s, 0, caplen, 0, 0) == Some(([], s[..caplen]));
  }

  // ---- the transport protocol of IPv6 frames ------------------------------------------

  predicate IsTransport(p: u16) { p == PROTO_TCP || p == PROTO_UDP || p == PROTO_ICMP }

  function TransportLen(p: u16): nat
    requires IsTransport(p)
  {
    if p == PROTO_TCP then TCP_LEN else if p == PROTO_UDP then UDP_LEN else ICMP_LEN
  }

  /** The protocol a chain of extension headers ends in. */
  function Final(hs: seq<OptHeader>, next: u8): u8 { if hs == [] then next else hs[|hs| - 1].next }

  lemma ChainIs(s: seq<u8>, dl: nat, left: int)
    requires left > 0 && dl + left + 40 <= |s| && s[dl] / 0x10 == 6
    ensures var next, r := s[dl + 6], Chain(s, dl, left, s[dl + 6]);
            if IsExtension(next) then r.0 == s[dl] && !IsTransport(r.0) else r.0 == next && r.1 == left
  {
    if IsExtension(s[dl + 6]) {
      var step := Size(s[dl + 6], s[dl + 1]);
      assert !IsExtension(s[dl]) && AfterExtension(s[dl]) == s[dl];
      assert Chain(s, dl, left, s[dl + 6]) == Chain(s, dl + step, left - step, s[dl])
          == (s[dl], left - step, dl + step);
    }
  }

  lemma WalkStep(s: seq<u8>, at: nat, proto: u8)
    requires IsExtension(proto) && at + 2 <= |s|
    ensures var h := OptHeader(proto, s[at], s[at + 1]);
            Walk(s, at, proto) == Prepend([h], Walk(s, at + Advance(h), h.next))
  {}

  lemma WalkHead(s: seq<u8>, at: nat, proto: u8, hs: seq<OptHeader>)
    requires Walk(s, at, proto) == Some(hs)
    ensures hs == [] ==> !IsExtension(proto)
    ensures hs != [] ==>
              && IsExtension(proto) && at + 2 <= |s| && hs[0] == OptHeader(proto, s[at], s[at + 1])
              && Walk(s, at + Advance(hs[0]), hs[0].next) == Some(hs[1..])
  {
    if IsExtension(proto) && at + 2 <= |s| {
      var h := OptHeader(proto, s[at], s[at + 1]);
      hide Walk, Advance;
      WalkStep(s, at, proto);
      assert Walk(s, at + Advance(h), h.next).Some?;
      assert hs == [h] + Walk(s, at + Advance(h), h.next).value;
    }
  }

  /** The protocol the loop ends with: no-next-header and encrypted payloads are unknown. */
  function EndsWith(hs: seq<OptHeader>, proto: u8): u16 {
    if hs == [] then proto else if Final(hs, proto) in {50, 59} then 0xffff else Final(hs, proto)
  }

  lemma OneStep(s: seq<u8>, dp: nat, clen: int, h: OptHeader)
    requires clen > 0 && dp + clen + 40 <= |s| && IsExtension(h.kind) && s[dp] == h.next && s[dp + 1] == h.len
    requires !Long(h)
    ensures Chain(s, dp, clen, h.kind) == Chain(s, dp + Advance(h), clen - Advance(h), AfterExtension(h.next))
    ensures Advance(h) == Size(h.kind, h.len)
  {
    ShortAdvance(h);
  }

  lemma EndStep(s: seq<u8>, dp: nat, clen: int, h: OptHeader)
    requires !IsExtension(h.next) && (clen > 0 ==> dp + clen + 40 <= |s|)
    ensures var r := Chain(s, dp, clen, AfterExtension(h.next));
            r.0 == EndsWith([h], h.kind) && r.1 == clen
  {}

  lemma SizesParts(hs: seq<OptHeader>)
    requires |hs| > 1
    ensures Sizes(hs[..|hs| - 1]) == Size(hs[0].kind, hs[0].len) + Sizes(hs[1..][..|hs| - 2])
  {
    hide Size;
    assert hs[..|hs| - 1][1..] == hs[1..][..|hs| - 2];
  }

  lemma SizesHead(hs: seq<OptHeader>)
    requires hs != []
    ensures Sizes(hs) == Size(hs[0].kind, hs[0].len) + Sizes(hs[1..])
    ensures |hs| == 1 ==> Sizes(hs) == Size(hs[0].kind, hs[0].len) && Sizes(hs[..0]) == 0
  {}

  lemma EndOfRest(hs: seq<OptHeader>, proto: u8, s: seq<u8>, at: nat)
    requires |hs| > 1 && Walk(s, at, hs[0].next) == Some(hs[1..])
    ensures AfterExtension(hs[0].next) == hs[0].next && EndsWith(hs, proto) == EndsWith(hs[1..], hs[0].next)
  {
    WalkHead(s, at, hs[0].next, hs[1..]);
  }

  predicate NoneLong(hs: seq<OptHeader>) { forall h :: h in hs ==> !Long(h) }

  lemma NoneLongParts(hs: seq<OptHeader>)
    requires hs != [] && NoneLong(hs)
    ensures !Long(hs[0]) && NoneLong(hs[1..])
  {}

  lemma ChainOfOne(s: seq<u8>, dp: nat, clen: int, proto: u8, hs: seq<OptHeader>)
    requires |hs| == 1 && clen > 0 && dp + clen + 40 <= |s| && Walk(s, dp, proto) == Some(hs) && !Long(hs[0])
    ensures var r := Chain(s, dp, clen, proto); r.0 == EndsWith(hs, proto) && r.1 == clen - Sizes(hs)
  {
    var h := hs[0];
    WalkHead(s, dp, proto, hs);
    WalkHead(s, dp + Advance(h), h.next, []);
    SizesHead(hs);
    hide *;
    OneStep(s, dp, clen, h);
    EndStep(s, dp + Advance(h), clen - Advance(h), h);
    assert hs == [h];
  }

  lemma ChainOfNone(s: seq<u8>, dp: nat, clen: int, proto: u8)
    requires (clen > 0 ==> dp + clen + 40 <= |s|) && !IsExtension(proto)
    ensures var r := Chain(s, dp, clen, proto); r.0 == EndsWith([], proto) && r.1 == clen && Sizes([]) == 0
  {}

  /** From where it starts, the loop of get_packet agrees with the walk of analyze_ipv6:
      it ends behind the same headers, if octets are left before each of them and no
      routing header is long. */
  lemma {:induction false} ChainFollowsWalk(s: seq<u8>, dp: nat, clen: int, proto: u8, hs: seq<OptHeader>)
    requires clen > 0 ==> dp + clen + 40 <= |s|
    requires Walk(s, dp, proto) == Some(hs) && NoneLong(hs)
    requires hs != [] ==> Sizes(hs[..|hs| - 1]) < clen
    ensures var r := Chain(s, dp, clen, proto); r.0 == EndsWith(hs, proto) && r.1 == clen - Sizes(hs)
    decreases |hs|
  {
    hide *;
    WalkHead(s, dp, proto, hs);
    if hs == [] {
      ChainOfNone(s, dp, clen, proto);
    } else if |hs| == 1 {
      NoneLongParts(hs);
      ChainOfOne(s, dp, clen, proto, hs);
    } else {
      var h := hs[0];
      NoneLongParts(hs);
      OneStep(s, dp, clen, h);
      SizesHead(hs);
      SizesParts(hs);
      EndOfRest(hs, proto, s, dp + Advance(h));
      ChainFollowsWalk(s, dp + Advance(h), clen - Advance(h), h.next, hs[1..]);
    }
  }

  /** The IPv6 loop of get_packet starts at the IPv6 header itself, so the "next
      header" it reads behind an announced extension header is the version octet.  A
      frame gets the transport protocol its header announces exactly when that is not
      an extension header and the transport header was captured. */
  lemma Ipv6TransportExact(s: seq<u8>, caplen: nat, link: Link, junk: u16)
    requires caplen <= |s| && Readable(s, link) && NetType(s, link) == ETHERTYPE_IPV6
    requires s[LinkLen(link)] / 0x10 == 6
    ensures var t, next, left := TransportOf(s, caplen, link, junk), s[LinkLen(link) + 6], Available(caplen, link) - 40;
            && (left > 0 ==> t == if IsExtension(next) then s[LinkLen(link)] else CheckTruncated(next, left))
            && (IsTransport(t) <==> IsTransport(next) && left >= TransportLen(next))
            && (IsTransport(t) ==> t == next)
  {
    AvailableBound(caplen, link);
    var dl, left := LinkLen(link), Available(caplen, link) - 40;
    hide ToI16, U16;
    if left > 0 {
      ChainIs(s, dl, left);
    }
  }

  /** Against the walk over the whole chain: where the chain ends in TCP, UDP or ICMP,
      that protocol is recognised exactly when the chain is empty and the transport
      header was captured. */
  lemma ChainedTransportExact(s: seq<u8>, caplen: nat, link: Link, junk: u16, hs: seq<OptHeader>)
    requires caplen <= |s| && Readable(s, link) && NetType(s, link) == ETHERTYPE_IPV6
    requires s[LinkLen(link)] / 0x10 == 6
    requires Walk(s, LinkLen(link) + 40, s[LinkLen(link) + 6]) == Some(hs)
             && IsTransport(Final(hs, s[LinkLen(link) + 6]))
    ensures var last := Final(hs, s[LinkLen(link) + 6]);
            TransportOf(s, caplen, link, junk) == last
            <==> hs == [] && Available(caplen, link) - 40 >= TransportLen(last)
  {
    Ipv6TransportExact(s, caplen, link, junk);
    hide TransportOf, Available, U16;
  }

  /** With an announced extension header the packet object has no transport part. */
  lemma ExtensionHidesTransport(s: seq<u8>, caplen: nat, link: Link, junk: u16)
    requires caplen <= |s| && Readable(s, link) && NetType(s, link) == ETHERTYPE_IPV6
    requires s[LinkLen(link)] / 0x10 == 6 && IsExtension(s[LinkLen(link) + 6])
    ensures var r := Analyse(s, caplen, link, junk);
            r.Captured? ==> r.class_ == IpClass && r.transport == NoTransport
  {
    Ipv6TransportExact(s, caplen, link, junk);
    hide AnalyzeNet, Split, Chain, ToI16, U16, TransportOf, Available;
  }

  /** The octets that reach the file: header, body and what the buffer held. */
  function Record(was: seq<u8>, caplen: nat, header: seq<u8>, body: seq<u8>): seq<u8> {
    if |header| + |body| <= |was| && caplen <= |was|
    then (header + body + was[|header| + |body|..])[..caplen] else []
  }

  /** writePacket (JpcapWriter.c:53-75): header and body are laid end to end in a
      local buffer, and caplen octets of that buffer are recorded. */
  method WritePacket(buf: array<u8>, caplen: nat, header: seq<u8>, body: seq<u8>) returns (record: seq<u8>)
    requires buf.Length == MAX_PACKET_SIZE && |header| + |body| <= MAX_PACKET_SIZE && caplen <= MAX_PACKET_SIZE
    modifies buf
    ensures record == Record(old(buf[..]), caplen, header, body)
  {
    ghost var was := buf[..];
    forall i | 0 <= i < |header| { buf[i] := header[i]; }
    forall i | 0 <= i < |body| { buf[|header| + i] := body[i]; }
    assert buf[..] == header + body + was[|header| + |body|..];
    record := buf[..caplen];
  }

  predicate RebuildsTo(record: seq<u8>, s: seq<u8>, caplen: nat, n: int, was: seq<u8>)
    requires caplen <= |s| && caplen <= |was|
  {
    && 0 <= n <= |s| && |record| == caplen
    && (if n < caplen then record[..n] == s[..n] && (record == s[..caplen] <==> was[n..caplen] == s[n..caplen])
        else record == s[..caplen])
  }

  lemma PrefixRecord(s: seq<u8>, caplen: nat, n: nat, was: seq<u8>)
    requires n <= |s| && caplen <= |s| && caplen <= |was| && n <= |was|
    ensures RebuildsTo((s[..n] + was[n..])[..caplen], s, caplen, n, was)
  {
    var record := (s[..n] + was[n..])[..caplen];
    if n < caplen {
      assert record == s[..n] + was[n..caplen];
      assert s[..caplen] == s[..n] + s[n..caplen];
      if record == s[..caplen] {
        assert was[n..caplen] == record[n..] == s[..caplen][n..] == s[n..caplen];
      }
    } else {
      assert record == s[..n][..caplen] == s[..caplen];
    }
  }

  lemma RecordIs(was: seq<u8>, caplen: nat, header: seq<u8>, body: seq<u8>, s: seq<u8>, n: nat)
    requires n <= |was| && n <= |s| && caplen <= |was| && header + body == s[..n]
    ensures Record(was, caplen, header, body) == (s[..n] + was[n..])[..caplen]
  {
    assert |header| + |body| == |header + body| == n;
  }

  /** Writing a capture records the start of the frame byte for byte, clamped or not;
      the record is the whole frame exactly when header and data reach its end or the
      leftover of the buffer happens to agree with the octets behind them. */
  lemma RecordRebuildsFrame(s: seq<u8>, caplen: nat, link: Link, junk: u16, was: seq<u8>)
    requires caplen <= |s| && caplen <= MAX_PACKET_SIZE == |was|
    ensures var r := Analyse(s, caplen, link, junk);
            r.Captured? && NoWrap(s, caplen, link, junk) && |r.header| + |r.data| <= MAX_PACKET_SIZE ==>
              RebuildsTo(Record(was, caplen, r.header, r.data), s, caplen,
                         NetStart(s, link) + NetworkLength(s, caplen, link, junk), was)
  {
    CaptureConserves(s, caplen, link, junk);
    hide TransportOf, AnalyzeNet, Analyse, NetworkLength, NetStart, NoWrap, Record, RebuildsTo, Readable, NetType;
    var r := Analyse(s, caplen, link, junk);
    if r.Captured? && NoWrap(s, caplen, link, junk) && |r.header| + |r.data| <= MAX_PACKET_SIZE {
      var n := NetStart(s, link) + NetworkLength(s, caplen, link, junk);
      RecordIs(was, caplen, r.header, r.data, s, n);
      PrefixRecord(s, caplen, n, was);
    }
  }
}
