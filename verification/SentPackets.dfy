/** What every packet the builder finishes promises to its receiver. */
module SentPackets {
  import opened Bytes
  import opened Checksum
  import opened Packets

  lemma ZeroField(before: seq<u8>, after: seq<u8>)
    ensures Sealed(before, 0, after) == before + [0, 0] + after
  {
    BE16Is(0);
  }

  lemma SealVerifies(before: seq<u8>, after: seq<u8>)
    requires |before| % 2 == 0
    ensures Verifies(Sealed(before, Rfc1071(Sealed(before, 0, after)), after))
  {
    hide Verifies, Rfc1071, BE16;
    ZeroField(before, after);
    VerifiesIff(before, Rfc1071(before + [0, 0] + after), after);
  }

  /** Section 3.1 of RFC 791: the header sums to all ones. */
  lemma HeaderVerifies(f: Ip, protocol: u8, total: int)
    requires f.Valid()
    ensures Verifies(IpBytes(f, protocol, total))
  {
    hide IpBefore, Verifies, Rfc1071;
    SealVerifies(IpBefore(f, protocol, total), f.src + f.dst);
  }

  lemma PseudoLength(addresses: seq<u8>, protocol: u8, length: u16)
    ensures |Pseudo(addresses, protocol, length)| == |addresses| + 4
  {}

  /** A checksum over a pseudo-header and a segment seals the segment. */
  lemma TransportVerifies(addresses: seq<u8>, protocol: u8, before: seq<u8>, after: seq<u8>, sum: u16)
    requires |addresses| == 8 && |before| % 2 == 0
    requires var c := TransportSum(addresses, protocol, before, after); sum == c || (c == 0 && sum == 0xffff)
    ensures var length := (|before| + 2 + |after|) % 0x1_0000;
            Verifies(Pseudo(addresses, protocol, length) + Sealed(before, sum, after))
  {
    hide Verifies, Rfc1071, BE16, Pseudo;
    var length := (|before| + 2 + |after|) % 0x1_0000;
    var pseudo := Pseudo(addresses, protocol, length);
    PseudoLength(addresses, protocol, length);
    ZeroField(before, after);
    assert pseudo + (before + [0, 0] + after) == pseudo + before + [0, 0] + after;
    VerifiesIff(pseudo + before, sum, after);
    assert pseudo + before + BE16(sum) + after == pseudo + Sealed(before, sum, after);
  }

  /** Section 3.1 of RFC 793. */
  lemma TcpVerifies(f: Ip, t: Tcp, x2: u8, data: seq<u8>)
    requires f.Valid() && x2 < 0x10
    ensures var s := TcpSegment(f, t, x2, data);
            Verifies(Pseudo(f.src + f.dst, PROTO_TCP, |s| % 0x1_0000) + s)
  {
    hide Verifies, TransportSum, Pseudo, Sealed, TcpBefore, TcpAfter;
    var before, after := TcpBefore(t, x2), TcpAfter(t, data);
    TransportVerifies(f.src + f.dst, PROTO_TCP, before, after,
                      TransportSum(f.src + f.dst, PROTO_TCP, before, after));
  }

  lemma UdpFieldsOf(u: Udp, data: seq<u8>, sum: u16)
    ensures var s := Sealed(UdpBefore(u, UDP_LEN + |data|), sum, data);
            U16(s, 6) == sum && U16(s, 4) == (UDP_LEN + |data|) % 0x1_0000
  {
    hide BE16, U16;
    var s := Sealed(UdpBefore(u, UDP_LEN + |data|), sum, data);
    assert s[6..8] == BE16(sum) && s[4..6] == BE16(UDP_LEN + |data|);
    RoundTrip16(s, 6, sum);
    RoundTrip16(s, 4, UDP_LEN + |data|);
  }

  /** RFC 768: the checksum verifies, its field is never zero, and the length
      field counts header and data. */
  lemma UdpVerifies(f: Ip, u: Udp, data: seq<u8>)
    requires f.Valid()
    ensures var s := UdpSegment(f, u, data);
            && Verifies(Pseudo(f.src + f.dst, PROTO_UDP, |s| % 0x1_0000) + s)
            && U16(s, 6) != 0 && U16(s, 4) == |s| % 0x1_0000
  {
    var before := UdpBefore(u, UDP_LEN + |data|);
    var c := TransportSum(f.src + f.dst, PROTO_UDP, before, data);
    UdpFieldsOf(u, data, NonZero(c));
    hide Verifies, TransportSum, Pseudo, Sealed, UdpBefore, U16;
    TransportVerifies(f.src + f.dst, PROTO_UDP, before, data, NonZero(c));
  }

  lemma EvenSeen(s: seq<u8>, next: u8)
    requires |s| % 2 == 0
    ensures LittleSeen(s, next) == s
  {}

  lemma SealedSum(before: seq<u8>, field: u16, after: seq<u8>)
    requires |before| % 2 == 0
    ensures Sum(BigEndian, Sealed(before, field, after)) == Sum(BigEndian, before) + field + Sum(BigEndian, after)
  {
    hide BE16;
    SumWithField(before, field, after);
  }

  lemma OddSeen(before: seq<u8>, a: seq<u8>, last: u8, next: u8)
    requires |before| % 2 == 0 && |a| % 2 == 0
    ensures LittleSeen(Sealed(before, 0, a + [last]), next) == Sealed(before, 0, a) + [0, next]
  {
    hide BE16;
    var s := Sealed(before, 0, a + [last]);
    assert s == (before + BE16(0) + a) + [last];
  }

  lemma TwoOctets(a: u8, b: u8)
    ensures Sum(BigEndian, [a, b]) == Word(BigEndian, a, b) == 0x100 * a + b
  {
    assert [a, b][2..] == [];
  }

  lemma OneOctet(a: u8)
    ensures Sum(BigEndian, [a]) == Word(BigEndian, a, 0)
  {}

  lemma OddSums(before: seq<u8>, a: seq<u8>, last: u8, next: u8, field: u16)
    requires |before| % 2 == 0 && |a| % 2 == 0
    ensures Sum(BigEndian, LittleSeen(Sealed(before, 0, a + [last]), next))
         == Sum(BigEndian, Sealed(before, 0, a)) + next
    ensures Sum(BigEndian, Sealed(before, field, a + [last]))
         == Sum(BigEndian, Sealed(before, 0, a)) + Word(BigEndian, last, 0) + field
  {
    hide Sum, BE16, Word, LittleSeen, Sealed;
    OddSeen(before, a, last, next);
    SumConcat(BigEndian, Sealed(before, 0, a), [0, next]);
    TwoOctets(0, next);
    SealedSum(before, field, a + [last]);
    SealedSum(before, 0, a);
    SumConcat(BigEndian, a, [last]);
    OneOctet(last);
  }

  lemma OddArithmetic(even: nat, last: u8, next: u8, seen: nat, f: u16, k: int, full: nat, g: u16, j: int, field: u16)
    requires seen == even + next && seen == f + 0xffff * k && (f == 0 <==> seen == 0)
    requires full == even + Word(BigEndian, last, 0) + field && full == g + 0xffff * j && (g == 0 <==> full == 0)
    requires field == 0xffff - f
    ensures g == 0xffff <==> last == 0 && next == 0
  {
    var l: int := last;
    assert Word(BigEndian, last, 0) == 0x100 * l;
    assert g - 0x100 * l + next == 0xffff * (k + 1 - j);
  }

  lemma OddSealIff(before: seq<u8>, a: seq<u8>, last: u8, next: u8)
    requires |before| % 2 == 0 && |a| % 2 == 0
    ensures var s := Sealed(before, Rfc1071(LittleSeen(Sealed(before, 0, a + [last]), next)), a + [last]);
            && s[|s| - 1] == last
            && (Verifies(s) <==> last == 0 && next == 0)
  {
    hide Sum, Fold, LittleSeen;
    var seen := Sum(BigEndian, LittleSeen(Sealed(before, 0, a + [last]), next));
    var field: u16 := 0xffff - Fold(seen);
    var full := Sum(BigEndian, Sealed(before, field, a + [last]));
    OddSums(before, a, last, next, field);
    var k := FoldIsResidue(seen);
    var j := FoldIsResidue(full);
    OddArithmetic(Sum(BigEndian, Sealed(before, 0, a)), last, next, seen, Fold(seen), k, full, Fold(full), j, field);
  }

  /** An ICMP message verifies exactly when its size is even, or when its last
      octet and the buffer octet behind it are both zero. */
  lemma IcmpVerifiesIff(c: Icmp, data: seq<u8>, was: seq<u8>, next: u8)
    requires c.Valid() && |was| == IcmpLen(c, |data|) && KindOf(c.kind % 0x100) != OtherKind
    ensures var s := IcmpMessage(c, data, was, next);
            && |s| == IcmpLen(c, |data|)
            && (Verifies(s) <==> |s| % 2 == 0 || (s[|s| - 1] == 0 && next == 0))
  {
    hide Verifies, Rfc1071, Sealed, IcmpTail, LittleSeen;
    var before, tail := [c.kind % 0x100, c.code % 0x100], IcmpTail(c, data, was);
    if |tail| % 2 == 0 {
      EvenSeen(Sealed(before, 0, tail), next);
      SealVerifies(before, tail);
    } else {
      assert tail == tail[..|tail| - 1] + [tail[|tail| - 1]];
      OddSealIff(before, tail[..|tail| - 1], tail[|tail| - 1], next);
    }
  }

  // ---- the octets laid out -------------------------------------------------------

  /** The sum of section 1 of RFC 1071, octet by octet: the first octet of each pair is
      the high one. */
  function Weight(s: seq<u8>): nat {
    if s == [] then 0
    else
      var n, last: nat := |s| - 1, s[|s| - 1];
      Weight(s[..n]) + if n % 2 == 0 then 0x100 * last else last
  }

  /** In one's complement the sum is all ones. */
  predicate AllOnes(n: nat) { n > 0 && n % 0xffff == 0 }

  lemma LastAlone(a: seq<u8>, last: nat)
    requires |a| % 2 == 0 && last < 0x100
    ensures Sum(BigEndian, a + [last]) == Sum(BigEndian, a) + 0x100 * last
  {
    SumConcat(BigEndian, a, [last]);
    OneOctet(last);
    hide Sum;
  }

  lemma LastPair(a: seq<u8>, first: nat, last: nat)
    requires |a| % 2 == 0 && first < 0x100 && last < 0x100
    ensures Sum(BigEndian, a + [first, last]) == Sum(BigEndian, a) + 0x100 * first + last
  {
    SumConcat(BigEndian, a, [first, last]);
    TwoOctets(first, last);
    hide Sum;
  }

  lemma WeightSnoc(a: seq<u8>, last: nat)
    requires last < 0x100
    ensures Weight(a + [last]) == Weight(a) + if |a| % 2 == 0 then 0x100 * last else last
  {
    assert (a + [last])[..|a|] == a;
  }

  lemma PairWeight(a: seq<u8>, first: nat, last: nat)
    requires |a| % 2 == 0 && first < 0x100 && last < 0x100
    ensures Weight(a + [first, last]) == Weight(a) + 0x100 * first + last
  {
    hide Weight;
    WeightSnoc(a, first);
    WeightSnoc(a + [first], last);
    assert a + [first] + [last] == a + [first, last];
  }

  lemma WeightOfNone()
    ensures Weight([]) == 0
  {}

  lemma {:induction false} WeightIs(s: seq<u8>)
    ensures Weight(s) == Sum(BigEndian, s)
  {
    hide Sum, Weight;
    var n := |s|;
    if n == 0 {
      SumOfNone(BigEndian);
      WeightOfNone();
    } else if n % 2 == 1 {
      var a := s[..n - 1];
      WeightIs(a);
      WeightSnoc(a, s[n - 1]);
      LastAlone(a, s[n - 1]);
      assert s == a + [s[n - 1]];
    } else {
      var a := s[..n - 2];
      WeightIs(a);
      PairWeight(a, s[n - 2], s[n - 1]);
      LastPair(a, s[n - 2], s[n - 1]);
      assert s == a + [s[n - 2], s[n - 1]];
    }
  }

  lemma OnesResidue(n: nat, f: u16, k: int)
    requires n == f + 0xffff * k && (f == 0 <==> n == 0)
    ensures f == 0xffff <==> AllOnes(n)
  {}

  lemma VerifiesInNumbers(s: seq<u8>)
    ensures Verifies(s) <==> AllOnes(Weight(s))
  {
    WeightIs(s);
    var k := FoldIsResidue(Sum(BigEndian, s));
    OnesResidue(Sum(BigEndian, s), Fold(Sum(BigEndian, s)), k);
  }

  lemma WithPseudoHeader(addresses: seq<u8>, protocol: u8, length: u16, segment: seq<u8>)
    requires |addresses| == 8
    ensures Verifies(Pseudo(addresses, protocol, length) + segment)
       <==> AllOnes(Weight(addresses) + protocol + length + Weight(segment))
  {
    var pseudo := Pseudo(addresses, protocol, length);
    VerifiesInNumbers(pseudo + segment);
    PseudoSum(BigEndian, addresses, protocol, length);
    SumOf8(BigEndian, addresses);
    WeightIs(addresses);
    WeightIs(segment);
    WeightIs(pseudo + segment);
    SumConcat(BigEndian, pseudo, segment);
    hide Sum, Weight, Verifies, Pseudo, AllOnes;
  }

  /** The datagram in s verifies, in numbers: its header, and what is behind it together
      with the addresses in the header, the protocol number and the length. */
  ghost predicate DatagramVerifies(p: Packet, s: seq<u8>, next: u8) {
    && |s| >= 20 && AllOnes(Weight(s[..20]))
    && var segment := s[20..];
       match p.payload
       case TcpPayload(_, _) => AllOnes(Weight(s[12..20]) + 6 + |segment| % 0x1_0000 + Weight(segment))
       case UdpPayload(_, _) =>
         AllOnes(Weight(s[12..20]) + 17 + |segment| % 0x1_0000 + Weight(segment))
         && |segment| >= 8 && U16(segment, 6) != 0
       case IcmpPayload(_, c) =>
         KindOf(c.kind % 0x100) != OtherKind ==>
           segment != []
           && (AllOnes(Weight(segment)) <==> |segment| % 2 == 0 || (segment[|segment| - 1] == 0 && next == 0))
       case _ => true
  }

  lemma IcmpPart(c: Icmp, data: seq<u8>, area: seq<u8>)
    requires c.Valid() && IP_LEN + IcmpLen(c, |data|) <= |area|
    ensures var rest, n := area[IP_LEN..], IcmpLen(c, |data|);
            var s := IcmpMessage(c, data, rest[..n], OctetAt(rest, n));
            && OctetAt(rest, n) == OctetAt(area, IP_LEN + n)
            && (KindOf(c.kind % 0x100) != OtherKind ==>
                  |s| == n > 0 && (Verifies(s) <==> |s| % 2 == 0 || (s[|s| - 1] == 0 && OctetAt(rest, n) == 0)))
  {
    hide Verifies, IcmpMessage;
    var rest, n := area[IP_LEN..], IcmpLen(c, |data|);
    if KindOf(c.kind % 0x100) != OtherKind { IcmpVerifiesIff(c, data, rest[..n], OctetAt(rest, n)); }
  }

  lemma HeaderPart(f: Ip, protocol: u8, total: int, rest: seq<u8>)
    requires f.Valid()
    ensures var s := IpBytes(f, protocol, total) + rest;
            s[..IP_LEN] == IpBytes(f, protocol, total) && s[IP_LEN..] == rest && s[12..20] == f.src + f.dst
            && Verifies(s[..IP_LEN])
  {
    hide Verifies, Rfc1071, IpBefore, BE16;
    HeaderVerifies(f, protocol, total);
    var h := IpBytes(f, protocol, total);
    assert h[12..20] == f.src + f.dst;
    assert (h + rest)[..IP_LEN] == h;
  }

  /** Every TCP, UDP or even-sized ICMP datagram that set_packet lays out verifies,
      with the pseudo-header taken from the octets of the header itself. */
  lemma PacketVerifies(p: Packet, area: seq<u8>)
    requires p.Valid() && Space(p) <= |area| && !p.payload.ArpPayload? && !p.payload.OtherPayload?
    ensures DatagramVerifies(p, NetBytes(p, area), OctetAt(area, NetLen(p)))
  {
    hide Verifies, Pseudo, TcpSegment, UdpSegment, IcmpMessage, IcmpLen, IpBytes, U16, AllOnes, Weight;
    var s := NetBytes(p, area);
    VerifiesInNumbers(s[..IP_LEN]);
    VerifiesInNumbers(s[IP_LEN..]);
    match p.payload {
      case TcpPayload(f, t) =>
        HeaderPart(f, PROTO_TCP, NetLen(p), Behind(p, area[IP_LEN..]));
        TcpVerifies(f, t, area[IP_LEN..][12] % 0x10, Room(p.data, IP_LEN + TCP_LEN));
        WithPseudoHeader(f.src + f.dst, PROTO_TCP, |s[IP_LEN..]| % 0x1_0000, s[IP_LEN..]);
      case UdpPayload(f, u) =>
        HeaderPart(f, PROTO_UDP, NetLen(p), Behind(p, area[IP_LEN..]));
        UdpVerifies(f, u, Room(p.data, IP_LEN + UDP_LEN));
        WithPseudoHeader(f.src + f.dst, PROTO_UDP, |s[IP_LEN..]| % 0x1_0000, s[IP_LEN..]);
      case IcmpPayload(f, c) =>
        HeaderPart(f, PROTO_ICMP, NetLen(p), Behind(p, area[IP_LEN..]));
        IcmpPart(c, p.data, area);
      case IpPayload(f) =>
        HeaderPart(f, Lo(f.protocol), NetLen(p), Behind(p, area[IP_LEN..]));
    }
  }

  lemma IcmpLength(c: Icmp, data: seq<u8>, rest: seq<u8>)
    requires c.Valid() && IcmpLen(c, |data|) <= |rest|
    ensures |IcmpMessage(c, data, rest[..IcmpLen(c, |data|)], OctetAt(rest, IcmpLen(c, |data|)))|
         == if KindOf(c.kind % 0x100) == OtherKind then 2 else IcmpLen(c, |data|)
  {}

  lemma TotalField(f: Ip, protocol: u8, total: nat, rest: seq<u8>)
    requires f.Valid() && total < 0x1_0000
    ensures U16(IpBytes(f, protocol, total) + rest, 2) == total
  {
    hide U16, BE16, Rfc1071, TosOctet, OffWord, Lo;
    var s := IpBytes(f, protocol, total) + rest;
    var before := IpBefore(f, protocol, total);
    assert before[2..4] == BE16(total);
    assert s[2..4] == before[2..4];
    RoundTrip16(s, 2, total);
  }

  /** The total length field counts the octets laid out, unless data was cut off
      or an ICMP type is not one set_icmp builds. */
  lemma TotalLengthExact(p: Packet, area: seq<u8>)
    requires p.Valid() && Space(p) <= |area| && NetLen(p) < 0x1_0000
    requires !p.payload.ArpPayload? && !p.payload.OtherPayload?
    ensures |NetBytes(p, area)| >= IP_LEN
    ensures U16(NetBytes(p, area), 2) == |NetBytes(p, area)| <==>
              match p.payload
              case TcpPayload(_, _) => |p.data| <= MAX_PACKET_SIZE - IP_LEN - TCP_LEN
              case UdpPayload(_, _) => |p.data| <= MAX_PACKET_SIZE - IP_LEN - UDP_LEN
              case IcmpPayload(_, c) => KindOf(c.kind % 0x100) != OtherKind || |p.data| == 2
              case _ => true
  {
    var rest := area[IP_LEN..];
    match p.payload {
      case TcpPayload(f, _) => TotalField(f, PROTO_TCP, NetLen(p), Behind(p, rest));
      case UdpPayload(f, _) => TotalField(f, PROTO_UDP, NetLen(p), Behind(p, rest));
      case IcmpPayload(f, c) =>
        TotalField(f, PROTO_ICMP, NetLen(p), Behind(p, rest));
        IcmpLength(c, p.data, rest);
      case IpPayload(f) => TotalField(f, Lo(f.protocol), NetLen(p), Behind(p, rest));
    }
  }
}
