/** The packet builder of JpcapSender.c and the set_ functions of packet_*.c. */
module Sender {
  import opened Bytes
  import opened Checksum
  import opened Packets

  /** Only the octets at o.. changed, and they became s. */
  ghost predicate Wrote(was: seq<u8>, now: seq<u8>, o: nat, s: seq<u8>) {
    o + |s| <= |was| && now == was[..o] + s + was[o + |s|..]
  }

  lemma WroteMore(was: seq<u8>, mid: seq<u8>, now: seq<u8>, o: nat, s: seq<u8>, t: seq<u8>)
    requires Wrote(was, mid, o, s) && Wrote(mid, now, o + |s|, t)
    ensures Wrote(was, now, o, s + t)
  {
    assert mid[..o + |s|] == was[..o] + s;
    assert mid[o + |s| + |t|..] == was[o + |s| + |t|..];
    assert was[..o] + s + t == was[..o] + (s + t);
  }

  /** Octets that keep their value count as written with that value. */
  lemma WroteSkip(was: seq<u8>, now: seq<u8>, o: nat, s: seq<u8>, n: nat)
    requires Wrote(was, now, o, s) && o + |s| + n <= |was|
    ensures Wrote(was, now, o, s + was[o + |s|..o + |s| + n])
  {
    var p := o + |s|;
    assert was[p..] == was[p..p + n] + was[p + n..];
    assert was[..o] + s + (was[p..p + n] + was[p + n..]) == was[..o] + (s + was[p..p + n]) + was[p + n..];
  }

  /** GetByteArrayRegion or a field store: copies s into the buffer at o. */
  method PutBytes(m: array<u8>, o: nat, s: seq<u8>)
    requires o + |s| <= m.Length
    modifies m
    ensures Wrote(old(m[..]), m[..], o, s)
  {
    ghost var was := m[..];
    forall i | 0 <= i < |s| { m[o + i] := s[i]; }
    assert m[..] == was[..o] + s + was[o + |s|..];
  }

  /** Stores t at o, right behind the octets s already written since `was`. */
  method Put(m: array<u8>, o: nat, t: seq<u8>, ghost was: seq<u8>, ghost start: nat, ghost s: seq<u8>)
    returns (ghost w: seq<u8>)
    requires o + |t| <= m.Length && o == start + |s| && Wrote(was, m[..], start, s)
    modifies m
    ensures w == s + t && Wrote(was, m[..], start, w)
  {
    ghost var mid := m[..];
    PutBytes(m, o, t);
    WroteMore(was, mid, m[..], start, s, t);
    w := s + t;
  }

  method SetIp(m: array<u8>, o: nat, f: Ip)
    requires o + IP_LEN <= m.Length && f.Valid()
    modifies m
    ensures Wrote(old(m[..]), m[..], o, RawIpBytes(f, old(m[o + 2..o + 4]), old(m[o + 9..o + 12])))
  {
    hide Wrote, BE16, BE32, Hi, Lo, OffWord, TosOctet, FlagOctet, Store;
    ghost var was := m[..];
    PutBytes(m, o, [0x45, TosOctet(f)]);
    ghost var w := [0x45, TosOctet(f)];
    WroteSkip(was, m[..], o, w, 2);
    w := w + was[o + 2..o + 4];
    w := Put(m, o + 4, BE16(f.ident), was, o, w);
    w := Put(m, o + 6, Store(LittleEndian, OffWord(f)), was, o, w);
    w := Put(m, o + 8, [Lo(f.hopLimit)], was, o, w);
    WroteSkip(was, m[..], o, w, 3);
    w := w + was[o + 9..o + 12];
    w := Put(m, o + 12, f.src, was, o, w);
    w := Put(m, o + 16, f.dst, was, o, w);
  }

  /** Overwriting a zero checksum field seals the region. */
  lemma WroteSeal(was: seq<u8>, mid: seq<u8>, now: seq<u8>, o: nat, before: seq<u8>, sum: u16, after: seq<u8>)
    requires exists was0: u16 :: Wrote(was, mid, o, Sealed(before, was0, after))
    requires Wrote(mid, now, o + |before|, BE16(sum))
    ensures Wrote(was, now, o, Sealed(before, sum, after))
  {
    hide BE16;
    var sum0: u16 :| Wrote(was, mid, o, Sealed(before, sum0, after));
    var a, z := was[..o], was[o + |before| + 2 + |after|..];
    assert mid == (a + before) + BE16(sum0) + (after + z);
    assert mid[..o + |before|] == a + before && mid[o + |before| + 2..] == after + z;
    assert (a + before) + BE16(sum) + (after + z) == a + Sealed(before, sum, after) + z;
  }

  lemma WroteOutside(was: seq<u8>, now: seq<u8>, o: nat, s: seq<u8>, x: nat, y: nat)
    requires Wrote(was, now, o, s) && x <= y <= |was| && (y <= o || o + |s| <= x)
    ensures |now| == |was| && now[x..y] == was[x..y]
  {}

  lemma WroteOutside1(was: seq<u8>, now: seq<u8>, o: nat, s: seq<u8>, x: nat)
    requires Wrote(was, now, o, s) && x < |was| && (x < o || o + |s| <= x)
    ensures |now| == |was| && now[x] == was[x]
  {}

  lemma WroteInside(was: seq<u8>, now: seq<u8>, o: nat, s: seq<u8>)
    requires Wrote(was, now, o, s)
    ensures o + |s| <= |now| == |was| && now[o..o + |s|] == s
  {}

  /** The header part of set_tcp, with a zero checksum. */
  method TcpFields(m: array<u8>, o: nat, t: Tcp, data: seq<u8>)
    requires o + TCP_LEN + |data| <= m.Length
    modifies m
    ensures Wrote(old(m[..]), m[..], o, Sealed(TcpBefore(t, old(m[o + 12]) % 0x10), 0, TcpAfter(t, data)))
  {
    hide Wrote, BE16, BE32, FlagOctet;
    ghost var was := m[..];
    var x2 := m[o + 12] % 0x10;
    PutBytes(m, o, BE16(t.srcPort));
    ghost var w := BE16(t.srcPort);
    w := Put(m, o + 2, BE16(t.dstPort), was, o, w);
    w := Put(m, o + 4, BE32(t.sequence), was, o, w);
    w := Put(m, o + 8, BE32(t.ackNum), was, o, w);
    w := Put(m, o + 12, [0x50 + x2, FlagOctet(t)], was, o, w);
    w := Put(m, o + 14, BE16(t.window), was, o, w);
    w := Put(m, o + 16, BE16(0), was, o, w);
    w := Put(m, o + 18, TcpAfter(t, data), was, o, w);
  }

  lemma LittleSees(s: seq<u8>)
    ensures Seen2(LittleEndian, s) == s
    ensures |s| < 0x1_0000 ==> Htons(LittleEndian, Htons(LittleEndian, |s|)) == |s|
  {}

  method SegmentSum(m: array<u8>, o: nat, ip: nat, ghost was: seq<u8>, before: seq<u8>, after: seq<u8>)
    returns (sum: u16)
    requires |was| == m.Length && |before| % 2 == 0 && |before| + 2 + |after| <= 0xffff
    requires ip + IP_LEN <= o && Wrote(was, m[..], o, Sealed(before, 0, after))
    ensures o + |before| + 2 + |after| <= m.Length
    ensures Store(LittleEndian, sum)
         == BE16(TransportSum(was[ip + 12..ip + 20], was[ip + 9], before, after))
  {
    hide Wrote, Sealed, Pseudo, Rfc1071, Seen2, Htons, Store, BE16;
    WroteInside(was, m[..], o, Sealed(before, 0, after));
    WroteOutside(was, m[..], o, Sealed(before, 0, after), ip + 12, ip + 20);
    WroteOutside1(was, m[..], o, Sealed(before, 0, after), ip + 9);
    var size := |before| + 2 + |after|;
    LittleSees(m[o..o + size]);
    sum := InCksum2(LittleEndian, m, ip, Htons(LittleEndian, size), o, size);
  }

  /** The closing lines of set_tcp: in_cksum2 over the segment, stored in place. */
  method SumAndStore(m: array<u8>, o: nat, ip: nat, ghost was: seq<u8>, before: seq<u8>, after: seq<u8>)
    requires |was| == m.Length && |before| % 2 == 0 && |before| + 2 + |after| <= 0xffff
    requires ip + IP_LEN <= o && Wrote(was, m[..], o, Sealed(before, 0, after))
    modifies m
    ensures Wrote(was, m[..], o,
                  Sealed(before, TransportSum(was[ip + 12..ip + 20], was[ip + 9], before, after), after))
  {
    hide Wrote, TransportSum, Sealed, BE16, Store;
    ghost var mid := m[..];
    var sum := SegmentSum(m, o, ip, was, before, after);
    PutBytes(m, o + |before|, Store(LittleEndian, sum));
    WroteSeal(was, mid, m[..], o, before, TransportSum(was[ip + 12..ip + 20], was[ip + 9], before, after), after);
  }

  /** set_tcp (packet_tcp.c:73-105): data that does not fit is cut off, and the
      checksum covers exactly what is laid out. */
  method SetTcp(m: array<u8>, o: nat, t: Tcp, data: seq<u8>, ip: nat, ghost f: Ip)
    requires ip + IP_LEN <= o && o + TCP_LEN + |Room(data, IP_LEN + TCP_LEN)| <= m.Length
    requires m[ip + 12..ip + 20] == f.src + f.dst && m[ip + 9] == PROTO_TCP
    modifies m
    ensures Wrote(old(m[..]), m[..], o, TcpSegment(f, t, old(m[o + 12]) % 0x10, Room(data, IP_LEN + TCP_LEN)))
  {
    var length := |data|;
    if length + IP_LEN + TCP_LEN > MAX_PACKET_SIZE {
      length := MAX_PACKET_SIZE - IP_LEN - TCP_LEN;
    }
    assert data[..|data|] == data;
    hide Wrote, TransportSum, Sealed, TcpBefore, TcpAfter;
    ghost var was := m[..];
    var before, after := TcpBefore(t, m[o + 12] % 0x10), TcpAfter(t, data[..length]);
    TcpFields(m, o, t, data[..length]);
    SumAndStore(m, o, ip, was, before, after);
  }

  lemma SumOctets(was: seq<u8>, now: seq<u8>, o: nat, before: seq<u8>, sum: u16, after: seq<u8>)
    requires Wrote(was, now, o, Sealed(before, sum, after))
    ensures |now| == |was| && o + |before| + 1 < |now|
    ensures (now[o + |before|] == 0 && now[o + |before| + 1] == 0) <==> sum == 0
  {
    WroteInside(was, now, o, Sealed(before, sum, after));
    hide Wrote;
    var s := Sealed(before, sum, after);
    assert now[o + |before|] == s[|before|] == Hi(sum) && now[o + |before| + 1] == s[|before| + 1] == Lo(sum);
  }

  /** A stored UDP checksum of zero is replaced by all ones. */
  method FixZero(m: array<u8>, o: nat, ghost was: seq<u8>, ghost before: seq<u8>, ghost sum: u16, ghost after: seq<u8>)
    requires |before| == 6 && Wrote(was, m[..], o, Sealed(before, sum, after))
    modifies m
    ensures Wrote(was, m[..], o, Sealed(before, NonZero(sum), after))
  {
    hide Wrote, Sealed, BE16;
    SumOctets(was, m[..], o, before, sum, after);
    if m[o + 6] == 0 && m[o + 7] == 0 {
      ghost var mid := m[..];
      PutBytes(m, o + 6, BE16(0xffff));
      WroteSeal(was, mid, m[..], o, before, 0xffff, after);
    }
  }

  method UdpFields(m: array<u8>, o: nat, u: Udp, data: seq<u8>)
    requires o + UDP_LEN + |data| <= m.Length
    modifies m
    ensures Wrote(old(m[..]), m[..], o, Sealed(UdpBefore(u, UDP_LEN + |data|), 0, data))
  {
    hide Wrote, BE16;
    ghost var was := m[..];
    PutBytes(m, o, BE16(u.srcPort));
    ghost var w := BE16(u.srcPort);
    w := Put(m, o + 2, BE16(u.dstPort), was, o, w);
    w := Put(m, o + 4, BE16(UDP_LEN + |data|), was, o, w);
    w := Put(m, o + 6, BE16(0), was, o, w);
    w := Put(m, o + 8, data, was, o, w);
  }

  /** set_udp (packet_udp.c:40-56). */
  method SetUdp(m: array<u8>, o: nat, u: Udp, data: seq<u8>, ip: nat, ghost f: Ip)
    requires ip + IP_LEN <= o && o + UDP_LEN + |Room(data, IP_LEN + UDP_LEN)| <= m.Length
    requires m[ip + 12..ip + 20] == f.src + f.dst && m[ip + 9] == PROTO_UDP
    modifies m
    ensures Wrote(old(m[..]), m[..], o, UdpSegment(f, u, Room(data, IP_LEN + UDP_LEN)))
  {
    var length := |data|;
    if length + IP_LEN + UDP_LEN > MAX_PACKET_SIZE {
      length := MAX_PACKET_SIZE - IP_LEN - UDP_LEN;
    }
    assert data[..|data|] == data;
    hide Wrote, TransportSum, Sealed, BE16, UdpBefore;
    ghost var was := m[..];
    var before, after := UdpBefore(u, UDP_LEN + length), data[..length];
    UdpFields(m, o, u, after);
    SumAndStore(m, o, ip, was, before, after);
    ghost var sum := TransportSum(f.src + f.dst, PROTO_UDP, before, after);
    FixZero(m, o, was, before, sum, after);
  }

  lemma SubSlice(s: seq<u8>, o: nat, n: nat, x: nat, y: nat)
    requires o + n <= |s| && x <= y <= n
    ensures s[o..o + n][x..y] == s[o + x..o + y]
  {
    var t, a, b := s[o..o + n], s[o..o + n][x..y], s[o + x..o + y];
    forall k | 0 <= k < |a| ensures a[k] == b[k] {
      assert a[k] == t[x + k] == s[o + (x + k)];
    }
  }

  lemma TailOfError(c: Icmp, data: seq<u8>, was: seq<u8>, o: nat)
    requires c.Valid() && KindOf(c.kind % 0x100) == Error && o + IcmpLen(c, |data|) <= |was|
    ensures IcmpTail(c, data, was[o..o + IcmpLen(c, |data|)])
         == (if c.kind % 0x100 == 5 then c.redirect else was[o + 4..o + 8])
          + (if c.ippacket.Some?
             then RawIpBytes(c.ippacket.value, was[o + 10..o + 12], was[o + 17..o + 20]) + was[o + 28..o + 32]
             else was[o + 8..o + 12])
  {
    hide RawIpBytes;
    var n := IcmpLen(c, |data|);
    SubSlice(was, o, n, 4, 8);
    if c.ippacket.Some? {
      SubSlice(was, o, n, 10, 12);
      SubSlice(was, o, n, 17, 20);
      SubSlice(was, o, n, 28, 32);
    } else {
      SubSlice(was, o, n, 8, 12);
    }
  }

  /** Gateway address and embedded IP header of an ICMP error message. */
  method IcmpErrorFields(m: array<u8>, o: nat, c: Icmp, ghost was: seq<u8>, ghost w: seq<u8>)
    requires c.Valid() && o + (if c.ippacket.Some? then 32 else 12) <= m.Length == |was|
    requires |w| == 4 && Wrote(was, m[..], o, w)
    modifies m
    ensures Wrote(was, m[..], o,
                  w + ((if c.kind % 0x100 == 5 then c.redirect else was[o + 4..o + 8])
                       + (if c.ippacket.Some?
                          then RawIpBytes(c.ippacket.value, was[o + 10..o + 12], was[o + 17..o + 20])
                               + was[o + 28..o + 32]
                          else was[o + 8..o + 12])))
  {
    hide Wrote, RawIpBytes;
    ghost var first := if c.kind % 0x100 == 5 then c.redirect else was[o + 4..o + 8];
    if c.kind % 0x100 == 5 {
      ghost var v := Put(m, o + 4, c.redirect, was, o, w);
    } else {
      WroteSkip(was, m[..], o, w, 4);
    }
    if c.ippacket.Some? {
      ghost var mid := m[..];
      WroteOutside(was, mid, o, w + first, o + 10, o + 12);
      WroteOutside(was, mid, o, w + first, o + 17, o + 20);
      SetIp(m, o + 8, c.ippacket.value);
      ghost var raw := RawIpBytes(c.ippacket.value, was[o + 10..o + 12], was[o + 17..o + 20]);
      WroteMore(was, mid, m[..], o, w + first, raw);
      WroteSkip(was, m[..], o, w + first + raw, 4);
      assert w + first + raw + was[o + 28..o + 32] == w + (first + (raw + was[o + 28..o + 32]));
    } else {
      WroteSkip(was, m[..], o, w + first, 4);
      assert w + first + was[o + 8..o + 12] == w + (first + was[o + 8..o + 12]);
    }
  }

  /** The message fields of set_icmp, with a zero checksum. */
  method IcmpFields(m: array<u8>, o: nat, c: Icmp, data: seq<u8>)
    requires c.Valid() && KindOf(c.kind % 0x100) != OtherKind && o + IcmpLen(c, |data|) <= m.Length
    modifies m
    ensures Wrote(old(m[..]), m[..], o,
                  Sealed([c.kind % 0x100, c.code % 0x100], 0, IcmpTail(c, data, old(m[o..o + IcmpLen(c, |data|)]))))
  {
    hide Wrote, BE16, BE32, RawIpBytes;
    ghost var was := m[..];
    ghost var target := Sealed([c.kind % 0x100, c.code % 0x100], 0, IcmpTail(c, data, was[o..o + IcmpLen(c, |data|)]));
    PutBytes(m, o, [c.kind % 0x100, c.code % 0x100]);
    ghost var w := [c.kind % 0x100, c.code % 0x100];
    w := Put(m, o + 2, BE16(0), was, o, w);
    match KindOf(c.kind % 0x100) {
      case Echo =>
        w := Put(m, o + 4, BE16(c.id) + BE16(c.sequence) + data, was, o, w);
        assert w == target;
      case Timestamp =>
        w := Put(m, o + 4, BE16(c.id) + BE16(c.sequence) + BE32(c.otime) + BE32(c.rtime) + BE32(c.ttime), was, o, w);
        assert w == target;
      case Mask =>
        w := Put(m, o + 4, BE16(c.id) + BE16(c.sequence) + BE32(c.mask), was, o, w);
        assert w == target;
      case Error =>
        IcmpErrorFields(m, o, c, was, w);
        TailOfError(c, data, was, o);
    }
  }

  lemma SeenIsLittleSeen(s: seq<u8>, next: u8)
    ensures Seen(LittleEndian, s, if |s| % 2 == 1 then [next] else []) == LittleSeen(s, next)
  {}

  lemma PlainSees(was: seq<u8>, now: seq<u8>, o: nat, size: nat, before: seq<u8>, after: seq<u8>)
    requires size == |before| + 2 + |after| && o + size + size % 2 <= |was|
    requires Wrote(was, now, o, Sealed(before, 0, after))
    ensures |now| == |was| && |now[o + size..o + size + size % 2]| == size % 2
    ensures Seen(LittleEndian, now[o..o + size], now[o + size..o + size + size % 2])
         == LittleSeen(Sealed(before, 0, after), OctetAt(was, o + size))
  {
    var s := Sealed(before, 0, after);
    WroteInside(was, now, o, s);
    hide Wrote, Sealed, Seen, LittleSeen;
    if size % 2 == 1 { WroteOutside1(was, now, o, s, o + size); }
    assert now[o + size..o + size + size % 2] == if size % 2 == 1 then [OctetAt(was, o + size)] else [];
    SeenIsLittleSeen(s, OctetAt(was, o + size));
  }

  /** in_cksum over a region whose checksum field is zero, stored in place. */
  method PlainSum(m: array<u8>, o: nat, size: nat, field: nat, ghost was: seq<u8>, ghost before: seq<u8>,
          ghost after: seq<u8>)
    requires field == |before| && |was| == m.Length && |before| % 2 == 0 && size == |before| + 2 + |after| <= 0xffff
    requires o + size + size % 2 <= m.Length && Wrote(was, m[..], o, Sealed(before, 0, after))
    modifies m
    ensures Wrote(was, m[..], o,
                  Sealed(before, Rfc1071(LittleSeen(Sealed(before, 0, after), OctetAt(was, o + size))), after))
  {
    hide *;
    ghost var mid, seen := m[..], LittleSeen(Sealed(before, 0, after), OctetAt(was, o + size));
    PlainSees(was, mid, o, size, before, after);
    var sum := InCksum(LittleEndian, m, o, size);
    PutBytes(m, o + field, Store(LittleEndian, sum));
    WroteSeal(was, mid, m[..], o, before, Rfc1071(seen), after);
  }

  /** set_icmp (packet_icmp.c:116-179).  The result is what set_packet adds to
      the length that already counts the data. */
  method SetIcmp(m: array<u8>, o: nat, c: Icmp, data: seq<u8>) returns (n: int)
    requires c.Valid() && m.Length <= MAX_PACKET_SIZE
    requires o + 2 <= m.Length && o + IcmpLen(c, |data|) + IcmpLen(c, |data|) % 2 <= m.Length
    modifies m
    ensures Wrote(old(m[..]), m[..], o,
                  IcmpMessage(c, data, old(m[o..o + IcmpLen(c, |data|)]), OctetAt(old(m[..]), o + IcmpLen(c, |data|))))
    ensures n == if KindOf(c.kind % 0x100) == OtherKind then 0 else IcmpLen(c, |data|) - |data|
  {
    hide Wrote, Sealed, IcmpTail, Rfc1071, BE16;
    ghost var was, size := m[..], IcmpLen(c, |data|);
    if KindOf(c.kind % 0x100) == OtherKind {
      PutBytes(m, o, [c.kind % 0x100, c.code % 0x100]);
      return 0;
    }
    IcmpFields(m, o, c, data);
    PlainSum(m, o, IcmpLen(c, |data|), 2, was, [c.kind % 0x100, c.code % 0x100],
             IcmpTail(c, data, was[o..o + size]));
    n := IcmpLen(c, |data|) - |data|;
  }

  /** A region laid out again from its start keeps what lies behind it. */
  lemma WroteFront(was: seq<u8>, mid: seq<u8>, now: seq<u8>, o: nat, front: seq<u8>, rest: seq<u8>, again: seq<u8>)
    requires Wrote(was, mid, o, front + rest) && Wrote(mid, now, o, again) && |again| == |front|
    ensures Wrote(was, now, o, again + rest)
  {
    var e := o + |front| + |rest|;
    assert mid == was[..o] + front + (rest + was[e..]);
    assert mid[o + |front|..] == rest + was[e..] && mid[..o] == was[..o];
    assert was[..o] + again + (rest + was[e..]) == was[..o] + (again + rest) + was[e..];
  }

  /** The host-order IP header set_ip and set_packet leave before the last step. */
  ghost predicate HostHeader(s: seq<u8>, o: nat, f: Ip, protocol: u8) {
    && o + IP_LEN <= |s| && f.Valid()
    && s[o..o + 2] == [0x45, TosOctet(f)] && s[o + 4..o + 6] == BE16(f.ident)
    && s[o + 8..o + 10] == [Lo(f.hopLimit), protocol] && s[o + 12..o + 20] == f.src + f.dst
  }

  method FinishSum(m: array<u8>, o: nat, ghost was: seq<u8>, ghost before: seq<u8>, ghost after: seq<u8>)
    requires |before| == 10 && |after| == 8 && o + IP_LEN <= m.Length == |was|
    requires Wrote(was, m[..], o, before + BE16(0) + after)
    modifies m
    ensures Wrote(was, m[..], o, Sealed(before, Rfc1071(Sealed(before, 0, after)), after))
  {
    hide Wrote, Rfc1071, BE16;
    PlainSum(m, o, IP_LEN, 10, was, before, after);
  }

  lemma WroteSkipFirst(was: seq<u8>, o: nat, n: nat)
    requires o + n <= |was|
    ensures Wrote(was, was, o, was[o..o + n])
  {
    assert was == was[..o] + was[o..o + n] + was[o + n..];
  }

  /** The last step of set_packet for IPv4: length and offset go to network
      order and the header checksum is stored. */
  method FinishIp(m: array<u8>, o: nat, f: Ip, protocol: u8, total: nat)
    requires o + IP_LEN <= m.Length && HostHeader(m[..], o, f, protocol)
    modifies m
    ensures Wrote(old(m[..]), m[..], o, IpBytes(f, protocol, total))
  {
    hide Wrote, Sealed, BE16, TosOctet, OffWord, Lo;
    ghost var was := m[..];
    ghost var before, after := IpBefore(f, protocol, total), f.src + f.dst;
    WroteSkipFirst(was, o, 2);
    ghost var w := was[o..o + 2];
    w := Put(m, o + 2, BE16(total), was, o, w);
    WroteSkip(was, m[..], o, w, 2);
    w := w + was[o + 4..o + 6];
    w := Put(m, o + 6, BE16(OffWord(f)), was, o, w);
    WroteSkip(was, m[..], o, w, 2);
    w := w + was[o + 8..o + 10];
    assert w == before;
    w := Put(m, o + 10, BE16(0), was, o, w);
    WroteSkip(was, m[..], o, w, 8);
    FinishSum(m, o, was, before, after);
  }

  /** set_ether (packet_datalink.c:51-67). */
  method SetEther(m: array<u8>, p: Packet) returns (n: nat)
    requires p.Valid() && p.EtherLen() <= m.Length
    modifies m
    ensures n == p.EtherLen() && Wrote(old(m[..]), m[..], 0, LinkBytes(p))
  {
    hide BE16;
    if p.ether.Some? {
      PutBytes(m, 0, EtherBytes(p.ether.value));
      return ETHER_LEN;
    }
    return 0;
  }

  lemma ArpParts(a: Arp)
    requires a.Valid()
    ensures ArpHead(a) + a.senderHard + a.senderProto + a.targetHard + a.targetProto == ArpBytes(a)
    ensures a.senderHard[..6] == a.senderHard && a.targetHard[..6] == a.targetHard
    ensures a.senderProto[..4] == a.senderProto && a.targetProto[..4] == a.targetProto
  {
    hide BE16;
  }

  lemma OverlayWrote(was: seq<u8>, o: nat, t: seq<u8>)
    requires o + |t| <= |was|
    ensures Wrote(was, Overlay(was, o, t), o, t)
  {}

  lemma AddPart(was: seq<u8>, mid: seq<u8>, o: nat, s: seq<u8>, t: seq<u8>)
    requires Wrote(was, mid, o, s) && |mid| == |was| && o + |s| + |t| <= |mid|
    ensures Wrote(was, Overlay(mid, o + |s|, t), o, s + t)
  {
    hide Wrote, Overlay;
    OverlayWrote(mid, o + |s|, t);
    WroteMore(was, mid, Overlay(mid, o + |s|, t), o, s, t);
  }

  /** With the lengths of Ethernet and IPv4 the parts lie end to end. */
  lemma ArpLaidIs(was: seq<u8>, o: nat, a: Arp)
    requires a.Valid() && o + ARP_LEN <= |was|
    ensures a.Sized() && ArpReach(a) == ARP_LEN && Wrote(was, ArpLaid(was, o, a), o, ArpBytes(a))
  {
    hide Wrote, Overlay, BE16, ArpHead;
    var b := Overlay(was, o, ArpHead(a));
    var c := Overlay(b, o + 8, a.senderHard);
    var d := Overlay(c, o + 14, a.senderProto);
    var e := Overlay(d, o + 18, a.targetHard);
    OverlayWrote(was, o, ArpHead(a));
    AddPart(was, b, o, ArpHead(a), a.senderHard);
    AddPart(was, c, o, ArpHead(a) + a.senderHard, a.senderProto);
    AddPart(was, d, o, ArpHead(a) + a.senderHard + a.senderProto, a.targetHard);
    AddPart(was, e, o, ArpHead(a) + a.senderHard + a.senderProto + a.targetHard, a.targetProto);
    ArpParts(a);
  }

  lemma OverlayFrom(was: seq<u8>, o: nat, x: nat, t: seq<u8>)
    requires o + x + |t| <= |was|
    ensures Overlay(was, o + x, t)[o..] == Overlay(was[o..], x, t)
    ensures Overlay(was, o + x, t)[..o] == was[..o]
  {
    assert was[o..][..x] == was[o..o + x];
    assert was[o..][x + |t|..] == was[o + x + |t|..];
  }

  lemma OverlayBehind(was: seq<u8>, x: nat, t: seq<u8>, n: nat)
    requires x + |t| <= n <= |was|
    ensures Overlay(was, x, t)[n..] == was[n..]
  {}

  /** Laying out an ARP packet in a buffer is laying it out in the rest of the buffer. */
  lemma ArpLaidFrom(was: seq<u8>, o: nat, a: Arp)
    requires a.Sized() && o + ArpReach(a) <= |was|
    ensures ArpLaid(was, o, a)[o..] == ArpLaid(was[o..], 0, a)
    ensures ArpLaid(was, o, a)[..o] == was[..o]
  {
    hide Overlay, ArpHead;
    var b := Overlay(was, o + 0, ArpHead(a));
    var c := Overlay(b, o + 8, a.senderHard[..a.HardLen()]);
    var d := Overlay(c, o + 14, a.senderProto[..a.ProtoLen()]);
    var e := Overlay(d, o + 18, a.targetHard[..a.HardLen()]);
    OverlayFrom(was, o, 0, ArpHead(a));
    OverlayFrom(b, o, 8, a.senderHard[..a.HardLen()]);
    OverlayFrom(c, o, 14, a.senderProto[..a.ProtoLen()]);
    OverlayFrom(d, o, 18, a.targetHard[..a.HardLen()]);
    OverlayFrom(e, o, 24, a.targetProto[..a.ProtoLen()]);
  }

  lemma ArpStays(was: seq<u8>, a: Arp)
    requires a.Sized() && ArpReach(a) <= |was|
    ensures ArpLaid(was, 0, a)[ArpReach(a)..] == was[ArpReach(a)..]
  {
    var n := ArpReach(a);
    hide Overlay, ArpHead;
    var b := Overlay(was, 0, ArpHead(a));
    var c := Overlay(b, 8, a.senderHard[..a.HardLen()]);
    var d := Overlay(c, 14, a.senderProto[..a.ProtoLen()]);
    var e := Overlay(d, 18, a.targetHard[..a.HardLen()]);
    OverlayBehind(was, 0, ArpHead(a), n);
    OverlayBehind(b, 8, a.senderHard[..a.HardLen()], n);
    OverlayBehind(c, 14, a.senderProto[..a.ProtoLen()], n);
    OverlayBehind(d, 18, a.targetHard[..a.HardLen()], n);
    OverlayBehind(e, 24, a.targetProto[..a.ProtoLen()], n);
  }

  lemma ArpWrote(was: seq<u8>, o: nat, a: Arp)
    requires a.Sized() && o + ArpReach(a) <= |was|
    ensures Wrote(was, ArpLaid(was, o, a), o, ArpLaid(was[o..], 0, a)[..ArpReach(a)])
  {
    ArpLaidFrom(was, o, a);
    ArpStays(was[o..], a);
    hide ArpLaid, ArpReach;
    var now, n := ArpLaid(was, o, a), ArpReach(a);
    assert now == now[..o] + now[o..];
    assert now[o..] == now[o..][..n] + now[o..][n..];
    assert was[o..][n..] == was[o + n..];
  }

  /** One store of set_arp. */
  method Lay(m: array<u8>, o: nat, t: seq<u8>)
    requires o + |t| <= m.Length
    modifies m
    ensures m[..] == Overlay(old(m[..]), o, t)
  {
    PutBytes(m, o, t);
  }

  /** set_arp (packet_arp.c:57-81). */
  method SetArp(m: array<u8>, o: nat, a: Arp) returns (n: nat)
    requires a.Sized() && o + ArpReach(a) <= m.Length
    modifies m
    ensures n == ARP_LEN && m[..] == ArpLaid(old(m[..]), o, a)
    ensures a.Valid() ==> Wrote(old(m[..]), m[..], o, ArpBytes(a))
  {
    hide Overlay, Wrote, ArpBytes;
    ghost var was := m[..];
    Lay(m, o, ArpHead(a));
    Lay(m, o + 8, a.senderHard[..a.HardLen()]);
    Lay(m, o + 14, a.senderProto[..a.ProtoLen()]);
    Lay(m, o + 18, a.targetHard[..a.HardLen()]);
    Lay(m, o + 24, a.targetProto[..a.ProtoLen()]);
    if a.Valid() { ArpLaidIs(was, o, a); }
    n := ARP_LEN;
  }

  lemma RawParts(f: Ip, length: seq<u8>, protoSum: seq<u8>)
    requires f.Valid() && |length| == 2 && |protoSum| == 3
    ensures var s := RawIpBytes(f, length, protoSum);
            && s[0..2] == [0x45, TosOctet(f)] && s[4..6] == BE16(f.ident)
            && s[8..9] == [Lo(f.hopLimit)] && s[12..20] == f.src + f.dst
  {
    hide BE16, TosOctet, Lo, OffWord, Store;
    var a := [0x45, TosOctet(f)] + length + BE16(f.ident);
    var b := Store(LittleEndian, OffWord(f)) + [Lo(f.hopLimit)] + protoSum;
    var s := a + b + (f.src + f.dst);
    assert RawIpBytes(f, length, protoSum) == s;
    assert s[0..2] == a[0..2] && s[4..6] == a[4..6] == BE16(f.ident);
    assert s[8..9] == b[2..3] == [Lo(f.hopLimit)];
  }

  lemma WholeHeader(mid: seq<u8>, now: seq<u8>, o: nat, raw: seq<u8>, f: Ip, protocol: u8)
    requires f.Valid() && |raw| == IP_LEN && o + IP_LEN <= |mid| && mid[o..o + IP_LEN] == raw
    requires raw[0..2] == [0x45, TosOctet(f)] && raw[4..6] == BE16(f.ident)
    requires raw[8..9] == [Lo(f.hopLimit)] && raw[12..20] == f.src + f.dst
    requires Wrote(mid, now, o + 9, [protocol])
    ensures HostHeader(now, o, f, protocol)
  {
    hide BE16, TosOctet, Lo, Wrote;
    WroteInside(mid, now, o + 9, [protocol]);
    WroteOutside(mid, now, o + 9, [protocol], o, o + 2);
    WroteOutside(mid, now, o + 9, [protocol], o + 4, o + 6);
    WroteOutside(mid, now, o + 9, [protocol], o + 8, o + 9);
    WroteOutside(mid, now, o + 9, [protocol], o + 12, o + 20);
    SubSlice(mid, o, IP_LEN, 0, 2);
    SubSlice(mid, o, IP_LEN, 4, 6);
    SubSlice(mid, o, IP_LEN, 8, 9);
    SubSlice(mid, o, IP_LEN, 12, 20);
    assert now[o + 8..o + 10] == now[o + 8..o + 9] + now[o + 9..o + 10];
  }

  /** A store inside a region that was just written changes that region only. */
  lemma WroteNested(was: seq<u8>, mid: seq<u8>, now: seq<u8>, o: nat, s: seq<u8>, x: nat, t: seq<u8>)
    requires Wrote(was, mid, o, s) && x + |t| <= |s| && Wrote(mid, now, o + x, t)
    ensures Wrote(was, now, o, s[..x] + t + s[x + |t|..])
  {
    assert mid[..o + x] == was[..o] + s[..x];
    assert mid[o + x + |t|..] == s[x + |t|..] + was[o + |s|..];
    var u := s[..x] + t + s[x + |t|..];
    assert was[..o] + s[..x] + t + (s[x + |t|..] + was[o + |s|..]) == was[..o] + u + was[o + |s|..];
  }

  /** set_ip and the protocol field: the header in host order, and nothing else. */
  method StartIp(m: array<u8>, o: nat, f: Ip, protocol: u8)
    requires o + IP_LEN <= m.Length && f.Valid()
    modifies m
    ensures HostHeader(m[..], o, f, protocol)
    ensures exists h: seq<u8> :: |h| == IP_LEN && Wrote(old(m[..]), m[..], o, h)
  {
    hide BE16, TosOctet, Lo, OffWord, Store, Wrote, RawIpBytes;
    ghost var was := m[..];
    SetIp(m, o, f);
    ghost var mid, raw := m[..], RawIpBytes(f, was[o + 2..o + 4], was[o + 9..o + 12]);
    PutBytes(m, o + 9, [protocol]);
    RawParts(f, was[o + 2..o + 4], was[o + 9..o + 12]);
    WroteInside(was, mid, o, raw);
    WroteInside(mid, m[..], o + 9, [protocol]);
    WroteNested(was, mid, m[..], o, raw, 9, [protocol]);
    WholeHeader(mid, m[..], o, raw, f, protocol);
  }

  lemma HeaderKept(was: seq<u8>, now: seq<u8>, o: nat, f: Ip, protocol: u8, s: seq<u8>)
    requires HostHeader(was, o, f, protocol) && Wrote(was, now, o + IP_LEN, s)
    ensures HostHeader(now, o, f, protocol)
  {
    hide Wrote, BE16, TosOctet, Lo;
    WroteOutside(was, now, o + IP_LEN, s, o, o + 2);
    WroteOutside(was, now, o + IP_LEN, s, o + 4, o + 6);
    WroteOutside(was, now, o + IP_LEN, s, o + 8, o + 10);
    WroteOutside(was, now, o + IP_LEN, s, o + 12, o + 20);
  }

  lemma HeaderGives(s: seq<u8>, o: nat, f: Ip, protocol: u8)
    requires HostHeader(s, o, f, protocol)
    ensures s[o + 9] == protocol && s[o + 12..o + 20] == f.src + f.dst
  {
    assert s[o + 8..o + 10][1] == s[o + 9];
  }

  /** Header, then payload, then the finished header: one laid-out region. */
  lemma WholeDatagram(b0: seq<u8>, b1: seq<u8>, b2: seq<u8>, b3: seq<u8>, o: nat, segment: seq<u8>, header: seq<u8>)
    requires exists h: seq<u8> :: |h| == IP_LEN && Wrote(b0, b1, o, h)
    requires Wrote(b1, b2, o + IP_LEN, segment) && Wrote(b2, b3, o, header) && |header| == IP_LEN
    ensures Wrote(b0, b3, o, header + segment)
  {
    hide Wrote;
    var h: seq<u8> :| |h| == IP_LEN && Wrote(b0, b1, o, h);
    WroteMore(b0, b1, b2, o, h, segment);
    WroteFront(b0, b2, b3, o, h, segment, header);
  }

  lemma BehindHeader(b0: seq<u8>, b1: seq<u8>, o: nat)
    requires exists h: seq<u8> :: |h| == IP_LEN && Wrote(b0, b1, o, h)
    ensures |b1| == |b0| && o + IP_LEN <= |b0| && b1[o + IP_LEN..] == b0[o + IP_LEN..]
  {
    var h: seq<u8> :| |h| == IP_LEN && Wrote(b0, b1, o, h);
  }

  ghost predicate IsIp(p: Packet, f: Ip, protocol: u8) {
    match p.payload
    case TcpPayload(ip, _) => f == ip && protocol == PROTO_TCP
    case UdpPayload(ip, _) => f == ip && protocol == PROTO_UDP
    case IcmpPayload(ip, _) => f == ip && protocol == PROTO_ICMP
    case IpPayload(ip) => f == ip && protocol == Lo(ip.protocol)
    case _ => false
  }

  /** The payload part of set_packet behind an IPv4 header at o. */
  method SetTransport(m: array<u8>, o: nat, p: Packet, f: Ip, protocol: u8) returns (length: int)
    requires p.Valid() && m.Length <= MAX_PACKET_SIZE && o + Space(p) <= m.Length
    requires HostHeader(m[..], o, f, protocol) && IsIp(p, f, protocol)
    modifies m
    ensures length == NetLen(p)
    ensures Wrote(old(m[..]), m[..], o + IP_LEN, Behind(p, old(m[o + IP_LEN..])))
  {
    hide Wrote, HostHeader, TcpSegment, UdpSegment, IcmpMessage, IpBytes;
    HeaderGives(m[..], o, f, protocol);
    ghost var area := m[o + IP_LEN..];
    match p.payload {
      case TcpPayload(_, t) =>
        SetTcp(m, o + IP_LEN, t, p.data, o, f);
        length := |p.data| + IP_LEN + TCP_LEN;
      case UdpPayload(_, u) =>
        SetUdp(m, o + IP_LEN, u, p.data, o, f);
        length := |p.data| + IP_LEN + UDP_LEN;
      case IcmpPayload(_, c) =>
        ghost var n := IcmpLen(c, |p.data|);
        assert area[..n] == m[o + IP_LEN..o + IP_LEN + n];
        assert OctetAt(area, n) == OctetAt(m[..], o + IP_LEN + n);
        length := SetIcmp(m, o + IP_LEN, c, p.data);
        length := |p.data| + IP_LEN + length;
      case IpPayload(_) =>
        PutBytes(m, o + IP_LEN, p.data);
        length := |p.data| + IP_LEN;
    }
  }

  method SetDatagram(m: array<u8>, o: nat, p: Packet, f: Ip, protocol: u8) returns (length: int)
    requires p.Valid() && m.Length <= MAX_PACKET_SIZE && o + Space(p) <= m.Length && IsIp(p, f, protocol)
    modifies m
    ensures length == NetLen(p)
    ensures Wrote(old(m[..]), m[..], o, IpBytes(f, protocol, NetLen(p)) + Behind(p, old(m[o + IP_LEN..])))
  {
    hide Wrote, HostHeader, IpBytes, Behind;
    ghost var b0 := m[..];
    StartIp(m, o, f, protocol);
    ghost var b1 := m[..];
    BehindHeader(b0, b1, o);
    length := SetTransport(m, o, p, f, protocol);
    ghost var b2 := m[..];
    HeaderKept(b1, b2, o, f, protocol, Behind(p, b0[o + IP_LEN..]));
    FinishIp(m, o, f, protocol, length);
    WholeDatagram(b0, b1, b2, m[..], o, Behind(p, b0[o + IP_LEN..]), IpBytes(f, protocol, length));
  }

  /** set_packet (JpcapSender.c:227-336) behind the Ethernet header. */
  method SetNet(m: array<u8>, o: nat, p: Packet) returns (length: int)
    requires p.Valid() && m.Length <= MAX_PACKET_SIZE && o + Space(p) <= m.Length
    modifies m
    ensures length == NetLen(p)
    ensures Wrote(old(m[..]), m[..], o, NetBytes(p, old(m[o..])))
  {
    hide Wrote, HostHeader, IpBytes, Behind;
    match p.payload {
      case ArpPayload(a) =>
        ArpWrote(m[..], o, a);
        length := SetArp(m, o, a);
        length := |p.data| + length;
      case OtherPayload =>
        PutBytes(m, o, p.data);
        length := |p.data|;
      case TcpPayload(f, _) =>
        length := SetDatagram(m, o, p, f, PROTO_TCP);
      case UdpPayload(f, _) =>
        length := SetDatagram(m, o, p, f, PROTO_UDP);
      case IcmpPayload(f, _) =>
        length := SetDatagram(m, o, p, f, PROTO_ICMP);
      case IpPayload(f) =>
        length := SetDatagram(m, o, p, f, Lo(f.protocol));
    }
  }

  lemma WroteRest(was: seq<u8>, now: seq<u8>, s: seq<u8>)
    requires Wrote(was, now, 0, s)
    ensures |now| == |was| && |s| <= |was| && now[|s|..] == was[|s|..]
  {}

  /** set_packet (JpcapSender.c:227-336).  An Ethernet header is laid out only
      when asked for and when the packet has one. */
  method SetPacket(m: array<u8>, p: Packet, includeDatalink: bool) returns (length: nat)
    requires p.Valid() && m.Length <= MAX_PACKET_SIZE
    requires (if includeDatalink then p.EtherLen() else 0) + Space(p) <= m.Length
    modifies m
    ensures length == (if includeDatalink then p.EtherLen() else 0) + NetLen(p)
    ensures Wrote(old(m[..]), m[..], 0,
                  if includeDatalink then LinkBytes(p) + NetBytes(p, old(m[p.EtherLen()..]))
                  else NetBytes(p, old(m[..])))
  {
    hide Wrote, NetBytes, LinkBytes;
    ghost var was := m[..];
    var d := 0;
    if includeDatalink {
      d := SetEther(m, p);
      ghost var mid := m[..];
      WroteRest(was, mid, LinkBytes(p));
      length := SetNet(m, d, p);
      WroteMore(was, mid, m[..], 0, LinkBytes(p), NetBytes(p, was[d..]));
      length := length + d;
    } else {
      assert m[0..] == m[..];
      length := SetNet(m, 0, p);
    }
  }

  function Zeros(n: nat): seq<u8> { seq(n, _ => 0) }

  lemma WroteStart(was: seq<u8>, now: seq<u8>, s: seq<u8>)
    requires Wrote(was, now, 0, s)
    ensures |now| == |was| && |s| <= |was| && now[..|s|] == s && now[|s|..] == was[|s|..]
  {}

  /** The part of nativeSendPacket before pcap_sendpacket (JpcapSender.c:155-172):
      a short frame is padded with zeros to 60 octets.  Where set_packet returns more
      than it laid out, what the buffer held is sent. */
  method SendPacket(buf: array<u8>, p: Packet) returns (length: nat)
    requires buf.Length == MAX_PACKET_SIZE && p.Valid()
    requires p.EtherLen() + Space(p) <= MAX_PACKET_SIZE && p.EtherLen() + NetLen(p) <= MAX_PACKET_SIZE
    modifies buf
    ensures length == if p.EtherLen() + NetLen(p) < 60 then 60 else p.EtherLen() + NetLen(p)
    ensures var laid, n := LinkBytes(p) + NetBytes(p, old(buf[p.EtherLen()..])), p.EtherLen() + NetLen(p);
            |laid| <= buf.Length && buf[..length] == (laid + old(buf[|laid|..]))[..n] + Zeros(length - n)
  {
    hide Wrote, LinkBytes, NetBytes;
    ghost var was := buf[..];
    length := SetPacket(buf, p, true);
    ghost var laid, mid, n := LinkBytes(p) + NetBytes(p, was[p.EtherLen()..]), buf[..], length;
    WroteStart(was, mid, laid);
    assert mid == laid + was[|laid|..];
    if length < MIN_FRAME {
      forall i | length <= i <= MIN_FRAME { buf[i] := 0; }
      length := MIN_FRAME;
    }
    assert buf[..length] == mid[..n] + Zeros(length - n);
  }
}
