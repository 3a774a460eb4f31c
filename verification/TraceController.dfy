/** The controller side of SDNTrace: TraceAppController.java and the request gate of
    TraceModule.java. */
module TraceController {
  import opened Bytes
  import opened Packets
  import opened TraceCodec

  const TRACE_ETHER := 0x8220
  const FRAME_OFFSET := 14

  /** The objects the code hands to HashMap.get.  The maps hold Long keys, and equals
      between a Long and an object of another class is false. */
  datatype Key = LongKey(long: int) | MacAddressKey(mac: int)

  function Get<V>(m: map<int, V>, k: Key): Option<V> {
    if k.LongKey? && k.long in m then Some(m[k.long]) else None
  }

  /** The next key of an iteration; HashMap leaves the order open. */
  method Pick<T(==)>(s: set<T>) returns (x: T)
    requires s != {}
    ensures x in s
  {
    x :| x in s;
  }

  type NetMap = map<int, map<int, i32>>

  datatype PortMac = PortMac(port: i32, mac: i64)

  datatype Out = Flood | OutPort(number: i32)

  /** A call of INetwork.SendTracePacket. */
  datatype Call = Call(dpid: i64, reply: Trace, out: Out)

  /** What reaches the controller.  FrameIn goes through TraceModule.receive, PacketIn
      is TraceAppController.PacketIn called with raw octets. */
  datatype Input =
    | SwitchUp(dpid: i64, ports: seq<PortMac>)
    | PortChange(dpid: i64, port: i32, mac: i64)
    | FrameIn(etherType: u16, frame: seq<u8>, info: Info)
    | PacketIn(octets: seq<u8>, info: Info)

  /** A trace packet that was handed to HandleTrace. */
  datatype Request = Request(packet: Trace, info: Info)

  // ---- the network map as the log tells it ---------------------------------------------

  function LastPair(ports: seq<PortMac>, mac: int): Option<i32> {
    if ports == [] then None
    else if ports[|ports| - 1].mac == mac then Some(ports[|ports| - 1].port)
    else LastPair(ports[..|ports| - 1], mac)
  }

  /** The port an address has on a switch, from the latest input that says something
      about it: a switch event speaks about all addresses of its switch. */
  function LastPort(log: seq<Input>, dpid: int, mac: int): Option<i32> {
    if log == [] then None
    else match log[|log| - 1]
      case SwitchUp(d, ports) =>
        if d == dpid then LastPair(ports, mac) else LastPort(log[..|log| - 1], dpid, mac)
      case PortChange(d, port, m) =>
        if d == dpid && m == mac then Some(port) else LastPort(log[..|log| - 1], dpid, mac)
      case _ => LastPort(log[..|log| - 1], dpid, mac)
  }

  function Lookup(m: NetMap, dpid: int, mac: int): Option<i32> {
    if dpid in m && mac in m[dpid] then Some(m[dpid][mac]) else None
  }

  /** The nested map is exactly the last-writer view of the log. */
  ghost predicate IsView(m: NetMap, log: seq<Input>) {
    forall d, a :: Lookup(m, d, a) == LastPort(log, d, a)
  }

  lemma LogSwitch(m: NetMap, log: seq<Input>, dpid: i64, ports: seq<PortMac>, portMap: map<int, i32>)
    requires IsView(m, log)
    requires forall a :: Get(portMap, LongKey(a)) == LastPair(ports, a)
    ensures IsView(m[dpid := portMap], log + [SwitchUp(dpid, ports)])
  {
    var after := log + [SwitchUp(dpid, ports)];
    assert after[..|after| - 1] == log;
    forall d, a ensures Lookup(m[dpid := portMap], d, a) == LastPort(after, d, a) {
      assert Lookup(m, d, a) == LastPort(log, d, a);
      assert Get(portMap, LongKey(a)) == LastPair(ports, a);
    }
  }

  lemma LogPort(m: NetMap, log: seq<Input>, dpid: i64, port: i32, mac: i64)
    requires IsView(m, log)
    ensures IsView(m[dpid := (if dpid in m then m[dpid] else map[])[mac := port]], log + [PortChange(dpid, port, mac)])
  {
    var after := log + [PortChange(dpid, port, mac)];
    assert after[..|after| - 1] == log;
    forall d, a
      ensures Lookup(m[dpid := (if dpid in m then m[dpid] else map[])[mac := port]], d, a) == LastPort(after, d, a)
    {
      assert Lookup(m, d, a) == LastPort(log, d, a);
    }
  }

  lemma LogOther(m: NetMap, log: seq<Input>, e: Input)
    requires IsView(m, log) && (e.FrameIn? || e.PacketIn?)
    ensures IsView(m, log + [e])
  {
    var after := log + [e];
    assert after[..|after| - 1] == log;
    forall d, a ensures Lookup(m, d, a) == LastPort(after, d, a) {
      assert Lookup(m, d, a) == LastPort(log, d, a);
    }
  }

  // ---- where a reply goes -----------------------------------------------------------------

  /** The lookup of HandleTrace with a given key for the address; a null anywhere is
      caught and turns into flooding at the switch the request came from. */
  function Route(m: NetMap, found: int, address: Key, info: Info): (r: (i64, Out))
    requires found in m ==> -0x8000_0000_0000_0000 <= found < 0x8000_0000_0000_0000
  {
    match Get(m, LongKey(found))
    case None => (info.dpid, Flood)
    case Some(ports) =>
      match Get(ports, address)
      case None => (info.dpid, Flood)
      case Some(port) => (found, OutPort(port))
  }

  /** The search returns a switch that knows the address, or -1 when none does. */
  ghost predicate Finds(m: NetMap, mac: int, found: int) {
    if exists d :: Lookup(m, d, mac).Some? then Lookup(m, found, mac).Some? else found == -1
  }

  /** In terms of what the controller was told. */
  lemma FindsByLog(m: NetMap, log: seq<Input>, mac: int, found: int)
    requires IsView(m, log) && Finds(m, mac, found)
    ensures (exists d :: LastPort(log, d, mac).Some?) ==> LastPort(log, found, mac).Some?
    ensures (forall d :: LastPort(log, d, mac).None?) ==> found == -1
  {
    hide Lookup, LastPort;
    assert Lookup(m, found, mac) == LastPort(log, found, mac);
    if d :| LastPort(log, d, mac).Some? {
      assert Lookup(m, d, mac) == LastPort(log, d, mac);
    } else {
      forall d ensures Lookup(m, d, mac).None? {
        assert LastPort(log, d, mac).None?;
      }
    }
  }

  /** The code looks the port up with a MacAddress, so it always floods.  That is what
      the map says to do exactly when no switch has the source address. */
  lemma RouteMeetsMapExactly(m: NetMap, found: int, mac: int, info: Info)
    requires forall d :: d in m ==> -0x8000_0000_0000_0000 <= d < 0x8000_0000_0000_0000
    requires Finds(m, mac, found)
    ensures Route(m, found, MacAddressKey(mac), info) == (info.dpid, Flood)
    ensures Route(m, found, MacAddressKey(mac), info) == Route(m, found, LongKey(mac), info)
        <==> forall d :: Lookup(m, d, mac).None?
    ensures Lookup(m, found, mac).Some? ==>
              Route(m, found, LongKey(mac), info) == (found, OutPort(Lookup(m, found, mac).value))
  {
    if Route(m, found, LongKey(mac), info) == (info.dpid, Flood) {
      assert Lookup(m, found, mac).None?;
    } else {
      assert Lookup(m, found, mac).Some?;
    }
  }

  // ---- requests, replies and hop numbers --------------------------------------------------------

  /** The packet an input hands to HandleTrace, if any.  Receive lets only requests
      through; PacketIn takes whatever decodes. */
  function Accepted(e: Input): Option<Request> {
    match e
    case FrameIn(etherType, s, info) =>
      if etherType != TRACE_ETHER || |s| <= FRAME_OFFSET then None
      else (
        match Decode(s, FRAME_OFFSET, ToI8(s[FRAME_OFFSET]))
        case None => None
        case Some(t) => if t.request then Some(Request(t, info)) else None)
    case PacketIn(s, info) =>
      if s == [] then None
      else (
        match Decode(s, 0, ToI8(s[0]))
        case None => None
        case Some(t) => Some(Request(t, info)))
    case _ => None
  }

  function Requests(log: seq<Input>): seq<Request> {
    if log == [] then []
    else match Accepted(log[|log| - 1])
      case None => Requests(log[..|log| - 1])
      case Some(r) => Requests(log[..|log| - 1]) + [r]
  }

  lemma RequestsStep(log: seq<Input>, e: Input)
    ensures Requests(log + [e]) == Requests(log) + if Accepted(e).Some? then [Accepted(e).value] else []
  {
    hide Accepted;
    var after := log + [e];
    assert after[..|after| - 1] == log;
    assert Requests(log) + [] == Requests(log);
  }

  /** A reply is addressed back, marked as a reply, and floods where the request came in. */
  predicate Answers(r: Request, c: Call) {
    && c.dpid == r.info.dpid && c.out == Flood
    && c.reply.dst == r.packet.src && c.reply.src == r.packet.dst
    && c.reply.version == 1 && c.reply.maxHops == -1 && !c.reply.request && c.reply.info == r.info
  }

  /** The replies to one probe, in the order they were sent. */
  function RepliesTo(requests: seq<Request>, calls: seq<Call>, probe: i64): seq<Trace>
    requires |requests| == |calls|
  {
    var n := |calls| - 1;
    if n < 0 then []
    else
      RepliesTo(requests[..n], calls[..n], probe)
      + if requests[n].packet.probeId == probe then [calls[n].reply] else []
  }

  /** One reply for each accepted packet, in order. */
  ghost predicate Replied(requests: seq<Request>, calls: seq<Call>) {
    |requests| == |calls| && forall i :: 0 <= i < |calls| ==> Answers(requests[i], calls[i])
  }

  /** What is sent as a reply is marked as one. */
  lemma {:induction false} RepliesAreReplies(requests: seq<Request>, calls: seq<Call>, probe: i64)
    requires Replied(requests, calls)
    ensures forall t :: t in RepliesTo(requests, calls, probe) ==> !t.request
  {
    var n := |calls| - 1;
    if n >= 0 {
      assert Answers(requests[n], calls[n]);
      RepliesAreReplies(requests[..n], calls[..n], probe);
    }
  }

  /** The k-th reply, from 0, carries k as a signed octet. */
  predicate Counted(replies: seq<Trace>) { forall k :: 0 <= k < |replies| ==> replies[k].hop == ToI8(k) }

  predicate CountedFor(requests: seq<Request>, calls: seq<Call>, hopRec: map<int, i8>, p: i64)
    requires |requests| == |calls|
  {
    && Counted(RepliesTo(requests, calls, p))
    && (p in hopRec <==> RepliesTo(requests, calls, p) != [])
    && (p in hopRec ==> hopRec[p] == ToI8(|RepliesTo(requests, calls, p)|))
  }

  ghost predicate HopsCounted(requests: seq<Request>, calls: seq<Call>, hopRec: map<int, i8>)
    requires |requests| == |calls|
  {
    forall p: i64 :: CountedFor(requests, calls, hopRec, p)
  }

  function NextHop(hopRec: map<int, i8>, probe: i64): i8 { if probe in hopRec then hopRec[probe] else 0 }

  lemma RepliesStep(requests: seq<Request>, calls: seq<Call>, r: Request, c: Call, p: i64)
    requires |requests| == |calls|
    ensures RepliesTo(requests + [r], calls + [c], p)
         == RepliesTo(requests, calls, p) + if r.packet.probeId == p then [c.reply] else []
  {
    var n := |calls|;
    assert (requests + [r])[..n] == requests && (calls + [c])[..n] == calls;
  }

  lemma NextOctet(k: nat)
    ensures ToI8(ToI8(k) + 1) == ToI8(k + 1) && ToI8(0) == 0
  {}

  lemma HopStepFor(requests: seq<Request>, calls: seq<Call>, hopRec: map<int, i8>, r: Request, c: Call, p: i64)
    requires |requests| == |calls| && CountedFor(requests, calls, hopRec, p)
    requires c.reply.hop == NextHop(hopRec, r.packet.probeId)
    ensures CountedFor(requests + [r], calls + [c],
                       hopRec[r.packet.probeId := ToI8(NextHop(hopRec, r.packet.probeId) + 1)], p)
  {
    hide ToI8, RepliesTo;
    RepliesStep(requests, calls, r, c, p);
    NextOctet(|RepliesTo(requests, calls, p)|);
  }

  lemma HopStep(requests: seq<Request>, calls: seq<Call>, hopRec: map<int, i8>, r: Request, c: Call)
    requires |requests| == |calls| && HopsCounted(requests, calls, hopRec)
    requires c.reply.hop == NextHop(hopRec, r.packet.probeId)
    ensures HopsCounted(requests + [r], calls + [c],
                        hopRec[r.packet.probeId := ToI8(NextHop(hopRec, r.packet.probeId) + 1)])
  {
    var probe := r.packet.probeId;
    var rs, cs, rec := requests + [r], calls + [c], hopRec[probe := ToI8(NextHop(hopRec, probe) + 1)];
    forall p: i64 ensures CountedFor(rs, cs, rec, p) {
      assert CountedFor(requests, calls, hopRec, p);
      HopStepFor(requests, calls, hopRec, r, c, p);
    }
  }

  lemma DecodeBounds(s: seq<u8>, offset: int, length: int)
    requires Decode(s, offset, length).Some?
    ensures 0 <= offset && FIXED_LEN <= length <= |s| - offset
  {}

  lemma SameOctet(q: nat, n: nat)
    ensures Lo(0x100 * q + n) == Lo(n)
  {}

  lemma SmallGuard(r: nat)
    requires r < 0x80
    ensures FIXED_LEN <= ToI8(Lo(65 + r + r)) <==> r <= 31 || r >= 114
    ensures ToI8(Lo(65 + r + r)) <= 65 + r + r
  {}

  lemma LengthGuard(c: nat)
    ensures FIXED_LEN <= ToI8(Lo(FIXED_LEN + INFO_LEN + c + c)) <==> c % 0x80 <= 31 || c % 0x80 >= 114
    ensures ToI8(Lo(FIXED_LEN + INFO_LEN + c + c)) <= FIXED_LEN + INFO_LEN + c + c
  {
    hide Lo, ToI8;
    var q, r := c / 0x80, c % 0x80;
    assert FIXED_LEN + INFO_LEN + c + c == 0x100 * q + (65 + r + r);
    SameOctet(q, 65 + r + r);
    SmallGuard(r);
  }

  lemma SignedLength(v: u8)
    ensures 37 <= ToI8(v) <==> 37 <= v < 128
    ensures v < 128 ==> ToI8(v) == v
  {}

  /** On the octets of any frame: it is accepted exactly when its type is 0x8220, the octet
      behind the Ethernet header is a length between 37 and 127 that the frame has, and
      the request flag in octet 50 is set.  The reply goes by these fields. */
  lemma FrameAcceptedExactly(etherType: u16, s: seq<u8>, info: Info)
    ensures var r := Accepted(FrameIn(etherType, s, info));
            && (r.Some? <==> etherType == 0x8220 && |s| > 14 && 37 <= s[14] < 128 && 14 + s[14] <= |s| && s[50] == 1)
            && (r.Some? ==>
                  && r.value.info == info && r.value.packet.dst == U64(s, 15) % 0x1_0000_0000_0000
                  && r.value.packet.src == U64(s, 23) % 0x1_0000_0000_0000
                  && r.value.packet.probeId == ToI64(U64(s, 33)))
  {
    hide U64, ToI64, DecodeInfo;
    if |s| > 14 { SignedLength(s[14]); }
  }

  /** The same without the gate: any length octet between 37 and 127 that the packet has
      will do, if there are the 49 octets that are read. */
  lemma RawAcceptedExactly(s: seq<u8>, info: Info)
    ensures Accepted(PacketIn(s, info)).Some? <==> |s| >= 49 && 37 <= s[0] < 128 && s[0] <= |s|
  {
    hide U64, ToI64, DecodeInfo;
    if s != [] { SignedLength(s[0]); }
  }

  lemma TotalLenIs(t: Trace)
    ensures TotalLen(t) == FIXED_LEN + INFO_LEN + |t.info.contId| + |t.info.contId| >= 65
  {}

  lemma HeldOctets(s: seq<u8>, o: nat, t: Trace)
    requires Holds(s, o, t)
    ensures TotalLen(t) >= 65 && o + TotalLen(t) <= |s|
    ensures s[o] == Lo(TotalLen(t)) && s[o + 36] == if t.request then 1 else 0
  {
    hide Wire, FixedBytes, Lo;
    FirstOctetIs(t);
    WireSplits(t);
    FixedPieces(t);
    Sub(s, o, TotalLen(t), 0, FIXED_LEN, Wire(t));
    Sub(s, o, FIXED_LEN, 36, 37, FixedBytes(t));
  }

  /** Behind the gate of receive, a frame is answered exactly when it has the trace type,
      carries a request and passes the length guard below. */
  lemma FrameAnsweredExactly(etherType: u16, frame: seq<u8>, info: Info, packet: Trace)
    requires Holds(frame, FRAME_OFFSET, packet)
    ensures Accepted(FrameIn(etherType, frame, info)).Some?
       <==> etherType == TRACE_ETHER && packet.request && FIXED_LEN <= ToI8(Lo(TotalLen(packet)))
  {
    hide Accepted, Holds, Decode, ToI8, Lo, TotalLen, Wire, U64, ToI64;
    var n := TotalLen(packet);
    HeldOctets(frame, FRAME_OFFSET, packet);
    LengthGuard(|packet.info.contId|);
    TotalLenIs(packet);
    FrameAcceptedExactly(etherType, frame, info);
    SignedLength(Lo(n));
  }

  /** A frame that carries a reply is never accepted, whatever its ethernet type and
      however long its controller id is. */
  lemma ReplyIsNotAnswered(etherType: u16, frame: seq<u8>, info: Info, reply: Trace)
    requires Holds(frame, FRAME_OFFSET, reply) && !reply.request
    ensures Accepted(FrameIn(etherType, frame, info)).None?
  {
    hide Accepted, Holds, ToI8, Lo;
    FrameAnsweredExactly(etherType, frame, info, reply);
  }

  /** Raw octets are not filtered: a packet, request or reply, is answered exactly when
      its first octet, read as a signed length, covers the fixed part.  The octet is
      the total length modulo 256, so this depends on the controller id alone. */
  lemma RawAnsweredExactly(s: seq<u8>, info: Info, packet: Trace)
    requires Holds(s, 0, packet)
    ensures Accepted(PacketIn(s, info)).Some? <==> FIXED_LEN <= ToI8(Lo(TotalLen(packet)))
    ensures var c := |packet.info.contId|;
            FIXED_LEN <= ToI8(Lo(TotalLen(packet))) <==> c % 0x80 <= 31 || c % 0x80 >= 114
  {
    hide Accepted, Holds, Decode, ToI8, Lo, TotalLen, Wire;
    var n := TotalLen(packet);
    HeldOctets(s, 0, packet);
    LengthGuard(|packet.info.contId|);
    TotalLenIs(packet);
    RawAcceptedExactly(s, info);
    SignedLength(Lo(n));
  }

  // ---- the controller -------------------------------------------------------------------------------

  lemma RepliedStep(requests: seq<Request>, calls: seq<Call>, r: Request, c: Call)
    requires Replied(requests, calls) && Answers(r, c)
    ensures Replied(requests + [r], calls + [c])
  {
    hide Answers;
  }

  class TraceAppController {
    var netMap: NetMap
    var hopRec: map<int, i8>
    /** The calls made on the network so far. */
    var calls: seq<Call>
    var traceFlows: seq<i64>
    ghost var log: seq<Input>

    ghost predicate Valid()
      reads this
    {
      && LongKeys() && IsView(netMap, log)
      && Replied(Requests(log), calls) && HopsCounted(Requests(log), calls, hopRec)
    }

    ghost predicate LongKeys()
      reads this
    {
      forall d :: d in netMap ==> -0x8000_0000_0000_0000 <= d < 0x8000_0000_0000_0000
    }

    constructor ()
      ensures Valid() && log == [] && calls == []
    {
      netMap, hopRec, calls, traceFlows, log := map[], map[], [], [], [];
    }

    /** SwitchInfoReceived (TraceAppController.java:90-106): the switch's whole map is
        replaced, and the trace flow is pushed. */
    method SwitchInfoReceived(dpid: i64, ports: seq<PortMac>)
      requires Valid()
      modifies this`netMap, this`traceFlows, this`log
      ensures Valid() && log == old(log) + [SwitchUp(dpid, ports)]
      ensures traceFlows == old(traceFlows) + [dpid]
    {
      hide IsView, HopsCounted, Replied, Requests, LastPort;
      var portMap: map<int, i32> := map[];
      for i := 0 to |ports|
        invariant forall a :: Get(portMap, LongKey(a)) == LastPair(ports[..i], a)
      {
        assert ports[..i + 1][..i] == ports[..i];
        portMap := portMap[ports[i].mac := ports[i].port];
      }
      assert ports[..|ports|] == ports;
      LogSwitch(netMap, log, dpid, ports, portMap);
      RequestsStep(log, SwitchUp(dpid, ports));
      assert Requests(log) + [] == Requests(log);
      netMap := netMap[dpid := portMap];
      traceFlows := traceFlows + [dpid];
      log := log + [SwitchUp(dpid, ports)];
      assert Requests(log) == Requests(old(log));
    }

    /** OnPortStatusChange (TraceAppController.java:210-231): one address of one switch. */
    method OnPortStatusChange(dpid: i64, port: i32, mac: i64)
      requires Valid()
      modifies this`netMap, this`log
      ensures Valid() && log == old(log) + [PortChange(dpid, port, mac)]
    {
      hide IsView, HopsCounted, Replied, Requests, LastPort;
      LogPort(netMap, log, dpid, port, mac);
      RequestsStep(log, PortChange(dpid, port, mac));
      assert Requests(log) + [] == Requests(log);
      if dpid !in netMap {
        netMap := netMap[dpid := map[mac := port]];
        assert map[mac := port] == (map[])[mac := port];
      } else {
        var ports := netMap[dpid];
        if mac !in ports {
          ports := ports[mac := port];
        } else {
          ports := ports - {mac};
          ports := ports[mac := port];
          assert ports == netMap[dpid][mac := port];
        }
        netMap := netMap[dpid := ports];
      }
      log := log + [PortChange(dpid, port, mac)];
      assert Requests(log) == Requests(old(log));
    }

    /** searchForSwitch (TraceAppController.java:172-180); the order of the keys is open. */
    method SearchForSwitch(mac: int) returns (found: int)
      ensures Finds(netMap, mac, found)
    {
      var toSearch := netMap;
      var keys := toSearch.Keys;
      while keys != {}
        invariant keys <= toSearch.Keys
        invariant forall d :: d in toSearch && d !in keys ==> mac !in toSearch[d]
        decreases |keys|
      {
        var l := Pick(keys);
        if mac in toSearch[l] {
          assert Lookup(toSearch, l, mac).Some?;
          return l;
        }
        keys := keys - {l};
      }
      found := -1;
    }

    /** sendReply (TraceAppController.java:145-161).  The new packet's random id and the
        date are inputs; the reply does not carry the id of the probe. */
    method SendReply(dpid: i64, request: Trace, out: Out, info: Info, freshId: i64, now: i64)
      modifies this`hopRec, this`calls
      ensures |calls| == |old(calls)| + 1 && calls[..|old(calls)|] == old(calls)
      ensures var c := calls[|old(calls)|];
              && c.dpid == dpid && c.out == out && c.reply.probeId == freshId && c.reply.timestamp == now
              && Answers(Request(request, info), c.(dpid := info.dpid, out := Flood))
              && c.reply.hop == NextHop(old(hopRec), request.probeId)
      ensures hopRec == old(hopRec)[request.probeId := ToI8(NextHop(old(hopRec), request.probeId) + 1)]
    {
      var probe := request.probeId;
      if probe !in hopRec { hopRec := hopRec[probe := 0]; }
      var hop: int := hopRec[probe];
      var reply := Trace(request.src, request.dst, 1, -1, freshId, hop, now, false, info);
      hopRec := hopRec[probe := ToI8(hop + 1)];
      calls := calls + [Call(dpid, reply, out)];
    }

    /** HandleTrace (TraceAppController.java:112-135). */
    method HandleTrace(packet: Trace, info: Info, freshId: i64, now: i64)
      requires LongKeys()
      modifies this`hopRec, this`calls
      ensures |calls| == |old(calls)| + 1 && calls[..|old(calls)|] == old(calls)
      ensures var c := calls[|old(calls)|];
              Answers(Request(packet, info), c) && c.reply.hop == NextHop(old(hopRec), packet.probeId)
      ensures hopRec == old(hopRec)[packet.probeId := ToI8(NextHop(old(hopRec), packet.probeId) + 1)]
    {
      hide Finds;
      var found := SearchForSwitch(packet.src);
      var route := Route(netMap, found, MacAddressKey(packet.src), info);
      RouteMeetsMapExactly(netMap, found, packet.src, info);
      SendReply(route.0, packet, route.1, info, freshId, now);
    }

    /** One accepted packet: everything that was known stays, one reply is added. */
    method Accept(ghost e: Input, packet: Trace, info: Info, freshId: i64, now: i64)
      requires Valid() && Accepted(e) == Some(Request(packet, info)) && (e.FrameIn? || e.PacketIn?)
      modifies this`hopRec, this`calls, this`log
      ensures Valid() && log == old(log) + [e]
      ensures |calls| == |old(calls)| + 1 && calls[..|old(calls)|] == old(calls)
      ensures forall p: i64 :: p != packet.probeId ==> NextHop(hopRec, p) == NextHop(old(hopRec), p)
    {
      hide IsView, HopsCounted, Requests, Accepted, Answers, ToI8;
      var r := Request(packet, info);
      HandleTrace(packet, info, freshId, now);
      ghost var c := calls[|old(calls)|];
      assert calls == old(calls) + [c];
      LogOther(netMap, log, e);
      RequestsStep(log, e);
      HopStep(Requests(log), old(calls), old(hopRec), r, c);
      RepliedStep(Requests(log), old(calls), r, c);
      log := log + [e];
    }

    /** An input that leads to no reply. */
    ghost method Ignore(e: Input)
      requires Valid() && Accepted(e).None? && (e.FrameIn? || e.PacketIn?)
      modifies this`log
      ensures Valid() && log == old(log) + [e]
    {
      hide IsView, HopsCounted, Requests, Accepted, Replied;
      LogOther(netMap, log, e);
      RequestsStep(log, e);
      assert Requests(log) + [] == Requests(log);
      log := log + [e];
    }

    /** receive (TraceModule.java:220-256) as far as trace packets go.  An exception of
        the decoder leaves the controller as it was. */
    method Receive(etherType: u16, data: array<u8>, info: Info, freshId: i64, now: i64)
      requires Valid()
      modifies this`hopRec, this`calls, this`log
      ensures Valid() && log == old(log) + [FrameIn(etherType, data[..], info)]
      ensures Accepted(FrameIn(etherType, data[..], info)).None? ==> calls == old(calls) && hopRec == old(hopRec)
      ensures Accepted(FrameIn(etherType, data[..], info)).Some? ==>
                |calls| == |old(calls)| + 1 && calls[..|old(calls)|] == old(calls)
    {
      hide TraceAppController.Valid, Decode, ToI8;
      ghost var e := FrameIn(etherType, data[..], info);
      if etherType != TRACE_ETHER || data.Length <= FRAME_OFFSET { Ignore(e); return; }
      var tp := new TracePacket(freshId, now);
      var ok := tp.Deserialize(data, FRAME_OFFSET, ToI8(data[FRAME_OFFSET]));
      if !ok || !tp.request { Ignore(e); return; }
      Accept(e, tp.View(), info, freshId, now);
    }

    /** PacketIn (TraceAppController.java:190-203). */
    method PacketIn(data: array<u8>, info: Info, freshId: i64, now: i64)
      requires Valid()
      modifies this`hopRec, this`calls, this`log
      ensures Valid() && log == old(log) + [Input.PacketIn(data[..], info)]
      ensures Accepted(Input.PacketIn(data[..], info)).None? ==> calls == old(calls) && hopRec == old(hopRec)
      ensures Accepted(Input.PacketIn(data[..], info)).Some? ==>
                |calls| == |old(calls)| + 1 && calls[..|old(calls)|] == old(calls)
    {
      hide TraceAppController.Valid, Decode, ToI8;
      ghost var e := Input.PacketIn(data[..], info);
      if data.Length == 0 { Ignore(e); return; }
      var tp := new TracePacket(freshId, now);
      var ok := tp.Deserialize(data, 0, ToI8(data[0]));
      if !ok { Ignore(e); return; }
      Accept(e, tp.View(), info, freshId, now);
    }
  }

  /** No reply in any run comes back as a request: whatever the controller has sent,
      a frame that carries it changes nothing but the log. */
  method OwnReplyReturns(ctl: TraceAppController, i: nat, etherType: u16, data: array<u8>, info: Info, freshId: i64,
          now: i64)
    requires ctl.Valid() && i < |ctl.calls| && Holds(data[..], FRAME_OFFSET, ctl.calls[i].reply)
    modifies ctl`hopRec, ctl`calls, ctl`log
    ensures ctl.Valid() && ctl.calls == old(ctl.calls) && ctl.hopRec == old(ctl.hopRec)
  {
    hide Accepted, Holds, IsView, HopsCounted;
    ReplyIsNotAnswered(etherType, data[..], info, ctl.calls[i].reply);
    hide TraceAppController.Valid;
    ctl.Receive(etherType, data, info, freshId, now);
  }
}
