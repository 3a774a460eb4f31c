/** The client side of SDNTrace: TraceClient.java. */
module TraceClient {
  import opened Bytes
  import opened Packets
  import opened Captor
  import opened Loopback
  import opened Sorting
  import opened TraceCodec
  import opened TraceController

  const MAX_CONT_ID := 760

  // ---- sending a trace packet --------------------------------------------------------

  /** MacAddress.getBytes: the six low octets. */
  function MacBytes(mac: int): (s: seq<u8>)
    ensures |s| == 6
  {
    BE64(mac)[2..]
  }

  function TraceType(): i16 { ToI16(TRACE_ETHER) }

  /** translateToPcap (TraceClient.java:139-153). */
  function TranslateToPcap(t: Trace): Packet
    requires t.Valid()
  {
    Packet(Some(Ether(MacBytes(t.dst), MacBytes(t.src), TraceType())), OtherPayload, Wire(t))
  }

  /** The test of receivePacket (TraceClient.java:172). */
  predicate IsTrace(r: Capture) {
    r.Captured? && r.ether.Some? && r.ether.value.frametype == TraceType()
  }

  /** A captured packet that carries t and passes the type test of the client. */
  predicate Carries(r: Capture, t: Trace) {
    t.Valid() && r.Captured? && IsTrace(r) && r.data == Wire(t)
  }

  /** The captured Ethernet header: addresses as numbers, and the type 0x8220 as a short. */
  predicate HasAddresses(r: Capture, t: Trace) {
    && r.Captured? && r.ether.Some? && |r.ether.value.dst| == 6 && |r.ether.value.src| == 6
    && 0x1_0000_0000 * U16(r.ether.value.dst, 0) + U32(r.ether.value.dst, 2) == t.dst
    && 0x1_0000_0000 * U16(r.ether.value.src, 0) + U32(r.ether.value.src, 2) == t.src
    && r.ether.value.frametype == 0x8220 - 0x1_0000
  }

  lemma MacReads(mac: int)
    requires 0 <= mac < 0x1_0000_0000_0000
    ensures 0x1_0000_0000 * U16(MacBytes(mac), 0) + U32(MacBytes(mac), 2) == mac
  {
    hide BE16, U16, U32;
    var b, hi := MacBytes(mac), mac / 0x1_0000_0000;
    assert BE64(mac) == BE16(hi / 0x1_0000) + BE16(hi) + BE32(mac);
    assert b[0..2] == BE16(hi) && b[2..6] == BE32(mac);
    RoundTrip16(b, 0, hi);
    RoundTrip32(b, 2, mac);
  }

  lemma AddressesAre(r: Capture, t: Trace)
    requires t.Valid() && r.Captured? && r.ether == TranslateToPcap(t).ether
    ensures HasAddresses(r, t)
  {
    MacReads(t.dst);
    MacReads(t.src);
    assert TraceType() == 0x8220 - 0x1_0000;
    hide MacBytes, U16, U32, Wire, TraceType, BE64;
  }

  lemma TraceIsOrdinary(t: Trace)
    requires t.Valid() && |t.info.contId| <= MAX_CONT_ID
    ensures var p := TranslateToPcap(t);
            Ordinary(p) && ETHER_LEN + Space(p) <= MAX_PACKET_SIZE && ETHER_LEN + NetLen(p) >= 79
  {
    hide MacBytes, Wire;
  }

  lemma CarriedDecodes(r: Capture, t: Trace)
    requires Carries(r, t)
    ensures var d := Decode(r.data, 0, |r.data|); d.Some? && d.value.(info := t.info) == t
  {
    hide Decode, Wire;
    assert r.data[0..0 + TotalLen(t)] == Wire(t);
    FieldsComeBack(r.data, 0, t, |r.data|);
  }

  /** A trace packet of either kind, sent as the client sends it and captured, arrives
      octet for octet, passes the type test and decodes to the same fields. */
  method SendTrace(buf: array<u8>, t: Trace, junk: u16) returns (r: Capture)
    requires buf.Length == MAX_PACKET_SIZE && t.Valid() && |t.info.contId| <= MAX_CONT_ID
    modifies buf
    ensures Carries(r, t) && HasAddresses(r, t)
    ensures var d := Decode(r.data, 0, |r.data|); d.Some? && d.value.(info := t.info) == t
  {
    hide Ordinary, Space, Wire, MacBytes, Decode;
    var p := TranslateToPcap(t);
    TraceIsOrdinary(t);
    r := SendAndCapture(buf, p, junk);
    AddressesAre(r, t);
    CarriedDecodes(r, t);
  }

  // ---- the report -----------------------------------------------------------------------

  const HOP := (t: Trace) => t.hop as int

  /** A printed hop: the packet and what the two latency maps hold for it. */
  datatype Line = Line(packet: Trace, worst: Option<i64>, best: Option<i64>)

  function LastHop(arr: seq<Trace>): int { if arr == [] then -1 else arr[|arr| - 1].hop }

  /** The packets the report prints from a sorted array: those whose hop number differs
      from the one before; the first is compared with -1. */
  function Printed(arr: seq<Trace>): seq<Trace> {
    if arr == [] then []
    else
      var n := |arr| - 1;
      Printed(arr[..n]) + if arr[n].hop == LastHop(arr[..n]) then [] else [arr[n]]
  }

  ghost predicate Increasing(ts: seq<Trace>) {
    forall i, j :: 0 <= i < j < |ts| ==> ts[i].hop < ts[j].hop
  }

  /** The packet is the first of s with its hop number. */
  predicate IsFirst(t: Trace, s: seq<Trace>) {
    WithKey(s, HOP, t.hop) != [] && WithKey(s, HOP, t.hop)[0] == t
  }

  /** Hop -1 is not printed when it is the smallest. */
  predicate Dropped(arr: seq<Trace>, h: int) { h == -1 && arr != [] && arr[0].hop == -1 }

  ghost predicate HasHop(ts: seq<Trace>, h: int) { exists t :: t in ts && t.hop == h }

  ghost predicate Report(arr: seq<Trace>, ts: seq<Trace>) {
    && |ts| <= |arr| && Increasing(ts)
    && (forall t :: t in ts ==> IsFirst(t, arr) && t.hop <= LastHop(arr) && !Dropped(arr, t.hop))
    && (forall h :: WithKey(arr, HOP, h) != [] && !Dropped(arr, h) ==> HasHop(ts, h))
  }

  lemma AtMostLast(arr: seq<Trace>, t: Trace, i: nat)
    requires Sorted(arr + [t], HOP) && i < |arr|
    ensures arr[i].hop <= LastHop(arr) <= t.hop
  {
    var more := arr + [t];
    assert more[i] == arr[i] && more[|arr| - 1] == arr[|arr| - 1] && more[|arr|] == t;
    assert HOP(more[|arr| - 1]) <= HOP(more[|arr|]);
    assert i < |arr| - 1 ==> HOP(more[i]) <= HOP(more[|arr| - 1]);
  }

  lemma ClassOfOne(t: Trace, h: int)
    ensures WithKey([t], HOP, h) == if t.hop == h then [t] else []
  {}

  lemma OldElement(arr: seq<Trace>, t: Trace, u: Trace)
    requires Sorted(arr + [t], HOP) && IsFirst(u, arr) && u.hop <= LastHop(arr) && !Dropped(arr, u.hop)
    ensures IsFirst(u, arr + [t]) && u.hop <= LastHop(arr + [t]) && !Dropped(arr + [t], u.hop)
  {
    ClassConcat(arr, [t], HOP, u.hop);
    ClassOfOne(t, u.hop);
    if arr != [] { AtMostLast(arr, t, 0); }
  }

  lemma NoneBefore(arr: seq<Trace>, t: Trace)
    requires Sorted(arr + [t], HOP) && t.hop != LastHop(arr)
    ensures WithKey(arr, HOP, t.hop) == []
  {
    if WithKey(arr, HOP, t.hop) != [] {
      var i := ClassMember(arr, HOP, t.hop);
      AtMostLast(arr, t, i);
    }
  }

  lemma NewElement(arr: seq<Trace>, t: Trace)
    requires Sorted(arr + [t], HOP) && t.hop != LastHop(arr)
    ensures IsFirst(t, arr + [t]) && t.hop <= LastHop(arr + [t]) && !Dropped(arr + [t], t.hop)
  {
    NoneBefore(arr, t);
    ClassConcat(arr, [t], HOP, t.hop);
    ClassOfOne(t, t.hop);
    if arr != [] { AtMostLast(arr, t, 0); }
  }

  lemma IncreasingStep(arr: seq<Trace>, t: Trace, ts: seq<Trace>)
    requires Increasing(ts) && (arr != [] ==> LastHop(arr) <= t.hop) && (arr == [] ==> ts == [])
    requires forall u :: u in ts ==> u.hop <= LastHop(arr)
    ensures Increasing(ts + if t.hop == LastHop(arr) then [] else [t])
  {
    if t.hop != LastHop(arr) {
      forall i | 0 <= i < |ts| ensures ts[i].hop < t.hop { assert ts[i] in ts; }
    }
  }

  lemma LastInClass(arr: seq<Trace>)
    requires arr != []
    ensures WithKey(arr, HOP, LastHop(arr)) != []
  {
    var n := |arr| - 1;
    assert arr == arr[..n] + [arr[n]];
    ClassConcat(arr[..n], [arr[n]], HOP, arr[n].hop);
  }

  lemma HopStays(arr: seq<Trace>, t: Trace, ts: seq<Trace>, us: seq<Trace>, h: int)
    requires Report(arr, ts) && us == ts + if t.hop == LastHop(arr) then [] else [t]
    requires WithKey(arr, HOP, h) != [] || t.hop == h
    requires !Dropped(arr + [t], h)
    ensures HasHop(us, h)
  {
    if WithKey(arr, HOP, h) != [] {
      assert !Dropped(arr, h);
      var u :| u in ts && u.hop == h;
      assert u in us;
    } else if t.hop == LastHop(arr) {
      if arr != [] {
        LastInClass(arr);
      }
    } else {
      assert t in us;
    }
  }

  lemma ReportStep(arr: seq<Trace>, t: Trace, ts: seq<Trace>)
    requires Sorted(arr + [t], HOP) && Report(arr, ts)
    ensures Report(arr + [t], ts + if t.hop == LastHop(arr) then [] else [t])
  {
    hide WithKey, Dropped, HasHop, LastHop;
    var more, us := arr + [t], ts + if t.hop == LastHop(arr) then [] else [t];
    if arr != [] { AtMostLast(arr, t, 0); }
    forall u | u in us ensures IsFirst(u, more) && u.hop <= LastHop(more) && !Dropped(more, u.hop) {
      if u in ts { OldElement(arr, t, u); } else { NewElement(arr, t); }
    }
    forall h | WithKey(more, HOP, h) != [] && !Dropped(more, h) ensures HasHop(us, h) {
      ClassConcat(arr, [t], HOP, h);
      ClassOfOne(t, h);
      HopStays(arr, t, ts, us, h);
    }
    IncreasingStep(arr, t, ts);
  }

  lemma {:induction false} PrintedIsReport(arr: seq<Trace>)
    requires Sorted(arr, HOP)
    ensures Report(arr, Printed(arr))
  {
    if arr != [] {
      var n := |arr| - 1;
      PrintedIsReport(arr[..n]);
      ReportStep(arr[..n], arr[n], Printed(arr[..n]));
      assert arr == arr[..n] + [arr[n]];
    }
  }

  // ---- latencies --------------------------------------------------------------------------

  function WorstLatency(t: Trace, startTime: i64): i64 { ToI64(t.timestamp - startTime) }

  function BestLatency(t: Trace, startTime: i64): i64 {
    var w: int := ToI64(t.timestamp - startTime);
    ToI64(w - t.info.latency)
  }

  /** v is x as a 64-bit number: x itself when it fits. */
  predicate Is64(v: i64, x: int) {
    (x - v) % 0x1_0000_0000_0000_0000 == 0 && (-0x8000_0000_0000_0000 <= x < 0x8000_0000_0000_0000 ==> v == x)
  }

  lemma Wraps64(x: int)
    ensures Is64(ToI64(x), x)
  {
    var q := (x + 0x8000_0000_0000_0000) / 0x1_0000_0000_0000_0000;
    assert x - ToI64(x) == 0x1_0000_0000_0000_0000 * q;
  }

  lemma Wraps64Twice(w: i64, x: int, y: int)
    requires Is64(w, x)
    ensures Is64(ToI64(w - y), x - y)
  {
    Wraps64(w - y);
    var m, k, j := 0x1_0000_0000_0000_0000, (x - w) / 0x1_0000_0000_0000_0000,
      (w - y - ToI64(w - y)) / 0x1_0000_0000_0000_0000;
    hide ToI64;
    assert x - w == m * k && w - y - ToI64(w - y) == m * j;
    assert x - y - ToI64(w - y) == m * (k + j);
  }

  /** The latencies a line shows for a packet: the worst is what passed since the start, the
      best is less by the latency to the controller that the packet tells. */
  predicate ShowsLatencies(l: Line, timestamp: i64, latency: i64, startTime: i64) {
    && l.worst.Some? && l.best.Some?
    && Is64(l.worst.value, timestamp - startTime) && Is64(l.best.value, timestamp - startTime - latency)
  }

  lemma LatenciesAre(t: Trace, startTime: i64, l: Line)
    requires l.worst == Some(WorstLatency(t, startTime)) && l.best == Some(BestLatency(t, startTime))
    ensures ShowsLatencies(l, t.timestamp, t.info.latency, startTime)
  {
    hide ToI64, Is64;
    Wraps64(t.timestamp - startTime);
    Wraps64Twice(WorstLatency(t, startTime), t.timestamp - startTime, t.info.latency);
  }

  /** Where nothing wraps the two differ by the latency to the controller. */
  lemma LatenciesInNumbers(l: Line, timestamp: i64, latency: i64, startTime: i64)
    requires ShowsLatencies(l, timestamp, latency, startTime)
    requires -0x8000_0000_0000_0000 <= timestamp - startTime < 0x8000_0000_0000_0000
    requires -0x8000_0000_0000_0000 <= timestamp - startTime - latency < 0x8000_0000_0000_0000
    ensures l.worst.value == timestamp - startTime && l.worst.value - l.best.value == latency
  {}

  /** The latest packet with a hop number. */
  function Latest(s: seq<Trace>, h: int): Option<Trace> {
    if s == [] then None
    else if s[|s| - 1].hop == h then Some(s[|s| - 1])
    else Latest(s[..|s| - 1], h)
  }

  lemma {:induction false} LatestExists(s: seq<Trace>, h: int)
    ensures Latest(s, h).Some? <==> WithKey(s, HOP, h) != []
  {
    if s != [] {
      var n := |s| - 1;
      LatestExists(s[..n], h);
      ClassConcat(s[..n], [s[n]], HOP, h);
      assert s == s[..n] + [s[n]];
    }
  }

  function LatencyOf(t: Option<Trace>, startTime: i64, best: bool): Option<i64> {
    if t.None? then None
    else Some(if best then BestLatency(t.value, startTime) else WorstLatency(t.value, startTime))
  }

  /** The map holds the latency of the latest packet of every hop number. */
  ghost predicate IsLatencyMap(m: map<int, i64>, s: seq<Trace>, startTime: i64, best: bool) {
    forall h :: Get(m, LongKey(h)) == LatencyOf(Latest(s, h), startTime, best)
  }

  lemma LatencyStep(m: map<int, i64>, s: seq<Trace>, t: Trace, startTime: i64, best: bool)
    requires IsLatencyMap(m, s, startTime, best)
    ensures IsLatencyMap(m[t.hop as int := LatencyOf(Some(t), startTime, best).value], s + [t], startTime, best)
  {
    hide BestLatency, WorstLatency;
    var more, after := m[t.hop as int := LatencyOf(Some(t), startTime, best).value], s + [t];
    assert after[..|after| - 1] == s;
    forall h ensures Get(more, LongKey(h)) == LatencyOf(Latest(after, h), startTime, best) {
      assert Get(m, LongKey(h)) == LatencyOf(Latest(s, h), startTime, best);
    }
  }

  // ---- the client -----------------------------------------------------------------------------

  /** Hop -1 is left out when no smaller hop number was collected. */
  ghost predicate Hidden(packets: seq<Trace>, h: int) {
    h == -1 && forall t :: t in packets ==> t.hop >= -1
  }

  /** First copy of its hop, latencies of the latest copy. */
  ghost predicate GoodLine(packets: seq<Trace>, startTime: i64, l: Line) {
    var h := l.packet.hop;
    && IsFirst(l.packet, packets) && !Hidden(packets, h) && Latest(packets, h).Some?
    && var t := Latest(packets, h).value;
       ShowsLatencies(l, t.timestamp, t.info.latency, startTime)
  }

  /** What the report promises about the collected packets. */
  ghost predicate Faithful(packets: seq<Trace>, startTime: i64, lines: seq<Line>) {
    && (forall i, j :: 0 <= i < j < |lines| ==> lines[i].packet.hop < lines[j].packet.hop)
    && (forall l :: l in lines ==> GoodLine(packets, startTime, l))
    && (forall t :: t in packets && !Hidden(packets, t.hop) ==> exists l :: l in lines && l.packet.hop == t.hop)
  }

  lemma Where(ts: seq<Trace>, h: int) returns (k: nat)
    requires HasHop(ts, h)
    ensures k < |ts| && ts[k].hop == h
  {
    var t :| t in ts && t.hop == h;
    k :| 0 <= k < |ts| && ts[k] == t;
  }

  lemma {:induction false} InClass(s: seq<Trace>, t: Trace)
    requires t in s
    ensures WithKey(s, HOP, t.hop) != []
  {
    if s[0] != t { InClass(s[1..], t); }
  }

  class TraceReceiver {
    var packets: seq<Trace>
    var worstLatencies: map<int, i64>
    var bestLatencies: map<int, i64>
    const startTime: i64

    ghost predicate Valid()
      reads this
    {
      IsLatencyMap(worstLatencies, packets, startTime, false) && IsLatencyMap(bestLatencies, packets, startTime, true)
    }

    constructor (startTime: i64)
      ensures Valid() && packets == [] && this.startTime == startTime
    {
      this.startTime := startTime;
      packets, worstLatencies, bestLatencies := [], map[], map[];
    }

    /** receivePacket (TraceClient.java:163-189).  An exception of the decoder leaves the
        lists as they were; requests are collected like replies. */
    method ReceivePacket(p: Capture)
      requires Valid()
      modifies this
      ensures Valid()
      ensures packets == old(packets) + if IsTrace(p) && Decode(p.data, 0, |p.data|).Some?
                                        then [Decode(p.data, 0, |p.data|).value] else []
    {
      hide Decode, IsLatencyMap, WorstLatency, BestLatency;
      if IsTrace(p) {
        var d := Decode(p.data, 0, |p.data|);
        if d.Some? {
          var response := d.value;
          LatencyStep(worstLatencies, packets, response, startTime, false);
          LatencyStep(bestLatencies, packets, response, startTime, true);
          packets := packets + [response];
          worstLatencies := worstLatencies[response.hop as int := WorstLatency(response, startTime)];
          bestLatencies := bestLatencies[response.hop as int := BestLatency(response, startTime)];
        }
      }
    }

    /** The end of main (TraceClient.java:101-128): sort, skip repetitions, print. */
    method PrintReport() returns (lines: seq<Line>)
      requires Valid()
      ensures Faithful(packets, startTime, lines)
    {
      hide Sort, Faithful, WorstLatency, BestLatency, IsLatencyMap;
      var arr := Sort(packets, HOP);
      var lastHop := -1;
      lines := [];
      ghost var shown: seq<Trace> := [];
      for i := 0 to |arr|
        invariant lastHop == LastHop(arr[..i])
        invariant shown == Printed(arr[..i]) && |shown| == |lines|
        invariant forall k :: 0 <= k < |lines| ==> lines[k] == LineOf(shown[k])
      {
        var tp := arr[i];
        assert arr[..i + 1][..i] == arr[..i];
        if lastHop == tp.hop { continue; }
        lines := lines + [Line(tp, Get(worstLatencies, LongKey(tp.hop)), Get(bestLatencies, LongKey(tp.hop)))];
        shown := shown + [tp];
        lastHop := tp.hop;
      }
      assert arr[..|arr|] == arr;
      SortIsStable(packets, HOP);
      PrintedIsReport(arr);
      LinesFaithful(arr, shown, lines);
    }

    function LineOf(t: Trace): Line
      reads this
    {
      Line(t, Get(worstLatencies, LongKey(t.hop)), Get(bestLatencies, LongKey(t.hop)))
    }

    lemma LinesFaithful(arr: seq<Trace>, shown: seq<Trace>, lines: seq<Line>)
      requires Valid() && arr == Sort(packets, HOP) && Report(arr, shown)
      requires Sorted(arr, HOP) && StablePermutation(packets, arr, HOP)
      requires |shown| == |lines| && forall k :: 0 <= k < |lines| ==> lines[k] == LineOf(shown[k])
      ensures Faithful(packets, startTime, lines)
    {
      hide Sort, WithKey, Latest, WorstLatency, BestLatency, HasHop, Dropped, Hidden;
      forall l | l in lines ensures GoodLine(packets, startTime, l) {
        var k :| 0 <= k < |lines| && lines[k] == l;
        assert shown[k] in shown;
        ShownIsGood(arr, shown[k]);
      }
      forall t | t in packets && !Hidden(packets, t.hop) ensures exists l :: l in lines && l.packet.hop == t.hop {
        InClass(packets, t);
        DroppedIsHidden(arr, t.hop);
        assert WithKey(arr, HOP, t.hop) == WithKey(packets, HOP, t.hop);
        var k := Where(shown, t.hop);
        assert lines[k] in lines;
      }
    }

    lemma ShownIsGood(arr: seq<Trace>, t: Trace)
      requires Valid() && IsFirst(t, arr) && !Dropped(arr, t.hop)
      requires arr == Sort(packets, HOP) && Sorted(arr, HOP) && StablePermutation(packets, arr, HOP)
      ensures GoodLine(packets, startTime, LineOf(t))
    {
      hide Sort, WithKey, Latest, WorstLatency, BestLatency, Dropped, Hidden;
      assert WithKey(arr, HOP, t.hop) == WithKey(packets, HOP, t.hop);
      DroppedIsHidden(arr, t.hop);
      LatestExists(packets, t.hop);
      assert Get(worstLatencies, LongKey(t.hop)) == LatencyOf(Latest(packets, t.hop), startTime, false);
      assert Get(bestLatencies, LongKey(t.hop)) == LatencyOf(Latest(packets, t.hop), startTime, true);
      LatenciesAre(Latest(packets, t.hop).value, startTime, LineOf(t));
    }

    lemma DroppedIsHidden(arr: seq<Trace>, h: int)
      requires WithKey(packets, HOP, h) != []
      requires arr == Sort(packets, HOP) && Sorted(arr, HOP) && StablePermutation(packets, arr, HOP)
      ensures Dropped(arr, h) <==> Hidden(packets, h)
    {
      hide Sort;
      if h == -1 {
        assert WithKey(arr, HOP, h) == WithKey(packets, HOP, h);
        var i := ClassMember(arr, HOP, h);
        assert HOP(arr[0]) <= HOP(arr[i]);
        if arr[0].hop == -1 {
          forall t | t in packets ensures t.hop >= -1 {
            InClass(packets, t);
            assert WithKey(arr, HOP, t.hop) == WithKey(packets, HOP, t.hop);
            var j := ClassMember(arr, HOP, t.hop);
            assert HOP(arr[0]) <= HOP(arr[j]);
          }
        } else {
          var g: int := arr[0].hop;
          assert WithKey(arr, HOP, g) == WithKey(packets, HOP, g);
          var j := ClassMember(packets, HOP, g);
          assert packets[j] in packets;
        }
      }
    }
  }

  // ---- a whole run ---------------------------------------------------------------------------------

  /** What a captured trace packet is a copy of: a reply of the controller, by number,
      or the request that the client itself has sent. */
  datatype Copy = OfReply(k: nat) | OfRequest {
    function HopNumber(): nat { if OfReply? then k else 0 }

    function Original(replies: seq<Trace>, request: Trace): Trace
      requires OfReply? ==> k < |replies|
    {
      if OfReply? then replies[k] else request
    }
  }

  /** The request of the client: hop 0 (TraceClient.java:53-63). */
  predicate IsRequest(t: Trace) { t.request && t.hop == 0 }

  ghost predicate Known(replies: seq<Trace>, copies: seq<Copy>) {
    forall i :: 0 <= i < |copies| && copies[i].OfReply? ==> copies[i].k < |replies|
  }

  /** Arrival i is a copy of what copies[i] says: anything may be lost, repeated or
      reordered on the way. */
  ghost predicate Delivered(replies: seq<Trace>, request: Trace, copies: seq<Copy>, arrived: seq<Capture>) {
    && |copies| == |arrived| && Known(replies, copies)
    && forall i :: 0 <= i < |copies| ==> Carries(arrived[i], copies[i].Original(replies, request))
  }

  /** The packet shown for an original: its fields, and the latency as it was decoded. */
  predicate Shows(packet: Trace, original: Trace) {
    packet.(info := original.info) == original && packet.info.latency == LatencyRead(original)
  }

  function Decoded(r: Capture): Option<Trace> { if r.Captured? then Decode(r.data, 0, |r.data|) else None }

  /** The collected packets, one by one. */
  ghost predicate Collected(replies: seq<Trace>, request: Trace, copies: seq<Copy>, arrived: seq<Capture>,
          packets: seq<Trace>)
  {
    && |copies| == |packets| == |arrived| && Known(replies, copies)
    && forall i :: 0 <= i < |copies| ==>
         Decoded(arrived[i]) == Some(packets[i]) && Shows(packets[i], copies[i].Original(replies, request))
  }

  ghost predicate IsFirstCopy(copies: seq<Copy>, i: nat, h: int)
    requires i < |copies|
  {
    copies[i].HopNumber() == h && forall j :: 0 <= j < i ==> copies[j].HopNumber() != h
  }

  /** A line shows the first copy that arrived with its hop number. */
  ghost predicate LineShows(replies: seq<Trace>, request: Trace, copies: seq<Copy>, arrived: seq<Capture>, l: Line)
    requires |copies| == |arrived| && Known(replies, copies)
  {
    && l.worst.Some? && l.best.Some?
    && exists i :: 0 <= i < |copies| && IsFirstCopy(copies, i, l.packet.hop) && Decoded(arrived[i]) == Some(l.packet)
                   && Shows(l.packet, copies[i].Original(replies, request))
  }

  ghost predicate LineFor(lines: seq<Line>, h: int) { exists l :: l in lines && l.packet.hop == h }

  /** The lines are exactly the hops of which a copy arrived, in the order of the hops. */
  ghost predicate Complete(replies: seq<Trace>, request: Trace, copies: seq<Copy>, arrived: seq<Capture>,
          lines: seq<Line>)
    requires |copies| == |arrived| && Known(replies, copies)
  {
    && (forall i, j :: 0 <= i < j < |lines| ==> lines[i].packet.hop < lines[j].packet.hop)
    && (forall l :: l in lines ==> LineShows(replies, request, copies, arrived, l))
    && (forall i :: 0 <= i < |copies| ==> LineFor(lines, copies[i].HopNumber()))
  }

  ghost predicate ReplyArrived(copies: seq<Copy>, h: int) { h >= 0 && OfReply(h) in copies }

  ghost predicate HopArrived(copies: seq<Copy>, h: int) {
    ReplyArrived(copies, h) || (h == 0 && OfRequest in copies)
  }

  /** The first copy with hop 0 is a reply. */
  predicate ReplyFirst(copies: seq<Copy>) {
    if copies == [] then false
    else if copies[0].HopNumber() == 0 then copies[0].OfReply?
    else ReplyFirst(copies[1..])
  }

  /** What the user can rely on: a hop is printed exactly when its reply was delivered
      or it is hop 0 and the client captured its own request; it is printed without any
      delivered reply only in the second case; and the line of hop 0 shows a reply
      exactly when a reply was the first of these to arrive. */
  ghost predicate Trusted(copies: seq<Copy>, lines: seq<Line>) {
    && (forall h: int :: LineFor(lines, h) <==> HopArrived(copies, h))
    && (forall h: int :: LineFor(lines, h) && !ReplyArrived(copies, h) <==>
                         h == 0 && OfRequest in copies && !ReplyArrived(copies, h))
    && (forall l :: l in lines && l.packet.hop != 0 ==> !l.packet.request)
    && (forall l :: l in lines && l.packet.hop == 0 ==> (!l.packet.request <==> ReplyFirst(copies)))
  }

  /** The signed octet is the number of the reply up to the 128th reply, and never after. */
  lemma SmallHop(replies: seq<Trace>, k: nat)
    requires Counted(replies) && k < |replies|
    ensures replies[k].hop == k <==> k < 128
  {}

  lemma AllHops(replies: seq<Trace>, request: Trace, copies: seq<Copy>, arrived: seq<Capture>, packets: seq<Trace>,
          i: nat)
    requires Counted(replies) && |replies| <= 128 && IsRequest(request)
    requires Collected(replies, request, copies, arrived, packets) && i < |packets|
    ensures packets[i].hop == copies[i].HopNumber() && !Hidden(packets, packets[i].hop)
    ensures Shows(packets[i], copies[i].Original(replies, request)) && Decoded(arrived[i]) == Some(packets[i])
  {
    hide Decoded;
    if copies[i].OfReply? { SmallHop(replies, copies[i].k); }
    assert Shows(packets[i], copies[i].Original(replies, request));
  }

  lemma {:induction false} FirstIndex(s: seq<Trace>, t: Trace) returns (i: nat)
    requires IsFirst(t, s)
    ensures i < |s| && s[i] == t && forall j :: 0 <= j < i ==> s[j].hop != t.hop
  {
    if s[0].hop == t.hop {
      i := 0;
    } else {
      i := FirstIndex(s[1..], t);
      i := i + 1;
    }
  }

  lemma RunIsComplete(replies: seq<Trace>, request: Trace, copies: seq<Copy>, arrived: seq<Capture>,
          packets: seq<Trace>, startTime: i64, lines: seq<Line>)
    requires Counted(replies) && |replies| <= 128 && IsRequest(request)
    requires Collected(replies, request, copies, arrived, packets)
    requires Faithful(packets, startTime, lines)
    ensures Complete(replies, request, copies, arrived, lines)
  {
    hide Counted, Hidden, IsFirst, Latest, Shows, Decoded, IsRequest;
    forall l | l in lines ensures LineShows(replies, request, copies, arrived, l) {
      assert GoodLine(packets, startTime, l);
      var i := FirstIndex(packets, l.packet);
      AllHops(replies, request, copies, arrived, packets, i);
      forall j | 0 <= j < i ensures copies[j].HopNumber() != l.packet.hop {
        AllHops(replies, request, copies, arrived, packets, j);
      }
      assert IsFirstCopy(copies, i, l.packet.hop);
    }
    forall i | 0 <= i < |copies| ensures LineFor(lines, copies[i].HopNumber()) {
      AllHops(replies, request, copies, arrived, packets, i);
      assert packets[i] in packets;
    }
  }

  lemma {:induction false} FirstIsReply(copies: seq<Copy>, i: nat)
    requires i < |copies| && IsFirstCopy(copies, i, 0)
    ensures ReplyFirst(copies) <==> copies[i].OfReply?
  {
    if i > 0 {
      assert copies[0].HopNumber() != 0;
      FirstIsReply(copies[1..], i - 1);
    }
  }

  lemma PickLine(lines: seq<Line>, h: int) returns (l: Line)
    requires LineFor(lines, h)
    ensures l in lines && l.packet.hop == h
  {
    l :| l in lines && l.packet.hop == h;
  }

  lemma LineArrived(replies: seq<Trace>, request: Trace, copies: seq<Copy>, arrived: seq<Capture>, lines: seq<Line>,
          h: int)
    requires |copies| == |arrived| && Known(replies, copies)
    requires Complete(replies, request, copies, arrived, lines) && LineFor(lines, h)
    ensures HopArrived(copies, h)
  {
    hide Decoded, Shows, LineFor;
    var l := PickLine(lines, h);
    assert LineShows(replies, request, copies, arrived, l);
    var i :| 0 <= i < |copies| && IsFirstCopy(copies, i, l.packet.hop);
    assert copies[i] in copies;
  }

  lemma ArrivedLine(replies: seq<Trace>, request: Trace, copies: seq<Copy>, arrived: seq<Capture>, lines: seq<Line>,
          h: int)
    requires |copies| == |arrived| && Known(replies, copies)
    requires Complete(replies, request, copies, arrived, lines) && HopArrived(copies, h)
    ensures LineFor(lines, h)
  {
    hide Decoded, Shows, LineFor, LineShows;
    var c := if h >= 0 && OfReply(h) in copies then OfReply(h) else OfRequest;
    var i :| 0 <= i < |copies| && copies[i] == c;
    assert LineFor(lines, copies[i].HopNumber());
  }

  lemma HopsAre(replies: seq<Trace>, request: Trace, copies: seq<Copy>, arrived: seq<Capture>, lines: seq<Line>, h: int)
    requires |copies| == |arrived| && Known(replies, copies)
    requires Complete(replies, request, copies, arrived, lines)
    ensures LineFor(lines, h) <==> HopArrived(copies, h)
  {
    hide Decoded, Shows, Complete;
    if LineFor(lines, h) { LineArrived(replies, request, copies, arrived, lines, h); }
    if HopArrived(copies, h) { ArrivedLine(replies, request, copies, arrived, lines, h); }
  }

  lemma CompleteShows(replies: seq<Trace>, request: Trace, copies: seq<Copy>, arrived: seq<Capture>, lines: seq<Line>,
                      l: Line)
    requires |copies| == |arrived| && Known(replies, copies)
    requires Complete(replies, request, copies, arrived, lines) && l in lines
    ensures LineShows(replies, request, copies, arrived, l)
  {
    hide LineShows;
  }

  lemma LineOrigin(replies: seq<Trace>, request: Trace, copies: seq<Copy>, arrived: seq<Capture>, l: Line)
    requires |copies| == |arrived| && Known(replies, copies) && IsRequest(request)
    requires forall t :: t in replies ==> !t.request
    requires LineShows(replies, request, copies, arrived, l)
    ensures l.packet.hop != 0 ==> !l.packet.request
    ensures l.packet.hop == 0 ==> (!l.packet.request <==> ReplyFirst(copies))
  {
    hide Decoded, ReplyFirst;
    var i :| 0 <= i < |copies| && IsFirstCopy(copies, i, l.packet.hop)
        && Shows(l.packet, copies[i].Original(replies, request));
    if copies[i].OfReply? { assert replies[copies[i].k] in replies; }
    if l.packet.hop == 0 { FirstIsReply(copies, i); }
  }

  lemma CompleteIsTrusted(replies: seq<Trace>, request: Trace, copies: seq<Copy>, arrived: seq<Capture>,
          lines: seq<Line>)
    requires |copies| == |arrived| && Known(replies, copies) && IsRequest(request)
    requires forall t :: t in replies ==> !t.request
    requires Complete(replies, request, copies, arrived, lines)
    ensures Trusted(copies, lines)
  {
    hide Decoded, ReplyFirst, Complete;
    forall h: int ensures LineFor(lines, h) <==> HopArrived(copies, h) {
      HopsAre(replies, request, copies, arrived, lines, h);
    }
    forall l | l in lines
      ensures l.packet.hop != 0 ==> !l.packet.request
      ensures l.packet.hop == 0 ==> (!l.packet.request <==> ReplyFirst(copies))
    {
      CompleteShows(replies, request, copies, arrived, lines, l);
      LineOrigin(replies, request, copies, arrived, l);
    }
  }

  lemma CarriedIsCollected(r: Capture, t: Trace)
    requires Carries(r, t)
    ensures IsTrace(r) && Decode(r.data, 0, |r.data|).Some? && Shows(Decode(r.data, 0, |r.data|).value, t)
  {
    hide Decode, Wire, LatencyRead;
    CarriedDecodes(r, t);
    assert r.data[0..0 + TotalLen(t)] == Wire(t);
    LatencyReadIs(r.data, t);
  }

  ghost predicate IsLastCopy(copies: seq<Copy>, i: nat, h: int)
    requires i < |copies|
  {
    copies[i].HopNumber() == h && forall j :: i < j < |copies| ==> copies[j].HopNumber() != h
  }

  /** The latencies of a line are those of the last copy of its hop that arrived: by the
      timestamp of the reply, and by what is read for its latency. */
  ghost predicate LineTimes(replies: seq<Trace>, request: Trace, copies: seq<Copy>, startTime: i64, l: Line)
    requires Known(replies, copies)
  {
    exists i :: 0 <= i < |copies| && IsLastCopy(copies, i, l.packet.hop)
                && ShowsLatencies(l, copies[i].Original(replies, request).timestamp,
                                  LatencyRead(copies[i].Original(replies, request)), startTime)
  }

  lemma {:induction false} LastIndex(s: seq<Trace>, h: int) returns (i: nat)
    requires Latest(s, h).Some?
    ensures i < |s| && s[i] == Latest(s, h).value && s[i].hop == h
    ensures forall j :: i < j < |s| ==> s[j].hop != h
  {
    var n := |s| - 1;
    if s[n].hop == h { i := n; } else { i := LastIndex(s[..n], h); }
  }

  lemma RunTimes(replies: seq<Trace>, request: Trace, copies: seq<Copy>, arrived: seq<Capture>,
          packets: seq<Trace>, startTime: i64, l: Line)
    requires Counted(replies) && |replies| <= 128 && IsRequest(request)
    requires Collected(replies, request, copies, arrived, packets) && GoodLine(packets, startTime, l)
    ensures LineTimes(replies, request, copies, startTime, l)
  {
    var h := l.packet.hop;
    var i := LastIndex(packets, h);
    hide Counted, Hidden, IsFirst, Latest, Decoded, IsRequest, ShowsLatencies, LatencyRead, Known;
    AllHops(replies, request, copies, arrived, packets, i);
    forall j | i < j < |copies| ensures copies[j].HopNumber() != h {
      AllHops(replies, request, copies, arrived, packets, j);
    }
    assert IsLastCopy(copies, i, h);
  }

  lemma RunLineTimes(replies: seq<Trace>, request: Trace, copies: seq<Copy>, arrived: seq<Capture>,
          packets: seq<Trace>, startTime: i64, lines: seq<Line>)
    requires Counted(replies) && |replies| <= 128 && IsRequest(request)
    requires Collected(replies, request, copies, arrived, packets) && Faithful(packets, startTime, lines)
    ensures forall l :: l in lines ==> LineTimes(replies, request, copies, startTime, l)
  {
    hide Counted, GoodLine, LineTimes, IsRequest, Decoded, Shows;
    forall l | l in lines ensures LineTimes(replies, request, copies, startTime, l) {
      RunTimes(replies, request, copies, arrived, packets, startTime, l);
    }
  }

  /** Any run with at most 128 requests of one probe: whatever the network does to the
      replies the controller sent for it, and however often the client captures its own
      request, it prints the hops that arrived, each by its first copy. */
  method TraceRun(ctl: TraceAppController, probe: i64, request: Trace, ghost copies: seq<Copy>, arrived: seq<Capture>,
                  startTime: i64) returns (lines: seq<Line>)
    requires ctl.Valid() && IsRequest(request)
    requires |RepliesTo(Requests(ctl.log), ctl.calls, probe)| <= 128
    requires Delivered(RepliesTo(Requests(ctl.log), ctl.calls, probe), request, copies, arrived)
    ensures Complete(RepliesTo(Requests(ctl.log), ctl.calls, probe), request, copies, arrived, lines)
    ensures Trusted(copies, lines)
    ensures forall l :: l in lines ==>
              LineTimes(RepliesTo(Requests(ctl.log), ctl.calls, probe), request, copies, startTime, l)
  {
    hide RepliesTo, Requests, Carries, Shows, Complete, Faithful, TraceReceiver.Valid, Counted, Decode, Trusted,
      Answers, IsRequest;
    ghost var replies := RepliesTo(Requests(ctl.log), ctl.calls, probe);
    RepliesAreReplies(Requests(ctl.log), ctl.calls, probe);
    assert Counted(replies) by {
      assert CountedFor(Requests(ctl.log), ctl.calls, ctl.hopRec, probe);
    }
    var client := new TraceReceiver(startTime);
    for i := 0 to |arrived|
      invariant client.Valid() && fresh(client) && client.startTime == startTime
      invariant Collected(replies, request, copies[..i], arrived[..i], client.packets)
    {
      CarriedIsCollected(arrived[i], copies[i].Original(replies, request));
      client.ReceivePacket(arrived[i]);
    }
    assert copies[..|arrived|] == copies && arrived[..|arrived|] == arrived;
    lines := client.PrintReport();
    RunIsComplete(replies, request, copies, arrived, client.packets, startTime, lines);
    CompleteIsTrusted(replies, request, copies, arrived, lines);
    RunLineTimes(replies, request, copies, arrived, client.packets, startTime, lines);
  }
}
