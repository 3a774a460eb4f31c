/** The recursive calls of DummyHost, Port and DummySwitch while a ping runs. */
module PingRun {
  import opened Bytes
  import opened Wiring
  import opened Flooding
  import FT = FlowTable

  datatype Packet = Request(src: i32, dst: i32) | Reply(src: i32, dst: i32) {
    function Kind(): FT.PacketKind { if Request? then FT.PingRequest else FT.PingReply }
    function Rank(): nat { if Request? then 1 else 0 }
  }

  /** What a host appends to its messages. */
  datatype Message = Sending(dst: int) | Unreachable | ReplyFrom(src: i32)

  datatype Event =
    | Started(host: nat, to: int)
    | NoRoute(host: nat)
    | Delivered(host: nat, packet: Packet)

  // ---- what a run delivers ----------------------------------------------------------

  /** The replies of one answer, in delivery order. */
  ghost function Answers(hs: seq<nat>, p: Packet): seq<Event> {
    seq(|hs|, i requires 0 <= i < |hs| => Delivered(hs[i], p))
  }

  ghost function AnswerOf(ip: int, p: Packet): Packet { Reply(ToI32(ip), ToI32(p.src)) }

  /** Everything that happens when p comes in at host x: a request for x is
      answered on the spot, before the flood of the request goes on. */
  ghost function Arrival(net: Net, ips: seq<int>, x: nat, p: Packet): seq<Event>
    requires net.Valid() && LoopFree(net)
  {
    [Delivered(x, p)]
    + if p.Request? && x < |ips| && p.dst == ips[x] then Answers(Receivers(net, x), AnswerOf(ips[x], p)) else []
  }

  ghost function Arrivals(net: Net, ips: seq<int>, hs: seq<nat>, p: Packet): seq<Event>
    requires net.Valid() && LoopFree(net)
  {
    if hs == [] then [] else Arrival(net, ips, hs[0], p) + Arrivals(net, ips, hs[1..], p)
  }

  lemma ArrivalsStep(net: Net, ips: seq<int>, hs: seq<nat>, p: Packet)
    requires net.Valid() && LoopFree(net) && hs != []
    ensures Arrivals(net, ips, hs, p) == Arrival(net, ips, hs[0], p) + Arrivals(net, ips, hs[1..], p)
  {}

  lemma Regroup(a: seq<Event>, b: seq<Event>, c: seq<Event>)
    ensures a + b + c == a + (b + c)
  {}

  lemma {:induction false} ArrivalsConcat(net: Net, ips: seq<int>, a: seq<nat>, b: seq<nat>, p: Packet)
    requires net.Valid() && LoopFree(net)
    ensures Arrivals(net, ips, a + b, p) == Arrivals(net, ips, a, p) + Arrivals(net, ips, b, p)
  {
    if a == [] {
      assert a + b == b;
    } else {
      ArrivalsStep(net, ips, a, p);
      ArrivalsStep(net, ips, a + b, p);
      hide Arrival, Arrivals, LoopFree;
      assert (a + b)[1..] == a[1..] + b;
      ArrivalsConcat(net, ips, a[1..], b, p);
      Regroup(Arrival(net, ips, a[0], p), Arrivals(net, ips, a[1..], p), Arrivals(net, ips, b, p));
    }
  }

  lemma {:induction false} ReplyArrivals(net: Net, ips: seq<int>, hs: seq<nat>, p: Packet)
    requires net.Valid() && LoopFree(net) && p.Reply?
    ensures Arrivals(net, ips, hs, p) == Answers(hs, p)
  {
    if hs != [] {
      ReplyArrivals(net, ips, hs[1..], p);
      assert Answers(hs, p) == [Delivered(hs[0], p)] + Answers(hs[1..], p);
    }
  }

  lemma OneArrival(net: Net, ips: seq<int>, x: nat, p: Packet)
    requires net.Valid() && LoopFree(net)
    ensures Arrivals(net, ips, [x], p) == Arrival(net, ips, x, p)
  {
    assert [x][1..] == [];
    assert Arrivals(net, ips, [], p) == [];
  }

  // ---- messages ----------------------------------------------------------------------

  ghost function MessageOf(e: Event, h: nat): seq<Message> {
    if e.host != h then []
    else match e
      case Started(_, to) => [Sending(to)]
      case NoRoute(_) => [Unreachable]
      case Delivered(_, p) => if p.Reply? then [ReplyFrom(p.src)] else []
  }

  /** The messages of host h after the events t. */
  ghost function MessagesOf(t: seq<Event>, h: nat): seq<Message> {
    if t == [] then [] else MessageOf(t[0], h) + MessagesOf(t[1..], h)
  }

  lemma {:induction false} MessagesConcat(s: seq<Event>, t: seq<Event>, h: nat)
    ensures MessagesOf(s + t, h) == MessagesOf(s, h) + MessagesOf(t, h)
  {
    if s == [] {
      assert s + t == t;
    } else {
      assert (s + t)[1..] == s[1..] + t;
      MessagesConcat(s[1..], t, h);
    }
  }

  lemma MessagesSnoc(s: seq<Event>, e: Event, h: nat)
    ensures MessagesOf(s + [e], h) == MessagesOf(s, h) + MessageOf(e, h)
  {
    MessagesConcat(s, [e], h);
    assert [e][1..] == [] && MessagesOf([e], h) == MessageOf(e, h) + [];
  }

  // ---- the objects -------------------------------------------------------------------

  /** A DummyHost: its console is the list of messages. */
  class DummyHost {
    const ip: int
    var messages: seq<Message>

    constructor (ip: int)
      ensures this.ip == ip && messages == []
    {
      this.ip := ip;
      messages := [];
    }
  }

  /** A switch with n ports and no flow that matches a ping. */
  ghost predicate QuietSwitch(sw: FT.DummySwitch, n: nat)
    reads sw
  {
    && sw.Valid() && |sw.ports| == n
    && forall f, kind, port :: f in sw.added && kind != FT.Trace ==> !FT.Wants(f, kind, port)
  }

  lemma NoArrivals(net: Net, ips: seq<int>, p: Packet)
    requires net.Valid() && LoopFree(net)
    ensures Arrivals(net, ips, [], p) == []
  {}

  lemma FloodStart(net: Net, a: End)
    requires Ingress(net, a)
    ensures [] + FloodFrom(net, a, 1) == Flood(net, a)
  {}

  lemma FloodNext(net: Net, a: End, q: nat, done: seq<nat>)
    requires Ingress(net, a) && q <= Ports(net, a)
    ensures done + FloodFrom(net, a, q) == done + Out(net, a, q) + FloodFrom(net, a, q + 1)
  {
    hide Out, LoopFree;
    assert done + (Out(net, a, q) + FloodFrom(net, a, q + 1)) == done + Out(net, a, q) + FloodFrom(net, a, q + 1);
  }

  lemma FloodEnd(net: Net, a: End, done: seq<nat>)
    requires Ingress(net, a)
    ensures done + FloodFrom(net, a, Ports(net, a) + 1) == done
  {}

  /** The hosts reached across the wire at e. */
  ghost function Across(net: Net, e: End): seq<nat>
    requires net.Valid() && LoopFree(net) && e in net.wires
  {
    var b := net.wires[e];
    assert net.wires[b] == e;
    if b.Host? then (if e in net.disabled then [] else [b.id])
    else if e in net.disabled || b in net.disabled then []
    else Flood(net, b)
  }

  lemma HostAcross(net: Net, h: nat)
    requires net.Valid() && LoopFree(net) && Host(h) in net.wires
    ensures Across(net, Host(h)) == Receivers(net, h)
  {
    hide LoopFree, Flood;
  }

  lemma SubsetSize<T>(a: set<T>, b: set<T>)
    requires a <= b
    ensures |a| <= |b|
  {
    assert b == a + (b - a);
  }

  lemma ProperSubsetSize<T>(a: set<T>, b: set<T>)
    requires a < b
    ensures |a| < |b|
  {
    assert b == a + (b - a) && b - a != {};
  }

  /** The wired harness: who is plugged where does not change while a ping runs. */
  class Harness {
    const net: Net
    const hosts: seq<DummyHost>
    const switches: seq<FT.DummySwitch>
    ghost var trace: seq<Event>

    ghost predicate Wired() {
      && net.Valid() && LoopFree(net) && |hosts| == net.hosts && |switches| == |net.switches|
      && (forall i, j :: 0 <= i < j < |hosts| ==> hosts[i] != hosts[j])
    }

    /** The switch objects have the ports of the wiring, and their flows pass pings by. */
    ghost predicate Quiet()
      reads switches
    {
      && |switches| == |net.switches|
      && forall s :: 0 <= s < |switches| ==> QuietSwitch(switches[s], net.switches[s].ports)
    }

    ghost predicate Valid()
      reads this, hosts, switches
    {
      Wired() && Quiet() && forall h :: 0 <= h < |hosts| ==> hosts[h].messages == MessagesOf(trace, h)
    }

    ghost function Ips(): (ips: seq<int>)
      ensures |ips| == |hosts| && forall h :: 0 <= h < |hosts| ==> ips[h] == hosts[h].ip
    {
      seq(|hosts|, i requires 0 <= i < |hosts| => hosts[i].ip)
    }

    /** A harness with fresh hosts. */
    constructor (net: Net, hosts: seq<DummyHost>, switches: seq<FT.DummySwitch>)
      requires net.Valid() && LoopFree(net) && |hosts| == net.hosts && |switches| == |net.switches|
      requires forall i, j :: 0 <= i < j < |hosts| ==> hosts[i] != hosts[j]
      requires forall s :: 0 <= s < |switches| ==> QuietSwitch(switches[s], net.switches[s].ports)
      requires forall h :: h in hosts ==> h.messages == []
      ensures Valid() && trace == [] && this.net == net && this.hosts == hosts
    {
      this.net, this.hosts, this.switches := net, hosts, switches;
      trace := [];
    }

    /** The event e happens at its host, which logs m. */
    method Record(ghost e: Event, h: nat, m: seq<Message>)
      requires Valid() && h == e.host < |hosts| && m == MessageOf(e, h)
      modifies this, hosts
      ensures Valid() && trace == old(trace) + [e]
    {
      forall i | 0 <= i < |hosts| ensures MessagesOf(trace + [e], i) == MessagesOf(trace, i) + MessageOf(e, i) {
        MessagesSnoc(trace, e, i);
      }
      hosts[h].messages := hosts[h].messages + m;
      trace := trace + [e];
    }

    /** sendPingRequest (DummyHost.java:35-49). */
    method SendPingRequest(h: nat, dstIp: int)
      requires Valid() && h < |hosts|
      modifies this, hosts
      ensures Valid()
      ensures trace == old(trace) + [Started(h, dstIp)]
                     + if Host(h) !in net.wires then [NoRoute(h)]
                       else Arrivals(net, Ips(), Receivers(net, h), Request(ToI32(hosts[h].ip), ToI32(dstIp)))
    {
      Record(Started(h, dstIp), h, [Sending(dstIp)]);
      var p := Request(ToI32(hosts[h].ip), ToI32(dstIp));
      if Host(h) !in net.wires {
        Record(NoRoute(h), h, [Unreachable]);
        return;
      }
      BelowBound(net.wires[Host(h)]);
      HostAcross(net, h);
      hide Arrivals, Below, LoopFree, Receivers, Across, MessagesOf;
      Transmit(Host(h), p, Bound());
    }

    /** Larger than the number of ends below any port. */
    ghost function Bound(): nat { |net.wires.Keys| + 1 }

    lemma BelowBound(a: End)
      ensures |Below(net, a)| < Bound()
    {
      SubsetSize(Below(net, a), net.wires.Keys);
    }

    /** The wire at e carries p to the other side (Port.java:46-59). */
    method Transmit(e: End, p: Packet, ghost n: nat)
      requires Valid() && e in net.wires && e !in net.disabled
      requires net.wires[e].Port? && net.Open(net.wires[e]) ==> |Below(net, net.wires[e])| < n
      modifies this, hosts
      ensures Valid() && trace == old(trace) + Arrivals(net, Ips(), Across(net, e), p)
      decreases p.Rank(), n, 1
    {
      var b := net.wires[e];
      assert net.wires[b] == e;
      match b {
        case Host(x) =>
          OneArrival(net, Ips(), x, p);
          HostPacketIn(x, p, n);
        case Port(_, _) =>
          if b !in net.disabled {
            SwitchPacketIn(b, p);
          }
      }
    }

    /** packetIn of a switch (DummySwitch.java:147-169): no flow matches a ping, the
        controller drops it, and every other port but the ingress sends it on. */
    method SwitchPacketIn(a: End, p: Packet)
      requires Valid() && a.Port? && net.Open(a)
      modifies this, hosts
      ensures Valid() && trace == old(trace) + Arrivals(net, Ips(), Flood(net, a), p)
      decreases p.Rank(), |Below(net, a)|, 4
    {
      hide *;
      FloodReady(a, p);
      ScanFlows(a, p);
      var ports := net.switches[a.sw].ports;
      ghost var done: seq<nat> := [];
      for out := 1 to ports + 1
        invariant Valid() && Wired() && Ingress(net, a) && Progress(old(trace), done, a, out, p)
      {
        done := Round(a, out, p, old(trace), done);
      }
      ProgressEnds(old(trace), done, a, p);
    }

    /** Ports below q are done: they account for all events since start. */
    ghost predicate Progress(start: seq<Event>, done: seq<nat>, a: End, q: nat, p: Packet)
      requires Wired() && Ingress(net, a)
      reads this
    {
      trace == start + Arrivals(net, Ips(), done, p) && done + FloodFrom(net, a, q) == Flood(net, a)
    }

    lemma FloodReady(a: End, p: Packet)
      requires Valid() && a.Port? && net.Open(a)
      ensures Wired() && Ingress(net, a) && a.sw < |net.switches| && a.sw < |switches|
      ensures net.switches[a.sw].ports == Ports(net, a) && Progress(trace, [], a, 1, p)
    {
      assert net.IsEnd(a);
      FloodStart(net, a);
      NoArrivals(net, Ips(), p);
    }

    lemma ProgressEnds(start: seq<Event>, done: seq<nat>, a: End, p: Packet)
      requires Wired() && Ingress(net, a) && Progress(start, done, a, Ports(net, a) + 1, p)
      ensures trace == start + Arrivals(net, Ips(), Flood(net, a), p)
    {
      FloodEnd(net, a, done);
    }

    /** The flow loop of packetIn finds nothing for a ping, and the controller port the
        packet goes to next exists; the controller drops it. */
    method ScanFlows(a: End, p: Packet)
      requires Valid() && a.Port? && a.sw < |switches|
    {
      hide LoopFree, MessagesOf, FT.IsBest, FT.Wants;
      var sw := switches[a.sw];
      assert QuietSwitch(sw, net.switches[a.sw].ports) && net.switches[a.sw].Valid();
      var found, f := sw.Lookup(p.Kind(), a.num);
      assert !found;
      var conn := sw.GetPort(net.switches[a.sw].controller);
      assert conn.PortAt?;
    }

    /** One round of the flooding loop, counted from the events at its start. */
    method Round(a: End, out: nat, p: Packet, ghost start: seq<Event>, ghost done: seq<nat>)
      returns (ghost more: seq<nat>)
      requires Valid() && Ingress(net, a) && 1 <= out <= Ports(net, a) && Progress(start, done, a, out, p)
      modifies this, hosts
      ensures Valid() && Progress(start, more, a, out + 1, p)
      decreases p.Rank(), |Below(net, a)|, 3
    {
      FloodNext(net, a, out, done);
      ArrivalsConcat(net, Ips(), done, Out(net, a, out), p);
      Regroup(start, Arrivals(net, Ips(), done, p), Arrivals(net, Ips(), Out(net, a, out), p));
      hide Arrivals, FloodFrom, Out, Flood, Below, LoopFree, MessagesOf, Ips, Net.Valid;
      PortOut(a, out, p);
      more := done + Out(net, a, out);
    }

    method PortOut(a: End, out: nat, p: Packet)
      requires Valid() && a.Port? && net.Open(a) && 1 <= out <= Ports(net, a)
      modifies this, hosts
      ensures Valid() && trace == old(trace) + Arrivals(net, Ips(), Out(net, a, out), p)
      decreases p.Rank(), |Below(net, a)|, 2
    {
      assert net.IsEnd(a);
      NoArrivals(net, Ips(), p);
      if out != a.num && out != net.switches[a.sw].controller {
        var e := Port(a.sw, out);
        if e in net.wires && e !in net.disabled {
          StepDown(a, out);
          hide Arrivals, Out, Across, Below, LoopFree, MessagesOf;
          Transmit(e, p, |Below(net, a)|);
        }
      } else {
        assert Port(a.sw, net.switches[a.sw].controller) !in net.wires;
      }
    }

    lemma StepDown(a: End, out: nat)
      requires Wired() && a.Port? && net.Open(a) && out <= Ports(net, a) && out != a.num
      requires Port(a.sw, out) in net.wires && Port(a.sw, out) !in net.disabled
      ensures var b := net.wires[Port(a.sw, out)];
              && Across(net, Port(a.sw, out)) == Out(net, a, out)
              && (b.Port? && net.Open(b) ==> |Below(net, b)| < |Below(net, a)|)
    {
      var b := net.wires[Port(a.sw, out)];
      assert net.wires[b] == Port(a.sw, out);
      if net.Open(b) {
        LeavingIsStep(net, a, out);
        BelowShrinks(net, a, b);
        ProperSubsetSize(Below(net, b), Below(net, a));
      }
    }

    /** packetIn of a host (DummyHost.java:98-108). */
    method HostPacketIn(x: nat, p: Packet, ghost n: nat)
      requires Valid() && x < |hosts|
      modifies this, hosts
      ensures Valid() && trace == old(trace) + Arrival(net, Ips(), x, p)
      decreases p.Rank(), n, 0
    {
      hide Answers, Receivers, LoopFree, MessagesOf, Below;
      match p {
        case Request(src, dst) =>
          Record(Delivered(x, p), x, []);
          if dst == hosts[x].ip {
            SendPingReply(x, src);
          }
        case Reply(src, _) =>
          Record(Delivered(x, p), x, [ReplyFrom(src)]);
      }
    }

    /** sendPingReply (DummyHost.java:51-61). */
    method SendPingReply(x: nat, srcIp: int)
      requires Valid() && x < |hosts|
      modifies this, hosts
      ensures Valid()
      ensures trace == old(trace) + Answers(Receivers(net, x), Reply(ToI32(hosts[x].ip), ToI32(srcIp)))
      decreases 0, Bound(), 2
    {
      var p := Reply(ToI32(hosts[x].ip), ToI32(srcIp));
      ReplyArrivals(net, Ips(), Receivers(net, x), p);
      if Host(x) !in net.wires { return; }
      BelowBound(net.wires[Host(x)]);
      HostAcross(net, x);
      hide Arrivals, Answers, Below, LoopFree, Receivers, Across, MessagesOf;
      Transmit(Host(x), p, Bound());
    }
  }
}
