/** What a ping does on a loop-free wiring. */
module PingLaws {
  import opened Bytes
  import opened Wiring
  import opened Flooding
  import opened PingRun

  /** Addresses are Java longs; ping packets carry them as ints. */
  predicate Distinct(ips: seq<int>) {
    forall h, k :: 0 <= h < k < |ips| ==> ips[h] != ips[k]
  }

  predicate IsInt(v: int) { -0x8000_0000 <= v < 0x8000_0000 }

  lemma FitsInt(v: int)
    ensures ToI32(v) == v <==> IsInt(v)
    ensures IsInt(ToI32(v))
  {}

  ghost function IndexOf(ips: seq<int>, v: int): (a: nat)
    ensures a <= |ips| && (a < |ips| ==> ips[a] == v)
    ensures forall k :: 0 <= k < a ==> ips[k] != v
  {
    if ips == [] || ips[0] == v then 0 else 1 + IndexOf(ips[1..], v)
  }

  /** The host that takes a ping to this address for its own: packetIn compares its
      long with the int in the packet.  |ips| stands for no host. */
  ghost function Answerer(ips: seq<int>, to: int): (a: nat)
    ensures a <= |ips|
  {
    IndexOf(ips, ToI32(to))
  }

  /** Host a, if a is one, and no other host has the address v. */
  predicate Only(ips: seq<int>, v: int, a: nat) {
    a <= |ips| && forall k :: 0 <= k < |ips| ==> (ips[k] == v <==> k == a)
  }

  lemma OnlyAnswerer(ips: seq<int>, to: int)
    requires Distinct(ips)
    ensures Only(ips, ToI32(to), Answerer(ips, to))
  {
    var a := Answerer(ips, to);
    forall k | 0 <= k < |ips| ensures ips[k] == ToI32(to) <==> k == a {
      assert k < a || k == a || ips[a] != ips[k];
    }
  }

  /** The addressed host is the one that answers exactly when its address is an int. */
  lemma AddressedExactly(ips: seq<int>, d: nat)
    requires Distinct(ips) && d < |ips|
    ensures Answerer(ips, ips[d]) == d <==> IsInt(ips[d])
  {
    OnlyAnswerer(ips, ips[d]);
    FitsInt(ips[d]);
  }

  // ---- counting -----------------------------------------------------------------------

  lemma {:induction false} AnswersCount(hs: seq<nat>, r: Packet, q: Packet, h: nat)
    ensures multiset(Answers(hs, r))[Delivered(h, q)] == if q == r then multiset(hs)[h] else 0
  {
    if hs != [] {
      AnswersCount(hs[1..], r, q, h);
      assert Answers(hs, r) == [Delivered(hs[0], r)] + Answers(hs[1..], r);
      assert hs == [hs[0]] + hs[1..];
    }
  }

  lemma ArrivalCount(net: Net, ips: seq<int>, x: nat, p: Packet, h: nat)
    requires net.Valid() && LoopFree(net) && p.Request?
    ensures multiset(Arrival(net, ips, x, p))[Delivered(h, p)] == if x == h then 1 else 0
  {
    hide LoopFree, Receivers, Answers;
    if x < |ips| { AnswersCount(Receivers(net, x), AnswerOf(ips[x], p), p, h); }
  }

  /** Every arrival of the request is one event at its host. */
  lemma {:induction false} RequestCount(net: Net, ips: seq<int>, hs: seq<nat>, p: Packet, h: nat)
    requires net.Valid() && LoopFree(net) && p.Request?
    ensures multiset(Arrivals(net, ips, hs, p))[Delivered(h, p)] == multiset(hs)[h]
  {
    if hs != [] {
      var x := hs[0];
      RequestCount(net, ips, hs[1..], p, h);
      ArrivalsStep(net, ips, hs, p);
      assert hs == [x] + hs[1..];
      ArrivalCount(net, ips, x, p, h);
      hide LoopFree, Arrivals, Arrival, Receivers, Answers;
    }
  }

  /** Only the host with the address in the packet answers. */
  lemma ArrivalAt(net: Net, ips: seq<int>, x: nat, p: Packet, a: nat)
    requires net.Valid() && LoopFree(net) && p.Request? && Only(ips, p.dst, a)
    ensures Arrival(net, ips, x, p)
         == [Delivered(x, p)] + if x == a < |ips| then Answers(Receivers(net, a), Reply(p.dst, p.src)) else []
  {
    FitsInt(p.dst);
    FitsInt(p.src);
    hide ToI32, LoopFree, Receivers, Answers;
  }

  /** The answer of host a arrives where a's packets arrive, if a gets the request. */
  lemma {:induction false} ReplyCount(net: Net, ips: seq<int>, hs: seq<nat>, p: Packet, a: nat, h: nat)
    requires net.Valid() && LoopFree(net) && p.Request? && Only(ips, p.dst, a) && multiset(hs)[a] <= 1
    ensures multiset(Arrivals(net, ips, hs, p))[Delivered(h, Reply(p.dst, p.src))]
         == if a < |ips| && a in hs then multiset(Receivers(net, a))[h] else 0
  {
    if hs != [] {
      var x, r := hs[0], Reply(p.dst, p.src);
      assert hs == [x] + hs[1..];
      ReplyCount(net, ips, hs[1..], p, a, h);
      ArrivalsStep(net, ips, hs, p);
      ArrivalAt(net, ips, x, p, a);
      hide LoopFree, Arrivals, Arrival, Receivers, Answers;
      AnswersCount(Receivers(net, a), r, r, h);
    }
  }

  /** Nothing but the request and the answer of a ever arrives. */
  lemma {:induction false} OnlyThese(net: Net, ips: seq<int>, hs: seq<nat>, p: Packet, a: nat, e: Event)
    requires net.Valid() && LoopFree(net) && p.Request? && Only(ips, p.dst, a)
    requires e in Arrivals(net, ips, hs, p)
    ensures e.Delivered? && (e.packet == p || (a < |ips| && e.packet == Reply(p.dst, p.src)))
  {
    var x := hs[0];
    ArrivalsStep(net, ips, hs, p);
    ArrivalAt(net, ips, x, p, a);
    hide LoopFree, Arrivals, Arrival, Receivers, Only;
    if e !in Arrival(net, ips, x, p) { OnlyThese(net, ips, hs[1..], p, a, e); }
  }

  // ---- messages -------------------------------------------------------------------------

  ghost function Repeated(m: Message, n: nat): seq<Message> { seq(n, _ => m) }

  lemma {:induction false} AnswerMessages(hs: seq<nat>, r: Packet, g: nat)
    requires r.Reply?
    ensures MessagesOf(Answers(hs, r), g) == Repeated(ReplyFrom(r.src), multiset(hs)[g])
  {
    if hs != [] {
      AnswerMessages(hs[1..], r, g);
      assert Answers(hs, r) == [Delivered(hs[0], r)] + Answers(hs[1..], r);
      assert Answers(hs, r)[1..] == Answers(hs[1..], r);
      assert hs == [hs[0]] + hs[1..];
    }
  }

  lemma OneDelivery(x: nat, p: Packet, g: nat)
    requires p.Request?
    ensures MessagesOf([Delivered(x, p)], g) == []
  {
    assert [Delivered(x, p)][1..] == [];
  }

  lemma NoMessages(g: nat)
    ensures MessagesOf([], g) == []
  {}

  lemma HeadMessages(net: Net, ips: seq<int>, x: nat, p: Packet, a: nat, g: nat)
    requires net.Valid() && LoopFree(net) && p.Request? && Only(ips, p.dst, a)
    ensures MessagesOf(Arrival(net, ips, x, p), g)
         == if x == a < |ips| then Repeated(ReplyFrom(p.dst), multiset(Receivers(net, a))[g]) else []
  {
    var tail := if x == a < |ips| then Answers(Receivers(net, a), Reply(p.dst, p.src)) else [];
    ArrivalAt(net, ips, x, p, a);
    OneDelivery(x, p, g);
    NoMessages(g);
    AnswerMessages(Receivers(net, a), Reply(p.dst, p.src), g);
    hide LoopFree, Arrival, Receivers, Answers, MessagesOf, Repeated, ToI32, Net.Valid, Only;
    MessagesConcat([Delivered(x, p)], tail, g);
  }

  /** The messages of g from all arrivals are those of the answer of a. */
  lemma {:induction false} ArrivalMessages(net: Net, ips: seq<int>, hs: seq<nat>, p: Packet, a: nat, g: nat)
    requires net.Valid() && LoopFree(net) && p.Request? && Only(ips, p.dst, a) && multiset(hs)[a] <= 1
    ensures MessagesOf(Arrivals(net, ips, hs, p), g)
         == if a < |ips| && a in hs then Repeated(ReplyFrom(p.dst), multiset(Receivers(net, a))[g]) else []
  {
    hide LoopFree, Net.Valid, Arrivals, Arrival, MessagesOf, Receivers, Only, ToI32;
    if hs != [] {
      var x := hs[0];
      assert hs == [x] + hs[1..];
      ArrivalMessages(net, ips, hs[1..], p, a, g);
      ArrivalsStep(net, ips, hs, p);
      HeadMessages(net, ips, x, p, a, g);
      hide *;
      MessagesConcat(Arrival(net, ips, x, p), Arrivals(net, ips, hs[1..], p), g);
    } else {
      NoArrivals(net, ips, p);
      NoMessages(g);
    }
  }

  // ---- the laws ---------------------------------------------------------------------------

  /** The deliveries of a ping from g to an address. */
  ghost function Ping(net: Net, ips: seq<int>, g: nat, to: int): seq<Event>
    requires net.Valid() && LoopFree(net) && g < |ips|
  {
    Arrivals(net, ips, Receivers(net, g), Request(ToI32(ips[g]), ToI32(to)))
  }

  /** Some host answers the ping, and it is connected to the sender. */
  ghost predicate Answered(net: Net, ips: seq<int>, g: nat, to: int) {
    var a := Answerer(ips, to);
    a < |ips| && Connected(net, g, a)
  }

  /** How often the request and the reply of a ping from g are delivered to h. */
  ghost predicate DeliveredOnce(net: Net, ips: seq<int>, g: nat, to: int, t: seq<Event>, h: nat)
    requires g < |ips|
  {
    && multiset(t)[Delivered(h, Request(ToI32(ips[g]), ToI32(to)))] == (if Connected(net, g, h) then 1 else 0)
    && multiset(t)[Delivered(h, Reply(ToI32(to), ToI32(ips[g])))]
       == (if Answered(net, ips, g, to) && Connected(net, Answerer(ips, to), h) then 1 else 0)
  }

  /** For all addresses: the request reaches every connected host exactly once; when the
      host that answers is connected, its reply reaches every host connected to it exactly
      once; neither returns to the host that sent it; and there is nothing else. */
  lemma PingExactlyOnce(net: Net, ips: seq<int>, g: nat, to: int, h: nat)
    requires net.Valid() && LoopFree(net) && Distinct(ips) && g < |ips|
    ensures DeliveredOnce(net, ips, g, to, Ping(net, ips, g, to), h) && !Connected(net, h, h)
    ensures forall e :: e in Ping(net, ips, g, to) ==>
              e.Delivered? && (e.packet == Request(ToI32(ips[g]), ToI32(to))
                               || (Answerer(ips, to) < |ips| && e.packet == Reply(ToI32(to), ToI32(ips[g]))))
  {
    OnlyAnswerer(ips, to);
    hide LoopFree, Connected, Arrivals, Receivers, ToI32, Net.Valid, Answerer, Only;
    var request, a, hs := Request(ToI32(ips[g]), ToI32(to)), Answerer(ips, to), Receivers(net, g);
    ReceiversOnce(net, g, h);
    ReceiversOnce(net, g, a);
    ReceiversOnce(net, a, h);
    ReceiversOnce(net, h, h);
    RequestCount(net, ips, hs, request, h);
    ReplyCount(net, ips, hs, request, a, h);
    forall e | e in Ping(net, ips, g, to)
      ensures e.Delivered? && (e.packet == request || (a < |ips| && e.packet == Reply(request.dst, request.src)))
    {
      OnlyThese(net, ips, hs, request, a, e);
    }
  }

  /** The sender logs exactly one reply when a connected host answers, and none otherwise. */
  lemma SenderLogsOneReply(net: Net, ips: seq<int>, g: nat, to: int)
    requires net.Valid() && LoopFree(net) && Distinct(ips) && g < |ips|
    ensures MessagesOf(Ping(net, ips, g, to), g) == if Answered(net, ips, g, to) then [ReplyFrom(ToI32(to))] else []
  {
    var a := Answerer(ips, to);
    OnlyAnswerer(ips, to);
    ReceiversOnce(net, g, a);
    ReceiversOnce(net, a, g);
    if Connected(net, g, a) { ConnectedBack(net, g, a); }
    hide LoopFree, Connected, Arrivals, Receivers, ToI32, MessagesOf, Net.Valid, Answerer, Only;
    ArrivalMessages(net, ips, Receivers(net, g), Request(ToI32(ips[g]), ToI32(to)), a, g);
    assert Repeated(ReplyFrom(ToI32(to)), 1) == [ReplyFrom(ToI32(to))];
  }

  /** A ping to host d is answered with the address of d, once, exactly when d is
      connected to the sender and its address is an int. */
  lemma AnsweredExactly(net: Net, ips: seq<int>, g: nat, d: nat)
    requires net.Valid() && LoopFree(net) && Distinct(ips) && g < |ips| && d < |ips|
    ensures (exists m :: m in MessagesOf(Ping(net, ips, g, ips[d]), g) && m.ReplyFrom? && m.src == ips[d])
       <==> Connected(net, g, d) && IsInt(ips[d])
    ensures Connected(net, g, d) && IsInt(ips[d]) ==>
              MessagesOf(Ping(net, ips, g, ips[d]), g) == [ReplyFrom(ips[d])]
  {
    SenderLogsOneReply(net, ips, g, ips[d]);
    AddressedExactly(ips, d);
    FitsInt(ips[d]);
    hide LoopFree, Connected, Ping, ToI32, MessagesOf, Net.Valid, Answerer, Distinct;
    if Connected(net, g, d) && IsInt(ips[d]) {
      assert ReplyFrom(ips[d]) in MessagesOf(Ping(net, ips, g, ips[d]), g);
    }
  }

  lemma LargeIsNobody()
    ensures Answerer([1, 3232235777], 3232235777) == 2
  {
    assert ToI32(3232235777) == -1062731519;
    var a := IndexOf([1, 3232235777], -1062731519);
  }

  /** A failing input: 192.168.1.1 is no int, so that host never answers, on any wiring. */
  lemma LargeAddressIsSilent(net: Net)
    requires net.Valid() && LoopFree(net)
    ensures MessagesOf(Ping(net, [1, 3232235777], 0, 3232235777), 0) == []
  {
    LargeIsNobody();
    hide LoopFree, Connected, Ping, ToI32, MessagesOf, Net.Valid, Answerer;
    SenderLogsOneReply(net, [1, 3232235777], 0, 3232235777);
  }

  lemma NoWayNoPing(net: Net, ips: seq<int>, g: nat, to: int)
    requires net.Valid() && LoopFree(net) && g < |ips|
    ensures Host(g) !in net.wires ==> Ping(net, ips, g, to) == [] && !Answered(net, ips, g, to)
  {}

  /** Before the deliveries come events that deliver nothing. */
  lemma HeadDelivers(net: Net, ips: seq<int>, g: nat, to: int, head: seq<Event>, h: nat)
    requires net.Valid() && LoopFree(net) && Distinct(ips) && g < |ips|
    requires forall e :: e in head ==> !e.Delivered?
    ensures DeliveredOnce(net, ips, g, to, head + Ping(net, ips, g, to), h)
  {
    PingExactlyOnce(net, ips, g, to, h);
    hide LoopFree, Connected, Ping, Net.Valid, Distinct, ToI32, Answered, Answerer;
    var t := Ping(net, ips, g, to);
    var request := Delivered(h, Request(ToI32(ips[g]), ToI32(to)));
    var reply := Delivered(h, Reply(ToI32(to), ToI32(ips[g])));
    assert multiset(head + t) == multiset(head) + multiset(t);
    assert request !in head && reply !in head;
  }

  lemma NewPart(was: seq<Event>, e: Event, x: Event, t: seq<Event>, now: seq<Event>, wired: bool)
    requires now == was + [e] + if wired then t else [x]
    requires !wired ==> t == []
    ensures |was| <= |now| && now[..|was|] == was
    ensures now[|was|..] == (if wired then [e] else [e, x]) + t
  {}

  lemma TraceDelivers(net: Net, ips: seq<int>, g: nat, to: int, was: seq<Event>, now: seq<Event>)
    requires net.Valid() && LoopFree(net) && Distinct(ips) && g < |ips|
    requires now == was + [Started(g, to)]
                  + if Host(g) !in net.wires then [NoRoute(g)]
                    else Arrivals(net, ips, Receivers(net, g), Request(ToI32(ips[g]), ToI32(to)))
    ensures |was| <= |now| && now[..|was|] == was
    ensures forall h: nat :: DeliveredOnce(net, ips, g, to, now[|was|..], h)
  {
    NoWayNoPing(net, ips, g, to);
    var t, wired := Ping(net, ips, g, to), Host(g) in net.wires;
    assert wired ==> t == Arrivals(net, ips, Receivers(net, g), Request(ToI32(ips[g]), ToI32(to)));
    hide *;
    var head := if wired then [Started(g, to)] else [Started(g, to), NoRoute(g)];
    NewPart(was, Started(g, to), NoRoute(g), t, now, wired);
    forall h: nat ensures DeliveredOnce(net, ips, g, to, now[|was|..], h) {
      HeadDelivers(net, ips, g, to, head, h);
    }
  }

  /** On the objects: whatever happened before, a ping delivers its request once to each
      host connected to the sender, and the reply once to each host connected to the one
      that answers. */
  method PingDelivers(w: Harness, g: nat, to: int)
    requires w.Valid() && Distinct(w.Ips()) && g < |w.hosts|
    modifies w, w.hosts
    ensures w.Valid() && |old(w.trace)| <= |w.trace| && w.trace[..|old(w.trace)|] == old(w.trace)
    ensures forall h: nat :: DeliveredOnce(w.net, w.Ips(), g, to, w.trace[|old(w.trace)|..], h)
  {
    ghost var ips, was := w.Ips(), w.trace;
    w.SendPingRequest(g, to);
    hide *;
    TraceDelivers(w.net, ips, g, to, was, w.trace);
  }

  /** What a ping from g writes on the console of g. */
  ghost function Console(net: Net, ips: seq<int>, g: nat, to: int): seq<Message> {
    [Sending(to)] + if Host(g) !in net.wires then [Unreachable]
                    else if Answered(net, ips, g, to) then [ReplyFrom(ToI32(to))] else []
  }

  lemma ConsoleParts(net: Net, ips: seq<int>, g: nat, to: int)
    ensures Console(net, ips, g, to)
         == MessageOf(Started(g, to), g)
          + if Host(g) !in net.wires then MessageOf(NoRoute(g), g)
            else if Answered(net, ips, g, to) then [ReplyFrom(ToI32(to))] else []
  {
    hide Answered, ToI32;
  }

  lemma Joined<T>(a: seq<T>, b: seq<T>, c: seq<T>)
    ensures a + b + c == a + (b + c)
  {}

  lemma ConsoleIs(net: Net, ips: seq<int>, g: nat, to: int, was: seq<Event>, now: seq<Event>)
    requires net.Valid() && LoopFree(net) && Distinct(ips) && g < |ips|
    requires now == was + [Started(g, to)] + if Host(g) !in net.wires then [NoRoute(g)] else Ping(net, ips, g, to)
    ensures MessagesOf(now, g) == MessagesOf(was, g) + Console(net, ips, g, to)
  {
    SenderLogsOneReply(net, ips, g, to);
    hide *;
    var s := was + [Started(g, to)];
    MessagesSnoc(was, Started(g, to), g);
    if Host(g) in net.wires {
      MessagesConcat(s, Ping(net, ips, g, to), g);
    } else {
      MessagesSnoc(s, NoRoute(g), g);
    }
    ConsoleParts(net, ips, g, to);
    var rest := if Host(g) in net.wires then MessagesOf(Ping(net, ips, g, to), g) else MessageOf(NoRoute(g), g);
    Joined(MessagesOf(was, g), MessageOf(Started(g, to), g), rest);
  }

  lemma ConsoleOfInt(net: Net, ips: seq<int>, g: nat, d: nat)
    requires Distinct(ips) && d < |ips| && IsInt(ips[d]) && Connected(net, g, d)
    ensures Console(net, ips, g, ips[d]) == [Sending(ips[d]), ReplyFrom(ips[d])]
  {
    AddressedExactly(ips, d);
    FitsInt(ips[d]);
  }

  /** On the objects: the console of the sender gains exactly these messages, for all
      addresses; for a connected host with an int address they are the two that the
      repository's tests expect. */
  method PingIsAnswered(w: Harness, g: nat, to: int)
    requires w.Valid() && Distinct(w.Ips()) && g < |w.hosts|
    modifies w, w.hosts
    ensures w.Valid() && w.hosts[g].messages == old(w.hosts[g].messages) + Console(w.net, w.Ips(), g, to)
    ensures forall d :: 0 <= d < |w.hosts| && w.hosts[d].ip == to && IsInt(to) && Connected(w.net, g, d) ==>
              w.hosts[g].messages == old(w.hosts[g].messages) + [Sending(to), ReplyFrom(to)]
  {
    ghost var ips, was := w.Ips(), w.trace;
    w.SendPingRequest(g, to);
    assert w.hosts[g].messages == MessagesOf(w.trace, g);
    hide LoopFree, MessagesOf, Arrivals, Receivers, Connected, Console, Answered, Net.Valid, ToI32;
    ConsoleIs(w.net, ips, g, to, was, w.trace);
    forall d | 0 <= d < |w.hosts| && w.hosts[d].ip == to && IsInt(to) && Connected(w.net, g, d)
      ensures Console(w.net, ips, g, to) == [Sending(to), ReplyFrom(to)]
    {
      ConsoleOfInt(w.net, ips, g, d);
    }
  }
}
