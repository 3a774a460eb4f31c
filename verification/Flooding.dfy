/** Where a flooded packet goes, and that it gets to every host exactly once. */
module Flooding {
  import opened Wiring

  /** The ends below a: everything a packet that came in at a can still come in at. */
  ghost function Below(net: Net, a: End): set<End> {
    set b | b in net.wires && Reaches(net, a, b)
  }

  lemma StepReaches(net: Net, a: End, b: End)
    requires Step(net, a, b)
    ensures Reaches(net, a, b)
  {
    var w := [a, b];
    assert Walk(net, w);
  }

  lemma ReachesFurther(net: Net, a: End, b: End, c: End)
    requires Step(net, a, b) && Reaches(net, b, c)
    ensures Reaches(net, a, c)
  {
    var w: seq<End> :| Walk(net, w) && |w| >= 2 && w[0] == b && w[|w| - 1] == c;
    assert Walk(net, [a]);
    WalkJoin(net, [a], w);
    var u := [a] + w;
    assert u[0] == a && u[|u| - 1] == c;
  }

  lemma BelowShrinks(net: Net, a: End, b: End)
    requires net.Valid() && LoopFree(net) && Step(net, a, b)
    ensures Below(net, b) < Below(net, a)
  {
    StepReaches(net, a, b);
    forall c | c in Below(net, b) ensures c in Below(net, a) { ReachesFurther(net, a, b, c); }
    assert b in Below(net, a) && b !in Below(net, b);
  }

  // ---- flooding ------------------------------------------------------------------

  /** An end a packet can come in at. */
  ghost predicate Ingress(net: Net, a: End) {
    net.Valid() && LoopFree(net) && a.Port? && net.Open(a)
  }

  /** A packet that came in at a leaves by port q of the same switch. */
  predicate Leaves(net: Net, a: End, q: nat)
    requires a.Port?
  {
    q != a.num && Port(a.sw, q) in net.wires && net.Open(Port(a.sw, q))
  }

  lemma LeavingIsStep(net: Net, a: End, q: nat)
    requires Ingress(net, a) && Leaves(net, a, q)
    ensures Port(a.sw, q) in net.wires && Step(net, a, net.wires[Port(a.sw, q)])
    ensures net.Open(net.wires[Port(a.sw, q)])
  {
    assert net.wires[net.wires[Port(a.sw, q)]] == Port(a.sw, q);
  }

  ghost function Ports(net: Net, a: End): nat
    requires Ingress(net, a)
  {
    assert net.IsEnd(a);
    net.switches[a.sw].ports
  }

  /** The hosts a packet reaches through port q. */
  ghost function Out(net: Net, a: End, q: nat): seq<nat>
    requires Ingress(net, a) && q <= Ports(net, a)
    decreases Below(net, a), Ports(net, a) - q
  {
    if Leaves(net, a, q) then
      LeavingIsStep(net, a, q);
      var b := net.wires[Port(a.sw, q)];
      if b.Host? then [b.id] else BelowShrinks(net, a, b); Flood(net, b)
    else []
  }

  /** The hosts a packet reaches from ports q.. of the switch it came in at. */
  ghost function FloodFrom(net: Net, a: End, q: nat): seq<nat>
    requires Ingress(net, a)
    decreases Below(net, a), Ports(net, a) + 1 - q
  {
    if q > Ports(net, a) then []
    else Out(net, a, q) + FloodFrom(net, a, q + 1)
  }

  /** The hosts a packet reaches that came in at a, in the order it reaches them. */
  ghost function Flood(net: Net, a: End): seq<nat>
    requires Ingress(net, a)
    decreases Below(net, a), Ports(net, a) + 2
  {
    FloodFrom(net, a, 1)
  }

  // ---- exactly once ----------------------------------------------------------------

  /** Host h is reached through port q. */
  ghost predicate Via(net: Net, a: End, q: nat, h: nat)
    requires a.Port?
  {
    Leaves(net, a, q) &&
    var b := net.wires[Port(a.sw, q)]; b == Host(h) || Reaches(net, b, Host(h))
  }

  lemma ViaWalk(net: Net, a: End, q: nat, h: nat) returns (w: seq<End>)
    requires Ingress(net, a) && Via(net, a, q, h)
    ensures Walk(net, w) && w[0] == net.wires[Port(a.sw, q)] && w[|w| - 1] == Host(h)
  {
    LeavingIsStep(net, a, q);
    var b := net.wires[Port(a.sw, q)];
    if b == Host(h) {
      w := [b];
    } else {
      w :| Walk(net, w) && |w| >= 2 && w[0] == b && w[|w| - 1] == Host(h);
    }
  }

  /** A host is reached through one port only. */
  lemma OnePort(net: Net, a: End, q: nat, r: nat, h: nat)
    requires Ingress(net, a) && q != r && Via(net, a, q, h)
    ensures !Via(net, a, r, h)
  {
    if Via(net, a, r, h) {
      var w := ViaWalk(net, a, q, h);
      var v := ViaWalk(net, a, r, h);
      var b, c := Port(a.sw, q), Port(a.sw, r);
      assert net.wires[net.wires[b]] == b && net.wires[net.wires[c]] == c;
      WalksDiverge(net, w, v);
    }
  }

  lemma ReachesVia(net: Net, a: End, h: nat)
    requires Ingress(net, a)
    ensures Reaches(net, a, Host(h)) <==> exists q :: 1 <= q <= Ports(net, a) && Via(net, a, q, h)
  {
    if Reaches(net, a, Host(h)) {
      var w: seq<End> :| Walk(net, w) && |w| >= 2 && w[0] == a && w[|w| - 1] == Host(h);
      assert Step(net, w[0], w[0 + 1]);
      var e := net.wires[w[1]];
      assert net.IsEnd(e) && net.wires[e] == w[1];
      if |w| > 2 {
        WalkPart(net, w, 1, |w|);
        assert w[1..][0] == w[1] && w[1..][|w| - 2] == Host(h);
      }
      assert Via(net, a, e.num, h);
    }
    forall q | 1 <= q <= Ports(net, a) && Via(net, a, q, h) ensures Reaches(net, a, Host(h)) {
      LeavingIsStep(net, a, q);
      var b := net.wires[Port(a.sw, q)];
      if b == Host(h) { StepReaches(net, a, b); } else { ReachesFurther(net, a, b, Host(h)); }
    }
  }

  lemma FirstStep(net: Net, w: seq<End>)
    requires Walk(net, w) && |w| >= 2
    ensures Step(net, w[0], w[1])
  {
    assert Step(net, w[0], w[0 + 1]);
  }

  /** Nothing is reached from a host. */
  lemma NoWayOut(net: Net, a: End, b: End)
    requires a.Host?
    ensures !Reaches(net, a, b)
  {
    forall w: seq<End> | Walk(net, w) && |w| >= 2 ensures w[0] != a {
      FirstStep(net, w);
    }
  }

  lemma {:induction false} OutOnce(net: Net, a: End, q: nat, h: nat)
    requires Ingress(net, a) && q <= Ports(net, a)
    ensures multiset(Out(net, a, q))[h] == if Via(net, a, q, h) then 1 else 0
    decreases Below(net, a), Ports(net, a) - q
  {
    if Leaves(net, a, q) {
      LeavingIsStep(net, a, q);
      var b := net.wires[Port(a.sw, q)];
      if b.Port? {
        BelowShrinks(net, a, b);
        FloodOnce(net, b, h);
      } else {
        NoWayOut(net, b, Host(h));
      }
    }
  }

  /** How often the flood from ports q.. reaches h: once if it does at all. */
  lemma {:induction false} FloodFromOnce(net: Net, a: End, q: nat, h: nat)
    requires Ingress(net, a)
    ensures multiset(FloodFrom(net, a, q))[h]
         == if exists r :: q <= r <= Ports(net, a) && Via(net, a, r, h) then 1 else 0
    decreases Below(net, a), Ports(net, a) + 1 - q
  {
    if q <= Ports(net, a) {
      OutOnce(net, a, q, h);
      FloodFromOnce(net, a, q + 1, h);
      if Via(net, a, q, h) {
        forall r | q + 1 <= r <= Ports(net, a) ensures !Via(net, a, r, h) { OnePort(net, a, q, r, h); }
      }
    }
  }

  /** The flood reaches every host a walk leads to exactly once, and no other. */
  lemma {:induction false} FloodOnce(net: Net, a: End, h: nat)
    requires Ingress(net, a)
    ensures multiset(Flood(net, a))[h] == if Reaches(net, a, Host(h)) then 1 else 0
    decreases Below(net, a), Ports(net, a) + 2
  {
    FloodFromOnce(net, a, 1, h);
    ReachesVia(net, a, h);
  }

  // ---- from host to host -------------------------------------------------------------

  /** Host h can be reached from host g: some walk that starts behind the wire of
      g ends there. */
  ghost predicate Connected(net: Net, g: nat, h: nat) {
    Host(g) in net.wires &&
    exists w: seq<End> :: Walk(net, w) && w[0] == net.wires[Host(g)] && w[|w| - 1] == Host(h)
  }

  /** The hosts that receive what host g sends, in order. */
  ghost function Receivers(net: Net, g: nat): seq<nat>
    requires net.Valid() && LoopFree(net)
  {
    if Host(g) !in net.wires then []
    else
      var b := net.wires[Host(g)];
      assert net.wires[b] == Host(g);
      if b.Host? then [b.id]
      else if b in net.disabled then []
      else Flood(net, b)
  }

  lemma WalkOrReach(net: Net, b: End, h: nat)
    ensures (exists w: seq<End> :: Walk(net, w) && w[0] == b && w[|w| - 1] == Host(h))
       <==> (b == Host(h) && net.Open(b)) || Reaches(net, b, Host(h))
    ensures Reaches(net, b, Host(h)) ==> net.Open(b)
  {
    if b == Host(h) && net.Open(b) { assert Walk(net, [b]); }
    forall w: seq<End> | Walk(net, w) && w[0] == b && w[|w| - 1] == Host(h)
      ensures (b == Host(h) && net.Open(b)) || Reaches(net, b, Host(h))
    {
      if |w| >= 2 { assert Reaches(net, b, Host(h)); }
    }
  }

  /** Exactly once: every connected host receives what g sends one time, every
      other host never, and g itself never. */
  lemma ReceiversOnce(net: Net, g: nat, h: nat)
    requires net.Valid() && LoopFree(net)
    ensures multiset(Receivers(net, g))[h] == if Connected(net, g, h) then 1 else 0
    ensures !Connected(net, g, g)
  {
    if Host(g) in net.wires {
      var b := net.wires[Host(g)];
      assert net.wires[b] == Host(g);
      if b.Host? {
        NoWayOut(net, b, Host(h));
        if b == Host(h) { assert Walk(net, [b]); }
      } else if b !in net.disabled {
        FloodOnce(net, b, h);
      }
      WalkOrReach(net, b, h);
      if Connected(net, g, g) {
        var w: seq<End> :| Walk(net, w) && w[0] == b && w[|w| - 1] == Host(g);
        NoReturn(net, w);
      }
    }
  }

  /** Connection is mutual. */
  lemma ConnectedBack(net: Net, g: nat, h: nat)
    requires net.Valid() && Connected(net, g, h)
    ensures Connected(net, h, g)
  {
    var w: seq<End> :| Walk(net, w) && w[0] == net.wires[Host(g)] && w[|w| - 1] == Host(h);
    WalkBack(net, w);
    var v := Back(net, w);
    WalkOpen(net, w, |w| - 1);
    assert v[0] == net.wires[Host(h)] && v[|v| - 1] == net.wires[w[0]] == Host(g);
  }

  // ---- connection in the plain sense ---------------------------------------------------

  /** e is plugged in, and neither side of its wire is switched off. */
  predicate Passes(net: Net, e: End) { e in net.wires && e !in net.disabled && net.wires[e] !in net.disabled }

  /** A hop through a switch that may also turn back. */
  predicate Hop(net: Net, a: End, b: End) {
    && Passes(net, a) && Passes(net, b) && a.Port?
    && var e := net.wires[b]; e.Port? && e.sw == a.sw
  }

  ghost predicate Path(net: Net, w: seq<End>) {
    && |w| > 0 && Passes(net, w[0])
    && forall i :: 0 <= i < |w| - 1 ==> Hop(net, w[i], w[i + 1])
  }

  /** A packet that came in at a goes straight back out of a and comes in at b. */
  predicate TurnsBack(net: Net, a: End, b: End) { b in net.wires && net.wires[b] == a }

  lemma CutBack(net: Net, w: seq<End>, i: nat)
    requires net.Valid() && Path(net, w) && 0 < i && i + 2 < |w| && TurnsBack(net, w[i], w[i + 1])
    ensures Path(net, w[..i] + w[i + 2..])
  {
    var v := w[..i] + w[i + 2..];
    forall k | 0 <= k < |v| - 1 ensures Hop(net, v[k], v[k + 1]) {
      if k < i - 1 {
        assert Hop(net, w[k], w[k + 1]);
      } else if k >= i {
        assert Hop(net, w[k + 2], w[k + 2 + 1]);
      } else {
        assert Hop(net, w[i - 1], w[i - 1 + 1]) && Hop(net, w[i], w[i + 1]) && Hop(net, w[i + 1], w[i + 1 + 1]);
        assert net.wires[net.wires[w[i + 1]]] == w[i + 1];
      }
    }
  }

  /** Hosts joined by any path of open wires are connected in the sense above:
      cutting out the places where the path turns back leaves a walk. */
  lemma {:induction false} PathConnects(net: Net, g: nat, h: nat, w: seq<End>)
    requires net.Valid() && g != h && Host(g) in net.wires
    requires Path(net, w) && w[0] == net.wires[Host(g)] && w[|w| - 1] == Host(h)
    ensures Connected(net, g, h)
    decreases |w|
  {
    if i :| 0 <= i < |w| - 1 && TurnsBack(net, w[i], w[i + 1]) {
      assert Hop(net, w[i], w[i + 1]);
      assert net.wires[net.wires[w[i + 1]]] == w[i + 1] && net.wires[net.wires[Host(g)]] == Host(g);
      if i > 0 { assert Hop(net, w[i - 1], w[i - 1 + 1]); }
      if i + 2 < |w| { assert Hop(net, w[i + 1], w[i + 1 + 1]); }
      assert 0 < i && i + 2 < |w|;
      CutBack(net, w, i);
      PathConnects(net, g, h, w[..i] + w[i + 2..]);
    } else {
      forall i | 0 <= i < |w| - 1 ensures Step(net, w[i], w[i + 1]) {
        assert Hop(net, w[i], w[i + 1]);
        assert !TurnsBack(net, w[i], w[i + 1]);
      }
      assert Walk(net, w);
    }
  }

  /** Two hosts are connected exactly when a path of wires that are switched on joins
      them. */
  lemma ConnectedExactly(net: Net, g: nat, h: nat)
    requires net.Valid() && g != h
    ensures Connected(net, g, h)
       <==> Host(g) in net.wires
            && exists w: seq<End> :: Path(net, w) && w[0] == net.wires[Host(g)] && w[|w| - 1] == Host(h)
  {
    if Connected(net, g, h) {
      var w: seq<End> :| Walk(net, w) && w[0] == net.wires[Host(g)] && w[|w| - 1] == Host(h);
      forall i | 0 <= i < |w| - 1 ensures Hop(net, w[i], w[i + 1]) {
        assert Step(net, w[i], w[i + 1]);
      }
      assert Path(net, w);
    }
    if Host(g) in net.wires {
      forall w: seq<End> | Path(net, w) && w[0] == net.wires[Host(g)] && w[|w| - 1] == Host(h)
        ensures Connected(net, g, h)
      {
        PathConnects(net, g, h, w);
      }
    }
  }
}
