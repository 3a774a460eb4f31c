/** Wirings of switches and hosts, and the walks a flooded packet takes. */
module Wiring {
  /** What a wire can be plugged into. */
  datatype End = Port(sw: nat, num: nat) | Host(id: nat)

  /** A switch with ports numbered 1..ports, one of which leads to the controller. */
  datatype Switch = Switch(ports: nat, controller: nat) {
    predicate Valid() { 1 <= controller <= ports }
  }

  /** wires maps each plugged end to the end on the other side of its wire;
      disabled holds the ports that are switched off. */
  datatype Net = Net(switches: seq<Switch>, hosts: nat, wires: map<End, End>, disabled: set<End>) {
    predicate IsEnd(e: End) {
      match e
      case Port(s, n) => s < |switches| && 1 <= n <= switches[s].ports && n != switches[s].controller
      case Host(h) => h < hosts
    }

    /** Every wire joins two different ends, and each end sees the other. */
    ghost predicate Valid() {
      && (forall s :: 0 <= s < |switches| ==> switches[s].Valid())
      && (forall e :: e in disabled ==> e.Port?)
      && (forall e :: e in wires ==> IsEnd(e) && wires[e] != e && wires[e] in wires && wires[wires[e]] == e)
    }

    /** A packet passes the wire at e: both its ends are switched on. */
    predicate Open(e: End) { e in wires && e !in disabled && wires[e] !in disabled }
  }

  /** A packet that came in at a leaves its switch by another port and comes in at b. */
  predicate Step(net: Net, a: End, b: End) {
    && net.Open(a) && net.Open(b) && a.Port?
    && var e := net.wires[b]; e.Port? && e.sw == a.sw && e.num != a.num
  }

  /** The ends a packet comes in at, one after the other, never turning back. */
  ghost predicate Walk(net: Net, w: seq<End>) {
    && |w| > 0 && net.Open(w[0])
    && forall i :: 0 <= i < |w| - 1 ==> Step(net, w[i], w[i + 1])
  }

  /** No packet can come in again where it came in before. */
  ghost predicate LoopFree(net: Net) {
    forall w: seq<End> :: Walk(net, w) && |w| >= 2 ==> w[0] != w[|w| - 1]
  }

  /** b can be reached from a by at least one step. */
  ghost predicate Reaches(net: Net, a: End, b: End) {
    exists w: seq<End> :: Walk(net, w) && |w| >= 2 && w[0] == a && w[|w| - 1] == b
  }

  // ---- walks --------------------------------------------------------------------

  lemma WalkOpen(net: Net, w: seq<End>, i: nat)
    requires Walk(net, w) && i < |w|
    ensures net.Open(w[i])
  {
    if i > 0 { assert Step(net, w[i - 1], w[i - 1 + 1]); }
  }

  lemma WalkPart(net: Net, w: seq<End>, i: nat, j: nat)
    requires Walk(net, w) && i < j <= |w|
    ensures Walk(net, w[i..j])
  {
    WalkOpen(net, w, i);
    var v := w[i..j];
    forall k | 0 <= k < |v| - 1 ensures Step(net, v[k], v[k + 1]) {
      assert Step(net, w[i + k], w[i + k + 1]);
    }
  }

  lemma WalkJoin(net: Net, w: seq<End>, v: seq<End>)
    requires Walk(net, w) && Walk(net, v) && Step(net, w[|w| - 1], v[0])
    ensures Walk(net, w + v)
  {
    var u := w + v;
    forall k | 0 <= k < |u| - 1 ensures Step(net, u[k], u[k + 1]) {
      if k < |w| - 1 {
        assert Step(net, w[k], w[k + 1]);
      } else if k >= |w| {
        assert Step(net, v[k - |w|], v[k - |w| + 1]);
      }
    }
  }

  /** The same wires in the opposite direction. */
  ghost function Back(net: Net, w: seq<End>): (v: seq<End>)
    requires forall e :: e in w ==> e in net.wires
    ensures |v| == |w|
  {
    seq(|w|, i requires 0 <= i < |w| => net.wires[w[|w| - 1 - i]])
  }

  lemma StepBack(net: Net, a: End, b: End)
    requires net.Valid() && Step(net, a, b)
    ensures Step(net, net.wires[b], net.wires[a])
  {
    assert net.wires[net.wires[a]] == a && net.wires[net.wires[b]] == b;
  }

  lemma WalkBack(net: Net, w: seq<End>)
    requires net.Valid() && Walk(net, w)
    ensures forall e :: e in w ==> e in net.wires
    ensures Walk(net, Back(net, w))
  {
    forall e | e in w ensures e in net.wires {
      var i :| 0 <= i < |w| && w[i] == e;
      WalkOpen(net, w, i);
    }
    var v := Back(net, w);
    WalkOpen(net, w, |w| - 1);
    assert net.wires[net.wires[w[|w| - 1]]] == w[|w| - 1];
    forall k | 0 <= k < |v| - 1 ensures Step(net, v[k], v[k + 1]) {
      var i := |w| - 2 - k;
      assert Step(net, w[i], w[i + 1]);
      StepBack(net, w[i], w[i + 1]);
    }
  }

  // ---- loop-free wirings --------------------------------------------------------

  /** A walk that can step back to its start is a loop. */
  lemma CloseUp(net: Net, w: seq<End>)
    requires Walk(net, w) && Step(net, w[|w| - 1], w[0])
    ensures !LoopFree(net)
  {
    assert Walk(net, [w[0]]);
    WalkJoin(net, w, [w[0]]);
    var u := w + [w[0]];
    assert u[0] == u[|u| - 1];
  }

  /** A loop-free walk never comes back through the wire it started on. */
  lemma {:induction false} NoReturn(net: Net, w: seq<End>)
    requires net.Valid() && LoopFree(net) && Walk(net, w)
    ensures w[|w| - 1] != net.wires[w[0]]
    decreases |w|
  {
    var n := |w|;
    if w[n - 1] == net.wires[w[0]] && n > 1 {
      assert Step(net, w[0], w[1]) && Step(net, w[n - 2], w[n - 2 + 1]);
      var x, y := w[1], w[n - 2];
      WalkOpen(net, w, 1);
      if y == net.wires[x] {
        WalkPart(net, w, 1, n - 1);
        NoReturn(net, w[1..n - 1]);
      } else {
        // y leaves its switch where x came from: the walk closes at x
        assert net.wires[net.wires[x]] == x && Step(net, y, x);
        WalkPart(net, w, 1, n - 1);
        CloseUp(net, w[1..n - 1]);
      }
    }
  }

  /** On a loop-free wiring no packet enters a switch twice. */
  lemma NoSwitchTwice(net: Net, w: seq<End>)
    requires net.Valid() && LoopFree(net) && Walk(net, w) && |w| >= 2
    ensures var a, b := w[0], w[|w| - 1]; !(a.Port? && b.Port? && a.sw == b.sw)
  {
    var a, b := w[0], w[|w| - 1];
    if a.Port? && b.Port? && a.sw == b.sw {
      WalkPart(net, w, 1, |w|);
      assert Step(net, w[0], w[0 + 1]);
      if net.wires[w[1]] == b {
        NoReturn(net, w[1..]);
      } else {
        WalkOpen(net, w, |w| - 1);
        CloseUp(net, w[1..]);
      }
    }
  }

  /** x and the walk v start at different ports of one switch; v cannot end at x. */
  lemma ShortMeets(net: Net, x: End, v: seq<End>)
    requires net.Valid() && Walk(net, v) && net.Open(x) && x != v[0]
    requires var a, b := net.wires[x], net.wires[v[0]]; a.Port? && b.Port? && a.sw == b.sw
    requires v[|v| - 1] == x
    ensures !LoopFree(net)
  {
    var v' := v[..|v| - 1];
    var p := v'[|v'| - 1];
    assert Step(net, v[|v| - 2], v[|v| - 2 + 1]);
    WalkPart(net, v, 0, |v| - 1);
    if p == net.wires[v[0]] {
      if LoopFree(net) { NoReturn(net, v'); }
    } else {
      assert Step(net, p, v[0]);
      CloseUp(net, v');
    }
  }

  /** Two walks that come into one switch by different ports close a loop with it. */
  lemma LongMeets(net: Net, w: seq<End>, v: seq<End>)
    requires net.Valid() && Walk(net, w) && Walk(net, v) && w[0] != v[0]
    requires var a, b := net.wires[w[0]], net.wires[v[0]]; a.Port? && b.Port? && a.sw == b.sw
    requires var p, q := w[|w| - 1], v[|v| - 1]; p.Port? && q.Port? && p.sw == q.sw && p != q
    ensures !LoopFree(net)
  {
    WalkBack(net, v);
    var back := Back(net, v);
    var p, q := w[|w| - 1], v[|v| - 1];
    WalkOpen(net, w, |w| - 1);
    WalkOpen(net, v, |v| - 1);
    assert back[0] == net.wires[q] && net.wires[back[0]] == q;
    assert Step(net, p, back[0]);
    WalkJoin(net, w, back);
    var u := w + back;
    assert u[|u| - 1] == net.wires[v[0]];
    assert Step(net, net.wires[v[0]], w[0]) by {
      assert net.wires[net.wires[v[0]]] == v[0] && net.wires[net.wires[w[0]]] == w[0];
      WalkOpen(net, back, |back| - 1);
    }
    CloseUp(net, u);
  }

  /** Two walks that leave one switch by different ports never meet. */
  lemma {:induction false} WalksDiverge(net: Net, w: seq<End>, v: seq<End>)
    requires net.Valid() && LoopFree(net) && Walk(net, w) && Walk(net, v) && w[0] != v[0]
    requires var a, b := net.wires[w[0]], net.wires[v[0]]; a.Port? && b.Port? && a.sw == b.sw
    ensures w[|w| - 1] != v[|v| - 1]
    decreases |w| + |v|
  {
    if w[|w| - 1] == v[|v| - 1] {
      if |w| == 1 {
        ShortMeets(net, w[0], v);
      } else if |v| == 1 {
        ShortMeets(net, v[0], w);
      } else {
        var w', v' := w[..|w| - 1], v[..|v| - 1];
        var p, q := w'[|w'| - 1], v'[|v'| - 1];
        assert Step(net, w[|w| - 2], w[|w| - 2 + 1]) && Step(net, v[|v| - 2], v[|v| - 2 + 1]);
        WalkPart(net, w, 0, |w| - 1);
        WalkPart(net, v, 0, |v| - 1);
        if p == q {
          WalksDiverge(net, w', v');
        } else {
          LongMeets(net, w', v');
        }
      }
    }
  }
}
