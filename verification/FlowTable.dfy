/** The switch of the test harness: its sorted flow table and its port search. */
module FlowTable {
  import opened Sorting

  /** The packets that cross the harness. */
  datatype PacketKind = PingRequest | PingReply | Trace

  /** A Match; its addresses and protocol are never looked at. */
  datatype Match = Match(inPort: int, ethType: int) {
    /** isMatch (Match.java:35-69): zero or negative in-ports match any port. */
    predicate IsMatch(kind: PacketKind, inPort: int) {
      if this.inPort != inPort && this.inPort > 0 then false
      else if kind == Trace then ethType == 0x8220
      else ethType == 0
    }
  }

  datatype Flow = Flow(outPort: int, priority: int, criteria: seq<Match>) {
    /** IsMatch (Flow.java:41-47): every criterion matches. */
    predicate IsMatch(kind: PacketKind, inPort: int) {
      forall m :: m in criteria ==> m.IsMatch(kind, inPort)
    }
  }

  const PRIORITY := (f: Flow) => f.priority

  /** The flow packetIn uses: the first match in table order. */
  function FirstMatch(table: seq<Flow>, kind: PacketKind, inPort: int): (i: nat)
    ensures i <= |table|
    ensures forall j :: 0 <= j < i ==> !table[j].IsMatch(kind, inPort)
    ensures i < |table| ==> table[i].IsMatch(kind, inPort)
  {
    if table == [] || table[0].IsMatch(kind, inPort) then 0 else 1 + FirstMatch(table[1..], kind, inPort)
  }

  /** The flows that match, in the order of s. */
  function Matching(s: seq<Flow>, kind: PacketKind, inPort: int): seq<Flow> {
    if s == [] then []
    else (if s[0].IsMatch(kind, inPort) then [s[0]] else []) + Matching(s[1..], kind, inPort)
  }

  datatype PortResult = NoPort | OutOfBounds | PortAt(index: nat)

  /** What a flow asks of a packet: every criterion has an in-port that is no port number
      or the port the packet came in at, and the type of trace packets, or zero for a ping. */
  ghost predicate Wants(f: Flow, kind: PacketKind, inPort: int) {
    forall m :: m in f.criteria ==>
      (m.inPort <= 0 || m.inPort == inPort) && m.ethType == if kind.Trace? then 0x8220 else 0
  }

  /** f is the flow at i, it wants the packet, and every other flow that does has a greater
      priority value, or the same and was added later. */
  ghost predicate IsBestAt(added: seq<Flow>, i: nat, f: Flow, kind: PacketKind, inPort: int) {
    && i < |added| && added[i] == f && Wants(f, kind, inPort)
    && forall j :: 0 <= j < |added| && Wants(added[j], kind, inPort) ==>
         f.priority < added[j].priority || (f.priority == added[j].priority && i <= j)
  }

  ghost predicate IsBest(added: seq<Flow>, f: Flow, kind: PacketKind, inPort: int) {
    exists i :: IsBestAt(added, i, f, kind, inPort)
  }

  lemma MatchIsWanted(f: Flow, kind: PacketKind, inPort: int)
    ensures f.IsMatch(kind, inPort) <==> Wants(f, kind, inPort)
  {}

  lemma FirstIs(table: seq<Flow>, kind: PacketKind, inPort: int, i: nat)
    requires i <= |table| && forall j :: 0 <= j < i ==> !table[j].IsMatch(kind, inPort)
    requires i < |table| ==> table[i].IsMatch(kind, inPort)
    ensures FirstMatch(table, kind, inPort) == i
  {}

  lemma {:induction false} ClassKeeps(s: seq<Flow>, g: Flow)
    ensures g in s <==> g in WithKey(s, PRIORITY, PRIORITY(g))
  {
    if s != [] {
      ClassKeeps(s[1..], g);
      assert s == [s[0]] + s[1..];
    }
  }

  lemma SameMembers(s: seq<Flow>, t: seq<Flow>)
    requires StablePermutation(s, t, PRIORITY)
    ensures forall g :: g in s <==> g in t
  {
    forall g ensures g in s <==> g in t {
      ClassKeeps(s, g);
      ClassKeeps(t, g);
      assert WithKey(t, PRIORITY, PRIORITY(g)) == WithKey(s, PRIORITY, PRIORITY(g));
    }
  }

  /** The first match of a table is the first match of its own priority class. */
  lemma {:induction false} FirstOfClass(table: seq<Flow>, kind: PacketKind, inPort: int)
    requires FirstMatch(table, kind, inPort) < |table|
    ensures var f := table[FirstMatch(table, kind, inPort)];
            var same := Matching(WithKey(table, PRIORITY, f.priority), kind, inPort);
            same != [] && same[0] == f
  {
    if !table[0].IsMatch(kind, inPort) {
      FirstOfClass(table[1..], kind, inPort);
      var k := table[FirstMatch(table, kind, inPort)].priority;
      if table[0].priority == k {
        var c := WithKey(table, PRIORITY, k);
        assert c[0] == table[0] && c[1..] == WithKey(table[1..], PRIORITY, k);
      }
    }
  }

  lemma {:induction false} FirstIndex(s: seq<Flow>, k: int, kind: PacketKind, inPort: int) returns (i: nat)
    requires Matching(WithKey(s, PRIORITY, k), kind, inPort) != []
    ensures i < |s| && s[i] == Matching(WithKey(s, PRIORITY, k), kind, inPort)[0]
    ensures s[i].IsMatch(kind, inPort) && s[i].priority == k
    ensures forall j :: 0 <= j < i && s[j].IsMatch(kind, inPort) ==> s[j].priority != k
  {
    if PRIORITY(s[0]) == k {
      var c := WithKey(s, PRIORITY, k);
      assert c[0] == s[0] && c[1..] == WithKey(s[1..], PRIORITY, k);
    }
    if PRIORITY(s[0]) == k && s[0].IsMatch(kind, inPort) {
      i := 0;
    } else {
      i := FirstIndex(s[1..], k, kind, inPort);
      i := i + 1;
    }
  }

  /** No flow that matches has a smaller priority value than the first match. */
  lemma FirstIsLeast(added: seq<Flow>, kind: PacketKind, inPort: int, g: Flow)
    requires g in added && g.IsMatch(kind, inPort)
    ensures var table := Sort(added, PRIORITY);
            var i := FirstMatch(table, kind, inPort);
            i < |table| && table[i].priority <= g.priority
  {
    var table := Sort(added, PRIORITY);
    SortIsStable(added, PRIORITY);
    SameMembers(added, table);
    var i := FirstMatch(table, kind, inPort);
    var j :| 0 <= j < |table| && table[j] == g;
    assert i == j || (i < j && PRIORITY(table[i]) <= PRIORITY(table[j]));
  }

  lemma FirstIsBest(added: seq<Flow>, kind: PacketKind, inPort: int)
    requires FirstMatch(Sort(added, PRIORITY), kind, inPort) < |Sort(added, PRIORITY)|
    ensures var table := Sort(added, PRIORITY);
            IsBest(added, table[FirstMatch(table, kind, inPort)], kind, inPort)
  {
    var table := Sort(added, PRIORITY);
    var f := table[FirstMatch(table, kind, inPort)];
    SortIsStable(added, PRIORITY);
    assert WithKey(table, PRIORITY, f.priority) == WithKey(added, PRIORITY, f.priority);
    FirstOfClass(table, kind, inPort);
    var i := FirstIndex(added, f.priority, kind, inPort);
    MatchIsWanted(f, kind, inPort);
    hide Sort, Matching, WithKey;
    forall j | 0 <= j < |added| && Wants(added[j], kind, inPort)
      ensures f.priority < added[j].priority || (f.priority == added[j].priority && i <= j)
    {
      MatchIsWanted(added[j], kind, inPort);
      FirstIsLeast(added, kind, inPort, added[j]);
    }
    assert IsBestAt(added, i, f, kind, inPort);
  }

  /** After any additions the first match of the sorted table is the earliest
      added flow of least priority value among those that want the packet. */
  lemma BestIsFirst(added: seq<Flow>, kind: PacketKind, inPort: int)
    ensures var table := Sort(added, PRIORITY);
            var i := FirstMatch(table, kind, inPort);
            && (i < |table| <==> exists g :: g in added && Wants(g, kind, inPort))
            && (i < |table| ==> IsBest(added, table[i], kind, inPort))
  {
    var table := Sort(added, PRIORITY);
    var i := FirstMatch(table, kind, inPort);
    SortIsStable(added, PRIORITY);
    SameMembers(added, table);
    hide Sort, Wants, WithKey;
    if i < |table| {
      FirstIsBest(added, kind, inPort);
      MatchIsWanted(table[i], kind, inPort);
      assert table[i] in added;
    } else if g :| g in added && Wants(g, kind, inPort) {
      MatchIsWanted(g, kind, inPort);
      FirstIsLeast(added, kind, inPort, g);
    }
  }

  class DummySwitch {
    const dpid: int
    const ports: seq<int>
    var flowTable: seq<Flow>
    ghost var added: seq<Flow>

    ghost predicate Valid()
      reads this
    {
      && (forall i :: 0 <= i < |ports| ==> ports[i] == i + 1)
      && flowTable == Sort(added, PRIORITY)
    }

    constructor (dpid: int, numPorts: nat)
      ensures Valid() && added == [] && |ports| == numPorts && this.dpid == dpid
    {
      this.dpid := dpid;
      ports := seq(numPorts, i => i + 1);
      flowTable, added := [], [];
    }

    /** AddFlow (DummySwitch.java:65-72): append and sort the whole table again. */
    method AddFlow(m: Match, outPort: int, priority: int)
      requires Valid()
      modifies this
      ensures Valid() && added == old(added) + [Flow(outPort, priority, [m])]
    {
      var f := Flow(outPort, priority, [m]);
      SortAgain(added, f, PRIORITY);
      flowTable := Sort(flowTable + [f], PRIORITY);
      added := added + [f];
    }

    /** getPort (DummySwitch.java:136-141), with the binary search of
        Collections.binarySearch. */
    method GetPort(portNumber: int) returns (r: PortResult)
      requires Valid()
      ensures r == if portNumber < 0 then NoPort
                   else if 1 <= portNumber <= |ports| then PortAt(portNumber - 1)
                   else OutOfBounds
    {
      if portNumber < 0 { return NoPort; }
      assert 1 <= portNumber <= |ports| ==> ports[portNumber - 1] == portNumber;
      var low, high := 0, |ports| - 1;
      while low <= high
        invariant 0 <= low <= high + 1 <= |ports|
        invariant forall i :: 0 <= i < low ==> ports[i] < portNumber
        invariant forall i :: high < i < |ports| ==> ports[i] > portNumber
      {
        var mid := (low + high) / 2;
        if ports[mid] < portNumber {
          low := mid + 1;
        } else if ports[mid] > portNumber {
          high := mid - 1;
        } else {
          return PortAt(mid);
        }
      }
      r := OutOfBounds;
    }

    /** The table scan of packetIn (DummySwitch.java:152-158). */
    method Lookup(kind: PacketKind, inPort: int) returns (found: bool, f: Flow)
      requires Valid()
      ensures found <==> exists g :: g in added && Wants(g, kind, inPort)
      ensures found ==> IsBest(added, f, kind, inPort)
    {
      hide Sort, IsBest, Wants;
      BestIsFirst(added, kind, inPort);
      f := Flow(0, 0, []);
      for i := 0 to |flowTable|
        invariant forall j :: 0 <= j < i ==> !flowTable[j].IsMatch(kind, inPort)
      {
        if flowTable[i].IsMatch(kind, inPort) {
          FirstIs(flowTable, kind, inPort, i);
          return true, flowTable[i];
        }
      }
      FirstIs(flowTable, kind, inPort, |flowTable|);
      found := false;
    }
  }

  lemma OneCriterion(f: Flow, m: Match, kind: PacketKind, inPort: int)
    requires f.criteria == [m]
    ensures Wants(f, kind, inPort)
       <==> (m.inPort <= 0 || m.inPort == inPort) && m.ethType == if kind.Trace? then 0x8220 else 0
  {
    assert m in f.criteria;
  }

  lemma OnlyOne(only: Flow, f: Flow, kind: PacketKind, inPort: int)
    requires IsBest([only], f, kind, inPort)
    ensures f == only
  {}

  /** One flow on a new switch: it is used for the packets with its type, at its port. */
  method OneFlow(m: Match, outPort: int, priority: int, numPorts: nat, kind: PacketKind, inPort: int)
    returns (found: bool, f: Flow)
    ensures found <==> (m.inPort <= 0 || m.inPort == inPort)
                       && ((m.ethType == 0x8220 && kind == Trace) || (m.ethType == 0 && kind != Trace))
    ensures found ==> f.outPort == outPort
  {
    hide IsBest, Sort;
    var s := new DummySwitch(1, numPorts);
    s.AddFlow(m, outPort, priority);
    found, f := s.Lookup(kind, inPort);
    var only := Flow(outPort, priority, [m]);
    assert s.added == [only];
    OneCriterion(only, m, kind, inPort);
    hide Wants;
    assert only in s.added;
    if found { OnlyOne(only, f, kind, inPort); }
  }
}
