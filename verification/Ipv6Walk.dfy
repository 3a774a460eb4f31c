/** The extension-header walk of analyze_ipv6 (packet_ipv6.c). */
module Ipv6Walk {
  import opened Bytes
  import opened Packets

  const HOPOPTS: u8 := 0
  const ROUTING: u8 := 43
  const FRAGMENT: u8 := 44
  const ESP: u8 := 50
  const AH: u8 := 51
  const NONE: u8 := 59
  const DSTOPTS: u8 := 60

  predicate IsExtension(proto: int) {
    proto == HOPOPTS || proto == DSTOPTS || proto == ROUTING || proto == AH || proto == FRAGMENT
  }

  /** The (type, next, length) triple an option header object is given. */
  datatype OptHeader = OptHeader(kind: u8, next: u8, len: u8)

  /** The size of an extension header as the code computes it. */
  function Size(kind: u8, len: int): (n: nat)
    requires 0 <= len < 0x100
    ensures n >= 8
  {
    if kind == FRAGMENT then 8
    else if kind == AH then (len + 2) * 4
    else (len + 1) * 8
  }

  /** How far the code moves its data pointer: the routing case also moves it in
      the loop that copies the addresses. */
  function Advance(h: OptHeader): (n: nat)
    ensures n >= 8
  {
    Size(h.kind, h.len) + if h.kind == ROUTING then h.len / 2 * 16 else 0
  }

  function Sizes(hs: seq<OptHeader>): nat {
    if hs == [] then 0 else Size(hs[0].kind, hs[0].len) + Sizes(hs[1..])
  }

  function Advances(hs: seq<OptHeader>): nat {
    if hs == [] then 0 else Advance(hs[0]) + Advances(hs[1..])
  }

  function Prepend(hs: seq<OptHeader>, w: Option<seq<OptHeader>>): Option<seq<OptHeader>> {
    if w.None? then None else Some(hs + w.value)
  }

  /** The headers found from position at on; None when the walk reads past s. */
  function Walk(s: seq<u8>, at: nat, proto: u8): Option<seq<OptHeader>>
    decreases |s| - at
  {
    if !IsExtension(proto) then Some([])
    else if at + 2 > |s| then None
    else
      var h := OptHeader(proto, s[at], s[at + 1]);
      Prepend([h], Walk(s, at + Advance(h), h.next))
  }

  datatype Result = OutOfMemory | Walked(headers: seq<OptHeader>, hlen: nat, at: nat)

  /** The switch of the loop: both counters move, the routing case twice. */
  method StepOver(h: OptHeader, hlen: nat, data: nat) returns (newHlen: nat, newData: nat)
    requires IsExtension(h.kind)
    ensures newHlen == hlen + Size(h.kind, h.len) && newData == data + Advance(h) >= data + 8
  {
    var len: int := h.len;
    if h.kind == HOPOPTS || h.kind == DSTOPTS {
      newHlen, newData := hlen + (len + 1) * 8, data + (len + 1) * 8;
    } else if h.kind == ROUTING {
      newData := data;
      for i := 0 to len / 2
        invariant newData == data + 16 * i
      {
        newData := newData + 16;
      }
      newHlen, newData := hlen + (len + 1) * 8, newData + (len + 1) * 8;
    } else if h.kind == FRAGMENT {
      newHlen, newData := hlen + 8, data + 8;
    } else {
      newHlen, newData := hlen + (len + 2) * 4, data + (len + 2) * 4;
    }
  }

  lemma Prepended(hs: seq<OptHeader>, w: Option<seq<OptHeader>>)
    ensures Prepend([], w) == w && Prepend(hs, Some([])) == Some(hs)
  {
    assert hs + [] == hs;
    if w.Some? { assert [] + w.value == w.value; }
  }

  lemma Shift(hs: seq<OptHeader>, h: OptHeader, w: Option<seq<OptHeader>>)
    ensures Prepend(hs, Prepend([h], w)) == Prepend(hs + [h], w)
  {
    if w.Some? { assert hs + ([h] + w.value) == hs + [h] + w.value; }
  }

  lemma {:induction false} Snoc(hs: seq<OptHeader>, h: OptHeader)
    ensures Sizes(hs + [h]) == Sizes(hs) + Size(h.kind, h.len)
    ensures Advances(hs + [h]) == Advances(hs) + Advance(h)
  {
    if hs != [] {
      assert (hs + [h])[1..] == hs[1..] + [h];
      Snoc(hs[1..], h);
    } else {
      assert hs + [h] == [h] && [h][1..] == [];
    }
  }

  /** The loop of analyze_ipv6 (packet_ipv6.c:92-181) for a header at o; option
      contents are not decoded.  at is where the data pointer ends up. */
  method AnalyzeIpv6(m: array<u8>, o: nat) returns (r: Result)
    requires o + 40 <= m.Length
    ensures match Walk(m[..], o + 40, m[o + 6])
            case None => r == OutOfMemory
            case Some(hs) => r == Walked(hs, 40 + Sizes(hs), o + 40 + Advances(hs))
  {
    hide Size, Advance;
    var hlen, data, proto := 40, o + 40, m[o + 6];
    var headers: seq<OptHeader> := [];
    Prepended([], Walk(m[..], data, proto));
    while IsExtension(proto)
      invariant hlen == 40 + Sizes(headers) && data == o + 40 + Advances(headers)
      invariant Walk(m[..], o + 40, m[o + 6]) == Prepend(headers, Walk(m[..], data, proto))
      decreases m.Length - data
    {
      if data + 2 > m.Length { return OutOfMemory; }
      var h := OptHeader(proto, m[data], m[data + 1]);
      Snoc(headers, h);
      Shift(headers, h, Walk(m[..], data + Advance(h), h.next));
      hlen, data := StepOver(h, hlen, data);
      headers := headers + [h];
      proto := h.next;
    }
    Prepended(headers, Some([]));
    r := Walked(headers, hlen, data);
  }

  // ---- properties -----------------------------------------------------------

  /** Routing headers with at least one address. */
  predicate Long(h: OptHeader) { h.kind == 43 && h.len >= 2 }

  /** The 16-octet addresses in the routing headers: two units of length each. */
  function Addresses(hs: seq<OptHeader>): nat {
    if hs == [] then 0 else Addresses(hs[1..]) + if hs[0].kind == 43 then hs[0].len / 2 else 0
  }

  /** For every memory: the data pointer is ahead of the length the walk returns by the
      octets of all addresses met, so the two agree exactly when no routing header of
      length 2 or more was met. */
  lemma {:induction false} PointerAgrees(hs: seq<OptHeader>)
    ensures Advances(hs) == Sizes(hs) + 16 * Addresses(hs)
    ensures Advances(hs) == Sizes(hs) <==> forall h :: h in hs ==> !Long(h)
  {
    if hs != [] {
      PointerAgrees(hs[1..]);
      assert hs == [hs[0]] + hs[1..];
      assert Advance(hs[0]) == Size(hs[0].kind, hs[0].len) <==> !Long(hs[0]);
    }
  }

  /** An extension header as section 4 of RFC 2460 and section 2.2 of RFC 2402 lay it out.
      Hop-by-hop (0), routing (43) and destination (60) options: length in 8-octet units
      without the first.  Fragment (44): always 8 octets.  Authentication (51): length in
      4-octet units minus 2. */
  datatype Ext = Ext(kind: u8, len: u8, body: seq<u8>) {
    predicate Valid() {
      (kind in {0, 43, 60} && 2 + |body| == 8 + 8 * len) || (kind == 44 && 2 + |body| == 8)
      || (kind == 51 && 2 + |body| == 8 + 4 * len)
    }
  }

  predicate ValidChain(chain: seq<Ext>) { forall e :: e in chain ==> e.Valid() }

  /** The next-header value that announces a chain ending in `last`. */
  function Announce(chain: seq<Ext>, last: u8): u8 { if chain == [] then last else chain[0].kind }

  function Encode(chain: seq<Ext>, last: u8): seq<u8> {
    if chain == [] then []
    else [Announce(chain[1..], last), chain[0].len] + chain[0].body + Encode(chain[1..], last)
  }

  function Triples(chain: seq<Ext>, last: u8): (hs: seq<OptHeader>)
    ensures |hs| == |chain|
  {
    if chain == [] then []
    else [OptHeader(chain[0].kind, Announce(chain[1..], last), chain[0].len)] + Triples(chain[1..], last)
  }

  /** Only the last header may be a long routing header. */
  predicate Walkable(chain: seq<Ext>) {
    forall i :: 0 <= i < |chain| - 1 ==> !(chain[i].kind == ROUTING && chain[i].len >= 2)
  }

  lemma ShortAdvance(h: OptHeader)
    requires !Long(h)
    ensures Advance(h) == Size(h.kind, h.len)
  {}

  lemma SizeIs(e: Ext)
    requires e.Valid()
    ensures IsExtension(e.kind) && Size(e.kind, e.len) == 2 + |e.body|
  {}

  lemma PrependIs(h: OptHeader, hs: seq<OptHeader>)
    ensures Prepend([h], Some(hs)) == Some([h] + hs)
  {}

  function FirstOctets(chain: seq<Ext>, last: u8): seq<u8>
    requires chain != []
  {
    [Announce(chain[1..], last), chain[0].len] + chain[0].body
  }

  function FirstTriple(chain: seq<Ext>, last: u8): OptHeader
    requires chain != []
  {
    OptHeader(chain[0].kind, Announce(chain[1..], last), chain[0].len)
  }

  lemma WalkEnds(s: seq<u8>, at: nat, last: u8)
    requires !IsExtension(last)
    ensures Walk(s, at, last) == Some([])
  {}

  lemma EncodeIs(chain: seq<Ext>, last: u8)
    requires chain != []
    ensures Encode(chain, last) == FirstOctets(chain, last) + Encode(chain[1..], last)
  {}

  lemma RestOfChain(chain: seq<Ext>, last: u8)
    requires chain != [] && ValidChain(chain) && Walkable(chain)
    ensures var first, h, rest := FirstOctets(chain, last), FirstTriple(chain, last), chain[1..];
            && IsExtension(h.kind) && |first| == Size(h.kind, h.len) && first[0] == h.next && first[1] == h.len
            && ValidChain(rest) && Walkable(rest) && (rest != [] ==> !Long(h))
            && Encode(chain, last) == first + Encode(rest, last)
            && Triples(chain, last) == [h] + Triples(rest, last)
            && Sizes(Triples(chain, last)) == |first| + Sizes(Triples(rest, last))
  {
    assert chain[0].Valid();
    SizeIs(chain[0]);
    hide Size, Encode, IsExtension;
    EncodeIs(chain, last);
    assert Triples(chain, last)[1..] == Triples(chain[1..], last);
    forall i | 0 <= i < |chain[1..]| - 1 ensures !(chain[1..][i].kind == ROUTING && chain[1..][i].len >= 2) {
      assert chain[1..][i] == chain[i + 1];
    }
  }

  lemma FirstStep(s: seq<u8>, at: nat, h: OptHeader, next: nat)
    requires at + 2 <= |s| && s[at] == h.next && s[at + 1] == h.len && IsExtension(h.kind)
    requires next == at + Advance(h)
    ensures Walk(s, at, h.kind) == Prepend([h], Walk(s, next, h.next))
  {}

  /** One step of the walk, given that it is right from the second header on. */
  lemma ChainStep(s: seq<u8>, at: nat, chain: seq<Ext>, last: u8)
    requires chain != [] && ValidChain(chain) && Walkable(chain) && !IsExtension(last)
    requires at + 2 <= |s| && s[at] == FirstTriple(chain, last).next && s[at + 1] == chain[0].len
    requires Walk(s, at + |FirstOctets(chain, last)|, Announce(chain[1..], last)) == Some(Triples(chain[1..], last))
    ensures Walk(s, at, Announce(chain, last)) == Some(Triples(chain, last))
  {
    var h := FirstTriple(chain, last);
    RestOfChain(chain, last);
    hide Walk, Size, Walkable, ValidChain, FirstOctets, Triples;
    if chain[1..] == [] {
      WalkEnds(s, at + Advance(h), last);
      WalkEnds(s, at + |FirstOctets(chain, last)|, last);
    } else {
      ShortAdvance(h);
    }
    FirstStep(s, at, h, at + Advance(h));
    PrependIs(h, Triples(chain[1..], last));
  }

  lemma OctetsOf(pre: seq<u8>, first: seq<u8>, rest: seq<u8>, post: seq<u8>)
    requires |first| >= 2
    ensures pre + (first + rest) + post == pre + first + rest + post
    ensures (pre + first + rest + post)[|pre|] == first[0] && (pre + first + rest + post)[|pre| + 1] == first[1]
  {}

  /** Every encoded chain is walked header by header, whatever surrounds it, and
      the returned length is 40 plus the octets of the chain. */
  lemma {:induction false} WalkFindsChain(pre: seq<u8>, chain: seq<Ext>, last: u8, post: seq<u8>)
    requires ValidChain(chain) && Walkable(chain) && last !in {0, 43, 44, 51, 60}
    ensures Walk(pre + Encode(chain, last) + post, |pre|, Announce(chain, last)) == Some(Triples(chain, last))
    ensures Sizes(Triples(chain, last)) == |Encode(chain, last)|
    decreases |chain|
  {
    if chain == [] {
      WalkEnds(pre + Encode(chain, last) + post, |pre|, last);
    } else {
      var rest, first := chain[1..], FirstOctets(chain, last);
      RestOfChain(chain, last);
      WalkFindsChain(pre + first, rest, last, post);
      OctetsOf(pre, first, Encode(rest, last), post);
      ChainStep(pre + first + Encode(rest, last) + post, |pre|, chain, last);
    }
  }

  function Zero(n: nat): seq<u8> { seq(n, _ => 0) }

  lemma MisreadAt(chain: seq<Ext>, tail: seq<u8>)
    requires chain == [Ext(ROUTING, 2, Zero(22)), Ext(DSTOPTS, 0, Zero(6))]
    requires |tail| == 2 && !IsExtension(tail[0])
    ensures Walk(Encode(chain, 6) + Zero(8) + tail, 0, ROUTING)
         == Some([OptHeader(ROUTING, DSTOPTS, 2), OptHeader(DSTOPTS, tail[0], tail[1])])
  {
    var s := Encode(chain, 6) + Zero(8) + tail;
    assert chain[1..] == [chain[1]] && chain[1..][1..] == [];
    assert Encode(chain[1..], 6) == [6, 0] + Zero(6);
    assert s == [DSTOPTS, 2] + Zero(22) + ([6, 0] + Zero(6)) + Zero(8) + tail;
    assert |s| == 42 && s[40] == tail[0] && s[41] == tail[1];
    var h1, h2 := OptHeader(ROUTING, DSTOPTS, 2), OptHeader(DSTOPTS, tail[0], tail[1]);
    FirstStep(s, 0, h1, 40);
    FirstStep(s, 40, h2, 40 + Advance(h2));
    WalkEnds(s, 40 + Advance(h2), tail[0]);
    assert [h1] + ([h2] + []) == [h1, h2];
  }

  /** A routing header with an address before another header is walked wrongly:
      a destination header behind it is read from the octets that follow the chain. */
  lemma LongRoutingMisread()
    ensures var chain := [Ext(ROUTING, 2, Zero(22)), Ext(DSTOPTS, 0, Zero(6))];
            && ValidChain(chain)
            && Walk(Encode(chain, 6) + Zero(8) + [6, 0], 0, ROUTING)
               == Some([OptHeader(ROUTING, DSTOPTS, 2), OptHeader(DSTOPTS, 6, 0)])
            && Walk(Encode(chain, 6) + Zero(8) + [17, 1], 0, ROUTING)
               == Some([OptHeader(ROUTING, DSTOPTS, 2), OptHeader(DSTOPTS, 17, 1)])
  {
    var chain := [Ext(ROUTING, 2, Zero(22)), Ext(DSTOPTS, 0, Zero(6))];
    MisreadAt(chain, [6, 0]);
    MisreadAt(chain, [17, 1]);
  }
}
