/** The wire form of trace packets: TracePacket.java and SwitchInfo.java. */
module TraceCodec {
  import opened Bytes
  import opened Packets

  const INFO_LEN := 28
  const FIXED_LEN := 37
  const INFO_OFFSET_READ := 21

  /** A SwitchInfo; the controller id is a string of ASCII characters. */
  datatype Info = Info(dpid: i64, addr: seq<u8>, latency: i64, ingress: i32, contId: seq<u8>) {
    predicate Valid() { |addr| == 4 && forall c :: c in contId ==> c < 0x80 }
  }

  /** The fields of a TracePacket; MAC addresses are 48-bit numbers. */
  datatype Trace = Trace(dst: int, src: int, version: i8, maxHops: i8, probeId: i64, hop: i8,
                         timestamp: i64, request: bool, info: Info) {
    predicate Valid() {
      0 <= dst < 0x1_0000_0000_0000 && 0 <= src < 0x1_0000_0000_0000 && info.Valid()
    }
  }

  // ---- wire form ------------------------------------------------------------------

  function InfoBytes(i: Info): (s: seq<u8>)
    requires i.Valid()
    ensures |s| == INFO_LEN + |i.contId|
  {
    BE64(i.dpid) + i.addr + BE64(i.latency) + BE32(i.ingress) + BE32(|i.contId|) + i.contId
  }

  function TotalLen(t: Trace): nat { FIXED_LEN + INFO_LEN + |t.info.contId| + |t.info.contId| }

  /** The fixed part of a packet. */
  function FixedBytes(t: Trace): (s: seq<u8>)
    ensures |s| == FIXED_LEN
  {
    [Lo(TotalLen(t))] + BE64(t.dst) + BE64(t.src) + [t.version % 0x100, t.maxHops % 0x100] + BE64(t.probeId)
    + [t.hop % 0x100] + BE64(t.timestamp) + [if t.request then 1 else 0]
  }

  /** The packet: the controller id is counted twice, so zeros fill the end. */
  function Wire(t: Trace): (s: seq<u8>)
    requires t.Valid()
    ensures |s| == TotalLen(t)
  {
    FixedBytes(t) + InfoBytes(t.info) + seq(|t.info.contId|, _ => 0)
  }

  // ---- reading ---------------------------------------------------------------------

  /** The 28 octets SwitchInfo.deserialize reads at o; it leaves the id empty. */
  function DecodeInfo(s: seq<u8>, o: nat): Info
    requires o + INFO_LEN <= |s|
  {
    Info(ToI64(U64(s, o)), s[o + 8..o + 12], ToI64(U64(s, o + 12)), ToI32(U32(s, o + 20)), [])
  }

  /** deserialize (TracePacket.java:184-210).  None stands for the exceptions of
      ByteBuffer: bounds outside the array, or fewer octets than are read.  The
      switch info is always read at offset 21 of the array. */
  function Decode(s: seq<u8>, offset: int, length: int): Option<Trace> {
    if offset < 0 || length < FIXED_LEN || length > |s| - offset || |s| < INFO_OFFSET_READ + INFO_LEN then None
    else
      var o: nat := offset;
      Some(Trace(U64(s, o + 1) % 0x1_0000_0000_0000, U64(s, o + 9) % 0x1_0000_0000_0000,
                 ToI8(s[o + 17]), ToI8(s[o + 18]), ToI64(U64(s, o + 19)), ToI8(s[o + 27]),
                 ToI64(U64(s, o + 28)), s[o + 36] == 1, DecodeInfo(s, INFO_OFFSET_READ)))
  }

  // ---- the Java objects ---------------------------------------------------------------

  /** java.nio.ByteBuffer over a fresh zeroed array, as far as serialize uses it. */
  class ByteBuffer {
    const data: array<u8>
    var pos: nat
    ghost var written: seq<u8>

    /** What was put so far is in front, zeros are behind. */
    ghost predicate Valid()
      reads this, data
    {
      && pos == |written| <= data.Length && data[..pos] == written
      && forall i :: pos <= i < data.Length ==> data[i] == 0
    }

    constructor (length: nat)
      ensures Valid() && fresh(data) && data.Length == length && written == []
    {
      data := new u8[length](_ => 0);
      pos, written := 0, [];
    }

    /** put, putInt, putLong: the precondition rules out BufferOverflowException. */
    method Put(s: seq<u8>)
      requires Valid() && |written| + |s| <= data.Length
      modifies this, data
      ensures Valid() && written == old(written) + s
    {
      ghost var was := data[..];
      forall i | 0 <= i < |s| { data[pos + i] := s[i]; }
      assert data[..] == was[..pos] + s + was[pos + |s|..];
      pos := pos + |s|;
      written := written + s;
    }

    lemma Finished(n: nat)
      requires Valid() && |written| + n == data.Length
      ensures data[..] == written + seq(n, _ => 0)
    {
      assert data[..] == data[..pos] + data[pos..];
    }
  }

  class TracePacket {
    var destinationMAC: int
    var sourceMAC: int
    var version: i8
    var maxHops: i8
    var probeId: i64
    var hop: i8
    var timestamp: i64
    var request: bool
    var swInfo: Info

    function View(): Trace
      reads this
    {
      Trace(destinationMAC, sourceMAC, version, maxHops, probeId, hop, timestamp, request, swInfo)
    }

    /** A new packet: the random probe id and the date are inputs. */
    constructor (probeId: i64, now: i64)
      ensures View() == Trace(0, 0, 1, 0, probeId, 0, now, true, Info(0, [0, 0, 0, 0], 0, -1, []))
    {
      destinationMAC, sourceMAC, version, maxHops := 0, 0, 1, 0;
      this.probeId, hop, timestamp, request := probeId, 0, now, true;
      swInfo := Info(0, [0, 0, 0, 0], 0, -1, []);
    }

    /** serialize (TracePacket.java:147-172): every put stays inside the array. */
    method Serialize() returns (data: array<u8>)
      requires View().Valid()
      ensures fresh(data) && data[..] == Wire(View())
    {
      hide FixedBytes, InfoBytes, ByteBuffer.Valid;
      var t := View();
      var bb := new ByteBuffer(TotalLen(t));
      data := bb.data;
      PutFixed(bb, t);
      bb.Put(InfoBytes(swInfo));
      bb.Finished(|swInfo.contId|);
    }

    /** The puts of serialize up to the request flag. */
    static method PutFixed(bb: ByteBuffer, t: Trace)
      requires bb.Valid() && bb.written == [] && bb.data.Length >= FIXED_LEN
      modifies bb, bb.data
      ensures bb.Valid() && bb.written == FixedBytes(t)
    {
      hide BE64, Lo, TotalLen, ByteBuffer.Valid;
      bb.Put([Lo(TotalLen(t))]);
      assert bb.written == [Lo(TotalLen(t))];
      bb.Put(BE64(t.dst));
      bb.Put(BE64(t.src));
      bb.Put([t.version % 0x100, t.maxHops % 0x100]);
      bb.Put(BE64(t.probeId));
      bb.Put([t.hop % 0x100]);
      bb.Put(BE64(t.timestamp));
      bb.Put([if t.request then 1 else 0]);
    }

    /** deserialize (TracePacket.java:184-210). */
    method Deserialize(data: array<u8>, offset: int, length: int) returns (ok: bool)
      modifies this
      ensures ok <==> Decode(data[..], offset, length).Some?
      ensures ok ==> View() == Decode(data[..], offset, length).value
    {
      hide U64, U32, ToI64, ToI32, ToI8;
      if offset < 0 || length < FIXED_LEN || length > data.Length - offset
         || data.Length < INFO_OFFSET_READ + INFO_LEN {
        return false;
      }
      var s, o := data[..], offset;
      destinationMAC := U64(s, o + 1) % 0x1_0000_0000_0000;
      sourceMAC := U64(s, o + 9) % 0x1_0000_0000_0000;
      version, maxHops := ToI8(s[o + 17]), ToI8(s[o + 18]);
      probeId := ToI64(U64(s, o + 19));
      hop := ToI8(s[o + 27]);
      timestamp := ToI64(U64(s, o + 28));
      request := s[o + 36] == 1;
      swInfo := DecodeInfo(s, INFO_OFFSET_READ);
      ok := true;
    }

    /** ConvertToReply (TracePacket.java:241-251): only a request is turned around. */
    method ConvertToReply() returns (ok: bool)
      modifies this
      ensures ok == old(request)
      ensures View() == if ok then old(View()).(request := false, src := old(destinationMAC), dst := old(sourceMAC))
                        else old(View())
    {
      if !request { return false; }
      request := false;
      destinationMAC, sourceMAC := sourceMAC, destinationMAC;
      ok := true;
    }
  }

  // ---- what the codec keeps -------------------------------------------------------------

  lemma FirstOctetIs(t: Trace)
    requires t.Valid()
    ensures |Wire(t)| > 0 && Wire(t)[0] == Lo(TotalLen(t))
  {
    hide BE64, InfoBytes, Lo;
  }

  lemma FirstOctet(n: nat)
    ensures ToI8(Lo(n)) == n <==> n < 0x80
  {}

  /** The first octet is the total length as a positive byte exactly when the
      controller id has at most 31 characters. */
  lemma FirstOctetExact(t: Trace)
    requires t.Valid()
    ensures ToI8(Wire(t)[0]) == |Wire(t)| <==> |t.info.contId| <= 31
  {
    FirstOctetIs(t);
    FirstOctet(TotalLen(t));
  }

  lemma InfoTail(i: Info)
    requires i.Valid()
    ensures InfoBytes(i)[24..28] == BE32(|i.contId|) && InfoBytes(i)[28..] == i.contId
  {
    hide BE64, BE32;
    var a := BE64(i.dpid) + i.addr + BE64(i.latency) + BE32(i.ingress);
    assert InfoBytes(i) == a + BE32(|i.contId|) + i.contId;
  }

  lemma WireTail(t: Trace)
    requires t.Valid()
    ensures var w, n := Wire(t), |t.info.contId|;
            && |w| == 65 + 2 * n && w[37..65 + n] == InfoBytes(t.info) && w[65..65 + n] == t.info.contId
            && w[61..65] == BE32(n) && forall k :: 65 + n <= k < |w| ==> w[k] == 0
  {
    hide FixedBytes, InfoBytes, BE32;
    InfoTail(t.info);
    var w, n := Wire(t), |t.info.contId|;
    assert w[37..65 + n] == InfoBytes(t.info);
    assert w[61..65] == w[37..65 + n][24..28] && w[65..65 + n] == w[37..65 + n][28..];
  }

  /** The octets of a serialised packet as TracePacket.java and SwitchInfo.java put them:
      what stands where, in numbers. */
  ghost predicate OnTheWire(t: Trace, w: seq<u8>) {
    var n := |t.info.contId|;
    && |w| == 65 + 2 * n && w[0] == (65 + 2 * n) % 0x100
    && U64(w, 1) == t.dst && U64(w, 9) == t.src && ToI8(w[17]) == t.version && ToI8(w[18]) == t.maxHops
    && ToI64(U64(w, 19)) == t.probeId && ToI8(w[27]) == t.hop && ToI64(U64(w, 28)) == t.timestamp
    && w[36] == (if t.request then 1 else 0)
    && ToI64(U64(w, 37)) == t.info.dpid && w[45..49] == t.info.addr && ToI64(U64(w, 49)) == t.info.latency
    && ToI32(U32(w, 57)) == t.info.ingress && U32(w, 61) == n % 0x1_0000_0000 && w[65..65 + n] == t.info.contId
    && forall k :: 65 + n <= k < |w| ==> w[k] == 0
  }

  /** s holds the packet t from o on. */
  predicate Holds(s: seq<u8>, o: nat, t: Trace) {
    t.Valid() && o + TotalLen(t) <= |s| && s[o..o + TotalLen(t)] == Wire(t)
  }

  lemma SmallMod(v: i64)
    ensures 0 <= v < 0x1_0000_0000_0000 ==>
              v % 0x1_0000_0000_0000_0000 == v && v % 0x1_0000_0000_0000 == v
  {}

  lemma SignedBack(v: i64)
    ensures ToI64(v % 0x1_0000_0000_0000_0000) == v
  {
    var m := 0x1_0000_0000_0000_0000;
    if v >= 0 {
      assert v % m == v;
    } else {
      assert v % m == v + m;
    }
  }

  lemma Long(v: i64, s: seq<u8>, o: nat)
    requires o + 8 <= |s| && s[o..o + 8] == BE64(v)
    ensures ToI64(U64(s, o)) == v
    ensures 0 <= v < 0x1_0000_0000_0000 ==> U64(s, o) % 0x1_0000_0000_0000 == v
  {
    hide U64, BE64, ToI64;
    RoundTrip64(s, o, v);
    SignedBack(v);
    SmallMod(v);
  }

  lemma SignedOctet(v: i8)
    ensures ToI8(v % 0x100) == v
  {}

  lemma Sub(s: seq<u8>, o: nat, n: nat, x: nat, y: nat, whole: seq<u8>)
    requires o + n <= |s| && x <= y <= n && s[o..o + n] == whole
    ensures |whole| == n && s[o + x..o + y] == whole[x..y]
    ensures x < n ==> s[o + x] == whole[x]
  {
    var t := s[o..o + n];
    forall k | 0 <= k < y - x ensures t[x..y][k] == s[o + x..o + y][k] {
      assert t[x + k] == s[o + (x + k)];
    }
    assert t[x..y] == s[o + x..o + y];
  }

  lemma FixedPieces(t: Trace)
    ensures var w := FixedBytes(t);
            && w[1..9] == BE64(t.dst) && w[9..17] == BE64(t.src) && w[17] == t.version % 0x100
            && w[18] == t.maxHops % 0x100 && w[19..27] == BE64(t.probeId) && w[27] == t.hop % 0x100
            && w[28..36] == BE64(t.timestamp) && w[36] == if t.request then 1 else 0
  {
    hide BE64, Lo, TotalLen;
  }

  lemma WireSplits(t: Trace)
    requires t.Valid()
    ensures |Wire(t)| >= FIXED_LEN + INFO_LEN
    ensures Wire(t)[..FIXED_LEN] == FixedBytes(t)
    ensures Wire(t)[FIXED_LEN..FIXED_LEN + INFO_LEN] == InfoBytes(t.info)[..INFO_LEN]
  {
    hide FixedBytes, InfoBytes;
  }

  /** Wherever the packet sits in the array, every field before the switch info
      comes back, the request flag included. */
  lemma FieldsComeBack(s: seq<u8>, o: nat, t: Trace, length: nat)
    requires Holds(s, o, t) && FIXED_LEN <= length <= |s| - o
    ensures var r := Decode(s, o, length);
            r.Some? && r.value.(info := t.info) == t
  {
    hide BE64, U64, ToI64, ToI8, DecodeInfo, Wire, FixedBytes;
    WireSplits(t);
    FixedPieces(t);
    var w := FixedBytes(t);
    Sub(s, o, TotalLen(t), 0, FIXED_LEN, Wire(t));
    Sub(s, o, FIXED_LEN, 1, 9, w);
    Sub(s, o, FIXED_LEN, 9, 17, w);
    Sub(s, o, FIXED_LEN, 17, 18, w);
    Sub(s, o, FIXED_LEN, 18, 19, w);
    Sub(s, o, FIXED_LEN, 19, 27, w);
    Sub(s, o, FIXED_LEN, 27, 28, w);
    Sub(s, o, FIXED_LEN, 28, 36, w);
    Sub(s, o, FIXED_LEN, 36, 37, w);
    Long(t.dst, s, o + 1);
    Long(t.src, s, o + 9);
    Long(t.probeId, s, o + 19);
    Long(t.timestamp, s, o + 28);
    SignedOctet(t.version);
    SignedOctet(t.maxHops);
    SignedOctet(t.hop);
  }

  lemma InfoPieces(i: Info)
    requires i.Valid()
    ensures var w := InfoBytes(i)[..INFO_LEN];
            && w[0..8] == BE64(i.dpid) && w[8..12] == i.addr && w[12..20] == BE64(i.latency)
            && w[20..24] == BE32(i.ingress)
  {
    hide BE64, BE32;
    var a := BE64(i.dpid) + i.addr + BE64(i.latency) + BE32(i.ingress);
    assert InfoBytes(i) == a + (BE32(|i.contId|) + i.contId);
    var w := InfoBytes(i)[..INFO_LEN];
    assert w[..24] == a;
    assert w[0..8] == a[0..8] && w[8..12] == a[8..12] && w[12..20] == a[12..20] && w[20..24] == a[20..24];
  }

  lemma SignedBack32(v: i32)
    ensures ToI32(v % 0x1_0000_0000) == v
  {
    if v >= 0 {
      assert v % 0x1_0000_0000 == v;
    } else {
      assert v % 0x1_0000_0000 == v + 0x1_0000_0000;
    }
  }

  lemma Int(v: i32, s: seq<u8>, o: nat)
    requires o + 4 <= |s| && s[o..o + 4] == BE32(v)
    ensures ToI32(U32(s, o)) == v
  {
    hide U32, BE32, ToI32;
    RoundTrip32(s, o, v);
    SignedBack32(v);
  }

  /** Where the switch info was written, it reads back. */
  lemma InfoComesBack(s: seq<u8>, o: nat, t: Trace)
    requires Holds(s, o, t)
    ensures DecodeInfo(s, o + FIXED_LEN) == t.info.(contId := [])
  {
    hide BE64, BE32, U64, U32, ToI64, ToI32, Wire, InfoBytes;
    WireSplits(t);
    InfoPieces(t.info);
    var w, p := InfoBytes(t.info)[..INFO_LEN], o + FIXED_LEN;
    Sub(s, o, TotalLen(t), FIXED_LEN, FIXED_LEN + INFO_LEN, Wire(t));
    Sub(s, p, INFO_LEN, 0, 8, w);
    Sub(s, p, INFO_LEN, 8, 12, w);
    Sub(s, p, INFO_LEN, 12, 20, w);
    Sub(s, p, INFO_LEN, 20, 24, w);
    Long(t.info.dpid, s, p);
    Long(t.info.latency, s, p + 12);
    Int(t.info.ingress, s, p + 20);
  }

  lemma MacReads(v: int, s: seq<u8>, o: nat)
    requires 0 <= v < 0x1_0000_0000_0000 && o + 8 <= |s| && s[o..o + 8] == BE64(v)
    ensures U64(s, o) == v
  {
    hide U64, BE64;
    RoundTrip64(s, o, v);
  }

  /** Every field stands at its place, the switch info and the controller id included. */
  lemma WireLayout(t: Trace)
    requires t.Valid()
    ensures OnTheWire(t, Wire(t))
  {
    hide BE64, BE32, U64, U32, ToI64, ToI32, ToI8, Wire, FixedBytes, InfoBytes, TotalLen;
    var w := Wire(t);
    WireTail(t);
    WireSplits(t);
    FixedPieces(t);
    FirstOctetIs(t);
    assert w[0..0 + TotalLen(t)] == w;
    InfoComesBack(w, 0, t);
    var f := FixedBytes(t);
    Sub(w, 0, FIXED_LEN, 1, 9, f);
    Sub(w, 0, FIXED_LEN, 9, 17, f);
    Sub(w, 0, FIXED_LEN, 19, 27, f);
    Sub(w, 0, FIXED_LEN, 28, 36, f);
    MacReads(t.dst, w, 1);
    MacReads(t.src, w, 9);
    Long(t.probeId, w, 19);
    Long(t.timestamp, w, 28);
    SignedOctet(t.version);
    SignedOctet(t.maxHops);
    SignedOctet(t.hop);
    RoundTrip32(w, 61, |t.info.contId|);
  }

  // ---- the offset the switch info is read at ------------------------------------------------

  /** The n octets at o and at p agree. */
  predicate Alike(s: seq<u8>, o: nat, p: nat, n: nat)
    requires o + n <= |s| && p + n <= |s|
  {
    s[o..o + n] == s[p..p + n]
  }

  lemma AlikeParts(s: seq<u8>, o: nat, p: nat, m: nat, n: nat)
    requires o + m + n <= |s| && p + m + n <= |s|
    ensures Alike(s, o, p, m + n) <==> Alike(s, o, p, m) && Alike(s, o + m, p + m, n)
  {
    var a, b := s[o..o + m + n], s[p..p + m + n];
    assert a == s[o..o + m] + s[o + m..o + m + n] && b == s[p..p + m] + s[p + m..p + m + n];
    if Alike(s, o, p, m + n) {
      assert a[..m] == s[o..o + m] && b[..m] == s[p..p + m];
      assert a[m..] == s[o + m..o + m + n] && b[m..] == s[p + m..p + m + n];
    }
  }

  lemma AlikeWord(s: seq<u8>, o: nat, p: nat)
    requires o + 2 <= |s| && p + 2 <= |s|
    ensures U16(s, o) == U16(s, p) <==> Alike(s, o, p, 2)
  {
    var a, b := s[o..o + 2], s[p..p + 2];
    assert a == [s[o], s[o + 1]] && b == [s[p], s[p + 1]];
  }

  lemma SameInt(a: int, b: int)
    requires 0 <= a < 0x1_0000_0000 && 0 <= b < 0x1_0000_0000
    ensures ToI32(a) == ToI32(b) <==> a == b
  {}

  lemma AlikeInt(s: seq<u8>, o: nat, p: nat)
    requires o + 4 <= |s| && p + 4 <= |s|
    ensures ToI32(U32(s, o)) == ToI32(U32(s, p)) <==> Alike(s, o, p, 4)
  {
    AlikeWord(s, o, p);
    AlikeWord(s, o + 2, p + 2);
    AlikeParts(s, o, p, 2, 2);
    hide Alike;
    SameInt(U32(s, o), U32(s, p));
  }

  lemma SameLong(a: int, b: int)
    requires 0 <= a < 0x1_0000_0000_0000_0000 && 0 <= b < 0x1_0000_0000_0000_0000
    ensures ToI64(a) == ToI64(b) <==> a == b
  {}

  lemma AlikeLong(s: seq<u8>, o: nat, p: nat)
    requires o + 8 <= |s| && p + 8 <= |s|
    ensures ToI64(U64(s, o)) == ToI64(U64(s, p)) <==> Alike(s, o, p, 8)
  {
    AlikeInt(s, o, p);
    AlikeInt(s, o + 4, p + 4);
    AlikeParts(s, o, p, 4, 4);
    hide Alike, U32;
    SameLong(U64(s, o), U64(s, p));
    SameInt(U32(s, o), U32(s, p));
    SameInt(U32(s, o + 4), U32(s, p + 4));
  }

  lemma HoldsLen(s: seq<u8>, t: Trace)
    requires Holds(s, 0, t)
    ensures |s| >= FIXED_LEN + INFO_LEN
  {}

  lemma AlikeIs(s: seq<u8>, o: nat, p: nat)
    requires o + 24 <= |s| && p + 24 <= |s|
    ensures Alike(s, o, p, 24) <==> s[o..o + 24] == s[p..p + 24]
    ensures Alike(s, o + 8, p + 8, 4) <==> s[o + 8..o + 12] == s[p + 8..p + 12]
  {}

  /** The octets of the fields that deserialize takes for the switch info. */
  function ReadAsInfo(t: Trace): seq<u8> {
    BE64(t.probeId)[2..] + [t.hop % 0x100] + BE64(t.timestamp) + [if t.request then 1 else 0] + BE64(t.info.dpid)
  }

  /** The octets of the switch info, without the controller id. */
  function WrittenAsInfo(t: Trace): seq<u8> {
    BE64(t.info.dpid) + t.info.addr + BE64(t.info.latency) + BE32(t.info.ingress)
  }

  lemma FixedTail(t: Trace)
    ensures FixedBytes(t)[21..37]
         == BE64(t.probeId)[2..] + [t.hop % 0x100] + BE64(t.timestamp) + [if t.request then 1 else 0]
  {
    hide BE64, Lo, TotalLen;
  }

  lemma InfoHead(i: Info)
    requires i.Valid()
    ensures InfoBytes(i)[..INFO_LEN][0..24] == BE64(i.dpid) + i.addr + BE64(i.latency) + BE32(i.ingress)
  {
    hide BE64, BE32;
  }

  lemma InfoAreas(s: seq<u8>, t: Trace)
    requires Holds(s, 0, t)
    ensures |s| >= 61 && s[21..45] == ReadAsInfo(t) && s[37..61] == WrittenAsInfo(t)
  {
    hide BE64, BE32, Lo, Wire, FixedBytes, InfoBytes;
    WireSplits(t);
    FixedPieces(t);
    InfoPieces(t.info);
    var f, i := FixedBytes(t), InfoBytes(t.info)[..INFO_LEN];
    Sub(s, 0, TotalLen(t), 0, FIXED_LEN, Wire(t));
    Sub(s, 0, TotalLen(t), FIXED_LEN, FIXED_LEN + INFO_LEN, Wire(t));
    Sub(s, 0, FIXED_LEN, 21, 37, f);
    Sub(s, 37, INFO_LEN, 0, 24, i);
    Sub(s, 37, INFO_LEN, 0, 8, i);
    FixedTail(t);
    InfoHead(t.info);
    assert s[21..45] == s[21..37] + s[37..45];
  }

  /** deserialize reads the switch info at octet 21, serialize writes it at 37: it
      survives exactly when probe id, hop, timestamp, request flag and dpid are laid
      out as dpid, address, latency and ingress port are. */
  lemma InfoSurvivesExactly(s: seq<u8>, t: Trace)
    requires Holds(s, 0, t)
    ensures var r := Decode(s, 0, |s|);
            r.Some? && (r.value.info == t.info.(contId := []) <==> ReadAsInfo(t) == WrittenAsInfo(t))
  {
    hide Alike, U64, U32, ToI64, ToI32, Wire, TotalLen, InfoBytes, Holds, ReadAsInfo, WrittenAsInfo;
    HoldsLen(s, t);
    InfoComesBack(s, 0, t);
    AlikeLong(s, 21, 37);
    AlikeLong(s, 33, 49);
    AlikeInt(s, 41, 57);
    AlikeParts(s, 21, 37, 20, 4);
    AlikeParts(s, 21, 37, 12, 8);
    AlikeParts(s, 21, 37, 8, 4);
    AlikeIs(s, 21, 37);
    InfoAreas(s, t);
  }

  lemma NarrowTwice(v: int)
    ensures ToI32(v % 0x1_0000_0000) == ToI32(v)
  {}

  /** What is read instead: the ingress port is the low half of the dpid. */
  lemma IngressReadIsDpid(s: seq<u8>, t: Trace)
    requires Holds(s, 0, t)
    ensures var r := Decode(s, 0, |s|);
            r.Some? && r.value.info.ingress == ToI32(t.info.dpid)
  {
    hide U64, U32, ToI64, BE32, ToI32, Wire, InfoBytes;
    WireSplits(t);
    InfoPieces(t.info);
    var w := InfoBytes(t.info)[..INFO_LEN];
    Sub(s, 0, TotalLen(t), FIXED_LEN, FIXED_LEN + INFO_LEN, Wire(t));
    Sub(s, FIXED_LEN, INFO_LEN, 4, 8, w);
    assert w[4..8] == w[0..8][4..8] == BE32(t.info.dpid);
    RoundTrip32(s, 41, t.info.dpid);
    NarrowTwice(t.info.dpid);
  }

  lemma LowOctets(v: int)
    ensures 0x1_0000 * (v / 0x1_0000 % 0x100) + v % 0x1_0000 == v % 0x100_0000
  {
    var q := v / 0x1_0000;
    assert v == 0x100_0000 * (q / 0x100) + (0x1_0000 * (q % 0x100) + v % 0x1_0000);
  }

  lemma MixedInt(s: seq<u8>, o: nat, v: int)
    requires o + 4 <= |s| && s[o] == Lo(v / 0x1_0000) && s[o + 1..o + 3] == BE16(v)
    ensures U32(s, o) == 0x100 * (v % 0x100_0000) + s[o + 3]
  {
    RoundTrip16(s, o + 1, v);
    LowOctets(v);
    hide BE16;
  }

  lemma LowHalf(v: int)
    ensures BE64(v)[5] == Lo(v / 0x1_0000) && BE64(v)[6..8] == BE16(v) && BE64(v)[..4] == BE32(v / 0x1_0000_0000)
  {
    BE16Is(v / 0x1_0000);
    hide BE16;
    assert BE64(v) == BE32(v / 0x1_0000_0000) + (BE16(v / 0x1_0000) + BE16(v));
  }

  /** What is read for the latency: the low three octets of the timestamp, the request
      flag and the high half of the dpid. */
  function LatencyRead(t: Trace): i64 {
    ToI64(0x100_0000_0000 * (t.timestamp % 0x100_0000) + (if t.request then 0x1_0000_0000 else 0)
          + t.info.dpid / 0x1_0000_0000 % 0x1_0000_0000)
  }

  lemma LatencyOctets(s: seq<u8>, t: Trace)
    requires Holds(s, 0, t)
    ensures |s| >= 65 && s[33] == Lo(t.timestamp / 0x1_0000) && s[34..36] == BE16(t.timestamp)
    ensures s[36] == (if t.request then 1 else 0) && s[37..41] == BE32(t.info.dpid / 0x1_0000_0000)
  {
    hide BE64, BE32, BE16, Wire, FixedBytes, InfoBytes, Lo;
    HoldsLen(s, t);
    WireSplits(t);
    FixedPieces(t);
    InfoPieces(t.info);
    var f, w := FixedBytes(t), InfoBytes(t.info)[..INFO_LEN];
    Sub(s, 0, TotalLen(t), 0, FIXED_LEN, Wire(t));
    Sub(s, 0, TotalLen(t), FIXED_LEN, FIXED_LEN + INFO_LEN, Wire(t));
    Sub(s, 0, FIXED_LEN, 28, 36, f);
    Sub(s, 0, FIXED_LEN, 36, 37, f);
    Sub(s, 37, INFO_LEN, 0, 8, w);
    LowHalf(t.timestamp);
    LowHalf(t.info.dpid);
    Sub(s, 28, 8, 5, 6, BE64(t.timestamp));
    Sub(s, 28, 8, 6, 8, BE64(t.timestamp));
    Sub(s, 37, 8, 0, 4, BE64(t.info.dpid));
  }

  lemma LatencyReadIs(s: seq<u8>, t: Trace)
    requires Holds(s, 0, t)
    ensures var r := Decode(s, 0, |s|);
            r.Some? && r.value.info.latency == LatencyRead(t)
  {
    hide BE32, BE16, U32, ToI64, Lo, Holds;
    LatencyOctets(s, t);
    MixedInt(s, 33, t.timestamp);
    RoundTrip32(s, 37, t.info.dpid / 0x1_0000_0000);
  }

  /** A packet that fails: what the client sends, with the switch info at its defaults,
      never brings its ingress port back. */
  lemma FreshInfoIsLost(s: seq<u8>, t: Trace)
    requires Holds(s, 0, t) && t.info == Info(0, [0, 0, 0, 0], 0, -1, [])
    ensures var r := Decode(s, 0, |s|);
            r.Some? && r.value.info.ingress == 0 != t.info.ingress
    ensures ReadAsInfo(t) != WrittenAsInfo(t)
  {
    hide Holds, ReadAsInfo, WrittenAsInfo, Decode;
    IngressReadIsDpid(s, t);
    InfoSurvivesExactly(s, t);
  }

  lemma FreshPacketExample()
    ensures var t := Trace(0, 0, 1, -1, 5, 0, 1000, true, Info(0, [0, 0, 0, 0], 0, -1, []));
            var r := Decode(Wire(t), 0, |Wire(t)|);
            r.Some? && r.value.info != t.info
  {
    hide Wire, Decode, ReadAsInfo, WrittenAsInfo;
    var t := Trace(0, 0, 1, -1, 5, 0, 1000, true, Info(0, [0, 0, 0, 0], 0, -1, []));
    assert Wire(t)[0..0 + TotalLen(t)] == Wire(t);
    FreshInfoIsLost(Wire(t), t);
  }
}
