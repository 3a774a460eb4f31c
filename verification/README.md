# SDNTrace and jpcap: a verified model

This project models the parts of the repository in which packets and times are
computed, and proves what they promise.

* **Building and capturing packets** (`Bytes`, `Checksum`, `Packets`, `Sender`,
  `SentPackets`, `Ipv6Walk`, `Captor`, `CaptureLaws`, `Frames`, `RoundTrip`, `Layout`,
  `Loopback`): the jpcap sender lays Ethernet, IPv4, TCP, UDP, ICMP and ARP into one
  buffer, the captor classifies a frame and cuts it into header and data, the writer
  glues the two together. Methods work in place on arrays; each is tied to a function of
  the old buffer, and `Layout` and `Frames` say in numbers and offsets what these
  functions mean. The checksum routines take the byte order of the host as a parameter;
  the packet code is modelled on a little-endian host, as the repository's `IP.H`
  assumes.
* **The flooding network** (`Sorting`, `FlowTable`, `Wiring`, `Flooding`, `PingRun`,
  `PingLaws`): switches, ports and hosts of the test harness call each other
  recursively. The measure of the recursion is the set of ends a packet can still
  come in at.
* **The SDNTrace protocol** (`TraceCodec`, `TraceController`, `TraceClient`): the
  packet codec, the controller that counts hops for each probe, and the client that
  collects, sorts and de-duplicates replies, connected in one run theorem over a
  network that may lose, repeat and reorder.
* **Timestamps** (`Timestamps`): counters and frequencies become normalised pairs.

Random probe ids, dates, system time and counters are inputs. `Fault` and `None`
stand for reads outside the memory given and for the exceptions of the original.

## What the code does not do

Where a promise does not hold, the code is kept as it is and a member states exactly
when the promise is met.

* `in_cksum` with an odd size is right on a big-endian host only (`OddInCksumExact`),
  and an odd-sized ICMP message then fails to verify (`IcmpVerifiesIff`).
* IPv4 fragment flags and offset do not survive on a little-endian host
  (`FragmentFieldsExact`, `CarriedExactly`, `FlagsReadExactly`).
* An IPv4 identification above 32767 comes back negative, because the analyser hands
  it over as a `short` (`IdentExactly`).
* A routing header with addresses moves the data pointer of `analyze_ipv6` twice
  (`PointerAgrees`, `LongRoutingMisread`).
* The IPv6 loop of `get_packet` starts at the IPv6 header instead of behind it, so a
  transport protocol behind an extension header is never recognised
  (`Ipv6TransportExact`, `ChainedTransportExact`).
* A truncated transport header sets the protocol to -1, which equals the value for
  "unknown", so the clamp is skipped and octets behind the captured ones are handed
  over (`InsideExactly`, `TruncatedEscapes`).
* `deserialize` reads the switch info at offset 21, `serialize` puts it at 37
  (`InfoSurvivesExactly`, `IngressReadIsDpid`, `FreshInfoIsLost`).
* `HandleTrace` looks up maps with keys of another class and always floods
  (`RouteMeetsMapExactly`). `TraceAppController.PacketIn` does not test the request
  flag; the gate in `TraceModule.java` does (`RawAnsweredExactly`,
  `FrameAnsweredExactly`). A reply carries the random id drawn for
  it, equal to the id of its probe only by chance (`SendReply`).
* Hosts have `long` addresses and ping packets carry `int`s: a host whose address is no
  `int`, 192.168.1.1 say, never takes a ping for its own (`AddressedExactly`,
  `AnsweredExactly`, `LargeAddressIsSilent`).
* The time stamp counter is read with a product that overflows after 2^31 seconds
  (`GetTimeRDTSC`, `GuardUpTo32Bits`, `RdtscOverflows`).
* What the client prints as the best latency subtracts octets of the timestamp, the
  request flag and the dpid, not the latency that was sent (`LatencyReadIs`).
* The client collects its own request like a reply with hop 0 (`CompleteIsTrusted`).
* The report of the client drops hop -1 when it is the smallest (`PrintReport`), and
  hop numbers wrap after 128 replies (`SmallHop`).

## Model

| member | source | states |
|---|---|---|
| `Checksum.InCksum` | JpcapSource/jpcap-0.7/src/c/JpcapSender.c:338-350 | stored by the host, the result is the big-endian RFC 1071 checksum of the octets the routine really sees, for every size up to 0x1fffe and either byte order |
| `Checksum.InCksum2` | JpcapSource/jpcap-0.7/src/c/JpcapSender.c:352-378 | the same for the routine with a pseudo-header, whose addresses and protocol come from the IP header in the buffer |
| `Checksum.TwoFoldsSuffice` | JpcapSource/jpcap-0.7/src/c/JpcapSender.c:348-349 | two folds equal the complete one's complement fold for every raw sum below 2^32 |
| `Checksum.ByteOrderIndependence` | JpcapSource/jpcap-0.7/src/c/JpcapSender.c:338-378 | section 2(B) of RFC 1071: the little-endian sum of any octets is the swapped big-endian sum |
| `Checksum.VerifiesIff` | JpcapSource/jpcap-0.7/src/c/JpcapSender.c:333-334 | exactly the values congruent to the checksum, with the two zeros of one's complement told apart, make a region sum to all ones |
| `Checksum.OddInCksumExact` | JpcapSource/jpcap-0.7/src/c/JpcapSender.c:346-347 | in_cksum with an odd size on a little-endian host is right if and only if the last octet and the one behind the region are both zero |
| `Checksum.OddInCksum2Exact` | JpcapSource/jpcap-0.7/src/c/JpcapSender.c:372-374 | in_cksum2 with an odd size on a big-endian host is right if and only if the last octet is zero |
| `Sender.SetIp` | JpcapSource/jpcap-0.7/src/c/packet_ip.c:76-102 | the 20 octets set_ip leaves; length, protocol and checksum octets and everything outside stay |
| `Sender.SetTcp` | JpcapSource/jpcap-0.7/src/c/packet_tcp.c:73-105 | the buffer holds the segment of the TCP fields and as much data as fits, sealed with the pseudo-header checksum; nothing else changes |
| `Sender.SetUdp` | JpcapSource/jpcap-0.7/src/c/packet_udp.c:40-56 | the same for UDP, with a zero checksum replaced by all ones |
| `Sender.SetIcmp` | JpcapSource/jpcap-0.7/src/c/packet_icmp.c:116-179 | the message of each ICMP kind with its checksum, what stays of the old buffer, and the returned length; `Layout.IcmpLayout` tells its octets |
| `Sender.SetArp` | JpcapSource/jpcap-0.7/src/c/packet_arp.c:57-81 | the addresses go to their fixed places in turn, longer ones being overwritten by the next, for all address lengths; with lengths 6 and 4 the 28 octets lie in order |
| `Sender.SetEther` | JpcapSource/jpcap-0.7/src/c/packet_datalink.c:51-67 | destination, source and big-endian type for an Ethernet header, nothing without one |
| `Sender.SetPacket` | JpcapSource/jpcap-0.7/src/c/JpcapSender.c:227-336 | for every packet class the buffer holds link octets, finished IPv4 header and payload, nothing else changes, and the returned length is that of the original |
| `Sender.SendPacket` | JpcapSource/jpcap-0.7/src/c/JpcapSender.c:155-172 | the octets that leave are those laid out, then what the buffer held where the returned length counts more, then zeros up to 60 octets |
| `Layout.PacketLayout` | JpcapSource/jpcap-0.7/src/c/JpcapSender.c:227-336 | the octets of every packet class place by place and in numbers: IPv4, TCP, UDP, ICMP and ARP fields at the offsets of their RFCs, big-endian, the cut-off data, the quoted header in host order, and the returned length |
| `Layout.EtherLayout` | JpcapSource/jpcap-0.7/src/c/packet_datalink.c:51-67 | destination at octet 0, source at 6, type at 12, high octet first |
| `Layout.IpLayout` | JpcapSource/jpcap-0.7/src/c/packet_ip.c:76-102 | version and length 0x45, TOS bits, total length, identification, fragment word with the octets of the offset swapped, time to live, protocol and addresses at their places |
| `Layout.TcpLayout` | JpcapSource/jpcap-0.7/src/c/packet_tcp.c:73-105 | ports, sequence numbers, reserved bits, the eight flags with their weights, window, urgent pointer and data at their places |
| `Layout.IcmpLayout` | JpcapSource/jpcap-0.7/src/c/packet_icmp.c:116-179 | type, code, id and sequence, the three times, the mask, the gateway of a redirect and the quoted header at their places, by the type octet |
| `Layout.ArpLayout` | JpcapSource/jpcap-0.7/src/c/packet_arp.c:57-81 | for all address lengths each octet belongs to the last address copied over it, and octets between addresses keep their values |
| `SentPackets.HeaderVerifies` | JpcapSource/jpcap-0.7/src/c/JpcapSender.c:328-335 | section 3.1 of RFC 791: every finished IPv4 header sums to all ones |
| `SentPackets.TcpVerifies` | JpcapSource/jpcap-0.7/src/c/packet_tcp.c:102-103 | section 3.1 of RFC 793: every TCP segment verifies with its pseudo-header |
| `SentPackets.UdpVerifies` | JpcapSource/jpcap-0.7/src/c/packet_udp.c:49-55 | RFC 768: every UDP segment verifies, its checksum field is never zero and its length field counts header and data |
| `SentPackets.IcmpVerifiesIff` | JpcapSource/jpcap-0.7/src/c/packet_icmp.c:129-174 | an ICMP message verifies if and only if its size is even, or its last octet and the buffer octet behind it are zero |
| `SentPackets.PacketVerifies` | JpcapSource/jpcap-0.7/src/c/JpcapSender.c:227-336 | the octets set_packet lays out for any TCP, UDP or ICMP packet: the 16-bit words of the header are congruent to zero modulo 65535 and not all zero, and so are those of the transport part together with addresses read from the header octets, protocol number 6 or 17 and length |
| `SentPackets.TotalLengthExact` | JpcapSource/jpcap-0.7/src/c/JpcapSender.c:268-326 | the total length field equals the number of octets laid out if and only if no data was cut off and the ICMP type is one that is built |
| `Ipv6Walk.AnalyzeIpv6` | JpcapSource/jpcap-0.7/src/c/packet_ipv6.c:92-181 | the loop ends for every memory; it emits the triples of the walk and returns 40 plus the header sizes, with the data pointer at the sum of its moves |
| `Ipv6Walk.PointerAgrees` | JpcapSource/jpcap-0.7/src/c/packet_ipv6.c:125-148 | the data pointer is ahead of the returned length by 16 octets for each address in a routing header, so the two agree if and only if no routing header of length 2 or more was met |
| `Ipv6Walk.WalkFindsChain` | JpcapSource/jpcap-0.7/src/c/packet_ipv6.c:92-181 | every chain encoded as section 4 of RFC 2460 and section 2.2 of RFC 2402 say is found header by header, wherever it lies; a long routing header may only come last |
| `Ipv6Walk.LongRoutingMisread` | JpcapSource/jpcap-0.7/src/c/packet_ipv6.c:133-147 | two frames with the same chain are read differently: behind a routing header with an address the walk reads past the chain |
| `Captor.WalkChain` | JpcapSource/jpcap-0.7/src/c/JpcapCaptor.c:739-771 | the IPv6 loop ends with clen as its measure, moves dp exactly as clen shrinks and reads inside the captured octets |
| `Captor.SplitFrame` | JpcapSource/jpcap-0.7/src/c/JpcapCaptor.c:861-903 | header and data are adjacent parts of the frame, together as long as the link header plus the network length, whenever the lengths stay within a signed short |
| `Captor.GetPacket` | JpcapSource/jpcap-0.7/src/c/JpcapCaptor.c:696-904 | for every frame and link type the packet is the one the analysis function gives, or a fault when the original would leave its memory |
| `Frames.Ip4Cut` | JpcapSource/jpcap-0.7/src/c/JpcapCaptor.c:705-903 | in terms of the octets: for every captured IPv4 frame on each link type whose transport header was not cut off, the class, the IPv4 and TCP options, UDP ports and length, where the header ends and where the data ends; a fault exactly when a header reaches out of the memory |
| `Frames.TcpCut` | JpcapSource/jpcap-0.7/src/c/packet_tcp.c:48-70 | a TCP segment in plain numbers: the header ends behind 4 times the data offset, or where the datagram ends, the octets behind the first 20 are the option, the rest is data |
| `Frames.Ip4CutOff` | JpcapSource/jpcap-0.7/src/c/JpcapCaptor.c:788-793 | a frame with a cut-off transport header is a plain IP packet that reaches as far as its IPv4 header announces, captured or not |
| `Frames.Ip6Cut` | JpcapSource/jpcap-0.7/src/c/JpcapCaptor.c:833-903 | every captured IPv6 frame whose transport header was not cut off: the header is 40 octets, the chain of extension headers and the recognised transport header; the data reaches to the payload length |
| `Frames.ArpCut` | JpcapSource/jpcap-0.7/src/c/JpcapCaptor.c:833-903 | an ARP packet is header to its end by its address lengths, or to the end of the captured octets |
| `Frames.OtherCut` | JpcapSource/jpcap-0.7/src/c/JpcapCaptor.c:833-903 | a frame of any other type: the link header is the header, all captured octets behind it are data |
| `CaptureLaws.CaptureConserves` | JpcapSource/jpcap-0.7/src/c/JpcapCaptor.c:696-904 | the conservation law for whole captures, whenever the lengths stay within a signed short |
| `CaptureLaws.ClampedIsPrefix` | JpcapSource/jpcap-0.7/src/c/JpcapCaptor.c:857-903 | where the clamp applies, header and data are a prefix of the captured octets |
| `CaptureLaws.InsideExactly` | JpcapSource/jpcap-0.7/src/c/JpcapCaptor.c:788-793 | header and data stay inside the captured octets if and only if the clamp applies or the announced length was captured anyway |
| `CaptureLaws.TruncatedEscapes` | JpcapSource/jpcap-0.7/src/c/JpcapCaptor.c:788-793 | every frame with a cut-off TCP header and a longer announced length hands over octets behind the captured ones |
| `CaptureLaws.Ipv6TransportExact` | JpcapSource/jpcap-0.7/src/c/JpcapCaptor.c:739-793 | an IPv6 frame is given TCP, UDP or ICMP if and only if its base header announces that protocol and the transport header was captured |
| `CaptureLaws.ChainedTransportExact` | JpcapSource/jpcap-0.7/src/c/JpcapCaptor.c:739-793 | the protocol a chain of extension headers ends in is recognised if and only if the chain is empty and the transport header was captured |
| `CaptureLaws.ChainFollowsWalk` | JpcapSource/jpcap-0.7/src/c/JpcapCaptor.c:739-771 | from where it starts, the loop agrees with the walk of analyze_ipv6 over any headers, if octets are left before each of them and no routing header is long |
| `CaptureLaws.ExtensionHidesTransport` | JpcapSource/jpcap-0.7/src/c/JpcapCaptor.c:797-818 | with an announced extension header the packet object is a plain IP packet without a transport part |
| `CaptureLaws.UnknownIsWhole` | JpcapSource/jpcap-0.7/src/c/JpcapCaptor.c:718-722 | a frame of unknown type is handed over whole as data |
| `CaptureLaws.WritePacket` | JpcapSource/jpcap-0.7/src/c/JpcapWriter.c:53-75 | the record is header, body and leftover of the buffer, cut to caplen |
| `CaptureLaws.RecordRebuildsFrame` | JpcapSource/jpcap-0.7/src/c/JpcapWriter.c:65-74 | every capture, clamped or not, is written back byte for byte as far as it reaches; the record is the whole frame if and only if it reaches the end or the leftover agrees with the rest |
| `RoundTrip.FragmentFieldsExact` | JpcapSource/jpcap-0.7/src/c/packet_ip.c:50-53 | for every offset a short can hold, flags and offset come back on a little-endian host if and only if the offset has 13 bits, its two octets are equal and no flag is set |
| `RoundTrip.FlagsReadExactly` | JpcapSource/jpcap-0.7/src/c/packet_ip.c:50-53 | for every header the offset read is that of RFC 791, and the flags are if and only if the top three bits of octets 6 and 7 agree |
| `RoundTrip.IpReads` | JpcapSource/jpcap-0.7/src/c/packet_ip.c:26-74 | analysing a built header gives back the carried fields, for all field values and flags of a packet whose payload starts the datagram; the header length is 20, the total length is right and the payload is not taken for a later fragment |
| `RoundTrip.CarriedExactly` | JpcapSource/jpcap-0.7/src/c/packet_ip.c:42-58 | the IPv4 fields come back as they were if and only if priority, reserved bits and hop limit fit their header fields, the identification is a signed short and no flag is set |
| `RoundTrip.IdentExactly` | JpcapSource/jpcap-0.7/src/java/jpcap/packet/IPPacket.java:200-218 | the identification comes back if and only if it is a signed short; above that it comes back 65536 too small, 40000 as -25536 |
| `RoundTrip.TcpReads` | JpcapSource/jpcap-0.7/src/c/packet_tcp.c:22-71 | analysing a built TCP header gives back all flags, the low octets of every number and the header length 20 |
| `RoundTrip.CarriedTcpExactly` | JpcapSource/jpcap-0.7/src/c/packet_tcp.c:31-45 | the TCP fields come back as they were if and only if ports, window and sequence numbers fit their header fields |
| `RoundTrip.ArpReads` | JpcapSource/jpcap-0.7/src/c/packet_arp.c:21-55 | analysing a built ARP packet gives back all fields and addresses |
| `RoundTrip.ArpReadsAny` | JpcapSource/jpcap-0.7/src/c/packet_arp.c:21-55 | every ARP packet drawn as in RFC 826, with addresses of any length, is read field by field |
| `Loopback.LoopRecovers` | JpcapSource/jpcap-0.7/src/c/JpcapCaptor.c:696-904 | for every packet of a known class whose payload starts the datagram, every earlier buffer content and every value of the uninitialised variable, analysing its frame gives back class, carried fields and exactly the data, without padding; for ICMP the eight header octets are cut off and timestamps or mask come back as the data, of error messages only its length |
| `Loopback.HeadersExactly` | JpcapSource/jpcap-0.7/src/c/JpcapCaptor.c:696-904 | the captured headers equal the sent ones if and only if every field is in its range and no fragment flag is set |
| `Loopback.SendAndCapture` | JpcapSource/jpcap-0.7/src/c/JpcapSender.c:155-172 | building, padding and capturing as one run recovers class, addresses, carried fields and data in the sense of `Recovered` |
| `Sorting.SortIsStable` | src/traceapp/src/test/java/tests/DummySwitch.java:71 | the table sort is sorted and a stable permutation of its input |
| `Sorting.StableSortUnique` | src/traceapp/src/test/java/tests/DummySwitch.java:71 | there is only one sorted stable permutation, so any implementation with the documented contract of Collections.sort computes it |
| `FlowTable.DummySwitch.AddFlow` | src/traceapp/src/test/java/tests/DummySwitch.java:65-72 | after any additions the table is the stable sort of the added flows |
| `FlowTable.DummySwitch.GetPort` | src/traceapp/src/test/java/tests/DummySwitch.java:136-141 | the binary search returns exactly the port with the number, and tells the two ways of not finding it apart |
| `FlowTable.DummySwitch.Lookup` | src/traceapp/src/test/java/tests/DummySwitch.java:152-158 | a flow is found if and only if all criteria of some added flow have no in-port or that of the packet, and the type 0x8220 for a trace packet or 0 for a ping; it is then the earliest added one of least priority value among these |
| `FlowTable.BestIsFirst` | src/traceapp/src/test/java/tests/Flow.java:41-60 | the first match of the sorted table is that flow, for every sequence of additions |
| `FlowTable.OneFlow` | src/traceapp/src/test/java/tests/Match.java:35-69 | after one addition to a new switch: the flow is used for the packets with its type at its port, for all in-ports and types |
| `Wiring.NoSwitchTwice` | src/traceapp/src/test/java/tests/DummySwitch.java:164-168 | on a loop-free wiring no packet enters a switch twice |
| `Wiring.WalksDiverge` | src/traceapp/src/test/java/tests/DummySwitch.java:164-168 | two copies that leave one switch by different ports never meet |
| `Flooding.BelowShrinks` | src/traceapp/src/test/java/tests/Port.java:46-59 | every hop strictly shrinks the set of ends still ahead, the measure by which flooding ends |
| `Flooding.FloodOnce` | src/traceapp/src/test/java/tests/DummySwitch.java:147-169 | a flood reaches every host some walk leads to exactly once, and no other host |
| `Flooding.ReceiversOnce` | src/traceapp/src/test/java/tests/DummyHost.java:45-48 | what a host sends reaches every connected host exactly once and never the host itself |
| `Flooding.PathConnects` | src/traceapp/src/test/java/tests/Port.java:46-59 | hosts joined by any path of enabled ports are connected in the sense used here |
| `Flooding.ConnectedExactly` | src/traceapp/src/test/java/tests/Port.java:46-59 | two hosts are connected if and only if a path of wires with both ports enabled joins them |
| `PingRun.Harness.SendPingRequest` | src/traceapp/src/test/java/tests/DummyHost.java:35-49 | the call ends; what happens is the sending, then for each receiver in order its delivery and, at the addressed host, the deliveries of its reply |
| `PingRun.Harness.SwitchPacketIn` | src/traceapp/src/test/java/tests/DummySwitch.java:147-169 | one packet-in ends and delivers to exactly the hosts of its flood, in order |
| `PingRun.Harness.Transmit` | src/traceapp/src/test/java/tests/Port.java:46-59 | a packet crosses a wire when both ports are enabled, and everything behind it happens before the call returns |
| `PingRun.Harness.HostPacketIn` | src/traceapp/src/test/java/tests/DummyHost.java:98-108 | a request for the host is answered on the spot, a reply is logged |
| `PingRun.Harness.SendPingReply` | src/traceapp/src/test/java/tests/DummyHost.java:51-61 | a reply is delivered to every receiver of the host, and nothing else happens |
| `PingLaws.PingExactlyOnce` | src/traceapp/src/test/java/tests/DummySwitch.java:147-169 | on every loop-free wiring, for any distinct long addresses and any long as target: the request reaches every connected host once; the reply of the host whose address is the int in the packet reaches every host connected to it once; no packet returns to its sender, and nothing else is delivered |
| `PingLaws.AddressedExactly` | src/traceapp/src/test/java/tests/DummyHost.java:103-106 | the host with the target address is the one that answers if and only if its address is an int |
| `PingLaws.SenderLogsOneReply` | src/traceapp/src/test/java/tests/DummyHost.java:107-108 | for all addresses the sender logs exactly one reply when a host that answers is connected and none otherwise |
| `PingLaws.AnsweredExactly` | src/traceapp/src/test/java/tests/DummyHost.java:35-61 | a ping to a host is answered with the address of that host if and only if the host is connected to the sender and its address is an int; then the answer is the only message |
| `PingLaws.LargeAddressIsSilent` | src/traceapp/src/test/java/tests/DummyHost.java:103-106 | a ping to a host with the address 192.168.1.1 brings no answer on any wiring |
| `PingLaws.PingDelivers` | src/traceapp/src/test/java/tests/DummyHost.java:35-49 | on the objects, for all distinct addresses and after any history: a ping delivers its request once to each host connected to the sender and the reply once to each host connected to the one that answers |
| `PingLaws.PingIsAnswered` | src/traceapp/src/test/java/tests/DummyHost.java:35-49 | on the objects, for all distinct addresses: a ping adds its announcement to the console of the sender, then unreachable, one reply or nothing; between connected hosts with an int as target exactly the two messages of the announcement and the reply |
| `TraceCodec.TracePacket.Serialize` | src/traceapp/src/main/java/core/TracePacket.java:147-172 | serialising never overruns the array and yields the wire form, the controller id counted twice |
| `TraceCodec.TracePacket.Deserialize` | src/traceapp/src/main/java/core/TracePacket.java:184-210 | deserialising succeeds if and only if the reads stay in bounds, and sets the fields to the decoded ones |
| `TraceCodec.TracePacket.ConvertToReply` | src/traceapp/src/main/java/core/TracePacket.java:241-251 | only a request is turned around, with source and destination swapped |
| `TraceCodec.FirstOctetExact` | src/traceapp/src/main/java/core/TracePacket.java:150-155 | the first octet is the positive total length if and only if the controller id has at most 31 characters |
| `TraceCodec.WireLayout` | src/traceapp/src/main/java/core/TracePacket.java:147-172 | every field of a packet stands at its place, the switch info, the length and the text of the controller id included; the rest is zeros |
| `TraceCodec.FieldsComeBack` | src/traceapp/src/main/java/core/TracePacket.java:184-205 | wherever the packet lies, every field before the switch info comes back for every value |
| `TraceCodec.InfoComesBack` | src/traceapp/src/main/java/core/SwitchInfo.java:101-128 | read where it was written, the switch info gives back dpid, address, latency and ingress port |
| `TraceCodec.InfoSurvivesExactly` | src/traceapp/src/main/java/core/TracePacket.java:207 | read at offset 21 as the code does, the switch info survives if and only if probe id, hop, timestamp, request flag and dpid have the octets of dpid, address, latency and ingress port |
| `TraceCodec.FreshInfoIsLost` | src/traceapp/src/main/java/core/TracePacket.java:79-80 | a packet with the default switch info never brings its ingress port back |
| `TraceCodec.FreshPacketExample` | src/traceapp/src/main/java/core/TracePacket.java:67-81 | one such packet |
| `TraceCodec.IngressReadIsDpid` | src/traceapp/src/main/java/core/TracePacket.java:207 | what is read as the ingress port is the low half of the dpid |
| `TraceCodec.LatencyReadIs` | src/traceapp/src/main/java/core/TracePacket.java:205-208 | what is read for the latency: the low three octets of the timestamp, the request flag and the high half of the dpid |
| `TraceController.TraceAppController.SwitchInfoReceived` | src/traceapp/src/main/java/core/TraceAppController.java:90-106 | the map stays the last-writer view of the log: this switch's whole map is replaced; replies and hop counters stay |
| `TraceController.TraceAppController.OnPortStatusChange` | src/traceapp/src/main/java/core/TraceAppController.java:210-231 | the map stays the last-writer view: one address of one switch is set |
| `TraceController.TraceAppController.SearchForSwitch` | src/traceapp/src/main/java/core/TraceAppController.java:172-180 | in any iteration order the search returns a switch that knows the address, or -1 when none does |
| `TraceController.FindsByLog` | src/traceapp/src/main/java/core/TraceAppController.java:172-180 | the same in terms of what the controller was told |
| `TraceController.RouteMeetsMapExactly` | src/traceapp/src/main/java/core/TraceAppController.java:115-133 | looking up with a MacAddress always floods; this is what the map asks for if and only if no switch has the source address; otherwise it asks for the port that a switch has it on |
| `TraceController.TraceAppController.SendReply` | src/traceapp/src/main/java/core/TraceAppController.java:145-161 | the reply is addressed back, carries the counter of its probe, and the counter grows by one modulo 256 |
| `TraceController.TraceAppController.HandleTrace` | src/traceapp/src/main/java/core/TraceAppController.java:112-135 | one reply is sent, flooded at the switch the request came in on |
| `TraceController.HopStep` | src/traceapp/src/main/java/core/TraceAppController.java:154-158 | the invariant of every run: the k-th reply of each probe carries k as a signed octet, and the counter is the number of replies; a request of one probe leaves the others alone |
| `TraceController.TraceAppController.Receive` | TraceModule.java:230-246 | only a decodable request with the trace type is answered; anything else leaves replies and counters alone; replies stay as many as accepted requests |
| `TraceController.TraceAppController.PacketIn` | src/traceapp/src/main/java/core/TraceAppController.java:190-203 | raw octets are answered whenever they decode |
| `TraceController.FrameAnsweredExactly` | TraceModule.java:230-246 | a frame that carries a packet is answered if and only if it has the trace type, carries a request and its length octet covers the fixed part |
| `TraceController.FrameAcceptedExactly` | TraceModule.java:230-246 | on the octets of any frame: it is accepted if and only if its type is 0x8220, octet 14 is a length between 37 and 127 that the frame has and octet 50 is 1; addresses and probe id are read at octets 15, 23 and 33 |
| `TraceController.ReplyIsNotAnswered` | TraceModule.java:241-246 | a frame that carries a reply is never accepted, whatever its type and however long its controller id |
| `TraceController.RawAnsweredExactly` | src/traceapp/src/main/java/core/TraceAppController.java:190-203 | raw octets of a packet, request or reply, are answered if and only if the first octet covers the fixed part, which is a condition on the length of the controller id modulo 128 |
| `TraceController.RawAcceptedExactly` | src/traceapp/src/main/java/core/TraceAppController.java:190-203 | on any octets: accepted if and only if there are 49 of them and the first is a length between 37 and 127 that they have |
| `TraceController.OwnReplyReturns` | TraceModule.java:230-246 | no reply sent in any run breeds another when its frame comes back in |
| `TraceClient.SendTrace` | src/traceapp/src/main/java/core/TraceClient.java:139-153 | a trace packet sent through the builder and captured arrives octet for octet, passes the 0x8220 test and decodes to the same fields; the captured Ethernet header holds the two addresses as numbers and the type 0x8220 |
| `TraceClient.PrintedIsReport` | src/traceapp/src/main/java/core/TraceClient.java:115-128 | skipping repetitions in a sorted array prints increasing hops, the first packet of each, and all of them except -1 when it comes first |
| `TraceClient.TraceReceiver.ReceivePacket` | src/traceapp/src/main/java/core/TraceClient.java:163-189 | exactly the decodable trace packets are collected, in order, and the latency maps follow |
| `TraceClient.TraceReceiver.PrintReport` | src/traceapp/src/main/java/core/TraceClient.java:101-128 | strictly increasing hops, each shown by its first collected copy; in 64 bits the worst case is timestamp minus start time of its latest copy, the best case is less by the latency it carries; a collected hop is missing if and only if it is -1 and the smallest |
| `TraceClient.CompleteIsTrusted` | src/traceapp/src/main/java/core/TraceClient.java:163-189 | a hop is printed if and only if its reply arrived, or it is hop 0 and the own request was captured; hop 0 shows a reply if and only if a reply was the first of the two |
| `TraceClient.TraceRun` | src/traceapp/src/main/java/core/TraceClient.java:101-189 | the whole run against a controller in any state with at most 128 replies: whatever is lost, repeated or reordered, and however often the own request is captured, the hops that arrived are printed in order, each by its first copy, and with the latencies of its last copy: timestamp of that reply minus start time, and less by what is read for its latency |
| `TraceClient.LatenciesInNumbers` | src/traceapp/src/main/java/core/TraceClient.java:180-181 | where nothing wraps in 64 bits, the worst case is timestamp minus start time and exceeds the best case by the latency |
| `Timestamps.EpochIs1970` | JpcapSource/jpcap-0.7/src/c/win32/WpdPack/Include/time_calls.h:138 | the constant of the code is the time from 1601 to 1970 in the Gregorian calendar: the microseconds start at zero there |
| `Timestamps.SynchronizeOnCpu` | JpcapSource/jpcap-0.7/src/c/win32/WpdPack/Include/time_calls.h:125-153 | the start pair is the normalised form of floor(S/10) - 11644473600*10^6 - floor(P0*10^6/f) microseconds, with a single borrow |
| `Timestamps.ReadCounter` | JpcapSource/jpcap-0.7/src/c/win32/WpdPack/Include/time_calls.h:341-376 | adding a counter value to a normalised pair gives the normalised form of the exact total, with a single carry |
| `Timestamps.GreatestIsMaximum` | JpcapSource/jpcap-0.7/src/c/win32/WpdPack/Include/time_calls.h:360-366 | the fix-up value in microseconds is an upper bound of all readings and the time of one of them, or the initial zero |
| `Timestamps.TimeConv.TimeSynchronize` | JpcapSource/jpcap-0.7/src/c/win32/WpdPack/Include/time_calls.h:268-305 | each processor, or the first only, is given the pair of its own clocks, once; the other pairs stay |
| `Timestamps.FixedUpStep` | JpcapSource/jpcap-0.7/src/c/win32/WpdPack/Include/time_calls.h:360-366 | one fix-up keeps returned timestamps normalised, never decreasing in microseconds and equal to the running maximum of the readings |
| `Timestamps.AfterIsLater` | JpcapSource/jpcap-0.7/src/c/win32/WpdPack/Include/time_calls.h:360 | the order by which the fix-up compares normalised pairs is the order of their microseconds |
| `Timestamps.TimeConv.GetTimeKQPC` | JpcapSource/jpcap-0.7/src/c/win32/WpdPack/Include/time_calls.h:333-378 | in the fix-up mode, for any sequence of readings through one static variable, from any clocks and processors with arbitrary normalised start pairs, the timestamp returned is, in microseconds, the greater of the reading and the previous one, so they never decrease; in the other modes the reading is exact |
| `Timestamps.SynchronizeAndRead` | JpcapSource/jpcap-0.7/src/c/win32/WpdPack/Include/time_calls.h:268-378 | synchronising and reading gives floor(S/10) - 11644473600*10^6 + floor(P*10^6/f) - floor(P0*10^6/f) microseconds, seconds wrapping; inside the range of LONG the returned pair is exactly that total, and what it adds to the system time is within one microsecond of the true elapsed time |
| `Timestamps.GetTimeRDTSC` | JpcapSource/jpcap-0.7/src/c/win32/WpdPack/Include/time_calls.h:390-428 | for every counter value the pair read is the exact total if and only if a guard on counter and reference holds; it does while less than 2^31 seconds were counted |
| `Timestamps.GuardUpTo32Bits` | JpcapSource/jpcap-0.7/src/c/win32/WpdPack/Include/time_calls.h:416 | up to 2^32 Hz the guard says that the 64-bit product does not overflow and the reference divides what the wrapped seconds add to its upper half |
| `Timestamps.RdtscOverflows` | JpcapSource/jpcap-0.7/src/c/win32/WpdPack/Include/time_calls.h:416 | after 2^31 seconds at 1 GHz the microseconds are wrong and the guard fails |

## Left out

- IPv6 sending and its pseudo-header, ICMP decoding and the contents of IPv6 options: byte order and offsets of that code support no clean property.
- JNI lookups, pcap and socket calls, device listing, filters and statistics: foreign code; packet objects are datatypes and buffers are arrays.
- Null arrays in packet objects: a null `data` array is modelled as an empty one.
- Byte order of the packet builder: fixed to little-endian; only the checksum routines are proved for both.
- Reaching past the local buffer: the sender's contracts ask that the packet and the returned length fit the 1600 octets of the buffer, and `WritePacket` that header, body and caplen do; the original does not check.
- SetArp: asks that the address arrays have the octets their length fields promise; the exceptions of shorter arrays are not modelled.
- LoopRecovers: ICMP types that `set_icmp` does not build, the octets behind the header of ICMP error messages (only their number is stated), ARP packets with address lengths other than 6 and 4, later fragments, and frames of other types that are shorter than 60 octets, whose padding the captor hands over as data.
- AnalyzeIpv6: reports a fault instead of following the pointer out of memory; option contents are skipped.
- InsideExactly: asks that the link header was captured and says nothing when the 16-bit length arithmetic wraps or the length of an IPv6 header chain does.
- Ip4Cut: asks that an octet behind the link header was captured and that fewer than 32768 octets were.
- Ip4CutOff: asks that the frame announced ends below octet 32768.
- Ip6Cut: asks that an octet behind the IPv6 header was captured, that its version is 6 and that the chain is shorter than 32728 octets; with a cut-off transport header only `CaptureConserves` applies.
- ArpCut: asks that more octets than the 28 of an Ethernet ARP packet were captured; with fewer the uninitialised variable decides about the clamp.
- OtherCut: the Ethernet types 1, 6 and 17, which the code confuses with transport protocols.
- CaptureConserves: says nothing when the 16-bit length arithmetic wraps.
- WalkFindsChain: a routing header of length 2 or more before another header is excluded, because the walk then misreads the chain (`LongRoutingMisread`).
- PingExactlyOnce: hosts that share an address, and pings over tables in which no flow matches them; a matching flow may send packets round in circles.
- The wiring of hosts and switches is a value while a ping runs; plugging, enabling, port status messages and trace packets in the harness, and random topologies, are not part of this model.
- `Collections.sort`, `Arrays.sort` and the collection classes: modelled by their documented contracts.
- Fields of `Match` that `isMatch` never looks at, and packets other than pings and traces.
- DummySwitch.constructor: only the ports and the empty table; addresses and the plug counter are left out.
- Controller ids that are not ASCII: `serialize` counts characters and writes octets, which differ then.
- IPv6 switch addresses: only their first four octets would be written.
- Receive: the payload of the Ethernet object is taken as the octets the gate indexes at 14; `TraceModule.java` hands its controller the decoded packet, with the switch info as an input here.
- TraceRun: trace packets of other clients and other probes, which the client would collect too.
- Frequency: counter frequencies above 2^63 / 10^6 Hz, where the product of the original overflows, are excluded by the type.
- GetTimeRDTSC: a reference of zero, for which the original returns without a value.
- TimeSynchronizeRDTSC, the system-time mode and the registry mode switch: reading a calibration or copying one clock.
- Floodlight modules, flow-mod writing, file output, debug text and console printing.
