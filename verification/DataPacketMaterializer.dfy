/** The fixed Ethernet / IPv4 / UDP envelope, written in front of a canonical image that is
    already in the packet buffer. */
module Materializer {
  import opened Bytes
  import opened Checksum

  const ETHERNET_SIZE := 14
  const IPV4_SIZE := 20
  const UDP_SIZE := 8
  const OUTER_HEADER_SIZE := 42
  const CANONICAL_CAPACITY := 1472
  const MAX_DATA_PACKET_SIZE := 1514

  // 16-bit fields hold what the host reads from the two bytes in memory.
  datatype Ethernet = Ethernet(dst: seq<Byte>, src: seq<Byte>, etherType: nat)

  datatype Ipv4 = Ipv4(
    versionIhl: Byte, typeOfService: Byte, totalLength: nat, packetId: nat, fragmentOffset: nat,
    timeToLive: Byte, nextProtoId: Byte, hdrChecksum: nat, src: seq<Byte>, dst: seq<Byte>)

  datatype Udp = Udp(srcPort: nat, dstPort: nat, dgramLen: nat, dgramCksum: nat)

  datatype Destination = Destination(ethernet: Ethernet, ipv4: Ipv4, udp: Udp, checksumBase: nat)

  function CpuToBe16(v: nat): nat {
    Swap(v % 0x1_0000)
  }

  function EthernetImage(e: Ethernet): seq<Byte> {
    e.dst + e.src + ToLE(e.etherType, 2)
  }

  function Ipv4Image(h: Ipv4): seq<Byte> {
    [h.versionIhl, h.typeOfService] + ToLE(h.totalLength, 2) + ToLE(h.packetId, 2)
    + ToLE(h.fragmentOffset, 2) + [h.timeToLive, h.nextProtoId] + ToLE(h.hdrChecksum, 2) + h.src + h.dst
  }

  function UdpImage(u: Udp): seq<Byte> {
    ToLE(u.srcPort, 2) + ToLE(u.dstPort, 2) + ToLE(u.dgramLen, 2) + ToLE(u.dgramCksum, 2)
  }

  // rte_raw_cksum(&ipv4, sizeof(ipv4))
  function RawCksum(h: Ipv4): nat
    requires |h.src| == 4 && |h.dst| == 4
  {
    Reduce(HostSum(Ipv4Image(h), 10))
  }

  // A destination as prepare_destination leaves it, for some addresses and port.
  predicate Prepared(d: Destination) {
    && |d.ethernet.dst| == 6 && |d.ethernet.src| == 6
    && |d.ipv4.src| == 4 && |d.ipv4.dst| == 4
    && d.ipv4.versionIhl == 0x45 && d.ipv4.totalLength == 0 && d.ipv4.hdrChecksum == 0
    && d.ipv4.packetId <= ONES && d.ipv4.fragmentOffset <= ONES
    && d.checksumBase == RawCksum(d.ipv4)
  }

  // What prepare_destination makes of its arguments.
  predicate PreparedFor(d: Destination, localMac: seq<Byte>, nextHopMac: seq<Byte>,
                        localIp: seq<Byte>, receiverIp: seq<Byte>, dataPort: nat)
  {
    && |localMac| == |nextHopMac| == 6 && |localIp| == |receiverIp| == 4 && dataPort <= ONES
    && Prepared(d)
    && EthernetImage(d.ethernet) == nextHopMac + localMac + [0x08, 0x00]
    && Ipv4Image(d.ipv4) == [0x45, 0, 0, 0, 0, 0, 0x40, 0, 64, 17, 0, 0] + localIp + receiverIp
    && UdpImage(d.udp) == ToBE(dataPort, 2) + ToBE(dataPort, 2) + [0, 0, 0, 0]
  }

  lemma SwapBytes(v: nat)
    requires v <= ONES
    ensures ToLE(Swap(v), 2) == ToBE(v, 2)
  {
    var lo, hi := v % 256, v / 256;
    assert Swap(v) == 256 * lo + hi && hi < 256;
    assert Swap(v) % 256 == hi && Swap(v) / 256 == lo;
    assert ToLE(Swap(v), 2) == [hi] + ToLE(lo, 1);
    assert ToLE(lo, 1) == [lo] + ToLE(0, 0);
    assert ToBE(v, 2) == ToBE(hi, 1) + [lo];
    assert ToBE(hi, 1) == ToBE(0, 0) + [hi];
  }

  lemma TwoBytes(v: nat)
    requires v <= ONES
    ensures ToLE(v, 2) == [v % 256, v / 256]
  {
    assert ToLE(v / 256, 1) == [v / 256] + ToLE(0, 0);
  }

  function Template(src: seq<Byte>, dst: seq<Byte>): Ipv4 {
    Ipv4(0x45, 0, 0, 0, CpuToBe16(0x4000), 64, 17, 0, src, dst)
  }

  lemma TemplateImage(src: seq<Byte>, dst: seq<Byte>)
    ensures Template(src, dst).fragmentOffset <= ONES
    ensures Ipv4Image(Template(src, dst)) == [0x45, 0, 0, 0, 0, 0, 0x40, 0, 64, 17, 0, 0] + src + dst
  {
    TwoBytes(0);
    TwoBytes(0x40);
    assert CpuToBe16(0x4000) == 0x40;
  }

  lemma FrameTypeImage(dst: seq<Byte>, src: seq<Byte>)
    ensures EthernetImage(Ethernet(dst, src, CpuToBe16(0x0800))) == dst + src + [0x08, 0x00]
  {
    TwoBytes(8);
    assert CpuToBe16(0x0800) == 8;
  }

  lemma PortImage(u: Udp, dataPort: nat)
    requires dataPort <= ONES && u == Udp(CpuToBe16(dataPort), CpuToBe16(dataPort), 0, 0)
    ensures UdpImage(u) == ToBE(dataPort, 2) + ToBE(dataPort, 2) + [0, 0, 0, 0]
  {
    assert UdpImage(u) == ToLE(u.srcPort, 2) + ToLE(u.dstPort, 2) + ToLE(0, 2) + ToLE(0, 2);
    TwoBytes(0);
    CpuToBeBytes(dataPort);
  }

  method PrepareDestination(localMac: seq<Byte>, nextHopMac: seq<Byte>,
                            localIp: seq<Byte>, receiverIp: seq<Byte>, dataPort: nat)
    returns (d: Destination)
    requires |localMac| == |nextHopMac| == 6 && |localIp| == |receiverIp| == 4 && dataPort <= ONES
    ensures PreparedFor(d, localMac, nextHopMac, localIp, receiverIp, dataPort)
  {
    var ethernet := Ethernet([], [], 0);
    ethernet := ethernet.(dst := nextHopMac);
    ethernet := ethernet.(src := localMac);
    ethernet := ethernet.(etherType := CpuToBe16(0x0800));

    var ipv4 := Ipv4(0, 0, 0, 0, 0, 0, 0, 0, [], []);
    ipv4 := ipv4.(versionIhl := 0x45);
    ipv4 := ipv4.(fragmentOffset := CpuToBe16(0x4000));
    ipv4 := ipv4.(timeToLive := 64);
    ipv4 := ipv4.(nextProtoId := 17);
    ipv4 := ipv4.(src := localIp);
    ipv4 := ipv4.(dst := receiverIp);

    var udp := Udp(0, 0, 0, 0);
    udp := udp.(srcPort := CpuToBe16(dataPort));
    udp := udp.(dstPort := CpuToBe16(dataPort));

    d := Destination(ethernet, ipv4, udp, RawCksum(ipv4));

    assert ipv4 == Template(localIp, receiverIp);
    TemplateImage(localIp, receiverIp);
    FrameTypeImage(nextHopMac, localMac);
    PortImage(udp, dataPort);
  }

  // The headers of a packet with a canonical image of the given size.
  function FinalIpv4(d: Destination, size: nat): Ipv4 {
    var total := CpuToBe16(IPV4_SIZE + UDP_SIZE + size);
    d.ipv4.(totalLength := total, hdrChecksum := Patched(d.checksumBase, total))
  }

  function FinalUdp(d: Destination, size: nat): Udp {
    d.udp.(dgramLen := CpuToBe16(UDP_SIZE + size), dgramCksum := 0)
  }

  function OuterHeader(d: Destination, size: nat): seq<Byte> {
    EthernetImage(d.ethernet) + Ipv4Image(FinalIpv4(d, size)) + UdpImage(FinalUdp(d, size))
  }

  lemma ImageSizes(d: Destination, size: nat)
    requires Prepared(d)
    ensures |EthernetImage(d.ethernet)| == ETHERNET_SIZE
    ensures |Ipv4Image(FinalIpv4(d, size))| == IPV4_SIZE && |UdpImage(FinalUdp(d, size))| == UDP_SIZE
  {
  }

  lemma OuterHeaderLength(d: Destination, size: nat)
    requires Prepared(d)
    ensures |OuterHeader(d, size)| == OUTER_HEADER_SIZE
  {
    ImageSizes(d, size);
  }

  lemma HeaderParts(d: Destination, size: nat)
    requires Prepared(d)
    ensures |OuterHeader(d, size)| == OUTER_HEADER_SIZE
    ensures OuterHeader(d, size)[16..18] == ToLE(FinalIpv4(d, size).totalLength, 2)
    ensures OuterHeader(d, size)[38..40] == ToLE(FinalUdp(d, size).dgramLen, 2)
    ensures OuterHeader(d, size)[40..42] == [0, 0]
  {
    var e, i, u := EthernetImage(d.ethernet), Ipv4Image(FinalIpv4(d, size)), UdpImage(FinalUdp(d, size));
    assert |e| == ETHERNET_SIZE && |i| == IPV4_SIZE && |u| == UDP_SIZE;
    assert i[2..4] == ToLE(FinalIpv4(d, size).totalLength, 2);
    assert u[4..6] == ToLE(FinalUdp(d, size).dgramLen, 2);
    TwoBytes(0);
    assert u[6..8] == ToLE(0, 2);
    assert (e + i + u)[16..18] == i[2..4];
    assert (e + i + u)[38..40] == u[4..6];
    assert (e + i + u)[40..42] == u[6..8];
  }

  // The length fields say, without truncation, how long the packet is; no UDP checksum.
  lemma LengthFields(d: Destination, size: nat)
    requires Prepared(d) && size <= CANONICAL_CAPACITY
    ensures var h := OuterHeader(d, size);
            && |h| == OUTER_HEADER_SIZE
            && ETHERNET_SIZE + FromBE(h[16..18]) == OUTER_HEADER_SIZE + size
            && FromBE(h[16..18]) == IPV4_SIZE + FromBE(h[38..40])
            && FromBE(h[38..40]) == UDP_SIZE + size
            && h[40..42] == [0, 0]
  {
    HeaderParts(d, size);
    NetworkValue(IPV4_SIZE + UDP_SIZE + size, OuterHeader(d, size)[16..18]);
    NetworkValue(UDP_SIZE + size, OuterHeader(d, size)[38..40]);
  }

  lemma BigEndianPair(v: nat)
    requires v <= ONES
    ensures FromBE(ToBE(v, 2)) == v
  {
    assert Range(1) == 256;
    BERoundTrip(v, 2);
  }

  lemma CpuToBeBytes(v: nat)
    requires v <= ONES
    ensures ToLE(CpuToBe16(v), 2) == ToBE(v, 2)
  {
    assert v % 0x1_0000 == v;
    SwapBytes(v);
  }

  // A field set through rte_cpu_to_be_16 reads back in network order.
  lemma NetworkValue(v: nat, b: seq<Byte>)
    requires v <= ONES && b == ToLE(CpuToBe16(v), 2)
    ensures FromBE(b) == v
  {
    CpuToBeBytes(v);
    BigEndianPair(v);
  }

  lemma SumWithoutChecksum(h: Ipv4)
    requires |h.src| == 4 && |h.dst| == 4 && h.totalLength <= ONES && h.hdrChecksum <= ONES
    requires h.packetId <= ONES && h.fragmentOffset <= ONES
    ensures HostSum(Ipv4Image(h), 10)
         == HostSum(Ipv4Image(h.(totalLength := 0, hdrChecksum := 0)), 10) + h.totalLength + h.hdrChecksum
  {
    TwoBytes(h.totalLength);
    TwoBytes(h.hdrChecksum);
    TwoBytes(0);
    var h0 := h.(totalLength := 0, hdrChecksum := 0);
    var h1 := h.(hdrChecksum := 0);
    ReplaceWord(Ipv4Image(h0), Ipv4Image(h1), 10, 1);
    ReplaceWord(Ipv4Image(h1), Ipv4Image(h), 10, 5);
  }

  lemma {:induction false} SumHasFirstWord(b: seq<Byte>, n: nat)
    requires 2 <= 2 * n <= |b|
    ensures HostSum(b, n) >= HostWord(b, 0)
  {
    if n == 1 {
    } else {
      SumHasFirstWord(b, n - 1);
    }
  }

  // The checksum patched from the precomputed base is the checksum recomputed over the whole
  // header, and the header passes a receiver's check in both byte orders.
  lemma ChecksumCorrect(d: Destination, size: nat)
    requires Prepared(d) && size <= CANONICAL_CAPACITY
    ensures var h := FinalIpv4(d, size);
            && h.hdrChecksum == ONES - RawCksum(h.(hdrChecksum := 0))
            && Reduce(HostSum(Ipv4Image(h), 10)) == ONES
            && Reduce(NetSum(Ipv4Image(h), 10)) == ONES
  {
    var h := FinalIpv4(d, size);
    var s := HostSum(Ipv4Image(d.ipv4), 10);
    SumBound(Ipv4Image(d.ipv4), 10);
    SumHasFirstWord(Ipv4Image(d.ipv4), 10);
    SwapIsShift(IPV4_SIZE + UDP_SIZE + size);
    PatchedIsRecomputed(s, h.totalLength);
    SumWithoutChecksum(h);
    SumWithoutChecksum(h.(hdrChecksum := 0));
    assert h.(totalLength := 0, hdrChecksum := 0) == d.ipv4;
    Verifies(Ipv4Image(h), 10, s + h.totalLength);
  }

  // And it is the checksum that RFC 791 and RFC 1071 define on network-order words.
  lemma ChecksumIsStandard(d: Destination, size: nat)
    requires Prepared(d) && size <= CANONICAL_CAPACITY
    ensures var h := FinalIpv4(d, size);
            FromBE(Ipv4Image(h)[10..12]) == ONES - Reduce(NetSum(Ipv4Image(h.(hdrChecksum := 0)), 10))
  {
    var h := FinalIpv4(d, size);
    var h0 := h.(hdrChecksum := 0);
    ChecksumCorrect(d, size);
    var b := Ipv4Image(h0);
    SumBound(b, 10);
    SumHasFirstWord(b, 10);
    ByteOrder(b, 10);
    var r := Reduce(HostSum(b, 10));
    ReduceKeeps(HostSum(b, 10));
    ReduceKeeps(NetSum(b, 10));
    SwapIsShift(r);
    assert (256 * r) % ONES == (256 * HostSum(b, 10)) % ONES by {
      ScaleClass(r, HostSum(b, 10));
    }
    SameClass(Swap(r), Reduce(NetSum(b, 10)));
    TwoBytes(h.hdrChecksum);
    assert Ipv4Image(h)[10..12] == ToLE(h.hdrChecksum, 2);
    var v := h.hdrChecksum;
    assert FromBE([v % 256, v / 256]) == Swap(v) by {
      assert [v % 256, v / 256][..1] == [v % 256];
      assert FromBE([v % 256]) == 256 * FromBE([]) + v % 256;
    }
  }

  // ---------- The envelope, byte by byte ----------

  // The headers in front of a canonical image of the given size; c are the two bytes of the
  // checksum.
  predicate Envelope(h: seq<Byte>, localMac: seq<Byte>, nextHopMac: seq<Byte>,
                     localIp: seq<Byte>, receiverIp: seq<Byte>, dataPort: nat, size: nat, c: seq<Byte>)
  {
    h == nextHopMac + localMac + [0x08, 0x00]
         + ([0x45, 0x00] + ToBE(28 + size, 2) + [0x00, 0x00, 0x40, 0x00, 0x40, 0x11] + c + localIp + receiverIp)
         + (ToBE(dataPort, 2) + ToBE(dataPort, 2) + ToBE(8 + size, 2) + [0x00, 0x00])
  }

  lemma Ipv4Bytes(d: Destination, localIp: seq<Byte>, receiverIp: seq<Byte>, size: nat, c: seq<Byte>)
    requires Prepared(d) && size <= CANONICAL_CAPACITY
    requires Ipv4Image(d.ipv4) == [0x45, 0, 0, 0, 0, 0, 0x40, 0, 64, 17, 0, 0] + localIp + receiverIp
    requires |localIp| == 4 && c == ToLE(FinalIpv4(d, size).hdrChecksum, 2)
    ensures Ipv4Image(FinalIpv4(d, size)) ==
            [0x45, 0x00] + ToBE(28 + size, 2) + [0x00, 0x00, 0x40, 0x00, 0x40, 0x11] + c + localIp + receiverIp
  {
    var (a, b) := (Ipv4Image(d.ipv4), Ipv4Image(FinalIpv4(d, size)));
    CpuToBeBytes(28 + size);
    assert b[..2] == a[..2] == [0x45, 0x00];
    assert b[2..4] == ToBE(28 + size, 2);
    assert b[4..10] == a[4..10] == [0x00, 0x00, 0x40, 0x00, 0x40, 0x11];
    assert b[10..12] == c;
    assert b[12..16] == a[12..16] == localIp && b[16..20] == a[16..20] == receiverIp;
    assert b == b[..2] + b[2..4] + b[4..10] + b[10..12] + b[12..16] + b[16..20];
  }

  lemma UdpBytes(d: Destination, dataPort: nat, size: nat)
    requires size <= CANONICAL_CAPACITY
    requires UdpImage(d.udp) == ToBE(dataPort, 2) + ToBE(dataPort, 2) + [0, 0, 0, 0]
    ensures UdpImage(FinalUdp(d, size)) == ToBE(dataPort, 2) + ToBE(dataPort, 2) + ToBE(8 + size, 2) + [0x00, 0x00]
  {
    var (a, b) := (UdpImage(d.udp), UdpImage(FinalUdp(d, size)));
    CpuToBeBytes(8 + size);
    TwoBytes(0);
    assert b[..4] == a[..4] == ToBE(dataPort, 2) + ToBE(dataPort, 2);
    assert b[4..6] == ToBE(8 + size, 2) && b[6..8] == [0x00, 0x00];
    assert b == b[..4] + b[4..6] + b[6..8];
  }

  // The header the network sees: every byte of it from the arguments of prepare_destination
  // and the size, and in it a checksum with which its ten words add up to a multiple of 65535.
  lemma EnvelopeBytes(d: Destination, localMac: seq<Byte>, nextHopMac: seq<Byte>,
                      localIp: seq<Byte>, receiverIp: seq<Byte>, dataPort: nat, size: nat)
    returns (c: seq<Byte>)
    requires PreparedFor(d, localMac, nextHopMac, localIp, receiverIp, dataPort) && size <= CANONICAL_CAPACITY
    ensures |c| == 2 && c == ToLE(FinalIpv4(d, size).hdrChecksum, 2)
    ensures Envelope(OuterHeader(d, size), localMac, nextHopMac, localIp, receiverIp, dataPort, size, c)
  {
    c := ToLE(FinalIpv4(d, size).hdrChecksum, 2);
    Ipv4Bytes(d, localIp, receiverIp, size, c);
    UdpBytes(d, dataPort, size);
  }

  // The ten 16-bit words of an IPv4 header, high bytes first.
  function TenWords(h: seq<Byte>): nat
    requires |h| == 20
  {
    256 * (h[0] as int + h[2] as int + h[4] as int + h[6] as int + h[8] as int
           + h[10] as int + h[12] as int + h[14] as int + h[16] as int + h[18] as int)
    + (h[1] as int + h[3] as int + h[5] as int + h[7] as int + h[9] as int
       + h[11] as int + h[13] as int + h[15] as int + h[17] as int + h[19] as int)
  }

  lemma TwoWords(h: seq<Byte>, n: nat)
    requires 2 * n + 4 <= |h|
    ensures NetSum(h, n + 2) == NetSum(h, n) + 256 * (h[2 * n] as int + h[2 * n + 2] as int)
                                + (h[2 * n + 1] as int + h[2 * n + 3] as int)
  {
    assert NetSum(h, n + 2) == NetSum(h, n + 1) + NetWord(h, n + 1);
    assert NetSum(h, n + 1) == NetSum(h, n) + NetWord(h, n);
  }

  lemma TenWordsSum(h: seq<Byte>)
    requires |h| == 20
    ensures NetSum(h, 10) == TenWords(h)
  {
    TwoWords(h, 0);
    TwoWords(h, 2);
    TwoWords(h, 4);
    TwoWords(h, 6);
    TwoWords(h, 8);
  }

  // The words add up to a multiple of 65535, and of the two representations of zero the
  // checksum is not the negative one: it is the only such value.
  lemma EnvelopeAddsUp(d: Destination, size: nat)
    requires Prepared(d) && size <= CANONICAL_CAPACITY
    ensures |Ipv4Image(FinalIpv4(d, size))| == 20 && TenWords(Ipv4Image(FinalIpv4(d, size))) % 65535 == 0
    ensures FinalIpv4(d, size).hdrChecksum < 65535
  {
    var h := FinalIpv4(d, size);
    ImageSizes(d, size);
    ChecksumCorrect(d, size);
    TenWordsSum(Ipv4Image(h));
    SumBound(Ipv4Image(h), 10);
    ReduceKeeps(NetSum(Ipv4Image(h), 10));
    var h0 := h.(hdrChecksum := 0);
    SumBound(Ipv4Image(h0), 10);
    SumHasFirstWord(Ipv4Image(h0), 10);
    ReduceKeeps(HostSum(Ipv4Image(h0), 10));
  }

  lemma ChecksumBytes(v: nat)
    requires v < 65535
    ensures ToLE(v, 2) != [0xFF, 0xFF]
  {
    TwoBytes(v);
  }

  lemma HeaderAddsUp(d: Destination, size: nat)
    requires Prepared(d) && size <= CANONICAL_CAPACITY
    ensures |OuterHeader(d, size)| == 42 && TenWords(OuterHeader(d, size)[14..34]) % 65535 == 0
    ensures ToLE(FinalIpv4(d, size).hdrChecksum, 2) != [0xFF, 0xFF]
  {
    ImageSizes(d, size);
    EnvelopeAddsUp(d, size);
    assert OuterHeader(d, size)[14..34] == Ipv4Image(FinalIpv4(d, size));
    ChecksumBytes(FinalIpv4(d, size).hdrChecksum);
  }

  // The fields that depend on the length.
  method FinalHeaders(d: Destination, size: nat) returns (ipv4: Ipv4, udp: Udp)
    ensures ipv4 == FinalIpv4(d, size) && udp == FinalUdp(d, size)
  {
    var udpSize := UDP_SIZE + size;
    var ipv4Size := IPV4_SIZE + udpSize;
    ipv4, udp := d.ipv4, d.udp;
    ipv4 := ipv4.(totalLength := CpuToBe16(ipv4Size));
    var sum := Fold(d.checksumBase + ipv4.totalLength);
    ipv4 := ipv4.(hdrChecksum := ONES - sum % 0x1_0000);
    udp := udp.(dgramLen := CpuToBe16(udpSize));
    udp := udp.(dgramCksum := 0);
  }

  // ---------- The packet buffer ----------

  lemma SplitAt(b: seq<Byte>, m: nat, n: nat)
    requires m <= n <= |b|
    ensures b[..n] == b[..m] + b[m..n] && b[m..n] == b[m..][..n - m]
  {
  }

  class Mbuf {
    const buf: array<Byte>
    var dataLen: nat

    // A buffer from the pool: its data room, nothing in it.
    constructor (room: nat)
      ensures buf.Length == room && dataLen == 0 && fresh(buf)
    {
      buf := new Byte[room];
      dataLen := 0;
    }

    // try_reserve_data_packet: where the canonical image goes, if there is room for the
    // largest packet.
    method TryReserve() returns (start: Option<nat>)
      modifies this
      ensures start.Some? <==> old(dataLen) + MAX_DATA_PACKET_SIZE <= buf.Length
      ensures start.Some? ==>
                start.value == old(dataLen) + OUTER_HEADER_SIZE && dataLen == old(dataLen) + MAX_DATA_PACKET_SIZE
      ensures start.None? ==> dataLen == old(dataLen)
    {
      if buf.Length < dataLen + MAX_DATA_PACKET_SIZE {
        return None;
      }
      start := Some(dataLen + OUTER_HEADER_SIZE);
      dataLen := dataLen + MAX_DATA_PACKET_SIZE;
    }

    method Write(pos: nat, bytes: seq<Byte>) returns (next: nat)
      requires pos + |bytes| <= buf.Length
      modifies buf
      ensures next == pos + |bytes|
      ensures buf[..pos] == old(buf[..pos]) && buf[next..] == old(buf[next..])
      ensures buf[pos..next] == bytes
    {
      forall k | 0 <= k < |bytes| {
        buf[pos + k] := bytes[k];
      }
      next := pos + |bytes|;
    }

    // finalize_data_packet: cuts the buffer to size and writes the three headers in front of
    // the canonical image, which stays as it is.
    method Finalize(d: Destination, size: nat)
      requires Prepared(d) && size <= CANONICAL_CAPACITY
      requires dataLen == MAX_DATA_PACKET_SIZE <= buf.Length
      modifies this, buf
      ensures dataLen == OUTER_HEADER_SIZE + size
      ensures buf[..dataLen] == OuterHeader(d, size) + old(buf[OUTER_HEADER_SIZE..OUTER_HEADER_SIZE + size])
    {
      ghost var before := buf[..];
      var unused := CANONICAL_CAPACITY - size;
      dataLen := dataLen - unused;
      var ipv4, udp := FinalHeaders(d, size);
      ImageSizes(d, size);
      WriteHeaders(EthernetImage(d.ethernet), Ipv4Image(ipv4), UdpImage(udp));
      SplitAt(buf[..], OUTER_HEADER_SIZE, dataLen);
      SplitAt(before, OUTER_HEADER_SIZE, dataLen);
    }

    // The three copies through an advancing output pointer.
    method WriteHeaders(ethernet: seq<Byte>, ipv4: seq<Byte>, udp: seq<Byte>)
      requires |ethernet| == ETHERNET_SIZE && |ipv4| == IPV4_SIZE && |udp| == UDP_SIZE
      requires OUTER_HEADER_SIZE <= buf.Length
      modifies buf
      ensures buf[..OUTER_HEADER_SIZE] == ethernet + ipv4 + udp
      ensures buf[OUTER_HEADER_SIZE..] == old(buf[OUTER_HEADER_SIZE..])
    {
      ghost var image := buf[OUTER_HEADER_SIZE..];
      var output := Write(0, ethernet);
      assert buf[OUTER_HEADER_SIZE..] == buf[output..][OUTER_HEADER_SIZE - output..] == image;
      output := Write(output, ipv4);
      assert buf[OUTER_HEADER_SIZE..] == buf[output..][OUTER_HEADER_SIZE - output..] == image;
      assert buf[..output] == buf[..ETHERNET_SIZE] + buf[ETHERNET_SIZE..output];
      ghost var done := buf[..output];
      output := Write(output, udp);
      assert buf[..output] == done + udp;
    }
  }

  // From the addresses to the finished buffer: every byte in front of the canonical image.
  method Materialize(mbuf: Mbuf, localMac: seq<Byte>, nextHopMac: seq<Byte>,
                     localIp: seq<Byte>, receiverIp: seq<Byte>, dataPort: nat, size: nat)
    returns (c: seq<Byte>)
    requires |localMac| == |nextHopMac| == 6 && |localIp| == |receiverIp| == 4 && dataPort <= ONES
    requires mbuf.dataLen == MAX_DATA_PACKET_SIZE <= mbuf.buf.Length && size <= CANONICAL_CAPACITY
    modifies mbuf, mbuf.buf
    ensures mbuf.dataLen == 42 + size
    ensures Envelope(mbuf.buf[..42], localMac, nextHopMac, localIp, receiverIp, dataPort, size, c)
    ensures |c| == 2 && c != [0xFF, 0xFF] && TenWords(mbuf.buf[14..34]) % 65535 == 0
    ensures mbuf.buf[42..42 + size] == old(mbuf.buf[42..42 + size])
  {
    var d := PrepareDestination(localMac, nextHopMac, localIp, receiverIp, dataPort);
    mbuf.Finalize(d, size);
    ghost var check := EnvelopeBytes(d, localMac, nextHopMac, localIp, receiverIp, dataPort, size);
    HeaderAddsUp(d, size);
    SplitAt(mbuf.buf[..], 42, 42 + size);
    ghost var h := mbuf.buf[..42];
    assert h == mbuf.buf[..mbuf.dataLen][..42] == OuterHeader(d, size);
    assert mbuf.buf[14..34] == h[14..34];
    assert mbuf.buf[24..26] == h[24..26] == check;
    c := mbuf.buf[24..26];
  }
}
