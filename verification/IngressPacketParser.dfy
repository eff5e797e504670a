/** What the receiver looks at before it believes that a packet is a Data packet, and the
    round trip from frames to wire and back. */
module IngressParser {
  import opened Bytes
  import opened Messages
  import opened PacketBuilder
  import opened Materializer

  const MIN_PACKET := 64
  const DATA_PREFIX: seq<Byte> := [0x4c, 0x4c, 0x44, 0x54, 0x01, 0x00, 0x16]

  // A view of the canonical image; packet_size is |data|.
  datatype CanonicalView = CanonicalView(data: seq<Byte>, dataSeq: nat, recordCount: nat)

  function TryParse(packet: seq<Byte>): (r: Option<CanonicalView>)
    ensures r.Some? ==> |packet| >= MIN_PACKET && r.value.data == packet[OUTER_HEADER_SIZE..]
    ensures r.Some? ==> |r.value.data| >= DATA_HEADER_SIZE
    ensures r.Some? ==> DATA_PREFIX <= r.value.data
  {
    if |packet| < MIN_PACKET then None
    else
      var data := packet[OUTER_HEADER_SIZE..];
      if data[..7] != DATA_PREFIX then None
      else Some(CanonicalView(data, FromBE(data[7..15]), FromBE(data[15..17])))
  }

  // The frames of an accepted packet, as the receiver's walk finds them in the packet and in
  // what its buffer holds behind it.
  function Records(p: Profile, view: CanonicalView, behind: seq<Byte>): Option<seq<Frame>>
    requires |view.data| >= DATA_HEADER_SIZE
  {
    Walk(p, view.data[DATA_HEADER_SIZE..] + behind, view.recordCount)
  }

  // The bytes of one Data packet on the wire.
  function WirePacket(d: Destination, dataSeq: nat, fs: seq<Frame>): seq<Byte> {
    OuterHeader(d, DATA_HEADER_SIZE + |Concat(fs)|) + Canonical(dataSeq, fs)
  }

  lemma PrefixBytes()
    ensures ToBE(MAGIC, 4) + ToBE(PROTOCOL_VERSION, 1) + ToBE(DATA_HEADER_SIZE, 2) == DATA_PREFIX
  {
    assert ToBE(0x4c, 1) == [0x4c];
    assert ToBE(0x4c4c, 2) == [0x4c, 0x4c];
    assert ToBE(0x4c4c44, 3) == [0x4c, 0x4c, 0x44];
    assert ToBE(MAGIC, 4) == [0x4c, 0x4c, 0x44, 0x54];
    assert ToBE(PROTOCOL_VERSION, 1) == [1];
    assert ToBE(0, 1) == [0];
    assert ToBE(DATA_HEADER_SIZE, 2) == [0, 0x16];
  }

  lemma HeaderFields(dataSeq: nat, recordCount: nat)
    requires dataSeq < 0x1_0000_0000_0000_0000 && recordCount < 0x1_0000
    ensures var h := HeaderImage(dataSeq, recordCount);
            h[..7] == DATA_PREFIX && FromBE(h[7..15]) == dataSeq && FromBE(h[15..17]) == recordCount
  {
    PrefixBytes();
    var h := HeaderImage(dataSeq, recordCount);
    var magic, version, length := ToBE(MAGIC, 4), ToBE(PROTOCOL_VERSION, 1), ToBE(DATA_HEADER_SIZE, 2);
    var prefix := magic + version + length;
    assert |prefix| == 7;
    assert h == prefix + (ToBE(dataSeq, 8) + (ToBE(recordCount, 2) + [0, 0, 0, 0, 0]));
    assert h[..7] == prefix;
    assert h[7..15] == ToBE(dataSeq, 8);
    assert h[15..17] == ToBE(recordCount, 2);
    RangeValues();
    BERoundTrip(dataSeq, 8);
    BERoundTrip(recordCount, 2);
  }

  lemma ParseImage(packet: seq<Byte>, image: seq<Byte>, dataSeq: nat, recordCount: nat)
    requires dataSeq < 0x1_0000_0000_0000_0000 && recordCount < 0x1_0000
    requires |packet| == OUTER_HEADER_SIZE + |image| && packet[OUTER_HEADER_SIZE..] == image
    requires HeaderImage(dataSeq, recordCount) <= image
    ensures TryParse(packet) == Some(CanonicalView(image, dataSeq, recordCount))
  {
    HeaderFields(dataSeq, recordCount);
    var h := HeaderImage(dataSeq, recordCount);
    assert image[..DATA_HEADER_SIZE] == h;
    assert image[..7] == h[..7] && image[7..15] == h[7..15] && image[15..17] == h[15..17];
  }

  lemma ImageParts(dataSeq: nat, fs: seq<Frame>)
    ensures |Canonical(dataSeq, fs)| == DATA_HEADER_SIZE + |Concat(fs)|
    ensures |fs| < 0x1_0000 ==> HeaderImage(dataSeq, |fs|) <= Canonical(dataSeq, fs)
    ensures Canonical(dataSeq, fs)[DATA_HEADER_SIZE..] == Concat(fs)
  {
    if |fs| < 0x1_0000 {
      assert |fs| % 0x1_0000 == |fs|;
    }
  }

  lemma WireParts(d: Destination, dataSeq: nat, fs: seq<Frame>)
    requires Prepared(d)
    ensures |WirePacket(d, dataSeq, fs)| == OUTER_HEADER_SIZE + |Canonical(dataSeq, fs)|
    ensures WirePacket(d, dataSeq, fs)[OUTER_HEADER_SIZE..] == Canonical(dataSeq, fs)
  {
    OuterHeaderLength(d, DATA_HEADER_SIZE + |Concat(fs)|);
  }

  lemma RecordsBack(p: Profile, dataSeq: nat, fs: seq<Frame>, behind: seq<Byte>)
    requires AllValid(p, fs)
    ensures |Canonical(dataSeq, fs)| >= DATA_HEADER_SIZE
    ensures Records(p, CanonicalView(Canonical(dataSeq, fs), dataSeq, |fs|), behind) == Some(fs)
  {
    ImageParts(dataSeq, fs);
    WalkRecovers(p, fs, behind);
  }

  // Whatever the destination and whatever lies behind the packet in its buffer, the receiver
  // gets back the sequence number, the count and the very frames, and its walk ends where the
  // packet ends.
  lemma RoundTrip(p: Profile, d: Destination, dataSeq: nat, fs: seq<Frame>, behind: seq<Byte>)
    requires Prepared(d) && dataSeq < 0x1_0000_0000_0000_0000
    requires AllValid(p, fs) && DATA_HEADER_SIZE + |Concat(fs)| <= CANONICAL_CAPACITY
    ensures |Canonical(dataSeq, fs)| >= DATA_HEADER_SIZE
    ensures TryParse(WirePacket(d, dataSeq, fs)) == Some(CanonicalView(Canonical(dataSeq, fs), dataSeq, |fs|))
    ensures Records(p, CanonicalView(Canonical(dataSeq, fs), dataSeq, |fs|), behind) == Some(fs)
    ensures Canonical(dataSeq, fs)[DATA_HEADER_SIZE..] == Concat(fs)
    ensures |WirePacket(d, dataSeq, fs)| <= MAX_DATA_PACKET_SIZE
  {
    AtMostSixty(p, fs);
    WireParts(d, dataSeq, fs);
    ImageParts(dataSeq, fs);
    RecordsBack(p, dataSeq, fs, behind);
    ParseImage(WirePacket(d, dataSeq, fs), Canonical(dataSeq, fs), dataSeq, |fs|);
  }

  // ---------- The packet, byte by byte ----------

  // What is taken for a Data packet: at least 64 bytes, and behind the 42 of the envelope the
  // mark, version 1 and header length 22; number and count follow in network order.
  lemma ParsesExactly(outer: seq<Byte>, mark: seq<Byte>, dataSeq: nat, count: nat, rest: seq<Byte>)
    requires |outer| == 42 && |mark| == 7
    requires dataSeq < 0x1_0000_0000_0000_0000 && count < 0x1_0000
    ensures var packet := outer + mark + ToBE(dataSeq, 8) + ToBE(count, 2) + rest;
            TryParse(packet) ==
            if |packet| >= 64 && mark == [0x4c, 0x4c, 0x44, 0x54, 0x01, 0x00, 0x16]
            then Some(CanonicalView(mark + ToBE(dataSeq, 8) + ToBE(count, 2) + rest, dataSeq, count))
            else None
  {
    var packet := outer + mark + ToBE(dataSeq, 8) + ToBE(count, 2) + rest;
    var data := mark + ToBE(dataSeq, 8) + ToBE(count, 2) + rest;
    assert packet[42..] == data && data[..7] == mark;
    assert data[7..15] == ToBE(dataSeq, 8) && data[15..17] == ToBE(count, 2);
    RangeValues();
    BERoundTrip(dataSeq, 8);
    BERoundTrip(count, 2);
  }

  // What is shorter is not.
  lemma ShortIsNone(packet: seq<Byte>)
    requires |packet| < 64
    ensures TryParse(packet) == None
  {
  }

  lemma CanonicalBytes(dataSeq: nat, fs: seq<Frame>)
    requires |fs| < 0x1_0000
    ensures Canonical(dataSeq, fs) ==
            [0x4c, 0x4c, 0x44, 0x54, 0x01, 0x00, 0x16] + ToBE(dataSeq, 8) + ToBE(|fs|, 2) + [0, 0, 0, 0, 0] + Concat(fs)
  {
    PrefixBytes();
    assert |fs| % 0x1_0000 == |fs|;
  }

  // Every byte of a Data packet: the envelope, mark, version, header length, number, count,
  // five zeros, and the frames as they are.
  lemma WireLayout(d: Destination, localMac: seq<Byte>, nextHopMac: seq<Byte>, localIp: seq<Byte>,
                   receiverIp: seq<Byte>, dataPort: nat, dataSeq: nat, fs: seq<Frame>)
    returns (h: seq<Byte>, c: seq<Byte>, image: seq<Byte>)
    requires PreparedFor(d, localMac, nextHopMac, localIp, receiverIp, dataPort)
    requires |fs| < 0x1_0000 && 22 + |Concat(fs)| <= 1472
    ensures |h| == 42 && |c| == 2 && c != [0xFF, 0xFF] && TenWords(h[14..34]) % 65535 == 0
    ensures Envelope(h, localMac, nextHopMac, localIp, receiverIp, dataPort, 22 + |Concat(fs)|, c)
    ensures image == [0x4c, 0x4c, 0x44, 0x54, 0x01, 0x00, 0x16] + ToBE(dataSeq, 8) + ToBE(|fs|, 2)
                     + [0, 0, 0, 0, 0] + Concat(fs)
    ensures WirePacket(d, dataSeq, fs) == h + image
  {
    h := OuterHeader(d, 22 + |Concat(fs)|);
    c := EnvelopeBytes(d, localMac, nextHopMac, localIp, receiverIp, dataPort, 22 + |Concat(fs)|);
    HeaderAddsUp(d, 22 + |Concat(fs)|);
    image := Canonical(dataSeq, fs);
    CanonicalBytes(dataSeq, fs);
  }
}
