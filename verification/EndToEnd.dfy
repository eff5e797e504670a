/** From the source log to the receiver's log, over a network that drops, duplicates and
    reorders packets. */
module EndToEnd {
  import opened Bytes
  import opened Messages
  import opened Counting
  import opened Subsequences
  import opened SenderReader
  import opened PacketBuilder
  import opened Materializer
  import opened IngressParser
  import opened Sender
  import opened SourceGaps
  import opened Receiver
  import Consumer
  import Metrics
  import Producer
  import SenderLoop

  const SEQUENCE_NUMBERS := 0x1_0000_0000_0000_0000

  // ---------- What arrives ----------

  // A packet the NIC was given, or one of another kind.
  predicate OffWire(d: Destination, packets: seq<Packet>, packet: seq<Byte>) {
    packet in SenderLoop.Wire(d, packets) || TryParse(packet).None?
  }

  // Such packets in any order and number, in buffers that hold anything behind them.
  predicate FromWire(d: Destination, packets: seq<Packet>, arrivals: seq<Buffer>) {
    forall k :: 0 <= k < |arrivals| ==> OffWire(d, packets, arrivals[k].packet)
  }

  // What the sender guarantees of the packets it builds.
  predicate WellBuilt(p: Profile, packets: seq<Packet>) {
    && |packets| <= SEQUENCE_NUMBERS
    && forall i :: 0 <= i < |packets| ==>
         && AllValid(p, Payloads(packets[i].frames))
         && DATA_HEADER_SIZE + |Concat(Payloads(packets[i].frames))| <= CANONICAL_CAPACITY
  }

  lemma {:induction false} OnTheWire(d: Destination, packets: seq<Packet>, bytes: seq<Byte>) returns (i: nat)
    requires bytes in SenderLoop.Wire(d, packets)
    ensures i < |packets| && packets[i].enqueued && bytes == WirePacket(d, i, Payloads(packets[i].frames))
  {
    var n := |packets| - 1;
    if bytes in SenderLoop.Wire(d, packets[..n]) {
      i := OnTheWire(d, packets[..n], bytes);
    } else {
      i := n;
    }
  }

  // The frames of the packets with the given sequence numbers.
  function Published(packets: seq<Packet>, numbers: seq<nat>): seq<Frame>
    requires forall k :: 0 <= k < |numbers| ==> numbers[k] < |packets|
  {
    if numbers == [] then []
    else
      var n := |numbers| - 1;
      Published(packets, numbers[..n]) + Payloads(packets[numbers[n]].frames)
  }

  // The receiver accepted enqueued packets only, and its log is what they hold.
  ghost predicate Delivered(s: ReceiverState, packets: seq<Packet>) {
    && (forall k :: 0 <= k < |s.history| ==> s.history[k] < |packets| && packets[s.history[k]].enqueued)
    && s.log == Published(packets, s.history)
  }

  lemma ArrivalParses(p: Profile, d: Destination, packets: seq<Packet>, i: nat, b: Buffer)
    requires Prepared(d) && WellBuilt(p, packets) && i < |packets|
    requires b.packet == WirePacket(d, i, Payloads(packets[i].frames))
    ensures TryParse(b.packet).Some? && TryParse(b.packet).value.dataSeq == i
    ensures Trusted(p, b) && Seen(p, b).written == Payloads(packets[i].frames)
  {
    RoundTrip(p, d, i, Payloads(packets[i].frames), b.behind);
  }

  lemma ArrivalTrusted(p: Profile, d: Destination, packets: seq<Packet>, b: Buffer)
    requires Prepared(d) && WellBuilt(p, packets) && OffWire(d, packets, b.packet)
    ensures Trusted(p, b)
  {
    if b.packet in SenderLoop.Wire(d, packets) {
      var i := OnTheWire(d, packets, b.packet);
      ArrivalParses(p, d, packets, i, b);
    }
  }

  lemma AcceptKeeps(s: ReceiverState, packets: seq<Packet>, i: nat, s': ReceiverState)
    requires Delivered(s, packets) && i < |packets| && packets[i].enqueued
    requires s'.history == s.history + [i] && s'.log == s.log + Payloads(packets[i].frames)
    ensures Delivered(s', packets)
  {
    assert s'.history[..|s.history|] == s.history;
  }

  lemma ArrivalKeeps(p: Profile, d: Destination, packets: seq<Packet>, s: ReceiverState, b: Buffer)
    requires Prepared(d) && WellBuilt(p, packets) && Delivered(s, packets) && OffWire(d, packets, b.packet)
    ensures Delivered(Take(s, Seen(p, b)), packets)
  {
    if TryParse(b.packet).Some? {
      var i := OnTheWire(d, packets, b.packet);
      ArrivalParses(p, d, packets, i, b);
      var s' := Take(s, Seen(p, b));
      if s'.history != s.history {
        AcceptKeeps(s, packets, i, s');
      } else {
        assert s'.log == s.log;
      }
    }
  }

  lemma ArrivalsTrusted(p: Profile, d: Destination, packets: seq<Packet>, arrivals: seq<Buffer>)
    requires Prepared(d) && WellBuilt(p, packets) && FromWire(d, packets, arrivals)
    ensures AllTrusted(p, arrivals)
  {
    forall k | 0 <= k < |arrivals| ensures Trusted(p, arrivals[k]) {
      ArrivalTrusted(p, d, packets, arrivals[k]);
    }
  }

  lemma OneMoreArrival(p: Profile, d: Destination, packets: seq<Packet>, init: seq<Buffer>, last: Buffer)
    requires Prepared(d) && WellBuilt(p, packets) && OffWire(d, packets, last.packet)
    requires Delivered(ProcessAll(p, Idle(), init), packets)
    ensures Delivered(ProcessAll(p, Idle(), init + [last]), packets)
  {
    ArrivalKeeps(p, d, packets, ProcessAll(p, Idle(), init), last);
    ProcessSnoc(p, Idle(), init, last);
  }

  lemma SplitLast<T>(s: seq<T>)
    requires s != []
    ensures s == s[..|s| - 1] + [s[|s| - 1]]
  {
  }

  lemma {:induction false} ArrivalsKeep(p: Profile, d: Destination, packets: seq<Packet>, arrivals: seq<Buffer>)
    requires Prepared(d) && WellBuilt(p, packets) && FromWire(d, packets, arrivals)
    ensures Delivered(ProcessAll(p, Idle(), arrivals), packets)
  {
    if arrivals == [] {
    } else {
      var init, last := arrivals[..|arrivals| - 1], arrivals[|arrivals| - 1];
      ArrivalsKeep(p, d, packets, init);
      OneMoreArrival(p, d, packets, init, last);
      SplitLast(arrivals);
    }
  }

  lemma ArrivalsSequenced(p: Profile, arrivals: seq<Buffer>)
    requires AllTrusted(p, arrivals)
    ensures Sequenced(ProcessAll(p, Idle(), arrivals))
  {
    forall k | 0 <= k < |arrivals| ensures Complete(AllSeen(p, arrivals)[k]) {
      SeenIsComplete(p, arrivals[k]);
    }
    TakeAllKeeps(Idle(), AllSeen(p, arrivals));
  }

  // ---------- What is published ----------

  lemma FlatSnoc(packets: seq<Packet>, n: nat)
    requires n < |packets|
    ensures Payloads(Flat(packets[..n + 1])) == Payloads(Flat(packets[..n])) + Payloads(packets[n].frames)
  {
    assert packets[..n + 1][..n] == packets[..n];
  }

  // Packets published once each, in the order of their numbers, give a subsequence of what
  // all the packets hold.
  lemma {:induction false} PublishedInOrder(packets: seq<Packet>, numbers: seq<nat>, n: nat)
    requires n <= |packets| && Increasing(numbers) && forall k :: 0 <= k < |numbers| ==> numbers[k] < n
    ensures SubSeq(Published(packets, numbers), Payloads(Flat(packets[..n])))
    decreases n
  {
    if n == 0 {
    } else {
      FlatSnoc(packets, n - 1);
      var before := Payloads(Flat(packets[..n - 1]));
      if numbers != [] && numbers[|numbers| - 1] == n - 1 {
        var init := numbers[..|numbers| - 1];
        forall k | 0 <= k < |init| ensures init[k] < n - 1 {
          assert numbers[k] < numbers[|numbers| - 1];
        }
        PublishedInOrder(packets, init, n - 1);
        AppendBoth(Published(packets, init), before, Payloads(packets[n - 1].frames));
      } else {
        forall k | 0 <= k < |numbers| ensures numbers[k] < n - 1 {
          assert numbers[k] <= numbers[|numbers| - 1];
        }
        PublishedInOrder(packets, numbers, n - 1);
        AppendRight(Published(packets, numbers), before, Payloads(packets[n - 1].frames));
      }
    }
  }

  lemma {:induction false} PayloadsOfSubSeq(a: seq<SourceFrame>, b: seq<SourceFrame>)
    requires SubSeq(a, b)
    ensures SubSeq(Payloads(a), Payloads(b))
    decreases |b|
  {
    if a == [] {
    } else {
      var a', b' := a[..|a| - 1], b[..|b| - 1];
      assert Payloads(a) == Payloads(a') + [a[|a| - 1].bytes] && Payloads(b) == Payloads(b') + [b[|b| - 1].bytes];
      if a[|a| - 1] == b[|b| - 1] && SubSeq(a', b') {
        PayloadsOfSubSeq(a', b');
        SnocBoth(Payloads(a'), Payloads(b'), a[|a| - 1].bytes);
      } else {
        PayloadsOfSubSeq(a, b');
        SnocRight(Payloads(a), Payloads(b'), b[|b| - 1].bytes);
      }
    }
  }

  lemma HeldAppends(frames: seq<SourceFrame>, carry: Option<SourceFrame>)
    ensures SubSeq(frames, frames + Held(carry))
  {
    Itself(frames);
    AppendRight(frames, frames, Held(carry));
  }

  // ---------- The transport ----------

  lemma SenderBuildsWell(p: Profile, start: nat, batching: bool, env: Env, rounds: nat)
    requires |RunSender(p, start, batching, env, rounds).ledger.packets| <= SEQUENCE_NUMBERS
    ensures WellBuilt(p, RunSender(p, start, batching, env, rounds).ledger.packets)
  {
    var packets := RunSender(p, start, batching, env, rounds).ledger.packets;
    forall i | 0 <= i < |packets|
      ensures AllValid(p, Payloads(packets[i].frames))
      ensures DATA_HEADER_SIZE + |Concat(Payloads(packets[i].frames))| <= CANONICAL_CAPACITY
    {
      PacketsSound(p, start, batching, env, rounds, i);
    }
  }

  // What the packets of a run hold is, in order, part of the source stream.
  lemma PacketsInStream(p: Profile, start: nat, batching: bool, env: Env, rounds: nat)
    ensures var l := RunSender(p, start, batching, env, rounds).ledger;
            SubSeq(Payloads(Flat(l.packets)), Payloads(Stream(p, start, env, l.polls)))
  {
    var l := RunSender(p, start, batching, env, rounds).ledger;
    var stream := Stream(p, start, env, l.polls);
    SenderConservation(p, start, batching, env, rounds);
    HeldAppends(Flat(l.packets), l.carry);
    Transitive(Flat(l.packets), Flat(l.packets) + Held(l.carry), stream);
    PayloadsOfSubSeq(Flat(l.packets), stream);
  }

  // The receiver's books after any arrivals: each packet at most once, in the order of their
  // numbers, each with the frames it was built with.
  lemma ReceiverDelivers(p: Profile, d: Destination, packets: seq<Packet>, arrivals: seq<Buffer>)
    requires Prepared(d) && WellBuilt(p, packets) && FromWire(d, packets, arrivals)
    ensures AllTrusted(p, arrivals)
    ensures Sequenced(ProcessAll(p, Idle(), arrivals)) && Delivered(ProcessAll(p, Idle(), arrivals), packets)
    ensures SubSeq(ProcessAll(p, Idle(), arrivals).log, Payloads(Flat(packets)))
  {
    ArrivalsTrusted(p, d, packets, arrivals);
    ArrivalsKeep(p, d, packets, arrivals);
    ArrivalsSequenced(p, arrivals);
    DeliveredInOrder(ProcessAll(p, Idle(), arrivals), packets);
  }

  lemma DeliveredInOrder(s: ReceiverState, packets: seq<Packet>)
    requires Sequenced(s) && Delivered(s, packets)
    ensures SubSeq(s.log, Payloads(Flat(packets)))
  {
    PublishedInOrder(packets, s.history, |packets|);
    assert packets[..|packets|] == packets;
  }

  // Whatever the ring answered, whatever buffers and the NIC did, and whatever the network
  // made of the packets: the receiver publishes whole frames that the sender validated, in
  // the order it read them, none twice.
  lemma ReceiverPublishesInOrder(p: Profile, start: nat, batching: bool, env: Env, rounds: nat,
                                 d: Destination, arrivals: seq<Buffer>)
    requires Prepared(d) && |RunSender(p, start, batching, env, rounds).ledger.packets| <= SEQUENCE_NUMBERS
    requires FromWire(d, RunSender(p, start, batching, env, rounds).ledger.packets, arrivals)
    ensures AllTrusted(p, arrivals)
    ensures var l := RunSender(p, start, batching, env, rounds).ledger;
            SubSeq(ProcessAll(p, Idle(), arrivals).log, Payloads(Stream(p, start, env, l.polls)))
  {
    var l := RunSender(p, start, batching, env, rounds).ledger;
    SenderBuildsWell(p, start, batching, env, rounds);
    ReceiverDelivers(p, d, l.packets, arrivals);
    PacketsInStream(p, start, batching, env, rounds);
    var stream := Stream(p, start, env, l.polls);
    Transitive(ProcessAll(p, Idle(), arrivals).log, Payloads(Flat(l.packets)), Payloads(stream));
  }

  lemma StreamInLog(p: Profile, start: nat, env: Env, log: seq<Frame>, n: nat)
    requires ExactSource(p, start, env, log) && Numbered(p, log)
    ensures SubSeq(Payloads(Stream(p, start, env, n)), log)
  {
    StreamFromLog(p, start, env, log, n);
    PlacedIsSubSeq(Payloads(Stream(p, start, env, n)), log, Indices(Stream(p, start, env, n)));
  }

  // With exact reads of a numbered source log, what the receiver publishes is an in-order
  // subsequence of that log.
  lemma OutputIsSubsequenceOfSource(p: Profile, start: nat, batching: bool, env: Env, rounds: nat,
                                    d: Destination, arrivals: seq<Buffer>, log: seq<Frame>)
    requires Prepared(d) && |RunSender(p, start, batching, env, rounds).ledger.packets| <= SEQUENCE_NUMBERS
    requires FromWire(d, RunSender(p, start, batching, env, rounds).ledger.packets, arrivals)
    requires ExactSource(p, start, env, log) && Numbered(p, log)
    ensures AllTrusted(p, arrivals)
    ensures SubSeq(ProcessAll(p, Idle(), arrivals).log, log)
  {
    ReceiverPublishesInOrder(p, start, batching, env, rounds, d, arrivals);
    var l := RunSender(p, start, batching, env, rounds).ledger;
    StreamInLog(p, start, env, log, l.polls);
    Transitive(ProcessAll(p, Idle(), arrivals).log, Payloads(Stream(p, start, env, l.polls)), log);
  }

  // ---------- A network that keeps order and loses nothing ----------

  // The sequence numbers of the packets on the wire.
  function Enqueued(packets: seq<Packet>): seq<nat> {
    if packets == [] then []
    else
      var n := |packets| - 1;
      Enqueued(packets[..n]) + if packets[n].enqueued then [n] else []
  }

  // The k-th packet on the wire is the one with the k-th of these numbers.
  ghost predicate NumberedWire(d: Destination, packets: seq<Packet>, e: seq<nat>, wire: seq<seq<Byte>>) {
    && |wire| == |e| && Increasing(e)
    && (forall k :: 0 <= k < |e| ==> e[k] < |packets| && packets[e[k]].enqueued)
    && forall k :: 0 <= k < |e| ==> wire[k] == WirePacket(d, e[k], Payloads(packets[e[k]].frames))
  }

  lemma NumberedSnoc(d: Destination, packets: seq<Packet>, packet: Packet, e: seq<nat>, wire: seq<seq<Byte>>)
    requires NumberedWire(d, packets, e, wire)
    ensures NumberedWire(d, packets + [packet], e, wire)
    ensures packet.enqueued ==>
              NumberedWire(d, packets + [packet], e + [|packets|],
                           wire + [WirePacket(d, |packets|, Payloads(packet.frames))])
  {
  }

  lemma {:induction false} WireByNumber(d: Destination, packets: seq<Packet>)
    ensures NumberedWire(d, packets, Enqueued(packets), SenderLoop.Wire(d, packets))
  {
    if packets == [] {
    } else {
      var (init, last) := (packets[..|packets| - 1], packets[|packets| - 1]);
      WireByNumber(d, init);
      NumberedSnoc(d, init, last, Enqueued(init), SenderLoop.Wire(d, init));
      assert packets == init + [last];
    }
  }

  lemma {:induction false} EnqueuedIsAll(packets: seq<Packet>, i: nat)
    requires i < |packets| && packets[i].enqueued
    ensures i in Enqueued(packets)
  {
    if i == |packets| - 1 {
    } else {
      EnqueuedIsAll(packets[..|packets| - 1], i);
    }
  }

  // A packet beyond all accepted ones is accepted.
  lemma AcceptsNext(s: ReceiverState, a: Arrival, i: nat)
    requires Sequenced(s)
    requires TryParse(a.packet).Some? && TryParse(a.packet).value.dataSeq == i
    requires s.history != [] ==> s.history[|s.history| - 1] < i
    ensures Take(s, a).history == s.history + [i]
  {
  }

  // Of a piece of the wire, every packet is accepted.
  ghost predicate AcceptedAll(p: Profile, arrivals: seq<Buffer>, numbers: seq<nat>) {
    && AllTrusted(p, arrivals)
    && Sequenced(ProcessAll(p, Idle(), arrivals)) && ProcessAll(p, Idle(), arrivals).history == numbers
  }

  lemma AcceptsOneMore(p: Profile, arrivals: seq<Buffer>, numbers: seq<nat>, b: Buffer, i: nat)
    requires AcceptedAll(p, arrivals, numbers)
    requires Trusted(p, b) && TryParse(b.packet).Some? && TryParse(b.packet).value.dataSeq == i
    requires numbers != [] ==> numbers[|numbers| - 1] < i
    ensures AcceptedAll(p, arrivals + [b], numbers + [i])
  {
    var s := ProcessAll(p, Idle(), arrivals);
    ProcessSnoc(p, Idle(), arrivals, b);
    SeenIsComplete(p, b);
    AcceptsNext(s, Seen(p, b), i);
    TakeKeeps(s, Seen(p, b));
  }

  // The packets in these buffers.
  function Packets(arrivals: seq<Buffer>): (r: seq<seq<Byte>>)
    ensures |r| == |arrivals| && forall k :: 0 <= k < |r| ==> r[k] == arrivals[k].packet
  {
    seq(|arrivals|, k requires 0 <= k < |arrivals| => arrivals[k].packet)
  }

  lemma PieceEnds<T>(s: seq<T>, a: nat, b: nat)
    requires a < b <= |s|
    ensures s[a..b][0] == s[a] && s[a..b][b - a - 1] == s[b - 1]
  {
  }

  lemma AcceptsNone(p: Profile)
    ensures AcceptedAll(p, [], [])
  {
    assert AllSeen(p, []) == [];
  }

  lemma NumberedPiece(d: Destination, packets: seq<Packet>, e: seq<nat>, wire: seq<seq<Byte>>, a: nat, b: nat)
    requires NumberedWire(d, packets, e, wire) && a <= b <= |wire|
    ensures NumberedWire(d, packets, e[a..b], wire[a..b])
  {
  }

  lemma NumberedInit(d: Destination, packets: seq<Packet>, numbers: seq<nat>, arrivals: seq<Buffer>)
    requires NumberedWire(d, packets, numbers, Packets(arrivals)) && arrivals != []
    ensures NumberedWire(d, packets, numbers[..|numbers| - 1], Packets(arrivals[..|arrivals| - 1]))
  {
    NumberedPiece(d, packets, numbers, Packets(arrivals), 0, |numbers| - 1);
    assert Packets(arrivals)[0..|numbers| - 1] == Packets(arrivals[..|arrivals| - 1]);
    assert numbers[0..|numbers| - 1] == numbers[..|numbers| - 1];
  }

  lemma LastNumbered(d: Destination, packets: seq<Packet>, numbers: seq<nat>, arrivals: seq<Buffer>)
    requires NumberedWire(d, packets, numbers, Packets(arrivals)) && arrivals != []
    ensures |numbers| == |arrivals| && numbers[|numbers| - 1] < |packets|
    ensures arrivals[|arrivals| - 1].packet ==
            WirePacket(d, numbers[|numbers| - 1], Payloads(packets[numbers[|numbers| - 1]].frames))
    ensures |numbers| > 1 ==> numbers[|numbers| - 2] < numbers[|numbers| - 1]
  {
    assert Packets(arrivals)[|arrivals| - 1] == arrivals[|arrivals| - 1].packet;
  }

  lemma AcceptsLast(p: Profile, d: Destination, packets: seq<Packet>, init: seq<Buffer>, earlier: seq<nat>,
                    last: Buffer, i: nat)
    requires Prepared(d) && WellBuilt(p, packets) && AcceptedAll(p, init, earlier) && i < |packets|
    requires last.packet == WirePacket(d, i, Payloads(packets[i].frames))
    requires earlier != [] ==> earlier[|earlier| - 1] < i
    ensures AcceptedAll(p, init + [last], earlier + [i])
  {
    ArrivalParses(p, d, packets, i, last);
    AcceptsOneMore(p, init, earlier, last, i);
  }

  lemma {:induction false} FifoAcceptsAll(p: Profile, d: Destination, packets: seq<Packet>,
                                          numbers: seq<nat>, arrivals: seq<Buffer>)
    requires Prepared(d) && WellBuilt(p, packets) && NumberedWire(d, packets, numbers, Packets(arrivals))
    ensures AcceptedAll(p, arrivals, numbers)
    decreases |arrivals|
  {
    if arrivals == [] {
      AcceptsNone(p);
      assert numbers == [];
    } else {
      LastNumbered(d, packets, numbers, arrivals);
      NumberedInit(d, packets, numbers, arrivals);
      var (init, last) := (arrivals[..|arrivals| - 1], arrivals[|arrivals| - 1]);
      var (earlier, i) := (numbers[..|numbers| - 1], numbers[|numbers| - 1]);
      FifoAcceptsAll(p, d, packets, earlier, init);
      SplitLast(arrivals);
      SplitLast(numbers);
      AcceptsLast(p, d, packets, init, earlier, last, i);
    }
  }

  // The packets from number lo to number hi that the NIC did not take.
  function Unsent(packets: seq<Packet>, lo: nat, hi: nat): set<nat>
    requires hi < |packets|
  {
    set i: nat | i <= hi && Between(i, lo, hi) && !packets[i].enqueued
  }

  lemma InPiece(e: seq<nat>, a: nat, b: nat, i: nat)
    requires Increasing(e) && a < b <= |e| && e[a] <= i <= e[b - 1]
    ensures i in e[a..b] <==> i in e
  {
    if i in e {
      var k :| 0 <= k < |e| && e[k] == i;
      assert a <= k < b;
      assert e[a..b][k - a] == i;
    }
  }

  lemma InEnqueued(d: Destination, packets: seq<Packet>, wire: seq<seq<Byte>>, i: nat)
    requires NumberedWire(d, packets, Enqueued(packets), wire)
    ensures i in Enqueued(packets) <==> i < |packets| && packets[i].enqueued
  {
    if i < |packets| && packets[i].enqueued {
      EnqueuedIsAll(packets, i);
    }
  }

  lemma AbsentIfUnsent(packets: seq<Packet>, numbers: seq<nat>, lo: nat, hi: nat)
    requires hi < |packets|
    requires forall i: nat :: Between(i, lo, hi) ==> (i in numbers <==> packets[i].enqueued)
    ensures Absent(numbers, lo, hi) == Unsent(packets, lo, hi)
  {
  }

  lemma AbsentIsUnsent(d: Destination, packets: seq<Packet>, e: seq<nat>, wire: seq<seq<Byte>>, a: nat, b: nat,
                       numbers: seq<nat>, lo: nat, hi: nat)
    requires e == Enqueued(packets) && NumberedWire(d, packets, e, wire) && a < b <= |wire|
    requires numbers == e[a..b] && lo == e[a] && hi == e[b - 1]
    ensures hi < |packets| && Absent(numbers, lo, hi) == Unsent(packets, lo, hi)
  {
    forall i: nat | Between(i, lo, hi) ensures i in numbers <==> packets[i].enqueued {
      InPiece(e, a, b, i);
      InEnqueued(d, packets, wire, i);
    }
    AbsentIfUnsent(packets, numbers, lo, hi);
  }

  // Nothing stale, nothing invalid, and missing is what the NIC did not take.
  ghost predicate MissesUnsent(s: ReceiverState, packets: seq<Packet>) {
    && s.history != [] && s.history[|s.history| - 1] < |packets|
    && s.counters.stalePackets == s.counters.invalidPackets == 0
    && s.counters.packetsMissing == |Unsent(packets, s.history[0], s.history[|s.history| - 1])|
  }

  lemma MissingBetween(s: ReceiverState)
    requires Sequenced(s) && s.history != []
    ensures s.counters.packetsMissing == |Absent(s.history, s.history[0], s.history[|s.history| - 1])|
  {
    MissingIsAbsent(s);
  }

  lemma NothingRefused(s: ReceiverState)
    requires Sequenced(s) && s.counters.rxPackets == |s.history|
    ensures s.counters.stalePackets == s.counters.invalidPackets == 0
  {
  }

  lemma MissesWhatIsAbsent(s: ReceiverState, packets: seq<Packet>, numbers: seq<nat>)
    requires Sequenced(s) && s.history == numbers && s.counters.rxPackets == |numbers|
    requires numbers != [] && numbers[|numbers| - 1] < |packets|
    requires Absent(numbers, numbers[0], numbers[|numbers| - 1]) == Unsent(packets, numbers[0], numbers[|numbers| - 1])
    ensures MissesUnsent(s, packets)
  {
    MissingBetween(s);
    NothingRefused(s);
  }

  lemma NumberedMissing(p: Profile, d: Destination, packets: seq<Packet>, numbers: seq<nat>, arrivals: seq<Buffer>)
    requires Prepared(d) && WellBuilt(p, packets) && NumberedWire(d, packets, numbers, Packets(arrivals))
    requires numbers != [] && numbers[|numbers| - 1] < |packets|
    requires Absent(numbers, numbers[0], numbers[|numbers| - 1]) == Unsent(packets, numbers[0], numbers[|numbers| - 1])
    ensures AllTrusted(p, arrivals) && MissesUnsent(ProcessAll(p, Idle(), arrivals), packets)
    ensures |ProcessAll(p, Idle(), arrivals).history| == |arrivals|
  {
    FifoAcceptsAll(p, d, packets, numbers, arrivals);
    AllReceived(Idle(), AllSeen(p, arrivals));
    MissesWhatIsAbsent(ProcessAll(p, Idle(), arrivals), packets, numbers);
  }

  lemma WirePiece(d: Destination, packets: seq<Packet>, a: nat, b: nat, numbers: seq<nat>, piece: seq<seq<Byte>>)
    requires a < b <= |SenderLoop.Wire(d, packets)| && piece == SenderLoop.Wire(d, packets)[a..b]
    requires b <= |Enqueued(packets)| && numbers == Enqueued(packets)[a..b]
    ensures NumberedWire(d, packets, numbers, piece)
    ensures numbers != [] && numbers[|numbers| - 1] < |packets|
    ensures Absent(numbers, numbers[0], numbers[|numbers| - 1]) == Unsent(packets, numbers[0], numbers[|numbers| - 1])
  {
    WireByNumber(d, packets);
    NumberedPiece(d, packets, Enqueued(packets), SenderLoop.Wire(d, packets), a, b);
    PieceEnds(Enqueued(packets), a, b);
    AbsentIsUnsent(d, packets, Enqueued(packets), SenderLoop.Wire(d, packets), a, b,
                   numbers, numbers[0], numbers[|numbers| - 1]);
  }

  lemma FifoMissing(p: Profile, d: Destination, packets: seq<Packet>, a: nat, b: nat, arrivals: seq<Buffer>)
    requires Prepared(d) && WellBuilt(p, packets) && a < b <= |SenderLoop.Wire(d, packets)|
    requires Packets(arrivals) == SenderLoop.Wire(d, packets)[a..b]
    ensures AllTrusted(p, arrivals) && MissesUnsent(ProcessAll(p, Idle(), arrivals), packets)
    ensures |ProcessAll(p, Idle(), arrivals).history| == |arrivals|
  {
    WireByNumber(d, packets);
    var numbers := Enqueued(packets)[a..b];
    WirePiece(d, packets, a, b, numbers, Packets(arrivals));
    NumberedMissing(p, d, packets, numbers, arrivals);
  }

  // Then the receiver's missing count is the number of packets the sender could not send
  // between the first and the last one delivered.
  lemma MissingIsUnsent(p: Profile, start: nat, batching: bool, env: Env, rounds: nat, d: Destination,
                        a: nat, b: nat, arrivals: seq<Buffer>)
    requires Prepared(d) && |RunSender(p, start, batching, env, rounds).ledger.packets| <= SEQUENCE_NUMBERS
    requires a < b <= |SenderLoop.Wire(d, RunSender(p, start, batching, env, rounds).ledger.packets)|
    requires Packets(arrivals) == SenderLoop.Wire(d, RunSender(p, start, batching, env, rounds).ledger.packets)[a..b]
    ensures AllTrusted(p, arrivals)
    ensures MissesUnsent(ProcessAll(p, Idle(), arrivals), RunSender(p, start, batching, env, rounds).ledger.packets)
    ensures |ProcessAll(p, Idle(), arrivals).history| == |arrivals|
  {
    SenderBuildsWell(p, start, batching, env, rounds);
    FifoMissing(p, d, RunSender(p, start, batching, env, rounds).ledger.packets, a, b, arrivals);
  }

  lemma {:induction false} AllReceived(s: ReceiverState, arrivals: seq<Arrival>)
    ensures TakeAll(s, arrivals).counters.rxPackets == s.counters.rxPackets + |arrivals|
  {
    if arrivals == [] {
    } else {
      AllReceived(s, arrivals[..|arrivals| - 1]);
    }
  }

  // ---------- Behind the receiver ----------

  lemma OutputIdsIncrease(p: Profile, out: seq<Frame>, log: seq<Frame>)
    requires Numbered(p, log) && SubSeq(out, log)
    ensures Consumer.IncreasingIds(out)
    ensures forall k :: 0 <= k < |out| ==> ValidFrame(p, out[k]) && 1 <= SeqId(out[k]) <= |log|
  {
    var at := Place(out, log);
    forall i, j | 0 <= i < j < |out| ensures SeqId(out[i]) < SeqId(out[j]) {
      assert at[i] < at[j];
    }
  }

  // The positions of the source frames with ids from lo to hi that are not among ids.
  function Lost(log: seq<Frame>, ids: seq<nat>, lo: nat, hi: nat): set<nat>
    requires forall i :: 0 <= i < |log| ==> |log[i]| >= HEADER_SIZE
  {
    set i: nat | i < |log| && Between(SeqId(log[i]), lo, hi) && SeqId(log[i]) !in ids
  }

  // The report counts as dropped exactly the source frames, between the first and the last
  // one the consumer got, that it did not get.
  ghost predicate CountsLoss(p: Profile, r: Metrics.Report, ids: seq<nat>, log: seq<Frame>)
    requires Numbered(p, log)
  {
    && Increasing(ids) && r.received == |ids|
    && (ids != [] ==>
          && 1 <= ids[0] && ids[|ids| - 1] <= |log|
          && r.dropped == |Lost(log, ids, ids[0], ids[|ids| - 1])|)
  }

  lemma SeenIsFromSource(p: Profile, out: seq<Frame>, log: seq<Frame>, id: nat, bound: nat)
    requires Numbered(p, log) && SubSeq(out, log) && Consumer.IncreasingIds(out)
    requires Consumer.SeenBefore(id, bound, out)
    ensures 1 <= id <= |log|
  {
    OutputIdsIncrease(p, out, log);
  }

  lemma ExactReportCountsLoss(p: Profile, out: seq<Frame>, log: seq<Frame>,
                              s: Consumer.ConsumerState, r: Metrics.Report)
    requires Numbered(p, log) && SubSeq(out, log) && Consumer.IncreasingIds(out)
    requires Consumer.SeenInOrder(s, out) && Consumer.ExactReport(r, s.ids)
    ensures CountsLoss(p, r, s.ids, log)
  {
    var ids := s.ids;
    if ids != [] {
      SeenIsFromSource(p, out, log, ids[0], s.readIndex);
      SeenIsFromSource(p, out, log, ids[|ids| - 1], s.readIndex);
      LostCount(p, log, ids);
      AbsentInside(ids);
    }
  }

  // Such is the report of every consumer of the receiver's output that reads it exactly.
  lemma ConsumerCountsLoss(p: Profile, out: seq<Frame>, log: seq<Frame>, env: Consumer.Env, count: nat,
                           start: nat, buffer: seq<Byte>, n: nat, r: Metrics.Report)
    requires Numbered(p, log) && SubSeq(out, log)
    requires Consumer.Fits(env, |buffer|) && Consumer.ExactSource(env, count, Consumer.Begin(start, buffer), out)
    requires var s := Consumer.RunConsumer(env, count, Consumer.Begin(start, buffer), n);
             Metrics.Reports(r, s.ids, Metrics.Kept(s.latencies, Consumer.SampleCapacity(count)))
    ensures CountsLoss(p, r, Consumer.RunConsumer(env, count, Consumer.Begin(start, buffer), n).ids, log)
    ensures count != 0 ==> r.received <= count && r.overflow == 0
  {
    OutputIdsIncrease(p, out, log);
    Consumer.ConsumerSeesInOrder(env, count, start, buffer, out, n);
    Consumer.ReportIsExact(env, count, start, buffer, out, n, r);
    ExactReportCountsLoss(p, out, log, Consumer.RunConsumer(env, count, Consumer.Begin(start, buffer), n), r);
  }

  lemma LostIsAbsent(p: Profile, log: seq<Frame>, ids: seq<nat>, at: seq<nat>, lo: nat, hi: nat)
    requires Numbered(p, log) && hi < |log|
    requires |at| == |ids| && forall k :: 0 <= k < |ids| ==> ids[k] == at[k] + 1
    ensures Lost(log, ids, lo + 1, hi + 1) == Absent(at, lo, hi)
  {
    forall i: nat | i < |log| ensures SeqId(log[i]) in ids <==> i in at {
      if SeqId(log[i]) in ids {
        var k :| 0 <= k < |ids| && ids[k] == SeqId(log[i]);
        assert at[k] == i;
      }
      if i in at {
        var k :| 0 <= k < |at| && at[k] == i;
        assert ids[k] == SeqId(log[i]);
      }
    }
  }

  lemma AbsentInside(ids: seq<nat>)
    requires Increasing(ids) && ids != []
    ensures |Absent(ids, ids[0], ids[|ids| - 1])| == ids[|ids| - 1] - ids[0] + 1 - |ids|
  {
    assert forall k :: 0 <= k < |ids| ==> ids[0] <= ids[k] <= ids[|ids| - 1];
    AbsentCount(ids, ids[0], ids[|ids| - 1]);
  }

  function Positions(ids: seq<nat>): (at: seq<nat>)
    requires forall k :: 0 <= k < |ids| ==> ids[k] >= 1
    ensures |at| == |ids| && forall k :: 0 <= k < |ids| ==> ids[k] == at[k] + 1
    ensures Increasing(ids) ==> Increasing(at)
  {
    seq(|ids|, k requires 0 <= k < |ids| => ids[k] - 1)
  }

  lemma LostInside(p: Profile, log: seq<Frame>, ids: seq<nat>, at: seq<nat>, lo: nat, hi: nat)
    requires Numbered(p, log) && hi < |log| && Increasing(at) && at != [] && at[0] == lo && at[|at| - 1] == hi
    requires |at| == |ids| && forall k :: 0 <= k < |ids| ==> ids[k] == at[k] + 1
    ensures |Lost(log, ids, lo + 1, hi + 1)| == hi - lo + 1 - |ids|
  {
    AbsentInside(at);
    LostIsAbsent(p, log, ids, at, lo, hi);
  }

  lemma LostCount(p: Profile, log: seq<Frame>, ids: seq<nat>)
    requires Numbered(p, log) && Increasing(ids) && ids != [] && 1 <= ids[0] && ids[|ids| - 1] <= |log|
    ensures |Lost(log, ids, ids[0], ids[|ids| - 1])| == ids[|ids| - 1] - ids[0] + 1 - |ids|
  {
    assert forall k :: 0 <= k < |ids| ==> ids[0] <= ids[k];
    LostInside(p, log, ids, Positions(ids), ids[0] - 1, ids[|ids| - 1] - 1);
  }

  lemma PlaceTwo(out: seq<Frame>, log: seq<Frame>, i: nat, j: nat) returns (a: nat, b: nat)
    requires SubSeq(out, log) && i < j < |out|
    ensures a < b < |log| && log[a] == out[i] && log[b] == out[j]
  {
    var at := Place(out, log);
    a, b := at[i], at[j];
  }

  // Any two trades that come out of the transport give the exact totals of all trades the
  // producer generated in between, delivered or not.
  lemma OutputTotals(m: Producer.Measure, kind: Producer.Kind, clock: Producer.Clock, n: nat,
                     log: seq<Frame>, out: seq<Frame>, i: nat, j: nat) returns (a: nat, b: nat)
    requires log == Producer.Produced(kind, clock, n).log && SubSeq(out, log)
    requires i < j < |out| && Producer.IsTrade(out[i]) && Producer.IsTrade(out[j])
    ensures a < b < |log| && log[a] == out[i] && log[b] == out[j]
    ensures Producer.Recovers(m, out[i], out[j], log[a + 1..b + 1])
  {
    a, b := PlaceTwo(out, log, i, j);
    Producer.TotalsSurviveLoss(m, kind, clock, n, log, a, b);
  }

  // The whole path behind the compact producer: what comes out is a subsequence of what the
  // producer generated, with increasing ids.
  lemma CompactPath(kind: Producer.Kind, clock: Producer.Clock, n: nat, log: seq<Frame>, start: nat,
                    batching: bool, env: Env, rounds: nat, d: Destination, arrivals: seq<Buffer>)
    requires n < Producer.TWO_64 && log == Producer.Produced(kind, clock, n).log
    requires ExactSource(Compact, start, env, log)
    requires Prepared(d) && |RunSender(Compact, start, batching, env, rounds).ledger.packets| <= SEQUENCE_NUMBERS
    requires FromWire(d, RunSender(Compact, start, batching, env, rounds).ledger.packets, arrivals)
    ensures AllTrusted(Compact, arrivals)
    ensures SubSeq(ProcessAll(Compact, Idle(), arrivals).log, log)
    ensures Consumer.IncreasingIds(ProcessAll(Compact, Idle(), arrivals).log)
  {
    Producer.ProducedIsNumbered(kind, clock, n);
    OutputIsSubsequenceOfSource(Compact, start, batching, env, rounds, d, arrivals, log);
    OutputIdsIncrease(Compact, ProcessAll(Compact, Idle(), arrivals).log, log);
  }
}
