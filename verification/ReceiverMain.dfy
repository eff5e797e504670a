/** The receiver loop: classification of Data packets by sequence number, and publication of
    the accepted ones. */
module Receiver {
  import opened Bytes
  import opened Messages
  import opened Counting
  import opened ShmRing
  import opened PacketBuilder
  import opened Materializer
  import opened IngressParser
  import ReceiverWriter

  datatype ReceiverCounters = ReceiverCounters(
    rxBursts: nat, emptyRxBursts: nat, rxPackets: nat, rxBytes: nat, invalidPackets: nat,
    stalePackets: nat, gapEvents: nat, packetsMissing: nat,
    packetsAccepted: nat, framesPublished: nat, frameBytesPublished: nat)

  // history and log record the sequence numbers accepted and the frames published.
  datatype ReceiverState = ReceiverState(
    established: bool, next: nat, counters: ReceiverCounters, history: seq<nat>, log: seq<Frame>)

  function Idle(): ReceiverState {
    ReceiverState(false, 0, ReceiverCounters(0, 0, 0, 0, 0, 0, 0, 0, 0, 0, 0), [], [])
  }

  // A packet, and what the writer makes of it if it is accepted.
  datatype Arrival = Arrival(packet: seq<Byte>, written: seq<Frame>)

  // The writer publishes as many frames as the header says, whatever their bytes.
  predicate Complete(a: Arrival) {
    var view := TryParse(a.packet);
    view.Some? ==> |a.written| == view.value.recordCount
  }

  function Accept(s: ReceiverState, view: CanonicalView, written: seq<Frame>): ReceiverState
    requires |view.data| >= DATA_HEADER_SIZE
  {
    var c := s.counters;
    ReceiverState(
      true, view.dataSeq + 1,
      c.(packetsAccepted := c.packetsAccepted + 1,
         framesPublished := c.framesPublished + view.recordCount,
         frameBytesPublished := c.frameBytesPublished + (|view.data| - DATA_HEADER_SIZE)),
      s.history + [view.dataSeq],
      s.log + written)
  }

  // A parsed packet: the first one sets the starting point, later ones are stale or accepted.
  function Sequence(s: ReceiverState, view: CanonicalView, written: seq<Frame>): ReceiverState
    requires |view.data| >= DATA_HEADER_SIZE
  {
    var c := s.counters;
    var next := if s.established then s.next else view.dataSeq;
    var s' := s.(established := true, next := next);
    if view.dataSeq < next then
      s'.(counters := c.(stalePackets := c.stalePackets + 1))
    else
      var ahead := view.dataSeq - next;
      Accept(s'.(counters := c.(gapEvents := c.gapEvents + (if ahead > 0 then 1 else 0),
                                packetsMissing := c.packetsMissing + ahead)),
             view, written)
  }

  // The body of the packet loop.
  function Take(s: ReceiverState, a: Arrival): ReceiverState {
    var c := s.counters.(rxPackets := s.counters.rxPackets + 1, rxBytes := s.counters.rxBytes + |a.packet|);
    match TryParse(a.packet)
    case None => s.(counters := c.(invalidPackets := c.invalidPackets + 1))
    case Some(view) => Sequence(s.(counters := c), view, a.written)
  }

  function TakeAll(s: ReceiverState, arrivals: seq<Arrival>): ReceiverState {
    if arrivals == [] then s
    else Take(TakeAll(s, arrivals[..|arrivals| - 1]), arrivals[|arrivals| - 1])
  }

  // The burst counters after one poll of the NIC.
  function CountBurst(s: ReceiverState, size: nat): ReceiverState {
    var c := s.counters.(rxBursts := s.counters.rxBursts + 1);
    s.(counters := if size == 0 then c.(emptyRxBursts := c.emptyRxBursts + 1) else c)
  }

  // One poll of the NIC.
  function TakeBurst(s: ReceiverState, burst: seq<Arrival>): ReceiverState {
    TakeAll(CountBurst(s, |burst|), burst)
  }

  function TakeBursts(s: ReceiverState, bursts: seq<seq<Arrival>>): ReceiverState {
    if bursts == [] then s
    else TakeBurst(TakeBursts(s, bursts[..|bursts| - 1]), bursts[|bursts| - 1])
  }

  // ---------- What the writer finds ----------

  // A received buffer: the packet and what the buffer holds behind it.
  datatype Buffer = Buffer(packet: seq<Byte>, behind: seq<Byte>)

  // The records as the writer's walk finds them; it does not stop at the end of the packet.
  // None: the walk leaves the buffer, or a frame does not fit a slot.
  function Walked(p: Profile, b: Buffer): Option<seq<Frame>> {
    match TryParse(b.packet)
    case None => Some([])
    case Some(view) => Records(p, view, b.behind)
  }

  // The peer's promise that the receiver relies on and does not check.
  predicate Trusted(p: Profile, b: Buffer) {
    Walked(p, b).Some?
  }

  predicate AllTrusted(p: Profile, buffers: seq<Buffer>) {
    forall i :: 0 <= i < |buffers| ==> Trusted(p, buffers[i])
  }

  function Seen(p: Profile, b: Buffer): Arrival {
    Arrival(b.packet, if Trusted(p, b) then Walked(p, b).value else [])
  }

  function AllSeen(p: Profile, buffers: seq<Buffer>): (r: seq<Arrival>)
    ensures |r| == |buffers| && forall k :: 0 <= k < |r| ==> r[k] == Seen(p, buffers[k])
  {
    seq(|buffers|, k requires 0 <= k < |buffers| => Seen(p, buffers[k]))
  }

  function ProcessAll(p: Profile, s: ReceiverState, buffers: seq<Buffer>): ReceiverState {
    TakeAll(s, AllSeen(p, buffers))
  }

  lemma ProcessSnoc(p: Profile, s: ReceiverState, buffers: seq<Buffer>, b: Buffer)
    ensures ProcessAll(p, s, buffers + [b]) == Take(ProcessAll(p, s, buffers), Seen(p, b))
    ensures ProcessAll(p, s, []) == s
  {
    var all := AllSeen(p, buffers + [b]);
    assert all[..|all| - 1] == AllSeen(p, buffers) && all[|all| - 1] == Seen(p, b);
  }

  lemma SeenIsComplete(p: Profile, b: Buffer)
    requires Trusted(p, b)
    ensures Complete(Seen(p, b))
  {
  }

  // A stale packet is not walked; of any other the records must lie in the buffer.
  predicate Safe(p: Profile, s: ReceiverState, b: Buffer) {
    var view := TryParse(b.packet);
    view.Some? && !(s.established && view.value.dataSeq < s.next) ==> Trusted(p, b)
  }

  ghost predicate SafeAll(p: Profile, s: ReceiverState, buffers: seq<Buffer>) {
    forall k :: 0 <= k < |buffers| ==> Safe(p, ProcessAll(p, s, buffers[..k]), buffers[k])
  }

  function ProcessBursts(p: Profile, s: ReceiverState, bursts: seq<seq<Buffer>>): ReceiverState {
    if bursts == [] then s
    else
      var n := |bursts| - 1;
      ProcessAll(p, CountBurst(ProcessBursts(p, s, bursts[..n]), |bursts[n]|), bursts[n])
  }

  ghost predicate SafeBursts(p: Profile, s: ReceiverState, bursts: seq<seq<Buffer>>) {
    forall k :: 0 <= k < |bursts| ==>
      SafeAll(p, CountBurst(ProcessBursts(p, s, bursts[..k]), |bursts[k]|), bursts[k])
  }

  // ---------- The loop ----------

  // The receiver's local variables, on top of the ring it writes.
  class Loop {
    const profile: Profile
    const ring: Ring
    var established: bool
    var next: nat
    var counters: ReceiverCounters
    ghost var history: seq<nat>

    ghost predicate Valid()
      reads this, ring, ring.seqs, ring.lens, ring.frames
    {
      ring.Valid() && ring.frameCap == MaxFrame(profile)
    }

    ghost function State(): ReceiverState
      reads this, ring
    {
      ReceiverState(established, next, counters, history, ring.log)
    }

    constructor (p: Profile, r: Ring)
      requires r.Valid() && r.frameCap == MaxFrame(p)
      ensures Valid() && profile == p && ring == r
      ensures State() == Idle().(log := r.log)
    {
      profile := p;
      ring := r;
      established := false;
      next := 0;
      counters := ReceiverCounters(0, 0, 0, 0, 0, 0, 0, 0, 0, 0, 0);
      history := [];
    }

    method Publish(mbuf: array<Byte>, ghost b: Buffer, view: CanonicalView)
      requires Valid() && established
      requires mbuf[..] == b.packet + b.behind && TryParse(b.packet) == Some(view) && Trusted(profile, b)
      requires mbuf as object != ring.seqs && mbuf as object != ring.lens
      modifies this, ring`writeIndex, ring`log, ring.seqs, ring.lens, ring.frames
      ensures Valid() && State() == Accept(old(State()), view, Seen(profile, b).written)
    {
      assert mbuf[OUTER_HEADER_SIZE + DATA_HEADER_SIZE..] == view.data[DATA_HEADER_SIZE..] + b.behind;
      ReceiverWriter.Write(profile, ring, mbuf, OUTER_HEADER_SIZE, view.recordCount);
      next := view.dataSeq + 1;
      counters := counters.(packetsAccepted := counters.packetsAccepted + 1,
                            framesPublished := counters.framesPublished + view.recordCount,
                            frameBytesPublished :=
                              counters.frameBytesPublished + (|view.data| - DATA_HEADER_SIZE));
      history := history + [view.dataSeq];
    }

    method HandleView(mbuf: array<Byte>, ghost b: Buffer, view: CanonicalView)
      requires Valid() && Safe(profile, State(), b)
      requires mbuf[..] == b.packet + b.behind && TryParse(b.packet) == Some(view)
      requires mbuf as object != ring.seqs && mbuf as object != ring.lens
      modifies this, ring`writeIndex, ring`log, ring.seqs, ring.lens, ring.frames
      ensures Valid() && State() == Sequence(old(State()), view, Seen(profile, b).written)
    {
      if !established {
        next := view.dataSeq;
        established := true;
      }
      if view.dataSeq < next {
        counters := counters.(stalePackets := counters.stalePackets + 1);
        return;
      }
      if view.dataSeq > next {
        counters := counters.(gapEvents := counters.gapEvents + 1,
                              packetsMissing := counters.packetsMissing + (view.dataSeq - next));
      }
      Publish(mbuf, b, view);
    }

    // The packet is the first dataLen bytes of the buffer.
    method HandlePacket(mbuf: array<Byte>, dataLen: nat)
      requires dataLen <= mbuf.Length
      requires Valid() && Safe(profile, State(), Buffer(mbuf[..dataLen], mbuf[dataLen..]))
      requires mbuf as object != ring.seqs && mbuf as object != ring.lens
      modifies this, ring`writeIndex, ring`log, ring.seqs, ring.lens, ring.frames
      ensures Valid()
      ensures State() == Take(old(State()), Seen(profile, old(Buffer(mbuf[..dataLen], mbuf[dataLen..]))))
    {
      ghost var b := Buffer(mbuf[..dataLen], mbuf[dataLen..]);
      assert mbuf[..] == b.packet + b.behind;
      counters := counters.(rxPackets := counters.rxPackets + 1, rxBytes := counters.rxBytes + dataLen);
      var parsed := TryParse(mbuf[..dataLen]);
      if parsed.None? {
        counters := counters.(invalidPackets := counters.invalidPackets + 1);
        return;
      }
      HandleView(mbuf, b, parsed.value);
    }

    method HandleBuffer(b: Buffer)
      requires Valid() && Safe(profile, State(), b)
      modifies this, ring`writeIndex, ring`log, ring.seqs, ring.lens, ring.frames
      ensures Valid() && State() == Take(old(State()), Seen(profile, b))
    {
      var content := b.packet + b.behind;
      var mbuf := new Byte[|content|](k requires 0 <= k < |content| => content[k]);
      assert mbuf[..] == content;
      assert mbuf[..|b.packet|] == b.packet && mbuf[|b.packet|..] == b.behind;
      HandlePacket(mbuf, |b.packet|);
    }

    // The packets of one burst.
    method HandleBurst(burst: seq<Buffer>)
      requires Valid() && SafeAll(profile, State(), burst)
      modifies this, ring`writeIndex, ring`log, ring.seqs, ring.lens, ring.frames
      ensures Valid() && State() == ProcessAll(profile, old(State()), burst)
    {
      ghost var s := State();
      assert burst[..0] == [];
      for i := 0 to |burst|
        invariant Valid() && State() == ProcessAll(profile, s, burst[..i])
      {
        HandleBuffer(burst[i]);
        ProcessSnoc(profile, s, burst[..i], burst[i]);
        assert burst[..i + 1] == burst[..i] + [burst[i]];
      }
      assert burst[..|burst|] == burst;
    }

    method CountPoll(size: nat)
      modifies this`counters
      ensures State() == CountBurst(old(State()), size)
    {
      counters := counters.(rxBursts := counters.rxBursts + 1);
      if size == 0 {
        counters := counters.(emptyRxBursts := counters.emptyRxBursts + 1);
      }
    }

    // One poll of the NIC.
    method HandlePoll(burst: seq<Buffer>)
      requires Valid() && SafeAll(profile, CountBurst(State(), |burst|), burst)
      modifies this, ring`writeIndex, ring`log, ring.seqs, ring.lens, ring.frames
      ensures Valid() && State() == ProcessAll(profile, CountBurst(old(State()), |burst|), burst)
    {
      CountPoll(|burst|);
      HandleBurst(burst);
    }

    // while (!stop_requested): the bursts polled until the stop signal.
    method Run(bursts: seq<seq<Buffer>>)
      requires Valid() && SafeBursts(profile, State(), bursts)
      modifies this, ring`writeIndex, ring`log, ring.seqs, ring.lens, ring.frames
      ensures Valid() && State() == ProcessBursts(profile, old(State()), bursts)
    {
      ghost var s := State();
      for k := 0 to |bursts|
        invariant Valid() && State() == ProcessBursts(profile, s, bursts[..k])
      {
        assert bursts[..k + 1][..k] == bursts[..k];
        HandlePoll(bursts[k]);
      }
      assert bursts[..|bursts|] == bursts;
    }
  }

  // ---------- What sequencing guarantees, for any packets whatever ----------

  ghost predicate Sequenced(s: ReceiverState) {
    var c := s.counters;
    && c.rxPackets == c.invalidPackets + c.stalePackets + c.packetsAccepted
    && c.packetsAccepted == |s.history|
    && Increasing(s.history)
    && (s.established <==> s.history != [])
    && (s.history == [] ==> c.packetsMissing == 0 && c.stalePackets == 0)
    && (s.history != [] ==>
          && s.next == s.history[|s.history| - 1] + 1
          && s.next - s.history[0] == c.packetsAccepted + c.packetsMissing)
    && c.framesPublished == |s.log|
  }

  // The numbers counted missing are those never accepted between the first and the last.
  ghost predicate MissingExact(s: ReceiverState) {
    s.history != [] ==>
      s.next > 0 && s.counters.packetsMissing == |Absent(s.history, s.history[0], s.next - 1)|
  }

  lemma TakeKeeps(s: ReceiverState, a: Arrival)
    requires Sequenced(s) && Complete(a)
    ensures Sequenced(Take(s, a))
  {
  }

  lemma {:induction false} TakeAllKeeps(s: ReceiverState, arrivals: seq<Arrival>)
    requires Sequenced(s) && forall k :: 0 <= k < |arrivals| ==> Complete(arrivals[k])
    ensures Sequenced(TakeAll(s, arrivals))
  {
    if arrivals == [] {
    } else {
      TakeAllKeeps(s, arrivals[..|arrivals| - 1]);
      TakeKeeps(TakeAll(s, arrivals[..|arrivals| - 1]), arrivals[|arrivals| - 1]);
    }
  }

  lemma {:induction false} TakeBurstsKeeps(bursts: seq<seq<Arrival>>)
    requires forall b, k :: 0 <= b < |bursts| && 0 <= k < |bursts[b]| ==> Complete(bursts[b][k])
    ensures Sequenced(TakeBursts(Idle(), bursts))
  {
    if bursts == [] {
    } else {
      var (init, burst) := (bursts[..|bursts| - 1], bursts[|bursts| - 1]);
      TakeBurstsKeeps(init);
      TakeAllKeeps(CountBurst(TakeBursts(Idle(), init), |burst|), burst);
    }
  }

  // Over any packets whatever, and whatever frames the writer makes of them: accepted sequence
  // numbers strictly increase, every packet is counted once, every published frame is counted,
  // and the numbers counted missing are exactly those between the first and the last accepted
  // that were never accepted.
  lemma ReceiverAccounts(bursts: seq<seq<Arrival>>)
    requires forall b, k :: 0 <= b < |bursts| && 0 <= k < |bursts[b]| ==> Complete(bursts[b][k])
    ensures Sequenced(TakeBursts(Idle(), bursts)) && MissingExact(TakeBursts(Idle(), bursts))
  {
    TakeBurstsKeeps(bursts);
    MissingIsAbsent(TakeBursts(Idle(), bursts));
  }

  lemma MissingIsAbsent(s: ReceiverState)
    requires Sequenced(s)
    ensures MissingExact(s)
  {
    if s.history != [] {
      AbsentCount(s.history, s.history[0], s.next - 1);
    }
  }

  // What the loop does with its buffers is such a run.
  lemma {:induction false} ProcessIsTake(p: Profile, s: ReceiverState, bursts: seq<seq<Buffer>>)
    ensures ProcessBursts(p, s, bursts) ==
            TakeBursts(s, seq(|bursts|, k requires 0 <= k < |bursts| => AllSeen(p, bursts[k])))
  {
    var seen := seq(|bursts|, k requires 0 <= k < |bursts| => AllSeen(p, bursts[k]));
    if bursts == [] {
    } else {
      var init := bursts[..|bursts| - 1];
      ProcessIsTake(p, s, init);
      assert seen[..|bursts| - 1] == seq(|init|, k requires 0 <= k < |init| => AllSeen(p, init[k]));
    }
  }

  // Bursts do not matter: only the packets in their order.
  function Flatten(bursts: seq<seq<Arrival>>): seq<Arrival> {
    if bursts == [] then [] else Flatten(bursts[..|bursts| - 1]) + bursts[|bursts| - 1]
  }

  predicate SameButBursts(s: ReceiverState, t: ReceiverState) {
    s.(counters := s.counters.(rxBursts := 0, emptyRxBursts := 0))
    == t.(counters := t.counters.(rxBursts := 0, emptyRxBursts := 0))
  }

  lemma TakeSame(s: ReceiverState, t: ReceiverState, a: Arrival)
    requires SameButBursts(s, t)
    ensures SameButBursts(Take(s, a), Take(t, a))
  {
  }

  lemma {:induction false} TakeAllAppend(s: ReceiverState, t: ReceiverState, xs: seq<Arrival>, ys: seq<Arrival>)
    requires SameButBursts(TakeAll(s, xs), t)
    ensures SameButBursts(TakeAll(s, xs + ys), TakeAll(t, ys))
    decreases |ys|
  {
    if ys == [] {
      assert xs + ys == xs;
    } else {
      var (init, last) := (ys[..|ys| - 1], ys[|ys| - 1]);
      TakeAllAppend(s, t, xs, init);
      TakeSame(TakeAll(s, xs + init), TakeAll(t, init), last);
      assert (xs + ys)[..|xs + ys| - 1] == xs + init;
    }
  }

  lemma {:induction false} BurstsDoNotMatter(bursts: seq<seq<Arrival>>)
    ensures SameButBursts(TakeAll(Idle(), Flatten(bursts)), TakeBursts(Idle(), bursts))
  {
    if bursts == [] {
    } else {
      var (init, burst) := (bursts[..|bursts| - 1], bursts[|bursts| - 1]);
      BurstsDoNotMatter(init);
      TakeAllAppend(Idle(), CountBurst(TakeBursts(Idle(), init), |burst|), Flatten(init), burst);
    }
  }
}
