/** The sender loop: one packet per round, with a frame carried over from the round before
    where the batch had to be closed. */
module Sender {
  import opened Bytes
  import opened Messages
  import opened ShmRing
  import opened SenderReader
  import opened PacketBuilder
  import opened Materializer
  import opened Subsequences

  const PAYLOAD_CAPACITY := 1450

  // What the loop meets. stop(t) is the t-th look at the signal flag, read(t) the t-th answer
  // of the source ring (copied(t): what a failed read left in the buffer), alloc(t) whether
  // the t-th buffer was to be had and room(t) how large it is, tx(d) whether the NIC took the
  // packet with sequence number d.
  datatype Env = Env(
    stop: nat -> bool, read: nat -> ReadOutcome, copied: nat -> seq<Byte>,
    alloc: nat -> bool, room: nat -> nat, tx: nat -> bool)

  datatype DataCounters = DataCounters(
    offered: nat, allocFailures: nat, packetized: nat, built: nat,
    payloadBytes: nat, consumed: nat, enqueued: nat, unsent: nat)

  datatype Packet = Packet(frames: seq<SourceFrame>, enqueued: bool)

  // What the loop has read and made of it. polls counts the answers of the ring taken, and
  // packets records everything built, in data_seq order.
  datatype Ledger = Ledger(
    reader: ReaderState, polls: nat, carry: Option<SourceFrame>,
    nextDataSeq: nat, counters: DataCounters, failed: bool, packets: seq<Packet>)

  // stops and allocs count how often the flag was looked at and a buffer asked for.
  datatype SenderState = SenderState(ledger: Ledger, stopping: bool, halted: bool, stops: nat, allocs: nat)

  function Begin(start: nat): SenderState {
    SenderState(
      Ledger(Start(start), 0, None, 0, DataCounters(0, 0, 0, 0, 0, 0, 0, 0), false, []),
      false, false, 0, 0)
  }

  function Payloads(fs: seq<SourceFrame>): (r: seq<Frame>)
    ensures |r| == |fs| && forall k :: 0 <= k < |r| ==> r[k] == fs[k].bytes
  {
    seq(|fs|, k requires 0 <= k < |fs| => fs[k].bytes)
  }

  // try_read(), counted.
  function Poll(p: Profile, env: Env, l: Ledger): (Ledger, Reply) {
    var (reader, reply) := Admit(p, l.reader, env.read(l.polls));
    var offered := l.counters.offered + if reply.Accepted? then 1 else 0;
    (l.(reader := reader, polls := l.polls + 1, counters := l.counters.(offered := offered)), reply)
  }

  // The batching loop, with room bytes left in the packet under construction.
  function Fill(p: Profile, env: Env, s: SenderState, frames: seq<SourceFrame>, room: nat)
    : (r: (SenderState, seq<SourceFrame>))
    decreases room
  {
    if env.stop(s.stops) then (s.(stops := s.stops + 1, stopping := true), frames)
    else
      var (l, reply) := Poll(p, env, s.ledger);
      var s' := s.(stops := s.stops + 1, ledger := l);
      match reply
      case Accepted(f) =>
        if f.gap || |f.bytes| > room then (s'.(ledger := l.(carry := Some(f))), frames)
        else Fill(p, env, s', frames + [f], room - |f.bytes|)
      case _ => (s', frames)
  }

  // The frames of the packet that starts with first.
  function Gather(p: Profile, batching: bool, env: Env, s: SenderState, first: SourceFrame)
    : (SenderState, seq<SourceFrame>)
    requires |first.bytes| <= PAYLOAD_CAPACITY
  {
    if batching then Fill(p, env, s, [first], PAYLOAD_CAPACITY - |first.bytes|) else (s, [first])
  }

  // The counters after a packet of so many records and payload bytes, taken by the NIC or not.
  function CountPacket(c: DataCounters, records: nat, bytes: nat, ok: bool): DataCounters {
    c.(packetized := c.packetized + records,
       built := c.built + 1,
       payloadBytes := c.payloadBytes + bytes,
       consumed := c.consumed + 1,
       enqueued := c.enqueued + (if ok then 1 else 0),
       unsent := c.unsent + (if ok then 0 else 1))
  }

  // Header, envelope and submission of a complete packet.
  function Emit(env: Env, l: Ledger, frames: seq<SourceFrame>): Ledger {
    var ok := env.tx(l.nextDataSeq);
    l.(nextDataSeq := l.nextDataSeq + 1,
       packets := l.packets + [Packet(frames, ok)],
       counters := CountPacket(l.counters, |frames|, |Concat(Payloads(frames))|, ok))
  }

  function CountFailure(l: Ledger): Ledger {
    l.(counters := l.counters.(allocFailures := l.counters.allocFailures + 1))
  }

  // The frame is lost where no buffer is to be had, and the run over where one is too small.
  function Unbuilt(env: Env, s: SenderState): SenderState {
    var s1 := s.(allocs := s.allocs + 1);
    if !env.alloc(s.allocs) then s1.(ledger := CountFailure(s.ledger))
    else s1.(halted := true, ledger := s.ledger.(failed := true))
  }

  predicate HasBuffer(env: Env, n: nat) {
    env.alloc(n) && env.room(n) >= MAX_DATA_PACKET_SIZE
  }

  // With a buffer, the packet that starts with first is gathered and submitted.
  function Assembled(p: Profile, batching: bool, env: Env, s: SenderState, first: SourceFrame): SenderState
    requires |first.bytes| <= PAYLOAD_CAPACITY
  {
    var (s', frames) := Gather(p, batching, env, s, first);
    s'.(ledger := Emit(env, s'.ledger, frames))
  }

  // From the first frame of a packet to the end of the round.
  function Build(p: Profile, batching: bool, env: Env, s: SenderState, first: SourceFrame): SenderState
    requires |first.bytes| <= PAYLOAD_CAPACITY
  {
    if HasBuffer(env, s.allocs) then Assembled(p, batching, env, s.(allocs := s.allocs + 1), first)
    else Unbuilt(env, s)
  }

  lemma BuildUnfolds(p: Profile, batching: bool, env: Env, s: SenderState, first: SourceFrame)
    requires |first.bytes| <= PAYLOAD_CAPACITY
    requires HasBuffer(env, s.allocs)
    ensures var (s2, frames) := Gather(p, batching, env, s.(allocs := s.allocs + 1), first);
            Build(p, batching, env, s, first) == s2.(ledger := Emit(env, s2.ledger, frames))
  {
  }

  // The look at the signal flag at the head of the loop; stopping is never taken back.
  function Look(env: Env, s: SenderState): SenderState {
    s.(stops := s.stops + 1, stopping := s.stopping || env.stop(s.stops))
  }

  // The frame the next packet starts with: the carried one, or the next the reader has.
  function Head(p: Profile, env: Env, l: Ledger): (Ledger, Option<SourceFrame>) {
    if l.carry.Some? then (l.(carry := None), l.carry)
    else
      var (l', reply) := Poll(p, env, l);
      (l', if reply.Accepted? then Some(reply.frame) else None)
  }

  // One turn of the outer loop.
  function Round(p: Profile, batching: bool, env: Env, s: SenderState): SenderState
    requires s.ledger.carry.Some? ==> ValidFrame(p, s.ledger.carry.value.bytes)
  {
    if s.halted then s
    else
      var (l, s1) := (s.ledger, Look(env, s));
      if s1.stopping && l.carry.None? then s1.(halted := true)
      else
        var (l', first) := Head(p, env, l);
        if first.Some? then Build(p, batching, env, s1.(ledger := l'), first.value) else s1.(ledger := l')
  }

  // ---------- What holds at every loop head ----------

  function Flat(packets: seq<Packet>): seq<SourceFrame> {
    if packets == [] then [] else Flat(packets[..|packets| - 1]) + packets[|packets| - 1].frames
  }

  function Held(carry: Option<SourceFrame>): seq<SourceFrame> {
    if carry.Some? then [carry.value] else []
  }

  function Sent(packets: seq<Packet>): nat {
    if packets == [] then 0
    else Sent(packets[..|packets| - 1]) + if packets[|packets| - 1].enqueued then 1 else 0
  }

  // The first n answers of the ring, and the frames the reader made of them.
  function Answers(env: Env, n: nat): (outs: seq<ReadOutcome>)
    ensures |outs| == n
  {
    seq(n, k requires 0 <= k < n => env.read(k))
  }

  function Stream(p: Profile, start: nat, env: Env, n: nat): seq<SourceFrame> {
    Offered(p, Start(start), Answers(env, n))
  }

  predicate Slice(fs: seq<SourceFrame>, at: nat, stream: seq<SourceFrame>) {
    at + |fs| <= |stream| && fs == stream[at..at + |fs|]
  }

  // A packet within bounds, whose frames were offered one right after the other and whose
  // gap flag, if any, is on its first frame.
  ghost predicate PacketSound(p: Profile, fs: seq<SourceFrame>, stream: seq<SourceFrame>) {
    && fs != [] && |fs| <= 60
    && AllValid(p, Payloads(fs)) && |Concat(Payloads(fs))| <= PAYLOAD_CAPACITY
    && (forall k :: 1 <= k < |fs| ==> !fs[k].gap)
    && exists at: nat :: Slice(fs, at, stream)
  }

  predicate Clean(l: Ledger) {
    l.counters.allocFailures == 0 && !l.failed
  }

  // The frames offered against those held: in packets, in the packet under construction
  // (pending), or carried.
  ghost predicate Flow(l: Ledger, pending: seq<SourceFrame>, stream: seq<SourceFrame>) {
    var held := Flat(l.packets) + pending + Held(l.carry);
    && l.counters.offered == |stream|
    && |stream| == |held| + l.counters.allocFailures + (if l.failed then 1 else 0)
    && SubSeq(held, stream)
    && (Clean(l) ==> held == stream)
    && (l.carry.Some? ==> stream != [] && l.carry.value == stream[|stream| - 1])
  }

  ghost predicate Counts(env: Env, l: Ledger) {
    && l.counters.packetized == |Flat(l.packets)|
    && l.nextDataSeq == l.counters.built == l.counters.consumed == |l.packets|
    && l.counters.enqueued == Sent(l.packets)
    && l.counters.enqueued + l.counters.unsent == l.counters.built
    && (forall i :: 0 <= i < |l.packets| ==> (l.packets[i].enqueued <==> env.tx(i)))
  }

  ghost predicate AllSound(p: Profile, packets: seq<Packet>, stream: seq<SourceFrame>) {
    forall i :: 0 <= i < |packets| ==> PacketSound(p, packets[i].frames, stream)
  }

  // The books at any point of a run.
  ghost predicate Books(p: Profile, start: nat, env: Env, l: Ledger, pending: seq<SourceFrame>) {
    var stream := Stream(p, start, env, l.polls);
    && l.reader == After(p, Start(start), Answers(env, l.polls))
    && Flow(l, pending, stream)
    && Counts(env, l)
    && AllSound(p, l.packets, stream)
    && (l.carry.Some? ==> ValidFrame(p, l.carry.value.bytes))
  }

  // ---------- Steps on the books ----------

  lemma AnswersSnoc(env: Env, n: nat)
    ensures Answers(env, n + 1) == Answers(env, n) + [env.read(n)]
    ensures Answers(env, n + 1)[..n] == Answers(env, n)
  {
  }

  // One more answer extends the stream by at most the frame handed on.
  lemma PollExtends(p: Profile, start: nat, env: Env, l: Ledger)
    requires l.reader == After(p, Start(start), Answers(env, l.polls))
    ensures var (l', reply) := Poll(p, env, l);
            && l'.reader == After(p, Start(start), Answers(env, l'.polls))
            && Stream(p, start, env, l'.polls) ==
                 (if reply.Accepted? then Stream(p, start, env, l.polls) + [reply.frame]
                  else Stream(p, start, env, l.polls))
            && (reply.Accepted? ==> ValidFrame(p, reply.frame.bytes))
  {
    AnswersSnoc(env, l.polls);
    if Poll(p, env, l).1.Accepted? {
      AdmitContinues(p, l.reader, env.read(l.polls));
    }
  }

  lemma SoundGrows(p: Profile, packets: seq<Packet>, stream: seq<SourceFrame>, more: seq<SourceFrame>)
    requires AllSound(p, packets, stream)
    ensures AllSound(p, packets, stream + more)
  {
    forall i | 0 <= i < |packets| ensures PacketSound(p, packets[i].frames, stream + more) {
      assert PacketSound(p, packets[i].frames, stream);
      var at: nat :| Slice(packets[i].frames, at, stream);
      assert Slice(packets[i].frames, at, stream + more);
    }
  }

  lemma BooksAfterNothing(p: Profile, start: nat, env: Env, l: Ledger, pending: seq<SourceFrame>)
    requires Books(p, start, env, l, pending)
    requires !Poll(p, env, l).1.Accepted?
    ensures Books(p, start, env, Poll(p, env, l).0, pending)
    ensures Stream(p, start, env, Poll(p, env, l).0.polls) == Stream(p, start, env, l.polls)
  {
    PollExtends(p, start, env, l);
  }

  lemma FlowAfterFrame(l: Ledger, pending: seq<SourceFrame>, stream: seq<SourceFrame>, f: SourceFrame, l': Ledger)
    requires Flow(l, pending, stream) && l.carry.None?
    requires l'.packets == l.packets && l'.carry == l.carry && l'.failed == l.failed
    requires l'.counters == l.counters.(offered := l.counters.offered + 1)
    ensures Flow(l'.(carry := Some(f)), pending, stream + [f])
    ensures Flow(l', pending + [f], stream + [f])
  {
    var held := Flat(l.packets) + pending;
    assert held + Held(l.carry) == held;
    SnocBoth(held, stream, f);
    assert held + Held(Some(f)) == held + [f];
    assert Flat(l.packets) + (pending + [f]) + Held(None) == held + [f];
  }

  // A frame just offered is either carried or appended to the packet under construction.
  lemma BooksAfterFrame(p: Profile, start: nat, env: Env, l: Ledger, pending: seq<SourceFrame>)
    requires Books(p, start, env, l, pending) && l.carry.None?
    requires Poll(p, env, l).1.Accepted?
    ensures var (l', reply) := Poll(p, env, l);
            && ValidFrame(p, reply.frame.bytes) && l'.carry.None?
            && Stream(p, start, env, l'.polls) == Stream(p, start, env, l.polls) + [reply.frame]
            && Books(p, start, env, l'.(carry := Some(reply.frame)), pending)
            && Books(p, start, env, l', pending + [reply.frame])
  {
    PollExtends(p, start, env, l);
    var (l', reply) := Poll(p, env, l);
    var stream := Stream(p, start, env, l.polls);
    FlowAfterFrame(l, pending, stream, reply.frame, l');
    SoundGrows(p, l.packets, stream, [reply.frame]);
  }

  // The packet under construction, with room bytes left: it ends with the latest frame offered.
  ghost predicate Filling(p: Profile, fs: seq<SourceFrame>, room: nat, stream: seq<SourceFrame>) {
    && fs != []
    && AllValid(p, Payloads(fs)) && |Concat(Payloads(fs))| + room == PAYLOAD_CAPACITY
    && (forall k :: 1 <= k < |fs| ==> !fs[k].gap)
    && |fs| <= |stream| && Slice(fs, |stream| - |fs|, stream)
  }

  lemma PayloadsSnoc(fs: seq<SourceFrame>, f: SourceFrame)
    ensures Payloads(fs + [f]) == Payloads(fs) + [f.bytes]
    ensures Concat(Payloads(fs + [f])) == Concat(Payloads(fs)) + f.bytes
  {
    assert Payloads(fs + [f]) == Payloads(fs) + [f.bytes];
    ConcatSnoc(Payloads(fs), f.bytes);
  }

  lemma FillingStarts(p: Profile, stream: seq<SourceFrame>)
    requires stream != [] && ValidFrame(p, stream[|stream| - 1].bytes)
    ensures var f := stream[|stream| - 1];
            |f.bytes| <= PAYLOAD_CAPACITY && Filling(p, [f], PAYLOAD_CAPACITY - |f.bytes|, stream)
  {
    var f := stream[|stream| - 1];
    PayloadsSnoc([], f);
    assert [] + [f] == [f];
    assert Payloads([f]) == [f.bytes];
  }

  lemma FillingGrows(p: Profile, fs: seq<SourceFrame>, room: nat, stream: seq<SourceFrame>, f: SourceFrame)
    requires Filling(p, fs, room, stream)
    requires ValidFrame(p, f.bytes) && !f.gap && |f.bytes| <= room
    ensures Filling(p, fs + [f], room - |f.bytes|, stream + [f])
  {
    PayloadsSnoc(fs, f);
    assert (stream + [f])[|stream| - |fs|..] == fs + [f];
  }

  lemma FillingIsSound(p: Profile, fs: seq<SourceFrame>, room: nat, stream: seq<SourceFrame>)
    requires Filling(p, fs, room, stream)
    ensures PacketSound(p, fs, stream)
    ensures forall f :: PacketSound(p, fs, stream + [f])
  {
    AtMostSixty(p, Payloads(fs));
    var at := |stream| - |fs|;
    forall f ensures PacketSound(p, fs, stream + [f]) {
      assert Slice(fs, at, stream + [f]);
    }
  }

  // The books with a packet under construction that has room bytes left.
  ghost predicate Open(p: Profile, start: nat, env: Env, l: Ledger, frames: seq<SourceFrame>, room: nat) {
    Books(p, start, env, l, frames) && l.carry.None? && Filling(p, frames, room, Stream(p, start, env, l.polls))
  }

  // What the batching loop leaves alone.
  predicate OnlyPolled(l: Ledger, l': Ledger) {
    && l'.packets == l.packets && l'.nextDataSeq == l.nextDataSeq && l'.failed == l.failed
    && l'.counters.(offered := l.counters.offered) == l.counters
    && l.polls <= l'.polls
  }

  // What the batching loop leaves behind.
  ghost predicate Filled(p: Profile, start: nat, env: Env, l: Ledger, frames: seq<SourceFrame>,
                         l': Ledger, fs: seq<SourceFrame>)
  {
    && Books(p, start, env, l', fs)
    && PacketSound(p, fs, Stream(p, start, env, l'.polls))
    && frames <= fs
    && OnlyPolled(l, l')
  }

  // The batch is closed: nothing to read, or a frame that has to wait.
  lemma FillCloses(p: Profile, start: nat, env: Env, l: Ledger, frames: seq<SourceFrame>, room: nat)
    requires Open(p, start, env, l, frames, room)
    ensures var (l', reply) := Poll(p, env, l);
            Filled(p, start, env, l, frames, if reply.Accepted? then l'.(carry := Some(reply.frame)) else l', frames)
  {
    FillingIsSound(p, frames, room, Stream(p, start, env, l.polls));
    if Poll(p, env, l).1.Accepted? {
      BooksAfterFrame(p, start, env, l, frames);
    } else {
      BooksAfterNothing(p, start, env, l, frames);
    }
  }

  lemma FillAppends(p: Profile, start: nat, env: Env, l: Ledger, frames: seq<SourceFrame>, room: nat)
    requires Open(p, start, env, l, frames, room)
    requires var (_, reply) := Poll(p, env, l);
             reply.Accepted? && !reply.frame.gap && |reply.frame.bytes| <= room
    ensures var (l', reply) := Poll(p, env, l);
            && Open(p, start, env, l', frames + [reply.frame], room - |reply.frame.bytes|)
            && OnlyPolled(l, l') && |reply.frame.bytes| >= HEADER_SIZE
  {
    BooksAfterFrame(p, start, env, l, frames);
    FillingGrows(p, frames, room, Stream(p, start, env, l.polls), Poll(p, env, l).1.frame);
  }

  lemma FilledEarlier(p: Profile, start: nat, env: Env, l: Ledger, frames: seq<SourceFrame>,
                      l1: Ledger, more: seq<SourceFrame>, l': Ledger, fs: seq<SourceFrame>)
    requires Filled(p, start, env, l1, more, l', fs)
    requires OnlyPolled(l, l1) && frames <= more
    ensures Filled(p, start, env, l, frames, l', fs)
  {
  }

  // One turn of the batching loop.
  lemma FillUnfolds(p: Profile, env: Env, s: SenderState, frames: seq<SourceFrame>, room: nat)
    ensures var (l', reply) := Poll(p, env, s.ledger);
            var s1 := s.(stops := s.stops + 1, ledger := l');
            Fill(p, env, s, frames, room) ==
            if env.stop(s.stops) then (s.(stops := s.stops + 1, stopping := true), frames)
            else if !reply.Accepted? then (s1, frames)
            else if reply.frame.gap || |reply.frame.bytes| > room then
              (s1.(ledger := l'.(carry := Some(reply.frame))), frames)
            else Fill(p, env, s1, frames + [reply.frame], room - |reply.frame.bytes|)
  {
  }

  lemma FillTakes(p: Profile, env: Env, s: SenderState, frames: seq<SourceFrame>, room: nat, l: Ledger, f: SourceFrame)
    requires !env.stop(s.stops) && Poll(p, env, s.ledger) == (l, Accepted(f)) && !f.gap && |f.bytes| <= room
    ensures Fill(p, env, s, frames, room) ==
            Fill(p, env, s.(stops := s.stops + 1, ledger := l), frames + [f], room - |f.bytes|)
  {
    FillUnfolds(p, env, s, frames, room);
  }

  lemma FillDefers(p: Profile, env: Env, s: SenderState, frames: seq<SourceFrame>, room: nat, l: Ledger, f: SourceFrame)
    requires !env.stop(s.stops) && Poll(p, env, s.ledger) == (l, Accepted(f)) && (f.gap || |f.bytes| > room)
    ensures Fill(p, env, s, frames, room) ==
            (s.(stops := s.stops + 1, ledger := l.(carry := Some(f))), frames)
  {
    FillUnfolds(p, env, s, frames, room);
  }

  lemma FillEnds(p: Profile, env: Env, s: SenderState, frames: seq<SourceFrame>, room: nat)
    requires env.stop(s.stops) || !Poll(p, env, s.ledger).1.Accepted?
    ensures Fill(p, env, s, frames, room) ==
            (if env.stop(s.stops) then s.(stops := s.stops + 1, stopping := true)
             else s.(stops := s.stops + 1, ledger := Poll(p, env, s.ledger).0), frames)
  {
    FillUnfolds(p, env, s, frames, room);
  }

  lemma {:induction false} FillKeeps(p: Profile, start: nat, env: Env, s: SenderState, frames: seq<SourceFrame>,
                                     room: nat, s': SenderState, fs: seq<SourceFrame>)
    requires Open(p, start, env, s.ledger, frames, room)
    requires (s', fs) == Fill(p, env, s, frames, room)
    ensures Filled(p, start, env, s.ledger, frames, s'.ledger, fs)
    decreases room
  {
    var l := s.ledger;
    var (l', reply) := Poll(p, env, l);
    FillUnfolds(p, env, s, frames, room);
    if env.stop(s.stops) {
      FillingIsSound(p, frames, room, Stream(p, start, env, l.polls));
    } else if reply.Accepted? && !reply.frame.gap && |reply.frame.bytes| <= room {
      var f := reply.frame;
      FillAppends(p, start, env, l, frames, room);
      FillKeeps(p, start, env, s.(stops := s.stops + 1, ledger := l'), frames + [f], room - |f.bytes|, s', fs);
      FilledEarlier(p, start, env, l, frames, l', frames + [f], s'.ledger, fs);
    } else {
      FillCloses(p, start, env, l, frames, room);
    }
  }

  lemma EmitCounts(env: Env, l: Ledger, frames: seq<SourceFrame>)
    requires Counts(env, l)
    ensures Counts(env, Emit(env, l, frames))
    ensures Flat(Emit(env, l, frames).packets) == Flat(l.packets) + frames
  {
    var l' := Emit(env, l, frames);
    assert l'.packets[..|l.packets|] == l.packets;
  }

  lemma EmitFlow(env: Env, l: Ledger, frames: seq<SourceFrame>, stream: seq<SourceFrame>)
    requires Flow(l, frames, stream) && Counts(env, l)
    ensures Flow(Emit(env, l, frames), [], stream)
  {
    EmitCounts(env, l, frames);
    var l' := Emit(env, l, frames);
    assert Flat(l'.packets) + [] == Flat(l.packets) + frames;
  }

  lemma EmitSound(p: Profile, env: Env, l: Ledger, frames: seq<SourceFrame>, stream: seq<SourceFrame>)
    requires AllSound(p, l.packets, stream) && PacketSound(p, frames, stream)
    ensures AllSound(p, Emit(env, l, frames).packets, stream)
  {
  }

  lemma EmitKeeps(p: Profile, start: nat, env: Env, l: Ledger, frames: seq<SourceFrame>)
    requires Books(p, start, env, l, frames)
    requires PacketSound(p, frames, Stream(p, start, env, l.polls))
    ensures Books(p, start, env, Emit(env, l, frames), [])
  {
    EmitCounts(env, l, frames);
    EmitFlow(env, l, frames, Stream(p, start, env, l.polls));
    EmitSound(p, env, l, frames, Stream(p, start, env, l.polls));
  }

  // A frame taken for a packet that cannot be built is lost.
  lemma BooksAfterLoss(p: Profile, start: nat, env: Env, l: Ledger, first: SourceFrame)
    requires Books(p, start, env, l, [first]) && l.carry.None? && !l.failed
    ensures Books(p, start, env, CountFailure(l), [])
    ensures Books(p, start, env, l.(failed := true), [])
  {
    var held := Flat(l.packets);
    assert held + [first] + Held(None) == held + [first];
    assert (held + [first])[..|held|] == held;
    DropLast(held + [first], Stream(p, start, env, l.polls));
    assert held + [] + Held(None) == held;
  }

  // The invariant of the outer loop.
  ghost predicate AtHead(p: Profile, start: nat, env: Env, s: SenderState) {
    Books(p, start, env, s.ledger, []) && (s.ledger.failed ==> s.halted)
  }

  lemma GatherKeeps(p: Profile, start: nat, batching: bool, env: Env, s: SenderState, first: SourceFrame)
    requires Books(p, start, env, s.ledger, [first]) && s.ledger.carry.None?
    requires var stream := Stream(p, start, env, s.ledger.polls); stream != [] && first == stream[|stream| - 1]
    requires ValidFrame(p, first.bytes)
    ensures |first.bytes| <= PAYLOAD_CAPACITY
    ensures var (s', fs) := Gather(p, batching, env, s, first);
            Filled(p, start, env, s.ledger, [first], s'.ledger, fs)
  {
    var stream := Stream(p, start, env, s.ledger.polls);
    FillingStarts(p, stream);
    if batching {
      var (s', fs) := Fill(p, env, s, [first], PAYLOAD_CAPACITY - |first.bytes|);
      FillKeeps(p, start, env, s, [first], PAYLOAD_CAPACITY - |first.bytes|, s', fs);
    } else {
      FillingIsSound(p, [first], PAYLOAD_CAPACITY - |first.bytes|, stream);
    }
  }

  lemma BuildKeeps(p: Profile, start: nat, batching: bool, env: Env, s: SenderState, first: SourceFrame)
    requires Books(p, start, env, s.ledger, [first]) && s.ledger.carry.None? && !s.ledger.failed
    requires var stream := Stream(p, start, env, s.ledger.polls); stream != [] && first == stream[|stream| - 1]
    requires ValidFrame(p, first.bytes)
    ensures AtHead(p, start, env, Build(p, batching, env, s, first))
  {
    if !env.alloc(s.allocs) || env.room(s.allocs) < MAX_DATA_PACKET_SIZE {
      BooksAfterLoss(p, start, env, s.ledger, first);
    } else {
      var s1 := s.(allocs := s.allocs + 1);
      GatherKeeps(p, start, batching, env, s1, first);
      var (s2, fs) := Gather(p, batching, env, s1, first);
      EmitKeeps(p, start, env, s2.ledger, fs);
    }
  }

  lemma TakeCarry(p: Profile, start: nat, env: Env, l: Ledger)
    requires Books(p, start, env, l, []) && l.carry.Some?
    ensures Books(p, start, env, l.(carry := None), [l.carry.value])
  {
    var first := l.carry.value;
    assert Flat(l.packets) + [first] + Held(None) == Flat(l.packets) + [] + Held(l.carry);
  }

  lemma RoundWithRead(p: Profile, start: nat, batching: bool, env: Env, s: SenderState)
    requires AtHead(p, start, env, s) && s.ledger.carry.None? && !s.ledger.failed
    requires Poll(p, env, s.ledger).1.Accepted?
    ensures var (l', reply) := Poll(p, env, s.ledger);
            && |reply.frame.bytes| <= PAYLOAD_CAPACITY
            && AtHead(p, start, env, Build(p, batching, env, Look(env, s).(ledger := l'), reply.frame))
  {
    var (l', reply) := Poll(p, env, s.ledger);
    BooksAfterFrame(p, start, env, s.ledger, []);
    assert [] + [reply.frame] == [reply.frame];
    BuildKeeps(p, start, batching, env, Look(env, s).(ledger := l'), reply.frame);
  }

  lemma RoundWithCarry(p: Profile, start: nat, batching: bool, env: Env, s: SenderState)
    requires AtHead(p, start, env, s) && s.ledger.carry.Some? && !s.ledger.failed
    ensures var l := s.ledger;
            && |l.carry.value.bytes| <= PAYLOAD_CAPACITY
            && AtHead(p, start, env,
                      Build(p, batching, env, Look(env, s).(ledger := l.(carry := None)), l.carry.value))
  {
    TakeCarry(p, start, env, s.ledger);
    BuildKeeps(p, start, batching, env, Look(env, s).(ledger := s.ledger.(carry := None)), s.ledger.carry.value);
  }

  lemma RoundKeeps(p: Profile, start: nat, batching: bool, env: Env, s: SenderState)
    requires AtHead(p, start, env, s)
    ensures AtHead(p, start, env, Round(p, batching, env, s))
  {
    if !s.halted {
      if s.ledger.carry.Some? {
        RoundWithCarry(p, start, batching, env, s);
      } else if Poll(p, env, s.ledger).1.Accepted? {
        RoundWithRead(p, start, batching, env, s);
      } else {
        BooksAfterNothing(p, start, env, s.ledger, []);
      }
    }
  }

  // The state after a number of rounds: every loop head of every run.
  function RunSender(p: Profile, start: nat, batching: bool, env: Env, rounds: nat): (s: SenderState)
    ensures AtHead(p, start, env, s)
  {
    if rounds == 0 then
      BeginAtHead(p, start, env);
      Begin(start)
    else
      var s := RunSender(p, start, batching, env, rounds - 1);
      RoundKeeps(p, start, batching, env, s);
      Round(p, batching, env, s)
  }

  lemma BeginAtHead(p: Profile, start: nat, env: Env)
    ensures AtHead(p, start, env, Begin(start))
  {
    assert Answers(env, 0) == [];
  }

  // ---------- The main results on the sender ----------

  // At every loop head of every run: frames read are rejected or offered; frames offered
  // are in a packet, lost to a buffer failure, or carried; every packet built consumes one
  // sequence number and is either enqueued or not; and the packets hold, in order, nothing
  // but frames of the source stream.
  lemma SenderConservation(p: Profile, start: nat, batching: bool, env: Env, rounds: nat)
    ensures var l := RunSender(p, start, batching, env, rounds).ledger;
            var (c, r) := (l.counters, l.reader.counters);
            && r.framesRead == r.invalidFrames + c.offered
            && c.offered == c.packetized + c.allocFailures
                            + (if l.carry.Some? then 1 else 0) + (if l.failed then 1 else 0)
            && c.packetized == |Flat(l.packets)|
            && l.nextDataSeq == c.built == c.consumed == c.enqueued + c.unsent == |l.packets|
            && SubSeq(Flat(l.packets) + Held(l.carry), Stream(p, start, env, l.polls))
  {
    var l := RunSender(p, start, batching, env, rounds).ledger;
    assert Books(p, start, env, l, []);
    PollAccounts(p, start, Answers(env, l.polls));
    assert Flat(l.packets) + [] + Held(l.carry) == Flat(l.packets) + Held(l.carry);
  }

  // Every packet of every run holds between 1 and 60 whole valid frames that fit, which were
  // offered in a row; a gap flag can only be on the first.
  lemma PacketsSound(p: Profile, start: nat, batching: bool, env: Env, rounds: nat, i: nat)
    requires i < |RunSender(p, start, batching, env, rounds).ledger.packets|
    ensures var l := RunSender(p, start, batching, env, rounds).ledger;
            PacketSound(p, l.packets[i].frames, Stream(p, start, env, l.polls))
  {
    var l := RunSender(p, start, batching, env, rounds).ledger;
    assert Books(p, start, env, l, []);
  }

  // Without buffer failures, packets and carry are the source stream itself.
  lemma CleanStream(p: Profile, start: nat, batching: bool, env: Env, rounds: nat)
    requires Clean(RunSender(p, start, batching, env, rounds).ledger)
    ensures var l := RunSender(p, start, batching, env, rounds).ledger;
            Flat(l.packets) + Held(l.carry) == Stream(p, start, env, l.polls)
  {
    var l := RunSender(p, start, batching, env, rounds).ledger;
    assert Books(p, start, env, l, []);
    assert Flat(l.packets) + [] == Flat(l.packets);
  }

  lemma StreamGrows(p: Profile, start: nat, env1: Env, env2: Env, m: nat, n: nat)
    requires forall t :: env1.read(t) == env2.read(t)
    requires m <= n
    ensures Stream(p, start, env1, m) <= Stream(p, start, env2, n)
    ensures m == n ==> Stream(p, start, env1, m) == Stream(p, start, env2, n)
  {
    assert Answers(env2, n)[..m] == Answers(env1, m);
    OfferedGrows(p, Start(start), Answers(env2, n), m);
    if m == n {
      assert Answers(env2, n) == Answers(env1, m);
    }
  }

  // So two runs on the same answers of the ring, with batching or without, whatever their
  // signals and whatever the NIC does, send the same frames in the same order.
  lemma BatchingPreservesStream(p: Profile, start: nat, b1: bool, b2: bool, env1: Env, env2: Env, n1: nat, n2: nat)
    requires forall t :: env1.read(t) == env2.read(t)
    requires Clean(RunSender(p, start, b1, env1, n1).ledger) && Clean(RunSender(p, start, b2, env2, n2).ledger)
    requires RunSender(p, start, b1, env1, n1).ledger.polls <= RunSender(p, start, b2, env2, n2).ledger.polls
    ensures var l1 := RunSender(p, start, b1, env1, n1).ledger;
            var l2 := RunSender(p, start, b2, env2, n2).ledger;
            && Flat(l1.packets) + Held(l1.carry) <= Flat(l2.packets) + Held(l2.carry)
            && (l1.polls == l2.polls ==>
                  Flat(l1.packets) + Held(l1.carry) == Flat(l2.packets) + Held(l2.carry))
  {
    CleanStream(p, start, b1, env1, n1);
    CleanStream(p, start, b2, env2, n2);
    StreamGrows(p, start, env1, env2, RunSender(p, start, b1, env1, n1).ledger.polls,
                RunSender(p, start, b2, env2, n2).ledger.polls);
  }

  lemma {:induction false} FillPrefix(p: Profile, env: Env, s: SenderState, frames: seq<SourceFrame>, room: nat)
    ensures var (s', fs) := Fill(p, env, s, frames, room);
            && frames <= fs && s'.ledger.packets == s.ledger.packets && s'.halted == s.halted
    decreases room
  {
    FillUnfolds(p, env, s, frames, room);
    var (l', reply) := Poll(p, env, s.ledger);
    if !env.stop(s.stops) && reply.Accepted? && !reply.frame.gap && |reply.frame.bytes| <= room {
      AdmitContinues(p, s.ledger.reader, env.read(s.ledger.polls));
      FillPrefix(p, env, s.(stops := s.stops + 1, ledger := l'), frames + [reply.frame], room - |reply.frame.bytes|);
    }
  }

  // l' has one packet more than l, and it starts with first.
  ghost predicate OneMore(l: Ledger, first: SourceFrame, l': Ledger) {
    && |l'.packets| == |l.packets| + 1 && l.packets <= l'.packets
    && l'.packets[|l.packets|].frames != [] && l'.packets[|l.packets|].frames[0] == first
  }

  lemma BuildStartsWith(p: Profile, batching: bool, env: Env, s: SenderState, first: SourceFrame)
    requires |first.bytes| <= PAYLOAD_CAPACITY
    requires env.alloc(s.allocs) && env.room(s.allocs) >= MAX_DATA_PACKET_SIZE
    ensures OneMore(s.ledger, first, Build(p, batching, env, s, first).ledger)
  {
    FillPrefix(p, env, s.(allocs := s.allocs + 1), [first], PAYLOAD_CAPACITY - |first.bytes|);
    assert Gather(p, batching, env, s.(allocs := s.allocs + 1), first).1[0] == first;
  }

  // A frame that had to wait is the first record of the very next packet, if the buffer for
  // that packet can be had.
  lemma DeferredFrameGoesFirst(p: Profile, start: nat, batching: bool, env: Env, rounds: nat)
    requires var s := RunSender(p, start, batching, env, rounds);
             && !s.halted && s.ledger.carry.Some?
             && env.alloc(s.allocs) && env.room(s.allocs) >= MAX_DATA_PACKET_SIZE
    ensures var s := RunSender(p, start, batching, env, rounds);
            OneMore(s.ledger, s.ledger.carry.value, RunSender(p, start, batching, env, rounds + 1).ledger)
  {
    var s := RunSender(p, start, batching, env, rounds);
    BuildStartsWith(p, batching, env, Look(env, s).(ledger := s.ledger.(carry := None)), s.ledger.carry.value);
  }

  // ---------- Shutdown ----------

  // The signal handler only ever sets the flag.
  ghost predicate Sticky(env: Env) {
    forall t, u :: t <= u && env.stop(t) ==> env.stop(u)
  }

  lemma BuildAfterStop(p: Profile, batching: bool, env: Env, s: SenderState, first: SourceFrame)
    requires |first.bytes| <= PAYLOAD_CAPACITY && env.stop(s.stops) && s.stopping && s.ledger.carry.None?
    ensures var s' := Build(p, batching, env, s, first);
            && s'.ledger.polls == s.ledger.polls && s'.ledger.carry.None? && s'.stopping
            && |s'.ledger.packets| <= |s.ledger.packets| + 1
  {
    var s1 := s.(allocs := s.allocs + 1);
    FillUnfolds(p, env, s1, [first], PAYLOAD_CAPACITY - |first.bytes|);
  }

  lemma RoundAfterStop(p: Profile, batching: bool, env: Env, s: SenderState)
    requires s.ledger.carry.Some? ==> ValidFrame(p, s.ledger.carry.value.bytes)
    requires Sticky(env) && env.stop(s.stops)
    ensures var s' := Round(p, batching, env, s);
            && s'.ledger.polls == s.ledger.polls
            && |s'.ledger.packets| <= |s.ledger.packets| + 1
            && (s.ledger.carry.None? ==> s'.halted && s'.ledger == s.ledger)
            && (!s.halted ==> s'.ledger.carry.None? && s'.stopping)
  {
    if !s.halted && s.ledger.carry.Some? {
      BuildAfterStop(p, batching, env, Look(env, s).(ledger := s.ledger.(carry := None)), s.ledger.carry.value);
    }
  }

  // Once the flag is up at a loop head, nothing more is read, at most one more packet is
  // built, the carry is gone after that round, and the loop ends.
  lemma Shutdown(p: Profile, start: nat, batching: bool, env: Env, rounds: nat)
    requires Sticky(env) && env.stop(RunSender(p, start, batching, env, rounds).stops)
    requires !RunSender(p, start, batching, env, rounds).halted
    ensures var l := RunSender(p, start, batching, env, rounds).ledger;
            var s1 := RunSender(p, start, batching, env, rounds + 1);
            var s2 := RunSender(p, start, batching, env, rounds + 2);
            && s1.ledger.polls == l.polls && |s1.ledger.packets| <= |l.packets| + 1
            && s1.ledger.carry.None? && s2.halted && s2.ledger == s1.ledger
  {
    RoundAfterStop(p, batching, env, RunSender(p, start, batching, env, rounds));
    HaltsWhenEmpty(p, batching, env, RunSender(p, start, batching, env, rounds + 1));
  }

  lemma HaltsWhenEmpty(p: Profile, batching: bool, env: Env, s: SenderState)
    requires s.stopping && s.ledger.carry.None?
    ensures Round(p, batching, env, s).halted && Round(p, batching, env, s).ledger == s.ledger
  {
  }
}
