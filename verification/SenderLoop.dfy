/** The sender loop as it runs: views into the reader's one buffer, packets assembled in
    place, and a wire that takes them or not. */
module SenderLoop {
  import opened Bytes
  import opened Messages
  import opened SenderReader
  import opened PacketBuilder
  import opened Materializer
  import opened IngressParser
  import opened Sender

  // The environment keeps to the frame capacity of the ring's slots.
  ghost predicate Fits(p: Profile, env: Env) {
    forall t: nat ::
      && (env.read(t).Got? ==> |env.read(t).frame| <= MaxFrame(p))
      && |env.copied(t)| <= MaxFrame(p)
  }

  // What the NIC was given: the enqueued packets, in order, byte for byte.
  function Wire(d: Destination, packets: seq<Packet>): seq<seq<Byte>> {
    if packets == [] then []
    else
      var (n, packet) := (|packets| - 1, packets[|packets| - 1]);
      Wire(d, packets[..n]) + if packet.enqueued then [WirePacket(d, n, Payloads(packet.frames))] else []
  }

  // A carried view still shows the frame that was validated when it was read.
  ghost predicate CarryShows(view: Option<View>, frame: Option<SourceFrame>, buffer: array<Byte>)
    reads buffer
  {
    && (view.Some? <==> frame.Some?)
    && (view.Some? ==> view.value.data == buffer && Shows(view.value, frame.value))
  }

  // The local variables of run_sender; stops, polls and allocs are the environment's clock.
  class Loop {
    const profile: Profile
    const batching: bool
    const destination: Destination
    const env: Env
    const reader: SenderShmReader
    var nextDataSeq: nat
    var counters: DataCounters
    var carry: Option<View>
    var stopping: bool
    var halted: bool
    var err: bool
    var stops: nat
    var polls: nat
    var allocs: nat
    var wire: seq<seq<Byte>>
    ghost var carried: Option<SourceFrame>
    ghost var packets: seq<Packet>

    ghost function Ledger(): Sender.Ledger
      reads this, reader
    {
      Sender.Ledger(reader.State(), polls, carried, nextDataSeq, counters, err, packets)
    }

    ghost function State(): SenderState
      reads this, reader
    {
      SenderState(Ledger(), stopping, halted, stops, allocs)
    }

    ghost predicate Reading()
      reads this`carry, this`carried, reader, reader.buffer
    {
      && reader.Valid() && reader.profile == profile
      && Fits(profile, env) && Prepared(destination)
      && CarryShows(carry, carried, reader.buffer)
      && (carried.Some? ==> ValidFrame(profile, carried.value.bytes))
    }

    ghost predicate Valid()
      reads this, reader, reader.buffer
    {
      Reading() && nextDataSeq == |packets| && wire == Wire(destination, packets)
    }

    constructor (p: Profile, b: bool, d: Destination, e: Env, r: SenderShmReader)
      requires r.Valid() && r.profile == p && Fits(p, e) && Prepared(d)
      ensures Valid() && profile == p && batching == b && destination == d && env == e && reader == r
      ensures r.State() == Start(r.readIndex) ==> State() == Begin(r.readIndex)
    {
      profile, batching, destination, env, reader := p, b, d, e, r;
      nextDataSeq := 0;
      counters := DataCounters(0, 0, 0, 0, 0, 0, 0, 0);
      carry := None;
      stopping, halted, err := false, false, false;
      stops, polls, allocs := 0, 0, 0;
      wire := [];
      carried := None;
      packets := [];
    }

    // if (stop_requested)
    method StopRequested() returns (stop: bool)
      modifies this`stops
      ensures stop == env.stop(old(stops)) && stops == old(stops) + 1
    {
      stop := env.stop(stops);
      stops := stops + 1;
    }

    // reader.try_read(). It overwrites the buffer, so no view may be waiting.
    method TryRead() returns (view: Option<View>)
      requires Valid() && carry.None?
      modifies this`polls, this`counters, reader, reader.buffer
      ensures Valid()
      ensures Ledger() == Poll(profile, env, old(Ledger())).0
      ensures reader.Answers(Poll(profile, env, old(Ledger())).1, view)
    {
      ghost var before := reader.State();
      view := reader.Poll(env.read(polls), env.copied(polls));
      polls := polls + 1;
      if view.Some? {
        counters := counters.(offered := counters.offered + 1);
      }
    }

    // Where a frame just read goes: into the packet, with room bytes left, or to the side.
    method Place(builder: RawDataPacketBuilder, frame: View, ghost f: SourceFrame,
                 ghost frames: seq<SourceFrame>, ghost room: nat)
      returns (placed: bool)
      requires Valid() && carry.None?
      requires builder.Valid() && builder.output != reader.buffer && builder.capacity == CANONICAL_CAPACITY
      requires builder.frames == Payloads(frames) && |Concat(builder.frames)| + room == PAYLOAD_CAPACITY
      requires AllValid(profile, builder.frames)
      requires frame.data == reader.buffer && Shows(frame, f) && ValidFrame(profile, f.bytes)
      modifies this`carry, this`carried, builder, builder.output
      ensures Valid() && builder.Valid()
      ensures placed <==> !f.gap && |f.bytes| <= room
      ensures builder.frames == if placed then Payloads(frames + [f]) else Payloads(frames)
      ensures AllValid(profile, builder.frames)
      ensures placed ==> carry.None? && |Concat(builder.frames)| + room - |f.bytes| == PAYLOAD_CAPACITY
      ensures State() == if placed then old(State()) else old(State()).(ledger := old(Ledger()).(carry := Some(f)))
      ensures builder.output[..builder.origin] == old(builder.output[..builder.origin])
    {
      placed := false;
      PayloadsSnoc(frames, f);
      if !frame.gap {
        placed := builder.TryAppend(frame);
      }
      if !placed {
        carry := Some(frame);
        carried := Some(f);
      }
    }

    // The two things asked before a frame is added: whether to stop, and for a frame.
    method Ask() returns (next: Option<View>)
      requires Valid() && carry.None?
      modifies this`stops, this`stopping, this`polls, this`counters, reader, reader.buffer
      ensures Valid()
      ensures env.stop(old(stops)) ==>
                next.None? && State() == old(State()).(stops := old(stops) + 1, stopping := true)
      ensures !env.stop(old(stops)) ==>
                && State() == old(State()).(stops := old(stops) + 1, ledger := Poll(profile, env, old(Ledger())).0)
                && reader.Answers(Poll(profile, env, old(Ledger())).1, next)
      ensures next.Some? ==>
                var reply := Poll(profile, env, old(Ledger())).1;
                !env.stop(old(stops)) && reply.Accepted? && ValidFrame(profile, reply.frame.bytes)
                && next.value.data == reader.buffer && Shows(next.value, reply.frame)
    {
      ghost var l := Ledger();
      var stop := StopRequested();
      if stop {
        stopping := true;
        return None;
      }
      next := TryRead();
      if next.Some? {
        AdmitContinues(profile, l.reader, env.read(l.polls));
      }
    }

    // What a turn of the batching loop, begun in s0, does with the frame it got.
    method TakeNext(builder: RawDataPacketBuilder, frame: View, ghost f: SourceFrame, ghost s0: SenderState,
                    ghost frames: seq<SourceFrame>, ghost room: nat)
      returns (done: bool, ghost more: seq<SourceFrame>, ghost left: nat)
      requires Valid() && carry.None?
      requires builder.Valid() && builder.output != reader.buffer && builder.capacity == CANONICAL_CAPACITY
      requires builder.frames == Payloads(frames) && |Concat(builder.frames)| + room == PAYLOAD_CAPACITY
      requires AllValid(profile, builder.frames)
      requires frame.data == reader.buffer && Shows(frame, f) && ValidFrame(profile, f.bytes)
      requires !env.stop(s0.stops) && Poll(profile, env, s0.ledger) == (Ledger(), Accepted(f))
      requires State() == s0.(stops := s0.stops + 1, ledger := Ledger())
      modifies this`carry, this`carried, builder, builder.output
      ensures Valid() && builder.Valid()
      ensures builder.frames == Payloads(more) && AllValid(profile, builder.frames)
      ensures wire == old(wire) && packets == old(packets)
      ensures done ==> Fill(profile, env, s0, frames, room) == (State(), more)
      ensures |Concat(builder.frames)| <= PAYLOAD_CAPACITY
      ensures !done ==> carry.None? && left < room
      ensures !done ==> |Concat(builder.frames)| + left == PAYLOAD_CAPACITY
      ensures !done ==> Fill(profile, env, s0, frames, room) == Fill(profile, env, State(), more, left)
      ensures builder.output[..builder.origin] == old(builder.output[..builder.origin])
    {
      ghost var l := Ledger();
      var placed := Place(builder, frame, f, frames, room);
      if placed {
        FillTakes(profile, env, s0, frames, room, l, f);
        done, more, left := false, frames + [f], room - |f.bytes|;
      } else {
        FillDefers(profile, env, s0, frames, room, l, f);
        done, more, left := true, frames, room;
      }
    }

    // One turn of the batching loop: goes on with more frames in the packet, or is done.
    method Turn(builder: RawDataPacketBuilder, ghost frames: seq<SourceFrame>, ghost room: nat)
      returns (done: bool, ghost more: seq<SourceFrame>, ghost left: nat)
      requires Valid() && carry.None?
      requires builder.Valid() && builder.output != reader.buffer && builder.capacity == CANONICAL_CAPACITY
      requires builder.frames == Payloads(frames) && |Concat(builder.frames)| + room == PAYLOAD_CAPACITY
      requires AllValid(profile, builder.frames)
      modifies this, reader, reader.buffer, builder, builder.output
      ensures Valid() && builder.Valid()
      ensures builder.frames == Payloads(more) && AllValid(profile, builder.frames)
      ensures wire == old(wire) && packets == old(packets)
      ensures done ==> Fill(profile, env, old(State()), frames, room) == (State(), more)
      ensures |Concat(builder.frames)| <= PAYLOAD_CAPACITY
      ensures !done ==> carry.None? && left < room
      ensures !done ==> |Concat(builder.frames)| + left == PAYLOAD_CAPACITY
      ensures !done ==> Fill(profile, env, old(State()), frames, room) == Fill(profile, env, State(), more, left)
      ensures builder.output[..builder.origin] == old(builder.output[..builder.origin])
    {
      ghost var s0 := State();
      var next := Ask();
      if next.Some? {
        done, more, left := TakeNext(builder, next.value, Poll(profile, env, s0.ledger).1.frame, s0, frames, room);
      } else {
        FillEnds(profile, env, s0, frames, room);
        done, more, left := true, frames, room;
      }
    }

    // The batching loop.
    method FillBatch(builder: RawDataPacketBuilder, ghost frames: seq<SourceFrame>, ghost room: nat)
      returns (ghost all: seq<SourceFrame>)
      requires Valid() && carry.None?
      requires builder.Valid() && builder.output != reader.buffer && builder.capacity == CANONICAL_CAPACITY
      requires builder.frames == Payloads(frames) && |Concat(builder.frames)| + room == PAYLOAD_CAPACITY
      requires AllValid(profile, builder.frames)
      modifies this, reader, reader.buffer, builder, builder.output
      ensures Valid() && builder.Valid()
      ensures builder.frames == Payloads(all) && AllValid(profile, builder.frames)
      ensures wire == old(wire) && packets == old(packets)
      ensures |Concat(builder.frames)| <= PAYLOAD_CAPACITY
      ensures (State(), all) == Fill(profile, env, old(State()), frames, room)
      ensures builder.output[..builder.origin] == old(builder.output[..builder.origin])
    {
      ghost var result := Fill(profile, env, State(), frames, room);
      ghost var left := room;
      all := frames;
      var done := false;
      while !done
        invariant Valid() && builder.Valid()
        invariant builder.frames == Payloads(all) && AllValid(profile, builder.frames)
        invariant |Concat(builder.frames)| <= PAYLOAD_CAPACITY
        invariant !done ==> carry.None? && |Concat(builder.frames)| + left == PAYLOAD_CAPACITY
        invariant !done ==> Fill(profile, env, State(), all, left) == result
        invariant done ==> (State(), all) == result
        invariant wire == old(wire) && packets == old(packets)
        invariant builder.output[..builder.origin] == old(builder.output[..builder.origin])
        decreases !done, left
      {
        done, all, left := Turn(builder, all, left);
      }
    }

    // builder.finalize() and finalize_data_packet: the packet is complete in its buffer.
    method Seal(mbuf: Mbuf, builder: RawDataPacketBuilder, ghost frames: seq<SourceFrame>)
      returns (size: nat, records: nat)
      requires builder.Valid() && Prepared(destination)
      requires builder.output == mbuf.buf && builder.origin == OUTER_HEADER_SIZE
      requires mbuf.dataLen == MAX_DATA_PACKET_SIZE <= mbuf.buf.Length
      requires builder.frames == Payloads(frames) && AllValid(profile, builder.frames)
      requires |Concat(builder.frames)| <= PAYLOAD_CAPACITY
      modifies mbuf, mbuf.buf
      ensures size == DATA_HEADER_SIZE + |Concat(Payloads(frames))| && records == |frames|
      ensures mbuf.dataLen <= mbuf.buf.Length
      ensures mbuf.buf[..mbuf.dataLen] == WirePacket(destination, builder.dataSeq, Payloads(frames))
    {
      AtMostSixty(profile, builder.frames);
      assert |builder.frames| % 0x1_0000 == |builder.frames|;
      size, records := builder.Finalize();
      ghost var image := mbuf.buf[OUTER_HEADER_SIZE..OUTER_HEADER_SIZE + size];
      assert image == Canonical(builder.dataSeq, Payloads(frames));
      mbuf.Finalize(destination, size);
      assert mbuf.buf[..mbuf.dataLen] == OuterHeader(destination, size) + image;
    }

    // The accounts of a complete packet.
    method Count(size: nat, records: nat, ok: bool)
      requires size >= DATA_HEADER_SIZE
      modifies this`counters
      ensures Ledger() ==
              old(Ledger()).(counters := CountPacket(old(counters), records, size - DATA_HEADER_SIZE, ok))
    {
      counters := counters.(packetized := counters.packetized + records);
      counters := counters.(built := counters.built + 1);
      counters := counters.(payloadBytes := counters.payloadBytes + (size - DATA_HEADER_SIZE));
      counters := counters.(consumed := counters.consumed + 1);
      if ok {
        counters := counters.(enqueued := counters.enqueued + 1);
      } else {
        counters := counters.(unsent := counters.unsent + 1);
      }
    }

    // The outcome of a submission: the packet is on the wire, or it is not.
    method Log(bytes: seq<Byte>, ok: bool, ghost frames: seq<SourceFrame>)
      requires nextDataSeq == |packets| && wire == Wire(destination, packets)
      requires bytes == WirePacket(destination, nextDataSeq, Payloads(frames))
      modifies this`nextDataSeq, this`packets, this`wire
      ensures Ledger() == old(Ledger()).(nextDataSeq := old(nextDataSeq) + 1,
                                         packets := old(packets) + [Packet(frames, ok)])
      ensures nextDataSeq == |packets| && wire == Wire(destination, packets)
    {
      WireSnoc(destination, packets, Packet(frames, ok));
      if ok {
        wire := wire + [bytes];
      }
      nextDataSeq := nextDataSeq + 1;
      packets := packets + [Packet(frames, ok)];
    }

    // The complete packet, offered to the NIC.
    method Submit(bytes: seq<Byte>, size: nat, records: nat, ghost frames: seq<SourceFrame>)
      requires Valid()
      requires size == DATA_HEADER_SIZE + |Concat(Payloads(frames))| && records == |frames|
      requires bytes == WirePacket(destination, nextDataSeq, Payloads(frames))
      modifies this`counters, this`nextDataSeq, this`packets, this`wire
      ensures Valid()
      ensures State() == old(State()).(ledger := Emit(env, old(Ledger()), frames))
    {
      var ok := env.tx(nextDataSeq);
      Count(size, records, ok);
      Log(bytes, ok, frames);
      assert Ledger() == Emit(env, old(Ledger()), frames);
    }

    // A packet that holds its first frame.
    method Open(mbuf: Mbuf, start: nat, first: View, ghost f: SourceFrame) returns (builder: RawDataPacketBuilder)
      requires Shows(first, f) && ValidFrame(profile, f.bytes)
      requires first.data != mbuf.buf && start + CANONICAL_CAPACITY <= mbuf.buf.Length
      modifies mbuf.buf
      ensures builder.Valid() && fresh(builder)
      ensures builder.output == mbuf.buf && builder.origin == start
      ensures builder.capacity == CANONICAL_CAPACITY && builder.dataSeq == nextDataSeq
      ensures builder.frames == Payloads([f]) && AllValid(profile, builder.frames)
      ensures |Concat(builder.frames)| == |f.bytes|
    {
      builder := new RawDataPacketBuilder(mbuf.buf, start, CANONICAL_CAPACITY, nextDataSeq, first);
      assert builder.frames == Payloads([f]);
      ConcatOne(f.bytes);
    }

    // The first frame and what the batching loop adds to it.
    method FillPacket(mbuf: Mbuf, start: nat, first: View, ghost f: SourceFrame)
      returns (builder: RawDataPacketBuilder, ghost all: seq<SourceFrame>)
      requires Valid() && carry.None?
      requires first.data == reader.buffer && Shows(first, f) && ValidFrame(profile, f.bytes)
      requires mbuf.buf != reader.buffer && start + CANONICAL_CAPACITY <= mbuf.buf.Length
      modifies this, reader, reader.buffer, mbuf.buf
      ensures Valid() && builder.Valid() && fresh(builder)
      ensures builder.output == mbuf.buf && builder.origin == start && builder.dataSeq == old(nextDataSeq)
      ensures builder.frames == Payloads(all) && AllValid(profile, builder.frames)
      ensures |Concat(builder.frames)| <= PAYLOAD_CAPACITY
      ensures wire == old(wire) && packets == old(packets)
      ensures (State(), all) == Gather(profile, batching, env, old(State()), f)
    {
      builder := Open(mbuf, start, first, f);
      all := [f];
      assert State() == old(State());
      if batching {
        all := FillBatch(builder, [f], PAYLOAD_CAPACITY - |f.bytes|);
      }
    }

    lemma FillKeepsSeq(s: SenderState, f: SourceFrame)
      requires |f.bytes| <= PAYLOAD_CAPACITY
      ensures Gather(profile, batching, env, s, f).0.ledger.nextDataSeq == s.ledger.nextDataSeq
    {
      if batching {
        FillLeavesSeq(profile, env, s, [f], PAYLOAD_CAPACITY - |f.bytes|);
      }
    }

    // A packet from its first frame, still in the reader's buffer, to its submission.
    method Assemble(mbuf: Mbuf, start: nat, first: View, ghost f: SourceFrame)
      requires Valid() && carry.None?
      requires first.data == reader.buffer && Shows(first, f) && ValidFrame(profile, f.bytes)
      requires mbuf.buf != reader.buffer && start == OUTER_HEADER_SIZE
      requires mbuf.dataLen == MAX_DATA_PACKET_SIZE <= mbuf.buf.Length
      modifies this, reader, reader.buffer, mbuf, mbuf.buf
      ensures Valid() && State() == Assembled(profile, batching, env, old(State()), f)
    {
      FillKeepsSeq(State(), f);
      var builder, all := FillPacket(mbuf, start, first, f);
      var size, records := Seal(mbuf, builder, all);
      Submit(mbuf.buf[..mbuf.dataLen], size, records, all);
    }

    // try_reserve_data_packet on a new buffer of that size.
    static method NewPacket(room: nat) returns (mbuf: Option<Mbuf>)
      ensures mbuf.Some? <==> room >= MAX_DATA_PACKET_SIZE
      ensures mbuf.Some? ==> fresh(mbuf.value) && fresh(mbuf.value.buf)
      ensures mbuf.Some? ==> mbuf.value.dataLen == MAX_DATA_PACKET_SIZE <= mbuf.value.buf.Length
    {
      var m := new Mbuf(room);
      var start := m.TryReserve();
      mbuf := if start.Some? then Some(m) else None;
    }

    // A buffer with room for a packet, unless there is none.
    method Reserve() returns (mbuf: Option<Mbuf>)
      requires Valid()
      modifies this`allocs, this`counters, this`err, this`halted
      ensures Valid() && (mbuf.Some? <==> HasBuffer(env, old(allocs)))
      ensures mbuf.None? ==> State() == Unbuilt(env, old(State()))
      ensures mbuf.Some? ==> State() == old(State()).(allocs := old(allocs) + 1)
      ensures mbuf.Some? ==> fresh(mbuf.value) && fresh(mbuf.value.buf)
      ensures mbuf.Some? ==> mbuf.value.dataLen == MAX_DATA_PACKET_SIZE <= mbuf.value.buf.Length
    {
      var (have, room) := (env.alloc(allocs), env.room(allocs));
      allocs := allocs + 1;
      if !have {
        counters := counters.(allocFailures := counters.allocFailures + 1);
        return None;
      }
      mbuf := NewPacket(room);
      if mbuf.None? {
        err, halted := true, true;
      }
    }

    // From the first frame to the end of the round.
    method BuildPacket(first: View, ghost f: SourceFrame)
      requires Valid() && carry.None?
      requires first.data == reader.buffer && Shows(first, f) && ValidFrame(profile, f.bytes)
      modifies this, reader, reader.buffer
      ensures Valid() && State() == Build(profile, batching, env, old(State()), f)
    {
      var mbuf := Reserve();
      if mbuf.Some? {
        Assemble(mbuf.value, OUTER_HEADER_SIZE, first, f);
      }
    }

    // The look at the signal flag at the head of the loop.
    method LookForStop()
      requires Valid()
      modifies this`stops, this`stopping
      ensures Valid() && State() == Look(env, old(State()))
    {
      var stop := StopRequested();
      if stop {
        stopping := true;
      }
    }

    // The frame the next packet starts with: the carried one, or the next the reader has.
    method First() returns (first: Option<View>, ghost head: Option<SourceFrame>)
      requires Valid()
      modifies this`carry, this`carried, this`polls, this`counters, reader, reader.buffer
      ensures Valid() && carry.None?
      ensures head == Head(profile, env, old(Ledger())).1
      ensures State() == old(State()).(ledger := Head(profile, env, old(Ledger())).0)
      ensures CarryShows(first, head, reader.buffer)
      ensures head.Some? ==> ValidFrame(profile, head.value.bytes)
    {
      if carry.Some? {
        first, head := carry, carried;
        carry, carried := None, None;
      } else {
        ghost var l := Ledger();
        head := Head(profile, env, l).1;
        first := TryRead();
        if first.Some? {
          AdmitContinues(profile, l.reader, env.read(l.polls));
        }
      }
    }

    // One turn of the outer loop.
    method RunRound()
      requires Valid() && !halted
      modifies this, reader, reader.buffer
      ensures Valid() && State() == Round(profile, batching, env, old(State()))
    {
      LookForStop();
      if stopping && carry.None? {
        halted := true;
        return;
      }
      var first, head := First();
      if first.Some? {
        BuildPacket(first.value, head.value);
      }
    }

    // A run: the loop until it ends, or its first rounds turns.
    method Run(rounds: nat)
      requires Valid() && State() == Begin(reader.readIndex)
      modifies this, reader, reader.buffer
      ensures Valid()
      ensures State() == RunSender(profile, old(reader.readIndex), batching, env, rounds)
      ensures wire == Wire(destination, RunSender(profile, old(reader.readIndex), batching, env, rounds).ledger.packets)
    {
      ghost var start := reader.readIndex;
      for r := 0 to rounds
        invariant Valid() && State() == RunSender(profile, start, batching, env, r)
      {
        if !halted {
          RunRound();
        }
      }
    }
  }

  lemma WireSnoc(d: Destination, packets: seq<Packet>, packet: Packet)
    ensures Wire(d, packets + [packet]) ==
            Wire(d, packets) + if packet.enqueued then [WirePacket(d, |packets|, Payloads(packet.frames))] else []
  {
    assert (packets + [packet])[..|packets|] == packets;
  }

  lemma {:induction false} FillLeavesSeq(p: Profile, env: Env, s: SenderState, frames: seq<SourceFrame>, room: nat)
    ensures Fill(p, env, s, frames, room).0.ledger.nextDataSeq == s.ledger.nextDataSeq
    decreases room
  {
    FillUnfolds(p, env, s, frames, room);
    var (l', reply) := Poll(p, env, s.ledger);
    if !env.stop(s.stops) && reply.Accepted? && !reply.frame.gap && |reply.frame.bytes| <= room {
      AdmitContinues(p, s.ledger.reader, env.read(s.ledger.polls));
      FillLeavesSeq(p, env, s.(stops := s.stops + 1, ledger := l'), frames + [reply.frame], room - |reply.frame.bytes|);
    }
  }
}
