/** The sender's end of the source ring: validation of what was read, source continuity,
    and lapping accounts. */
module SenderReader {
  import opened Bytes
  import opened Messages
  import opened ShmRing
  import opened Counting

  datatype InputCounters = InputCounters(
    framesRead: nat, bytesRead: nat, emptyPolls: nat,
    lappedEvents: nat, lappedFramesSkipped: nat,
    invalidFrames: nat, sourceGapEvents: nat, sourceFramesMissing: nat)

  datatype ReaderState = ReaderState(
    readIndex: nat, prevValid: nat, hasPrevValid: bool, counters: InputCounters)

  // A validated frame; index is the log position it was read from.
  datatype SourceFrame = SourceFrame(bytes: Frame, seqId: nat, gap: bool, index: nat)

  datatype Reply = Accepted(frame: SourceFrame) | Nothing | SkippedAhead | Rejected

  function Start(readIndex: nat): ReaderState {
    ReaderState(readIndex, 0, false, InputCounters(0, 0, 0, 0, 0, 0, 0, 0))
  }

  // One try_read() when the ring answers o.
  function Admit(p: Profile, st: ReaderState, o: ReadOutcome): (ReaderState, Reply) {
    var c := st.counters;
    match o
    case NoFrame => (st.(counters := c.(emptyPolls := c.emptyPolls + 1)), Nothing)
    case Lap(resume) =>
      var skipped := if resume > st.readIndex then resume - st.readIndex else 0;
      (st.(readIndex := resume,
           counters := c.(lappedEvents := c.lappedEvents + 1,
                          lappedFramesSkipped := c.lappedFramesSkipped + skipped)),
       SkippedAhead)
    case Got(frame) =>
      var read := c.(framesRead := c.framesRead + 1, bytesRead := c.bytesRead + |frame|);
      if !ValidFrame(p, frame) then
        (st.(readIndex := st.readIndex + 1, counters := read.(invalidFrames := read.invalidFrames + 1)), Rejected)
      else
        var id := SeqId(frame);
        var gap := st.hasPrevValid && id != st.prevValid + 1;
        var jump := if st.hasPrevValid && id > st.prevValid then id - st.prevValid - 1 else 0;
        (ReaderState(
           st.readIndex + 1,
           if st.hasPrevValid && id <= st.prevValid then st.prevValid else id,
           true,
           read.(sourceGapEvents := read.sourceGapEvents + (if gap then 1 else 0),
                 sourceFramesMissing := read.sourceFramesMissing + jump)),
         Accepted(SourceFrame(frame, id, gap, st.readIndex)))
  }

  // ---------- Which frames are handed on ----------

  // What every successful read counts, and what comes of it.
  predicate Counted(st: ReaderState, f: Frame, s: ReaderState, reply: Reply, valid: bool) {
    && s.readIndex == st.readIndex + 1
    && s.counters.framesRead == st.counters.framesRead + 1
    && s.counters.bytesRead == st.counters.bytesRead + |f|
    && s.counters.invalidFrames == st.counters.invalidFrames + (if valid then 0 else 1)
    && (if valid then reply.Accepted? && reply.frame.bytes == f else reply == Rejected)
  }

  // A raw frame is handed on exactly if its last header field is its length and that is at
  // most 576 bytes.
  lemma RawFrames(st: ReaderState, seqNo: nat, send: nat, typ: nat, version: nat, size: nat, body: seq<Byte>)
    requires seqNo < 0x1_0000_0000_0000_0000 && size < 0x1_0000_0000
    ensures var f := ToLE(seqNo, 8) + ToLE(send, 8) + ToLE(typ, 2) + ToLE(version, 2) + ToLE(size, 4) + body;
            var (s, reply) := Admit(Raw, st, Got(f));
            && Counted(st, f, s, reply, size == |f| && |f| <= 576)
            && (reply.Accepted? ==> reply.frame.seqId == seqNo)
  {
    RawFields(seqNo, send, typ, version, size, body);
  }

  // A compact frame is handed on exactly if it is as long as its type says.
  lemma CompactFrames(st: ReaderState, seqNo: nat, send: nat, instrument: nat, typ: Byte, flags: Byte,
                      delta: nat, body: seq<Byte>)
    requires seqNo < 0x1_0000_0000_0000_0000
    ensures var f := ToLE(seqNo, 8) + ToLE(send, 8) + ToLE(instrument, 2) + [typ, flags] + ToLE(delta, 4) + body;
            var (s, reply) := Admit(Compact, st, Got(f));
            && Counted(st, f, s, reply,
                       (typ == 1 && |f| == 64) || (typ == 2 && |f| == 48) || (typ == 3 && |f| == 96))
            && (reply.Accepted? ==> reply.frame.seqId == seqNo)
  {
    CompactFields(seqNo, send, instrument, typ, flags, delta, body);
  }

  // What is too short for a header is never handed on.
  lemma ShortFrames(p: Profile, st: ReaderState, f: Frame)
    requires |f| < 24
    ensures Counted(st, f, Admit(p, st, Got(f)).0, Admit(p, st, Got(f)).1, false)
  {
  }

  // ---------- The reader object ----------

  // A view into the reader's buffer.
  datatype View = View(data: array<Byte>, size: nat, seqId: nat, gap: bool)

  ghost predicate Shows(v: View, f: SourceFrame)
    reads v.data
  {
    && v.size == |f.bytes| <= v.data.Length
    && v.data[..v.size] == f.bytes
    && v.seqId == f.seqId && v.gap == f.gap
  }

  class SenderShmReader {
    const profile: Profile
    const buffer: array<Byte>
    var readIndex: nat
    var prevValid: nat
    var hasPrevValid: bool
    var counters: InputCounters

    ghost predicate Valid() {
      buffer.Length == MaxFrame(profile)
    }

    ghost function State(): ReaderState
      reads this
    {
      ReaderState(readIndex, prevValid, hasPrevValid, counters)
    }

    constructor (p: Profile, ring: Ring)
      requires ring.Valid()
      ensures Valid() && profile == p && fresh(buffer)
      ensures State() == Start(|ring.log|)
    {
      profile := p;
      buffer := new Byte[MaxFrame(p)];
      readIndex := ring.writeIndex;
      prevValid := 0;
      hasPrevValid := false;
      counters := InputCounters(0, 0, 0, 0, 0, 0, 0, 0);
    }

    // What ring.read(read_index, buffer, ...) hands back when its outcome is o.
    ghost predicate Hands(o: ReadOutcome, status: Status, len: nat, resume: nat)
      requires Valid()
      reads buffer
    {
      match o
      case Got(frame) => status == Ok && len == |frame| <= buffer.Length && buffer[..len] == frame
      case NoFrame => status == Empty
      case Lap(r) => status == Lapped && resume == r
    }

    // The answer as the caller sees it.
    ghost predicate Answers(reply: Reply, view: Option<View>)
      requires Valid()
      reads buffer
    {
      match reply
      case Accepted(f) => view.Some? && view.value.data == buffer && Shows(view.value, f)
      case _ => view == None
    }

    // The switch of try_read on what ring.read left in the buffer.
    method Settle(status: Status, readLen: nat, resumeAt: nat, ghost o: ReadOutcome)
      returns (view: Option<View>)
      requires Valid() && Hands(o, status, readLen, resumeAt)
      modifies this
      ensures State() == Admit(profile, old(State()), o).0
      ensures Answers(Admit(profile, old(State()), o).1, view)
    {
      match status
      case Ok =>
        counters := counters.(framesRead := counters.framesRead + 1, bytesRead := counters.bytesRead + readLen);
        readIndex := readIndex + 1;
        if readLen < HEADER_SIZE {
          counters := counters.(invalidFrames := counters.invalidFrames + 1);
          return None;
        }
        var header := buffer[..HEADER_SIZE];
        assert header[20..24] == buffer[..readLen][20..24] && header[..8] == buffer[..readLen][..8];
        var expected := FrameSize(profile, header);
        if expected < HEADER_SIZE || expected > MaxFrame(profile) || expected != readLen {
          counters := counters.(invalidFrames := counters.invalidFrames + 1);
          return None;
        }
        var id := SeqId(header);
        var gap := false;
        if !hasPrevValid {
          hasPrevValid := true;
          prevValid := id;
        } else if id > prevValid {
          var dist := id - prevValid;
          if dist > 1 {
            gap := true;
            counters := counters.(sourceGapEvents := counters.sourceGapEvents + 1,
                                  sourceFramesMissing := counters.sourceFramesMissing + (dist - 1));
          }
          prevValid := id;
        } else {
          gap := true;
          counters := counters.(sourceGapEvents := counters.sourceGapEvents + 1);
        }
        return Some(View(buffer, readLen, id, gap));
      case Empty =>
        counters := counters.(emptyPolls := counters.emptyPolls + 1);
        return None;
      case Lapped =>
        counters := counters.(lappedEvents := counters.lappedEvents + 1);
        if resumeAt > readIndex {
          counters := counters.(lappedFramesSkipped := counters.lappedFramesSkipped + (resumeAt - readIndex));
        }
        readIndex := resumeAt;
        return None;
    }

    // try_read() on a ring that nobody touches meanwhile.
    method TryRead(ring: Ring) returns (view: Option<View>)
      requires Valid() && ring.Valid() && ring.frameCap == MaxFrame(profile)
      requires buffer as object != ring.seqs && buffer as object != ring.lens
      modifies this, buffer
      ensures ring.Valid()
      ensures State() == Admit(profile, old(State()), ReadLog(ring.log, ring.slotCount, old(readIndex))).0
      ensures Answers(Admit(profile, old(State()), ReadLog(ring.log, ring.slotCount, old(readIndex))).1, view)
    {
      var status, len, resume := ring.Read(readIndex, buffer);
      view := Settle(status, len, resume, ReadLog(ring.log, ring.slotCount, readIndex));
    }

    // try_read() on a ring that others are writing: the outcome is given. A read that finds
    // itself lapped at the second look has already copied something into the buffer.
    method Poll(o: ReadOutcome, copied: seq<Byte>) returns (view: Option<View>)
      requires Valid()
      requires o.Got? ==> |o.frame| <= MaxFrame(profile)
      requires |copied| <= MaxFrame(profile)
      modifies this, buffer
      ensures State() == Admit(profile, old(State()), o).0
      ensures Answers(Admit(profile, old(State()), o).1, view)
    {
      match o
      case Got(frame) =>
        forall k | 0 <= k < |frame| {
          buffer[k] := frame[k];
        }
        assert buffer[..|frame|] == frame;
        view := Settle(Ok, |frame|, 0, o);
      case NoFrame =>
        view := Settle(Empty, 0, 0, o);
      case Lap(resume) =>
        forall k | 0 <= k < |copied| {
          buffer[k] := copied[k];
        }
        view := Settle(Lapped, 0, resume, o);
    }
  }

  // ---------- Runs of the reader ----------

  function After(p: Profile, st: ReaderState, outs: seq<ReadOutcome>): ReaderState {
    if outs == [] then st
    else Admit(p, After(p, st, outs[..|outs| - 1]), outs[|outs| - 1]).0
  }

  // The frames handed on, in order.
  function Offered(p: Profile, st: ReaderState, outs: seq<ReadOutcome>): seq<SourceFrame> {
    if outs == [] then []
    else
      var before := outs[..|outs| - 1];
      match Admit(p, After(p, st, before), outs[|outs| - 1]).1
      case Accepted(f) => Offered(p, st, before) + [f]
      case _ => Offered(p, st, before)
  }

  // What the ring promises of kLapped in every interleaving.
  predicate LapsForward(p: Profile, st: ReaderState, outs: seq<ReadOutcome>) {
    forall k :: 0 <= k < |outs| && outs[k].Lap? ==> outs[k].resume >= After(p, st, outs[..k]).readIndex
  }

  // Reads that return what the log has at the position read.
  predicate ExactReads(p: Profile, st: ReaderState, outs: seq<ReadOutcome>, log: seq<Frame>) {
    forall k :: 0 <= k < |outs| && outs[k].Got? ==>
      var i := After(p, st, outs[..k]).readIndex;
      i < |log| && outs[k].frame == log[i]
  }

  // The producer's numbering: entry i of the log is a valid frame with sequence id i + 1.
  predicate Numbered(p: Profile, log: seq<Frame>) {
    forall i :: 0 <= i < |log| ==> ValidFrame(p, log[i]) && SeqId(log[i]) == i + 1
  }

  lemma PrefixHypotheses(p: Profile, st: ReaderState, outs: seq<ReadOutcome>, log: seq<Frame>)
    requires outs != []
    ensures LapsForward(p, st, outs) ==> LapsForward(p, st, outs[..|outs| - 1])
    ensures ExactReads(p, st, outs, log) ==> ExactReads(p, st, outs[..|outs| - 1], log)
  {
    var init := outs[..|outs| - 1];
    forall k | 0 <= k < |init|
      ensures init[k] == outs[k] && After(p, st, init[..k]) == After(p, st, outs[..k])
    {
      assert init[..k] == outs[..k];
    }
  }

  // How many of the answers were frames, empty and laps, and how long the frames were.
  datatype Tally = Tally(frames: nat, empty: nat, laps: nat, bytes: nat)

  function Tallied(outs: seq<ReadOutcome>): Tally {
    if outs == [] then Tally(0, 0, 0, 0)
    else
      var t := Tallied(outs[..|outs| - 1]);
      match outs[|outs| - 1]
      case Got(frame) => t.(frames := t.frames + 1, bytes := t.bytes + |frame|)
      case NoFrame => t.(empty := t.empty + 1)
      case Lap(_) => t.(laps := t.laps + 1)
  }

  lemma {:induction false} OutcomesCounted(p: Profile, start: nat, outs: seq<ReadOutcome>)
    ensures var c := After(p, Start(start), outs).counters;
            Tallied(outs) == Tally(c.framesRead, c.emptyPolls, c.lappedEvents, c.bytesRead)
  {
    if outs == [] {
    } else {
      OutcomesCounted(p, start, outs[..|outs| - 1]);
    }
  }

  // Every poll is a read, an empty poll or a lap; every read is handed on or rejected.
  ghost predicate PollsCounted(c: InputCounters, polls: nat, handedOn: nat) {
    && polls == c.framesRead + c.emptyPolls + c.lappedEvents
    && c.framesRead == c.invalidFrames + handedOn
  }

  lemma AdmitCounts(p: Profile, s: ReaderState, o: ReadOutcome, polls: nat, handedOn: nat)
    requires PollsCounted(s.counters, polls, handedOn)
    ensures var (s', reply) := Admit(p, s, o);
            PollsCounted(s'.counters, polls + 1, if reply.Accepted? then handedOn + 1 else handedOn)
  {
  }

  lemma {:induction false} PollAccounts(p: Profile, start: nat, outs: seq<ReadOutcome>)
    ensures PollsCounted(After(p, Start(start), outs).counters, |outs|, |Offered(p, Start(start), outs)|)
  {
    if outs == [] {
    } else {
      var init := outs[..|outs| - 1];
      PollAccounts(p, start, init);
      AdmitCounts(p, After(p, Start(start), init), outs[|outs| - 1], |init|, |Offered(p, Start(start), init)|);
    }
  }

  // The position is accounted for by the frames read and the frames skipped.
  ghost predicate PositionCounted(s: ReaderState, start: nat) {
    s.readIndex == start + s.counters.framesRead + s.counters.lappedFramesSkipped
  }

  lemma AdmitMoves(p: Profile, s: ReaderState, o: ReadOutcome, start: nat)
    requires PositionCounted(s, start) && (o.Lap? ==> o.resume >= s.readIndex)
    ensures PositionCounted(Admit(p, s, o).0, start)
  {
  }

  lemma {:induction false} PositionAccounts(p: Profile, start: nat, outs: seq<ReadOutcome>)
    requires LapsForward(p, Start(start), outs)
    ensures PositionCounted(After(p, Start(start), outs), start)
  {
    if outs == [] {
    } else {
      PrefixHypotheses(p, Start(start), outs, []);
      PositionAccounts(p, start, outs[..|outs| - 1]);
      var s := After(p, Start(start), outs[..|outs| - 1]);
      assert outs[|outs| - 1].Lap? ==> outs[|outs| - 1].resume >= s.readIndex;
      AdmitMoves(p, s, outs[|outs| - 1], start);
    }
  }

  // The largest sequence id seen, and how often a frame raised it.
  function RunningMax(fs: seq<SourceFrame>): nat {
    if fs == [] then 0
    else
      var m := RunningMax(fs[..|fs| - 1]);
      if |fs| > 1 && fs[|fs| - 1].seqId <= m then m else fs[|fs| - 1].seqId
  }

  function Advances(fs: seq<SourceFrame>): nat {
    if |fs| <= 1 then 0
    else Advances(fs[..|fs| - 1]) + if fs[|fs| - 1].seqId > RunningMax(fs[..|fs| - 1]) then 1 else 0
  }

  function GapFlags(fs: seq<SourceFrame>): nat {
    if fs == [] then 0 else GapFlags(fs[..|fs| - 1]) + if fs[|fs| - 1].gap then 1 else 0
  }

  lemma {:induction false} RunningMaxIsMaximum(fs: seq<SourceFrame>)
    requires fs != []
    ensures exists k :: 0 <= k < |fs| && fs[k].seqId == RunningMax(fs)
    ensures forall k :: 0 <= k < |fs| ==> fs[k].seqId <= RunningMax(fs)
  {
    var last := fs[|fs| - 1];
    if |fs| == 1 {
      assert fs[0].seqId == RunningMax(fs);
    } else {
      var init := fs[..|fs| - 1];
      RunningMaxIsMaximum(init);
      var k :| 0 <= k < |init| && init[k].seqId == RunningMax(init);
      assert RunningMax(fs) == if last.seqId <= RunningMax(init) then fs[k].seqId else last.seqId;
    }
  }

  // A frame is flagged exactly when it does not continue the largest id before it.
  ghost predicate Flagged(p: Profile, fs: seq<SourceFrame>) {
    && (forall k :: 0 <= k < |fs| ==> (fs[k].gap <==> k > 0 && fs[k].seqId != RunningMax(fs[..k]) + 1))
    && (forall k :: 0 <= k < |fs| ==> ValidFrame(p, fs[k].bytes) && fs[k].seqId == SeqId(fs[k].bytes))
  }

  // The reader state s agrees with the frames fs it has handed on.
  ghost predicate Continuity(p: Profile, s: ReaderState, fs: seq<SourceFrame>) {
    && Flagged(p, fs)
    && (s.hasPrevValid <==> fs != [])
    && s.prevValid == RunningMax(fs)
    && s.counters.sourceGapEvents == GapFlags(fs)
    && (fs != [] ==> s.prevValid == fs[0].seqId + Advances(fs) + s.counters.sourceFramesMissing)
    && (fs == [] ==> s.counters.sourceFramesMissing == 0)
  }

  // How handing on f changes what continuity depends on.
  predicate Continues(s: ReaderState, f: SourceFrame, s': ReaderState) {
    && (f.gap <==> s.hasPrevValid && f.seqId != s.prevValid + 1)
    && s'.hasPrevValid
    && s'.prevValid == (if s.hasPrevValid && f.seqId <= s.prevValid then s.prevValid else f.seqId)
    && s'.counters.sourceGapEvents == s.counters.sourceGapEvents + (if f.gap then 1 else 0)
    && s'.counters.sourceFramesMissing ==
         s.counters.sourceFramesMissing
         + (if s.hasPrevValid && f.seqId > s.prevValid then f.seqId - s.prevValid - 1 else 0)
  }

  lemma AdmitContinues(p: Profile, s: ReaderState, o: ReadOutcome)
    requires Admit(p, s, o).1.Accepted?
    ensures var (s', reply) := Admit(p, s, o);
            && Continues(s, reply.frame, s')
            && o == Got(reply.frame.bytes)
            && ValidFrame(p, reply.frame.bytes) && reply.frame.seqId == SeqId(reply.frame.bytes)
            && reply.frame.index == s.readIndex
  {
  }

  lemma FlaggedSnoc(p: Profile, fs: seq<SourceFrame>, f: SourceFrame)
    requires Flagged(p, fs)
    requires f.gap <==> fs != [] && f.seqId != RunningMax(fs) + 1
    requires ValidFrame(p, f.bytes) && f.seqId == SeqId(f.bytes)
    ensures Flagged(p, fs + [f])
  {
    var fs' := fs + [f];
    forall k | 0 <= k < |fs'|
      ensures fs'[k].gap <==> k > 0 && fs'[k].seqId != RunningMax(fs'[..k]) + 1
    {
      assert fs'[..k] == if k < |fs| then fs[..k] else fs;
    }
  }

  lemma TotalsSnoc(fs: seq<SourceFrame>, f: SourceFrame)
    ensures RunningMax(fs + [f]) == if fs != [] && f.seqId <= RunningMax(fs) then RunningMax(fs) else f.seqId
    ensures fs != [] ==> Advances(fs + [f]) == Advances(fs) + if f.seqId > RunningMax(fs) then 1 else 0
    ensures GapFlags(fs + [f]) == GapFlags(fs) + if f.gap then 1 else 0
  {
    assert (fs + [f])[..|fs|] == fs;
  }

  lemma ContinuitySnoc(p: Profile, s: ReaderState, fs: seq<SourceFrame>, f: SourceFrame, s': ReaderState)
    requires Continuity(p, s, fs) && Continues(s, f, s')
    requires ValidFrame(p, f.bytes) && f.seqId == SeqId(f.bytes)
    ensures Continuity(p, s', fs + [f])
  {
    FlaggedSnoc(p, fs, f);
    TotalsSnoc(fs, f);
  }

  lemma ContinuityStep(p: Profile, s: ReaderState, fs: seq<SourceFrame>, o: ReadOutcome)
    requires Continuity(p, s, fs)
    ensures var (s', reply) := Admit(p, s, o);
            Continuity(p, s', if reply.Accepted? then fs + [reply.frame] else fs)
  {
    var (s', reply) := Admit(p, s, o);
    if reply.Accepted? {
      AdmitContinues(p, s, o);
      ContinuitySnoc(p, s, fs, reply.frame, s');
    }
  }

  lemma {:induction false} ContinuityAccounts(p: Profile, start: nat, outs: seq<ReadOutcome>)
    ensures Continuity(p, After(p, Start(start), outs), Offered(p, Start(start), outs))
  {
    if outs == [] {
    } else {
      var init := outs[..|outs| - 1];
      ContinuityAccounts(p, start, init);
      ContinuityStep(p, After(p, Start(start), init), Offered(p, Start(start), init), outs[|outs| - 1]);
    }
  }

  function Indices(fs: seq<SourceFrame>): (s: seq<nat>)
    ensures |s| == |fs| && forall k :: 0 <= k < |s| ==> s[k] == fs[k].index
  {
    seq(|fs|, k requires 0 <= k < |fs| => fs[k].index)
  }

  // Exact reads hand on frames of the log, each from its own position, in log order.
  lemma {:induction false} OfferedFromLog(p: Profile, start: nat, outs: seq<ReadOutcome>, log: seq<Frame>)
    requires LapsForward(p, Start(start), outs) && ExactReads(p, Start(start), outs, log)
    ensures var fs := Offered(p, Start(start), outs);
            && Increasing(Indices(fs))
            && forall k :: 0 <= k < |fs| ==>
                 && fs[k].index < After(p, Start(start), outs).readIndex && fs[k].index < |log|
                 && fs[k].bytes == log[fs[k].index]
  {
    if outs == [] {
    } else {
      var init, o := outs[..|outs| - 1], outs[|outs| - 1];
      PrefixHypotheses(p, Start(start), outs, log);
      OfferedFromLog(p, start, init, log);
      var st := After(p, Start(start), init);
      assert o.Got? ==> st.readIndex < |log| && o.frame == log[st.readIndex];
      assert After(p, Start(start), outs).readIndex >= st.readIndex;
    }
  }

  // With the producer's numbering, ids follow positions and every frame raises the maximum.
  ghost predicate InStep(s: ReaderState, fs: seq<SourceFrame>) {
    && s.counters.invalidFrames == 0
    && (forall k :: 0 <= k < |fs| ==> fs[k].seqId == fs[k].index + 1)
    && s.prevValid == RunningMax(fs)
    && (s.hasPrevValid <==> fs != [])
    && (fs != [] ==>
          && s.prevValid == fs[|fs| - 1].seqId <= s.readIndex
          && Advances(fs) == |fs| - 1)
  }

  lemma InStepSnoc(s: ReaderState, fs: seq<SourceFrame>, f: SourceFrame, s': ReaderState)
    requires InStep(s, fs) && Continues(s, f, s')
    requires f.index == s.readIndex && f.seqId == f.index + 1
    requires s'.readIndex == s.readIndex + 1 && s'.counters.invalidFrames == 0
    ensures InStep(s', fs + [f])
  {
    var fs' := fs + [f];
    assert fs'[..|fs|] == fs;
  }

  lemma {:induction false} NumberedAccounts(p: Profile, start: nat, outs: seq<ReadOutcome>, log: seq<Frame>)
    requires LapsForward(p, Start(start), outs) && ExactReads(p, Start(start), outs, log) && Numbered(p, log)
    ensures InStep(After(p, Start(start), outs), Offered(p, Start(start), outs))
  {
    if outs == [] {
    } else {
      var init, o := outs[..|outs| - 1], outs[|outs| - 1];
      PrefixHypotheses(p, Start(start), outs, log);
      NumberedAccounts(p, start, init, log);
      var s, fs := After(p, Start(start), init), Offered(p, Start(start), init);
      assert o.Lap? ==> o.resume >= s.readIndex;
      assert o.Got? ==> s.readIndex < |log| && o.frame == log[s.readIndex];
      if o.Got? {
        AdmitContinues(p, s, o);
        InStepSnoc(s, fs, Admit(p, s, o).1.frame, Admit(p, s, o).0);
      }
    }
  }

  // The positions between the first and the last of fs at which nothing in fs was read.
  function Unread(fs: seq<SourceFrame>): set<nat>
    requires fs != []
  {
    Absent(Indices(fs), fs[0].index, fs[|fs| - 1].index)
  }

  lemma UnreadCount(fs: seq<SourceFrame>)
    requires fs != [] && Increasing(Indices(fs))
    ensures |Unread(fs)| == fs[|fs| - 1].index - fs[0].index + 1 - |fs|
  {
    var s := Indices(fs);
    assert s[0] == fs[0].index && s[|fs| - 1] == fs[|fs| - 1].index;
    assert forall k :: 0 <= k < |s| ==> s[0] <= s[k] <= s[|s| - 1];
    AbsentCount(s, s[0], s[|s| - 1]);
  }

  lemma MissingIsUnread(p: Profile, start: nat, outs: seq<ReadOutcome>, log: seq<Frame>)
    requires LapsForward(p, Start(start), outs) && ExactReads(p, Start(start), outs, log) && Numbered(p, log)
    requires Offered(p, Start(start), outs) != []
    ensures After(p, Start(start), outs).counters.sourceFramesMissing == |Unread(Offered(p, Start(start), outs))|
  {
    NumberedAccounts(p, start, outs, log);
    ContinuityAccounts(p, start, outs);
    OfferedFromLog(p, start, outs, log);
    UnreadCount(Offered(p, Start(start), outs));
  }

  // And that is what was skipped by lapping since the first frame (read at poll k), if the
  // last poll delivered a frame.
  lemma MissingIsLapped(p: Profile, start: nat, outs: seq<ReadOutcome>, log: seq<Frame>, k: nat)
    requires LapsForward(p, Start(start), outs) && ExactReads(p, Start(start), outs, log) && Numbered(p, log)
    requires k < |outs| && outs[|outs| - 1].Got?
    requires |Offered(p, Start(start), outs[..k + 1])| == 1 && outs[k].Got?
    ensures After(p, Start(start), outs).counters.sourceFramesMissing ==
            After(p, Start(start), outs).counters.lappedFramesSkipped
            - After(p, Start(start), outs[..k + 1]).counters.lappedFramesSkipped
  {
    var first := outs[..k + 1];
    HypothesesOfPrefix(p, Start(start), outs, log, k + 1);
    LastRead(p, start, outs, log);
    LastRead(p, start, first, log);
    PollAccounts(p, start, outs);
    PollAccounts(p, start, first);
    PositionAccounts(p, start, outs);
    PositionAccounts(p, start, first);
    NumberedAccounts(p, start, outs, log);
    NumberedAccounts(p, start, first, log);
    ContinuityAccounts(p, start, outs);
    OfferedGrows(p, Start(start), outs, k + 1);
  }

  lemma HypothesesOfPrefix(p: Profile, st: ReaderState, outs: seq<ReadOutcome>, log: seq<Frame>, k: nat)
    requires k <= |outs| && LapsForward(p, st, outs) && ExactReads(p, st, outs, log)
    ensures LapsForward(p, st, outs[..k]) && ExactReads(p, st, outs[..k], log)
  {
    forall m | 0 <= m < k ensures outs[..k][..m] == outs[..m] {
    }
  }

  lemma {:induction false} OfferedGrows(p: Profile, st: ReaderState, outs: seq<ReadOutcome>, k: nat)
    requires k <= |outs|
    ensures Offered(p, st, outs[..k]) <= Offered(p, st, outs)
    decreases |outs|
  {
    if k == |outs| {
      assert outs[..k] == outs;
    } else {
      OfferedGrows(p, st, outs[..|outs| - 1], k);
      assert outs[..|outs| - 1][..k] == outs[..k];
    }
  }

  lemma LastRead(p: Profile, start: nat, outs: seq<ReadOutcome>, log: seq<Frame>)
    requires ExactReads(p, Start(start), outs, log) && Numbered(p, log)
    requires outs != [] && outs[|outs| - 1].Got?
    ensures var fs := Offered(p, Start(start), outs);
            fs != [] && fs[|fs| - 1].index + 1 == After(p, Start(start), outs).readIndex
  {
    var st := After(p, Start(start), outs[..|outs| - 1]);
    assert st.readIndex < |log| && outs[|outs| - 1].frame == log[st.readIndex];
  }
}
