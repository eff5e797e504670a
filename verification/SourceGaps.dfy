/** What a packet boundary says about the source sequence. */
module SourceGaps {
  import opened Bytes
  import opened Messages
  import opened Counting
  import opened ShmRing
  import opened SenderReader
  import opened Sender

  // The frame at position at of the stream has an id below one that came before it.
  predicate Stale(stream: seq<SourceFrame>, at: nat)
    requires at < |stream|
  {
    at > 0 && stream[at].seqId < RunningMax(stream[..at])
  }

  lemma MaxSnoc(stream: seq<SourceFrame>, at: nat)
    requires at < |stream|
    ensures RunningMax(stream[..at + 1]) ==
            if at > 0 && stream[at].seqId <= RunningMax(stream[..at]) then RunningMax(stream[..at])
            else stream[at].seqId
  {
    assert stream[..at + 1][..at] == stream[..at];
  }

  // Unflagged frames raise the maximum by one each.
  lemma UnflaggedRaises(p: Profile, stream: seq<SourceFrame>, at: nat)
    requires Flagged(p, stream) && 0 < at < |stream| && !stream[at].gap
    ensures stream[at].seqId == RunningMax(stream[..at]) + 1 == RunningMax(stream[..at + 1])
  {
    MaxSnoc(stream, at);
  }

  lemma UnflaggedFollows(p: Profile, stream: seq<SourceFrame>, at: nat)
    requires Flagged(p, stream) && 0 < at && at + 1 < |stream| && !stream[at].gap && !stream[at + 1].gap
    ensures stream[at + 1].seqId == stream[at].seqId + 1
  {
    UnflaggedRaises(p, stream, at);
    UnflaggedRaises(p, stream, at + 1);
  }

  lemma SecondRecord(p: Profile, stream: seq<SourceFrame>, at: nat)
    requires Flagged(p, stream) && at + 1 < |stream| && !stream[at + 1].gap
    ensures stream[at + 1].seqId == stream[at].seqId + 1 <==> !Stale(stream, at)
  {
    MaxSnoc(stream, at);
    UnflaggedRaises(p, stream, at + 1);
  }

  // Inside a packet, the records after the first follow one another; the second follows the
  // first exactly when the first is not stale.
  lemma OrderInsidePacket(p: Profile, stream: seq<SourceFrame>, fs: seq<SourceFrame>, at: nat)
    requires Flagged(p, stream) && fs != [] && Slice(fs, at, stream)
    requires forall k :: 1 <= k < |fs| ==> !fs[k].gap
    ensures forall k :: 2 <= k < |fs| ==> fs[k].seqId == fs[k - 1].seqId + 1
    ensures |fs| >= 2 ==> (fs[1].seqId == fs[0].seqId + 1 <==> !Stale(stream, at))
  {
    forall k | 2 <= k < |fs| ensures fs[k].seqId == fs[k - 1].seqId + 1 {
      assert fs[k] == stream[at + k] && fs[k - 1] == stream[at + k - 1];
      UnflaggedFollows(p, stream, at + k - 1);
    }
    if |fs| >= 2 {
      assert fs[1] == stream[at + 1] && fs[0] == stream[at];
      SecondRecord(p, stream, at);
    }
  }

  // In every run: no packet crosses a source gap, unless its first record is stale.
  lemma PacketsKeepOrder(p: Profile, start: nat, batching: bool, env: Env, rounds: nat, i: nat)
    requires i < |RunSender(p, start, batching, env, rounds).ledger.packets|
    ensures var l := RunSender(p, start, batching, env, rounds).ledger;
            var (fs, stream) := (l.packets[i].frames, Stream(p, start, env, l.polls));
            && (forall k :: 1 <= k < |fs| ==> !fs[k].gap)
            && (forall k :: 2 <= k < |fs| ==> fs[k].seqId == fs[k - 1].seqId + 1)
            && exists at: nat :: Slice(fs, at, stream) &&
                 (|fs| >= 2 ==> (fs[1].seqId == fs[0].seqId + 1 <==> !Stale(stream, at)))
  {
    var l := RunSender(p, start, batching, env, rounds).ledger;
    var (fs, stream) := (l.packets[i].frames, Stream(p, start, env, l.polls));
    PacketsSound(p, start, batching, env, rounds, i);
    ContinuityAccounts(p, start, Answers(env, l.polls));
    var at: nat :| Slice(fs, at, stream);
    OrderInsidePacket(p, stream, fs, at);
  }

  // ---------- Exact reads of a numbered log ----------

  // However often it is asked, the ring returns what the log has where it was asked, and
  // sends a lapped reader forward.
  ghost predicate ExactSource(p: Profile, start: nat, env: Env, log: seq<Frame>) {
    forall n: nat {:trigger Answers(env, n)} ::
      LapsForward(p, Start(start), Answers(env, n)) && ExactReads(p, Start(start), Answers(env, n), log)
  }

  lemma {:induction false} MaxOfNumbered(stream: seq<SourceFrame>, at: nat)
    requires at < |stream| && Increasing(Indices(stream))
    requires forall k :: 0 <= k < |stream| ==> stream[k].seqId == stream[k].index + 1
    ensures RunningMax(stream[..at + 1]) == stream[at].seqId
    ensures !Stale(stream, at)
  {
    MaxSnoc(stream, at);
    if at == 0 {
    } else {
      MaxOfNumbered(stream, at - 1);
      assert Indices(stream)[at - 1] < Indices(stream)[at];
    }
  }

  // Frames read exactly from the log, with the producer's numbers.
  ghost predicate FromLog(fs: seq<SourceFrame>, log: seq<Frame>) {
    forall k :: 0 <= k < |fs| ==>
      && fs[k].seqId == fs[k].index + 1
      && fs[k].index < |log| && fs[k].bytes == log[fs[k].index]
  }

  lemma StreamFromLog(p: Profile, start: nat, env: Env, log: seq<Frame>, n: nat)
    requires ExactSource(p, start, env, log) && Numbered(p, log)
    ensures FromLog(Stream(p, start, env, n), log) && Increasing(Indices(Stream(p, start, env, n)))
    ensures Flagged(p, Stream(p, start, env, n))
  {
    var outs := Answers(env, n);
    NumberedAccounts(p, start, outs, log);
    OfferedFromLog(p, start, outs, log);
    ContinuityAccounts(p, start, outs);
  }

  lemma {:induction false} IndexInPacket(fs: seq<SourceFrame>, k: nat)
    requires k < |fs|
    requires forall m :: 0 <= m < |fs| ==> fs[m].seqId == fs[m].index + 1
    requires forall m :: 1 <= m < |fs| ==> fs[m].seqId == fs[m - 1].seqId + 1
    ensures fs[k].index == fs[0].index + k
  {
    if k == 0 {
    } else {
      IndexInPacket(fs, k - 1);
    }
  }

  // fs is what the log has from some position on.
  ghost predicate LogPiece(fs: seq<SourceFrame>, log: seq<Frame>) {
    && fs != [] && fs[0].index + |fs| <= |log|
    && Payloads(fs) == log[fs[0].index..fs[0].index + |fs|]
  }

  lemma ConsecutivePiece(fs: seq<SourceFrame>, log: seq<Frame>)
    requires fs != [] && FromLog(fs, log)
    requires forall m :: 1 <= m < |fs| ==> fs[m].seqId == fs[m - 1].seqId + 1
    ensures LogPiece(fs, log)
  {
    forall k | 0 <= k < |fs| ensures fs[k].index == fs[0].index + k < |log| && Payloads(fs)[k] == log[fs[0].index + k] {
      IndexInPacket(fs, k);
    }
    assert fs[|fs| - 1].index < |log|;
  }

  lemma SliceOfLog(p: Profile, stream: seq<SourceFrame>, fs: seq<SourceFrame>, at: nat, log: seq<Frame>)
    requires Flagged(p, stream) && FromLog(stream, log) && Increasing(Indices(stream))
    requires fs != [] && Slice(fs, at, stream) && forall k :: 1 <= k < |fs| ==> !fs[k].gap
    ensures LogPiece(fs, log)
  {
    OrderInsidePacket(p, stream, fs, at);
    MaxOfNumbered(stream, at);
    forall m | 1 <= m < |fs| ensures fs[m].seqId == fs[m - 1].seqId + 1 {
      assert m == 1 || 2 <= m;
    }
    ConsecutivePiece(fs, log);
  }

  lemma SoundSlice(p: Profile, fs: seq<SourceFrame>, stream: seq<SourceFrame>) returns (at: nat)
    requires PacketSound(p, fs, stream)
    ensures Slice(fs, at, stream) && fs != [] && forall k :: 1 <= k < |fs| ==> !fs[k].gap
  {
    at :| Slice(fs, at, stream);
  }

  // Then every packet is a contiguous piece of the source log.
  lemma PacketIsLogPiece(p: Profile, start: nat, batching: bool, env: Env, rounds: nat, i: nat, log: seq<Frame>)
    requires ExactSource(p, start, env, log) && Numbered(p, log)
    requires i < |RunSender(p, start, batching, env, rounds).ledger.packets|
    ensures LogPiece(RunSender(p, start, batching, env, rounds).ledger.packets[i].frames, log)
  {
    var l := RunSender(p, start, batching, env, rounds).ledger;
    var (fs, stream) := (l.packets[i].frames, Stream(p, start, env, l.polls));
    PacketsSound(p, start, batching, env, rounds, i);
    StreamFromLog(p, start, env, log, l.polls);
    var at := SoundSlice(p, fs, stream);
    SliceOfLog(p, stream, fs, at, log);
  }

  // A ring that is only published to between reads is such a source.
  lemma {:induction false} RingIsExact(p: Profile, start: nat, env: Env, slots: nat,
                                       logs: nat -> seq<Frame>, log: seq<Frame>, n: nat)
    requires slots > 0
    requires forall t: nat :: logs(t) <= log
    requires forall t: nat {:trigger env.read(t)} ::
               env.read(t) == ReadLog(logs(t), slots, After(p, Start(start), Answers(env, t)).readIndex)
    ensures LapsForward(p, Start(start), Answers(env, n)) && ExactReads(p, Start(start), Answers(env, n), log)
  {
    var outs := Answers(env, n);
    forall k | 0 <= k < n
      ensures outs[k].Lap? ==> outs[k].resume >= After(p, Start(start), outs[..k]).readIndex
      ensures outs[k].Got? ==> var i := After(p, Start(start), outs[..k]).readIndex;
                               i < |log| && outs[k].frame == log[i]
    {
      assert outs[..k] == Answers(env, k);
      assert outs[k] == env.read(k);
      assert logs(k) <= log;
    }
  }

  // ---------- A packet that crosses a gap ----------

  // A Bbo frame of the compact profile with the given id and nothing else in it.
  function Tiny(id: nat): Frame {
    ToLE(id, 8) + seq(10, _ => 0) + [2] + seq(29, _ => 0)
  }

  lemma TinyIsValid(id: nat)
    requires id < 256
    ensures |Tiny(id)| == 48 && ValidFrame(Compact, Tiny(id)) && SeqId(Tiny(id)) == id
  {
    RangeValues();
    LERoundTrip(id, 8);
    assert Tiny(id)[..8] == ToLE(id, 8);
  }

  // The ring answers with ids 5, 3 and 6, then is empty. Nothing else goes wrong.
  function StaleEnv(): Env {
    Env(_ => false,
        t => if t == 0 then Got(Tiny(5)) else if t == 1 then Got(Tiny(3)) else if t == 2 then Got(Tiny(6)) else NoFrame,
        _ => [], _ => true, _ => 2000, _ => true)
  }

  // Id 3 comes after id 5 and is deferred.
  lemma FirstPacketCloses(s: SenderState, first: SourceFrame)
    requires s.ledger.polls == 1 && s.ledger.reader.readIndex == 1
    requires s.ledger.reader.prevValid == 5 && s.ledger.reader.hasPrevValid
    ensures var (s', fs) := Fill(Compact, StaleEnv(), s, [first], PAYLOAD_CAPACITY - 48);
            && s'.ledger.packets == s.ledger.packets && s'.halted == s.halted && s'.stopping == s.stopping
            && s'.ledger.polls == 2 && s'.ledger.carry == Some(SourceFrame(Tiny(3), 3, true, 1))
            && s'.ledger.reader.prevValid == 5 && s'.ledger.reader.hasPrevValid
  {
    TinyIsValid(3);
    var (l, f) := (Poll(Compact, StaleEnv(), s.ledger).0, SourceFrame(Tiny(3), 3, true, 1));
    assert Poll(Compact, StaleEnv(), s.ledger).1 == Accepted(f);
    FillDefers(Compact, StaleEnv(), s, [first], PAYLOAD_CAPACITY - 48, l, f);
  }

  // After the first packet the frame with id 3, flagged, is carried.
  lemma FirstPacketIsAlone()
    ensures var s := Round(Compact, true, StaleEnv(), Begin(0));
            && !s.halted && !s.stopping && s.ledger.polls == 2
            && s.ledger.carry == Some(SourceFrame(Tiny(3), 3, true, 1))
            && s.ledger.reader.prevValid == 5 && s.ledger.reader.hasPrevValid
            && |s.ledger.packets| == 1
  {
    var (env, s) := (StaleEnv(), Begin(0));
    TinyIsValid(5);
    var (l, first) := (Poll(Compact, env, s.ledger).0, SourceFrame(Tiny(5), 5, false, 0));
    assert Poll(Compact, env, s.ledger).1 == Accepted(first);
    var s1 := Look(env, s).(ledger := l);
    assert Round(Compact, true, env, s) == Build(Compact, true, env, s1, first);
    BuildUnfolds(Compact, true, env, s1, first);
    FirstPacketCloses(s1.(allocs := s1.allocs + 1), first);
  }

  // It starts the second packet, and id 6, next after 5, follows it unflagged.
  lemma SecondPacketGathers(s: SenderState, first: SourceFrame)
    requires s.ledger.polls == 2 && s.ledger.reader.prevValid == 5 && s.ledger.reader.hasPrevValid
    ensures var (s', fs) := Fill(Compact, StaleEnv(), s, [first], PAYLOAD_CAPACITY - 48);
            && s'.ledger.packets == s.ledger.packets
            && |fs| == 2 && fs[0] == first && fs[1].seqId == 6 && !fs[1].gap
  {
    var env := StaleEnv();
    TinyIsValid(6);
    var (l, f) := (Poll(Compact, env, s.ledger).0, SourceFrame(Tiny(6), 6, false, s.ledger.reader.readIndex));
    assert Poll(Compact, env, s.ledger).1 == Accepted(f);
    FillTakes(Compact, env, s, [first], PAYLOAD_CAPACITY - 48, l, f);
    FillEnds(Compact, env, s.(stops := s.stops + 1, ledger := l), [first] + [f], PAYLOAD_CAPACITY - 96);
  }

  lemma SecondPacketSkips(s: SenderState, first: SourceFrame)
    requires !s.halted && !s.stopping && s.ledger.polls == 2 && s.ledger.carry == Some(first)
    requires s.ledger.reader.prevValid == 5 && s.ledger.reader.hasPrevValid
    requires |first.bytes| == 48 && ValidFrame(Compact, first.bytes)
    ensures var packets := Round(Compact, true, StaleEnv(), s).ledger.packets;
            && |packets| == |s.ledger.packets| + 1
            && var fs := packets[|s.ledger.packets|].frames;
               |fs| == 2 && fs[0] == first && fs[1].seqId == 6 && !fs[1].gap
  {
    var env := StaleEnv();
    var s1 := Look(env, s).(ledger := s.ledger.(carry := None));
    assert Round(Compact, true, env, s) == Build(Compact, true, env, s1, first);
    BuildUnfolds(Compact, true, env, s1, first);
    SecondPacketGathers(s1.(allocs := s1.allocs + 1), first);
  }

  // A packet that starts with id 3 and goes on, unflagged, with id 6.
  predicate Crosses(fs: seq<SourceFrame>) {
    |fs| == 2 && fs[0].seqId == 3 && fs[1].seqId == 6 && !fs[1].gap
  }

  // So a packet can hold ids 3 and 6: where the source goes backwards, the frame after the
  // stale one is compared with what came before it, and the gap between the two is crossed.
  // s1 and s2 are the states after one and two rounds of a run from the start.
  lemma GapInsidePacket() returns (s1: SenderState, s2: SenderState)
    ensures s1 == Round(Compact, true, StaleEnv(), Begin(0))
    ensures s1.ledger.carry.Some? && ValidFrame(Compact, s1.ledger.carry.value.bytes)
    ensures s2 == Round(Compact, true, StaleEnv(), s1)
    ensures |s2.ledger.packets| == 2 && Crosses(s2.ledger.packets[1].frames)
  {
    s1 := Round(Compact, true, StaleEnv(), Begin(0));
    FirstPacketIsAlone();
    TinyIsValid(3);
    SecondPacketSkips(s1, SourceFrame(Tiny(3), 3, true, 1));
    s2 := Round(Compact, true, StaleEnv(), s1);
  }
}
