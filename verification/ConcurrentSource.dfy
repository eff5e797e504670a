/** The rings at work: the outcomes of one reader's polls in any interleaving with the producer
    and other readers, and what they are to the Sender and to the consumer. */
module ConcurrentSource {
  import opened Bytes
  import opened Messages
  import opened ShmRing
  import opened SenderReader
  import Protocol = RingProtocol
  import Consumer
  import EndToEnd
  import Materializer
  import Producer
  import Receiver
  import Sender
  import SourceGaps
  import opened Subsequences

  // ---------- The reads of one reader ----------

  // A call of read(index) that has returned.
  datatype Read = Read(index: nat, result: Protocol.Result)

  // An action of reader r that makes a read return.
  predicate Completes(before: Protocol.Reader, after: Protocol.Reader, a: Protocol.Action, r: nat) {
    && (a.LoadSeq? || a.Recheck? || a.LoadEdge?) && a.reader == r
    && after.Returned? && (a.LoadSeq? || !before.Returned?)
  }

  // The reads of reader r that return in a schedule, in order.
  function Reads(s0: Protocol.State, schedule: seq<Protocol.Action>, r: nat): seq<Read>
    requires Protocol.Inv(s0) && r < |s0.readers|
  {
    if schedule == [] then []
    else
      var (init, a) := (schedule[..|schedule| - 1], schedule[|schedule| - 1]);
      var (before, after) := (Protocol.Run(s0, init).readers[r], Protocol.Run(s0, schedule).readers[r]);
      Reads(s0, init, r) + if Completes(before, after, a, r) then [Read(after.index, after.result)] else []
  }

  // What the protocol guarantees of a read, at its return and ever after.
  predicate Sound(m: Protocol.Shared, read: Read)
    requires Protocol.Consistent(m)
  {
    Protocol.ReaderInv(m, Protocol.Returned(read.index, read.result))
  }

  lemma SoundStays(s: Protocol.State, a: Protocol.Action, read: Read)
    requires Protocol.Inv(s) && Sound(s.shm, read)
    ensures Sound(Protocol.Step(s, a).shm, read)
  {
    Protocol.ProducerKeepsReader(s.shm, a, Protocol.Returned(read.index, read.result));
  }

  lemma {:induction false} ReadsAreSound(s0: Protocol.State, schedule: seq<Protocol.Action>, r: nat)
    requires Protocol.Inv(s0) && r < |s0.readers|
    ensures forall t :: 0 <= t < |Reads(s0, schedule, r)| ==>
              Sound(Protocol.Run(s0, schedule).shm, Reads(s0, schedule, r)[t])
  {
    if schedule == [] {
    } else {
      var (init, a) := (schedule[..|schedule| - 1], schedule[|schedule| - 1]);
      ReadsAreSound(s0, init, r);
      var earlier := Reads(s0, init, r);
      forall t | 0 <= t < |earlier| ensures Sound(Protocol.Run(s0, schedule).shm, earlier[t]) {
        SoundStays(Protocol.Run(s0, init), a, earlier[t]);
      }
      assert Protocol.ReaderInv(Protocol.Run(s0, schedule).shm, Protocol.Run(s0, schedule).readers[r]);
    }
  }

  // A successful read that no race could reach: the edge it saw was below index + n, or no
  // publication was under way.
  predicate Unraced(n: nat, read: Read) {
    read.result.ReadOk? ==> read.result.edge < read.index + n || !read.result.publishing
  }

  function Outcome(read: Read): ReadOutcome {
    match read.result
    case ReadOk(out, _, _) => Got(out)
    case ReadEmpty(_) => NoFrame
    case ReadLapped(resume, _, _) => Lap(resume)
  }

  // What such a read is to its caller.
  lemma UnracedIsExact(m: Protocol.Shared, read: Read)
    requires Protocol.Consistent(m) && Sound(m, read) && Unraced(m.n, read)
    ensures match Outcome(read)
            case Got(frame) => read.index < |m.pubs| && frame == m.pubs[read.index]
            case Lap(resume) => resume >= read.index
            case NoFrame => true
  {
  }

  // ---------- The Sender's ring ----------

  // The ring answers the t-th poll as read t did; behind the last read it is empty.
  ghost predicate Answering(env: Sender.Env, calls: seq<Read>) {
    forall t: nat :: env.read(t) == if t < |calls| then Outcome(calls[t]) else NoFrame
  }

  // Each read asks for the position at which the Sender's reader then stands.
  ghost predicate Follows(p: Profile, start: nat, env: Sender.Env, calls: seq<Read>) {
    forall t: nat :: t < |calls| ==>
      calls[t].index == After(p, Start(start), Sender.Answers(env, t)).readIndex
  }

  // However the producer and any readers interleave, unraced reads make the ring an exact
  // source of what has been published.
  lemma UnracedRingIsExact(p: Profile, start: nat, env: Sender.Env, calls: seq<Read>, m: Protocol.Shared)
    requires Protocol.Consistent(m) && Answering(env, calls) && Follows(p, start, env, calls)
    requires forall t :: 0 <= t < |calls| ==> Sound(m, calls[t]) && Unraced(m.n, calls[t])
    ensures SourceGaps.ExactSource(p, start, env, m.pubs)
  {
    forall n: nat
      ensures LapsForward(p, Start(start), Sender.Answers(env, n))
      ensures ExactReads(p, Start(start), Sender.Answers(env, n), m.pubs)
    {
      var outs := Sender.Answers(env, n);
      forall k | 0 <= k < n
        ensures outs[k].Lap? ==> outs[k].resume >= After(p, Start(start), outs[..k]).readIndex
        ensures outs[k].Got? ==> var i := After(p, Start(start), outs[..k]).readIndex;
                                 i < |m.pubs| && outs[k].frame == m.pubs[i]
      {
        assert outs[..k] == Sender.Answers(env, k);
        assert outs[k] == env.read(k);
        if k < |calls| {
          UnracedIsExact(m, calls[k]);
        }
      }
    }
  }

  // For every schedule: if reader r polls as the Sender does and none of its successful reads
  // was raced, the frames published are an exact source to the Sender.
  lemma ScheduleIsExact(p: Profile, start: nat, env: Sender.Env, s0: Protocol.State,
                        schedule: seq<Protocol.Action>, r: nat)
    requires Protocol.IsInit(s0) && Protocol.Inv(s0) && r < |s0.readers|
    requires Answering(env, Reads(s0, schedule, r)) && Follows(p, start, env, Reads(s0, schedule, r))
    requires forall t :: 0 <= t < |Reads(s0, schedule, r)| ==> Unraced(s0.shm.n, Reads(s0, schedule, r)[t])
    ensures SourceGaps.ExactSource(p, start, env, Protocol.Run(s0, schedule).shm.pubs)
  {
    ReadsAreSound(s0, schedule, r);
    UnracedRingIsExact(p, start, env, Reads(s0, schedule, r), Protocol.Run(s0, schedule).shm);
  }

  // ---------- The consumer's ring ----------

  ghost predicate ConsumerFollows(env: Consumer.Env, count: nat, s: Consumer.ConsumerState, calls: seq<Read>)
    requires Consumer.Fits(env, |s.buffer|)
  {
    && (forall t: nat :: env.read(t) == if t < |calls| then Outcome(calls[t]) else NoFrame)
    && forall n: nat {:trigger Consumer.RunConsumer(env, count, s, n)} ::
         var s' := Consumer.RunConsumer(env, count, s, n);
         s'.polls < |calls| ==> calls[s'.polls].index == s'.readIndex
  }

  // The same of a reader that polls as the consumer does.
  lemma ScheduleIsExactToConsumer(env: Consumer.Env, count: nat, s: Consumer.ConsumerState, s0: Protocol.State,
                                  schedule: seq<Protocol.Action>, r: nat)
    requires Protocol.IsInit(s0) && Protocol.Inv(s0) && r < |s0.readers|
    requires Consumer.Fits(env, |s.buffer|) && ConsumerFollows(env, count, s, Reads(s0, schedule, r))
    requires forall t :: 0 <= t < |Reads(s0, schedule, r)| ==> Unraced(s0.shm.n, Reads(s0, schedule, r)[t])
    ensures Consumer.ExactSource(env, count, s, Protocol.Run(s0, schedule).shm.pubs)
  {
    ReadsAreSound(s0, schedule, r);
    var (calls, m) := (Reads(s0, schedule, r), Protocol.Run(s0, schedule).shm);
    forall n: nat ensures Consumer.ExactAnswer(env, Consumer.RunConsumer(env, count, s, n), m.pubs) {
      var s' := Consumer.RunConsumer(env, count, s, n);
      if s'.polls < |calls| {
        UnracedIsExact(m, calls[s'.polls]);
      }
    }
  }

  // ---------- The whole path ----------

  // The producer's publications in a schedule are the messages it generated. The Sender is one of
  // the readers, and its successful reads were not raced. Then, whatever buffers, NIC and network
  // do, the receiver's output is a subsequence of those messages with increasing ids.
  lemma CompactPathOverRing(kind: Producer.Kind, clock: Producer.Clock, count: nat, log: seq<Frame>,
                    s0: Protocol.State, schedule: seq<Protocol.Action>, r: nat,
                    start: nat, batching: bool, env: Sender.Env, rounds: nat,
                    d: Materializer.Destination, arrivals: seq<Receiver.Buffer>)
    requires count < Producer.TWO_64 && log == Producer.Produced(kind, clock, count).log
    requires Protocol.IsInit(s0) && Protocol.Inv(s0) && r < |s0.readers|
    requires Protocol.Run(s0, schedule).shm.pubs == log
    requires Answering(env, Reads(s0, schedule, r)) && Follows(Compact, start, env, Reads(s0, schedule, r))
    requires forall t :: 0 <= t < |Reads(s0, schedule, r)| ==> Unraced(s0.shm.n, Reads(s0, schedule, r)[t])
    requires Materializer.Prepared(d)
    requires |Sender.RunSender(Compact, start, batching, env, rounds).ledger.packets| <= EndToEnd.SEQUENCE_NUMBERS
    requires EndToEnd.FromWire(d, Sender.RunSender(Compact, start, batching, env, rounds).ledger.packets, arrivals)
    ensures Receiver.AllTrusted(Compact, arrivals)
    ensures SubSeq(Receiver.ProcessAll(Compact, Receiver.Idle(), arrivals).log, log)
    ensures Consumer.IncreasingIds(Receiver.ProcessAll(Compact, Receiver.Idle(), arrivals).log)
  {
    ScheduleIsExact(Compact, start, env, s0, schedule, r);
    EndToEnd.CompactPath(kind, clock, count, log, start, batching, env, rounds, d, arrivals);
  }
}
