/** The consumer loop: reads the ring from a position on, and accounts for what it sees. */
module Consumer {
  import opened Bytes
  import opened Messages
  import opened Counting
  import opened ShmRing
  import opened Metrics

  const DEFAULT_SAMPLE_CAPACITY: nat := 0x40_0000
  const FRAMING_SIZE := 16

  // What the loop meets: read(t) is the t-th answer of the ring (copied(t): what a failed read
  // left in the buffer), now(t) the time of receipt, and idle(t) whether the ring has by then
  // been empty for too long.
  datatype Env = Env(read: nat -> ReadOutcome, copied: nat -> seq<Byte>, now: nat -> nat, idle: nat -> bool)

  // buffer is the frame array, which every read overwrites from its start; ids and latencies
  // are what was recorded.
  datatype ConsumerState = ConsumerState(
    readIndex: nat, received: nat, lappedEvents: nat, polls: nat, gaveUp: bool,
    buffer: seq<Byte>, ids: seq<nat>, latencies: seq<nat>)

  function SampleCapacity(count: nat): nat {
    if count != 0 then count else DEFAULT_SAMPLE_CAPACITY
  }

  function Begin(start: nat, buffer: seq<Byte>): ConsumerState {
    ConsumerState(start, 0, 0, 0, false, buffer, [], [])
  }

  // The environment keeps to the frame capacity of the ring's slots.
  ghost predicate Fits(env: Env, cap: nat) {
    && cap >= FRAMING_SIZE
    && forall t: nat :: (env.read(t).Got? ==> |env.read(t).frame| <= cap) && |env.copied(t)| <= cap
  }

  function Overwrite(buffer: seq<Byte>, bytes: seq<Byte>): (b: seq<Byte>)
    requires |bytes| <= |buffer|
    ensures |b| == |buffer|
  {
    bytes + buffer[|bytes|..]
  }

  predicate Done(s: ConsumerState, count: nat) {
    s.gaveUp || (count != 0 && s.received >= count)
  }

  function Latency(now: nat, sent: nat): nat {
    if now > sent then now - sent else 0
  }

  // A frame in the buffer, recorded. The framing is read from the buffer, however short the
  // frame was.
  function Recorded(env: Env, s: ConsumerState, buffer: seq<Byte>): ConsumerState
    requires |buffer| >= FRAMING_SIZE
  {
    s.(polls := s.polls + 1, readIndex := s.readIndex + 1, received := s.received + 1, buffer := buffer,
       ids := s.ids + [FromLE(buffer[..8])],
       latencies := s.latencies + [Latency(env.now(s.polls), FromLE(buffer[8..16]))])
  }

  // One turn of the loop.
  ghost function Turn(env: Env, s: ConsumerState): (r: ConsumerState)
    requires Fits(env, |s.buffer|)
    ensures |r.buffer| == |s.buffer|
  {
    match env.read(s.polls)
    case Got(frame) => Recorded(env, s, Overwrite(s.buffer, frame))
    case Lap(resume) =>
      s.(polls := s.polls + 1, readIndex := resume, lappedEvents := s.lappedEvents + 1,
         buffer := Overwrite(s.buffer, env.copied(s.polls)))
    case NoFrame => s.(polls := s.polls + 1, gaveUp := env.idle(s.polls))
  }

  // At most n turns.
  ghost function RunConsumer(env: Env, count: nat, s: ConsumerState, n: nat): (r: ConsumerState)
    requires Fits(env, |s.buffer|)
    ensures |r.buffer| == |s.buffer|
  {
    if n == 0 then s
    else
      var before := RunConsumer(env, count, s, n - 1);
      if Done(before, count) then before else Turn(env, before)
  }

  // ---------- Exact reads of a log with increasing ids ----------

  predicate IncreasingIds(log: seq<Frame>) {
    && (forall i :: 0 <= i < |log| ==> |log[i]| >= FRAMING_SIZE)
    && forall i, j :: 0 <= i < j < |log| ==> SeqId(log[i]) < SeqId(log[j])
  }

  // What the ring answers in state s is what the log has at the position read.
  predicate ExactAnswer(env: Env, s: ConsumerState, log: seq<Frame>) {
    match env.read(s.polls)
    case Got(frame) => s.readIndex < |log| && frame == log[s.readIndex]
    case Lap(resume) => resume >= s.readIndex
    case NoFrame => true
  }

  ghost predicate ExactSource(env: Env, count: nat, s: ConsumerState, log: seq<Frame>)
    requires Fits(env, |s.buffer|)
  {
    forall n: nat {:trigger RunConsumer(env, count, s, n)} :: ExactAnswer(env, RunConsumer(env, count, s, n), log)
  }

  ghost predicate SeenBefore(id: nat, bound: nat, log: seq<Frame>)
    requires forall i :: 0 <= i < |log| ==> |log[i]| >= FRAMING_SIZE
  {
    exists i: nat :: i < bound && i < |log| && id == SeqId(log[i])
  }

  // Every id recorded is that of a log entry before the read position, in log order.
  ghost predicate SeenInOrder(s: ConsumerState, log: seq<Frame>)
    requires forall i :: 0 <= i < |log| ==> |log[i]| >= FRAMING_SIZE
  {
    && Increasing(s.ids) && s.received == |s.ids| == |s.latencies|
    && forall k :: 0 <= k < |s.ids| ==> SeenBefore(s.ids[k], s.readIndex, log)
  }

  lemma RecordedInOrder(env: Env, s: ConsumerState, log: seq<Frame>)
    requires Fits(env, |s.buffer|) && IncreasingIds(log) && SeenInOrder(s, log)
    requires env.read(s.polls).Got? && ExactAnswer(env, s, log)
    ensures SeenInOrder(Turn(env, s), log)
    ensures Turn(env, s).ids == s.ids + [SeqId(log[s.readIndex])]
  {
    var frame := log[s.readIndex];
    var buffer := Overwrite(s.buffer, frame);
    assert buffer[..8] == frame[..8];
    var ids := s.ids + [SeqId(frame)];
    forall k | 0 <= k < |s.ids|
      ensures ids[k] < SeqId(frame) && SeenBefore(ids[k], s.readIndex + 1, log)
    {
      assert SeenBefore(s.ids[k], s.readIndex, log);
    }
  }

  lemma SeenLater(s: ConsumerState, s': ConsumerState, log: seq<Frame>)
    requires IncreasingIds(log) && SeenInOrder(s, log)
    requires s'.ids == s.ids && s'.latencies == s.latencies && s'.received == s.received
    requires s'.readIndex >= s.readIndex
    ensures SeenInOrder(s', log)
  {
    forall k | 0 <= k < |s'.ids| ensures SeenBefore(s'.ids[k], s'.readIndex, log) {
      assert SeenBefore(s.ids[k], s.readIndex, log);
    }
  }

  lemma {:induction false} ConsumerSeesInOrder(env: Env, count: nat, start: nat, buffer: seq<Byte>,
                                               log: seq<Frame>, n: nat)
    requires Fits(env, |buffer|) && IncreasingIds(log)
    requires ExactSource(env, count, Begin(start, buffer), log)
    ensures SeenInOrder(RunConsumer(env, count, Begin(start, buffer), n), log)
    ensures count != 0 ==> RunConsumer(env, count, Begin(start, buffer), n).received <= count
  {
    if n == 0 {
    } else {
      ConsumerSeesInOrder(env, count, start, buffer, log, n - 1);
      var s := RunConsumer(env, count, Begin(start, buffer), n - 1);
      assert ExactAnswer(env, s, log);
      if !Done(s, count) {
        if env.read(s.polls).Got? {
          RecordedInOrder(env, s, log);
        } else {
          SeenLater(s, Turn(env, s), log);
        }
      }
    }
  }

  // What an exact report says of ids in increasing order.
  ghost predicate ExactReport(r: Report, ids: seq<nat>) {
    && r.received == |ids|
    && (ids != [] ==>
          && ids[0] + r.expected == ids[|ids| - 1] + 1
          && r.expected == r.received + r.dropped
          && r.dropped == |Absent(ids, ids[0], ids[|ids| - 1])|)
  }

  lemma IncreasingReport(r: Report, ids: seq<nat>)
    requires Increasing(ids) && Delivery(r, ids)
    ensures ExactReport(r, ids)
  {
    if ids != [] {
      var lo, hi := ids[0], ids[|ids| - 1];
      assert forall k :: 0 <= k < |ids| ==> lo <= ids[k] <= hi;
      assert Spans(ids, lo, hi);
      ReportCountsDrops(r, ids, lo, hi);
    }
  }

  // The consumer's report on such a run: nothing was counted twice, every id missing between
  // the first and the last one seen was counted, and with --count given no sample was lost.
  lemma ReportIsExact(env: Env, count: nat, start: nat, buffer: seq<Byte>, log: seq<Frame>, n: nat, r: Report)
    requires Fits(env, |buffer|) && IncreasingIds(log)
    requires ExactSource(env, count, Begin(start, buffer), log)
    requires var s := RunConsumer(env, count, Begin(start, buffer), n);
             Reports(r, s.ids, Kept(s.latencies, SampleCapacity(count)))
    ensures ExactReport(r, RunConsumer(env, count, Begin(start, buffer), n).ids)
    ensures count != 0 ==> r.received <= count && r.overflow == 0
    ensures count == 0 ==> r.overflow == if r.received > 4_194_304 then r.received - 4_194_304 else 0
  {
    ConsumerSeesInOrder(env, count, start, buffer, log, n);
    IncreasingReport(r, RunConsumer(env, count, Begin(start, buffer), n).ids);
  }

  // ---------- What is recorded, read by read ----------

  // The position asked for at poll t.
  function Asked(env: Env, start: nat, t: nat): nat {
    if t == 0 then start
    else
      match env.read(t - 1)
      case Got(_) => Asked(env, start, t - 1) + 1
      case Lap(resume) => resume
      case NoFrame => Asked(env, start, t - 1)
  }

  // The polls from a to b - 1 found nothing.
  ghost predicate Quiet(env: Env, a: nat, b: nat) {
    forall t: nat :: a <= t < b ==> env.read(t) == NoFrame
  }

  lemma {:induction false} AskedWhenQuiet(env: Env, start: nat, a: nat, b: nat)
    requires a <= b && Quiet(env, a, b)
    ensures Asked(env, start, b) == Asked(env, start, a)
    decreases b
  {
    if a == b {
    } else {
      assert env.read(b - 1) == NoFrame;
      AskedWhenQuiet(env, start, a, b - 1);
    }
  }

  // Poll t returned entry i of the log; its id is recorded and the time from the stamp in its
  // bytes 8 to 15 to its receipt, or none if that is not positive.
  predicate RecordOf(env: Env, log: seq<Frame>, t: nat, i: nat, id: nat, latency: nat) {
    && i < |log| && |log[i]| >= 16 && env.read(t) == Got(log[i])
    && id == FromLE(log[i][..8])
    && var (now, sent) := (env.now(t), FromLE(log[i][8..16]));
       && (now > sent ==> latency + sent == now)
       && (now <= sent ==> latency == 0)
  }

  // The k-th record is of the k-th poll that returned a frame, and of no other.
  ghost predicate RecordsOf(env: Env, log: seq<Frame>, s: ConsumerState, polls: seq<nat>, at: seq<nat>) {
    && |polls| == |at| == |s.ids| == |s.latencies| == s.received
    && Increasing(polls) && (forall k :: 0 <= k < |polls| ==> polls[k] < s.polls)
    && (forall t: nat :: t < s.polls && env.read(t).Got? ==> t in polls)
    && forall k :: 0 <= k < |polls| ==> RecordOf(env, log, polls[k], at[k], s.ids[k], s.latencies[k])
  }

  ghost predicate AskedAt(env: Env, start: nat, polls: seq<nat>, at: seq<nat>) {
    |at| == |polls| && forall k :: 0 <= k < |at| ==> at[k] == Asked(env, start, polls[k])
  }

  lemma TurnRecords(env: Env, log: seq<Frame>, s: ConsumerState) returns (id: nat, latency: nat)
    requires Fits(env, |s.buffer|) && env.read(s.polls).Got? && ExactAnswer(env, s, log)
    requires |log[s.readIndex]| >= 16
    ensures Turn(env, s).ids == s.ids + [id] && Turn(env, s).latencies == s.latencies + [latency]
    ensures RecordOf(env, log, s.polls, s.readIndex, id, latency)
  {
    var frame := log[s.readIndex];
    var buffer := Overwrite(s.buffer, frame);
    assert buffer[..8] == frame[..8] && buffer[8..16] == frame[8..16];
    id, latency := FromLE(buffer[..8]), Latency(env.now(s.polls), FromLE(buffer[8..16]));
  }

  lemma RecordsMore(env: Env, log: seq<Frame>, s: ConsumerState, polls: seq<nat>, at: seq<nat>)
    requires Fits(env, |s.buffer|) && RecordsOf(env, log, s, polls, at)
    requires env.read(s.polls).Got? && ExactAnswer(env, s, log)
    requires |log[s.readIndex]| >= 16
    ensures RecordsOf(env, log, Turn(env, s), polls + [s.polls], at + [s.readIndex])
  {
    var s' := Turn(env, s);
    var id, latency := TurnRecords(env, log, s);
    var (polls', at') := (polls + [s.polls], at + [s.readIndex]);
    forall k | 0 <= k < |polls'|
      ensures RecordOf(env, log, polls'[k], at'[k], s'.ids[k], s'.latencies[k])
    {
      if k < |polls| {
        assert RecordOf(env, log, polls[k], at[k], s.ids[k], s.latencies[k]);
      }
    }
    assert polls'[|polls|] == s.polls;
    assert forall t :: t in polls ==> t in polls';
  }

  lemma RecordsAsMany(env: Env, log: seq<Frame>, s: ConsumerState, polls: seq<nat>, at: seq<nat>)
    requires Fits(env, |s.buffer|) && RecordsOf(env, log, s, polls, at) && !env.read(s.polls).Got?
    ensures RecordsOf(env, log, Turn(env, s), polls, at)
  {
  }

  ghost predicate Noted(env: Env, start: nat, log: seq<Frame>, s: ConsumerState, polls: seq<nat>, at: seq<nat>) {
    RecordsOf(env, log, s, polls, at) && AskedAt(env, start, polls, at) && s.readIndex == Asked(env, start, s.polls)
  }

  lemma TurnNoted(env: Env, start: nat, log: seq<Frame>, s: ConsumerState, polls: seq<nat>, at: seq<nat>)
    returns (polls': seq<nat>, at': seq<nat>)
    requires Fits(env, |s.buffer|) && forall i :: 0 <= i < |log| ==> |log[i]| >= 16
    requires Noted(env, start, log, s, polls, at) && ExactAnswer(env, s, log)
    ensures Noted(env, start, log, Turn(env, s), polls', at')
  {
    if env.read(s.polls).Got? {
      RecordsMore(env, log, s, polls, at);
      polls', at' := polls + [s.polls], at + [s.readIndex];
    } else {
      RecordsAsMany(env, log, s, polls, at);
      polls', at' := polls, at;
    }
  }

  lemma {:induction false} RecordsSoFar(env: Env, count: nat, start: nat, buffer: seq<Byte>, log: seq<Frame>, n: nat)
    returns (polls: seq<nat>, at: seq<nat>)
    requires Fits(env, |buffer|) && forall i :: 0 <= i < |log| ==> |log[i]| >= 16
    requires ExactSource(env, count, Begin(start, buffer), log)
    ensures Noted(env, start, log, RunConsumer(env, count, Begin(start, buffer), n), polls, at)
  {
    if n == 0 {
      polls, at := [], [];
    } else {
      polls, at := RecordsSoFar(env, count, start, buffer, log, n - 1);
      var s := RunConsumer(env, count, Begin(start, buffer), n - 1);
      assert ExactAnswer(env, s, log);
      if !Done(s, count) {
        polls, at := TurnNoted(env, start, log, s, polls, at);
      }
    }
  }

  // Reading starts at the given position, goes on by one, and after a lap where that said.
  ghost predicate GoesOn(env: Env, start: nat, polls: seq<nat>, at: seq<nat>) {
    && |at| == |polls|
    && (forall k :: 0 <= k < |at| && Quiet(env, 0, polls[k]) ==> at[k] == start)
    && (forall k :: 0 < k < |at| && Quiet(env, polls[k - 1] + 1, polls[k]) ==> at[k] == at[k - 1] + 1)
    && forall k, t: nat {:trigger Quiet(env, t + 1, polls[k])} ::
         0 <= k < |at| && t < polls[k] && env.read(t).Lap? && Quiet(env, t + 1, polls[k]) ==>
           at[k] == env.read(t).resume
  }

  lemma AskedGoesOn(env: Env, start: nat, polls: seq<nat>, at: seq<nat>)
    requires AskedAt(env, start, polls, at) && Increasing(polls)
    requires forall k :: 0 <= k < |polls| ==> env.read(polls[k]).Got?
    ensures GoesOn(env, start, polls, at)
  {
    forall k | 0 <= k < |at| && Quiet(env, 0, polls[k]) ensures at[k] == start {
      AskedWhenQuiet(env, start, 0, polls[k]);
    }
    forall k | 0 < k < |at| && Quiet(env, polls[k - 1] + 1, polls[k]) ensures at[k] == at[k - 1] + 1 {
      AskedWhenQuiet(env, start, polls[k - 1] + 1, polls[k]);
    }
    forall k, t: nat | 0 <= k < |at| && t < polls[k] && env.read(t).Lap? && Quiet(env, t + 1, polls[k])
      ensures at[k] == env.read(t).resume
    {
      AskedWhenQuiet(env, start, t + 1, polls[k]);
    }
  }

  // Over every run on exact reads: the k-th id and the k-th latency are those of the k-th frame
  // returned, and the frames are read one after the other except where the reader was lapped.
  lemma ConsumerRecords(env: Env, count: nat, start: nat, buffer: seq<Byte>, log: seq<Frame>, n: nat)
    returns (polls: seq<nat>, at: seq<nat>)
    requires Fits(env, |buffer|) && forall i :: 0 <= i < |log| ==> |log[i]| >= 16
    requires ExactSource(env, count, Begin(start, buffer), log)
    ensures RecordsOf(env, log, RunConsumer(env, count, Begin(start, buffer), n), polls, at)
    ensures GoesOn(env, start, polls, at)
  {
    polls, at := RecordsSoFar(env, count, start, buffer, log, n);
    forall k | 0 <= k < |polls| ensures env.read(polls[k]).Got? {
      assert RecordOf(env, log, polls[k], at[k], RunConsumer(env, count, Begin(start, buffer), n).ids[k],
                      RunConsumer(env, count, Begin(start, buffer), n).latencies[k]);
    }
    AskedGoesOn(env, start, polls, at);
  }

  // How often the first n polls sent the reader on.
  function Laps(env: Env, n: nat): nat {
    if n == 0 then 0 else Laps(env, n - 1) + if env.read(n - 1).Lap? then 1 else 0
  }

  // The loop polls until --count frames are received or the ring was empty for too long, and
  // no further.
  ghost predicate Stops(env: Env, count: nat, s: ConsumerState, n: nat) {
    && s.polls <= n
    && (s.gaveUp <==> s.polls > 0 && env.read(s.polls - 1) == NoFrame && env.idle(s.polls - 1))
    && (forall t: nat :: t + 1 < s.polls ==> !(env.read(t) == NoFrame && env.idle(t)))
    && (count != 0 ==> s.received <= count)
    && (s.polls < n ==> s.gaveUp || (count != 0 && s.received == count))
    && s.lappedEvents == Laps(env, s.polls)
  }

  lemma {:induction false} ConsumerStops(env: Env, count: nat, start: nat, buffer: seq<Byte>, n: nat)
    requires Fits(env, |buffer|)
    ensures Stops(env, count, RunConsumer(env, count, Begin(start, buffer), n), n)
  {
    if n == 0 {
    } else {
      ConsumerStops(env, count, start, buffer, n - 1);
    }
  }

  // ---------- The loop itself ----------

  class Loop {
    const env: Env
    const count: nat
    const frame: array<Byte>
    const accumulator: Accumulator
    var readIndex: nat
    var received: nat
    var lappedEvents: nat
    var polls: nat
    var gaveUp: bool

    ghost function State(): ConsumerState
      reads this, frame, accumulator
    {
      ConsumerState(readIndex, received, lappedEvents, polls, gaveUp, frame[..],
                    accumulator.ids, accumulator.latencies)
    }

    ghost predicate Valid()
      reads this, accumulator, accumulator.samples
    {
      && Fits(env, frame.Length)
      && accumulator.Valid() && accumulator.samples.Length == SampleCapacity(count)
      && accumulator.samples as object != frame
    }

    constructor (e: Env, c: nat, start: nat, f: array<Byte>)
      requires Fits(e, f.Length)
      ensures Valid() && fresh(accumulator) && fresh(accumulator.samples)
      ensures env == e && count == c && frame == f
      ensures State() == Begin(start, f[..])
    {
      env, count, frame := e, c, f;
      accumulator := new Accumulator(if c != 0 then c else DEFAULT_SAMPLE_CAPACITY);
      readIndex, received, lappedEvents, polls, gaveUp := start, 0, 0, 0, false;
    }

    // What the ring's read leaves in the frame array.
    method Fill(bytes: seq<Byte>)
      requires |bytes| <= frame.Length
      modifies frame
      ensures frame[..] == Overwrite(old(frame[..]), bytes)
    {
      ghost var before := frame[..];
      forall k | 0 <= k < |bytes| {
        frame[k] := bytes[k];
      }
      assert forall k :: 0 <= k < frame.Length ==> frame[..][k] == Overwrite(before, bytes)[k];
    }

    // load_framing: the id and the send time from the head of the frame array.
    method LoadFraming() returns (seqId: nat, sent: nat)
      requires Valid()
      ensures seqId == FromLE(frame[..][..8]) && sent == FromLE(frame[..][8..16])
    {
      seqId, sent := FromLE(frame[..8]), FromLE(frame[8..16]);
      assert frame[..][..8] == frame[..8] && frame[..][8..16] == frame[8..16];
    }

    // What the loop does with bytes in the frame array.
    method Accept()
      requires Valid()
      modifies this`received, this`readIndex, this`polls, accumulator, accumulator.samples
      ensures Valid() && State() == Recorded(env, old(State()), frame[..])
    {
      var seqId, sent := LoadFraming();
      var now := env.now(polls);
      accumulator.Record(seqId, Latency(now, sent));
      polls := polls + 1;
      received := received + 1;
      readIndex := readIndex + 1;
    }

    method RunTurn()
      requires Valid() && !Done(State(), count)
      modifies this, frame, accumulator, accumulator.samples
      ensures Valid() && State() == Turn(env, old(State()))
    {
      match env.read(polls)
      case Got(bytes) =>
        Fill(bytes);
        Accept();
      case Lap(resume) =>
        Fill(env.copied(polls));
        polls := polls + 1;
        lappedEvents := lappedEvents + 1;
        readIndex := resume;
      case NoFrame =>
        gaveUp := env.idle(polls);
        polls := polls + 1;
    }

    // The loop until it ends, or its first rounds turns.
    method Run(rounds: nat)
      requires Valid()
      modifies this, frame, accumulator, accumulator.samples
      ensures Valid() && State() == RunConsumer(env, count, old(State()), rounds)
    {
      ghost var s := State();
      for r := 0 to rounds
        invariant Valid() && State() == RunConsumer(env, count, s, r)
      {
        if !gaveUp && (count == 0 || received < count) {
          RunTurn();
        }
      }
    }

    method Finish() returns (report: Report)
      requires Valid()
      ensures Reports(report, State().ids, Kept(State().latencies, SampleCapacity(count)))
    {
      report := accumulator.MakeReport();
    }
  }
}
