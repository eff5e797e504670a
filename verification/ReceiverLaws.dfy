/** Which packets the Receiver accepts, and what it counts, in terms of what arrived. */
module ReceiverLaws {
  import opened Bytes
  import opened Messages
  import opened ShmRing
  import opened IngressParser
  import opened Receiver

  predicate Parsed(a: Arrival) {
    TryParse(a.packet).Some?
  }

  function Number(a: Arrival): nat
    requires Parsed(a)
  {
    TryParse(a.packet).value.dataSeq
  }

  // The record count in its header.
  function Announces(a: Arrival): nat
    requires Parsed(a)
  {
    TryParse(a.packet).value.recordCount
  }

  // a parses, and its number exceeds all that came before.
  predicate Newest(before: seq<Arrival>, a: Arrival) {
    && Parsed(a)
    && forall j :: 0 <= j < |before| && Parsed(before[j]) ==> Number(before[j]) < Number(a)
  }

  // The arrivals with a number greater than all before them.
  function Fresh(arrivals: seq<Arrival>): (fs: seq<Arrival>)
    ensures forall k :: 0 <= k < |fs| ==> Parsed(fs[k])
  {
    if arrivals == [] then []
    else
      var (init, last) := (arrivals[..|arrivals| - 1], arrivals[|arrivals| - 1]);
      Fresh(init) + if Newest(init, last) then [last] else []
  }

  function ParsedCount(arrivals: seq<Arrival>): nat {
    if arrivals == [] then 0
    else ParsedCount(arrivals[..|arrivals| - 1]) + if Parsed(arrivals[|arrivals| - 1]) then 1 else 0
  }

  function Numbers(arrivals: seq<Arrival>): (r: seq<nat>)
    requires forall k :: 0 <= k < |arrivals| ==> Parsed(arrivals[k])
    ensures |r| == |arrivals| && forall k :: 0 <= k < |r| ==> r[k] == Number(arrivals[k])
  {
    seq(|arrivals|, k requires 0 <= k < |arrivals| => Number(arrivals[k]))
  }

  function Written(arrivals: seq<Arrival>): seq<Frame> {
    if arrivals == [] then [] else Written(arrivals[..|arrivals| - 1]) + arrivals[|arrivals| - 1].written
  }

  function BytesOf(arrivals: seq<Arrival>): nat {
    if arrivals == [] then 0 else BytesOf(arrivals[..|arrivals| - 1]) + |arrivals[|arrivals| - 1].packet|
  }

  function Announced(arrivals: seq<Arrival>): nat
    requires forall k :: 0 <= k < |arrivals| ==> Parsed(arrivals[k])
  {
    if arrivals == [] then 0
    else Announced(arrivals[..|arrivals| - 1]) + Announces(arrivals[|arrivals| - 1])
  }

  // How often a number does not follow the one before it.
  function Jumps(numbers: seq<nat>): nat {
    if |numbers| <= 1 then 0
    else
      var k := |numbers| - 1;
      Jumps(numbers[..k]) + if numbers[k] != numbers[k - 1] + 1 then 1 else 0
  }

  function Empty(bursts: seq<seq<Arrival>>): nat {
    if bursts == [] then 0 else Empty(bursts[..|bursts| - 1]) + if bursts[|bursts| - 1] == [] then 1 else 0
  }

  // next is one more than the largest number that has arrived.
  ghost predicate Expecting(s: ReceiverState, arrivals: seq<Arrival>) {
    && (s.established <==> exists j :: 0 <= j < |arrivals| && Parsed(arrivals[j]))
    && (s.established ==> forall j :: 0 <= j < |arrivals| && Parsed(arrivals[j]) ==> Number(arrivals[j]) < s.next)
    && (s.established ==> exists j :: 0 <= j < |arrivals| && Parsed(arrivals[j]) && Number(arrivals[j]) + 1 == s.next)
  }

  // The numbers of the packets fs are those accepted, and the gaps between them are counted.
  ghost predicate ShowsNumbers(s: ReceiverState, fs: seq<Arrival>)
    requires forall k :: 0 <= k < |fs| ==> Parsed(fs[k])
  {
    && s.history == Numbers(fs) && s.counters.packetsAccepted == |fs|
    && s.counters.gapEvents == Jumps(Numbers(fs))
  }

  // What was written for the packets fs is published, and counted.
  ghost predicate ShowsFrames(s: ReceiverState, fs: seq<Arrival>)
    requires forall k :: 0 <= k < |fs| ==> Parsed(fs[k])
  {
    && s.log == Written(fs)
    && s.counters.framesPublished == Announced(fs)
    && s.counters.frameBytesPublished + 64 * |fs| == BytesOf(fs)
  }

  // The packets accepted are the fresh ones, in the order of their arrival.
  ghost predicate AcceptsFresh(s: ReceiverState, arrivals: seq<Arrival>) {
    ShowsNumbers(s, Fresh(arrivals)) && ShowsFrames(s, Fresh(arrivals))
  }

  // Every packet counts once.
  ghost predicate CountsAll(s: ReceiverState, arrivals: seq<Arrival>) {
    && s.counters.rxPackets == |arrivals| && s.counters.rxBytes == BytesOf(arrivals)
    && s.counters.invalidPackets == |arrivals| - ParsedCount(arrivals)
    && s.counters.stalePackets == ParsedCount(arrivals) - |Fresh(arrivals)|
  }

  lemma FreshSnoc(before: seq<Arrival>, a: Arrival)
    ensures Fresh(before + [a]) == if Newest(before, a) then Fresh(before) + [a] else Fresh(before)
  {
    assert (before + [a])[..|before|] == before;
  }

  lemma ParsedSnoc(before: seq<Arrival>, a: Arrival)
    ensures ParsedCount(before + [a]) == ParsedCount(before) + (if Parsed(a) then 1 else 0)
  {
    assert (before + [a])[..|before|] == before;
  }

  lemma BytesSnoc(before: seq<Arrival>, a: Arrival)
    ensures BytesOf(before + [a]) == BytesOf(before) + |a.packet|
  {
    assert (before + [a])[..|before|] == before;
  }

  lemma WrittenSnoc(before: seq<Arrival>, a: Arrival)
    ensures Written(before + [a]) == Written(before) + a.written
  {
    assert (before + [a])[..|before|] == before;
  }

  lemma NumbersSnoc(before: seq<Arrival>, a: Arrival)
    requires (forall k :: 0 <= k < |before| ==> Parsed(before[k])) && Parsed(a)
    ensures Numbers(before + [a]) == Numbers(before) + [Number(a)]
  {
  }

  lemma AnnouncedSnoc(before: seq<Arrival>, a: Arrival)
    requires (forall k :: 0 <= k < |before| ==> Parsed(before[k])) && Parsed(a)
    ensures Announced(before + [a]) == Announced(before) + Announces(a)
  {
    assert (before + [a])[..|before|] == before;
  }

  lemma JumpsSnoc(numbers: seq<nat>, n: nat)
    ensures Jumps(numbers + [n]) ==
            Jumps(numbers) + (if numbers != [] && n != numbers[|numbers| - 1] + 1 then 1 else 0)
  {
    assert (numbers + [n])[..|numbers|] == numbers;
  }

  lemma NewestIsNext(s: ReceiverState, before: seq<Arrival>, a: Arrival)
    requires Expecting(s, before)
    ensures Newest(before, a) <==> Parsed(a) && (!s.established || s.next <= Number(a))
  {
  }

  lemma TakeExpects(s: ReceiverState, before: seq<Arrival>, a: Arrival)
    requires Expecting(s, before)
    ensures Expecting(Take(s, a), before + [a])
  {
    var (s', all) := (Take(s, a), before + [a]);
    assert all[|before|] == a;
    if s.established {
      var j :| 0 <= j < |before| && Parsed(before[j]) && Number(before[j]) + 1 == s.next;
      assert all[j] == before[j];
    }
  }

  lemma TakeCounts(s: ReceiverState, before: seq<Arrival>, a: Arrival)
    requires Expecting(s, before) && CountsAll(s, before)
    ensures CountsAll(Take(s, a), before + [a])
  {
    NewestIsNext(s, before, a);
    FreshSnoc(before, a);
    ParsedSnoc(before, a);
    BytesSnoc(before, a);
  }

  // next follows the last number accepted.
  predicate Linked(s: ReceiverState) {
    && (s.established <==> s.history != [])
    && (s.history != [] ==> s.next == s.history[|s.history| - 1] + 1)
  }

  predicate SameShown(s: ReceiverState, s': ReceiverState) {
    && s'.history == s.history && s'.log == s.log && s'.established == s.established && s'.next == s.next
    && s'.counters.packetsAccepted == s.counters.packetsAccepted
    && s'.counters.framesPublished == s.counters.framesPublished
    && s'.counters.frameBytesPublished == s.counters.frameBytesPublished
    && s'.counters.gapEvents == s.counters.gapEvents
  }

  predicate MovesOn(s: ReceiverState, a: Arrival, s': ReceiverState)
    requires Parsed(a)
  {
    && s'.history == s.history + [Number(a)]
    && s'.established && s'.next == Number(a) + 1
    && s'.counters.packetsAccepted == s.counters.packetsAccepted + 1
    && s'.counters.gapEvents == s.counters.gapEvents + (if s.established && Number(a) != s.next then 1 else 0)
  }

  predicate Publishes(s: ReceiverState, a: Arrival, s': ReceiverState)
    requires Parsed(a)
  {
    && s'.log == s.log + a.written
    && s'.counters.framesPublished == s.counters.framesPublished + Announces(a)
    && s'.counters.frameBytesPublished + 64 == s.counters.frameBytesPublished + |a.packet|
  }

  lemma TakeChanges(s: ReceiverState, a: Arrival)
    ensures var s' := Take(s, a);
            if Parsed(a) && (!s.established || s.next <= Number(a)) then MovesOn(s, a, s') && Publishes(s, a, s')
            else SameShown(s, s')
  {
  }

  lemma NumbersOneMore(s: ReceiverState, fs: seq<Arrival>, a: Arrival, s': ReceiverState)
    requires (forall k :: 0 <= k < |fs| ==> Parsed(fs[k])) && Parsed(a)
    requires ShowsNumbers(s, fs) && Linked(s) && MovesOn(s, a, s')
    ensures ShowsNumbers(s', fs + [a]) && Linked(s')
  {
    NumbersSnoc(fs, a);
    JumpsSnoc(Numbers(fs), Number(a));
  }

  lemma FramesOneMore(s: ReceiverState, fs: seq<Arrival>, a: Arrival, s': ReceiverState)
    requires (forall k :: 0 <= k < |fs| ==> Parsed(fs[k])) && Parsed(a)
    requires ShowsFrames(s, fs) && Publishes(s, a, s')
    ensures ShowsFrames(s', fs + [a])
  {
    WrittenSnoc(fs, a);
    AnnouncedSnoc(fs, a);
    BytesSnoc(fs, a);
  }

  lemma ShowsSame(s: ReceiverState, fs: seq<Arrival>, s': ReceiverState)
    requires forall k :: 0 <= k < |fs| ==> Parsed(fs[k])
    requires ShowsNumbers(s, fs) && ShowsFrames(s, fs) && Linked(s) && SameShown(s, s')
    ensures ShowsNumbers(s', fs) && ShowsFrames(s', fs) && Linked(s')
  {
  }

  // What TakeChanges says, over the packets accepted so far.
  lemma ShowsNext(s: ReceiverState, fs: seq<Arrival>, a: Arrival, s': ReceiverState, newest: bool, all: seq<Arrival>)
    requires forall k :: 0 <= k < |fs| ==> Parsed(fs[k])
    requires ShowsNumbers(s, fs) && ShowsFrames(s, fs) && Linked(s)
    requires if newest then Parsed(a) && MovesOn(s, a, s') && Publishes(s, a, s') else SameShown(s, s')
    requires all == if newest then fs + [a] else fs
    ensures forall k :: 0 <= k < |all| ==> Parsed(all[k])
    ensures ShowsNumbers(s', all) && ShowsFrames(s', all) && Linked(s')
  {
    if newest {
      NumbersOneMore(s, fs, a, s');
      FramesOneMore(s, fs, a, s');
    } else {
      ShowsSame(s, fs, s');
    }
  }

  lemma TakeAccepts(s: ReceiverState, before: seq<Arrival>, a: Arrival, s': ReceiverState)
    requires Expecting(s, before) && AcceptsFresh(s, before) && Linked(s) && s' == Take(s, a)
    ensures AcceptsFresh(s', before + [a]) && Linked(s')
  {
    NewestIsNext(s, before, a);
    TakeChanges(s, a);
    FreshSnoc(before, a);
    ShowsNext(s, Fresh(before), a, s', Newest(before, a), Fresh(before + [a]));
  }

  lemma {:induction false} TakeAllRecords(arrivals: seq<Arrival>)
    ensures var s := TakeAll(Idle(), arrivals);
            Expecting(s, arrivals) && AcceptsFresh(s, arrivals) && CountsAll(s, arrivals) && Linked(s)
  {
    if arrivals == [] {
    } else {
      var (init, last) := (arrivals[..|arrivals| - 1], arrivals[|arrivals| - 1]);
      TakeAllRecords(init);
      var s := TakeAll(Idle(), init);
      TakeExpects(s, init, last);
      TakeCounts(s, init, last);
      TakeAccepts(s, init, last, Take(s, last));
      assert arrivals == init + [last];
    }
  }

  lemma {:induction false} BurstsCounted(bursts: seq<seq<Arrival>>)
    ensures var c := TakeBursts(Idle(), bursts).counters;
            c.rxBursts == |bursts| && c.emptyRxBursts == Empty(bursts)
  {
    if bursts == [] {
    } else {
      var (init, burst) := (bursts[..|bursts| - 1], bursts[|bursts| - 1]);
      BurstsCounted(init);
      TakeAllKeepsBursts(CountBurst(TakeBursts(Idle(), init), |burst|), burst);
    }
  }

  lemma {:induction false} TakeAllKeepsBursts(s: ReceiverState, arrivals: seq<Arrival>)
    ensures var c := TakeAll(s, arrivals).counters;
            c.rxBursts == s.counters.rxBursts && c.emptyRxBursts == s.counters.emptyRxBursts
  {
    if arrivals != [] {
      TakeAllKeepsBursts(s, arrivals[..|arrivals| - 1]);
    }
  }

  lemma AlikeUpToBursts(t: ReceiverState, s: ReceiverState, arrivals: seq<Arrival>)
    requires SameButBursts(t, s)
    requires AcceptsFresh(t, arrivals) && CountsAll(t, arrivals) && Expecting(t, arrivals)
    ensures AcceptsFresh(s, arrivals) && CountsAll(s, arrivals) && Expecting(s, arrivals)
  {
    assert t.counters.(rxBursts := s.counters.rxBursts, emptyRxBursts := s.counters.emptyRxBursts) == s.counters;
  }

  // Over any bursts of any packets: what is accepted, published and counted, and next to expect.
  lemma ReceiverRecords(bursts: seq<seq<Arrival>>, s: ReceiverState, arrivals: seq<Arrival>)
    requires s == TakeBursts(Idle(), bursts) && arrivals == Flatten(bursts)
    ensures AcceptsFresh(s, arrivals) && CountsAll(s, arrivals) && Expecting(s, arrivals)
    ensures s.counters.rxBursts == |bursts| && s.counters.emptyRxBursts == Empty(bursts)
  {
    TakeAllRecords(arrivals);
    BurstsDoNotMatter(bursts);
    BurstsCounted(bursts);
    AlikeUpToBursts(TakeAll(Idle(), arrivals), s, arrivals);
  }
}
