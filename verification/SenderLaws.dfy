/** What a round of the Sender does with the frames it reads, and when it stops. */
module SenderLaws {
  import opened Bytes
  import opened Messages
  import opened ShmRing
  import opened SenderReader
  import opened Sender

  // ---------- One round ----------

  // The frames handed on at polls m to n - 1.
  ghost predicate HandedOn(p: Profile, start: nat, env: Env, m: nat, n: nat, fs: seq<SourceFrame>) {
    m <= n && Stream(p, start, env, n) == Stream(p, start, env, m) + fs
  }

  // The batch ended because the flag was up, because a poll handed no frame on, or because of
  // the frame now carried: it comes after a gap, or does not fit the 1450 bytes of a packet.
  ghost predicate Ended(p: Profile, start: nat, env: Env, s: SenderState, fs: seq<SourceFrame>) {
    match s.ledger.carry
    case None =>
      || (s.stops > 0 && env.stop(s.stops - 1))
      || (s.ledger.polls > 0 && HandedOn(p, start, env, s.ledger.polls - 1, s.ledger.polls, []))
    case Some(f) => f.gap || |f.bytes| > 1450 - |Concat(Payloads(fs))|
  }

  // The flag was looked at before every poll, and only the last look found it up. No poll but
  // the last came without a frame, and none did if a frame is carried or the flag is up.
  ghost predicate Watched(env: Env, stops: nat, polls: nat, s: SenderState, read: seq<SourceFrame>) {
    && stops < s.stops && polls <= s.ledger.polls
    && (forall t: nat :: stops <= t < s.stops - 1 ==> !env.stop(t))
    && s.ledger.polls - polls + (if env.stop(s.stops - 1) then 1 else 0) == s.stops - stops
    && s.ledger.polls - polls ==
         |read| + (if s.ledger.carry.Some? || env.stop(s.stops - 1) then 0 else 1)
    && (s.ledger.carry.Some? ==> !env.stop(s.stops - 1))
  }

  // Nothing else has happened.
  predicate OnlyRead(s: SenderState, s': SenderState) {
    && s'.halted == s.halted && s'.allocs == s.allocs
    && OnlyPolled(s.ledger, s'.ledger)
  }

  // The batching loop, from frames and s on, came to fs and s'.
  ghost predicate BatchLaw(p: Profile, start: nat, env: Env, s: SenderState, frames: seq<SourceFrame>,
                           s': SenderState, fs: seq<SourceFrame>, read: seq<SourceFrame>)
  {
    && OnlyRead(s, s') && Watched(env, s.stops, s.ledger.polls, s', read)
    && s'.stopping == (s.stopping || env.stop(s'.stops - 1))
    && HandedOn(p, start, env, s.ledger.polls, s'.ledger.polls, read)
    && frames + read == fs + Held(s'.ledger.carry)
    && Ended(p, start, env, s', fs)
  }

  ghost predicate Reads(p: Profile, start: nat, env: Env, l: Ledger) {
    l.reader == After(p, Start(start), Answers(env, l.polls))
  }

  lemma HandedOnThen(p: Profile, start: nat, env: Env, a: nat, b: nat, c: nat, x: seq<SourceFrame>, y: seq<SourceFrame>)
    requires HandedOn(p, start, env, a, b, x) && HandedOn(p, start, env, b, c, y)
    ensures HandedOn(p, start, env, a, c, x + y)
  {
    assert Stream(p, start, env, a) + x + y == Stream(p, start, env, a) + (x + y);
  }

  lemma PollHandsOn(p: Profile, start: nat, env: Env, l: Ledger)
    requires Reads(p, start, env, l)
    ensures var (l', reply) := Poll(p, env, l);
            && Reads(p, start, env, l') && l'.polls == l.polls + 1 && OnlyPolled(l, l') && l'.carry == l.carry
            && HandedOn(p, start, env, l.polls, l'.polls, if reply.Accepted? then [reply.frame] else [])
            && (reply.Accepted? ==> ValidFrame(p, reply.frame.bytes))
  {
    PollExtends(p, start, env, l);
    assert Stream(p, start, env, l.polls) + [] == Stream(p, start, env, l.polls);
  }

  // One turn that ends the batch: nothing more to put into it, or a frame that has to wait.
  lemma TurnEnds(p: Profile, start: nat, env: Env, s: SenderState, frames: seq<SourceFrame>, room: nat,
                 s': SenderState, fs: seq<SourceFrame>)
    requires Reads(p, start, env, s.ledger) && s.ledger.carry.None?
    requires (s', fs) == Fill(p, env, s, frames, room)
    requires env.stop(s.stops) || !Poll(p, env, s.ledger).1.Accepted?
    ensures BatchLaw(p, start, env, s, frames, s', fs, [])
  {
    PollHandsOn(p, start, env, s.ledger);
    FillEnds(p, env, s, frames, room);
    assert frames + [] == frames + Held(None);
    assert Stream(p, start, env, s.ledger.polls) + [] == Stream(p, start, env, s.ledger.polls);
  }

  lemma TurnDefers(p: Profile, start: nat, env: Env, s: SenderState, frames: seq<SourceFrame>, room: nat,
                   l: Ledger, f: SourceFrame, s': SenderState, fs: seq<SourceFrame>)
    requires Reads(p, start, env, s.ledger) && s.ledger.carry.None?
    requires |Concat(Payloads(frames))| + room == 1450
    requires (s', fs) == Fill(p, env, s, frames, room)
    requires !env.stop(s.stops) && Poll(p, env, s.ledger) == (l, Accepted(f)) && (f.gap || |f.bytes| > room)
    ensures BatchLaw(p, start, env, s, frames, s', fs, [f])
  {
    PollHandsOn(p, start, env, s.ledger);
    FillDefers(p, env, s, frames, room, l, f);
  }

  lemma TurnGoesOn(p: Profile, start: nat, env: Env, s: SenderState, frames: seq<SourceFrame>,
                   s1: SenderState, f: SourceFrame, s': SenderState, fs: seq<SourceFrame>, read: seq<SourceFrame>)
    requires !env.stop(s.stops) && s1.stops == s.stops + 1 && s1.stopping == s.stopping
    requires OnlyRead(s, s1) && s1.ledger.polls == s.ledger.polls + 1
    requires HandedOn(p, start, env, s.ledger.polls, s1.ledger.polls, [f])
    requires BatchLaw(p, start, env, s1, frames + [f], s', fs, read)
    ensures BatchLaw(p, start, env, s, frames, s', fs, [f] + read)
  {
    HandedOnThen(p, start, env, s.ledger.polls, s1.ledger.polls, s'.ledger.polls, [f], read);
    assert frames + ([f] + read) == frames + [f] + read;
  }

  lemma {:induction false} FillLaw(p: Profile, start: nat, env: Env, s: SenderState, frames: seq<SourceFrame>,
                                   room: nat, s': SenderState, fs: seq<SourceFrame>) returns (read: seq<SourceFrame>)
    requires Reads(p, start, env, s.ledger) && s.ledger.carry.None?
    requires |Concat(Payloads(frames))| + room == 1450
    requires (s', fs) == Fill(p, env, s, frames, room)
    ensures BatchLaw(p, start, env, s, frames, s', fs, read)
    decreases room
  {
    var (l, reply) := Poll(p, env, s.ledger);
    if env.stop(s.stops) || !reply.Accepted? {
      read := [];
      TurnEnds(p, start, env, s, frames, room, s', fs);
    } else if reply.frame.gap || |reply.frame.bytes| > room {
      read := [reply.frame];
      TurnDefers(p, start, env, s, frames, room, l, reply.frame, s', fs);
    } else {
      var (f, s1) := (reply.frame, s.(stops := s.stops + 1, ledger := l));
      PollHandsOn(p, start, env, s.ledger);
      FillTakes(p, env, s, frames, room, l, f);
      PayloadsSnoc(frames, f);
      var rest := FillLaw(p, start, env, s1, frames + [f], room - |f.bytes|, s', fs);
      TurnGoesOn(p, start, env, s, frames, s1, f, s', fs, rest);
      read := [f] + rest;
    }
  }

  // ---------- The outer loop ----------

  // What Head does: the carried frame, or at most one new one.
  lemma HeadLaw(p: Profile, start: nat, env: Env, l: Ledger, l': Ledger, first: Option<SourceFrame>)
    returns (read: seq<SourceFrame>)
    requires Reads(p, start, env, l) && (l.carry.Some? ==> ValidFrame(p, l.carry.value.bytes))
    requires (l', first) == Head(p, env, l)
    ensures Reads(p, start, env, l') && OnlyPolled(l, l') && l'.carry.None?
    ensures l'.polls == l.polls + (if l.carry.Some? then 0 else 1)
    ensures HandedOn(p, start, env, l.polls, l'.polls, read)
    ensures Held(l.carry) + read == Held(first)
    ensures first.Some? ==> ValidFrame(p, first.value.bytes)
  {
    if l.carry.Some? {
      read := [];
      assert Stream(p, start, env, l.polls) + [] == Stream(p, start, env, l.polls);
    } else {
      PollHandsOn(p, start, env, l);
      read := Held(first);
    }
  }

  // Without batching nothing is read for the packet but its first frame.
  ghost predicate GatherLaw(p: Profile, start: nat, batching: bool, env: Env, s: SenderState, first: SourceFrame,
                            s': SenderState, fs: seq<SourceFrame>, read: seq<SourceFrame>)
  {
    && HandedOn(p, start, env, s.ledger.polls, s'.ledger.polls, read)
    && [first] + read == fs + Held(s'.ledger.carry)
    && OnlyRead(s, s')
    && if batching then BatchLaw(p, start, env, s, [first], s', fs, read) else s' == s && fs == [first]
  }

  lemma GatherObeys(p: Profile, start: nat, batching: bool, env: Env, s: SenderState, first: SourceFrame,
                    s': SenderState, fs: seq<SourceFrame>) returns (read: seq<SourceFrame>)
    requires Reads(p, start, env, s.ledger) && s.ledger.carry.None?
    requires |first.bytes| <= 1450 && (s', fs) == Gather(p, batching, env, s, first)
    ensures GatherLaw(p, start, batching, env, s, first, s', fs, read)
  {
    if batching {
      PayloadsSnoc([], first);
      assert [] + [first] == [first];
      assert |Concat(Payloads([first]))| == |first.bytes|;
      read := FillLaw(p, start, env, s, [first], 1450 - |first.bytes|, s', fs);
    } else {
      read := [];
      assert Stream(p, start, env, s.ledger.polls) + [] == Stream(p, start, env, s.ledger.polls);
      assert [first] + [] == [first] + Held(None);
    }
  }

  // Nothing was built.
  predicate NoPacket(s: SenderState, s': SenderState) {
    && s'.ledger.packets == s.ledger.packets && s'.ledger.carry.None?
    && s'.ledger.counters.payloadBytes == s.ledger.counters.payloadBytes
    && s'.ledger.polls <= s.ledger.polls + 1 && s'.stops == s.stops + 1
  }

  // Without a buffer the frame is lost and the run goes on; a buffer too small ends it.
  predicate NoBuffer(env: Env, s: SenderState, s': SenderState) {
    var (c, c') := (s.ledger.counters, s'.ledger.counters);
    && NoPacket(s, s') && s'.allocs == s.allocs + 1
    && if !env.alloc(s.allocs) then
         !s'.halted && s'.ledger.failed == s.ledger.failed && c'.allocFailures == c.allocFailures + 1
       else
         env.room(s.allocs) < 1514 && s'.halted && s'.ledger.failed && c'.allocFailures == c.allocFailures
  }

  predicate NoFrame(s: SenderState, s': SenderState) {
    && NoPacket(s, s') && s'.allocs == s.allocs && !s'.halted && s'.ledger.failed == s.ledger.failed
    && s'.ledger.counters.allocFailures == s.ledger.counters.allocFailures
  }

  // A packet of the frames fs was built and handed to the NIC.
  predicate OnePacket(env: Env, s: SenderState, s': SenderState, fs: seq<SourceFrame>) {
    && env.alloc(s.allocs) && env.room(s.allocs) >= 1514 && s'.allocs == s.allocs + 1
    && !s'.halted && s'.ledger.failed == s.ledger.failed
    && s'.ledger.packets == s.ledger.packets + [Packet(fs, env.tx(s.ledger.nextDataSeq))]
    && s'.ledger.counters.allocFailures == s.ledger.counters.allocFailures
    && s'.ledger.counters.payloadBytes == s.ledger.counters.payloadBytes + |Concat(Payloads(fs))|
  }

  // With batching the packet ends where Ended says, having watched the flag before every poll
  // after that for the first frame. Without, it is one frame, and the only one read.
  ghost predicate PacketLaw(p: Profile, start: nat, batching: bool, env: Env, s: SenderState, s': SenderState,
                            fs: seq<SourceFrame>, read: seq<SourceFrame>)
  {
    var polled := if s.ledger.carry.Some? then 0 else 1;
    && fs != [] && Held(s.ledger.carry) + read == fs + Held(s'.ledger.carry)
    && polled <= |read|
    && if batching then
         && Ended(p, start, env, s', fs)
         && Watched(env, s.stops + 1, s.ledger.polls + polled, s', read[polled..])
       else
         && |fs| == 1 && s'.ledger.carry.None?
         && s'.ledger.polls == s.ledger.polls + polled && s'.stops == s.stops + 1
  }

  // One round that does not end the run at its head: read are the frames handed on in it.
  ghost predicate RoundLaw(p: Profile, start: nat, batching: bool, env: Env, s: SenderState, s': SenderState,
                           read: seq<SourceFrame>)
  {
    && HandedOn(p, start, env, s.ledger.polls, s'.ledger.polls, read)
    && var drawn := Held(s.ledger.carry) + read;
       if drawn == [] then NoFrame(s, s')
       else if !env.alloc(s.allocs) || env.room(s.allocs) < 1514 then |drawn| == 1 && NoBuffer(env, s, s')
       else exists fs :: OnePacket(env, s, s', fs) && PacketLaw(p, start, batching, env, s, s', fs, read)
  }

  // The flag is looked at at every loop head.
  predicate Looked(env: Env, s: SenderState, s': SenderState) {
    && s.stops < s'.stops
    && (s'.stopping <==> s.stopping || exists t: nat :: s.stops <= t < s'.stops && env.stop(t))
  }

  // The flag is up and nothing is carried.
  predicate Done(env: Env, s: SenderState) {
    (s.stopping || env.stop(s.stops)) && s.ledger.carry.None?
  }

  lemma RoundDone(p: Profile, batching: bool, env: Env, s: SenderState)
    requires !s.halted && Done(env, s)
    ensures Round(p, batching, env, s) == s.(stops := s.stops + 1, stopping := true, halted := true)
  {
  }

  lemma RoundUnbuilt(p: Profile, batching: bool, env: Env, s: SenderState, l: Ledger, first: Option<SourceFrame>)
    requires s.ledger.carry.Some? ==> ValidFrame(p, s.ledger.carry.value.bytes)
    requires !s.halted && !Done(env, s) && (l, first) == Head(p, env, s.ledger)
    requires first.None? || !HasBuffer(env, s.allocs)
    ensures var s1 := Look(env, s).(ledger := l);
            Round(p, batching, env, s) == if first.None? then s1 else Unbuilt(env, s1)
  {
  }

  lemma RoundBuilt(p: Profile, batching: bool, env: Env, s: SenderState, l: Ledger, first: SourceFrame)
    requires s.ledger.carry.Some? ==> ValidFrame(p, s.ledger.carry.value.bytes)
    requires !s.halted && !Done(env, s) && (l, Some(first)) == Head(p, env, s.ledger)
    requires HasBuffer(env, s.allocs) && |first.bytes| <= 1450
    ensures var (s2, fs) := Gather(p, batching, env, Look(env, s).(ledger := l, allocs := s.allocs + 1), first);
            Round(p, batching, env, s) == s2.(ledger := Emit(env, s2.ledger, fs))
  {
    BuildUnfolds(p, batching, env, Look(env, s).(ledger := l), first);
  }

  // The flag seen at the head, and in the batching loop if at all then at its last look.
  lemma LookedThrough(env: Env, s: SenderState, s1: SenderState, s': SenderState, read: seq<SourceFrame>)
    requires s1.stops == s.stops + 1 && s1.stopping == (s.stopping || env.stop(s.stops))
    requires Watched(env, s1.stops, s1.ledger.polls, s', read)
    requires s'.stopping == (s1.stopping || env.stop(s'.stops - 1))
    ensures Looked(env, s, s')
  {
    if env.stop(s'.stops - 1) {
      assert s.stops <= s'.stops - 1 < s'.stops;
    }
    if t: nat :| s.stops <= t < s'.stops && env.stop(t) {
      assert t == s.stops || t == s'.stops - 1;
    }
  }

  lemma UnbuiltObeys(p: Profile, start: nat, batching: bool, env: Env, s: SenderState, l: Ledger,
                     first: Option<SourceFrame>, s': SenderState, read: seq<SourceFrame>)
    requires HandedOn(p, start, env, s.ledger.polls, l.polls, read)
    requires OnlyPolled(s.ledger, l) && l.carry.None? && l.polls <= s.ledger.polls + 1
    requires Held(s.ledger.carry) + read == Held(first)
    requires first.None? || !HasBuffer(env, s.allocs)
    requires var s1 := Look(env, s).(ledger := l); s' == if first.None? then s1 else Unbuilt(env, s1)
    requires !s.halted
    ensures RoundLaw(p, start, batching, env, s, s', read) && Looked(env, s, s')
  {
  }

  lemma SingleObeys(p: Profile, start: nat, env: Env, s: SenderState, first: SourceFrame, one: seq<SourceFrame>,
                    s': SenderState)
    requires Held(s.ledger.carry) + one == [first] && s'.ledger.carry.None?
    requires s'.ledger.polls == s.ledger.polls + (if s.ledger.carry.Some? then 0 else 1)
    requires s'.stops == s.stops + 1 && s'.stopping == (s.stopping || env.stop(s.stops))
    ensures PacketLaw(p, start, false, env, s, s', [first], one) && Looked(env, s, s')
  {
    assert Held(s.ledger.carry) + one == [first] + Held(None);
  }

  lemma BatchObeys(p: Profile, start: nat, env: Env, s: SenderState, polls: nat, first: SourceFrame,
                   one: seq<SourceFrame>, fs: seq<SourceFrame>, rest: seq<SourceFrame>, s': SenderState)
    requires polls == s.ledger.polls + (if s.ledger.carry.Some? then 0 else 1)
    requires Held(s.ledger.carry) + one == [first] && fs != []
    requires [first] + rest == fs + Held(s'.ledger.carry)
    requires Ended(p, start, env, s', fs) && Watched(env, s.stops + 1, polls, s', rest)
    ensures PacketLaw(p, start, true, env, s, s', fs, one + rest)
  {
    assert Held(s.ledger.carry) + (one + rest) == Held(s.ledger.carry) + one + rest;
    assert (one + rest)[|one|..] == rest;
  }

  lemma PacketObeys(p: Profile, start: nat, batching: bool, env: Env, s: SenderState, l: Ledger,
                    first: SourceFrame, one: seq<SourceFrame>, s1: SenderState,
                    s2: SenderState, fs: seq<SourceFrame>, rest: seq<SourceFrame>, s': SenderState)
    requires l.carry.None? && l.polls == s.ledger.polls + (if s.ledger.carry.Some? then 0 else 1)
    requires Held(s.ledger.carry) + one == [first]
    requires s1 == Look(env, s).(ledger := l, allocs := s.allocs + 1)
    requires GatherLaw(p, start, batching, env, s1, first, s2, fs, rest) && fs != []
    requires s'.(ledger := s2.ledger) == s2
    requires s'.ledger.polls == s2.ledger.polls && s'.ledger.carry == s2.ledger.carry
    ensures PacketLaw(p, start, batching, env, s, s', fs, one + rest) && Looked(env, s, s')
  {
    if batching {
      BatchObeys(p, start, env, s, l.polls, first, one, fs, rest, s');
      LookedThrough(env, s, s1, s', rest);
    } else {
      assert rest == [];
      assert one + [] == one;
      SingleObeys(p, start, env, s, first, one, s');
    }
  }

  lemma BuiltObeys(p: Profile, start: nat, batching: bool, env: Env, s: SenderState, l: Ledger,
                   first: SourceFrame, one: seq<SourceFrame>, s': SenderState) returns (read: seq<SourceFrame>)
    requires Reads(p, start, env, l) && OnlyPolled(s.ledger, l)
    requires HandedOn(p, start, env, s.ledger.polls, l.polls, one)
    requires l.carry.None? && l.polls == s.ledger.polls + (if s.ledger.carry.Some? then 0 else 1)
    requires Held(s.ledger.carry) + one == [first] && |first.bytes| <= 1450
    requires HasBuffer(env, s.allocs) && !s.halted
    requires var (s2, fs) := Gather(p, batching, env, Look(env, s).(ledger := l, allocs := s.allocs + 1), first);
             s' == s2.(ledger := Emit(env, s2.ledger, fs))
    ensures RoundLaw(p, start, batching, env, s, s', read) && Looked(env, s, s')
  {
    var s1 := Look(env, s).(ledger := l, allocs := s.allocs + 1);
    var (s2, fs) := Gather(p, batching, env, s1, first);
    var rest := GatherObeys(p, start, batching, env, s1, first, s2, fs);
    GatherHasFirst(p, batching, env, s1, first);
    HandedOnThen(p, start, env, s.ledger.polls, l.polls, s2.ledger.polls, one, rest);
    PacketObeys(p, start, batching, env, s, l, first, one, s1, s2, fs, rest, s');
    read := one + rest;
    assert Held(s.ledger.carry) + read == [first] + rest;
    assert OnePacket(env, s, s', fs);
  }

  lemma GatherHasFirst(p: Profile, batching: bool, env: Env, s: SenderState, first: SourceFrame)
    requires |first.bytes| <= 1450
    ensures Gather(p, batching, env, s, first).1 != []
  {
    FillPrefix(p, env, s, [first], 1450 - |first.bytes|);
  }

  // A run that has ended stays as it is. One whose flag is up and that carries nothing ends at the
  // loop head. Any other goes through a round that keeps the law.
  ghost predicate Follows(p: Profile, start: nat, batching: bool, env: Env, s: SenderState, s': SenderState) {
    if s.halted then s' == s
    else if Done(env, s) then s' == s.(stops := s.stops + 1, stopping := true, halted := true)
    else Looked(env, s, s') && exists read :: RoundLaw(p, start, batching, env, s, s', read)
  }

  lemma RoundFollows(p: Profile, start: nat, batching: bool, env: Env, s: SenderState, s': SenderState)
    requires Reads(p, start, env, s.ledger)
    requires s.ledger.carry.Some? ==> ValidFrame(p, s.ledger.carry.value.bytes)
    requires s' == Round(p, batching, env, s)
    ensures Follows(p, start, batching, env, s, s')
  {
    if s.halted {
    } else if Done(env, s) {
      RoundDone(p, batching, env, s);
    } else {
      var (l, first) := Head(p, env, s.ledger);
      var one := HeadLaw(p, start, env, s.ledger, l, first);
      if first.Some? && HasBuffer(env, s.allocs) {
        RoundBuilt(p, batching, env, s, l, first.value);
        var read := BuiltObeys(p, start, batching, env, s, l, first.value, one, s');
      } else {
        RoundUnbuilt(p, batching, env, s, l, first);
        UnbuiltObeys(p, start, batching, env, s, l, first, s', one);
      }
    }
  }

  lemma RunFollows(p: Profile, start: nat, batching: bool, env: Env, rounds: nat, s: SenderState, s': SenderState)
    requires s == RunSender(p, start, batching, env, rounds)
    requires s' == RunSender(p, start, batching, env, rounds + 1)
    ensures Follows(p, start, batching, env, s, s')
  {
    assert AtHead(p, start, env, s);
    RoundFollows(p, start, batching, env, s, s');
  }

  // The loop heads of a run.
  ghost predicate Heads(p: Profile, start: nat, batching: bool, env: Env, heads: seq<SenderState>) {
    && heads != [] && heads[0] == Begin(start)
    && forall k :: 0 <= k < |heads| - 1 ==> Follows(p, start, batching, env, heads[k], heads[k + 1])
  }

  lemma RunBegins(p: Profile, start: nat, batching: bool, env: Env, rounds: nat)
    requires rounds == 0
    ensures RunSender(p, start, batching, env, rounds) == Begin(start)
  {
  }

  function StatesOf(p: Profile, start: nat, batching: bool, env: Env, rounds: nat): (heads: seq<SenderState>)
    ensures |heads| == rounds + 1
    ensures forall k :: 0 <= k <= rounds ==> heads[k] == RunSender(p, start, batching, env, k)
  {
    seq(rounds + 1, k requires 0 <= k <= rounds => RunSender(p, start, batching, env, k))
  }

  lemma StateFollows(p: Profile, start: nat, batching: bool, env: Env, rounds: nat, k: nat)
    requires k < rounds
    ensures var heads := StatesOf(p, start, batching, env, rounds);
            Follows(p, start, batching, env, heads[k], heads[k + 1])
  {
    var heads := StatesOf(p, start, batching, env, rounds);
    RunFollows(p, start, batching, env, k, heads[k], heads[k + 1]);
  }

  // Every run begins at Begin, and each of its rounds keeps the law.
  lemma RunHeads(p: Profile, start: nat, batching: bool, env: Env, rounds: nat)
    ensures Heads(p, start, batching, env, StatesOf(p, start, batching, env, rounds))
  {
    var heads := StatesOf(p, start, batching, env, rounds);
    var zero: nat := 0;
    RunBegins(p, start, batching, env, zero);
    forall k | 0 <= k < rounds ensures Follows(p, start, batching, env, heads[k], heads[k + 1]) {
      StateFollows(p, start, batching, env, rounds, k);
    }
  }

  // ---------- The batching flag ----------

  // Without batching every packet is a single frame, none is ever carried, and a round takes at
  // most one answer of the ring.
  ghost predicate Single(s: SenderState) {
    && s.ledger.carry.None?
    && forall i :: 0 <= i < |s.ledger.packets| ==> |s.ledger.packets[i].frames| == 1
  }

  lemma SingleStays(p: Profile, start: nat, env: Env, s: SenderState, s': SenderState, read: seq<SourceFrame>)
    requires Single(s) && RoundLaw(p, start, false, env, s, s', read)
    ensures Single(s') && s'.ledger.polls <= s.ledger.polls + 1
  {
  }

  lemma {:induction false} SingleHeads(p: Profile, start: nat, env: Env, heads: seq<SenderState>, k: nat)
    requires Heads(p, start, false, env, heads) && k < |heads|
    ensures Single(heads[k])
    ensures k + 1 < |heads| ==> heads[k + 1].ledger.polls <= heads[k].ledger.polls + 1
  {
    if k > 0 {
      SingleHeads(p, start, env, heads, k - 1);
      SingleNext(p, start, env, heads[k - 1], heads[k]);
    }
    if k + 1 < |heads| {
      SingleNext(p, start, env, heads[k], heads[k + 1]);
    }
  }

  lemma SingleNext(p: Profile, start: nat, env: Env, s: SenderState, s': SenderState)
    requires Single(s) && Follows(p, start, false, env, s, s')
    ensures Single(s') && s'.ledger.polls <= s.ledger.polls + 1
  {
    if !s.halted && !Done(env, s) {
      var read :| RoundLaw(p, start, false, env, s, s', read);
      SingleStays(p, start, env, s, s', read);
    }
  }

  // Over every run: with the flag off each packet is one frame, nothing is ever carried, and no
  // round takes more than one answer of the ring.
  lemma Unbatched(p: Profile, start: nat, env: Env, rounds: nat)
    ensures var s := RunSender(p, start, false, env, rounds);
            && s.ledger.carry.None?
            && (forall i :: 0 <= i < |s.ledger.packets| ==> |s.ledger.packets[i].frames| == 1)
            && RunSender(p, start, false, env, rounds + 1).ledger.polls <= s.ledger.polls + 1
  {
    var heads := StatesOf(p, start, false, env, rounds + 1);
    RunHeads(p, start, false, env, rounds + 1);
    SingleHeads(p, start, env, heads, rounds);
  }

  // From s to s' the packet with number i was built.
  ghost predicate BuiltHere(p: Profile, start: nat, batching: bool, env: Env, s: SenderState, s': SenderState,
                            i: nat, packet: Packet)
  {
    && |s.ledger.packets| == i && s'.ledger.packets == s.ledger.packets + [packet]
    && exists read :: HandedOn(p, start, env, s.ledger.polls, s'.ledger.polls, read)
                      && PacketLaw(p, start, batching, env, s, s', packet.frames, read)
  }

  // One round leaves the packets there are, and adds at most one.
  lemma RoundAdds(p: Profile, start: nat, batching: bool, env: Env, s: SenderState, s': SenderState)
    requires Follows(p, start, batching, env, s, s')
    ensures || s'.ledger.packets == s.ledger.packets
            || exists packet :: BuiltHere(p, start, batching, env, s, s', |s.ledger.packets|, packet)
  {
    if s'.ledger.packets != s.ledger.packets {
      var read :| RoundLaw(p, start, batching, env, s, s', read);
      var fs :| OnePacket(env, s, s', fs) && PacketLaw(p, start, batching, env, s, s', fs, read);
      var packet := Packet(fs, env.tx(s.ledger.nextDataSeq));
      assert PacketLaw(p, start, batching, env, s, s', packet.frames, read);
      assert BuiltHere(p, start, batching, env, s, s', |s.ledger.packets|, packet);
    }
  }

  lemma BuiltOrThere(p: Profile, start: nat, batching: bool, env: Env, s: SenderState, s': SenderState, i: nat)
    requires Follows(p, start, batching, env, s, s') && i < |s'.ledger.packets|
    ensures || (i < |s.ledger.packets| && s.ledger.packets[i] == s'.ledger.packets[i])
            || BuiltHere(p, start, batching, env, s, s', i, s'.ledger.packets[i])
  {
    RoundAdds(p, start, batching, env, s, s');
    if s'.ledger.packets != s.ledger.packets {
      var packet :| BuiltHere(p, start, batching, env, s, s', |s.ledger.packets|, packet);
    }
  }

  lemma {:induction false} BuiltSomewhere(p: Profile, start: nat, batching: bool, env: Env, heads: seq<SenderState>,
                                          k: nat, i: nat) returns (round: nat)
    requires Heads(p, start, batching, env, heads) && k < |heads| && i < |heads[k].ledger.packets|
    ensures round < k
    ensures BuiltHere(p, start, batching, env, heads[round], heads[round + 1], i, heads[k].ledger.packets[i])
  {
    if k == 0 {
      assert false;
    } else {
      var (s, s') := (heads[k - 1], heads[k]);
      assert Follows(p, start, batching, env, s, heads[k - 1 + 1]);
      BuiltOrThere(p, start, batching, env, s, s', i);
      if i < |s.ledger.packets| && s.ledger.packets[i] == s'.ledger.packets[i] {
        round := BuiltSomewhere(p, start, batching, env, heads, k - 1, i);
      } else {
        round := k - 1;
      }
    }
  }

  // Every packet of every run was built in one round, from the frame carried and those read in
  // that round, and ends as the law has it.
  lemma PacketsEnd(p: Profile, start: nat, batching: bool, env: Env, rounds: nat, i: nat)
    returns (packet: Packet, round: nat)
    requires i < |RunSender(p, start, batching, env, rounds).ledger.packets|
    ensures packet == RunSender(p, start, batching, env, rounds).ledger.packets[i] && round < rounds
    ensures BuiltHere(p, start, batching, env, RunSender(p, start, batching, env, round),
                      RunSender(p, start, batching, env, round + 1), i, packet)
  {
    var heads := StatesOf(p, start, batching, env, rounds);
    RunHeads(p, start, batching, env, rounds);
    round := BuiltSomewhere(p, start, batching, env, heads, rounds, i);
    packet := heads[rounds].ledger.packets[i];
  }

  // ---------- The counters ----------

  // Of the first n buffers asked for: how many were not to be had, and how many were large enough.
  function Refused(env: Env, n: nat): nat {
    if n == 0 then 0 else Refused(env, n - 1) + if env.alloc(n - 1) then 0 else 1
  }

  function Usable(env: Env, n: nat): nat {
    if n == 0 then 0 else Usable(env, n - 1) + if env.alloc(n - 1) && env.room(n - 1) >= 1514 then 1 else 0
  }

  function BytesIn(packets: seq<Packet>): nat {
    if packets == [] then 0
    else BytesIn(packets[..|packets| - 1]) + |Concat(Payloads(packets[|packets| - 1].frames))|
  }

  ghost predicate Counted(env: Env, s: SenderState) {
    var (l, c) := (s.ledger, s.ledger.counters);
    && c.allocFailures == Refused(env, s.allocs)
    && |l.packets| == Usable(env, s.allocs)
    && c.payloadBytes == BytesIn(l.packets)
    && (l.failed <==> exists t: nat :: t < s.allocs && env.alloc(t) && env.room(t) < 1514)
    && (s.stopping <==> exists t: nat :: t < s.stops && env.stop(t))
    && (s.halted ==> l.failed || (s.stopping && l.carry.None?))
  }

  lemma BytesInSnoc(packets: seq<Packet>, packet: Packet)
    ensures BytesIn(packets + [packet]) == BytesIn(packets) + |Concat(Payloads(packet.frames))|
  {
    assert (packets + [packet])[..|packets|] == packets;
  }

  // The three ways a round goes.
  lemma RoundOutcome(p: Profile, start: nat, batching: bool, env: Env, s: SenderState, s': SenderState,
                     read: seq<SourceFrame>) returns (fs: seq<SourceFrame>)
    requires RoundLaw(p, start, batching, env, s, s', read)
    ensures NoFrame(s, s') || NoBuffer(env, s, s') || OnePacket(env, s, s', fs)
  {
    fs := [];
    if frames :| OnePacket(env, s, s', frames) {
      fs := frames;
    }
  }

  lemma CountedUnbuilt(env: Env, s: SenderState, s': SenderState)
    requires Counted(env, s) && !s.halted && Looked(env, s, s') && (NoFrame(s, s') || NoBuffer(env, s, s'))
    ensures Counted(env, s')
  {
  }

  lemma CountedBuilt(env: Env, s: SenderState, s': SenderState, fs: seq<SourceFrame>)
    requires Counted(env, s) && !s.halted && Looked(env, s, s') && OnePacket(env, s, s', fs)
    ensures Counted(env, s')
  {
    BytesInSnoc(s.ledger.packets, Packet(fs, env.tx(s.ledger.nextDataSeq)));
  }

  lemma {:induction false} CountedHeads(p: Profile, start: nat, batching: bool, env: Env, heads: seq<SenderState>,
                                        k: nat)
    requires Heads(p, start, batching, env, heads) && k < |heads|
    ensures Counted(env, heads[k])
  {
    if k > 0 {
      CountedHeads(p, start, batching, env, heads, k - 1);
      CountedNext(p, start, batching, env, heads[k - 1], heads[k]);
    }
  }

  lemma CountedNext(p: Profile, start: nat, batching: bool, env: Env, s: SenderState, s': SenderState)
    requires Counted(env, s) && Follows(p, start, batching, env, s, s')
    ensures Counted(env, s')
  {
    if !s.halted && !Done(env, s) {
      var read :| RoundLaw(p, start, batching, env, s, s', read);
      var fs := RoundOutcome(p, start, batching, env, s, s', read);
      if OnePacket(env, s, s', fs) {
        CountedBuilt(env, s, s', fs);
      } else {
        CountedUnbuilt(env, s, s');
      }
    }
  }

  // Over every run: the failures counted are the refused requests for a buffer, each of the
  // others large enough made a packet, the payload bytes are those in the packets, and a run
  // only ends for a buffer too small or, the flag being up, with nothing carried.
  lemma SenderCounters(p: Profile, start: nat, batching: bool, env: Env, rounds: nat)
    ensures Counted(env, RunSender(p, start, batching, env, rounds))
  {
    var heads := StatesOf(p, start, batching, env, rounds);
    RunHeads(p, start, batching, env, rounds);
    CountedHeads(p, start, batching, env, heads, rounds);
  }

  // A packet counts as enqueued exactly when the NIC took the one with its sequence number.
  lemma SentAsTaken(p: Profile, start: nat, batching: bool, env: Env, rounds: nat)
    ensures var l := RunSender(p, start, batching, env, rounds).ledger;
            && (forall i :: 0 <= i < |l.packets| ==> (l.packets[i].enqueued <==> env.tx(i)))
            && l.counters.enqueued == Taken(env, |l.packets|)
            && l.counters.offered == |Stream(p, start, env, l.polls)|
  {
    var l := RunSender(p, start, batching, env, rounds).ledger;
    assert Books(p, start, env, l, []) && Counts(env, l);
    SentIsTaken(env, l.packets);
  }

  function Taken(env: Env, n: nat): nat {
    if n == 0 then 0 else Taken(env, n - 1) + if env.tx(n - 1) then 1 else 0
  }

  lemma {:induction false} SentIsTaken(env: Env, packets: seq<Packet>)
    requires forall i :: 0 <= i < |packets| ==> (packets[i].enqueued <==> env.tx(i))
    ensures Sent(packets) == Taken(env, |packets|)
  {
    if packets != [] {
      SentIsTaken(env, packets[..|packets| - 1]);
    }
  }
}
