/** Source frames: a 24-byte header that tells the length of the whole frame.
    The two compile-time message profiles are the two values of Profile. */
module Messages {
  import opened Bytes

  const HEADER_SIZE := 24

  datatype Profile = Raw | Compact

  type Frame = seq<Byte>

  // The largest frame of a profile; it is also the capacity of a ring slot.
  function MaxFrame(p: Profile): nat {
    match p
    case Raw => 576
    case Compact => 96
  }

  // Raw frames carry their length, Compact frames a type. An unknown type has size 0.
  function FrameSize(p: Profile, header: seq<Byte>): nat
    requires |header| >= HEADER_SIZE
  {
    match p
    case Raw => FromLE(header[20..24])
    case Compact =>
      if header[18] == 1 then 64
      else if header[18] == 2 then 48
      else if header[18] == 3 then 96
      else 0
  }

  function SeqId(header: seq<Byte>): nat
    requires |header| >= 8
  {
    FromLE(header[..8])
  }

  predicate ValidFrame(p: Profile, f: Frame) {
    HEADER_SIZE <= |f| <= MaxFrame(p) && FrameSize(p, f) == |f|
  }

  predicate AllValid(p: Profile, fs: seq<Frame>) {
    forall i :: 0 <= i < |fs| ==> ValidFrame(p, fs[i])
  }

  function Concat(fs: seq<Frame>): seq<Byte> {
    if fs == [] then [] else Concat(fs[..|fs| - 1]) + fs[|fs| - 1]
  }

  lemma ConcatSnoc(fs: seq<Frame>, f: Frame)
    ensures Concat(fs + [f]) == Concat(fs) + f
  {
    assert (fs + [f])[..|fs|] == fs;
  }

  lemma ConcatOne(f: Frame)
    ensures Concat([f]) == f
  {
    ConcatSnoc([], f);
    assert [] + [f] == [f];
  }

  lemma {:induction false} ConcatCons(f: Frame, fs: seq<Frame>)
    ensures Concat([f] + fs) == f + Concat(fs)
  {
    if fs == [] {
      ConcatSnoc([], f);
      assert [f] + fs == [] + [f];
    } else {
      var init, last := fs[..|fs| - 1], fs[|fs| - 1];
      ConcatCons(f, init);
      ConcatSnoc([f] + init, last);
      assert [f] + fs == ([f] + init) + [last];
    }
  }

  // Every validated frame takes at least a header and at most MaxFrame bytes.
  lemma {:induction false} ConcatLength(p: Profile, fs: seq<Frame>)
    requires AllValid(p, fs)
    ensures HEADER_SIZE * |fs| <= |Concat(fs)| <= MaxFrame(p) * |fs|
  {
    if fs == [] {
    } else {
      ConcatLength(p, fs[..|fs| - 1]);
    }
  }

  // The receiver's walk: count times, read a header and cut off the frame it announces.
  // None: a header or a frame would reach outside the data, or not fit a ring slot.
  function Walk(p: Profile, data: seq<Byte>, count: nat): (r: Option<seq<Frame>>)
    ensures r.Some? ==> |r.value| == count
    decreases count
  {
    if count == 0 then Some([])
    else if |data| < HEADER_SIZE then None
    else
      var size := FrameSize(p, data);
      if size > |data| || size > MaxFrame(p) then None
      else
        match Walk(p, data[size..], count - 1)
        case None => None
        case Some(rest) => Some([data[..size]] + rest)
  }

  lemma WalkStep(p: Profile, data: seq<Byte>, count: nat)
    requires count > 0 && Walk(p, data, count).Some?
    ensures |data| >= HEADER_SIZE
    ensures var (size, all) := (FrameSize(p, data[..HEADER_SIZE]), Walk(p, data, count).value);
            && size <= |data| && size <= MaxFrame(p)
            && all[0] == data[..size]
            && Walk(p, data[size..], count - 1) == Some(all[1..])
  {
    assert data == data[..HEADER_SIZE] + data[HEADER_SIZE..];
    HeaderInPrefix(p, data[..HEADER_SIZE], data[HEADER_SIZE..]);
  }

  lemma HeaderInPrefix(p: Profile, f: Frame, rest: seq<Byte>)
    requires |f| >= HEADER_SIZE
    ensures FrameSize(p, f + rest) == FrameSize(p, f)
  {
    assert (f + rest)[20..24] == f[20..24];
  }

  lemma WalkCutsFirst(p: Profile, f: Frame, rest: seq<Byte>, count: nat, fs: seq<Frame>)
    requires ValidFrame(p, f) && Walk(p, rest, count) == Some(fs)
    ensures Walk(p, f + rest, count + 1) == Some([f] + fs)
  {
    HeaderInPrefix(p, f, rest);
    assert (f + rest)[..|f|] == f && (f + rest)[|f|..] == rest;
  }

  lemma ConcatSplit(fs: seq<Frame>, rest: seq<Byte>)
    requires fs != []
    ensures [fs[0]] + fs[1..] == fs
    ensures Concat(fs) + rest == fs[0] + (Concat(fs[1..]) + rest)
  {
    assert [fs[0]] + fs[1..] == fs;
    ConcatCons(fs[0], fs[1..]);
  }

  // Self-delimitation: the walk recovers any list of validated frames, whatever follows them.
  lemma {:induction false} WalkRecovers(p: Profile, fs: seq<Frame>, rest: seq<Byte>)
    requires AllValid(p, fs)
    ensures Walk(p, Concat(fs) + rest, |fs|) == Some(fs)
    decreases |fs|
  {
    if fs == [] {
      assert Walk(p, Concat(fs) + rest, 0) == Some([]);
    } else {
      WalkRecovers(p, fs[1..], rest);
      WalkCutsFirst(p, fs[0], Concat(fs[1..]) + rest, |fs| - 1, fs[1..]);
      ConcatSplit(fs, rest);
    }
  }

  // Unique decodability: two lists of validated frames with the same bytes are the same list.
  lemma {:induction false} UniqueDecoding(p: Profile, fs: seq<Frame>, gs: seq<Frame>)
    requires AllValid(p, fs) && AllValid(p, gs)
    requires Concat(fs) == Concat(gs)
    ensures fs == gs
    decreases |fs|
  {
    ConcatLength(p, fs);
    ConcatLength(p, gs);
    if fs == [] {
    } else {
      var f, g := fs[0], gs[0];
      assert fs == [f] + fs[1..] && gs == [g] + gs[1..];
      ConcatCons(f, fs[1..]);
      ConcatCons(g, gs[1..]);
      HeaderInPrefix(p, f, Concat(fs[1..]));
      HeaderInPrefix(p, g, Concat(gs[1..]));
      assert Concat(fs)[..|f|] == f && Concat(gs)[..|g|] == g;
      assert Concat(fs)[|f|..] == Concat(fs[1..]) && Concat(gs)[|g|..] == Concat(gs[1..]);
      UniqueDecoding(p, fs[1..], gs[1..]);
    }
  }

  // ---------- Frames field by field ----------

  lemma RawFields(seqNo: nat, send: nat, typ: nat, version: nat, size: nat, rest: seq<Byte>)
    requires seqNo < 0x1_0000_0000_0000_0000 && size < 0x1_0000_0000
    ensures var f := ToLE(seqNo, 8) + ToLE(send, 8) + ToLE(typ, 2) + ToLE(version, 2) + ToLE(size, 4) + rest;
            && |f| == 24 + |rest| && SeqId(f) == seqNo && FrameSize(Raw, f) == size
  {
    var h := ToLE(seqNo, 8) + ToLE(send, 8) + ToLE(typ, 2) + ToLE(version, 2) + ToLE(size, 4);
    var f := h + rest;
    RangeValues();
    LERoundTrip(seqNo, 8);
    LERoundTrip(size, 4);
    assert h[20..24] == ToLE(size, 4) && h[..8] == ToLE(seqNo, 8);
    assert f[20..24] == h[20..24] && f[..8] == h[..8];
  }

  lemma CompactFields(seqNo: nat, send: nat, instrument: nat, typ: Byte, flags: Byte, delta: nat, rest: seq<Byte>)
    requires seqNo < 0x1_0000_0000_0000_0000
    ensures var f := ToLE(seqNo, 8) + ToLE(send, 8) + ToLE(instrument, 2) + [typ, flags] + ToLE(delta, 4) + rest;
            && |f| == 24 + |rest| && SeqId(f) == seqNo
            && FrameSize(Compact, f) == if typ == 1 then 64 else if typ == 2 then 48 else if typ == 3 then 96 else 0
  {
    var h := ToLE(seqNo, 8) + ToLE(send, 8) + ToLE(instrument, 2) + [typ, flags] + ToLE(delta, 4);
    var f := h + rest;
    RangeValues();
    LERoundTrip(seqNo, 8);
    assert h[18] == typ && h[..8] == ToLE(seqNo, 8);
    assert f[18] == h[18] && f[..8] == h[..8];
  }

  // ---------- What the walk finds ----------

  // fs lies in data from the start, each frame as long as the header at its place says.
  ghost predicate Cut(p: Profile, data: seq<Byte>, fs: seq<Frame>) {
    forall k :: 0 <= k < |fs| ==> CutAt(p, data, |Concat(fs[..k])|, fs[k])
  }

  predicate CutAt(p: Profile, data: seq<Byte>, at: nat, f: Frame) {
    && at + HEADER_SIZE <= |data| && at + |f| <= |data| && f == data[at..at + |f|]
    && |f| == FrameSize(p, data[at..]) <= MaxFrame(p)
  }

  lemma CutTail(p: Profile, data: seq<Byte>, fs: seq<Frame>, k: nat)
    requires fs != [] && |fs[0]| <= |data| && 1 <= k < |fs|
    ensures CutAt(p, data, |Concat(fs[..k])|, fs[k]) <==>
            CutAt(p, data[|fs[0]|..], |Concat(fs[1..][..k - 1])|, fs[1..][k - 1])
  {
    var (at, n) := (|Concat(fs[1..][..k - 1])|, |fs[0]|);
    assert fs[..k] == [fs[0]] + fs[1..][..k - 1];
    ConcatCons(fs[0], fs[1..][..k - 1]);
    if n + at <= |data| {
      assert data[n..][at..] == data[n + at..];
      if n + at + |fs[k]| <= |data| {
        assert data[n..][at..at + |fs[k]|] == data[n + at..n + at + |fs[k]|];
      }
    }
  }

  lemma CutFirst(p: Profile, data: seq<Byte>, fs: seq<Frame>)
    requires fs != []
    ensures Cut(p, data, fs) <==> CutAt(p, data, 0, fs[0]) && Cut(p, data[|fs[0]|..], fs[1..])
  {
    assert fs[..0] == [];
    if CutAt(p, data, 0, fs[0]) {
      forall k | 1 <= k < |fs| {
        CutTail(p, data, fs, k);
      }
      if Cut(p, data[|fs[0]|..], fs[1..]) {
        forall k | 0 <= k < |fs| ensures CutAt(p, data, |Concat(fs[..k])|, fs[k]) {
        }
      }
    }
  }

  lemma WalkUnfolds(p: Profile, data: seq<Byte>, count: nat)
    requires count > 0
    ensures Walk(p, data, count).Some? <==>
            && |data| >= HEADER_SIZE && FrameSize(p, data) <= |data| && FrameSize(p, data) <= MaxFrame(p)
            && Walk(p, data[FrameSize(p, data)..], count - 1).Some?
    ensures Walk(p, data, count).Some? ==>
              var size := FrameSize(p, data);
              Walk(p, data, count).value == [data[..size]] + Walk(p, data[size..], count - 1).value
  {
  }

  lemma WalkFirst(p: Profile, data: seq<Byte>, count: nat, fs: seq<Frame>)
    requires count > 0 && fs != []
    ensures Walk(p, data, count) == Some(fs) <==>
            CutAt(p, data, 0, fs[0]) && Walk(p, data[|fs[0]|..], count - 1) == Some(fs[1..])
  {
    WalkUnfolds(p, data, count);
    assert data[0..] == data && fs == [fs[0]] + fs[1..];
  }

  // The walk finds count frames exactly if that many lie in the data one after the other, each
  // as long as its header says, and then it finds those.
  lemma {:induction false} WalkMeaning(p: Profile, data: seq<Byte>, count: nat, fs: seq<Frame>)
    ensures Walk(p, data, count) == Some(fs) <==> |fs| == count && Cut(p, data, fs)
    decreases count
  {
    if count == 0 {
    } else if fs == [] {
      WalkUnfolds(p, data, count);
    } else {
      WalkFirst(p, data, count, fs);
      CutFirst(p, data, fs);
      if |fs[0]| <= |data| {
        WalkMeaning(p, data[|fs[0]|..], count - 1, fs[1..]);
      }
    }
  }

  lemma FirstRecord(p: Profile, f: seq<Byte>)
    requires |f| >= HEADER_SIZE
    ensures var size := FrameSize(p, f);
            Walk(p, f, 1) == if size <= |f| && size <= MaxFrame(p) then Some([f[..size]]) else None
  {
    var size := FrameSize(p, f);
    if size <= |f| && size <= MaxFrame(p) {
      assert Walk(p, f[size..], 0) == Some([]);
      assert [f[..size]] + [] == [f[..size]];
    }
  }

  // One record of the raw profile: its last header field is its length, whatever the length of
  // the header itself, up to 576.
  lemma RawRecord(seqNo: nat, send: nat, typ: nat, version: nat, size: nat, rest: seq<Byte>)
    requires seqNo < 0x1_0000_0000_0000_0000 && size < 0x1_0000_0000
    ensures var f := ToLE(seqNo, 8) + ToLE(send, 8) + ToLE(typ, 2) + ToLE(version, 2) + ToLE(size, 4) + rest;
            Walk(Raw, f, 1) == if size <= |f| && size <= 576 then Some([f[..size]]) else None
  {
    RawFields(seqNo, send, typ, version, size, rest);
    var f := ToLE(seqNo, 8) + ToLE(send, 8) + ToLE(typ, 2) + ToLE(version, 2) + ToLE(size, 4) + rest;
    FirstRecord(Raw, f);
  }

  // One record of the compact profile: its type tells the length; an unknown type has none.
  lemma CompactRecord(seqNo: nat, send: nat, instrument: nat, typ: Byte, flags: Byte, delta: nat, rest: seq<Byte>)
    requires seqNo < 0x1_0000_0000_0000_0000
    ensures var f := ToLE(seqNo, 8) + ToLE(send, 8) + ToLE(instrument, 2) + [typ, flags] + ToLE(delta, 4) + rest;
            Walk(Compact, f, 1) ==
            if typ == 1 then (if |f| >= 64 then Some([f[..64]]) else None)
            else if typ == 2 then (if |f| >= 48 then Some([f[..48]]) else None)
            else if typ == 3 then (if |f| >= 96 then Some([f[..96]]) else None)
            else Some([[]])
  {
    CompactFields(seqNo, send, instrument, typ, flags, delta, rest);
    var f := ToLE(seqNo, 8) + ToLE(send, 8) + ToLE(instrument, 2) + [typ, flags] + ToLE(delta, 4) + rest;
    FirstRecord(Compact, f);
    assert f[..0] == [];
  }
}
