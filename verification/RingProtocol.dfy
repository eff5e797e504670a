/** The broadcast ring with every access to shared memory a step of its own, in the order
    the program makes them, and any interleaving of one producer with any number of readers
    (sequentially consistent). The bytes of a frame are copied one at a time in any order. */
module RingProtocol {
  import opened Bits
  import opened Bytes
  import opened Counting
  import ShmRing

  type Frame = seq<Byte>

  // Where publish() stands. The frame being published is the last one of pubs.
  datatype Producer =
    | Idle
    | Begun
    | Copying(done: set<nat>)
    | SeqStored

  // initial is what the frame memory held when the ring was attached, and pubs records every
  // frame whose publication has begun; nothing reads either.
  datatype Shared = Shared(
    n: nat, cap: nat,
    seqs: seq<nat>, lens: seq<nat>, bytes: seq<seq<Byte>>, writeIndex: nat,
    producer: Producer, initial: seq<seq<Byte>>, pubs: seq<Frame>)

  // What read() returned, with what the ring looked like at its last access: the write
  // index, and whether the producer was inside publish() or between its two last stores.
  datatype Result =
    | ReadOk(out: Frame, edge: nat, publishing: bool)
    | ReadEmpty(edge: nat)
    | ReadLapped(resume: nat, edge: nat, storing: bool)

  // Where read(index) stands.
  datatype Reader =
    | Ready
    | Matched(index: nat)
    | Fetching(index: nat, len: nat, got: map<nat, Byte>)
    | Missed(index: nat)
    | Returned(index: nat, result: Result)
    | OutOfBounds

  datatype State = State(shm: Shared, readers: seq<Reader>)

  datatype Action =
    | Begin(frame: Frame)
    | StoreLen
    | CopyByte(k: nat)
    | StoreSeq
    | StoreIndex
    | LoadSeq(reader: nat, index: nat)
    | LoadLen(reader: nat)
    | FetchByte(reader: nat, k: nat)
    | Recheck(reader: nat)
    | LoadEdge(reader: nat)

  // n slots of cap bytes.
  predicate Memory(bytes: seq<seq<Byte>>, n: nat, cap: nat) {
    n > 0 && |bytes| == n && forall j :: 0 <= j < n ==> |bytes[j]| == cap
  }

  predicate Shape(m: Shared) {
    && |m.seqs| == |m.lens| == m.n
    && Memory(m.bytes, m.n, m.cap) && Memory(m.initial, m.n, m.cap)
  }

  // A freshly attached ring; lengths and frame bytes hold whatever the memory held.
  predicate IsInit(s: State) {
    && Shape(s.shm)
    && (forall j :: 0 <= j < s.shm.n ==> s.shm.seqs[j] == 0)
    && s.shm.writeIndex == 0 && s.shm.producer == Idle
    && s.shm.bytes == s.shm.initial && s.shm.pubs == []
    && (forall r :: 0 <= r < |s.readers| ==> s.readers[r] == Ready)
  }

  predicate Consistent(m: Shared) {
    && Shape(m)
    && |m.pubs| == m.writeIndex + (if m.producer.Idle? then 0 else 1)
    && forall i :: 0 <= i < |m.pubs| ==> |m.pubs[i]| <= m.cap
  }

  function SetByte(bytes: seq<seq<Byte>>, j: nat, k: nat, b: Byte): seq<seq<Byte>>
    requires j < |bytes| && k < |bytes[j]|
  {
    var slot: seq<Byte> := bytes[j][k := b];
    bytes[j := slot]
  }

  // An action that is not possible where its thread stands leaves everything as it is.
  function ProducerStep(m: Shared, a: Action): Shared
    requires Consistent(m)
  {
    var j := m.writeIndex % m.n;
    match (m.producer, a)
    case (Idle, Begin(frame)) =>
      if |frame| <= m.cap then m.(producer := Begun, pubs := m.pubs + [frame]) else m
    case (Begun, StoreLen) =>
      m.(producer := Copying({}), lens := m.lens[j := |m.pubs[m.writeIndex]|])
    case (Copying(done), CopyByte(k)) =>
      if k < |m.pubs[m.writeIndex]| then
        m.(producer := Copying(done + {k}),
           bytes := SetByte(m.bytes, j, k, m.pubs[m.writeIndex][k]))
      else m
    case (Copying(done), StoreSeq) =>
      if forall k :: 0 <= k < |m.pubs[m.writeIndex]| ==> k in done then
        m.(producer := SeqStored, seqs := m.seqs[j := m.writeIndex + 1])
      else m
    case (SeqStored, StoreIndex) =>
      m.(producer := Idle, writeIndex := m.writeIndex + 1)
    case _ => m
  }

  function Resume(edge: nat, n: nat): nat {
    if edge > n then edge - n else 0
  }

  function StartRead(m: Shared, index: nat): Reader
    requires Consistent(m)
  {
    var sequence := m.seqs[index % m.n];
    if sequence < index + 1 then Returned(index, ReadEmpty(m.writeIndex))
    else if sequence > index + 1 then Missed(index)
    else Matched(index)
  }

  function ReaderStep(m: Shared, r: Reader, a: Action): Reader
    requires Consistent(m)
  {
    match (r, a)
    case (Ready, LoadSeq(_, index)) => StartRead(m, index)
    case (Returned(_, _), LoadSeq(_, index)) => StartRead(m, index)
    case (Matched(index), LoadLen(_)) => Fetching(index, m.lens[index % m.n], map[])
    case (Fetching(index, len, got), FetchByte(_, k)) =>
      if k >= len then r
      else if k >= m.cap then OutOfBounds
      else r.(got := got[k := m.bytes[index % m.n][k]])
    case (Fetching(index, len, got), Recheck(_)) =>
      if forall k :: 0 <= k < len ==> k in got then
        if m.seqs[index % m.n] != index + 1 then Missed(index)
        else Returned(index, ReadOk(seq(len, k requires 0 <= k < len => got[k]), m.writeIndex, !m.producer.Idle?))
      else r
    case (Missed(index), LoadEdge(_)) =>
      Returned(index, ReadLapped(Resume(m.writeIndex, m.n), m.writeIndex, m.producer.SeqStored?))
    case _ => r
  }

  function Step(s: State, a: Action): State
    requires Consistent(s.shm)
  {
    if a.Begin? || a.StoreLen? || a.CopyByte? || a.StoreSeq? || a.StoreIndex? then
      s.(shm := ProducerStep(s.shm, a))
    else if a.reader < |s.readers| then
      s.(readers := s.readers[a.reader := ReaderStep(s.shm, s.readers[a.reader], a)])
    else s
  }

  // ---------- The invariant ----------

  // Publications 0 .. Visible - 1 have had their sequence stored.
  function Visible(m: Shared): nat {
    m.writeIndex + if m.producer.SeqStored? then 1 else 0
  }

  predicate Overwriting(m: Shared, j: nat)
    requires Shape(m)
  {
    m.producer.Copying? && m.writeIndex % m.n == j
  }

  // What publication i leaves at position k of its slot: its own byte or, behind its end,
  // whatever was there before.
  function Left(initial: seq<seq<Byte>>, pubs: seq<Frame>, i: nat, k: nat): Byte
    requires i < |pubs| && initial != []
    requires forall j :: 0 <= j < |initial| ==> k < |initial[j]|
  {
    if k < |pubs[i]| then pubs[i][k]
    else if i >= |initial| then Left(initial, pubs, i - |initial|, k)
    else initial[i][k]
  }

  // What is in slot j while its sequence still names publication i.
  predicate Holds(m: Shared, j: nat, i: nat)
    requires Consistent(m) && j < m.n && i < |m.pubs|
  {
    && m.lens[j] == |if Overwriting(m, j) then m.pubs[m.writeIndex] else m.pubs[i]|
    && forall k :: 0 <= k < m.cap && !(Overwriting(m, j) && k in m.producer.done) ==>
         m.bytes[j][k] == Left(m.initial, m.pubs, i, k)
  }

  // What is in slot j while its sequence says that it was never written.
  predicate Untouched(m: Shared, j: nat)
    requires Consistent(m) && j < m.n
  {
    forall k :: 0 <= k < m.cap && !(Overwriting(m, j) && k in m.producer.done) ==>
      m.bytes[j][k] == m.initial[j][k]
  }

  predicate SlotInv(m: Shared, j: nat)
    requires Consistent(m) && j < m.n
  {
    if m.seqs[j] == 0 then j >= Visible(m) && Untouched(m, j)
    else
      var i := m.seqs[j] - 1;
      i < Visible(m) <= i + m.n && i % m.n == j && Holds(m, j, i)
  }

  predicate WriterInv(m: Shared)
    requires Consistent(m)
  {
    m.producer.Copying? ==>
      var j, f := m.writeIndex % m.n, m.pubs[m.writeIndex];
      && m.lens[j] == |f|
      && forall k :: k in m.producer.done ==> k < |f| && m.bytes[j][k] == f[k]
  }

  predicate SharedInv(m: Shared) {
    && Consistent(m)
    && WriterInv(m)
    && forall j :: 0 <= j < m.n ==> SlotInv(m, j)
  }

  // A length, or a byte, that belongs to publication i or to the one n later.
  predicate LenOf(pubs: seq<Frame>, n: nat, i: nat, len: nat)
    requires i < |pubs|
  {
    len == |pubs[i]| || (i + n < |pubs| && len == |pubs[i + n]|)
  }

  // A byte that publication i left where it is, or one of publication i + n.
  predicate ByteOf(initial: seq<seq<Byte>>, pubs: seq<Frame>, i: nat, k: nat, b: Byte)
    requires i < |pubs| && initial != []
    requires forall j :: 0 <= j < |initial| ==> k < |initial[j]|
  {
    || b == Left(initial, pubs, i, k)
    || (i + |initial| < |pubs| && k < |pubs[i + |initial|]| && b == pubs[i + |initial|][k])
  }

  // Everything a successful read of i can return.
  predicate MixOf(initial: seq<seq<Byte>>, cap: nat, pubs: seq<Frame>, i: nat, out: Frame)
    requires Memory(initial, |initial|, cap)
  {
    && i < |pubs| && |out| <= cap && LenOf(pubs, |initial|, i, |out|)
    && forall k :: 0 <= k < |out| ==> ByteOf(initial, pubs, i, k, out[k])
  }

  predicate OkSound(m: Shared, i: nat, res: Result)
    requires Shape(m) && res.ReadOk?
  {
    && MixOf(m.initial, m.cap, m.pubs, i, res.out)
    && i <= res.edge <= i + m.n
    && (res.edge < i + m.n || !res.publishing ==> res.out == m.pubs[i])
  }

  // The slot of publication k now belongs to a later one, and publication k + n is complete.
  predicate Replaced(m: Shared, k: nat)
    requires Shape(m)
  {
    m.seqs[k % m.n] > k + 1 && k + m.n < m.writeIndex
  }

  predicate LapSound(m: Shared, i: nat, res: Result)
    requires Shape(m) && res.ReadLapped?
  {
    && i <= res.resume && res.edge <= m.writeIndex
    && (res.resume == i <==> res.edge == i + m.n)
    && (res.resume == i ==> res.storing && i + m.n < |m.pubs|)
    && forall k :: i <= k < res.resume ==> Replaced(m, k)
  }

  predicate ReaderInv(m: Shared, r: Reader)
    requires Consistent(m)
  {
    match r
    case Ready => true
    case Matched(i) => m.seqs[i % m.n] >= i + 1
    case Fetching(i, len, got) =>
      && m.seqs[i % m.n] >= i + 1
      && len <= m.cap
      && (forall k :: k in got ==> k < len)
      && (m.seqs[i % m.n] == i + 1 ==>
            && i < |m.pubs|
            && LenOf(m.pubs, m.n, i, len)
            && forall k :: k in got ==> ByteOf(m.initial, m.pubs, i, k, got[k]))
    case Missed(i) => m.seqs[i % m.n] > i + 1
    case Returned(i, res) =>
      (match res
       case ReadOk(_, _, _) => OkSound(m, i, res)
       case ReadEmpty(edge) => edge <= i
       case ReadLapped(_, _, _) => LapSound(m, i, res))
    case OutOfBounds => false
  }

  predicate Inv(s: State) {
    && SharedInv(s.shm)
    && forall r :: 0 <= r < |s.readers| ==> ReaderInv(s.shm, s.readers[r])
  }

  // ---------- The producer keeps it ----------

  lemma SlotQuery(m: Shared, i: nat)
    requires SharedInv(m)
    ensures i % m.n < m.n
    ensures m.seqs[i % m.n] < i + 1 <==> i >= Visible(m)
    ensures m.seqs[i % m.n] == i + 1 <==> i < Visible(m) <= i + m.n
    ensures m.seqs[i % m.n] > i + 1 ==> Visible(m) > i + m.n
    ensures m.seqs[i % m.n] == i + 1 ==> Holds(m, i % m.n, i)
    ensures m.seqs[i % m.n] >= i + 1 ==> m.lens[i % m.n] <= m.cap
  {
    var j := i % m.n;
    assert SlotInv(m, j);
    if m.seqs[j] == 0 {
      FirstRound(i, m.n);
    } else {
      NewestInSlot(m.seqs[j] - 1, i, Visible(m), m.n);
    }
  }

  // What was left stays, whatever is published afterwards.
  lemma {:induction false} LeftStays(initial: seq<seq<Byte>>, pubs: seq<Frame>, pubs': seq<Frame>, i: nat, k: nat)
    requires i < |pubs| && pubs <= pubs' && initial != []
    requires forall j :: 0 <= j < |initial| ==> k < |initial[j]|
    ensures Left(initial, pubs', i, k) == Left(initial, pubs, i, k)
    decreases i
  {
    if k < |pubs[i]| || i < |initial| {
    } else {
      LeftStays(initial, pubs, pubs', i - |initial|, k);
    }
  }

  lemma HoldsStays(m: Shared, m': Shared, j: nat, i: nat)
    requires Consistent(m) && Consistent(m') && j < m.n && i < |m.pubs| && Holds(m, j, i)
    requires m' == m.(producer := m'.producer, pubs := m'.pubs) && m.pubs <= m'.pubs
    requires !Overwriting(m, j) && !Overwriting(m', j)
    ensures Holds(m', j, i)
  {
    forall k | 0 <= k < m.cap ensures m'.bytes[j][k] == Left(m'.initial, m'.pubs, i, k) {
      LeftStays(m.initial, m.pubs, m'.pubs, i, k);
    }
  }

  lemma BeginKeeps(m: Shared, a: Action)
    requires SharedInv(m) && a.Begin?
    ensures SharedInv(ProducerStep(m, a))
  {
    var m' := ProducerStep(m, a);
    if m' != m {
      forall j | 0 <= j < m.n ensures SlotInv(m', j) {
        assert SlotInv(m, j);
        if m.seqs[j] > 0 {
          HoldsStays(m, m', j, m.seqs[j] - 1);
        }
      }
    }
  }

  lemma StoreLenKeeps(m: Shared)
    requires SharedInv(m)
    ensures SharedInv(ProducerStep(m, StoreLen))
  {
    var m' := ProducerStep(m, StoreLen);
    forall j | 0 <= j < m.n ensures SlotInv(m', j) {
      assert SlotInv(m, j);
    }
  }

  lemma CopyByteKeeps(m: Shared, a: Action)
    requires SharedInv(m) && a.CopyByte?
    ensures SharedInv(ProducerStep(m, a))
  {
    var m' := ProducerStep(m, a);
    forall j | 0 <= j < m.n ensures SlotInv(m', j) {
      assert SlotInv(m, j);
    }
  }

  lemma OneRound(i: nat, n: nat)
    requires n > 0
    ensures (i + n) % n == i % n < n
  {
    SameSlot(i, i + n, n);
  }

  // The slot being written still names the publication one round earlier, or none.
  lemma RoundBefore(m: Shared, i: nat)
    requires SharedInv(m) && m.producer.Copying? && m.writeIndex == i + m.n
    ensures m.writeIndex % m.n < m.n && i < |m.pubs| && Holds(m, m.writeIndex % m.n, i)
  {
    OneRound(i, m.n);
    SlotQuery(m, i);
  }

  lemma FirstTime(m: Shared)
    requires SharedInv(m) && m.producer.Copying? && m.writeIndex < m.n
    ensures m.writeIndex % m.n == m.writeIndex && Untouched(m, m.writeIndex)
  {
    FirstRound(m.writeIndex, m.n);
    SlotQuery(m, m.writeIndex);
    assert SlotInv(m, m.writeIndex);
  }

  // The publication under way, all its bytes copied, is what its slot holds.
  lemma CopiedHolds(m: Shared, m': Shared)
    requires SharedInv(m) && m.producer.Copying?
    requires forall k :: 0 <= k < |m.pubs[m.writeIndex]| ==> k in m.producer.done
    requires m' == m.(producer := SeqStored, seqs := m.seqs[m.writeIndex % m.n := m.writeIndex + 1])
    ensures Holds(m', m.writeIndex % m.n, m.writeIndex)
  {
    var (w, j) := (m.writeIndex, m.writeIndex % m.n);
    if w >= m.n {
      RoundBefore(m, w - m.n);
    } else {
      FirstTime(m);
    }
    forall k | 0 <= k < m.cap ensures m'.bytes[j][k] == Left(m'.initial, m'.pubs, w, k) {
      if k >= |m.pubs[w]| {
        assert k !in m.producer.done;
      }
    }
  }

  lemma StoreSeqKeeps(m: Shared)
    requires SharedInv(m)
    ensures SharedInv(ProducerStep(m, StoreSeq))
  {
    var m' := ProducerStep(m, StoreSeq);
    var w := m.writeIndex;
    if m'.producer.SeqStored? && !m.producer.SeqStored? {
      CopiedHolds(m, m');
      forall j | 0 <= j < m.n ensures SlotInv(m', j) {
        assert SlotInv(m, j);
        if j != w % m.n {
          if m.seqs[j] > 0 {
            SameSlot(m.seqs[j] - 1, w, m.n);
          } else {
            FirstRound(w, m.n);
          }
        }
      }
    }
  }

  lemma StoreIndexKeeps(m: Shared)
    requires SharedInv(m)
    ensures SharedInv(ProducerStep(m, StoreIndex))
  {
    var m' := ProducerStep(m, StoreIndex);
    forall j | 0 <= j < m.n ensures SlotInv(m', j) {
      assert SlotInv(m, j);
    }
  }

  lemma ByteStays(initial: seq<seq<Byte>>, pubs: seq<Frame>, pubs': seq<Frame>, i: nat, k: nat, b: Byte)
    requires i < |pubs| && pubs <= pubs' && initial != []
    requires forall j :: 0 <= j < |initial| ==> k < |initial[j]|
    requires ByteOf(initial, pubs, i, k, b)
    ensures ByteOf(initial, pubs', i, k, b)
  {
    LeftStays(initial, pubs, pubs', i, k);
  }

  // A producer step only ever raises sequences and the write index, and adds publications.
  predicate Later(m: Shared, m': Shared) {
    && m'.n == m.n && m'.cap == m.cap && m'.initial == m.initial
    && m.pubs <= m'.pubs && m.writeIndex <= m'.writeIndex
    && |m'.seqs| == |m.seqs| && forall j :: 0 <= j < |m.seqs| ==> m.seqs[j] <= m'.seqs[j]
  }

  lemma ProducerAdvances(m: Shared, a: Action)
    requires SharedInv(m)
    ensures Consistent(ProducerStep(m, a)) && Later(m, ProducerStep(m, a))
  {
    assert SlotInv(m, m.writeIndex % m.n);
  }

  lemma OkStays(m: Shared, m': Shared, i: nat, res: Result)
    requires Consistent(m) && Consistent(m') && Later(m, m')
    requires res.ReadOk? && OkSound(m, i, res)
    ensures OkSound(m', i, res)
  {
    forall k | 0 <= k < |res.out| ensures ByteOf(m'.initial, m'.pubs, i, k, res.out[k]) {
      ByteStays(m.initial, m.pubs, m'.pubs, i, k, res.out[k]);
    }
  }

  lemma LapStays(m: Shared, m': Shared, i: nat, res: Result)
    requires Consistent(m) && Consistent(m') && Later(m, m')
    requires res.ReadLapped? && LapSound(m, i, res)
    ensures LapSound(m', i, res)
  {
    forall k | i <= k < res.resume ensures Replaced(m', k) {
      assert Replaced(m, k);
    }
  }

  lemma FetchStays(m: Shared, m': Shared, r: Reader)
    requires Consistent(m) && Consistent(m') && Later(m, m')
    requires r.Fetching? && ReaderInv(m, r)
    ensures ReaderInv(m', r)
  {
    if m'.seqs[r.index % m.n] == r.index + 1 {
      forall k | k in r.got ensures ByteOf(m'.initial, m'.pubs, r.index, k, r.got[k]) {
        ByteStays(m.initial, m.pubs, m'.pubs, r.index, k, r.got[k]);
      }
    }
  }

  // A producer step leaves what a reader knows true.
  lemma ProducerKeepsReader(m: Shared, a: Action, r: Reader)
    requires SharedInv(m) && ReaderInv(m, r)
    ensures Consistent(ProducerStep(m, a)) && ReaderInv(ProducerStep(m, a), r)
  {
    var m' := ProducerStep(m, a);
    ProducerAdvances(m, a);
    match r
    case Fetching(_, _, _) => FetchStays(m, m', r);
    case Returned(i, res) =>
      if res.ReadOk? {
        OkStays(m, m', i, res);
      } else if res.ReadLapped? {
        LapStays(m, m', i, res);
      }
    case _ =>
  }

  // ---------- The readers keep it ----------

  lemma StartReadKeeps(m: Shared, i: nat)
    requires SharedInv(m)
    ensures ReaderInv(m, StartRead(m, i))
  {
    SlotQuery(m, i);
  }

  // While the slot names i, only publication i + n can be on its way into it.
  lemma OverwriterIsNext(m: Shared, i: nat)
    requires SharedInv(m) && m.seqs[i % m.n] == i + 1
    ensures Overwriting(m, i % m.n) ==> m.writeIndex == i + m.n < |m.pubs|
  {
    SlotQuery(m, i);
    if Overwriting(m, i % m.n) {
      SameSlot(i, m.writeIndex, m.n);
    }
  }

  lemma LoadLenKeeps(m: Shared, r: Reader, a: Action)
    requires SharedInv(m) && ReaderInv(m, r) && r.Matched? && a.LoadLen?
    ensures ReaderInv(m, ReaderStep(m, r, a))
  {
    SlotQuery(m, r.index);
    if m.seqs[r.index % m.n] == r.index + 1 {
      OverwriterIsNext(m, r.index);
    }
  }

  lemma FetchByteKeeps(m: Shared, r: Reader, a: Action)
    requires SharedInv(m) && ReaderInv(m, r) && r.Fetching? && a.FetchByte?
    ensures ReaderInv(m, ReaderStep(m, r, a))
  {
    SlotQuery(m, r.index);
    if m.seqs[r.index % m.n] == r.index + 1 {
      OverwriterIsNext(m, r.index);
    }
  }

  lemma RecheckKeeps(m: Shared, r: Reader, a: Action)
    requires SharedInv(m) && ReaderInv(m, r) && r.Fetching? && a.Recheck?
    ensures ReaderInv(m, ReaderStep(m, r, a))
  {
    SlotQuery(m, r.index);
    var r' := ReaderStep(m, r, a);
    if r'.Returned? {
      var i, out := r.index, r'.result.out;
      forall k | 0 <= k < |out| ensures ByteOf(m.initial, m.pubs, i, k, out[k]) {
        assert k in r.got;
      }
      if m.writeIndex < i + m.n || m.producer.Idle? {
        assert |m.pubs| <= i + m.n;
        assert forall k :: 0 <= k < |out| ==> out[k] == m.pubs[i][k];
        assert out == m.pubs[i];
      }
    }
  }

  lemma LoadEdgeKeeps(m: Shared, r: Reader, a: Action)
    requires SharedInv(m) && ReaderInv(m, r) && r.Missed? && a.LoadEdge?
    ensures ReaderInv(m, ReaderStep(m, r, a))
  {
    SlotQuery(m, r.index);
    forall k | r.index <= k < Resume(m.writeIndex, m.n) ensures Replaced(m, k) {
      SlotQuery(m, k);
    }
  }

  lemma ReaderKeepsItself(m: Shared, r: Reader, a: Action)
    requires SharedInv(m) && ReaderInv(m, r)
    ensures ReaderInv(m, ReaderStep(m, r, a))
  {
    match (r, a)
    case (Ready, LoadSeq(_, i)) => StartReadKeeps(m, i);
    case (Returned(_, _), LoadSeq(_, i)) => StartReadKeeps(m, i);
    case (Matched(_), LoadLen(_)) => LoadLenKeeps(m, r, a);
    case (Fetching(_, _, _), FetchByte(_, _)) => FetchByteKeeps(m, r, a);
    case (Fetching(_, _, _), Recheck(_)) => RecheckKeeps(m, r, a);
    case (Missed(_), LoadEdge(_)) => LoadEdgeKeeps(m, r, a);
    case _ =>
  }

  lemma ProducerKeepsShared(m: Shared, a: Action)
    requires SharedInv(m)
    ensures SharedInv(ProducerStep(m, a))
  {
    match a
    case Begin(_) => BeginKeeps(m, a);
    case StoreLen => StoreLenKeeps(m);
    case CopyByte(_) => CopyByteKeeps(m, a);
    case StoreSeq => StoreSeqKeeps(m);
    case StoreIndex => StoreIndexKeeps(m);
    case _ =>
  }

  lemma StepKeeps(s: State, a: Action)
    requires Inv(s)
    ensures Inv(Step(s, a))
  {
    var s' := Step(s, a);
    ProducerKeepsShared(s.shm, a);
    forall r | 0 <= r < |s'.readers| ensures ReaderInv(s'.shm, s'.readers[r]) {
      ProducerKeepsReader(s.shm, a, s.readers[r]);
      ReaderKeepsItself(s.shm, s.readers[r], a);
    }
  }

  // ---------- Runs ----------

  // The state after a schedule, a list of actions of the producer and the readers.
  function Run(s0: State, schedule: seq<Action>): (s: State)
    requires Inv(s0)
    ensures Inv(s)
    ensures |s.readers| == |s0.readers| && s.shm.n == s0.shm.n && s.shm.cap == s0.shm.cap
  {
    if schedule == [] then s0
    else
      var s := Run(s0, schedule[..|schedule| - 1]);
      StepKeeps(s, schedule[|schedule| - 1]);
      Step(s, schedule[|schedule| - 1])
  }

  lemma InitInv(s: State)
    requires IsInit(s)
    ensures Inv(s)
  {
    assert forall j :: 0 <= j < s.shm.n ==> SlotInv(s.shm, j);
  }

  // ---------- What a read may rely on, in every interleaving ----------

  // A successful read returns the frame published at its index, unless its slot was the
  // oldest retained one and its next publication was under way.
  lemma OkReadIsExact(s0: State, schedule: seq<Action>, r: nat)
    requires IsInit(s0) && Inv(s0) && r < |s0.readers|
    requires Run(s0, schedule).readers[r].Returned? && Run(s0, schedule).readers[r].result.ReadOk?
    ensures var s := Run(s0, schedule);
            var (i, res) := (s.readers[r].index, s.readers[r].result);
            && i < |s.shm.pubs| && i <= res.edge <= i + s.shm.n
            && (res.edge < i + s.shm.n || !res.publishing ==> res.out == s.shm.pubs[i])
  {
    assert ReaderInv(Run(s0, schedule).shm, Run(s0, schedule).readers[r]);
  }

  // Whatever the race, the length is that of publication i or i + n, and every byte is one of
  // publication i + n or what publication i left there: behind the end of publication i that
  // is a byte of an earlier publication, or of none.
  lemma OkReadMixes(s0: State, schedule: seq<Action>, r: nat)
    requires IsInit(s0) && Inv(s0) && r < |s0.readers|
    requires Run(s0, schedule).readers[r].Returned? && Run(s0, schedule).readers[r].result.ReadOk?
    ensures var s := Run(s0, schedule);
            MixOf(s.shm.initial, s.shm.cap, s.shm.pubs, s.readers[r].index, s.readers[r].result.out)
  {
    var s := Run(s0, schedule);
    assert ReaderInv(s.shm, s.readers[r]);
  }

  // The last publication up to i, of those in the slot of i, that is longer than k.
  ghost predicate LastLonger(pubs: seq<Frame>, n: nat, i: nat, k: nat, q: nat)
    requires n > 0 && i < |pubs|
  {
    && q <= i && q % n == i % n && k < |pubs[q]|
    && forall r :: q < r <= i && r % n == i % n ==> |pubs[r]| <= k
  }

  // What is left at a position is the byte of the last publication in that slot that reached
  // so far, or was there from the beginning if none did.
  lemma {:induction false} LeftIsLatest(initial: seq<seq<Byte>>, pubs: seq<Frame>, i: nat, k: nat)
    requires i < |pubs| && initial != []
    requires forall j :: 0 <= j < |initial| ==> k < |initial[j]|
    ensures var n := |initial|;
            || (exists q: nat :: LastLonger(pubs, n, i, k, q) && Left(initial, pubs, i, k) == pubs[q][k])
            || ((forall r :: 0 <= r <= i && r % n == i % n ==> |pubs[r]| <= k) &&
                Left(initial, pubs, i, k) == initial[i % n][k])
    decreases i
  {
    var n := |initial|;
    if k < |pubs[i]| {
      assert LastLonger(pubs, n, i, k, i);
    } else if i >= n {
      SameSlot(i - n, i, n);
      LeftIsLatest(initial, pubs, i - n, k);
      forall r | i - n < r < i ensures r % n != i % n {
        SameSlot(r, i, n);
      }
      if q: nat :| LastLonger(pubs, n, i - n, k, q) && Left(initial, pubs, i - n, k) == pubs[q][k] {
        assert LastLonger(pubs, n, i, k, q);
      }
    } else {
      forall r | 0 <= r < i ensures r % n != i % n {
        SameSlot(r, i, n);
      }
      FirstRound(i, n);
    }
  }

  // No interleaving makes a reader copy past the frame capacity of a slot.
  lemma CopyStaysInSlot(s0: State, schedule: seq<Action>, r: nat)
    requires IsInit(s0) && Inv(s0) && r < |s0.readers|
    ensures !Run(s0, schedule).readers[r].OutOfBounds?
    ensures Run(s0, schedule).readers[r].Fetching? ==>
              Run(s0, schedule).readers[r].len <= Run(s0, schedule).shm.cap
  {
    assert ReaderInv(Run(s0, schedule).shm, Run(s0, schedule).readers[r]);
  }

  // A lapped reader is never sent back, and whatever it skips is lost: its slot belongs to a
  // later publication, and the publication n after it is complete. It is sent nowhere exactly
  // if it loaded the edge while the producer, having stored the sequence of publication
  // index + n, had not yet stored the write index.
  lemma LappedReadIsSound(s0: State, schedule: seq<Action>, r: nat, k: nat)
    requires IsInit(s0) && Inv(s0) && r < |s0.readers|
    requires Run(s0, schedule).readers[r].Returned? && Run(s0, schedule).readers[r].result.ReadLapped?
    ensures var s := Run(s0, schedule);
            var (i, n, res) := (s.readers[r].index, s.shm.n, s.readers[r].result);
            && i <= res.resume
            && (i <= k < res.resume ==>
                  s.shm.seqs[k % n] > k + 1 && k + n < s.shm.writeIndex && StartRead(s.shm, k) == Missed(k))
            && (res.resume == i <==> res.storing && res.edge == i + n)
  {
    var s := Run(s0, schedule);
    assert ReaderInv(s.shm, s.readers[r]);
    if s.readers[r].index <= k < s.readers[r].result.resume {
      assert Replaced(s.shm, k);
    }
  }

  // An empty read means that the publication asked for was not complete.
  lemma EmptyReadIsSound(s0: State, schedule: seq<Action>, r: nat)
    requires IsInit(s0) && Inv(s0) && r < |s0.readers|
    requires Run(s0, schedule).readers[r].Returned? && Run(s0, schedule).readers[r].result.ReadEmpty?
    ensures Run(s0, schedule).readers[r].result.edge <= Run(s0, schedule).readers[r].index
  {
    assert ReaderInv(Run(s0, schedule).shm, Run(s0, schedule).readers[r]);
  }

  // Between publishes, the memory of any run is the log window that ShmRing.Ring promises.
  lemma QuiescentWindow(s0: State, schedule: seq<Action>, i: nat)
    requires IsInit(s0) && Inv(s0)
    requires Run(s0, schedule).shm.producer == Idle
    ensures var m := Run(s0, schedule).shm;
            match StartRead(m, i)
            case Matched(_) =>
              && m.lens[i % m.n] <= m.cap
              && ShmRing.ReadLog(m.pubs, m.n, i) == ShmRing.Got(m.bytes[i % m.n][..m.lens[i % m.n]])
            case Missed(_) => ShmRing.ReadLog(m.pubs, m.n, i) == ShmRing.Lap(Resume(m.writeIndex, m.n))
            case _ => ShmRing.ReadLog(m.pubs, m.n, i) == ShmRing.NoFrame
  {
    var m := Run(s0, schedule).shm;
    SlotQuery(m, i);
    if m.seqs[i % m.n] == i + 1 {
      assert m.bytes[i % m.n][..m.lens[i % m.n]] == m.pubs[i];
    }
  }

  // ---------- Where the promises end ----------

  // Some run lets read(i) succeed with out, the publications begun being pubs, the memory
  // being initial at first, and the write index being edge at the second look at the sequence.
  ghost predicate Reaches(initial: seq<seq<Byte>>, cap: nat, pubs: seq<Frame>, i: nat, edge: nat, out: Frame,
                          s0: State, schedule: seq<Action>)
  {
    && IsInit(s0) && Inv(s0) && s0.shm.initial == initial && s0.shm.cap == cap && |s0.readers| > 0
    && var s := Run(s0, schedule);
       && s.shm.initial == initial && s.shm.pubs == pubs
       && s.readers[0].Returned? && s.readers[0].index == i && s.readers[0].result.ReadOk?
       && s.readers[0].result.out == out && s.readers[0].result.edge == edge
  }

  ghost predicate CanReturn(initial: seq<seq<Byte>>, cap: nat, pubs: seq<Frame>, i: nat, edge: nat, out: Frame) {
    exists s0: State, schedule: seq<Action> :: Reaches(initial, cap, pubs, i, edge, out, s0, schedule)
  }

  lemma RunSnoc(s0: State, schedule: seq<Action>, a: Action)
    requires Inv(s0)
    ensures Run(s0, schedule + [a]) == Step(Run(s0, schedule), a)
  {
    assert (schedule + [a])[..|schedule|] == schedule;
  }

  // The producer is copying pubs[writeIndex], the positions in done so far; readers stand where
  // they stood in s.
  ghost predicate Writing(s: State, s': State, done: set<nat>) {
    && s'.readers == s.readers
    && s'.shm.producer == Copying(done) && s'.shm.seqs == s.shm.seqs
    && s'.shm.writeIndex == s.shm.writeIndex && s'.shm.pubs == s.shm.pubs && s'.shm.initial == s.shm.initial
  }

  lemma CopyOne(s: State, s': State, done: set<nat>, k: nat)
    requires Inv(s') && Writing(s, s', done) && k < |s'.shm.pubs[s'.shm.writeIndex]|
    ensures Writing(s, Step(s', CopyByte(k)), done + {k})
  {
  }

  // The producer copies the bytes at the given positions.
  lemma {:induction false} CopyAll(s0: State, schedule: seq<Action>, ks: seq<nat>) returns (more: seq<Action>)
    requires Inv(s0)
    requires var m := Run(s0, schedule).shm;
             m.producer == Copying({}) && forall x :: 0 <= x < |ks| ==> ks[x] < |m.pubs[m.writeIndex]|
    ensures Writing(Run(s0, schedule), Run(s0, more), Elements(ks))
  {
    if ks == [] {
      more := schedule;
      assert Elements(ks) == {};
    } else {
      var (init, last) := (ks[..|ks| - 1], ks[|ks| - 1]);
      var before := CopyAll(s0, schedule, init);
      CopyOne(Run(s0, schedule), Run(s0, before), Elements(init), last);
      RunSnoc(s0, before, CopyByte(last));
      more := before + [CopyByte(last)];
      assert ks == init + [last];
      assert Elements(ks) == Elements(init) + {last};
    }
  }

  // The frames published one after the other, undisturbed.
  ghost predicate Published(s: State, s': State, frames: seq<Frame>) {
    && s'.readers == s.readers && s'.shm.initial == s.shm.initial
    && s'.shm.producer == Idle && s'.shm.writeIndex == |frames| && s'.shm.pubs == frames
  }

  function UpTo(n: nat): (ks: seq<nat>)
    ensures |ks| == n && forall x :: 0 <= x < n ==> ks[x] == x
  {
    seq(n, x requires 0 <= x < n => x)
  }

  // The producer begins a frame, up to and including the store of its length.
  lemma BeginFrame(s0: State, schedule: seq<Action>, frame: Frame)
    requires Inv(s0) && Run(s0, schedule).shm.producer == Idle && |frame| <= s0.shm.cap
    ensures var (s, s') := (Run(s0, schedule), Run(s0, schedule + [Begin(frame)] + [StoreLen]));
            Writing(s.(shm := s.shm.(pubs := s.shm.pubs + [frame])), s', {})
  {
    RunSnoc(s0, schedule, Begin(frame));
    RunSnoc(s0, schedule + [Begin(frame)], StoreLen);
  }

  lemma StoresSeq(m: Shared)
    requires Consistent(m) && m.producer.Copying?
    requires forall k :: 0 <= k < |m.pubs[m.writeIndex]| ==> k in m.producer.done
    ensures ProducerStep(m, StoreSeq) ==
            m.(producer := SeqStored, seqs := m.seqs[m.writeIndex % m.n := m.writeIndex + 1])
  {
  }

  lemma FinishFrame(s0: State, schedule: seq<Action>)
    requires Inv(s0) && Run(s0, schedule).shm.producer.Copying?
    requires var m := Run(s0, schedule).shm;
             forall k :: 0 <= k < |m.pubs[m.writeIndex]| ==> k in m.producer.done
    ensures var (s, s') := (Run(s0, schedule), Run(s0, schedule + [StoreSeq]));
            s' == s.(shm := s.shm.(producer := SeqStored,
                                   seqs := s.shm.seqs[s.shm.writeIndex % s.shm.n := s.shm.writeIndex + 1]))
  {
    StoresSeq(Run(s0, schedule).shm);
    RunSnoc(s0, schedule, StoreSeq);
  }

  lemma PublishOne(s0: State, schedule: seq<Action>, frames: seq<Frame>, frame: Frame) returns (more: seq<Action>)
    requires Inv(s0) && Published(s0, Run(s0, schedule), frames) && |frame| <= s0.shm.cap
    ensures Published(s0, Run(s0, more), frames + [frame])
  {
    BeginFrame(s0, schedule, frame);
    var x := CopyAll(s0, schedule + [Begin(frame)] + [StoreLen], UpTo(|frame|));
    forall k | 0 <= k < |frame| ensures k in Elements(UpTo(|frame|)) {
      assert UpTo(|frame|)[k] == k;
    }
    FinishFrame(s0, x);
    RunSnoc(s0, x + [StoreSeq], StoreIndex);
    more := x + [StoreSeq] + [StoreIndex];
  }

  lemma {:induction false} PublishAll(s0: State, frames: seq<Frame>) returns (schedule: seq<Action>)
    requires IsInit(s0) && Inv(s0) && forall x :: 0 <= x < |frames| ==> |frames[x]| <= s0.shm.cap
    ensures Published(s0, Run(s0, schedule), frames)
  {
    if frames == [] {
      schedule := [];
    } else {
      var (init, last) := (frames[..|frames| - 1], frames[|frames| - 1]);
      var before := PublishAll(s0, init);
      schedule := PublishOne(s0, before, init, last);
      assert frames == init + [last];
    }
  }

  // The reader side of a race: reader 0 fetches the first c bytes, the memory standing still.
  ghost predicate Fetched(s: State, i: nat, len: nat, c: nat) {
    && |s.readers| > 0 && Shape(s.shm) && s.readers[0].Fetching?
    && s.readers[0].index == i && s.readers[0].len == len <= s.shm.cap
    && (forall k: nat :: k in s.readers[0].got <==> k < c)
    && forall k: nat :: k < c && k < s.shm.cap ==>
         k in s.readers[0].got && s.readers[0].got[k] == s.shm.bytes[i % s.shm.n][k]
  }

  lemma FetchOne(s: State, i: nat, len: nat, c: nat)
    requires Inv(s) && Fetched(s, i, len, c) && c < len
    ensures Step(s, FetchByte(0, c)).shm == s.shm && Fetched(Step(s, FetchByte(0, c)), i, len, c + 1)
  {
  }

  lemma {:induction false} FetchAll(s0: State, schedule: seq<Action>, i: nat, len: nat, c: nat)
    returns (more: seq<Action>)
    requires Inv(s0) && Fetched(Run(s0, schedule), i, len, 0) && c <= len
    ensures Run(s0, more).shm == Run(s0, schedule).shm && Fetched(Run(s0, more), i, len, c)
  {
    if c == 0 {
      more := schedule;
    } else {
      var before := FetchAll(s0, schedule, i, len, c - 1);
      FetchOne(Run(s0, before), i, len, c - 1);
      RunSnoc(s0, before, FetchByte(0, c - 1));
      more := before + [FetchByte(0, c - 1)];
    }
  }

  // The slot of i still names i while publication i + n is written into it: the copied
  // positions have the new bytes, the others what publication i left.
  ghost predicate Racing(s: State, i: nat, next: Frame, done: set<nat>) {
    && Consistent(s.shm) && |s.readers| > 0
    && s.shm.writeIndex == i + s.shm.n && s.shm.producer == Copying(done)
    && s.shm.pubs[s.shm.writeIndex] == next
  }

  lemma RacingSlot(s: State, i: nat, next: Frame, done: set<nat>)
    requires SharedInv(s.shm) && Racing(s, i, next, done)
    ensures i % s.shm.n == s.shm.writeIndex % s.shm.n < s.shm.n
    ensures s.shm.seqs[i % s.shm.n] == i + 1 && s.shm.lens[i % s.shm.n] == |next|
  {
    SlotQuery(s.shm, i);
    OneRound(i, s.shm.n);
  }

  lemma RacingByte(s: State, i: nat, next: Frame, done: set<nat>, k: nat)
    requires SharedInv(s.shm) && Racing(s, i, next, done) && k < s.shm.cap
    ensures i % s.shm.n < s.shm.n && i < |s.shm.pubs|
    ensures k in done ==> k < |next| && s.shm.bytes[i % s.shm.n][k] == next[k]
    ensures k !in done ==> s.shm.bytes[i % s.shm.n][k] == Left(s.shm.initial, s.shm.pubs, i, k)
  {
    RacingSlot(s, i, next, done);
    SlotQuery(s.shm, i);
  }

  lemma RecheckAll(s: State, i: nat, len: nat, out: Frame)
    requires Consistent(s.shm) && Fetched(s, i, len, len) && i % s.shm.n < s.shm.n && s.shm.seqs[i % s.shm.n] == i + 1
    requires |out| == len && forall k :: 0 <= k < len ==> out[k] == s.shm.bytes[i % s.shm.n][k]
    ensures ReaderStep(s.shm, s.readers[0], Recheck(0)) ==
            Returned(i, ReadOk(out, s.shm.writeIndex, !s.shm.producer.Idle?))
  {
    var got := s.readers[0].got;
    assert seq(len, k requires 0 <= k < len => got[k]) == out;
  }

  // The reader then takes everything it finds and succeeds.
  lemma FinishRace(s0: State, schedule: seq<Action>, i: nat, next: Frame, done: set<nat>, out: Frame)
    returns (more: seq<Action>)
    requires Inv(s0) && Racing(Run(s0, schedule), i, next, done) && Fetched(Run(s0, schedule), i, |out|, 0)
    requires i % s0.shm.n < s0.shm.n
    requires forall k :: 0 <= k < |out| ==> out[k] == Run(s0, schedule).shm.bytes[i % s0.shm.n][k]
    ensures Run(s0, more).shm == Run(s0, schedule).shm
    ensures Run(s0, more).readers[0] == Returned(i, ReadOk(out, i + s0.shm.n, true))
  {
    var x := FetchAll(s0, schedule, i, |out|, |out|);
    RacingSlot(Run(s0, schedule), i, next, done);
    RecheckAll(Run(s0, x), i, |out|, out);
    RunSnoc(s0, x, Recheck(0));
    more := x + [Recheck(0)];
  }

  // The positions at which out agrees with next; a race that is to return out copies them.
  function Agreeing(out: Frame, next: Frame, c: nat): (ks: seq<nat>)
    requires c <= |out| && c <= |next|
    ensures forall k: nat :: k in ks <==> k < c && out[k] == next[k]
  {
    if c == 0 then []
    else Agreeing(out, next, c - 1) + if out[c - 1] == next[c - 1] then [c - 1] else []
  }

  // A quiet ring in which frames are published; i is the oldest retained.
  ghost predicate Quiet(m: Shared, initial: seq<seq<Byte>>, frames: seq<Frame>, i: nat) {
    m.initial == initial && m.producer == Idle && m.pubs == frames && m.writeIndex == |frames| == i + m.n
  }

  // All frames are published, and reader 0 has matched the slot of i, the oldest retained.
  ghost predicate AtOldest(s: State, initial: seq<seq<Byte>>, frames: seq<Frame>, i: nat) {
    Quiet(s.shm, initial, frames, i) && |s.readers| > 0 && s.readers[0] == Matched(i)
  }

  lemma MatchOldest(s0: State, frames: seq<Frame>, i: nat) returns (schedule: seq<Action>)
    requires IsInit(s0) && Inv(s0) && |s0.readers| > 0 && |frames| == i + s0.shm.n
    requires forall x :: 0 <= x < |frames| ==> |frames[x]| <= s0.shm.cap
    ensures AtOldest(Run(s0, schedule), s0.shm.initial, frames, i)
  {
    var x := PublishAll(s0, frames);
    SlotQuery(Run(s0, x).shm, i);
    RunSnoc(s0, x, LoadSeq(0, i));
    schedule := x + [LoadSeq(0, i)];
  }

  // The next publication has begun and its length is stored; the reader has loaded a length.
  ghost predicate AtRace(s: State, initial: seq<seq<Byte>>, frames: seq<Frame>, next: Frame, i: nat, len: nat) {
    && Racing(s, i, next, {}) && s.shm.pubs == frames + [next] && s.shm.initial == initial
    && Fetched(s, i, len, 0)
  }

  lemma FetchStarts(s: State, i: nat, len: nat)
    requires Shape(s.shm) && |s.readers| > 0 && s.readers[0] == Fetching(i, len, map[]) && len <= s.shm.cap
    ensures Fetched(s, i, len, 0)
  {
  }

  lemma LoadsLength(s0: State, schedule: seq<Action>, i: nat)
    requires Inv(s0) && |s0.readers| > 0 && Run(s0, schedule).readers[0] == Matched(i) && i % s0.shm.n < s0.shm.n
    ensures var (s, s') := (Run(s0, schedule), Run(s0, schedule + [LoadLen(0)]));
            s'.shm == s.shm && s'.readers[0] == Fetching(i, s.shm.lens[i % s.shm.n], map[])
  {
    RunSnoc(s0, schedule, LoadLen(0));
  }

  lemma WritingRaces(s: State, s': State, initial: seq<seq<Byte>>, frames: seq<Frame>, i: nat, next: Frame)
    requires Inv(s') && |s.readers| > 0 && s'.shm.n == s.shm.n && Quiet(s.shm, initial, frames, i)
    requires Writing(s.(shm := s.shm.(pubs := frames + [next])), s', {})
    ensures Racing(s', i, next, {}) && s'.shm.pubs == frames + [next] && s'.shm.initial == initial
  {
  }

  lemma RaceBegins(s0: State, schedule: seq<Action>, frames: seq<Frame>, i: nat, next: Frame)
    requires Inv(s0) && |next| <= s0.shm.cap && |s0.readers| > 0
    requires Quiet(Run(s0, schedule).shm, s0.shm.initial, frames, i)
    ensures var (s, s') := (Run(s0, schedule), Run(s0, schedule + [Begin(next)] + [StoreLen]));
            && s'.readers == s.readers && Racing(s', i, next, {})
            && s'.shm.pubs == frames + [next] && s'.shm.initial == s0.shm.initial
  {
    BeginFrame(s0, schedule, next);
    WritingRaces(Run(s0, schedule), Run(s0, schedule + [Begin(next)] + [StoreLen]), s0.shm.initial, frames, i, next);
  }

  lemma LoadEarly(s0: State, schedule: seq<Action>, frames: seq<Frame>, i: nat, next: Frame) returns (more: seq<Action>)
    requires Inv(s0) && AtOldest(Run(s0, schedule), s0.shm.initial, frames, i) && |next| <= s0.shm.cap
    ensures i < |frames| && AtRace(Run(s0, more), s0.shm.initial, frames, next, i, |frames[i]|)
  {
    SlotQuery(Run(s0, schedule).shm, i);
    LoadsLength(s0, schedule, i);
    var x := schedule + [LoadLen(0)];
    RaceBegins(s0, x, frames, i, next);
    more := x + [Begin(next)] + [StoreLen];
    FetchStarts(Run(s0, more), i, |frames[i]|);
  }

  lemma LoadLate(s0: State, schedule: seq<Action>, frames: seq<Frame>, i: nat, next: Frame) returns (more: seq<Action>)
    requires Inv(s0) && AtOldest(Run(s0, schedule), s0.shm.initial, frames, i) && |next| <= s0.shm.cap
    ensures AtRace(Run(s0, more), s0.shm.initial, frames, next, i, |next|)
  {
    RaceBegins(s0, schedule, frames, i, next);
    var x := schedule + [Begin(next)] + [StoreLen];
    RacingSlot(Run(s0, x), i, next, {});
    LoadsLength(s0, x, i);
    more := x + [LoadLen(0)];
    FetchStarts(Run(s0, more), i, |next|);
  }

  // From there every mix of the right length can be returned: the producer copies the
  // positions at which it agrees with the next frame, and the reader takes what it finds.
  lemma RaceTo(s0: State, schedule: seq<Action>, frames: seq<Frame>, i: nat, next: Frame, out: Frame)
    returns (more: seq<Action>)
    requires Inv(s0) && AtRace(Run(s0, schedule), s0.shm.initial, frames, next, i, |out|)
    requires MixOf(s0.shm.initial, s0.shm.cap, frames + [next], i, out) && i + s0.shm.n == |frames|
    ensures Run(s0, more).shm.pubs == frames + [next] && Run(s0, more).shm.initial == s0.shm.initial
    ensures Run(s0, more).readers[0] == Returned(i, ReadOk(out, |frames|, true))
  {
    var c := if |out| <= |next| then |out| else |next|;
    var ks := Agreeing(out, next, c);
    assert forall x :: 0 <= x < |ks| ==> ks[x] in ks;
    var x := CopyAll(s0, schedule, ks);
    var s := Run(s0, x);
    RacingSlot(s, i, next, Elements(ks));
    forall k | 0 <= k < |out| ensures out[k] == s.shm.bytes[i % s0.shm.n][k] {
      RacingByte(s, i, next, Elements(ks), k);
      assert ByteOf(s0.shm.initial, frames + [next], i, k, out[k]);
    }
    more := FinishRace(s0, x, i, next, Elements(ks), out);
  }

  function Fresh(initial: seq<seq<Byte>>, cap: nat): (s: State)
    requires Memory(initial, |initial|, cap)
    ensures IsInit(s) && Inv(s) && |s.readers| == 1
    ensures s.shm.initial == initial && s.shm.n == |initial| && s.shm.cap == cap
  {
    var (n, zeros) := (|initial|, seq(|initial|, _ => 0));
    var s := State(Shared(n, cap, zeros, zeros, initial, 0, Idle, initial, []), [Ready]);
    InitInv(s);
    s
  }

  // What a successful read of the oldest retained frame can return while the next publication
  // is on its way into its slot: the mixes, all of them, and nothing else.
  lemma OkReadsAreMixes(initial: seq<seq<Byte>>, cap: nat, frames: seq<Frame>, next: Frame, i: nat, out: Frame)
    requires Memory(initial, |initial|, cap) && |frames| == i + |initial|
    requires |next| <= cap && forall x :: 0 <= x < |frames| ==> |frames[x]| <= cap
    ensures CanReturn(initial, cap, frames + [next], i, |frames|, out) <==> MixOf(initial, cap, frames + [next], i, out)
  {
    if CanReturn(initial, cap, frames + [next], i, |frames|, out) {
      var s0: State, schedule: seq<Action> :| Reaches(initial, cap, frames + [next], i, |frames|, out, s0, schedule);
      OkReadMixes(s0, schedule, 0);
    }
    if MixOf(initial, cap, frames + [next], i, out) {
      var s0 := Fresh(initial, cap);
      var x := MatchOldest(s0, frames, i);
      var y;
      if |out| == |next| {
        y := LoadLate(s0, x, frames, i, next);
      } else {
        y := LoadEarly(s0, x, frames, i, next);
      }
      var z := RaceTo(s0, y, frames, i, next, out);
      assert Reaches(initial, cap, frames + [next], i, |frames|, out, s0, z);
    }
  }

  // ---------- The exact conditions ----------

  // Memory and publications all alike.
  function Blank(n: nat, cap: nat, b: Byte): (r: seq<seq<Byte>>)
    requires n > 0
    ensures |r| == n && Memory(r, n, cap) && forall j, k :: 0 <= j < n && 0 <= k < cap ==> r[j][k] == b
  {
    seq(n, _ => Repeat(b, cap))
  }

  function Repeat(b: Byte, len: nat): (r: Frame)
    ensures |r| == len && forall k :: 0 <= k < len ==> r[k] == b
  {
    seq(len, _ => b)
  }

  // A run in which read(i) succeeds with a frame that was not published at i.
  lemma TornRead(n: nat, cap: nat, i: nat)
    requires n > 0 && cap > 0
    ensures var frames := seq(i + n, _ => [0]);
            frames[i] == [0] && CanReturn(Blank(n, cap, 0), cap, frames + [[1]], i, i + n, [1])
  {
    var frames: seq<Frame> := seq(i + n, _ => [0]);
    OkReadsAreMixes(Blank(n, cap, 0), cap, frames, [1], i, [1]);
  }

  // A run in which three publications take part: the length is that of publication i + n, the
  // first byte of publication i, and the second, behind the end of i, of publication i - n.
  lemma ThirdPublication(n: nat, cap: nat, i: nat)
    requires 0 < n <= i && cap >= 2
    ensures var frames := seq(i + n, q => if q == i then [5] else [9, 9]);
            && frames[i - n] == [9, 9] && frames[i] == [5]
            && CanReturn(Blank(n, cap, 0), cap, frames + [[7, 7]], i, i + n, [5, 9])
  {
    var frames: seq<Frame> := seq(i + n, q => if q == i then [5] else [9, 9]);
    var (initial, pubs) := (Blank(n, cap, 0), frames + [[7, 7]]);
    assert pubs[i] == [5] && pubs[i - n] == [9, 9];
    assert Left(initial, pubs, i - n, 1) == 9;
    assert Left(initial, pubs, i, 1) == 9 && Left(initial, pubs, i, 0) == 5;
    OkReadsAreMixes(initial, cap, frames, [7, 7], i, [5, 9]);
  }

  // Of the write indices a successful read of i can see, exactly those below i + n
  // guarantee the frame published at i.
  lemma ExactnessGuard(n: nat, cap: nat, i: nat, edge: nat)
    requires n > 0 && cap > 0 && i <= edge <= i + n
    ensures (forall initial, pubs, out :: Memory(initial, n, cap) && CanReturn(initial, cap, pubs, i, edge, out) ==>
               i < |pubs| && out == pubs[i]) <==> edge < i + n
  {
    if edge < i + n {
      forall initial, pubs, out | Memory(initial, n, cap) && CanReturn(initial, cap, pubs, i, edge, out)
        ensures i < |pubs| && out == pubs[i]
      {
        ReachedIsExact(initial, cap, pubs, i, edge, out);
      }
    } else {
      var frames: seq<Frame> := seq(i + n, _ => [0]);
      TornRead(n, cap, i);
      assert CanReturn(Blank(n, cap, 0), cap, frames + [[1]], i, edge, [1]);
      assert (frames + [[1]])[i] == [0];
    }
  }

  lemma ReachedIsExact(initial: seq<seq<Byte>>, cap: nat, pubs: seq<Frame>, i: nat, edge: nat, out: Frame)
    requires CanReturn(initial, cap, pubs, i, edge, out) && edge < i + |initial|
    ensures i < |pubs| && out == pubs[i]
  {
    var s0: State, schedule: seq<Action> :| Reaches(initial, cap, pubs, i, edge, out, s0, schedule);
    OkReadIsExact(s0, schedule, 0);
  }

  lemma ReachedIsMix(initial: seq<seq<Byte>>, cap: nat, pubs: seq<Frame>, i: nat, edge: nat, out: Frame)
    requires CanReturn(initial, cap, pubs, i, edge, out)
    ensures Memory(initial, |initial|, cap) && MixOf(initial, cap, pubs, i, out)
  {
    var s0: State, schedule: seq<Action> :| Reaches(initial, cap, pubs, i, edge, out, s0, schedule);
    OkReadMixes(s0, schedule, 0);
  }

  // Every byte returned is, at its position, one of publication i or of publication i + n.
  predicate OfTwo(pubs: seq<Frame>, n: nat, i: nat, out: Frame)
    requires i < |pubs|
  {
    forall k :: 0 <= k < |out| ==>
      || (k < |pubs[i]| && out[k] == pubs[i][k])
      || (i + n < |pubs| && k < |pubs[i + n]| && out[k] == pubs[i + n][k])
  }

  // Every successful read of i that saw this edge and returned len bytes, publication i having
  // own bytes, is made of publications i and i + n alone.
  ghost predicate AlwaysOfTwo(n: nat, cap: nat, i: nat, edge: nat, own: nat, len: nat) {
    forall initial, pubs, out ::
      (Memory(initial, n, cap) && CanReturn(initial, cap, pubs, i, edge, out) && |out| == len
       && i < |pubs| && |pubs[i]| == own) ==> OfTwo(pubs, n, i, out)
  }

  lemma {:induction false} LeftOfBlank(n: nat, cap: nat, pubs: seq<Frame>, i: nat, k: nat)
    requires n > 0 && k < cap && i < |pubs|
    requires forall q, x :: 0 <= q <= i && 0 <= x < |pubs[q]| ==> pubs[q][x] == 0
    ensures Left(Blank(n, cap, 0), pubs, i, k) == 0
    decreases i
  {
    if k < |pubs[i]| || i < n {
    } else {
      LeftOfBlank(n, cap, pubs, i - n, k);
    }
  }

  // All publications but the last are zeros, and the last, longer than publication i, is ones:
  // the reader can return nothing but zeros, some from where neither reaches.
  lemma BeyondBoth(n: nat, cap: nat, i: nat, own: nat, len: nat)
    requires n > 0 && own < len <= cap
    ensures !AlwaysOfTwo(n, cap, i, i + n, own, len)
  {
    var frames: seq<Frame> := seq(i + n, _ => Repeat(0, own));
    var (initial, next, out) := (Blank(n, cap, 0), Repeat(1, len), Repeat(0, len));
    var pubs := frames + [next];
    forall k | 0 <= k < len ensures ByteOf(initial, pubs, i, k, out[k]) {
      LeftOfBlank(n, cap, pubs, i, k);
    }
    OkReadsAreMixes(initial, cap, frames, next, i, out);
    assert out[own] == 0 && pubs[i + n][own] == 1 && |pubs[i]| == own;
    assert !OfTwo(pubs, n, i, out);
  }

  // Two publications suffice exactly where the edge rules a race out or the length returned
  // does not go beyond publication i.
  lemma TwoPublications(n: nat, cap: nat, i: nat, edge: nat, own: nat, len: nat)
    requires n > 0 && i <= edge <= i + n && own <= cap && len <= cap
    ensures AlwaysOfTwo(n, cap, i, edge, own, len) <==> edge < i + n || len <= own
  {
    if edge < i + n || len <= own {
      forall initial, pubs, out |
        Memory(initial, n, cap) && CanReturn(initial, cap, pubs, i, edge, out) && |out| == len
        && i < |pubs| && |pubs[i]| == own
        ensures OfTwo(pubs, n, i, out)
      {
        if edge < i + n {
          ReachedIsExact(initial, cap, pubs, i, edge, out);
        } else {
          ReachedIsMix(initial, cap, pubs, i, edge, out);
          forall k | 0 <= k < |out| ensures ByteOf(initial, pubs, i, k, out[k]) {
          }
        }
      }
    } else {
      BeyondBoth(n, cap, i, own, len);
    }
  }

  // Some run answers read(i) with kLapped and sends the reader back to i itself: it
  // matched, found the sequence changed, and loaded the edge between the last two stores.
  lemma LapWithoutProgress(n: nat, cap: nat, i: nat) returns (s0: State, schedule: seq<Action>)
    requires n > 0
    ensures IsInit(s0) && Inv(s0) && s0.shm.n == n && s0.shm.cap == cap && |s0.readers| == 1
    ensures Run(s0, schedule).readers[0] == Returned(i, ReadLapped(i, i + n, true))
  {
    s0 := Fresh(Blank(n, cap, 0), cap);
    var frames: seq<Frame> := seq(i + n, _ => []);
    var x := MatchOldest(s0, frames, i);
    var y := LoadEarly(s0, x, frames, i, []);
    RacingSlot(Run(s0, y), i, [], {});
    FinishFrame(s0, y);
    schedule := MissAndLap(s0, y + [StoreSeq], i);
  }

  lemma MissAndLap(s0: State, schedule: seq<Action>, i: nat) returns (more: seq<Action>)
    requires Inv(s0) && |s0.readers| == 1
    requires var s := Run(s0, schedule);
             && s.readers[0].Fetching? && s.readers[0].index == i && s.readers[0].len == 0
             && i % s.shm.n < s.shm.n && s.shm.seqs[i % s.shm.n] == i + s.shm.n + 1
             && s.shm.writeIndex == i + s.shm.n && s.shm.producer == SeqStored
    ensures Run(s0, more).readers[0] == Returned(i, ReadLapped(i, i + s0.shm.n, true))
  {
    RunSnoc(s0, schedule, Recheck(0));
    var x := schedule + [Recheck(0)];
    assert Run(s0, x) == State(Run(s0, schedule).shm, [Missed(i)]);
    RunSnoc(s0, x, LoadEdge(0));
    more := x + [LoadEdge(0)];
  }
}
