/** The shared-memory broadcast ring between publishes: one producer, slots reused modulo
    a power of two, and a reader that finds out from the slot sequence that it was lapped.
    RingProtocol.dfy has the same ring with its accesses interleaved. */
module ShmRing {
  import opened Bits
  import opened Bytes

  datatype Status = Ok | Empty | Lapped

  datatype ReadOutcome =
    | Got(frame: seq<Byte>)
    | NoFrame
    | Lap(resume: nat)

  // The ring as an append-only log of which a reader sees the last n entries.
  function ReadLog(log: seq<seq<Byte>>, n: nat, i: nat): ReadOutcome {
    if i >= |log| then NoFrame
    else if |log| <= i + n then Got(log[i])
    else Lap(|log| - n)
  }

  // A lapped reader moves forward, skips only entries it can no longer get, and the
  // read at the position it was given succeeds.
  lemma ResumeSucceeds(log: seq<seq<Byte>>, n: nat, i: nat)
    requires n > 0 && ReadLog(log, n, i).Lap?
    ensures var r := ReadLog(log, n, i).resume;
            && i < r < |log|
            && ReadLog(log, n, r) == Got(log[r])
            && forall k :: i <= k < r ==> ReadLog(log, n, k).Lap?
  {
  }

  class Ring {
    const slotCount: nat
    const frameCap: nat
    const mask: nat
    const seqs: array<nat>
    const lens: array<nat>
    const frames: array2<Byte>
    var writeIndex: nat
    ghost var log: seq<seq<Byte>>

    ghost predicate Shape()
    {
      && IsPowerOfTwo(slotCount) && mask == slotCount - 1
      && seqs.Length == lens.Length == frames.Length0 == slotCount
      && frames.Length1 == frameCap
      && seqs != lens
    }

    // Slot j holds entry i of the log, and its sequence says so.
    ghost predicate Holds(j: nat, i: nat)
      requires Shape() && j < slotCount && i < |log|
      reads this, seqs, lens, frames
    {
      && seqs[j] == i + 1
      && lens[j] == |log[i]| <= frameCap
      && forall k :: 0 <= k < |log[i]| ==> frames[j, k] == log[i][k]
    }

    ghost predicate SlotValid(j: nat)
      requires Shape() && j < slotCount
      reads this, seqs, lens, frames
    {
      if seqs[j] == 0 then j >= |log|
      else
        var i := seqs[j] - 1;
        i < |log| <= i + slotCount && i % slotCount == j && Holds(j, i)
    }

    ghost predicate Valid()
      reads this, seqs, lens, frames
    {
      && Shape()
      && writeIndex == |log|
      && forall j :: 0 <= j < slotCount ==> SlotValid(j)
    }

    // attach(base, slots, init = true) on a mapping of the right size.
    constructor (slots: nat, cap: nat)
      requires IsPowerOfTwo(slots)
      ensures Valid() && log == [] && slotCount == slots && frameCap == cap
      ensures fresh(seqs) && fresh(lens) && fresh(frames)
    {
      slotCount := slots;
      frameCap := cap;
      mask := slots - 1;
      seqs := new nat[slots];
      lens := new nat[slots];
      frames := new Byte[slots, cap];
      writeIndex := 0;
      log := [];
      new;
      for i := 0 to slots
        invariant Shape() && log == [] && writeIndex == 0
        invariant forall j :: 0 <= j < i ==> seqs[j] == 0
      {
        seqs[i] := 0;
      }
    }

    lemma SlotOf(i: nat)
      requires Shape()
      ensures And(i, mask) == i % slotCount < slotCount
    {
      MaskIsModulo(i, slotCount);
    }

    // publish(frame, len) with the frame at src[off..].
    method Publish(src: array<Byte>, off: nat, len: nat)
      requires Valid()
      requires off + len <= src.Length && len <= frameCap
      requires src as object != seqs && src as object != lens
      modifies this`writeIndex, this`log, seqs, lens, frames
      ensures Valid()
      ensures log == old(log) + [old(src[off..off + len])]
    {
      var idx := writeIndex;
      var j := And(idx, mask);
      SlotOf(idx);
      ghost var frame := src[off..off + len];
      lens[j] := len;
      forall k | 0 <= k < len {
        frames[j, k] := src[off + k];
      }
      seqs[j] := idx + 1;
      writeIndex := idx + 1;

      log := log + [frame];
      assert Holds(j, idx);
      forall i | 0 <= i < slotCount ensures SlotValid(i) {
        if i != j {
          assert old(SlotValid(i));
          if old(seqs[i]) > 0 {
            SameSlot(old(seqs[i]) - 1, idx, slotCount);
          } else if i == idx {
            ModUnique(idx, slotCount, 0, idx);
          }
        }
      }
    }

    method LiveEdge() returns (edge: nat)
      requires Valid()
      ensures edge == |log|
    {
      edge := writeIndex;
    }

    lemma SlotAnswers(i: nat)
      requires Valid()
      ensures i % slotCount < slotCount
      ensures seqs[i % slotCount] < i + 1 <==> i >= |log|
      ensures seqs[i % slotCount] == i + 1 <==> i < |log| <= i + slotCount
      ensures seqs[i % slotCount] == i + 1 ==> Holds(i % slotCount, i)
    {
      var j := i % slotCount;
      SlotOf(i);
      assert SlotValid(j);
      if seqs[j] == 0 {
        FirstRound(i, slotCount);
      } else {
        NewestInSlot(seqs[j] - 1, i, |log|, slotCount);
      }
    }

    // read(read_index, out, &out_len, &resume_at): the out-parameters that the source leaves
    // alone are 0 here. Nothing runs between the copy and the second look at the sequence;
    // RingProtocol has the branch in which that look fails.
    method Read(readIndex: nat, out: array<Byte>) returns (status: Status, len: nat, resume: nat)
      requires Valid() && out.Length >= frameCap
      requires out as object != seqs && out as object != lens
      modifies out
      ensures Valid() && len <= frameCap
      ensures match ReadLog(log, slotCount, readIndex)
              case Got(frame) => status == Ok && len == |frame| && out[..len] == frame
              case NoFrame => status == Empty
              case Lap(r) => status == Lapped && resume == r
      ensures status == Ok ==> out[len..] == old(out[len..])
      ensures status != Ok ==> out[..] == old(out[..])
    {
      len, resume := 0, 0;
      var j := And(readIndex, mask);
      SlotOf(readIndex);
      SlotAnswers(readIndex);
      var sequence := seqs[j];
      var want := readIndex + 1;
      if sequence < want {
        return Empty, 0, 0;
      }
      if sequence > want {
        var edge := LiveEdge();
        if edge > slotCount {
          resume := edge - slotCount;
        }
        return Lapped, 0, resume;
      }
      len := lens[j];
      forall k | 0 <= k < len {
        out[k] := frames[j, k];
      }
      assert seqs[j] == want;
      return Ok, len, 0;
    }
  }
}
