/** Assembles the canonical image of a Data packet in place: a 22-byte header followed by
    the concatenation of whole source frames. */
module PacketBuilder {
  import opened Bytes
  import opened Messages
  import opened SenderReader

  const DATA_HEADER_SIZE := 22
  const MAGIC := 0x4c4c_4454
  const PROTOCOL_VERSION := 1

  function HeaderImage(dataSeq: nat, recordCount: nat): (h: seq<Byte>)
    ensures |h| == DATA_HEADER_SIZE
  {
    ToBE(MAGIC, 4) + ToBE(PROTOCOL_VERSION, 1) + ToBE(DATA_HEADER_SIZE, 2)
    + ToBE(dataSeq, 8) + ToBE(recordCount, 2) + [0, 0, 0, 0, 0]
  }

  // record_count is a 16-bit field.
  function Canonical(dataSeq: nat, fs: seq<Frame>): seq<Byte> {
    HeaderImage(dataSeq, |fs| % 0x1_0000) + Concat(fs)
  }

  const SIZE_T: nat := 0x1_0000_0000_0000_0000

  // Subtraction of size_t values: it wraps.
  function Minus(a: nat, b: nat): nat {
    if a >= b then a - b else (a - b) % SIZE_T
  }

  // The constructor subtracts without looking: it gets the room that is left exactly when
  // the frame fits, and otherwise more room than there ever was.
  lemma UncheckedCapacity(capacity: nat, size: nat)
    requires capacity < SIZE_T && size < 0x1_0000_0000
    ensures var r := Minus(Minus(capacity, DATA_HEADER_SIZE), size);
            && (r == capacity - DATA_HEADER_SIZE - size <==> DATA_HEADER_SIZE + size <= capacity)
            && (DATA_HEADER_SIZE + size <= capacity <==> r <= capacity)
  {
  }

  // 1450 bytes hold at most 60 validated frames, so record_count never wraps.
  lemma AtMostSixty(p: Profile, fs: seq<Frame>)
    requires AllValid(p, fs) && DATA_HEADER_SIZE + |Concat(fs)| <= 1472
    ensures |fs| <= 60
  {
    ConcatLength(p, fs);
  }

  class RawDataPacketBuilder {
    const output: array<Byte>
    const origin: nat
    ghost const capacity: nat
    var writePos: nat
    var remaining: nat
    const dataSeq: nat
    var recordCount: nat
    ghost var frames: seq<Frame>

    ghost predicate Valid()
      reads this, output
    {
      && origin + capacity <= output.Length && DATA_HEADER_SIZE <= capacity < SIZE_T
      && writePos + remaining == origin + capacity
      && writePos == origin + DATA_HEADER_SIZE + |Concat(frames)|
      && output[origin + DATA_HEADER_SIZE..writePos] == Concat(frames)
      && recordCount == |frames| % 0x1_0000
    }

    // The packet starts at output[start..]; the source asks that the first frame fit.
    constructor (out: array<Byte>, start: nat, cap: nat, number: nat, first: View)
      requires start + cap <= out.Length && cap < SIZE_T
      requires first.size <= first.data.Length && first.data != out
      requires DATA_HEADER_SIZE + first.size <= cap
      modifies out
      ensures Valid() && output == out && origin == start && capacity == cap && dataSeq == number
      ensures frames == [first.data[..first.size]]
      ensures out[..start] == old(out[..start])
    {
      output := out;
      origin := start;
      capacity := cap;
      writePos := start + DATA_HEADER_SIZE + first.size;
      remaining := Minus(Minus(cap, DATA_HEADER_SIZE), first.size);
      dataSeq := number;
      recordCount := 1;
      ghost var bytes: Frame := first.data[..first.size];
      frames := [bytes];
      new;
      forall k | 0 <= k < first.size {
        out[start + DATA_HEADER_SIZE + k] := first.data[k];
      }
      ConcatOne(bytes);
      assert out[start + DATA_HEADER_SIZE..start + DATA_HEADER_SIZE + first.size] == bytes;
      assert first.data[..first.size] == bytes;
    }

    // memcpy(write_pos_, frame.data, frame.frame_size)
    method CopyIn(frame: View, ghost bytes: Frame)
      requires writePos + frame.size <= output.Length && frame.data != output
      requires frame.size <= frame.data.Length && bytes == frame.data[..frame.size]
      modifies output
      ensures output[..writePos] == old(output[..writePos])
      ensures output[writePos..writePos + |bytes|] == bytes
    {
      forall k | 0 <= k < frame.size {
        output[writePos + k] := frame.data[k];
      }
    }

    // What has been written up to pos, and what it was before the last copy.
    static lemma Extend(before: seq<Byte>, after: seq<Byte>, start: nat, pos: nat, bytes: seq<Byte>)
      requires start <= pos && pos + |bytes| <= |before| == |after|
      requires after[..pos] == before[..pos] && after[pos..pos + |bytes|] == bytes
      ensures after[start..pos + |bytes|] == before[start..pos] + bytes
      ensures after[..start] == before[..start]
    {
      assert after[start..pos] == after[..pos][start..] == before[..pos][start..] == before[start..pos];
      assert after[start..pos + |bytes|] == after[start..pos] + after[pos..pos + |bytes|];
      assert after[..start] == after[..pos][..start] == before[..pos][..start];
    }

    // memcpy and the cursors, for a frame that fits.
    method Append(frame: View)
      requires Valid() && frame.size <= remaining
      requires frame.size <= frame.data.Length && frame.data != output
      modifies this, output
      ensures Valid() && frames == old(frames) + [old(frame.data[..frame.size])]
      ensures output[..origin] == old(output[..origin])
    {
      ghost var bytes: Frame := frame.data[..frame.size];
      ghost var before := output[..];
      CopyIn(frame, bytes);
      Extend(before, output[..], origin + DATA_HEADER_SIZE, writePos, bytes);
      Extend(before, output[..], origin, writePos, bytes);
      ConcatSnoc(frames, bytes);
      writePos := writePos + frame.size;
      remaining := remaining - frame.size;
      recordCount := (recordCount + 1) % 0x1_0000;
      frames := frames + [bytes];
    }

    method TryAppend(frame: View) returns (ok: bool)
      requires Valid()
      requires frame.size <= frame.data.Length && frame.data != output
      modifies this, output
      ensures Valid()
      ensures ok <==> DATA_HEADER_SIZE + |Concat(old(frames))| + frame.size <= capacity
      ensures frames == if ok then old(frames) + [old(frame.data[..frame.size])] else old(frames)
      ensures !ok ==> output[..] == old(output[..])
      ensures output[..origin] == old(output[..origin])
    {
      ok := frame.size <= remaining;
      if ok {
        Append(frame);
      }
    }

    static method Put(output: array<Byte>, origin: nat, offset: nat, value: nat, size: nat)
      returns (next: nat)
      requires origin + offset + size <= output.Length
      modifies output
      ensures next == offset + size
      ensures output[origin..origin + next] == old(output[origin..origin + offset]) + ToBE(value, size)
      ensures output[..origin] == old(output[..origin])
      ensures forall k :: origin + next <= k < output.Length ==> output[k] == old(output[k])
    {
      ghost var was := output[..];
      var written := WriteBE(output, origin + offset, value, size);
      next := offset + written;
      ghost var pos := origin + offset;
      assert output[..pos] == was[..pos];
      assert output[origin..pos] == output[..pos][origin..] == was[..pos][origin..] == was[origin..pos];
      assert output[..origin] == output[..pos][..origin] == was[..pos][..origin];
      assert output[origin..origin + next] == output[origin..pos] + output[pos..pos + size];
      forall k | pos + size <= k < output.Length ensures output[k] == was[k] {
        assert output[k] == output[pos + size..][k - pos - size];
        assert was[k] == was[pos + size..][k - pos - size];
      }
    }

    static method PutFields(output: array<Byte>, origin: nat, dataSeq: nat, recordCount: nat)
      returns (offset: nat)
      requires origin + DATA_HEADER_SIZE <= output.Length
      modifies output
      ensures offset == 17
      ensures output[origin..origin + 17] + [0, 0, 0, 0, 0] == HeaderImage(dataSeq, recordCount)
      ensures output[..origin] == old(output[..origin])
      ensures forall k :: origin + DATA_HEADER_SIZE <= k < output.Length ==> output[k] == old(output[k])
    {
      offset := Put(output, origin, 0, MAGIC, 4);
      assert output[origin..origin + 4] == ToBE(MAGIC, 4);
      offset := Put(output, origin, offset, PROTOCOL_VERSION, 1);
      offset := Put(output, origin, offset, DATA_HEADER_SIZE, 2);
      offset := Put(output, origin, offset, dataSeq, 8);
      offset := Put(output, origin, offset, recordCount, 2);
    }

    static method WriteLLDTHeader(output: array<Byte>, origin: nat, dataSeq: nat, recordCount: nat)
      requires origin + DATA_HEADER_SIZE <= output.Length
      modifies output
      ensures output[origin..origin + DATA_HEADER_SIZE] == HeaderImage(dataSeq, recordCount)
      ensures output[..origin] == old(output[..origin])
      ensures forall k :: origin + DATA_HEADER_SIZE <= k < output.Length ==> output[k] == old(output[k])
    {
      var offset := PutFields(output, origin, dataSeq, recordCount);
      ghost var fields := output[origin..origin + offset];
      ghost var zeros: seq<Byte> := [];
      for i := 0 to 5
        invariant offset == 17 + i
        invariant zeros == seq(i, _ => 0)
        invariant output[origin..origin + offset] == fields + zeros
        invariant output[..origin] == old(output[..origin])
        invariant forall k :: origin + DATA_HEADER_SIZE <= k < output.Length ==> output[k] == old(output[k])
      {
        offset := Put(output, origin, offset, 0, 1);
        assert ToBE(0, 1) == [0];
        zeros := zeros + [0];
      }
      assert zeros == [0, 0, 0, 0, 0];
    }

    method Finalize() returns (packetSize: nat, records: nat)
      requires Valid()
      modifies output
      ensures Valid()
      ensures packetSize == DATA_HEADER_SIZE + |Concat(frames)| <= capacity
      ensures records == |frames| % 0x1_0000
      ensures output[origin..origin + packetSize] == Canonical(dataSeq, frames)
      ensures output[..origin] == old(output[..origin])
    {
      ghost var payload := output[origin + DATA_HEADER_SIZE..writePos];
      WriteLLDTHeader(output, origin, dataSeq, recordCount);
      assert output[origin + DATA_HEADER_SIZE..writePos] == payload;
      packetSize := writePos - origin;
      records := recordCount;
      assert output[origin..writePos]
          == output[origin..origin + DATA_HEADER_SIZE] + output[origin + DATA_HEADER_SIZE..writePos];
    }
  }

  // build_canonical: one frame, with the check the constructor leaves out.
  method BuildCanonical(output: array<Byte>, origin: nat, capacity: nat, dataSeq: nat, frame: View)
    returns (size: Option<nat>)
    requires origin + capacity <= output.Length && capacity < SIZE_T
    requires frame.size <= frame.data.Length && frame.data != output
    modifies output
    ensures size.Some? <==> DATA_HEADER_SIZE + frame.size <= capacity
    ensures size.Some? ==>
              && size.value == DATA_HEADER_SIZE + frame.size
              && output[origin..origin + size.value] == Canonical(dataSeq, [frame.data[..frame.size]])
    ensures size.None? ==> output[..] == old(output[..])
  {
    if capacity < DATA_HEADER_SIZE + frame.size {
      return None;
    }
    var builder := new RawDataPacketBuilder(output, origin, capacity, dataSeq, frame);
    ghost var bytes := frame.data[..frame.size];
    ConcatOne(bytes);
    var n, _ := builder.Finalize();
    size := Some(n);
  }
}
