/** Republishes the records of an accepted packet on the output ring. */
module ReceiverWriter {
  import opened Bytes
  import opened Messages
  import opened ShmRing
  import opened PacketBuilder

  lemma TailSlices(content: seq<Byte>, frame: nat, k: nat)
    requires frame + k <= |content|
    ensures content[frame..][..k] == content[frame..frame + k]
    ensures content[frame..][k..] == content[frame + k..]
  {
  }

  // rest is what the walk still finds from position frame on.
  ghost predicate Ahead(p: Profile, content: seq<Byte>, frame: int, rest: seq<Frame>) {
    0 <= frame <= |content| && Walk(p, content[frame..], |rest|) == Some(rest)
  }

  // One record: the header tells how much to publish.
  method PublishRecord(p: Profile, ring: Ring, data: array<Byte>, frame: nat,
                       ghost content: seq<Byte>, ghost rest: seq<Frame>)
    returns (size: nat)
    requires ring.Valid() && ring.frameCap == MaxFrame(p)
    requires data as object != ring.seqs && data as object != ring.lens
    requires data[..] == content && rest != [] && Ahead(p, content, frame, rest)
    modifies ring`writeIndex, ring`log, ring.seqs, ring.lens, ring.frames
    ensures ring.Valid() && data[..] == content
    ensures ring.log == old(ring.log) + [rest[0]]
    ensures Ahead(p, content, frame + size, rest[1..])
  {
    ghost var tail := content[frame..];
    WalkStep(p, tail, |rest|);
    TailSlices(content, frame, HEADER_SIZE);
    var header := data[frame..frame + HEADER_SIZE];
    assert header == tail[..HEADER_SIZE];
    size := FrameSize(p, header);
    TailSlices(content, frame, size);
    assert data[frame..frame + size] == content[frame..frame + size];
    ring.Publish(data, frame, size);
  }

  // The packet is in the buffer data, from start on. The walk may go on behind the packet, but
  // must stay inside the buffer and find frames that fit a slot; nothing checks that.
  method Write(p: Profile, ring: Ring, data: array<Byte>, start: nat, recordCount: nat)
    requires ring.Valid() && ring.frameCap == MaxFrame(p)
    requires data as object != ring.seqs && data as object != ring.lens
    requires start + DATA_HEADER_SIZE <= data.Length
    requires Walk(p, data[start + DATA_HEADER_SIZE..], recordCount).Some?
    modifies ring`writeIndex, ring`log, ring.seqs, ring.lens, ring.frames
    ensures ring.Valid() && data[..] == old(data[..])
    ensures ring.log == old(ring.log) + old(Walk(p, data[start + DATA_HEADER_SIZE..], recordCount).value)
  {
    ghost var content := data[..];
    var frame := start + DATA_HEADER_SIZE;
    assert content[frame..] == data[frame..];
    ghost var rest := Walk(p, content[frame..], recordCount).value;
    ghost var target := ring.log + rest;
    var i := 0;
    while i < recordCount
      invariant 0 <= i <= recordCount && |rest| == recordCount - i
      invariant ring.Valid() && data[..] == content
      invariant Ahead(p, content, frame, rest)
      invariant ring.log + rest == target
    {
      ghost var log := ring.log;
      var size := PublishRecord(p, ring, data, frame, content, rest);
      assert (log + [rest[0]]) + rest[1..] == log + rest;
      frame := frame + size;
      rest := rest[1..];
      i := i + 1;
    }
  }
}
