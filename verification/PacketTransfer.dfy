/**
 * Packet mode end to end (common/crypto/auth.go): packets written, sent over a cut-up wire, and read back one
 * to a buffer.
 */
module PacketTransfers {
  import opened Basics
  import opened Codecs
  import opened AuthStream
  import opened AuthWriters
  import opened AuthReaders
  import opened BufferedReaders
  import MultiBuffers

  /** A packet write the writer accepts: some content, in fewer buffers than its slice limit. */
  predicate Sendable(mb: MultiBuffer) {
    !MultiBuffers.IsEmpty(mb) && |mb| + 1 <= 64 * 1024 * 1024
  }

  /** Runs the packet writes and the closing empty write. */
  method WritePackets(k: Codec, h: Hidden, writes: seq<MultiBuffer>)
    returns (out: seq<Bytes>, ghost frames: seq<Bytes>, ghost end: Bytes)
    requires Sound(k, h) && forall i :: 0 <= i < |writes| ==> Sendable(writes[i])
    ensures out == frames + [end] && PacketsFramed(k, h, Flat(writes), frames)
    ensures FitsSize(k, []) && AreFrames(k, AfterPackets(k, h, Flat(writes)), [[]], [end])
  {
    hide Sound, AreFrames, AfterFrames, Flat, PacketsFramed, AfterPackets, MultiBuffers.IsEmpty, FitsSize;
    var w := new AuthenticationWriter(k, h);
    var ok;
    var i := 0;
    NoPackets(k, h, writes);
    while i < |writes|
      invariant 0 <= i <= |writes| && w.k == k
      invariant PacketsFramed(k, h, Flat(writes[..i]), w.out) && w.hidden == AfterPackets(k, h, Flat(writes[..i]))
    {
      ghost var before, more := w.out, [];
      ok, more := w.WriteMultiBuffer(writes[i], false);
      PacketsAppend(k, h, Flat(writes[..i]), before, writes[i], more);
      assert Flat(writes[..i + 1]) == Flat(writes[..i]) + writes[i] by { FlatNext(writes, i); }
      i := i + 1;
    }
    assert writes[..i] == writes;
    frames := w.out;
    ghost var last;
    NothingIsEmpty();
    ok, last := w.WriteMultiBuffer([], false);
    assert |last| == 1 by { OneEach(k, AfterPackets(k, h, Flat(writes)), [[]], last); }
    end := last[0];
    assert last == [end];
    out := w.out;
  }

  lemma NoPackets(k: Codec, h: Hidden, writes: seq<MultiBuffer>)
    requires Sound(k, h)
    ensures PacketsFramed(k, h, Flat(writes[..0]), []) && AfterPackets(k, h, Flat(writes[..0])) == h
  {
    assert writes[..0] == [];
  }

  lemma {:induction false} SentAreData(k: Codec, h: Hidden, mb: MultiBuffer)
    requires Sound(k, h)
    ensures AllData(SentPackets(k, h, mb))
    decreases |mb|
  {
    hide Sound, AfterFrame;
    if mb != [] {
      PaddingKeepsSound(k, h);
      if mb[0] == [] {
        SentAreData(k, h, mb[1..]);
      } else if TotalSize(k, h, mb[0]) > SIZE {
        SentAreData(k, NextPadding(k, h).1, mb[1..]);
      } else {
        SentAreData(k, AfterFrame(k, h, mb[0]), mb[1..]);
      }
    }
  }

  /** The end chunk is sealed into a regular buffer too. */
  lemma EndIsRegular(k: Codec, h: Hidden, end: Bytes)
    requires Sound(k, h) && AllFit(k, [[]]) && AreFrames(k, h, [[]], [end])
    ensures |end| <= SIZE
  {
    assert IsFrame(k, h, [], end);
    RoomForPayload(k, h, []);
  }

  /** Packets that all go out in step, then the end chunk, are a well-formed stream of regular frames. */
  lemma PacketsEnded(k: Codec, h: Hidden, mb: MultiBuffer, frames: seq<Bytes>, end: Bytes)
    requires Sound(k, h) && SendsWhole(k, h, mb) && PacketsFramed(k, h, mb, frames)
    requires FitsSize(k, []) && AreFrames(k, AfterPackets(k, h, mb), [[]], [end])
    ensures var chunks := SentPackets(k, h, mb) + [[]];
            Ended(k, chunks) && AreFrames(k, h, chunks, frames + [end])
    ensures AllRegular(frames + [end])
  {
    hide Sound, AreFrames, AfterFrames, AfterPackets, SentPackets, PacketsFramed, FitsSize, SendsWhole;
    PacketsAreFrames(k, h, mb, frames);
    FramesAppend(k, h, SentPackets(k, h, mb), frames, [[]], [end]);
    SentAreData(k, h, mb);
    PacketFramesRegular(k, h, mb, frames);
    EndIsRegular(k, AfterPackets(k, h, mb), end);
  }

  /**
   * The packet round trip. Any packet writes that skip no oversized packet, or that pad nothing, closed by an empty
   * write and sent over a wire cut up in any way, are read back as exactly the packets that went out, one to
   * a buffer; when none was skipped these are all the non-empty packets written.
   */
  method TransferPackets(k: Codec, h: Hidden, writes: seq<MultiBuffer>, cut: Bytes -> seq<MultiBuffer>)
    returns (packets: seq<Bytes>, last: Batch)
    requires Sound(k, h) && (forall i :: 0 <= i < |writes| ==> Sendable(writes[i])) && SendsWhole(k, h, Flat(writes))
    requires forall wire :: Flat(FlatEach(cut(wire))) == wire
    ensures packets == SentPackets(k, h, Flat(writes)) && last == End
    ensures !SkipsPacket(k, h, Flat(writes)) ==> packets == NonEmptyPackets(Flat(writes))
  {
    hide Sound, AreFrames, InSync, Sendable, Ended, PacketsFramed, AfterPackets, SentPackets, SkipsPacket,
        SendsWhole, FitsSize, NonEmptyPackets;
    var out;
    ghost var frames, end;
    out, frames, end := WritePackets(k, h, writes);
    PacketsEnded(k, h, Flat(writes), frames, end);
    AllSentExactly(k, h, Flat(writes));
    ghost var chunks := SentPackets(k, h, Flat(writes)) + [[]];
    var wire := Flat(out);
    var transport := cut(wire);
    var source := new BufferedReader(transport);
    var r := new AuthenticationReader(k, h, source);
    assert Flat(FlatEach(transport)) == wire;
    StartInSync(k, h, r.View(), chunks, out);
    packets, last := ReadAll(r, h, chunks, out);
    assert packets == chunks[..|chunks| - 1];
  }
}
