/** AuthenticationReader (common/crypto/auth.go), and a writer and a reader joined by a cut-up wire. */
module AuthReaders {
  import opened Basics
  import opened Codecs
  import opened Sources
  import opened BufferedReaders
  import opened AuthStream
  import opened AuthWriters
  import MultiBuffers

  class AuthenticationReader {
    const k: Codec
    const reader: BufferedReader
    var hidden: Hidden
    var size: Uint16
    var paddingLen: nat
    var hasSize: bool
    var done: bool

    constructor (k: Codec, h: Hidden, reader: BufferedReader)
      ensures this.k == k && this.reader == reader
      ensures View() == Reader(reader.View(), h, 0, 0, false, false)
    {
      this.k, this.reader, hidden := k, reader, h;
      size, paddingLen, hasSize, done := 0, 0, false, false;
    }

    ghost function View(): Reader
      reads this, reader
    {
      Reader(reader.View(), hidden, size, paddingLen, hasSize, done)
    }

    method ReadSize() returns (r: SizeRead)
      requires Configured(k, hidden)
      modifies this, reader
      ensures (r, View()) == AuthStream.ReadSize(k, old(View()))
    {
      hide Sources.ReadFull, All, DecodeSize, NextPadding;
      if hasSize {
        hasSize := false;
        return Sized((size, paddingLen));
      }
      ReadFullTakesPrefix(reader.View(), SizeBytes(k));
      var b := reader.ReadFull(SizeBytes(k));
      if !b.Whole? {
        return if b.NoBytes? then SizeEof else SizeError;
      }
      var (pad, h1) := NextPadding(k, hidden);
      StaysConfigured(k, hidden, 0, []);
      ReadFullLength(old(reader.View()), SizeBytes(k));
      var (n, h2) := DecodeSize(k, h1, b.value);
      hidden := h2;
      r := if n.None? then SizeError else Sized((n.value, pad));
    }

    method ReadPayload(effective: nat, pad: nat) returns (out: Outcome)
      requires Configured(k, hidden)
      modifies this, reader
      ensures (out, View()) == AuthStream.ReadPayload(k, old(View()), effective, pad)
    {
      hide Sources.ReadFull, All, Open, Configured;
      ReadFullLength(reader.View(), effective);
      var b := reader.ReadFull(effective);
      if !b.Whole? {
        return if b.NoBytes? then Eof else Fail;
      }
      var n := if effective <= SIZE && effective < pad then 2 * effective - pad else effective - pad;
      if n < 0 {
        return Outcome.Panic;
      }
      ConfiguredWired(k, hidden);
      var (plain, h') := Open(k.auth, hidden, b.value[..n]);
      hidden := h';
      out := if plain.None? then Fail else Data(plain.value, effective > SIZE);
    }

    method ReadInternal(soft: bool) returns (out: Outcome)
      requires Configured(k, hidden)
      modifies this, reader
      ensures (out, View()) == AuthStream.ReadInternal(k, old(View()), soft)
    {
      hide AuthStream.ReadSize, AuthStream.ReadPayload, Configured;
      KeepsConfigured(k, View());
      var buffered := reader.BufferedBytes();
      if soft && buffered < SizeBytes(k) {
        return Soft;
      }
      if done {
        return Eof;
      }
      var sizes := ReadSize();
      if !sizes.Sized? {
        return if sizes.SizeEof? then Eof else Fail;
      }
      var (n, pad) := sizes.value;
      if (n + ConstantOffset(k)) % 65536 == (Overhead(k) + pad) % 65536 {
        done := true;
        return Eof;
      }
      var effective := n + ConstantOffset(k);
      buffered := reader.BufferedBytes();
      if soft && effective > buffered {
        size, paddingLen, hasSize := n, pad, true;
        return Soft;
      }
      out := ReadPayload(effective, pad);
    }

    /** ReadMultiBuffer: one hard read, then up to fifteen soft ones. */
    method ReadMultiBuffer() returns (got: Batch)
      requires Configured(k, hidden)
      modifies this, reader
      ensures (got, View()) == ReadBatch(k, old(View()))
      ensures Configured(k, hidden)
    {
      hide AuthStream.ReadInternal, Deliver, Configured;
      BatchKeepsConfigured(k, View());
      InternalKeepsConfigured(k, View(), false);
      var out := ReadInternal(false);
      if out.Eof? {
        return End;
      }
      if !out.Data? {
        return Error;
      }
      var mb := Deliver([], out);
      ghost var expected := ReadMore(k, View(), READ_SIZE - 1, mb);
      var i := 1;
      while i < READ_SIZE
        invariant 1 <= i <= READ_SIZE && Configured(k, hidden)
        invariant expected == ReadMore(k, View(), READ_SIZE - i, mb)
      {
        InternalKeepsConfigured(k, View(), true);
        out := ReadInternal(true);
        if out.Soft? || out.Eof? {
          return Got(mb);
        }
        if !out.Data? {
          return Error;
        }
        mb := Deliver(mb, out);
        i := i + 1;
      }
      return Got(mb);
    }
  }

  lemma ReadFullLength(s: Source, n: nat)
    ensures Sources.ReadFull(s, n).0.Whole? ==> |Sources.ReadFull(s, n).0.value| == n
  {
    ReadFullTakesPrefix(s, n);
  }

  // ---- a writer and a reader joined by a wire ----

  /** A stream write the writer accepts: some content, in fewer buffers than its slice limit. */
  predicate Writable(mb: MultiBuffer) {
    !MultiBuffers.IsEmpty(mb) && |mb| + 10 <= 64 * 1024 * 1024
  }

  predicate AllData(chunks: seq<Bytes>) {
    forall i :: 0 <= i < |chunks| ==> chunks[i] != []
  }

  /** Runs the writes and the closing empty write: the frames of the data chunks and of the end chunk. */
  method WriteAll(k: Codec, h: Hidden, writes: seq<MultiBuffer>) returns (out: seq<Bytes>, ghost chunks: seq<Bytes>)
    requires Sound(k, h) && forall i :: 0 <= i < |writes| ==> Writable(writes[i])
    ensures Flat(chunks) == Flat(Flat(writes)) && Ended(k, chunks) && AreFrames(k, h, chunks, out)
  {
    hide Sound, AreFrames, AfterFrames, Flat, Pieces, PayloadSize, AllFit, MultiBuffers.IsEmpty;
    var w := new AuthenticationWriter(k, h);
    ghost var frames;
    chunks := [];
    NoFrames(k, h);
    FlatFlatNone(writes);
    var i := 0;
    while i < |writes|
      invariant 0 <= i <= |writes| && w.k == k
      invariant AllData(chunks) && AllFit(k, chunks) && Flat(chunks) == Flat(Flat(writes[..i]))
      invariant AreFrames(k, h, chunks, w.out) && w.hidden == AfterFrames(k, h, chunks)
    {
      ghost var before := w.out;
      var ok;
      SoundFacts(k, w.hidden);
      MultiBuffers.EmptyIffNoBytes(writes[i]);
      ok, frames := w.WriteMultiBuffer(writes[i], true);
      ghost var pieces := Pieces(Flat(writes[i]), PayloadSize(k));
      FramesAppend(k, h, chunks, before, pieces, frames);
      FlatAppend(chunks, pieces);
      FlatFlatNext(writes, i);
      chunks := chunks + pieces;
      i := i + 1;
    }
    assert writes[..i] == writes;
    ghost var before := w.out;
    var ok;
    NothingIsEmpty();
    ok, frames := w.WriteMultiBuffer([], true);
    assert AllFit(k, [[]]) by { EndFits(k); }
    FramesAppend(k, h, chunks, before, [[]], frames);
    FlatAppend(chunks, [[]]);
    FlatOne<Byte>([]);
    out, chunks := w.out, chunks + [[]];
  }

  lemma NothingIsEmpty()
    ensures MultiBuffers.IsEmpty([])
  {
  }

  lemma EndFits(k: Codec)
    requires FitsSize(k, [])
    ensures AllFit(k, [[]])
  {
  }

  /** Reads to EOF: all the bytes of the chunks; one buffer to a chunk when every frame fits a regular buffer. */
  method ReadAll(r: AuthenticationReader, ghost h: Hidden, ghost chunks: seq<Bytes>, ghost frames: seq<Bytes>)
    returns (all: MultiBuffer, last: Batch)
    requires InSync(r.k, h, r.View(), chunks, frames, [])
    modifies r, r.reader
    ensures Flat(all) == Flat(chunks) && last == End && r.done
    ensures AllRegular(frames) ==> chunks == all + [[]]
  {
    hide ReadBatch, InSync, Configured, AllRegular, Flat;
    ghost var h', left, fs := h, chunks, frames;
    all := [];
    NothingRead(chunks);
    ReadsConfigured(r.k, h', r.View(), left, fs);
    while true
      invariant Configured(r.k, r.hidden)
      invariant Flat(chunks) == Flat(all) + Flat(left)
      invariant AllRegular(frames) ==> AllRegular(fs) && chunks == all + left
      invariant if r.done then left == [[]] else InSync(r.k, h', r.View(), left, fs, [])
      decreases !r.done, |left|
    {
      ghost var j, h2 := 0, h';
      if r.done {
        DoneReadsEnd(r.k, r.View());
      } else {
        j, h2 := ReadStep(r.k, h', r.View(), left, fs, all);
      }
      last := r.ReadMultiBuffer();
      if last.End? {
        EndChunk();
        return;
      }
      all, left, fs, h' := all + last.mb, left[j..], fs[j..], h2;
    }
  }

  lemma NothingRead(chunks: seq<Bytes>)
    ensures Flat<Byte>([]) + Flat(chunks) == Flat(chunks) && [] + chunks == chunks
  {
  }

  lemma EndChunk()
    ensures Flat<Byte>([[]]) == []
  {
    FlatOne<Byte>([]);
  }

  lemma ReadsConfigured(k: Codec, h: Hidden, r: Reader, chunks: seq<Bytes>, frames: seq<Bytes>)
    requires InSync(k, h, r, chunks, frames, [])
    ensures Configured(k, r.hidden) && !r.done
  {
    hide InSync, Configured;
    InSyncShape(k, h, r, chunks, frames, []);
  }

  /** One ReadMultiBuffer of a reader in step: j chunks move from those left to those read, or it is the end. */
  lemma ReadStep(k: Codec, h: Hidden, r: Reader, left: seq<Bytes>, fs: seq<Bytes>, all: MultiBuffer)
    returns (j: nat, h': Hidden)
    requires InSync(k, h, r, left, fs, []) && Configured(k, r.hidden)
    ensures j < |left| && j <= |fs|
    ensures var (got, r') := ReadBatch(k, r);
            && !got.Error? && (got.End? ==> left == [[]] && r'.done)
            && (got.Got? ==>
                  && j >= 1 && Flat(all) + Flat(left) == Flat(all + got.mb) + Flat(left[j..])
                  && (AllRegular(fs) ==> AllRegular(fs[j..]) && all + left == (all + got.mb) + left[j..])
                  && if r'.done then left[j..] == [[]] else InSync(k, h', r', left[j..], fs[j..], []))
  {
    hide Sound, AreFrames, AfterFrames, ReadBatch, InSync, Configured, AllRegular, Progress, Flat, Ended;
    InSyncShape(k, h, r, left, fs, []);
    j := ReadBatchInSync(k, h, r, left, fs, []);
    OneEach(k, h, left, fs);
    ProgressFacts(k, h, ReadBatch(k, r).1, j, left, fs, []);
    h' := AfterFrames(k, h, left[..j]);
    FlatSplit(left, j);
    RegularTail(fs, j);
    var got := ReadBatch(k, r).0;
    if got.Got? {
      FlatAppend(all, got.mb);
      assert left == left[..j] + left[j..];
    } else {
      assert left == [[]] by { OnlyTheEnd(k, left); }
    }
  }

  lemma OnlyTheEnd(k: Codec, chunks: seq<Bytes>)
    requires Ended(k, chunks) && |chunks| == 1
    ensures chunks == [[]]
  {
  }

  lemma OneEach(k: Codec, h: Hidden, chunks: seq<Bytes>, frames: seq<Bytes>)
    requires Sound(k, h) && AllFit(k, chunks) && AreFrames(k, h, chunks, frames)
    ensures |frames| == |chunks|
  {
  }

  lemma RegularTail(frames: seq<Bytes>, j: nat)
    requires j <= |frames|
    ensures AllRegular(frames) ==> AllRegular(frames[j..])
  {
  }

  lemma ProgressFacts(k: Codec, h: Hidden, r: Reader, j: nat, chunks: seq<Bytes>, frames: seq<Bytes>, tail: Bytes)
    requires Sound(k, h) && Ended(k, chunks) && |frames| == |chunks| && Progress(k, h, r, j, chunks, frames, tail)
    ensures j < |chunks| && AllFit(k, chunks[..j])
    ensures r.done ==> chunks[j..] == [[]] && Flat(chunks[j..]) == []
    ensures !r.done ==> InSync(k, AfterFrames(k, h, chunks[..j]), r, chunks[j..], frames[j..], tail)
  {
    if r.done {
      assert chunks[j..] == [[]];
      FlatOne<Byte>([]);
    }
  }

  /**
   * The round trip. Any non-empty stream writes, closed by an empty write, sent over a wire that is
   * cut up in any way whatever, are read back as exactly the bytes written, and then EOF.
   */
  method Transfer(k: Codec, h: Hidden, writes: seq<MultiBuffer>, cut: Bytes -> seq<MultiBuffer>)
    returns (plain: Bytes, last: Batch)
    requires Sound(k, h) && forall i :: 0 <= i < |writes| ==> Writable(writes[i])
    requires forall wire :: Flat(FlatEach(cut(wire))) == wire
    ensures plain == Flat(Flat(writes)) && last == End
  {
    hide Sound, AreFrames, InSync, Writable, Ended;
    var out;
    ghost var chunks;
    out, chunks := WriteAll(k, h, writes);
    var wire := Flat(out);
    var transport := cut(wire);
    var source := new BufferedReader(transport);
    var r := new AuthenticationReader(k, h, source);
    assert Flat(FlatEach(transport)) == wire;
    StartInSync(k, h, r.View(), chunks, out);
    var all;
    all, last := ReadAll(r, h, chunks, out);
    plain := Flat(all);
  }

  lemma StartInSync(k: Codec, h: Hidden, r: Reader, chunks: seq<Bytes>, frames: seq<Bytes>)
    requires Sound(k, h) && Ended(k, chunks) && AreFrames(k, h, chunks, frames)
    requires r.hidden == h && !r.done && !r.hasSize && r.src.buffered == [] && Flat(r.src.rest) == Flat(frames)
    ensures InSync(k, h, r, chunks, frames, []) && Configured(k, h)
  {
    assert Flat(frames) + [] == Flat(frames);
    assert All(r.src) == Flat(frames);
  }
}
