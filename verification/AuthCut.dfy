/** The authenticated stream when its transport ends early (common/crypto/auth.go): what is read, and how it ends. */
module AuthCuts {
  import opened Basics
  import opened Codecs
  import opened Sources
  import opened AuthStream
  import opened AuthReaders
  import opened BufferedReaders
  import opened MultiBuffers

  // ---- a reader does not notice what has not arrived ----

  /** The same reader when its transport has more to come in the end. */
  function Ext(r: Reader, more: Bytes): Reader {
    r.(src := Extended(r.src, more))
  }

  lemma SizeExtended(k: Codec, r: Reader, more: Bytes)
    requires Configured(k, r.hidden) && (r.hasSize || SizeBytes(k) <= |All(r.src)|)
    ensures ReadSize(k, Ext(r, more)) == (ReadSize(k, r).0, Ext(ReadSize(k, r).1, more))
  {
    hide DecodeSize, NextPadding, ReadFull, All, Extended;
    if !r.hasSize {
      ReadFullExtended(r.src, more, SizeBytes(k));
      ReadFullTakesPrefix(r.src, SizeBytes(k));
    }
  }

  lemma PayloadExtended(k: Codec, r: Reader, size: nat, pad: nat, more: Bytes)
    requires Configured(k, r.hidden) && size <= |All(r.src)|
    ensures ReadPayload(k, Ext(r, more), size, pad)
         == (ReadPayload(k, r, size, pad).0, Ext(ReadPayload(k, r, size, pad).1, more))
  {
    hide Open, ReadFull, All, Extended;
    ReadFullExtended(r.src, more, size);
    ReadFullTakesPrefix(r.src, size);
  }

  /** A soft read uses only what is buffered. */
  lemma SoftExtended(k: Codec, r: Reader, more: Bytes)
    requires Configured(k, r.hidden)
    ensures ReadInternal(k, Ext(r, more), true) == (ReadInternal(k, r, true).0, Ext(ReadInternal(k, r, true).1, more))
  {
    hide ReadSize, ReadPayload, Configured, ConstantOffset;
    KeepsConfigured(k, r);
    KeepsConfigured(k, Ext(r, more));
    if |r.src.buffered| >= SizeBytes(k) && !r.done {
      SizeExtended(k, r, more);
      var (sizes, r1) := ReadSize(k, r);
      if sizes.Sized? {
        var effective := sizes.value.0 + ConstantOffset(k);
        if effective <= |r1.src.buffered| {
          PayloadExtended(k, r1, effective, sizes.value.1, more);
        }
      }
    }
  }

  lemma {:induction false} MoreExtended(k: Codec, r: Reader, n: nat, mb: MultiBuffer, more: Bytes)
    requires Configured(k, r.hidden)
    ensures ReadMore(k, Ext(r, more), n, mb) == (ReadMore(k, r, n, mb).0, Ext(ReadMore(k, r, n, mb).1, more))
    decreases n
  {
    hide ReadInternal, Configured, Deliver;
    if n > 0 {
      SoftExtended(k, r, more);
      InternalKeepsConfigured(k, r, true);
      var (out, r') := ReadInternal(k, r, true);
      if out.Data? {
        MoreExtended(k, r', n - 1, Deliver(mb, out), more);
      }
    }
  }

  // ---- one read of a stream that ends early ----

  /** The reader would be in step with the writer if `more` were still to come. */
  ghost predicate CutSync(k: Codec, h: Hidden, r: Reader, chunks: seq<Bytes>, frames: seq<Bytes>, more: Bytes) {
    InSync(k, h, Ext(r, more), chunks, frames, [])
  }

  /** How many bytes of the upcoming frames have arrived, counting a header already consumed. */
  function Arrived(k: Codec, r: Reader): nat {
    |All(r.src)| + if r.hasSize then SizeBytes(k) else 0
  }

  lemma CutShape(k: Codec, h: Hidden, r: Reader, chunks: seq<Bytes>, frames: seq<Bytes>, more: Bytes)
    requires CutSync(k, h, r, chunks, frames, more)
    ensures Sound(k, h) && Configured(k, r.hidden) && !r.done && Ended(k, chunks) && FitsSize(k, chunks[0])
    ensures AreFrames(k, h, chunks, frames) && |frames| == |chunks| >= 1
    ensures Arrived(k, r) + |more| == |Flat(frames)|
    ensures r.hasSize ==> chunks[0] != []
  {
    hide Sound, AreFrames, Ended, MakeHeader, SizeBytes, All, Flat, Configured, FitsSize, AllFit;
    InSyncShape(k, h, Ext(r, more), chunks, frames, []);
    FramesMatch(k, h, chunks, frames);
    ExtendedAll(r.src, more);
    assert Flat(frames) + [] == Flat(frames);
  }

  lemma FramesMatch(k: Codec, h: Hidden, chunks: seq<Bytes>, frames: seq<Bytes>)
    requires Sound(k, h) && Ended(k, chunks) && AreFrames(k, h, chunks, frames)
    ensures |frames| == |chunks| >= 1
  {
  }

  /** What a hard read does, by how much of the next frame has arrived. */
  datatype Fate = EndsHere | Breaks | EndChunk | Whole

  function FateOf(k: Codec, chunk: Bytes, frame: Bytes, arrived: nat): Fate {
    if arrived < SizeBytes(k) then (if arrived == 0 then EndsHere else Breaks)
    else if chunk == [] then EndChunk
    else if arrived < |frame| then (if arrived == SizeBytes(k) then EndsHere else Breaks)
    else Fate.Whole
  }

  lemma HardCut(k: Codec, h: Hidden, r: Reader, chunks: seq<Bytes>, frames: seq<Bytes>, more: Bytes)
    requires CutSync(k, h, r, chunks, frames, more)
    ensures Configured(k, r.hidden) && !r.done && |frames| == |chunks| >= 1
    ensures var (out, r') := ReadInternal(k, r, false);
            match FateOf(k, chunks[0], frames[0], Arrived(k, r))
            case EndsHere => out == Eof && !r'.done
            case Breaks => out == Fail
            case EndChunk => out == Eof && r'.done
            case Whole => ReadInternal(k, Ext(r, more), false) == (out, Ext(r', more))
  {
    hide Sound, AreFrames, Ended, FitsSize, MakeHeader, InSync, ReadSize, ReadPayload, Configured, SizeBytes,
      ConstantOffset, All, Flat;
    CutShape(k, h, r, chunks, frames, more);
    KeepsConfigured(k, r);
    KeepsConfigured(k, Ext(r, more));
    var arrived := Arrived(k, r);
    if arrived < SizeBytes(k) {
      NoHeader(k, r);
    } else {
      HeaderCut(k, h, r, chunks, frames, more);
      var (sizes, r1) := ReadSize(k, r);
      EndTest(k, chunks, MakeHeader(k, h, chunks[0]).pad);
      if chunks[0] != [] {
        var effective := sizes.value.0 + ConstantOffset(k);
        if |All(r1.src)| < effective {
          NoPayload(k, r1, effective, sizes.value.1);
        } else {
          PayloadExtended(k, r1, effective, sizes.value.1, more);
        }
      }
    }
  }

  lemma NoHeader(k: Codec, r: Reader)
    requires Configured(k, r.hidden) && !r.hasSize && |All(r.src)| < SizeBytes(k)
    ensures ReadSize(k, r).0 == (if All(r.src) == [] then SizeEof else SizeError) && ReadSize(k, r).1.done == r.done
  {
    ReadFullTakesPrefix(r.src, SizeBytes(k));
  }

  lemma NoPayload(k: Codec, r: Reader, size: nat, pad: nat)
    requires Configured(k, r.hidden) && |All(r.src)| < size
    ensures ReadPayload(k, r, size, pad).0 == if All(r.src) == [] then Eof else Fail
    ensures ReadPayload(k, r, size, pad).1.done == r.done
  {
    ReadFullTakesPrefix(r.src, size);
  }

  /** A header that has arrived is read as if everything had. */
  lemma HeaderCut(k: Codec, h: Hidden, r: Reader, chunks: seq<Bytes>, frames: seq<Bytes>, more: Bytes)
    requires CutSync(k, h, r, chunks, frames, more) && Configured(k, r.hidden) && Arrived(k, r) >= SizeBytes(k)
    requires Sound(k, h) && FitsSize(k, chunks[0]) && |frames| == |chunks| >= 1
    ensures var (sizes, r1) := ReadSize(k, r); var hd := MakeHeader(k, h, chunks[0]);
            && ReadSize(k, Ext(r, more)) == (sizes, Ext(r1, more))
            && sizes.Sized? && sizes.value.1 == hd.pad && !r1.done && !r1.hasSize
            && sizes.value.0 + ConstantOffset(k) == |chunks[0]| + Overhead(k) + hd.pad
            && |frames[0]| == SizeBytes(k) + |chunks[0]| + Overhead(k) + hd.pad
            && |All(r1.src)| == Arrived(k, r) - SizeBytes(k)
  {
    hide Sound, Ended, AreFrames, FitsSize, MakeHeader, ReadSize, SizeBytes, ConstantOffset, All, Flat, Configured;
    ReadSizeInSync(k, h, Ext(r, more), chunks, frames, []);
    SizeExtended(k, r, more);
    CutShape(k, h, r, chunks, frames, more);
    FrontOfWire(k, h, chunks, frames, []);
    ExtendedAll(ReadSize(k, r).1.src, more);
  }

  /**
   * One ReadMultiBuffer: when the next chunk has arrived whole, it and perhaps some more, and the reader is
   * where it would be if everything had arrived; otherwise EOF or an error, by where the stream ends.
   */
  lemma BatchCut(k: Codec, h: Hidden, r: Reader, chunks: seq<Bytes>, frames: seq<Bytes>, more: Bytes)
    returns (j: nat, h': Hidden)
    requires CutSync(k, h, r, chunks, frames, more)
    ensures Configured(k, r.hidden) && !r.done && |frames| == |chunks| && j < |chunks|
    ensures var (got, r') := ReadBatch(k, r);
            match FateOf(k, chunks[0], frames[0], Arrived(k, r))
            case Whole =>
              && got.Got? && j >= 1 && Flat(got.mb) == Flat(chunks[..j])
              && if r'.done then
                   && j == |chunks| - 1 && chunks[j] == []
                   && |All(r'.src)| + SizeBytes(k) + |more| == |Flat(frames[j..])|
                 else CutSync(k, h', r', chunks[j..], frames[j..], more)
            case Breaks => got == Error
            case _ => got == End
  {
    hide Sound, AreFrames, Ended, FitsSize, MakeHeader, InSync, ReadInternal, ReadMore, Configured, SizeBytes, All,
        Flat,
      Progress, Deliver, FateOf, Arrived, Ext, AfterFrames;
    HardCut(k, h, r, chunks, frames, more);
    j, h' := 0, h;
    var (out, r1) := ReadInternal(k, r, false);
    if FateOf(k, chunks[0], frames[0], Arrived(k, r)).Whole? {
      j, h' := BatchWhole(k, h, r, chunks, frames, more);
    }
  }

  lemma BatchWhole(k: Codec, h: Hidden, r: Reader, chunks: seq<Bytes>, frames: seq<Bytes>, more: Bytes)
    returns (j: nat, h': Hidden)
    requires CutSync(k, h, r, chunks, frames, more) && Configured(k, r.hidden) && |frames| == |chunks| >= 1
    requires FateOf(k, chunks[0], frames[0], Arrived(k, r)).Whole?
    ensures j < |chunks|
    ensures var (got, r') := ReadBatch(k, r);
            && got.Got? && j >= 1 && Flat(got.mb) == Flat(chunks[..j])
            && if r'.done then
                 && j == |chunks| - 1 && chunks[j] == []
                 && |All(r'.src)| + SizeBytes(k) + |more| == |Flat(frames[j..])|
               else CutSync(k, h', r', chunks[j..], frames[j..], more)
  {
    hide Sound, AreFrames, FitsSize, MakeHeader, InSync, ReadInternal, ReadMore, Configured, SizeBytes, All, Flat,
      Deliver, AfterFrames;
    CutShape(k, h, r, chunks, frames, more);
    j := ReadBatchInSync(k, h, Ext(r, more), chunks, frames, []);
    h' := AfterFrames(k, h, chunks[..j]);
    BatchExtended(k, h, r, chunks, frames, more);
    ExtendedAll(ReadBatch(k, r).1.src, more);
  }

  /** With the next frame there, what has not arrived makes no difference to the call. */
  lemma BatchExtended(k: Codec, h: Hidden, r: Reader, chunks: seq<Bytes>, frames: seq<Bytes>, more: Bytes)
    requires CutSync(k, h, r, chunks, frames, more) && Configured(k, r.hidden) && |frames| == |chunks| >= 1
    requires FateOf(k, chunks[0], frames[0], Arrived(k, r)).Whole?
    ensures ReadBatch(k, Ext(r, more)) == (ReadBatch(k, r).0, Ext(ReadBatch(k, r).1, more))
    ensures ReadBatch(k, r).0 != End
  {
    hide Sound, AreFrames, Ended, FitsSize, MakeHeader, InSync, ReadInternal, ReadMore, Configured, SizeBytes, All,
        Flat,
      Deliver, Arrived;
    HardCut(k, h, r, chunks, frames, more);
    ReadInternalInSync(k, h, Ext(r, more), false, chunks, frames, []);
    var (out, r1) := ReadInternal(k, r, false);
    InternalKeepsConfigured(k, r, false);
    InternalKeepsConfigured(k, Ext(r, more), false);
    if out.Data? {
      MoreExtended(k, r1, READ_SIZE - 1, Deliver([], out), more);
    }
  }

  // ---- the whole stream up to where it ends ----

  /**
   * A stream of which n bytes arrive ends with EOF: whole, at a boundary, just behind a header, or in its end
   * chunk.
   */
  predicate EndsCleanly(k: Codec, chunks: seq<Bytes>, frames: seq<Bytes>, n: nat)
    requires |chunks| == |frames|
  {
    var d := WholeBuffers(frames, n);
    d == |frames| ||
    var over := n - |Flat(frames[..d])|;
    over == 0 || over == SizeBytes(k) || (chunks[d] == [] && over >= SizeBytes(k))
  }

  /** Counting whole frames from behind the first j of them. */
  lemma {:induction false} WholeSkip(frames: seq<Bytes>, n: nat, j: nat)
    requires j <= |frames| && |Flat(frames[..j])| <= n
    ensures WholeBuffers(frames, n) == j + WholeBuffers(frames[j..], n - |Flat(frames[..j])|)
    decreases j
  {
    if j == 0 {
      assert frames[..0] == [] && frames[0..] == frames;
    } else {
      assert frames[..j][1..] == frames[1..][..j - 1] && frames[1..][j - 1..] == frames[j..];
      WholeSkip(frames[1..], n - |frames[0]|, j - 1);
    }
  }

  lemma CleanSkip(k: Codec, chunks: seq<Bytes>, frames: seq<Bytes>, n: nat, j: nat)
    requires j <= |frames| == |chunks| && |Flat(frames[..j])| <= n
    ensures EndsCleanly(k, chunks, frames, n) <==> EndsCleanly(k, chunks[j..], frames[j..], n - |Flat(frames[..j])|)
    ensures var d := WholeBuffers(frames[j..], n - |Flat(frames[..j])|);
            && d + j <= |chunks| && WholeBuffers(frames, n) == j + d
            && Flat(chunks[..j + d]) == Flat(chunks[..j]) + Flat(chunks[j..][..d])
  {
    hide Flat, SizeBytes, WholeBuffers;
    WholeSkip(frames, n, j);
    var d := WholeBuffers(frames[j..], n - |Flat(frames[..j])|);
    assert frames[..j + d] == frames[..j] + frames[j..][..d];
    FlatAppend(frames[..j], frames[j..][..d]);
    assert chunks[..j + d] == chunks[..j] + chunks[j..][..d];
    FlatAppend(chunks[..j], chunks[j..][..d]);
  }

  /**
   * A stream of frames that ends after any number of bytes, cut into transport reads in any way. The reader gives
   * out exactly the chunks whose frames have arrived whole. The next call returns EOF if and only if the stream ends at
   * a frame's boundary, just behind a header, or behind the header of the end chunk; otherwise an error.
   */
  lemma {:induction false} CutStream(k: Codec, h: Hidden, r: Reader, chunks: seq<Bytes>, frames: seq<Bytes>,
      more: Bytes)
    returns (calls: nat)
    requires CutSync(k, h, r, chunks, frames, more)
    ensures Configured(k, r.hidden) && |frames| == |chunks|
    ensures Configured(k, Reads(k, r, calls).1.hidden)
    ensures Reads(k, r, calls).0 == Some(Flat(chunks[..WholeBuffers(frames, Arrived(k, r))]))
    ensures ReadBatch(k, Reads(k, r, calls).1).0 == if EndsCleanly(k, chunks, frames, Arrived(k, r)) then End else Error
    decreases |chunks|
  {
    hide CutSync, Configured, ReadBatch, SizeBytes, All, FateOf, EndsCleanly, Reads, WholeBuffers, Flat, Arrived, Sound,
      Ended, AreFrames, FitsSize;
    CutShape(k, h, r, chunks, frames, more);
    CutSizes(k, h, r, chunks, frames, more);
    var j, h' := BatchCut(k, h, r, chunks, frames, more);
    var n := Arrived(k, r);
    BatchKeepsConfigured(k, r);
    NoReads(k, r);
    if !FateOf(k, chunks[0], frames[0], n).Whole? {
      calls := 0;
      LastCall(k, chunks, frames, n);
    } else {
      var (got, r1) := ReadBatch(k, r);
      FlatSplit(frames, j);
      if r1.done {
        calls := 1;
        DoneReadsEnd(k, r1);
        NoReads(k, r1);
        OneMoreRead(k, r, 0);
        CleanSkip(k, chunks, frames, n, j);
        EndOfChunks(k, chunks[j..], frames[j..], n - |Flat(frames[..j])|);
      } else {
        CutShape(k, h', r1, chunks[j..], frames[j..], more);
        CleanSkip(k, chunks, frames, n, j);
        var c := CutStream(k, h', r1, chunks[j..], frames[j..], more);
        calls := c + 1;
        OneMoreRead(k, r, c);
      }
    }
  }

  lemma NoReads(k: Codec, r: Reader)
    requires Configured(k, r.hidden)
    ensures Reads(k, r, 0) == (Some([]), r)
  {
  }

  lemma OneMoreRead(k: Codec, r: Reader, calls: nat)
    requires Configured(k, r.hidden) && ReadBatch(k, r).0.Got?
    ensures Configured(k, ReadBatch(k, r).1.hidden)
    ensures var (rest, r') := Reads(k, ReadBatch(k, r).1, calls);
            Reads(k, r, calls + 1) == (if rest == None then None else Some(Flat(ReadBatch(k, r).0.mb) + rest.value), r')
  {
    hide Configured, ReadBatch, Flat;
    BatchKeepsConfigured(k, r);
  }

  lemma CutSizes(k: Codec, h: Hidden, r: Reader, chunks: seq<Bytes>, frames: seq<Bytes>, more: Bytes)
    requires CutSync(k, h, r, chunks, frames, more)
    ensures |chunks| == |frames| >= 1 && (chunks[0] == [] ==> |chunks| == 1)
    ensures |frames[0]| >= SizeBytes(k) && (chunks[0] != [] ==> |frames[0]| > SizeBytes(k))
  {
    hide Sound, AreFrames, MakeHeader, Flat, FitsSize, SizeBytes, InSync;
    CutShape(k, h, r, chunks, frames, more);
    FrontOfWire(k, h, chunks, frames, []);
  }

  /** Where no further chunk has arrived whole. */
  lemma LastCall(k: Codec, chunks: seq<Bytes>, frames: seq<Bytes>, n: nat)
    requires |chunks| == |frames| >= 1 && !FateOf(k, chunks[0], frames[0], n).Whole? && n <= |Flat(frames)|
    requires chunks[0] == [] ==> |chunks| == 1
    requires |frames[0]| >= SizeBytes(k) && (chunks[0] != [] ==> |frames[0]| > SizeBytes(k))
    ensures Flat(chunks[..WholeBuffers(frames, n)]) == []
    ensures EndsCleanly(k, chunks, frames, n) <==> !FateOf(k, chunks[0], frames[0], n).Breaks?
  {
    SizeBytesIsPositive(k);
    hide SizeBytes;
    var d := WholeBuffers(frames, n);
    assert frames[..0] == [] && chunks[..0] == [];
    if d > 0 {
      assert chunks == [[]] && frames == [frames[0]];
      assert chunks[..1] == [[]];
    }
  }

  lemma SizeBytesIsPositive(k: Codec)
    ensures SizeBytes(k) >= 2
  {
  }

  /** The end chunk with its header there. */
  lemma EndOfChunks(k: Codec, chunks: seq<Bytes>, frames: seq<Bytes>, n: nat)
    requires |chunks| == |frames| == 1 && chunks[0] == [] && n >= SizeBytes(k)
    ensures EndsCleanly(k, chunks, frames, n) && Flat(chunks[..WholeBuffers(frames, n)]) == []
  {
    var d := WholeBuffers(frames, n);
    assert frames[..0] == [] && chunks[..0] == [];
    if d > 0 { assert chunks[..1] == [[]]; }
  }

  // ---- a writer and a reader joined by a wire that breaks off ----

  /** Reads until something other than data comes. */
  method ReadToEnd(r: AuthenticationReader, ghost h: Hidden, ghost chunks: seq<Bytes>, ghost frames: seq<Bytes>,
                   ghost more: Bytes)
    returns (plain: Bytes, last: Batch)
    requires CutSync(r.k, h, r.View(), chunks, frames, more)
    modifies r, r.reader
    ensures |chunks| == |frames|
    ensures var n := old(Arrived(r.k, r.View()));
            && plain == Flat(chunks[..WholeBuffers(frames, n)])
            && last == if EndsCleanly(r.k, chunks, frames, n) then End else Error
  {
    hide CutSync, Configured, ReadBatch, SizeBytes, All, FateOf, EndsCleanly, WholeBuffers, Flat, Arrived, Sound, Ended,
      AreFrames, FitsSize;
    ghost var h', left, fs := h, chunks, frames;
    ghost var n: nat := Arrived(r.k, r.View());
    ghost var n0 := n;
    CutShape(r.k, h', r.View(), left, fs, more);
    NothingYet(chunks, frames, n);
    plain := [];
    while true
      invariant |left| == |fs| && Configured(r.k, r.hidden)
      invariant Flat(chunks[..WholeBuffers(frames, n0)]) == plain + Flat(left[..WholeBuffers(fs, n)])
      invariant EndsCleanly(r.k, chunks, frames, n0) <==> EndsCleanly(r.k, left, fs, n)
      invariant if r.done then |left| == 1 && left[0] == [] && n >= SizeBytes(r.k)
                else CutSync(r.k, h', r.View(), left, fs, more) && n == Arrived(r.k, r.View())
      decreases !r.done, |left|
    {
      ghost var j, h2 := 0, h';
      if r.done {
        DoneReadsEnd(r.k, r.View());
        EndOfChunks(r.k, left, fs, n);
      } else {
        j, h2 := StepCut(r.k, h', r.View(), left, fs, more);
      }
      last := r.ReadMultiBuffer();
      if !last.Got? {
        return;
      }
      n := n - |Flat(fs[..j])|;
      plain, left, fs, h' := plain + Flat(last.mb), left[j..], fs[j..], h2;
    }
  }

  lemma NothingYet(chunks: seq<Bytes>, frames: seq<Bytes>, n: nat)
    requires |chunks| == |frames|
    ensures [] + Flat(chunks[..WholeBuffers(frames, n)]) == Flat(chunks[..WholeBuffers(frames, n)])
  {
  }

  /** One turn of that loop: what is read moves from what is still to come, or it is the end. */
  lemma StepCut(k: Codec, h: Hidden, r: Reader, left: seq<Bytes>, fs: seq<Bytes>, more: Bytes)
    returns (j: nat, h': Hidden)
    requires CutSync(k, h, r, left, fs, more)
    ensures Configured(k, r.hidden) && j < |left| == |fs|
    ensures var (got, r') := ReadBatch(k, r); var n := Arrived(k, r);
            if got.Got? then
              && j >= 1 && |Flat(fs[..j])| <= n
              && var m := n - |Flat(fs[..j])|;
              && Flat(left[..WholeBuffers(fs, n)]) == Flat(got.mb) + Flat(left[j..][..WholeBuffers(fs[j..], m)])
              && (EndsCleanly(k, left, fs, n) <==> EndsCleanly(k, left[j..], fs[j..], m))
              && if r'.done then |left[j..]| == 1 && left[j] == [] && m >= SizeBytes(k)
                 else CutSync(k, h', r', left[j..], fs[j..], more) && m == Arrived(k, r')
            else
              && Flat(left[..WholeBuffers(fs, n)]) == []
              && got == if EndsCleanly(k, left, fs, n) then End else Error
  {
    hide CutSync, Configured, ReadBatch, SizeBytes, All, FateOf, EndsCleanly, WholeBuffers, Flat, Sound, Ended,
        AreFrames,
      FitsSize;
    CutShape(k, h, r, left, fs, more);
    CutSizes(k, h, r, left, fs, more);
    j, h' := BatchCut(k, h, r, left, fs, more);
    var (got, r') := ReadBatch(k, r);
    if got.Got? {
      FlatSplit(fs, j);
      if !r'.done { CutShape(k, h', r', left[j..], fs[j..], more); }
      CleanSkip(k, left, fs, Arrived(k, r), j);
    } else {
      LastCall(k, left, fs, Arrived(k, r));
    }
  }

  /**
   * Any non-empty stream writes, closed by an empty write, sent over a wire that breaks off after `at` bytes
   * and is cut up in any way: the reader gives out exactly the chunks whose frames got through whole, the
   * beginning of what was written, and reports EOF exactly at the end chunk, at a boundary or just behind a
   * header, and an error otherwise.
   */
  method TransferCut(k: Codec, h: Hidden, writes: seq<MultiBuffer>, cut: Bytes -> seq<MultiBuffer>, at: nat)
    returns (plain: Bytes, last: Batch, ghost chunks: seq<Bytes>, ghost frames: seq<Bytes>)
    requires Sound(k, h) && forall i :: 0 <= i < |writes| ==> Writable(writes[i])
    requires forall wire :: Flat(FlatEach(cut(wire))) == wire
    ensures |chunks| == |frames| && Ended(k, chunks) && AreFrames(k, h, chunks, frames)
    ensures Flat(chunks) == Flat(Flat(writes)) && plain <= Flat(Flat(writes))
    ensures var n := Min(at, |Flat(frames)|);
            && plain == Flat(chunks[..WholeBuffers(frames, n)])
            && last == if EndsCleanly(k, chunks, frames, n) then End else Error
  {
    hide Sound, AreFrames, CutSync, Writable, Ended, EndsCleanly, WholeBuffers;
    var out;
    out, chunks := WriteAll(k, h, writes);
    frames := out;
    var wire := Flat(out);
    var arrived := wire[..Min(at, |wire|)];
    var transport := cut(arrived);
    var source := new BufferedReader(transport);
    var r := new AuthenticationReader(k, h, source);
    assert Flat(FlatEach(transport)) == arrived;
    StartCut(k, h, r.View(), chunks, out, |arrived|);
    plain, last := ReadToEnd(r, h, chunks, out, wire[|arrived|..]);
    FlatSplit(chunks, WholeBuffers(frames, |arrived|));
  }

  lemma StartCut(k: Codec, h: Hidden, r: Reader, chunks: seq<Bytes>, frames: seq<Bytes>, n: nat)
    requires Sound(k, h) && Ended(k, chunks) && AreFrames(k, h, chunks, frames) && n <= |Flat(frames)|
    requires r.hidden == h && !r.done && !r.hasSize && r.src.buffered == [] && Flat(r.src.rest) == Flat(frames)[..n]
    ensures CutSync(k, h, r, chunks, frames, Flat(frames)[n..]) && Arrived(k, r) == n
  {
    hide Sound, AreFrames, Ended, Flat;
    ExtendedAll(r.src, Flat(frames)[n..]);
    assert Flat(frames)[..n] + Flat(frames)[n..] == Flat(frames) && Flat(frames) + [] == Flat(frames);
  }
}
