/**
 * The authenticated chunk stream (common/crypto/auth.go) read back: the reader with its opportunistic
 * read-ahead as functions of its state, and what it does on streams of frames, whole or cut off.
 */
module AuthStream {
  import opened Basics
  import opened Codecs
  import opened Sources
  import MultiBuffers

  // ---- reader ----

  datatype Reader = Reader(src: Source, hidden: Hidden, size: Uint16, paddingLen: nat, hasSize: bool, done: bool)

  datatype Outcome =
    | Data(plain: Bytes, large: bool)
    | Soft    // errSoft: waiting for more data
    | Eof     // the end chunk, or the end of the transport
    | Fail    // transport or authentication error
    | Panic   // slice bounds out of range

  /** What readSize returns; SizeEof is the io.EOF of a transport that has ended. */
  datatype SizeRead = Sized(value: (Uint16, nat)) | SizeEof | SizeError

  /** readSize: the saved size and padding, or a new header. */
  function ReadSize(k: Codec, r: Reader): (SizeRead, Reader)
    requires Configured(k, r.hidden)
  {
    if r.hasSize then (Sized((r.size, r.paddingLen)), r.(hasSize := false))
    else
      var (b, src) := ReadFull(r.src, SizeBytes(k));
      if !b.Whole? then (if b.NoBytes? then SizeEof else SizeError, r.(src := src))
      else
        ReadFullTakesPrefix(r.src, SizeBytes(k));
        var (pad, h1) := NextPadding(k, r.hidden);
        var (size, h2) := DecodeSize(k, h1, b.value);
        (if size == None then SizeError else Sized((size.value, pad)), r.(src := src, hidden := h2))
  }

  /** readBuffer and its large-chunk twin: read, drop the padding, open. */
  function ReadPayload(k: Codec, r: Reader, size: nat, pad: nat): (Outcome, Reader)
    requires Configured(k, r.hidden)
  {
    var (b, src) := ReadFull(r.src, size);
    if !b.Whole? then (if b.NoBytes? then Eof else Fail, r.(src := src))
    else
      ReadFullTakesPrefix(r.src, size);
      // BytesTo counts a negative bound from the end of the buffer
      var n := if size <= SIZE && size < pad then 2 * size - pad else size - pad;
      if n < 0 then (Panic, r.(src := src))
      else
        var (plain, h') := Open(k.auth, r.hidden, b.value[..n]);
        var r' := r.(src := src, hidden := h');
        if plain == None then (Fail, r') else (Data(plain.value, size > SIZE), r')
  }

  function ReadInternal(k: Codec, r: Reader, soft: bool): (Outcome, Reader)
    requires Configured(k, r.hidden)
  {
    if soft && |r.src.buffered| < SizeBytes(k) then (Soft, r)
    else if r.done then (Eof, r)
    else
      KeepsConfigured(k, r);
      var (sizes, r1) := ReadSize(k, r);
      if !sizes.Sized? then (if sizes.SizeEof? then Eof else Fail, r1)
      else
        var (size, pad) := sizes.value;
        if (size + ConstantOffset(k)) % 65536 == (Overhead(k) + pad) % 65536 then (Eof, r1.(done := true))
        else
          var effective := size + ConstantOffset(k);
          if soft && effective > |r1.src.buffered| then (Soft, r1.(size := size, paddingLen := pad, hasSize := true))
          else ReadPayload(k, r1, effective, pad)
  }

  lemma KeepsConfigured(k: Codec, r: Reader)
    requires Configured(k, r.hidden)
    ensures Configured(k, ReadSize(k, r).1.hidden)
  {
    hide ReadFull, All;
    ReadFullTakesPrefix(r.src, SizeBytes(k));
    if k.size.AeadSize? { InputsKeepShape(k.size.auth, NextPadding(k, r.hidden).1); }
  }

  lemma InternalKeepsConfigured(k: Codec, r: Reader, soft: bool)
    requires Configured(k, r.hidden)
    ensures Configured(k, ReadInternal(k, r, soft).1.hidden)
  {
    hide Configured, ReadSize, ReadPayload, ConstantOffset;
    KeepsConfigured(k, r);
    var (sizes, r1) := ReadSize(k, r);
    if sizes.Sized? {
      PayloadKeepsConfigured(k, r1, sizes.value.0 + ConstantOffset(k), sizes.value.1);
    }
  }

  lemma PayloadKeepsConfigured(k: Codec, r: Reader, size: nat, pad: nat)
    requires Configured(k, r.hidden)
    ensures Configured(k, ReadPayload(k, r, size, pad).1.hidden)
  {
    hide ReadFull, All;
    ReadFullTakesPrefix(r.src, size);
    InputsKeepShape(k.auth, r.hidden);
  }

  /** Where a chunk's bytes go: its own buffer, or merged after the others when it is large. */
  function Deliver(mb: MultiBuffer, out: Outcome): MultiBuffer
    requires out.Data?
  {
    if out.large then MultiBuffers.MergeBytes(mb, out.plain) else mb + [out.plain]
  }

  /** Up to n opportunistic reads after the first chunk. None is an error, which drops mb. */
  function ReadMore(k: Codec, r: Reader, n: nat, mb: MultiBuffer): (Option<MultiBuffer>, Reader)
    requires Configured(k, r.hidden)
    decreases n
  {
    if n == 0 then (Some(mb), r)
    else
      InternalKeepsConfigured(k, r, true);
      var (out, r') := ReadInternal(k, r, true);
      match out
      case Data(_, _) => ReadMore(k, r', n - 1, Deliver(mb, out))
      case Soft => (Some(mb), r')
      case Eof => (Some(mb), r')
      case _ => (None, r')
  }

  const READ_SIZE := 16

  datatype Batch = Got(mb: MultiBuffer) | End | Error

  /** ReadMultiBuffer: one chunk however long it takes, then whatever is already buffered. */
  function ReadBatch(k: Codec, r: Reader): (Batch, Reader)
    requires Configured(k, r.hidden)
  {
    InternalKeepsConfigured(k, r, false);
    var (out, r1) := ReadInternal(k, r, false);
    match out
    case Data(_, _) =>
      var (mb, r2) := ReadMore(k, r1, READ_SIZE - 1, Deliver([], out));
      (if mb == None then Error else Got(mb.value), r2)
    case Eof => (End, r1)
    case _ => (Error, r1)
  }

  // ---- the reader on a well-formed stream ----

  /** Data chunks closed by the empty end chunk, all within the 16-bit size field. */
  predicate Ended(k: Codec, chunks: seq<Bytes>) {
    && |chunks| >= 1 && chunks[|chunks| - 1] == [] && AllFit(k, chunks)
    && forall i :: 0 <= i < |chunks| - 1 ==> chunks[i] != []
  }

  /**
   * The reader is about to read `chunks`, whose frames are next on the wire, and the writer's
   * hidden state before the first of them was `h`. A saved size means the header is consumed.
   */
  ghost predicate InSync(k: Codec, h: Hidden, r: Reader, chunks: seq<Bytes>, frames: seq<Bytes>, tail: Bytes) {
    && Sound(k, h) && Ended(k, chunks) && AreFrames(k, h, chunks, frames)
    && !r.done
    && var wire := Flat(frames) + tail;
       if r.hasSize then
         var hd := MakeHeader(k, h, chunks[0]);
         && chunks[0] != [] && SizeBytes(k) <= |wire| && All(r.src) == wire[SizeBytes(k)..]
         && r.hidden == hd.next && r.paddingLen == hd.pad
         && r.size + ConstantOffset(k) == |chunks[0]| + Overhead(k) + hd.pad
       else r.hidden == h && All(r.src) == wire
  }

  /** The three parts of a frame, cut back out of the bytes it starts. */
  lemma CutFrame(head: Bytes, body: Bytes, pad: nat, frame: Bytes, rest: Bytes)
    requires head + body <= frame && |frame| == |head| + |body| + pad
    ensures (frame + rest)[..|head|] == head
    ensures (frame + rest)[|head|..][..|body|] == body
    ensures (frame + rest)[|head|..][|body| + pad..] == rest
  {
    var front := head + body;
    assert frame[..|front|] == front;
    assert (frame + rest)[..|front|] == front;
    assert front[..|head|] == head && front[|head|..] == body;
  }

  /** A frame's header, sealed payload and padding lie at the front of the wire. */
  lemma FrontOfWire(k: Codec, h: Hidden, chunks: seq<Bytes>, frames: seq<Bytes>, tail: Bytes)
    requires Sound(k, h) && Ended(k, chunks) && AreFrames(k, h, chunks, frames)
    ensures var wire := Flat(frames) + tail; var hd := MakeHeader(k, h, chunks[0]); var n := |chunks[0]| + Overhead(k);
            && SizeBytes(k) + n + hd.pad == |frames[0]| <= |wire|
            && wire[..SizeBytes(k)] == hd.bytes
            && wire[SizeBytes(k)..][..n] == Body(k, hd.next, chunks[0])
            && wire[SizeBytes(k)..][n + hd.pad..] == Flat(frames[1..]) + tail
  {
    hide Flat, Sound, MakeHeader, Body, AreFrames, IsFrame;
    var hd := MakeHeader(k, h, chunks[0]);
    FirstFrame(k, h, chunks, frames);
    CutWire(hd.bytes, Body(k, hd.next, chunks[0]), SizeBytes(k), |chunks[0]| + Overhead(k), hd.pad,
            frames[0], Flat(frames[1..]), tail, Flat(frames) + tail);
  }

  lemma CutWire(head: Bytes, body: Bytes, a: nat, n: nat, pad: nat, frame: Bytes, rest: Bytes, tail: Bytes, wire: Bytes)
    requires |head| == a && |body| == n && head + body <= frame && |frame| == a + n + pad
    requires wire == frame + rest + tail
    ensures |frame| <= |wire| && wire[..a] == head && wire[a..][..n] == body && wire[a..][n + pad..] == rest + tail
  {
    CutFrame(head, body, pad, frame, rest + tail);
    assert wire == frame + (rest + tail);
  }

  /** The first frame, unfolded. */
  lemma FirstFrame(k: Codec, h: Hidden, chunks: seq<Bytes>, frames: seq<Bytes>)
    requires Sound(k, h) && AllFit(k, chunks) && chunks != [] && AreFrames(k, h, chunks, frames)
    ensures |frames| == |chunks| && Flat(frames) == frames[0] + Flat(frames[1..])
    ensures var hd := MakeHeader(k, h, chunks[0]);
            && hd.bytes + Body(k, hd.next, chunks[0]) <= frames[0]
            && |frames[0]| == SizeBytes(k) + |chunks[0]| + Overhead(k) + hd.pad
  {
    hide Sound, MakeHeader, Body;
  }

  /** Reading a header in step with the writer: same draws, and the size that was encoded. */
  lemma ReadSizeInSync(k: Codec, h: Hidden, r: Reader, chunks: seq<Bytes>, frames: seq<Bytes>, tail: Bytes)
    requires InSync(k, h, r, chunks, frames, tail)
    ensures var hd := MakeHeader(k, h, chunks[0]); var (sizes, r') := ReadSize(k, r);
            && sizes.Sized? && sizes.value.1 == hd.pad
            && sizes.value.0 + ConstantOffset(k) == |chunks[0]| + Overhead(k) + hd.pad
            && r'.hidden == hd.next && !r'.hasSize && !r'.done
            && SizeBytes(k) <= |Flat(frames) + tail| && All(r'.src) == (Flat(frames) + tail)[SizeBytes(k)..]
  {
    if !r.hasSize {
      var hd := MakeHeader(k, h, chunks[0]);
      assert SizeBytes(k) <= |All(r.src)| && All(r.src)[..SizeBytes(k)] == hd.bytes by {
        FrontOfWire(k, h, chunks, frames, tail);
      }
      ReadFullTakesPrefix(r.src, SizeBytes(k));
      DecodeHeader(k, h, chunks[0]);
      hide MakeHeader, Body, Sound, IsFrame, DecodeSize, NextPadding;
    }
  }

  lemma ReadPayloadOpens(k: Codec, r: Reader, size: nat, pad: nat)
    requires Configured(k, r.hidden) && pad <= size <= |All(r.src)|
    ensures var (out, r') := ReadPayload(k, r, size, pad);
            var (plain, h') := Open(k.auth, r.hidden, All(r.src)[..size - pad]);
            && All(r'.src) == All(r.src)[size..] && r' == r.(src := r'.src, hidden := h')
            && (plain.Some? ==> out == Data(plain.value, size > SIZE))
  {
    hide Open;
    ReadFullTakesPrefix(r.src, size);
    assert All(r.src)[..size][..size - pad] == All(r.src)[..size - pad];
  }

  lemma ReadPayloadInSync(k: Codec, h: Hidden, r: Reader, chunks: seq<Bytes>, frames: seq<Bytes>, tail: Bytes)
    requires Sound(k, h) && Ended(k, chunks) && chunks[0] != [] && AreFrames(k, h, chunks, frames)
    requires !r.hasSize && !r.done && r.hidden == MakeHeader(k, h, chunks[0]).next
    requires All(r.src) == (Flat(frames) + tail)[SizeBytes(k)..]
    ensures var hd := MakeHeader(k, h, chunks[0]);
            var (out, r') := ReadPayload(k, r, |chunks[0]| + Overhead(k) + hd.pad, hd.pad);
            && out.Data? && out.plain == chunks[0] && (|frames[0]| <= SIZE ==> !out.large)
            && InSync(k, AfterFrame(k, h, chunks[0]), r', chunks[1..], frames[1..], tail)
  {
    hide MakeHeader, Body, AfterBody, Open, Sound, IsFrame, ReadPayload, InSync, Flat, AreFrames, Configured, All;
    var hd := MakeHeader(k, h, chunks[0]);
    var size := |chunks[0]| + Overhead(k) + hd.pad;
    FrontOfWire(k, h, chunks, frames, tail);
    SoundFacts(k, r.hidden);
    OpenBody(k, r.hidden, chunks[0]);
    ReadPayloadOpens(k, r, size, hd.pad);
    StepInSync(k, h, ReadPayload(k, r, size, hd.pad).1, chunks, frames, tail);
  }

  /** With the first frame consumed, the reader is in step behind it. */
  lemma StepInSync(k: Codec, h: Hidden, r: Reader, chunks: seq<Bytes>, frames: seq<Bytes>, tail: Bytes)
    requires Sound(k, h) && Ended(k, chunks) && chunks[0] != [] && AreFrames(k, h, chunks, frames)
    requires !r.hasSize && !r.done && r.hidden == AfterFrame(k, h, chunks[0]) && All(r.src) == Flat(frames[1..]) + tail
    ensures InSync(k, AfterFrame(k, h, chunks[0]), r, chunks[1..], frames[1..], tail)
  {
    hide AfterFrame, Sound, IsFrame, All, Flat;
  }

  /** Each call either delivers exactly the next chunk, or waits without losing its place, or ends. */
  lemma ReadInternalInSync(k: Codec, h: Hidden, r: Reader, soft: bool, chunks: seq<Bytes>, frames: seq<Bytes>,
      tail: Bytes)
    requires InSync(k, h, r, chunks, frames, tail)
    ensures var (out, r') := ReadInternal(k, r, soft);
            match out
            case Data(p, large) =>
              chunks[0] != [] && p == chunks[0] && (|frames[0]| <= SIZE ==> !large)
                && InSync(k, AfterFrame(k, h, chunks[0]), r', chunks[1..], frames[1..], tail)
            case Soft => soft && InSync(k, h, r', chunks, frames, tail)
            case Eof =>
              && chunks == [[]] && r'.done && r'.hidden == MakeHeader(k, h, chunks[0]).next
              && |All(r'.src)| + SizeBytes(k) == |Flat(frames)| + |tail|
            case _ => false
    ensures !soft ==> ReadInternal(k, r, soft).0.Eof? == (chunks == [[]])
  {
    hide MakeHeader, AfterFrame, Sound, InSync, ReadSize, ReadPayload, Configured, AreFrames, All, Flat, Ended,
      FitsSize, ConstantOffset, NextPadding;
    InSyncShape(k, h, r, chunks, frames, tail);
    if soft && |r.src.buffered| < SizeBytes(k) {
      return;
    }
    ReadSizeInSync(k, h, r, chunks, frames, tail);
    var (sizes, r1) := ReadSize(k, r);
    EndTest(k, chunks, MakeHeader(k, h, chunks[0]).pad);
    if chunks[0] != [] {
      SaveSizeInSync(k, h, r1, sizes.value.0, chunks, frames, tail);
      ReadPayloadInSync(k, h, r1, chunks, frames, tail);
    }
  }

  /** Comparing sizes modulo 2^16 recognises the end chunk and nothing else. */
  lemma EndTest(k: Codec, chunks: seq<Bytes>, pad: nat)
    requires Ended(k, chunks) && pad <= MaxPadding(k)
    ensures chunks[0] == [] <==> chunks == [[]]
    ensures (|chunks[0]| + Overhead(k) + pad) % 65536 == (Overhead(k) + pad) % 65536 <==> chunks[0] == []
  {
    assert FitsSize(k, chunks[0]);
  }

  /** Saving the decoded size keeps the reader in step. */
  lemma SaveSizeInSync(k: Codec, h: Hidden, r: Reader, size: Uint16, chunks: seq<Bytes>, frames: seq<Bytes>,
      tail: Bytes)
    requires Sound(k, h) && Ended(k, chunks) && chunks[0] != [] && AreFrames(k, h, chunks, frames)
    requires var hd := MakeHeader(k, h, chunks[0]);
             && !r.done && r.hidden == hd.next && size + ConstantOffset(k) == |chunks[0]| + Overhead(k) + hd.pad
    requires All(r.src) == (Flat(frames) + tail)[SizeBytes(k)..]
    ensures InSync(k, h, r.(size := size, paddingLen := MakeHeader(k, h, chunks[0]).pad, hasSize := true), chunks,
        frames, tail)
  {
    hide MakeHeader;
    FrontOfWire(k, h, chunks, frames, tail);
  }

  lemma InSyncShape(k: Codec, h: Hidden, r: Reader, chunks: seq<Bytes>, frames: seq<Bytes>, tail: Bytes)
    requires InSync(k, h, r, chunks, frames, tail)
    ensures Sound(k, h) && Configured(k, r.hidden) && !r.done
    ensures Ended(k, chunks) && AreFrames(k, h, chunks, frames) && FitsSize(k, chunks[0])
  {
  }

  /** The first j chunks are read: either the end was seen after them, or the reader is in step behind them. */
  ghost predicate Progress(k: Codec, h: Hidden, r: Reader, j: nat, chunks: seq<Bytes>, frames: seq<Bytes>, tail: Bytes)
    requires Sound(k, h) && AllFit(k, chunks) && |frames| == |chunks|
  {
    && j < |chunks|
    && if r.done then
         && j == |chunks| - 1 && r.hidden == MakeHeader(k, AfterFrames(k, h, chunks[..j]), chunks[j]).next
         && |All(r.src)| + SizeBytes(k) == |Flat(frames[j..])| + |tail|
       else InSync(k, AfterFrames(k, h, chunks[..j]), r, chunks[j..], frames[j..], tail)
  }

  lemma ProgressStart(k: Codec, h: Hidden, r: Reader, chunks: seq<Bytes>, frames: seq<Bytes>, tail: Bytes)
    requires Sound(k, h) && Ended(k, chunks) && |frames| == |chunks|
    requires
      || InSync(k, h, r, chunks, frames, tail)
      || (&& chunks == [[]] && r.done && r.hidden == MakeHeader(k, h, chunks[0]).next
          && |All(r.src)| + SizeBytes(k) == |Flat(frames)| + |tail|)
    ensures Progress(k, h, r, 0, chunks, frames, tail) && Flat(chunks[..0]) == []
  {
    hide MakeHeader, Sound;
    assert chunks[..0] == [] && chunks[0..] == chunks && frames[0..] == frames;
  }

  lemma ProgressCons(k: Codec, h: Hidden, r: Reader, i: nat, chunks: seq<Bytes>, frames: seq<Bytes>, tail: Bytes)
    requires Sound(k, h) && AllFit(k, chunks) && |frames| == |chunks| && |chunks| >= 1
    requires Progress(k, AfterFrame(k, h, chunks[0]), r, i, chunks[1..], frames[1..], tail)
    ensures Progress(k, h, r, i + 1, chunks, frames, tail)
    ensures i + 1 < |chunks| && chunks[..i + 1] == [chunks[0]] + chunks[1..][..i]
    ensures Flat(chunks[..i + 1]) == chunks[0] + Flat(chunks[1..][..i])
  {
    hide InSync, AfterFrame, Sound, MakeHeader;
    assert chunks[..i + 1][1..] == chunks[1..][..i] && chunks[1..][i..] == chunks[i + 1..]
        && frames[1..][i..] == frames[i + 1..];
  }

  lemma DeliverThenRest(mb: MultiBuffer, out: Outcome, chunks: seq<Bytes>, i: nat)
    requires out.Data? && i < |chunks| && out.plain == chunks[0]
    ensures Flat(Deliver(mb, out)) + Flat(chunks[1..][..i]) == Flat(mb) + Flat(chunks[..i + 1])
    ensures !out.large ==> Deliver(mb, out) + chunks[1..][..i] == mb + chunks[..i + 1]
  {
    hide Deliver;
    DeliverAppends(mb, out);
    assert chunks[..i + 1][1..] == chunks[1..][..i];
  }

  /** The frame does not lie whole in the buffer, a consumed header counted in. */
  predicate Awaits(k: Codec, r: Reader, frame: Bytes) {
    |r.src.buffered| + (if r.hasSize then SizeBytes(k) else 0) < |frame|
  }

  /** A soft read at a frame's beginning gives up only when the frame is not whole in the buffer. */
  lemma SoftAwaits(k: Codec, h: Hidden, r: Reader, chunks: seq<Bytes>, frames: seq<Bytes>, tail: Bytes)
    requires InSync(k, h, r, chunks, frames, tail) && !r.hasSize && Configured(k, r.hidden)
    requires ReadInternal(k, r, true).0.Soft? && |frames| >= 1
    ensures Awaits(k, ReadInternal(k, r, true).1, frames[0])
  {
    hide MakeHeader, Sound, ReadSize, ReadPayload, AreFrames, All, Flat, Ended, FitsSize, ConstantOffset, NextPadding,
      Configured, InSync;
    InSyncShape(k, h, r, chunks, frames, tail);
    FrontOfWire(k, h, chunks, frames, tail);
    if |r.src.buffered| >= SizeBytes(k) {
      ReadSizeInSync(k, h, r, chunks, frames, tail);
      KeepsConfigured(k, r);
      var (sizes, r1) := ReadSize(k, r);
      NeverSoft(k, r1, sizes.value.0 + ConstantOffset(k), sizes.value.1);
    }
  }

  lemma NeverSoft(k: Codec, r: Reader, size: nat, pad: nat)
    requires Configured(k, r.hidden)
    ensures !ReadPayload(k, r, size, pad).0.Soft?
  {
  }

  /** Read-ahead delivers some further chunks whole and in order, and stops in step. */
  lemma {:induction false} ReadMoreInSync(k: Codec, h: Hidden, r: Reader, n: nat, mb: MultiBuffer,
                                          chunks: seq<Bytes>, frames: seq<Bytes>, tail: Bytes)
    returns (j: nat)
    requires InSync(k, h, r, chunks, frames, tail)
    ensures var (got, r') := ReadMore(k, r, n, mb);
            && j <= n && Progress(k, h, r', j, chunks, frames, tail)
            && got.Some? && Flat(got.value) == Flat(mb) + Flat(chunks[..j])
            && (AllRegular(frames) ==> got.value == mb + chunks[..j])
            && (!r.hasSize ==> j == n || r'.done || Awaits(k, r', frames[j]))
    decreases n
  {
    hide ReadInternal, InSync, Sound, AfterFrame, AfterFrames, Deliver, Progress, MakeHeader, Configured, Awaits;
    j := 0;
    InSyncShape(k, h, r, chunks, frames, tail);
    if n == 0 {
      ProgressStart(k, h, r, chunks, frames, tail);
    } else {
      ReadInternalInSync(k, h, r, true, chunks, frames, tail);
      var (out, r') := ReadInternal(k, r, true);
      if out.Data? {
        var i := ReadMoreInSync(k, AfterFrame(k, h, chunks[0]), r', n - 1, Deliver(mb, out), chunks[1..],
            frames[1..], tail);
        j := i + 1;
        ProgressCons(k, h, ReadMore(k, r, n, mb).1, i, chunks, frames, tail);
        DeliverThenRest(mb, out, chunks, i);
        DataClearsSize(k, r, true);
      } else {
        ProgressStart(k, h, r', chunks, frames, tail);
        if !r.hasSize && out.Soft? { SoftAwaits(k, h, r, chunks, frames, tail); }
      }
    }
  }

  lemma DeliverAppends(mb: MultiBuffer, out: Outcome)
    requires out.Data?
    ensures Flat(Deliver(mb, out)) == Flat(mb) + out.plain
    ensures !out.large ==> Deliver(mb, out) == mb + [out.plain]
  {
    if out.large {
      MultiBuffers.MergeBytesAppends(mb, out.plain);
    } else {
      FlatAppend(mb, [out.plain]);
      FlatOne(out.plain);
    }
  }

  /**
   * One ReadMultiBuffer on a well-formed stream: EOF exactly at the end chunk; otherwise between
   * one and sixteen whole chunks, in order, with the reader's hidden state in lockstep, and fewer than sixteen
   * only when the end is reached or the next frame does not lie whole in the buffer. Frames no
   * larger than a regular buffer come back one chunk to a buffer, so packet boundaries survive.
   */
  lemma ReadBatchInSync(k: Codec, h: Hidden, r: Reader, chunks: seq<Bytes>, frames: seq<Bytes>, tail: Bytes)
    returns (j: nat)
    requires InSync(k, h, r, chunks, frames, tail)
    ensures var (got, r') := ReadBatch(k, r);
            && j <= READ_SIZE && Progress(k, h, r', j, chunks, frames, tail)
            && (match got
                case Got(mb) =>
                  && j >= 1 && Flat(mb) == Flat(chunks[..j]) && (AllRegular(frames) ==> mb == chunks[..j])
                  && (j == 16 || r'.done || Awaits(k, r', frames[j]))
                case End => |chunks| == 1 && r'.done
                case Error => false)
  {
    hide ReadInternal, InSync, Sound, AfterFrame, AfterFrames, Deliver, Progress, ReadMore, MakeHeader, Configured,
      Awaits;
    InSyncShape(k, h, r, chunks, frames, tail);
    ReadInternalInSync(k, h, r, false, chunks, frames, tail);
    var (out, r1) := ReadInternal(k, r, false);
    j := 0;
    if out.Data? {
      var i := ReadMoreInSync(k, AfterFrame(k, h, chunks[0]), r1, READ_SIZE - 1, Deliver([], out), chunks[1..],
          frames[1..], tail);
      j := i + 1;
      ProgressCons(k, h, ReadBatch(k, r).1, i, chunks, frames, tail);
      DeliverThenRest([], out, chunks, i);
      DataClearsSize(k, r, false);
      assert [] + chunks[..j] == chunks[..j] && Flat<Byte>([]) + Flat(chunks[..j]) == Flat(chunks[..j]);
    } else {
      ProgressStart(k, h, r1, chunks, frames, tail);
    }
  }

  // ---- against the plain reader ----

  /** The simple reader: n hard reads, one chunk each. None when one of them is not data. */
  function HardReads(k: Codec, r: Reader, n: nat): (Option<seq<Bytes>>, Reader)
    requires Configured(k, r.hidden)
    decreases n
  {
    if n == 0 then (Some([]), r)
    else
      InternalKeepsConfigured(k, r, false);
      var (out, r1) := ReadInternal(k, r, false);
      if !out.Data? then (None, r1)
      else
        var (rest, r2) := HardReads(k, r1, n - 1);
        (if rest == None then None else Some([out.plain] + rest.value), r2)
  }

  lemma {:induction false} HardReadsInSync(k: Codec, h: Hidden, r: Reader, n: nat, chunks: seq<Bytes>,
      frames: seq<Bytes>, tail: Bytes)
    requires InSync(k, h, r, chunks, frames, tail) && n < |chunks|
    ensures HardReads(k, r, n).0 == Some(chunks[..n])
    ensures Progress(k, h, HardReads(k, r, n).1, n, chunks, frames, tail) && !HardReads(k, r, n).1.done
    ensures n > 0 ==> !HardReads(k, r, n).1.hasSize
    decreases n
  {
    hide ReadInternal, InSync, Sound, AfterFrame, AfterFrames, Progress;
    InSyncShape(k, h, r, chunks, frames, tail);
    if n == 0 {
      ProgressStart(k, h, r, chunks, frames, tail);
    } else {
      ReadInternalInSync(k, h, r, false, chunks, frames, tail);
      DataClearsSize(k, r, false);
      var r1 := ReadInternal(k, r, false).1;
      HardReadsInSync(k, AfterFrame(k, h, chunks[0]), r1, n - 1, chunks[1..], frames[1..], tail);
      ProgressCons(k, h, HardReads(k, r, n).1, n - 1, chunks, frames, tail);
      assert chunks[..n] == [chunks[0]] + chunks[1..][..n - 1];
    }
  }

  lemma DataClearsSize(k: Codec, r: Reader, soft: bool)
    requires Configured(k, r.hidden)
    ensures ReadInternal(k, r, soft).0.Data? ==> !ReadInternal(k, r, soft).1.hasSize
  {
  }

  /** The draws of the header of `plain` on top of a state at a chunk boundary. */
  function AfterHeader(k: Codec, h: Hidden, plain: Bytes): Hidden
    requires Sound(k, h) && FitsSize(k, plain)
  {
    MakeHeader(k, h, plain).next
  }

  /**
   * Read-ahead refines the simple reader. From any two readers in step with the same writer,
   * however much either has buffered, one ReadMultiBuffer delivers the bytes of some j hard reads,
   * and its hidden state is theirs, plus at most the header draws of the next chunk if it has
   * already looked at that chunk's size.
   */
  lemma ReadAheadRefinesHardReads(k: Codec, h: Hidden, r: Reader, plain: Reader,
                                  chunks: seq<Bytes>, frames: seq<Bytes>, tail: Bytes)
    returns (j: nat)
    requires InSync(k, h, r, chunks, frames, tail) && InSync(k, h, plain, chunks, frames, tail) && !plain.hasSize
    ensures var (got, r') := ReadBatch(k, r); var (simple, p') := HardReads(k, plain, j);
            && j < |chunks| && simple.Some? && !got.Error?
            && (got.End? <==> chunks == [[]])
            && (got.Got? ==> j >= 1 && Flat(got.mb) == Flat(simple.value))
            && Sound(k, p'.hidden) && FitsSize(k, chunks[j])
            && (r'.hidden == if r'.hasSize || r'.done then AfterHeader(k, p'.hidden, chunks[j]) else p'.hidden)
            && (r'.done ==> chunks[j..] == [[]])
  {
    hide ReadInternal, Sound, AfterFrame, Deliver, ReadMore, ReadBatch, HardReads, MakeHeader;
    j := ReadBatchInSync(k, h, r, chunks, frames, tail);
    InSyncShape(k, h, r, chunks, frames, tail);
    HardReadsInSync(k, h, plain, j, chunks, frames, tail);
    var r', p' := ReadBatch(k, r).1, HardReads(k, plain, j).1;
    assert p'.hidden == AfterFrames(k, h, chunks[..j]);
  }

  // ---- whole runs ----

  lemma {:induction false} MoreKeepsConfigured(k: Codec, r: Reader, n: nat, mb: MultiBuffer)
    requires Configured(k, r.hidden)
    ensures Configured(k, ReadMore(k, r, n, mb).1.hidden)
    decreases n
  {
    hide ReadInternal, Configured, Deliver;
    if n > 0 {
      InternalKeepsConfigured(k, r, true);
      var (out, r') := ReadInternal(k, r, true);
      if out.Data? {
        MoreKeepsConfigured(k, r', n - 1, Deliver(mb, out));
      }
    }
  }

  lemma BatchKeepsConfigured(k: Codec, r: Reader)
    requires Configured(k, r.hidden)
    ensures Configured(k, ReadBatch(k, r).1.hidden)
  {
    hide ReadInternal, ReadMore, Configured, Deliver;
    InternalKeepsConfigured(k, r, false);
    var (out, r1) := ReadInternal(k, r, false);
    if out.Data? {
      MoreKeepsConfigured(k, r1, READ_SIZE - 1, Deliver([], out));
    }
  }

  /** The bytes of `calls` successive ReadMultiBuffer calls; None when one of them returns no data. */
  function Reads(k: Codec, r: Reader, calls: nat): (Option<Bytes>, Reader)
    requires Configured(k, r.hidden)
    decreases calls
  {
    if calls == 0 then (Some([]), r)
    else
      BatchKeepsConfigured(k, r);
      var (got, r1) := ReadBatch(k, r);
      if !got.Got? then (None, r1)
      else
        var (rest, r2) := Reads(k, r1, calls - 1);
        (if rest == None then None else Some(Flat(got.mb) + rest.value), r2)
  }

  /** A reader in step reads the whole plaintext, then EOF, however the transport cut the wire. */
  lemma {:induction false} ReadsWholeStream(k: Codec, h: Hidden, r: Reader, chunks: seq<Bytes>, frames: seq<Bytes>,
      tail: Bytes)
    returns (calls: nat)
    requires InSync(k, h, r, chunks, frames, tail)
    ensures Configured(k, r.hidden)
    ensures Reads(k, r, calls).0 == Some(Flat(chunks)) && Configured(k, Reads(k, r, calls).1.hidden)
    ensures ReadBatch(k, Reads(k, r, calls).1).0.End?
    decreases |chunks|
  {
    hide ReadInternal, InSync, Sound, AfterFrame, AfterFrames, ReadBatch, Configured, MakeHeader;
    InSyncShape(k, h, r, chunks, frames, tail);
    var j := ReadBatchInSync(k, h, r, chunks, frames, tail);
    BatchKeepsConfigured(k, r);
    var (got, r1) := ReadBatch(k, r);
    FlatSplit(chunks, j);
    if got.End? {
      calls := 0;
    } else if r1.done {
      calls := 1;
      assert chunks[j..] == [[]];
      assert Reads(k, r1, 0) == (Some([]), r1);
      DoneReadsEnd(k, r1);
    } else {
      var c := ReadsWholeStream(k, AfterFrames(k, h, chunks[..j]), r1, chunks[j..], frames[j..], tail);
      calls := c + 1;
    }
  }

  lemma DoneReadsEnd(k: Codec, r: Reader)
    requires Configured(k, r.hidden) && r.done
    ensures ReadBatch(k, r) == (End, r)
  {
  }
}
