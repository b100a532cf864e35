/** AuthenticationWriter (common/crypto/auth.go): sealing, stream writes and packet writes. */
module AuthWriters {
  import opened Basics
  import opened Codecs
  import opened MultiBuffers

  /** A byte stream cut into pieces of n bytes, the last one possibly shorter. */
  function Pieces(c: Bytes, n: nat): (r: seq<Bytes>)
    requires n >= 1
    ensures Flat(r) == c && |r| >= 1
    ensures c != [] ==> forall i :: 0 <= i < |r| ==> 1 <= |r[i]| <= n
    decreases |c|
  {
    if |c| <= n then FlatOne(c); [c] else [c[..n]] + Pieces(c[n..], n)
  }

  datatype Sealed = Frame(bytes: Bytes) | TooLarge | NonceError | Panic

  /** Size of the frame that sealing `plain` in state h would make. */
  function TotalSize(k: Codec, h: Hidden, plain: Bytes): nat {
    SizeBytes(k) + |plain| + Overhead(k) + NextPadding(k, h).0
  }

  /** writePacket skips empty packets and those that are too large, but the latter after drawing a padding length. */
  function AfterPackets(k: Codec, h: Hidden, mb: MultiBuffer): (r: Hidden)
    requires Sound(k, h)
    ensures Sound(k, r)
    decreases |mb|
  {
    if mb == [] then h
    else if mb[0] == [] then AfterPackets(k, h, mb[1..])
    else if TotalSize(k, h, mb[0]) > SIZE then AfterPackets(k, NextPadding(k, h).1, mb[1..])
    else AfterPackets(k, AfterFrame(k, h, mb[0]), mb[1..])
  }

  /** The packets that go out. */
  function SentPackets(k: Codec, h: Hidden, mb: MultiBuffer): seq<Bytes>
    requires Sound(k, h)
    decreases |mb|
  {
    if mb == [] then []
    else if mb[0] == [] then SentPackets(k, h, mb[1..])
    else if TotalSize(k, h, mb[0]) > SIZE then SentPackets(k, NextPadding(k, h).1, mb[1..])
    else [mb[0]] + SentPackets(k, AfterFrame(k, h, mb[0]), mb[1..])
  }

  /** Some packet of `mb` is too large for the padding drawn when its turn comes. */
  predicate SkipsPacket(k: Codec, h: Hidden, mb: MultiBuffer)
    requires Sound(k, h)
    decreases |mb|
  {
    mb != [] &&
    if mb[0] == [] then SkipsPacket(k, h, mb[1..])
    else TotalSize(k, h, mb[0]) > SIZE || SkipsPacket(k, AfterFrame(k, h, mb[0]), mb[1..])
  }

  /** `frames` are what writePacket emits: each packet that goes out is framed in the state of its turn. */
  ghost predicate PacketsFramed(k: Codec, h: Hidden, mb: MultiBuffer, frames: seq<Bytes>)
    requires Sound(k, h)
    decreases |mb|
  {
    if mb == [] then frames == []
    else if mb[0] == [] then PacketsFramed(k, h, mb[1..], frames)
    else if TotalSize(k, h, mb[0]) > SIZE then PacketsFramed(k, NextPadding(k, h).1, mb[1..], frames)
    else
      && frames != [] && IsFrame(k, h, mb[0], frames[0])
      && PacketsFramed(k, AfterFrame(k, h, mb[0]), mb[1..], frames[1..])
  }

  class AuthenticationWriter {
    const k: Codec
    var hidden: Hidden
    var out: seq<Bytes>   // buffers handed to the downstream writer

    constructor (k: Codec, h: Hidden)
      ensures this.k == k && hidden == h && out == []
    {
      this.k, hidden, out := k, h, [];
    }

    /** rand.Read: any bytes at all. */
    static method RandomBytes(n: nat) returns (b: Bytes)
      ensures |b| == n
    {
      b := seq(n, _ => 0);
    }

    /** seal: pad, size, payload, in that order of draws. */
    method Seal(b: Bytes) returns (r: Sealed)
      requires Configured(k, hidden)
      modifies this`hidden
      ensures Configured(k, hidden)
      ensures TotalSize(k, old(hidden), b) > SIZE <==> r.TooLarge?
      ensures r.TooLarge? ==> hidden == NextPadding(k, old(hidden)).1
      ensures Sound(k, old(hidden)) && !r.TooLarge? ==>
        && r.Frame? && FitsSize(k, b) && |r.bytes| <= SIZE
        && IsFrame(k, old(hidden), b, r.bytes) && hidden == AfterFrame(k, old(hidden), b)
    {
      hide EncodeSize, Codecs.Seal, Sound, Configured, AfterFrame, IsFrame;
      ghost var h := hidden;
      var (pad, h1) := NextPadding(k, hidden);
      var encrypted := |b| + Overhead(k);
      StaysConfigured(k, hidden, 0, b);
      hidden := h1;
      if SizeBytes(k) + encrypted + pad > SIZE {
        return TooLarge;
      }
      var filler := RandomBytes(pad);
      if Sound(k, h) {
        HeaderMade(k, h, b, pad, h1);
        BodyMade(k, h, b);
        PartsMakeFrame(k, h, b, filler);
      }
      StaysConfigured(k, hidden, encrypted + pad, b);
      ConfiguredWired(k, hidden);
      var (head, h2) := EncodeSize(k, hidden, encrypted + pad);
      hidden := h2;
      if head.None? {
        return Panic;
      }
      StaysConfigured(k, hidden, 0, b);
      ConfiguredWired(k, hidden);
      var (body, h3) := Codecs.Seal(k.auth, hidden, b);
      hidden := h3;
      if body.None? {
        return NonceError;
      }
      r := Frame(head.value + body.value + filler);
    }

    const MAX_BUFFERS := 64 * 1024 * 1024

    /** writeStream: cut the content into maximal payloads and seal each. */
    method WriteStream(mb: MultiBuffer) returns (ok: bool, ghost frames: seq<Bytes>)
      requires Sound(k, hidden) && !IsEmpty(mb)
      modifies this
      ensures ok <==> |mb| + 10 <= MAX_BUFFERS
      ensures out == old(out) + frames
      ensures !ok ==> frames == [] && hidden == old(hidden)
      ensures ok ==>
        var pieces := Pieces(Flat(mb), PayloadSize(k));
        && AllFit(k, pieces) && AreFrames(k, old(hidden), pieces, frames)
        && hidden == AfterFrames(k, old(hidden), pieces)
    {
      hide Sound, IsFrame, AreFrames, AfterFrame, AfterFrames, TotalSize, Flat, PayloadSize, Pieces, IsEmpty,
          Configured, AllFit, FitsSize, MultiBuffers.SplitBytes;
      if |mb| + 10 > MAX_BUFFERS {
        return false, [];
      }
      ghost var h0 := hidden;
      var n := PayloadSize(k);
      SoundFacts(k, hidden);
      PiecesFit(k, Flat(mb));
      var rest, more := mb, true;
      var toWrite: seq<Bytes>, written: seq<Bytes> := [], [];
      NoFrames(k, hidden);
      while more
        invariant h0 == old(hidden) && out == old(out)
        invariant more ==> !IsEmpty(rest)
        invariant more ==> written + Pieces(Flat(rest), n) == Pieces(Flat(mb), n)
        invariant !more ==> written == Pieces(Flat(mb), n)
        invariant AllFit(k, written) && AreFrames(k, h0, written, toWrite)
        invariant hidden == AfterFrames(k, h0, written)
        decreases more, |Flat(rest)|
      {
        CutPiece(rest, n);
        var (left, raw) := SplitBytes(rest, n);
        RoomForPayload(k, hidden, raw);
        ghost var h := hidden;
        SoundFacts(k, h);
        var eb := Seal(raw);
        OneFrame(k, h, raw, eb.bytes);
        FramesAppend(k, h0, written, toWrite, [raw], [eb.bytes]);
        toWrite, written := toWrite + [eb.bytes], written + [raw];
        rest, more := left, !IsEmpty(left);
      }
      out := out + toWrite;
      return true, toWrite;
    }

    /** writePacket: seal every non-empty packet that fits; drop the others silently. */
    method WritePacket(mb: MultiBuffer) returns (ok: bool, ghost frames: seq<Bytes>)
      requires Sound(k, hidden)
      modifies this
      ensures ok <==> |mb| + 1 <= MAX_BUFFERS
      ensures out == old(out) + frames
      ensures !ok ==> frames == [] && hidden == old(hidden)
      ensures ok ==> PacketsFramed(k, old(hidden), mb, frames) && hidden == AfterPackets(k, old(hidden), mb)
    {
      hide Sound, IsFrame, AfterFrame, Configured, TotalSize;
      if |mb| + 1 > MAX_BUFFERS {
        return false, [];
      }
      var toWrite: seq<Bytes> := [];
      var i := 0;
      ghost var h0 := hidden;
      assert mb[0..] == mb;
      assert forall fs: seq<Bytes> :: toWrite + fs == fs;
      while i < |mb|
        invariant 0 <= i <= |mb| && h0 == old(hidden) && out == old(out)
        invariant Sound(k, hidden)
        invariant AfterPackets(k, h0, mb) == AfterPackets(k, hidden, mb[i..])
        invariant forall fs :: PacketsFramed(k, hidden, mb[i..], fs) ==> PacketsFramed(k, h0, mb, toWrite + fs)
      {
        assert mb[i..][0] == mb[i] && mb[i..][1..] == mb[i + 1..];
        if mb[i] != [] {
          SoundFacts(k, hidden);
          ghost var h, was := hidden, toWrite;
          PaddingKeepsSound(k, hidden);
          var eb := Seal(mb[i]);
          if eb.Frame? {
            toWrite := toWrite + [eb.bytes];
            forall fs | PacketsFramed(k, hidden, mb[i + 1..], fs) ensures PacketsFramed(k, h0, mb, toWrite + fs) {
              assert ([eb.bytes] + fs)[1..] == fs;
              assert PacketsFramed(k, h, mb[i..], [eb.bytes] + fs);
              assert toWrite + fs == was + ([eb.bytes] + fs);
            }
          }
        }
        i := i + 1;
      }
      assert PacketsFramed(k, hidden, mb[i..], []);
      assert toWrite + [] == toWrite;
      if toWrite != [] {
        out := out + toWrite;
      }
      return true, toWrite;
    }

    /** WriteMultiBuffer: an empty write is the end chunk. */
    method WriteMultiBuffer(mb: MultiBuffer, stream: bool) returns (ok: bool, ghost frames: seq<Bytes>)
      requires Sound(k, hidden)
      modifies this
      ensures out == old(out) + frames
      ensures IsEmpty(mb) ==>
        && ok && FitsSize(k, []) && AreFrames(k, old(hidden), [[]], frames)
        && hidden == AfterFrames(k, old(hidden), [[]])
      ensures !IsEmpty(mb) && stream ==>
        && (ok <==> |mb| + 10 <= MAX_BUFFERS)
        && (ok ==> var pieces := Pieces(Flat(mb), PayloadSize(k));
            && AllFit(k, pieces) && AreFrames(k, old(hidden), pieces, frames)
            && hidden == AfterFrames(k, old(hidden), pieces))
      ensures !IsEmpty(mb) && !stream ==>
        && (ok <==> |mb| + 1 <= MAX_BUFFERS)
        && (ok ==> PacketsFramed(k, old(hidden), mb, frames) && hidden == AfterPackets(k, old(hidden), mb))
    {
      hide IsFrame, AfterFrame, Configured, TotalSize;
      if IsEmpty(mb) {
        ghost var h := hidden;
        RoomForPayload(k, h, []);
        SoundFacts(k, h);
        var eb := Seal([]);
        OneFrame(k, h, [], eb.bytes);
        out := out + [eb.bytes];
        return true, [eb.bytes];
      }
      if stream {
        ok, frames := WriteStream(mb);
      } else {
        ok, frames := WritePacket(mb);
      }
    }
  }

  // ---- packet mode ----

  predicate SendsWhole(k: Codec, h: Hidden, mb: MultiBuffer)
    requires Sound(k, h)
  {
    !k.padding || !SkipsPacket(k, h, mb)
  }

  /** When nothing is skipped or nothing is padded, the output is a plain run of frames of the packets sent. */
  lemma {:induction false} PacketsAreFrames(k: Codec, h: Hidden, mb: MultiBuffer, frames: seq<Bytes>)
    requires Sound(k, h) && SendsWhole(k, h, mb) && PacketsFramed(k, h, mb, frames)
    ensures var sent := SentPackets(k, h, mb);
            AllFit(k, sent) && AreFrames(k, h, sent, frames) && AfterPackets(k, h, mb) == AfterFrames(k, h, sent)
    decreases |mb|
  {
    hide Sound, IsFrame, AfterFrame;
    if mb != [] {
      if mb[0] == [] {
        PacketsAreFrames(k, h, mb[1..], frames);
      } else if TotalSize(k, h, mb[0]) > SIZE {
        assert NextPadding(k, h).1 == h;
        PacketsAreFrames(k, h, mb[1..], frames);
      } else {
        PacketsAreFrames(k, AfterFrame(k, h, mb[0]), mb[1..], frames[1..]);
      }
    }
  }

  function NonEmptyPackets(mb: MultiBuffer): seq<Bytes> {
    if mb == [] then [] else (if mb[0] == [] then [] else [mb[0]]) + NonEmptyPackets(mb[1..])
  }

  /** The packets that go out are the non-empty ones, exactly when none is skipped as too large. */
  lemma {:induction false} AllSentExactly(k: Codec, h: Hidden, mb: MultiBuffer)
    requires Sound(k, h)
    ensures SentPackets(k, h, mb) == NonEmptyPackets(mb) <==> !SkipsPacket(k, h, mb)
    ensures |SentPackets(k, h, mb)| <= |NonEmptyPackets(mb)|
    ensures SkipsPacket(k, h, mb) ==> |SentPackets(k, h, mb)| < |NonEmptyPackets(mb)|
    decreases |mb|
  {
    hide Sound, AfterFrame;
    if mb != [] {
      if mb[0] == [] {
        AllSentExactly(k, h, mb[1..]);
        assert NonEmptyPackets(mb) == NonEmptyPackets(mb[1..]);
      } else if TotalSize(k, h, mb[0]) > SIZE {
        PaddingKeepsSound(k, h);
        AllSentExactly(k, NextPadding(k, h).1, mb[1..]);
      } else {
        AllSentExactly(k, AfterFrame(k, h, mb[0]), mb[1..]);
      }
    }
  }

  /** Writing one list of packets after another is writing both as one list. */
  lemma {:induction false} PacketsAppend(k: Codec, h: Hidden, a: MultiBuffer, f1: seq<Bytes>, b: MultiBuffer,
      f2: seq<Bytes>)
    requires Sound(k, h) && PacketsFramed(k, h, a, f1) && PacketsFramed(k, AfterPackets(k, h, a), b, f2)
    ensures PacketsFramed(k, h, a + b, f1 + f2)
        && AfterPackets(k, h, a + b) == AfterPackets(k, AfterPackets(k, h, a), b)
    decreases |a|
  {
    hide Sound, AfterFrame, IsFrame;
    if a == [] {
      assert a + b == b && f1 + f2 == f2;
    } else {
      assert (a + b)[1..] == a[1..] + b;
      PaddingKeepsSound(k, h);
      if a[0] == [] {
        PacketsAppend(k, h, a[1..], f1, b, f2);
      } else if TotalSize(k, h, a[0]) > SIZE {
        PacketsAppend(k, NextPadding(k, h).1, a[1..], f1, b, f2);
      } else {
        assert (f1 + f2)[1..] == f1[1..] + f2;
        PacketsAppend(k, AfterFrame(k, h, a[0]), a[1..], f1[1..], b, f2);
      }
    }
  }

  /** Every frame of a packet write fits a regular buffer. */
  lemma {:induction false} PacketFramesRegular(k: Codec, h: Hidden, mb: MultiBuffer, frames: seq<Bytes>)
    requires Sound(k, h) && PacketsFramed(k, h, mb, frames)
    ensures forall i :: 0 <= i < |frames| ==> |frames[i]| <= SIZE
    decreases |mb|
  {
    hide Sound, AfterFrame;
    if mb != [] {
      PaddingKeepsSound(k, h);
      if mb[0] == [] {
        PacketFramesRegular(k, h, mb[1..], frames);
      } else if TotalSize(k, h, mb[0]) > SIZE {
        PacketFramesRegular(k, NextPadding(k, h).1, mb[1..], frames);
      } else {
        PacketFramesRegular(k, AfterFrame(k, h, mb[0]), mb[1..], frames[1..]);
      }
    }
  }

  /** Words of the Shake stream one frame uses. */
  function WordsPerFrame(k: Codec): nat {
    (if k.padding then 1 else 0) + (if k.size.Shake? then 1 else 0)
  }

  lemma FrameWords(k: Codec, h: Hidden, plain: Bytes)
    requires Sound(k, h) && FitsSize(k, plain)
    ensures AfterFrame(k, h, plain).draws == h.draws + WordsPerFrame(k)
  {
    var (pad, h1) := NextPadding(k, h);
    var (b, h2) := EncodeSize(k, h1, |plain| + Overhead(k) + pad);
    assert MakeHeader(k, h, plain).next == h2;
    assert h2.draws == h1.draws + if k.size.Shake? then 1 else 0;
  }

  lemma {:induction false} FramesWords(k: Codec, h: Hidden, chunks: seq<Bytes>)
    requires Sound(k, h) && AllFit(k, chunks)
    ensures AfterFrames(k, h, chunks).draws == h.draws + |chunks| * WordsPerFrame(k)
    decreases |chunks|
  {
    hide Sound, AfterFrame, WordsPerFrame;
    if chunks != [] {
      FrameWords(k, h, chunks[0]);
      FramesWords(k, AfterFrame(k, h, chunks[0]), chunks[1..]);
      assert |chunks| * WordsPerFrame(k) == WordsPerFrame(k) + |chunks[1..]| * WordsPerFrame(k);
    }
  }

  lemma {:induction false} PacketsWords(k: Codec, h: Hidden, mb: MultiBuffer)
    requires Sound(k, h)
    ensures var n := AfterPackets(k, h, mb).draws - h.draws - |SentPackets(k, h, mb)| * WordsPerFrame(k);
            n >= 0 && (k.padding && SkipsPacket(k, h, mb) ==> n >= 1)
    decreases |mb|
  {
    hide Sound, AfterFrame, WordsPerFrame;
    if mb != [] {
      if mb[0] == [] {
        PacketsWords(k, h, mb[1..]);
      } else if TotalSize(k, h, mb[0]) > SIZE {
        PaddingKeepsSound(k, h);
        PacketsWords(k, NextPadding(k, h).1, mb[1..]);
      } else {
        FrameWords(k, h, mb[0]);
        PacketsWords(k, AfterFrame(k, h, mb[0]), mb[1..]);
        var rest := |SentPackets(k, AfterFrame(k, h, mb[0]), mb[1..])|;
        assert (1 + rest) * WordsPerFrame(k) == WordsPerFrame(k) + rest * WordsPerFrame(k);
      }
    }
  }

  lemma {:induction false} SentPacketsFit(k: Codec, h: Hidden, mb: MultiBuffer)
    requires Sound(k, h)
    ensures AllFit(k, SentPackets(k, h, mb))
    decreases |mb|
  {
    hide Sound, AfterFrame;
    if mb != [] {
      PaddingKeepsSound(k, h);
      if mb[0] == [] {
        SentPacketsFit(k, h, mb[1..]);
      } else if TotalSize(k, h, mb[0]) > SIZE {
        SentPacketsFit(k, NextPadding(k, h).1, mb[1..]);
      } else {
        SentPacketsFit(k, AfterFrame(k, h, mb[0]), mb[1..]);
      }
    }
  }

  /**
   * After a packet write the writer is where a reader of its frames will be exactly when it pads
   * nothing or skipped no oversized packet: a skipped packet costs a padding draw the reader never makes.
   */
  lemma PacketLockstepExactly(k: Codec, h: Hidden, mb: MultiBuffer, frames: seq<Bytes>)
    requires Sound(k, h) && PacketsFramed(k, h, mb, frames)
    ensures AllFit(k, SentPackets(k, h, mb))
    ensures AfterPackets(k, h, mb) == AfterFrames(k, h, SentPackets(k, h, mb)) <==> SendsWhole(k, h, mb)
  {
    SentPacketsFit(k, h, mb);
    if SendsWhole(k, h, mb) {
      PacketsAreFrames(k, h, mb, frames);
    } else {
      PacketsWords(k, h, mb);
      FramesWords(k, h, SentPackets(k, h, mb));
    }
  }

  /** One packet too large for its frame, written with padding, puts the writer ahead of every reader. */
  lemma OversizedPacketDesyncs(k: Codec, h: Hidden, packet: Bytes)
    requires Sound(k, h) && k.padding && |packet| + SizeBytes(k) + Overhead(k) > SIZE
    ensures SentPackets(k, h, [packet]) == [] && PacketsFramed(k, h, [packet], [])
    ensures AfterPackets(k, h, [packet]) != h && AfterPackets(k, h, [packet]).draws == h.draws + 1
  {
    hide Sound;
    PaddingKeepsSound(k, h);
    SoundFacts(k, h);
    assert [packet][1..] == [] && packet != [];
    assert PacketsFramed(k, NextPadding(k, h).1, [], []);
  }

  /** An input: a cipher that adds nothing, plain sizes with padding, and a regular buffer filled to the brim. */
  lemma DesyncIsReal()
    ensures var a := Authenticator(Aead(0, 0, (n, ad, p) => p, (n, ad, c) => Some(c)), 0, None);
            var k := Codec(a, Plain, true, _ => 5); var h := Hidden([Fixed([])], 0);
            var packet := seq(SIZE, _ => 1);
            && Sound(k, h) && PacketsFramed(k, h, [packet], []) && SentPackets(k, h, [packet]) == []
            && AfterPackets(k, h, [packet]) == h.(draws := 1) && AfterFrames(k, h, []) == h
  {
    var a := Authenticator(Aead(0, 0, (n, ad, p) => p, (n, ad, c) => Some(c)), 0, None);
    var k := Codec(a, Plain, true, _ => 5);
    var h := Hidden([Fixed([])], 0);
    var packet: Bytes := seq(SIZE, _ => 1);
    OversizedPacketDesyncs(k, h, packet);
    assert [packet][1..] == [] && packet != [];
  }

  // ---- facts used by the loops ----

  lemma NoFrames(k: Codec, h: Hidden)
    requires Sound(k, h)
    ensures AllFit(k, []) && AreFrames(k, h, [], []) && AfterFrames(k, h, []) == h
  {
  }

  /** SplitBytes of a non-empty list takes off the next piece. */
  lemma CutPiece(mb: MultiBuffer, n: nat)
    requires n >= 1 && !IsEmpty(mb)
    ensures var (left, raw) := SplitBytes(mb, n);
            && 1 <= |raw| <= n && |Flat(left)| < |Flat(mb)|
            && (IsEmpty(left) ==> Pieces(Flat(mb), n) == [raw])
            && (!IsEmpty(left) ==> Pieces(Flat(mb), n) == [raw] + Pieces(Flat(left), n))
  {
    EmptyIffNoBytes(mb);
    SplitBytesCuts(mb, n);
    var (left, raw) := SplitBytes(mb, n);
    EmptyIffNoBytes(left);
    var c := Flat(mb);
    assert raw == c[..Min(n, |c|)] && Flat(left) == c[Min(n, |c|)..];
  }

  lemma PiecesFit(k: Codec, c: Bytes)
    requires PayloadSize(k) >= 1
    ensures AllFit(k, Pieces(c, PayloadSize(k)))
  {
    if c == [] { assert Pieces(c, PayloadSize(k)) == [c]; }
  }

  lemma RoomForPayload(k: Codec, h: Hidden, plain: Bytes)
    requires |plain| <= PayloadSize(k)
    ensures TotalSize(k, h, plain) <= SIZE
  {
  }

  lemma OneFrame(k: Codec, h: Hidden, plain: Bytes, frame: Bytes)
    requires Sound(k, h) && FitsSize(k, plain) && IsFrame(k, h, plain, frame)
    ensures AllFit(k, [plain]) && AreFrames(k, h, [plain], [frame])
    ensures AfterFrames(k, h, [plain]) == AfterFrame(k, h, plain)
  {
    hide Sound, IsFrame, AfterFrame;
    assert [plain][1..] == [] && [frame][1..] == [];
    assert AreFrames(k, AfterFrame(k, h, plain), [], []);
  }
}
