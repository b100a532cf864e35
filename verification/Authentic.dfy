/**
 * The authenticated reader on a wire that anyone may have written (common/crypto/auth.go): only what opens is
 * handed out.
 */
module AuthenticStreams {
  import opened Basics
  import opened Codecs
  import opened Sources
  import opened AuthStream
  import opened Lockstep
  import MultiBuffers
  import Nonce

  // ---- one payload ----

  /** The nonce and the additional data the next payload is opened under, or None when the nonce has a wrong size. */
  function Inputs(k: Codec, h: Hidden): Option<(Bytes, Bytes)>
    requires Wired(k.auth, h)
  {
    DrawInputs(k.auth, h).0
  }

  /**
   * A read whose header says that `size` bytes follow, `pad` of them padding, and that finds them: its outcome
   * is decided by what the cipher says of the bytes without the padding, whatever they are. It is data exactly
   * when they open.
   */
  lemma OpensOrFails(k: Codec, r: Reader, size: nat, pad: nat)
    requires Configured(k, r.hidden) && pad <= size <= |All(r.src)|
    ensures var out := ReadPayload(k, r, size, pad).0; var inputs := Inputs(k, r.hidden);
            var said := if inputs.None? then None
                          else k.auth.aead.open(inputs.value.0, inputs.value.1, All(r.src)[..size - pad]);
            out == if said.Some? then Data(said.value, size > SIZE) else Fail
  {
    hide ReadFull, All;
    ReadFullTakesPrefix(r.src, size);
    assert All(r.src)[..size][..size - pad] == All(r.src)[..size - pad];
  }

  /** Data is only ever handed out of some bytes of the wire that opened. */
  lemma DataOpened(k: Codec, r: Reader, soft: bool)
    requires Configured(k, r.hidden) && ReadInternal(k, r, soft).0.Data?
    ensures Configured(k, ReadSize(k, r).1.hidden) && ReadSize(k, r).0.Sized? && !r.done
    ensures var r1 := ReadSize(k, r).1; var inputs := Inputs(k, r1.hidden);
            && inputs.Some?
            && exists n: nat :: n <= |All(r1.src)|
                 && k.auth.aead.open(inputs.value.0, inputs.value.1, All(r1.src)[..n])
                     == Some(ReadInternal(k, r, soft).0.plain)
  {
    hide ReadSize, ReadPayload, Configured, ConstantOffset, All, DrawInputs;
    KeepsConfigured(k, r);
    var (sizes, r1) := ReadSize(k, r);
    var n := PayloadOpened(k, r1, sizes.value.0 + ConstantOffset(k), sizes.value.1);
  }

  lemma PayloadOpened(k: Codec, r: Reader, size: nat, pad: nat) returns (n: nat)
    requires Configured(k, r.hidden) && ReadPayload(k, r, size, pad).0.Data?
    ensures n <= |All(r.src)| && n <= size && Inputs(k, r.hidden).Some?
    ensures ReadPayload(k, r, size, pad).0.large == (size > SIZE)
    ensures var inputs := Inputs(k, r.hidden).value;
            k.auth.aead.open(inputs.0, inputs.1, All(r.src)[..n]) == Some(ReadPayload(k, r, size, pad).0.plain)
    ensures ReadPayload(k, r, size, pad).1
        == r.(src := ReadFull(r.src, size).1, hidden := DrawInputs(k.auth, r.hidden).1)
  {
    hide ReadFull, All, DrawInputs;
    ReadFullTakesPrefix(r.src, size);
    n := if size <= SIZE && size < pad then 2 * size - pad else size - pad;
    assert All(r.src)[..size][..n] == All(r.src)[..n];
  }

  /** A payload that does not open ends the call with an error, and the call hands out nothing. */
  lemma FailedOpenHandsOutNothing(k: Codec, r: Reader)
    requires Configured(k, r.hidden) && ReadInternal(k, r, false).0.Fail?
    ensures ReadBatch(k, r).0 == Error
  {
  }

  // ---- a whole wire ----

  /** Both authenticators get nonces of the size they want. */
  predicate BothReady(k: Codec, h: Hidden) {
    Configured(k, h) && Ready(k.auth, h) && (k.size.AeadSize? ==> Ready(k.size.auth, h))
  }

  /** Under nonce n the writer of `chunks` sealed its i-th chunk, p. */
  predicate IsPayload(k: Codec, seed: Bytes, chunks: seq<Bytes>, i: nat, n: Bytes, p: Bytes)
    requires i < |chunks|
  {
    n == Nonce.Nth(seed, PayloadDraw(k, k.auth.nonceGen, i)) && p == chunks[i]
  }

  /**
   * The cipher opens only what the writer of `chunks` sealed with it: each chunk under its payload's nonce and, if the
   * sizes are sealed from the same generator, sizes under theirs.
   */
  ghost predicate OpensOnlySealed(k: Codec, seed: Bytes, chunks: seq<Bytes>) {
    var g := k.auth.nonceGen;
    forall n, ad, c :: k.auth.aead.open(n, ad, c).Some? ==>
      || (exists i :: 0 <= i < |chunks| && IsPayload(k, seed, chunks, i, n, k.auth.aead.open(n, ad, c).value))
      || (k.size.AeadSize? && k.size.auth.nonceGen == g &&
          exists i :: 0 <= i < |chunks| && n == Nonce.Nth(seed, SizeDraw(k, g, i)))
  }

  /** The reader has opened j payloads; a saved size means that the next size is decoded. */
  predicate Tracks(k: Codec, seed: Bytes, r: Reader, j: nat) {
    var g := k.auth.nonceGen;
    && BothReady(k, r.hidden)
    && Counting(r.hidden, g, seed, DrawsBefore(k, g, j) + if r.hasSize then SizeUses(k, g) else 0)
  }

  lemma ShapeReady(k: Codec, h: Hidden, h': Hidden)
    requires BothReady(k, h) && SameShape(h, h')
    ensures BothReady(k, h')
  {
  }

  /** Reading a header draws what the writer drew for one, whatever the header says. */
  lemma SizeTracks(k: Codec, seed: Bytes, r: Reader, j: nat)
    requires Tracks(k, seed, r, j) && ReadSize(k, r).0.Sized?
    ensures var r1 := ReadSize(k, r).1;
            && BothReady(k, r1.hidden) && !r1.hasSize
            && Counting(r1.hidden, k.auth.nonceGen, seed,
                DrawsBefore(k, k.auth.nonceGen, j) + SizeUses(k, k.auth.nonceGen))
  {
    hide ReadFull, All, DrawsBefore, DecodeSize, NextPadding, SizeUses, BothReady, Counting;
    ReadyConfigured(k, r.hidden);
    if !r.hasSize {
      ReadFullTakesPrefix(r.src, SizeBytes(k));
      var h1 := NextPadding(k, r.hidden).1;
      var m := DrawsBefore(k, k.auth.nonceGen, j);
      PaddingTracks(k, r.hidden, k.auth.nonceGen, seed, m);
      ReadyConfigured(k, h1);
      DecodeTracks(k, h1, All(r.src)[..SizeBytes(k)], k.auth.nonceGen, seed, m);
    }
  }

  lemma ReadyConfigured(k: Codec, h: Hidden)
    requires BothReady(k, h)
    ensures Configured(k, h)
  {
  }

  lemma PaddingTracks(k: Codec, h: Hidden, g: nat, seed: Bytes, m: nat)
    requires BothReady(k, h) && Counting(h, g, seed, m)
    ensures var h1 := NextPadding(k, h).1; BothReady(k, h1) && Counting(h1, g, seed, m)
  {
  }

  /** Decoding a size draws the same whatever the bytes. */
  lemma DecodeTracks(k: Codec, h: Hidden, b: Bytes, g: nat, seed: Bytes, m: nat)
    requires BothReady(k, h) && Counting(h, g, seed, m) && |b| == SizeBytes(k)
    ensures var h' := DecodeSize(k, h, b).1; BothReady(k, h') && Counting(h', g, seed, m + SizeUses(k, g))
  {
    hide DrawInputs, UsesBy;
    if k.size.AeadSize? {
      InputsCount(k.size.auth, h, g, seed, m);
      InputsKeepShape(k.size.auth, h);
      ShapeReady(k, h, DrawInputs(k.size.auth, h).1);
    }
  }

  /** The j-th payload that opens is the j-th chunk. */
  lemma NonceDecides(k: Codec, seed: Bytes, chunks: seq<Bytes>, j: nat, ad: Bytes, c: Bytes)
    requires OpensOnlySealed(k, seed, chunks) && j <= |chunks|
    requires DrawsBefore(k, k.auth.nonceGen, |chunks| + 1) <= Nonce.Pow256(|seed|)
    requires k.auth.aead.open(Nonce.Nth(seed, PayloadDraw(k, k.auth.nonceGen, j)), ad, c).Some?
    ensures j < |chunks| && k.auth.aead.open(Nonce.Nth(seed, PayloadDraw(k, k.auth.nonceGen, j)), ad, c).value
        == chunks[j]
  {
    hide PayloadDraw, SizeDraw, DrawsBefore, OpensOnlySealed, Nonce.Nth, Nonce.Pow256;
    var g := k.auth.nonceGen;
    var n := Nonce.Nth(seed, PayloadDraw(k, g, j));
    var i, isSize := SealedAs(k, seed, chunks, n, ad, c);
    DrawsFit(k, g, Later(i, j) + 1, |chunks| + 1);
    if i <= j {
      StreamNoncesDistinct(k, g, seed, i, j);
    } else {
      StreamNoncesDistinct(k, g, seed, j, i);
    }
  }

  function Later(i: nat, j: nat): nat {
    if i <= j then j else i
  }

  /** What it is that opened: a payload or a size of the writer's. */
  lemma SealedAs(k: Codec, seed: Bytes, chunks: seq<Bytes>, n: Bytes, ad: Bytes, c: Bytes)
    returns (i: nat, isSize: bool)
    requires OpensOnlySealed(k, seed, chunks) && k.auth.aead.open(n, ad, c).Some?
    ensures i < |chunks|
    ensures !isSize ==> IsPayload(k, seed, chunks, i, n, k.auth.aead.open(n, ad, c).value)
    ensures isSize ==>
      k.size.AeadSize? && k.size.auth.nonceGen == k.auth.nonceGen
        && n == Nonce.Nth(seed, SizeDraw(k, k.auth.nonceGen, i))
  {
    hide PayloadDraw, SizeDraw;
    var g := k.auth.nonceGen;
    if j :| 0 <= j < |chunks| && IsPayload(k, seed, chunks, j, n, k.auth.aead.open(n, ad, c).value) {
      i, isSize := j, false;
    } else {
      i, isSize :| i < |chunks| && n == Nonce.Nth(seed, SizeDraw(k, g, i)) && isSize;
    }
  }

  lemma {:induction false} DrawsFit(k: Codec, g: nat, i: nat, j: nat)
    requires i <= j
    ensures DrawsBefore(k, g, i) <= DrawsBefore(k, g, j)
    decreases j
  {
    if i < j { DrawsFit(k, g, i, j - 1); }
  }

  /** What is assumed of cipher and nonces throughout. */
  ghost predicate Guarded(k: Codec, seed: Bytes, chunks: seq<Bytes>) {
    OpensOnlySealed(k, seed, chunks) && DrawsBefore(k, k.auth.nonceGen, |chunks| + 1) <= Nonce.Pow256(|seed|)
  }

  lemma InternalTracks(k: Codec, seed: Bytes, chunks: seq<Bytes>, r: Reader, soft: bool, j: nat)
    requires Guarded(k, seed, chunks) && j <= |chunks| && Tracks(k, seed, r, j)
    ensures Configured(k, r.hidden)
    ensures var (out, r') := ReadInternal(k, r, soft);
            && (out.Data? ==> j < |chunks| && out.plain == chunks[j] && Tracks(k, seed, r', j + 1))
            && (out.Soft? ==> Tracks(k, seed, r', j))
            && (out.Eof? && soft ==> r'.done)
  {
    hide ReadSize, ReadPayload, OpensOnlySealed, All, DrawsBefore, ConstantOffset, DrawInputs, UsesBy, SizeUses;
    KeepsConfigured(k, r);
    var (out, r') := ReadInternal(k, r, soft);
    if !(soft && |r.src.buffered| < SizeBytes(k)) && !r.done {
      var (sizes, r1) := ReadSize(k, r);
      if soft { SoftHeader(k, r); }
      if sizes.Sized? {
        SizeTracks(k, seed, r, j);
        var size := sizes.value.0 + ConstantOffset(k);
        if out.Data? {
          DataTracks(k, seed, chunks, r1, size, sizes.value.1, j);
        }
        NeverSoft(k, r1, size, sizes.value.1);
        if soft && size <= |r1.src.buffered| { SoftPayload(k, r1, size, sizes.value.1); }
      }
    }
  }

  lemma SoftHeader(k: Codec, r: Reader)
    requires Configured(k, r.hidden) && |r.src.buffered| >= SizeBytes(k)
    ensures !ReadSize(k, r).0.SizeEof?
  {
    ReadFullTakesPrefix(r.src, SizeBytes(k));
  }

  lemma SoftPayload(k: Codec, r: Reader, size: nat, pad: nat)
    requires Configured(k, r.hidden) && size <= |r.src.buffered|
    ensures !ReadPayload(k, r, size, pad).0.Eof?
  {
    ReadFullTakesPrefix(r.src, size);
  }


  lemma DataTracks(k: Codec, seed: Bytes, chunks: seq<Bytes>, r: Reader, size: nat, pad: nat, j: nat)
    requires Guarded(k, seed, chunks) && j <= |chunks| && BothReady(k, r.hidden) && !r.hasSize
    requires Counting(r.hidden, k.auth.nonceGen, seed,
        DrawsBefore(k, k.auth.nonceGen, j) + SizeUses(k, k.auth.nonceGen))
    requires ReadPayload(k, r, size, pad).0.Data?
    ensures var (out, r') := ReadPayload(k, r, size, pad);
            j < |chunks| && out.plain == chunks[j] && Tracks(k, seed, r', j + 1)
  {
    hide ReadPayload, OpensOnlySealed, All, DrawInputs, DrawsBefore, SizeUses, UsesBy, Nonce.Nth, Nonce.Pow256,
        Counting;
    var g := k.auth.nonceGen;
    var n := PayloadOpened(k, r, size, pad);
    InputsCount(k.auth, r.hidden, g, seed, DrawsBefore(k, g, j) + SizeUses(k, g));
    InputsKeepShape(k.auth, r.hidden);
    ShapeReady(k, r.hidden, DrawInputs(k.auth, r.hidden).1);
    DrawsNext(k, g, j);
    NonceDecides(k, seed, chunks, j, Inputs(k, r.hidden).value.1, All(r.src)[..n]);
  }

  lemma DrawsNext(k: Codec, g: nat, j: nat)
    ensures DrawsBefore(k, g, j + 1) == DrawsBefore(k, g, j) + SizeUses(k, g) + UsesBy(k.auth, g)
  {
  }

  lemma {:induction false} MoreTracks(k: Codec, seed: Bytes, chunks: seq<Bytes>, r: Reader, n: nat, mb: MultiBuffer,
      j: nat)
    returns (j': nat)
    requires Guarded(k, seed, chunks) && j <= |chunks| && Tracks(k, seed, r, j)
    ensures Configured(k, r.hidden) && j <= j' <= |chunks|
    ensures var (got, r') := ReadMore(k, r, n, mb);
            && (got.Some? ==> Flat(got.value) == Flat(mb) + Flat(chunks[j..j']))
            && (got.Some? ==> r'.done || Tracks(k, seed, r', j'))
    decreases n
  {
    hide ReadInternal, Guarded, Tracks, Deliver, Configured, Flat;
    j' := j;
    ReadsConfigured(k, seed, r, j);
    NoneBetween(chunks, j, mb);
    if n > 0 {
      InternalTracks(k, seed, chunks, r, true, j);
      var (out, r') := ReadInternal(k, r, true);
      if out.Data? {
        j' := MoreTracks(k, seed, chunks, r', n - 1, Deliver(mb, out), j + 1);
        DeliverAppends(mb, out);
        OneBetween(chunks, j, j');
      }
    }
  }

  lemma ReadsConfigured(k: Codec, seed: Bytes, r: Reader, j: nat)
    requires Tracks(k, seed, r, j)
    ensures Configured(k, r.hidden)
  {
  }

  lemma NoneBetween(chunks: seq<Bytes>, j: nat, mb: MultiBuffer)
    requires j <= |chunks|
    ensures Flat(chunks[j..j]) == [] && Flat(mb) + [] == Flat(mb)
  {
    assert chunks[j..j] == [];
  }

  lemma OneBetween(chunks: seq<Bytes>, j: nat, j': nat)
    requires j < j' <= |chunks|
    ensures Flat(chunks[j..j']) == chunks[j] + Flat(chunks[j + 1..j'])
  {
    assert chunks[j..j'][0] == chunks[j] && chunks[j..j'][1..] == chunks[j + 1..j'];
  }

  lemma BatchTracks(k: Codec, seed: Bytes, chunks: seq<Bytes>, r: Reader, j: nat) returns (j': nat)
    requires Guarded(k, seed, chunks) && j <= |chunks| && Tracks(k, seed, r, j)
    ensures Configured(k, r.hidden) && j <= j' <= |chunks|
    ensures var (got, r') := ReadBatch(k, r);
            got.Got? ==> Flat(got.mb) == Flat(chunks[j..j']) && (r'.done || Tracks(k, seed, r', j'))
  {
    hide ReadInternal, ReadMore, Guarded, Tracks, Deliver, Configured, Flat;
    ReadsConfigured(k, seed, r, j);
    InternalTracks(k, seed, chunks, r, false, j);
    var (out, r1) := ReadInternal(k, r, false);
    j' := j;
    if out.Data? {
      j' := MoreTracks(k, seed, chunks, r1, READ_SIZE - 1, Deliver([], out), j + 1);
      DeliverAppends([], out);
      OneBetween(chunks, j, j');
      NoneBetween(chunks, j, []);
      StartsFlat(out.plain);
    }
  }

  lemma StartsFlat(p: Bytes)
    ensures Flat<Byte>([]) + p == p
  {
  }

  /**
   * Authenticity. Whatever is on the wire and however it is cut: if the cipher opens only what the writer sealed, and
   * no nonce repeats, then all that any number of reads hands out is the beginning of what was written.
   */
  lemma {:induction false} HandsOutOnlyWritten(k: Codec, seed: Bytes, chunks: seq<Bytes>, r: Reader, calls: nat, j: nat)
    requires Guarded(k, seed, chunks) && j <= |chunks| && Configured(k, r.hidden) && (r.done || Tracks(k, seed, r, j))
    ensures Reads(k, r, calls).0.Some? ==> Reads(k, r, calls).0.value <= Flat(chunks[j..])
    decreases calls
  {
    hide ReadBatch, Guarded, Tracks, Configured, Flat;
    if calls > 0 {
      BatchKeepsConfigured(k, r);
      var (got, r1) := ReadBatch(k, r);
      if r.done {
        DoneReadsEnd(k, r);
      } else if got.Got? {
        var j' := BatchTracks(k, seed, chunks, r, j);
        HandsOutOnlyWritten(k, seed, chunks, r1, calls - 1, j');
        assert chunks[j..] == chunks[j..j'] + chunks[j'..];
        FlatAppend(chunks[j..j'], chunks[j'..]);
      }
    }
  }

  /** The same for a reader that starts where its writer did. */
  lemma AnyWireIsSafe(k: Codec, h: Hidden, seed: Bytes, chunks: seq<Bytes>, src: Source, calls: nat)
    requires Guarded(k, seed, chunks) && BothReady(k, h) && Counting(h, k.auth.nonceGen, seed, 0)
    ensures var r := Reader(src, h, 0, 0, false, false);
            Reads(k, r, calls).0.Some? ==> Reads(k, r, calls).0.value <= Flat(chunks)
  {
    hide Guarded;
    assert chunks[0..] == chunks;
    HandsOutOnlyWritten(k, seed, chunks, Reader(src, h, 0, 0, false, false), calls, 0);
  }

  /** A cipher that opens one ciphertext under one nonce and nothing else. */
  const OPENS_ONE := Aead(1, 1,
                          (n: Bytes, ad: Bytes, p: Bytes) => p + [7],
                          (n: Bytes, ad: Bytes, c: Bytes) => if n == [1] && c == [5, 7] then Some([5]) else None)

  /** It meets what is assumed, for a stream of one chunk. */
  lemma GuardedIsPossible()
    ensures var k := Codec(Authenticator(OPENS_ONE, 0, None), Plain, false, _ => 0);
            Guarded(k, [0], [[5]]) && BothReady(k, Hidden([Increasing([0])], 0))
  {
    hide OpensOnlySealed;
    var k := Codec(Authenticator(OPENS_ONE, 0, None), Plain, false, _ => 0);
    FewDraws(k);
    OpensOne(k);
  }

  lemma FewDraws(k: Codec)
    requires k.auth.nonceGen == 0 && k.auth.adGen == None && k.size == Plain
    ensures PayloadDraw(k, 0, 0) == 1 && DrawsBefore(k, 0, 2) <= Nonce.Pow256(1)
    ensures Nonce.Nth([0], PayloadDraw(k, 0, 0)) == [1]
  {
    assert DrawsBefore(k, 0, 0) == 0 && DrawsBefore(k, 0, 1) == 1 && DrawsBefore(k, 0, 2) == 2;
    assert Nonce.Nth([0], 1) == Nonce.Increment([0]) == [1] + [0][1..] == [1];
    assert Nonce.Pow256(1) == 256 * Nonce.Pow256(0);
  }

  lemma OpensOne(k: Codec)
    requires k.auth.nonceGen == 0 && Nonce.Nth([0], PayloadDraw(k, 0, 0)) == [1]
    requires forall n, ad, c :: k.auth.aead.open(n, ad, c) == if n == [1] && c == [5, 7] then Some([5]) else None
    ensures OpensOnlySealed(k, [0], [[5]])
  {
    hide Nonce.Nth, PayloadDraw, SizeDraw;
    assert IsPayload(k, [0], [[5]], 0, [1], [5]);
  }

  // ---- the buffers handed out ----

  /** Opening does not make anything longer. */
  ghost predicate Shrinks(k: Codec) {
    forall n, ad, c :: k.auth.aead.open(n, ad, c).Some? ==> |k.auth.aead.open(n, ad, c).value| <= |c|
  }

  /** Every buffer that a read hands out of any wire fits a regular one, however long the chunk was. */
  lemma HandsOutRegular(k: Codec, r: Reader)
    requires Configured(k, r.hidden) && Shrinks(k)
    ensures ReadBatch(k, r).0.Got? ==> AllRegular(ReadBatch(k, r).0.mb)
  {
    hide ReadInternal, ReadMore, Configured, Deliver, Shrinks;
    InternalKeepsConfigured(k, r, false);
    InternalShort(k, r, false);
    var (out, r1) := ReadInternal(k, r, false);
    if out.Data? {
      DeliversRegular([], out);
      MoreRegular(k, r1, READ_SIZE - 1, Deliver([], out));
    }
  }

  lemma {:induction false} MoreRegular(k: Codec, r: Reader, n: nat, mb: MultiBuffer)
    requires Configured(k, r.hidden) && Shrinks(k) && AllRegular(mb)
    ensures ReadMore(k, r, n, mb).0.Some? ==> AllRegular(ReadMore(k, r, n, mb).0.value)
    decreases n
  {
    hide ReadInternal, Configured, Deliver, Shrinks;
    if n > 0 {
      InternalKeepsConfigured(k, r, true);
      InternalShort(k, r, true);
      var (out, r') := ReadInternal(k, r, true);
      if out.Data? {
        DeliversRegular(mb, out);
        MoreRegular(k, r', n - 1, Deliver(mb, out));
      }
    }
  }

  lemma DeliversRegular(mb: MultiBuffer, out: Outcome)
    requires out.Data? && AllRegular(mb) && (!out.large ==> |out.plain| <= SIZE)
    ensures AllRegular(Deliver(mb, out))
  {
    if out.large { MultiBuffers.MergeBytesRegular(mb, out.plain); }
  }

  lemma InternalShort(k: Codec, r: Reader, soft: bool)
    requires Configured(k, r.hidden) && Shrinks(k)
    ensures var out := ReadInternal(k, r, soft).0; out.Data? && !out.large ==> |out.plain| <= SIZE
  {
    hide ReadSize, Configured, ConstantOffset, ReadPayload;
    KeepsConfigured(k, r);
    var (sizes, r1) := ReadSize(k, r);
    if sizes.Sized? { PayloadShort(k, r1, sizes.value.0 + ConstantOffset(k), sizes.value.1); }
  }

  lemma PayloadShort(k: Codec, r: Reader, size: nat, pad: nat)
    requires Configured(k, r.hidden) && Shrinks(k)
    ensures var out := ReadPayload(k, r, size, pad).0; out.Data? && !out.large ==> |out.plain| <= SIZE
  {
    hide ReadPayload, All, Inputs;
    if ReadPayload(k, r, size, pad).0.Data? {
      var n := PayloadOpened(k, r, size, pad);
    }
  }

  // ---- errors in the middle of a batch ----

  /** Soft reads one after the other: the outcome of the first that is not data, if there is one among the first n. */
  function FirstStop(k: Codec, r: Reader, n: nat): Option<Outcome>
    requires Configured(k, r.hidden)
    decreases n
  {
    if n == 0 then None
    else
      InternalKeepsConfigured(k, r, true);
      var (out, r') := ReadInternal(k, r, true);
      if out.Data? then FirstStop(k, r', n - 1) else Some(out)
  }

  /**
   * A batch fails as a whole if and only if its first read is neither data nor the end, or the read that stops it is
   * neither a wait nor the end: then nothing of it is handed out, not even what had opened.
   */
  lemma BatchFailsExactly(k: Codec, r: Reader)
    requires Configured(k, r.hidden)
    ensures var (out, r1) := ReadInternal(k, r, false);
            && Configured(k, r1.hidden)
            && (ReadBatch(k, r).0 == End <==> out.Eof?)
            && var stop := FirstStop(k, r1, 15);
            (ReadBatch(k, r).0 == Error
             <==> (!out.Data? && !out.Eof?) || (out.Data? && stop.Some? && !stop.value.Soft? && !stop.value.Eof?))
  {
    hide ReadInternal, Configured, ReadMore, FirstStop, Deliver;
    InternalKeepsConfigured(k, r, false);
    var (out, r1) := ReadInternal(k, r, false);
    if out.Data? { MoreFailsExactly(k, r1, 15, Deliver([], out)); }
  }

  lemma {:induction false} MoreFailsExactly(k: Codec, r: Reader, n: nat, mb: MultiBuffer)
    requires Configured(k, r.hidden)
    ensures var stop := FirstStop(k, r, n);
            ReadMore(k, r, n, mb).0.None? <==> stop.Some? && !stop.value.Soft? && !stop.value.Eof?
    decreases n
  {
    hide ReadInternal, Configured, Deliver;
    if n > 0 {
      InternalKeepsConfigured(k, r, true);
      var (out, r') := ReadInternal(k, r, true);
      if out.Data? { MoreFailsExactly(k, r', n - 1, Deliver(mb, out)); }
    }
  }

  // ---- one header ----

  /** The number that two bytes stand for, the high one first. */
  function TwoBytes(b: Bytes): int
    requires |b| == 2
  {
    (b[0] as int) * 256 + (b[1] as int)
  }

  /**
   * What a header says, whatever its bytes are. In clear, its number; masked, with the bits of the word drawn after
   * the padding's flipped; sealed, only if it opens to two bytes, and then their number with the overhead added back,
   * unless that is the constant offset. A sealed one that does not open is an error.
   */
  lemma HeaderSays(k: Codec, r: Reader)
    requires Configured(k, r.hidden) && !r.hasSize && SizeBytes(k) <= |All(r.src)|
    ensures var b, h1, said := All(r.src)[..SizeBytes(k)], NextPadding(k, r.hidden).1, ReadSize(k, r).0;
            && (k.size.Plain? ==> said.Sized? && said.value.0 == TwoBytes(b))
            && (k.size.Shake? ==> said.Sized? && said.value.0 == Xor16(k.word(h1.draws), GetUint16(b)))
            && (k.size.AeadSize? ==>
                  && Wired(k.size.auth, h1)
                  && var inputs := DrawInputs(k.size.auth, h1).0;
                  && var plain := if inputs.None? then None
                      else k.size.auth.aead.open(inputs.value.0, inputs.value.1, b);
                  && (said.Sized? <==> plain.Some? && |plain.value| == 2)
                  && (!said.Sized? ==> said.SizeError?)
                  && (said.Sized? ==>
                        said.value.0 == if k.size.offset then TwoBytes(plain.value)
                                        else (TwoBytes(plain.value) + k.size.auth.aead.overhead) % 65536))
            && (said.Sized? ==> said.value.1 == NextPadding(k, r.hidden).0)
  {
    hide ReadFull, All, DrawInputs;
    ReadFullTakesPrefix(r.src, SizeBytes(k));
  }
}
