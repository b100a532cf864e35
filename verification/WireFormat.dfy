/**
 * The bytes on the wire, written out (common/crypto/auth.go, common/crypto/chunk.go,
 * proxy/vmess/encoding/auth.go): what each field of the i-th frame of a stream is, in terms of the
 * configuration alone.
 */
module WireFormat {
  import opened Basics
  import opened Codecs
  import opened AuthWriters
  import Nonce

  /** What a generator hands out next. */
  lemma GeneratorGives(h: Hidden, i: nat)
    requires i < |h.gens|
    ensures match h.gens[i]
            case Fixed(content) => Draw(h, i) == (content, h)
            case Increasing(c) => Draw(h, i).0 == Nonce.Increment(c)
    ensures |Draw(h, i).1.gens| == |h.gens| && Draw(h, i).1.draws == h.draws
    ensures forall j :: 0 <= j < |h.gens| && j != i ==> Draw(h, i).1.gens[j] == h.gens[j]
  {
    if h.gens[i].Fixed? { assert h.gens[i := h.gens[i]] == h.gens; }
  }

  /** An authenticator draws its nonce first, and then, if it has a generator for it, its additional data. */
  lemma InputsInOrder(a: Authenticator, h: Hidden)
    requires Ready(a, h)
    ensures var (iv, h1) := Draw(h, a.nonceGen);
            && DrawInputs(a, h).0.Some? && DrawInputs(a, h).0.value.0 == iv
            && (a.adGen.None? ==> DrawInputs(a, h).0.value.1 == [] && DrawInputs(a, h).1 == h1)
            && (a.adGen.Some? ==>
                  DrawInputs(a, h).0.value.1 == Draw(h1, a.adGen.value).0
                    && DrawInputs(a, h).1 == Draw(h1, a.adGen.value).1)
  {
  }

  /** The payload field is the chunk sealed under that nonce and that additional data. */
  lemma PayloadField(k: Codec, h: Hidden, plain: Bytes)
    requires Sound(k, h)
    ensures var (iv, h1) := Draw(h, k.auth.nonceGen);
            var ad := if k.auth.adGen.Some? then Draw(h1, k.auth.adGen.value).0 else [];
            Body(k, h, plain) == k.auth.aead.seal(iv, ad, plain)
  {
    InputsInOrder(k.auth, h);
    hide DrawInputs, Draw;
  }

  /**
   * The padding of frame i is as long as the next word of the stream says, modulo 64; without padding there is
   * none.
   */
  lemma PaddingField(k: Codec, h: Hidden, chunks: seq<Bytes>, i: nat)
    requires Sound(k, h) && AllFit(k, chunks) && i < |chunks|
    ensures MakeHeader(k, AfterFrames(k, h, chunks[..i]), chunks[i]).pad
         == if k.padding then (k.word(h.draws + i * WordsPerFrame(k)) as int) % 64 else 0
  {
    hide Sound, AfterFrames, MakeHeader, WordsPerFrame;
    FramesWords(k, h, chunks[..i]);
    var at := AfterFrames(k, h, chunks[..i]);
    PaddingIs(k, at);
  }

  lemma PaddingIs(k: Codec, h: Hidden)
    ensures NextPadding(k, h).0 == if k.padding then (k.word(h.draws) as int) % 64 else 0
    ensures NextPadding(k, h).1 == if k.padding then h.(draws := h.draws + 1) else h
  {
  }

  /** The number that two bytes stand for, the high one first. */
  function BigEndian(b: Bytes): int
    requires |b| == 2
  {
    (b[0] as int) * 256 + (b[1] as int)
  }

  /**
   * The size field of frame i holds the length of what follows it, padding included: in clear, with the bits of
   * the next word of the stream flipped, or sealed with the size's own overhead taken off.
   */
  lemma SizeField(k: Codec, h: Hidden, plain: Bytes)
    requires Sound(k, h) && FitsSize(k, plain)
    ensures var hd := MakeHeader(k, h, plain); var n := |plain| + Overhead(k) + hd.pad;
            && n < 65536
            && (k.size.Plain? ==> BigEndian(hd.bytes) == n)
            && (k.size.Shake? ==> BigEndian(hd.bytes) == Xor16(k.word(h.draws + if k.padding then 1 else 0), n))
  {
    hide Sound;
    var (pad, h1) := NextPadding(k, h);
    HeaderMade(k, h, plain, pad, h1);
  }

  lemma SealedSizeField(k: Codec, h: Hidden, plain: Bytes)
    requires Sound(k, h) && FitsSize(k, plain) && k.size.AeadSize?
    ensures var hd := MakeHeader(k, h, plain); var a, h1 := k.size.auth, NextPadding(k, h).1;
            && Wired(a, h1) && DrawInputs(a, h1).0.Some?
            && exists b: Bytes :: |b| == 2
                 && BigEndian(b) == (|plain| + Overhead(k) + hd.pad - a.aead.overhead) % 65536
                 && hd.bytes == a.aead.seal(DrawInputs(a, h1).0.value.0, DrawInputs(a, h1).0.value.1, b)
  {
    hide Sound, DrawInputs, MakeHeader;
    var (pad, h1) := NextPadding(k, h);
    PaddingKeepsSound(k, h);
    SoundFacts(k, h1);
    HeaderMade(k, h, plain, pad, h1);
    var b := PutUint16((|plain| + Overhead(k) + pad - k.size.auth.aead.overhead) % 65536);
    assert |b| == 2 && BigEndian(b) == (|plain| + Overhead(k) + pad - k.size.auth.aead.overhead) % 65536;
  }

  lemma {:induction false} PieceIsFull(c: Bytes, n: nat, i: nat)
    requires n >= 1 && i + 1 < |Pieces(c, n)|
    ensures |Pieces(c, n)[i]| == n
    decreases i
  {
    hide Flat;
    if i > 0 {
      assert Pieces(c, n) == [c[..n]] + Pieces(c[n..], n);
      PieceIsFull(c[n..], n, i - 1);
    }
  }

  /**
   * Every piece of a stream write but the last fills its frame, the largest padding reckoned in, to a regular
   * buffer.
   */
  lemma PiecesFill(k: Codec, c: Bytes, i: nat)
    requires PayloadSize(k) >= 1 && i + 1 < |Pieces(c, PayloadSize(k))|
    ensures SizeBytes(k) + |Pieces(c, PayloadSize(k))[i]| + Overhead(k) + (if k.padding then 64 else 0) == 2048
  {
    hide Pieces;
    PieceIsFull(c, PayloadSize(k), i);
  }
}
