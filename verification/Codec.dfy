/**
 * What both ends of a framed stream share: authenticators, chunk size parsers, padding, and
 * the wire format they define (common/crypto/auth.go, common/crypto/chunk.go,
 * proxy/vmess/encoding/auth.go, proxy/shadowsocks2022/encoding.go).
 *
 * All state that an end keeps between chunks is one `Hidden` value. Authenticators name their
 * generators by index, so a size parser and the payload may share one generator.
 */
module Codecs {
  import opened Basics
  import Nonce

  // ---- hidden state ----

  /** A BytesGenerator closure: GenerateEmptyBytes and GenerateStaticBytes, or GenerateIncreasingNonce. */
  datatype Generator = Fixed(content: Bytes) | Increasing(c: Bytes)

  /** `draws` counts the 16-bit words taken from the Shake stream. */
  datatype Hidden = Hidden(gens: seq<Generator>, draws: nat)

  function Peek(g: Generator): Bytes {
    match g
    case Fixed(b) => b
    case Increasing(c) => Nonce.Increment(c)
  }

  function Stepped(g: Generator): Generator {
    match g
    case Fixed(_) => g
    case Increasing(c) => Increasing(Nonce.Increment(c))
  }

  /** Calling the i-th generator: the bytes it returns and the state it leaves. */
  function Draw(h: Hidden, i: nat): (Bytes, Hidden)
    requires i < |h.gens|
  {
    (Peek(h.gens[i]), h.(gens := h.gens[i := Stepped(h.gens[i])]))
  }

  // ---- authenticators ----

  /** An AEAD cipher under a fixed key, in the sense of sections 2.1 and 2.2 of RFC 5116. */
  datatype Aead = Aead(
    overhead: nat,
    nonceSize: nat,
    seal: (Bytes, Bytes, Bytes) -> Bytes,
    open: (Bytes, Bytes, Bytes) -> Option<Bytes>)

  ghost predicate Correct(a: Aead) {
    && (forall n, ad, p :: |a.seal(n, ad, p)| == |p| + a.overhead)
    && (forall n, ad, p :: a.open(n, ad, a.seal(n, ad, p)) == Some(p))
  }

  /** AEADAuthenticator: `adGen` is None when no AdditionalDataGenerator is set. */
  datatype Authenticator = Authenticator(aead: Aead, nonceGen: nat, adGen: Option<nat>)

  /** The nonce, the additional data and the state after both are drawn; None on a wrong nonce size. */
  function DrawInputs(a: Authenticator, h: Hidden): (Option<(Bytes, Bytes)>, Hidden)
    requires Wired(a, h)
  {
    var (iv, h1) := Draw(h, a.nonceGen);
    if |iv| != a.aead.nonceSize then (None, h1)
    else match a.adGen
      case None => (Some((iv, [])), h1)
      case Some(g) => var (ad, h2) := Draw(h1, g); (Some((iv, ad)), h2)
  }

  function Seal(a: Authenticator, h: Hidden, plain: Bytes): (Option<Bytes>, Hidden)
    requires Wired(a, h)
  {
    var (inputs, h') := DrawInputs(a, h);
    if inputs == None then (None, h')
    else (Some(a.aead.seal(inputs.value.0, inputs.value.1, plain)), h')
  }

  function Open(a: Authenticator, h: Hidden, sealed: Bytes): (Option<Bytes>, Hidden)
    requires Wired(a, h)
  {
    var (inputs, h') := DrawInputs(a, h);
    if inputs == None then (None, h')
    else (a.aead.open(inputs.value.0, inputs.value.1, sealed), h')
  }

  predicate Wired(a: Authenticator, h: Hidden) {
    a.nonceGen < |h.gens| && (a.adGen.Some? ==> a.adGen.value < |h.gens|)
  }

  /** Wired, and the generator hands out nonces of the size the cipher wants. */
  predicate Ready(a: Authenticator, h: Hidden) {
    Wired(a, h) && |Peek(h.gens[a.nonceGen])| == a.aead.nonceSize
  }

  // ---- chunk size parsers ----

  /**
   * AeadSize with `offset` is the decoder whose Decode leaves the overhead out and reports it as
   * its constant offset; without, Decode adds the overhead back. Both encode alike.
   */
  datatype SizeParser = Plain | AeadSize(auth: Authenticator, offset: bool) | Shake

  /** `word(k)` is the k-th 16-bit word of the Shake stream both ends seeded alike. */
  datatype Codec = Codec(auth: Authenticator, size: SizeParser, padding: bool, word: nat -> Uint16)

  function SizeBytes(k: Codec): nat {
    match k.size
    case AeadSize(a, _) => 2 + a.aead.overhead
    case _ => 2
  }

  function Overhead(k: Codec): nat {
    k.auth.aead.overhead
  }

  function ConstantOffset(k: Codec): Uint16 {
    if k.size.AeadSize? && k.size.offset then k.size.auth.aead.overhead % 65536 else 0
  }

  function NextWord(k: Codec, h: Hidden): (Uint16, Hidden) {
    (k.word(h.draws), h.(draws := h.draws + 1))
  }

  const MAX_PADDING := 64

  function MaxPadding(k: Codec): nat {
    if k.padding then MAX_PADDING else 0
  }

  /** NextPaddingLen, when a padding generator is set. */
  function NextPadding(k: Codec, h: Hidden): (r: (nat, Hidden))
    ensures r.0 <= MaxPadding(k)
  {
    if k.padding then var (w, h') := NextWord(k, h); (w % MAX_PADDING, h') else (0, h)
  }

  /** Encode: None stands for common.Must on a failed Seal, a panic. */
  function EncodeSize(k: Codec, h: Hidden, n: Uint16): (Option<Bytes>, Hidden)
    requires SizeWired(k, h)
  {
    match k.size
    case Plain => (Some(PutUint16(n)), h)
    case Shake => var (mask, h') := NextWord(k, h); (Some(PutUint16(Xor16(mask, n))), h')
    case AeadSize(a, _) => Seal(a, h, PutUint16((n - a.aead.overhead) % 65536))
  }

  function DecodeSize(k: Codec, h: Hidden, b: Bytes): (Option<Uint16>, Hidden)
    requires SizeWired(k, h) && |b| == SizeBytes(k)
  {
    match k.size
    case Plain => (Some(GetUint16(b)), h)
    case Shake => var (mask, h') := NextWord(k, h); (Some(Xor16(mask, GetUint16(b))), h')
    case AeadSize(a, offset) =>
      var (raw, h') := Open(a, h, b);
      if raw == None || |raw.value| != 2 then (None, h')
      else (Some(if offset then GetUint16(raw.value) else (GetUint16(raw.value) + a.aead.overhead) % 65536), h')
  }

  predicate SizeWired(k: Codec, h: Hidden) {
    k.size.AeadSize? ==> Wired(k.size.auth, h)
  }

  predicate Configured(k: Codec, h: Hidden) {
    Wired(k.auth, h) && SizeWired(k, h)
  }

  ghost predicate SizeSound(k: Codec, h: Hidden) {
    k.size.AeadSize? ==> Ready(k.size.auth, h) && Correct(k.size.auth.aead)
  }

  /** A stream set up as its users do: nonces fit, and a maximal padding leaves room for payload. */
  ghost predicate Sound(k: Codec, h: Hidden) {
    && Configured(k, h)
    && Ready(k.auth, h) && Correct(k.auth.aead)
    && SizeSound(k, h)
    && (k.size.AeadSize? && k.size.offset ==> k.size.auth.aead.overhead <= Overhead(k))
    && PayloadSize(k) >= 1
  }

  function PayloadSize(k: Codec): int {
    SIZE - Overhead(k) - SizeBytes(k) - MaxPadding(k)
  }

  // ---- both directions agree ----

  /** Shape of the state: what decides Ready and Configured. */
  predicate SameShape(h: Hidden, h': Hidden) {
    |h.gens| == |h'.gens| && forall i :: 0 <= i < |h.gens| ==> |Peek(h.gens[i])| == |Peek(h'.gens[i])|
  }

  lemma DrawKeepsShape(h: Hidden, i: nat)
    requires i < |h.gens|
    ensures SameShape(h, Draw(h, i).1)
  {
    var h' := Draw(h, i).1;
    forall j | 0 <= j < |h.gens| ensures |Peek(h.gens[j])| == |Peek(h'.gens[j])| {
      if j == i { assert h'.gens[j] == Stepped(h.gens[i]); }
    }
  }

  lemma InputsKeepShape(a: Authenticator, h: Hidden)
    requires Wired(a, h)
    ensures SameShape(h, DrawInputs(a, h).1)
  {
    DrawKeepsShape(h, a.nonceGen);
    if a.adGen.Some? { DrawKeepsShape(Draw(h, a.nonceGen).1, a.adGen.value); }
  }

  /** Opening from the state that sealed gives the plaintext back and leaves the same state. */
  lemma OpenSeal(a: Authenticator, h: Hidden, p: Bytes)
    requires Ready(a, h) && Correct(a.aead)
    ensures Seal(a, h, p).0.Some? && |Seal(a, h, p).0.value| == |p| + a.aead.overhead
    ensures Open(a, h, Seal(a, h, p).0.value) == (Some(p), Seal(a, h, p).1)
    ensures SameShape(h, Seal(a, h, p).1)
  {
    InputsKeepShape(a, h);
  }

  /** The decoder undoes the encoder from the same state, for every size that covers the overhead. */
  lemma DecodeEncode(k: Codec, h: Hidden, n: Uint16)
    requires SizeSound(k, h)
    requires ConstantOffset(k) <= n
    ensures EncodeSize(k, h, n).0.Some? && |EncodeSize(k, h, n).0.value| == SizeBytes(k)
    ensures DecodeSize(k, h, EncodeSize(k, h, n).0.value) == (Some(n - ConstantOffset(k)), EncodeSize(k, h, n).1)
    ensures SameShape(h, EncodeSize(k, h, n).1)
  {
    match k.size
    case Plain => Uint16RoundTrip(n);
    case Shake =>
      hide Xor16, PutUint16, GetUint16;
      var mask := k.word(h.draws);
      Uint16RoundTrip(Xor16(mask, n));
      Xor16Cancels(mask, n);
    case AeadSize(a, _) =>
      hide Seal, Open, Correct, PutUint16, GetUint16;
      var raw := (n - a.aead.overhead) % 65536;
      OpenSeal(a, h, PutUint16(raw));
      Uint16RoundTrip(raw);
      WrapBack(n, a.aead.overhead);
  }

  /** Subtracting the overhead and adding it back modulo 2^16. */
  lemma WrapBack(n: Uint16, overhead: nat)
    ensures ((n - overhead) % 65536 + overhead) % 65536 == n
    ensures overhead % 65536 <= n ==> (n - overhead) % 65536 == n - overhead % 65536
  {
  }

  // ---- one frame ----

  /** The clear part of a frame and the state after it: padding first, then the size. */
  datatype Header = Header(bytes: Bytes, pad: nat, next: Hidden)

  /** Draws made before the payload is sealed: the padding length, then whatever Encode draws. */
  function MakeHeader(k: Codec, h: Hidden, plain: Bytes): (r: Header)
    requires Sound(k, h) && FitsSize(k, plain)
    ensures |r.bytes| == SizeBytes(k) && r.pad <= MaxPadding(k) && Sound(k, r.next)
    ensures r.pad == NextPadding(k, h).0
  {
    var (pad, h1) := NextPadding(k, h);
    var n := |plain| + Overhead(k) + pad;
    DecodeEncode(k, h1, n);
    var (b, h2) := EncodeSize(k, h1, n);
    Header(b.value, pad, h2)
  }

  /** The reader decodes the header with the writer's draws and ends in the writer's state. */
  lemma DecodeHeader(k: Codec, h: Hidden, plain: Bytes)
    requires Sound(k, h) && FitsSize(k, plain)
    ensures var hd := MakeHeader(k, h, plain); var (pad, h1) := NextPadding(k, h);
            && pad == hd.pad && Configured(k, h1)
            && DecodeSize(k, h1, hd.bytes) == (Some(|plain| + Overhead(k) + pad - ConstantOffset(k)), hd.next)
  {
    hide DecodeSize, EncodeSize, Sound, NextPadding, ConstantOffset;
    var (pad, h1) := NextPadding(k, h);
    PaddingKeepsSound(k, h);
    SoundFacts(k, h1);
    DecodeEncode(k, h1, |plain| + Overhead(k) + pad);
    HeaderMade(k, h, plain, pad, h1);
  }

  /** The sealed payload. */
  function Body(k: Codec, h: Hidden, plain: Bytes): (r: Bytes)
    requires Sound(k, h)
    ensures |r| == |plain| + Overhead(k)
  {
    OpenSeal(k.auth, h, plain);
    Seal(k.auth, h, plain).0.value
  }

  function AfterBody(k: Codec, h: Hidden, plain: Bytes): (r: Hidden)
    requires Sound(k, h)
    ensures Sound(k, r)
  {
    OpenSeal(k.auth, h, plain);
    Seal(k.auth, h, plain).1
  }

  /** The reader opens what the writer sealed and leaves the writer's state. */
  lemma OpenBody(k: Codec, h: Hidden, plain: Bytes)
    requires Sound(k, h)
    ensures Open(k.auth, h, Body(k, h, plain)) == (Some(plain), AfterBody(k, h, plain))
  {
    OpenSeal(k.auth, h, plain);
  }

  predicate FitsSize(k: Codec, plain: Bytes) {
    |plain| + Overhead(k) + MaxPadding(k) < 65536
  }

  /** State of an end once it is done with the frame of `plain`. */
  function AfterFrame(k: Codec, h: Hidden, plain: Bytes): (r: Hidden)
    requires Sound(k, h) && FitsSize(k, plain)
    ensures Sound(k, r)
  {
    AfterBody(k, MakeHeader(k, h, plain).next, plain)
  }

  /** `b` is a frame of `plain`: header, sealed payload and as many arbitrary bytes as were drawn. */
  ghost predicate IsFrame(k: Codec, h: Hidden, plain: Bytes, b: Bytes)
    requires Sound(k, h) && FitsSize(k, plain)
  {
    var hd := MakeHeader(k, h, plain);
    hd.bytes + Body(k, hd.next, plain) <= b && |b| == SizeBytes(k) + |plain| + Overhead(k) + hd.pad
  }

  lemma ConfiguredWired(k: Codec, h: Hidden)
    requires Configured(k, h)
    ensures Wired(k.auth, h) && SizeWired(k, h)
  {
  }

  /** Every draw keeps the endpoint configured. */
  lemma StaysConfigured(k: Codec, h: Hidden, n: Uint16, plain: Bytes)
    requires Configured(k, h)
    ensures Configured(k, NextPadding(k, h).1) && Configured(k, EncodeSize(k, h, n).1)
        && Configured(k, Seal(k.auth, h, plain).1)
  {
    hide DrawInputs;
    InputsKeepShape(k.auth, h);
    if k.size.AeadSize? { InputsKeepShape(k.size.auth, h); }
  }

  /** Padding drawn, then the size encoded, make the header. */
  lemma HeaderMade(k: Codec, h: Hidden, plain: Bytes, pad: nat, h1: Hidden)
    requires Sound(k, h) && FitsSize(k, plain) && (pad, h1) == NextPadding(k, h)
    ensures Configured(k, h1) && Configured(k, MakeHeader(k, h, plain).next)
    ensures EncodeSize(k, h1, |plain| + Overhead(k) + pad)
        == (Some(MakeHeader(k, h, plain).bytes), MakeHeader(k, h, plain).next)
  {
    hide Correct, ConstantOffset, NextPadding, EncodeSize;
    PaddingKeepsSound(k, h);
    DecodeEncode(k, h1, |plain| + Overhead(k) + pad);
  }

  /** The payload sealed in the header's state leaves the state after the frame. */
  lemma BodyMade(k: Codec, h: Hidden, plain: Bytes)
    requires Sound(k, h) && FitsSize(k, plain)
    ensures var h2 := MakeHeader(k, h, plain).next;
            Wired(k.auth, h2) && Seal(k.auth, h2, plain) == (Some(Body(k, h2, plain)), AfterFrame(k, h, plain))
  {
    hide Seal, MakeHeader, Correct;
    OpenSeal(k.auth, MakeHeader(k, h, plain).next, plain);
  }

  /** Header, payload and as many bytes as were drawn make the frame, whatever these bytes are. */
  lemma PartsMakeFrame(k: Codec, h: Hidden, plain: Bytes, filler: Bytes)
    requires Sound(k, h) && FitsSize(k, plain) && |filler| == NextPadding(k, h).0
    ensures var hd := MakeHeader(k, h, plain); var b := hd.bytes + Body(k, hd.next, plain) + filler;
            IsFrame(k, h, plain, b) && |b| == SizeBytes(k) + |plain| + Overhead(k) + |filler|
  {
    hide Sound, MakeHeader, Body, NextPadding;
  }

  /** What follows from Sound, for proofs that need not look inside it. */
  lemma SoundFacts(k: Codec, h: Hidden)
    requires Sound(k, h)
    ensures PayloadSize(k) >= 1 && Configured(k, h) && Ready(k.auth, h)
    ensures SizeSound(k, h)
  {
  }

  lemma PaddingKeepsSound(k: Codec, h: Hidden)
    requires Sound(k, h)
    ensures Sound(k, NextPadding(k, h).1) && ConstantOffset(k) <= Overhead(k)
  {
  }

  // ---- sequences of frames ----

  predicate AllFit(k: Codec, chunks: seq<Bytes>) {
    forall i :: 0 <= i < |chunks| ==> FitsSize(k, chunks[i])
  }

  function AfterFrames(k: Codec, h: Hidden, chunks: seq<Bytes>): (r: Hidden)
    requires Sound(k, h) && AllFit(k, chunks)
    ensures Sound(k, r)
    decreases |chunks|
  {
    if chunks == [] then h else AfterFrames(k, AfterFrame(k, h, chunks[0]), chunks[1..])
  }

  /** `frames` are frames of `chunks`, one after the other. */
  ghost predicate AreFrames(k: Codec, h: Hidden, chunks: seq<Bytes>, frames: seq<Bytes>)
    requires Sound(k, h) && AllFit(k, chunks)
    decreases |chunks|
  {
    |chunks| == |frames| &&
    (chunks != [] ==>
      && IsFrame(k, h, chunks[0], frames[0])
      && AreFrames(k, AfterFrame(k, h, chunks[0]), chunks[1..], frames[1..]))
  }

  lemma {:induction false} FramesAppend(k: Codec, h: Hidden, c1: seq<Bytes>, f1: seq<Bytes>, c2: seq<Bytes>,
      f2: seq<Bytes>)
    requires Sound(k, h) && AllFit(k, c1) && AllFit(k, c2)
    requires AreFrames(k, h, c1, f1) && AreFrames(k, AfterFrames(k, h, c1), c2, f2)
    ensures AllFit(k, c1 + c2) && AreFrames(k, h, c1 + c2, f1 + f2)
    ensures AfterFrames(k, h, c1 + c2) == AfterFrames(k, AfterFrames(k, h, c1), c2)
    decreases |c1|
  {
    hide Sound, IsFrame, AfterFrame;
    if c1 == [] {
      assert c1 + c2 == c2 && f1 + f2 == f2;
    } else {
      assert (c1 + c2)[1..] == c1[1..] + c2 && (f1 + f2)[1..] == f1[1..] + f2;
      FramesAppend(k, AfterFrame(k, h, c1[0]), c1[1..], f1[1..], c2, f2);
    }
  }
}
