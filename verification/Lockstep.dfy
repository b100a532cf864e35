/** Which nonce each chunk is sealed and opened under (common/crypto/auth.go, common/crypto/chunk.go). */
module Lockstep {
  import opened Basics
  import opened Codecs
  import Nonce

  /** Draws one use of an authenticator makes from generator g. */
  function UsesBy(a: Authenticator, g: nat): nat {
    (if a.nonceGen == g then 1 else 0) + (if a.adGen == Some(g) then 1 else 0)
  }

  /** Draws the size parser makes from generator g for one chunk. */
  function SizeUses(k: Codec, g: nat): nat {
    if k.size.AeadSize? then UsesBy(k.size.auth, g) else 0
  }

  /** Generator g counts up from `seed` and has been drawn from m times. */
  predicate Counting(h: Hidden, g: nat, seed: Bytes, m: nat) {
    g < |h.gens| && h.gens[g] == Increasing(Nonce.Nth(seed, m))
  }

  lemma InputsCount(a: Authenticator, h: Hidden, g: nat, seed: Bytes, m: nat)
    requires Ready(a, h) && Counting(h, g, seed, m)
    ensures Counting(DrawInputs(a, h).1, g, seed, m + UsesBy(a, g))
    ensures a.nonceGen == g ==> DrawInputs(a, h).0.Some? && DrawInputs(a, h).0.value.0 == Nonce.Nth(seed, m + 1)
  {
    var h1 := Draw(h, a.nonceGen).1;
    assert Counting(h1, g, seed, m + if a.nonceGen == g then 1 else 0);
  }

  lemma PaddingCounts(k: Codec, h: Hidden, g: nat, seed: Bytes, m: nat)
    requires Counting(h, g, seed, m)
    ensures Counting(NextPadding(k, h).1, g, seed, m)
  {
  }

  lemma SameGens(h: Hidden, h': Hidden, g: nat, seed: Bytes, m: nat)
    requires Counting(h, g, seed, m) && h'.gens == h.gens
    ensures Counting(h', g, seed, m)
  {
  }

  lemma HeaderCounts(k: Codec, h: Hidden, plain: Bytes, g: nat, seed: Bytes, m: nat)
    requires Sound(k, h) && FitsSize(k, plain) && Counting(h, g, seed, m)
    ensures Counting(MakeHeader(k, h, plain).next, g, seed, m + SizeUses(k, g))
  {
    hide Sound, DrawInputs, UsesBy, NextPadding, Counting, MakeHeader;
    var (pad, h1) := NextPadding(k, h);
    PaddingKeepsSound(k, h);
    SoundFacts(k, h1);
    PaddingCounts(k, h, g, seed, m);
    HeaderMade(k, h, plain, pad, h1);
    if k.size.AeadSize? {
      InputsCount(k.size.auth, h1, g, seed, m);
    } else {
      assert EncodeSize(k, h1, |plain| + Overhead(k) + pad).1.gens == h1.gens;
      SameGens(h1, EncodeSize(k, h1, |plain| + Overhead(k) + pad).1, g, seed, m);
    }
  }

  lemma BodyCounts(k: Codec, h: Hidden, plain: Bytes, g: nat, seed: Bytes, m: nat)
    requires Sound(k, h) && Counting(h, g, seed, m)
    ensures Counting(AfterBody(k, h, plain), g, seed, m + UsesBy(k.auth, g))
  {
    InputsCount(k.auth, h, g, seed, m);
  }

  /** Draws from generator g before chunk i: each earlier chunk's size and payload. */
  function DrawsBefore(k: Codec, g: nat, i: nat): nat {
    if i == 0 then 0 else SizeUses(k, g) + UsesBy(k.auth, g) + DrawsBefore(k, g, i - 1)
  }

  lemma {:induction false} DrawsGrow(k: Codec, g: nat, i: nat, j: nat)
    requires i < j && k.auth.nonceGen == g
    ensures DrawsBefore(k, g, i) + SizeUses(k, g) + 1 <= DrawsBefore(k, g, j)
    decreases j
  {
    if i < j - 1 {
      DrawsGrow(k, g, i, j - 1);
    }
  }

  lemma {:induction false} FramesCount(k: Codec, h: Hidden, chunks: seq<Bytes>, g: nat, seed: Bytes, m: nat)
    requires Sound(k, h) && AllFit(k, chunks) && Counting(h, g, seed, m)
    ensures Counting(AfterFrames(k, h, chunks), g, seed, m + DrawsBefore(k, g, |chunks|))
    decreases |chunks|
  {
    hide Sound, MakeHeader, AfterBody, Counting, SizeUses, UsesBy, FitsSize;
    if chunks != [] {
      var uses := SizeUses(k, g) + UsesBy(k.auth, g);
      HeaderCounts(k, h, chunks[0], g, seed, m);
      BodyCounts(k, MakeHeader(k, h, chunks[0]).next, chunks[0], g, seed, m + SizeUses(k, g));
      FramesCount(k, AfterFrame(k, h, chunks[0]), chunks[1..], g, seed, m + uses);
    }
  }

  /**
   * Both ends of a stream are in the state AfterFrames gives at the i-th chunk boundary. With the
   * payload drawing from generator g, chunk i is sealed and opened under draw number PayloadDraw(i):
   * its size, if sealed from the same generator, came first.
   */
  lemma PayloadNonce(k: Codec, h: Hidden, chunks: seq<Bytes>, i: nat, g: nat, seed: Bytes)
    requires Sound(k, h) && AllFit(k, chunks) && i < |chunks| && Counting(h, g, seed, 0) && k.auth.nonceGen == g
    ensures var inputs := DrawInputs(k.auth, MakeHeader(k, AfterFrames(k, h, chunks[..i]), chunks[i]).next).0;
            inputs.Some? && inputs.value.0 == Nonce.Nth(seed, PayloadDraw(k, g, i))
  {
    hide MakeHeader, AfterFrames, Sound, Counting, DrawsBefore, SizeUses, UsesBy, DrawInputs;
    var n := DrawsBefore(k, g, i);
    FramesCount(k, h, chunks[..i], g, seed, 0);
    var at := AfterFrames(k, h, chunks[..i]);
    HeaderCounts(k, at, chunks[i], g, seed, n);
    var h2 := MakeHeader(k, at, chunks[i]).next;
    SoundFacts(k, h2);
    InputsCount(k.auth, h2, g, seed, n + SizeUses(k, g));
  }

  /** A size sealed from generator g uses draw number SizeDraw(i), right after the padding length is drawn. */
  lemma SizeNonce(k: Codec, h: Hidden, chunks: seq<Bytes>, i: nat, g: nat, seed: Bytes)
    requires Sound(k, h) && AllFit(k, chunks) && i < |chunks| && Counting(h, g, seed, 0)
    requires k.size.AeadSize? && k.size.auth.nonceGen == g
    ensures var h1 := NextPadding(k, AfterFrames(k, h, chunks[..i])).1;
            && Wired(k.size.auth, h1) && DrawInputs(k.size.auth, h1).0.Some?
            && DrawInputs(k.size.auth, h1).0.value.0 == Nonce.Nth(seed, SizeDraw(k, g, i))
  {
    hide AfterFrames, Sound, Counting, DrawsBefore, DrawInputs, NextPadding;
    FramesCount(k, h, chunks[..i], g, seed, 0);
    var at := AfterFrames(k, h, chunks[..i]);
    var h1 := NextPadding(k, at).1;
    PaddingKeepsSound(k, at);
    SoundFacts(k, h1);
    assert Counting(h1, g, seed, DrawsBefore(k, g, i)) by { PaddingCounts(k, at, g, seed, DrawsBefore(k, g, i)); }
    InputsCount(k.size.auth, h1, g, seed, DrawsBefore(k, g, i));
  }

  function PayloadDraw(k: Codec, g: nat, i: nat): nat {
    DrawsBefore(k, g, i) + SizeUses(k, g) + 1
  }

  function SizeDraw(k: Codec, g: nat, i: nat): nat {
    DrawsBefore(k, g, i) + 1
  }

  /**
   * Within the first 256^len draws, no two payloads of a stream share a nonce; and if the sizes are
   * sealed from the same generator, no two sizes do, nor any size and any payload.
   */
  lemma StreamNoncesDistinct(k: Codec, g: nat, seed: Bytes, i: nat, j: nat)
    requires k.auth.nonceGen == g && i <= j && DrawsBefore(k, g, j + 1) <= Nonce.Pow256(|seed|)
    ensures i < j ==> Nonce.Nth(seed, PayloadDraw(k, g, i)) != Nonce.Nth(seed, PayloadDraw(k, g, j))
    ensures k.size.AeadSize? && k.size.auth.nonceGen == g ==>
            && Nonce.Nth(seed, SizeDraw(k, g, i)) != Nonce.Nth(seed, PayloadDraw(k, g, j))
            && (i < j ==> Nonce.Nth(seed, SizeDraw(k, g, i)) != Nonce.Nth(seed, SizeDraw(k, g, j)))
            && (i < j ==> Nonce.Nth(seed, PayloadDraw(k, g, i)) != Nonce.Nth(seed, SizeDraw(k, g, j)))
  {
    hide SizeUses;
    DrawsGrow(k, g, j, j + 1);
    if i < j {
      DrawsGrow(k, g, i, j);
      Nonce.NonceRepeatsExactly(seed, PayloadDraw(k, g, i), PayloadDraw(k, g, j));
      Nonce.NonceRepeatsExactly(seed, SizeDraw(k, g, i), SizeDraw(k, g, j));
      Nonce.NonceRepeatsExactly(seed, PayloadDraw(k, g, i), SizeDraw(k, g, j));
    }
    SharedUse(k, g);
    Nonce.NonceRepeatsExactly(seed, SizeDraw(k, g, i), PayloadDraw(k, g, j));
  }

  lemma SharedUse(k: Codec, g: nat)
    ensures k.size.AeadSize? && k.size.auth.nonceGen == g ==> SizeUses(k, g) >= 1
  {
  }

  lemma {:induction false} SizeDrawsGrow(k: Codec, g: nat, i: nat, j: nat)
    requires i < j && k.size.AeadSize? && k.size.auth.nonceGen == g
    ensures DrawsBefore(k, g, i) + 1 <= DrawsBefore(k, g, j)
    decreases j
  {
    if i < j - 1 {
      SizeDrawsGrow(k, g, i, j - 1);
    }
  }

  /**
   * Sizes sealed from a generator of their own, or a shared one: no two share a nonce within its first 256^len
   * draws.
   */
  lemma SizeNoncesDistinct(k: Codec, g: nat, seed: Bytes, i: nat, j: nat)
    requires k.size.AeadSize? && k.size.auth.nonceGen == g && i < j
    requires SizeDraw(k, g, j) <= Nonce.Pow256(|seed|)
    ensures Nonce.Nth(seed, SizeDraw(k, g, i)) != Nonce.Nth(seed, SizeDraw(k, g, j))
  {
    SizeDrawsGrow(k, g, i, j);
    Nonce.NonceRepeatsExactly(seed, SizeDraw(k, g, i), SizeDraw(k, g, j));
  }
}
