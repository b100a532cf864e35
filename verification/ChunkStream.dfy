/** The plain chunk stream: ChunkStreamWriter and ChunkStreamReader (common/crypto/chunk.go). */
module ChunkStreams {
  import opened Basics
  import opened Codecs
  import opened MultiBuffers
  import opened Sources
  import opened BufferedReaders

  const SLICE := 8192
  const COUNTS := 0x1_0000_0000   // values of a 32-bit counter

  /** A size parser whose Decode gives the whole size, as this stream needs. */
  ghost predicate Usable(k: Codec, h: Hidden) {
    SizeSound(k, h) && (k.size.AeadSize? ==> !k.size.offset)
  }

  predicate Sized(chunks: seq<Bytes>) {
    forall i :: 0 <= i < |chunks| ==> |chunks[i]| < 65536
  }

  function Head(k: Codec, h: Hidden, n: Uint16): (b: Bytes)
    requires Usable(k, h)
    ensures |b| == SizeBytes(k)
  {
    DecodeEncode(k, h, n);
    EncodeSize(k, h, n).0.value
  }

  function AfterHead(k: Codec, h: Hidden, n: Uint16): (h': Hidden)
    requires Usable(k, h)
    ensures Usable(k, h')
  {
    DecodeEncode(k, h, n);
    EncodeSize(k, h, n).1
  }

  /** The wire form of a list of chunks: each its size and its bytes. */
  function ChunkWire(k: Codec, h: Hidden, chunks: seq<Bytes>): Bytes
    requires Usable(k, h) && Sized(chunks)
    decreases |chunks|
  {
    if chunks == [] then []
    else Head(k, h, |chunks[0]|) + chunks[0] + ChunkWire(k, AfterHead(k, h, |chunks[0]|), chunks[1..])
  }

  function AfterChunks(k: Codec, h: Hidden, chunks: seq<Bytes>): (r: Hidden)
    requires Usable(k, h) && Sized(chunks)
    ensures Usable(k, r)
    decreases |chunks|
  {
    if chunks == [] then h else AfterChunks(k, AfterHead(k, h, |chunks[0]|), chunks[1..])
  }

  lemma {:induction false} ChunkWireAppend(k: Codec, h: Hidden, a: seq<Bytes>, b: seq<Bytes>)
    requires Usable(k, h) && Sized(a) && Sized(b)
    ensures ChunkWire(k, h, a + b) == ChunkWire(k, h, a) + ChunkWire(k, AfterChunks(k, h, a), b)
    ensures AfterChunks(k, h, a + b) == AfterChunks(k, AfterChunks(k, h, a), b)
    decreases |a|
  {
    hide Usable, Head, AfterHead;
    if a == [] {
      assert a + b == b;
    } else {
      assert (a + b)[1..] == a[1..] + b;
      ChunkWireAppend(k, AfterHead(k, h, |a[0]|), a[1..], b);
    }
  }

  // ---- writer ----

  predicate Small(mb: MultiBuffer) {
    forall i :: 0 <= i < |mb| ==> |mb[i]| <= SLICE
  }

  /** The chunk contents of one write: runs of whole buffers of at most 8192 bytes. */
  function Slices(mb: MultiBuffer): (r: seq<Bytes>)
    requires Small(mb)
    decreases |mb|
  {
    if mb == [] then [[]]
    else
      var n := WholeBuffers(mb, SLICE);
      [Flat(mb[..n])] + if IsEmpty(mb[n..]) then [] else Slices(mb[n..])
  }

  /** Slices lose nothing; those of a non-empty write are never empty, so no end marker is emitted. */
  lemma {:induction false} SlicesCover(mb: MultiBuffer)
    requires Small(mb)
    ensures Flat(Slices(mb)) == Flat(mb) && Sized(Slices(mb))
    ensures !IsEmpty(mb) ==> forall i :: 0 <= i < |Slices(mb)| ==> 1 <= |Slices(mb)[i]| <= SLICE
    ensures IsEmpty(mb) ==> Slices(mb) == [[]]
    decreases |mb|
  {
    EmptyIffNoBytes(mb);
    if mb == [] {
      assert Flat<Byte>([[]]) == [];
    } else {
      var n := WholeBuffers(mb, SLICE);
      WholeBuffersMaximal(mb, SLICE);
      FlatSplit(mb, n);
      EmptyIffNoBytes(mb[n..]);
      if IsEmpty(mb[n..]) {
        FlatOne(Flat(mb[..n]));
      } else {
        SlicesCover(mb[n..]);
        assert n < |mb| && |Flat(mb[..n])| + |mb[n]| > SLICE;
        var s := Slices(mb);
        assert s[0] == Flat(mb[..n]) && s[1..] == Slices(mb[n..]);
        assert forall i :: 1 <= i < |s| ==> s[i] == s[1..][i - 1];
      }
    }
  }

  /** A slice with another behind it could not have taken the next buffer too. */
  lemma SlicesMaximal(mb: MultiBuffer) returns (n: nat)
    requires Small(mb) && |Slices(mb)| > 1
    ensures n < |mb| && Slices(mb)[0] == Flat(mb[..n]) && |Slices(mb)[0]| <= 8192 < |Slices(mb)[0]| + |mb[n]|
    ensures Slices(mb)[1..] == Slices(mb[n..])
  {
    hide Flat;
    n := WholeBuffers(mb, SLICE);
    WholeBuffersMaximal(mb, SLICE);
  }

  class ChunkStreamWriter {
    const k: Codec
    var hidden: Hidden
    var out: MultiBuffer

    constructor (k: Codec, h: Hidden)
      ensures this.k == k && hidden == h && out == []
    {
      this.k, hidden, out := k, h, [];
    }

    /** Writes the content as chunks; it panics exactly when some buffer is longer than a slice. */
    method WriteMultiBuffer(mb: MultiBuffer) returns (ok: bool)
      requires Usable(k, hidden)
      modifies this
      ensures ok <==> Small(mb)
      ensures !ok ==> out == old(out)
      ensures ok ==>
        && Sized(Slices(mb))
        && Flat(out) == old(Flat(out)) + ChunkWire(k, old(hidden), Slices(mb))
        && hidden == AfterChunks(k, old(hidden), Slices(mb))
    {
      hide Usable, ChunkWire, AfterChunks, IsEmpty, EncodeSize, SizeWired, Slices, Small, SplitSize, Sized, Flat;
      var rest, more := mb, true;
      var toWrite: MultiBuffer := [];
      ghost var h0 := hidden;
      ghost var written: seq<Bytes> := [];
      NoChunks(k, h0);
      while more
        invariant h0 == old(hidden) && out == old(out) && Usable(k, hidden)
        invariant Small(mb) <==> Small(rest)
        invariant Sized(written) && Flat(toWrite) == ChunkWire(k, h0, written) && hidden == AfterChunks(k, h0, written)
        invariant Small(mb) ==> Slices(mb) == written + if more then Slices(rest) else []
        invariant !more ==> IsEmpty(rest)
        decreases more, |rest|
      {
        CutSlice(rest);
        var split := SplitSize(rest, SLICE);
        if split.None? {
          return false;
        }
        var (left, slice) := split.value;
        WireGrows(k, h0, written, toWrite, hidden, slice);
        var (head, h') := EncodeSize(k, hidden, |Flat(slice)|);
        hidden := h';
        toWrite := toWrite + ([head.value] + slice);
        written := written + [Flat(slice)];
        rest, more := left, !IsEmpty(left);
      }
      EmptyIsSmall(rest);
      SlicesCover(mb);
      assert written == Slices(mb);
      FlatAppend(out, toWrite);
      out := out + toWrite;
      return true;
    }
  }

  /** One slice more behind its coded size. */
  lemma WireGrows(k: Codec, h0: Hidden, written: seq<Bytes>, toWrite: MultiBuffer, h: Hidden, slice: MultiBuffer)
    requires Usable(k, h0) && Usable(k, h) && Sized(written) && |Flat(slice)| < 65536
    requires Flat(toWrite) == ChunkWire(k, h0, written) && h == AfterChunks(k, h0, written)
    ensures SizeWired(k, h) && Sized(written + [Flat(slice)])
    ensures var (head, h') := EncodeSize(k, h, |Flat(slice)|);
            && head.Some? && Usable(k, h') && h' == AfterChunks(k, h0, written + [Flat(slice)])
            && Flat(toWrite + ([head.value] + slice)) == ChunkWire(k, h0, written + [Flat(slice)])
  {
    hide Usable, ChunkWire, AfterChunks, EncodeSize, SizeWired, Sized, Flat;
    OneChunk(k, h, Flat(slice));
    SizedAppend(written, [Flat(slice)]);
    ChunkWireAppend(k, h0, written, [Flat(slice)]);
    var head := EncodeSize(k, h, |Flat(slice)|).0.value;
    FlatAppend(toWrite, [head] + slice);
    FlatCons(head, slice);
  }

  lemma SizedAppend(a: seq<Bytes>, b: seq<Bytes>)
    requires Sized(a) && Sized(b)
    ensures Sized(a + b)
  {
  }

  lemma EmptyIsSmall(mb: MultiBuffer)
    requires IsEmpty(mb)
    ensures Small(mb)
  {
  }

  lemma NoChunks(k: Codec, h: Hidden)
    requires Usable(k, h)
    ensures ChunkWire(k, h, []) == [] && AfterChunks(k, h, []) == h && Flat<Byte>([]) == [] && Sized([])
  {
  }

  lemma OneChunk(k: Codec, h: Hidden, c: Bytes)
    requires Usable(k, h) && |c| < 65536
    ensures SizeWired(k, h) && EncodeSize(k, h, |c|).0.Some? && Sized([c])
    ensures ChunkWire(k, h, [c]) == EncodeSize(k, h, |c|).0.value + c
    ensures AfterChunks(k, h, [c]) == EncodeSize(k, h, |c|).1 && Usable(k, EncodeSize(k, h, |c|).1)
  {
    DecodeEncode(k, h, |c|);
    hide Usable, EncodeSize, DecodeSize;
    var h' := AfterHead(k, h, |c|);
    assert ChunkWire(k, h', []) == [] && AfterChunks(k, h', []) == h';
    assert [c][1..] == [];
  }

  /** One turn of the write loop, on values. */
  lemma CutSlice(mb: MultiBuffer)
    ensures SplitSize(mb, SLICE).None? ==> !Small(mb)
    ensures SplitSize(mb, SLICE).Some? ==>
            var (left, slice) := SplitSize(mb, SLICE).value;
            && |Flat(slice)| <= SLICE && (Small(left) <==> Small(mb)) && (|left| < |mb| || mb == left == [])
            && (Small(mb) ==> Slices(mb) == [Flat(slice)] + if IsEmpty(left) then [] else Slices(left))
            && (mb == [] ==> IsEmpty(left)) && (IsEmpty(left) || |left| < |mb|)
  {
    hide Flat, WholeBuffers, IsEmpty, Slices, Small;
    if mb == [] {
      SlicesUnfold(mb);
    } else if |mb[0]| > SLICE {
      assert !Small(mb) by { SmallUnfold(mb); }
    } else {
      var n := WholeBuffers(mb, SLICE);
      assert n >= 1 by { WholeUnfold(mb); }
      WholeBuffersMaximal(mb, SLICE);
      PartsFit(mb[..n], SLICE);
      SmallSplit(mb, n);
      if Small(mb) { SlicesUnfold(mb); }
    }
  }

  lemma SlicesUnfold(mb: MultiBuffer)
    requires Small(mb)
    ensures mb == [] ==> Slices(mb) == [[]] && Flat<Byte>([]) == [] && IsEmpty([])
    ensures mb != [] ==>
            var n := WholeBuffers(mb, SLICE);
            Slices(mb) == [Flat(mb[..n])] + if IsEmpty(mb[n..]) then [] else Slices(mb[n..])
  {
  }

  lemma SmallUnfold(mb: MultiBuffer)
    requires mb != []
    ensures Small(mb) ==> |mb[0]| <= SLICE
  {
  }

  lemma WholeUnfold(mb: MultiBuffer)
    requires mb != [] && |mb[0]| <= SLICE
    ensures WholeBuffers(mb, SLICE) >= 1
  {
  }

  lemma SmallSplit(mb: MultiBuffer, n: nat)
    requires n <= |mb| && Small(mb[..n])
    ensures Small(mb) <==> Small(mb[n..])
  {
    assert forall i :: 0 <= i < n ==> mb[i] == mb[..n][i];
    assert forall i :: n <= i < |mb| ==> mb[i] == mb[n..][i - n];
  }

  lemma {:induction false} PartsFit(mb: MultiBuffer, size: nat)
    requires |Flat(mb)| <= size
    ensures forall i :: 0 <= i < |mb| ==> |mb[i]| <= size
    ensures size <= SLICE ==> Small(mb)
  {
    if mb != [] {
      PartsFit(mb[1..], size - |mb[0]|);
      assert forall i :: 1 <= i < |mb| ==> mb[i] == mb[1..][i - 1];
    }
  }

  // ---- reader ----

  datatype ChunkRead =
    | Data(mb: MultiBuffer)
    | Nothing     // no bytes and no error
    | Eof         // the end marker, the chunk limit, or the end of the transport
    | Fail
    | Panic       // a transport buffer that SplitSize cannot cut

  /** What readSize returns; SizeEof is the io.EOF of a transport that has ended. */
  datatype SizeRead = Size(n: Uint16) | SizeEof | SizeError

  /**
   * `all` is the rest of a chunk being read, then further chunks, then the end marker, then anything, or as much
   * of that as came before the transport ended.
   */
  ghost predicate Upcoming(k: Codec, h: Hidden, left: nat, all: Bytes, pending: Bytes, chunks: seq<Bytes>,
      tail: Bytes) {
    && Usable(k, h) && Sized(chunks + [[]]) && (forall i :: 0 <= i < |chunks| ==> chunks[i] != [])
    && left == |pending|
    && all <= pending + ChunkWire(k, h, chunks + [[]]) + tail
  }

  /** The chunk the next bytes come from and the chunks after it. */
  function Current(pending: Bytes, chunks: seq<Bytes>): (Bytes, seq<Bytes>)
    requires pending != [] || chunks != []
  {
    if pending != [] then (pending, chunks) else (chunks[0], chunks[1..])
  }

  lemma SizeBytesPositive(k: Codec)
    ensures SizeBytes(k) >= 2
  {
  }

  lemma UpcomingFacts(k: Codec, h: Hidden, left: nat, all: Bytes, pending: Bytes, chunks: seq<Bytes>, tail: Bytes)
    requires Upcoming(k, h, left, all, pending, chunks, tail)
    ensures SizeWired(k, h) && left == |pending|
  {
  }

  lemma {:induction false} ReadFullRest(s: Source, n: nat)
    ensures |Sources.ReadFull(s, n).1.rest| <= |s.rest|
    decreases |s.rest|
  {
    if n > |s.buffered| && s.rest != [] {
      ReadFullRest(Source(s.buffered + s.rest[0], s.rest[1..]), n);
    }
  }

  /** The parts of the beginning of a sequence. */
  lemma CutPrefix(all: Bytes, head: Bytes, rest: Bytes)
    requires all <= head + rest && |head| <= |all|
    ensures all[..|head|] == head && all[|head|..] <= rest
  {
    assert all[..|head|] == (head + rest)[..|head|];
    assert all[|head|..] == (head + rest)[|head|..|all|] == rest[..|all| - |head|];
  }

  /** At a chunk boundary a whole header decodes to the next chunk's size, zero at the end marker. */
  lemma HeadUpcoming(k: Codec, h: Hidden, all: Bytes, chunks: seq<Bytes>, tail: Bytes)
    requires Upcoming(k, h, 0, all, [], chunks, tail) && SizeBytes(k) <= |all|
    ensures SizeWired(k, h)
    ensures var (n, h') := DecodeSize(k, h, all[..SizeBytes(k)]);
            && n.Some? && (chunks == [] ==> n.value == 0)
            && (chunks != [] ==>
                  n.value > 0 && Upcoming(k, h', n.value, all[SizeBytes(k)..], chunks[0], chunks[1..], tail))
  {
    hide DecodeSize, SizeBytes, Usable, ChunkWire, Sized;
    UpcomingUnfold(k, h, all, chunks, tail);
    var n := if chunks == [] then 0 else |chunks[0]|;
    DecodeHead(k, h, n);
    CutPrefix(all, Head(k, h, n), if chunks == [] then tail else NextWire(k, AfterHead(k, h, n), chunks, tail));
    if chunks != [] {
      SizedTail(chunks);
    }
  }

  /** What follows the header of the first chunk. */
  function NextWire(k: Codec, h: Hidden, chunks: seq<Bytes>, tail: Bytes): Bytes
    requires Usable(k, h) && Sized(chunks + [[]]) && chunks != []
  {
    SizedTail(chunks);
    chunks[0] + ChunkWire(k, h, chunks[1..] + [[]]) + tail
  }

  lemma SizedTail(chunks: seq<Bytes>)
    requires Sized(chunks + [[]]) && chunks != []
    ensures Sized(chunks[1..] + [[]]) && |chunks[0]| < 65536
  {
    assert chunks + [[]] == [chunks[0]] + (chunks[1..] + [[]]);
    assert forall i :: 0 <= i < |chunks| ==> (chunks[1..] + [[]])[i] == (chunks + [[]])[i + 1];
    assert (chunks + [[]])[0] == chunks[0];
  }

  lemma UpcomingUnfold(k: Codec, h: Hidden, all: Bytes, chunks: seq<Bytes>, tail: Bytes)
    requires Upcoming(k, h, 0, all, [], chunks, tail)
    ensures Usable(k, h) && Sized(chunks + [[]]) && (chunks != [] ==> |chunks[0]| < 65536)
    ensures chunks == [] ==> all <= Head(k, h, 0) + tail
    ensures chunks != [] ==> all <= Head(k, h, |chunks[0]|) + NextWire(k, AfterHead(k, h, |chunks[0]|), chunks, tail)
  {
    hide Usable, Head, AfterHead, Sized;
    if chunks == [] {
      WireEnd(k, h);
    } else {
      SizedTail(chunks);
      assert (chunks + [[]])[0] == chunks[0] && (chunks + [[]])[1..] == chunks[1..] + [[]];
      var rest := ChunkWire(k, AfterHead(k, h, |chunks[0]|), chunks[1..] + [[]]);
      assert [] + (Head(k, h, |chunks[0]|) + chunks[0] + rest) + tail
          == Head(k, h, |chunks[0]|) + (chunks[0] + rest + tail);
    }
  }

  lemma WireEnd(k: Codec, h: Hidden)
    requires Usable(k, h)
    ensures Sized([] + [[]]) && ChunkWire(k, h, [] + [[]]) == Head(k, h, 0)
  {
    hide Usable, Head, AfterHead;
    var one: seq<Bytes> := [] + [[]];
    assert one[0] == [] && one[1..] == [];
    assert ChunkWire(k, AfterHead(k, h, 0), []) == [];
    assert Head(k, h, 0) + [] + [] == Head(k, h, 0);
  }

  lemma DecodeHead(k: Codec, h: Hidden, n: Uint16)
    requires Usable(k, h)
    ensures SizeWired(k, h) && DecodeSize(k, h, Head(k, h, n)) == (Some(n), AfterHead(k, h, n))
  {
    DecodeEncode(k, h, n);
  }

  lemma TakeUpcoming(k: Codec, h: Hidden, left: nat, all: Bytes, now: Bytes, later: seq<Bytes>, tail: Bytes, got: Bytes,
                     rest: Bytes)
    requires Upcoming(k, h, left, all, now, later, tail) && all == got + rest && |got| <= left
    ensures left == |now| && got == now[..|got|] && Upcoming(k, h, left - |got|, rest, now[|got|..], later, tail)
  {
    hide Usable, ChunkWire;
    var wire := ChunkWire(k, h, later + [[]]) + tail;
    var n := |got|;
    assert now + ChunkWire(k, h, later + [[]]) + tail == now[..n] + (now[n..] + wire);
    CutPrefix(all, now[..n], now[n..] + wire);
    assert all[..n] == got && all[n..] == rest;
    assert now[n..] + wire == now[n..] + ChunkWire(k, h, later + [[]]) + tail;
  }

  class ChunkStreamReader {
    const k: Codec
    const reader: BufferedReader
    const maxNumChunk: nat
    var hidden: Hidden
    var leftOver: nat
    var numChunk: nat

    constructor (k: Codec, h: Hidden, reader: BufferedReader, maxNumChunk: nat)
      requires maxNumChunk < COUNTS
      ensures this.k == k && this.reader == reader && hidden == h && this.maxNumChunk == maxNumChunk
      ensures leftOver == 0 && numChunk == 0
    {
      this.k, this.reader, this.maxNumChunk, hidden, leftOver, numChunk := k, reader, maxNumChunk, h, 0, 0;
    }

    /** Whether the next call starts a chunk beyond the configured number. */
    predicate AtLimit()
      reads this
    {
      leftOver == 0 && maxNumChunk > 0 && (numChunk + 1) % COUNTS > maxNumChunk
    }

    /**
     * readSize: io.EOF exactly when not a byte is left, an error when only part of a header is; at a chunk boundary of
     * a well-formed stream a whole header gives the next chunk's size, zero for the end marker.
     */
    method ReadSize(ghost chunks: seq<Bytes>, ghost tail: Bytes) returns (r: SizeRead)
      requires SizeWired(k, hidden)
      modifies this`hidden, reader
      ensures old(reader.Regular()) ==> reader.Regular()
      ensures |reader.View().rest| <= |old(reader.View()).rest|
      ensures r.SizeEof? <==> old(All(reader.View())) == []
      ensures 0 < |old(All(reader.View()))| < SizeBytes(k) ==> r.SizeError?
      ensures r.Size? ==> |All(reader.View())| + SizeBytes(k) == |old(All(reader.View()))|
      ensures
        old(Upcoming(k, hidden, 0, All(reader.View()), [], chunks, tail))
          && |old(All(reader.View()))| >= SizeBytes(k) ==>
        && r.Size? && (chunks == [] ==> r.n == 0)
        && (chunks != [] ==>
              r.n > 0 && Upcoming(k, hidden, r.n, All(reader.View()), chunks[0], chunks[1..], tail))
    {
      hide Usable, ChunkWire, DecodeSize, All, Sources.ReadFull, BufferedReader.Regular, BufferedReader.View, SizeBytes,
        Upcoming;
      ReadFullTakesPrefix(reader.View(), SizeBytes(k));
      ReadFullRest(reader.View(), SizeBytes(k));
      SizeBytesPositive(k);
      if Upcoming(k, hidden, 0, All(reader.View()), [], chunks, tail) && SizeBytes(k) <= |All(reader.View())| {
        HeadUpcoming(k, hidden, All(reader.View()), chunks, tail);
      }
      var b := reader.ReadFull(SizeBytes(k));
      if !b.Whole? {
        return if b.NoBytes? then SizeEof else SizeError;
      }
      var (size, h') := DecodeSize(k, hidden, b.value);
      hidden := h';
      return if size.None? then SizeError else Size(size.value);
    }

    /**
     * Within the chunk limit, on a well-formed stream or the beginning of one. At a boundary: an error exactly when the
     * stream ends within a header; EOF at its end and at the end marker. Otherwise, with a chunk begun or its header
     * there: the next bytes of that chunk and never any beyond it, or EOF when there is none. It panics exactly when
     * the first buffer in `front` is longer than the `rest` of the chunk and that exceeds a regular buffer.
     */
    method ReadMultiBuffer(ghost pending: Bytes, ghost chunks: seq<Bytes>, ghost tail: Bytes)
      returns (r: ChunkRead, ghost front: MultiBuffer, ghost rest: nat)
      requires SizeWired(k, hidden)
      modifies this, reader
      ensures old(reader.Regular()) ==> reader.Regular() && !r.Panic?
      ensures r.Panic? <==> front != [] && |front[0]| > rest > SIZE
      ensures old(leftOver) > 0 ==> front == old(reader.Front()) && rest == old(leftOver)
      ensures numChunk == if old(leftOver) == 0 then (old(numChunk) + 1) % COUNTS else old(numChunk)
      ensures old(AtLimit()) ==>
        r == Eof && reader.View() == old(reader.View()) && hidden == old(hidden) && leftOver == 0
      ensures
        && !old(AtLimit()) && !r.Panic?
        && old(Upcoming(k, hidden, leftOver, All(reader.View()), pending, chunks, tail)) ==>
        var all := |old(All(reader.View()))|;
        if pending == [] && 0 < all < SizeBytes(k) then r == Fail
        else if pending == [] && (all == 0 || chunks == []) then r == Eof
        else
          var (now, later) := Current(pending, chunks);
          var body := all - if pending == [] then SizeBytes(k) else 0;
          if r.Eof? then body == 0
          else
            && (r.Data? || r.Nothing?)
            && var n := if r.Data? then |Flat(r.mb)| else 0;
            && n <= |now| && (r.Data? ==> n > 0 && Flat(r.mb) == now[..n])
            && |All(reader.View())| == body - n
            && Upcoming(k, hidden, leftOver, All(reader.View()), now[n..], later, tail)
      ensures r.Data? || r.Nothing? ==>
        var s, s' := old(reader.View()), reader.View();
        && |s'.rest| <= |s.rest|
        && (|s'.rest| == |s.rest| ==>
              || |All(s')| < |All(s)|
              || (|All(s')| == |All(s)| && |reader.buffer| < old(|reader.buffer|)))
    {
      hide All, Flat, BufferedReader.Regular, BufferedReader.View, BufferedReader.Front, SizeWired, Upcoming, SizeBytes;
      ghost var ok := !AtLimit() && Upcoming(k, hidden, leftOver, All(reader.View()), pending, chunks, tail);
      ghost var now, later := pending, chunks;
      front, rest := [], 0;
      if ok {
        UpcomingFacts(k, hidden, leftOver, All(reader.View()), pending, chunks, tail);
      }
      if leftOver == 0 {
        SizeBytesPositive(k);
        var stop := BeginChunk(chunks, tail);
        if stop.Some? {
          return stop.value, [], 0;
        }
        if ok {
          now, later := chunks[0], chunks[1..];
        }
      }
      front, rest := reader.Front(), leftOver;
      r := ReadChunk(now, later, tail);
    }

    /** The start of a call at a chunk boundary: count the chunk and read its size, unless that ends the call. */
    method BeginChunk(ghost chunks: seq<Bytes>, ghost tail: Bytes) returns (stop: Option<ChunkRead>)
      requires SizeWired(k, hidden) && leftOver == 0
      modifies this, reader
      ensures old(reader.Regular()) ==> reader.Regular()
      ensures numChunk == (old(numChunk) + 1) % COUNTS
      ensures old(AtLimit()) ==> stop == Some(Eof) && reader.View() == old(reader.View()) && hidden == old(hidden)
      ensures stop.Some? ==> leftOver == 0 && (stop.value.Eof? || stop.value.Fail?)
      ensures stop.None? ==>
        && leftOver > 0 && |reader.View().rest| <= |old(reader.View()).rest|
        && |All(reader.View())| + SizeBytes(k) == |old(All(reader.View()))|
      ensures !old(AtLimit()) ==>
        && (old(All(reader.View())) == [] ==> stop == Some(Eof))
        && (0 < |old(All(reader.View()))| < SizeBytes(k) ==> stop == Some(Fail))
      ensures
        && !old(AtLimit()) && |old(All(reader.View()))| >= SizeBytes(k)
        && old(Upcoming(k, hidden, 0, All(reader.View()), [], chunks, tail)) ==>
        && (chunks == [] ==> stop == Some(Eof))
        && (chunks != [] ==>
              stop == None && Upcoming(k, hidden, leftOver, All(reader.View()), chunks[0], chunks[1..], tail))
    {
      hide All, BufferedReader.Regular, BufferedReader.View, SizeWired, Upcoming, SizeBytes;
      numChunk := (numChunk + 1) % COUNTS;
      if maxNumChunk > 0 && numChunk > maxNumChunk {
        return Some(Eof);
      }
      var size := ReadSize(chunks, tail);
      if !size.Size? {
        return Some(if size.SizeEof? then Eof else Fail);
      }
      if size.n == 0 {
        return Some(Eof);
      }
      leftOver := size.n;
      return None;
    }

    /** The rest of a call: some bytes of the chunk that has begun, or the io.EOF of a transport that has ended. */
    method ReadChunk(ghost now: Bytes, ghost later: seq<Bytes>, ghost tail: Bytes) returns (r: ChunkRead)
      requires leftOver > 0
      modifies this`leftOver, reader
      ensures old(reader.Regular()) ==> reader.Regular() && !r.Panic?
      ensures r.Panic? <==> old(reader.Front()) != [] && |old(reader.Front())[0]| > old(leftOver) > SIZE
      ensures !r.Fail? && (r.Eof? ==> old(All(reader.View())) == [])
      ensures r.Data? || r.Nothing? ==>
        |All(reader.View())| == |old(All(reader.View()))| - if r.Data? then |Flat(r.mb)| else 0
      ensures (r.Data? || r.Nothing?) && old(Upcoming(k, hidden, leftOver, All(reader.View()), now, later, tail)) ==>
        && var n := if r.Data? then |Flat(r.mb)| else 0;
        && n <= |now| && (r.Data? ==> n > 0 && Flat(r.mb) == now[..n])
        && Upcoming(k, hidden, leftOver, All(reader.View()), now[n..], later, tail)
      ensures r.Data? || r.Nothing? ==>
        var s, s' := old(reader.View()), reader.View();
        && |s'.rest| <= |s.rest|
        && (|s'.rest| == |s.rest| ==>
              || |All(s')| < |All(s)|
              || (|All(s')| == |All(s)| && |reader.buffer| < old(|reader.buffer|)))
    {
      hide All, Flat, BufferedReader.Regular, BufferedReader.View, BufferedReader.Front, Upcoming, IsEmpty;
      ghost var all, ok := All(reader.View()), Upcoming(k, hidden, leftOver, All(reader.View()), now, later, tail);
      var got := reader.ReadAtMost(leftOver);
      if got.OutOfBound? {
        return Panic;
      }
      if got.Drained? {
        return Eof;
      }
      if ok {
        TakeUpcoming(k, hidden, leftOver, all, now, later, tail, Flat(got.mb), All(reader.View()));
      }
      EmptyIffNoBytes(got.mb);
      if !IsEmpty(got.mb) {
        leftOver := leftOver - |Flat(got.mb)|;
        return Data(got.mb);
      }
      return Nothing;
    }
  }

  // ---- limits ----

  /**
   * How many of `n` chunks a reader with this setting gives out. Zero means no limit; so does the largest
   * 32-bit number, because the counter wraps before it can exceed it.
   */
  function Readable(maxNumChunk: nat, n: nat): (r: nat)
    ensures r <= n
  {
    if maxNumChunk == 0 || maxNumChunk == COUNTS - 1 then n else Min(maxNumChunk, n)
  }

  /** The reader has begun `begun` chunks; below a limit its counter says so. */
  ghost predicate Counted(r: ChunkStreamReader, begun: nat, n: nat)
    reads r
  {
    && r.numChunk < COUNTS && r.maxNumChunk < COUNTS && begun <= n
    && (0 < r.maxNumChunk < COUNTS - 1 ==> r.numChunk == begun <= r.maxNumChunk)
  }

  lemma LimitMeans(r: ChunkStreamReader, begun: nat, n: nat)
    requires Counted(r, begun, n)
    ensures r.leftOver == 0 ==> (r.AtLimit() <==> 0 < r.maxNumChunk < COUNTS - 1 && begun == r.maxNumChunk)
    ensures r.AtLimit() ==> Readable(r.maxNumChunk, n) == begun
    ensures Readable(r.maxNumChunk, n) >= begun
  {
  }
}
