/**
 * The plain chunk stream end to end (common/crypto/chunk.go): written, sent over a cut-up wire, perhaps cut
 * off, and read.
 */
module ChunkTransfers {
  import opened Basics
  import opened Codecs
  import opened MultiBuffers
  import opened Sources
  import opened BufferedReaders
  import opened ChunkStreams

  /** Runs the writes and the closing empty write. */
  method WriteAll(k: Codec, h: Hidden, writes: seq<MultiBuffer>) returns (wire: Bytes, ghost chunks: seq<Bytes>)
    requires Usable(k, h) && forall i :: 0 <= i < |writes| ==> Small(writes[i]) && !IsEmpty(writes[i])
    ensures Flat(chunks) == Flat(Flat(writes))
    ensures Upcoming(k, h, 0, wire, [], chunks, []) && Sized(chunks + [[]]) && wire == ChunkWire(k, h, chunks + [[]])
    ensures forall i :: 0 <= i < |chunks| ==> 1 <= |chunks[i]| <= SLICE
  {
    hide Usable, ChunkWire, AfterChunks, Small, IsEmpty, Flat, Slices, Sized;
    var w := new ChunkStreamWriter(k, h);
    chunks := [];
    NoChunks(k, h);
    FlatFlatNone(writes);
    var ok;
    var i := 0;
    while i < |writes|
      invariant 0 <= i <= |writes| && w.k == k
      invariant forall j :: 0 <= j < |chunks| ==> 1 <= |chunks[j]| <= SLICE
      invariant Flat(chunks) == Flat(Flat(writes[..i])) && Sized(chunks)
      invariant Usable(k, w.hidden) && Flat(w.out) == ChunkWire(k, h, chunks) && w.hidden == AfterChunks(k, h, chunks)
    {
      SlicesCover(writes[i]);
      ghost var slices := Slices(writes[i]);
      ChunkWireAppend(k, h, chunks, slices);
      ok := w.WriteMultiBuffer(writes[i]);
      FlatAppend(chunks, slices);
      FlatFlatNext(writes, i);
      SizedAppend(chunks, slices);
      chunks := chunks + slices;
      i := i + 1;
    }
    assert writes[..i] == writes;
    EmptySlices();
    SizedAppend(chunks, [[]]);
    ChunkWireAppend(k, h, chunks, [[]]);
    ok := w.WriteMultiBuffer([]);
    wire := Flat(w.out);
    assert [] + wire + [] == wire;
  }

  lemma EmptySlices()
    ensures Small([]) && Slices([]) == [[]] && Sized([[]])
  {
  }

  // ---- what comes before a cut ----

  /** The payload in the first n bytes of a stream: the rest of a chunk, then further chunks with their headers. */
  function Seen(k: Codec, pending: Bytes, chunks: seq<Bytes>, n: nat): Bytes
    decreases |chunks|
  {
    if n <= |pending| then pending[..n]
    else
      var m := n - |pending|;
      pending + if chunks == [] || m < SizeBytes(k) then [] else Seen(k, chunks[0], chunks[1..], m - SizeBytes(k))
  }

  /** The stream ends strictly within a header; `closed` tells that none is read behind the last chunk. */
  predicate CutInHeader(k: Codec, pending: Bytes, chunks: seq<Bytes>, closed: bool, n: nat)
    decreases |chunks|
  {
    n > |pending| &&
    var m := n - |pending|;
    if chunks == [] then !closed && m < SizeBytes(k)
    else m < SizeBytes(k) || CutInHeader(k, chunks[0], chunks[1..], closed, m - SizeBytes(k))
  }

  /** The length of the chunks with their headers. */
  function WireSize(k: Codec, chunks: seq<Bytes>): nat {
    if chunks == [] then 0 else SizeBytes(k) + |chunks[0]| + WireSize(k, chunks[1..])
  }

  /** Without a cut among them all of the chunks is seen. */
  lemma {:induction false} SeenAll(k: Codec, pending: Bytes, chunks: seq<Bytes>, closed: bool, n: nat)
    requires n >= |pending| + WireSize(k, chunks)
    ensures Seen(k, pending, chunks, n) == pending + Flat(chunks)
    ensures closed || n >= |pending| + WireSize(k, chunks) + SizeBytes(k) ==>
        !CutInHeader(k, pending, chunks, closed, n)
    decreases |chunks|
  {
    SizeBytesPositive(k);
    hide SizeBytes;
    if chunks == [] {
      assert pending[..|pending|] == pending && pending + [] == pending;
    } else {
      SeenAll(k, chunks[0], chunks[1..], closed, n - |pending| - SizeBytes(k));
    }
  }

  /** What is seen is the beginning of the content. */
  lemma {:induction false} SeenIsPrefix(k: Codec, pending: Bytes, chunks: seq<Bytes>, n: nat)
    ensures Seen(k, pending, chunks, n) <= pending + Flat(chunks)
    decreases |chunks|
  {
    hide SizeBytes;
    if n > |pending| && chunks != [] && n - |pending| >= SizeBytes(k) {
      SeenIsPrefix(k, chunks[0], chunks[1..], n - |pending| - SizeBytes(k));
    }
  }

  lemma {:induction false} WireSizeIs(k: Codec, h: Hidden, chunks: seq<Bytes>)
    requires Usable(k, h) && Sized(chunks)
    ensures |ChunkWire(k, h, chunks)| == WireSize(k, chunks)
    decreases |chunks|
  {
    hide Usable, Head, AfterHead;
    if chunks != [] {
      WireSizeIs(k, AfterHead(k, h, |chunks[0]|), chunks[1..]);
    }
  }

  lemma {:induction false} WireSizeAppend(k: Codec, a: seq<Bytes>, b: seq<Bytes>)
    ensures WireSize(k, a + b) == WireSize(k, a) + WireSize(k, b)
  {
    hide SizeBytes;
    if a == [] {
      assert a + b == b;
    } else {
      assert (a + b)[1..] == a[1..] + b;
      WireSizeAppend(k, a[1..], b);
    }
  }

  /** Taking n bytes of the current chunk moves them from what is still to be seen to what has been. */
  lemma SeenStep(k: Codec, pending: Bytes, chunks: seq<Bytes>, closed: bool, all: nat, n: nat)
    requires pending != [] || (chunks != [] && all >= SizeBytes(k))
    requires var body := all - if pending == [] then SizeBytes(k) else 0;
             n <= body && n <= |Current(pending, chunks).0|
    ensures var (now, later) := Current(pending, chunks);
            var body := all - if pending == [] then SizeBytes(k) else 0;
            && Seen(k, pending, chunks, all) == now[..n] + Seen(k, now[n..], later, body - n)
            && CutInHeader(k, pending, chunks, closed, all) == CutInHeader(k, now[n..], later, closed, body - n)
  {
    SizeBytesPositive(k);
    hide SizeBytes;
    var (now, later) := Current(pending, chunks);
    var body := all - if pending == [] then SizeBytes(k) else 0;
    if pending == [] {
      assert Seen(k, pending, chunks, all) == [] + Seen(k, now, later, body);
    }
    TakeSeen(k, now, later, closed, body, n);
  }

  lemma TakeSeen(k: Codec, now: Bytes, later: seq<Bytes>, closed: bool, body: nat, n: nat)
    requires n <= body && n <= |now|
    ensures Seen(k, now, later, body) == now[..n] + Seen(k, now[n..], later, body - n)
    ensures CutInHeader(k, now, later, closed, body) == CutInHeader(k, now[n..], later, closed, body - n)
  {
    hide SizeBytes;
    if body <= |now| {
      assert now[..body] == now[..n] + now[n..][..body - n];
    } else {
      assert now == now[..n] + now[n..];
    }
  }

  // ---- reading to the end ----

  /** Whether the reader's limit ends the stream behind the last chunk it gives out. */
  predicate Closed(maxNumChunk: nat, n: nat) {
    0 < maxNumChunk < COUNTS - 1 && maxNumChunk <= n
  }

  /** The chunks a reader has yet to begin. */
  function ToCome(maxNumChunk: nat, chunks: seq<Bytes>, begun: nat): seq<Bytes>
    requires begun <= Readable(maxNumChunk, |chunks|)
  {
    chunks[begun..Readable(maxNumChunk, |chunks|)]
  }

  /**
   * Reads until something other than data comes, from a stream that may be cut off anywhere: exactly the
   * payload before the cut, of as many chunks as the limit allows; then an error if the stream ends within a
   * header, and EOF otherwise, also in the middle of a chunk.
   */
  method ReadAll(r: ChunkStreamReader, ghost chunks: seq<Bytes>, ghost tail: Bytes)
    returns (plain: Bytes, last: ChunkRead)
    requires r.reader.Regular() && r.maxNumChunk < COUNTS && r.numChunk == 0
    requires Upcoming(r.k, r.hidden, r.leftOver, All(r.reader.View()), [], chunks, tail)
    modifies r, r.reader
    ensures var n, given := |old(All(r.reader.View()))|, chunks[..Readable(r.maxNumChunk, |chunks|)];
            && plain == Seen(r.k, [], given, n)
            && last == if CutInHeader(r.k, [], given, Closed(r.maxNumChunk, |chunks|), n) then Fail else Eof
  {
    hide Usable, ChunkWire, Upcoming, All, BufferedReader.View, BufferedReader.Regular, SizeWired, Flat, Current,
        Readable,
      SizeBytes, Seen, CutInHeader, ToCome;
    ghost var max, count, n0 := r.maxNumChunk, |chunks|, |All(r.reader.View())|;
    ghost var closed := Closed(max, count);
    ghost var pending: Bytes, begun := [], 0;
    plain := [];
    StartToCome(max, chunks);
    while true
      invariant r.reader.Regular() && Counted(r, begun, count) && begun <= Readable(max, count)
      invariant Upcoming(r.k, r.hidden, r.leftOver, All(r.reader.View()), pending, chunks[begun..], tail)
      invariant Seen(r.k, [], ToCome(max, chunks, 0), n0)
             == plain + Seen(r.k, pending, ToCome(max, chunks, begun), |All(r.reader.View())|)
      invariant CutInHeader(r.k, [], ToCome(max, chunks, 0), closed, n0)
             == CutInHeader(r.k, pending, ToCome(max, chunks, begun), closed, |All(r.reader.View())|)
      decreases |r.reader.View().rest|, |All(r.reader.View())|, |r.reader.buffer|
    {
      UpcomingFacts(r.k, r.hidden, r.leftOver, All(r.reader.View()), pending, chunks[begun..], tail);
      LimitMeans(r, begun, count);
      ghost var limit, all := r.AtLimit(), |All(r.reader.View())|;
      assert limit <==> pending == [] && 0 < max < COUNTS - 1 && begun == max;
      SizeBytesPositive(r.k);
      ghost var front, rest;
      last, front, rest := r.ReadMultiBuffer(pending, chunks[begun..], tail);
      if !last.Data? && !last.Nothing? {
        EndSeen(r.k, pending, chunks, begun, max, all, last.Fail?);
        return;
      }
      ghost var (now, later) := Current(pending, chunks[begun..]);
      ghost var n := if last.Data? then |Flat(last.mb)| else 0;
      StepToCome(r.k, pending, chunks, begun, max, all, n);
      if last.Data? {
        plain := plain + Flat(last.mb);
      }
      begun := if pending == [] then begun + 1 else begun;
      pending := now[n..];
    }
  }

  lemma StartToCome(max: nat, chunks: seq<Bytes>)
    ensures ToCome(max, chunks, 0) == chunks[..Readable(max, |chunks|)] && chunks[0..] == chunks
  {
  }

  /** Where a reader at this place stops by itself: its limit, or the end of the stream. */
  predicate Stops(k: Codec, pending: Bytes, chunks: seq<Bytes>, begun: nat, max: nat, all: nat, fail: bool)
    requires begun <= |chunks|
  {
    if pending == [] && 0 < max < COUNTS - 1 && begun == max then !fail
    else if pending == [] && 0 < all < SizeBytes(k) then fail
    else !fail && if pending == [] then all == 0 || begun == |chunks| || all == SizeBytes(k) else all == 0
  }

  /** Where it stops nothing more is seen, and it fails exactly within a header. */
  lemma EndSeen(k: Codec, pending: Bytes, chunks: seq<Bytes>, begun: nat, max: nat, all: nat, fail: bool)
    requires begun <= Readable(max, |chunks|) && (0 < max < COUNTS - 1 ==> begun <= max)
    requires Stops(k, pending, chunks, begun, max, all, fail)
    ensures Seen(k, pending, ToCome(max, chunks, begun), all) == []
    ensures CutInHeader(k, pending, ToCome(max, chunks, begun), Closed(max, |chunks|), all) == fail
  {
    SizeBytesPositive(k);
    hide SizeBytes;
    var cs := ToCome(max, chunks, begun);
    if pending == [] && cs != [] && all == SizeBytes(k) {
      assert Seen(k, cs[0], cs[1..], 0) == [];
      assert !CutInHeader(k, cs[0], cs[1..], Closed(max, |chunks|), 0);
    }
  }

  /** One step of the reader, on what it has yet to see. */
  lemma StepToCome(k: Codec, pending: Bytes, chunks: seq<Bytes>, begun: nat, max: nat, all: nat, n: nat)
    requires max < COUNTS && begun <= Readable(max, |chunks|)
    requires pending == [] ==> begun < |chunks| && all >= SizeBytes(k) && !(0 < max < COUNTS - 1 && begun >= max)
    requires var body := all - if pending == [] then SizeBytes(k) else 0;
             n <= body && n <= |Current(pending, chunks[begun..]).0|
    ensures var (now, later) := Current(pending, chunks[begun..]);
            var begun' := if pending == [] then begun + 1 else begun;
            var body, closed := all - if pending == [] then SizeBytes(k) else 0, Closed(max, |chunks|);
            && begun' <= Readable(max, |chunks|) && later == chunks[begun'..]
            && Seen(k, pending, ToCome(max, chunks, begun), all)
               == now[..n] + Seen(k, now[n..], ToCome(max, chunks, begun'), body - n)
            && CutInHeader(k, pending, ToCome(max, chunks, begun), closed, all)
               == CutInHeader(k, now[n..], ToCome(max, chunks, begun'), closed, body - n)
  {
    hide Seen, CutInHeader, SizeBytes;
    var cs := ToCome(max, chunks, begun);
    if pending == [] {
      assert cs[0] == chunks[begun] == chunks[begun..][0] && cs[1..] == ToCome(max, chunks, begun + 1);
    }
    SeenStep(k, pending, cs, Closed(max, |chunks|), all, n);
  }

  // ---- round trips ----

  /** A wire that hands over regular buffers, however it cuts the bytes. */
  ghost predicate Carries(cut: Bytes -> seq<MultiBuffer>) {
    && (forall wire :: Flat(FlatEach(cut(wire))) == wire)
    && (forall wire, i :: 0 <= i < |cut(wire)| ==> AllRegular(cut(wire)[i]))
  }

  /** A reader at the other end of the wire. */
  method Connect(k: Codec, h: Hidden, arrived: Bytes, cut: Bytes -> seq<MultiBuffer>) returns (r: ChunkStreamReader)
    requires Carries(cut)
    ensures fresh(r) && fresh(r.reader) && r.reader.Regular() && All(r.reader.View()) == arrived
    ensures r.k == k && r.hidden == h && r.leftOver == 0 && r.numChunk == 0 && r.maxNumChunk == 0
  {
    var transport := cut(arrived);
    var source := new BufferedReader(transport);
    r := new ChunkStreamReader(k, h, source, 0);
    assert source.View() == Source([], FlatEach(transport));
    assert Flat(FlatEach(transport)) == arrived;
  }

  /**
   * Any non-empty writes of buffers no longer than a slice, closed by an empty write, sent over a wire that ends
   * after `at` bytes and is cut into regular buffers in any way: the reader gives out exactly the payload before the
   * end, which is the beginning of what was written, and reports an error exactly when the wire ends within a header.
   */
  method TransferCut(k: Codec, h: Hidden, writes: seq<MultiBuffer>, cut: Bytes -> seq<MultiBuffer>, at: nat)
    returns (plain: Bytes, last: ChunkRead, ghost chunks: seq<Bytes>)
    requires Usable(k, h) && (forall i :: 0 <= i < |writes| ==> Small(writes[i]) && !IsEmpty(writes[i])) && Carries(cut)
    ensures Flat(chunks) == Flat(Flat(writes)) && plain <= Flat(Flat(writes))
    ensures var n := Min(at, WireSize(k, chunks) + SizeBytes(k));
            plain == Seen(k, [], chunks, n) && last == if CutInHeader(k, [], chunks, false, n) then Fail else Eof
    ensures at >= WireSize(k, chunks) + SizeBytes(k) ==> plain == Flat(Flat(writes)) && last == Eof
  {
    hide Usable, ChunkWire, Small, IsEmpty, Upcoming, Seen, CutInHeader, WireSize, SizeBytes, Flat, All, Carries, Sized,
      BufferedReader.View, BufferedReader.Regular;
    var wire;
    wire, chunks := WriteAll(k, h, writes);
    WireOf(k, h, wire, chunks);
    var arrived := wire[..Min(at, |wire|)];
    UpcomingPrefix(k, h, wire, arrived, chunks);
    var r := Connect(k, h, arrived, cut);
    plain, last := ReadAll(r, chunks, []);
    assert chunks[..|chunks|] == chunks && [] + Flat(chunks) == Flat(chunks);
    SeenIsPrefix(k, [], chunks, |arrived|);
    if at >= |wire| { SeenAll(k, [], chunks, false, |wire|); }
  }

  lemma WireOf(k: Codec, h: Hidden, wire: Bytes, chunks: seq<Bytes>)
    requires Usable(k, h) && Sized(chunks + [[]]) && wire == ChunkWire(k, h, chunks + [[]])
    ensures |wire| == WireSize(k, chunks) + SizeBytes(k)
  {
    hide Usable, ChunkWire;
    WireSizeIs(k, h, chunks + [[]]);
    WireSizeAppend(k, chunks, [[]]);
    assert WireSize(k, [[]]) == SizeBytes(k) + 0 + WireSize(k, [[]][1..]);
  }

  lemma UpcomingPrefix(k: Codec, h: Hidden, all: Bytes, some: Bytes, chunks: seq<Bytes>)
    requires Upcoming(k, h, 0, all, [], chunks, []) && some <= all
    ensures Upcoming(k, h, 0, some, [], chunks, [])
  {
    hide Usable, ChunkWire;
  }

  /**
   * The round trip. Any non-empty writes of buffers no longer than a slice, closed by an empty
   * write, sent over a wire cut into regular buffers in any way, are read back byte for byte, then EOF.
   */
  method Transfer(k: Codec, h: Hidden, writes: seq<MultiBuffer>, cut: Bytes -> seq<MultiBuffer>)
    returns (plain: Bytes, last: ChunkRead)
    requires Usable(k, h) && (forall i :: 0 <= i < |writes| ==> Small(writes[i]) && !IsEmpty(writes[i])) && Carries(cut)
    ensures plain == Flat(Flat(writes)) && last == Eof
  {
    hide Usable, ChunkWire, Small, IsEmpty, Upcoming, Seen, CutInHeader, WireSize, SizeBytes, Flat, All, Carries, Sized,
      BufferedReader.View, BufferedReader.Regular;
    var wire;
    ghost var chunks;
    wire, chunks := WriteAll(k, h, writes);
    WireOf(k, h, wire, chunks);
    var r := Connect(k, h, wire, cut);
    plain, last := ReadAll(r, chunks, []);
    assert chunks[..|chunks|] == chunks && [] + Flat(chunks) == Flat(chunks);
    SeenAll(k, [], chunks, false, |wire|);
  }
}
