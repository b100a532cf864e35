/** BufferedReader (common/buf/reader.go) over a transport that returns data or EOF, never both. */
module BufferedReaders {
  import opened Basics
  import opened MultiBuffers
  import opened Sources

  function FlatEach(transport: seq<MultiBuffer>): (r: seq<Bytes>)
    ensures |r| == |transport|
  {
    seq(|transport|, i requires 0 <= i < |transport| => Flat(transport[i]))
  }

  /** Taking what is buffered, or refilling from the transport, does not change what ReadFull will return. */
  lemma ReadFullStep(s: Source, got: Bytes, n: nat)
    requires |got| < n && (got != [] ==> s.buffered == []) && (s.buffered != [] || s.rest != [])
    ensures var chunk := if s.buffered != [] then s.buffered else s.rest[0];
            var m := Min(n - |got|, |chunk|);
            var s' := if s.buffered != [] then s.(buffered := chunk[m..]) else Source(chunk[m..], s.rest[1..]);
            Sources.ReadFull(Source(got + s.buffered, s.rest), n)
              == Sources.ReadFull(Source((got + chunk[..m]) + s'.buffered, s'.rest), n)
  {
    var chunk := if s.buffered != [] then s.buffered else s.rest[0];
    var m := Min(n - |got|, |chunk|);
    assert (got + chunk[..m]) + chunk[m..] == got + chunk;
    assert s.buffered == [] ==> got + s.buffered == got;
  }

  lemma Regroup(a: Bytes, b: Bytes, c: Bytes)
    ensures a + (b + c) == (a + b) + c
  {
  }

  lemma {:induction false} SplitBytesRegular(mb: MultiBuffer, n: nat)
    ensures AllRegular(mb) ==> AllRegular(SplitBytes(mb, n).0)
  {
    if mb != [] && |mb[0]| <= n {
      SplitBytesRegular(mb[1..], n - |mb[0]|);
    }
  }

  /** What ReadAtMost returns; OutOfBound is the panic of SplitSize. */
  datatype AtMost = Taken(mb: MultiBuffer) | Drained | OutOfBound

  class BufferedReader {
    var buffer: MultiBuffer
    var transport: seq<MultiBuffer>   // what each further ReadMultiBuffer of the transport returns

    constructor (transport: seq<MultiBuffer>)
      ensures this.transport == transport && buffer == []
    {
      this.buffer, this.transport := [], transport;
    }

    ghost function View(): (s: Source)
      reads this
      ensures |s.rest| == |transport|
    {
      Source(Flat(buffer), FlatEach(transport))
    }

    method BufferedBytes() returns (n: nat)
      ensures n == |View().buffered|
    {
      n := |Flat(buffer)|;
    }

    /** Read into n bytes: None is EOF. */
    method Read(n: nat) returns (r: Option<Bytes>)
      modifies this
      ensures var s := old(View());
        if s.buffered != [] then
          r == Some(s.buffered[..Min(n, |s.buffered|)]) && View() == s.(buffered := s.buffered[Min(n, |s.buffered|)..])
        else if s.rest == [] then r == None && View() == s
        else
          && r == Some(s.rest[0][..Min(n, |s.rest[0]|)])
          && View() == Source(s.rest[0][Min(n, |s.rest[0]|)..], s.rest[1..])
      ensures old(Regular()) ==> Regular()
    {
      EmptyIffNoBytes(buffer);
      if !IsEmpty(buffer) {
        SplitBytesCuts(buffer, n);
        SplitBytesRegular(buffer, n);
        var (rest, taken) := SplitBytes(buffer, n);
        EmptyIffNoBytes(rest);
        buffer := if IsEmpty(rest) then [] else rest;
        return Some(taken);
      }
      if transport == [] {
        return None;
      }
      SplitBytesCuts(transport[0], n);
      SplitBytesRegular(transport[0], n);
      var (rest, taken) := SplitBytes(transport[0], n);
      EmptyIffNoBytes(rest);
      assert FlatEach(transport)[1..] == FlatEach(transport[1..]);
      transport := transport[1..];
      if !IsEmpty(rest) {
        buffer := rest;
      }
      return Some(taken);
    }

    /** io.ReadFull: keep reading until n bytes are there or the transport ends. */
    method ReadFull(n: nat) returns (r: Full)
      modifies this
      ensures (r, View()) == Sources.ReadFull(old(View()), n)
      ensures old(Regular()) ==> Regular()
    {
      hide Flat, FlatEach, View, Regular;
      var got: Bytes := [];
      ghost var s0, s := View(), View();
      assert Source(got + s.buffered, s.rest) == s;
      while |got| < n
        invariant |got| <= n && s == View() && (old(Regular()) ==> Regular())
        invariant got != [] && |got| < n ==> s.buffered == []
        invariant Sources.ReadFull(s0, n) == Sources.ReadFull(Source(got + s.buffered, s.rest), n)
        decreases |s.rest|, n - |got|
      {
        var piece := Read(n - |got|);
        if piece.None? {
          return if |got| == 0 then NoBytes else Short;
        }
        ReadFullStep(s, got, n);
        got := got + piece.value;
        s := View();
      }
      return Whole(got);
    }

    /** What ReadAtMost will split: the buffered list, or the next one of the transport when nothing is buffered. */
    ghost function Front(): MultiBuffer
      reads this
    {
      if !IsEmpty(buffer) then buffer else if transport != [] then transport[0] else []
    }

    /**
     * ReadAtMost: it panics exactly when the first buffer in front exceeds the size asked for and that size
     * exceeds a regular buffer; it ends exactly when nothing is buffered and the transport has ended.
     */
    method ReadAtMost(size: nat) returns (r: AtMost)
      modifies this
      ensures old(Regular()) ==> Regular() && !r.OutOfBound?
      ensures r.OutOfBound? <==> old(Front()) != [] && |old(Front())[0]| > size > SIZE
      ensures r.Drained? <==> old(IsEmpty(buffer)) && old(transport) == []
      ensures r.Taken? ==> Flat(r.mb) + All(View()) == old(All(View())) && |Flat(r.mb)| <= size
      ensures r.Drained? ==> View() == old(View()) && All(View()) == []
      ensures size >= 1 && r.Taken? ==>
        || |Flat(r.mb)| > 0 || |transport| < old(|transport|)
        || (transport == old(transport) && |buffer| < old(|buffer|))
      ensures |transport| <= old(|transport|)
    {
      hide Flat, FlatEach;
      var ended := FillFront();
      if ended {
        return Drained;
      }
      var split := Split(buffer, size);
      if split.None? {
        return OutOfBound;
      }
      Replaced(split.value.0, split.value.1);
      buffer, r := split.value.0, Taken(split.value.1);
    }

    /** The first half of ReadAtMost: something is buffered afterwards, unless the transport has ended. */
    method FillFront() returns (ended: bool)
      modifies this
      ensures ended <==> old(IsEmpty(buffer)) && old(transport) == []
      ensures ended ==> View() == old(View()) && All(View()) == []
      ensures old(Regular()) ==> Regular() && AllRegular(old(Front()))
      ensures All(View()) == old(All(View())) && (!ended ==> buffer == old(Front()))
      ensures ended || |transport| < old(|transport|) || (transport == old(transport) && buffer == old(buffer) != [])
    {
      EmptyIffNoBytes(buffer);
      ended := false;
      if IsEmpty(buffer) {
        if transport == [] {
          return true;
        }
        assert FlatEach(transport)[1..] == FlatEach(transport[1..]);
        buffer, transport := transport[0], transport[1..];
      }
    }

    /** What the buffered list stands for when it is replaced by what a split leaves. */
    lemma Replaced(rest: MultiBuffer, taken: MultiBuffer)
      requires Flat(buffer) == Flat(taken) + Flat(rest)
      ensures Flat(taken) + All(Source(Flat(rest), FlatEach(transport))) == All(View())
    {
      hide Flat, FlatEach;
      Regroup(Flat(taken), Flat(rest), Flat(FlatEach(transport)));
    }

    /** The split at the heart of ReadAtMost, with an emptied leftover dropped; None is the panic. */
    static method Split(mb: MultiBuffer, size: nat) returns (r: Option<(MultiBuffer, MultiBuffer)>)
      ensures r.None? <==> mb != [] && |mb[0]| > size > SIZE
      ensures r.Some? ==>
        var (rest, taken) := r.value;
        && (AllRegular(mb) ==> AllRegular(rest))
        && Flat(mb) == Flat(taken) + Flat(rest) && |Flat(taken)| <= size
        && (size >= 1 && Flat(taken) == [] ==> |rest| < |mb| || rest == mb == [])
    {
      SplitSizeCuts(mb, size);
      var split := SplitSize(mb, size);
      if split.None? {
        return None;
      }
      var (left, off) := split.value;
      EmptyIffNoBytes(left);
      if mb != [] && |mb[0]| > size {
        FlatOne(off[0]);
      }
      return Some((if IsEmpty(left) then [] else left, off));
    }

    /** Every buffer, held or still to come, is a regular one. */
    ghost predicate Regular()
      reads this
    {
      AllRegular(buffer) && forall i :: 0 <= i < |transport| ==> AllRegular(transport[i])
    }
  }
}
