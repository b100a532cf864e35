/** The sniffing reader of the dispatcher (app/dispatcher/default.go) over a pipe (transport/pipe/impl.go). */
module CachedReaders {
  import opened Basics
  import opened MultiBuffers

  // ---- the stream, on values ----

  /**
   * Where the bytes of the stream are: read from the reader, cached, read from the pipe by Cache and not yet
   * merged (Cache reads the pipe before it takes its lock), and still in the pipe. `waiting` counts the reads
   * that found the cache empty and have yet to read the pipe. The elements may be bytes, or bytes marked with
   * their place in the stream.
   */
  datatype Places<T> = Places(delivered: seq<T>, cache: seq<T>, inFlight: seq<T>, data: seq<T>, waiting: nat)

  function Stream<T>(s: Places<T>): seq<T> {
    s.delivered + s.cache + s.inFlight + s.data
  }

  /** The first half of Cache. */
  function Fetch<T>(s: Places<T>): Places<T> {
    s.(inFlight := s.inFlight + s.data, data := [])
  }

  /** The second half of Cache. */
  function Merge<T>(s: Places<T>): Places<T> {
    s.(cache := s.cache + s.inFlight, inFlight := [])
  }

  /** The first half of a read: the cache, if there is anything in it. */
  function Look<T(==)>(s: Places<T>): Places<T> {
    if s.cache != [] then s.(delivered := s.delivered + s.cache, cache := [])
    else s.(waiting := s.waiting + 1)
  }

  /** The second half of a read that found the cache empty: whatever the pipe holds by then. */
  function Pull<T>(s: Places<T>): Places<T> {
    if s.waiting == 0 then s else s.(delivered := s.delivered + s.data, data := [], waiting := s.waiting - 1)
  }

  /** A pipe read now would overtake nothing. */
  predicate Orderly<T(==)>(s: Places<T>) {
    s.waiting == 0 || s.data == [] || (s.cache == [] && s.inFlight == [])
  }

  /**
   * Both halves of Cache and the first half of a read keep the stream in order. The second half of a read
   * does when the pipe is empty, or nothing is cached and nothing in flight; with every byte marked by its
   * place, exactly then.
   */
  lemma OverlappingReadExactly<T>(s: Places<T>)
    ensures Stream(Fetch(s)) == Stream(s) && Stream(Merge(s)) == Stream(s) && Stream(Look(s)) == Stream(s)
    ensures Orderly(s) ==> Stream(Pull(s)) == Stream(s)
    ensures NoDup(Stream(s)) ==> (Stream(Pull(s)) == Stream(s) <==> Orderly(s))
  {
    hide NoDup;
    InPlace(s);
    if !Orderly(s) {
      Overtakes(s);
    } else {
      PullsInOrder(s);
    }
  }

  lemma InPlace<T>(s: Places<T>)
    ensures Stream(Fetch(s)) == Stream(s) && Stream(Merge(s)) == Stream(s) && Stream(Look(s)) == Stream(s)
  {
    assert s.delivered + s.cache + (s.inFlight + s.data) + [] == Stream(s);
    assert s.delivered + (s.cache + s.inFlight) + [] + s.data == Stream(s);
    assert (s.delivered + s.cache) + [] + s.inFlight + s.data == Stream(s);
  }

  lemma PullsInOrder<T>(s: Places<T>)
    requires Orderly(s)
    ensures Stream(Pull(s)) == Stream(s)
  {
    if s.data == [] {
      assert s.delivered + [] == s.delivered;
    } else if s.waiting > 0 {
      assert (s.delivered + s.data) + [] + [] + [] == s.delivered + [] + [] + s.data;
    }
  }

  /** A pipe read that overtakes something delivers a byte where another belongs. */
  lemma Overtakes<T>(s: Places<T>)
    requires !Orderly(s)
    ensures NoDup(Stream(s)) ==> !(Pull(s).delivered <= Stream(s)) && Stream(Pull(s)) != Stream(s)
  {
    var n, ahead := |s.delivered|, s.cache + s.inFlight;
    assert Stream(s) == s.delivered + ahead + s.data;
    assert Stream(s)[n] == ahead[0] && Stream(s)[n + |ahead|] == s.data[0];
    assert Pull(s).delivered[n] == s.data[0] && Stream(Pull(s))[n] == s.data[0];
  }

  // ---- schedules ----

  /** The locked regions of Cache and of reads, and writes to the pipe, in the order they happen. */
  datatype Step<T> = Write(xs: seq<T>) | FetchStep | MergeStep | LookStep | PullStep

  function Next<T(==)>(s: Places<T>, e: Step<T>): Places<T> {
    match e
    case Write(xs) => s.(data := s.data + xs)
    case FetchStep => Fetch(s)
    case MergeStep => Merge(s)
    case LookStep => Look(s)
    case PullStep => Pull(s)
  }

  function After<T(==)>(steps: seq<Step<T>>): Places<T>
    decreases |steps|
  {
    if steps == [] then Places([], [], [], [], 0) else Next(After(steps[..|steps| - 1]), steps[|steps| - 1])
  }

  function Written<T>(steps: seq<Step<T>>): seq<T>
    decreases |steps|
  {
    if steps == [] then []
    else
      var e := steps[|steps| - 1];
      Written(steps[..|steps| - 1]) + if e.Write? then e.xs else []
  }

  /** No pipe read of the schedule overtakes anything. */
  predicate AllOrderly<T(==)>(steps: seq<Step<T>>) {
    forall i :: 0 <= i < |steps| && steps[i].PullStep? ==> Orderly(After(steps[..i]))
  }

  /**
   * Over every schedule: as long as no pipe read overtakes anything, what is delivered, cached, in flight and in
   * the pipe is the stream as written. With every byte marked by its place, what has been delivered is the
   * beginning of the stream exactly as long as that holds: an overtaken byte is never made good.
   */
  lemma {:induction false} ScheduleExact<T>(steps: seq<Step<T>>)
    ensures |Stream(After(steps))| == |Written(steps)|
    ensures AllOrderly(steps) ==> Stream(After(steps)) == Written(steps) && After(steps).delivered <= Written(steps)
    ensures NoDup(Written(steps)) ==> (After(steps).delivered <= Written(steps) <==> AllOrderly(steps))
    decreases |steps|
  {
    hide Stream, Next, NoDup, AllOrderly, Orderly;
    if steps == [] {
      NothingHappened<T>();
    } else {
      var init, e := steps[..|steps| - 1], steps[|steps| - 1];
      ScheduleExact(init);
      OrderlySoFar(init, e);
      assert steps == init + [e];
      ScheduleStep(After(init), e, Written(init), if e.Write? then e.xs else [], AllOrderly(init));
    }
  }

  lemma NothingHappened<T>()
    ensures Stream<T>(Places([], [], [], [], 0)) == [] && AllOrderly<T>([])
  {
  }

  /** One step of a schedule. */
  lemma ScheduleStep<T>(s: Places<T>, e: Step<T>, written: seq<T>, more: seq<T>, orderly: bool)
    requires more == (if e.Write? then e.xs else []) && |Stream(s)| == |written|
    requires orderly ==> Stream(s) == written
    requires NoDup(written) ==> (s.delivered <= written <==> orderly)
    ensures var s', w, still := Next(s, e), written + more, orderly && (e.PullStep? ==> Orderly(s));
            && |Stream(s')| == |w| && (still ==> Stream(s') == w && s'.delivered <= w)
            && (NoDup(w) ==> (s'.delivered <= w <==> still))
  {
    hide Stream, Next, NoDup, Orderly;
    StepStream(s, e);
    DeliveredFirst(Next(s, e));
    if NoDup(written + more) {
      NoDupPrefix(written, more);
      if !orderly {
        StaysBroken(s, e, written, more);
      } else if e.PullStep? && !Orderly(s) {
        OvertakesNext(s, e);
        assert written + [] == written;
      }
    }
  }

  lemma DeliveredFirst<T>(s: Places<T>)
    ensures s.delivered <= Stream(s)
  {
    assert Stream(s) == s.delivered + (s.cache + s.inFlight + s.data);
  }

  lemma OvertakesNext<T>(s: Places<T>, e: Step<T>)
    requires !Orderly(s) && e.PullStep? && NoDup(Stream(s))
    ensures !(Next(s, e).delivered <= Stream(s))
  {
    hide Stream, NoDup;
    Overtakes(s);
  }

  lemma OrderlySoFar<T>(init: seq<Step<T>>, e: Step<T>)
    ensures AllOrderly(init + [e]) <==> AllOrderly(init) && (e.PullStep? ==> Orderly(After(init)))
  {
    var steps := init + [e];
    assert forall i :: 0 <= i <= |init| ==> steps[..i] == init[..i];
    assert init[..|init|] == init && steps[|init|] == e;
    assert forall i :: 0 <= i < |init| ==> steps[i] == init[i];
  }

  /** One step: nothing is made up or lost, and only a pipe read can disturb the order. */
  lemma StepStream<T>(s: Places<T>, e: Step<T>)
    ensures |Stream(Next(s, e))| == |Stream(s)| + if e.Write? then |e.xs| else 0
    ensures (e.PullStep? ==> Orderly(s)) ==> Stream(Next(s, e)) == Stream(s) + if e.Write? then e.xs else []
    ensures s.delivered <= Next(s, e).delivered && |s.delivered| <= |Stream(s)|
  {
    hide NoDup;
    OverlappingReadExactly(s);
    if e.Write? {
      assert s.delivered + s.cache + s.inFlight + (s.data + e.xs) == Stream(s) + e.xs;
    }
  }

  lemma NoDupPrefix<T>(a: seq<T>, b: seq<T>)
    requires NoDup(a + b)
    ensures NoDup(a)
  {
    assert forall i :: 0 <= i < |a| ==> (a + b)[i] == a[i];
  }

  lemma StaysBroken<T>(s: Places<T>, e: Step<T>, written: seq<T>, more: seq<T>)
    requires !(s.delivered <= written) && |s.delivered| <= |written|
    ensures !(Next(s, e).delivered <= written + more)
  {
    StepStream(s, e);
  }

  /**
   * Two schedules that deliver y before x: a read between the halves of Cache, and a Cache call between those
   * of a read.
   */
  lemma OverlappingReadsReorder<T>(x: T, y: T)
    requires x != y
    ensures var between := [Write([x]), FetchStep, Write([y]), LookStep, PullStep, MergeStep, LookStep];
            Written(between) == [x, y] && After(between).delivered == [y, x]
    ensures var around := [Write([x]), LookStep, FetchStep, MergeStep, Write([y]), PullStep, LookStep];
            Written(around) == [x, y] && After(around).delivered == [y, x]
  {
    BetweenHalves(x, y);
    AroundCache(x, y);
  }

  lemma Unfold<T>(init: seq<Step<T>>, e: Step<T>)
    ensures After(init + [e]) == Next(After(init), e)
    ensures Written(init + [e]) == Written(init) + if e.Write? then e.xs else []
  {
    assert (init + [e])[..|init|] == init;
  }

  lemma BetweenHalves<T>(x: T, y: T)
    ensures var steps := [Write([x]), FetchStep, Write([y]), LookStep, PullStep, MergeStep, LookStep];
            Written(steps) == [x, y] && After(steps).delivered == [y, x]
  {
    hide After, Written;
    StartsEmpty<T>();
    var a := [Write([x])];
    Unfold([], Write([x]));
    assert [] + a == a;
    Unfold(a, FetchStep);
    Unfold(a + [FetchStep], Write([y]));
    var b := a + [FetchStep] + [Write([y])];
    assert After(b) == Places([], [], [x], [y], 0);
    Unfold(b, LookStep);
    Unfold(b + [LookStep], PullStep);
    var c := b + [LookStep] + [PullStep];
    assert After(c) == Places([y], [], [x], [], 0);
    Unfold(c, MergeStep);
    Unfold(c + [MergeStep], LookStep);
    assert c + [MergeStep] + [LookStep] == [Write([x]), FetchStep, Write([y]), LookStep, PullStep, MergeStep, LookStep];
  }

  lemma AroundCache<T>(x: T, y: T)
    ensures var steps := [Write([x]), LookStep, FetchStep, MergeStep, Write([y]), PullStep, LookStep];
            Written(steps) == [x, y] && After(steps).delivered == [y, x]
  {
    hide After, Written;
    StartsEmpty<T>();
    var a := [Write([x])];
    Unfold([], Write([x]));
    assert [] + a == a;
    Unfold(a, LookStep);
    Unfold(a + [LookStep], FetchStep);
    var b := a + [LookStep] + [FetchStep];
    assert After(b) == Places([], [], [x], [], 1);
    Unfold(b, MergeStep);
    Unfold(b + [MergeStep], Write([y]));
    var c := b + [MergeStep] + [Write([y])];
    assert After(c) == Places([], [x], [], [y], 1);
    Unfold(c, PullStep);
    Unfold(c + [PullStep], LookStep);
    assert c + [PullStep] + [LookStep] == [Write([x]), LookStep, FetchStep, MergeStep, Write([y]), PullStep, LookStep];
  }

  lemma StartsEmpty<T>()
    ensures After<T>([]) == Places([], [], [], [], 0) && Written<T>([]) == []
  {
  }

  // ---- the reader ----

  lemma NoContent()
    ensures Flat<Byte>([]) == []
  {
  }

  class CachedReader {
    var cache: MultiBuffer
    var data: MultiBuffer               // what the pipe holds
    var inFlight: MultiBuffer           // what a Cache call has read and not yet merged
    ghost var waiting: nat              // reads that found the cache empty and have yet to read the pipe
    ghost var written: Bytes            // everything written to the pipe
    ghost var delivered: Bytes          // everything read from this reader

    constructor ()
      ensures Valid() && View() == Places([], [], [], [], 0) && written == []
    {
      cache, data, inFlight, waiting, written, delivered := [], [], [], 0, [], [];
      new;
      assert Flat<Byte>([]) == [];
    }

    ghost function View(): Places<Byte>
      reads this
    {
      Places(delivered, Flat(cache), Flat(inFlight), Flat(data), waiting)
    }

    /** Delivered, then cached, then in flight, then still in the pipe, is the stream as written. */
    ghost predicate Valid()
      reads this
    {
      Stream(View()) == written
    }

    /** The other end writes to the pipe. */
    method PipeWrite(mb: MultiBuffer)
      requires Valid()
      modifies this
      ensures Valid() && written == old(written) + Flat(mb)
      ensures View() == old(View()).(data := old(View()).data + Flat(mb))
    {
      FlatAppend(data, mb);
      data := data + mb;
      written := written + Flat(mb);
    }

    /** The pipe hands over all it holds; None is a timeout or its end. */
    method PipeRead() returns (r: Option<MultiBuffer>)
      modifies this`data
      ensures r.None? <==> old(data) == []
      ensures r.Some? ==> r.value == old(data)
      ensures data == []
    {
      if data == [] {
        return None;
      }
      r := Some(data);
      data := [];
    }

    /** Cache up to its lock: takes what the pipe has. */
    method CacheFetch() returns (ok: bool)
      requires Valid() && inFlight == []
      modifies this`data, this`inFlight
      ensures Valid() && (ok <==> old(data) != []) && (!ok ==> inFlight == [] && data == old(data))
      ensures ok ==> View() == Fetch(old(View()))
    {
      hide Flat;
      NoContent();
      OverlappingReadExactly(View());
      var mb := PipeRead();
      ok := mb.Some?;
      if ok {
        inFlight := mb.value;
        assert [] + Flat(mb.value) == Flat(mb.value);
      }
    }

    /** Cache under its lock: merges what it took, and shows as much of the cache as a buffer of `cap` bytes holds. */
    method CacheMerge(cap: nat) returns (payload: Bytes)
      requires Valid()
      modifies this`cache, this`inFlight
      ensures Valid() && inFlight == [] && View() == Merge(old(View()))
      ensures payload == Flat(cache)[..Min(cap, |Flat(cache)|)]
    {
      EmptyIffNoBytes(inFlight);
      if !IsEmpty(inFlight) {
        cache := MergeMulti(cache, inFlight).0;
      }
      inFlight := [];
      assert Flat<Byte>([]) == [];
      OverlappingReadExactly(old(View()));
      payload := CopyPrefix(cache, cap);
    }

    /**
     * Cache, while nothing reads: the pipe's content joins the cache, of which the longest prefix that fits is
     * shown.
     */
    method Cache(cap: nat) returns (r: Option<Bytes>)
      requires Valid() && inFlight == []
      modifies this
      ensures Valid() && inFlight == [] && written == old(written) && delivered == old(delivered)
      ensures waiting == old(waiting) && (r.None? <==> old(data) == [])
      ensures r.None? ==> cache == old(cache) && data == old(data)
      ensures r.Some? ==>
        && Flat(cache) == old(Flat(cache)) + old(Flat(data)) && Flat(data) == []
        && r.value == Flat(cache)[..Min(cap, |Flat(cache)|)]
    {
      assert Flat<Byte>([]) == [];
      var ok := CacheFetch();
      if !ok {
        return None;
      }
      var payload := CacheMerge(cap);
      return Some(payload);
    }

    /** MultiBuffer.Copy, on values. */
    static method CopyPrefix(mb: MultiBuffer, cap: nat) returns (b: Bytes)
      ensures b == Flat(mb)[..Min(cap, |Flat(mb)|)]
    {
      hide Flat;
      b := [];
      var i := 0;
      FlatSplit(mb, 0);
      assert mb[0..] == mb;
      while i < |mb|
        invariant 0 <= i <= |mb| && b == Flat(mb[..i]) && |b| <= cap
      {
        FlatNext(mb, i);
        FlatSplit(mb, i + 1);
        var n := Min(cap - |b|, |mb[i]|);
        b := b + mb[i][..n];
        if n < |mb[i]| {
          return;
        }
        i := i + 1;
      }
      assert mb[..i] == mb;
    }

    /** readInternal, under the reader's lock: the whole cache, or None when it is empty. */
    method ReadInternal() returns (r: Option<MultiBuffer>)
      requires Valid()
      modifies this`cache, this`delivered, this`waiting
      ensures Valid() && View() == Look(old(View())) && (r.None? <==> old(Flat(cache)) == [])
      ensures r.Some? ==> r.value == old(cache)
      ensures delivered == old(delivered) + (if r.Some? then Flat(r.value) else [])
    {
      hide Flat;
      EmptyIffNoBytes(cache);
      NoContent();
      OverlappingReadExactly(View());
      if !IsEmpty(cache) {
        r := Some(cache);
        delivered := delivered + Flat(cache);
        cache := [];
        return;
      }
      waiting := waiting + 1;
      return None;
    }

    /**
     * What a read that found the cache empty does next, under the pipe's lock. The order is kept if nothing is
     * overtaken.
     */
    method ReadPipe() returns (r: Option<MultiBuffer>)
      requires Valid() && waiting > 0
      modifies this`data, this`delivered, this`waiting
      ensures View() == Pull(old(View())) && (Orderly(old(View())) ==> Valid())
      ensures delivered == old(delivered) + (if r.Some? then Flat(r.value) else [])
      ensures data == [] && (r.None? <==> old(data) == [])
    {
      OverlappingReadExactly(View());
      assert Flat<Byte>([]) == [];
      r := PipeRead();
      waiting := waiting - 1;
      if r.Some? {
        delivered := delivered + Flat(r.value);
      }
    }

    /** ReadMultiBuffer, while no Cache call is under way: the cache before the pipe, and nothing lost or reordered. */
    method ReadMultiBuffer() returns (r: Option<MultiBuffer>)
      requires Valid() && inFlight == []
      modifies this`cache, this`data, this`delivered, this`waiting
      ensures Valid() && waiting == old(waiting)
      ensures delivered == old(delivered) + (if r.Some? then Flat(r.value) else [])
      ensures r.None? ==> Flat(cache) == [] && data == []
      ensures old(Flat(cache)) != [] ==> r.Some? && Flat(r.value) == old(Flat(cache)) && data == old(data)
    {
      assert Flat<Byte>([]) == [];
      r := ReadInternal();
      if r.None? {
        r := ReadPipe();
      }
    }
  }
}
