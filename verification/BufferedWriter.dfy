/** BufferedWriter (common/buf/writer.go): nothing accepted is lost, repeated or reordered. */
module BufferedWriters {
  import opened Basics
  import opened MultiBuffers

  /** One write to the underlying writer: what it was given, how much of it it took, whether it reported no error. */
  datatype Attempt = Attempt(bytes: Bytes, taken: nat, ok: bool)

  predicate Proper(a: Attempt) {
    a.taken <= |a.bytes| && (a.ok ==> a.taken == |a.bytes|)
  }

  /** Everything handed downstream, in order. */
  function Attempted(attempts: seq<Attempt>): Bytes
    decreases |attempts|
  {
    if attempts == [] then [] else Attempted(attempts[..|attempts| - 1]) + attempts[|attempts| - 1].bytes
  }

  /** Everything taken downstream, in order: all of a successful write, a prefix of a failed one. */
  function TakenOf(attempts: seq<Attempt>): Bytes
    requires forall i :: 0 <= i < |attempts| ==> Proper(attempts[i])
    decreases |attempts|
  {
    if attempts == [] then []
    else
      var a := attempts[|attempts| - 1];
      assert Proper(a);
      TakenOf(attempts[..|attempts| - 1]) + a.bytes[..a.taken]
  }

  predicate NoFailure(attempts: seq<Attempt>) {
    forall i :: 0 <= i < |attempts| ==> attempts[i].ok
  }

  /** Without a failure everything handed downstream is taken. */
  lemma {:induction false} AllTaken(attempts: seq<Attempt>)
    requires (forall i :: 0 <= i < |attempts| ==> Proper(attempts[i])) && NoFailure(attempts)
    ensures TakenOf(attempts) == Attempted(attempts)
    decreases |attempts|
  {
    if attempts != [] {
      AllTaken(attempts[..|attempts| - 1]);
      var a := attempts[|attempts| - 1];
      assert a.bytes[..a.taken] == a.bytes;
    }
  }

  /** The downstream writes of one call: some that succeeded, and after them at most one, the failed one. */
  predicate Extends(was: seq<Attempt>, now: seq<Attempt>, ok: bool) {
    && was <= now && (!ok ==> was < now)
    && (forall i :: |was| <= i < |now| ==> (now[i].ok <==> ok || i < |now| - 1))
  }

  lemma ExtendsOn(a: seq<Attempt>, b: seq<Attempt>, c: seq<Attempt>, ok: bool)
    requires Extends(a, b, true) && Extends(b, c, ok)
    ensures Extends(a, c, ok)
  {
    forall i | |a| <= i < |c| ensures c[i].ok <==> ok || i < |c| - 1 {
      if i < |b| { assert b[i] == c[i]; }
    }
  }

  /** Each of the further downstream writes is of a full buffer. */
  predicate FullWrites(was: seq<Attempt>, now: seq<Attempt>) {
    forall i :: |was| <= i < |now| ==> |now[i].bytes| == 2048
  }

  lemma FullOn(a: seq<Attempt>, b: seq<Attempt>, c: seq<Attempt>)
    requires FullWrites(a, b) && FullWrites(b, c) && b <= c
    ensures FullWrites(a, c)
  {
    assert forall i :: |a| <= i < |b| ==> c[i] == b[i];
  }

  lemma Unchanged(attempts: seq<Attempt>)
    ensures Extends(attempts, attempts, true) && FullWrites(attempts, attempts)
  {
  }

  lemma StillGood(was: seq<Attempt>, now: seq<Attempt>)
    requires Extends(was, now, true) && NoFailure(was)
    ensures NoFailure(now)
  {
  }

  class BufferedWriter {
    const bytesWriter: bool             // whether the underlying writer is also an io.Writer
    const fails: nat -> Option<nat>     // how the i-th downstream write ends: None well, Some(n) badly after n bytes
    var buffer: Option<Bytes>           // None is a nil buffer
    var buffered: bool
    var delivered: Bytes                // what the downstream writer took
    ghost var attempts: seq<Attempt>    // all downstream writes
    var writes: nat                     // their number
    ghost var accepted: Bytes           // all bytes accepted so far

    ghost function Held(): Bytes
      reads this
    {
      if buffer.Some? then buffer.value else []
    }

    /**
     * What was handed downstream, then what is held, are all accepted bytes in order, also after failures; the
     * buffer is never left full, and is empty when buffering is off.
     */
    ghost predicate Valid()
      reads this
    {
      && |Held()| < SIZE && (!buffered ==> Held() == [])
      && Logged() && Attempted(attempts) + Held() == accepted
    }

    /** The downstream writer took what the log of its writes says. */
    ghost predicate Logged()
      reads this`attempts, this`writes, this`delivered
    {
      && |attempts| == writes && (forall i :: 0 <= i < |attempts| ==> Proper(attempts[i]))
      && (forall i :: 0 <= i < |attempts| ==> (attempts[i].ok <==> fails(i).None?))
      && delivered == TakenOf(attempts)
    }

    constructor (bytesWriter: bool, fails: nat -> Option<nat>)
      ensures Valid() && buffered && attempts == [] && accepted == [] && delivered == []
      ensures this.bytesWriter == bytesWriter && this.fails == fails
    {
      this.bytesWriter, this.fails := bytesWriter, fails;
      buffer, buffered, writes, delivered, attempts, accepted := Some([]), true, 0, [], [], [];
    }

    /** One write to the underlying writer. */
    method Deliver(b: Bytes) returns (n: nat, ok: bool)
      requires Logged()
      modifies this`writes, this`delivered, this`attempts
      ensures Logged() && attempts == old(attempts) + [Attempt(b, n, ok)] && (ok ==> n == |b|)
      ensures Attempted(attempts) == old(Attempted(attempts)) + b
    {
      ok := fails(writes).None?;
      n := if ok then |b| else Min(fails(writes).value, |b|);
      writes := writes + 1;
      delivered := delivered + b[..n];
      attempts := attempts + [Attempt(b, n, ok)];
      assert attempts[..|attempts| - 1] == old(attempts);
    }

    /** flushInternal: hands over the buffer, which is dropped even when the write fails. */
    method FlushInternal() returns (ok: bool)
      requires Logged()
      modifies this`buffer, this`writes, this`delivered, this`attempts
      ensures Logged() && Held() == [] && Attempted(attempts) == old(Attempted(attempts)) + old(Held())
      ensures old(Held()) == [] ==> ok && attempts == old(attempts)
      ensures old(Held()) != [] ==>
        exists n :: attempts == old(attempts) + [Attempt(old(Held()), n, ok)]
    {
      if buffer.None? || buffer.value == [] {
        return true;
      }
      var b := buffer.value;
      buffer := None;
      var n;
      n, ok := Deliver(b);
    }

    /**
     * Write: through the buffer, flushing whenever it is full or buffering is off; straight through when both ends
     * allow. `m` bytes are accepted: all of them unless a flush fails, and then those moved into the buffer so far,
     * which is also the count reported although the last of them are dropped.
     */
    method Write(b: Bytes) returns (n: nat, ok: bool, ghost m: nat)
      requires Valid()
      modifies this
      ensures Valid() && buffered == old(buffered) && Extends(old(attempts), attempts, ok)
      ensures m <= |b| && accepted == old(accepted) + b[..m]
      ensures buffered ==> FullWrites(old(attempts), attempts)
      ensures ok ==> n == m == |b|
      ensures !ok ==> Held() == []
      ensures !ok && (buffered || !bytesWriter) ==> n == m
      ensures !ok && !buffered && bytesWriter ==> m == |b| && n == attempts[|attempts| - 1].taken
    {
      hide Extends, Valid, FullWrites;
      Unchanged(attempts);
      if |b| == 0 {
        return 0, true, 0;
      }
      if !buffered && bytesWriter {
        n, ok := WriteThrough(b);
        assert b[..|b|] == b;
        return n, ok, |b|;
      }
      n, ok, m := 0, true, 0;
      var left := b;
      while |left| > 0
        invariant n == m <= |b| && left == b[m..] && ok && accepted == old(accepted) + b[..m]
        invariant Valid() && buffered == old(buffered) && Extends(old(attempts), attempts, true)
        invariant buffered ==> FullWrites(old(attempts), attempts)
        decreases |left|
      {
        ghost var was := attempts;
        var k;
        k, ok := WriteOnce(left);
        ExtendsOn(old(attempts), was, attempts, ok);
        if buffered { FullOn(old(attempts), was, attempts); }
        assert b[..m] + left[..k] == b[..m + k];
        n, m := n + k, m + k;
        if !ok {
          return;
        }
        left := left[k..];
      }
    }

    /** Straight to the underlying writer. */
    method WriteThrough(b: Bytes) returns (n: nat, ok: bool)
      requires Valid() && !buffered
      modifies this
      ensures Valid() && buffered == old(buffered) && Extends(old(attempts), attempts, ok)
      ensures accepted == old(accepted) + b && Held() == [] && (ok ==> n == |b|)
      ensures attempts != [] && n == attempts[|attempts| - 1].taken
    {
      hide Logged, Attempted;
      accepted := accepted + b;
      n, ok := Deliver(b);
      assert Attempted(attempts) + [] == Attempted(attempts)
          && old(Attempted(attempts)) + [] == old(Attempted(attempts));
    }

    /** One turn of Write's loop: fill the buffer and flush it if it must be. */
    method WriteOnce(left: Bytes) returns (k: nat, ok: bool)
      requires Valid() && left != []
      modifies this
      ensures 1 <= k <= |left| && accepted == old(accepted) + left[..k]
      ensures Valid() && buffered == old(buffered) && Extends(old(attempts), attempts, ok) && (!ok ==> Held() == [])
      ensures old(attempts) <= attempts && (buffered ==> FullWrites(old(attempts), attempts))
    {
      hide Logged, Attempted;
      if buffer.None? {
        buffer := Some([]);
      }
      k := Min(SIZE - |buffer.value|, |left|);
      Shift(Attempted(attempts), buffer.value, accepted, left[..k]);
      buffer := Some(buffer.value + left[..k]);
      accepted := accepted + left[..k];
      ok := true;
      assert Logged();
      if !buffered || |buffer.value| == SIZE {
        ok := FlushInternal();
        assert Attempted(attempts) + [] == Attempted(attempts);
      }
    }

    /** WriteMultiBuffer: as Write, from a list of buffers. */
    method WriteMultiBuffer(mb: MultiBuffer) returns (ok: bool, ghost m: nat)
      requires Valid()
      modifies this
      ensures Valid() && buffered == old(buffered) && Extends(old(attempts), attempts, ok)
      ensures m <= |Flat(mb)| && accepted == old(accepted) + Flat(mb)[..m]
      ensures buffered ==> FullWrites(old(attempts), attempts)
      ensures ok ==> m == |Flat(mb)|
      ensures !ok ==> Held() == []
    {
      hide Flat, MultiBuffers.SplitBytes, IsEmpty, Extends, Valid, FullWrites;
      EmptyIffNoBytes(mb);
      Unchanged(attempts);
      if IsEmpty(mb) {
        return true, 0;
      }
      ghost var all := Flat(mb);
      if !buffered {
        var n;
        n, ok := WriteThrough(Flat(mb));
        assert all[..|all|] == all;
        return ok, |all|;
      }
      var left := mb;
      ok, m := true, 0;
      while !IsEmpty(left)
        invariant m <= |all| && Flat(left) == all[m..] && ok && accepted == old(accepted) + all[..m]
        invariant Valid() && buffered && buffered == old(buffered) && Extends(old(attempts), attempts, true)
        invariant FullWrites(old(attempts), attempts)
        decreases |Flat(left)|
      {
        EmptyIffNoBytes(left);
        ghost var was, k := attempts, 0;
        left, ok, k := FillOnce(left);
        ExtendsOn(old(attempts), was, attempts, ok);
        FullOn(old(attempts), was, attempts);
        assert all[..m] + all[m..][..k] == all[..m + k];
        m := m + k;
        if !ok {
          return;
        }
      }
      EmptyIffNoBytes(left);
    }

    /** One turn of its loop: the buffer reads from the list, and is flushed when it is full. */
    method FillOnce(left: MultiBuffer) returns (rest: MultiBuffer, ok: bool, ghost k: nat)
      requires Valid() && buffered && Flat(left) != []
      modifies this
      ensures 1 <= k <= |Flat(left)| && Flat(rest) == Flat(left)[k..] && accepted == old(accepted) + Flat(left)[..k]
      ensures Valid() && buffered && Extends(old(attempts), attempts, ok) && (!ok ==> Held() == [])
      ensures old(attempts) <= attempts && FullWrites(old(attempts), attempts)
    {
      hide Flat, MultiBuffers.SplitBytes, Logged, Attempted;
      if buffer.None? {
        buffer := Some([]);
      }
      var room := SIZE - |buffer.value|;
      SplitBytesCuts(left, room);
      var (remaining, taken) := SplitBytes(left, room);
      rest, k := remaining, |taken|;
      assert Flat(left)[..k] == taken && Flat(left)[k..] == Flat(rest);
      Shift(Attempted(attempts), buffer.value, accepted, taken);
      buffer := Some(buffer.value + taken);
      accepted := accepted + taken;
      ok := true;
      assert Logged();
      if |buffer.value| == SIZE {
        ok := FlushInternal();
        assert Attempted(attempts) + [] == Attempted(attempts);
      }
    }

    method Flush() returns (ok: bool)
      requires Valid()
      modifies this
      ensures Valid() && buffered == old(buffered) && accepted == old(accepted) && Extends(old(attempts), attempts, ok)
      ensures Held() == [] && Attempted(attempts) == accepted
      ensures NoFailure(attempts) ==> delivered == accepted
    {
      hide Logged, Attempted, NoFailure;
      ok := FlushInternal();
      if NoFailure(attempts) { AllDelivered(); }
      assert Attempted(attempts) + [] == Attempted(attempts);
    }

    lemma AllDelivered()
      requires Logged() && NoFailure(attempts)
      ensures delivered == Attempted(attempts)
    {
      AllTaken(attempts);
    }

    /** SetBuffered: switching buffering off flushes first. */
    method SetBuffered(f: bool) returns (ok: bool)
      requires Valid()
      modifies this
      ensures Valid() && buffered == f && accepted == old(accepted) && Extends(old(attempts), attempts, ok)
      ensures !f && NoFailure(attempts) ==> delivered == accepted
    {
      hide Logged, Attempted, NoFailure;
      buffered := f;
      ok := true;
      if !f {
        ok := FlushInternal();
        if NoFailure(attempts) { AllDelivered(); }
        assert Attempted(attempts) + [] == Attempted(attempts);
      }
    }
  }

  /** Bytes moved into the buffer extend both sides of the balance alike. */
  lemma Shift(attempted: Bytes, held: Bytes, accepted: Bytes, more: Bytes)
    requires attempted + held == accepted
    ensures attempted + (held + more) == accepted + more
  {
  }

  datatype Op = WriteBytes(b: Bytes) | WriteBuffers(mb: MultiBuffer) | Flushing | Buffering(on: bool)

  /** The bytes a run of operations accepts, in order. */
  function AcceptedBy(ops: seq<Op>): Bytes
    decreases |ops|
  {
    if ops == [] then []
    else
      AcceptedBy(ops[..|ops| - 1]) + Brings(ops[|ops| - 1])
  }

  /**
   * Conservation over whole runs, for any downstream writer: unless some operation reports an error, after any
   * operations followed by a Flush the downstream writer has received exactly the accepted bytes, in order. No
   * operation reports an error of its own: there is one only if some downstream write fails.
   */
  method Run(bytesWriter: bool, fails: nat -> Option<nat>, ops: seq<Op>) returns (delivered: Bytes, good: bool)
    ensures good ==> delivered == AcceptedBy(ops)
    ensures (forall i: nat :: fails(i).None?) ==> good
  {
    hide Flat, BufferedWriter.Valid, BufferedWriter.Held, Attempted, Extends, NoFailure;
    var w := new BufferedWriter(bytesWriter, fails);
    var i := 0;
    good := true;
    assert NoFailure(w.attempts) by { NoneFailed(); }
    while i < |ops|
      invariant 0 <= i <= |ops| && w.Valid() && w.fails == fails
      invariant good ==> w.accepted == AcceptedBy(ops[..i]) && NoFailure(w.attempts)
      invariant (forall i: nat :: fails(i).None?) ==> good
    {
      assert ops[..i + 1][..i] == ops[..i];
      ghost var was := w.attempts;
      var ok := Perform(w, ops[i]);
      FailureShows(w, was, ok);
      if good && ok { StillGood(was, w.attempts); }
      good := good && ok;
      i := i + 1;
    }
    assert ops[..i] == ops;
    ghost var was := w.attempts;
    var ok := w.Flush();
    FailureShows(w, was, ok);
    if good && ok { StillGood(was, w.attempts); }
    good := good && ok;
    delivered := w.delivered;
  }

  /** An operation reports an error only when a downstream write has failed. */
  lemma FailureShows(w: BufferedWriter, was: seq<Attempt>, ok: bool)
    requires w.Valid() && Extends(was, w.attempts, ok)
    ensures !ok ==> exists i: nat :: w.fails(i).Some?
  {
    if !ok {
      var n := |w.attempts| - 1;
      assert !w.attempts[n].ok;
      assert w.fails(n).Some?;
    }
  }

  lemma NoneFailed()
    ensures NoFailure([])
  {
  }

  function Brings(op: Op): Bytes {
    match op
    case WriteBytes(b) => b
    case WriteBuffers(mb) => Flat(mb)
    case _ => []
  }

  method Perform(w: BufferedWriter, op: Op) returns (ok: bool)
    requires w.Valid()
    modifies w
    ensures w.Valid() && Extends(old(w.attempts), w.attempts, ok)
    ensures ok ==> w.accepted == old(w.accepted) + Brings(op)
  {
    hide Flat, BufferedWriter.Valid, BufferedWriter.Held;
    ghost var m;
    match op {
      case WriteBytes(b) =>
        var n;
        n, ok, m := w.Write(b);
        assert ok ==> b[..m] == b;
      case WriteBuffers(mb) =>
        ok, m := w.WriteMultiBuffer(mb);
        assert ok ==> Flat(mb)[..m] == Flat(mb);
      case Flushing => ok := w.Flush();
      case Buffering(on) => ok := w.SetBuffered(on);
    }
  }
}
