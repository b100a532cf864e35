/**
 * Buffers as mutable windows into byte arrays (common/buf/buffer.go), and the MultiBuffer
 * operations that move those windows in place (common/buf/multi_buffer.go), each proved against
 * its counterpart on values.
 */
module Buffers {
  import opened Basics
  import M = MultiBuffers

  class Buffer {
    var v: array<Byte>
    var start: nat
    var end: nat

    ghost predicate Valid()
      reads this
    {
      start <= end <= v.Length
    }

    ghost function Value(): Bytes
      requires Valid()
      reads this, v
    {
      v[start..end]
    }

    ghost function View(): M.Window
      requires Valid()
      reads this, v
    {
      M.Window(v.Length, start, Value())
    }

    /** New: an empty regular buffer. */
    constructor ()
      ensures Valid() && fresh(v) && v.Length == SIZE && start == end == 0
    {
      v := new Byte[SIZE];
      start, end := 0, 0;
    }

    /** Write: as many bytes as there is room behind the content. */
    method Write(data: Bytes) returns (n: nat)
      requires Valid()
      modifies v, this`end
      ensures Valid() && n == Min(old(v.Length - end), |data|)
      ensures Value() == old(Value()) + data[..n] && end == old(end) + n
    {
      n := Min(v.Length - end, |data|);
      ghost var was := v[..];
      forall i | 0 <= i < n {
        v[end + i] := data[i];
      }
      assert v[start..end] == was[start..end];
      assert v[end..end + n] == data[..n];
      assert v[start..end + n] == v[start..end] + v[end..end + n];
      end := end + n;
    }

    /** Read into a slice of `room` bytes: the content moves out from the front; a drained buffer is cleared. */
    method Read(room: nat) returns (data: Bytes)
      requires Valid()
      modifies this`start, this`end
      ensures Valid() && data == old(Value())[..Min(room, old(end - start))]
      ensures Value() == old(Value())[|data|..]
      ensures Value() == [] && old(Value()) != [] ==> start == end == 0
    {
      if start == end {
        return [];
      }
      var n := Min(room, end - start);
      data := v[start..start + n];
      if n == end - start {
        start, end := 0, 0;
      } else {
        start := start + n;
      }
    }
  }

  /** The buffers are distinct and share no array. */
  ghost predicate Owned(mb: seq<Buffer>)
    reads mb
  {
    && (forall i :: 0 <= i < |mb| ==> mb[i].Valid())
    && (forall i, j :: 0 <= i < j < |mb| ==> mb[i] != mb[j] && mb[i].v != mb[j].v)
  }

  /** The buffers hold `vals`, one each. */
  ghost predicate Holds(mb: seq<Buffer>, vals: MultiBuffer)
    requires Owned(mb)
    reads mb, set b | b in mb :: b.v
  {
    |mb| == |vals| && forall i :: 0 <= i < |mb| ==> mb[i].Value() == vals[i]
  }

  /** SplitBytes: drains whole buffers from the front and part of the next one, in place. */
  method SplitBytes(mb: seq<Buffer>, n: nat, ghost vals: MultiBuffer) returns (rest: seq<Buffer>, taken: Bytes)
    requires Owned(mb) && Holds(mb, vals)
    modifies mb
    ensures Owned(rest) && Holds(rest, M.SplitBytes(vals, n).0)
    ensures taken == M.SplitBytes(vals, n).1
    ensures exists k :: 0 <= k <= |mb| && rest == mb[k..]
  {
    hide M.SplitBytes, M.SplitReaches, HoldsFrom, Owned, Holds;
    taken := [];
    var i := 0;
    M.SplitBegins(vals, n);
    HoldsFromStart(mb, vals);
    while i < |mb|
      invariant 0 <= i <= |mb| == |vals| && |taken| <= n && M.SplitReaches(vals, n, i, taken) && HoldsFrom(mb, vals, i)
    {
      M.SplitAdvances(vals, n, i, taken);
      var data := DrainOne(mb, i, n - |taken|, vals);
      taken := taken + data;
      if mb[i].start != mb[i].end {
        rest := mb[i..];
        HoldsFromRest(mb, vals, i, vals[i][|data|..]);
        return;
      }
      i := i + 1;
      M.SplitLength(vals, n, i, taken);
    }
    M.SplitEnds(vals, n, taken);
    rest := mb[|mb|..];
    assert rest == [];
    NothingHeld();
  }

  /** From index i on, the buffers hold `vals`; no two share an object or an array. */
  ghost predicate HoldsFrom(mb: seq<Buffer>, vals: MultiBuffer, i: nat)
    reads mb, set b | b in mb :: b.v
  {
    && |mb| == |vals| && i <= |mb|
    && (forall j :: i <= j < |mb| ==> mb[j].Valid() && mb[j].Value() == vals[j])
    && (forall j, l :: 0 <= j < l < |mb| ==> mb[j] != mb[l] && mb[j].v != mb[l].v)
  }

  lemma HoldsFromStart(mb: seq<Buffer>, vals: MultiBuffer)
    requires Owned(mb) && Holds(mb, vals)
    ensures HoldsFrom(mb, vals, 0) && |mb| == |vals|
  {
  }

  lemma NothingHeld()
    ensures Owned([]) && Holds([], [])
  {
  }

  lemma HoldsFromRest(mb: seq<Buffer>, vals: MultiBuffer, i: nat, first: Bytes)
    requires i < |mb| && HoldsFrom(mb, vals, i + 1) && mb[i].Valid() && mb[i].Value() == first
    ensures Owned(mb[i..]) && Holds(mb[i..], [first] + vals[i + 1..])
  {
  }

  /** Reads from buffer i what there is room for; the buffers behind it keep theirs. */
  method DrainOne(mb: seq<Buffer>, i: nat, room: nat, ghost vals: MultiBuffer) returns (data: Bytes)
    requires i < |mb| && HoldsFrom(mb, vals, i)
    modifies mb[i]
    ensures HoldsFrom(mb, vals, i + 1) && mb[i].Valid() && data == vals[i][..Min(room, |vals[i]|)]
    ensures mb[i].Value() == vals[i][|data|..] && (mb[i].start == mb[i].end <==> |data| == |vals[i]|)
  {
    assert mb[i].Value() == vals[i];
    data := mb[i].Read(room);
    assert forall j :: i < j < |mb| ==> mb[j].Value() == vals[j];
  }

  /** SplitSize: None is the panic of extending a new buffer beyond its array. */
  method SplitSize(mb: seq<Buffer>, size: nat, ghost vals: MultiBuffer) returns (r: Option<(seq<Buffer>, seq<Buffer>)>)
    requires Owned(mb) && Holds(mb, vals)
    modifies mb
    ensures r.Some? <==> M.SplitSize(vals, size).Some?
    ensures r.Some? ==>
      && Owned(r.value.0) && Holds(r.value.0, M.SplitSize(vals, size).value.0)
      && Owned(r.value.1) && Holds(r.value.1, M.SplitSize(vals, size).value.1)
  {
    hide M.WholeBuffers, M.WholeReaches, Flat;
    if |mb| == 0 {
      return Some(([], []));
    }
    assert mb[0].Value() == vals[0];
    if mb[0].end - mb[0].start > size {
      if size > SIZE {
        return None;
      }
      var b := CutFirst(mb, size, vals);
      return Some((mb, [b]));
    }
    var total, i := 0, 0;
    M.WholeBegins(vals, size);
    while i < |mb|
      invariant Owned(mb) && Holds(mb, vals)
      invariant 0 <= i <= |mb| && 0 <= total <= size && M.WholeReaches(vals, size, i, total)
    {
      M.WholeAdvances(vals, size, i, total);
      assert mb[i].Value() == vals[i];
      if total + (mb[i].end - mb[i].start) > size {
        break;
      }
      total := total + (mb[i].end - mb[i].start);
      i := i + 1;
    }
    M.WholeAdvances(vals, size, i, total);
    HoldsSplit(mb, vals, i);
    return Some((mb[i..], mb[..i]));
  }

  lemma HoldsSplit(mb: seq<Buffer>, vals: MultiBuffer, i: nat)
    requires Owned(mb) && Holds(mb, vals) && i <= |mb|
    ensures Owned(mb[i..]) && Holds(mb[i..], vals[i..]) && Owned(mb[..i]) && Holds(mb[..i], vals[..i])
  {
  }

  /** The first buffer is longer than asked for: its front moves to a new buffer and its window advances. */
  method CutFirst(mb: seq<Buffer>, size: nat, ghost vals: MultiBuffer) returns (b: Buffer)
    requires Owned(mb) && Holds(mb, vals) && mb != [] && |vals[0]| > size && size <= SIZE
    modifies {mb[0]}
    ensures Owned(mb) && Holds(mb, [vals[0][size..]] + vals[1..])
    ensures fresh(b) && Owned([b]) && Holds([b], [vals[0][..size]])
  {
    assert mb[0].Value() == vals[0];
    b := CopyOut(mb[0], size);
    hide Buffer.Value;
    Advance(mb[0], size);
    assert forall j :: 1 <= j < |mb| ==> mb[j].Value() == vals[j];
  }

  /** Advance: the front of the content is given up. */
  method Advance(b: Buffer, n: nat)
    requires b.Valid() && n <= |b.Value()|
    modifies b`start
    ensures b.Valid() && b.Value() == old(b.Value())[n..]
  {
    b.start := b.start + n;
  }

  /** A new buffer holding the first `size` bytes of another. */
  method CopyOut(first: Buffer, size: nat) returns (b: Buffer)
    requires first.Valid() && size <= SIZE && size <= first.end - first.start
    ensures fresh(b) && fresh(b.v) && b.Valid() && b.Value() == first.Value()[..size]
  {
    b := new Buffer();
    var n := b.Write(first.v[first.start..first.start + size]);
  }

  /** Copy: the longest prefix of the content that fits, into the front of `b`; nothing moves. */
  method Copy(mb: seq<Buffer>, b: array<Byte>, ghost vals: MultiBuffer) returns (total: nat)
    requires Owned(mb) && Holds(mb, vals) && forall i :: 0 <= i < |mb| ==> mb[i].v != b
    modifies b
    ensures Owned(mb) && Holds(mb, vals)
    ensures total == Min(b.Length, |Flat(vals)|)
    ensures b[..total] == Flat(vals)[..total] && b[total..] == old(b[..])[total..]
  {
    hide Flat;
    total := 0;
    var i := 0;
    FlatNone(vals);
    while i < |mb|
      invariant 0 <= i <= |mb| && total == |Flat(vals[..i])| <= b.Length
      invariant forall j :: 0 <= j < |mb| ==> mb[j].Value() == vals[j]
      invariant b[..total] == Flat(vals[..i]) && forall j :: total <= j < b.Length ==> b[j] == old(b[j])
    {
      FlatStep(vals, i);
      var n := CopyInto(b, total, mb[i]);
      assert b[..total + n] == Flat(vals[..i]) + vals[i][..n];
      total := total + n;
      if n < mb[i].end - mb[i].start {
        return;
      }
      assert vals[i][..n] == vals[i];
      i := i + 1;
    }
    assert vals[..i] == vals;
  }

  /** copy(b[at:], bb.Bytes()). */
  method CopyInto(b: array<Byte>, at: nat, bb: Buffer) returns (n: nat)
    requires bb.Valid() && bb.v != b && at <= b.Length
    modifies b
    ensures n == Min(b.Length - at, |bb.Value()|)
    ensures b[..at + n] == old(b[..at]) + bb.Value()[..n] && forall j :: at + n <= j < b.Length ==> b[j] == old(b[j])
  {
    n := Min(b.Length - at, bb.end - bb.start);
    forall j | at <= j < at + n {
      b[j] := bb.v[bb.start + (j - at)];
    }
    assert b[..at] == old(b[..at]);
    assert forall j :: 0 <= j < n ==> b[at..at + n][j] == bb.Value()[j];
    assert b[at..at + n] == bb.Value()[..n];
    assert b[..at + n] == b[..at] + b[at..at + n];
  }

  lemma FlatNone(mb: MultiBuffer)
    ensures Flat(mb[..0]) == []
  {
    assert mb[..0] == [];
  }

  /** The first i buffers and part of the next are a prefix of the whole content. */
  lemma FlatStep(mb: MultiBuffer, i: nat)
    requires i < |mb|
    ensures Flat(mb[..i + 1]) == Flat(mb[..i]) + mb[i] <= Flat(mb)
  {
    hide Flat;
    FlatNext(mb, i);
    FlatSplit(mb, i + 1);
  }

  /** MergeBytes: tops up the last buffer unless it is full, then fills new ones. */
  method MergeBytes(dest: seq<Buffer>, src: Bytes, ghost vals: MultiBuffer) returns (r: seq<Buffer>)
    requires Owned(dest) && Holds(dest, vals)
    modifies if dest == [] then {} else {dest[|dest| - 1], dest[|dest| - 1].v}
    ensures Owned(r) && dest <= r && fresh(set i | |dest| <= i < |r| :: r[i])
    ensures var room := if dest == [] then 0 else old(dest[|dest| - 1].v.Length - dest[|dest| - 1].end);
            Holds(r, M.MergeRoom(vals, room, src))
  {
    hide Flat, M.Refill, Holds;
    if |dest| == 0 || dest[|dest| - 1].end == dest[|dest| - 1].v.Length {
      r := AppendNew(dest, src, vals);
    } else {
      var n := TopUp(dest, src, vals);
      r := AppendNew(dest, src[n..], vals[..|vals| - 1] + [vals[|vals| - 1] + src[..n]]);
    }
  }

  /** The first half of MergeBytes: what fits behind the content of the last buffer. */
  method TopUp(dest: seq<Buffer>, src: Bytes, ghost vals: MultiBuffer) returns (n: nat)
    requires Owned(dest) && Holds(dest, vals) && dest != []
    modifies dest[|dest| - 1], dest[|dest| - 1].v
    ensures Owned(dest) && |vals| == |dest| && n == Min(old(dest[|dest| - 1].v.Length - dest[|dest| - 1].end), |src|)
    ensures Holds(dest, vals[..|vals| - 1] + [vals[|vals| - 1] + src[..n]])
  {
    var last := dest[|dest| - 1];
    assert last.Value() == vals[|vals| - 1];
    n := last.Write(src);
    assert forall i :: 0 <= i < |dest| - 1 ==> dest[i].Value() == vals[i];
  }

  /** The second half of MergeBytes: new buffers until the bytes are used up. */
  method AppendNew(dest: seq<Buffer>, src: Bytes, ghost vals: MultiBuffer) returns (r: seq<Buffer>)
    requires Owned(dest) && Holds(dest, vals)
    ensures Owned(r) && dest <= r && fresh(set i | |dest| <= i < |r| :: r[i])
    ensures Holds(r, vals + M.Refill(src))
  {
    hide Flat, M.Refill, Owned, Holds;
    r := dest;
    var left := src;
    ghost var cur := vals;
    while |left| > 0
      invariant dest <= r && fresh(set i | |dest| <= i < |r| :: r[i])
      invariant Owned(r) && Holds(r, cur) && vals + M.Refill(src) == cur + M.Refill(left)
      decreases |left|
    {
      var b, n := AddBuffer(r, left, cur);
      M.RefillStep(left);
      assert cur + ([left[..n]] + M.Refill(left[n..])) == (cur + [left[..n]]) + M.Refill(left[n..]);
      left, cur, r := left[n..], cur + [left[..n]], r + [b];
    }
    M.RefillStep(left);
    assert cur + [] == cur;
  }

  /** A new buffer for the list, with as much of the bytes as it takes. */
  method AddBuffer(mb: seq<Buffer>, left: Bytes, ghost vals: MultiBuffer) returns (b: Buffer, n: nat)
    requires Owned(mb) && Holds(mb, vals)
    ensures fresh(b) && n == Min(SIZE, |left|) && Owned(mb + [b]) && Holds(mb + [b], vals + [left[..n]])
  {
    b := new Buffer();
    n := b.Write(left);
    assert b.Value() == left[..n];
    assert forall i :: 0 <= i < |mb| ==> mb[i].Value() == vals[i];
  }

  /** The buffers show `ws`, one each. */
  ghost predicate Shows(mb: seq<Buffer>, ws: seq<M.Window>)
    reads mb, set b | b in mb :: b.v
  {
    Owned(mb) && |mb| == |ws| && forall i :: 0 <= i < |mb| ==> mb[i].View() == ws[i]
  }

  /** Compact: merges each buffer into the one before it while the two fit a regular buffer. */
  method Compact(mb: seq<Buffer>, ghost ws: seq<M.Window>) returns (r: Option<seq<Buffer>>)
    requires Shows(mb, ws)
    modifies mb, set b | b in mb :: b.v
    ensures mb == [] ==> r == Some([])
    ensures mb != [] ==> (r.Some? <==> M.CompactFrom(ws[0], ws[1..]).Some?)
    ensures mb != [] && r.Some? ==> Shows(r.value, M.CompactFrom(ws[0], ws[1..]).value)
  {
    hide M.CompactFrom, M.CompactReaches, M.ReadFrom, Buffer.View, Buffer.Value, Owned, Shows;
    if |mb| == 0 {
      return Some([]);
    }
    ShowsFacts(mb, ws);
    var out: seq<Buffer> := [];
    var last, i := mb[0], 1;
    ghost var done: seq<M.Window>, cur := [], ws[0];
    M.CompactBegins(ws);
    assert (out + [last]) + mb[1..] == mb && (done + [cur]) + ws[1..] == ws;
    while i < |mb|
      invariant 1 <= i <= |mb| == |ws| && |out| == |done| && M.CompactReaches(ws, done, cur, i)
      invariant last in mb && (forall x :: x in mb ==> x.v == old(x.v))
      invariant Shows((out + [last]) + mb[i..], (done + [cur]) + ws[i..])
    {
      var curr := mb[i];
      assert mb[i..] == [curr] + mb[i + 1..] && ws[i..] == [ws[i]] + ws[i + 1..];
      assert (out + [last]) + mb[i..] == out + [last] + [curr] + mb[i + 1..];
      assert (done + [cur]) + ws[i..] == done + [cur] + [ws[i]] + ws[i + 1..];
      PairFacts(out, last, curr, mb[i + 1..], done, cur, ws[i], ws[i + 1..]);
      M.CompactAdvances(ws, done, cur, i);
      if (last.end - last.start) + (curr.end - curr.start) > SIZE {
        out, done := out + [last], done + [cur];
        last, cur := curr, ws[i];
      } else {
        if curr.start == curr.end {
          return None;
        }
        MergeInto(out, last, curr, mb[i + 1..], done, cur, ws[i], ws[i + 1..]);
        cur := M.ReadFrom(cur, ws[i]);
      }
      i := i + 1;
    }
    M.CompactEnds(ws, done, cur);
    assert (out + [last]) + mb[i..] == out + [last] && (done + [cur]) + ws[i..] == done + [cur];
    return Some(out + [last]);
  }

  lemma ShowsFacts(mb: seq<Buffer>, ws: seq<M.Window>)
    requires Shows(mb, ws)
    ensures |mb| == |ws|
  {
  }

  lemma PairFacts(x: seq<Buffer>, a: Buffer, b: Buffer, y: seq<Buffer>, vx: seq<M.Window>, wa: M.Window,
      wb: M.Window, vy: seq<M.Window>)
    requires Shows(x + [a] + [b] + y, vx + [wa] + [wb] + vy) && |x| == |vx|
    ensures a.Valid() && b.Valid() && a != b && a.v != b.v
    ensures |wa.data| == a.end - a.start && |wb.data| == b.end - b.start
  {
    var mb, ws := x + [a] + [b] + y, vx + [wa] + [wb] + vy;
    assert mb[|x|] == a && mb[|x| + 1] == b && ws[|x|] == wa && ws[|x| + 1] == wb;
  }

  /**
   * One merge of Compact: the second buffer leaves the list, the first takes what it can of it, the others keep
   * theirs.
   */
  method MergeInto(ghost x: seq<Buffer>, a: Buffer, b: Buffer, ghost y: seq<Buffer>,
                   ghost vx: seq<M.Window>, ghost wa: M.Window, ghost wb: M.Window, ghost vy: seq<M.Window>)
    requires Shows(x + [a] + [b] + y, vx + [wa] + [wb] + vy) && |x| == |vx| && b.start != b.end
    modifies a`end, a.v, b`start, b`end
    ensures Shows((x + [a]) + y, (vx + [M.ReadFrom(wa, wb)]) + vy)
  {
    hide M.ReadFrom, Buffer.View, Buffer.Value, Owned;
    PairFacts(x, a, b, y, vx, wa, wb, vy);
    ShowsParts(x, a, b, y, vx, wa, wb, vy);
    Absorb(a, b);
    assert Shows(x, vx) && Shows(y, vy);
    ShowsJoin(x, a, y, vx, M.ReadFrom(wa, wb), vy);
  }

  /** No object and no array is in both lists. */
  ghost predicate Apart(xs: seq<Buffer>, ys: seq<Buffer>)
    reads xs, ys
  {
    forall p, q :: p in xs && q in ys ==> p != q && p.v != q.v
  }

  lemma ShowsParts(x: seq<Buffer>, a: Buffer, b: Buffer, y: seq<Buffer>,
                   vx: seq<M.Window>, wa: M.Window, wb: M.Window, vy: seq<M.Window>)
    requires Shows(x + [a] + [b] + y, vx + [wa] + [wb] + vy) && |x| == |vx|
    ensures Shows(x, vx) && Shows(y, vy) && a.Valid() && a.View() == wa && b.Valid() && b.View() == wb
    ensures Apart(x, [a, b]) && Apart(x, y) && Apart([a, b], y)
  {
    hide Buffer.View, Buffer.Value, Owned, Shows, Apart;
    ShowsCut(x + [a] + [b], y, vx + [wa] + [wb], vy);
    ShowsCut(x + [a], [b], vx + [wa], [wb]);
    ShowsCut(x, [a], vx, [wa]);
    ShowsOne(a, wa);
    ShowsOne(b, wb);
    ApartParts(x, a, b, y);
  }

  /** The two parts of a list. */
  lemma ShowsCut(p: seq<Buffer>, q: seq<Buffer>, vp: seq<M.Window>, vq: seq<M.Window>)
    requires Shows(p + q, vp + vq) && |p| == |vp|
    ensures Shows(p, vp) && Shows(q, vq) && Apart(p, q)
  {
    hide Buffer.View, Buffer.Value;
    var mb, ws := p + q, vp + vq;
    assert forall i :: 0 <= i < |p| ==> mb[i] == p[i] && ws[i] == vp[i];
    assert forall i :: 0 <= i < |q| ==> mb[|p| + i] == q[i] && ws[|p| + i] == vq[i];
  }

  lemma ShowsOne(a: Buffer, w: M.Window)
    requires Shows([a], [w])
    ensures a.Valid() && a.View() == w
  {
    assert [a][0] == a && [w][0] == w;
  }

  lemma ApartParts(x: seq<Buffer>, a: Buffer, b: Buffer, y: seq<Buffer>)
    requires Apart(x + [a] + [b], y) && Apart(x + [a], [b]) && Apart(x, [a])
    ensures Apart(x, [a, b]) && Apart(x, y) && Apart([a, b], y)
  {
    assert forall p :: p in x || p in [a, b] ==> p in x + [a] + [b];
    assert forall p :: p in x ==> p in x + [a];
    assert forall q :: q in [a, b] ==> q in [a] || q in [b];
  }

  lemma ShowsJoin(x: seq<Buffer>, a: Buffer, y: seq<Buffer>, vx: seq<M.Window>, w: M.Window, vy: seq<M.Window>)
    requires Shows(x, vx) && Shows(y, vy) && a.Valid() && a.View() == w
    requires Apart(x, [a]) && Apart(x, y) && Apart([a], y)
    ensures Shows((x + [a]) + y, (vx + [w]) + vy)
  {
    hide Buffer.View, Buffer.Value;
    var mb := (x + [a]) + y;
    assert forall i :: 0 <= i < |mb| ==> mb[i] == if i < |x| then x[i] else if i == |x| then a else y[i - |x| - 1];
  }

  /** last.ReadFrom(curr): the space behind a's content takes what it can of b. */
  method Absorb(a: Buffer, b: Buffer)
    requires a.Valid() && b.Valid() && a != b && a.v != b.v && b.start != b.end
    modifies a`end, a.v, b`start, b`end
    ensures a.Valid() && b.Valid() && a.View() == M.ReadFrom(old(a.View()), old(b.View()))
  {
    var room := a.v.Length - a.end;
    var data := b.Read(room);
    var n := a.Write(data);
    assert data[..n] == data;
  }
}
