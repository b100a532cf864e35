/** MultiBuffer operations (common/buf/multi_buffer.go) on the values of buffers. */
module MultiBuffers {
  import opened Basics

  predicate IsEmpty(mb: MultiBuffer) {
    forall i :: 0 <= i < |mb| ==> mb[i] == []
  }

  lemma {:induction false} EmptyIffNoBytes(mb: MultiBuffer)
    ensures IsEmpty(mb) <==> Flat(mb) == []
  {
    if mb != [] {
      EmptyIffNoBytes(mb[1..]);
      assert IsEmpty(mb) <==> mb[0] == [] && IsEmpty(mb[1..]);
    }
  }

  // ---- splitting by bytes ----

  /** SplitBytes into a slice of n bytes: what is left, and what was copied out. */
  function SplitBytes(mb: MultiBuffer, n: nat): (MultiBuffer, Bytes) {
    if mb == [] then ([], [])
    else if |mb[0]| > n then ([mb[0][n..]] + mb[1..], mb[0][..n])
    else var (rest, taken) := SplitBytes(mb[1..], n - |mb[0]|); (rest, mb[0] + taken)
  }

  /** Exactly the first min(n, length) bytes move, and no empty buffer is left in front. */
  lemma {:induction false} SplitBytesCuts(mb: MultiBuffer, n: nat)
    ensures var (rest, taken) := SplitBytes(mb, n);
            && |taken| == Min(n, |Flat(mb)|)
            && Flat(mb) == taken + Flat(rest)
            && (rest != [] ==> rest[0] != []) && |rest| <= |mb|
  {
    if mb != [] {
      if |mb[0]| > n {
        assert mb[0] == mb[0][..n] + mb[0][n..];
        assert ([mb[0][n..]] + mb[1..])[1..] == mb[1..];
      } else {
        SplitBytesCuts(mb[1..], n - |mb[0]|);
      }
    }
  }

  /** A scan that has drained the first i buffers and taken their bytes is on its way to SplitBytes(mb, n). */
  predicate SplitReaches(mb: MultiBuffer, n: nat, i: nat, taken: Bytes) {
    && i <= |mb| && |taken| <= n
    && var (rest, more) := SplitBytes(mb[i..], n - |taken|);
    SplitBytes(mb, n) == (rest, taken + more)
  }

  lemma SplitBegins(mb: MultiBuffer, n: nat)
    ensures SplitReaches(mb, n, 0, [])
  {
    assert mb[0..] == mb;
    assert [] + SplitBytes(mb, n).1 == SplitBytes(mb, n).1;
  }

  /** The scan's next turn: on to the next buffer, or done inside this one. */
  lemma SplitAdvances(mb: MultiBuffer, n: nat, i: nat, taken: Bytes)
    requires SplitReaches(mb, n, i, taken) && i < |mb|
    ensures var m := Min(n - |taken|, |mb[i]|);
            if m == |mb[i]| then SplitReaches(mb, n, i + 1, taken + mb[i][..m])
            else SplitBytes(mb, n) == ([mb[i][m..]] + mb[i + 1..], taken + mb[i][..m])
  {
    assert mb[i..][0] == mb[i] && mb[i..][1..] == mb[i + 1..];
    if |mb[i]| <= n - |taken| {
      assert mb[i][..|mb[i]|] == mb[i];
      var more := SplitBytes(mb[i + 1..], n - |taken| - |mb[i]|).1;
      assert taken + (mb[i] + more) == (taken + mb[i]) + more;
    }
  }

  lemma SplitLength(mb: MultiBuffer, n: nat, i: nat, taken: Bytes)
    requires SplitReaches(mb, n, i, taken)
    ensures i <= |mb| && |taken| <= n
  {
  }

  lemma SplitEnds(mb: MultiBuffer, n: nat, taken: Bytes)
    requires SplitReaches(mb, n, |mb|, taken)
    ensures SplitBytes(mb, n) == ([], taken)
  {
    assert mb[|mb|..] == [] && taken + [] == taken;
  }

  // ---- splitting by buffers ----

  /** How many whole buffers fit within `size` bytes. */
  function WholeBuffers(mb: MultiBuffer, size: nat): (k: nat)
    ensures k <= |mb|
  {
    if mb == [] || |mb[0]| > size then 0 else 1 + WholeBuffers(mb[1..], size - |mb[0]|)
  }

  /** A scan past the first i buffers with `total` bytes so far will stop after WholeBuffers(mb, size). */
  predicate WholeReaches(mb: MultiBuffer, size: nat, i: nat, total: nat) {
    i <= |mb| && total <= size && WholeBuffers(mb, size) == i + WholeBuffers(mb[i..], size - total)
  }

  lemma WholeBegins(mb: MultiBuffer, size: nat)
    ensures WholeReaches(mb, size, 0, 0)
  {
    assert mb[0..] == mb;
  }

  lemma WholeAdvances(mb: MultiBuffer, size: nat, i: nat, total: nat)
    requires WholeReaches(mb, size, i, total)
    ensures i == |mb| || total + |mb[i]| > size ==> WholeBuffers(mb, size) == i
    ensures i < |mb| && total + |mb[i]| <= size ==> WholeReaches(mb, size, i + 1, total + |mb[i]|)
  {
    if i < |mb| { assert mb[i..][0] == mb[i] && mb[i..][1..] == mb[i + 1..]; }
  }

  /** SplitSize: what is left and what is split off. None is the panic of extending a new buffer beyond its capacity. */
  function SplitSize(mb: MultiBuffer, size: nat): Option<(MultiBuffer, MultiBuffer)> {
    if mb == [] then Some(([], []))
    else if |mb[0]| > size then
      if size > SIZE then None
      else Some(([mb[0][size..]] + mb[1..], [mb[0][..size]]))
    else
      var k := WholeBuffers(mb, size);
      Some((mb[k..], mb[..k]))
  }

  lemma {:induction false} WholeBuffersMaximal(mb: MultiBuffer, size: nat)
    ensures var k := WholeBuffers(mb, size);
            && |Flat(mb[..k])| <= size
            && (k < |mb| ==> |Flat(mb[..k])| + |mb[k]| > size)
  {
    var k := WholeBuffers(mb, size);
    if k > 0 {
      WholeBuffersMaximal(mb[1..], size - |mb[0]|);
      assert mb[..k][1..] == mb[1..][..k - 1];
    } else {
      assert mb[..0] == [];
    }
  }

  /** It panics exactly when the first buffer exceeds `size` and `size` exceeds a regular buffer. */
  lemma SplitSizeCuts(mb: MultiBuffer, size: nat)
    ensures SplitSize(mb, size).None? <==> mb != [] && |mb[0]| > size > SIZE
    ensures SplitSize(mb, size).Some? ==>
            var (rest, taken) := SplitSize(mb, size).value;
            Flat(mb) == Flat(taken) + Flat(rest) && |Flat(taken)| <= size
  {
    if mb != [] {
      if |mb[0]| <= size {
        WholeSplit(mb, size);
      } else if size <= SIZE {
        CutFirst(mb, size);
      }
    }
  }

  lemma WholeSplit(mb: MultiBuffer, size: nat)
    ensures var k := WholeBuffers(mb, size); Flat(mb) == Flat(mb[..k]) + Flat(mb[k..]) && |Flat(mb[..k])| <= size
  {
    FlatSplit(mb, WholeBuffers(mb, size));
    WholeBuffersMaximal(mb, size);
  }

  lemma CutFirst(mb: MultiBuffer, size: nat)
    requires mb != [] && |mb[0]| > size
    ensures Flat(mb) == Flat([mb[0][..size]]) + Flat([mb[0][size..]] + mb[1..]) && |Flat([mb[0][..size]])| == size
  {
    hide Flat;
    FlatOne(mb[0][..size]);
    FlatCons(mb[0], mb[1..]);
    FlatCons(mb[0][size..], mb[1..]);
    assert mb == [mb[0]] + mb[1..];
    assert mb[0] == mb[0][..size] + mb[0][size..];
  }

  // ---- merging and copying ----

  /** New regular buffers filled from `src` until it is used up. */
  function Refill(src: Bytes): (r: MultiBuffer)
    ensures Flat(r) == src
    ensures forall i :: 0 <= i < |r| ==> 1 <= |r[i]| <= SIZE
    decreases |src|
  {
    if src == [] then []
    else if |src| <= SIZE then FlatOne(src); [src]
    else [src[..SIZE]] + Refill(src[SIZE..])
  }

  lemma RefillStep(src: Bytes)
    ensures src == [] ==> Refill(src) == []
    ensures src != [] ==> var n := Min(SIZE, |src|); Refill(src) == [src[..n]] + Refill(src[n..])
  {
    if 0 < |src| <= SIZE { assert src[..|src|] == src && src[|src|..] == []; }
  }

  /** MergeBytes when the last buffer has `room` bytes of space behind its content: top it up, then open new ones. */
  function MergeRoom(dest: MultiBuffer, room: nat, src: Bytes): MultiBuffer {
    if dest != [] && room > 0 then
      var n := Min(room, |src|);
      dest[..|dest| - 1] + [dest[|dest| - 1] + src[..n]] + Refill(src[n..])
    else dest + Refill(src)
  }

  /** MergeBytes into regular buffers whose content starts at offset zero. */
  function MergeBytes(dest: MultiBuffer, src: Bytes): MultiBuffer {
    MergeRoom(dest, if dest != [] && |dest[|dest| - 1]| < SIZE then SIZE - |dest[|dest| - 1]| else 0, src)
  }

  lemma MergeRoomAppends(dest: MultiBuffer, room: nat, src: Bytes)
    ensures Flat(MergeRoom(dest, room, src)) == Flat(dest) + src
  {
    if dest != [] && room > 0 {
      var init, last := dest[..|dest| - 1], dest[|dest| - 1];
      var n := Min(room, |src|);
      assert dest == init + [last];
      FlatAppend(init, [last]);
      FlatOne(last);
      FlatAppend(init, [last + src[..n]]);
      FlatOne(last + src[..n]);
      FlatAppend(init + [last + src[..n]], Refill(src[n..]));
      assert src == src[..n] + src[n..];
    } else {
      FlatAppend(dest, Refill(src));
    }
  }

  lemma MergeBytesAppends(dest: MultiBuffer, src: Bytes)
    ensures Flat(MergeBytes(dest, src)) == Flat(dest) + src
  {
    MergeRoomAppends(dest, if dest != [] && |dest[|dest| - 1]| < SIZE then SIZE - |dest[|dest| - 1]| else 0, src);
  }

  /** MergeMulti: the merged list and the emptied source. */
  function MergeMulti(dest: MultiBuffer, src: MultiBuffer): (r: (MultiBuffer, MultiBuffer))
    ensures Flat(r.0) == Flat(dest) + Flat(src) && Flat(r.1) == []
  {
    FlatAppend(dest, src);
    (dest + src, [])
  }

  // ---- compaction ----

  /** A buffer with its array: `cap` bytes, content at `start`. */
  datatype Window = Window(cap: nat, start: nat, data: Bytes)

  function Contents(ws: seq<Window>): (r: MultiBuffer)
    ensures |r| == |ws|
  {
    seq(|ws|, i requires 0 <= i < |ws| => ws[i].data)
  }

  /** last.ReadFrom(curr): as much of curr as the space behind last's content takes. */
  function ReadFrom(last: Window, curr: Window): Window {
    var room := if last.start + |last.data| <= last.cap then last.cap - last.start - |last.data| else 0;
    last.(data := last.data + curr.data[..Min(room, |curr.data|)])
  }

  /** The loop of Compact; None is the panic of reading from an empty buffer. What ReadFrom leaves in curr is lost. */
  function CompactFrom(last: Window, rest: seq<Window>): Option<seq<Window>>
    decreases |rest|
  {
    if rest == [] then Some([last])
    else if |last.data| + |rest[0].data| > SIZE then
      var r := CompactFrom(rest[0], rest[1..]);
      if r == None then None else Some([last] + r.value)
    else if rest[0].data == [] then None
    else CompactFrom(ReadFrom(last, rest[0]), rest[1..])
  }

  /** A loop that has finished `done` and is at buffer i with `last` in hand is on its way to CompactFrom. */
  predicate CompactReaches(ws: seq<Window>, done: seq<Window>, last: Window, i: nat) {
    && 1 <= i <= |ws|
    && var r := CompactFrom(last, ws[i..]);
    CompactFrom(ws[0], ws[1..]) == if r == None then None else Some(done + r.value)
  }

  lemma CompactBegins(ws: seq<Window>)
    requires ws != []
    ensures CompactReaches(ws, [], ws[0], 1)
  {
    var r := CompactFrom(ws[0], ws[1..]);
    if r.Some? { assert [] + r.value == r.value; }
  }

  lemma CompactAdvances(ws: seq<Window>, done: seq<Window>, last: Window, i: nat)
    requires CompactReaches(ws, done, last, i) && i < |ws|
    ensures if |last.data| + |ws[i].data| > SIZE then CompactReaches(ws, done + [last], ws[i], i + 1)
            else if ws[i].data == [] then CompactFrom(ws[0], ws[1..]) == None
            else CompactReaches(ws, done, ReadFrom(last, ws[i]), i + 1)
  {
    assert ws[i..][0] == ws[i] && ws[i..][1..] == ws[i + 1..];
    var r := CompactFrom(ws[i], ws[i + 1..]);
    if r.Some? { assert (done + [last]) + r.value == done + ([last] + r.value); }
  }

  lemma CompactEnds(ws: seq<Window>, done: seq<Window>, last: Window)
    requires CompactReaches(ws, done, last, |ws|)
    ensures CompactFrom(ws[0], ws[1..]) == Some(done + [last])
  {
    assert ws[|ws|..] == [];
  }

  /** Every buffer that Compact will merge is non-empty and fits behind the content it is appended to. */
  predicate CompactFits(last: Window, rest: seq<Window>)
    decreases |rest|
  {
    rest == [] ||
    if |last.data| + |rest[0].data| > SIZE then CompactFits(rest[0], rest[1..])
    else
      && rest[0].data != [] && last.start + |last.data| + |rest[0].data| <= last.cap
      && CompactFits(last.(data := last.data + rest[0].data), rest[1..])
  }

  lemma ContentsCons(w: Window, ws: seq<Window>)
    ensures Flat(Contents([w] + ws)) == w.data + Flat(Contents(ws))
  {
    assert Contents([w] + ws)[1..] == Contents(ws);
  }

  lemma CancelPrefix(a: Bytes, x: Bytes, y: Bytes)
    ensures a + x == a + y <==> x == y
  {
    assert (a + x)[|a|..] == x && (a + y)[|a|..] == y;
  }

  /** Compact keeps the content exactly when everything it merges fits; otherwise it panics or loses bytes. */
  lemma {:induction false} CompactKeepsExactly(last: Window, rest: seq<Window>)
    ensures CompactFits(last, rest) <==>
            CompactFrom(last, rest).Some?
              && Flat(Contents(CompactFrom(last, rest).value)) == last.data + Flat(Contents(rest))
    ensures CompactFrom(last, rest).Some? ==>
        |Flat(Contents(CompactFrom(last, rest).value))| <= |last.data| + |Flat(Contents(rest))|
    decreases |rest|
  {
    if rest == [] {
      ContentsCons(last, []);
      assert [last] + [] == [last];
    } else {
      var w, ws := rest[0], rest[1..];
      ContentsCons(w, ws);
      assert rest == [w] + ws;
      if |last.data| + |w.data| > SIZE {
        CompactKeepsExactly(w, ws);
        if CompactFrom(w, ws).Some? {
          var r := CompactFrom(w, ws).value;
          ContentsCons(last, r);
          CancelPrefix(last.data, Flat(Contents(r)), w.data + Flat(Contents(ws)));
        }
      } else if w.data != [] {
        var m := ReadFrom(last, w);
        CompactKeepsExactly(m, ws);
        var n := |m.data| - |last.data|;
        if n == |w.data| {
          assert w.data[..n] == w.data;
          assert m.data + Flat(Contents(ws)) == last.data + (w.data + Flat(Contents(ws)));
        }
      }
    }
  }

  /**
   * Two inputs on which it does not. A first buffer whose content lies at the end of its array takes nothing
   * of the second, whose byte is lost; and an empty second buffer makes it panic.
   */
  lemma CompactLoses()
    ensures CompactFrom(Window(SIZE, SIZE - 1, [1]), [Window(SIZE, 0, [2])]) == Some([Window(SIZE, SIZE - 1, [1])])
    ensures CompactFrom(Window(SIZE, 0, [1]), [Window(SIZE, 0, [])]) == None
  {
    var last, curr := Window(SIZE, SIZE - 1, [1]), Window(SIZE, 0, [2]);
    assert ReadFrom(last, curr) == last;
    assert CompactFrom(last, []) == Some([last]) && [curr][1..] == [];
  }

  /** No two neighbours of the result would still fit together. */
  lemma {:induction false} CompactIsTight(last: Window, rest: seq<Window>)
    requires CompactFrom(last, rest).Some?
    ensures var r := CompactFrom(last, rest).value;
            && |r| >= 1 && |r[0].data| >= |last.data|
            && forall i :: 0 <= i < |r| - 1 ==> |r[i].data| + |r[i + 1].data| > SIZE
    decreases |rest|
  {
    if rest != [] {
      if |last.data| + |rest[0].data| > SIZE {
        CompactIsTight(rest[0], rest[1..]);
        var r, t := CompactFrom(last, rest).value, CompactFrom(rest[0], rest[1..]).value;
        assert forall i :: 1 <= i < |r| ==> r[i] == t[i - 1];
      } else {
        CompactIsTight(ReadFrom(last, rest[0]), rest[1..]);
      }
    }
  }

  /** Regular buffers with content at offset zero always compact without loss. */
  lemma {:induction false} RegularCompacts(last: Window, rest: seq<Window>)
    requires last.cap == SIZE && last.start == 0 && |last.data| <= SIZE
    requires forall i :: 0 <= i < |rest| ==> rest[i].cap == SIZE && rest[i].start == 0 && 1 <= |rest[i].data| <= SIZE
    ensures CompactFits(last, rest)
    decreases |rest|
  {
    if rest != [] {
      if |last.data| + |rest[0].data| > SIZE {
        RegularCompacts(rest[0], rest[1..]);
      } else {
        RegularCompacts(last.(data := last.data + rest[0].data), rest[1..]);
      }
    }
  }

  // ---- how full merging leaves the buffers ----

  /** New buffers are full but for the last. */
  lemma {:induction false} RefillIsFull(src: Bytes, i: nat)
    requires i + 1 < |Refill(src)|
    ensures |Refill(src)[i]| == 2048
    decreases |src|
  {
    if i > 0 { RefillIsFull(src[SIZE..], i - 1); }
  }

  /** No new buffer is opened while the last one has room, and those before the last stay as they were. */
  lemma MergeRoomFills(dest: MultiBuffer, room: nat, src: Bytes)
    ensures var r := MergeRoom(dest, room, src);
            && |r| >= |dest| && (forall i :: 0 <= i < |dest| - 1 ==> r[i] == dest[i])
            && (dest != [] ==> |r[|dest| - 1]| == |dest[|dest| - 1]| + Min(room, |src|))
            && (dest != [] && |r| > |dest| ==> |src| > room)
  {
    if dest != [] && room > 0 {
      RefillStep(src[Min(room, |src|)..]);
    } else {
      RefillStep(src);
    }
  }

  /** Merging into regular buffers leaves regular buffers. */
  lemma MergeBytesRegular(dest: MultiBuffer, src: Bytes)
    requires AllRegular(dest)
    ensures AllRegular(MergeBytes(dest, src))
  {
  }
}
