/** Bytes, byte lists and the few sequence facts every other module leans on. */
module Basics {

  type Byte = x: int | 0 <= x < 256
  type Bytes = seq<Byte>

  /** The value of a MultiBuffer: the contents of its buffers, in order. */
  type MultiBuffer = seq<Bytes>

  datatype Option<+T> = None | Some(value: T)

  /** Capacity of a regular buffer (common/buf/buffer.go). */
  const SIZE := 2048

  /** Every piece fits a regular buffer. */
  predicate AllRegular(pieces: seq<Bytes>) {
    forall i :: 0 <= i < |pieces| ==> |pieces[i]| <= SIZE
  }

  function Min(a: int, b: int): int {
    if a <= b then a else b
  }

  /** Concatenation: the byte stream a list of pieces stands for. */
  function Flat<T>(pieces: seq<seq<T>>): seq<T> {
    if pieces == [] then [] else pieces[0] + Flat(pieces[1..])
  }

  lemma {:induction false} FlatAppend<T>(a: seq<seq<T>>, b: seq<seq<T>>)
    ensures Flat(a + b) == Flat(a) + Flat(b)
  {
    if a == [] {
      assert a + b == b;
    } else {
      assert (a + b)[1..] == a[1..] + b;
      FlatAppend(a[1..], b);
    }
  }

  lemma FlatOne<T>(p: seq<T>)
    ensures Flat([p]) == p
  {
    assert Flat([p]) == p + Flat<T>([]);
  }

  /** Flat of a list splits at any position. */
  lemma FlatSplit<T>(a: seq<seq<T>>, i: nat)
    requires i <= |a|
    ensures Flat(a) == Flat(a[..i]) + Flat(a[i..])
  {
    hide Flat;
    FlatAppend(a[..i], a[i..]);
    assert a[..i] + a[i..] == a;
  }

  /** The first i pieces and the next one. */
  lemma FlatNext<T>(a: seq<seq<T>>, i: nat)
    requires i < |a|
    ensures Flat(a[..i + 1]) == Flat(a[..i]) + a[i]
  {
    hide Flat;
    assert a[..i + 1] == a[..i] + [a[i]];
    FlatAppend(a[..i], [a[i]]);
    FlatOne(a[i]);
  }

  /** The elements of `s` without repetitions, in the order they first occur. */
  function Dedup<T(==)>(s: seq<T>): seq<T> {
    if s == [] then []
    else
      var d := Dedup(s[..|s| - 1]);
      var x := s[|s| - 1];
      if x in d then d else d + [x]
  }

  predicate NoDup<T(==)>(s: seq<T>) {
    forall i, j :: 0 <= i < j < |s| ==> s[i] != s[j]
  }

  lemma InPrefix<T>(s: seq<T>, i: nat, m: nat)
    requires i < m <= |s|
    ensures s[i] in s[..m]
  {
    assert s[..m][i] == s[i];
  }

  /** The bytes of a list of byte lists grow by those of the next one. */
  lemma FlatFlatNext<T>(w: seq<seq<seq<T>>>, i: nat)
    requires i < |w|
    ensures Flat(Flat(w[..i + 1])) == Flat(Flat(w[..i])) + Flat(w[i])
  {
    hide Flat;
    assert w[..i + 1] == w[..i] + [w[i]];
    FlatAppend(w[..i], [w[i]]);
    FlatOne(w[i]);
    FlatAppend(Flat(w[..i]), w[i]);
  }

  lemma FlatFlatNone<T>(w: seq<seq<seq<T>>>)
    ensures Flat(Flat(w[..0])) == [] && Flat<T>([]) == []
  {
    assert w[..0] == [];
  }

  /** Flat takes the first piece off. */
  lemma FlatCons<T>(p: seq<T>, ps: seq<seq<T>>)
    ensures Flat([p] + ps) == p + Flat(ps)
  {
    assert ([p] + ps)[1..] == ps;
  }

  /** Dedup keeps every element exactly once. */
  lemma {:induction false} DedupExact<T>(s: seq<T>)
    ensures NoDup(Dedup(s))
    ensures forall x :: x in Dedup(s) <==> x in s
  {
    if s != [] {
      var init, x := s[..|s| - 1], s[|s| - 1];
      DedupExact(init);
      assert s == init + [x];
    }
  }

  lemma DedupSnoc<T>(s: seq<T>, x: T)
    ensures Dedup(s + [x]) == if x in Dedup(s) then Dedup(s) else Dedup(s) + [x]
  {
    assert (s + [x])[..|s|] == s;
  }

  // ---- big-endian 16-bit numbers and their masking ----

  type Uint16 = x: int | 0 <= x < 65536

  /** Big-endian: the high byte first. */
  function PutUint16(n: Uint16): (b: Bytes)
    ensures |b| == 2 && (b[0] as int) * 256 + (b[1] as int) == n
  {
    [n / 256, n % 256]
  }

  function GetUint16(b: Bytes): (n: Uint16)
    requires |b| == 2
  {
    var hi: int, lo: int := b[0], b[1];
    hi * 256 + lo
  }

  lemma Uint16RoundTrip(n: Uint16)
    ensures GetUint16(PutUint16(n)) == n
  {
  }

  /** Exclusive or of the low `bits` bits. */
  function Xor(a: nat, b: nat, bits: nat): (r: nat)
    ensures r < Pow2(bits)
  {
    if bits == 0 then 0
    else (if a % 2 == b % 2 then 0 else 1) + 2 * Xor(a / 2, b / 2, bits - 1)
  }

  function Pow2(n: nat): (r: nat)
    ensures r >= 1
  {
    if n == 0 then 1 else 2 * Pow2(n - 1)
  }

  /** Masking twice with the same mask is the identity. */
  lemma {:induction false} XorCancels(a: nat, m: nat, bits: nat)
    requires a < Pow2(bits)
    ensures Xor(m, Xor(m, a, bits), bits) == a
  {
    if bits > 0 {
      XorCancels(a / 2, m / 2, bits - 1);
    }
  }

  function Xor16(m: Uint16, n: Uint16): (r: Uint16) {
    Pow2Of16();
    Xor(m, n, 16)
  }

  lemma Pow2Of16()
    ensures Pow2(16) == 65536
  {
    assert Pow2(4) == 16;
    assert Pow2(8) == 256;
    assert Pow2(12) == 4096;
  }

  lemma Xor16Cancels(m: Uint16, n: Uint16)
    ensures Xor16(m, Xor16(m, n)) == n
  {
    Pow2Of16();
    XorCancels(n, m, 16);
  }

  /** Bit i of a number. */
  function Bit(a: nat, i: nat): nat {
    (a / Pow2(i)) % 2
  }

  /** A bit of the exclusive or is set exactly where the operands differ. */
  lemma {:induction false} XorBit(a: nat, b: nat, bits: nat, i: nat)
    requires i < bits
    ensures Bit(Xor(a, b, bits), i) == if Bit(a, i) != Bit(b, i) then 1 else 0
  {
    if i > 0 {
      XorBit(a / 2, b / 2, bits - 1, i - 1);
      BitHalf(a, i);
      BitHalf(b, i);
      BitHalf(Xor(a, b, bits), i);
      assert Xor(a, b, bits) / 2 == Xor(a / 2, b / 2, bits - 1);
    } else {
      assert Pow2(0) == 1;
    }
  }

  lemma BitHalf(a: nat, i: nat)
    requires i > 0
    ensures Bit(a, i) == Bit(a / 2, i - 1)
  {
    var q := Pow2(i - 1);
    assert Pow2(i) == 2 * q;
    DivTwice(a, q);
  }

  lemma DivTwice(a: nat, q: nat)
    requires q >= 1
    ensures a / (2 * q) == (a / 2) / q
  {
    var h := a / 2;
    var m, r := h / q, h % q;
    assert h == m * q + r;
    var s := 2 * r + a % 2;
    assert a == m * (2 * q) + s && 0 <= s < 2 * q;
    EuclidUnique(2 * q, a / (2 * q), a % (2 * q), m, s);
  }

  lemma MulAtLeast(k: int, m: nat)
    requires k >= 1
    ensures k * m >= m
  {
    assert (k - 1) * m >= 0;
  }

  /** Quotient and remainder are unique. */
  lemma EuclidUnique(m: nat, q: int, r: nat, q': int, r': nat)
    requires q * m + r == q' * m + r' && r < m && r' < m
    ensures q == q' && r == r'
  {
    assert (q - q') * m == r' - r;
    if q > q' { MulAtLeast(q - q', m); }
    assert (q' - q) * m == r - r';
    if q < q' { MulAtLeast(q' - q, m); }
  }

  /** Masking a 16-bit size: exactly the bits set in the mask are flipped. */
  lemma Xor16Bit(m: Uint16, n: Uint16, i: nat)
    requires i < 16
    ensures Bit(Xor16(m, n), i) == if Bit(m, i) != Bit(n, i) then 1 else 0
  {
    XorBit(m, n, 16, i);
  }

  /** Where x first occurs in s, or |s|. */
  function First<T(==)>(s: seq<T>, x: T): nat {
    if s == [] || s[0] == x then 0 else 1 + First(s[1..], x)
  }

  lemma {:induction false} FirstOfAppend<T>(s: seq<T>, y: T, x: T)
    ensures First(s + [y], x) == if x in s then First(s, x) else if x == y then |s| else |s| + 1
    ensures x in s <==> First(s, x) < |s|
  {
    if s == [] {
      assert s + [y] == [y] && [y][1..] == [];
    } else {
      assert (s + [y])[1..] == s[1..] + [y];
      FirstOfAppend(s[1..], y, x);
    }
  }

  lemma {:induction false} DedupHas<T>(s: seq<T>, i: nat)
    requires i < |Dedup(s)|
    ensures Dedup(s)[i] in s
    decreases |s|
  {
    var init, y := s[..|s| - 1], s[|s| - 1];
    assert s == init + [y];
    if i < |Dedup(init)| {
      DedupHas(init, i);
      assert Dedup(s)[i] == Dedup(init)[i];
    } else {
      assert Dedup(s)[i] == y;
    }
  }

  /** Dedup keeps the elements in the order in which they first occur. */
  lemma {:induction false} DedupInOrder<T>(s: seq<T>)
    ensures forall i, j :: 0 <= i < j < |Dedup(s)| ==> First(s, Dedup(s)[i]) < First(s, Dedup(s)[j])
    decreases |s|
  {
    if s != [] {
      var init, y := s[..|s| - 1], s[|s| - 1];
      DedupInOrder(init);
      DedupExact(init);
      var d := Dedup(init);
      assert s == init + [y];
      hide First;
      forall i | 0 <= i < |d| ensures First(s, d[i]) == First(init, d[i]) < |init| {
        DedupHas(init, i);
        FirstOfAppend(init, y, d[i]);
      }
      FirstOfAppend(init, y, y);
    }
  }
}
