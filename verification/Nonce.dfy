/** Nonce generators (common/crypto/auth.go). */
module Nonce {
  import opened Basics

  /** Little-endian value of a counter. */
  function Value(c: Bytes): (r: nat) {
    if c == [] then 0 else c[0] + 256 * Value(c[1..])
  }

  function Pow256(n: nat): (r: nat)
    ensures r >= 1
  {
    if n == 0 then 1 else 256 * Pow256(n - 1)
  }

  lemma {:induction false} ValueBound(c: Bytes)
    ensures Value(c) < Pow256(|c|)
  {
    if c != [] {
      ValueBound(c[1..]);
    }
  }

  /** One draw: add one to the first byte, carrying into the next while a byte wraps to zero. */
  function Increment(c: Bytes): (r: Bytes)
    ensures |r| == |c|
  {
    if c == [] then []
    else if c[0] == 255 then [0] + Increment(c[1..])
    else [c[0] + 1] + c[1..]
  }

  lemma {:induction false} IncrementAddsOne(c: Bytes)
    ensures Value(Increment(c)) == if Value(c) + 1 == Pow256(|c|) then 0 else Value(c) + 1
  {
    if c != [] {
      ValueBound(c[1..]);
      if c[0] == 255 {
        IncrementAddsOne(c[1..]);
        assert Increment(c)[1..] == Increment(c[1..]);
      } else {
        assert Increment(c)[1..] == c[1..];
      }
    }
  }

  /** The k-th nonce a generator seeded with `seed` hands out (0 is the seed itself, never handed out). */
  function Nth(seed: Bytes, k: nat): (r: Bytes)
    ensures |r| == |seed|
  {
    if k == 0 then seed else Increment(Nth(seed, k - 1))
  }

  lemma ModUnique(a: int, m: nat, q: int, r: nat)
    requires a == q * m + r && r < m
    ensures a % m == r
  {
    EuclidUnique(m, a / m, a % m, q, r);
  }

  /** Wrapping to zero at m is counting modulo m. */
  lemma WrapIsMod(a: nat, m: nat)
    requires m >= 1
    ensures (a + 1) % m == if a % m + 1 == m then 0 else a % m + 1
  {
    var q, r := a / m, a % m;
    assert a == q * m + r;
    if r + 1 == m {
      assert a + 1 == (q + 1) * m + 0;
      ModUnique(a + 1, m, q + 1, 0);
    } else {
      ModUnique(a + 1, m, q, r + 1);
    }
  }

  lemma {:induction false} NthValue(seed: Bytes, k: nat)
    ensures Value(Nth(seed, k)) == (Value(seed) + k) % Pow256(|seed|)
  {
    if k == 0 {
      ValueBound(seed);
      ModUnique(Value(seed), Pow256(|seed|), 0, Value(seed));
    } else {
      NthValue(seed, k - 1);
      IncrementAddsOne(Nth(seed, k - 1));
      WrapIsMod(Value(seed) + k - 1, Pow256(|seed|));
    }
  }

  lemma {:induction false} ValueInjective(a: Bytes, b: Bytes)
    requires |a| == |b| && Value(a) == Value(b)
    ensures a == b
  {
    if a != [] {
      ValueInjective(a[1..], b[1..]);
      assert a == [a[0]] + a[1..] && b == [b[0]] + b[1..];
    }
  }

  /** Two draws give the same nonce exactly when they are a multiple of 256^len apart. */
  lemma NonceRepeatsExactly(seed: Bytes, i: nat, j: nat)
    requires i <= j
    ensures Nth(seed, i) == Nth(seed, j) <==> (j - i) % Pow256(|seed|) == 0
    ensures i < j < i + Pow256(|seed|) ==> Nth(seed, i) != Nth(seed, j)
  {
    var m := Pow256(|seed|);
    var a, b := Value(seed) + i, Value(seed) + j;
    NthValue(seed, i);
    NthValue(seed, j);
    if Nth(seed, i) == Nth(seed, j) {
      SameRemainder(a, b, m);
    }
    if (j - i) % m == 0 {
      MultipleApart(a, b, m);
      ValueInjective(Nth(seed, i), Nth(seed, j));
    }
    if i < j < i + m {
      ModUnique(j - i, m, 0, j - i);
    }
  }

  lemma MultipleApart(a: nat, b: nat, m: nat)
    requires m >= 1 && (b - a) % m == 0
    ensures a % m == b % m
  {
    var d, q := (b - a) / m, a / m;
    assert b - a == d * m;
    assert a == q * m + a % m;
    assert b == (q + d) * m + a % m;
    ModUnique(b, m, q + d, a % m);
  }

  lemma SameRemainder(a: nat, b: nat, m: nat)
    requires m >= 1 && a % m == b % m
    ensures (b - a) % m == 0
  {
    assert b - a == (b / m - a / m) * m + 0;
    ModUnique(b - a, m, b / m - a / m, 0);
  }

  /** The closure made by GenerateIncreasingNonce: it owns a private copy of the seed. */
  class IncreasingNonce {
    const c: array<Byte>

    constructor (nonce: Bytes)
      ensures fresh(c) && c[..] == nonce
    {
      c := new Byte[|nonce|](i requires 0 <= i < |nonce| => nonce[i]);
    }

    method Next() returns (iv: Bytes)
      modifies c
      ensures c[..] == Increment(old(c[..])) && iv == c[..]
    {
      ghost var was := c[..];
      var i := 0;
      while i < c.Length
        invariant 0 <= i <= c.Length
        invariant forall k :: 0 <= k < i ==> was[k] == 255 && c[k] == 0
        invariant forall k :: i <= k < c.Length ==> c[k] == was[k]
      {
        c[i] := if c[i] == 255 then 0 else c[i] + 1;
        if c[i] != 0 {
          break;
        }
        i := i + 1;
      }
      IncrementCarries(was, i);
      iv := c[..];
    }
  }

  /** Leading 255s become zeros and the first other byte goes up by one. */
  lemma {:induction false} IncrementCarries(c: Bytes, i: nat)
    requires i <= |c| && (forall k :: 0 <= k < i ==> c[k] == 255) && (i < |c| ==> c[i] != 255)
    ensures forall k :: 0 <= k < |c| ==> Increment(c)[k] == if k < i then 0 else if k == i then c[k] + 1 else c[k]
  {
    if i > 0 {
      IncrementCarries(c[1..], i - 1);
    }
  }
}
