/** What whole runs of the LRU cache guarantee. */
module LruRuns {
  import opened Basics
  import opened LruCache

  datatype Op<K, V> = GetOp(k: K) | PutOp(key: K, value: V) | ReverseOp(v: V)
  datatype Reply<K, V> = Found(value: Option<V>) | FoundKey(key: Option<K>) | Stored_

  function StepSpec<K(==), V(==)>(capacity: int, es: Entries<K, V>, op: Op<K, V>): (Reply<K, V>, Entries<K, V>) {
    match op
    case GetOp(k) => var (r, es') := GetSpec(es, k); (Found(r), es')
    case PutOp(k, v) => (Stored_, PutSpec(capacity, es, k, v))
    case ReverseOp(v) => var (r, es') := GetKeySpec(es, v); (FoundKey(r), es')
  }

  /** The recency list after a run. */
  function After<K(==), V(==)>(capacity: int, ops: seq<Op<K, V>>): Entries<K, V>
    decreases |ops|
  {
    if ops == [] then [] else StepSpec(capacity, After(capacity, ops[..|ops| - 1]), ops[|ops| - 1]).1
  }

  /** The recency list's answers over a run. */
  function Replies<K(==), V(==)>(capacity: int, ops: seq<Op<K, V>>): seq<Reply<K, V>>
    decreases |ops|
  {
    if ops == [] then []
    else
      var init := ops[..|ops| - 1];
      Replies(capacity, init) + [StepSpec(capacity, After(capacity, init), ops[|ops| - 1]).0]
  }

  // ---- refinement over runs ----

  /** Across the run, keys and values are paired one to one. */
  ghost predicate OneToOne<K, V>(ops: seq<Op<K, V>>) {
    forall i, j :: 0 <= i < |ops| && 0 <= j < |ops| && ops[i].PutOp? && ops[j].PutOp? ==>
      (ops[i].key == ops[j].key <==> ops[i].value == ops[j].value)
  }

  predicate NoReverse<K, V>(ops: seq<Op<K, V>>) {
    forall i :: 0 <= i < |ops| ==> !ops[i].ReverseOp?
  }

  /** Every entry was put by the run. */
  lemma {:induction false} EntriesWerePut<K, V>(capacity: int, ops: seq<Op<K, V>>)
    ensures forall e :: e in After(capacity, ops) ==> PutOp(e.0, e.1) in ops
    decreases |ops|
  {
    if ops != [] {
      var init, op := ops[..|ops| - 1], ops[|ops| - 1];
      EntriesWerePut(capacity, init);
      assert ops == init + [op];
      StepEntries(capacity, After(capacity, init), op);
    }
  }

  lemma StepEntries<K, V>(capacity: int, es: Entries<K, V>, op: Op<K, V>)
    ensures forall e :: e in StepSpec(capacity, es, op).1 ==> e in es || (op.PutOp? && e == (op.key, op.value))
  {
  }

  lemma OneToOnePairs<K, V>(capacity: int, ops: seq<Op<K, V>>, i: nat)
    requires OneToOne(ops) && i < |ops| && ops[i].PutOp?
    ensures PairsWith(After(capacity, ops[..i]), ops[i].key, ops[i].value)
  {
    var es := After(capacity, ops[..i]);
    EntriesWerePut(capacity, ops[..i]);
    forall j | 0 <= j < |es| ensures es[j].0 == ops[i].key <==> es[j].1 == ops[i].value {
      assert PutOp(es[j].0, es[j].1) in ops[..i];
      var l :| 0 <= l < i && ops[l] == PutOp(es[j].0, es[j].1);
    }
  }

  /**
   * The cache, run on any operations, answers as the recency list does; reverse lookups do so when keys and
   * values are paired one to one across the run.
   */
  method Replay<K(==), V(==)>(capacity: int, ops: seq<Op<K, V>>) returns (replies: seq<Reply<K, V>>)
    ensures OneToOne(ops) || NoReverse(ops) ==> replies == Replies(capacity, ops)
  {
    hide GetSpec, GetKeySpec, PutSpec, Lru.Valid, Lru.Entries, Lru.ReverseExact, PairsWith, OneToOne;
    var lru := new Lru<K, V>(capacity);
    replies := [];
    var i := 0;
    assert ops[..0] == [];
    while i < |ops|
      invariant 0 <= i <= |ops| && lru.Valid() && lru.capacity == capacity
      invariant OneToOne(ops) ==> lru.ReverseExact()
      invariant OneToOne(ops) || NoReverse(ops) ==>
          lru.Entries() == After(capacity, ops[..i]) && replies == Replies(capacity, ops[..i])
    {
      assert ops[..i + 1][..i] == ops[..i] && ops[..i + 1][i] == ops[i];
      match ops[i] {
        case GetOp(k) =>
          var r := lru.Get(k);
          replies := replies + [Found(r)];
        case PutOp(k, v) =>
          if OneToOne(ops) { OneToOnePairs(capacity, ops, i); }
          lru.Put(k, v);
          replies := replies + [Stored_];
        case ReverseOp(v) =>
          var r := lru.GetKeyFromValue(v);
          replies := replies + [FoundKey(r)];
      }
      i := i + 1;
    }
    assert ops[..i] == ops;
  }

  /**
   * An input on which reverse lookups do not refine the recency list: two keys put with one value. Evicting the
   * older key makes the index forget the value, although the newer key still holds it.
   */
  method SharedValueLost() returns (r: Option<int>)
    ensures r == None
    ensures GetKeySpec(After(2, [PutOp(1, 7), PutOp(2, 7), PutOp(3, 8)]), 7).0 == Some(2)
  {
    hide Lru.Valid, Lru.ReverseExact, Lru.Entries, Lru.Pairs, PutSpec, IndexedValues, GetKeySpec, After;
    var lru := new Lru<int, int>(2);
    FirstPut(1, 7, lru.valueToElement.Keys);
    lru.Put(1, 7);
    SecondPut(lru.valueToElement.Keys);
    lru.Put(2, 7);
    ThirdPut(lru.valueToElement.Keys);
    lru.Put(3, 8);
    assert lru.Entries() == [(3, 8), (2, 7)];
    r := lru.GetKeyFromValue(7);
    SharedEntries();
  }

  /** Another: a key put again with another value. The index does not learn the new one. */
  method ReplacedValueLost() returns (r: Option<int>)
    ensures r == None
    ensures GetKeySpec(After(2, [PutOp(1, 7), PutOp(1, 8)]), 8).0 == Some(1)
  {
    hide Lru.Valid, Lru.ReverseExact, Lru.Entries, Lru.Pairs, PutSpec, IndexedValues, GetKeySpec, After;
    var lru := new Lru<int, int>(2);
    FirstPut(1, 7, lru.valueToElement.Keys);
    lru.Put(1, 7);
    PutAgain(lru.valueToElement.Keys);
    lru.Put(1, 8);
    r := lru.GetKeyFromValue(8);
    ReplacedEntries();
  }

  lemma FirstPut(k: int, v: int, known: set<int>)
    ensures PutSpec<int, int>(2, [], k, v) == [(k, v)]
    ensures IndexedValues<int, int>(2, [], known, k, v) == known + {v}
  {
  }

  lemma SecondPut(known: set<int>)
    ensures PutSpec(2, [(1, 7)], 2, 7) == [(2, 7), (1, 7)]
    ensures IndexedValues(2, [(1, 7)], known, 2, 7) == known + {7}
  {
    assert Keys([(1, 7)]) == [1];
    assert Index([1], 2) == 1;
  }

  lemma ThirdPut(known: set<int>)
    ensures PutSpec(2, [(2, 7), (1, 7)], 3, 8) == [(3, 8), (2, 7)]
    ensures IndexedValues(2, [(2, 7), (1, 7)], known, 3, 8) == known + {8} - {7}
  {
    var es := [(2, 7), (1, 7)];
    assert Keys(es) == [2, 1];
    assert Index([2, 1], 3) == 2;
    assert ([(3, 8)] + es)[2] == (1, 7);
  }

  lemma PutAgain(known: set<int>)
    ensures PutSpec(2, [(1, 7)], 1, 8) == [(1, 8)] && IndexedValues(2, [(1, 7)], known, 1, 8) == known
  {
    assert Keys([(1, 7)]) == [1];
  }

  lemma SharedEntries()
    ensures After(2, [PutOp(1, 7), PutOp(2, 7), PutOp(3, 8)]) == [(3, 8), (2, 7)]
    ensures GetKeySpec([(3, 8), (2, 7)], 7).0 == Some(2)
  {
    var ops: seq<Op<int, int>> := [PutOp(1, 7), PutOp(2, 7), PutOp(3, 8)];
    assert ops[..2] == [PutOp(1, 7), PutOp(2, 7)] && ops[..2][..1] == [PutOp(1, 7)] && ops[..1][..0] == [];
    hide PutSpec, GetKeySpec;
    FirstPut(1, 7, {});
    SecondPut({});
    ThirdPut({});
    assert After(2, ops[..1]) == [(1, 7)];
    assert After(2, ops[..2]) == [(2, 7), (1, 7)];
    SharedLookup();
  }

  lemma SharedLookup()
    ensures GetKeySpec([(3, 8), (2, 7)], 7).0 == Some(2)
  {
    assert Values([(3, 8), (2, 7)]) == [8, 7];
    assert Index([8, 7], 7) == 1;
  }

  lemma ReplacedEntries()
    ensures After(2, [PutOp(1, 7), PutOp(1, 8)]) == [(1, 8)] && GetKeySpec([(1, 8)], 8).0 == Some(1)
  {
    var ops: seq<Op<int, int>> := [PutOp(1, 7), PutOp(1, 8)];
    assert ops[..1] == [PutOp(1, 7)] && ops[..1][..0] == [];
    FirstPut(1, 7, {});
    PutAgain({});
    hide PutSpec;
    assert After(2, ops[..1]) == [(1, 7)];
    assert Values([(1, 8)]) == [8];
  }

  // ---- what the recency list means ----

  /** The keys used, in order: every Put, and every lookup that found something. */
  function Used<K(==), V(==)>(capacity: int, ops: seq<Op<K, V>>): seq<K>
    decreases |ops|
  {
    if ops == [] then []
    else
      var init := ops[..|ops| - 1];
      var es := After(capacity, init);
      Used(capacity, init) + match ops[|ops| - 1]
        case GetOp(k) => if Index(Keys(es), k) < |es| then [k] else []
        case PutOp(k, _) => [k]
        case ReverseOp(v) => if Index(Values(es), v) < |es| then [es[Index(Values(es), v)].0] else []
  }

  function Without<T(==)>(s: seq<T>, x: T): seq<T> {
    if s == [] then [] else if s[0] == x then Without(s[1..], x) else [s[0]] + Without(s[1..], x)
  }

  /** Distinct keys, most recently used first. */
  function Recent<T(==)>(used: seq<T>): seq<T>
    decreases |used|
  {
    if used == [] then [] else [used[|used| - 1]] + Without(Recent(used[..|used| - 1]), used[|used| - 1])
  }

  function Top<T>(n: int, s: seq<T>): (r: seq<T>) {
    if n <= 0 then [] else s[..Min(n, |s|)]
  }

  lemma {:induction false} WithoutMissing<T>(s: seq<T>, x: T)
    requires x !in s
    ensures Without(s, x) == s
  {
    if s != [] { WithoutMissing(s[1..], x); }
  }

  lemma {:induction false} WithoutAt<T>(s: seq<T>, i: nat)
    requires i < |s| && NoDup(s)
    ensures Without(s, s[i]) == s[..i] + s[i + 1..]
  {
    if i == 0 {
      assert s[0] !in s[1..];
      WithoutMissing(s[1..], s[0]);
    } else {
      var t := s[1..];
      assert s[0] != s[i] && t[i - 1] == s[i];
      WithoutAt(t, i - 1);
      assert Without(s, s[i]) == [s[0]] + (t[..i - 1] + t[i..]);
      assert s[..i] == [s[0]] + t[..i - 1] && s[i + 1..] == t[i..];
    }
  }

  lemma WithoutDistinct<T>(s: seq<T>, x: T)
    requires NoDup(s)
    ensures NoDup(Without(s, x)) && x !in Without(s, x)
  {
    hide Without;
    if x in s {
      var i :| 0 <= i < |s| && s[i] == x;
      WithoutAt(s, i);
    } else {
      WithoutMissing(s, x);
    }
  }

  lemma {:induction false} RecentDistinct<T>(used: seq<T>)
    ensures NoDup(Recent(used))
    decreases |used|
  {
    hide Without;
    if used != [] {
      RecentDistinct(used[..|used| - 1]);
      WithoutDistinct(Recent(used[..|used| - 1]), used[|used| - 1]);
    }
  }

  lemma RecentSnoc<T>(used: seq<T>, x: T)
    ensures Recent(used + [x]) == [x] + Without(Recent(used), x)
  {
    assert (used + [x])[..|used|] == used;
  }

  /** Using a key that is among the n most recent moves it to the front of them. */
  lemma UseHeld<T>(n: int, r: seq<T>, i: nat)
    requires NoDup(r) && i < |Top(n, r)|
    ensures Top(n, [r[i]] + Without(r, r[i])) == ToFront(Top(n, r), i)
  {
    hide Without, NoDup;
    WithoutAt(r, i);
    var m: nat := Min(n, |r|);
    var top := r[..m];
    assert Top(n, r) == top && top[..i] == r[..i] && top[i + 1..] == r[i + 1..m] && top[i] == r[i];
    assert ([r[i]] + (r[..i] + r[i + 1..]))[..m] == [r[i]] + r[..i] + r[i + 1..m];
  }

  /** Using a key that is not among them pushes the least recent out. */
  lemma UseNew<T>(n: int, r: seq<T>, x: T)
    requires NoDup(r) && x !in Top(n, r)
    ensures Top(n, [x] + Without(r, x)) == Top(n, [x] + Top(n, r))
  {
    if x in r {
      var i :| 0 <= i < |r| && r[i] == x;
      WithoutAt(r, i);
      if n > 0 {
        var m: nat := Min(n, |r|);
        if i < m { InPrefix(r, i, m); }
        assert Top(n, r) == r[..n];
      }
    } else {
      WithoutMissing(r, x);
      if n > 0 {
        assert Top(n, [x] + r) == Top(n, [x] + Top(n, r));
      }
    }
  }

  /** The cache holds exactly the `capacity` most recently used distinct keys, most recent first. */
  lemma {:induction false} HoldsMostRecent<K, V>(capacity: int, ops: seq<Op<K, V>>)
    ensures Keys(After(capacity, ops)) == Top(capacity, Recent(Used(capacity, ops)))
    decreases |ops|
  {
    if ops != [] {
      var init, op := ops[..|ops| - 1], ops[|ops| - 1];
      HoldsMostRecent(capacity, init);
      RecentDistinct(Used(capacity, init));
      StepHoldsMostRecent(capacity, After(capacity, init), Used(capacity, init), op, Used(capacity, ops));
    }
  }

  lemma StepHoldsMostRecent<K, V>(capacity: int, es: Entries<K, V>, used: seq<K>, op: Op<K, V>, used': seq<K>)
    requires Keys(es) == Top(capacity, Recent(used)) && NoDup(Recent(used))
    requires used' == used + match op
        case GetOp(k) => if Index(Keys(es), k) < |es| then [k] else []
        case PutOp(k, _) => [k]
        case ReverseOp(v) => if Index(Values(es), v) < |es| then [es[Index(Values(es), v)].0] else []
    ensures Keys(StepSpec(capacity, es, op).1) == Top(capacity, Recent(used'))
  {
    hide Recent, Top, Index, Without, ToFront, PutSpec, GetSpec, GetKeySpec;
    var r, ks := Recent(used), Keys(es);
    var hit := match op
      case GetOp(k) => Index(ks, k)
      case PutOp(k, _) => Index(ks, k)
      case ReverseOp(v) => Index(Values(es), v);
    if hit < |es| {
      TopSize(capacity, r);
      RecentSnoc(used, ks[hit]);
      UseHeld(capacity, r, hit);
      HitKeys(capacity, es, op, hit);
    } else if op.PutOp? {
      RecentSnoc(used, op.key);
      assert ks[..|ks|] == ks;
      UseNew(capacity, r, op.key);
      TopSize(capacity, r);
      NewKeys(capacity, es, op);
    } else {
      assert used + [] == used;
      MissKeys(capacity, es, op);
    }
  }

  lemma TopSize<T>(n: int, s: seq<T>)
    ensures |Top(n, s)| <= (if n <= 0 then 0 else n) && Top(n, s) <= s
  {
  }

  lemma HitKeys<K, V>(capacity: int, es: Entries<K, V>, op: Op<K, V>, i: nat)
    requires i < |es| && i == match op
      case GetOp(k) => Index(Keys(es), k)
      case PutOp(k, _) => Index(Keys(es), k)
      case ReverseOp(v) => Index(Values(es), v)
    ensures Keys(StepSpec(capacity, es, op).1) == ToFront(Keys(es), i)
  {
    hide Index;
    assert Keys(ToFront(es, i)) == ToFront(Keys(es), i);
    if op.PutOp? {
      assert Keys([(op.key, op.value)] + es[..i] + es[i + 1..]) == ToFront(Keys(es), i);
    }
  }

  lemma NewKeys<K, V>(capacity: int, es: Entries<K, V>, op: Op<K, V>)
    requires op.PutOp? && Index(Keys(es), op.key) == |es| && |es| <= (if capacity <= 0 then 0 else capacity)
    ensures Keys(StepSpec(capacity, es, op).1) == Top(capacity, [op.key] + Keys(es))
  {
    hide Index;
    var grown := [(op.key, op.value)] + es;
    assert Keys(grown) == [op.key] + Keys(es);
    assert Keys(grown[..|grown| - 1]) == Keys(grown)[..|grown| - 1];
  }

  lemma MissKeys<K, V>(capacity: int, es: Entries<K, V>, op: Op<K, V>)
    requires (op.GetOp? && Index(Keys(es), op.k) == |es|) || (op.ReverseOp? && Index(Values(es), op.v) == |es|)
    ensures StepSpec(capacity, es, op).1 == es
  {
  }

  // ---- which values are found ----

  /** The value last put for a key. */
  function LastPut<K(==), V>(ops: seq<Op<K, V>>, key: K): Option<V>
    decreases |ops|
  {
    if ops == [] then None
    else
      var op := ops[|ops| - 1];
      if op.PutOp? && op.key == key then Some(op.value) else LastPut(ops[..|ops| - 1], key)
  }

  /** Every entry holds the value last put for its key. */
  lemma {:induction false} HoldsLastPut<K, V>(capacity: int, ops: seq<Op<K, V>>)
    ensures forall e :: e in After(capacity, ops) ==> LastPut(ops, e.0) == Some(e.1)
    decreases |ops|
  {
    if ops != [] {
      var init, op := ops[..|ops| - 1], ops[|ops| - 1];
      HoldsLastPut(capacity, init);
      KeysDistinct(capacity, init);
      StepValues(capacity, After(capacity, init), op);
    }
  }

  lemma KeysDistinct<K, V>(capacity: int, ops: seq<Op<K, V>>)
    ensures NoDup(Keys(After(capacity, ops)))
  {
    hide After, Used, Recent;
    HoldsMostRecent(capacity, ops);
    RecentDistinct(Used(capacity, ops));
  }

  lemma StepValues<K, V>(capacity: int, es: Entries<K, V>, op: Op<K, V>)
    requires NoDup(Keys(es))
    ensures forall e :: e in StepSpec(capacity, es, op).1 ==>
              if op.PutOp? && e.0 == op.key then e.1 == op.value else e in es
  {
    hide NoDup;
    if op.PutOp? {
      PutValues(capacity, es, op.key, op.value);
    } else {
      hide PutSpec;
    }
  }

  lemma PutValues<K, V>(capacity: int, es: Entries<K, V>, key: K, value: V)
    requires NoDup(Keys(es))
    ensures forall e :: e in PutSpec(capacity, es, key, value) ==> if e.0 == key then e.1 == value else e in es
  {
    var i := Index(Keys(es), key);
    assert forall j :: 0 <= j < |es| ==> Keys(es)[j] == es[j].0;
    if i < |es| {
      assert forall j :: 0 <= j < |es| && j != i ==> es[j].0 != key;
    } else {
      assert key !in Keys(es)[..|es|] && Keys(es)[..|es|] == Keys(es);
      assert forall j :: 0 <= j < |es| ==> es[j].0 != key by {
        forall j | 0 <= j < |es| ensures es[j].0 != key { assert Keys(es)[j] in Keys(es); }
      }
    }
  }

  /** A lookup finds a key exactly when it is among the most recently used ones, and then the value last put for it. */
  lemma GetFindsExactly<K, V>(capacity: int, ops: seq<Op<K, V>>, key: K)
    ensures GetSpec(After(capacity, ops), key).0
         == if key in Top(capacity, Recent(Used(capacity, ops))) then LastPut(ops, key) else None
  {
    hide After, Used, Recent, Top;
    var es := After(capacity, ops);
    HoldsMostRecent(capacity, ops);
    HoldsLastPut(capacity, ops);
    var i := Index(Keys(es), key);
    if i < |es| {
      assert Keys(es)[i] == key && es[i] in es;
    } else {
      assert Keys(es)[..|es|] == Keys(es);
    }
  }

  /**
   * A reverse lookup by the recency list finds a key exactly when some entry holds the value, and then one that
   * does.
   */
  lemma GetKeyFindsExactly<K, V>(es: Entries<K, V>, value: V)
    ensures GetKeySpec(es, value).0.Some? <==> exists i :: 0 <= i < |es| && es[i].1 == value
    ensures GetKeySpec(es, value).0.Some? ==> (GetKeySpec(es, value).0.value, value) in es
  {
    var i := Index(Values(es), value);
    if i < |es| {
      assert Values(es)[i] == es[i].1 == value;
    } else {
      assert Values(es)[..|es|] == Values(es);
      forall j | 0 <= j < |es| ensures es[j].1 != value { assert Values(es)[j] in Values(es); }
    }
  }
}
