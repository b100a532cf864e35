/** Least-load selection (app/router/strategy_leastload.go). */
module LeastLoad {
  import opened Basics

  datatype Node = Node(tag: string, countAll: int, countFail: int, average: int, deviation: int, cost: int)

  // ---- order ----

  /** Go's string order: by the first differing byte, a prefix first. */
  predicate TagLess(a: string, b: string)
    decreases |a|
  {
    b != [] && (a == [] || a[0] < b[0] || (a[0] == b[0] && TagLess(a[1..], b[1..])))
  }

  /** What the comparator looks at: all of a node but its deviation. */
  datatype Rank = Rank(cost: int, average: int, countFail: int, countAll: int, tag: string)

  function RankOf(n: Node): Rank {
    Rank(n.cost, n.average, n.countFail, n.countAll, n.tag)
  }

  /**
   * The comparator of leastloadSort: lower cost, then lower average, then fewer failures, then more checks,
   * then tag.
   */
  predicate RankLess(l: Rank, r: Rank) {
    if l.cost != r.cost then l.cost < r.cost
    else if l.average != r.average then l.average < r.average
    else if l.countFail != r.countFail then l.countFail < r.countFail
    else if l.countAll != r.countAll then l.countAll > r.countAll
    else TagLess(l.tag, r.tag)
  }

  predicate Less(l: Node, r: Node) {
    RankLess(RankOf(l), RankOf(r))
  }

  lemma {:induction false} TagOrder(a: string, b: string, c: string)
    ensures !TagLess(a, a)
    ensures TagLess(a, b) && TagLess(b, c) ==> TagLess(a, c)
    ensures TagLess(a, b) || TagLess(b, a) || a == b
    decreases |a| + |b| + |c|
  {
    if a != [] && b != [] && c != [] {
      TagOrder(a[1..], b[1..], c[1..]);
      assert a == [a[0]] + a[1..] && b == [b[0]] + b[1..];
    } else if a != [] && b != [] {
      TagOrder(a[1..], b[1..], c);
      assert a == [a[0]] + a[1..] && b == [b[0]] + b[1..];
    } else if a != [] {
      TagOrder(a[1..], b, c);
    }
  }

  /** The comparator is a strict order, and total on nodes of different tags: it never takes two of them for equal. */
  lemma StrictTotalOrder(a: Node, b: Node, c: Node)
    ensures !Less(a, a)
    ensures Less(a, b) && Less(b, c) ==> Less(a, c)
    ensures Less(a, b) || Less(b, a) <==> RankOf(a) != RankOf(b)
    ensures a.tag != b.tag ==> Less(a, b) || Less(b, a)
  {
    TagOrder(a.tag, b.tag, c.tag);
  }

  predicate Sorted(nodes: seq<Node>) {
    forall i, j :: 0 <= i < j < |nodes| ==> !Less(nodes[j], nodes[i])
  }

  predicate DistinctTags(nodes: seq<Node>) {
    forall i, j :: 0 <= i < j < |nodes| ==> nodes[i].tag != nodes[j].tag
  }

  function Ranks(nodes: seq<Node>): (r: seq<Rank>)
    ensures |r| == |nodes|
  {
    seq(|nodes|, i requires 0 <= i < |nodes| => RankOf(nodes[i]))
  }

  /**
   * Sorting by it has only one result, whatever algorithm does it, in everything the comparator looks at;
   * and only one result altogether when the nodes have distinct tags.
   */
  lemma SortedIsUnique(a: seq<Node>, b: seq<Node>)
    requires Sorted(a) && Sorted(b) && multiset(a) == multiset(b)
    ensures Ranks(a) == Ranks(b)
    ensures DistinctTags(a) ==> a == b
  {
    hide RankLess;
    RanksMultiset(a, b);
    RanksUnique(Ranks(a), Ranks(b));
    if DistinctTags(a) {
      forall i | 0 <= i < |a| ensures a[i] == b[i] {
        assert Ranks(a)[i] == Ranks(b)[i];
        assert b[i] in multiset(a);
        var j :| 0 <= j < |a| && a[j] == b[i];
      }
    }
  }

  predicate RanksSorted(s: seq<Rank>) {
    forall i, j :: 0 <= i < j < |s| ==> !RankLess(s[j], s[i])
  }

  lemma {:induction false} RanksUnique(a: seq<Rank>, b: seq<Rank>)
    requires RanksSorted(a) && RanksSorted(b) && multiset(a) == multiset(b)
    ensures a == b
    decreases |a|
  {
    hide RankLess;
    assert |a| == |multiset(a)| && |b| == |multiset(b)|;
    if a != [] {
      SameHead(a, b);
      TailMultiset(a);
      TailMultiset(b);
      assert a == [a[0]] + a[1..] && b == [b[0]] + b[1..];
      RanksUnique(a[1..], b[1..]);
    }
  }

  lemma TailMultiset<T>(a: seq<T>)
    requires a != []
    ensures multiset(a[1..]) == multiset(a) - multiset{a[0]}
  {
    assert a == [a[0]] + a[1..];
  }

  lemma SameHead(a: seq<Rank>, b: seq<Rank>)
    requires RanksSorted(a) && RanksSorted(b) && multiset(a) == multiset(b) && a != [] && b != []
    ensures a[0] == b[0]
  {
    hide RankLess;
    assert a[0] in multiset(b) && b[0] in multiset(a);
    var i :| 0 <= i < |b| && b[i] == a[0];
    var j :| 0 <= j < |a| && a[j] == b[0];
    RankTotal(a[0], b[0]);
  }

  lemma RankTotal(a: Rank, b: Rank)
    ensures RankLess(a, b) || RankLess(b, a) || a == b
  {
    TagOrder(a.tag, b.tag, a.tag);
  }

  lemma RanksAppend(a: seq<Node>, b: seq<Node>)
    ensures Ranks(a + b) == Ranks(a) + Ranks(b)
  {
  }

  lemma TakeOut<T>(a: seq<T>, x: T, b: seq<T>)
    ensures multiset(a + [x] + b) == multiset(a + b) + multiset{x}
  {
    assert multiset(a + [x] + b) == multiset(a) + multiset{x} + multiset(b);
  }

  lemma Cancel<T>(m: multiset<T>, n: multiset<T>, x: T)
    requires m + multiset{x} == n + multiset{x}
    ensures m == n
  {
    assert m == (m + multiset{x}) - multiset{x};
    assert n == (n + multiset{x}) - multiset{x};
  }

  lemma RanksInsert(b: seq<Node>, x: Node, c: seq<Node>)
    ensures multiset(Ranks(b + [x] + c)) == multiset(Ranks(b + c)) + multiset{RankOf(x)}
  {
    hide Ranks;
    RanksAppend(b, c);
    RanksAppend(b + [x], c);
    RanksAppend(b, [x]);
    RankOne(x);
    TakeOut(Ranks(b), RankOf(x), Ranks(c));
  }

  /** A list with x taken out at some place. */
  lemma Split<T>(s: seq<T>, x: T) returns (b: seq<T>, c: seq<T>)
    requires x in s
    ensures s == b + [x] + c && multiset(s) == multiset(b + c) + multiset{x} && |s| == |b + c| + 1
  {
    var i :| 0 <= i < |s| && s[i] == x;
    b, c := s[..i], s[i + 1..];
    assert s == b + [x] + c;
    TakeOut(b, x, c);
  }

  lemma SameElements<T>(a: seq<T>, b: seq<T>)
    requires multiset(a) == multiset(b)
    ensures |a| == |b| && (a != [] ==> a[0] in a && a[0] in b)
  {
    assert |a| == |multiset(a)| && |b| == |multiset(b)|;
    if a != [] { assert a[0] in multiset(b); }
  }

  /** Permuted nodes have permuted ranks. */
  lemma {:induction false} RanksMultiset(a: seq<Node>, b: seq<Node>)
    requires multiset(a) == multiset(b)
    ensures multiset(Ranks(a)) == multiset(Ranks(b)) && |a| == |b|
    decreases |a|
  {
    hide Ranks;
    SameElements(a, b);
    if a != [] {
      var x := a[0];
      var a1, a2 := Split(a, x);
      var b1, b2 := Split(b, x);
      Cancel(multiset(a1 + a2), multiset(b1 + b2), x);
      RanksMultiset(a1 + a2, b1 + b2);
      RanksInsert(a1, x, a2);
      RanksInsert(b1, x, b2);
    }
  }

  lemma RankOne(x: Node)
    ensures Ranks([x]) == [RankOf(x)]
  {
  }

  // ---- selection ----

  /** How many leading nodes are cheaper than the baseline, counting on from `count`. */
  function Cheaper(nodes: seq<Node>, baseline: int, count: nat): (r: nat)
    requires count <= |nodes|
    ensures count <= r <= |nodes|
    decreases |nodes| - count
  {
    if count < |nodes| && nodes[count].cost < baseline then Cheaper(nodes, baseline, count + 1) else count
  }

  /** Nodes cheaper than b, wherever they are. */
  function CountBelow(nodes: seq<Node>, b: int): nat {
    if nodes == [] then 0 else (if nodes[0].cost < b then 1 else 0) + CountBelow(nodes[1..], b)
  }

  function Largest(bs: seq<int>): int
    requires bs != []
    decreases |bs|
  {
    if |bs| == 1 then bs[0]
    else
      var m := Largest(bs[..|bs| - 1]);
      if bs[|bs| - 1] > m then bs[|bs| - 1] else m
  }

  /** Baselines the scan tries: up to and including the first whose count reaches the expected one. */
  predicate Tries(nodes: seq<Node>, baselines: seq<int>, expected: int, tried: nat) {
    && 1 <= tried <= |baselines|
    && (forall t :: 1 <= t < tried ==> CountBelow(nodes, Largest(baselines[..t])) < expected)
    && (tried < |baselines| ==> CountBelow(nodes, Largest(baselines[..tried])) >= expected)
  }

  lemma {:induction false} SortedByCost(nodes: seq<Node>, i: nat, j: nat)
    requires Sorted(nodes) && i <= j < |nodes|
    ensures nodes[i].cost <= nodes[j].cost
  {
    if i < j { assert !Less(nodes[j], nodes[i]); }
  }

  /** On sorted nodes the first k are exactly the cheap ones when k is where the cost first reaches the baseline. */
  lemma {:induction false} CountOfPrefix(nodes: seq<Node>, b: int, k: nat)
    requires k <= |nodes|
    requires forall i :: 0 <= i < k ==> nodes[i].cost < b
    requires forall i :: k <= i < |nodes| ==> nodes[i].cost >= b
    ensures CountBelow(nodes, b) == k
    decreases |nodes|
  {
    if nodes != [] {
      CountOfPrefix(nodes[1..], b, if k == 0 then 0 else k - 1);
    }
  }

  /** selectLeastLoad: how many of the nodes, from the front, are selected. */
  method SelectLeastLoad(nodes: seq<Node>, expectedSetting: int, baselines: seq<int>)
    returns (r: seq<Node>, ghost tried: nat)
    requires Sorted(nodes)
    ensures r <= nodes
    ensures expectedSetting > 0 ==> |r| >= Min(expectedSetting, |nodes|)
    ensures nodes == [] || expectedSetting > |nodes| ==> r == nodes
    ensures 0 < |nodes| && expectedSetting <= |nodes| && baselines == [] ==>
        |r| == if expectedSetting <= 0 then 1 else expectedSetting
    ensures 0 < |nodes| && expectedSetting <= |nodes| && baselines != [] ==>
      var expected := if expectedSetting <= 0 then 1 else expectedSetting;
      && Tries(nodes, baselines, expected, tried)
      && var count := CountBelow(nodes, Largest(baselines[..tried]));
         |r| == if expectedSetting > 0 && count < expected then expected else count
  {
    tried := 0;
    if |nodes| == 0 {
      return [], 0;
    }
    if expectedSetting > |nodes| {
      return nodes, 0;
    }
    var expected := if expectedSetting <= 0 then 1 else expectedSetting;
    if |baselines| == 0 {
      return nodes[..expected], 0;
    }
    var count, t := 0, 0;
    while t < |baselines|
      invariant 0 <= t <= |baselines| && count <= |nodes|
      invariant t > 0 ==> CountBelow(nodes, Largest(baselines[..t])) == count < expected
      invariant t > 0 ==> PrefixBelow(nodes, Largest(baselines[..t]), count)
      invariant t == 0 ==> count == 0
      invariant forall u :: 1 <= u <= t ==> CountBelow(nodes, Largest(baselines[..u])) < expected
    {
      var was := count;
      count := Scan(nodes, baselines[t], count);
      LargestNext(baselines, t);
      ScanReaches(nodes, baselines, t, was, count);
      t := t + 1;
      if count >= expected {
        break;
      }
    }
    tried := t;
    r := nodes[..if expectedSetting > 0 && count < expected then expected else count];
  }

  ghost predicate PrefixBelow(nodes: seq<Node>, b: int, k: nat)
  {
    k <= |nodes| && (forall i :: 0 <= i < k ==> nodes[i].cost < b)
      && (forall i :: k <= i < |nodes| ==> nodes[i].cost >= b)
  }

  /** The inner loop. */
  method Scan(nodes: seq<Node>, baseline: int, from: nat) returns (count: nat)
    requires from <= |nodes|
    ensures count == Cheaper(nodes, baseline, from)
  {
    count := from;
    var i := from;
    while i < |nodes|
      invariant i == count <= |nodes| && Cheaper(nodes, baseline, from) == Cheaper(nodes, baseline, i)
    {
      if nodes[i].cost >= baseline {
        break;
      }
      count := i + 1;
      i := i + 1;
    }
  }

  lemma LargestNext(bs: seq<int>, t: nat)
    requires t < |bs|
    ensures t == 0 ==> Largest(bs[..1]) == bs[0]
    ensures t > 0 ==> Largest(bs[..t + 1]) == if bs[t] > Largest(bs[..t]) then bs[t] else Largest(bs[..t])
  {
    if t > 0 { assert bs[..t + 1][..t] == bs[..t]; }
  }

  lemma {:induction false} CheaperExact(nodes: seq<Node>, b: int, from: nat)
    requires from <= |nodes| && Sorted(nodes)
    ensures var k := Cheaper(nodes, b, from);
            && (forall i :: from <= i < k ==> nodes[i].cost < b)
            && (forall i :: k <= i < |nodes| ==> k == from || nodes[i].cost >= b)
            && (k < |nodes| ==> nodes[k].cost >= b)
    decreases |nodes| - from
  {
    var k := Cheaper(nodes, b, from);
    if from < |nodes| && nodes[from].cost < b {
      CheaperExact(nodes, b, from + 1);
    }
    forall i | k <= i < |nodes| && k < |nodes| ensures nodes[k].cost <= nodes[i].cost {
      SortedByCost(nodes, k, i);
    }
  }

  /** After baseline t the count is the number of nodes cheaper than the largest baseline so far. */
  lemma ScanReaches(nodes: seq<Node>, bs: seq<int>, t: nat, was: nat, count: nat)
    requires Sorted(nodes) && t < |bs| && was <= |nodes| && count == Cheaper(nodes, bs[t], was)
    requires t == 0 ==> was == 0
    requires t > 0 ==> PrefixBelow(nodes, Largest(bs[..t]), was)
    ensures PrefixBelow(nodes, Largest(bs[..t + 1]), count)
    ensures CountBelow(nodes, Largest(bs[..t + 1])) == count
  {
    LargestNext(bs, t);
    CheaperExact(nodes, bs[t], was);
    var b := Largest(bs[..t + 1]);
    forall i | count <= i < |nodes| ensures nodes[i].cost >= b {
      if count < |nodes| { SortedByCost(nodes, count, i); }
    }
    CountOfPrefix(nodes, b, count);
  }

  // ---- what the order means ----

  /** A tag comes before another when they first differ in a smaller character, or when it is the beginning of it. */
  lemma {:induction false} TagLessExactly(a: string, b: string)
    ensures TagLess(a, b) <==>
              || a < b
              || exists k :: 0 <= k < |a| && k < |b| && a[..k] == b[..k] && a[k] < b[k]
    decreases |a|
  {
    if a != [] && b != [] {
      TagLessExactly(a[1..], b[1..]);
      if a[0] == b[0] {
        SameFirst(a, b);
      } else if a[0] < b[0] {
        assert a[..0] == b[..0];
      } else {
        assert forall k :: 0 < k < |a| && k < |b| ==> a[..k][0] != b[..k][0];
      }
    }
  }

  lemma SameFirst(a: string, b: string)
    requires a != [] && b != [] && a[0] == b[0]
    ensures a < b <==> a[1..] < b[1..]
    ensures (exists k :: 0 <= k < |a| && k < |b| && a[..k] == b[..k] && a[k] < b[k])
       <==> (exists k :: 0 <= k < |a[1..]| && k < |b[1..]| && a[1..][..k] == b[1..][..k] && a[1..][k] < b[1..][k])
  {
    var a', b' := a[1..], b[1..];
    assert a == [a[0]] + a' && b == [b[0]] + b';
    if k :| 0 <= k < |a| && k < |b| && a[..k] == b[..k] && a[k] < b[k] {
      assert a[..k][1..] == a'[..k - 1] && b[..k][1..] == b'[..k - 1];
      assert a'[k - 1] < b'[k - 1];
    }
    if k :| 0 <= k < |a'| && k < |b'| && a'[..k] == b'[..k] && a'[k] < b'[k] {
      assert a[..k + 1] == [a[0]] + a'[..k] && b[..k + 1] == [b[0]] + b'[..k];
      assert a[k + 1] < b[k + 1];
    }
  }

  /**
   * On sorted nodes the costs do not fall; among nodes of equal cost the averages do not fall, then the
   * failures do not, then the checks do not rise, and then the tags do not come later before earlier.
   */
  lemma SortedMeans(nodes: seq<Node>, i: nat, j: nat)
    requires Sorted(nodes) && i < j < |nodes|
    ensures var l, r := nodes[i], nodes[j];
            && l.cost <= r.cost
            && (l.cost == r.cost ==> l.average <= r.average)
            && (l.cost == r.cost && l.average == r.average ==> l.countFail <= r.countFail)
            && (l.cost == r.cost && l.average == r.average && l.countFail == r.countFail ==> l.countAll >= r.countAll)
            && (RankOf(l).(tag := "") == RankOf(r).(tag := "") ==> TagLess(l.tag, r.tag) || l.tag == r.tag)
  {
    assert !Less(nodes[j], nodes[i]);
    TagOrder(nodes[i].tag, nodes[j].tag, nodes[i].tag);
  }

  /** The count is the number of positions with a cost below the baseline. */
  lemma {:induction false} CountBelowIs(nodes: seq<Node>, b: int)
    ensures CountBelow(nodes, b) == |set i | 0 <= i < |nodes| && nodes[i].cost < b|
    decreases |nodes|
  {
    var all := set i | 0 <= i < |nodes| && nodes[i].cost < b;
    if nodes != [] {
      var n := |nodes| - 1;
      var init := nodes[..n];
      CountBelowIs(init, b);
      CountBelowSnoc(init, nodes[n], b);
      assert nodes == init + [nodes[n]];
      var some := set i | 0 <= i < |init| && init[i].cost < b;
      assert all == some + if nodes[n].cost < b then {n} else {};
    }
  }

  lemma {:induction false} CountBelowSnoc(nodes: seq<Node>, x: Node, b: int)
    ensures CountBelow(nodes + [x], b) == CountBelow(nodes, b) + if x.cost < b then 1 else 0
    decreases |nodes|
  {
    if nodes == [] {
      assert (nodes + [x])[1..] == [];
    } else {
      assert (nodes + [x])[1..] == nodes[1..] + [x];
      CountBelowSnoc(nodes[1..], x, b);
    }
  }

  /** The largest baseline is one of them, and none exceeds it. */
  lemma {:induction false} LargestIs(bs: seq<int>)
    requires bs != []
    ensures Largest(bs) in bs && forall i :: 0 <= i < |bs| ==> bs[i] <= Largest(bs)
    decreases |bs|
  {
    if |bs| > 1 {
      var n := |bs| - 1;
      LargestIs(bs[..n]);
      assert bs == bs[..n] + [bs[n]];
    }
  }
}
