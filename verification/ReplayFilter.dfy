/** The two-pool replay filter (common/antireplay/replayfilter.go) over any set filter without false negatives. */
module ReplayFilters {
  import opened Basics

  type Sum = Bytes

  /** A set filter: an empty pool, InsertUnique, and what a pool is sure to recognise. */
  datatype Filter<!P> = Filter(empty: P, insertUnique: (P, Sum) -> (bool, P), holds: (P, Sum) -> bool)

  /** What was inserted is refused until the pool is reset; false positives and refused insertions are allowed. */
  ghost predicate NoFalseNegatives<P(!new)>(f: Filter<P>) {
    && (forall p, x :: f.insertUnique(p, x).0 ==> f.holds(f.insertUnique(p, x).1, x))
    && (forall p, x :: f.holds(p, x) ==> !f.insertUnique(p, x).0)
    && (forall p, x, y :: f.holds(p, x) ==> f.holds(f.insertUnique(p, y).1, x))
  }

  datatype State<P> = State(poolA: P, poolB: P, poolSwap: bool, lastSwap: int)

  /** First use sets the pools up; after an interval the older pool is reset and the roles swap. */
  function Refresh<P>(f: Filter<P>, s: State<P>, interval: int, now: int): State<P> {
    var s1 := if s.lastSwap == 0 then State(f.empty, f.empty, s.poolSwap, now) else s;
    if now - s1.lastSwap >= interval then
      var s2 := if s1.poolSwap then s1.(poolA := f.empty) else s1.(poolB := f.empty);
      s2.(poolSwap := !s1.poolSwap, lastSwap := now)
    else s1
  }

  /** Check: accepted only if both pools take the sum; the second is not asked when the first refuses. */
  function CheckSpec<P>(f: Filter<P>, s: State<P>, interval: int, x: Sum, now: int): (bool, State<P>) {
    var r := Refresh(f, s, interval, now);
    var (okA, a) := f.insertUnique(r.poolA, x);
    if !okA then (false, r.(poolA := a))
    else
      var (okB, b) := f.insertUnique(r.poolB, x);
      (okB, r.(poolA := a, poolB := b))
  }

  class ReplayFilter<P(!new)> {
    const f: Filter<P>
    const interval: int
    var poolA: P
    var poolB: P
    var poolSwap: bool
    var lastSwap: int

    constructor (f: Filter<P>, interval: int)
      ensures this.f == f && this.interval == interval && View() == State(f.empty, f.empty, false, 0)
    {
      this.f, this.interval := f, interval;
      poolA, poolB, poolSwap, lastSwap := f.empty, f.empty, false, 0;
    }

    ghost function View(): State<P>
      reads this
    {
      State(poolA, poolB, poolSwap, lastSwap)
    }

    method Check(sum: Sum, now: int) returns (ok: bool)
      modifies this
      ensures (ok, View()) == CheckSpec(f, old(View()), interval, sum, now)
    {
      if lastSwap == 0 {
        lastSwap := now;
        poolA, poolB := f.empty, f.empty;
      }
      var elapsed := now - lastSwap;
      if elapsed >= interval {
        if poolSwap {
          poolA := f.empty;
        } else {
          poolB := f.empty;
        }
        poolSwap := !poolSwap;
        lastSwap := now;
      }
      var (okA, a) := f.insertUnique(poolA, sum);
      poolA := a;
      if !okA {
        return false;
      }
      var (okB, b) := f.insertUnique(poolB, sum);
      poolB := b;
      return okB;
    }
  }

  // ---- runs ----

  datatype Attempt = Attempt(sum: Sum, now: int)

  function After<P>(f: Filter<P>, interval: int, run: seq<Attempt>): State<P>
    decreases |run|
  {
    if run == [] then State(f.empty, f.empty, false, 0)
    else
      var last := run[|run| - 1];
      CheckSpec(f, After(f, interval, run[..|run| - 1]), interval, last.sum, last.now).1
  }

  /** Whether the i-th check of the run succeeds. */
  function Accepted<P>(f: Filter<P>, interval: int, run: seq<Attempt>, i: nat): bool
    requires i < |run|
  {
    CheckSpec(f, After(f, interval, run[..i]), interval, run[i].sum, run[i].now).0
  }

  /** The clock is positive and never goes back. */
  predicate Clocked(run: seq<Attempt>) {
    && (forall i :: 0 <= i < |run| ==> run[i].now > 0)
    && (forall i, j :: 0 <= i < j < |run| ==> run[i].now <= run[j].now)
  }

  /** The pool that the next swap will reset. */
  function NextReset<P>(s: State<P>): P {
    if s.poolSwap then s.poolA else s.poolB
  }

  /**
   * x, accepted at time t, is still guarded: it is in both pools, or a swap since t left it in the one to be
   * reset next.
   */
  predicate Guarded<P>(f: Filter<P>, s: State<P>, x: Sum, t: int) {
    && s.lastSwap > 0
    && ((f.holds(s.poolA, x) && f.holds(s.poolB, x)) || (f.holds(NextReset(s), x) && s.lastSwap >= t))
  }

  lemma GuardedRefuses<P(!new)>(f: Filter<P>, s: State<P>, interval: int, x: Sum, t: int, y: Sum, now: int)
    requires NoFalseNegatives(f) && Guarded(f, s, x, t) && t <= now < t + interval
    ensures Guarded(f, CheckSpec(f, s, interval, y, now).1, x, t)
    ensures y == x ==> !CheckSpec(f, s, interval, y, now).0
  {
    var r := Refresh(f, s, interval, now);
    assert Guarded(f, r, x, t);
  }

  lemma {:induction false} SwapTimes<P>(f: Filter<P>, interval: int, run: seq<Attempt>)
    requires Clocked(run)
    ensures run == [] ==> After(f, interval, run).lastSwap == 0
    ensures run != [] ==> 0 < After(f, interval, run).lastSwap <= run[|run| - 1].now
    decreases |run|
  {
    if run != [] {
      SwapTimes(f, interval, run[..|run| - 1]);
    }
  }

  lemma {:induction false} StaysGuarded<P(!new)>(f: Filter<P>, interval: int, run: seq<Attempt>, i: nat, j: nat)
    requires NoFalseNegatives(f) && Clocked(run) && i < j <= |run| && Accepted(f, interval, run, i)
    requires forall k :: i < k < j ==> run[k].now < run[i].now + interval
    ensures Guarded(f, After(f, interval, run[..j]), run[i].sum, run[i].now)
    decreases j
  {
    assert run[..j][..j - 1] == run[..j - 1];
    if j == i + 1 {
      SwapTimes(f, interval, run[..j]);
      assert Clocked(run[..j]);
    } else {
      StaysGuarded(f, interval, run, i, j - 1);
      GuardedRefuses(f, After(f, interval, run[..j - 1]), interval, run[i].sum, run[i].now, run[j - 1].sum,
        run[j - 1].now);
    }
  }

  /** The replay window: a sum accepted at time t is refused by every check before t + interval. */
  lemma RefusedWithinInterval<P(!new)>(f: Filter<P>, interval: int, run: seq<Attempt>, i: nat, j: nat)
    requires NoFalseNegatives(f) && Clocked(run) && i < j < |run|
    requires Accepted(f, interval, run, i) && run[j].sum == run[i].sum && run[j].now < run[i].now + interval
    ensures !Accepted(f, interval, run, j)
  {
    StaysGuarded(f, interval, run, i, j);
    GuardedRefuses(f, After(f, interval, run[..j]), interval, run[i].sum, run[i].now, run[j].sum, run[j].now);
  }

  // ---- what is accepted ----

  /** The filter starts empty, holds only what was inserted, and refuses only what it holds. */
  ghost predicate NoFalsePositives<P(!new)>(f: Filter<P>) {
    && (forall x :: !f.holds(f.empty, x))
    && (forall p, x, y :: f.holds(f.insertUnique(p, x).1, y) ==> f.holds(p, y) || x == y)
    && (forall p, x :: !f.holds(p, x) ==> f.insertUnique(p, x).0)
  }

  /** The checks at which the pools swap: an interval or more after the last swap, or after the first check. */
  function Swaps(interval: int, run: seq<Attempt>): (r: seq<nat>)
    ensures forall i :: 0 <= i < |r| ==> r[i] < |run|
    decreases |run|
  {
    if run == [] then []
    else
      var n := |run| - 1;
      var before := Swaps(interval, run[..n]);
      if run[n].now - SwapTime(run, before) >= interval then before + [n] else before
  }

  function SwapTime(run: seq<Attempt>, swaps: seq<nat>): int
    requires run != [] && forall i :: 0 <= i < |swaps| ==> swaps[i] < |run|
  {
    if swaps == [] then run[0].now else run[swaps[|swaps| - 1]].now
  }

  /** From which check on the pool reset last, and the other one, can hold anything. */
  function Newest(swaps: seq<nat>): nat {
    if swaps == [] then 0 else swaps[|swaps| - 1]
  }

  function Oldest(swaps: seq<nat>): nat {
    if |swaps| < 2 then 0 else swaps[|swaps| - 2]
  }

  /** The pool holds no sum but those of the checks from `from` on. */
  ghost predicate OnlySince<P>(f: Filter<P>, pool: P, run: seq<Attempt>, from: nat) {
    forall x :: f.holds(pool, x) ==> exists j :: from <= j < |run| && run[j].sum == x
  }

  /** The pool that the last swap reset. */
  function LastReset<P>(s: State<P>): P {
    if s.poolSwap then s.poolB else s.poolA
  }

  /** What the pools can hold, and when they swapped. */
  ghost predicate Remembers<P>(f: Filter<P>, s: State<P>, run: seq<Attempt>, swaps: seq<nat>) {
    && OnlySince(f, LastReset(s), run, Newest(swaps)) && OnlySince(f, NextReset(s), run, Oldest(swaps))
    && (forall i :: 0 <= i < |swaps| ==> swaps[i] < |run|)
    && Ascending(swaps) && s.lastSwap == if run == [] then 0 else SwapTime(run, swaps)
  }

  lemma GrowsSince<P>(f: Filter<P>, pool: P, run: seq<Attempt>, from: nat, a: Attempt)
    requires OnlySince(f, pool, run, from)
    ensures OnlySince(f, pool, run + [a], from)
  {
    forall x | f.holds(pool, x) ensures exists j :: from <= j < |run + [a]| && (run + [a])[j].sum == x {
      var j :| from <= j < |run| && run[j].sum == x;
      assert (run + [a])[j].sum == x;
    }
  }

  lemma InsertsSince<P(!new)>(f: Filter<P>, pool: P, run: seq<Attempt>, from: nat, a: Attempt)
    requires NoFalsePositives(f) && OnlySince(f, pool, run, from) && from <= |run|
    ensures OnlySince(f, f.insertUnique(pool, a.sum).1, run + [a], from)
  {
    var pool' := f.insertUnique(pool, a.sum).1;
    GrowsSince(f, pool, run, from, a);
    forall x | f.holds(pool', x) ensures exists j :: from <= j < |run + [a]| && (run + [a])[j].sum == x {
      if !f.holds(pool, x) { assert (run + [a])[|run|].sum == x; }
    }
  }

  /** After the swap, if there is one, both pools hold only what they may by the new list of swaps. */
  lemma RefreshRemembers<P(!new)>(f: Filter<P>, s: State<P>, interval: int, run: seq<Attempt>, a: Attempt,
      swaps: seq<nat>)
    requires NoFalsePositives(f) && a.now > 0 && (run != [] ==> s.lastSwap > 0) && Remembers(f, s, run, swaps)
    requires run == [] ==> swaps == []
    ensures var r := Refresh(f, s, interval, a.now);
            var swaps' := if a.now - SwapTime(run + [a], swaps) >= interval then swaps + [|run|] else swaps;
            && OnlySince(f, LastReset(r), run, Newest(swaps')) && OnlySince(f, NextReset(r), run, Oldest(swaps'))
            && r.lastSwap == SwapTime(run + [a], swaps')
  {
    if swaps != [] { assert (run + [a])[swaps[|swaps| - 1]] == run[swaps[|swaps| - 1]]; }
  }

  lemma CheckRemembers<P(!new)>(f: Filter<P>, s: State<P>, interval: int, run: seq<Attempt>, a: Attempt,
      swaps: seq<nat>)
    requires NoFalsePositives(f) && a.now > 0 && (run != [] ==> s.lastSwap > 0) && Remembers(f, s, run, swaps)
    requires run == [] ==> swaps == []
    ensures var swaps' := if a.now - SwapTime(run + [a], swaps) >= interval then swaps + [|run|] else swaps;
            && Remembers(f, CheckSpec(f, s, interval, a.sum, a.now).1, run + [a], swaps')
            && ((forall j :: Oldest(swaps') <= j < |run| ==> run[j].sum != a.sum) ==>
                  CheckSpec(f, s, interval, a.sum, a.now).0)
  {
    hide OnlySince, NoFalsePositives, Refresh, CheckSpec;
    var r := Refresh(f, s, interval, a.now);
    var swaps' := if a.now - SwapTime(run + [a], swaps) >= interval then swaps + [|run|] else swaps;
    RefreshRemembers(f, s, interval, run, a, swaps);
    var o, n := Oldest(swaps'), Newest(swaps');
    InsertBoth(f, s, interval, run, a, if r.poolSwap then o else n, if r.poolSwap then n else o);
  }

  /** What both pools hold after a check, and that it is accepted when neither had the sum. */
  lemma InsertBoth<P(!new)>(f: Filter<P>, s: State<P>, interval: int, run: seq<Attempt>, a: Attempt, na: nat, nb: nat)
    requires NoFalsePositives(f) && na <= |run| && nb <= |run|
    requires var r := Refresh(f, s, interval, a.now); OnlySince(f, r.poolA, run, na) && OnlySince(f, r.poolB, run, nb)
    ensures var r, (ok, s') := Refresh(f, s, interval, a.now), CheckSpec(f, s, interval, a.sum, a.now);
            && OnlySince(f, s'.poolA, run + [a], na) && OnlySince(f, s'.poolB, run + [a], nb)
            && s'.poolSwap == r.poolSwap && s'.lastSwap == r.lastSwap
            && ((forall j :: (if na <= nb then na else nb) <= j < |run| ==> run[j].sum != a.sum) ==> ok)
  {
    hide OnlySince, NoFalsePositives, Refresh;
    var r := Refresh(f, s, interval, a.now);
    GrowsSince(f, r.poolB, run, nb, a);
    InsertsSince(f, r.poolA, run, na, a);
    InsertsSince(f, r.poolB, run, nb, a);
    if forall j :: (if na <= nb then na else nb) <= j < |run| ==> run[j].sum != a.sum {
      Takes(f, r.poolA, run, na, a.sum);
      Takes(f, r.poolB, run, nb, a.sum);
    }
  }

  predicate Ascending(s: seq<nat>) {
    forall i, j :: 0 <= i < j < |s| ==> s[i] <= s[j]
  }

  /** A pool without the sum takes it. */
  lemma Takes<P(!new)>(f: Filter<P>, pool: P, run: seq<Attempt>, from: nat, x: Sum)
    requires NoFalsePositives(f) && OnlySince(f, pool, run, from)
    requires forall j :: from <= j < |run| ==> run[j].sum != x
    ensures f.insertUnique(pool, x).0
  {
  }

  lemma {:induction false} RunRemembers<P(!new)>(f: Filter<P>, interval: int, run: seq<Attempt>)
    requires NoFalsePositives(f) && Clocked(run)
    ensures Remembers(f, After(f, interval, run), run, Swaps(interval, run))
    decreases |run|
  {
    hide Remembers, NoFalsePositives, CheckSpec, SwapTime, After, Swaps;
    if run == [] {
      StartRemembers(f);
      NothingChecked(f, interval);
    } else {
      var n := |run| - 1;
      var init := run[..n];
      RunRemembers(f, interval, init);
      NothingChecked(f, interval);
      SwapTimes(f, interval, init);
      assert run == init + [run[n]];
      OneMoreCheck(f, interval, init, run[n]);
      CheckRemembers(f, After(f, interval, init), interval, init, run[n], Swaps(interval, init));
    }
  }

  lemma NothingChecked<P>(f: Filter<P>, interval: int)
    ensures After(f, interval, []) == State(f.empty, f.empty, false, 0) && Swaps(interval, []) == []
  {
  }

  lemma OneMoreCheck<P>(f: Filter<P>, interval: int, init: seq<Attempt>, a: Attempt)
    ensures After(f, interval, init + [a]) == CheckSpec(f, After(f, interval, init), interval, a.sum, a.now).1
    ensures var swaps := Swaps(interval, init);
            Swaps(interval, init + [a])
              == if a.now - SwapTime(init + [a], swaps) >= interval then swaps + [|init|] else swaps
  {
    assert (init + [a])[..|init|] == init;
  }

  lemma StartRemembers<P(!new)>(f: Filter<P>)
    requires NoFalsePositives(f)
    ensures Remembers(f, State(f.empty, f.empty, false, 0), [], [])
  {
  }

  /**
   * What the filter forgets. A sum that no check has carried since the swap before the last one, this check's own swap
   * included, is accepted; with fewer than two swaps, one that no check has carried at all.
   */
  lemma FreshIsAccepted<P(!new)>(f: Filter<P>, interval: int, run: seq<Attempt>, i: nat)
    requires NoFalsePositives(f) && Clocked(run) && i < |run|
    requires forall j :: Oldest(Swaps(interval, run[..i + 1])) <= j < i ==> run[j].sum != run[i].sum
    ensures Accepted(f, interval, run, i)
  {
    hide Remembers, NoFalsePositives, CheckSpec, SwapTime, After, Swaps;
    var init := run[..i];
    assert Clocked(init);
    RunRemembers(f, interval, init);
    NothingChecked(f, interval);
    SwapTimes(f, interval, init);
    assert run[..i + 1] == init + [run[i]];
    OneMoreCheck(f, interval, init, run[i]);
    CheckRemembers(f, After(f, interval, init), interval, init, run[i], Swaps(interval, init));
  }

  /** So the first check of any sum is accepted. */
  lemma FirstIsAccepted<P(!new)>(f: Filter<P>, interval: int, run: seq<Attempt>, i: nat)
    requires NoFalsePositives(f) && Clocked(run) && i < |run|
    requires forall j :: 0 <= j < i ==> run[j].sum != run[i].sum
    ensures Accepted(f, interval, run, i)
  {
    hide NoFalsePositives;
    FreshIsAccepted(f, interval, run, i);
  }

  /** A plain set is such a filter, and has no false negatives either. */
  lemma SetsAreFilters()
    ensures var f: Filter<set<Sum>> := Filter({}, (p, x) => (x !in p, p + {x}), (p, x) => x in p);
            NoFalseNegatives(f) && NoFalsePositives(f)
  {
  }

  /** With an interval of 120: x is refused before 120 seconds have passed, and forgotten after two swaps. */
  lemma ForgetsAfterTwoSwaps<P(!new)>(f: Filter<P>, x: Sum, y: Sum)
    requires NoFalseNegatives(f) && NoFalsePositives(f) && x != y
    ensures var run := [Attempt(x, 1000), Attempt(x, 1119), Attempt(y, 1120), Attempt(x, 1240)];
            && Accepted(f, 120, run, 0) && !Accepted(f, 120, run, 1) && Accepted(f, 120, run, 2)
                && Accepted(f, 120, run, 3)
  {
    hide NoFalseNegatives, NoFalsePositives, Accepted;
    var run := [Attempt(x, 1000), Attempt(x, 1119), Attempt(y, 1120), Attempt(x, 1240)];
    FirstIsAccepted(f, 120, run, 0);
    RefusedWithinInterval(f, 120, run, 0, 1);
    FirstIsAccepted(f, 120, run, 2);
    SwapsOf(x, y);
    assert run[..4] == run;
    FreshIsAccepted(f, 120, run, 3);
  }

  lemma SwapsOf(x: Sum, y: Sum)
    ensures Swaps(120, [Attempt(x, 1000), Attempt(x, 1119), Attempt(y, 1120), Attempt(x, 1240)]) == [2, 3]
  {
    var run := [Attempt(x, 1000), Attempt(x, 1119), Attempt(y, 1120), Attempt(x, 1240)];
    assert run[..3][..2] == run[..2] && run[..2][..1] == run[..1] && run[..1][..0] == [];
    assert Swaps(120, run[..1]) == [] && Swaps(120, run[..2]) == [] && Swaps(120, run[..3]) == [2];
  }
}
