/**
 * The current-session handoff of remoteConnectionRuntime (app/webrtc/webrtc.go): setCurrent,
 * clearCurrent, Close and waitForSession under every interleaving. Each locked region is one step;
 * setCurrent and clearCurrent close the old notify channel in a later step, outside the lock.
 */
module Handoff {
  import opened Basics

  /** `serial` numbers the setCurrent calls; the source stores it modulo 2^64 as the generation. */
  datatype TransportSession = TransportSession(serial: nat)

  const GENERATIONS := 0x1_0000_0000_0000_0000

  function Generation(s: TransportSession): nat {
    s.serial % GENERATIONS
  }

  datatype Waiter =
    | Looking                                                   // about to take the lock
    | Waiting(notify: nat)                                      // saw no session and captured this channel
    | Returned(session: TransportSession)
    | GaveUp                                                    // context done

  /** Channels are numbered in the order they are made; `closes[n]` counts how often channel n was closed. */
  datatype State = State(
    current: Option<TransportSession>,
    serial: nat,
    notify: nat,
    closes: seq<nat>,
    closers: seq<nat>,                                          // channels to be closed after an unlock
    waiters: seq<Waiter>)

  datatype Step =
    | Set                                                       // the locked part of setCurrent
    | Clear(generation: nat)                                    // the locked part of clearCurrent
    | CloseOld(who: nat)                                        // close(oldNotify), after the unlock
    | CloseRuntime                                              // Close, which closes under the lock
    | Look(w: nat)
    | Wake(w: nat)
    | GiveUp(w: nat)
    | Arrive                                                    // a new caller of waitForSession

  predicate Enabled(s: State, e: Step) {
    match e
    case CloseOld(i) => i < |s.closers|
    case Look(w) => w < |s.waiters| && s.waiters[w].Looking?
    case Wake(w) => w < |s.waiters| && s.waiters[w].Waiting? && s.waiters[w].notify < |s.closes|
      && s.closes[s.waiters[w].notify] > 0
    case GiveUp(w) => w < |s.waiters| && s.waiters[w].Waiting?
    case _ => true
  }

  /** A fresh notify channel. */
  function Renew(s: State): State {
    s.(notify := |s.closes|, closes := s.closes + [0])
  }

  function Next(s: State, e: Step): State
    requires Enabled(s, e) && s.notify < |s.closes| && forall i :: 0 <= i < |s.closers| ==> s.closers[i] < |s.closes|
  {
    match e
    case Set => Renew(s).(current := Some(TransportSession(s.serial + 1)), serial := s.serial + 1,
      closers := s.closers + [s.notify])
    case Clear(g) =>
      if s.current.Some? && Generation(s.current.value) == g
        then Renew(s).(current := None, closers := s.closers + [s.notify])
      else s
    case CloseOld(i) =>
      s.(closes := s.closes[s.closers[i] := s.closes[s.closers[i]] + 1], closers := s.closers[..i] + s.closers[i + 1..])
    case CloseRuntime => Renew(s.(current := None, closes := s.closes[s.notify := s.closes[s.notify] + 1]))
    case Look(w) =>
      s.(waiters := s.waiters[w := if s.current.Some? then Returned(s.current.value) else Waiting(s.notify)])
    case Wake(w) => s.(waiters := s.waiters[w := Looking])
    case GiveUp(w) => s.(waiters := s.waiters[w := GaveUp])
    case Arrive => s.(waiters := s.waiters + [Looking])
  }

  function Start(): State {
    State(None, 0, 0, [0], [], [])
  }

  function Count(s: seq<nat>, n: nat): nat {
    multiset(s)[n]
  }

  /**
   * Every channel but the current one has been closed or is about to be, once in all; the current one
   * neither; and a waiter holds the current channel only while there is no session.
   */
  predicate Inv(s: State) {
    && s.notify == |s.closes| - 1
    && (forall i :: 0 <= i < |s.closers| ==> s.closers[i] < s.notify)
    && (forall n :: 0 <= n < |s.closes| ==> s.closes[n] + Count(s.closers, n) == if n == s.notify then 0 else 1)
    && (s.current.Some? ==> s.current.value.serial <= s.serial)
    && (forall w :: 0 <= w < |s.waiters| && s.waiters[w].Waiting? ==>
          s.waiters[w].notify <= s.notify && (s.waiters[w].notify == s.notify ==> s.current.None?))
  }

  lemma RenewKeeps(s: State, s': State, extra: seq<nat>)
    requires Inv(s) && extra <= [s.notify]
    requires s'.closes == s.closes[s.notify := 1 - |extra|] + [0] && s'.notify == |s.closes|
    requires s'.closers == s.closers + extra && s'.waiters == s.waiters
    requires s'.current.Some? ==> s'.current.value.serial <= s'.serial
    ensures Inv(s')
  {
    assert s.closes[s.notify] == 0;
    forall n | 0 <= n < |s'.closes| ensures s'.closes[n] + Count(s'.closers, n) == if n == s'.notify then 0 else 1 {
      assert multiset(s'.closers) == multiset(s.closers) + multiset(extra);
      assert extra == [] || extra == [s.notify];
      if n == s'.notify {
        if n in s'.closers { var i :| 0 <= i < |s'.closers| && s'.closers[i] == n; }
      }
    }
    assert forall i :: 0 <= i < |s'.closers| ==> s'.closers[i] < s'.notify;
  }

  lemma CloseOldKeeps(s: State, i: nat)
    requires Inv(s) && i < |s.closers|
    ensures Inv(Next(s, CloseOld(i)))
  {
    var s' := Next(s, CloseOld(i));
    var ch := s.closers[i];
    assert s.closers == s.closers[..i] + [ch] + s.closers[i + 1..];
    assert multiset(s.closers) == multiset(s'.closers) + multiset{ch};
  }

  lemma NextKeepsInv(s: State, e: Step)
    requires Inv(s) && Enabled(s, e)
    ensures Inv(Next(s, e))
  {
    match e
    case Set => RenewKeeps(s, Next(s, e), [s.notify]);
    case Clear(g) => if Next(s, e) != s { RenewKeeps(s, Next(s, e), [s.notify]); }
    case CloseRuntime => RenewKeeps(s, Next(s, e), []);
    case CloseOld(i) => CloseOldKeeps(s, i);
    case _ =>
  }

  /** `run` starts fresh and each state follows from the one before by the step in between. */
  predicate IsRun(run: seq<State>, steps: seq<Step>) {
    && |run| == |steps| + 1 && run[0] == Start()
    && forall i :: 0 <= i < |steps| ==>
         && run[i].notify < |run[i].closes|
             && (forall j :: 0 <= j < |run[i].closers| ==> run[i].closers[j] < |run[i].closes|)
         && Enabled(run[i], steps[i]) && run[i + 1] == Next(run[i], steps[i])
  }

  lemma {:induction false} RunKeepsInv(run: seq<State>, steps: seq<Step>, i: nat)
    requires IsRun(run, steps) && i < |run|
    ensures Inv(run[i])
  {
    if i > 0 {
      RunKeepsInv(run, steps, i - 1);
      NextKeepsInv(run[i - 1], steps[i - 1]);
    }
  }

  /** Closing a closed channel panics; no channel is ever closed twice. */
  lemma ClosedAtMostOnce(run: seq<State>, steps: seq<Step>, i: nat, n: nat)
    requires IsRun(run, steps) && i < |run| && n < |run[i].closes|
    ensures run[i].closes[n] <= 1
  {
    RunKeepsInv(run, steps, i);
  }

  /**
   * No lost wake-up. A waiter that saw no session either still holds the channel that the next setCurrent
   * will close, and there is no session now, or its channel is closed, or exactly one closer is due to close it.
   */
  lemma WaiterCannotMiss(run: seq<State>, steps: seq<Step>, i: nat, w: nat)
    requires IsRun(run, steps) && i < |run| && w < |run[i].waiters| && run[i].waiters[w].Waiting?
    ensures var s := run[i]; var ch := s.waiters[w].notify;
            && ch < |s.closes|
            && (s.current.Some? ==> ch != s.notify)
            && (ch == s.notify ==> s.current.None? && s.closes[ch] == 0 && Count(s.closers, ch) == 0)
            && (ch != s.notify ==> s.closes[ch] + Count(s.closers, ch) == 1)
  {
    RunKeepsInv(run, steps, i);
  }

  /**
   * A clear on behalf of session `old` removes the current session exactly when both carry the same
   * generation; unless 2^64 sessions lie between them, that is when they are the same session.
   */
  lemma ClearRemovesExactly(s: State, old_: TransportSession)
    requires Inv(s) && s.current.Some? && old_.serial <= s.current.value.serial
    ensures Next(s, Clear(Generation(old_))).current.None? <==>
        (s.current.value.serial - old_.serial) % GENERATIONS == 0
    ensures s.current.value.serial - old_.serial < GENERATIONS ==>
            (Next(s, Clear(Generation(old_))).current.None? <==> old_ == s.current.value)
  {
    var a, b := old_.serial, s.current.value.serial;
    assert a == GENERATIONS * (a / GENERATIONS) + a % GENERATIONS;
    assert b == GENERATIONS * (b / GENERATIONS) + b % GENERATIONS;
  }

  // ---- which session a waiter gets ----

  lemma RunStep(run: seq<State>, steps: seq<Step>, i: nat)
    requires IsRun(run, steps) && i < |steps|
    ensures Enabled(run[i], steps[i]) && run[i].notify < |run[i].closes|
    ensures forall j :: 0 <= j < |run[i].closers| ==> run[i].closers[j] < |run[i].closes|
    ensures run[i + 1] == Next(run[i], steps[i])
  {
  }

  /** A waiter that looks returns if and only if there is a session, and then with the one that is current. */
  lemma LookReturnsCurrent(run: seq<State>, steps: seq<Step>, i: nat, w: nat)
    requires IsRun(run, steps) && i < |steps| && steps[i] == Look(w)
    ensures w < |run[i].waiters| == |run[i + 1].waiters|
    ensures run[i + 1].waiters[w].Returned? <==> run[i].current.Some?
    ensures run[i].current.Some? ==> run[i + 1].waiters[w].session == run[i].current.value
    ensures run[i].current.None? ==> run[i + 1].waiters[w] == Waiting(run[i].notify)
  {
    RunStep(run, steps, i);
  }

  /** How many sessions have been set before state i. */
  function SetsBefore(steps: seq<Step>, i: nat): nat
    requires i <= |steps|
  {
    if i == 0 then 0 else SetsBefore(steps, i - 1) + if steps[i - 1].Set? then 1 else 0
  }

  lemma {:induction false} SerialCounts(run: seq<State>, steps: seq<Step>, i: nat)
    requires IsRun(run, steps) && i < |run|
    ensures run[i].serial == SetsBefore(steps, i)
    ensures run[i].current.Some? ==> 1 <= run[i].current.value.serial <= run[i].serial
  {
    if i > 0 {
      SerialCounts(run, steps, i - 1);
      RunStep(run, steps, i - 1);
    }
  }

  lemma {:induction false} SetsGrow(steps: seq<Step>, i: nat, j: nat)
    requires i <= j <= |steps|
    ensures SetsBefore(steps, i) <= SetsBefore(steps, j)
    decreases j
  {
    if i < j { SetsGrow(steps, i, j - 1); }
  }

  /** Set makes a session current that no earlier state had: not as its current one, nor in the hands of a waiter. */
  lemma SetMakesNew(run: seq<State>, steps: seq<Step>, i: nat, j: nat)
    requires IsRun(run, steps) && i < |steps| && steps[i].Set? && j <= i
    ensures run[i + 1].current.Some? && run[j].current != run[i + 1].current
    ensures forall w :: 0 <= w < |run[j].waiters| && run[j].waiters[w].Returned? ==>
              run[j].waiters[w].session != run[i + 1].current.value
  {
    RunStep(run, steps, i);
    SerialCounts(run, steps, i);
    SerialCounts(run, steps, j);
    SetsGrow(steps, j, i);
    forall w | 0 <= w < |run[j].waiters| && run[j].waiters[w].Returned?
      ensures run[j].waiters[w].session != run[i + 1].current.value
    {
      var n := ReturnedWasCurrent(run, steps, j, w);
      SerialCounts(run, steps, n);
      SetsGrow(steps, n, i);
    }
  }

  /** Whatever session a waiter has returned with was the current one in an earlier state. */
  lemma {:induction false} ReturnedWasCurrent(run: seq<State>, steps: seq<Step>, i: nat, w: nat) returns (n: nat)
    requires IsRun(run, steps) && i < |run| && w < |run[i].waiters| && run[i].waiters[w].Returned?
    ensures n < i && run[n].current == Some(run[i].waiters[w].session)
    decreases i
  {
    var before, step := run[i - 1], steps[i - 1];
    RunStep(run, steps, i - 1);
    if w < |before.waiters| && before.waiters[w].Returned? {
      n := ReturnedWasCurrent(run, steps, i - 1, w);
    } else {
      LookReturnsCurrent(run, steps, i - 1, w);
      n := i - 1;
    }
  }

  /** And it was made by exactly one Set: that session is current only between it and the next change. */
  lemma {:induction false} CurrentWasSet(run: seq<State>, steps: seq<Step>, i: nat) returns (n: nat)
    requires IsRun(run, steps) && i < |run| && run[i].current.Some?
    ensures n < i && steps[n].Set? && run[n + 1].current == run[i].current
    ensures forall j :: 0 <= j <= n ==> run[j].current != run[i].current
    decreases i
  {
    RunStep(run, steps, i - 1);
    if steps[i - 1].Set? {
      n := i - 1;
    } else {
      n := CurrentWasSet(run, steps, i - 1);
    }
    forall j | 0 <= j <= n ensures run[j].current != run[i].current {
      SetMakesNew(run, steps, n, j);
    }
  }

  /** Close leaves no session behind. */
  lemma CloseDropsSession(run: seq<State>, steps: seq<Step>, i: nat)
    requires IsRun(run, steps) && i < |steps| && steps[i].CloseRuntime?
    ensures run[i + 1].current.None? && run[i + 1].closes[run[i].notify] == 1
  {
    RunKeepsInv(run, steps, i);
    RunStep(run, steps, i);
  }

  // ---- a waiter's own steps ----

  /** What step e makes of waiter w. */
  predicate Moves(s: State, e: Step, w: nat, before: Waiter, after: Waiter) {
    if e == Look(w) then after == if s.current.Some? then Returned(s.current.value) else Waiting(s.notify)
    else if e == Wake(w) then before.Waiting? && after == Looking
    else if e == GiveUp(w) then before.Waiting? && after == GaveUp
    else after == before
  }

  /** A waiter is moved by its own steps only: it wakes to look again, and gives up only when it says so. */
  lemma WaiterMoves(run: seq<State>, steps: seq<Step>, i: nat, w: nat)
    requires IsRun(run, steps) && i < |steps| && w < |run[i].waiters|
    ensures w < |run[i + 1].waiters| && Moves(run[i], steps[i], w, run[i].waiters[w], run[i + 1].waiters[w])
  {
    RunStep(run, steps, i);
  }

  /** A waiter whose channel is closed while there is a session gets that session by its next two steps. */
  lemma WokenWaiterReturns(s: State, w: nat)
    requires Inv(s) && w < |s.waiters| && s.waiters[w].Waiting? && s.closes[s.waiters[w].notify] == 1 && s.current.Some?
    ensures Enabled(s, Wake(w)) && Inv(Next(s, Wake(w))) && Enabled(Next(s, Wake(w)), Look(w))
    ensures Next(Next(s, Wake(w)), Look(w)).waiters[w] == Returned(s.current.value)
  {
    NextKeepsInv(s, Wake(w));
  }
}
