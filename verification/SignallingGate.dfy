/**
 * When the client lists its candidates (app/webrtc/webrtc.go): the send gate, from the run alone. Nothing here is
 * stated through the gate's own fields.
 */
module SignallingGate {
  import opened Basics
  import opened Signalling

  /** At step i the loop, its drain done, builds and sends a request. */
  predicate Sends(run: seq<Sys>, events: seq<Event>, i: nat) {
    i < |events| && i < |run| && run[i].client.phase.DrainToSend? && events[i].OnLoop? && events[i].l.NothingMore?
  }

  /** At step i the loop, its drain done, decides what to do after a response. */
  predicate Decides(run: seq<Sys>, events: seq<Event>, i: nat) {
    i < |events| && i < |run| && run[i].client.phase.DrainToDecide? && events[i].OnLoop? && events[i].l.NothingMore?
  }

  /** It decides on a response that asks to stop, with the answer applied: this starts the countdown. */
  predicate Starts(run: seq<Sys>, events: seq<Event>, i: nat) {
    Decides(run, events, i) && run[i].client.last.resp.stop && run[i].client.answerApplied
  }

  /** By time t the holdback is over: half a second has passed since some such decision among the first n steps. */
  predicate Over(run: seq<Sys>, events: seq<Event>, n: nat, t: int) {
    exists j: nat :: j < n && Starts(run, events, j) && t >= run[j].now + 500
  }

  // ---- the gate's fields ----

  /** The gate has been started by the first such decision, at its time. */
  ghost predicate GateInv(run: seq<Sys>, events: seq<Event>, n: nat)
    requires n < |run|
  {
    var g := run[n].client.gate;
    && g.enabled == run[0].client.gate.enabled
    && (g.enabled && g.started ==>
          && (exists j: nat :: j < n && Starts(run, events, j) && g.releaseAt == run[j].now + 500)
          && (forall j: nat :: j < n && Starts(run, events, j) ==> g.releaseAt <= run[j].now + 500))
    && (g.enabled && !g.started ==> forall j: nat :: j < n ==> !Starts(run, events, j))
  }

  lemma StepOf(run: seq<Sys>, events: seq<Event>, i: nat)
    requires IsRun(run, events) && i < |events|
    ensures Indexed(run[i].acceptor) && Enabled(run[i], events[i]) && run[i + 1] == Step(run[i], events[i])
  {
  }

  /** The clock does not go back. */
  lemma {:induction false} ClockGrows(run: seq<Sys>, events: seq<Event>, i: nat, j: nat)
    requires IsRun(run, events) && i <= j < |run|
    ensures run[i].now <= run[j].now
    decreases j
  {
    if i < j {
      ClockGrows(run, events, i, j - 1);
      StepOf(run, events, j - 1);
      StepClock(run[j - 1], events[j - 1]);
    }
  }

  lemma StepClock(s: Sys, e: Event)
    requires Indexed(s.acceptor) && Enabled(s, e)
    ensures s.now <= Step(s, e).now
  {
    hide OnResponse, Receive, AddNext;
  }

  /** Only a decision on a stop response touches the gate. */
  lemma StepGate(s: Sys, e: Event)
    requires Indexed(s.acceptor) && Enabled(s, e)
    ensures var c := s.client;
            var starts := && c.phase.DrainToDecide? && e.OnLoop? && e.l.NothingMore? && c.last.resp.stop
                && c.answerApplied;
            Step(s, e).client.gate == if starts then StartCountdown(c.gate, s.now) else c.gate
  {
    hide Receive, AddNext, Fresh, Adds;
  }

  lemma {:induction false} GateHolds(run: seq<Sys>, events: seq<Event>, n: nat)
    requires IsRun(run, events) && n < |run|
    ensures GateInv(run, events, n)
  {
    hide IsRun, Step, Enabled, Indexed;
    StartsShut(run, events);
    if n > 0 {
      var i := n - 1;
      GateHolds(run, events, i);
      StepOf(run, events, i);
      StepGate(run[i], events[i]);
      if Starts(run, events, i) {
        Started(run, events, i);
      } else {
        assert run[n].client.gate == run[i].client.gate;
      }
    }
  }

  lemma StartsShut(run: seq<Sys>, events: seq<Event>)
    requires IsRun(run, events)
    ensures |run| == |events| + 1 && !run[0].client.gate.started
  {
  }

  /** A decision that starts the countdown, or finds it running. */
  lemma Started(run: seq<Sys>, events: seq<Event>, i: nat)
    requires IsRun(run, events) && i + 1 < |run| && Starts(run, events, i) && GateInv(run, events, i)
    requires run[i + 1].client.gate == StartCountdown(run[i].client.gate, run[i].now)
    ensures GateInv(run, events, i + 1)
  {
    hide IsRun;
    var g, g' := run[i].client.gate, run[i + 1].client.gate;
    if g.enabled {
      if g.started {
        var j: nat :| j < i && Starts(run, events, j) && g.releaseAt == run[j].now + 500;
        ClockGrows(run, events, j, i);
      } else {
        assert g'.releaseAt == run[i].now + 500;
      }
    }
  }

  /** The gate is open exactly when it is off or the holdback is over. */
  lemma OpenExactly(run: seq<Sys>, events: seq<Event>, n: nat, t: int)
    requires IsRun(run, events) && n < |run|
    ensures AllowSend(run[n].client.gate, t) <==> !run[0].client.gate.enabled || Over(run, events, n, t)
  {
    GateHolds(run, events, n);
  }

  // ---- theorems ----

  /**
   * What a request lists, in every run. With the workaround off, the whole local list of that moment. With it
   * on, nothing before half a second has passed since the client first decided on a stop response with the
   * answer applied, and the whole list from then on.
   */
  lemma RequestListsExactly(run: seq<Sys>, events: seq<Event>, i: nat)
    requires IsRun(run, events) && Sends(run, events, i)
    ensures var c := run[i].client;
            var listed := if !run[0].client.gate.enabled || Over(run, events, i, run[i].now) then c.local.list else [];
            run[i + 1].requests == run[i].requests + [Request(c.tag, c.id, c.offer, listed)]
  {
    StepOf(run, events, i);
    OpenExactly(run, events, i, run[i].now);
  }

  /** No other step sends anything. */
  lemma OnlySendsSend(run: seq<Sys>, events: seq<Event>, i: nat)
    requires IsRun(run, events) && i < |events| && !Sends(run, events, i)
    ensures run[i + 1].requests == run[i].requests
  {
    hide OnResponse, Receive, AddNext;
    StepOf(run, events, i);
  }

  /**
   * What the client does after a response: it goes on polling after a pause unless it was told to stop, has the
   * answer and the holdback, if any, is over by then; otherwise it sends again at once if it has listed less
   * than it knows, and else waits for more candidates or the end of gathering.
   */
  lemma DecisionExactly(run: seq<Sys>, events: seq<Event>, i: nat)
    requires IsRun(run, events) && Decides(run, events, i)
    ensures var c, later := run[i].client, events[i].l.later;
            var told := c.last.resp.stop && c.answerApplied;
            var open := !run[0].client.gate.enabled || Over(run, events, i + 1, later);
            run[i + 1].client.phase
              == if !told || !open then Sleeping else if |c.local.list| > |c.pending| then DrainToSend else ResumeDrain
  {
    hide GateInv;
    StepOf(run, events, i);
    OpenExactly(run, events, i + 1, events[i].l.later);
  }

  /** Strictly between steps i and n the client has paused, or decided on a stop response with the answer applied. */
  predicate PausedOrTold(run: seq<Sys>, events: seq<Event>, i: nat, n: nat) {
    exists m: nat :: i < m < n && m < |run| && (run[m].client.phase.Sleeping? || Starts(run, events, m))
  }

  /**
   * Polling is paced: between two requests the client has slept, or it was told to stop and had the answer,
   * which is when it sends at once what it had not listed. So no failed, empty or inconclusive exchange is
   * repeated without a pause.
   */
  lemma SendsAreSpaced(run: seq<Sys>, events: seq<Event>, i: nat, j: nat)
    requires IsRun(run, events) && i < j && Sends(run, events, i) && Sends(run, events, j)
    ensures PausedOrTold(run, events, i, j)
  {
    SinceSend(run, events, i, j);
  }

  lemma {:induction false} SinceSend(run: seq<Sys>, events: seq<Event>, i: nat, n: nat)
    requires IsRun(run, events) && i < n < |run| && Sends(run, events, i)
    ensures var p := run[n].client.phase;
            || PausedOrTold(run, events, i, n)
            || p.Awaiting? || p.DrainToDecide? || p.Sleeping? || p.Failed? || p.Cancelled?
    decreases n
  {
    hide IsRun, Step, Enabled, Indexed;
    RunLength(run, events);
    StepOf(run, events, n - 1);
    var s, e := run[n - 1], events[n - 1];
    PhaseAfter(s, e);
    if n > i + 1 {
      SinceSend(run, events, i, n - 1);
      if PausedOrTold(run, events, i, n - 1) {
        var m: nat :| i < m < n - 1 && m < |run| && (run[m].client.phase.Sleeping? || Starts(run, events, m));
        assert PausedOrTold(run, events, i, n);
      } else if s.client.phase.Sleeping? || Starts(run, events, n - 1) {
        assert PausedOrTold(run, events, i, n);
      }
    }
  }

  lemma RunLength(run: seq<Sys>, events: seq<Event>)
    requires IsRun(run, events)
    ensures |run| == |events| + 1
  {
  }

  /** Where the loop can be after a step, from where it waits for a response or decides on one. */
  lemma PhaseAfter(s: Sys, e: Event)
    requires Indexed(s.acceptor) && Enabled(s, e)
    ensures var p, p' := s.client.phase, Step(s, e).client.phase;
            && (p.DrainToSend? && e.OnLoop? && e.l.NothingMore? ==> p' == Awaiting)
            && (p.Awaiting? ==> p' in {Awaiting, Sleeping, DrainToDecide, Failed, Cancelled})
            && (p.DrainToDecide? ==>
                  || p' in {DrainToDecide, Sleeping, Cancelled}
                  || (e.OnLoop? && e.l.NothingMore? && s.client.last.resp.stop && s.client.answerApplied))
            && (p.Failed? || p.Cancelled? ==> p' in {Failed, Cancelled})
  {
    hide OnResponse, Receive, AddNext;
    if e.OnLoop? && e.l.Respond? { ResponseGoesOn(s.client, s.responses[e.l.i]); }
  }

  lemma ResponseGoesOn(c: Client, e: Envelope)
    ensures OnResponse(c, e).phase == DrainToDecide
  {
  }
}
