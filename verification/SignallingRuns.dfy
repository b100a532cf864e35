/**
 * Runs of the signalling protocol that stop: the completeness theorem is about something, and its exception is
 * needed.
 */
module SignallingRuns {
  import opened Basics
  import opened Signalling

  datatype Trace = Trace(run: seq<Sys>, events: seq<Event>)

  predicate Good(t: Trace) {
    IsRun(t.run, t.events)
  }

  function End(t: Trace): Sys
    requires Good(t)
  {
    t.run[|t.run| - 1]
  }

  predicate Ready(t: Trace, e: Event) {
    Good(t) && Indexed(End(t).acceptor) && Enabled(End(t), e)
  }

  function Then(t: Trace, e: Event): Trace
    requires Ready(t, e)
  {
    Trace(t.run + [Step(End(t), e)], t.events + [e])
  }

  lemma ThenGood(t: Trace, e: Event)
    requires Ready(t, e)
    ensures Good(Then(t, e)) && End(Then(t, e)) == Step(End(t), e)
  {
    var t' := Then(t, e);
    forall i | 0 <= i < |t'.events|
      ensures Indexed(t'.run[i].acceptor) && Enabled(t'.run[i], t'.events[i])
          && t'.run[i + 1] == Step(t'.run[i], t'.events[i])
    {
      if i < |t.events| {
        assert t'.run[i] == t.run[i] && t'.run[i + 1] == t.run[i + 1] && t'.events[i] == t.events[i];
      }
    }
  }

  /** The client gathers x, finishes gathering and sends its request. */
  lemma ClientSends(now: int, tag: Bytes, id: Bytes, offer: Bytes, x: Candidate) returns (t: Trace)
    requires |tag| == TAG_SIZE && id != [] && offer != [] && x != []
    ensures Good(t) && End(t) == Sent(now, tag, id, offer, x)
  {
    hide IsRun;
    var s := Start(now, tag, id, offer, false);
    t := Trace([s], []);
    assert Good(t) && End(t) == s by { StartGood(s); }
    ThenGood(t, OnGather(GatherLocal(x)));
    t := Then(t, OnGather(GatherLocal(x)));
    ThenGood(t, OnLoop(TakeCandidate));
    t := Then(t, OnLoop(TakeCandidate));
    assert End(t) == Gathered(now, tag, id, offer, x);
    t := Asks(t, now, tag, id, offer, x);
  }

  /** The client has read x from its channel. */
  function Gathered(now: int, tag: Bytes, id: Bytes, offer: Bytes, x: Candidate): Sys {
    var s := Start(now, tag, id, offer, false);
    s.(client := s.client.(local := Known([x], {x})), gathering := Gathering([], false, [x], [x], [x], []))
  }

  lemma Asks(t: Trace, now: int, tag: Bytes, id: Bytes, offer: Bytes, x: Candidate) returns (t': Trace)
    requires Good(t) && End(t) == Gathered(now, tag, id, offer, x)
    ensures Good(t') && End(t') == Sent(now, tag, id, offer, x)
  {
    hide IsRun;
    t' := t;
    ThenGood(t', OnGather(GatherLocalDone));
    t' := Then(t', OnGather(GatherLocalDone));
    ThenGood(t', OnLoop(TakeGatheringDone));
    t' := Then(t', OnLoop(TakeGatheringDone));
    ThenGood(t', OnLoop(NothingMore(now)));
    t' := Then(t', OnLoop(NothingMore(now)));
  }

  lemma StartGood(s: Sys)
    requires Initial(s)
    ensures IsRun([s], [])
  {
  }

  function Sent(now: int, tag: Bytes, id: Bytes, offer: Bytes, x: Candidate): Sys {
    var s := Start(now, tag, id, offer, false);
    s.(client := s.client.(phase := Awaiting, local := Known([x], {x}), gatheringDone := true, pending := [x]),
       gathering := Gathering([], true, [x], [x], [x], []),
       requests := [Request(tag, id, offer, [x])])
  }

  /** The acceptor takes the request in and is about to build its response. */
  lemma AcceptorAnswers(now: int, tag: Bytes, id: Bytes, offer: Bytes, sdp: Bytes, x: Candidate) returns (t: Trace)
    requires |tag| == TAG_SIZE && id != [] && offer != [] && x != []
    ensures Good(t)
    ensures End(t) == Sent(now, tag, id, offer, x).(acceptor := Answering(Request(tag, id, offer, [x]), sdp, x))
  {
    hide IsRun;
    t := ClientSends(now, tag, id, offer, x);
    var r := Request(tag, id, offer, [x]);
    assert r in End(t).requests;
    ThenGood(t, OnAcceptor(PollRequest(r, Some(sdp))));
    t := Then(t, OnAcceptor(PollRequest(r, Some(sdp))));
    ThenGood(t, OnAcceptor(AddRemoteCandidate(true)));
    t := Then(t, OnAcceptor(AddRemoteCandidate(true)));
    assert End(t).acceptor.handling == Adding(0, true, [], r);
    ThenGood(t, OnAcceptor(AddRemoteCandidate(true)));
    t := Then(t, OnAcceptor(AddRemoteCandidate(true)));
    var a, a' := End(t).acceptor, Answering(r, sdp, x);
    assert a.objects[0] == a'.objects[0];
    assert a.objects == a'.objects;
    assert a.sessions == a'.sessions;
  }

  /** The acceptor has handled request r, the first of its session, with candidate x, and is about to respond. */
  function Answering(r: Request, sdp: Bytes, x: Candidate): Acceptor {
    var key := SessionKey(r.tag, r.id);
    var o := NewSession(key).(calls := [Offer(r.offer), Add(x)], offers := [r.offer], description := sdp,
                              remote := {x}, received := [x]);
    Acceptor(Queueing(0, r), [o], map[key := 0])
  }

  predicate AtEnd(s: Sys) {
    && Indexed(s.acceptor) && s.client.gatheringDone && !s.client.gate.enabled
    && |s.client.local.list| == |s.client.pending| && s.gathering.channel == []
  }

  /** Nothing is left to send, and the relay has a final response. */
  predicate LastResponse(s: Sys) {
    && AtEnd(s) && |s.responses| == 1 && s.responses[0].resp.stop && s.responses[0].resp.description != []
    && s.client.phase.Awaiting?
  }

  lemma TakesResponse(s: Sys)
    requires LastResponse(s)
    ensures Enabled(s, OnLoop(Respond(0)))
    ensures var s' := Step(s, OnLoop(Respond(0)));
            && AtEnd(s') && s'.client.phase.DrainToDecide? && s'.client.last.resp.stop && s'.client.answerApplied
            && s' == s.(client := s'.client) && s'.client.last == s.responses[0]
            && s'.client.calls == OnResponse(s.client, s.responses[0]).calls
  {
    hide Fresh, Adds;
  }

  lemma Drains(s: Sys)
    requires AtEnd(s) && s.client.last.resp.stop && s.client.answerApplied
    requires s.client.phase.DrainToDecide? || s.client.phase.ResumeDrain?
    ensures Enabled(s, OnLoop(NothingMore(s.now)))
    ensures var s' := Step(s, OnLoop(NothingMore(s.now)));
            && AtEnd(s') && s' == s.(client := s'.client) && s'.client.calls == s.client.calls
            && s'.client.last == s.client.last && s'.client.answerApplied
            && s'.client.phase == if s.client.phase.DrainToDecide? then ResumeDrain else Stopped
  {
  }

  /** The client gets the one response there is, perhaps again, finds nothing more to send and stops. */
  lemma ClientStops(t: Trace) returns (t': Trace)
    requires Good(t) && LastResponse(End(t))
    ensures Good(t') && End(t') == End(t).(client := End(t').client) && End(t').client.phase.Stopped?
    ensures End(t').client.last == End(t).responses[0]
    ensures End(t').client.calls == OnResponse(End(t).client, End(t).responses[0]).calls
  {
    hide IsRun, OnResponse, Step, Enabled, Indexed;
    t' := t;
    TakesResponse(End(t'));
    assert Indexed(End(t').acceptor);
    ThenGood(t', OnLoop(Respond(0)));
    t' := Then(t', OnLoop(Respond(0)));
    Drains(End(t'));
    ThenGood(t', OnLoop(NothingMore(End(t).now)));
    t' := Then(t', OnLoop(NothingMore(End(t).now)));
    Drains(End(t'));
    ThenGood(t', OnLoop(NothingMore(End(t).now)));
    t' := Then(t', OnLoop(NothingMore(End(t).now)));
  }

  /**
   * Both ways of stopping happen. When the acceptor finishes gathering before it responds, the client stops with
   * its candidate y applied. When its peer is connected before y is gathered, the client stops and y is never
   * applied, so completeness towards the client does need the exception.
   */
  lemma StopIsReachable(now: int, tag: Bytes, id: Bytes, offer: Bytes, sdp: Bytes, x: Candidate, y: Candidate,
      early: bool)
    returns (t: Trace)
    requires |tag| == TAG_SIZE && id != [] && offer != [] && sdp != [] && x != [] && y != []
    ensures IsRun(t.run, t.events) && End(t).client.phase.Stopped?
    ensures |End(t).acceptor.objects| == 1 && End(t).acceptor.objects[0].local.list == [y]
    ensures End(t).client.calls == if early then [Answer(sdp)] else [Answer(sdp), Add(y)]
  {
    hide IsRun;
    t := AcceptorAnswers(now, tag, id, offer, sdp, x);
    if early {
      t := RespondEarly(t, y);
    } else {
      t := RespondLate(t, y);
    }
    FirstResponse(End(t).client, End(t).responses[0]);
    t := ClientStops(t);
  }

  lemma FirstResponse(c: Client, e: Envelope)
    requires !c.answerApplied && c.calls == [] && c.waiting == [] && c.remote == {}
    requires e.resp.description != [] && |e.resp.candidates| <= 1
    ensures OnResponse(c, e).calls == [Answer(e.resp.description)] + Adds(e.resp.candidates)
  {
    var cs := e.resp.candidates;
    assert cs != [] ==> cs[..0] == [];
    assert Fresh({}, cs) == cs;
    assert Adds([]) == [];
  }

  predicate AtResponse(s: Sys) {
    && s.acceptor.handling.Queueing? && s.acceptor.handling.queue == 0 && Indexed(s.acceptor)
        && |s.acceptor.objects| == 1 && s.responses == []
    && s.acceptor.objects[0].local == NOTHING && !s.acceptor.objects[0].gatheringDone
  }

  lemma RespondEarly(t: Trace, y: Candidate) returns (t': Trace)
    requires Good(t) && AtResponse(End(t)) && y != []
    ensures Good(t') && End(t') == End(t).(acceptor := End(t').acceptor, responses := End(t').responses)
    ensures Indexed(End(t').acceptor) && |End(t').acceptor.objects| == 1
        && End(t').acceptor.objects[0].local.list == [y]
    ensures |End(t').responses| == 1
        && End(t').responses[0].resp == Response(End(t).acceptor.objects[0].description, [], true)
  {
    hide IsRun;
    t' := t;
    ThenGood(t', OnAcceptor(PeerConnected(0)));
    t' := Then(t', OnAcceptor(PeerConnected(0)));
    ThenGood(t', OnAcceptor(QueueResponse));
    t' := Then(t', OnAcceptor(QueueResponse));
    ThenGood(t', OnAcceptor(GatherRemote(0, y)));
    t' := Then(t', OnAcceptor(GatherRemote(0, y)));
  }

  lemma RespondLate(t: Trace, y: Candidate) returns (t': Trace)
    requires Good(t) && AtResponse(End(t)) && y != []
    ensures Good(t') && End(t') == End(t).(acceptor := End(t').acceptor, responses := End(t').responses)
    ensures Indexed(End(t').acceptor) && |End(t').acceptor.objects| == 1
        && End(t').acceptor.objects[0].local.list == [y]
    ensures |End(t').responses| == 1
        && End(t').responses[0].resp == Response(End(t).acceptor.objects[0].description, [y], true)
  {
    hide IsRun;
    t' := t;
    ThenGood(t', OnAcceptor(GatherRemote(0, y)));
    t' := Then(t', OnAcceptor(GatherRemote(0, y)));
    ThenGood(t', OnAcceptor(GatherRemoteDone(0)));
    t' := Then(t', OnAcceptor(GatherRemoteDone(0)));
    ThenGood(t', OnAcceptor(QueueResponse));
    t' := Then(t', OnAcceptor(QueueResponse));
  }
}
