/** A run of the signalling protocol that stops although a candidate and a request were lost. */
module SignallingLosses {
  import opened Basics
  import opened Signalling
  import opened SignallingRuns

  /** The client asks before it has gathered anything, and the acceptor answers that it is done. */
  function Answered(now: int, r: Request, sdp: Bytes): Sys {
    var s := Start(now, r.tag, r.id, r.offer, false);
    var key := SessionKey(r.tag, r.id);
    var o := NewSession(key).(calls := [Offer(r.offer)], offers := [r.offer], description := sdp,
        gatheringDone := true);
    s.(client := s.client.(phase := Awaiting), requests := [r], acceptor := Acceptor(Idle, [o], map[key := 0]),
       responses := [Envelope(Response(sdp, [], true), 0, false, r)])
  }

  lemma AsksEarly(now: int, r: Request) returns (t: Trace)
    requires |r.tag| == TAG_SIZE && r.id != [] && r.offer != [] && r.candidates == []
    ensures Good(t)
    ensures var s := Start(now, r.tag, r.id, r.offer, false);
            End(t) == s.(client := s.client.(phase := Awaiting), requests := [r])
  {
    hide IsRun;
    var s := Start(now, r.tag, r.id, r.offer, false);
    t := Trace([s], []);
    assert Good(t) && End(t) == s by { StartGood(s); }
    ThenGood(t, OnLoop(CollectTimeout));
    t := Then(t, OnLoop(CollectTimeout));
    ThenGood(t, OnLoop(NothingMore(now)));
    t := Then(t, OnLoop(NothingMore(now)));
  }

  lemma AnswersEarly(now: int, r: Request, sdp: Bytes) returns (t: Trace)
    requires |r.tag| == TAG_SIZE && r.id != [] && r.offer != [] && r.candidates == []
    ensures Good(t) && End(t) == Answered(now, r, sdp)
  {
    hide IsRun;
    t := AsksEarly(now, r);
    assert r in End(t).requests;
    ThenGood(t, OnAcceptor(PollRequest(r, Some(sdp))));
    t := Then(t, OnAcceptor(PollRequest(r, Some(sdp))));
    var o := NewSession(SessionKey(r.tag, r.id)).(calls := [Offer(r.offer)], offers := [r.offer], description := sdp);
    assert End(t).acceptor.objects == [o];
    ThenGood(t, OnAcceptor(AddRemoteCandidate(true)));
    t := Then(t, OnAcceptor(AddRemoteCandidate(true)));
    ThenGood(t, OnAcceptor(GatherRemoteDone(0)));
    t := Then(t, OnAcceptor(GatherRemoteDone(0)));
    ThenGood(t, OnAcceptor(QueueResponse));
    t := Then(t, OnAcceptor(QueueResponse));
    var a := Answered(now, r, sdp).acceptor;
    assert End(t).acceptor.objects == a.objects && End(t).acceptor.sessions == a.sessions;
  }

  /** The channel holds the first k of xs and nothing has been read from it. */
  function Filled(xs: seq<Candidate>, k: nat): Gathering
    requires k <= |xs|
  {
    Gathering(xs[..k], false, xs[..k], [], xs[..k], [])
  }

  lemma {:induction false} GathersAll(t: Trace, xs: seq<Candidate>, k: nat) returns (t': Trace)
    requires Good(t) && k <= |xs| <= CHANNEL_SIZE && Indexed(End(t).acceptor) && End(t).gathering == Filled(xs, k)
    ensures Good(t') && End(t') == End(t).(gathering := Filled(xs, |xs|))
    decreases |xs| - k
  {
    hide IsRun;
    t' := t;
    if k < |xs| {
      ThenGood(t, OnGather(GatherLocal(xs[k])));
      t' := Then(t, OnGather(GatherLocal(xs[k])));
      assert xs[..k] + [xs[k]] == xs[..k + 1];
      t' := GathersAll(t', xs, k + 1);
    }
  }

  /** A full channel: one candidate more is dropped, and gathering ends. */
  lemma DropsOne(t: Trace, xs: seq<Candidate>, y: Candidate) returns (t': Trace)
    requires Good(t) && |xs| == CHANNEL_SIZE && Indexed(End(t).acceptor) && End(t).gathering == Filled(xs, 0)
    ensures Good(t') && End(t') == End(t).(gathering := Gathering(xs, true, xs, [], xs + [y], [y]))
  {
    hide IsRun;
    t' := GathersAll(t, xs, 0);
    assert xs[..|xs|] == xs;
    ThenGood(t', OnGather(GatherLocal(y)));
    t' := Then(t', OnGather(GatherLocal(y)));
    ThenGood(t', OnGather(GatherLocalDone));
    t' := Then(t', OnGather(GatherLocalDone));
  }

  /** The drain has read the first k of xs. */
  predicate HasRead(s: Sys, xs: seq<Candidate>, k: nat) {
    && Indexed(s.acceptor) && k <= |xs| && s.client.phase.DrainToDecide?
    && s.gathering.channel == xs[k..] && s.client.local == Known(xs[..k], set x | x in xs[..k])
  }

  lemma {:induction false} ReadsAll(t: Trace, xs: seq<Candidate>, k: nat) returns (t': Trace)
    requires Good(t) && HasRead(End(t), xs, k) && NoDup(xs) && [] !in xs
    ensures Good(t') && HasRead(End(t'), xs, |xs|)
    ensures End(t') == End(t).(client := End(t).client.(local := End(t').client.local), gathering := End(t').gathering)
    ensures var g := End(t).gathering; End(t').gathering == g.(channel := [], consumed := End(t').gathering.consumed)
    decreases |xs| - k
  {
    hide IsRun;
    t' := t;
    if k < |xs| {
      assert xs[k..][0] == xs[k] && xs[k..][1..] == xs[k + 1..];
      ThenGood(t, OnLoop(TakeCandidate));
      t' := Then(t, OnLoop(TakeCandidate));
      assert xs[k] in xs && xs[k] !in xs[..k];
      assert xs[..k] + [xs[k]] == xs[..k + 1];
      t' := ReadsAll(t', xs, k + 1);
    }
  }

  /** Answered, and gathering has ended with the channel full. */
  predicate Full(s: Sys, now: int, r: Request, sdp: Bytes, xs: seq<Candidate>, y: Candidate) {
    s == Answered(now, r, sdp).(gathering := Gathering(xs, true, xs, [], xs + [y], [y]))
  }

  /** The client acts on the answer, drains its channel and sends a request that lists all it read. */
  lemma AsksAgain(t: Trace, now: int, r: Request, sdp: Bytes, xs: seq<Candidate>, y: Candidate) returns (t': Trace)
    requires Good(t) && Full(End(t), now, r, sdp, xs, y) && xs != [] && NoDup(xs) && [] !in xs && sdp != []
    ensures Good(t') && LastResponse(End(t'))
    ensures End(t') == End(t).(client := End(t').client, gathering := End(t').gathering,
        requests := [r, r.(candidates := xs)])
    ensures End(t').gathering.gathered == xs + [y] && End(t').gathering.dropped == [y]
  {
    hide IsRun, OnResponse;
    ThenGood(t, OnLoop(Respond(0)));
    t' := Then(t, OnLoop(Respond(0)));
    TakesAnswer(End(t).client, End(t).responses[0]);
    assert xs[0..] == xs && xs[..0] == [];
    t' := ReadsAll(t', xs, 0);
    assert xs[..|xs|] == xs;
    ThenGood(t', OnLoop(TakeGatheringDone));
    t' := Then(t', OnLoop(TakeGatheringDone));
    ThenGood(t', OnLoop(NothingMore(now)));
    t' := Then(t', OnLoop(NothingMore(now)));
    ThenGood(t', OnLoop(NothingMore(now)));
    t' := Then(t', OnLoop(NothingMore(now)));
  }

  lemma TakesAnswer(c: Client, e: Envelope)
    requires e.resp.description != []
    ensures var c' := OnResponse(c, e);
            && c'.phase == DrainToDecide && c'.answerApplied && c'.last == e && c'.local == c.local
            && c'.pending == c.pending && c'.gate == c.gate && c'.gatheringDone == c.gatheringDone
            && c'.tag == c.tag && c'.id == c.id && c'.offer == c.offer
  {
  }

  /**
   * The relay repeats the first response in place of the second: the client stops. The seventeenth candidate, which
   * found the channel full, is in no request; the last request is never handled, so no candidate at all has
   * reached the acceptor's peer. The first is what the channel's size costs, the second what the relay may do.
   */
  lemma StopMayLose(now: int, tag: Bytes, id: Bytes, offer: Bytes, sdp: Bytes, xs: seq<Candidate>, y: Candidate)
    returns (t: Trace)
    requires |tag| == TAG_SIZE && id != [] && offer != [] && sdp != []
    requires |xs| == 16 && NoDup(xs) && [] !in xs && y != [] && y !in xs
    ensures IsRun(t.run, t.events) && End(t).client.phase.Stopped?
    ensures End(t).gathering.gathered == xs + [y] && End(t).gathering.dropped == [y]
    ensures End(t).requests == [Request(tag, id, offer, []), Request(tag, id, offer, xs)]
    ensures |End(t).acceptor.objects| == 1 && End(t).acceptor.objects[0].calls == [Offer(offer)]
  {
    hide IsRun, LastResponse;
    var r := Request(tag, id, offer, []);
    t := AnswersEarly(now, r, sdp);
    assert xs[..0] == [];
    t := DropsOne(t, xs, y);
    t := AsksAgain(t, now, r, sdp, xs, y);
    t := ClientStops(t);
  }
}
