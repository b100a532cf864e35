/** What every run of the signalling protocol keeps, and what its end guarantees. */
module SignallingProofs {
  import opened Basics
  import opened Signalling

  // ---- deduplication ----

  function Elements(s: seq<Candidate>): set<Candidate> {
    set x | x in s
  }

  function NonEmpty(s: seq<Candidate>): seq<Candidate>
    decreases |s|
  {
    if s == [] then [] else NonEmpty(s[..|s| - 1]) + (if s[|s| - 1] == [] then [] else [s[|s| - 1]])
  }

  lemma NonEmptySnoc(s: seq<Candidate>, x: Candidate)
    ensures NonEmpty(s + [x]) == if x == [] then NonEmpty(s) else NonEmpty(s) + [x]
  {
    assert (s + [x])[..|s|] == s;
  }

  /**
   * A list with its set, as both sides keep their candidates: the distinct elements of `heard`, in first-heard
   * order.
   */
  predicate Distinct(k: Known, heard: seq<Candidate>) {
    k.list == Dedup(heard) && k.set_ == Elements(k.list)
  }

  lemma LearnKeepsDistinct(k: Known, heard: seq<Candidate>, x: Candidate)
    requires Distinct(k, heard)
    ensures Distinct(Learn(k, x), heard + [x]) && k.list <= Learn(k, x).list
  {
    DedupSnoc(heard, x);
    assert Elements(k.list + [x]) == Elements(k.list) + {x};
  }

  /** The candidates applied or buffered after a response are the distinct ones so far, in first-seen order. */
  lemma {:induction false} FreshExtendsDedup(heard: seq<Candidate>, cs: seq<Candidate>)
    ensures Dedup(heard + cs) == Dedup(heard) + Fresh(Elements(heard), cs)
    decreases |cs|
  {
    hide Dedup;
    if cs == [] {
      assert heard + cs == heard;
    } else {
      var init, x := cs[..|cs| - 1], cs[|cs| - 1];
      FreshExtendsDedup(heard, init);
      DedupSnoc(heard + init, x);
      assert heard + cs == (heard + init) + [x];
      DedupExact(heard);
    }
  }

  lemma AddsAppend(a: seq<Candidate>, b: seq<Candidate>)
    ensures Adds(a + b) == Adds(a) + Adds(b)
  {
  }

  // ---- invariants ----

  /** The client's own candidates: exactly the distinct non-empty ones read from the channel. */
  predicate LocalInv(c: Client, g: Gathering) {
    && g.accepted == g.consumed + g.channel
    && Elements(g.gathered) == Elements(g.accepted) + Elements(g.dropped)
    && (g.dropped == [] ==> g.gathered == g.accepted)
    && Distinct(c.local, NonEmpty(g.consumed))
    && (c.gatheringDone ==> g.closed)
    && c.pending <= c.local.list
    && (c.phase.ResumeDrain? || c.phase.ResumeBlocked? || c.phase.Stopped? ==> c.last.resp.stop && c.answerApplied)
    && (c.phase.Stopped? ==> c.gatheringDone && g.channel == [] && |c.local.list| <= |c.pending|)
  }

  /** Calls on the client's peer: the answer first, then each distinct remote candidate once, in first-seen order. */
  predicate AnswerFirst(calls: seq<PeerCall>, received: seq<Candidate>) {
    |calls| >= 1 && calls[0].Answer? && calls[1..] == Adds(Dedup(received))
  }

  predicate RemoteInv(c: Client) {
    && c.remote == Elements(c.received)
    && Elements(c.last.resp.candidates) <= c.remote
    && c.waiting == (if c.answerApplied then [] else Dedup(c.received))
    && (!c.answerApplied ==> c.calls == [])
    && (c.answerApplied && !c.phase.Failed? ==> AnswerFirst(c.calls, c.received))
    && (c.answerApplied && c.phase.Failed? ==>
        |c.calls| >= 1 && c.calls[0].Answer? && c.calls[1..] <= Adds(Dedup(c.received)))
    && (c.phase.Failed? ==> c.answerApplied)
  }

  predicate RequestInv(c: Client, requests: seq<Request>, now: int) {
    && (forall i :: 0 <= i < |requests| ==>
          && requests[i].tag == c.tag && requests[i].id == c.id && requests[i].offer == c.offer
          && requests[i].candidates <= c.local.list
          && (requests[i].candidates != [] ==> AllowSend(c.gate, now)))
    && (forall i, j :: 0 <= i < j < |requests| ==> requests[i].candidates <= requests[j].candidates)
    && (requests == [] ==> c.phase.Collecting? || c.phase.DrainToSend? || c.phase.Cancelled?)
    && c.pending == (if requests == [] then [] else requests[|requests| - 1].candidates)
  }

  function OfferCalls(offers: seq<Bytes>): seq<PeerCall> {
    seq(|offers|, i requires 0 <= i < |offers| => Offer(offers[i]))
  }

  /** Calls on a session's peer: at most one offer, first, then each distinct candidate once, in order of arrival. */
  predicate SessionInv(o: Session) {
    && NoDup(o.local.list) && o.local.set_ == Elements(o.local.list)
    && o.remote == Elements(o.received)
    && |o.offers| <= 1
    && o.calls == OfferCalls(o.offers) + Adds(Dedup(o.received))
  }

  /** The candidates of a request are all with the session or still to be handed to it. */
  predicate With(o: Session, r: Request, left: seq<Candidate>) {
    o.key == SessionKey(r.tag, r.id) && Elements(r.candidates) <= o.remote + Elements(left)
  }

  predicate HandlingInv(a: Acceptor)
    requires Indexed(a)
  {
    match a.handling
    case Idle => true
    case Adding(i, _, left, r) => With(a.objects[i], r, left)
    case Queueing(i, r) => With(a.objects[i], r, [])
  }

  predicate AcceptorInv(a: Acceptor, c: Client) {
    && Indexed(a) && HandlingInv(a)
    && (forall i :: 0 <= i < |a.objects| ==>
        SessionInv(a.objects[i]) && (a.objects[i].key == Key(c) ==> a.objects[i].offers == [c.offer]))
    && (forall key :: key in a.sessions ==> a.objects[a.sessions[key]].key == key)
  }

  /** What a response says about the session that built it, for ever after. */
  predicate EnvelopeInv(e: Envelope, a: Acceptor) {
    && e.origin < |a.objects|
    && var o := a.objects[e.origin];
    && e.resp.candidates <= o.local.list && With(o, e.request, [])
    && (e.resp.stop ==> e.connected || (o.gatheringDone && e.resp.candidates == o.local.list))
  }

  predicate ResponseInv(responses: seq<Envelope>, a: Acceptor) {
    && (forall i :: 0 <= i < |responses| ==> EnvelopeInv(responses[i], a))
    && (forall i, j :: 0 <= i < j < |responses| && responses[i].origin == responses[j].origin ==>
          responses[i].resp.candidates <= responses[j].resp.candidates)
  }

  predicate Deciding(p: Phase) {
    p.DrainToDecide? || p.ResumeDrain? || p.ResumeBlocked? || p.Stopped?
  }

  predicate Inv(s: Sys) {
    && |s.client.tag| == TAG_SIZE && s.client.offer != []
    && LocalInv(s.client, s.gathering)
    && RemoteInv(s.client)
    && RequestInv(s.client, s.requests, s.now)
    && AcceptorInv(s.acceptor, s.client)
    && ResponseInv(s.responses, s.acceptor)
    && (Deciding(s.client.phase) ==> s.client.last in s.responses)
  }

  lemma InitialInv(s: Sys)
    requires Initial(s)
    ensures Inv(s)
  {
    hide LocalInv, RemoteInv, RequestInv, AcceptorInv, ResponseInv;
    InitialClient(s);
    InitialAcceptor(s);
  }

  lemma InitialClient(s: Sys)
    requires Initial(s)
    ensures LocalInv(s.client, s.gathering) && RemoteInv(s.client) && RequestInv(s.client, s.requests, s.now)
  {
  }

  lemma InitialAcceptor(s: Sys)
    requires Initial(s)
    ensures AcceptorInv(s.acceptor, s.client) && ResponseInv(s.responses, s.acceptor)
  {
  }

  // ---- the client loop ----

  /** OnResponse touches neither the client's own candidates nor its gate. */
  lemma ResponseFrame(c: Client, e: Envelope)
    ensures var c' := OnResponse(c, e);
            && c'.local == c.local && c'.pending == c.pending && c'.gatheringDone == c.gatheringDone
                && c'.gate == c.gate
            && c'.tag == c.tag && c'.id == c.id && c'.offer == c.offer
            && c'.phase == DrainToDecide && c'.last == e
  {
  }

  lemma GatherKeeps(c: Client, g: Gathering, e: GatherEvent)
    requires LocalInv(c, g) && (e.GatherLocal? ==> !g.closed)
    ensures LocalInv(c, GatherStep(g, e))
  {
    hide Distinct, NonEmpty;
    if e.GatherLocal? {
      ElementsAppend(g.gathered, [e.c]);
      ElementsAppend(g.accepted, [e.c]);
      ElementsAppend(g.dropped, [e.c]);
    }
  }

  lemma LocalStep(s: Sys, e: LoopEvent)
    requires LocalInv(s.client, s.gathering) && LoopEnabled(s, e)
    ensures LocalInv(LoopStep(s, e).client, LoopStep(s, e).gathering)
  {
    hide OnResponse, Distinct, NonEmpty, Elements;
    var c, g := s.client, s.gathering;
    match e
    case TakeCandidate =>
      var x := g.channel[0];
      NonEmptySnoc(g.consumed, x);
      if x != [] { LearnKeepsDistinct(c.local, NonEmpty(g.consumed), x); }
      assert g.channel == [x] + g.channel[1..];
    case Respond(i) => ResponseFrame(c, s.responses[i]);
    case RespondPeerFails(j, _) => ResponseFrame(c, s.responses[j]);
    case _ =>
  }

  lemma ResponseStep(c: Client, e: Envelope)
    requires RemoteInv(c) && !c.phase.Failed?
    ensures RemoteInv(OnResponse(c, e))
  {
    hide Fresh, Dedup, Adds;
    var c' := OnResponse(c, e);
    var news := Fresh(c.remote, e.resp.candidates);
    FreshExtendsDedup(c.received, e.resp.candidates);
    AddsAppend(Dedup(c.received), news);
    ElementsAppend(c.received, e.resp.candidates);
    hide Elements;
    if c.answerApplied {
      assert (c.calls + Adds(news))[1..] == c.calls[1..] + Adds(news);
    } else if c'.answerApplied {
      assert c'.calls == [Answer(e.resp.description)] + (Adds(c.waiting) + Adds(news));
    }
  }

  lemma ElementsAppend(a: seq<Candidate>, b: seq<Candidate>)
    ensures Elements(a + b) == Elements(a) + Elements(b) && Elements(b) == set x | x in b
  {
  }

  lemma RemoteStep(s: Sys, e: LoopEvent)
    requires RemoteInv(s.client) && LoopEnabled(s, e)
    ensures RemoteInv(LoopStep(s, e).client)
  {
    hide Dedup, Adds, Elements;
    var c := s.client;
    match e
    case Respond(i) =>
      ResponseStep(c, s.responses[i]);
      hide OnResponse;
    case RespondPeerFails(j, done) =>
      FailedStep(c, s.responses[j], done);
      hide OnResponse;
    case _ => hide OnResponse;
  }

  lemma FailedStep(c: Client, e: Envelope, done: nat)
    requires RemoteInv(c) && c.phase.Awaiting? && |c.calls| + done < |OnResponse(c, e).calls|
    ensures RemoteInv(OnResponse(c, e).(phase := Failed, calls := OnResponse(c, e).calls[..|c.calls| + done + 1]))
  {
    ResponseStep(c, e);
    ResponseFrame(c, e);
    hide OnResponse, Dedup;
    var c' := OnResponse(c, e);
    var n := |c.calls| + done + 1;
    assert c'.calls[..n][1..] == c'.calls[1..][..n - 1];
  }

  /** Growing the list, moving the clock on or starting the countdown keeps the requests sent so far in order. */
  lemma RequestFrame(c: Client, c': Client, requests: seq<Request>, now: int, now': int)
    requires RequestInv(c, requests, now) && now <= now'
    requires c'.tag == c.tag && c'.id == c.id && c'.offer == c.offer && c'.pending == c.pending
        && c.local.list <= c'.local.list
    requires AllowSend(c.gate, now) ==> AllowSend(c'.gate, now')
    requires requests == [] ==> c'.phase.Collecting? || c'.phase.DrainToSend? || c'.phase.Cancelled?
    ensures RequestInv(c', requests, now')
  {
  }

  lemma SendStep(s: Sys, later: int)
    requires RequestInv(s.client, s.requests, s.now) && s.client.phase.DrainToSend? && s.now <= later
    ensures RequestInv(AfterDrain(s.client, s.now, later), s.requests + [NextRequest(s.client, s.now)], later)
  {
    var c, r := s.client, NextRequest(s.client, s.now);
    var rs := s.requests + [r];
    assert forall i :: 0 <= i < |s.requests| ==> s.requests[i].candidates <= r.candidates;
    assert forall i :: 0 <= i < |rs| ==> rs[i] == if i < |s.requests| then s.requests[i] else r;
  }

  lemma RequestPhase(c: Client, requests: seq<Request>, now: int)
    requires RequestInv(c, requests, now)
    ensures requests == [] ==> c.phase.Collecting? || c.phase.DrainToSend? || c.phase.Cancelled?
  {
  }

  lemma RequestStep(s: Sys, e: LoopEvent)
    requires RequestInv(s.client, s.requests, s.now) && LoopEnabled(s, e)
    ensures var s' := LoopStep(s, e); RequestInv(s'.client, s'.requests, s'.now)
  {
    hide OnResponse, RequestInv;
    var c := s.client;
    RequestPhase(c, s.requests, s.now);
    if e.Respond? { ResponseFrame(c, s.responses[e.i]); }
    if e.RespondPeerFails? { ResponseFrame(c, s.responses[e.j]); }
    if e.NothingMore? && c.phase.DrainToSend? {
      SendStep(s, e.later);
    } else {
      RequestFrame(c, LoopStep(s, e).client, s.requests, s.now, LoopStep(s, e).now);
    }
  }

  // ---- the acceptor ----

  lemma AddRemoteKeeps(o: Session, x: Candidate)
    requires SessionInv(o)
    ensures SessionInv(AddRemote(o, x)) && Evolves(o, AddRemote(o, x))
  {
    hide Dedup, NoDup, OfferCalls;
    var d := Dedup(o.received);
    DedupSnoc(o.received, x);
    assert x in d <==> x in o.remote by { DedupExact(o.received); }
    assert Adds(d + [x]) == Adds(d) + [Add(x)];
    assert Elements(o.received + [x]) == o.remote + {x};
    assert OfferCalls(o.offers) + (Adds(d) + [Add(x)]) == (OfferCalls(o.offers) + Adds(d)) + [Add(x)];
  }

  lemma AddLocalKeeps(o: Session, x: Candidate)
    requires SessionInv(o)
    ensures SessionInv(AddLocal(o, x)) && o.local.list <= AddLocal(o, x).local.list
  {
    assert Elements(o.local.list + [x]) == Elements(o.local.list) + {x};
  }

  /** What may happen to a session object: its lists grow, its flags rise, and a finished list stays. */
  predicate Evolves(o: Session, o': Session) {
    && o'.key == o.key && o'.offers == o.offers
    && o.local.list <= o'.local.list && o.remote <= o'.remote
    && (o.gatheringDone ==> o'.gatheringDone && o'.local == o.local)
  }

  predicate AcceptorEvolves(a: Acceptor, a': Acceptor) {
    |a.objects| <= |a'.objects| && forall i :: 0 <= i < |a.objects| ==> Evolves(a.objects[i], a'.objects[i])
  }

  lemma UpdateKeeps(a: Acceptor, c: Client, i: nat, o: Session)
    requires AcceptorInv(a, c) && i < |a.objects| && SessionInv(o) && Evolves(a.objects[i], o)
    ensures AcceptorInv(Update(a, i, o), c) && AcceptorEvolves(a, Update(a, i, o))
  {
  }

  lemma CloseKeeps(a: Acceptor, c: Client, i: nat)
    requires AcceptorInv(a, c) && i < |a.objects|
    ensures AcceptorInv(Close(a, i), c) && AcceptorEvolves(a, Close(a, i)) && Close(a, i).handling == a.handling
  {
    hide SessionInv;
    var o := a.objects[i];
    assert SessionInv(o.(closed := true)) by { FlagKeeps(o); }
    UpdateKeeps(a, c, i, o.(closed := true));
  }

  lemma EvolvesOn(a: Acceptor, b: Acceptor, d: Acceptor)
    requires AcceptorEvolves(a, b) && AcceptorEvolves(b, d)
    ensures AcceptorEvolves(a, d)
  {
    forall i | 0 <= i < |a.objects| ensures Evolves(a.objects[i], d.objects[i]) {
      assert Evolves(a.objects[i], b.objects[i]) && Evolves(b.objects[i], d.objects[i]);
    }
  }

  /** Where the poll loop stands does not matter to the sessions. */
  lemma HandlingKeeps(a: Acceptor, c: Client, h: Handling)
    requires AcceptorInv(a, c)
    requires Indexed(a.(handling := h)) && HandlingInv(a.(handling := h))
    ensures AcceptorInv(a.(handling := h), c) && AcceptorEvolves(a, a.(handling := h))
  {
    hide SessionInv;
  }

  lemma ReceiveKeeps(a: Acceptor, c: Client, r: Request, answer: Option<Bytes>)
    requires AcceptorInv(a, c) && c.offer != [] && |c.tag| == TAG_SIZE
    requires (r.tag == c.tag && r.id == c.id && r.offer == c.offer) || Foreign(c, r)
    ensures AcceptorInv(Receive(a, r, answer), c) && AcceptorEvolves(a, Receive(a, r, answer))
  {
    hide SessionInv, AcceptorInv, AcceptorEvolves, Close, SessionKey;
    IndexedFacts(a, c);
    var key, n := SessionKey(r.tag, r.id), |a.objects|;
    SessionKeyInjective(r.tag, r.id, c.tag, c.id);
    if r.tag == [] || r.id == [] {
      HandlingKeeps(a, c, a.handling);
    } else if key in a.sessions {
      var h := Adding(a.sessions[key], false, r.candidates, r);
      assert HandlingInv(a.(handling := h)) by { AtKey(a, c, key); }
      HandlingKeeps(a, c, h);
    } else {
      var s0 := NewSession(key);
      var sdp := if answer.Some? then answer.value else [];
      var s1 := s0.(calls := [Offer(r.offer)], offers := [r.offer], description := sdp);
      NewSessionInv(s0, s1, r.offer);
      var grown := a.(objects := a.objects + [s0], sessions := a.sessions[key := n]);
      if r.offer == [] {
        CreateKeeps(a, c, s0);
      } else {
        var a' := a.(objects := a.objects + [s1], sessions := a.sessions[key := n]);
        CreateKeeps(a, c, s1);
        assert Update(grown, n, s1) == a';
        if answer.None? {
          CloseKeeps(a', c, n);
          EvolvesOn(a, a', Close(a', n));
        } else {
          var h := Adding(n, true, r.candidates, r);
          HandlingKeeps(a', c, h);
          EvolvesOn(a, a', a'.(handling := h));
        }
      }
    }
  }

  lemma IndexedFacts(a: Acceptor, c: Client)
    requires AcceptorInv(a, c)
    ensures Indexed(a) && HandlingInv(a)
  {
  }

  lemma AtKey(a: Acceptor, c: Client, key: Bytes)
    requires AcceptorInv(a, c) && key in a.sessions
    ensures a.objects[a.sessions[key]].key == key
  {
  }

  lemma NewSessionInv(s0: Session, s1: Session, offer: Bytes)
    requires s0 == NewSession(s0.key)
        && s1 == s0.(calls := [Offer(offer)], offers := [offer], description := s1.description)
    ensures SessionInv(s0) && SessionInv(s1)
  {
  }

  lemma CreateKeeps(a: Acceptor, c: Client, o: Session)
    requires AcceptorInv(a, c) && SessionInv(o) && (o.key == Key(c) ==> o.offers == [c.offer])
    ensures var a' := a.(objects := a.objects + [o], sessions := a.sessions[o.key := |a.objects|]);
            AcceptorInv(a', c) && AcceptorEvolves(a, a')
  {
    hide SessionInv;
  }

  lemma AddNextKeeps(a: Acceptor, c: Client, ok: bool)
    requires AcceptorInv(a, c) && a.handling.Adding?
    ensures AcceptorInv(AddNext(a, ok), c) && AcceptorEvolves(a, AddNext(a, ok))
  {
    hide SessionInv, AcceptorInv, AcceptorEvolves, Close, AddRemote;
    IndexedFacts(a, c);
    var h := a.handling;
    if h.left == [] {
      HandlingKeeps(a, c, Queueing(h.session, h.request));
    } else {
      var o := a.objects[h.session];
      var a' := Update(a, h.session, AddRemote(o, h.left[0]));
      AtObject(a, c, h.session);
      AddRemoteKeeps(o, h.left[0]);
      UpdateKeeps(a, c, h.session, AddRemote(o, h.left[0]));
      AddedWith(o, h.request, h.left);
      if h.left[0] in o.remote || ok {
        HandlingKeeps(a', c, h.(left := h.left[1..]));
        EvolvesOn(a, a', a'.(handling := h.(left := h.left[1..])));
      } else {
        CloseKeeps(a', c, h.session);
        EvolvesOn(a, a', Close(a', h.session));
        var a2 := if h.created then Close(a', h.session) else a';
        IndexedFacts(a2, c);
        HandlingKeeps(a2, c, Idle);
        EvolvesOn(a, a2, a2.(handling := Idle));
      }
    }
  }

  lemma AddedWith(o: Session, r: Request, left: seq<Candidate>)
    requires With(o, r, left) && left != []
    ensures With(AddRemote(o, left[0]), r, left[1..])
  {
    assert left == [left[0]] + left[1..];
  }

  lemma AtObject(a: Acceptor, c: Client, i: nat)
    requires AcceptorInv(a, c) && i < |a.objects|
    ensures SessionInv(a.objects[i])
  {
  }

  lemma AcceptorKeeps(s: Sys, e: AcceptorEvent)
    requires Inv(s) && AcceptorEnabled(s, e)
    ensures var a' := AcceptorStep(s, e).acceptor; AcceptorInv(a', s.client) && AcceptorEvolves(s.acceptor, a')
  {
    hide SessionInv, Receive, AddNext, Close, RemoteInv, LocalInv, ResponseInv;
    var a, c := s.acceptor, s.client;
    match e
    case PollRequest(r, answer) => ReceiveKeeps(a, c, r, answer);
    case AddRemoteCandidate(ok) => AddNextKeeps(a, c, ok);
    case QueueResponse =>
    case GatherRemote(i, x) =>
      AddLocalKeeps(a.objects[i], x);
      UpdateKeeps(a, c, i, AddLocal(a.objects[i], x));
    case GatherRemoteDone(i) =>
      FlagKeeps(a.objects[i]);
      UpdateKeeps(a, c, i, a.objects[i].(gatheringDone := true));
    case PeerConnected(i) =>
      FlagKeeps(a.objects[i]);
      UpdateKeeps(a, c, i, a.objects[i].(connected := true));
    case CloseSession(i) => CloseKeeps(a, c, i);
  }

  lemma FlagKeeps(o: Session)
    requires SessionInv(o)
    ensures SessionInv(o.(gatheringDone := true)) && SessionInv(o.(connected := true)) && SessionInv(o.(closed := true))
  {
  }

  /** Responses stay true of their sessions as these evolve. */
  lemma ResponsesStay(responses: seq<Envelope>, a: Acceptor, a': Acceptor)
    requires ResponseInv(responses, a) && AcceptorEvolves(a, a')
    ensures ResponseInv(responses, a')
  {
    forall i | 0 <= i < |responses| ensures EnvelopeInv(responses[i], a') {
      var e := responses[i];
      assert Evolves(a.objects[e.origin], a'.objects[e.origin]);
    }
  }

  /** A new response extends all earlier ones of its session. */
  lemma QueueKeeps(responses: seq<Envelope>, a: Acceptor, i: nat, r: Request)
    requires ResponseInv(responses, a) && i < |a.objects| && With(a.objects[i], r, [])
    ensures var o := a.objects[i]; ResponseInv(responses + [Envelope(CurrentResponse(o), i, o.connected, r)], a)
  {
    var o := a.objects[i];
    var e := Envelope(CurrentResponse(o), i, o.connected, r);
    assert EnvelopeInv(e, a);
    assert forall j :: 0 <= j < |responses| && responses[j].origin == i ==> EnvelopeInv(responses[j], a);
  }

  // ---- every run ----

  lemma StepKeepsInv(s: Sys, e: Event)
    requires Inv(s) && Enabled(s, e)
    ensures Inv(Step(s, e))
  {
    match e
    case Tick(now) => RequestFrame(s.client, s.client, s.requests, s.now, now);
    case OnGather(g) => GatherKeeps(s.client, s.gathering, g);
    case OnLoop(l) =>
      LocalStep(s, l);
      RemoteStep(s, l);
      RequestStep(s, l);
      LoopFrame(s, l);
    case OnAcceptor(a) =>
      AcceptorKeeps(s, a);
      var s' := AcceptorStep(s, a);
      ResponsesStay(s.responses, s.acceptor, s'.acceptor);
      var h := s.acceptor.handling;
      if a.QueueResponse? { QueueKeeps(s.responses, s'.acceptor, h.queue, h.request); }
  }

  /** The loop leaves the acceptor and the responses alone, and acts on a response it was given. */
  lemma LoopFrame(s: Sys, e: LoopEvent)
    requires LoopEnabled(s, e) && (Deciding(s.client.phase) ==> s.client.last in s.responses)
    ensures var s' := LoopStep(s, e);
            && s'.acceptor == s.acceptor && s'.responses == s.responses
            && s'.client.tag == s.client.tag && s'.client.id == s.client.id && s'.client.offer == s.client.offer
            && (Deciding(s'.client.phase) ==> s'.client.last in s.responses)
  {
    hide OnResponse;
    match e
    case Respond(i) => ResponseFrame(s.client, s.responses[i]);
    case RespondPeerFails(j, _) => ResponseFrame(s.client, s.responses[j]);
    case _ =>
  }

  lemma {:induction false} RunKeepsInv(run: seq<Sys>, events: seq<Event>, i: nat)
    requires IsRun(run, events) && i < |run|
    ensures Inv(run[i])
  {
    if i == 0 {
      InitialInv(run[0]);
    } else {
      RunKeepsInv(run, events, i - 1);
      StepKeepsInv(run[i - 1], events[i - 1]);
    }
  }

  // ---- theorems ----

  /**
   * Completeness. Whenever the loop has stopped by itself: the answer is applied; the request it
   * last had answered listed exactly the distinct candidates the channel ever accepted; and either
   * the acceptor's peer was connected when it built the response acted on, or every candidate that
   * session has, now and in every later state, is applied.
   */
  lemma StopIsComplete(run: seq<Sys>, events: seq<Event>, i: nat)
    requires IsRun(run, events) && i < |run| && run[i].client.phase.Stopped?
    ensures var s := run[i]; var c := s.client;
            && c.answerApplied && |c.calls| >= 1 && c.calls[0].Answer?
            && s.requests != [] && s.requests[|s.requests| - 1].candidates == Dedup(NonEmpty(s.gathering.accepted))
            && c.last in s.responses && c.last.resp.stop && c.last.origin < |s.acceptor.objects|
            && var o := s.acceptor.objects[c.last.origin];
            && (c.last.connected || (o.gatheringDone && forall x :: x in o.local.list ==> Add(x) in c.calls))
  {
    hide Inv, NonEmpty, Dedup;
    RunKeepsInv(run, events, i);
    ListedAll(run[i]);
    AppliedAll(run[i]);
  }

  lemma ListedAll(s: Sys)
    requires Inv(s) && s.client.phase.Stopped?
    ensures s.requests != []
    ensures s.requests[|s.requests| - 1].candidates == Dedup(NonEmpty(s.gathering.accepted))
  {
    hide NonEmpty, Dedup, Elements, RemoteInv, AcceptorInv, ResponseInv;
    var c, g := s.client, s.gathering;
    assert g.accepted == g.consumed;
    assert c.pending == c.local.list;
  }

  lemma AppliedAll(s: Sys)
    requires Inv(s) && s.client.phase.Stopped?
    ensures var c := s.client;
            && c.answerApplied && |c.calls| >= 1 && c.calls[0].Answer?
            && c.last in s.responses && c.last.resp.stop && c.last.origin < |s.acceptor.objects|
            && var o := s.acceptor.objects[c.last.origin];
            && (c.last.connected || (o.gatheringDone && forall x :: x in o.local.list ==> Add(x) in c.calls))
  {
    hide NonEmpty, Dedup, Distinct, RequestInv, AcceptorInv, With;
    var c := s.client;
    var j :| 0 <= j < |s.responses| && s.responses[j] == c.last;
    assert EnvelopeInv(s.responses[j], s.acceptor);
    var o := s.acceptor.objects[c.last.origin];
    if !c.last.connected {
      forall x | x in o.local.list ensures Add(x) in c.calls {
        assert x in Elements(c.last.resp.candidates);
        AppliedOnce(c, x);
      }
    }
  }

  lemma {:induction false} NonEmptyElements(s: seq<Candidate>)
    ensures forall x :: x in NonEmpty(s) <==> x in s && x != []
    decreases |s|
  {
    if s != [] {
      NonEmptyElements(s[..|s| - 1]);
      assert s == s[..|s| - 1] + [s[|s| - 1]];
    }
  }

  /**
   * Candidates that found the channel full. When the loop has stopped, the last request listed every distinct
   * candidate the peer ever gathered exactly when each one dropped was also accepted at another time; with none
   * dropped it lists them in the order they were gathered.
   */
  lemma StopListsGatheredExactly(run: seq<Sys>, events: seq<Event>, i: nat)
    requires IsRun(run, events) && i < |run| && run[i].client.phase.Stopped?
    ensures var s := run[i]; var g := s.gathering;
            && s.requests != []
            && var listed := s.requests[|s.requests| - 1].candidates;
            && (Elements(listed) == Elements(NonEmpty(g.gathered))
                <==> forall x :: x in g.dropped && x != [] ==> x in g.accepted)
            && (g.dropped == [] ==> listed == Dedup(NonEmpty(g.gathered)))
  {
    hide Inv, NonEmpty, Dedup;
    StopIsComplete(run, events, i);
    RunKeepsInv(run, events, i);
    var g := run[i].gathering;
    LocalFacts(run[i]);
    NonEmptyElements(g.gathered);
    NonEmptyElements(g.accepted);
    DedupExact(NonEmpty(g.accepted));
    var listed := Elements(Dedup(NonEmpty(g.accepted)));
    if forall x :: x in g.dropped && x != [] ==> x in g.accepted {
      assert forall x :: x in g.gathered <==> x in Elements(g.gathered);
      assert listed == Elements(NonEmpty(g.gathered));
    } else {
      var x :| x in g.dropped && x != [] && x !in g.accepted;
      assert x in Elements(g.gathered) && x !in listed;
    }
  }

  lemma LocalFacts(s: Sys)
    requires Inv(s)
    ensures LocalInv(s.client, s.gathering)
  {
  }

  /**
   * Completeness towards the acceptor. If the response acted on when the loop stopped was built for the last
   * request, then its session is the client's own, and has handed its peer every candidate the channel accepted.
   */
  lemma StopReachesAcceptor(run: seq<Sys>, events: seq<Event>, i: nat)
    requires IsRun(run, events) && i < |run| && run[i].client.phase.Stopped?
    requires run[i].requests != [] && run[i].client.last.request == run[i].requests[|run[i].requests| - 1]
    ensures var s := run[i]; var c := s.client;
            && c.last.origin < |s.acceptor.objects|
            && var o := s.acceptor.objects[c.last.origin];
            && o.key == Key(c) && o.offers == [c.offer]
            && forall x :: x in s.gathering.accepted && x != [] ==> Add(x) in o.calls
  {
    hide NonEmpty, Dedup, LocalInv, RemoteInv, ResponseInv;
    StopIsComplete(run, events, i);
    RunKeepsInv(run, events, i);
    var s := run[i];
    var c := s.client;
    OriginFacts(s, c.last);
    var o := s.acceptor.objects[c.last.origin];
    NonEmptyElements(s.gathering.accepted);
    DedupExact(NonEmpty(s.gathering.accepted));
    forall x | x in s.gathering.accepted && x != [] ensures Add(x) in o.calls {
      assert x in Elements(c.last.request.candidates);
      HandedOver(o, x);
    }
  }

  lemma OriginFacts(s: Sys, e: Envelope)
    requires Inv(s) && e in s.responses
    ensures e.origin < |s.acceptor.objects|
    ensures var o := s.acceptor.objects[e.origin];
            && SessionInv(o) && With(o, e.request, []) && (o.key == Key(s.client) ==> o.offers == [s.client.offer])
  {
    var j :| 0 <= j < |s.responses| && s.responses[j] == e;
    assert EnvelopeInv(s.responses[j], s.acceptor);
  }

  lemma HandedOver(o: Session, x: Candidate)
    requires SessionInv(o) && x in o.remote
    ensures Add(x) in o.calls
  {
    DedupExact(o.received);
    var d := Dedup(o.received);
    var k :| 0 <= k < |d| && d[k] == x;
    assert o.calls[|o.offers| + k] == Add(x);
  }

  lemma AppliedOnce(c: Client, x: Candidate)
    requires c.answerApplied && AnswerFirst(c.calls, c.received) && x in c.received
    ensures Add(x) in c.calls
  {
    DedupExact(c.received);
    var d := Dedup(c.received);
    var k :| 0 <= k < |d| && d[k] == x;
    assert c.calls[1..][k] == Add(x);
  }

  /** Each distinct candidate is handed to a peer at most once. */
  predicate AddsOnce(calls: seq<PeerCall>) {
    forall i, j :: 0 <= i < j < |calls| && calls[i].Add? ==> calls[i] != calls[j]
  }

  /**
   * Safety, for the client, whatever is lost, repeated or reordered: no call before the answer; each remote
   * candidate applied at most once; applied, or else buffered, are the distinct received ones in first-seen
   * order, up to the call that failed if one did; requests only extend one another, and list nothing while the
   * gate is shut.
   */
  lemma ClientSafety(run: seq<Sys>, events: seq<Event>, i: nat)
    requires IsRun(run, events) && i < |run|
    ensures var s := run[i]; var c := s.client;
            && AddsOnce(c.calls)
            && (c.calls != [] ==> c.calls[0].Answer? && forall k :: 1 <= k < |c.calls| ==> c.calls[k].Add?)
            && (!c.phase.Failed? && !c.answerApplied ==> c.calls == [] && c.waiting == Dedup(c.received))
            && (!c.phase.Failed? && c.answerApplied ==>
                c.waiting == [] && |c.calls| >= 1 && c.calls[1..] == Adds(Dedup(c.received)))
            && (c.phase.Failed? ==> |c.calls| >= 1 && c.calls[1..] <= Adds(Dedup(c.received)))
            && (forall j, k :: 0 <= j < k < |s.requests| ==> s.requests[j].candidates <= s.requests[k].candidates)
            && (forall j :: 0 <= j < |s.requests| && s.requests[j].candidates != [] ==> AllowSend(c.gate, s.now))
  {
    RunKeepsInv(run, events, i);
    var c := run[i].client;
    DedupExact(c.received);
    if c.calls != [] {
      CallsOnce(c.calls, 1, Dedup(c.received));
    }
  }

  lemma CallsOnce(calls: seq<PeerCall>, n: nat, cs: seq<Candidate>)
    requires n <= |calls| && (forall i :: 0 <= i < n ==> !calls[i].Add?) && NoDup(cs) && calls[n..] <= Adds(cs)
    ensures AddsOnce(calls)
  {
    forall i, j | 0 <= i < j < |calls| && calls[i].Add? ensures calls[i] != calls[j] {
      assert calls[i] == calls[n..][i - n] && calls[j] == calls[n..][j - n];
    }
  }

  /**
   * Safety, for the acceptor: each session object accepts at most one offer, before anything else, and exactly
   * this client's offer if it is this client's session; it applies each distinct candidate once, in order
   * of arrival; and of two responses of one session the later one extends the earlier.
   */
  lemma AcceptorSafety(run: seq<Sys>, events: seq<Event>, i: nat, n: nat)
    requires IsRun(run, events) && i < |run| && n < |run[i].acceptor.objects|
    ensures var s := run[i]; var o := s.acceptor.objects[n];
            && |o.offers| <= 1 && o.calls == OfferCalls(o.offers) + Adds(Dedup(o.received)) && AddsOnce(o.calls)
            && (o.key == Key(s.client) ==> o.offers == [s.client.offer])
            && NoDup(o.local.list)
            && (forall j, k ::
                  0 <= j < k < |s.responses| && s.responses[j].origin == n && s.responses[k].origin == n ==>
                  s.responses[j].resp.candidates <= s.responses[k].resp.candidates <= o.local.list)
  {
    RunKeepsInv(run, events, i);
    var s := run[i];
    var o := s.acceptor.objects[n];
    assert SessionInv(o);
    DedupExact(o.received);
    assert o.calls[|o.offers|..] == Adds(Dedup(o.received));
    CallsOnce(o.calls, |o.offers|, Dedup(o.received));
    assert forall k :: 0 <= k < |s.responses| ==> EnvelopeInv(s.responses[k], s.acceptor);
  }
}
