/**
 * The order in which the client's candidates reach the acceptor's peer (app/webrtc/webrtc.go), whatever the
 * relay does.
 */
module SignallingOrder {
  import opened Basics
  import opened Signalling
  import opened SignallingProofs

  /** The part of a request's candidates that is still to be handed over is its end, and the rest has been. */
  predicate InOrder(o: Session, r: Request, left: seq<Candidate>) {
    && |left| <= |r.candidates| && left == r.candidates[|r.candidates| - |left|..]
    && Elements(r.candidates[..|r.candidates| - |left|]) <= o.remote
  }

  /** What a session of this client has been handed is the beginning of the client's list. */
  predicate Follows(o: Session, c: Client) {
    o.key == Key(c) ==> Dedup(o.received) <= c.local.list
  }

  predicate HandlingFollows(a: Acceptor, c: Client)
    requires Indexed(a)
  {
    a.handling.Adding? ==>
      var o, r := a.objects[a.handling.session], a.handling.request;
      InOrder(o, r, a.handling.left) && (o.key == Key(c) ==> r.candidates <= c.local.list)
  }

  predicate OrderInv(a: Acceptor, c: Client) {
    && Indexed(a) && HandlingFollows(a, c)
    && forall i :: 0 <= i < |a.objects| ==> Follows(a.objects[i], c)
  }

  /** One candidate more of a request keeps what has been handed over the beginning of the list. */
  lemma PrefixGrows(received: seq<Candidate>, list: seq<Candidate>, cs: seq<Candidate>, i: nat)
    requires NoDup(list) && Dedup(received) <= list && cs <= list && i < |cs| && Elements(cs[..i]) <= Elements(received)
    ensures Dedup(received + [cs[i]]) <= list
  {
    hide Dedup;
    var d, x := Dedup(received), cs[i];
    DedupSnoc(received, x);
    DedupExact(received);
    if x !in d {
      var p := |d|;
      assert list[i] == x;
      if i > 0 {
        InPrefix(cs, i - 1, i);
        assert cs[i - 1] in Elements(received);
        Within(d, list, i - 1);
      }
      assert i == p;
      assert d + [x] == list[..p + 1];
    }
  }

  lemma Within(d: seq<Candidate>, list: seq<Candidate>, q: nat)
    requires d <= list && NoDup(list) && q < |list| && list[q] in d
    ensures q < |d|
  {
    var t :| 0 <= t < |d| && d[t] == list[q];
    assert list[t] == list[q];
  }

  /** A client whose list grew is followed as before. */
  lemma ClientGrows(a: Acceptor, c: Client, c': Client)
    requires OrderInv(a, c) && c'.tag == c.tag && c'.id == c.id && c.local.list <= c'.local.list
    ensures OrderInv(a, c')
  {
    hide InOrder, Dedup;
    forall i | 0 <= i < |a.objects| ensures Follows(a.objects[i], c') {
      assert Follows(a.objects[i], c);
    }
  }

  lemma LoopGrows(s: Sys, e: LoopEvent)
    requires LoopEnabled(s, e)
    ensures var c, c' := s.client, LoopStep(s, e).client;
            c'.tag == c.tag && c'.id == c.id && c.local.list <= c'.local.list
    ensures LoopStep(s, e).acceptor == s.acceptor
  {
    hide OnResponse;
    if e.Respond? { ResponseFrame(s.client, s.responses[e.i]); }
    if e.RespondPeerFails? { ResponseFrame(s.client, s.responses[e.j]); }
  }

  /** A session changed in a way that leaves what it was handed alone. */
  lemma SessionUpdates(a: Acceptor, c: Client, i: nat, o: Session)
    requires OrderInv(a, c) && i < |a.objects| && o.key == a.objects[i].key
    requires o.received == a.objects[i].received && o.remote == a.objects[i].remote
    ensures OrderInv(Update(a, i, o), c)
  {
    hide Dedup;
    assert Follows(a.objects[i], c);
  }

  lemma SessionCloses(a: Acceptor, c: Client, i: nat)
    requires OrderInv(a, c) && i < |a.objects|
    ensures OrderInv(Close(a, i), c) && Close(a, i).handling == a.handling && |Close(a, i).objects| == |a.objects|
  {
    hide OrderInv;
    assert OrderInv(Update(a, i, a.objects[i].(closed := true)),
        c) by { SessionUpdates(a, c, i, a.objects[i].(closed := true)); }
    ForgetsKey(Update(a, i, a.objects[i].(closed := true)), c, a.objects[i].key);
  }

  lemma ForgetsKey(a: Acceptor, c: Client, key: Bytes)
    requires OrderInv(a, c)
    ensures OrderInv(a.(sessions := a.sessions - {key}), c)
  {
  }

  /** Handing over the next candidate. */
  lemma NextFollows(a: Acceptor, c: Client, ok: bool)
    requires OrderInv(a, c) && AcceptorInv(a, c) && NoDup(c.local.list) && a.handling.Adding?
    ensures OrderInv(AddNext(a, ok), c)
  {
    hide Dedup, SessionInv, Close;
    var h := a.handling;
    if h.left != [] {
      var o := a.objects[h.session];
      var o' := AddRemote(o, h.left[0]);
      var a' := Update(a, h.session, o');
      assert Follows(o', c) && InOrder(o', h.request, h.left[1..]) by { HandsOver(o, c, h.request, h.left); }
      forall i | 0 <= i < |a'.objects| ensures Follows(a'.objects[i], c) {
        assert Follows(a.objects[i], c);
      }
      assert OrderInv(a'.(handling := h.(left := h.left[1..])), c);
      assert OrderInv(a'.(handling := Idle), c);
      SessionCloses(a'.(handling := Idle), c, h.session);
      ClosesAnyHandling(a', h.session);
    }
  }

  lemma ClosesAnyHandling(a: Acceptor, i: nat)
    requires i < |a.objects|
    ensures Close(a, i).(handling := Idle) == Close(a.(handling := Idle), i)
  {
  }

  lemma HandsOver(o: Session, c: Client, r: Request, left: seq<Candidate>)
    requires SessionInv(o) && NoDup(c.local.list) && left != [] && InOrder(o, r, left) && Follows(o, c)
    requires o.key == Key(c) ==> r.candidates <= c.local.list
    ensures Follows(AddRemote(o, left[0]), c) && InOrder(AddRemote(o, left[0]), r, left[1..])
  {
    hide Dedup;
    var i := |r.candidates| - |left|;
    assert left[0] == r.candidates[i];
    assert r.candidates[..i + 1] == r.candidates[..i] + [r.candidates[i]];
    if o.key == Key(c) {
      PrefixGrows(o.received, c.local.list, r.candidates, i);
    }
  }

  /** A request taken in: the client's own lists the beginning of the client's list, and no other has its key. */
  lemma ReceiveFollows(a: Acceptor, c: Client, r: Request, answer: Option<Bytes>)
    requires OrderInv(a, c) && AcceptorInv(a, c) && |c.tag| == TAG_SIZE
    requires (r.tag == c.tag && r.id == c.id && r.candidates <= c.local.list) || Foreign(c, r)
    ensures OrderInv(Receive(a, r, answer), c)
  {
    hide Dedup, SessionInv, SessionKey, Close;
    var key, n := SessionKey(r.tag, r.id), |a.objects|;
    SessionKeyInjective(r.tag, r.id, c.tag, c.id);
    if r.tag != [] && r.id != [] {
      if key in a.sessions {
        assert a.objects[a.sessions[key]].key == key;
      } else {
        NewFollows(a, c, r, answer);
      }
    }
  }

  lemma NewFollows(a: Acceptor, c: Client, r: Request, answer: Option<Bytes>)
    requires OrderInv(a, c) && r.tag != [] && r.id != [] && SessionKey(r.tag, r.id) !in a.sessions
    requires SessionKey(r.tag, r.id) == Key(c) ==> r.candidates <= c.local.list
    ensures OrderInv(Receive(a, r, answer), c)
  {
    hide SessionKey, Close;
    var key, n := SessionKey(r.tag, r.id), |a.objects|;
    var sdp := if answer.Some? then answer.value else [];
    var s0 := NewSession(key);
    var s1 := s0.(calls := [Offer(r.offer)], offers := [r.offer], description := sdp);
    var grown := a.(objects := a.objects + [s0], sessions := a.sessions[key := n]);
    var a' := a.(objects := a.objects + [s1], sessions := a.sessions[key := n]);
    assert Update(grown, n, s1) == a';
    assert Dedup<Candidate>([]) == [];
    assert OrderInv(grown, c) && OrderInv(a', c);
    if r.offer != [] && answer.None? {
      SessionCloses(a', c, n);
    }
  }

  lemma AcceptorFollows(s: Sys, e: AcceptorEvent)
    requires Inv(s) && OrderInv(s.acceptor, s.client) && AcceptorEnabled(s, e)
    ensures OrderInv(AcceptorStep(s, e).acceptor, s.client)
  {
    hide Receive, AddNext, Close, OrderInv, LocalInv, RemoteInv, RequestInv, AcceptorInv, ResponseInv;
    var a, c := s.acceptor, s.client;
    ListFacts(s);
    match e
    case PollRequest(r, answer) =>
      if r in s.requests { OwnRequest(s, r); }
      ReceiveFollows(a, c, r, answer);
    case AddRemoteCandidate(ok) => NextFollows(a, c, ok);
    case QueueResponse => GoesIdle(a, c);
    case GatherRemote(i, x) => SessionUpdates(a, c, i, AddLocal(a.objects[i], x));
    case GatherRemoteDone(i) => SessionUpdates(a, c, i, a.objects[i].(gatheringDone := true));
    case PeerConnected(i) => SessionUpdates(a, c, i, a.objects[i].(connected := true));
    case CloseSession(i) => SessionCloses(a, c, i);
  }

  lemma GoesIdle(a: Acceptor, c: Client)
    requires OrderInv(a, c)
    ensures OrderInv(a.(handling := Idle), c)
  {
  }

  lemma OwnRequest(s: Sys, r: Request)
    requires Inv(s) && r in s.requests
    ensures r.tag == s.client.tag && r.id == s.client.id && r.candidates <= s.client.local.list
  {
    hide LocalInv, RemoteInv, AcceptorInv, ResponseInv;
  }

  lemma ListFacts(s: Sys)
    requires Inv(s)
    ensures NoDup(s.client.local.list) && s.client.local.list == Dedup(NonEmpty(s.gathering.consumed))
    ensures |s.client.tag| == TAG_SIZE && AcceptorInv(s.acceptor, s.client)
  {
    hide RemoteInv, RequestInv, AcceptorInv, ResponseInv, Dedup, NonEmpty;
    DedupExact(NonEmpty(s.gathering.consumed));
  }

  lemma {:induction false} RunKeepsOrder(run: seq<Sys>, events: seq<Event>, i: nat)
    requires IsRun(run, events) && i < |run|
    ensures OrderInv(run[i].acceptor, run[i].client)
  {
    hide Inv, OrderInv, LoopStep, AcceptorStep;
    if i == 0 {
      StartsInOrder(run[0]);
    } else {
      RunKeepsOrder(run, events, i - 1);
      RunKeepsInv(run, events, i - 1);
      var s, e := run[i - 1], events[i - 1];
      match e
      case OnLoop(l) =>
        LoopGrows(s, l);
        ClientGrows(s.acceptor, s.client, LoopStep(s, l).client);
      case OnAcceptor(a) =>
        AcceptorFollows(s, a);
        SameClient(s, a);
      case _ =>
    }
  }

  lemma SameClient(s: Sys, e: AcceptorEvent)
    requires AcceptorEnabled(s, e) && Indexed(s.acceptor)
    ensures AcceptorStep(s, e).client == s.client
  {
  }

  lemma StartsInOrder(s: Sys)
    requires Initial(s)
    ensures OrderInv(s.acceptor, s.client)
  {
  }

  // ---- theorems ----

  /**
   * In every state of every run, whatever is lost, repeated or reordered: a session of this client has made its peer
   * the one offer and then handed it the beginning of the client's own list, in the client's order.
   */
  lemma AcceptorFollowsClient(run: seq<Sys>, events: seq<Event>, i: nat, n: nat)
    requires IsRun(run, events) && i < |run| && n < |run[i].acceptor.objects|
    requires run[i].acceptor.objects[n].key == Key(run[i].client)
    ensures var s := run[i]; var o := s.acceptor.objects[n];
            && o.calls == [Offer(s.client.offer)] + Adds(Dedup(o.received))
            && Dedup(o.received) <= s.client.local.list == Dedup(NonEmpty(s.gathering.consumed))
  {
    hide Inv, Dedup, NonEmpty, Adds;
    RunKeepsOrder(run, events, i);
    RunKeepsInv(run, events, i);
    ListFacts(run[i]);
    AcceptorSafety(run, events, i, n);
    assert Follows(run[i].acceptor.objects[n], run[i].client);
    assert OfferCalls([run[i].client.offer]) == [Offer(run[i].client.offer)];
  }

  /**
   * So when the loop has stopped, the peer of a session of this client has every candidate the channel accepted if and
   * only if it has the last one the client listed.
   */
  lemma StopReachesAcceptorExactly(run: seq<Sys>, events: seq<Event>, i: nat, n: nat)
    requires IsRun(run, events) && i < |run| && run[i].client.phase.Stopped? && n < |run[i].acceptor.objects|
    requires run[i].acceptor.objects[n].key == Key(run[i].client)
    ensures var s := run[i]; var o := s.acceptor.objects[n];
            && s.requests != []
            && var listed := s.requests[|s.requests| - 1].candidates;
            (forall x :: x in s.gathering.accepted && x != [] ==> Add(x) in o.calls)
            <==> (listed != [] ==> Add(listed[|listed| - 1]) in o.calls)
  {
    hide Inv, Dedup, NonEmpty;
    AcceptorFollowsClient(run, events, i, n);
    StopIsComplete(run, events, i);
    RunKeepsInv(run, events, i);
    var s := run[i];
    var o, listed := s.acceptor.objects[n], s.requests[|s.requests| - 1].candidates;
    StoppedDrained(s);
    NonEmptyElements(s.gathering.accepted);
    DedupExact(NonEmpty(s.gathering.accepted));
    var d := Dedup(o.received);
    CallsAre(o.calls, s.client.offer, d);
    assert forall x :: x in listed <==> x in s.gathering.accepted && x != [];
    ListedExactly(d, listed);
  }

  /** The beginning of a list without repetitions has all of it exactly when it has the last. */
  lemma ListedExactly(d: seq<Candidate>, list: seq<Candidate>)
    requires d <= list && NoDup(list)
    ensures (forall x :: x in list ==> x in d) <==> (list != [] ==> list[|list| - 1] in d)
  {
    if list != [] {
      assert list[|list| - 1] in list;
      if list[|list| - 1] in d {
        WholeWhenLast(d, list);
      }
    }
  }

  lemma StoppedDrained(s: Sys)
    requires Inv(s) && s.client.phase.Stopped?
    ensures s.gathering.accepted == s.gathering.consumed
  {
    hide RemoteInv, RequestInv, AcceptorInv, ResponseInv, Distinct;
  }

  lemma CallsAre(calls: seq<PeerCall>, offer: Bytes, d: seq<Candidate>)
    requires calls == [Offer(offer)] + Adds(d)
    ensures forall x :: Add(x) in calls <==> x in d
  {
    forall x | x in d ensures Add(x) in calls {
      var k :| 0 <= k < |d| && d[k] == x;
      assert calls[k + 1] == Add(x);
    }
  }

  lemma WholeWhenLast(d: seq<Candidate>, list: seq<Candidate>)
    requires d <= list && NoDup(list) && list != [] && list[|list| - 1] in d
    ensures d == list
  {
    var k :| 0 <= k < |d| && d[k] == list[|list| - 1];
    assert list[k] == list[|list| - 1];
  }
}
