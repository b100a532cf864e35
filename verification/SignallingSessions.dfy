/** The acceptor's sessions (app/webrtc/webrtc.go): which are open, and what becomes of a request. */
module SignallingSessions {
  import opened Basics
  import opened Signalling

  // ---- at most one open session to a key ----

  /** The open session objects are exactly the registered ones, each under its own key. */
  predicate OpenInv(a: Acceptor) {
    && Indexed(a)
    && (forall i :: 0 <= i < |a.objects| && !a.objects[i].closed ==>
          a.objects[i].key in a.sessions && a.sessions[a.objects[i].key] == i)
    && (forall key :: key in a.sessions ==> !a.objects[a.sessions[key]].closed && a.objects[a.sessions[key]].key == key)
  }

  lemma UpdateOpen(a: Acceptor, i: nat, o: Session)
    requires OpenInv(a) && i < |a.objects| && o.key == a.objects[i].key && o.closed == a.objects[i].closed
    ensures OpenInv(Update(a, i, o))
  {
  }

  lemma CloseOpen(a: Acceptor, i: nat)
    requires OpenInv(a) && i < |a.objects|
    ensures OpenInv(Close(a, i)) && Close(a, i).objects[i].closed
    ensures !a.objects[i].closed ==> a.objects[i].key !in Close(a, i).sessions
  {
  }

  lemma HandlingOpen(a: Acceptor, h: Handling)
    requires OpenInv(a) && Indexed(a.(handling := h))
    ensures OpenInv(a.(handling := h))
  {
  }

  lemma CreateOpen(a: Acceptor, o: Session)
    requires OpenInv(a) && !o.closed && o.key !in a.sessions
    ensures OpenInv(a.(objects := a.objects + [o], sessions := a.sessions[o.key := |a.objects|]))
  {
  }

  lemma ReceiveOpen(a: Acceptor, r: Request, answer: Option<Bytes>)
    requires OpenInv(a)
    ensures OpenInv(Receive(a, r, answer))
  {
    hide OpenInv, Close, SessionKey;
    var key, n := SessionKey(r.tag, r.id), |a.objects|;
    OpenIndexed(a);
    if r.tag != [] && r.id != [] {
      if key in a.sessions {
        HandlingOpen(a, Adding(a.sessions[key], false, r.candidates, r));
      } else {
        var sdp := if answer.Some? then answer.value else [];
        var s0 := NewSession(key);
        var s1 := s0.(calls := [Offer(r.offer)], offers := [r.offer], description := sdp);
        var grown := a.(objects := a.objects + [s0], sessions := a.sessions[key := n]);
        var a' := a.(objects := a.objects + [s1], sessions := a.sessions[key := n]);
        assert Update(grown, n, s1) == a';
        CreateOpen(a, s0);
        CreateOpen(a, s1);
        OpenIndexed(a');
        CloseOpen(a', n);
        HandlingOpen(a', Adding(n, true, r.candidates, r));
      }
    }
  }

  lemma OpenIndexed(a: Acceptor)
    requires OpenInv(a)
    ensures Indexed(a)
  {
  }

  lemma NextOpen(a: Acceptor, ok: bool)
    requires OpenInv(a) && a.handling.Adding?
    ensures Indexed(a) && OpenInv(AddNext(a, ok))
  {
    hide OpenInv, Close;
    OpenIndexed(a);
    var h := a.handling;
    if h.left == [] {
      HandlingOpen(a, Queueing(h.session, h.request));
    } else {
      var o := a.objects[h.session];
      var a' := Update(a, h.session, AddRemote(o, h.left[0]));
      UpdateOpen(a, h.session, AddRemote(o, h.left[0]));
      HandlingOpen(a', h.(left := h.left[1..]));
      IdleOpen(a');
      CloseOpen(a', h.session);
      IdleOpen(Close(a', h.session));
    }
  }

  lemma IdleOpen(a: Acceptor)
    requires OpenInv(a)
    ensures OpenInv(a.(handling := Idle))
  {
  }

  lemma StepOpen(s: Sys, e: Event)
    requires OpenInv(s.acceptor) && Enabled(s, e)
    ensures Indexed(s.acceptor) && OpenInv(Step(s, e).acceptor)
  {
    hide OpenInv, Close, Receive, AddNext, OnResponse;
    OpenIndexed(s.acceptor);
    if e.OnAcceptor? {
      var a := s.acceptor;
      match e.a
      case PollRequest(r, answer) => ReceiveOpen(a, r, answer);
      case AddRemoteCandidate(ok) => NextOpen(a, ok);
      case QueueResponse => IdleOpen(a);
      case GatherRemote(i, x) => UpdateOpen(a, i, AddLocal(a.objects[i], x));
      case GatherRemoteDone(i) => UpdateOpen(a, i, a.objects[i].(gatheringDone := true));
      case PeerConnected(i) => UpdateOpen(a, i, a.objects[i].(connected := true));
      case CloseSession(i) => CloseOpen(a, i);
    }
  }

  lemma {:induction false} RunKeepsOpen(run: seq<Sys>, events: seq<Event>, i: nat)
    requires IsRun(run, events) && i < |run|
    ensures OpenInv(run[i].acceptor)
  {
    hide Step, Enabled;
    if i > 0 {
      RunKeepsOpen(run, events, i - 1);
      StepOpen(run[i - 1], events[i - 1]);
    }
  }

  /**
   * In every state of every run there is at most one open session to a key, and it is the one that requests with that
   * key are handled by; a closed session handles no request any more.
   */
  lemma OneOpenSession(run: seq<Sys>, events: seq<Event>, i: nat, m: nat, n: nat)
    requires IsRun(run, events) && i < |run| && m < |run[i].acceptor.objects| && n < |run[i].acceptor.objects|
    ensures var a := run[i].acceptor;
            && (!a.objects[m].closed && !a.objects[n].closed && a.objects[m].key == a.objects[n].key ==> m == n)
            && (!a.objects[m].closed <==> a.objects[m].key in a.sessions && a.sessions[a.objects[m].key] == m)
  {
    RunKeepsOpen(run, events, i);
  }

  // ---- what becomes of a request ----

  /** The peer takes every further candidate of the request in hand. */
  function HandOver(a: Acceptor): Acceptor
    requires Indexed(a)
    decreases if a.handling.Adding? then |a.handling.left| + 1 else 0
  {
    if a.handling.Adding? then HandOver(AddNext(a, true)) else a
  }

  lemma {:induction false} HandsOverAll(a: Acceptor)
    requires Indexed(a) && a.handling.Adding?
    ensures var h, a' := a.handling, HandOver(a);
            && a'.handling == Queueing(h.session, h.request) && a'.sessions == a.sessions
            && |a'.objects| == |a.objects|
            && a'.objects[h.session].received == a.objects[h.session].received + h.left
            && (forall i :: 0 <= i < |a.objects| && i != h.session ==> a'.objects[i] == a.objects[i])
            && a'.objects[h.session].description == a.objects[h.session].description
            && a'.objects[h.session].local == a.objects[h.session].local
    decreases |a.handling.left|
  {
    hide Close;
    var h := a.handling;
    if h.left != [] {
      HandsOverAll(AddNext(a, true));
      assert h.left == [h.left[0]] + h.left[1..];
    } else {
      var o := a.objects[h.session];
      assert o.received + [] == o.received;
    }
  }

  /**
   * Every request with a tag and an id to a session that exists, and every first one with an offer that the
   * peer accepts, is handled to the end when the peer takes its candidates: all of them are looked at, in
   * order, by the session of its key and no other, and a response to it is queued.
   */
  lemma RequestIsServed(a: Acceptor, r: Request, sdp: Bytes)
    requires Indexed(a) && a.handling.Idle? && r.tag != [] && r.id != []
    requires SessionKey(r.tag, r.id) in a.sessions || r.offer != []
    ensures var key := SessionKey(r.tag, r.id);
            var n := if key in a.sessions then a.sessions[key] else |a.objects|;
            var was := if key in a.sessions then a.objects[n].received else [];
            && Indexed(Receive(a, r, Some(sdp)))
            && var a' := HandOver(Receive(a, r, Some(sdp)));
            && a'.handling == Queueing(n, r) && n < |a'.objects| && key in a'.sessions && a'.sessions[key] == n
            && a'.objects[n].received == was + r.candidates
            && (key !in a.sessions ==> a'.objects[n].description == sdp && a'.objects[n].key == key)
            && |a.objects| <= |a'.objects|
            && (forall i :: 0 <= i < |a.objects| && i != n ==> a'.objects[i] == a.objects[i])
  {
    hide SessionKey, HandOver, Close;
    var a1 := Receive(a, r, Some(sdp));
    HandsOverAll(a1);
    HandsOverKey(a1);
  }

  lemma {:induction false} HandsOverKey(a: Acceptor)
    requires Indexed(a) && a.handling.Adding?
    ensures |HandOver(a).objects| == |a.objects|
    ensures HandOver(a).objects[a.handling.session].key == a.objects[a.handling.session].key
    decreases |a.handling.left|
  {
    hide Close;
    if a.handling.left != [] { HandsOverKey(AddNext(a, true)); }
  }

  /**
   * A candidate the peer refuses ends the handling without a response, and counts as seen. The session is closed if the
   * request had created it, and otherwise goes on.
   */
  lemma RefusalEndsHandling(a: Acceptor)
    requires OpenInv(a) && a.handling.Adding? && a.handling.left != []
    requires a.handling.left[0] !in a.objects[a.handling.session].remote && !a.objects[a.handling.session].closed
    ensures var h, a' := a.handling, AddNext(a, false);
            && a'.handling == Idle && |a'.objects| == |a.objects|
            && h.left[0] in a'.objects[h.session].remote && a'.objects[h.session].closed == h.created
            && (a.objects[h.session].key in a'.sessions <==> !h.created)
  {
  }
}
