/** The loops of app/webrtc/webrtc.go, each against the function the transition system uses for it. */
module SignallingLoops {
  import opened Basics
  import opened Signalling
  import opened SignallingProofs

  /** What one select of the drain received. */
  datatype Received = FromChannel(c: Candidate) | GatheringDone

  function FromChannels(rs: seq<Received>): seq<Candidate>
    decreases |rs|
  {
    if rs == [] then []
    else FromChannels(rs[..|rs| - 1]) + (if rs[|rs| - 1].FromChannel? then [rs[|rs| - 1].c] else [])
  }

  /**
   * drainLocalCandidates, whatever callbacks do meanwhile: `selects` is what its selects receive, in order, until one
   * takes the default case. The list and its set grow by the new candidates among them.
   */
  method DrainLocalCandidates(selects: seq<Received>, acc: Known, done: bool, ghost heard: seq<Candidate>)
    returns (acc': Known, done': bool)
    requires Distinct(acc, NonEmpty(heard))
    ensures Distinct(acc', NonEmpty(heard + FromChannels(selects))) && acc.list <= acc'.list
    ensures done' == (done || GatheringDone in selects)
  {
    hide Distinct, NonEmpty, Drained, FromChannels;
    acc', done' := acc, done;
    var i := 0;
    DrainedNone(acc, selects);
    while i < |selects|
      invariant 0 <= i <= |selects| && acc' == Drained(acc, selects[..i])
      invariant done' == (done || GatheringDone in selects[..i])
    {
      DrainedNext(acc, selects, i);
      match selects[i] {
        case GatheringDone =>
          done' := true;
        case FromChannel(x) =>
          if x != [] && x !in acc'.set_ {
            acc' := Known(acc'.list + [x], acc'.set_ + {x});
          }
      }
      i := i + 1;
    }
    assert selects[..i] == selects;
    DrainedDistinct(acc, selects, heard);
  }

  /** The list and its set after the selects have received `rs`. */
  function Drained(acc: Known, rs: seq<Received>): Known
    decreases |rs|
  {
    if rs == [] then acc
    else
      var k, r := Drained(acc, rs[..|rs| - 1]), rs[|rs| - 1];
      if r.FromChannel? && r.c != [] then Learn(k, r.c) else k
  }

  lemma DrainedNone(acc: Known, rs: seq<Received>)
    ensures Drained(acc, rs[..0]) == acc
  {
  }

  lemma DrainedNext(acc: Known, rs: seq<Received>, i: nat)
    requires i < |rs|
    ensures var k, r := Drained(acc, rs[..i]), rs[i];
            Drained(acc, rs[..i + 1]) == if r.FromChannel? && r.c != [] then Learn(k, r.c) else k
    ensures GatheringDone in rs[..i + 1] <==> GatheringDone in rs[..i] || rs[i].GatheringDone?
  {
    assert rs[..i + 1][..i] == rs[..i] && rs[..i + 1] == rs[..i] + [rs[i]];
  }

  lemma {:induction false} DrainedDistinct(acc: Known, rs: seq<Received>, heard: seq<Candidate>)
    requires Distinct(acc, NonEmpty(heard))
    ensures Distinct(Drained(acc, rs), NonEmpty(heard + FromChannels(rs))) && acc.list <= Drained(acc, rs).list
    decreases |rs|
  {
    hide Distinct, NonEmpty;
    if rs == [] {
      assert heard + [] == heard;
    } else {
      var init, r := rs[..|rs| - 1], rs[|rs| - 1];
      DrainedDistinct(acc, init, heard);
      if r.FromChannel? {
        Heard(Drained(acc, init), heard + FromChannels(init), r.c);
        assert heard + FromChannels(rs) == (heard + FromChannels(init)) + [r.c];
      } else {
        assert FromChannels(rs) == FromChannels(init);
      }
    }
  }

  /** One candidate more: a new one is appended, an empty or known one is not. */
  lemma Heard(k: Known, heard: seq<Candidate>, x: Candidate)
    requires Distinct(k, NonEmpty(heard))
    ensures Distinct(if x == [] then k else Learn(k, x), NonEmpty(heard + [x]))
  {
    hide Distinct, NonEmpty;
    NonEmptySnoc(heard, x);
    LearnKeepsDistinct(k, NonEmpty(heard), x);
  }

  /** The part of signalLoop's state that a response changes. */
  class ClientState {
    const peer: PeerCall -> bool        // whether the peer accepts a call
    var answerApplied: bool
    var waiting: seq<Candidate>
    var remote: set<Candidate>
    var calls: seq<PeerCall>

    constructor (peer: PeerCall -> bool)
      ensures this.peer == peer && !answerApplied && waiting == [] && remote == {} && calls == []
    {
      this.peer := peer;
      answerApplied, waiting, remote, calls := false, [], {}, [];
    }

    ghost predicate Is(c: Client)
      reads this
    {
      answerApplied == c.answerApplied && waiting == c.waiting && remote == c.remote && calls == c.calls
    }

    method AddAll(cs: seq<Candidate>) returns (ok: bool)
      modifies this`calls
      ensures ok ==> calls == old(calls) + Adds(cs)
      ensures !ok ==> old(calls) < calls && calls <= old(calls) + Adds(cs)
    {
      var i := 0;
      while i < |cs|
        invariant 0 <= i <= |cs| && calls == old(calls) + Adds(cs[..i])
      {
        calls := calls + [Add(cs[i])];
        assert Adds(cs[..i + 1]) == Adds(cs[..i]) + [Add(cs[i])];
        assert Adds(cs[..i + 1]) <= Adds(cs);
        if !peer(Add(cs[i])) {
          return false;
        }
        i := i + 1;
      }
      assert cs[..i] == cs;
      return true;
    }

    /**
     * The candidate loop: new ones are handed to the peer, or buffered while there is no answer. It stops after the
     * first `n`, all of them unless the peer refuses the last one.
     */
    method ApplyCandidates(cs: seq<Candidate>) returns (ok: bool, ghost n: nat)
      modifies this`remote, this`calls, this`waiting
      ensures n <= |cs| && (ok ==> n == |cs|) && (!ok ==> n > 0 && answerApplied && old(calls) < calls)
      ensures remote == old(remote) + Elements(cs[..n])
      ensures calls == if answerApplied then old(calls) + Adds(Fresh(old(remote), cs[..n])) else old(calls)
      ensures waiting == if answerApplied then old(waiting) else old(waiting) + Fresh(old(remote), cs[..n])
    {
      hide Fresh, Elements, Adds;
      n := 0;
      var i := 0;
      NoneYet(remote, cs);
      assert old(calls) + [] == old(calls) && old(waiting) + [] == old(waiting);
      while i < |cs|
        invariant i == n <= |cs| && remote == old(remote) + Elements(cs[..n])
        invariant calls == if answerApplied then old(calls) + Adds(Fresh(old(remote), cs[..n])) else old(calls)
        invariant waiting == if answerApplied then old(waiting) else old(waiting) + Fresh(old(remote), cs[..n])
      {
        var x := cs[i];
        OneMore(old(remote), cs, n);
        i, n := i + 1, n + 1;
        if x !in remote {
          remote := remote + {x};
          if !answerApplied {
            waiting := waiting + [x];
          } else {
            calls := calls + [Add(x)];
            if !peer(Add(x)) {
              return false, n;
            }
          }
        }
      }
      return true, n;
    }

    /**
     * What signalLoop does with a response: all of OnResponse, or, when the peer refuses a call, everything up to that
     * call, with the first `n` candidates of the response looked at.
     */
    method ApplyResponse(resp: Response, ghost c: Client, ghost e: Envelope) returns (ok: bool, ghost n: nat)
      requires Is(c) && e.resp == resp
      modifies this
      ensures ok ==> Is(OnResponse(c, e))
      ensures !ok ==> c.calls < calls && calls <= OnResponse(c, e).calls
      ensures n <= |resp.candidates| && (!ok ==> remote == c.remote + Elements(resp.candidates[..n]))
      ensures !ok ==> (answerApplied <==> c.answerApplied || |calls| > |c.calls| + 1)
      ensures !ok ==> waiting == if n == 0 || c.answerApplied then c.waiting else []
    {
      hide Fresh, Adds, Elements;
      n := 0;
      var cs := resp.candidates;
      NoneYet(remote, cs);
      FreshPrefix(c.remote, cs, |cs|);
      if resp.description != [] && !answerApplied {
        ok := ApplyAnswer(resp.description);
        if !ok {
          assert calls <= OnResponse(c, e).calls;
          return ok, 0;
        }
      }
      ghost var before := calls;
      ok, n := ApplyCandidates(cs);
      ElementsAppend([], cs);
      assert cs[..|cs|] == cs;
      FreshPrefix(c.remote, cs, n);
      AddsPrefix(Fresh(c.remote, cs[..n]), Fresh(c.remote, cs));
      assert answerApplied ==> before + Adds(Fresh(c.remote, cs[..n])) <= before + Adds(Fresh(c.remote, cs));
    }

    /** The first answer: the peer gets it, and then what was buffered for want of it. */
    method ApplyAnswer(description: Bytes) returns (ok: bool)
      requires !answerApplied
      modifies this`answerApplied, this`waiting, this`calls
      ensures ok ==>
        && answerApplied && waiting == []
        && calls == old(calls) + [Answer(description)] + Adds(old(waiting))
      ensures !ok ==>
        && waiting == old(waiting) && (answerApplied <==> |calls| > |old(calls)| + 1)
        && old(calls) < calls && calls <= old(calls) + [Answer(description)] + Adds(old(waiting))
    {
      hide Adds;
      calls := calls + [Answer(description)];
      if !peer(Answer(description)) {
        return false;
      }
      answerApplied := true;
      ok := AddAll(waiting);
      if ok {
        waiting := [];
      }
    }
  }

  lemma NoneYet(seen: set<Candidate>, cs: seq<Candidate>)
    ensures Fresh(seen, cs[..0]) == [] && Adds([]) == [] && Elements(cs[..0]) == {}
  {
  }

  /** The next candidate is new exactly when it is neither among those seen before nor earlier in the list. */
  lemma OneMore(seen: set<Candidate>, cs: seq<Candidate>, n: nat)
    requires n < |cs|
    ensures var x := cs[n]; var news := Fresh(seen, cs[..n]); var isNew := x !in seen + Elements(cs[..n]);
            && Fresh(seen, cs[..n + 1]) == (if isNew then news + [x] else news)
            && Adds(news + [x]) == Adds(news) + [Add(x)]
            && Elements(cs[..n + 1]) == Elements(cs[..n]) + {x}
  {
    assert cs[..n + 1] == cs[..n] + [cs[n]];
    FreshSnoc(seen, cs[..n], cs[n]);
  }

  lemma FreshSnoc(seen: set<Candidate>, cs: seq<Candidate>, x: Candidate)
    ensures Fresh(seen, cs + [x]) == Fresh(seen, cs) + (if x in seen || x in cs then [] else [x])
  {
    assert (cs + [x])[..|cs|] == cs;
    FreshCovers(seen, cs);
  }

  lemma {:induction false} FreshCovers(seen: set<Candidate>, cs: seq<Candidate>)
    ensures forall x :: x in Fresh(seen, cs) <==> x in cs && x !in seen
    decreases |cs|
  {
    if cs != [] {
      FreshCovers(seen, cs[..|cs| - 1]);
      assert cs == cs[..|cs| - 1] + [cs[|cs| - 1]];
    }
  }

  lemma AddsPrefix(a: seq<Candidate>, b: seq<Candidate>)
    requires a <= b
    ensures Adds(a) <= Adds(b)
  {
  }

  lemma {:induction false} FreshPrefix(seen: set<Candidate>, cs: seq<Candidate>, i: nat)
    requires i <= |cs|
    ensures Fresh(seen, cs[..i]) <= Fresh(seen, cs)
    decreases |cs|
  {
    if i < |cs| {
      FreshPrefix(seen, cs[..|cs| - 1], i);
      assert cs[..|cs| - 1][..i] == cs[..i];
    } else {
      assert cs[..i] == cs;
    }
  }

  /** An acceptorSession's locked fields. */
  class SessionState {
    const peer: Candidate -> bool       // whether AddICECandidate succeeds
    var value: Session

    constructor (peer: Candidate -> bool, s: Session)
      ensures this.peer == peer && value == s
    {
      this.peer, value := peer, s;
    }

    /** addCandidates: hands over each unseen candidate, until one is refused. */
    method AddCandidates(candidates: seq<Candidate>) returns (ok: bool, handled: nat)
      requires SessionInv(value)
      modifies this
      ensures handled <= |candidates| && (ok ==> handled == |candidates|)
      ensures SessionInv(value) && value.received == old(value).received + candidates[..handled]
      ensures value == old(value).(remote := value.remote, calls := value.calls, received := value.received)
      ensures !ok ==> handled > 0 && !peer(candidates[handled - 1])
    {
      hide SessionInv, AddRemote;
      handled := 0;
      ghost var was := value;
      assert was.received + candidates[..0] == was.received;
      while handled < |candidates|
        invariant handled <= |candidates| && SessionInv(value)
        invariant value.received == was.received + candidates[..handled]
        invariant value == was.(remote := value.remote, calls := value.calls, received := value.received)
      {
        var x := candidates[handled];
        assert was.received + candidates[..handled + 1] == (was.received + candidates[..handled]) + [x];
        AddRemoteKeeps(value, x);
        AddRemoteFrame(value, x);
        var known := x in value.remote;
        value := AddRemote(value, x);
        handled := handled + 1;
        if !known && !peer(x) {
          return false, handled;
        }
      }
      return true, handled;
    }
  }

  lemma AddRemoteFrame(s: Session, x: Candidate)
    ensures var s' := AddRemote(s, x);
            s' == s.(remote := s'.remote, calls := s'.calls, received := s.received + [x])
  {
  }
}
