/**
 * The WebRTC signalling protocol (app/webrtc/webrtc.go) as a transition system: the client's
 * signalLoop with its candidate channel and send gate, the acceptor's request handling and
 * sessions, and a relay that may lose, repeat and reorder every message.
 *
 * Fields marked "history" record what happened for the theorems; no step looks at them.
 */
module Signalling {
  import opened Basics

  type Candidate = Bytes

  /** Calls a side makes on its own peer connection, in order. */
  datatype PeerCall = Offer(sdp: Bytes) | Answer(sdp: Bytes) | Add(c: Candidate)

  function Adds(cs: seq<Candidate>): (r: seq<PeerCall>)
    ensures |r| == |cs| && forall i :: 0 <= i < |cs| ==> r[i] == Add(cs[i])
  {
    seq(|cs|, i requires 0 <= i < |cs| => Add(cs[i]))
  }

  datatype Request = Request(tag: Bytes, id: Bytes, offer: Bytes, candidates: seq<Candidate>)
  datatype Response = Response(description: Bytes, candidates: seq<Candidate>, stop: bool)

  /**
   * A response on its way, with its history: the session object that built it, whether its peer was connected
   * then, and the request handled.
   */
  datatype Envelope = Envelope(resp: Response, origin: nat, connected: bool, request: Request)

  const TAG_SIZE := 16
  const CHANNEL_SIZE := 16
  const RELEASE_DELAY := 500   // milliseconds

  function SessionKey(tag: Bytes, id: Bytes): Bytes {
    tag + [124] + id   // '|'
  }

  /** Reply tags of one size make the key injective. */
  lemma SessionKeyInjective(t1: Bytes, id1: Bytes, t2: Bytes, id2: Bytes)
    requires |t1| == |t2|
    ensures SessionKey(t1, id1) == SessionKey(t2, id2) <==> t1 == t2 && id1 == id2
  {
    var k1, k2 := SessionKey(t1, id1), SessionKey(t2, id2);
    if k1 == k2 {
      assert k1[..|t1|] == t1 && k2[..|t2|] == t2;
      assert k1[|t1| + 1..] == id1 && k2[|t2| + 1..] == id2;
    }
  }

  // ---- deduplicated lists, as every candidate list is kept ----

  datatype Known = Known(list: seq<Candidate>, set_: set<Candidate>)

  /** Append unless already seen. */
  function Learn(k: Known, c: Candidate): Known {
    if c in k.set_ then k else Known(k.list + [c], k.set_ + {c})
  }

  const NOTHING := Known([], {})

  // ---- the client's send gate ----

  datatype Gate = Gate(enabled: bool, started: bool, releaseAt: int)

  predicate AllowSend(g: Gate, now: int) {
    !g.enabled || (g.started && now >= g.releaseAt)
  }

  function StartCountdown(g: Gate, now: int): Gate {
    if !g.enabled || g.started then g else g.(started := true, releaseAt := now + RELEASE_DELAY)
  }

  // ---- client ----

  datatype Phase =
    | Collecting      // collectInitialCandidates
    | DrainToSend     // drainLocalCandidates at the top of the loop
    | Awaiting        // inside RoundTrip
    | DrainToDecide   // drainLocalCandidates after a response
    | Sleeping        // waitSignalPoll
    | ResumeDrain     // waitForSignalResume: draining
    | ResumeBlocked   // waitForSignalResume: blocked in select
    | Stopped         // finished by itself
    | Failed          // a peer call failed; the peer is closed
    | Cancelled       // context done

  datatype Client = Client(
    tag: Bytes,
    id: Bytes,
    offer: Bytes,
    phase: Phase,
    local: Known,                       // localCandidates, localCandidateSet
    gatheringDone: bool,                // localGatheringDone (and the signal channel set to nil)
    waiting: seq<Candidate>,            // pendingRemoteCandidates
    remote: set<Candidate>,             // remoteCandidateSet
    answerApplied: bool,
    gate: Gate,
    pending: seq<Candidate>,            // candidates of the request last sent
    last: Envelope,                     // response being acted on
    calls: seq<PeerCall>,
    received: seq<Candidate>)           // history: candidates of all responses, in order

  /** The candidate channel and the gathering-done channel, both fed by the peer's callbacks. */
  datatype Gathering = Gathering(
    channel: seq<Candidate>,
    closed: bool,                       // gatheringDoneCh closed
    accepted: seq<Candidate>,           // history: everything the channel took
    consumed: seq<Candidate>,           // history: everything the loop has read from it
    gathered: seq<Candidate>,           // history: everything the callback was given
    dropped: seq<Candidate>)            // history: what it dropped because the channel was full

  predicate Draining(p: Phase) {
    p.Collecting? || p.DrainToSend? || p.DrainToDecide? || p.ResumeDrain? || p.ResumeBlocked?
  }

  /** One candidate read from the channel: empty ones are skipped. */
  function TakeLocal(c: Client, x: Candidate): Client {
    c.(local := if x == [] then c.local else Learn(c.local, x),
       phase := if c.phase.ResumeBlocked? then ResumeDrain else c.phase)
  }

  function TakeDone(c: Client): Client {
    c.(gatheringDone := true,
       phase := match c.phase
                case Collecting => DrainToSend
                case ResumeBlocked => ResumeDrain
                case p => p)
  }

  function NextRequest(c: Client, now: int): Request {
    Request(c.tag, c.id, c.offer, if AllowSend(c.gate, now) then c.local.list else [])
  }

  /** After a drain that found nothing more: send, decide, or check whether to resume. */
  function AfterDrain(c: Client, now: int, later: int): Client {
    match c.phase
    case DrainToSend => c.(phase := Awaiting, pending := NextRequest(c, now).candidates)
    case DrainToDecide =>
      if c.last.resp.stop && c.answerApplied then
        var gate := StartCountdown(c.gate, now);
        if !AllowSend(gate, later) then c.(gate := gate, phase := Sleeping)
        else if |c.local.list| > |c.pending| then c.(gate := gate, phase := DrainToSend)
        else c.(gate := gate, phase := ResumeDrain)
      else c.(phase := Sleeping)
    case ResumeDrain =>
      if |c.local.list| > |c.pending| then c.(phase := DrainToSend)
      else if c.gatheringDone then c.(phase := Stopped)
      else c.(phase := ResumeBlocked)
    case _ => c
  }

  /** The candidates of a response that were not seen before, each once, in order. */
  function Fresh(seen: set<Candidate>, cs: seq<Candidate>): seq<Candidate>
    decreases |cs|
  {
    if cs == [] then []
    else
      var f := Fresh(seen, cs[..|cs| - 1]);
      var x := cs[|cs| - 1];
      if x in seen || x in f then f else f + [x]
  }

  /** Acting on a response: apply a first answer and what waited for it, then the new candidates, or buffer them. */
  function OnResponse(c: Client, e: Envelope): Client {
    var applies := e.resp.description != [] && !c.answerApplied;
    var applied := c.answerApplied || applies;
    var news := Fresh(c.remote, e.resp.candidates);
    var calls := if applies then c.calls + [Answer(e.resp.description)] + Adds(c.waiting) else c.calls;
    var waiting := if applies then [] else c.waiting;
    c.(phase := DrainToDecide,
       answerApplied := applied,
       remote := c.remote + (set x | x in e.resp.candidates),
       waiting := if applied then waiting else waiting + news,
       calls := if applied then calls + Adds(news) else calls,
       last := e,
       received := c.received + e.resp.candidates)
  }

  // ---- acceptor ----

  datatype Session = Session(
    key: Bytes,
    description: Bytes,                 // localDescription
    local: Known,                       // localCandidates, localCandidateSet
    remote: set<Candidate>,             // remoteCandidateSet
    gatheringDone: bool,
    connected: bool,
    closed: bool,
    calls: seq<PeerCall>,
    offers: seq<Bytes>,                 // history: offers accepted
    received: seq<Candidate>)           // history: candidates of requests, in the order handled

  function AddLocal(s: Session, c: Candidate): Session {
    if c == [] then s else s.(local := Learn(s.local, c))
  }

  /** One candidate of a request: it is handed to the peer unless seen before. */
  function AddRemote(s: Session, c: Candidate): Session {
    s.(remote := s.remote + {c},
       calls := if c in s.remote then s.calls else s.calls + [Add(c)],
       received := s.received + [c])
  }

  function CurrentResponse(s: Session): Response {
    Response(s.description, s.local.list, s.gatheringDone || s.connected)
  }

  /** Where the poll loop is within handleRequest. */
  datatype Handling =
    | Idle
    | Adding(session: nat, created: bool, left: seq<Candidate>, request: Request)
    | Queueing(queue: nat, request: Request)

  datatype Acceptor = Acceptor(handling: Handling, objects: seq<Session>, sessions: map<Bytes, nat>)

  function NewSession(key: Bytes): Session {
    Session(key, [], NOTHING, {}, false, false, false, [], [], [])
  }

  function Update(a: Acceptor, i: nat, s: Session): Acceptor
    requires i < |a.objects|
  {
    a.(objects := a.objects[i := s])
  }

  function Close(a: Acceptor, i: nat): Acceptor
    requires i < |a.objects|
  {
    if a.objects[i].closed then a
    else Update(a, i, a.objects[i].(closed := true)).(sessions := a.sessions - {a.objects[i].key})
  }

  /** The start of handleRequest: find or create the session; a created one accepts the offer. */
  function Receive(a: Acceptor, r: Request, answer: Option<Bytes>): Acceptor
    requires forall key :: key in a.sessions ==> a.sessions[key] < |a.objects|
  {
    var key := SessionKey(r.tag, r.id);
    if r.tag == [] || r.id == [] then a
    else if key in a.sessions then a.(handling := Adding(a.sessions[key], false, r.candidates, r))
    else
      var n := |a.objects|;
      var grown := a.(objects := a.objects + [NewSession(key)], sessions := a.sessions[key := n]);
      if r.offer == [] then grown
      else
        var s := NewSession(key).(calls := [Offer(r.offer)], offers := [r.offer]);
        match answer
        case None => Close(Update(grown, n, s), n)
        case Some(sdp) => Update(grown, n, s.(description := sdp)).(handling := Adding(n, true, r.candidates, r))
  }

  /** The next candidate of addCandidates; `ok` is what AddICECandidate returned, if it was called. */
  function AddNext(a: Acceptor, ok: bool): Acceptor
    requires a.handling.Adding? && a.handling.session < |a.objects|
  {
    var h := a.handling;
    if h.left == [] then a.(handling := Queueing(h.session, h.request))
    else
      var s := a.objects[h.session];
      var a' := Update(a, h.session, AddRemote(s, h.left[0]));
      if h.left[0] in s.remote || ok then a'.(handling := h.(left := h.left[1..]))
      else if h.created then Close(a', h.session).(handling := Idle)
      else a'.(handling := Idle)
  }

  // ---- the system ----

  datatype Sys = Sys(
    now: int,
    client: Client,
    gathering: Gathering,
    acceptor: Acceptor,
    requests: seq<Request>,             // every request ever sent; the relay may deliver any, any number of times
    responses: seq<Envelope>)           // likewise

  /** The client's peer callbacks. */
  datatype GatherEvent = GatherLocal(c: Candidate) | GatherLocalDone

  /** Steps of the client loop. */
  datatype LoopEvent =
    | TakeCandidate
    | TakeGatheringDone
    | CollectTimeout
    | NothingMore(later: int)           // the default case of a drain; `later` is a second reading of the clock
    | RoundTripFails                    // error, empty or undecodable answer
    | Respond(i: nat)                   // RoundTrip returns response i
    // The same, and the peer call after `done` of them fails: the loop returns, and only `calls` outlives it.
    | RespondPeerFails(j: nat, done: nat)
    | Wake
    | Cancel

  /** Steps of the acceptor: its poll loop, and the callbacks of its sessions' peers. */
  datatype AcceptorEvent =
    | PollRequest(r: Request, answer: Option<Bytes>)
    | AddRemoteCandidate(ok: bool)
    | QueueResponse
    | GatherRemote(session: nat, c: Candidate)
    | GatherRemoteDone(session: nat)
    | PeerConnected(session: nat)
    | CloseSession(session: nat)

  datatype Event = Tick(now: int) | OnGather(g: GatherEvent) | OnLoop(l: LoopEvent) | OnAcceptor(a: AcceptorEvent)

  function Key(c: Client): Bytes {
    SessionKey(c.tag, c.id)
  }

  /** A request of another client: another tag of the same size, and no other restriction. */
  predicate Foreign(c: Client, r: Request) {
    |r.tag| == TAG_SIZE && r.tag != c.tag
  }

  predicate LoopEnabled(s: Sys, e: LoopEvent) {
    var c, g := s.client, s.gathering;
    match e
    case TakeCandidate => Draining(c.phase) && g.channel != []
    case TakeGatheringDone => Draining(c.phase) && g.closed && !c.gatheringDone
    case CollectTimeout => c.phase.Collecting?
    case NothingMore(later) =>
      && (c.phase.DrainToSend? || c.phase.DrainToDecide? || c.phase.ResumeDrain?)
      && g.channel == [] && !(g.closed && !c.gatheringDone) && later >= s.now
    case RoundTripFails => c.phase.Awaiting?
    case Respond(i) => c.phase.Awaiting? && i < |s.responses|
    case RespondPeerFails(j, done) =>
      && c.phase.Awaiting? && j < |s.responses|
      && |c.calls| + done < |OnResponse(c, s.responses[j]).calls|
    case Wake => c.phase.Sleeping?
    case Cancel => !c.phase.Stopped? && !c.phase.Failed?
  }

  predicate AcceptorEnabled(s: Sys, e: AcceptorEvent) {
    var a := s.acceptor;
    match e
    case PollRequest(r, _) => a.handling.Idle? && (r in s.requests || Foreign(s.client, r))
    case AddRemoteCandidate(_) => a.handling.Adding?
    case QueueResponse => a.handling.Queueing?
    case GatherRemote(i, _) => i < |a.objects| && !a.objects[i].gatheringDone
    case GatherRemoteDone(i) => i < |a.objects|
    case PeerConnected(i) => i < |a.objects|
    case CloseSession(i) => i < |a.objects|
  }

  predicate Enabled(s: Sys, e: Event) {
    match e
    case Tick(now) => now >= s.now
    // Candidate callbacks precede the gathering-done callback.
    case OnGather(g) => g.GatherLocal? ==> !s.gathering.closed
    case OnLoop(l) => LoopEnabled(s, l)
    case OnAcceptor(a) => AcceptorEnabled(s, a)
  }

  /** Indices held by the acceptor stay within the objects created so far. */
  predicate Indexed(a: Acceptor) {
    && (forall key :: key in a.sessions ==> a.sessions[key] < |a.objects|)
    && (a.handling.Adding? ==> a.handling.session < |a.objects|)
    && (a.handling.Queueing? ==> a.handling.queue < |a.objects|)
  }

  function GatherStep(g: Gathering, e: GatherEvent): Gathering {
    match e
    case GatherLocal(x) =>
      if |g.channel| < CHANNEL_SIZE then
        g.(channel := g.channel + [x], accepted := g.accepted + [x], gathered := g.gathered + [x])
      else g.(dropped := g.dropped + [x], gathered := g.gathered + [x])
    case GatherLocalDone => g.(closed := true)
  }

  function LoopStep(s: Sys, e: LoopEvent): Sys
    requires LoopEnabled(s, e)
  {
    var c, g := s.client, s.gathering;
    match e
    case TakeCandidate =>
      s.(client := TakeLocal(c, g.channel[0]),
        gathering := g.(channel := g.channel[1..], consumed := g.consumed + [g.channel[0]]))
    case TakeGatheringDone => s.(client := TakeDone(c))
    case CollectTimeout => s.(client := c.(phase := DrainToSend))
    case NothingMore(later) =>
      s.(client := AfterDrain(c, s.now, later), now := later,
         requests := if c.phase.DrainToSend? then s.requests + [NextRequest(c, s.now)] else s.requests)
    case RoundTripFails => s.(client := c.(phase := Sleeping))
    case Respond(i) => s.(client := OnResponse(c, s.responses[i]))
    case RespondPeerFails(j, done) =>
      var c' := OnResponse(c, s.responses[j]);
      s.(client := c'.(phase := Failed, calls := c'.calls[..|c.calls| + done + 1]))
    case Wake => s.(client := c.(phase := DrainToSend))
    case Cancel => s.(client := c.(phase := Cancelled))
  }

  function AcceptorStep(s: Sys, e: AcceptorEvent): Sys
    requires AcceptorEnabled(s, e) && Indexed(s.acceptor)
  {
    var a := s.acceptor;
    match e
    case PollRequest(r, answer) => s.(acceptor := Receive(a, r, answer))
    case AddRemoteCandidate(ok) => s.(acceptor := AddNext(a, ok))
    case QueueResponse =>
      var o := a.objects[a.handling.queue];
      var e := Envelope(CurrentResponse(o), a.handling.queue, o.connected, a.handling.request);
      s.(acceptor := a.(handling := Idle), responses := s.responses + [e])
    case GatherRemote(i, x) => s.(acceptor := Update(a, i, AddLocal(a.objects[i], x)))
    case GatherRemoteDone(i) => s.(acceptor := Update(a, i, a.objects[i].(gatheringDone := true)))
    case PeerConnected(i) => s.(acceptor := Update(a, i, a.objects[i].(connected := true)))
    case CloseSession(i) => s.(acceptor := Close(a, i))
  }

  function Step(s: Sys, e: Event): Sys
    requires Enabled(s, e) && Indexed(s.acceptor)
  {
    match e
    case Tick(now) => s.(now := now)
    case OnGather(g) => s.(gathering := GatherStep(s.gathering, g))
    case OnLoop(l) => LoopStep(s, l)
    case OnAcceptor(a) => AcceptorStep(s, a)
  }

  function Start(now: int, tag: Bytes, id: Bytes, offer: Bytes, gated: bool): Sys {
    Sys(now,
        Client(tag, id, offer, Collecting, NOTHING, false, [], {}, false, Gate(gated, false, 0), [],
               Envelope(Response([], [], false), 0, false, Request([], [], [], [])), [], []),
        Gathering([], false, [], [], [], []),
        Acceptor(Idle, [], map[]),
        [], [])
  }

  predicate Initial(s: Sys) {
    && s == Start(s.now, s.client.tag, s.client.id, s.client.offer, s.client.gate.enabled)
    && |s.client.tag| == TAG_SIZE && s.client.id != [] && s.client.offer != []
  }

  /** `run` is a run of the system: consecutive states are linked by the events. */
  predicate IsRun(run: seq<Sys>, events: seq<Event>) {
    && |run| == |events| + 1 && Initial(run[0])
    && forall i :: 0 <= i < |events| ==>
         Indexed(run[i].acceptor) && Enabled(run[i], events[i]) && run[i + 1] == Step(run[i], events[i])
  }
}
