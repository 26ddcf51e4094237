/**
 Detaching from end to end: the engine drops the session the client named and keeps the others, and the
 client is told.
 */
module Detaching {
  import opened Prelude
  import opened Wire
  import opened RegistrySpec
  import opened ClientSpec
  import opened ClientRuns
  import opened Completeness
  import EngineAnswers
  import ReadLoop

  /** A detach sends one request, under the next id, for the session it was called with. */
  lemma DetachSends(c: Client, sessionId: Bytes, m: Moment)
    requires c.phase.Ready?
    ensures var c' := ClientSpec.Step(c, Input.Detach(sessionId), m);
            && c'.wire == c.wire + [Attempt(DetachRequest(c.nextId, sessionId), m.sendOk)]
            && c'.nextId == c.nextId + 1 && c'.log == c.log && c'.clock == c.clock + 1
            && c'.phase == if m.sendOk then Awaiting(c.nextId, 0, DetachCall) else Ready(Some(Failed(Io)))
  {
    hide OnReceive, OnCallback;
  }

  lemma DetachStarts(c: Client, sessionId: Bytes, m: Moment)
    requires c.phase.Ready?
    ensures StartCall(c.(clock := c.clock + 1), DetachRequest(c.nextId, sessionId), DetachCall, m.sendOk) ==
            ClientSpec.Step(c, Input.Detach(sessionId), m)
    ensures ClientSpec.Step(c, Input.Detach(sessionId), m).clock == c.clock + 1
  {
    hide OnReceive, OnCallback;
  }

  /** The session a client has just asked the engine to drop. */
  function AskedToDrop(c: Client): Bytes
  {
    if c.wire != [] && LastSent(c).DetachRequest? then LastSent(c).sessionId else []
  }

  /** One detach by a client in its world, of a session it has; the engine finds `found` when the request comes. */
  datatype Detachment = Detachment(client: Client, world: nat -> Moment, session: Session, wait: nat, found: Registry)
  {
    function StartMoment(): Moment { world(client.clock + 1) }
    function Started(): Client { ClientSpec.Step(client, Input.Detach(session.sessionId), StartMoment()) }
    function Waited(): Client { Receives(Started(), world, wait) }
    function ReplyMoment(): Moment { world(Waited().clock + 1) }
    function End(): Client { ClientSpec.Step(Waited(), Receive, ReplyMoment()) }

    /** What the engine holds once it has served the request the client sent. */
    function Result(): Registry { DetachStep(found, AskedToDrop(Started())).0 }

    /** The send gets through, at most 64 readable callbacks come first, and the engine's acknowledgement comes back. */
    ghost predicate Honest()
    {
      && client.phase.Ready? && StartMoment().sendOk && OnlyCallbacks(Started(), world, wait)
      && (Waited().phase.Awaiting? ==>
            ReadLoop.AnswersRequest(ReplyMoment(), Waited().phase.id) && ReplyMoment().recv.frame.result.value.detach)
    }

    /** The engine no longer has the session, and has every other one as it was. */
    ghost predicate Dropped()
    {
      && session.sessionId !in Result().sessions
      && forall id | id != session.sessionId ::
           && (id in Result().sessions <==> id in found.sessions)
           && (id in found.sessions ==> Result().sessions[id] == found.sessions[id])
    }
  }

  /** The engine drops the session the client detaches from, and no other, once it serves the request sent. */
  lemma EngineDrops(d: Detachment)
    requires d.client.phase.Ready?
    ensures AskedToDrop(d.Started()) == d.session.sessionId && d.Dropped()
  {
    DetachSends(d.client, d.session.sessionId, d.StartMoment());
    EngineAnswers.DetachAnswersExactly(d.found, d.session.sessionId);
    hide ClientSpec.Step, DetachStep;
  }

  lemma AcknowledgementEnds(c: Client, m: Moment)
    requires c.phase.Awaiting? && c.phase.call == DetachCall
    requires ReadLoop.AnswersRequest(m, c.phase.id) && m.recv.frame.result.value.detach
    ensures ClientSpec.Step(c, Receive, m).phase == Ready(Some(DetachDone))
  {
    StepIsReaction(c, m);
    hide ClientSpec.Step, Service, OnBegun;
  }

  lemma AwaitsAcknowledgement(d: Detachment)
    requires d.Honest()
    ensures d.Waited().phase.Awaiting? && d.Waited().phase.call == DetachCall
  {
    DetachSends(d.client, d.session.sessionId, d.StartMoment());
    hide ClientSpec.Step, Receives, OnlyCallbacks, ReadLoop.AnswersRequest;
    CallbacksPass(d.Started(), d.world, d.wait);
  }

  lemma DetachEnds(d: Detachment)
    requires d.Honest()
    ensures d.End() == Receives(d.Started(), d.world, d.wait + 1) && d.End().phase == Ready(Some(DetachDone))
  {
    hide ClientSpec.Step, Receives, OnlyCallbacks, Detachment.Started, ReadLoop.AnswersRequest;
    AwaitsAcknowledgement(d);
    AcknowledgementEnds(d.Waited(), d.ReplyMoment());
    ReceivesNext(d.Started(), d.world, d.wait);
  }

  /** The outcome on record when a detach has returned `r`. */
  function DetachOutcome(r: Result<(), SessionError>): Outcome
  {
    match r
    case Ok(_) => DetachDone
    case Err(e) => Failed(e)
  }

  ghost predicate DetachStartedBy(d: Detachment, c: Client, world: nat -> Moment, session: Session)
  {
    d.client == c && d.world == world && d.session == session
  }

  /**
   If the detach the method was called for is an honest one, with any engine, it returns Ok and that engine
   has dropped the session.
   */
  ghost predicate Detaches(c: Client, world: nat -> Moment, session: Session, r: Result<(), SessionError>)
  {
    forall d: Detachment :: d.Honest() && DetachStartedBy(d, c, world, session) ==> r.Ok? && d.Dropped()
  }

  lemma HonestDetachReturns(d: Detachment, n: nat, r: Result<(), SessionError>)
    requires d.Honest() && Receives(d.Started(), d.world, n).phase == Ready(Some(DetachOutcome(r)))
    ensures r.Ok? && d.Dropped()
  {
    DetachEnds(d);
    EngineDrops(d);
    hide ClientSpec.Step, Receives, Detachment.Dropped;
    if n <= d.wait + 1 {
      OutcomeStays(d.Started(), d.world, n, d.wait + 1);
    } else {
      OutcomeStays(d.Started(), d.world, d.wait + 1, n);
    }
  }

  /** A detach that is over after `n` frames, with the outcome its method returns, keeps the promise. */
  lemma DetachOverAfter(c: Client, world: nat -> Moment, session: Session, n: nat, r: Result<(), SessionError>)
    requires Receives(ClientSpec.Step(c, Input.Detach(session.sessionId), world(c.clock + 1)), world, n).phase ==
             Ready(Some(DetachOutcome(r)))
    ensures Detaches(c, world, session, r)
  {
    hide ClientSpec.Step, Receives, Detachment.Honest, Detachment.Dropped;
    forall d: Detachment | d.Honest() && DetachStartedBy(d, c, world, session)
      ensures r.Ok? && d.Dropped()
    {
      HonestDetachReturns(d, n, r);
    }
  }

  /** A session a handshake returned is one the engine has, and a detach of it makes the engine drop it. */
  lemma OpenedThenDropped(h: Handshake, d: Detachment, session: Session)
    requires h.Honest() && h.End().phase == Ready(Some(Opened(session)))
    requires d.client.phase.Ready? && d.session == session && d.found == h.Result()
    ensures session.sessionId in d.found.sessions && d.Dropped()
  {
    EngineDrops(d);
    hide ClientSpec.Step, Detachment.Dropped, Handshake.Honest, Handshake.Result;
    var returned := HandshakeCompletes(h);
  }
}
