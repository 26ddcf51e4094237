/**
 The handshake from end to end: a client that finds the engine honest and its signer unlocked gets a
 session, and the engine holds that session for exactly the profile the client sent.
 */
module Completeness {
  import opened Prelude
  import opened Wire
  import opened Domain
  import opened RegistrySpec
  import opened RegistryRuns
  import opened Survival
  import opened ClientSpec
  import opened ClientRuns
  import ReadLoop
  import Base64

  // ---- The client's side ----

  /** A callback whose parameters read, answered over a working connection; the policy and signer may do anything. */
  predicate WellFormedCallback(m: Moment)
  {
    m.recv.Got? && m.recv.frame.IsCallback() && m.recv.frame.params.Some? && m.sendOk
  }

  /** The response to request `id`, with this result. */
  predicate ReplyWith(m: Moment, id: nat, v: ResultValue)
  {
    ReadLoop.AnswersRequest(m, id) && m.recv.frame.result == Some(v)
  }

  /** `c'` differs from the waiting `c` only in `n` callbacks answered meanwhile. */
  predicate AfterCallbacks(c: Client, c': Client, n: nat)
  {
    && c.phase.Awaiting? && c'.phase == c.phase.(serviced := c.phase.serviced + n) && c'.clock == c.clock + n
    && c'.key == c.key && c'.nextId == c.nextId && c'.runs == c.runs && c'.base == c.base
  }

  lemma CallbackPasses(c: Client, m: Moment)
    requires c.phase.Awaiting? && c.phase.serviced < MAX_INTERLEAVED_CALLBACKS && WellFormedCallback(m)
    ensures AfterCallbacks(c, ClientSpec.Step(c, Receive, m), 1)
  {
    var c1 := c.(clock := c.clock + 1);
    StepIsReaction(c, m);
    hide ClientSpec.Step;
    KeepsClock(c1, m);
    ServiceAnswers(c1, m.recv.frame, m);
    ReadLoop.ReadableIsNotRefused(c1, m.recv.frame, m);
    hide Service, CallbackSigned, Carries;
  }

  /** Each of the next `n` frames is a callback that can be answered. */
  ghost predicate OnlyCallbacks(c: Client, world: nat -> Moment, n: nat)
  {
    n <= MAX_INTERLEAVED_CALLBACKS && forall t | c.clock < t <= c.clock + n :: WellFormedCallback(world(t))
  }

  lemma {:induction false} CallbacksPass(c: Client, world: nat -> Moment, n: nat)
    requires c.phase.Awaiting? && c.phase.serviced == 0 && OnlyCallbacks(c, world, n)
    ensures AfterCallbacks(c, Receives(c, world, n), n)
  {
    if n > 0 {
      hide ClientSpec.Step, WellFormedCallback, Receives;
      assert OnlyCallbacks(c, world, n - 1);
      CallbacksPass(c, world, n - 1);
      var before := Receives(c, world, n - 1);
      CallbackPasses(before, world(before.clock + 1));
      ReceivesNext(c, world, n - 1);
      AfterCallbacksSnoc(c, before, Receives(c, world, n), n - 1);
    } else {
      ReceivesNone(c, world);
      hide ClientSpec.Step, Receives;
    }
  }

  lemma AfterCallbacksSnoc(c: Client, mid: Client, c': Client, n: nat)
    requires AfterCallbacks(c, mid, n) && AfterCallbacks(mid, c', 1)
    ensures AfterCallbacks(c, c', n + 1)
  {}

  /** The first step of a handshake, on the present transport or a new one. */
  function Start(c: Client, restart: bool, profile: ProfileAttachment, m: Moment): Client
  {
    ClientSpec.Step(c, if restart then Input.Reattach(profile) else Input.BeginAndAttach(profile), m)
  }

  function LastSent(c: Client): OutgoingFrame
    requires c.wire != []
  {
    c.wire[|c.wire| - 1].frame
  }

  lemma StartSends(c: Client, restart: bool, profile: ProfileAttachment, m: Moment)
    requires c.phase.Ready? && m.sendOk
    ensures var c' := Start(c, restart, profile, m);
            && c'.wire != [] && c'.key == c.key && c'.clock == c.clock + 1
            && LastSent(c') == BeginRequest(c'.nextId - 1, BeginParams(profile.did, ToHex(c.key)))
            && c'.phase == Awaiting(c'.nextId - 1, 0, BeginCall(profile))
  {
    hide OnReceive, OnCallback, ToHex;
  }

  lemma BegunSends(c: Client, profile: ProfileAttachment, b: BeginResult, nonce: Nonce, v: ResultValue, m: Moment)
    requires c.phase.Awaiting? && c.phase.call == BeginCall(profile) && ReplyWith(m, c.phase.id, v)
             && v.begin == Some(b)
    requires Base64.Decode(b.nonceB64) == Some(nonce) && m.signer(ChallengeMessage(nonce, profile.did)).Some?
             && m.sendOk
    ensures var c', signature := ClientSpec.Step(c, Receive, m), m.signer(ChallengeMessage(nonce, profile.did)).value;
            && c'.wire != []
            && LastSent(c') == AttachRequest(c.nextId,
                                             AttachParams(b.sessionCandidate, Base64.Encode(signature), profile))
            && c'.phase == Awaiting(c.nextId, 0, AttachCall(profile))
  {
    StepIsReaction(c, m);
    hide ClientSpec.Step, Base64.Decode, Base64.Encode, ChallengeMessage, Service;
  }

  lemma AttachReplyOpens(c: Client, profile: ProfileAttachment, r: AttachResult, v: ResultValue, m: Moment)
    requires c.phase.Awaiting? && c.phase.call == AttachCall(profile) && ReplyWith(m, c.phase.id, v)
             && v.attach == Some(r)
    ensures ClientSpec.Step(c, Receive, m).phase ==
            Ready(Some(Opened(Session(r.sessionId, r.engineCapabilities, profile.did))))
  {
    StepIsReaction(c, m);
    hide ClientSpec.Step, Service, OnBegun;
  }

  // ---- The engine's side ----

  /** The engine's answer to a well-formed begin carries the nonce it will check against. */
  lemma BeginAnswers(s: Registry, key: Key, did: Bytes, entropy: Entropy)
    ensures var params := BeginParams(did, ToHex(key));
            && Admits(Op.Begin(params)) && FromHex(params.signingPubkeyHex) == Some(key)
            && BeginStep(s, params, entropy).1 ==
               Ok(BeginResult(Base64.Encode(entropy(s.drawn)), TokenAt(entropy, s.drawn)))
            && Base64.Decode(Base64.Encode(entropy(s.drawn))) == Some(entropy(s.drawn))
  {
    FromHexInvertsToHex(key);
    Base64.DecodeInvertsEncode(entropy(s.drawn));
    hide Admit;
  }

  /** An attach with the candidate's own DID, key and challenge signature opens a session for its profile. */
  lemma HonestAttachOpens(s: Registry, token: Bytes, nonce: Nonce, key: Key, profile: ProfileAttachment,
                          signature: Signature, verify: Verifier, entropy: Entropy)
    requires token in s.pending && s.pending[token] == Candidate(nonce, key, profile.did)
    requires verify(key, ChallengeMessage(nonce, profile.did), signature)
    ensures var params := AttachParams(token, Base64.Encode(signature), profile);
            var (s', r) := AttachStep(s, params, Some(key), verify, entropy);
            r.Ok? && r.value.sessionId in s'.sessions && s'.sessions[r.value.sessionId] == profile
  {
    Base64.DecodeInvertsEncode(signature);
    hide Base64.Encode, Base64.Decode;
  }

  // ---- Both together ----

  /** The begin and attach parameters a client has just sent. */
  function BegunWith(c: Client): BeginParams
  {
    if c.wire != [] && LastSent(c).BeginRequest? then LastSent(c).beginParams else BeginParams([], [])
  }

  function AttachedWith(c: Client): AttachParams
  {
    if c.wire != [] && LastSent(c).AttachRequest? then LastSent(c).attachParams
    else AttachParams([], [], ProfileAttachment([], [], []))
  }

  /** The frame received answers request `id` with what the engine returned, a result or an error. */
  predicate DeliversBegin(m: Moment, id: nat, r: Result<BeginResult, AttachError>)
  {
    match r
    case Ok(b) => ReadLoop.AnswersRequest(m, id) && m.recv.frame.result.value.begin == Some(b)
    case Err(_) => DeliversError(m, id)
  }

  predicate DeliversAttach(m: Moment, id: nat, r: Result<AttachResult, AttachError>)
  {
    match r
    case Ok(a) => ReadLoop.AnswersRequest(m, id) && m.recv.frame.result.value.attach == Some(a)
    case Err(_) => DeliversError(m, id)
  }

  predicate DeliversError(m: Moment, id: nat)
  {
    m.recv.Got? && !m.recv.frame.IsCallback() && m.recv.frame.id == Some(Number(id)) && m.recv.frame.error.Some?
  }

  /**
   One handshake between a client in its world and the engine. The engine has served `before` when the begin
   arrives and serves `between` before the attach; the client receives `firstWait` callbacks before the begin
   reply and `secondWait` before the attach reply.
   */
  datatype Handshake = Handshake(
    client: Client, world: nat -> Moment, restart: bool, profile: ProfileAttachment, firstWait: nat, secondWait: nat,
    entropy: Entropy, before: seq<Op>, between: seq<Op>, verify: Verifier)
  {
    // The client, step by step.
    function StartMoment(): Moment { world(client.clock + 1) }
    function Started(): Client { Start(client, restart, profile, StartMoment()) }
    function Waited(): Client { Receives(Started(), world, firstWait) }
    function BegunMoment(): Moment { world(Waited().clock + 1) }
    function Signed(): Client { ClientSpec.Step(Waited(), Receive, BegunMoment()) }
    function WaitedAgain(): Client { Receives(Signed(), world, secondWait) }
    function AttachedMoment(): Moment { world(WaitedAgain().clock + 1) }
    function End(): Client { ClientSpec.Step(WaitedAgain(), Receive, AttachedMoment()) }

    // The engine, request by request.
    function Found(): Registry { RegistrySpec.Run(before, entropy).reg }
    function BeginOp(): Op { Op.Begin(BegunWith(Started())) }
    function UpToAttach(): seq<Op> { before + [BeginOp()] + between }
    function FoundAgain(): Registry { RegistrySpec.Run(UpToAttach(), entropy).reg }
    function AttachOp(): Op { Op.Attach(AttachedWith(Signed()), Some(client.key), verify) }
    function Result(): Registry { NextRegistry(FoundAgain(), AttachOp(), entropy) }

    /** The message the client is to sign. */
    function Challenge(): Bytes { ChallengeMessage(entropy(Found().drawn), profile.did) }

    /** The client's side goes well: sends get through, callbacks are few and well formed, the signer is unlocked. */
    ghost predicate ClientIsServed()
    {
      && client.phase.Ready? && StartMoment().sendOk && BegunMoment().sendOk
      && OnlyCallbacks(Started(), world, firstWait) && OnlyCallbacks(Signed(), world, secondWait)
      && var signature := BegunMoment().signer(Challenge());
      && signature.Some? && verify(client.key, Challenge(), signature.value)
    }

    ghost predicate BeginReplyIsHonest()
    {
      Waited().phase.Awaiting? ==>
        DeliversBegin(BegunMoment(), Waited().phase.id, BeginStep(Found(), BegunWith(Started()), entropy).1)
    }

    ghost predicate AttachReplyIsHonest()
    {
      WaitedAgain().phase.Awaiting? ==>
        DeliversAttach(AttachedMoment(), WaitedAgain().phase.id,
                       AttachStep(FoundAgain(), AttachedWith(Signed()), Some(client.key), verify, entropy).1)
    }

    /** The engine is not too busy: at most 255 other begins, no attach with this candidate, no repeated draw. */
    ghost predicate CandidateIsSafe()
    {
      && Begins(between) < MAX_PENDING_CANDIDATES
      && (forall op :: op in between ==> !NamesToken(op, TokenAt(entropy, Found().drawn)))
      && Fresh(entropy, FoundAgain().drawn)
    }

    /** All of it: the replies a client gets are the engine's answers to the requests it sent. */
    ghost predicate Honest()
    {
      ClientIsServed() && BeginReplyIsHonest() && AttachReplyIsHonest() && CandidateIsSafe()
    }

    /** The engine holds the session for exactly the profile sent. */
    ghost predicate Holds(session: Session)
    {
      session.profileDid == profile.did && session.sessionId in Result().sessions
        && Result().sessions[session.sessionId] == profile
    }
  }

  lemma BeginIsSent(h: Handshake)
    requires h.ClientIsServed()
    ensures BegunWith(h.Started()) == BeginParams(h.profile.did, ToHex(h.client.key))
    ensures h.Waited().phase == Awaiting(h.Started().nextId - 1, h.firstWait, BeginCall(h.profile))
    ensures h.Waited().nextId == h.Started().nextId && h.Waited().clock == h.Started().clock + h.firstWait
  {
    hide ClientSpec.Step, Start, Receives, OnlyCallbacks, ChallengeMessage, RegistrySpec.Run, ToHex;
    StartSends(h.client, h.restart, h.profile, h.StartMoment());
    CallbacksPass(h.Started(), h.world, h.firstWait);
  }

  /** The begin reply leads the client to send an attach with the candidate and a signature over the engine's nonce. */
  lemma ClientSignsEngineNonce(h: Handshake)
    requires h.ClientIsServed() && h.BeginReplyIsHonest()
    ensures var signature := h.BegunMoment().signer(h.Challenge()).value;
            AttachedWith(h.Signed()) == AttachParams(TokenAt(h.entropy, h.Found().drawn), Base64.Encode(signature),
                                                     h.profile)
    ensures h.Signed().phase.Awaiting? && h.Signed().phase.serviced == 0
            && h.Signed().phase.call == AttachCall(h.profile)
  {
    hide ClientSpec.Step, Start, BeginStep, OnlyCallbacks, ChallengeMessage, RegistrySpec.Run, Receives;
    hide Base64.Encode, Base64.Decode, ToHex;
    BeginIsSent(h);
    BeginAnswers(h.Found(), h.client.key, h.profile.did, h.entropy);
    var b := BeginStep(h.Found(), BegunWith(h.Started()), h.entropy).1.value;
    BegunSends(h.Waited(), h.profile, b, h.entropy(h.Found().drawn), h.BegunMoment().recv.frame.result.value,
               h.BegunMoment());
  }

  /** The attach the client sends is the one that opens a session, when the engine still has the candidate. */
  lemma AttachIsAccepted(h: Handshake)
    requires h.ClientIsServed() && h.BeginReplyIsHonest() && h.CandidateIsSafe()
    ensures var r := AttachStep(h.FoundAgain(), AttachedWith(h.Signed()), Some(h.client.key), h.verify, h.entropy).1;
            r.Ok? && r.value.sessionId in h.Result().sessions && h.Result().sessions[r.value.sessionId] == h.profile
  {
    hide ClientSpec.Step, Start, BeginStep, OnlyCallbacks, ChallengeMessage, RegistrySpec.Run, Receives, AttachStep;
    hide Base64.Encode, ToHex;
    BeginIsSent(h);
    ClientSignsEngineNonce(h);
    BeginAnswers(h.Found(), h.client.key, h.profile.did, h.entropy);
    CandidateSurvives(h.before, BegunWith(h.Started()), h.between, h.entropy);
    HonestAttachOpens(h.FoundAgain(), AttachedWith(h.Signed()).sessionCandidate, h.entropy(h.Found().drawn),
                      h.client.key, h.profile, h.BegunMoment().signer(h.Challenge()).value, h.verify, h.entropy);
  }

  /**
   Completeness of the machine. Whatever the engine has served before, a client that is ready starts a
   handshake, on its present transport or on a new one. If its sends get through; if at most 64 well-formed
   callbacks come before each reply; if the replies it gets are the engine's answers to its requests; if its
   signer gives a signature that verifies for its key; if that key is what the DID resolves to; if at most 255
   other begins and no attach with its candidate come in between; and if draws do not repeat: then it
   ends with a session, which the engine holds for exactly the profile sent.
   */
  lemma HandshakeCompletes(h: Handshake) returns (session: Session)
    requires h.Honest()
    ensures h.End().phase == Ready(Some(Opened(session))) && h.Holds(session)
  {
    hide ClientSpec.Step, Start, BeginStep, OnlyCallbacks, ChallengeMessage, RegistrySpec.Run, Receives, AttachStep;
    hide Base64.Encode, ToHex;
    ClientSignsEngineNonce(h);
    AttachIsAccepted(h);
    CallbacksPass(h.Signed(), h.world, h.secondWait);
    var result := AttachStep(h.FoundAgain(), AttachedWith(h.Signed()), Some(h.client.key), h.verify, h.entropy).1.value;
    AttachReplyOpens(h.WaitedAgain(), h.profile, result, h.AttachedMoment().recv.frame.result.value,
                     h.AttachedMoment());
    session := Session(result.sessionId, result.engineCapabilities, h.profile.did);
  }

  // ---- From the machine to the method ----

  /** The end of a handshake is the state after all its frames. */
  lemma EndIsReceived(h: Handshake)
    ensures h.End() == Receives(h.Started(), h.world, h.firstWait + 1 + h.secondWait + 1)
  {
    hide ClientSpec.Step, Start;
    ReceivesAdd(h.Started(), h.world, h.firstWait + 1, h.secondWait + 1);
  }

  /** Once a call is over, frames left unread do not change its outcome. */
  lemma OutcomeStays(c: Client, world: nat -> Moment, m: nat, n: nat)
    requires Receives(c, world, m).phase.Ready? && m <= n
    ensures Receives(c, world, n).phase == Receives(c, world, m).phase
  {
    hide ClientSpec.Step, Receives;
    ReceivesAdd(c, world, m, n - m);
    ReadLoop.ReadyStays(Receives(c, world, m), world, n - m);
  }

  /** `h` is the handshake that a client starts for the profile in this world. */
  ghost predicate StartedBy(h: Handshake, c: Client, world: nat -> Moment, restart: bool, profile: ProfileAttachment)
  {
    h.client == c && h.world == world && h.restart == restart && h.profile == profile
  }

  /**
   Completeness of the method: if the handshake it was called for is an honest one, with any engine, it has
   returned a session, and that engine holds it for exactly the profile sent.
   */
  ghost predicate Completes(
    c: Client, world: nat -> Moment, restart: bool, profile: ProfileAttachment, r: Result<Session, SessionError>)
  {
    forall h: Handshake :: h.Honest() && StartedBy(h, c, world, restart, profile) ==> r.Ok? && h.Holds(r.value)
  }

  /** An honest handshake that is over after `n` frames has returned the session the engine holds. */
  lemma HonestReturns(h: Handshake, n: nat, r: Result<Session, SessionError>)
    requires h.Honest() && Receives(h.Started(), h.world, n).phase == Ready(Some(OutcomeOf(r)))
    ensures r.Ok? && h.Holds(r.value)
  {
    var session := HandshakeCompletes(h);
    EndIsReceived(h);
    var total := h.firstWait + 1 + h.secondWait + 1;
    hide ClientSpec.Step, Start, Receives;
    if n <= total {
      OutcomeStays(h.Started(), h.world, n, total);
    } else {
      OutcomeStays(h.Started(), h.world, total, n);
    }
  }

  lemma StartedByStarts(h: Handshake, c: Client, world: nat -> Moment, restart: bool, profile: ProfileAttachment)
    requires StartedBy(h, c, world, restart, profile)
    ensures h.Started() == Start(c, restart, profile, world(c.clock + 1)) && h.world == world
  {
    hide Start;
  }

  lemma OverAfter(
    c: Client, world: nat -> Moment, restart: bool, profile: ProfileAttachment, n: nat,
    r: Result<Session, SessionError>)
    requires Receives(Start(c, restart, profile, world(c.clock + 1)), world, n).phase == Ready(Some(OutcomeOf(r)))
    ensures Completes(c, world, restart, profile, r)
  {
    hide ClientSpec.Step, Start, Receives, StartedBy, Handshake.Honest, Handshake.Holds, Handshake.Started;
    forall h: Handshake | h.Honest() && StartedBy(h, c, world, restart, profile)
      ensures r.Ok? && h.Holds(r.value)
    {
      StartedByStarts(h, c, world, restart, profile);
      HonestReturns(h, n, r);
    }
  }

  // ---- The conditions can be met ----

  /** A moment in which nothing but `frame` arrives and the signer is unlocked. */
  function Arrival(frame: Received, signer: Bytes -> Option<Signature>): Moment
  {
    Moment(frame, _ => Deny(""), signer, true)
  }

  function ResultFrame(c: Client, v: ResultValue): Received
  {
    Got(IncomingFrame(Some(Number(if c.phase.Awaiting? then c.phase.id else 0)), None, None, Some(v), None))
  }

  /** The handshake in which nothing comes between: each request is served at once and its answer comes back. */
  function Undisturbed(client: Client, restart: bool, profile: ProfileAttachment, signer: Bytes -> Option<Signature>,
                       entropy: Entropy, before: seq<Op>, verify: Verifier): Handshake
  {
    var start := Arrival(Disconnected, signer);
    var started := Start(client, restart, profile, start);
    var params := BegunWith(started);
    var begun := match BeginStep(RegistrySpec.Run(before, entropy).reg, params, entropy).1
                 case Ok(b) => Arrival(ResultFrame(started, ResultValue(Some(b), None, false)), signer)
                 case Err(_) => start;
    var signed := ClientSpec.Step(started, Receive, begun);
    var found := RegistrySpec.Run(before + [Op.Begin(params)] + [], entropy).reg;
    var attached := match AttachStep(found, AttachedWith(signed), Some(client.key), verify, entropy).1
                    case Ok(a) => Arrival(ResultFrame(signed, ResultValue(None, Some(a), false)), signer)
                    case Err(_) => start;
    var t := client.clock;
    var world := (k: nat) => if k == t + 2 then begun else if k == t + 3 then attached else start;
    Handshake(client, world, restart, profile, 0, 0, entropy, before, [], verify)
  }

  /** An undisturbed handshake of a ready client whose signer is unlocked and whose next two draws are new. */
  ghost predicate Unhindered(h: Handshake)
  {
    && h == Undisturbed(h.client, h.restart, h.profile, h.StartMoment().signer, h.entropy, h.before, h.verify)
    && h.client.phase.Ready? && Fresh(h.entropy, h.Found().drawn + 2)
    && var signature := h.StartMoment().signer(h.Challenge());
    && signature.Some? && h.verify(h.client.key, h.Challenge(), signature.value)
  }

  /** What arrives in an undisturbed handshake. */
  lemma UnhinderedMoments(h: Handshake)
    requires Unhindered(h)
    ensures h.firstWait == 0 && h.secondWait == 0 && h.between == []
    ensures forall t :: h.world(t).sendOk && h.world(t).signer == h.StartMoment().signer
    ensures var r := BeginStep(h.Found(), BegunWith(h.Started()), h.entropy).1;
            r.Ok? ==>
              h.world(h.client.clock + 2).recv == ResultFrame(h.Started(), ResultValue(Some(r.value), None, false))
    ensures var signed := ClientSpec.Step(h.Started(), Receive, h.world(h.client.clock + 2));
            var r := AttachStep(h.FoundAgain(), AttachedWith(signed), Some(h.client.key), h.verify, h.entropy).1;
            r.Ok? ==> h.world(h.client.clock + 3).recv == ResultFrame(signed, ResultValue(None, Some(r.value), false))
  {
    hide ClientSpec.Step, Start, BeginStep, AttachStep, RegistrySpec.Run, ChallengeMessage, BegunWith, AttachedWith;
  }

  lemma UnhinderedIsServed(h: Handshake)
    requires Unhindered(h)
    ensures h.Waited() == h.Started() && h.Started().clock == h.client.clock + 1 && h.ClientIsServed()
  {
    UnhinderedMoments(h);
    hide ClientSpec.Step, Start, BeginStep, AttachStep, RegistrySpec.Run, Undisturbed, Fresh, BegunWith, AttachedWith;
    hide Handshake.Challenge, Handshake.Found, Handshake.FoundAgain;
    StartSends(h.client, h.restart, h.profile, h.StartMoment());
  }

  lemma UnhinderedBegins(h: Handshake)
    requires Unhindered(h)
    ensures h.BeginReplyIsHonest()
  {
    hide ClientSpec.Step, Start, BeginStep, AttachStep, RegistrySpec.Run, Undisturbed, Fresh, ToHex, FromHex,
         BegunWith, AttachedWith;
    hide Base64.Encode, Base64.Decode, Admits, Handshake.ClientIsServed, Handshake.Challenge, Handshake.FoundAgain;
    UnhinderedMoments(h);
    UnhinderedIsServed(h);
    BeginIsSent(h);
    BeginAnswers(h.Found(), h.client.key, h.profile.did, h.entropy);
  }

  /** Serving an admitted begin uses two draws. */
  lemma BeginDraws(before: seq<Op>, params: BeginParams, entropy: Entropy)
    requires Admits(Op.Begin(params))
    ensures RegistrySpec.Run(before + [Op.Begin(params)], entropy).reg.drawn ==
            RegistrySpec.Run(before, entropy).reg.drawn + 2
  {
    RegistrySpec.RunSnoc(START, before, Op.Begin(params), entropy);
    DrawnGrows(RegistrySpec.Run(before, entropy).reg, Op.Begin(params), entropy);
    hide NextRegistry, RegistrySpec.RunFrom, FromHex;
  }

  lemma SafeWithNothingBetween(h: Handshake)
    requires h.between == [] && Fresh(h.entropy, h.Found().drawn + 2)
    requires BegunWith(h.Started()) == BeginParams(h.profile.did, ToHex(h.client.key))
    ensures h.CandidateIsSafe()
  {
    BeginAnswers(h.Found(), h.client.key, h.profile.did, h.entropy);
    BeginDraws(h.before, BegunWith(h.Started()), h.entropy);
    hide ClientSpec.Step, Start, BeginStep, RegistrySpec.Run, ToHex, FromHex, Admits, Fresh, BegunWith;
    assert h.UpToAttach() == h.before + [h.BeginOp()];
  }

  lemma UnhinderedAttaches(h: Handshake)
    requires Unhindered(h) && h.CandidateIsSafe()
    ensures h.AttachReplyIsHonest()
  {
    hide Unhindered, ClientSpec.Step, Start, BeginStep, AttachStep, RegistrySpec.Run, Receipt, BegunWith, AttachedWith;
    hide Base64.Encode, Handshake.ClientIsServed, Handshake.BeginReplyIsHonest, Handshake.CandidateIsSafe;
    hide Handshake.Challenge, Handshake.Result, Handshake.FoundAgain, Handshake.Started;
    UnhinderedMoments(h);
    UnhinderedIsServed(h);
    UnhinderedBegins(h);
    BeginIsSent(h);
    AttachIsAccepted(h);
    ClientSignsEngineNonce(h);
    ReceiveStep(h.Waited(), h.BegunMoment());
    assert h.WaitedAgain() == h.Signed() && h.AttachedMoment() == h.world(h.client.clock + 3);
  }

  /**
   Every client that is ready completes an undisturbed handshake with an engine in any reachable state, on
   its present transport or on a new one, if its signer is unlocked and the next two draws are new.
   */
  lemma UndisturbedCompletes(h: Handshake) returns (session: Session)
    requires Unhindered(h)
    ensures h.Honest() && h.End().phase == Ready(Some(Opened(session))) && h.Holds(session)
  {
    UnhinderedIsServed(h);
    UnhinderedBegins(h);
    BeginIsSent(h);
    UnhinderedMoments(h);
    SafeWithNothingBetween(h);
    UnhinderedAttaches(h);
    hide Unhindered, ClientSpec.Step, Start, AttachStep, RegistrySpec.Run;
    session := HandshakeCompletes(h);
  }
}
