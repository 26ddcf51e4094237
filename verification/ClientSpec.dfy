/**
 What the app's session client does, one call start or received frame at a time, with the record of
 everything it sent and signed.
 */
module ClientSpec {
  import opened Prelude
  import opened Wire
  import opened Domain
  import Base64

  const MAX_INTERLEAVED_CALLBACKS: nat := 64

  datatype Session = Session(sessionId: Bytes, engineCapabilities: seq<Bytes>, profileDid: Bytes)

  datatype SessionError =
    | Io
    | FrameError
    | Engine(code: int, message: string)
    | IdMismatch
    | MalformedResponse
    | InvalidNonceLength(expected: nat, actual: nat)
    | NotASignCallback
    | TooManyCallbacks
    | Locked

  datatype SignRequest = SignRequest(
    sessionId: Bytes, opId: Bytes, payloadType: Bytes, payload: Bytes, context: Option<Bytes>)

  datatype SignDecision = Allow | Deny(reason: string)

  /** What a receive yields: nothing more to read, text that is not a frame, or a frame. */
  datatype Received = Disconnected | Garbled | Got(frame: IncomingFrame)

  /**
   How the outside world behaves while the client makes one step: the frame it receives, the policy,
   the signer (which may be locked now and unlocked later) and whether a send gets through.
   */
  datatype Moment = Moment(
    recv: Received,
    policy: SignRequest -> SignDecision,
    signer: Bytes -> Option<Signature>,
    sendOk: bool)

  /** The call whose reply is awaited. */
  datatype Call = BeginCall(profile: ProfileAttachment) | AttachCall(profile: ProfileAttachment) | DetachCall

  datatype Outcome =
    | Opened(session: Session)
    | DetachDone
    | Decided(decision: SignDecision)
    | Failed(error: SessionError)

  /** The outcome on record when a handshake has returned `r`. */
  function OutcomeOf(r: Result<Session, SessionError>): Outcome
  {
    match r
    case Ok(session) => Opened(session)
    case Err(e) => Failed(e)
  }

  datatype Phase = Ready(last: Option<Outcome>) | Awaiting(id: nat, serviced: nat, call: Call)

  /** One send and whether it got through. */
  datatype Attempt = Attempt(frame: OutgoingFrame, delivered: bool)

  datatype Purpose =
    | ForAttach(run: nat, profile: ProfileAttachment, candidate: Bytes, nonce: Bytes)
    | ForCallback(request: SignRequest)

  /** One signature the signer gave out: in which step, over which bytes, and what for. */
  datatype Signing = Signing(at: nat, message: Bytes, signature: Signature, purpose: Purpose)

  datatype Client = Client(
    key: Key,
    nextId: nat,
    phase: Phase,
    clock: nat,                    // steps made so far
    wire: seq<Attempt>,            // every send, over all transports
    base: nat,                     // where the current transport starts in `wire`
    runs: seq<ProfileAttachment>,  // the handshakes started, by profile
    log: seq<Signing>)

  function NewClient(key: Key): Client { Client(key, 1, Ready(None), 0, [], 0, [], []) }

  function Finish(c: Client, o: Outcome): Client { c.(phase := Ready(Some(o))) }

  function Fail(c: Client, e: SessionError): Client { Finish(c, Failed(e)) }

  function Send(c: Client, f: OutgoingFrame, ok: bool): Client { c.(wire := c.wire + [Attempt(f, ok)]) }

  /** Sends a request under the next id, which is used up whether or not the send gets through. */
  function StartCall(c: Client, request: OutgoingFrame, call: Call, ok: bool): Client
  {
    var sent := Send(c, request, ok).(nextId := c.nextId + 1);
    if ok then sent.(phase := Awaiting(c.nextId, 0, call)) else Fail(sent, Io)
  }

  function StartAttach(c: Client, profile: ProfileAttachment, m: Moment): Client
  {
    StartCall(c.(runs := c.runs + [profile]),
              BeginRequest(c.nextId, BeginParams(profile.did, ToHex(c.key))), BeginCall(profile), m.sendOk)
  }

  /** The request a callback's parameters make once its payload decodes. */
  function RequestOf(p: SignCallbackParams, payload: Bytes): SignRequest
  {
    SignRequest(p.sessionId, p.opId, p.payloadType, payload, p.context)
  }

  function ReplyId(f: IncomingFrame): Id { if f.id.Some? then f.id.value else Null }

  /** Sends the one reply to a callback; a send that fails is the caller's error. */
  function Reply(c: Client, f: OutgoingFrame, ok: bool, d: SignDecision): (Client, Result<SignDecision, SessionError>)
  {
    (Send(c, f, ok), if ok then Ok(d) else Err(Io))
  }

  function Service(c: Client, f: IncomingFrame, m: Moment): (Client, Result<SignDecision, SessionError>)
  {
    var id := ReplyId(f);
    match f.params
    case None => (c, Err(FrameError))
    case Some(p) =>
      match Base64.Decode(p.payloadB64)
      case None =>
        Reply(c, ErrorReply(id, RpcError(SIGN_DENIED, "sign payload is not valid base64")), m.sendOk,
              Deny("invalid base64 payload"))
      case Some(payload) =>
        match m.policy(RequestOf(p, payload))
        case Deny(reason) => Reply(c, ErrorReply(id, RpcError(SIGN_DENIED, reason)), m.sendOk, Deny(reason))
        case Allow =>
          match SignCallbackMessage(p.payloadType, payload)
          case None =>
            Reply(c, ErrorReply(id, RpcError(SIGN_DENIED, "sign payload_type exceeds the maximum length")), m.sendOk,
                  Deny("payload_type too long"))
          case Some(message) =>
            match m.signer(message)
            case None =>
              Reply(c, ErrorReply(id, RpcError(LOCKED, "active profile is locked; no key to sign with")), m.sendOk,
                    Deny("active profile is locked"))
            case Some(signature) =>
              Reply(c.(log := c.log + [Signing(c.clock, message, signature, ForCallback(RequestOf(p, payload)))]),
                    SignResult(id, Base64.Encode(signature), ToHex(c.key)), m.sendOk, Allow)
  }

  /** The error that refuses a non-callback frame as the reply to request `id`, if any. */
  function Refusal(f: IncomingFrame, id: nat): Option<SessionError>
  {
    if f.id != Some(Number(id)) then Some(IdMismatch)
    else if f.error.Some? then Some(Engine(f.error.value.code, f.error.value.message))
    else if f.result.None? then Some(MalformedResponse)
    else None
  }

  /** Whether a result reads as what the call expects. */
  predicate Reads(call: Call, v: ResultValue)
  {
    match call
    case BeginCall(_) => v.begin.Some?
    case AttachCall(_) => v.attach.Some?
    case DetachCall => v.detach
  }

  /** Signs the challenge of a begin reply and sends the attach request. */
  function OnBegun(c: Client, profile: ProfileAttachment, b: BeginResult, m: Moment): Client
  {
    match Base64.Decode(b.nonceB64)
    case None => Fail(c, MalformedResponse)
    case Some(nonce) =>
      if |nonce| != NONCE_LEN then Fail(c, InvalidNonceLength(NONCE_LEN, |nonce|))
      else
        match m.signer(ChallengeMessage(nonce, profile.did))
        case None => Fail(c, Locked)
        case Some(signature) =>
          var entry := Signing(c.clock, ChallengeMessage(nonce, profile.did), signature,
                               ForAttach(if |c.runs| > 0 then |c.runs| - 1 else 0, profile, b.sessionCandidate, nonce));
          StartCall(c.(log := c.log + [entry]),
                    AttachRequest(c.nextId, AttachParams(b.sessionCandidate, Base64.Encode(signature), profile)),
                    AttachCall(profile), m.sendOk)
  }

  /** What the awaited call goes on to do with its reply. */
  function Continue(c: Client, call: Call, v: ResultValue, m: Moment): Client
    requires Reads(call, v)
  {
    match call
    case BeginCall(profile) => OnBegun(c, profile, v.begin.value, m)
    case AttachCall(profile) =>
      Finish(c, Opened(Session(v.attach.value.sessionId, v.attach.value.engineCapabilities, profile.did)))
    case DetachCall => Finish(c, DetachDone)
  }

  /** One turn of the read loop: a callback is serviced, anything else ends the wait. */
  function OnReceive(c: Client, m: Moment): Client
    requires c.phase.Awaiting?
  {
    match m.recv
    case Disconnected => Fail(c, Io)
    case Garbled => Fail(c, FrameError)
    case Got(f) =>
      var Awaiting(id, serviced, call) := c.phase;
      if f.IsCallback() then
        if serviced + 1 > MAX_INTERLEAVED_CALLBACKS then Fail(c, TooManyCallbacks)
        else
          match Service(c, f, m)
          case (c', Err(e)) => Fail(c', e)
          case (c', Ok(_)) => c'.(phase := Awaiting(id, serviced + 1, call))
      else
        match Refusal(f, id)
        case Some(e) => Fail(c, e)
        case None => if Reads(call, f.result.value) then Continue(c, call, f.result.value, m) else Fail(c, FrameError)
  }

  /** A frame read while no reply is awaited must be a callback. */
  function OnCallback(c: Client, m: Moment): Client
  {
    match m.recv
    case Disconnected => Fail(c, Io)
    case Garbled => Fail(c, FrameError)
    case Got(f) =>
      if !f.IsCallback() then Fail(c, NotASignCallback)
      else
        match Service(c, f, m)
        case (c', Err(e)) => Fail(c', e)
        case (c', Ok(d)) => Finish(c', Decided(d))
  }

  /** `Reattach` swaps in a new transport and starts a handshake on it. */
  datatype Input =
    | BeginAndAttach(profile: ProfileAttachment)
    | Reattach(profile: ProfileAttachment)
    | Detach(sessionId: Bytes)
    | HandleCallback
    | Receive

  /** One step. An input the client is not ready for changes nothing but the clock. */
  function Step(c: Client, input: Input, m: Moment): Client
  {
    var c := c.(clock := c.clock + 1);
    if input == Receive then
      if c.phase.Awaiting? then OnReceive(c, m) else c
    else if c.phase.Awaiting? then c
    else
      match input
      case BeginAndAttach(profile) => StartAttach(c, profile, m)
      case Reattach(profile) => StartAttach(c.(nextId := 1, base := |c.wire|), profile, m)
      case Detach(sessionId) => StartCall(c, DetachRequest(c.nextId, sessionId), DetachCall, m.sendOk)
      case HandleCallback => OnCallback(c, m)
      case Receive => c
  }

  /** The state after `n` receives, the moments taken from `world` by the client's clock. */
  function Receives(c: Client, world: nat -> Moment, n: nat): Client
  {
    if n == 0 then c
    else
      var before := Receives(c, world, n - 1);
      Step(before, Receive, world(before.clock + 1))
  }

  lemma ReceivesNone(c: Client, world: nat -> Moment)
    ensures Receives(c, world, 0) == c
  {}

  lemma ReceivesNext(c: Client, world: nat -> Moment, n: nat)
    ensures var before := Receives(c, world, n);
            Receives(c, world, n + 1) == Step(before, Receive, world(before.clock + 1))
  {
    hide Step;
  }

  lemma {:induction false} ReceivesAdd(c: Client, world: nat -> Moment, i: nat, j: nat)
    ensures Receives(c, world, i + j) == Receives(Receives(c, world, i), world, j)
  {
    hide Step;
    if j != 0 {
      ReceivesAdd(c, world, i, j - 1);
    }
  }
}
