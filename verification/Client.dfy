/**
 The app half: the object that drives the handshake, services callbacks, detaches and re-attaches,
 proved to do what `ClientSpec` says.
 */
module Client {
  import opened Prelude
  import opened Wire
  import opened Domain
  import opened Seqs
  import Spec = ClientSpec
  import opened ClientSpec
  import opened ClientRuns
  import ReadLoop
  import Completeness
  import Detaching
  import opened ClientAnswers
  import Base64

  /**
   A call in state `c` has ended in `c'` with `r`: its error is the one the specification reaches on the
   frames received, and its result is one the specification goes on from.
   */
  ghost predicate Ends(c: Spec.Client, c': Spec.Client, world: nat -> Moment, call: Call,
                       r: Result<ResultValue, SessionError>)
  {
    c.clock <= c'.clock &&
    var reached := Receives(c, world, c'.clock - c.clock);
    match r
    case Ok(v) => Reads(call, v) && Continue(c', call, v, world(c'.clock)) == reached
    case Err(e) => c'.phase == Ready(Some(Failed(e))) && c' == reached
  }

  lemma EndsNow(c: Spec.Client, before: Spec.Client, c': Spec.Client, world: nat -> Moment, call: Call,
                r: Result<ResultValue, SessionError>, n: nat)
    requires before == Receives(c, world, n) && before.clock == c.clock + n && c'.clock == before.clock + 1
    requires match r
             case Ok(v) => Reads(call, v) && Continue(c', call, v, world(c'.clock)) ==
               Step(before, Receive, world(c'.clock))
             case Err(e) => c'.phase == Ready(Some(Failed(e))) && c' == Step(before, Receive, world(c'.clock))
    ensures Ends(c, c', world, call, r)
  {
    hide Step, Continue;
  }

  class SessionClient {
    const key: Key
    /** The outside world: `world(t)` is how it behaves during step `t`. */
    const world: nat -> Moment
    var nextId: nat
    var wire: seq<Attempt>
    var base: nat
    var clock: nat
    ghost var phase: Phase
    ghost var runs: seq<ProfileAttachment>
    ghost var log: seq<Signing>
    /** Every turn taken so far. */
    ghost var turns: seq<Turn>

    ghost function View(): Spec.Client
      reads this
    {
      Spec.Client(key, nextId, phase, clock, wire, base, runs, log)
    }

    /** The object's state is the one the specification reaches on the turns taken. */
    ghost predicate Valid()
      reads this
    {
      View() == Run(key, turns)
    }

    constructor (key: Key, world: nat -> Moment)
      ensures View() == NewClient(key) && this.world == world && turns == [] && Valid()
    {
      this.key, this.world := key, world;
      nextId, wire, base, clock := 1, [], 0, 0;
      phase, runs, log, turns := Ready(None), [], [], [];
    }

    /** Records an operation: its first turn and the frames received since. */
    ghost method Record(input: Input, first: nat)
      requires 1 <= first <= clock && first == |turns| + 1
      requires View() == Receives(Step(Run(key, turns), input, world(first)), world, clock - first)
      modifies this`turns
      ensures Valid() && turns == old(turns) + CallTurns(input, world, first, clock)
    {
      hide Step, Run, Receives;
      var begun := turns + [Turn(input, world(first))];
      RunSnoc(key, turns, Turn(input, world(first)));
      ReceivesIsRun(key, begun, world, clock - first);
      Assoc(turns, [Turn(input, world(first))], ReceiveTurns(world, first, clock - first));
      turns := begun + ReceiveTurns(world, first, clock - first);
    }

    method SendFrame(frame: OutgoingFrame) returns (ok: bool)
      modifies this`wire
      ensures ok == world(clock).sendOk
      ensures View() == Send(old(View()), frame, ok)
    {
      ok := world(clock).sendOk;
      wire := wire + [Attempt(frame, ok)];
    }

    method RecvFrame() returns (r: Received)
      modifies this`clock
      ensures clock == old(clock) + 1 && r == world(clock).recv
    {
      clock := clock + 1;
      r := world(clock).recv;
    }

    /** Asks the signer, which may be locked, and logs the signature it gives. */
    method TrySign(message: Bytes, ghost purpose: Purpose) returns (signature: Option<Signature>)
      modifies this`log
      ensures signature == world(clock).signer(message)
      ensures log == if signature.Some? then old(log) + [Signing(clock, message, signature.value, purpose)]
              else old(log)
    {
      signature := world(clock).signer(message);
      if signature.Some? {
        log := log + [Signing(clock, message, signature.value, purpose)];
      }
    }

    method SendError(id: Id, code: int, message: string) returns (ok: bool)
      modifies this`wire
      ensures ok == world(clock).sendOk
      ensures View() == Send(old(View()), ErrorReply(id, RpcError(code, message)), ok)
    {
      ok := SendFrame(ErrorReply(id, RpcError(code, message)));
    }

    method ServiceSignCallback(frame: IncomingFrame) returns (r: Result<SignDecision, SessionError>)
      modifies this`wire, this`log
      ensures (View(), r) == Service(old(View()), frame, world(clock))
    {
      var id := ReplyId(frame);
      if frame.params.None? {
        return Err(FrameError);
      }
      var params := frame.params.value;
      var decoded := Base64.Decode(params.payloadB64);
      if decoded.None? {
        var ok := SendError(id, SIGN_DENIED, "sign payload is not valid base64");
        return if ok then Ok(Deny("invalid base64 payload")) else Err(Io);
      }
      var payload := decoded.value;
      var decision := world(clock).policy(RequestOf(params, payload));
      match decision
      case Allow =>
        var message := SignCallbackMessage(params.payloadType, payload);
        if message.None? {
          var ok := SendError(id, SIGN_DENIED, "sign payload_type exceeds the maximum length");
          return if ok then Ok(Deny("payload_type too long")) else Err(Io);
        }
        var signature := TrySign(message.value, ForCallback(RequestOf(params, payload)));
        if signature.None? {
          var ok := SendError(id, LOCKED, "active profile is locked; no key to sign with");
          return if ok then Ok(Deny("active profile is locked")) else Err(Io);
        }
        var ok := SendFrame(SignResult(id, Base64.Encode(signature.value), ToHex(key)));
        if !ok {
          return Err(Io);
        }
        r := Ok(decision);
      case Deny(reason) =>
        var ok := SendError(id, SIGN_DENIED, reason);
        if !ok {
          return Err(Io);
        }
        r := Ok(decision);
    }

    method HandleNextSignCallback() returns (r: Result<SignDecision, SessionError>)
      requires Valid() && phase.Ready?
      modifies this
      ensures Valid() && turns == old(turns) + [Turn(HandleCallback, world(clock))]
      ensures View() == Step(old(View()), HandleCallback, world(clock)) && clock == old(clock) + 1
      ensures phase == Ready(Some(match r case Ok(d) => Decided(d) case Err(e) => Failed(e)))
    {
      hide Service;
      var received := RecvFrame();
      ghost var c, m := View(), world(clock);
      assert Step(old(View()), HandleCallback, m) == OnCallback(c, m);
      match received {
        case Disconnected =>
          r := Err(Io);
        case Garbled =>
          r := Err(FrameError);
        case Got(frame) =>
          if frame.IsCallback() {
            r := ServiceSignCallback(frame);
            assert (View(), r) == Service(c, frame, m);
          } else {
            r := Err(NotASignCallback);
          }
      }
      phase := Ready(Some(match r case Ok(d) => Decided(d) case Err(e) => Failed(e)));
      assert received.Disconnected? ==> View() == OnCallback(c, m);
      assert received.Garbled? ==> View() == OnCallback(c, m);
      assert received.Got? ==> View() == OnCallback(c, m);
      RunBasics(key, turns);
      ReceivesNone(View(), world);
      hide Step, Run, Receives, OnCallback;
      Record(HandleCallback, clock);
      assert CallTurns(HandleCallback, world, clock, clock) == [Turn(HandleCallback, world(clock))];
    }

    /**
     One turn of the read loop, `serviced` callbacks into it: None when it serviced another callback,
     otherwise the end of the wait. A result is left for the caller to act on.
     */
    method ReadFrame(awaited: nat, serviced: nat, call: Call) returns (r: Option<Result<ResultValue, SessionError>>)
      requires phase == Awaiting(awaited, serviced, call)
      modifies this`clock, this`wire, this`log, this`phase
      ensures clock == old(clock) + 1
      ensures r.None? ==>
                && phase == Awaiting(awaited, serviced + 1, call) && serviced < MAX_INTERLEAVED_CALLBACKS
                && View() == Step(old(View()), Receive, world(clock))
                && Grew(old(wire), wire) && ReadLoop.RepliesTo(wire[|old(wire)|], world(clock))
      ensures r.Some? && r.value.Err? ==>
                && phase == Ready(Some(Failed(r.value.error)))
                && View() == Step(old(View()), Receive, world(clock))
      ensures r.Some? && r.value.Ok? ==>
                && Reads(call, r.value.value) && View() == old(View()).(clock := clock)
                && Continue(View(), call, r.value.value, world(clock)) == Step(old(View()), Receive, world(clock))
                && ReadLoop.AnswersRequest(world(clock), awaited)
      ensures r.Some? ==> CarriesEngineError(r.value, true, world(clock), awaited)
    {
      hide Service, Step;
      var received := RecvFrame();
      ghost var c, m := View(), world(clock);
      StepIsReaction(old(View()), m);
      var error := Io;
      if received.Garbled? {
        error := FrameError;
      } else if received.Got? {
        var frame := received.frame;
        if frame.IsCallback() {
          if serviced + 1 > MAX_INTERLEAVED_CALLBACKS {
            error := TooManyCallbacks;
          } else {
            var done := ServiceSignCallback(frame);
            ServiceAnswers(c, frame, m);
            if done.Ok? {
              phase := Awaiting(awaited, serviced + 1, call);
              return None;
            }
            error := done.error;
          }
        } else if frame.id != Some(Number(awaited)) {
          error := IdMismatch;
        } else if frame.error.Some? {
          error := SessionError.Engine(frame.error.value.code, frame.error.value.message);
        } else if frame.result.None? {
          error := MalformedResponse;
        } else if !Reads(call, frame.result.value) {
          error := FrameError;
        } else {
          return Some(Ok(frame.result.value));
        }
      }
      phase := Ready(Some(Failed(error)));
      assert View() == OnReceive(c, m);
      r := Some(Err(error));
    }

    /**
     Reads frames until the reply to `awaited` comes, servicing the callbacks that come before it. A result
     means that the frames read were k callbacks, at most 64, and then that reply, and that the frames
     sent were exactly the k replies, in order, each under its callback's id or null.
     */
    method ReadResponse(awaited: nat, call: Call) returns (r: Result<ResultValue, SessionError>)
      requires phase == Awaiting(awaited, 0, call)
      modifies this`clock, this`wire, this`log, this`phase
      ensures old(clock) < clock <= old(clock) + MAX_INTERLEAVED_CALLBACKS + 1
      ensures r.Ok? ==> ReadLoop.RepliedUntil(old(View()), View(), world, awaited)
      ensures CarriesEngineError(r, true, world(clock), awaited)
      ensures Ends(old(View()), View(), world, call, r)
    {
      ghost var start := View();
      ReceivesNone(start, world);
      ReadLoop.NoneReplied(start, world);
      hide Step, Continue, Receives, Ends, ReadLoop.Replied, ReadLoop.RepliedUntil, ReadLoop.RepliesTo,
           ReadLoop.AnswersRequest, Grew, CarriesEngineError;
      var callbacksServiced := 0;
      while true
        invariant phase == Awaiting(awaited, callbacksServiced, call)
        invariant 0 <= callbacksServiced <= MAX_INTERLEAVED_CALLBACKS && clock == start.clock + callbacksServiced
        invariant View() == Receives(start, world, callbacksServiced)
        invariant ReadLoop.Replied(start, View(), world)
        decreases MAX_INTERLEAVED_CALLBACKS - callbacksServiced
      {
        ghost var before := View();
        ReceivesNext(start, world, callbacksServiced);
        var turn := ReadFrame(awaited, callbacksServiced, call);
        if turn.Some? {
          EndsNow(start, before, View(), world, call, turn.value, callbacksServiced);
          if turn.value.Ok? {
            ReadLoop.RepliedThen(start, before, View(), world, awaited);
          }
          return turn.value;
        }
        ReadLoop.RepliedSnoc(start, before, View(), world);
        callbacksServiced := callbacksServiced + 1;
      }
    }

    /** Starts a call under the next id and, if the request got through, awaits its reply. */
    method Call(request: OutgoingFrame, call: Call) returns (r: Result<ResultValue, SessionError>)
      modifies this`nextId, this`clock, this`wire, this`log, this`phase
      ensures old(clock) <= clock <= old(clock) + MAX_INTERLEAVED_CALLBACKS + 1
      ensures nextId == old(nextId) + 1
      ensures r.Ok? ==> clock > old(clock) && ReadLoop.AnswersRequest(world(clock), old(nextId))
      ensures CarriesEngineError(r, clock > old(clock), world(clock), old(nextId))
      ensures Ends(StartCall(old(View()), request, call, world(old(clock)).sendOk), View(), world, call, r)
    {
      hide Step, OnReceive, Continue;
      var id := nextId;
      nextId := nextId + 1;
      var ok := SendFrame(request);
      if !ok {
        phase := Ready(Some(Failed(Io)));
        return Err(Io);
      }
      phase := Awaiting(id, 0, call);
      assert View() == StartCall(old(View()), request, call, ok);
      r := ReadResponse(id, call);
    }

    /** Signs the challenge of a begin reply and runs the attach call. */
    method SignAndAttach(profile: ProfileAttachment, begin: BeginResult) returns (r: Result<Session, SessionError>)
      modifies this`nextId, this`clock, this`wire, this`log, this`phase
      ensures old(clock) <= clock <= old(clock) + MAX_INTERLEAVED_CALLBACKS + 1
      ensures phase == Ready(Some(OutcomeOf(r)))
      ensures old(nextId) <= nextId <= old(nextId) + 1 && (clock > old(clock) ==> nextId == old(nextId) + 1)
      ensures CarriesEngineError(r, clock > old(clock), world(clock), old(nextId))
      ensures View() == Receives(OnBegun(old(View()), profile, begin, world(old(clock))), world, clock - old(clock))
    {
      ReceivesNone(OnBegun(View(), profile, begin, world(clock)), world);
      hide OnReceive, Step, Receives, CarriesEngineError, ReadLoop.AnswersRequest;
      hide Base64.Decode, Base64.Encode, ChallengeMessage;
      ghost var c := View();
      var decoded := Base64.Decode(begin.nonceB64);
      if decoded.None? {
        phase := Ready(Some(Failed(MalformedResponse)));
        r := Err(MalformedResponse);
        NoEngineErrorBefore(r, world(clock), nextId);
        return;
      }
      var nonce := decoded.value;
      if |nonce| != NONCE_LEN {
        phase := Ready(Some(Failed(InvalidNonceLength(NONCE_LEN, |nonce|))));
        r := Err(InvalidNonceLength(NONCE_LEN, |nonce|));
        NoEngineErrorBefore(r, world(clock), nextId);
        return;
      }
      var signature := TrySign(ChallengeMessage(nonce, profile.did),
                               ForAttach(if |runs| > 0 then |runs| - 1 else 0, profile, begin.sessionCandidate, nonce));
      if signature.None? {
        phase := Ready(Some(Failed(Locked)));
        r := Err(Locked);
        NoEngineErrorBefore(r, world(clock), nextId);
        return;
      }
      var request := AttachRequest(
        nextId, AttachParams(begin.sessionCandidate, Base64.Encode(signature.value), profile));
      assert StartCall(View(), request, AttachCall(profile), world(clock).sendOk) ==
             OnBegun(c, profile, begin, world(clock));
      hide StartCall, OnBegun;
      var attached := Call(request, AttachCall(profile));
      if attached.Err? {
        r := Err(attached.error);
        SameEngineError(attached, r, clock > old(clock), world(clock), old(nextId));
        return;
      }
      var attach := attached.value.attach.value;
      r := Ok(Session(attach.sessionId, attach.engineCapabilities, profile.did));
      NoEngineErrorAfter(r, world(clock), old(nextId));
      phase := Ready(Some(Opened(r.value)));
    }

    /** The handshake once the client's step has begun: the begin call, then the signature and the attach call. */
    method Handshake(profile: ProfileAttachment) returns (r: Result<Session, SessionError>)
      requires phase.Ready?
      modifies this`nextId, this`clock, this`wire, this`log, this`phase, this`runs
      ensures old(clock) <= clock <= old(clock) + 2 * (MAX_INTERLEAVED_CALLBACKS + 1)
      ensures phase == Ready(Some(OutcomeOf(r)))
      ensures nextId > old(nextId) && CarriesEngineError(r, clock > old(clock), world(clock), nextId - 1)
      ensures View() == Receives(StartAttach(old(View()), profile, world(old(clock))), world, clock - old(clock))
    {
      hide Step, OnReceive, OnBegun, Receives;
      ghost var start, t0 := StartAttach(View(), profile, world(clock)), clock;
      runs := runs + [profile];
      var request := BeginRequest(nextId, BeginParams(profile.did, ToHex(key)));
      assert StartCall(View(), request, BeginCall(profile), world(clock).sendOk) == start;
      hide StartAttach, StartCall;
      var begun := Call(request, BeginCall(profile));
      if begun.Err? {
        return Err(begun.error);
      }
      ghost var t1 := clock;
      r := SignAndAttach(profile, begun.value.begin.value);
      ReceivesAdd(start, world, t1 - t0, clock - t1);
    }

    /**
     The full handshake. It ends, whatever the engine sends, after at most 130 received frames, in the
     state the specification reaches on those frames; and if it was an honest one it returns the session.
     */
    method BeginAndAttach(profile: ProfileAttachment) returns (r: Result<Session, SessionError>)
      requires Valid() && phase.Ready?
      modifies this
      ensures old(clock) < clock <= old(clock) + 1 + 2 * (MAX_INTERLEAVED_CALLBACKS + 1)
      ensures Valid() && turns == old(turns) + CallTurns(Input.BeginAndAttach(profile), world, old(clock) + 1, clock)
      ensures phase == Ready(Some(OutcomeOf(r)))
      ensures Completeness.Completes(old(View()), world, false, profile, r)
      ensures nextId > 0 && CarriesEngineError(r, clock > old(clock) + 1, world(clock), nextId - 1)
      ensures View() == Receives(Step(old(View()), Input.BeginAndAttach(profile), world(old(clock) + 1)), world,
                                 clock - old(clock) - 1)
    {
      hide StartAttach, Receives, Run, Completeness.Completes;
      RunBasics(key, turns);
      clock := clock + 1;
      r := Handshake(profile);
      Record(Input.BeginAndAttach(profile), old(clock) + 1);
      Completeness.OverAfter(old(View()), world, false, profile, clock - old(clock) - 1, r);
    }

    /** A handshake on a new transport, whose ids start again at 1. */
    method Reattach(profile: ProfileAttachment) returns (r: Result<Session, SessionError>)
      requires Valid() && phase.Ready?
      modifies this
      ensures old(clock) < clock <= old(clock) + 1 + 2 * (MAX_INTERLEAVED_CALLBACKS + 1)
      ensures Valid() && turns == old(turns) + CallTurns(Input.Reattach(profile), world, old(clock) + 1, clock)
      ensures phase == Ready(Some(OutcomeOf(r)))
      ensures Completeness.Completes(old(View()), world, true, profile, r)
      ensures nextId > 0 && CarriesEngineError(r, clock > old(clock) + 1, world(clock), nextId - 1)
      ensures View() == Receives(Step(old(View()), Input.Reattach(profile), world(old(clock) + 1)), world,
                                 clock - old(clock) - 1)
    {
      hide StartAttach, Receives, Run, Completeness.Completes;
      RunBasics(key, turns);
      clock := clock + 1;
      base := |wire|;
      nextId := 1;
      r := Handshake(profile);
      Record(Input.Reattach(profile), old(clock) + 1);
      Completeness.OverAfter(old(View()), world, true, profile, clock - old(clock) - 1, r);
    }

    method Detach(session: Session) returns (r: Result<(), SessionError>)
      requires Valid() && phase.Ready?
      modifies this
      ensures old(clock) < clock <= old(clock) + 1 + MAX_INTERLEAVED_CALLBACKS + 1
      ensures Valid() && turns == old(turns) + CallTurns(Input.Detach(session.sessionId), world, old(clock) + 1, clock)
      ensures phase == Ready(Some(Detaching.DetachOutcome(r)))
      ensures nextId > 0 && CarriesEngineError(r, clock > old(clock) + 1, world(clock), nextId - 1)
      ensures Detaching.Detaches(old(View()), world, session, r)
      ensures View() == Receives(Step(old(View()), Input.Detach(session.sessionId), world(old(clock) + 1)), world,
                                 clock - old(clock) - 1)
    {
      hide Receives, Run, Step, StartCall, CarriesEngineError, Detaching.Detaches, ReadLoop.AnswersRequest;
      RunBasics(key, turns);
      Detaching.DetachStarts(View(), session.sessionId, world(clock + 1));
      clock := clock + 1;
      assert View() == old(View()).(clock := clock);
      var request := DetachRequest(nextId, session.sessionId);
      var detached := Call(request, DetachCall);
      if detached.Err? {
        r := Err(detached.error);
        SameEngineError(detached, r, clock > old(clock) + 1, world(clock), nextId - 1);
      } else {
        r := Ok(());
        phase := Ready(Some(DetachDone));
        NoEngineErrorAfter(r, world(clock), nextId - 1);
      }
      Detaching.DetachOverAfter(old(View()), world, session, clock - old(clock) - 1, r);
      Record(Input.Detach(session.sessionId), old(clock) + 1);
    }
  }
}
