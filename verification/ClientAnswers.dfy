/**
 What the client answers, signs and reports for each thing that can reach it, case by case, from the frame
 received and what the policy, the signer and the transport do in that step.
 */
module ClientAnswers {
  import opened Prelude
  import opened Wire
  import opened Domain
  import opened ClientSpec
  import opened ClientRuns
  import ReadLoop
  import Base64

  // ---- Answering a callback ----

  lemma MethodSpelled()
    ensures Spells(METHOD_SIGN, "sign")
  {}

  predicate IsCallbackFrame(m: Moment) { m.recv.Got? && m.recv.frame.methodName == Some(METHOD_SIGN) }

  /** The step reads a callback that is to be serviced: one asked for, or one of the first 64 of a wait. */
  predicate Servicing(c: Client, input: Input, m: Moment)
  {
    && IsCallbackFrame(m)
    && match c.phase
       case Ready(_) => input == HandleCallback
       case Awaiting(_, serviced, _) => input == Receive && serviced < 64
  }

  /** The callback's parameters read as `p`, its payload decodes, and the policy is asked about `request`. */
  predicate Asks(m: Moment, p: SignCallbackParams, payload: Bytes, request: SignRequest)
  {
    && m.recv.Got? && m.recv.frame.params == Some(p) && Base64.Decode(p.payloadB64) == Some(payload)
    && request.sessionId == p.sessionId && request.opId == p.opId && request.payloadType == p.payloadType
    && request.payload == payload && request.context == p.context
  }

  /** One send, after those before it. */
  predicate SendsOne(c: Client, c': Client, m: Moment)
  {
    |c'.wire| == |c.wire| + 1 && c.wire <= c'.wire && c'.wire[|c.wire|].delivered == m.sendOk
  }

  /** The policy allows the request, its type fits the layout, and the signer gives a signature on its message. */
  predicate Signs(m: Moment, request: SignRequest)
  {
    && m.policy(request) == Allow && |request.payloadType| <= U16_MAX
    && m.signer(Print(Callback(request.payloadType, request.payload))).Some?
  }

  predicate TypeTooLong(m: Moment, request: SignRequest)
  {
    m.policy(request) == Allow && |request.payloadType| > U16_MAX
  }

  predicate FindsLocked(m: Moment, request: SignRequest)
  {
    && m.policy(request) == Allow && |request.payloadType| <= U16_MAX
    && m.signer(Print(Callback(request.payloadType, request.payload))).None?
  }

  /** The reply is the one for this request: which of the three it is, and all it carries. */
  ghost predicate RightReply(reply: OutgoingFrame, id: Id, m: Moment, request: SignRequest, key: Key)
  {
    && (reply.SignResult? <==> Signs(m, request))
    && (Signs(m, request) ==>
          var signature := m.signer(Print(Callback(request.payloadType, request.payload))).value;
          reply == SignResult(id, Base64.Encode(signature), ToHex(key)))
    && (reply == ErrorReply(id, RpcError(-33040, "active profile is locked; no key to sign with")) <==>
        FindsLocked(m, request))
    && (forall text :: reply == ErrorReply(id, RpcError(-33030, text)) <==>
          || m.policy(request) == Deny(text)
          || (TypeTooLong(m, request) && text == "sign payload_type exceeds the maximum length"))
  }

  /** What the caller is told once the reply has got through. */
  ghost predicate RightDecision(d: SignDecision, m: Moment, request: SignRequest)
  {
    && (d == Allow <==> Signs(m, request))
    && (forall reason :: d == Deny(reason) <==>
          || m.policy(request) == Deny(reason)
          || (TypeTooLong(m, request) && reason == "payload_type too long")
          || (FindsLocked(m, request) && reason == "active profile is locked"))
  }

  lemma ServiceAnswersRight(c: Client, f: IncomingFrame, m: Moment, p: SignCallbackParams, payload: Bytes,
                            request: SignRequest, id: Id)
    requires m.recv == Got(f) && Asks(m, p, payload, request) && Echoes(id, f)
    ensures var (c', r) := Service(c, f, m);
            && SendsOne(c, c', m) && RightReply(c'.wire[|c.wire|].frame, id, m, request, c.key)
            && (if m.sendOk then r.Ok? && RightDecision(r.value, m, request) else r == Err(Io))
  {
    hide Base64.Decode, Base64.Encode, ToHex;
    assert request == RequestOf(p, payload);
  }

  /**
   A serviced callback is signed if and only if the policy allows the request made of its own fields, the type
   fits the layout and the signer is unlocked; the reply carries the signature on that callback's message and
   the client's key. Every other reply is an error, and which one is as exact.
   */
  lemma CallbackRepliedExactly(
    c: Client, input: Input, m: Moment, p: SignCallbackParams, payload: Bytes, request: SignRequest, id: Id)
    requires Servicing(c, input, m) && Asks(m, p, payload, request) && Echoes(id, m.recv.frame)
    ensures var c' := Step(c, input, m);
            SendsOne(c, c', m) && RightReply(c'.wire[|c.wire|].frame, id, m, request, c.key)
  {
    var c1 := c.(clock := c.clock + 1);
    StepIsReaction(c, m);
    ServiceAnswersRight(c1, m.recv.frame, m, p, payload, request, id);
    hide Step, Service, RightReply, RightDecision, Asks;
  }

  /** A payload that is not base64 is answered with an error that says so; neither policy nor signer is asked. */
  lemma BadPayloadRepliedExactly(c: Client, input: Input, m: Moment, p: SignCallbackParams, id: Id)
    requires Servicing(c, input, m) && m.recv.frame.params == Some(p) && Echoes(id, m.recv.frame)
    requires Base64.Decode(p.payloadB64).None?
    ensures var c' := Step(c, input, m);
            && SendsOne(c, c', m) && c'.log == c.log
            && c'.wire[|c.wire|].frame == ErrorReply(id, RpcError(-33030, "sign payload is not valid base64"))
            && (c.phase.Ready? ==>
                  c'.phase == Ready(Some(if m.sendOk then Decided(Deny("invalid base64 payload")) else Failed(Io))))
  {
    StepIsReaction(c, m);
    hide Step, Base64.Decode, ToHex;
  }

  /** How handling one callback ends, and with what report. */
  lemma HandlingEndsExactly(c: Client, m: Moment)
    requires c.phase.Ready?
    ensures var end := Step(c, HandleCallback, m).phase;
            var read := IsCallbackFrame(m) && m.recv.frame.params.Some?;
            && (end == Ready(Some(Failed(NotASignCallback))) <==>
                m.recv.Got? && m.recv.frame.methodName != Some(METHOD_SIGN))
            && (end == Ready(Some(Failed(FrameError))) <==>
                m.recv.Garbled? || (IsCallbackFrame(m) && m.recv.frame.params.None?))
            && (end == Ready(Some(Failed(Io))) <==> m.recv.Disconnected? || (read && !m.sendOk))
            && (end.Ready? && end.last.Some? && end.last.value.Decided? <==> read && m.sendOk)
  {
    var c1 := c.(clock := c.clock + 1);
    StepIsReaction(c, m);
    hide Step;
    if IsCallbackFrame(m) {
      ServiceAnswers(c1, m.recv.frame, m);
      ReadLoop.AnsweredExactly(c1, m.recv.frame, m);
      if m.recv.frame.params.Some? {
        ReadLoop.ReadableIsNotRefused(c1, m.recv.frame, m);
      }
    }
    hide Service, Answers;
  }

  /** The decision reported for a callback whose payload decodes. */
  lemma DecisionReportedExactly(c: Client, m: Moment, p: SignCallbackParams, payload: Bytes, request: SignRequest,
                                d: SignDecision)
    requires c.phase.Ready? && Servicing(c, HandleCallback, m) && Asks(m, p, payload, request)
    requires Step(c, HandleCallback, m).phase == Ready(Some(Decided(d)))
    ensures RightDecision(d, m, request)
  {
    var c1 := c.(clock := c.clock + 1);
    StepIsReaction(c, m);
    var id := ReplyId(m.recv.frame);
    ServiceAnswersRight(c1, m.recv.frame, m, p, payload, request, id);
    hide Step, Service, RightReply, RightDecision, Asks;
  }

  // ---- How a wait ends ----

  /** The step reads a callback while the reply to a request is awaited. */
  lemma CallbackEndsWaitExactly(c: Client, m: Moment)
    requires c.phase.Awaiting? && IsCallbackFrame(m)
    ensures var end, full, read := Step(c, Receive, m).phase, c.phase.serviced >= 64,
            m.recv.frame.params.Some?;
            && (end == Ready(Some(Failed(TooManyCallbacks))) <==> full)
            && (end == Ready(Some(Failed(FrameError))) <==> !full && !read)
            && (end == Ready(Some(Failed(Io))) <==> !full && read && !m.sendOk)
            && (end == c.phase.(serviced := c.phase.serviced + 1) <==> !full && read && m.sendOk)
  {
    var c1 := c.(clock := c.clock + 1);
    StepIsReaction(c, m);
    hide Step;
    ServiceAnswers(c1, m.recv.frame, m);
    ReadLoop.AnsweredExactly(c1, m.recv.frame, m);
    if m.recv.frame.params.Some? {
      ReadLoop.ReadableIsNotRefused(c1, m.recv.frame, m);
    }
    hide Service, Answers;
  }

  /** A response to request `id`. */
  predicate Responds(m: Moment, id: nat)
  {
    m.recv.Got? && m.recv.frame.methodName != Some(METHOD_SIGN) && m.recv.frame.id == Some(Number(id))
  }

  /** A response with this result and no error. */
  predicate Results(m: Moment, id: nat, v: ResultValue)
  {
    Responds(m, id) && m.recv.frame.error.None? && m.recv.frame.result == Some(v)
  }

  /** Whether the result is one for the call. */
  predicate Expected(call: Call, v: ResultValue)
  {
    && (call.BeginCall? ==> v.begin.Some?) && (call.AttachCall? ==> v.attach.Some?) && (call.DetachCall? ==> v.detach)
  }

  /** The awaited reply to a begin call, and the nonce it carries, if that decodes. */
  predicate BeginReply(c: Client, m: Moment, b: BeginResult, nonce: Option<Bytes>)
  {
    && c.phase.Awaiting? && c.phase.call.BeginCall? && Responds(m, c.phase.id)
    && m.recv.frame.error.None? && m.recv.frame.result.Some? && m.recv.frame.result.value.begin == Some(b)
    && Base64.Decode(b.nonceB64) == nonce
  }

  /** The nonce has the right length. */
  predicate Sized(nonce: Option<Bytes>) { nonce.Some? && |nonce.value| == NONCE_LEN }

  /** How a wait ends when the awaited reply is not one for the call: with the error that says why. */
  lemma BadReplyEndsWait(c: Client, m: Moment)
    requires c.phase.Awaiting? && !IsCallbackFrame(m)
    requires !exists v :: Results(m, c.phase.id, v) && Expected(c.phase.call, v)
    ensures var end, id := Step(c, Receive, m).phase, c.phase.id;
            && end.Ready? && end.last.Some? && end.last.value.Failed?
            && var e := end.last.value.error;
            && (e.Io? || e.IdMismatch? || e.Engine? || e.MalformedResponse? || e.FrameError?)
            && (e == Io <==> m.recv.Disconnected?)
            && (e == IdMismatch <==> m.recv.Got? && m.recv.frame.id != Some(Number(id)))
            && (forall code, text :: e == SessionError.Engine(code, text) <==>
                  Responds(m, id) && m.recv.frame.error == Some(RpcError(code, text)))
            && (e == MalformedResponse <==> Responds(m, id) && m.recv.frame.error.None? && m.recv.frame.result.None?)
            && (e == FrameError <==>
                m.recv.Garbled? || (Responds(m, id) && m.recv.frame.error.None? && m.recv.frame.result.Some?))
  {
    StepIsReaction(c, m);
    hide Step, Service, OnBegun;
    if m.recv.Got? && m.recv.frame.result.Some? {
      assert Results(m, c.phase.id, m.recv.frame.result.value) ==> !Expected(c.phase.call, m.recv.frame.result.value);
    }
  }

  /** How the awaited reply to an attach or detach call ends the wait. */
  lemma GoodReplyEndsWait(c: Client, m: Moment, v: ResultValue)
    requires c.phase.Awaiting? && !c.phase.call.BeginCall? && Results(m, c.phase.id, v) && Expected(c.phase.call, v)
    ensures var end := Step(c, Receive, m).phase;
            match c.phase.call
            case AttachCall(profile) =>
              end == Ready(Some(Opened(Session(v.attach.value.sessionId, v.attach.value.engineCapabilities,
                                               profile.did))))
            case _ => end == Ready(Some(DetachDone))
  {
    StepIsReaction(c, m);
    hide Step, Service, OnBegun;
  }

  /** How the awaited reply to a begin call ends the wait: which error, or the attach call. */
  lemma BeginReplyEndsWait(c: Client, m: Moment, b: BeginResult, nonce: Option<Bytes>)
    requires BeginReply(c, m, b, nonce)
    ensures var profile := c.phase.call.profile;
            var locked := Sized(nonce) && m.signer(ChallengeMessage(nonce.value, profile.did)).None?;
            var signs := Sized(nonce) && m.signer(ChallengeMessage(nonce.value, profile.did)).Some?;
            var c' := Step(c, Receive, m);
            && (c'.phase == Ready(Some(Failed(MalformedResponse))) <==> nonce.None?)
            && (forall n :: c'.phase == Ready(Some(Failed(InvalidNonceLength(NONCE_LEN, n)))) <==>
                  nonce.Some? && |nonce.value| == n != NONCE_LEN)
            && (c'.phase == Ready(Some(Failed(Locked))) <==> locked)
            && (c'.phase == Ready(Some(Failed(Io))) <==> signs && !m.sendOk)
            && (c'.phase == Awaiting(c.nextId, 0, AttachCall(profile)) <==> signs && m.sendOk)
            && (c'.wire == c.wire && c'.log == c.log <==> !signs)
  {
    StepIsReaction(c, m);
    hide Step, Service, Base64.Decode, Base64.Encode, ChallengeMessage;
  }

  /** Everything that can end or continue a wait by something other than a callback, and when it does. */
  lemma WaitEndsExactly(c: Client, m: Moment)
    requires c.phase.Awaiting? && !IsCallbackFrame(m)
    ensures var c', id, call := Step(c, Receive, m), c.phase.id, c.phase.call;
            && (forall code, text :: c'.phase == Ready(Some(Failed(SessionError.Engine(code, text)))) <==>
                  Responds(m, id) && m.recv.frame.error == Some(RpcError(code, text)))
            && (c'.phase == Ready(Some(Failed(IdMismatch))) <==> m.recv.Got? && m.recv.frame.id != Some(Number(id)))
            && (c'.phase == Ready(Some(Failed(FrameError))) <==>
                m.recv.Garbled? || exists v :: Results(m, id, v) && !Expected(call, v))
            && (c'.phase == Ready(Some(Failed(MalformedResponse))) <==>
                || (Responds(m, id) && m.recv.frame.error.None? && m.recv.frame.result.None?)
                || exists b :: BeginReply(c, m, b, None))
            && (c'.phase == Ready(Some(Failed(Io))) <==>
                || m.recv.Disconnected?
                || (exists b, nonce :: BeginReply(c, m, b, Some(nonce)) && |nonce| == NONCE_LEN
                      && m.signer(ChallengeMessage(nonce, call.profile.did)).Some? && !m.sendOk))
            && (c'.phase == Ready(Some(Failed(Locked))) <==>
                exists b, nonce :: BeginReply(c, m, b, Some(nonce)) && |nonce| == NONCE_LEN
                  && m.signer(ChallengeMessage(nonce, call.profile.did)).None?)
            && (c'.phase == Ready(Some(DetachDone)) <==> call.DetachCall? && exists v :: Results(m, id, v) && v.detach)
            && (forall session :: c'.phase == Ready(Some(Opened(session))) <==>
                  && call.AttachCall?
                  && exists v :: Results(m, id, v) && v.attach.Some?
                       && session == Session(v.attach.value.sessionId, v.attach.value.engineCapabilities,
                                             call.profile.did))
  {
    hide Step, Base64.Decode, ChallengeMessage;
    if v :| Results(m, c.phase.id, v) && Expected(c.phase.call, v) {
      if c.phase.call.BeginCall? {
        var b := v.begin.value;
        var nonce := Base64.Decode(b.nonceB64);
        BeginReplyEndsWait(c, m, b, nonce);
        assert BeginReply(c, m, b, nonce);
        assert nonce.Some? && |nonce.value| != NONCE_LEN ==>
            Step(c, Receive, m).phase == Ready(Some(Failed(InvalidNonceLength(NONCE_LEN, |nonce.value|))));
      } else {
        GoodReplyEndsWait(c, m, v);
      }
    } else {
      BadReplyEndsWait(c, m);
      if m.recv.Got? && m.recv.frame.result.Some? {
        var w := m.recv.frame.result.value;
        assert Responds(m, c.phase.id) && m.recv.frame.error.None? ==> Results(m, c.phase.id, w);
      }
    }
  }

  // ---- What a method returns ----

  /**
   The call fails with an engine error if and only if the last frame it read was the response to request `id`
   with that error; and it carries the engine's code and text.
   */
  ghost predicate CarriesEngineError<T(!new)>(r: Result<T, SessionError>, read: bool, m: Moment, id: nat)
  {
    forall code, text :: r == Err(SessionError.Engine(code, text)) <==>
      read && Responds(m, id) && m.recv.frame.error == Some(RpcError(code, text))
  }

  lemma SameEngineError<T(!new), U(!new)>(r: Result<T, SessionError>, u: Result<U, SessionError>, read: bool,
                                          m: Moment, id: nat)
    requires CarriesEngineError(r, read, m, id) && r.Err? && u == Err(r.error)
    ensures CarriesEngineError(u, read, m, id)
  {
    forall code, text
      ensures u == Err(SessionError.Engine(code, text)) <==> r == Err(SessionError.Engine(code, text))
    {}
  }

  lemma NoEngineErrorBefore<T(!new)>(r: Result<T, SessionError>, m: Moment, id: nat)
    requires r.Err? && !r.error.Engine?
    ensures CarriesEngineError(r, false, m, id)
  {}

  lemma NoEngineErrorAfter<T(!new)>(r: Result<T, SessionError>, m: Moment, id: nat)
    requires r.Ok? && ReadLoop.AnswersRequest(m, id)
    ensures forall read :: CarriesEngineError(r, read, m, id)
  {}
}
