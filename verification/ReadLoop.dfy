/** How the client waits for a reply: what it reads and answers meanwhile, how long, and what it reports. */
module ReadLoop {
  import opened Prelude
  import opened Seqs
  import opened Wire
  import opened Domain
  import opened ClientSpec
  import opened ClientRuns
  import Base64

  predicate Waiting(c: Client, id: nat, call: Call)
  {
    c.phase.Awaiting? && c.phase.id == id && c.phase.call == call
  }

  /** One more frame and still waiting means one more callback answered. */
  lemma WaitStep(c: Client, m: Moment, id: nat, call: Call)
    requires Waiting(c, id, call) && id < c.nextId
    ensures var c' := Step(c, Receive, m);
            && c'.clock == c.clock + 1 && c.nextId <= c'.nextId
            && (Waiting(c', id, call) ==>
                  && Answers(c, c', m) && m.sendOk && c'.nextId == c.nextId
                  && c.phase.serviced < MAX_INTERLEAVED_CALLBACKS
                  && c'.phase == c.phase.(serviced := c.phase.serviced + 1))
            && (!Waiting(c', id, call) ==>
                  c'.phase.Ready? || (call.BeginCall? && c'.phase == Awaiting(c.nextId, 0, AttachCall(call.profile))
                                      && c'.nextId == c.nextId + 1))
  {
    ReceiveStep(c, m);
    hide Step, CallbackSigned, ChallengeSigned, Carries;
  }

  /** The attempt is a delivered reply to the callback received at that moment, under its id or null. */
  predicate RepliesTo(a: Attempt, m: Moment)
  {
    && m.recv.Got? && m.recv.frame.IsCallback()
    && a.delivered && !a.frame.IsRequest() && Echoes(a.frame.replyTo, m.recv.frame)
  }

  /** The frame received is the response to request `id`: no callback, and with that id. */
  predicate AnswersRequest(m: Moment, id: nat)
  {
    m.recv.Got? && !m.recv.frame.IsCallback() && m.recv.frame.id == Some(Number(id)) && m.recv.frame.error.None?
      && m.recv.frame.result.Some?
  }

  /** From `c` to `c'` one reply was sent to each of the frames received, and nothing else. */
  ghost predicate Replied(c: Client, c': Client, world: nat -> Moment)
  {
    && c.clock <= c'.clock && |c'.wire| - |c.wire| == c'.clock - c.clock && c.wire <= c'.wire
    && forall j | |c.wire| <= j < |c'.wire| :: RepliesTo(c'.wire[j], world(c.clock + 1 + j - |c.wire|))
  }

  /** From `c` to `c'` a number of callbacks were received and replied to, and then the response to `id`. */
  ghost predicate RepliedUntil(c: Client, c': Client, world: nat -> Moment, id: nat)
  {
    c'.clock > 0 && Replied(c, c'.(clock := c'.clock - 1), world) && AnswersRequest(world(c'.clock), id)
  }

  lemma NoneReplied(c: Client, world: nat -> Moment)
    ensures Replied(c, c, world)
  {}

  lemma RepliedSnoc(c: Client, mid: Client, c': Client, world: nat -> Moment)
    requires Replied(c, mid, world) && c'.clock == mid.clock + 1 && Grew(mid.wire, c'.wire)
             && RepliesTo(c'.wire[|mid.wire|], world(c'.clock))
    ensures Replied(c, c', world)
  {
    hide RepliesTo;
    assert mid.wire <= c'.wire;
    assert forall j | |c.wire| <= j < |mid.wire| :: c'.wire[j] == mid.wire[j];
  }

  lemma RepliedThen(c: Client, mid: Client, c': Client, world: nat -> Moment, id: nat)
    requires Replied(c, mid, world) && c' == mid.(clock := mid.clock + 1) && AnswersRequest(world(c'.clock), id)
    ensures RepliedUntil(c, c', world, id)
  {}

  /** A wait from `c` to `c'`: each frame received was a callback, replied to in its turn, and nothing else was sent. */
  ghost predicate Transcribed(c: Client, c': Client, world: nat -> Moment)
  {
    && c.phase.Awaiting? && Replied(c, c', world) && c'.clock - c.clock <= MAX_INTERLEAVED_CALLBACKS
    && c'.phase == c.phase.(serviced := c'.clock - c.clock) && c'.nextId == c.nextId
  }

  /** A wait is over when no reply is awaited, or when a begin reply led on to the attach call. */
  predicate WaitOver(c: Client, c': Client)
  {
    c.phase.Awaiting? &&
    (c'.phase.Ready? ||
     (c.phase.call.BeginCall? && c'.phase == Awaiting(c.nextId, 0, AttachCall(c.phase.call.profile))
      && c'.nextId == c.nextId + 1))
  }

  lemma AnsweredIsReplied(mid: Client, c': Client, m: Moment)
    requires Answers(mid, c', m) && m.sendOk
    ensures Grew(mid.wire, c'.wire) && RepliesTo(c'.wire[|mid.wire|], m)
  {
    hide CallbackSigned, Carries;
  }

  /** One more turn of a transcribed wait. */
  lemma WaitTurn(c: Client, mid: Client, world: nat -> Moment)
    requires c.phase.Awaiting? && c.phase.id < c.nextId && Transcribed(c, mid, world)
    ensures var c' := Step(mid, Receive, world(mid.clock + 1));
            && c'.clock == mid.clock + 1
            && if Waiting(c', c.phase.id, c.phase.call) then Transcribed(c, c', world) else WaitOver(c, c')
  {
    var m := world(mid.clock + 1);
    WaitStep(mid, m, c.phase.id, c.phase.call);
    var c' := Step(mid, Receive, m);
    hide Step, Answers, Replied, RepliesTo, Grew;
    if Waiting(c', c.phase.id, c.phase.call) {
      AnsweredIsReplied(mid, c', m);
      RepliedSnoc(c, mid, c', world);
    }
  }

  /**
   The transcript of a wait: while the reply to one request is awaited, the frames read are callbacks, at
   most 64 of them, and the frames sent are exactly their replies, one each, in order, each under its
   callback's id or null.
   */
  lemma {:induction false} Transcript(c: Client, world: nat -> Moment, n: nat)
    requires c.phase.Awaiting? && c.phase.serviced == 0 && c.phase.id < c.nextId
    requires forall i | 0 <= i <= n :: Waiting(Receives(c, world, i), c.phase.id, c.phase.call)
    ensures Transcribed(c, Receives(c, world, n), world) && Receives(c, world, n).clock == c.clock + n
  {
    hide Step, Waiting, Replied;
    if n == 0 {
      NoneReplied(c, world);
    } else {
      Transcript(c, world, n - 1);
      hide Transcribed, WaitOver;
      WaitTurn(c, Receives(c, world, n - 1), world);
      assert Waiting(Receives(c, world, n), c.phase.id, c.phase.call);
    }
  }

  /** A wait transcribed so far ends before its 66th frame. */
  lemma {:induction false} WaitEndsFrom(c: Client, world: nat -> Moment, k: nat) returns (n: nat)
    requires c.phase.Awaiting? && c.phase.id < c.nextId && k <= MAX_INTERLEAVED_CALLBACKS
    requires Transcribed(c, Receives(c, world, k), world) && Receives(c, world, k).clock == c.clock + k
    ensures k < n <= MAX_INTERLEAVED_CALLBACKS + 1
    ensures WaitOver(c, Receives(c, world, n))
    decreases MAX_INTERLEAVED_CALLBACKS - k
  {
    hide Step, WaitOver, Waiting, Receives, Replied;
    ReceivesNext(c, world, k);
    WaitTurn(c, Receives(c, world, k), world);
    if Waiting(Receives(c, world, k + 1), c.phase.id, c.phase.call) {
      n := WaitEndsFrom(c, world, k + 1);
    } else {
      n := k + 1;
    }
  }

  /** Every wait ends after at most 65 frames, whatever arrives. */
  lemma WaitEnds(c: Client, world: nat -> Moment) returns (n: nat)
    requires c.phase.Awaiting? && c.phase.serviced == 0 && c.phase.id < c.nextId
    ensures 1 <= n <= MAX_INTERLEAVED_CALLBACKS + 1
    ensures WaitOver(c, Receives(c, world, n))
  {
    NoneReplied(c, world);
    hide Step, WaitOver, Replied;
    n := WaitEndsFrom(c, world, 0);
  }

  lemma {:induction false} ReadyStays(c: Client, world: nat -> Moment, n: nat)
    requires c.phase.Ready?
    ensures Receives(c, world, n).phase == c.phase
  {
    if n > 0 {
      ReadyStays(c, world, n - 1);
      StutterOnReceive(Receives(c, world, n - 1), world(Receives(c, world, n - 1).clock + 1));
      hide Step;
    }
  }

  lemma StutterOnReceive(c: Client, m: Moment)
    requires c.phase.Ready?
    ensures Step(c, Receive, m) == c.(clock := c.clock + 1)
  {
    hide OnReceive, OnCallback;
  }

  /** A handshake is over after at most 130 frames, and any other call after at most 65, whatever arrives. */
  lemma CallEnds(c: Client, world: nat -> Moment)
    requires c.phase.Awaiting? && c.phase.serviced == 0 && c.phase.id < c.nextId
    ensures Receives(c, world, if c.phase.call.BeginCall? then 130 else 65).phase.Ready?
  {
    hide Receives;
    var total := if c.phase.call.BeginCall? then 130 else 65;
    var n := WaitEnds(c, world);
    var c1 := Receives(c, world, n);
    if c1.phase.Ready? {
      ReadyStays(c1, world, total - n);
      ReceivesAdd(c, world, n, total - n);
    } else {
      var k := WaitEnds(c1, world);
      ReadyStays(Receives(c1, world, k), world, 130 - n - k);
      ReceivesAdd(c1, world, k, 130 - n - k);
      ReceivesAdd(c, world, n, 130 - n);
    }
  }

  // ---- Which callbacks are answered ----

  /** A callback gets a reply attempted exactly when its parameters read; otherwise it fails the local caller. */
  lemma AnsweredExactly(c: Client, f: IncomingFrame, m: Moment)
    requires m.recv == Got(f) && f.IsCallback()
    ensures var (c', r) := Service(c, f, m);
            && (f.params.Some? <==> Answers(c, c', m))
            && (f.params.None? <==> c' == c && r == Err(FrameError))
  {
    ServiceAnswers(c, f, m);
    if f.params.Some? {
      hide Answers;
      ReadableIsNotRefused(c, f, m);
    }
  }

  lemma ReadableIsNotRefused(c: Client, f: IncomingFrame, m: Moment)
    requires f.params.Some?
    ensures Service(c, f, m).1 != Err(FrameError)
  {
    hide Base64.Decode, SignCallbackMessage;
  }

  /**
   The wait goes on exactly when a callback arrives that reads, is not past the 64th and whose reply gets
   through. A 65th callback is read, but nothing is signed or sent for it.
   */
  lemma WaitContinuesExactly(c: Client, m: Moment)
    requires c.phase.Awaiting? && c.phase.id < c.nextId && c.phase.serviced <= MAX_INTERLEAVED_CALLBACKS
    ensures var c' := Step(c, Receive, m);
            && (Waiting(c', c.phase.id, c.phase.call) <==>
                  m.recv.Got? && m.recv.frame.IsCallback() && m.recv.frame.params.Some? && m.sendOk
                    && c.phase.serviced < MAX_INTERLEAVED_CALLBACKS)
            && (m.recv.Got? && m.recv.frame.IsCallback() && c.phase.serviced == MAX_INTERLEAVED_CALLBACKS ==>
                  c' == c.(clock := c.clock + 1, phase := Ready(Some(Failed(TooManyCallbacks)))))
  {
    var c1 := c.(clock := c.clock + 1);
    StepIsReaction(c, m);
    WaitStep(c, m, c.phase.id, c.phase.call);
    hide Step, Answers, OnBegun;
    if m.recv.Got? && m.recv.frame.IsCallback() {
      AnsweredExactly(c1, m.recv.frame, m);
      ServiceAnswers(c1, m.recv.frame, m);
      hide Service;
    }
  }

  // ---- What servicing reports ----

  /** The decision a serviced callback ended in, if it did. */
  function Decision(c: Client): Option<SignDecision>
  {
    match c.phase
    case Ready(Some(Decided(d))) => Some(d)
    case _ => None
  }

  predicate Signed(a: Attempt) { a.delivered && a.frame.SignResult? }

  predicate Refused(a: Attempt) { a.delivered && a.frame.ErrorReply? }

  lemma ServiceReports(c: Client, f: IncomingFrame, m: Moment)
    requires m.recv == Got(f) && f.IsCallback()
    ensures var (c', r) := Service(c, f, m);
            && (r == Ok(Allow) <==> |c'.wire| > |c.wire| && Signed(c'.wire[|c.wire|]))
            && (r.Ok? && r.value.Deny? <==> |c'.wire| > |c.wire| && Refused(c'.wire[|c.wire|]))
            && (c'.log != c.log ==> r == Ok(Allow) || r == Err(Io))
  {
    ServiceAnswers(c, f, m);
    hide Base64.Decode, Base64.Encode, SignCallbackMessage, ToHex, CallbackSigned, Carries;
  }

  /**
   Handling one callback: it reports Allow exactly when one signed result got through under the callback's
   id, and a denial exactly when one error reply did; a signature is given only on a path that ends in
   Allow or in a transport error.
   */
  lemma HandlingReports(c: Client, m: Moment)
    requires c.phase.Ready?
    ensures var c' := Step(c, HandleCallback, m);
            && c'.phase.Ready? && |c.wire| <= |c'.wire| <= |c.wire| + 1
            && (Decision(c') == Some(Allow) <==> |c'.wire| > |c.wire| && Signed(c'.wire[|c.wire|]))
            && (Decision(c').Some? && Decision(c').value.Deny? <==> |c'.wire| > |c.wire| && Refused(c'.wire[|c.wire|]))
            && (|c'.wire| > |c.wire| ==> RepliesTo(c'.wire[|c.wire|].(delivered := true), m))
            && (c'.log != c.log ==> Decision(c') == Some(Allow) || c'.phase == Ready(Some(Failed(Io))))
  {
    var c1 := c.(clock := c.clock + 1);
    StepIsReaction(c, m);
    hide Step;
    if m.recv.Got? && m.recv.frame.IsCallback() {
      ServiceReports(c1, m.recv.frame, m);
      ServiceAnswers(c1, m.recv.frame, m);
    }
    hide Service, CallbackSigned, Carries;
  }

  /** The client after handling one callback for each moment. */
  function Handled(c: Client, moments: seq<Moment>): Client
  {
    if moments == [] then c
    else Step(Handled(c, moments[..|moments| - 1]), HandleCallback, moments[|moments| - 1])
  }

  /** What the handlings reported to their caller: true for Allow, false for a denial, nothing for an error. */
  function Reports(c: Client, moments: seq<Moment>): seq<bool>
  {
    if moments == [] then []
    else
      var d := Decision(Handled(c, moments));
      Reports(c, moments[..|moments| - 1]) + if d.Some? then [d.value == Allow] else []
  }

  /** The replies that got through, in order: true for a signed result, false for an error. */
  function Verdicts(wire: seq<Attempt>): seq<bool>
  {
    if wire == [] then []
    else
      var a := wire[|wire| - 1];
      Verdicts(wire[..|wire| - 1]) + if Signed(a) then [true] else if Refused(a) then [false] else []
  }

  lemma VerdictsSnoc(wire: seq<Attempt>, a: Attempt)
    ensures Verdicts(wire + [a]) == Verdicts(wire) + if Signed(a) then [true] else if Refused(a) then [false] else []
  {
    Cut(wire, [a]);
  }

  lemma VerdictStep(c: Client, m: Moment)
    requires c.phase.Ready?
    ensures var c' := Step(c, HandleCallback, m);
            && c'.phase.Ready?
            && Verdicts(c'.wire) == Verdicts(c.wire) + if Decision(c').Some? then [Decision(c').value == Allow] else []
  {
    HandlingReports(c, m);
    CallbackStep(c, m);
    var c' := Step(c, HandleCallback, m);
    hide Step, Verdicts, CallbackSigned, ChallengeSigned, Carries;
    if |c'.wire| > |c.wire| {
      assert c'.wire == c.wire + [c'.wire[|c.wire|]];
      VerdictsSnoc(c.wire, c'.wire[|c.wire|]);
    }
  }

  /**
   Over any sequence of handled callbacks the decisions reported are, in order, the replies the engine got:
   Allow for each signed result, a denial for each error.
   */
  lemma {:induction false} AuditMatchesWire(c: Client, moments: seq<Moment>)
    requires c.phase.Ready?
    ensures Handled(c, moments).phase.Ready?
    ensures Verdicts(Handled(c, moments).wire) == Verdicts(c.wire) + Reports(c, moments)
  {
    if moments == [] {
      assert Verdicts(c.wire) + [] == Verdicts(c.wire);
    } else {
      var n := |moments| - 1;
      AuditMatchesWire(c, moments[..n]);
      VerdictStep(Handled(c, moments[..n]), moments[n]);
      hide Step, Verdicts;
      var d := Decision(Handled(c, moments));
      Assoc(Verdicts(c.wire), Reports(c, moments[..n]), if d.Some? then [d.value == Allow] else []);
    }
  }
}
