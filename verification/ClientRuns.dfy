/**
 Facts about every run of the client: what it signs and sends, the ids it uses, what it answers, and
 how long it waits.
 */
module ClientRuns {
  import opened Prelude
  import opened Seqs
  import opened Wire
  import opened Domain
  import opened ClientSpec
  import Base64

  /** One step of a run: what the client was asked to do, and how the outside world behaved. */
  datatype Turn = Turn(input: Input, moment: Moment)

  function RunFrom(c: Client, turns: seq<Turn>): Client
  {
    if turns == [] then c
    else
      var last := turns[|turns| - 1];
      Step(RunFrom(c, turns[..|turns| - 1]), last.input, last.moment)
  }

  function Run(key: Key, turns: seq<Turn>): Client { RunFrom(NewClient(key), turns) }

  // ---- The ways a step changes the record ----

  predicate Grew<T(==)>(s: seq<T>, s': seq<T>) { |s'| == |s| + 1 && s' == s + [s'[|s|]] }

  /** The frame carries the signature and is of the kind its purpose calls for. */
  predicate Carries(f: OutgoingFrame, s: Signing, key: Key)
  {
    match s.purpose
    case ForAttach(_, profile, candidate, _) =>
      f.AttachRequest? && f.attachParams == AttachParams(candidate, Base64.Encode(s.signature), profile)
    case ForCallback(_) => f.SignResult? && f.signatureB64 == Base64.Encode(s.signature) && f.pubkeyHex == ToHex(key)
  }

  predicate Bears(f: OutgoingFrame) { f.AttachRequest? || f.SignResult? }

  /** The signature was given for a callback the policy allowed, over that callback's message. */
  predicate CallbackSigned(s: Signing, m: Moment)
  {
    && s.purpose.ForCallback?
    && m.recv.Got? && m.recv.frame.IsCallback() && m.recv.frame.params.Some?
    && var p := m.recv.frame.params.value;
    && Base64.Decode(p.payloadB64) == Some(s.purpose.request.payload)
    && s.purpose.request == SignRequest(p.sessionId, p.opId, p.payloadType, s.purpose.request.payload, p.context)
    && m.policy(s.purpose.request) == Allow
    && SignCallbackMessage(p.payloadType, s.purpose.request.payload) == Some(s.message)
    && m.signer(s.message) == Some(s.signature)
  }

  /** The signature was given for the challenge over the 32-byte nonce of the begin reply just received. */
  predicate ChallengeSigned(s: Signing, m: Moment, id: nat)
  {
    && s.purpose.ForAttach? && |s.purpose.nonce| == NONCE_LEN
    && m.recv.Got? && !m.recv.frame.IsCallback() && m.recv.frame.id == Some(Number(id)) && m.recv.frame.error.None?
    && m.recv.frame.result.Some? && m.recv.frame.result.value.begin.Some?
    && var b := m.recv.frame.result.value.begin.value;
    && Base64.Decode(b.nonceB64) == Some(s.purpose.nonce) && b.sessionCandidate == s.purpose.candidate
    && s.message == ChallengeMessage(s.purpose.nonce, s.purpose.profile.did)
    && m.signer(s.message) == Some(s.signature)
  }

  predicate SameRecord(c: Client, c': Client) { c' == c.(clock := c'.clock, phase := c'.phase) }

  /** Nothing sent, nothing signed, and no reply awaited any more. */
  predicate Quiet(c: Client, c': Client)
  {
    SameRecord(c, c') && c'.phase.Ready?
  }

  predicate Stutters(c: Client, c': Client)
  {
    SameRecord(c, c') && c'.phase == c.phase
  }

  /** The id a reply carries is the one of the frame it answers, or null when that has none. */
  predicate Echoes(reply: Id, f: IncomingFrame)
  {
    match f.id
    case Some(id) => reply == id
    case None => reply == Null
  }

  /** One reply sent to the callback just received, with a signature logged if and only if it carries one. */
  predicate Answers(c: Client, c': Client, m: Moment)
  {
    && c' == c.(clock := c'.clock, phase := c'.phase, wire := c'.wire, log := c'.log)
    && m.recv.Got? && m.recv.frame.IsCallback() && Grew(c.wire, c'.wire)
    && var a := c'.wire[|c.wire|];
    && !a.frame.IsRequest() && Echoes(a.frame.replyTo, m.recv.frame) && a.delivered == m.sendOk
    && (if a.frame.SignResult?
        then Grew(c.log, c'.log) && var s := c'.log[|c.log|];
          s.at == c'.clock && CallbackSigned(s, m) && Carries(a.frame, s, c.key)
        else c'.log == c.log)
  }

  /** The phase after a reply to a callback: still awaiting, one callback on, exactly when it got through. */
  predicate PhaseAfterReply(c: Client, c': Client, m: Moment)
  {
    if c.phase.Awaiting? && m.sendOk
    then c.phase.serviced < MAX_INTERLEAVED_CALLBACKS && c'.phase == c.phase.(serviced := c.phase.serviced + 1)
    else c'.phase.Ready?
  }

  /** The frame is the request of that call. */
  predicate RequestOfCall(f: OutgoingFrame, call: Call)
  {
    match call
    case BeginCall(_) => f.BeginRequest?
    case AttachCall(_) => f.AttachRequest?
    case DetachCall => f.DetachRequest?
  }

  /** A request attempted under the next id; its reply is awaited exactly when it got through. */
  predicate Requests(before: Client, c': Client, m: Moment, call: Call)
  {
    && Grew(before.wire, c'.wire) && c'.nextId == before.nextId + 1
    && var a := c'.wire[|before.wire|];
    && a.frame.IsRequest() && a.frame.requestId == before.nextId && a.delivered == m.sendOk
    && RequestOfCall(a.frame, call)
    && c'.phase == if m.sendOk then Awaiting(before.nextId, 0, call) else Ready(Some(Failed(Io)))
  }

  /** A begin or detach request, on a fresh transport if the input says so. */
  predicate Calls(c: Client, c': Client, t: Turn)
  {
    && c.phase.Ready? && c'.log == c.log && c'.key == c.key
    && match t.input
       case BeginAndAttach(profile) =>
         && c'.base == c.base && c'.runs == c.runs + [profile] && Requests(c, c', t.moment, BeginCall(profile))
         && c'.wire[|c.wire|].frame.beginParams == BeginParams(profile.did, ToHex(c.key))
       case Reattach(profile) =>
         && c'.base == |c.wire| && c'.runs == c.runs + [profile]
         && Requests(c.(nextId := 1), c', t.moment, BeginCall(profile))
         && c'.wire[|c.wire|].frame.beginParams == BeginParams(profile.did, ToHex(c.key))
       case Detach(sessionId) =>
         && c'.base == c.base && c'.runs == c.runs && Requests(c, c', t.moment, DetachCall)
         && c'.wire[|c.wire|].frame.sessionId == sessionId
       case _ => false
  }

  /** The challenge of the awaited begin reply signed, and the attach request attempted. */
  predicate Attaches(c: Client, c': Client, m: Moment)
  {
    && c.phase.Awaiting? && c.phase.call.BeginCall? && c'.key == c.key && c'.base == c.base && c'.runs == c.runs
    && Grew(c.log, c'.log) && Requests(c, c', m, AttachCall(c.phase.call.profile))
    && var s := c'.log[|c.log|];
    && s.at == c'.clock && ChallengeSigned(s, m, c.phase.id) && Carries(c'.wire[|c.wire|].frame, s, c.key)
    && s.purpose.profile == c.phase.call.profile && s.purpose.run == (if |c.runs| > 0 then |c.runs| - 1 else 0)
  }

  /** The three kinds a received frame leads to. */
  predicate Receipt(c: Client, c': Client, m: Moment)
  {
    Quiet(c, c') || (Answers(c, c', m) && PhaseAfterReply(c, c', m)) || Attaches(c, c', m)
  }

  predicate Moves(c: Client, c': Client, t: Turn)
  {
    c'.clock == c.clock + 1 && (Receipt(c, c', t.moment) || Calls(c, c', t) || Stutters(c, c'))
  }

  /** Servicing a callback either finds its parameters unreadable or sends its one reply. */
  lemma ServiceAnswers(c: Client, f: IncomingFrame, m: Moment)
    requires m.recv == Got(f) && f.IsCallback()
    ensures var (c', r) := Service(c, f, m);
            || (c' == c && f.params.None? && r == Err(FrameError))
            || (Answers(c, c', m) && (r.Ok? <==> m.sendOk) && (r.Err? ==> r.error == Io))
  {
    hide Base64.Encode, Base64.Decode, SignCallbackMessage, ToHex;
  }

  lemma OnCallbackMoves(c: Client, m: Moment)
    requires c.phase.Ready?
    ensures Receipt(c, OnCallback(c, m), m)
  {
    if m.recv.Got? && m.recv.frame.IsCallback() {
      ServiceAnswers(c, m.recv.frame, m);
    }
    hide Service, CallbackSigned, Carries;
  }

  lemma OnBegunMoves(c: Client, profile: ProfileAttachment, f: IncomingFrame, m: Moment)
    requires c.phase.Awaiting? && c.phase.call == BeginCall(profile) && m.recv == Got(f) && !f.IsCallback()
    requires Refusal(f, c.phase.id).None? && f.result.value.begin.Some?
    ensures var c' := OnBegun(c, profile, f.result.value.begin.value, m); Quiet(c, c') || Attaches(c, c', m)
  {
    hide Base64.Encode, Base64.Decode, ChallengeMessage;
  }

  lemma OnReceiveMoves(c: Client, m: Moment)
    requires c.phase.Awaiting?
    ensures Receipt(c, OnReceive(c, m), m)
  {
    if m.recv.Got? {
      var f := m.recv.frame;
      if f.IsCallback() {
        ServiceAnswers(c, f, m);
        hide Service, CallbackSigned, Carries;
      } else if Refusal(f, c.phase.id).None? && Reads(c.phase.call, f.result.value) {
        if c.phase.call.BeginCall? {
          OnBegunMoves(c, c.phase.call.profile, f, m);
          hide OnBegun, Attaches;
        }
      }
    }
  }

  lemma CallMoves(c: Client, t: Turn)
    requires c.phase.Ready? && (t.input.BeginAndAttach? || t.input.Reattach? || t.input.Detach?)
    ensures var c' := Step(c, t.input, t.moment); Calls(c, c', t) && c'.clock == c.clock + 1
  {
    hide OnReceive, OnCallback, ToHex;
  }

  /** The kinds do not look at the clock of the state before. */
  lemma ClockIrrelevant(c: Client, k: nat, c': Client, m: Moment)
    requires Receipt(c.(clock := k), c', m)
    ensures Receipt(c, c', m)
  {
    hide CallbackSigned, ChallengeSigned, Carries, Grew;
  }

  lemma KeepsClock(c: Client, m: Moment)
    ensures c.phase.Awaiting? ==> OnReceive(c, m).clock == c.clock
    ensures OnCallback(c, m).clock == c.clock
  {
    hide Base64.Decode, Base64.Encode, ToHex, SignCallbackMessage, ChallengeMessage;
  }

  lemma StepIsReaction(c: Client, m: Moment)
    ensures var c1 := c.(clock := c.clock + 1);
            if c.phase.Awaiting? then Step(c, Receive, m) == OnReceive(c1, m)
            else Step(c, HandleCallback, m) == OnCallback(c1, m)
  {
    hide OnReceive, OnCallback, StartAttach, StartCall;
  }

  lemma ReceiveStep(c: Client, m: Moment)
    requires c.phase.Awaiting?
    ensures Receipt(c, Step(c, Receive, m), m) && Step(c, Receive, m).clock == c.clock + 1
  {
    var c1 := c.(clock := c.clock + 1);
    hide Receipt, OnReceive, Step, Calls;
    StepIsReaction(c, m);
    KeepsClock(c1, m);
    OnReceiveMoves(c1, m);
    ClockIrrelevant(c, c1.clock, OnReceive(c1, m), m);
  }

  lemma CallbackStep(c: Client, m: Moment)
    requires c.phase.Ready?
    ensures Receipt(c, Step(c, HandleCallback, m), m) && Step(c, HandleCallback, m).clock == c.clock + 1
  {
    var c1 := c.(clock := c.clock + 1);
    hide Receipt, OnCallback, Step, Calls;
    StepIsReaction(c, m);
    KeepsClock(c1, m);
    OnCallbackMoves(c1, m);
    ClockIrrelevant(c, c1.clock, OnCallback(c1, m), m);
  }

  /** Every step is one of these kinds, whatever the state, the input and the outside world. */
  lemma StepMoves(c: Client, t: Turn)
    ensures Moves(c, Step(c, t.input, t.moment), t)
  {
    if t.input == Receive && c.phase.Awaiting? {
      ReceiveStep(c, t.moment);
      hide Step, Receipt, Calls;
    } else if t.input == HandleCallback && c.phase.Ready? {
      CallbackStep(c, t.moment);
      hide Step, Receipt, Calls;
    } else if t.input == Receive || c.phase.Awaiting? {
      hide OnReceive, OnCallback, Receipt, Calls;
    } else {
      CallMoves(c, t);
      hide Step, Receipt, Calls;
    }
  }

  lemma {:induction false} RunBasics(key: Key, turns: seq<Turn>)
    ensures Run(key, turns).clock == |turns| && Run(key, turns).key == key
  {
    if turns != [] {
      var t := turns[|turns| - 1];
      RunBasics(key, turns[..|turns| - 1]);
      StepMoves(Run(key, turns[..|turns| - 1]), t);
      hide Step;
    }
  }

  /** The turns of receiving `n` frames after step `t`. */
  function ReceiveTurns(world: nat -> Moment, t: nat, n: nat): seq<Turn>
  {
    if n == 0 then [] else ReceiveTurns(world, t, n - 1) + [Turn(Receive, world(t + n))]
  }

  /** The turns of an operation whose first step is `first` and whose last frame came in step `last`. */
  function CallTurns(input: Input, world: nat -> Moment, first: nat, last: nat): seq<Turn>
    requires first <= last
  {
    [Turn(input, world(first))] + ReceiveTurns(world, first, last - first)
  }

  lemma RunSnoc(key: Key, turns: seq<Turn>, t: Turn)
    ensures Run(key, turns + [t]) == Step(Run(key, turns), t.input, t.moment)
  {
    hide Step;
    assert (turns + [t])[..|turns|] == turns;
  }

  /** Receiving frames continues a run. */
  lemma {:induction false} ReceivesIsRun(key: Key, turns: seq<Turn>, world: nat -> Moment, n: nat)
    ensures Receives(Run(key, turns), world, n) == Run(key, turns + ReceiveTurns(world, |turns|, n))
    ensures Receives(Run(key, turns), world, n).clock == |turns| + n
  {
    hide Step, Run, Receives;
    RunBasics(key, turns + ReceiveTurns(world, |turns|, n));
    TurnCount(world, |turns|, n);
    if n == 0 {
      assert turns + [] == turns;
      ReceivesNone(Run(key, turns), world);
    } else {
      ReceivesIsRun(key, turns, world, n - 1);
      ReceivesNext(Run(key, turns), world, n - 1);
      Assoc(turns, ReceiveTurns(world, |turns|, n - 1), [Turn(Receive, world(|turns| + n))]);
      RunSnoc(key, turns + ReceiveTurns(world, |turns|, n - 1), Turn(Receive, world(|turns| + n)));
    }
  }

  lemma {:induction false} TurnCount(world: nat -> Moment, t: nat, n: nat)
    ensures |ReceiveTurns(world, t, n)| == n
  {
    if n > 0 {
      TurnCount(world, t, n - 1);
    }
  }

  // ---- What is signed ----

  /** While a begin reply is awaited, the last run started is the one it belongs to. */
  predicate RunInProgress(c: Client)
  {
    c.phase.Awaiting? && c.phase.call.BeginCall? ==> c.runs != [] && c.runs[|c.runs| - 1] == c.phase.call.profile
  }

  lemma RunInProgressStep(c: Client, c': Client, t: Turn)
    requires RunInProgress(c) && Moves(c, c', t)
    ensures RunInProgress(c')
  {
    hide CallbackSigned, ChallengeSigned, Carries;
  }

  /** The step that gave the signature, and why it did. */
  ghost predicate Sanctioned(key: Key, turns: seq<Turn>, s: Signing)
  {
    && 1 <= s.at <= |turns|
    && var before, m := Run(key, turns[..s.at - 1]), turns[s.at - 1].moment;
    match s.purpose
    case ForCallback(_) => CallbackSigned(s, m)
    case ForAttach(run, profile, _, _) =>
      && before.phase.Awaiting? && before.phase.call == BeginCall(profile) && ChallengeSigned(s, m, before.phase.id)
      && run + 1 == |before.runs| && before.runs[run] == profile
  }

  /** A signature logged by a step is sanctioned by that step. */
  lemma NewSigningSanctioned(key: Key, turns: seq<Turn>, t: Turn, c': Client)
    requires var c := Run(key, turns); Moves(c, c', t) && RunInProgress(c) && c.clock == |turns|
    ensures var c := Run(key, turns);
            c'.log == c.log || (Grew(c.log, c'.log) && Sanctioned(key, turns + [t], c'.log[|c.log|]))
  {
    var c := Run(key, turns);
    assert (turns + [t])[..|turns|] == turns;
    hide Run, CallbackSigned, ChallengeSigned, Carries, Requests, PhaseAfterReply;
  }

  lemma SanctionedExtends(key: Key, turns: seq<Turn>, t: Turn, s: Signing)
    requires Sanctioned(key, turns, s)
    ensures Sanctioned(key, turns + [t], s)
  {
    assert (turns + [t])[..s.at - 1] == turns[..s.at - 1];
    hide Run;
  }

  /**
   Over any run, with the policy, the signer and the engine behaving as they like, every signature given
   is over the challenge for the 32-byte nonce of the begin reply the current handshake awaited and
   that handshake's DID, or over the message of a callback the policy allowed.
   */
  lemma {:induction false} EverySigningSanctioned(key: Key, turns: seq<Turn>)
    ensures RunInProgress(Run(key, turns))
    ensures forall i | 0 <= i < |Run(key, turns).log| :: Sanctioned(key, turns, Run(key, turns).log[i])
  {
    if turns != [] {
      var n := |turns| - 1;
      var t, c := turns[n], Run(key, turns[..n]);
      assert turns == turns[..n] + [t];
      EverySigningSanctioned(key, turns[..n]);
      RunBasics(key, turns[..n]);
      StepMoves(c, t);
      var c' := Step(c, t.input, t.moment);
      assert c' == Run(key, turns);
      RunInProgressStep(c, c', t);
      NewSigningSanctioned(key, turns[..n], t, c');
      hide Step, Moves, Run, Sanctioned, RunInProgress;
      forall i | 0 <= i < |c'.log|
        ensures Sanctioned(key, turns, c'.log[i])
      {
        if i < |c.log| {
          assert c'.log[i] == c.log[i];
          SanctionedExtends(key, turns[..n], t, c.log[i]);
        }
      }
    }
  }

  // ---- What is sent ----

  /** The attempted frames that carry a signature, in order. */
  function Bearing(wire: seq<Attempt>): seq<OutgoingFrame>
  {
    if wire == [] then []
    else
      var f := wire[|wire| - 1].frame;
      Bearing(wire[..|wire| - 1]) + if Bears(f) then [f] else []
  }

  lemma BearingSnoc(wire: seq<Attempt>, a: Attempt)
    ensures Bearing(wire + [a]) == Bearing(wire) + if Bears(a.frame) then [a.frame] else []
  {
    Cut(wire, [a]);
  }

  predicate Paired(frames: seq<OutgoingFrame>, log: seq<Signing>, key: Key)
  {
    |frames| == |log| && forall i | 0 <= i < |log| :: Carries(frames[i], log[i], key)
  }

  lemma PairedSnoc(frames: seq<OutgoingFrame>, log: seq<Signing>, key: Key, f: OutgoingFrame, s: Signing)
    requires Paired(frames, log, key) && Carries(f, s, key)
    ensures Paired(frames + [f], log + [s], key)
  {
    hide Carries;
  }

  lemma PairedStep(c: Client, c': Client, t: Turn)
    requires Moves(c, c', t) && Paired(Bearing(c.wire), c.log, c.key)
    ensures Paired(Bearing(c'.wire), c'.log, c.key)
  {
    hide Paired, Bearing, CallbackSigned, ChallengeSigned, PhaseAfterReply;
    if |c'.wire| > |c.wire| {
      var a := c'.wire[|c.wire|];
      assert c'.wire == c.wire + [a];
      BearingSnoc(c.wire, a);
      if Bears(a.frame) {
        PairedSnoc(Bearing(c.wire), c.log, c.key, a.frame, c'.log[|c.log|]);
      } else {
        assert Bearing(c'.wire) == Bearing(c.wire);
      }
    }
  }

  /**
   Signatures and the frames that carry them correspond one to one and in order: the i-th attach request
   or signed reply sent carries the i-th signature given, and no signature is given without its frame.
   */
  lemma {:induction false} SignaturesMatchWire(key: Key, turns: seq<Turn>)
    ensures var c := Run(key, turns); Paired(Bearing(c.wire), c.log, key)
  {
    if turns != [] {
      var n := |turns| - 1;
      var t, c := turns[n], Run(key, turns[..n]);
      SignaturesMatchWire(key, turns[..n]);
      RunBasics(key, turns[..n]);
      StepMoves(c, t);
      PairedStep(c, Step(c, t.input, t.moment), t);
      hide Step, Moves, Paired;
    }
  }

  // ---- One challenge a handshake ----

  /** Challenge signatures come from different handshakes, and none yet from one still awaiting its nonce. */
  ghost predicate OneChallengeEach(c: Client)
  {
    && (forall i | 0 <= i < |c.log| && c.log[i].purpose.ForAttach? :: c.log[i].purpose.run < |c.runs|)
    && (forall i, j | 0 <= i < j < |c.log| && c.log[i].purpose.ForAttach? && c.log[j].purpose.ForAttach? ::
          c.log[i].purpose.run != c.log[j].purpose.run)
    && (c.phase.Awaiting? && c.phase.call.BeginCall? ==>
          forall i | 0 <= i < |c.log| && c.log[i].purpose.ForAttach? :: c.log[i].purpose.run + 1 < |c.runs|)
  }

  lemma OneChallengeEachStep(c: Client, c': Client, t: Turn)
    requires Moves(c, c', t) && OneChallengeEach(c) && RunInProgress(c)
    ensures OneChallengeEach(c')
  {
    hide CallbackSigned, Carries, Requests, PhaseAfterReply, Answers;
    if c'.log == c.log {
      SameLogKeepsOneChallenge(c, c', t);
    } else {
      NewestSigning(c, c', t);
      var s := c'.log[|c.log|];
      assert forall i | 0 <= i < |c'.log| :: c'.log[i] == if i < |c.log| then c.log[i] else s;
    }
  }

  lemma SameLogKeepsOneChallenge(c: Client, c': Client, t: Turn)
    requires Moves(c, c', t) && OneChallengeEach(c) && c'.log == c.log
    ensures OneChallengeEach(c')
  {
    hide CallbackSigned, ChallengeSigned, Carries;
  }

  lemma NewestSigning(c: Client, c': Client, t: Turn)
    requires Moves(c, c', t) && c'.log != c.log && RunInProgress(c)
    ensures Grew(c.log, c'.log) && c'.runs == c.runs
    ensures c'.log[|c.log|].purpose.ForAttach? ==>
              && c.phase.Awaiting? && c.phase.call.BeginCall? && c'.log[|c.log|].purpose.run + 1 == |c.runs|
              && !(c'.phase.Awaiting? && c'.phase.call.BeginCall?)
    ensures c'.log[|c.log|].purpose.ForCallback? ==> c'.phase.Awaiting? ==>
            c.phase.Awaiting? && c'.phase.call == c.phase.call
  {
    hide Carries;
  }

  lemma {:induction false} AlwaysOneChallengeEach(key: Key, turns: seq<Turn>)
    ensures OneChallengeEach(Run(key, turns))
  {
    if turns != [] {
      var n := |turns| - 1;
      var t, c := turns[n], Run(key, turns[..n]);
      AlwaysOneChallengeEach(key, turns[..n]);
      EverySigningSanctioned(key, turns[..n]);
      StepMoves(c, t);
      OneChallengeEachStep(c, Step(c, t.input, t.moment), t);
      hide Step, Moves, OneChallengeEach;
    }
  }

  // ---- Request ids ----

  /** The ids of the requests attempted, in order, whether or not they got through. */
  function RequestIds(wire: seq<Attempt>): seq<nat>
  {
    if wire == [] then []
    else
      var f := wire[|wire| - 1].frame;
      RequestIds(wire[..|wire| - 1]) + if f.IsRequest() then [f.requestId] else []
  }

  function Upto(n: nat): seq<nat> { if n == 0 then [] else Upto(n - 1) + [n] }

  /** The attempts made on the current transport. */
  function OnTransport(c: Client): seq<Attempt>
    requires c.base <= |c.wire|
  {
    c.wire[c.base..]
  }

  lemma RequestIdsSnoc(wire: seq<Attempt>, a: Attempt)
    ensures RequestIds(wire + [a]) == RequestIds(wire) + if a.frame.IsRequest() then [a.frame.requestId] else []
  {
    Cut(wire, [a]);
  }

  /** The last request attempted on the current transport. */
  predicate IsLastRequest(wire: seq<Attempt>, p: nat)
  {
    p < |wire| && wire[p].frame.IsRequest() && forall q | p < q < |wire| :: !wire[q].frame.IsRequest()
  }

  /** The request whose reply is awaited went out last, with the id awaited. */
  ghost predicate AwaitsLast(c: Client)
    requires c.base <= |c.wire|
  {
    c.phase.Awaiting? ==>
      exists p: nat :: IsLastRequest(OnTransport(c), p) && OnTransport(c)[p].delivered
        && OnTransport(c)[p].frame.requestId == c.phase.id && RequestOfCall(OnTransport(c)[p].frame, c.phase.call)
  }

  ghost predicate IdsInOrder(c: Client)
  {
    c.base <= |c.wire| && 1 <= c.nextId && RequestIds(OnTransport(c)) == Upto(c.nextId - 1) && AwaitsLast(c)
  }

  lemma LastRequestSnoc(wire: seq<Attempt>, a: Attempt)
    ensures a.frame.IsRequest() ==> IsLastRequest(wire + [a], |wire|)
    ensures !a.frame.IsRequest() ==> forall p: nat :: IsLastRequest(wire, p) ==>
            IsLastRequest(wire + [a], p) && (wire + [a])[p] == wire[p]
  {}

  lemma IdsAfterRequest(before: Client, c': Client, m: Moment, call: Call)
    requires before.base <= |before.wire| && 1 <= before.nextId
             && RequestIds(OnTransport(before)) == Upto(before.nextId - 1)
    requires Requests(before, c', m, call) && c'.base == before.base
    ensures IdsInOrder(c')
  {
    var w, a := OnTransport(before), c'.wire[|before.wire|];
    assert OnTransport(c') == w + [a];
    RequestIdsSnoc(w, a);
    LastRequestSnoc(w, a);
    assert (w + [a])[|w|] == a;
  }

  lemma IdsAfterReply(c: Client, c': Client, m: Moment)
    requires IdsInOrder(c) && Answers(c, c', m) && PhaseAfterReply(c, c', m)
    ensures IdsInOrder(c')
  {
    hide CallbackSigned, Carries;
    var w, a := OnTransport(c), c'.wire[|c.wire|];
    assert OnTransport(c') == w + [a];
    RequestIdsSnoc(w, a);
    LastRequestSnoc(w, a);
    assert RequestIds(w + [a]) == RequestIds(w);
  }

  lemma IdsInOrderStep(c: Client, c': Client, t: Turn)
    requires Moves(c, c', t) && IdsInOrder(c)
    ensures IdsInOrder(c')
  {
    if Quiet(c, c') || Stutters(c, c') {
      hide RequestIds, Upto;
    } else if Answers(c, c', t.moment) && PhaseAfterReply(c, c', t.moment) {
      IdsAfterReply(c, c', t.moment);
      hide IdsInOrder, Answers;
    } else if Attaches(c, c', t.moment) {
      IdsAfterRequest(c, c', t.moment, AttachCall(c.phase.call.profile));
      hide IdsInOrder, Requests;
    } else {
      match t.input
      case BeginAndAttach(profile) =>
        IdsAfterRequest(c, c', t.moment, BeginCall(profile));
        hide IdsInOrder, Requests;
      case Reattach(profile) =>
        var restarted := c.(nextId := 1, base := |c.wire|);
        assert OnTransport(restarted) == [];
        IdsAfterRequest(restarted, c', t.moment, BeginCall(profile));
        hide IdsInOrder, Requests;
      case Detach(_) =>
        IdsAfterRequest(c, c', t.moment, DetachCall);
        hide IdsInOrder, Requests;
      case _ =>
    }
  }

  /**
   The requests attempted on one transport carry the ids 1, 2, 3, ... with none skipped or repeated, across
   successes, failures, failed sends and detaches; and the id awaited is that of the last of them.
   */
  lemma {:induction false} IdsAlwaysInOrder(key: Key, turns: seq<Turn>)
    ensures IdsInOrder(Run(key, turns))
  {
    if turns != [] {
      var n := |turns| - 1;
      var t, c := turns[n], Run(key, turns[..n]);
      IdsAlwaysInOrder(key, turns[..n]);
      StepMoves(c, t);
      IdsInOrderStep(c, Step(c, t.input, t.moment), t);
      hide Step, Moves, IdsInOrder;
    }
  }

  /** In a list of requests numbered 1, 2, 3, ... only the last carries the last number. */
  lemma {:induction false} LastNumberIsLast(wire: seq<Attempt>, n: nat, p: nat)
    requires RequestIds(wire) == Upto(n) && p < |wire| && wire[p].frame.IsRequest()
    ensures 1 <= wire[p].frame.requestId <= n
    ensures wire[p].frame.requestId == n <==> IsLastRequest(wire, p)
  {
    var k := |wire| - 1;
    var f := wire[k].frame;
    Join(wire, k);
    if f.IsRequest() {
      assert n > 0;
      JoinEqual(RequestIds(wire[..k]), [f.requestId], Upto(n - 1), [n]) by {
        UptoLength(n);
        UptoLength(n - 1);
      }
      assert f.requestId == n by {
        assert [f.requestId] == [n];
        assert [f.requestId][0] == [n][0];
      }
      if p < k {
        LastNumberIsLast(wire[..k], n - 1, p);
      }
    } else {
      assert RequestIds(wire[..k]) == Upto(n);
      LastNumberIsLast(wire[..k], n, p);
      assert IsLastRequest(wire[..k], p) <==> IsLastRequest(wire, p);
    }
  }

  lemma {:induction false} UptoLength(n: nat)
    ensures |Upto(n)| == n
  {
    if n > 0 {
      UptoLength(n - 1);
    }
  }

  lemma LastRequestUnique(wire: seq<Attempt>, p: nat, q: nat)
    requires IsLastRequest(wire, p) && IsLastRequest(wire, q)
    ensures p == q
  {}

  lemma AwaitedRequest(c: Client, p: nat)
    requires IdsInOrder(c) && c.phase.Awaiting? && p < |OnTransport(c)| && OnTransport(c)[p].frame.IsRequest()
    ensures var a := OnTransport(c)[p];
            && (a.frame.requestId == c.phase.id <==> IsLastRequest(OnTransport(c), p))
            && (IsLastRequest(OnTransport(c), p) ==> a.delivered && RequestOfCall(a.frame, c.phase.call))
  {
    var w := OnTransport(c);
    var q: nat :| IsLastRequest(w, q) && w[q].delivered && w[q].frame.requestId == c.phase.id
        && RequestOfCall(w[q].frame, c.phase.call);
    hide RequestIds, Upto;
    LastNumberIsLast(w, c.nextId - 1, p);
    LastNumberIsLast(w, c.nextId - 1, q);
    if IsLastRequest(w, p) {
      LastRequestUnique(w, p, q);
    }
  }

  /**
   No stale reply is accepted: a frame that echoes the id of request `p` of this transport passes the id
   check exactly when `p` is the request of the call now waiting.
   */
  lemma NoStaleReply(key: Key, turns: seq<Turn>, p: nat, f: IncomingFrame)
    requires Run(key, turns).phase.Awaiting?
    requires Run(key, turns).base <= |Run(key, turns).wire| && p < |OnTransport(Run(key, turns))|
    requires var a := OnTransport(Run(key, turns))[p]; a.frame.IsRequest() && f.id == Some(Number(a.frame.requestId))
    ensures var c := Run(key, turns);
            && (Refusal(f, c.phase.id) != Some(IdMismatch) <==> IsLastRequest(OnTransport(c), p))
            && (IsLastRequest(OnTransport(c), p) ==>
                OnTransport(c)[p].delivered && RequestOfCall(OnTransport(c)[p].frame, c.phase.call))
  {
    IdsAlwaysInOrder(key, turns);
    AwaitedRequest(Run(key, turns), p);
    hide Run, IdsInOrder, IsLastRequest;
  }
}
