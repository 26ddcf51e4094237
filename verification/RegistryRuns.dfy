/**
 Facts about every run of the registry: the cap, where candidates and sessions come from, and the one
 ordered list that the map and the queue stand for. Results that need draws not to repeat say so with `Fresh`.
 */
module RegistryRuns {
  import opened Prelude
  import opened Wire
  import opened Domain
  import opened Fifo
  import opened RegistrySpec
  import Hex

  // ---- The cap, with no assumption on the draws ----

  ghost predicate Bounded(s: Registry)
  {
    Covered(s.pending, s.order) && |s.pending| <= MAX_PENDING_CANDIDATES
  }

  lemma BoundedStep(s: Registry, op: Op, entropy: Entropy)
    requires Bounded(s)
    ensures Bounded(NextRegistry(s, op, entropy))
  {
    match op
    case Begin(params) =>
      EvictCovered(s.pending, s.order, MAX_PENDING_CANDIDATES);
      var o := Evict(s.pending, s.order, MAX_PENDING_CANDIDATES).1;
      assert forall t :: t in o ==> t in o + [TokenAt(entropy, s.drawn)];
    case Attach(params, published, verify) =>
      RemoveFirstKeepsOthers(s.order, params.sessionCandidate);
    case Detach(id) =>
  }

  /**
   In every reachable state, even when draws repeat, the queue covers the pending map, so eviction
   always gets below the cap and never stops because the queue ran out.
   */
  lemma {:induction false} AlwaysBounded(ops: seq<Op>, entropy: Entropy)
    ensures var s := Run(ops, entropy).reg;
            Bounded(s) && |Evict(s.pending, s.order, MAX_PENDING_CANDIDATES).0| < MAX_PENDING_CANDIDATES
  {
    var s := Run(ops, entropy).reg;
    if ops != [] {
      AlwaysBounded(ops[..|ops| - 1], entropy);
      BoundedStep(Run(ops[..|ops| - 1], entropy).reg, ops[|ops| - 1], entropy);
    }
    EvictCovered(s.pending, s.order, MAX_PENDING_CANDIDATES);
  }

  /** A begin leaves at most 256 pending, whatever has been served before and however draws repeat. */
  lemma BeginBounded(ops: seq<Op>, params: BeginParams, entropy: Entropy)
    ensures |BeginStep(Run(ops, entropy).reg, params, entropy).0.pending| <= MAX_PENDING_CANDIDATES
  {
    AlwaysBounded(ops, entropy);
    BoundedStep(Run(ops, entropy).reg, Begin(params), entropy);
    hide Run, BeginStep, Evict;
  }

  // ---- Where candidates and sessions come from, with no assumption on the draws ----

  ghost predicate BegunBefore(history: seq<Event>, n: nat, token: Bytes, c: Candidate)
    requires n <= |history|
  {
    exists j | 0 <= j < n :: history[j].Began? && history[j].token == token && history[j].candidate == c
  }

  ghost predicate OpenedBefore(history: seq<Event>, id: Bytes, profile: ProfileAttachment)
  {
    exists i | 0 <= i < |history| :: history[i].Attached? && history[i].openedId == id && history[i].profile == profile
  }

  predicate Consumes(e: Event) { e.AttachRefused? || e.Attached? }

  ghost predicate PendingTraced(w: World)
  {
    forall t :: t in w.reg.pending ==> BegunBefore(w.history, |w.history|, t, w.reg.pending[t])
  }

  ghost predicate SessionsTraced(w: World)
  {
    forall id :: id in w.reg.sessions ==> OpenedBefore(w.history, id, w.reg.sessions[id])
  }

  ghost predicate ConsumptionsTraced(history: seq<Event>)
  {
    forall i | 0 <= i < |history| && Consumes(history[i]) ::
      BegunBefore(history, i, history[i].token, history[i].candidate)
  }

  lemma BegunBeforeExtends(history: seq<Event>, e: Event, n: nat, token: Bytes, c: Candidate)
    requires n <= |history|
    ensures BegunBefore(history, n, token, c) ==>
            BegunBefore(history + [e], n, token, c) && BegunBefore(history + [e], |history| + 1, token, c)
  {
    if BegunBefore(history, n, token, c) {
      var j :| 0 <= j < n && history[j].Began? && history[j].token == token && history[j].candidate == c;
      assert (history + [e])[j] == history[j];
    }
  }

  lemma PendingTracedStep(w: World, op: Op, entropy: Entropy)
    requires PendingTraced(w)
    ensures PendingTraced(Step(w, op, entropy))
  {
    var w', e := Step(w, op, entropy), EventOf(w.reg, op, entropy);
    EvictOnlyRemoves(w.reg.pending, w.reg.order, MAX_PENDING_CANDIDATES);
    assert w'.history[|w.history|] == e;
    forall t | t in w'.reg.pending
      ensures BegunBefore(w'.history, |w'.history|, t, w'.reg.pending[t])
    {
      if e.Began? && t == e.token {
        assert w'.reg.pending[t] == e.candidate;
      } else {
        BegunBeforeExtends(w.history, e, |w.history|, t, w.reg.pending[t]);
      }
    }
  }

  lemma SessionsTracedStep(w: World, op: Op, entropy: Entropy)
    requires SessionsTraced(w)
    ensures SessionsTraced(Step(w, op, entropy))
  {
    var w', e := Step(w, op, entropy), EventOf(w.reg, op, entropy);
    assert w'.history[|w.history|] == e;
    forall id | id in w'.reg.sessions
      ensures OpenedBefore(w'.history, id, w'.reg.sessions[id])
    {
      if OpenedBefore(w.history, id, w'.reg.sessions[id]) {
        var i :| 0 <= i < |w.history| && w.history[i].Attached? && w.history[i].openedId == id
            && w.history[i].profile == w'.reg.sessions[id];
        assert w'.history[i] == w.history[i];
      }
    }
  }

  lemma ConsumptionsTracedStep(w: World, op: Op, entropy: Entropy)
    requires PendingTraced(w) && ConsumptionsTraced(w.history)
    ensures ConsumptionsTraced(Step(w, op, entropy).history)
  {
    var h, e := Step(w, op, entropy).history, EventOf(w.reg, op, entropy);
    forall i | 0 <= i < |h| && Consumes(h[i])
      ensures BegunBefore(h, i, h[i].token, h[i].candidate)
    {
      if i < |w.history| {
        assert h[i] == w.history[i];
      } else {
        assert h[i] == e && e.token in w.reg.pending && e.candidate == w.reg.pending[e.token];
      }
      BegunBeforeExtends(w.history, e, i, h[i].token, h[i].candidate);
    }
  }

  lemma {:induction false} AlwaysTraced(ops: seq<Op>, entropy: Entropy)
    ensures var w := Run(ops, entropy); PendingTraced(w) && SessionsTraced(w) && ConsumptionsTraced(w.history)
  {
    if ops != [] {
      var w, op := Run(ops[..|ops| - 1], entropy), ops[|ops| - 1];
      AlwaysTraced(ops[..|ops| - 1], entropy);
      PendingTracedStep(w, op, entropy);
      SessionsTracedStep(w, op, entropy);
      ConsumptionsTracedStep(w, op, entropy);
    }
  }

  /** Event `i` is what request `i` did to the state before it. */
  lemma {:induction false} HistoryAt(ops: seq<Op>, entropy: Entropy, i: nat)
    requires i < |ops|
    ensures |Run(ops, entropy).history| == |ops|
    ensures Run(ops, entropy).history[i] == EventOf(Run(ops[..i], entropy).reg, ops[i], entropy)
    decreases |ops|
  {
    hide NextRegistry, EventOf, RunFrom;
    var n := |ops| - 1;
    RunLength(START, ops, entropy);
    RunLength(START, ops[..n], entropy);
    RunSnoc(START, ops[..n], ops[n], entropy);
    assert ops == ops[..n] + [ops[n]];
    if i < n {
      HistoryAt(ops[..n], entropy, i);
      assert ops[..n][..i] == ops[..i];
    }
  }

  /**
   A refused attach touches no session, and removes nothing but the candidate it named from the map and
   that token's first occurrence from the queue.
   */
  lemma RefusedAttachChangesLittle(s: Registry, params: AttachParams, published: Option<Key>, verify: Verifier,
                                   entropy: Entropy)
    requires AttachStep(s, params, published, verify, entropy).1.Err?
    ensures var s' := AttachStep(s, params, published, verify, entropy).0;
            && s'.sessions == s.sessions && s'.drawn == s.drawn
            && s'.pending == s.pending - {params.sessionCandidate}
            && var p := Position(s.order, params.sessionCandidate);
            && s'.order == (if params.sessionCandidate in s.pending && p < |s.order|
                            then s.order[..p] + s.order[p + 1..] else s.order)
            && AttachStep(s', params, published, verify, entropy) == (s', Err(UnknownCandidate))
  {
    assert params.sessionCandidate !in s.pending ==> s.pending - {params.sessionCandidate} == s.pending;
  }

  /** The four checks behind an attach that opened a session. */
  ghost predicate Verified(op: Op, e: Event)
  {
    && op.Attach? && e.Attached?
    && e.token == op.attach.sessionCandidate && e.profile == op.attach.profile
    && e.candidate.profileDid == e.profile.did
    && op.published == Some(e.candidate.advertisedKey)
    && DecodeSignature(op.attach.signatureB64).Ok?
    && op.verify(e.candidate.advertisedKey, ChallengeMessage(e.candidate.nonce, e.profile.did),
                 DecodeSignature(op.attach.signatureB64).value)
  }

  lemma VerifiedNow(s: Registry, op: Op, entropy: Entropy)
    requires EventOf(s, op, entropy).Attached?
    ensures Verified(op, EventOf(s, op, entropy))
  {}

  /** Request `b` is a begin that minted the token for the candidate's key and DID. */
  ghost predicate BegunAt(ops: seq<Op>, history: seq<Event>, b: nat, token: Bytes, c: Candidate)
    requires b < |ops| == |history|
  {
    && history[b].Began? && history[b].token == token && history[b].candidate == c
    && ops[b].Begin? && FromHex(ops[b].begin.signingPubkeyHex) == Some(c.advertisedKey)
       && ops[b].begin.profileDid == c.profileDid
  }

  /** An attach that opened a session passed all four checks against the candidate of an earlier begin. */
  lemma AttachedProvenance(ops: seq<Op>, entropy: Entropy, a: nat) returns (b: nat)
    requires a < |Run(ops, entropy).history| && Run(ops, entropy).history[a].Attached?
    ensures b < a < |ops| == |Run(ops, entropy).history|
    ensures var h := Run(ops, entropy).history; Verified(ops[a], h[a]) && BegunAt(ops, h, b, h[a].token, h[a].candidate)
  {
    var h := Run(ops, entropy).history;
    RunLength(START, ops, entropy);
    AlwaysTraced(ops, entropy);
    assert Consumes(h[a]);
    b :| 0 <= b < a && h[b].Began? && h[b].token == h[a].token && h[b].candidate == h[a].candidate;
    HistoryAt(ops, entropy, a);
    VerifiedNow(Run(ops[..a], entropy).reg, ops[a], entropy);
    HistoryAt(ops, entropy, b);
  }

  /** Every open session was opened by such an attach, with the session's profile and id. */
  lemma SessionProvenance(ops: seq<Op>, entropy: Entropy, id: Bytes) returns (b: nat, a: nat)
    requires id in Run(ops, entropy).reg.sessions
    ensures b < a < |ops| == |Run(ops, entropy).history|
    ensures var w := Run(ops, entropy); var e := w.history[a];
            && Verified(ops[a], e) && BegunAt(ops, w.history, b, e.token, e.candidate)
            && e.openedId == id && e.profile == w.reg.sessions[id]
  {
    var w := Run(ops, entropy);
    AlwaysTraced(ops, entropy);
    a :| 0 <= a < |w.history| && w.history[a].Attached? && w.history[a].openedId == id
      && w.history[a].profile == w.reg.sessions[id];
    b := AttachedProvenance(ops, entropy, a);
  }

  lemma {:induction false} RunLength(w: World, ops: seq<Op>, entropy: Entropy)
    ensures |RunFrom(w, ops, entropy).history| == |w.history| + |ops|
    ensures w.history <= RunFrom(w, ops, entropy).history
    ensures w.reg.drawn <= RunFrom(w, ops, entropy).reg.drawn
  {
    if ops != [] {
      RunLength(w, ops[..|ops| - 1], entropy);
    }
  }

  lemma {:induction false} RunConcat(w: World, first: seq<Op>, second: seq<Op>, entropy: Entropy)
    ensures RunFrom(w, first + second, entropy) == RunFrom(RunFrom(w, first, entropy), second, entropy)
  {
    if second == [] {
      assert first + second == first;
    } else {
      var n := |second| - 1;
      RunConcat(w, first, second[..n], entropy);
      assert (first + second)[..|first + second| - 1] == first + second[..n];
    }
  }

  // ---- Draws that do not repeat ----

  /** The first `n` draws are pairwise different. */
  ghost predicate Fresh(entropy: Entropy, n: nat)
  {
    forall i: nat, j: nat | i < j < n :: entropy(i) != entropy(j)
  }

  /** The names, in hexadecimal, of the first `n` draws. */
  ghost function Names(entropy: Entropy, n: nat): set<Bytes>
  {
    if n == 0 then {} else Names(entropy, n - 1) + {Hex.Encode(entropy(n - 1))}
  }

  lemma NamesGrow(entropy: Entropy, n: nat)
    ensures Names(entropy, n + 2) == Names(entropy, n) + {Hex.Encode(entropy(n)), Hex.Encode(entropy(n + 1))}
  {
    assert Names(entropy, n + 2) == Names(entropy, n + 1) + {Hex.Encode(entropy(n + 1))};
  }

  lemma {:induction false} FreshIsUnnamed(entropy: Entropy, n: nat, i: nat, total: nat)
    requires n <= i < total && Fresh(entropy, total)
    ensures Hex.Encode(entropy(i)) !in Names(entropy, n)
  {
    if n != 0 {
      FreshIsUnnamed(entropy, n - 1, i, total);
      if Hex.Encode(entropy(i)) == Hex.Encode(entropy(n - 1)) {
        Hex.EncodeInjective(entropy(i), entropy(n - 1));
      }
    }
  }

  /** Every pending token and every session id was drawn. */
  ghost predicate AllNamed(s: Registry, entropy: Entropy)
  {
    s.pending.Keys + s.sessions.Keys <= Names(entropy, s.drawn)
  }

  lemma NamedAdmit(s: Registry, key: Key, did: Bytes, entropy: Entropy)
    requires AllNamed(s, entropy)
    ensures AllNamed(Admit(s, key, did, entropy), entropy)
  {
    var token := TokenAt(entropy, s.drawn);
    PushKeys(s.pending, s.order, MAX_PENDING_CANDIDATES, token, Candidate(entropy(s.drawn), key, did));
    NamesGrow(entropy, s.drawn);
    hide Evict, Hex.Encode, Names;
  }

  lemma NamedOpen(s: Registry, profile: ProfileAttachment, entropy: Entropy)
    requires AllNamed(s, entropy)
    ensures AllNamed(Open(s, profile, entropy), entropy)
  {
    assert Open(s, profile, entropy).sessions.Keys == s.sessions.Keys + {Hex.Encode(entropy(s.drawn))};
  }

  lemma NamedStep(s: Registry, op: Op, entropy: Entropy)
    requires AllNamed(s, entropy)
    ensures AllNamed(NextRegistry(s, op, entropy), entropy)
  {
    match op
    case Begin(params) =>
      if FromHex(params.signingPubkeyHex).Some? {
        NamedAdmit(s, FromHex(params.signingPubkeyHex).value, params.profileDid, entropy);
      }
    case Attach(params, published, verify) =>
      var taken := TakeStep(s, params.sessionCandidate).0;
      assert AllNamed(taken, entropy);
      NamedOpen(taken, params.profile, entropy);
    case Detach(id) =>
      assert NextRegistry(s, op, entropy).sessions.Keys <= s.sessions.Keys;
  }

  /** The map and the queue agree. */
  ghost predicate Exact(s: Registry)
  {
    Matched(s.pending, s.order) && |s.order| <= MAX_PENDING_CANDIDATES
  }

  ghost function Outstanding(s: Registry): Ledger<Bytes, Candidate>
    requires Exact(s)
  {
    LedgerOf(s.pending, s.order)
  }

  /** What a request does to the one list; only a begin and an attach touch it. */
  function LedgerStep(l: Ledger<Bytes, Candidate>, op: Op, token: Bytes, nonce: Nonce): Ledger<Bytes, Candidate>
  {
    match op
    case Begin(params) =>
      (match FromHex(params.signingPubkeyHex)
       case None => l
       case Some(key) => Append(l, token, Candidate(nonce, key, params.profileDid), MAX_PENDING_CANDIDATES))
    case Attach(params, _, _) => Without(l, params.sessionCandidate)
    case Detach(_) => l
  }

  lemma NewTokenIsNew(s: Registry, entropy: Entropy)
    requires AllNamed(s, entropy) && Fresh(entropy, s.drawn + 2)
    ensures TokenAt(entropy, s.drawn) !in s.pending
  {
    FreshIsUnnamed(entropy, s.drawn, s.drawn + 1, s.drawn + 2);
  }

  lemma ExactAdmit(s: Registry, key: Key, did: Bytes, entropy: Entropy)
    requires Exact(s) && TokenAt(entropy, s.drawn) !in s.pending
    ensures Exact(Admit(s, key, did, entropy))
    ensures Outstanding(Admit(s, key, did, entropy)) ==
            Append(Outstanding(s), TokenAt(entropy, s.drawn), Candidate(entropy(s.drawn), key, did),
                   MAX_PENDING_CANDIDATES)
  {
    LedgerAppend(s.pending, s.order, TokenAt(entropy, s.drawn), Candidate(entropy(s.drawn), key, did),
                 MAX_PENDING_CANDIDATES);
  }

  lemma ExactTake(s: Registry, token: Bytes)
    requires Exact(s)
    ensures Exact(TakeStep(s, token).0)
    ensures Outstanding(TakeStep(s, token).0) == Without(Outstanding(s), token)
  {
    LedgerStrike(s.pending, s.order, token);
  }

  /** The queue and the map after an attach are those of taking the candidate, whatever the checks say. */
  lemma AttachTakes(s: Registry, params: AttachParams, published: Option<Key>, verify: Verifier, entropy: Entropy)
    ensures var s', taken := AttachStep(s, params, published, verify, entropy).0,
            TakeStep(s, params.sessionCandidate).0;
            s'.pending == taken.pending && s'.order == taken.order
  {}

  /** An attach adds its profile under the new session id when it opens a session, and nothing otherwise. */
  lemma AttachOpens(s: Registry, params: AttachParams, published: Option<Key>, verify: Verifier, entropy: Entropy)
    ensures var s', e := AttachStep(s, params, published, verify, entropy).0,
            EventOf(s, Attach(params, published, verify), entropy);
            && s'.sessions == (if e.Attached? then s.sessions[Hex.Encode(entropy(s.drawn)) := params.profile]
                               else s.sessions)
            && s'.drawn == (if e.Attached? then s.drawn + 1 else s.drawn)
            && (Consumes(e) <==> params.sessionCandidate in s.pending)
            && (Consumes(e) ==> e.token == params.sessionCandidate)
            && !e.Began? && !e.Detached?
  {}

  /** The map and the queue together step exactly as one ordered list does. */
  lemma LedgerRefined(s: Registry, op: Op, entropy: Entropy)
    requires Exact(s) && AllNamed(s, entropy) && Fresh(entropy, NextRegistry(s, op, entropy).drawn)
    ensures Exact(NextRegistry(s, op, entropy))
    ensures Outstanding(NextRegistry(s, op, entropy)) ==
            LedgerStep(Outstanding(s), op, TokenAt(entropy, s.drawn), entropy(s.drawn))
  {
    match op
    case Begin(params) =>
      if FromHex(params.signingPubkeyHex).Some? {
        NewTokenIsNew(s, entropy);
        ExactAdmit(s, FromHex(params.signingPubkeyHex).value, params.profileDid, entropy);
      }
    case Attach(params, published, verify) =>
      ExactTake(s, params.sessionCandidate);
      AttachTakes(s, params, published, verify, entropy);
    case Detach(id) =>
  }

  /** A lookup in the map is a lookup in the list, and their sizes agree. */
  lemma LedgerAnswers(s: Registry)
    requires Exact(s)
    ensures |Outstanding(s)| == |s.pending|
    ensures forall t, c :: t in s.pending && s.pending[t] == c <==> (t, c) in Outstanding(s)
  {
    forall t, c
      ensures t in s.pending && s.pending[t] == c <==> (t, c) in Outstanding(s)
    {
      LedgerLookup(s.pending, s.order, t, c);
    }
  }

  lemma {:induction false} AlwaysExact(ops: seq<Op>, entropy: Entropy)
    requires Fresh(entropy, Run(ops, entropy).reg.drawn)
    ensures Exact(Run(ops, entropy).reg) && AllNamed(Run(ops, entropy).reg, entropy)
  {
    if ops != [] {
      var s := Run(ops[..|ops| - 1], entropy).reg;
      DrawnGrows(s, ops[|ops| - 1], entropy);
      AlwaysExact(ops[..|ops| - 1], entropy);
      LedgerRefined(s, ops[|ops| - 1], entropy);
      NamedStep(s, ops[|ops| - 1], entropy);
    }
  }

  lemma DrawnGrows(s: Registry, op: Op, entropy: Entropy)
    ensures s.drawn <= NextRegistry(s, op, entropy).drawn
    ensures op.Begin? && FromHex(op.begin.signingPubkeyHex).Some? ==> NextRegistry(s, op, entropy).drawn == s.drawn + 2
  {}
}
