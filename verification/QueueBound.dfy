/**
 How long the queue beside the pending map can get. The cap is on the map; draws that repeat leave
 entries in the queue that stand for nothing, and those the cap does not see.
 */
module QueueBound {
  import opened Prelude
  import opened Wire
  import opened Domain
  import opened Fifo
  import opened RegistrySpec
  import opened RegistryRuns
  import opened Survival
  import Hex

  // ---- When the queue is within the cap ----

  /** A begin that finds the queue full and the map not full, so that nothing is evicted. */
  predicate Overflows(s: Registry, op: Op)
  {
    Admits(op) && |s.order| == MAX_PENDING_CANDIDATES && |s.pending| < MAX_PENDING_CANDIDATES
  }

  /** From a state within the cap, a begin takes the queue over it exactly when the queue is full and the map is not. */
  lemma BeginOverflowsExactly(s: Registry, key: Key, did: Bytes, entropy: Entropy)
    requires Bounded(s) && |s.order| <= MAX_PENDING_CANDIDATES
    ensures |Admit(s, key, did, entropy).order| <= MAX_PENDING_CANDIDATES <==>
            |s.order| < MAX_PENDING_CANDIDATES || |s.pending| == MAX_PENDING_CANDIDATES
  {
    CoveredSize(s.pending, s.order);
    EvictShortens(s.pending, s.order, MAX_PENDING_CANDIDATES);
    hide Evict, Hex.Encode;
  }

  lemma OverflowStep(s: Registry, op: Op, entropy: Entropy)
    requires Bounded(s) && |s.order| <= MAX_PENDING_CANDIDATES
    ensures |NextRegistry(s, op, entropy).order| <= MAX_PENDING_CANDIDATES <==> !Overflows(s, op)
  {
    match op
    case Begin(params) =>
      if Admits(op) {
        BeginOverflowsExactly(s, FromHex(params.signingPubkeyHex).value, params.profileDid, entropy);
        hide Admit;
      }
    case Attach(params, published, verify) =>
      AttachTakes(s, params, published, verify, entropy);
      hide AttachStep;
    case Detach(id) =>
  }

  /** The state after the first `i` requests. */
  ghost function After(ops: seq<Op>, entropy: Entropy, i: nat): Registry
    requires i <= |ops|
  {
    Run(ops[..i], entropy).reg
  }

  lemma AfterNext(ops: seq<Op>, entropy: Entropy, i: nat)
    requires i < |ops|
    ensures After(ops, entropy, i + 1) == NextRegistry(After(ops, entropy, i), ops[i], entropy)
  {
    assert ops[..i + 1] == ops[..i] + [ops[i]];
    RunSnoc(START, ops[..i], ops[i], entropy);
    hide NextRegistry, RunFrom;
  }

  lemma {:induction false} WithinCapUpTo(ops: seq<Op>, entropy: Entropy, n: nat)
    requires n <= |ops| && forall i | 0 <= i < n :: !Overflows(After(ops, entropy, i), ops[i])
    ensures |After(ops, entropy, n).order| <= MAX_PENDING_CANDIDATES
  {
    if n > 0 {
      WithinCapUpTo(ops, entropy, n - 1);
      AfterNext(ops, entropy, n - 1);
      AlwaysBounded(ops[..n - 1], entropy);
      OverflowStep(After(ops, entropy, n - 1), ops[n - 1], entropy);
      hide NextRegistry, Run;
    }
  }

  /**
   The exact condition, for every run and all draws: the queue is within the cap throughout if and only if
   no admitted begin finds the queue full while the map is not.
   */
  lemma QueueCappedExactly(ops: seq<Op>, entropy: Entropy)
    ensures (forall i | 0 <= i <= |ops| :: |After(ops, entropy, i).order| <= MAX_PENDING_CANDIDATES) <==>
            (forall i | 0 <= i < |ops| :: !Overflows(After(ops, entropy, i), ops[i]))
  {
    hide NextRegistry, After;
    if forall i | 0 <= i <= |ops| :: |After(ops, entropy, i).order| <= MAX_PENDING_CANDIDATES {
      forall i | 0 <= i < |ops|
        ensures !Overflows(After(ops, entropy, i), ops[i])
      {
        NoOverflowBefore(ops, entropy, i);
      }
    }
    if forall i | 0 <= i < |ops| :: !Overflows(After(ops, entropy, i), ops[i]) {
      forall i | 0 <= i <= |ops|
        ensures |After(ops, entropy, i).order| <= MAX_PENDING_CANDIDATES
      {
        WithinCapUpTo(ops, entropy, i);
      }
    }
  }

  lemma NoOverflowBefore(ops: seq<Op>, entropy: Entropy, i: nat)
    requires i < |ops|
    requires |After(ops, entropy, i).order| <= MAX_PENDING_CANDIDATES
             && |After(ops, entropy, i + 1).order| <= MAX_PENDING_CANDIDATES
    ensures !Overflows(After(ops, entropy, i), ops[i])
  {
    AfterNext(ops, entropy, i);
    AlwaysBounded(ops[..i], entropy);
    OverflowStep(After(ops, entropy, i), ops[i], entropy);
    hide NextRegistry, Run;
  }

  // ---- How far over the cap it can get ----

  /** An admitted begin that mints a token still pending after eviction. */
  predicate Repeats(s: Registry, op: Op, entropy: Entropy)
  {
    Admits(op) && TokenAt(entropy, s.drawn) in Evict(s.pending, s.order, MAX_PENDING_CANDIDATES).0
  }

  /** How many queue entries that stand for nothing a begin's eviction drops. */
  function StaleDropped(s: Registry, op: Op): nat
  {
    if Admits(op) then Stale(s.pending, s.order, MAX_PENDING_CANDIDATES) else 0
  }

  function RepeatCount(ops: seq<Op>, entropy: Entropy): nat
  {
    if ops == [] then 0
    else
      var n := |ops| - 1;
      RepeatCount(ops[..n], entropy) + if Repeats(Run(ops[..n], entropy).reg, ops[n], entropy) then 1 else 0
  }

  function StaleCount(ops: seq<Op>, entropy: Entropy): nat
  {
    if ops == [] then 0
    else
      var n := |ops| - 1;
      StaleCount(ops[..n], entropy) + StaleDropped(Run(ops[..n], entropy).reg, ops[n])
  }

  lemma AdmitBalance(s: Registry, key: Key, did: Bytes, entropy: Entropy)
    ensures var s', p := Admit(s, key, did, entropy), Evict(s.pending, s.order, MAX_PENDING_CANDIDATES).0;
            |s'.order| + |s.pending| + Stale(s.pending, s.order, MAX_PENDING_CANDIDATES) ==
            |s.order| + |s'.pending| + if TokenAt(entropy, s.drawn) in p then 1 else 0
  {
    EvictBalance(s.pending, s.order, MAX_PENDING_CANDIDATES);
    var (p, o) := Evict(s.pending, s.order, MAX_PENDING_CANDIDATES);
    InsertSize(p, TokenAt(entropy, s.drawn), Candidate(entropy(s.drawn), key, did));
    hide Evict, Stale, Hex.Encode;
  }

  lemma AttachBalance(s: Registry, params: AttachParams, published: Option<Key>, verify: Verifier, entropy: Entropy)
    requires Bounded(s)
    ensures var s' := AttachStep(s, params, published, verify, entropy).0;
            |s'.order| + |s.pending| == |s.order| + |s'.pending|
  {
    AttachTakes(s, params, published, verify, entropy);
    StrikeSizes(s.pending, s.order, params.sessionCandidate);
    hide AttachStep, Covered;
  }

  lemma BalanceStep(s: Registry, op: Op, entropy: Entropy)
    requires Bounded(s)
    ensures var s' := NextRegistry(s, op, entropy);
            |s'.order| + |s.pending| + StaleDropped(s, op) ==
            |s.order| + |s'.pending| + if Repeats(s, op, entropy) then 1 else 0
  {
    match op
    case Begin(params) =>
      if Admits(op) {
        AdmitBalance(s, FromHex(params.signingPubkeyHex).value, params.profileDid, entropy);
        hide Admit, Evict, Stale, Hex.Encode;
      }
    case Attach(params, published, verify) =>
      AttachBalance(s, params, published, verify, entropy);
      hide AttachStep, Bounded;
    case Detach(id) =>
  }

  /**
   What the queue holds, for every run and all draws: one entry for each pending candidate, and one more for
   each begin that minted a pending token, less the leftover entries eviction has dropped.
   */
  lemma {:induction false} QueueBalance(ops: seq<Op>, entropy: Entropy)
    ensures var s := Run(ops, entropy).reg;
            |s.order| + StaleCount(ops, entropy) == |s.pending| + RepeatCount(ops, entropy)
  {
    if ops != [] {
      var n := |ops| - 1;
      QueueBalance(ops[..n], entropy);
      AlwaysBounded(ops[..n], entropy);
      BalanceStep(Run(ops[..n], entropy).reg, ops[n], entropy);
      hide NextRegistry, Repeats, StaleDropped;
    }
  }

  /** So the queue exceeds the cap by at most the number of begins that minted a pending token. */
  lemma QueueLength(ops: seq<Op>, entropy: Entropy)
    ensures var s := Run(ops, entropy).reg;
            |s.pending| <= |s.order| <= |s.pending| + RepeatCount(ops, entropy) <=
              MAX_PENDING_CANDIDATES + RepeatCount(ops, entropy)
  {
    QueueBalance(ops, entropy);
    AlwaysBounded(ops, entropy);
    CoveredSize(Run(ops, entropy).reg.pending, Run(ops, entropy).reg.order);
    hide Run, Evict, Covered;
  }

  // ---- A run that goes over, and what keeps the two structures in step ----

  /** A begin keeps the queue as long as the map exactly when the token it mints is not pending after eviction. */
  lemma BeginKeepsExactness(s: Registry, key: Key, did: Bytes, entropy: Entropy)
    requires Exact(s)
    ensures Exact(Admit(s, key, did, entropy)) <==>
            TokenAt(entropy, s.drawn) !in Evict(s.pending, s.order, MAX_PENDING_CANDIDATES).0
  {
    var (p, o) := Evict(s.pending, s.order, MAX_PENDING_CANDIDATES);
    if |s.order| == MAX_PENDING_CANDIDATES {
      EvictMatched(s.pending, s.order, MAX_PENDING_CANDIDATES);
    }
    assert Matched(p, o) && |o| < MAX_PENDING_CANDIDATES;
    PushMatchedExactly(p, o, TokenAt(entropy, s.drawn), Candidate(entropy(s.drawn), key, did));
    hide Evict, Matched;
  }

  function Repeated(op: Op, n: nat): seq<Op> { if n == 0 then [] else Repeated(op, n - 1) + [op] }

  /** If every draw is the same, the cap holds the map at one entry while the queue grows with every begin. */
  lemma {:induction false} QueueOutgrowsCap(params: BeginParams, draw: Nonce, n: nat)
    requires FromHex(params.signingPubkeyHex).Some?
    ensures var s := Run(Repeated(Begin(params), n), _ => draw).reg;
            && |s.order| == n && s.pending.Keys == (if n == 0 then {} else {Hex.Encode(draw)})
  {
    if n > 0 {
      var entropy: Entropy := _ => draw;
      var s := Run(Repeated(Begin(params), n - 1), entropy).reg;
      QueueOutgrowsCap(params, draw, n - 1);
      RepeatedBegin(params, n, entropy);
      SmallMapGrows(s, FromHex(params.signingPubkeyHex).value, params.profileDid, entropy);
      hide Admit, Run, FromHex, Hex.Encode, Repeated;
    }
  }

  lemma RepeatedBegin(params: BeginParams, n: nat, entropy: Entropy)
    requires n > 0 && FromHex(params.signingPubkeyHex).Some?
    ensures Run(Repeated(Begin(params), n), entropy).reg ==
            Admit(Run(Repeated(Begin(params), n - 1), entropy).reg, FromHex(params.signingPubkeyHex).value,
                  params.profileDid, entropy)
  {
    RunSnoc(START, Repeated(Begin(params), n - 1), Begin(params), entropy);
    hide Admit, RunFrom, FromHex, Hex.Encode;
  }

  /** Below the cap a begin only adds: one queue entry, and one key unless it was there. */
  lemma SmallMapGrows(s: Registry, key: Key, did: Bytes, entropy: Entropy)
    requires |s.pending.Keys| < MAX_PENDING_CANDIDATES
    ensures var s' := Admit(s, key, did, entropy);
            && |s'.order| == |s.order| + 1
            && s'.pending.Keys == s.pending.Keys + {TokenAt(entropy, s.drawn)}
  {
    SmallMapKept(s, entropy);
    hide Evict, Hex.Encode;
  }

  lemma SmallMapKept(s: Registry, entropy: Entropy)
    requires |s.pending.Keys| < MAX_PENDING_CANDIDATES
    ensures Evict(s.pending, s.order, MAX_PENDING_CANDIDATES) == (s.pending, s.order)
  {
    assert |s.pending| == |s.pending.Keys|;
  }
}
