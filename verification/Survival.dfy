/** How long an outstanding handshake is kept, when draws do not repeat. */
module Survival {
  import opened Prelude
  import opened Wire
  import opened Domain
  import opened Fifo
  import opened RegistrySpec
  import opened RegistryRuns

  predicate Admits(op: Op) { op.Begin? && FromHex(op.begin.signingPubkeyHex).Some? }

  /** How many of the requests are begins that the registry admits. */
  function Begins(ops: seq<Op>): nat
  {
    if ops == [] then 0 else Begins(ops[..|ops| - 1]) + if Admits(ops[|ops| - 1]) then 1 else 0
  }

  predicate NamesToken(op: Op, token: Bytes) { op.Attach? && op.attach.sessionCandidate == token }

  /** The entry stands in the list with exactly `k` later entries after it. */
  predicate Behind<K(==), V(==)>(l: Ledger<K, V>, entry: (K, V), k: nat)
  {
    k < |l| && l[|l| - 1 - k] == entry
  }

  lemma {:induction false} WithoutKeepsPlace<K, V>(l: Ledger<K, V>, key: K, entry: (K, V), k: nat) returns (k': nat)
    requires Behind(l, entry, k) && entry.0 != key
    ensures k' <= k && Behind(Without(l, key), entry, k')
  {
    WithoutShrinks(l[1..], key);
    if k == |l| - 1 {
      k' := |Without(l[1..], key)|;
    } else {
      k' := WithoutKeepsPlace(l[1..], key, entry, k);
      var rest := Without(l[1..], key);
      assert Without(l, key) == if l[0].0 == key then rest else [l[0]] + rest;
    }
  }

  lemma {:induction false} WithoutShrinks<K, V>(l: Ledger<K, V>, key: K)
    ensures |Without(l, key)| <= |l|
  {
    if l != [] {
      WithoutShrinks(l[1..], key);
    }
  }

  lemma AppendMovesPlace<K, V>(l: Ledger<K, V>, key: K, value: V, cap: nat, entry: (K, V), k: nat)
    requires Behind(l, entry, k) && k + 1 < cap && |l| <= cap
    ensures Behind(Append(l, key, value, cap), entry, k + 1)
  {}

  /** One request moves an entry back by at most one place, unless it names it or the list pushes it out. */
  lemma StepKeepsPlace(l: Ledger<Bytes, Candidate>, op: Op, token: Bytes, nonce: Nonce, entry: (Bytes, Candidate),
                       k: nat)
    returns (k': nat)
    requires Behind(l, entry, k) && |l| <= MAX_PENDING_CANDIDATES
    requires !NamesToken(op, entry.0) && (Admits(op) ==> k + 1 < MAX_PENDING_CANDIDATES)
    ensures Behind(LedgerStep(l, op, token, nonce), entry, k')
    ensures k' <= k + if Admits(op) then 1 else 0
    ensures !op.Attach? ==> k' == k + if Admits(op) then 1 else 0
  {
    k' := k;
    match op
    case Begin(params) =>
      if Admits(op) {
        AppendMovesPlace(l, token, Candidate(nonce, FromHex(params.signingPubkeyHex).value, params.profileDid),
                         MAX_PENDING_CANDIDATES, entry, k);
        k' := k + 1;
      }
    case Attach(params, _, _) =>
      k' := WithoutKeepsPlace(l, params.sessionCandidate, entry, k);
    case Detach(_) =>
  }

  ghost predicate Sound(s: Registry, entropy: Entropy) { Exact(s) && AllNamed(s, entropy) }

  lemma SoundStep(s: Registry, op: Op, entropy: Entropy)
    requires Sound(s, entropy) && Fresh(entropy, NextRegistry(s, op, entropy).drawn)
    ensures Sound(NextRegistry(s, op, entropy), entropy)
  {
    LedgerRefined(s, op, entropy);
    NamedStep(s, op, entropy);
  }

  lemma {:induction false} KeepsPlace(w: World, ops: seq<Op>, entropy: Entropy, entry: (Bytes, Candidate), k: nat)
    returns (k': nat)
    requires Sound(w.reg, entropy) && Fresh(entropy, RunFrom(w, ops, entropy).reg.drawn)
    requires Behind(Outstanding(w.reg), entry, k) && k + Begins(ops) < MAX_PENDING_CANDIDATES
    requires forall op :: op in ops ==> !NamesToken(op, entry.0)
    ensures Sound(RunFrom(w, ops, entropy).reg, entropy)
    ensures Behind(Outstanding(RunFrom(w, ops, entropy).reg), entry, k') && k' <= k + Begins(ops)
    ensures (forall op :: op in ops ==> !op.Attach?) ==> k' == k + Begins(ops)
  {
    if ops == [] {
      k' := k;
    } else {
      var n := |ops| - 1;
      var s, op := RunFrom(w, ops[..n], entropy).reg, ops[n];
      DrawnGrows(s, op, entropy);
      var j := KeepsPlace(w, ops[..n], entropy, entry, k);
      SoundStep(s, op, entropy);
      LedgerRefined(s, op, entropy);
      k' := StepKeepsPlace(Outstanding(s), op, TokenAt(entropy, s.drawn), entropy(s.drawn), entry, j);
    }
  }

  lemma PlaceMeansPending(s: Registry, entry: (Bytes, Candidate), k: nat)
    requires Exact(s) && Behind(Outstanding(s), entry, k)
    ensures entry.0 in s.pending && s.pending[entry.0] == entry.1
  {
    LedgerAnswers(s);
    assert entry in Outstanding(s);
  }

  /** What an admitted begin leaves: its candidate is the newest entry of the list. */
  lemma BeginPlacesLast(s: Registry, params: BeginParams, entropy: Entropy)
    requires Sound(s, entropy) && Admits(Begin(params)) && Fresh(entropy, s.drawn + 2)
    ensures var s' := NextRegistry(s, Begin(params), entropy);
            && Sound(s', entropy)
            && var c := Candidate(entropy(s.drawn), FromHex(params.signingPubkeyHex).value, params.profileDid);
            Behind(Outstanding(s'), (TokenAt(entropy, s.drawn), c), 0)
  {
    SoundStep(s, Begin(params), entropy);
    LedgerRefined(s, Begin(params), entropy);
  }

  /**
   A candidate stays pending, unchanged, through any run with at most 255 further admitted begins in
   which no attach names it.
   */
  lemma CandidateSurvives(before: seq<Op>, params: BeginParams, after: seq<Op>, entropy: Entropy)
    requires Admits(Begin(params)) && Begins(after) < MAX_PENDING_CANDIDATES
    requires Fresh(entropy, Run(before + [Begin(params)] + after, entropy).reg.drawn)
    requires var token := TokenAt(entropy, Run(before, entropy).reg.drawn);
             forall op :: op in after ==> !NamesToken(op, token)
    ensures var s, s' := Run(before, entropy).reg, Run(before + [Begin(params)] + after, entropy).reg;
            var token := TokenAt(entropy, s.drawn);
            && token in s'.pending
            && s'.pending[token] == Candidate(entropy(s.drawn), FromHex(params.signingPubkeyHex).value,
                                              params.profileDid)
  {
    var w, w1 := Run(before, entropy), Run(before + [Begin(params)], entropy);
    RunSnoc(START, before, Begin(params), entropy);
    RunConcat(START, before + [Begin(params)], after, entropy);
    RunLength(w1, after, entropy);
    DrawnGrows(w.reg, Begin(params), entropy);
    AlwaysExact(before, entropy);
    BeginPlacesLast(w.reg, params, entropy);
    var entry := (TokenAt(entropy, w.reg.drawn),
                  Candidate(entropy(w.reg.drawn), FromHex(params.signingPubkeyHex).value, params.profileDid));
    var k := KeepsPlace(w1, after, entropy, entry, 0);
    PlaceMeansPending(RunFrom(w1, after, entropy).reg, entry, k);
  }

  // ---- The bound is tight ----

  lemma NamedGrow(entropy: Entropy, n: nat, m: nat)
    requires n <= m
    ensures Names(entropy, n) <= Names(entropy, m)
    decreases m
  {
    if n < m {
      NamedGrow(entropy, n, m - 1);
    }
  }

  /** A token that was drawn and is not pending never becomes pending again. */
  lemma GoneStep(s: Registry, op: Op, entropy: Entropy, token: Bytes)
    requires token !in s.pending && token in Names(entropy, s.drawn)
    requires Fresh(entropy, NextRegistry(s, op, entropy).drawn)
    ensures token !in NextRegistry(s, op, entropy).pending
            && token in Names(entropy, NextRegistry(s, op, entropy).drawn)
  {
    DrawnGrows(s, op, entropy);
    NamedGrow(entropy, s.drawn, NextRegistry(s, op, entropy).drawn);
    if Admits(op) {
      FreshIsUnnamed(entropy, s.drawn, s.drawn + 1, s.drawn + 2);
      PushKeys(s.pending, s.order, MAX_PENDING_CANDIDATES, TokenAt(entropy, s.drawn),
               Candidate(entropy(s.drawn), FromHex(op.begin.signingPubkeyHex).value, op.begin.profileDid));
    }
  }

  lemma OldestIsFirst(s: Registry, entry: (Bytes, Candidate), k: nat)
    requires Exact(s) && Behind(Outstanding(s), entry, k) && k == MAX_PENDING_CANDIDATES - 1
    ensures |s.order| == MAX_PENDING_CANDIDATES && s.order[0] == entry.0
  {
    assert Outstanding(s)[0] == entry;
  }

  lemma AdmitPushesOut(s: Registry, key: Key, did: Bytes, entropy: Entropy)
    requires Exact(s) && |s.order| == MAX_PENDING_CANDIDATES && TokenAt(entropy, s.drawn) !in s.pending
    ensures s.order[0] !in Admit(s, key, did, entropy).pending
  {
    FullEvictsOldest(s.pending, s.order, MAX_PENDING_CANDIDATES, TokenAt(entropy, s.drawn),
                     Candidate(entropy(s.drawn), key, did));
  }

  /** A begin that finds 255 later entries behind a candidate evicts that candidate. */
  lemma PushedOut(s: Registry, op: Op, entropy: Entropy, entry: (Bytes, Candidate))
    requires Sound(s, entropy) && Admits(op) && Fresh(entropy, s.drawn + 2)
    requires Behind(Outstanding(s), entry, MAX_PENDING_CANDIDATES - 1)
    ensures entry.0 !in NextRegistry(s, op, entropy).pending
  {
    NewTokenIsNew(s, entropy);
    OldestIsFirst(s, entry, MAX_PENDING_CANDIDATES - 1);
    AdmitPushesOut(s, FromHex(op.begin.signingPubkeyHex).value, op.begin.profileDid, entropy);
  }

  /** Once 256 begins have come, a candidate no attach has disturbed is gone and stays gone. */
  lemma {:induction false} GoneAfter(w: World, ops: seq<Op>, entropy: Entropy, entry: (Bytes, Candidate))
    requires Sound(w.reg, entropy) && Fresh(entropy, RunFrom(w, ops, entropy).reg.drawn)
    requires Behind(Outstanding(w.reg), entry, 0) && Begins(ops) >= MAX_PENDING_CANDIDATES
    requires forall op :: op in ops ==> !op.Attach?
    ensures entry.0 !in RunFrom(w, ops, entropy).reg.pending
            && entry.0 in Names(entropy, RunFrom(w, ops, entropy).reg.drawn)
  {
    var n := |ops| - 1;
    var s, op := RunFrom(w, ops[..n], entropy).reg, ops[n];
    DrawnGrows(s, op, entropy);
    if Begins(ops[..n]) >= MAX_PENDING_CANDIDATES {
      GoneAfter(w, ops[..n], entropy, entry);
      GoneStep(s, op, entropy, entry.0);
    } else {
      GoneNow(w, ops[..n], op, entropy, entry);
    }
  }

  /** The 256th begin is the one that evicts the candidate. */
  lemma GoneNow(w: World, ops: seq<Op>, op: Op, entropy: Entropy, entry: (Bytes, Candidate))
    requires Sound(w.reg, entropy) && Fresh(entropy, NextRegistry(RunFrom(w, ops, entropy).reg, op, entropy).drawn)
    requires Behind(Outstanding(w.reg), entry, 0) && Begins(ops) == MAX_PENDING_CANDIDATES - 1 && Admits(op)
    requires forall o :: o in ops ==> !o.Attach?
    ensures var s' := NextRegistry(RunFrom(w, ops, entropy).reg, op, entropy);
            entry.0 !in s'.pending && entry.0 in Names(entropy, s'.drawn)
  {
    hide NextRegistry, RunFrom;
    var s := RunFrom(w, ops, entropy).reg;
    DrawnGrows(s, op, entropy);
    var k := KeepsPlace(w, ops, entropy, entry, 0);
    PlaceMeansPending(s, entry, k);
    PushedOut(s, op, entropy, entry);
    NamedGrow(entropy, s.drawn, NextRegistry(s, op, entropy).drawn);
  }

  /** Without attaches, a candidate at the end of the list is pending exactly while begins number at most 255. */
  lemma PendingExactly(w: World, ops: seq<Op>, entropy: Entropy, entry: (Bytes, Candidate))
    requires Sound(w.reg, entropy) && Fresh(entropy, RunFrom(w, ops, entropy).reg.drawn)
    requires Behind(Outstanding(w.reg), entry, 0)
    requires forall op :: op in ops ==> !op.Attach?
    ensures entry.0 in RunFrom(w, ops, entropy).reg.pending <==> Begins(ops) < MAX_PENDING_CANDIDATES
  {
    if Begins(ops) < MAX_PENDING_CANDIDATES {
      var k := KeepsPlace(w, ops, entropy, entry, 0);
      PlaceMeansPending(RunFrom(w, ops, entropy).reg, entry, k);
    } else {
      GoneAfter(w, ops, entropy, entry);
    }
  }

  /** The bound of 255 is tight: without attaches the candidate is pending if and only if it is kept to. */
  lemma SurvivalIsTight(before: seq<Op>, params: BeginParams, after: seq<Op>, entropy: Entropy)
    requires Admits(Begin(params))
    requires Fresh(entropy, Run(before + [Begin(params)] + after, entropy).reg.drawn)
    requires forall op :: op in after ==> !op.Attach?
    ensures TokenAt(entropy, Run(before, entropy).reg.drawn) in
            Run(before + [Begin(params)] + after, entropy).reg.pending
            <==> Begins(after) <= 255
  {
    var w, w1 := Run(before, entropy), Run(before + [Begin(params)], entropy);
    RunSnoc(START, before, Begin(params), entropy);
    RunConcat(START, before + [Begin(params)], after, entropy);
    RunLength(w1, after, entropy);
    DrawnGrows(w.reg, Begin(params), entropy);
    AlwaysExact(before, entropy);
    BeginPlacesLast(w.reg, params, entropy);
    PendingExactly(w1, after, entropy,
                   (TokenAt(entropy, w.reg.drawn),
                    Candidate(entropy(w.reg.drawn), FromHex(params.signingPubkeyHex).value, params.profileDid)));
  }
}
