/** What is spent, what is left, and what was opened, over whole runs of the registry. */
module Accounting {
  import opened Prelude
  import opened Wire
  import opened Domain
  import opened Fifo
  import opened RegistrySpec
  import opened RegistryRuns
  import opened Survival
  import Hex

  // ---- Single use ----

  /** The tokens an event takes out of the pending map for good. */
  function Spent(e: Event): set<Bytes>
  {
    match e
    case Began(_, _, evicted) => evicted
    case AttachRefused(token, _, _) => {token}
    case Attached(token, _, _, _) => {token}
    case _ => {}
  }

  ghost predicate SpentStaysSpent(w: World, entropy: Entropy)
  {
    && (forall i | 0 <= i < |w.history| :: Spent(w.history[i]) !! w.reg.pending.Keys)
    && (forall i | 0 <= i < |w.history| :: Spent(w.history[i]) <= Names(entropy, w.reg.drawn))
    && (forall i, j | 0 <= i < j < |w.history| :: Spent(w.history[i]) !! Spent(w.history[j]))
  }

  /** An event spends only tokens that were pending, and they are not pending after it. */
  lemma SpendsPending(s: Registry, op: Op, entropy: Entropy)
    requires AllNamed(s, entropy) && Fresh(entropy, NextRegistry(s, op, entropy).drawn)
    ensures Spent(EventOf(s, op, entropy)) <= s.pending.Keys
    ensures Spent(EventOf(s, op, entropy)) !! NextRegistry(s, op, entropy).pending.Keys
  {
    match op
    case Begin(params) =>
      if Admits(op) {
        NewTokenIsNew(s, entropy);
      }
    case Attach(params, published, verify) =>
      AttachTakes(s, params, published, verify, entropy);
      AttachOpens(s, params, published, verify, entropy);
    case Detach(id) =>
  }

  lemma SpentStep(w: World, op: Op, entropy: Entropy)
    requires AllNamed(w.reg, entropy) && SpentStaysSpent(w, entropy)
    requires Fresh(entropy, NextRegistry(w.reg, op, entropy).drawn)
    ensures SpentStaysSpent(Step(w, op, entropy), entropy)
  {
    var w', e := Step(w, op, entropy), EventOf(w.reg, op, entropy);
    SpendsPending(w.reg, op, entropy);
    DrawnGrows(w.reg, op, entropy);
    NamedGrow(entropy, w.reg.drawn, w'.reg.drawn);
    forall i | 0 <= i < |w.history|
      ensures Spent(w.history[i]) !! w'.reg.pending.Keys
    {
      forall t | t in Spent(w.history[i])
        ensures t !in w'.reg.pending
      {
        GoneStep(w.reg, op, entropy, t);
      }
    }
    assert forall i | 0 <= i < |w'.history| :: w'.history[i] == if i < |w.history| then w.history[i] else e;
  }

  lemma {:induction false} AlwaysSpent(ops: seq<Op>, entropy: Entropy)
    requires Fresh(entropy, Run(ops, entropy).reg.drawn)
    ensures SpentStaysSpent(Run(ops, entropy), entropy)
  {
    if ops != [] {
      var w, op := Run(ops[..|ops| - 1], entropy), ops[|ops| - 1];
      DrawnGrows(w.reg, op, entropy);
      AlwaysSpent(ops[..|ops| - 1], entropy);
      AlwaysExact(ops[..|ops| - 1], entropy);
      SpentStep(w, op, entropy);
    }
  }

  /**
   No token passes the candidate lookup twice, whether the attach succeeded or not, and a consumed or
   evicted token is not pending in any later state.
   */
  lemma SingleUse(before: seq<Op>, after: seq<Op>, entropy: Entropy, i: nat, j: nat)
    requires Fresh(entropy, Run(before + after, entropy).reg.drawn)
    requires i < |before|
    ensures i < |Run(before + after, entropy).history|
    ensures Spent(Run(before + after, entropy).history[i]) !! Run(before, entropy).reg.pending.Keys
    ensures var h := Run(before + after, entropy).history;
            i < j < |h| && Consumes(h[i]) && Consumes(h[j]) ==> h[i].token != h[j].token
  {
    RunConcat(START, before, after, entropy);
    RunLength(START, before, entropy);
    RunLength(Run(before, entropy), after, entropy);
    AlwaysSpent(before, entropy);
    AlwaysSpent(before + after, entropy);
    var h := Run(before + after, entropy).history;
    assert Run(before, entropy).history[i] == h[i];
    if i < j < |h| && Consumes(h[i]) && Consumes(h[j]) {
      assert h[i].token in Spent(h[i]) && h[j].token in Spent(h[j]);
    }
  }

  // ---- Conservation ----

  /** The sum of a measure over a history. */
  function Sum(history: seq<Event>, measure: Event -> nat): nat
  {
    if history == [] then 0 else Sum(history[..|history| - 1], measure) + measure(history[|history| - 1])
  }

  lemma SumSnoc(history: seq<Event>, e: Event, measure: Event -> nat)
    ensures Sum(history + [e], measure) == Sum(history, measure) + measure(e)
  {
    assert (history + [e])[..|history|] == history;
  }

  const BEGUN: Event -> nat := (e: Event) => if e.Began? then 1 else 0
  const CONSUMED: Event -> nat := (e: Event) => if Consumes(e) then 1 else 0
  const EVICTED: Event -> nat := (e: Event) => if e.Began? then |e.evicted| else 0
  const OPENED: Event -> nat := (e: Event) => if e.Attached? then 1 else 0
  const CLOSED: Event -> nat := (e: Event) => if e.Detached? && e.removed then 1 else 0

  lemma SumsSnoc(history: seq<Event>, e: Event)
    ensures Sum(history + [e], BEGUN) == Sum(history, BEGUN) + BEGUN(e)
    ensures Sum(history + [e], CONSUMED) == Sum(history, CONSUMED) + CONSUMED(e)
    ensures Sum(history + [e], EVICTED) == Sum(history, EVICTED) + EVICTED(e)
    ensures Sum(history + [e], OPENED) == Sum(history, OPENED) + OPENED(e)
    ensures Sum(history + [e], CLOSED) == Sum(history, CLOSED) + CLOSED(e)
  {
    SumSnoc(history, e, BEGUN);
    SumSnoc(history, e, CONSUMED);
    SumSnoc(history, e, EVICTED);
    SumSnoc(history, e, OPENED);
    SumSnoc(history, e, CLOSED);
  }

  lemma SubsetSize<K>(a: set<K>, b: set<K>)
    requires a <= b
    ensures |b - a| == |b| - |a|
  {
    assert b == (b - a) + a;
  }

  lemma EvictSizes<K, V>(pending: map<K, V>, order: seq<K>, cap: nat, key: K, value: V)
    ensures var p := Evict(pending, order, cap).0;
            && |pending.Keys - p.Keys| == |pending| - |p|
            && |p| <= |p[key := value]| <= |p| + 1
            && (key !in pending ==> |p[key := value]| == |p| + 1)
  {
    var p := Evict(pending, order, cap).0;
    EvictOnlyRemoves(pending, order, cap);
    SubsetSize(p.Keys, pending.Keys);
    assert |p| == |p.Keys| && |pending| == |pending.Keys|;
    InsertSize(p, key, value);
  }

  /** How one event moves the two sizes: at most by what it adds and removes, or exactly so. */
  predicate PendingMoves(s: Registry, s': Registry, e: Event, exactly: bool)
  {
    var a, b := |s'.pending| + CONSUMED(e) + EVICTED(e), |s.pending| + BEGUN(e);
    if exactly then a == b else a <= b
  }

  predicate SessionsMove(s: Registry, s': Registry, e: Event, exactly: bool)
  {
    var a, b := |s'.sessions| + CLOSED(e), |s.sessions| + OPENED(e);
    if exactly then a == b else a <= b
  }

  lemma AdmitSizes(s: Registry, key: Key, did: Bytes, entropy: Entropy)
    ensures var p, s' := Evict(s.pending, s.order, MAX_PENDING_CANDIDATES).0, Admit(s, key, did, entropy);
            && |s'.pending| + |s.pending.Keys - p.Keys| <= |s.pending| + 1
            && (TokenAt(entropy, s.drawn) !in s.pending ==> |s'.pending| + |s.pending.Keys - p.Keys| == |s.pending| + 1)
  {
    hide Evict;
    EvictSizes(s.pending, s.order, MAX_PENDING_CANDIDATES, TokenAt(entropy, s.drawn),
               Candidate(entropy(s.drawn), key, did));
  }

  lemma AttachSizes(s: Registry, params: AttachParams, published: Option<Key>, verify: Verifier, entropy: Entropy)
    ensures PendingMoves(s, AttachStep(s, params, published, verify, entropy).0,
                         EventOf(s, Attach(params, published, verify), entropy), true)
  {
    AttachTakes(s, params, published, verify, entropy);
    AttachOpens(s, params, published, verify, entropy);
    RemoveSize(s.pending, params.sessionCandidate);
    hide AttachStep, EventOf;
  }

  lemma BeginSizes(s: Registry, params: BeginParams, entropy: Entropy, exactly: bool)
    requires exactly && Admits(Begin(params)) ==> TokenAt(entropy, s.drawn) !in s.pending
    ensures PendingMoves(s, BeginStep(s, params, entropy).0, EventOf(s, Begin(params), entropy), exactly)
  {
    hide Evict, Admit;
    if Admits(Begin(params)) {
      AdmitSizes(s, FromHex(params.signingPubkeyHex).value, params.profileDid, entropy);
    }
  }

  lemma PendingSizeStep(s: Registry, op: Op, entropy: Entropy, exactly: bool)
    requires exactly && Admits(op) ==> TokenAt(entropy, s.drawn) !in s.pending
    ensures PendingMoves(s, NextRegistry(s, op, entropy), EventOf(s, op, entropy), exactly)
  {
    match op
    case Begin(params) =>
      BeginSizes(s, params, entropy, exactly);
    case Attach(params, published, verify) =>
      AttachSizes(s, params, published, verify, entropy);
      hide AttachStep, EventOf;
    case Detach(id) =>
  }

  lemma SessionSizeStep(s: Registry, op: Op, entropy: Entropy, exactly: bool)
    requires exactly && EventOf(s, op, entropy).Attached? ==> Hex.Encode(entropy(s.drawn)) !in s.sessions
    ensures SessionsMove(s, NextRegistry(s, op, entropy), EventOf(s, op, entropy), exactly)
  {
    match op
    case Begin(params) =>
    case Attach(params, published, verify) =>
      AttachOpens(s, params, published, verify, entropy);
      InsertSize(s.sessions, Hex.Encode(entropy(s.drawn)), params.profile);
    case Detach(id) =>
      RemoveSize(s.sessions, id);
  }

  lemma ExactSizeStep(s: Registry, op: Op, entropy: Entropy)
    requires AllNamed(s, entropy) && Fresh(entropy, NextRegistry(s, op, entropy).drawn)
    ensures PendingMoves(s, NextRegistry(s, op, entropy), EventOf(s, op, entropy), true)
    ensures SessionsMove(s, NextRegistry(s, op, entropy), EventOf(s, op, entropy), true)
  {
    if Admits(op) {
      NewTokenIsNew(s, entropy);
    }
    if EventOf(s, op, entropy).Attached? {
      FreshIsUnnamed(entropy, s.drawn, s.drawn, s.drawn + 1);
    }
    PendingSizeStep(s, op, entropy, true);
    SessionSizeStep(s, op, entropy, true);
  }

  /**
   With draws that do not repeat: begins = pending + consumed + evicted, and sessions opened = open +
   closed.
   */
  lemma {:induction false} Conservation(ops: seq<Op>, entropy: Entropy)
    requires Fresh(entropy, Run(ops, entropy).reg.drawn)
    ensures var w := Run(ops, entropy);
            && Sum(w.history, BEGUN) == |w.reg.pending| + Sum(w.history, CONSUMED) + Sum(w.history, EVICTED)
            && Sum(w.history, OPENED) == |w.reg.sessions| + Sum(w.history, CLOSED)
  {
    if ops != [] {
      var w, op := Run(ops[..|ops| - 1], entropy), ops[|ops| - 1];
      DrawnGrows(w.reg, op, entropy);
      Conservation(ops[..|ops| - 1], entropy);
      AlwaysExact(ops[..|ops| - 1], entropy);
      ExactSizeStep(w.reg, op, entropy);
      SumsSnoc(w.history, EventOf(w.reg, op, entropy));
    }
  }

  /** Even when draws repeat, sessions ever opened never outnumber admitted begins. */
  lemma {:induction false} OpenedWithinBegun(ops: seq<Op>, entropy: Entropy)
    ensures var w := Run(ops, entropy);
            && Sum(w.history, OPENED) + |w.reg.pending| <= Sum(w.history, CONSUMED) + |w.reg.pending| <=
               Sum(w.history, BEGUN)
            && |w.reg.sessions| + Sum(w.history, CLOSED) <= Sum(w.history, OPENED)
  {
    if ops != [] {
      var w, op := Run(ops[..|ops| - 1], entropy), ops[|ops| - 1];
      OpenedWithinBegun(ops[..|ops| - 1], entropy);
      PendingSizeStep(w.reg, op, entropy, false);
      SessionSizeStep(w.reg, op, entropy, false);
      SumsSnoc(w.history, EventOf(w.reg, op, entropy));
    }
  }
}
