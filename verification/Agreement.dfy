/**
 Clients and the engine in any interleaving, with signatures idealised in one direction: nothing verifies
 for a key and a message unless the key's holder has signed exactly that message. The engine may still
 refuse any signature. A session it opens for a client's key is then matched by a handshake that client
 ran, and by no other session.
 */
module Agreement {
  import opened Prelude
  import opened Wire
  import opened Domain
  import opened RegistrySpec
  import opened RegistryRuns
  import opened Accounting
  import opened ClientSpec
  import opened ClientRuns

  /**
   The engine's requests so far, the turns each client has taken, and the messages signed outside every
   client's session code: those of keys no client holds, and those a user asked for directly.
   */
  datatype System = System(served: seq<Op>, keys: seq<Key>, turns: seq<seq<Turn>>, outside: set<(Key, Bytes)>)
  {
    ghost predicate Valid() { |keys| == |turns| }
  }

  ghost function ClientOf(s: System, i: nat): Client
    requires s.Valid() && i < |s.keys|
  {
    ClientRuns.Run(s.keys[i], s.turns[i])
  }

  /** Whether the key has signed the message. */
  ghost predicate Given(s: System, key: Key, message: Bytes)
    requires s.Valid()
  {
    || (key, message) in s.outside
    || exists i: nat, k: nat | i < |s.keys| && k < |ClientOf(s, i).log| ::
         s.keys[i] == key && ClientOf(s, i).log[k].message == message
  }

  /** The verifier accepts nothing for a key and a message that the key has not signed; it may refuse anything. */
  ghost predicate Unforgeable(s: System, verify: Verifier)
    requires s.Valid()
  {
    forall key: Key, message: Bytes, signature: Signature :: verify(key, message, signature) ==> Given(s, key, message)
  }

  /**
   What can happen next. Any begin, attach or detach may reach the engine from anyone, with any answer
   from the resolver and any verifier that cannot be forged; any client may take any turn, so any frame may
   reach it and its signer may give any bytes as a signature; a user may have a client's key sign a
   message of their own; and any other key may sign anything.
   */
  datatype Action =
    | ServeBegin(begin: BeginParams)
    | ServeAttach(attach: AttachParams, published: Option<Key>, verify: Verifier)
    | ServeDetach(sessionId: Bytes)
    | ClientTurn(client: nat, turn: Turn)
    | UserSigns(client: nat, message: Bytes)
    | OtherSigns(key: Key, signed: Bytes)

  ghost function Next(s: System, a: Action): (s': System)
    requires s.Valid()
    ensures s'.Valid() && s'.keys == s.keys
  {
    match a
    case ServeBegin(params) => s.(served := s.served + [Op.Begin(params)])
    case ServeAttach(params, published, verify) =>
      if Unforgeable(s, verify) then s.(served := s.served + [Op.Attach(params, published, verify)]) else s
    case ServeDetach(id) => s.(served := s.served + [Op.Detach(id)])
    case ClientTurn(i, turn) => if i < |s.turns| then s.(turns := s.turns[i := s.turns[i] + [turn]]) else s
    case UserSigns(i, message) =>
      if i < |s.keys| then s.(outside := s.outside + {(s.keys[i], UserSignMessage(message))}) else s
    case OtherSigns(key, message) =>
      if key in s.keys then s else s.(outside := s.outside + {(key, message)})
  }

  ghost function Play(keys: seq<Key>, actions: seq<Action>): (s: System)
    ensures s.Valid() && s.keys == keys
  {
    if actions == [] then System([], keys, seq(|keys|, _ => []), {})
    else Next(Play(keys, actions[..|actions| - 1]), actions[|actions| - 1])
  }

  /** A system that some sequence of actions leads to. */
  ghost predicate Reachable(s: System) { exists actions :: s == Play(s.keys, actions) }

  // ---- What has verified ----

  /** A client's key signs outside its session code only user messages. */
  ghost predicate OutsideIsUserSigned(s: System)
  {
    forall t :: t in s.outside && t.0 in s.keys ==> exists message :: t.1 == UserSignMessage(message)
  }

  /** Whatever any of the engine's verifiers accepts has been signed. */
  ghost predicate VerifiedWasGiven(s: System)
    requires s.Valid()
  {
    forall i | 0 <= i < |s.served| && s.served[i].Attach? :: Unforgeable(s, s.served[i].verify)
  }

  lemma LogGrows(key: Key, turns: seq<Turn>, t: Turn)
    ensures ClientRuns.Run(key, turns).log <= ClientRuns.Run(key, turns + [t]).log
  {
    var c := ClientRuns.Run(key, turns);
    assert (turns + [t])[..|turns|] == turns;
    StepMoves(c, t);
    hide ClientSpec.Step, CallbackSigned, ChallengeSigned, Carries, Requests;
  }

  lemma GivenGrows(s: System, a: Action, key: Key, message: Bytes)
    requires s.Valid() && Given(s, key, message)
    ensures Given(Next(s, a), key, message)
  {
    if (key, message) !in s.outside {
      var i: nat, k: nat :| i < |s.keys| && k < |ClientOf(s, i).log|
        && s.keys[i] == key && ClientOf(s, i).log[k].message == message;
      if a.ClientTurn? && a.client == i {
        LogGrows(key, s.turns[i], a.turn);
      }
      hide ClientRuns.Run;
      assert ClientOf(s, i).log <= ClientOf(Next(s, a), i).log;
      assert ClientOf(Next(s, a), i).log[k] == ClientOf(s, i).log[k];
    }
  }

  lemma {:induction false} AlwaysGiven(keys: seq<Key>, actions: seq<Action>)
    ensures OutsideIsUserSigned(Play(keys, actions)) && VerifiedWasGiven(Play(keys, actions))
  {
    if actions != [] {
      var s, a := Play(keys, actions[..|actions| - 1]), actions[|actions| - 1];
      AlwaysGiven(keys, actions[..|actions| - 1]);
      GivenStep(s, a);
    }
  }

  lemma GivenStep(s: System, a: Action)
    requires s.Valid() && OutsideIsUserSigned(s) && VerifiedWasGiven(s)
    ensures OutsideIsUserSigned(Next(s, a)) && VerifiedWasGiven(Next(s, a))
  {
    var s' := Next(s, a);
    hide Given;
    forall i, key: Key, message: Bytes, signature: Signature
      | 0 <= i < |s'.served| && s'.served[i].Attach? && s'.served[i].verify(key, message, signature)
      ensures Given(s', key, message)
    {
      assert Given(s, key, message);
      GivenGrows(s, a, key, message);
    }
  }

  // ---- The match ----

  ghost function WorldOf(s: System, entropy: Entropy): World { RegistrySpec.Run(s.served, entropy) }

  /** Handshake `r` of client `i`, for the opened session's DID, signed exactly the candidate's nonce with its key. */
  ghost predicate Matches(s: System, e: Event, i: nat, r: nat)
    requires s.Valid() && e.Attached?
  {
    && i < |s.keys| && s.keys[i] == e.candidate.advertisedKey
    && var c := ClientOf(s, i);
    && r < |c.runs| && c.runs[r].did == e.profile.did
    && exists k: nat :: k < |c.log| && ChallengeEntry(c, k, e.candidate.nonce, r)
  }

  /** Entry `k` of the signing log is the challenge of handshake `r` over the nonce. */
  predicate ChallengeEntry(c: Client, k: nat, nonce: Nonce, r: nat)
    requires k < |c.log| && r < |c.runs|
  {
    var s := c.log[k];
    s.purpose.ForAttach? && s.purpose.run == r && s.purpose.profile == c.runs[r] && s.purpose.nonce == nonce
      && s.message == ChallengeMessage(nonce, c.runs[r].did)
  }

  /** What Sanctioned says of a logged message that is a challenge. */
  lemma LoggedChallenge(key: Key, turns: seq<Turn>, k: nat, nonce: Nonce, did: Bytes) returns (r: nat)
    requires k < |ClientRuns.Run(key, turns).log|
             && ClientRuns.Run(key, turns).log[k].message == ChallengeMessage(nonce, did)
    ensures var c := ClientRuns.Run(key, turns); r < |c.runs| && c.runs[r].did == did && ChallengeEntry(c, k, nonce, r)
  {
    var c := ClientRuns.Run(key, turns);
    var s := c.log[k];
    EverySigningSanctioned(key, turns);
    RunsGrow(key, turns, if 1 <= s.at <= |turns| then s.at - 1 else 0);
    hide ClientRuns.Run;
    assert Sanctioned(key, turns, s);
    r := 0;
    match s.purpose
    case ForCallback(request) =>
      var p := turns[s.at - 1].moment.recv.frame.params.value;
      ChallengeNeverCollides(nonce, did, nonce, did, p.payloadType, request.payload, []);
      assert false;
    case ForAttach(run, profile, _, signed) =>
      r := run;
      ChallengeNeverCollides(nonce, did, signed, profile.did, [], [], []);
  }

  /** Handshakes once started stay on record. */
  lemma {:induction false} RunsGrow(key: Key, turns: seq<Turn>, n: nat)
    requires n <= |turns|
    ensures ClientRuns.Run(key, turns[..n]).runs <= ClientRuns.Run(key, turns).runs
  {
    if n == |turns| {
      assert turns[..n] == turns;
    } else {
      var m := |turns| - 1;
      RunsGrow(key, turns[..m], n);
      assert turns[..m][..n] == turns[..n];
      StepMoves(ClientRuns.Run(key, turns[..m]), turns[m]);
      hide ClientSpec.Step, CallbackSigned, ChallengeSigned, Carries, Requests, Answers;
    }
  }

  /**
   Agreement: each session ever opened for a key some client holds is matched by a handshake that this
   client ran for the session's DID, in which it signed exactly the nonce of the candidate consumed. No
   callback signature and no user-requested signature can stand in for it.
   */
  lemma SessionIsMatched(s: System, entropy: Entropy, a: nat) returns (i: nat, r: nat)
    requires Reachable(s)
    requires var h := WorldOf(s, entropy).history; a < |h| && h[a].Attached? && h[a].candidate.advertisedKey in s.keys
    ensures s.Valid() && Matches(s, WorldOf(s, entropy).history[a], i, r)
  {
    var actions :| s == Play(s.keys, actions);
    var b := AttachedProvenance(s.served, entropy, a);
    var e, op := WorldOf(s, entropy).history[a], s.served[a];
    AlwaysGiven(s.keys, actions);
    hide RegistrySpec.Run;
    var signature := DecodeSignature(op.attach.signatureB64).value;
    var message := ChallengeMessage(e.candidate.nonce, e.profile.did);
    assert op.verify(e.candidate.advertisedKey, message, signature);
    assert Given(s, e.candidate.advertisedKey, message);
    i, r := GivenChallengeIsLogged(s, e);
  }

  lemma GivenChallengeIsLogged(s: System, e: Event) returns (i: nat, r: nat)
    requires s.Valid() && e.Attached? && OutsideIsUserSigned(s) && e.candidate.advertisedKey in s.keys
    requires Given(s, e.candidate.advertisedKey, ChallengeMessage(e.candidate.nonce, e.profile.did))
    ensures Matches(s, e, i, r)
  {
    var key, nonce, did := e.candidate.advertisedKey, e.candidate.nonce, e.profile.did;
    var message := ChallengeMessage(nonce, did);
    i, r := 0, 0;
    if (key, message) in s.outside {
      var text :| message == UserSignMessage(text);
      ChallengeNeverCollides(nonce, did, nonce, did, [], [], text);
      assert false;
    } else {
      var j: nat, k: nat :| j < |s.keys| && k < |ClientOf(s, j).log|
        && s.keys[j] == key && ClientOf(s, j).log[k].message == message;
      i := j;
      r := LoggedChallenge(s.keys[j], s.turns[j], k, nonce, did);
      hide ClientRuns.Run, ChallengeEntry;
    }
  }

  // ---- No handshake matches two sessions ----

  /** Two begins mint different nonces. */
  lemma NoncesDiffer(ops: seq<Op>, entropy: Entropy, i: nat, j: nat)
    requires i < j < |RegistrySpec.Run(ops, entropy).history|
             && Fresh(entropy, RegistrySpec.Run(ops, entropy).reg.drawn)
    requires var h := RegistrySpec.Run(ops, entropy).history; h[i].Began? && h[j].Began?
    ensures var h := RegistrySpec.Run(ops, entropy).history; h[i].candidate.nonce != h[j].candidate.nonce
  {
    RunLength(START, ops, entropy);
    HistoryAt(ops, entropy, i);
    HistoryAt(ops, entropy, j);
    var wi, wj := RegistrySpec.Run(ops[..i], entropy), RegistrySpec.Run(ops[..j], entropy);
    DrawnBetween(ops, entropy, i, j);
    DrawnBetween(ops, entropy, j, |ops|);
    assert ops[..|ops|] == ops;
    hide RegistrySpec.Run;
    BeganDraws(wi.reg, ops[i], entropy);
    BeganDraws(wj.reg, ops[j], entropy);
    assert wi.reg.drawn < wj.reg.drawn < RegistrySpec.Run(ops, entropy).reg.drawn;
  }

  lemma BeganDraws(s: Registry, op: Op, entropy: Entropy)
    requires EventOf(s, op, entropy).Began?
    ensures EventOf(s, op, entropy).candidate.nonce == entropy(s.drawn)
            && NextRegistry(s, op, entropy).drawn == s.drawn + 2
  {}

  /** Draws never go back, and request `i` is behind every later state. */
  lemma DrawnBetween(ops: seq<Op>, entropy: Entropy, i: nat, j: nat)
    requires i < j <= |ops|
    ensures NextRegistry(RegistrySpec.Run(ops[..i], entropy).reg, ops[i], entropy).drawn <=
            RegistrySpec.Run(ops[..j], entropy).reg.drawn
  {
    RegistrySpec.RunSnoc(START, ops[..i], ops[i], entropy);
    assert ops[..i] + [ops[i]] == ops[..i + 1];
    assert ops[..i + 1] + ops[i + 1..j] == ops[..j];
    RunConcat(START, ops[..i + 1], ops[i + 1..j], entropy);
    RunLength(RegistrySpec.Run(ops[..i + 1], entropy), ops[i + 1..j], entropy);
  }

  /** When draws do not repeat, the nonces of two opened sessions differ. */
  lemma SessionNoncesDiffer(ops: seq<Op>, entropy: Entropy, a: nat, a': nat)
    requires a < a' < |RegistrySpec.Run(ops, entropy).history|
             && Fresh(entropy, RegistrySpec.Run(ops, entropy).reg.drawn)
    requires var h := RegistrySpec.Run(ops, entropy).history; h[a].Attached? && h[a'].Attached?
    ensures var h := RegistrySpec.Run(ops, entropy).history; h[a].candidate.nonce != h[a'].candidate.nonce
  {
    var h := RegistrySpec.Run(ops, entropy).history;
    var b := AttachedProvenance(ops, entropy, a);
    var b' := AttachedProvenance(ops, entropy, a');
    assert ops + [] == ops;
    SingleUse(ops, [], entropy, a, a');
    hide RegistrySpec.Run;
    assert h[a].token != h[a'].token;
    if b < b' {
      NoncesDiffer(ops, entropy, b, b');
    } else {
      assert b != b';
      NoncesDiffer(ops, entropy, b', b);
    }
  }

  /**
   Injective agreement: when draws do not repeat, one handshake of one client matches at most one of the
   sessions ever opened, so an engine is never led to open two sessions on one signature.
   */
  lemma MatchIsInjective(s: System, entropy: Entropy, a: nat, a': nat, i: nat, r: nat)
    requires s.Valid() && Fresh(entropy, WorldOf(s, entropy).reg.drawn)
    requires var h := WorldOf(s, entropy).history; a < |h| && a' < |h| && h[a].Attached? && h[a'].Attached?
    requires var h := WorldOf(s, entropy).history; Matches(s, h[a], i, r) && Matches(s, h[a'], i, r)
    ensures a == a'
  {
    var h, c := WorldOf(s, entropy).history, ClientOf(s, i);
    AlwaysOneChallengeEach(s.keys[i], s.turns[i]);
    var k: nat :| k < |c.log| && ChallengeEntry(c, k, h[a].candidate.nonce, r);
    var k': nat :| k' < |c.log| && ChallengeEntry(c, k', h[a'].candidate.nonce, r);
    hide RegistrySpec.Run, ClientRuns.Run;
    assert k == k';
    if a < a' {
      SessionNoncesDiffer(s.served, entropy, a, a');
    } else if a' < a {
      SessionNoncesDiffer(s.served, entropy, a', a);
    }
  }

  /** Request `a` opened a session for a key some client holds. */
  ghost predicate OpensForClient(s: System, entropy: Entropy, a: nat)
  {
    var h := WorldOf(s, entropy).history;
    a < |h| && h[a].Attached? && h[a].candidate.advertisedKey in s.keys
  }

  ghost predicate Pairs(s: System, entropy: Entropy, pairing: map<nat, (nat, nat)>)
    requires s.Valid()
  {
    forall a <- pairing :: OpensForClient(s, entropy, a)
      && Matches(s, WorldOf(s, entropy).history[a], pairing[a].0, pairing[a].1)
  }

  /** Matches the sessions opened by the first `n` requests. */
  lemma {:induction false} PairUp(s: System, entropy: Entropy, n: nat) returns (pairing: map<nat, (nat, nat)>)
    requires Reachable(s)
    ensures s.Valid() && Pairs(s, entropy, pairing)
    ensures forall a: nat :: a in pairing <==> a < n && OpensForClient(s, entropy, a)
  {
    hide RegistrySpec.Run, Matches, Play;
    if n == 0 {
      pairing := map[];
    } else {
      pairing := PairUp(s, entropy, n - 1);
      if OpensForClient(s, entropy, n - 1) {
        var i, r := SessionIsMatched(s, entropy, n - 1);
        pairing := pairing[n - 1 := (i, r)];
      }
    }
  }

  /**
   The whole statement: when draws do not repeat there is an injection from the sessions ever opened for
   the clients' keys to the clients' handshakes, each session going to a handshake that signed its nonce.
   */
  lemma SessionsInjectIntoHandshakes(s: System, entropy: Entropy) returns (pairing: map<nat, (nat, nat)>)
    requires Reachable(s) && Fresh(entropy, WorldOf(s, entropy).reg.drawn)
    ensures s.Valid() && Pairs(s, entropy, pairing)
    ensures forall a: nat :: a in pairing <==> OpensForClient(s, entropy, a)
    ensures forall a, a' :: a in pairing && a' in pairing && pairing[a] == pairing[a'] ==> a == a'
  {
    pairing := PairUp(s, entropy, |WorldOf(s, entropy).history|);
    hide RegistrySpec.Run, Matches, Play;
    forall a, a' | a in pairing && a' in pairing && pairing[a] == pairing[a']
      ensures a == a'
    {
      MatchIsInjective(s, entropy, a, a', pairing[a].0, pairing[a].1);
    }
  }
}
