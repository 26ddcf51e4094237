/**
 The engine half: the object that mints challenges, verifies attach signatures and tracks sessions,
 proved to do what `RegistrySpec` says.
 */
module Engine {
  import opened Prelude
  import opened Wire
  import opened Domain
  import opened Fifo
  import opened RegistrySpec
  import RegistryRuns
  import Hex
  import Base64

  class EngineSessionRegistry {
    const entropy: Entropy
    var drawn: nat
    var pending: map<Bytes, Candidate>
    var candidateOrder: seq<Bytes>
    var sessions: map<Bytes, ProfileAttachment>
    ghost var served: seq<Op>
    ghost var history: seq<Event>

    ghost function View(): Registry
      reads this
    {
      Registry(pending, candidateOrder, sessions, drawn)
    }

    /** The object's state is the one the specification reaches on the requests it has served. */
    ghost predicate Valid()
      reads this
    {
      World(View(), history) == Run(served, entropy)
    }

    constructor (entropy: Entropy)
      ensures Valid() && View() == EMPTY && served == [] && this.entropy == entropy
    {
      this.entropy := entropy;
      drawn, pending, candidateOrder, sessions := 0, map[], [], map[];
      served, history := [], [];
    }

    /** Records that a request is about to be served; serving it must reach the registry named here. */
    ghost method Record(op: Op)
      requires Valid()
      modifies this`served, this`history
      ensures served == old(served) + [op]
      ensures Run(served, entropy) == World(NextRegistry(View(), op, entropy), history)
    {
      RunSnoc(START, served, op, entropy);
      served, history := served + [op], history + [EventOf(View(), op, entropy)];
    }

    method FillNonce() returns (nonce: Nonce)
      modifies this`drawn
      ensures nonce == entropy(old(drawn)) && drawn == old(drawn) + 1
    {
      nonce := entropy(drawn);
      drawn := drawn + 1;
    }

    method Begin(params: BeginParams) returns (r: Result<BeginResult, AttachError>)
      requires Valid()
      modifies this
      ensures Valid() && served == old(served) + [Op.Begin(params)]
      ensures (View(), r) == BeginStep(old(View()), params, entropy)
      ensures |pending| <= MAX_PENDING_CANDIDATES
    {
      RegistryRuns.BeginBounded(served, params, entropy);
      hide Run, Evict, Hex.Encode, Base64.Encode, FromHex;
      Record(Op.Begin(params));
      var key := FromHex(params.signingPubkeyHex);
      if key == None {
        return Err(Malformed("signing_pubkey_hex"));
      }
      var nonce := FillNonce();
      var draw := FillNonce();
      var candidate := Hex.Encode(draw);
      EvictIfFull();
      candidateOrder := candidateOrder + [candidate];
      pending := pending[candidate := Candidate(nonce, key.value, params.profileDid)];
      r := Ok(BeginResult(Base64.Encode(nonce), candidate));
    }

    /** `resolver` and `verify` answer as the outside world does during this call. */
    method Attach(params: AttachParams, resolver: Bytes -> Option<Key>, verify: Verifier)
      returns (r: Result<AttachResult, AttachError>)
      requires Valid()
      modifies this
      ensures Valid() && served == old(served) + [Op.Attach(params, resolver(params.profile.did), verify)]
      ensures (View(), r) == AttachStep(old(View()), params, resolver(params.profile.did), verify, entropy)
    {
      Record(Op.Attach(params, resolver(params.profile.did), verify));
      var taken := TakeCandidate(params.sessionCandidate);
      if taken == None {
        return Err(UnknownCandidate);
      }
      var c := taken.value;
      if c.profileDid != params.profile.did {
        return Err(KeyMismatch);
      }
      var published := resolver(params.profile.did);
      if published == None {
        return Err(UnknownDid);
      }
      if published.value != c.advertisedKey {
        return Err(KeyMismatch);
      }
      var decoded := DecodeSignature(params.signatureB64);
      if decoded.Err? {
        return Err(decoded.error);
      }
      var message := ChallengeMessage(c.nonce, params.profile.did);
      if !verify(c.advertisedKey, message, decoded.value) {
        return Err(BadSignature);
      }
      var draw := FillNonce();
      var sessionId := Hex.Encode(draw);
      sessions := sessions[sessionId := params.profile];
      r := Ok(AttachResult(sessionId, ENGINE_CAPABILITIES));
    }

    method Detach(sessionId: Bytes) returns (removed: bool)
      requires Valid()
      modifies this
      ensures Valid() && served == old(served) + [Op.Detach(sessionId)]
      ensures (View(), removed) == DetachStep(old(View()), sessionId)
    {
      Record(Op.Detach(sessionId));
      removed := sessionId in sessions;
      sessions := sessions - {sessionId};
    }

    /** The search `take_candidate` makes in the queue. */
    method FindInOrder(token: Bytes) returns (position: Option<nat>)
      ensures position.None? ==> token !in candidateOrder
      ensures position.Some? ==> position.value < |candidateOrder| && position.value == Position(candidateOrder, token)
      ensures position.Some? ==> candidateOrder[position.value] == token && token !in candidateOrder[..position.value]
    {
      for i := 0 to |candidateOrder|
        invariant token !in candidateOrder[..i]
      {
        if candidateOrder[i] == token {
          return Some(i);
        }
      }
      position := None;
    }

    method TakeCandidate(token: Bytes) returns (taken: Option<Candidate>)
      modifies this`pending, this`candidateOrder
      ensures (View(), taken) == TakeStep(old(View()), token)
    {
      if token !in pending {
        return None;
      }
      taken := Some(pending[token]);
      pending := pending - {token};
      var position := FindInOrder(token);
      if position.Some? {
        candidateOrder := RemoveAt(candidateOrder, position.value);
      }
    }

    method EvictIfFull()
      modifies this`pending, this`candidateOrder
      ensures (pending, candidateOrder) == Evict(old(pending), old(candidateOrder), MAX_PENDING_CANDIDATES)
      ensures Covered(old(pending), old(candidateOrder)) ==> |pending| < MAX_PENDING_CANDIDATES
    {
      if Covered(pending, candidateOrder) {
        EvictCovered(pending, candidateOrder, MAX_PENDING_CANDIDATES);
      }
      while |pending| >= MAX_PENDING_CANDIDATES
        invariant Evict(pending, candidateOrder, MAX_PENDING_CANDIDATES) ==
                  Evict(old(pending), old(candidateOrder), MAX_PENDING_CANDIDATES)
        decreases |candidateOrder|
      {
        if candidateOrder == [] {
          break;
        }
        var oldest := candidateOrder[0];
        candidateOrder := candidateOrder[1..];
        pending := pending - {oldest};
      }
    }
  }
}
