/**
 What the engine answers to each request and what it holds afterwards, case by case, from the registry it
 finds and what the request and the outside world bring.
 */
module EngineAnswers {
  import opened Prelude
  import opened Wire
  import opened Domain
  import opened Fifo
  import opened RegistrySpec
  import Hex
  import Base64

  // ---- Begin ----

  /** A begin is refused exactly when its key text is not the hexadecimal of 48 bytes, and then changes nothing. */
  lemma BeginRefusedExactly(s: Registry, params: BeginParams, entropy: Entropy)
    ensures var (s', r) := BeginStep(s, params, entropy);
            var key := Hex.Decode(params.signingPubkeyHex);
            && (r.Err? <==> key.None? || |key.value| != SIGNING_KEY_LEN)
            && (r.Err? ==> r == Err(Malformed("signing_pubkey_hex")) && s' == s)
  {
    hide Admit, Hex.Decode, Hex.Encode, Base64.Encode;
  }

  /**
   A begin that is not refused makes two draws. The first is the nonce it returns and stores; the second names
   the candidate. The oldest entries go, as few as bring the map under the cap, before the new one comes in.
   */
  lemma BeginAdmitsExactly(s: Registry, params: BeginParams, key: Key, entropy: Entropy) returns (k: nat)
    requires Hex.Decode(params.signingPubkeyHex) == Some(key)
    ensures k <= |s.order|
    ensures |WithoutOldest(s.pending, s.order, k)| < MAX_PENDING_CANDIDATES || k == |s.order|
    ensures forall j | 0 <= j < k :: |WithoutOldest(s.pending, s.order, j)| >= MAX_PENDING_CANDIDATES
    ensures var (s', r) := BeginStep(s, params, entropy);
            var nonce, token := entropy(s.drawn), Hex.Encode(entropy(s.drawn + 1));
            && r == Ok(BeginResult(Base64.Encode(nonce), token))
            && s' == Registry(WithoutOldest(s.pending, s.order, k)[token := Candidate(nonce, key, params.profileDid)],
                              s.order[k..] + [token], s.sessions, s.drawn + 2)
  {
    k := EvictsShortestPrefix(s.pending, s.order, MAX_PENDING_CANDIDATES);
    hide Evict, WithoutOldest, Hex.Decode, Hex.Encode, Base64.Encode;
  }

  // ---- Attach ----

  /** The request names a pending candidate whose DID it carries, and the DID resolves to the key advertised. */
  predicate Genuine(s: Registry, params: AttachParams, published: Option<Key>)
  {
    && params.sessionCandidate in s.pending
    && var c := s.pending[params.sessionCandidate];
    c.profileDid == params.profile.did && published == Some(c.advertisedKey)
  }

  /** The answers to an attach before its signature is looked at. */
  lemma AttachIdentityErrors(s: Registry, params: AttachParams, published: Option<Key>, verify: Verifier,
                             entropy: Entropy)
    ensures var r, known := AttachStep(s, params, published, verify, entropy).1, params.sessionCandidate in s.pending;
            && (r == Err(UnknownCandidate) <==> !known)
            && (r == Err(UnknownDid) <==>
                  known && s.pending[params.sessionCandidate].profileDid == params.profile.did && published.None?)
            && (r == Err(KeyMismatch) <==>
                  && known
                  && var c := s.pending[params.sessionCandidate];
                  c.profileDid != params.profile.did || (published.Some? && published.value != c.advertisedKey))
  {
    hide Hex.Encode, Base64.Decode, ChallengeMessage;
  }

  /** The answers to an attach that depend on its signature, which is looked at last. */
  lemma AttachSignatureErrors(s: Registry, params: AttachParams, published: Option<Key>, verify: Verifier,
                              entropy: Entropy)
    ensures var r, b := AttachStep(s, params, published, verify, entropy).1, Base64.Decode(params.signatureB64);
            var genuine := Genuine(s, params, published);
            && (r == Err(Malformed("signature_b64 is not base64")) <==> genuine && b.None?)
            && (r == Err(Malformed("signature is not 96 bytes")) <==> genuine && b.Some? && |b.value| != SIGNATURE_LEN)
            && (r == Err(BadSignature) <==>
                  && genuine && b.Some? && |b.value| == SIGNATURE_LEN
                  && var c := s.pending[params.sessionCandidate];
                  !verify(c.advertisedKey, ChallengeMessage(c.nonce, params.profile.did), b.value))
  {
    hide Hex.Encode, Base64.Decode, ChallengeMessage;
    assert "signature_b64 is not base64"[9] != "signature is not 96 bytes"[9];
  }

  /** There are no other answers but a session, opened exactly when all the checks pass, under the next draw's name. */
  lemma AttachOpensExactly(s: Registry, params: AttachParams, published: Option<Key>, verify: Verifier,
                           entropy: Entropy)
    ensures var (s', r) := AttachStep(s, params, published, verify, entropy);
            var b, id := Base64.Decode(params.signatureB64), Hex.Encode(entropy(s.drawn));
            && (r.Ok? <==>
                  && Genuine(s, params, published) && b.Some? && |b.value| == SIGNATURE_LEN
                  && var c := s.pending[params.sessionCandidate];
                  verify(c.advertisedKey, ChallengeMessage(c.nonce, params.profile.did), b.value))
            && (r.Ok? ==>
                  && r == Ok(AttachResult(id, ENGINE_CAPABILITIES))
                  && s'.sessions == s.sessions[id := params.profile] && s'.drawn == s.drawn + 1)
            && (r.Err? ==>
                  r.error in {UnknownCandidate, UnknownDid, KeyMismatch, BadSignature,
                              Malformed("signature_b64 is not base64"), Malformed("signature is not 96 bytes")})
  {
    hide Hex.Encode, Base64.Decode, ChallengeMessage;
  }

  /** The event on record says what was answered, about the candidate that was pending. */
  lemma AttachIsRecorded(s: Registry, params: AttachParams, published: Option<Key>, verify: Verifier, entropy: Entropy)
    ensures var r, e := AttachStep(s, params, published, verify, entropy).1,
            EventOf(s, Attach(params, published, verify), entropy);
            if params.sessionCandidate !in s.pending then e == AttachUnknown && r == Err(UnknownCandidate)
            else
              var c := s.pending[params.sessionCandidate];
              match r
              case Ok(a) => e == Attached(params.sessionCandidate, c, a.sessionId, params.profile)
              case Err(error) => e == AttachRefused(params.sessionCandidate, c, error)
  {
    hide Hex.Encode, Check;
  }

  // ---- Detach ----

  /** A detach answers whether there was such a session; afterwards there is none, and all others are as they were. */
  lemma DetachAnswersExactly(s: Registry, sessionId: Bytes)
    ensures var (s', removed) := DetachStep(s, sessionId);
            && (removed <==> sessionId in s.sessions) && sessionId !in s'.sessions
            && (forall id | id != sessionId ::
                  && (id in s'.sessions <==> id in s.sessions)
                  && (id in s.sessions ==> s'.sessions[id] == s.sessions[id]))
            && s'.pending == s.pending && s'.order == s.order && s'.drawn == s.drawn
  {}

  const CAPABILITY_NAMES := ["content.serve", "content.fetch", "sync", "subscribe"]

  lemma CapabilitiesSpelled()
    ensures |ENGINE_CAPABILITIES| == |CAPABILITY_NAMES|
    ensures forall i | 0 <= i < |CAPABILITY_NAMES| :: Spells(ENGINE_CAPABILITIES[i], CAPABILITY_NAMES[i])
  {
    assert Spells(ENGINE_CAPABILITIES[0], "content.serve") && Spells(ENGINE_CAPABILITIES[1], "content.fetch");
    assert Spells(ENGINE_CAPABILITIES[2], "sync") && Spells(ENGINE_CAPABILITIES[3], "subscribe");
  }
}
