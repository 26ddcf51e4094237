/**
 What the engine's registry of outstanding handshakes and open sessions does, request by request, and
 the record of a whole run.
 */
module RegistrySpec {
  import opened Prelude
  import opened Wire
  import opened Domain
  import Hex
  import Base64
  import opened Fifo

  const MAX_PENDING_CANDIDATES: nat := 256

  datatype AttachError = UnknownCandidate | UnknownDid | KeyMismatch | BadSignature | Malformed(what: string)

  datatype Candidate = Candidate(nonce: Nonce, advertisedKey: Key, profileDid: Bytes)

  /** The engine's source of draws: draw `i` is `entropy(i)`. Nothing says that draws differ. */
  type Entropy = nat -> Nonce

  /** Whether a signature verifies for a key and a message. */
  type Verifier = (Key, Bytes, Signature) -> bool

  datatype Registry = Registry(
    pending: map<Bytes, Candidate>,
    order: seq<Bytes>,
    sessions: map<Bytes, ProfileAttachment>,
    drawn: nat)

  /** The token minted by the begin that finds `drawn` draws made. */
  function TokenAt(entropy: Entropy, drawn: nat): Bytes { Hex.Encode(entropy(drawn + 1)) }

  /** Evicts if full, then records the handshake for the draws just made. */
  function Admit(s: Registry, key: Key, did: Bytes, entropy: Entropy): Registry
  {
    var token := TokenAt(entropy, s.drawn);
    var (pending, order) := Evict(s.pending, s.order, MAX_PENDING_CANDIDATES);
    Registry(pending[token := Candidate(entropy(s.drawn), key, did)], order + [token], s.sessions, s.drawn + 2)
  }

  function BeginStep(s: Registry, params: BeginParams, entropy: Entropy): (Registry, Result<BeginResult, AttachError>)
  {
    match FromHex(params.signingPubkeyHex)
    case None => (s, Err(Malformed("signing_pubkey_hex")))
    case Some(key) =>
      (Admit(s, key, params.profileDid, entropy),
       Ok(BeginResult(Base64.Encode(entropy(s.drawn)), TokenAt(entropy, s.drawn))))
  }

  function TakeStep(s: Registry, token: Bytes): (Registry, Option<Candidate>)
  {
    if token !in s.pending then (s, None)
    else (s.(pending := s.pending - {token}, order := RemoveFirst(s.order, token)), Some(s.pending[token]))
  }

  function DecodeSignature(text: Bytes): Result<Signature, AttachError>
  {
    match Base64.Decode(text)
    case None => Err(Malformed("signature_b64 is not base64"))
    case Some(b) => if |b| == SIGNATURE_LEN then Ok(b) else Err(Malformed("signature is not 96 bytes"))
  }

  /** The four checks on a candidate already consumed; `published` is the resolver's answer for the DID. */
  function Check(c: Candidate, params: AttachParams, published: Option<Key>, verify: Verifier): Option<AttachError>
  {
    if c.profileDid != params.profile.did then Some(KeyMismatch)
    else if published == None then Some(UnknownDid)
    else if published.value != c.advertisedKey then Some(KeyMismatch)
    else
      match DecodeSignature(params.signatureB64)
      case Err(e) => Some(e)
      case Ok(signature) =>
        if verify(c.advertisedKey, ChallengeMessage(c.nonce, params.profile.did), signature) then None
        else Some(BadSignature)
  }

  /** "content.serve", "content.fetch", "sync" and "subscribe" in ASCII. */
  const ENGINE_CAPABILITIES: seq<Bytes> := [
    [99, 111, 110, 116, 101, 110, 116, 46, 115, 101, 114, 118, 101],
    [99, 111, 110, 116, 101, 110, 116, 46, 102, 101, 116, 99, 104],
    [115, 121, 110, 99],
    [115, 117, 98, 115, 99, 114, 105, 98, 101]]

  function AttachStep(s: Registry, params: AttachParams, published: Option<Key>, verify: Verifier, entropy: Entropy)
    : (Registry, Result<AttachResult, AttachError>)
  {
    match TakeStep(s, params.sessionCandidate)
    case (_, None) => (s, Err(UnknownCandidate))
    case (s1, Some(c)) =>
      match Check(c, params, published, verify)
      case Some(e) => (s1, Err(e))
      case None =>
        (Open(s1, params.profile, entropy), Ok(AttachResult(Hex.Encode(entropy(s1.drawn)), ENGINE_CAPABILITIES)))
  }

  function Open(s: Registry, profile: ProfileAttachment, entropy: Entropy): Registry
  {
    s.(sessions := s.sessions[Hex.Encode(entropy(s.drawn)) := profile], drawn := s.drawn + 1)
  }

  function DetachStep(s: Registry, sessionId: Bytes): (Registry, bool)
  {
    (s.(sessions := s.sessions - {sessionId}), sessionId in s.sessions)
  }

  /** One request as the engine serves it, with the answers of the outside world. */
  datatype Op =
    | Begin(begin: BeginParams)
    | Attach(attach: AttachParams, published: Option<Key>, verify: Verifier)
    | Detach(sessionId: Bytes)

  /** What a request did. `evicted` are the tokens the eviction loop dropped from `pending`. */
  datatype Event =
    | BeginRefused
    | Began(token: Bytes, candidate: Candidate, evicted: set<Bytes>)
    | AttachUnknown
    | AttachRefused(token: Bytes, candidate: Candidate, error: AttachError)
    | Attached(token: Bytes, candidate: Candidate, openedId: Bytes, profile: ProfileAttachment)
    | Detached(closedId: Bytes, removed: bool)

  /** The registry together with what has happened to it, one event for each request. */
  datatype World = World(reg: Registry, history: seq<Event>)

  const EMPTY: Registry := Registry(map[], [], map[], 0)
  const START: World := World(EMPTY, [])

  function NextRegistry(s: Registry, op: Op, entropy: Entropy): Registry
  {
    match op
    case Begin(params) => BeginStep(s, params, entropy).0
    case Attach(params, published, verify) => AttachStep(s, params, published, verify, entropy).0
    case Detach(id) => DetachStep(s, id).0
  }

  function EventOf(s: Registry, op: Op, entropy: Entropy): Event
  {
    match op
    case Begin(params) =>
      (match FromHex(params.signingPubkeyHex)
       case None => BeginRefused
       case Some(key) =>
         Began(TokenAt(entropy, s.drawn), Candidate(entropy(s.drawn), key, params.profileDid),
               s.pending.Keys - Evict(s.pending, s.order, MAX_PENDING_CANDIDATES).0.Keys))
    case Attach(params, published, verify) =>
      var token := params.sessionCandidate;
      if token !in s.pending then AttachUnknown
      else
        (match Check(s.pending[token], params, published, verify)
         case Some(e) => AttachRefused(token, s.pending[token], e)
         case None => Attached(token, s.pending[token], Hex.Encode(entropy(s.drawn)), params.profile))
    case Detach(id) => Detached(id, id in s.sessions)
  }

  function Step(w: World, op: Op, entropy: Entropy): World
  {
    World(NextRegistry(w.reg, op, entropy), w.history + [EventOf(w.reg, op, entropy)])
  }

  function RunFrom(w: World, ops: seq<Op>, entropy: Entropy): World
  {
    if ops == [] then w else Step(RunFrom(w, ops[..|ops| - 1], entropy), ops[|ops| - 1], entropy)
  }

  function Run(ops: seq<Op>, entropy: Entropy): World { RunFrom(START, ops, entropy) }

  lemma RunSnoc(w: World, ops: seq<Op>, op: Op, entropy: Entropy)
    ensures RunFrom(w, ops + [op], entropy) == Step(RunFrom(w, ops, entropy), op, entropy)
  {
    assert (ops + [op])[..|ops|] == ops;
  }
}
