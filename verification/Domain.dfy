/**
 The signed-message contract: the three domain-separated builders, and one parser for all three layouts
 that proves them injective and pairwise disjoint.
 */
module Domain {
  import opened Prelude
  import opened Seqs
  import Hex

  /** "DIGNET-SESSION-v1", "DIGNET-SIGN-v1" and "DIGNET-USER-SIGN-v1" in ASCII. */
  const SESSION_CHALLENGE_DOMAIN: Bytes :=
    [0x44, 0x49, 0x47, 0x4e, 0x45, 0x54, 0x2d, 0x53, 0x45, 0x53, 0x53, 0x49, 0x4f, 0x4e, 0x2d, 0x76, 0x31]
  const SIGN_CALLBACK_DOMAIN: Bytes :=
    [0x44, 0x49, 0x47, 0x4e, 0x45, 0x54, 0x2d, 0x53, 0x49, 0x47, 0x4e, 0x2d, 0x76, 0x31]
  const USER_SIGN_DOMAIN: Bytes :=
    [0x44, 0x49, 0x47, 0x4e, 0x45, 0x54, 0x2d, 0x55, 0x53, 0x45, 0x52, 0x2d, 0x53, 0x49, 0x47, 0x4e, 0x2d, 0x76, 0x31]

  const U16_MAX: nat := 0xFFFF

  function ToHex(key: Key): Bytes { Hex.Encode(key) }

  function FromHex(text: Bytes): Option<Key>
  {
    match Hex.Decode(text)
    case Some(b) => if |b| == SIGNING_KEY_LEN then Some(b) else None
    case None => None
  }

  /** Domain, nonce, DID; nothing here fixes the nonce's length. */
  function ChallengeMessage(nonce: Bytes, profileDid: Bytes): Bytes
  {
    var message := SESSION_CHALLENGE_DOMAIN;
    var message := message + nonce;
    message + profileDid
  }

  /** Domain, big-endian 16-bit length of the type, type, payload; no message for a longer type. */
  function SignCallbackMessage(payloadType: Bytes, payload: Bytes): Option<Bytes>
  {
    if |payloadType| > U16_MAX then None
    else
      var message := SIGN_CALLBACK_DOMAIN;
      var message := message + [(|payloadType| / 256) as byte, (|payloadType| % 256) as byte];
      var message := message + payloadType;
      Some(message + payload)
  }

  function UserSignMessage(message: Bytes): Bytes
  {
    USER_SIGN_DOMAIN + message
  }

  /** What a signed byte string says, as a verifier reads it. */
  datatype Signed =
    | Challenge(nonce: Nonce, profileDid: Bytes)
    | Callback(payloadType: Bytes, payload: Bytes)
    | UserSign(message: Bytes)
  {
    predicate Printable() { Callback? ==> |payloadType| <= U16_MAX }
  }

  function Print(m: Signed): Bytes
    requires m.Printable()
  {
    match m
    case Challenge(nonce, did) => ChallengeMessage(nonce, did)
    case Callback(payloadType, payload) => SignCallbackMessage(payloadType, payload).value
    case UserSign(message) => UserSignMessage(message)
  }

  predicate StartsWith(text: Bytes, tag: Bytes)
  {
    |tag| <= |text| && text[..|tag|] == tag
  }

  function Parse(text: Bytes): Option<Signed>
  {
    if StartsWith(text, SESSION_CHALLENGE_DOMAIN) then
      var body := text[|SESSION_CHALLENGE_DOMAIN|..];
      if |body| < NONCE_LEN then None else Some(Challenge(body[..NONCE_LEN], body[NONCE_LEN..]))
    else if StartsWith(text, SIGN_CALLBACK_DOMAIN) then
      var body := text[|SIGN_CALLBACK_DOMAIN|..];
      if |body| < 2 then None
      else
        var n := 256 * body[0] as nat + body[1] as nat;
        if |body| < 2 + n then None else Some(Callback(body[2..2 + n], body[2 + n..]))
    else if StartsWith(text, USER_SIGN_DOMAIN) then Some(UserSign(text[|USER_SIGN_DOMAIN|..]))
    else None
  }

  /** The bytes spell the text in ASCII. */
  predicate Spells(b: Bytes, text: string)
  {
    |b| == |text| && forall i | 0 <= i < |b| :: b[i] as char == text[i]
  }

  lemma TagsSpelled()
    ensures Spells(SESSION_CHALLENGE_DOMAIN, "DIGNET-SESSION-v1")
    ensures Spells(SIGN_CALLBACK_DOMAIN, "DIGNET-SIGN-v1")
    ensures Spells(USER_SIGN_DOMAIN, "DIGNET-USER-SIGN-v1")
  {}

  /** No text starts with two of the tags. */
  lemma TagsExclusive(text: Bytes)
    ensures StartsWith(text, SESSION_CHALLENGE_DOMAIN) ==>
            !StartsWith(text, SIGN_CALLBACK_DOMAIN) && !StartsWith(text, USER_SIGN_DOMAIN)
    ensures StartsWith(text, SIGN_CALLBACK_DOMAIN) ==> !StartsWith(text, USER_SIGN_DOMAIN)
  {
    if StartsWith(text, SESSION_CHALLENGE_DOMAIN) {
      assert text[7] == 0x53 && text[8] == 0x45;
    }
    if StartsWith(text, SIGN_CALLBACK_DOMAIN) {
      assert text[7] == 0x53 && text[8] == 0x49;
    }
    if StartsWith(text, USER_SIGN_DOMAIN) {
      assert text[7] == 0x55;
    }
  }

  lemma StartsWithTag(tag: Bytes, rest: Bytes)
    ensures StartsWith(tag + rest, tag) && (tag + rest)[|tag|..] == rest
  {
    Cut(tag, rest);
  }

  lemma LengthBytes(n: nat)
    requires n <= U16_MAX
    ensures n / 256 < 256 && 256 * (n / 256) + n % 256 == n
  {}

  /** The callback layout after its tag, and how its two fields are cut out again. */
  lemma CallbackFields(payloadType: Bytes, payload: Bytes)
    requires |payloadType| <= U16_MAX
    ensures var body := [(|payloadType| / 256) as byte, (|payloadType| % 256) as byte] + (payloadType + payload);
            && SignCallbackMessage(payloadType, payload) == Some(SIGN_CALLBACK_DOMAIN + body)
            && |body| == 2 + |payloadType| + |payload| && 256 * body[0] as nat + body[1] as nat == |payloadType|
            && body[2..2 + |payloadType|] == payloadType && body[2 + |payloadType|..] == payload
  {
    LengthBytes(|payloadType|);
    var len := [(|payloadType| / 256) as byte, (|payloadType| % 256) as byte];
    Assoc(SIGN_CALLBACK_DOMAIN, len, payloadType);
    Assoc(SIGN_CALLBACK_DOMAIN, len + payloadType, payload);
    Assoc(len, payloadType, payload);
    Cut(len, payloadType + payload);
    Cut(payloadType, payload);
    var body := len + (payloadType + payload);
    assert body[2..2 + |payloadType|] == body[2..][..|payloadType|];
    assert body[2 + |payloadType|..] == body[2..][|payloadType|..];
  }

  lemma ParseInvertsPrint(m: Signed)
    requires m.Printable()
    ensures Parse(Print(m)) == Some(m)
  {
    TagsExclusive(Print(m));
    match m
    case Challenge(nonce, did) =>
      Assoc(SESSION_CHALLENGE_DOMAIN, nonce, did);
      StartsWithTag(SESSION_CHALLENGE_DOMAIN, nonce + did);
      Cut(nonce, did);
    case Callback(payloadType, payload) =>
      CallbackFields(payloadType, payload);
      StartsWithTag(SIGN_CALLBACK_DOMAIN,
                    [(|payloadType| / 256) as byte, (|payloadType| % 256) as byte] + (payloadType + payload));
    case UserSign(message) =>
      StartsWithTag(USER_SIGN_DOMAIN, message);
  }

  /** A body with a length prefix is the prefix, as many bytes as it says, and the rest. */
  lemma PrefixedBody(body: Bytes, n: nat)
    requires |body| >= 2 + n && n == 256 * body[0] as nat + body[1] as nat
    ensures n <= U16_MAX && [(n / 256) as byte, (n % 256) as byte] + (body[2..2 + n] + body[2 + n..]) == body
  {
    Join(body[2..], n);
    assert body[2..][..n] == body[2..2 + n] && body[2..][n..] == body[2 + n..];
    Join(body, 2);
    assert body[..2] == [body[0], body[1]];
    assert n / 256 == body[0] as nat && n % 256 == body[1] as nat;
  }

  lemma PrintInvertsParse(text: Bytes)
    requires Parse(text).Some?
    ensures Parse(text).value.Printable() && Print(Parse(text).value) == text
  {
    match Parse(text).value
    case Challenge(nonce, did) =>
      Join(text, |SESSION_CHALLENGE_DOMAIN|);
      Join(text[|SESSION_CHALLENGE_DOMAIN|..], NONCE_LEN);
      Assoc(SESSION_CHALLENGE_DOMAIN, nonce, did);
    case Callback(payloadType, payload) =>
      var body := text[|SIGN_CALLBACK_DOMAIN|..];
      Join(text, |SIGN_CALLBACK_DOMAIN|);
      PrefixedBody(body, |payloadType|);
      CallbackFields(payloadType, payload);
    case UserSign(message) =>
      Join(text, |USER_SIGN_DOMAIN|);
  }

  /** One byte string has at most one purpose and one set of fields: the builders never collide. */
  lemma PrintInjective(a: Signed, b: Signed)
    requires a.Printable() && b.Printable() && Print(a) == Print(b)
    ensures a == b
  {
    ParseInvertsPrint(a);
    ParseInvertsPrint(b);
  }

  /** The same fact about the builders as their callers use them. */
  lemma ChallengeNeverCollides(nonce: Nonce, did: Bytes, nonce': Nonce, did': Bytes, payloadType: Bytes,
                               payload: Bytes, message: Bytes)
    ensures ChallengeMessage(nonce, did) == ChallengeMessage(nonce', did') ==> nonce == nonce' && did == did'
    ensures SignCallbackMessage(payloadType, payload) != Some(ChallengeMessage(nonce, did))
    ensures UserSignMessage(message) != ChallengeMessage(nonce, did)
  {
    if ChallengeMessage(nonce, did) == ChallengeMessage(nonce', did') {
      PrintInjective(Challenge(nonce, did), Challenge(nonce', did'));
    }
    if SignCallbackMessage(payloadType, payload) == Some(ChallengeMessage(nonce, did)) {
      PrintInjective(Callback(payloadType, payload), Challenge(nonce, did));
    }
    if UserSignMessage(message) == ChallengeMessage(nonce, did) {
      PrintInjective(UserSign(message), Challenge(nonce, did));
    }
  }

  /** Without a fixed nonce length the challenge says only where the two fields end together. */
  lemma ChallengeBoundary(nonce: Bytes, did: Bytes, nonce': Bytes, did': Bytes)
    ensures ChallengeMessage(nonce, did) == ChallengeMessage(nonce', did') <==> nonce + did == nonce' + did'
    ensures ChallengeMessage(nonce, did) == ChallengeMessage(nonce', did') && (nonce, did) != (nonce', did') ==>
            |nonce| != |nonce'|
  {
    Assoc(SESSION_CHALLENGE_DOMAIN, nonce, did);
    Assoc(SESSION_CHALLENGE_DOMAIN, nonce', did');
    JoinEqual(SESSION_CHALLENGE_DOMAIN, nonce + did, SESSION_CHALLENGE_DOMAIN, nonce' + did');
    if |nonce| == |nonce'| {
      JoinEqual(nonce, did, nonce', did');
    }
  }

  /** A collision: the nonce "n" with the DID "did" and the nonce "nd" with the DID "id". */
  lemma ChallengeCollidesWithoutFixedLength()
    ensures ChallengeMessage([110], [100, 105, 100]) == ChallengeMessage([110, 100], [105, 100])
  {
    ChallengeBoundary([110], [100, 105, 100], [110, 100], [105, 100]);
    assert [110 as byte] + [100, 105, 100] == [110, 100] + [105, 100];
  }

  lemma FromHexInvertsToHex(key: Key)
    ensures FromHex(ToHex(key)) == Some(key)
  {
    Hex.DecodeInvertsEncode(key);
  }

  /** A key text is what its key prints as exactly when it has no upper-case digit. */
  lemma ToHexInvertsFromHex(text: Bytes)
    requires FromHex(text).Some?
    ensures |text| == 2 * SIGNING_KEY_LEN
    ensures ToHex(FromHex(text).value) == text <==> forall c :: c in text ==> !Hex.IsUpper(c)
  {
    Hex.EncodeInvertsDecode(text);
  }

  /** A text that reads as a key and is not what the key prints as: 96 times the digit "A". */
  lemma UpperCaseKeyIsAccepted()
    ensures var text: Bytes := seq(2 * SIGNING_KEY_LEN, _ => 65);
            FromHex(text).Some? && ToHex(FromHex(text).value) != text
  {
    var text: Bytes := seq(2 * SIGNING_KEY_LEN, _ => 65);
    Hex.UpperCaseDecodes(SIGNING_KEY_LEN);
    ToHexInvertsFromHex(text);
    assert text[0] in text && Hex.IsUpper(text[0]);
  }
}
