/** Parameters, results and frames of the `control.session.*` methods and the `sign` callback. */
module Wire {
  import opened Prelude

  datatype ProfileAttachment = ProfileAttachment(did: Bytes, subscriptions: seq<Bytes>, configDigest: Bytes)

  datatype BeginParams = BeginParams(profileDid: Bytes, signingPubkeyHex: Bytes)
  datatype BeginResult = BeginResult(nonceB64: Bytes, sessionCandidate: Bytes)
  datatype AttachParams = AttachParams(sessionCandidate: Bytes, signatureB64: Bytes, profile: ProfileAttachment)
  datatype AttachResult = AttachResult(sessionId: Bytes, engineCapabilities: seq<Bytes>)
  datatype SignCallbackParams = SignCallbackParams(
    sessionId: Bytes, opId: Bytes, payloadType: Bytes, payloadB64: Bytes, context: Option<Bytes>)
  datatype RpcError = RpcError(code: int, message: string)

  /** A request id: a non-negative integer, or any other JSON value. */
  datatype Id = Null | Number(n: nat) | OtherJson(text: Bytes)

  /**
   A `result` value by what it reads as. One JSON object may read as several of the result types, so
   the three readings are independent.
   */
  datatype ResultValue = ResultValue(begin: Option<BeginResult>, attach: Option<AttachResult>, detach: bool)

  const METHOD_SIGN: Bytes := [115, 105, 103, 110] // "sign"

  /** A frame from the engine. `params` is None when absent and when it does not read as sign parameters. */
  datatype IncomingFrame = IncomingFrame(
    id: Option<Id>,
    methodName: Option<Bytes>,
    params: Option<SignCallbackParams>,
    result: Option<ResultValue>,
    error: Option<RpcError>)
  {
    predicate IsCallback() { methodName == Some(METHOD_SIGN) }
  }

  /** A frame from the app: three requests, and two kinds of reply to a callback. */
  datatype OutgoingFrame =
    | BeginRequest(requestId: nat, beginParams: BeginParams)
    | AttachRequest(requestId: nat, attachParams: AttachParams)
    | DetachRequest(requestId: nat, sessionId: Bytes)
    | SignResult(replyTo: Id, signatureB64: Bytes, pubkeyHex: Bytes)
    | ErrorReply(replyTo: Id, error: RpcError)
  {
    predicate IsRequest() { BeginRequest? || AttachRequest? || DetachRequest? }
  }

  const SIGN_DENIED: int := -33030
  const LOCKED: int := -33040
}
