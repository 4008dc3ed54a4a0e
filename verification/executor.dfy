/** AuthenticatedTcpAttemptExecutor: which network answers count as evidence, and the
    safety of the whole system against any network. */
module Executor {
  import opened Bytes
  import opened JsonPrinter
  import opened Messages
  import opened Orchestrator
  import opened Engine
  import opened EngineRuns
  import opened Signing
  import opened RoundTrip
  import opened CanonicalForms
  import opened Envelope
  import opened Framing
  import Base64Url

  datatype Endpoint = Endpoint(host: bytes, port: nat)

  // The network answers call number n, made to an endpoint with a request body, by the
  // body of a received frame, or None when connecting, sending or receiving throws. It
  // may answer anything.
  type Network = (nat, Endpoint, bytes) -> Option<bytes>

  datatype Node = Node(
    crypto: Crypto, localKey: Key,
    endpoints: bytes -> Option<Endpoint>, publicKeys: bytes -> Option<Key>,
    network: Network, clock: nat -> int)

  const ENDPOINT_UNAVAILABLE: bytes := "endpoint_unavailable"
  const INVALID_RESULT_CONTRACT: bytes := "invalid_result_contract"
  const INVALID_RESULT_SIGNATURE: bytes := "invalid_result_signature"
  const INVALID_FAILURE_CONTRACT: bytes := "invalid_failure_contract"
  const INVALID_FAILURE_SIGNATURE: bytes := "invalid_failure_signature"
  const UNSUPPORTED_RESPONSE_TYPE: bytes := "unsupported_response_type"
  const TRANSPORT_UNAVAILABLE: bytes := "transport_unavailable"
  const LOCAL_FAILURE: bytes := "local-failure-"

  // ---- What the call operator computes ----

  function LocalNotice(x: Node, call: nat, request: Request, target: bytes, reason: bytes): Notice {
    SignNotice(x.crypto,
               FailureNotice(request.protocolVersion, LOCAL_FAILURE + request.requestId + ['-'] + target,
                             request.requestId, request.senderNodeId, target, reason, x.clock(call), ED25519, []),
               x.localKey)
  }

  function LocalFailure(x: Node, call: nat, request: Request, target: bytes, reason: bytes): AttemptResponse {
    AttemptResponse(None, Some(LocalNotice(x, call, request, target, reason)))
  }

  predicate ResultContract(request: Request, target: bytes, result: JobReply) {
    result.requestId == request.requestId && result.responderNodeId == target &&
    result.recipientNodeId == request.senderNodeId && result.status == OK
  }

  predicate FailureContract(request: Request, target: bytes, failure: Notice) {
    failure.requestId == request.requestId && failure.failedNodeId == target && failure.reportingNodeId != []
  }

  function OnResult(x: Node, call: nat, request: Request, target: bytes, reply: bytes): AttemptResponse {
    match ParseResult(reply)
    case Throws(_) => LocalFailure(x, call, request, target, TRANSPORT_UNAVAILABLE)
    case Ok(result) =>
      if !ResultContract(request, target, result) then LocalFailure(x, call, request, target, INVALID_RESULT_CONTRACT)
      else if !VerifyResult(x.crypto, result, x.publicKeys(result.responderNodeId)) then
        LocalFailure(x, call, request, target, INVALID_RESULT_SIGNATURE)
      else AttemptResponse(Some(result), None)
  }

  function OnFailure(x: Node, call: nat, request: Request, target: bytes, reply: bytes): AttemptResponse {
    match ParseNotice(reply)
    case Throws(_) => LocalFailure(x, call, request, target, TRANSPORT_UNAVAILABLE)
    case Ok(failure) =>
      if !FailureContract(request, target, failure) then LocalFailure(x, call, request, target, INVALID_FAILURE_CONTRACT)
      else if !VerifyNotice(x.crypto, failure, x.publicKeys(failure.reportingNodeId)) then
        LocalFailure(x, call, request, target, INVALID_FAILURE_SIGNATURE)
      else AttemptResponse(None, Some(failure))
  }

  function OnReply(x: Node, call: nat, request: Request, target: bytes, reply: bytes): AttemptResponse {
    match EnvelopeType(reply)
    case Throws(_) => LocalFailure(x, call, request, target, TRANSPORT_UNAVAILABLE)
    case Ok(kind) =>
      if kind == JOB_RESULT then OnResult(x, call, request, target, reply)
      else if kind == FAILURE_NOTICE then OnFailure(x, call, request, target, reply)
      else LocalFailure(x, call, request, target, UNSUPPORTED_RESPONSE_TYPE)
  }

  /** The reply to the signed request: None also when its frame cannot be built. */
  function Exchange(x: Node, call: nat, request: Request, endpoint: Endpoint): Option<bytes> {
    var body := RequestEnvelope(SignRequest(x.crypto, request, x.localKey));
    if EncodeFrame(body).Ok? then x.network(call, endpoint, body) else None
  }

  function Respond(x: Node, call: nat, request: Request, target: bytes): AttemptResponse {
    match x.endpoints(target)
    case None => LocalFailure(x, call, request, target, ENDPOINT_UNAVAILABLE)
    case Some(endpoint) =>
      match Exchange(x, call, request, endpoint)
      case None => LocalFailure(x, call, request, target, TRANSPORT_UNAVAILABLE)
      case Some(reply) => OnReply(x, call, request, target, reply)
  }

  function AttemptOnce(x: Node, call: nat, request: Request, target: bytes): Result<AttemptResponse, ExecError> {
    if target == [] then Throws(TargetRequired)
    else if request.targetNodeId != target then Throws(TargetMismatch)
    else Ok(Respond(x, call, request, target))
  }

  // ---- The call operator ----

  method MakeLocalFailure(x: Node, call: nat, request: Request, target: bytes, reason: bytes)
      returns (response: AttemptResponse)
    ensures response == LocalFailure(x, call, request, target, reason)
  {
    var failure := FailureNotice(request.protocolVersion, LOCAL_FAILURE + request.requestId + ['-'] + target,
                                 request.requestId, request.senderNodeId, target, reason, x.clock(call), ED25519, []);
    var signed := SignFailureNotice(x.crypto, failure, Some(x.localKey));
    return AttemptResponse(None, Some(signed.value));
  }

  method Judge(x: Node, call: nat, request: Request, target: bytes, reply: bytes) returns (response: AttemptResponse)
    ensures response == OnReply(x, call, request, target, reply)
  {
    var kind := WireEnvelopeType(reply);
    if kind.Throws? {
      response := MakeLocalFailure(x, call, request, target, TRANSPORT_UNAVAILABLE);
      return;
    }
    if kind.value == JOB_RESULT {
      var parsed := ParseJobResultEnvelope(reply);
      if parsed.Throws? {
        response := MakeLocalFailure(x, call, request, target, TRANSPORT_UNAVAILABLE);
        return;
      }
      var result := parsed.value;
      if result.requestId != request.requestId || result.responderNodeId != target ||
         result.recipientNodeId != request.senderNodeId || result.status != OK {
        response := MakeLocalFailure(x, call, request, target, INVALID_RESULT_CONTRACT);
        return;
      }
      if !VerifyResult(x.crypto, result, x.publicKeys(result.responderNodeId)) {
        response := MakeLocalFailure(x, call, request, target, INVALID_RESULT_SIGNATURE);
        return;
      }
      return AttemptResponse(Some(result), None);
    }
    if kind.value == FAILURE_NOTICE {
      var parsed := ParseFailureNoticeEnvelope(reply);
      if parsed.Throws? {
        response := MakeLocalFailure(x, call, request, target, TRANSPORT_UNAVAILABLE);
        return;
      }
      var failure := parsed.value;
      if failure.requestId != request.requestId || failure.failedNodeId != target || failure.reportingNodeId == [] {
        response := MakeLocalFailure(x, call, request, target, INVALID_FAILURE_CONTRACT);
        return;
      }
      if !VerifyNotice(x.crypto, failure, x.publicKeys(failure.reportingNodeId)) {
        response := MakeLocalFailure(x, call, request, target, INVALID_FAILURE_SIGNATURE);
        return;
      }
      return AttemptResponse(None, Some(failure));
    }
    response := MakeLocalFailure(x, call, request, target, UNSUPPORTED_RESPONSE_TYPE);
  }

  method Call(x: Node, call: nat, request: Request, target: bytes) returns (r: Result<AttemptResponse, ExecError>)
    ensures r == AttemptOnce(x, call, request, target)
  {
    if target == [] {
      return Throws(TargetRequired);
    }
    if request.targetNodeId != target {
      return Throws(TargetMismatch);
    }
    var response: AttemptResponse;
    var endpoint := x.endpoints(target);
    if endpoint == None {
      response := MakeLocalFailure(x, call, request, target, ENDPOINT_UNAVAILABLE);
      return Ok(response);
    }
    var signed := SignJobRequest(x.crypto, request, Some(x.localKey));
    var body := JobRequestEnvelopeJson(signed.value);
    var frame := Encode(body);
    var reply := if frame.Ok? then x.network(call, endpoint.value, body) else None;
    if reply == None {
      response := MakeLocalFailure(x, call, request, target, TRANSPORT_UNAVAILABLE);
      return Ok(response);
    }
    response := Judge(x, call, request, target, reply.value);
    return Ok(response);
  }

  // ---- Exactly what counts as a result ----

  /** The reply that an attempt on target receives. */
  function ReplyOf(x: Node, call: nat, request: Request, target: bytes): Option<bytes> {
    match x.endpoints(target)
    case None => None
    case Some(endpoint) => Exchange(x, call, request, endpoint)
  }

  /** An attempt yields a result if and only if the reply parses to it, it answers this
      request from this target to this sender with status OK, and it verifies under the
      target's key. */
  lemma AcceptsExactly(x: Node, call: nat, request: Request, target: bytes, result: JobReply)
    ensures Respond(x, call, request, target) == AttemptResponse(Some(result), None) <==>
            var reply := ReplyOf(x, call, request, target);
            reply.Some? && ParseResult(reply.value) == Ok(result) &&
            result.requestId == request.requestId && result.responderNodeId == target &&
            result.recipientNodeId == request.senderNodeId && result.status == "OK" &&
            VerifyResult(x.crypto, result, x.publicKeys(target))
  {
    var reply := ReplyOf(x, call, request, target);
    if reply.Some? {
      KindsHaveNoQuote();
      if ParseResult(reply.value).Ok? {
        assert EnvelopeType(reply.value) == Ok(JOB_RESULT);
      }
    }
  }

  /** The reply is a notice about this attempt that verifies under its reporter's key. */
  predicate BelievedNotice(x: Node, call: nat, request: Request, target: bytes, n: Notice) {
    var reply := ReplyOf(x, call, request, target);
    reply.Some? && ParseNotice(reply.value) == Ok(n) &&
    n.requestId == request.requestId && n.failedNodeId == target && n.reportingNodeId != [] &&
    VerifyNotice(x.crypto, n, x.publicKeys(n.reportingNodeId))
  }

  /** A failure is such a notice from the network, or this node's own; no other notice
      that the network sends gets through. */
  lemma FailureIsBelievedOrLocal(x: Node, call: nat, request: Request, target: bytes, n: Notice)
    ensures BelievedNotice(x, call, request, target, n) ==>
            Respond(x, call, request, target) == AttemptResponse(None, Some(n))
    ensures Respond(x, call, request, target) == AttemptResponse(None, Some(n)) ==>
            BelievedNotice(x, call, request, target, n) ||
            exists reason :: n == LocalNotice(x, call, request, target, reason)
  {
    KindsHaveNoQuote();
    var reply := ReplyOf(x, call, request, target);
    if reply.Some? && ParseNotice(reply.value).Ok? {
      assert EnvelopeType(reply.value) == Ok(FAILURE_NOTICE);
    }
  }

  // ---- What is sent ----

  /** q is the request, signed by this node: only algorithm and signature differ, and the
      signature is that of its other fields. */
  predicate SignedByNode(x: Node, request: Request, q: Request) {
    q.(signatureAlgorithm := request.signatureAlgorithm, signature := request.signature) == request &&
    q.signatureAlgorithm == "Ed25519" &&
    Base64Url.UrlDecode(q.signature) == Ok(x.crypto.sign(x.localKey, CanonicalRequest(q)))
  }

  /** Two networks that answer the signed request at the target's endpoint alike cannot be
      told apart: nothing else is ever sent, and nothing at all without an endpoint. */
  lemma OnlySignedRequestsAreSent(x: Node, network: Network, call: nat, request: Request, target: bytes)
    requires x.endpoints(target).Some? ==>
             forall q | SignedByNode(x, request, q) ::
               x.network(call, x.endpoints(target).value, RequestEnvelope(q)) ==
               network(call, x.endpoints(target).value, RequestEnvelope(q))
    ensures Respond(x, call, request, target) == Respond(x.(network := network), call, request, target)
  {
    hide RequestEnvelope, CanonicalRequest, SignRequest, ParseResult, ParseNotice, EnvelopeType, VerifyText, EncodeFrame;
    var q := SignRequest(x.crypto, request, x.localKey);
    RequestIsSignedByNode(x, request);
    assert SignedByNode(x, request, q);
    var y := x.(network := network);
    assert ReplyOf(x, call, request, target) == ReplyOf(y, call, request, target);
    RespondsToReply(x, call, request, target);
    RespondsToReply(y, call, request, target);
    SameVerdict(x, network, call, request, target);
  }

  lemma RequestIsSignedByNode(x: Node, request: Request)
    ensures SignedByNode(x, request, SignRequest(x.crypto, request, x.localKey))
  {
    RequestSignature(x.crypto, request, x.localKey);
  }

  lemma RespondsToReply(x: Node, call: nat, request: Request, target: bytes)
    ensures Respond(x, call, request, target) ==
              if x.endpoints(target) == None then LocalFailure(x, call, request, target, "endpoint_unavailable")
              else match ReplyOf(x, call, request, target)
                case None => LocalFailure(x, call, request, target, "transport_unavailable")
                case Some(reply) => OnReply(x, call, request, target, reply)
  {
    hide OnReply, LocalFailure, Exchange;
  }

  lemma SameVerdict(x: Node, network: Network, call: nat, request: Request, target: bytes)
    ensures forall reply ::
              OnReply(x, call, request, target, reply) == OnReply(x.(network := network), call, request, target, reply)
    ensures forall reason ::
              LocalFailure(x, call, request, target, reason) == LocalFailure(x.(network := network), call, request, target, reason)
  {
    hide ParseResult, ParseNotice, EnvelopeType, VerifyText, SignNotice;
  }

  /** The two throws of the call; apart from them it always answers. */
  lemma CallThrowsExactly(x: Node, call: nat, request: Request, target: bytes)
    ensures AttemptOnce(x, call, request, target) == Throws(TargetRequired) <==> target == []
    ensures AttemptOnce(x, call, request, target) == Throws(TargetMismatch) <==>
            target != [] && request.targetNodeId != target
    ensures target != [] && request.targetNodeId == target ==>
            AttemptOnce(x, call, request, target) == Ok(Respond(x, call, request, target))
  {
    hide Respond;
  }

  // ---- Which reason a local failure gives ----

  /** A reply that cannot be split or parsed counts as no reply, and one of another type is
      not supported. */
  lemma UnreadableReplies(x: Node, call: nat, request: Request, target: bytes, reply: bytes)
    requires ReplyOf(x, call, request, target) == Some(reply)
    ensures var r, split := Respond(x, call, request, target), SplitEnvelope(reply);
            if split.Throws? then r == LocalFailure(x, call, request, target, "transport_unavailable")
            else if split.value.1 == "JOB_RESULT" then
              ParseResult(reply).Throws? ==> r == LocalFailure(x, call, request, target, "transport_unavailable")
            else if split.value.1 == "FAILURE_NOTICE" then
              ParseNotice(reply).Throws? ==> r == LocalFailure(x, call, request, target, "transport_unavailable")
            else r == LocalFailure(x, call, request, target, "unsupported_response_type")
  {
    hide LocalFailure;
    OtherEnvelopesAreRefused(reply);
    hide ParseResult, ParseNotice, SplitEnvelope, EnvelopeType;
    RespondsToReply(x, call, request, target);
  }

  /** A result is judged by its contract first and its signature second. */
  lemma ResultVerdict(x: Node, call: nat, request: Request, target: bytes, reply: bytes, result: JobReply)
    requires ReplyOf(x, call, request, target) == Some(reply) && ParseResult(reply) == Ok(result)
    ensures Respond(x, call, request, target) ==
              if result.requestId != request.requestId || result.responderNodeId != target ||
                 result.recipientNodeId != request.senderNodeId || result.status != "OK" then
                LocalFailure(x, call, request, target, "invalid_result_contract")
              else if !VerifyResult(x.crypto, result, x.publicKeys(target)) then
                LocalFailure(x, call, request, target, "invalid_result_signature")
              else AttemptResponse(Some(result), None)
  {
    hide LocalFailure, VerifyResult;
    OtherEnvelopesAreRefused(reply);
    hide ParseResult, ParseNotice, SplitEnvelope, EnvelopeType;
    RespondsToReply(x, call, request, target);
  }

  lemma NoticeVerdict(x: Node, call: nat, request: Request, target: bytes, reply: bytes, n: Notice)
    requires ReplyOf(x, call, request, target) == Some(reply) && ParseNotice(reply) == Ok(n)
    ensures Respond(x, call, request, target) ==
              if n.requestId != request.requestId || n.failedNodeId != target || n.reportingNodeId == [] then
                LocalFailure(x, call, request, target, "invalid_failure_contract")
              else if !VerifyNotice(x.crypto, n, x.publicKeys(n.reportingNodeId)) then
                LocalFailure(x, call, request, target, "invalid_failure_signature")
              else AttemptResponse(None, Some(n))
  {
    hide LocalFailure, VerifyNotice;
    KindsHaveNoQuote();
    OtherEnvelopesAreRefused(reply);
    hide ParseResult, ParseNotice, SplitEnvelope, EnvelopeType;
    RespondsToReply(x, call, request, target);
  }

  /** A local failure is an honest notice: it says who reports which node for which request,
      why and when, and verifies under the key of this node. */
  lemma LocalFailureIsHonest(x: Node, call: nat, request: Request, target: bytes, reason: bytes)
    requires Ideal(x.crypto)
    ensures var n := LocalNotice(x, call, request, target, reason);
            LocalFailure(x, call, request, target, reason) == AttemptResponse(None, Some(n)) &&
            n.(signature := []) ==
              FailureNotice(request.protocolVersion, "local-failure-" + request.requestId + "-" + target, request.requestId,
                            request.senderNodeId, target, reason, x.clock(call), "Ed25519", []) &&
            VerifyNotice(x.crypto, n, Some(x.localKey))
  {
    var u := FailureNotice(request.protocolVersion, LOCAL_FAILURE + request.requestId + ['-'] + target,
                           request.requestId, request.senderNodeId, target, reason, x.clock(call), ED25519, []);
    NoticeIsTamperEvident(x.crypto, u, x.localKey, SignNotice(x.crypto, u, x.localKey), Some(x.localKey));
  }

  lemma LocalNoticeIsSigned(x: Node, call: nat, request: Request, target: bytes, reason: bytes)
    requires Ideal(x.crypto)
    ensures LocalNotice(x, call, request, target, reason).signature != []
  {
    var u := FailureNotice(request.protocolVersion, LOCAL_FAILURE + request.requestId + ['-'] + target,
                           request.requestId, request.senderNodeId, target, reason, x.clock(call), ED25519, []);
    OwnSpelling(x.crypto, x.localKey, CanonicalNotice(u));
    SignatureVerifies(x.crypto, x.localKey, CanonicalNotice(u), None, [],
                      SignatureText(x.crypto, x.localKey, CanonicalNotice(u)));
  }

  function ExecutorOf(x: Node): AttemptExecutor {
    (call: nat, request: Request, target: bytes) => AttemptOnce(x, call, request, target)
  }

  /** Against any network the executor answers with exactly one piece of evidence, and
      never throws. */
  lemma ExecutorAttemptsWell(x: Node, s: Setting)
    requires Ideal(x.crypto) && s.attempt == ExecutorOf(x)
    ensures AttemptsWell(s)
  {
    forall call, target | target != [] ensures GoodResponse(s, target, s.attempt(call, AttemptOn(s, target), target)) {
      GoodOnce(x, s, call, target);
    }
  }

  lemma GoodOnce(x: Node, s: Setting, call: nat, target: bytes)
    requires Ideal(x.crypto) && s.attempt == ExecutorOf(x) && target != []
    ensures GoodResponse(s, target, s.attempt(call, AttemptOn(s, target), target))
  {
    hide ParseResult, ParseNotice, EnvelopeType, SignNotice, SignRequest, RequestEnvelope, VerifyText;
    var request := AttemptOn(s, target);
    LocalNoticeFields(x, call, request, target, ENDPOINT_UNAVAILABLE);
    LocalNoticeFields(x, call, request, target, TRANSPORT_UNAVAILABLE);
    LocalNoticeFields(x, call, request, target, UNSUPPORTED_RESPONSE_TYPE);
    LocalNoticeFields(x, call, request, target, INVALID_RESULT_CONTRACT);
    LocalNoticeFields(x, call, request, target, INVALID_RESULT_SIGNATURE);
    LocalNoticeFields(x, call, request, target, INVALID_FAILURE_CONTRACT);
    LocalNoticeFields(x, call, request, target, INVALID_FAILURE_SIGNATURE);
  }

  lemma LocalNoticeFields(x: Node, call: nat, request: Request, target: bytes, reason: bytes)
    requires Ideal(x.crypto)
    ensures var n := LocalNotice(x, call, request, target, reason);
            n.requestId == request.requestId && n.failedNodeId == target && n.signature != []
  {
    LocalNoticeIsSigned(x, call, request, target, reason);
  }

  // ---- End to end ----

  /** The completed state holds a verified answer of the last node attempted. */
  ghost predicate AuthenticAnswer(x: Node, original: Request, st: ExecutionState) {
    st.attempts != [] && st.result.Some? &&
    var last := st.attempts[|st.attempts| - 1];
    var r := st.result.value;
    last.outcome == Succeeded && r.responderNodeId == last.nodeId && r.requestId == original.requestId &&
    r.recipientNodeId == original.senderNodeId && r.status == OK &&
    VerifyResult(x.crypto, r, x.publicKeys(last.nodeId))
  }

  /** For any routing that keeps its contract and any behaviour of the network, the call
      returns without throwing, keeps the lifecycle, and when it completes its result is
      verified, for this request, from the last node attempted, to the original sender. */
  lemma EndToEndSafety(x: Node, s: Setting)
    requires Ideal(x.crypto) && s.attempt == ExecutorOf(x) && RoutesWell(s)
    requires s.original.requestId != [] && s.maxAttempts > 0
    ensures ExecuteAll(s).Ok?
    ensures var o := ExecuteAll(s).value;
            Lifecycle(s, o.state) && (o.state.completed ==> AuthenticAnswer(x, s.original, o.state))
  {
    ExecutorAttemptsWell(x, s);
    ExecuteEndsWell(s);
    var st := ExecuteAll(s).value.state;
    if st.completed {
      var n := |st.attempts| - 1;
      var node, result := st.attempts[n].nodeId, st.result.value;
      assert FromLastAttempt(s, st);
      assert Respond(x, n, AttemptOn(s, node), node) == AttemptResponse(Some(result), None);
      AcceptsExactly(x, n, AttemptOn(s, node), node, result);
    }
  }

  /** An honest node is believed: if the reply is the envelope of a result it signed with
      its own key for this request, the attempt yields that result. */
  lemma HonestNodeCompletes(x: Node, call: nat, request: Request, target: bytes, r: JobReply, k: Key)
    requires Ideal(x.crypto) && x.publicKeys(target) == Some(k) && Readable(r.completedAt)
    requires ResultContract(request, target, r)
    requires ReplyOf(x, call, request, target) == Some(ResultEnvelope(SignResult(x.crypto, r, k)))
    ensures Respond(x, call, request, target) == AttemptResponse(Some(SignResult(x.crypto, r, k)), None)
  {
    var signed := SignResult(x.crypto, r, k);
    ResultRoundTrip(signed);
    ResultIsTamperEvident(x.crypto, r, k, signed, Some(k));
    AcceptsExactly(x, call, request, target, signed);
  }

  /** No one else is: a result with the signature of another key's holder, or with any
      field but the spelling of its signature changed after signing, never completes an
      attempt on target. */
  lemma ForeignSignatureIsRefused(x: Node, call: nat, request: Request, target: bytes, r: JobReply, k: Key, sent: JobReply)
    requires Ideal(x.crypto)
    requires Base64Url.UrlDecode(sent.signature) == Base64Url.UrlDecode(SignResult(x.crypto, r, k).signature)
    requires Unsigned(AnyResult(sent)) != Unsigned(AnyResult(SignResult(x.crypto, r, k))) || x.publicKeys(target) != Some(k)
    ensures Respond(x, call, request, target) != AttemptResponse(Some(sent), None)
  {
    AcceptsExactly(x, call, request, target, sent);
    ResultIsTamperEvident(x.crypto, r, k, sent, x.publicKeys(target));
  }
}
