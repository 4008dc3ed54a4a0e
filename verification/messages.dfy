/** The three message records, their canonical, signed and envelope forms, and
    the parsers of the two kinds of reply. */
module Messages {
  import opened Bytes
  import opened JsonReader
  import opened FlatObject
  import opened JsonPrinter
  import opened Envelope

  // S is the string type (bytes in C++, string in Python), O that of
  // organization_id. An int64 field is an int within its range.
  datatype JobRequest<S, O> = JobRequest(
    protocolVersion: S, messageId: S, requestId: S, senderNodeId: S, targetNodeId: S, organizationId: O,
    operation: S, payload: S, issuedAt: int, expiresAt: int, signatureAlgorithm: S, signature: S)

  datatype JobResult<S> = JobResult(
    protocolVersion: S, messageId: S, requestId: S, responderNodeId: S, recipientNodeId: S,
    status: S, payload: S, completedAt: int, signatureAlgorithm: S, signature: S)

  datatype FailureNotice<S> = FailureNotice(
    protocolVersion: S, messageId: S, requestId: S, reportingNodeId: S, failedNodeId: S,
    reason: S, observedAt: int, signatureAlgorithm: S, signature: S)

  type Request = JobRequest<bytes, bytes>
  type JobReply = JobResult<bytes>
  type Notice = FailureNotice<bytes>

  // ---- Keys ----

  const K_EXPIRES_AT: bytes := "expires_at"
  const K_ISSUED_AT: bytes := "issued_at"
  const K_MESSAGE_ID: bytes := "message_id"
  const K_OPERATION: bytes := "operation"
  const K_ORGANIZATION_ID: bytes := "organization_id"
  const K_PAYLOAD: bytes := "payload"
  const K_PROTOCOL_VERSION: bytes := "protocol_version"
  const K_REQUEST_ID: bytes := "request_id"
  const K_SENDER_NODE_ID: bytes := "sender_node_id"
  const K_SIGNATURE: bytes := "signature"
  const K_SIGNATURE_ALGORITHM: bytes := "signature_algorithm"
  const K_TARGET_NODE_ID: bytes := "target_node_id"
  const K_COMPLETED_AT: bytes := "completed_at"
  const K_RECIPIENT_NODE_ID: bytes := "recipient_node_id"
  const K_RESPONDER_NODE_ID: bytes := "responder_node_id"
  const K_STATUS: bytes := "status"
  const K_FAILED_NODE_ID: bytes := "failed_node_id"
  const K_OBSERVED_AT: bytes := "observed_at"
  const K_REASON: bytes := "reason"
  const K_REPORTING_NODE_ID: bytes := "reporting_node_id"

  // ---- Fields in printed order ----

  function RequestFields<S, O>(r: JobRequest<S, O>, organization: Field<S>): seq<Field<S>> {
    [NumberField(K_EXPIRES_AT, r.expiresAt), NumberField(K_ISSUED_AT, r.issuedAt),
     TextField(K_MESSAGE_ID, r.messageId), TextField(K_OPERATION, r.operation), organization,
     TextField(K_PAYLOAD, r.payload), TextField(K_PROTOCOL_VERSION, r.protocolVersion),
     TextField(K_REQUEST_ID, r.requestId), TextField(K_SENDER_NODE_ID, r.senderNodeId),
     TextField(K_SIGNATURE_ALGORITHM, r.signatureAlgorithm), TextField(K_TARGET_NODE_ID, r.targetNodeId)]
  }

  function SignedRequestFields<S, O>(r: JobRequest<S, O>, organization: Field<S>): seq<Field<S>> {
    [NumberField(K_EXPIRES_AT, r.expiresAt), NumberField(K_ISSUED_AT, r.issuedAt),
     TextField(K_MESSAGE_ID, r.messageId), TextField(K_OPERATION, r.operation), organization,
     TextField(K_PAYLOAD, r.payload), TextField(K_PROTOCOL_VERSION, r.protocolVersion),
     TextField(K_REQUEST_ID, r.requestId), TextField(K_SENDER_NODE_ID, r.senderNodeId),
     TextField(K_SIGNATURE, r.signature), TextField(K_SIGNATURE_ALGORITHM, r.signatureAlgorithm),
     TextField(K_TARGET_NODE_ID, r.targetNodeId)]
  }

  function ResultFields<S>(r: JobResult<S>): seq<Field<S>> {
    [NumberField(K_COMPLETED_AT, r.completedAt), TextField(K_MESSAGE_ID, r.messageId),
     TextField(K_PAYLOAD, r.payload), TextField(K_PROTOCOL_VERSION, r.protocolVersion),
     TextField(K_RECIPIENT_NODE_ID, r.recipientNodeId), TextField(K_REQUEST_ID, r.requestId),
     TextField(K_RESPONDER_NODE_ID, r.responderNodeId), TextField(K_SIGNATURE_ALGORITHM, r.signatureAlgorithm),
     TextField(K_STATUS, r.status)]
  }

  function SignedResultFields<S>(r: JobResult<S>): seq<Field<S>> {
    [NumberField(K_COMPLETED_AT, r.completedAt), TextField(K_MESSAGE_ID, r.messageId),
     TextField(K_PAYLOAD, r.payload), TextField(K_PROTOCOL_VERSION, r.protocolVersion),
     TextField(K_RECIPIENT_NODE_ID, r.recipientNodeId), TextField(K_REQUEST_ID, r.requestId),
     TextField(K_RESPONDER_NODE_ID, r.responderNodeId), TextField(K_SIGNATURE, r.signature),
     TextField(K_SIGNATURE_ALGORITHM, r.signatureAlgorithm), TextField(K_STATUS, r.status)]
  }

  function NoticeFields<S>(n: FailureNotice<S>): seq<Field<S>> {
    [TextField(K_FAILED_NODE_ID, n.failedNodeId), TextField(K_MESSAGE_ID, n.messageId),
     NumberField(K_OBSERVED_AT, n.observedAt), TextField(K_PROTOCOL_VERSION, n.protocolVersion),
     TextField(K_REASON, n.reason), TextField(K_REPORTING_NODE_ID, n.reportingNodeId),
     TextField(K_REQUEST_ID, n.requestId), TextField(K_SIGNATURE_ALGORITHM, n.signatureAlgorithm)]
  }

  function SignedNoticeFields<S>(n: FailureNotice<S>): seq<Field<S>> {
    [TextField(K_FAILED_NODE_ID, n.failedNodeId), TextField(K_MESSAGE_ID, n.messageId),
     NumberField(K_OBSERVED_AT, n.observedAt), TextField(K_PROTOCOL_VERSION, n.protocolVersion),
     TextField(K_REASON, n.reason), TextField(K_REPORTING_NODE_ID, n.reportingNodeId),
     TextField(K_REQUEST_ID, n.requestId), TextField(K_SIGNATURE, n.signature),
     TextField(K_SIGNATURE_ALGORITHM, n.signatureAlgorithm)]
  }

  /** C++ prints an empty organization_id as null. */
  function OrganizationField(organization: bytes): Field<bytes> {
    if organization == [] then NullField(K_ORGANIZATION_ID) else TextField(K_ORGANIZATION_ID, organization)
  }

  function CanonicalRequest(r: Request): bytes {
    ObjectText(ByteMembers(RequestFields(r, OrganizationField(r.organizationId))))
  }

  function SignedRequest(r: Request): bytes {
    ObjectText(ByteMembers(SignedRequestFields(r, OrganizationField(r.organizationId))))
  }

  function CanonicalResult(r: JobReply): bytes {
    ObjectText(ByteMembers(ResultFields(r)))
  }

  function SignedResult(r: JobReply): bytes {
    ObjectText(ByteMembers(SignedResultFields(r)))
  }

  function CanonicalNotice(n: Notice): bytes {
    ObjectText(ByteMembers(NoticeFields(n)))
  }

  function SignedNotice(n: Notice): bytes {
    ObjectText(ByteMembers(SignedNoticeFields(n)))
  }

  // ---- No key needs an escape ----

  lemma CommonKeysPlain()
    ensures Plain(K_MESSAGE_ID) && Plain(K_PAYLOAD) && Plain(K_PROTOCOL_VERSION)
    ensures Plain(K_REQUEST_ID) && Plain(K_SIGNATURE) && Plain(K_SIGNATURE_ALGORITHM)
  {
  }

  lemma RequestKeysPlain()
    ensures Plain(K_EXPIRES_AT) && Plain(K_ISSUED_AT) && Plain(K_OPERATION)
    ensures Plain(K_ORGANIZATION_ID) && Plain(K_SENDER_NODE_ID) && Plain(K_TARGET_NODE_ID)
  {
  }

  lemma ResultKeysPlain()
    ensures Plain(K_COMPLETED_AT) && Plain(K_RECIPIENT_NODE_ID) && Plain(K_RESPONDER_NODE_ID) && Plain(K_STATUS)
  {
  }

  lemma NoticeKeysPlain()
    ensures Plain(K_FAILED_NODE_ID) && Plain(K_OBSERVED_AT) && Plain(K_REASON) && Plain(K_REPORTING_NODE_ID)
  {
  }

  lemma RequestFieldsPlain<S, O>(r: JobRequest<S, O>, organization: Field<S>)
    requires organization.key == K_ORGANIZATION_ID
    ensures AllPlain(RequestFields(r, organization)) && AllPlain(SignedRequestFields(r, organization))
  {
    hide Plain;
    CommonKeysPlain();
    RequestKeysPlain();
  }

  lemma ResultFieldsPlain<S>(r: JobResult<S>)
    ensures AllPlain(ResultFields(r)) && AllPlain(SignedResultFields(r))
  {
    hide Plain;
    CommonKeysPlain();
    ResultKeysPlain();
  }

  lemma NoticeFieldsPlain<S>(n: FailureNotice<S>)
    ensures AllPlain(NoticeFields(n)) && AllPlain(SignedNoticeFields(n))
  {
    hide Plain;
    CommonKeysPlain();
    NoticeKeysPlain();
  }

  // ---- The builders of canonical.hpp, wire.hpp and failure_notice.hpp ----

  /** The first five members, which the canonical and the signed form share. */
  method PrintRequestHead(out: ObjectStream, r: Request)
    requires out.Valid() && out.k == 0 && 5 <= |out.fs|
    requires out.fs[..5] == RequestFields(r, OrganizationField(r.organizationId))[..5]
    modifies out
    ensures out.Valid() && out.k == 5
  {
    hide ObjectStream.Valid;
    ghost var fs := out.fs[..5];
    assert out.fs[0] == fs[0] && out.fs[1] == fs[1] && out.fs[2] == fs[2] && out.fs[3] == fs[3] && out.fs[4] == fs[4];
    out.Number(K_EXPIRES_AT, r.expiresAt);
    out.Number(K_ISSUED_AT, r.issuedAt);
    out.Text(K_MESSAGE_ID, r.messageId);
    out.Text(K_OPERATION, r.operation);
    if r.organizationId == [] {
      out.NullValue(K_ORGANIZATION_ID);
    } else {
      out.Text(K_ORGANIZATION_ID, r.organizationId);
    }
  }

  method CanonicalJobRequestJson(r: Request) returns (text: bytes)
    ensures text == CanonicalRequest(r)
  {
    hide ObjectStream.Valid, AllPlain;
    RequestFieldsPlain(r, OrganizationField(r.organizationId));
    var out := new ObjectStream(RequestFields(r, OrganizationField(r.organizationId)));
    PrintRequestHead(out, r);
    out.Text(K_PAYLOAD, r.payload);
    out.Text(K_PROTOCOL_VERSION, r.protocolVersion);
    out.Text(K_REQUEST_ID, r.requestId);
    out.Text(K_SENDER_NODE_ID, r.senderNodeId);
    out.Text(K_SIGNATURE_ALGORITHM, r.signatureAlgorithm);
    out.Text(K_TARGET_NODE_ID, r.targetNodeId);
    text := out.Close();
  }

  method SignedJobRequestJson(r: Request) returns (text: bytes)
    ensures text == SignedRequest(r)
  {
    hide ObjectStream.Valid, AllPlain;
    RequestFieldsPlain(r, OrganizationField(r.organizationId));
    var out := new ObjectStream(SignedRequestFields(r, OrganizationField(r.organizationId)));
    PrintRequestHead(out, r);
    out.Text(K_PAYLOAD, r.payload);
    out.Text(K_PROTOCOL_VERSION, r.protocolVersion);
    out.Text(K_REQUEST_ID, r.requestId);
    out.Text(K_SENDER_NODE_ID, r.senderNodeId);
    out.Text(K_SIGNATURE, r.signature);
    out.Text(K_SIGNATURE_ALGORITHM, r.signatureAlgorithm);
    out.Text(K_TARGET_NODE_ID, r.targetNodeId);
    text := out.Close();
  }

  method CanonicalJobResultJson(r: JobReply) returns (text: bytes)
    ensures text == CanonicalResult(r)
  {
    hide ObjectStream.Valid, AllPlain;
    ResultFieldsPlain(r);
    var out := new ObjectStream(ResultFields(r));
    out.Number(K_COMPLETED_AT, r.completedAt);
    out.Text(K_MESSAGE_ID, r.messageId);
    out.Text(K_PAYLOAD, r.payload);
    out.Text(K_PROTOCOL_VERSION, r.protocolVersion);
    out.Text(K_RECIPIENT_NODE_ID, r.recipientNodeId);
    out.Text(K_REQUEST_ID, r.requestId);
    out.Text(K_RESPONDER_NODE_ID, r.responderNodeId);
    out.Text(K_SIGNATURE_ALGORITHM, r.signatureAlgorithm);
    out.Text(K_STATUS, r.status);
    text := out.Close();
  }

  method SignedJobResultJson(r: JobReply) returns (text: bytes)
    ensures text == SignedResult(r)
  {
    hide ObjectStream.Valid, AllPlain;
    ResultFieldsPlain(r);
    var out := new ObjectStream(SignedResultFields(r));
    out.Number(K_COMPLETED_AT, r.completedAt);
    out.Text(K_MESSAGE_ID, r.messageId);
    out.Text(K_PAYLOAD, r.payload);
    out.Text(K_PROTOCOL_VERSION, r.protocolVersion);
    out.Text(K_RECIPIENT_NODE_ID, r.recipientNodeId);
    out.Text(K_REQUEST_ID, r.requestId);
    out.Text(K_RESPONDER_NODE_ID, r.responderNodeId);
    out.Text(K_SIGNATURE, r.signature);
    out.Text(K_SIGNATURE_ALGORITHM, r.signatureAlgorithm);
    out.Text(K_STATUS, r.status);
    text := out.Close();
  }

  method CanonicalFailureNoticeJson(n: Notice) returns (text: bytes)
    ensures text == CanonicalNotice(n)
  {
    hide ObjectStream.Valid, AllPlain;
    NoticeFieldsPlain(n);
    var out := new ObjectStream(NoticeFields(n));
    out.Text(K_FAILED_NODE_ID, n.failedNodeId);
    out.Text(K_MESSAGE_ID, n.messageId);
    out.Number(K_OBSERVED_AT, n.observedAt);
    out.Text(K_PROTOCOL_VERSION, n.protocolVersion);
    out.Text(K_REASON, n.reason);
    out.Text(K_REPORTING_NODE_ID, n.reportingNodeId);
    out.Text(K_REQUEST_ID, n.requestId);
    out.Text(K_SIGNATURE_ALGORITHM, n.signatureAlgorithm);
    text := out.Close();
  }

  method SignedFailureNoticeJson(n: Notice) returns (text: bytes)
    ensures text == SignedNotice(n)
  {
    hide ObjectStream.Valid, AllPlain;
    NoticeFieldsPlain(n);
    var out := new ObjectStream(SignedNoticeFields(n));
    out.Text(K_FAILED_NODE_ID, n.failedNodeId);
    out.Text(K_MESSAGE_ID, n.messageId);
    out.Number(K_OBSERVED_AT, n.observedAt);
    out.Text(K_PROTOCOL_VERSION, n.protocolVersion);
    out.Text(K_REASON, n.reason);
    out.Text(K_REPORTING_NODE_ID, n.reportingNodeId);
    out.Text(K_REQUEST_ID, n.requestId);
    out.Text(K_SIGNATURE, n.signature);
    out.Text(K_SIGNATURE_ALGORITHM, n.signatureAlgorithm);
    text := out.Close();
  }

  // ---- Envelopes ----

  const JOB_REQUEST: bytes := "JOB_REQUEST"
  const JOB_RESULT: bytes := "JOB_RESULT"
  const FAILURE_NOTICE: bytes := "FAILURE_NOTICE"

  function RequestEnvelope(r: Request): bytes {
    Joined(SignedRequest(r), JOB_REQUEST)
  }

  function ResultEnvelope(r: JobReply): bytes {
    Joined(SignedResult(r), JOB_RESULT)
  }

  function NoticeEnvelope(n: Notice): bytes {
    Joined(SignedNotice(n), FAILURE_NOTICE)
  }

  method JobRequestEnvelopeJson(r: Request) returns (text: bytes)
    ensures text == RequestEnvelope(r)
  {
    var payload := SignedJobRequestJson(r);
    text := Joined(payload, JOB_REQUEST);
  }

  method JobResultEnvelopeJson(r: JobReply) returns (text: bytes)
    ensures text == ResultEnvelope(r)
  {
    var payload := SignedJobResultJson(r);
    text := Joined(payload, JOB_RESULT);
  }

  method FailureNoticeEnvelopeJson(n: Notice) returns (text: bytes)
    ensures text == NoticeEnvelope(n)
  {
    var payload := SignedFailureNoticeJson(n);
    text := Joined(payload, FAILURE_NOTICE);
  }

  // ---- Parsing the two kinds of reply ----

  const RESULT_SLOTS: seq<Slot> := [
    NumberSlot(K_COMPLETED_AT), TextSlot(K_MESSAGE_ID), TextSlot(K_PAYLOAD), TextSlot(K_PROTOCOL_VERSION),
    TextSlot(K_RECIPIENT_NODE_ID), TextSlot(K_REQUEST_ID), TextSlot(K_RESPONDER_NODE_ID),
    TextSlot(K_SIGNATURE), TextSlot(K_SIGNATURE_ALGORITHM), TextSlot(K_STATUS)]

  const NOTICE_SLOTS: seq<Slot> := [
    TextSlot(K_FAILED_NODE_ID), TextSlot(K_MESSAGE_ID), NumberSlot(K_OBSERVED_AT),
    TextSlot(K_PROTOCOL_VERSION), TextSlot(K_REASON), TextSlot(K_REPORTING_NODE_ID), TextSlot(K_REQUEST_ID),
    TextSlot(K_SIGNATURE), TextSlot(K_SIGNATURE_ALGORITHM)]

  function TextAt(values: seq<Value>, i: nat): bytes {
    if i < |values| && values[i].TextValue? then values[i].text else []
  }

  function NumberAt(values: seq<Value>, i: nat): int {
    if i < |values| && values[i].NumberValue? then values[i].number else 0
  }

  function ResultOf(values: seq<Value>): JobReply {
    JobResult(TextAt(values, 3), TextAt(values, 1), TextAt(values, 5), TextAt(values, 6), TextAt(values, 4),
              TextAt(values, 9), TextAt(values, 2), NumberAt(values, 0), TextAt(values, 8), TextAt(values, 7))
  }

  function NoticeOf(values: seq<Value>): Notice {
    FailureNotice(TextAt(values, 3), TextAt(values, 1), TextAt(values, 6), TextAt(values, 5), TextAt(values, 0),
                  TextAt(values, 4), NumberAt(values, 2), TextAt(values, 8), TextAt(values, 7))
  }

  /** The values of a record's fields in printed order. */
  function ResultValues(r: JobReply): seq<Value> {
    [NumberValue(r.completedAt), TextValue(r.messageId), TextValue(r.payload), TextValue(r.protocolVersion),
     TextValue(r.recipientNodeId), TextValue(r.requestId), TextValue(r.responderNodeId),
     TextValue(r.signature), TextValue(r.signatureAlgorithm), TextValue(r.status)]
  }

  function NoticeValues(n: Notice): seq<Value> {
    [TextValue(n.failedNodeId), TextValue(n.messageId), NumberValue(n.observedAt), TextValue(n.protocolVersion),
     TextValue(n.reason), TextValue(n.reportingNodeId), TextValue(n.requestId),
     TextValue(n.signature), TextValue(n.signatureAlgorithm)]
  }

  lemma ResultOfValues(r: JobReply)
    ensures ResultOf(ResultValues(r)) == r
  {
  }

  lemma NoticeOfValues(n: Notice)
    ensures NoticeOf(NoticeValues(n)) == n
  {
  }

  ghost predicate AreResultSlots(slots: seq<Slot>) {
    |slots| == 10 &&
    slots[0] == NumberSlot(K_COMPLETED_AT) && slots[1] == TextSlot(K_MESSAGE_ID) &&
    slots[2] == TextSlot(K_PAYLOAD) && slots[3] == TextSlot(K_PROTOCOL_VERSION) &&
    slots[4] == TextSlot(K_RECIPIENT_NODE_ID) && slots[5] == TextSlot(K_REQUEST_ID) &&
    slots[6] == TextSlot(K_RESPONDER_NODE_ID) && slots[7] == TextSlot(K_SIGNATURE) &&
    slots[8] == TextSlot(K_SIGNATURE_ALGORITHM) && slots[9] == TextSlot(K_STATUS)
  }

  ghost predicate AreNoticeSlots(slots: seq<Slot>) {
    |slots| == 9 &&
    slots[0] == TextSlot(K_FAILED_NODE_ID) && slots[1] == TextSlot(K_MESSAGE_ID) &&
    slots[2] == NumberSlot(K_OBSERVED_AT) && slots[3] == TextSlot(K_PROTOCOL_VERSION) &&
    slots[4] == TextSlot(K_REASON) && slots[5] == TextSlot(K_REPORTING_NODE_ID) &&
    slots[6] == TextSlot(K_REQUEST_ID) && slots[7] == TextSlot(K_SIGNATURE) &&
    slots[8] == TextSlot(K_SIGNATURE_ALGORITHM)
  }

  function EnvelopePayload(json: bytes, expected: bytes): Result<bytes, Error> {
    var (payload, kind) :- SplitEnvelope(json);
    if kind != expected then Throws(WrongType) else Ok(payload)
  }

  function ParseResult(json: bytes): Result<JobReply, Error> {
    var payload :- EnvelopePayload(json, JOB_RESULT);
    var values :- ReadObject(payload, RESULT_SLOTS);
    Ok(ResultOf(values))
  }

  function ParseNotice(json: bytes): Result<Notice, Error> {
    var payload :- EnvelopePayload(json, FAILURE_NOTICE);
    var values :- ReadObject(payload, NOTICE_SLOTS);
    Ok(NoticeOf(values))
  }

  function EnvelopeType(json: bytes): Result<bytes, Error> {
    var (_, kind) :- SplitEnvelope(json);
    Ok(kind)
  }

  method WireEnvelopeType(json: bytes) returns (kind: Result<bytes, Error>)
    ensures kind == EnvelopeType(json)
  {
    var parts :- Split(json);
    return Ok(parts.1);
  }

  method ParseJobResultEnvelope(json: bytes) returns (result: Result<JobReply, Error>)
    ensures result == ParseResult(json)
  {
    var parts :- Split(json);
    if parts.1 != JOB_RESULT {
      return Throws(WrongType);
    }
    result := ParseResultPayload(parts.0, RESULT_SLOTS);
  }

  /** The first five members of a result. */
  method NextResultHead(r: FlatJsonReader, ghost slots: seq<Slot>)
      returns (v: Result<(int64, bytes, bytes, bytes, bytes), Error>)
    requires r.Valid() && AreResultSlots(slots)
    modifies r
    ensures r.Valid()
    ensures v.Ok? ==> ReadMembers(old(r.Rest()), slots, '{', []) ==
                      ReadMembers(r.Rest(), slots[5..], ',',
                        [NumberValue(v.value.0), TextValue(v.value.1), TextValue(v.value.2),
                         TextValue(v.value.3), TextValue(v.value.4)])
    ensures v.Throws? ==> ReadMembers(old(r.Rest()), slots, '{', []) == Throws(v.error)
  {
    hide ReadMembers, FlatJsonReader.Rest, FlatJsonReader.Valid, FlatJsonReader.Done, ResultOf, NoticeOf;
    assert slots[0..] == slots;
    ghost var done: seq<Value> := [];
    var completedAt :- NextNumber(r, K_COMPLETED_AT, slots, 0, done);
    done := done + [NumberValue(completedAt)];
    var messageId :- NextText(r, K_MESSAGE_ID, slots, 1, done);
    done := done + [TextValue(messageId)];
    var payload :- NextText(r, K_PAYLOAD, slots, 2, done);
    done := done + [TextValue(payload)];
    var protocolVersion :- NextText(r, K_PROTOCOL_VERSION, slots, 3, done);
    done := done + [TextValue(protocolVersion)];
    var recipientNodeId :- NextText(r, K_RECIPIENT_NODE_ID, slots, 4, done);
    done := done + [TextValue(recipientNodeId)];
    assert done == [NumberValue(completedAt), TextValue(messageId), TextValue(payload),
                    TextValue(protocolVersion), TextValue(recipientNodeId)];
    return Ok((completedAt, messageId, payload, protocolVersion, recipientNodeId));
  }

  method ParseResultPayload(payload: bytes, ghost slots: seq<Slot>) returns (result: Result<JobReply, Error>)
    requires AreResultSlots(slots)
    ensures result == match ReadObject(payload, slots)
                      case Ok(values) => Ok(ResultOf(values))
                      case Throws(e) => Throws(e)
  {
    hide ReadMembers, FlatJsonReader.Rest, FlatJsonReader.Valid, FlatJsonReader.Done, ResultOf, NoticeOf;
    var r := new FlatJsonReader(payload);
    var head :- NextResultHead(r, slots);
    ghost var done := [NumberValue(head.0), TextValue(head.1), TextValue(head.2), TextValue(head.3), TextValue(head.4)];
    var requestId :- NextText(r, K_REQUEST_ID, slots, 5, done);
    done := done + [TextValue(requestId)];
    var responderNodeId :- NextText(r, K_RESPONDER_NODE_ID, slots, 6, done);
    done := done + [TextValue(responderNodeId)];
    var signature :- NextText(r, K_SIGNATURE, slots, 7, done);
    done := done + [TextValue(signature)];
    var signatureAlgorithm :- NextText(r, K_SIGNATURE_ALGORITHM, slots, 8, done);
    done := done + [TextValue(signatureAlgorithm)];
    var status :- NextText(r, K_STATUS, slots, 9, done);
    done := done + [TextValue(status)];
    assert slots[10..] == [];
    var _ :- Finish(r, done);
    var parsed := JobResult(head.3, head.1, requestId, responderNodeId, head.4,
                            status, head.2, head.0, signatureAlgorithm, signature);
    assert done == ResultValues(parsed);
    ResultOfValues(parsed);
    return Ok(parsed);
  }

  method ParseFailureNoticeEnvelope(json: bytes) returns (result: Result<Notice, Error>)
    ensures result == ParseNotice(json)
  {
    var parts :- Split(json);
    if parts.1 != FAILURE_NOTICE {
      return Throws(WrongType);
    }
    result := ParseNoticePayload(parts.0, NOTICE_SLOTS);
  }

  /** The first five members of a notice. */
  method NextNoticeHead(r: FlatJsonReader, ghost slots: seq<Slot>)
      returns (v: Result<(bytes, bytes, int64, bytes, bytes), Error>)
    requires r.Valid() && AreNoticeSlots(slots)
    modifies r
    ensures r.Valid()
    ensures v.Ok? ==> ReadMembers(old(r.Rest()), slots, '{', []) ==
                      ReadMembers(r.Rest(), slots[5..], ',',
                        [TextValue(v.value.0), TextValue(v.value.1), NumberValue(v.value.2),
                         TextValue(v.value.3), TextValue(v.value.4)])
    ensures v.Throws? ==> ReadMembers(old(r.Rest()), slots, '{', []) == Throws(v.error)
  {
    hide ReadMembers, FlatJsonReader.Rest, FlatJsonReader.Valid, FlatJsonReader.Done, ResultOf, NoticeOf;
    assert slots[0..] == slots;
    ghost var done: seq<Value> := [];
    var failedNodeId :- NextText(r, K_FAILED_NODE_ID, slots, 0, done);
    done := done + [TextValue(failedNodeId)];
    var messageId :- NextText(r, K_MESSAGE_ID, slots, 1, done);
    done := done + [TextValue(messageId)];
    var observedAt :- NextNumber(r, K_OBSERVED_AT, slots, 2, done);
    done := done + [NumberValue(observedAt)];
    var protocolVersion :- NextText(r, K_PROTOCOL_VERSION, slots, 3, done);
    done := done + [TextValue(protocolVersion)];
    var reason :- NextText(r, K_REASON, slots, 4, done);
    done := done + [TextValue(reason)];
    assert done == [TextValue(failedNodeId), TextValue(messageId), NumberValue(observedAt),
                    TextValue(protocolVersion), TextValue(reason)];
    return Ok((failedNodeId, messageId, observedAt, protocolVersion, reason));
  }

  method ParseNoticePayload(payload: bytes, ghost slots: seq<Slot>) returns (result: Result<Notice, Error>)
    requires AreNoticeSlots(slots)
    ensures result == match ReadObject(payload, slots)
                      case Ok(values) => Ok(NoticeOf(values))
                      case Throws(e) => Throws(e)
  {
    hide ReadMembers, FlatJsonReader.Rest, FlatJsonReader.Valid, FlatJsonReader.Done, ResultOf, NoticeOf;
    var r := new FlatJsonReader(payload);
    var head :- NextNoticeHead(r, slots);
    ghost var done := [TextValue(head.0), TextValue(head.1), NumberValue(head.2), TextValue(head.3), TextValue(head.4)];
    var reportingNodeId :- NextText(r, K_REPORTING_NODE_ID, slots, 5, done);
    done := done + [TextValue(reportingNodeId)];
    var requestId :- NextText(r, K_REQUEST_ID, slots, 6, done);
    done := done + [TextValue(requestId)];
    var signature :- NextText(r, K_SIGNATURE, slots, 7, done);
    done := done + [TextValue(signature)];
    var signatureAlgorithm :- NextText(r, K_SIGNATURE_ALGORITHM, slots, 8, done);
    done := done + [TextValue(signatureAlgorithm)];
    assert slots[9..] == [];
    var _ :- Finish(r, done);
    var parsed := FailureNotice(head.3, head.1, requestId, reportingNodeId, head.0,
                                head.4, head.2, signatureAlgorithm, signature);
    assert done == NoticeValues(parsed);
    NoticeOfValues(parsed);
    return Ok(parsed);
  }
}
