/** The printed texts, member by member: the order of the members, how their keys are
    spelled, and which field stands under which key. */
module Layout {
  import opened Bytes
  import opened JsonGrammar
  import opened FlatObject
  import opened JsonPrinter
  import opened Envelope
  import opened Messages

  // A key and the text of its value.
  datatype Entry = Entry(key: bytes, value: bytes)

  /** Entries as the builders stream them: separator, quoted key, colon and value. */
  function Streamed(entries: seq<Entry>, sep: byte): bytes {
    if entries == [] then ['}']
    else [sep] + (['"'] + entries[0].key + ['"', ':'] + (entries[0].value + Streamed(entries[1..], ',')))
  }

  function EntryOf(f: Field<bytes>): Entry {
    Entry(f.key, ScalarText(ByteScalar(f)))
  }

  predicate Lists(entries: seq<Entry>, fs: seq<Field<bytes>>) {
    |entries| == |fs| && forall i | 0 <= i < |fs| :: entries[i] == EntryOf(fs[i])
  }

  lemma {:induction false} MembersAreStreamed(entries: seq<Entry>, fs: seq<Field<bytes>>, sep: byte)
    requires AllPlain(fs) && Lists(entries, fs)
    ensures MembersText(ByteMembers(fs), sep) == Streamed(entries, sep)
    decreases |fs|
  {
    if fs != [] {
      MembersAreStreamed(entries[1..], fs[1..], ',');
      assert ByteMembers(fs)[1..] == ByteMembers(fs[1..]);
      LabelIsKey(fs[0].key);
      Assoc(Label(fs[0].key), ScalarText(ByteScalar(fs[0])), Streamed(entries[1..], ','));
    }
  }

  /** json_string. */
  function Str(value: bytes): bytes {
    Quoted(BytePieces(value))
  }

  /** A number put on a stream. */
  function Num(n: int): bytes {
    ScalarText(IntScalar(n))
  }

  /** The value of organization_id. */
  function OrNull(value: bytes): bytes {
    if value == [] then ['n', 'u', 'l', 'l'] else Str(value)
  }

  lemma KeysSpelled()
    ensures K_COMPLETED_AT == "completed_at"
    ensures K_EXPIRES_AT == "expires_at"
    ensures K_FAILED_NODE_ID == "failed_node_id"
    ensures K_ISSUED_AT == "issued_at"
    ensures K_MESSAGE_ID == "message_id"
    ensures K_OBSERVED_AT == "observed_at"
    ensures K_OPERATION == "operation"
    ensures K_ORGANIZATION_ID == "organization_id"
    ensures K_PAYLOAD == "payload"
    ensures K_PROTOCOL_VERSION == "protocol_version"
    ensures K_REASON == "reason"
    ensures K_RECIPIENT_NODE_ID == "recipient_node_id"
    ensures K_REPORTING_NODE_ID == "reporting_node_id"
    ensures K_REQUEST_ID == "request_id"
    ensures K_RESPONDER_NODE_ID == "responder_node_id"
    ensures K_SENDER_NODE_ID == "sender_node_id"
    ensures K_SIGNATURE == "signature"
    ensures K_SIGNATURE_ALGORITHM == "signature_algorithm"
    ensures K_STATUS == "status"
    ensures K_TARGET_NODE_ID == "target_node_id"
  {
  }

  function CanonicalRequestEntries(r: Request): seq<Entry> {
    [Entry(K_EXPIRES_AT, Num(r.expiresAt)), Entry(K_ISSUED_AT, Num(r.issuedAt)),
     Entry(K_MESSAGE_ID, Str(r.messageId)), Entry(K_OPERATION, Str(r.operation)),
     Entry(K_ORGANIZATION_ID, OrNull(r.organizationId)), Entry(K_PAYLOAD, Str(r.payload)),
     Entry(K_PROTOCOL_VERSION, Str(r.protocolVersion)), Entry(K_REQUEST_ID, Str(r.requestId)),
     Entry(K_SENDER_NODE_ID, Str(r.senderNodeId)), Entry(K_SIGNATURE_ALGORITHM, Str(r.signatureAlgorithm)),
     Entry(K_TARGET_NODE_ID, Str(r.targetNodeId))]
  }

  function SignedRequestEntries(r: Request): seq<Entry> {
    [Entry(K_EXPIRES_AT, Num(r.expiresAt)), Entry(K_ISSUED_AT, Num(r.issuedAt)),
     Entry(K_MESSAGE_ID, Str(r.messageId)), Entry(K_OPERATION, Str(r.operation)),
     Entry(K_ORGANIZATION_ID, OrNull(r.organizationId)), Entry(K_PAYLOAD, Str(r.payload)),
     Entry(K_PROTOCOL_VERSION, Str(r.protocolVersion)), Entry(K_REQUEST_ID, Str(r.requestId)),
     Entry(K_SENDER_NODE_ID, Str(r.senderNodeId)), Entry(K_SIGNATURE, Str(r.signature)),
     Entry(K_SIGNATURE_ALGORITHM, Str(r.signatureAlgorithm)), Entry(K_TARGET_NODE_ID, Str(r.targetNodeId))]
  }

  function CanonicalResultEntries(r: JobReply): seq<Entry> {
    [Entry(K_COMPLETED_AT, Num(r.completedAt)), Entry(K_MESSAGE_ID, Str(r.messageId)),
     Entry(K_PAYLOAD, Str(r.payload)), Entry(K_PROTOCOL_VERSION, Str(r.protocolVersion)),
     Entry(K_RECIPIENT_NODE_ID, Str(r.recipientNodeId)), Entry(K_REQUEST_ID, Str(r.requestId)),
     Entry(K_RESPONDER_NODE_ID, Str(r.responderNodeId)), Entry(K_SIGNATURE_ALGORITHM, Str(r.signatureAlgorithm)),
     Entry(K_STATUS, Str(r.status))]
  }

  function SignedResultEntries(r: JobReply): seq<Entry> {
    [Entry(K_COMPLETED_AT, Num(r.completedAt)), Entry(K_MESSAGE_ID, Str(r.messageId)),
     Entry(K_PAYLOAD, Str(r.payload)), Entry(K_PROTOCOL_VERSION, Str(r.protocolVersion)),
     Entry(K_RECIPIENT_NODE_ID, Str(r.recipientNodeId)), Entry(K_REQUEST_ID, Str(r.requestId)),
     Entry(K_RESPONDER_NODE_ID, Str(r.responderNodeId)), Entry(K_SIGNATURE, Str(r.signature)),
     Entry(K_SIGNATURE_ALGORITHM, Str(r.signatureAlgorithm)), Entry(K_STATUS, Str(r.status))]
  }

  function CanonicalNoticeEntries(n: Notice): seq<Entry> {
    [Entry(K_FAILED_NODE_ID, Str(n.failedNodeId)), Entry(K_MESSAGE_ID, Str(n.messageId)),
     Entry(K_OBSERVED_AT, Num(n.observedAt)), Entry(K_PROTOCOL_VERSION, Str(n.protocolVersion)),
     Entry(K_REASON, Str(n.reason)), Entry(K_REPORTING_NODE_ID, Str(n.reportingNodeId)),
     Entry(K_REQUEST_ID, Str(n.requestId)), Entry(K_SIGNATURE_ALGORITHM, Str(n.signatureAlgorithm))]
  }

  function SignedNoticeEntries(n: Notice): seq<Entry> {
    [Entry(K_FAILED_NODE_ID, Str(n.failedNodeId)), Entry(K_MESSAGE_ID, Str(n.messageId)),
     Entry(K_OBSERVED_AT, Num(n.observedAt)), Entry(K_PROTOCOL_VERSION, Str(n.protocolVersion)),
     Entry(K_REASON, Str(n.reason)), Entry(K_REPORTING_NODE_ID, Str(n.reportingNodeId)),
     Entry(K_REQUEST_ID, Str(n.requestId)), Entry(K_SIGNATURE, Str(n.signature)),
     Entry(K_SIGNATURE_ALGORITHM, Str(n.signatureAlgorithm))]
  }

  lemma CanonicalRequestLayout(r: Request)
    ensures CanonicalRequest(r) == Streamed(CanonicalRequestEntries(r), '{')
  {
    var fs, entries := RequestFields(r, OrganizationField(r.organizationId)), CanonicalRequestEntries(r);
    RequestFieldsPlain(r, OrganizationField(r.organizationId));
    CanonicalRequestListed(r);
    MembersAreStreamed(entries, fs, '{');
  }

  lemma CanonicalRequestListed(r: Request)
    ensures Lists(CanonicalRequestEntries(r), RequestFields(r, OrganizationField(r.organizationId)))
  {
    hide Quoted, BytePieces, IntScalar;
  }

  lemma SignedRequestLayout(r: Request)
    ensures SignedRequest(r) == Streamed(SignedRequestEntries(r), '{')
  {
    var fs, entries := SignedRequestFields(r, OrganizationField(r.organizationId)), SignedRequestEntries(r);
    RequestFieldsPlain(r, OrganizationField(r.organizationId));
    SignedRequestListed(r);
    MembersAreStreamed(entries, fs, '{');
  }

  lemma SignedRequestListed(r: Request)
    ensures Lists(SignedRequestEntries(r), SignedRequestFields(r, OrganizationField(r.organizationId)))
  {
    hide Quoted, BytePieces, IntScalar;
  }

  lemma CanonicalResultLayout(r: JobReply)
    ensures CanonicalResult(r) == Streamed(CanonicalResultEntries(r), '{')
  {
    var fs, entries := ResultFields(r), CanonicalResultEntries(r);
    ResultFieldsPlain(r);
    CanonicalResultListed(r);
    MembersAreStreamed(entries, fs, '{');
  }

  lemma CanonicalResultListed(r: JobReply)
    ensures Lists(CanonicalResultEntries(r), ResultFields(r))
  {
    hide Quoted, BytePieces, IntScalar;
  }

  lemma SignedResultLayout(r: JobReply)
    ensures SignedResult(r) == Streamed(SignedResultEntries(r), '{')
  {
    var fs, entries := SignedResultFields(r), SignedResultEntries(r);
    ResultFieldsPlain(r);
    SignedResultListed(r);
    MembersAreStreamed(entries, fs, '{');
  }

  lemma SignedResultListed(r: JobReply)
    ensures Lists(SignedResultEntries(r), SignedResultFields(r))
  {
    hide Quoted, BytePieces, IntScalar;
  }

  lemma CanonicalNoticeLayout(n: Notice)
    ensures CanonicalNotice(n) == Streamed(CanonicalNoticeEntries(n), '{')
  {
    var fs, entries := NoticeFields(n), CanonicalNoticeEntries(n);
    NoticeFieldsPlain(n);
    CanonicalNoticeListed(n);
    MembersAreStreamed(entries, fs, '{');
  }

  lemma CanonicalNoticeListed(n: Notice)
    ensures Lists(CanonicalNoticeEntries(n), NoticeFields(n))
  {
    hide Quoted, BytePieces, IntScalar;
  }

  lemma SignedNoticeLayout(n: Notice)
    ensures SignedNotice(n) == Streamed(SignedNoticeEntries(n), '{')
  {
    var fs, entries := SignedNoticeFields(n), SignedNoticeEntries(n);
    NoticeFieldsPlain(n);
    SignedNoticeListed(n);
    MembersAreStreamed(entries, fs, '{');
  }

  lemma SignedNoticeListed(n: Notice)
    ensures Lists(SignedNoticeEntries(n), SignedNoticeFields(n))
  {
    hide Quoted, BytePieces, IntScalar;
  }

  /** The envelopes around them. */
  lemma EnvelopeLayouts(r: Request, s: JobReply, n: Notice)
    ensures RequestEnvelope(r) == "{\"payload\":" + (SignedRequest(r) + ",\"type\":\"JOB_REQUEST\"}")
    ensures ResultEnvelope(s) == "{\"payload\":" + (SignedResult(s) + ",\"type\":\"JOB_RESULT\"}")
    ensures NoticeEnvelope(n) == "{\"payload\":" + (SignedNotice(n) + ",\"type\":\"FAILURE_NOTICE\"}")
  {
    hide SignedRequest, SignedResult, SignedNotice;
    assert TYPE_PREFIX + (JOB_REQUEST + ['"', '}']) == ",\"type\":\"JOB_REQUEST\"}";
    assert TYPE_PREFIX + (JOB_RESULT + ['"', '}']) == ",\"type\":\"JOB_RESULT\"}";
    assert TYPE_PREFIX + (FAILURE_NOTICE + ['"', '}']) == ",\"type\":\"FAILURE_NOTICE\"}";
  }
}
