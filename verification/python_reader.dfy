/** The independent Python reader, json.loads: how it sees the requests that C++ sends,
    and when it verifies their signatures. */
module PythonReader {
  import opened Bytes
  import opened JsonGrammar
  import opened JsonReader
  import opened FlatObject
  import opened JsonPrinter
  import opened Envelope
  import opened Messages
  import opened CanonicalForms
  import opened PythonWire
  import opened TokenUtf8
  import opened Signing
  import Base64Url
  import Utf8

  // ---- json.loads of a flat object ----

  /** A number as section 6 of RFC 8259 writes an integer, without leading zeros. */
  predicate JsonNumber(v: Scalar) {
    v.Number? && WellFormedScalar(v) && (v.digits[0] == '0' ==> |v.digits| == 1)
  }

  /** The member is read as the item; a token is read as the string whose UTF-8 form it
      means. */
  predicate ReadsAs(m: Member, f: Field<string>) {
    AllWellFormed(m.key) && MeaningOf(m.key) == f.key && WellFormedScalar(m.scalar) &&
    match f
    case TextField(_, text) => m.scalar.Token? && MeaningOf(m.scalar.ps) == Utf8.EncodeText(text)
    case NumberField(_, n) => JsonNumber(m.scalar) && ValueOf(m.scalar) == NumberValue(n)
    case NullField(_) => m.scalar.Null?
  }

  predicate AllReadAs(ms: seq<Member>, items: seq<Field<string>>) {
    |ms| == |items| && forall i | 0 <= i < |ms| :: ReadsAs(ms[i], items[i])
  }

  /** json.loads reads the text as a dict of these items, in this order. */
  ghost predicate IsLoads(text: bytes, items: seq<Field<string>>) {
    exists ms :: AllReadAs(ms, items) && text == ObjectText(ms)
  }

  /** recv_frame accepts the body, which must be UTF-8, with this type and payload. */
  ghost predicate IsReceived(body: bytes, kind: bytes, items: seq<Field<string>>) {
    Utf8.Valid(body) && exists payload :: IsLoads(payload, items) && body == Joined(payload, kind)
  }

  // ---- Reading is unambiguous ----

  lemma KindFromText(v: Scalar, w: Scalar, x: bytes, y: bytes)
    requires WellFormedScalar(v) && WellFormedScalar(w) && ScalarText(v) + x == ScalarText(w) + y
    ensures SameKind(v, w)
  {
    assert (ScalarText(v) + x)[0] == ScalarText(v)[0] && (ScalarText(w) + y)[0] == ScalarText(w)[0];
    if v.Number? && !v.negative {
      assert IsDigit(v.digits[0]);
    }
    if w.Number? && !w.negative {
      assert IsDigit(w.digits[0]);
    }
  }

  lemma ItemsAgree(m: Member, n: Member, f: Field<string>, g: Field<string>, x: bytes, y: bytes)
    requires ReadsAs(m, f) && ReadsAs(n, g) && StopsNumber(x) && StopsNumber(y)
    requires MemberText(m) + x == MemberText(n) + y
    ensures f == g && x == y
  {
    hide WellFormedScalar, AllWellFormed, MeaningOf, ValueOf, ScalarText, StopsNumber, JsonNumber, Quoted;
    MemberThen(m, x);
    MemberThen(n, y);
    TokensPrefixFree(m.key, n.key, [':'] + (ScalarText(m.scalar) + x), [':'] + (ScalarText(n.scalar) + y));
    CancelLeft([':'], ScalarText(m.scalar) + x, ScalarText(n.scalar) + y);
    KindFromText(m.scalar, n.scalar, x, y);
    ScalarsPrefixFree(m.scalar, n.scalar, x, y);
    ScalarsAsItems(m, n, f, g);
  }

  lemma MemberThen(m: Member, x: bytes)
    ensures MemberText(m) + x == Quoted(m.key) + ([':'] + (ScalarText(m.scalar) + x))
  {
    Assoc(KeyText(m.key), ScalarText(m.scalar), x);
    Assoc(Quoted(m.key), [':'], ScalarText(m.scalar) + x);
  }

  lemma ScalarsAsItems(m: Member, n: Member, f: Field<string>, g: Field<string>)
    requires ReadsAs(m, f) && ReadsAs(n, g) && f.key == g.key
    requires SameKind(m.scalar, n.scalar) && m.scalar.Null? == n.scalar.Null?
    requires !m.scalar.Null? ==> ValueOf(m.scalar) == ValueOf(n.scalar)
    ensures f == g
  {
    if f.TextField? && g.TextField? {
      Utf8.TextRoundTrip(f.text);
      Utf8.TextRoundTrip(g.text);
    }
  }

  lemma {:induction false} LoadsAgree(ms: seq<Member>, ns: seq<Member>, fs: seq<Field<string>>, gs: seq<Field<string>>, sep: byte)
    requires AllReadAs(ms, fs) && AllReadAs(ns, gs) && sep != '}'
    requires MembersText(ms, sep) == MembersText(ns, sep)
    ensures fs == gs
    decreases |ms|
  {
    hide ReadsAs, MemberText;
    assert (ms == [] <==> MembersText(ms, sep)[0] == '}') && (ns == [] <==> MembersText(ns, sep)[0] == '}');
    if ms != [] {
      var x, y := MembersText(ms[1..], ','), MembersText(ns[1..], ',');
      CancelLeft([sep], MemberText(ms[0]) + x, MemberText(ns[0]) + y);
      ItemsAgree(ms[0], ns[0], fs[0], gs[0], x, y);
      LoadsAgree(ms[1..], ns[1..], fs[1..], gs[1..], ',');
      assert fs == [fs[0]] + fs[1..] && gs == [gs[0]] + gs[1..];
    }
  }

  /** A text is read as at most one list of items. */
  lemma LoadsOnce(text: bytes, fs: seq<Field<string>>, gs: seq<Field<string>>)
    requires IsLoads(text, fs) && IsLoads(text, gs)
    ensures fs == gs
  {
    var ms :| AllReadAs(ms, fs) && text == ObjectText(ms);
    var ns :| AllReadAs(ns, gs) && text == ObjectText(ns);
    LoadsAgree(ms, ns, fs, gs, '{');
  }

  // ---- Which texts are UTF-8 ----

  predicate Utf8Member(m: Member)
    requires WellFormedMember(m)
  {
    Utf8.Valid(MeaningOf(m.key)) && (m.scalar.Token? ==> Utf8.Valid(MeaningOf(m.scalar.ps)))
  }

  lemma ScalarKeepsUtf8(v: Scalar)
    requires WellFormedScalar(v)
    ensures Utf8.Valid(ScalarText(v)) <==> (v.Token? ==> Utf8.Valid(MeaningOf(v.ps)))
  {
    if v.Token? {
      QuotedKeepsUtf8(v.ps);
    } else {
      AsciiIsValid(ScalarText(v));
    }
  }

  lemma MemberKeepsUtf8(m: Member)
    requires WellFormedMember(m)
    ensures Utf8.Valid(MemberText(m)) <==> Utf8Member(m)
  {
    hide Utf8.Valid;
    Assoc(Quoted(m.key), [':'], ScalarText(m.scalar));
    ValidAroundAscii(Quoted(m.key), ':', ScalarText(m.scalar));
    QuotedKeepsUtf8(m.key);
    ScalarKeepsUtf8(m.scalar);
  }

  lemma NothingIsValid()
    ensures Utf8.Valid([])
  {
  }

  lemma MembersFront(ms: seq<Member>, sep: byte)
    ensures MembersText(ms, sep) == [if ms == [] then '}' else sep] + MembersText(ms, sep)[1..]
  {
  }

  /** An object is UTF-8 if and only if all its keys and strings mean UTF-8. */
  lemma {:induction false} MembersKeepUtf8(ms: seq<Member>, sep: byte)
    requires WellFormedMembers(ms) && sep as int < 0x80
    ensures Utf8.Valid(MembersText(ms, sep)) <==> forall i | 0 <= i < |ms| :: Utf8Member(ms[i])
    decreases |ms|
  {
    hide Utf8.Valid, MemberText, WellFormedMember, Utf8Member;
    NothingIsValid();
    MembersFront(ms, sep);
    ValidAroundAscii([], MembersText(ms, sep)[0], MembersText(ms, sep)[1..]);
    assert [] + MembersText(ms, sep) == MembersText(ms, sep);
    if ms != [] {
      var tail := MembersText(ms[1..], ',');
      assert MembersText(ms, sep)[1..] == MemberText(ms[0]) + tail;
      MembersFront(ms[1..], ',');
      ValidAroundAscii(MemberText(ms[0]), tail[0], tail[1..]);
      ValidAroundAscii([], tail[0], tail[1..]);
      assert [] + tail == tail;
      MemberKeepsUtf8(ms[0]);
      MembersKeepUtf8(ms[1..], ',');
      assert forall i | 1 <= i < |ms| :: ms[i] == ms[1..][i - 1];
    }
  }

  predicate AllAscii(s: bytes) {
    forall i | 0 <= i < |s| :: s[i] as int < 0x80
  }

  lemma FrameIsAscii()
    ensures AllAscii(PREFIX) && TYPE_PREFIX == [','] + TYPE_PREFIX[1..] && AllAscii(TYPE_PREFIX[1..])
    ensures AllAscii(['"', '}'])
  {
  }

  lemma AllAsciiConcat(a: bytes, b: bytes)
    requires AllAscii(a) && AllAscii(b)
    ensures AllAscii(a + b)
  {
  }

  lemma EnvelopeKeepsUtf8(payload: bytes, kind: bytes)
    requires AllAscii(kind)
    ensures Utf8.Valid(Joined(payload, kind)) <==> Utf8.Valid(payload)
  {
    hide Utf8.Valid, AllAscii;
    FrameIsAscii();
    var close: bytes := ['"', '}'];
    var front := TYPE_PREFIX[1..];
    AllAsciiConcat(kind, close);
    AllAsciiConcat(front, kind + close);
    AsciiIsValid(PREFIX);
    AsciiIsValid(front + (kind + close));
    AroundPayload(PREFIX, payload, front + (kind + close));
    Assoc([','], front, kind + close);
  }

  lemma AroundPayload(prefix: bytes, payload: bytes, rest: bytes)
    requires Utf8.Valid(prefix) && Utf8.Valid(rest)
    ensures Utf8.Valid(prefix + (payload + ([','] + rest))) <==> Utf8.Valid(payload)
  {
    hide Utf8.Valid;
    Utf8.ValidConcat(prefix, payload + ([','] + rest));
    ValidAroundAscii(payload, ',', rest);
  }

  // ---- The request that Python receives ----

  predicate DecodableField(f: Field<bytes>) {
    f.TextField? ==> Utf8.Valid(f.text)
  }

  /** Every string of the request is well-formed UTF-8. */
  predicate Utf8Request(r: Request) {
    Utf8.Valid(r.protocolVersion) && Utf8.Valid(r.messageId) && Utf8.Valid(r.requestId) &&
    Utf8.Valid(r.senderNodeId) && Utf8.Valid(r.targetNodeId) && Utf8.Valid(r.organizationId) &&
    Utf8.Valid(r.operation) && Utf8.Valid(r.payload) && Utf8.Valid(r.signatureAlgorithm) && Utf8.Valid(r.signature)
  }

  /** The Python record: strings decoded, and None where C++ prints null. */
  function RequestInText(r: Request): PyRequest
    requires Utf8Request(r)
  {
    JobRequest(Utf8.DecodeText(r.protocolVersion), Utf8.DecodeText(r.messageId), Utf8.DecodeText(r.requestId),
               Utf8.DecodeText(r.senderNodeId), Utf8.DecodeText(r.targetNodeId),
               if r.organizationId == [] then None else Some(Utf8.DecodeText(r.organizationId)),
               Utf8.DecodeText(r.operation), Utf8.DecodeText(r.payload), r.issuedAt, r.expiresAt,
               Utf8.DecodeText(r.signatureAlgorithm), Utf8.DecodeText(r.signature))
  }

  /** asdict(request), in the order in which C++ prints it. */
  function RequestItems(p: PyRequest): seq<Field<string>> {
    SignedRequestFields(p, RequestOrganization(p.organizationId))
  }

  lemma TextAndBack(r: Request)
    requires Utf8Request(r)
    ensures RequestInUtf8(RequestInText(r)) == r && RequestInText(r).organizationId != Some("")
  {
    hide Utf8.DecodeText, Utf8.EncodeText;
    Utf8.BytesRoundTrip(r.protocolVersion);
    Utf8.BytesRoundTrip(r.messageId);
    Utf8.BytesRoundTrip(r.requestId);
    Utf8.BytesRoundTrip(r.senderNodeId);
    Utf8.BytesRoundTrip(r.targetNodeId);
    Utf8.BytesRoundTrip(r.organizationId);
    Utf8.BytesRoundTrip(r.operation);
    Utf8.BytesRoundTrip(r.payload);
    Utf8.BytesRoundTrip(r.signatureAlgorithm);
    Utf8.BytesRoundTrip(r.signature);
    EmptyInUtf8();
  }

  lemma EmptyInUtf8()
    ensures Utf8.EncodeText("") == []
  {
  }

  lemma {:induction false} DecimalLeads(n: nat)
    ensures Decimal(n)[0] == '0' ==> n == 0
    ensures n == 0 ==> |Decimal(n)| == 1
  {
    if n >= 10 {
      DecimalLeads(n / 10);
      assert Decimal(n)[0] == Decimal(n / 10)[0];
    }
  }

  /** The C++ member of a field is read as the field. */
  lemma ByteMemberReadsAs(f: Field<string>)
    requires Plain(f.key)
    ensures ReadsAs(ByteMember(Utf8Field(f)), f)
  {
    PlainIsRaw(f.key);
    match f
    case TextField(_, text) => BytePiecesMean(Utf8.EncodeText(text));
    case NumberField(_, n) =>
      IntScalarValue(n);
      DecimalLeads(if n < 0 then -n else n);
    case NullField(_) =>
  }

  lemma RequestIsLoaded(p: PyRequest)
    requires p.organizationId != Some("")
    ensures IsLoads(SignedRequest(RequestInUtf8(p)), RequestItems(p))
  {
    hide SignedRequestFields, RequestOrganization, OrganizationField, RequestInUtf8, ReadsAs, Utf8Field;
    var r, items := RequestInUtf8(p), RequestItems(p);
    var fields := SignedRequestFields(r, OrganizationField(r.organizationId));
    Utf8OfSignedRequest(p);
    ItemsPlain(p);
    var ms := ByteMembers(fields);
    forall i | 0 <= i < |ms| ensures ReadsAs(ms[i], items[i]) {
      ByteMemberReadsAs(items[i]);
      assert fields[i] == Utf8Fields(items)[i];
    }
    assert AllReadAs(ms, items) && SignedRequest(r) == ObjectText(ms);
  }

  lemma ItemsPlain(p: PyRequest)
    ensures AllPlain(RequestItems(p))
  {
    RequestFieldsPlain(p, RequestOrganization(p.organizationId));
  }

  lemma Utf8OfSignedEarly(p: PyRequest, o: Field<string>, i: nat)
    requires i < 6
    ensures Utf8Field(SignedRequestFields(p, o)[i]) == SignedRequestFields(RequestInUtf8(p), Utf8Field(o))[i]
  {
    hide Utf8.EncodeText;
  }

  lemma Utf8OfSignedLate(p: PyRequest, o: Field<string>, i: nat)
    requires 6 <= i < 12
    ensures Utf8Field(SignedRequestFields(p, o)[i]) == SignedRequestFields(RequestInUtf8(p), Utf8Field(o))[i]
  {
    hide Utf8.EncodeText;
  }

  lemma Utf8OfSignedRequest(p: PyRequest)
    requires p.organizationId != Some("")
    ensures Utf8Fields(RequestItems(p)) ==
            SignedRequestFields(RequestInUtf8(p), OrganizationField(RequestInUtf8(p).organizationId))
  {
    hide RequestInUtf8, Utf8Field, RequestOrganization, OrganizationField;
    Utf8OfOrganization(p);
    var o := RequestOrganization(p.organizationId);
    forall i | 0 <= i < 12
      ensures Utf8Field(SignedRequestFields(p, o)[i]) == SignedRequestFields(RequestInUtf8(p), Utf8Field(o))[i]
    {
      if i < 6 {
        Utf8OfSignedEarly(p, o, i);
      } else {
        Utf8OfSignedLate(p, o, i);
      }
    }
  }

  // ---- Exactly which C++ requests Python can read ----

  lemma KeysAreAscii(r: Request)
    ensures var fs := SignedRequestFields(r, OrganizationField(r.organizationId));
            forall i | 0 <= i < 12 :: AllAscii(fs[i].key)
  {
    CommonKeysAscii();
    RequestKeysAscii();
    hide AllAscii;
  }

  lemma CommonKeysAscii()
    ensures AllAscii(K_MESSAGE_ID) && AllAscii(K_PAYLOAD) && AllAscii(K_PROTOCOL_VERSION)
    ensures AllAscii(K_REQUEST_ID) && AllAscii(K_SIGNATURE) && AllAscii(K_SIGNATURE_ALGORITHM)
  {
  }

  lemma RequestKeysAscii()
    ensures AllAscii(K_EXPIRES_AT) && AllAscii(K_ISSUED_AT) && AllAscii(K_OPERATION)
    ensures AllAscii(K_ORGANIZATION_ID) && AllAscii(K_SENDER_NODE_ID) && AllAscii(K_TARGET_NODE_ID)
  {
  }

  lemma ByteMemberUtf8(f: Field<bytes>)
    requires Plain(f.key) && AllAscii(f.key)
    ensures WellFormedMember(ByteMember(f)) && (Utf8Member(ByteMember(f)) <==> DecodableField(f))
  {
    PlainIsRaw(f.key);
    AsciiIsValid(f.key);
    ByteScalarWellFormed(f);
    if f.TextField? {
      BytePiecesMean(f.text);
    }
  }

  lemma FieldsUtf8(r: Request)
    ensures var fs := SignedRequestFields(r, OrganizationField(r.organizationId));
            Utf8Request(r) <==> forall i | 0 <= i < 12 :: DecodableField(fs[i])
  {
    hide Utf8.Valid;
    NothingIsValid();
    var fs := SignedRequestFields(r, OrganizationField(r.organizationId));
    if forall i | 0 <= i < 12 :: DecodableField(fs[i]) {
      assert DecodableField(fs[2]) && DecodableField(fs[3]) && DecodableField(fs[4]) && DecodableField(fs[5]) && DecodableField(fs[6]);
      assert DecodableField(fs[7]) && DecodableField(fs[8]) && DecodableField(fs[9]) && DecodableField(fs[10]) && DecodableField(fs[11]);
    }
  }

  lemma RequestKeepsUtf8(r: Request)
    ensures Utf8.Valid(RequestEnvelope(r)) <==> Utf8Request(r)
  {
    hide Utf8Request, DecodableField, Utf8.Valid, SignedRequestFields, WellFormedMember, Utf8Member, AllAscii;
    var fs := SignedRequestFields(r, OrganizationField(r.organizationId));
    var ms := ByteMembers(fs);
    RequestFieldsPlain(r, OrganizationField(r.organizationId));
    KeysAreAscii(r);
    FieldsUtf8(r);
    FieldCount(r);
    forall i | 0 <= i < |ms| ensures WellFormedMember(ms[i]) && (Utf8Member(ms[i]) <==> DecodableField(fs[i])) {
      ByteMemberUtf8(fs[i]);
    }
    MembersKeepUtf8(ms, '{');
    JobRequestIsAscii();
    EnvelopeKeepsUtf8(SignedRequest(r), JOB_REQUEST);
  }

  lemma FieldCount(r: Request)
    ensures |SignedRequestFields(r, OrganizationField(r.organizationId))| == 12
  {
  }

  lemma JobRequestIsAscii()
    ensures AllAscii(JOB_REQUEST)
  {
  }

  /** asdict(request), in the order in which the dataclass declares its fields. */
  function RequestDict(p: PyRequest): seq<Field<string>> {
    UnsignedRequestDict(p) + [TextField(K_SIGNATURE, p.signature)]
  }

  /** What C++ prints has exactly the items of the dataclass. */
  lemma ItemsAreTheDict(p: PyRequest)
    ensures SameItems(RequestItems(p), RequestDict(p))
  {
  }

  /** recv_frame accepts the body as a message of this type with these items in some order. */
  ghost predicate IsReceivedDict(body: bytes, kind: bytes, dict: seq<Field<string>>) {
    exists items :: SameItems(items, dict) && IsReceived(body, kind, items)
  }

  /** Python receives the envelope of a C++ request if and only if all its strings are
      well-formed UTF-8, and then as the dict of the same request. */
  lemma CppRequestIsReceived(r: Request)
    ensures if Utf8Request(r) then IsReceivedDict(RequestEnvelope(r), "JOB_REQUEST", RequestDict(RequestInText(r)))
            else forall kind, items :: !IsReceived(RequestEnvelope(r), kind, items)
  {
    hide RequestItems, RequestDict, SameItems;
    RequestKeepsUtf8(r);
    if Utf8Request(r) {
      TextAndBack(r);
      RequestIsLoaded(RequestInText(r));
      ItemsAreTheDict(RequestInText(r));
      assert IsReceived(RequestEnvelope(r), JOB_REQUEST, RequestItems(RequestInText(r)));
    }
  }

  // ---- And verifies ----

  /** verify_job_request's signature check: the text is the encoding of a signature that
      verifies. */
  ghost predicate PyVerifies(c: Crypto, k: Key, canonical: bytes, signature: string) {
    exists s :: Base64Url.UrlEncode(s) == signature && c.verify(k, canonical, s)
  }

  /** A request that C++ signs and sends is received by Python, but its signature verifies
      there, over Python's own canonical JSON, if and only if no string in it has a
      character above '~'. */
  lemma CppSignatureInPython(c: Crypto, k: Key, r: Request, text: bytes)
    requires Ideal(c) && Utf8Request(SignRequest(c, r, k))
    requires IsDumps(UnsignedRequestDict(RequestInText(SignRequest(c, r, k))), text)
    ensures var p := RequestInText(SignRequest(c, r, k));
            IsReceivedDict(RequestEnvelope(SignRequest(c, r, k)), "JOB_REQUEST", RequestDict(p)) &&
            (PyVerifies(c, k, text, p.signature) <==> AsciiRequest(p))
  {
    hide IsDumps, SignatureText, PrintableOrControl, CanonicalRequest, RequestDict, IsReceivedDict, Utf8Request;
    var signed := SignRequest(c, r, k);
    var p := RequestInText(signed);
    var u := r.(signatureAlgorithm := ED25519, signature := []);
    CppRequestIsReceived(signed);
    TextAndBack(signed);
    CanonicalRequestAgrees(p, text);
    CanonicalUnambiguous(AnyRequest(signed), AnyRequest(u));
    SignatureInText(c, k, CanonicalRequest(u), p.signature);
    PyVerifiesExactly(c, k, CanonicalRequest(u), text);
  }

  lemma SignatureInText(c: Crypto, k: Key, canonical: bytes, s: string)
    requires Utf8.EncodeText(s) == SignatureText(c, k, canonical)
    ensures s == SignatureText(c, k, canonical)
  {
    SignatureTextIsAscii(c, k, canonical);
    Utf8.TextRoundTrip(s);
    Utf8.TextRoundTrip(SignatureText(c, k, canonical));
  }

  lemma PyVerifiesExactly(c: Crypto, k: Key, canonical: bytes, claimed: bytes)
    requires Ideal(c)
    ensures PyVerifies(c, k, claimed, SignatureText(c, k, canonical)) <==> claimed == canonical
  {
    var s := c.sign(k, canonical);
    if PyVerifies(c, k, claimed, SignatureText(c, k, canonical)) {
      var t :| Base64Url.UrlEncode(t) == SignatureText(c, k, canonical) && c.verify(k, claimed, t);
      Base64Url.UrlRoundTrip(s);
      Base64Url.UrlRoundTrip(t);
      assert t == c.sign(k, claimed);
    }
    if claimed == canonical {
      assert c.verify(k, claimed, s);
    }
  }
}
