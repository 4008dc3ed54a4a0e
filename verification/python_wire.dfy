/** The independent Python printer, json.dumps(..., sort_keys=True): its messages
    as the C++ reader sees them, and when its bytes are those of the C++ printer. */
module PythonWire {
  import opened Bytes
  import opened JsonGrammar
  import opened JsonReader
  import opened FlatObject
  import opened JsonPrinter
  import opened Envelope
  import opened Messages
  import opened RoundTrip
  import Utf8

  // A Python str is a string of Unicode scalar values; organization_id may be None.
  type PyRequest = JobRequest<string, Option<string>>
  type PyResult = JobResult<string>

  // ---- Escaping to ASCII ----

  function HighOf(c: char): (u: int)
    requires c as int >= 0x10000
    ensures IsHigh(u)
  {
    0xD800 + (c as int - 0x10000) / 0x400
  }

  function LowOf(c: char): (u: int)
    requires c as int >= 0x10000
    ensures IsLow(u)
  {
    0xDC00 + (c as int - 0x10000) % 0x400
  }

  function CharPiece(c: char): (p: Piece) {
    match ShortEscape(c)
    case Some(e) => Short(e)
    case None =>
      if ' ' <= c <= '~' then Raw(c)
      else if c as int < 0x10000 then Unit(Hex4(c as int))
      else Pair(Hex4(HighOf(c)), Hex4(LowOf(c)))
  }

  function CharPieces(s: string): (ps: seq<Piece>) {
    if s == [] then [] else [CharPiece(s[0])] + CharPieces(s[1..])
  }

  lemma SurrogatesOfChar(c: char)
    requires c as int >= 0x10000
    ensures PairScalar(HighOf(c), LowOf(c)) == c as int
  {
  }

  lemma CharPieceMeans(c: char)
    ensures WellFormed(CharPiece(c)) && Utf8.IsScalar(c as int)
    ensures Meaning(CharPiece(c)) == Utf8.Encode(c as int)
  {
    hide Hex4, HexValue, IsHex4, HighOf, LowOf, PairScalar;
    Utf8.CharIsScalar(c);
    if c as int >= 0x10000 {
      SurrogatesOfChar(c);
    }
  }

  /** Every escaped string, surrogate pairs included, means its own UTF-8 form. */
  lemma {:induction false} CharPiecesMean(s: string)
    ensures AllWellFormed(CharPieces(s))
    ensures MeaningOf(CharPieces(s)) == Utf8.EncodeText(s)
  {
    if s != [] {
      CharPieceMeans(s[0]);
      CharPiecesMean(s[1..]);
      MeaningOfCons(CharPiece(s[0]), CharPieces(s[1..]));
    }
  }

  /** The piece is ASCII text and has its hexadecimal digits in lower case. */
  predicate AsciiPiece(p: Piece) {
    match p
    case Raw(b) => b <= '~'
    case Short(e) => true
    case Unit(h) => LowerCase(h)
    case Pair(hi, lo) => LowerCase(hi) && LowerCase(lo)
  }

  /** Python escapes each character by the shortest ASCII piece that means it, and no other
      such piece is as short. */
  lemma CharPieceIsCanonical(c: char, p: Piece)
    requires WellFormed(p) && AsciiPiece(p) && Utf8.IsScalar(c as int) && Meaning(p) == Utf8.Encode(c as int)
    ensures WellFormed(CharPiece(c)) && AsciiPiece(CharPiece(c))
    ensures |Text(CharPiece(c))| <= |Text(p)|
    ensures |Text(CharPiece(c))| == |Text(p)| ==> p == CharPiece(c)
  {
    CharPieceMeans(c);
    CharPieceIsAsciiPiece(c);
    match p
    case Raw(b) => OneByteEncoding(c as int, b);
    case Short(e) =>
      ShortEscapeTable(e);
      OneByteEncoding(c as int, ShortMeaning(e));
    case Unit(h) =>
      SameScalar(HexValue(h), c as int);
      UnitIsCanonical(c, h);
    case Pair(hi, lo) =>
      SameScalar(PairScalar(HexValue(hi), HexValue(lo)), c as int);
      PairIsCanonical(c, hi, lo);
  }

  lemma CharPieceIsAsciiPiece(c: char)
    ensures AsciiPiece(CharPiece(c))
  {
    Utf8.CharIsScalar(c);
    if c as int < 0x10000 {
      HexIsLowerCase(c as int);
    } else {
      HexIsLowerCase(HighOf(c));
      HexIsLowerCase(LowOf(c));
    }
  }

  lemma SameScalar(x: int, y: int)
    requires Utf8.IsScalar(x) && Utf8.IsScalar(y) && Utf8.Encode(x) == Utf8.Encode(y)
    ensures x == y
  {
    hide Utf8.Encode;
    Utf8.EncodeIsWellFormed(x, []);
    Utf8.EncodeIsWellFormed(y, []);
  }

  lemma UnitIsCanonical(c: char, h: bytes)
    requires IsHex4(h) && HexValue(h) == c as int && LowerCase(h)
    ensures |Text(CharPiece(c))| <= |Text(Unit(h))|
    ensures |Text(CharPiece(c))| == |Text(Unit(h))| ==> CharPiece(c) == Unit(h)
  {
    hide HexValue, Hex4;
    HexIsLowerCase(c as int);
    LowerHexUnique(h, Hex4(c as int));
  }

  lemma PairIsCanonical(c: char, hi: bytes, lo: bytes)
    requires WellFormed(Pair(hi, lo)) && LowerCase(hi) && LowerCase(lo)
    requires PairScalar(HexValue(hi), HexValue(lo)) == c as int
    ensures CharPiece(c) == Pair(hi, lo)
  {
    hide HexValue, Hex4;
    HexIsLowerCase(HighOf(c));
    HexIsLowerCase(LowOf(c));
    LowerHexUnique(hi, Hex4(HighOf(c)));
    LowerHexUnique(lo, Hex4(LowOf(c)));
  }

  // ---- json.dumps of a flat dict ----

  function CharScalar(f: Field<string>): Scalar {
    match f
    case TextField(_, text) => Token(CharPieces(text))
    case NumberField(_, n) => IntScalar(n)
    case NullField(_) => Null
  }

  function CharMembers(fs: seq<Field<string>>): seq<Member> {
    seq(|fs|, i requires 0 <= i < |fs| => Member(RawPieces(fs[i].key), CharScalar(fs[i])))
  }

  predicate Ascending(fs: seq<Field<string>>) {
    forall i | 0 < i < |fs| :: LexLess(fs[i - 1].key, fs[i].key)
  }

  ghost predicate SameItems(fs: seq<Field<string>>, gs: seq<Field<string>>) {
    forall f :: f in fs <==> f in gs
  }

  /** text is what json.dumps(items, sort_keys=True, separators=(",", ":")) prints:
      the items in ascending order of their keys, whatever order the dict has. */
  ghost predicate IsDumps(items: seq<Field<string>>, text: bytes) {
    exists fs :: SameItems(fs, items) && Ascending(fs) && text == ObjectText(CharMembers(fs))
  }

  lemma {:induction false} AscendingFrom(fs: seq<Field<string>>, i: nat)
    requires Ascending(fs) && 0 < i < |fs|
    ensures LexLess(fs[0].key, fs[i].key)
  {
    if i > 1 {
      AscendingFrom(fs, i - 1);
      LexTransitive(fs[0].key, fs[i - 1].key, fs[i].key);
    }
  }

  lemma LeastFirst(fs: seq<Field<string>>, f: Field<string>)
    requires Ascending(fs) && f in fs
    ensures f == fs[0] || LexLess(fs[0].key, f.key)
  {
    var i :| 0 <= i < |fs| && fs[i] == f;
    if i > 0 {
      AscendingFrom(fs, i);
    }
  }

  lemma FirstIsApart(fs: seq<Field<string>>)
    requires Ascending(fs) && fs != []
    ensures Ascending(fs[1..])
    ensures forall f :: f in fs[1..] <==> f in fs && f != fs[0]
  {
    forall f | f in fs[1..] ensures f in fs && f != fs[0] {
      var i :| 0 <= i < |fs[1..]| && fs[1..][i] == f;
      AscendingFrom(fs, i + 1);
      LexTrichotomy(f.key, f.key);
    }
    assert fs == [fs[0]] + fs[1..];
  }

  /** There is only one ascending listing of the same items. */
  lemma {:induction false} SortedOnce(fs: seq<Field<string>>, gs: seq<Field<string>>)
    requires SameItems(fs, gs) && Ascending(fs) && Ascending(gs)
    ensures fs == gs
  {
    assert gs != [] ==> gs[0] in fs;
    if fs != [] {
      assert fs[0] in gs && gs[0] in fs;
      LeastFirst(gs, fs[0]);
      LeastFirst(fs, gs[0]);
      LexTrichotomy(fs[0].key, gs[0].key);
      FirstIsApart(fs);
      FirstIsApart(gs);
      SortedOnce(fs[1..], gs[1..]);
      assert fs == [fs[0]] + fs[1..] && gs == [gs[0]] + gs[1..];
    }
  }

  /** dumps is a function of the dict: any ascending listing of the items gives its text. */
  lemma DumpsExact(items: seq<Field<string>>, fs: seq<Field<string>>, text: bytes)
    requires SameItems(fs, items) && Ascending(fs)
    ensures IsDumps(items, text) <==> text == ObjectText(CharMembers(fs))
  {
    if IsDumps(items, text) {
      var gs :| SameItems(gs, items) && Ascending(gs) && text == ObjectText(CharMembers(gs));
      SortedOnce(fs, gs);
    }
  }

  // ---- The dicts of the dataclasses ----

  function RequestOrganization(organization: Option<string>): Field<string> {
    match organization
    case None => NullField(K_ORGANIZATION_ID)
    case Some(text) => TextField(K_ORGANIZATION_ID, text)
  }

  /** asdict(request) without its signature, in declaration order. */
  function UnsignedRequestDict(r: PyRequest): seq<Field<string>> {
    [TextField(K_PROTOCOL_VERSION, r.protocolVersion), TextField(K_MESSAGE_ID, r.messageId),
     TextField(K_REQUEST_ID, r.requestId), TextField(K_SENDER_NODE_ID, r.senderNodeId),
     TextField(K_TARGET_NODE_ID, r.targetNodeId), RequestOrganization(r.organizationId),
     TextField(K_OPERATION, r.operation), TextField(K_PAYLOAD, r.payload),
     NumberField(K_ISSUED_AT, r.issuedAt), NumberField(K_EXPIRES_AT, r.expiresAt),
     TextField(K_SIGNATURE_ALGORITHM, r.signatureAlgorithm)]
  }

  /** asdict(result) without its signature. */
  function UnsignedResultDict(r: PyResult): seq<Field<string>> {
    [TextField(K_PROTOCOL_VERSION, r.protocolVersion), TextField(K_MESSAGE_ID, r.messageId),
     TextField(K_REQUEST_ID, r.requestId), TextField(K_RESPONDER_NODE_ID, r.responderNodeId),
     TextField(K_RECIPIENT_NODE_ID, r.recipientNodeId), TextField(K_STATUS, r.status),
     TextField(K_PAYLOAD, r.payload), NumberField(K_COMPLETED_AT, r.completedAt),
     TextField(K_SIGNATURE_ALGORITHM, r.signatureAlgorithm)]
  }

  function ResultDict(r: PyResult): seq<Field<string>> {
    UnsignedResultDict(r) + [TextField(K_SIGNATURE, r.signature)]
  }

  lemma CommonKeysAscend()
    ensures LexLess(K_MESSAGE_ID, K_PAYLOAD) && LexLess(K_PAYLOAD, K_PROTOCOL_VERSION)
    ensures LexLess(K_SIGNATURE, K_SIGNATURE_ALGORITHM)
  {
    LexAt(K_MESSAGE_ID, K_PAYLOAD, 0);
    LexAt(K_PAYLOAD, K_PROTOCOL_VERSION, 1);
    LexAt(K_SIGNATURE, K_SIGNATURE_ALGORITHM, 9);
  }

  lemma ResultKeysAscend()
    ensures LexLess(K_COMPLETED_AT, K_MESSAGE_ID) && LexLess(K_PROTOCOL_VERSION, K_RECIPIENT_NODE_ID)
    ensures LexLess(K_RECIPIENT_NODE_ID, K_REQUEST_ID) && LexLess(K_REQUEST_ID, K_RESPONDER_NODE_ID)
    ensures LexLess(K_RESPONDER_NODE_ID, K_SIGNATURE) && LexLess(K_RESPONDER_NODE_ID, K_SIGNATURE_ALGORITHM)
    ensures LexLess(K_SIGNATURE_ALGORITHM, K_STATUS)
  {
    hide LexLess;
    LexAt(K_COMPLETED_AT, K_MESSAGE_ID, 0);
    LexAt(K_PROTOCOL_VERSION, K_RECIPIENT_NODE_ID, 0);
    LexAt(K_RECIPIENT_NODE_ID, K_REQUEST_ID, 2);
    LexAt(K_REQUEST_ID, K_RESPONDER_NODE_ID, 2);
    LexAt(K_RESPONDER_NODE_ID, K_SIGNATURE, 0);
    LexAt(K_RESPONDER_NODE_ID, K_SIGNATURE_ALGORITHM, 0);
    LexAt(K_SIGNATURE_ALGORITHM, K_STATUS, 1);
  }

  /** The order in which canonical.hpp prints a result is the one sort_keys gives. */
  lemma ResultFieldsAscend(r: PyResult)
    ensures Ascending(ResultFields(r)) && Ascending(SignedResultFields(r))
  {
    UnsignedFieldsAscend(r);
    SignedFieldsAscend(r);
  }

  lemma UnsignedFieldsAscend(r: PyResult)
    ensures Ascending(ResultFields(r))
  {
    hide LexLess;
    CommonKeysAscend();
    ResultKeysAscend();
  }

  lemma SignedFieldsAscend(r: PyResult)
    ensures Ascending(SignedResultFields(r))
  {
    hide LexLess;
    CommonKeysAscend();
    ResultKeysAscend();
  }

  lemma NoticeKeysAscend()
    ensures LexLess(K_FAILED_NODE_ID, K_MESSAGE_ID) && LexLess(K_MESSAGE_ID, K_OBSERVED_AT)
    ensures LexLess(K_OBSERVED_AT, K_PROTOCOL_VERSION) && LexLess(K_PROTOCOL_VERSION, K_REASON)
    ensures LexLess(K_REASON, K_REPORTING_NODE_ID) && LexLess(K_REPORTING_NODE_ID, K_REQUEST_ID)
    ensures LexLess(K_REQUEST_ID, K_SIGNATURE) && LexLess(K_REQUEST_ID, K_SIGNATURE_ALGORITHM)
  {
    hide LexLess;
    LexAt(K_FAILED_NODE_ID, K_MESSAGE_ID, 0);
    LexAt(K_MESSAGE_ID, K_OBSERVED_AT, 0);
    LexAt(K_OBSERVED_AT, K_PROTOCOL_VERSION, 0);
    LexAt(K_PROTOCOL_VERSION, K_REASON, 0);
    LexAt(K_REASON, K_REPORTING_NODE_ID, 2);
    LexAt(K_REPORTING_NODE_ID, K_REQUEST_ID, 2);
    LexAt(K_REQUEST_ID, K_SIGNATURE, 0);
    LexAt(K_REQUEST_ID, K_SIGNATURE_ALGORITHM, 0);
  }

  /** Notices too are printed in the order of sorted keys. */
  lemma NoticeFieldsAscend(n: FailureNotice<string>)
    ensures Ascending(NoticeFields(n)) && Ascending(SignedNoticeFields(n))
  {
    hide LexLess;
    CommonKeysAscend();
    NoticeKeysAscend();
  }

  lemma RequestFieldsAscend(r: PyRequest)
    ensures Ascending(RequestFields(r, RequestOrganization(r.organizationId)))
  {
    hide LexLess;
    CommonKeysAscend();
    LexAt(K_EXPIRES_AT, K_ISSUED_AT, 0);
    LexAt(K_ISSUED_AT, K_MESSAGE_ID, 0);
    LexAt(K_MESSAGE_ID, K_OPERATION, 0);
    LexAt(K_OPERATION, K_ORGANIZATION_ID, 1);
    LexAt(K_ORGANIZATION_ID, K_PAYLOAD, 0);
    LexAt(K_PROTOCOL_VERSION, K_REQUEST_ID, 0);
    LexAt(K_REQUEST_ID, K_SENDER_NODE_ID, 0);
    LexAt(K_SENDER_NODE_ID, K_SIGNATURE_ALGORITHM, 1);
    LexAt(K_SIGNATURE_ALGORITHM, K_TARGET_NODE_ID, 0);
  }

  lemma ResultDictIsFields(r: PyResult)
    ensures SameItems(ResultFields(r), UnsignedResultDict(r))
    ensures SameItems(SignedResultFields(r), ResultDict(r))
  {
  }

  lemma RequestDictIsFields(r: PyRequest)
    ensures SameItems(RequestFields(r, RequestOrganization(r.organizationId)), UnsignedRequestDict(r))
  {
  }

  // ---- Decoding across languages ----

  function Utf8Field(f: Field<string>): Field<bytes> {
    match f
    case TextField(key, text) => TextField(key, Utf8.EncodeText(text))
    case NumberField(key, n) => NumberField(key, n)
    case NullField(key) => NullField(key)
  }

  function Utf8Fields(fs: seq<Field<string>>): seq<Field<bytes>> {
    seq(|fs|, i requires 0 <= i < |fs| => Utf8Field(fs[i]))
  }

  /** The C++ record with every string in UTF-8. */
  function ResultInUtf8(r: PyResult): JobReply {
    JobResult(Utf8.EncodeText(r.protocolVersion), Utf8.EncodeText(r.messageId), Utf8.EncodeText(r.requestId),
              Utf8.EncodeText(r.responderNodeId), Utf8.EncodeText(r.recipientNodeId), Utf8.EncodeText(r.status),
              Utf8.EncodeText(r.payload), r.completedAt, Utf8.EncodeText(r.signatureAlgorithm),
              Utf8.EncodeText(r.signature))
  }

  function RequestInUtf8(r: PyRequest): Request {
    JobRequest(Utf8.EncodeText(r.protocolVersion), Utf8.EncodeText(r.messageId), Utf8.EncodeText(r.requestId),
               Utf8.EncodeText(r.senderNodeId), Utf8.EncodeText(r.targetNodeId),
               (match r.organizationId case None => [] case Some(text) => Utf8.EncodeText(text)),
               Utf8.EncodeText(r.operation), Utf8.EncodeText(r.payload), r.issuedAt, r.expiresAt,
               Utf8.EncodeText(r.signatureAlgorithm), Utf8.EncodeText(r.signature))
  }

  lemma CharMembersWrite(fs: seq<Field<string>>)
    ensures AllWrite(CharMembers(fs), Utf8Fields(fs))
  {
    forall i | 0 <= i < |fs| ensures Writes(CharMembers(fs)[i], Utf8Fields(fs)[i]) {
      match fs[i]
      case TextField(_, text) => CharPiecesMean(text);
      case NumberField(_, n) => IntScalarValue(n);
      case NullField(_) =>
    }
  }

  lemma Utf8OfResultFields(r: PyResult)
    ensures Utf8Fields(ResultFields(r)) == ResultFields(ResultInUtf8(r))
    ensures Utf8Fields(SignedResultFields(r)) == SignedResultFields(ResultInUtf8(r))
  {
    hide Utf8.EncodeText;
    Utf8OfUnsigned(r);
    var fs, gs := SignedResultFields(r), SignedResultFields(ResultInUtf8(r));
    var us, vs := ResultFields(r), ResultFields(ResultInUtf8(r));
    forall i | 0 <= i < 10 ensures Utf8Field(fs[i]) == gs[i] {
      if i < 7 {
        assert fs[i] == us[i] && gs[i] == vs[i] && vs[i] == Utf8Fields(us)[i];
      } else if i > 7 {
        assert fs[i] == us[i - 1] && gs[i] == vs[i - 1] && vs[i - 1] == Utf8Fields(us)[i - 1];
      }
    }
  }

  lemma Utf8OfUnsigned(r: PyResult)
    ensures Utf8Fields(ResultFields(r)) == ResultFields(ResultInUtf8(r))
  {
    hide Utf8.EncodeText;
    var fs, gs := Utf8Fields(ResultFields(r)), ResultFields(ResultInUtf8(r));
    assert fs[0] == gs[0] && fs[1] == gs[1] && fs[2] == gs[2];
    assert fs[3] == gs[3] && fs[4] == gs[4] && fs[5] == gs[5];
    assert fs[6] == gs[6] && fs[7] == gs[7] && fs[8] == gs[8];
  }

  /** body is what send_frame transmits for a result: the type comes after the payload. */
  ghost predicate IsResultBody(r: PyResult, body: bytes) {
    exists payload :: IsDumps(ResultDict(r), payload) && body == Joined(payload, JOB_RESULT)
  }

  /** Every body Python sends for a result is parsed by the C++ reader to the same
      record with each string in UTF-8, unless its time does not fit. */
  lemma PythonResultIsParsed(r: PyResult, body: bytes)
    requires IsResultBody(r, body)
    ensures ParseResult(body) == if Readable(r.completedAt) then Ok(ResultInUtf8(r)) else Throws(IntegerOverflow)
  {
    var payload :| IsDumps(ResultDict(r), payload) && body == Joined(payload, JOB_RESULT);
    var fs := SignedResultFields(r);
    ResultDictIsFields(r);
    ResultFieldsAscend(r);
    DumpsExact(ResultDict(r), fs, payload);
    CharMembersWrite(fs);
    Utf8OfResultFields(r);
    ParseWrittenResult(CharMembers(fs), ResultInUtf8(r));
  }

  lemma PythonAlwaysHasABody(r: PyResult)
    ensures exists body :: IsResultBody(r, body)
  {
    var fs := SignedResultFields(r);
    ResultDictIsFields(r);
    ResultFieldsAscend(r);
    DumpsExact(ResultDict(r), fs, ObjectText(CharMembers(fs)));
    assert IsResultBody(r, Joined(ObjectText(CharMembers(fs)), JOB_RESULT));
  }

  // ---- When both languages print the same bytes ----

  predicate PrintableOrControl(s: string) {
    forall c | c in s :: c <= '~'
  }

  lemma CharPieceIsAscii(c: char)
    ensures PrintableOrControl(Text(CharPiece(c)))
  {
  }

  lemma {:induction false} CharTextIsAscii(s: string)
    ensures PrintableOrControl(TextOf(CharPieces(s)))
  {
    if s != [] {
      CharPieceIsAscii(s[0]);
      CharTextIsAscii(s[1..]);
      TextOfCons(CharPiece(s[0]), CharPieces(s[1..]));
    }
  }

  lemma BytePieceAscii(b: byte)
    ensures PrintableOrControl(Text(BytePiece(b))) <==> b <= '~'
  {
    var t := Text(BytePiece(b));
    if b > '~' {
      assert t == [b] && b in t;
    } else if BytePiece(b).Unit? {
      var h := BytePiece(b).h;
      assert t == ['\\', 'u', h[0], h[1], h[2], h[3]];
    }
  }

  lemma {:induction false} ByteTextAscii(s: bytes)
    ensures PrintableOrControl(TextOf(BytePieces(s))) <==> PrintableOrControl(s)
  {
    if s != [] {
      var t, u := Text(BytePiece(s[0])), TextOf(BytePieces(s[1..]));
      BytePieceAscii(s[0]);
      ByteTextAscii(s[1..]);
      TextOfCons(BytePiece(s[0]), BytePieces(s[1..]));
      AsciiConcat(t, u);
      AsciiConcat([s[0]], s[1..]);
      assert s == [s[0]] + s[1..];
    }
  }

  lemma AsciiConcat(a: string, b: string)
    ensures PrintableOrControl(a + b) <==> PrintableOrControl(a) && PrintableOrControl(b)
  {
    if PrintableOrControl(a + b) {
      forall c | c in a ensures c <= '~' { assert c in a + b; }
      forall c | c in b ensures c <= '~' { assert c in a + b; }
    }
  }

  lemma EncodeAscii(c: char)
    ensures Utf8.IsScalar(c as int)
    ensures PrintableOrControl(Utf8.Encode(c as int)) <==> c <= '~'
    ensures c <= '~' ==> Utf8.Encode(c as int) == [c]
  {
    Utf8.CharIsScalar(c);
    if c > '~' {
      assert Utf8.Encode(c as int)[0] > '~' && Utf8.Encode(c as int)[0] in Utf8.Encode(c as int);
    }
  }

  lemma {:induction false} Utf8Ascii(s: string)
    ensures PrintableOrControl(Utf8.EncodeText(s)) <==> PrintableOrControl(s)
    ensures PrintableOrControl(s) ==> Utf8.EncodeText(s) == s
  {
    if s != [] {
      EncodeAscii(s[0]);
      Utf8Ascii(s[1..]);
      AsciiConcat(Utf8.Encode(s[0] as int), Utf8.EncodeText(s[1..]));
      AsciiConcat([s[0]], s[1..]);
      assert s == [s[0]] + s[1..] && s[0] in [s[0]];
    }
  }

  lemma {:induction false} AsciiPiecesAgree(s: bytes)
    requires PrintableOrControl(s)
    ensures CharPieces(s) == BytePieces(s)
  {
    if s != [] {
      assert s[0] in s;
      forall c | c in s[1..] ensures c <= '~' { assert c in s; }
      AsciiPiecesAgree(s[1..]);
    }
  }

  /** Both languages escape a string alike if and only if it has no character above '~'. */
  lemma EscapesAgree(s: string)
    ensures TextOf(CharPieces(s)) == TextOf(BytePieces(Utf8.EncodeText(s))) <==> PrintableOrControl(s)
    ensures PrintableOrControl(s) ==> CharPieces(s) == BytePieces(Utf8.EncodeText(s))
  {
    CharTextIsAscii(s);
    ByteTextAscii(Utf8.EncodeText(s));
    Utf8Ascii(s);
    if PrintableOrControl(s) {
      AsciiPiecesAgree(Utf8.EncodeText(s));
    }
  }

  lemma QuotedInjective(ps: seq<Piece>, qs: seq<Piece>)
    ensures Quoted(ps) == Quoted(qs) <==> TextOf(ps) == TextOf(qs)
  {
    if Quoted(ps) == Quoted(qs) {
      CancelRight(['"'] + TextOf(ps), ['"'] + TextOf(qs), ['"']);
      CancelLeft(['"'], TextOf(ps), TextOf(qs));
    }
  }

  predicate AsciiField(f: Field<string>) {
    f.TextField? ==> PrintableOrControl(f.text)
  }

  lemma ScalarsAgree(f: Field<string>)
    ensures WellFormedScalar(CharScalar(f))
    ensures ScalarText(CharScalar(f)) == ScalarText(ByteScalar(Utf8Field(f))) <==> AsciiField(f)
    ensures AsciiField(f) ==> CharScalar(f) == ByteScalar(Utf8Field(f))
  {
    if f.TextField? {
      CharPiecesMean(f.text);
      EscapesAgree(f.text);
      QuotedInjective(CharPieces(f.text), BytePieces(Utf8.EncodeText(f.text)));
    }
  }

  /** An object in Python's bytes is the object in C++'s bytes if and only if no
      string in it has a character above '~'. */
  lemma ObjectsAgree(fs: seq<Field<string>>)
    ensures ObjectText(CharMembers(fs)) == ObjectText(ByteMembers(Utf8Fields(fs)))
            <==> forall i | 0 <= i < |fs| :: AsciiField(fs[i])
  {
    var ms, ns := CharMembers(fs), ByteMembers(Utf8Fields(fs));
    forall i | 0 <= i < |fs|
      ensures ms[i].key == ns[i].key && SameKind(ms[i].scalar, ns[i].scalar)
      ensures ScalarText(ms[i].scalar) == ScalarText(ns[i].scalar) <==> AsciiField(fs[i])
      ensures AsciiField(fs[i]) ==> ms[i] == ns[i]
    {
      ScalarsAgree(fs[i]);
      ByteScalarWellFormed(Utf8Field(fs[i]));
    }
    if ObjectText(ms) == ObjectText(ns) {
      MembersPrefixFree(ms, ns, '{');
      forall i | 0 <= i < |fs| ensures AsciiField(fs[i]) {
        assert ScalarText(ms[i].scalar) == ScalarText(ns[i].scalar);
      }
    }
    if forall i | 0 <= i < |fs| :: AsciiField(fs[i]) {
      assert ms == ns;
    }
  }

  predicate AsciiResult(r: PyResult) {
    PrintableOrControl(r.protocolVersion) && PrintableOrControl(r.messageId) && PrintableOrControl(r.requestId) &&
    PrintableOrControl(r.responderNodeId) && PrintableOrControl(r.recipientNodeId) && PrintableOrControl(r.status) &&
    PrintableOrControl(r.payload) && PrintableOrControl(r.signatureAlgorithm)
  }

  predicate AsciiRequest(r: PyRequest) {
    PrintableOrControl(r.protocolVersion) && PrintableOrControl(r.messageId) && PrintableOrControl(r.requestId) &&
    PrintableOrControl(r.senderNodeId) && PrintableOrControl(r.targetNodeId) &&
    (r.organizationId.Some? ==> PrintableOrControl(r.organizationId.value)) &&
    PrintableOrControl(r.operation) && PrintableOrControl(r.payload) && PrintableOrControl(r.signatureAlgorithm)
  }

  lemma AsciiResultFields(r: PyResult)
    ensures AsciiResult(r) <==> forall i | 0 <= i < |ResultFields(r)| :: AsciiField(ResultFields(r)[i])
  {
    hide PrintableOrControl;
    var fs := ResultFields(r);
    if forall i | 0 <= i < |fs| :: AsciiField(fs[i]) {
      assert AsciiField(fs[1]) && AsciiField(fs[2]) && AsciiField(fs[3]) && AsciiField(fs[4]);
      assert AsciiField(fs[5]) && AsciiField(fs[6]) && AsciiField(fs[7]) && AsciiField(fs[8]);
    }
  }

  lemma AsciiRequestFields(r: PyRequest)
    ensures var fs := RequestFields(r, RequestOrganization(r.organizationId));
            AsciiRequest(r) <==> forall i | 0 <= i < |fs| :: AsciiField(fs[i])
  {
    hide PrintableOrControl;
    var fs := RequestFields(r, RequestOrganization(r.organizationId));
    if forall i | 0 <= i < |fs| :: AsciiField(fs[i]) {
      assert AsciiField(fs[2]) && AsciiField(fs[3]) && AsciiField(fs[4]) && AsciiField(fs[5]);
      assert AsciiField(fs[6]) && AsciiField(fs[7]) && AsciiField(fs[8]) && AsciiField(fs[9]) && AsciiField(fs[10]);
    }
  }

  /** The bytes Python signs for a result are those C++ signs for the same result in
      UTF-8 if and only if no unsigned string has a character above '~'. */
  lemma CanonicalResultAgrees(r: PyResult, text: bytes)
    requires IsDumps(UnsignedResultDict(r), text)
    ensures text == CanonicalResult(ResultInUtf8(r)) <==> AsciiResult(r)
  {
    var fs := ResultFields(r);
    ResultDictIsFields(r);
    ResultFieldsAscend(r);
    DumpsExact(UnsignedResultDict(r), fs, text);
    Utf8OfResultFields(r);
    ObjectsAgree(fs);
    AsciiResultFields(r);
  }

  lemma Utf8OfOrganization(r: PyRequest)
    requires r.organizationId != Some("")
    ensures Utf8Field(RequestOrganization(r.organizationId)) == OrganizationField(RequestInUtf8(r).organizationId)
  {
    if r.organizationId.Some? {
      Utf8.TextRoundTrip(r.organizationId.value);
      assert Utf8.EncodeText(r.organizationId.value) != [];
    }
  }

  lemma Utf8OfEarlyFields(r: PyRequest, o: Field<string>, i: nat)
    requires i < 6
    ensures Utf8Field(RequestFields(r, o)[i]) == RequestFields(RequestInUtf8(r), Utf8Field(o))[i]
  {
    hide Utf8.EncodeText;
  }

  lemma Utf8OfLateFields(r: PyRequest, o: Field<string>, i: nat)
    requires 6 <= i < 11
    ensures Utf8Field(RequestFields(r, o)[i]) == RequestFields(RequestInUtf8(r), Utf8Field(o))[i]
  {
    hide Utf8.EncodeText;
  }

  lemma Utf8OfRequestFields(r: PyRequest)
    requires r.organizationId != Some("")
    ensures Utf8Fields(RequestFields(r, RequestOrganization(r.organizationId))) ==
            RequestFields(RequestInUtf8(r), OrganizationField(RequestInUtf8(r).organizationId))
  {
    hide RequestInUtf8, Utf8Field, RequestOrganization, OrganizationField;
    Utf8OfOrganization(r);
    var o := RequestOrganization(r.organizationId);
    forall i | 0 <= i < 11 ensures Utf8Field(RequestFields(r, o)[i]) == RequestFields(RequestInUtf8(r), Utf8Field(o))[i] {
      if i < 6 {
        Utf8OfEarlyFields(r, o, i);
      } else {
        Utf8OfLateFields(r, o, i);
      }
    }
  }

  lemma RequestKeysMatch(r: PyRequest)
    ensures var fs := RequestFields(r, RequestOrganization(r.organizationId));
            var gs := RequestFields(RequestInUtf8(r), OrganizationField(RequestInUtf8(r).organizationId));
            forall i | 0 <= i < 11 :: fs[i].key == gs[i].key && (fs[i].NumberField? <==> gs[i].NumberField?)
  {
    hide Utf8.EncodeText;
  }

  lemma CharScalarWellFormed(f: Field<string>)
    ensures WellFormedScalar(CharScalar(f)) && (CharScalar(f).Number? <==> f.NumberField?)
  {
    if f.TextField? {
      CharPiecesMean(f.text);
    }
  }

  lemma RequestLayouts(r: PyRequest)
    ensures SameKeys(CharMembers(RequestFields(r, RequestOrganization(r.organizationId))),
                     ByteMembers(RequestFields(RequestInUtf8(r), OrganizationField(RequestInUtf8(r).organizationId))))
  {
    RequestKeysMatch(r);
    var fs := RequestFields(r, RequestOrganization(r.organizationId));
    var gs := RequestFields(RequestInUtf8(r), OrganizationField(RequestInUtf8(r).organizationId));
    LayoutsMatch(fs, gs);
  }

  lemma LayoutsMatch(fs: seq<Field<string>>, gs: seq<Field<bytes>>)
    requires |fs| == |gs|
    requires forall i | 0 <= i < |fs| :: fs[i].key == gs[i].key && (fs[i].NumberField? <==> gs[i].NumberField?)
    ensures SameKeys(CharMembers(fs), ByteMembers(gs))
  {
    forall i | 0 <= i < |fs|
      ensures CharMembers(fs)[i].key == ByteMembers(gs)[i].key
      ensures SameKind(CharMembers(fs)[i].scalar, ByteMembers(gs)[i].scalar)
    {
      CharScalarWellFormed(fs[i]);
      ByteScalarWellFormed(gs[i]);
    }
  }

  lemma EmptyOrganizationDiffers(r: PyRequest)
    requires r.organizationId == Some("")
    ensures ObjectText(CharMembers(RequestFields(r, RequestOrganization(r.organizationId)))) !=
            CanonicalRequest(RequestInUtf8(r))
  {
    var fs := RequestFields(r, RequestOrganization(r.organizationId));
    var gs := RequestFields(RequestInUtf8(r), OrganizationField(RequestInUtf8(r).organizationId));
    var ms, ns := CharMembers(fs), ByteMembers(gs);
    assert RequestInUtf8(r).organizationId == [];
    assert ms[4].scalar == Token([]) && ns[4].scalar == Null;
    assert ScalarText(Token([]))[0] == '"' && ScalarText(Null)[0] == 'n';
    RequestLayouts(r);
    OneMemberDiffers(ms, ns, 4);
  }

  lemma OneMemberDiffers(ms: seq<Member>, ns: seq<Member>, i: nat)
    requires SameKeys(ms, ns) && i < |ms| && ScalarText(ms[i].scalar) != ScalarText(ns[i].scalar)
    ensures ObjectText(ms) != ObjectText(ns)
  {
    if ObjectText(ms) == ObjectText(ns) {
      MembersPrefixFree(ms, ns, '{');
    }
  }

  /** For a request the organization must also not be the empty string, which
      Python prints as "" and C++ as null. */
  lemma CanonicalRequestAgrees(r: PyRequest, text: bytes)
    requires IsDumps(UnsignedRequestDict(r), text)
    ensures text == CanonicalRequest(RequestInUtf8(r)) <==> AsciiRequest(r) && r.organizationId != Some("")
  {
    var fs := RequestFields(r, RequestOrganization(r.organizationId));
    RequestDictIsFields(r);
    RequestFieldsAscend(r);
    DumpsExact(UnsignedRequestDict(r), fs, text);
    if r.organizationId == Some("") {
      EmptyOrganizationDiffers(r);
    } else {
      Utf8OfRequestFields(r);
      ObjectsAgree(fs);
      AsciiRequestFields(r);
    }
  }

  /** A concrete result on which the two implementations sign different bytes. */
  lemma AccentBreaksByteIdentity(text: bytes)
    requires IsDumps(UnsignedResultDict(JobResult("0.1", "m", "r", "b", "a", "OK", "\U{E9}", 1, "Ed25519", "")), text)
    ensures text != CanonicalResult(ResultInUtf8(JobResult("0.1", "m", "r", "b", "a", "OK", "\U{E9}", 1, "Ed25519", "")))
  {
    var r := JobResult("0.1", "m", "r", "b", "a", "OK", "\U{E9}", 1, "Ed25519", "");
    CanonicalResultAgrees(r, text);
    assert '\U{E9}' in r.payload;
  }
}
