/** The canonical bytes that are signed determine the message they were made from. */
module CanonicalForms {
  import opened Bytes
  import opened FlatObject
  import opened JsonPrinter
  import opened Messages

  datatype Message = AnyRequest(request: Request) | AnyResult(result: JobReply) | AnyNotice(notice: Notice)

  function Canonical(m: Message): bytes {
    match m
    case AnyRequest(r) => CanonicalRequest(r)
    case AnyResult(r) => CanonicalResult(r)
    case AnyNotice(n) => CanonicalNotice(n)
  }

  /** The message without its signature. */
  function Unsigned(m: Message): Message {
    match m
    case AnyRequest(r) => AnyRequest(r.(signature := []))
    case AnyResult(r) => AnyResult(r.(signature := []))
    case AnyNotice(n) => AnyNotice(n.(signature := []))
  }

  function FieldsOf(m: Message): seq<Field<bytes>> {
    match m
    case AnyRequest(r) => RequestFields(r, OrganizationField(r.organizationId))
    case AnyResult(r) => ResultFields(r)
    case AnyNotice(n) => NoticeFields(n)
  }

  lemma CanonicalIsObject(m: Message)
    ensures Canonical(m) == ObjectText(ByteMembers(FieldsOf(m)))
  {
  }

  lemma FieldsPlain(m: Message)
    ensures AllPlain(FieldsOf(m)) && FieldsOf(m) != []
  {
    match m
    case AnyRequest(r) => RequestFieldsPlain(r, OrganizationField(r.organizationId));
    case AnyResult(r) => ResultFieldsPlain(r);
    case AnyNotice(n) => NoticeFieldsPlain(n);
  }

  /** The third byte of an object is the first of its first key. */
  lemma ThirdByte(fs: seq<Field<bytes>>)
    requires fs != [] && Plain(fs[0].key) && fs[0].key != []
    ensures |ObjectText(ByteMembers(fs))| > 2 && ObjectText(ByteMembers(fs))[2] == fs[0].key[0]
  {
    var ms, key := ByteMembers(fs), fs[0].key;
    LabelIsKey(key);
    MembersThen(ms, '{', []);
    var tail := MembersText(ms[1..], ',') + [];
    var body := Label(key) + (ScalarText(ms[0].scalar) + tail);
    Assoc(Label(key), ScalarText(ms[0].scalar), tail);
    assert body[0] == '"' && body[1] == key[0];
    assert ObjectText(ms) + [] == ObjectText(ms);
    assert ObjectText(ms) == ['{'] + body;
  }

  lemma FirstLetter(m: Message)
    ensures |Canonical(m)| > 2
    ensures Canonical(m)[2] == match m { case AnyRequest(_) => 'e' case AnyResult(_) => 'c' case AnyNotice(_) => 'f' }
  {
    FieldsPlain(m);
    ThirdByte(FieldsOf(m));
    assert K_EXPIRES_AT[0] == 'e' && K_COMPLETED_AT[0] == 'c' && K_FAILED_NODE_ID[0] == 'f';
  }

  lemma RequestFieldsInjective(a: Request, b: Request)
    requires RequestFields(a, OrganizationField(a.organizationId)) == RequestFields(b, OrganizationField(b.organizationId))
    ensures a.(signature := []) == b.(signature := [])
  {
    var fs, gs := RequestFields(a, OrganizationField(a.organizationId)), RequestFields(b, OrganizationField(b.organizationId));
    assert fs[0] == gs[0] && fs[1] == gs[1] && fs[2] == gs[2] && fs[3] == gs[3] && fs[4] == gs[4] && fs[5] == gs[5];
    assert fs[6] == gs[6] && fs[7] == gs[7] && fs[8] == gs[8] && fs[9] == gs[9] && fs[10] == gs[10];
  }

  lemma ResultFieldsInjective(a: JobReply, b: JobReply)
    requires ResultFields(a) == ResultFields(b)
    ensures a.(signature := []) == b.(signature := [])
  {
    var fs, gs := ResultFields(a), ResultFields(b);
    assert fs[0] == gs[0] && fs[1] == gs[1] && fs[2] == gs[2] && fs[3] == gs[3] && fs[4] == gs[4];
    assert fs[5] == gs[5] && fs[6] == gs[6] && fs[7] == gs[7] && fs[8] == gs[8];
  }

  lemma NoticeFieldsInjective(a: Notice, b: Notice)
    requires NoticeFields(a) == NoticeFields(b)
    ensures a.(signature := []) == b.(signature := [])
  {
    var fs, gs := NoticeFields(a), NoticeFields(b);
    assert fs[0] == gs[0] && fs[1] == gs[1] && fs[2] == gs[2] && fs[3] == gs[3];
    assert fs[4] == gs[4] && fs[5] == gs[5] && fs[6] == gs[6] && fs[7] == gs[7];
  }

  lemma SameKindSameLayout(m: Message, n: Message)
    requires (m.AnyRequest? && n.AnyRequest?) || (m.AnyResult? && n.AnyResult?) || (m.AnyNotice? && n.AnyNotice?)
    ensures SameLayout(FieldsOf(m), FieldsOf(n))
  {
    var fs, gs := FieldsOf(m), FieldsOf(n);
    forall i | 0 <= i < |fs| ensures fs[i].key == gs[i].key && (fs[i].NumberField? <==> gs[i].NumberField?) {}
  }

  /** Two messages of any kinds have the same canonical bytes if and only if they
      are of the same kind and agree on every field but the signature. */
  lemma CanonicalUnambiguous(m: Message, n: Message)
    ensures Canonical(m) == Canonical(n) <==> Unsigned(m) == Unsigned(n)
  {
    if Canonical(m) == Canonical(n) {
      FirstLetter(m);
      FirstLetter(n);
      FieldsPlain(m);
      SameKindSameLayout(m, n);
      CanonicalIsObject(m);
      CanonicalIsObject(n);
      PrintingInjective(FieldsOf(m), FieldsOf(n));
      match m
      case AnyRequest(r) => RequestFieldsInjective(r, n.request);
      case AnyResult(r) => ResultFieldsInjective(r, n.result);
      case AnyNotice(f) => NoticeFieldsInjective(f, n.notice);
    }
    if Unsigned(m) == Unsigned(n) {
      assert FieldsOf(m) == FieldsOf(n);
    }
  }

  /** A signature for one target is not a signature for another. */
  lemma TargetsHaveDifferentBytes(r: Request, target: bytes, other: bytes)
    requires target != other
    ensures CanonicalRequest(r.(targetNodeId := target)) != CanonicalRequest(r.(targetNodeId := other))
  {
    CanonicalUnambiguous(AnyRequest(r.(targetNodeId := target)), AnyRequest(r.(targetNodeId := other)));
  }
}
