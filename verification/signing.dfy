/** Signing and verifying messages over an ideal signature scheme. */
module Signing {
  import opened Bytes
  import opened JsonPrinter
  import opened Messages
  import opened CanonicalForms
  import opened PythonWire
  import opened RoundTrip
  import opened Framing
  import opened Stream
  import Base64Url
  import Utf8

  // A key pair is named by a number; a null EVP_PKEY* is None.
  type Key = nat

  datatype Crypto = Crypto(sign: (Key, bytes) -> bytes, verify: (Key, bytes, bytes) -> bool)

  /** Only sign(k, m) verifies for k and m, it is never empty, and it belongs to no
      other key or message. */
  ghost predicate Ideal(c: Crypto) {
    (forall k, m, s :: c.verify(k, m, s) <==> s == c.sign(k, m)) &&
    (forall k, m :: c.sign(k, m) != []) &&
    (forall k, m, j, n :: c.sign(k, m) == c.sign(j, n) ==> k == j && m == n)
  }

  function Toy(k: Key, m: bytes): bytes {
    if k == 0 then ['0'] + m else ['1'] + Toy(k - 1, m)
  }

  lemma {:induction false} ToyInjective(k: Key, m: bytes, j: Key, n: bytes)
    requires Toy(k, m) == Toy(j, n)
    ensures k == j && m == n
  {
    assert Toy(k, m)[1..] == if k == 0 then m else Toy(k - 1, m);
    assert Toy(j, n)[1..] == if j == 0 then n else Toy(j - 1, n);
    if k > 0 {
      ToyInjective(k - 1, m, j - 1, n);
    }
  }

  /** The hypothesis can be met: k bytes '1', a '0', and the message itself. */
  lemma IdealExists()
    ensures exists c :: Ideal(c)
  {
    var c := Crypto((k: Key, m: bytes) => Toy(k, m), (k: Key, m: bytes, s: bytes) => s == Toy(k, m));
    forall k, m, j, n | c.sign(k, m) == c.sign(j, n) ensures k == j && m == n {
      ToyInjective(k, m, j, n);
    }
    assert Ideal(c);
  }

  const ED25519: bytes := "Ed25519"

  // MissingPrivateKey is the check of job_auth.hpp, SigningFailed the failure of OpenSSL.
  datatype SignError = MissingPrivateKey | SigningFailed

  // ---- sign_* and verify_*; a record passed by reference is returned ----

  function SignatureText(c: Crypto, k: Key, canonical: bytes): bytes {
    Base64Url.UrlEncode(c.sign(k, canonical))
  }

  function SignRequest(c: Crypto, r: Request, k: Key): Request {
    var u := r.(signatureAlgorithm := ED25519, signature := []);
    u.(signature := SignatureText(c, k, CanonicalRequest(u)))
  }

  function SignResult(c: Crypto, r: JobReply, k: Key): JobReply {
    var u := r.(signatureAlgorithm := ED25519, signature := []);
    u.(signature := SignatureText(c, k, CanonicalResult(u)))
  }

  function SignNotice(c: Crypto, n: Notice, k: Key): Notice {
    var u := n.(signatureAlgorithm := ED25519);
    u.(signature := SignatureText(c, k, CanonicalNotice(u)))
  }

  method SignJobRequest(c: Crypto, r: Request, key: Option<Key>) returns (signed: Result<Request, SignError>)
    ensures signed == if key == None then Throws(MissingPrivateKey) else Ok(SignRequest(c, r, key.value))
  {
    if key == None {
      return Throws(MissingPrivateKey);
    }
    var u := r.(signatureAlgorithm := ED25519);
    u := u.(signature := []);
    var text := CanonicalJobRequestJson(u);
    var encoded := Base64Url.Encode(c.sign(key.value, text));
    return Ok(u.(signature := encoded));
  }

  method SignJobResult(c: Crypto, r: JobReply, key: Option<Key>) returns (signed: Result<JobReply, SignError>)
    ensures signed == if key == None then Throws(MissingPrivateKey) else Ok(SignResult(c, r, key.value))
  {
    if key == None {
      return Throws(MissingPrivateKey);
    }
    var u := r.(signatureAlgorithm := ED25519);
    u := u.(signature := []);
    var text := CanonicalJobResultJson(u);
    var encoded := Base64Url.Encode(c.sign(key.value, text));
    return Ok(u.(signature := encoded));
  }

  /** sign_failure_notice has no check of its own: without a key the signing fails. */
  method SignFailureNotice(c: Crypto, n: Notice, key: Option<Key>) returns (signed: Result<Notice, SignError>)
    ensures signed == if key == None then Throws(SigningFailed) else Ok(SignNotice(c, n, key.value))
  {
    var u := n.(signatureAlgorithm := ED25519);
    var text := CanonicalFailureNoticeJson(u);
    if key == None {
      return Throws(SigningFailed);
    }
    var encoded := Base64Url.Encode(c.sign(key.value, text));
    return Ok(u.(signature := encoded));
  }

  /** ed25519_verify of the decoded signature; every throw on the way is a false. */
  function VerifyText(c: Crypto, key: Option<Key>, canonical: bytes, signature: bytes): bool {
    key.Some? &&
    match Base64Url.UrlDecode(signature)
    case Ok(s) => c.verify(key.value, canonical, s)
    case Throws(_) => false
  }

  predicate VerifyResult(c: Crypto, r: JobReply, key: Option<Key>) {
    key.Some? && r.signatureAlgorithm == ED25519 && r.signature != [] &&
    VerifyText(c, key, CanonicalResult(r), r.signature)
  }

  predicate VerifyNotice(c: Crypto, n: Notice, key: Option<Key>) {
    n.signatureAlgorithm == ED25519 && n.signature != [] &&
    VerifyText(c, key, CanonicalNotice(n), n.signature)
  }

  // ---- Authenticity ----

  /** Signing changes the algorithm and the signature and nothing else, and the new
      signature is that of the signed record itself. */
  lemma SigningChangesOnlySignature(c: Crypto, q: Request, r: JobReply, n: Notice, k: Key)
    ensures var s := SignRequest(c, q, k);
            s.(signatureAlgorithm := q.signatureAlgorithm, signature := q.signature) == q &&
            s.signatureAlgorithm == "Ed25519" && Base64Url.UrlDecode(s.signature) == Ok(c.sign(k, CanonicalRequest(s)))
    ensures var s := SignResult(c, r, k);
            s.(signatureAlgorithm := r.signatureAlgorithm, signature := r.signature) == r &&
            s.signatureAlgorithm == "Ed25519" && Base64Url.UrlDecode(s.signature) == Ok(c.sign(k, CanonicalResult(s)))
    ensures var s := SignNotice(c, n, k);
            s.(signatureAlgorithm := n.signatureAlgorithm, signature := n.signature) == n &&
            s.signatureAlgorithm == "Ed25519" && Base64Url.UrlDecode(s.signature) == Ok(c.sign(k, CanonicalNotice(s)))
  {
    hide CanonicalRequest, CanonicalResult, CanonicalNotice;
    RequestSignature(c, q, k);
    ResultSignature(c, r, k);
    NoticeSignature(c, n, k);
  }

  lemma RequestSignature(c: Crypto, q: Request, k: Key)
    ensures var s := SignRequest(c, q, k);
            Base64Url.UrlDecode(s.signature) == Ok(c.sign(k, CanonicalRequest(s)))
  {
    var u := q.(signatureAlgorithm := ED25519, signature := []);
    OwnSpelling(c, k, CanonicalRequest(u));
    CanonicalUnambiguous(AnyRequest(u), AnyRequest(SignRequest(c, q, k)));
  }

  lemma ResultSignature(c: Crypto, r: JobReply, k: Key)
    ensures var s := SignResult(c, r, k);
            Base64Url.UrlDecode(s.signature) == Ok(c.sign(k, CanonicalResult(s)))
  {
    var u := r.(signatureAlgorithm := ED25519, signature := []);
    OwnSpelling(c, k, CanonicalResult(u));
    CanonicalUnambiguous(AnyResult(u), AnyResult(SignResult(c, r, k)));
  }

  lemma NoticeSignature(c: Crypto, n: Notice, k: Key)
    ensures var s := SignNotice(c, n, k);
            Base64Url.UrlDecode(s.signature) == Ok(c.sign(k, CanonicalNotice(s)))
  {
    var u := n.(signatureAlgorithm := ED25519);
    OwnSpelling(c, k, CanonicalNotice(u));
    CanonicalUnambiguous(AnyNotice(u), AnyNotice(SignNotice(c, n, k)));
  }

  /** A result or notice verifies if and only if there is a key, it names Ed25519, and its
      signature text decodes to that key's signature of its own other fields. */
  lemma VerifiesExactly(c: Crypto, r: JobReply, n: Notice, key: Option<Key>)
    requires Ideal(c)
    ensures VerifyResult(c, r, key) <==>
            key.Some? && r.signatureAlgorithm == "Ed25519" &&
            Base64Url.UrlDecode(r.signature) == Ok(c.sign(key.value, CanonicalResult(r)))
    ensures VerifyNotice(c, n, key) <==>
            key.Some? && n.signatureAlgorithm == "Ed25519" &&
            Base64Url.UrlDecode(n.signature) == Ok(c.sign(key.value, CanonicalNotice(n)))
  {
    if key.Some? {
      TextVerifies(c, key.value, CanonicalResult(r), r.signature);
      TextVerifies(c, key.value, CanonicalNotice(n), n.signature);
    }
  }

  lemma TextVerifies(c: Crypto, k: Key, canonical: bytes, signature: bytes)
    requires Ideal(c)
    ensures signature != [] && VerifyText(c, Some(k), canonical, signature) <==>
            Base64Url.UrlDecode(signature) == Ok(c.sign(k, canonical))
  {
    if Base64Url.UrlDecode(signature) == Ok(c.sign(k, canonical)) {
      SignatureVerifies(c, k, canonical, Some(k), canonical, signature);
    }
    if VerifyText(c, Some(k), canonical, signature) {
      var s := Base64Url.UrlDecode(signature).value;
      assert c.verify(k, canonical, s);
    }
  }

  /** A text that decodes to a signature, however it is spelled, verifies for exactly the
      key and bytes the signature was made from. */
  lemma SignatureVerifies(c: Crypto, k: Key, canonical: bytes, key: Option<Key>, claimed: bytes, signature: bytes)
    requires Ideal(c) && Base64Url.UrlDecode(signature) == Ok(c.sign(k, canonical))
    ensures signature != []
    ensures VerifyText(c, key, claimed, signature) <==> key == Some(k) && claimed == canonical
  {
    var s := c.sign(k, canonical);
    Base64Url.NothingRoundTrips();
    assert s != [];
    if key.Some? {
      assert c.verify(key.value, claimed, s) <==> s == c.sign(key.value, claimed);
    }
  }

  lemma OwnSpelling(c: Crypto, k: Key, canonical: bytes)
    ensures Base64Url.UrlDecode(SignatureText(c, k, canonical)) == Ok(c.sign(k, canonical))
  {
    Base64Url.UrlRoundTrip(c.sign(k, canonical));
  }

  /** A record whose signature text decodes to the signature of a signed result verifies
      if and only if it is that result in every other field, under that very key. */
  lemma ResultIsTamperEvident(c: Crypto, r: JobReply, k: Key, other: JobReply, key: Option<Key>)
    requires Ideal(c)
    requires Base64Url.UrlDecode(other.signature) == Base64Url.UrlDecode(SignResult(c, r, k).signature)
    ensures VerifyResult(c, other, key) <==>
            Unsigned(AnyResult(other)) == Unsigned(AnyResult(SignResult(c, r, k))) && key == Some(k)
  {
    var u := r.(signatureAlgorithm := ED25519, signature := []);
    OwnSpelling(c, k, CanonicalResult(u));
    SignatureVerifies(c, k, CanonicalResult(u), key, CanonicalResult(other), other.signature);
    CanonicalUnambiguous(AnyResult(u), AnyResult(other));
    assert Unsigned(AnyResult(u)) == AnyResult(u);
  }

  lemma NoticeIsTamperEvident(c: Crypto, n: Notice, k: Key, other: Notice, key: Option<Key>)
    requires Ideal(c)
    requires Base64Url.UrlDecode(other.signature) == Base64Url.UrlDecode(SignNotice(c, n, k).signature)
    ensures VerifyNotice(c, other, key) <==>
            Unsigned(AnyNotice(other)) == Unsigned(AnyNotice(SignNotice(c, n, k))) && key == Some(k)
  {
    var u := n.(signatureAlgorithm := ED25519);
    OwnSpelling(c, k, CanonicalNotice(u));
    SignatureVerifies(c, k, CanonicalNotice(u), key, CanonicalNotice(other), other.signature);
    CanonicalUnambiguous(AnyNotice(u), AnyNotice(other));
  }

  /** The signature text itself is not protected: every other spelling of the signature
      verifies too. */
  lemma RespelledResultVerifies(c: Crypto, r: JobReply, k: Key, spelling: bytes)
    requires Ideal(c)
    ensures VerifyResult(c, SignResult(c, r, k).(signature := spelling), Some(k)) <==>
            Base64Url.UrlDecode(spelling) == Base64Url.UrlDecode(SignResult(c, r, k).signature)
  {
    var signed := SignResult(c, r, k);
    var other := signed.(signature := spelling);
    var u := r.(signatureAlgorithm := ED25519, signature := []);
    OwnSpelling(c, k, CanonicalResult(u));
    CanonicalUnambiguous(AnyResult(signed), AnyResult(other));
    CanonicalUnambiguous(AnyResult(signed), AnyResult(u));
    if Base64Url.UrlDecode(spelling) == Base64Url.UrlDecode(signed.signature) {
      ResultIsTamperEvident(c, r, k, other, Some(k));
    } else if VerifyResult(c, other, Some(k)) {
      VerifiedResultWasSigned(c, other, k);
    }
  }

  /** An Ed25519 signature has 64 bytes, one more than a multiple of three, so there always
      is another spelling: a different record that verifies. */
  lemma SignatureTextIsMalleable(c: Crypto, r: JobReply, k: Key)
    requires Ideal(c) && |c.sign(k, CanonicalResult(SignResult(c, r, k)))| == 64
    ensures Base64Url.HasSpareBits(SignResult(c, r, k).signature)
    ensures var signed := SignResult(c, r, k);
            var other := signed.(signature := Base64Url.Respelled(signed.signature));
            other != signed && VerifyResult(c, other, Some(k))
  {
    hide VerifyResult, CanonicalResult, Base64Url.UrlEncode, Base64Url.UrlDecode;
    var u := r.(signatureAlgorithm := ED25519, signature := []);
    var s := c.sign(k, CanonicalResult(u));
    CanonicalUnambiguous(AnyResult(u), AnyResult(SignResult(c, r, k)));
    Base64Url.SpareBitsAreIgnored(s);
    Base64Url.UrlRoundTrip(s);
    RespelledResultVerifies(c, r, k, Base64Url.Respelled(SignatureText(c, k, CanonicalResult(u))));
  }

  /** A verified result was signed: its signature is that of its own unsigned fields. */
  lemma VerifiedResultWasSigned(c: Crypto, r: JobReply, k: Key)
    requires Ideal(c) && VerifyResult(c, r, Some(k))
    ensures Base64Url.UrlDecode(r.signature) == Ok(c.sign(k, CanonicalResult(r)))
  {
    var s := Base64Url.UrlDecode(r.signature).value;
    assert c.verify(k, CanonicalResult(r), s);
  }

  // ---- The whole pipeline ----

  /** A result signed, printed, framed, sent in any pieces, received in any pieces,
      split, parsed and re-canonicalised is the signed record and verifies. */
  lemma SignedResultArrives(c: Crypto, r: JobReply, k: Key, sends: seq<Event>, receives: seq<Event>, tail: bytes)
    requires Ideal(c) && Readable(r.completedAt)
    requires var body := ResultEnvelope(SignResult(c, r, k));
             EncodeFrame(body).Ok? && SendAll(EncodeFrame(body).value, sends).error == None
    ensures var sent := SendAll(EncodeFrame(ResultEnvelope(SignResult(c, r, k))).value, sends).written;
            match RecvFramed(sent + tail, receives)
            case Ok(w) =>
              w.incoming == tail && ParseResult(w.data) == Ok(SignResult(c, r, k)) &&
              VerifyResult(c, SignResult(c, r, k), Some(k))
            case Throws(e) => NetworkError(e)
  {
    var signed := SignResult(c, r, k);
    var body := ResultEnvelope(signed);
    SendAllSound(EncodeFrame(body).value, sends);
    RecvFramedComplete(body, tail, receives);
    ResultRoundTrip(signed);
    ResultIsTamperEvident(c, r, k, signed, Some(k));
  }

  lemma SignedNoticeArrives(c: Crypto, n: Notice, k: Key, sends: seq<Event>, receives: seq<Event>, tail: bytes)
    requires Ideal(c) && Readable(n.observedAt)
    requires var body := NoticeEnvelope(SignNotice(c, n, k));
             EncodeFrame(body).Ok? && SendAll(EncodeFrame(body).value, sends).error == None
    ensures var sent := SendAll(EncodeFrame(NoticeEnvelope(SignNotice(c, n, k))).value, sends).written;
            match RecvFramed(sent + tail, receives)
            case Ok(w) =>
              w.incoming == tail && ParseNotice(w.data) == Ok(SignNotice(c, n, k)) &&
              VerifyNotice(c, SignNotice(c, n, k), Some(k))
            case Throws(e) => NetworkError(e)
  {
    var signed := SignNotice(c, n, k);
    var body := NoticeEnvelope(signed);
    SendAllSound(EncodeFrame(body).value, sends);
    RecvFramedComplete(body, tail, receives);
    NoticeRoundTrip(signed);
    NoticeIsTamperEvident(c, n, k, signed, Some(k));
  }

  // ---- Signatures across languages ----

  lemma SignatureTextIsAscii(c: Crypto, k: Key, m: bytes)
    ensures Utf8.EncodeText(SignatureText(c, k, m)) == SignatureText(c, k, m)
  {
    var t := SignatureText(c, k, m);
    Base64Url.EncodingShape(c.sign(k, m));
    forall b | b in t ensures b <= '~' {}
    Utf8Ascii(t);
  }

  /** r as sign_job_result of job.py returns it, text being its canonical_json. */
  function PySigned(c: Crypto, k: Key, r: PyResult, text: bytes): PyResult {
    r.(signature := SignatureText(c, k, text))
  }

  /** A result that Python signs and sends is always parsed by C++, but its signature
      verifies there if and only if no string in it has a character above '~'. */
  lemma PythonSignatureInCpp(c: Crypto, k: Key, r: PyResult, text: bytes, body: bytes)
    requires Ideal(c) && Readable(r.completedAt) && r.signatureAlgorithm == "Ed25519"
    requires IsDumps(UnsignedResultDict(r), text) && IsResultBody(PySigned(c, k, r, text), body)
    ensures ParseResult(body) == Ok(ResultInUtf8(PySigned(c, k, r, text)))
    ensures VerifyResult(c, ResultInUtf8(PySigned(c, k, r, text)), Some(k)) <==> AsciiResult(r)
  {
    hide IsResultBody, IsDumps, SignatureText, ParseResult, PrintableOrControl, CanonicalResult;
    var received := ResultInUtf8(PySigned(c, k, r, text));
    PythonResultIsParsed(PySigned(c, k, r, text), body);
    SignatureTextIsAscii(c, k, text);
    AlgorithmIsAscii();
    OwnSpelling(c, k, text);
    SignatureVerifies(c, k, text, Some(k), CanonicalResult(received), SignatureText(c, k, text));
    CanonicalUnambiguous(AnyResult(received), AnyResult(ResultInUtf8(r)));
    CanonicalResultAgrees(r, text);
  }

  lemma AlgorithmIsAscii()
    ensures Utf8.EncodeText("Ed25519") == ED25519
  {
    Utf8Ascii("Ed25519");
  }
}
