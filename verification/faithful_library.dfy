/** The hypothesis of the route memory about its library can be met. */
module FaithfulLibrary {
  import opened Bytes
  import opened RouteMemory

  // ---- A text that says where it ends ----

  /** n times '1', and then the rest. */
  function Ones(n: nat, rest: bytes): bytes {
    if n == 0 then rest else ['1'] + Ones(n - 1, rest)
  }

  /** Every character in unary, after a '0', and a '2' at the end. */
  function Spell(s: string): bytes {
    if s == "" then ['2'] else ['0'] + Ones(s[0] as int, Spell(s[1..]))
  }

  function SpellAll(fs: seq<string>): bytes {
    if fs == [] then [] else Spell(fs[0]) + SpellAll(fs[1..])
  }

  function SpellInt(n: int): string {
    if n < 0 then "-" + Ones(-n, []) else Ones(n, [])
  }

  lemma {:induction false} OnesThen(n: nat, rest: bytes, x: bytes)
    ensures Ones(n, rest) + x == Ones(n, rest + x)
  {
    if n > 0 {
      OnesThen(n - 1, rest, x);
      Assoc(['1'], Ones(n - 1, rest), x);
    }
  }

  lemma {:induction false} OnesInjective(n: nat, m: nat, x: bytes, y: bytes)
    requires Ones(n, x) == Ones(m, y)
    requires (x == [] || x[0] != '1') && (y == [] || y[0] != '1')
    ensures n == m && x == y
  {
    assert n > 0 ==> Ones(n, x)[1..] == Ones(n - 1, x);
    assert m > 0 ==> Ones(m, y)[1..] == Ones(m - 1, y);
    if n > 0 && m > 0 {
      OnesInjective(n - 1, m - 1, x, y);
    }
  }

  lemma SpellThen(s: string, x: bytes)
    ensures Spell(s) + x == if s == "" then ['2'] + x else ['0'] + Ones(s[0] as int, Spell(s[1..]) + x)
  {
    if s != "" {
      OnesThen(s[0] as int, Spell(s[1..]), x);
      Assoc(['0'], Ones(s[0] as int, Spell(s[1..])), x);
    }
  }

  lemma {:induction false} SpellPrefixFree(s: string, t: string, x: bytes, y: bytes)
    requires Spell(s) + x == Spell(t) + y
    ensures s == t && x == y
    decreases |s|
  {
    SpellThen(s, x);
    SpellThen(t, y);
    assert (Spell(s) + x)[1..] == if s == "" then x else Ones(s[0] as int, Spell(s[1..]) + x);
    assert (Spell(t) + y)[1..] == if t == "" then y else Ones(t[0] as int, Spell(t[1..]) + y);
    if s != "" && t != "" {
      OnesInjective(s[0] as int, t[0] as int, Spell(s[1..]) + x, Spell(t[1..]) + y);
      SpellPrefixFree(s[1..], t[1..], x, y);
      assert s == [s[0]] + s[1..] && t == [t[0]] + t[1..];
    }
  }

  lemma {:induction false} SpellAllInjective(fs: seq<string>, gs: seq<string>)
    requires |fs| == |gs| && SpellAll(fs) == SpellAll(gs)
    ensures fs == gs
  {
    if fs != [] {
      SpellPrefixFree(fs[0], gs[0], SpellAll(fs[1..]), SpellAll(gs[1..]));
      SpellAllInjective(fs[1..], gs[1..]);
      assert fs == [fs[0]] + fs[1..] && gs == [gs[0]] + gs[1..];
    }
  }

  lemma {:induction false} OnesLength(n: nat)
    ensures |Ones(n, [])| == n && forall c | c in Ones(n, []) :: c == '1'
  {
    if n > 0 {
      OnesLength(n - 1);
    }
  }

  lemma SpellIntInjective(n: int, m: int)
    requires SpellInt(n) == SpellInt(m)
    ensures n == m
  {
    OnesLength(if n < 0 then -n else n);
    OnesLength(if m < 0 then -m else m);
    if n < 0 {
      assert SpellInt(n)[0] == '-';
    }
    if m < 0 {
      assert SpellInt(m)[0] == '-';
    }
  }

  lemma {:induction false} SpellIsHex(s: string)
    ensures IsHex(Spell(s))
  {
    if s != "" {
      SpellIsHex(s[1..]);
      OnesIsHex(s[0] as int, Spell(s[1..]));
    }
  }

  lemma {:induction false} OnesIsHex(n: nat, rest: bytes)
    requires IsHex(rest)
    ensures IsHex(Ones(n, rest))
  {
    if n > 0 {
      OnesIsHex(n - 1, rest);
    }
  }

  // ---- Payloads and deltas as lists of texts ----

  function JsonParts(j: Json): (fs: seq<string>)
    ensures |fs| == 2
  {
    match j
    case Text(text) => ["text", text]
    case Scalar(shown) => ["scalar", shown]
    case Unhashable(shown) => ["unhashable", shown]
  }

  function PayloadParts(p: Payload): (fs: seq<string>)
    ensures |fs| == 5
  {
    [JsonParts(p.conditionKey)[0], JsonParts(p.conditionKey)[1],
     JsonParts(p.result)[0], JsonParts(p.result)[1], SpellInt(p.version)]
  }

  function DeltaParts(d: ReferenceDelta): (fs: seq<string>)
    ensures |fs| == 13
  {
    [d.protocolVersion, d.messageId, d.senderId, d.organizationId, d.trajectoryAddress, SpellInt(d.baseVersion),
     SpellInt(d.newVersion), d.operation, d.scope, d.payload, d.integrityDigest, SpellInt(d.logicalClock), d.signature]
  }

  lemma JsonPartsInjective(i: Json, j: Json)
    requires JsonParts(i)[0] == JsonParts(j)[0] && JsonParts(i)[1] == JsonParts(j)[1]
    ensures i == j
  {
    assert |"text"| == 4 && |"scalar"| == 6 && |"unhashable"| == 10;
  }

  lemma PayloadPartsInjective(p: Payload, q: Payload)
    requires SpellAll(PayloadParts(p)) == SpellAll(PayloadParts(q))
    ensures p == q
  {
    hide SpellAll, JsonParts, SpellInt;
    SpellAllInjective(PayloadParts(p), PayloadParts(q));
    JsonPartsInjective(p.conditionKey, q.conditionKey);
    JsonPartsInjective(p.result, q.result);
    assert SpellInt(p.version) == PayloadParts(p)[4] == PayloadParts(q)[4];
    SpellIntInjective(p.version, q.version);
  }

  lemma DeltaPartsInjective(d: ReferenceDelta, e: ReferenceDelta)
    requires SpellAll(DeltaParts(d)) == SpellAll(DeltaParts(e))
    ensures d == e
  {
    hide SpellAll, SpellInt;
    SpellAllInjective(DeltaParts(d), DeltaParts(e));
    var fs, gs := DeltaParts(d), DeltaParts(e);
    assert fs[0] == gs[0] && fs[1] == gs[1] && fs[2] == gs[2] && fs[3] == gs[3] && fs[4] == gs[4];
    assert fs[5] == gs[5] && fs[6] == gs[6] && fs[7] == gs[7] && fs[8] == gs[8] && fs[9] == gs[9];
    assert fs[10] == gs[10] && fs[11] == gs[11] && fs[12] == gs[12];
    SpellIntInjective(d.baseVersion, e.baseVersion);
    SpellIntInjective(d.newVersion, e.newVersion);
    SpellIntInjective(d.logicalClock, e.logicalClock);
  }

  ghost function ReadPayload(text: string): Option<Payload> {
    if exists p :: SpellAll(PayloadParts(p)) == text then
      var p :| SpellAll(PayloadParts(p)) == text;
      Some(p)
    else None
  }

  ghost function ReadDelta(data: bytes): Option<ReferenceDelta> {
    if exists d :: SpellAll(DeltaParts(d)) == data then
      var d :| SpellAll(DeltaParts(d)) == data;
      Some(d)
    else None
  }

  lemma ReadPayloadInverts(p: Payload)
    ensures ReadPayload(SpellAll(PayloadParts(p))) == Some(p)
  {
    PayloadPartsInjective(p, ReadPayload(SpellAll(PayloadParts(p))).value);
  }

  lemma ReadDeltaInverts(d: ReferenceDelta)
    ensures ReadDelta(SpellAll(DeltaParts(d))) == Some(d)
  {
    DeltaPartsInjective(d, ReadDelta(SpellAll(DeltaParts(d))).value);
  }

  /** The spelling serves as hash and as JSON. */
  ghost function Spelling(): Library {
    Library((s: string) => s, (s: string) => Spell(s), (s: string) => s,
            (p: Payload) => SpellAll(PayloadParts(p)), (s: string) => ReadPayload(s),
            (d: ReferenceDelta) => SpellAll(DeltaParts(d)), (b: bytes) => ReadDelta(b))
  }

  lemma FaithfulExists()
    ensures exists l :: Faithful(l)
  {
    hide Spell, SpellAll, PayloadParts, DeltaParts, ReadPayload, ReadDelta;
    var l := Spelling();
    forall s ensures IsHex(l.sha256(s)) {
      SpellIsHex(s);
    }
    forall s, t | l.sha256(s) == l.sha256(t) ensures s == t {
      SpellPrefixFree(s, t, [], []);
    }
    forall p ensures l.loads(l.dumps(p)) == Some(p) {
      ReadPayloadInverts(p);
    }
    forall d ensures l.decode(l.encode(d)) == Some(d) {
      ReadDeltaInverts(d);
    }
    assert Faithful(l);
  }
}
