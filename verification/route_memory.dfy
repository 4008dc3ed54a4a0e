/** ResolutiveRouteMemory: a route learned once, found locally afterwards, and carried
    from one agent to another. */
module RouteMemory {
  import opened Bytes

  // A value that json.loads may return: a string, another hashable value (a number, true,
  // false or null) or a list or object, which cannot be a key of a dictionary. shown is
  // what an f-string prints for it.
  datatype Json = Text(text: string) | Scalar(shown: string) | Unhashable(shown: string)

  // A key of a Python dictionary: equal scalars (1, 1.0 and true) are one key.
  datatype DictKey = TextKey(text: string) | ScalarKey(number: string)

  // The annotations of RouteRecord say str; nothing enforces that on import.
  datatype RouteRecord = RouteRecord(trajectoryAddress: string, conditionKey: Json, result: Json, version: int, scope: string)

  datatype ReferenceDelta = ReferenceDelta(
    protocolVersion: string, messageId: string, senderId: string, organizationId: string, trajectoryAddress: string,
    baseVersion: int, newVersion: int, operation: string, scope: string, payload: string, integrityDigest: string,
    logicalClock: int, signature: string)

  datatype Payload = Payload(conditionKey: Json, result: Json, version: int)

  // The library functions the memory calls: whitespace and case normalisation, SHA-256
  // in hexadecimal, the number that a scalar equals, and the JSON texts of a payload and
  // of a delta. loads yields None for every text from which the three members of a
  // payload cannot be taken.
  datatype Library = Library(
    normalize: string -> string, sha256: string -> string, number: string -> string,
    dumps: Payload -> string, loads: string -> Option<Payload>,
    encode: ReferenceDelta -> bytes, decode: bytes -> Option<ReferenceDelta>)

  predicate IsHex(s: string) {
    forall c | c in s :: '0' <= c <= '9' || 'a' <= c <= 'f'
  }

  /** A payload of two strings, or one that was read from some text. */
  ghost predicate Genuine(l: Library, p: Payload) {
    (p.conditionKey.Text? && p.result.Text?) || exists text :: l.loads(text) == Some(p)
  }

  /** A hash in hexadecimal digits without collisions (so its length is left open), and
      JSON that reads back what was written. Nothing is said of the text of a list or an
      object, whose members dumps sorts. */
  ghost predicate Faithful(l: Library) {
    (forall s :: IsHex(l.sha256(s))) &&
    (forall s, t :: l.sha256(s) == l.sha256(t) ==> s == t) &&
    (forall p :: Genuine(l, p) && !p.conditionKey.Unhashable? && !p.result.Unhashable? ==>
      l.loads(l.dumps(p)) == Some(p)) &&
    (forall d :: l.decode(l.encode(d)) == Some(d))
  }

  datatype Error =
    | UnknownRoute | ResolverRaised | ValidatorRaised | RejectedByValidator | UnknownAddress
    | InvalidDelta | DeltaTooLarge | MalformedDelta
    | IntegrityMismatch | NotEligible | MalformedPayload | IdentityMismatch | UnhashableKey

  const SHARED := "shared"
  const GLOBAL := "global"
  const MAX_REFERENCE_DELTA_BYTES := 64 * 1024

  function ConditionKey(l: Library, condition: string): string {
    l.sha256(l.normalize(condition))
  }

  /** What an f-string prints for the value. */
  function Show(j: Json): string {
    if j.Text? then j.text else j.shown
  }

  function KeyOf(l: Library, j: Json): DictKey
    requires !j.Unhashable?
  {
    if j.Text? then TextKey(j.text) else ScalarKey(l.number(j.shown))
  }

  function DeriveAddress(l: Library, key: Json, result: Json): string {
    "rm:" + l.sha256("rm-route-v1|" + (Show(key) + (['|'] + Show(result))))
  }

  // ---- The two dictionaries ----

  // calls counts the external resolutions.
  datatype Memory = Memory(byCondition: map<DictKey, string>, byAddress: map<string, RouteRecord>, calls: nat)

  const EMPTY := Memory(map[], map[], 0)

  /** Stores a record under its address and then, if its key can be one, its condition. */
  function Register(l: Library, m: Memory, record: RouteRecord): Memory {
    var stored := m.(byAddress := m.byAddress[record.trajectoryAddress := record]);
    if record.conditionKey.Unhashable? then stored
    else stored.(byCondition := m.byCondition[KeyOf(l, record.conditionKey) := record.trajectoryAddress])
  }

  datatype Resolved = Resolved(result: Json, hit: bool, address: string)

  // What a call of resolve passes: possibly an external resolver, which raises or answers
  // with a string, and what becomes of the answer in the validator.
  datatype Verdict = Accepted | Refused | Raised
  datatype External = NoResolver | Raises | Answer(result: string, verdict: Verdict)

  function Resolve(l: Library, m: Memory, condition: string, external: External): (Memory, Result<Resolved, Error>) {
    var key := ConditionKey(l, condition);
    if TextKey(key) in m.byCondition then
      if m.byCondition[TextKey(key)] !in m.byAddress then (m, Throws(UnknownAddress))
      else
        var record := m.byAddress[m.byCondition[TextKey(key)]];
        (m, Ok(Resolved(record.result, true, record.trajectoryAddress)))
    else if external == NoResolver then (m, Throws(UnknownRoute))
    else
      var called := m.(calls := m.calls + 1);
      match external
      case Answer(result, Accepted) =>
        var record := Learned(l, key, result);
        (Register(l, called, record), Ok(Resolved(Text(result), false, record.trajectoryAddress)))
      case Answer(_, Refused) => (called, Throws(RejectedByValidator))
      case Answer(_, Raised) => (called, Throws(ValidatorRaised))
      case _ => (called, Throws(ResolverRaised))
  }

  /** The record of an accepted external answer. */
  function Learned(l: Library, key: string, result: string): RouteRecord {
    RouteRecord(DeriveAddress(l, Text(key), Text(result)), Text(key), Text(result), 1, SHARED)
  }

  predicate ValidDelta(d: ReferenceDelta) {
    d.operation in {"SET", "PATCH", "DELETE", "LINK", "TOMBSTONE"} &&
    d.scope in {"private", "user", SHARED, GLOBAL} &&
    d.baseVersion >= 0 && d.newVersion >= 0 && d.logicalClock >= 0 &&
    d.messageId != "" && d.senderId != "" && d.organizationId != "" && d.trajectoryAddress != ""
  }

  function EncodeDelta(l: Library, d: ReferenceDelta): Result<bytes, Error> {
    if !ValidDelta(d) then Throws(InvalidDelta)
    else if |l.encode(d)| > MAX_REFERENCE_DELTA_BYTES then Throws(DeltaTooLarge)
    else Ok(l.encode(d))
  }

  function DecodeDelta(l: Library, data: bytes): Result<ReferenceDelta, Error> {
    if |data| > MAX_REFERENCE_DELTA_BYTES then Throws(DeltaTooLarge)
    else
      match l.decode(data)
      case None => Throws(MalformedDelta)
      case Some(d) => if ValidDelta(d) then Ok(d) else Throws(InvalidDelta)
  }

  datatype Sender = Sender(senderId: string, organizationId: string, messageId: string, logicalClock: int)

  /** The delta that carries a payload text in a scope under an address. */
  function DeltaWith(l: Library, text: string, address: string, version: int, scope: string, sender: Sender): ReferenceDelta {
    ReferenceDelta("0.1", sender.messageId, sender.senderId, sender.organizationId, address, 0, version, "SET", scope,
                   text, l.sha256(text), sender.logicalClock, "reference-test-signature")
  }

  function PayloadOf(record: RouteRecord): Payload {
    Payload(record.conditionKey, record.result, record.version)
  }

  function DeltaOf(l: Library, record: RouteRecord, sender: Sender): ReferenceDelta {
    DeltaWith(l, l.dumps(PayloadOf(record)), record.trajectoryAddress, record.version, record.scope, sender)
  }

  function Export(l: Library, m: Memory, address: string, sender: Sender): Result<bytes, Error> {
    if address !in m.byAddress then Throws(UnknownAddress)
    else EncodeDelta(l, DeltaOf(l, m.byAddress[address], sender))
  }

  /** The record of a delta that passes every check of import_delta. */
  function CheckedRecord(l: Library, data: bytes): Result<RouteRecord, Error> {
    var d :- DecodeDelta(l, data);
    if l.sha256(d.payload) != d.integrityDigest then Throws(IntegrityMismatch)
    else if d.scope != SHARED && d.scope != GLOBAL then Throws(NotEligible)
    else
      match l.loads(d.payload)
      case None => Throws(MalformedPayload)
      case Some(raw) =>
        if DeriveAddress(l, raw.conditionKey, raw.result) != d.trajectoryAddress then Throws(IdentityMismatch)
        else Ok(RouteRecord(d.trajectoryAddress, raw.conditionKey, raw.result, raw.version, d.scope))
  }

  function Import(l: Library, m: Memory, data: bytes): (Memory, Result<RouteRecord, Error>) {
    match CheckedRecord(l, data)
    case Throws(e) => (m, Throws(e))
    case Ok(record) =>
      (Register(l, m, record), if record.conditionKey.Unhashable? then Throws(UnhashableKey) else Ok(record))
  }

  // ---- The memory object ----

  class ResolutiveRouteMemory {
    const library: Library
    var byCondition: map<DictKey, string>
    var byAddress: map<string, RouteRecord>
    var externalResolutionCalls: nat

    constructor (l: Library)
      ensures library == l && Contents() == EMPTY
    {
      library := l;
      byCondition, byAddress, externalResolutionCalls := map[], map[], 0;
    }

    function Contents(): Memory
      reads this
    {
      Memory(byCondition, byAddress, externalResolutionCalls)
    }

    method ResolveCondition(condition: string, external: External) returns (r: Result<Resolved, Error>)
      modifies this
      ensures (Contents(), r) == Resolve(library, old(Contents()), condition, external)
    {
      var key := ConditionKey(library, condition);
      if TextKey(key) in byCondition {
        var address := byCondition[TextKey(key)];
        if address !in byAddress {
          return Throws(UnknownAddress);
        }
        var record := byAddress[address];
        return Ok(Resolved(record.result, true, record.trajectoryAddress));
      }
      if external == NoResolver {
        return Throws(UnknownRoute);
      }
      externalResolutionCalls := externalResolutionCalls + 1;
      if external == Raises {
        return Throws(ResolverRaised);
      }
      if external.verdict == Raised {
        return Throws(ValidatorRaised);
      }
      if external.verdict == Refused {
        return Throws(RejectedByValidator);
      }
      var result := Text(external.result);
      var address := DeriveAddress(library, Text(key), result);
      var record := RouteRecord(address, Text(key), result, 1, SHARED);
      byCondition := byCondition[TextKey(key) := address];
      byAddress := byAddress[address := record];
      return Ok(Resolved(result, false, address));
    }

    method ImportDelta(data: bytes) returns (r: Result<RouteRecord, Error>)
      modifies this
      ensures (Contents(), r) == Import(library, old(Contents()), data)
    {
      var d :- DecodeDelta(library, data);
      if library.sha256(d.payload) != d.integrityDigest {
        return Throws(IntegrityMismatch);
      }
      if d.scope != SHARED && d.scope != GLOBAL {
        return Throws(NotEligible);
      }
      var raw := library.loads(d.payload);
      if raw == None {
        return Throws(MalformedPayload);
      }
      var expected := DeriveAddress(library, raw.value.conditionKey, raw.value.result);
      if expected != d.trajectoryAddress {
        return Throws(IdentityMismatch);
      }
      var record := RouteRecord(d.trajectoryAddress, raw.value.conditionKey, raw.value.result, raw.value.version, d.scope);
      byAddress := byAddress[record.trajectoryAddress := record];
      if record.conditionKey.Unhashable? {
        return Throws(UnhashableKey);
      }
      byCondition := byCondition[KeyOf(library, record.conditionKey) := record.trajectoryAddress];
      return Ok(record);
    }
  }

  // ---- The index invariant ----

  /** The record's address is derived from its own key and result. */
  predicate Derived(l: Library, r: RouteRecord) {
    r.trajectoryAddress == DeriveAddress(l, r.conditionKey, r.result)
  }

  /** Every condition leads to a stored record of that condition, and every record is
      stored under its derived address. */
  ghost predicate Indexed(l: Library, m: Memory) {
    (forall key | key in m.byCondition ::
      m.byCondition[key] in m.byAddress &&
      var found := m.byAddress[m.byCondition[key]].conditionKey;
      !found.Unhashable? && KeyOf(l, found) == key) &&
    (forall a | a in m.byAddress :: m.byAddress[a].trajectoryAddress == a && Derived(l, m.byAddress[a]))
  }

  /** The one way registering breaks the index: the address is already used by another
      condition that still leads to it. */
  predicate Displaces(l: Library, m: Memory, record: RouteRecord) {
    record.trajectoryAddress in m.byAddress &&
    var other := m.byAddress[record.trajectoryAddress].conditionKey;
    !other.Unhashable? && KeyOf(l, other) in m.byCondition &&
    m.byCondition[KeyOf(l, other)] == record.trajectoryAddress &&
    (record.conditionKey.Unhashable? || KeyOf(l, other) != KeyOf(l, record.conditionKey))
  }

  /** Registering a derived record keeps the index if and only if it displaces nothing. */
  lemma RegisterKeepsIndexExactly(l: Library, m: Memory, record: RouteRecord)
    requires Indexed(l, m) && Derived(l, record)
    ensures Indexed(l, Register(l, m, record)) <==> !Displaces(l, m, record)
  {
    var n := Register(l, m, record);
    if Displaces(l, m, record) {
      var other := KeyOf(l, m.byAddress[record.trajectoryAddress].conditionKey);
      assert other in n.byCondition && n.byCondition[other] == record.trajectoryAddress;
    } else {
      forall key | key in n.byCondition
        ensures n.byCondition[key] in n.byAddress &&
                var found := n.byAddress[n.byCondition[key]].conditionKey;
                !found.Unhashable? && KeyOf(l, found) == key
      {
        if record.conditionKey.Unhashable? || key != KeyOf(l, record.conditionKey) {
          assert key in m.byCondition && m.byCondition[key] in m.byAddress;
        }
      }
    }
  }

  // ---- Addresses identify routes when keys are strings without a bar ----

  predicate BarFree(s: string) {
    '|' !in s
  }

  lemma FirstBar(a: string, x: string)
    requires BarFree(a)
    ensures (a + (['|'] + x))[|a|] == '|' && forall i | 0 <= i < |a| :: (a + (['|'] + x))[i] != '|'
  {
    forall i | 0 <= i < |a| ensures (a + (['|'] + x))[i] != '|' {
      assert a[i] in a;
    }
  }

  lemma SplitAtBar(a: string, b: string, x: string, y: string)
    requires BarFree(a) && BarFree(b) && a + (['|'] + x) == b + (['|'] + y)
    ensures a == b && x == y
  {
    FirstBar(a, x);
    FirstBar(b, y);
    var s := a + (['|'] + x);
    assert |a| == |b|;
    assert a == s[..|a|] && b == s[..|b|] && x == s[|a| + 1..] && y == s[|b| + 1..];
  }

  /** Without collisions an address determines the text it was derived from. */
  lemma AddressOfText(l: Library, s: string, t: string)
    requires Faithful(l) && "rm:" + l.sha256("rm-route-v1|" + s) == "rm:" + l.sha256("rm-route-v1|" + t)
    ensures s == t
  {
    var p := "rm-route-v1|";
    assert l.sha256(p + s) == ("rm:" + l.sha256(p + s))[3..];
    assert l.sha256(p + t) == ("rm:" + l.sha256(p + t))[3..];
    assert s == (p + s)[|p|..] && t == (p + t)[|p|..];
  }

  /** If no key prints a bar, an address determines what key and result print. */
  lemma AddressIsInjective(l: Library, key: Json, result: Json, key': Json, result': Json)
    requires Faithful(l) && BarFree(Show(key)) && BarFree(Show(key'))
    requires DeriveAddress(l, key, result) == DeriveAddress(l, key', result')
    ensures Show(key) == Show(key') && Show(result) == Show(result')
  {
    AddressOfText(l, Show(key) + (['|'] + Show(result)), Show(key') + (['|'] + Show(result')));
    SplitAtBar(Show(key), Show(key'), Show(result), Show(result'));
  }

  lemma ConditionKeyIsBarFree(l: Library, condition: string)
    requires Faithful(l)
    ensures BarFree(ConditionKey(l, condition))
  {
    assert IsHex(ConditionKey(l, condition));
  }

  /** A record whose key is a string without a bar and whose payload is genuine. */
  ghost predicate Clean(l: Library, r: RouteRecord) {
    r.conditionKey.Text? && BarFree(r.conditionKey.text) && Genuine(l, PayloadOf(r))
  }

  ghost predicate AllClean(l: Library, m: Memory) {
    forall a | a in m.byAddress :: Clean(l, m.byAddress[a])
  }

  /** Registering clean records keeps the index, so an address keeps naming one condition. */
  lemma CleanRegisterKeepsIndex(l: Library, m: Memory, record: RouteRecord)
    requires Faithful(l) && Indexed(l, m) && AllClean(l, m) && Derived(l, record) && Clean(l, record)
    ensures Indexed(l, Register(l, m, record)) && AllClean(l, Register(l, m, record))
  {
    hide Faithful, Genuine;
    if record.trajectoryAddress in m.byAddress {
      var former := m.byAddress[record.trajectoryAddress];
      assert Derived(l, former) && Clean(l, former);
      AddressIsInjective(l, former.conditionKey, former.result, record.conditionKey, record.result);
    }
    RegisterKeepsIndexExactly(l, m, record);
  }

  /** Two values are one key of a dictionary if they are the same string or equal scalars;
      a string is never equal to a scalar, whatever they print. */
  lemma SameDictKey(l: Library, i: Json, j: Json)
    requires !i.Unhashable? && !j.Unhashable?
    ensures KeyOf(l, i) == KeyOf(l, j) <==>
            (i.Text? && j.Text? && i.text == j.text) ||
            (i.Scalar? && j.Scalar? && l.number(i.shown) == l.number(j.shown))
  {
  }

  // ---- Whole histories ----

  datatype Operation = DoResolve(condition: string, external: External) | DoImport(data: bytes)

  /** An import whose condition key, if it passes the checks, is a string without a bar. */
  predicate CleanOperation(l: Library, op: Operation) {
    op.DoImport? && CheckedRecord(l, op.data).Ok? ==>
      var key := CheckedRecord(l, op.data).value.conditionKey;
      key.Text? && BarFree(key.text)
  }

  function Apply(l: Library, m: Memory, op: Operation): Memory {
    match op
    case DoResolve(condition, external) => Resolve(l, m, condition, external).0
    case DoImport(data) => Import(l, m, data).0
  }

  /** The memory after the operations, from empty. */
  function After(l: Library, ops: seq<Operation>): Memory {
    if ops == [] then EMPTY else Apply(l, After(l, ops[..|ops| - 1]), ops[|ops| - 1])
  }

  lemma CheckedIsGenuine(l: Library, data: bytes)
    requires CheckedRecord(l, data).Ok?
    ensures Genuine(l, PayloadOf(CheckedRecord(l, data).value)) && Derived(l, CheckedRecord(l, data).value)
  {
    var text := DecodeDelta(l, data).value.payload;
    assert l.loads(text) == Some(PayloadOf(CheckedRecord(l, data).value));
  }

  /** Counting a call changes neither dictionary. */
  lemma CountedKeepsIndex(l: Library, m: Memory)
    ensures Indexed(l, m.(calls := m.calls + 1)) <==> Indexed(l, m)
    ensures AllClean(l, m.(calls := m.calls + 1)) <==> AllClean(l, m)
    ensures Linked(l, m.(calls := m.calls + 1)) <==> Linked(l, m)
  {
    hide Derived, Clean;
  }

  lemma LearnedIsClean(l: Library, condition: string, result: string)
    requires Faithful(l)
    ensures var record := Learned(l, ConditionKey(l, condition), result); Derived(l, record) && Clean(l, record)
  {
    ConditionKeyIsBarFree(l, condition);
  }

  lemma ApplyKeepsIndex(l: Library, m: Memory, op: Operation)
    requires Faithful(l) && Indexed(l, m) && AllClean(l, m) && CleanOperation(l, op)
    ensures Indexed(l, Apply(l, m, op)) && AllClean(l, Apply(l, m, op))
  {
    hide Faithful, Indexed, AllClean, Genuine, CheckedRecord, Register, Learned;
    match op
    case DoResolve(condition, external) =>
      CountedKeepsIndex(l, m);
      if external.Answer? {
        LearnedIsClean(l, condition, external.result);
        CleanRegisterKeepsIndex(l, m.(calls := m.calls + 1), Learned(l, ConditionKey(l, condition), external.result));
      }
    case DoImport(data) =>
      if CheckedRecord(l, data).Ok? {
        CheckedIsGenuine(l, data);
        CleanRegisterKeepsIndex(l, m, CheckedRecord(l, data).value);
      }
  }

  /** After any sequence of resolves and imports with clean keys, successful or not,
      every condition leads to its own record under its derived address. */
  lemma {:induction false} HistoriesKeepIndex(l: Library, ops: seq<Operation>)
    requires Faithful(l) && forall op | op in ops :: CleanOperation(l, op)
    ensures Indexed(l, After(l, ops)) && AllClean(l, After(l, ops))
    decreases |ops|
  {
    if ops != [] {
      var n := |ops| - 1;
      forall op | op in ops[..n] ensures CleanOperation(l, op) { assert op in ops; }
      HistoriesKeepIndex(l, ops[..n]);
      ApplyKeepsIndex(l, After(l, ops[..n]), ops[n]);
    }
  }

  /** Every condition leads to some record, and every record is under its derived address. */
  ghost predicate Linked(l: Library, m: Memory) {
    (forall key | key in m.byCondition :: m.byCondition[key] in m.byAddress) &&
    (forall a | a in m.byAddress :: m.byAddress[a].trajectoryAddress == a && Derived(l, m.byAddress[a]))
  }

  lemma RegisterKeepsLinks(l: Library, m: Memory, record: RouteRecord)
    requires Linked(l, m) && Derived(l, record)
    ensures Linked(l, Register(l, m, record))
  {
  }

  lemma ApplyKeepsLinks(l: Library, m: Memory, op: Operation)
    requires Linked(l, m)
    ensures Linked(l, Apply(l, m, op))
  {
    hide Linked, Genuine, Register;
    match op
    case DoResolve(condition, external) =>
      CountedKeepsIndex(l, m);
      if external.Answer? {
        RegisterKeepsLinks(l, m.(calls := m.calls + 1), Learned(l, ConditionKey(l, condition), external.result));
      }
    case DoImport(data) =>
      if CheckedRecord(l, data).Ok? {
        CheckedIsGenuine(l, data);
        RegisterKeepsLinks(l, m, CheckedRecord(l, data).value);
      }
  }

  /** This much holds after any history whatever, so a known condition is never a KeyError. */
  lemma {:induction false} HistoriesKeepLinks(l: Library, ops: seq<Operation>, condition: string, external: External)
    ensures Linked(l, After(l, ops))
    ensures Resolve(l, After(l, ops), condition, external).1 != Throws(UnknownAddress)
    decreases |ops|
  {
    hide Apply, Register;
    if ops != [] {
      HistoriesKeepLinks(l, ops[..|ops| - 1], condition, external);
      ApplyKeepsLinks(l, After(l, ops[..|ops| - 1]), ops[|ops| - 1]);
    }
  }

  // ---- Why the keys must be clean ----

  /** A delta that carries a payload under its derived address, in a scope that can be
      imported, passes every check. */
  lemma CarriedIsChecked(l: Library, text: string, raw: Payload, version: int, scope: string, sender: Sender)
    requires Faithful(l) && l.loads(text) == Some(raw) && (scope == SHARED || scope == GLOBAL)
    requires var address := DeriveAddress(l, raw.conditionKey, raw.result);
             EncodeDelta(l, DeltaWith(l, text, address, version, scope, sender)).Ok?
    ensures var address := DeriveAddress(l, raw.conditionKey, raw.result);
            CheckedRecord(l, EncodeDelta(l, DeltaWith(l, text, address, version, scope, sender)).value) ==
            Ok(RouteRecord(address, raw.conditionKey, raw.result, raw.version, scope))
  {
    var d := DeltaWith(l, text, DeriveAddress(l, raw.conditionKey, raw.result), version, scope, sender);
    assert l.decode(l.encode(d)) == Some(d);
  }

  /** A key that reaches past a bar into the result of another route: the import is
      accepted, takes that route's address, and changes what its condition resolves to. */
  lemma BarredKeyDisplaces(l: Library, m: Memory, key: string, x: string, y: string, version: int, scope: string, sender: Sender)
    requires Faithful(l) && Indexed(l, m) && TextKey(key) in m.byCondition && (scope == SHARED || scope == GLOBAL)
    requires Show(m.byAddress[m.byCondition[TextKey(key)]].result) == x + (['|'] + y)
    requires var address := m.byCondition[TextKey(key)];
             EncodeDelta(l, DeltaOf(l, RouteRecord(address, Text(key + (['|'] + x)), Text(y), version, scope), sender)).Ok?
    ensures var address := m.byCondition[TextKey(key)];
            var record := RouteRecord(address, Text(key + (['|'] + x)), Text(y), version, scope);
            var (n, r) := Import(l, m, EncodeDelta(l, DeltaOf(l, record, sender)).value);
            r == Ok(record) && !Indexed(l, n) && n.byCondition[TextKey(key)] == address &&
            Show(n.byAddress[address].result) == y != Show(m.byAddress[address].result)
  {
    hide Faithful, EncodeDelta, CheckedRecord;
    var address := m.byCondition[TextKey(key)];
    var record := RouteRecord(address, Text(key + (['|'] + x)), Text(y), version, scope);
    BarMoves(l, m.byAddress[address], key, x, y);
    assert Genuine(l, PayloadOf(record));
    GenuineReadsBack(l, PayloadOf(record));
    CarriedIsChecked(l, l.dumps(PayloadOf(record)), PayloadOf(record), version, scope, sender);
    RegisterKeepsIndexExactly(l, m, record);
  }

  /** Moving a bar from the result into the key does not change the address. */
  lemma BarMoves(l: Library, former: RouteRecord, key: string, x: string, y: string)
    requires Derived(l, former) && former.conditionKey == Text(key) && Show(former.result) == x + (['|'] + y)
    ensures DeriveAddress(l, Text(key + (['|'] + x)), Text(y)) == former.trajectoryAddress
    ensures key + (['|'] + x) != key && y != Show(former.result)
  {
    assert key + (['|'] + (x + (['|'] + y))) == key + (['|'] + x) + (['|'] + y);
    assert |key + (['|'] + x)| > |key|;
    assert |x + (['|'] + y)| > |y|;
  }

  lemma GenuineReadsBack(l: Library, p: Payload)
    requires Faithful(l) && Genuine(l, p) && !p.conditionKey.Unhashable? && !p.result.Unhashable?
    ensures l.loads(l.dumps(p)) == Some(p)
  {
  }

  /** A key that is not a string but prints like one: without any bar it takes the address
      of the condition that has the string as its key, as 5 does that of "5". */
  lemma ScalarKeyDisplaces(l: Library, m: Memory, text: string, raw: Payload, scope: string, sender: Sender)
    requires Faithful(l) && Indexed(l, m) && (scope == SHARED || scope == GLOBAL)
    requires l.loads(text) == Some(raw) && raw.conditionKey.Scalar? && TextKey(raw.conditionKey.shown) in m.byCondition
    requires Show(raw.result) == Show(m.byAddress[m.byCondition[TextKey(raw.conditionKey.shown)]].result)
    requires var address := m.byCondition[TextKey(raw.conditionKey.shown)];
             EncodeDelta(l, DeltaWith(l, text, address, raw.version, scope, sender)).Ok?
    ensures var address := m.byCondition[TextKey(raw.conditionKey.shown)];
            var (n, r) := Import(l, m, EncodeDelta(l, DeltaWith(l, text, address, raw.version, scope, sender)).value);
            r == Ok(RouteRecord(address, raw.conditionKey, raw.result, raw.version, scope)) && !Indexed(l, n)
  {
    var address := m.byCondition[TextKey(raw.conditionKey.shown)];
    assert Derived(l, m.byAddress[address]);
    CarriedIsChecked(l, text, raw, raw.version, scope, sender);
    RegisterKeepsIndexExactly(l, m, RouteRecord(address, raw.conditionKey, raw.result, raw.version, scope));
  }

  /** A concrete history: the key "5" and then the key 5, both without a bar. */
  lemma FiveDisplacesItsText(l: Library, texts: (string, string), sender: Sender)
    requires Faithful(l)
    requires l.loads(texts.0) == Some(Payload(Text("5"), Text("r"), 1))
    requires l.loads(texts.1) == Some(Payload(Scalar("5"), Text("r"), 1))
    requires var address := DeriveAddress(l, Text("5"), Text("r"));
             EncodeDelta(l, DeltaWith(l, texts.0, address, 1, SHARED, sender)).Ok? &&
             EncodeDelta(l, DeltaWith(l, texts.1, address, 1, SHARED, sender)).Ok?
    ensures var address := DeriveAddress(l, Text("5"), Text("r"));
            var one := Import(l, EMPTY, EncodeDelta(l, DeltaWith(l, texts.0, address, 1, SHARED, sender)).value);
            var two := Import(l, one.0, EncodeDelta(l, DeltaWith(l, texts.1, address, 1, SHARED, sender)).value);
            one.1.Ok? && two.1.Ok? && Indexed(l, one.0) && !Indexed(l, two.0) && BarFree("5")
  {
    var address := DeriveAddress(l, Text("5"), Text("r"));
    var record := RouteRecord(address, Text("5"), Text("r"), 1, SHARED);
    CarriedIsChecked(l, texts.0, Payload(Text("5"), Text("r"), 1), 1, SHARED, sender);
    RegisterKeepsIndexExactly(l, EMPTY, record);
    ScalarKeyDisplaces(l, Register(l, EMPTY, record), texts.1, Payload(Scalar("5"), Text("r"), 1), SHARED, sender);
  }

  // ---- Rejected calls ----

  /** The delta passes every check and then fails as a key of _by_condition. */
  predicate FailsAsKey(l: Library, data: bytes) {
    CheckedRecord(l, data).Ok? && CheckedRecord(l, data).value.conditionKey.Unhashable?
  }

  /** A rejected resolve changes neither dictionary. A rejected import changes nothing if
      and only if it did not fail as a key, unless the very record was stored before; and
      when it does, it has changed the record of one address. */
  lemma RejectionChangesNothingExactly(l: Library, m: Memory, condition: string, external: External, data: bytes)
    ensures var (n, r) := Resolve(l, m, condition, external);
            r.Throws? ==> n.byCondition == m.byCondition && n.byAddress == m.byAddress
    ensures var (n, r) := Import(l, m, data);
            r.Throws? ==>
              n.byCondition == m.byCondition && n.calls == m.calls &&
              (n == m <==> (FailsAsKey(l, data) ==>
                var record := CheckedRecord(l, data).value;
                record.trajectoryAddress in m.byAddress && m.byAddress[record.trajectoryAddress] == record))
  {
    if FailsAsKey(l, data) {
      var record := CheckedRecord(l, data).value;
      var n := Import(l, m, data).0;
      assert record.trajectoryAddress in n.byAddress && n.byAddress[record.trajectoryAddress] == record;
      if record.trajectoryAddress in m.byAddress && m.byAddress[record.trajectoryAddress] == record {
        assert n.byAddress == m.byAddress;
      }
    }
  }

  /** A concrete import, with the condition key ["x"]: it raises after it has stored its
      record, so an empty memory is left with a record that no condition leads to. */
  lemma ListKeyLeavesARecord(l: Library, text: string, sender: Sender)
    requires Faithful(l) && l.loads(text) == Some(Payload(Unhashable("['x']"), Text("r"), 1))
    requires var address := DeriveAddress(l, Unhashable("['x']"), Text("r"));
             EncodeDelta(l, DeltaWith(l, text, address, 1, SHARED, sender)).Ok?
    ensures var address := DeriveAddress(l, Unhashable("['x']"), Text("r"));
            var record := RouteRecord(address, Unhashable("['x']"), Text("r"), 1, SHARED);
            Import(l, EMPTY, EncodeDelta(l, DeltaWith(l, text, address, 1, SHARED, sender)).value) ==
            (Memory(map[], map[address := record], 0), Throws(UnhashableKey))
  {
    CarriedIsChecked(l, text, Payload(Unhashable("['x']"), Text("r"), 1), 1, SHARED, sender);
  }

  // ---- Sharing a route ----

  /** What one agent exports of a record without lists or objects, another accepts
      unchanged, unless its scope is neither shared nor global. */
  lemma ImportOfExport(l: Library, a: Memory, address: string, sender: Sender)
    requires Faithful(l) && Linked(l, a) && Export(l, a, address, sender).Ok?
    requires Genuine(l, PayloadOf(a.byAddress[address]))
    requires !a.byAddress[address].conditionKey.Unhashable? && !a.byAddress[address].result.Unhashable?
    ensures var data := Export(l, a, address, sender).value;
            CheckedRecord(l, data) ==
              if a.byAddress[address].scope == SHARED || a.byAddress[address].scope == GLOBAL
              then Ok(a.byAddress[address]) else Throws(NotEligible)
  {
    var record := a.byAddress[address];
    var d := DeltaOf(l, record, sender);
    assert l.decode(l.encode(d)) == Some(d);
    assert l.loads(l.dumps(PayloadOf(record))) == Some(PayloadOf(record));
    assert Derived(l, record);
  }

  /** For any record, if its text reads back as the same key with some result, the import
      is accepted if and only if that result prints the same: an object whose members were
      not sorted does not. */
  lemma ImportOfExportExactly(l: Library, a: Memory, address: string, sender: Sender, back: Json)
    requires Faithful(l) && Linked(l, a) && Export(l, a, address, sender).Ok?
    requires a.byAddress[address].scope == SHARED || a.byAddress[address].scope == GLOBAL
    requires var p := PayloadOf(a.byAddress[address]); l.loads(l.dumps(p)) == Some(p.(result := back))
    ensures var checked := CheckedRecord(l, Export(l, a, address, sender).value);
            if Show(back) == Show(a.byAddress[address].result) then checked == Ok(a.byAddress[address].(result := back))
            else checked == Throws(IdentityMismatch)
  {
    var record := a.byAddress[address];
    var d := DeltaOf(l, record, sender);
    assert l.decode(l.encode(d)) == Some(d);
    assert Derived(l, record);
    AddressOfResult(l, record.conditionKey, back, record.result);
  }

  /** For one key, an address determines what the result prints. */
  lemma AddressOfResult(l: Library, key: Json, result: Json, result': Json)
    requires Faithful(l)
    ensures DeriveAddress(l, key, result) == DeriveAddress(l, key, result') <==> Show(result) == Show(result')
  {
    if DeriveAddress(l, key, result) == DeriveAddress(l, key, result') {
      var k, x, y := Show(key), Show(result), Show(result');
      AddressOfText(l, k + (['|'] + x), k + (['|'] + y));
      assert x == (k + (['|'] + x))[|k| + 1..] && y == (k + (['|'] + y))[|k| + 1..];
    }
  }

  /** Export from A and import into B make B resolve every condition with the same
      normal form to A's result and address, as a hit, with no external call. */
  lemma SharedRouteIsAHit(l: Library, a: Memory, b: Memory, learned: string, asked: string, sender: Sender, external: External)
    requires Faithful(l) && Indexed(l, a) && AllClean(l, a) && Indexed(l, b) && AllClean(l, b)
    requires TextKey(ConditionKey(l, learned)) in a.byCondition && l.normalize(asked) == l.normalize(learned)
    requires var address := a.byCondition[TextKey(ConditionKey(l, learned))];
             a.byAddress[address].scope in {SHARED, GLOBAL} && !a.byAddress[address].result.Unhashable? &&
             Export(l, a, address, sender).Ok?
    ensures var address := a.byCondition[TextKey(ConditionKey(l, learned))];
            var (n, r) := Import(l, b, Export(l, a, address, sender).value);
            r == Ok(a.byAddress[address]) && Indexed(l, n) && n.calls == b.calls &&
            Resolve(l, n, asked, external) == (n, Ok(Resolved(a.byAddress[address].result, true, address)))
  {
    hide Faithful, Genuine, EncodeDelta, CheckedRecord;
    var address := a.byCondition[TextKey(ConditionKey(l, learned))];
    var record := a.byAddress[address];
    assert Clean(l, record);
    ImportOfExport(l, a, address, sender);
    CleanRegisterKeepsIndex(l, b, record);
  }

  /** A resolved condition is from then on a hit with the same answer. */
  lemma ResolvedIsAHit(l: Library, m: Memory, condition: string, first: External, later: External)
    requires Faithful(l) && Indexed(l, m) && AllClean(l, m) && Resolve(l, m, condition, first).1.Ok?
    ensures var (n, r) := Resolve(l, m, condition, first);
            Indexed(l, n) && Resolve(l, n, condition, later) == (n, Ok(Resolved(r.value.result, true, r.value.address)))
  {
    ApplyKeepsIndex(l, m, DoResolve(condition, first));
  }

  // ---- Hits and misses ----

  /** A known condition is a hit, which changes nothing and asks no one. An unknown one
      succeeds exactly if there is a resolver and its answer is accepted, and then with that
      answer, registered in version 1 and ready to be shared. The resolver is counted when it
      is asked, whatever comes of it. */
  lemma ResolveExactly(l: Library, m: Memory, condition: string, external: External)
    requires Linked(l, m)
    ensures var key := TextKey(l.sha256(l.normalize(condition)));
            var (n, r) := Resolve(l, m, condition, external);
            if key in m.byCondition then
              n == m && r == Ok(Resolved(m.byAddress[m.byCondition[key]].result, true, m.byCondition[key]))
            else
              n.calls == m.calls + (if external.NoResolver? then 0 else 1) &&
              (r.Ok? <==> external.Answer? && external.verdict == Accepted) &&
              (r.Ok? ==>
                var record := RouteRecord(r.value.address, Text(key.text), Text(external.result), 1, "shared");
                r.value.result == Text(external.result) && !r.value.hit &&
                r.value.address == "rm:" + l.sha256("rm-route-v1|" + (key.text + ("|" + external.result))) &&
                n.byAddress == m.byAddress[r.value.address := record] &&
                n.byCondition == m.byCondition[key := r.value.address])
    ensures var (n, r) := Resolve(l, m, condition, external);
            (r == Throws(UnknownRoute) ==> external.NoResolver?) && (r == Throws(ResolverRaised) ==> external.Raises?) &&
            (r == Throws(RejectedByValidator) ==> external.Answer? && external.verdict == Refused) &&
            (r == Throws(ValidatorRaised) ==> external.Answer? && external.verdict == Raised)
  {
  }

  // ---- Different conditions stay apart ----

  lemma KeysApart(l: Library, a: string, b: string)
    requires Faithful(l)
    ensures ConditionKey(l, a) == ConditionKey(l, b) <==> l.normalize(a) == l.normalize(b)
  {
  }

  /** Registering a clean record leaves every other condition with its record. */
  lemma RegisterLeavesOthers(l: Library, m: Memory, record: RouteRecord, key: string)
    requires Faithful(l) && Indexed(l, m) && AllClean(l, m) && Derived(l, record) && Clean(l, record)
    requires record.conditionKey != Text(key)
    ensures var n := Register(l, m, record);
            (TextKey(key) in n.byCondition <==> TextKey(key) in m.byCondition) &&
            (TextKey(key) in m.byCondition ==>
              n.byCondition[TextKey(key)] == m.byCondition[TextKey(key)] &&
              m.byCondition[TextKey(key)] in n.byAddress &&
              n.byAddress[m.byCondition[TextKey(key)]] == m.byAddress[m.byCondition[TextKey(key)]])
  {
    hide Faithful, Genuine;
    if TextKey(key) in m.byCondition {
      var former := m.byAddress[m.byCondition[TextKey(key)]];
      assert Derived(l, former) && Clean(l, former) && former.conditionKey == Text(key);
      if record.trajectoryAddress == m.byCondition[TextKey(key)] {
        AddressIsInjective(l, former.conditionKey, former.result, record.conditionKey, record.result);
      }
    }
  }

  /** Resolving one condition does not change the answer to another. */
  lemma ResolvingLeavesOthers(l: Library, m: Memory, a: string, b: string, first: External, external: External)
    requires Faithful(l) && Indexed(l, m) && AllClean(l, m) && l.normalize(a) != l.normalize(b)
    ensures Resolve(l, Resolve(l, m, a, first).0, b, external).1 == Resolve(l, m, b, external).1
  {
    hide Faithful, Genuine, AllClean, Register, Derived;
    KeysApart(l, a, b);
    CountedKeepsIndex(l, m);
    if first.Answer? {
      LearnedIsClean(l, a, first.result);
      RegisterLeavesOthers(l, m.(calls := m.calls + 1), Learned(l, ConditionKey(l, a), first.result), ConditionKey(l, b));
    }
  }

  /** Neither does importing the route of another condition, or a refused import. */
  lemma ImportingLeavesOthers(l: Library, m: Memory, data: bytes, b: string, external: External)
    requires Faithful(l) && Indexed(l, m) && AllClean(l, m) && CleanOperation(l, DoImport(data))
    requires CheckedRecord(l, data).Ok? ==> CheckedRecord(l, data).value.conditionKey != Text(ConditionKey(l, b))
    ensures Resolve(l, Import(l, m, data).0, b, external).1 == Resolve(l, m, b, external).1
  {
    hide Faithful, Genuine, AllClean, Register, CheckedRecord, Derived;
    if CheckedRecord(l, data).Ok? {
      CheckedIsGenuine(l, data);
      RegisterLeavesOthers(l, m, CheckedRecord(l, data).value, ConditionKey(l, b));
    }
  }

  /** The operation is about the condition: it resolves it, or imports its key. */
  predicate Concerns(l: Library, op: Operation, condition: string) {
    match op
    case DoResolve(asked, _) => l.normalize(asked) == l.normalize(condition)
    case DoImport(data) =>
      CheckedRecord(l, data).Ok? && CheckedRecord(l, data).value.conditionKey == Text(ConditionKey(l, condition))
  }

  /** A condition that no operation concerned is unknown, whatever else was learned. */
  lemma {:induction false} NeverLearnedIsUnknown(l: Library, ops: seq<Operation>, condition: string)
    requires Faithful(l) && forall op | op in ops :: !Concerns(l, op, condition)
    ensures TextKey(ConditionKey(l, condition)) !in After(l, ops).byCondition
    ensures Resolve(l, After(l, ops), condition, NoResolver) == (After(l, ops), Throws(UnknownRoute))
    decreases |ops|
  {
    if ops != [] {
      var n := |ops| - 1;
      forall op | op in ops[..n] ensures op in ops {}
      NeverLearnedIsUnknown(l, ops[..n], condition);
      assert ops[n] in ops;
      UnconcernedKeepsUnknown(l, After(l, ops[..n]), ops[n], condition);
    }
  }

  lemma UnconcernedKeepsUnknown(l: Library, m: Memory, op: Operation, condition: string)
    requires Faithful(l) && !Concerns(l, op, condition) && TextKey(ConditionKey(l, condition)) !in m.byCondition
    ensures TextKey(ConditionKey(l, condition)) !in Apply(l, m, op).byCondition
  {
    hide Faithful, CheckedRecord;
    match op
    case DoResolve(asked, _) => KeysApart(l, asked, condition);
    case DoImport(data) =>
  }

  // ---- What crosses between agents ----

  /** An import is accepted exactly for a delta of at most 64 KiB that is well-formed, whole,
      in a shared or global scope, and whose payload has its address and a key that can be
      one; and what is registered is what it says. */
  lemma ImportAcceptsExactly(l: Library, m: Memory, data: bytes, record: RouteRecord)
    ensures Import(l, m, data).1 == Ok(record) <==>
            |data| <= 65536 && l.decode(data).Some? &&
            var d := l.decode(data).value;
            d.operation in {"SET", "PATCH", "DELETE", "LINK", "TOMBSTONE"} && d.scope in {"shared", "global"} &&
            d.baseVersion >= 0 && d.newVersion >= 0 && d.logicalClock >= 0 &&
            d.messageId != "" && d.senderId != "" && d.organizationId != "" && d.trajectoryAddress != "" &&
            l.sha256(d.payload) == d.integrityDigest &&
            l.loads(d.payload) == Some(Payload(record.conditionKey, record.result, record.version)) &&
            record.trajectoryAddress == d.trajectoryAddress && record.scope == d.scope && Derived(l, record) &&
            !record.conditionKey.Unhashable?
  {
  }

  /** Each check of an import has its own error, and they are made in this order. */
  lemma ImportErrors(l: Library, m: Memory, data: bytes)
    ensures var r := Import(l, m, data).1;
            if |data| > 65536 then r == Throws(DeltaTooLarge)
            else if l.decode(data) == None then r == Throws(MalformedDelta)
            else
              var d := l.decode(data).value;
              (r == Throws(InvalidDelta) <==> !ValidDelta(d)) &&
              (ValidDelta(d) ==>
                (r == Throws(IntegrityMismatch) <==> l.sha256(d.payload) != d.integrityDigest) &&
                (l.sha256(d.payload) == d.integrityDigest ==>
                  (r == Throws(NotEligible) <==> d.scope == "private" || d.scope == "user")))
    ensures Import(l, m, data).1 == Throws(MalformedPayload) ==> l.loads(l.decode(data).value.payload) == None
    ensures Import(l, m, data).1 == Throws(IdentityMismatch) ==>
            var raw := l.loads(l.decode(data).value.payload).value;
            DeriveAddress(l, raw.conditionKey, raw.result) != l.decode(data).value.trajectoryAddress
  {
  }

  /** The delta that carries a stored record: written by its sender, as the setting of a
      route from version 0, with the payload's own digest. */
  lemma ExportCarries(l: Library, m: Memory, address: string, sender: Sender)
    requires Faithful(l)
    ensures Export(l, m, address, sender) == Throws(UnknownAddress) <==> address !in m.byAddress
    ensures address in m.byAddress ==>
            var record := m.byAddress[address];
            Export(l, m, address, sender) != Throws(InvalidDelta) <==>
              record.scope in {"private", "user", "shared", "global"} && record.version >= 0 &&
              record.trajectoryAddress != "" && sender.logicalClock >= 0 && sender.messageId != "" &&
              sender.senderId != "" && sender.organizationId != ""
    ensures Export(l, m, address, sender).Ok? ==>
            var record := m.byAddress[address];
            var data := Export(l, m, address, sender).value;
            |data| <= 65536 && l.decode(data).Some? &&
            var d := l.decode(data).value;
            d.protocolVersion == "0.1" && d.messageId == sender.messageId && d.senderId == sender.senderId &&
            d.organizationId == sender.organizationId && d.logicalClock == sender.logicalClock &&
            d.trajectoryAddress == record.trajectoryAddress && d.baseVersion == 0 && d.newVersion == record.version &&
            d.operation == "SET" && d.scope == record.scope && l.sha256(d.payload) == d.integrityDigest &&
            d.payload == l.dumps(Payload(record.conditionKey, record.result, record.version)) &&
            d.signature == "reference-test-signature"
  {
    if address in m.byAddress {
      var d := DeltaOf(l, m.byAddress[address], sender);
      assert l.decode(l.encode(d)) == Some(d);
    }
  }
}
