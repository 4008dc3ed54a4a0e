/** The message envelope: split_envelope's brace-counting scan, and why no field
    content can mislead it. */
module Envelope {
  import opened Bytes
  import opened JsonGrammar
  import opened JsonReader
  import opened FlatObject

  const PREFIX: bytes := "{\"payload\":"
  const TYPE_PREFIX: bytes := ",\"type\":\""

  /** The printed form of an envelope. */
  function Joined(payload: bytes, kind: bytes): bytes {
    PREFIX + (payload + (TYPE_PREFIX + (kind + ['"', '}'])))
  }

  // ---- What the scanner computes ----

  // The three variables of the scan.
  datatype State = State(inString: bool, escaped: bool, depth: int)

  const START := State(false, false, 0)

  function Outside(depth: int): State {
    State(false, false, depth)
  }

  function Inside(depth: int): State {
    State(true, false, depth)
  }

  function Advance(st: State, ch: byte): State {
    if st.inString then
      if st.escaped then st.(escaped := false)
      else if ch == '\\' then st.(escaped := true)
      else if ch == '"' then st.(inString := false)
      else st
    else if ch == '"' then st.(inString := true)
    else if ch == '{' then st.(depth := st.depth + 1)
    else if ch == '}' then st.(depth := st.depth - 1)
    else st
  }

  /** Scans s from state st and returns what follows the brace that closes the payload. */
  function Scan(s: bytes, st: State): (r: Result<bytes, Error>)
    ensures r.Ok? ==> |r.value| < |s|
  {
    if s == [] then Throws(UnterminatedPayload)
    else
      var next := Advance(st, s[0]);
      if !st.inString && s[0] == '}' && next.depth == 0 then Ok(s[1..])
      else if !st.inString && s[0] == '}' && next.depth < 0 then Throws(InvalidNesting)
      else Scan(s[1..], next)
  }

  /** std::string::find of a quote, with |s| for npos. */
  function FindQuote(s: bytes, from: nat): (i: nat)
    requires from <= |s|
    ensures from <= i <= |s|
    ensures i < |s| ==> s[i] == '"'
    ensures forall k | from <= k < i :: s[k] != '"'
    decreases |s| - from
  {
    if from == |s| || s[from] == '"' then from else FindQuote(s, from + 1)
  }

  function ReadKind(suffix: bytes): Result<bytes, Error> {
    var n := |TYPE_PREFIX|;
    if |suffix| < n + 2 || suffix[..n] != TYPE_PREFIX || suffix[|suffix| - 1] != '}' then Throws(InvalidType)
    else
      var quote := FindQuote(suffix, n);
      if quote == |suffix| || quote + 2 != |suffix| then Throws(InvalidSuffix)
      else Ok(suffix[n..quote])
  }

  function SplitEnvelope(json: bytes): Result<(bytes, bytes), Error> {
    if |json| <= |PREFIX| || json[..|PREFIX|] != PREFIX then Throws(InvalidEnvelope)
    else
      var body := json[|PREFIX|..];
      if body[0] != '{' then Throws(PayloadNotObject)
      else
        var suffix :- Scan(body, START);
        var kind :- ReadKind(suffix);
        Ok((body[..|body| - |suffix|], kind))
  }

  /** The loop of split_envelope: the index of the closing brace. */
  method FindPayloadEnd(json: bytes, start: nat) returns (r: Result<nat, Error>)
    requires start < |json|
    ensures match Scan(json[start..], START)
            case Ok(rest) => r.Ok? && start <= r.value < |json| && rest == json[r.value + 1..]
            case Throws(e) => r == Throws(e)
  {
    var inString, escaped, depth := false, false, 0;
    var i := start;
    ghost var result, rest := Scan(json[start..], START), json[start..];
    while i < |json|
      invariant start <= i <= |json| && rest == json[i..]
      invariant result == Scan(rest, State(inString, escaped, depth))
    {
      var ch := json[i];
      assert rest != [] && rest[0] == ch;
      rest := rest[1..];
      if inString {
        if escaped {
          escaped := false;
        } else if ch == '\\' {
          escaped := true;
        } else if ch == '"' {
          inString := false;
        }
        i := i + 1;
        continue;
      }
      if ch == '"' {
        inString := true;
      } else if ch == '{' {
        depth := depth + 1;
      } else if ch == '}' {
        depth := depth - 1;
        if depth == 0 {
          return Ok(i);
        }
        if depth < 0 {
          return Throws(InvalidNesting);
        }
      }
      i := i + 1;
    }
    return Throws(UnterminatedPayload);
  }

  method Split(json: bytes) returns (r: Result<(bytes, bytes), Error>)
    ensures r == SplitEnvelope(json)
  {
    hide Scan;
    if |json| <= |PREFIX| || json[..|PREFIX|] != PREFIX {
      return Throws(InvalidEnvelope);
    }
    var payloadStart := |PREFIX|;
    if json[payloadStart] != '{' {
      return Throws(PayloadNotObject);
    }
    ghost var body := json[payloadStart..];
    var end :- FindPayloadEnd(json, payloadStart);
    var suffix := json[end + 1..];
    var n := |TYPE_PREFIX|;
    if |suffix| < n + 2 || suffix[..n] != TYPE_PREFIX || suffix[|suffix| - 1] != '}' {
      return Throws(InvalidType);
    }
    var quote := FindQuote(suffix, n);
    if quote == |suffix| || quote + 2 != |suffix| {
      return Throws(InvalidSuffix);
    }
    assert json[payloadStart..end + 1] == body[..|body| - |suffix|];
    return Ok((json[payloadStart..end + 1], suffix[n..quote]));
  }

  // ---- The scanner crosses every token ----

  lemma {:induction false} CrossInString(t: bytes, rest: bytes, depth: int)
    requires forall i | 0 <= i < |t| :: t[i] != '"' && t[i] != '\\'
    ensures Scan(t + rest, Inside(depth)) == Scan(rest, Inside(depth))
  {
    if t == [] {
      assert t + rest == rest;
    } else {
      assert (t + rest)[1..] == t[1..] + rest;
      CrossInString(t[1..], rest, depth);
    }
  }

  lemma CrossEscape(e: byte, rest: bytes, depth: int)
    ensures Scan(['\\', e] + rest, Inside(depth)) == Scan(rest, Inside(depth))
  {
    var s := ['\\', e] + rest;
    assert s[1..] == [e] + rest && s[1..][1..] == rest;
    assert Scan(s[1..], State(true, true, depth)) == Scan(rest, Inside(depth));
  }

  lemma CrossUnit(h: bytes, rest: bytes, depth: int)
    requires IsHex4(h)
    ensures Scan(['\\', 'u'] + h + rest, Inside(depth)) == Scan(rest, Inside(depth))
  {
    Assoc(['\\', 'u'], h, rest);
    CrossEscape('u', h + rest, depth);
    CrossInString(h, rest, depth);
  }

  lemma CrossPiece(p: Piece, rest: bytes, depth: int)
    requires WellFormed(p)
    ensures Scan(Text(p) + rest, Inside(depth)) == Scan(rest, Inside(depth))
  {
    match p
    case Raw(b) => CrossInString([b], rest, depth);
    case Short(e) => CrossEscape(e, rest, depth);
    case Unit(h) => CrossUnit(h, rest, depth);
    case Pair(hi, lo) =>
      var low := ['\\', 'u'] + lo;
      Assoc(['\\', 'u'] + hi, low, rest);
      CrossUnit(hi, low + rest, depth);
      CrossUnit(lo, rest, depth);
  }

  lemma {:induction false} CrossBody(ps: seq<Piece>, rest: bytes, depth: int)
    requires AllWellFormed(ps)
    ensures Scan(TextOf(ps) + (['"'] + rest), Inside(depth)) == Scan(rest, Outside(depth))
  {
    var end := ['"'] + rest;
    if ps == [] {
      assert TextOf(ps) + end == end && end[1..] == rest;
    } else {
      Assoc(Text(ps[0]), TextOf(ps[1..]), end);
      CrossPiece(ps[0], TextOf(ps[1..]) + end, depth);
      CrossBody(ps[1..], rest, depth);
    }
  }

  /** Whatever a string token contains, the scanner leaves it as it entered it. */
  lemma CrossQuoted(ps: seq<Piece>, rest: bytes, depth: int)
    requires AllWellFormed(ps)
    ensures Scan(Quoted(ps) + rest, Outside(depth)) == Scan(rest, Outside(depth))
  {
    QuotedThen(ps, rest);
    var body := TextOf(ps) + (['"'] + rest);
    assert (['"'] + body)[1..] == body;
    CrossBody(ps, rest, depth);
  }

  lemma {:induction false} CrossOutside(t: bytes, rest: bytes, depth: int)
    requires forall i | 0 <= i < |t| :: t[i] != '"' && t[i] != '{' && t[i] != '}'
    ensures Scan(t + rest, Outside(depth)) == Scan(rest, Outside(depth))
  {
    if t == [] {
      assert t + rest == rest;
    } else {
      assert (t + rest)[1..] == t[1..] + rest;
      CrossOutside(t[1..], rest, depth);
    }
  }

  lemma CrossScalar(v: Scalar, rest: bytes, depth: int)
    requires WellFormedScalar(v)
    ensures Scan(ScalarText(v) + rest, Outside(depth)) == Scan(rest, Outside(depth))
  {
    match v
    case Token(ps) => CrossQuoted(ps, rest, depth);
    case Number(negative, digits) =>
      Assoc(SignText(negative), digits, rest);
      CrossOutside(SignText(negative), digits + rest, depth);
      CrossOutside(digits, rest, depth);
    case Null => CrossOutside(ScalarText(v), rest, depth);
  }

  lemma CrossMember(m: Member, rest: bytes, depth: int)
    requires WellFormedMember(m)
    ensures Scan(MemberText(m) + rest, Outside(depth)) == Scan(rest, Outside(depth))
  {
    var value := ScalarText(m.scalar) + rest;
    Assoc(KeyText(m.key), ScalarText(m.scalar), rest);
    Assoc(Quoted(m.key), [':'], value);
    CrossQuoted(m.key, [':'] + value, depth);
    CrossOutside([':'], value, depth);
    CrossScalar(m.scalar, rest, depth);
  }

  lemma {:induction false} CrossMembers(ms: seq<Member>, rest: bytes)
    requires WellFormedMembers(ms)
    ensures Scan(MembersText(ms, ',') + rest, Outside(1)) == Ok(rest)
  {
    if ms == [] {
      assert (['}'] + rest)[1..] == rest;
    } else {
      var tail := MembersText(ms[1..], ',') + rest;
      MembersThen(ms, ',', rest);
      CrossOutside([','], MemberText(ms[0]) + tail, 1);
      assert WellFormedMember(ms[0]);
      CrossMember(ms[0], tail, 1);
      CrossMembers(ms[1..], rest);
    }
  }

  lemma CrossObject(ms: seq<Member>, rest: bytes)
    requires ms != [] && WellFormedMembers(ms)
    ensures Scan(ObjectText(ms) + rest, START) == Ok(rest)
  {
    var tail := MembersText(ms[1..], ',') + rest;
    MembersThen(ms, '{', rest);
    var s := MemberText(ms[0]) + tail;
    assert (['{'] + s)[1..] == s;
    assert WellFormedMember(ms[0]);
    CrossMember(ms[0], tail, 1);
    CrossMembers(ms[1..], rest);
  }

  // ---- Splitting inverts joining, and accepts nothing else ----

  /** p is one object by the scanner's own count, with nothing after it. */
  predicate ScansAsObject(p: bytes) {
    p != [] && p[0] == '{' && Scan(p, START) == Ok([])
  }

  lemma {:induction false} ScanExtends(s: bytes, x: bytes, st: State)
    requires Scan(s, st).Ok?
    ensures Scan(s + x, st) == Ok(Scan(s, st).value + x)
  {
    assert (s + x)[1..] == s[1..] + x;
    var next := Advance(st, s[0]);
    if st.inString || s[0] != '}' || next.depth != 0 {
      ScanExtends(s[1..], x, next);
    }
  }

  lemma {:induction false} ScanLeavesSuffix(s: bytes, st: State)
    requires Scan(s, st).Ok?
    ensures Scan(s, st).value == s[|s| - |Scan(s, st).value|..]
  {
    var next := Advance(st, s[0]);
    if st.inString || s[0] != '}' || next.depth != 0 {
      ScanLeavesSuffix(s[1..], next);
    }
  }

  /** What lies before the end found is scanned on its own in the same way. */
  lemma {:induction false} ScanTrims(s: bytes, st: State)
    requires Scan(s, st).Ok?
    ensures Scan(s[..|s| - |Scan(s, st).value|], st) == Ok([])
  {
    var n := |s| - |Scan(s, st).value|;
    assert s[..n][1..] == s[1..][..n - 1];
    var next := Advance(st, s[0]);
    if st.inString || s[0] != '}' || next.depth != 0 {
      ScanTrims(s[1..], next);
    }
  }

  lemma ReadKindExact(suffix: bytes, kind: bytes)
    ensures ReadKind(suffix) == Ok(kind) <==> suffix == TYPE_PREFIX + (kind + ['"', '}']) && '"' !in kind
  {
    var n := |TYPE_PREFIX|;
    if ReadKind(suffix) == Ok(kind) {
      var quote := FindQuote(suffix, n);
      assert suffix == suffix[..n] + (suffix[n..quote] + [suffix[quote], suffix[quote + 1]]);
    }
    if suffix == TYPE_PREFIX + (kind + ['"', '}']) && '"' !in kind {
      assert suffix[..n] == TYPE_PREFIX;
      assert suffix[n..] == kind + ['"', '}'];
      forall k | n <= k < n + |kind| ensures suffix[k] != '"' {
        assert suffix[k] == kind[k - n];
      }
      assert suffix[n + |kind|] == '"' && suffix[n + |kind| + 1] == '}';
      assert FindQuote(suffix, n) == n + |kind|;
      assert suffix[n..n + |kind|] == kind;
    }
  }

  /** An envelope splits into payload and type if and only if it is their joined
      form, the payload being one object and the type free of quotes. */
  lemma SplitExact(json: bytes, payload: bytes, kind: bytes)
    ensures SplitEnvelope(json) == Ok((payload, kind)) <==>
            json == Joined(payload, kind) && ScansAsObject(payload) && '"' !in kind
  {
    if SplitEnvelope(json) == Ok((payload, kind)) {
      SplitSound(json, payload, kind);
    }
    if json == Joined(payload, kind) && ScansAsObject(payload) && '"' !in kind {
      SplitComplete(payload, kind);
    }
  }

  lemma Cut(s: bytes, n: nat)
    requires n <= |s|
    ensures s == s[..n] + s[n..]
  {
  }

  lemma SplitSound(json: bytes, payload: bytes, kind: bytes)
    requires SplitEnvelope(json) == Ok((payload, kind))
    ensures json == Joined(payload, kind) && ScansAsObject(payload) && '"' !in kind
  {
    var body := json[|PREFIX|..];
    var suffix := Scan(body, START).value;
    ScanTrims(body, START);
    ScanLeavesSuffix(body, START);
    assert ScansAsObject(payload);
    ReadKindExact(suffix, kind);
    Cut(body, |payload|);
    Cut(json, |PREFIX|);
  }

  lemma SplitComplete(payload: bytes, kind: bytes)
    requires ScansAsObject(payload) && '"' !in kind
    ensures SplitEnvelope(Joined(payload, kind)) == Ok((payload, kind))
  {
    var json, suffix := Joined(payload, kind), TYPE_PREFIX + (kind + ['"', '}']);
    var body := payload + suffix;
    assert json[..|PREFIX|] == PREFIX && json[|PREFIX|..] == body;
    ScanExtends(payload, suffix, START);
    assert [] + suffix == suffix;
    ReadKindExact(suffix, kind);
    assert body[..|body| - |suffix|] == payload;
  }

  /** The envelope of any object of the grammar splits back into that object and its type. */
  lemma SplitOfObject(ms: seq<Member>, kind: bytes)
    requires ms != [] && WellFormedMembers(ms) && '"' !in kind
    ensures SplitEnvelope(Joined(ObjectText(ms), kind)) == Ok((ObjectText(ms), kind))
  {
    CrossObject(ms, []);
    assert ObjectText(ms) + [] == ObjectText(ms);
    SplitExact(Joined(ObjectText(ms), kind), ObjectText(ms), kind);
  }

  lemma {:induction false} ScanNeverNegative(s: bytes, st: State)
    requires st.depth > 0 || (st == START && s != [] && s[0] == '{')
    ensures Scan(s, st) != Throws(InvalidNesting)
  {
    if s != [] {
      var next := Advance(st, s[0]);
      if st.inString || s[0] != '}' || next.depth > 0 {
        ScanNeverNegative(s[1..], next);
      }
    }
  }

  /** The scan's own check for negative depth can never fire. */
  lemma SplitNeverMisnested(json: bytes)
    ensures SplitEnvelope(json) != Throws(InvalidNesting)
  {
    if |json| > |PREFIX| && json[|PREFIX|] == '{' {
      ScanNeverNegative(json[|PREFIX|..], START);
    }
  }

  // ---- What the scanner counts: an independent description ----

  // A text as strings, braces and everything else. Inside a string a backslash takes the
  // next byte with it.
  datatype Inner = Bare(b: byte) | Escaped(b: byte)
  datatype Lexeme = Str(inner: seq<Inner>) | Open | Shut | Other(b: byte)

  function InnerText(c: Inner): bytes {
    match c
    case Bare(b) => [b]
    case Escaped(b) => ['\\', b]
  }

  function InnersText(cs: seq<Inner>): bytes {
    if cs == [] then [] else InnerText(cs[0]) + InnersText(cs[1..])
  }

  function LexemeText(t: Lexeme): bytes {
    match t
    case Str(inner) => ['"'] + (InnersText(inner) + ['"'])
    case Open => ['{']
    case Shut => ['}']
    case Other(b) => [b]
  }

  function LexemesText(ts: seq<Lexeme>): bytes {
    if ts == [] then [] else LexemeText(ts[0]) + LexemesText(ts[1..])
  }

  predicate ProperInner(cs: seq<Inner>) {
    forall i | 0 <= i < |cs| && cs[i].Bare? :: cs[i].b != '"' && cs[i].b != '\\'
  }

  predicate ProperLexeme(t: Lexeme) {
    match t
    case Str(inner) => ProperInner(inner)
    case Other(b) => b != '"' && b != '{' && b != '}'
    case _ => true
  }

  predicate Proper(ts: seq<Lexeme>) {
    forall i | 0 <= i < |ts| :: ProperLexeme(ts[i])
  }

  /** The braces opened and not yet shut. */
  function Balance(ts: seq<Lexeme>): int {
    if ts == [] then 0
    else Balance(ts[1..]) + (if ts[0].Open? then 1 else if ts[0].Shut? then -1 else 0)
  }

  /** From depth on, the braces first balance at the end, which is a closing one. */
  predicate ClosesAtEnd(ts: seq<Lexeme>, depth: int) {
    ts != [] && ts[|ts| - 1].Shut? && depth + Balance(ts) == 0 &&
    forall k | 0 <= k < |ts| && ts[k].Shut? && depth + Balance(ts[..k + 1]) <= 0 :: k == |ts| - 1
  }

  lemma {:induction false} CrossInners(cs: seq<Inner>, rest: bytes, depth: int)
    requires ProperInner(cs)
    ensures Scan(InnersText(cs) + (['"'] + rest), Inside(depth)) == Scan(rest, Outside(depth))
  {
    var end := ['"'] + rest;
    if cs == [] {
      assert InnersText(cs) + end == end && end[1..] == rest;
    } else {
      var tail := InnersText(cs[1..]) + end;
      Assoc(InnerText(cs[0]), InnersText(cs[1..]), end);
      match cs[0] {
        case Escaped(b) => CrossEscape(b, tail, depth);
        case Bare(b) => CrossInString([b], tail, depth);
      }
      CrossInners(cs[1..], rest, depth);
    }
  }

  lemma BalanceTake(ts: seq<Lexeme>, k: nat)
    requires 0 < k <= |ts|
    ensures Balance(ts[..k]) == Balance(ts[1..][..k - 1]) + Balance(ts[..1])
  {
    assert ts[..k][1..] == ts[1..][..k - 1];
    assert ts[..1][1..] == [];
  }

  /** Where the first lexeme does not close, the rest closes from the depth it leaves. */
  lemma ClosesTail(ts: seq<Lexeme>, depth: int)
    requires ClosesAtEnd(ts, depth) && |ts| > 1
    ensures ClosesAtEnd(ts[1..], depth + Balance(ts[..1]))
    ensures ts[0].Shut? ==> depth + Balance(ts[..1]) > 0
  {
    var tail := ts[1..];
    BalanceTake(ts, |ts|);
    assert ts[..|ts|] == ts && tail[..|ts| - 1] == tail;
    forall k | 0 <= k < |tail| && tail[k].Shut? && depth + Balance(ts[..1]) + Balance(tail[..k + 1]) <= 0
      ensures k == |tail| - 1
    {
      BalanceTake(ts, k + 2);
      assert ts[k + 1] == tail[k];
    }
    if ts[0].Shut? {
      assert ts[..0 + 1] == ts[..1];
    }
  }

  lemma {:induction false} ScanLexemes(ts: seq<Lexeme>, rest: bytes, depth: int)
    requires Proper(ts) && ClosesAtEnd(ts, depth)
    ensures Scan(LexemesText(ts) + rest, Outside(depth)) == Ok(rest)
    decreases |ts|
  {
    var tail := LexemesText(ts[1..]) + rest;
    Assoc(LexemeText(ts[0]), LexemesText(ts[1..]), rest);
    var s := LexemeText(ts[0]) + tail;
    assert ts[..1][1..] == [];
    if |ts| == 1 {
      assert ts[1..] == [] && [] + rest == rest && s[1..] == tail;
      assert ts[..1] == ts;
    } else {
      hide ClosesAtEnd;
      ClosesTail(ts, depth);
      ScanLexemes(ts[1..], rest, depth + Balance(ts[..1]));
      match ts[0] {
        case Str(inner) =>
          Assoc(['"'], InnersText(inner) + ['"'], tail);
          Assoc(InnersText(inner), ['"'], tail);
          assert s[1..] == InnersText(inner) + (['"'] + tail);
          CrossInners(inner, tail, depth);
        case Open => assert s[1..] == tail;
        case Shut => assert s[1..] == tail;
        case Other(b) => CrossOutside([b], tail, depth);
      }
    }
  }

  /** From inside a string a successful scan leaves it first. */
  lemma {:induction false} InnersOf(s: bytes, depth: int) returns (cs: seq<Inner>, rest: bytes)
    requires Scan(s, Inside(depth)).Ok?
    ensures ProperInner(cs) && s == InnersText(cs) + (['"'] + rest) && |rest| < |s|
    ensures Scan(rest, Outside(depth)) == Scan(s, Inside(depth))
    decreases |s|
  {
    if s[0] == '"' {
      cs, rest := [], s[1..];
      assert s == InnersText(cs) + (['"'] + rest);
    } else if s[0] == '\\' {
      assert s[1..] != [] && s[1..][1..] == s[2..] && Scan(s[1..], State(true, true, depth)).Ok?;
      var tail;
      tail, rest := InnersOf(s[2..], depth);
      cs := [Escaped(s[1])] + tail;
      assert cs[1..] == tail && s == ['\\', s[1]] + s[2..];
      Assoc(['\\', s[1]], InnersText(tail), ['"'] + rest);
    } else {
      var tail;
      tail, rest := InnersOf(s[1..], depth);
      cs := [Bare(s[0])] + tail;
      assert cs[1..] == tail && s == [s[0]] + s[1..];
      Assoc([s[0]], InnersText(tail), ['"'] + rest);
    }
  }

  lemma ClosesCons(t: Lexeme, tail: seq<Lexeme>, depth: int)
    requires ClosesAtEnd(tail, depth + Balance([t])) && (t.Shut? ==> depth + Balance([t]) > 0)
    ensures ClosesAtEnd([t] + tail, depth)
  {
    var ts := [t] + tail;
    assert ts[1..] == tail && ts[..1] == [t];
    BalanceTake(ts, |ts|);
    assert ts[..|ts|] == ts && tail[..|tail|] == tail;
    forall k | 0 <= k < |ts| && ts[k].Shut? && depth + Balance(ts[..k + 1]) <= 0 ensures k == |ts| - 1 {
      if k > 0 {
        BalanceTake(ts, k + 1);
        assert tail[k - 1] == ts[k];
      }
    }
  }

  /** Whatever the scan closes is a sequence of lexemes whose braces balance there first. */
  lemma {:induction false} LexemesOf(s: bytes, depth: int) returns (ts: seq<Lexeme>)
    requires Scan(s, Outside(depth)).Ok?
    ensures Proper(ts) && ClosesAtEnd(ts, depth) && s == LexemesText(ts) + Scan(s, Outside(depth)).value
    decreases |s|
  {
    var rest := Scan(s, Outside(depth)).value;
    if s[0] == '}' && depth - 1 == 0 {
      ts := [Shut];
      assert ts[1..] == [] && s == ['}'] + rest && LexemesText(ts) == ['}'] + [];
      assert ts[..0 + 1] == ts;
    } else {
      var t: Lexeme, s1: bytes;
      if s[0] == '"' {
        var inner;
        inner, s1 := InnersOf(s[1..], depth);
        t := Str(inner);
        assert s == ['"'] + s[1..];
        Assoc(['"'], InnersText(inner) + ['"'], s1);
        Assoc(InnersText(inner), ['"'], s1);
      } else {
        t, s1 := if s[0] == '{' then Open else if s[0] == '}' then Shut else Other(s[0]), s[1..];
        assert s == LexemeText(t) + s1;
      }
      assert [t][1..] == [];
      var tail := LexemesOf(s1, depth + Balance([t]));
      ts := [t] + tail;
      assert ts[1..] == tail;
      ClosesCons(t, tail, depth);
      Assoc(LexemeText(t), LexemesText(tail), rest);
    }
  }

  /** p is one balanced object: its braces outside strings first balance at its end. */
  ghost predicate IsBalancedObject(p: bytes) {
    exists ts: seq<Lexeme> :: Proper(ts) && ts != [] && ts[0].Open? && ClosesAtEnd(ts, 0) && p == LexemesText(ts)
  }

  /** The scanner's count is exactly balance outside strings, at any depth of nesting. */
  lemma ScansAsObjectExactly(p: bytes)
    ensures ScansAsObject(p) <==> IsBalancedObject(p)
  {
    if ScansAsObject(p) {
      var ts := LexemesOf(p, 0);
      assert LexemesText(ts) + [] == LexemesText(ts);
      FirstLexeme(ts);
      assert IsBalancedObject(p);
    }
    if IsBalancedObject(p) {
      var ts: seq<Lexeme> :| Proper(ts) && ts != [] && ts[0].Open? && ClosesAtEnd(ts, 0) && p == LexemesText(ts);
      ScanLexemes(ts, [], 0);
      assert LexemesText(ts) + [] == LexemesText(ts);
    }
  }

  lemma FirstLexeme(ts: seq<Lexeme>)
    requires Proper(ts) && ts != [] && LexemesText(ts)[0] == '{'
    ensures ts[0].Open?
  {
    assert ProperLexeme(ts[0]);
  }

  // ---- Exactly how splitting fails ----

  /** The suffix has the place of the type, whatever stands there. */
  predicate HasTypePlace(suffix: bytes) {
    |suffix| >= |TYPE_PREFIX| + 2 && suffix[..|TYPE_PREFIX|] == TYPE_PREFIX && suffix[|suffix| - 1] == '}'
  }

  /** Each error of the split and its cause, in the order in which they are looked for: the
      fixed front, an object at the payload, its end, the place of the type, and a type that
      ends one byte before the end. */
  lemma SplitFailsExactly(json: bytes, payload: bytes, suffix: bytes)
    ensures SplitEnvelope(json) == Throws(InvalidEnvelope) <==> !(PREFIX < json)
    ensures SplitEnvelope(json) == Throws(PayloadNotObject) <==> PREFIX < json && json[|PREFIX|] != '{'
    ensures SplitEnvelope(json) == Throws(UnterminatedPayload) <==>
            PREFIX < json && json[|PREFIX|] == '{' &&
            forall n | 0 <= n <= |json| - |PREFIX| :: !ScansAsObject(json[|PREFIX|..][..n])
    ensures json == PREFIX + (payload + suffix) && ScansAsObject(payload) ==>
            SplitEnvelope(json) ==
              if !HasTypePlace(suffix) then Throws(InvalidType)
              else if forall kind: bytes :: suffix != TYPE_PREFIX + (kind + ['"', '}']) || '"' in kind then Throws(InvalidSuffix)
              else Ok((payload, suffix[|TYPE_PREFIX|..|suffix| - 2]))
  {
    FrontFails(json);
    if json == PREFIX + (payload + suffix) && ScansAsObject(payload) {
      TypeFails(payload, suffix);
    }
  }

  lemma FrontFails(json: bytes)
    ensures SplitEnvelope(json) == Throws(InvalidEnvelope) <==> !(PREFIX < json)
    ensures SplitEnvelope(json) == Throws(PayloadNotObject) <==> PREFIX < json && json[|PREFIX|] != '{'
    ensures SplitEnvelope(json) == Throws(UnterminatedPayload) <==>
            PREFIX < json && json[|PREFIX|] == '{' &&
            forall n | 0 <= n <= |json| - |PREFIX| :: !ScansAsObject(json[|PREFIX|..][..n])
  {
    hide ScansAsObject, ReadKind;
    if PREFIX < json {
      assert json[..|PREFIX|] == PREFIX;
      var body := json[|PREFIX|..];
      if body[0] == '{' {
        ScanNeverNegative(body, START);
        ScanErrors(body, START);
        UnendedExactly(body);
        if Scan(body, START).Ok? {
          KindErrors(Scan(body, START).value);
        }
      }
    } else if |json| > |PREFIX| {
      assert json[..|PREFIX|] != PREFIX;
    }
  }

  lemma {:induction false} ScanErrors(s: bytes, st: State)
    ensures Scan(s, st).Throws? ==> Scan(s, st).error == UnterminatedPayload || Scan(s, st).error == InvalidNesting
    decreases |s|
  {
    if s != [] {
      ScanErrors(s[1..], Advance(st, s[0]));
    }
  }

  lemma KindErrors(suffix: bytes)
    ensures ReadKind(suffix).Throws? ==> ReadKind(suffix).error == InvalidType || ReadKind(suffix).error == InvalidSuffix
  {
  }

  lemma UnendedExactly(body: bytes)
    requires body != [] && body[0] == '{'
    ensures Scan(body, START).Ok? <==> exists n | 0 <= n <= |body| :: ScansAsObject(body[..n])
  {
    if Scan(body, START).Ok? {
      ScanTrims(body, START);
      var n := |body| - |Scan(body, START).value|;
      assert ScansAsObject(body[..n]);
    }
    if exists n | 0 <= n <= |body| :: ScansAsObject(body[..n]) {
      var n :| 0 <= n <= |body| && ScansAsObject(body[..n]);
      ScanExtends(body[..n], body[n..], START);
      Cut(body, n);
    }
  }

  lemma TypeFails(payload: bytes, suffix: bytes)
    requires ScansAsObject(payload)
    ensures SplitEnvelope(PREFIX + (payload + suffix)) ==
              if !HasTypePlace(suffix) then Throws(InvalidType)
              else if forall kind: bytes :: suffix != TYPE_PREFIX + (kind + ['"', '}']) || '"' in kind then Throws(InvalidSuffix)
              else Ok((payload, suffix[|TYPE_PREFIX|..|suffix| - 2]))
  {
    var json, body := PREFIX + (payload + suffix), payload + suffix;
    assert json[..|PREFIX|] == PREFIX && json[|PREFIX|..] == body;
    ScanExtends(payload, suffix, START);
    assert [] + suffix == suffix && body[..|body| - |suffix|] == payload && body[0] == '{';
    KindExactly(suffix);
  }

  lemma KindExactly(suffix: bytes)
    ensures ReadKind(suffix) ==
              if !HasTypePlace(suffix) then Throws(InvalidType)
              else if forall kind: bytes :: suffix != TYPE_PREFIX + (kind + ['"', '}']) || '"' in kind then Throws(InvalidSuffix)
              else Ok(suffix[|TYPE_PREFIX|..|suffix| - 2])
  {
    KindErrors(suffix);
    forall kind: bytes | suffix == TYPE_PREFIX + (kind + ['"', '}']) && '"' !in kind
      ensures ReadKind(suffix) == Ok(kind) && suffix[|TYPE_PREFIX|..|suffix| - 2] == kind
    {
      ReadKindExact(suffix, kind);
    }
    if ReadKind(suffix).Ok? {
      ReadKindExact(suffix, ReadKind(suffix).value);
    }
  }
}
