/** Flat JSON objects with fixed keys: their text, and reading them member by
    member. The messages of both implementations are objects of this kind. */
module FlatObject {
  import opened Bytes
  import opened JsonGrammar
  import opened JsonReader

  // A member's value as written: a string token, an optional '-' with digits, or null.
  datatype Scalar = Token(ps: seq<Piece>) | Number(negative: bool, digits: bytes) | Null

  datatype Member = Member(key: seq<Piece>, scalar: Scalar)

  // What the reader delivers, and what it expects at one place of an object.
  datatype Value = TextValue(text: bytes) | NumberValue(number: int)

  datatype Slot = TextSlot(key: bytes) | NumberSlot(key: bytes)

  // ---- Decimal text ----

  predicate AllDigits(ds: bytes) {
    forall i | 0 <= i < |ds| :: IsDigit(ds[i])
  }

  function Accumulate(ds: bytes, value: nat): (n: nat)
    requires AllDigits(ds)
    ensures n >= value
  {
    if ds == [] then value else Accumulate(ds[1..], value * 10 + DigitValue(ds[0]))
  }

  /** The decimal digits an ostream prints for n. */
  function Decimal(n: nat): (ds: bytes)
    ensures |ds| > 0 && AllDigits(ds)
  {
    if n < 10 then [ByteOf('0' as int + n)] else Decimal(n / 10) + [ByteOf('0' as int + n % 10)]
  }

  lemma {:induction false} AccumulateSnoc(ds: bytes, d: byte, value: nat)
    requires AllDigits(ds) && IsDigit(d)
    ensures AllDigits(ds + [d])
    ensures Accumulate(ds + [d], value) == Accumulate(ds, value) * 10 + DigitValue(d)
  {
    if ds == [] {
      assert ds + [d] == [d];
      assert [d][1..] == [];
    } else {
      assert (ds + [d])[1..] == ds[1..] + [d];
      AccumulateSnoc(ds[1..], d, value * 10 + DigitValue(ds[0]));
    }
  }

  lemma {:induction false} DecimalAccumulates(n: nat)
    ensures Accumulate(Decimal(n), 0) == n
  {
    if n < 10 {
      assert Decimal(n)[1..] == [];
    } else {
      DecimalAccumulates(n / 10);
      AccumulateSnoc(Decimal(n / 10), ByteOf('0' as int + n % 10), 0);
    }
  }

  predicate StopsNumber(rest: bytes) {
    rest == [] || !IsDigit(rest[0])
  }

  /** Reading digits gives their value, or overflows exactly when that value exceeds INT64_MAX. */
  lemma {:induction false} ReadDigitsExact(ds: bytes, value: nat, rest: bytes)
    requires AllDigits(ds) && StopsNumber(rest) && value <= INT64_MAX
    ensures ReadDigits(ds + rest, value) ==
            if Accumulate(ds, value) <= INT64_MAX then Ok((Accumulate(ds, value), rest))
            else Throws(IntegerOverflow)
  {
    var s := ds + rest;
    if ds == [] {
      assert s == rest;
    } else {
      assert s[1..] == ds[1..] + rest;
      var next := value * 10 + DigitValue(ds[0]);
      if next <= INT64_MAX {
        ReadDigitsExact(ds[1..], next, rest);
      }
    }
  }

  lemma {:induction false} ReadDigitsSound(s: bytes, value: nat) returns (ds: bytes)
    requires ReadDigits(s, value).Ok?
    ensures AllDigits(ds)
    ensures s == ds + ReadDigits(s, value).value.1
    ensures StopsNumber(ReadDigits(s, value).value.1)
    ensures s != [] && IsDigit(s[0]) ==> ds != []
    decreases |s|
  {
    if s != [] && IsDigit(s[0]) {
      var tail := ReadDigitsSound(s[1..], value * 10 + DigitValue(s[0]));
      ds := [s[0]] + tail;
      assert s == [s[0]] + s[1..];
    } else {
      ds := [];
    }
  }

  // ---- Text of values and objects ----

  function SignText(negative: bool): bytes {
    if negative then ['-'] else []
  }

  function ScalarText(v: Scalar): bytes {
    match v
    case Token(ps) => Quoted(ps)
    case Number(negative, digits) => SignText(negative) + digits
    case Null => ['n', 'u', 'l', 'l']
  }

  predicate WellFormedScalar(v: Scalar) {
    match v
    case Token(ps) => AllWellFormed(ps)
    case Number(_, digits) => digits != [] && AllDigits(digits)
    case Null => true
  }

  predicate WellFormedMember(m: Member) {
    AllWellFormed(m.key) && WellFormedScalar(m.scalar)
  }

  predicate WellFormedMembers(ms: seq<Member>) {
    forall i | 0 <= i < |ms| :: WellFormedMember(ms[i])
  }

  function KeyText(key: seq<Piece>): bytes {
    Quoted(key) + [':']
  }

  function MemberText(m: Member): bytes {
    KeyText(m.key) + ScalarText(m.scalar)
  }

  /** The members, each after its separator, and the closing brace. */
  function MembersText(ms: seq<Member>, sep: byte): (t: bytes)
    ensures |t| > 0
  {
    if ms == [] then ['}'] else [sep] + (MemberText(ms[0]) + MembersText(ms[1..], ','))
  }

  function ObjectText(ms: seq<Member>): bytes {
    MembersText(ms, '{')
  }

  // ---- Reading ----

  function ReadMember(s: bytes, slot: Slot, sep: byte): Read<Value> {
    var s1 :- Expect(s, sep);
    var s2 :- ReadKey(s1, slot.key);
    match slot
    case TextSlot(_) => var (v, rest) :- ReadString(s2); Ok((TextValue(v), rest))
    case NumberSlot(_) => var (n, rest) :- ReadInteger(s2); Ok((NumberValue(n), rest))
  }

  function ReadMembers(s: bytes, slots: seq<Slot>, sep: byte, done: seq<Value>): Read<seq<Value>>
    decreases |slots|
  {
    if slots == [] then
      var rest :- Expect(s, '}');
      Ok((done, rest))
    else
      var (v, rest) :- ReadMember(s, slots[0], sep);
      ReadMembers(rest, slots[1..], ',', done + [v])
  }

  /** A whole text that is one object with the given members, in order. */
  function ReadObject(s: bytes, slots: seq<Slot>): Result<seq<Value>, Error> {
    var (values, rest) :- ReadMembers(s, slots, '{', []);
    if rest != [] then Throws(TrailingData) else Ok(values)
  }

  // ---- Meaning of members ----

  /** The member fits its slot and its number, if it is one, fits the reader. */
  predicate Fits(m: Member, slot: Slot) {
    WellFormedMember(m) && MeaningOf(m.key) == slot.key &&
    match slot
    case TextSlot(_) => m.scalar.Token?
    case NumberSlot(_) => m.scalar.Number? && Accumulate(m.scalar.digits, 0) <= INT64_MAX
  }

  predicate AllFit(ms: seq<Member>, slots: seq<Slot>) {
    |ms| == |slots| && forall i | 0 <= i < |ms| :: Fits(ms[i], slots[i])
  }

  function ValueOf(v: Scalar): Value
    requires WellFormedScalar(v) && !v.Null?
  {
    match v
    case Token(ps) => TextValue(MeaningOf(ps))
    case Number(negative, digits) => NumberValue(Signed(negative, Accumulate(digits, 0)))
  }

  function ValuesOf(ms: seq<Member>, slots: seq<Slot>): (vs: seq<Value>)
    requires AllFit(ms, slots)
    ensures |vs| == |ms|
  {
    seq(|ms|, i requires 0 <= i < |ms| => assert Fits(ms[i], slots[i]); ValueOf(ms[i].scalar))
  }

  // ---- Completeness: every object of the grammar is read to its meaning ----

  lemma ReadKeyComplete(key: seq<Piece>, rest: bytes)
    requires AllWellFormed(key)
    ensures ReadKey(KeyText(key) + rest, MeaningOf(key)) == Ok(rest)
  {
    Assoc(Quoted(key), [':'], rest);
    ReadQuoted(key, [':'] + rest);
    assert ([':'] + rest)[1..] == rest;
  }

  lemma ReadNumberExact(negative: bool, digits: bytes, rest: bytes)
    requires digits != [] && AllDigits(digits) && StopsNumber(rest)
    ensures ReadInteger(SignText(negative) + digits + rest) ==
            if Accumulate(digits, 0) <= INT64_MAX then Ok((Signed(negative, Accumulate(digits, 0)), rest))
            else Throws(IntegerOverflow)
  {
    var s := SignText(negative) + digits + rest;
    assert (if negative then s[1..] else s) == digits + rest;
    ReadDigitsExact(digits, 0, rest);
  }

  lemma ReadMemberComplete(m: Member, slot: Slot, sep: byte, rest: bytes)
    requires Fits(m, slot) && StopsNumber(rest)
    ensures ReadMember([sep] + (MemberText(m) + rest), slot, sep) == Ok((ValueOf(m.scalar), rest))
  {
    var value := ScalarText(m.scalar) + rest;
    assert ([sep] + (MemberText(m) + rest))[1..] == MemberText(m) + rest;
    Assoc(KeyText(m.key), ScalarText(m.scalar), rest);
    ReadKeyComplete(m.key, value);
    match m.scalar
    case Token(ps) => ReadQuoted(ps, rest);
    case Number(negative, digits) => ReadNumberExact(negative, digits, rest);
  }

  lemma MembersThen(ms: seq<Member>, sep: byte, rest: bytes)
    requires ms != []
    ensures MembersText(ms, sep) + rest == [sep] + (MemberText(ms[0]) + (MembersText(ms[1..], ',') + rest))
  {
    var tail := MembersText(ms[1..], ',');
    Assoc([sep], MemberText(ms[0]) + tail, rest);
    Assoc(MemberText(ms[0]), tail, rest);
  }

  lemma {:induction false} ReadMembersComplete(ms: seq<Member>, slots: seq<Slot>, sep: byte, done: seq<Value>, rest: bytes)
    requires AllFit(ms, slots)
    ensures ReadMembers(MembersText(ms, sep) + rest, slots, sep, done) == Ok((done + ValuesOf(ms, slots), rest))
  {
    hide Accumulate, ScalarText, WellFormedScalar;
    if ms == [] {
      assert (['}'] + rest)[1..] == rest;
      assert done + ValuesOf(ms, slots) == done;
    } else {
      var tail := MembersText(ms[1..], ',') + rest;
      MembersThen(ms, sep, rest);
      assert Fits(ms[0], slots[0]);
      ReadMemberComplete(ms[0], slots[0], sep, tail);
      var v := ValueOf(ms[0].scalar);
      ReadMembersComplete(ms[1..], slots[1..], ',', done + [v], rest);
      assert ValuesOf(ms, slots) == [v] + ValuesOf(ms[1..], slots[1..]);
      Assoc(done, [v], ValuesOf(ms[1..], slots[1..]));
    }
  }

  // ---- Soundness: what is read was such an object ----

  lemma ReadStringSound(s: bytes, v: bytes, rest: bytes) returns (ps: seq<Piece>)
    requires ReadString(s) == Ok((v, rest))
    ensures AllWellFormed(ps) && MeaningOf(ps) == v && s == Quoted(ps) + rest
  {
    ReadStringExact(s, v, rest);
    ps :| AllWellFormed(ps) && MeaningOf(ps) == v && s == Quoted(ps) + rest;
  }

  lemma ReadKeySound(s: bytes, key: bytes, rest: bytes) returns (ps: seq<Piece>)
    requires ReadKey(s, key) == Ok(rest)
    ensures AllWellFormed(ps) && MeaningOf(ps) == key && s == KeyText(ps) + rest
  {
    var (actual, s1) := ReadString(s).value;
    assert actual == key && s1 == [':'] + rest;
    ps := ReadStringSound(s, key, s1);
    Assoc(Quoted(ps), [':'], rest);
  }

  lemma ReadIntegerSound(s: bytes, n: int, rest: bytes) returns (v: Scalar)
    requires ReadInteger(s) == Ok((n, rest))
    ensures v.Number? && WellFormedScalar(v) && Accumulate(v.digits, 0) <= INT64_MAX
    ensures ValueOf(v) == NumberValue(n) && s == ScalarText(v) + rest && StopsNumber(rest)
  {
    var negative := s[0] == '-';
    var s1 := if negative then s[1..] else s;
    var ds := ReadDigitsSound(s1, 0);
    v := Number(negative, ds);
    ReadDigitsExact(ds, 0, rest);
    assert s == SignText(negative) + s1;
  }

  lemma ReadScalarSound(s: bytes, slot: Slot, v: Value, rest: bytes) returns (scalar: Scalar)
    requires match slot
             case TextSlot(_) => v.TextValue? && ReadString(s) == Ok((v.text, rest))
             case NumberSlot(_) => v.NumberValue? && ReadInteger(s) == Ok((v.number, rest))
    ensures WellFormedScalar(scalar) && (slot.TextSlot? ==> scalar.Token?)
    ensures slot.NumberSlot? ==> scalar.Number? && Accumulate(scalar.digits, 0) <= INT64_MAX
    ensures !scalar.Null? && ValueOf(scalar) == v && s == ScalarText(scalar) + rest
  {
    if slot.TextSlot? {
      var ps := ReadStringSound(s, v.text, rest);
      scalar := Token(ps);
    } else {
      scalar := ReadIntegerSound(s, v.number, rest);
    }
  }

  lemma ReadMemberSound(s: bytes, slot: Slot, sep: byte, v: Value, rest: bytes) returns (m: Member)
    requires ReadMember(s, slot, sep) == Ok((v, rest))
    ensures Fits(m, slot) && ValueOf(m.scalar) == v
    ensures s == [sep] + (MemberText(m) + rest)
  {
    hide ReadString, ReadInteger, Accumulate;
    var s1 := s[1..];
    var s2 := ReadKey(s1, slot.key).value;
    assert s == [sep] + s1;
    var key := ReadKeySound(s1, slot.key, s2);
    if slot.TextSlot? {
      assert ReadString(s2).value == (v.text, rest);
    } else {
      assert ReadInteger(s2).value == (v.number, rest);
    }
    var scalar := ReadScalarSound(s2, slot, v, rest);
    m := Member(key, scalar);
    Assoc(KeyText(key), ScalarText(scalar), rest);
  }

  lemma {:induction false} ReadMembersSound(
      s: bytes, slots: seq<Slot>, sep: byte, done: seq<Value>, values: seq<Value>, rest: bytes)
      returns (ms: seq<Member>)
    requires ReadMembers(s, slots, sep, done) == Ok((values, rest))
    ensures AllFit(ms, slots)
    ensures values == done + ValuesOf(ms, slots)
    ensures s == MembersText(ms, sep) + rest
    decreases |slots|
  {
    if slots == [] {
      ms := [];
      assert done + ValuesOf(ms, slots) == done;
    } else {
      var (v, s1) := ReadMember(s, slots[0], sep).value;
      var m := ReadMemberSound(s, slots[0], sep, v, s1);
      var tail := ReadMembersSound(s1, slots[1..], ',', done + [v], values, rest);
      ms := [m] + tail;
      assert ms[1..] == tail;
      MembersCons(m, tail, slots);
      MembersThen(ms, sep, rest);
      Assoc(done, [v], ValuesOf(tail, slots[1..]));
    }
  }

  lemma MembersCons(m: Member, tail: seq<Member>, slots: seq<Slot>)
    requires slots != [] && Fits(m, slots[0]) && AllFit(tail, slots[1..])
    ensures AllFit([m] + tail, slots)
    ensures ValuesOf([m] + tail, slots) == [ValueOf(m.scalar)] + ValuesOf(tail, slots[1..])
  {
    forall i | 0 <= i < |slots| ensures Fits(([m] + tail)[i], slots[i]) {
      if i > 0 {
        assert Fits(tail[i - 1], slots[1..][i - 1]);
      }
    }
  }

  /** s is an object whose members fit the slots and mean the values. */
  ghost predicate IsObject(s: bytes, slots: seq<Slot>, values: seq<Value>) {
    exists ms :: AllFit(ms, slots) && ObjectText(ms) == s && ValuesOf(ms, slots) == values
  }

  /** An object is read if and only if it is one of the grammar with the expected
      keys in the expected order, and then to its meaning. */
  lemma ReadObjectExact(s: bytes, slots: seq<Slot>, values: seq<Value>)
    ensures ReadObject(s, slots) == Ok(values) <==> IsObject(s, slots, values)
  {
    if ReadObject(s, slots) == Ok(values) {
      assert ReadMembers(s, slots, '{', []).value == (values, []);
      var ms := ReadMembersSound(s, slots, '{', [], values, []);
      assert [] + ValuesOf(ms, slots) == ValuesOf(ms, slots) && MembersText(ms, '{') + [] == s;
      assert ObjectText(ms) == s && ValuesOf(ms, slots) == values;
    }
    if IsObject(s, slots, values) {
      var ms :| AllFit(ms, slots) && ObjectText(ms) == s && ValuesOf(ms, slots) == values;
      ReadMembersComplete(ms, slots, '{', [], []);
      assert ObjectText(ms) + [] == s && [] + values == values;
    }
  }

  // ---- The one way an expected object fails: a number too large ----

  /** The member has its slot's key and kind, whatever the size of its number. */
  predicate Shaped(m: Member, slot: Slot) {
    WellFormedMember(m) && MeaningOf(m.key) == slot.key &&
    match slot
    case TextSlot(_) => m.scalar.Token?
    case NumberSlot(_) => m.scalar.Number?
  }

  predicate AllShaped(ms: seq<Member>, slots: seq<Slot>) {
    |ms| == |slots| && forall i | 0 <= i < |ms| :: Shaped(ms[i], slots[i])
  }

  lemma ReadMemberOverflow(m: Member, slot: Slot, sep: byte, rest: bytes)
    requires Shaped(m, slot) && !Fits(m, slot) && StopsNumber(rest)
    ensures ReadMember([sep] + (MemberText(m) + rest), slot, sep) == Throws(IntegerOverflow)
  {
    var value := ScalarText(m.scalar) + rest;
    assert ([sep] + (MemberText(m) + rest))[1..] == MemberText(m) + rest;
    Assoc(KeyText(m.key), ScalarText(m.scalar), rest);
    ReadKeyComplete(m.key, value);
    ReadNumberExact(m.scalar.negative, m.scalar.digits, rest);
  }

  lemma ShapedTail(ms: seq<Member>, slots: seq<Slot>)
    requires AllShaped(ms, slots) && ms != [] && Fits(ms[0], slots[0])
    ensures AllShaped(ms[1..], slots[1..])
    ensures AllFit(ms[1..], slots[1..]) ==> AllFit(ms, slots)
  {
    forall i | 0 <= i < |ms| - 1
      ensures Shaped(ms[1..][i], slots[1..][i])
      ensures Fits(ms[1..][i], slots[1..][i]) <==> Fits(ms[i + 1], slots[i + 1])
    {
      assert Shaped(ms[i + 1], slots[i + 1]);
    }
    if AllFit(ms[1..], slots[1..]) {
      forall i | 0 <= i < |ms| ensures Fits(ms[i], slots[i]) {
        assert i > 0 ==> Fits(ms[1..][i - 1], slots[1..][i - 1]);
      }
    }
  }

  lemma {:induction false} ReadMembersOverflow(ms: seq<Member>, slots: seq<Slot>, sep: byte, done: seq<Value>, rest: bytes)
    requires AllShaped(ms, slots) && !AllFit(ms, slots)
    ensures ReadMembers(MembersText(ms, sep) + rest, slots, sep, done) == Throws(IntegerOverflow)
  {
    var tail := MembersText(ms[1..], ',') + rest;
    MembersThen(ms, sep, rest);
    assert Shaped(ms[0], slots[0]);
    if Fits(ms[0], slots[0]) {
      ReadMemberComplete(ms[0], slots[0], sep, tail);
      ShapedTail(ms, slots);
      ReadMembersOverflow(ms[1..], slots[1..], ',', done + [ValueOf(ms[0].scalar)], rest);
    } else {
      ReadMemberOverflow(ms[0], slots[0], sep, tail);
    }
  }

  // ---- No two objects share a text ----

  lemma {:induction false} DigitsPrefixFree(a: bytes, b: bytes, x: bytes, y: bytes)
    requires AllDigits(a) && AllDigits(b) && StopsNumber(x) && StopsNumber(y)
    requires a + x == b + y
    ensures a == b && x == y
  {
    FrontOf(a, x);
    FrontOf(b, y);
    if a != [] && b != [] {
      DigitsPrefixFree(a[1..], b[1..], x, y);
      assert a == [a[0]] + a[1..] && b == [b[0]] + b[1..];
    }
  }

  lemma FrontOf(a: bytes, x: bytes)
    ensures a == [] ==> a + x == x
    ensures a != [] ==> (a + x)[0] == a[0] && (a + x)[1..] == a[1..] + x
  {
  }

  lemma CancelRight(a: bytes, b: bytes, x: bytes)
    requires a + x == b + x
    ensures a == b
  {
    assert |a| == |b|;
    assert a == (a + x)[..|a|] && b == (b + x)[..|a|];
  }

  lemma CancelLeft(p: bytes, x: bytes, y: bytes)
    requires p + x == p + y
    ensures x == y
  {
    assert x == (p + x)[|p|..] && y == (p + y)[|p|..];
  }

  lemma TokensPrefixFree(ps: seq<Piece>, qs: seq<Piece>, x: bytes, y: bytes)
    requires AllWellFormed(ps) && AllWellFormed(qs)
    requires Quoted(ps) + x == Quoted(qs) + y
    ensures Quoted(ps) == Quoted(qs) && MeaningOf(ps) == MeaningOf(qs) && x == y
  {
    ReadQuoted(ps, x);
    ReadQuoted(qs, y);
    CancelRight(Quoted(ps), Quoted(qs), x);
  }

  /** Numbers stand only where numbers stand; tokens and null may share a place. */
  predicate SameKind(v: Scalar, w: Scalar) {
    WellFormedScalar(v) && WellFormedScalar(w) && (v.Number? <==> w.Number?)
  }

  lemma NumbersPrefixFree(v: Scalar, w: Scalar, x: bytes, y: bytes)
    requires v.Number? && w.Number? && SameKind(v, w) && StopsNumber(x) && StopsNumber(y)
    requires ScalarText(v) + x == ScalarText(w) + y
    ensures v == w && x == y
  {
    Assoc(SignText(v.negative), v.digits, x);
    Assoc(SignText(w.negative), w.digits, y);
    var s := v.digits + x;
    var t := w.digits + y;
    assert (SignText(v.negative) + s)[0] == if v.negative then '-' else v.digits[0];
    assert (SignText(w.negative) + t)[0] == if w.negative then '-' else w.digits[0];
    assert v.negative == w.negative;
    CancelLeft(SignText(v.negative), s, t);
    DigitsPrefixFree(v.digits, w.digits, x, y);
  }

  lemma ScalarsPrefixFree(v: Scalar, w: Scalar, x: bytes, y: bytes)
    requires SameKind(v, w) && StopsNumber(x) && StopsNumber(y)
    requires ScalarText(v) + x == ScalarText(w) + y
    ensures ScalarText(v) == ScalarText(w) && x == y
    ensures v.Null? == w.Null?
    ensures !v.Null? ==> ValueOf(v) == ValueOf(w)
  {
    assert (ScalarText(v) + x)[0] == ScalarText(v)[0] && (ScalarText(w) + y)[0] == ScalarText(w)[0];
    if v.Number? {
      NumbersPrefixFree(v, w, x, y);
    } else if v.Token? {
      assert w.Token?;
      TokensPrefixFree(v.ps, w.ps, x, y);
    } else {
      CancelLeft(ScalarText(v), x, y);
    }
  }

  predicate SameKeys(ms: seq<Member>, ns: seq<Member>) {
    |ms| == |ns| && forall i | 0 <= i < |ms| :: ms[i].key == ns[i].key && SameKind(ms[i].scalar, ns[i].scalar)
  }

  /** Objects with the same keys and the same text have the same text in every member. */
  lemma {:induction false} MembersPrefixFree(ms: seq<Member>, ns: seq<Member>, sep: byte)
    requires SameKeys(ms, ns)
    requires MembersText(ms, sep) == MembersText(ns, sep)
    ensures forall i | 0 <= i < |ms| :: ScalarText(ms[i].scalar) == ScalarText(ns[i].scalar)
  {
    if ms != [] {
      var x, y := MembersText(ms[1..], ','), MembersText(ns[1..], ',');
      CancelLeft([sep], MemberText(ms[0]) + x, MemberText(ns[0]) + y);
      var v, w := ms[0].scalar, ns[0].scalar;
      Assoc(KeyText(ms[0].key), ScalarText(v), x);
      Assoc(KeyText(ms[0].key), ScalarText(w), y);
      CancelLeft(KeyText(ms[0].key), ScalarText(v) + x, ScalarText(w) + y);
      ScalarsPrefixFree(v, w, x, y);
      MembersPrefixFree(ms[1..], ns[1..], ',');
      forall i | 0 <= i < |ms| ensures ScalarText(ms[i].scalar) == ScalarText(ns[i].scalar) {
        assert i > 0 ==> ms[i] == ms[1..][i - 1] && ns[i] == ns[1..][i - 1];
      }
    }
  }

  // ---- One step of the parse functions: separator, key, value ----

  function Separator(k: nat): byte {
    if k == 0 then '{' else ','
  }

  lemma {:induction false} ReadStep(s: bytes, slots: seq<Slot>, k: nat, done: seq<Value>)
    requires k < |slots|
    ensures ReadMembers(s, slots[k..], Separator(k), done) ==
            match ReadMember(s, slots[k], Separator(k))
            case Ok(read) => ReadMembers(read.1, slots[k + 1..], ',', done + [read.0])
            case Throws(e) => Throws(e)
  {
    assert slots[k..][1..] == slots[k + 1..];
  }

  method NextText(r: FlatJsonReader, key: bytes, ghost slots: seq<Slot>, k: nat, ghost done: seq<Value>)
      returns (v: Result<bytes, Error>)
    requires r.Valid() && k < |slots| && slots[k] == TextSlot(key)
    modifies r
    ensures r.Valid()
    ensures v.Ok? ==> ReadMembers(old(r.Rest()), slots[k..], Separator(k), done) ==
                      ReadMembers(r.Rest(), slots[k + 1..], ',', done + [TextValue(v.value)])
    ensures v.Throws? ==> ReadMembers(old(r.Rest()), slots[k..], Separator(k), done) == Throws(v.error)
  {
    ReadStep(r.Rest(), slots, k, done);
    var _ :- r.ExpectChar(Separator(k));
    var _ :- r.Key(key);
    v := r.String();
  }

  method NextNumber(r: FlatJsonReader, key: bytes, ghost slots: seq<Slot>, k: nat, ghost done: seq<Value>)
      returns (v: Result<int64, Error>)
    requires r.Valid() && k < |slots| && slots[k] == NumberSlot(key)
    modifies r
    ensures r.Valid()
    ensures v.Ok? ==> ReadMembers(old(r.Rest()), slots[k..], Separator(k), done) ==
                      ReadMembers(r.Rest(), slots[k + 1..], ',', done + [NumberValue(v.value)])
    ensures v.Throws? ==> ReadMembers(old(r.Rest()), slots[k..], Separator(k), done) == Throws(v.error)
  {
    ReadStep(r.Rest(), slots, k, done);
    var _ :- r.ExpectChar(Separator(k));
    var _ :- r.Key(key);
    v := r.Integer();
  }

  method Finish(r: FlatJsonReader, ghost values: seq<Value>) returns (v: Result<(), Error>)
    requires r.Valid()
    modifies r
    ensures v.Ok? ==> ReadMembers(old(r.Rest()), [], ',', values) == Ok((values, []))
    ensures v.Throws? ==> var read := ReadMembers(old(r.Rest()), [], ',', values);
            if read.Ok? then v.error == TrailingData && read.value.1 != [] else v.error == read.error
  {
    var _ :- r.ExpectChar('}');
    if !r.Done() {
      return Throws(TrailingData);
    }
    return Ok(());
  }

  /** Text behind an object that is as expected is refused. */
  lemma TrailingIsRefused(ms: seq<Member>, slots: seq<Slot>, x: bytes)
    requires AllFit(ms, slots) && x != []
    ensures ReadObject(ObjectText(ms) + x, slots) == Throws(TrailingData)
  {
    ReadMembersComplete(ms, slots, '{', [], x);
  }
}
