/** FlatJsonReader: what each of its methods reads from the remaining bytes,
    the methods themselves, and their agreement with the grammar. */
module JsonReader {
  import opened Bytes
  import opened JsonGrammar
  import Utf8

  // One constructor for each throw of wire_parse.hpp; IntegerOverflow marks the
  // signed overflow for which C++ defines no behaviour.
  datatype Error =
    | UnexpectedToken | UnexpectedKey
    | InvalidControl | TruncatedEscape | UnsupportedEscape | Unterminated
    | TruncatedUnicode | InvalidHex | MissingLow | InvalidLow | UnexpectedLow | InvalidCodePoint
    | MissingInteger | InvalidInteger | IntegerOverflow
    | InvalidEnvelope | PayloadNotObject | InvalidNesting | UnterminatedPayload | InvalidType | InvalidSuffix
    | WrongType | TrailingData

  // A value read, together with the bytes that remain.
  type Read<+T> = Result<(T, bytes), Error>

  const INT64_MAX := 0x7FFF_FFFF_FFFF_FFFF

  type int64 = n: int | -INT64_MAX - 1 <= n <= INT64_MAX

  // ---- Strings ----

  function ReadUnit(s: bytes): Read<bytes> {
    if |s| < 4 then Throws(TruncatedUnicode)
    else if !IsHex4(s[..4]) then Throws(InvalidHex)
    else Ok((s[..4], s[4..]))
  }

  /** The piece after "\u", read from the bytes that follow those two. */
  function ReadUnicode(s: bytes): Read<Piece> {
    var (hi, s1) :- ReadUnit(s);
    if IsHigh(HexValue(hi)) then
      if |s1| < 2 || s1[0] != '\\' || s1[1] != 'u' then Throws(MissingLow)
      else
        var (lo, s2) :- ReadUnit(s1[2..]);
        if IsLow(HexValue(lo)) then Ok((Pair(hi, lo), s2)) else Throws(InvalidLow)
    else if IsLow(HexValue(hi)) then Throws(UnexpectedLow)
    else Ok((Unit(hi), s1))
  }

  /** The piece at the front of s, which is not a closing quote. */
  function ReadPiece(s: bytes): (r: Read<Piece>)
    requires s != [] && s[0] != '"'
    ensures r.Ok? ==> WellFormed(r.value.0) && s == Text(r.value.0) + r.value.1
  {
    if s[0] != '\\' then
      if s[0] as int < 0x20 then Throws(InvalidControl) else Ok((Raw(s[0]), s[1..]))
    else if |s| == 1 then Throws(TruncatedEscape)
    else if IsShort(s[1]) then Ok((Short(s[1]), s[2..]))
    else if s[1] == 'u' then
      var r := ReadUnicode(s[2..]);
      assert r.Ok? && r.value.0.Pair? ==>
        s == ['\\', 'u'] + r.value.0.hi + ['\\', 'u'] + r.value.0.lo + r.value.1;
      r
    else Throws(UnsupportedEscape)
  }

  /** The rest of a string body, appended to what was already decoded. */
  function ReadBody(s: bytes, out: bytes): Read<bytes>
    decreases |s|
  {
    if s == [] then Throws(Unterminated)
    else if s[0] == '"' then Ok((out, s[1..]))
    else
      var (p, rest) :- ReadPiece(s);
      ReadBody(rest, out + Meaning(p))
  }

  function Expect(s: bytes, ch: byte): Result<bytes, Error> {
    if s != [] && s[0] == ch then Ok(s[1..]) else Throws(UnexpectedToken)
  }

  function ReadString(s: bytes): Read<bytes> {
    var s1 :- Expect(s, '"');
    ReadBody(s1, [])
  }

  function ReadKey(s: bytes, key: bytes): Result<bytes, Error> {
    var (actual, s1) :- ReadString(s);
    if actual != key then Throws(UnexpectedKey) else Expect(s1, ':')
  }

  lemma ReadUnitComplete(h: bytes, rest: bytes)
    requires IsHex4(h)
    ensures ReadUnit(h + rest) == Ok((h, rest))
  {
    assert (h + rest)[..4] == h && (h + rest)[4..] == rest;
  }

  lemma ReadPairComplete(hi: bytes, lo: bytes, rest: bytes)
    requires WellFormed(Pair(hi, lo))
    ensures ReadUnicode(hi + (['\\', 'u'] + (lo + rest))) == Ok((Pair(hi, lo), rest))
  {
    var s1 := ['\\', 'u'] + (lo + rest);
    ReadUnitComplete(hi, s1);
    assert s1[2..] == lo + rest;
    ReadUnitComplete(lo, rest);
  }

  lemma ReadLoneUnitComplete(h: bytes, rest: bytes)
    requires WellFormed(Unit(h))
    ensures ReadUnicode(h + rest) == Ok((Unit(h), rest))
  {
    ReadUnitComplete(h, rest);
  }

  lemma {:induction false} ReadPieceComplete(p: Piece, rest: bytes)
    requires WellFormed(p)
    ensures (Text(p) + rest)[0] != '"'
    ensures ReadPiece(Text(p) + rest) == Ok((p, rest))
  {
    hide HexValue, IsHex4, ReadUnicode;
    var s := Text(p) + rest;
    match p
    case Raw(b) => assert s[1..] == rest;
    case Short(e) => assert s[2..] == rest;
    case Unit(h) =>
      assert s[2..] == h + rest;
      ReadLoneUnitComplete(h, rest);
    case Pair(hi, lo) =>
      assert s[2..] == hi + (['\\', 'u'] + (lo + rest));
      ReadPairComplete(hi, lo, rest);
  }

  /** ps is the body of a token at the front of s that adds v to out. */
  ghost predicate IsBody(ps: seq<Piece>, s: bytes, out: bytes, v: bytes, rest: bytes) {
    AllWellFormed(ps) && s == TextOf(ps) + (['"'] + rest) && v == out + MeaningOf(ps)
  }

  lemma BodyNil(out: bytes, rest: bytes)
    ensures IsBody([], ['"'] + rest, out, out, rest)
  {
    assert TextOf([]) + (['"'] + rest) == ['"'] + rest;
    assert out + MeaningOf([]) == out;
  }

  lemma BodyCons(p: Piece, tail: seq<Piece>, s1: bytes, out: bytes, v: bytes, rest: bytes)
    requires WellFormed(p) && AllWellFormed(tail)
    ensures IsBody(tail, s1, out + Meaning(p), v, rest) ==> IsBody([p] + tail, Text(p) + s1, out, v, rest)
  {
    TextOfCons(p, tail);
    MeaningOfCons(p, tail);
    Assoc(out, Meaning(p), MeaningOf(tail));
    Assoc(Text(p), TextOf(tail), ['"'] + rest);
  }

  /** Every well-formed body is read to its meaning, whatever follows its quote. */
  lemma {:induction false} ReadBodyComplete(ps: seq<Piece>, rest: bytes, out: bytes)
    requires AllWellFormed(ps)
    ensures ReadBody(TextOf(ps) + (['"'] + rest), out) == Ok((out + MeaningOf(ps), rest))
  {
    if ps == [] {
      BodyNil(out, rest);
      assert (['"'] + rest)[1..] == rest;
    } else {
      var p, tail, end := ps[0], ps[1..], ['"'] + rest;
      Assoc(Text(p), TextOf(tail), end);
      Assoc(out, Meaning(p), MeaningOf(tail));
      ReadPieceComplete(p, TextOf(tail) + end);
      ReadBodyComplete(tail, rest, out + Meaning(p));
    }
  }

  lemma {:induction false} ReadBodySound(s: bytes, out: bytes, v: bytes, rest: bytes) returns (ps: seq<Piece>)
    requires ReadBody(s, out) == Ok((v, rest))
    ensures IsBody(ps, s, out, v, rest)
    decreases |s|
  {
    if s[0] == '"' {
      ps := [];
      assert s == ['"'] + rest;
      BodyNil(out, rest);
    } else {
      var (p, s1) := ReadPiece(s).value;
      var tail := ReadBodySound(s1, out + Meaning(p), v, rest);
      BodyCons(p, tail, s1, out, v, rest);
      ps := [p] + tail;
    }
  }

  /** s begins with a string token that means v and is followed by rest. */
  ghost predicate BeginsWithToken(s: bytes, v: bytes, rest: bytes) {
    exists ps :: AllWellFormed(ps) && MeaningOf(ps) == v && s == Quoted(ps) + rest
  }

  /** string() succeeds exactly on the tokens of the grammar; the value and the
      place where it stops are the only possible ones. */
  lemma ReadStringExact(s: bytes, v: bytes, rest: bytes)
    ensures ReadString(s) == Ok((v, rest)) <==> BeginsWithToken(s, v, rest)
  {
    if ReadString(s) == Ok((v, rest)) {
      var ps := ReadBodySound(s[1..], [], v, rest);
      assert [] + MeaningOf(ps) == MeaningOf(ps);
      QuotedThen(ps, rest);
      assert s == ['"'] + s[1..];
    }
    if BeginsWithToken(s, v, rest) {
      var ps :| AllWellFormed(ps) && MeaningOf(ps) == v && s == Quoted(ps) + rest;
      ReadQuoted(ps, rest);
    }
  }

  lemma QuotedThen(ps: seq<Piece>, rest: bytes)
    ensures Quoted(ps) + rest == ['"'] + (TextOf(ps) + (['"'] + rest))
  {
    Assoc(['"'] + TextOf(ps), ['"'], rest);
    Assoc(['"'], TextOf(ps), ['"'] + rest);
  }

  lemma ReadQuoted(ps: seq<Piece>, rest: bytes)
    requires AllWellFormed(ps)
    ensures ReadString(Quoted(ps) + rest) == Ok((MeaningOf(ps), rest))
  {
    QuotedThen(ps, rest);
    var body := TextOf(ps) + (['"'] + rest);
    assert (['"'] + body)[1..] == body;
    ReadBodyComplete(ps, rest, []);
    assert [] + MeaningOf(ps) == MeaningOf(ps);
  }

  // ---- Integers ----

  predicate IsDigit(b: byte) {
    '0' <= b <= '9'
  }

  function DigitValue(b: byte): (d: int)
    requires IsDigit(b)
    ensures 0 <= d <= 9
  {
    b as int - '0' as int
  }

  function ReadDigits(s: bytes, value: nat): Read<nat> {
    if s != [] && IsDigit(s[0]) then
      var next := value * 10 + DigitValue(s[0]);
      if next > INT64_MAX then Throws(IntegerOverflow) else ReadDigits(s[1..], next)
    else Ok((value, s))
  }

  function Signed(negative: bool, value: nat): int {
    var v: int := value;
    if negative then -v else v
  }

  function ReadInteger(s: bytes): Read<int> {
    if s == [] then Throws(MissingInteger)
    else
      var negative := s[0] == '-';
      var s1 := if negative then s[1..] else s;
      if s1 == [] || !IsDigit(s1[0]) then Throws(InvalidInteger)
      else
        var (value, rest) :- ReadDigits(s1, 0);
        Ok((Signed(negative, value), rest))
  }

  // ---- The reader object ----

  class FlatJsonReader {
    const json: bytes
    var pos: nat

    constructor (text: bytes)
      ensures Valid() && Rest() == text
    {
      json := text;
      pos := 0;
    }

    predicate Valid()
      reads this
    {
      pos <= |json|
    }

    function Rest(): bytes
      reads this
      requires Valid()
    {
      json[pos..]
    }

    method ExpectChar(ch: byte) returns (r: Result<(), Error>)
      requires Valid()
      modifies this
      ensures Valid()
      ensures match Expect(old(Rest()), ch)
              case Ok(rest) => r == Ok(()) && Rest() == rest
              case Throws(e) => r == Throws(e)
    {
      if pos >= |json| || json[pos] != ch {
        return Throws(UnexpectedToken);
      }
      pos := pos + 1;
      return Ok(());
    }

    method UnicodeUnit() returns (r: Result<nat, Error>)
      requires Valid()
      modifies this
      ensures Valid()
      ensures match ReadUnit(old(Rest()))
              case Ok((h, rest)) => r == Ok(HexValue(h)) && Rest() == rest
              case Throws(e) => r == Throws(e)
    {
      ghost var s := Rest();
      if pos + 4 > |json| {
        return Throws(TruncatedUnicode);
      }
      var value := 0;
      var i := 0;
      ghost var start := pos;
      while i < 4
        invariant 0 <= i <= 4 && pos == start + i && start + 4 <= |json|
        invariant forall k | 0 <= k < i :: IsHexDigit(s[k])
        invariant i == 0 ==> value == 0
        invariant i == 1 ==> value == HexDigit(s[0])
        invariant i == 2 ==> value == HexDigit(s[0]) * 16 + HexDigit(s[1])
        invariant i == 3 ==> value == (HexDigit(s[0]) * 16 + HexDigit(s[1])) * 16 + HexDigit(s[2])
        invariant i == 4 ==> IsHex4(s[..4]) && value == HexValue(s[..4])
      {
        assert json[pos] == s[i] == s[..4][i];
        if !IsHexDigit(json[pos]) {
          return Throws(InvalidHex);
        }
        value := value * 16 + HexDigit(json[pos]);
        pos := pos + 1;
        i := i + 1;
      }
      return Ok(value);
    }

    /** The 'u' case of string(): appends the UTF-8 form of one escape or surrogate pair. */
    method UnicodeEscape(out: bytes) returns (r: Result<bytes, Error>)
      requires Valid()
      modifies this
      ensures Valid()
      ensures match ReadUnicode(old(Rest()))
              case Ok((p, rest)) => WellFormed(p) && r == Ok(out + Meaning(p)) && Rest() == rest
              case Throws(e) => r == Throws(e)
    {
      var first :- UnicodeUnit();
      var cp := first;
      if IsHigh(first) {
        if pos + 2 > |json| || json[pos] != '\\' || json[pos + 1] != 'u' {
          return Throws(MissingLow);
        }
        ghost var s1 := Rest();
        pos := pos + 2;
        assert Rest() == s1[2..];
        var second :- UnicodeUnit();
        if !IsLow(second) {
          return Throws(InvalidLow);
        }
        cp := 0x10000 + (first - 0xD800) * 0x400 + (second - 0xDC00);
      } else if IsLow(first) {
        return Throws(UnexpectedLow);
      }
      var appended := Utf8.AppendUtf8(out, cp);
      match appended
      case Some(o) => return Ok(o);
      case None => return Throws(InvalidCodePoint);
    }

    method String() returns (r: Result<bytes, Error>)
      requires Valid()
      modifies this
      ensures Valid()
      ensures match ReadString(old(Rest()))
              case Ok((v, rest)) => r == Ok(v) && Rest() == rest
              case Throws(e) => r == Throws(e)
    {
      var _ :- ExpectChar('"');
      var out: bytes := [];
      ghost var body := Rest();
      while pos < |json|
        invariant Valid()
        invariant ReadBody(Rest(), out) == ReadBody(body, [])
        decreases |json| - pos
      {
        ghost var s, out0 := Rest(), out;
        var ch := json[pos];
        pos := pos + 1;
        assert Rest() == s[1..];
        if ch == '"' {
          return Ok(out);
        }
        if ch != '\\' {
          if ch as int < 0x20 {
            return Throws(InvalidControl);
          }
          out := out + [ch];
          continue;
        }
        if pos >= |json| {
          return Throws(TruncatedEscape);
        }
        var esc := json[pos];
        pos := pos + 1;
        assert Rest() == s[2..];
        match esc {
          case '"' => out := out + ['"'];
          case '\\' => out := out + ['\\'];
          case '/' => out := out + ['/'];
          case 'b' => out := out + ['\U{8}'];
          case 'f' => out := out + ['\U{C}'];
          case 'n' => out := out + ['\n'];
          case 'r' => out := out + ['\r'];
          case 't' => out := out + ['\t'];
          case 'u' => out :- UnicodeEscape(out);
          case _ => return Throws(UnsupportedEscape);
        }
        assert ReadBody(s, out0) == ReadBody(Rest(), out);
      }
      return Throws(Unterminated);
    }

    method Key(expected: bytes) returns (r: Result<(), Error>)
      requires Valid()
      modifies this
      ensures Valid()
      ensures match ReadKey(old(Rest()), expected)
              case Ok(rest) => r == Ok(()) && Rest() == rest
              case Throws(e) => r == Throws(e)
    {
      var actual :- String();
      if actual != expected {
        return Throws(UnexpectedKey);
      }
      r := ExpectChar(':');
    }

    method Integer() returns (r: Result<int64, Error>)
      requires Valid()
      modifies this
      ensures Valid()
      ensures match ReadInteger(old(Rest()))
              case Ok((n, rest)) => r == Ok(n) && Rest() == rest
              case Throws(e) => r == Throws(e)
    {
      if pos >= |json| {
        return Throws(MissingInteger);
      }
      var negative := false;
      if json[pos] == '-' {
        negative := true;
        pos := pos + 1;
      }
      if pos >= |json| || !('0' <= json[pos] <= '9') {
        return Throws(InvalidInteger);
      }
      ghost var digits := Rest();
      var value := 0;
      while pos < |json| && '0' <= json[pos] <= '9'
        invariant Valid() && 0 <= value <= INT64_MAX
        invariant ReadDigits(Rest(), value) == ReadDigits(digits, 0)
        decreases |json| - pos
      {
        ghost var s := Rest();
        var digit := json[pos] as int - '0' as int;
        pos := pos + 1;
        assert Rest() == s[1..];
        value := value * 10 + digit;
        if value > INT64_MAX {
          return Throws(IntegerOverflow);
        }
      }
      return Ok(if negative then 0 - value else value);
    }

    predicate Done()
      reads this
      requires Valid()
      ensures Done() <==> Rest() == []
    {
      pos == |json|
    }
  }

  // ---- Exactly how string() fails ----

  /** What follows "\\u" where no escape can be read. */
  predicate UnicodeFault(t: bytes, e: Error) {
    var pair := |t| >= 6 && t[4] == '\\' && t[5] == 'u';
    if |t| < 4 then e == TruncatedUnicode
    else if !IsHex4(t[..4]) then e == InvalidHex
    else if IsLow(HexValue(t[..4])) then e == UnexpectedLow
    else if !IsHigh(HexValue(t[..4])) then false
    else if !pair then e == MissingLow
    else if |t| < 10 then e == TruncatedUnicode
    else if !IsHex4(t[6..10]) then e == InvalidHex
    else e == InvalidLow && !IsLow(HexValue(t[6..10]))
  }

  /** What stands where neither a piece nor the closing quote can be read, and the error it
      is given. */
  predicate Fault(bad: bytes, e: Error) {
    match e
    case Unterminated => bad == []
    case InvalidControl => bad != [] && bad[0] as int < 0x20
    case TruncatedEscape => bad == ['\\']
    case UnsupportedEscape => |bad| > 1 && bad[0] == '\\' && bad[1] !in "\"\\/bfnrtu"
    case _ => |bad| > 1 && bad[0] == '\\' && bad[1] == 'u' && UnicodeFault(bad[2..], e)
  }

  lemma UnicodeFailsExactly(t: bytes, e: Error)
    ensures ReadUnicode(t) == Throws(e) <==> UnicodeFault(t, e)
  {
    hide IsHex4, HexValue;
    if |t| >= 6 {
      assert t[4..][0] == t[4] && t[4..][1] == t[5] && t[4..][2..] == t[6..];
      if |t| >= 10 {
        assert t[6..][..4] == t[6..10];
      }
    }
  }

  lemma PieceFailsExactly(bad: bytes, e: Error)
    requires bad != [] && bad[0] != '"'
    ensures ReadPiece(bad) == Throws(e) <==> Fault(bad, e)
  {
    if |bad| > 1 && bad[0] == '\\' {
      UnicodeFailsExactly(bad[2..], e);
      ShortEscapeTable(bad[1]);
    }
  }

  lemma {:induction false} BodyFails(ps: seq<Piece>, bad: bytes, out: bytes, e: Error)
    requires AllWellFormed(ps) && Fault(bad, e)
    ensures ReadBody(TextOf(ps) + bad, out) == Throws(e)
  {
    if ps == [] {
      assert TextOf(ps) + bad == bad;
      if bad != [] {
        PieceFailsExactly(bad, e);
      }
    } else {
      hide Fault;
      Assoc(Text(ps[0]), TextOf(ps[1..]), bad);
      ReadPieceComplete(ps[0], TextOf(ps[1..]) + bad);
      BodyFails(ps[1..], bad, out + Meaning(ps[0]), e);
    }
  }

  lemma {:induction false} BodyFailsSound(s: bytes, out: bytes, e: Error) returns (ps: seq<Piece>, bad: bytes)
    requires ReadBody(s, out) == Throws(e)
    ensures AllWellFormed(ps) && s == TextOf(ps) + bad && Fault(bad, e)
    decreases |s|
  {
    ps, bad := [], s;
    assert s == TextOf(ps) + bad;
    if s != [] {
      PieceFailsExactly(s, e);
      if ReadPiece(s).Ok? {
        hide Fault;
        var (p, rest) := ReadPiece(s).value;
        var tail;
        tail, bad := BodyFailsSound(rest, out + Meaning(p), e);
        TextOfCons(p, tail);
        Assoc(Text(p), TextOf(tail), bad);
        ps := [p] + tail;
      }
    }
  }

  /** s begins a string token and then has a fault. */
  ghost predicate BreaksOff(s: bytes, e: Error) {
    exists ps, bad :: AllWellFormed(ps) && Fault(bad, e) && s == ['"'] + (TextOf(ps) + bad)
  }

  /** string() fails with an error exactly where the input does not begin with a quote, or
      after well-formed pieces has the fault of that error. */
  lemma ReadStringFailsExactly(s: bytes, e: Error)
    ensures ReadString(s) == Throws(e) <==>
            ((s == [] || s[0] != '"') && e == UnexpectedToken) || BreaksOff(s, e)
  {
    if ReadString(s) == Throws(e) && s != [] && s[0] == '"' {
      var ps, bad := BodyFailsSound(s[1..], [], e);
      assert s == ['"'] + (TextOf(ps) + bad);
    }
    if BreaksOff(s, e) {
      var ps, bad :| AllWellFormed(ps) && Fault(bad, e) && s == ['"'] + (TextOf(ps) + bad);
      BodyFails(ps, bad, [], e);
      assert s[1..] == TextOf(ps) + bad;
    }
  }

  /** integer() fails at the end of the text, or where no digit follows an optional sign;
      every other failure is an overflow. */
  lemma IntegerFailsExactly(s: bytes)
    ensures ReadInteger(s) == Throws(MissingInteger) <==> s == []
    ensures ReadInteger(s) == Throws(InvalidInteger) <==>
            s != [] && var t := if s[0] == '-' then s[1..] else s; t == [] || t[0] < '0' || t[0] > '9'
    ensures ReadInteger(s).Throws? ==>
            ReadInteger(s).error in {MissingInteger, InvalidInteger, IntegerOverflow}
  {
    if s != [] {
      DigitsFail(if s[0] == '-' then s[1..] else s, 0);
    }
  }

  lemma {:induction false} DigitsFail(s: bytes, value: nat)
    ensures ReadDigits(s, value).Throws? ==> ReadDigits(s, value).error == IntegerOverflow
    decreases |s|
  {
    if s != [] && IsDigit(s[0]) && value * 10 + DigitValue(s[0]) <= INT64_MAX {
      DigitsFail(s[1..], value * 10 + DigitValue(s[0]));
    }
  }

  /** A key is refused for what it means, and without its colon. */
  lemma KeyIsRefused(ps: seq<Piece>, rest: bytes, key: bytes)
    requires AllWellFormed(ps)
    ensures ReadKey(Quoted(ps) + rest, key) ==
            if MeaningOf(ps) != key then Throws(UnexpectedKey)
            else if rest == [] || rest[0] != ':' then Throws(UnexpectedToken)
            else Ok(rest[1..])
  {
    ReadQuoted(ps, rest);
  }
}
