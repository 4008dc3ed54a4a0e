/** json_string and the field-by-field object builders of canonical.hpp. */
module JsonPrinter {
  import opened Bytes
  import opened JsonGrammar
  import opened JsonReader
  import opened FlatObject
  import Utf8

  // ---- Hexadecimal ----

  function HexChar(d: int): (b: byte)
    requires 0 <= d < 16
    ensures IsHexDigit(b) && HexDigit(b) == d
  {
    if d < 10 then ByteOf('0' as int + d) else ByteOf('a' as int + d - 10)
  }

  lemma HexSplit(n: nat)
    ensures n == ((n / 0x1000 * 16 + n / 0x100 % 16) * 16 + n / 16 % 16) * 16 + n % 16
  {
    assert n / 16 / 16 == n / 0x100 && n / 0x100 / 16 == n / 0x1000;
  }

  /** Four lower-case hexadecimal digits, zero filled. */
  function Hex4(n: int): (h: bytes)
    requires 0 <= n <= 0xFFFF
    ensures IsHex4(h) && HexValue(h) == n
  {
    HexSplit(n);
    [HexChar(n / 0x1000), HexChar(n / 0x100 % 16), HexChar(n / 16 % 16), HexChar(n % 16)]
  }

  // ---- Strings ----

  /** The escapes json_string and Python's encoder share. */
  function ShortEscape(c: char): Option<byte> {
    match c
    case '"' => Some('"')
    case '\\' => Some('\\')
    case '\U{8}' => Some('b')
    case '\U{C}' => Some('f')
    case '\n' => Some('n')
    case '\r' => Some('r')
    case '\t' => Some('t')
    case _ => None
  }

  function BytePiece(b: byte): (p: Piece)
    ensures WellFormed(p) && Meaning(p) == [b]
  {
    match ShortEscape(b)
    case Some(e) => Short(e)
    case None => if b as int < 0x20 then Unit(Hex4(b as int)) else Raw(b)
  }

  function BytePieces(s: bytes): (ps: seq<Piece>)
    ensures |ps| == |s| && AllWellFormed(ps)
  {
    if s == [] then [] else [BytePiece(s[0])] + BytePieces(s[1..])
  }

  lemma {:induction false} BytePiecesMean(s: bytes)
    ensures MeaningOf(BytePieces(s)) == s
  {
    if s != [] {
      BytePiecesMean(s[1..]);
      MeaningOfCons(BytePiece(s[0]), BytePieces(s[1..]));
      assert s == [s[0]] + s[1..];
    }
  }

  /** The switch of json_string on one byte. */
  method EscapeByte(ch: byte) returns (t: bytes)
    ensures t == Text(BytePiece(ch))
  {
    match ch {
      case '"' => t := ['\\', '"'];
      case '\\' => t := ['\\', '\\'];
      case '\U{8}' => t := ['\\', 'b'];
      case '\U{C}' => t := ['\\', 'f'];
      case '\n' => t := ['\\', 'n'];
      case '\r' => t := ['\\', 'r'];
      case '\t' => t := ['\\', 't'];
      case _ =>
        if ch as int < 0x20 {
          t := ['\\', 'u'] + Hex4(ch as int);
        } else {
          t := [ch];
        }
    }
  }

  method JsonString(value: bytes) returns (out: bytes)
    ensures out == Quoted(BytePieces(value))
  {
    out := ['"'];
    var i := 0;
    assert value[0..] == value;
    while i < |value|
      invariant 0 <= i <= |value|
      invariant out + TextOf(BytePieces(value[i..])) == ['"'] + TextOf(BytePieces(value))
    {
      var t := EscapeByte(value[i]);
      assert value[i..][1..] == value[i + 1..];
      TextOfCons(BytePiece(value[i]), BytePieces(value[i + 1..]));
      Assoc(out, t, TextOf(BytePieces(value[i + 1..])));
      out := out + t;
      i := i + 1;
    }
    assert value[i..] == [];
    assert out + [] == out;
    out := out + ['"'];
  }

  // ---- Objects, field by field ----

  // A field of a message record; S is the record's string type.
  datatype Field<S> = TextField(key: bytes, text: S) | NumberField(key: bytes, number: int) | NullField(key: bytes)

  predicate Plain(key: bytes) {
    forall i | 0 <= i < |key| :: WellFormed(Raw(key[i]))
  }

  predicate AllPlain<S>(fs: seq<Field<S>>) {
    forall i | 0 <= i < |fs| :: Plain(fs[i].key)
  }

  function RawPieces(key: bytes): seq<Piece> {
    seq(|key|, i requires 0 <= i < |key| => Raw(key[i]))
  }

  lemma {:induction false} PlainIsRaw(key: bytes)
    requires Plain(key)
    ensures AllWellFormed(RawPieces(key))
    ensures TextOf(RawPieces(key)) == key
    ensures MeaningOf(RawPieces(key)) == key
  {
    if key != [] {
      PlainIsRaw(key[1..]);
      assert RawPieces(key)[1..] == RawPieces(key[1..]);
      assert key == [key[0]] + key[1..];
    }
  }

  /** The C++ literal "\"key\":". */
  function Label(key: bytes): bytes {
    ['"'] + key + ['"', ':']
  }

  function IntScalar(n: int): Scalar {
    if n < 0 then Number(true, Decimal(-n)) else Number(false, Decimal(n))
  }

  lemma IntScalarValue(n: int)
    ensures WellFormedScalar(IntScalar(n)) && ValueOf(IntScalar(n)) == NumberValue(n)
    ensures Accumulate(IntScalar(n).digits, 0) == if n < 0 then -n else n
  {
    DecimalAccumulates(if n < 0 then -n else n);
  }

  function ByteScalar(f: Field<bytes>): Scalar {
    match f
    case TextField(_, text) => Token(BytePieces(text))
    case NumberField(_, n) => IntScalar(n)
    case NullField(_) => Null
  }

  /** The member the C++ builders print for a field. */
  function ByteMember(f: Field<bytes>): Member {
    Member(RawPieces(f.key), ByteScalar(f))
  }

  function ByteMembers(fs: seq<Field<bytes>>): seq<Member> {
    seq(|fs|, i requires 0 <= i < |fs| => ByteMember(fs[i]))
  }

  /** What a builder has printed after the fields fs. */
  function Printed(fs: seq<Field<bytes>>): bytes {
    if fs == [] then []
    else
      var k := |fs| - 1;
      Printed(fs[..k]) + ([Separator(k)] + MemberText(ByteMember(fs[k])))
  }

  lemma {:induction false} PrintedThenRest(fs: seq<Field<bytes>>, k: nat)
    requires k <= |fs|
    ensures Printed(fs[..k]) + MembersText(ByteMembers(fs)[k..], Separator(k)) == ObjectText(ByteMembers(fs))
  {
    hide MemberText, ByteMember;
    var ms := ByteMembers(fs);
    if k == 0 {
      assert Printed(fs[..0]) == [] && ms[0..] == ms;
    } else {
      PrintedThenRest(fs, k - 1);
      var done, sep, text, tail := Printed(fs[..k - 1]), [Separator(k - 1)], MemberText(ms[k - 1]), MembersText(ms[k..], ',');
      assert fs[..k][..k - 1] == fs[..k - 1];
      assert ms[k - 1..][1..] == ms[k..];
      Assoc(sep, text, tail);
      Assoc(done, sep + text, tail);
    }
  }

  lemma LabelIsKey(key: bytes)
    requires Plain(key)
    ensures Label(key) == KeyText(RawPieces(key))
  {
    PlainIsRaw(key);
  }

  // The local ostringstream of a builder that prints the fields fs; k of them are printed.
  class ObjectStream {
    ghost const fs: seq<Field<bytes>>
    ghost var k: nat
    var text: bytes

    ghost predicate Valid()
      reads this
    {
      k <= |fs| && text == Printed(fs[..k]) && AllPlain(fs)
    }

    constructor (ghost fields: seq<Field<bytes>>)
      requires AllPlain(fields)
      ensures Valid() && fs == fields && k == 0
    {
      fs, k, text := fields, 0, [];
    }

    /** The separator, "key": and a value already rendered. */
    method Append(key: bytes, value: bytes)
      requires Valid() && k < |fs| && fs[k].key == key
      requires value == ScalarText(ByteScalar(fs[k]))
      modifies this
      ensures Valid() && k == old(k) + 1
    {
      LabelIsKey(key);
      assert fs[..k + 1][..k] == fs[..k];
      text := text + ([if text == [] then '{' else ','] + (Label(key) + value));
      k := k + 1;
    }

    method Text(key: bytes, value: bytes)
      requires Valid() && k < |fs| && fs[k] == TextField(key, value)
      modifies this
      ensures Valid() && k == old(k) + 1
    {
      var v := JsonString(value);
      Append(key, v);
    }

    method Number(key: bytes, n: int)
      requires Valid() && k < |fs| && fs[k] == NumberField(key, n)
      modifies this
      ensures Valid() && k == old(k) + 1
    {
      Append(key, ScalarText(IntScalar(n)));
    }

    method NullValue(key: bytes)
      requires Valid() && k < |fs| && fs[k] == NullField(key)
      modifies this
      ensures Valid() && k == old(k) + 1
    {
      Append(key, ['n', 'u', 'l', 'l']);
    }

    method Close() returns (out: bytes)
      requires Valid() && k == |fs| > 0
      ensures out == ObjectText(ByteMembers(fs))
    {
      PrintedThenRest(fs, k);
      var end := ByteMembers(fs)[k..];
      assert end == [] && MembersText(end, ',') == ['}'];
      out := text + ['}'];
    }
  }

  // ---- What a printed object means to the reader ----

  function FieldSlot<S>(f: Field<S>): Slot
    requires !f.NullField?
  {
    match f
    case TextField(key, _) => TextSlot(key)
    case NumberField(key, _) => NumberSlot(key)
  }

  function FieldValue(f: Field<bytes>): Value
    requires !f.NullField?
  {
    match f
    case TextField(_, text) => TextValue(text)
    case NumberField(_, n) => NumberValue(n)
  }

  /** The slots are those of the fields, whose keys need no escape. */
  predicate SlotsFor<S>(fs: seq<Field<S>>, slots: seq<Slot>) {
    |fs| == |slots| &&
    forall i | 0 <= i < |fs| :: !fs[i].NullField? && Plain(fs[i].key) && FieldSlot(fs[i]) == slots[i]
  }

  /** Every number is one that integer() can read back: an int64 above the least. */
  predicate NumbersReadable<S>(fs: seq<Field<S>>) {
    forall i | 0 <= i < |fs| :: fs[i].NumberField? ==> Readable(fs[i].number)
  }

  function FieldValues(fs: seq<Field<bytes>>): (vs: seq<Value>)
    requires forall i | 0 <= i < |fs| :: !fs[i].NullField?
    ensures |vs| == |fs|
  {
    seq(|fs|, i requires 0 <= i < |fs| => FieldValue(fs[i]))
  }

  predicate Readable(n: int) {
    -INT64_MAX <= n <= INT64_MAX
  }

  /** ms writes the fields fs, each string by some token that means it. */
  predicate Writes(m: Member, f: Field<bytes>) {
    m.key == RawPieces(f.key) && WellFormedScalar(m.scalar) &&
    match f
    case TextField(_, text) => m.scalar.Token? && MeaningOf(m.scalar.ps) == text
    case NumberField(_, n) => m.scalar == IntScalar(n)
    case NullField(_) => m.scalar.Null?
  }

  predicate AllWrite(ms: seq<Member>, fs: seq<Field<bytes>>) {
    |ms| == |fs| && forall i | 0 <= i < |ms| :: Writes(ms[i], fs[i])
  }

  lemma WritesFits(m: Member, f: Field<bytes>)
    requires Writes(m, f) && !f.NullField? && Plain(f.key)
    ensures Shaped(m, FieldSlot(f)) && ValueOf(m.scalar) == FieldValue(f)
    ensures Fits(m, FieldSlot(f)) <==> (f.NumberField? ==> Readable(f.number))
  {
    PlainIsRaw(f.key);
    if f.NumberField? {
      IntScalarValue(f.number);
    }
  }

  lemma AllWriteFit(ms: seq<Member>, fs: seq<Field<bytes>>, slots: seq<Slot>)
    requires AllWrite(ms, fs) && SlotsFor(fs, slots)
    ensures AllShaped(ms, slots) && WellFormedMembers(ms)
    ensures AllFit(ms, slots) <==> NumbersReadable(fs)
    ensures NumbersReadable(fs) ==> ValuesOf(ms, slots) == FieldValues(fs)
  {
    forall i | 0 <= i < |fs|
      ensures Shaped(ms[i], slots[i]) && ValueOf(ms[i].scalar) == FieldValue(fs[i])
      ensures Fits(ms[i], slots[i]) <==> (fs[i].NumberField? ==> Readable(fs[i].number))
    {
      WritesFits(ms[i], fs[i]);
    }
  }

  /** An object that writes the fields is read back to them if its numbers fit,
      and is otherwise refused for its number alone. */
  lemma ReadWritten(ms: seq<Member>, fs: seq<Field<bytes>>, slots: seq<Slot>)
    requires AllWrite(ms, fs) && SlotsFor(fs, slots)
    ensures ReadObject(ObjectText(ms), slots) ==
            if NumbersReadable(fs) then Ok(FieldValues(fs)) else Throws(IntegerOverflow)
  {
    AllWriteFit(ms, fs, slots);
    if NumbersReadable(fs) {
      ReadObjectExact(ObjectText(ms), slots, FieldValues(fs));
      assert IsObject(ObjectText(ms), slots, FieldValues(fs));
    } else {
      ReadMembersOverflow(ms, slots, '{', [], []);
      assert ObjectText(ms) + [] == ObjectText(ms);
    }
  }

  lemma ByteMemberWrites(f: Field<bytes>)
    ensures Writes(ByteMember(f), f)
  {
    match f
    case TextField(_, text) => BytePiecesMean(text);
    case NumberField(_, n) => IntScalarValue(n);
    case NullField(_) =>
  }

  lemma ByteMembersWrite(fs: seq<Field<bytes>>)
    ensures AllWrite(ByteMembers(fs), fs)
  {
    forall i | 0 <= i < |fs| ensures Writes(ByteMembers(fs)[i], fs[i]) {
      ByteMemberWrites(fs[i]);
    }
  }

  // ---- Printing is injective ----

  predicate SameLayout(fs: seq<Field<bytes>>, gs: seq<Field<bytes>>) {
    |fs| == |gs| &&
    forall i | 0 <= i < |fs| :: fs[i].key == gs[i].key && (fs[i].NumberField? <==> gs[i].NumberField?)
  }

  lemma ByteScalarInjective(f: Field<bytes>, g: Field<bytes>)
    requires f.key == g.key && (f.NumberField? <==> g.NumberField?)
    requires ScalarText(ByteScalar(f)) == ScalarText(ByteScalar(g))
    ensures f == g
  {
    var v, w := ByteScalar(f), ByteScalar(g);
    if f.NumberField? {
      IntScalarValue(f.number);
      IntScalarValue(g.number);
    }
    assert ScalarText(v) + [] == ScalarText(v) && ScalarText(w) + [] == ScalarText(w);
    ScalarsPrefixFree(v, w, [], []);
    if f.TextField? {
      BytePiecesMean(f.text);
      BytePiecesMean(g.text);
    }
  }

  /** Records with the same layout and the same printed form are the same. */
  lemma PrintingInjective(fs: seq<Field<bytes>>, gs: seq<Field<bytes>>)
    requires SameLayout(fs, gs) && AllPlain(fs)
    requires ObjectText(ByteMembers(fs)) == ObjectText(ByteMembers(gs))
    ensures fs == gs
  {
    var ms, ns := ByteMembers(fs), ByteMembers(gs);
    forall i | 0 <= i < |fs| ensures ms[i].key == ns[i].key && SameKind(ms[i].scalar, ns[i].scalar) {
      ByteScalarWellFormed(fs[i]);
      ByteScalarWellFormed(gs[i]);
    }
    MembersPrefixFree(ms, ns, '{');
    forall i | 0 <= i < |fs| ensures fs[i] == gs[i] {
      assert ScalarText(ms[i].scalar) == ScalarText(ns[i].scalar);
      ByteScalarInjective(fs[i], gs[i]);
    }
  }

  lemma ByteScalarWellFormed(f: Field<bytes>)
    ensures WellFormedScalar(ByteScalar(f)) && (ByteScalar(f).Number? <==> f.NumberField?)
  {
  }

  // ---- The printed form is the shortest ----

  predicate LowerCase(h: bytes) {
    forall b | b in h :: !('A' <= b <= 'F')
  }

  lemma HexIsLowerCase(n: int)
    requires 0 <= n <= 0xFFFF
    ensures LowerCase(Hex4(n))
  {
  }

  /** Lower-case digits of one value are the same digits. */
  lemma LowerHexUnique(h: bytes, g: bytes)
    requires IsHex4(h) && IsHex4(g) && LowerCase(h) && LowerCase(g) && HexValue(h) == HexValue(g)
    ensures h == g
  {
    forall i | 0 <= i < 4 ensures HexDigit(h[i]) == HexDigit(g[i]) {
      DigitsOfValue(h);
      DigitsOfValue(g);
    }
    forall i | 0 <= i < 4 ensures h[i] == g[i] {
      HexDigitIsPlace(h[i], HexDigit(h[i]));
      HexDigitIsPlace(g[i], HexDigit(g[i]));
      assert h[i] in h && g[i] in g;
      LowerDigitUnique(h[i], g[i]);
    }
  }

  lemma LowerDigitUnique(b: byte, c: byte)
    requires IsHexDigit(b) && IsHexDigit(c) && HexDigit(b) == HexDigit(c)
    requires !('A' <= b <= 'F') && !('A' <= c <= 'F')
    ensures b == c
  {
  }

  lemma DigitsOfValue(h: bytes)
    requires IsHex4(h)
    ensures HexDigit(h[3]) == HexValue(h) % 16 && HexDigit(h[2]) == HexValue(h) / 16 % 16
    ensures HexDigit(h[1]) == HexValue(h) / 16 / 16 % 16 && HexDigit(h[0]) == HexValue(h) / 16 / 16 / 16
  {
  }

  lemma OneByteEncoding(cp: int, b: byte)
    requires 0 <= cp <= 0x10FFFF
    ensures Utf8.Encode(cp) == [b] <==> cp < 0x80 && b as int == cp
  {
  }

  /** json_string prints each byte by the shortest piece that means it, and if that has
      hexadecimal digits, by lower-case ones: no other piece is as short. */
  lemma BytePieceIsCanonical(b: byte, p: Piece)
    requires WellFormed(p) && Meaning(p) == [b]
    ensures |Text(BytePiece(b))| <= |Text(p)|
    ensures |Text(BytePiece(b))| == |Text(p)| && (p.Unit? ==> LowerCase(p.h)) ==> p == BytePiece(b)
    ensures BytePiece(b).Unit? ==> LowerCase(BytePiece(b).h)
  {
    hide Utf8.Encode, HexValue, Hex4;
    match p
    case Raw(_) =>
    case Short(e) => ShortEscapeTable(e);
    case Unit(h) =>
      OneByteEncoding(HexValue(h), b);
      if b as int < 0x20 {
        HexIsLowerCase(b as int);
        if LowerCase(h) {
          LowerHexUnique(h, Hex4(b as int));
        }
      }
    case Pair(hi, lo) => OneByteEncoding(PairScalar(HexValue(hi), HexValue(lo)), b);
  }

  lemma {:induction false} DecimalIsShortest(ds: bytes)
    requires ds != [] && AllDigits(ds)
    ensures |Decimal(Accumulate(ds, 0))| <= |ds|
  {
    var n := |ds| - 1;
    var front := ds[..n];
    assert ds == front + [ds[n]];
    if n > 0 {
      DecimalIsShortest(front);
    }
    AccumulateSnoc(front, ds[n], 0);
    assert Accumulate(ds, 0) == Accumulate(front, 0) * 10 + DigitValue(ds[n]);
  }

  /** An integer is printed in the shortest form that reads back as it: no leading zeros,
      and no sign for zero. */
  lemma IntegerIsShortest(n: int, v: Scalar)
    requires v.Number? && WellFormedScalar(v) && ValueOf(v) == NumberValue(n)
    ensures |ScalarText(IntScalar(n))| <= |ScalarText(v)|
    ensures n == 0 ==> ScalarText(IntScalar(n)) == ['0']
  {
    DecimalIsShortest(v.digits);
  }
}
