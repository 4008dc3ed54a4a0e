/** JSON string tokens as section 7 of RFC 8259 writes them: a declarative
    description shared by both printers, the reader and the envelope scanner. */
module JsonGrammar {
  import opened Bytes
  import Utf8

  // One unit of a string body: a raw byte, a two-character escape, a \u escape
  // outside the surrogates, or a surrogate pair of \u escapes.
  datatype Piece = Raw(b: byte) | Short(e: byte) | Unit(h: bytes) | Pair(hi: bytes, lo: bytes)

  predicate IsHexDigit(b: byte) {
    '0' <= b <= '9' || 'a' <= b <= 'f' || 'A' <= b <= 'F'
  }

  function HexDigit(b: byte): (d: int)
    requires IsHexDigit(b)
    ensures 0 <= d < 16
  {
    if '0' <= b <= '9' then b as int - '0' as int
    else if 'a' <= b <= 'f' then 10 + (b as int - 'a' as int)
    else 10 + (b as int - 'A' as int)
  }

  predicate IsHex4(h: bytes) {
    |h| == 4 && IsHexDigit(h[0]) && IsHexDigit(h[1]) && IsHexDigit(h[2]) && IsHexDigit(h[3])
  }

  function HexValue(h: bytes): (v: int)
    requires IsHex4(h)
    ensures 0 <= v <= 0xFFFF
  {
    ((HexDigit(h[0]) * 16 + HexDigit(h[1])) * 16 + HexDigit(h[2])) * 16 + HexDigit(h[3])
  }

  predicate IsHigh(u: int) { 0xD800 <= u <= 0xDBFF }

  predicate IsLow(u: int) { 0xDC00 <= u <= 0xDFFF }

  predicate IsShort(e: byte) {
    e == '"' || e == '\\' || e == '/' || e == 'b' || e == 'f' || e == 'n' || e == 'r' || e == 't'
  }

  predicate WellFormed(p: Piece) {
    match p
    case Raw(b) => b as int >= 0x20 && b != '"' && b != '\\'
    case Short(e) => IsShort(e)
    case Unit(h) => IsHex4(h) && !IsHigh(HexValue(h)) && !IsLow(HexValue(h))
    case Pair(hi, lo) => IsHex4(hi) && IsHex4(lo) && IsHigh(HexValue(hi)) && IsLow(HexValue(lo))
  }

  function Text(p: Piece): (t: bytes)
    ensures |t| > 0
  {
    match p
    case Raw(b) => [b]
    case Short(e) => ['\\', e]
    case Unit(h) => ['\\', 'u'] + h
    case Pair(hi, lo) => ['\\', 'u'] + hi + (['\\', 'u'] + lo)
  }

  function ShortMeaning(e: byte): byte {
    match e
    case 'b' => '\U{8}'
    case 'f' => '\U{C}'
    case 'n' => '\n'
    case 'r' => '\r'
    case 't' => '\t'
    case _ => e
  }

  function PairScalar(hi: int, lo: int): (cp: int)
    requires IsHigh(hi) && IsLow(lo)
    ensures 0x10000 <= cp <= 0x10FFFF
  {
    0x10000 + (hi - 0xD800) * 0x400 + (lo - 0xDC00)
  }

  function Meaning(p: Piece): bytes
    requires WellFormed(p)
  {
    match p
    case Raw(b) => [b]
    case Short(e) => [ShortMeaning(e)]
    case Unit(h) => Utf8.Encode(HexValue(h))
    case Pair(hi, lo) => Utf8.Encode(PairScalar(HexValue(hi), HexValue(lo)))
  }

  predicate AllWellFormed(ps: seq<Piece>) {
    forall i | 0 <= i < |ps| :: WellFormed(ps[i])
  }

  function TextOf(ps: seq<Piece>): bytes {
    if ps == [] then [] else Text(ps[0]) + TextOf(ps[1..])
  }

  function MeaningOf(ps: seq<Piece>): bytes
    requires AllWellFormed(ps)
  {
    if ps == [] then [] else Meaning(ps[0]) + MeaningOf(ps[1..])
  }

  /** A string token: quote, body, quote. */
  function Quoted(ps: seq<Piece>): bytes {
    ['"'] + TextOf(ps) + ['"']
  }

  lemma TextOfCons(p: Piece, ps: seq<Piece>)
    ensures TextOf([p] + ps) == Text(p) + TextOf(ps)
  {
    assert ([p] + ps)[1..] == ps;
  }

  lemma MeaningOfCons(p: Piece, ps: seq<Piece>)
    requires WellFormed(p) && AllWellFormed(ps)
    ensures AllWellFormed([p] + ps)
    ensures MeaningOf([p] + ps) == Meaning(p) + MeaningOf(ps)
  {
    assert ([p] + ps)[1..] == ps;
  }

  // ---- What the characters stand for, as the standard tabulates it ----

  const LOWER_NUMERALS := "0123456789abcdef"
  const UPPER_NUMERALS := "0123456789ABCDEF"

  /** A hexadecimal digit is its place among the numerals, in either case. */
  lemma HexDigitIsPlace(b: byte, d: int)
    requires IsHexDigit(b) && 0 <= d < 16
    ensures HexDigit(b) == d <==> b == LOWER_NUMERALS[d] || b == UPPER_NUMERALS[d]
  {
  }

  /** The earlier digit is the more significant one. */
  lemma HexValueOrder(h: bytes, g: bytes, k: nat)
    requires IsHex4(h) && IsHex4(g) && k < 4 && h[..k] == g[..k] && HexDigit(h[k]) < HexDigit(g[k])
    ensures HexValue(h) < HexValue(g)
  {
    assert forall i | 0 <= i < k :: h[i] == h[..k][i] && g[i] == g[..k][i];
  }

  /** The eight two-character escapes of section 7 of RFC 8259 and their code points. */
  lemma ShortEscapeTable(e: byte)
    ensures IsShort(e) <==> e in "\"\\/bfnrt"
    ensures IsShort(e) ==>
            ShortMeaning(e) as int ==
              if e == '"' then 0x22 else if e == '\\' then 0x5C else if e == '/' then 0x2F else if e == 'b' then 0x08
              else if e == 'f' then 0x0C else if e == 'n' then 0x0A else if e == 'r' then 0x0D else 0x09
  {
  }

  /** Surrogate pairs count the supplementary code points in order, from the first to the
      last. */
  lemma PairsCount(hi: int, lo: int)
    requires IsHigh(hi) && IsLow(lo)
    ensures PairScalar(0xD800, 0xDC00) == 0x10000 && PairScalar(0xDBFF, 0xDFFF) == 0x10FFFF
    ensures lo < 0xDFFF ==> PairScalar(hi, lo + 1) == PairScalar(hi, lo) + 1
    ensures hi < 0xDBFF ==> PairScalar(hi + 1, 0xDC00) == PairScalar(hi, 0xDFFF) + 1
  {
  }
}
