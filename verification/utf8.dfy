/** UTF-8 (RFC 3629): the encoder append_utf8 and the set of well-formed byte strings. */
module Utf8 {
  import opened Bytes

  predicate IsScalar(cp: int) {
    0 <= cp < 0xD800 || 0xE000 <= cp <= 0x10FFFF
  }

  /** The bytes append_utf8 pushes for one code point. The bit fields are
      disjoint, so `|` is written as a sum, `>>` as division and `&` as a remainder. */
  function Encode(cp: int): (e: bytes)
    requires 0 <= cp <= 0x10FFFF
    ensures 1 <= |e| <= 4
  {
    if cp <= 0x7F then [ByteOf(cp)]
    else if cp <= 0x7FF then [ByteOf(0xC0 + cp / 0x40), ByteOf(0x80 + cp % 0x40)]
    else if cp <= 0xFFFF then
      [ByteOf(0xE0 + cp / 0x1000), ByteOf(0x80 + cp / 0x40 % 0x40), ByteOf(0x80 + cp % 0x40)]
    else
      [ByteOf(0xF0 + cp / 0x40000), ByteOf(0x80 + cp / 0x1000 % 0x40),
       ByteOf(0x80 + cp / 0x40 % 0x40), ByteOf(0x80 + cp % 0x40)]
  }

  /** append_utf8; the result is the new value of its by-reference string, or None for its throw. */
  method AppendUtf8(out: bytes, cp: nat) returns (r: Option<bytes>)
    ensures r == if cp <= 0x10FFFF then Some(out + Encode(cp)) else None
  {
    var o := out;
    if cp <= 0x7F {
      o := o + [ByteOf(cp)];
    } else if cp <= 0x7FF {
      o := o + [ByteOf(0xC0 + cp / 0x40)];
      o := o + [ByteOf(0x80 + cp % 0x40)];
    } else if cp <= 0xFFFF {
      o := o + [ByteOf(0xE0 + cp / 0x1000)];
      o := o + [ByteOf(0x80 + cp / 0x40 % 0x40)];
      o := o + [ByteOf(0x80 + cp % 0x40)];
    } else if cp <= 0x10FFFF {
      o := o + [ByteOf(0xF0 + cp / 0x40000)];
      o := o + [ByteOf(0x80 + cp / 0x1000 % 0x40)];
      o := o + [ByteOf(0x80 + cp / 0x40 % 0x40)];
      o := o + [ByteOf(0x80 + cp % 0x40)];
    } else {
      return None;
    }
    assert o == out + Encode(cp);
    return Some(o);
  }

  // ---- Well-formed byte strings: the table of section 4 of RFC 3629 ----

  predicate IsTail(b: byte) {
    0x80 <= b as int <= 0xBF
  }

  /** Length of the well-formed character at the front of s; 0 when there is none. */
  function HeadLength(s: bytes): (n: nat)
    ensures n <= |s|
  {
    if s == [] then 0
    else
      var b0 := s[0] as int;
      if b0 <= 0x7F then 1
      else if |s| < 2 || !IsTail(s[1]) then 0
      else if 0xC2 <= b0 <= 0xDF then 2
      else if |s| < 3 || !IsTail(s[2]) then 0
      else if b0 == 0xE0 && 0xA0 <= s[1] as int then 3
      else if 0xE1 <= b0 <= 0xEC || b0 == 0xEE || b0 == 0xEF then 3
      else if b0 == 0xED && s[1] as int <= 0x9F then 3
      else if |s| < 4 || !IsTail(s[3]) then 0
      else if b0 == 0xF0 && 0x90 <= s[1] as int then 4
      else if 0xF1 <= b0 <= 0xF3 then 4
      else if b0 == 0xF4 && s[1] as int <= 0x8F then 4
      else 0
  }

  predicate Valid(s: bytes)
    decreases |s|
  {
    s == [] || (HeadLength(s) > 0 && Valid(s[HeadLength(s)..]))
  }

  /** The code point of the well-formed character at the front of s. */
  function HeadScalar(s: bytes): (cp: int)
    requires HeadLength(s) > 0
  {
    var n, b0 := HeadLength(s), s[0] as int;
    if n == 1 then b0
    else if n == 2 then (b0 - 0xC0) * 0x40 + (s[1] as int - 0x80)
    else if n == 3 then (b0 - 0xE0) * 0x1000 + (s[1] as int - 0x80) * 0x40 + (s[2] as int - 0x80)
    else (b0 - 0xF0) * 0x40000 + (s[1] as int - 0x80) * 0x1000 + (s[2] as int - 0x80) * 0x40 + (s[3] as int - 0x80)
  }

  lemma ShiftTwice(cp: nat)
    ensures cp / 0x40 / 0x40 == cp / 0x1000
    ensures cp / 0x1000 / 0x40 == cp / 0x40000
  {
  }

  lemma EncodeAlone(cp: int)
    requires IsScalar(cp)
    ensures HeadLength(Encode(cp)) == |Encode(cp)|
    ensures HeadScalar(Encode(cp)) == cp
  {
    ShiftTwice(cp);
    var e := Encode(cp);
    if 0x7FF < cp <= 0xFFFF {
      assert e[0] as int == 0xE0 + cp / 0x1000;
      assert e[1] as int == 0x80 + cp / 0x40 % 0x40;
      assert e[2] as int == 0x80 + cp % 0x40;
    } else if cp > 0xFFFF {
      assert e[0] as int == 0xF0 + cp / 0x40000;
      assert e[1] as int == 0x80 + cp / 0x1000 % 0x40;
      assert e[2] as int == 0x80 + cp / 0x40 % 0x40;
      assert e[3] as int == 0x80 + cp % 0x40;
    }
  }

  /** Encoding a scalar value gives exactly one well-formed character that decodes back to it. */
  lemma EncodeIsWellFormed(cp: int, rest: bytes)
    requires IsScalar(cp)
    ensures HeadLength(Encode(cp) + rest) == |Encode(cp)|
    ensures HeadScalar(Encode(cp) + rest) == cp
  {
    EncodeAlone(cp);
    HeadStable(Encode(cp), rest);
  }

  /** Every well-formed character is the encoding of its code point: there is
      no second (longer) form, and no surrogate. */
  lemma WellFormedIsEncode(s: bytes)
    requires HeadLength(s) > 0
    ensures IsScalar(HeadScalar(s))
    ensures Encode(HeadScalar(s)) == s[..HeadLength(s)]
  {
    var n := HeadLength(s);
    if n == 2 {
      Unshift(s[0] as int - 0xC0, s[1] as int - 0x80);
    } else if n == 3 {
      WellFormedIsEncode3(s);
    } else if n == 4 {
      WellFormedIsEncode4(s);
    }
  }

  lemma WellFormedIsEncode3(s: bytes)
    requires HeadLength(s) == 3
    ensures IsScalar(HeadScalar(s))
    ensures Encode(HeadScalar(s)) == s[..3]
  {
    var cp := HeadScalar(s);
    assert 0x800 <= cp <= 0xFFFF;
    Unpack3(s[0] as int - 0xE0, s[1] as int - 0x80, s[2] as int - 0x80);
  }

  lemma WellFormedIsEncode4(s: bytes)
    requires HeadLength(s) == 4
    ensures IsScalar(HeadScalar(s))
    ensures Encode(HeadScalar(s)) == s[..4]
  {
    var cp := HeadScalar(s);
    assert 0x10000 <= cp <= 0x10FFFF;
    Unpack4(s[0] as int - 0xF0, s[1] as int - 0x80, s[2] as int - 0x80, s[3] as int - 0x80);
  }

  lemma Unshift(q: nat, r: nat)
    requires r < 0x40
    ensures (q * 0x40 + r) / 0x40 == q && (q * 0x40 + r) % 0x40 == r
  {
  }

  lemma Unpack3(a: nat, b: nat, c: nat)
    requires b < 0x40 && c < 0x40
    ensures var cp := a * 0x1000 + b * 0x40 + c;
            cp / 0x1000 == a && cp / 0x40 % 0x40 == b && cp % 0x40 == c
  {
    Unshift(a * 0x40 + b, c);
    Unshift(a, b);
    ShiftTwice(a * 0x1000 + b * 0x40 + c);
  }

  lemma Unpack4(a: nat, b: nat, c: nat, d: nat)
    requires b < 0x40 && c < 0x40 && d < 0x40
    ensures var cp := a * 0x40000 + b * 0x1000 + c * 0x40 + d;
            cp / 0x40000 == a && cp / 0x1000 % 0x40 == b && cp / 0x40 % 0x40 == c && cp % 0x40 == d
  {
    Unpack3(a * 0x40 + b, c, d);
    Unshift(a, b);
    ShiftTwice(a * 0x40000 + b * 0x1000 + c * 0x40 + d);
  }

  lemma {:induction false} ValidConcat(a: bytes, b: bytes)
    requires Valid(a)
    ensures Valid(a + b) <==> Valid(b)
    decreases |a|
  {
    if a == [] {
      assert a + b == b;
    } else {
      var n := HeadLength(a);
      HeadStable(a, b);
      assert (a + b)[n..] == a[n..] + b;
      ValidConcat(a[n..], b);
    }
  }

  /** A well-formed character at the front stays one whatever follows. */
  lemma HeadStable(a: bytes, b: bytes)
    requires HeadLength(a) > 0
    ensures HeadLength(a + b) == HeadLength(a)
    ensures HeadScalar(a + b) == HeadScalar(a)
  {
    var s := a + b;
    forall i | 0 <= i < |a| ensures s[i] == a[i] {}
  }

  // ---- Whole strings: str.encode("utf-8") of a Python string ----

  lemma CharIsScalar(c: char)
    ensures IsScalar(c as int)
  {
  }

  function EncodeText(s: string): (e: bytes) {
    if s == [] then [] else CharIsScalar(s[0]); Encode(s[0] as int) + EncodeText(s[1..])
  }

  function DecodeText(s: bytes): (t: string)
    requires Valid(s)
    decreases |s|
  {
    if s == [] then []
    else WellFormedIsEncode(s); [HeadScalar(s) as char] + DecodeText(s[HeadLength(s)..])
  }

  lemma EncodeTextCons(c: char, t: string)
    ensures IsScalar(c as int)
    ensures EncodeText([c] + t) == Encode(c as int) + EncodeText(t)
  {
    CharIsScalar(c);
    assert ([c] + t)[1..] == t;
  }

  /** Strings and well-formed byte strings correspond one to one. */
  lemma {:induction false} TextRoundTrip(s: string)
    ensures Valid(EncodeText(s))
    ensures DecodeText(EncodeText(s)) == s
  {
    if s != [] {
      CharIsScalar(s[0]);
      var e, rest := Encode(s[0] as int), EncodeText(s[1..]);
      EncodeIsWellFormed(s[0] as int, rest);
      assert (e + rest)[|e|..] == rest;
      TextRoundTrip(s[1..]);
    }
  }

  lemma {:induction false} BytesRoundTrip(b: bytes)
    requires Valid(b)
    ensures EncodeText(DecodeText(b)) == b
    decreases |b|
  {
    if b != [] {
      WellFormedIsEncode(b);
      var n, cp := HeadLength(b), HeadScalar(b);
      BytesRoundTrip(b[n..]);
      EncodeTextCons(cp as char, DecodeText(b[n..]));
    }
  }

  /** Encodings of two scalar values first differ where the smaller has the smaller byte. */
  lemma EncodeSplit(c: int, d: int) returns (k: nat)
    requires IsScalar(c) && IsScalar(d) && c < d
    ensures k < |Encode(c)| && k < |Encode(d)|
    ensures Encode(c)[..k] == Encode(d)[..k]
    ensures Encode(c)[k] < Encode(d)[k]
  {
    var p, q := Encode(c), Encode(d);
    if |p| != |q| || |p| == 1 {
      k := 0;
    } else {
      k := EncodeSplitSameLength(c, d);
    }
  }

  lemma DigitOrder(c: nat, d: nat)
    requires c <= d
    ensures c / 0x40 <= d / 0x40
    ensures c / 0x40 == d / 0x40 ==> c % 0x40 <= d % 0x40 && (c % 0x40 == d % 0x40 ==> c == d)
  {
  }

  lemma EncodeSplitSameLength(c: int, d: int) returns (k: nat)
    requires IsScalar(c) && IsScalar(d) && c < d
    requires |Encode(c)| == |Encode(d)| > 1
    ensures k < |Encode(c)|
    ensures Encode(c)[..k] == Encode(d)[..k]
    ensures Encode(c)[k] < Encode(d)[k]
  {
    DigitOrder(c, d);
    var n := |Encode(c)|;
    if c / 0x40 == d / 0x40 {
      k := EncodeSplitLast(c, d);
    } else if n == 2 {
      k := 0;
    } else {
      k := EncodeSplitEarlier(c, d);
    }
  }

  lemma EncodeSplitLast(c: int, d: int) returns (k: nat)
    requires IsScalar(c) && IsScalar(d) && c < d && c / 0x40 == d / 0x40
    requires |Encode(c)| == |Encode(d)| > 1
    ensures k == |Encode(c)| - 1
    ensures Encode(c)[..k] == Encode(d)[..k]
    ensures Encode(c)[k] < Encode(d)[k]
  {
    DigitOrder(c, d);
    ShiftTwice(c);
    ShiftTwice(d);
    k := |Encode(c)| - 1;
  }

  lemma EncodeSplitEarlier(c: int, d: int) returns (k: nat)
    requires IsScalar(c) && IsScalar(d) && c / 0x40 < d / 0x40
    requires |Encode(c)| == |Encode(d)| > 2
    ensures k < |Encode(c)|
    ensures Encode(c)[..k] == Encode(d)[..k]
    ensures Encode(c)[k] < Encode(d)[k]
  {
    ShiftTwice(c);
    ShiftTwice(d);
    var n := |Encode(c)|;
    DigitOrder(c / 0x40, d / 0x40);
    DigitOrder(c / 0x1000, d / 0x1000);
    k := if c / 0x1000 == d / 0x1000 then n - 2
         else if n == 4 && c / 0x40000 == d / 0x40000 then 1
         else 0;
  }

  lemma EncodeOrder(c: int, d: int, x: bytes, y: bytes)
    requires IsScalar(c) && IsScalar(d) && c < d
    ensures LexLess(Encode(c) + x, Encode(d) + y)
  {
    var k := EncodeSplit(c, d);
    var p, q := Encode(c), Encode(d);
    assert p + x == p[..k] + (p[k..] + x) && q + y == p[..k] + (q[k..] + y);
    LexSkip(p[..k], p[k..] + x, q[k..] + y);
  }

  /** Byte order of the encodings is code point order of the strings (section 1 of RFC 3629). */
  lemma {:induction false} EncodingKeepsOrder(a: string, b: string)
    ensures LexLess(EncodeText(a), EncodeText(b)) <==> LexLess(a, b)
  {
    if a != [] && b != [] {
      CharIsScalar(a[0]);
      CharIsScalar(b[0]);
      var x, y := EncodeText(a[1..]), EncodeText(b[1..]);
      if a[0] == b[0] {
        EncodingKeepsOrder(a[1..], b[1..]);
        LexSkip(Encode(a[0] as int), x, y);
      } else if a[0] < b[0] {
        EncodeOrder(a[0] as int, b[0] as int, x, y);
      } else {
        EncodeOrder(b[0] as int, a[0] as int, y, x);
        LexTrichotomy(EncodeText(a), EncodeText(b));
      }
    }
  }
}
