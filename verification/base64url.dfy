/** base64url_encode and base64url_decode of crypto.hpp over plain base64
    (sections 4 and 5 of RFC 4648). */
module Base64Url {
  import opened Bytes

  // ---- Plain base64: EVP_EncodeBlock and EVP_DecodeBlock ----

  function Symbol(v: int): (c: byte)
    requires 0 <= v < 64
    ensures c != '='
  {
    if v < 26 then ByteOf('A' as int + v)
    else if v < 52 then ByteOf('a' as int + v - 26)
    else if v < 62 then ByteOf('0' as int + v - 52)
    else if v == 62 then '+'
    else '/'
  }

  predicate IsSymbol(c: byte) {
    'A' <= c <= 'Z' || 'a' <= c <= 'z' || '0' <= c <= '9' || c == '+' || c == '/'
  }

  /** The six bits of a symbol; padding reads as zero bits. */
  function Sextet(c: byte): (v: int)
    requires IsSymbol(c) || c == '='
    ensures 0 <= v < 64
  {
    if 'A' <= c <= 'Z' then c as int - 'A' as int
    else if 'a' <= c <= 'z' then 26 + (c as int - 'a' as int)
    else if '0' <= c <= '9' then 52 + (c as int - '0' as int)
    else if c == '+' then 62
    else if c == '/' then 63
    else 0
  }

  /** The four characters of a group of one, two or three bytes. */
  function EncodeGroup(g: bytes): (q: bytes)
    requires 1 <= |g| <= 3
    ensures |q| == 4
  {
    var b0 := g[0] as int;
    var b1 := if |g| > 1 then g[1] as int else 0;
    var b2 := if |g| > 2 then g[2] as int else 0;
    [Symbol(b0 / 4), Symbol(b0 % 4 * 16 + b1 / 16),
     if |g| > 1 then Symbol(b1 % 16 * 4 + b2 / 64) else '=',
     if |g| > 2 then Symbol(b2 % 64) else '=']
  }

  function EncodeBlock(b: bytes): bytes
    decreases |b|
  {
    if b == [] then []
    else if |b| <= 3 then EncodeGroup(b)
    else EncodeGroup(b[..3]) + EncodeBlock(b[3..])
  }

  predicate Decodable(s: bytes) {
    forall i | 0 <= i < |s| :: IsSymbol(s[i]) || s[i] == '='
  }

  function DecodeGroup(q: bytes): (t: bytes)
    requires |q| == 4 && Decodable(q)
    ensures |t| == 3
  {
    [ByteOf(Sextet(q[0]) * 4 + Sextet(q[1]) / 16), ByteOf(Sextet(q[1]) % 16 * 16 + Sextet(q[2]) / 4),
     ByteOf(Sextet(q[2]) % 4 * 64 + Sextet(q[3]))]
  }

  /** Three bytes for every four characters, padding included. */
  function DecodeBlock(s: bytes): (t: bytes)
    requires |s| % 4 == 0 && Decodable(s)
    ensures |t| == 3 * (|s| / 4)
  {
    if s == [] then [] else DecodeGroup(s[..4]) + DecodeBlock(s[4..])
  }

  // ---- The URL-safe alphabet ----

  function Replaced(s: bytes, x: byte, y: byte): (t: bytes)
    ensures |t| == |s|
  {
    seq(|s|, i requires 0 <= i < |s| => if s[i] == x then y else s[i])
  }

  function UrlEncode(input: bytes): bytes {
    Replaced(Replaced(EncodeBlock(input), '+', '-'), '/', '_')
  }

  /** How many bytes the two padding checks trim. */
  function Padding(s: bytes): (n: nat)
    ensures n <= 2 && (s == [] ==> n == 0)
  {
    (if s != [] && s[|s| - 1] == '=' then 1 else 0) + (if |s| >= 2 && s[|s| - 2] == '=' then 1 else 0)
  }

  datatype DecodeError = InvalidLength | InvalidBase64

  function UrlDecode(input: bytes): Result<bytes, DecodeError> {
    var s := Replaced(Replaced(input, '-', '+'), '_', '/');
    if |s| % 4 != 0 then Throws(InvalidLength)
    else if !Decodable(s) then Throws(InvalidBase64)
    else
      var block := DecodeBlock(s);
      Ok(block[..|block| - Padding(s)])
  }

  // ---- The buffers, changed in place ----

  /** std::replace. */
  method ReplaceIn(a: array<byte>, x: byte, y: byte)
    modifies a
    ensures a[..] == Replaced(old(a[..]), x, y)
  {
    var i := 0;
    while i < a.Length
      invariant 0 <= i <= a.Length
      invariant forall k | 0 <= k < i :: a[k] == if old(a[k]) == x then y else old(a[k])
      invariant forall k | i <= k < a.Length :: a[k] == old(a[k])
    {
      if a[i] == x {
        a[i] := y;
      }
      i := i + 1;
    }
    assert forall k | 0 <= k < a.Length :: a[..][k] == Replaced(old(a[..]), x, y)[k];
  }

  method BufferOf(s: bytes) returns (a: array<byte>)
    ensures fresh(a) && a[..] == s
  {
    a := new byte[|s|](i requires 0 <= i < |s| => s[i]);
  }

  method Encode(input: bytes) returns (output: bytes)
    ensures output == UrlEncode(input)
  {
    if input == [] {
      assert UrlEncode(input) == [];
      return [];
    }
    var buffer := BufferOf(EncodeBlock(input));
    ReplaceIn(buffer, '+', '-');
    ReplaceIn(buffer, '/', '_');
    return buffer[..];
  }

  method Decode(input: bytes) returns (r: Result<bytes, DecodeError>)
    ensures r == UrlDecode(input)
  {
    var buffer := BufferOf(input);
    ReplaceIn(buffer, '-', '+');
    ReplaceIn(buffer, '_', '/');
    var s := buffer[..];
    if |s| % 4 != 0 {
      return Throws(InvalidLength);
    }
    if !Decodable(s) {
      return Throws(InvalidBase64);
    }
    var output := DecodeBlock(s);
    var actual := |output|;
    if s != [] && s[|s| - 1] == '=' {
      actual := actual - 1;
    }
    if |s| >= 2 && s[|s| - 2] == '=' {
      actual := actual - 1;
    }
    return Ok(output[..actual]);
  }

  // ---- Round trip ----

  lemma SymbolRoundTrip(v: int)
    requires 0 <= v < 64
    ensures IsSymbol(Symbol(v)) && Sextet(Symbol(v)) == v
  {
  }

  lemma GroupArithmetic(b0: nat, b1: nat, b2: nat)
    requires b0 < 0x100 && b1 < 0x100 && b2 < 0x100
    ensures b0 / 4 * 4 + (b0 % 4 * 16 + b1 / 16) / 16 == b0
    ensures (b0 % 4 * 16 + b1 / 16) % 16 * 16 + (b1 % 16 * 4 + b2 / 64) / 4 == b1
    ensures (b1 % 16 * 4 + b2 / 64) % 4 * 64 + b2 % 64 == b2
  {
  }

  function ZeroFilled(g: bytes): (t: bytes)
    requires 1 <= |g| <= 3
    ensures |t| == 3 && t[..|g|] == g
  {
    if |g| == 1 then g + [ByteOf(0), ByteOf(0)] else if |g| == 2 then g + [ByteOf(0)] else g
  }

  lemma GroupSextets(g: bytes)
    requires 1 <= |g| <= 3
    ensures var q := EncodeGroup(g);
            Decodable(q) &&
            var z := ZeroFilled(g);
            Sextet(q[0]) == z[0] as int / 4 && Sextet(q[1]) == z[0] as int % 4 * 16 + z[1] as int / 16 &&
            Sextet(q[2]) == z[1] as int % 16 * 4 + z[2] as int / 64 && Sextet(q[3]) == z[2] as int % 64
  {
    hide Symbol, Sextet, IsSymbol;
    var z := ZeroFilled(g);
    SymbolRoundTrip(z[0] as int / 4);
    SymbolRoundTrip(z[0] as int % 4 * 16 + z[1] as int / 16);
    SymbolRoundTrip(z[1] as int % 16 * 4 + z[2] as int / 64);
    SymbolRoundTrip(z[2] as int % 64);
    PaddingIsZero();
  }

  lemma PaddingIsZero()
    ensures Sextet('=') == 0
  {
  }

  /** A group decodes to its bytes, zero filled to three. */
  lemma GroupRoundTrip(g: bytes)
    requires 1 <= |g| <= 3
    ensures Decodable(EncodeGroup(g)) && DecodeGroup(EncodeGroup(g)) == ZeroFilled(g)
  {
    GroupSextets(g);
    hide EncodeGroup, Sextet;
    var z := ZeroFilled(g);
    GroupArithmetic(z[0] as int, z[1] as int, z[2] as int);
    ByteOfItself(z[0]);
    ByteOfItself(z[1]);
    ByteOfItself(z[2]);
  }

  lemma ByteOfItself(b: byte)
    ensures ByteOf(b as int) == b
  {
  }

  /** '=' stands only for missing bytes of the last group. */
  lemma GroupPadding(g: bytes)
    requires 1 <= |g| <= 3
    ensures var q := EncodeGroup(g);
            q[0] != '=' && q[1] != '=' && (q[2] == '=' <==> |g| < 2) && (q[3] == '=' <==> |g| < 3)
  {
  }

  lemma DecodableConcat(a: bytes, b: bytes)
    requires Decodable(a) && Decodable(b)
    ensures Decodable(a + b)
  {
  }

  /** A whole group in front is decoded on its own. */
  lemma DecodeFirst(q: bytes, s: bytes)
    requires |q| == 4 && Decodable(q) && |s| % 4 == 0 && Decodable(s)
    ensures Decodable(q + s) && DecodeBlock(q + s) == DecodeGroup(q) + DecodeBlock(s)
  {
    DecodableConcat(q, s);
    assert (q + s)[..4] == q && (q + s)[4..] == s;
  }

  lemma LastGroupRoundTrip(g: bytes)
    requires 1 <= |g| <= 3
    ensures Decodable(EncodeGroup(g)) && DecodeBlock(EncodeGroup(g)) == ZeroFilled(g)
  {
    hide EncodeGroup, DecodeGroup, ZeroFilled, IsSymbol;
    GroupRoundTrip(g);
    DecodeFirst(EncodeGroup(g), []);
    assert EncodeGroup(g) + [] == EncodeGroup(g);
    assert ZeroFilled(g) + [] == ZeroFilled(g);
  }

  lemma WholeGroup(g: bytes)
    requires |g| == 3
    ensures ZeroFilled(g) == g
  {
  }

  lemma NothingRoundTrips()
    ensures EncodeBlock([]) == [] && Decodable([]) && DecodeBlock([])[..0] == []
  {
  }

  /** An encoding decodes to the input followed by one zero byte for each missing one. */
  lemma {:induction false} BlockRoundTrip(b: bytes)
    ensures |EncodeBlock(b)| == 4 * ((|b| + 2) / 3) && Decodable(EncodeBlock(b))
    ensures DecodeBlock(EncodeBlock(b))[..|b|] == b
    decreases |b|
  {
    hide EncodeGroup, DecodeGroup, ZeroFilled, IsSymbol, DecodeBlock, Decodable;
    if 1 <= |b| <= 3 {
      LastGroupRoundTrip(b);
    } else if b == [] {
      NothingRoundTrips();
    } else {
      var g, rest := b[..3], b[3..];
      GroupRoundTrip(g);
      WholeGroup(g);
      BlockRoundTrip(rest);
      DecodeFirst(EncodeGroup(g), EncodeBlock(rest));
      assert b == g + rest;
      assert (g + DecodeBlock(EncodeBlock(rest)))[..|b|] == g + DecodeBlock(EncodeBlock(rest))[..|rest|];
    }
  }

  lemma {:induction false} BlockPadding(b: bytes)
    ensures |EncodeBlock(b)| == 4 * ((|b| + 2) / 3)
    ensures forall i | 0 <= i < |EncodeBlock(b)| - 2 :: EncodeBlock(b)[i] != '='
    ensures Padding(EncodeBlock(b)) == (3 - |b| % 3) % 3
    decreases |b|
  {
    hide EncodeGroup;
    if 1 <= |b| <= 3 {
      GroupPadding(b);
    } else if |b| > 3 {
      var q, s := EncodeGroup(b[..3]), EncodeBlock(b[3..]);
      GroupPadding(b[..3]);
      BlockPadding(b[3..]);
      forall i | 0 <= i < |q + s| - 2 ensures (q + s)[i] != '=' {
        assert (q + s)[i] == if i < 4 then q[i] else s[i - 4];
      }
      assert (q + s)[|q + s| - 1] == s[|s| - 1] && (q + s)[|q + s| - 2] == s[|s| - 2];
    }
  }

  predicate IsUrlSymbol(c: byte) {
    'A' <= c <= 'Z' || 'a' <= c <= 'z' || '0' <= c <= '9' || c == '-' || c == '_'
  }

  lemma AlphabetsCorrespond(s: bytes)
    requires Decodable(s)
    ensures var u := Replaced(Replaced(s, '+', '-'), '/', '_');
            Replaced(Replaced(u, '-', '+'), '_', '/') == s
  {
  }

  /** The encoding of section 5 of RFC 4648: its length, its alphabet, and '=' only
      where the last group is short. */
  lemma EncodingShape(input: bytes)
    ensures var e := UrlEncode(input);
            |e| == 4 * ((|input| + 2) / 3) &&
            (forall i | 0 <= i < |e| :: IsUrlSymbol(e[i]) || (e[i] == '=' && i >= |e| - 2)) &&
            Padding(e) == (3 - |input| % 3) % 3
  {
    BlockRoundTrip(input);
    BlockPadding(input);
    hide EncodeBlock;
    var e, u := EncodeBlock(input), UrlEncode(input);
    forall i | 0 <= i < |u| ensures IsUrlSymbol(u[i]) || (u[i] == '=' && i >= |u| - 2) {
      assert IsSymbol(e[i]) || e[i] == '=';
    }
  }

  lemma TrimmedLength(n: nat)
    ensures 3 * ((n + 2) / 3) - (3 - n % 3) % 3 == n
  {
  }

  /** Decoding inverts encoding for every byte sequence. */
  lemma UrlRoundTrip(input: bytes)
    ensures UrlDecode(UrlEncode(input)) == Ok(input)
  {
    hide EncodeBlock, DecodeBlock, IsSymbol, Replaced, Padding;
    var e := EncodeBlock(input);
    BlockRoundTrip(input);
    BlockPadding(input);
    AlphabetsCorrespond(e);
    TrimmedLength(|input|);
    assert Replaced(Replaced(UrlEncode(input), '-', '+'), '_', '/') == e;
  }

  // ---- Spare bits ----

  /** The text with its last symbol replaced by the next character. */
  function Respelled(e: bytes): (t: bytes)
    requires |e| >= 3 && e[|e| - 3] as int < 0xFF
  {
    e[|e| - 3 := ByteOf(e[|e| - 3] as int + 1)]
  }

  predicate HasSpareBits(e: bytes) {
    |e| >= 4 && (e[|e| - 3] == 'A' || e[|e| - 3] == 'Q' || e[|e| - 3] == 'g' || e[|e| - 3] == 'w') && Padding(e) == 2
  }

  lemma RespelledGroup(g: bytes)
    requires |g| == 1
    ensures HasSpareBits(EncodeGroup(g)) && Decodable(Respelled(EncodeGroup(g)))
    ensures DecodeGroup(Respelled(EncodeGroup(g)))[..1] == g
  {
    GroupSextets(g);
    var b := g[0] as int;
    SymbolRoundTrip(b % 4 * 16);
    assert b % 4 == 0 || b % 4 == 1 || b % 4 == 2 || b % 4 == 3;
    ByteOfItself(g[0]);
  }

  /** The four unused bits after a last single byte do not change what is decoded. */
  lemma {:induction false} RespelledBlock(b: bytes)
    requires |b| % 3 == 1
    ensures HasSpareBits(EncodeBlock(b)) && |EncodeBlock(b)| % 4 == 0 && Decodable(Respelled(EncodeBlock(b)))
    ensures b <= DecodeBlock(Respelled(EncodeBlock(b)))
    decreases |b|
  {
    hide EncodeGroup, DecodeGroup, IsSymbol, Decodable;
    if |b| == 1 {
      RespelledGroup(b);
      OneGroup(Respelled(EncodeGroup(b)));
    } else {
      var g, rest := b[..3], b[3..];
      var q, s := EncodeGroup(g), EncodeBlock(rest);
      RespelledBlock(rest);
      GroupRoundTrip(g);
      WholeGroup(g);
      assert Respelled(q + s) == q + Respelled(s);
      DecodeFirst(q, Respelled(s));
      assert b == g + rest;
      assert g + rest <= g + DecodeBlock(Respelled(s));
    }
  }

  lemma OneGroup(q: bytes)
    requires |q| == 4 && Decodable(q)
    ensures DecodeBlock(q) == DecodeGroup(q)
  {
    DecodeFirst(q, []);
    assert q + [] == q;
  }

  lemma RespelledInUrl(e: bytes)
    requires HasSpareBits(e) && Decodable(Respelled(e))
    ensures var u := Replaced(Replaced(e, '+', '-'), '/', '_');
            HasSpareBits(u) && Replaced(Replaced(Respelled(u), '-', '+'), '_', '/') == Respelled(e)
  {
    var u := Replaced(Replaced(e, '+', '-'), '/', '_');
    var t := Replaced(Replaced(Respelled(u), '-', '+'), '_', '/');
    forall i | 0 <= i < |e| ensures t[i] == Respelled(e)[i] {
      assert IsSymbol(Respelled(e)[i]) || Respelled(e)[i] == '=';
    }
  }

  /** Decoding is not injective: where the last group holds one byte, its encoding has
      another spelling. */
  lemma SpareBitsAreIgnored(input: bytes)
    requires |input| % 3 == 1
    ensures HasSpareBits(UrlEncode(input)) && Respelled(UrlEncode(input)) != UrlEncode(input)
    ensures UrlDecode(Respelled(UrlEncode(input))) == Ok(input)
  {
    hide EncodeBlock, DecodeBlock, Replaced, IsSymbol;
    var e := EncodeBlock(input);
    RespelledBlock(input);
    BlockRoundTrip(input);
    RespelledInUrl(e);
    var d := DecodeBlock(Respelled(e));
    assert Padding(Respelled(e)) == 2;
    assert |d| == |input| + 2;
    assert d[..|input|] == input;
  }

  // ---- Which symbols ----

  const UPPER := "ABCDEFGHIJKLMNOPQRSTUVWXYZ"
  const LOWER := "abcdefghijklmnopqrstuvwxyz"
  const FIGURES := "0123456789+/"
  const ALPHABET := UPPER + LOWER + FIGURES

  lemma UpperTable(v: int)
    requires 0 <= v < 26
    ensures |UPPER| == 26 && Symbol(v) == UPPER[v]
  {
  }

  lemma LowerTable(v: int)
    requires 0 <= v < 26
    ensures |LOWER| == 26 && Symbol(26 + v) == LOWER[v]
  {
  }

  lemma FigureTable(v: int)
    requires 0 <= v < 12
    ensures |FIGURES| == 12 && Symbol(52 + v) == FIGURES[v]
  {
  }

  lemma InThreeParts(a: string, b: string, c: string, v: int)
    requires 0 <= v < |a| + |b| + |c|
    ensures |a + b + c| == |a| + |b| + |c|
    ensures (a + b + c)[v] == if v < |a| then a[v] else if v < |a| + |b| then b[v - |a|] else c[v - |a| - |b|]
  {
  }

  lemma PartLengths()
    ensures |UPPER| == 26 && |LOWER| == 26 && |FIGURES| == 12
  {
  }

  /** The symbols are those of Table 1 of RFC 4648, in its order. */
  lemma SymbolTable(v: int)
    requires 0 <= v < 64
    ensures |ALPHABET| == 64 && Symbol(v) == ALPHABET[v]
  {
    hide Symbol;
    PartLengths();
    InThreeParts(UPPER, LOWER, FIGURES, v);
    if v < 26 {
      UpperTable(v);
    } else if v < 52 {
      LowerTable(v - 26);
    } else {
      FigureTable(v - 52);
    }
  }

  /** A group of three bytes and its four symbols are one number of 24 bits. */
  lemma GroupIsOneNumber(g: bytes)
    requires |g| == 3
    ensures var q := EncodeGroup(g);
            Decodable(q) &&
            ((Sextet(q[0]) * 64 + Sextet(q[1])) * 64 + Sextet(q[2])) * 64 + Sextet(q[3]) ==
            (g[0] as int * 0x100 + g[1] as int) * 0x100 + g[2] as int
  {
    GroupSextets(g);
    WholeGroup(g);
  }

  /** The URL-safe form differs from the plain one in '-' for '+' and '_' for '/'. */
  lemma UrlSymbols(input: bytes, i: nat)
    requires i < |EncodeBlock(input)|
    ensures var e, u := EncodeBlock(input), UrlEncode(input);
            |u| == |e| && u[i] == if e[i] == '+' then '-' else if e[i] == '/' then '_' else e[i]
  {
    BlockRoundTrip(input);
    hide EncodeBlock;
    var e := EncodeBlock(input);
    assert IsSymbol(e[i]) || e[i] == '=';
  }

  /** A text is refused for its length or, if that is a multiple of four, for a character
      outside both alphabets. */
  lemma DecodingFailsExactly(s: bytes)
    ensures UrlDecode(s) == Throws(InvalidLength) <==> |s| % 4 != 0
    ensures UrlDecode(s) == Throws(InvalidBase64) <==>
            |s| % 4 == 0 && exists i | 0 <= i < |s| :: s[i] !in ALPHABET && s[i] != '-' && s[i] != '_' && s[i] != '='
  {
    var t := Replaced(Replaced(s, '-', '+'), '_', '/');
    forall i | 0 <= i < |s|
      ensures IsSymbol(t[i]) || t[i] == '=' <==> s[i] in ALPHABET || s[i] == '-' || s[i] == '_' || s[i] == '='
    {
      SymbolsAreAlphabet(t[i]);
      SymbolsAreAlphabet(s[i]);
    }
  }

  lemma SymbolsAreAlphabet(c: byte)
    ensures IsSymbol(c) <==> c in ALPHABET
  {
    if IsSymbol(c) {
      SymbolTable(Sextet(c));
      assert ALPHABET[Sextet(c)] == c;
    }
    if c in ALPHABET {
      var v :| 0 <= v < |ALPHABET| && ALPHABET[v] == c;
      SymbolTable(v);
      SymbolRoundTrip(v);
    }
  }
}
