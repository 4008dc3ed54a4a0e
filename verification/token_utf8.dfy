/** Decoding a string token keeps well-formed UTF-8 well-formed, and malformed
    UTF-8 malformed. */
module TokenUtf8 {
  import opened Bytes
  import opened JsonGrammar
  import opened JsonReader
  import opened Utf8

  /** An escape means exactly one whole character. */
  lemma EscapeIsOneCharacter(p: Piece)
    requires WellFormed(p) && !p.Raw?
    ensures HeadLength(Meaning(p)) == |Meaning(p)| > 0
    ensures Valid(Meaning(p))
  {
    if p.Short? {
      assert Meaning(p)[1..] == [];
    } else {
      var cp := if p.Unit? then HexValue(p.h) else PairScalar(HexValue(p.hi), HexValue(p.lo));
      EncodeAlone(cp);
      assert Meaning(p)[|Meaning(p)|..] == [];
    }
  }

  lemma {:induction false} AsciiIsValid(s: bytes)
    requires forall i | 0 <= i < |s| :: s[i] as int < 0x80
    ensures Valid(s)
  {
    if s != [] {
      AsciiIsValid(s[1..]);
    }
  }

  lemma EscapeTextIsAscii(p: Piece)
    requires WellFormed(p) && !p.Raw?
    ensures forall i | 0 <= i < |Text(p)| :: Text(p)[i] as int < 0x80
  {
  }

  /** t and m start with the same continuation bytes, as far as n of them. */
  predicate SameTails(t: bytes, m: bytes, n: nat) {
    n == 0 ||
    if t != [] && IsTail(t[0]) then m != [] && m[0] == t[0] && SameTails(t[1..], m[1..], n - 1)
    else m == [] || !IsTail(m[0])
  }

  lemma EscapeStartsNoTail(p: Piece, t: bytes, m: bytes, n: nat)
    requires WellFormed(p) && !p.Raw?
    ensures SameTails(Text(p) + t, Meaning(p) + m, n)
  {
    EscapeIsOneCharacter(p);
    assert (Meaning(p) + m)[0] == Meaning(p)[0];
  }

  lemma {:induction false} BodySameTails(ps: seq<Piece>, n: nat)
    requires AllWellFormed(ps)
    ensures SameTails(TextOf(ps), MeaningOf(ps), n)
  {
    if n > 0 && ps != [] {
      if ps[0].Raw? {
        BodySameTails(ps[1..], n - 1);
        assert TextOf(ps)[1..] == TextOf(ps[1..]) && MeaningOf(ps)[1..] == MeaningOf(ps[1..]);
      } else {
        EscapeStartsNoTail(ps[0], TextOf(ps[1..]), MeaningOf(ps[1..]), n);
      }
    }
  }

  lemma HeadsAgree(b: byte, t: bytes, m: bytes)
    requires SameTails(t, m, 3)
    ensures HeadLength([b] + t) == HeadLength([b] + m)
  {
    var s, u := [b] + t, [b] + m;
    assert s[1..] == t && u[1..] == m;
    if t != [] && IsTail(t[0]) {
      assert s[1] == u[1];
      assert SameTails(t[1..], m[1..], 2);
      if |t| > 1 && IsTail(t[1..][0]) {
        assert SameTails(t[1..][1..], m[1..][1..], 1);
        assert s[2] == t[1..][0] == m[1..][0] == u[2];
        if |t| > 2 && IsTail(t[1..][1..][0]) {
          assert s[3] == t[1..][1..][0] == m[1..][1..][0] == u[3];
        } else {
          assert |u| > 3 ==> u[3] == m[1..][1..][0];
        }
      } else {
        assert |u| > 2 ==> u[2] == m[1..][0];
      }
    }
  }

  lemma CharacterTails(s: bytes, i: nat)
    requires 0 < i < HeadLength(s)
    ensures IsTail(s[i])
  {
  }

  /** The first n text bytes, all outside ASCII, are n raw pieces. */
  lemma {:induction false} LeadingRaws(ps: seq<Piece>, n: nat)
    requires AllWellFormed(ps) && n <= |TextOf(ps)|
    requires forall i | 0 <= i < n :: TextOf(ps)[i] as int >= 0x80
    ensures n <= |ps| && n <= |MeaningOf(ps)|
    ensures TextOf(ps)[n..] == TextOf(ps[n..])
    ensures MeaningOf(ps)[n..] == MeaningOf(ps[n..])
  {
    if n > 0 {
      assert TextOf(ps)[0] == Text(ps[0])[0];
      if !ps[0].Raw? {
        EscapeTextIsAscii(ps[0]);
        assert false;
      }
      var tail := ps[1..];
      assert TextOf(ps)[1..] == TextOf(tail) && MeaningOf(ps)[1..] == MeaningOf(tail);
      forall i | 0 <= i < n - 1 ensures TextOf(tail)[i] as int >= 0x80 {
        assert TextOf(tail)[i] == TextOf(ps)[i + 1];
      }
      LeadingRaws(tail, n - 1);
      assert tail[n - 1..] == ps[n..];
      assert TextOf(ps)[n..] == TextOf(ps)[1..][n - 1..];
      assert MeaningOf(ps)[n..] == MeaningOf(ps)[1..][n - 1..];
    }
  }

  lemma ValidCharacter(b: byte)
    requires b as int < 0x80
    ensures Valid([b])
  {
    assert [b][1..] == [];
  }

  /** A string body is well-formed UTF-8 if and only if what it decodes to is. */
  lemma {:induction false} DecodingKeepsUtf8(ps: seq<Piece>)
    requires AllWellFormed(ps)
    ensures Valid(TextOf(ps)) <==> Valid(MeaningOf(ps))
    decreases |ps|
  {
    if ps != [] {
      var p, tail := ps[0], ps[1..];
      if !p.Raw? {
        EscapeTextIsAscii(p);
        AsciiIsValid(Text(p));
        EscapeIsOneCharacter(p);
        ValidConcat(Text(p), TextOf(tail));
        ValidConcat(Meaning(p), MeaningOf(tail));
        DecodingKeepsUtf8(tail);
      } else if p.b as int < 0x80 {
        ValidCharacter(p.b);
        ValidConcat([p.b], TextOf(tail));
        ValidConcat([p.b], MeaningOf(tail));
        DecodingKeepsUtf8(tail);
      } else {
        BodySameTails(tail, 3);
        HeadsAgree(p.b, TextOf(tail), MeaningOf(tail));
        DecodingKeepsUtf8Multibyte(ps);
      }
    }
  }

  lemma DecodingKeepsUtf8Multibyte(ps: seq<Piece>)
    requires AllWellFormed(ps) && ps != [] && ps[0].Raw? && ps[0].b as int >= 0x80
    requires HeadLength(TextOf(ps)) == HeadLength(MeaningOf(ps))
    ensures Valid(TextOf(ps)) <==> Valid(MeaningOf(ps))
    decreases |ps|, 0
  {
    var n := HeadLength(TextOf(ps));
    if n > 0 {
      forall i | 0 <= i < n ensures TextOf(ps)[i] as int >= 0x80 {
        if i > 0 {
          CharacterTails(TextOf(ps), i);
        }
      }
      LeadingRaws(ps, n);
      DecodingKeepsUtf8(ps[n..]);
    }
  }

  // ---- Whole texts ----

  /** An ASCII byte separates characters: what stands around it is judged on its own. */
  lemma {:induction false} ValidAroundAscii(a: bytes, q: byte, b: bytes)
    requires q as int < 0x80
    ensures Valid(a + ([q] + b)) <==> Valid(a) && Valid(b)
    decreases |a|
  {
    var s := a + ([q] + b);
    if a == [] {
      ValidCharacter(q);
      ValidConcat([q], b);
      assert s == [q] + b;
    } else {
      var n := HeadLength(s);
      assert s[|a|] == q;
      if n > |a| {
        CharacterTails(s, |a|);
        assert false;
      }
      HeadWithin(a, [q] + b);
      if n > 0 {
        assert s[n..] == a[n..] + ([q] + b);
        ValidAroundAscii(a[n..], q, b);
      }
    }
  }

  /** The character at the front of a + b is that of a if it ends within a. */
  lemma HeadWithin(a: bytes, b: bytes)
    requires a != [] && HeadLength(a + b) <= |a|
    ensures HeadLength(a) == HeadLength(a + b)
  {
    assert forall i | 0 <= i < |a| :: (a + b)[i] == a[i];
    if HeadLength(a) > 0 {
      HeadStable(a, b);
    }
  }

  /** The token that string() reads is well-formed UTF-8 if and only if its value is. */
  lemma ReadStringKeepsUtf8(s: bytes, v: bytes, rest: bytes)
    requires ReadString(s) == Ok((v, rest))
    ensures |rest| <= |s| && s == s[..|s| - |rest|] + rest
    ensures Valid(s[..|s| - |rest|]) <==> Valid(v)
  {
    ReadStringExact(s, v, rest);
    var ps :| AllWellFormed(ps) && MeaningOf(ps) == v && s == Quoted(ps) + rest;
    assert s[..|s| - |rest|] == Quoted(ps);
    QuotedKeepsUtf8(ps);
  }

  lemma QuotedKeepsUtf8(ps: seq<Piece>)
    requires AllWellFormed(ps)
    ensures Valid(Quoted(ps)) <==> Valid(MeaningOf(ps))
  {
    var body := TextOf(ps);
    DecodingKeepsUtf8(ps);
    ValidAroundAscii([], '"', body + ['"']);
    ValidAroundAscii(body, '"', []);
    assert Quoted(ps) == [] + (['"'] + (body + ['"'])) && ['"'] + [] == ['"'];
  }
}
