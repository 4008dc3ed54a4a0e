/** Byte strings and the result type that stands for a C++ throw or a Python raise. */
module Bytes {
  // One byte of a C++ std::string; a Python str is a Dafny string, whose
  // characters are the Unicode scalar values.
  type byte = c: char | c as int < 0x100
  type bytes = seq<byte>

  function ByteOf(n: int): (b: byte)
    requires 0 <= n < 0x100
    ensures b as int == n
  {
    n as char
  }

  datatype Option<+T> = None | Some(value: T)

  datatype Result<+T, +E> = Ok(value: T) | Throws(error: E) {
    predicate IsFailure() {
      Throws?
    }

    function PropagateFailure<U>(): Result<U, E>
      requires Throws?
    {
      Throws(error)
    }

    function Extract(): T
      requires Ok?
    {
      value
    }
  }

  lemma Assoc<T>(a: seq<T>, b: seq<T>, c: seq<T>)
    ensures a + b + c == a + (b + c)
  {
  }

  /** Strict lexicographic order, element by element; a proper prefix comes first. */
  predicate LexLess(a: string, b: string) {
    b != [] && (a == [] || a[0] < b[0] || (a[0] == b[0] && LexLess(a[1..], b[1..])))
  }

  lemma {:induction false} LexTrichotomy(a: string, b: string)
    ensures LexLess(a, b) || LexLess(b, a) || a == b
    ensures !(LexLess(a, b) && LexLess(b, a))
    ensures !LexLess(a, a)
  {
    if a != [] {
      LexTrichotomy(a[1..], if b != [] then b[1..] else a[1..]);
      if b != [] && a[0] == b[0] {
        assert a[1..] == b[1..] ==> a == [a[0]] + b[1..] == b;
      }
    }
  }

  lemma {:induction false} LexTransitive(a: string, b: string, c: string)
    requires LexLess(a, b) && LexLess(b, c)
    ensures LexLess(a, c)
  {
    if a != [] && a[0] == b[0] == c[0] {
      LexTransitive(a[1..], b[1..], c[1..]);
    }
  }

  /** The first k elements agree, and then a ends or has the smaller element. */
  lemma {:induction false} LexAt(a: string, b: string, k: nat)
    requires k <= |a| && k < |b| && a[..k] == b[..k]
    requires k == |a| || a[k] < b[k]
    ensures LexLess(a, b)
  {
    if k > 0 {
      assert a[0] == a[..k][0] == b[..k][0] == b[0];
      assert a[1..][..k - 1] == a[..k][1..] && b[1..][..k - 1] == b[..k][1..];
      LexAt(a[1..], b[1..], k - 1);
    }
  }

  /** Equal prefixes do not affect the order. */
  lemma {:induction false} LexSkip(p: string, a: string, b: string)
    ensures LexLess(p + a, p + b) <==> LexLess(a, b)
  {
    if p == [] {
      assert p + a == a && p + b == b;
    } else {
      LexSkip(p[1..], a, b);
      assert (p + a)[1..] == p[1..] + a && (p + b)[1..] == p[1..] + b;
    }
  }
}
