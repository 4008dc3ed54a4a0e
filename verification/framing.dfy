/** Length-prefixed frames: four big-endian bytes and then the body. */
module Framing {
  import opened Bytes

  const MAX_FRAME_BYTES := 1024 * 1024

  datatype FrameError = EmptyFrame | FrameTooLarge | IncompleteHeader | SizeMismatch

  /** The length prefix; `>> 8` is division by 0x100 and `& 0xff` the remainder. */
  function Header(n: nat): (h: bytes)
    ensures |h| == 4
  {
    [ByteOf(n / 0x100_0000 % 0x100), ByteOf(n / 0x1_0000 % 0x100), ByteOf(n / 0x100 % 0x100), ByteOf(n % 0x100)]
  }

  /** The shifts and the `|` of decode_frame_size. */
  function HeaderValue(h: bytes): (n: nat)
    requires |h| == 4
  {
    h[0] as int * 0x100_0000 + h[1] as int * 0x1_0000 + h[2] as int * 0x100 + h[3] as int
  }

  function EncodeFrame(payload: bytes): Result<bytes, FrameError> {
    if payload == [] then Throws(EmptyFrame)
    else if |payload| > MAX_FRAME_BYTES then Throws(FrameTooLarge)
    else Ok(Header(|payload|) + payload)
  }

  method Encode(payload: bytes) returns (r: Result<bytes, FrameError>)
    ensures r == EncodeFrame(payload)
  {
    if payload == [] {
      return Throws(EmptyFrame);
    }
    if |payload| > MAX_FRAME_BYTES {
      return Throws(FrameTooLarge);
    }
    var n := |payload|;
    var out: bytes := [];
    out := out + [ByteOf(n / 0x100_0000 % 0x100)];
    out := out + [ByteOf(n / 0x1_0000 % 0x100)];
    out := out + [ByteOf(n / 0x100 % 0x100)];
    out := out + [ByteOf(n % 0x100)];
    assert out == Header(n);
    out := out + payload;
    return Ok(out);
  }

  function DecodeFrameSize(header: bytes): Result<nat, FrameError>
    requires |header| == 4
  {
    var n := HeaderValue(header);
    if n == 0 then Throws(EmptyFrame)
    else if n > MAX_FRAME_BYTES then Throws(FrameTooLarge)
    else Ok(n)
  }

  function DecodeCompleteFrame(frame: bytes): Result<bytes, FrameError> {
    if |frame| < 4 then Throws(IncompleteHeader)
    else
      var n :- DecodeFrameSize(frame[..4]);
      if |frame| != 4 + n then Throws(SizeMismatch) else Ok(frame[4..])
  }

  lemma SplitByte(q: nat, r: nat)
    requires r < 0x100
    ensures (q * 0x100 + r) / 0x100 == q && (q * 0x100 + r) % 0x100 == r
  {
  }

  lemma ShiftBytes(n: nat)
    ensures n / 0x100 / 0x100 == n / 0x1_0000 && n / 0x1_0000 / 0x100 == n / 0x100_0000
  {
  }

  lemma HeaderRoundTrip(n: nat)
    requires n < 0x1_0000_0000
    ensures HeaderValue(Header(n)) == n
  {
    ShiftBytes(n);
  }

  lemma HeaderUnique(h: bytes)
    requires |h| == 4
    ensures Header(HeaderValue(h)) == h
  {
    var a, b, c, d := h[0] as int, h[1] as int, h[2] as int, h[3] as int;
    var n := HeaderValue(h);
    SplitByte((a * 0x100 + b) * 0x100 + c, d);
    SplitByte(a * 0x100 + b, c);
    SplitByte(a, b);
    ShiftBytes(n);
    assert n == ((a * 0x100 + b) * 0x100 + c) * 0x100 + d;
    forall i | 0 <= i < 4 ensures Header(n)[i] as int == h[i] as int {}
    SameBytes(Header(n), h);
  }

  lemma SameBytes(a: bytes, b: bytes)
    requires |a| == |b| && forall i | 0 <= i < |a| :: a[i] as int == b[i] as int
    ensures a == b
  {
    forall i | 0 <= i < |a| ensures a[i] == b[i] {
      assert ByteOf(a[i] as int) == ByteOf(b[i] as int);
    }
  }

  /** Encoding and decoding are inverse to each other, in both directions. */
  lemma FramesAreInverse(frame: bytes, payload: bytes)
    ensures DecodeCompleteFrame(frame) == Ok(payload) <==> EncodeFrame(payload) == Ok(frame)
  {
    if DecodeCompleteFrame(frame) == Ok(payload) {
      HeaderUnique(frame[..4]);
      assert frame == frame[..4] + frame[4..];
    }
    if EncodeFrame(payload) == Ok(frame) {
      HeaderRoundTrip(|payload|);
      assert frame[..4] == Header(|payload|) && frame[4..] == payload;
    }
  }

  /** For every body whose length fits the header, decoding its frame throws exactly what
      encoding the body throws. */
  lemma RefusalsAgree(payload: bytes)
    requires |payload| < 0x1_0000_0000
    ensures DecodeCompleteFrame(Header(|payload|) + payload) ==
            match EncodeFrame(payload)
            case Ok(_) => Ok(payload)
            case Throws(e) => Throws(e)
  {
    var frame := Header(|payload|) + payload;
    HeaderRoundTrip(|payload|);
    assert frame[..4] == Header(|payload|) && frame[4..] == payload;
  }

  /** The length is big-endian: the order of numbers is the order of their headers, byte by
      byte. */
  lemma HeaderOrder(n: nat, m: nat)
    requires n < m < 0x1_0000_0000
    ensures LexLess(Header(n), Header(m))
  {
    ShiftBytes(n);
    ShiftBytes(m);
    if n / 0x100_0000 < m / 0x100_0000 {
      LexAt(Header(n), Header(m), 0);
    } else if n / 0x1_0000 < m / 0x1_0000 {
      LexAt(Header(n), Header(m), 1);
    } else if n / 0x100 < m / 0x100 {
      LexAt(Header(n), Header(m), 2);
    } else {
      LexAt(Header(n), Header(m), 3);
    }
  }

  /** Bodies of one byte to one MiB have a frame, four bytes longer; the others are refused
      as empty or too large, and so is a header that announces one. */
  lemma FrameBounds(payload: bytes, frame: bytes)
    ensures EncodeFrame(payload).Ok? <==> 1 <= |payload| <= 1048576
    ensures EncodeFrame(payload).Ok? ==> |EncodeFrame(payload).value| == 4 + |payload|
    ensures EncodeFrame(payload) == Throws(EmptyFrame) <==> |payload| == 0
    ensures EncodeFrame(payload) == Throws(FrameTooLarge) <==> |payload| > 1048576
    ensures DecodeCompleteFrame(frame) == Throws(IncompleteHeader) <==> |frame| < 4
    ensures DecodeCompleteFrame(frame) == Throws(SizeMismatch) <==>
            exists body :: EncodeFrame(body).Ok? && |frame| >= 4 && frame[..4] == Header(|body|) && |frame| != 4 + |body|
  {
    if DecodeCompleteFrame(frame) == Throws(SizeMismatch) {
      HeaderUnique(frame[..4]);
      var body: bytes := seq(HeaderValue(frame[..4]), i => 'x');
      assert EncodeFrame(body).Ok? && frame[..4] == Header(|body|);
    }
    forall body | EncodeFrame(body).Ok? && |frame| >= 4 && frame[..4] == Header(|body|) && |frame| != 4 + |body|
      ensures DecodeCompleteFrame(frame) == Throws(SizeMismatch)
    {
      HeaderRoundTrip(|body|);
    }
  }
}
