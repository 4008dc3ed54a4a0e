/** The send and receive loops over a socket that transfers data in arbitrary
    pieces, and the frames that cross it. */
module Stream {
  import opened Bytes
  import opened Framing

  datatype StreamError = SendTimeout | SendFailed | ReceiveTimeout | ReceiveFailed | ConnectionClosed | BadFrame(frame: FrameError)

  // What one send or recv call does: transfer up to n bytes (0 is a recv's end
  // of stream), or fail with EINTR, with EAGAIN, or otherwise.
  datatype Event = Transfers(n: nat) | Interrupted | WouldBlock | Fails

  datatype Sent = Sent(written: bytes, events: seq<Event>, error: Option<StreamError>)

  // Data received, and the bytes and events left on the socket.
  datatype Received<T> = Received(data: T, incoming: bytes, events: seq<Event>)

  function Min(a: nat, b: nat): nat {
    if a < b then a else b
  }

  // ---- What the loops compute; a call after the last event times out ----

  function SendAll(data: bytes, events: seq<Event>): Sent
    decreases |events|
  {
    if data == [] then Sent([], events, None)
    else if events == [] then Sent([], [], Some(SendTimeout))
    else
      match events[0]
      case Transfers(n) =>
        var k := Min(n, |data|);
        if k == 0 then Sent([], events[1..], Some(SendFailed))
        else
          var rest := SendAll(data[k..], events[1..]);
          rest.(written := data[..k] + rest.written)
      case Interrupted => SendAll(data, events[1..])
      case WouldBlock => Sent([], events[1..], Some(SendTimeout))
      case Fails => Sent([], events[1..], Some(SendFailed))
  }

  function RecvExact(incoming: bytes, events: seq<Event>, size: nat): (r: Result<Received<bytes>, StreamError>)
    ensures r.Ok? ==> |r.value.data| == size
    decreases |events|
  {
    if size == 0 then Ok(Received([], incoming, events))
    else if events == [] then Throws(ReceiveTimeout)
    else
      match events[0]
      case Transfers(n) =>
        var k := Min(Min(n, size), |incoming|);
        if k == 0 then Throws(ConnectionClosed)
        else Prepend(incoming[..k], RecvExact(incoming[k..], events[1..], size - k))
      case Interrupted => RecvExact(incoming, events[1..], size)
      case WouldBlock => Throws(ReceiveTimeout)
      case Fails => Throws(ReceiveFailed)
  }

  function Prepend(data: bytes, r: Result<Received<bytes>, StreamError>): Result<Received<bytes>, StreamError> {
    match r
    case Ok(rest) => Ok(rest.(data := data + rest.data))
    case Throws(e) => r
  }

  function RecvFramed(incoming: bytes, events: seq<Event>): Result<Received<bytes>, StreamError> {
    var header :- RecvExact(incoming, events, 4);
    match DecodeFrameSize(header.data)
    case Throws(e) => Throws(BadFrame(e))
    case Ok(n) => RecvExact(header.incoming, header.events, n)
  }

  // ---- The socket and the loops ----

  class Socket {
    var incoming: bytes
    var outgoing: bytes
    var events: seq<Event>

    constructor (received: bytes, schedule: seq<Event>)
      ensures incoming == received && outgoing == [] && events == schedule
    {
      incoming, outgoing, events := received, [], schedule;
    }

    /** One system call: how many bytes moved, or the errno. */
    method Next() returns (e: Event)
      modifies this`events
      ensures e == if old(events) == [] then WouldBlock else old(events)[0]
      ensures events == if old(events) == [] then [] else old(events)[1..]
    {
      e := WouldBlock;
      if events != [] {
        e := events[0];
        events := events[1..];
      }
    }

    method Send(data: bytes) returns (error: Option<StreamError>)
      modifies this
      ensures var s := SendAll(data, old(events));
              error == s.error && events == s.events && outgoing == old(outgoing) + s.written
      ensures incoming == old(incoming)
    {
      var sent := 0;
      ghost var whole := SendAll(data, events);
      assert data[0..] == data;
      while sent < |data|
        invariant 0 <= sent <= |data| && incoming == old(incoming)
        invariant outgoing == old(outgoing) + data[..sent]
        invariant var s := SendAll(data[sent..], events); whole == s.(written := data[..sent] + s.written)
        decreases |events|
      {
        if events == [] {
          assert data[..sent] + [] == data[..sent];
          return Some(SendTimeout);
        }
        ghost var rest := data[sent..];
        var e := Next();
        match e {
          case Transfers(n) =>
            var k := Min(n, |data| - sent);
            if k == 0 {
              assert data[..sent] + [] == data[..sent];
              return Some(SendFailed);
            }
            outgoing := outgoing + data[sent..sent + k];
            assert rest[..k] == data[sent..sent + k] && rest[k..] == data[sent + k..];
            assert data[..sent] + rest[..k] == data[..sent + k];
            Assoc(data[..sent], rest[..k], SendAll(rest[k..], events).written);
            sent := sent + k;
          case Interrupted =>
          case WouldBlock =>
            assert data[..sent] + [] == data[..sent];
            return Some(SendTimeout);
          case Fails =>
            assert data[..sent] + [] == data[..sent];
            return Some(SendFailed);
        }
      }
      assert data[sent..] == [] && data[..sent] == data && data + [] == data;
      return None;
    }

    /** recv_exact: fills a buffer of the given size; data past received is not yet there. */
    method Receive(size: nat) returns (r: Result<bytes, StreamError>)
      modifies this
      ensures match RecvExact(old(incoming), old(events), size)
              case Ok(w) => r == Ok(w.data) && incoming == w.incoming && events == w.events
              case Throws(e) => r == Throws(e)
      ensures outgoing == old(outgoing)
    {
      var out := new byte[size];
      var received := 0;
      ghost var whole := RecvExact(incoming, events, size);
      assert forall w: Result<Received<bytes>, StreamError> :: Prepend([], w) == w by {
        forall w: Result<Received<bytes>, StreamError> ensures Prepend([], w) == w {
          assert w.Ok? ==> [] + w.value.data == w.value.data;
        }
      }
      while received < size
        invariant 0 <= received <= size && out.Length == size && outgoing == old(outgoing)
        invariant whole == Prepend(out[..received], RecvExact(incoming, events, size - received))
        decreases |events|
      {
        if events == [] {
          return Throws(ReceiveTimeout);
        }
        var e := Next();
        match e {
          case Transfers(n) =>
            var k := Min(Min(n, size - received), |incoming|);
            if k == 0 {
              return Throws(ConnectionClosed);
            }
            ghost var before, rest := out[..received], RecvExact(incoming[k..], events, size - received - k);
            forall i | 0 <= i < k {
              out[received + i] := incoming[i];
            }
            assert out[..received + k] == before + incoming[..k];
            PrependTwice(before, incoming[..k], rest);
            incoming := incoming[k..];
            received := received + k;
          case Interrupted =>
          case WouldBlock => return Throws(ReceiveTimeout);
          case Fails => return Throws(ReceiveFailed);
        }
      }
      assert out[..received] == out[..] && out[..] + [] == out[..];
      return Ok(out[..]);
    }

    method SendFramed(json: bytes) returns (r: Result<(), StreamError>)
      modifies this
      ensures incoming == old(incoming)
      ensures match EncodeFrame(json)
              case Throws(e) => r == Throws(BadFrame(e)) && outgoing == old(outgoing) && events == old(events)
              case Ok(frame) =>
                var s := SendAll(frame, old(events));
                outgoing == old(outgoing) + s.written && events == s.events &&
                r == (match s.error case None => Ok(()) case Some(e) => Throws(e))
    {
      var frame := Encode(json);
      match frame {
        case Throws(e) => return Throws(BadFrame(e));
        case Ok(data) =>
          var error := Send(data);
          match error {
            case None => return Ok(());
            case Some(e) => return Throws(e);
          }
      }
    }

    method ReceiveFramed() returns (r: Result<bytes, StreamError>)
      modifies this
      ensures match RecvFramed(old(incoming), old(events))
              case Ok(w) => r == Ok(w.data) && incoming == w.incoming && events == w.events
              case Throws(e) => r == Throws(e)
      ensures outgoing == old(outgoing)
    {
      var header :- Receive(4);
      match DecodeFrameSize(header) {
        case Throws(e) => return Throws(BadFrame(e));
        case Ok(n) => r := Receive(n);
      }
    }
  }

  lemma PrependTwice(a: bytes, b: bytes, r: Result<Received<bytes>, StreamError>)
    ensures Prepend(a, Prepend(b, r)) == Prepend(a + b, r)
  {
    if r.Ok? {
      Assoc(a, b, r.value.data);
    }
  }

  // ---- What arrives does not depend on how it was cut ----

  /** A successful receive takes exactly the next size bytes, on every schedule. */
  lemma {:induction false} RecvExactSound(incoming: bytes, events: seq<Event>, size: nat)
    ensures var r := RecvExact(incoming, events, size);
            r.Ok? ==> incoming == r.value.data + r.value.incoming
    decreases |events|
  {
    if size > 0 && events != [] {
      match events[0]
      case Transfers(n) =>
        var k := Min(Min(n, size), |incoming|);
        if k > 0 {
          RecvExactSound(incoming[k..], events[1..], size - k);
          var r := RecvExact(incoming[k..], events[1..], size - k);
          if r.Ok? {
            Assoc(incoming[..k], r.value.data, r.value.incoming);
            assert incoming == incoming[..k] + incoming[k..];
          }
        }
      case Interrupted => RecvExactSound(incoming, events[1..], size);
      case _ =>
    }
  }

  /** What is written is always a prefix of the data, and all of it when there is no error. */
  lemma {:induction false} SendAllSound(data: bytes, events: seq<Event>)
    ensures var s := SendAll(data, events);
            s.written <= data && (s.error == None <==> s.written == data)
    decreases |events|
  {
    if data != [] && events != [] {
      match events[0]
      case Transfers(n) =>
        var k := Min(n, |data|);
        if k > 0 {
          SendAllSound(data[k..], events[1..]);
          var rest := SendAll(data[k..], events[1..]).written;
          assert data == data[..k] + data[k..];
          assert data[..k] + rest == data <==> rest == data[k..] by {
            if data[..k] + rest == data {
              assert rest == (data[..k] + rest)[k..];
            }
          }
        }
      case Interrupted => SendAllSound(data, events[1..]);
      case _ =>
    }
  }

  /** Whatever is received as a payload stood framed at the front of the stream, on every
      schedule. */
  lemma RecvFramedSound(incoming: bytes, events: seq<Event>)
    ensures var r := RecvFramed(incoming, events);
            r.Ok? ==> EncodeFrame(r.value.data).Ok? && incoming == EncodeFrame(r.value.data).value + r.value.incoming
  {
    RecvExactSound(incoming, events, 4);
    var h := RecvExact(incoming, events, 4);
    if h.Ok? && DecodeFrameSize(h.value.data).Ok? {
      var n := DecodeFrameSize(h.value.data).value;
      RecvExactSound(h.value.incoming, h.value.events, n);
      var b := RecvExact(h.value.incoming, h.value.events, n);
      if b.Ok? {
        HeaderUnique(h.value.data);
        Assoc(h.value.data, b.value.data, b.value.incoming);
      }
    }
  }

  /** Only the network can make the receipt of a sent frame fail. */
  ghost predicate NetworkError(e: StreamError) {
    e == ReceiveTimeout || e == ReceiveFailed || e == ConnectionClosed
  }

  lemma {:induction false} RecvExactErrors(incoming: bytes, events: seq<Event>, size: nat)
    ensures RecvExact(incoming, events, size).Throws? ==> NetworkError(RecvExact(incoming, events, size).error)
    decreases |events|
  {
    if size > 0 && events != [] {
      match events[0]
      case Transfers(n) =>
        var k := Min(Min(n, size), |incoming|);
        if k > 0 {
          RecvExactErrors(incoming[k..], events[1..], size - k);
        }
      case Interrupted => RecvExactErrors(incoming, events[1..], size);
      case _ =>
    }
  }

  /** From a stream that begins with a frame, exactly its payload is received and
      no byte beyond it, unless the network fails. */
  lemma RecvFramedComplete(payload: bytes, tail: bytes, events: seq<Event>)
    requires EncodeFrame(payload).Ok?
    ensures match RecvFramed(EncodeFrame(payload).value + tail, events)
            case Ok(w) => w.data == payload && w.incoming == tail
            case Throws(e) => NetworkError(e)
  {
    var header := Header(|payload|);
    var incoming := EncodeFrame(payload).value + tail;
    Assoc(header, payload, tail);
    RecvExactSound(incoming, events, 4);
    RecvExactErrors(incoming, events, 4);
    var h := RecvExact(incoming, events, 4);
    if h.Ok? {
      SameFront(h.value.data, h.value.incoming, header, payload + tail);
      HeaderRoundTrip(|payload|);
      RecvExactSound(payload + tail, h.value.events, |payload|);
      RecvExactErrors(payload + tail, h.value.events, |payload|);
      var b := RecvExact(payload + tail, h.value.events, |payload|);
      if b.Ok? {
        SameFront(b.value.data, b.value.incoming, payload, tail);
      }
    }
  }

  lemma SameFront(a: bytes, x: bytes, b: bytes, y: bytes)
    requires |a| == |b| && a + x == b + y
    ensures a == b && x == y
  {
    assert a == (a + x)[..|a|] && b == (b + y)[..|b|];
    assert x == (a + x)[|a|..] && y == (b + y)[|b|..];
  }

  /** A header that announces no frame is refused with its own error, and no body is read. */
  lemma BadHeaderIsRefused(header: bytes, tail: bytes, events: seq<Event>)
    requires |header| == 4 && DecodeFrameSize(header).Throws?
    ensures var r := RecvFramed(header + tail, events);
            r.Throws? && (NetworkError(r.error) || r.error == BadFrame(DecodeFrameSize(header).error))
  {
    RecvExactSound(header + tail, events, 4);
    RecvExactErrors(header + tail, events, 4);
    var h := RecvExact(header + tail, events, 4);
    if h.Ok? {
      SameFront(h.value.data, h.value.incoming, header, tail);
    }
  }

  // ---- Any number of frames ----

  predicate Framable(payloads: seq<bytes>) {
    forall i | 0 <= i < |payloads| :: EncodeFrame(payloads[i]).Ok?
  }

  function Frames(payloads: seq<bytes>): bytes
    requires Framable(payloads)
  {
    if payloads == [] then [] else EncodeFrame(payloads[0]).value + Frames(payloads[1..])
  }

  /** Sending the frames one after the other, up to the first error. */
  function SendFrames(payloads: seq<bytes>, events: seq<Event>): Sent
    requires Framable(payloads)
  {
    if payloads == [] then Sent([], events, None)
    else
      var s := SendAll(EncodeFrame(payloads[0]).value, events);
      if s.error != None then s
      else
        var rest := SendFrames(payloads[1..], s.events);
        rest.(written := s.written + rest.written)
  }

  function RecvFrames(incoming: bytes, events: seq<Event>, n: nat): Result<Received<seq<bytes>>, StreamError>
    decreases n
  {
    if n == 0 then Ok(Received([], incoming, events))
    else
      var first :- RecvFramed(incoming, events);
      var rest :- RecvFrames(first.incoming, first.events, n - 1);
      Ok(rest.(data := [first.data] + rest.data))
  }

  lemma {:induction false} SendFramesSound(payloads: seq<bytes>, events: seq<Event>)
    requires Framable(payloads)
    ensures var s := SendFrames(payloads, events);
            s.written <= Frames(payloads) && (s.error == None ==> s.written == Frames(payloads))
  {
    if payloads != [] {
      var frame := EncodeFrame(payloads[0]).value;
      SendAllSound(frame, events);
      var s := SendAll(frame, events);
      if s.error == None {
        SendFramesSound(payloads[1..], s.events);
      }
    }
  }

  lemma {:induction false} RecvFramesComplete(payloads: seq<bytes>, tail: bytes, events: seq<Event>)
    requires Framable(payloads)
    ensures match RecvFrames(Frames(payloads) + tail, events, |payloads|)
            case Ok(w) => w.data == payloads && w.incoming == tail
            case Throws(e) => NetworkError(e)
  {
    if payloads == [] {
      assert Frames(payloads) + tail == tail;
    } else {
      var rest := Frames(payloads[1..]);
      Assoc(EncodeFrame(payloads[0]).value, rest, tail);
      RecvFramedComplete(payloads[0], rest + tail, events);
      var first := RecvFramed(Frames(payloads) + tail, events);
      if first.Ok? {
        RecvFramesComplete(payloads[1..], tail, first.value.events);
        assert payloads == [payloads[0]] + payloads[1..];
      }
    }
  }

  /** For every list of payloads and every two schedules: what a sender completes is
      what a receiver gets, in order, with every later byte left on the stream. */
  lemma FramesCrossTheStream(payloads: seq<bytes>, tail: bytes, sends: seq<Event>, receives: seq<Event>)
    requires Framable(payloads) && SendFrames(payloads, sends).error == None
    ensures match RecvFrames(SendFrames(payloads, sends).written + tail, receives, |payloads|)
            case Ok(w) => w.data == payloads && w.incoming == tail
            case Throws(e) => NetworkError(e)
  {
    SendFramesSound(payloads, sends);
    RecvFramesComplete(payloads, tail, receives);
  }

  // ---- A schedule that keeps moving data succeeds ----

  predicate Steady(events: seq<Event>) {
    forall i | 0 <= i < |events| :: events[i] == Interrupted || (events[i].Transfers? && events[i].n > 0)
  }

  /** The number of transfers, each of at least one byte when Steady. */
  function Transfers(events: seq<Event>): nat {
    if events == [] then 0 else (if events[0].Transfers? then 1 else 0) + Transfers(events[1..])
  }

  lemma {:induction false} RecvExactSteady(incoming: bytes, events: seq<Event>, size: nat)
    requires Steady(events) && size <= Transfers(events) && size <= |incoming|
    ensures RecvExact(incoming, events, size).Ok?
    ensures var w := RecvExact(incoming, events, size).value;
            Steady(w.events) && Transfers(events) <= Transfers(w.events) + size
    decreases |events|
  {
    if size > 0 {
      match events[0]
      case Transfers(n) =>
        var k := Min(Min(n, size), |incoming|);
        RecvExactSteady(incoming[k..], events[1..], size - k);
      case Interrupted => RecvExactSteady(incoming, events[1..], size);
    }
  }

  lemma {:induction false} RecvFramesSteady(payloads: seq<bytes>, tail: bytes, events: seq<Event>)
    requires Framable(payloads) && Steady(events) && |Frames(payloads)| <= Transfers(events)
    ensures RecvFrames(Frames(payloads) + tail, events, |payloads|).Ok?
  {
    if payloads != [] {
      var payload, rest := payloads[0], Frames(payloads[1..]) + tail;
      var incoming := EncodeFrame(payload).value + rest;
      Assoc(EncodeFrame(payload).value, Frames(payloads[1..]), tail);
      RecvExactSteady(incoming, events, 4);
      RecvFramedComplete(payload, rest, events);
      var h := RecvExact(incoming, events, 4).value;
      RecvExactSound(incoming, events, 4);
      Assoc(Header(|payload|), payload, rest);
      SameFront(h.data, h.incoming, Header(|payload|), payload + rest);
      HeaderRoundTrip(|payload|);
      RecvExactSteady(h.incoming, h.events, |payload|);
      RecvFramesSteady(payloads[1..], tail, RecvFramed(incoming, events).value.events);
    }
  }

  /** A send with a transfer for every byte ends without an error, on any schedule of
      partial sends and interruptions. */
  lemma {:induction false} SendAllSteady(data: bytes, events: seq<Event>)
    requires Steady(events) && |data| <= Transfers(events)
    ensures SendAll(data, events).error == None && Steady(SendAll(data, events).events)
    ensures Transfers(events) <= Transfers(SendAll(data, events).events) + |data|
    decreases |events|
  {
    if data != [] && events != [] {
      if events[0].Transfers? {
        SendAllSteady(data[Min(events[0].n, |data|)..], events[1..]);
      } else {
        SendAllSteady(data, events[1..]);
      }
    }
  }

  lemma {:induction false} SendFramesSteady(payloads: seq<bytes>, events: seq<Event>)
    requires Framable(payloads) && Steady(events) && |Frames(payloads)| <= Transfers(events)
    ensures SendFrames(payloads, events).error == None && SendFrames(payloads, events).written == Frames(payloads)
  {
    if payloads != [] {
      SendAllSteady(EncodeFrame(payloads[0]).value, events);
      SendFramesSteady(payloads[1..], SendAll(EncodeFrame(payloads[0]).value, events).events);
    }
    SendFramesSound(payloads, events);
  }

  // ---- Why a loop stops ----

  /** Calls that only moved data or were interrupted. */
  predicate Progress(events: seq<Event>) {
    forall e | e in events :: e.Interrupted? || (e.Transfers? && e.n > 0)
  }

  /** A send fails with the error of the first call that neither moves data nor is
      interrupted, and times out where there is none. */
  lemma {:induction false} SendStops(data: bytes, events: seq<Event>)
    ensures SendAll(data, events).error.Some? ==>
            exists k | 0 <= k <= |events| :: Progress(events[..k]) &&
              SendAll(data, events).error.value ==
                if k == |events| || events[k].WouldBlock? then SendTimeout else SendFailed
    ensures SendAll(data, events).error.Some? ==>
            !Progress(events) || SendAll(data, events).error == Some(SendTimeout)
    decreases |events|
  {
    if data != [] && events != [] {
      var next := if events[0].Transfers? then data[Min(events[0].n, |data|)..] else data;
      if events[0].Interrupted? || (events[0].Transfers? && events[0].n > 0) {
        SendStops(next, events[1..]);
        if SendAll(data, events).error.Some? {
          var k :| 0 <= k <= |events[1..]| && Progress(events[1..][..k]) &&
                   SendAll(next, events[1..]).error.value ==
                     if k == |events[1..]| || events[1..][k].WouldBlock? then SendTimeout else SendFailed;
          assert events[..k + 1] == [events[0]] + events[1..][..k];
          assert Progress(events[..k + 1]);
        }
        if Progress(events) {
          forall e | e in events[1..] ensures e in events {}
        }
      } else {
        assert events[..0] == [] && Progress(events[..0]);
        assert events[0] in events;
      }
    } else {
      assert events[..0] == [] && Progress(events[..0]);
    }
  }

  /** A receive fails with the error of the first call that does not make progress: a
      timeout, another error, or the end of the stream where nothing can be moved. */
  lemma {:induction false} ReceiveStops(incoming: bytes, events: seq<Event>, size: nat)
    ensures RecvExact(incoming, events, size).Throws? ==>
            exists k | 0 <= k <= |events| :: Progress(events[..k]) &&
              RecvExact(incoming, events, size).error ==
                if k == |events| || events[k].WouldBlock? then ReceiveTimeout
                else if events[k].Fails? then ReceiveFailed else ConnectionClosed
    ensures RecvExact(incoming, events, size) == Throws(ConnectionClosed) ==>
            |incoming| < size || exists k | 0 <= k < |events| :: events[k] == Event.Transfers(0)
    decreases |events|
  {
    if size > 0 && events != [] {
      var n := if events[0].Transfers? then Min(Min(events[0].n, size), |incoming|) else 0;
      if events[0].Interrupted? || n > 0 {
        ReceiveStops(incoming[n..], events[1..], size - n);
        var r := RecvExact(incoming[n..], events[1..], size - n);
        if r.Throws? {
          var k :| 0 <= k <= |events[1..]| && Progress(events[1..][..k]) &&
                   r.error == if k == |events[1..]| || events[1..][k].WouldBlock? then ReceiveTimeout
                              else if events[1..][k].Fails? then ReceiveFailed else ConnectionClosed;
          assert events[..k + 1] == [events[0]] + events[1..][..k];
          assert Progress(events[..k + 1]);
        }
      } else {
        assert events[..0] == [] && Progress(events[..0]);
      }
    } else {
      assert events[..0] == [] && Progress(events[..0]);
    }
  }
}
