/** Printing a reply and parsing it back, and exactly which texts are parsed. */
module RoundTrip {
  import opened Bytes
  import opened JsonReader
  import opened FlatObject
  import opened JsonPrinter
  import opened Envelope
  import opened Messages

  lemma ResultSlotsFit(r: JobReply)
    ensures SlotsFor(SignedResultFields(r), RESULT_SLOTS)
    ensures FieldValues(SignedResultFields(r)) == ResultValues(r)
    ensures NumbersReadable(SignedResultFields(r)) <==> Readable(r.completedAt)
  {
    hide Plain, Readable;
    CommonKeysPlain();
    ResultKeysPlain();
    var fs := SignedResultFields(r);
    assert fs[0].number == r.completedAt;
  }

  lemma NoticeSlotsFit(n: Notice)
    ensures SlotsFor(SignedNoticeFields(n), NOTICE_SLOTS)
    ensures FieldValues(SignedNoticeFields(n)) == NoticeValues(n)
    ensures NumbersReadable(SignedNoticeFields(n)) <==> Readable(n.observedAt)
  {
    hide Plain, Readable;
    CommonKeysPlain();
    NoticeKeysPlain();
    var fs := SignedNoticeFields(n);
    assert fs[2].number == n.observedAt;
  }

  lemma KindsHaveNoQuote()
    ensures '"' !in JOB_REQUEST && '"' !in JOB_RESULT && '"' !in FAILURE_NOTICE
    ensures JOB_RESULT != FAILURE_NOTICE && JOB_RESULT != JOB_REQUEST && FAILURE_NOTICE != JOB_REQUEST
  {
    assert JOB_RESULT[4] != JOB_REQUEST[5];
  }

  /** Splitting finds the object whatever its tokens contain, and reading it finds its fields. */
  lemma ReadEnvelope(ms: seq<Member>, fs: seq<Field<bytes>>, slots: seq<Slot>, kind: bytes)
    requires ms != [] && AllWrite(ms, fs) && SlotsFor(fs, slots) && '"' !in kind
    ensures SplitEnvelope(Joined(ObjectText(ms), kind)) == Ok((ObjectText(ms), kind))
    ensures ReadObject(ObjectText(ms), slots) ==
            if NumbersReadable(fs) then Ok(FieldValues(fs)) else Throws(IntegerOverflow)
  {
    AllWriteFit(ms, fs, slots);
    SplitOfObject(ms, kind);
    ReadWritten(ms, fs, slots);
  }

  /** Any text that writes a result's fields is parsed to that result. */
  lemma ParseWrittenResult(ms: seq<Member>, r: JobReply)
    requires AllWrite(ms, SignedResultFields(r))
    ensures ParseResult(Joined(ObjectText(ms), JOB_RESULT)) ==
            if Readable(r.completedAt) then Ok(r) else Throws(IntegerOverflow)
  {
    KindsHaveNoQuote();
    ResultSlotsFit(r);
    ReadEnvelope(ms, SignedResultFields(r), RESULT_SLOTS, JOB_RESULT);
    ResultOfValues(r);
  }

  lemma ParseWrittenNotice(ms: seq<Member>, n: Notice)
    requires AllWrite(ms, SignedNoticeFields(n))
    ensures ParseNotice(Joined(ObjectText(ms), FAILURE_NOTICE)) ==
            if Readable(n.observedAt) then Ok(n) else Throws(IntegerOverflow)
  {
    KindsHaveNoQuote();
    NoticeSlotsFit(n);
    ReadEnvelope(ms, SignedNoticeFields(n), NOTICE_SLOTS, FAILURE_NOTICE);
    NoticeOfValues(n);
  }

  /** Every result, whatever bytes its fields hold, is parsed back exactly from
      its envelope, unless its time is one that integer() cannot read. */
  lemma ResultRoundTrip(r: JobReply)
    ensures ParseResult(ResultEnvelope(r)) == if Readable(r.completedAt) then Ok(r) else Throws(IntegerOverflow)
  {
    ByteMembersWrite(SignedResultFields(r));
    ParseWrittenResult(ByteMembers(SignedResultFields(r)), r);
  }

  lemma NoticeRoundTrip(n: Notice)
    ensures ParseNotice(NoticeEnvelope(n)) == if Readable(n.observedAt) then Ok(n) else Throws(IntegerOverflow)
  {
    ByteMembersWrite(SignedNoticeFields(n));
    ParseWrittenNotice(ByteMembers(SignedNoticeFields(n)), n);
  }

  // ---- Exactly what the parsers accept ----

  /** json is the envelope of one object of the grammar with these members. */
  ghost predicate IsEnvelopeOf(json: bytes, kind: bytes, slots: seq<Slot>, values: seq<Value>) {
    exists payload :: json == Joined(payload, kind) && IsObject(payload, slots, values)
  }

  lemma ObjectScans(payload: bytes, slots: seq<Slot>, values: seq<Value>)
    requires slots != [] && IsObject(payload, slots, values)
    ensures ScansAsObject(payload)
  {
    var ms :| AllFit(ms, slots) && ObjectText(ms) == payload && ValuesOf(ms, slots) == values;
    forall i | 0 <= i < |ms| ensures WellFormedMember(ms[i]) {
      assert Fits(ms[i], slots[i]);
    }
    CrossObject(ms, []);
    assert ObjectText(ms) + [] == ObjectText(ms);
  }

  lemma EnvelopeReadExact(json: bytes, kind: bytes, slots: seq<Slot>, values: seq<Value>)
    requires slots != [] && '"' !in kind
    ensures (EnvelopePayload(json, kind).Ok? && ReadObject(EnvelopePayload(json, kind).value, slots) == Ok(values))
            <==> IsEnvelopeOf(json, kind, slots, values)
  {
    if EnvelopePayload(json, kind).Ok? && ReadObject(EnvelopePayload(json, kind).value, slots) == Ok(values) {
      var payload := EnvelopePayload(json, kind).value;
      assert SplitEnvelope(json).value == (payload, kind);
      SplitExact(json, payload, kind);
      ReadObjectExact(payload, slots, values);
    }
    if IsEnvelopeOf(json, kind, slots, values) {
      var payload :| json == Joined(payload, kind) && IsObject(payload, slots, values);
      ObjectScans(payload, slots, values);
      SplitExact(json, payload, kind);
      ReadObjectExact(payload, slots, values);
    }
  }

  lemma ValuesFollowSlots(payload: bytes, slots: seq<Slot>, values: seq<Value>)
    requires IsObject(payload, slots, values)
    ensures |values| == |slots|
    ensures forall i | 0 <= i < |values| :: values[i].NumberValue? <==> slots[i].NumberSlot?
  {
    var ms :| AllFit(ms, slots) && ObjectText(ms) == payload && ValuesOf(ms, slots) == values;
    forall i | 0 <= i < |values| ensures values[i].NumberValue? <==> slots[i].NumberSlot? {
      assert Fits(ms[i], slots[i]);
    }
  }

  lemma RebuildResult(values: seq<Value>)
    requires |values| == 10 && forall i | 0 <= i < 10 :: values[i].NumberValue? <==> i == 0
    ensures ResultValues(ResultOf(values)) == values
  {
    forall i | 0 <= i < 10 ensures ResultValues(ResultOf(values))[i] == values[i] {}
  }

  lemma RebuildNotice(values: seq<Value>)
    requires |values| == 9 && forall i | 0 <= i < 9 :: values[i].NumberValue? <==> i == 2
    ensures NoticeValues(NoticeOf(values)) == values
  {
    forall i | 0 <= i < 9 ensures NoticeValues(NoticeOf(values))[i] == values[i] {}
  }

  lemma NumberSlots()
    ensures |RESULT_SLOTS| == 10 && forall i | 0 <= i < 10 :: RESULT_SLOTS[i].NumberSlot? <==> i == 0
    ensures |NOTICE_SLOTS| == 9 && forall i | 0 <= i < 9 :: NOTICE_SLOTS[i].NumberSlot? <==> i == 2
  {
  }

  /** Values that fit the slots of a result are those of the record built from them. */
  lemma ValuesOfResult(payload: bytes, values: seq<Value>)
    requires IsObject(payload, RESULT_SLOTS, values)
    ensures ResultValues(ResultOf(values)) == values
  {
    hide IsObject, ResultOf, ResultValues;
    ValuesFollowSlots(payload, RESULT_SLOTS, values);
    NumberSlots();
    RebuildResult(values);
  }

  lemma ValuesOfNotice(payload: bytes, values: seq<Value>)
    requires IsObject(payload, NOTICE_SLOTS, values)
    ensures NoticeValues(NoticeOf(values)) == values
  {
    hide IsObject, NoticeOf, NoticeValues;
    ValuesFollowSlots(payload, NOTICE_SLOTS, values);
    NumberSlots();
    RebuildNotice(values);
  }

  /** A text parses to r if and only if it is an envelope of type JOB_RESULT around
      an object of the grammar that means r's fields in printed order. */
  lemma ParseResultExact(json: bytes, r: JobReply)
    ensures ParseResult(json) == Ok(r) <==> IsEnvelopeOf(json, JOB_RESULT, RESULT_SLOTS, ResultValues(r))
  {
    KindsHaveNoQuote();
    ResultOfValues(r);
    EnvelopeReadExact(json, JOB_RESULT, RESULT_SLOTS, ResultValues(r));
    if ParseResult(json) == Ok(r) {
      var payload := EnvelopePayload(json, JOB_RESULT).value;
      var values := ReadObject(payload, RESULT_SLOTS).value;
      ReadObjectExact(payload, RESULT_SLOTS, values);
      ValuesOfResult(payload, values);
    }
  }

  lemma ParseNoticeExact(json: bytes, n: Notice)
    ensures ParseNotice(json) == Ok(n) <==> IsEnvelopeOf(json, FAILURE_NOTICE, NOTICE_SLOTS, NoticeValues(n))
  {
    KindsHaveNoQuote();
    NoticeOfValues(n);
    EnvelopeReadExact(json, FAILURE_NOTICE, NOTICE_SLOTS, NoticeValues(n));
    if ParseNotice(json) == Ok(n) {
      var payload := EnvelopePayload(json, FAILURE_NOTICE).value;
      var values := ReadObject(payload, NOTICE_SLOTS).value;
      ReadObjectExact(payload, NOTICE_SLOTS, values);
      ValuesOfNotice(payload, values);
    }
  }

  // ---- Other envelopes ----

  /** An envelope of another type is refused for it, and a text that is no envelope with the
      error of splitting it; the parsers look no further. */
  lemma OtherEnvelopesAreRefused(json: bytes)
    ensures match SplitEnvelope(json)
            case Throws(e) => EnvelopeType(json) == Throws(e) && ParseResult(json) == Throws(e) && ParseNotice(json) == Throws(e)
            case Ok((payload, kind)) =>
              EnvelopeType(json) == Ok(kind) && (kind != "JOB_RESULT" ==> ParseResult(json) == Throws(WrongType)) &&
              (kind != "FAILURE_NOTICE" ==> ParseNotice(json) == Throws(WrongType))
  {
  }
}
