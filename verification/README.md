# A verified model of MA2A

MA2A lets agents hand jobs to one another over authenticated TCP connections, fail over
between nodes, synchronise deltas and share learned routes. This project models its
hardest parts and proves what they promise, over all inputs, all runs and all networks.

- **Wire codec.** `json_grammar.dfy` gives the string tokens of section 7 of RFC 8259 as a
  declarative grammar. `json_reader.dfy` (the cursor class `FlatJsonReader`) and
  `flat_object.dfy` are proved to accept exactly the texts of that grammar;
  `json_printer.dfy` is proved to print only such texts; `envelope.dfy` proves that the
  brace-counting scanner finds the payload whatever the fields contain. `messages.dfy` holds
  the builders and parsers, `layout.dfy` the printed texts member by member, `round_trip.dfy` and
  `canonical_forms.dfy` the round trips and the injectivity of the signed form, `utf8.dfy` and `token_utf8.dfy` UTF-8 (RFC 3629).
- **The second implementation.** `python_wire.dfy` models the independent Python printer: C++
  parses every result it sends, and the two sign the same bytes under an exact condition.
  `python_reader.dfy` models what Python reads of the requests that C++ sends.
- **Transport.** `framing.dfy`, `stream.dfy`, `base64url.dfy` and `signing.dfy` carry a message
  through base64url, frames and arbitrarily cut transfers under an ideal signature scheme.
- **Conflict resolver.** `conflict.dfy` proves the convergence property that the
  specification states as a test target, with the hypotheses it needs.
- **Resilient execution.** `orchestrator.dfy`, `engine.dfy`, `engine_runs.dfy` and
  `executor.dfy` model the lifecycle object, the failover loop and the evidence filter against
  any routing and any network, up to end-to-end safety.
- **Route memory.** `route_memory.dfy` proves that the two dictionaries stay one index over
  every history and that a shared route is a hit elsewhere; `faithful_library.dfy` shows that
  its hypothesis about the library can be met.

## Conventions

A C++ throw or a Python raise is `Throws` of a constructor of an error datatype, one
constructor for each distinct message. A C++ string is a sequence of bytes (characters below
0x100); a Python `str` is a sequence of Unicode scalar values. A function computes what a
loop, a cursor or a class computes; the method of the same purpose has the source's form
and is proved equal to it; the theorems are about the function. Routing, the network, the
clock, keys and library calls are parameters that may answer anything their contract
allows. Shifts and masks of unsigned values are written as division and remainder.

## Findings

- `integer()` has no overflow check. Printing and parsing a record is the identity if and only
  if its number is an int64 other than the least one; the model marks the remaining
  case, which C++ leaves undefined, as `IntegerOverflow` (`RoundTrip.ResultRoundTrip`).
- PROTOCOL_LIMITS.md requires byte-identical canonical JSON. The two implementations agree if
  and only if no string has a character above `~` and a request's organization is not the
  empty string (`PythonWire.CanonicalResultAgrees`, `PythonWire.CanonicalRequestAgrees`,
  with a concrete counterexample in `PythonWire.AccentBreaksByteIdentity`). So C++ parses every
  result that Python signs, but verifies it only within that range
  (`Signing.PythonSignatureInCpp`). Python receives a C++ request if and only if its strings
  are UTF-8 (`PythonReader.CppRequestIsReceived`) and verifies it within the same range; an
  empty organization does no harm in that direction, since Python reads it as None
  (`PythonReader.CppSignatureInPython`).
- A signature protects every field but its own spelling: base64url decoding ignores spare bits,
  so a 64-byte signature has another spelling that verifies
  (`Signing.RespelledResultVerifies`, `Signing.SignatureTextIsMalleable`).
- The specification's convergence property is false for deltas that jump over a version
  (`Conflict.VersionJumpsDiverge`) and for orders that are not causal
  (`Conflict.DisorderDiverges`). Deltas with distinct keys that jump over nothing converge in
  every causal order (`Conflict.ReplicasConverge`), one-step deltas among them, and replays or deltas out of scope in
  between change nothing (`Conflict.HistoriesConverge`); and every causal
  history over a pool of deltas keeps the replica at the greatest of what has arrived if and
  only if no deliverable delta jumps over the initial version or over that of another
  deliverable delta (`Conflict.CausalHistoriesExactly`).
- `import_delta` does not check what kind of value a condition key is. The index breaks if and
  only if a record takes the address of another condition that still leads to it
  (`RouteMemory.RegisterKeepsIndexExactly`). An accepted import does so with a key that contains
  `|` (`RouteMemory.BarredKeyDisplaces`) and with a key that is not a string but prints like one
  (`RouteMemory.ScalarKeyDisplaces`, `RouteMemory.FiveDisplacesItsText`).
- An import whose condition key is a JSON list or object raises after it has stored its record:
  a rejected import changes nothing if and only if it did not fail there
  (`RouteMemory.RejectionChangesNothingExactly`, `RouteMemory.ListKeyLeavesARecord`). A route
  whose result is an object with unsorted members can be imported but not shared further
  (`RouteMemory.ImportOfExportExactly`).
- The check for negative depth in `split_envelope` can never fire
  (`Envelope.SplitNeverMisnested`).

## Model

| member | source | states |
|---|---|---|
| `Utf8.AppendUtf8` | cpp/include/ma2a/wire_parse.hpp:15-33 | appends the encoding of every code point up to 0x10FFFF and throws for all others |
| `Utf8.EncodeIsWellFormed` | cpp/include/ma2a/wire_parse.hpp:15-33 | the bytes pushed for a scalar value are exactly one well-formed character of RFC 3629 section 4 that decodes back to it, whatever follows |
| `Utf8.WellFormedIsEncode` | cpp/include/ma2a/wire_parse.hpp:15-33 | every well-formed character is the encoding of the scalar value it denotes, so encodings are unique and shortest |
| `Utf8.TextRoundTrip` | reference/python/ma2a/conflict.py:27-34 | the UTF-8 form of any string is well-formed and decodes to that string |
| `Utf8.BytesRoundTrip` | reference/python/ma2a/conflict.py:27-34 | every well-formed byte string is the UTF-8 form of what it decodes to |
| `Utf8.EncodingKeepsOrder` | reference/python/ma2a/conflict.py:27-34 | one string precedes another by code points if and only if its encoding precedes the other's by bytes |
| `JsonReader.ReadPieceComplete` | cpp/include/ma2a/wire_parse.hpp:62-100 | each raw byte, short escape, `\u` escape and surrogate pair of the grammar is read as itself, whatever follows |
| `JsonReader.ReadBodyComplete` | cpp/include/ma2a/wire_parse.hpp:58-103 | every well-formed body is decoded to its meaning and reading stops just past the closing quote |
| `JsonReader.ReadBodySound` | cpp/include/ma2a/wire_parse.hpp:58-103 | whatever is decoded was such a body: a witness is constructed from the input |
| `JsonReader.ReadStringExact` | cpp/include/ma2a/wire_parse.hpp:58-103 | `string()` yields v and leaves rest if and only if the input begins with a string token of RFC 8259 that means v and is followed by rest |
| `JsonReader.FlatJsonReader.ExpectChar` | cpp/include/ma2a/wire_parse.hpp:46-50 | advances past the expected character or throws |
| `JsonReader.FlatJsonReader.UnicodeUnit` | cpp/include/ma2a/wire_parse.hpp:125-131 | the loop computes the value of the four hexadecimal digits read, in either case, and never reads past the end |
| `JsonReader.FlatJsonReader.UnicodeEscape` | cpp/include/ma2a/wire_parse.hpp:81-97 | appends the UTF-8 form of the escape or surrogate pair read, and throws on every lone surrogate |
| `JsonReader.FlatJsonReader.String` | cpp/include/ma2a/wire_parse.hpp:58-103 | the cursor loop computes the string read that `ReadStringExact` characterises, error for error, and never reads past the end |
| `JsonReader.FlatJsonReader.Key` | cpp/include/ma2a/wire_parse.hpp:52-56 | accepts any token that means the expected key, followed by a colon |
| `JsonReader.FlatJsonReader.Integer` | cpp/include/ma2a/wire_parse.hpp:105-120 | reads an optional sign and digits; the value fits an int64 or the overflow is reported |
| `JsonReader.FlatJsonReader.Done` | cpp/include/ma2a/wire_parse.hpp:122 | holds if and only if nothing is left to read |
| `JsonGrammar.HexDigitIsPlace` | cpp/include/ma2a/wire_parse.hpp:35-40 | a hexadecimal digit stands for its place among the sixteen numerals, in lower and upper case alike |
| `JsonGrammar.HexValueOrder` | cpp/include/ma2a/wire_parse.hpp:125-131 | of two escapes that first differ in some digit, the one with the greater digit there has the greater value |
| `JsonGrammar.ShortEscapeTable` | cpp/include/ma2a/wire_parse.hpp:72-80 | exactly the eight escapes of RFC 8259 are accepted, with the code points that it tabulates |
| `JsonGrammar.PairsCount` | cpp/include/ma2a/wire_parse.hpp:91 | surrogate pairs count the supplementary code points one by one, from U+10000 to U+10FFFF |
| `JsonReader.ReadStringFailsExactly` | cpp/include/ma2a/wire_parse.hpp:58-103 | `string()` throws a given error if and only if the input does not begin with a quote, or after well-formed pieces has exactly the fault of that error |
| `JsonReader.KeyIsRefused` | cpp/include/ma2a/wire_parse.hpp:52-56 | a key is refused for what it means, and next for a missing colon |
| `JsonReader.IntegerFailsExactly` | cpp/include/ma2a/wire_parse.hpp:105-120 | the end of the text, a missing digit and an overflow are the only failures, each with its own error |
| `TokenUtf8.EscapeIsOneCharacter` | cpp/include/ma2a/wire_parse.hpp:81-97 | every escape, surrogate pairs included, decodes to exactly one well-formed character |
| `TokenUtf8.DecodingKeepsUtf8` | cpp/include/ma2a/wire_parse.hpp:58-103 | a string body is well-formed UTF-8 if and only if what it decodes to is: escapes never complete or break a raw multi-byte character |
| `TokenUtf8.ReadStringKeepsUtf8` | cpp/include/ma2a/wire_parse.hpp:58-103 | the token that `string()` reads, quotes included, is well-formed UTF-8 if and only if the value it returns is |
| `FlatObject.DecimalAccumulates` | cpp/include/ma2a/wire_parse.hpp:114-119 | accumulating the decimal digits of any natural number gives that number back |
| `FlatObject.ReadDigitsExact` | cpp/include/ma2a/wire_parse.hpp:114-119 | digits are read to their value, and overflow is reported exactly when the value exceeds the greatest int64 |
| `FlatObject.ReadIntegerSound` | cpp/include/ma2a/wire_parse.hpp:105-120 | whatever `integer()` returns is the value of an optional sign and all the digits at the cursor |
| `FlatObject.ReadMembersComplete` | cpp/include/ma2a/wire_parse.hpp:201-213 | members with the expected keys and kinds, however their tokens are escaped, are read in order to their values |
| `FlatObject.ReadMembersSound` | cpp/include/ma2a/wire_parse.hpp:201-213 | whatever is read was such members: they are constructed from the input |
| `FlatObject.ReadObjectExact` | cpp/include/ma2a/wire_parse.hpp:199-214 | a payload is read to given values if and only if it is one object with the expected members, in order, that mean them, and nothing more |
| `FlatObject.ReadMembersOverflow` | cpp/include/ma2a/wire_parse.hpp:105-120 | if the members have the expected shape, a number that is too large is the only failure |
| `FlatObject.TrailingIsRefused` | cpp/include/ma2a/wire_parse.hpp:213 | anything behind an object that is as expected is refused as trailing data |
| `FlatObject.MembersPrefixFree` | cpp/include/ma2a/canonical.hpp:36-72 | two objects with the same keys and the same text have the same text in every member |
| `FlatObject.NextText` | cpp/include/ma2a/wire_parse.hpp:203 | one step of the parsers for a string member: separator, key and value read as the specification says, or the same error |
| `FlatObject.NextNumber` | cpp/include/ma2a/wire_parse.hpp:202 | the same step for a number member |
| `FlatObject.Finish` | cpp/include/ma2a/wire_parse.hpp:212-213 | the closing brace and the end of the text, or the error for trailing data |
| `JsonPrinter.EscapeByte` | cpp/include/ma2a/canonical.hpp:15-30 | the switch prints a well-formed piece of the grammar that means exactly the byte |
| `JsonPrinter.BytePiecesMean` | cpp/include/ma2a/canonical.hpp:11-34 | what `json_string` prints for any byte string means that byte string |
| `JsonPrinter.BytePieceIsCanonical` | cpp/include/ma2a/canonical.hpp:15-30 | each byte is printed by the shortest piece that means it, with lower-case hexadecimal digits, and no other such piece is as short |
| `JsonPrinter.IntegerIsShortest` | cpp/include/ma2a/canonical.hpp:40-41 | an integer is printed in the shortest text that reads back as it, and zero without a sign |
| `JsonPrinter.JsonString` | cpp/include/ma2a/canonical.hpp:11-34 | the loop prints a token made of those pieces |
| `JsonPrinter.ObjectStream.Append` | cpp/include/ma2a/canonical.hpp:39-53 | prints the right separator before each member, so the stream stays a prefix of the object of all fields |
| `JsonPrinter.ObjectStream.Close` | cpp/include/ma2a/canonical.hpp:54-55 | what has been streamed is the object whose members write the fields, in order |
| `JsonPrinter.ReadWritten` | cpp/include/ma2a/wire_parse.hpp:195-236 | an object that writes some fields by any tokens is read back to the fields, or overflows exactly when a number does not fit |
| `JsonPrinter.PrintingInjective` | cpp/include/ma2a/canonical.hpp:36-72 | records with the same layout and the same printed form have the same fields, null apart from every string |
| `Envelope.CrossQuoted` | cpp/include/ma2a/wire_parse.hpp:149-169 | the scanner crosses every string token, whatever braces, quotes or backslashes it contains, with depth unchanged and outside strings again |
| `Envelope.CrossObject` | cpp/include/ma2a/wire_parse.hpp:149-169 | the scan of any flat object ends exactly at its closing brace |
| `Envelope.ScansAsObjectExactly` | cpp/include/ma2a/wire_parse.hpp:145-170 | the scanner accepts a payload if and only if its braces outside strings, nested to any depth, first balance at its end |
| `Envelope.FindPayloadEnd` | cpp/include/ma2a/wire_parse.hpp:145-170 | the loop returns the index of the brace where the scan ends, or its error |
| `Envelope.Split` | cpp/include/ma2a/wire_parse.hpp:137-187 | the scanner and the suffix checks compute the split that `SplitExact` characterises |
| `Envelope.SplitExact` | cpp/include/ma2a/wire_parse.hpp:137-187 | a text splits into payload and type if and only if it is their joined form, the payload is one object by the scanner's count and the type has no quote |
| `Envelope.SplitOfObject` | cpp/include/ma2a/wire.hpp:50-56 | the envelope of any object of the grammar splits back into exactly that object and its type |
| `Envelope.SplitNeverMisnested` | cpp/include/ma2a/wire_parse.hpp:167 | on no input is the error for negative depth thrown |
| `Envelope.SplitFailsExactly` | cpp/include/ma2a/wire_parse.hpp:139-181 | each of the five errors of splitting and the exact shape of the text that causes it |
| `Messages.CanonicalJobRequestJson` | cpp/include/ma2a/canonical.hpp:36-56 | field by field printing yields the object of the eleven fields in sorted order, an empty organization as null |
| `Messages.CanonicalJobResultJson` | cpp/include/ma2a/canonical.hpp:58-72 | the same for the nine fields of a result |
| `Messages.SignedJobRequestJson` | cpp/include/ma2a/wire.hpp:11-31 | the same with the signature in its sorted place |
| `Messages.SignedJobResultJson` | cpp/include/ma2a/wire.hpp:33-48 | the same with the signature in its sorted place |
| `Messages.CanonicalFailureNoticeJson` | cpp/include/ma2a/failure_notice.hpp:12-25 | the same for the eight fields of a failure notice |
| `Messages.SignedFailureNoticeJson` | cpp/include/ma2a/failure_notice.hpp:27-41 | the same with the signature in its sorted place |
| `Messages.JobRequestEnvelopeJson` | cpp/include/ma2a/wire.hpp:50-52 | the signed object joined with its type |
| `Messages.JobResultEnvelopeJson` | cpp/include/ma2a/wire.hpp:54-56 | the signed object joined with its type |
| `Messages.FailureNoticeEnvelopeJson` | cpp/include/ma2a/failure_notice.hpp:43-45 | the signed object joined with its type |
| `Layout.CanonicalRequestLayout` | cpp/include/ma2a/canonical.hpp:39-54 | the text is, member by member, the streamed one: separator, key and the value of the field that belongs to the key |
| `Layout.CanonicalResultLayout` | cpp/include/ma2a/canonical.hpp:60-70 | the same for a result |
| `Layout.CanonicalNoticeLayout` | cpp/include/ma2a/failure_notice.hpp:14-23 | the same for a failure notice |
| `Layout.SignedRequestLayout` | cpp/include/ma2a/wire.hpp:13-29 | the same for a signed request |
| `Layout.SignedResultLayout` | cpp/include/ma2a/wire.hpp:35-46 | the same for a signed result |
| `Layout.SignedNoticeLayout` | cpp/include/ma2a/failure_notice.hpp:29-39 | the same for a signed notice |
| `Layout.KeysSpelled` | cpp/include/ma2a/canonical.hpp:39-70 | how each key is spelled |
| `Layout.EnvelopeLayouts` | cpp/include/ma2a/wire.hpp:50-56 | the literal text around each of the three signed objects |
| `Messages.WireEnvelopeType` | cpp/include/ma2a/wire_parse.hpp:191-193 | the type found by the split, or its error |
| `Messages.ParseJobResultEnvelope` | cpp/include/ma2a/wire_parse.hpp:195-215 | the sequence of reader calls computes the parse that `ParseResultExact` characterises, error for error |
| `Messages.ParseFailureNoticeEnvelope` | cpp/include/ma2a/wire_parse.hpp:217-236 | the sequence of reader calls computes the parse that `ParseNoticeExact` characterises, error for error |
| `RoundTrip.ResultRoundTrip` | cpp/include/ma2a/wire.hpp:33-56 | every result, whatever bytes its fields hold, is parsed back exactly from its envelope, unless its number does not fit, which is the one way to fail |
| `RoundTrip.NoticeRoundTrip` | cpp/include/ma2a/failure_notice.hpp:27-45 | the same for every failure notice |
| `RoundTrip.ParseWrittenResult` | cpp/include/ma2a/wire_parse.hpp:195-215 | any text that writes a result's fields in order, escaped in any way, is parsed to that result |
| `RoundTrip.ParseResultExact` | cpp/include/ma2a/wire_parse.hpp:195-215 | a text parses to a result if and only if it is a `JOB_RESULT` envelope around an object of the grammar with these keys that means its fields |
| `RoundTrip.ParseNoticeExact` | cpp/include/ma2a/wire_parse.hpp:217-236 | the same characterisation for a failure notice |
| `RoundTrip.OtherEnvelopesAreRefused` | cpp/include/ma2a/wire_parse.hpp:191-219 | an envelope of another type is refused for its type, and a text that is no envelope with the error of splitting it |
| `CanonicalForms.CanonicalUnambiguous` | cpp/include/ma2a/canonical.hpp:36-72 | two messages of any kinds have the same canonical bytes if and only if they are of one kind and equal up to the signature |
| `CanonicalForms.TargetsHaveDifferentBytes` | cpp/include/ma2a/canonical.hpp:36-56 | requests to different targets never share canonical bytes |
| `PythonWire.CharPiecesMean` | reference/python/ma2a/transport.py:27-31 | the ASCII escapes Python prints, surrogate pairs included, are well-formed and mean the UTF-8 form of the string |
| `PythonWire.CharPieceIsCanonical` | reference/python/ma2a/transport.py:27-31 | each character is escaped by the shortest ASCII piece with lower-case digits that means it, and no other is as short |
| `PythonWire.SortedOnce` | reference/python/ma2a/auth.py:26-27 | the same items have only one listing in ascending key order |
| `PythonWire.DumpsExact` | reference/python/ma2a/auth.py:26-27 | the text of a dict is that of any ascending listing of its items |
| `PythonWire.ResultFieldsAscend` | cpp/include/ma2a/canonical.hpp:58-72 | the order in which C++ prints a result is the order of sorted keys |
| `PythonWire.RequestFieldsAscend` | cpp/include/ma2a/canonical.hpp:36-56 | the order in which C++ prints a request is the order of sorted keys |
| `PythonWire.NoticeFieldsAscend` | PROTOCOL_LIMITS.md:10 | failure notices too are printed in the order of sorted keys |
| `PythonWire.PythonResultIsParsed` | reference/python/ma2a/transport.py:26-34 | every body Python sends for a result is parsed by the C++ reader to the same record with its strings in UTF-8 |
| `PythonWire.PythonAlwaysHasABody` | reference/python/ma2a/transport.py:26-34 | every result has such a body |
| `PythonWire.EscapesAgree` | cpp/include/ma2a/canonical.hpp:11-34 | the two languages escape a string alike if and only if it has no character above `~` |
| `PythonWire.ObjectsAgree` | reference/python/ma2a/auth.py:26-27 | two printed objects agree if and only if every string in them does |
| `PythonWire.CanonicalResultAgrees` | reference/python/ma2a/auth.py:26-27 | both languages sign the same bytes for a result if and only if no string has a character above `~` |
| `PythonWire.CanonicalRequestAgrees` | reference/python/ma2a/job.py:40-43 | for a request the organization must moreover not be the empty string |
| `PythonWire.AccentBreaksByteIdentity` | PROTOCOL_LIMITS.md:10-11 | a concrete result for which the two languages sign different bytes |
| `Framing.Encode` | cpp/include/ma2a/framing.hpp:14-30 | pushes the four length bytes and the body; throws for an empty or too long one |
| `Framing.HeaderRoundTrip` | cpp/include/ma2a/framing.hpp:32-37 | reading the big-endian bytes gives every 32-bit number back |
| `Framing.HeaderUnique` | cpp/include/ma2a/framing.hpp:23-27 | and every four bytes are those of the number they denote |
| `Framing.HeaderOrder` | cpp/include/ma2a/framing.hpp:24-27 | the length is big-endian: headers are ordered byte by byte as the numbers are |
| `Framing.FrameBounds` | PROTOCOL_LIMITS.md:5-7 | exactly the bodies of 1 to 1048576 bytes have a frame, and each refusal has its own error |
| `Framing.FramesAreInverse` | cpp/include/ma2a/framing.hpp:14-57 | a frame decodes to a payload if and only if the payload encodes to the frame |
| `Framing.RefusalsAgree` | cpp/include/ma2a/framing.hpp:14-57 | for every body whose length fits the header, decoding its frame refuses it with exactly the error of encoding it |
| `Stream.Socket.Send` | cpp/include/ma2a/tcp.hpp:44-57 | the loop writes what `SendAllSound` describes, on every schedule of partial sends and interruptions |
| `Stream.Socket.Receive` | cpp/include/ma2a/tcp.hpp:59-75 | the loop fills its buffer as `RecvExactSound` describes, or throws the error of the call that failed |
| `Stream.Socket.SendFramed` | cpp/include/ma2a/tcp.hpp:77-79 | nothing is written when the frame cannot be built; otherwise the frame is sent |
| `Stream.Socket.ReceiveFramed` | cpp/include/ma2a/tcp.hpp:81-87 | receives the header, checks it and receives the body, with the error of whichever fails |
| `Stream.SendAllSound` | cpp/include/ma2a/tcp.hpp:44-57 | what is written is a prefix of the data on every schedule, and all of it exactly when there is no error |
| `Stream.RecvExactSound` | cpp/include/ma2a/tcp.hpp:59-75 | a successful receive takes exactly the next bytes of the stream, however it was cut |
| `Stream.RecvFramedSound` | cpp/include/ma2a/tcp.hpp:81-87 | whatever is received as a payload stood framed at the front of the stream |
| `Stream.RecvFramedComplete` | cpp/include/ma2a/tcp.hpp:81-87 | from a stream that begins with a frame, its payload and no further byte is taken, unless the network fails |
| `Stream.BadHeaderIsRefused` | cpp/include/ma2a/tcp.hpp:81-87 | a header that announces no frame is refused with its own error, unless the network fails first |
| `Stream.FramesCrossTheStream` | cpp/include/ma2a/tcp.hpp:44-87 | for every list of payloads and every two schedules, what a sender completes is received in order, payload by payload, leaving the bytes behind the last frame |
| `Stream.RecvFramesSteady` | cpp/include/ma2a/tcp.hpp:59-87 | a schedule of enough transfers and interruptions delivers all payloads |
| `Stream.SendAllSteady` | cpp/include/ma2a/tcp.hpp:44-57 | a schedule with a transfer for every byte ends a send without an error, however the data is cut |
| `Stream.SendFramesSteady` | cpp/include/ma2a/tcp.hpp:44-79 | and so all frames of a list are sent whole |
| `Stream.SendStops` | cpp/include/ma2a/tcp.hpp:52-55 | a send fails with the error of the first call that neither moves data nor is interrupted |
| `Stream.ReceiveStops` | cpp/include/ma2a/tcp.hpp:68-72 | so does a receive, and it reports a closed connection only where nothing could be moved |
| `Base64Url.ReplaceIn` | cpp/include/ma2a/crypto.hpp:29-30 | replaces one character everywhere in the buffer, in place |
| `Base64Url.Encode` | cpp/include/ma2a/crypto.hpp:19-32 | the buffer becomes the encoding that `EncodingShape` and `UrlRoundTrip` describe |
| `Base64Url.Decode` | cpp/include/ma2a/crypto.hpp:34-50 | the buffer is decoded and trimmed, or the length or an alien character is refused |
| `Base64Url.EncodingShape` | cpp/include/ma2a/crypto.hpp:19-32 | four characters for every three bytes begun, the alphabet of section 5 of RFC 4648, and padding exactly for the bytes missing at the end |
| `Base64Url.SymbolTable` | cpp/include/ma2a/crypto.hpp:22-26 | the symbols are those of Table 1 of RFC 4648, in its order |
| `Base64Url.GroupIsOneNumber` | cpp/include/ma2a/crypto.hpp:22-26 | three bytes and their four symbols are one number of 24 bits |
| `Base64Url.UrlSymbols` | cpp/include/ma2a/crypto.hpp:29-30 | the URL-safe form has `-` exactly where the plain one has `+`, `_` where it has `/`, and is the same elsewhere |
| `Base64Url.DecodingFailsExactly` | cpp/include/ma2a/crypto.hpp:37-44 | a text is refused for a length that is not a multiple of four, and next for a character outside both alphabets |
| `Base64Url.BlockRoundTrip` | cpp/include/ma2a/crypto.hpp:22-44 | a plain base64 block decodes to its input, zero filled |
| `Base64Url.BlockPadding` | cpp/include/ma2a/crypto.hpp:46-47 | the two trimming checks count exactly the missing bytes in all three residues |
| `Base64Url.UrlRoundTrip` | cpp/include/ma2a/crypto.hpp:19-50 | decoding inverts encoding for every byte sequence |
| `Base64Url.SpareBitsAreIgnored` | cpp/include/ma2a/crypto.hpp:34-50 | decoding is not injective: every encoding whose last group holds one byte has another spelling that decodes to the same bytes |
| `Signing.SignJobRequest` | cpp/include/ma2a/job_auth.hpp:9-16 | a request is signed over its canonical form with the algorithm already set, or the missing key is refused |
| `Signing.SignJobResult` | cpp/include/ma2a/job_auth.hpp:18-25 | the same for a result |
| `Signing.SignFailureNotice` | cpp/include/ma2a/failure_notice.hpp:47-50 | the same for a failure notice, where a missing key makes the signing itself fail |
| `Signing.SigningChangesOnlySignature` | cpp/include/ma2a/job_auth.hpp:9-25 | signing changes nothing but algorithm and signature in all three kinds of message, and the signature is that of the signed record itself |
| `Signing.VerifiesExactly` | cpp/include/ma2a/job_auth.hpp:27-39 | a result or notice verifies if and only if there is a key, it names Ed25519 and its signature text decodes to that key's signature of its other fields |
| `Signing.ResultIsTamperEvident` | cpp/include/ma2a/job_auth.hpp:18-39 | a record whose signature text, however spelled, decodes to the signature of a signed result verifies if and only if it equals that result in every other field and the key is the signer's |
| `Signing.NoticeIsTamperEvident` | cpp/include/ma2a/failure_notice.hpp:47-63 | the same for a failure notice |
| `Signing.RespelledResultVerifies` | cpp/include/ma2a/job_auth.hpp:27-39 | a signed result with another signature text verifies if and only if the text decodes to the same bytes |
| `Signing.SignatureTextIsMalleable` | cpp/include/ma2a/job_auth.hpp:27-39 | for signatures of 64 bytes there always is such another text, so a different record that verifies |
| `Signing.VerifiedResultWasSigned` | cpp/include/ma2a/job_auth.hpp:27-39 | a verified result carries the key holder's signature of its own unsigned fields |
| `Signing.SignedResultArrives` | cpp/include/ma2a/tcp.hpp:77-87 | a result signed, printed, framed, sent and received in any pieces, split and parsed is the signed result and verifies, unless the network fails |
| `Signing.SignedNoticeArrives` | cpp/include/ma2a/failure_notice.hpp:27-63 | the same for a failure notice |
| `Signing.PythonSignatureInCpp` | reference/python/ma2a/job.py:105-109 | a result signed and sent by Python is always parsed by C++, but verifies there if and only if it is in the common character range |
| `PythonReader.LoadsOnce` | reference/python/ma2a/transport.py:41 | a text is read as at most one list of items |
| `PythonReader.RequestKeepsUtf8` | cpp/include/ma2a/wire.hpp:11-31 | the envelope of a request is well-formed UTF-8 if and only if all its strings are |
| `PythonReader.ItemsAreTheDict` | cpp/include/ma2a/wire.hpp:13-29 | what C++ prints of a request has exactly the items of the Python dataclass, every field under its own key |
| `PythonReader.CppRequestIsReceived` | reference/python/ma2a/transport.py:37-46 | Python receives the envelope of a C++ request if and only if all its strings are UTF-8, and then as the dict of the same request in the dataclass's own listing, with None for an empty organization |
| `PythonReader.CppSignatureInPython` | reference/python/ma2a/job.py:94-102 | a request that C++ signs and sends verifies over Python's own canonical bytes if and only if no string in it has a character above `~` |
| `Conflict.KeyTrichotomy` | reference/python/ma2a/conflict.py:27-34 | of two keys exactly one precedes the other unless they are equal |
| `Conflict.KeyTransitive` | reference/python/ma2a/conflict.py:27-34 | the order of keys is transitive |
| `Conflict.KeyDetermines` | reference/python/ma2a/conflict.py:27-34 | keys are equal if and only if the five fields are |
| `Conflict.KeyOrderIsCodePointOrder` | reference/python/ma2a/conflict.py:27-34 | comparing encoded identifiers compares the identifiers by code point |
| `Conflict.ConcurrentWinnerIsSymmetric` | reference/python/ma2a/conflict.py:53-62 | of two concurrent deltas the same one wins whichever is local |
| `Conflict.InadmissibleIsRejected` | reference/python/ma2a/conflict.py:44-48 | a replay or a delta out of scope changes no replica, and a replay is rejected as one whatever its scope |
| `Conflict.AdmissibleAnswers` | reference/python/ma2a/conflict.py:50-66 | the four answers to any other delta, by whether it extends, outdoes or competes with the replica or comes before its base |
| `Conflict.RejectionsOfLaterReplicas` | reference/python/ma2a/conflict.py:44-66 | replicas agree on replays and scope; a delta whose version is passed stays stale for every newer replica, and an unresolved one is accepted once its base is reached |
| `Conflict.DeliverIsGreaterExactly` | reference/python/ma2a/conflict.py:37-66 | a delivery keeps the greater key if and only if it extends the replica's version or does not exceed it |
| `Conflict.ReplicaIsGreatest` | reference/python/ma2a/conflict.py:37-66 | after deliveries that each met a replica they extend or are behind, the state is the greatest of all of them |
| `Conflict.InOrderExactly` | reference/python/ma2a/conflict.py:37-66 | eligible deliveries each meet such a replica if and only if the state is the greatest of what has arrived after every one of them |
| `Conflict.CausalIsInOrder` | spec/conflict-resolution.md:57-61 | in causal order, deltas that jump over no occupied version always meet such a replica |
| `Conflict.ReplicasConverge` | spec/conflict-resolution.md:57-61 | from one initial state, any two causally admissible orders of the same eligible deltas with distinct keys, duplicates allowed, end in the same state, the one with the greatest key, if no delta jumps over the initial version or that of another |
| `Conflict.OneStepsConverge` | spec/conflict-resolution.md:57-61 | deltas one version forward meet both conditions |
| `Conflict.ReplicaIgnoresInadmissible` | reference/python/ma2a/conflict.py:44-48 | a replica is what its admissible deliveries alone make it |
| `Conflict.HistoriesConverge` | spec/conflict-resolution.md:57-61 | so whole histories with replays and deltas out of scope among them converge, if the admissible ones do |
| `Conflict.CausalHistoriesExactly` | spec/conflict-resolution.md:57-61 | over a pool of eligible deltas every causal history keeps the replica at the greatest of what has arrived if and only if no deliverable delta jumps |
| `Conflict.VersionJumpsDiverge` | reference/python/ma2a/conflict.py:50-63 | two valid descendants that jump to different versions: the first to arrive wins |
| `Conflict.DisorderDiverges` | reference/python/ma2a/conflict.py:65-66 | a delta that arrives before its base is lost |
| `Conflict.DeliveriesCommuteExactly` | reference/python/ma2a/conflict.py:37-66 | the exact condition, on versions and keys, under which two eligible deltas may arrive in either order |
| `Orchestrator.ExecutionFailoverOrchestrator.Create` | cpp/include/ma2a/execution_orchestrator.hpp:32-36 | an orchestrator in its initial state, or the error for an empty request or zero attempts |
| `Orchestrator.ExecutionFailoverOrchestrator.IsExhausted` | cpp/include/ma2a/execution_orchestrator.hpp:39-47 | once it holds no attempt can begin on any node, and while it does not every fresh node can be tried |
| `Orchestrator.ExecutionFailoverOrchestrator.BeginAttempt` | cpp/include/ma2a/execution_orchestrator.hpp:41-47 | a new attempt in flight, or the first violated condition with the state unchanged |
| `Orchestrator.ExecutionFailoverOrchestrator.AcceptAuthenticatedFailure` | cpp/include/ma2a/execution_orchestrator.hpp:49-57 | the node is excluded and its attempt, if it is the last, marked failed; an error leaves the state unchanged |
| `Orchestrator.ExecutionFailoverOrchestrator.AcceptAuthenticatedResult` | cpp/include/ma2a/execution_orchestrator.hpp:59-68 | the execution completes with the result; an error leaves the state unchanged |
| `Orchestrator.BeginExactly` | cpp/include/ma2a/execution_orchestrator.hpp:41-47 | exactly when an attempt can begin, and which of the violated conditions names the error |
| `Orchestrator.EvidenceExactly` | cpp/include/ma2a/execution_orchestrator.hpp:49-68 | the same for failures and results |
| `Orchestrator.EvidenceOfAnotherNode` | cpp/include/ma2a/execution_orchestrator.hpp:54-67 | evidence about another node than the one attempted last marks no attempt; the failure still excludes and the result still completes |
| `Orchestrator.CallsKeepLimit` | cpp/include/ma2a/execution_orchestrator.hpp:41-68 | after any sequence of calls, thrown or not: at most the permitted attempts, none taken back or renamed, exclusions only grow, exhaustion and completion are final, and there is a successful result for this request exactly when completed |
| `Orchestrator.NodeCanBeTriedTwice` | cpp/include/ma2a/execution_orchestrator.hpp:41-47 | unlike the engine, the orchestrator alone lets a node be tried twice |
| `Engine.ResilientExecutionEngine.Execute` | cpp/include/ma2a/resilient_execution.hpp:42-73 | the loop over the mutable lifecycle computes the run of which the lemmas below speak, throws included |
| `Engine.StepKeepsLifecycle` | cpp/include/ma2a/resilient_execution.hpp:47-70 | each iteration keeps: failed attempts on pairwise distinct nodes, exclusion exactly of those nodes, at most the permitted number, and a result only from the last node |
| `Engine.RunKeepsLifecycle` | cpp/include/ma2a/resilient_execution.hpp:47-72 | so it holds at the end of every run that does not throw, for any routing and any executor |
| `Engine.RunStopsForNoRoute` | cpp/include/ma2a/resilient_execution.hpp:47-49 | a run that ends neither completed nor exhausted was told that no node is left |
| `EngineRuns.ExecuteEndsWell` | cpp/include/ma2a/resilient_execution.hpp:42-73 | under the contracts of routing and executor the call throws only for an empty request or no attempts, and its outcome is one of the three ends |
| `EngineRuns.StepThrowsExactly` | cpp/include/ma2a/resilient_execution.hpp:48-69 | an iteration throws if and only if routing or the executor breaks its contract |
| `EngineRuns.StepErrors` | cpp/include/ma2a/resilient_execution.hpp:50-68 | and the error says which contract |
| `EngineRuns.ExecuteAsksOnlyForOriginal` | cpp/include/ma2a/resilient_execution.hpp:42-57 | the engine asks routing about the original request and the executor about it with only the target changed: environments that answer these alike give the same outcome |
| `EngineRuns.ExecuteIsLinearScan` | cpp/include/ma2a/resilient_execution.hpp:42-73 | for every list of nodes, set of bad nodes and limit, the engine tries the distinct candidates up to the first good one, and completes if and only if that lies within the limit |
| `EngineRuns.CandidatesAreDistinct` | cpp/include/ma2a/resilient_execution.hpp:48-51 | the candidates are exactly the distinct non-empty nodes of the list |
| `EngineRuns.Route` | cpp/include/ma2a/resolutive_routing_adapter.hpp:18-36 | the loop hands the router exactly the nodes that are not excluded, with the job's identity |
| `EngineRuns.EligibleExact` | cpp/include/ma2a/resolutive_routing_adapter.hpp:28-32 | a node is offered if and only if it is known and not excluded |
| `EngineRuns.EligibleConcat` | cpp/include/ma2a/resolutive_routing_adapter.hpp:28-32 | the nodes offered keep their order |
| `EngineRuns.RouterSeesOnlyTheJob` | cpp/include/ma2a/resolutive_routing_adapter.hpp:21-34 | the router is asked only with the job's identity, sender and organization, each in its place |
| `EngineRuns.AdapterExcludes` | cpp/include/ma2a/resolutive_routing_adapter.hpp:28-35 | no excluded or unknown node is ever selected |
| `EngineRuns.SmallNetworksAreNotExhausted` | cpp/include/ma2a/resolutive_routing_adapter.hpp:28-35 | over fewer distinct nodes than permitted attempts no run is exhausted: it completes or has no route left |
| `Executor.MakeLocalFailure` | cpp/include/ma2a/authenticated_tcp_executor.hpp:100-121 | the locally signed notice about the attempted node, with the given reason |
| `Executor.Judge` | cpp/include/ma2a/authenticated_tcp_executor.hpp:64-96 | the verdict on a received reply, in the order of the source's checks |
| `Executor.Call` | cpp/include/ma2a/authenticated_tcp_executor.hpp:48-97 | the whole call: the two throws, the endpoint, the signed request on the wire and the verdict |
| `Executor.AcceptsExactly` | cpp/include/ma2a/authenticated_tcp_executor.hpp:66-78 | an attempt yields a result if and only if the reply parses to it, answers this request from this node to this sender with status OK and verifies under the node's key |
| `Executor.FailureIsBelievedOrLocal` | cpp/include/ma2a/authenticated_tcp_executor.hpp:80-96 | a reported failure is a parsed notice about this attempt that verifies under its reporter's key, or this node's own notice; every such notice is passed on |
| `Executor.CallThrowsExactly` | cpp/include/ma2a/authenticated_tcp_executor.hpp:49-51 | the two throws of the call, for a missing target and for another one; apart from them it always answers |
| `Executor.OnlySignedRequestsAreSent` | cpp/include/ma2a/authenticated_tcp_executor.hpp:53-63 | nothing but the request with this node's signature, and only to the target's endpoint, is ever sent: networks that answer it alike give the same response |
| `Executor.RespondsToReply` | cpp/include/ma2a/authenticated_tcp_executor.hpp:53-96 | without an endpoint the reason is that, without a reply it is the transport, and a reply gets its verdict |
| `Executor.UnreadableReplies` | cpp/include/ma2a/authenticated_tcp_executor.hpp:64-96 | a reply that cannot be split or parsed counts as no reply, and one of another type is not supported |
| `Executor.ResultVerdict` | cpp/include/ma2a/authenticated_tcp_executor.hpp:67-77 | a parsed result is judged by its contract first and its signature second, with the reason of the first that fails |
| `Executor.NoticeVerdict` | cpp/include/ma2a/authenticated_tcp_executor.hpp:81-90 | the same for a parsed notice |
| `Executor.LocalFailureIsHonest` | cpp/include/ma2a/authenticated_tcp_executor.hpp:100-121 | a local failure says who reports which node for which request, why and when, and verifies under this node's key |
| `Executor.ExecutorAttemptsWell` | cpp/include/ma2a/authenticated_tcp_executor.hpp:48-121 | against any network the executor returns exactly one piece of evidence, authenticated and about the attempted node |
| `Executor.EndToEndSafety` | cpp/include/ma2a/resilient_execution.hpp:42-73 | for any routing that keeps its contract and any network, the call returns, the lifecycle holds, and completion means a verified OK result for this request from the last attempted node to the original sender |
| `Executor.HonestNodeCompletes` | cpp/include/ma2a/authenticated_tcp_executor.hpp:66-78 | the envelope of a result that the node signed with its key is accepted |
| `Executor.ForeignSignatureIsRefused` | cpp/include/ma2a/authenticated_tcp_executor.hpp:74-76 | a result that carries a signature in any spelling is refused if the signature is another key's or any other field was changed after signing |
| `RouteMemory.ResolutiveRouteMemory.ResolveCondition` | reference/python/ma2a/rm_bridge.py:49-80 | a hit, a registered answer or an error, also when resolver or validator raises, with the new contents of both dictionaries and the counter |
| `RouteMemory.ResolutiveRouteMemory.ImportDelta` | reference/python/ma2a/rm_bridge.py:119-145 | for payload members of any JSON kind: the record registered, the first failing check, or the error between the two writes, with the contents each leaves |
| `RouteMemory.SameDictKey` | reference/python/ma2a/rm_bridge.py:128-144 | two payload keys are one key of the dictionary if and only if they are the same string or equal scalars |
| `RouteMemory.ResolveExactly` | reference/python/ma2a/rm_bridge.py:56-80 | a known condition is a hit that changes nothing; an unknown one succeeds only on an accepted answer, which is what is returned and registered; the resolver is counted whenever it is asked |
| `RouteMemory.ResolvingLeavesOthers` | reference/python/ma2a/rm_bridge.py:40-80 | resolving a condition leaves the answer to every differently normalised one as it was |
| `RouteMemory.ImportingLeavesOthers` | reference/python/ma2a/rm_bridge.py:119-145 | so does importing another condition's route |
| `RouteMemory.NeverLearnedIsUnknown` | reference/python/ma2a/rm_bridge.py:56-63 | a condition that no operation of a history concerned is unknown |
| `RouteMemory.ImportAcceptsExactly` | reference/python/ma2a/rm_bridge.py:119-145 | every condition under which a delta is imported, and that what is registered is what it says |
| `RouteMemory.ImportErrors` | reference/python/ma2a/rm_bridge.py:120-134 | each check has its own error and its place in the order |
| `RouteMemory.ExportCarries` | reference/python/ma2a/rm_bridge.py:91-117 | every field of the delta that an export decodes to |
| `RouteMemory.RegisterKeepsIndexExactly` | reference/python/ma2a/rm_bridge.py:143-144 | registering a derived record keeps the dictionaries one index if and only if its address is not taken by another condition |
| `RouteMemory.AddressIsInjective` | reference/python/ma2a/rm_bridge.py:44-47 | if no key prints a bar, an address determines what key and result print |
| `RouteMemory.BarredKeyDisplaces` | reference/python/ma2a/rm_bridge.py:119-145 | an import whose key reaches past a bar into another route's result is accepted, takes that route's address, breaks the index and replaces its answer |
| `RouteMemory.ScalarKeyDisplaces` | reference/python/ma2a/rm_bridge.py:128-144 | so is an import whose key is not a string but prints like the key of a stored condition |
| `RouteMemory.FiveDisplacesItsText` | reference/python/ma2a/rm_bridge.py:128-144 | a concrete history of two accepted imports, with the keys "5" and 5, that breaks the index without a bar |
| `RouteMemory.HistoriesKeepIndex` | reference/python/ma2a/rm_bridge.py:49-145 | after any sequence of resolves and imports whose keys are strings without a bar, every condition maps to its own record under its derived address |
| `RouteMemory.HistoriesKeepLinks` | reference/python/ma2a/rm_bridge.py:56-60 | after any history at all every condition maps to some record, so a lookup by address cannot fail |
| `RouteMemory.RejectionChangesNothingExactly` | reference/python/ma2a/rm_bridge.py:62-68 | a rejected resolve leaves both dictionaries as they were; a rejected import changes nothing if and only if it did not fail on an unhashable key, unless it stored the very record that was there |
| `RouteMemory.ListKeyLeavesARecord` | reference/python/ma2a/rm_bridge.py:136-144 | a concrete import, with the key ["x"], that raises and leaves a record no condition leads to |
| `RouteMemory.ImportOfExport` | reference/python/ma2a/rm_bridge.py:82-145 | an exported record without lists or objects is imported unchanged, or refused exactly when its scope is neither shared nor global |
| `RouteMemory.ImportOfExportExactly` | reference/python/ma2a/rm_bridge.py:82-145 | for any record, the import of its export is accepted if and only if the result read back prints as it did |
| `RouteMemory.SharedRouteIsAHit` | reference/python/ma2a/rm_bridge.py:82-145 | after export from A and import into B, B answers every equally normalised condition with A's result and address, as a hit, with no external call |
| `RouteMemory.ResolvedIsAHit` | reference/python/ma2a/rm_bridge.py:49-80 | a resolved condition is afterwards a hit with the same answer, whatever the resolver would say |

## Left out

- Connecting, timeouts, `poll`, address parsing and `SocketHandle`: operating-system plumbing; a socket is a byte stream with a finite schedule of partial transfers, interruptions and failures, and a call after the last event times out.
- Ed25519, key objects and key custody: an ideal scheme in which only the signer's text verifies for a key and a message; `Signing.IdealExists` shows that this hypothesis can be met.
- SHA-256: hexadecimal digits without collisions, so the length of a digest is left open. `RouteMemory.Faithful` names what is assumed of it and of the JSON texts; `FaithfulLibrary.FaithfulExists` shows that this can be met.
- The JSON text of a reference delta (`wire.py`): a faithful transport of the record; its validation and its 64 KiB bound are modelled. Fields of a delta are typed; Python checks no types, but address, scope, digest and payload must be strings for an import to pass its checks, and the import does not use the others.
- An external resolver that calls back into the memory while it is asked, and one that answers with something other than a string.
- `json.loads` beyond flat objects of strings, integers and null, and the checks of `JobRequest.validate` on the Python side; `_recv_exact` is the receiving loop that is proved on the C++ side.
- Lone surrogates in a Python `str`, which `encode("utf-8")` refuses: a `str` is a sequence of scalar values.
- Decode: `EVP_EncodeBlock` and `EVP_DecodeBlock` are plain base64 of section 4 of RFC 4648; OpenSSL's handling of surrounding white space is not modelled, and `=` reads as zero bits wherever it stands.
- SignJobRequest: like SignJobResult and SignFailureNotice, returns the signed record instead of updating one passed by reference, so aliasing between records is not captured.
- The number fields of records are integers of any size; the theorems say where only an int64 is read back.
- `int depth` of the scanner is unbounded: it overflows only on bodies far above the frame limit.
- Undefined behaviour of C++: a signed overflow in `integer()` is the error `IntegerOverflow`.
- Exceptions from a route provider, an endpoint resolver or the local signing routine: these parameters return values, while a network call may fail in any way.
- The resolutive-routing router: its code is not part of this model; its contract is that it selects only from what it is offered.
- `HandshakeVerifier`, `CapabilityAdvertisement`, the job and capability validators, the null checks of constructors: chains of independent field checks.
- The system clock: the time of a local failure is any number.
- Benchmarks, build files, licensing and release documents.
