# Vergerail, modelled and proved in Dafny

Vergerail is a fail-closed client around a pinned app-server. This project models the parts of it that
are algorithms or protocols of their own, and proves what they are for. One module per component; each
algorithm that the source runs step by step is a method with loops or a class with fields, proved equal to a
specification function, and the properties are lemmas about that function.

| component | modules | main results |
|---|---|---|
| native schema normaliser | `Decimal`, `SchemaNormalizer`, `SchemaFixpoint`, `SchemaNaming`, `SchemaMeaning`, `SchemaCorrespondence`, `SchemaRefusals` | instances correspond in both directions (`StripSound`, `FillSound`, `FillExact`); an output is closed and a fixed point exactly when no map of properties reads as a schema (`ClosedIffTame`, `CloseFixed`); a schema is refused exactly when it breaks a condition on its keywords (`CloseExact`); decimal comparison decides numeric equality |
| PNG validator | `Crc32`, `PngStandard`, `PngRaster`, `PngChunks`, `PngGrammar`, `PngValidator`, `PngDamage` | a file is accepted exactly when it is a well-formed sequence of chunks whose data inflate to an image (`ValidAccepted`, `AcceptedValid`), with the size that its bytes announce (`AcceptedBytes`); damage within 32 consecutive bits of a chunk is always rejected (`BurstRejected`) |
| process-group custody | `Guardian` | against any interleaving, no signal after the reap; the leader's own result comes only with a group empty for good, and 70 only after a failed launch, a failed call, or a leader or members that outlived their signals |
| JSON lines and messages | `Bytes`, `Utf8`, `JsonLines`, `Wire` | reading does not depend on how the stream is cut, within bounded memory; how a stream ends is told from its bytes (`StreamEnds`, `StreamStops`); a frame is a message exactly if it has the members of one (`ParseExact`); values are read back exactly when they are not nested too deep and their numbers are kept (`EncodedFramesReadBack`), and then messages arrive as they were meant (`MessagesReadBack`) |
| standard-error capture | `StderrCapture` | the ring holds the newest lines of the stream (`LinesAre`), however it is cut |
| canonical JSON | `Json`, `CanonicalJson` | printing is injective, by a parser that inverts it |
| diagnostic buffer | `Diagnostics`, `DiagnosticRuns` | bounds in every interleaving; the newest diagnostics and an honest overflow marker when takes are whole, and exactly when the marker is lost otherwise |
| login registry | `Logins`, `LoginRuns` | over every run each waiter is owed one result, the first one of its registration |
| billed image operation | `ImageOperation` | at most two dispatches, the second only after a 401, none after a cancellation; an image exactly when one is due (`Due`), and result and history of every run that nobody cancels; which known errors leave a dispatch open |
| screen programs | `ScreenTree` | an accepted program is one tree whose nodes lie inside the viewport |
| Mach-O normaliser | `MachO` | two files normalise alike exactly when they differ in build identifiers only; these are found in any file laid out command by command |

`dafny verify dfyconfig.toml` checks all of it.

## How the source is read

- JSON objects are maps. `serde_json` is used without its `preserve_order` feature, so an object is a sorted map, and its
  compact printer emits the same text as the canonical one. A number is its token in the grammar of section 6 of RFC 8259;
  two tokens of one value (`1.0` and `1.00`) are two JSON values but numerically equal in the schema comparison.
- How `parse_frame` reads a number token is a parameter (`JsonLines.NumberReader`): what the number prints as afterwards,
  or none. `Cargo.toml:39` does not enable the `float_roundtrip` feature of `serde_json`, and without it a float of 16 or
  17 digits may be read as a neighbour. Results on messages assume only that integers of 64 bits are kept.
- A PNG chunk type is its four letters read as one big-endian number, which loses nothing.
- Text is a sequence of Unicode scalar values in `CanonicalJson`; `JsonLines` turns it into bytes with `Utf8`.
- The system, the network and other threads appear as arbitrary choices between the steps of a method (`Kernel`, `Source`,
  `ImageOperationState.Interleave`) or as arbitrary sequences of steps (`DiagnosticRuns`, `LoginRuns`), so that what is
  proved holds in every interleaving.
- zlib, lossy UTF-8 decoding and redaction are parameters: functions of which nothing is assumed.
- Error messages are not kept. The normaliser's errors are all `None`; the other components tell error conditions apart.

## What the code does not keep

Each of these has a lemma or a contract that shows it on an input, and the condition under which the property does hold.

- Normalisation is closed and a fixed point exactly when no map of properties itself reads as an object schema or holds a
  property called `const`: the recursion visits the `properties` map as if it were a schema. `ClosedIffTame` is the
  equivalence, for all schemas whose properties are declared by schemas and whose enumerations list primitives;
  `NamingNeeded` shows the failure on `{"properties":{"properties":{}}}`, which is normalised without an error.
- An optional property that is an `anyOf` with a null variant is left alone even when that variant, restricted by an
  `enum` or a `const`, rejects null. Then null cannot stand for the property (`NullFillExact`), and an instance without it
  may not be completed. An instance lacks such a property at a place reached through items and properties (`Lacks`), or is
  short of it there or inside an `anyOf` variant that takes it (`Short`, which includes the first by `LacksShort`).
  `FillExact` is the equivalence: an instance that is short only if it lacks is completed exactly when it lacks nothing.
  Without that restriction, whatever is not short is completed (`FillSound`), whatever lacks is not (`NullReadyNeeded`),
  and in between both occur (`VariantsDecide`). `FillComplete` is the condition on the schema alone under which nothing is
  ever short, `NullReadyFails` an instance that fails.
- `encode` accepts values of any depth and `parse_frame` only up to 127 nested arrays and objects, the limit of
  `serde_json`; and a number token may not be read as itself. `EncodedFramesReadBack` is the equivalence, both conditions
  included, and `DeepFrameLost` the value with 128 levels.
- `DiagnosticBuffer::take` empties the items and resets the byte count in two critical sections. A push between the two
  can discard a diagnostic and leave no marker (`LostUnmarked`, `FullMarksIff`), and the count is wrong from then on
  (`CountDrifts`). The bounds on what is held survive (`AlwaysBounded`).
- A worker that crashes after it dispatched an image request is reported as a process error, for which the guard is
  disarmed although the outcome is unknown. `Uncancelled`, in the contract of `GenerateImage`, has such a run, `CrashLeavesDispatch`
  says what it leaves behind, and another of its contracts that a known error leaves a dispatch open exactly when the worker
  crashed before an error status was recorded.
- Numbers whose exponents do not fit 32 bits have no canonical form: two of them compare equal whatever they are, and one
  compares different from any other number (`NumbersEqualExact`, `OverflowConflates`, `OverflowSplits`); `FormExact` says
  which numbers have one, from the token's exponent, fraction and trailing zeros. `serde_json` cannot
  hold such numbers without its `arbitrary_precision` feature, so no schema received here contains one; on every number that
  it can hold the comparison is right (`ModerateNumbersEqual`).
- The branch of the PNG loop for a chunk after IEND is unreachable (`NoChunkAfterIend`).

## Model

| member | source | states |
|---|---|---|
| CanonicalJson.WriteCanonicalJson | src/runtime.rs:1518-1549 | appends exactly the canonical text of the value to the output and keeps what was there |
| CanonicalJson.ParsePrinted | src/runtime.rs:1518-1549 | the text of any value, followed by anything but a number character, parses back to that value and what followed |
| CanonicalJson.PrintInjective | src/runtime.rs:1518-1549 | two values print alike exactly when they are the same value, whatever the order of members; the pinned hash loses nothing before hashing |
| CanonicalJson.EscapeTable | src/runtime.rs:1518-1549 | every character of a string is printed as section 7 of RFC 8259 and the compact printer have it |
| CanonicalJson.LiteralText | src/runtime.rs:1518-1549 | the text of literals, numbers and empty containers |
| Json.NumberExample | src/runtime.rs:1518-1549 | a number with sign, fraction and exponent is printed as its token |
| CanonicalJson.PairText | src/runtime.rs:1518-1549 | items stand in order between brackets, with a comma and nothing else between them |
| CanonicalJson.PairMembersText | src/runtime.rs:1518-1549 | members stand in the order of their names between braces, whichever was put in first |
| Json.SortedKeysUnique | src/runtime.rs:1535-1537 | there is one sorted list of an object's keys, so the order of insertion cannot matter |
| Json.LeqIsBefore | src/runtime.rs:1535-1537 | sorted by the order in which a string comes first that is a start of the other or smaller at the first difference |
| Decimal.ComputeCanonical | src/bin/vergerail_upagent_provider.rs:2246-2286 | the loop that removes trailing zeros computes the canonical triple |
| Decimal.CanonicalKeepsValue | src/bin/vergerail_upagent_provider.rs:2240-2286 | a canonical triple denotes the number it was made from and is in normal form |
| Decimal.NormalUnique | src/bin/vergerail_upagent_provider.rs:2240-2286 | two normal triples that denote one number are one triple, signed zeros included |
| Decimal.NumbersEqualDecides | src/bin/vergerail_upagent_provider.rs:2235-2238 | where both triples exist, they are equal exactly when the rationals denoted are equal |
| Decimal.ModerateDefined | src/bin/vergerail_upagent_provider.rs:2246-2286 | every number within the bounds of `serde_json` has a triple |
| Decimal.ModerateNumbersEqual | src/bin/vergerail_upagent_provider.rs:2235-2238 | so on those numbers the comparison is numeric equality |
| Decimal.FormExact | src/bin/vergerail_upagent_provider.rs:2246-2286 | a number has a triple exactly when its exponent and its number of fraction digits fit 32 bits and, unless it is zero, so does its scale before and after trailing zeros are dropped |
| Decimal.NumbersEqualExact | src/bin/vergerail_upagent_provider.rs:2235-2238 | for any two numbers, by that condition: equality of values where both have a triple, equal where neither has, different where one has |
| Decimal.OverflowConflates | src/bin/vergerail_upagent_provider.rs:2235-2238 | beyond 32-bit exponents, which `serde_json` does not hold, two values are taken for equal |
| Decimal.OverflowSplits | src/bin/vergerail_upagent_provider.rs:2235-2238 | and there zero is taken for two values |
| SchemaCorrespondence.StripSound | src/bin/vergerail_upagent_provider.rs:2055-2149 | an instance of the normalised schema is valid under the original once nulls at originally optional properties are deleted |
| SchemaCorrespondence.FillSound | src/bin/vergerail_upagent_provider.rs:2055-2149 | an instance of the original without undeclared members is valid under the normalised schema once missing members are filled with null, unless it is short of a property that null may not stand for |
| SchemaCorrespondence.FillExact | src/bin/vergerail_upagent_provider.rs:2055-2149 | for an instance that is not short only inside an `anyOf` variant, this completion succeeds exactly when the instance lacks no such property |
| SchemaCorrespondence.FillComplete | src/bin/vergerail_upagent_provider.rs:2055-2149 | so every instance can be completed when all kept `anyOf` properties of the schema accept null |
| SchemaNaming.ClosedIffTame | src/bin/vergerail_upagent_provider.rs:2055-2149 | a schema that is normalised comes out closed everywhere exactly when it meets the naming condition, for all schemas with properties declared by schemas and enumerations of primitives |
| SchemaNormalizer.MakeNativePropertyNullable | src/bin/vergerail_upagent_provider.rs:2303-2387 | the in-place rewrite of an optional property computes the nullable form or fails where that is undefined |
| SchemaNormalizer.CloseObjectSchema | src/bin/vergerail_upagent_provider.rs:2059-2136 | the object step requires every property, makes the optional ones nullable and forbids others, or fails where that is undefined |
| SchemaNormalizer.CloseNativeObjectSchemas | src/bin/vergerail_upagent_provider.rs:2055-2149 | the recursion over rewritten members terminates and computes the normalised schema or the failure of any part |
| SchemaRefusals.CloseExact | src/bin/vergerail_upagent_provider.rs:2055-2149 | a schema of the fragment is normalised exactly when throughout it each constant is allowed by its `type` and `enum`, object schemas are not open, and every required name is declared |
| SchemaRefusals.ConstMeansAllowed | src/bin/vergerail_upagent_provider.rs:2170-2224 | the tests on a constant, in both places, come to being an instance of the sibling `type` and `enum` |
| SchemaRefusals.ObjectAllowedMeans | src/bin/vergerail_upagent_provider.rs:2059-2120 | the tests on an object schema come to that condition on its own keywords |
| SchemaRefusals.NullableAcceptable | src/bin/vergerail_upagent_provider.rs:2303-2387 | making a property nullable neither adds nor removes a reason for refusal |
| SchemaNormalizer.RewriteShrinks | src/bin/vergerail_upagent_provider.rs:2055-2149 | every child that is visited, including children that the rewrite itself created, is lighter than its schema |
| SchemaFixpoint.CloseFixed | src/bin/vergerail_upagent_provider.rs:2055-2149 | under the naming condition every successful output is closed at every object schema and normalising it again changes nothing |
| SchemaFixpoint.RewriteFixed | src/bin/vergerail_upagent_provider.rs:2057-2140 | rewriting one already visited schema whose members were normalised changes nothing |
| SchemaFixpoint.OthersKept | src/bin/vergerail_upagent_provider.rs:2057-2140 | for every schema, keywords that the rewriting does not concern are kept as they are |
| SchemaFixpoint.NullableOthersKept | src/bin/vergerail_upagent_provider.rs:2303-2387 | so are those of a property made nullable, unless it is wrapped as a whole |
| SchemaNaming.NamesGrow | src/bin/vergerail_upagent_provider.rs:2059-2140 | a map of properties that reads as a schema or holds a constant gains a name that is not required |
| SchemaNaming.NullableReflects | src/bin/vergerail_upagent_provider.rs:2303-2387 | the nullable form of a property keeps every violation of the naming condition inside it |
| SchemaNaming.NamingNeeded | src/bin/vergerail_upagent_provider.rs:2059-2140 | an object with a property called `properties` is normalised without an error and does not come out closed |
| SchemaFixpoint.GentleCloses | src/bin/vergerail_upagent_provider.rs:2055-2149 | a schema without `const`, `required` and `additionalProperties` is never refused |
| SchemaMeaning.ConstMeans | src/bin/vergerail_upagent_provider.rs:2305-2332 | turning `const` into `enum` keeps the accepted values other than null |
| SchemaMeaning.TypedMeans | src/bin/vergerail_upagent_provider.rs:2333-2380 | adding null to `type` and `enum` accepts null besides and nothing else |
| SchemaMeaning.WrapMeans | src/bin/vergerail_upagent_provider.rs:2382-2386 | so does wrapping a property in an `anyOf` with the null type |
| SchemaMeaning.NullableMeans | src/bin/vergerail_upagent_provider.rs:2303-2387 | the nullable form of any property of the fragment accepts what it accepted and null, unless it is an `anyOf` with a null variant, which is left alone |
| SchemaMeaning.FragmentTame | src/bin/vergerail_upagent_provider.rs:2059-2140 | the fragment meets the naming condition |
| SchemaCorrespondence.AdmitsNullValid | src/bin/vergerail_upagent_provider.rs:2303-2387 | the keyword check for null in that proviso says exactly whether null is valid |
| SchemaCorrespondence.NullFillExact | src/bin/vergerail_upagent_provider.rs:2346-2359 | null may stand for a missing property exactly when a kept `anyOf` accepts it |
| SchemaCorrespondence.NullReadyNeeded | src/bin/vergerail_upagent_provider.rs:2346-2359 | the completed instance is rejected for every instance that lacks such a property at any place reached through items and properties |
| SchemaCorrespondence.LacksShort | src/bin/vergerail_upagent_provider.rs:2346-2359 | what lacks a property there is short of it, so the two conditions leave open only what is short inside a variant |
| SchemaCorrespondence.VariantsDecide | src/bin/vergerail_upagent_provider.rs:2346-2359 | and there both outcomes occur: another variant may accept the completed instance, or none may |
| SchemaCorrespondence.NullReadyFails | src/bin/vergerail_upagent_provider.rs:2346-2359 | such schemas and instances exist and are normalised without complaint |
| PngValidator.ValidAccepted | src/image.rs:671-1040 | a grammatical file whose data inflate to an image is accepted with the width, height and alpha that the bytes of its chunks declare, and the image's transparency |
| PngValidator.AcceptedValid | src/image.rs:671-1040 | every accepted file is of that form |
| PngGrammar.GrammarAccepted | src/image.rs:679-916 | every file in the declarative grammar is accepted, and the collected header, palette, transparency and image data are the chunks' own |
| PngGrammar.AcceptedInGrammar | src/image.rs:679-916 | nothing else is accepted: chunks tile the file and obey every rule of the grammar |
| PngDamage.BurstRejected | src/image.rs:714-723 | a file in which the type and data of one chunk were changed within 32 consecutive bits is rejected, whatever precedes and follows the chunk |
| PngDamage.DamageRejected | src/image.rs:714-723 | in particular any change to up to four consecutive bytes of them |
| Crc32.PngCrc32 | src/image.rs:1097-1110 | the two loops over bytes and bits compute the register function |
| Crc32.IendCrc | src/image.rs:1097-1110 | the CRC of IEND is the published one |
| Crc32.StepLinear | src/image.rs:1100-1107 | one bit step is linear over exclusive or |
| Crc32.AbsorbIsBits | src/image.rs:1097-1110 | absorbing bytes eight steps at a time is absorbing their bits one by one |
| Crc32.WindowLeavesDifference | src/image.rs:1097-1110 | at most 32 bits that leave a zero register unchanged are all zero |
| Crc32.BurstDetected | src/image.rs:1097-1110 | bodies of one length that differ only inside some 32 consecutive bits never share a CRC |
| Crc32.FourBytesDetected | src/image.rs:1097-1110 | nor do bodies that differ in at most four consecutive bytes |
| PngRaster.PaethNearest | src/image.rs:1080-1095 | the predictor is the neighbour nearest to the estimate, ties broken in the standard's order |
| PngRaster.FilterTable | src/image.rs:955-982 | each filter type predicts from the left, above, their mean or the Paeth predictor, as in section 9.2 |
| PngRaster.UnfilterFilter | src/image.rs:955-982 | reconstruction undoes each of the five filters of section 9.2 of the PNG standard for any pixel width |
| PngRaster.FilterUnfilter | src/image.rs:955-982 | and filtering undoes reconstruction |
| PngRaster.ReconstructRow | src/image.rs:955-982 | the in-place loop over a row computes the reconstruction, and refuses filters above 4 |
| PngRaster.ScanPixels | src/image.rs:983-1012 | a row is inside its palette exactly when every pixel is, and transparent exactly when some pixel is |
| PngRaster.DecodeRaster | src/image.rs:917-1039 | the loop over rows, with its swapped buffers, computes the raster function |
| PngRaster.EncodedLength | src/image.rs:1061-1078 | an encoded image has height times one more than the row length in bytes |
| PngRaster.DecodeEncoded | src/image.rs:917-1039 | every filtered image is decoded, rejected exactly for a palette index out of range, and flagged exactly when a pixel is transparent |
| PngRaster.AcceptedIsEncoded | src/image.rs:917-1039 | an accepted raster is the encoding of some image and consumes exactly its bytes |
| PngChunks.ReadChunks | src/image.rs:679-916 | the loop over the file computes the chunk automaton |
| PngGrammar.RunAll | src/image.rs:725-905 | the automaton runs through exactly the sequences in which each chunk fits its predecessors |
| PngGrammar.FitIsGrammar | src/image.rs:725-905 | fitting chunk by chunk implies the rules about the whole sequence |
| PngGrammar.GrammarFits | src/image.rs:725-905 | and the rules imply fitting chunk by chunk |
| PngGrammar.NoChunkAfterIend | src/image.rs:724-730 | the error for a chunk after IEND is never returned |
| PngValidator.ValidatePng | src/image.rs:671-1040 | the whole validator computes its specification for any decompressor |
| PngValidator.AcceptedBytes | src/image.rs:671-1040 | an accepted file starts with the signature and its IHDR chunk and ends with the bytes of an IEND chunk; width and height of the result are the big-endian numbers at bytes 16 and 20, alpha follows from byte 25 and a tRNS chunk, and the data inflate to exactly the announced size, at most 14 MiB |
| PngGrammar.HeaderMeans | src/image.rs:740-768 | the tests on IHDR are the field of section 11.2.2 of the PNG standard with the supported values, and width, height and colour type are its bytes |
| PngGrammar.PaletteMeans | src/image.rs:778-791 | the tests on PLTE are one to 256 entries for a colour type that uses colour |
| PngGrammar.TransparencyMeans | src/image.rs:808-815 | the tests on tRNS are samples below 256 for grey and colour, or at most one alpha for each palette entry |
| PngGrammar.CriticalMeans | src/image.rs:879-886 | an unknown chunk is critical exactly when its first letter is upper-case |
| PngGrammar.SamplesMean | src/image.rs:1051-1059 | the number of bytes of a pixel follows from the bits of the colour type |
| PngValidator.PixelMeans | src/image.rs:983-1012 | a palette index is inside exactly when it names an entry, and a pixel is flagged exactly when its alpha, the transparent colour or its entry's alpha says that it is not opaque |
| PngValidator.TypeLetters | src/image.rs:732-854 | the chunk types are the letters of the standard |
| PngValidator.EndBytes | src/image.rs:679-723 | an IEND chunk is the twelve bytes that end every PNG file, its CRC included |
| PngValidator.SmallestAccepted | src/image.rs:671-1040 | there are accepted files: a grey image of one pixel, for any decompressor that yields its one row |
| Guardian.RunWorker | src/native/vergerail_guardian.c:331-466 | the leader is watched until exactly the first call that shows its end, a stop or a failure; then it is terminated and reaped, unless a call fails, its group is lost, it outlives SIGTERM and SIGKILL, or members are found in 24 scans; the result is the reaped leader's status if it was executed, with a group empty for good, and 70 otherwise |
| Guardian.TerminatePrivateGroup | src/native/vergerail_guardian.c:200-255 | done means an empty group after an empty scan, a sleep and another empty scan, and that no call failed; anything else means a failed call, a lost group, a leader that outlived both signals after 48 sleeps, or members found in 24 scans; a live leader gets SIGKILL only 24 sleeps after another signal |
| Guardian.AfterKeeps | src/native/vergerail_guardian.c:168-255 | over any events an exited leader stays so, only the guardian reaps, and an empty group whose leader exited stays empty |
| Guardian.EmptyForever | src/native/vergerail_guardian.c:200-255 | a group can never regain a member exactly when it is empty and its leader has exited |
| Guardian.GroupHasOther | src/native/vergerail_guardian.c:78-99 | a scan that finds no other member means that there is none, a full buffer included |
| Guardian.SignalPrivateGroup | src/native/vergerail_guardian.c:131-166 | unless it fails, the signal was sent once, or the leader had exited and a scan found nobody; it signals only a leader found in its group or a zombie's listed members, and fails exactly when a call failed or the group was not the leader's |
| Guardian.WaitForLeaderExit | src/native/vergerail_guardian.c:168-198 | done exactly when the leader was observed to have exited; timed out means one signal and 24 sleeps; fails exactly when a call failed or the group was gone |
| Guardian.ReapLeader | src/native/vergerail_guardian.c:257-269 | success reaps the leader with its own status; failure leaves it unreaped |
| JsonLines.JsonLinesReader.Next | src/private/codec.rs:49-115 | returns the first item of everything unread and consumes exactly its line, for any way reads cut the stream |
| JsonLines.JsonLinesReader.ReadAll | src/private/codec.rs:49-115 | repeated reading yields the items of a one-pass function of the stream, with a buffer of at most the limit and two bytes |
| JsonLines.LinesRead | src/private/codec.rs:49-115 | lines that the parser accepts, ended by LF or CR LF, are delivered in order, and then whatever the rest is read as |
| JsonLines.StreamEnds | src/private/codec.rs:79-92 | after them a stream ends cleanly exactly when nothing is left; an unterminated rest is an error, oversize once it is longer than a frame and its terminator, and a stream that breaks is a failed read |
| JsonLines.StreamStops | src/private/codec.rs:55-78 | and a line that is not accepted stops it: oversize, empty or bad, in that order |
| JsonLines.JsonBytesPrintable | src/private/codec.rs:11-23 | an encoded value contains no control byte, hence no line feed or carriage return |
| JsonLines.ParseFrameInverts | src/private/codec.rs:156-164 | however number tokens are read, the bytes of a value nested at most 127 deep are parsed to the value with its numbers so read and others are refused; they are parsed to the value itself exactly when besides every number token is kept |
| JsonLines.FramesFound | src/private/codec.rs:11-115 | the reader finds the frames of encoded values one by one and stops at the first that the parser refuses |
| JsonLines.FramesRoundTrip | src/private/codec.rs:11-23 | encoded values are read back in order and then the stream ends, with any parser that reads them |
| JsonLines.EncodedFramesReadBack | src/private/codec.rs:11-115 | with the parser of the source, however it reads numbers, they are read back exactly when none is nested too deep and every number token is kept |
| JsonLines.DeepFrameLost | src/private/codec.rs:156-164 | however numbers are read, 127 nested arrays or objects are read back, 128 are encoded and come back as a bad frame |
| JsonLines.LongLine | src/private/codec.rs:79-82 | more unread bytes than a frame and its terminator can only be an oversize frame |
| Wire.MessagesReadBack | src/private/wire.rs:51-187 | if integers of 64 bits are kept, messages written with the builders and encoded under the limit are read back exactly when no payload is nested more than 126 deep and payload numbers are kept; then they arrive in order as they were meant, and the stream ends |
| Wire.ValueSurvives | src/private/wire.rs:51-187 | a built message is read back as itself exactly when its payload would be, one level further down |
| Wire.ValueRead | src/private/wire.rs:51-187 | a built message is parsed exactly when its id fits i64 and its method is not empty, and then to what was meant |
| Wire.ParseExact | src/private/wire.rs:51-96 | for every frame: it is parsed to a message exactly when it has that message's members and lacks those it may not have |
| Wire.ParseErrors | src/private/wire.rs:51-187 | and otherwise the error is that of the first failed test, in this order |
| Wire.IntValueRead | src/private/wire.rs:175-186 | an integer is read back as itself exactly when it fits i64 |
| Wire.RequestRead | src/private/wire.rs:98-104 | a request is read back exactly when its id fits i64 and its method is not empty; otherwise the error is that of the id first |
| Wire.NotificationRead | src/private/wire.rs:106-113 | a notification is read back, omitted null parameters included, unless its method is empty |
| Wire.SuccessRead | src/private/wire.rs:115-120 | a success is read back with its id and result |
| Wire.FailureRead | src/private/wire.rs:122-131 | a failure is read back with its id, code and message |
| StderrCapture.StderrRing.Push | src/private/redact.rs:173-196 | after any pushes the ring holds the newest of all lines ever pushed that fit, and its byte counter is their joined length |
| StderrCapture.Capture.Run | src/private/process.rs:800-855 | for any cutting of the stream, the lines recorded are those of a one-pass function of the whole, one marker for each oversize line, and at most a line and one read is pending |
| StderrCapture.LinesAre | src/private/process.rs:800-855 | that function in terms of bytes: each line without its LF or CR LF, the unterminated rest as it is, and a marker for each line longer than 64 KiB |
| StderrCapture.JoinedMore | src/private/redact.rs:198-200 | lines are joined by line feeds |
| StderrCapture.Utf8Suffix | src/private/redact.rs:203-212 | the loop finds the tail that starts at a character boundary |
| StderrCapture.TailLongest | src/private/redact.rs:203-212 | no longer tail within the limit starts at a boundary |
| StderrCapture.StderrRing.Text | src/private/redact.rs:198-200 | the text is those lines joined, within the capacity |
| StderrCapture.NewestLongest | src/private/redact.rs:173-196 | what is kept is the longest suffix of the lines that fits |
| StderrCapture.NewestAppend | src/private/redact.rs:173-196 | evicting as lines arrive loses nothing that evicting at the end would keep |
| StderrCapture.CompleteLine | src/private/process.rs:816-842 | a complete line at the front comes off whatever bytes are still to come |
| StderrCapture.IncompleteLine | src/private/process.rs:844-848 | an incomplete line longer than the limit is one oversize line however it goes on |
| DiagnosticRuns.WholeRunKept | src/event.rs:203-260 | so do all runs in which takes are not interrupted |
| DiagnosticRuns.AlwaysBounded | src/event.rs:203-260 | in every interleaving of pushes and the two halves of takes, at most 128 items of at most 1 MiB are held |
| DiagnosticRuns.FullMarksIff | src/event.rs:227-257 | a full buffer ends up marked exactly when the excess of its count over what it holds leaves room for the marker and the item |
| Diagnostics.BoundDiagnostic | src/event.rs:276-291 | both strings are cut to the longest start that ends at a character and fits |
| Diagnostics.HeadLongest | src/event.rs:276-291 | no longer start within the limit ends at a boundary |
| Diagnostics.BoundKeeps | src/event.rs:276-291 | cutting neither makes nor unmakes the marker's name, and leaves small diagnostics alone |
| Diagnostics.EncodedIsTextual | src/event.rs:276-291 | UTF-8 text has the property of strings that this needs |
| Utf8.BoundaryMeans | src/event.rs:276-291 | in UTF-8 text a place is a boundary exactly when it ends a start of the text |
| Utf8.Examples | src/private/codec.rs:11-23 | the encoding has the bytes of the examples in section 7 of RFC 3629 |
| Utf8.DecodeExact | src/private/codec.rs:156-164 | bytes are taken for text exactly when they encode it |
| Diagnostics.RoomMeans | src/event.rs:227-257 | with a right count, full means 128 items or more than 1 MiB, and no room for a marker 127 items or more than 1 MiB with it |
| Diagnostics.DiagnosticBuffer.Push | src/event.rs:212-260 | the two eviction loops remove the least number of oldest items that makes room, the marker is added in between, and the item last |
| Diagnostics.DiagnosticBuffer.Take | src/event.rs:203-210 | returns all items and leaves an empty buffer with count zero |
| DiagnosticRuns.FullDiscards | src/event.rs:227-249 | with a right count, the eviction block always discards an ordinary item |
| DiagnosticRuns.ClearedExact | src/event.rs:227-257 | and then the second loop never runs |
| DiagnosticRuns.PushedKept | src/event.rs:212-260 | a push keeps the count right, the ordinary items a suffix of those pushed, and one marker exactly when one is missing |
| DiagnosticRuns.LostUnmarked | src/event.rs:203-260 | a run with an interrupted take that loses an item without a marker |
| DiagnosticRuns.CountDrifts | src/event.rs:203-210 | a run after which the count is wrong |
| LoginRuns.EveryWaiterOwed | src/account.rs:88-169 | in every run each waiter is in exactly one of waiting, removed or released, being sent, received; results are those of its own registration, and none waits once that has ended |
| LoginRuns.RunLater | src/account.rs:64-183 | what a registration ended with, what was received and which numbers were issued never changes |
| LoginRuns.StepValid | src/account.rs:64-183 | every critical section and every sending of a result keeps the invariant |
| Logins.LoginRegistry.Register | src/account.rs:64-86 | a new login takes over its early result; a registered one is left alone |
| Logins.LoginRegistry.WaitFor | src/account.rs:88-120 | the answer and the new registry, error cases and exhausted numbers included |
| Logins.LoginRegistry.RemoveWaiter | src/account.rs:122-127 | only that waiter of that login is removed |
| Logins.LoginRegistry.Release | src/account.rs:129-134 | the login is forgotten everywhere |
| Logins.LoginRegistry.Complete | src/account.rs:136-152 | a first result is stored and its waiters are handed out; an unknown login is cached |
| Logins.LoginRegistry.CacheEarly | src/account.rs:172-183 | a cached login keeps its result; the oldest makes room for a new one |
| Logins.LoginRegistry.FailActive | src/account.rs:154-169 | every open login ends with the error, results already there stay, and all waiters are handed out |
| LoginRuns.CompleteEffect | src/account.rs:136-152 | what completing does to each waiter and each terminal result |
| LoginRuns.FailActiveEffect | src/account.rs:154-169 | what failing all does to them |
| LoginRuns.TerminalStays | src/account.rs:136-169 | the first result of a registered login is never replaced while it is registered |
| LoginRuns.NumbersFresh | src/account.rs:105-112 | a waiter's number was never issued before and is below the largest u64 |
| LoginRuns.EarlyCacheValid | src/account.rs:64-86 | the early cache holds at most 32 logins, each once in its order queue, none of them registered |
| LoginRuns.AnswerExact | src/account.rs:88-120 | a registered login is answered by its result or else by a new number while there are any |
| LoginRuns.EarlyTakenOver | src/account.rs:64-86 | a result that came before its login was registered is the result of the registration |
| LoginRuns.EarlyKept | src/account.rs:129-183 | caching a result forgets at most the oldest of 32 others, and releasing a login forgets that login only |
| ImageOperation.GenerateImageWithRetry | src/client.rs:1791-1848 | at most two dispatches under any cancellations; an image exactly when the first attempt delivers, or is refused with 401 and the second delivers; result and history of every run that nobody cancels; a known error leaves a dispatch open exactly when the worker crashed before an error status was recorded |
| ImageOperation.TryOnce | src/client.rs:1805-1846 | one attempt delivers a response exactly when it is prepared, dispatched, answered 200, read and parsed before anybody cancels, and a refusal exactly on a 401 |
| ImageOperation.PhaseMeans | src/image.rs:297-405 | in any lawful history the phase says whether a dispatch stands that was not reset and whether the operation was cancelled |
| ImageOperation.DispatchFollowsReset | src/image.rs:325-362 | a dispatch comes only after every earlier one was answered 401 and reset, and never after a cancellation |
| ImageOperation.CancelTells | src/image.rs:388-405 | cancelling says no exactly when every earlier dispatch was reset |
| ImageOperation.ImageOperationState.BeginDispatch | src/image.rs:325-349 | begins exactly when pending, and tells a cancelled operation from a repeated one |
| ImageOperation.ImageOperationState.ResetAfterUnauthorized | src/image.rs:351-362 | resets exactly a dispatched operation |
| ImageOperation.ImageOperationState.FinishDispatch | src/image.rs:364-372 | finishes exactly a dispatched operation |
| ImageOperation.ImageOperationState.Cancel | src/image.rs:388-405 | records the cancellation and says whether a dispatch stands |
| ImageOperation.ImageOperationState.CancellationError | src/image.rs:407-432 | the outcome is called unknown exactly when a dispatch stands |
| ImageOperation.ReadResponse | src/image.rs:556-591 | after a 200 the result is the response exactly when it is read and parsed before anybody cancels, and an unknown outcome otherwise |
| ImageOperation.Settle | src/image.rs:529-591 | what the worker makes of each answer, both ways: 401 a refusal, another error status an RPC error, no answer or an unusable 200 an unknown outcome; and what it adds to the history |
| ImageOperation.Resolve | src/image.rs:446-591 | the answer to the standing dispatch and where the worker may crash around it; a crash leaves the dispatch open exactly when no error status was recorded |
| ImageOperation.SendImageRequest | src/image.rs:480-591 | dispatches at most once, not at all when cancelled or too large; a response, a refusal and the history are given exactly; an error other than an unknown outcome or a crash means that every dispatch was refused |
| ImageOperation.ImageOperationGuard.Drop | src/client.rs:187-204 | an armed guard cancels, and asks for a disconnect exactly when a dispatch stands |
| ImageOperation.GenerateImage | src/client.rs:774-806 | an image exactly when one is due; an unknown outcome is always cancelled, with a disconnect exactly when a dispatch stands; a worker that crashes before the answer gives a process error with the guard disarmed |
| ImageOperation.CrashLeavesDispatch | src/image.rs:457-464 | such a run leaves its one dispatch neither refused nor reset nor cancelled |
| ScreenTree.AcceptedIsTree | src/bin/ifsc_text_provider.rs:1057-1178 | every node of an accepted program leads up to the one root, and its absolute rectangle, summed over real numbers, lies inside the viewport |
| ScreenTree.ValidateNodes | src/bin/ifsc_text_provider.rs:1057-1178 | on bounds taken as real numbers, accepts exactly the declarative conditions on links, containment and the root, each node's own checks being one flag |
| ScreenTree.EndsWithinSize | src/bin/ifsc_text_provider.rs:1166-1177 | a chain of parents that ends does so within as many steps as there are nodes, so the depth counter is an exact test for cycles |
| ScreenTree.ReachesEnd | src/bin/ifsc_text_provider.rs:1166-1177 | the walk with the counter finds exactly the chains that end within that many steps |
| ScreenTree.CollectNodes | src/bin/ifsc_text_provider.rs:1062-1137 | accepts exactly well-formed nodes with distinct ids, and collects them and the roots |
| ScreenTree.CheckLinks | src/bin/ifsc_text_provider.rs:1151-1178 | in whatever order the nodes are visited, accepts exactly when every node is inside an existing parent and no chain is a cycle |
| ScreenTree.InsideMeans | src/bin/ifsc_text_provider.rs:1155-1164 | the four comparisons say that every point of a node is a point of its parent |
| ScreenTree.ViewportMeans | src/bin/ifsc_text_provider.rs:1143-1149 | a root has exactly the points of the viewport |
| MachO.SameBuildIffSameOutside | build.rs:113-178 | two files normalise to the same bytes exactly when they differ in identifiers only |
| MachO.NormalizeMachoUuid | build.rs:113-178 | the walk over load commands writes exactly the normal form, and nothing on any error |
| MachO.UuidsSame | build.rs:140-171 | files that differ in identifiers only have the same UUID commands at the same offsets |
| MachO.UuidsOfCommands | build.rs:113-171 | in a file laid out as header and load commands, the identifiers are found in the bodies of exactly the commands of kind 0x1b |
| MachO.EveryUuidFixed | build.rs:158-168 | every UUID command of the result holds the sixteen letters `VERGERAIL-GUARD1` |
| MachO.NormalizedIsFixed | build.rs:113-178 | nothing but identifiers changes, commands are found where they were, and normalising again changes nothing |

## Left out

- Process spawning, pipes, HTTP, filesystem and environment access, timers and task scheduling: input and output only.
- Thread and turn routing, approvals, configuration, sessions and models: field-by-field decoding that would only add easy members.
- zlib, SHA-256, base64, redaction and lossy UTF-8 decoding: parameters, or not part of this model.
- SchemaNormalizer.CloseNativeObjectSchemas: the source rewrites one mutable tree; here each method returns the rewritten value, so aliasing is not captured (Rust excludes it).
- SchemaCorrespondence.FillExact: instances that are short only inside an `anyOf` variant, where the outcome depends on whether another variant happens to accept what was filled in for this one.
- JsonLines.ParseFrameInverts: stated for what the encoder prints; white space and repeated member names, which the source's parser also reads, do not occur in it.
- SchemaRefusals.CloseExact: schemas outside the fragment; for those `GentleCloses` gives a sufficient condition.
- SchemaMeaning.NullableMeans: a property that combines `anyOf` with other keywords, and the keywords `not`, `$ref`, `allOf`, are outside the fragment.
- SchemaMeaning.ConstMeans: values other than null, because the step is applied only together with adding null.
- Saturation of the byte counter of the standard-error ring at the largest `usize`: its lines are bounded first.
- Guardian.RunWorker: a stop is requested sooner or later, so that the main loop ends; that a signal has an effect is not assumed; processes from outside that join the group, the parent's half of the start-up handshake, and signal handlers are not modelled.
- StderrCapture.Capture.Run: the marker and the decoded text of a line are parameters; a failing read ends the capture like the end of the stream, as in the source.
- ScreenTree.ValidateNodes: bounds are real numbers, so floating-point rounding of sums is not captured; tags, roles, required sections and the copy contract are one flag per node or left out, because they look at no other node's position.
- ScreenTree.AcceptedIsTree: offsets are summed as real numbers, for the same reason.
- Logins.LoginRegistry.Complete: channels are sets of waiter numbers; a receiver that was dropped counts as sent to.
- ImageOperation.GenerateImageWithRetry: authentication, time limits, answers, crashes and cancellations are given by an arbitrary script for each attempt; the response body is only read, refused or parsed.
- PngValidator.ValidatePng: which of its errors a rejected file gets is that of the first failed test in the source's order, but not characterised otherwise.
- PngDamage.BurstRejected: stated for type and data; a changed length field can make the file a different sequence of chunks.
- MachO.NormalizeMachoUuid: reading and writing the file do not fail here.
