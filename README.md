# VSFilterMod subtitle input core, modelled in Dafny

This project models three parts of VSFilterMod's subtitle filter.

- **The subtitle input pin** (`CSubtitleInputPin`):
  - `Receive` takes a media sample from the upstream filter, reads its times and shifts them by the segment start. It then queues either the sample itself (HDMV and DVB bitmaps) or a copy of its payload.
  - `EndOfStream` queues the end-of-stream marker.
  - The worker `DecodeSamples` drains the queue. It holds the subtitle lock and decodes each sample into calls on the subtitle track. After it releases the lock, it invalidates the rendered subtitles from the earliest reported start.
  - `DecodeSample` decodes one sample. It handles GAB1 and GAB2 containers, plain text, UTF-8 and WebVTT, SSA/ASS event lines, SSF and VobSub.
  - `InvalidateSamples` drops everything still queued.
- **The rendering cache** (`CRenderingCache`): a map bounded to `maxSize` entries, kept in most-recently-used order. `Lookup` and `SetAt` move their key to the head. `SetAt` evicts the least recently used entry when the cache is full.
- **The colour conversion table** (`ColorConvTable`):
  - the integer `clip`;
  - the fixed-point matrix product `DoConvert`;
  - the PC-to-TV level compression `RGB_PC_TO_TV`;
  - `ColorCorrection` and `SetDefaultConvType`;
  - the YUV-to-RGB function selection of `A8Y8U8V8_TO_ARGB`.

The project has eight files.

- `c_int.dfy` (module `CInt`): C's 32-bit integers on Dafny's unbounded `int`. Wrap-around, arithmetic shifts, truncating division and bitwise operators are written out bit by bit.
- `subtitle_text.dfy` (module `SubtitleText`):
  - little-endian reads;
  - NUL-terminated narrow and wide strings;
  - `CString::Trim`, which, like ATL's `CStringT`, stops its right-hand scan at an embedded NUL, and `Replace("\r\n", "\n")`;
  - `wcstol`;
  - the conversion from 100 ns ticks to milliseconds.
- `gab_container.dfy` (module `GabContainer`): the GAB1/GAB2 record walk.
  - `Records` specifies it.
  - `Walk` is the loop, proved against `Records`.
  - There is also an encoder, and a round-trip proof.
- `subtitle_decoder.dfy` (module `SubtitleDecoder`): `DecodeSample`.
  - `Decode` and `Reported` are the specification functions.
  - The methods follow the source's branches and are proved against those functions.
- `subtitle_input_pin.dfy` (module `SubtitleInputPin`): the pin as a class.
  - Its fields are the queue, the two stop flags and the segment start.
  - A log of the calls made on the track and the subtitle lock stands in for the track itself.
- `rendering_cache.dfy` (module `RenderingCache`): the cache as a class.
  - The list of nodes and the key-to-node map are fields.
  - Its contents are proved equal to a pure most-recently-used list.
- `color_conv_table.dfy` (module `ColorConvTable`): the conversions on 32-bit ARGB words, with the conversion settings as a class.
- `wrappers.dfy` (module `Wrappers`): `Option`.

Behaviours of the code worth noting:

- **The value a GAB1 entry reports.** The decoder reports the sample's own start (`tStart`) as the invalidation time. It does not report the start time stored in the entry record. The record's time only times the added entry.
- **Which plain-text payloads are read.** A plain-text payload is read only when it is longer than one byte and its first byte is not NUL (`len > 1`).
- **Samples still queued at shutdown.** The destructor sets both the stop flag and the exit flag before it wakes the decoding thread. Samples still in the queue are dropped without being decoded.
- **601-to-709 colour correction turns colours black.** Nothing calls `InitColorCorrectionMatrix`, and the singleton's `ConvMatrix` is zero-initialised static storage. So `COLOR_CORRECTION_MATRIX` stays zero. With the correction switched on, `ColorCorrection` keeps the alpha byte and returns 0 for red, green and blue.

## Model

| member | source | states |
|---|---|---|
| SubtitleInputPin.StampedTimes | src/subtitles/SubtitleInputPin.cpp:262-281 | times come back exactly for the three results `GetTime` is expected to give; any other result is passed back without times |
| SubtitleInputPin.Admit | src/subtitles/SubtitleInputPin.cpp:255-315 | a base-class failure is returned with nothing queued; whatever is queued comes with `S_OK`; HDMV and DVB queue the media sample itself and every other subtype a copy of the payload; a queued copy holds exactly the payload bytes, and is never empty |
| SubtitleInputPin.AdmittedTimes | src/subtitles/SubtitleInputPin.cpp:262-277 | a queued sample carries the sample's times shifted by the segment start; a missing stop time, or both times when unset, become `INVALID_TIME` |
| SubtitleInputPin.AdmitTextIff | src/subtitles/SubtitleInputPin.cpp:283-312 | for the text formats, a payload copy is queued if and only if all of these hold: the base class accepts the sample, both times are valid, `GetPointer` succeeds with a non-NULL pointer, and the length is positive; the queued copy holds exactly the payload bytes and the shifted times |
| SubtitleInputPin.AdmitImage | src/subtitles/SubtitleInputPin.cpp:283-298 | for HDMV and DVB, the media sample itself is queued, even with invalid times, whenever the base class and `GetTime` succeed |
| SubtitleInputPin.AdmitNeverEmpty | src/subtitles/SubtitleInputPin.cpp:304-305 | a queued payload copy is never empty |
| SubtitleInputPin.AdmitBaseFailure | src/subtitles/SubtitleInputPin.cpp:257-258 | a failure of the base class's `Receive` is returned unchanged and nothing is queued |
| SubtitleInputPin.Lower | src/subtitles/SubtitleInputPin.cpp:370-373 | the running value becomes the sample's value or stays; the result is non-negative when either is, and then no larger than either non-negative value |
| SubtitleInputPin.Earliest | src/subtitles/SubtitleInputPin.cpp:356-377 | folding the reported values keeps a negative start value only when nothing lowers it, and a non-negative start value can only decrease and stays non-negative |
| SubtitleInputPin.EarliestStep | src/subtitles/SubtitleInputPin.cpp:365-376 | folding the queue equals handling its front, with the running minimum updated by the front's value, and then folding the rest |
| SubtitleInputPin.BatchStep | src/subtitles/SubtitleInputPin.cpp:365-376 | the calls for a queue are the front item's calls followed by the calls for the rest |
| SubtitleInputPin.EarliestIsMinimum | src/subtitles/SubtitleInputPin.cpp:356-377 | the fold's result is -1 exactly when no value is non-negative; otherwise it is one of the non-negative values and no larger than any of them |
| SubtitleInputPin.PassInvalidates | src/subtitles/SubtitleInputPin.cpp:356-384 | a pass invalidates if and only if some queued sample reports a time; that time is then exactly what one queued sample reports, namely its start, and it is no later than any other reported time |
| SubtitleInputPin.PassShape | src/subtitles/SubtitleInputPin.cpp:358-384 | one pass locks, decodes the batch, unlocks, then invalidates |
| SubtitleInputPin.BatchCallsAreTrackCalls | src/subtitles/SubtitleInputPin.cpp:363-377 | inside the locked section only track calls are made |
| SubtitleInputPin.InvalidateAfterUnlock | src/subtitles/SubtitleInputPin.cpp:380-384 | a pass starts by taking the lock; every track call is followed later by the unlock; the invalidation, if any, is the very last call, comes right after the unlock, and carries the earliest reported time |
| SubtitleInputPin.InputPin.constructor | src/subtitles/SubtitleInputPin.cpp:55-61 | a new pin has an empty queue, both stop flags cleared and no calls made |
| SubtitleInputPin.InputPin.Receive | src/subtitles/SubtitleInputPin.cpp:255-315 | returns the result `Admit` gives; the queue grows by exactly what `Admit` queues; nothing else changes |
| SubtitleInputPin.InputPin.EndOfStream | src/subtitles/SubtitleInputPin.cpp:317-330 | returns the base class's result; the end-of-stream marker is appended exactly when that result succeeds |
| SubtitleInputPin.InputPin.InvalidateSamples | src/subtitles/SubtitleInputPin.cpp:563-571 | the queue is emptied and the stop flag ends cleared; the thread-exit flag and the calls made are unchanged |
| SubtitleInputPin.InputPin.Close | src/subtitles/SubtitleInputPin.cpp:63-71 | the destructor sets both flags, so the worker is stopping; the queue is untouched |
| SubtitleInputPin.InputPin.DecodeOne | src/subtitles/SubtitleInputPin.cpp:369 | decoding a sample records exactly the calls `Decode` specifies and returns what `Reported` specifies |
| SubtitleInputPin.InputPin.DecodeFront | src/subtitles/SubtitleInputPin.cpp:365-376 | the front item is decoded (the end-of-stream marker is skipped) and popped |
| SubtitleInputPin.InputPin.DecodeQueue | src/subtitles/SubtitleInputPin.cpp:356-377 | the loop empties the queue; it records the calls for every item in queue order and returns the earliest non-negative reported time, or -1 |
| SubtitleInputPin.InputPin.DrainQueue | src/subtitles/SubtitleInputPin.cpp:341-385 | a stopping worker changes nothing and invalidates nothing; otherwise one pass makes exactly `PassCalls` of the old queue and leaves the queue empty |
| SubtitleInputPin.CloseStopsDecoding | src/subtitles/SubtitleInputPin.cpp:345-358 | after the destructor's flags are set, a pass decodes nothing, makes no call and keeps the queue |
| SubtitleDecoder.DecodeSample | src/subtitles/SubtitleInputPin.cpp:388-561 | the calls made and the value returned are those `Decode` and `Reported` specify, for every media type and sample |
| SubtitleDecoder.DecodePlain | src/subtitles/SubtitleInputPin.cpp:476-488 | plain text makes one short `Add`, exactly when the payload is longer than one byte, does not start with NUL, and has a unit before its first NUL that is not white space. The `Add` carries the LF-normalised, trimmed line and millisecond times. The decoder reports exactly when it adds |
| SubtitleDecoder.DecodeSubtitle | src/subtitles/SubtitleInputPin.cpp:490-558 | VobSub data is handed on whole and never reported. For the text subtypes, a line that trims to nothing makes no call. Otherwise UTF-8 adds the line, WebVTT adds its SSA conversion, and SSF appends the line with times in ticks. SSA, ASS and ASS2 add the event read from exactly 9 (10 for ASS2) pieces, and only when its text is not empty. Other subtypes do nothing. The text subtypes report exactly when they make a call |
| SubtitleDecoder.DecodeAss | src/subtitles/SubtitleInputPin.cpp:514-539 | a line that does not split into exactly 9 (10 for ASS2) pieces adds nothing. A line that splits into the pieces of an event adds that very event with millisecond times when its text is not empty, and nothing otherwise. The decoder reports exactly when it adds |
| SubtitleDecoder.Decode | src/subtitles/SubtitleInputPin.cpp:388-560 | a media sample never reports, and makes the one `ParseSample` call exactly for HDMV and DVB; an empty payload or another major type does nothing |
| SubtitleDecoder.Reported | src/subtitles/SubtitleInputPin.cpp:560 | the value returned is the sample's start or -1 |
| SubtitleDecoder.AssFields | src/subtitles/SubtitleInputPin.cpp:520-531 | the style and actor are the third and fourth pieces, the effect and text the last two (so a comma in the text is kept); with 9 pieces the bottom margin is the vertical one |
| SubtitleDecoder.ReportedIsStartOrNone | src/subtitles/SubtitleInputPin.cpp:560 | the value returned is the sample's start or -1; it is the start whenever the decoder set `fInvalidate` |
| SubtitleDecoder.LineDecodedShape | src/subtitles/SubtitleInputPin.cpp:490-558 | for any trimmed line: VobSub hands the data on whole and never reports; every other subtype makes at most one call, none for an empty line or a subtype the decoder does not read, and reports exactly when it makes one |
| SubtitleDecoder.LineDecodedText | src/subtitles/SubtitleInputPin.cpp:492-552 | for a non-empty line: UTF-8 adds it as a Unicode entry in milliseconds, WebVTT adds its SSA conversion, SSF appends it with times in ticks |
| SubtitleDecoder.LineDecodedAss | src/subtitles/SubtitleInputPin.cpp:507-541 | SSA, ASS and ASS2 add the event read from the split line exactly when the line is not empty, splits into 9 (10 for ASS2) pieces and its last piece, the text, is not empty |
| SubtitleDecoder.NeverReported | src/subtitles/SubtitleInputPin.cpp:392-406 | media samples, empty payloads and VobSub payloads never report a time and never change text |
| SubtitleDecoder.RtsChanges | src/subtitles/SubtitleInputPin.cpp:429-473 | the track calls from a GAB payload change text exactly when the container's effects do |
| SubtitleDecoder.ReportedIffTextChange | src/subtitles/SubtitleInputPin.cpp:413-560 | a sample that changes a track's text always sets `fInvalidate`; the converse holds whenever each GAB1 entry record holds its two times |
| SubtitleDecoder.GabChangeIffInvalidates | src/subtitles/SubtitleInputPin.cpp:417-475 | a GAB payload whose effects change the text sets `fInvalidate`; the converse holds when each GAB1 entry record holds its two times |
| SubtitleDecoder.PlainChangeIffInvalidates | src/subtitles/SubtitleInputPin.cpp:476-488 | plain text sets `fInvalidate` exactly when it changes the text |
| SubtitleDecoder.SubtitleChangeIffInvalidates | src/subtitles/SubtitleInputPin.cpp:490-558 | a payload of the major type `Subtitle` sets `fInvalidate` exactly when it changes the text |
| SubtitleDecoder.GabReported | src/subtitles/SubtitleInputPin.cpp:417-475 | a GAB payload reports the sample's start if and only if one of the records the walk visits has an entry tag |
| SubtitleDecoder.PlainTextEntry | src/subtitles/SubtitleInputPin.cpp:476-488 | a payload without GAB magic adds an entry exactly when it is longer than one byte, starts with a non-NUL byte, and has a unit before its first NUL that is not white space. The entry is the LF-normalised, trimmed line, widened by `AToW`, with times divided down to milliseconds. The payload invalidates exactly when it adds |
| SubtitleDecoder.AssPieces | src/subtitles/SubtitleInputPin.cpp:516-531 | an event written as 9 or 10 comma-separated fields has exactly that many pieces |
| SubtitleDecoder.AssRoundTrip | src/subtitles/SubtitleInputPin.cpp:520-531 | reading the fields back from an event's pieces gives back the event, numbers through `wcstol`; in the 9-field form the bottom margin is the top margin |
| SubtitleDecoder.AssLineSplit | src/subtitles/SubtitleInputPin.cpp:516-539 | a line that does not split into exactly 9 (10 for ASS2) pieces adds nothing; one that splits into an event's pieces adds that event with millisecond times when its text is not empty |
| SubtitleDecoder.AssSample | src/subtitles/SubtitleInputPin.cpp:507-513 | an SSA/ASS sample is decoded as its converted, trimmed line, and not at all when that line is empty |
| SubtitleDecoder.AssExample | src/subtitles/SubtitleInputPin.cpp:519-531 | the nine pieces of `0,0,Default,,0,0,0,,Hello, world` read as an event with zero numbers, style `Default` and the text `Hello, world`, comma kept |
| SubtitleDecoder.GabSampleRecords | src/subtitles/SubtitleInputPin.cpp:417-449 | a concrete GAB1 payload walks to a name record then an entry record |
| SubtitleDecoder.GabSampleDecoded | src/subtitles/SubtitleInputPin.cpp:429-446 | that payload sets the name "en" and adds the wide entry "Hi" from 1000 to 2000 ms, and invalidates |
| SubtitleDecoder.GabExample | src/subtitles/SubtitleInputPin.cpp:413-475 | for that payload, `Decode` makes those two calls and reports the sample's start, not the entry's 1000 ms |
| SubtitleDecoder.PlainSampleLine | src/subtitles/SubtitleInputPin.cpp:478-481 | "\r\nHello\r\n" normalises and trims to "Hello" |
| SubtitleDecoder.PlainExample | src/subtitles/SubtitleInputPin.cpp:476-487 | that payload from 0.5 s to 1.5 s adds "Hello" from 500 to 1500 ms |
| GabContainer.Records | src/subtitles/SubtitleInputPin.cpp:419-449 | every record the walk visits has its data starting inside the payload |
| GabContainer.MagicExclusive | src/subtitles/SubtitleInputPin.cpp:417-451 | no payload has both magics, so the GAB2 test only sees payloads that are not GAB1; a payload with either magic starts with `G` |
| GabContainer.RecordsTile | src/subtitles/SubtitleInputPin.cpp:422-448 | the records tile the payload: the first header sits right after the magic byte, each record's data follows its header, and the next header follows `size` bytes later |
| GabContainer.RecordEffect | src/subtitles/SubtitleInputPin.cpp:429-471 | each record has at most one effect |
| GabContainer.RecordEffectMeaning | src/subtitles/SubtitleInputPin.cpp:429-471 | what each tag does: unknown tags nothing; name tags only set the name, the GAB1 narrow name converted through the ANSI code page (`CString`); GAB1 entry tags add one entry timed by the record's two `int`s, wide for tag 3; GAB2 tag 4 reopens the track from the record's bytes |
| GabContainer.InvalidatesIff | src/subtitles/SubtitleInputPin.cpp:433-471 | `fInvalidate` is set if and only if some visited record has an entry tag |
| GabContainer.HasChangeAppend | src/subtitles/SubtitleInputPin.cpp:422-449 | the effects of two runs of records change text exactly when either run does |
| GabContainer.ChangeImpliesInvalidates | src/subtitles/SubtitleInputPin.cpp:433-471 | a walk that changes text sets `fInvalidate` |
| GabContainer.InvalidatesImpliesChange | src/subtitles/SubtitleInputPin.cpp:433-471 | a walk that sets `fInvalidate`, with each entry record holding its times, changes text |
| GabContainer.UnknownTagsSkipped | src/subtitles/SubtitleInputPin.cpp:448 | records with unknown tags are skipped by their size; they have no effect and do not invalidate |
| GabContainer.VisitRecord | src/subtitles/SubtitleInputPin.cpp:424-448 | one loop step reads a header, applies the record and moves strictly forward, keeping the walk's invariant |
| GabContainer.Walk | src/subtitles/SubtitleInputPin.cpp:419-449 | the loop produces exactly the effects and the `fInvalidate` of the records `Records` specifies |
| GabContainer.Container | src/subtitles/SubtitleInputPin.cpp:417-419 | a written container starts with the magic the decoder tests for |
| GabContainer.RecordsOfEncoded | src/subtitles/SubtitleInputPin.cpp:422-448 | the walk over encoded records recovers each record's tag and data |
| GabContainer.ContainerRoundTrip | src/subtitles/SubtitleInputPin.cpp:417-475 | the walk over a written GAB1 or GAB2 container reads back exactly the records written |
| SubtitleText.ReadLeBytes | src/subtitles/SubtitleInputPin.cpp:424-427 | reading an n-byte little-endian field gives back the value stored |
| SubtitleText.ReadInt32 | src/subtitles/SubtitleInputPin.cpp:435 | an `int` read through `int*` has the four bytes as its two's-complement bits |
| SubtitleText.NarrowString | src/subtitles/SubtitleInputPin.cpp:431 | a narrow string is the bytes up to the first NUL, or to the end of the payload |
| SubtitleText.WideString | src/subtitles/SubtitleInputPin.cpp:440 | a wide string is the 16-bit units up to the first NUL unit, or to the end of the payload |
| SubtitleText.SpanOfPrefix | src/subtitles/SubtitleInputPin.cpp:481 | the leading run of a prefix that satisfies the test, followed by a unit that does not, is exactly that prefix |
| SubtitleText.NulIndex | src/subtitles/SubtitleInputPin.cpp:481 | the scan stops at the first NUL unit, or at the end when there is none |
| SubtitleText.NulIndexUnique | src/subtitles/SubtitleInputPin.cpp:481 | a position with no NUL before it that holds a NUL, or is the end, is where the scan stops |
| SubtitleText.TrimRight | src/subtitles/SubtitleInputPin.cpp:481 | `TrimRight` keeps a prefix of the string |
| SubtitleText.TrimLeft | src/subtitles/SubtitleInputPin.cpp:481 | `TrimLeft` keeps a suffix of the string that does not start with white space |
| SubtitleText.Trim | src/subtitles/SubtitleInputPin.cpp:481 | a trimmed string is no longer than the string and does not start with white space |
| SubtitleText.TrimIsSlice | src/subtitles/SubtitleInputPin.cpp:481 | the trim is a slice of the string and everything before it is white space. The slice either runs to the end, or stops before the first NUL with only white space between it and that NUL. In the second case `TrimRight` drops that white space, the NUL and everything after it |
| SubtitleText.TrimEmpty | src/subtitles/SubtitleInputPin.cpp:481-483 | a string trims to empty if and only if the units before its first NUL are all white space and either there is at least one of them or the string is empty; a string that starts with NUL keeps it |
| SubtitleText.TrimKeeps | src/subtitles/SubtitleInputPin.cpp:481 | a string that does not start with white space and has none just before its first NUL (or its end) is its own trim |
| SubtitleText.TrimmedEnd | src/subtitles/SubtitleInputPin.cpp:481 | in a trimmed string, the unit before the first NUL (or the last unit) is not white space |
| SubtitleText.TrimTwice | src/subtitles/SubtitleInputPin.cpp:481 | trimming is idempotent |
| SubtitleText.ReplaceCrLf | src/subtitles/SubtitleInputPin.cpp:480 | normalising line endings never lengthens a string, and only the empty string normalises to empty |
| SubtitleText.ReplaceCrLfUndoesToCrLf | src/subtitles/SubtitleInputPin.cpp:480 | replacing CR LF with LF undoes writing every LF as CR LF, even with lone CRs present |
| SubtitleText.ReplaceCrLfKeeps | src/subtitles/SubtitleInputPin.cpp:480 | a string without a CR LF pair is unchanged |
| SubtitleText.ReplaceCrLfPrefix | src/subtitles/SubtitleInputPin.cpp:480 | a prefix without CR passes through unchanged, whatever follows it |
| SubtitleText.ReplaceCrLfSplit | src/subtitles/SubtitleInputPin.cpp:480 | a string split anywhere except between a CR and its LF normalises piece by piece |
| SubtitleText.ReplaceCrLfNulFree | src/subtitles/SubtitleInputPin.cpp:480 | normalising brings in no NUL |
| SubtitleText.AllSpaceAppend | src/subtitles/SubtitleInputPin.cpp:481-483 | a concatenation is all white space if and only if both parts are |
| SubtitleText.ReplaceCrLfAllSpace | src/subtitles/SubtitleInputPin.cpp:480-483 | normalising line endings does not change whether a line is blank |
| SubtitleText.NormalisedTrimEmpty | src/subtitles/SubtitleInputPin.cpp:478-483 | a line that does not start with NUL normalises and trims to nothing if and only if every unit before its first NUL is white space |
| SubtitleText.DigitsValueOfDecimal | src/subtitles/SubtitleInputPin.cpp:522 | reading the decimal digits of a number gives back the number |
| SubtitleText.WcstolSkipsSpaces | src/subtitles/SubtitleInputPin.cpp:522 | leading white space does not change what `wcstol` reads |
| SubtitleText.ParseLongDecimal | src/subtitles/SubtitleInputPin.cpp:522 | a `long` written in decimal and followed by a non-digit reads back as itself |
| SubtitleText.WcstolReadsDecimal | src/subtitles/SubtitleInputPin.cpp:522-529 | `wcstol` reads back a `long` written in decimal, after white space and before non-digit text |
| SubtitleText.WcstolOfDecimal | src/subtitles/SubtitleInputPin.cpp:522 | `wcstol` of a `long` written in decimal is that `long` |
| SubtitleText.WcstolSaturates | src/subtitles/SubtitleInputPin.cpp:522 | digits too large for a `long` read as `LONG_MAX` |
| SubtitleText.WcstolNoDigits | src/subtitles/SubtitleInputPin.cpp:522 | text with no sign and no digit reads as 0 |
| SubtitleText.Wcstol | src/subtitles/SubtitleInputPin.cpp:522 | a field of only white space reads as 0 |
| SubtitleText.TicksToMs | src/subtitles/SubtitleInputPin.cpp:485 | `(int)(t / 10000)`: division truncates toward zero, so the result is the plain quotient for times that fit and the negated quotient of the magnitude for negative times; in general its 32 bits are those of the truncated quotient |
| RenderingCache.FindKey | src/subtitles/RenderingCache.h:38 | finds the first entry with the key, and finds none exactly when no entry has it |
| RenderingCache.Touch | src/subtitles/RenderingCache.h:35-47 | a lookup keeps the length; a miss changes nothing, and a hit puts the key's entry at the front |
| RenderingCache.Put | src/subtitles/RenderingCache.h:49-75 | `SetAt` puts the new entry at the front and grows the list by at most one |
| RenderingCache.Get | src/subtitles/RenderingCache.h:35-47 | a value is found if and only if some entry has the key |
| RenderingCache.MoveToHeadPermutes | src/subtitles/RenderingCache.h:42 | moving an entry to the head only reorders the entries |
| RenderingCache.MoveToHeadDistinct | src/subtitles/RenderingCache.h:42 | moving to the head keeps the keys distinct |
| RenderingCache.TouchKeepsEntries | src/subtitles/RenderingCache.h:35-47 | a lookup reorders without changing any key's value, and on a hit leaves the key at the head |
| RenderingCache.PutBounded | src/subtitles/RenderingCache.h:49-75 | a cache within its bound stays within it; it grows by one only on a miss with room |
| RenderingCache.PutThenGet | src/subtitles/RenderingCache.h:49-75 | after `SetAt`, the key is at the head, keys stay distinct and a lookup finds the new value |
| RenderingCache.PutKeepsOthers | src/subtitles/RenderingCache.h:49-75 | `SetAt` changes no other key's value, except that an evicted key is no longer found |
| RenderingCache.PutHit | src/subtitles/RenderingCache.h:54-60 | on a hit, the entry moves to the head and its value is replaced |
| RenderingCache.EvictsLeastRecent | src/subtitles/RenderingCache.h:61-72 | on a miss in a full cache, the tail (least recently used) entry is dropped and the new one is put at the head |
| RenderingCache.Cache.constructor | src/subtitles/RenderingCache.h:30-33 | a new cache is empty, with the given bound |
| RenderingCache.Cache.Lookup | src/subtitles/RenderingCache.h:35-47 | returns the key's value if present; the list and the map become the most-recently-used order with the key moved to the head |
| RenderingCache.Cache.SetAt | src/subtitles/RenderingCache.h:49-75 | the list and the map become the most-recently-used list with the key stored at the head, evicting the tail when full, and stay in step with each other |
| RenderingCache.Cache.Clear | src/subtitles/RenderingCache.h:77-81 | the list and the map are emptied together |
| ColorConvTable.Clip | src/subtitles/ColorConvTable.cpp:127-131 | the branch-free bit expression clamps the value to `[0, upper_bound]` for any non-negative bound |
| ColorConvTable.ClipByte | src/subtitles/ColorConvTable.cpp:127-131 | `clip(x, 255)` is a byte |
| ColorConvTable.Channel | src/subtitles/ColorConvTable.cpp:247-249 | each output channel is the rounded fixed-point row product, arithmetically shifted by 8 and clamped to a byte |
| ColorConvTable.DoConvert | src/subtitles/ColorConvTable.cpp:245-251 | the result packs the three clamped row products into red, green and blue, with a zero top byte |
| ColorConvTable.PackedChannels | src/subtitles/ColorConvTable.cpp:250 | three bytes packed by shift and OR read back as the same three bytes |
| ColorConvTable.ScaleIsRounded | src/subtitles/ColorConvTable.cpp:436 | the scale constant is 219/255 of 65536, rounded to the nearest integer |
| ColorConvTable.TvChannel | src/subtitles/ColorConvTable.cpp:440-442 | for any DWORD the shifted product is below 2^16, so adding 16 never wraps: the result is at least 16 and below 2^16 + 16 |
| ColorConvTable.TvChannelValue | src/subtitles/ColorConvTable.cpp:440-442 | a TV channel is the PC channel scaled by `SCALE / 65536` and offset by 16 |
| ColorConvTable.TvChannelRange | src/subtitles/ColorConvTable.cpp:440-442 | TV channels lie in `[16, 235]`; black maps to 16 and white to 235 |
| ColorConvTable.TvChannelMonotone | src/subtitles/ColorConvTable.cpp:440-442 | the compression keeps the order of channel values |
| ColorConvTable.WithChannels | src/subtitles/ColorConvTable.cpp:443 | recombining keeps alpha and puts each channel in its byte |
| ColorConvTable.RgbPcToTv | src/subtitles/ColorConvTable.cpp:433-444 | alpha is kept and each colour channel is compressed to the TV range |
| ColorConvTable.ConvFunc.constructor | src/subtitles/ColorConvTable.cpp:281-305 | the singleton starts as BT.601, TV-range video, PC output and no correction; both correction matrices hold zeros, because the constructor never fills them in |
| ColorConvTable.ConvFunc.SetDefaultConvType | src/subtitles/ColorConvTable.cpp:425-431 | the four settings take the given values and the matrices are kept |
| ColorConvTable.Correct601to709 | src/subtitles/ColorConvTable.cpp:253-261 | the correction is `DoConvert` with the TV-level matrix when the output is TV range, the PC one otherwise |
| ColorConvTable.ZeroMatrixConvert | src/subtitles/ColorConvTable.cpp:245-251 | the zero matrix converts every colour to black: each row sum is the rounding constant 128, which shifts to 0 |
| ColorConvTable.CorrectionBlanksColour | src/subtitles/ColorConvTable.cpp:463-471 | with 601-to-709 correction on, `ColorCorrection` returns black with the alpha byte kept, at either output level |
| ColorConvTable.ColorCorrection | src/subtitles/ColorConvTable.cpp:463-476 | alpha is always kept; with no correction and PC output the colour is unchanged; with TV output only, it is `RGB_PC_TO_TV`; with the correction on, the low 24 bits are the corrected colour at the selected output level |
| ColorConvTable.WithLowBytes | src/subtitles/ColorConvTable.cpp:469-471 | the top byte of the input and the 24 bits given are combined |
| ColorConvTable.SelectYuv2Rgb | src/subtitles/ColorConvTable.cpp:448-460 | the table entry chosen has the video's YUV level, the given coefficients, and TV output level if and only if TV output is set |
| ColorConvTable.Yuv2Rgb | src/subtitles/ColorConvTable.cpp:395-406 | the chosen function's three channels are clamped to bytes and packed |
| ColorConvTable.A8Y8U8V8ToArgb | src/subtitles/ColorConvTable.cpp:446-461 | the alpha byte is `a8`'s low byte and the colour is the selected function's result |
| ColorConvTable.AlphaOver | src/subtitles/ColorConvTable.cpp:460 | `(a8 << 24) \| rgb` has alpha `a8`'s low byte and colour `rgb` |
| ColorConvTable.AlphaShift | src/subtitles/ColorConvTable.cpp:460 | `a8 << 24` wrapped to 32 bits keeps only the low byte of `a8` |

## Left out

- **Threads and locks.**
  - The decoding thread, the mutex, the condition variable and `m_csReceive` are not modelled. The pin's methods run one at a time.
  - `DrainQueue` is one pass of the worker's forever loop, after its wait has returned.
  - Interleavings, where `Receive` appends while a pass is draining, are not modelled.
- **Pin plumbing.** `CheckMediaType`, `CompleteConnect`, `BreakConnect`, `NewSegment`, `IsRLECodedSub` and the constructor's thread start are not modelled. The segment start is a field fixed at construction.
- **The subtitle track classes** are not part of this model: `CRenderedTextSubtitle`, `ssf::CRenderer`, `CVobSubStream` and `CRenderedHdmvSubtitle`. The decoder's effect on them is the list of calls it makes, in order.
- **The text conversions** `CString(const char*)` (the ANSI code-page conversion of the GAB1 track name), `AToW`, `UTF8To16`, `WebVTT2SSA` and `Explode` are parameters; their behaviour is not modelled. So are the name handed to `Open` and the `DEFAULT_CHARSET` it gets.
- **`INVALID_TIME`.** Its definition is not part of this model; it is taken as the smallest 64-bit value.
- **Time overflow.** `REFERENCE_TIME` is modelled as an unbounded integer, so a 64-bit overflow when adding the segment start is not modelled. The `(int)` cast of the millisecond times is modelled with 32-bit wrap-around.
- **`GetActualDataLength`** returning zero or a negative value is modelled as an empty payload, which the source also drops. A length larger than the buffer is not modelled.
- **Out-of-bounds reads.** The source reads GAB record headers, entry times and NUL-terminated strings without bounds checks. In the model:
  - the walk stops when fewer bytes than a header remain;
  - an entry record too short for its two times adds nothing, although it still sets `fInvalidate`;
  - strings stop at the end of the payload.
  Reading past the end is not modelled.
- **`strncmp`** on a payload shorter than four bytes compares up to the buffer's end. The model treats such a payload as having no magic.
- **`iswspace` and `CString::Trim`** are taken as the C locale's white space: space and `\t` to `\r`.
- **ATL's `CStringT`** is not part of this model. `Trim`, `TrimRight`, `TrimLeft` and `Replace` follow its behaviour on strings with an embedded NUL: `TrimRight` looks only at the units before the first NUL, and `Replace` works on the whole buffer.
- **`GetTime`** returning an unexpected code in a release build, where `ASSERT` is compiled out, returns that code; the model does the same. The debug assertions are not modelled.
- **Floating-point colour maths.** `MultiplyMatrix`, `InitColorCorrectionMatrix` and the floating-point YUV-to-RGB expressions behind `DEFINE_YUV2RGB_FUNC` are not modelled. `InitColorCorrectionMatrix` has no caller, so the correction matrix and its product with `RGB_TV` are fields of `ConvFunc` fixed at zero. The unclamped YUV results are a parameter of `Yuv2Rgb`.
- **Colour enums.** The `YuvMatrixType` and `YuvRangeType` declarations are not part of this model; their values are taken from their uses. `IsNearlyEqual` and the rest of `ColorConvTable.cpp` are not modelled.
- **`RenderingCache.cpp`** is not modelled.
- **Rendering-cache internals.**
  - The `CAtlMap` and `CAtlList` of the cache are modelled as a map from key to node id and a sequence of nodes. Positions are ids.
  - RenderingCache.Cache.SetAt: the returned `POSITION` is not modelled, and `maxSize >= 1` is required. With a bound of 0, the source removes the tail of an empty list.
- **A negative sample start.** A sample with a negative start whose decoding changes text reports that start. The worker ignores negative values, so such a sample never invalidates the rendered subtitles. The model keeps this behaviour.
