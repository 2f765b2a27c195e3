# Verified model of the AWS Greengrass component SDK core

This project models four components of the SDK in Dafny and proves properties of them. They share one value
type, the object tree of `include/gg/object.h`: null, boolean, 64-bit integer, float, bytes, list, and map of pairs.

* **JSON codec and object trees.** The decoder parses with greedy combinators, once to learn type, content and
  element count, and then again child by child, while it unescapes strings in the buffer it is reading. The
  encoder prints the events of a non-recursive visitor. Decoded maps lose duplicate keys by swapping with the last
  entry and are then insertion-sorted. Objects can be claimed into a bump arena.
* **IPC stream table.** A fixed table of slots (stream id, 16-bit generation, handler) that calling threads, the
  receive thread and close calls share under one recursive mutex.
* **EventStream framing.** A binary packet format with two chained CRCs, a header validator and an unchecked
  header iterator.
* **Base64.** Strict decoding, also in place.

Run `dafny verify dfyconfig.toml` in this directory to check everything.

## How the model is laid out

| file | what is in it |
|---|---|
| `Common.dfy`, `Objects.dfy`, `Buffers.dfy` | bytes, error codes, the object tree, `GgBuffer` variables, writers, and how memory changes |
| `ObjectVisit.dfy`, `VisitEvents.dfy` | the explicit-stack visitor against a recursive traversal; its event sequence and limits |
| `MapCanonical.dfy`, `ObjectCanonical.dfy` | pruning, sorting, the canonical form of a map and of a tree |
| `Arena.dfy` | the bump arena, memory usage, claiming an object |
| `JsonGrammar.dfy`, `JsonParser.dfy` | the grammar as data, the meaning of a parser, the combinators that run in place |
| `JsonSyntax.dfy`, `JsonCut.dfy` | the accepted language as direct functions; a parse does not change when the input is cut behind it |
| `BufferOps.dfy`, `JsonUnescape.dfy` | integer parsing; string unescaping and its in-place algorithm |
| `JsonDecode.dfy`, `JsonDecodeInPlace.dfy` | what is decoded, as a function of the bytes; the destructive decoder |
| `JsonEncode.dfy`, `JsonPrinted.dfy`, `JsonRoundTrip.dfy` | the event printer; how printed text parses; decoding what was encoded |
| `JsonLiterals.dfy`, `JsonTokens.dfy` | string literals, numbers, words and white space as RFC 8259 writes them, by their byte values |
| `IpcTable.dfy`, `IpcClient.dfy` | the slot table; the critical sections as steps |
| `IpcRuns.dfy`, `IpcResults.dfy` | theorems over all runs: contexts, closing and handles; which callback runs and what a call returns |
| `Crc32.dfy` | the table-driven CRC against the bit-at-a-time CRC of section 8 of RFC 1952 |
| `CrcKernel.dfy` | which changes at the end of a message cancel against a change of the CRC behind it |
| `EventStream.dfy`, `EventStreamCodec.dfy`, `EventStreamReader.dfy` | the packet format; the encoder; the decoder and packet reader |
| `EventStreamBorder.dfy` | changes across the border between a message and its CRC |
| `CrcAnswers.dfy`, `EventStreamAnswers.dfy`, `Base64Answers.dfy`, `ObjectAnswers.dfy` | check values, test vectors and documented examples, written out; codes of refused streams |
| `Base64.dfy` | the decoder and encoder, sections 3.5 and 4 of RFC 4648 |

Code that works on memory is modelled on `array<byte>`, with a `Cursor` for a `GgBuffer` variable. Each such
method is proved against a function of the bytes that were there before, and says what it leaves unchanged. The
combinators, the IPC client and the visitor stack are classes or methods with the fields and loops of the source.

## Where the code differs from what its documentation suggests

* Integers whose text has nineteen characters are not printed exactly: the local buffer of
  `src/json_encode.c:32` holds eighteen characters and a NUL, but nineteen bytes are written
  (`JsonPrinted.NineteenCharacters`). What is printed then is refused by the decoder
  (`JsonRoundTrip.NineteenCharactersRefused`). With twenty characters encoding reports NOMEM (`JsonTokens.LongIntegers`). So the round trip
  holds exactly for objects whose integers have at most eighteen characters and whose strings are structurally
  valid UTF-8 (`JsonRoundTrip.RoundTrip` is an equivalence, and `JsonRoundTrip.EncodeThenDecode` says it of the
  encoder and the decoder themselves).
* A subscription callback must not run after a close has returned (`cpp/include/gg/ipc/subscription.hpp:99-105`).
  That fails once the callback for the response of the subscribe call itself closes the handle of that very
  subscription and reports success: the slot is freed, and then `response_handler` installs the subscription in it
  all the same, under a new generation. Neither that close is final (`IpcRuns.SelfCloseIsUndone`) nor any later one
  that finds the handle stale (`IpcRuns.LaterCloseDoesNothing`). In every run, all closes of an issued handle are
  final iff this does not happen (`IpcRuns.CloseIsFinalInEveryRun`), and a single call to close is final iff
  `validate_handle` accepts the handle or the stream has ended (`IpcRuns.CloseCallIsFinal`).
* After such a revival, callbacks see the handle that `ggipc_subscribe` gave out iff the generation had been bumped
  a multiple of 65536 times by then (`IpcRuns.RevivedHandleInEveryRun`, `IpcRuns.CallbacksSeeTheirHandleInEveryRun`).
* `gg_obj_canonicalize` counts entries before they are pruned, but not what is below pruned entries. So it succeeds
  on some trees beyond the limits of `include/gg/object.h`; `ObjectCanonical.Canonicalize` says on which.
* A 32-bit CRC is expected to show every change within four consecutive bytes. In an EventStream packet it does,
  unless the change lies across the border between the message and the CRC behind it: the last two bytes of the
  message combined with 0x61 and 0xD8 by exclusive or, and the first two of the CRC with 0xF4 and 0xEE, give an
  accepted packet with another content (`EventStreamBorder.UndetectedChange`). No other change of up to four
  consecutive bytes goes undetected (`EventStreamBorder.BurstAcrossBorder`, `EventStream.BurstIsDetected`).
* `1.` is accepted as a number, which is wider than section 6 of RFC 8259 (`src/json_decode.c:361-362`,
  `JsonTokens.NoFractionDigits`).
* A timed-out call clears its slot without looking whether a response arrived or whether the slot is still its
  own (`src/ipc/client.c:606-615`). The steps of the model do the same, and the invariant holds nevertheless. So a
  timeout may end a subscription, or another call's request (`IpcResults.TimeoutEndsSubscription`,
  `IpcResults.TimeoutEndsAnother`).

## Model

| member | source | states |
|---|---|---|
| ObjectVisit.VisitLoop | src/object_visit.c:34-158 | The explicit-stack loop gives the same error, context and rewritten tree as the recursive traversal, for handlers that may fail and may rewrite the tree; it terminates, its stack is never overrun and its 8-bit counters never overflow. |
| ObjectVisit.VisitSwitch | src/object_visit.c:53-148 | The switch does to the current object what the recursive traversal does there first: it fails, finishes, enters the container or goes down to the next child. |
| ObjectVisit.VisitCurrent | src/object_visit.c:49-148 | One round of the loop keeps the relation between the stack and what the recursion still has to do, and makes the measure smaller. |
| ObjectVisit.IterLevels.Push | src/object_visit.c:108-119 | Going down one level stays inside the fifteen levels and changes neither the tree nor what is left to do. |
| ObjectVisit.PopStep | src/object_visit.c:150-154 | Going back up, with the child rewritten inside its container, changes neither the tree nor what is left to do. |
| ObjectVisit.MeasureDrops | src/object_visit.c:48-158 | The termination measure over fifteen levels gets smaller in every round. |
| VisitEvents.VisitReportsEvents | include/gg/object.h:17-26 | Handlers that do not interfere see exactly the recursive pre-order event sequence, and the visit succeeds iff depth is at most 15 and the subobject count at most 255. |
| ObjectAnswers.DocumentedExamples | include/gg/object.h:17-26 | Depth and subobjects of the examples in the header. |
| VisitEvents.VisitObserves | src/object_visit.c:34-158 | The same for handlers that can fail: the visit feeds them the pre-order events up to the first failure. |
| MapCanonical.IsKeyLess | src/map_canonical.c:10-25 | Decides lexicographic order of the key bytes, defined by a common prefix. |
| MapCanonical.LessTotal | src/map_canonical.c:10-25 | Different keys are comparable, so sorting has one result. |
| ObjectAnswers.KeyOrder | src/map_canonical.c:10-28 | A prefix comes first, and bytes are compared as unsigned numbers. |
| MapCanonical.MapGet | src/map.c:69-82 | Finds the first entry with the key, or reports that there is none. |
| MapCanonical.PruneDuplicates | src/map_canonical.c:27-52 | Despite swapping with the last entry, no lookup changes, no key is left twice, and entries behind the map are untouched. |
| MapCanonical.SortKeys | src/map_canonical.c:54-63 | Insertion sort leaves strictly increasing keys and changes no lookup. |
| MapCanonical.CanonicalizeShallow | src/map_canonical.c:65-68 | What is left in the array is exactly the canonical form of the entries it held. |
| MapCanonical.CanonKeeps | src/map_canonical.c:65-68 | The canonical form is strictly sorted, answers every lookup like the original and contains only its entries. |
| MapCanonical.CanonicalFormUnique | src/map_canonical.c:65-68 | Two strictly sorted maps with equal lookups are the same sequence of pairs. |
| MapCanonical.CanonDependsOnLookupOnly | src/map_canonical.c:65-68 | Maps with equal lookups canonicalize to the same sequence. |
| MapCanonical.CanonFixesSorted | src/map_canonical.c:65-68 | Canonicalizing changes nothing iff the map is strictly sorted; so it is idempotent. |
| MapCanonical.MapIsCanonical | src/map_canonical.c:70-80 | Comparing neighbours decides whether all pairs of keys are in order. |
| ObjectCanonical.Canonicalize | src/object_canonical.c:19-27 | It returns OK iff the pruned tree is within the depth limit and the entries that are walked, pruned ones included but not what is below them, are within the subobject limit; else RANGE. Then the tree is the deep canonical form. |
| ObjectCanonical.CanonWithin | include/gg/object.h:17-26 | Pruning makes no tree deeper, and what the walk counts lies between the subobjects of the canonical and of the original tree, so a tree within the limits is accepted and an accepted one ends within them. |
| ObjectCanonical.VisitCanonicalizes | src/object_canonical.c:10-27 | The visitor produces the deep canonical form although it walks the tree it is rewriting, and fails exactly when the tree it walks is beyond the limits. |
| ObjectCanonical.DeepCanonLevelFirst | src/object_canonical.c:10-17 | Pruning a level before its children are canonicalized gives the same tree as afterwards. |
| ObjectCanonical.IsCanonical | src/object_canonical.c:40-43 | Accepts exactly the trees within the limits in which every map is strictly sorted. |
| ObjectCanonical.CanonicalizedIsCanonical | src/object_canonical.c:19-43 | Whatever `gg_obj_canonicalize` accepts is canonical afterwards, and within the limits. |
| ObjectCanonical.DeepCanonIdempotent | src/object_canonical.c:19-27 | Only canonical trees are left unchanged, and canonicalizing twice is canonicalizing once. |
| ObjectCanonical.MapGetPath | src/map.c:84-100 | Follows a path of keys through nested maps. |
| ObjectCanonical.CanonKeepsPaths | src/map.c:84-100 | After deep canonicalization a path leads to a value iff it did before, namely to the canonical form of that value. |
| Arena.GgArena.Allocate | src/arena.c:21-53 | A successful allocation is aligned, starts at or after everything allocated before and ends inside the arena; it fails iff padding and size do not fit. |
| Arena.PaddingAligns | src/arena.c:35 | The padding makes the index a multiple of the alignment and is smaller than it. |
| Arena.GgArena.ClaimBuffer | src/arena.c:123-144 | Copies a foreign buffer into the arena and leaves an owned one alone. |
| Arena.MemUsage | src/object.c:208-222 | Reports the memory usage of the tree iff it is within the limits, and RANGE otherwise. |
| Arena.ClaimObj | src/arena.c:200-208 | For every object whose arena-owned parts lie in allocated space: claiming succeeds iff the object is within the limits and the bytes that its other parts need are free, and allocates exactly those; else it fails with NOMEM, or with RANGE beyond the limits. On success every part is in the arena (an empty one may be NULL). In any case the object is deep-equal and the bytes of earlier buffers stay. `gg_obj_mem_usage` bytes are always enough. |
| Arena.VisitClaims | src/arena.c:146-208 | The same for every subtree and every state of the arena, by induction over the traversal. |
| Arena.ForeignWithinUsage | src/object.c:178-222 | `gg_obj_mem_usage` reports at least what claiming needs, and exactly that for an object outside the arena. |
| JsonGrammar.ValueGrammarGrounded | src/json_decode.c:333-462 | Every repeated parser of the value grammar consumes, and the grammar refers to itself only after consuming: parsing terminates. |
| JsonParser.Run | src/json_decode.c:56-191 | A parser that fails leaves the buffer as it was; one that always consumes makes it shorter. |
| JsonParser.RunIsDisciplined | src/json_decode.c:19-23 | On every input every grammar parser either consumes a prefix or leaves the buffer unchanged, and never invents or drops the output. |
| JsonParser.ParserCall | src/json_decode.c:56-60 | Running a parser in place on a buffer variable and a result gives what the meaning of the parser says. |
| JsonParser.CombSequence | src/json_decode.c:83-98 | Works on a copy, and restores the buffer when a later part fails. |
| JsonParser.CombOneOf | src/json_decode.c:62-75 | The first alternative that matches wins. |
| JsonParser.CombZeroOrMore | src/json_decode.c:106-112 | Greedy repetition ends, at the first failure. |
| JsonParser.CombResultVal | src/json_decode.c:150-164 | Reports type and content of a match, counted so that they stay valid while the buffer is consumed. |
| JsonParser.CombIncrementCount | src/json_decode.c:380-391 | Counts matches only. |
| JsonParser.ParserCodepoint | src/json_decode.c:277-327 | Accepts structurally valid UTF-8 outside control characters, quotes and backslashes. |
| JsonSyntax.RunValue | src/json_decode.c:450-462 | The combinator grammar accepts exactly the values of the direct functions and reports their type, content and count. |
| JsonSyntax.RunStr | src/json_decode.c:340-346 | The same for strings with escapes. |
| JsonSyntax.RunNumber | src/json_decode.c:351-378 | The same for numbers, including a fraction without digits. |
| JsonSyntax.RunArray | src/json_decode.c:424-439 | The same for lists: greedy elements with commas, and a last element. |
| JsonSyntax.RunObject | src/json_decode.c:400-422 | The same for maps. |
| JsonCut.CutValue | src/json_decode.c:450-462 | Cutting the input at or after the end of a value does not change its parse. |
| JsonCut.TwoPassAgreement | src/json_decode.c:398-462 | When the first pass accepts a list or map, the count is the true number of elements and the second pass over the content matches every child, comma and colon. |
| BufferOps.StrToInt64 | src/buffer.c:101-140 | OK with n iff the text is an optional minus and digits that denote n within int64; RANGE iff some prefix denotes a number outside it; no intermediate value overflows. |
| BufferOps.MultOverflowExact | src/buffer.c:89-95 | The overflow test by truncating division is exact for the factor used. |
| BufferOps.OverflowsIffTooBig | src/buffer.c:125-134 | For digit strings the reported overflow is that of the whole number. |
| JsonUnescape.Utf8Exact | src/json_decode.c:496-529 | The bytes written for a code point are one structurally valid sequence, and denote it. |
| JsonUnescape.HandleUtf16Escape | src/json_decode.c:531-570 | Combines surrogate pairs and refuses lone surrogates; what is read is what was there before anything is written. |
| JsonUnescape.HandleEscape | src/json_decode.c:572-610 | One escape is read, and the bytes it stands for are written. |
| JsonUnescape.UnescapeString | src/json_decode.c:612-629 | Overwriting a string from the front gives the unescaped form of the original bytes; the write position never passes the read position, and nothing outside the string changes. |
| JsonUnescape.UnescapeFailsForSurrogates | src/json_decode.c:531-570 | Content that the grammar accepts fails to unescape iff it contains a lone surrogate. |
| JsonLiterals.LiteralDecodes | src/json_decode.c:496-629 | Every string literal of section 7 of RFC 8259 decodes to what its characters mean, whichever of them are escaped, by one of the eight short escapes or by code units with hex digits of either case, in surrogate pairs beyond 16 bits. |
| JsonLiterals.ShortEscapesOnly | src/json_decode.c:572-610 | A backslash and one byte, in quotation marks, are accepted iff they are one of the eight short escapes, with the meaning the standard gives it. |
| JsonLiterals.PlainBytesOnly | src/json_decode.c:277-327 | A byte below 0x80 in quotation marks is accepted as it is iff it is not a control character, quotation mark or backslash. |
| JsonLiterals.LoneUnitRefused | src/json_decode.c:531-570 | A surrogate that is alone in its literal is refused for that. |
| JsonTokens.Encodings | src/json_decode.c:496-529 | The UTF-8 bytes of four code points, and of a surrogate pair in a literal. |
| JsonDecode.DecodeNeverFindsSyntaxErrors | src/json_decode.c:684-820 | Once a value has parsed, decoding it fails only for memory, number range or a lone surrogate. |
| JsonDecode.MalformedExactly | src/json_decode.c:822-851 | A syntax error is found iff the buffer does not start with a value, or something follows a value that decodes. |
| JsonTokens.IntegerTextDecodes | src/json_decode.c:644-679 | Decimal digits without leading zeros, with or without a minus, decode to their value iff it is in the int64 range, and else fail for the range. |
| JsonTokens.FloatTextDecodes | src/json_decode.c:361-378 | With a fraction, of which no digits are needed, or an exponent, or both, the text is a float iff `strtod` finds it in range. |
| JsonTokens.NoFractionDigits | src/json_decode.c:361-362 | `1.` is a float. |
| JsonTokens.LeadingZeroRefused | src/json_decode.c:351-359 | A zero with a digit behind it is refused. |
| JsonTokens.OtherStartsRefused | src/json_decode.c:450-462 | A text that starts with none of the bytes that start a value, nor with white space, is refused. |
| JsonTokens.FailureCodes | src/json_decode.c:644-679 | The codes: PARSE for malformed text and lone surrogates, RANGE for numbers, NOMEM for lack of memory. |
| JsonTokens.WordsDecode | src/json_decode.c:441-448 | The three words decode to true, false and null. |
| JsonTokens.LeadingSpace | src/json_decode.c:333-338 | Space, tab, line feed and carriage return before a text do not change what it decodes to. |
| JsonTokens.NoSpaceAfterValue | src/json_decode.c:450-462 | White space after a value is consumed with it. |
| JsonTokens.SpaceAfterOpening | src/json_decode.c:407-439 | White space after an opening bracket or brace does not change what is parsed. |
| JsonTokens.SpaceBeforeColon | src/json_decode.c:400-405 | White space between a key and its colon does not change what is parsed. |
| JsonTokens.SpaceAfterComma | src/json_decode.c:407-422 | White space after a comma between pairs does not change what is parsed. |
| JsonDecode.MemoryOnlyBounds | src/json_decode.c:684-778 | The object decoded does not depend on the arena: with the bytes a successful decode used it is the same, and with fewer the error is NOMEM. |
| JsonDecodeInPlace.TakeJsonVal | src/json_decode.c:781-820 | Decodes the bytes the buffer held before the call although strings are overwritten; changes nothing beyond the value it takes. |
| JsonDecodeInPlace.DecodeJsonArray | src/json_decode.c:684-720 | Elements decoded earlier keep their bytes while later ones are unescaped; the list is the decoding of the original content. |
| JsonDecodeInPlace.DecodeJsonObject | src/json_decode.c:723-778 | The same for maps, which come out canonical. |
| JsonDecodeInPlace.DecodeJsonStr | src/json_decode.c:631-642 | The decoded string is the part of the buffer its address says. |
| JsonDecodeInPlace.DecodeJsonNumber | src/json_decode.c:644-679 | Integer or float is told apart by parsing the content again. |
| JsonDecodeInPlace.JsonDecodeDestructive | src/json_decode.c:822-851 | Destructive decoding equals decoding of the original bytes, error cases included; every string and key is where its address says, every list and map in newly allocated arena memory, and the arena is charged only on success. |
| JsonEncode.EncodeOnI64 | src/json_encode.c:29-46 | Exactly the bytes of the truncating print reach the writer. |
| JsonEncode.WriteBufByte | src/json_encode.c:67-105 | One byte is written as itself or as its escape. |
| JsonEncode.EncodeOnBuf | src/json_encode.c:107-128 | A quoted, escaped string is written piece by piece until something does not fit. |
| JsonEncode.EncodeOnMapKey | src/json_encode.c:154-162 | A key is written as a string and then a colon, up to the first piece that does not fit. |
| JsonEncode.EventsPrint | src/json_encode.c:130-172 | Feeding the handlers the events of a tree writes its recursively defined text iff there is one and it fits. |
| JsonEncode.JsonEncode | src/json_encode.c:174-190 | Encoding succeeds iff the tree is within the limits, has a text and the text fits; then it wrote that text. Beyond the limits it fails with RANGE, or with NOMEM if an integer or the room ends it before. |
| JsonTokens.EscapesPrinted | src/json_encode.c:67-105 | Quotation mark and backslash get a backslash, control characters are written as code units with upper-case digits, and nothing else is escaped. |
| JsonTokens.PrintedScalars | src/json_encode.c:18-46 | The texts of null, true, false and -120, byte by byte. |
| JsonTokens.PrintedList | src/json_encode.c:130-145 | The text of a list of two nulls, byte by byte. |
| JsonTokens.PrintedMap | src/json_encode.c:146-172 | The text of a map with one entry, byte by byte. |
| JsonTokens.LongIntegers | src/json_encode.c:29-46 | The exact ranges of integers with nineteen characters, and of those that are not printed at all. |
| JsonPrinted.ShortIntegers | src/json_encode.c:31-46 | The integers printed exactly are those strictly between -10^17 and 10^18. |
| JsonPrinted.NineteenCharacters | src/json_encode.c:32-46 | At nineteen characters what is printed is the text of a tenth of the integer and a NUL. |
| JsonPrinted.IntTextExact | src/json_encode.c:33 | Parsing a printed integer gives it back. |
| JsonPrinted.QuotedParses | src/json_encode.c:107-128 | A printed string parses iff it is structurally valid UTF-8. |
| JsonPrinted.UnescapeEscape | src/json_encode.c:67-105 | Unescaping undoes escaping for all bytes. |
| JsonRoundTrip.PrintParses | src/json_encode.c:174-190 | Printed text parses to the type, count and content of the object, whatever may follow it, unless something in it was not printed faithfully. |
| JsonRoundTrip.NineteenCharactersRefused | src/json_encode.c:32-46 | What is printed for a nineteen-character integer is refused by the decoder. |
| JsonRoundTrip.RoundTrip | src/json_decode.c:822-851 | For every float-free object with a text: decoding it gives exactly the deeply canonicalized object iff strings are structurally valid UTF-8, integers have at most eighteen characters and the arena holds the element arrays; otherwise it is refused as malformed, or for memory. |
| JsonRoundTrip.EncodeThenDecode | src/json_encode.c:174-190 | Encoding an object and decoding the text that was written, in place, gives the deeply canonicalized object; each way in which it does not has its exact condition and error. |
| JsonRoundTrip.DecodedIsSorted | src/json_decode.c:765-778 | In whatever is decoded every map is strictly sorted and free of duplicates. |
| IpcTable.StreamTable.ValidateHandle | src/ipc/client.c:101-124 | Accepts a handle for a slot iff it is that slot's current handle. |
| IpcTable.StreamTable.GetCurrentHandle | src/ipc/client.c:127-132 | The handle is never 0 and validates to its slot. |
| IpcTable.StreamTable.GetStreamIndexFromId | src/ipc/client.c:135-147 | Finds the first slot with a positive id. |
| IpcTable.StreamTable.ClaimStreamIndex | src/ipc/client.c:150-160 | Reserves the first free slot under a new generation. |
| IpcTable.StreamTable.ClearStreamIndex | src/ipc/client.c:171-175 | Frees a slot under a new generation, also when the 16-bit counter wraps around. |
| IpcTable.HandleNamesItsSlot | src/ipc/client.c:101-132 | A handle names at most one slot, and 0 names none. |
| IpcTable.RefusedHandle | src/ipc/client.c:101-124 | A handle is INVALID iff its low half names no slot of the table, and NOENTRY iff its high half is not that slot's generation. |
| IpcTable.StaleHandle | src/ipc/client.c:101-132 | After k generation bumps a handle is accepted again iff k is a multiple of 65536. |
| IpcTable.CloseTwice | src/ipc/client.c:798-823 | Closing twice is closing once. |
| IpcClient.NextKeepsInv | src/ipc/client.c:509-823 | Every step, with any packets, send results, timeouts and re-entrant closes, keeps the table invariant. |
| IpcClient.WaitingContext | src/ipc/client.c:741-746 | The context found in a waiting slot is that of a call that is still blocked and whose request carried the packet's stream id. |
| IpcClient.Client.SubscribeStart | src/ipc/client.c:521-600 | The first critical section of a call takes the step of the model, and gives out a handle that validates. |
| IpcClient.Client.WaitEnds | src/ipc/client.c:606-617 | The end of a wait takes the step of the model: a timeout clears the slot without looking at the response. |
| IpcClient.Client.ResponseHandler | src/ipc/client.c:442-485 | Writes only to the context of a call that is still blocked. |
| IpcClient.Client.DispatchIncomingPacket | src/ipc/client.c:704-765 | Dispatching a packet takes the step of the model; a callback is given the slot's current handle. |
| IpcClient.Client.CloseSubscription | src/ipc/client.c:798-823 | Closing takes the step of the model and keeps the invariant. |
| IpcRuns.EverySlotIsAccountedFor | src/ipc/client.c:442-618 | In every reachable state each claimed slot is a live subscription or holds the context of a call still blocked, no context is in two slots, and stream ids are positive, distinct and below the next one. |
| IpcRuns.NoUseAfterReturn | src/ipc/client.c:606-617 | In every run, once a call has returned no packet ever touches its context. |
| IpcRuns.PacketReachesItsRequest | src/ipc/client.c:728-746 | A packet reaches only the slot that was claimed for the request that carried its stream id. |
| IpcResults.CallbackIsTheOneGiven | src/ipc/client.c:471-479 | In every run, every callback that runs for a stream is the function that the subscribe call of that stream passed, with both its contexts. |
| IpcResults.CallsAreIssued | src/ipc/client.c:749-756 | In every run no callback runs for a stream that was not issued. |
| IpcResults.ReturnedCode | src/ipc/client.c:583-617 | In every run a call returns the error of sending its request, or TIMEOUT for a wait that timed out, or the code its response was answered with before. |
| IpcResults.AnsweredCodeInEveryRun | src/ipc/client.c:442-485 | In every run a response is answered with the code of its handling, or with FAILURE if it is that of a subscription that succeeded but terminates the stream. |
| IpcResults.AnsweredOnce | src/ipc/client.c:442-485 | In every run no request is answered twice. |
| IpcResults.AnswerIsReturned | src/ipc/client.c:601-617 | In every run a call whose request was answered returns that code when it is woken, or TIMEOUT when its wait times out first. |
| IpcResults.LiveAfterResponse | src/ipc/client.c:442-485 | After a response the stream is a live subscription iff it succeeded, a callback was passed and the stream was not terminated; otherwise its slot is free. |
| IpcResults.LiveAfterEvent | src/ipc/client.c:749-764 | An event leaves its subscription as it is iff it is handled without error, does not terminate the stream and its callback does not close it; otherwise its slot is free. |
| IpcResults.FailedResponseClearsTwice | src/ipc/client.c:442-485 | A concrete run in which a response callback closes its handle and fails: the slot's generation is bumped twice. |
| IpcResults.FailedEventClearsTwice | src/ipc/client.c:749-762 | The same for the callback of an event. |
| IpcResults.TimeoutEndsSubscription | src/ipc/client.c:606-615 | A concrete run in which a timeout ends a subscription that was answered in the meantime. |
| IpcResults.TimeoutEndsAnother | src/ipc/client.c:606-615 | A concrete run in which a timeout ends the request of another call that has the slot by then. |
| IpcRuns.CloseEnds | src/ipc/client.c:798-823 | A step that closes the issued handle, from any thread or callback, ends the subscription iff the subscription is not installed right after it by its own response, and is not alive under another handle that the step leaves alone. |
| IpcRuns.CloseIsFinal | cpp/include/gg/ipc/subscription.hpp:99-105 | For every reachable state and every step that closes the issued handle: no continuation calls the subscription's callback again iff neither of these two cases holds. |
| IpcRuns.CloseCallIsFinal | src/ipc/client.c:798-823 | A call to close is final iff `validate_handle` accepts the handle or no slot carries the stream any more. |
| IpcRuns.CloseIsFinalInEveryRun | cpp/include/gg/ipc/subscription.hpp:99-105 | In every run from the start of the client in which a handle is given out, all steps that close it are final iff no step of the run revives the stream. |
| IpcRuns.SelfCloseIsUndone | src/ipc/client.c:450-480 | A concrete run in which a callback runs after the close of its handle inside its own response callback. |
| IpcRuns.LaterCloseDoesNothing | src/ipc/client.c:798-823 | A concrete run in which a callback runs after a plain call to close its handle. |
| IpcRuns.RevivedHandle | src/ipc/client.c:150-175 | In any state of the invariant: the handle of a revived stream is the one given out iff its generation was bumped a multiple of 65536 times since. |
| IpcRuns.RevivedHandleInEveryRun | src/ipc/client.c:150-175 | The same in every run from the start of the client, for the handle that `ggipc_subscribe` gave out. |
| IpcRuns.CallbacksSeeTheirHandle | src/ipc/client.c:749-756 | From any state of the invariant: all callbacks of a subscription get one handle, and it is the one given out iff the stream was never revived or its generation was bumped a multiple of 65536 times when it was. |
| IpcRuns.CallbacksSeeTheirHandleInEveryRun | src/ipc/client.c:749-756 | The same in every run from the start of the client, for the handle that `ggipc_subscribe` gave out. |
| IpcRuns.IssuedIsNamed | src/ipc/client.c:576-578 | The handle given out is not 0 and names the claimed slot. |
| IpcRuns.StaleHandleInRun | src/ipc/client.c:101-175 | From any state of the invariant: later in the run the handle is accepted iff the slot's generation has been bumped a multiple of 65536 times since; before that, closing it changes nothing. |
| IpcRuns.StaleHandleInEveryRun | src/ipc/client.c:101-175 | The same in every run from the start of the client, for the handle that `ggipc_subscribe` gave out. |
| Crc32.MakeCrcTable | src/crc32.c:35-47 | Entry n of the table is the register after eight shifts of n. |
| Crc32.CrcStep | src/crc32.c:49-51 | One table lookup equals feeding the eight bits of the byte one at a time. |
| Crc32.UpdateCrc | src/crc32.c:55-61 | The table-driven update equals the bit-at-a-time CRC on every buffer. |
| Crc32.TableStep | src/crc32.c:49-51 | Eight shifts of a register split into the table entry of its low byte and the other bytes moved down. |
| Crc32.CrcChains | src/crc32.c:55-61 | Updating with two pieces in turn equals updating with both at once. |
| CrcAnswers.CheckValue | src/crc32.c:49-61 | The CRC of the digits from 1 to 9 is the check value 0xCBF43926. |
| Crc32.BurstChangesCrc | src/crc32.c:49-61 | Any change confined to four consecutive bytes changes the CRC. |
| EventStream.Be32Exact | src/eventstream/encode.c:17-22 | Writing and reading big-endian 32-bit numbers are inverse, both ways. |
| EventStream.HeaderWritten | src/eventstream/encode.c:24-94 | An encoded header is read back as itself, and its length is what the validator says. |
| EventStream.HeaderRead | src/eventstream/decode.c:68-123 | A header the validator accepts is the encoding of what is read from it. |
| EventStream.HeadersWritten | src/eventstream/decode.c:125-141 | The encoding of n headers is counted as n, and read back as those headers. |
| EventStream.HeadersRead | src/eventstream/decode.c:125-141 | Re-encoding the headers of an accepted section gives its bytes. |
| EventStream.PacketReadsBack | src/eventstream/rpc.c:15-51 | A packet is read back as its headers and payload, and the read consumes exactly the message length. |
| EventStream.StreamReadsBack | src/eventstream/rpc.c:15-51 | Any sequence of encoded packets, put into one stream, is read back packet by packet. |
| EventStream.AcceptedIsEncoded | src/eventstream/decode.c:143-188 | Re-encoding any accepted packet reproduces its bytes. |
| EventStreamAnswers.EmptyPacket | src/eventstream/encode.c:100-171 | The sixteen bytes of the packet without headers and payload. |
| EventStreamAnswers.HeaderBytesWritten | src/eventstream/encode.c:24-98 | The bytes of a string header and of integer headers. |
| EventStreamAnswers.TruncatedPacket | src/eventstream/rpc.c:15-51 | A packet that is cut anywhere is refused as a failed read. |
| EventStreamAnswers.PacketTooLarge | src/eventstream/rpc.c:33-36 | A packet that does not fit the buffer is refused with NOMEM. |
| EventStreamAnswers.PreludeCodes | src/eventstream/decode.c:31-65 | An incomplete prelude is refused with RANGE, any other with PARSE. |
| EventStream.BurstIsDetected | src/eventstream/decode.c:36-63 | An accepted packet with up to four consecutive bytes changed, all before the message CRC or all inside it, is refused with PARSE. |
| EventStreamBorder.BurstAcrossBorder | src/eventstream/decode.c:31-65 | A change of up to four consecutive bytes across the border between the message and its CRC is refused with PARSE, unless it is the one pattern 61 D8 F4 EE, lies behind the prelude and leaves the header section intact; then it is accepted as a different message. |
| EventStreamBorder.UndetectedChange | src/eventstream/encode.c:150-158 | Every packet with at least two bytes of payload has a change of four consecutive bytes that is accepted as a different message. |
| EventStreamBorder.UndetectedChangeExists | src/eventstream/decode.c:36-63 | There are two accepted packets of 18 bytes that differ only within four consecutive bytes. |
| CrcKernel.OnlyPattern | src/crc32.c:49-61 | If the last one to three bytes of a message change and as many of the last bytes of its CRC do not, two bytes changed by the one pattern. |
| CrcKernel.PatternChanges | src/crc32.c:49-61 | That pattern changes just the first two bytes of the CRC, always in the same way. |
| EventStreamCodec.HeaderEncoded | src/eventstream/encode.c:24-94 | A header is written completely iff name and string are within the limits and it fits. |
| EventStreamCodec.HeaderEncode | src/eventstream/encode.c:24-94 | Writes into the buffer exactly what the header's pieces are, and nothing before or after. |
| EventStreamAnswers.HeaderCodes | src/eventstream/encode.c:24-98 | RANGE for a name or string that is too long, NOMEM for lack of room, whichever is found first. |
| EventStreamAnswers.EncodeCodes | src/eventstream/encode.c:100-171 | With headers within the limits, encoding fails with NOMEM for lack of room, or with the code of the payload reader. |
| EventStreamCodec.EncodeExactly | src/eventstream/encode.c:96-171 | Encoding gives the packet iff every header is within the limits, the payload can be read into the room left and the message CRC fits. |
| EventStreamCodec.EncodedReadsBack | src/eventstream/encode.c:96-171 | What was encoded is read back from any stream that starts with it. |
| EventStreamCodec.FillIn | src/eventstream/encode.c:146-168 | Filling lengths and CRCs in afterwards, with sums that wrap around at 32 bits, completes the packet iff four bytes are left. |
| EventStreamCodec.EventstreamEncode | src/eventstream/encode.c:96-171 | The buffer holds the packet afterwards, or the error is the first one met; nothing outside the buffer changes. |
| EventStreamReader.EventstreamDecodePrelude | src/eventstream/decode.c:31-65 | Accepts a prelude iff its CRC and lengths are consistent. |
| EventStreamReader.TakeHeader | src/eventstream/decode.c:68-123 | Removes one header after checking every bound, or leaves the buffer as it was. |
| EventStreamReader.CountHeaderBytes | src/eventstream/decode.c:125-141 | The count is the number of headers the section consists of, and PARSE is reported iff it does not consist of headers. |
| EventStreamReader.HeaderIter.HeaderNext | src/eventstream/decode.c:217-271 | On a section counted as n, exactly n unchecked reads succeed, give the headers in order, stay inside it and end at its last byte; then RANGE. |
| EventStreamReader.EventstreamDecode | src/eventstream/decode.c:143-215 | Accepts a data section iff the message CRC matches and the headers are well formed; the iterator starts at the counted headers. |
| EventStreamReader.EventstreamGetPacket | src/eventstream/rpc.c:15-51 | Reading prelude and data into the same buffer gives the packet at the front of the stream and leaves the rest. |
| EventStreamReader.EventstreamGetCommonHeaders | src/eventstream/rpc.c:53-93 | INVALID iff some common header is not an integer; otherwise the last one of each name, or 0. |
| EventStreamAnswers.CommonNames | src/eventstream/rpc.c:64-85 | The names of the common headers, character by character. |
| EventStreamAnswers.StreamIdHeader | src/eventstream/rpc.c:64-85 | A section written out in bytes with the stream id 5 as its only header. |
| EventStreamAnswers.StreamIdAnswer | src/eventstream/rpc.c:53-93 | The answer for that section: type and flags 0, stream id 5. |
| Base64.GroupEncodes | src/base64.c:30-97 | Four characters are accepted only if they are the encoding of what they decode to: unused bits are zero and nothing follows padding. |
| Base64.DecodeIffEncoding | src/base64.c:99-120 | Decoding gives b iff the text is the encoding of b. |
| Base64Answers.Alphabet | src/base64.c:13-28 | The alphabet of RFC 4648, character by character. |
| Base64Answers.OneGroup | src/base64.c:129-167 | The test vectors of RFC 4648 of up to three bytes. |
| Base64Answers.TwoGroups | src/base64.c:129-167 | The test vectors of RFC 4648 of four to six bytes. |
| Base64.DecodeSegment | src/base64.c:30-97 | Reads four characters before it writes, and writes one to three bytes. |
| Base64.Base64Decode | src/base64.c:99-120 | Succeeds iff the original text decodes and the target is large enough, also when the target is the text itself. |
| Base64.Base64DecodeInPlace | src/base64.c:122-124 | Decoding over the input gives the same answer as decoding elsewhere. |
| Base64.Base64Encode | src/base64.c:129-167 | Fresh arena memory holds the encoding, and nothing else changes; NOMEM iff it does not fit. |

## Left out

- Lengths above 65535 in lists, maps, buffers and keys: the source asserts that they fit in 16 bits.
- Sharing of subtrees: an object is a tree, and pointers into it are paths. The byte packing of objects and pairs is a datatype.
- Floating point: a decoded float is the text that denotes it, and whether `strtod` reports a range error is a parameter. The text the encoder prints for a float is taken as given, so floats are outside the round trip.
- Debug assertions: the behaviour with assertions compiled out is modelled, for example NOMEM for integers of twenty characters.
- The addresses of decoded strings are offsets into the decoded buffer, which is assumed not to overlap the arena.
- The compiler's builtin CRC (`src/crc32.c:20-24`).
- Sockets, epoll, logging, clocks, sleeping, randomness and the environment; a reader or writer is a function or a byte sequence, and a timed wait ends in any way at any time.
- What response and event handlers do before they run a callback (message type, content type, payload): any outcome is possible in the model, and callbacks may close any handles and report any result.
- Overflow of `next_stream_id`, which is a signed 32-bit counter in the source.
- The connection handshake, the per-operation IPC wrappers, the C++ and Rust bindings, samples and mocks.
- `gg_arena_resize_last`, `gg_arena_alloc_rest`, `gg_abs`, `gg_backoff`, vectors of other types and path splitting: small and independent of the properties above.
- Arena.ClaimObj: works on an arena as a value, where the source updates it through a pointer; the two allocation primitives are methods of a class. Element arrays that the arena already owns are rewritten in place by the source when a child or key in them is copied; such arrays are part of the object in the model and not of the arena's memory, so what else might refer to them is not captured.
