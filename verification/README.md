# A verified model of hcache

hcache is a key-value cache with sorted sets, written twice. The C++ servers parse HTTP with
picohttpparser and keep the data in one shared store or in one store per core. The Rust server
spreads keys over a cluster and mirrors its memory to RocksDB. This project models the parts of both
where correctness is hardest to see, and proves what they promise.

**The wire decoder** (`cpp/src/picohttpparser.c`, `int` results, bytes 0 to 255, a 64-bit `size_t`).

- `ChunkedAutomaton` specifies the chunked decoder byte by byte and proves the properties of that
  specification: fragmentation, finality, size arithmetic. `ChunkedGrammar` describes chunked
  bodies as text, without reference to the decoder, and proves that the automaton accepts exactly
  those texts; `ChunkedBytes` says what their sizes are worth. `ChunkedDecoder.dfy` is the C
  code, cases that fall through and two cursors in one buffer, proved against the automaton.
- `HttpSyntax` specifies the request, response and header parsers on byte sequences.
  `HttpFinality` proves that verdicts are final, `HttpPromise` which undecided inputs can still
  be completed, `HttpComplete` what the `last_len` shortcut loses, `HttpGrammar` and
  `HttpMessages` that exactly the printed messages are accepted, and `HttpFields` what the
  returned slices are. `HttpBytes` writes out the bytes that all of these names stand for.
  `HttpScan` and `HttpParser` are the C code over arrays, with the vector scan switched on or
  off, proved against `HttpSyntax`, and `HttpSession` is a server's loop around the request
  parser.

**The sorted set, three times.** `ZsetSpec` says what one is: a map from value to score, and ranges
of it. `FlatMap` and `SingleThreadZset` are the per-core C++ set, whose removals leave stale index
entries. `SharedZset` is the C++ set that threads share, as a state machine whose steps are the
atomic operations and critical sections of the code. `RustZset` and `ConcurrentZset` are the Rust set
in the same style. Both machines are interleaved by arbitrary schedules, any number of threads.
`SharedOverlap` and `ConcurrentOverlap` say exactly which operations on one value may overlap,
`SharedLinear` that the shared set is then linearizable at rest, and `SharedHistory` what becomes of
every operation and which of them can hide a value.

**Stores and shards.** `StoreSpec` is one store, `SingleThreadStorage` and `ShardedStorage` the
C++ classes, `Sharding` the proof that sharding shows in no answer, and `StoreLaws` what every
answer is, told from the earlier requests alone. `ZsetKeyCodec`, `RustNode` and `RustStorage` are
a Rust node with its two byte stores and restarts; `Cluster` is the scattering of batches and
gathering of lists over the nodes. Hash functions and shard counts are arbitrary parameters
throughout.

Each stateful piece of the source is a class or a method proved equal to a function of its inputs
and its old state; what the source promises is then proved about those functions, or about all runs
of the state machines.

## Where code, comments and documentation disagree

The model follows the code.

- `phr_parse_headers` with `last_len` 1 does not see the complete, empty header block CR LF: the
  shortcut wants two line breaks in a row and the block has one. It answers -2 until two in a row come
  with no bare CR before their end, or -1 once there is a bare CR (`EmptyHeadersAreMissed`; the exact
  condition, in terms of the text, is `HeadersShortcutExactly`).
- -2 means that nothing is decided yet (`MoreMeansUndecided`), not that the message can still be
  completed. Header blocks always can. A request cannot if it begins with a space, or if behind the
  spaces after its path comes no version; a response cannot if it does not begin with a version, or
  if behind the spaces after that comes no status code, or a status code with anything but a space or
  the end of the line behind it. Those mistakes are noticed late, and nothing else is
  (`RequestPromiseExactly`, `ResponsePromiseExactly`, `HeadersPromiseExactly`).
- `README.md:37` promises that `zadd` on a plain key is refused. The C++ stores refuse it, the Rust
  store does not look (`ExclusiveExactly`). A Rust batch drops sorted sets of the same key at the
  peers but not at the node that took the request (`NodeAfterBatch`).
- In Rust, `del` and `add` drop a sorted set from memory but not from disk, so that a restart brings
  its entries back (`DroppedEntriesReturn`), and keys that hold a NUL byte are not read back as they
  were written (`KeyRoundTrip`, `NulKeysCollide`).
- In the shared C++ set, a range query can fall between the two critical sections of one `zadd` and
  miss a value that is in the set before and after (`MoveCanBeMissed`); exactly the values in that
  state are missed (`MissedExactly`), and exactly the values that are put twice can be
  (`MissableExactly`). The Rust set does both in one section.
- Writers of one value may overlap only so far. In the C++ set, exactly two additions with different
  scores can leave a value in two buckets for good (`EachOnceExactly`), and exactly those can leave what
  no order of the operations would (`LinearizableExactly`). Exactly two different operations can leave
  what they would not in the order in which they finished (`SequentialExactly`). In the Rust set,
  exactly two different operations can leave the index and the buckets at odds (`SafeExactly`).

## Model

| member | source | states |
|---|---|---|
| ChunkedAutomaton.DecodeHexExactly | cpp/src/picohttpparser.c:530-541 | A byte has the value d below 16 if and only if it is the d-th digit of the lower-case or the upper-case row; every other byte gives -1. |
| ChunkedAutomaton.StepKeepsValid | cpp/src/picohttpparser.c:548-647 | Every byte keeps the decoder's invariant: fewer than 16^digits bytes are left while a size is read, none in a size of no digits, more than none in data, and always fewer than 2^64, so the multiply-and-add never wraps. |
| ChunkedAutomaton.RunKeepsValid | cpp/src/picohttpparser.c:543-656 | The invariant holds after any input. |
| ChunkedAutomaton.RunSplit | cpp/src/picohttpparser.c:543-656 | Reading a then b is reading their concatenation, unless a already stops the decoder. |
| ChunkedAutomaton.FragmentationDoesNotMatter | cpp/src/picohttpparser.c:543-656 | However a stream is cut, feeding the pieces until one call does not answer -2 gives the verdict, decoder state, data and count of one call on the whole. |
| ChunkedAutomaton.VerdictIsFinal | cpp/src/picohttpparser.c:543-656 | After completion or an error more input changes nothing. |
| ChunkedGrammar.DecodesEncoding | cpp/src/picohttpparser.c:549-651 | Every encoded body (sizes of 1 to 16 hex digits, LF-free extensions, trailers), followed by anything, decodes to its data and stops after its last byte: after the blank line that ends the trailers when they are consumed, otherwise after the zero-size line. |
| ChunkedGrammar.CompletesOnBodiesOnly | cpp/src/picohttpparser.c:549-651 | The decoder completes after n bytes with some data if and only if those n bytes are a body of the grammar that carries that data. |
| ChunkedGrammar.CompletionCompletes | cpp/src/picohttpparser.c:543-656 | From every state that satisfies the invariant some input completes the body. |
| ChunkedGrammar.MalformedMeansHopeless | cpp/src/picohttpparser.c:543-656 | -1 is answered if and only if no continuation of the input can complete a body. |
| ChunkedBytes.SizesAreHex | cpp/src/picohttpparser.c:550-571 | A size of no digits is zero, and each further digit, of either row, makes it sixteen times as much plus the digit. |
| ChunkedBytes.DigitsFit | cpp/src/picohttpparser.c:550-571 | Hex digits at the start are undecided as long as they are at most sixteen, leading zeros included; a seventeenth is an error. |
| ChunkedBytes.DecodesThisBody | cpp/src/picohttpparser.c:543-656 | For any 26 bytes of data, the chunk `1A;x` CR LF, data, CR LF, then `0` CR LF, decodes to the data after 37 bytes, and with the trailer `a:` CR LF and CR LF, when trailers are consumed, after 43. |
| ChunkedDecoding.MoveDown | cpp/src/picohttpparser.c:593-602 | `memmove` towards lower addresses moves overlapping bytes intact and touches nothing else. |
| ChunkedDecoding.MovedKeepsRest | cpp/src/picohttpparser.c:591-606 | Moving chunk data down appends it to the decoded bytes and overwrites no unread byte. |
| ChunkedDecoding.ChunkedDecoder.constructor | cpp/include/picohttpparser/picohttpparser.h:62-68 | A zero-filled decoder is the automaton's start. |
| ChunkedDecoding.ChunkedDecoder.ReadSize | cpp/src/picohttpparser.c:550-571 | Size digits are read up to the first other byte; stops for more input, an empty size or a 17th digit; the 64-bit accumulator is the automaton's. |
| ChunkedDecoding.ChunkedDecoder.SkipExt | cpp/src/picohttpparser.c:572-588 | The rest of the size line is skipped, and leads to data, to the trailers or to completion. |
| ChunkedDecoding.ChunkedDecoder.CopyData | cpp/src/picohttpparser.c:590-607 | Available data up to the chunk's end is appended to the decoded bytes. |
| ChunkedDecoding.ChunkedDecoder.ReadCrlf | cpp/src/picohttpparser.c:609-622 | CRs and one LF are consumed behind the data, anything else is an error. |
| ChunkedDecoding.ChunkedDecoder.ReadLineHead | cpp/src/picohttpparser.c:623-632 | A blank line completes the body, any other begins a trailer line. |
| ChunkedDecoding.ChunkedDecoder.ReadLineMiddle | cpp/src/picohttpparser.c:634-643 | The rest of a trailer line is skipped. |
| ChunkedDecoding.ChunkedDecoder.Round | cpp/src/picohttpparser.c:548-647 | Every pass of the outer loop consumes a byte or stops, and leaves memory past `bufsz` alone. |
| ChunkedDecoding.ChunkedDecoder.Compact | cpp/src/picohttpparser.c:651-653 | On every way out the unread bytes follow the decoded ones unchanged. |
| ChunkedDecoding.ChunkedDecoder.Decode | cpp/src/picohttpparser.c:543-656 | Return value, decoder, decoded bytes and the untouched unread input behind them are those of the automaton, on success, error and incomplete exits; memory past `bufsz` is unchanged. |
| ChunkedDecoding.ChunkedDecoder.IsInData | cpp/src/picohttpparser.c:658-661 | True exactly when the next byte, whatever it is, would be a byte of the body. |
| ChunkedDecoding.Feed | cpp/include/picohttpparser/picohttpparser.h:69-78 | One call on a buffer filled with a fragment hands out its data and, on completion, exactly what follows the body. |
| ChunkedDecoding.DecodeStream | cpp/include/picohttpparser/picohttpparser.h:69-78 | The documented calling protocol over any fragments yields the data and verdict of the whole stream, all fragments are used when it is incomplete, and on completion the leftover plus the fragments not fed are what follows the body. |
| HttpFinality.FindFinal | cpp/src/picohttpparser.c:134-179 | A byte scan's answer depends only on the bytes up to where it stopped. |
| HttpFinality.ParseHeadersFinal | cpp/src/picohttpparser.c:298-353 | A header block accepted over k bytes is accepted alike by every input with those k bytes; a rejected one is rejected in every extension. |
| HttpFinality.RequestVerdictIsFinal | cpp/src/picohttpparser.c:355-427 | The same of requests, with the same fields. |
| HttpFinality.ResponseVerdictIsFinal | cpp/src/picohttpparser.c:429-498 | The same of responses. |
| HttpPromise.HeadersEnd | cpp/src/picohttpparser.c:298-353 | Every header block that is answered -2 has a continuation that completes it. |
| HttpPromise.HeadersPromiseExactly | cpp/src/picohttpparser.c:298-353 | A header block can be completed if and only if it has not been rejected. |
| HttpPromise.RequestPromiseExactly | cpp/src/picohttpparser.c:355-427 | A request can be completed if and only if it is complete, or it is answered -2 and promising: behind the optional empty line comes no space, and what is there behind the spaces after the path agrees with `HTTP/1.` and a digit. |
| HttpPromise.ResponsePromiseExactly | cpp/src/picohttpparser.c:429-498 | A response can be completed if and only if it is complete, or it is answered -2 and promising: what is there agrees with `HTTP/1.` and a digit, and behind the spaces after that with three digits and a space or the end of the line. |
| HttpComplete.CompleteFindsEnd | cpp/src/picohttpparser.c:197-223 | A scan for two line breaks in a row that starts before the last two of a message finds them or earlier ones. |
| HttpComplete.RequestShortcutLosesNothing | cpp/src/picohttpparser.c:401-427 | If the full parse accepts more than `last_len` bytes, the call with `last_len` gives the same count and fields. |
| HttpComplete.ResponseShortcutLosesNothing | cpp/src/picohttpparser.c:474-498 | The same of responses. |
| HttpComplete.CompleteExactly | cpp/src/picohttpparser.c:197-223 | The scan succeeds if and only if a line break directly follows those just seen, or later two follow each other, with no bare CR before their end; otherwise it answers -1 if there is a bare CR and -2 if there is none. |
| HttpComplete.CallsExactly | cpp/src/picohttpparser.c:401-427 | For all inputs: the call answers as the full parse if `last_len` is 0 or there are two line breaks in a row, with no bare CR before their end, from `last_len` - 3 on; otherwise -1 if there is a bare CR there and -2 if there is none. |
| HttpComplete.HeadersShortcutExactly | cpp/src/picohttpparser.c:500-519 | A header block that ends in the new bytes gets the full parse's answer, unless it is the empty block CR LF and behind it comes neither a line break directly nor two in a row with no bare CR before their end; then the answer is -1 if there is a bare CR and -2 if not. |
| HttpComplete.EmptyHeadersAreMissed | cpp/src/picohttpparser.c:500-519 | The empty header block CR LF is accepted by the full parse; with `last_len` 1 it gets -2, and with a CR and a space behind it -1. |
| HttpComplete.RequestsDecide | cpp/src/picohttpparser.c:355-427 | The request parser's verdicts are final and what it accepts ends with a blank line and has no bare CR. |
| HttpComplete.ResponsesDecide | cpp/src/picohttpparser.c:429-498 | The same of the response parser. |
| HttpComplete.SessionNeverMisses | cpp/src/picohttpparser.c:401-427 | With such a parser, a caller that passes the length of its previous incomplete read gets every message as soon as it is complete. |
| HttpComplete.SessionRejectsForGood | cpp/src/picohttpparser.c:401-427 | When such a caller is told -1, by the shortcut or the parser, no continuation would be accepted. |
| HttpComplete.MoreMeansUndecided | cpp/src/picohttpparser.c:355-498 | With such a parser, -2 is the answer if and only if it is the answer for every shorter input too; which of these inputs can be completed is in the three promise rows. |
| HttpGrammar.HeadersAt | cpp/src/picohttpparser.c:298-353 | Printed headers, at most the maximum, parse back to where their names and values were printed. |
| HttpGrammar.TooManyHeaders | cpp/src/picohttpparser.c:311-314 | The beginning of one header more than the maximum is rejected. |
| HttpMessages.ParsesPrintedRequest | cpp/src/picohttpparser.c:355-427 | A printed request followed by any bytes parses back to its fields and its exact length, or is rejected if it has too many headers. |
| HttpMessages.AcceptsRequestTextsOnly | cpp/src/picohttpparser.c:355-427 | k bytes parse to a request if and only if they are a printed request of these fields. |
| HttpMessages.ParsesPrintedResponse | cpp/src/picohttpparser.c:429-498 | A printed response parses back likewise. |
| HttpMessages.AcceptsResponseTextsOnly | cpp/src/picohttpparser.c:429-498 | k bytes parse to a response if and only if they are a printed response of these fields. |
| HttpMessages.AcceptsHeaderBlocksOnly | cpp/src/picohttpparser.c:298-353 | The same of header blocks alone. |
| HttpFields.RequestFieldsRead | cpp/src/picohttpparser.c:355-399 | The slices of a parsed request hold the method, path, names and values that were printed. |
| HttpFields.ResponseFieldsRead | cpp/src/picohttpparser.c:429-472 | The slices of a parsed response hold the message, names and values that were printed. |
| HttpFields.RequestSlices | cpp/src/picohttpparser.c:298-399 | All returned slices lie in order and disjoint inside the consumed bytes, headers are at most the maximum, named headers have trimmed values, and the first header is named. |
| HttpFields.ResponseSlices | cpp/src/picohttpparser.c:429-472 | The same of a response; between the digits of the status code and the message there are only spaces, and the message begins with none. |
| HttpSyntax.SpacesEnd | cpp/src/picohttpparser.c:458-464 | Stripping the spaces before the reason phrase ends within the line. |
| HttpBytes.TcharsAre | cpp/src/picohttpparser.c:96-103 | A byte is a `tchar` if and only if it is one of the fifteen marks, a digit or a letter, each row written out. |
| HttpBytes.ClassesAre | cpp/src/picohttpparser.c:71-94 | By number, the bytes that each scan passes, stops at and rejects. |
| HttpBytes.FindExactly | cpp/src/picohttpparser.c:71-94 | A scan ends at j if and only if the byte there stops it and every byte before is passed. |
| HttpBytes.LineBreakExactly | cpp/src/picohttpparser.c:388-396 | A line ends with the byte 10, or 13 and 10, and with nothing else. |
| HttpBytes.VersionExactly | cpp/src/picohttpparser.c:279-296 | The version is d if and only if there are nine bytes, of which the first seven are `HTTP/1.` and the eighth is the digit d. |
| HttpBytes.StatusExactly | cpp/src/picohttpparser.c:225-242 | The status is n if and only if there are four bytes and the first three are the decimal digits of n. |
| HttpBytes.ParsesThisRequest | cpp/src/picohttpparser.c:355-399 | A request written out byte by byte, with trailing blanks and a folded header line, is accepted with these fields. |
| HttpBytes.ParsesThisResponse | cpp/src/picohttpparser.c:429-472 | A response written out byte by byte, with two spaces before its reason phrase and a header without a value, is accepted with these fields. |
| HttpScan.TokenCharIsTchar | cpp/src/picohttpparser.c:96-103 | The table marks exactly the `tchar`s of section 3.2.6 of RFC 7230. |
| HttpScan.EolRangesExact | cpp/src/picohttpparser.c:138-146 | The vector ranges of the line scan are exactly the bytes that stop it. |
| HttpScan.PathRangesSkipOnlyPath | cpp/src/picohttpparser.c:71-94 | What the vector scan of a path skips the byte loop would pass. |
| HttpScan.TokenRangesSkipOnlyTokens | cpp/src/picohttpparser.c:245-263 | What the vector scan of a token skips are token characters, and no space or colon. |
| HttpScan.FirstInBlock | cpp/src/picohttpparser.c:114-118 | The vector instruction's answer: the index of the first of sixteen bytes that is in the ranges, or 16. |
| HttpScan.FindcharFast | cpp/src/picohttpparser.c:105-132 | Stops at the first byte in the ranges, or with fewer than 16 bytes left that it did not search. |
| HttpScan.ParseToken | cpp/src/picohttpparser.c:245-277 | With or without the vector scan, position and verdict of the plain byte loop. |
| HttpScan.AdvanceToken | cpp/src/picohttpparser.c:71-94 | The same of the path scan. |
| HttpScan.Skip | cpp/src/picohttpparser.c:372-375 | The loops that step over spaces, or spaces and tabs, stop at the first other byte or ask for more. |
| HttpScan.UnrolledSearch | cpp/src/picohttpparser.c:147-171 | The 8-way unrolled loop finds the same end of line as the plain loop. |
| HttpScan.EndLine | cpp/src/picohttpparser.c:180-194 | A control character ends the line only as CR LF or LF; the text stops before it. |
| HttpScan.GetTokenToEol | cpp/src/picohttpparser.c:134-195 | Vector scan, unrolled loop and plain loop agree on the text of the line and where the next begins. |
| HttpParser.IsComplete | cpp/src/picohttpparser.c:197-223 | The loop over the buffer answers as the scan specified for it. |
| HttpParser.ParseHttpVersion | cpp/src/picohttpparser.c:279-296 | `HTTP/1.` and a digit, undecided until a ninth byte is there. |
| HttpParser.ExpectBreak | cpp/src/picohttpparser.c:388-396 | Accepts CR LF or LF and nothing else. |
| HttpParser.TrimValue | cpp/src/picohttpparser.c:341-348 | All blanks at the end of a value are dropped and nothing else. |
| HttpParser.ParseHeaderInto | cpp/src/picohttpparser.c:315-350 | One header is parsed as specified and stored in its place only. |
| HttpParser.ParseHeadersInto | cpp/src/picohttpparser.c:298-353 | The headers parsed are those specified, stored in order, never past the maximum. |
| HttpParser.ParseTargetFrom | cpp/src/picohttpparser.c:368-384 | Method and path as specified, emptiness checked after the spaces behind the path. |
| HttpParser.ParseRequestLineFrom | cpp/src/picohttpparser.c:359-396 | The request line as specified, after at most one empty line. |
| HttpParser.PhrParseRequest | cpp/src/picohttpparser.c:401-427 | -1 if and only if the specified parse with the shortcut rejects, -2 if and only if it is undecided; otherwise the number of bytes consumed, and every output is as specified. |
| HttpParser.ParseInt3 | cpp/src/picohttpparser.c:225-242 | Three digits and a further byte give the status code. |
| HttpParser.ParseReasonFrom | cpp/src/picohttpparser.c:452-469 | The reason phrase without its leading spaces, as specified. |
| HttpParser.ParseStatusLineFrom | cpp/src/picohttpparser.c:432-469 | The status line as specified. |
| HttpParser.PhrParseResponse | cpp/src/picohttpparser.c:474-498 | -1 if and only if the specified parse with the shortcut rejects, -2 if and only if it is undecided; otherwise the number of bytes consumed, and every output is as specified. |
| HttpParser.PhrParseHeaders | cpp/src/picohttpparser.c:500-519 | The same of header blocks. |
| HttpSession.OneRead | cpp/src/fstack.cc:127-146 | One more read: accepted as by the full parse of all there is, rejected for good, or still open, whether the caller passes the length it had before or 0. |
| HttpSession.ReadRequest | cpp/src/fstack.cc:127-146 | However a request is cut into reads: a positive code is the length of the request, with its fields, at the first read that completes it; after -1 no continuation would be accepted; -2 comes at the end only if no read completed one. |
| FlatMap.OpenSpec | cpp/src/sharded_storage.cc:20-23 | `operator[]` of a flat map makes an empty bucket where there was none and changes no other. |
| FlatMap.SameBuckets | cpp/include/hcache/sharded_storage.h:26 | Ordered buckets without empty ones are determined by what they hold. |
| ZsetSpec.RangeListsEachOnce | README.md:39 | A range of a map lists exactly its entries with scores in it, both ends included, ascending, each value once and under its score. |
| ZsetSpec.ContentsAre | README.md:37-38 | After any list of additions and removals a value has a score if and only if the last of them on that value gives it this score. |
| SingleThreadZset.WithinIsRange | cpp/src/sharded_storage.cc:28-35 | The buckets between two scores are the range of the map that the buckets represent. |
| SingleThreadZset.ZaddSpec | cpp/src/sharded_storage.cc:13-26 | Whatever the index says of the value, stale or not, adding leaves buckets that represent the map with the new score. |
| SingleThreadZset.ZrmvSpec | cpp/src/sharded_storage.cc:4-11 | Removing leaves buckets that represent the map without the value; a stale entry does no harm. |
| SingleThreadZset.Zset.Zrmv | cpp/src/sharded_storage.cc:4-11 | Keeps "the index knows every value's bucket, no bucket is empty" and removes the value from the map, without erasing it from the index. |
| SingleThreadZset.Zset.Zadd | cpp/src/sharded_storage.cc:13-26 | Keeps the same and sets the value's score. |
| SingleThreadZset.Zset.Zrange | cpp/src/sharded_storage.cc:28-35 | Returns exactly the range of the map. |
| SharedZset.RunKeepsBuckets | cpp/src/storage.cc:7-47 | In every interleaving scores ascend strictly, only the mutex holder is in a critical section, and only its own bucket may be empty. |
| SharedZset.FreeMeansTidy | cpp/src/storage.cc:7-47 | Even with writers racing on one value: while the mutex is free, no bucket is empty and scores ascend. |
| SharedZset.NeverStuck | cpp/src/storage.cc:7-36 | While an operation is under way some thread can take a step. |
| SharedZset.DisciplinedKeepsValues | cpp/src/storage.cc:7-36 | If writers of one value do not overlap, every value is where the finished operations and its own writer's progress put it. |
| SharedZset.MovedValueIsHidden | cpp/src/storage.cc:18-36 | Then a value under change is hidden from queries exactly while its writer is between its two critical sections; before and after, exactly one bucket shows it. |
| SharedZset.SnapshotIsVisibleRange | cpp/src/storage.cc:38-47 | Then every range query, whatever is under way, is the range of what is visible: what the finished operations leave, without the values whose writers are between their sections, and with the new score of those whose writers are behind them. |
| SharedZset.MissedExactly | cpp/src/storage.cc:18-47 | Then a query over all scores misses a value of the set if and only if its writer is between its two critical sections. |
| SharedZset.NothingMissedExactly | cpp/src/storage.cc:18-47 | Then everything the set has in a range is visible, if perhaps at a new score, if and only if no writer between its sections holds any of it. |
| SharedZset.MoveCanBeMissed | cpp/src/storage.cc:18-36 | For any two scores, a schedule of just the two additions in which a query misses a value that is in the set before and after. |
| SharedOverlap.SameScoreMeansEachOnce | cpp/src/storage.cc:7-36 | If overlapping additions of one value have one score, then, with any removals beside them, no value is ever in two buckets, and in the end only in the one the index names. |
| SharedOverlap.SnapshotShowsEachOnce | cpp/src/storage.cc:38-47 | Then every range query shows each value at most once, in ascending non-empty buckets. |
| SharedOverlap.QuiescentMeansSequential | cpp/src/storage.cc:7-47 | If overlapping operations on one value are the same operation, then, with no operation under way, every range query is the range of the map that the operations leave one after the other. |
| SharedOverlap.RacingAddsLeaveTwo | cpp/src/storage.cc:18-36 | For any two scores, a schedule in which two overlapping additions of a new value both finish and leave it in two buckets. |
| SharedOverlap.RacingRemovalWins | cpp/src/storage.cc:7-36 | A schedule in which an addition finishes after a removal and the value is gone. |
| SharedOverlap.EachOnceExactly | cpp/src/storage.cc:7-36 | Whatever is scheduled of a set of operations keeps each value in one bucket, in the end the one the index names, if and only if the set has no two additions of one value with different scores. |
| SharedOverlap.SequentialExactly | cpp/src/storage.cc:7-36 | Whatever is scheduled of a set of operations ends with what they leave one after the other in the order in which they finished, if and only if the set has no two different operations on one value. |
| SharedLinear.QuiescentMeansLinearizable | cpp/src/storage.cc:7-36 | If overlapping additions of one value have one score, then, with any removals beside them and no operation under way, some order of the finished operations that keeps those which did not overlap in order leaves exactly what the buckets hold. |
| SharedLinear.LinearizableExactly | cpp/src/storage.cc:7-36 | Whatever is scheduled of a set of operations is linearizable in this sense if and only if the set has no two additions of one value with different scores. |
| SharedHistory.OperationsAreConserved | cpp/src/storage.cc:7-36 | In every schedule, racing or not, each operation begun has ended once or is still under way. |
| SharedHistory.MissableExactly | cpp/src/storage.cc:18-47 | Though writers of one value never overlap, some schedule of a collection of operations has a query that misses a value of the set, if and only if the collection puts that value twice. |
| RustZset.ListingIsExact | rust/src/storage.rs:537-555 | Flattening the buckets of a range, whatever order the hash sets yield, lists each entry of the map in the range once, by ascending score; empty buckets left behind do not show. |
| RustZset.EveryListing | rust/src/storage.rs:537-555 | The converse: every such list can come out, for some orders of the hash sets. |
| RustZset.SomeListing | rust/src/storage.rs:537-555 | Every range query has such a listing. |
| ConcurrentZset.EffectIsOnce | rust/src/storage.rs:467-508 | Each operation takes effect at exactly one of its steps. |
| ConcurrentZset.EffectsAreConserved | rust/src/storage.rs:467-508 | In every schedule, racing or not, each operation begun has taken effect once or is still to do so. |
| ConcurrentZset.EffectsOnlyGrow | rust/src/storage.rs:467-508 | The order of effects extends as the schedule does, so it respects real time. |
| ConcurrentZset.DisciplinedKeepsInv | rust/src/storage.rs:467-508 | If writers of one value do not overlap, the buckets represent at every moment what the effects so far leave, and the index is as far as each writer's progress says. |
| ConcurrentZset.QueriesAreSequential | rust/src/storage.rs:537-555 | Then every range query, at any moment, lists exactly the entries of the map that the effects so far leave. |
| ConcurrentZset.MovedValueIsListedOnce | rust/src/storage.rs:480-498 | Then a value about to move between two scores of a range is listed once, under the old score before the move and under the new one after it. |
| ConcurrentOverlap.QuiescentMeansInverse | rust/src/storage.rs:584-599 | If overlapping operations on one value are the same operation, then, with no operation under way, the index gives a value a score if and only if that bucket holds the value, and both are the map that the effects leave. |
| ConcurrentOverlap.RacingAddsLeaveTwo | rust/src/storage.rs:499-507 | For any two scores, a schedule in which two overlapping additions of a new value leave it in two buckets. |
| ConcurrentOverlap.RacingRemovalLeavesOrphan | rust/src/storage.rs:499-507 | A schedule in which a removal between the two steps of an addition leaves the value in a bucket and out of the index. |
| ConcurrentOverlap.IncompatiblePairFails | rust/src/storage.rs:467-508 | For any two different operations on one value, a schedule of just those two that ends with the index and the buckets at odds. |
| ConcurrentOverlap.SafeExactly | rust/src/storage.rs:467-508 | Whatever is scheduled of a set of operations ends with index and buckets inverse to each other if and only if the set has no two different operations on one value. |
| StoreSpec.ApplyKeepsExclusive | cpp/src/sharded_storage.cc:43-81 | No request to a single-threaded store makes a key both a plain key and a sorted set. |
| StoreSpec.ListInOrder | cpp/src/sharded_storage.cc:54-61 | Wherever a key stands in a list request, its pair, if it has one, stands between those of the keys before it and those of the keys behind it. |
| StoreLaws.StoreAnswers | cpp/src/sharded_storage.cc:37-88 | In every run from empty, at every request: a query answers the value of the last addition of its key with no deletion behind it, or none; `zset_add` is refused if and only if there is such a value; a range lists, ascending, the values added to the key's set since the last addition or deletion of the key, each under its last score and not removed since, or none if nothing was added; a list has each key as often as it was asked for, with that value. |
| StoreLaws.ShardsAnswer | cpp/src/sharded_storage.cc:37-160 | The same of every run of a sharded store, for any hash and any number of shards. |
| StoreLaws.DeletedIsGone | cpp/src/sharded_storage.cc:49-52 | Directly after a deletion a query of the key finds none, a range query finds none, no list has the key, and it can become a set. |
| StoreLaws.AddedIsRead | cpp/src/sharded_storage.cc:43-47 | Directly after an addition a query answers the value added, whatever was there. |
| StoreLaws.OtherKeysStay | cpp/src/sharded_storage.cc:43-81 | A request leaves every other key's value, set and scores as the requests before it left them. |
| StoreLaws.OtherAnswersStay | cpp/src/sharded_storage.cc:37-88 | So every query and range query of another key is answered as before the request. |
| StoreLaws.OtherShardAnswersStay | cpp/src/sharded_storage.cc:90-160 | The same of shards that split a store. |
| SingleThreadStorage.Storage.GetValueByKey | cpp/src/sharded_storage.cc:37-41 | Answers with the plain value, or none. |
| SingleThreadStorage.Storage.AddKeyValue | cpp/src/sharded_storage.cc:43-47 | Sets the plain value and drops a sorted set of that key, so that it is answered as `StoreLaws` tells. |
| SingleThreadStorage.Storage.DelKey | cpp/src/sharded_storage.cc:49-52 | Drops the key in both roles, so that it is answered as `StoreLaws` tells. |
| SingleThreadStorage.Storage.ListKeys | cpp/src/sharded_storage.cc:54-61 | The pairs of the keys asked for that are plain keys, in order. |
| SingleThreadStorage.Storage.ZsetAdd | cpp/src/sharded_storage.cc:63-74 | Refuses plain keys; otherwise sets the score in that key's set, made if missing, and touches no other set. |
| SingleThreadStorage.Storage.ZsetRmv | cpp/src/sharded_storage.cc:76-81 | Removes the value from that key's set only. |
| SingleThreadStorage.Storage.ZsetZrange | cpp/src/sharded_storage.cc:83-88 | The range of that key's set, or none. |
| Sharding.GetCpu | cpp/include/hcache/sharded_storage.h:53-58 | Every key has a core among those there are. |
| Sharding.GetCpuExactly | cpp/include/hcache/sharded_storage.h:53-58 | A key is on a core if and only if the core's number is the remainder of its hash by the number of cores. |
| Sharding.GroupInOrder | cpp/src/sharded_storage.cc:117-133 | A core is asked for its own keys of the list, in their order. |
| Sharding.ListMatches | cpp/src/sharded_storage.cc:117-133 | The answers of all shards together are the answer of one store, up to order. |
| Sharding.StepRefines | cpp/src/sharded_storage.cc:90-160 | One request leaves the shards a split of the one store and gets its answer. |
| Sharding.RunRefines | cpp/src/sharded_storage.cc:90-160 | So does every run of requests, answer by answer. |
| Sharding.ShardingIsInvisible | cpp/src/sharded_storage.cc:37-160 | For any hash, shard count and run from empty: the answers are those of one store, every key is on its own shard only, and no key is plain and a sorted set. |
| ShardedStorage.Shards.constructor | cpp/include/hcache/sharded_storage.h:62-64 | Starts with an empty store on every core. |
| ShardedStorage.Shards.GetValueByKey | cpp/src/sharded_storage.cc:90-97 | Answers as the sharded specification does. |
| ShardedStorage.Shards.AddKeyValue | cpp/src/sharded_storage.cc:99-106 | Changes the stores as the sharded specification does: the key's own core and no other. |
| ShardedStorage.Shards.DelKey | cpp/src/sharded_storage.cc:108-115 | The same of deletion. |
| ShardedStorage.Shards.ListKeys | cpp/src/sharded_storage.cc:117-133 | One answer per core, to the keys that belong to it. |
| ShardedStorage.Shards.ZsetAdd | cpp/src/sharded_storage.cc:135-141 | Changes and answers as specified. |
| ShardedStorage.Shards.ZsetRmv | cpp/src/sharded_storage.cc:143-150 | Changes as specified. |
| ShardedStorage.Shards.ZsetZrange | cpp/src/sharded_storage.cc:152-160 | Answers as specified. |
| ZsetKeyCodec.FirstNul | rust/src/storage.rs:229 | The first NUL byte, or the end. |
| ZsetKeyCodec.EncodedBytes | rust/src/storage.rs:220-226 | A stored key is the set's key, a byte 0 and the value, byte by byte. |
| ZsetKeyCodec.KeyRoundTrip | rust/src/storage.rs:220-233 | A stored key is decoded to the pair it was made from if and only if the set's key holds no NUL byte. |
| ZsetKeyCodec.DecodedKey | rust/src/storage.rs:228-233 | Decoding fails only without a NUL byte, and what it yields encodes to the same bytes. |
| ZsetKeyCodec.ScoreRoundTrip | rust/src/storage.rs:269-273 | A score is written in four bytes, the lowest first, and read back. |
| ZsetKeyCodec.BytesRoundTrip | rust/src/storage.rs:269-273 | Four bytes read as a score are written back. |
| RustNode.PutAllIs | rust/src/storage.rs:297-305 | Of a batch's pairs for one key the last counts, and a key without a pair keeps what it had. |
| RustNode.PlainAfter | rust/src/storage.rs:297-352 | What each request leaves of a plain key: the value added, nothing after a deletion, the last pair of a batch, and otherwise what was there. |
| RustNode.SetsAfter | rust/src/storage.rs:297-352 | Which keys have a sorted set in memory: `zadd` makes one, `add` and `del` drop it, and no other request makes or drops one, so that a set without entries stays. |
| RustNode.ScoresAfter | rust/src/storage.rs:457-508 | What each request leaves of a set entry in memory: the score added, nothing after a removal or after `add` or `del` of the key, and otherwise what was there. |
| RustNode.StoredAfter | rust/src/storage.rs:457-508 | What each request on a NUL-free key leaves of a set entry on disk: the score added, nothing after a removal of an entry that memory had, and otherwise what was there; `add` and `del` leave it. |
| RustNode.LoadedIs | rust/src/storage.rs:235-285 | After loading, a plain key and a set entry are as on disk if they are there, and otherwise as they were in memory. |
| RustNode.LoadableExactly | rust/src/storage.rs:266-283 | Loading does not panic if and only if every stored key of a set entry holds a byte 0 and every score four bytes. |
| RustNode.LoadedOneMore | rust/src/storage.rs:266-283 | Loading one more entry adds it to what is loaded whichever entries came before, so the order of the store's entries does not matter. |
| RustNode.RunMirrorsPlainKeys | rust/src/storage.rs:297-352 | After any run of requests the plain keys in memory are those of the main byte store, and loading would not panic. |
| RustNode.RunMirrorsEntries | rust/src/storage.rs:457-508 | After any run of requests whose set keys hold no NUL byte, every set entry in memory is on disk with its score. |
| RustNode.FaithfulExactly | rust/src/storage.rs:348-352 | From a node whose byte store holds exactly the set entries in memory, a request leaves such a node if and only if it adds under no key with a NUL byte and drops no set that has entries. |
| RustNode.RestartIsFaithful | rust/src/storage.rs:235-285 | A restart of such a node brings back exactly its plain keys and set entries. |
| RustNode.EmptiedSetVanishes | rust/src/storage.rs:235-285 | A set without entries does not outlive a restart, every other does. |
| RustNode.DroppedEntriesReturn | rust/src/cluster.rs:60-64 | After `del` or `add` has dropped a set, a restart brings back all its entries. |
| RustNode.RestartsAreInvisible | rust/src/storage.rs:235-285 | A history with restarts at any moments ends as without them, if its requests keep to that rule. |
| RustNode.SetRequestsKeep | rust/src/storage.rs:457-508 | Runs of `zadd` and `zrmv` on NUL-free keys keep to it. |
| RustNode.NulKeysCollide | rust/src/storage.rs:220-226 | Two entries with one stored key, of which memory keeps both scores and disk only the later. |
| RustNode.ExclusiveExactly | rust/src/storage.rs:297-305 | A request lets a key become plain and a sorted set if and only if it is `zadd` on a plain key or a local batch that names a set's key. |
| RustStorage.Storage.ZaddMemory | rust/src/storage.rs:467-508 | In the three cases of the index, same score, other score, none, the set's map gets the score and buckets and index stay inverse to each other. |
| RustStorage.Storage.Zadd | rust/src/storage.rs:457-465 | That, with the entry written to disk. |
| RustStorage.Storage.Zrmv | rust/src/storage.rs:584-599 | Removes the entry from index, bucket and disk if the index has it, and changes nothing otherwise. |
| RustStorage.Storage.InsertKv | rust/src/storage.rs:348-352 | Sets the plain value in memory and on disk and drops the key's set from memory. |
| RustStorage.Storage.BatchInsertKv | rust/src/storage.rs:297-305 | Memory pair by pair and disk in one write end with the same pairs, the last of a key winning; no set is dropped. |
| RustStorage.Storage.RemoveKey | rust/src/storage.rs:432-435 | Removes the plain key in memory and on disk. |
| RustStorage.Storage.Del | rust/src/cluster.rs:60-64 | Removes the plain key, and the set from memory only. |
| RustStorage.Storage.LoadFromDisk | rust/src/storage.rs:235-285 | In whatever order the byte stores yield their entries, memory becomes what is on disk over what was there; it panics exactly if some set entry cannot be decoded. |
| RustStorage.Storage.LoadZsets | rust/src/storage.rs:257-284 | The second loop of that, over the byte store of set entries. |
| RustStorage.ZrangeIsExact | rust/src/storage.rs:537-555 | A query may answer with a list if and only if the set is there, the ends are in order and the list holds each entry in the range once, by ascending score; with nothing if and only if the key is missing; and it panics if and only if the set is there and the ends are exchanged. |
| RustStorage.SomeAnswer | rust/src/storage.rs:537-555 | Every query has one of these answers; a set emptied by `zrmv`, or a range without entries, the empty list. |
| RustStorage.MoveRepresents | rust/src/storage.rs:480-507 | Moving, inserting and removing a value in the buckets keeps them the inverse of the index. |
| Cluster.GetShardExactly | rust/src/storage.rs:29-38 | A key's shard is the remainder of its hash by the number of shards, cast down to 32 bits, and 0 if there are no shards. |
| Cluster.RoutedRequestsActOnTheWhole | rust/src/hcache.rs:41-116 | Adding, deleting and asking for a key at the node it is routed to is doing so to one map, and keeps every key on its own shard only. |
| Cluster.GroupsAreParts | rust/src/hcache.rs:209-214 | The fold gives each shard its pairs in the order of the request. |
| Cluster.InterleavingDoesNotMatter | rust/src/hcache.rs:215-230 | However the groups interleave step by step, each node together with what it has left to do comes to the same. |
| Cluster.NodeAfterBatch | rust/src/hcache.rs:207-231 | What a finished batch leaves on each node, memory and disk; peers drop the sets of its keys, the node that took the request does not. |
| Cluster.BatchAppliesInOrder | rust/src/hcache.rs:207-230 | For every interleaving the plain keys of the cluster are those of one map to which the list was applied in order, so the last of two pairs with one key wins, and each key is on its own shard only. |
| Cluster.LastPairIsRead | rust/src/hcache.rs:207-230 | After a batch, for every interleaving, a key that it names has at its shard the value of the last of its pairs, and any other key what it had. |
| Cluster.ServeBatch | rust/src/cluster.rs:76-83 | A peer's loop over its group has the effect of the steps the interleavings are made of. |
| Cluster.ListKeys | rust/src/storage.rs:307-317 | A node's pairs of a set of keys, each once. |
| Cluster.AskShard | rust/src/cluster.rs:66-74 | A shard's answer for keys that belong to it is what the whole cluster has of them. |
| Cluster.Shard | rust/src/hcache.rs:242-247 | The fold gives each shard the set of its keys, and names no shard without one. |
| Cluster.Gather | rust/src/hcache.rs:249-267 | Appending the shards' answers in any order lists each key once. |
| Cluster.HandleList | rust/src/hcache.rs:234-278 | The reply lists each requested key that is anywhere in the cluster exactly once with its value, duplicates in the request removed; it is "not found" if and only if there is none. |

## Left out

- HttpParser.PhrParseRequest: does not state what the output parameters hold after -1 or -2, because the code leaves them partly written and callers must not use them.
- HttpParser.PhrParseResponse: the same.
- HttpParser.PhrParseHeaders: the same.
- HttpComplete.SessionNeverMisses: is about requests and responses; for header blocks it is false, and `HeadersShortcutExactly` says when.
- SingleThreadZset.Zset.Zrange: returns each bucket's values as a set; the order inside a hash set is not modelled.
- SharedZset.SnapshotIsVisibleRange: is about writers of one value that do not overlap; of those that do, `SharedOverlap` says what holds for queries at any moment (each value once) and at rest.
- ConcurrentZset.QueriesAreSequential: is about writers of one value that do not overlap; `ConcurrentOverlap` has what holds at rest when they do.
- RustNode.RunMirrorsEntries: is an inclusion and needs NUL-free set keys; equality fails after `del` and `add`, and `FaithfulExactly` says exactly when it does not.
- RustStorage.Storage.LoadFromDisk: when it panics, nothing is said of what was loaded before.
- The cases of the decoder's `switch` are separate methods; the fall-through is in `Round`. `assert(!"decoder is corrupt")` cannot be reached because the state is a datatype.
- Signedness of C characters: bytes are 0 to 255, and comparisons are modelled as the code's casts make them. Addresses in the buffer are indexes into it.
- Iterators of the concurrent index: a found score is read when the lookup happens, which is what the map's immutable nodes give.
- The sorted sets of a Rust node are values inside its map; the reference that concurrent requests share is what `ConcurrentZset` models, for one set at a time. A set that is deleted while an operation still holds it is not modelled.
- `zset_db` under concurrency: the byte stores are part of the sequential model only.
- Messages between cores, futures, remote procedure calls and their failures: a request runs where its key belongs, and calls succeed. Whether that core is the current one makes no difference to the code's effect, and none in the model.
- RocksDB's write-ahead log, flushing and column layout: a byte store is the map as written, and a restart reads all of it.
- The non-`memory` configuration of the Rust server, `rust/src/http_parser.rs`, which is unfinished, and the loader that copies initial data directories.
- The event loops, route tables and JSON of the C++ and Rust servers, the client, benchmarks, deployment scripts.
- `storage` in `cpp/src/storage.cc`, the map from keys to shared sets: it repeats the single-threaded store over concurrent maps and would add easy members.
