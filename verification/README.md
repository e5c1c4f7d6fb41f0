# Models of CPython's pure-Python I/O stack and five smaller algorithms

Six parts of the Python standard library, modelled in Dafny and proved correct:

1. **The buffered and text I/O stack of `Lib/_pyio.py`.** A raw stream that may read and write short or
   refuse (`RawStreams`); read-ahead (`BufferedReaders`), write-behind (`BufferedWriters`) and both together
   (`BufferedRandoms`, with `BytesIO` as the reference, and `RandomHistories`); incremental decoders and the
   newline decoder (`Codecs`, `NewlineDecoders`); line endings (`Lines`); the cookies of `tell`
   (`TextCookies`, `TellSearch`); and the text stream (`TextIOWrappers`, `TextHistories`).
2. **The ABC registry of `Lib/_py_abc.py`**: classes as a graph (`ClassGraphs`), the caches (`AbcCaches`),
   what `issubclass` means over whole runs (`AbcMeaning`), and which registrations close a cycle (`AbcCycles`).
3. **The declaration scanner of `Lib/_markupbase.py`**: what each scanner computes (`MarkupSpec`) and the
   scanners themselves (`MarkupParser`), that well-formed text is accepted (`MarkupRoundTrips` for comments and
   marked sections, `MarkupSubsets` for declarations with internal subsets), and where the error is raised
   (`MarkupFaults`).
4. **`DecompressReader` of `Lib/_compression.py`** (`DecompressReaders`), over formats, files and a decompressor
   (`Decompressors`).
5. **`Set.__eq__` and `Set._hash` of `Lib/_collections_abc.py`** (`SetHashes`, with values in `SetHashValues`).
6. **Week arithmetic of `Lib/_strptime.py`** (`WeekDates`).

`Basics` and `Bits` hold what several parts share. `dafny verify dfyconfig.toml` checks everything.

## Main results

- `TextHistories.Roam`: any history of `read`, `readline`, `read()`, `tell` and `seek` on a text stream, to the
  start, to the end, to cookies of earlier tells and to `tell()` itself, returns the pieces of the decoded file
  that it should. This holds for all chunk sizes, raw streams that read short, newline modes, decoders meeting
  the contract and guesses of tell's fast search.
- `RandomHistories.RunBoth`: every history on a `BufferedRandom` stays in step with a `BytesIO` and answers like it;
  `read1` and `peek` may show less of what follows.
- `BufferedReaders.BufferedReader.Read`: the next bytes, or None exactly when nothing is at hand and raw refuses.
- `BufferedWriters.RunCalls`: nothing is lost, duplicated or reordered, whatever the raw stream answers.
- `NewlineDecoders.NewlineKeepsContract` and `DecodeChunks`: chunking does not matter.
- `AbcMeaning.Run`: caches never change an answer, and answers are reachability wherever `ReachabilityExactly`
  says they can be; `AbcCycles.RunAcyclicExactly`: when a run closes a cycle.
- `MarkupSpec.StableExactly`: complete scans are stable under more input; `MarkupRoundTrips.CommentRoundTrip` and
  `SectionRoundTrip`: rendered comments and sections are accepted in full if and only if their text holds no end
  of one; `MarkupSubsets.DeclarationRoundTrip`: declarations made of a name, words, string literals and an internal
  subset are accepted in full, and `PrefixIncomplete`: their prefixes are incomplete;
  `MarkupFaults.DeclarationRejected`: the first wrong character raises the error.
- `DecompressReaders.DecompressReader.ReadSome` and `Seek`: a seekable slice of the concatenated streams, the last
  of which may be cut short.
- `SetHashes.EqThenHash`: equal sets have equal hashes; `HashTellsApart`: exactly which mixes share one.
- `WeekDates.VInverts`, `UorWInverts`, `UorWSettles`, `VSettles` and `VComesBack`: week conversions invert the
  calendar, and what becomes of weeks that a year does not have.

## Where the code and its promises part

Each of these is a lemma or method with a concrete input, next to the exact condition under which the
promise holds.

- A `BufferedRandom.seek` that fails has already moved the raw stream back over the unread bytes but still
  holds them, so the position slips back by their number and they are read twice. It is kept if and only if
  there are none (`BufferedRandom.Seek`, `FailedSeekRereads`, `ReadTwice`).
- `BufferedReader.peek` says it never returns more than `buffer_size` bytes. It does if and only if more were
  buffered before (`BufferedReader.Peek`, `PeekExceedsBufferSize`).
- A tell cookie survives packing if and only if its numbers are below 2**64 (`UnpackPack`,
  `PositionOverflows`).
- With an ordinary class among the bases of an ABC, `issubclass` may deny what is reachable over inheritance
  and registration edges. It is reachability if and only if what is registered under an ABC also derives from
  the ordinary bases of that ABC (`ReachabilityExactly`, `OrdinaryBaseBreaksReachability`).
- For the same reason `register` can close a cycle of inheritance and registration edges, after which two
  distinct classes are subclasses of each other: its guard asks an ordinary class for its MRO only. It closes
  one if and only if the edges already lead from the subclass to the class and the guards do not see it
  (`RegisterCloses`, `AfterAcyclicExactly`, `CycleThroughOrdinaryBase`), which cannot happen while what is
  registered derives from the ordinary bases (`NothingCloses`). The edges that the check follows stay acyclic
  in any case, so the recursion ends (`RegisterRanked`).
- `parse_declaration` never reaches its comment branch, because a single hyphen already counts as incomplete
  (`CommentsNeverComplete`). An error can become something else under more input if and only if the buffer
  broke off inside the opener `<!` (`StableExactly`).
- A reader ignores the trailing bytes of a compressed file, however the raw stream cuts it into blocks, if and
  only if their first byte alone is rejected (`IgnoredHoweverCut`). What one read does depends on the block that
  the next stream would start with (`NextTurnExactly`), so two readers of one file can differ
  (`TrailingBytesCutInTwo`).
- The day of year returned by `_strptime` for a week and weekday is right if and only if the day computed does
  not lie beyond the end of the year it is counted in (`UorWSettles`, `VSettles`). For the ISO week date of a
  real date, which comes out right itself, that is so if and only if the ISO year is not the year before
  (`VInverts`, `DayOfYear367`).
- Weeks that a year does not have are mistaken for others. A %U or %W week and weekday come out in the year and
  week asked for if and only if the day computed lies in the year, and the week is not week 0 of a year without
  one (`UorWSettles`, `NoWeekZeroIn2018`, `NoWeek53In2018`); an ISO week if and only if the ISO year has it
  (`VComesBack`).
- At both ends of the calendar a week and weekday may raise ValueError from `datetime` and not from the parser:
  if and only if the day lies before year 1 or after year 9999 (`UorWAccepted`, `VAccepted`, `NoYearZero`).

## How it is modelled

- A raw stream is a content, a position and a script of its next answers. Every finite behaviour of a device
  has a script; past its end the device does all it is asked. `Polite` streams read and write short but never
  refuse or misreport.
- `BufferedRandom` holds a reader and a writer over one raw stream, where Python inherits from both classes.
- A decoder is a deterministic transducer, the record `Codec`, with its state as `getstate` returns it. Its
  contract is the one of section "IncrementalDecoder Objects" of `Doc/library/codecs.rst`: feeding in pieces
  is feeding at once, the undecoded bytes replay silently from the flags, a final call flushes. The fresh state
  is (empty, 0). `Latin1IsGood` and `PairsIsGood` are two decoders that meet it.
- `tell`'s fast search starts from any guess up to the length of the snapshot's input; where the source
  computes it from a bytes-per-character ratio, the guess is a parameter.
- `seek` on text takes 0, the cookies of `tell`, and every other integer whose decoder flags the decoder can be
  in and that does not signal the end of the file before it is there; the documentation
  (`Doc/library/io.rst`, `TextIOBase.seek`) leaves all but 0 and cookies undefined.
- Classes are numbers, and the per-class attributes of ABCs are maps in one `AbcWorld`. `graph.mro[c]` is the
  set of the classes in the MRO of c; its order plays no role here. Only creatable classes are created: a
  class with an ABC among its bases is an ABC.
- Scanner errors are one outcome without message text. Handlers are an event log.
- A compressed format is a function from the input fed so far to the output it determines; when a
  decompressor delivers how much is a plan given from outside. A file is readable if it is a row of streams, of
  which the last may be cut short (what `Lib/test/test_bz2.py:611-622` and `Lib/test/test_lzma.py:884-896` read),
  with nothing or ignorable bytes behind them; its text is all output that it determines.
- Python's integers are `int`; `^` on negative ones is two's complement without end, and masking is modulo
  2**64 (`sys.maxsize` is 2**63 - 1).
- Dates live on a proleptic Gregorian ordinal defined in `WeekDates`.

## Model

| member | source | states |
|---|---|---|
| `RawStreams.RawStream.Read` | Lib/_pyio.py:645-660 | raw read of a positive size: None exactly when the device refuses, else the next bytes, at least one unless at end of file, never more than asked for |
| `RawStreams.RawStream.ReadAll` | Lib/_pyio.py:662-674 | readall loops until end of file or a refusal and returns all bytes in between; None exactly if the first answer is a refusal; nothing is asked after a refusal |
| `RawStreams.RawStream.Write` | Lib/_pyio.py:684-692 | raw write: refusal, a valid count that takes a prefix at the position, or a count out of range that takes nothing |
| `RawStreams.RawStream.Seek` | Lib/_pyio.py:1734-1748 | lands on the target counted from start, position or end; a negative target fails and moves nothing |
| `RawStreams.OverlaySplit` | Lib/_pyio.py:975-992 | writing a then b behind it is writing a + b, also across a gap past the end of the file |
| `RawStreams.OverlayAt` | Lib/_pyio.py:975-992 | the file after a write, byte by byte: the data at their place, zero bytes in a gap, the old bytes everywhere else |
| `RawStreams.ReadAt` | Lib/_pyio.py:949-968 | what a read gives, byte by byte, and how many there are |
| `BufferedReaders.BufferedReader.constructor` | Lib/_pyio.py:1064-1075 | a positive buffer size; the buffer starts empty and the invariant holds |
| `BufferedReaders.BufferedReader.Read` | Lib/_pyio.py:1084-1095 | exactly the next min(size, remaining) bytes, or fewer only after a refusal, and then all that was at hand; None exactly if nothing is unread and the first raw read is refused, and no bytes only at end of file; ValueError exactly below -1; nothing is asked after a refusal; position moves by the bytes returned; the slow path leaves fewer than max(buffer_size, size) unread bytes; the fast path makes no raw call |
| `BufferedReaders.BufferedReader.ReadUnlocked` | Lib/_pyio.py:1097-1147 | as read; unread bytes stay equal to the raw content just before the raw position |
| `BufferedReaders.BufferedReader.ReadToEnd` | Lib/_pyio.py:1104-1122 | read(-1): all that is left, or what came before a refusal; None exactly if nothing is unread and the first answer is a refusal; works with and without raw.readall |
| `BufferedReaders.BufferedReader.ReadChunks` | Lib/_pyio.py:1112-1122 | raw reads until end of file or a refusal: start plus what raw had is the result plus what raw still has; None stands for a refusal and no bytes for end of file |
| `BufferedReaders.BufferedReader.ReadSlow` | Lib/_pyio.py:1130-1147 | the slow path keeps the invariant, fetches in reads of max(buffer_size, n), returns the first n of what is then at hand and keeps the rest as unread; None exactly if nothing is unread and the first raw read is refused |
| `BufferedReaders.BufferedReader.FetchUntil` | Lib/_pyio.py:1132-1140 | the loop of the slow path stops with fewer than n bytes at end of file or at a refusal, and says which; it fetches less than n + wanted in all |
| `BufferedReaders.BufferedReader.Peek` | Lib/_pyio.py:1149-1168 | moves nothing, shows the unread bytes and behind them what one raw read brings, which is made exactly if fewer than min(n, buffer_size) or no bytes are unread; more than buffer_size bytes exactly when more were buffered before |
| `BufferedReaders.BufferedReader.ReadMore` | Lib/_pyio.py:1162-1167 | what one raw read brings is appended to the unread bytes, the position unchanged |
| `BufferedReaders.BufferedReader.Read1` | Lib/_pyio.py:1170-1181 | the unread bytes if there are any, else what one raw read of buffer_size brings, up to the limit; no raw read if any are unread or for size 0 |
| `BufferedReaders.BufferedReader.Tell` | Lib/_pyio.py:1234-1235 | raw position minus unread bytes |
| `BufferedReaders.BufferedReader.Seek` | Lib/_pyio.py:1237-1245 | lands on the target from start, user position or end with nothing unread; fails exactly for a negative target, which keeps position and buffer |
| `BufferedReaders.PeekExceedsBufferSize` | Lib/_pyio.py:1149-1156 | a reader, and what peek shows of it: all its unread bytes, more than its buffer_size, against the docstring |
| `BufferedWriters.SendMore` | Lib/_pyio.py:1313-1324 | after one more raw write a longer prefix of the buffered bytes is in the file, in order and at its place |
| `BufferedWriters.SentKeepsContents` | Lib/_pyio.py:1309-1324 | bytes taken plus bytes buffered, and the file as it will be, do not change while sending |
| `BufferedWriters.SentThenCut` | Lib/_pyio.py:1288-1295 | cutting the buffer back to buffer_size leaves what accepting just the reported prefix would have left |
| `BufferedWriters.BufferedWriter.FlushUnlocked` | Lib/_pyio.py:1309-1324 | nothing lost, duplicated or reordered for any raw answers; the buffer is empty after a normal return; BlockingIOError only after a refusal; terminates when raw makes progress in the end |
| `BufferedWriters.BufferedWriter.Write` | Lib/_pyio.py:1270-1296 | accepted bytes grow by exactly the prefix of b whose length is returned or carried by BlockingIOError; raw is left alone while the buffer holds all, and otherwise gets all unless it refuses; the buffer ends within buffer_size; a partial acceptance means a full buffer and that not all fits; after a misreported count all of b or none of it is buffered |
| `BufferedWriters.RunCall` | Lib/_pyio.py:1270-1324 | one write or flush call of a run keeps accepted bytes equal to the accepted prefixes |
| `BufferedWriters.RunCalls` | Lib/_pyio.py:1270-1324 | any run of writes and flushes: bytes held by raw followed by the buffer are the accepted prefixes end to end, and the buffer never exceeds buffer_size after a call; a run is cut short only by a misreported count |
| `BufferedRandoms.BytesIO.Read` | Lib/_pyio.py:949-968 | the next min(size, remaining) bytes; nothing past the end |
| `BufferedRandoms.BytesIO.Write` | Lib/_pyio.py:975-992 | overlays the bytes at the position, filling a gap with zero bytes; writing nothing changes nothing |
| `BufferedRandoms.BytesIO.Seek` | Lib/_pyio.py:994-1013 | lands on the target, clamped at 0 for relative seeks; ValueError for a negative absolute position or an unknown whence |
| `BufferedRandoms.BufferedRandom.constructor` | Lib/_pyio.py:1434-1437 | reader and writer share one raw stream, both buffers empty |
| `BufferedRandoms.BufferedRandom.Flush` | Lib/_pyio.py:1305-1307 | empties the write buffer; logical content and position stay |
| `BufferedRandoms.BufferedRandom.Read` | Lib/_pyio.py:1468-1472 | returns what one file with the logical content would, at the logical position; also after a failed seek, as long as it asks for no more than the unread bytes |
| `BufferedRandoms.BufferedRandom.Read1` | Lib/_pyio.py:1482-1484 | a prefix of what follows, at most size bytes, empty only for size 0 or at the end: exactly the bytes read ahead if there are any, and all that is at hand up to the limit |
| `BufferedRandoms.BufferedRandom.Peek` | Lib/_pyio.py:1478-1480 | moves nothing, and shows the bytes read ahead, more only if they are fewer than asked for |
| `BufferedRandoms.BufferedRandom.Write` | Lib/_pyio.py:1490-1496 | undoes read-ahead and writes all of b at the logical position |
| `BufferedRandoms.BufferedRandom.Tell` | Lib/_pyio.py:1456-1460 | the logical position, whichever buffer is in use |
| `BufferedRandoms.BufferedRandom.Seek` | Lib/_pyio.py:1439-1454 | a seek that lands keeps the file and moves to its target; one that fails slips the logical position back by the unread bytes, so it is kept if and only if there are none |
| `RandomHistories.Both` | Lib/_pyio.py:1425-1496 | one call on a BufferedRandom and on a BytesIO in the same state: same state afterwards and the same answer; for read1 and peek a prefix of all that is still to come, within the limit and empty only if it must be |
| `RandomHistories.RunBoth` | Lib/_pyio.py:1425-1496 | every history of read, read1, peek, write, flush, tell and seek to non-negative positions stays in step with a BytesIO and answers alike, read1 and peek with a prefix of all that is still to come, over any raw stream that reads and writes short; the two buffers are never both non-empty |
| `RandomHistories.FailedSeekRereads` | Lib/_pyio.py:1443-1451 | after any failed seek tell is short by the number of unread bytes, the next two calls of read give exactly these bytes twice, and the position moves over them once |
| `RandomHistories.ReadTwice` | Lib/_pyio.py:1443-1451 | a concrete file of which bytes 1 to 3 are read twice after a failed seek |
| `Codecs.Latin1IsGood` | Doc/library/codecs.rst:675-681 | a one-byte codec meets the decoder contract |
| `Codecs.PairTextSplit` | Doc/library/codecs.rst:661-668 | decoding byte pairs in two pieces, the odd byte carried over, is decoding at once |
| `Codecs.PairsIsGood` | Doc/library/codecs.rst:675-681 | a two-byte codec that has to buffer meets the decoder contract |
| `NewlineDecoders.UniversalSplit` | Lib/_pyio.py:1923-1952 | translation and recorded kinds distribute over any cut that does not split a CR LF |
| `NewlineDecoders.UniversalMeans` | Lib/_pyio.py:1946-1950 | text before the first CR stays, a CR LF or lone CR becomes LF, and so on behind it |
| `NewlineDecoders.KindsMean` | Lib/_pyio.py:1940-1944 | which newline kinds a text holds, by where its CR and LF stand |
| `NewlineDecoders.CountsAgree` | Lib/_pyio.py:1940-1944 | the three str.count results say exactly which newline kinds the text holds |
| `NewlineDecoders.TwoPasses` | Lib/_pyio.py:1946-1950 | replacing CR LF, then CR, is the one-pass translation; each replacement is idle when its count is 0 |
| `NewlineDecoders.TranslateIsUniversal` | Lib/_pyio.py:1946-1950 | the guarded replacements are universal newline translation |
| `NewlineDecoders.HoldKeepsText` | Lib/_pyio.py:1929-1938 | text let through plus the CR held back is all text so far; nothing is held after a final call |
| `NewlineDecoders.HoldSplit` | Lib/_pyio.py:1929-1938 | holding back over two texts is holding back over their concatenation, and no CR LF is cut between the outputs |
| `NewlineDecoders.NewlineSplits` | Lib/_pyio.py:1923-1952 | feeding x then y is feeding x + y, states and outputs, for every inner decoder meeting the contract |
| `NewlineDecoders.NewlineReplays` | Lib/_pyio.py:1954-1969 | state (b, f) is reached silently by feeding b from (empty, f) |
| `NewlineDecoders.NewlineStepsWell` | Lib/_pyio.py:1923-1952 | buffered bytes are the last bytes fed, and nothing comes after a final call |
| `NewlineDecoders.NewlineKeepsContract` | Lib/_pyio.py:1909-1991 | the newline decoder meets the decoder contract whenever its inner decoder does |
| `NewlineDecoders.NewlineKeepsCRLF` | Lib/_pyio.py:1909-1915 | CR LF is never split across two outputs; a translating decoder lets no CR through |
| `NewlineDecoders.IncrementalNewlineDecoder.SetState` | Lib/_pyio.py:1965-1969 | setstate after getstate restores inner state and held CR |
| `NewlineDecoders.IncrementalNewlineDecoder.Reset` | Lib/_pyio.py:1971-1975 | back to the fresh state, no kinds recorded |
| `NewlineDecoders.IncrementalNewlineDecoder.Decode` | Lib/_pyio.py:1923-1952 | decode is one step of the codec over (inner buffer, inner flags doubled plus held CR); kinds of the text let through are added |
| `NewlineDecoders.IncrementalNewlineDecoder.DecodeText` | Lib/_pyio.py:1929-1952 | the text part of decode: what is let through, translated or not, the new held CR, the kinds recorded |
| `NewlineDecoders.NextChunk` | Lib/_pyio.py:1923-1952 | one more chunk: text let through, held CR, translation and kinds all extend those of the text so far |
| `NewlineDecoders.DecodeChunks` | Lib/_pyio.py:1923-1991 | for every way to cut a text into chunks: outputs concatenate to the text, translated if asked for; recorded kinds are those of the whole text, no CR LF is cut |
| `TextCookies.OrAbove` | Lib/_pyio.py:2337-2338 | or-ing in a value shifted past the other operand is adding it |
| `TextCookies.PackNests` | Lib/_pyio.py:2330-2338 | the five shifts and ors put each field in its 64-bit slot |
| `TextCookies.PackDigits` | Lib/_pyio.py:2330-2338 | the cookie as a number: its fields are the digits to base 2**64, lowest first |
| `TextCookies.UnpackPack` | Lib/_pyio.py:2330-2345 | unpacking a packed cookie gives it back if and only if all four numbers are below 2**64 |
| `TextCookies.PackInjective` | Lib/_pyio.py:2330-2338 | distinct fields that fit give distinct cookies |
| `TextCookies.PositionOverflows` | Lib/_pyio.py:2337-2338 | a position of 2**64 gives the cookie of position 0 with decoder flags 1 |
| `TextCookies.PackUnpack` | Lib/_pyio.py:2340-2345 | packing gives back every integer below 2**257 |
| `TextCookies.PackPlain` | Lib/_pyio.py:2355-2359 | a plain byte position is its own cookie |
| `TellSearch.SnapshotIsSafe` | Lib/_pyio.py:2403-2405 | the snapshot itself is a safe start point |
| `TellSearch.SafeNext` | Lib/_pyio.py:2422-2432 | decoding on from a safe point reaches another one whenever nothing is buffered and not too much is out |
| `TellSearch.SafeMeaning` | Lib/_pyio.py:2407-2412 | a safe point stands for the same remaining text as the snapshot |
| `TellSearch.EnoughAtEof` | Lib/_pyio.py:2433-2438 | if stepping byte by byte runs out of input then the chunk was the last one, and the final call gives enough characters |
| `TellSearch.FollowCookie` | Lib/_pyio.py:2520-2530 | feeding what a cookie says keeps all the text from its start point, and skipping what it says lands on the text it stands for |
| `TellSearch.ZeroMeansAll` | Lib/_pyio.py:2504-2514 | seek(0) is always possible and stands for all the text of the file |
| `TellSearch.TextAfter` | Lib/_pyio.py:2315-2317 | all the text from a state is the output of one step plus the text from the next state |
| `TellSearch.ChunkReplays` | Lib/_pyio.py:2302-2326 | the recorded pair (flags, undecoded bytes + chunk) replays what the decoder did |
| `Lines.FindIsFirst` | Lib/_pyio.py:2597-2598 | str.find gives the first occurrence, or -1 if there is none |
| `Lines.SearchLine` | Lib/_pyio.py:2594-2640 | one search by newline mode: just past the first terminator, or -1 if there is none; starting where the last failed search ended loses nothing |
| `Lines.EndStable` | Lib/_pyio.py:2604-2606 | more text does not move the end of a terminated line, unless it would complete a CR LF |
| `Lines.EndBeyond` | Lib/_pyio.py:2646-2651 | a text without terminator ends no line before its own end |
| `Lines.UntranslatedEnd` | Lib/_pyio.py:2609-2634 | the six-way comparison of LF and CR positions finds the first of LF, CR and CR LF |
| `Lines.LinesPartition` | Lib/_pyio.py:2572-2663 | unlimited lines concatenate to the text, none is empty, each ends at its first terminator, and only the last may lack one |
| `Lines.EndOfLine` | Lib/_pyio.py:2661-2663 | a line cut at its terminator ends there on its own |
| `Lines.LineLengthMeans` | Lib/_pyio.py:2572-2663 | a line ends behind the first place where a terminator starts, or with the text, and is cut at size characters |
| `Lines.Terminators` | Lib/_pyio.py:2594-2640 | the terminators of each newline mode |
| `TextIOWrappers.CodecForIsGood` | Lib/_pyio.py:2256-2262 | the decoder made for any newline mode meets the contract; for the empty newline mode it keeps CR LF in one piece |
| `TextIOWrappers.ModeText` | Lib/_pyio.py:2256-2262 | what a file decodes to in each newline mode: universal newlines are translated if the argument is None, and otherwise the text stays as it is |
| `TextIOWrappers.TextIOWrapper.constructor` | Lib/_pyio.py:2027-2112 | a new text stream: all the text of the file from the reader position on is still to come, translated if the newline argument is None and as it is otherwise |
| `TextIOWrappers.TextIOWrapper.GetDecoder` | Lib/_pyio.py:2256-2262 | making the decoder changes no text |
| `TextIOWrappers.TextIOWrapper.GetDecodedChars` | Lib/_pyio.py:2272-2280 | takes at most n characters off the decoded text, and all of them if n is None |
| `TextIOWrappers.TextIOWrapper.RewindDecodedChars` | Lib/_pyio.py:2282-2286 | gives characters back; no caller reaches the AssertionError |
| `TextIOWrappers.ChunkStep` | Lib/_pyio.py:2288-2328 | a chunk keeps snapshot, decoder and file consistent and the remaining text the same |
| `TextIOWrappers.TextIOWrapper.ReadChunk` | Lib/_pyio.py:2288-2328 | decodes the next chunk, by read1 or read, with the remaining text unchanged; False only at end of file, when the decoder has run dry |
| `TextIOWrappers.DryStep` | Lib/_pyio.py:2549-2552 | reading to the end leaves a decoder that has run dry |
| `TextIOWrappers.TextIOWrapper.ReadAll` | Lib/_pyio.py:2547-2553 | read(): all the remaining text |
| `TextIOWrappers.TextIOWrapper.Read` | Lib/_pyio.py:2554-2561 | read(size): exactly the next min(size, remaining) characters |
| `TextIOWrappers.TextIOWrapper.ReadLine` | Lib/_pyio.py:2572-2663 | readline(size): exactly the first line of the remaining text under the newline mode, cut at size characters |
| `TextIOWrappers.TextIOWrapper.FinishLine` | Lib/_pyio.py:2658-2663 | the rewind stays within the decoded characters and gives back just what lies behind the line |
| `TextIOWrappers.FoundEnd` | Lib/_pyio.py:2658-2662 | the end found in the characters so far is the end of the line, and lies in the last piece decoded |
| `TextIOWrappers.TextIOWrapper.NextText` | Lib/_pyio.py:2646-2656 | reads chunks until some text comes out; fails only when no text is left |
| `TextIOWrappers.ReadLines` | Lib/_pyio.py:2572-2663 | repeated unlimited readline gives the lines of the remaining text and uses it up |
| `TextIOWrappers.TextIOWrapper.FastSearch` | Lib/_pyio.py:2382-2405 | for every guess in range the search ends, at a safe start point, with the decoder in its state there |
| `TextIOWrappers.TextIOWrapper.WalkBytes` | Lib/_pyio.py:2414-2438 | stepping byte by byte ends with a safe start point, the bytes to feed and enough characters; the OSError is not reached |
| `TextIOWrappers.SafeCookieMeans` | Lib/_pyio.py:2361-2442 | a cookie for a safe point stands for exactly the text left |
| `TextIOWrappers.TextIOWrapper.Tell` | Lib/_pyio.py:2347-2444 | for every guess: the cookie stands for the remaining text, can be followed by seek, and the decoder is put back; neither the AssertionError nor the OSError is reached |
| `TextIOWrappers.PlainCookie` | Lib/_pyio.py:2353-2359 | without a snapshot the byte position alone stands for the remaining text |
| `TextIOWrappers.FedStart` | Lib/_pyio.py:2520-2530 | feeding the named bytes and skipping gives a consistent state with the text the cookie stands for |
| `TextIOWrappers.TextIOWrapper.RestoreDecoder` | Lib/_pyio.py:2512-2518 | puts the decoder in its state at the safe start point |
| `TextIOWrappers.TextIOWrapper.FeedCookie` | Lib/_pyio.py:2520-2530 | feeds the decoder and skips characters if there are enough; otherwise the OSError, with the stream at the start point |
| `TextIOWrappers.TextIOWrapper.Seek` | Lib/_pyio.py:2498-2533 | the remaining text becomes what the cookie stands for; OSError exactly when the bytes fed give too few characters, which leaves the stream at the start point; ValueError exactly for a negative cookie, which changes nothing |
| `TextIOWrappers.TextIOWrapper.SeekEnd` | Lib/_pyio.py:2485-2495 | seek to the end: no text is left, the result is the file size |
| `TextIOWrappers.TextIOWrapper.SeekCurrent` | Lib/_pyio.py:2478-2484 | seek(tell()) leaves exactly the same remaining text, from every reachable reading state, for every chunk size and every decoder meeting the contract |
| `TextHistories.Roam` | Lib/_pyio.py:2347-2663 | any history of read, readline, read-all, seek to start and end, tell, seek to any earlier tell and seek(tell()) returns the pieces of the decoded text it should: seeks lead back to where the cookie was taken, as often as they are made, and seek(tell()) has no effect |
| `TextHistories.Step` | Lib/_pyio.py:2347-2663 | one call of a history: the text returned, the text left, and the cookies kept, which go on standing for their texts |
| `TextHistories.TakeCookie` | Lib/_pyio.py:2347-2444 | a cookie of tell stands for the text left, with all its numbers in their slots |
| `TextHistories.Bookmark` | Lib/_pyio.py:2347-2533 | a cookie leads back to its text after any further calls |
| `TextHistories.ReadWholeText` | Lib/_pyio.py:2547-2553 | the whole stack over a raw stream that reads short, for every decoder meeting the contract and every newline mode: the file, decoded, and translated if the newline argument is None |
| `TextHistories.ReadWideText` | Lib/_pyio.py:2547-2553 | the whole stack on a two-byte codec over a raw stream that reads short |
| `ClassGraphs.SubUnfold` | Lib/_py_abc.py:131-147 | the recursion of the check computes reachability of an ancestor over inheritance and registration edges |
| `ClassGraphs.AnswerIsSub` | Lib/_py_abc.py:131-134 | for an ordinary class, which only looks at the MRO, that is the same answer |
| `ClassGraphs.PathsEnd` | Lib/_py_abc.py:63-67 | every path of edges the check follows is shorter than the rank of its start, so the recursion ends |
| `ClassGraphs.RegisterAdds` | Lib/_py_abc.py:68-69 | a registration adds exactly the answers that go through the new edge, and takes none away |
| `ClassGraphs.RegisterNext` | Lib/_py_abc.py:68-69 | a registration adds one edge, and changes no MRO |
| `ClassGraphs.RegisterRanked` | Lib/_py_abc.py:61-69 | a registration that is not refused keeps the edges the check follows acyclic |
| `ClassGraphs.CreateKeepsAnswers` | Lib/_py_abc.py:47-52 | creating a class changes no answer between old classes, so the counter need not move |
| `ClassGraphs.CreateAnswer` | Lib/_py_abc.py:35-52 | the new class is a subclass of exactly what its bases are subclasses of |
| `ClassGraphs.CreateRanked` | Lib/_py_abc.py:36-52 | creating a class keeps the edges the check follows acyclic |
| `ClassGraphs.CreateWellFormed` | Lib/_py_abc.py:35-36 | MROs stay closed upwards and antisymmetric, and subclasses of ABCs are ABCs |
| `ClassGraphs.CreateStepwise` | Lib/_py_abc.py:140-144 | every proper ancestor keeps a direct subclass on the way down |
| `ClassGraphs.CreateParts` | Lib/_py_abc.py:35-52 | the new class: its MRO, the edges from its bases, and whether it is an ABC; nothing else changes |
| `AbcCaches.AbcWorld.IsSubclass` | Lib/_py_abc.py:131-147 | issubclass on any class answers reachability |
| `AbcCaches.AbcWorld.SubclassCheck` | Lib/_py_abc.py:108-147 | the caches never change the answer; afterwards it is stored, a negative one under the current counter |
| `AbcCaches.AbcWorld.Search` | Lib/_py_abc.py:131-147 | MRO, registry and direct subclasses together decide, and the answer stored is true |
| `AbcCaches.AbcWorld.AnyOf` | Lib/_py_abc.py:135-144 | the two loops: whether some candidate is an answer; the recursion ends because ranks fall |
| `AbcCaches.AbcWorld.InstanceCheck` | Lib/_py_abc.py:92-106 | isinstance is the answer for the instance class or its type, through the same caches |
| `AbcCaches.AbcWorld.Register` | Lib/_py_abc.py:54-70 | refuses exactly what would close a cycle of edges the check follows; self-registration changes nothing; afterwards issubclass(subclass, cls) holds; no true answer becomes false; the counter moves by one exactly when an edge is added |
| `AbcCaches.AbcWorld.Create` | Lib/_py_abc.py:35-52 | a class with empty caches stamped with the current counter; no old answer changes |
| `AbcCaches.AbcWorld.CachesClear` | Lib/_py_abc.py:87-90 | clearing the caches of a class loses no truth |
| `AbcCaches.RegisterValid` | Lib/_py_abc.py:68-69 | after a registration positive entries are still true, and negative ones of older versions are not trusted |
| `AbcCaches.CreateValid` | Lib/_py_abc.py:47-52 | after a creation all cache entries are still true at the same counter |
| `AbcMeaning.AnswerIsReachable` | Lib/_py_abc.py:131-147 | every positive answer is backed by reachability over all edges |
| `AbcMeaning.ReachabilityExactly` | Lib/_py_abc.py:108-147 | issubclass is reachability over all inheritance and registration edges if and only if what is registered under an ABC also derives from the ordinary bases of that ABC |
| `AbcMeaning.AllAbcsButRoot` | Lib/_py_abc.py:108-147 | in particular whenever all classes but the root are ABCs |
| `AbcMeaning.OrdinaryBaseBreaksReachability` | Lib/_py_abc.py:131-144 | a run with an ordinary base class in which a reachable class is not a subclass |
| `AbcMeaning.Do` | Lib/_py_abc.py:35-147 | one call of a run: queries are answered truly, the graph changes as the call says, and nothing true becomes false |
| `AbcMeaning.Run` | Lib/_py_abc.py:35-147 | every interleaving of creation, registration, queries and cache clearing answers each query truly for the graph that the calls before it determine, whatever is cached; the answer is reachability over all edges whenever what is registered derives from the ordinary bases; a true answer stays true for the rest of the run |
| `AbcCycles.RegisterCloses` | Lib/_py_abc.py:61-69 | a registration closes a cycle of inheritance and registration edges if and only if they already lead from the subclass to the class |
| `AbcCycles.GuardsKeepAcyclic` | Lib/_py_abc.py:61-69 | when what is registered derives from the ordinary bases, the second guard is exactly that condition |
| `AbcCycles.CreateKeepsAcyclic` | Lib/_py_abc.py:35-52 | creating a class closes no cycle |
| `AbcCycles.AfterAcyclicExactly` | Lib/_py_abc.py:35-70 | one call keeps the graph of all edges acyclic if and only if it is not a registration that both guards let through although there is a way back |
| `AbcCycles.RunAcyclicExactly` | Lib/_py_abc.py:35-70 | a run leaves the graph of all edges acyclic if and only if it holds no such registration |
| `AbcCycles.NothingCloses` | Lib/_py_abc.py:61-69 | there is no such registration as long as what is registered derives from the ordinary bases |
| `AbcCycles.CycleThroughOrdinaryBase` | Lib/_py_abc.py:61-69 | a run of calls, none refused, after which two distinct classes are subclasses of each other and the edges form a cycle |
| `MarkupSpec.ScanName` | Lib/_markupbase.py:376-392 | a name ends in bounds and beyond its start, with more input behind it |
| `MarkupSpec.ScanNameStable` | Lib/_markupbase.py:376-392 | a complete name, or its error, is the same on every extension of the buffer |
| `MarkupSpec.StringLitStable` | Lib/_markupbase.py:11 | a closed string literal stays closed; its end stays unless whitespace ran up to the end of the buffer |
| `MarkupSpec.MatchEndsAtGt` | Lib/_markupbase.py:12-18 | a match of a closing pattern runs up to the first ">" |
| `MarkupSpec.SearchStable` | Lib/_markupbase.py:12-18 | the leftmost match of a closing pattern stays the leftmost under more input |
| `MarkupSpec.ParseCommentStable` | Lib/_markupbase.py:165-175 | comments: only "incomplete" may change under more input |
| `MarkupSpec.ParseMarkedSectionStable` | Lib/_markupbase.py:141-162 | marked sections likewise, with the same reported span |
| `MarkupSpec.ParseElementStable` | Lib/_markupbase.py:249-257 | element declarations likewise |
| `MarkupSpec.ParseAttributesStable` | Lib/_markupbase.py:268-314 | the attribute loop likewise |
| `MarkupSpec.ParseAttlistStable` | Lib/_markupbase.py:260-314 | attlist declarations likewise, with an unchecked incomplete name showing as incomplete |
| `MarkupSpec.ParseNotationStable` | Lib/_markupbase.py:317-337 | notation declarations likewise |
| `MarkupSpec.ParseEntityStable` | Lib/_markupbase.py:340-372 | entity declarations likewise |
| `MarkupSpec.ParseMarkupStable` | Lib/_markupbase.py:185-213 | one declaration or comment of the internal subset likewise |
| `MarkupSpec.ParseSubsetStable` | Lib/_markupbase.py:179-246 | the internal subset likewise |
| `MarkupSpec.ParseItemStable` | Lib/_markupbase.py:112-134 | one item of a declaration likewise, unless it runs up to the end of the buffer |
| `MarkupSpec.ParseItemsStable` | Lib/_markupbase.py:98-137 | the loop of parse_declaration likewise |
| `MarkupSpec.ParseDeclarationStable` | Lib/_markupbase.py:60-137 | a declaration scan that gave an index or an error gives the same on every extension of the buffer |
| `MarkupSpec.StableExactly` | Lib/_markupbase.py:72-73 | so for all extensions, if and only if the buffer does not break off inside the opener |
| `MarkupSpec.FirstCompleteScan` | Lib/_markupbase.py:60-137 | over a growing buffer, every complete scan equals the first complete one |
| `MarkupSpec.CommentsNeverComplete` | Lib/_markupbase.py:77-85 | the comment branch is not reached: a declaration scan never completes a comment |
| `MarkupSpec.ParseDeclaration` | Lib/_markupbase.py:60-137 | an index is in bounds and beyond the start, across all mutual calls |
| `MarkupSpec.ParseSubset` | Lib/_markupbase.py:179-246 | progress: an index beyond the start and before the end of the buffer |
| `MarkupSpec.ParseAttlist` | Lib/_markupbase.py:260-314 | progress: an index in bounds and beyond the start |
| `MarkupRoundTrips.Characters` | Lib/_markupbase.py:9-11 | the characters of names and quotes, and whitespace among the ASCII ones |
| `MarkupRoundTrips.LowerMeans` | Lib/_markupbase.py:387 | names are lower-cased letter by letter: DOCTYPE is doctype |
| `MarkupRoundTrips.SkipSpaceMeans` | Lib/_markupbase.py:10 | whitespace is skipped up to the first other character |
| `MarkupRoundTrips.WordScanned` | Lib/_markupbase.py:376-392 | a word and its whitespace are scanned as its lower-case name |
| `MarkupRoundTrips.CommentMatch` | Lib/_markupbase.py:12 | what the pattern of comment ends matches |
| `MarkupRoundTrips.SectionMatch` | Lib/_markupbase.py:13 | what the pattern of section ends matches, whitespace included |
| `MarkupRoundTrips.MsSectionMatch` | Lib/_markupbase.py:18 | what the pattern of Microsoft section ends matches |
| `MarkupRoundTrips.FirstClose` | Lib/_markupbase.py:12-18 | the first closing match in a text in front of a closing marker is the first one in the text, and the marker if the text holds none |
| `MarkupRoundTrips.NoGtNoEnd` | Lib/_markupbase.py:12-18 | a text without ">" holds no end of a comment or section |
| `MarkupRoundTrips.CommentRoundTrip` | Lib/_markupbase.py:165-175 | every rendered comment, with whitespace in its end or not, is scanned in full if and only if its text holds no end of a comment; otherwise the scan stops behind the first one |
| `MarkupRoundTrips.SectionRoundTrip` | Lib/_markupbase.py:141-162 | every rendered marked section with a standard or a Microsoft keyword, in either case of letters, is scanned in full if and only if its text holds no end of its kind, and keyword and text are reported; otherwise the scan stops at the first end |
| `MarkupRoundTrips.CommentIncomplete` | Lib/_markupbase.py:165-175 | a buffer that breaks off inside a comment is incomplete |
| `MarkupRoundTrips.SectionIncomplete` | Lib/_markupbase.py:141-162 | a buffer that breaks off inside a marked section is incomplete |
| `MarkupSubsets.PlainItem` | Lib/_markupbase.py:112-118 | a word or a string literal is scanned up to what stands behind it |
| `MarkupSubsets.ItemsPass` | Lib/_markupbase.py:98-137 | words and literals of a declaration are passed over |
| `MarkupSubsets.NamesAndLitsPass` | Lib/_markupbase.py:321-337 | words and literals of a notation or entity declaration are passed over |
| `MarkupSubsets.RowPass` | Lib/_markupbase.py:277-314 | an attribute description is passed over: name, type word or group, an optional literal, an optional "#" word |
| `MarkupSubsets.RowsPass` | Lib/_markupbase.py:277-314 | so are several of them |
| `MarkupSubsets.BodyPass` | Lib/_markupbase.py:210-217 | each of the four kinds of declarations is scanned in full by the scanner that goes with its keyword |
| `MarkupSubsets.MemberPass` | Lib/_markupbase.py:179-246 | one member of the internal subset is passed over: whitespace, a comment, a reference with or without ";", or a declaration |
| `MarkupSubsets.SubsetPass` | Lib/_markupbase.py:179-246 | an internal subset is scanned up to the ">" behind its "]" |
| `MarkupSubsets.DeclarationRoundTrip` | Lib/_markupbase.py:60-137 | every declaration made of a name, words and string literals, and for doctype an internal subset, is scanned in full, and the stretch reported is its text |
| `MarkupSubsets.PrefixIncomplete` | Lib/_markupbase.py:135-137 | a buffer that breaks off inside such a declaration, behind its opener, is incomplete |
| `MarkupSubsets.SubsetExample` | Lib/_markupbase.py:249-257 | a document type with a content model in its internal subset is scanned up to index 31 |
| `MarkupFaults.BodyFaultRaises` | Lib/_markupbase.py:249-372 | a wrong character in a declaration of the internal subset raises the error: no name, or something else in place of an item, an attribute, its type, or the word behind "#" |
| `MarkupFaults.SubsetRejected` | Lib/_markupbase.py:179-246 | so does a wrong character or another keyword between the members of an internal subset, or behind it |
| `MarkupFaults.DeclarationRejected` | Lib/_markupbase.py:60-162 | so does a wrong character in a declaration or another keyword of a marked section, whatever stands before and behind it |
| `MarkupParser.AdvanceSplit` | Lib/_markupbase.py:44-55 | reading in two pieces moves the position as reading once |
| `MarkupParser.AdvanceCounts` | Lib/_markupbase.py:44-55 | line grows by the newline count; column is the distance past the last newline |
| `MarkupParser.NewlinesMean` | Lib/_markupbase.py:44-55 | newlines are counted one by one |
| `MarkupParser.SinceNewlineMeans` | Lib/_markupbase.py:44-55 | the column starts behind the last newline |
| `MarkupParser.PositionAfterPrefix` | Lib/_markupbase.py:32-55 | updatepos from the start of the input leads to line 1 + newlines, column past the last newline |
| `MarkupParser.UpdatesCompose` | Lib/_markupbase.py:40-55 | updatepos(i, j) then updatepos(j, k) is updatepos(i, k) |
| `MarkupParser.ParserBase.UpdatePos` | Lib/_markupbase.py:44-55 | line grows by the newlines passed over; the column is the distance past the last of them, or grows by the distance if there is none |
| `MarkupParser.ParserBase.MatchPattern` | Lib/_markupbase.py:12-18 | matching a closing pattern, as a loop |
| `MarkupParser.ParserBase.SearchPattern` | Lib/_markupbase.py:12-18 | re.search for a closing pattern, as a loop |
| `MarkupParser.ParserBase.ScanNameAt` | Lib/_markupbase.py:376-392 | the scanner equals its specification; the position moves only on an error, up to the bad character |
| `MarkupParser.ParserBase.ParseCommentAt` | Lib/_markupbase.py:165-175 | equals its specification, and reports the text between the markers exactly when asked to and complete |
| `MarkupParser.ParserBase.ParseMarkedSectionAt` | Lib/_markupbase.py:141-162 | equals its specification, and reports the section exactly when complete |
| `MarkupParser.ParserBase.ParseElementAt` | Lib/_markupbase.py:249-257 | equals its specification, and keeps the position unless it fails |
| `MarkupParser.ParserBase.ParseAttlistAt` | Lib/_markupbase.py:260-314 | equals its specification, and keeps the position unless it fails |
| `MarkupParser.ParserBase.ParseNotationAt` | Lib/_markupbase.py:317-337 | equals its specification, and keeps the position unless it fails |
| `MarkupParser.ParserBase.ParseEntityAt` | Lib/_markupbase.py:340-372 | equals its specification, and keeps the position unless it fails |
| `MarkupParser.ParserBase.ParseMarkupAt` | Lib/_markupbase.py:185-213 | equals its specification, and reports nothing |
| `MarkupParser.ParserBase.ParseSubsetAt` | Lib/_markupbase.py:179-246 | equals its specification, and reports nothing |
| `MarkupParser.ParserBase.ParseDeclarationAt` | Lib/_markupbase.py:60-137 | equals its specification; one handler call with the text of the declaration when complete, none otherwise |
| `Decompressors.DecompressStep` | Lib/_compression.py:91-103 | a call of the decompressor gives the next bytes of its output; one without data has seen the end, asks for input, or uses up an idle step |
| `Decompressors.StreamDone` | Lib/_compression.py:82-87 | once a stream has ended, its output and the rest of the file make up the text, and the file is as good as that rest |
| `Decompressors.NextBlock` | Lib/_compression.py:87-94 | behind a stream either another one begins or the bytes are rejected, ignorably, and no text follows |
| `Decompressors.InStream` | Lib/_compression.py:95-103 | inside a complete or incomplete stream of a readable file nothing is rejected, output so far is part of the text, and all of it when the file ends there |
| `Decompressors.UncutIsGood` | Lib/_compression.py:72-111 | a file of complete streams is readable in particular |
| `Decompressors.CutShort` | Lib/_compression.py:96-100 | where EOFError is raised the file does end inside a stream, and in a readable file all its text is out |
| `Decompressors.SameStep` | Lib/_compression.py:95-103 | a call in a stream that goes on: a rejection means that the file holds rejected bytes; otherwise the next bytes of the text come out, or the decompressor gets nearer to its end |
| `Decompressors.NextStep` | Lib/_compression.py:87-94 | a call that starts a stream: the same, where a rejection is the end of the text if it is ignorable |
| `Decompressors.NextTurnExactly` | Lib/_compression.py:82-94 | at the end of a stream the block that the next one starts with decides: the read ends exactly when there is none or it is ignorably rejected, and fails exactly when it is rejected and such errors are not ignored |
| `Decompressors.SameTurnExactly` | Lib/_compression.py:95-103 | in a stream: EOFError exactly when it needs input at the end of the file, the error exactly over rejected bytes, and otherwise data, possibly none |
| `Decompressors.ReadsOnce` | Lib/_compression.py:72-111 | what read does is determined by the file, the answers of the raw stream and the decompressors |
| `DecompressReaders.DecompressReader.constructor` | Lib/_compression.py:39-57 | at position 0, size unknown, nothing decompressed yet |
| `DecompressReaders.DecompressReader.ReadSome` | Lib/_compression.py:72-111 | in a readable file, whose last stream may be cut short: the next bytes of the text, at most size, none only at the end of it; EOFError only after all of it and only if the last stream is cut short; never the error of rejected bytes. In any file: EOFError only where the file ends inside a stream, the other error only over rejected bytes, and the result of the turns; terminates |
| `DecompressReaders.DecompressReader.TakeTurns` | Lib/_compression.py:79-105 | the loop ends at the first turn that gives data, the end or an error |
| `DecompressReaders.DecompressReader.NextStream` | Lib/_compression.py:82-94 | the turn at the end of a stream: it ends exactly when no block comes or the block is ignorably rejected, and fails exactly when it is rejected and such errors are not ignored; otherwise the next stream goes on |
| `DecompressReaders.DecompressReader.SameStream` | Lib/_compression.py:95-103 | the turn in a stream: EOFError exactly when it needs input at the end of the file, an error exactly over rejected bytes, otherwise the next bytes |
| `DecompressReaders.DecompressReader.ReadAll` | Lib/_compression.py:113-121 | all the text from the position on; if the last stream is cut short, EOFError with the position at the end of the text |
| `DecompressReaders.DecompressReader.Read` | Lib/_compression.py:72-111 | a negative size reads all; otherwise as above, so EOFError comes only after all the text of a truncated file |
| `DecompressReaders.DecompressReader.Rewind` | Lib/_compression.py:124-128 | back to the start, keeping the size if known |
| `DecompressReaders.DecompressReader.SkipForward` | Lib/_compression.py:151-156 | discards up to the offset or the end of the text; fails exactly when it reads on behind the end of a truncated file |
| `DecompressReaders.DecompressReader.FindSize` | Lib/_compression.py:136-141 | reading on to the end makes the size known; fails exactly for a truncated file |
| `DecompressReaders.DecompressReader.Seek` | Lib/_compression.py:130-158 | from start, position or end: lands on the target clamped to 0..size, also after rewinds and ignored trailing bytes; in a truncated file it fails exactly when it seeks from the end or beyond the end of the text, and then the position is that end; ValueError exactly for an unknown whence |
| `Decompressors.IgnoredHoweverCut` | Lib/_compression.py:82-94 | a reader that has read the last stream of a file ignores the bytes behind it in whatever blocks they come, held by the decompressor or still in the file, if and only if their first byte alone is rejected |
| `DecompressReaders.TrailingBytesCutInTwo` | Lib/_compression.py:82-103 | two readers over one content, which differ in the answers of the raw stream only: one ignores the two bytes behind the stream, the other raises the error over them |
| `Decompressors.BothAtOnce` | Lib/_compression.py:87-94 | the turn of the first of them: both bytes in one block are rejected, and ignored |
| `Decompressors.OneByOne` | Lib/_compression.py:87-103 | the turns of the second: the first byte alone is accepted as the start of a stream, so the error over the second is raised |
| `Decompressors.MagicIsGood` | Lib/_compression.py:39-57 | a format that meets the decompressor assumptions |
| `SetHashes.Le` | Lib/_collections_abc.py:591-599 | the length test and the loop decide inclusion |
| `SetHashes.Ge` | Lib/_collections_abc.py:611-619 | the same for the other direction |
| `SetHashes.Eq` | Lib/_collections_abc.py:621-624 | equal length and one inclusion is inclusion both ways |
| `SetHashes.SubsetIsSmaller` | Lib/_collections_abc.py:594-595 | an included set is no longer |
| `SetHashes.SubsetIsAll` | Lib/_collections_abc.py:621-624 | a subset of the same size is everything |
| `SetHashes.MaskXor` | Lib/_collections_abc.py:703-705 | masking after a xor of integers of any sign is a xor of words |
| `SetHashes.MixedSplit` | Lib/_collections_abc.py:702-705 | contributions of two parts combine by xor |
| `SetHashes.MixedWithout` | Lib/_collections_abc.py:702-705 | taking out an element anywhere takes out its contribution |
| `SetHashes.MixedAgree` | Lib/_collections_abc.py:702-705 | equal sets mix to the same word, whatever order each is iterated in |
| `SetHashes.Hash` | Lib/_collections_abc.py:697-713 | the result is a function of size and mixed contributions, in the signed word range, and never -1 |
| `SetHashes.EqThenHash` | Lib/_collections_abc.py:682-713 | sets equal under Set.__eq__ have equal Set._hash |
| `SetHashes.FoldInjective` | Lib/_collections_abc.py:707 | the shifts that are xored in lose no bit |
| `SetHashes.LinearInjective` | Lib/_collections_abc.py:708-709 | multiplying by 69069 modulo 2**64 loses nothing |
| `SetHashes.HashTellsApart` | Lib/_collections_abc.py:697-713 | sets of one size have one hash if and only if their contributions mix to the same word, or one leads to the reserved -1 and the other to what replaces it |
| `SetHashValues.HashValues` | Lib/_collections_abc.py:697-713 | the hash of the empty set, and of one element with hash 1 and with hash 2 |
| `Bits.XorAssociates` | Lib/_collections_abc.py:704-705 | xor of Python integers, negative ones included, is associative |
| `Bits.LowXor` | Lib/_collections_abc.py:704-705 | the low bits of a xor are the xor of the low bits |
| `Bits.XorBits` | Lib/_collections_abc.py:704-705 | xor, digit by digit, on all integers |
| `Bits.OrBits` | Lib/_pyio.py:2337-2338 | or, digit by digit |
| `WeekDates.FromOrdinal` | Lib/_strptime.py:536-543 | an ordinal is led back to a year and a day of it |
| `WeekDates.OneDate` | Lib/_strptime.py:536-543 | an ordinal belongs to one date only |
| `WeekDates.IsoWeekExists` | Lib/_strptime.py:293-306 | every date has an ISO year and week, the year at most one off |
| `WeekDates.IsoWeekUnique` | Lib/_strptime.py:293-306 | and only one |
| `WeekDates.IsoYearInRange` | Lib/_strptime.py:298-305 | for dates in years 1 to 9999 the ISO year is one datetime.date accepts |
| `WeekDates.UorWInverts` | Lib/_strptime.py:272-290 | the %U or %W week and the weekday of a date give back its day of year |
| `WeekDates.WeekCountsStarts` | Lib/_strptime.py:272-290 | the %U or %W week of a day, as C11 numbers it, is the number of Sundays, or Mondays, in the year so far |
| `WeekDates.UorWHasWeekday` | Lib/_strptime.py:272-290 | for any week number the day computed has the weekday asked for |
| `WeekDates.NoWeekZeroIn2018` | Lib/_strptime.py:272-290 | Monday of week 0 of 2018, a year that starts on a Monday, is taken for Monday of week 1 |
| `WeekDates.UorWSettles` | Lib/_strptime.py:515-543 | for every week number and weekday: the date settled on has the weekday asked for; it lies in the year and week asked for if and only if the day computed lies in the year and the week is not week 0 of a year without one; the returned day-of-year field is right if and only if the day computed does not lie beyond the end of the year |
| `WeekDates.SettleExactly` | Lib/_strptime.py:524-543 | settling keeps the day and gives its date; the day-of-year field is right if and only if the day did not lie beyond the end of its year |
| `WeekDates.NoWeek53In2018` | Lib/_strptime.py:515-543 | Tuesday of %W week 53 of 2018 becomes 1 January 2019 with day-of-year field 366 |
| `WeekDates.VSettles` | Lib/_strptime.py:515-543 | for every ISO week number and weekday: the date settled on has the weekday asked for, and the returned day-of-year field is right if and only if the day computed does not lie beyond the end of its year |
| `WeekDates.VComesBack` | Lib/_strptime.py:293-306 | the ISO week of that date is the one asked for if and only if the ISO year has a week of that number |
| `WeekDates.SettleAccepted` | Lib/_strptime.py:529-543 | for a day of the next year at most, datetime raises ValueError if and only if the year borrowed from is year 0 or the day lies beyond the end of year 9999 |
| `WeekDates.UorWAccepted` | Lib/_strptime.py:515-543 | %U and %W: ValueError if and only if the day computed lies before year 1 or after year 9999 |
| `WeekDates.VAccepted` | Lib/_strptime.py:293-306 | %V: ValueError if and only if it is week 0 of year 1 or a day after the end of year 9999 |
| `WeekDates.NoYearZero` | Lib/_strptime.py:272-290 | Sunday of %U week 0 of year 1 leads to year 0, which datetime refuses |
| `WeekDates.VOrdinal` | Lib/_strptime.py:293-306 | whichever year it is counted in, the ordinal is the weekday asked for in the week of that number |
| `WeekDates.VHasWeekday` | Lib/_strptime.py:293-306 | the day computed has the weekday asked for |
| `WeekDates.VInvertsOrdinal` | Lib/_strptime.py:293-306 | the ISO week date of any date leads back to its ordinal |
| `WeekDates.VYear` | Lib/_strptime.py:293-306 | which year the day is counted in |
| `WeekDates.VInverts` | Lib/_strptime.py:515-543 | after normalisation the ISO week date gives back year and day; the returned day-of-year field is right if and only if the ISO year is not the year before |
| `WeekDates.DayOfYear367` | Lib/_strptime.py:515-543 | 1 January 2021 from its ISO week date: the date right, the day-of-year field 367 |

## Left out

- `open`, `FileIO`, file descriptors, locks, closing, pickling and warnings: system calls and plumbing.
- `BufferedReader._readinto`: its copy length is bounded by the whole target buffer and not by the room left
  in it, so it does not refine a plain read; `truncate` of the buffered classes, which keeps read-ahead.
- `BufferedRWPair`, `StringIO`, `IOBase.readline`, `readlines`, `writelines`: they would add easy members.
- `TextIOWrapper.write`, encoders, `reconfigure`, iteration with telling disabled, non-seekable streams.
- BufferedRandoms.BufferedRandom.Write: over a polite raw stream only; a refusal is treated in `BufferedWriters`.
- RandomHistories.RunBoth: `BytesIO.read1` returns all that `read` would, a `BufferedRandom` possibly less.
- BufferedRandoms.BytesIO.Seek: histories stop at seeks to negative positions, where a `BytesIO` clamps and a
  raw stream fails.
- TextIOWrappers.TextIOWrapper.Tell: the guess of the fast search is any number in range; the assertion that
  the computed one is in range (`Lib/_pyio.py:2384`) is not modelled, and the ratio behind it is not
  refreshed by `seek`.
- TextIOWrappers.TextIOWrapper.Seek: integers with flags that the decoder cannot be in, or that signal the end of
  the file too early, for which the documentation promises nothing.
- TextHistories.Roam: stops at a tell whose numbers do not fit their 64-bit slots.
- TextHistories.Step: asks the same of a tell.
- TextHistories.Bookmark: asks the same of its cookie.
- TextIOWrappers.TextIOWrapper.SeekCurrent: asks that the numbers in the cookie fit their 64-bit slots.
- TextIOWrappers.TextIOWrapper.constructor: decoders whose fresh flags are not 0 or that skip a byte order
  mark at the start of the file only, such as UTF-16, are not covered by the contract.
- `IncrementalNewlineDecoder.newlines`, which names the kinds recorded, and `errors`.
- Codecs.Decoder.Decode: decoders that raise on malformed input are not modelled.
- BufferedWriters.BufferedWriter.FlushUnlocked: a raw stream that takes nothing for ever is not a finite script.
- AbcCaches.AbcWorld.SubclassCheck: subclass hooks answer NotImplemented, and classes are never collected.
- AbcCaches.AbcWorld.Create: metaclasses other than `type` and `ABCMeta`, later changes of bases, abstract
  methods; `_abc_registry_clear`, a debugging aid, would take true answers away.
- MarkupParser.ParserBase.ParseDeclarationAt: where an error leaves the position is stated for `_scan_name` and
  `updatepos` only; subclasses that set `_decl_otherchars` or override scanners; message texts.
- DecompressReaders.DecompressReader.ReadSome: nothing is said of a reader after rejected bytes have raised an
  error, and of data read from a file that holds rejected bytes only what the turns say; the compressed file
  starts at position 0 and its reads are short but never refused.
- SetHashes.Hash: 64-bit words only; the mixing constants are as in the source, their quality is no subject.
- WeekDates.UorWSettles: for years that `datetime` refuses, as `UorWAccepted` says, there is no date.
- WeekDates.SettleExactly: likewise, as `SettleAccepted` says.
- WeekDates.VSettles: likewise, as `VAccepted` says.
- WeekDates.VInverts: the regular expressions, locale, time zones and format compilation of `_strptime`, and its
  other directives.
