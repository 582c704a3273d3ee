# CodeVetter: models and proofs

This project models the parts of CodeVetter whose answers are easy to get subtly wrong and proves what
they promise, for all inputs, runs and interleavings:

- the parallel temperature aggregation (Go): ranges cut at newlines, read concurrently, merged as results
  arrive, compared with one sequential pass; the rounded mean and the printed report;
- the navigator session (Rust): the line index of a document, the background indexer, the bounded source
  cache, the change stream merged into a file tree;
- search and fuzzy path ranking, which paths may be read, the unified diff reader, the language server's frames and calls;
- the agent's JSON scanner and its bounded run loop;
- the invocation recorder (Python): JSON Pointers, supervision of a run, the ledger and its assessments,
  the count of uncommitted entries.

Code that computes is a function with lemmas about it. Code that works step by step is a method or a class
whose `ensures` ties its result or its new state to such a function. Concurrency is a state machine or a
nondeterministic scheduler: `RunReaders` lets any reader finish and any result arrive next, and the cache
and the ledger run any sequence of events. Go's `int64` wraps explicitly and its division truncates.

What the model is told from outside comes as parameters: what blobs a repository holds, what the brain,
the browser and the language server answer, when signals and OS errors strike, which characters are
alphanumeric, what a text is in lower case, SHA-256, and what a JSON text parses to.

`dafny verify dfyconfig.toml` checks everything.

## What the proofs found

- `newlineAlignedRanges` multiplies the file size by the worker number in `int64`
  (`benchmarks/runtime-challenges/temperature-aggregation/go/file.go:70`). Parallel aggregation gives the
  sequential table exactly while `size * (workers - 1)` fits. Past that every read fails with a negative
  offset, although one sequential pass may succeed (`SomeReadableFileIsTooLarge`). The largest size,
  2^63 - 1, is worse: with three or more workers a readable file is read without error and rows are counted
  more than once (`LargestFileIsMiscounted`; `SomeLargestFileIsMiscounted` is such a file).
- A boundary aimed where the 128 KiB probe holds no newline is put at the end of the file. Boundaries go
  backwards, and ranges overlap, exactly if the next boundary then lies before the end (`RangesOverlapIff`);
  `LongLineMakesRangesOverlap` is a file of 300000 bytes that does it. The ranges still cover every byte, and a
  line too long for the scanner lies whole in one of them, so both ways of reading fail together.
- A printed mean is right exactly while twice the exact sum of the readings plus their number fits in `int64`
  (`PrintedMeanOfStationIsRightIff`); fewer than 2^63 / 1999 bytes of input guarantee that.
  `SomeReadableFileHasWrongMean` is a file whose report shows a wrong mean.
- `match_indices` skips overlapping matches. A reference search therefore misses whole occurrences for some
  queries that are not identifiers, such as two dots (`TwoDotsAreMissed`); `ScanIsCompleteIff` says for exactly
  which.
- The indexer sets `done` also when it is cancelled (`crates/codevetter-navigator/src/session.rs:336-338` and
  `:377-379`), so a search of a closing session can call an answer complete that misses lines
  (`CancelledSearchCanMiss`). Such an answer lists all hits exactly if no entry that was not reached holds a
  matching line (`CompleteSearchIsRightIff`), and it does so for every query exactly if those entries hold
  nothing but blank lines (`AllAnswersRightIff`).
- The comment at `crates/codevetter-navigator/src/session.rs:266` says local bytes are pinned on first read.
  A cached document stays exactly until a store puts another one under its key or finds no room for one under
  another key (`PinHoldsIff`). Two overlapping first reads do the first, an overflow does the second
  (`OverlappingReadsRepin`, `OverflowUnpins`).
- The cached text stays within 96 MiB exactly if no single document stored is longer (`EveryRunIsBoundedIff`).
  Files that do not grow between their size check and their read cannot be; one that does can
  (`GrownFileExceedsBound`, with concrete runs in `PinAndBoundCanFail`).
- A diff of more than 50000 rows is cut to an exact prefix. `truncated` is also set, misleadingly, exactly if
  there are 50000 rows and the last line makes none (`TruncatedMisleadsIff`); `WholeDiffCalledTruncated` is such
  a diff.
- The text that the diff parser is given has its end trimmed (`crates/codevetter-navigator/src/git.rs:85-89`). Its
  rows are those of the hunks exactly if there are none, or something is left of the last line printed and nothing that its row
  shows is lost (`TrimmedDiffReadsBackIff`). Blanks at the end of a last line and blank context lines at the end
  are lost (`TrailingBlankIsLost`, `BlankContextIsLost`).
- A diff of two files (`crates/codevetter-navigator/src/diff.rs:85-88`) reads back exactly if no line that
  introduces the second one looks like a line of a hunk (`SecondFileReadsBackIff`). The lines that name its two
  sides do (`SecondFileMakesRows`).
- The JSON scanner counts depth in an `i32`. Unless 2^31 braces are open somewhere its outputs are exactly the
  objects of a text. Where they are, a build without overflow checks can miss an object (`DeepObjectIsMissed`).
- Text around JSON objects is harmless exactly if the scanner outputs nothing for it and is outside of strings
  and objects behind it (`HarmlessIffQuiet`). A lone quotation mark is not (`LoneQuoteHides`).
- The language server's client marks a file as opened before it sends the opening
  (`crates/codevetter-navigator/src/semantic.rs:240-241`). Requests come behind the openings of their files
  exactly if none is about a file whose opening could not be sent (`AllIntroducedIff`). Dropping a server at its
  first failure (`crates/codevetter-navigator/src/semantic.rs:70-72`) is what keeps that so (`NavigateSide`,
  and without it `UnopenedIsAsked`).
- The recorder checks the size of a capture and then reads it
  (`skills/codevetter-evaluate/scripts/invoke.py:217` and `:220`). A retained receipt is within its bound
  exactly if the capture did not outgrow it in between; `GrowingCaptureIsRetained` is a run that completes with
  a receipt beyond it.

## Model

| member | source | states |
|---|---|---|
| ParallelAggregation.AggregateFile | benchmarks/runtime-challenges/temperature-aggregation/go/file.go:22-63 | For every content of every size, worker count and arrival order: bad worker counts are refused; if the offsets overflow every read fails, except at size 2^63 - 1; otherwise it succeeds exactly when one sequential pass does, and the table, in fresh cells, is the same exactly when the offsets fit. |
| ParallelAggregation.RunReaders | benchmarks/runtime-challenges/temperature-aggregation/go/file.go:44-62 | Under every schedule of readers and arrivals the merged table summarizes the rows of all ranges, and an error is one that some range really has. |
| ParallelAggregation.RangesReadWhatTheFileReads | benchmarks/runtime-challenges/temperature-aggregation/go/file.go:40-62 | All kept ranges are readable exactly when the whole file is, in whatever order the boundaries come; while offsets fit they hold its rows in order. |
| LargestFile.LargestFileIsMiscounted | benchmarks/runtime-challenges/temperature-aggregation/go/file.go:69-81 | A readable file of 2^63 - 1 bytes gives another table with three or more workers than with one pass. |
| LargestFile.SomeLargestFileIsMiscounted | benchmarks/runtime-challenges/temperature-aggregation/go/file.go:69-81 | There is such a file for every number of workers from 3 to 32. |
| ParallelAggregation.SomeReadableFileIsTooLarge | benchmarks/runtime-challenges/temperature-aggregation/go/file.go:69-74 | There is a file that one pass reads and whose offsets overflow with 32 workers. |
| Ranges.NewlineAlignedRanges | benchmarks/runtime-challenges/temperature-aggregation/go/file.go:65-90 | The loop over the boundary array yields the nonempty gaps between newline boundaries, or the error of a negative offset. |
| Ranges.RangesCoverAlignedLines | benchmarks/runtime-challenges/temperature-aggregation/go/file.go:83-89 | Every byte is in a kept range that begins and ends where a line does, also when boundaries go backwards. |
| Ranges.BoundaryIsNextLineStart | benchmarks/runtime-challenges/temperature-aggregation/go/file.go:75-80 | When no line fills the scanner's buffer, a boundary is the first line start behind its target, or the end of the file. |
| Ranges.BoundariesAscend | benchmarks/runtime-challenges/temperature-aggregation/go/file.go:69-81 | When no line fills the scanner's buffer, boundaries never go backwards, so ranges are disjoint. |
| Ranges.BoundariesAscendIff | benchmarks/runtime-challenges/temperature-aggregation/go/file.go:75-80 | Boundaries ascend exactly if none is aimed where the probe holds no newline while the next one lies before the end of the file. |
| Ranges.RangesOverlapIff | benchmarks/runtime-challenges/temperature-aggregation/go/file.go:75-88 | Some byte is in two kept ranges exactly if a boundary misses a newline in that way. |
| Ranges.LongLineMakesRangesOverlap | benchmarks/runtime-challenges/temperature-aggregation/go/file.go:76-77 | A file of 300000 bytes whose ranges overlap with 32 workers. |
| Ranges.SeeksSucceedIff | benchmarks/runtime-challenges/temperature-aggregation/go/file.go:70-74 | All aimed offsets can be read at exactly if they fit in int64 or the size is 2^63 - 1. |
| Ranges.ReadableFileIsPartitioned | benchmarks/runtime-challenges/temperature-aggregation/go/file.go:65-90 | The rows of the ranges of a readable file, in range order, are exactly the rows of the file. |
| Ranges.LongLineIsInOnePiece | benchmarks/runtime-challenges/temperature-aggregation/go/file.go:76-77 | A line too long for the scanner lies whole in some kept range, which is then unreadable. |
| Ranges.UnreadableFileHasUnreadablePiece | benchmarks/runtime-challenges/temperature-aggregation/go/file.go:65-90 | If one pass over the file fails, so does reading some kept range. |
| Ranges.OverflowMakesNegativeTarget | benchmarks/runtime-challenges/temperature-aggregation/go/file.go:70-74 | Once a product of size and worker number overflows, some aimed offset is negative and the read fails. |
| Aggregates.ArrivalOrderIrrelevant | benchmarks/runtime-challenges/temperature-aggregation/go/file.go:54-62 | Permuting the ranges whose rows are gathered leaves the summary unchanged, int64 wrap-around included. |
| Aggregates.SummaryOfAppend | benchmarks/runtime-challenges/temperature-aggregation/go/file.go:92-109 | The summary of two row lists one after the other is the merge of their summaries. |
| Aggregates.Aggregation.MergeFrom | benchmarks/runtime-challenges/temperature-aggregation/go/file.go:92-109 | In-place merging yields the merge of the two tables; the source keeps its values and shares no cell with the destination afterwards. |
| Aggregates.Aggregation.Observe | benchmarks/runtime-challenges/temperature-aggregation/go/parser.go:79-92 | A map that summarizes the rows so far summarizes one more after the update. |
| Measurements.AggregateReader | benchmarks/runtime-challenges/temperature-aggregation/go/parser.go:19-56 | Reading line by line succeeds exactly when every row is readable, and yields the count, sum, minimum and maximum of each station's readings; which bytes are which rows, `RowText.ReadsAsIff` says. |
| RowText.ReadsAsIff | benchmarks/runtime-challenges/temperature-aggregation/go/parser.go:21-52 | An input is read as some rows exactly if it is a file of lines that show them: a nonempty station without semicolon, a semicolon, an optional minus, one or two digits, a point and a digit, and a newline with or without a return before it, which only the last line may lack, each shorter than the buffer. |
| RowText.PrintedTemperature | benchmarks/runtime-challenges/temperature-aggregation/go/parser.go:119-129 | A printed temperature is the one text of its value: a minus exactly below zero, two digits before the point exactly from ten degrees on. |
| RowText.PrintedRowsReadBack | benchmarks/runtime-challenges/temperature-aggregation/go/parser.go:21-77 | Any rows printed as station, semicolon and temperature, with either line ending and none needed at the end, are read as these rows. |
| Measurements.RowsSplit | benchmarks/runtime-challenges/temperature-aggregation/go/parser.go:21-52 | Reading a file is reading it up to any line start and then from there: same rows, same success. |
| Measurements.ReadableLineIsShort | benchmarks/runtime-challenges/temperature-aggregation/go/parser.go:22 | In a readable file a newline lies within the scanner's buffer after every line start. |
| Report.MeanIsRoundedHalfUp | benchmarks/runtime-challenges/temperature-aggregation/go/parser.go:109-117 | While int64 holds the numerator, the quotient rounded toward zero and corrected is floor(sum / count + 1/2) and within half a unit of the true mean. |
| Report.MeanIsRightIff | benchmarks/runtime-challenges/temperature-aggregation/go/parser.go:109-117 | For every sum and every count below 2^62 the result is floor(sum / count + 1/2) exactly when twice the sum plus the count fits in int64. |
| Report.PrintedMeanIsRightIff | benchmarks/runtime-challenges/temperature-aggregation/go/parser.go:35-50 | The mean computed from the stored aggregate of any readings, whose sum may have wrapped, is floor(exact mean + 1/2) exactly when twice their exact sum plus their number fits in int64. |
| Report.PrintedMeanOfStationIsRightIff | benchmarks/runtime-challenges/temperature-aggregation/go/parser.go:101-117 | So for every station of every readable file that int64 can measure. |
| Report.SomeReadableFileHasWrongMean | benchmarks/runtime-challenges/temperature-aggregation/go/parser.go:109-117 | There is a readable file whose report shows a wrong mean. |
| Report.ReportedMeanOfStation | benchmarks/runtime-challenges/temperature-aggregation/go/parser.go:101-105 | For each station of every readable file that int64 can measure, the printed minimum and maximum are the extremes of its own readings; while twice their sum plus their number fits in int64, as it does below 2^63 / 1999 bytes, the mean is theirs, rounded, and lies between them. |
| Report.ParseFormatted | benchmarks/runtime-challenges/temperature-aggregation/go/parser.go:119-129 | Parsing a printed temperature gives it back. |
| Report.FormatOfficialResults | benchmarks/runtime-challenges/temperature-aggregation/go/parser.go:94-107 | Whatever order the map is walked in, the output is a report of the table: each station once, in byte order, with its entry. |
| Report.ReportIsDetermined | benchmarks/runtime-challenges/temperature-aggregation/go/parser.go:95-99 | A table has only one report, so equal tables print alike. |
| Report.ReadableIsPrintable | benchmarks/runtime-challenges/temperature-aggregation/go/parser.go:111-112 | The division never fails on the table of a readable file: no doubled count is or wraps to zero. |
| ReportText.ReportShows | benchmarks/runtime-challenges/temperature-aggregation/go/parser.go:94-107 | The bytes of the report of a readable file whose means fit: a brace, for each of its stations, once and in byte order, the station, an equals sign and its least reading, its mean rounded half up and its greatest reading between slashes, a comma and a blank between entries, and a brace. |
| Documents.New | crates/codevetter-navigator/src/session.rs:52-71 | A document is binary exactly when it has a zero byte or is not UTF-8; its offsets are exactly the line starts of its text, in order. |
| Documents.SlicesAreLines | crates/codevetter-navigator/src/session.rs:59-64 | The slices between consecutive offsets are the lines of the text and concatenate back to it. |
| Documents.PagesTileLines | crates/codevetter-navigator/src/session.rs:72-85 | Consecutive windows of up to 1000 lines tile the list of lines. |
| Documents.SearchLineIsDocumentLine | crates/codevetter-navigator/src/understanding.rs:95-115 | Line k of a search's numbering is what the document shows as line k, and both have equally many lines. |
| DiffOutput.FirstStrLine | crates/codevetter-navigator/src/understanding.rs:96 | A text is cut into lines at its newlines, and a line loses one return in front of its newline. |
| SourceIndex.Index.Start | crates/codevetter-navigator/src/session.rs:311-381 | The indexer handles a prefix of the entries in priority order, all of them unless cancelled; what readers can see is the progress after each entry, not done, and at last the same progress, done. |
| SourceIndex.Index.Handle | crates/codevetter-navigator/src/session.rs:339-375 | One entry is recorded, skipped, or skipped with an issue, as its kind, size and document say. |
| SourceIndex.OrderedByPriority | crates/codevetter-navigator/src/session.rs:334 | Entries are indexed by ascending priority number, those of one number in the order of the snapshot. |
| SourceIndex.EntryIsKeptIff | crates/codevetter-navigator/src/session.rs:339-375 | An entry is kept exactly if it is allowed, not deleted, of one of the two plain modes, at most 2 MiB by its size and by its text, readable, not binary, and fits in 32 MiB with what is there. |
| SourceIndex.IssueIsLatest | crates/codevetter-navigator/src/session.rs:370-374 | The issue shown is the error of the last plain file that could not be read, if there is one. |
| SourceIndex.ProgressInvariant | crates/codevetter-navigator/src/session.rs:333-376 | At every moment `bytes` is the total length of the indexed documents and at most 32 MiB, `files` is their number, `files + skipped` counts the entries handled, and each document is that of an eligible entry. |
| SourceIndex.NothingSkippedIff | crates/codevetter-navigator/src/session.rs:339-375 | Nothing is skipped exactly when every entry can be indexed and all fit in 32 MiB together; then every document is there, in order. |
| Search.Search | crates/codevetter-navigator/src/understanding.rs:81-131 | The answer is the first 300 hits, whether there is a 301st, and whether the index is done with nothing skipped, or says that the query is too long; what a hit shows, `SearchResults.AnswerListsLines` says. |
| SearchResults.AnswerListsLines | crates/codevetter-navigator/src/understanding.rs:94-125 | Each location of any answer is a line that holds the query: its document's path, its number counted from one, which the document shows under that number, its first 300 characters and the kind asked for. They are in the order of documents and lines; they are the first 300 of all such lines in a literal search and in a reference search whose scan is complete (`ScanIsCompleteIff`), and `truncated` tells whether there are more. |
| SearchResults.BuiltIsProper | crates/codevetter-navigator/src/session.rs:52-71 | Every document that is built has the text and the line starts that `AnswerListsLines` asks of an indexed one. |
| SearchResults.CompleteAnswerIsExact | crates/codevetter-navigator/src/understanding.rs:81-131 | In an answer of an uncancelled indexing that reports complete and not truncated these are all such lines of all files of the snapshot that can be read. |
| Search.HasReference | crates/codevetter-navigator/src/understanding.rs:97-104 | The scan over non-overlapping matches answers whether one of them stands alone as an identifier. |
| Search.NextMatchIsFirst | crates/codevetter-navigator/src/understanding.rs:97-107 | A search for the next match finds the first occurrence from a position on, or there is none. |
| Search.ScanIsCompleteIff | crates/codevetter-navigator/src/understanding.rs:97-104 | The scan finds a whole occurrence in every text that has one, exactly for the queries whose self-overlaps all follow an identifier character. |
| Search.IdentifierScanIsComplete | crates/codevetter-navigator/src/understanding.rs:97-104 | For an identifier the scan marks exactly the lines that hold it as a whole. |
| Search.SkippedOccurrence | crates/codevetter-navigator/src/understanding.rs:97-104 | For every other query, a text whose whole occurrence the scan misses. |
| Search.TwoDotsAreMissed | crates/codevetter-navigator/src/understanding.rs:97-104 | Two dots are such a query unless dots are alphanumeric. |
| Search.CompleteSearchCoversSnapshot | crates/codevetter-navigator/src/understanding.rs:94-125 | With nothing skipped, the hits in the index are exactly those of the matching lines of all files of the snapshot. |
| Search.CompleteSearchIsExact | crates/codevetter-navigator/src/understanding.rs:81-131 | At whatever moment of an uncancelled indexing a search is made: if it reports complete and not truncated, its locations are exactly the lines of the snapshot's files that hold the query, as a whole identifier in a reference search. |
| Search.CompleteSearchIsRightIff | crates/codevetter-navigator/src/session.rs:335-379 | Also after a cancellation, an answer that reports complete and not truncated lists all hits of the snapshot exactly if no entry that was not reached holds a matching line. |
| Search.AllAnswersRightIff | crates/codevetter-navigator/src/session.rs:335-379 | It does so for every query exactly if the readable entries that were not reached hold only blank lines. |
| Search.CancelledSearchCanMiss | crates/codevetter-navigator/src/session.rs:335-379 | An indexer cancelled before its one file, and a search that calls its empty answer complete although the file holds the query. |
| Fuzzy.Fuzzy | crates/codevetter-navigator/src/understanding.rs:179-209 | The loops and the sort yield the first 100 of the ranked matches; which these are, `RankedExactly` and `BestAreFirst` say. |
| Fuzzy.GreedyIsComplete | crates/codevetter-navigator/src/understanding.rs:188-199 | Greedy matching uses up the query exactly when it is a subsequence of the text. |
| Fuzzy.ScoredIff | crates/codevetter-navigator/src/understanding.rs:184-204 | A path is scored exactly if the query is a subsequence, with one score: for each character, matched at its first occurrence behind the one before, twelve if that one is the byte in front of it and one if not; a hundred more if the part behind the last slash starts with the query; less an eighth of the path's bytes. |
| Fuzzy.RankedExactly | crates/codevetter-navigator/src/understanding.rs:182-206 | Each path is ranked as often as it is given, with its score, exactly if the lowercased query is a subsequence of it in lower case. |
| Fuzzy.BestAreFirst | crates/codevetter-navigator/src/understanding.rs:207-208 | At most 100 paths are listed, each no more often than it is given, higher scores first and equal ones byte by byte; what is left out ranks behind all of a full list. |
| Fuzzy.BestIgnoresOrder | crates/codevetter-navigator/src/understanding.rs:179-209 | The result does not depend on the order of the paths. |
| SourceCache.SourceSession.Document | crates/codevetter-navigator/src/session.rs:208-309 | A call answers its check's error, the cached document, or what it reads, and then stores that, evicting everything when it would not fit. What it reads off the working tree is a document exactly if `Serves` says so: the path is allowed and in the snapshot, neither a link nor a submodule, its old path allowed on the base side, the blob the entry's on the head side and on the base side what the base revision, or the head if there is none, has at the old path, if there is one, and that blob exists within 64 MiB. |
| SourceCache.EveryRunIsTransparent | crates/codevetter-navigator/src/session.rs:237-308 | In every interleaving of calls, whatever was evicted, each call that does not read the working tree answers what an uncached read would. |
| SourceCache.UncachedServes | crates/codevetter-navigator/src/session.rs:208-299 | An uncached read gives a document exactly if it is the one `Serves` describes: its blob, its text, its line starts and whether it is binary. |
| SourceCache.EveryAnswerServes | crates/codevetter-navigator/src/session.rs:208-309 | So in every interleaving every finished call that does not read the working tree answers with exactly the file that was asked for. |
| Snapshots.AllowedIff | crates/codevetter-navigator/src/git.rs:109-131 | A path may be read exactly if it holds neither NUL nor backslash and no part between slashes is empty, a dot, two dots, `.git` or, in any case of its letters, one of the protected names. |
| SourceCache.EveryRunIsBoundedIff | crates/codevetter-navigator/src/session.rs:299-307 | At every moment of an interleaving the cached text is within 96 MiB exactly if no document stored on the way is longer than that by itself. |
| SourceCache.EveryRunIsBounded | crates/codevetter-navigator/src/session.rs:259-307 | So it is if no file grows between its size check and its read. |
| SourceCache.GrownFileExceedsBound | crates/codevetter-navigator/src/session.rs:259-265 | A file that is longer than 96 MiB when read, whatever its size check saw, is cached whole. |
| SourceCache.PinHoldsIff | crates/codevetter-navigator/src/session.rs:239-307 | From any moment of any interleaving at which a document is cached it stays the cached one exactly if no store puts another document under its key or finds no room for one under another key. |
| SourceCache.OverlappingReadsRepin | crates/codevetter-navigator/src/session.rs:239-307 | Two overlapping first reads of a file that changes: without any overflow the second document replaces the first, and each caller gets its own. |
| SourceCache.OverflowUnpins | crates/codevetter-navigator/src/session.rs:304-306 | A file read, another one without room beside it, and the first again: it is answered with its new bytes. |
| SourceCache.PinAndBoundCanFail | crates/codevetter-navigator/src/session.rs:259-307 | Concrete files and runs for each: a pin replaced, a pin evicted, a cache beyond 96 MiB. |
| Changes.StreamReadsBack | crates/codevetter-navigator/src/session.rs:486-501 | Decoding the NUL-ended name-status stream of a change list gives the list, two tokens a change and three for renames and copies. |
| Changes.DecodedIs | crates/codevetter-navigator/src/session.rs:486-501 | Any tokens are changes and a rest: one more token is ignored, and a rename or copy without its new path is the only error. |
| Changes.ApplyChanges | crates/codevetter-navigator/src/session.rs:471-514 | The loop over the tokens yields the merged list, or the error of a rename without its new path after the changes before it. |
| Changes.MergedHolds | crates/codevetter-navigator/src/session.rs:502-512 | The merged list is in the byte order of its paths, each there once; an entry of the head tree has the first letter and the old path of its change, and a path that the head lacks is there exactly when it was deleted from the base tree, with the base entry and the letter D. |
| JsonObjects.ScanJsonObjects | crates/codevetter-core/src/agent/brain.rs:58-100 | With its i32 depth: on any text in which 2^31 braces are nowhere open the one-pass scanner outputs ordered, disjoint, string-aware balanced slices, exactly those that unbounded depth would give, and none fails the UTF-8 check. |
| JsonObjects.ShortIsShallow | crates/codevetter-core/src/agent/brain.rs:61 | So on every text of less than 2^31 bytes. |
| JsonObjects.ScanByte | crates/codevetter-core/src/agent/brain.rs:65-98 | One byte moves depth, string and escape state as the scanner does, starts an object at its first brace and outputs it at its last. |
| JsonObjects.SliceIsText | crates/codevetter-core/src/agent/brain.rs:89-92 | A slice from an opening to a closing brace of a text is UTF-8. |
| JsonText.AnswerYieldsItsObjects | crates/codevetter-core/src/agent/brain.rs:58-100 | For JSON objects of any nesting (sections 2, 4, 5 and 7 of RFC 8259) among texts for which the scanner outputs nothing and behind which it is outside again, it outputs exactly the objects' texts, in order. |
| JsonText.ShallowAnswerYieldsItsObjects | crates/codevetter-core/src/agent/brain.rs:58-100 | So with an i32 depth, unless 2^31 braces are open somewhere. |
| JsonText.ProseIsQuiet | crates/codevetter-core/src/agent/brain.rs:65-98 | Prose without quotes and opening braces is such a text. |
| JsonText.HarmlessIffQuiet | crates/codevetter-core/src/agent/brain.rs:65-98 | Every object is found behind a text, and nothing else, exactly if the text is one. |
| JsonText.LoneQuoteHides | crates/codevetter-core/src/agent/brain.rs:70-79 | A lone quote is none: the object behind it is not found. |
| JsonText.DeepObjectIsMissed | crates/codevetter-core/src/agent/brain.rs:61-97 | 2^31 nested braces are one object, and the scanner outputs nothing. |
| JsonText.ValueReturns | crates/codevetter-core/src/agent/brain.rs:65-98 | Any JSON value brings the scanner back to the depth it began at without dropping below. |
| JsonText.ExtractAction | crates/codevetter-core/src/agent/brain.rs:31-55 | The action is that of the last object that is one; the two errors say that there is no object, or none that is an action. |
| UnifiedDiff.Parse | crates/codevetter-navigator/src/diff.rs:112-170 | The rows are an exact prefix of all rows, cut at 50000; `truncated` tells exactly whether a line came after the 50000th row. |
| UnifiedDiff.KindsFit | crates/codevetter-navigator/src/diff.rs:121-166 | In any text a row is added exactly if it has a new number only, deleted with an old number only, unchanged with both and a header with none. |
| UnifiedDiff.TruncatedMisleadsIff | crates/codevetter-navigator/src/diff.rs:117-120 | `truncated` differs from there being more than 50000 rows exactly if there are 50000 and the last line makes none. |
| UnifiedDiff.WholeDiffCalledTruncated | crates/codevetter-navigator/src/diff.rs:117-120 | A diff of 50000 rows and a final note that is called truncated although no row is missing. |
| UnifiedDiff.PrintedDiffReadsBack | crates/codevetter-navigator/src/diff.rs:117-168 | A diff printed from any list of hunks reads back as the rows of those hunks, whatever the lines look like. |
| UnifiedDiff.RowsFollowFiles | crates/codevetter-navigator/src/diff.rs:141-166 | Every row of hunks that relate two files shows, under each of its numbers, the line of that file with that number. |
| UnifiedDiff.NumbersHaveNoGap | crates/codevetter-navigator/src/diff.rs:141-160 | Within a hunk the numbers on each side run over that side's lines without a gap. |
| DiffOutput.TrimmedDiffReadsBackIff | crates/codevetter-navigator/src/diff.rs:89-102 | The trimmed output of Git for any hunks reads back as their rows exactly if there are none, or something is left of the last printed line and nothing that its row shows is lost. |
| DiffOutput.TrailingBlankIsLost | crates/codevetter-navigator/src/git.rs:85-89 | A new last line with a blank at its end is shown without it. |
| DiffOutput.BlankContextIsLost | crates/codevetter-navigator/src/git.rs:85-89 | A blank context line at the end has no row. |
| DiffOutput.SecondFileReadsBackIff | crates/codevetter-navigator/src/diff.rs:85-102 | The output for two files reads back as the rows of both exactly if no line that introduces the second begins like a line of a hunk. |
| DiffOutput.SecondFileMakesRows | crates/codevetter-navigator/src/diff.rs:140-166 | The lines that name the sides of the second file become rows. |
| LspFrames.Pipe.ReadFrame | crates/codevetter-navigator/src/semantic.rs:326-352 | Reading consumes one frame and gives its payload, or reports the header's or the body's error. |
| LspFrames.ReadHeaders | crates/codevetter-navigator/src/semantic.rs:327-346 | The loop over header lines finds the size they announce and takes at most 8192 bytes of header. |
| LspFrames.HeadersReadIff | crates/codevetter-navigator/src/semantic.rs:327-346 | Any header lines in any order, ended by a blank line, are read as the size they announce, leaving what follows, exactly if they take at most 8192 bytes. |
| LspFrames.AnnouncedIsLast | crates/codevetter-navigator/src/semantic.rs:342-344 | The size announced is that of the last Content-Length line. |
| LspFrames.FrameOfLines | crates/codevetter-navigator/src/semantic.rs:326-352 | Whatever header lines lead to: the frame, a bad size without an announced size of at most 16 MiB, a truncated frame when fewer bytes follow, an error when the header is too long. |
| LspFrames.AnyFrameReadsBackIff | crates/codevetter-navigator/src/semantic.rs:326-352 | A frame of any writer gives its payload and leaves what follows exactly if its header takes at most 8192 bytes and announces the payload's size, within 16 MiB. |
| LspFrames.Pipe.WriteFrame | crates/codevetter-navigator/src/semantic.rs:148-158 | Writing appends the frame of the payload. |
| LspFrames.FrameIs | crates/codevetter-navigator/src/semantic.rs:148-158 | A frame is `Content-Length: `, the payload's length in decimal, two line ends and the payload. |
| LspFrames.FrameReadsBack | crates/codevetter-navigator/src/semantic.rs:326-352 | Reading a written frame of up to 16 MiB gives its payload and leaves exactly what follows it. |
| LspFrames.FramesReadBack | crates/codevetter-navigator/src/semantic.rs:148-169 | Frames written back to back are read as the same payloads in order, with nothing left. |
| LspFrames.StrictPrefixIsRejected | crates/codevetter-navigator/src/semantic.rs:335-351 | A frame cut short anywhere is rejected. |
| SemanticCalls.SemanticServer.Call | crates/codevetter-navigator/src/semantic.rs:199-223 | A call sends its request under the next identifier, consumes messages up to its answer, a failure or the deadline, and refuses each request of the server's own on the way. |
| SemanticCalls.CallSucceedsIff | crates/codevetter-navigator/src/semantic.rs:204-222 | A call succeeds exactly when its answer arrives after nothing but other messages, with each of the server's requests refused once, in order; nothing behind the answer is consumed. |
| SemanticCalls.CallEnds | crates/codevetter-navigator/src/semantic.rs:204-223 | What ends a call behind other messages: an error answer makes it unanswerable, silence and the end of the stream a timeout, a failed read a bad frame, and a request that cannot be refused a lack of input. |
| SemanticCalls.RefusalsAreDue | crates/codevetter-navigator/src/semantic.rs:208-216 | A refusal goes, in order, to each message that has both an identifier and a verb. |
| SemanticCalls.EveryCallGetsItsAnswer | crates/codevetter-navigator/src/semantic.rs:199-223 | In any conversation each call returns its own answer, whatever notifications, requests and other answers come between, while the writer keeps up. |
| SemanticCalls.KeysAreUnambiguous | crates/codevetter-navigator/src/semantic.rs:226-229 | Different questions have different cache keys, although paths may contain the separator. |
| SemanticCalls.SemanticServer.Navigate | crates/codevetter-navigator/src/semantic.rs:225-287 | The answer to a question is the one the server gave to that question, now or when it was cached; a new one is cached, at most 2048 are. What is sent is exactly the opening of a file not opened before, the request for its definition or its references under the next identifier, and refusals. |
| SemanticCalls.AllIntroducedIff | crates/codevetter-navigator/src/semantic.rs:240-243 | All requests come behind the openings of their files exactly if none is about a file whose opening could not be sent. |
| SemanticCalls.NavigateSide | crates/codevetter-navigator/src/semantic.rs:65-73 | A server that is kept after a question has opened every file before asking about it. |
| SemanticCalls.UnopenedIsAsked | crates/codevetter-navigator/src/semantic.rs:240-243 | A server kept although an opening could not be sent is asked about a file it was never shown. |
| JsonPointer.ReplacementsUnescape | skills/codevetter-evaluate/scripts/outcomes.py:38-40 | On a validated component the two whole-string replacements equal one pass over its escapes. |
| JsonPointer.EscapeIsValid | skills/codevetter-evaluate/scripts/outcomes.py:38-40 | Escaping a key gives a valid component without slashes that unescapes to the key. |
| JsonPointer.ResolvePointer | skills/codevetter-evaluate/scripts/outcomes.py:34-51 | The loop over the components resolves as the recursive definition does, with each of its errors. |
| JsonPointer.ResolvesIffPathLeads | skills/codevetter-evaluate/scripts/outcomes.py:34-51 | A pointer resolves to a node exactly when it has at most 512 characters and some nonempty path to that node is written as it (sections 3 and 4 of RFC 6901); as evidence only if the node is not null and not an empty text, array or object. |
| JsonPointer.RefusedAs | skills/codevetter-evaluate/scripts/outcomes.py:34-51 | A pointer that does not begin with a slash or is too long is refused as unbounded, and as evidence one to an empty node as empty, and nothing else is. |
| JsonPointer.PointersAreUnambiguous | skills/codevetter-evaluate/scripts/outcomes.py:37-48 | Different paths through a value are written as different pointers. |
| Supervision.Watch | skills/codevetter-evaluate/scripts/invoke.py:200-214 | The polling loop ends in an OS error exactly if one strikes at a poll it makes; otherwise with a stop reason exactly if that is the reason of some poll before which no poll has any, and with all signals that arrived by the last poll made. |
| Supervision.PolledIs | skills/codevetter-evaluate/scripts/invoke.py:200-214 | There is no stop reason exactly if no poll finds a signal, a timeout or too much output. |
| Supervision.StopsShown | skills/codevetter-evaluate/scripts/invoke.py:200-214 | The stop reasons said of the polls: the first poll with a signal, a timeout or more than 2 MiB of output decides, a signal before a timeout before the size. |
| Supervision.FaultShown | skills/codevetter-evaluate/scripts/invoke.py:196-214 | Where an OS error at a poll counts: in looking at the size while time is left and no signal has arrived, in stopping the child at the first poll with a reason, and in killing it at the first poll more than ten seconds after. |
| Supervision.Supervise | skills/codevetter-evaluate/scripts/invoke.py:189-273 | For every script of polls, signals, sizes, exit codes and OS errors: never `running`; code 0 exactly when `completed`; `completed` exactly when no OS error strikes, no poll has a reason to stop, the child exits with 0 and its capture is measured within the bound and valid. Otherwise, short of an OS error and with a capture measured within the bound, the state is timed out, output limit or interrupted exactly if the first poll with a signal, elapsed time or output over the limit is of that kind; the codes are 124, 2 and 128 plus the first signal, 127 for an OS error. The digest is that of the bytes retained, and these are within the bound exactly if the capture did not outgrow it before it was read. |
| Supervision.GrowingCaptureIsRetained | skills/codevetter-evaluate/scripts/invoke.py:217-229 | For any valid output beyond the bound there is a run that completes and retains it. |
| Ledger.Directory.RecordAssessment | skills/codevetter-evaluate/scripts/outcomes.py:54-100 | An assessment is appended under its own identifier, or the first refusal that applies is given and nothing changes; what is accepted and what is written, `AcceptedIff` says. |
| Ledger.AcceptedIff | skills/codevetter-evaluate/scripts/outcomes.py:54-100 | An assessment is accepted exactly if its stripped summary has 1 to 2000 bytes, its at most eight pointers differ, its invocation is over, every pointer leads to something in a receipt that still has the recorded digest, and, if it says "helped", there are pointers and the run completed or failed. What is written is the outcome asked for, the stripped summary and each pointer with the recorded digest. |
| Ledger.RefusedBecause | skills/codevetter-evaluate/scripts/outcomes.py:54-87 | Each refusal says what it means: which of these conditions failed. |
| Ledger.StrippedIs | skills/codevetter-evaluate/scripts/outcomes.py:57 | Stripping takes white space, and all of it, off both ends. |
| Ledger.InspectedIff | skills/codevetter-evaluate/scripts/telemetry.py:96-127 | Inspection succeeds exactly for a recorded invocation whose receipt, if one is recorded, is intact, and, for a field, a pointer that leads to a node of it; it shows that node, or the record, the receipt and all assessments. |
| Ledger.FinishedRunIsAssessed | skills/codevetter-evaluate/scripts/outcomes.py:62-100 | In any reachable ledger a new invocation can begin, with a parent of its repository and task or without one, finish with its receipt and be given any acceptable assessment, which is then there, and everything it cites can be inspected. |
| Ledger.EveryLedgerIsJustified | skills/codevetter-evaluate/scripts/outcomes.py:65-87 | In every reachable ledger each assessment is of a finished invocation, its evidence has the digest recorded for that invocation and resolves to nonempty values in bytes with that digest; "helped" has evidence, from a completed or failed run. |
| Ledger.CitedEvidenceCanBeInspected | skills/codevetter-evaluate/scripts/telemetry.py:96-124 | Cited evidence can be inspected exactly while the receipt on disk has the recorded digest, and then shows a nonempty value. |
| Ledger.HistoryIsRetained | skills/codevetter-evaluate/scripts/outcomes.py:88-100 | Along every run a terminal state never changes and no assessment is altered or removed. |
| Ledger.AncestorsAreOlder | skills/codevetter-evaluate/scripts/telemetry.py:84-93 | Parent chains stay within one repository and task, lead to older invocations and never come round again. |
| StatusCount.CountEntries | skills/codevetter-evaluate/scripts/telemetry.py:36-42 | The counting loop counts tokens, two for a moved entry, up to the first empty one. |
| StatusCount.EveryEntryIsCounted | skills/codevetter-evaluate/scripts/telemetry.py:34-42 | What git prints for any list of entries is counted as that many. |
| AgentRun.RunWithBrain | crates/codevetter-core/src/agent/runner.rs:79-208 | For every brain, browser and budget the loop produces a run: steps that follow one another, ended by the brain, the budget or a failed snapshot, with flags, address and title to match; what a step records, `StepsRecordAnswers` says. |
| AgentRun.StepsRecordAnswers | crates/codevetter-core/src/agent/runner.rs:87-180 | Step i has index i and the page of its own snapshot and records the brain's answer to exactly the history of the steps before. An answer that is neither done nor a give-up is carried out by the browser, whose error is the step's; done and give-up have none. A failure of the brain is a give-up that says so, the second one in a row with other words. The history tells every step before, what was done and, exactly if there was one, the error. |
| AgentRun.HistoryTells | crates/codevetter-core/src/agent/runner.rs:221-236 | Entry k of the history says in the words of its kind what step k did, with the selector, text, key, distance, address or reason, and closes with the error exactly if there was one. |
| AgentRun.StopsAtFirst | crates/codevetter-core/src/agent/runner.rs:112-191 | A run stops at the first done, own give-up or second consecutive brain failure, and otherwise only when the budget is spent or a snapshot fails. |
| AgentRun.FlagsSayHowItEnded | crates/codevetter-core/src/agent/runner.rs:117-191 | Adjacent failures are the last two steps; the flags exclude each other; neither is set exactly when the budget ran out first; a single failure does not set `gave_up`. |
| AgentRun.BudgetOnlyExtends | crates/codevetter-core/src/agent/runner.rs:79 | A larger budget only extends runs that ran out of steps and changes no other; with equal budgets a world has one run. |

## Left out

- ParallelAggregation.AggregateFile: OS errors on opening and reading are not modelled.
- Measurements.AggregateReader: reads a whole content at once; how the scanner refills and grows its buffer is not modelled, only when it gives up.
- Report.PrintedMeanIsRightIff: leaves out 2^62 readings and more, whose doubled number wraps; no file that int64 can measure holds so many.
- Documents.New: `Document::lines` is modelled on the bytes of the text; both are tied together by `SearchLineIsDocumentLine`.
- SourceIndex.Index.Start: what cannot be read is told by one function for all of a run; symbols are not modelled, nor is the initial fetch for remote sessions; priorities are any function.
- Search.Search: the lock is held for all of it, so it runs on one observable state of the index; `is_alphanumeric` is any predicate.
- Fuzzy.Fuzzy: lower case is any function of the text.
- SourceCache.EveryRunIsTransparent: says nothing about working-tree reads of local sessions, whose bytes may change between calls; sides other than `head` and `base` and poisoned locks are not modelled.
- Changes.ApplyChanges: tokens are taken as characters; reading the base tree cannot fail.
- JsonObjects.ScanJsonObjects: the depth wraps around as in a build without overflow checks; one with them stops there.
- JsonText.ExtractAction: what deserializes as an action is any partial function; the previews in error messages are left out.
- DiffOutput.TrimmedDiffReadsBackIff: one file; trimming after a second file is not combined with it.
- UnifiedDiff.PrintedDiffReadsBack: hunks whose numbers would leave a 64-bit integer are excluded; there the counters wrap.
- LspFrames.Pipe.ReadFrame: gives the payload's bytes; parsing them as JSON is not modelled.
- SemanticCalls.SemanticServer.Call: the writer's channel is a number of messages it still takes, and time is an event in the stream; starting and dropping the server is not modelled.
- SemanticCalls.SemanticServer.Navigate: keeps the server's result; turning it into at most 500 locations is not modelled.
- JsonPointer.PointersAreUnambiguous: holds through one value; `/0` means a key in an object and an index in an array.
- Supervision.Supervise: a missing executable, which is reported like a failed launch, and the classification of failures are not modelled; an OS error that escapes the clean-up is not a return.
- Ledger.Directory.RecordAssessment: reasons, timestamps, schema versions and the 16 KiB bound on metadata read back are not modelled; identifiers are fresh numbers instead of UUIDs, and symbolic links do not occur.
- Ledger.HistoryIsRetained: receipts may be rewritten from outside, metadata and assessment files may not.
- StatusCount.CountEntries: tokens are taken as characters.
- AgentRun.RunWithBrain: screenshots, timings and starting the development server are not modelled; quoting a typed text is any function.
- Listing invocations and their assessments (`list_invocations`, `assessment_history`): filtering, sorting and slicing records would add easy members only.
- Building the tree from `ls-tree` and merging uncommitted local changes: the same shape as the change stream, without a new property.
- Tree-sitter symbols, the TypeScript server's answers, the sandbox and all processes and network access.
