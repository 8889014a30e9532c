# words_counting in Dafny

A model of the counting core of `words_counting`, a Rust tool that walks a
directory tree and counts words. It is meant to read plain text files and
the `.txt` entries of archives; as written it reads only the archive
entries, because its plain-text test can never succeed (the `src/lib.rs:50`
row under "## Findings"). The text is decoded as UTF-8, case-folded and split
into Unicode words. The result is written as two reports: one sorted by
descending count, one sorted by word.

The model has one module per part of the program:

| module | file | models |
|---|---|---|
| `Utf8` | `utf8.dfy` | `String::from_utf8`: well-formed UTF-8 decoding, with an encoder as its partner |
| `WordCount` | `word_count.dfy` | the frequency table and `count_words_in_file_unicode`, as a `Counter` class whose method updates its table in a loop |
| `Files` | `files.dfy` | `MyFile`, `MAX_FILESIZE`, `ARCH_EXT`, and the work queue as a `WorkQueue` class |
| `Scanner` | `scanner.dfy` | `Path::extension` and the classification loop of `read_files_recur` |
| `Archives` | `archives.dfy` | `ArchiveManager` as a class over an abstract libarchive header stream |
| `Worker` | `worker.dfy` | `one_thread_count` and `count_words`, with the workers run one after another |
| `Report` | `report.dfy` | `dump_res`: building the vector, two in-place sorts, and the line format |

Each imperative routine is a method proved against a specification function:
- `Counter.CountWordsInFileUnicode` against `CountFile`
- `ReadFilesRecur` against `Records`
- `ArchiveManager.PrepareNext` against `NextStop` and `PrepareResult`
- `OneThreadCount` and `CountArchive` against `ProcessAll`, `ArchiveYield` and `CountFiles`
- `SortBy`, `WriteLines` and `DumpRes` against `SortedBy`, `Lines` and `IsReport`

The properties the program promises are then proved about those functions:
- per-word counts
- no key ever removed
- order independence
- exactly one sentinel
- the report format and the reports' agreement

Some parts of the program become parameters:
- **The plain-text suffix.** The scanner takes it as an argument: `PLAIN_EXT_AS_WRITTEN` (".txt") is what the code passes, and `PLAIN_EXT` ("txt") is the suffix evidently intended (the `src/lib.rs:50` row under "## Findings").
- **Case folding and word segmentation.** The two functions of a `Tokenizer`.
- **libarchive.** An `Opener` maps archive bytes to a `HeaderStream`: the (status, entry) results `archive_read_next_header` returns in order, and whether `archive_read_free` succeeds.
- **The directory walk.** A sequence of `FileInfo`, one per walked entry, each with its name, size and the outcome of reading it.

## Model

| member | source | states |
|---|---|---|
| Utf8.Decode | src/lib.rs:72-75 | `String::from_utf8`: `None` for malformed input; accepted input never yields more characters than it has bytes |
| Utf8.DecodeEncode | src/lib.rs:72-75 | every string survives encoding then decoding unchanged |
| Utf8.EncodeDecode | src/lib.rs:72-75 | decoding is canonical: accepted bytes are exactly the encoding of the decoded text |
| Utf8.AsciiDecodes | src/lib.rs:72-75 | bytes below 0x80 are always accepted and decode to the same code points, one per byte |
| Utf8.InvalidLeadRejected | src/lib.rs:72-75 | input starting with a byte of 0xF5 or more is rejected |
| WordCount.Counter.constructor | src/lib.rs:139 | the shared counter starts empty |
| WordCount.Counter.CountWordsInFileUnicode | src/lib.rs:70-86 | the new table is `CountFile` of the old one: unchanged for non-UTF-8 content; otherwise every folded word is bumped, in token order |
| WordCount.InvalidUtf8Ignored | src/lib.rs:72-75 | content that is not UTF-8 leaves the table exactly as it was and contributes no words |
| WordCount.AddWordsCount | src/lib.rs:78-84 | after the token loop, each word's count has risen by exactly its number of occurrences |
| WordCount.AddWordsKeys | src/lib.rs:78-84 | the token loop removes no key and adds exactly the words it sees |
| WordCount.AddWordsFresh | src/lib.rs:79-83 | a previously absent word ends at exactly its number of occurrences; words not in the tokens keep their counts |
| WordCount.AddWordsPositive | src/lib.rs:80-82 | counting never creates an entry below 1 |
| WordCount.CountFileSpec | src/lib.rs:70-86 | per key, counting one file adds that file's occurrences; no key is removed |
| WordCount.CountFilesSpec | src/lib.rs:108-118 | per key, counting a sequence of entry contents adds all their occurrences |
| WordCount.CountFileCommutes | src/lib.rs:79-83 | file A then file B gives the same table as B then A, and per key the counts of A plus those of B |
| Files.WorkQueue.constructor | src/lib.rs:138 | `IndexQueue::new()`: the queue starts empty and no sentinel has been taken |
| Files.WorkQueue.Push | src/lib.rs:55 | a pushed record is appended at the back |
| Files.WorkQueue.Pop | src/lib.rs:97-100 | the oldest record is taken, or `None` when the queue is empty; popping the sentinel is counted |
| Files.FirstPoisoned | src/lib.rs:127-130 | the position of the first sentinel in a queue, with no sentinel before it |
| Scanner.Extension | src/lib.rs:46-49 | `Path::extension`: `None` exactly for ".." and names with no '.' after the first character; otherwise the dot-free text after the last '.' |
| Scanner.Classify | src/lib.rs:46-63 | plain text exactly when the file is regular, its extension equals the suffix and its size is within `MAX_FILESIZE`; archive exactly when the extension is another one listed in `ARCH_EXT`, whatever the size |
| Scanner.RecordOf | src/lib.rs:50-63 | at most one record per walked entry: `Regular` or `Archive` with its path and bytes, and nothing when it is ignored or cannot be read |
| Scanner.ScanOne | src/lib.rs:46-63 | one walked entry adds exactly its `RecordOf` at the back of the queue, and no sentinel |
| Scanner.ReadFilesRecur | src/lib.rs:40-68 | the queue gains the records of the walk in walk order, then one sentinel |
| Scanner.RecordsFromFiles | src/lib.rs:42-64 | the scan pushes no sentinel for a file, at most one record per walked entry, and every record comes from a walked entry |
| Scanner.ScanPushesOneSentinel | src/lib.rs:65 | the scanned queue holds exactly one sentinel, after every record |
| Scanner.DotTxtNeverPlain | src/lib.rs:50 | as written, comparing the extension with ".txt" never classifies any file as plain text |
| Scanner.TxtSuffixIsPlain | src/lib.rs:49-53 | with the suffix "txt", a file is plain text exactly when it is regular, its name ends in ".txt" after a non-empty stem, and it is within the size limit |
| Scanner.TarGzNeverExtension | src/lib.rs:22 | "tar.gz" is never an extension; a "*.tar.gz" file is classified by "gz" |
| Scanner.PlainSizeBoundary | src/lib.rs:51-53 | a plain file of exactly `MAX_FILESIZE` bytes is kept; one byte more and it is dropped |
| Scanner.ArchiveIgnoresSize | src/lib.rs:58-62 | an archive is kept whatever its size |
| Archives.ArchiveManager.constructor | src/archive_manager.rs:19-25 | a new manager has a null archive, a null entry and status 0 |
| Archives.ArchiveManager.SetArchive | src/archive_manager.rs:26-42 | `Ok` and the archive opened at its first header exactly when opening succeeds; `Err` when opening fails or the bytes are empty |
| Archives.OpenAsWritten | src/archive_manager.rs:32-36 | as written, `set_archive` panics exactly on empty archive bytes |
| Archives.ArchiveManager.EntryName | src/archive_manager.rs:44-56 | `Ok(name of the current entry)` exactly when there is an entry and the last status is OK or WARN, `Err` otherwise |
| Archives.ArchiveManager.ReadNextHeader | src/archive_manager.rs:60 | the cursor moves one header on; the status and entry become that header's |
| Archives.ArchiveManager.SkipCurrent | src/archive_manager.rs:62-64 | the skip-loop guard holds exactly for an OK header that is too large or not named "*.txt" |
| Archives.ArchiveManager.ReadFree | src/archive_manager.rs:71 | the handle is freed; the result is whether freeing succeeded |
| Archives.NextStop | src/archive_manager.rs:60-68 | the first header from the cursor on that the skip loop does not pass over, with every header before it skipped |
| Archives.NextStopIs | src/archive_manager.rs:62-68 | a run of skipped headers ended by one that is not skipped is exactly what `NextStop` finds |
| Archives.PrepareResult | src/archive_manager.rs:70-84 | `Ok(false)` exactly at EOF with a successful close; `Ok(true)` exactly for OK or WARN; the close error exactly when the close fails otherwise; the read error exactly for any other status with a successful close |
| Archives.ArchiveManager.PrepareNext | src/archive_manager.rs:58-86 | stops at `NextStop`, returns `PrepareResult` of that header's status, frees the archive unless an entry is current, and always consumes at least one header; after `Ok(true)` with OK, the entry is within `MAX_FILESIZE` and named "*.txt" |
| Archives.EntrySizeBoundary | src/archive_manager.rs:63 | an OK ".txt" entry of exactly `MAX_FILESIZE` bytes is kept; one byte more and it is skipped |
| Archives.WarnHeaderNotFiltered | src/archive_manager.rs:62-78 | a WARN header anywhere in the stream is not filtered: the skip loop stops at it and its buffer is yielded whatever its size and name |
| Archives.ReadBuffer | src/archive_manager.rs:95-102 | the returned buffer has exactly the entry's declared size and starts with the entry's data |
| Archives.ReadBufferAsWritten | src/archive_manager.rs:95-102 | as written, reading an entry panics exactly when its declared size is 0 |
| Archives.EmptyTxtEntryPanics | src/archive_manager.rs:95-102 | an empty "*.txt" entry passes the filter and then makes `get_next` panic as written |
| Archives.ArchiveManager.GetNext | src/archive_manager.rs:88-107 | `Err("Archive EOF")` when the last status is neither OK nor WARN; otherwise a buffer of the entry's declared size holding its data, with the entry cleared |
| Archives.ArchiveYield | src/lib.rs:108-124 | the archive loop yields at most one buffer per remaining header, and none past the end |
| Archives.ArchiveYieldFromHeaders | src/lib.rs:108-124 | every buffer the archive loop counts is read from a header at or after the cursor that has a current entry and that the skip loop keeps |
| Archives.ArchiveYieldKeeps | src/lib.rs:108-118 | conversely, every OK or WARN header the skip loop keeps is counted when no header between the cursor and it ends the loop with EOF or an error status |
| Archives.ArchiveYieldWithinLimit | src/archive_manager.rs:62-64 | when no header carries WARN, no buffer larger than `MAX_FILESIZE` is ever counted |
| Worker.ArchiveTexts | src/lib.rs:102-106 | an archive that is empty or fails to open yields no entry contents |
| Worker.CountArchive | src/lib.rs:102-125 | the table gains the counts of every buffer the archive yields, in order; the archive ends at EOF or at the first `prepare_next` error, with the reader freed and a terminal status; after a failed open the reader stays allocated but unopened |
| Worker.ArchiveStep | src/lib.rs:109-123 | one pass of the archive loop: when the loop goes on, the cursor has moved forward and the buffers still to come complete the same table; when it breaks, the table has gained every remaining buffer, and the reader has been freed with a terminal status |
| Worker.OneThreadCount | src/lib.rs:96-132 | every record before the first sentinel is counted in order; the sentinel is pushed back and the rest of the queue is left; the worker sees the sentinel exactly once |
| Worker.RunWorkers | src/lib.rs:152-172 | with at least one worker, all records are counted and the queue ends as just the sentinel; each worker sees the sentinel exactly once |
| Worker.CountWords | src/lib.rs:137-172 | the result is the table of all scanned records, whatever the number of workers (at least one), and empty with none |
| Worker.ProcessAll | src/lib.rs:96-131 | handling records in order never removes an entry nor lowers a count |
| Worker.ProcessAllSpec | src/lib.rs:101-130 | per key, handling records adds every word of every record; no key is removed |
| Worker.RecordsWordsPermutation | src/lib.rs:152-172 | the words the records contribute do not depend on their order |
| Worker.ProcessAllPermutation | src/lib.rs:152-172 | any order in which whole records are handled gives the same table |
| Worker.RegularRecordCounted | src/lib.rs:126 | every word of every regular record before the sentinel is counted in the final table |
| Worker.FailedArchiveContributesNothing | src/lib.rs:103-106 | an archive whose `set_archive` fails leaves the table unchanged |
| Report.CmpStrEqual | src/lib.rs:199 | two words compare equal exactly when they are the same word |
| Report.CmpStrFlip | src/lib.rs:199 | x is less than y exactly when y is greater than x |
| Report.CmpStrTrans | src/lib.rs:199 | the word order is transitive |
| Report.ByCountDesc | src/lib.rs:193 | the first comparator puts the larger count first: `Less` exactly for a larger count, `Equal` for the same count |
| Report.ByWord | src/lib.rs:199 | the second comparator is `Equal` exactly for the same word, and antisymmetric |
| Report.ByCountDescIsPreorder | src/lib.rs:193 | the by-count comparator is a total preorder |
| Report.ByWordIsPreorder | src/lib.rs:199 | the by-word comparator is a total preorder |
| Report.SortBy | src/lib.rs:193 | the array ends sorted under the comparator and is a permutation of what it held |
| Report.NatToString | src/lib.rs:195 | a count prints as decimal digits with no leading zero |
| Report.DecimalRoundTrip | src/lib.rs:195 | reading the printed digits back gives the count |
| Report.LineFormat | src/lib.rs:195 | a line of either report (also `src/lib.rs:201`), `Line`, is the word, " : ", the count's decimal digits (which read back to the count), and a newline |
| Report.LineRoundTrip | src/lib.rs:195 | every line "word : n\n" reads back to its word and count, whatever digits the word holds |
| Report.LineInjective | src/lib.rs:195 | two lines are equal exactly when their pairs are |
| Report.LinesAt | src/lib.rs:193-196 | one line per pair, in the vector's order: the i-th line is the line of the i-th pair |
| Report.WriteLines | src/lib.rs:193-196 | the write loop produces exactly `Lines` of the array |
| Report.LinesPermutation | src/lib.rs:193-202 | reordering the pairs only reorders the lines |
| Report.CollectPairs | src/lib.rs:189-190 | the vector holds every (word, count) entry of the table once, in some order |
| Report.EnumeratesEntries | src/lib.rs:189-190 | such a vector holds only table entries, never the same word twice, and each entry exactly once |
| Report.DumpRes | src/lib.rs:187-203 | the first report is one line per entry sorted by descending count; the second is one line per entry sorted by word |
| Report.ReportContents | src/lib.rs:187-203 | each report holds exactly one line per counted word with its count, and every line reads back to a word of the table and its count |
| Report.ByCountReportOrder | src/lib.rs:193-196 | in the by-count report the counts never increase from one line to the next |
| Report.ByWordReportOrder | src/lib.rs:199-202 | in the by-word report the words strictly increase |
| Report.ByWordReportDetermined | src/lib.rs:199-202 | the by-word report depends on the table alone, not on the map's iteration order or the earlier sort |
| Report.ReportsAgree | src/lib.rs:193-202 | the two reports hold the same lines, only in different orders |

## Left out

- Threads, `Arc`, `Mutex`, the concurrent `CHashMap` and `SegQueue`: the scanner runs to completion, then the workers run one after another on one shared table. `ProcessAllPermutation` states that the order in which whole records are handled does not matter.
- Worker.ProcessAll: each increment is treated as atomic. In the source the `get_mut` that finds no entry and the later `insert` of 1 are separate map calls with no lock held between them (`src/lib.rs:79-82`). Two workers meeting the same new word can both insert 1, and the second insert loses the first worker's count. The model does not capture this lost update.
- The busy-poll `None => continue` of `one_thread_count`: in the sequential model the sentinel is already queued, so the queue is never empty before the sentinel.
- Timing with `time::Instant` and the `f64` average of indexing time: they do not affect the counts.
- `WalkDir`, `fs::metadata`, `fs::read`, `File::create` and `write!`, and the `unwrap` panics on them. The walk is an input sequence of `FileInfo`. A failed read is `content == None` and is skipped, as the code does. The reports are sequences of lines.
- The libarchive FFI, raw pointers, `set_len` over uninitialised memory, and the ignored return value of `archive_read_data`. The archive is an abstract `HeaderStream`; bytes not delivered by the archive are zero in `ReadBuffer`.
- Case folding (`default_case_fold_str`; the `casefold` module is not part of this model) and `unicode_words`: these are the uninterpreted functions of a `Tokenizer`.
- Worker.CountArchive: a `prepare_next` error ends the archive. The code's `continue` calls `prepare_next` again on an already-freed handle, which has no defined behaviour to model.
- Archives.ArchiveManager.SkipCurrent: entry names are decoded strings. The `unwrap` in `prepare_next` that panics on a non-UTF-8 entry name is not modelled.
- Archives.ArchiveManager.EntryName: entry names are decoded strings. The `Err` that `entry_name` returns for a non-UTF-8 pathname is not modelled.
- Scanner.Classify: file names are decoded strings. The `to_str().unwrap_or_default()` that turns a non-UTF-8 extension into "" is not modelled.
- Archives.Entry: the entry size is a `nat`. A negative `archive_entry_size` and its cast to `usize` are not modelled.
- Archives.ArchiveManager.SetArchive: the reader leaked when `set_archive` is called again is not modelled.
- WordCount.Counter.CountWordsInFileUnicode: counts are unbounded; `usize` overflow is not modelled.
- Report.SortBy: proved sorted and a permutation. Stability of `slice::sort_by` is not stated, and ties in the by-count report are in an unspecified order, as in the source.
- Report.CmpStr: compares code points. Rust compares the UTF-8 bytes, and UTF-8 preserves code-point order; that equivalence is not proved here.
- `src/main.rs` and `src/wc_config.rs` (argument parsing, configuration loading, printing timings) are glue and are not modelled.

## Findings

| source | as written | input that shows it | evidently intended | confidence | as-written member | corrected member |
|---|---|---|---|---|---|---|
| src/lib.rs:50 | the extension is compared with ".txt", but `Path::extension` never contains a '.' | a regular file `a.txt`: its extension is "txt", so it is dropped and no plain file is ever counted | compare with "txt", i.e. keep files whose name ends in ".txt" | not executed | Scanner.DotTxtNeverPlain | Scanner.TxtSuffixIsPlain |
| src/archive_manager.rs:95-102 | `get_next` takes `&mut result[0]` of a buffer of the entry's declared size | an archive entry `empty.txt` of size 0: it passes the filter and the index panics | return an empty buffer for an empty entry | not executed | Archives.EmptyTxtEntryPanics | Archives.ArchiveManager.GetNext |
| src/archive_manager.rs:32-36 | `set_archive` takes `&mut arch_data[0]` of the archive bytes | an empty file `x.zip`: the index panics and the worker dies | report `Err` for an empty archive, as for one that fails to open | not executed | Archives.OpenAsWritten | Archives.ArchiveManager.SetArchive |

The rest of the model uses the corrected behaviour:
- `SetArchive` refuses empty bytes.
- `GetNext` returns an empty buffer for a zero-size entry.
- `Worker.CountWords` takes the plain-text suffix as a parameter, so it holds for `PLAIN_EXT`.

Where the design and the code differ, the model follows the code:
- The code counts into one shared table instead of per-worker tables that are merged afterwards.
- Inside archives, the code filters entries by the literal suffix ".txt" and by `MAX_FILESIZE` only for headers with status OK.
- The code has no recovery for a `prepare_next` error.
