# Log watcher core, modelled in Dafny

This project models `LogWatcher` from `log_watcher.py`. `LogWatcher` tails a log file in a background thread and hands each new, cleaned line to a set of subscriber callbacks. It also answers "the last n lines" queries from a fresh read of the file.

The model has five modules.

- `Wrappers`: the `Option` type.
- `EncodingDetection`: `_detect_encoding`. It chooses `utf-16-le`, `utf-16-be`, `utf-8-sig` or `utf-8` from the byte-order mark in the first four bytes of the file. A missing file counts as plain UTF-8.
- `LineReader`: what the `codecs.open` handle's `readline`/`readlines` return from a decoded text, and the cleaning `line.strip('\ufeff').strip()`.
  - The codecs stream reader ends a line at every boundary that `str.splitlines` recognises: `\n`, `\r`, `\r\n` as one, `\v`, `\f`, `\x1c`–`\x1e`, `\x85`, U+2028 and U+2029. The terminator is kept.
  - At end of file the reader returns the unterminated tail.
  - Whitespace is Python's `str.isspace` set.
- `Replay`: `get_last_n_lines(n)`, with Python's slicing rules for `lines[-n:]`.
- `Watcher`: the `LogWatcher` class.
  - Its callback set, `start`/`stop` lifecycle and `_notify_callbacks`.
  - `_watch_file`: `PollStep` models one iteration of its loop and `WatchFile` the whole loop. The function `Run` specifies the loop on values.

The model follows the code as written. In particular:

- Replayed lines are returned verbatim, terminators included. They are not trimmed.
- `n == 0` replays every line (`lines[-0:]` is `lines[0:]`), and a negative `n` drops the first `-n` lines.
- A partial last line is delivered as soon as it is read. The rest arrives as a separate line later (`PartialLineIsDeliveredInPieces`).
- A byte-order mark that has whitespace in front of it survives cleaning (`BomCanSurviveCleaning`).
- Lines end at every `splitlines` boundary, not only at `\n`.

Main results:

- Reading line by line neither skips nor repeats text. This holds for one `readlines` pass (`LinesTile`) and for the poll loop over a file that is only appended to (`RunTiles`).
- Every delivered line is non-empty, trimmed, and holds no line boundary (`DeliveredLineIsClean`).
- Each notification calls every registered callback exactly once, whether or not some of them raise (`NotifyCallbacks`).
- A replay is the verbatim end of the file (`ReplayIsEndOfFile`).
- Detection is exact for each byte-order mark (`DetectEncoding`, `DetectMarkedFile`).

## Model

`StripIsInfix`, `RunSnoc` and `DeliverableSnoc` are proof helpers. Each unfolds one definition one step for the loop and induction proofs, so they have no rows here.

| member | source | states |
|---|---|---|
| EncodingDetection.Head | log_watcher.py:33-34 | `f.read(4)` returns a prefix of the file: the whole file when it is shorter than four bytes, and its first four bytes otherwise |
| EncodingDetection.DetectEncoding | log_watcher.py:30-44 | a missing file gives UTF-8; each of UTF-16-LE, UTF-16-BE and UTF-8-SIG is chosen exactly when the file starts with its byte-order mark; UTF-8 is chosen exactly when the file is missing or has no mark |
| EncodingDetection.HeadKeepsMarks | log_watcher.py:34-40 | a mark is at the start of the four-byte head exactly when it is at the start of the file |
| EncodingDetection.DetectMarkedFile | log_watcher.py:35-44 | round trip over all four encodings: a file that starts with the mark of encoding `e` is detected as `e`; for UTF-8, which has no mark, a file that does not start with one is detected as UTF-8 |
| EncodingDetection.CreatedFileIsPlain | log_watcher.py:67-70 | the empty file the watcher creates is detected as UTF-8, the same as a missing file |
| EncodingDetection.DetectionReadsOnlyHead | log_watcher.py:34 | two files with the same first four bytes are given the same encoding |
| EncodingDetection.DetectedCodecIsKnown | log_watcher.py:36-44 | the codec name handed to `codecs.open` is always one of "utf-16-le", "utf-16-be", "utf-8-sig" and "utf-8", and it is "utf-8" exactly when the file is missing or carries no mark |
| LineReader.IsSpace | log_watcher.py:82 | the characters `str.strip()` with no argument removes: those for which `str.isspace()` holds. U+FEFF is not one of them |
| LineReader.IsLineBreak | log_watcher.py:78 | the line boundaries of `str.splitlines`, at which the codecs `readline` ends a line: "\n", "\r", "\x0b", "\x0c", "\x1c"-"\x1e", "\x85", U+2028 and U+2029 |
| LineReader.BreakIsSpace | log_watcher.py:78-82 | every line boundary is whitespace, so the strip removes any terminator `readline` kept |
| LineReader.ReadLine | log_watcher.py:78 | `readline` gives "" at or past the end of the text, and otherwise a non-empty piece of the text starting at the cursor |
| LineReader.TerminatorIsBoundary | log_watcher.py:78 | the terminator `readline` keeps is what lies between the first line boundary and the end of the line ("\r\n" counts as one) |
| LineReader.ReadLineIsNextLine | log_watcher.py:78 | before end of file, `readline` returns a non-empty piece of the text at the cursor. That piece has no boundary before its terminator, lacks a terminator only at end of file, and ends in "\r" only when no "\n" follows |
| LineReader.NextLineIsReadLine | log_watcher.py:78 | the converse: any line that meets that description at the cursor is the one `readline` returns, so the description fixes `readline` completely |
| LineReader.ReadLineExamples | log_watcher.py:78 | `readline` returns an unterminated "ab" whole at the start of the file, and "c\n" when the cursor is at offset 2 of "abc\n" |
| LineReader.UnterminatedTail | log_watcher.py:78 | when no boundary is left, `readline` returns the rest of the file without a terminator |
| LineReader.CompleteLineSurvivesAppend | log_watcher.py:78 | a complete line reads the same after text is appended to the file. A complete line is one with a terminator that is not a "\r" a later "\n" could join |
| LineReader.Lines | log_watcher.py:50 | `readlines` is repeated `readline` until the end: it is empty exactly when the cursor is at or past the end, and it holds at most one line per remaining character, since every line is non-empty (which line is which: `LinesAreReadLines`) |
| LineReader.LinesTile | log_watcher.py:50 | the lines of `readlines`, joined, are exactly the text from the cursor to the end of the file |
| LineReader.LinesAreReadLines | log_watcher.py:50 | the i-th line of `readlines` is what `readline` returns at the offset just past the first i lines, so none is empty |
| LineReader.LineIsReadAtItsStart | log_watcher.py:50 | the i-th line of `readlines` is what `readline` returns at that line's own start, which lies before end of file |
| LineReader.LineStartIsPrefixLength | log_watcher.py:50 | the i-th line of `readlines` starts right after the first i lines, at the cursor plus their joined length |
| LineReader.ConcatSnoc | log_watcher.py:50 | joining lines distributes over appending one more line |
| LineReader.ConcatAppend | log_watcher.py:50 | joining lines distributes over appending a sequence of lines |
| LineReader.StripLo | log_watcher.py:82 | the first index at or after `i` that the strip keeps: every character before it is removable and the character at it is not |
| LineReader.StripHi | log_watcher.py:82 | the index just after the last kept character: every character after it is removable and the last kept one is not |
| LineReader.Strip | log_watcher.py:82 | `strip` leaves no removable character at either end |
| LineReader.StripEmpty | log_watcher.py:82-83 | `strip` leaves nothing exactly when every character is removable |
| LineReader.StripDropsSuffix | log_watcher.py:82 | what `strip` removes after the kept piece is all removable characters |
| LineReader.Clean | log_watcher.py:82 | the cleaned line starts and ends with non-whitespace and is no longer than the raw line |
| LineReader.CleanIsInfix | log_watcher.py:82 | the cleaned line is a contiguous piece of the raw line |
| LineReader.CleanDropsBlankPrefix | log_watcher.py:82 | everything cleaning drops before the kept piece is U+FEFF or whitespace |
| LineReader.CleanDropsBlankSuffix | log_watcher.py:82 | everything cleaning drops after the kept piece is U+FEFF or whitespace |
| LineReader.SpaceTailOfPiece | log_watcher.py:82 | whitespace that a strip drops from the end of the BOM-stripped line is whitespace in the raw line too |
| LineReader.CleanedLineHasNoBreak | log_watcher.py:78-82 | a line read by `readline`, once cleaned, contains no line boundary |
| LineReader.CleanedBodyHasNoBreak | log_watcher.py:82 | a line with no boundary before its terminator has none once stripped |
| LineReader.KeptPieceEndsBeforeTerminator | log_watcher.py:82 | a piece of a line whose last character is not whitespace ends before the line's terminator |
| LineReader.BlankLineIsDropped | log_watcher.py:82-83 | a raw line of whitespace only cleans to the empty line and so is not delivered |
| LineReader.DroppedLineIsBlank | log_watcher.py:82-83 | a line cleans to empty only when all of it is U+FEFF or whitespace |
| LineReader.CleanExamples | log_watcher.py:82 | cleaning keeps "ab" as it is and turns "c\n" into "c" |
| LineReader.BomCanSurviveCleaning | log_watcher.py:82 | a U+FEFF with whitespace in front of it is not removed: " \ufeffa\n" cleans to "\ufeffa" |
| Replay.SliceFrom | log_watcher.py:51 | Python's `xs[k:]` is a suffix of `xs`: `len - k` elements for `k >= 0` (none if `k` is past the end), and the last `-k` (at most `len`) for `k < 0` |
| Replay.LastN | log_watcher.py:51 | `lines[-n:] if len(lines) >= n else lines` is a suffix of the lines. It holds `min(n, len)` lines for positive `n`, every line for `n == 0`, and `len + n` lines (at least zero) for negative `n` |
| Replay.GetLastNLines | log_watcher.py:46-56 | a missing file, a file that cannot be read and a decoding error all give `[]`; otherwise the result holds no more lines than the file |
| Replay.ConcatOfSuffix | log_watcher.py:50-51 | joining a line list is joining its head part, then its tail part |
| Replay.ReplayIsEndOfFile | log_watcher.py:46-51 | the replayed lines, joined, are exactly the last characters of the decoded file, in order. There are `min(n, #lines)` of them for positive `n`, and with `n == 0` they are the whole file |
| Replay.DefaultReplayIsLastTen | log_watcher.py:46-51 | without `n`, a replay returns the last ten lines, or every line when there are fewer |
| Replay.ReplayOfFifteenLines | log_watcher.py:51 | of fifteen lines, `n = 10` replays the last ten and `n = 20` replays all fifteen |
| Watcher.CalledAfterAppend | log_watcher.py:60-62 | recording one more call keeps every earlier call and adds the new one |
| Watcher.PassSnoc | log_watcher.py:60-64 | calling one more callback that has not been called yet extends a notification pass by exactly that callback |
| Watcher.NotifiedSnoc | log_watcher.py:83-84 | a pass for one more delivered line extends the per-line record of passes |
| Watcher.Deliverable | log_watcher.py:80-84 | at most one delivered line per raw line read |
| Watcher.Run | log_watcher.py:76-89 | the poll loop on values, against which `WatchFile` is proved: each poll reads one line at the cursor, moves past a non-empty read and stays put on an empty one |
| Watcher.RunBounds | log_watcher.py:76-89 | a run reads at most one line per poll; its cursor never moves back from where the loop started, and a run that read nothing ends where it started |
| Watcher.AppendedRead | log_watcher.py:77-78 | on a file that has grown, a read continues exactly where the text read so far stopped |
| Watcher.OnlyGrowsPrefix | log_watcher.py:76-78 | dropping the last snapshot of an append-only file keeps the rest append-only, and the last snapshot extends the one before it |
| Watcher.RunTiles | log_watcher.py:73-89 | on an append-only file, the raw lines the loop reads, joined, are exactly the text between the end of the file at open time and the cursor. Nothing is skipped or read twice |
| Watcher.CleanReadIsClean | log_watcher.py:78-83 | a line read anywhere is, once cleaned, either empty or non-empty, trimmed and free of boundaries |
| Watcher.DeliveredLineIsClean | log_watcher.py:76-84 | every line the loop hands to the callbacks is non-empty, trimmed, and holds no line boundary |
| Watcher.PartialLineIsReadInPieces | log_watcher.py:76-78 | polling "ab" and then "abc\n" reads "ab" first, then continues at offset 2 and reads "c\n", ending at offset 4 |
| Watcher.PartialLineIsDeliveredInPieces | log_watcher.py:78-84 | a line polled while still being written is delivered in pieces: "ab" first, then "c" once the file holds "abc\n" |
| Watcher.LogWatcher.constructor | log_watcher.py:14-20 | a new watcher has no callbacks, is not running, has no thread, and its last position is 0 |
| Watcher.LogWatcher.RegisterCallback | log_watcher.py:22-24 | the callback set gains the callback; registering a callback that is already there changes nothing |
| Watcher.LogWatcher.UnregisterCallback | log_watcher.py:26-28 | the callback is no longer in the set and every other callback keeps its membership; discarding an absent callback is a no-op |
| Watcher.LogWatcher.NotifyCallbacks | log_watcher.py:58-64 | every registered callback is called exactly once with the line, and nothing else is called; a callback that raises is recorded as raising and the pass continues |
| Watcher.LogWatcher.PollStep | log_watcher.py:76-89 | one loop iteration. It reads one line at the cursor. An empty read leaves the cursor, `last_position` and the callbacks untouched. A non-empty read moves the cursor and `last_position` past the line. The cleaned line is notified (one full pass) unless it is empty, and it never contains a line boundary |
| Watcher.LogWatcher.WatchFile | log_watcher.py:66-89 | the encoding is the detected one and the cursor starts at the end of the file. While running, the loop's cursor and delivered lines are those of `Run` over the snapshots polled, with one full notification pass per delivered line. When not running, nothing is read |
| Watcher.LogWatcher.Start | log_watcher.py:91-97 | when a thread exists, nothing changes; otherwise the watcher is running with a new thread |
| Watcher.LogWatcher.Stop | log_watcher.py:99-103 | afterwards the watcher is not running and has no thread, so a later `start` launches a new one |

## Left out

- Threads, the lock and `Thread.join` are not modelled. `WatchFile` is called directly as the thread body. The methods here run one at a time. In the source the lock is held while every callback runs, and `Lock` is not re-entrant. So a callback that calls `register_callback` or `unregister_callback` deadlocks the watch thread. The model does not capture that deadlock.
- The `running` flag is read once per poll. A `stop` from another thread in the middle of the loop is not modelled: `WatchFile` runs while `running` holds, and if it does not hold, it makes no poll at all.
- The file system and decoding are parameters, not modelled behaviour. A file is given as its bytes, or as missing or unreadable. Decoding is a function parameter, and the text another process appends is given as one text snapshot per poll.
- `time.sleep(0.1)` and `f.seek(current_position)` after an empty read are modelled only as "the cursor stays put". Waiting is not modelled.
- `print` of error messages is left out. A callback that raises is recorded as `raised` in its `Invocation`. A replay that fails returns `[]`.
- `f.tell()` on a codecs reader returns a byte offset in the underlying file, which read-ahead buffering can make unreliable. The model uses a character cursor into the decoded text instead, so `lastPosition` counts characters.
- If `_detect_encoding` raises an error other than `FileNotFoundError` (for example, permission denied), the watch thread dies. This is not modelled. In the replay, the same error is caught and gives `[]`, which is modelled by `Unreadable`.
- Watcher.RunTiles: assumes the file is only appended to. Truncation and rotation, which leave the cursor past the new end, are not modelled.
- Watcher.LogWatcher.WatchFile: takes a decoder that cannot fail, so the loop's decoding error path is not modelled.
  - `f.readline()` raises `UnicodeDecodeError` on bytes that are invalid for the detected codec. An example is a Latin-1 `0xE9` before `\n` in a file detected as UTF-8.
  - It can also raise on a multi-byte character split across two writes. This happens when the lead bytes were buffered by the same `readline` call that returned the line before them. `f.tell()` is then already past them, and the `seek` after the next empty read drops them, so the continuation bytes that follow cannot be decoded. Lead bytes picked up on their own by an empty read do no harm: that read started before them, the `seek` moves back over them, and they are read again whole once the rest of the character arrives.
  - `_watch_file` has no `try`, so the watch thread ends. `running` stays true and `thread` stays set, so `start` does nothing until `stop` is called.
- Watcher.LogWatcher.WatchFile: does not model a failure to create the missing file. A missing file is taken to be created empty (`Some([])`). In the source, `open(self.log_file, 'a')` (log_watcher.py:67-68) raises when the file's directory does not exist or cannot be written to. An example is `test_logs/sample.log` when `test_logs/` is missing. `_watch_file` has no `try`, so the watch thread ends with `running` still true and `thread` still set, and `start` does nothing until `stop` is called.
- Watcher.LogWatcher.WatchFile: takes one `failing` set for the whole run, so a callback either raises on every line or on none. A callback that raises on some lines only is outside the contract. What is delivered does not depend on this; only the `raised` flags of the recorded calls do.
- Watcher.LogWatcher.WatchFile: does not model a file deleted between the existence check and the open. When a file is missing it is created empty, which is modelled as `Some([])`.
- The `LogUpdate` dataclass is not used by the core and is not modelled.
- The set's iteration order in `_notify_callbacks` is unspecified in Python. The model picks an arbitrary order, and its contract holds for every order.
