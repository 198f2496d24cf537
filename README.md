# Date-indexed log retrieval, modelled in Dafny

`LogRetriever` (in `src/main.py`) pulls every line of one calendar day out of a
large log file. Each line of the file starts with a `YYYY-MM-DD` date. The
lines are assumed sorted and spread evenly over about a year. The retriever
works in three steps:

1. It guesses a byte offset for the target date: `file_size // 365` bytes per
   day, times the number of days between the target and 1 January of the
   current year.
2. It aligns the guess to a line start, then brackets the day. It steps
   backwards and then forwards by `day_size // 10` bytes, re-aligning after
   each step, for as long as the line under the cursor starts with the date.
3. It reads the bracketed range line by line and writes every line that
   starts with the date.

The model has five modules, one per concern:

| file | module | what it holds |
|---|---|---|
| `lines.dfy` | `Lines` | the mapped file as a byte sequence; line starts; what `readline()` returns; `strip()` and `startswith` |
| `calendar.dfy` | `Calendar` | the proleptic Gregorian calendar of `datetime`; the day difference; the strict `YYYY-MM-DD` form |
| `align.dfy` | `Align` | `find_nearest_line_start` |
| `refine.dfy` | `Refine` | `refine_search` |
| `retriever.dfy` | `Retriever` | the estimate in `binary_search_position`; the scan loop; `extract_logs` |

The file is read-only for the whole run, so it is a value (`seq<byte>`). The
retriever object never changes a field after construction, so the model has no
class. Each loop of the source is a `method` with a `while` loop. Each method
is proved equal to a specification function, and the lemmas speak about that
function:

- `FindNearestLineStart` is proved equal to `NearestLineStart`.
- `SearchBackward` and `SearchForward` are proved equal to `BackwardExit` and `ForwardExit`.
- `ScanRange` is proved equal to `Extracted`.

**Loops that never end.** Neither loop of `refine_search` is sure to end. If a
step re-aligns to the offset it started from, and the line there matches, the
next iteration is the same as the last one, and the source repeats it
forever. The forward loop does this whenever no line starts between the
cursor and the cursor plus the stride (`ForwardStepStaysIff`). Three cases
follow from that:

- The stride is 0, which means a file under 3650 bytes. A matching line
  then hangs the forward loop (`ForwardLoopsWithZeroStride`). Past offset 0
  it hangs the backward loop too (`BackwardLoopsIffZeroStride`).
- The forward cursor stands on a matching line that is longer than the
  stride, anywhere in the file (`ForwardLoopsOnLongLine`). The step lands
  inside the same line and aligns back to the cursor. With a stride under
  10 (a file under 36,500 bytes) this is every matching line, since a match
  holds the ten bytes of the date (`SmallStrideAlwaysHangs`).
- The forward cursor reaches a matching last line, or every line from the
  cursor to the end matches (`ForwardLoopsWhenTailMatches`). Aligning a
  position past the end goes back to the last line, and the loop test
  `end_pos < file_size` still holds.

The model detects exactly this state. It returns `Loops` from a loop,
`Hangs` from the search and `NeverReturns` from `ExtractLogs`. The functions
`BackwardRun` and `ForwardRun` run each loop literally, for a bounded number
of guard checks. Two lemmas, `BackwardLoopsIffNeverExits` and
`ForwardLoopsIffNeverExits`, show that `Loops` is returned exactly when the
literal loop takes no number of steps to exit.

**What the code does where a user would expect otherwise.** The docstring of
`extract_logs` (`src/main.py:95-97`) promises to "extract logs for the target
date". The model follows the code, and the code does not always do that:

- A four-line, 108-byte file holds one `2024-12-01` line, two `2024-12-02`
  lines and one `2024-12-03` line. With the target `2024-12-02` the code
  writes an empty output (`ExampleWritesNothing`), although two lines of that
  date are in the file. The day size is 0, so the search starts at offset 0,
  and the first line there does not match.
- Take a target equal to the last date in the file, where the forward loop
  starts on a matching line. The forward loop then runs forever
  (`ForwardLoopsWhenTailMatches`), and the call never returns. When the seed's
  line does not match, the search instead returns the empty range
  `(seed, seed)` (`MismatchAtSeed`).
- A file under 36,500 bytes never yields a line. The call either writes
  nothing or never returns, depending only on the line at the seed
  (`SmallFileDichotomy`).
- An empty file gets no error of its own. `mmap` raises `ValueError`, the
  generic handler catches it, and `extract_logs` returns `False` (`Failed`).

## Model

| member | source | states |
|---|---|---|
| Lines.LineEnd | src/main.py:77-78 | `readline()` from offset `c` stops just past the next newline, or at the end of the file. It moves forward on a non-empty rest. No newline comes before its last byte. |
| Lines.LineAtShape | src/main.py:78 | `LineAt` is the line `readline()` returns here and at :87 and :118. A line read inside the file is non-empty and ends where the cursor stops. It has no newline before its last byte, and it ends with a newline unless it reaches the end of the file. |
| Lines.LineEndIsLineStart | src/main.py:117-118 | After a `readline()` the cursor is at a line start or at the end of the file. |
| Lines.NoLineStartInsideLine | src/main.py:78 | No offset strictly inside the line read at `c` is a line start. |
| Lines.LineEndAtNextStart | src/main.py:118 | A line with no newline before the line start `e` is read up to exactly `e`. |
| Lines.LeftStripSpec | src/main.py:78 | `LeftStrip` (`lstrip()`) drops only whitespace, and its result does not start with whitespace. |
| Lines.RightStripSpec | src/main.py:78 | `RightStrip` (`rstrip()`) drops only whitespace, and its result does not end with whitespace. |
| Lines.StrippedStartsWith | src/main.py:78-79 | `Strip` is `strip()`, and `StartsWith` is `startswith`. For a date-shaped prefix, `strip().startswith(p)` holds exactly when the line starts with `p` once its leading whitespace is removed. |
| Calendar.DaysBeforeYearCounts | src/main.py:40-41 | The closed-form day count before year `y` equals the lengths of years 1 to y-1 added one by one. |
| Calendar.DaysBeforeMonthCounts | src/main.py:40-41 | The month table equals the month lengths of the year added one by one. |
| Calendar.OrdinalCounts | src/main.py:40-41 | The day number counts the days from 1 January of year 1, which is day 1. |
| Calendar.OrdinalNextDay | src/main.py:40-41 | The next calendar day has the next day number, across month and year ends. |
| Calendar.OrdinalWithinYear | src/main.py:40-41 | A day number lies in the span of its own year. |
| Calendar.DaysBeforeYearMonotone | src/main.py:40-41 | The days before a year never decrease as the year grows. |
| Calendar.DaysBeforeMonthMonotone | src/main.py:40-41 | A later month starts after the whole of an earlier month. |
| Calendar.OrdinalStrictlyIncreasing | src/main.py:40-41 | A date before another has a smaller day number. |
| Calendar.OrdinalOrder | src/main.py:40-41 | On valid dates, calendar order and day-number order agree, in both directions. |
| Calendar.DaysDiffSign | src/main.py:40-41 | `DaysDiff` is the `.days` of the two `datetime` values subtracted. It is negative exactly when the target's year is before the reference year. |
| Calendar.Decimal | src/main.py:39 | A zero-padded decimal has the required width and only digits. |
| Calendar.ParseDate | src/main.py:39 | A text is accepted only if it names a date `datetime` can hold. |
| Calendar.FormatDate | src/main.py:39 | A formatted date is ten bytes long. |
| Calendar.DecimalRoundTrip | src/main.py:39 | Reading back a zero-padded decimal gives the number. |
| Calendar.DecimalOfValue | src/main.py:39 | Re-printing the value of a digit string gives the string. |
| Calendar.ParseFormat | src/main.py:39 | Parsing a formatted valid date gives the date. |
| Calendar.FormatParse | src/main.py:39 | Formatting a parsed date gives the text it came from, so text and date determine each other. |
| Align.Clamp | src/main.py:58-62 | The bound check maps a position at or past the end to `size - 1` and a negative one to 0. It leaves an in-range position alone and stays inside a non-empty file. |
| Align.LineStartAtOrBefore | src/main.py:64-66 | The walk back from `c` stops at a line start at or before `c`, with no newline in between. |
| Align.NearestLineStart | src/main.py:54-68 | The aligned position is a line start at or before the clamped input, inside a non-empty file, with no newline in between. |
| Align.FindNearestLineStart | src/main.py:54-68 | The loop returns a line start at or before the clamped input, with no newline in between, and it equals `NearestLineStart`. |
| Align.NearestIsGreatest | src/main.py:64-66 | Every line start up to the clamped input is at or before the result, so the result is the nearest one. |
| Align.NearestOfLineStart | src/main.py:54-68 | An aligned in-range position is returned unchanged. |
| Align.NearestIdempotent | src/main.py:54-68 | Aligning twice is aligning once. |
| Align.NearestMonotone | src/main.py:54-68 | Alignment is monotone in its input. |
| Align.NearestOutOfRange | src/main.py:59-62 | A negative position aligns to 0. A position past the end aligns like the last byte. |
| Refine.MismatchAtByte | src/main.py:78-79 | `Matches` is the test both loops apply (also :87-88). A line whose first byte is not whitespace, and that differs from a target whose last byte is not whitespace at some byte before its first newline, does not match. Leading whitespace is stripped first, so without that condition a shifted line can still match. |
| Refine.LeadingSpaceStillMatches | src/main.py:78-79 | The line ` 2024-12-02` differs from the target `2024-12-02` at byte 0 and still matches, because leading whitespace is stripped. |
| Refine.BackwardExit | src/main.py:75-81 | One step is `BackwardStep`, the re-alignment of the cursor minus `Stride` (`day_size // 10`) at :81. The backward loop leaves at a line start at or before where it started: at 0, or at a line that does not match. With a non-zero stride it always leaves. |
| Refine.ForwardExit | src/main.py:84-90 | One step is `ForwardStep`, the re-alignment of the cursor plus the stride at :90. The forward loop leaves at a line start at or after where it started. In a non-empty file that is a line inside the file that does not match. |
| Refine.BackwardExitUnfold | src/main.py:76-81 | One turn of the backward loop moves to the re-aligned position, at or below the cursor, or repeats forever if that is the cursor. |
| Refine.ForwardExitUnfold | src/main.py:85-90 | One turn of the forward loop moves to the re-aligned position, at or above the cursor, or repeats forever if that is the cursor. |
| Refine.BackwardRunLoops | src/main.py:76-81 | When the backward loop is found to repeat, the literal loop does not exit within any number of checks. |
| Refine.BackwardRunExits | src/main.py:76-81 | Otherwise the literal backward loop exits within `s + 1` checks, and only where `BackwardExit` says. |
| Refine.ForwardRunLoops | src/main.py:85-90 | When the forward loop is found to repeat, the literal loop does not exit within any number of checks. |
| Refine.ForwardRunExits | src/main.py:85-90 | Otherwise the literal forward loop exits within `size - e + 1` checks, and only where `ForwardExit` says. |
| Refine.BackwardLoopsIffNeverExits | src/main.py:76-81 | `BackwardRun` runs the loop literally, one guard check per unit of fuel. `Loops` holds for the backward loop exactly when that literal loop never exits. |
| Refine.ForwardLoopsIffNeverExits | src/main.py:85-90 | `ForwardRun` runs the loop literally, one guard check per unit of fuel. `Loops` holds for the forward loop exactly when that literal loop never exits. |
| Refine.BackwardLoopsIffZeroStride | src/main.py:76-81 | From a matching line past 0, the backward loop runs forever exactly when the stride is 0. Otherwise each step moves strictly down. |
| Refine.ForwardLoopsWithZeroStride | src/main.py:85-90 | From a matching line, a stride of 0 makes the forward loop run forever. |
| Refine.ForwardStepStaysIff | src/main.py:90 | The forward step stays put exactly when no line starts between the cursor and the clamped cursor-plus-stride. |
| Refine.ForwardLoopsOnLongLine | src/main.py:84-90 | On a matching line longer than the stride, anywhere in the file, the forward loop never ends. |
| Refine.ForwardLoopsWhenTailMatches | src/main.py:84-90 | If every line from the cursor to the end of the file matches, the forward loop never ends, whatever the stride. |
| Refine.SearchBackward | src/main.py:75-81 | The backward loop returns what `BackwardExit` says: a line start at or before the seed, at 0 or not matching. |
| Refine.SearchForward | src/main.py:84-90 | The forward loop returns what `ForwardExit` says: a line start at or after the seed, inside a non-empty file and not matching. |
| Refine.RefineSearch | src/main.py:70-92 | `refine_search` equals `RefineSpec`. A returned range brackets the seed with line starts. Its start is 0 or a non-matching line, and its end is a non-matching line inside a non-empty file. |
| Refine.MismatchAtSeed | src/main.py:70-92 | A seed whose line does not match gives the range `(seed, seed)`. |
| Refine.ZeroStride | src/main.py:70-92 | With a day size under 10, a matching seed never returns, and a non-matching one gives `(seed, seed)`. |
| Retriever.Seed | src/main.py:34-45 | `DaySize` is `file_size // 365` (:34), and `Estimate` is `days_diff * day_size` (:42). Their alignment is a position the loops can stand on. |
| Retriever.BinarySearchPosition | src/main.py:24-52 | `binary_search_position` equals `SearchSpec`. It returns no positions exactly when the date does not parse or the reference year is out of range. Returned positions are ordered line starts inside the file. |
| Retriever.EarlierYearSeedsAtZero | src/main.py:40-45 | A target in a year before the reference year seeds the search at offset 0. |
| Retriever.SmallFileSeedsAtZero | src/main.py:34-45 | A file under 365 bytes seeds every search at offset 0. |
| Retriever.LineStartsIn | src/main.py:116-118 | The line starts the scan passes over are in range, are line starts, and increase. |
| Retriever.LineStartsInComplete | src/main.py:116-118 | No line start in the range is missed. |
| Retriever.Selected | src/main.py:119 | The kept positions come from the scanned ones and stay inside the file. |
| Retriever.SelectedMembers | src/main.py:119 | Exactly the scanned positions whose line starts with the target are kept. |
| Retriever.SelectedIncreasing | src/main.py:119-120 | The kept positions keep file order. |
| Retriever.LinesAt | src/main.py:118-120 | One line is written per kept position. |
| Retriever.LinesAtIndex | src/main.py:118-120 | The k-th written line is the line at the k-th kept position. |
| Retriever.LineStartsInFlat | src/main.py:117 | Moving the range end across offsets that are not line starts changes nothing. |
| Retriever.LineStartsInStep | src/main.py:117-118 | One `readline()` passes over exactly one line start. |
| Retriever.SelectedAppend | src/main.py:119 | A new position is kept exactly when its line starts with the target. |
| Retriever.LinesAtAppend | src/main.py:120 | Keeping one more position writes one more line, at the end. |
| Retriever.ExtractedStep | src/main.py:117-120 | Reading one line adds it to the output exactly when it starts with the target. |
| Retriever.ExtractedOvershoot | src/main.py:117 | A cursor that stops past `end_pos`, inside the line holding it, has passed over the same line starts as `end_pos`. |
| Retriever.ScanStep | src/main.py:117-120 | One turn of the scan moves the cursor forward to a line start or the end of the file. It extends the output by the line if it matches, and past `end_pos` it changes nothing further. |
| Retriever.ScanRange | src/main.py:116-120 | The scan loop writes exactly `Extracted(start_pos, end_pos)`: the lines at the line starts in the range whose unstripped text starts with the target, in file order. |
| Retriever.ExtractedCharacterised | src/main.py:116-120 | Each written line is, in increasing file order, the line at a line start in `[start_pos, end_pos)` that starts with the target. |
| Retriever.ExtractedComplete | src/main.py:116-120 | Every line start in the range whose line starts with the target is kept, and its line is written at that position's place in the output. Byte-identical lines at different starts are each written. |
| Retriever.BlockExtracted | src/main.py:116-120 | A block of lines that all start with the target, between two line starts, is written byte for byte. |
| Retriever.ExtractLogs | src/main.py:94-127 | `extract_logs` equals `ExtractSpec`. It fails exactly on an empty file, an unparsable date or an out-of-range reference year. Every line it writes starts with the target. |
| Retriever.MismatchAtSeedWritesNothing | src/main.py:108-122 | When the seed's line does not match, the call succeeds and writes nothing. |
| Retriever.MatchHoldsDate | src/main.py:78-79 | A line that matches a parsed target holds at least that target's ten bytes. |
| Retriever.SmallStrideAlwaysHangs | src/main.py:84-90 | With a stride under 10, the forward loop never ends once it stands on a matching line. |
| Retriever.SmallStrideDichotomy | src/main.py:70-92 | With a day size under 100, a matching seed never returns, and any other seed gives `(seed, seed)`. |
| Retriever.SmallFileDichotomy | src/main.py:34-90 | A file under 36,500 bytes either writes nothing or never returns, depending on the seed's line. |
| Retriever.ExampleTargetParses | src/main.py:39 | `2024-12-02` parses to that date. |
| Retriever.FirstLineMismatch | src/main.py:78-79 | A file whose first line does not begin with whitespace, and differs before its newline from a target whose last byte is not whitespace, does not match at offset 0. |
| Retriever.ExampleFirstLineMisses | src/main.py:78-79 | The example file's first line does not match `2024-12-02`. |
| Retriever.ExampleWritesNothing | src/main.py:24-127 | On the four-line example file, the target `2024-12-02` gives an empty output for every valid reference year. |

## Left out

- Opening the log and output files, `os.makedirs`, `mmap.close` and logging are I/O. The mapped file is the `data` parameter. The output file is the returned sequence of lines.
- `datetime.now().year` reads the clock, so it is the `refYear` parameter. A year `datetime` cannot hold makes `datetime(refYear, 1, 1)` raise `ValueError`, and that is modelled.
- UTF-8 decoding is left out. The file is taken to be single-byte text, so decoding is the identity. As a result, a `UnicodeDecodeError` in `refine_search` (caught as a `ValueError`) or in the scan (caught by the generic handler) is not modelled, and neither is non-ASCII whitespace in `strip()`.
- The generic `except Exception` of `extract_logs` is modelled only for the empty file. Apart from the decoding error above, the other exceptions it catches come from I/O.
- The command-line entry point, argument parsing and sample-file generation are outside the retriever. They are not part of this model.
- The unused `left, right` variables of `binary_search_position` have no effect and are not modelled.
- ParseDate: accepts only the strict form: four digits, two digits, two digits. `strptime('%Y-%m-%d')` also accepts a one-digit month or day (`2024-1-5`) and a day padded with a space (`2024-12- 5`). The model rejects those inputs where the source would go on and search with them.
- Extracted: the scan tests `startswith` on the decoded line without stripping. The model states this on bytes, which equals the source only under the single-byte assumption above.
- BinarySearchPosition: a loop that never ends is reported as a value (`SearchHangs`) instead of by non-termination. `ForwardLoopsIffNeverExits` and `BackwardLoopsIffNeverExits` connect the value to the literal loop.
