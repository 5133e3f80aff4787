# sync.py: result-file to database synchronisation, modelled in Dafny

`sync.py` reads a file of results, one per line, each line of the form
`salt => address => reward`. It turns every well-formed line into a row
`(salt, address, reward, totalZeroes, leadingZeroes, line_number)` and inserts
the rows into a PostgreSQL table in batches of at most 1000. Before it starts,
it asks the table for the largest line number the caller has already stored,
so that a restart resumes from there.

This project models the part of that script that does not depend on the
database:

- **`count_zeroes`** (module `ZeroCount`). It drops the two-character prefix
  of an address. It returns the number of leading `"00"` pairs (the regex
  `^(00)*`) and the number of `"00"` occurrences that `str.count` finds.
  Proved:
  - the leading count is the largest `k` for which the rest starts with `k`
    pairs;
  - the total count is the largest number of non-overlapping occurrences;
  - `leading <= total`, and twice the total is at most the length of the
    address after its prefix;
  - `"000"` gives 1 occurrence, `"0000"` gives 2, and `"0x00000000ab00cd"`
    gives total 5 and leading 4.
- **The Python builtins** the per-line step uses (module `Text`):
  - `str.strip()`, which removes the ASCII whitespace of `str.isspace`;
  - `str.split(' => ')`, proved to round-trip with `join` and to cut at the
    leftmost separator each time, which determines the parts;
  - `int()` on base-10 literals. It succeeds exactly on an optional sign
    followed by digits, with the whitespace `int()` skips around them (space,
    tab, newline, carriage return, vertical tab and form feed, fewer than
    `str.strip()` removes), and `int(str(n)) == n` is proved.
- **The per-line step** (module `Records`). It strips the line and splits it.
  A line without exactly three fields is dropped. With three fields, the step
  builds the row, or reports that `int(reward)` raised.
- **The resume point** of `get_last_line_number` (module `Resume`). The
  query's outcome is a parameter: it failed, it found no rows, or it returned
  a maximum. The result is 0, 0 or that maximum.
- **The driver loop** (modules `Batching` and `SyncDriver`):
  - It takes chunks of at most 1000 lines.
  - It numbers every line, including malformed ones.
  - It collects each chunk's rows into `batch`, hands `batch` to
    `sync_batch_to_db` and resets it.
  - It makes one last call after the file is exhausted.
  - `sync_batch_to_db` is the class `BatchSink`. It keeps every non-empty
    batch, which is its `if not batch: return` guard.

  The loop is the imperative method `SyncDriver.RunSyncWith`, with invariants
  over the line counter, the batch, the calls made and the sink. It is proved
  equal to the functional reference `Batching.Run`. The lemmas in `Batching`
  state what a run hands over:
  - a run completes exactly when no reward is rejected;
  - a completed run makes one call per chunk and then one with an empty batch;
  - every batch holds at most 1000 rows;
  - the rows handed to `sync_batch_to_db` are exactly the rows of the file's
    well-formed lines, in file order;
  - a run that stops because `int()` raised has handed over the rows of the
    complete chunks before the failing line;
  - the line numbers of the rows are strictly increasing and lie above the
    resume point.

The line numbering follows the code, not the intent behind it. The counter
starts at `last_line_number + 1` (sync.py:71) and is incremented before its
first use (sync.py:78). So the first line of the file is numbered
`last_line_number + 2` (`Batching.FirstLineNumber`). As a result, the skip
`current_line <= last_line_number` (sync.py:79) can never fire, and the model
asserts that where the loop tests it. A restarted run therefore re-reads the
whole file; it does not skip the lines already stored. When the lookup
succeeded, the re-read lines get new numbers larger than every stored one
(`SyncDriver.ResumedRecordsAreNew`). When it failed, the resume point is 0 and
the numbers start at 2, so they may repeat numbers already stored. The
script's own log line (sync.py:65) announces that it starts from line
`last_line_number + 1`, yet the code numbers the first line
`last_line_number + 2` and skips nothing. The model follows the code.

`int(reward)` is not guarded in the source. When it raises, the whole script
ends. The model's run then ends with `Aborted(lineNumber)`, and:
- the rows already collected for the current chunk are never handed over;
- the final call is not made.

## Model

| member | source | states |
|---|---|---|
| `ZeroCount.Remainder` | sync.py:18 | `address[2:]`: the address is its first two characters followed by the result, and an address shorter than two characters gives the empty string |
| `ZeroCount.CountZeroes` | sync.py:16-27 | leading <= total; twice the total fits in the address after its prefix; an address of at most two characters gives (0, 0) |
| `ZeroCount.LeadingPairs` | sync.py:22 | the rest starts with 2k zeros and not with 2k + 2, so the match of `^(00)*` halved is k |
| `ZeroCount.CountPairs` | sync.py:25 | the occurrences `str.count` finds take at most the whole string, two characters each |
| `ZeroCount.LeadingPairsIsLargest` | sync.py:22 | the rest starts with k copies of "00" if and only if k <= the leading count |
| `ZeroCount.GreedyOccurrences` | sync.py:25 | the positions `str.count` matches are non-overlapping occurrences of "00", as many as it counts |
| `ZeroCount.CountPairsIsMaximal` | sync.py:25 | no set of non-overlapping "00" occurrences is larger than `str.count`'s result |
| `ZeroCount.LeadingAtMostTotal` | sync.py:22-25 | every leading pair is counted by `str.count` too |
| `ZeroCount.IgnoresPrefix` | sync.py:18 | the first two characters never affect either count |
| `ZeroCount.AllZeroAddress` | sync.py:18-25 | when the rest is k "00" pairs, both counts are k, which is half the rest's length |
| `ZeroCount.CountExamples` | sync.py:25 | "000" has one occurrence and "0000" has two |
| `ZeroCount.AddressExample` | sync.py:16-27 | "0x00000000ab00cd" gives total 5, leading 4 |
| `ZeroCount.PairsThenTail` | sync.py:22-25 | k leading pairs in front of a tail add k to both of the tail's counts |
| `Text.TrimLeft` | sync.py:82 | the result is a suffix that does not start with whitespace of the given class, and everything cut off is such whitespace |
| `Text.TrimRight` | sync.py:82 | the result is a prefix that does not end with whitespace of the given class, and everything cut off is such whitespace |
| `Text.Strip` | sync.py:82 | the result is a slice of the line with only whitespace of the given class on either side of it, and it neither starts nor ends with such whitespace; with the class of `str.isspace` this is `line.strip()` |
| `Text.StripKeeps` | sync.py:82 | a string without whitespace at either end is unchanged by strip |
| `Text.StripDropsTrailing` | sync.py:82 | trailing whitespace such as the newline of a file line is removed |
| `Text.StripIdempotent` | sync.py:82 | stripping twice is stripping once |
| `Text.Split` | sync.py:83 | split always yields at least one part |
| `Text.SplitJoin` | sync.py:83 | joining the parts with " => " gives back the line, and no part contains " => " |
| `Text.SplitCutsLeftmost` | sync.py:83 | every part but the last ends at the leftmost " => " of the text that remains from it on |
| `Text.SplitUnique` | sync.py:83 | any parts that join to the line, contain no " => " and cut at the leftmost one each time are exactly the parts `split` returns |
| `Text.SplitThreeFields` | sync.py:83 | three blank-free fields joined by " => " split into exactly those three |
| `Text.ParseInt` | sync.py:86 | `int()` succeeds if and only if the text, with the whitespace `int()` skips removed from both ends, is an optional sign followed by one or more digits; the value is the digits' decimal value, negated after a minus sign |
| `Text.ParseLiteral` | sync.py:86 | the same for text with no whitespace around it |
| `Text.ParseLiteralForms` | sync.py:86 | a `+` sign and a leading zero leave the value unchanged; a `-` sign negates it |
| `Text.ParseIntStrips` | sync.py:86 | the whitespace `int()` skips (space, tab, newline, carriage return, vertical tab, form feed) never changes its result |
| `Text.ParseIntKeepsSeparators` | sync.py:82-86 | `int()` skips less than `str.strip()` removes: `"\x1c5"` strips to the literal `"5"`, yet `int()` rejects it |
| `Text.ParseShowInt` | sync.py:86 | `int(str(n)) == n` for every integer n |
| `Records.ParseLine` | sync.py:82-86 | no contract of its own; `DroppedIffNotThreeFields`, `BadRewardIff` and `ParsedRecordShape` state what it yields |
| `Records.BadRewardIff` | sync.py:83-86 | a line raises if and only if it has three fields and `int()` rejects the third; it yields a row if and only if it has three fields and `int()` accepts the third |
| `Records.DroppedIffNotThreeFields` | sync.py:82-83 | a line is dropped if and only if its stripped text does not split into three fields |
| `Records.ParsedRecordShape` | sync.py:82-86 | a row's salt and address are the first two fields exactly as split; its reward is `int()` of the third; its counts are `count_zeroes(address)`; its number is the line's |
| `Records.ParseFormattedLine` | sync.py:82-86 | a line written as salt => address => str(reward), plus trailing whitespace, yields exactly that row |
| `Records.TwoFieldsDropped` | sync.py:83 | a line with two fields yields nothing |
| `Resume.ResumePoint` | sync.py:35-38 | no contract of its own; `ResumeFromRows` and `ResumeAfterFailure` state the value for each outcome of the query |
| `Resume.Max` | sync.py:33 | `MAX(line_number)` is one of the caller's line numbers, and none of them is larger |
| `Resume.ResumeFromRows` | sync.py:33-35 | a NULL maximum (no rows) resumes from 0; otherwise the resume point is a stored line number and no stored number is larger |
| `Resume.ResumeAfterFailure` | sync.py:36-38 | a failed query resumes from 0 |
| `Batching.FirstLineNumber` | sync.py:71-79 | the first line's number is above `last_line_number + 1`, so the skip test `current_line <= last_line_number` fails for it and, the counter only growing, for every later line |
| `Batching.RunFrom` | sync.py:72-92 | no contract of its own; the lemmas `RunCompletes`, `RunCompletedCalls`, `RunAbortedStops` and `BatchCount` state what the loop hands over from a given line on |
| `Batching.Run` | sync.py:67-92 | no contract of its own; `RunCompletedWritesAll`, `RunAbortedWrites` and `SyncDriver.RunSyncWith` state what the whole run hands over |
| `Batching.Outcomes` | sync.py:77-86 | one outcome per line of the file |
| `Batching.OutcomeAt` | sync.py:78-86 | the line at index i is handled with number first + i |
| `Batching.FirstBad` | sync.py:86 | finds the first line in a range whose reward `int()` rejects, or reports that there is none |
| `Batching.RecordsStep` | sync.py:83-86 | a parsed line appends its row to the batch, and a dropped line leaves the batch unchanged |
| `Batching.RunCompletes` | sync.py:72-92 | the run completes if and only if no line of the file has a rejected reward |
| `Batching.RunCompletedCalls` | sync.py:72-92 | a completed run hands over the batch of every chunk, in order, then an empty batch |
| `Batching.RunAbortedStops` | sync.py:77-89 | a stopped run stops at the first rejected reward, having handed over the batches of the chunks before that line's chunk |
| `Batching.RunCompletedWritesAll` | sync.py:67-92 | a completed run makes ceil(n / 1000) + 1 calls, the last with an empty batch, and the non-empty batches together are all rows of the file in order |
| `Batching.RunAbortedWrites` | sync.py:77-89 | a stopped run has handed over exactly the rows of the complete chunks before the failing line |
| `Batching.CompleteChunksWritten` | sync.py:77-89 | the batches of the first k chunks, when complete, are handed to `sync_batch_to_db` as exactly the rows of their 1000 k lines |
| `Batching.RecordsBetweenLength` | sync.py:83-86 | a range of lines yields at most one row per line |
| `Batching.RecordsBetweenSplit` | sync.py:77-86 | the rows of two adjacent ranges are the rows of their union |
| `Batching.BatchCount` | sync.py:68-75 | there are ceil(n / 1000) chunks of n lines |
| `Batching.BatchSizeBound` | sync.py:68-86 | every batch handed over inside the loop holds at most 1000 rows |
| `Batching.FlattenBatches` | sync.py:77-89 | the chunks' batches together are the rows of all lines, in file order |
| `Batching.FlattenNonEmpty` | sync.py:43-44 | the empty-batch guard loses no rows |
| `Batching.ParseLineNumbers` | sync.py:71-86 | the row of the line at index i carries the number first + i |
| `Batching.RecordNumbers` | sync.py:77-86 | the rows of lines [lo, hi) carry numbers in [first + lo, first + hi), strictly increasing |
| `SyncDriver.BatchSink.SyncBatch` | sync.py:42-44 | an empty batch is ignored; any other batch is appended to what was written |
| `SyncDriver.ReadChunk` | sync.py:77-86 | the inner loop either handles the whole chunk, adding its rows to the batch and finding no rejected reward, or stops at the first rejected reward with the counter on that line |
| `SyncDriver.SyncChunk` | sync.py:77-89 | one pass over a non-empty chunk continues the reference run, reset and sink included |
| `SyncDriver.SyncNextChunk` | sync.py:73-89 | an empty `islice` ends the loop at the end of the file; otherwise the pass continues the reference run |
| `SyncDriver.RunSyncWith` | sync.py:64-92 | for any per-line step, the calls and outcome are those of `Batching.Run`, and the sink holds the non-empty calls |
| `SyncDriver.RunSync` | sync.py:64-92 | the loop with the script's own per-line step is `Batching.Run` over the file's outcomes |
| `SyncDriver.ResumedRecordsAreNew` | sync.py:64-86 | after resuming, every row is numbered above the resume point and every stored line number, in increasing order |

## Left out

- `sync_batch_to_db`'s database work (sync.py:46-62) is left out: the
  connection pool, the INSERT statements, `IntegrityError` and
  rollback/commit, and the handling of other exceptions. It is foreign
  library behaviour, and the table's schema is not part of this model.
  `BatchSink` keeps every non-empty batch it is given, so per-row conflicts
  and abandoned batches are not modelled.
- The query of `get_last_line_number` (sync.py:30-40) is a parameter,
  `Resume.QueryOutcome`. `Resume.SelectMax` describes what `MAX` returns over
  the caller's rows. `QueryFailed` stands for an error of the query itself
  (sync.py:33-35). A failure of `conn_pool.getconn()` or `conn.cursor()`
  (sync.py:30-31) happens outside the `try`, is not caught and ends the
  script; that path is not modelled.
- File I/O and `islice` (sync.py:70-73) are left out. The file is a sequence
  of lines, and `islice` is a slice of at most 1000 of them.
- Environment variables and logging (sync.py:10-14, 37, 58, 60, 65) are left
  out: they are configuration and output.
- `Text.IsSpace` covers only the ASCII whitespace of Python's `str.isspace`.
  Unicode whitespace such as U+0085 and U+00A0 is not modelled.
- `Text.IsIntSpace` covers only the ASCII whitespace `int()` skips. In text
  with non-ASCII characters `int()` also treats Unicode whitespace as
  whitespace; that case is not modelled.
- `Text.ParseInt` accepts the ASCII whitespace `int()` skips, a sign and
  ASCII digits.
  Underscores between digits and non-ASCII digits, which Python's `int()`
  also accepts, are not modelled.
- `Text.ParseInt` has no limit on the number of digits. Python 3.11 and
  later raise `ValueError` from `int()` on a string of more than 4300 digits;
  that limit is not modelled.
- `ZeroCount.LeadingPairs` models the greedy match of `^(00)*` directly, not a
  general regular-expression engine.
- `Resume.ResumePoint`, `Records.ParseLine`, `Batching.RunFrom` and
  `Batching.Run` have no contracts of their own. What they promise is stated
  by the lemmas about them.
- What happens after `int()` raises (sync.py:86) is not modelled: the
  traceback and the end of the process. The run ends with `Aborted`, and the
  rows pending in the current chunk are dropped.
