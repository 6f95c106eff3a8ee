# dset_generator, modelled in Dafny

`dset_generator_v02.py` builds a dataset of answers from a reasoning model.
It does this one question at a time, over the rows of `q.csv`. This project
models the part of the script that decides what happens: the resume scan, the
per-question retry policy, the batch loop with its in-band `ERROR` bookmark,
and `save_to_files`.

Modules:

- **PyStr** (`strings.dfy`): Python's `str.strip()` over the character set for
  which `str.isspace()` holds. It is the only text operation the script
  applies to table cells.
- **Records** (`records.dfy`): `save_to_files`.
  - One `data_row` becomes one line of `output.csv`, five writes to
    `output.txt` and one JSON line in `output.json`.
  - Each sink is an append-only sequence. `output.csv` also has a flag saying
    whether it exists.
  - `SaveAll` is `save_to_files` called on a list of data rows in turn.
- **Bookmark** (`bookmark.dfy`) covers the `ERROR` marker in column 1:
  - the resume scan (`FindResumePoint`, specified by `ResumeIndex`);
  - the exact-match clearing after a success (`ClearMarker`);
  - the append-or-overwrite marking after the last failure (`MarkError`).
- **RetryPolicy** (`retry.dfy`): `max_retries = 3` and the backoff
  `60 * 2 ** retry_count`.
- **Batch** (`batch.dfy`): the driver.
  - The imperative model mirrors the source's loops. `Drive` is the
    `for i in range(start_index, len(rows))` loop over an array of rows.
    `AskWithRetries` is the inner `while retry_count <= max_retries` loop.
    `Generate` runs the resume scan and then `Drive`.
  - Each method is proved equal to a functional specification: `RunFrom`
    for the outer loop, `Attempt` and `LastCall` for the inner loop.
  - The lemmas about the specification state what the script promises.

How the outside world is modelled:

- **The API.** The model is an oracle `api: nat -> Reply`: the k-th call of
  the run gets `api(k)`. That reply is either `Failed` (any exception inside
  the `try`) or `Answered(reasoning, answer, timestamp)`. The timestamp is the
  `datetime.now()` reading taken for that answer.
- **The run state.** The run keeps the rows in memory, the data rows handed to
  `save_to_files`, and every full rewrite of `q.csv` as a snapshot
  `[header] + rows`. It also keeps the sleeps, in seconds, and the number of
  API calls made.
- **How a run ends.** It goes through every row (`Running`). Or it bookmarks
  row `i` and exits (`Bookmarked(i)`). Or it reaches a row with no field at
  all: line 78 then raises an uncaught `IndexError` (`Crashed(i)`).
- **The question cell.** `RunFrom` takes the normaliser of the question cell
  as a parameter `strip`. `Drive` and `Generate` pass `PyStr.Strip`, and every
  lemma about `RunFrom` holds for any normaliser.

Three facts about the code that shape the model:

- The resume scan strips the marker (line 28), but the clearing after a
  success compares exactly (line 108). So a padded `" ERROR"` is resumed from
  and never cleared (`PaddedMarkerSurvivesClear`). Nothing in the script keeps
  the table to one bookmark.
- A success rewrites `q.csv` only when it cleared an exact marker, not after
  every answered question.
- A row with no field stops the run with an `IndexError` rather than being
  skipped.

## Model

| member | source | states |
|---|---|---|
| PyStr.TrimStart | dset_generator_v02.py:78 | The leading-whitespace half of `strip` is never longer than its input, and its result is empty or starts with a non-space. |
| PyStr.TrimEnd | dset_generator_v02.py:78 | The trailing-whitespace half of `strip` is never longer than its input, and its result is empty or ends with a non-space. |
| PyStr.Strip | dset_generator_v02.py:28 | `s.strip()`, as applied to the marker cell (line 28) and the question cell (line 78), is never longer than `s` and has no whitespace at either end. |
| PyStr.TrimStartSpec | dset_generator_v02.py:78 | The leading-whitespace part of `strip`: the result is a suffix of the input. What it drops is all whitespace. The result is empty or starts with a non-space. |
| PyStr.TrimEndSpec | dset_generator_v02.py:78 | The trailing-whitespace part of `strip`: the result is a prefix of the input. What it drops is all whitespace. The result is empty or ends with a non-space. |
| PyStr.StripSlice | dset_generator_v02.py:28 | `s.strip()` is one contiguous slice `s[a..b]`. Everything outside it is whitespace, and it neither starts nor ends with whitespace. |
| PyStr.StripEmptyIff | dset_generator_v02.py:78-80 | A question cell strips to the empty string exactly when it is all whitespace, in both directions; this is the test that skips a row. |
| PyStr.StripIdempotent | dset_generator_v02.py:78 | Stripping twice is stripping once. |
| PyStr.StripUnpadded | dset_generator_v02.py:28 | A string with no whitespace at either end, such as the marker `ERROR`, is its own strip. |
| Records.Dashes | dset_generator_v02.py:58 | `"-" * n` has length `n` and every character is `-`. |
| Records.CsvLine | dset_generator_v02.py:46-49 | The CSV line holds timestamp, question, thoughts and final answer in the order of the DictWriter field names. Reading it back under those names gives the data row again. |
| Records.TxtBlock | dset_generator_v02.py:54-58 | One question makes exactly five writes to `output.txt`, and the fifth is the separator: 50 dashes and a blank line. |
| Records.TxtBlockShape | dset_generator_v02.py:54-58 | There are five text writes: four lines, each with its own label followed by the row's value and ending in a newline, then 50 dashes and a blank line. The value after each label is the row's field. |
| Records.TxtBlocksAt | dset_generator_v02.py:53-58 | In the text writes for a list of rows, block `k` (writes `5k` to `5k+4`) is exactly the block of row `k`. |
| Records.JsonOf | dset_generator_v02.py:63-72 | The JSON record's `metadata.timestamp`, `metadata.question`, `response.reasoning` and `response.answer` carry the data row's timestamp, question, thoughts and final answer, so the data row can be read back from the record. |
| Records.SaveToFiles | dset_generator_v02.py:41-73 | One call only appends to the sinks: `output.csv` then exists and gains one line (two if it did not exist before, the first then being the header), and its last line is the row's CSV line. `output.txt` gains five writes. `output.json` gains exactly one line, which reads back as the data row. |
| Records.SaveAll | dset_generator_v02.py:41-73 | After `save_to_files` on each of a list of rows, `output.csv` exists exactly when it existed before or the list is non-empty. |
| Records.SaveAllCsv | dset_generator_v02.py:43-49 | `output.csv` gains one line per data row, in order. The header is written exactly once, and only if the file did not exist before the first call. |
| Records.SaveAllTxt | dset_generator_v02.py:52-58 | `output.txt` gains one five-write block per data row, in order, and nothing else. |
| Records.SaveAllJson | dset_generator_v02.py:61-73 | `output.json` gains one record per data row, in order, and nothing else. |
| Records.SaveAllAppends | dset_generator_v02.py:41-73 | The three sinks together after `save_to_files` has been called on each row of a list: pure appends, one entry per row, with the CSV header once. |
| Bookmark.IsBookmarked | dset_generator_v02.py:28 | The resume scan's test itself, `len(row) >= 2 and row[1].strip() == "ERROR"`. It is a predicate with no contract of its own; the lemmas below state what it means. |
| Bookmark.FirstBookmark | dset_generator_v02.py:26-30 | The first-match search, when it finds something, returns a row inside the table that is bookmarked. |
| Bookmark.ResumeIndex | dset_generator_v02.py:26-30 | `start_index` lies inside a non-empty table, and when it is not the default 0 that row is bookmarked. |
| Bookmark.FirstBookmarkIsLeast | dset_generator_v02.py:26-30 | The first-match search returns a bookmarked row with no bookmarked row before it. When it finds nothing, no row is bookmarked. |
| Bookmark.ResumeIndexSpec | dset_generator_v02.py:26-31 | `start_index` lies in the table (it is 0 for an empty one). No earlier row is bookmarked. Some row is bookmarked if and only if the row at `start_index` is. With no bookmarked row, `start_index` is 0. |
| Bookmark.ResumeAtMost | dset_generator_v02.py:27-30 | Any bookmarked row bounds `start_index` from above. |
| Bookmark.FindResumePoint | dset_generator_v02.py:26-31 | The scan loop with `break` returns the least row whose field 1, stripped, is `ERROR`, or 0 if there is none. It also returns `total_questions = len(rows) - start_index`. |
| Bookmark.ClearMarker | dset_generator_v02.py:107-109 | Clearing keeps the row's length and every other field. It changes the row if and only if field 1 is exactly `ERROR`, which it then sets to the empty string. |
| Bookmark.MarkError | dset_generator_v02.py:127-130 | Marking appends `ERROR` to a one-field row and overwrites field 1 of a longer row; all other fields are kept. |
| Bookmark.MarkErrorBookmarks | dset_generator_v02.py:127-130 | A row marked after the last failure is one the resume scan (line 28) stops at. |
| Bookmark.MarkerIsBookmark | dset_generator_v02.py:28 | A field 1 that is exactly `ERROR` is a bookmark for the resume scan. |
| Bookmark.PaddedMarkerSurvivesClear | dset_generator_v02.py:107-108 | Every bookmark whose field 1 is not exactly `ERROR` (the resume scan strips, line 28) is left unchanged by the clearing after a success, so it is still a bookmark. The row `["q", " ERROR"]` is one. |
| RetryPolicy.Backoff | dset_generator_v02.py:121 | No wait before a retry is shorter than one minute. |
| RetryPolicy.BackoffsSnoc | dset_generator_v02.py:120-124 | Each further retry appends its own wait to the sleep schedule. |
| RetryPolicy.BackoffDoubles | dset_generator_v02.py:121 | The first wait is 60 seconds, each wait doubles the one before, and no wait is shorter than 60 seconds. |
| RetryPolicy.FullSchedule | dset_generator_v02.py:82-124 | With `max_retries = 3`, the waits before retries 1, 2 and 3 are exactly 60, 120 and 240 seconds. |
| Batch.Answer | dset_generator_v02.py:97-116 | A success appends one data row and clears an exact marker in the current row, leaving every other row alone. It rewrites `q.csv` (header and the new table) exactly when that clearing changed the row. It leaves the status, the calls and the sleeps alone. |
| Batch.GiveUp | dset_generator_v02.py:126-139 | Giving up marks the current row, rewrites `q.csv` once with the header and the new table, and ends the run bookmarked at that row. It writes no data row. |
| Batch.LastCall | dset_generator_v02.py:84-124 | Given its current retry count, a question ends at the first answered call or after its last retry. Every call before that one failed. |
| Batch.Attempt | dset_generator_v02.py:82-139 | One question keeps the table's length and the row's question cell. It changes no other row, and it either succeeds or bookmarks its own row. |
| Batch.AttemptOutcome | dset_generator_v02.py:84-115 | The question succeeds exactly when its last call answered. |
| Batch.AttemptWritten | dset_generator_v02.py:96-104 | On success the question writes exactly one data row: the last reply's timestamp, reasoning and answer with the stripped question. On giving up it writes nothing. |
| Batch.AttemptRows | dset_generator_v02.py:107-130 | On success the only table change is clearing an exact marker in the current row. On giving up the only change is marking the current row. |
| Batch.AttemptSaves | dset_generator_v02.py:107-136 | `q.csv` is rewritten once, as the header followed by the new table, exactly when the table changed: once on giving up, or on success if an exact marker was cleared. Otherwise the table is unchanged. |
| Batch.AttemptCalls | dset_generator_v02.py:82-124 | A question makes one to four calls, and exactly four when it gives up. It sleeps once before each call except the first. |
| Batch.QuestionSchedule | dset_generator_v02.py:82-124 | Every call but the last failed. Giving up takes four calls and the sleeps 60, 120, 240, with no sleep after the fourth failure. A success has slept the matching prefix of that schedule. |
| Batch.RunFrom | dset_generator_v02.py:76-142 | The run keeps the table's length. It stops at a row in `i..len(rows)`, and one past the table only when it went through every row. |
| Batch.RunSkips | dset_generator_v02.py:78-80 | A row whose question strips to the empty string is passed over: the run from it equals the run from the next row, so it costs no call, no sleep, no output and no rewrite. |
| Batch.RunEndsAtBookmark | dset_generator_v02.py:126-142 | A question that gives up ends the run bookmarked at its row, and the run's final state is exactly the state that question left. No later row costs a call, a sleep, an output or a rewrite. |
| Batch.RunStops | dset_generator_v02.py:76-78 | Every row the run passes has a field. A crash happens at a row with no field and leaves that row alone. |
| Batch.RunBookmarks | dset_generator_v02.py:126-139 | A run that bookmarks a row stops at a row it asked about. That row now carries the marker. |
| Batch.RunRowsOutside | dset_generator_v02.py:76 | Rows before the resume point and rows after the stop row are untouched. |
| Batch.RunRowsCleared | dset_generator_v02.py:78-109 | Each row before the stop row that was asked about loses an exact marker and nothing else. Rows whose question strips to empty are untouched. |
| Batch.RunRows | dset_generator_v02.py:76-139 | The whole table after a run, combining the four lemmas above. Rows after the stop row are untouched. RunEndsAtBookmark states that no row after the stop row is attempted at all. |
| Batch.RunKeepsWritten | dset_generator_v02.py:104 | A run keeps the data rows written before it. |
| Batch.RunWritten | dset_generator_v02.py:76-104 | In row order, the new data rows carry the stripped questions of exactly the rows asked about before the stop row. Skipped rows produce no output. |
| Batch.RunKeepsSaves | dset_generator_v02.py:107-136 | A run keeps the earlier rewrites of `q.csv`. |
| Batch.RunSaveCount | dset_generator_v02.py:107-136 | `q.csv` is rewritten once per asked row that carried an exact marker, plus once if the run bookmarks a row. |
| Batch.RunCalls | dset_generator_v02.py:78-124 | Totals over a run: with `n` rows asked about before the stop row and `g` = 1 when the run ends bookmarked (else 0), the run makes between `n + 4g` and `4n + 4g` calls. It sleeps exactly once per call, minus one per asked row and one for the bookmark. The per-row facts are RunSkips and RunEndsAtBookmark. |
| Batch.RunSavesInSync | dset_generator_v02.py:110-136 | `q.csv` always matches the table in memory. A run that rewrote nothing left the table as it was; otherwise the last rewrite is the header followed by the final table. |
| Batch.SinksCarryQuestions | dset_generator_v02.py:41-73 | After `save_to_files` on a list of data rows, the k-th new JSON record and the k-th new CSV line carry the k-th row's question. The text sink gains five writes per row. |
| Batch.RunOutputs | dset_generator_v02.py:76-104 | Each sink gains one entry per question asked before the stop row, in row order, carrying that question. The CSV header is added only if `output.csv` did not exist and something was written. |
| Batch.ResumeAfterBookmark | dset_generator_v02.py:26-30 | After a run that bookmarked row `k`, the next run's resume point lies between this run's resume point and `k`, and row `k` is a bookmark. |
| Batch.ResumeExactlyAtBookmark | dset_generator_v02.py:26-30 | If every bookmark the run passed was an exact marker on a row with a question, the next run resumes exactly at the bookmarked row. |
| Batch.AskWithRetries | dset_generator_v02.py:82-139 | The imperative retry loop over the array of rows leaves exactly the state that `Attempt` specifies. The sinks hold what `save_to_files` made of each data row, and `processed` holds exactly when no bookmark was set. So the `if not processed: exit()` guard at line 141 only follows a bookmark. |
| Batch.Drive | dset_generator_v02.py:76-142 | The imperative outer loop leaves the table, rewrites, sleeps, calls and exit status that `RunFrom` gives. The sinks hold `save_to_files` applied to the data rows written. |
| Batch.Generate | dset_generator_v02.py:26-142 | The script after reading `q.csv`: the resume scan and then the main loop from `ResumeIndex`. |

## Left out

- The OpenAI client, the API key and the HTTP request (lines 6-16, 91-94) are
  foreign calls. They are the oracle `api`, whose k-th reply is any `Reply`.
- The model treats every reply as strings. It does not model a reply whose
  `reasoning_content` is `None`.
- Reading `q.csv` (lines 19-24) is not modelled. The model starts from the
  header and rows already read.
- A missing `q.csv` (lines 33-35) and the `StopIteration` that `next(reader)`
  raises on an empty file (line 22) are not modelled for the same reason.
- `os.makedirs` (line 39) is not modelled, and `os.path.isfile` is the
  `csvExists` flag of `Outputs`.
- CSV quoting and `json.dumps` escaping are library serialisers. Records are
  modelled as sequences of fields and as a nested datatype, not as bytes.
- File writes never fail in the model. In the source, an exception raised by
  `save_to_files` or by the `q.csv` rewrite inside the `try` would be caught.
  It would then count as a failed attempt, even after a data row had already
  been appended.
- `time.sleep` becomes a logged duration, and `datetime.now` comes with the
  answered reply (lines 98, 123).
- Progress and error messages (`print`, lines 88, 105, 119, 122, 138,
  144-145) are not modelled.
- `exit()` at lines 139 and 142 ends the run with status `Bookmarked`; the
  model does not terminate a process.
