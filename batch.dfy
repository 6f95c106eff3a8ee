/** The batch driver of `dset_generator_v02.py`: walk the question rows from
    the resume point, ask the model about each non-empty question with up to
    four attempts, fan each answer out to the sinks, and keep the bookmark of
    `q.csv` up to date, stopping the run at the first question that fails
    four times in a row. */
module Batch {
  import opened PyStr
  import opened Records
  import opened Bookmark
  import opened RetryPolicy

  /** What the k-th API call of a run gives back: an exception, or the model's
      reasoning and answer together with the clock reading taken for them. */
  datatype Reply = Failed | Answered(reasoning: string, answer: string, timestamp: string)

  /** How the run ended: it went through every row, it bookmarked a row and
      exited, or a row with no field at all raised an IndexError. */
  datatype Status = Running | Bookmarked(row: nat) | Crashed(row: nat)

  /** Everything the run changes: the rows held in memory, the data rows
      handed to `save_to_files`, the full rewrites of `q.csv` (header and
      rows), the sleeps, and the number of API calls made so far. */
  datatype Run = Run(rows: seq<seq<string>>, written: seq<DataRow>,
                     saves: seq<seq<seq<string>>>, sleeps: seq<nat>,
                     calls: nat, status: Status)

  function Start(rows: seq<seq<string>>): Run
  {
    Run(rows, [], [], [], 0, Running)
  }

  /** The file image written when `q.csv` is rewritten. */
  function Snapshot(header: seq<string>, rows: seq<seq<string>>): seq<seq<string>>
  {
    [header] + rows
  }

  /** The success branch of the `try` (lines 97-116): one data row for the
      sinks, and an exact marker in field 1 cleared with `q.csv` rewritten. */
  function Answer(header: seq<string>, st: Run, i: nat, d: DataRow): (r: Run)
    requires i < |st.rows|
    ensures r.rows == st.rows[i := ClearMarker(st.rows[i])]
    ensures r.written == st.written + [d]
    ensures r.saves == if ClearMarker(st.rows[i]) == st.rows[i] then st.saves else st.saves + [Snapshot(header, r.rows)]
    ensures r.status == st.status && r.calls == st.calls && r.sleeps == st.sleeps
  {
    var row := st.rows[i];
    if |row| >= 2 && row[1] == Marker then
      var rows := st.rows[i := row[1 := ""]];
      st.(rows := rows, written := st.written + [d], saves := st.saves + [Snapshot(header, rows)])
    else
      st.(written := st.written + [d])
  }

  /** The last failure (lines 126-139): the row gets the marker, `q.csv` is
      rewritten and the process exits. */
  function GiveUp(header: seq<string>, st: Run, i: nat): (r: Run)
    requires i < |st.rows| && |st.rows[i]| > 0
    ensures r.rows == st.rows[i := MarkError(st.rows[i])]
    ensures r.saves == st.saves + [Snapshot(header, r.rows)]
    ensures r.status == Bookmarked(i)
    ensures r.written == st.written && r.calls == st.calls && r.sleeps == st.sleeps
  {
    var rows := st.rows[i := MarkError(st.rows[i])];
    st.(rows := rows, saves := st.saves + [Snapshot(header, rows)], status := Bookmarked(i))
  }

  /** The call that ends a question whose next call is the `k`-th of the run,
      entered with `retryCount` failures behind it: the first call that
      answers, or the call after which no retry is left. */
  function LastCall(api: nat -> Reply, k: nat, retryCount: nat): (r: nat)
    requires retryCount <= MaxRetries
    ensures k <= r <= k + MaxRetries - retryCount
    ensures forall j :: k <= j < r ==> api(j) == Failed
    ensures api(r).Answered? || r == k + MaxRetries - retryCount
    decreases MaxRetries - retryCount
  {
    if api(k).Answered? || retryCount == MaxRetries then k else LastCall(api, k + 1, retryCount + 1)
  }

  /** The inner `while retry_count <= max_retries` loop for row `i` and its
      stripped question `q`: the calls up to the one that ends the question,
      a sleep before each retry, then the success or the give-up branch. */
  function Attempt(header: seq<string>, api: nat -> Reply, st: Run, i: nat, q: string): (r: Run)
    requires st.status == Running && i < |st.rows| && |st.rows[i]| > 0
    ensures |r.rows| == |st.rows| && |r.rows[i]| > 0 && r.rows[i][0] == st.rows[i][0]
    ensures forall j :: 0 <= j < |st.rows| && j != i ==> r.rows[j] == st.rows[j]
    ensures r.status == Running || r.status == Bookmarked(i)
  {
    var last := LastCall(api, st.calls, 0);
    var st1 := st.(calls := last + 1, sleeps := st.sleeps + Backoffs(0, last - st.calls));
    match api(last)
    case Answered(thoughts, answer, timestamp) =>
      Answer(header, st1, i, DataRow(timestamp, q, thoughts, answer))
    case Failed =>
      GiveUp(header, st1, i)
  }

  /** Attempt when the question ends with an answer at call `last`. */
  lemma AttemptAnsweredAt(header: seq<string>, api: nat -> Reply, st: Run, i: nat, q: string, last: nat)
    requires st.status == Running && i < |st.rows| && |st.rows[i]| > 0
    requires last == LastCall(api, st.calls, 0) && api(last).Answered?
    ensures Attempt(header, api, st, i, q) ==
      Answer(header, st.(calls := last + 1, sleeps := st.sleeps + Backoffs(0, last - st.calls)), i,
             DataRow(api(last).timestamp, q, api(last).reasoning, api(last).answer))
  {
  }

  /** Attempt when the question gives up after call `last`. */
  lemma AttemptGaveUpAt(header: seq<string>, api: nat -> Reply, st: Run, i: nat, q: string, last: nat)
    requires st.status == Running && i < |st.rows| && |st.rows[i]| > 0
    requires last == LastCall(api, st.calls, 0) && api(last).Failed?
    ensures Attempt(header, api, st, i, q) ==
      GiveUp(header, st.(calls := last + 1, sleeps := st.sleeps + Backoffs(0, last - st.calls)), i)
  {
  }

  /** The outer `for i in range(start_index, len(rows))` loop from row `i` on.
      `strip` is the normaliser applied to the question cell; the script uses
      `str.strip` (PyStr.Strip, which Drive and Generate pass), and the lemmas
      about RunFrom hold whatever it is. */
  function RunFrom(header: seq<string>, api: nat -> Reply, strip: string -> string, st: Run, i: nat): (r: Run)
    requires st.status == Running && i <= |st.rows|
    ensures |r.rows| == |st.rows|
    ensures i <= StopRow(|st.rows|, r.status) <= |st.rows|
    ensures r.status == Running || StopRow(|st.rows|, r.status) < |st.rows|
    decreases |st.rows| - i
  {
    if i == |st.rows| then st
    else if |st.rows[i]| == 0 then st.(status := Crashed(i))
    else
      var q := strip(st.rows[i][0]);
      if q == "" then RunFrom(header, api, strip, st, i + 1)
      else
        var next := Attempt(header, api, st, i, q);
        if next.status != Running then next else RunFrom(header, api, strip, next, i + 1)
  }

  /** The row at which a finished run stopped: one past the table when it
      went through every row. */
  function StopRow(n: nat, s: Status): nat
  {
    match s
    case Running => n
    case Bookmarked(k) => k
    case Crashed(k) => k
  }

  /** Does the main loop ask the model about this row? */
  predicate Asks(strip: string -> string, row: seq<string>)
  {
    |row| > 0 && strip(row[0]) != ""
  }

  /** The stripped questions of the rows in `rows[i..stop]` that the loop asks about. */
  function Pending(strip: string -> string, rows: seq<seq<string>>, i: nat, stop: nat): seq<string>
    requires i <= stop <= |rows|
    decreases stop - i
  {
    if i == stop then []
    else if Asks(strip, rows[i]) then [strip(rows[i][0])] + Pending(strip, rows, i + 1, stop)
    else Pending(strip, rows, i + 1, stop)
  }

  /** How many rows of `rows[i..stop]` that the loop asks about carry exactly the marker. */
  function ExactMarks(strip: string -> string, rows: seq<seq<string>>, i: nat, stop: nat): nat
    requires i <= stop <= |rows|
    decreases stop - i
  {
    if i == stop then 0
    else (if Asks(strip, rows[i]) && ClearMarker(rows[i]) != rows[i] then 1 else 0) + ExactMarks(strip, rows, i + 1, stop)
  }

  /** The question column of a sequence of data rows. */
  function Questions(ds: seq<DataRow>): seq<string>
  {
    seq(|ds|, k requires 0 <= k < |ds| => ds[k].question)
  }

  /** One question ends with the call LastCall picks: in success exactly
      when that call answered. */
  lemma AttemptOutcome(header: seq<string>, api: nat -> Reply, st: Run, i: nat, q: string)
    requires st.status == Running && i < |st.rows| && |st.rows[i]| > 0
    ensures var r := Attempt(header, api, st, i, q);
      r.calls == LastCall(api, st.calls, 0) + 1 &&
      (r.status == Running <==> api(r.calls - 1).Answered?)
  {
  }

  /** One question writes one data row, holding the stripped question and
      the reply of its last call, when it succeeds, and none when it gives up. */
  lemma AttemptWritten(header: seq<string>, api: nat -> Reply, st: Run, i: nat, q: string)
    requires st.status == Running && i < |st.rows| && |st.rows[i]| > 0
    ensures var r := Attempt(header, api, st, i, q);
      var last := r.calls - 1;
      last >= 0 &&
      (r.status == Running ==>
        api(last).Answered? &&
        r.written == st.written + [DataRow(api(last).timestamp, q, api(last).reasoning, api(last).answer)]) &&
      (r.status == Bookmarked(i) ==> r.written == st.written)
  {
  }

  /** One question changes only row `i` of the table: on success an exact
      marker in field 1 becomes empty and nothing else changes; on giving up
      the row gets the marker. */
  lemma AttemptRows(header: seq<string>, api: nat -> Reply, st: Run, i: nat, q: string)
    requires st.status == Running && i < |st.rows| && |st.rows[i]| > 0
    ensures var r := Attempt(header, api, st, i, q);
      (r.status == Running ==> r.rows == st.rows[i := ClearMarker(st.rows[i])]) &&
      (r.status == Bookmarked(i) ==> r.rows == st.rows[i := MarkError(st.rows[i])])
  {
    var r := Attempt(header, api, st, i, q);
    var row := st.rows[i];
    if r.status == Running && !(|row| >= 2 && row[1] == Marker) {
      assert st.rows[i := ClearMarker(row)] == st.rows;
    }
  }

  /** One question rewrites `q.csv` exactly when it changed the table: once
      on success if it cleared a marker, once when it gives up; the image
      written is the header followed by the new table. */
  lemma AttemptSaves(header: seq<string>, api: nat -> Reply, st: Run, i: nat, q: string)
    requires st.status == Running && i < |st.rows| && |st.rows[i]| > 0
    ensures var r := Attempt(header, api, st, i, q);
      var changed := r.status == Bookmarked(i) || ClearMarker(st.rows[i]) != st.rows[i];
      r.saves == st.saves + (if changed then [Snapshot(header, r.rows)] else []) &&
      (!changed ==> r.rows == st.rows)
  {
    AttemptRows(header, api, st, i, q);
  }

  /** One question makes one to four calls, four when it gives up, and
      sleeps once before each call but the first. */
  lemma AttemptCalls(header: seq<string>, api: nat -> Reply, st: Run, i: nat, q: string)
    requires st.status == Running && i < |st.rows| && |st.rows[i]| > 0
    ensures var r := Attempt(header, api, st, i, q);
      st.calls < r.calls <= st.calls + MaxRetries + 1 &&
      (r.status == Bookmarked(i) ==> r.calls == st.calls + MaxRetries + 1) &&
      |r.sleeps| == |st.sleeps| + (r.calls - st.calls - 1)
  {
  }

  /** The retry policy for one question: at most four calls, every one but
      the last failed; a question that gives up has made exactly four calls and
      slept 60, 120 and 240 seconds; one that succeeds has slept a prefix of
      that schedule, one sleep per failed call. */
  lemma QuestionSchedule(header: seq<string>, api: nat -> Reply, st: Run, i: nat, q: string)
    requires st.status == Running && i < |st.rows| && |st.rows[i]| > 0
    ensures var r := Attempt(header, api, st, i, q);
      st.calls < r.calls <= st.calls + MaxRetries + 1 &&
      (forall j :: st.calls <= j < r.calls - 1 ==> api(j) == Failed) &&
      (r.status == Bookmarked(i) ==>
         r.calls == st.calls + 4 && r.sleeps == st.sleeps + [60, 120, 240]) &&
      (r.status == Running ==>
         r.sleeps == st.sleeps + [60, 120, 240][..r.calls - st.calls - 1])
  {
    FullSchedule();
    var r := Attempt(header, api, st, i, q);
    assert Backoffs(0, r.calls - st.calls - 1) == Backoffs(0, MaxRetries)[..r.calls - st.calls - 1];
  }

  /** A row whose question strips to the empty string is passed over: the
      run from it is the run from the next row, so it costs no call, no
      sleep, no output and no rewrite. */
  lemma RunSkips(header: seq<string>, api: nat -> Reply, strip: string -> string, st: Run, i: nat)
    requires st.status == Running && i < |st.rows| && |st.rows[i]| > 0 && strip(st.rows[i][0]) == ""
    ensures RunFrom(header, api, strip, st, i) == RunFrom(header, api, strip, st, i + 1)
  {
  }

  /** A question that gives up ends the run: the run's final state is the
      state that question left, so no later row costs a call, a sleep, an
      output or a rewrite. */
  lemma RunEndsAtBookmark(header: seq<string>, api: nat -> Reply, strip: string -> string, st: Run, i: nat)
    requires st.status == Running && i < |st.rows| && |st.rows[i]| > 0 && strip(st.rows[i][0]) != ""
    requires Attempt(header, api, st, i, strip(st.rows[i][0])).status != Running
    ensures RunFrom(header, api, strip, st, i) == Attempt(header, api, st, i, strip(st.rows[i][0]))
    ensures RunFrom(header, api, strip, st, i).status == Bookmarked(i)
  {
  }

  /** Every row a run from row `i` passes has a field, and a crash happens at
      a row with no field and leaves it alone. */
  lemma {:induction false} RunStops(header: seq<string>, api: nat -> Reply, strip: string -> string, st: Run, i: nat)
    requires st.status == Running && i <= |st.rows|
    ensures var r := RunFrom(header, api, strip, st, i);
      var stop := StopRow(|st.rows|, r.status);
      (forall j :: i <= j < stop ==> |st.rows[j]| > 0) &&
      (r.status.Crashed? ==> |st.rows[stop]| == 0 && r.rows[stop] == st.rows[stop])
    decreases |st.rows| - i
  {
    if i < |st.rows| && |st.rows[i]| > 0 {
      var q := strip(st.rows[i][0]);
      if q == "" {
        RunStops(header, api, strip, st, i + 1);
      } else {
        var next := Attempt(header, api, st, i, q);
        if next.status == Running {
          RunStops(header, api, strip, next, i + 1);
        }
      }
    }
  }

  /** A run that bookmarks a row stops at a row the loop asked about, and that
      row now carries the marker. */
  lemma {:induction false} RunBookmarks(header: seq<string>, api: nat -> Reply, strip: string -> string, st: Run, i: nat)
    requires st.status == Running && i <= |st.rows|
    ensures var r := RunFrom(header, api, strip, st, i);
      r.status.Bookmarked? ==>
        var stop := r.status.row;
        i <= stop < |st.rows| && Asks(strip, st.rows[stop]) && r.rows[stop] == MarkError(st.rows[stop])
    decreases |st.rows| - i
  {
    if i < |st.rows| && |st.rows[i]| > 0 {
      var q := strip(st.rows[i][0]);
      if q == "" {
        RunBookmarks(header, api, strip, st, i + 1);
      } else {
        var next := Attempt(header, api, st, i, q);
        AttemptRows(header, api, st, i, q);
        if next.status == Running {
          RunBookmarks(header, api, strip, next, i + 1);
        }
      }
    }
  }

  /** A run from row `i` leaves the rows before `i` and after its stop row untouched. */
  lemma {:induction false} RunRowsOutside(header: seq<string>, api: nat -> Reply, strip: string -> string, st: Run, i: nat)
    requires st.status == Running && i <= |st.rows|
    ensures var r := RunFrom(header, api, strip, st, i);
      var stop := StopRow(|st.rows|, r.status);
      forall j :: 0 <= j < |st.rows| && (j < i || stop < j) ==> r.rows[j] == st.rows[j]
    decreases |st.rows| - i
  {
    if i < |st.rows| && |st.rows[i]| > 0 {
      var q := strip(st.rows[i][0]);
      if q == "" {
        RunRowsOutside(header, api, strip, st, i + 1);
      } else {
        var next := Attempt(header, api, st, i, q);
        if next.status == Running {
          var r := RunFrom(header, api, strip, next, i + 1);
          RunRowsOutside(header, api, strip, next, i + 1);
          forall j | 0 <= j < |st.rows| && (j < i || StopRow(|st.rows|, r.status) < j)
            ensures r.rows[j] == st.rows[j]
          {
            assert r.rows[j] == next.rows[j];
          }
        }
      }
    }
  }

  /** Each row before the stop row that the loop asks about loses an exact
      marker in field 1 and nothing else; the rows it skips are untouched. */
  lemma {:induction false} RunRowsCleared(header: seq<string>, api: nat -> Reply, strip: string -> string, st: Run, i: nat)
    requires st.status == Running && i <= |st.rows|
    ensures var r := RunFrom(header, api, strip, st, i);
      var stop := StopRow(|st.rows|, r.status);
      forall j :: i <= j < stop ==>
        r.rows[j] == if Asks(strip, st.rows[j]) then ClearMarker(st.rows[j]) else st.rows[j]
    decreases |st.rows| - i
  {
    if i < |st.rows| && |st.rows[i]| > 0 {
      var q := strip(st.rows[i][0]);
      if q == "" {
        RunRowsCleared(header, api, strip, st, i + 1);
        RunRowsOutside(header, api, strip, st, i + 1);
      } else {
        var next := Attempt(header, api, st, i, q);
        AttemptRows(header, api, st, i, q);
        if next.status == Running {
          var r := RunFrom(header, api, strip, next, i + 1);
          RunRowsCleared(header, api, strip, next, i + 1);
          RunRowsOutside(header, api, strip, next, i + 1);
          forall j | i + 1 <= j < StopRow(|st.rows|, r.status)
            ensures r.rows[j] == if Asks(strip, st.rows[j]) then ClearMarker(st.rows[j]) else st.rows[j]
          {
            assert next.rows[j] == st.rows[j];
          }
          assert r.rows[i] == next.rows[i] == ClearMarker(st.rows[i]);
        }
      }
    }
  }

  /** The table after a run from row `i`, all of the above together. */
  lemma RunRows(header: seq<string>, api: nat -> Reply, strip: string -> string, st: Run, i: nat)
    requires st.status == Running && i <= |st.rows|
    ensures var r := RunFrom(header, api, strip, st, i);
      var stop := StopRow(|st.rows|, r.status);
      i <= stop <= |st.rows| &&
      (r.status != Running ==> stop < |st.rows|) &&
      (r.status.Crashed? ==> |st.rows[stop]| == 0) &&
      (r.status.Bookmarked? ==> Asks(strip, st.rows[stop]) && r.rows[stop] == MarkError(st.rows[stop])) &&
      (forall j :: i <= j < stop ==> |st.rows[j]| > 0) &&
      (forall j :: 0 <= j < |st.rows| && (j < i || stop < j) ==> r.rows[j] == st.rows[j]) &&
      (forall j :: i <= j < stop ==>
         r.rows[j] == if Asks(strip, st.rows[j]) then ClearMarker(st.rows[j]) else st.rows[j]) &&
      (r.status.Crashed? ==> r.rows[stop] == st.rows[stop])
  {
    RunStops(header, api, strip, st, i);
    RunBookmarks(header, api, strip, st, i);
    RunRowsOutside(header, api, strip, st, i);
    RunRowsCleared(header, api, strip, st, i);
  }

  /** The data rows written before row `i` are kept by the run from row `i`. */
  lemma {:induction false} RunKeepsWritten(header: seq<string>, api: nat -> Reply, strip: string -> string, st: Run, i: nat)
    requires st.status == Running && i <= |st.rows|
    ensures var r := RunFrom(header, api, strip, st, i);
      |st.written| <= |r.written| && r.written[..|st.written|] == st.written
    decreases |st.rows| - i
  {
    if i < |st.rows| && |st.rows[i]| > 0 {
      var q := strip(st.rows[i][0]);
      if q == "" {
        RunKeepsWritten(header, api, strip, st, i + 1);
      } else {
        var next := Attempt(header, api, st, i, q);
        AttemptWritten(header, api, st, i, q);
        if next.status == Running {
          var r := RunFrom(header, api, strip, next, i + 1);
          RunKeepsWritten(header, api, strip, next, i + 1);
          assert r.written[..|st.written|] == next.written[..|st.written|];
        }
      }
    }
  }

  /** The data rows written from row `i` on carry, in row order, the stripped
      questions of exactly the rows asked about before the stop row. */
  lemma {:induction false} RunWritten(header: seq<string>, api: nat -> Reply, strip: string -> string, st: Run, i: nat)
    requires st.status == Running && i <= |st.rows|
    ensures var r := RunFrom(header, api, strip, st, i);
      Questions(r.written) == Questions(st.written) + Pending(strip, st.rows, i, StopRow(|st.rows|, r.status))
    decreases |st.rows| - i
  {
    if i < |st.rows| && |st.rows[i]| > 0 {
      var q := strip(st.rows[i][0]);
      if q == "" {
        RunWritten(header, api, strip, st, i + 1);
      } else {
        var next := Attempt(header, api, st, i, q);
        AttemptWritten(header, api, st, i, q);
        if next.status == Running {
          var r := RunFrom(header, api, strip, next, i + 1);
          RunWritten(header, api, strip, next, i + 1);
          PendingFrozen(strip, st.rows, next.rows, i + 1, StopRow(|st.rows|, r.status));
          assert Questions(next.written) == Questions(st.written) + [q];
        }
      }
    }
  }

  /** Pending only looks at the first field of each row, which the run never changes. */
  lemma {:induction false} PendingFrozen(strip: string -> string, a: seq<seq<string>>, b: seq<seq<string>>, i: nat, stop: nat)
    requires i <= stop <= |a| == |b|
    requires forall j :: i <= j < stop ==> (|a[j]| > 0 <==> |b[j]| > 0)
    requires forall j :: i <= j < stop && |a[j]| > 0 ==> a[j][0] == b[j][0]
    ensures Pending(strip, a, i, stop) == Pending(strip, b, i, stop)
    decreases stop - i
  {
    if i < stop {
      PendingFrozen(strip, a, b, i + 1, stop);
    }
  }

  /** The rewrites of `q.csv` made before row `i` are kept by the run from row `i`. */
  lemma {:induction false} RunKeepsSaves(header: seq<string>, api: nat -> Reply, strip: string -> string, st: Run, i: nat)
    requires st.status == Running && i <= |st.rows|
    ensures var r := RunFrom(header, api, strip, st, i);
      |st.saves| <= |r.saves| && r.saves[..|st.saves|] == st.saves
    decreases |st.rows| - i
  {
    if i < |st.rows| && |st.rows[i]| > 0 {
      var q := strip(st.rows[i][0]);
      if q == "" {
        RunKeepsSaves(header, api, strip, st, i + 1);
      } else {
        var next := Attempt(header, api, st, i, q);
        AttemptSaves(header, api, st, i, q);
        if next.status == Running {
          var r := RunFrom(header, api, strip, next, i + 1);
          RunKeepsSaves(header, api, strip, next, i + 1);
          assert r.saves[..|st.saves|] == next.saves[..|st.saves|];
        }
      }
    }
  }

  /** `q.csv` is rewritten once per row asked about that carried exactly the
      marker, plus once when the run bookmarks a row. */
  lemma {:induction false} RunSaveCount(header: seq<string>, api: nat -> Reply, strip: string -> string, st: Run, i: nat)
    requires st.status == Running && i <= |st.rows|
    ensures var r := RunFrom(header, api, strip, st, i);
      var stop := StopRow(|st.rows|, r.status);
      |r.saves| == |st.saves| + ExactMarks(strip, st.rows, i, stop) + (if r.status.Bookmarked? then 1 else 0)
    decreases |st.rows| - i
  {
    if i < |st.rows| && |st.rows[i]| > 0 {
      var q := strip(st.rows[i][0]);
      if q == "" {
        RunSaveCount(header, api, strip, st, i + 1);
      } else {
        var next := Attempt(header, api, st, i, q);
        AttemptSaves(header, api, st, i, q);
        if next.status == Running {
          var r := RunFrom(header, api, strip, next, i + 1);
          RunSaveCount(header, api, strip, next, i + 1);
          ExactMarksFrozen(strip, st.rows, next.rows, i + 1, StopRow(|st.rows|, r.status));
        }
      }
    }
  }

  /** API calls and sleeps of a run from row `i`: every question asked before
      the stop row costs one to four calls and one sleep fewer than its calls,
      a row that is skipped costs nothing, and the question that gives up
      costs four calls and three sleeps. */
  lemma {:induction false} RunCalls(header: seq<string>, api: nat -> Reply, strip: string -> string, st: Run, i: nat)
    requires st.status == Running && i <= |st.rows|
    ensures var r := RunFrom(header, api, strip, st, i);
      var n := |Pending(strip, st.rows, i, StopRow(|st.rows|, r.status))|;
      var g := if r.status.Bookmarked? then 1 else 0;
      st.calls + n + 4 * g <= r.calls <= st.calls + 4 * n + 4 * g &&
      |r.sleeps| + n + g == |st.sleeps| + (r.calls - st.calls)
    decreases |st.rows| - i
  {
    if i < |st.rows| && |st.rows[i]| > 0 {
      var q := strip(st.rows[i][0]);
      if q == "" {
        RunCalls(header, api, strip, st, i + 1);
      } else {
        var next := Attempt(header, api, st, i, q);
        AttemptCalls(header, api, st, i, q);
        if next.status == Running {
          var r := RunFrom(header, api, strip, next, i + 1);
          RunCalls(header, api, strip, next, i + 1);
          PendingFrozen(strip, st.rows, next.rows, i + 1, StopRow(|st.rows|, r.status));
        }
      }
    }
  }

  /** `q.csv` always matches the table in memory: a run that did not rewrite
      it left the table as it was, and after a run that did, the last image
      written is the header followed by the final table. */
  lemma {:induction false} RunSavesInSync(header: seq<string>, api: nat -> Reply, strip: string -> string, st: Run, i: nat)
    requires st.status == Running && i <= |st.rows|
    ensures var r := RunFrom(header, api, strip, st, i);
      |st.saves| <= |r.saves| &&
      (|r.saves| == |st.saves| ==> r.rows == st.rows && r.saves == st.saves) &&
      (|r.saves| > |st.saves| ==> r.saves[|r.saves| - 1] == Snapshot(header, r.rows))
    decreases |st.rows| - i
  {
    if i < |st.rows| && |st.rows[i]| > 0 {
      var q := strip(st.rows[i][0]);
      if q == "" {
        RunSavesInSync(header, api, strip, st, i + 1);
      } else {
        var next := Attempt(header, api, st, i, q);
        AttemptSaves(header, api, st, i, q);
        if next.status == Running {
          RunSavesInSync(header, api, strip, next, i + 1);
        }
      }
    }
  }

  /** ExactMarks is unchanged by edits outside the counted range. */
  lemma {:induction false} ExactMarksFrozen(strip: string -> string, a: seq<seq<string>>, b: seq<seq<string>>, i: nat, stop: nat)
    requires i <= stop <= |a| == |b|
    requires forall j :: i <= j < stop ==> a[j] == b[j]
    ensures ExactMarks(strip, a, i, stop) == ExactMarks(strip, b, i, stop)
    decreases stop - i
  {
    if i < stop {
      ExactMarksFrozen(strip, a, b, i + 1, stop);
    }
  }

  /** The sinks after `save_to_files` on each of `w`: one JSON line and one
      CSV line per data row, in order, whose question field is that row's
      question, and one five-write text block per data row. */
  lemma SinksCarryQuestions(files: Outputs, w: seq<DataRow>)
    ensures var o := SaveAll(files, w);
      o.json == files.json + JsonLines(w) && |o.json| == |files.json| + |w| &&
      (forall k :: 0 <= k < |w| ==> o.json[|files.json| + k].metadata.question == Questions(w)[k]) &&
      o.csv == files.csv + (if files.csvExists || w == [] then [] else [FieldNames]) + CsvLines(w) &&
      (forall k :: 0 <= k < |w| ==> CsvLine(w[k])[1] == Questions(w)[k]) &&
      |o.txt| == |files.txt| + 5 * |w|
  {
    SaveAllAppends(files, w);
  }

  /** The three sinks after a run: each gains exactly one line (the text sink
      one five-write block) per question asked before the stop row, in row
      order, carrying that row's stripped question; the CSV header is added
      only when `output.csv` did not exist and something was written. */
  lemma RunOutputs(header: seq<string>, api: nat -> Reply, strip: string -> string, rows: seq<seq<string>>, start: nat,
                   files: Outputs)
    requires start <= |rows|
    ensures var r := RunFrom(header, api, strip, Start(rows), start);
      var stop := StopRow(|rows|, r.status);
      var o := SaveAll(files, r.written);
      var asked := Pending(strip, rows, start, stop);
      start <= stop <= |rows| &&
      o.json == files.json + JsonLines(r.written) && |o.json| == |files.json| + |asked| &&
      (forall k :: 0 <= k < |asked| ==> o.json[|files.json| + k].metadata.question == asked[k]) &&
      o.csv == files.csv + (if files.csvExists || asked == [] then [] else [FieldNames]) + CsvLines(r.written) &&
      (forall k :: 0 <= k < |asked| ==> CsvLine(r.written[k])[1] == asked[k]) &&
      |o.txt| == |files.txt| + 5 * |asked|
  {
    var st := Start(rows);
    var r := RunFrom(header, api, strip, st, start);
    var asked := Pending(strip, rows, start, StopRow(|rows|, r.status));
    RunWritten(header, api, strip, st, start);
    assert Questions(st.written) == [];
    assert Questions(r.written) == asked;
    SinksCarryQuestions(files, r.written);
  }

  /** After a run that bookmarked row `k`, the next run resumes no earlier
      than this run did and no later than `k`. */
  lemma ResumeAfterBookmark(header: seq<string>, api: nat -> Reply, strip: string -> string, rows: seq<seq<string>>, k: nat)
    requires RunFrom(header, api, strip, Start(rows), ResumeIndex(rows)).status == Bookmarked(k)
    ensures var r := RunFrom(header, api, strip, Start(rows), ResumeIndex(rows));
      ResumeIndex(rows) <= ResumeIndex(r.rows) <= k && IsBookmarked(r.rows[k])
  {
    var s := ResumeIndex(rows);
    var r := RunFrom(header, api, strip, Start(rows), s);
    RunRows(header, api, strip, Start(rows), s);
    MarkErrorBookmarks(rows[k]);
    ResumeAtMost(r.rows, k);
    ResumeIndexSpec(rows);
    ResumeIndexSpec(r.rows);
  }

  /** When every bookmark between the resume point and the bookmarked row
      `k` is an exact marker on a row with a question, the run clears them all
      and the next run resumes exactly at `k`. */
  lemma ResumeExactlyAtBookmark(header: seq<string>, api: nat -> Reply, strip: string -> string, rows: seq<seq<string>>, k: nat)
    requires RunFrom(header, api, strip, Start(rows), ResumeIndex(rows)).status == Bookmarked(k)
    requires forall j :: ResumeIndex(rows) <= j < k && IsBookmarked(rows[j]) ==>
      Asks(strip, rows[j]) && rows[j][1] == Marker
    ensures ResumeIndex(RunFrom(header, api, strip, Start(rows), ResumeIndex(rows)).rows) == k
  {
    var s := ResumeIndex(rows);
    var r := RunFrom(header, api, strip, Start(rows), s);
    RunRows(header, api, strip, Start(rows), s);
    ResumeIndexSpec(rows);
    MarkErrorBookmarks(rows[k]);
    forall j | 0 <= j < k
      ensures !IsBookmarked(r.rows[j])
    {
      if s <= j && |rows[j]| >= 2 && rows[j][1] == Marker {
        MarkerIsBookmark(rows[j]);
      }
    }
    ResumeIndexSpec(r.rows);
  }

  /** The retry loop of lines 82-139 for row `i` and its stripped question:
      call the model until it answers or no retry is left, sleeping before
      each retry; on an answer, save it and clear an exact marker (rewriting
      `q.csv`); after the last failure, set the marker, rewrite `q.csv` and
      report the exit. The effect is the specification Attempt. */
  method AskWithRetries(header: seq<string>, rows: array<seq<string>>, i: nat, question: string,
                        api: nat -> Reply, ghost files: Outputs, out0: Outputs, ghost written0: seq<DataRow>,
                        saves0: seq<seq<seq<string>>>, sleeps0: seq<nat>, calls0: nat)
    returns (processed: bool, out: Outputs, ghost written: seq<DataRow>, saves: seq<seq<seq<string>>>,
             sleeps: seq<nat>, calls: nat, status: Status)
    requires i < rows.Length && |rows[i]| > 0 && out0 == SaveAll(files, written0)
    modifies rows
    ensures Run(rows[..], written, saves, sleeps, calls, status) ==
      Attempt(header, api, Run(old(rows[..]), written0, saves0, sleeps0, calls0, Running), i, question)
    ensures processed <==> status == Running
    ensures out == SaveAll(files, written)
  {
    out, written, saves, sleeps, calls, status := out0, written0, saves0, sleeps0, calls0, Running;
    ghost var before := Run(rows[..], written0, saves0, sleeps0, calls0, Running);
    var retryCount := 0;
    processed := false;
    while retryCount <= MaxRetries
      invariant retryCount <= MaxRetries && !processed && status == Running
      invariant rows[..] == before.rows && written == written0 && saves == saves0 && out == out0
      invariant calls == calls0 + retryCount
      invariant sleeps == sleeps0 + Backoffs(0, retryCount)
      invariant LastCall(api, calls, retryCount) == LastCall(api, calls0, 0)
      decreases MaxRetries - retryCount
    {
      var reply := api(calls);
      calls := calls + 1;
      if reply.Answered? {
        var dataRow := DataRow(reply.timestamp, question, reply.reasoning, reply.answer);
        ghost var st1 := before.(calls := calls, sleeps := sleeps);
        AttemptAnsweredAt(header, api, before, i, question, calls - 1);
        out := SaveToFiles(out, dataRow);
        written := written + [dataRow];
        assert written[..|written| - 1] == written0;
        var row := rows[i];
        if |row| >= 2 && row[1] == Marker {
          rows[i] := row[1 := ""];
          saves := saves + [Snapshot(header, rows[..])];
        }
        assert rows[..] == st1.rows[i := ClearMarker(st1.rows[i])];
        processed := true;
        assert Run(rows[..], written, saves, sleeps, calls, status) == Answer(header, st1, i, dataRow);
        break;
      } else if retryCount < MaxRetries {
        sleeps := sleeps + [Backoff(retryCount)];
        BackoffsSnoc(retryCount);
        retryCount := retryCount + 1;
      } else {
        ghost var st1 := before.(calls := calls, sleeps := sleeps);
        AttemptGaveUpAt(header, api, before, i, question, calls - 1);
        var row := rows[i];
        if |row| < 2 {
          rows[i] := row + [Marker];
        } else {
          rows[i] := row[1 := Marker];
        }
        assert rows[..] == st1.rows[i := MarkError(st1.rows[i])];
        saves := saves + [Snapshot(header, rows[..])];
        status := Bookmarked(i);
        assert Run(rows[..], written, saves, sleeps, calls, status) == GiveUp(header, st1, i);
        break;
      }
    }
  }

  /** The main loop (lines 76-142) over the rows held in an array, from the
      resume point. The API is the oracle `api` (its k-th call of the run gets
      `api(k)`); the sinks start as `files`. The loop leaves the table, the
      `q.csv` rewrites, the sleeps, the calls and the exit status that the
      specification RunFrom gives, and the sinks hold what `save_to_files`
      made of each data row written. */
  method Drive(header: seq<string>, rows: array<seq<string>>, startIndex: nat, api: nat -> Reply,
               files: Outputs)
    returns (out: Outputs, ghost written: seq<DataRow>, saves: seq<seq<seq<string>>>,
             sleeps: seq<nat>, calls: nat, status: Status)
    requires startIndex <= rows.Length
    modifies rows
    ensures var r := RunFrom(header, api, Strip, Start(old(rows[..])), startIndex);
      rows[..] == r.rows && written == r.written && saves == r.saves &&
      sleeps == r.sleeps && calls == r.calls && status == r.status
    ensures out == SaveAll(files, written)
  {
    out, written, saves, sleeps, calls, status := files, [], [], [], 0, Running;
    ghost var goal := RunFrom(header, api, Strip, Start(rows[..]), startIndex);
    var i := startIndex;
    while i < rows.Length
      invariant startIndex <= i <= rows.Length && status == Running
      invariant RunFrom(header, api, Strip, Run(rows[..], written, saves, sleeps, calls, Running), i) == goal
      invariant out == SaveAll(files, written)
    {
      var currentRow := rows[i];
      if |currentRow| == 0 {
        status := Crashed(i);
        break;
      }
      var question := Strip(currentRow[0]);
      if question == "" {
        i := i + 1;
        continue;
      }
      var processed;
      processed, out, written, saves, sleeps, calls, status :=
        AskWithRetries(header, rows, i, question, api, files, out, written, saves, sleeps, calls);
      if !processed {
        break;
      }
      i := i + 1;
    }
  }

  /** The whole script once `q.csv` has been read: find the resume point,
      then run the main loop from there. */
  method Generate(header: seq<string>, rows: array<seq<string>>, api: nat -> Reply, files: Outputs)
    returns (out: Outputs, ghost written: seq<DataRow>, saves: seq<seq<seq<string>>>,
             sleeps: seq<nat>, calls: nat, status: Status)
    modifies rows
    ensures var r := RunFrom(header, api, Strip, Start(old(rows[..])), ResumeIndex(old(rows[..])));
      rows[..] == r.rows && written == r.written && saves == r.saves &&
      sleeps == r.sleeps && calls == r.calls && status == r.status
    ensures out == SaveAll(files, written)
  {
    var startIndex, totalQuestions := FindResumePoint(rows[..]);
    out, written, saves, sleeps, calls, status := Drive(header, rows, startIndex, api, files);
  }
}
