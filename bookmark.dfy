/** The in-band bookmark of `q.csv`: column 1 of a question row holds the
    literal `ERROR` when a previous run gave up on that question. */
module Bookmark {
  import opened PyStr

  const Marker: string := "ERROR"

  datatype Option = None | Some(value: nat)

  /** The resume scan's test: the row has a second field and that field,
      stripped, is the marker. */
  predicate IsBookmarked(row: seq<string>)
  {
    |row| >= 2 && Strip(row[1]) == Marker
  }

  /** Index of the first bookmarked row, if there is one. */
  function FirstBookmark(rows: seq<seq<string>>): (r: Option)
    ensures r.Some? ==> r.value < |rows| && IsBookmarked(rows[r.value])
  {
    if rows == [] then None
    else if IsBookmarked(rows[0]) then Some(0)
    else match FirstBookmark(rows[1..])
      case None => None
      case Some(k) => Some(k + 1)
  }

  /** `start_index`: the first bookmarked row, or 0 when no row is bookmarked. */
  function ResumeIndex(rows: seq<seq<string>>): (r: nat)
    ensures rows != [] ==> r < |rows|
    ensures r != 0 ==> r < |rows| && IsBookmarked(rows[r])
  {
    match FirstBookmark(rows)
    case None => 0
    case Some(k) => k
  }

  /** FirstBookmark is the least bookmarked index, and None means that no row
      is bookmarked. */
  lemma {:induction false} FirstBookmarkIsLeast(rows: seq<seq<string>>)
    ensures FirstBookmark(rows).Some? ==>
      FirstBookmark(rows).value < |rows| && IsBookmarked(rows[FirstBookmark(rows).value]) &&
      forall j :: 0 <= j < FirstBookmark(rows).value ==> !IsBookmarked(rows[j])
    ensures FirstBookmark(rows).None? ==> forall j :: 0 <= j < |rows| ==> !IsBookmarked(rows[j])
  {
    if rows != [] && !IsBookmarked(rows[0]) {
      var tail := rows[1..];
      FirstBookmarkIsLeast(tail);
      forall j | 1 <= j < |rows|
        ensures rows[j] == tail[j - 1]
      {
      }
    }
  }

  /** The resume point lies inside the table (or is 0 for an empty table), no
      row before it is bookmarked, and it is itself bookmarked unless it is the
      default 0. */
  lemma ResumeIndexSpec(rows: seq<seq<string>>)
    ensures ResumeIndex(rows) <= |rows| && (rows != [] ==> ResumeIndex(rows) < |rows|)
    ensures forall j :: 0 <= j < ResumeIndex(rows) ==> !IsBookmarked(rows[j])
    ensures (exists j :: 0 <= j < |rows| && IsBookmarked(rows[j])) <==>
      ResumeIndex(rows) < |rows| && IsBookmarked(rows[ResumeIndex(rows)])
    ensures (forall j :: 0 <= j < |rows| ==> !IsBookmarked(rows[j])) ==> ResumeIndex(rows) == 0
  {
    FirstBookmarkIsLeast(rows);
  }

  /** A bookmarked row bounds the resume point from above. */
  lemma ResumeAtMost(rows: seq<seq<string>>, k: nat)
    requires k < |rows| && IsBookmarked(rows[k])
    ensures ResumeIndex(rows) <= k && IsBookmarked(rows[ResumeIndex(rows)])
  {
    FirstBookmarkIsLeast(rows);
  }

  /** The scan of `q.csv` at start-up: the first row whose second field,
      stripped, equals the marker, or 0; and the number of rows from there on
      (`total_questions`). */
  method FindResumePoint(rows: seq<seq<string>>) returns (startIndex: nat, totalQuestions: nat)
    ensures startIndex <= |rows| && totalQuestions == |rows| - startIndex
    ensures forall j :: 0 <= j < startIndex ==> !IsBookmarked(rows[j])
    ensures (startIndex < |rows| && IsBookmarked(rows[startIndex])) ||
      (startIndex == 0 && forall j :: 0 <= j < |rows| ==> !IsBookmarked(rows[j]))
    ensures startIndex == ResumeIndex(rows)
  {
    startIndex := 0;
    var i := 0;
    while i < |rows|
      invariant 0 <= i <= |rows|
      invariant startIndex == 0
      invariant forall j :: 0 <= j < i ==> !IsBookmarked(rows[j])
    {
      var row := rows[i];
      if |row| >= 2 && Strip(row[1]) == Marker {  // IsBookmarked(row)
        startIndex := i;
        break;
      }
      i := i + 1;
    }
    totalQuestions := |rows| - startIndex;
    ResumeIndexSpec(rows);
    FirstBookmarkIsLeast(rows);
  }

  /** Line-108 bookmark clearing after a success: only an exact `ERROR` in the
      second field is replaced by the empty string (no strip here). */
  function ClearMarker(row: seq<string>): (r: seq<string>)
    ensures |r| == |row|
    ensures forall k :: 0 <= k < |row| && k != 1 ==> r[k] == row[k]
    ensures r != row <==> |row| >= 2 && row[1] == Marker
    ensures r != row ==> r[1] == ""
  {
    if |row| >= 2 && row[1] == Marker then row[1 := ""] else row
  }

  /** Setting the bookmark after the last retry: the marker is appended to a
      one-field row and overwrites the second field of a longer one. */
  function MarkError(row: seq<string>): (r: seq<string>)
    requires |row| > 0
    ensures |r| == if |row| < 2 then 2 else |row|
    ensures r[1] == Marker
    ensures forall k :: 0 <= k < |row| && k != 1 ==> r[k] == row[k]
  {
    if |row| < 2 then row + [Marker] else row[1 := Marker]
  }

  /** The row MarkError leaves is one the resume scan stops at. */
  lemma MarkErrorBookmarks(row: seq<string>)
    requires |row| > 0
    ensures IsBookmarked(MarkError(row))
  {
    MarkerIsBookmark(MarkError(row));
  }

  lemma MarkerIsBookmark(row: seq<string>)
    requires |row| >= 2 && row[1] == Marker
    ensures IsBookmarked(row)
  {
    StripUnpadded(Marker);
  }

  /** A bookmark whose second field is not exactly the marker (padded with
      whitespace, say) is resumed from but survives a successful retry: the
      resume test strips, the clearing test does not. `["q", " ERROR"]` is
      such a row. */
  lemma PaddedMarkerSurvivesClear(row: seq<string>)
    ensures IsBookmarked(row) && row[1] != Marker ==>
      ClearMarker(row) == row && IsBookmarked(ClearMarker(row))
    ensures IsBookmarked(["q", " ERROR"]) && ["q", " ERROR"][1] != Marker
  {
    var padded := ["q", " ERROR"];
    assert padded[1] != Marker;
    assert TrimStart(padded[1]) == Marker by {
      assert IsSpace(padded[1][0]);
      assert padded[1][1..] == Marker;
      assert TrimStart(padded[1][1..]) == Marker by { StripUnpadded(Marker); }
    }
    StripUnpadded(Marker);
  }
}
