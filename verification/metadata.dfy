/**
 * The `details` dictionary of `get_job_details` (scraper.py:135-158,
 * scraper_api.py:108-130): one entry per complete key-info row, keyed by the
 * lower-cased key text, followed by the posted and deadline dates with their
 * `Posted:` / `Deadline:` markers removed.
 */
module Metadata {
  import opened Wrappers
  import opened Text
  import opened Page

  /** Row `i` has both spans, and its lower-cased key is `k`. */
  predicate Supplies(rows: seq<KeyInfoRow>, i: int, k: string) {
    0 <= i < |rows| && rows[i].key.Some? && rows[i].value.Some? && Lower(rows[i].key.value) == k
  }

  /** The dictionary after the row loop: rows in order, later rows overwriting earlier ones. */
  function MetadataOf(rows: seq<KeyInfoRow>): map<string, string>
    decreases |rows|
  {
    if rows == [] then map[]
    else
      var d := MetadataOf(rows[..|rows| - 1]);
      var row := rows[|rows| - 1];
      if row.key.None? || row.value.None? then d else d[Lower(row.key.value) := row.value.value]
  }

  /** The row loop: rows missing either span are skipped, the key is lower-cased. */
  method BuildMetadata(rows: seq<KeyInfoRow>) returns (details: map<string, string>)
    ensures details == MetadataOf(rows)
  {
    details := map[];
    for i := 0 to |rows|
      invariant details == MetadataOf(rows[..i])
    {
      assert rows[..i + 1][..i] == rows[..i];
      var row := rows[i];
      if row.key.None? || row.value.None? {
        continue;
      }
      var key := Lower(row.key.value);
      var value := row.value.value;
      details := details[key := value];
    }
    assert rows[..|rows|] == rows;
  }

  /** Every key of the dictionary is lower case. */
  lemma {:induction false} MetadataKeysLower(rows: seq<KeyInfoRow>)
    ensures forall k :: k in MetadataOf(rows) ==> Lower(k) == k
    decreases |rows|
  {
    if rows != [] {
      MetadataKeysLower(rows[..|rows| - 1]);
      var row := rows[|rows| - 1];
      if row.key.Some? {
        LowerIdempotent(row.key.value);
      }
    }
  }

  /**
   * A key is present exactly when some complete row supplies it, and its value
   * is that of the last such row.
   */
  lemma {:induction false} MetadataLastWins(rows: seq<KeyInfoRow>, k: string)
    ensures k in MetadataOf(rows) <==> exists i :: Supplies(rows, i, k)
    ensures k in MetadataOf(rows) ==>
      exists i :: Supplies(rows, i, k) && MetadataOf(rows)[k] == rows[i].value.value
               && forall j :: i < j < |rows| ==> !Supplies(rows, j, k)
    decreases |rows|
  {
    if rows != [] {
      var n := |rows| - 1;
      var init := rows[..n];
      MetadataLastWins(init, k);
      assert forall i :: Supplies(init, i, k) ==> Supplies(rows, i, k);
      assert forall i :: 0 <= i < n && Supplies(rows, i, k) ==> Supplies(init, i, k);
      if Supplies(rows, n, k) {
        assert MetadataOf(rows)[k] == rows[n].value.value;
      } else if k in MetadataOf(init) {
        var i :| Supplies(init, i, k) && MetadataOf(init)[k] == init[i].value.value
                 && forall j :: i < j < n ==> !Supplies(init, j, k);
        assert Supplies(rows, i, k);
      }
    }
  }

  /** Every copy of the spaced marker removed, then every copy of the tight one, then outer whitespace. */
  function RemoveMarkers(text: string, spaced: string, tight: string): string
    requires spaced != "" && tight != ""
  {
    Strip(RemoveAll(RemoveAll(text, spaced), tight))
  }

  const POSTED_SPACED: string := "Posted :"
  const POSTED_TIGHT: string := "Posted:"
  const DEADLINE_SPACED: string := "Deadline :"
  const DEADLINE_TIGHT: string := "Deadline:"

  function PostedDate(text: string): string {
    RemoveMarkers(text, POSTED_SPACED, POSTED_TIGHT)
  }

  function DeadlineDate(text: string): string {
    RemoveMarkers(text, DEADLINE_SPACED, DEADLINE_TIGHT)
  }

  /** `key` bound to the value when there is one; the dictionary unchanged otherwise. */
  function SetIfPresent(d: map<string, string>, key: string, v: Option<string>): (r: map<string, string>)
    ensures forall k :: k != key ==> Lookup(r, k) == Lookup(d, k)
    ensures Lookup(r, key) == if v.Some? then v else Lookup(d, key)
  {
    if v.Some? then d[key := v.value] else d
  }

  /**
   * The two date entries written after the row loop: each only when its
   * marker tag and that tag's parent exist, replacing any row with the same key.
   */
  function WithDates(details: map<string, string>, posted: Option<string>, deadline: Option<string>): map<string, string> {
    var postedDate := if posted.Some? then Some(PostedDate(posted.value)) else None;
    var deadlineDate := if deadline.Some? then Some(DeadlineDate(deadline.value)) else None;
    SetIfPresent(SetIfPresent(details, "posted_date", postedDate), "deadline_date", deadlineDate)
  }

  /** The date entries replace their keys only when given; every other key keeps its row value. */
  lemma WithDatesSpec(details: map<string, string>, posted: Option<string>, deadline: Option<string>)
    ensures var r := WithDates(details, posted, deadline);
      && (forall k :: k != "posted_date" && k != "deadline_date" ==> Lookup(r, k) == Lookup(details, k))
      && Lookup(r, "posted_date") == (if posted.Some? then Some(PostedDate(posted.value)) else Lookup(details, "posted_date"))
      && Lookup(r, "deadline_date") == (if deadline.Some? then Some(DeadlineDate(deadline.value)) else Lookup(details, "deadline_date"))
  {
    assert "posted_date" != "deadline_date" by { assert "posted_date"[0] != "deadline_date"[0]; }
  }

  /** Removing a pattern from a text that starts with it removes that leading copy. */
  lemma RemoveAllLeading(p: string, x: string)
    requires p != ""
    ensures RemoveAll(p + x, p) == RemoveAll(x, p)
  {
    assert (p + x)[..|p|] == p && (p + x)[|p|..] == x;
  }

  lemma StripLeadingSpace(x: string)
    ensures Strip(" " + x) == Strip(x)
  {
    assert (" " + x)[1..] == x;
  }

  /**
   * A text of the form `w + ": " + x` holds no `w + " :"` when `x` holds none,
   * provided the first letter of `w` does not recur in it.
   */
  lemma NoSpacedMarker(w: string, x: string)
    requires |w| >= 1 && w[0] !in w[1..] && w[0] != ':' && w[0] != ' '
    requires forall j :: !OccursAt(x, w + " :", j)
    ensures forall j :: !OccursAt(w + ": " + x, w + " :", j)
  {
    var s := w + ": " + x;
    var q := w + " :";
    forall j ensures !OccursAt(s, q, j) {
      if j < 0 || j + |q| > |s| {
      } else if j == 0 {
        assert s[j..j + |q|][|w|] == ':' != q[|w|];
      } else if j <= |w| + 1 {
        assert j < |w| ==> s[j] == w[1..][j - 1];
        assert s[j] != w[0];
        assert s[j..j + |q|][0] != q[0];
      } else {
        assert s[j..j + |q|] == x[j - |w| - 2..j - |w| - 2 + |q|];
        assert !OccursAt(x, q, j - |w| - 2);
      }
    }
  }

  /** A text with a leading space holds no `w + ":"` when its tail holds none. */
  lemma NoTightMarker(w: string, x: string)
    requires |w| >= 1 && w[0] != ' '
    requires forall j :: !OccursAt(x, w + ":", j)
    ensures forall j :: !OccursAt(" " + x, w + ":", j)
  {
    var s := " " + x;
    var q := w + ":";
    forall j ensures !OccursAt(s, q, j) {
      if j < 0 || j + |q| > |s| {
      } else if j == 0 {
        assert s[j..j + |q|][0] == ' ' != q[0];
      } else {
        assert s[j..j + |q|] == x[j - 1..j - 1 + |q|];
        assert !OccursAt(x, q, j - 1);
      }
    }
  }

  /** A marker-free date after `w + ": "` comes out stripped and otherwise unchanged. */
  lemma MarkedDate(w: string, x: string)
    requires |w| >= 1 && w[0] !in w[1..] && w[0] != ':' && w[0] != ' '
    requires forall j :: !OccursAt(x, w + " :", j)
    requires forall j :: !OccursAt(x, w + ":", j)
    ensures RemoveMarkers(w + ": " + x, w + " :", w + ":") == Strip(x)
  {
    var s := w + ": " + x;
    NoSpacedMarker(w, x);
    RemoveAllAbsent(s, w + " :");
    assert s == (w + ":") + (" " + x);
    RemoveAllLeading(w + ":", " " + x);
    NoTightMarker(w, x);
    RemoveAllAbsent(" " + x, w + ":");
    StripLeadingSpace(x);
  }

  /** `"Posted: " + x` yields `x` stripped, for a date text `x` without markers. */
  lemma PostedDateOfMarked(x: string)
    requires forall j :: !OccursAt(x, POSTED_SPACED, j)
    requires forall j :: !OccursAt(x, POSTED_TIGHT, j)
    ensures PostedDate("Posted: " + x) == Strip(x)
  {
    var w := "Posted";
    assert w + " :" == POSTED_SPACED && w + ":" == POSTED_TIGHT && w + ": " + x == "Posted: " + x;
    assert w[1..] == "osted";
    MarkedDate(w, x);
  }

  /** `"Deadline: " + x` yields `x` stripped, for a date text `x` without markers. */
  lemma DeadlineDateOfMarked(x: string)
    requires forall j :: !OccursAt(x, DEADLINE_SPACED, j)
    requires forall j :: !OccursAt(x, DEADLINE_TIGHT, j)
    ensures DeadlineDate("Deadline: " + x) == Strip(x)
  {
    var w := "Deadline";
    assert w + " :" == DEADLINE_SPACED && w + ":" == DEADLINE_TIGHT && w + ": " + x == "Deadline: " + x;
    assert w[1..] == "eadline";
    MarkedDate(w, x);
  }

  /** A date text without markers is only stripped. */
  lemma UnmarkedDate(text: string, spaced: string, tight: string)
    requires spaced != "" && tight != ""
    requires forall j :: !OccursAt(text, spaced, j)
    requires forall j :: !OccursAt(text, tight, j)
    ensures RemoveMarkers(text, spaced, tight) == Strip(text)
  {
    RemoveAllAbsent(text, spaced);
    RemoveAllAbsent(text, tight);
  }
}
