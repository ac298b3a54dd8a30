/** Which activities the `activity-gpx` command fetches tracks for: the ids
    given with `--activity-id`, every activity under `--all-activities`, or
    by default the activities with a start position whose track is not
    loaded yet. */
module GpxSelection {
  import opened Base
  import opened Records

  /** A row of the default query: `(id, name, start_date_local)`. */
  type Row = (int, string, string)

  /** `activity_tuples_to_dict`: one `{id, name, start_date_local}` record
      per row, in row order. */
  method ActivityTuplesToDict(raw: seq<Row>) returns (acts: seq<Summary>)
    ensures |acts| == |raw|
    ensures forall i :: 0 <= i < |raw| ==> (acts[i].id, acts[i].name, acts[i].startDateLocal) == raw[i]
  {
    acts := [];
    var i := 0;
    while i < |raw|
      invariant 0 <= i <= |raw|
      invariant |acts| == i
      invariant forall j :: 0 <= j < i ==> (acts[j].id, acts[j].name, acts[j].startDateLocal) == raw[j]
    {
      var (activityId, name, startDateLocal) := raw[i];
      acts := acts + [Summary(activityId, name, startDateLocal)];
      i := i + 1;
    }
  }

  /** The `WHERE` clause each branch applies to the activities table. */
  datatype Criterion =
    | IdIn(ids: seq<int>)            // id IN (?, ?, ...)
    | Everything                     // no condition
    | TrackToLoad(loaded: set<int>)  // start_latitude IS NOT NULL AND id NOT IN (SELECT id FROM activity_gpx_tracks)

  predicate Matches(c: Criterion, a: Activity) {
    match c
    case IdIn(ids) => a.id in ids
    case Everything => true
    case TrackToLoad(loaded) => a.startLatitude.Some? && a.id !in loaded
  }

  /** The rows of `listing` (the table in scan order) that satisfy `c`. */
  function Select(listing: seq<Activity>, c: Criterion): (r: seq<Activity>)
    ensures |r| <= |listing|
    ensures forall i :: 0 <= i < |r| ==> r[i] in listing && Matches(c, r[i])
    ensures forall i :: 0 <= i < |listing| && Matches(c, listing[i]) ==> listing[i] in r
  {
    if listing == [] then []
    else if Matches(c, listing[0]) then [listing[0]] + Select(listing[1..], c)
    else Select(listing[1..], c)
  }

  /** The three selected columns of each row. */
  function Summaries(acts: seq<Activity>): (r: seq<Summary>)
    ensures |r| == |acts|
    ensures forall i :: 0 <= i < |acts| ==> r[i] == SummaryOf(acts[i])
  {
    seq(|acts|, i requires 0 <= i < |acts| => SummaryOf(acts[i]))
  }

  /** The same rows as tuples, as `fetchall()` returns them. */
  function AsRows(acts: seq<Activity>): (r: seq<Row>)
    ensures |r| == |acts|
    ensures forall i :: 0 <= i < |acts| ==> r[i] == (acts[i].id, acts[i].name, acts[i].startDateLocal)
  {
    seq(|acts|, i requires 0 <= i < |acts| => (acts[i].id, acts[i].name, acts[i].startDateLocal))
  }

  /** The choice of `activity_gpx`. `listing` is the activities table in scan
      order (`None` when the table is missing) and `loaded` the ids in the
      track table (`None` when it is missing). `rows_where` on a missing
      table yields nothing; the default query's SQL names both tables and
      fails, naming the first missing one, when either is missing. */
  function Selection(listing: Option<seq<Activity>>, loaded: Option<set<int>>, ids: seq<int>, allActivities: bool)
    : (r: Result<seq<Summary>, Error>)
    ensures r.Err? <==> |ids| == 0 && !allActivities && (listing.None? || loaded.None?)
    ensures r.Err? ==> r.error == NoSuchTable(if listing.None? then "activities" else "activity_gpx_tracks")
    ensures listing.None? && r.Ok? ==> r.value == []
  {
    var rows := if listing.Some? then listing.value else [];
    if |ids| != 0 then Ok(Summaries(Select(rows, IdIn(ids))))
    else if allActivities then Ok(Summaries(Select(rows, Everything)))
    else if listing.None? then Err(NoSuchTable("activities"))
    else if loaded.None? then Err(NoSuchTable("activity_gpx_tracks"))
    else Ok(Summaries(Select(listing.value, TrackToLoad(loaded.value))))
  }

  /** The selection branch of the `activity-gpx` command, running the
      default query's rows through `activity_tuples_to_dict`. */
  method SelectActivities(listing: Option<seq<Activity>>, loaded: Option<set<int>>, ids: seq<int>, allActivities: bool)
    returns (r: Result<seq<Summary>, Error>)
    ensures r == Selection(listing, loaded, ids, allActivities)
  {
    var rows := if listing.Some? then listing.value else [];
    if |ids| != 0 {
      r := Ok(Summaries(Select(rows, IdIn(ids))));
    } else if allActivities {
      r := Ok(Summaries(Select(rows, Everything)));
    } else if listing.None? {
      r := Err(NoSuchTable("activities"));
    } else if loaded.None? {
      r := Err(NoSuchTable("activity_gpx_tracks"));
    } else {
      var selected := Select(listing.value, TrackToLoad(loaded.value));
      var acts := ActivityTuplesToDict(AsRows(selected));
      assert acts == Summaries(selected);
      r := Ok(acts);
    }
  }

  /** Explicit ids take precedence: `--all-activities` and the track table
      make no difference once ids are given. */
  lemma ExplicitIdsTakePrecedence(
    listing: Option<seq<Activity>>, loaded: Option<set<int>>, loaded2: Option<set<int>>, ids: seq<int>, allActivities: bool)
    requires ids != []
    ensures Selection(listing, loaded, ids, allActivities) == Selection(listing, loaded2, ids, !allActivities)
    ensures Selection(listing, loaded, ids, allActivities).Ok?
  {
  }

  /** The default branch selects exactly the activities with a start
      latitude whose track is not loaded, each once per row. */
  lemma DefaultSelectionMembers(listing: seq<Activity>, loaded: set<int>, a: Activity)
    requires a in listing
    ensures Selection(Some(listing), Some(loaded), [], false).Ok?
    ensures a.startLatitude.Some? && a.id !in loaded ==>
      SummaryOf(a) in Selection(Some(listing), Some(loaded), [], false).value
    ensures forall s :: s in Selection(Some(listing), Some(loaded), [], false).value ==>
      exists b :: b in listing && b.startLatitude.Some? && b.id !in loaded && s == SummaryOf(b)
  {
    var selected := Select(listing, TrackToLoad(loaded));
    var r := Summaries(selected);
    if a.startLatitude.Some? && a.id !in loaded {
      var i :| 0 <= i < |selected| && selected[i] == a;
      assert r[i] == SummaryOf(a);
    }
    forall s | s in r
      ensures exists b :: b in listing && b.startLatitude.Some? && b.id !in loaded && s == SummaryOf(b)
    {
      var i :| 0 <= i < |r| && r[i] == s;
      assert Matches(TrackToLoad(loaded), selected[i]);
    }
  }

  /** A selection keeps the table's order: it is a subsequence of the rows. */
  lemma {:induction false} SelectIsSubsequence(listing: seq<Activity>, c: Criterion)
    ensures IsSubsequence(Select(listing, c), listing)
    decreases |listing|
  {
    if listing != [] {
      var rest := Select(listing[1..], c);
      SelectIsSubsequence(listing[1..], c);
      if Matches(c, listing[0]) {
        assert ([listing[0]] + rest)[1..] == rest;
      } else {
        SubsequenceOfTail(rest, listing);
      }
    }
  }

  /** Without a condition every row is selected, in order. */
  lemma {:induction false} SelectEverything(listing: seq<Activity>)
    ensures Select(listing, Everything) == listing
    decreases |listing|
  {
    if listing != [] {
      SelectEverything(listing[1..]);
    }
  }

  /** Under `--all-activities` (and no ids) the selection is every row of
      the table, count and order kept. */
  lemma AllActivitiesKeepsEveryRow(listing: seq<Activity>, loaded: Option<set<int>>)
    ensures Selection(Some(listing), loaded, [], true) == Ok(Summaries(listing))
  {
    SelectEverything(listing);
  }

  /** Whatever the branch, the selection lists rows of the table in table order. */
  lemma SelectionIsSubsequence(listing: seq<Activity>, loaded: Option<set<int>>, ids: seq<int>, allActivities: bool)
    requires Selection(Some(listing), loaded, ids, allActivities).Ok?
    ensures IsSubsequence(Selection(Some(listing), loaded, ids, allActivities).value, Summaries(listing))
  {
    var c := if |ids| != 0 then IdIn(ids) else if allActivities then Everything else TrackToLoad(loaded.value);
    SelectIsSubsequence(listing, c);
    SummariesKeepSubsequence(Select(listing, c), listing);
  }

  /** Taking the three columns keeps a subsequence a subsequence. */
  lemma {:induction false} SummariesKeepSubsequence(xs: seq<Activity>, ys: seq<Activity>)
    requires IsSubsequence(xs, ys)
    ensures IsSubsequence(Summaries(xs), Summaries(ys))
    decreases |ys|
  {
    if xs != [] {
      var sx, sy := Summaries(xs), Summaries(ys);
      assert sx[1..] == Summaries(xs[1..]);
      assert sy[1..] == Summaries(ys[1..]);
      if xs[0] == ys[0] {
        SummariesKeepSubsequence(xs[1..], ys[1..]);
      } else {
        SummariesKeepSubsequence(xs, ys[1..]);
        SubsequenceOfTail(sx, sy);
      }
    }
  }
}
