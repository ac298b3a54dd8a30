/** The `activity-gpx` and `load-activity-gpx` commands: select activities,
    fetch their GPX files into the cache and load the tracks. */
module GpxCommand {
  import opened Base
  import opened Records
  import opened Upsert
  import opened Tables
  import opened GpxSelection
  import opened Download

  /** `listing` is the activities table read in some scan order: every row
      exactly once. */
  ghost predicate IsScanOf(listing: seq<Activity>, rows: map<int, Activity>) {
    (forall i :: 0 <= i < |listing| ==> listing[i].id in rows && rows[listing[i].id] == listing[i]) &&
    (forall id :: id in rows ==> exists i :: 0 <= i < |listing| && listing[i].id == id) &&
    (forall i, j :: 0 <= i < j < |listing| ==> listing[i].id != listing[j].id)
  }

  /** What a run of `activity-gpx` did before loading tracks. */
  datatype GpxReport = GpxReport(
    selected: seq<Summary>, info: seq<Entry>, visits: seq<Entry>, downloads: seq<Entry>, files: set<string>)

  /** The selection the command makes on the tables as they are. */
  ghost function SelectionOn(activities: ActivitiesTable, tracks: TrackTable, listing: seq<Activity>, ids: seq<int>, allActivities: bool)
    : Result<seq<Summary>, Error>
    reads activities, tracks
  {
    Selection(
      if activities.present then Some(listing) else None,
      if tracks.created then Some(tracks.rows.Keys) else None,
      ids, allActivities)
  }

  /** `activity_gpx`: select, return early when nothing is selected, else
      download what is missing and load every returned file; a failed copy
      into the cache ends the command before anything is loaded. */
  method ActivityGpx(
    activities: ActivitiesTable, tracks: TrackTable, listing: seq<Activity>, ids: seq<int>, allActivities: bool,
    gpxDir: string, files0: set<string>, hasExport: int -> bool, canCopy: string -> bool,
    readWkt: string -> Option<string>)
    returns (r: Result<GpxReport, Error>)
    requires activities.Valid() && tracks.Valid()
    requires activities.present ==> IsScanOf(listing, activities.rows)
    modifies tracks
    ensures tracks.Valid()
    ensures var sel := old(SelectionOn(activities, tracks, listing, ids, allActivities));
      sel.Err? ==> r == Err(sel.error) && tracks.created == old(tracks.created) && tracks.rows == old(tracks.rows)
    ensures var sel := old(SelectionOn(activities, tracks, listing, ids, allActivities));
      sel.Ok? && sel.value == [] ==>
        r == Ok(GpxReport([], [], [], [], files0)) &&
        tracks.created == old(tracks.created) && tracks.rows == old(tracks.rows)
    ensures var sel := old(SelectionOn(activities, tracks, listing, ids, allActivities));
      sel.Ok? && sel.value != [] ==>
        var run := Run(Entries(gpxDir, sel.value), files0, hasExport, canCopy);
        run.failed.Some? ==>
          r == Err(CopyFailed(run.failed.value.1)) &&
          tracks.created == old(tracks.created) && tracks.rows == old(tracks.rows)
    ensures var sel := old(SelectionOn(activities, tracks, listing, ids, allActivities));
      sel.Ok? && sel.value != [] ==>
        var run := Run(Entries(gpxDir, sel.value), files0, hasExport, canCopy);
        run.failed.None? ==>
          tracks.created &&
          (r.Ok? <==> AllReadable(run.info, readWkt)) &&
          (r.Ok? ==> (r.value == GpxReport(sel.value, run.info, run.visits, run.downloads, run.files) &&
            tracks.rows == UpsertAll(old(tracks.rows), Tracks(run.info, readWkt)))) &&
          (r.Err? ==> (r.error == UnreadableGpx(run.info[FirstUnreadable(run.info, readWkt)].1) &&
            tracks.rows == old(tracks.rows)))
    ensures r.Ok? ==> forall i :: 0 <= i < |r.value.info| ==> r.value.info[i].0 in tracks.rows
  {
    var sel := SelectActivities(
      if activities.present then Some(listing) else None,
      if tracks.created then Some(tracks.rows.Keys) else None,
      ids, allActivities);
    if sel.Err? {
      return Err(sel.error);
    }
    var selected := sel.value;
    if |selected| == 0 {
      return Ok(GpxReport([], [], [], [], files0));
    }
    var info, visits, downloads, files, failed := DownloadGpx(selected, gpxDir, files0, hasExport, canCopy);
    if failed.Some? {
      return Err(CopyFailed(failed.value.1));
    }
    ghost var before := tracks.rows;
    var loaded := tracks.LoadTracks(info, readWkt);
    if loaded.Err? {
      return Err(loaded.error);
    }
    return Ok(GpxReport(selected, info, visits, downloads, files));
  }

  /** `load_activity_gpx`: load one file as the track of one activity. */
  method LoadActivityGpx(tracks: TrackTable, activityId: int, gpxPath: string, readWkt: string -> Option<string>)
    returns (r: Result<(), Error>)
    requires tracks.Valid()
    modifies tracks
    ensures tracks.Valid() && tracks.created
    ensures r.Ok? <==> readWkt(gpxPath).Some?
    ensures r.Ok? ==> tracks.rows == old(tracks.rows)[activityId := Geometry(readWkt(gpxPath).value, WGS84)]
    ensures r.Err? ==> r.error == UnreadableGpx(gpxPath) && tracks.rows == old(tracks.rows)
  {
    ghost var before := tracks.rows;
    var info := [(activityId, gpxPath)];
    r := tracks.LoadTracks(info, readWkt);
    assert info[..0] == [];
    if r.Ok? {
      assert Tracks(info, readWkt) == [(activityId, Geometry(readWkt(gpxPath).value, WGS84))];
    }
  }

  /** A selection from a scanned table lists each activity id at most once. */
  lemma SelectionHasDistinctIds(
    listing: seq<Activity>, rows: map<int, Activity>, loaded: Option<set<int>>, ids: seq<int>, allActivities: bool)
    requires IsScanOf(listing, rows)
    requires Selection(Some(listing), loaded, ids, allActivities).Ok?
    ensures var sel := Selection(Some(listing), loaded, ids, allActivities).value;
      forall i, j :: 0 <= i < j < |sel| ==> sel[i].id != sel[j].id
  {
    SelectionIsSubsequence(listing, loaded, ids, allActivities);
    DistinctIdsSubsequence(Selection(Some(listing), loaded, ids, allActivities).value, Summaries(listing));
  }

  /** A subsequence of a sequence with distinct ids has distinct ids. */
  lemma {:induction false} DistinctIdsSubsequence(xs: seq<Summary>, ys: seq<Summary>)
    requires IsSubsequence(xs, ys)
    requires forall i, j :: 0 <= i < j < |ys| ==> ys[i].id != ys[j].id
    ensures forall i, j :: 0 <= i < j < |xs| ==> xs[i].id != xs[j].id
    decreases |ys|
  {
    if xs != [] {
      if xs[0] == ys[0] {
        DistinctIdsSubsequence(xs[1..], ys[1..]);
        SubsequenceMembers(xs[1..], ys[1..]);
        forall j | 0 < j < |xs|
          ensures xs[0].id != xs[j].id
        {
          assert xs[j] == xs[1..][j - 1];
          assert xs[j] in xs[1..];
          var k :| 0 <= k < |ys[1..]| && ys[1..][k] == xs[j];
          assert ys[k + 1] == xs[j];
        }
      } else {
        DistinctIdsSubsequence(xs, ys[1..]);
      }
    }
  }
}
