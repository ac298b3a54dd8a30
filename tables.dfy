/** The two SQLite tables the commands write: `activities`, filled by
    `insert_all(..., pk="id", replace=True, truncate=...)`, and
    `activity_gpx_tracks`, filled by one upsert per loaded GPX file. */
module Tables {
  import opened Base
  import opened Records
  import opened Upsert

  /** Each record keyed by its `id`, the primary key `insert_all` is given. */
  function Keyed(records: seq<Activity>): (pairs: seq<(int, Activity)>)
    ensures |pairs| == |records|
    ensures forall i :: 0 <= i < |records| ==> pairs[i] == (records[i].id, records[i])
  {
    seq(|records|, i requires 0 <= i < |records| => (records[i].id, records[i]))
  }

  /** The `activities` table: whether it exists yet, and its rows by `id`. */
  class ActivitiesTable {
    var present: bool
    var rows: map<int, Activity>

    /** A missing table has no rows; every row is stored under its own id. */
    ghost predicate Valid()
      reads this
    {
      (!present ==> rows == map[]) &&
      forall id :: id in rows ==> rows[id].id == id
    }

    /** A database file in which the table has not been created. */
    constructor ()
      ensures Valid() && !present && rows == map[]
    {
      present := false;
      rows := map[];
    }

    /** `insert_all(records, pk="id", replace=True, truncate=truncate)`: an
        empty batch returns before touching the database; otherwise the
        table is created if needed, emptied first under `truncate`, and then
        each record replaces any row with the same id. */
    method InsertAll(records: seq<Activity>, truncate: bool)
      requires Valid()
      modifies this
      ensures Valid()
      ensures records == [] ==> present == old(present) && rows == old(rows)
      ensures records != [] ==> present && rows == UpsertAll(if truncate then map[] else old(rows), Keyed(records))
    {
      if |records| == 0 {
        return;
      }
      present := true;
      if truncate {
        rows := map[];
      }
      ghost var start := rows;
      var i := 0;
      while i < |records|
        invariant 0 <= i <= |records|
        invariant Valid() && present
        invariant rows == UpsertAll(start, Keyed(records)[..i])
      {
        assert Keyed(records)[..i + 1][..i] == Keyed(records)[..i];
        rows := rows[records[i].id := records[i]];
        i := i + 1;
      }
      assert Keyed(records)[..|records|] == Keyed(records);
    }
  }

  /** After an insert, an inserted id holds the last record with that id. */
  lemma InsertedRowIsLast(before: map<int, Activity>, records: seq<Activity>, truncate: bool, i: nat)
    requires i < |records|
    requires forall j :: i < j < |records| ==> records[j].id != records[i].id
    ensures records[i].id in UpsertAll(if truncate then map[] else before, Keyed(records))
    ensures UpsertAll(if truncate then map[] else before, Keyed(records))[records[i].id] == records[i]
  {
    UpsertAllLastWins(if truncate then map[] else before, Keyed(records), i);
  }

  /** An id that no record carries keeps its old row, unless `truncate` removed it. */
  lemma UninsertedRowKept(before: map<int, Activity>, records: seq<Activity>, truncate: bool, id: int)
    requires forall i :: 0 <= i < |records| ==> records[i].id != id
    ensures id in UpsertAll(if truncate then map[] else before, Keyed(records)) <==> !truncate && id in before
    ensures !truncate && id in before ==> UpsertAll(before, Keyed(records))[id] == before[id]
  {
    UpsertAllUntouched(if truncate then map[] else before, Keyed(records), id);
  }

  /** Every loaded file parses to a track. */
  predicate AllReadable(info: seq<(int, string)>, readWkt: string -> Option<string>) {
    forall i :: 0 <= i < |info| ==> readWkt(info[i].1).Some?
  }

  /** The `(id, geometry)` rows the loop upserts: the WKT of each file's first
      track, stored with SRID 4326. */
  function Tracks(info: seq<(int, string)>, readWkt: string -> Option<string>): (rows: seq<(int, Geometry)>)
    requires AllReadable(info, readWkt)
    ensures |rows| == |info|
    ensures forall i :: 0 <= i < |info| ==>
      rows[i] == (info[i].0, Geometry(readWkt(info[i].1).value, WGS84))
  {
    if info == [] then []
    else
      var last := info[|info| - 1];
      Tracks(info[..|info| - 1], readWkt) + [(last.0, Geometry(readWkt(last.1).value, WGS84))]
  }

  /** The position of the first file that does not parse. */
  function FirstUnreadable(info: seq<(int, string)>, readWkt: string -> Option<string>): (i: nat)
    requires !AllReadable(info, readWkt)
    ensures i < |info| && readWkt(info[i].1).None?
    ensures forall j :: 0 <= j < i ==> readWkt(info[j].1).Some?
  {
    if readWkt(info[0].1).None? then 0 else 1 + FirstUnreadable(info[1..], readWkt)
  }

  /** The `activity_gpx_tracks` table: whether `init_gpx_table` has created
      it, and its geometry per activity id. */
  class TrackTable {
    var created: bool
    var rows: map<int, Geometry>

    /** A missing table has no rows; every stored geometry is in WGS84. */
    ghost predicate Valid()
      reads this
    {
      (!created ==> rows == map[]) &&
      forall id :: id in rows ==> rows[id].srid == WGS84
    }

    /** A database file in which the table has not been created. */
    constructor ()
      ensures Valid() && !created && rows == map[]
    {
      created := false;
      rows := map[];
    }

    /** `load_activity_gpx_tracks`: create the table (committed at once),
        then upsert each file's track by activity id and commit. A file that
        cannot be read raises before the final commit, so the upserts of
        this call are rolled back and the rows are as they were. */
    method LoadTracks(info: seq<(int, string)>, readWkt: string -> Option<string>) returns (r: Result<(), Error>)
      requires Valid()
      modifies this
      ensures Valid() && created
      ensures r.Ok? <==> AllReadable(info, readWkt)
      ensures r.Ok? ==> rows == UpsertAll(old(rows), Tracks(info, readWkt))
      ensures r.Err? ==> rows == old(rows)
      ensures r.Err? ==> r.error == UnreadableGpx(info[FirstUnreadable(info, readWkt)].1)
    {
      created := true;
      var committed := rows;
      var i := 0;
      while i < |info|
        invariant 0 <= i <= |info|
        invariant Valid() && created
        invariant AllReadable(info[..i], readWkt)
        invariant rows == UpsertAll(committed, Tracks(info[..i], readWkt))
      {
        var wkt := readWkt(info[i].1);
        if wkt.None? {
          FirstUnreadableAt(info, readWkt, i);
          rows := committed;
          return Err(UnreadableGpx(info[i].1));
        }
        var track := (info[i].0, Geometry(wkt.value, WGS84));
        TracksSnoc(info, readWkt, i);
        UpsertAllSnoc(committed, Tracks(info[..i], readWkt), track);
        rows := rows[track.0 := track.1];
        i := i + 1;
      }
      assert info[..|info|] == info;
      return Ok(());
    }
  }

  /** The tracks of one more readable file are the tracks so far and its own. */
  lemma TracksSnoc(info: seq<(int, string)>, readWkt: string -> Option<string>, i: nat)
    requires i < |info| && AllReadable(info[..i], readWkt) && readWkt(info[i].1).Some?
    ensures AllReadable(info[..i + 1], readWkt)
    ensures Tracks(info[..i + 1], readWkt) ==
      Tracks(info[..i], readWkt) + [(info[i].0, Geometry(readWkt(info[i].1).value, WGS84))]
  {
    assert info[..i + 1][..i] == info[..i];
    forall j | 0 <= j <= i
      ensures readWkt(info[j].1).Some?
    {
      if j < i {
        assert info[..i][j] == info[j];
      }
    }
  }

  /** A file that does not parse, after files that all do, is the first
      unreadable one. */
  lemma FirstUnreadableAt(info: seq<(int, string)>, readWkt: string -> Option<string>, i: nat)
    requires i < |info| && AllReadable(info[..i], readWkt) && readWkt(info[i].1).None?
    ensures !AllReadable(info, readWkt) && FirstUnreadable(info, readWkt) == i
  {
    forall j | 0 <= j < i
      ensures readWkt(info[j].1).Some?
    {
      assert info[..i][j] == info[j];
    }
    assert !AllReadable(info, readWkt);
  }

  /** After a successful load a listed id holds the track of its last
      occurrence in the list. */
  lemma LoadedTrackIsLast(before: map<int, Geometry>, info: seq<(int, string)>, readWkt: string -> Option<string>, i: nat)
    requires AllReadable(info, readWkt)
    requires i < |info|
    requires forall j :: i < j < |info| ==> info[j].0 != info[i].0
    ensures info[i].0 in UpsertAll(before, Tracks(info, readWkt))
    ensures UpsertAll(before, Tracks(info, readWkt))[info[i].0] == Geometry(readWkt(info[i].1).value, WGS84)
  {
    UpsertAllLastWins(before, Tracks(info, readWkt), i);
  }

  /** An id that is not listed keeps its row, or stays absent. */
  lemma UnlistedTrackKept(before: map<int, Geometry>, info: seq<(int, string)>, readWkt: string -> Option<string>, id: int)
    requires AllReadable(info, readWkt)
    requires forall i :: 0 <= i < |info| ==> info[i].0 != id
    ensures id in UpsertAll(before, Tracks(info, readWkt)) <==> id in before
    ensures id in before ==> UpsertAll(before, Tracks(info, readWkt))[id] == before[id]
  {
    UpsertAllUntouched(before, Tracks(info, readWkt), id);
  }

  /** Loading the same list of files a second time leaves the table as the
      first load left it; in particular a pair loaded twice gives one row. */
  lemma LoadTwiceIsLoadOnce(before: map<int, Geometry>, info: seq<(int, string)>, readWkt: string -> Option<string>)
    requires AllReadable(info, readWkt)
    ensures UpsertAll(UpsertAll(before, Tracks(info, readWkt)), Tracks(info, readWkt)) ==
      UpsertAll(before, Tracks(info, readWkt))
  {
    UpsertAllIdempotent(before, Tracks(info, readWkt));
  }
}
