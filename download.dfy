/** The decision loop of `download_gpx`: for each selected activity, keep
    the cached GPX file, or visit the activity page and download the track
    when the page offers "Export GPX", or skip the activity. The browser is
    abstracted to the `hasExport` predicate, the download to adding the
    file to the cache directory, and whether `shutil.copyfile` can write a
    cache path to the `canCopy` predicate. */
module Download {
  import opened Base
  import opened Records
  import opened Slug

  /** `gpx_dir / gpx_filename(activity)`: a `.gpx` path that starts with the
      cache directory and `/`. It lies directly in that directory only when
      the slug of the name keeps no `/` ("Run 5/10" points one level down). */
  function GpxPath(gpxDir: string, a: Summary): (r: string)
    ensures |r| > |gpxDir| + 5 && r[..|gpxDir| + 1] == gpxDir + "/" && r[|r| - 4..] == ".gpx"
  {
    gpxDir + "/" + GpxFilename(a)
  }

  /** An `(activity id, GPX path)` pair as `download_gpx` returns them. */
  type Entry = (int, string)

  function EntryOf(gpxDir: string, a: Summary): (e: Entry)
    ensures e.0 == a.id
  {
    (a.id, GpxPath(gpxDir, a))
  }

  /** The entry of every activity, in order. */
  function Entries(gpxDir: string, acts: seq<Summary>): (es: seq<Entry>)
    ensures |es| == |acts|
    ensures forall i :: 0 <= i < |acts| ==> es[i] == EntryOf(gpxDir, acts[i])
  {
    seq(|acts|, i requires 0 <= i < |acts| => EntryOf(gpxDir, acts[i]))
  }

  /** What the loop has done: the entries it returns, the activity pages it
      visited, the files it copied into the cache, the files now in the
      cache, and the entry whose copy failed, if one did (`shutil.copyfile`
      raising ends the loop and the command). */
  datatype Outcome = Outcome(
    info: seq<Entry>, visits: seq<Entry>, downloads: seq<Entry>, files: set<string>, failed: Option<Entry>)

  /** One turn of the loop: keep a cached file; else visit the activity
      page; when it offers an export, download the track and copy it into
      the cache, or stop when the copy fails. Nothing happens after a failure. */
  function Step(p: Outcome, e: Entry, hasExport: int -> bool, canCopy: string -> bool): Outcome {
    if p.failed.Some? then p
    else if e.1 in p.files then p.(info := p.info + [e])
    else if !hasExport(e.0) then p.(visits := p.visits + [e])
    else if !canCopy(e.1) then p.(visits := p.visits + [e], failed := Some(e))
    else Outcome(p.info + [e], p.visits + [e], p.downloads + [e], p.files + {e.1}, None)
  }

  /** The outcome of the loop over the activities whose entries are `es`
      when the cache directory starts with the files `files0`. */
  function Run(es: seq<Entry>, files0: set<string>, hasExport: int -> bool, canCopy: string -> bool): (r: Outcome)
    ensures files0 <= r.files
    ensures |r.info| <= |es| && |r.downloads| <= |r.visits| <= |es|
  {
    if es == [] then Outcome([], [], [], files0, None)
    else Step(Run(es[..|es| - 1], files0, hasExport, canCopy), es[|es| - 1], hasExport, canCopy)
  }

  lemma RunPrefixSnoc(es: seq<Entry>, i: nat, files0: set<string>, hasExport: int -> bool, canCopy: string -> bool)
    requires i < |es|
    ensures Run(es[..i + 1], files0, hasExport, canCopy) ==
      Step(Run(es[..i], files0, hasExport, canCopy), es[i], hasExport, canCopy)
  {
    assert es[..i + 1][..i] == es[..i];
  }

  /** Once a copy has failed, the remaining activities change nothing. */
  lemma {:induction false} RunAfterFailure(es: seq<Entry>, k: nat, files0: set<string>, hasExport: int -> bool, canCopy: string -> bool)
    requires k <= |es| && Run(es[..k], files0, hasExport, canCopy).failed.Some?
    ensures Run(es, files0, hasExport, canCopy) == Run(es[..k], files0, hasExport, canCopy)
    decreases |es| - k
  {
    if k == |es| {
      assert es[..k] == es;
    } else {
      var init := es[..|es| - 1];
      assert init[..k] == es[..k];
      RunAfterFailure(init, k, files0, hasExport, canCopy);
    }
  }

  /** `download_gpx` once logged in: the returned list, the pages visited,
      the copies made, the resulting cache directory and the failed copy. */
  method DownloadGpx(
    acts: seq<Summary>, gpxDir: string, files0: set<string>, hasExport: int -> bool, canCopy: string -> bool)
    returns (info: seq<Entry>, visits: seq<Entry>, downloads: seq<Entry>, files: set<string>, failed: Option<Entry>)
    ensures Outcome(info, visits, downloads, files, failed) == Run(Entries(gpxDir, acts), files0, hasExport, canCopy)
  {
    ghost var es := Entries(gpxDir, acts);
    info, visits, downloads, files, failed := [], [], [], files0, None;
    var i := 0;
    while i < |acts| && failed.None?
      invariant 0 <= i <= |acts|
      invariant Outcome(info, visits, downloads, files, failed) == Run(es[..i], files0, hasExport, canCopy)
    {
      var activity := acts[i];
      var gpxPath := GpxPath(gpxDir, activity);
      var entry := (activity.id, gpxPath);
      assert entry == es[i];
      ghost var next := Step(Outcome(info, visits, downloads, files, failed), entry, hasExport, canCopy);
      RunPrefixSnoc(es, i, files0, hasExport, canCopy);
      if gpxPath in files {
        info := info + [entry];
      } else {
        visits := visits + [entry];
        if hasExport(activity.id) {
          if !canCopy(gpxPath) {
            failed := Some(entry);
          } else {
            files := files + {gpxPath};
            downloads := downloads + [entry];
            info := info + [entry];
          }
        }
      }
      assert Outcome(info, visits, downloads, files, failed) == next;
      i := i + 1;
    }
    if i < |acts| {
      RunAfterFailure(es, i, files0, hasExport, canCopy);
    } else {
      assert es[..i] == es;
    }
  }

  /** The paths of some entries. */
  function PathsOf(es: seq<Entry>): (ps: set<string>)
    ensures forall i :: 0 <= i < |es| ==> es[i].1 in ps
    ensures forall p :: p in ps ==> exists i :: 0 <= i < |es| && es[i].1 == p
  {
    set i | 0 <= i < |es| :: es[i].1
  }

  /** The returned entries follow the input order. */
  lemma {:induction false} RunInfoInOrder(es: seq<Entry>, files0: set<string>, hasExport: int -> bool, canCopy: string -> bool)
    ensures IsSubsequence(Run(es, files0, hasExport, canCopy).info, es)
    decreases |es|
  {
    if es != [] {
      var init, e := es[..|es| - 1], es[|es| - 1];
      var p := Run(init, files0, hasExport, canCopy);
      RunInfoInOrder(init, files0, hasExport, canCopy);
      assert es == init + [e];
      if Run(es, files0, hasExport, canCopy).info == p.info {
        SubsequenceAppend(p.info, init, e);
      } else {
        SubsequenceSnoc(p.info, init, e);
      }
    }
  }

  /** The visited pages follow the input order. */
  lemma {:induction false} RunVisitsInOrder(es: seq<Entry>, files0: set<string>, hasExport: int -> bool, canCopy: string -> bool)
    ensures IsSubsequence(Run(es, files0, hasExport, canCopy).visits, es)
    decreases |es|
  {
    if es != [] {
      var init, e := es[..|es| - 1], es[|es| - 1];
      var p := Run(init, files0, hasExport, canCopy);
      RunVisitsInOrder(init, files0, hasExport, canCopy);
      assert es == init + [e];
      if Run(es, files0, hasExport, canCopy).visits == p.visits {
        SubsequenceAppend(p.visits, init, e);
      } else {
        SubsequenceSnoc(p.visits, init, e);
      }
    }
  }

  /** Every download is a visited page whose entry is also returned. */
  lemma {:induction false} RunDownloadsVisitedAndReturned(es: seq<Entry>, files0: set<string>, hasExport: int -> bool, canCopy: string -> bool)
    ensures var p := Run(es, files0, hasExport, canCopy);
      IsSubsequence(p.downloads, p.info) && IsSubsequence(p.downloads, p.visits)
    decreases |es|
  {
    if es != [] {
      var init, e := es[..|es| - 1], es[|es| - 1];
      var p := Run(init, files0, hasExport, canCopy);
      RunDownloadsVisitedAndReturned(init, files0, hasExport, canCopy);
      if p.failed.Some? {
      } else if e.1 in p.files {
        SubsequenceAppend(p.downloads, p.info, e);
      } else if !hasExport(e.0) || !canCopy(e.1) {
        SubsequenceAppend(p.downloads, p.visits, e);
      } else {
        SubsequenceSnoc(p.downloads, p.info, e);
        SubsequenceSnoc(p.downloads, p.visits, e);
      }
    }
  }

  /** The cache directory gains exactly the copied files. */
  lemma {:induction false} RunFiles(es: seq<Entry>, files0: set<string>, hasExport: int -> bool, canCopy: string -> bool)
    ensures Run(es, files0, hasExport, canCopy).files == files0 + PathsOf(Run(es, files0, hasExport, canCopy).downloads)
    decreases |es|
  {
    if es != [] {
      var init, e := es[..|es| - 1], es[|es| - 1];
      var p := Run(init, files0, hasExport, canCopy);
      RunFiles(init, files0, hasExport, canCopy);
      if p.failed.None? && e.1 !in p.files && hasExport(e.0) && canCopy(e.1) {
        PathsOfSnoc(p.downloads, e);
      }
    }
  }

  lemma PathsOfSnoc(es: seq<Entry>, e: Entry)
    ensures PathsOf(es + [e]) == PathsOf(es) + {e.1}
  {
    var xs := es + [e];
    forall p | p in PathsOf(xs)
      ensures p in PathsOf(es) + {e.1}
    {
      var i :| 0 <= i < |xs| && xs[i].1 == p;
      if i < |es| {
        assert xs[i] == es[i];
      }
    }
    forall p | p in PathsOf(es)
      ensures p in PathsOf(xs)
    {
      var i :| 0 <= i < |es| && es[i].1 == p;
      assert xs[i] == es[i];
    }
    assert xs[|es|] == e;
  }

  /** No two entries share a GPX path. */
  predicate DistinctPaths(es: seq<Entry>) {
    forall i, j :: 0 <= i < j < |es| ==> es[i].1 != es[j].1
  }

  lemma DistinctPathsInit(es: seq<Entry>)
    requires es != [] && DistinctPaths(es)
    ensures DistinctPaths(es[..|es| - 1])
  {
    var init := es[..|es| - 1];
    forall j, k | 0 <= j < k < |init|
      ensures init[j].1 != init[k].1
    {
      assert init[j] == es[j] && init[k] == es[k];
    }
  }

  /** With distinct paths, when no copy fails, each activity's fate depends
      only on whether its file was cached beforehand and whether its page
      offers an export: a cached activity is returned without any visit or
      download; an uncached one is visited, and downloaded and returned
      exactly when it offers "Export GPX". */
  lemma {:induction false} RunPerActivity(es: seq<Entry>, files0: set<string>, hasExport: int -> bool, canCopy: string -> bool, i: nat)
    requires DistinctPaths(es) && i < |es|
    requires Run(es, files0, hasExport, canCopy).failed.None?
    ensures var e := es[i];
      var p := Run(es, files0, hasExport, canCopy);
      (e in p.info <==> e.1 in files0 || hasExport(e.0)) &&
      (e in p.visits <==> e.1 !in files0) &&
      (e in p.downloads <==> e.1 !in files0 && hasExport(e.0))
    decreases |es|
  {
    var n := |es| - 1;
    if i == n {
      RunLastActivity(es, files0, hasExport, canCopy);
    } else {
      var init := es[..n];
      DistinctPathsInit(es);
      assert init[i] == es[i];
      assert Run(init, files0, hasExport, canCopy).failed.None?;
      RunPerActivity(init, files0, hasExport, canCopy, i);
      RunOtherActivity(es, files0, hasExport, canCopy, es[i]);
    }
  }

  /** An entry other than the last is in each list of the run exactly when
      it is in that list of the run without the last entry. */
  lemma RunOtherActivity(es: seq<Entry>, files0: set<string>, hasExport: int -> bool, canCopy: string -> bool, x: Entry)
    requires es != [] && x != es[|es| - 1]
    ensures var p, q := Run(es[..|es| - 1], files0, hasExport, canCopy), Run(es, files0, hasExport, canCopy);
      (x in q.info <==> x in p.info) && (x in q.visits <==> x in p.visits) &&
      (x in q.downloads <==> x in p.downloads)
  {
  }

  /** Before its turn, the last activity's path is in the cache exactly when
      it was there from the start, and the activity is in no list yet. */
  lemma LastPathFresh(es: seq<Entry>, files0: set<string>, hasExport: int -> bool, canCopy: string -> bool)
    requires es != [] && DistinctPaths(es)
    ensures var last, p := es[|es| - 1], Run(es[..|es| - 1], files0, hasExport, canCopy);
      (last.1 in p.files <==> last.1 in files0) &&
      last !in p.info && last !in p.visits && last !in p.downloads
  {
    var n := |es| - 1;
    var init := es[..n];
    var last := es[n];
    var p := Run(init, files0, hasExport, canCopy);
    assert forall x :: x in init ==> x.1 != last.1 by {
      forall x | x in init
        ensures x.1 != last.1
      {
        var j :| 0 <= j < n && init[j] == x;
        assert es[j] == x;
      }
    }
    assert last !in p.info by {
      RunInfoInOrder(init, files0, hasExport, canCopy);
      SubsequenceMembers(p.info, init);
    }
    assert last !in p.visits by {
      RunVisitsInOrder(init, files0, hasExport, canCopy);
      SubsequenceMembers(p.visits, init);
    }
    assert last !in p.downloads && (last.1 in p.files <==> last.1 in files0) by {
      RunInfoInOrder(init, files0, hasExport, canCopy);
      RunDownloadsVisitedAndReturned(init, files0, hasExport, canCopy);
      RunFiles(init, files0, hasExport, canCopy);
      SubsequenceMembers(p.info, init);
      SubsequenceMembers(p.downloads, p.info);
      forall k | 0 <= k < |p.downloads|
        ensures p.downloads[k].1 != last.1
      {
        assert p.downloads[k] in init;
      }
    }
  }

  /** The last activity's fate, when its path is not shared with an earlier
      one and no copy failed. */
  lemma RunLastActivity(es: seq<Entry>, files0: set<string>, hasExport: int -> bool, canCopy: string -> bool)
    requires es != [] && DistinctPaths(es)
    requires Run(es, files0, hasExport, canCopy).failed.None?
    ensures var e := es[|es| - 1];
      var p := Run(es, files0, hasExport, canCopy);
      (e in p.info <==> e.1 in files0 || hasExport(e.0)) &&
      (e in p.visits <==> e.1 !in files0) &&
      (e in p.downloads <==> e.1 !in files0 && hasExport(e.0))
  {
    LastPathFresh(es, files0, hasExport, canCopy);
  }

  /** A path copied at its turn, in a run with distinct paths. */
  predicate MustCopy(e: Entry, files0: set<string>, hasExport: int -> bool) {
    e.1 !in files0 && hasExport(e.0)
  }

  /** With distinct paths, the loop ends in a failed copy exactly when some
      activity whose file was not cached offers an export whose copy cannot
      be made, and the failure names such an activity. */
  lemma {:induction false} RunFailure(es: seq<Entry>, files0: set<string>, hasExport: int -> bool, canCopy: string -> bool)
    requires DistinctPaths(es)
    ensures Run(es, files0, hasExport, canCopy).failed.None? <==>
      forall i :: 0 <= i < |es| && MustCopy(es[i], files0, hasExport) ==> canCopy(es[i].1)
    ensures Run(es, files0, hasExport, canCopy).failed.Some? ==>
      var e := Run(es, files0, hasExport, canCopy).failed.value;
      e in es && MustCopy(e, files0, hasExport) && !canCopy(e.1)
    decreases |es|
  {
    if es != [] {
      var n := |es| - 1;
      var init, last := es[..n], es[n];
      var p := Run(init, files0, hasExport, canCopy);
      DistinctPathsInit(es);
      RunFailure(init, files0, hasExport, canCopy);
      if p.failed.Some? {
        var j :| 0 <= j < |init| && MustCopy(init[j], files0, hasExport) && !canCopy(init[j].1);
        assert es[j] == init[j];
        assert p.failed.value in es by {
          assert p.failed.value in init;
          assert forall x :: x in init ==> x in es;
        }
      } else {
        LastPathFresh(es, files0, hasExport, canCopy);
        forall i | 0 <= i < n
          ensures es[i] == init[i]
        {
        }
      }
    }
  }

  /** Distinct activity ids with `YYYY-MM-DD` local dates give distinct paths,
      which is what a selection from the activities table provides. */
  lemma DistinctIdsGiveDistinctPaths(gpxDir: string, acts: seq<Summary>)
    requires forall i :: 0 <= i < |acts| ==> IsIsoDate(acts[i].startDateLocal)
    requires forall i, j :: 0 <= i < j < |acts| ==> acts[i].id != acts[j].id
    ensures DistinctPaths(Entries(gpxDir, acts))
  {
    forall i, j | 0 <= i < j < |acts|
      ensures GpxPath(gpxDir, acts[i]) != GpxPath(gpxDir, acts[j])
    {
      if GpxPath(gpxDir, acts[i]) == GpxPath(gpxDir, acts[j]) {
        var prefix := gpxDir + "/";
        assert GpxFilename(acts[i]) == GpxPath(gpxDir, acts[i])[|prefix|..];
        assert GpxFilename(acts[j]) == GpxPath(gpxDir, acts[j])[|prefix|..];
        GpxFilenameDeterminesId(acts[i], acts[j]);
      }
    }
  }
}
