/** The `activities` command: read the watermark, build the query
    parameters, page through the athlete's activity listing and store what
    was fetched. */
module Sync {
  import opened Base
  import opened Records
  import opened Watermark
  import opened Upsert
  import opened Tables

  /** One answer of the activity listing endpoint: the HTTP status and the
      decoded JSON list of activities, or `Raised` when `client.get` or
      `resp.json()` raised instead (a network error, a failed token refresh,
      a 200 body that is not JSON). */
  datatype Response =
    | Response(status: int, page: seq<Activity>)
    | Raised

  /** Up to the first stopping response, only that one stops. */
  lemma StopsOnlyAtStopIndex(server: seq<Response>, k: nat)
    requires Terminates(server) && k <= StopIndex(server)
    ensures Stops(server[k]) <==> k == StopIndex(server)
  {
  }

  /** The activities a response contributes; an exception contributes none. */
  function PageOf(r: Response): seq<Activity> {
    if r.Raised? then [] else r.page
  }

  /** A response that ends the paging loop: an exception, a non-200 status
      or an empty page. */
  predicate Stops(r: Response) {
    r.Raised? || r.status != 200 || r.page == []
  }

  /** The endpoint eventually answers with a response that ends the loop
      (otherwise the loop never finishes). */
  predicate Terminates(server: seq<Response>) {
    exists k :: 0 <= k < |server| && Stops(server[k])
  }

  /** The position of the first response that ends the loop. */
  function StopIndex(server: seq<Response>): (k: nat)
    requires Terminates(server)
    ensures k < |server| && Stops(server[k])
    ensures forall j :: 0 <= j < k ==> !Stops(server[j])
  {
    if Stops(server[0]) then 0
    else
      assert Terminates(server[1..]) by {
        var k :| 0 <= k < |server| && Stops(server[k]);
        assert server[1..][k - 1] == server[k];
      }
      1 + StopIndex(server[1..])
  }

  /** The activities of the given responses, page after page (`+=` on a
      list); no page is longer than the whole. */
  function Pages(rs: seq<Response>): (r: seq<Activity>)
    ensures forall j :: 0 <= j < |rs| ==> |PageOf(rs[j])| <= |r|
  {
    if rs == [] then []
    else
      var init := rs[..|rs| - 1];
      assert forall j :: 0 <= j < |init| ==> init[j] == rs[j];
      Pages(init) + PageOf(rs[|rs| - 1])
  }

  /** The accumulated list holds exactly the activities some page holds. */
  lemma {:induction false} PagesMembers(rs: seq<Response>)
    ensures forall a :: a in Pages(rs) <==> exists j :: 0 <= j < |rs| && a in PageOf(rs[j])
    decreases |rs|
  {
    if rs != [] {
      var init := rs[..|rs| - 1];
      PagesMembers(init);
      assert forall j :: 0 <= j < |init| ==> init[j] == rs[j];
    }
  }

  lemma PagesPrefixSnoc(rs: seq<Response>, k: nat)
    requires k < |rs|
    ensures Pages(rs[..k + 1]) == Pages(rs[..k]) + PageOf(rs[k])
  {
    assert rs[..k + 1][..k] == rs[..k];
  }

  /** The query parameters before the first page: `after` only when the
      user did not ask for everything and a watermark was read. */
  function InitialParams(allActivities: bool, watermark: Option<DateTime>, epoch: DateTime -> int): (p: map<string, int>)
    ensures "after" in p <==> !allActivities && watermark.Some?
    ensures "after" in p ==> p["after"] == epoch(watermark.value)
    ensures p.Keys <= {"after"}
  {
    if !(allActivities || watermark.None?) then map["after" := epoch(watermark.value)] else map[]
  }

  /** The first `n` requests of the loop: the parameters with `page` set to
      1, ..., n. */
  ghost function Requests(params: map<string, int>, n: nat): (rs: seq<map<string, int>>)
    ensures |rs| == n
    ensures forall j :: 0 <= j < n ==> rs[j] == params["page" := j + 1]
  {
    seq(n, j requires 0 <= j < n => params["page" := j + 1])
  }

  lemma RequestsSnoc(params: map<string, int>, n: nat)
    ensures Requests(params, n + 1) == Requests(params, n) + [params["page" := n + 1]]
  {
  }

  /** The paging loop: the same parameter dictionary is sent with `page`
      set to 1, 2, 3, ... until a response ends the loop; every page before
      that one is appended to the result. A 429 status only adds the
      "Request limit reached" message; an exception leaves the loop with
      `raised` set. */
  method FetchPages(params: map<string, int>, server: seq<Response>)
    returns (requests: seq<map<string, int>>, fetched: seq<Activity>, rateLimited: bool, raised: bool)
    requires Terminates(server)
    ensures |requests| == StopIndex(server) + 1
    ensures forall j :: 0 <= j < |requests| ==> requests[j] == params["page" := j + 1]
    ensures fetched == Pages(server[..StopIndex(server)])
    ensures rateLimited <==> server[StopIndex(server)].Response? && server[StopIndex(server)].status == 429
    ensures raised <==> server[StopIndex(server)].Raised?
  {
    var stop := StopIndex(server);
    var current := params;
    var page := 1;
    requests, fetched, rateLimited, raised := [], [], false, false;
    while true
      invariant 1 <= page <= stop + 1
      invariant |requests| == page - 1
      invariant requests == Requests(params, page - 1)
      invariant current["page" := page] == params["page" := page]
      invariant fetched == Pages(server[..page - 1])
      decreases stop + 1 - page
    {
      current := current["page" := page];
      assert current == params["page" := page];
      RequestsSnoc(params, page - 1);
      requests := requests + [current];
      var resp := server[page - 1];
      StopsOnlyAtStopIndex(server, page - 1);
      if resp.Raised? {
        raised := true;
        break;
      }
      if resp.status != 200 {
        rateLimited := resp.status == 429;
        break;
      }
      if |resp.page| == 0 {
        break;
      }
      PagesPrefixSnoc(server, page - 1);
      fetched := fetched + resp.page;
      assert current["page" := page + 1] == params["page" := page + 1];
      page := page + 1;
    }
  }

  /** Each page sits, whole and in place, in the accumulated list: the pages
      before it come first, then its own activities. */
  lemma {:induction false} PageInPlace(rs: seq<Response>, j: nat)
    requires j < |rs|
    ensures |Pages(rs[..j])| + |PageOf(rs[j])| <= |Pages(rs)|
    ensures Pages(rs)[..|Pages(rs[..j])|] == Pages(rs[..j])
    ensures Pages(rs)[|Pages(rs[..j])|..|Pages(rs[..j])| + |PageOf(rs[j])|] == PageOf(rs[j])
    decreases |rs|
  {
    var init := rs[..|rs| - 1];
    if j == |rs| - 1 {
      assert rs[..j] == init;
    } else {
      PageInPlace(init, j);
      assert init[..j] == rs[..j];
      assert init[j] == rs[j];
    }
  }

  /** The loop stops at the first response that ends it: with `n` full
      pages in front of it, exactly those `n` pages are fetched. */
  lemma StopIndexIsFirstStop(server: seq<Response>, n: nat)
    requires n < |server| && Stops(server[n])
    requires forall j :: 0 <= j < n ==> server[j].Response? && server[j].status == 200 && server[j].page != []
    ensures Terminates(server) && StopIndex(server) == n
  {
  }

  /** A 429 ends the loop like any other stopping response: putting some
      other stopping response in its place changes neither the requests
      sent nor the activities fetched. */
  lemma RateLimitIsOrdinaryStop(server: seq<Response>, other: Response)
    requires Terminates(server) && Stops(other)
    ensures var t := server[StopIndex(server) := other];
      Terminates(t) && StopIndex(t) == StopIndex(server) &&
      t[..StopIndex(t)] == server[..StopIndex(server)]
  {
    var k := StopIndex(server);
    var t := server[k := other];
    assert Stops(t[k]);
    StopIndexIsFirstStop(t, k);
    assert t[..k] == server[..k];
  }

  /** What a successful run reports: the parameters of every request and
      whether the listing answered 429. */
  datatype SyncReport = SyncReport(requests: seq<map<string, int>>, rateLimited: bool)

  /** The `activities` command on a database whose `MAX(start_date)` query
      returns `maxStartDate`. An error while reading the watermark is raised
      before anything is fetched or written. An exception inside the paging
      loop ends the command too, and the pages fetched so far are lost.
      Otherwise every fetched activity is inserted in one batch after the
      loop, and an empty batch leaves the database as it was (even under
      `--truncate`). */
  method SyncActivities(
    table: ActivitiesTable, maxStartDate: MaxStartDate, allActivities: bool, truncate: bool,
    epoch: DateTime -> int, server: seq<Response>)
    returns (r: Result<SyncReport, Error>)
    requires table.Valid() && IsMaxStartDate(maxStartDate, table.present, table.rows)
    requires Terminates(server)
    modifies table
    ensures table.Valid()
    ensures r.Err? <==> ReadWatermark(maxStartDate).Err? || server[StopIndex(server)].Raised?
    ensures r.Err? ==> table.present == old(table.present) && table.rows == old(table.rows)
    ensures r.Err? ==> r.error == if ReadWatermark(maxStartDate).Err? then ReadWatermark(maxStartDate).error else RequestFailed
    ensures r.Ok? ==>
      var params := InitialParams(allActivities, ReadWatermark(maxStartDate).value, epoch);
      |r.value.requests| == StopIndex(server) + 1 &&
      (forall j :: 0 <= j < |r.value.requests| ==> r.value.requests[j] == params["page" := j + 1]) &&
      (r.value.rateLimited <==> server[StopIndex(server)].Response? && server[StopIndex(server)].status == 429)
    ensures r.Ok? && Pages(server[..StopIndex(server)]) == [] ==>
      table.present == old(table.present) && table.rows == old(table.rows)
    ensures r.Ok? && Pages(server[..StopIndex(server)]) != [] ==> (table.present &&
      table.rows == UpsertAll(if truncate then map[] else old(table.rows), Keyed(Pages(server[..StopIndex(server)]))))
  {
    var watermark := ReadWatermark(maxStartDate);
    if watermark.Err? {
      return Err(watermark.error);
    }
    var params := InitialParams(allActivities, watermark.value, epoch);
    var requests, fetched, rateLimited, raised := FetchPages(params, server);
    if raised {
      return Err(RequestFailed);
    }
    table.InsertAll(fetched, truncate);
    return Ok(SyncReport(requests, rateLimited));
  }

  /** Every request of a run carries `after` exactly when the user did not
      ask for everything and the activities table existed, and then it is
      the epoch time of the newest stored start date. */
  lemma AfterInEveryRequest(maxStartDate: MaxStartDate, allActivities: bool, epoch: DateTime -> int, page: int)
    requires ReadWatermark(maxStartDate).Ok?
    ensures var request := InitialParams(allActivities, ReadWatermark(maxStartDate).value, epoch)["page" := page];
      request.Keys == {"page"} + (if !allActivities && maxStartDate.Text? then {"after"} else {}) &&
      request["page"] == page &&
      (maxStartDate.Text? && !allActivities ==>
        request["after"] == epoch(ReadWatermark(maxStartDate).value.value))
  {
  }
}
