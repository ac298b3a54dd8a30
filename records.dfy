/** The entities the command-line tool moves between the Strava API, the
    GPX cache directory and the SQLite database. */
module Records {
  import opened Base

  /** One row of the `activities` table, as returned by the activities
      listing endpoint. Only the fields the tool itself reads are kept; the
      other passthrough columns travel with the row unchanged and are not
      modelled. */
  datatype Activity = Activity(
    id: int,
    name: string,
    startDate: string,
    startDateLocal: string,
    startLatitude: Option<real>)

  /** The `{id, name, start_date_local}` dictionary handed to the GPX fetcher. */
  datatype Summary = Summary(id: int, name: string, startDateLocal: string)

  function SummaryOf(a: Activity): (s: Summary)
    ensures s.id == a.id && s.name == a.name && s.startDateLocal == a.startDateLocal
  {
    Summary(a.id, a.name, a.startDateLocal)
  }

  /** The spatial reference every stored track uses (WGS84). */
  const WGS84: int := 4326

  /** A stored track: the WKT text handed to `MultiLineStringFromText` and its SRID. */
  datatype Geometry = Geometry(wkt: string, srid: int)

  /** The exceptions the modelled code paths can raise. */
  datatype Error =
    | NullMaxStartDate      // TypeError: slicing the NULL that MAX() returns on an empty table
    | MalformedStartDate    // ValueError: int() of a slice, or datetime() of the fields
    | NoSuchTable(table: string)   // sqlite3.OperationalError from a query naming a missing table
    | UnreadableGpx(path: string)  // fiona could not read a track from the cached file
    | CopyFailed(path: string)     // OSError: shutil.copyfile could not write the cache file
    | RequestFailed         // client.get or resp.json() raised inside the paging loop
}
