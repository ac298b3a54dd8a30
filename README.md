# strava-to-sqlite, modelled in Dafny

`strava-to-sqlite` is a command-line tool. It copies a Strava athlete's
activities into a SQLite database and stores each activity's GPS track as a
SpatiaLite geometry. This project models the logic of its `cli.py` that
decides what is fetched, which file names are used and what ends up in the
tables. It then proves what that logic promises.

- **`activities` command** (`sync.dfy`, `watermark.dfy`, `tables.dfy`,
  `upsert.dfy`)
  - Reads the watermark, which is the newest stored `start_date`.
  - Builds the query parameters: `after` is sent only when a watermark exists
    and `--all-activities` is not set.
  - Pages through the listing endpoint until a non-200 status or an empty
    page. A request or JSON decode that raises ends the command, and the
    pages fetched so far are lost.
  - Otherwise inserts everything it fetched in one batch, keyed by `id`,
    optionally after truncating the table.
  - `ActivitiesTable` is a class whose row map `InsertAll` updates in place.
- **GPX file names** (`slug.dfy`, `decimal.dfy`)
  - `slugify` lower-cases, deletes `# ' " , -`, and turns every run of
    whitespace into one separator.
  - `gpx_filename` builds `YYYYMMDD_<id>_<slug>.gpx`.
- **`activity-gpx` command** (`selection.dfy`, `download.dfy`,
  `gpx_command.dfy`)
  - Selection has three branches:
    1. The explicit `--activity-id` values, matched against the table.
    2. Every activity, under `--all-activities`.
    3. By default, the activities with a start latitude whose track is not
       loaded yet. These are read through `activity_tuples_to_dict`.
  - When nothing is selected, the command returns early.
  - Otherwise the `download_gpx` loop handles each activity in one of three
    ways:
    - a cached file is kept;
    - the activity page is visited and the track downloaded and copied into
      the cache when the page offers "Export GPX"; a copy that fails ends the
      command before anything is loaded;
    - otherwise the activity is skipped.
  - Every returned file is then loaded.
- **Loading tracks** (`tables.dfy`, `gpx_command.dfy`)
  - `load_activity_gpx_tracks` is `TrackTable.LoadTracks`. It creates the
    table, then upserts one WGS84 (SRID 4326) geometry per file.
  - A file that cannot be read aborts the transaction. Every row from the
    current call is discarded, but the table creation stays, because it was
    committed first.
  - The `load-activity-gpx` command loads a single file.

An empty store is handled in two different ways (`cli.py:135-149`). When the
`activities` table does not exist, the `MAX(start_date)` query yields no row,
the `IndexError` is caught and everything is fetched. When the table exists
but is empty, `MAX(start_date)` is NULL, and `None[:4]` raises a `TypeError`
that nothing catches. The model follows the code: `Watermark.ReadWatermark`
gives `Err(NullMaxStartDate)` in the second case, and
`Watermark.EmptyTableRaises` states it.

## Model

| member | source | states |
|---|---|---|
| Slug.LowerChar | strava_to_sqlite/cli.py:189 | a lower-cased character is never upper-case; the letter `'A' + k` becomes `'a' + k` and every other character is unchanged |
| Slug.DeleteAll | strava_to_sqlite/cli.py:192 | deleting a character class never lengthens a string; DeleteAllRemoves and DeleteAllMembers give what is kept |
| Slug.Strip | strava_to_sqlite/cli.py:192 | after `re.sub(r"[#'\",\-]", "", s)` none of `# ' " , -` is left, and the string is no longer than before |
| Slug.DeleteAllRemoves | strava_to_sqlite/cli.py:192 | no character of the deleted class is left |
| Slug.DeleteAllMembers | strava_to_sqlite/cli.py:192 | every kept character comes from the input, and every character outside the class is kept |
| Slug.DeleteAllAppend | strava_to_sqlite/cli.py:192 | deleting a character class distributes over concatenation, so the kept characters keep their order |
| Slug.DeleteAllNone | strava_to_sqlite/cli.py:192 | a string with no character of the class is left as it is |
| Slug.Collapse | strava_to_sqlite/cli.py:195 | every character of `re.sub(r"\s+", sep, s)` is a separator character or a non-whitespace character of `s` |
| Slug.CollapseRun | strava_to_sqlite/cli.py:195 | a non-empty run of whitespace becomes exactly one separator |
| Slug.CollapseNoSpace | strava_to_sqlite/cli.py:195 | a string without whitespace is not changed |
| Slug.CollapseAppend | strava_to_sqlite/cli.py:195 | collapsing distributes over a concatenation that does not join two whitespace runs |
| Slug.CollapseKeepsOrder | strava_to_sqlite/cli.py:195 | with an empty separator, collapsing is deleting all whitespace, so the other characters keep their order |
| Slug.CollapseKeepsOrderSep | strava_to_sqlite/cli.py:195 | with a one-character separator such as `_` that is not whitespace and not in the input, deleting the separators from the result gives the input's non-whitespace characters in their order |
| Slug.Slugify | strava_to_sqlite/cli.py:186-197 | outside the characters of `sep`, a slug has no upper-case letter, none of `# ' " , -` and no whitespace |
| Slug.DefaultSlugIsClean | strava_to_sqlite/cli.py:186-197 | with the default `_` separator a slug has no upper-case letter, no deleted punctuation and no whitespace |
| Slug.SlugifyExample | strava_to_sqlite/cli.py:186-197 | `slugify("Morning Run #1")` is `morning_run_1` |
| Slug.Prefix | strava_to_sqlite/cli.py:203 | the `[:10]` slice is the whole string when it is shorter, else its first ten characters |
| Slug.DateSlug | strava_to_sqlite/cli.py:203 | the date slug has at most ten characters and no dash |
| Slug.DateSlugOfIsoDate | strava_to_sqlite/cli.py:203 | for a `YYYY-MM-DD...` local date the date slug is the eight digits `YYYYMMDD` |
| Slug.GpxFilename | strava_to_sqlite/cli.py:200-205 | the file name ends in `.gpx` and begins with the date slug and `_`; GpxFilenameDeterminesId shows the name identifies the activity |
| Slug.GpxFilenameExample | strava_to_sqlite/cli.py:200-205 | activity 123 "Morning Run #1" on 2021-05-02 gets the file name `20210502_123_morning_run_1.gpx` |
| Slug.GpxFilenameDeterminesId | strava_to_sqlite/cli.py:200-205 | two activities with ISO local dates share a file name only when they share an id |
| Decimal.IntToString | strava_to_sqlite/cli.py:205 | the id is printed with a minus sign exactly when it is negative, followed by decimal digits, without a leading zero, that denote its absolute value |
| Decimal.IntToStringInjective | strava_to_sqlite/cli.py:205 | distinct ids print differently |
| Base.Slice | strava_to_sqlite/cli.py:140-145 | a Python slice is clamped to the string and never fails: it has the clamped length and the characters from the start index on |
| Watermark.DaysInMonth | strava_to_sqlite/cli.py:139 | a month has 28 to 31 days: 29 exactly for February of a leap year, 28 exactly for February of another year, 30 exactly for April, June, September and November, as `datetime()` checks |
| Watermark.ReadWatermark | strava_to_sqlite/cli.py:135-149 | a missing table, and only that, gives no watermark; a NULL maximum, and only that, raises `TypeError`; a watermark read is a valid datetime; the only other error is `ValueError` |
| Watermark.ParseInt | strava_to_sqlite/cli.py:140-145 | on the ASCII digit strings the model admits, `int()` of a slice succeeds exactly on a non-empty digit string; the number it reads is below 10 to the string's length, and zero-padded back to that width it is the string again |
| Watermark.ParseIntPadded | strava_to_sqlite/cli.py:140-145 | `int()` of a zero-padded field gives back the number |
| Watermark.WatermarkRoundTrip | strava_to_sqlite/cli.py:139-146 | a start date the API wrote as `YYYY-MM-DDTHH:MM:SS` plus any suffix reads back as the same date and time |
| Watermark.WatermarkReadsNineteen | strava_to_sqlite/cli.py:140-145 | only the first 19 characters of the stored text matter |
| Watermark.ShortTextIsMalformed | strava_to_sqlite/cli.py:145 | a stored text of at most 17 characters raises `ValueError` (at the latest on the empty seconds slice) |
| Watermark.MissingTableHasNoWatermark | strava_to_sqlite/cli.py:135-149 | without an activities table the sync starts with no watermark |
| Watermark.EmptyTableRaises | strava_to_sqlite/cli.py:135-140 | on an existing but empty table the read raises `TypeError` |
| Watermark.TextLeAntisymmetric | strava_to_sqlite/cli.py:137 | under SQLite's text ordering, two texts that are each at most the other are equal |
| Watermark.NewestStartDateIsWatermark | strava_to_sqlite/cli.py:135-146 | when the newest stored start date is the API text of `dt`, the watermark is `dt` |
| Sync.InitialParams | strava_to_sqlite/cli.py:151-157 | `after` is present exactly when `--all-activities` is off and a watermark was read; its value is the watermark's epoch time; there is no other key |
| Sync.StopIndex | strava_to_sqlite/cli.py:167-175 | the loop stops at the first response that raises, has a non-200 status or has an empty page |
| Sync.FetchPages | strava_to_sqlite/cli.py:159-179 | request j carries the initial parameters with `page` = j+1, and one request is sent per response up to the stopping one; the result is the concatenation of the pages before it; the 429 flag is set exactly when the stopping response has status 429; the raised flag exactly when the stopping response is an exception |
| Sync.Pages | strava_to_sqlite/cli.py:177 | the accumulated list is at least as long as each page it was built from |
| Sync.PagesMembers | strava_to_sqlite/cli.py:177 | the accumulated list holds exactly the activities some page holds |
| Sync.PageInPlace | strava_to_sqlite/cli.py:177 | each fetched page sits whole and in order in the accumulated list, after the pages before it |
| Sync.StopIndexIsFirstStop | strava_to_sqlite/cli.py:167-175 | after N full 200 pages and then a stopping response, exactly N pages are fetched |
| Sync.RateLimitIsOrdinaryStop | strava_to_sqlite/cli.py:167-171 | a 429 ends the loop like any other stopping response: replacing it changes neither the requests nor the activities fetched |
| Sync.SyncActivities | strava_to_sqlite/cli.py:135-183 | a watermark error is raised before anything is fetched or written; an exception inside the loop gives `RequestFailed` and leaves the table as it was, so the pages fetched are lost; otherwise the requests are the paged initial parameters and the fetched activities are inserted, or nothing changes when none were fetched |
| Sync.AfterInEveryRequest | strava_to_sqlite/cli.py:151-162 | every request has `page`, and has `after` exactly when `--all-activities` is off and a start date was stored; then `after` is the watermark's epoch time |
| Tables.ActivitiesTable.InsertAll | strava_to_sqlite/cli.py:181-183 | an empty batch changes nothing; otherwise the table exists afterwards and holds the old rows (none under `truncate`) upserted with the records in order |
| Tables.InsertedRowIsLast | strava_to_sqlite/cli.py:181-183 | an inserted id holds the last record with that id |
| Tables.UninsertedRowKept | strava_to_sqlite/cli.py:181-183 | an id no record carries keeps its old row unless `truncate` removed it, and no row appears for it |
| Tables.Tracks | strava_to_sqlite/cli.py:477-494 | one WGS84 geometry row per file, keyed by its activity id and holding the file's WKT |
| Tables.FirstUnreadable | strava_to_sqlite/cli.py:467-478 | the first file that cannot be read; every earlier file can be |
| Tables.TrackTable.LoadTracks | strava_to_sqlite/cli.py:464-496 | the table exists afterwards; the load succeeds exactly when every file can be read and then upserts every track in order; otherwise it raises on the first unreadable file and leaves the rows as they were |
| Tables.LoadedTrackIsLast | strava_to_sqlite/cli.py:486-494 | after a load, a listed id holds the geometry of its last file |
| Tables.UnlistedTrackKept | strava_to_sqlite/cli.py:486-494 | an id that is not listed keeps its row, or stays absent |
| Tables.LoadTwiceIsLoadOnce | strava_to_sqlite/cli.py:486-494 | loading the same files twice leaves the table as loading them once |
| Upsert.UpsertAll | strava_to_sqlite/cli.py:489-494 | upserting loses no old row and leaves every upserted key present; the lemmas below give each key's value |
| Upsert.UpsertAllKeys | strava_to_sqlite/cli.py:489-494 | after upserting, the keys are the old keys plus the upserted ones |
| Upsert.UpsertAllUntouched | strava_to_sqlite/cli.py:489-494 | a key that is not upserted keeps its value, or stays absent |
| Upsert.UpsertAllLastWins | strava_to_sqlite/cli.py:489-494 | an upserted key holds the value of its last occurrence (`ON CONFLICT ... DO UPDATE`) |
| Upsert.UpsertAllAppend | strava_to_sqlite/cli.py:489-494 | upserting `a + b` is upserting `a` and then `b` |
| Upsert.UpsertAllAt | strava_to_sqlite/cli.py:489-494 | every key of the result was upserted or was already present with the same value |
| Upsert.UpsertAllIdempotent | strava_to_sqlite/cli.py:489-494 | upserting the same list twice is upserting it once |
| Upsert.UpsertAllRepeatedPair | strava_to_sqlite/cli.py:489-494 | a pair repeated back to back has the effect of one |
| GpxSelection.ActivityTuplesToDict | strava_to_sqlite/cli.py:288-303 | one record per row, in row order, whose id, name and local start date are the row's three columns |
| GpxSelection.Select | strava_to_sqlite/cli.py:366-398 | the selected rows come from the table and meet the `WHERE` clause, and every matching row is selected |
| GpxSelection.Selection | strava_to_sqlite/cli.py:357-398 | the selection fails exactly when no ids are given, `--all-activities` is off and a table is missing; the error names the activities table when it is missing, else the track table; a missing activities table otherwise selects nothing |
| GpxSelection.SelectActivities | strava_to_sqlite/cli.py:357-398 | the three-way choice, the default branch going through `activity_tuples_to_dict`, yields the selection the tables determine, or a "no such table" error |
| GpxSelection.ExplicitIdsTakePrecedence | strava_to_sqlite/cli.py:357-379 | once ids are given, neither `--all-activities` nor the track table makes a difference, and no error is raised |
| GpxSelection.DefaultSelectionMembers | strava_to_sqlite/cli.py:381-398 | the default branch selects exactly the activities with a start latitude whose id is not in the track table |
| GpxSelection.SelectIsSubsequence | strava_to_sqlite/cli.py:366-398 | a selection keeps the table's row order |
| GpxSelection.SelectEverything | strava_to_sqlite/cli.py:375-379 | with no condition every row is selected |
| GpxSelection.AllActivitiesKeepsEveryRow | strava_to_sqlite/cli.py:375-379 | under `--all-activities` the selection is every row of the table, with count and order kept |
| GpxSelection.SelectionIsSubsequence | strava_to_sqlite/cli.py:357-398 | whatever the branch, the selection lists table rows in table order |
| GpxSelection.SummariesKeepSubsequence | strava_to_sqlite/cli.py:371-378 | taking the three columns keeps a subsequence a subsequence |
| Download.GpxPath | strava_to_sqlite/cli.py:253 | the cache path is a `.gpx` path that starts with the cache directory and `/`; it lies directly in that directory only when the slug of the name keeps no `/`; DistinctIdsGiveDistinctPaths shows distinct activities get distinct paths |
| Download.Run | strava_to_sqlite/cli.py:252-285 | the per-activity decision (`Step`) applied in order: the cache only grows; there are no more returned pairs, and no more visited pages, than activities, and no more copies than visits |
| Download.RunAfterFailure | strava_to_sqlite/cli.py:278 | once a copy into the cache has failed, the remaining activities change nothing |
| Download.DownloadGpx | strava_to_sqlite/cli.py:252-285 | the loop's returned list, visited pages, copies, cache directory and failed copy are those of the per-activity decision applied in order, stopping at the first failed copy |
| Download.RunInfoInOrder | strava_to_sqlite/cli.py:252-285 | the returned pairs follow the activities' order |
| Download.RunVisitsInOrder | strava_to_sqlite/cli.py:262 | activity pages are visited in the activities' order |
| Download.RunDownloadsVisitedAndReturned | strava_to_sqlite/cli.py:267-279 | every copy into the cache is of a visited page, and its pair is returned |
| Download.RunFiles | strava_to_sqlite/cli.py:278 | the cache directory gains exactly the copied files |
| Download.RunPerActivity | strava_to_sqlite/cli.py:256-279 | with distinct paths and no failed copy, an activity is returned exactly when it was cached or offers an export, visited exactly when it was not cached, and downloaded exactly when it was not cached and offers an export |
| Download.RunLastActivity | strava_to_sqlite/cli.py:256-279 | with no failed copy, the last activity, whose path no earlier one shares, is returned exactly when cached or exported, visited exactly when not cached, downloaded exactly when not cached and exported |
| Download.RunFailure | strava_to_sqlite/cli.py:256-279 | with distinct paths, the loop ends in a failed copy exactly when some uncached activity that offers an export cannot be copied, and the failure names such an activity |
| Download.DistinctIdsGiveDistinctPaths | strava_to_sqlite/cli.py:200-205 | activities with distinct ids and ISO local dates get distinct cache paths |
| GpxCommand.ActivityGpx | strava_to_sqlite/cli.py:357-414 | a selection error, an empty selection or a failed copy leaves the track table alone, and a failed copy raises with its path; otherwise the download loop runs on the selection and its returned files are loaded, every returned activity having a track on success |
| GpxCommand.LoadActivityGpx | strava_to_sqlite/cli.py:515-517 | loading one file upserts its track under the given id, or raises and leaves the rows as they were |
| GpxCommand.SelectionHasDistinctIds | strava_to_sqlite/cli.py:357-398 | a selection from the table lists each activity id at most once |

## Left out

- OAuth: the token file, `save_token`, the authorisation server and
  `OAuth2Session` are not modelled. The listing endpoint is a finite sequence
  of responses that must contain one that ends the loop. A response is either
  a status with a page or `Raised`, which stands for any exception of
  `client.get` (a network error, a failed token refresh) or of `resp.json()`.
- Sync.SyncActivities: an `insert_all` that raises (sqlite-utils rejects a
  record with a column the table lacks, since `alter=True` is not passed) is
  not modelled; that behaviour belongs to the library, and the model inserts
  every batch.
- `int(max_start_date.timestamp())` depends on the local time zone, so it is
  the `epoch` parameter.
- The `sleep(1)` and `sleep(randint(1, 5))` pauses and the
  "Request limit reached" message on stderr are not modelled. The message is
  the `rateLimited` flag of the report.
- The Playwright browser is not modelled: launch, login, clicks and the
  temporary download path. A page offering "Export GPX" is the `hasExport`
  predicate, and a download is the cached file appearing.
- Download.Step: a click on "Actions" or an `expect_download` that times out
  raises and ends the whole `activity-gpx` command, as a failed copy does;
  the model lets only the copy fail (`canCopy`), and treats every visit as
  reaching the page.
- Whether `shutil.copyfile` can write a cache path is the `canCopy`
  predicate. The file system that decides it is not modelled: a name whose
  slug keeps a `/` (an activity called "Run 5/10") points into a directory
  that does not exist, and the copy raises.
- GpxCommand.ActivityGpx: after a failed copy it returns only the error;
  the files copied before it stay in the cache but are not reported
  (DownloadGpx returns them).
- `gpx_path.exists()` is modelled as membership in the set of cached files.
  `gpx_dir / name` is modelled as `dir + "/" + name`.
- Fiona and Shapely parsing of a GPX file is the `readWkt` parameter. `None`
  stands for any exception they raise.
- `init_gpx_table` is not modelled: its SpatiaLite metadata, column checks and
  `mod_spatialite` loading. Its effect is the `created` flag.
- Click parsing and the environment variables (`STRAVA_USERNAME`,
  `STRAVA_PASSWORD`, client id and secret) are not modelled. `os.makedirs` of
  the cache directories is not modelled.
- SQL without `ORDER BY` returns rows in an order SQLite chooses. That order
  is the `listing` parameter.
- Slug.Lower: only ASCII `A`-`Z` are lower-cased, not the full Unicode
  `str.lower()`.
- Slug.Slugify: `sep` is inserted literally. `re.sub` reads it as a
  replacement template (`\t` becomes a tab, `\g<0>` keeps the whitespace
  run, and a lone trailing backslash raises `re.error`). The program only
  calls `slugify` with the default `_`, which has no backslash.
- Slug.IsSpace: `\s` covers only ASCII whitespace (9-13 and 28-32), not
  Unicode whitespace.
- Watermark.ReadWatermark: `int()` is modelled only on ASCII digit strings.
  It treats as `ValueError` the forms Python would also accept: surrounding
  whitespace, a sign, underscores or non-ASCII digits.
- Watermark.ParseInt: the same restriction. `int(" 7")`, `int("+7")` and
  `int("1_0")` succeed in Python but give `None` here.
- Records.Activity: the model holds the columns the core reads (`id`, `name`,
  `start_date`, `start_date_local`, `start_latitude`). The other fields of
  the API's JSON are not kept. Names and dates are never NULL.
- GpxSelection.Selection: when both tables are missing, the default query is
  taken to report the `activities` table first.
- The `auth` command and `auth_http_server.py` only obtain and store an
  OAuth token, so they are not modelled. The `setup.py` packaging is not
  modelled either.
