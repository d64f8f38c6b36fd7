# media-hub catalog engine, in Dafny

This project models the catalog-maintenance core of media-hub, a self-hosted media server written in Go:

- **Scanner.** It walks the roots of a library and classifies each file by extension. It upserts one catalog row per absolute path and queues thumbnail and metadata jobs. Afterwards it sweeps the rows the walk did not see to "missing".
- **Thumbnail worker.** It polls up to ten unlocked thumbnail jobs in `run_at` order. Each job is locked, then generated. A failure is retried until five failures, at which point the job is dropped.
- **Streamer.** It serves an item by id. When a present item's file no longer opens, it marks the row missing ("self-heal").
- **Configuration.** It loads the extension sets, the "index other" flag and the thumbnail directory from environment values.
- **HTTP-layer rules:**
  - the folder browser (subfolder extraction, the exchange sort, the direct-children filter with its cap of 500)
  - item pagination
  - the recent-items limit
  - the search wildcard pattern
  - library creation checks and the last-user delete guard
  - the per-kind library statistics
  - the authentication middleware: public paths, the bearer header and the `sub` claim
  - the claims of issued tokens

**How the database is modelled.** `Catalog.Tables` holds it:
- the item rows are a map from absolute path to `MediaItem`;
- the job rows are a map from `JobKey(kind, itemId)` to `Job`;
- the next id to assign is `nextItemId`.

The class `Catalog.Catalog` holds these tables, together with the libraries and the scan runs. The scanner, the worker and the streamer are classes whose methods update it in place. Each of those methods is proved equal to a function on the tables (`Scan.ScanTables`, `Worker.ProcessAll`, `Stream.StreamRow`), and the properties are lemmas about those functions.

**External effects are inputs.** The directory walk, `filepath.Clean`, `os.Open`/`Stat`, the external converters, `jwt.Parse` and every clock reading are parameters of the model:

- `walk`, `clean` and `open` are functions.
- A scan run's clock readings are `Scan.ScanClock`.
- A thumbnail attempt's outcome is `Worker.Attempt`.
- A parsed token is `Jwt.ParsedToken`.

**Modules:**

- **Wrappers:** `Option` and `Result`.
- **GoStrings:** the parts of Go's `strings` and `strconv` that the code relies on.
- **Config**
- **Catalog**
- **Scan**
- **Worker**
- **Stream**
- **Folders:** the folder browser of `handleFolders`.
- **Handlers:** the other handler rules.
- **Jwt**
- **Lifecycle:** properties that span several components.

**Where the code departs from its documented design, the model follows the code:**

- **The sweep timestamp.** `missing_since` is set to a fresh clock reading taken for the sweep statement (`ScanClock.sweptAt`), not to the run's start time (backend/internal/scan/scanner.go:133). The watermark compared with `last_seen_at` is the start time.
- **Thumb jobs for audio.** The update branch of the upsert queues a `thumb` job for items of every kind, audio and other included (backend/internal/scan/scanner.go:115-119). Such a job fails with "unsupported kind" on every attempt (`Worker.GenerateOutcome`) and is dropped after the fifth (`Worker.FailingJobLifetime`, which holds for every kind).
- **Jobs on every rescan.** Every rescan of an existing file takes the update branch. It therefore queues `metadata` and `thumb` jobs whether or not the file changed (`Scan.RescanEnqueuesJobs`).
- **Keying of job rows.** The conflict target of the job inserts' `on conflict do nothing` is not part of these sources. The model assumes job rows are unique per (kind, item). The jobs of the update branch rely on column defaults; the model takes them as "scheduled at the enqueue time, no attempts, unlocked, no error".

## Model

| member | source | states |
|---|---|---|
| Config.ParseCSVSet | backend/internal/config/config.go:18-28 | the insertion loop builds exactly the set of the trimmed, lower-cased, non-empty comma-separated pieces |
| Config.CSVSetElements | backend/internal/config/config.go:20-25 | every element of a parsed set is non-empty, holds no comma, and is already trimmed and lower-cased |
| Config.CSVSetEmpty | backend/internal/config/config.go:18-24 | an empty value parses to the empty set |
| Config.CSVSetConcat | backend/internal/config/config.go:20-25 | the set of two lists joined by a comma is the union of their sets, so duplicates collapse |
| Config.NormalizeProperties | backend/internal/config/config.go:21 | a normalised piece is unchanged by trimming and lower-casing again |
| Config.Load | backend/internal/config/config.go:30-45 | the thumbnail directory is "/data/thumbs" exactly when the value is empty and otherwise the value; "index other" holds iff the trimmed lower-cased value is "true"; the extension sets are the parsed sets |
| Config.IndexOtherTolerant | backend/internal/config/config.go:31 | surrounding white space and letter case around "true" still enable "index other" |
| Scan.Ext | backend/internal/scan/scanner.go:67 | the extension is empty or starts with the last dot of the final path element and is a suffix of the path |
| Scan.KindForExt | backend/internal/scan/scanner.go:25-40 | photo iff the key is in the photo set; audio iff in the audio set but not photo; video iff only in the video set; other iff in none and the flag is set; not indexed iff in none and the flag is clear |
| Scan.KindIgnoresCase | backend/internal/scan/scanner.go:26 | extensions equal up to case classify alike |
| Scan.KindIgnoresLeadingDot | backend/internal/scan/scanner.go:26 | one leading dot does not change the classification |
| Scan.KindMatchesLoadedSet | backend/internal/scan/scanner.go:26-29 | an extension listed in the configured photo set classifies as photo, with or without its dot |
| Scan.RelPath | backend/internal/scan/scanner.go:77-81 | under the root, the path is root + rel or root + "/" + rel; otherwise rel is the path |
| Scan.Upsert | backend/internal/scan/scanner.go:91-105 | the row at the path ends present, with no missing-since, refreshed times, and fresh size, mtime, kind, rel-path and library; an existing row keeps its id and thumbnail, a new row gets the next id; it reports update iff the path was there; other rows and jobs are untouched |
| Scan.Enqueue | backend/internal/scan/scanner.go:114-118 | inserting a job that exists changes nothing; a new job is scheduled at the enqueue time with no attempts |
| Scan.EnqueuePolicy | backend/internal/scan/scanner.go:110-119 | the jobs after a file are the old ones plus the wanted ones; existing jobs keep their state, and new ones start fresh |
| Scan.SkippedEntryNoChange | backend/internal/scan/scanner.go:59-75 | a walk error, a directory, an unclassified file or a failed `Info()` changes nothing |
| Scan.Sweep | backend/internal/scan/scanner.go:127-133 | the sweep keeps every path and applies the per-row rule to each |
| Scan.SweepRule | backend/internal/scan/scanner.go:127-133 | a row ends present iff it was present and is not a row of this library last seen before the watermark; an earlier missing-since is kept and a first miss gets the sweep time; rows of other libraries are unchanged |
| Scan.VisitFacts | backend/internal/scan/scanner.go:59-121 | one walk entry refreshes its row if indexed and nothing else; ids and thumbnails are kept; old jobs persist; new jobs start fresh; an existing row gets both jobs |
| Scan.VisitAllFacts | backend/internal/scan/scanner.go:57-124 | the same facts over a whole walk: the rows are the old paths plus the indexed ones, all refreshed |
| Scan.VisitWellFormed | backend/internal/scan/scanner.go:91-105 | an upsert keeps the rows keyed by path, with unique ids below the next id and presence matching missing-since |
| Scan.VisitAllWellFormed | backend/internal/scan/scanner.go:57-124 | a whole walk keeps the rows well formed |
| Scan.SweepWellFormed | backend/internal/scan/scanner.go:127-133 | the sweep keeps the rows well formed |
| Scan.ScanWellFormed | backend/internal/scan/scanner.go:56-133 | a scan keeps the rows well formed |
| Scan.ScanReconciles | backend/internal/scan/scanner.go:56-133 | after a scan the rows are the old ones plus the seen paths; seen rows are refreshed; unseen rows are swept; ids are kept and no job is lost or altered |
| Scan.MissingItemMarkedAbsent | backend/internal/scan/scanner.go:127-133 | a present row of the library not seen by the walk ends absent, with its old missing-since or the sweep time |
| Scan.OtherLibrariesUntouched | backend/internal/scan/scanner.go:132 | an unseen row of another library is unchanged |
| Scan.FirstMissWins | backend/internal/scan/scanner.go:130 | a file missing in three consecutive scans keeps the first scan's missing-since |
| Scan.RescanEnqueuesJobs | backend/internal/scan/scanner.go:115-119 | rescanning an existing file queues its metadata and thumb jobs, whatever its kind |
| Scan.WalkDeterminesSeenRows | backend/internal/scan/scanner.go:91-105 | the file fields of a seen row depend only on the walk, not on the earlier tables or the clock |
| Scan.SweepKeepsRefreshed | backend/internal/scan/scanner.go:132 | the sweep leaves a row refreshed in the same run alone |
| Scan.RescanStable | backend/internal/scan/scanner.go:91-133 | scanning an unchanged tree twice leaves each seen row as after the first scan except for its last-seen and updated times |
| Scan.Scanner.VisitEntry | backend/internal/scan/scanner.go:59-121 | the walk callback changes the tables exactly as one visit does |
| Scan.Scanner.UpsertItem | backend/internal/scan/scanner.go:88-104 | the statement changes the items and the next id exactly as the upsert does and returns its id and whether it updated |
| Scan.Scanner.EnqueueJobs | backend/internal/scan/scanner.go:110-118 | the inserts change the job table exactly as the enqueue policy does and nothing else |
| Scan.Scanner.WalkRoot | backend/internal/scan/scanner.go:59-122 | the walk of one root changes the tables exactly as visiting its entries in order does |
| Scan.Scanner.WalkRoots | backend/internal/scan/scanner.go:57-123 | the walk of every root in turn changes the tables exactly as visiting all their entries in order does |
| Scan.Scanner.Reconcile | backend/internal/scan/scanner.go:56-133 | walking the roots and then sweeping gives exactly the scan's tables, leaving libraries and runs alone |
| Scan.Scanner.ScanLibrary | backend/internal/scan/scanner.go:42-140 | an unknown library gives an error and changes nothing; otherwise the tables become the scan's result, a finished run is recorded, and the tables stay well formed |
| Worker.SelectionBounds | backend/internal/worker/thumb.go:55-62 | a poll selects at most ten jobs, all thumb jobs that exist and are unlocked |
| Worker.Earliest | backend/internal/worker/thumb.go:60 | picks a pending job with the least run time |
| Worker.ExtendSelection | backend/internal/worker/thumb.go:55-83 | taking the earliest pending eligible job extends a valid partial selection |
| Worker.SelectionComplete | backend/internal/worker/thumb.go:55-83 | a partial selection that is full or has no pending job left is what the query returns |
| Worker.GenerateOutcome | backend/internal/worker/thumb.go:122-135 | generation succeeds iff the source exists, the kind is photo or video and the tool succeeds; a missing source and an unsupported kind give their messages |
| Worker.ThumbPathShape | backend/internal/worker/thumb.go:93 | the thumbnail path is the cleaned "dir/<id>.jpg" |
| Worker.ThumbNamesDistinct | backend/internal/worker/thumb.go:93 | distinct items get distinct thumbnail file names |
| Worker.ProcessOneOutcome | backend/internal/worker/thumb.go:85-119 | a failed lock changes nothing; success records the thumbnail on the item's row and deletes the job; a fifth failure deletes the job; an earlier failure unlocks it, counts the attempt and records the error; no other job changes |
| Worker.OtherJobUntouched | backend/internal/worker/thumb.go:85-119 | processing one job leaves every other job as it was |
| Worker.OwnJobLocal | backend/internal/worker/thumb.go:85-119 | what processing does to a job depends only on that job's row |
| Worker.UnselectedJobUntouched | backend/internal/worker/thumb.go:85-119 | a poll leaves the jobs it did not select unchanged |
| Worker.PollActsPerJob | backend/internal/worker/thumb.go:85-119 | with distinct selected jobs, each ends as processing it alone would leave it |
| Worker.PollFrame | backend/internal/worker/thumb.go:85-119 | a poll only deletes jobs, never adds rows, and changes at most the thumbnail of an item |
| Worker.PollKeepsJobsSane | backend/internal/worker/thumb.go:96-107 | after a poll every job has fewer than five failures, and no selected job stays locked |
| Worker.FailingJobLifetime | backend/internal/worker/thumb.go:96-107 | a fresh job that fails n < 5 times is still queued, unlocked, with n attempts; after the fifth failure it is gone |
| Worker.SuccessAfterRetries | backend/internal/worker/thumb.go:110-117 | after four failures a success still records the thumbnail and deletes the job |
| Worker.FailTimesKeepsItems | backend/internal/worker/thumb.go:96-107 | failures never change item rows |
| Worker.PollKeepsWellFormed | backend/internal/worker/thumb.go:110-111 | a poll keeps the rows well formed |
| Worker.ThumbWorker.SelectThumbJobs | backend/internal/worker/thumb.go:55-83 | the selection is what the query returns: as many eligible jobs as the limit allows, distinct, in run order, none later than a left-out one |
| Worker.ThumbWorker.ProcessRow | backend/internal/worker/thumb.go:85-119 | the loop body changes the tables as processing one job does |
| Worker.ThumbWorker.ProcessBatch | backend/internal/worker/thumb.go:85-120 | the loop over the batch changes the tables exactly as processing its rows in order does |
| Worker.ThumbWorker.ProcessJobs | backend/internal/worker/thumb.go:53-120 | a poll selects a valid batch and applies processing to each job in turn, keeping the tables well formed |
| Stream.SelfHeal | backend/internal/stream/stream.go:34-43 | a present row whose file fails to open becomes absent, keeps an earlier missing-since or gets now, is reported not found, and no other row changes |
| Stream.AbsentRowNotFound | backend/internal/stream/stream.go:29-32 | an absent row is not found and nothing changes |
| Stream.OpenedNoChange | backend/internal/stream/stream.go:44-50 | an opened file is served iff its stat succeeds, a stat error otherwise, and the catalog does not change |
| Stream.ServedOnlyPresent | backend/internal/stream/stream.go:21-57 | content is served only for a present row, with no catalog change |
| Stream.MarkMissingWellFormed | backend/internal/stream/stream.go:37-40 | marking a row missing keeps the rows well formed |
| Stream.Streamer.StreamById | backend/internal/stream/stream.go:21-57 | an unknown id is not found and changes nothing; otherwise the response and the new rows are those of the found row; no other table changes |
| Folders.FolderPathShape | backend/internal/api/handlers.go:595-596 | the folder path has no slash at either end and is the space-trimmed parameter with only slashes cut off before and after it |
| Folders.LikePercentMatchesAll | backend/internal/api/handlers.go:657 | the pattern "%" matches every string |
| Folders.LikeEscapedPrefix | backend/internal/api/handlers.go:656-657 | a prefix with its LIKE wildcards escaped, followed by "%", matches exactly the strings that start with the prefix |
| Folders.FolderOf | backend/internal/api/handlers.go:674-678 | an extracted folder name holds no slash |
| Folders.FolderOfChild | backend/internal/api/handlers.go:674-678 | a rel-path prefix + name + "/" + tail yields the folder name |
| Folders.FolderNameIsSegment | backend/internal/api/handlers.go:670-681 | each collected name is a slash-free segment that some row has under the prefix, followed by a slash |
| Folders.CollectFolders | backend/internal/api/handlers.go:670-681 | the map-filling loop collects exactly the folder names of the rows |
| Folders.SetToSeq | backend/internal/api/handlers.go:685-687 | the slice holds each name of the set exactly once |
| Folders.ExchangeSort | backend/internal/api/handlers.go:689-695 | the nested swap loops leave the array sorted ascending and a permutation of its input |
| Folders.SwapInMinimum | backend/internal/api/handlers.go:690-694 | one outer pass puts a least remaining element at position i, leaving the sorted front and the multiset of the rest |
| Folders.SortedDistinctStrict | backend/internal/api/handlers.go:689-695 | a sorted list of distinct names is strictly ascending |
| Folders.ListSubfolders | backend/internal/api/handlers.go:670-695 | the listed subfolders are exactly the folder names, each once, strictly ascending |
| Folders.Children | backend/internal/api/handlers.go:716-725 | every kept row is one of the rows and lies directly in the folder |
| Folders.ChildrenPrefix | backend/internal/api/handlers.go:716-725 | filtering a prefix of the rows gives a prefix of the filtered rows |
| Folders.DirectChildren | backend/internal/api/handlers.go:709-729 | the items are the first direct children in row order, min(500, their number) of them |
| Folders.UnescapedPatternListsStranger | backend/internal/api/handlers.go:656-681 | with path "a_b", a row "axb/c/d.jpg" outside the folder makes "axb" a listed subfolder |
| Folders.FoldersUnderAreSubfolders | backend/internal/api/handlers.go:656-681 | with the pattern escaped, the rows are exactly those under path + "/", and each listed folder is a slash-free segment of one of them |
| Folders.FolderUnderIsSegment | backend/internal/api/handlers.go:656-681 | with the pattern escaped, a listed folder is a slash-free segment directly below path + "/" in some row under the folder |
| Folders.TrimSlashesShape | backend/internal/api/handlers.go:596 | the slash-trimmed string has no slash at either end and is what remains after cutting only slashes off both ends |
| Config.NonEmptyImagesSnoc | backend/internal/config/config.go:20-25 | one more piece adds its normalised form to the set exactly when that form is non-empty, as the skip of empty pieces does |
| Handlers.Wrap64 | backend/internal/api/handlers.go:242 | the 64-bit result lies in range, is congruent to the exact value, and equals it when it fits |
| Handlers.ClampPage | backend/internal/api/handlers.go:204-211 | the page is kept iff ≥ 1, else 1; the page size is kept iff in 1..200, else 50 |
| Handlers.ClampPageIdempotent | backend/internal/api/handlers.go:206-211 | clamping clamped values changes nothing |
| Handlers.Offset | backend/internal/api/handlers.go:242 | the intended offset is never negative |
| Handlers.OffsetAsWrittenAgrees | backend/internal/api/handlers.go:242 | when the product fits in 64 bits, the written offset is the intended one |
| Handlers.OffsetWrapsNegative | backend/internal/api/handlers.go:242 | page 10^18 with the default page size gives a negative written offset |
| Handlers.ItemsPaging | backend/internal/api/handlers.go:196-243 | the corrected paging of handleItems: an error iff the library id is not positive; otherwise the limit is in 1..200 and the offset is the clamped page's earlier rows, never negative |
| Handlers.ItemsPagingAsWritten | backend/internal/api/handlers.go:196-243 | the paging as written: the same error and limit, the offset a 64-bit value that equals the corrected, non-negative one whenever (page-1)*pageSize fits below 2^63 |
| Handlers.ItemsPagingAsWrittenNegative | backend/internal/api/handlers.go:242 | as written, page 10^18 of a valid library reaches the query with a negative offset |
| Handlers.PagesTile | backend/internal/api/handlers.go:242-243 | page n + 1 starts exactly where page n ends |
| Handlers.ThumbUrl | backend/internal/api/handlers.go:649-651 | a link exists iff the thumbnail path is non-empty, and is "/api/items/<id>/thumb" |
| Handlers.ThumbUrlsDistinct | backend/internal/api/handlers.go:722-724 | distinct items get distinct thumbnail links |
| Handlers.RecentLimit | backend/internal/api/handlers.go:914-920 | the limit is the parsed value when it lies in 1..100, and 20 otherwise |
| Handlers.RecentLimitIdempotent | backend/internal/api/handlers.go:914-920 | a resulting limit is accepted unchanged |
| Handlers.ReplaceStarFacts | backend/internal/api/handlers.go:1100 | the replaced query has no "*", and has a "%" iff the query had "*" or "%" |
| Handlers.WrapFacts | backend/internal/api/handlers.go:1101-1103 | wrapping keeps the pattern free of "*" and gives it a "%" |
| Handlers.SearchPatternShape | backend/internal/api/handlers.go:1084-1103 | an empty trimmed query gives no pattern; otherwise the pattern has a "%" and no "*", is the replaced query when it had a wildcard, and "%q%" otherwise |
| Handlers.ValidateLibrary | backend/internal/api/handlers.go:141-145 | accepted iff the trimmed name is non-empty and a root is given; accepted libraries carry the trimmed name; refusals say "name and roots required" |
| Handlers.ValidLibraryNameTrimmed | backend/internal/api/handlers.go:141 | an accepted name is non-blank and has nothing left to trim |
| Handlers.DeleteKeepsAUser | backend/internal/api/handlers.go:815-839 | a deletion happens iff the id is positive and at least two users exist (a failed count refuses); self deletion is reported iff the caller is the deleted user |
| Handlers.AggregateStats | backend/internal/api/handlers.go:1256-1292 | the accumulation loop computes the statistics of the rows in order |
| Handlers.StatsTotals | backend/internal/api/handlers.go:1256-1292 | the totals are the sums of all counts and sizes; the other count sums the rows of unknown kinds; the path is the first root if any |
| Handlers.StatsPerKind | backend/internal/api/handlers.go:1281-1287 | with one row per kind, each known kind's count is that row's count, or 0 |
| Handlers.CountsPartition | backend/internal/api/handlers.go:1280-1290 | the counts of video, photo, audio and the rest add up to the total |
| Handlers.StatsAddUp | backend/internal/api/handlers.go:1279-1291 | for grouped rows the total equals the sum of the four per-kind counts |
| Jwt.PublicSuffixes | backend/internal/api/jwt.go:42-45 | every path ending in "/stream" or "/thumb" is public |
| Jwt.ThumbUrlIsPublic | backend/internal/api/jwt.go:41-45 | the thumbnail links of folder listings are public paths |
| Jwt.BearerToken | backend/internal/api/jwt.go:47-52 | a token exists iff the header starts with "Bearer ", and the header is that prefix followed by the token |
| Jwt.BearerRoundTrip | backend/internal/api/jwt.go:52 | the token of "Bearer " + t is t |
| Jwt.TruncateTowardZero | backend/internal/api/jwt.go:74 | the conversion drops the fraction toward zero |
| Jwt.TruncateWhole | backend/internal/api/jwt.go:74 | whole numbers convert to themselves |
| Jwt.SubUserId | backend/internal/api/jwt.go:72-80 | a number or int64 claim gives a user id, anything else is refused |
| Jwt.PublicPathsPass | backend/internal/api/jwt.go:36-45 | a request passes unauthenticated iff its path is public, login and health included |
| Jwt.MissingBearerRefused | backend/internal/api/jwt.go:47-51 | a protected request without a bearer header is refused with "missing bearer token" |
| Jwt.AuthenticatedOnlyWithValidSub | backend/internal/api/jwt.go:54-83 | a request is authenticated iff its path is protected, its header is a bearer header, and the token parses, is valid, has a claims map and a numeric sub; the id is that claim's value |
| Jwt.ExpiryOneWeek | backend/internal/api/jwt.go:23-27 | the expiry is at most seven days after the issue time, exactly seven days within one second, and never less than seven days minus a second for readings under a second apart |
| Jwt.IssuedTokenAuthenticates | backend/internal/api/jwt.go:22-83 | a token issued for a user authenticates that user on any protected path |
| Lifecycle.ScanKeepsAttemptsBounded | backend/internal/scan/scanner.go:112-119 | a scan keeps every job below the attempt limit |
| Lifecycle.HealedRowRestoredByScan | backend/internal/stream/stream.go:34-43 | a row marked missing by the streamer is present again, with no missing-since and the same id, after a scan that finds the file |
| Lifecycle.PollThenScanSane | backend/internal/worker/thumb.go:85-119 | a poll followed by a scan keeps the rows well formed and the jobs below the attempt limit |
| GoStrings.LexLessTotal | backend/internal/api/handlers.go:691 | the string order compares any two distinct strings |
| GoStrings.LexLessTransitive | backend/internal/api/handlers.go:691 | the string order is transitive |
| GoStrings.DecimalRoundTrip | backend/internal/worker/thumb.go:93 | the decimal digits of an id read back as the id |

## Left out

- **Database:**
  - The SQL text, pgx, and database errors are left out. The worker's lock failure is the exception; the model treats every other statement as succeeding.
  - Row order of `ORDER BY rel_path` is not modelled: the folder rows arrive in the order given.
  - The `GROUP BY kind` of the statistics query is represented only by the `DistinctKinds` precondition. The thumbnail counts of `handleLibraryStats` (handlers.go:1295-1305) are SQL aggregates and are not modelled.
  - The root-level branch of `handleFolders` (handlers.go:606-653) is a pair of SQL queries (`split_part`, `NOT LIKE`) and is not modelled.
  - The full-text and tag queries of `handleSearch` are not modelled; only its pattern is.
- **Filesystem and tools:**
  - `filepath.WalkDir`, `filepath.Clean`, `os.Open`, `os.Stat` and `d.Info()` are inputs, not modelled.
  - The external `convert`, `ffmpeg` and `ffprobe` runs and their seek arithmetic (thumb.go:137-203) are an oracle outcome.
  - Byte serving (`http.ServeContent`), headers, JSON encoding and routing are not modelled.
- **Concurrency:** the worker's ticker loop `Run`, the background scan of `handleScan` and every goroutine are not modelled. Each poll, scan and request is one atomic step.
- **Foreign code:** bcrypt, JWT signing and signature checking are left out; `jwt.Parse` is an oracle.
- **Other files:** jellyfin.go, scripts/import_jellyfin.py, backend/internal/db/db.go, backend/cmd/server/main.go and the plain records of types.go are not part of this model. `handleRegenerateThumbs` and the other CRUD handlers are not part of this model either.
- **Go library approximations:**
  - `strings.ToLower` is modelled for ASCII letters only.
  - LIKE matching treats a pattern ending in a lone escape character as matching nothing.
  - Empty folder listings are sequences; the `nil` versus empty-slice distinction of handlers.go:733-738 does not exist in the model.
- Jwt.TruncateTowardZero: float64 rounding, NaN and values outside the 64-bit range are not modelled. Claims are exact reals, so precision lost above 2^53 in the `sub` round trip is not captured.
- Handlers.StatsTotals: 64-bit overflow of the count and size sums is not modelled. The sums are unbounded integers.
- Scan.KindForExt: `strings.ToLower` on non-ASCII extensions is not modelled, because the lower-casing is ASCII only.
- Handlers.ItemsPaging: it gives the intended, never negative offset; handleItems computes `(page - 1) * pageSize` in 64-bit `int` (handlers.go:242), which wraps for huge pages. That behaviour is `Handlers.ItemsPagingAsWritten`; see "## Findings".
- Scan.ScanClock: one `enqueuedAt` reading stands for every job insert of a run, while the source reads the clock at each insert (`NOW()` and the `run_at` default, scanner.go:112-119). So all jobs queued by one scan tie on `run_at` in the model, and the order in which the worker's `ORDER BY run_at LIMIT 10` (thumb.go:55-62) takes them is left open, where in the source later inserts get later times.
- Jwt.ExpiryOneWeek: its `firstNow <= secondNow` requirement assumes the wall clock behind `time.Now().Unix()` (jwt.go:25-26) does not step back between the two readings.

## Findings

| source | as written | input that shows it | evidently intended | confidence | as-written member | corrected member |
|---|---|---|---|---|---|---|
| backend/internal/api/handlers.go:242 | `offset := (page - 1) * pageSize` is computed in 64-bit `int` from an unbounded `page` parameter, so it wraps | `page=1000000000000000000` with the default page size 50 gives offset -5340232221128654898, which the database rejects as a negative OFFSET | a non-negative offset: reject or cap huge pages | not executed | Handlers.OffsetWrapsNegative | Handlers.Offset |
| backend/internal/api/handlers.go:656-681 | the folder pattern `path + "/%"` is passed to LIKE unescaped, so `_` and `%` in a folder name act as wildcards | listing folder "a_b" when a present row has rel-path "axb/c/d.jpg" lists "axb" as a subfolder of "a_b" | escape `\`, `_` and `%` in the prefix, so that only rows under the folder match | not executed | Folders.UnescapedPatternListsStranger | Folders.FoldersUnderAreSubfolders |
