/**
 * The catalog store: the rows of `library`, `media_item`, `scan_run` and
 * `job` that the scanner, the thumbnail worker and the streamer read and
 * write.  Timestamps are integers on one clock; SQL NULL is `None`.
 */
module Catalog {
  import opened Wrappers

  /** The `kind` enum of `media_item`. */
  datatype Kind = Video | Audio | Photo | Other

  /** The text the database stores for a kind. */
  function KindName(k: Kind): (s: string)
    ensures s in {"video", "audio", "photo", "other"}
  {
    match k
    case Video => "video"
    case Audio => "audio"
    case Photo => "photo"
    case Other => "other"
  }

  /** One `media_item` row. */
  datatype MediaItem = MediaItem(
    id: int,
    libraryId: int,
    path: string,                // absolute path, the natural key
    relPath: string,
    kind: Kind,
    present: bool,
    missingSince: Option<int>,
    sizeBytes: int,
    mtime: int,
    lastSeenAt: int,
    updatedAt: int,
    thumbPath: Option<string>)

  datatype JobKind = Thumb | Metadata

  /**
   * A job is identified by its kind and item: `on conflict do nothing` on
   * the job inserts is read as a unique (kind, item_id) constraint.
   */
  datatype JobKey = JobKey(kind: JobKind, itemId: int)

  /** The other columns of a `job` row. */
  datatype Job = Job(runAt: int, attempts: int, lockedAt: Option<int>, lastError: Option<string>)

  datatype Library = Library(name: string, roots: seq<string>)

  datatype ScanRun = ScanRun(libraryId: int, startedAt: int, finishedAt: Option<int>)

  /** The tables the scan and the worker change, with the next serial item id. */
  datatype Tables = Tables(items: map<string, MediaItem>, jobs: map<JobKey, Job>, nextItemId: int)

  /**
   * Rows are stored under their own path, ids are positive, issued below the
   * serial counter (which starts at 1) and unique, and an item is absent exactly when it has a
   * `missing_since` timestamp.
   */
  predicate ItemsWellFormed(items: map<string, MediaItem>, nextId: int) {
    && 0 < nextId
    && (forall p :: p in items ==>
          && items[p].path == p
          && 0 < items[p].id < nextId
          && (items[p].present <==> items[p].missingSince == None))
    && (forall p, q :: p in items && q in items && items[p].id == items[q].id ==> p == q)
  }

  /** Some row has this id (the join `mi.id = j.item_id`). */
  predicate HasItem(items: map<string, MediaItem>, id: int) {
    exists p :: p in items && items[p].id == id
  }

  /** The database: one object whose fields are the tables. */
  class Catalog {
    var libraries: map<int, Library>
    var items: map<string, MediaItem>
    var jobs: map<JobKey, Job>
    var runs: map<int, ScanRun>
    var nextItemId: int
    var nextRunId: int

    ghost predicate Valid()
      reads this
    {
      ItemsWellFormed(items, nextItemId)
    }

    function State(): Tables
      reads this
    {
      Tables(items, jobs, nextItemId)
    }

    /** A fresh database holding only the given libraries. */
    constructor (libraries: map<int, Library>)
      ensures Valid()
      ensures this.libraries == libraries
      ensures items == map[] && jobs == map[] && runs == map[]
    {
      this.libraries := libraries;
      items := map[];
      jobs := map[];
      runs := map[];
      nextItemId := 1;
      nextRunId := 1;
    }
  }
}
