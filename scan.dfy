/**
 * The scanner (backend/internal/scan/scanner.go): walks the roots of one
 * library, classifies and upserts every indexable file, enqueues jobs, and
 * marks the library's items that the walk did not see as missing.
 *
 * The directory walk, `filepath.Clean` and the clock are inputs: `walk`
 * gives the entries `filepath.WalkDir` reports for a root, `clean` is the
 * lexical path cleaner, and a `ScanClock` holds the clock readings of one run.
 */
module Scan {
  import opened Wrappers
  import opened GoStrings
  import opened Config
  import opened Catalog

  datatype FileInfo = FileInfo(size: int, mtime: int)

  /** One call of the walk function: an error, a directory, or a file whose `Info()` may fail. */
  datatype WalkEntry =
    | WalkError(path: string)
    | DirEntry(path: string)
    | FileEntry(path: string, info: Option<FileInfo>)

  /** A walk entry together with the cleaned root it was found under. */
  datatype Located = Located(root: string, entry: WalkEntry)

  /**
   * The clock readings of one run: the scan start (the watermark and every
   * `last_seen_at`), the database time at which jobs are inserted, the time
   * of the missing-item sweep, and the time the run is finished.
   */
  datatype ScanClock = ScanClock(startedAt: int, enqueuedAt: int, sweptAt: int, finishedAt: int)

  datatype ScanError = LibraryNotFound

  // ---------------------------------------------------------------------
  // Classification

  /** `filepath.Ext`: the suffix from the last dot of the final path element, or "". */
  function Ext(path: string): (r: string)
    ensures r != "" ==> r[0] == '.' && HasSuffix(path, r) && '/' !in r && '.' !in r[1..]
    ensures r == "" ==> forall k :: 0 <= k < |path| && '/' !in path[k..] ==> path[k] != '.'
    decreases |path|
  {
    if path == [] || path[|path| - 1] == '/' then ""
    else if path[|path| - 1] == '.' then "."
    else
      var e := Ext(path[..|path| - 1]);
      if e == "" then ExtStaysEmpty(path); "" else ExtGrows(path, e); e + [path[|path| - 1]]
  }

  /** No dot after the last slash of `path` when there is none in `path` less its last character, which is no dot. */
  lemma ExtStaysEmpty(path: string)
    requires path != [] && path[|path| - 1] != '.'
    requires var init := path[..|path| - 1];
      forall k :: 0 <= k < |init| && '/' !in init[k..] ==> init[k] != '.'
    ensures forall k :: 0 <= k < |path| && '/' !in path[k..] ==> path[k] != '.'
  {
    var init := path[..|path| - 1];
    forall k | 0 <= k < |path| && '/' !in path[k..] ensures path[k] != '.' {
      if k < |init| {
        assert init[k] == path[k];
        assert path[k..] == init[k..] + [path[|path| - 1]];
      }
    }
  }

  /** An extension of `path` less its last character grows by that character, which is no dot or slash. */
  lemma ExtGrows(path: string, e: string)
    requires path != [] && path[|path| - 1] != '/' && path[|path| - 1] != '.'
    requires var init := path[..|path| - 1];
      e != "" && e[0] == '.' && HasSuffix(init, e) && '/' !in e && '.' !in e[1..]
    ensures var r := e + [path[|path| - 1]];
      r[0] == '.' && HasSuffix(path, r) && '/' !in r && '.' !in r[1..]
  {
    var c := path[|path| - 1];
    var r := e + [c];
    assert path == path[..|path| - 1] + [c];
    assert path[|path| - |r|..] == path[..|path| - 1][|path| - 1 - |e|..] + [c];
    assert r[1..] == e[1..] + [c];
  }

  /** The key looked up in the extension sets: lower-cased, one leading dot removed. */
  function ExtKey(ext: string): string {
    TrimPrefix(ToLower(ext), ".")
  }

  /**
   * `kindForExt`: photo is tried before audio, audio before video; an
   * extension in none of the sets is `other` only when other files are indexed.
   */
  function KindForExt(cfg: Config, ext: string): (r: Option<Kind>)
    ensures r == Some(Photo) <==> ExtKey(ext) in cfg.extPhoto
    ensures r == Some(Audio) <==> ExtKey(ext) !in cfg.extPhoto && ExtKey(ext) in cfg.extAudio
    ensures r == Some(Video) <==>
      ExtKey(ext) !in cfg.extPhoto && ExtKey(ext) !in cfg.extAudio && ExtKey(ext) in cfg.extVideo
    ensures r == Some(Other) <==>
      ExtKey(ext) !in cfg.extPhoto + cfg.extAudio + cfg.extVideo && cfg.indexOther
    ensures r == None <==>
      ExtKey(ext) !in cfg.extPhoto + cfg.extAudio + cfg.extVideo && !cfg.indexOther
  {
    var key := ExtKey(ext);
    if key in cfg.extPhoto then Some(Photo)
    else if key in cfg.extAudio then Some(Audio)
    else if key in cfg.extVideo then Some(Video)
    else if cfg.indexOther then Some(Other)
    else None
  }

  /** Classification does not depend on letter case. */
  lemma KindIgnoresCase(cfg: Config, e1: string, e2: string)
    requires ToLower(e1) == ToLower(e2)
    ensures KindForExt(cfg, e1) == KindForExt(cfg, e2)
  {
  }

  /** One leading dot is ignored: ".jpg" and "jpg" classify alike. */
  lemma {:induction false} KindIgnoresLeadingDot(cfg: Config, e: string)
    requires e == [] || e[0] != '.'
    ensures KindForExt(cfg, "." + e) == KindForExt(cfg, e)
  {
    var l := ToLower("." + e);
    assert l == "." + ToLower(e);
    assert "." <= l;
    assert ExtKey("." + e) == ToLower(e);
    if ToLower(e) != [] {
      assert ToLower(e)[0] == LowerChar(e[0]) != '.';
    }
    assert !("." <= ToLower(e));
  }

  /** Loading the configuration lower-cases the sets, so an upper-case extension still matches. */
  lemma KindMatchesLoadedSet(env: Env, ext: string)
    requires ext != [] && ext[0] != '.'
    requires ToLower(ext) in CSVSet(env.extPhoto)
    ensures KindForExt(Load(env), "." + ext) == Some(Photo)
    ensures KindForExt(Load(env), ext) == Some(Photo)
  {
    KindIgnoresLeadingDot(Load(env), ext);
    assert ToLower(ext)[0] == LowerChar(ext[0]) != '.';
  }

  // ---------------------------------------------------------------------
  // One walk entry

  /** The path relative to the cleaned root: the root, then one separator, stripped. */
  function RelPath(path: string, root: string): (r: string)
    ensures root <= path ==> path == root + r || path == root + "/" + r
    ensures root <= path && |path| > |root| && path[|root|] == '/' ==> path == root + "/" + r
    ensures !(root <= path) ==> r == path
  {
    if root <= path then TrimPrefix(TrimPrefix(path, root), "/") else path
  }

  /** The walk reports a file whose kind is known and whose info could be read. */
  predicate Indexed(cfg: Config, e: WalkEntry) {
    e.FileEntry? && KindForExt(cfg, Ext(e.path)).Some? && e.info.Some?
  }

  /** The state of a row the scan has just written. */
  predicate Refreshed(it: MediaItem, lib: int, at: int) {
    it.present && it.missingSince == None && it.lastSeenAt == at && it.updatedAt == at && it.libraryId == lib
  }

  datatype Upserted = Upserted(tables: Tables, itemId: int, isUpdate: bool)

  /**
   * `insert ... on conflict (path) do update`: keyed by absolute path; a
   * conflicting row keeps its id and thumbnail, every other column is refreshed.
   */
  function Upsert(t: Tables, lib: int, path: string, rel: string, kind: Kind, info: FileInfo, at: int): (u: Upserted)
    ensures u.isUpdate <==> path in t.items
    ensures u.tables.items.Keys == t.items.Keys + {path}
    ensures var it := u.tables.items[path];
      && Refreshed(it, lib, at)
      && it.path == path && it.relPath == rel && it.kind == kind
      && it.sizeBytes == info.size && it.mtime == info.mtime && it.id == u.itemId
    ensures path in t.items ==>
      u.itemId == t.items[path].id && u.tables.items[path].thumbPath == t.items[path].thumbPath
      && u.tables.nextItemId == t.nextItemId
    ensures path !in t.items ==>
      u.itemId == t.nextItemId && u.tables.items[path].thumbPath == None
      && u.tables.nextItemId == t.nextItemId + 1
    ensures forall q :: q in t.items && q != path ==> u.tables.items[q] == t.items[q]
    ensures u.tables.jobs == t.jobs
  {
    if path in t.items then
      var it := t.items[path];
      var it' := it.(path := path, libraryId := lib, relPath := rel, kind := kind, present := true,
                     missingSince := None, lastSeenAt := at, updatedAt := at,
                     sizeBytes := info.size, mtime := info.mtime);
      Upserted(t.(items := t.items[path := it']), it.id, true)
    else
      var it := MediaItem(t.nextItemId, lib, path, rel, kind, true, None, info.size, info.mtime, at, at, None);
      Upserted(t.(items := t.items[path := it], nextItemId := t.nextItemId + 1), t.nextItemId, false)
  }

  /** `insert into job ... on conflict do nothing`. */
  function Enqueue(jobs: map<JobKey, Job>, key: JobKey, runAt: int): (r: map<JobKey, Job>)
    ensures key in r && r.Keys == jobs.Keys + {key}
    ensures key in jobs ==> r == jobs
    ensures key !in jobs ==> r[key] == Job(runAt, 0, None, None)
    ensures forall k :: k in jobs ==> r[k] == jobs[k]
  {
    if key in jobs then jobs else jobs[key := Job(runAt, 0, None, None)]
  }

  /** The jobs the scanner asks for after an upsert. */
  function WantedJobs(id: int, kind: Kind, isUpdate: bool): set<JobKey> {
    if isUpdate then {JobKey(Metadata, id), JobKey(Thumb, id)}
    else if kind == Video || kind == Photo then {JobKey(Thumb, id)}
    else {}
  }

  /** The enqueue policy: common code path for inserts and updates. */
  function EnqueueFor(jobs: map<JobKey, Job>, id: int, kind: Kind, isUpdate: bool, runAt: int): map<JobKey, Job> {
    if !isUpdate && (kind == Video || kind == Photo) then
      Enqueue(jobs, JobKey(Thumb, id), runAt)
    else if isUpdate then
      Enqueue(Enqueue(jobs, JobKey(Metadata, id), runAt), JobKey(Thumb, id), runAt)
    else
      jobs
  }

  /**
   * The enqueue policy adds exactly the wanted jobs that are not queued
   * already, each fresh, and leaves queued jobs alone: a new photo or video
   * gets one thumb job, a new audio or other item none, and an updated item
   * of any kind a metadata and a thumb job.
   */
  lemma EnqueuePolicy(jobs: map<JobKey, Job>, id: int, kind: Kind, isUpdate: bool, runAt: int)
    ensures var r := EnqueueFor(jobs, id, kind, isUpdate, runAt);
      && r.Keys == jobs.Keys + WantedJobs(id, kind, isUpdate)
      && (forall k :: k in jobs ==> r[k] == jobs[k])
      && (forall k :: k in r && k !in jobs ==> r[k] == Job(runAt, 0, None, None))
  {
  }

  /** The body of `walkFn` for one entry under the cleaned root. */
  function Visit(t: Tables, cfg: Config, lib: int, l: Located, clock: ScanClock): Tables {
    match l.entry
    case WalkError(_) => t
    case DirEntry(_) => t
    case FileEntry(path, info) =>
      match KindForExt(cfg, Ext(path))
      case None => t
      case Some(kind) =>
        match info
        case None => t
        case Some(fi) =>
          var u := Upsert(t, lib, path, RelPath(path, l.root), kind, fi, clock.startedAt);
          u.tables.(jobs := EnqueueFor(u.tables.jobs, u.itemId, kind, u.isUpdate, clock.enqueuedAt))
  }

  /** Entries that are not indexed (errors, directories, unknown kinds, unreadable info) change nothing. */
  lemma SkippedEntryNoChange(t: Tables, cfg: Config, lib: int, l: Located, clock: ScanClock)
    requires !Indexed(cfg, l.entry)
    ensures Visit(t, cfg, lib, l, clock) == t
  {
  }

  /** The walk function applied to the entries in order. */
  function VisitAll(t: Tables, cfg: Config, lib: int, ls: seq<Located>, clock: ScanClock): Tables
    decreases |ls|
  {
    if ls == [] then t
    else Visit(VisitAll(t, cfg, lib, ls[..|ls| - 1], clock), cfg, lib, ls[|ls| - 1], clock)
  }

  /** Visiting two runs of entries one after the other is visiting their concatenation. */
  lemma {:induction false} VisitAllConcat(t: Tables, cfg: Config, lib: int, a: seq<Located>, b: seq<Located>, clock: ScanClock)
    ensures VisitAll(t, cfg, lib, a + b, clock) == VisitAll(VisitAll(t, cfg, lib, a, clock), cfg, lib, b, clock)
    decreases |b|
  {
    if b == [] {
      assert a + b == a;
    } else {
      VisitAllConcat(t, cfg, lib, a, b[..|b| - 1], clock);
      assert (a + b)[..|a + b| - 1] == a + b[..|b| - 1];
    }
  }

  function Tag(root: string, es: seq<WalkEntry>): (r: seq<Located>)
    ensures |r| == |es|
    ensures forall i :: 0 <= i < |es| ==> r[i] == Located(root, es[i])
  {
    seq(|es|, i requires 0 <= i < |es| => Located(root, es[i]))
  }

  /** Every entry of every root's walk, roots in order, each root cleaned first. */
  function Entries(roots: seq<string>, clean: string -> string, walk: string -> seq<WalkEntry>): seq<Located>
    decreases |roots|
  {
    if roots == [] then []
    else
      var root := clean(roots[|roots| - 1]);
      Entries(roots[..|roots| - 1], clean, walk) + Tag(root, walk(root))
  }

  /** The absolute paths the walk indexes. */
  function IndexedPaths(cfg: Config, ls: seq<Located>): set<string>
    decreases |ls|
  {
    if ls == [] then {}
    else
      var last := ls[|ls| - 1];
      IndexedPaths(cfg, ls[..|ls| - 1]) + (if Indexed(cfg, last.entry) then {last.entry.path} else {})
  }

  // ---------------------------------------------------------------------
  // The missing-item sweep

  /** The sweep's `update ... where library_id=$1 and last_seen_at < $3 and present=true` on one row. */
  function SweepItem(it: MediaItem, lib: int, now: int, watermark: int): MediaItem {
    if it.libraryId == lib && it.lastSeenAt < watermark && it.present then
      it.(present := false, missingSince := Some(it.missingSince.GetOr(now)), updatedAt := now)
    else it
  }

  function Sweep(items: map<string, MediaItem>, lib: int, now: int, watermark: int): (r: map<string, MediaItem>)
    ensures r.Keys == items.Keys
    ensures forall p :: p in items ==> r[p] == SweepItem(items[p], lib, now, watermark)
  {
    map p | p in items :: SweepItem(items[p], lib, now, watermark)
  }

  /**
   * The sweep flips exactly this library's present rows not seen since the
   * watermark; a first miss records `now`, an existing `missing_since` is kept,
   * and rows of other libraries do not change.
   */
  lemma SweepRule(it: MediaItem, lib: int, now: int, watermark: int)
    ensures var r := SweepItem(it, lib, now, watermark);
      && (r.present <==> it.present && !(it.libraryId == lib && it.lastSeenAt < watermark))
      && (it.missingSince.Some? ==> r.missingSince == it.missingSince)
      && (it.present && !r.present && it.missingSince == None ==> r.missingSince == Some(now))
      && (it.libraryId != lib ==> r == it)
      && r.id == it.id && r.path == it.path && r.libraryId == it.libraryId && r.thumbPath == it.thumbPath
  {
  }

  /** The catalog after a scan of `lib` over the given roots. */
  function ScanTables(t: Tables, cfg: Config, lib: int, roots: seq<string>,
                      clean: string -> string, walk: string -> seq<WalkEntry>, clock: ScanClock): Tables
  {
    var w := VisitAll(t, cfg, lib, Entries(roots, clean, walk), clock);
    w.(items := Sweep(w.items, lib, clock.sweptAt, clock.startedAt))
  }

  // ---------------------------------------------------------------------
  // Facts about a walk

  /** One visit: an indexed entry refreshes its row and queues its jobs; nothing else changes. */
  lemma VisitFacts(t: Tables, cfg: Config, lib: int, l: Located, clock: ScanClock)
    ensures var r := Visit(t, cfg, lib, l, clock);
      var seen := if Indexed(cfg, l.entry) then {l.entry.path} else {};
      && r.items.Keys == t.items.Keys + seen
      && r.nextItemId >= t.nextItemId
      && (forall p :: p in seen ==> Refreshed(r.items[p], lib, clock.startedAt))
      && (forall p :: p in t.items && p !in seen ==> r.items[p] == t.items[p])
      && (forall p :: p in t.items ==>
            r.items[p].id == t.items[p].id && r.items[p].thumbPath == t.items[p].thumbPath)
      && (forall k :: k in t.jobs ==> k in r.jobs && r.jobs[k] == t.jobs[k])
      && (forall k :: k in r.jobs && k !in t.jobs ==> r.jobs[k] == Job(clock.enqueuedAt, 0, None, None))
      && (forall p :: p in t.items && p in seen ==>
            JobKey(Metadata, t.items[p].id) in r.jobs && JobKey(Thumb, t.items[p].id) in r.jobs)
  {
    if Indexed(cfg, l.entry) {
      var kind := KindForExt(cfg, Ext(l.entry.path)).value;
      var u := Upsert(t, lib, l.entry.path, RelPath(l.entry.path, l.root), kind, l.entry.info.value, clock.startedAt);
      EnqueuePolicy(u.tables.jobs, u.itemId, kind, u.isUpdate, clock.enqueuedAt);
    }
  }

  /**
   * A walk: the rows are the old rows plus the indexed paths, each indexed
   * row refreshed, every other row untouched, ids and thumbnails kept, queued
   * jobs kept, every added job fresh, and every old row met again has both
   * jobs queued.
   */
  lemma {:induction false} VisitAllFacts(t: Tables, cfg: Config, lib: int, ls: seq<Located>, clock: ScanClock)
    ensures var r := VisitAll(t, cfg, lib, ls, clock);
      && r.items.Keys == t.items.Keys + IndexedPaths(cfg, ls)
      && r.nextItemId >= t.nextItemId
      && (forall p :: p in IndexedPaths(cfg, ls) ==> Refreshed(r.items[p], lib, clock.startedAt))
      && (forall p :: p in t.items && p !in IndexedPaths(cfg, ls) ==> r.items[p] == t.items[p])
      && (forall p :: p in t.items ==>
            r.items[p].id == t.items[p].id && r.items[p].thumbPath == t.items[p].thumbPath)
      && (forall k :: k in t.jobs ==> k in r.jobs && r.jobs[k] == t.jobs[k])
      && (forall k :: k in r.jobs && k !in t.jobs ==> r.jobs[k] == Job(clock.enqueuedAt, 0, None, None))
      && (forall p :: p in t.items && p in IndexedPaths(cfg, ls) ==>
            JobKey(Metadata, t.items[p].id) in r.jobs && JobKey(Thumb, t.items[p].id) in r.jobs)
    decreases |ls|
  {
    if ls != [] {
      var init := ls[..|ls| - 1];
      var l := ls[|ls| - 1];
      VisitAllFacts(t, cfg, lib, init, clock);
      var w := VisitAll(t, cfg, lib, init, clock);
      VisitFacts(w, cfg, lib, l, clock);
      var r := Visit(w, cfg, lib, l, clock);
      assert r == VisitAll(t, cfg, lib, ls, clock);
      var seenW := IndexedPaths(cfg, init);
      var seenL := if Indexed(cfg, l.entry) then {l.entry.path} else {};
      assert IndexedPaths(cfg, ls) == seenW + seenL;
      forall p | p in t.items && p in seenW + seenL
        ensures JobKey(Metadata, t.items[p].id) in r.jobs && JobKey(Thumb, t.items[p].id) in r.jobs
      {
        if p in seenL {
          assert w.items[p].id == t.items[p].id;
        }
      }
    }
  }

  /** Each visit keeps the rows well formed: a new row takes the next serial id. */
  lemma VisitWellFormed(t: Tables, cfg: Config, lib: int, l: Located, clock: ScanClock)
    requires ItemsWellFormed(t.items, t.nextItemId)
    ensures var r := Visit(t, cfg, lib, l, clock); ItemsWellFormed(r.items, r.nextItemId)
  {
    if Indexed(cfg, l.entry) {
      var kind := KindForExt(cfg, Ext(l.entry.path)).value;
      UpsertWellFormed(t, lib, l.entry.path, RelPath(l.entry.path, l.root), kind, l.entry.info.value, clock.startedAt);
    }
  }

  /** An upsert keeps the rows well formed: the refreshed row keeps its id, a new one takes the next. */
  lemma UpsertWellFormed(t: Tables, lib: int, path: string, rel: string, kind: Kind, info: FileInfo, at: int)
    requires ItemsWellFormed(t.items, t.nextItemId)
    ensures var u := Upsert(t, lib, path, rel, kind, info, at); ItemsWellFormed(u.tables.items, u.tables.nextItemId)
  {
    var u := Upsert(t, lib, path, rel, kind, info, at);
    var r := u.tables.items;
    forall p, q | p in r && q in r && r[p].id == r[q].id ensures p == q {
      if p != path {
        assert r[p] == t.items[p];
      }
      if q != path {
        assert r[q] == t.items[q];
      }
    }
  }

  lemma {:induction false} VisitAllWellFormed(t: Tables, cfg: Config, lib: int, ls: seq<Located>, clock: ScanClock)
    requires ItemsWellFormed(t.items, t.nextItemId)
    ensures var r := VisitAll(t, cfg, lib, ls, clock); ItemsWellFormed(r.items, r.nextItemId)
    decreases |ls|
  {
    if ls != [] {
      VisitAllWellFormed(t, cfg, lib, ls[..|ls| - 1], clock);
      VisitWellFormed(VisitAll(t, cfg, lib, ls[..|ls| - 1], clock), cfg, lib, ls[|ls| - 1], clock);
    }
  }

  /** The sweep keeps the rows well formed: it never leaves an absent row without a timestamp. */
  lemma SweepWellFormed(items: map<string, MediaItem>, nextId: int, lib: int, now: int, watermark: int)
    requires ItemsWellFormed(items, nextId)
    ensures ItemsWellFormed(Sweep(items, lib, now, watermark), nextId)
  {
    var r := Sweep(items, lib, now, watermark);
    forall p, q | p in r && q in r && r[p].id == r[q].id ensures p == q {
      assert r[p].id == items[p].id && r[q].id == items[q].id;
    }
  }

  lemma ScanWellFormed(t: Tables, cfg: Config, lib: int, roots: seq<string>,
                       clean: string -> string, walk: string -> seq<WalkEntry>, clock: ScanClock)
    requires ItemsWellFormed(t.items, t.nextItemId)
    ensures var r := ScanTables(t, cfg, lib, roots, clean, walk, clock); ItemsWellFormed(r.items, r.nextItemId)
  {
    var ls := Entries(roots, clean, walk);
    VisitAllWellFormed(t, cfg, lib, ls, clock);
    var w := VisitAll(t, cfg, lib, ls, clock);
    SweepWellFormed(w.items, w.nextItemId, lib, clock.sweptAt, clock.startedAt);
  }

  // ---------------------------------------------------------------------
  // What a scan does to the catalog

  /**
   * Reconciliation: after a scan, the catalog holds the old rows plus the
   * indexed paths; every indexed row is present, has no `missing_since` and
   * was seen at the run's start; every other old row is exactly what the
   * missing-item sweep makes of it; ids never change; queued jobs stay.
   */
  lemma ScanReconciles(t: Tables, cfg: Config, lib: int, roots: seq<string>,
                       clean: string -> string, walk: string -> seq<WalkEntry>, clock: ScanClock)
    ensures var r := ScanTables(t, cfg, lib, roots, clean, walk, clock);
      var seen := IndexedPaths(cfg, Entries(roots, clean, walk));
      && r.items.Keys == t.items.Keys + seen
      && (forall p :: p in seen ==> Refreshed(r.items[p], lib, clock.startedAt))
      && (forall p :: p in t.items && p !in seen ==>
            r.items[p] == SweepItem(t.items[p], lib, clock.sweptAt, clock.startedAt))
      && (forall p :: p in t.items ==> r.items[p].id == t.items[p].id)
      && (forall k :: k in t.jobs ==> k in r.jobs && r.jobs[k] == t.jobs[k])
  {
    var ls := Entries(roots, clean, walk);
    VisitAllFacts(t, cfg, lib, ls, clock);
  }

  /** An item of the library that the walk no longer finds is marked absent, first miss recorded. */
  lemma MissingItemMarkedAbsent(t: Tables, cfg: Config, lib: int, roots: seq<string>,
                                clean: string -> string, walk: string -> seq<WalkEntry>, clock: ScanClock, p: string)
    requires p in t.items && p !in IndexedPaths(cfg, Entries(roots, clean, walk))
    requires t.items[p].libraryId == lib && t.items[p].present && t.items[p].lastSeenAt < clock.startedAt
    ensures var r := ScanTables(t, cfg, lib, roots, clean, walk, clock);
      p in r.items && !r.items[p].present
      && r.items[p].missingSince == Some(t.items[p].missingSince.GetOr(clock.sweptAt))
  {
    ScanReconciles(t, cfg, lib, roots, clean, walk, clock);
  }

  /** Items of other libraries that the walk does not find are untouched. */
  lemma OtherLibrariesUntouched(t: Tables, cfg: Config, lib: int, roots: seq<string>,
                                clean: string -> string, walk: string -> seq<WalkEntry>, clock: ScanClock, p: string)
    requires p in t.items && p !in IndexedPaths(cfg, Entries(roots, clean, walk))
    requires t.items[p].libraryId != lib
    ensures var r := ScanTables(t, cfg, lib, roots, clean, walk, clock); p in r.items && r.items[p] == t.items[p]
  {
    ScanReconciles(t, cfg, lib, roots, clean, walk, clock);
  }

  /**
   * First miss wins: an item that the walks of three consecutive scans do
   * not find keeps the `missing_since` of the first of those scans.
   */
  lemma FirstMissWins(t: Tables, cfg: Config, lib: int, roots: seq<string>, clean: string -> string,
                      walk1: string -> seq<WalkEntry>, walk2: string -> seq<WalkEntry>, walk3: string -> seq<WalkEntry>,
                      c1: ScanClock, c2: ScanClock, c3: ScanClock, p: string)
    requires p in t.items && t.items[p].libraryId == lib
    requires t.items[p].present && t.items[p].missingSince == None && t.items[p].lastSeenAt < c1.startedAt
    requires p !in IndexedPaths(cfg, Entries(roots, clean, walk1))
    requires p !in IndexedPaths(cfg, Entries(roots, clean, walk2))
    requires p !in IndexedPaths(cfg, Entries(roots, clean, walk3))
    ensures var r1 := ScanTables(t, cfg, lib, roots, clean, walk1, c1);
      var r2 := ScanTables(r1, cfg, lib, roots, clean, walk2, c2);
      var r3 := ScanTables(r2, cfg, lib, roots, clean, walk3, c3);
      p in r3.items && !r3.items[p].present && r3.items[p].missingSince == Some(c1.sweptAt)
  {
    var r1 := ScanTables(t, cfg, lib, roots, clean, walk1, c1);
    ScanReconciles(t, cfg, lib, roots, clean, walk1, c1);
    var r2 := ScanTables(r1, cfg, lib, roots, clean, walk2, c2);
    ScanReconciles(r1, cfg, lib, roots, clean, walk2, c2);
    ScanReconciles(r2, cfg, lib, roots, clean, walk3, c3);
  }

  /**
   * A rescan enqueues a metadata and a thumbnail job for every existing item
   * it finds again, whatever its kind (audio included) and whether or not the
   * file changed -- unless such a job is still queued.
   */
  lemma RescanEnqueuesJobs(t: Tables, cfg: Config, lib: int, roots: seq<string>,
                           clean: string -> string, walk: string -> seq<WalkEntry>, clock: ScanClock, p: string)
    requires p in t.items && p in IndexedPaths(cfg, Entries(roots, clean, walk))
    ensures var r := ScanTables(t, cfg, lib, roots, clean, walk, clock);
      JobKey(Metadata, t.items[p].id) in r.jobs && JobKey(Thumb, t.items[p].id) in r.jobs
  {
    VisitAllFacts(t, cfg, lib, Entries(roots, clean, walk), clock);
  }

  /** Two rows describe the same file the same way: everything but id, thumbnail and timestamps agrees. */
  predicate SameFileRow(a: MediaItem, b: MediaItem) {
    && a.path == b.path && a.libraryId == b.libraryId && a.relPath == b.relPath && a.kind == b.kind
    && a.present == b.present && a.missingSince == b.missingSince
    && a.sizeBytes == b.sizeBytes && a.mtime == b.mtime
  }

  /** The rows a walk writes depend on the walk alone, not on what the catalog held before. */
  lemma {:induction false} WalkDeterminesSeenRows(t: Tables, t': Tables, cfg: Config, lib: int, ls: seq<Located>,
                                                  c: ScanClock, c': ScanClock, p: string)
    requires p in IndexedPaths(cfg, ls)
    ensures p in VisitAll(t, cfg, lib, ls, c).items && p in VisitAll(t', cfg, lib, ls, c').items
    ensures SameFileRow(VisitAll(t, cfg, lib, ls, c).items[p], VisitAll(t', cfg, lib, ls, c').items[p])
    ensures VisitAll(t, cfg, lib, ls, c).items[p].path == p
    decreases |ls|
  {
    VisitAllFacts(t, cfg, lib, ls, c);
    VisitAllFacts(t', cfg, lib, ls, c');
    var init := ls[..|ls| - 1];
    var l := ls[|ls| - 1];
    if Indexed(cfg, l.entry) && l.entry.path == p {
    } else {
      assert p in IndexedPaths(cfg, init);
      WalkDeterminesSeenRows(t, t', cfg, lib, init, c, c', p);
      var w := VisitAll(t, cfg, lib, init, c);
      var w' := VisitAll(t', cfg, lib, init, c');
      VisitFacts(w, cfg, lib, l, c);
      VisitFacts(w', cfg, lib, l, c');
    }
  }

  /** The sweep leaves a row the walk has just refreshed alone. */
  lemma SweepKeepsRefreshed(it: MediaItem, lib: int, now: int, startedAt: int)
    requires Refreshed(it, lib, startedAt)
    ensures SweepItem(it, lib, now, startedAt) == it
  {
  }

  /**
   * Rescanning unchanged files is stable: a row the second walk finds again
   * differs from the first scan's row only in `last_seen_at` and `updated_at`.
   */
  lemma RescanStable(t: Tables, cfg: Config, lib: int, roots: seq<string>,
                     clean: string -> string, walk: string -> seq<WalkEntry>, c1: ScanClock, c2: ScanClock, p: string)
    requires p in IndexedPaths(cfg, Entries(roots, clean, walk))
    ensures var r1 := ScanTables(t, cfg, lib, roots, clean, walk, c1);
      var r2 := ScanTables(r1, cfg, lib, roots, clean, walk, c2);
      && p in r1.items && p in r2.items
      && r2.items[p] == r1.items[p].(lastSeenAt := c2.startedAt, updatedAt := c2.startedAt)
  {
    var ls := Entries(roots, clean, walk);
    var r1 := ScanTables(t, cfg, lib, roots, clean, walk, c1);
    var w1 := VisitAll(t, cfg, lib, ls, c1);
    VisitAllFacts(t, cfg, lib, ls, c1);
    SweepKeepsRefreshed(w1.items[p], lib, c1.sweptAt, c1.startedAt);
    assert r1.items[p] == w1.items[p];
    var w2 := VisitAll(r1, cfg, lib, ls, c2);
    VisitAllFacts(r1, cfg, lib, ls, c2);
    SweepKeepsRefreshed(w2.items[p], lib, c2.sweptAt, c2.startedAt);
    WalkDeterminesSeenRows(t, r1, cfg, lib, ls, c1, c2, p);
  }

  // ---------------------------------------------------------------------
  // The scanner object

  class Scanner {
    const db: Catalog
    const cfg: Config

    constructor (db: Catalog, cfg: Config)
      ensures this.db == db && this.cfg == cfg
    {
      this.db := db;
      this.cfg := cfg;
    }

    /** `walkFn`: skip errors, directories, unknown kinds and unreadable info; else upsert and enqueue. */
    method VisitEntry(lib: int, root: string, e: WalkEntry, clock: ScanClock)
      modifies db
      ensures db.State() == Visit(old(db.State()), cfg, lib, Located(root, e), clock)
      ensures db.libraries == old(db.libraries) && db.runs == old(db.runs) && db.nextRunId == old(db.nextRunId)
    {
      if e.WalkError? || e.DirEntry? {
        return;
      }
      var kind := KindForExt(cfg, Ext(e.path));
      if kind.None? {
        return;
      }
      if e.info.None? {
        return;
      }
      var info := e.info.value;
      var itemId, isUpdate := UpsertItem(lib, e.path, RelPath(e.path, root), kind.value, info, clock.startedAt);
      EnqueueJobs(itemId, kind.value, isUpdate, clock.enqueuedAt);
    }

    /** The item upsert of `walkFn`: refreshes the row at `path`, or inserts it under the next id. */
    method UpsertItem(lib: int, path: string, rel: string, kind: Kind, info: FileInfo, at: int)
      returns (itemId: int, isUpdate: bool)
      modifies db
      ensures var u := Upsert(old(db.State()), lib, path, rel, kind, info, at);
        db.State() == u.tables && itemId == u.itemId && isUpdate == u.isUpdate
      ensures db.libraries == old(db.libraries) && db.runs == old(db.runs) && db.nextRunId == old(db.nextRunId)
    {
      isUpdate := path in db.items;
      if isUpdate {
        var it := db.items[path];
        itemId := it.id;
        db.items := db.items[path := it.(path := path, libraryId := lib, relPath := rel, kind := kind, present := true,
                                          missingSince := None, lastSeenAt := at, updatedAt := at,
                                          sizeBytes := info.size, mtime := info.mtime)];
      } else {
        itemId := db.nextItemId;
        db.items := db.items[path := MediaItem(itemId, lib, path, rel, kind, true, None, info.size,
                                               info.mtime, at, at, None)];
        db.nextItemId := db.nextItemId + 1;
      }
    }

    /** The job inserts of `walkFn` for the item just upserted. */
    method EnqueueJobs(itemId: int, kind: Kind, isUpdate: bool, at: int)
      modifies db
      ensures db.jobs == EnqueueFor(old(db.jobs), itemId, kind, isUpdate, at)
      ensures db.items == old(db.items) && db.nextItemId == old(db.nextItemId)
      ensures db.libraries == old(db.libraries) && db.runs == old(db.runs) && db.nextRunId == old(db.nextRunId)
    {
      if !isUpdate && (kind == Video || kind == Photo) {
        db.jobs := Enqueue(db.jobs, JobKey(Thumb, itemId), at);
      } else if isUpdate {
        db.jobs := Enqueue(db.jobs, JobKey(Metadata, itemId), at);
        db.jobs := Enqueue(db.jobs, JobKey(Thumb, itemId), at);
      }
    }

    /** The walk of every root in turn, each cleaned first. */
    method WalkRoots(lib: int, roots: seq<string>, clean: string -> string, walk: string -> seq<WalkEntry>, clock: ScanClock)
      modifies db
      ensures db.State() == VisitAll(old(db.State()), cfg, lib, Entries(roots, clean, walk), clock)
      ensures db.libraries == old(db.libraries) && db.runs == old(db.runs) && db.nextRunId == old(db.nextRunId)
    {
      for i := 0 to |roots|
        invariant db.State() == VisitAll(old(db.State()), cfg, lib, Entries(roots[..i], clean, walk), clock)
        invariant db.libraries == old(db.libraries) && db.runs == old(db.runs) && db.nextRunId == old(db.nextRunId)
      {
        var root := clean(roots[i]);
        ghost var before := Entries(roots[..i], clean, walk);
        assert roots[..i + 1][..i] == roots[..i];
        assert Entries(roots[..i + 1], clean, walk) == before + Tag(root, walk(root));
        WalkRoot(lib, root, walk(root), clock);
        VisitAllConcat(old(db.State()), cfg, lib, before, Tag(root, walk(root)), clock);
      }
      assert roots[..|roots|] == roots;
    }

    /** `filepath.WalkDir` over one root: the callback on each entry, in order. */
    method WalkRoot(lib: int, root: string, entries: seq<WalkEntry>, clock: ScanClock)
      modifies db
      ensures db.State() == VisitAll(old(db.State()), cfg, lib, Tag(root, entries), clock)
      ensures db.libraries == old(db.libraries) && db.runs == old(db.runs) && db.nextRunId == old(db.nextRunId)
    {
      for j := 0 to |entries|
        invariant db.State() == VisitAll(old(db.State()), cfg, lib, Tag(root, entries[..j]), clock)
        invariant db.libraries == old(db.libraries) && db.runs == old(db.runs) && db.nextRunId == old(db.nextRunId)
      {
        VisitEntry(lib, root, entries[j], clock);
        ghost var ls := Tag(root, entries[..j + 1]);
        assert ls[..|ls| - 1] == Tag(root, entries[..j]);
      }
      assert entries[..|entries|] == entries;
    }

    /** `ScanLibrary`: fails for an unknown library; otherwise walks every root, then sweeps. */
    method ScanLibrary(libraryId: int, clean: string -> string, walk: string -> seq<WalkEntry>, clock: ScanClock)
      returns (err: Option<ScanError>)
      requires db.Valid()
      modifies db
      ensures db.Valid()
      ensures db.libraries == old(db.libraries)
      ensures libraryId !in old(db.libraries) ==>
        err == Some(LibraryNotFound) && db.State() == old(db.State())
        && db.runs == old(db.runs) && db.nextRunId == old(db.nextRunId)
      ensures libraryId in old(db.libraries) ==>
        && err == None
        && db.State() == ScanTables(old(db.State()), cfg, libraryId, old(db.libraries)[libraryId].roots, clean, walk, clock)
        && db.runs == old(db.runs)[old(db.nextRunId) := ScanRun(libraryId, clock.startedAt, Some(clock.finishedAt))]
        && db.nextRunId == old(db.nextRunId) + 1
    {
      if libraryId !in db.libraries {
        return Some(LibraryNotFound);
      }
      var roots := db.libraries[libraryId].roots;
      var runId := db.nextRunId;
      db.runs := db.runs[runId := ScanRun(libraryId, clock.startedAt, None)];
      db.nextRunId := runId + 1;
      ghost var t0 := db.State();
      Reconcile(libraryId, roots, clean, walk, clock);
      ScanWellFormed(t0, cfg, libraryId, roots, clean, walk, clock);
      db.runs := db.runs[runId := ScanRun(libraryId, clock.startedAt, Some(clock.finishedAt))];
      err := None;
    }

    /** The walk of every root followed by the missing-item sweep of the library. */
    method Reconcile(lib: int, roots: seq<string>, clean: string -> string, walk: string -> seq<WalkEntry>, clock: ScanClock)
      modifies db
      ensures db.State() == ScanTables(old(db.State()), cfg, lib, roots, clean, walk, clock)
      ensures db.libraries == old(db.libraries) && db.runs == old(db.runs) && db.nextRunId == old(db.nextRunId)
    {
      WalkRoots(lib, roots, clean, walk, clock);
      db.items := Sweep(db.items, lib, clock.sweptAt, clock.startedAt);
    }
  }
}
