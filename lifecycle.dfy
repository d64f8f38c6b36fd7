/**
 * How the scanner, the thumbnail worker and the streamer meet on the same
 * tables: properties of one component that hold across the others.
 */
module Lifecycle {
  import opened Wrappers
  import opened Catalog
  import opened Scan
  import opened Worker
  import opened Stream

  /** A scan only ever adds jobs with no recorded failures, so it keeps every job below the attempt limit. */
  lemma ScanKeepsAttemptsBounded(t: Tables, cfg: Config.Config, lib: int, roots: seq<string>,
                                 clean: string -> string, walk: string -> seq<WalkEntry>, clock: ScanClock)
    requires AttemptsBounded(t.jobs)
    ensures AttemptsBounded(ScanTables(t, cfg, lib, roots, clean, walk, clock).jobs)
  {
    VisitAllFacts(t, cfg, lib, Entries(roots, clean, walk), clock);
  }

  /**
   * A row the streamer marked missing comes back: when the next scan finds
   * the file again, the row is present, has no `missing_since`, and keeps its id.
   */
  lemma HealedRowRestoredByScan(t: Tables, p: string, open: string -> OpenResult, now: int,
                                cfg: Config.Config, lib: int, roots: seq<string>,
                                clean: string -> string, walk: string -> seq<WalkEntry>, clock: ScanClock)
    requires p in t.items && t.items[p].present && open(t.items[p].path) == OpenFailed
    requires p in IndexedPaths(cfg, Entries(roots, clean, walk))
    ensures var healed := t.(items := StreamRow(t.items, p, open, now).items);
      && p in healed.items && !healed.items[p].present
      && var r := ScanTables(healed, cfg, lib, roots, clean, walk, clock);
         && p in r.items && r.items[p].present && r.items[p].missingSince == None
         && r.items[p].id == t.items[p].id
  {
    var healed := t.(items := StreamRow(t.items, p, open, now).items);
    assert healed.items[p].id == t.items[p].id;
    ScanReconciles(healed, cfg, lib, roots, clean, walk, clock);
  }

  /**
   * A poll and a following scan together keep the tables in shape: item
   * rows well formed and all jobs below the attempt limit.
   */
  lemma PollThenScanSane(t: Tables, sel: seq<Selected>, dir: string, clean: string -> string,
                         outcome: JobKey -> Attempt, now: int,
                         cfg: Config.Config, lib: int, roots: seq<string>, walk: string -> seq<WalkEntry>, clock: ScanClock)
    requires ItemsWellFormed(t.items, t.nextItemId) && AttemptsBounded(t.jobs) && IsSelection(t, sel)
    ensures var polled := ProcessAll(t, sel, dir, clean, outcome, now);
      var r := ScanTables(polled, cfg, lib, roots, clean, walk, clock);
      ItemsWellFormed(r.items, r.nextItemId) && AttemptsBounded(r.jobs)
  {
    var polled := ProcessAll(t, sel, dir, clean, outcome, now);
    PollKeepsWellFormed(t, sel, dir, clean, outcome, now);
    PollKeepsJobsSane(t, sel, dir, clean, outcome, now);
    ScanWellFormed(polled, cfg, lib, roots, clean, walk, clock);
    ScanKeepsAttemptsBounded(polled, cfg, lib, roots, clean, walk, clock);
  }
}
