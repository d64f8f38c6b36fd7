/**
 * The thumbnail worker (backend/internal/worker/thumb.go): one poll selects
 * up to ten unlocked thumbnail jobs in `run_at` order, then for each one
 * locks it, runs the generator, and either records the thumbnail and deletes
 * the job, or counts a failed attempt -- deleting the job once it has failed
 * `MaxThumbAttempts` times.
 *
 * The external tools, `os.Stat` and the lock statement are an oracle: an
 * `Attempt` says whether the lock update succeeded, whether the source file
 * is reported missing, and what the converter or ffmpeg did.
 */
module Worker {
  import opened Wrappers
  import opened GoStrings
  import opened Catalog

  /** Failed attempts after which a job is dropped. */
  const MaxThumbAttempts := 5

  /** The `LIMIT` of the selection query. */
  const BatchSize := 10

  // ---------------------------------------------------------------------
  // Selection

  /** One row of the selection query: the job, and the path and kind of its item. */
  datatype Selected = Selected(key: JobKey, path: string, kind: Kind, attempts: int)

  /** The filter of the selection query: an unlocked thumbnail job whose item row exists. */
  predicate Eligible(t: Tables, k: JobKey) {
    k in t.jobs && k.kind == Thumb && t.jobs[k].lockedAt == None && HasItem(t.items, k.itemId)
  }

  function EligibleKeys(t: Tables): set<JobKey> {
    set k | k in t.jobs && Eligible(t, k)
  }

  /** A row the query can return for the current tables. */
  predicate RowOf(t: Tables, s: Selected) {
    && Eligible(t, s.key)
    && s.path in t.items && t.items[s.path].id == s.key.itemId && t.items[s.path].kind == s.kind
    && s.attempts == t.jobs[s.key].attempts
  }

  function Keys(sel: seq<Selected>): set<JobKey> {
    set s | s in sel :: s.key
  }

  function Min(a: int, b: int): int {
    if a <= b then a else b
  }

  /**
   * What `ORDER BY run_at ASC LIMIT 10` returns: as many eligible jobs as
   * the limit allows, each once, in non-decreasing `run_at` order, and none
   * that is later than an eligible job left out.  Ties may come in any order.
   */
  predicate IsSelection(t: Tables, sel: seq<Selected>) {
    && |sel| == Min(BatchSize, |EligibleKeys(t)|)
    && (forall i :: 0 <= i < |sel| ==> RowOf(t, sel[i]))
    && (forall i, j :: 0 <= i < j < |sel| ==>
          sel[i].key != sel[j].key && t.jobs[sel[i].key].runAt <= t.jobs[sel[j].key].runAt)
    && (forall i, k :: 0 <= i < |sel| && k in EligibleKeys(t) && k !in Keys(sel) ==>
          t.jobs[sel[i].key].runAt <= t.jobs[k].runAt)
  }

  /** A selection holds at most ten jobs, all of them unlocked thumbnail jobs. */
  lemma SelectionBounds(t: Tables, sel: seq<Selected>)
    requires IsSelection(t, sel)
    ensures |sel| <= BatchSize
    ensures forall i :: 0 <= i < |sel| ==>
      sel[i].key in t.jobs && sel[i].key.kind == Thumb && t.jobs[sel[i].key].lockedAt == None
  {
  }

  /** The eligible job with the earliest `run_at` among `pending`. */
  method Earliest(jobs: map<JobKey, Job>, pending: set<JobKey>) returns (k: JobKey)
    requires pending != {} && pending <= jobs.Keys
    ensures k in pending
    ensures forall y :: y in pending ==> jobs[k].runAt <= jobs[y].runAt
  {
    k :| k in pending;
    var rest := pending - {k};
    while rest != {}
      invariant rest <= pending && k in pending
      invariant forall y :: y in pending - rest ==> jobs[k].runAt <= jobs[y].runAt
      decreases |rest|
    {
      var x :| x in rest;
      if jobs[x].runAt < jobs[k].runAt {
        k := x;
      }
      rest := rest - {x};
    }
  }

  /**
   * The invariant of the selection loop: the rows so far are eligible,
   * distinct and ordered, `pending` is what is left, and nothing left is
   * earlier than a row already taken.
   */
  predicate SelectedSoFar(t: Tables, all: set<JobKey>, sel: seq<Selected>, pending: set<JobKey>) {
    && all == EligibleKeys(t)
    && pending == all - Keys(sel)
    && (forall i :: 0 <= i < |sel| ==> RowOf(t, sel[i]))
    && (forall i, j :: 0 <= i < j < |sel| ==>
          sel[i].key != sel[j].key && t.jobs[sel[i].key].runAt <= t.jobs[sel[j].key].runAt)
    && (forall i, k :: 0 <= i < |sel| && k in pending ==> t.jobs[sel[i].key].runAt <= t.jobs[k].runAt)
  }

  /** Taking the earliest pending job keeps the loop invariant. */
  lemma ExtendSelection(t: Tables, all: set<JobKey>, sel: seq<Selected>, pending: set<JobKey>, row: Selected)
    requires SelectedSoFar(t, all, sel, pending)
    requires row.key in pending && RowOf(t, row)
    requires forall y :: y in pending ==> t.jobs[row.key].runAt <= t.jobs[y].runAt
    ensures SelectedSoFar(t, all, sel + [row], pending - {row.key})
  {
    var sel' := sel + [row];
    assert Keys(sel') == Keys(sel) + {row.key};
    forall i, j | 0 <= i < j < |sel'|
      ensures sel'[i].key != sel'[j].key && t.jobs[sel'[i].key].runAt <= t.jobs[sel'[j].key].runAt
    {
      if j == |sel| {
        assert sel'[i] == sel[i];
        assert sel[i].key in Keys(sel);
      }
    }
  }

  /** Taking one member out of a set shrinks it by one. */
  lemma RemoveOne(s: set<JobKey>, k: JobKey)
    requires k in s
    ensures |s - {k}| == |s| - 1
  {
  }

  /** When the loop stops, the rows taken are a selection. */
  lemma SelectionComplete(t: Tables, all: set<JobKey>, sel: seq<Selected>, pending: set<JobKey>)
    requires SelectedSoFar(t, all, sel, pending)
    requires |sel| + |pending| == |all| && |sel| <= BatchSize
    requires |sel| == BatchSize || pending == {}
    ensures IsSelection(t, sel)
  {
  }

  // ---------------------------------------------------------------------
  // Generation

  /** What running `convert` or `ffmpeg` did: success, or failure with its detail. */
  datatype ToolRun = ToolOk | ToolFailed(detail: string)

  /** The oracle for one job: the lock update, the stat of the source, the tool. */
  datatype Attempt = Attempt(lockOk: bool, sourceMissing: bool, tool: ToolRun)

  /** `generateThumbnail`: the error it returns, if any. */
  function Generate(path: string, kind: Kind, sourceMissing: bool, tool: ToolRun): Option<string> {
    if sourceMissing then Some("source file does not exist: " + path)
    else if kind == Photo then
      (match tool case ToolOk => None case ToolFailed(d) => Some("convert failed: " + d))
    else if kind == Video then
      (match tool case ToolOk => None case ToolFailed(d) => Some("ffmpeg failed: " + d))
    else Some("unsupported kind: " + KindName(kind))
  }

  /**
   * Generation succeeds exactly for an existing photo or video source whose
   * tool succeeds; a missing source fails first, whatever the kind, and audio
   * and other items always fail as unsupported.
   */
  lemma GenerateOutcome(path: string, kind: Kind, sourceMissing: bool, tool: ToolRun)
    ensures Generate(path, kind, sourceMissing, tool) == None <==>
      !sourceMissing && (kind == Photo || kind == Video) && tool == ToolOk
    ensures sourceMissing ==> Generate(path, kind, sourceMissing, tool) == Some("source file does not exist: " + path)
    ensures !sourceMissing && (kind == Audio || kind == Other) ==>
      Generate(path, kind, sourceMissing, tool) == Some("unsupported kind: " + KindName(kind))
  {
  }

  /** `filepath.Join` of two elements: empty elements are ignored, the result is cleaned. */
  function JoinPath(clean: string -> string, dir: string, name: string): string {
    if dir == "" && name == "" then ""
    else if dir == "" then clean(name)
    else if name == "" then clean(dir)
    else clean(dir + "/" + name)
  }

  /** The thumbnail file of an item: `<id>.jpg` in the thumbnail directory. */
  function ThumbPath(clean: string -> string, dir: string, id: int): string {
    JoinPath(clean, dir, IntToDecimal(id) + ".jpg")
  }

  /** The thumbnail is the cleaned `dir/<id>.jpg` whenever the directory is set. */
  lemma ThumbPathShape(clean: string -> string, dir: string, id: int)
    requires dir != ""
    ensures ThumbPath(clean, dir, id) == clean(dir + "/" + IntToDecimal(id) + ".jpg")
  {
    assert IntToDecimal(id) + ".jpg" != "";
    assert dir + "/" + (IntToDecimal(id) + ".jpg") == dir + "/" + IntToDecimal(id) + ".jpg";
  }

  /** Distinct items get distinct thumbnail file names. */
  lemma ThumbNamesDistinct(a: int, b: int)
    requires a != b
    ensures IntToDecimal(a) + ".jpg" != IntToDecimal(b) + ".jpg"
  {
    var sa, sb := IntToDecimal(a), IntToDecimal(b);
    if sa + ".jpg" == sb + ".jpg" {
      assert |sa| == |sb|;
      assert sa == (sa + ".jpg")[..|sa|];
      assert sb == (sb + ".jpg")[..|sb|];
      IntToDecimalInjective(a, b);
    }
  }

  // ---------------------------------------------------------------------
  // Processing one job

  /** `UPDATE job SET locked_at = NOW()`. */
  function Lock(jobs: map<JobKey, Job>, key: JobKey, now: int): map<JobKey, Job> {
    if key in jobs then jobs[key := jobs[key].(lockedAt := Some(now))] else jobs
  }

  /** `UPDATE job SET locked_at = NULL, attempts = attempts + 1, last_error = $2`. */
  function Retry(jobs: map<JobKey, Job>, key: JobKey, msg: string): map<JobKey, Job> {
    if key in jobs then jobs[key := jobs[key].(lockedAt := None, attempts := jobs[key].attempts + 1, lastError := Some(msg))]
    else jobs
  }

  /** `UPDATE media_item SET thumb_path = $2 WHERE id = $1`. */
  function SetThumb(items: map<string, MediaItem>, id: int, thumb: string): (r: map<string, MediaItem>)
    ensures r.Keys == items.Keys
  {
    map p | p in items :: if items[p].id == id then items[p].(thumbPath := Some(thumb)) else items[p]
  }

  /** The body of the loop of `processJobs` for one selected row. */
  function ProcessOne(t: Tables, s: Selected, dir: string, clean: string -> string, a: Attempt, now: int): Tables {
    if !a.lockOk then t
    else
      var locked := Lock(t.jobs, s.key, now);
      match Generate(s.path, s.kind, a.sourceMissing, a.tool)
      case Some(msg) =>
        if s.attempts + 1 >= MaxThumbAttempts then t.(jobs := locked - {s.key})
        else t.(jobs := Retry(locked, s.key, msg))
      case None =>
        Tables(SetThumb(t.items, s.key.itemId, ThumbPath(clean, dir, s.key.itemId)), locked - {s.key}, t.nextItemId)
  }

  /**
   * The outcome of one job: a failed lock changes nothing; a success stores
   * the thumbnail path on the item and deletes the job; a failure deletes the
   * job once this is the fifth attempt, and otherwise unlocks it with one more
   * attempt and the error recorded.  No other job and no other column changes.
   */
  lemma ProcessOneOutcome(t: Tables, s: Selected, dir: string, clean: string -> string, a: Attempt, now: int)
    requires s.key in t.jobs
    ensures var r := ProcessOne(t, s, dir, clean, a, now);
      var err := Generate(s.path, s.kind, a.sourceMissing, a.tool);
      && (!a.lockOk ==> r == t)
      && (a.lockOk && err == None ==>
            && s.key !in r.jobs
            && r.items.Keys == t.items.Keys
            && (forall p :: p in t.items && t.items[p].id == s.key.itemId ==>
                  r.items[p] == t.items[p].(thumbPath := Some(ThumbPath(clean, dir, s.key.itemId))))
            && (forall p :: p in t.items && t.items[p].id != s.key.itemId ==> r.items[p] == t.items[p]))
      && (a.lockOk && err.Some? && s.attempts + 1 >= MaxThumbAttempts ==>
            s.key !in r.jobs && r.items == t.items)
      && (a.lockOk && err.Some? && s.attempts + 1 < MaxThumbAttempts ==>
            && s.key in r.jobs && r.items == t.items
            && r.jobs[s.key] == t.jobs[s.key].(lockedAt := None, attempts := t.jobs[s.key].attempts + 1, lastError := err))
      && r.jobs.Keys <= t.jobs.Keys
      && (forall k :: k in t.jobs && k != s.key ==> k in r.jobs && r.jobs[k] == t.jobs[k])
      && r.nextItemId == t.nextItemId
  {
  }

  /** A poll: the rows processed in the order selected. */
  function ProcessAll(t: Tables, sel: seq<Selected>, dir: string, clean: string -> string,
                      outcome: JobKey -> Attempt, now: int): Tables
    decreases |sel|
  {
    if sel == [] then t
    else
      var last := sel[|sel| - 1];
      ProcessOne(ProcessAll(t, sel[..|sel| - 1], dir, clean, outcome, now), last, dir, clean, outcome(last.key), now)
  }

  // ---------------------------------------------------------------------
  // Facts about a poll

  /** The job row stored under a key, if any. */
  function JobAt(jobs: map<JobKey, Job>, k: JobKey): Option<Job> {
    if k in jobs then Some(jobs[k]) else None
  }

  /** Only a row's own job is touched by processing it. */
  lemma OtherJobUntouched(t: Tables, s: Selected, dir: string, clean: string -> string, a: Attempt, now: int, k: JobKey)
    requires k != s.key
    ensures JobAt(ProcessOne(t, s, dir, clean, a, now).jobs, k) == JobAt(t.jobs, k)
  {
  }

  /** What happens to a row's own job depends only on that job. */
  lemma OwnJobLocal(t1: Tables, t2: Tables, s: Selected, dir: string, clean: string -> string, a: Attempt, now: int)
    requires JobAt(t1.jobs, s.key) == JobAt(t2.jobs, s.key)
    ensures JobAt(ProcessOne(t1, s, dir, clean, a, now).jobs, s.key) == JobAt(ProcessOne(t2, s, dir, clean, a, now).jobs, s.key)
  {
  }

  lemma {:induction false} UnselectedJobUntouched(t: Tables, sel: seq<Selected>, dir: string, clean: string -> string,
                                                  outcome: JobKey -> Attempt, now: int, k: JobKey)
    requires k !in Keys(sel)
    ensures JobAt(ProcessAll(t, sel, dir, clean, outcome, now).jobs, k) == JobAt(t.jobs, k)
    decreases |sel|
  {
    if sel != [] {
      var init := sel[..|sel| - 1];
      assert Keys(init) <= Keys(sel);
      UnselectedJobUntouched(t, init, dir, clean, outcome, now, k);
      OtherJobUntouched(ProcessAll(t, init, dir, clean, outcome, now), sel[|sel| - 1], dir, clean,
                        outcome(sel[|sel| - 1].key), now, k);
    }
  }

  predicate DistinctKeys(sel: seq<Selected>) {
    forall i, j :: 0 <= i < j < |sel| ==> sel[i].key != sel[j].key
  }

  /**
   * Within a poll of distinct jobs, each selected job ends exactly as if it
   * had been processed alone against the tables the poll started from.
   */
  lemma {:induction false} PollActsPerJob(t: Tables, sel: seq<Selected>, dir: string, clean: string -> string,
                                          outcome: JobKey -> Attempt, now: int, i: int)
    requires DistinctKeys(sel) && 0 <= i < |sel|
    ensures JobAt(ProcessAll(t, sel, dir, clean, outcome, now).jobs, sel[i].key)
         == JobAt(ProcessOne(t, sel[i], dir, clean, outcome(sel[i].key), now).jobs, sel[i].key)
    decreases |sel|
  {
    var n := |sel|;
    var init := sel[..n - 1];
    var w := ProcessAll(t, init, dir, clean, outcome, now);
    DistinctInit(sel);
    if i == n - 1 {
      UnselectedJobUntouched(t, init, dir, clean, outcome, now, sel[i].key);
      OwnJobLocal(w, t, sel[i], dir, clean, outcome(sel[i].key), now);
    } else {
      assert init[i] == sel[i];
      PollActsPerJob(t, init, dir, clean, outcome, now, i);
      OtherJobUntouched(w, sel[n - 1], dir, clean, outcome(sel[n - 1].key), now, sel[i].key);
    }
  }

  /** Dropping the last row keeps the keys distinct, and the last key is not among the others. */
  lemma DistinctInit(sel: seq<Selected>)
    requires DistinctKeys(sel) && sel != []
    ensures DistinctKeys(sel[..|sel| - 1])
    ensures sel[|sel| - 1].key !in Keys(sel[..|sel| - 1])
  {
    var n := |sel|;
    var init := sel[..n - 1];
    forall x, y | 0 <= x < y < |init| ensures init[x].key != init[y].key {
      assert init[x] == sel[x] && init[y] == sel[y];
    }
    forall s | s in init ensures s.key != sel[n - 1].key {
      var j :| 0 <= j < n - 1 && init[j] == s;
      assert sel[j] == s;
    }
  }

  /** A poll only deletes jobs, never adds one; unselected jobs stay as they were. */
  lemma {:induction false} PollFrame(t: Tables, sel: seq<Selected>, dir: string, clean: string -> string,
                                     outcome: JobKey -> Attempt, now: int)
    ensures var r := ProcessAll(t, sel, dir, clean, outcome, now);
      && r.jobs.Keys <= t.jobs.Keys
      && r.items.Keys == t.items.Keys
      && r.nextItemId == t.nextItemId
      && (forall p :: p in t.items ==> r.items[p] == t.items[p].(thumbPath := r.items[p].thumbPath))
    decreases |sel|
  {
    if sel != [] {
      var init := sel[..|sel| - 1];
      PollFrame(t, init, dir, clean, outcome, now);
      var w := ProcessAll(t, init, dir, clean, outcome, now);
      var s := sel[|sel| - 1];
      if s.key in w.jobs {
        ProcessOneOutcome(w, s, dir, clean, outcome(s.key), now);
      }
    }
  }

  /** Every job has fewer than `MaxThumbAttempts` recorded failures. */
  predicate AttemptsBounded(jobs: map<JobKey, Job>) {
    forall k :: k in jobs ==> 0 <= jobs[k].attempts < MaxThumbAttempts
  }

  /**
   * A poll over a real selection keeps every job below the attempt limit,
   * and leaves no selected job locked: each is deleted or unlocked again.
   */
  lemma PollKeepsJobsSane(t: Tables, sel: seq<Selected>, dir: string, clean: string -> string,
                          outcome: JobKey -> Attempt, now: int)
    requires IsSelection(t, sel) && AttemptsBounded(t.jobs)
    ensures var r := ProcessAll(t, sel, dir, clean, outcome, now);
      && AttemptsBounded(r.jobs)
      && (forall i :: 0 <= i < |sel| && sel[i].key in r.jobs ==> r.jobs[sel[i].key].lockedAt == None)
  {
    var r := ProcessAll(t, sel, dir, clean, outcome, now);
    PollFrame(t, sel, dir, clean, outcome, now);
    forall k | k in r.jobs
      ensures 0 <= r.jobs[k].attempts < MaxThumbAttempts
      ensures k in Keys(sel) ==> r.jobs[k].lockedAt == None
    {
      if k in Keys(sel) {
        var i :| 0 <= i < |sel| && sel[i].key == k;
        PollActsPerJob(t, sel, dir, clean, outcome, now, i);
        ProcessOneOutcome(t, sel[i], dir, clean, outcome(k), now);
      } else {
        UnselectedJobUntouched(t, sel, dir, clean, outcome, now, k);
      }
    }
    forall i | 0 <= i < |sel| && sel[i].key in r.jobs ensures r.jobs[sel[i].key].lockedAt == None {
      assert sel[i].key in Keys(sel);
    }
  }

  // ---------------------------------------------------------------------
  // Bounded retries

  /** The row the selection query returns for a job of item `p`. */
  function RowFor(t: Tables, key: JobKey, p: string): Selected
    requires key in t.jobs && p in t.items
  {
    Selected(key, p, t.items[p].kind, t.jobs[key].attempts)
  }

  /** `n` polls in which the job is selected, locked and fails. */
  function FailTimes(t: Tables, key: JobKey, p: string, dir: string, clean: string -> string, detail: string, now: int, n: nat): Tables
    decreases n
  {
    if n == 0 then t
    else
      var w := FailTimes(t, key, p, dir, clean, detail, now, n - 1);
      if key in w.jobs && p in w.items then
        ProcessOne(w, RowFor(w, key, p), dir, clean, Attempt(true, false, ToolFailed(detail)), now)
      else w
  }

  /**
   * Bounded retry: a job that starts with no attempts and fails every time
   * is still queued, unlocked and at `n` attempts after `n < 5` such polls,
   * and gone after exactly five.
   */
  lemma {:induction false} FailingJobLifetime(t: Tables, key: JobKey, p: string, dir: string, clean: string -> string,
                                              detail: string, now: int, n: nat)
    requires key in t.jobs && t.jobs[key].attempts == 0 && p in t.items
    requires n <= MaxThumbAttempts
    ensures var w := FailTimes(t, key, p, dir, clean, detail, now, n);
      && p in w.items && w.items[p].kind == t.items[p].kind
      && (n < MaxThumbAttempts ==> key in w.jobs && w.jobs[key].attempts == n)
      && (0 < n < MaxThumbAttempts ==> w.jobs[key].lockedAt == None)
      && (n == MaxThumbAttempts ==> key !in w.jobs)
    decreases n
  {
    if n > 0 {
      FailingJobLifetime(t, key, p, dir, clean, detail, now, n - 1);
      var w := FailTimes(t, key, p, dir, clean, detail, now, n - 1);
      ProcessOneOutcome(w, RowFor(w, key, p), dir, clean, Attempt(true, false, ToolFailed(detail)), now);
    }
  }

  /** After four failures a success still stores the thumbnail and removes the job. */
  lemma SuccessAfterRetries(t: Tables, key: JobKey, p: string, dir: string, clean: string -> string,
                            detail: string, now: int)
    requires key in t.jobs && t.jobs[key].attempts == 0 && p in t.items
    requires t.items[p].kind == Photo || t.items[p].kind == Video
    requires t.items[p].id == key.itemId
    ensures var w := FailTimes(t, key, p, dir, clean, detail, now, MaxThumbAttempts - 1);
      key in w.jobs && p in w.items &&
      var r := ProcessOne(w, RowFor(w, key, p), dir, clean, Attempt(true, false, ToolOk), now);
      key !in r.jobs && r.items[p].thumbPath == Some(ThumbPath(clean, dir, key.itemId))
  {
    FailingJobLifetime(t, key, p, dir, clean, detail, now, MaxThumbAttempts - 1);
    var w := FailTimes(t, key, p, dir, clean, detail, now, MaxThumbAttempts - 1);
    FailTimesKeepsItems(t, key, p, dir, clean, detail, now, MaxThumbAttempts - 1);
    ProcessOneOutcome(w, RowFor(w, key, p), dir, clean, Attempt(true, false, ToolOk), now);
  }

  /** Failed polls never touch the item rows. */
  lemma {:induction false} FailTimesKeepsItems(t: Tables, key: JobKey, p: string, dir: string, clean: string -> string,
                                               detail: string, now: int, n: nat)
    ensures FailTimes(t, key, p, dir, clean, detail, now, n).items == t.items
    decreases n
  {
    if n > 0 {
      FailTimesKeepsItems(t, key, p, dir, clean, detail, now, n - 1);
      var w := FailTimes(t, key, p, dir, clean, detail, now, n - 1);
      if key in w.jobs && p in w.items {
        ProcessOneOutcome(w, RowFor(w, key, p), dir, clean, Attempt(true, false, ToolFailed(detail)), now);
      }
    }
  }

  // ---------------------------------------------------------------------
  // The worker object

  class ThumbWorker {
    const db: Catalog
    const thumbDir: string

    constructor (db: Catalog, thumbDir: string)
      ensures this.db == db && this.thumbDir == thumbDir
    {
      this.db := db;
      this.thumbDir := thumbDir;
    }

    /** The selection query, read from the current tables. */
    method SelectThumbJobs() returns (sel: seq<Selected>)
      requires db.Valid()
      ensures IsSelection(db.State(), sel)
    {
      ghost var t := db.State();
      var pending := set k | k in db.jobs && k.kind == Thumb && db.jobs[k].lockedAt == None && HasItem(db.items, k.itemId);
      ghost var all := pending;
      assert all == EligibleKeys(t);
      sel := [];
      while |sel| < BatchSize && pending != {}
        invariant SelectedSoFar(t, all, sel, pending)
        invariant |sel| + |pending| == |all| && |sel| <= BatchSize
        decreases |pending|
      {
        var k := Earliest(db.jobs, pending);
        var p :| p in db.items && db.items[p].id == k.itemId;
        var row := Selected(k, db.items[p].path, db.items[p].kind, db.jobs[k].attempts);
        ExtendSelection(t, all, sel, pending, row);
        RemoveOne(pending, k);
        sel := sel + [row];
        pending := pending - {k};
      }
      SelectionComplete(t, all, sel, pending);
    }

    /** One iteration of the loop of `processJobs`. */
    method ProcessRow(s: Selected, clean: string -> string, a: Attempt, now: int)
      modifies db
      ensures db.State() == ProcessOne(old(db.State()), s, thumbDir, clean, a, now)
      ensures db.libraries == old(db.libraries) && db.runs == old(db.runs) && db.nextRunId == old(db.nextRunId)
    {
      if !a.lockOk {
        return;
      }
      db.jobs := Lock(db.jobs, s.key, now);
      var thumb := ThumbPath(clean, thumbDir, s.key.itemId);
      var err := Generate(s.path, s.kind, a.sourceMissing, a.tool);
      if err.Some? {
        var newAttempts := s.attempts + 1;
        if newAttempts >= MaxThumbAttempts {
          db.jobs := db.jobs - {s.key};
        } else {
          db.jobs := Retry(db.jobs, s.key, err.value);
        }
        return;
      }
      db.items := SetThumb(db.items, s.key.itemId, thumb);
      db.jobs := db.jobs - {s.key};
    }

    /** `processJobs`: select, then process every selected row in order. */
    method ProcessJobs(clean: string -> string, outcome: JobKey -> Attempt, now: int) returns (sel: seq<Selected>)
      requires db.Valid()
      modifies db
      ensures db.Valid()
      ensures IsSelection(old(db.State()), sel)
      ensures db.State() == ProcessAll(old(db.State()), sel, thumbDir, clean, outcome, now)
      ensures db.libraries == old(db.libraries) && db.runs == old(db.runs) && db.nextRunId == old(db.nextRunId)
    {
      sel := SelectThumbJobs();
      ghost var t0 := db.State();
      ProcessBatch(sel, clean, outcome, now);
      PollKeepsWellFormed(t0, sel, thumbDir, clean, outcome, now);
    }

    /** The loop over the selected rows, processing each in turn. */
    method ProcessBatch(sel: seq<Selected>, clean: string -> string, outcome: JobKey -> Attempt, now: int)
      modifies db
      ensures db.State() == ProcessAll(old(db.State()), sel, thumbDir, clean, outcome, now)
      ensures db.libraries == old(db.libraries) && db.runs == old(db.runs) && db.nextRunId == old(db.nextRunId)
    {
      for i := 0 to |sel|
        invariant db.State() == ProcessAll(old(db.State()), sel[..i], thumbDir, clean, outcome, now)
        invariant db.libraries == old(db.libraries) && db.runs == old(db.runs) && db.nextRunId == old(db.nextRunId)
      {
        ProcessRow(sel[i], clean, outcome(sel[i].key), now);
        assert sel[..i + 1][..i] == sel[..i];
      }
      assert sel[..|sel|] == sel;
    }
  }

  /** A poll keeps the item rows well formed: it only ever writes `thumb_path`. */
  lemma PollKeepsWellFormed(t: Tables, sel: seq<Selected>, dir: string, clean: string -> string,
                            outcome: JobKey -> Attempt, now: int)
    requires ItemsWellFormed(t.items, t.nextItemId)
    ensures var r := ProcessAll(t, sel, dir, clean, outcome, now); ItemsWellFormed(r.items, r.nextItemId)
  {
    var r := ProcessAll(t, sel, dir, clean, outcome, now);
    PollFrame(t, sel, dir, clean, outcome, now);
    forall p, q | p in r.items && q in r.items && r.items[p].id == r.items[q].id ensures p == q {
      assert r.items[p].id == t.items[p].id && r.items[q].id == t.items[q].id;
    }
  }
}
