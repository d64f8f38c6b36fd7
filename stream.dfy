/**
 * The streamer (backend/internal/stream/stream.go): looks an item up by id,
 * answers not-found for a missing or absent row, and heals the catalog when
 * the file of a present row cannot be opened by marking the row absent.
 *
 * `os.Open` and `f.Stat` are an oracle (`open`), the clock reading is `now`;
 * the bytes served and the response headers are not part of the model.
 */
module Stream {
  import opened Wrappers
  import opened Catalog

  /** What opening the file did: failed, or opened with a `Stat` that succeeded or not. */
  datatype OpenResult = OpenFailed | Opened(statOk: bool)

  /** The response: 404, 500 "stat error", or the content of the file at `path`. */
  datatype StreamOutcome = NotFound | StatError | Served(path: string)

  datatype Streamed = Streamed(outcome: StreamOutcome, items: map<string, MediaItem>)

  /** `update media_item set present=false, missing_since=coalesce(missing_since,$2), updated_at=$2 where id=$1`. */
  function MarkMissing(items: map<string, MediaItem>, id: int, now: int): (r: map<string, MediaItem>)
    ensures r.Keys == items.Keys
  {
    map p | p in items ::
      if items[p].id == id then
        items[p].(present := false, missingSince := Some(items[p].missingSince.GetOr(now)), updatedAt := now)
      else items[p]
  }

  /** `StreamByID` once the row with the id has been found under key `p`. */
  function StreamRow(items: map<string, MediaItem>, p: string, open: string -> OpenResult, now: int): Streamed
    requires p in items
  {
    var it := items[p];
    if !it.present then Streamed(NotFound, items)
    else
      match open(it.path)
      case OpenFailed => Streamed(NotFound, MarkMissing(items, it.id, now))
      case Opened(statOk) => Streamed(if statOk then Served(it.path) else StatError, items)
  }

  /**
   * Self-heal: a present row whose file does not open becomes absent, keeps
   * an earlier `missing_since` or gets `now`, and is reported not found;
   * nothing else about it or about other rows changes.
   */
  lemma SelfHeal(items: map<string, MediaItem>, p: string, open: string -> OpenResult, now: int)
    requires p in items && items[p].present && open(items[p].path) == OpenFailed
    requires forall q :: q in items && q != p ==> items[q].id != items[p].id
    ensures var r := StreamRow(items, p, open, now);
      && r.outcome == NotFound
      && r.items.Keys == items.Keys
      && r.items[p] == items[p].(present := false, missingSince := Some(items[p].missingSince.GetOr(now)), updatedAt := now)
      && (items[p].missingSince.Some? ==> r.items[p].missingSince == items[p].missingSince)
      && (forall q :: q in items && q != p ==> r.items[q] == items[q])
  {
  }

  /** An absent row is reported not found and nothing changes. */
  lemma AbsentRowNotFound(items: map<string, MediaItem>, p: string, open: string -> OpenResult, now: int)
    requires p in items && !items[p].present
    ensures StreamRow(items, p, open, now) == Streamed(NotFound, items)
  {
  }

  /** A file that opens is served (or a stat error reported) and the catalog does not change. */
  lemma OpenedNoChange(items: map<string, MediaItem>, p: string, open: string -> OpenResult, now: int)
    requires p in items && items[p].present && open(items[p].path).Opened?
    ensures var r := StreamRow(items, p, open, now);
      && r.items == items
      && (r.outcome == Served(items[p].path) <==> open(items[p].path).statOk)
      && (r.outcome == StatError <==> !open(items[p].path).statOk)
  {
  }

  /** Only a present row whose file is served yields content; the catalog then has the row present. */
  lemma ServedOnlyPresent(items: map<string, MediaItem>, p: string, open: string -> OpenResult, now: int)
    requires p in items
    ensures StreamRow(items, p, open, now).outcome.Served? ==>
      items[p].present && StreamRow(items, p, open, now).items == items
  {
  }

  /** Marking a row missing keeps the item rows well formed. */
  lemma MarkMissingWellFormed(items: map<string, MediaItem>, nextId: int, id: int, now: int)
    requires ItemsWellFormed(items, nextId)
    ensures ItemsWellFormed(MarkMissing(items, id, now), nextId)
  {
    var r := MarkMissing(items, id, now);
    forall p, q | p in r && q in r && r[p].id == r[q].id ensures p == q {
      assert r[p].id == items[p].id && r[q].id == items[q].id;
    }
  }

  class Streamer {
    const db: Catalog

    constructor (db: Catalog)
      ensures this.db == db
    {
      this.db := db;
    }

    /** `StreamByID`: the response, and the self-heal of the row when the open fails. */
    method StreamById(id: int, open: string -> OpenResult, now: int) returns (outcome: StreamOutcome)
      requires db.Valid()
      modifies db
      ensures db.Valid()
      ensures !HasItem(old(db.items), id) ==> outcome == NotFound && db.items == old(db.items)
      ensures forall p :: p in old(db.items) && old(db.items)[p].id == id ==>
        Streamed(outcome, db.items) == StreamRow(old(db.items), p, open, now)
      ensures db.libraries == old(db.libraries) && db.jobs == old(db.jobs) && db.runs == old(db.runs)
      ensures db.nextItemId == old(db.nextItemId) && db.nextRunId == old(db.nextRunId)
    {
      if !HasItem(db.items, id) {
        return NotFound;
      }
      var key :| key in db.items && db.items[key].id == id;
      var path := db.items[key].path;
      var present := db.items[key].present;
      if !present {
        return NotFound;
      }
      var f := open(path);
      if f.OpenFailed? {
        MarkMissingWellFormed(db.items, db.nextItemId, id, now);
        db.items := MarkMissing(db.items, id, now);
        return NotFound;
      }
      if !f.statOk {
        return StatError;
      }
      outcome := Served(path);
    }
  }
}
