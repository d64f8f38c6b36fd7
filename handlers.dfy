/**
 * The decision rules inside the HTTP handlers (backend/internal/api/handlers.go):
 * items pagination, the recent-items limit, the search pattern, library
 * creation, the last-user guard and the per-kind library statistics.
 *
 * Query parameters arrive already parsed, so an `int` stands for what the
 * handler sees: `strconv.Atoi` and `strconv.ParseInt` give 0 on a value that
 * is not a number, and the nearest 64-bit bound on a number out of range.
 * Where the handler checks the parse error, the parse result is an `Option`.
 */
module Handlers {
  import opened Wrappers
  import opened GoStrings
  import opened Catalog

  // ---------------------------------------------------------------------
  // 64-bit integers

  const TwoTo63: int := 0x8000_0000_0000_0000
  const TwoTo64: int := 0x1_0000_0000_0000_0000

  /** The range of Go's `int` on a 64-bit platform. */
  predicate IsInt64(x: int) {
    -TwoTo63 <= x < TwoTo63
  }

  /** Two's-complement wrap-around of a mathematical result into 64 bits. */
  function Wrap64(x: int): (r: int)
    ensures IsInt64(r)
    ensures (r - x) % TwoTo64 == 0
    ensures IsInt64(x) ==> r == x
  {
    (x + TwoTo63) % TwoTo64 - TwoTo63
  }

  // ---------------------------------------------------------------------
  // handleItems

  const DefaultPageSize := 50
  const MaxPageSize := 200

  datatype Page = Page(page: int, pageSize: int)

  /** A page number below 1 becomes 1; a page size outside 1..200 becomes 50. */
  function ClampPage(page: int, pageSize: int): (r: Page)
    ensures r.page >= 1 && 1 <= r.pageSize <= MaxPageSize
    ensures page >= 1 <==> r.page == page
    ensures page < 1 ==> r.page == 1
    ensures 1 <= pageSize <= MaxPageSize <==> r.pageSize == pageSize
    ensures !(1 <= pageSize <= MaxPageSize) ==> r.pageSize == DefaultPageSize
  {
    Page(if page <= 0 then 1 else page, if pageSize <= 0 || pageSize > MaxPageSize then DefaultPageSize else pageSize)
  }

  /** Clamping is idempotent: valid parameters are left alone. */
  lemma ClampPageIdempotent(page: int, pageSize: int)
    ensures var p := ClampPage(page, pageSize); ClampPage(p.page, p.pageSize) == p
  {
  }

  /** `offset := (page - 1) * pageSize` as written: a Go `int` product, which wraps. */
  function OffsetAsWritten(p: Page): int {
    Wrap64((p.page - 1) * p.pageSize)
  }

  /** The offset the query intends: the rows of all earlier pages, never negative. */
  function Offset(p: Page): (r: int)
    requires p.page >= 1 && p.pageSize >= 1
    ensures r >= 0
  {
    (p.page - 1) * p.pageSize
  }

  /** Below the overflow bound the written offset is the intended one. */
  lemma OffsetAsWrittenAgrees(p: Page)
    requires p.page >= 1 && p.pageSize >= 1 && (p.page - 1) * p.pageSize < TwoTo63
    ensures OffsetAsWritten(p) == Offset(p)
  {
  }

  /**
   * A huge page number makes the written offset negative: page
   * 1000000000000000000 with the default page size wraps to a negative
   * `OFFSET`, which the database rejects.
   */
  lemma OffsetWrapsNegative()
    ensures var p := ClampPage(1000000000000000000, 0);
      && p == Page(1000000000000000000, 50)
      && IsInt64(p.page)
      && OffsetAsWritten(p) == -5340232221128654898
      && OffsetAsWritten(p) < 0
  {
  }

  datatype Paging = Paging(limit: int, offset: int)

  /** The paging of `handleItems`, with the intended offset: an error unless the library id is positive. */
  function ItemsPaging(lid: int, page: int, pageSize: int): (r: Result<Paging, string>)
    ensures r.Err? <==> lid <= 0
    ensures r.Err? ==> r.error == "library_id required"
    ensures r.Ok? ==>
      && 1 <= r.value.limit <= MaxPageSize && r.value.offset >= 0
      && r.value.offset == (ClampPage(page, pageSize).page - 1) * r.value.limit
  {
    if lid <= 0 then Err("library_id required")
    else
      var p := ClampPage(page, pageSize);
      Ok(Paging(p.pageSize, Offset(p)))
  }

  /**
   * The paging of `handleItems` as written: the offset is the wrapped 64-bit
   * product, which agrees with the intended one as long as it fits.
   */
  function ItemsPagingAsWritten(lid: int, page: int, pageSize: int): (r: Result<Paging, string>)
    ensures r.Err? <==> lid <= 0
    ensures r.Err? ==> r.error == "library_id required"
    ensures r.Ok? ==>
      && 1 <= r.value.limit <= MaxPageSize && IsInt64(r.value.offset)
      && r.value.limit == ItemsPaging(lid, page, pageSize).value.limit
      && ((ClampPage(page, pageSize).page - 1) * r.value.limit < TwoTo63 ==>
            r.value.offset == ItemsPaging(lid, page, pageSize).value.offset && r.value.offset >= 0)
  {
    if lid <= 0 then Err("library_id required")
    else
      var p := ClampPage(page, pageSize);
      Ok(Paging(p.pageSize, OffsetAsWritten(p)))
  }

  /** As written, a huge page number reaches the query with a negative offset. */
  lemma ItemsPagingAsWrittenNegative(lid: int)
    requires lid > 0
    ensures ItemsPagingAsWritten(lid, 1000000000000000000, 0).Ok?
    ensures ItemsPagingAsWritten(lid, 1000000000000000000, 0).value.offset < 0
  {
    OffsetWrapsNegative();
  }

  /** Consecutive pages tile the result: page n+1 starts where page n ends. */
  lemma PagesTile(lid: int, n: int, pageSize: int)
    requires lid > 0 && n >= 1
    ensures var a := ItemsPaging(lid, n, pageSize).value;
      var b := ItemsPaging(lid, n + 1, pageSize).value;
      a.limit == b.limit && b.offset == a.offset + a.limit
  {
  }

  /** The thumbnail link attached to a listed item: only when the row has a non-empty thumbnail path. */
  function ThumbUrl(id: int, thumb: string): (r: Option<string>)
    ensures r.Some? <==> thumb != ""
    ensures r.Some? ==> r.value == "/api/items/" + IntToDecimal(id) + "/thumb"
  {
    if thumb != "" then Some("/api/items/" + IntToDecimal(id) + "/thumb") else None
  }

  /** Distinct items get distinct thumbnail links. */
  lemma ThumbUrlsDistinct(a: int, b: int)
    requires a != b
    ensures ThumbUrl(a, "t") != ThumbUrl(b, "t")
  {
    var ua := "/api/items/" + IntToDecimal(a) + "/thumb";
    var ub := "/api/items/" + IntToDecimal(b) + "/thumb";
    if ua == ub {
      var n := |"/api/items/"|;
      assert |IntToDecimal(a)| == |ua| - n - 6 == |IntToDecimal(b)|;
      assert IntToDecimal(a) == ua[n..|ua| - 6];
      assert IntToDecimal(b) == ub[n..|ub| - 6];
      IntToDecimalInjective(a, b);
    }
  }

  // ---------------------------------------------------------------------
  // handleRecentItems

  const DefaultRecentLimit := 20
  const MaxRecentLimit := 100

  /** The limit: a parsed value in 1..100 is used, anything else (or none) gives 20. */
  function RecentLimit(parsed: Option<int>): (r: int)
    ensures 1 <= r <= MaxRecentLimit
    ensures parsed.Some? && 1 <= parsed.value <= MaxRecentLimit ==> r == parsed.value
    ensures !(parsed.Some? && 1 <= parsed.value <= MaxRecentLimit) ==> r == DefaultRecentLimit
  {
    if parsed.Some? && parsed.value > 0 && parsed.value <= MaxRecentLimit then parsed.value else DefaultRecentLimit
  }

  /** Feeding the limit back in gives the same limit. */
  lemma RecentLimitIdempotent(parsed: Option<int>)
    ensures RecentLimit(Some(RecentLimit(parsed))) == RecentLimit(parsed)
  {
  }

  // ---------------------------------------------------------------------
  // handleSearch

  /** The `ILIKE` pattern for a search; `None` when the trimmed query is empty (empty results). */
  function SearchPattern(raw: string): Option<string> {
    var q := TrimSpace(raw);
    if q == "" then None
    else
      var pattern := ReplaceChar(q, '*', '%');
      if '%' !in pattern then Some("%" + pattern + "%") else Some(pattern)
  }

  /** Replacing `*` by `%` leaves no `*`, and leaves a `%` exactly when the query had either. */
  lemma ReplaceStarFacts(q: string)
    ensures var r := ReplaceChar(q, '*', '%');
      && '*' !in r
      && (('*' in q || '%' in q) <==> '%' in r)
      && (!('*' in q || '%' in q) ==> r == q)
  {
    var r := ReplaceChar(q, '*', '%');
    if '%' in r {
      var i :| 0 <= i < |r| && r[i] == '%';
      assert q[i] == '*' || q[i] == '%';
    }
    if '*' in q || '%' in q {
      var i :| 0 <= i < |q| && (q[i] == '*' || q[i] == '%');
      assert r[i] == '%';
    }
  }

  /** Wrapping a pattern without `*` in `%` keeps it free of `*`. */
  lemma WrapFacts(r: string)
    requires '*' !in r
    ensures var p := "%" + r + "%"; '*' !in p && '%' in p
  {
    var p := "%" + r + "%";
    assert p[0] == '%';
    forall i | 0 <= i < |p| ensures p[i] != '*' {
      if 0 < i < |p| - 1 {
        assert p[i] == r[i - 1];
      }
    }
  }

  /**
   * Every `*` of the query becomes `%`; a query with neither `*` nor `%`
   * becomes a substring match `%q%`; the pattern always holds a `%` and never a `*`.
   */
  lemma SearchPatternShape(raw: string)
    ensures var q := TrimSpace(raw);
      && (SearchPattern(raw) == None <==> q == "")
      && (q != "" ==>
            var p := SearchPattern(raw).value;
            && '*' !in p && '%' in p
            && (('*' in q || '%' in q) ==> p == ReplaceChar(q, '*', '%'))
            && (!('*' in q || '%' in q) ==> p == "%" + q + "%"))
  {
    var q := TrimSpace(raw);
    var r := ReplaceChar(q, '*', '%');
    ReplaceStarFacts(q);
    if '%' !in r {
      WrapFacts(r);
    }
  }

  // ---------------------------------------------------------------------
  // handleCreateLibrary

  /** The checks before the insert: the trimmed name must be non-empty and some root must be given. */
  function ValidateLibrary(name: string, roots: seq<string>): (r: Result<Library, string>)
    ensures r.Ok? <==> TrimSpace(name) != "" && |roots| > 0
    ensures r.Ok? ==> r.value == Library(TrimSpace(name), roots)
    ensures r.Err? ==> r.error == "name and roots required"
  {
    var n := TrimSpace(name);
    if n == "" || |roots| == 0 then Err("name and roots required") else Ok(Library(n, roots))
  }

  /** An accepted library has a non-blank name with nothing left to trim. */
  lemma ValidLibraryNameTrimmed(name: string, roots: seq<string>)
    requires ValidateLibrary(name, roots).Ok?
    ensures var lib := ValidateLibrary(name, roots).value;
      lib.name != "" && TrimSpace(lib.name) == lib.name && |lib.roots| >= 1
  {
    TrimSpaceIdempotent(name);
  }

  // ---------------------------------------------------------------------
  // handleDeleteUser

  datatype DeleteOutcome = BadId | LastUser | Deleted(selfDeleted: bool)

  /**
   * The guard: a non-positive id is refused, then deletion is refused unless
   * more than one user exists; a failed count reads as 0.
   */
  function DeleteUserDecision(userId: int, userCount: Option<int>, currentUser: Option<int>): DeleteOutcome {
    if userId <= 0 then BadId
    else if userCount.GetOr(0) <= 1 then LastUser
    else Deleted(userId == currentUser.GetOr(0))
  }

  /** A deletion happens only for a positive id with another user left afterwards; self deletion is reported. */
  lemma DeleteKeepsAUser(userId: int, userCount: Option<int>, currentUser: Option<int>)
    ensures var d := DeleteUserDecision(userId, userCount, currentUser);
      && (d.Deleted? <==> userId > 0 && userCount.Some? && userCount.value - 1 >= 1)
      && (d.Deleted? ==> (d.selfDeleted <==> currentUser == Some(userId)))
      && (userId > 0 && userCount.None? ==> d == LastUser)
  {
  }

  // ---------------------------------------------------------------------
  // handleLibraryStats

  /** One row of `SELECT kind, COUNT(*), COALESCE(SUM(size_bytes), 0) ... GROUP BY kind`. */
  datatype KindRow = KindRow(kind: string, count: int, size: int)

  datatype LibraryStats = LibraryStats(
    path: string,
    totalItems: int,
    totalSize: int,
    videoCount: int,
    photoCount: int,
    audioCount: int,
    otherCount: int)

  /** The switch of the aggregation loop: totals add up, the three known kinds are assigned, the rest add up. */
  function AddRow(st: LibraryStats, row: KindRow): LibraryStats {
    var st' := st.(totalItems := st.totalItems + row.count, totalSize := st.totalSize + row.size);
    if row.kind == "video" then st'.(videoCount := row.count)
    else if row.kind == "photo" then st'.(photoCount := row.count)
    else if row.kind == "audio" then st'.(audioCount := row.count)
    else st'.(otherCount := st'.otherCount + row.count)
  }

  /** The statistics after the rows, in order; `path` is the first root, if any. */
  function StatsOf(roots: seq<string>, rows: seq<KindRow>): LibraryStats
    decreases |rows|
  {
    if rows == [] then LibraryStats(if |roots| > 0 then roots[0] else "", 0, 0, 0, 0, 0, 0)
    else AddRow(StatsOf(roots, rows[..|rows| - 1]), rows[|rows| - 1])
  }

  /** The aggregation loop of `handleLibraryStats`. */
  method AggregateStats(roots: seq<string>, rows: seq<KindRow>) returns (st: LibraryStats)
    ensures st == StatsOf(roots, rows)
  {
    st := LibraryStats("", 0, 0, 0, 0, 0, 0);
    if |roots| > 0 {
      st := st.(path := roots[0]);
    }
    for i := 0 to |rows|
      invariant st == StatsOf(roots, rows[..i])
    {
      var row := rows[i];
      st := st.(totalItems := st.totalItems + row.count, totalSize := st.totalSize + row.size);
      if row.kind == "video" {
        st := st.(videoCount := row.count);
      } else if row.kind == "photo" {
        st := st.(photoCount := row.count);
      } else if row.kind == "audio" {
        st := st.(audioCount := row.count);
      } else {
        st := st.(otherCount := st.otherCount + row.count);
      }
      assert rows[..i + 1][..i] == rows[..i];
    }
    assert rows[..|rows|] == rows;
  }

  predicate IsVideoKind(k: string) { k == "video" }
  predicate IsPhotoKind(k: string) { k == "photo" }
  predicate IsAudioKind(k: string) { k == "audio" }
  predicate IsOtherKind(k: string) { k != "video" && k != "photo" && k != "audio" }

  /** The sum of the counts of the rows whose kind satisfies `p`. */
  function CountWhere(rows: seq<KindRow>, p: string -> bool): int
    decreases |rows|
  {
    if rows == [] then 0
    else CountWhere(rows[..|rows| - 1], p) + (if p(rows[|rows| - 1].kind) then rows[|rows| - 1].count else 0)
  }

  function SumSizes(rows: seq<KindRow>): int
    decreases |rows|
  {
    if rows == [] then 0 else SumSizes(rows[..|rows| - 1]) + rows[|rows| - 1].size
  }

  /** Every kind is exactly one of video, photo, audio and the rest. */
  function SumCounts(rows: seq<KindRow>): int
    decreases |rows|
  {
    if rows == [] then 0 else SumCounts(rows[..|rows| - 1]) + rows[|rows| - 1].count
  }

  /**
   * The totals are the sums over all rows, and the other count sums every
   * row of an unrecognised kind, whatever the rows.
   */
  lemma {:induction false} StatsTotals(roots: seq<string>, rows: seq<KindRow>)
    ensures var st := StatsOf(roots, rows);
      && st.totalItems == SumCounts(rows)
      && st.totalSize == SumSizes(rows)
      && st.otherCount == CountWhere(rows, IsOtherKind)
      && st.path == (if |roots| > 0 then roots[0] else "")
    decreases |rows|
  {
    if rows != [] {
      StatsTotals(roots, rows[..|rows| - 1]);
    }
  }

  /** `GROUP BY kind` yields each kind once. */
  predicate DistinctKinds(rows: seq<KindRow>) {
    forall i, j :: 0 <= i < j < |rows| ==> rows[i].kind != rows[j].kind
  }

  /** With one row per kind, each known kind's count is that row's count (0 when absent). */
  lemma {:induction false} StatsPerKind(roots: seq<string>, rows: seq<KindRow>)
    requires DistinctKinds(rows)
    ensures var st := StatsOf(roots, rows);
      && st.videoCount == CountWhere(rows, IsVideoKind)
      && st.photoCount == CountWhere(rows, IsPhotoKind)
      && st.audioCount == CountWhere(rows, IsAudioKind)
    decreases |rows|
  {
    if rows != [] {
      var init := rows[..|rows| - 1];
      var last := rows[|rows| - 1];
      assert DistinctKinds(init);
      StatsPerKind(roots, init);
      NoKindNoCount(init, last.kind);
    }
  }

  /** Rows none of which has kind `k` count nothing for `k`. */
  lemma {:induction false} NoKindNoCount(rows: seq<KindRow>, k: string)
    requires forall i :: 0 <= i < |rows| ==> rows[i].kind != k
    ensures k == "video" ==> CountWhere(rows, IsVideoKind) == 0
    ensures k == "photo" ==> CountWhere(rows, IsPhotoKind) == 0
    ensures k == "audio" ==> CountWhere(rows, IsAudioKind) == 0
    decreases |rows|
  {
    if rows != [] {
      NoKindNoCount(rows[..|rows| - 1], k);
    }
  }

  /** The four per-kind counts partition the total. */
  lemma {:induction false} CountsPartition(rows: seq<KindRow>)
    ensures SumCounts(rows) == CountWhere(rows, IsVideoKind) + CountWhere(rows, IsPhotoKind)
                             + CountWhere(rows, IsAudioKind) + CountWhere(rows, IsOtherKind)
    decreases |rows|
  {
    if rows != [] {
      CountsPartition(rows[..|rows| - 1]);
    }
  }

  /** For a grouped result, `TotalItems` is the sum of the four per-kind counts. */
  lemma StatsAddUp(roots: seq<string>, rows: seq<KindRow>)
    requires DistinctKinds(rows)
    ensures var st := StatsOf(roots, rows);
      st.totalItems == st.videoCount + st.photoCount + st.audioCount + st.otherCount
  {
    StatsTotals(roots, rows);
    StatsPerKind(roots, rows);
    CountsPartition(rows);
  }
}
