/**
 * The folder browser of `handleFolders` (backend/internal/api/handlers.go),
 * for a folder below the library root: the subfolder names found in the
 * rel-paths under the folder, sorted by the handler's exchange sort, and
 * the items directly inside the folder, at most 500.
 *
 * The rows come from SQL `LIKE` queries on `rel_path`; the `LIKE` match is
 * modelled (with PostgreSQL's default escape character `\`), the rest of the
 * queries is not: the rows are given in the order the database returns them.
 */
module Folders {
  import opened Wrappers
  import opened GoStrings
  import opened Catalog

  /** The `path` query parameter: spaces trimmed, then slashes at both ends. */
  function FolderPath(raw: string): string {
    TrimSlashes(TrimSpace(raw))
  }

  /**
   * `r` is `t` with slashes trimmed: it starts and ends with no `/`, and it is
   * a slice of `t` with only slashes before and after it.
   */
  predicate SlashTrimmedFrom(t: string, r: string) {
    && (r != [] ==> r[0] != '/' && r[|r| - 1] != '/')
    && exists i :: 0 <= i <= |t| && SliceBetweenSlashes(t, i, r)
  }

  /** `r` sits in `t` at `i`, with only slashes before and after it. */
  predicate SliceBetweenSlashes(t: string, i: int, r: string) {
    && 0 <= i <= |t| - |r| && t[i..i + |r|] == r
    && (forall k :: 0 <= k < i ==> t[k] == '/')
    && (forall k :: i + |r| <= k < |t| ==> t[k] == '/')
  }

  /** The folder path is the space-trimmed parameter with its slashes trimmed. */
  lemma FolderPathShape(raw: string)
    ensures SlashTrimmedFrom(TrimSpace(raw), FolderPath(raw))
  {
    TrimSlashesShape(TrimSpace(raw));
  }

  /** Trimming slashes leaves none at either end and cuts off only slashes, before and after. */
  lemma TrimSlashesShape(t: string)
    ensures SlashTrimmedFrom(t, TrimSlashes(t))
  {
    var l := TrimLeft(t, IsSlash);
    var r := TrimRight(l, IsSlash);
    TrimSlashesEnds(t);
    forall k | 0 <= k < |t| - |l| ensures t[k] == '/' {
      assert IsSlash(t[k]);
    }
    forall k | |r| <= k < |l| ensures l[k] == '/' {
      assert IsSlash(l[k]);
    }
    SliceOfSuffix(t, l, r);
  }

  /** A prefix `r` of a suffix `l` of `t`, each cut off at slashes only, sits between slashes in `t`. */
  lemma SliceOfSuffix(t: string, l: string, r: string)
    requires |l| <= |t| && l == t[|t| - |l|..] && |r| <= |l| && r == l[..|r|]
    requires forall k :: 0 <= k < |t| - |l| ==> t[k] == '/'
    requires forall k :: |r| <= k < |l| ==> l[k] == '/'
    ensures SliceBetweenSlashes(t, |t| - |l|, r)
  {
    var i := |t| - |l|;
    assert t[i..i + |r|] == l[..|r|];
    forall k | i + |r| <= k < |t| ensures t[k] == '/' {
      assert t[k] == l[k - i];
    }
  }

  /** Trimming slashes leaves none at either end. */
  lemma TrimSlashesEnds(t: string)
    ensures var r := TrimSlashes(t); r != [] ==> r[0] != '/' && r[|r| - 1] != '/'
  {
    var l := TrimLeft(t, IsSlash);
    var r := TrimRight(l, IsSlash);
    if r != [] {
      assert r[0] == l[0];
    }
  }

  // ---------------------------------------------------------------------
  // SQL LIKE

  /**
   * `s LIKE pat`: `%` matches any run of characters, `_` any one character,
   * `\` makes the next character literal; a pattern ending in a lone `\` is
   * rejected by the database and modelled as matching nothing.
   */
  predicate Like(s: string, pat: string)
    decreases |pat|, |s|
  {
    if pat == [] then s == []
    else if pat[0] == '%' then Like(s, pat[1..]) || (s != [] && Like(s[1..], pat))
    else if pat[0] == '\\' then |pat| >= 2 && s != [] && s[0] == pat[1] && Like(s[1..], pat[2..])
    else if pat[0] == '_' then s != [] && Like(s[1..], pat[1..])
    else s != [] && s[0] == pat[0] && Like(s[1..], pat[1..])
  }

  lemma {:induction false} LikePercentMatchesAll(s: string)
    ensures Like(s, "%")
    decreases |s|
  {
    if s != [] {
      LikePercentMatchesAll(s[1..]);
    }
  }

  /** A pattern character that `LIKE` treats specially. */
  predicate IsLikeSpecial(c: char) {
    c == '%' || c == '_' || c == '\\'
  }

  /** The prefix with every special character escaped, so that it matches only itself. */
  function EscapeLike(p: string): string
    decreases |p|
  {
    if p == [] then []
    else (if IsLikeSpecial(p[0]) then ['\\', p[0]] else [p[0]]) + EscapeLike(p[1..])
  }

  /** `s LIKE escape(p) || '%'` holds exactly when `p` is a prefix of `s`. */
  lemma {:induction false} LikeEscapedPrefix(s: string, p: string)
    ensures Like(s, EscapeLike(p) + "%") <==> p <= s
    decreases |p|
  {
    if p == [] {
      assert EscapeLike(p) + "%" == "%";
      LikePercentMatchesAll(s);
    } else {
      var pat := EscapeLike(p) + "%";
      var rest := EscapeLike(p[1..]) + "%";
      if IsLikeSpecial(p[0]) {
        assert pat[0] == '\\' && pat[1] == p[0] && pat[2..] == rest;
      } else {
        assert pat[0] == p[0] && pat[1..] == rest;
      }
      if s != [] {
        LikeEscapedPrefix(s[1..], p[1..]);
        assert p <= s <==> s[0] == p[0] && p[1..] <= s[1..];
      }
    }
  }

  /** The rel-paths of the library's present items that match a pattern (`SELECT DISTINCT rel_path`). */
  function MatchingRelPaths(items: map<string, MediaItem>, lib: int, pattern: string): set<string> {
    set p | p in items && items[p].libraryId == lib && items[p].present && Like(items[p].relPath, pattern)
      :: items[p].relPath
  }

  // ---------------------------------------------------------------------
  // Subfolders

  /** The first segment of what follows the prefix, when something below a further `/` remains. */
  function FolderOf(relPath: string, prefix: string): (r: Option<string>)
    ensures r.Some? ==> '/' !in r.value
  {
    var rest := TrimPrefix(relPath, prefix);
    if '/' in rest then Some(Split(rest, '/')[0]) else None
  }

  /** The `folderSet` the handler builds from the rows. */
  function FolderNames(rows: seq<string>, prefix: string): set<string> {
    set r | r in rows && FolderOf(r, prefix).Some? :: FolderOf(r, prefix).value
  }

  /** A row directly under the prefix contributes the name of its first subfolder. */
  lemma {:induction false} FolderOfChild(prefix: string, name: string, tail: string)
    requires '/' !in name
    ensures FolderOf(prefix + name + "/" + tail, prefix) == Some(name)
  {
    var r := prefix + name + "/" + tail;
    assert prefix <= r;
    assert TrimPrefix(r, prefix) == name + ['/'] + tail;
    SplitConcat(name, '/', tail);
    assert '/' in name + ['/'] + tail by {
      assert (name + ['/'] + tail)[|name|] == '/';
    }
    SplitNoSep(name, '/');
  }

  /** A string without the separator splits into itself. */
  lemma {:induction false} SplitNoSep(s: string, sep: char)
    requires sep !in s
    ensures Split(s, sep) == [s]
    decreases |s|
  {
    if s != [] {
      SplitNoSep(s[1..], sep);
      assert [s[0]] + s[1..] == s;
    }
  }

  /**
   * A listed subfolder name is a first segment after the prefix: some row
   * starts with the prefix, then the name, then a `/`.
   */
  lemma {:induction false} FolderNameIsSegment(rows: seq<string>, prefix: string, f: string)
    requires f in FolderNames(rows, prefix)
    requires forall r :: r in rows ==> prefix <= r
    ensures '/' !in f
    ensures exists r :: r in rows && prefix + f + "/" <= r
  {
    var r :| r in rows && FolderOf(r, prefix).Some? && FolderOf(r, prefix).value == f;
    var rest := TrimPrefix(r, prefix);
    assert r == prefix + rest;
    JoinSplit(rest, '/');
    var parts := Split(rest, '/');
    assert |parts| >= 2;
    assert Join(parts, '/') == parts[0] + ['/'] + Join(parts[1..], '/');
    assert prefix + f + "/" <= r by {
      assert r == prefix + (f + ['/'] + Join(parts[1..], '/'));
    }
  }

  /** The folder set as the loop over the rows builds it. */
  method CollectFolders(rows: seq<string>, prefix: string) returns (folderSet: set<string>)
    ensures folderSet == FolderNames(rows, prefix)
  {
    folderSet := {};
    for i := 0 to |rows|
      invariant folderSet == FolderNames(rows[..i], prefix)
    {
      var rest := TrimPrefix(rows[i], prefix);
      if '/' in rest {
        var parts := Split(rest, '/');
        folderSet := folderSet + {parts[0]};
      }
      assert rows[..i + 1] == rows[..i] + [rows[i]];
      assert FolderNames(rows[..i + 1], prefix) ==
        FolderNames(rows[..i], prefix) + (if FolderOf(rows[i], prefix).Some? then {FolderOf(rows[i], prefix).value} else {});
    }
    assert rows[..|rows|] == rows;
  }

  /** No two positions hold the same string. */
  predicate Distinct(s: seq<string>) {
    forall x, y :: 0 <= x < y < |s| ==> s[x] != s[y]
  }

  /** Ascending in Go's string order, each string at most the ones after it. */
  predicate SortedAsc(s: seq<string>) {
    forall x, y :: 0 <= x < y < |s| ==> !LexLess(s[y], s[x])
  }

  /** The set loop `for f := range folderSet { folders = append(folders, f) }`, in some iteration order. */
  method SetToSeq(folderSet: set<string>) returns (folders: seq<string>)
    ensures Distinct(folders) && |folders| == |folderSet|
    ensures forall f :: f in folders <==> f in folderSet
  {
    folders := [];
    var rest := folderSet;
    while rest != {}
      invariant rest <= folderSet
      invariant forall f :: f in folders <==> f in folderSet - rest
      invariant Distinct(folders) && |folders| + |rest| == |folderSet|
      decreases |rest|
    {
      var f :| f in rest;
      assert f !in folders;
      assert forall g :: g in folders + [f] <==> g in folders || g == f;
      folders := folders + [f];
      rest := rest - {f};
    }
  }

  /**
   * The handler's exchange sort: for each position, swap any later smaller
   * string into it.  The result is ascending and a permutation of the input.
   */
  method ExchangeSort(a: array<string>)
    modifies a
    ensures SortedAsc(a[..])
    ensures multiset(a[..]) == multiset(old(a[..]))
  {
    for i := 0 to a.Length
      invariant multiset(a[..]) == multiset(old(a[..]))
      invariant SortedBelow(a[..], i)
    {
      ghost var before := a[..];
      SwapInMinimum(a, i);
      SortedBelowStep(before, a[..], i);
    }
  }

  /** The first `i` strings are ascending and at most every string after them. */
  predicate SortedBelow(s: seq<string>, i: int)
    requires 0 <= i <= |s|
  {
    && (forall x, y :: 0 <= x < y < i ==> !LexLess(s[y], s[x]))
    && (forall x, v :: 0 <= x < i && v in s[i..] ==> !LexLess(v, s[x]))
  }

  /** One pass of the outer loop extends the sorted prefix by one. */
  lemma SortedBelowStep(s: seq<string>, t: seq<string>, i: int)
    requires 0 <= i < |s| == |t| && SortedBelow(s, i)
    requires t[..i] == s[..i] && multiset(t[i..]) == multiset(s[i..])
    requires forall y :: i < y < |t| ==> !LexLess(t[y], t[i])
    ensures SortedBelow(t, i + 1)
    ensures multiset(t) == multiset(s)
  {
    assert s == s[..i] + s[i..] && t == t[..i] + t[i..];
    forall x | 0 <= x < i ensures t[x] == s[x] {
      assert t[x] == t[..i][x];
    }
    forall v | v in t[i..] ensures v in s[i..] {
      assert v in multiset(t[i..]);
    }
    assert t[i] in t[i..];
    forall x, v | 0 <= x <= i && v in t[i + 1..] ensures !LexLess(v, t[x]) {
      var y :| 0 <= y < |t[i + 1..]| && t[i + 1..][y] == v;
      assert t[i + 1 + y] == v;
      assert v in t[i..];
    }
  }

  /** The inner loop: afterwards a[i] is at most every later string; only a[i..] is permuted. */
  method SwapInMinimum(a: array<string>, i: int)
    requires 0 <= i < a.Length
    modifies a
    ensures forall y :: i < y < a.Length ==> !LexLess(a[y], a[i])
    ensures a[..i] == old(a[..i])
    ensures multiset(a[i..]) == multiset(old(a[i..]))
  {
    for j := i + 1 to a.Length
      invariant a[..i] == old(a[..i])
      invariant multiset(a[i..]) == multiset(old(a[i..]))
      invariant forall y :: i < y < j ==> !LexLess(a[y], a[i])
    {
      if LexLess(a[j], a[i]) {
        SwapKeepsMinimum(a[..], i, j);
        ghost var before := a[..];
        a[i], a[j] := a[j], a[i];
        SwapKeepsElements(before, a[..], i, j);
      }
    }
  }

  /** Swapping two positions at or after `i` leaves the part before `i` and the multiset after it alone. */
  lemma SwapKeepsElements(s: seq<string>, t: seq<string>, i: int, j: int)
    requires 0 <= i < j < |s| && t == s[i := s[j]][j := s[i]]
    ensures t[..i] == s[..i]
    ensures multiset(t[i..]) == multiset(s[i..])
  {
    assert t[i..] == s[i..][0 := s[j]][j - i := s[i]];
  }

  /**
   * Swapping a smaller a[j] into position i keeps a[i] at most everything
   * between them, and the old a[i] moved to j is not below the new a[i].
   */
  lemma SwapKeepsMinimum(s: seq<string>, i: int, j: int)
    requires 0 <= i < j < |s| && LexLess(s[j], s[i])
    requires forall y :: i < y < j ==> !LexLess(s[y], s[i])
    ensures forall y :: i < y < j ==> !LexLess(s[y], s[j])
    ensures !LexLess(s[i], s[j])
  {
    forall y | i < y < j ensures !LexLess(s[y], s[j]) {
      if LexLess(s[y], s[j]) {
        LexLessTransitive(s[y], s[j], s[i]);
      }
    }
    if LexLess(s[i], s[j]) {
      LexLessTransitive(s[i], s[j], s[i]);
      LexLessIrreflexive(s[i]);
    }
  }

  /** A permutation of a sequence without repeats has no repeats. */
  lemma DistinctPermutation(s: seq<string>, t: seq<string>)
    requires Distinct(s) && multiset(s) == multiset(t)
    ensures Distinct(t)
  {
    forall x, y | 0 <= x < y < |t| ensures t[x] != t[y] {
      if t[x] == t[y] {
        TwoOccurrences(t, x, y);
        DistinctCountsOne(s, t[x]);
      }
    }
  }

  lemma TwoOccurrences(t: seq<string>, x: int, y: int)
    requires 0 <= x < y < |t| && t[x] == t[y]
    ensures multiset(t)[t[x]] >= 2
  {
    assert t == t[..y] + [t[y]] + t[y + 1..];
    assert t[x] in t[..y];
    assert multiset(t) == multiset(t[..y]) + multiset{t[y]} + multiset(t[y + 1..]);
  }

  lemma {:induction false} DistinctCountsOne(s: seq<string>, v: string)
    requires Distinct(s)
    ensures multiset(s)[v] <= 1
    decreases |s|
  {
    if s != [] {
      var init := s[..|s| - 1];
      assert Distinct(init);
      DistinctCountsOne(init, v);
      assert s == init + [s[|s| - 1]];
      assert multiset(s) == multiset(init) + multiset{s[|s| - 1]};
      if v == s[|s| - 1] {
        assert v !in init;
      }
    }
  }

  /** Ascending without repeats is strictly ascending. */
  lemma SortedDistinctStrict(s: seq<string>)
    requires SortedAsc(s) && Distinct(s)
    ensures forall x, y :: 0 <= x < y < |s| ==> LexLess(s[x], s[y])
  {
    forall x, y | 0 <= x < y < |s| ensures LexLess(s[x], s[y]) {
      LexLessTotal(s[x], s[y]);
    }
  }

  /**
   * The subfolder list: exactly the folder names of the rows, each once, in
   * strictly ascending order.
   */
  method ListSubfolders(rows: seq<string>, prefix: string) returns (folders: seq<string>)
    ensures forall f :: f in folders <==> f in FolderNames(rows, prefix)
    ensures forall x, y :: 0 <= x < y < |folders| ==> LexLess(folders[x], folders[y])
    ensures |folders| == |FolderNames(rows, prefix)|
  {
    var folderSet := CollectFolders(rows, prefix);
    var unsorted := SetToSeq(folderSet);
    var a := new string[|unsorted|](i requires 0 <= i < |unsorted| => unsorted[i]);
    assert a[..] == unsorted;
    ExchangeSort(a);
    folders := a[..];
    DistinctPermutation(unsorted, folders);
    SortedDistinctStrict(folders);
    forall f ensures f in folders <==> f in unsorted {
      assert f in folders <==> f in multiset(folders);
      assert f in unsorted <==> f in multiset(unsorted);
    }
  }

  // ---------------------------------------------------------------------
  // Direct children

  /** The cap on listed items. */
  const MaxListedItems := 500

  /** A row lies directly in the folder: nothing after the prefix holds a `/`. */
  predicate DirectChild(relPath: string, prefix: string) {
    '/' !in TrimPrefix(relPath, prefix)
  }

  /** The rows kept by the direct-child filter, in order. */
  function Children(rows: seq<MediaItem>, prefix: string): (r: seq<MediaItem>)
    ensures |r| <= |rows|
    ensures forall k :: 0 <= k < |r| ==> r[k] in rows && DirectChild(r[k].relPath, prefix)
    decreases |rows|
  {
    if rows == [] then []
    else
      var last := rows[|rows| - 1];
      Children(rows[..|rows| - 1], prefix) + (if DirectChild(last.relPath, prefix) then [last] else [])
  }

  /** Filtering a longer run of rows only adds children at the end. */
  lemma {:induction false} ChildrenPrefix(rows: seq<MediaItem>, prefix: string, i: int)
    requires 0 <= i <= |rows|
    ensures Children(rows[..i], prefix) <= Children(rows, prefix)
    decreases |rows|
  {
    if i < |rows| {
      var init := rows[..|rows| - 1];
      ChildrenPrefix(init, prefix, i);
      assert init[..i] == rows[..i];
      var a, b := Children(rows[..i], prefix), Children(init, prefix);
      var c := Children(rows, prefix);
      assert c == b + (if DirectChild(rows[|rows| - 1].relPath, prefix) then [rows[|rows| - 1]] else []);
      assert c[..|a|] == b[..|a|];
    } else {
      assert rows[..i] == rows;
    }
  }

  /** Every direct child of the folder, in row order, until 500 have been taken. */
  method DirectChildren(rows: seq<MediaItem>, prefix: string) returns (items: seq<MediaItem>)
    ensures var c := Children(rows, prefix);
      |items| == if |c| < MaxListedItems then |c| else MaxListedItems
    ensures items <= Children(rows, prefix)
  {
    items := [];
    var i := 0;
    while i < |rows|
      invariant 0 <= i <= |rows|
      invariant items == Children(rows[..i], prefix) && |items| < MaxListedItems
    {
      ChildrenStep(rows, prefix, i);
      var it := rows[i];
      if DirectChild(it.relPath, prefix) {
        items := items + [it];
      }
      i := i + 1;
      assert items == Children(rows[..i], prefix) && |items| <= MaxListedItems;
      if |items| >= MaxListedItems {
        break;
      }
    }
    CappedChildren(rows, prefix, i, items);
  }

  /** What the loop has taken when it stops: all children, or the first 500 of them. */
  lemma CappedChildren(rows: seq<MediaItem>, prefix: string, i: int, items: seq<MediaItem>)
    requires 0 <= i <= |rows| && items == Children(rows[..i], prefix)
    requires |items| <= MaxListedItems && (i < |rows| ==> |items| == MaxListedItems)
    ensures var c := Children(rows, prefix);
      |items| == if |c| < MaxListedItems then |c| else MaxListedItems
    ensures items <= Children(rows, prefix)
  {
    ChildrenPrefix(rows, prefix, i);
    if i == |rows| {
      assert rows[..i] == rows;
    }
  }

  /** The filter over one more row keeps that row exactly when it is a direct child. */
  lemma ChildrenStep(rows: seq<MediaItem>, prefix: string, i: int)
    requires 0 <= i < |rows|
    ensures Children(rows[..i + 1], prefix) ==
      Children(rows[..i], prefix) + (if DirectChild(rows[i].relPath, prefix) then [rows[i]] else [])
  {
    assert rows[..i + 1][..i] == rows[..i];
  }

  // ---------------------------------------------------------------------
  // The listing as written and as intended

  /** The subfolder names the handler lists for a non-empty folder path, as written: `LIKE path || '/%'`. */
  function FoldersAsWritten(items: map<string, MediaItem>, lib: int, path: string): set<string> {
    var prefix := path + "/";
    set r | r in MatchingRelPaths(items, lib, prefix + "%") && FolderOf(r, prefix).Some? :: FolderOf(r, prefix).value
  }

  /** An item whose rel-path is outside the folder but matches the unescaped pattern. */
  function StrayItem(): MediaItem {
    MediaItem(1, 1, "/media/axb/c/d.jpg", "axb/c/d.jpg", Photo, true, None, 0, 0, 0, 0, None)
  }

  /**
   * An `_` in the folder name is a wildcard: browsing `a_b` lists the
   * folder `axb` of the sibling tree `axb/`, which is not below `a_b/`.
   */
  lemma UnescapedPatternListsStranger()
    ensures var items := map["/media/axb/c/d.jpg" := StrayItem()];
      && "axb" in FoldersAsWritten(items, 1, "a_b")
      && !("a_b/" <= StrayItem().relPath)
  {
    var items := map["/media/axb/c/d.jpg" := StrayItem()];
    var r := StrayItem().relPath;
    assert "a_b" + "/" == "a_b/" && "a_b/" + "%" == "a_b/%";
    StrayMatches();
    var rows := MatchingRelPaths(items, 1, "a_b/%");
    assert r in rows by {
      assert "/media/axb/c/d.jpg" in items && items["/media/axb/c/d.jpg"] == StrayItem();
    }
    StrayFolder();
    assert r[1] != "a_b/"[1];
  }

  lemma StrayMatches()
    ensures Like("axb/c/d.jpg", "a_b/%")
  {
    var r := "axb/c/d.jpg";
    LikePercentMatchesAll(r[4..]);
    assert "a_b/%"[1..] == "_b/%" && "_b/%"[1..] == "b/%" && "b/%"[1..] == "/%" && "/%"[1..] == "%";
    assert Like(r[3..], "/%");
    assert Like(r[2..], "b/%");
    assert Like(r[1..], "_b/%");
  }

  lemma StrayFolder()
    ensures FolderOf("axb/c/d.jpg", "a_b/") == Some("axb")
  {
    var r := "axb/c/d.jpg";
    StrayNotBelow();
    assert r[3] == '/';
    StraySplit();
  }

  /** The stray rel-path does not start with the folder prefix, so trimming it changes nothing. */
  lemma StrayNotBelow()
    ensures TrimPrefix("axb/c/d.jpg", "a_b/") == "axb/c/d.jpg"
  {
    var r := "axb/c/d.jpg";
    assert r[1] != "a_b/"[1];
  }

  /** The first segment of the stray rel-path is `axb`. */
  lemma StraySplit()
    ensures Split("axb/c/d.jpg", '/')[0] == "axb"
  {
    assert "axb/c/d.jpg" == "axb" + ['/'] + "c/d.jpg";
    SplitConcat("axb", '/', "c/d.jpg");
    SplitNoSep("axb", '/');
  }

  /** The rows below the folder, with the prefix escaped in the pattern. */
  function RowsUnder(items: map<string, MediaItem>, lib: int, path: string): set<string> {
    MatchingRelPaths(items, lib, EscapeLike(path + "/") + "%")
  }

  /** The subfolder names with the pattern escaped. */
  function FoldersUnder(items: map<string, MediaItem>, lib: int, path: string): set<string> {
    var prefix := path + "/";
    set r | r in RowsUnder(items, lib, path) && FolderOf(r, prefix).Some? :: FolderOf(r, prefix).value
  }

  /**
   * With the prefix escaped, the rows are exactly the library's present
   * rel-paths below the folder, and each listed name is a subfolder of it.
   */
  lemma FoldersUnderAreSubfolders(items: map<string, MediaItem>, lib: int, path: string, f: string)
    ensures forall r :: r in RowsUnder(items, lib, path) <==>
      exists p :: p in items && items[p].libraryId == lib && items[p].present && items[p].relPath == r && path + "/" <= r
    ensures f in FoldersUnder(items, lib, path) ==>
      '/' !in f && exists r :: r in RowsUnder(items, lib, path) && path + "/" + f + "/" <= r
  {
    forall r ensures r in RowsUnder(items, lib, path) <==>
      exists p :: p in items && items[p].libraryId == lib && items[p].present && items[p].relPath == r && path + "/" <= r
    {
      RowUnder(items, lib, path, r);
    }
    if f in FoldersUnder(items, lib, path) {
      FolderUnderIsSegment(items, lib, path, f);
    }
  }

  /** A name listed with the escaped pattern is a segment of some row below the folder. */
  lemma FolderUnderIsSegment(items: map<string, MediaItem>, lib: int, path: string, f: string)
    requires f in FoldersUnder(items, lib, path)
    ensures '/' !in f && exists r :: r in RowsUnder(items, lib, path) && path + "/" + f + "/" <= r
  {
    var prefix := path + "/";
    var r :| r in RowsUnder(items, lib, path) && FolderOf(r, prefix).Some? && FolderOf(r, prefix).value == f;
    RowUnder(items, lib, path, r);
    FolderNameIsSegment([r], prefix, f);
  }

  /** One rel-path is matched by the escaped pattern exactly when it lies below the folder. */
  lemma RowUnder(items: map<string, MediaItem>, lib: int, path: string, r: string)
    ensures r in RowsUnder(items, lib, path) <==>
      exists p :: p in items && items[p].libraryId == lib && items[p].present && items[p].relPath == r && path + "/" <= r
  {
    LikeEscapedPrefix(r, path + "/");
  }
}
