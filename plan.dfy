/**
 * Building the staging plan for one input directory (src/main.rs, lines
 * 73-131): keep the listed files whose index the selection names, sort them
 * again, number them from 1 and insert one row per file, deriving each new
 * path from the output root, the show name, the season, the episode number and
 * the file's extension.
 */
module Plan {
  import opened Wrappers
  import opened Strings
  import opened Sorting
  import opened Paths
  import opened Validate
  import opened Database
  import opened Files

  // ---------------------------------------------------------- selection filter

  /** The listing indices below `n` that occur in `fileNumbers`, ascending and each once. */
  function ListedIndices(n: nat, fileNumbers: seq<nat>): (idx: seq<nat>)
    ensures forall k :: 0 <= k < |idx| ==> idx[k] < n && idx[k] in fileNumbers
    ensures forall k, l :: 0 <= k < l < |idx| ==> idx[k] < idx[l]
    ensures forall i :: 0 <= i < n && i in fileNumbers ==> i in idx
  {
    if n == 0 then []
    else ListedIndices(n - 1, fileNumbers) + (if n - 1 in fileNumbers then [n - 1] else [])
  }

  /** The listed files whose index occurs in `fileNumbers`, in listing order. */
  function Picked(files: seq<DirEntry>, fileNumbers: seq<nat>): (selected: seq<DirEntry>)
    ensures |selected| <= |files|
  {
    if files == [] then []
    else Picked(files[..|files| - 1], fileNumbers) +
         (if |files| - 1 in fileNumbers then [files[|files| - 1]] else [])
  }

  /** Lines 74-79: the loop over the enumerated listing that keeps the selected files. */
  method SelectFiles(files: seq<DirEntry>, fileNumbers: seq<nat>) returns (selected: seq<DirEntry>)
    ensures selected == Picked(files, fileNumbers)
  {
    selected := [];
    for index := 0 to |files|
      invariant selected == Picked(files[..index], fileNumbers)
    {
      assert files[..index + 1][..index] == files[..index];
      if index in fileNumbers {
        selected := selected + [files[index]];
      }
    }
    assert files[..|files|] == files;
  }

  /**
   * The selection is the listing at the selected indices, in ascending index
   * order, each index once however often the selection repeats it.
   */
  lemma {:induction false} PickedAreListed(files: seq<DirEntry>, fileNumbers: seq<nat>)
    ensures var idx := ListedIndices(|files|, fileNumbers);
      |Picked(files, fileNumbers)| == |idx| &&
      forall k :: 0 <= k < |idx| ==> Picked(files, fileNumbers)[k] == files[idx[k]]
  {
    if files != [] {
      var n := |files| - 1;
      var init := files[..n];
      PickedAreListed(init, fileNumbers);
      var idx0 := ListedIndices(n, fileNumbers);
      forall k | 0 <= k < |idx0| ensures init[idx0[k]] == files[idx0[k]] {
      }
    }
  }

  /** A selection from a sorted listing is sorted. */
  lemma PickedKeepsOrder(files: seq<DirEntry>, fileNumbers: seq<nat>, le: (DirEntry, DirEntry) -> bool)
    requires Sorted(files, le)
    ensures Sorted(Picked(files, fileNumbers), le)
  {
    PickedAreListed(files, fileNumbers);
    var idx := ListedIndices(|files|, fileNumbers);
    var p := Picked(files, fileNumbers);
    forall k, l | 0 <= k < l < |p| ensures le(p[k], p[l]) {
      assert idx[k] < idx[l];
    }
  }

  /**
   * Lines 80-85 sort the selection by the same comparison `get_files` used,
   * so the selection taken from a `get_files` listing comes back unchanged.
   */
  lemma ResortKeepsSelection(items: seq<ReadItem>, natord: (string, string) -> bool, fileNumbers: seq<nat>)
    requires TypesKnown(items) && TotalPreorder(natord)
    ensures var picked := Picked(GetFiles(items, natord), fileNumbers);
      SortBy(picked, ByLoweredName(natord)) == picked
  {
    GetFilesSorted(items, natord);
    PickedKeepsOrder(GetFiles(items, natord), fileNumbers, ByLoweredName(natord));
    SortBySortedIsIdentity(Picked(GetFiles(items, natord), fileNumbers), ByLoweredName(natord));
  }

  // ---------------------------------------------------------------- new paths

  /** The last piece of the file name split on `.`. */
  function Extension(fileName: string): (ext: string)
    ensures '.' !in ext
  {
    var pieces := Split(fileName, '.');
    SplitPiecesLackSep(fileName, '.');
    assert pieces[|pieces| - 1] in pieces;
    LastOf(pieces)
  }

  /** The last element of a non-empty list of pieces. */
  function LastOf(pieces: seq<string>): string
    requires |pieces| >= 1
  {
    pieces[|pieces| - 1]
  }

  ghost predicate IsSuffix(t: string, s: string)
  {
    |t| <= |s| && t == s[|s| - |t|..]
  }

  lemma {:induction false} SplitLastIsSuffix(s: string, sep: char)
    ensures IsSuffix(LastOf(Split(s, sep)), s)
    decreases |s|
  {
    var k := IndexOf(s, sep);
    if k < |s| {
      var rest := s[k + 1..];
      SplitLastIsSuffix(rest, sep);
      SplitLastOfRest(s, sep);
      SuffixOfDrop(s, k + 1, LastOf(Split(rest, sep)));
    }
  }

  lemma SplitLastOfRest(s: string, sep: char)
    requires IndexOf(s, sep) < |s|
    ensures LastOf(Split(s, sep)) == LastOf(Split(s[IndexOf(s, sep) + 1..], sep))
  {
    var k := IndexOf(s, sep);
    var rest := Split(s[k + 1..], sep);
    SplitAt(s, sep);
    LastOfCons(s[..k], rest);
  }

  lemma LastOfCons(x: string, xs: seq<string>)
    requires |xs| >= 1
    ensures LastOf([x] + xs) == LastOf(xs)
  {
  }

  /** A suffix of `s[d..]` is a suffix of `s`. */
  lemma SuffixOfDrop(s: string, d: nat, t: string)
    requires d <= |s| && IsSuffix(t, s[d..])
    ensures IsSuffix(t, s)
  {
  }

  lemma {:induction false} SplitAfterLastSep(a: string, sep: char, b: string)
    requires sep !in b
    ensures LastOf(Split(a + [sep] + b, sep)) == b
    decreases |a|
  {
    var s := a + [sep] + b;
    var k := IndexOf(s, sep);
    assert s[|a|] == sep;
    if k == |a| {
      assert s[k + 1..] == b;
      IndexOfAbsent(b, sep);
    } else {
      assert s[k + 1..] == a[k + 1..] + [sep] + b;
      SplitAfterLastSep(a[k + 1..], sep, b);
    }
  }

  /** The extension is a suffix of the file name. */
  lemma ExtensionIsSuffix(fileName: string)
    ensures IsSuffix(Extension(fileName), fileName)
  {
    SplitLastIsSuffix(fileName, '.');
  }

  /** A name without `.` is its own extension. */
  lemma ExtensionOfPlainName(fileName: string)
    requires '.' !in fileName
    ensures Extension(fileName) == fileName
  {
    IndexOfAbsent(fileName, '.');
  }

  /** Otherwise the extension is what follows the last `.`; after a trailing `.` it is empty. */
  lemma ExtensionAfterLastDot(fileName: string, p: nat)
    requires p < |fileName| && fileName[p] == '.'
    requires forall q :: p < q < |fileName| ==> fileName[q] != '.'
    ensures Extension(fileName) == fileName[p + 1..]
    ensures p == |fileName| - 1 ==> Extension(fileName) == ""
  {
    var b := fileName[p + 1..];
    assert fileName == fileName[..p] + ['.'] + b;
    SplitAfterLastSep(fileName[..p], '.', b);
  }

  /** `name + " S" + season + "E" + episode + "." + ext`. */
  function EpisodeFileName(name: string, season: nat, episode: nat, ext: string): string
  {
    name + " S" + Decimal(season) + "E" + Decimal(episode) + "." + ext
  }

  /** The new path of the file at (0-based) position `index` of the sorted selection. */
  function NewPath(out: Path, name: string, season: nat, index: nat, fileName: string): Path
  {
    Paths.Join(SeasonDir(out, name, season), EpisodeFileName(name, season, index + 1, Extension(fileName)))
  }

  lemma DigitsBeforeDot(d1: string, x1: string, d2: string, x2: string)
    requires AllDigits(d1) && AllDigits(d2)
    requires d1 + "." + x1 == d2 + "." + x2
    ensures d1 == d2
  {
    assert '.' !in d1 && '.' !in d2 by {
      assert forall k :: 0 <= k < |d1| ==> IsDigit(d1[k]);
      assert forall k :: 0 <= k < |d2| ==> IsDigit(d2[k]);
    }
    IndexOfPrefix(d1, '.', x1);
    IndexOfPrefix(d2, '.', x2);
    var s := d1 + "." + x1;
    assert d1 == s[..|d1|];
    assert d2 == (d2 + "." + x2)[..|d2|];
  }

  lemma JoinSameDir(d: Path, c1: string, c2: string)
    requires |c1| > 0 && c1[0] != '/' && |c2| > 0 && c2[0] != '/'
    requires Paths.Join(d, c1) == Paths.Join(d, c2)
    ensures c1 == c2
  {
    var j1, j2 := Paths.Join(d, c1), Paths.Join(d, c2);
    if d == [] || d[|d| - 1] == '/' {
      assert c1 == j1[|d|..] && c2 == j2[|d|..];
    } else {
      assert c1 == j1[|d| + 1..] && c2 == j2[|d| + 1..];
    }
  }

  lemma EpisodeFileNameStartsPlain(name: string, season: nat, episode: nat, ext: string)
    requires '/' !in name
    ensures var c := EpisodeFileName(name, season, episode, ext); |c| > 0 && c[0] != '/'
  {
    var c := EpisodeFileName(name, season, episode, ext);
    if name == [] {
      assert c[0] == ' ';
    } else {
      assert c[0] == name[0];
    }
  }

  /** Two episode file names of one show and season with different episode numbers differ. */
  lemma EpisodeFileNamesDiffer(name: string, season: nat, m: nat, n: nat, e1: string, e2: string)
    requires EpisodeFileName(name, season, m, e1) == EpisodeFileName(name, season, n, e2)
    ensures m == n
  {
    var head := name + " S" + Decimal(season) + "E";
    var c1 := EpisodeFileName(name, season, m, e1);
    var c2 := EpisodeFileName(name, season, n, e2);
    assert c1 == head + (Decimal(m) + "." + e1);
    assert c2 == head + (Decimal(n) + "." + e2);
    assert Decimal(m) + "." + e1 == c1[|head|..];
    assert Decimal(n) + "." + e2 == c2[|head|..];
    DigitsBeforeDot(Decimal(m), e1, Decimal(n), e2);
    DecimalInjective(m, n);
  }

  /**
   * Within one batch the new paths differ, whatever the files' extensions,
   * because the episode numbers differ.
   */
  lemma NewPathsDiffer(out: Path, name: string, season: nat, i: nat, j: nat, f1: string, f2: string)
    requires '/' !in name
    requires i != j
    ensures NewPath(out, name, season, i, f1) != NewPath(out, name, season, j, f2)
  {
    var dir := SeasonDir(out, name, season);
    var c1 := EpisodeFileName(name, season, i + 1, Extension(f1));
    var c2 := EpisodeFileName(name, season, j + 1, Extension(f2));
    assert NewPath(out, name, season, i, f1) == Paths.Join(dir, c1);
    assert NewPath(out, name, season, j, f2) == Paths.Join(dir, c2);
    if Paths.Join(dir, c1) == Paths.Join(dir, c2) {
      EpisodeFileNameStartsPlain(name, season, i + 1, Extension(f1));
      EpisodeFileNameStartsPlain(name, season, j + 1, Extension(f2));
      JoinSameDir(dir, c1, c2);
      EpisodeFileNamesDiffer(name, season, i + 1, j + 1, Extension(f1), Extension(f2));
    }
  }

  lemma DecimalLacksSlash(n: nat)
    ensures '/' !in Decimal(n)
  {
    var digits := Decimal(n);
    assert forall k :: 0 <= k < |digits| ==> IsDigit(digits[k]);
  }

  lemma ExtensionLacksSlash(fileName: string)
    requires '/' !in fileName
    ensures '/' !in Extension(fileName)
  {
    var ext := Extension(fileName);
    ExtensionIsSuffix(fileName);
    forall k | 0 <= k < |ext| ensures ext[k] != '/' {
      assert ext[k] == fileName[|fileName| - |ext| + k];
    }
  }

  lemma EpisodeFileNameLacksSlash(name: string, season: nat, episode: nat, ext: string)
    requires '/' !in name && '/' !in ext
    ensures var c := EpisodeFileName(name, season, episode, ext); c != [] && '/' !in c
  {
    DecimalLacksSlash(season);
    DecimalLacksSlash(episode);
  }

  /** A season directory does not end in `/`: it ends in the last digit of the season. */
  lemma SeasonDirEndsInDigit(out: Path, name: string, season: nat)
    ensures var d := SeasonDir(out, name, season); d != [] && d[|d| - 1] != '/'
  {
    var seasonLabel := "Season " + Decimal(season);
    DecimalLacksSlash(season);
    assert seasonLabel[0] == 'S' && seasonLabel[|seasonLabel| - 1] != '/';
    JoinEndsWith(Paths.Join(out, name), seasonLabel);
  }

  lemma JoinEndsWith(p: Path, c: string)
    requires c != [] && c[0] != '/'
    ensures var r := Paths.Join(p, c); r != [] && r[|r| - 1] == c[|c| - 1]
  {
  }

  /**
   * The new path of a staged file lies directly in its season directory, the
   * directory `move_files` creates before the copy.
   */
  lemma NewPathInSeasonDir(out: Path, name: string, season: nat, index: nat, fileName: string)
    requires '/' !in name && '/' !in fileName
    ensures Parent(NewPath(out, name, season, index, fileName)) == SeasonDir(out, name, season)
  {
    ExtensionLacksSlash(fileName);
    EpisodeFileNameLacksSlash(name, season, index + 1, Extension(fileName));
    SeasonDirEndsInDigit(out, name, season);
    ParentOfJoin(SeasonDir(out, name, season), EpisodeFileName(name, season, index + 1, Extension(fileName)));
  }

  // ------------------------------------------------------------------ the rows

  /** The row staged for the file at (0-based) position `index` of the sorted selection. */
  function PlanRow(out: Path, name: string, season: nat, index: nat, file: DirEntry): Episode
  {
    Episode(name, season, index + 1, file.path, NewPath(out, name, season, index, file.fileName))
  }

  /** The row staged for each file of the sorted selection, episode numbers counting from 1. */
  function PlanRows(out: Path, name: string, season: nat, files: seq<DirEntry>): (rows: seq<Episode>)
    ensures |rows| == |files|
  {
    seq(|files|, k requires 0 <= k < |files| => PlanRow(out, name, season, k, files[k]))
  }

  predicate HasEpisode(rows: seq<Episode>, e: int)
  {
    exists r :: r in rows && r.episode == e
  }

  /**
   * Every row of a batch carries the show name, the season and the file's own
   * path; the file at position `k` of the sorted selection is episode `k + 1`,
   * so the episode numbers are exactly 1 to the number of files.
   */
  lemma PlanNumbering(out: Path, name: string, season: nat, files: seq<DirEntry>)
    ensures var rows := PlanRows(out, name, season, files);
      (forall k :: 0 <= k < |rows| ==>
        rows[k].seriesName == name && rows[k].season == season && rows[k].oldPath == files[k].path &&
        rows[k].episode == k + 1) &&
      (forall e :: HasEpisode(rows, e) <==> 1 <= e <= |files|)
  {
    var rows := PlanRows(out, name, season, files);
    forall e ensures HasEpisode(rows, e) <==> 1 <= e <= |files| {
      if 1 <= e <= |files| {
        assert rows[e - 1] in rows;
      }
    }
  }

  /** No two rows of a batch share a new path. */
  lemma PlanNewPathsDistinct(out: Path, name: string, season: nat, files: seq<DirEntry>)
    requires '/' !in name
    ensures var rows := PlanRows(out, name, season, files);
      forall i, j :: 0 <= i < |rows| && 0 <= j < |rows| && i != j ==> rows[i].newPath != rows[j].newPath
  {
    var rows := PlanRows(out, name, season, files);
    forall i, j | 0 <= i < |rows| && 0 <= j < |rows| && i != j ensures rows[i].newPath != rows[j].newPath {
      NewPathsDiffer(out, name, season, i, j, files[i].fileName, files[j].fileName);
    }
  }

  /** A name `valid_name` accepts has no `/`, so it is one path component. */
  lemma AcceptedNameHasNoSeparator(name: string)
    requires ValidNameDefined(name) && ValidName(name)
    ensures '/' !in name
  {
    if '/' in name {
      var i :| 0 <= i < |name| && name[i] == '/';
      assert ReservedCharAt(name, i);
    }
  }

  // -------------------------------------------------------------- insert loop

  /** The table after inserting a batch, and the position of the insert that failed, if any. */
  datatype Staged = Staged(rows: seq<Episode>, failedAt: Option<nat>)

  /** Inserting the planned rows one by one, stopping at the first that collides. */
  function StageRows(rows: seq<Episode>, plan: seq<Episode>): Staged
  {
    if plan == [] then Staged(rows, None)
    else
      var prev := StageRows(rows, plan[..|plan| - 1]);
      var e := plan[|plan| - 1];
      if prev.failedAt.Some? then prev
      else if Collides(prev.rows, e.oldPath, e.newPath) then Staged(prev.rows, Some(|plan| - 1))
      else Staged(prev.rows + [e], None)
  }

  /**
   * A batch inserts its rows in order up to the first one whose old or new
   * path is already taken; the rows before it stay, with nothing rolled back.
   */
  lemma {:induction false} StageRowsKeepsEarlier(rows: seq<Episode>, plan: seq<Episode>)
    ensures var s := StageRows(rows, plan);
      var k := if s.failedAt.Some? then s.failedAt.value else |plan|;
      k <= |plan| && s.rows == rows + plan[..k] &&
      (forall j :: 0 <= j < k ==> !Collides(rows + plan[..j], plan[j].oldPath, plan[j].newPath)) &&
      (s.failedAt.Some? ==> k < |plan| && Collides(rows + plan[..k], plan[k].oldPath, plan[k].newPath))
  {
    if plan != [] {
      var n := |plan| - 1;
      var init := plan[..n];
      StageRowsKeepsEarlier(rows, init);
      var prev := StageRows(rows, init);
      var k0 := if prev.failedAt.Some? then prev.failedAt.value else n;
      assert forall j :: 0 <= j <= k0 ==> init[..j] == plan[..j];
      assert forall j :: 0 <= j < k0 ==> init[j] == plan[j];
      if prev.failedAt.None? {
        assert plan[..n + 1] == init + [plan[n]];
      }
    }
  }

  lemma {:induction false} StageRowsFailurePersists(rows: seq<Episode>, plan: seq<Episode>, m: nat)
    requires m <= |plan|
    requires StageRows(rows, plan[..m]).failedAt.Some?
    ensures StageRows(rows, plan) == StageRows(rows, plan[..m])
    decreases |plan|
  {
    if m < |plan| {
      var init := plan[..|plan| - 1];
      assert init[..m] == plan[..m];
      StageRowsFailurePersists(rows, init, m);
    } else {
      assert plan[..m] == plan;
    }
  }

  lemma StageStep(rows: seq<Episode>, plan: seq<Episode>, i: nat, now: seq<Episode>)
    requires i < |plan| && StageRows(rows, plan[..i]) == Staged(now, None)
    ensures var e := plan[i];
      StageRows(rows, plan[..i + 1]) ==
        if Collides(now, e.oldPath, e.newPath) then Staged(now, Some(i)) else Staged(now + [e], None)
  {
    assert plan[..i + 1][..i] == plan[..i];
  }

  /** Lines 102-131: one `insert_episode` per file of the sorted selection; `?` ends the batch at the first error. */
  method StageBatch(store: Store, out: Path, name: string, season: nat, files: seq<DirEntry>)
    returns (r: Result<(), DbError>)
    requires store.Valid()
    requires season <= U32_MAX && |files| <= U32_MAX
    modifies store
    ensures store.Valid()
    ensures var s := StageRows(old(store.rows), PlanRows(out, name, season, files));
      store.rows == s.rows && (r.Ok? <==> s.failedAt.None?)
  {
    ghost var plan := PlanRows(out, name, season, files);
    ghost var rows0 := store.rows;
    for index := 0 to |files|
      invariant store.Valid()
      invariant StageRows(rows0, plan[..index]) == Staged(store.rows, None)
    {
      var row := PlanRow(out, name, season, index, files[index]);
      assert plan[index] == row;
      StageStep(rows0, plan, index, store.rows);
      r := store.InsertEpisode(row.seriesName, row.season, row.episode, row.oldPath, row.newPath);
      if r.Err? {
        StageRowsFailurePersists(rows0, plan, index + 1);
        return;
      }
    }
    assert plan[..|files|] == plan;
    r := Ok(());
  }

  // ------------------------------------------------------- one input directory

  datatype PlanError = RangeError(ParseError) | InsertError(DbError)

  /** The selection of files that the batch for `selection` stages, sorted again. */
  function Chosen(files: seq<DirEntry>, natord: (string, string) -> bool, fileNumbers: seq<nat>): seq<DirEntry>
  {
    SortBy(Picked(files, fileNumbers), ByLoweredName(natord))
  }

  /**
   * Lines 67-131 for one input directory, after the prompts: the name is one
   * `valid_name` accepted (the prompt repeats until it does), `selection` and
   * `season` are the answers read.
   */
  method StageDirectory(store: Store, out: Path, name: string, items: seq<ReadItem>,
                        natord: (string, string) -> bool, selection: string, season: nat)
    returns (r: Result<(), PlanError>)
    requires ValidNameDefined(name) && ValidName(name)
    requires TypesKnown(items) && CommaListsFit(|RegularFiles(items)|, selection)
    requires season <= U32_MAX && |RegularFiles(items)| <= U32_MAX
    requires store.Valid()
    modifies store
    ensures store.Valid()
    ensures var files := GetFiles(items, natord);
      match Selection(|files|, selection)
      case Err(e) => r == Err(RangeError(e)) && store.rows == old(store.rows)
      case Ok(nums) =>
        var s := StageRows(old(store.rows), PlanRows(out, name, season, Chosen(files, natord, nums)));
        store.rows == s.rows && (r.Ok? <==> s.failedAt.None?)
  {
    var files := GetFiles(items, natord);
    SortByPermutation(RegularFiles(items), ByLoweredName(natord));
    assert |files| == |RegularFiles(items)| by {
      assert |multiset(files)| == |multiset(RegularFiles(items))|;
    }
    var parsed := ParseRange(|files|, selection);
    if parsed.Err? {
      return Err(RangeError(parsed.error));
    }
    var selected := SelectFiles(files, parsed.value);
    selected := SortBy(selected, ByLoweredName(natord));
    SortByPermutation(Picked(files, parsed.value), ByLoweredName(natord));
    assert |selected| <= |files| by {
      assert |multiset(selected)| == |multiset(Picked(files, parsed.value))|;
    }
    var staged := StageBatch(store, out, name, season, selected);
    if staged.Err? {
      return Err(InsertError(staged.error));
    }
    r := Ok(());
  }
}
