/**
 * Listing an input directory and committing the staged plan (src/files.rs).
 * The host filesystem is a map from file paths to contents plus a set of
 * directories; `allowed` says which operations the environment lets succeed
 * (permissions, free space, devices), so every step can also fail from outside.
 */
module Files {
  import opened Wrappers
  import opened Strings
  import opened Sorting
  import opened Paths
  import opened Database

  // ---------------------------------------------------------------- get_files

  datatype FileType = RegularFile | Directory | SymbolicLink

  /** A `DirEntry`: its file name, its full path and its type (`None` when `file_type()` fails). */
  datatype DirEntry = DirEntry(fileName: string, path: Path, fileType: Option<FileType>)

  /** One item produced by `read_dir`: an entry, or an error reading it. */
  datatype ReadItem = Entry(entry: DirEntry) | Unreadable

  /** `file_type().unwrap()` succeeds on every readable entry. */
  predicate TypesKnown(items: seq<ReadItem>)
  {
    forall i :: 0 <= i < |items| && items[i].Entry? ==> items[i].entry.fileType.Some?
  }

  /** The readable entries that are regular files, in listing order. */
  function RegularFiles(items: seq<ReadItem>): seq<DirEntry>
    requires TypesKnown(items)
  {
    if items == [] then []
    else
      var last := items[|items| - 1];
      RegularFiles(items[..|items| - 1]) +
        (if last.Entry? && last.entry.fileType == Some(RegularFile) then [last.entry] else [])
  }

  /** Comparing entries by `natord` on their ASCII-lower-cased names. */
  function ByLoweredName(natord: (string, string) -> bool): (DirEntry, DirEntry) -> bool
  {
    (a: DirEntry, b: DirEntry) => natord(AsciiLower(a.fileName), AsciiLower(b.fileName))
  }

  /** `get_files` on the items `read_dir` produced. */
  function GetFiles(items: seq<ReadItem>, natord: (string, string) -> bool): seq<DirEntry>
    requires TypesKnown(items)
  {
    SortBy(RegularFiles(items), ByLoweredName(natord))
  }

  lemma {:induction false} RegularFilesCounts(items: seq<ReadItem>)
    requires TypesKnown(items)
    ensures forall e ::
      multiset(RegularFiles(items))[e] == if e.fileType == Some(RegularFile) then multiset(items)[Entry(e)] else 0
  {
    if items != [] {
      var init, last := items[..|items| - 1], items[|items| - 1];
      RegularFilesCounts(init);
      assert items == init + [last];
      var kept := if last.Entry? && last.entry.fileType == Some(RegularFile) then [last.entry] else [];
      assert RegularFiles(items) == RegularFiles(init) + kept;
      assert multiset(items) == multiset(init) + multiset{last};
      assert multiset(RegularFiles(items)) == multiset(RegularFiles(init)) + multiset(kept);
    }
  }

  /**
   * `get_files` keeps exactly the readable regular-file entries, each as often
   * as it was listed.
   */
  lemma GetFilesContents(items: seq<ReadItem>, natord: (string, string) -> bool)
    requires TypesKnown(items)
    ensures forall e ::
      multiset(GetFiles(items, natord))[e] == if e.fileType == Some(RegularFile) then multiset(items)[Entry(e)] else 0
    ensures forall e :: e in GetFiles(items, natord) <==> Entry(e) in items && e.fileType == Some(RegularFile)
  {
    SortByPermutation(RegularFiles(items), ByLoweredName(natord));
    RegularFilesCounts(items);
    forall e ensures e in GetFiles(items, natord) <==> Entry(e) in items && e.fileType == Some(RegularFile) {
      assert e in GetFiles(items, natord) <==> e in multiset(GetFiles(items, natord));
      assert Entry(e) in items <==> Entry(e) in multiset(items);
    }
  }

  lemma LoweredNameOrder(natord: (string, string) -> bool)
    requires TotalPreorder(natord)
    ensures TotalPreorder(ByLoweredName(natord))
  {
    var le := ByLoweredName(natord);
    forall a: DirEntry, b: DirEntry ensures le(a, b) || le(b, a) {
      assert natord(AsciiLower(a.fileName), AsciiLower(b.fileName)) || natord(AsciiLower(b.fileName), AsciiLower(a.fileName));
    }
    forall a: DirEntry, b: DirEntry, c: DirEntry | le(a, b) && le(b, c) ensures le(a, c) {
      var x, y, z := AsciiLower(a.fileName), AsciiLower(b.fileName), AsciiLower(c.fileName);
      assert natord(x, y) && natord(y, z);
    }
  }

  /** `get_files` returns its entries in `natord` order of their lower-cased names. */
  lemma GetFilesSorted(items: seq<ReadItem>, natord: (string, string) -> bool)
    requires TypesKnown(items)
    requires TotalPreorder(natord)
    ensures Sorted(GetFiles(items, natord), ByLoweredName(natord))
  {
    LoweredNameOrder(natord);
    SortBySorted(RegularFiles(items), ByLoweredName(natord));
  }

  // --------------------------------------------------------------- filesystem

  type Bytes = seq<bv8>

  datatype Fs = Fs(files: map<Path, Bytes>, dirs: set<Path>)

  /** The operations `move_files` performs, as the environment sees them. */
  datatype FsOp = CreateDirAll(dir: Path) | Copy(from: Path, to: Path) | RemoveFile(file: Path)

  /** The step of an entry that failed. */
  datatype Stage = MakeDirStage | CopyStage | RemoveStage

  /**
   * `create_dir_all(dir)`: nothing to do when `dir` is already a directory;
   * otherwise it fails when some directory on the way is an existing file or
   * the environment refuses, and else makes `dir` and each ancestor a directory.
   */
  function CreateDirAllStep(fs: Fs, dir: Path, allowed: FsOp -> bool): (r: Option<Fs>)
    ensures dir in fs.dirs ==> r == Some(fs)
    ensures r.Some? ==> r.value.files == fs.files && fs.dirs <= r.value.dirs && (dir == [] || dir in r.value.dirs)
  {
    if dir == [] || dir in fs.dirs then Some(fs)
    else if !allowed(CreateDirAll(dir)) || exists d :: d in DirChain(dir) && d in fs.files then None
    else
      DirChainHasPath(dir);
      Some(Fs(fs.files, fs.dirs + DirChain(dir)))
  }

  /** The files after `copy(from, to)` succeeded. */
  function Copied(files: map<Path, Bytes>, from: Path, to: Path): map<Path, Bytes>
    requires from in files
  {
    files[to := if from == to then [] else files[from]]
  }

  /**
   * `copy(from, to)` on Unix: the source must be a file, the target must not
   * be a directory and its parent must exist. The target is truncated before
   * the source is read, so copying a file onto itself empties it.
   */
  function CopyStep(fs: Fs, from: Path, to: Path, allowed: FsOp -> bool): (r: Option<Fs>)
    ensures r.Some? ==> from in fs.files && r.value.dirs == fs.dirs
    ensures r.Some? && from != to ==> r.value.files == fs.files[to := fs.files[from]]
  {
    if from !in fs.files || to in fs.dirs || !(Parent(to) == [] || Parent(to) in fs.dirs) || !allowed(Copy(from, to)) then None
    else Some(Fs(Copied(fs.files, from, to), fs.dirs))
  }

  /** `remove_file(p)`: `p` must be a file. */
  function RemoveStep(fs: Fs, p: Path, allowed: FsOp -> bool): (r: Option<Fs>)
    ensures r.Some? ==> p in fs.files && r.value == Fs(fs.files - {p}, fs.dirs)
  {
    if p !in fs.files || !allowed(RemoveFile(p)) then None
    else Some(Fs(fs.files - {p}, fs.dirs))
  }

  /**
   * `copy` succeeds exactly when the source is a file, the target is not a
   * directory, the target's parent exists and the environment allows it.
   * It then writes the target alone: every other path keeps its file and its
   * bytes, and the directories stay as they were.
   */
  lemma CopyStepSpec(fs: Fs, from: Path, to: Path, allowed: FsOp -> bool)
    ensures CopyStep(fs, from, to, allowed).Some? <==>
      from in fs.files && to !in fs.dirs && (Parent(to) == [] || Parent(to) in fs.dirs) && allowed(Copy(from, to))
    ensures var r := CopyStep(fs, from, to, allowed);
      r.Some? ==>
        r.value.dirs == fs.dirs && to in r.value.files &&
        r.value.files[to] == (if from == to then [] else fs.files[from]) &&
        (forall p :: p != to ==> (p in r.value.files <==> p in fs.files)) &&
        (forall p :: p != to && p in fs.files ==> r.value.files[p] == fs.files[p])
  {
  }

  /**
   * `remove_file` succeeds exactly when the path is a file and the environment
   * allows it; it then deletes that file alone, and removing it again fails.
   */
  lemma RemoveStepSpec(fs: Fs, p: Path, allowed: FsOp -> bool)
    ensures RemoveStep(fs, p, allowed).Some? <==> p in fs.files && allowed(RemoveFile(p))
    ensures var r := RemoveStep(fs, p, allowed);
      r.Some? ==>
        r.value.dirs == fs.dirs && p !in r.value.files &&
        (forall q :: q != p ==> (q in r.value.files <==> q in fs.files)) &&
        (forall q :: q != p && q in fs.files ==> r.value.files[q] == fs.files[q]) &&
        RemoveStep(r.value, p, allowed).None?
  {
  }

  /**
   * A copy followed by the removal of its source, as `move_files` does, is a
   * rename: the bytes leave `from` for `to` and nothing else changes.
   */
  lemma CopyThenRemoveIsMove(fs: Fs, from: Path, to: Path, allowed: FsOp -> bool)
    requires from != to
    requires CopyStep(fs, from, to, allowed).Some?
    requires RemoveStep(CopyStep(fs, from, to, allowed).value, from, allowed).Some?
    ensures var r := RemoveStep(CopyStep(fs, from, to, allowed).value, from, allowed).value;
      from in fs.files && r.files == (fs.files - {from})[to := fs.files[from]] && r.dirs == fs.dirs
  {
    var c := CopyStep(fs, from, to, allowed).value;
    var r := RemoveStep(c, from, allowed).value;
    assert r.files == (fs.files - {from})[to := fs.files[from]];
  }

  /** The host filesystem, changed in place by the three operations. */
  class FileSystem {
    var files: map<Path, Bytes>
    var dirs: set<Path>

    function State(): Fs
      reads this
    {
      Fs(files, dirs)
    }

    method CreateDirAllIn(dir: Path, allowed: FsOp -> bool) returns (ok: bool)
      modifies this
      ensures ok == CreateDirAllStep(old(State()), dir, allowed).Some?
      ensures State() == if ok then CreateDirAllStep(old(State()), dir, allowed).value else old(State())
    {
      if dir == [] || dir in dirs {
        return true;
      }
      if !allowed(CreateDirAll(dir)) || exists d :: d in DirChain(dir) && d in files {
        return false;
      }
      dirs := dirs + DirChain(dir);
      ok := true;
    }

    method CopyIn(from: Path, to: Path, allowed: FsOp -> bool) returns (ok: bool)
      modifies this
      ensures ok == CopyStep(old(State()), from, to, allowed).Some?
      ensures State() == if ok then CopyStep(old(State()), from, to, allowed).value else old(State())
    {
      if from !in files || to in dirs || !(Parent(to) == [] || Parent(to) in dirs) || !allowed(Copy(from, to)) {
        return false;
      }
      files := Copied(files, from, to);
      ok := true;
    }

    method RemoveFileIn(p: Path, allowed: FsOp -> bool) returns (ok: bool)
      modifies this
      ensures ok == RemoveStep(old(State()), p, allowed).Some?
      ensures State() == if ok then RemoveStep(old(State()), p, allowed).value else old(State())
    {
      if p !in files || !allowed(RemoveFile(p)) {
        return false;
      }
      files := files - {p};
      ok := true;
    }
  }

  // --------------------------------------------------------------- move_files

  /** `output/series_name/"Season N"`. */
  function SeasonDir(out: Path, seriesName: string, season: nat): (d: Path)
    ensures d != []
  {
    Paths.Join(Paths.Join(out, seriesName), "Season " + Decimal(season))
  }

  /** The filesystem after one entry's steps, and the step that failed, if any. */
  datatype EntryResult = EntryResult(fs: Fs, failed: Option<Stage>)

  /** One iteration of the inner loop: make the season directory, copy, remove the source. */
  function CommitEntry(fs: Fs, out: Path, e: Episode, allowed: FsOp -> bool): EntryResult
  {
    match CreateDirAllStep(fs, SeasonDir(out, e.seriesName, e.season), allowed)
    case None => EntryResult(fs, Some(MakeDirStage))
    case Some(fs1) =>
      match CopyStep(fs1, e.oldPath, e.newPath, allowed)
      case None => EntryResult(fs1, Some(CopyStage))
      case Some(fs2) =>
        match RemoveStep(fs2, e.oldPath, allowed)
        case None => EntryResult(fs2, Some(RemoveStage))
        case Some(fs3) => EntryResult(fs3, None)
  }

  /** A commit over a list of entries ends with all of them done, or at the first failing step. */
  datatype Outcome = Completed(fs: Fs) | Failed(fs: Fs, index: nat, stage: Stage)

  function Run(fs: Fs, out: Path, es: seq<Episode>, allowed: FsOp -> bool): Outcome
  {
    if es == [] then Completed(fs)
    else
      match Run(fs, out, es[..|es| - 1], allowed)
      case Failed(f, k, st) => Failed(f, k, st)
      case Completed(f) =>
        var r := CommitEntry(f, out, es[|es| - 1], allowed);
        if r.failed.Some? then Failed(r.fs, |es| - 1, r.failed.value) else Completed(r.fs)
  }

  /** The entries in the order `move_files` visits them: show by show, each show's episodes in query order. */
  function Schedule(rows: seq<Episode>, shows: seq<string>): seq<Episode>
  {
    if shows == [] then []
    else Schedule(rows, shows[..|shows| - 1]) + EpisodesOf(rows, shows[|shows| - 1])
  }

  /**
   * `move_files`: the shows come from `select_all_shows`, whose order is not
   * fixed, so the order taken is returned as `shows`.
   */
  method MoveFiles(store: Store, fs: FileSystem, out: Path, allowed: FsOp -> bool)
    returns (r: Result<(), Stage>, ghost shows: seq<string>)
    modifies fs
    ensures IsShowList(store.rows, shows)
    ensures var o := Run(old(fs.State()), out, Schedule(store.rows, shows), allowed);
      fs.State() == o.fs && r == if o.Completed? then Ok(()) else Err(o.stage)
  {
    var names := store.SelectAllShows();
    shows := names;
    ghost var fs0 := fs.State();
    ghost var all := Schedule(store.rows, names);
    for i := 0 to |names|
      invariant Run(fs0, out, Schedule(store.rows, names[..i]), allowed) == Completed(fs.State())
    {
      var episodes := EpisodesOf(store.rows, names[i]);
      ghost var done := Schedule(store.rows, names[..i]);
      ScheduleStep(store.rows, names, i);
      SchedulePrefix(store.rows, names, i + 1);
      var failed := CommitShow(fs, out, episodes, allowed, fs0, done);
      if failed.Some? {
        RunFailurePersists(fs0, out, all, done + episodes, allowed);
        return Err(failed.value), shows;
      }
    }
    assert names[..|names|] == names;
    r := Ok(());
  }

  /** The inner loop of `move_files`: one show's episodes, stopping at the first failing step. */
  method CommitShow(fs: FileSystem, out: Path, episodes: seq<Episode>, allowed: FsOp -> bool,
                    ghost fs0: Fs, ghost done: seq<Episode>)
    returns (failed: Option<Stage>)
    requires Run(fs0, out, done, allowed) == Completed(fs.State())
    modifies fs
    ensures var o := Run(fs0, out, done + episodes, allowed);
      if failed.None? then o == Completed(fs.State())
      else o.Failed? && o.fs == fs.State() && o.stage == failed.value
  {
    assert done + episodes[..0] == done;
    for j := 0 to |episodes|
      invariant Run(fs0, out, done + episodes[..j], allowed) == Completed(fs.State())
    {
      PrefixStep(done, episodes, j);
      failed := CommitOne(fs, out, episodes[j], allowed);
      CommitShowStep(fs0, out, done + episodes[..j], episodes[j], done + episodes, allowed);
      if failed.Some? {
        return;
      }
    }
    assert episodes[..|episodes|] == episodes;
    failed := None;
  }

  /** One turn of the inner loop, as `Run` sees it: `ps` is what ran so far, `e` the next entry of `es`. */
  lemma CommitShowStep(fs0: Fs, out: Path, ps: seq<Episode>, e: Episode, es: seq<Episode>, allowed: FsOp -> bool)
    requires ps + [e] <= es && Run(fs0, out, ps, allowed).Completed?
    ensures var r := CommitEntry(Run(fs0, out, ps, allowed).fs, out, e, allowed);
      if r.failed.None? then Run(fs0, out, ps + [e], allowed) == Completed(r.fs)
      else var o := Run(fs0, out, es, allowed); o.Failed? && o.fs == r.fs && o.stage == r.failed.value
  {
    RunStep(fs0, out, ps, e, Run(fs0, out, ps, allowed).fs, allowed);
    if CommitEntry(Run(fs0, out, ps, allowed).fs, out, e, allowed).failed.Some? {
      RunFailurePersists(fs0, out, es, ps + [e], allowed);
    }
  }

  lemma ScheduleStep(rows: seq<Episode>, shows: seq<string>, i: nat)
    requires i < |shows|
    ensures Schedule(rows, shows[..i + 1]) == Schedule(rows, shows[..i]) + EpisodesOf(rows, shows[i])
  {
    assert shows[..i + 1][..i] == shows[..i];
  }

  lemma PrefixStep(done: seq<Episode>, episodes: seq<Episode>, j: nat)
    requires j < |episodes|
    ensures done + episodes[..j + 1] == (done + episodes[..j]) + [episodes[j]]
    ensures done + episodes[..j + 1] <= done + episodes
  {
    assert episodes[..j + 1] == episodes[..j] + [episodes[j]];
  }

  /** Extending a completed run by one entry. */
  lemma RunStep(fs: Fs, out: Path, ps: seq<Episode>, e: Episode, f: Fs, allowed: FsOp -> bool)
    requires Run(fs, out, ps, allowed) == Completed(f)
    ensures var r := CommitEntry(f, out, e, allowed);
      Run(fs, out, ps + [e], allowed) == if r.failed.Some? then Failed(r.fs, |ps|, r.failed.value) else Completed(r.fs)
  {
    assert (ps + [e])[..|ps|] == ps;
  }

  /** The body of the inner loop: the `?` after each step ends the entry at its first failure. */
  method CommitOne(fs: FileSystem, out: Path, e: Episode, allowed: FsOp -> bool) returns (failed: Option<Stage>)
    modifies fs
    ensures var r := CommitEntry(old(fs.State()), out, e, allowed);
      fs.State() == r.fs && failed == r.failed
  {
    var ok := fs.CreateDirAllIn(SeasonDir(out, e.seriesName, e.season), allowed);
    if !ok {
      return Some(MakeDirStage);
    }
    ok := fs.CopyIn(e.oldPath, e.newPath, allowed);
    if !ok {
      return Some(CopyStage);
    }
    ok := fs.RemoveFileIn(e.oldPath, allowed);
    if !ok {
      return Some(RemoveStage);
    }
    failed := None;
  }

  lemma {:induction false} SchedulePrefix(rows: seq<Episode>, shows: seq<string>, k: nat)
    requires k <= |shows|
    ensures Schedule(rows, shows[..k]) <= Schedule(rows, shows)
    decreases |shows|
  {
    if k < |shows| {
      var init := shows[..|shows| - 1];
      assert init[..k] == shows[..k];
      SchedulePrefix(rows, init, k);
    } else {
      assert shows[..k] == shows;
    }
  }

  /** Once a step fails, no later entry is attempted. */
  lemma {:induction false} RunFailurePersists(fs: Fs, out: Path, es: seq<Episode>, ps: seq<Episode>, allowed: FsOp -> bool)
    requires ps <= es
    requires Run(fs, out, ps, allowed).Failed?
    ensures Run(fs, out, es, allowed) == Run(fs, out, ps, allowed)
    decreases |es|
  {
    if |ps| < |es| {
      assert ps <= es[..|es| - 1];
      RunFailurePersists(fs, out, es[..|es| - 1], ps, allowed);
    } else {
      assert ps == es;
    }
  }

  /**
   * A failed run stopped at entry `index`: every earlier entry was fully
   * committed, with no rollback, and the filesystem is what that entry's
   * steps left up to the step that failed.
   */
  lemma {:induction false} RunFailureIsExact(fs: Fs, out: Path, es: seq<Episode>, allowed: FsOp -> bool)
    requires Run(fs, out, es, allowed).Failed?
    ensures var o := Run(fs, out, es, allowed);
      o.index < |es| && Run(fs, out, es[..o.index], allowed).Completed? &&
      CommitEntry(Run(fs, out, es[..o.index], allowed).fs, out, es[o.index], allowed) == EntryResult(o.fs, Some(o.stage))
    decreases |es|
  {
    var init := es[..|es| - 1];
    if Run(fs, out, init, allowed).Failed? {
      RunFailureIsExact(fs, out, init, allowed);
      var k := Run(fs, out, init, allowed).index;
      assert init[..k] == es[..k];
    } else {
      assert es[..|es| - 1] == init;
    }
  }

  /**
   * What one entry's steps do to the files. A failure to make the directory
   * or to copy leaves every file as it was; the source is removed only after
   * its copy succeeded. The season directory exists whenever the copy is tried.
   */
  lemma CommitEntryEffect(fs: Fs, out: Path, e: Episode, allowed: FsOp -> bool)
    ensures var r := CommitEntry(fs, out, e, allowed);
      (r.failed == Some(MakeDirStage) ==> r.fs == fs) &&
      (r.failed == Some(CopyStage) ==> r.fs.files == fs.files) &&
      (r.failed != Some(MakeDirStage) ==> SeasonDir(out, e.seriesName, e.season) in r.fs.dirs) &&
      (r.failed == Some(RemoveStage) ==> e.oldPath in fs.files && r.fs.files == Copied(fs.files, e.oldPath, e.newPath)) &&
      (r.failed == None ==> e.oldPath in fs.files && r.fs.files == Copied(fs.files, e.oldPath, e.newPath) - {e.oldPath})
  {
  }

  /** The source of an entry disappears only in a run of its steps whose copy succeeded. */
  lemma SourceRemovedOnlyAfterCopy(fs: Fs, out: Path, e: Episode, allowed: FsOp -> bool)
    requires e.oldPath in fs.files
    requires e.oldPath !in CommitEntry(fs, out, e, allowed).fs.files
    ensures var r := CommitEntry(fs, out, e, allowed);
      r.failed == None &&
      (e.oldPath != e.newPath ==> e.newPath in r.fs.files && r.fs.files[e.newPath] == fs.files[e.oldPath])
  {
    CommitEntryEffect(fs, out, e, allowed);
  }

  predicate IsOldPath(es: seq<Episode>, p: Path)
  {
    exists i :: 0 <= i < |es| && es[i].oldPath == p
  }

  predicate IsNewPath(es: seq<Episode>, p: Path)
  {
    exists i :: 0 <= i < |es| && es[i].newPath == p
  }

  /** No entry's new path is the old path of any entry. */
  predicate PathsDisjoint(es: seq<Episode>)
  {
    forall i, j :: 0 <= i < |es| && 0 <= j < |es| ==> es[i].newPath != es[j].oldPath
  }

  /**
   * `f` is `fs` with every entry of `es` moved: its old path is gone and its
   * new path holds what the old path held. Files no entry names are kept, and
   * the only files added are new paths.
   */
  ghost predicate MovedAll(fs: Fs, f: Fs, es: seq<Episode>)
  {
    MovedEntries(fs, f, es) && KeptOthers(fs, f, es) && AddedOnlyNew(fs, f, es)
  }

  ghost predicate MovedEntries(fs: Fs, f: Fs, es: seq<Episode>)
  {
    forall i :: 0 <= i < |es| ==>
      es[i].oldPath in fs.files && es[i].oldPath !in f.files &&
      es[i].newPath in f.files && f.files[es[i].newPath] == fs.files[es[i].oldPath]
  }

  ghost predicate KeptOthers(fs: Fs, f: Fs, es: seq<Episode>)
  {
    forall p :: p in fs.files && !IsOldPath(es, p) && !IsNewPath(es, p) ==> p in f.files && f.files[p] == fs.files[p]
  }

  ghost predicate AddedOnlyNew(fs: Fs, f: Fs, es: seq<Episode>)
  {
    forall p :: p in f.files && p !in fs.files ==> IsNewPath(es, p)
  }

  /** Neither path of `e` is a path of an earlier entry. */
  lemma FreshPaths(init: seq<Episode>, e: Episode)
    requires UniquePaths(init + [e]) && PathsDisjoint(init + [e])
    ensures !IsOldPath(init, e.oldPath) && !IsNewPath(init, e.oldPath)
    ensures !IsOldPath(init, e.newPath) && !IsNewPath(init, e.newPath)
  {
    var es := init + [e];
    var n := |init|;
    assert es[n] == e;
    forall i | 0 <= i < n
      ensures init[i].oldPath != e.oldPath && init[i].newPath != e.oldPath
      ensures init[i].oldPath != e.newPath && init[i].newPath != e.newPath
    {
      assert init[i] == es[i];
    }
  }

  /** The last entry's move keeps the earlier entries moved. */
  lemma MoveOneMoreEntries(fs: Fs, f1: Fs, f: Fs, init: seq<Episode>, e: Episode)
    requires MovedEntries(fs, f1, init) && KeptOthers(fs, f1, init)
    requires !IsOldPath(init, e.oldPath) && !IsNewPath(init, e.oldPath)
    requires !IsOldPath(init, e.newPath) && !IsNewPath(init, e.newPath)
    requires e.oldPath != e.newPath && e.oldPath in fs.files
    requires f.files == f1.files[e.newPath := fs.files[e.oldPath]] - {e.oldPath}
    ensures MovedEntries(fs, f, init + [e])
  {
    var es := init + [e];
    var n := |init|;
    forall i | 0 <= i < |es|
      ensures es[i].oldPath in fs.files && es[i].oldPath !in f.files
      ensures es[i].newPath in f.files && f.files[es[i].newPath] == fs.files[es[i].oldPath]
    {
      if i < n {
        assert es[i] == init[i];
        assert es[i].oldPath != e.newPath;
        assert es[i].newPath != e.oldPath && es[i].newPath != e.newPath;
      }
    }
  }

  lemma MoveOneMoreKeeps(fs: Fs, f1: Fs, f: Fs, init: seq<Episode>, e: Episode)
    requires KeptOthers(fs, f1, init)
    requires e.oldPath in fs.files
    requires f.files == f1.files[e.newPath := fs.files[e.oldPath]] - {e.oldPath}
    ensures KeptOthers(fs, f, init + [e])
  {
    var es := init + [e];
    var n := |init|;
    assert es[n] == e;
    forall p | p in fs.files && !IsOldPath(es, p) && !IsNewPath(es, p)
      ensures p in f.files && f.files[p] == fs.files[p]
    {
      assert !IsOldPath(init, p) && !IsNewPath(init, p) by {
        forall i | 0 <= i < n ensures init[i].oldPath != p && init[i].newPath != p {
          assert init[i] == es[i];
        }
      }
    }
  }

  lemma MoveOneMoreAdds(fs: Fs, f1: Fs, f: Fs, init: seq<Episode>, e: Episode)
    requires AddedOnlyNew(fs, f1, init)
    requires e.oldPath in fs.files
    requires f.files == f1.files[e.newPath := fs.files[e.oldPath]] - {e.oldPath}
    ensures AddedOnlyNew(fs, f, init + [e])
  {
    var es := init + [e];
    var n := |init|;
    assert es[n] == e;
    forall p | p in f.files && p !in fs.files ensures IsNewPath(es, p) {
      if p != e.newPath {
        var i :| 0 <= i < n && init[i].newPath == p;
        assert es[i] == init[i];
      }
    }
  }

  lemma MoveOneMore(fs: Fs, f1: Fs, f: Fs, init: seq<Episode>, e: Episode)
    requires MovedAll(fs, f1, init)
    requires UniquePaths(init + [e]) && PathsDisjoint(init + [e])
    requires e.oldPath in f1.files && f.files == Copied(f1.files, e.oldPath, e.newPath) - {e.oldPath}
    ensures MovedAll(fs, f, init + [e])
  {
    FreshPaths(init, e);
    assert (init + [e])[|init|] == e;
    assert e.oldPath in fs.files && f1.files[e.oldPath] == fs.files[e.oldPath];
    assert f.files == f1.files[e.newPath := fs.files[e.oldPath]] - {e.oldPath};
    MoveOneMoreEntries(fs, f1, f, init, e);
    MoveOneMoreKeeps(fs, f1, f, init, e);
    MoveOneMoreAdds(fs, f1, f, init, e);
  }

  /** A run that completes has moved every entry. */
  lemma {:induction false} RunMovesEverything(fs: Fs, out: Path, es: seq<Episode>, allowed: FsOp -> bool)
    requires UniquePaths(es) && PathsDisjoint(es)
    requires Run(fs, out, es, allowed).Completed?
    ensures MovedAll(fs, Run(fs, out, es, allowed).fs, es)
    decreases |es|
  {
    if es != [] {
      var n := |es| - 1;
      var init := es[..n];
      var e := es[n];
      DropLastKeepsPaths(es);
      RunMovesEverything(fs, out, init, allowed);
      var f1 := RunLastCompleted(fs, out, es, allowed);
      CommitEntryEffect(f1, out, e, allowed);
      MoveOneMore(fs, f1, Run(fs, out, es, allowed).fs, init, e);
    }
  }

  lemma DropLastKeepsPaths(es: seq<Episode>)
    requires es != [] && UniquePaths(es) && PathsDisjoint(es)
    ensures es == es[..|es| - 1] + [es[|es| - 1]]
    ensures UniquePaths(es[..|es| - 1]) && PathsDisjoint(es[..|es| - 1])
  {
  }

  /** The last step of a run that completed succeeded on what the shorter run left. */
  lemma RunLastCompleted(fs: Fs, out: Path, es: seq<Episode>, allowed: FsOp -> bool) returns (f1: Fs)
    requires es != [] && Run(fs, out, es, allowed).Completed?
    ensures Run(fs, out, es[..|es| - 1], allowed) == Completed(f1)
    ensures var r := CommitEntry(f1, out, es[|es| - 1], allowed);
      r.failed.None? && Run(fs, out, es, allowed).fs == r.fs
  {
    f1 := Run(fs, out, es[..|es| - 1], allowed).fs;
  }

  /**
   * Committing the same entries again, in any order, after a run that
   * completed fails at the very first entry, because its source is gone, and
   * removes no file. A second `move_files` may take the shows in another
   * order, so `again` is any rearrangement of `es`.
   */
  lemma SecondRunRemovesNothing(fs: Fs, out: Path, es: seq<Episode>, again: seq<Episode>, allowed: FsOp -> bool)
    requires UniquePaths(es) && PathsDisjoint(es)
    requires es != [] && Run(fs, out, es, allowed).Completed?
    requires multiset(again) == multiset(es)
    ensures var f := Run(fs, out, es, allowed).fs;
      var r := Run(f, out, again, allowed);
      r.Failed? && r.index == 0 && r.stage != RemoveStage && r.fs.files == f.files
  {
    RunMovesEverything(fs, out, es, allowed);
    var f := Run(fs, out, es, allowed).fs;
    assert |again| == |es| by {
      assert |multiset(again)| == |again| && |multiset(es)| == |es|;
    }
    var first := again[0];
    assert first in multiset(es);
    var i :| 0 <= i < |es| && es[i] == first;
    assert first.oldPath !in f.files;
    CommitMissingSource(f, out, first, allowed);
    assert [] + [first] == again[..1];
    RunStep(f, out, [], first, f, allowed);
    RunFailurePersists(f, out, again, again[..1], allowed);
  }

  /** An entry whose source is missing fails before its remove step and changes no file. */
  lemma CommitMissingSource(fs: Fs, out: Path, e: Episode, allowed: FsOp -> bool)
    requires e.oldPath !in fs.files
    ensures var r := CommitEntry(fs, out, e, allowed);
      r.failed.Some? && r.failed != Some(RemoveStage) && r.fs.files == fs.files
  {
    CommitEntryEffect(fs, out, e, allowed);
  }

  // -------------------------------------------------- the schedule covers the store

  lemma {:induction false} ScheduleCounts(rows: seq<Episode>, shows: seq<string>)
    requires forall i, j :: 0 <= i < |shows| && 0 <= j < |shows| && i != j ==> shows[i] != shows[j]
    ensures forall e :: multiset(Schedule(rows, shows))[e] == if e.seriesName in shows then multiset(rows)[e] else 0
    decreases |shows|
  {
    if shows != [] {
      var init := shows[..|shows| - 1];
      var last := shows[|shows| - 1];
      ScheduleCounts(rows, init);
      EpisodesOfMembers(rows, last);
      assert shows == init + [last];
      assert last !in init;
    }
  }

  /** With a show list as `select_all_shows` gives it, `move_files` visits every staged row exactly once. */
  lemma ScheduleVisitsEveryRowOnce(rows: seq<Episode>, shows: seq<string>)
    requires IsShowList(rows, shows)
    ensures multiset(Schedule(rows, shows)) == multiset(rows)
  {
    ScheduleCounts(rows, shows);
    forall e ensures multiset(Schedule(rows, shows))[e] == multiset(rows)[e] {
      if e in rows {
        assert e.seriesName in shows;
      } else {
        assert multiset(rows)[e] == 0;
      }
    }
  }

  /**
   * When `move_files` completes on a store whose new paths are none of its
   * old paths, every staged file has moved: its old path is gone and its new
   * path holds the bytes the old path held.
   */
  lemma MoveFilesMovesEverything(fs: Fs, out: Path, rows: seq<Episode>, shows: seq<string>, allowed: FsOp -> bool)
    requires UniquePaths(rows) && PathsDisjoint(rows)
    requires IsShowList(rows, shows)
    requires Run(fs, out, Schedule(rows, shows), allowed).Completed?
    ensures var f := Run(fs, out, Schedule(rows, shows), allowed).fs;
      forall r :: r in rows ==>
        r.oldPath in fs.files && r.oldPath !in f.files &&
        r.newPath in f.files && f.files[r.newPath] == fs.files[r.oldPath]
  {
    var es := Schedule(rows, shows);
    ScheduleVisitsEveryRowOnce(rows, shows);
    UniquePathsPermuted(rows, es);
    assert PathsDisjoint(es) by {
      forall i, j | 0 <= i < |es| && 0 <= j < |es| ensures es[i].newPath != es[j].oldPath {
        assert es[i] in multiset(rows) && es[j] in multiset(rows);
        var p :| 0 <= p < |rows| && rows[p] == es[i];
        var q :| 0 <= q < |rows| && rows[q] == es[j];
      }
    }
    RunMovesEverything(fs, out, es, allowed);
    forall r | r in rows ensures exists i :: 0 <= i < |es| && es[i] == r {
      assert r in multiset(es);
    }
  }
}
