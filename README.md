# rplexfmtr in Dafny

rplexfmtr renames TV episode files into the layout Plex Media Server expects:
`<output>/<show>/Season <n>/<show> S<n>E<m>.<ext>`. It works in two phases.

1. **Staging.** For each input directory the tool:
   - asks for a show name and checks it with `valid_name`;
   - lists the regular files with `get_files`, sorted in natural order of their lower-cased names;
   - parses a selection line with `parse_range`;
   - keeps the selected files and sorts them again;
   - asks for a season;
   - inserts one row per file into an in-memory SQLite table `episodes`.

   The `old_path` and `new_path` columns of that table are each UNIQUE.
2. **Commit.** `move_files` walks through the table show by show and episode by episode. For each row it makes the season directory, copies the file to its new path and removes the source. The first `?` that fails ends the whole run, and nothing is rolled back.

The model has one module per component:

- **`Validate`** (`src/validate.rs`): `valid_name` and the selection grammar of `parse_range`.
  - The regular expressions become predicates on text.
  - `parse_range` is an imperative method proved against the function `Selection`.
- **`Database`** (`src/database.rs`): the table as a class `Store` with a sequence of rows.
  - `insert_episode` enforces the two UNIQUE constraints.
  - `select_all_shows` returns each name once, in an order the contract leaves open.
  - `select_all_episodes` is a pure function: the rows of one show, sorted by the query's ORDER BY.
- **`Files`** (`src/files.rs`):
  - `get_files` is a filter followed by a sort.
  - The host filesystem is a class `FileSystem` (a map from file paths to bytes, plus a set of directories) with one method per operation.
  - `move_files` is a nested loop proved against the function `Run` over the visiting order `Schedule`.
- **`Plan`** (`src/main.rs`, lines 67-131): one input directory's staging.
  - The selection filter loop.
  - The re-sort.
  - The new-path construction.
  - The insert loop, which stops at the first failing insert.
- **Helper modules:**
  - `Strings`: digits and decimal text, `split`, `split_ascii_whitespace`, ASCII lower case, the BINARY order on text.
  - `Sorting`: `sort_by` as an insertion sort with a comparison parameter.
  - `Paths`: `PathBuf::join` and the parent of a path.
  - `Wrappers`: `Option` and `Result`.

The following are parameters of the model:

- `natord::compare` is a comparison `(string, string) -> bool` that must be a total preorder.
- The answers read from standard input are plain values.
- Whether the environment lets a filesystem operation succeed is an oracle `allowed: FsOp -> bool`, standing for permissions, disk space and devices.

The model is written as the code behaves:

- `valid_name` looks at the character whose index is the name's byte length minus 2.
- A right-ended range (`^+-\d$`) and the last item of a comma list accept exactly one digit.
- A single index is one digit.
- Longer numbers in those places select nothing.
- Indices that are out of range are dropped silently.
- Repeated indices are kept.

## Model

| member | source | states |
|---|---|---|
| Validate.ValidNameAscii | src/validate.rs:15-37 | For an ASCII name of two or more characters the call is defined. It accepts the name exactly when the name has no reserved character, no NUL, no `COM`/`LPT` followed by a digit and no `NUL`/`PRN`/`AUX`, and when the second-to-last character is neither `.` nor a space. |
| Validate.SingleCharacterRejected | src/validate.rs:27-31 | A one-character ASCII name that does not panic is rejected. |
| Validate.DeviceNameRejected | src/validate.rs:17-24 | Any occurrence of `NUL`, `PRN` or `AUX` rejects the name. |
| Validate.ByteLen | src/validate.rs:30 | `len()` counts UTF-8 bytes, never fewer than the characters. |
| Validate.ValidNameDefined | src/validate.rs:27-31 | The condition under which the `||` chain of `valid_name` finishes without the `nth(len() - 2).unwrap()` panic: an earlier test is true, or the byte length minus 2 is a character index. |
| Validate.ValidName | src/validate.rs:15-37 | `valid_name`: rejects the empty name, any reserved character or device name of the regex set, NUL, and a `.` or space at character index `len() - 2`. Its meaning for ASCII names is `ValidNameAscii`. |
| Validate.IsDualEnded | src/validate.rs:42 | `^\d+-\d+$`: splitting at `-` leaves exactly two non-empty digit strings. |
| Validate.IsLeftEnded | src/validate.rs:43 | `^\d+-$`: a non-empty digit string followed by one `-`. |
| Validate.IsRightEnded | src/validate.rs:44 | `^+-\d$`: one `-` followed by exactly one digit. |
| Validate.IsCommaList | src/validate.rs:45 | `^(\d+,)+\d$`: two or more comma-separated digit strings, the last of one digit. |
| Validate.IsSingle | src/validate.rs:46 | `^\d$`: exactly one digit. |
| Validate.TokenSelection | src/validate.rs:58-100 | What one token adds: the first regex of the chain it matches decides, and a token matching none adds nothing. |
| Validate.SelectTokens | src/validate.rs:57-101 | The token loop: the tokens' contributions concatenated in order, stopped by the first `?` that fails. |
| Validate.Selection | src/validate.rs:48-103 | The meaning of `parse_range`: every file for the empty line, otherwise `SelectTokens` over the ASCII-whitespace tokens. |
| Validate.CommaListsFit | src/validate.rs:83-89 | The `parse().unwrap()` of a comma list can panic only when the token loop reaches it: every comma list reached after error-free tokens has items that fit in `usize`. |
| Validate.ParseUsizeOfDecimal | src/validate.rs:60-61 | `parse::<usize>()` reads the decimal rendering of `v` back as `v` when `v` is at most `usize::MAX`, and fails above it. |
| Validate.ParseUsizeLeadingZero | src/validate.rs:60-61 | `parse::<usize>()` ignores a leading zero: `"0" + p` parses exactly as `p` does. |
| Validate.PushInterval | src/validate.rs:53-55 | The `for num in lo..hi` push loop appends exactly `lo, lo+1, …, hi-1`. |
| Validate.PushDual | src/validate.rs:58-66 | The `L-R` branch appends what `DualSelection` selects, or returns the parse error of either bound. |
| Validate.PushLeft | src/validate.rs:67-74 | The `L-` branch appends what `LeftSelection` selects, or returns the parse error. |
| Validate.PushCommaList | src/validate.rs:83-94 | The comma-list branch appends each listed number below the file count, in order. |
| Validate.PushToken | src/validate.rs:57-100 | One pass of the token loop appends the token's contribution. The first form the token matches decides, and a token matching no form adds nothing. |
| Validate.ParseRange | src/validate.rs:39-104 | The method's result is `Selection(amountFiles, range)`: all files for the empty line, otherwise the tokens' contributions in order; the first error wins. |
| Validate.OverflowEndsLine | src/validate.rs:57-89 | A bound too large for `usize` ends the line with `Err` at its token, so a later comma list, however large its items, is never parsed and cannot panic. |
| Validate.SelectionInBounds | src/validate.rs:57-100 | Every selected index is below the number of files. |
| Validate.EmptySelectsEveryFile | src/validate.rs:52-55 | The empty line selects `0..n` in ascending order. |
| Validate.SelectTokensErrorPersists | src/validate.rs:57-61 | A token that fails fails the whole line. |
| Validate.SelectionOfTwoParts | src/validate.rs:48-51 | Two parts separated by ASCII whitespace select the first part's indices followed by the second's, unless one of them fails. |
| Validate.DualEndedRange | src/validate.rs:58-66 | `L-R` selects `L..=R` when both bounds are below `n` and `L <= R`, selects nothing otherwise, and fails when a bound exceeds `usize`. |
| Validate.LeftEndedRange | src/validate.rs:67-74 | `L-` selects `L..n` when `L < n`, and fails when `L` exceeds `usize`. |
| Validate.RightEndedRange | src/validate.rs:75-82 | `-d` with one digit selects `0..=d` when `d < n`. |
| Validate.LongRightEndedRangeIgnored | src/validate.rs:44 | `-R` with two or more digits matches no form and selects nothing. |
| Validate.CommaListSelects | src/validate.rs:83-94 | A comma list ending in one digit selects each listed number below `n`, in order. |
| Validate.LongLastCommaItemIgnored | src/validate.rs:45 | A comma list whose last item has two or more digits selects nothing. |
| Validate.SingleIndex | src/validate.rs:95-99 | A single digit `d` selects `d` when `d < n`. |
| Validate.LongSingleIndexIgnored | src/validate.rs:46 | A number of two or more digits on its own selects nothing. |
| Validate.RangeAndSingleExample | src/validate.rs:57-99 | `"0-2 4"` over 5 files selects `[0, 1, 2, 4]`. |
| Validate.OpenRangeExample | src/validate.rs:67-74 | `"3-"` over 5 files selects `[3, 4]`. |
| Validate.CommaListExample | src/validate.rs:83-94 | `"1,3"` over 5 files selects `[1, 3]`. |
| Validate.IgnoredIndexExample | src/validate.rs:95-99 | `"9"` and `"12"` over 5 files select nothing. |
| Validate.RepeatedIndexExample | src/validate.rs:95-99 | `"1 1"` selects index 1 twice. |
| Database.Store.constructor | src/database.rs:21-31 | `setup_database` makes an empty table. |
| Database.Store.InsertEpisode | src/database.rs:41-59 | The insert succeeds exactly when neither path is already taken. It then appends the row; otherwise nothing changes. The UNIQUE constraints stay true. |
| Database.Store.SelectAllShows | src/database.rs:33-39 | Every series name in the table appears exactly once; the order is not fixed. |
| Database.SeasonOrderIsNumeric | src/database.rs:66 | `ORDER BY LENGTH(season), season` orders seasons numerically. |
| Database.EpisodeOrderIsTotalPreorder | src/database.rs:66 | The ORDER BY is a total preorder on rows. |
| Database.EpisodeOrderTies | src/database.rs:66 | Rows the ORDER BY cannot separate agree on name, season and old path. |
| Database.EpisodeLe | src/database.rs:66 | The ORDER BY `LENGTH(series_name), series_name, LENGTH(season), season, LENGTH(old_path), old_path` as a comparison of rows. |
| Database.RowsOf | src/database.rs:66 | The `WHERE series_name = ?`: the show's rows in table order. |
| Database.EpisodesOf | src/database.rs:61-71 | `select_all_episodes`: the show's rows sorted by the ORDER BY; what it returns is stated by the lemmas below. |
| Database.EpisodesOfMembers | src/database.rs:61-71 | `select_all_episodes(s)` returns exactly the rows of show `s`, each with its multiplicity. |
| Database.EpisodesOfSorted | src/database.rs:66 | The result is in ORDER BY order. |
| Database.EpisodesOfIsTheOnlyOrder | src/database.rs:66 | Because `old_path` is UNIQUE, any ORDER BY-sorted arrangement of a show's rows is the query result. |
| Database.EpisodesOfIgnoresInsertionOrder | src/database.rs:61-71 | The query result depends only on which rows the table holds, not on insertion order. |
| Database.EpisodesOfDistinct | src/database.rs:66 | On a table that keeps the UNIQUE constraints the query returns no row twice and its rows keep unique paths, so the result is what `SELECT DISTINCT` yields. |
| Database.UniquePathsPermuted | src/database.rs:26 | Any rearrangement of some of the rows keeps the uniqueness of both path columns. |
| Files.RegularFilesCounts | src/files.rs:37-45 | The filter keeps the readable regular-file entries with their multiplicities and drops everything else. |
| Files.GetFilesContents | src/files.rs:36-53 | `get_files` returns exactly the readable regular files of the listing, each as often as listed. |
| Files.GetFiles | src/files.rs:36-53 | `get_files`: the regular files of the listing sorted by `natord` on their lower-cased names; its meaning is stated by `GetFilesContents` and `GetFilesSorted`. |
| Files.GetFilesSorted | src/files.rs:46-51 | `get_files` returns its entries in `natord` order of their ASCII-lower-cased names. |
| Files.LoweredNameOrder | src/files.rs:46-51 | Comparing lower-cased names by a total preorder is a total preorder on entries. |
| Files.CreateDirAllStep | src/files.rs:26-28 | `create_dir_all` on an existing directory succeeds without change. On success the files are unchanged, no directory is lost and the target is a directory. |
| Files.Copied | src/files.rs:29 | The files after a successful `copy`: the target holds the source's bytes, and copying a file onto itself truncates it. |
| Files.CopyStepSpec | src/files.rs:29 | `copy` succeeds exactly when the source is a file, the target is no directory, the target's parent exists and the environment allows it. It then writes the target alone; every other path and every directory stays as it was. |
| Files.RemoveStepSpec | src/files.rs:30 | `remove_file` succeeds exactly when the path is a file and the environment allows it. It deletes that file alone, and removing it again fails. |
| Files.CopyThenRemoveIsMove | src/files.rs:29-30 | Between distinct paths, a successful copy followed by a successful removal of the source is a rename: the bytes leave the old path for the new one and nothing else changes. |
| Files.FileSystem.CreateDirAllIn | src/files.rs:26-28 | The filesystem changes exactly as `CreateDirAllStep` says, or not at all on failure. |
| Files.FileSystem.CopyIn | src/files.rs:29 | The filesystem changes exactly as `CopyStep` says, or not at all on failure. |
| Files.FileSystem.RemoveFileIn | src/files.rs:30 | The filesystem changes exactly as `RemoveStep` says, or not at all on failure. |
| Files.SeasonDir | src/files.rs:26-27 | The directory `create_dir_all` is given: `output/series_name/"Season N"`. |
| Files.CommitEntry | src/files.rs:26-30 | One inner-loop iteration: make the season directory, copy, remove the source, stopping at the first step that fails. |
| Files.Run | src/files.rs:20-34 | Committing entries in order until the first failing step, with no rollback; what it does is stated by the run lemmas below. |
| Files.Schedule | src/files.rs:21-25 | The order `move_files` visits rows in: show by show, each show's rows as `select_all_episodes` returns them. |
| Files.CommitOne | src/files.rs:26-30 | One episode's three steps leave the filesystem as `CommitEntry` says and report the step that failed. |
| Files.CommitShow | src/files.rs:22-31 | The inner loop extends the run by one show's episodes. It stops at the first failing step with the state of that step. |
| Files.MoveFiles | src/files.rs:20-34 | The method takes the shows from `select_all_shows`. The final filesystem and result are those of `Run` over `Schedule`: `Ok` when every step succeeded, otherwise the stage of the first failure. |
| Files.CommitEntryEffect | src/files.rs:26-30 | A failed mkdir or copy leaves the files unchanged. The source is removed only after its copy. The season directory exists whenever the copy is tried. |
| Files.SourceRemovedOnlyAfterCopy | src/files.rs:29-30 | If an entry's source disappears, all three steps succeeded and the target holds the source's bytes. |
| Files.RunFailurePersists | src/files.rs:28-30 | After a failure no later entry is attempted. |
| Files.RunFailureIsExact | src/files.rs:20-34 | A failed run committed every earlier entry, rolled nothing back, and stopped inside the failing entry. |
| Files.RunMovesEverything | src/files.rs:20-34 | A completed run over entries with unique, disjoint paths moves every entry and keeps every file it does not name. |
| Files.SecondRunRemovesNothing | src/files.rs:20-34 | Committing the same entries again, in any order (a second `move_files` may take the shows in another order), fails at its first entry before any removal and changes no file. |
| Files.ScheduleVisitsEveryRowOnce | src/files.rs:21-25 | With the show list from `select_all_shows`, `move_files` visits every row of the table exactly once. |
| Files.MoveFilesMovesEverything | src/files.rs:20-34 | When `move_files` completes on a table whose new paths are none of its old paths, every staged file has moved. Its old path is gone, and its new path holds the old path's bytes. |
| Plan.ListedIndices | src/main.rs:75-76 | The indices kept are those below the file count that the selection names, ascending and each once. |
| Plan.Picked | src/main.rs:74-79 | The listed files whose index the selection contains, in listing order; `PickedAreListed` states its meaning. |
| Plan.SelectFiles | src/main.rs:74-79 | The filter loop returns `Picked(files, fileNumbers)`. |
| Plan.PickedAreListed | src/main.rs:74-79 | The selection is the listing at the listed indices, in ascending index order, each index once however often it was repeated. |
| Plan.PickedKeepsOrder | src/main.rs:74-79 | A selection from a sorted listing is sorted. |
| Plan.ResortKeepsSelection | src/main.rs:80-85 | Re-sorting a selection taken from a `get_files` listing returns it unchanged. |
| Plan.Extension | src/main.rs:120-127 | The extension (the last piece of `split('.')`) contains no `.`. |
| Plan.ExtensionIsSuffix | src/main.rs:120-127 | The extension is a suffix of the file name. |
| Plan.ExtensionOfPlainName | src/main.rs:120-127 | A file name without `.` is its own extension. |
| Plan.ExtensionAfterLastDot | src/main.rs:120-127 | Otherwise the extension is what follows the last `.`, and it is empty after a trailing dot. |
| Plan.EpisodeFileName | src/main.rs:114-127 | The new file name `name + " S" + season + "E" + episode + "." + ext`. |
| Plan.NewPath | src/main.rs:109-128 | The new path of the file at position `index`: the season directory joined with its episode file name, numbered `index + 1`. |
| Plan.NewPathsDiffer | src/main.rs:108-128 | Two files of one batch at different positions get different new paths. |
| Plan.NewPathInSeasonDir | src/main.rs:109-112 | The directory part of a new path is exactly the season directory that `move_files` creates. |
| Plan.PlanNumbering | src/main.rs:102-108 | Each row carries the name, the season and the file's own path. The file at position `k` of the sorted selection is episode `k + 1`, so the episode numbers are exactly 1 to the number of files. |
| Plan.PlanRow | src/main.rs:102-128 | The row inserted for the file at position `index`: name, season, episode `index + 1`, the file's path and its new path. |
| Plan.PlanRows | src/main.rs:102-128 | One row per file of the sorted selection, in order. |
| Plan.PlanNewPathsDistinct | src/main.rs:108-128 | No two rows of a batch share a new path. |
| Plan.AcceptedNameHasNoSeparator | src/main.rs:60-65 | A name `valid_name` accepts has no `/`, so it is a single path component. |
| Plan.StageRowsKeepsEarlier | src/main.rs:102-131 | A batch inserts its rows in order up to the first colliding one. The rows before it stay and nothing is rolled back. |
| Plan.StageRowsFailurePersists | src/main.rs:130 | Once an insert fails, later files are not inserted. |
| Plan.StageRows | src/main.rs:102-131 | The insert loop on values: rows are appended in order until the first one that collides with a UNIQUE path, which ends the loop. |
| Plan.StageBatch | src/main.rs:102-131 | The insert loop leaves the table as `StageRows` of the planned rows says and reports whether every insert succeeded. The UNIQUE constraints stay true. |
| Plan.Chosen | src/main.rs:73-85 | The files a batch stages: the selected files, sorted again by the `get_files` comparison. |
| Plan.StageDirectory | src/main.rs:67-131 | A selection that does not parse leaves the table unchanged and yields the parse error. Otherwise the re-sorted selection is staged as `StageBatch` states. |
| Strings.DecimalRoundTrip | src/main.rs:112 | `to_string` of a number reads back as that number. |
| Strings.Decimal | src/main.rs:112 | `to_string` of an unsigned number: a non-empty string of decimal digits. |
| Strings.Split | src/main.rs:124 | `str::split` on one character: the pieces between its occurrences, never none. |
| Strings.JoinSplit | src/main.rs:124 | Joining the pieces of `split(sep)` with `sep` gives back the text. |
| Strings.SplitJoin | src/validate.rs:59 | Joining pieces that lack the separator and splitting again gives the pieces back. |
| Strings.TokensAreWords | src/validate.rs:48-51 | `split_ascii_whitespace` yields non-empty tokens free of ASCII whitespace. |
| Strings.Tokens | src/validate.rs:48-51 | `split_ascii_whitespace`: the maximal runs without ASCII whitespace. |
| Strings.AsciiLower | src/files.rs:48-49 | `to_ascii_lowercase`: ASCII capitals become lower case, other characters are kept. |
| Strings.TextLe | src/database.rs:66 | SQLite's BINARY collation on text: code-point order. |
| Strings.TextLeTotal | src/database.rs:66 | The BINARY order on text is total. |
| Strings.TextLeAntisymmetric | src/database.rs:66 | The BINARY order on text is antisymmetric: texts that sort both ways are equal. |
| Paths.ParentOfJoin | src/main.rs:109-113 | Joining a single component onto a directory path and taking the parent gives the directory back. |
| Paths.Join | src/main.rs:109-113 | `PathBuf::join` on Unix: an absolute component replaces the path, otherwise the two are joined with one `/`. |
| Sorting.SortByPermutation | src/files.rs:46 | `sort_by` rearranges its input without losing or adding elements. |
| Sorting.SortBySorted | src/files.rs:46 | `sort_by` with a total preorder returns a sorted sequence. |
| Sorting.SortBy | src/files.rs:46-51 | `sort_by` with a comparison parameter, as a stable insertion sort. |
| Sorting.SortBySortedIsIdentity | src/main.rs:80-85 | The sort is stable: an input that is already sorted comes back unchanged, even where the comparison ties. |
| Sorting.SortedUnique | src/database.rs:66 | For an order antisymmetric on the elements there is exactly one sorted arrangement of a multiset. |

## Left out

- Prompts, retry loops and screen output:
  - the name, selection, season and confirmation prompts (`src/main.rs` 50-72, 86-100, 132-157) become parameters;
  - the season prompt loops until `parse::<u32>()` succeeds, so `season <= U32_MAX` is a precondition;
  - `print_directory`, `get_file_names` and `preview_changes` only print.
- `valid_paths` and the `Cli` parser are argument handling around `clap` and the filesystem; they are not part of this model.
- The regex engine, `natord`, SQLite/sqlx and tokio are libraries:
  - the regular expressions are predicates;
  - `natord::compare` is a parameter;
  - the table is a sequence of rows;
  - async execution is sequential.
- Validate.IsNumber: `\d` in the regex crate also matches non-ASCII decimal digits. The model uses ASCII digits only.
- Validate.ValidName: a call that would panic in `nth(len() - 2).unwrap()` is excluded by the precondition `ValidNameDefined`.
- Validate.ParseRange: the `parse().unwrap()` of a comma-list item panics when the item exceeds `usize`. The precondition `CommaListsFit` excludes exactly the lines where the token loop reaches such a comma list; comma lists after a failing token stay admitted.
- Validate.ParseRange: `usize` is taken to be 64 bits wide.
- Files.GetFiles:
  - a failing `read_dir` is not modelled;
  - the `file_type().unwrap()` and `to_str().unwrap()` calls are assumed to succeed (precondition `TypesKnown`, names as strings).
- Sorting.SortBy: the sort is stable, as Rust's `sort_by` is, and `Plan.ResortKeepsSelection` relies on that where lower-cased names tie. It is modelled on values, not in place on a `Vec`.
- Database.Store.SelectAllShows: the order of `SELECT DISTINCT` without ORDER BY is left open, so `MoveFiles` returns the order it used as a ghost output.
- Plan.StageBatch: `(index as u32) + 1` would overflow past `u32::MAX` files; the precondition `|files| <= U32_MAX` excludes that.
- Files.CreateDirAllStep: a failing `create_dir_all` may already have made some ancestors. The model treats the failure as changing nothing.
- Files.CopyStep: permissions, metadata and partial copies are not modelled. A copy succeeds or fails as a whole, decided by `allowed` and the checks on source, target and parent.
- Paths.Join: only Unix paths with `/` separators; no `..`, `.` or prefix handling.
- Database.EpisodesOf: the `DISTINCT` of `select_all_episodes` is not applied; on a table that keeps the UNIQUE constraints no row occurs twice (`EpisodesOfDistinct`), so the results agree. The multiplicity statements of `EpisodesOfMembers` are about such tables in the program.
- Database.Store.InsertEpisode: SQLite errors other than the UNIQUE violations (I/O, memory) are not modelled.
