/**
 * The staging table (src/database.rs): an append-only `episodes` table whose
 * `old_path` and `new_path` columns are each UNIQUE, with its two queries.
 * The SQLite engine is replaced by a sequence of rows.
 */
module Database {
  import opened Wrappers
  import opened Strings
  import opened Sorting
  import opened Paths

  /** `u32::MAX`, the range of the `season` and `episode` columns' Rust type. */
  const U32_MAX: nat := 0xFFFF_FFFF

  /** A row of `episodes`. */
  datatype Episode = Episode(seriesName: string, season: nat, episode: nat, oldPath: Path, newPath: Path)

  /** A UNIQUE constraint failed. */
  datatype DbError = UniqueViolation

  /** No two rows share an `old_path`, and no two rows share a `new_path`. */
  ghost predicate UniquePaths(rows: seq<Episode>)
  {
    forall i, j :: 0 <= i < |rows| && 0 <= j < |rows| && i != j ==>
      rows[i].oldPath != rows[j].oldPath && rows[i].newPath != rows[j].newPath
  }

  /** Some row already holds `oldPath` as its old path or `newPath` as its new path. */
  predicate Collides(rows: seq<Episode>, oldPath: Path, newPath: Path)
  {
    exists i :: 0 <= i < |rows| && (rows[i].oldPath == oldPath || rows[i].newPath == newPath)
  }

  /** `shows` lists every series name of `rows` exactly once, in some order. */
  ghost predicate IsShowList(rows: seq<Episode>, shows: seq<string>)
  {
    (forall i, j :: 0 <= i < |shows| && 0 <= j < |shows| && i != j ==> shows[i] != shows[j]) &&
    (forall s :: s in shows <==> exists r :: r in rows && r.seriesName == s)
  }

  class Store {
    var rows: seq<Episode>

    ghost predicate Valid()
      reads this
    {
      UniquePaths(rows)
    }

    /** `setup_database`: a new, empty `episodes` table. */
    constructor ()
      ensures Valid() && rows == []
    {
      rows := [];
    }

    /**
     * `insert_episode`: appends one row, unless its `old_path` or its
     * `new_path` is already in the table, in which case nothing changes.
     */
    method InsertEpisode(seriesName: string, season: nat, episode: nat, oldPath: Path, newPath: Path)
      returns (r: Result<(), DbError>)
      requires Valid()
      requires season <= U32_MAX && episode <= U32_MAX
      modifies this
      ensures Valid()
      ensures r.Ok? <==> !Collides(old(rows), oldPath, newPath)
      ensures rows == if r.Ok? then old(rows) + [Episode(seriesName, season, episode, oldPath, newPath)] else old(rows)
    {
      if Collides(rows, oldPath, newPath) {
        return Err(UniqueViolation);
      }
      rows := rows + [Episode(seriesName, season, episode, oldPath, newPath)];
      r := Ok(());
    }

    /**
     * `select_all_shows` (`SELECT DISTINCT series_name`, no ORDER BY): every
     * series name in the table once. The order is not specified, so the
     * contract does not fix it.
     */
    method SelectAllShows() returns (shows: seq<string>)
      ensures forall i, j :: 0 <= i < |shows| && 0 <= j < |shows| && i != j ==> shows[i] != shows[j]
      ensures forall s :: s in shows <==> exists r :: r in rows && r.seriesName == s
    {
      shows := [];
      for k := 0 to |rows|
        invariant forall i, j :: 0 <= i < |shows| && 0 <= j < |shows| && i != j ==> shows[i] != shows[j]
        invariant forall s :: s in shows <==> exists r :: r in rows[..k] && r.seriesName == s
      {
        assert rows[..k + 1] == rows[..k] + [rows[k]];
        if rows[k].seriesName !in shows {
          shows := shows + [rows[k].seriesName];
        }
      }
      assert rows[..|rows|] == rows;
    }
  }

  // ------------------------------------------------------ select_all_episodes

  /** Comparing by `LENGTH(x), x` for text: shorter first, then BINARY collation. */
  predicate ShortlexLe(a: string, b: string)
  {
    |a| < |b| || (|a| == |b| && TextLe(a, b))
  }

  /** Comparing by `LENGTH(season), season`: fewer digits first, then by value. */
  predicate SeasonLe(x: nat, y: nat)
  {
    DigitCount(x) < DigitCount(y) || (DigitCount(x) == DigitCount(y) && x <= y)
  }

  /**
   * `ORDER BY LENGTH(series_name), series_name, LENGTH(season), season,
   * LENGTH(old_path), old_path`: `a` sorts no later than `b`.
   */
  predicate EpisodeLe(a: Episode, b: Episode)
  {
    if a.seriesName != b.seriesName then ShortlexLe(a.seriesName, b.seriesName)
    else if a.season != b.season then SeasonLe(a.season, b.season)
    else ShortlexLe(a.oldPath, b.oldPath)
  }

  /** The rows of one show, in table order (the `WHERE series_name = ?`). */
  function RowsOf(rows: seq<Episode>, seriesName: string): seq<Episode>
  {
    if rows == [] then []
    else RowsOf(rows[..|rows| - 1], seriesName) +
         (if rows[|rows| - 1].seriesName == seriesName then [rows[|rows| - 1]] else [])
  }

  /** `select_all_episodes(series_name)`: the show's rows in the ORDER BY order. */
  function EpisodesOf(rows: seq<Episode>, seriesName: string): seq<Episode>
  {
    SortBy(RowsOf(rows, seriesName), EpisodeLe)
  }

  /** Sorting by the number of digits and then by value is sorting by value. */
  lemma SeasonOrderIsNumeric(x: nat, y: nat)
    ensures SeasonLe(x, y) <==> x <= y
  {
    if x <= y {
      DigitCountMonotone(x, y);
    } else {
      DigitCountMonotone(y, x);
    }
  }

  lemma ShortlexTotalPreorder(a: string, b: string, c: string)
    ensures ShortlexLe(a, b) || ShortlexLe(b, a)
    ensures ShortlexLe(a, b) && ShortlexLe(b, c) ==> ShortlexLe(a, c)
    ensures ShortlexLe(a, b) && ShortlexLe(b, a) ==> a == b
  {
    TextLeTotal(a, b);
    if ShortlexLe(a, b) && ShortlexLe(b, c) && |a| == |b| == |c| {
      TextLeTransitive(a, b, c);
    }
    if ShortlexLe(a, b) && ShortlexLe(b, a) {
      TextLeAntisymmetric(a, b);
    }
  }

  /** The ORDER BY is a total preorder on rows. */
  lemma EpisodeOrderIsTotalPreorder()
    ensures TotalPreorder(EpisodeLe)
  {
    forall a: Episode, b: Episode ensures EpisodeLe(a, b) || EpisodeLe(b, a) {
      ShortlexTotalPreorder(a.seriesName, b.seriesName, b.seriesName);
      ShortlexTotalPreorder(a.oldPath, b.oldPath, b.oldPath);
      SeasonOrderIsNumeric(a.season, b.season);
      SeasonOrderIsNumeric(b.season, a.season);
    }
    forall a: Episode, b: Episode, c: Episode | EpisodeLe(a, b) && EpisodeLe(b, c) ensures EpisodeLe(a, c) {
      ShortlexTotalPreorder(a.seriesName, b.seriesName, c.seriesName);
      ShortlexTotalPreorder(b.seriesName, c.seriesName, a.seriesName);
      ShortlexTotalPreorder(c.seriesName, a.seriesName, b.seriesName);
      ShortlexTotalPreorder(a.oldPath, b.oldPath, c.oldPath);
      ShortlexTotalPreorder(b.oldPath, c.oldPath, a.oldPath);
      ShortlexTotalPreorder(c.oldPath, a.oldPath, b.oldPath);
      SeasonOrderIsNumeric(a.season, b.season);
      SeasonOrderIsNumeric(b.season, c.season);
      SeasonOrderIsNumeric(a.season, c.season);
    }
  }

  /** Rows the ORDER BY cannot tell apart agree on name, season and old path. */
  lemma EpisodeOrderTies(a: Episode, b: Episode)
    requires EpisodeLe(a, b) && EpisodeLe(b, a)
    ensures a.seriesName == b.seriesName && a.season == b.season && a.oldPath == b.oldPath
  {
    ShortlexTotalPreorder(a.seriesName, b.seriesName, b.seriesName);
    ShortlexTotalPreorder(a.oldPath, b.oldPath, b.oldPath);
    SeasonOrderIsNumeric(a.season, b.season);
    SeasonOrderIsNumeric(b.season, a.season);
  }

  lemma {:induction false} RowsOfCounts(rows: seq<Episode>, seriesName: string)
    ensures forall e :: multiset(RowsOf(rows, seriesName))[e] == if e.seriesName == seriesName then multiset(rows)[e] else 0
  {
    if rows != [] {
      RowsOfCounts(rows[..|rows| - 1], seriesName);
      assert rows == rows[..|rows| - 1] + [rows[|rows| - 1]];
    }
  }

  /** `select_all_episodes(s)` returns exactly the rows whose series name is `s`, each as often as the table holds it. */
  lemma EpisodesOfMembers(rows: seq<Episode>, seriesName: string)
    ensures forall e :: multiset(EpisodesOf(rows, seriesName))[e] == if e.seriesName == seriesName then multiset(rows)[e] else 0
    ensures forall e :: e in EpisodesOf(rows, seriesName) <==> e in rows && e.seriesName == seriesName
  {
    SortByPermutation(RowsOf(rows, seriesName), EpisodeLe);
    RowsOfCounts(rows, seriesName);
    forall e ensures e in EpisodesOf(rows, seriesName) <==> e in rows && e.seriesName == seriesName {
      assert e in EpisodesOf(rows, seriesName) <==> e in multiset(EpisodesOf(rows, seriesName));
      assert e in rows <==> e in multiset(rows);
    }
  }

  /** `select_all_episodes(s)` is in the ORDER BY order. */
  lemma EpisodesOfSorted(rows: seq<Episode>, seriesName: string)
    ensures Sorted(EpisodesOf(rows, seriesName), EpisodeLe)
  {
    EpisodeOrderIsTotalPreorder();
    SortBySorted(RowsOf(rows, seriesName), EpisodeLe);
  }

  /**
   * Because `old_path` is unique the ORDER BY is total on a show's rows: any
   * arrangement of them in that order is the query's result.
   */
  lemma EpisodesOfIsTheOnlyOrder(rows: seq<Episode>, seriesName: string, xs: seq<Episode>)
    requires UniquePaths(rows)
    requires multiset(xs) == multiset(RowsOf(rows, seriesName))
    requires Sorted(xs, EpisodeLe)
    ensures xs == EpisodesOf(rows, seriesName)
  {
    var ys := EpisodesOf(rows, seriesName);
    EpisodeOrderIsTotalPreorder();
    EpisodesOfSorted(rows, seriesName);
    SortByPermutation(RowsOf(rows, seriesName), EpisodeLe);
    forall i, j | 0 <= i < |xs| && 0 <= j < |xs| && EpisodeLe(xs[i], xs[j]) && EpisodeLe(xs[j], xs[i])
      ensures xs[i] == xs[j]
    {
      EpisodeOrderTies(xs[i], xs[j]);
      assert xs[i] in multiset(rows) by { RowsOfCounts(rows, seriesName); assert xs[i] in multiset(xs); }
      assert xs[j] in multiset(rows) by { RowsOfCounts(rows, seriesName); assert xs[j] in multiset(xs); }
      var p :| 0 <= p < |rows| && rows[p] == xs[i];
      var q :| 0 <= q < |rows| && rows[q] == xs[j];
    }
    SortedUnique(xs, ys, EpisodeLe);
  }

  /**
   * The result of `select_all_episodes` depends only on which rows the table
   * holds, not on the order they were inserted in.
   */
  lemma EpisodesOfIgnoresInsertionOrder(rows1: seq<Episode>, rows2: seq<Episode>, seriesName: string)
    requires UniquePaths(rows1)
    requires multiset(rows1) == multiset(rows2)
    ensures EpisodesOf(rows1, seriesName) == EpisodesOf(rows2, seriesName)
  {
    var xs := EpisodesOf(rows2, seriesName);
    EpisodesOfSorted(rows2, seriesName);
    SortByPermutation(RowsOf(rows2, seriesName), EpisodeLe);
    RowsOfCounts(rows1, seriesName);
    RowsOfCounts(rows2, seriesName);
    assert multiset(RowsOf(rows1, seriesName)) == multiset(RowsOf(rows2, seriesName));
    EpisodesOfIsTheOnlyOrder(rows1, seriesName, xs);
  }


  /**
   * On a table the UNIQUE constraints keep, `select_all_episodes` returns no
   * row twice, so the model's result is also what `SELECT DISTINCT` gives.
   */
  lemma EpisodesOfDistinct(rows: seq<Episode>, seriesName: string)
    requires UniquePaths(rows)
    ensures var xs := EpisodesOf(rows, seriesName);
      UniquePaths(xs) && forall i, j :: 0 <= i < j < |xs| ==> xs[i] != xs[j]
  {
    EpisodesOfMembers(rows, seriesName);
    var xs := EpisodesOf(rows, seriesName);
    assert multiset(xs) <= multiset(rows);
    UniquePathsPermuted(rows, xs);
  }

  lemma CountOfRepeated<T>(s: seq<T>, i: nat, j: nat)
    requires i < j < |s| && s[i] == s[j]
    ensures multiset(s)[s[i]] >= 2
  {
    assert s == s[..j] + [s[j]] + s[j + 1..];
    assert s[i] in s[..j];
  }

  /** Any rearrangement of some of a table's rows keeps the uniqueness of paths. */
  lemma UniquePathsPermuted(rows: seq<Episode>, es: seq<Episode>)
    requires UniquePaths(rows) && multiset(es) <= multiset(rows)
    ensures UniquePaths(es)
  {
    forall i, j | 0 <= i < |es| && 0 <= j < |es| && i != j
      ensures es[i].oldPath != es[j].oldPath && es[i].newPath != es[j].newPath
    {
      assert es[i] in multiset(rows) && es[j] in multiset(rows);
      var p :| 0 <= p < |rows| && rows[p] == es[i];
      var q :| 0 <= q < |rows| && rows[q] == es[j];
      if es[i] == es[j] {
        if i < j { CountOfRepeated(es, i, j); } else { CountOfRepeated(es, j, i); }
        assert rows[p] in multiset(rows);
        if forall k :: 0 <= k < |rows| && rows[k] == es[i] ==> k == p {
          SingleIndexCount(rows, p);
          assert false;
        }
      }
    }
  }

  lemma {:induction false} SingleIndexCount<T>(s: seq<T>, p: nat)
    requires p < |s|
    requires forall k :: 0 <= k < |s| && s[k] == s[p] ==> k == p
    ensures multiset(s)[s[p]] == 1
  {
    assert s == s[..p] + [s[p]] + s[p + 1..];
    assert s[p] !in s[..p] by {
      forall k | 0 <= k < p ensures s[..p][k] != s[p] { assert s[k] == s[..p][k]; }
    }
    var tail := s[p + 1..];
    assert s[p] !in tail by {
      forall x | x in tail ensures x != s[p] {
        var k :| 0 <= k < |tail| && tail[k] == x;
        assert s[p + 1 + k] == x;
      }
    }
  }
}
