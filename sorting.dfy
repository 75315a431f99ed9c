/**
 * Sorting by a caller-supplied comparison, as `Vec::sort_by` does. The
 * comparison is a parameter `le(a, b)` ("a does not sort after b"); for the
 * natural-order comparison of file names it stands for
 * `natord::compare(a, b) != Greater`, whose internals are not modelled.
 * The sort itself is a stable insertion sort; only its contract matters.
 */
module Sorting {

  /** `le` is total (hence reflexive) and transitive on all values. */
  ghost predicate TotalPreorder<T(!new)>(le: (T, T) -> bool)
  {
    (forall a, b :: le(a, b) || le(b, a)) &&
    (forall a, b, c :: le(a, b) && le(b, c) ==> le(a, c))
  }

  predicate Sorted<T>(s: seq<T>, le: (T, T) -> bool)
  {
    forall i, j :: 0 <= i < j < |s| ==> le(s[i], s[j])
  }

  /** Puts `x` before the first element it does not sort after. */
  function Insert<T>(x: T, s: seq<T>, le: (T, T) -> bool): seq<T>
  {
    if s == [] then [x]
    else if le(x, s[0]) then [x] + s
    else [s[0]] + Insert(x, s[1..], le)
  }

  function SortBy<T>(s: seq<T>, le: (T, T) -> bool): seq<T>
  {
    if s == [] then [] else Insert(s[0], SortBy(s[1..], le), le)
  }

  lemma {:induction false} InsertPermutation<T>(x: T, s: seq<T>, le: (T, T) -> bool)
    ensures multiset(Insert(x, s, le)) == multiset{x} + multiset(s)
  {
    if s != [] && !le(x, s[0]) {
      InsertPermutation(x, s[1..], le);
      assert s == [s[0]] + s[1..];
    }
  }

  /** The sorted sequence holds exactly the input's elements, as often as the input. */
  lemma {:induction false} SortByPermutation<T>(s: seq<T>, le: (T, T) -> bool)
    ensures multiset(SortBy(s, le)) == multiset(s)
  {
    if s != [] {
      SortByPermutation(s[1..], le);
      InsertPermutation(s[0], SortBy(s[1..], le), le);
      assert s == [s[0]] + s[1..];
    }
  }

  lemma {:induction false} InsertSorted<T(!new)>(x: T, s: seq<T>, le: (T, T) -> bool)
    requires TotalPreorder(le)
    requires Sorted(s, le)
    ensures Sorted(Insert(x, s, le), le)
  {
    if s != [] && !le(x, s[0]) {
      InsertSorted(x, s[1..], le);
      InsertPermutation(x, s[1..], le);
      var r := Insert(x, s[1..], le);
      forall k | 0 <= k < |r| ensures le(s[0], r[k]) {
        assert r[k] in multiset(r);
        if r[k] != x {
          assert r[k] in multiset(s[1..]);
          var j :| 0 <= j < |s[1..]| && s[1..][j] == r[k];
          assert s[j + 1] == r[k];
        }
      }
    }
  }

  /** With a total preorder the result is sorted. */
  lemma {:induction false} SortBySorted<T(!new)>(s: seq<T>, le: (T, T) -> bool)
    requires TotalPreorder(le)
    ensures Sorted(SortBy(s, le), le)
  {
    if s != [] {
      SortBySorted(s[1..], le);
      InsertSorted(s[0], SortBy(s[1..], le), le);
    }
  }

  /** An already sorted input comes back unchanged (the sort is stable). */
  lemma {:induction false} SortBySortedIsIdentity<T>(s: seq<T>, le: (T, T) -> bool)
    requires Sorted(s, le)
    ensures SortBy(s, le) == s
  {
    if s != [] {
      assert Sorted(s[1..], le);
      SortBySortedIsIdentity(s[1..], le);
      assert s == [s[0]] + s[1..];
    }
  }

  /** `le` relates no two distinct elements of `s` in both directions. */
  ghost predicate AntisymmetricOn<T>(s: seq<T>, le: (T, T) -> bool)
  {
    forall i, j :: 0 <= i < |s| && 0 <= j < |s| && le(s[i], s[j]) && le(s[j], s[i]) ==> s[i] == s[j]
  }

  lemma TailOfSorted<T>(s: seq<T>, le: (T, T) -> bool)
    requires s != [] && Sorted(s, le)
    ensures Sorted(s[1..], le) && s == [s[0]] + s[1..]
  {
  }

  lemma AntisymmetricTail<T>(s: seq<T>, le: (T, T) -> bool)
    requires s != [] && AntisymmetricOn(s, le)
    ensures AntisymmetricOn(s[1..], le)
  {
    var t := s[1..];
    forall a, b | 0 <= a < |t| && 0 <= b < |t| && le(t[a], t[b]) && le(t[b], t[a])
      ensures t[a] == t[b]
    {
      assert t[a] == s[a + 1] && t[b] == s[b + 1];
    }
  }

  lemma MultisetTail<T>(s: seq<T>)
    requires s != []
    ensures multiset(s[1..]) == multiset(s) - multiset{s[0]}
  {
    assert s == [s[0]] + s[1..];
  }

  lemma {:induction false} SortedHeadsAgree<T(!new)>(xs: seq<T>, ys: seq<T>, le: (T, T) -> bool)
    requires TotalPreorder(le)
    requires xs != [] && multiset(xs) == multiset(ys)
    requires Sorted(xs, le) && Sorted(ys, le)
    requires AntisymmetricOn(xs, le)
    ensures ys != [] && xs[0] == ys[0]
  {
    assert xs[0] in multiset(ys);
    var j :| 0 <= j < |ys| && ys[j] == xs[0];
    assert le(ys[0], xs[0]) by { if j > 0 { assert le(ys[0], ys[j]); } }
    assert ys[0] in multiset(xs);
    var i :| 0 <= i < |xs| && xs[i] == ys[0];
    assert le(xs[0], xs[i]) by { if i > 0 { assert le(xs[0], xs[i]); } }
  }

  /**
   * When `le` is antisymmetric on the elements, there is only one sorted
   * arrangement of them: the order is determined by the multiset alone.
   */
  lemma {:induction false} SortedUnique<T(!new)>(xs: seq<T>, ys: seq<T>, le: (T, T) -> bool)
    requires TotalPreorder(le)
    requires multiset(xs) == multiset(ys)
    requires Sorted(xs, le) && Sorted(ys, le)
    requires AntisymmetricOn(xs, le)
    ensures xs == ys
  {
    assert |xs| == |multiset(xs)| == |ys|;
    if xs != [] {
      SortedHeadsAgree(xs, ys, le);
      MultisetTail(xs);
      MultisetTail(ys);
      var xt, yt := xs[1..], ys[1..];
      TailOfSorted(xs, le);
      TailOfSorted(ys, le);
      AntisymmetricTail(xs, le);
      SortedUnique(xt, yt, le);
    }
  }
}
