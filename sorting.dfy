/** Sorting by a comparator, on values. The backend sorts vectors in place with `sort_by`;
    here a sort is a function from a sequence to a sequence, insertion-based, and its two
    promises are that the result is a permutation of the input and, for a comparator that is a
    strict order, that no element is strictly before an earlier one. */
module Sorting {

  /** `less` is irreflexive and transitive. */
  ghost predicate StrictOrder<T(!new)>(less: (T, T) -> bool) {
    (forall a :: !less(a, a))
    && (forall a, b, c :: less(a, b) && less(b, c) ==> less(a, c))
  }

  /** No element is strictly less than an element before it. */
  predicate SortedBy<T>(s: seq<T>, less: (T, T) -> bool) {
    forall i, j :: 0 <= i < j < |s| ==> !less(s[j], s[i])
  }

  /** Inserts `x` before the first element it is strictly less than, that is after every
      element equivalent to it. */
  function Insert<T>(x: T, s: seq<T>, less: (T, T) -> bool): (r: seq<T>)
    ensures multiset(r) == multiset(s) + multiset{x}
    decreases |s|
  {
    if s == [] || less(x, s[0]) then [x] + s
    else
      assert s == [s[0]] + s[1..];
      [s[0]] + Insert(x, s[1..], less)
  }

  lemma {:induction false} InsertSorted<T(!new)>(x: T, s: seq<T>, less: (T, T) -> bool)
    ensures StrictOrder(less) && SortedBy(s, less) ==> SortedBy(Insert(x, s, less), less)
    decreases |s|
  {
    if StrictOrder(less) && SortedBy(s, less) && s != [] {
      var r := Insert(x, s, less);
      if less(x, s[0]) {
        forall j | 1 <= j < |r|
          ensures !less(r[j], x)
        {
          assert r[j] == s[j - 1];
        }
      } else {
        assert SortedBy(s[1..], less);
        InsertSorted(x, s[1..], less);
        var t := Insert(x, s[1..], less);
        forall j | 0 <= j < |t|
          ensures !less(t[j], s[0])
        {
          assert t[j] in multiset(t);
          if t[j] != x {
            assert t[j] in multiset(s[1..]);
            var k :| 0 <= k < |s[1..]| && s[1..][k] == t[j];
            assert s[k + 1] == t[j];
          }
        }
        assert r == [s[0]] + t;
      }
    }
  }

  /** The sequence sorted by `less`: a permutation of `s`, and sorted when `less` is a strict
      order. */
  function SortBy<T(!new)>(s: seq<T>, less: (T, T) -> bool): (r: seq<T>)
    ensures multiset(r) == multiset(s)
    ensures StrictOrder(less) ==> SortedBy(r, less)
    decreases |s|
  {
    if s == [] then []
    else
      var front := SortBy(s[..|s| - 1], less);
      InsertSorted(s[|s| - 1], front, less);
      assert s == s[..|s| - 1] + [s[|s| - 1]];
      Insert(s[|s| - 1], front, less)
  }
}
