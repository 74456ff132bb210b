/** `Array.prototype.sort` with a comparator, which JavaScript requires to be stable.
    The comparator is given as `less(a, b)`: "the comparator returns a negative number for (a, b)". */
module Sorting {
  import opened Seqs

  /** What a consistent comparator provides: `less` is asymmetric and "not less" is transitive. */
  ghost predicate StrictWeakOrder<T(!new)>(less: (T, T) -> bool)
  {
    (forall a, b :: less(a, b) ==> !less(b, a)) &&
    (forall a, b, c :: !less(a, b) && !less(b, c) ==> !less(a, c))
  }

  /** No element is strictly less than one placed before it. */
  ghost predicate Sorted<T>(s: seq<T>, less: (T, T) -> bool)
  {
    forall i, j :: 0 <= i < j < |s| ==> !less(s[j], s[i])
  }

  /** Elements the comparator cannot tell apart (it returns 0 both ways) keep the order of `pos`. */
  ghost predicate TiesOrdered<T>(s: seq<T>, less: (T, T) -> bool, pos: T -> int)
  {
    forall i, j :: 0 <= i < j < |s| && !less(s[i], s[j]) && !less(s[j], s[i]) ==> pos(s[i]) < pos(s[j])
  }

  /** Places `x` in front of the first element of `s` that is not less than it. */
  function Insert<T>(x: T, s: seq<T>, less: (T, T) -> bool): (r: seq<T>)
    ensures multiset(r) == multiset(s) + multiset{x}
    ensures |r| == |s| + 1
  {
    if s == [] then [x]
    else if less(s[0], x) then
      assert s == [s[0]] + s[1..];
      [s[0]] + Insert(x, s[1..], less)
    else [x] + s
  }

  /** A stable sort, by insertion. */
  function SortBy<T>(s: seq<T>, less: (T, T) -> bool): (r: seq<T>)
    ensures multiset(r) == multiset(s)
    ensures |r| == |s|
  {
    if s == [] then []
    else
      assert s == [s[0]] + s[1..];
      Insert(s[0], SortBy(s[1..], less), less)
  }

  lemma SortedCons<T>(h: T, t: seq<T>, less: (T, T) -> bool)
    requires Sorted(t, less)
    requires forall y :: y in t ==> !less(y, h)
    ensures Sorted([h] + t, less)
  {
    var s := [h] + t;
    forall i, j | 0 <= i < j < |s| ensures !less(s[j], s[i]) {
      assert s[j] == t[j - 1];
      if i > 0 { assert s[i] == t[i - 1]; }
    }
  }

  lemma {:induction false} InsertSorted<T(!new)>(x: T, s: seq<T>, less: (T, T) -> bool)
    requires StrictWeakOrder(less) && Sorted(s, less)
    ensures Sorted(Insert(x, s, less), less)
  {
    if s == [] {
    } else if less(s[0], x) {
      var t := Insert(x, s[1..], less);
      InsertSorted(x, s[1..], less);
      forall y | y in t ensures !less(y, s[0]) {
        assert y in multiset(t);
        if y != x {
          assert y in s[1..];
          var k :| 0 <= k < |s[1..]| && s[1..][k] == y;
          assert s[k + 1] == y;
        }
      }
      SortedCons(s[0], t, less);
    } else {
      forall y | y in s ensures !less(y, x) {
        var k :| 0 <= k < |s| && s[k] == y;
        assert !less(s[k], s[0]);
      }
      SortedCons(x, s, less);
    }
  }

  /** The result of `SortBy` is in order. */
  lemma {:induction false} SortBySorted<T(!new)>(s: seq<T>, less: (T, T) -> bool)
    requires StrictWeakOrder(less)
    ensures Sorted(SortBy(s, less), less)
  {
    if s != [] {
      SortBySorted(s[1..], less);
      InsertSorted(s[0], SortBy(s[1..], less), less);
    }
  }

  lemma TiesOrderedCons<T>(h: T, t: seq<T>, less: (T, T) -> bool, pos: T -> int)
    requires TiesOrdered(t, less, pos)
    requires forall y :: y in t && !less(h, y) && !less(y, h) ==> pos(h) < pos(y)
    ensures TiesOrdered([h] + t, less, pos)
  {
    var s := [h] + t;
    forall i, j | 0 <= i < j < |s| && !less(s[i], s[j]) && !less(s[j], s[i]) ensures pos(s[i]) < pos(s[j]) {
      assert s[j] == t[j - 1];
      if i > 0 { assert s[i] == t[i - 1]; }
    }
  }

  lemma {:induction false} InsertTiesOrdered<T>(x: T, s: seq<T>, less: (T, T) -> bool, pos: T -> int)
    requires TiesOrdered(s, less, pos)
    requires forall y :: y in s ==> pos(x) < pos(y)
    ensures TiesOrdered(Insert(x, s, less), less, pos)
  {
    if s == [] {
    } else if less(s[0], x) {
      var t := Insert(x, s[1..], less);
      assert TiesOrdered(s[1..], less, pos) by {
        forall i, j | 0 <= i < j < |s[1..]| ensures s[1..][i] == s[i + 1] && s[1..][j] == s[j + 1] { }
      }
      InsertTiesOrdered(x, s[1..], less, pos);
      forall y | y in t && !less(s[0], y) && !less(y, s[0]) ensures pos(s[0]) < pos(y) {
        assert y in multiset(t);
        if y != x {
          assert y in s[1..];
          var k :| 0 <= k < |s[1..]| && s[1..][k] == y;
          assert s[k + 1] == y;
        }
      }
      TiesOrderedCons(s[0], t, less, pos);
    } else {
      TiesOrderedCons(x, s, less, pos);
    }
  }

  /** The sort is stable: elements that compare equal keep their order of appearance, here
      measured by any `pos` that grows along the input. */
  lemma {:induction false} SortByStable<T>(s: seq<T>, less: (T, T) -> bool, pos: T -> int)
    requires Increasing(s, pos)
    ensures TiesOrdered(SortBy(s, less), less, pos)
  {
    if s != [] {
      var t := SortBy(s[1..], less);
      assert Increasing(s[1..], pos) by {
        forall i, j | 0 <= i < j < |s[1..]| ensures s[1..][i] == s[i + 1] && s[1..][j] == s[j + 1] { }
      }
      SortByStable(s[1..], less, pos);
      forall y | y in t ensures pos(s[0]) < pos(y) {
        assert y in multiset(t);
        assert y in s[1..];
        var k :| 0 <= k < |s[1..]| && s[1..][k] == y;
        assert s[k + 1] == y;
      }
      InsertTiesOrdered(s[0], t, less, pos);
    }
  }

  /** Sorting a sequence that is already in order changes nothing. */
  lemma {:induction false} SortBySortedInput<T>(s: seq<T>, less: (T, T) -> bool)
    requires Sorted(s, less)
    ensures SortBy(s, less) == s
  {
    if s != [] {
      assert Sorted(s[1..], less) by {
        forall i, j | 0 <= i < j < |s[1..]| ensures s[1..][i] == s[i + 1] && s[1..][j] == s[j + 1] { }
      }
      SortBySortedInput(s[1..], less);
      if |s| > 1 {
        assert !less(s[1..][0], s[0]);
      }
      assert s == [s[0]] + s[1..];
    }
  }

  /** Keys that no two elements share stay distinct after sorting. */
  lemma {:induction false} InsertDistinct<T, K>(x: T, s: seq<T>, less: (T, T) -> bool, key: T -> K)
    requires DistinctBy(s, key)
    requires forall y :: y in s ==> key(y) != key(x)
    ensures DistinctBy(Insert(x, s, less), key)
  {
    if s == [] {
    } else if less(s[0], x) {
      var t := Insert(x, s[1..], less);
      assert DistinctBy(s[1..], key) by {
        forall i, j | 0 <= i < j < |s[1..]| ensures s[1..][i] == s[i + 1] && s[1..][j] == s[j + 1] { }
      }
      InsertDistinct(x, s[1..], less, key);
      var r := [s[0]] + t;
      forall i, j | 0 <= i < j < |r| ensures key(r[i]) != key(r[j]) {
        if i == 0 {
          var y := r[j];
          assert y == t[j - 1] && y in multiset(t);
          if y != x {
            assert y in s[1..];
            var k :| 0 <= k < |s[1..]| && s[1..][k] == y;
            assert s[k + 1] == y;
          }
        } else {
          assert r[i] == t[i - 1] && r[j] == t[j - 1];
        }
      }
    } else {
      var r := [x] + s;
      forall i, j | 0 <= i < j < |r| ensures key(r[i]) != key(r[j]) {
        assert r[j] == s[j - 1];
        if i > 0 { assert r[i] == s[i - 1]; }
      }
    }
  }

  lemma {:induction false} SortByDistinct<T, K>(s: seq<T>, less: (T, T) -> bool, key: T -> K)
    requires DistinctBy(s, key)
    ensures DistinctBy(SortBy(s, less), key)
  {
    if s != [] {
      assert DistinctBy(s[1..], key) by {
        forall i, j | 0 <= i < j < |s[1..]| ensures s[1..][i] == s[i + 1] && s[1..][j] == s[j + 1] { }
      }
      SortByDistinct(s[1..], less, key);
      var t := SortBy(s[1..], less);
      forall y | y in t ensures key(y) != key(s[0]) {
        assert y in multiset(t);
        assert y in s[1..];
        var k :| 0 <= k < |s[1..]| && s[1..][k] == y;
        assert s[k + 1] == y;
      }
      InsertDistinct(s[0], t, less, key);
    }
  }

  /** Sorting keeps the same elements. */
  lemma SortByMembers<T>(s: seq<T>, less: (T, T) -> bool)
    ensures forall x :: x in SortBy(s, less) <==> x in s
  {
    var r := SortBy(s, less);
    forall x ensures x in r <==> x in s {
      assert x in r <==> x in multiset(r);
      assert x in s <==> x in multiset(s);
    }
  }
}
