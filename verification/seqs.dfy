/** The array operations the handlers use: `find`/`findIndex`, `filter` and `slice(0, n)`. */
module Seqs {

  /** Position of the first element satisfying `p`, or `|s|` when there is none
      (`findIndex` returns -1 there; `find` returns `undefined`). */
  function IndexWhere<T>(s: seq<T>, p: T -> bool): (k: nat)
    ensures k <= |s|
    ensures k < |s| ==> p(s[k])
    ensures forall j :: 0 <= j < k ==> !p(s[j])
  {
    if s == [] then 0
    else if p(s[0]) then 0
    else 1 + IndexWhere(s[1..], p)
  }

  /** Searching a concatenation finds the first hit of the first part, else one in the second part. */
  lemma {:induction false} IndexWhereAppend<T>(a: seq<T>, b: seq<T>, p: T -> bool)
    ensures IndexWhere(a + b, p) == if IndexWhere(a, p) < |a| then IndexWhere(a, p) else |a| + IndexWhere(b, p)
  {
    var k, ka, kb := IndexWhere(a + b, p), IndexWhere(a, p), IndexWhere(b, p);
    if ka < |a| {
      assert (a + b)[ka] == a[ka];
      assert forall j :: 0 <= j < ka ==> (a + b)[j] == a[j];
    } else {
      assert forall j :: 0 <= j < |a| ==> (a + b)[j] == a[j];
      assert forall j :: |a| <= j < |a| + kb ==> (a + b)[j] == b[j - |a|];
      if kb < |b| {
        assert (a + b)[|a| + kb] == b[kb];
      }
    }
  }

  /** `s.filter(p)`: the elements satisfying `p`, in their original order. */
  function Filter<T(!new)>(s: seq<T>, p: T -> bool): (r: seq<T>)
    ensures |r| <= |s|
    ensures forall x {:trigger x in r} :: x in r <==> x in s && p(x)
  {
    if s == [] then []
    else
      assert s == [s[0]] + s[1..];
      (if p(s[0]) then [s[0]] else []) + Filter(s[1..], p)
  }

  /** Filtering never adds an element or repeats one more often than `s` does. */
  lemma {:induction false} FilterSubMultiset<T(!new)>(s: seq<T>, p: T -> bool)
    ensures multiset(Filter(s, p)) <= multiset(s)
  {
    if s != [] {
      FilterHead(s, p);
      FilterSubMultiset(s[1..], p);
      assert s == [s[0]] + s[1..];
      assert multiset(s) == multiset([s[0]]) + multiset(s[1..]);
    }
  }

  /** `pos` grows strictly along `s`. */
  ghost predicate Increasing<T>(s: seq<T>, pos: T -> int)
  {
    forall i, j :: 0 <= i < j < |s| ==> pos(s[i]) < pos(s[j])
  }

  /** Filtering keeps the original order, so it keeps any strictly growing position. */
  lemma {:induction false} FilterIncreasing<T(!new)>(s: seq<T>, p: T -> bool, pos: T -> int)
    requires Increasing(s, pos)
    ensures Increasing(Filter(s, p), pos)
  {
    if s != [] {
      FilterIncreasing(s[1..], p, pos);
      var tail := Filter(s[1..], p);
      if p(s[0]) {
        forall y | y in tail ensures pos(s[0]) < pos(y) {
          var k :| 1 <= k < |s| && s[k] == y;
        }
        assert Filter(s, p) == [s[0]] + tail;
      } else {
        assert Filter(s, p) == tail;
      }
    }
  }

  /** A filter that every element passes changes nothing. */
  lemma {:induction false} FilterAll<T(!new)>(s: seq<T>, p: T -> bool)
    requires forall x :: x in s ==> p(x)
    ensures Filter(s, p) == s
  {
    if s != [] {
      assert forall x :: x in s[1..] ==> x in s;
      FilterAll(s[1..], p);
      assert p(s[0]);
      assert s == [s[0]] + s[1..];
    }
  }

  /** `s.slice(0, n)`: the first `n` elements, or all of them when there are fewer. */
  function Take<T>(s: seq<T>, n: nat): (r: seq<T>)
    ensures |r| == if n < |s| then n else |s|
    ensures forall i :: 0 <= i < |r| ==> r[i] == s[i]
  {
    if n < |s| then s[..n] else s
  }

  /** No two elements of `s` share a `key`. */
  ghost predicate DistinctBy<T, K>(s: seq<T>, key: T -> K)
  {
    forall i, j :: 0 <= i < j < |s| ==> key(s[i]) != key(s[j])
  }

  /** The keys of the elements of `s`. */
  ghost function KeySet<T, K>(s: seq<T>, key: T -> K): set<K>
  {
    set i | 0 <= i < |s| :: key(s[i])
  }

  /** A sequence of pairwise different keys has as many elements as it has keys. */
  lemma {:induction false} DistinctKeyCount<T, K>(s: seq<T>, key: T -> K)
    requires DistinctBy(s, key)
    ensures |KeySet(s, key)| == |s|
  {
    if s != [] {
      var n := |s| - 1;
      var init := s[..n];
      assert DistinctBy(init, key);
      DistinctKeyCount(init, key);
      var keys := KeySet(s, key);
      var initKeys := KeySet(init, key);
      assert keys == initKeys + {key(s[n])} by {
        forall x | x in keys ensures x in initKeys + {key(s[n])} {
          var i :| 0 <= i < |s| && key(s[i]) == x;
          if i < n { assert init[i] == s[i]; }
        }
        forall x | x in initKeys ensures x in keys {
          var i :| 0 <= i < n && key(init[i]) == x;
          assert s[i] == init[i];
        }
      }
      assert key(s[n]) !in initKeys by {
        forall x | x in initKeys ensures x != key(s[n]) {
          var i :| 0 <= i < n && key(init[i]) == x;
          assert init[i] == s[i];
        }
      }
      assert |keys| == |initKeys| + 1;
    }
  }

  /** Filtering a concatenation filters each part. */
  lemma {:induction false} FilterAppend<T(!new)>(a: seq<T>, b: seq<T>, p: T -> bool)
    ensures Filter(a + b, p) == Filter(a, p) + Filter(b, p)
  {
    if a != [] {
      var h := if p(a[0]) then [a[0]] else [];
      assert (a + b)[0] == a[0] && (a + b)[1..] == a[1..] + b;
      FilterHead(a + b, p);
      FilterHead(a, p);
      FilterAppend(a[1..], b, p);
      SeqAssoc(h, Filter(a[1..], p), Filter(b, p));
    } else {
      assert a + b == b;
    }
  }

  /** One step of the filter: the head, if it passes, then the filtered tail. */
  lemma FilterHead<T(!new)>(s: seq<T>, p: T -> bool)
    requires s != []
    ensures Filter(s, p) == (if p(s[0]) then [s[0]] else []) + Filter(s[1..], p)
  {
  }

  lemma SeqAssoc<T>(x: seq<T>, y: seq<T>, z: seq<T>)
    ensures x + (y + z) == (x + y) + z
  {
  }

  /** A filter that no element passes leaves nothing. */
  lemma {:induction false} FilterNone<T(!new)>(s: seq<T>, p: T -> bool)
    requires forall x :: x in s ==> !p(x)
    ensures Filter(s, p) == []
  {
    if s != [] {
      assert forall x :: x in s[1..] ==> x in s;
      FilterNone(s[1..], p);
    }
  }
}
