/** The two kinds of sorting the prediction tree relies on: the stable
    `sort_by` used to rank matched paths and predictions, and the
    `sort(); dedup()` idiom that turns a list into the ascending list of its
    distinct elements. Both are stated generically and instantiated by the
    callers. */
module Sorting {
  import opened Common

  /** Ascending by a numeric key. */
  predicate SortedBy<T>(xs: seq<T>, key: T -> real) {
    forall i, j :: 0 <= i < j < |xs| ==> key(xs[i]) <= key(xs[j])
  }

  /** Inserts `x` in front of the first element whose key is not smaller, so
      that `x` stays ahead of every element with the same key. */
  function Insert<T>(x: T, ys: seq<T>, key: T -> real): (r: seq<T>)
    ensures multiset(r) == multiset(ys) + multiset{x}
    ensures SortedBy(ys, key) ==> SortedBy(r, key)
  {
    if ys == [] || key(x) <= key(ys[0]) then
      LeadSorted(x, ys, key);
      [x] + ys
    else
      var rest := Insert(x, ys[1..], key);
      assert ys == [ys[0]] + ys[1..];
      assert multiset([ys[0]] + rest) == multiset{ys[0]} + multiset(rest);
      InsertBehind(x, ys, key, rest);
      [ys[0]] + rest
  }

  /** An element no greater than the head may lead a sorted list. */
  lemma LeadSorted<T>(x: T, ys: seq<T>, key: T -> real)
    requires ys == [] || key(x) <= key(ys[0])
    ensures SortedBy(ys, key) ==> SortedBy([x] + ys, key)
  {
    if SortedBy(ys, key) {
      forall z | z in ys ensures key(x) <= key(z) {
        var m :| 0 <= m < |ys| && ys[m] == z;
      }
      SortedCons(x, ys, key);
    }
  }

  /** The head stays in front when `x` goes further back. */
  lemma InsertBehind<T>(x: T, ys: seq<T>, key: T -> real, rest: seq<T>)
    requires ys != [] && key(ys[0]) < key(x)
    requires multiset(rest) == multiset(ys[1..]) + multiset{x}
    requires SortedBy(ys[1..], key) ==> SortedBy(rest, key)
    ensures SortedBy(ys, key) ==> SortedBy([ys[0]] + rest, key)
  {
    if SortedBy(ys, key) {
      forall z | z in rest ensures key(ys[0]) <= key(z) {
        assert z in multiset(rest);
        if z != x {
          var m :| 0 <= m < |ys[1..]| && ys[1..][m] == z;
          assert ys[m + 1] == z;
        }
      }
      assert SortedBy(ys[1..], key) by {
        forall i, j | 0 <= i < j < |ys[1..]| ensures key(ys[1..][i]) <= key(ys[1..][j]) {
          assert ys[1..][i] == ys[i + 1] && ys[1..][j] == ys[j + 1];
        }
      }
      SortedCons(ys[0], rest, key);
    }
  }

  /** `y` may lead a sorted list when its key is no greater than any of
      the list's keys. */
  lemma SortedCons<T>(y: T, rest: seq<T>, key: T -> real)
    requires SortedBy(rest, key) && forall z :: z in rest ==> key(y) <= key(z)
    ensures SortedBy([y] + rest, key)
  {
    var r := [y] + rest;
    forall i, j | 0 <= i < j < |r| ensures key(r[i]) <= key(r[j]) {
      assert r[j] == rest[j - 1] && r[j] in rest;
      if i > 0 {
        assert r[i] == rest[i - 1];
      }
    }
  }

  /** A stable sort, ascending by `key`: the model of `sort_by` with a
      comparator that compares keys. */
  function SortBy<T>(xs: seq<T>, key: T -> real): (r: seq<T>)
    ensures multiset(r) == multiset(xs)
    ensures |r| == |xs|
    ensures SortedBy(r, key)
  {
    if xs == [] then []
    else
      var rest := SortBy(xs[1..], key);
      assert xs == [xs[0]] + xs[1..];
      Insert(xs[0], rest, key)
  }

  /** The elements of `xs` whose key is `k`, in their order in `xs`. */
  function Class<T>(xs: seq<T>, key: T -> real, k: real): seq<T> {
    if xs == [] then [] else (if key(xs[0]) == k then [xs[0]] else []) + Class(xs[1..], key, k)
  }

  /** The key class of a list led by `y`. */
  lemma ClassCons<T>(y: T, ys: seq<T>, key: T -> real, k: real)
    ensures Class([y] + ys, key, k) == (if key(y) == k then [y] else []) + Class(ys, key, k)
  {
    assert ([y] + ys)[1..] == ys;
  }

  lemma {:induction false} ClassOfInsert<T>(x: T, ys: seq<T>, key: T -> real, k: real)
    ensures Class(Insert(x, ys, key), key, k) == (if key(x) == k then [x] else []) + Class(ys, key, k)
  {
    if ys == [] || key(x) <= key(ys[0]) {
      ClassCons(x, ys, key, k);
    } else {
      var rest := Insert(x, ys[1..], key);
      assert Insert(x, ys, key) == [ys[0]] + rest;
      ClassOfInsert(x, ys[1..], key, k);
      ClassBehind(ys[0], x, ys[1..], rest, key, k);
      assert [ys[0]] + ys[1..] == ys;
    }
  }

  /** An element `x` placed behind a smaller `y` joins `y`'s key class
      where it would have led it. */
  lemma ClassBehind<T>(y: T, x: T, tail: seq<T>, rest: seq<T>, key: T -> real, k: real)
    requires key(y) < key(x)
    requires Class(rest, key, k) == (if key(x) == k then [x] else []) + Class(tail, key, k)
    ensures Class([y] + rest, key, k) == (if key(x) == k then [x] else []) + Class([y] + tail, key, k)
  {
    ClassCons(y, rest, key, k);
    ClassCons(y, tail, key, k);
    var cx := if key(x) == k then [x] else [];
    var c0 := if key(y) == k then [y] else [];
    assert c0 == [] || cx == [];
    assert c0 + (cx + Class(tail, key, k)) == cx + (c0 + Class(tail, key, k));
  }

  /** Stability: sorting keeps the relative order of the elements that share
      a key. */
  lemma {:induction false} SortByIsStable<T>(xs: seq<T>, key: T -> real, k: real)
    ensures Class(SortBy(xs, key), key, k) == Class(xs, key, k)
  {
    if xs != [] {
      SortByIsStable(xs[1..], key, k);
      ClassOfInsert(xs[0], SortBy(xs[1..], key), key, k);
    }
  }

  /** Ascending by `major`, and by `minor` among elements with equal
      `major`. */
  predicate LexSorted<T>(xs: seq<T>, major: T -> real, minor: T -> real) {
    forall i, j :: 0 <= i < j < |xs| ==>
      major(xs[i]) <= major(xs[j]) && (major(xs[i]) == major(xs[j]) ==> minor(xs[i]) <= minor(xs[j]))
  }

  /** `y` may lead a lexicographically sorted list when it is no greater
      than any of its elements. */
  lemma LexCons<T>(y: T, rest: seq<T>, major: T -> real, minor: T -> real)
    requires LexSorted(rest, major, minor)
    requires forall z :: z in rest ==> major(y) <= major(z) && (major(y) == major(z) ==> minor(y) <= minor(z))
    ensures LexSorted([y] + rest, major, minor)
  {
    var r := [y] + rest;
    forall i, j | 0 <= i < j < |r|
      ensures major(r[i]) <= major(r[j]) && (major(r[i]) == major(r[j]) ==> minor(r[i]) <= minor(r[j]))
    {
      if i == 0 {
        assert r[j] == rest[j - 1];
      } else {
        assert r[i] == rest[i - 1] && r[j] == rest[j - 1];
      }
    }
  }

  lemma {:induction false} InsertLex<T>(x: T, ys: seq<T>, major: T -> real, minor: T -> real)
    requires LexSorted(ys, major, minor)
    requires forall y :: y in ys ==> minor(x) <= minor(y)
    ensures LexSorted(Insert(x, ys, major), major, minor)
  {
    if ys == [] || major(x) <= major(ys[0]) {
      forall z | z in ys ensures major(x) <= major(z) {
        var m :| 0 <= m < |ys| && ys[m] == z;
        assert major(ys[0]) <= major(ys[m]);
      }
      LexCons(x, ys, major, minor);
    } else {
      var rest := Insert(x, ys[1..], major);
      InsertLex(x, ys[1..], major, minor);
      forall z | z in rest
        ensures major(ys[0]) <= major(z) && (major(ys[0]) == major(z) ==> minor(ys[0]) <= minor(z))
      {
        assert z in multiset(rest);
        if z != x {
          var m :| 1 <= m < |ys| && ys[m] == z;
        }
      }
      LexCons(ys[0], rest, major, minor);
    }
  }

  /** Two stable sorts in a row: the second key becomes the primary one and
      the order left by the first sort breaks its ties. */
  lemma {:induction false} SecondSortIsPrimary<T>(xs: seq<T>, minor: T -> real, major: T -> real)
    requires SortedBy(xs, minor)
    ensures LexSorted(SortBy(xs, major), major, minor)
  {
    if xs != [] {
      var tail := xs[1..];
      assert SortedBy(tail, minor);
      SecondSortIsPrimary(tail, minor, major);
      var rest := SortBy(tail, major);
      forall y | y in rest ensures minor(xs[0]) <= minor(y) {
        assert y in multiset(tail);
        var m :| 0 <= m < |tail| && tail[m] == y;
        assert xs[m + 1] == y;
      }
      InsertLex(xs[0], rest, major, minor);
    }
  }

  /** A strict total order on `T`. */
  ghost predicate StrictTotalOrder<T(!new)>(less: (T, T) -> bool) {
    && (forall a :: !less(a, a))
    && (forall a, b, c :: less(a, b) && less(b, c) ==> less(a, c))
    && (forall a, b :: a == b || less(a, b) || less(b, a))
  }

  predicate StrictlyAscending<T>(xs: seq<T>, less: (T, T) -> bool) {
    forall i, j :: 0 <= i < j < |xs| ==> less(xs[i], xs[j])
  }

  /** Adds `x` to an ascending list of distinct elements. */
  function InsertUnique<T(==,!new)>(x: T, ys: seq<T>, less: (T, T) -> bool): (r: seq<T>)
    requires StrictTotalOrder(less)
    ensures forall z :: z in r <==> z in ys || z == x
    ensures StrictlyAscending(ys, less) ==> StrictlyAscending(r, less)
  {
    if ys == [] then [x]
    else if x == ys[0] then ys
    else if less(x, ys[0]) then
      var r := [x] + ys;
      assert StrictlyAscending(ys, less) ==> StrictlyAscending(r, less) by {
        if StrictlyAscending(ys, less) {
          forall i, j | 0 <= i < j < |r| ensures less(r[i], r[j]) {
            if i == 0 && j > 1 {
              assert less(ys[0], ys[j - 1]);
            }
          }
        }
      }
      r
    else
      var rest := InsertUnique(x, ys[1..], less);
      var r := [ys[0]] + rest;
      assert ys == [ys[0]] + ys[1..];
      assert StrictlyAscending(ys, less) ==> StrictlyAscending(r, less) by {
        if StrictlyAscending(ys, less) {
          forall i, j | 0 <= i < j < |r| ensures less(r[i], r[j]) {
            if i == 0 {
              assert r[j] == rest[j - 1];
              assert r[j] in rest;
              if r[j] != x {
                var m :| 0 <= m < |ys[1..]| && ys[1..][m] == r[j];
                assert ys[m + 1] == r[j];
              }
            } else {
              assert r[i] == rest[i - 1] && r[j] == rest[j - 1];
            }
          }
        }
      }
      r
  }

  /** `v.sort(); v.dedup()`: the distinct elements of `xs`, ascending. */
  function SortDedup<T(==,!new)>(xs: seq<T>, less: (T, T) -> bool): (r: seq<T>)
    requires StrictTotalOrder(less)
    ensures forall z :: z in r <==> z in xs
    ensures StrictlyAscending(r, less)
  {
    if xs == [] then []
    else
      assert xs == [xs[0]] + xs[1..];
      InsertUnique(xs[0], SortDedup(xs[1..], less), less)
  }

  /** There is one ascending list of distinct elements per set: whatever
      algorithm produced it, the output of `SortDedup` is determined by the
      set of elements alone. */
  lemma {:induction false} AscendingIsUnique<T(!new)>(a: seq<T>, b: seq<T>, less: (T, T) -> bool)
    requires StrictTotalOrder(less)
    requires StrictlyAscending(a, less) && StrictlyAscending(b, less)
    requires forall z :: z in a <==> z in b
    ensures a == b
  {
    if a != [] {
      assert a[0] in b;
    }
    if b != [] {
      assert b[0] in a;
    }
    if a != [] && b != [] {
      assert a[0] == b[0];
      forall z ensures z in a[1..] <==> z in b[1..] {
        if z in a[1..] {
          var i :| 0 <= i < |a[1..]| && a[1..][i] == z;
          assert less(a[0], a[i + 1]);
          assert z in b;
          var j :| 0 <= j < |b| && b[j] == z;
          assert j != 0;
          assert b[1..][j - 1] == z;
        }
        if z in b[1..] {
          var i :| 0 <= i < |b[1..]| && b[1..][i] == z;
          assert less(b[0], b[i + 1]);
          assert z in a;
          var j :| 0 <= j < |a| && a[j] == z;
          assert j != 0;
          assert a[1..][j - 1] == z;
        }
      }
      AscendingIsUnique(a[1..], b[1..], less);
    }
  }

  /** The order on machine words used by `sort()` on sequence ids. */
  lemma NatLessIsStrictTotalOrder()
    ensures StrictTotalOrder((a: nat, b: nat) => a < b)
  {
  }
}
