/** The query operators the repository composes (`Where`, `OrderByDescending`, `Select`,
    `FirstOrDefault`), as functions over sequences. A database table is a sequence of
    records in the order the store yields them. */
module Sequences {
  import opened Wrappers

  /** `s` is ordered by `key`, largest first. */
  ghost predicate SortedDesc<T>(s: seq<T>, key: T -> int) {
    forall i, j :: 0 <= i < j < |s| ==> key(s[i]) >= key(s[j])
  }

  /** `Where(p)`: the elements of `s` that satisfy `p`, in their original order. */
  function Filter<T(!new)>(s: seq<T>, p: T -> bool): (r: seq<T>)
    ensures |r| <= |s|
    ensures forall x :: x in r <==> x in s && p(x)
  {
    if s == [] then []
    else if p(s[0]) then [s[0]] + Filter(s[1..], p)
    else Filter(s[1..], p)
  }

  /** `Where(p)` keeps every satisfying element exactly as often as it occurs in `s` and drops
      every other element. */
  lemma {:induction false} FilterMultiset<T(!new)>(s: seq<T>, p: T -> bool)
    ensures forall x :: multiset(Filter(s, p))[x] == if p(x) then multiset(s)[x] else 0
  {
    if s != [] {
      FilterMultiset(s[1..], p);
      assert s == [s[0]] + s[1..];
    }
  }

  /** Puts `x` in front of the first element of `t` whose key is not larger than its own. */
  function Insert<T>(x: T, t: seq<T>, key: T -> int): (r: seq<T>)
    ensures multiset(r) == multiset(t) + multiset{x}
  {
    if t == [] || key(x) >= key(t[0]) then [x] + t
    else
      assert t == [t[0]] + t[1..];
      [t[0]] + Insert(x, t[1..], key)
  }

  /** Inserting into a sequence in descending order keeps it in descending order. */
  lemma {:induction false} InsertKeepsSorted<T>(x: T, t: seq<T>, key: T -> int)
    requires SortedDesc(t, key)
    ensures SortedDesc(Insert(x, t, key), key)
  {
    if t != [] && key(x) < key(t[0]) {
      var rest := Insert(x, t[1..], key);
      InsertKeepsSorted(x, t[1..], key);
      forall y | y in rest ensures key(y) <= key(t[0]) {
        assert multiset(rest)[y] > 0;
        if y != x {
          assert multiset(t[1..])[y] > 0;
          var k :| 0 <= k < |t[1..]| && t[1..][k] == y;
          assert t[k + 1] == y;
        }
      }
      var r := [t[0]] + rest;
      forall i, j | 0 <= i < j < |r| ensures key(r[i]) >= key(r[j]) {
        assert r[j] == rest[j - 1] && r[j] in rest;
        if i > 0 {
          assert r[i] == rest[i - 1];
        }
      }
    }
  }

  /** `OrderByDescending(key)`: a permutation of `s` ordered by `key`, largest first. */
  function SortDesc<T>(s: seq<T>, key: T -> int): (r: seq<T>)
    ensures SortedDesc(r, key)
    ensures multiset(r) == multiset(s)
  {
    if s == [] then []
    else
      assert s == [s[0]] + s[1..];
      var rest := SortDesc(s[1..], key);
      InsertKeepsSorted(s[0], rest, key);
      Insert(s[0], rest, key)
  }

  /** Sorting neither adds nor drops an element. */
  lemma SortDescMembers<T>(s: seq<T>, key: T -> int)
    ensures forall x :: x in SortDesc(s, key) <==> x in s
  {
    var r := SortDesc(s, key);
    forall x ensures x in r <==> x in s {
      assert x in r <==> multiset(r)[x] > 0;
      assert x in s <==> multiset(s)[x] > 0;
    }
  }

  /** `Select(f)`: `f` applied to every element, in order. */
  function Select<T, U>(s: seq<T>, f: T -> U): (r: seq<U>)
    ensures |r| == |s|
    ensures forall i :: 0 <= i < |s| ==> r[i] == f(s[i])
  {
    if s == [] then [] else [f(s[0])] + Select(s[1..], f)
  }

  /** `Where(p).Select(f)` holds exactly the images under `f` of the elements satisfying `p`. */
  lemma SelectOfFilter<T(!new), U>(s: seq<T>, p: T -> bool, f: T -> U)
    ensures forall y :: y in Select(Filter(s, p), f) <==> exists i :: 0 <= i < |s| && p(s[i]) && f(s[i]) == y
  {
    var kept := Filter(s, p);
    var images := Select(kept, f);
    forall y ensures y in images <==> exists i :: 0 <= i < |s| && p(s[i]) && f(s[i]) == y {
      if y in images {
        var k :| 0 <= k < |images| && images[k] == y;
        assert kept[k] in kept;
        var i :| 0 <= i < |s| && s[i] == kept[k];
      }
      if exists i :: 0 <= i < |s| && p(s[i]) && f(s[i]) == y {
        var i :| 0 <= i < |s| && p(s[i]) && f(s[i]) == y;
        assert s[i] in kept;
        var k :| 0 <= k < |kept| && kept[k] == s[i];
        assert images[k] == y;
      }
    }
  }

  /** `FirstOrDefault(p)`: the first element satisfying `p`, or `None` when there is none. */
  function FirstWhere<T>(s: seq<T>, p: T -> bool): (r: Option<T>)
    ensures r.None? <==> forall i :: 0 <= i < |s| ==> !p(s[i])
    ensures r.Some? ==> exists i :: 0 <= i < |s| && s[i] == r.value && p(s[i]) &&
                                    forall j :: 0 <= j < i ==> !p(s[j])
  {
    if s == [] then None
    else if p(s[0]) then Some(s[0])
    else
      var r := FirstWhere(s[1..], p);
      assert r.Some? ==> exists i :: 0 <= i < |s[1..]| && s[1..][i] == r.value && p(s[1..][i]) &&
                                     forall j :: 0 <= j < i ==> !p(s[1..][j]);
      r
  }

  /** Filtering keeps the relative order of the elements, so it keeps a descending order. */
  lemma {:induction false} FilterKeepsSorted<T(!new)>(s: seq<T>, p: T -> bool, key: T -> int)
    requires SortedDesc(s, key)
    ensures SortedDesc(Filter(s, p), key)
  {
    if s != [] {
      FilterKeepsSorted(s[1..], p, key);
      var rest := Filter(s[1..], p);
      if p(s[0]) {
        forall y | y in rest ensures key(y) <= key(s[0]) {
          assert y in s[1..];
          var k :| 0 <= k < |s[1..]| && s[1..][k] == y;
          assert s[k + 1] == y;
        }
        var r := [s[0]] + rest;
        forall i, j | 0 <= i < j < |r| ensures key(r[i]) >= key(r[j]) {
          assert r[j] == rest[j - 1] && r[j] in rest;
          if i > 0 {
            assert r[i] == rest[i - 1];
          }
        }
      }
    }
  }

  /** Filtering twice by the same predicate is filtering once. */
  lemma {:induction false} FilterIdempotent<T(!new)>(s: seq<T>, p: T -> bool)
    ensures Filter(Filter(s, p), p) == Filter(s, p)
  {
    if s != [] {
      FilterIdempotent(s[1..], p);
      var once := Filter(s[1..], p);
      if p(s[0]) {
        var r := [s[0]] + once;
        assert r[0] == s[0] && r[1..] == once;
        assert Filter(r, p) == [s[0]] + Filter(once, p);
      }
    }
  }

  /** Filters by predicates that agree on every element of `s` give the same sequence. */
  lemma {:induction false} FilterAgreeing<T(!new)>(s: seq<T>, p: T -> bool, q: T -> bool)
    requires forall i :: 0 <= i < |s| ==> p(s[i]) == q(s[i])
    ensures Filter(s, p) == Filter(s, q)
  {
    if s != [] {
      FilterAgreeing(s[1..], p, q);
    }
  }

  /** Sorting a sequence that is already in order leaves it as it is: the sort is stable. */
  lemma {:induction false} SortDescOfSorted<T>(s: seq<T>, key: T -> int)
    requires SortedDesc(s, key)
    ensures SortDesc(s, key) == s
  {
    if s != [] {
      SortDescOfSorted(s[1..], key);
      assert s == [s[0]] + s[1..];
    }
  }

  /** `Where(p).FirstOrDefault(q)` is `FirstOrDefault` of both conditions together. */
  lemma {:induction false} FilterThenFirst<T(!new)>(s: seq<T>, p: T -> bool, q: T -> bool)
    ensures FirstWhere(Filter(s, p), q) == FirstWhere(s, x => p(x) && q(x))
  {
    if s != [] {
      FilterThenFirst(s[1..], p, q);
      var rest := Filter(s[1..], p);
      if p(s[0]) {
        var r := [s[0]] + rest;
        assert r[0] == s[0] && r[1..] == rest;
        assert FirstWhere(r, q) == if q(s[0]) then Some(s[0]) else FirstWhere(rest, q);
      }
    }
  }
}
