/** Python's stable `sorted`, for an order given as a comparison. */
module Sorting {

  ghost predicate WeakOrder<T(!new)>(less: (T, T) -> bool) {
    && (forall a, b :: less(a, b) ==> !less(b, a))
    && (forall a, b, c :: less(a, c) ==> less(a, b) || less(b, c))
  }

  ghost predicate Sorted<T>(s: seq<T>, less: (T, T) -> bool) {
    forall i, j | 0 <= i < j < |s| :: !less(s[j], s[i])
  }

  ghost predicate StrictlySorted<T>(s: seq<T>, less: (T, T) -> bool) {
    forall i, j | 0 <= i < j < |s| :: less(s[i], s[j])
  }

  /** Places `x` after every element it is not below. */
  function Insert<T>(x: T, s: seq<T>, less: (T, T) -> bool): (r: seq<T>)
    ensures |r| == |s| + 1
  {
    if s == [] || less(x, s[0]) then [x] + s else [s[0]] + Insert(x, s[1..], less)
  }

  function Sort<T>(s: seq<T>, less: (T, T) -> bool): (r: seq<T>)
    ensures |r| == |s|
  {
    if s == [] then [] else Insert(s[|s| - 1], Sort(s[..|s| - 1], less), less)
  }

  lemma {:induction false} InsertMultiset<T>(x: T, s: seq<T>, less: (T, T) -> bool)
    ensures multiset(Insert(x, s, less)) == multiset(s) + multiset{x}
  {
    if s != [] && !less(x, s[0]) {
      InsertMultiset(x, s[1..], less);
      assert s == [s[0]] + s[1..];
    }
  }

  lemma InsertMember<T>(x: T, s: seq<T>, less: (T, T) -> bool, i: nat)
    requires i <= |s|
    ensures Insert(x, s, less)[i] == x || Insert(x, s, less)[i] in s
  {
    InsertMultiset(x, s, less);
    var r := Insert(x, s, less);
    assert r[i] in multiset(r);
  }

  lemma {:induction false} InsertSorted<T(!new)>(x: T, s: seq<T>, less: (T, T) -> bool)
    requires WeakOrder(less) && Sorted(s, less)
    ensures Sorted(Insert(x, s, less), less)
  {
    if s == [] {
    } else if less(x, s[0]) {
      var h := s[0];
      forall k | 0 <= k < |s| ensures !less(s[k], x) {
        var y := s[k];
        assert less(x, h) ==> less(x, y) || less(y, h);
      }
    } else {
      var t := s[1..];
      InsertSorted(x, t, less);
      var u := Insert(x, t, less);
      forall k | 0 <= k < |u| ensures !less(u[k], s[0]) {
        InsertMember(x, t, less, k);
      }
    }
  }

  lemma {:induction false} SortCorrect<T(!new)>(s: seq<T>, less: (T, T) -> bool)
    requires WeakOrder(less)
    ensures Sorted(Sort(s, less), less) && multiset(Sort(s, less)) == multiset(s)
  {
    if s != [] {
      var front := s[..|s| - 1];
      SortCorrect(front, less);
      InsertSorted(s[|s| - 1], Sort(front, less), less);
      InsertMultiset(s[|s| - 1], Sort(front, less), less);
      assert s == front + [s[|s| - 1]];
    }
  }

  lemma SortMembers<T(!new)>(s: seq<T>, less: (T, T) -> bool, x: T)
    requires WeakOrder(less)
    ensures x in Sort(s, less) <==> x in s
  {
    SortCorrect(s, less);
    assert x in multiset(s) <==> x in s;
    assert x in multiset(Sort(s, less)) <==> x in Sort(s, less);
  }

  /** Two strictly sorted sequences with the same elements are equal. */
  lemma {:induction false} SortedUnique<T(!new)>(a: seq<T>, b: seq<T>, less: (T, T) -> bool)
    requires WeakOrder(less) && StrictlySorted(a, less) && StrictlySorted(b, less)
    requires forall x :: x in a <==> x in b
    ensures a == b
  {
    assert b != [] ==> b[0] in a;
    if a != [] {
      assert a[0] in b && b != [];
      assert b[0] in a;
      FirstIsLeast(a, b[0], less);
      FirstIsLeast(b, a[0], less);
      assert a[0] == b[0];
      assert a == [a[0]] + a[1..] && b == [b[0]] + b[1..];
      forall x ensures x in a[1..] <==> x in b[1..] {
        assert x in a <==> x == a[0] || x in a[1..];
        assert x in b <==> x == b[0] || x in b[1..];
        if x in a[1..] { assert less(a[0], x); }
        if x in b[1..] { assert less(b[0], x); }
      }
      SortedUnique(a[1..], b[1..], less);
    }
  }

  lemma FirstIsLeast<T(!new)>(a: seq<T>, x: T, less: (T, T) -> bool)
    requires StrictlySorted(a, less) && x in a
    ensures a[0] == x || less(a[0], x)
  {
  }

  /** Sorting distinct elements under a total comparison sorts strictly. */
  lemma {:induction false} SortStrict<T(!new)>(s: seq<T>, less: (T, T) -> bool)
    requires WeakOrder(less)
    requires forall i, j | 0 <= i < j < |s| :: less(s[i], s[j]) || less(s[j], s[i])
    ensures StrictlySorted(Sort(s, less), less)
  {
    SortCorrect(s, less);
    var r := Sort(s, less);
    DistinctBySize(s, less);
    forall i, j | 0 <= i < j < |r| ensures less(r[i], r[j]) {
      assert r[i] in multiset(r) && r[j] in multiset(r);
      assert r[i] in s && r[j] in s;
      TwiceInSeq(r, i, j);
      assert multiset(s)[r[i]] <= 1;
    }
  }

  lemma {:induction false} DistinctBySize<T(!new)>(s: seq<T>, less: (T, T) -> bool)
    requires WeakOrder(less)
    requires forall i, j | 0 <= i < j < |s| :: less(s[i], s[j]) || less(s[j], s[i])
    ensures forall x :: multiset(s)[x] <= 1
    ensures forall x, y | x in s && y in s && x != y :: less(x, y) || less(y, x)
  {
    if s != [] {
      var front := s[..|s| - 1];
      DistinctBySize(front, less);
      assert s == front + [s[|s| - 1]];
      assert s[|s| - 1] !in front;
    }
  }

  lemma TwiceInSeq<T>(s: seq<T>, i: nat, j: nat)
    requires i < j < |s|
    ensures s[i] == s[j] ==> multiset(s)[s[i]] >= 2
  {
    assert s == s[..i] + [s[i]] + s[i + 1..j] + [s[j]] + s[j + 1..];
  }

  function Filter<T>(s: seq<T>, keep: T -> bool): (r: seq<T>)
    ensures |r| <= |s|
  {
    if s == [] then [] else Filter(s[..|s| - 1], keep) + if keep(s[|s| - 1]) then [s[|s| - 1]] else []
  }

  lemma {:induction false} FilterMembers<T>(s: seq<T>, keep: T -> bool, x: T)
    ensures x in Filter(s, keep) <==> x in s && keep(x)
  {
    if s != [] {
      FilterMembers(s[..|s| - 1], keep, x);
      assert s == s[..|s| - 1] + [s[|s| - 1]];
    }
  }

  /** Each kept element as often as it was there. */
  lemma {:induction false} FilterCounts<T>(s: seq<T>, keep: T -> bool, x: T)
    ensures multiset(Filter(s, keep))[x] == if keep(x) then multiset(s)[x] else 0
  {
    if s != [] {
      FilterCounts(s[..|s| - 1], keep, x);
      assert s == s[..|s| - 1] + [s[|s| - 1]];
    }
  }

  /** What holds between any two elements in order holds between the kept ones. */
  lemma {:induction false} FilterPairs<T>(s: seq<T>, keep: T -> bool, related: (T, T) -> bool)
    requires forall i, j | 0 <= i < j < |s| :: related(s[i], s[j])
    ensures forall i, j | 0 <= i < j < |Filter(s, keep)| :: related(Filter(s, keep)[i], Filter(s, keep)[j])
  {
    if s != [] {
      var front, last := s[..|s| - 1], s[|s| - 1];
      FilterPairs(front, keep, related);
      var r, q := Filter(s, keep), Filter(front, keep);
      if keep(last) {
        assert r == q + [last];
        forall i | 0 <= i < |q| ensures related(q[i], last) {
          FilterMembers(front, keep, q[i]);
          var k :| 0 <= k < |front| && front[k] == q[i];
          assert s[k] == front[k];
        }
      } else {
        assert r == q;
      }
    }
  }

  lemma {:induction false} FilterTwice<T(!new)>(s: seq<T>, p: T -> bool, q: T -> bool, both: T -> bool)
    requires forall x :: both(x) <==> p(x) && q(x)
    ensures Filter(Filter(s, p), q) == Filter(s, both)
  {
    if s != [] {
      var front, last := s[..|s| - 1], s[|s| - 1];
      FilterTwice(front, p, q, both);
      if p(last) {
        var kept := Filter(front, p) + [last];
        assert kept[..|kept| - 1] == Filter(front, p) && kept[|kept| - 1] == last;
      } else {
        assert Filter(front, p) + [] == Filter(front, p);
      }
    }
  }

  lemma FilterSuffix<T>(s: seq<T>, keep: T -> bool, j: nat)
    requires j <= |s| && forall i | 0 <= i < |s| :: keep(s[i]) <==> j <= i
    ensures Filter(s, keep) == s[j..]
  {
    hide Filter;
    var a, b := s[..j], s[j..];
    assert s == a + b;
    FilterAppend(a, b, keep);
    FilterNone(a, keep);
    FilterAll(b, keep);
    assert [] + b == b;
  }

  lemma {:induction false} FilterNone<T>(s: seq<T>, keep: T -> bool)
    requires forall i | 0 <= i < |s| :: !keep(s[i])
    ensures Filter(s, keep) == []
  {
    if s != [] { FilterNone(s[..|s| - 1], keep); }
  }

  lemma {:induction false} FilterAll<T>(s: seq<T>, keep: T -> bool)
    requires forall i | 0 <= i < |s| :: keep(s[i])
    ensures Filter(s, keep) == s
  {
    if s != [] { FilterAll(s[..|s| - 1], keep); }
  }

  lemma {:induction false} FilterSame<T>(s: seq<T>, p: T -> bool, q: T -> bool)
    requires forall x | x in s :: p(x) == q(x)
    ensures Filter(s, p) == Filter(s, q)
  {
    if s != [] {
      FilterSame(s[..|s| - 1], p, q);
      assert s[|s| - 1] in s;
    }
  }

  lemma {:induction false} FilterFirst<T>(x: T, s: seq<T>, keep: T -> bool)
    ensures Filter([x] + s, keep) == (if keep(x) then [x] else []) + Filter(s, keep)
  {
    var all := [x] + s;
    if s == [] {
      assert all[..0] == [];
    } else {
      var front, last := s[..|s| - 1], s[|s| - 1];
      assert all[..|all| - 1] == [x] + front && all[|all| - 1] == last;
      FilterFirst(x, front, keep);
    }
  }

  lemma {:induction false} FilterAppend<T>(a: seq<T>, b: seq<T>, keep: T -> bool)
    ensures Filter(a + b, keep) == Filter(a, keep) + Filter(b, keep)
  {
    if b == [] {
      assert a + b == a;
    } else {
      var front, last := b[..|b| - 1], b[|b| - 1];
      assert (a + b)[..|a + b| - 1] == a + front && (a + b)[|a + b| - 1] == last;
      FilterAppend(a, front, keep);
    }
  }
}
