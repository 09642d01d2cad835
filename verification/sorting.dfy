/**
 * `Array.prototype.sort(compare)` as a stable sort: an element is placed
 * after every element already placed that does not compare greater.  For a
 * comparator that is a total preorder this is the one stable sorted order;
 * for any comparator it is a permutation of the input.
 */
module Sorting {

  /** Insert `x` before the first element of `s` that `x` compares below. */
  function Insert<T>(x: T, s: seq<T>, cmp: (T, T) -> int): (r: seq<T>)
    ensures multiset(r) == multiset(s) + multiset{x}
    ensures |r| == |s| + 1
  {
    if |s| == 0 then [x]
    else if cmp(x, s[0]) < 0 then [x] + s
    else
      assert s == [s[0]] + s[1..];
      [s[0]] + Insert(x, s[1..], cmp)
  }

  /** The sort, taking the input's elements in order. */
  function Sort<T>(xs: seq<T>, cmp: (T, T) -> int): (r: seq<T>)
    ensures multiset(r) == multiset(xs)
    ensures |r| == |xs|
  {
    if |xs| == 0 then []
    else
      assert xs == xs[..|xs| - 1] + [xs[|xs| - 1]];
      Insert(xs[|xs| - 1], Sort(xs[..|xs| - 1], cmp), cmp)
  }

  /** `cmp` orders its type totally, ties allowed, and answers consistently both ways round. */
  ghost predicate TotalPreorder<T(!new)>(cmp: (T, T) -> int) {
    (forall a, b :: cmp(a, b) < 0 <==> cmp(b, a) > 0)
    && (forall a, b, c :: cmp(a, b) <= 0 && cmp(b, c) <= 0 ==> cmp(a, c) <= 0)
  }

  /** Every element compares at most equal to every later one. */
  ghost predicate Sorted<T>(s: seq<T>, cmp: (T, T) -> int) {
    forall i, j :: 0 <= i < j < |s| ==> cmp(s[i], s[j]) <= 0
  }

  lemma {:induction false} InsertSorted<T(!new)>(x: T, s: seq<T>, cmp: (T, T) -> int)
    requires TotalPreorder(cmp) && Sorted(s, cmp)
    ensures Sorted(Insert(x, s, cmp), cmp)
  {
    if |s| > 0 && cmp(x, s[0]) >= 0 {
      InsertSorted(x, s[1..], cmp);
      var r := Insert(x, s, cmp);
      forall j | 0 < j < |r| ensures cmp(r[0], r[j]) <= 0 {
        assert r[j] in multiset(s[1..]) + multiset{x} by {
          assert r[j] in multiset(Insert(x, s[1..], cmp));
        }
        if r[j] != x {
          var k :| 0 <= k < |s[1..]| && s[1..][k] == r[j];
          assert cmp(s[0], s[k + 1]) <= 0;
        }
      }
    }
  }

  /** Under a total preorder the result is sorted. */
  lemma {:induction false} SortSorted<T(!new)>(xs: seq<T>, cmp: (T, T) -> int)
    requires TotalPreorder(cmp)
    ensures Sorted(Sort(xs, cmp), cmp)
  {
    if |xs| > 0 {
      SortSorted(xs[..|xs| - 1], cmp);
      InsertSorted(xs[|xs| - 1], Sort(xs[..|xs| - 1], cmp), cmp);
    }
  }

  /** No element without `p` comes before an element with `p`. */
  ghost predicate Partitioned<T>(s: seq<T>, p: T -> bool) {
    forall i, j :: 0 <= i < j < |s| && p(s[j]) ==> p(s[i])
  }

  /** `cmp` ranks every element with `p` below every element without it. */
  ghost predicate RanksFirst<T(!new)>(cmp: (T, T) -> int, p: T -> bool) {
    forall a, b :: p(a) && !p(b) ==> cmp(a, b) < 0 && cmp(b, a) > 0
  }

  lemma {:induction false} InsertPartitioned<T(!new)>(x: T, s: seq<T>, cmp: (T, T) -> int, p: T -> bool)
    requires RanksFirst(cmp, p) && Partitioned(s, p)
    ensures Partitioned(Insert(x, s, cmp), p)
  {
    if |s| > 0 {
      if cmp(x, s[0]) < 0 {
        if p(s[0]) {
          assert p(x);
        }
      } else {
        InsertPartitioned(x, s[1..], cmp, p);
        if !p(s[0]) {
          var r := Insert(x, s, cmp);
          forall j | 0 < j < |r| ensures !p(r[j]) {
            assert r[j] in multiset(s[1..]) + multiset{x} by {
              assert r[j] in multiset(Insert(x, s[1..], cmp));
            }
            if r[j] != x {
              var k :| 0 <= k < |s[1..]| && s[1..][k] == r[j];
              assert !p(s[k + 1]);
            }
          }
        }
      }
    }
  }

  /**
   * Whatever else the comparator does, the elements it ranks first end up
   * before all the others.
   */
  lemma {:induction false} SortPartitioned<T(!new)>(xs: seq<T>, cmp: (T, T) -> int, p: T -> bool)
    requires RanksFirst(cmp, p)
    ensures Partitioned(Sort(xs, cmp), p)
  {
    if |xs| > 0 {
      SortPartitioned(xs[..|xs| - 1], cmp, p);
      InsertPartitioned(xs[|xs| - 1], Sort(xs[..|xs| - 1], cmp), cmp, p);
    }
  }

  /** An input already sorted comes back unchanged (the sort is stable). */
  lemma {:induction false} SortOfSorted<T(!new)>(xs: seq<T>, cmp: (T, T) -> int)
    requires TotalPreorder(cmp) && Sorted(xs, cmp)
    ensures Sort(xs, cmp) == xs
  {
    if |xs| > 0 {
      var init := xs[..|xs| - 1];
      var x := xs[|xs| - 1];
      assert Sorted(init, cmp);
      SortOfSorted(init, cmp);
      forall i | 0 <= i < |init| ensures cmp(x, init[i]) >= 0 {
        assert cmp(init[i], x) <= 0;
      }
      InsertAtEnd(x, init, cmp);
      assert init + [x] == xs;
    }
  }

  /** An element that compares below none of `s` goes to its end. */
  lemma {:induction false} InsertAtEnd<T>(x: T, s: seq<T>, cmp: (T, T) -> int)
    requires forall i :: 0 <= i < |s| ==> cmp(x, s[i]) >= 0
    ensures Insert(x, s, cmp) == s + [x]
  {
    if |s| > 0 {
      assert cmp(x, s[0]) >= 0;
      InsertAtEnd(x, s[1..], cmp);
      assert [s[0]] + (s[1..] + [x]) == s + [x];
    }
  }
}
