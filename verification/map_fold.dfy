/**
 * Building a Python dict by assigning `d[k] = v` while walking a list: later
 * assignments to the same key overwrite earlier ones, and items that produce
 * no assignment leave the dict alone.
 */
module MapFold {
  import opened Wrappers

  /** `for x in xs: if f(x) is (k, v): d[k] = v`, starting from `m`. */
  function Assign<T, K, V>(m: map<K, V>, xs: seq<T>, f: T -> Option<(K, V)>): map<K, V>
    decreases |xs|
  {
    if |xs| == 0 then m
    else
      Assign(Step(m, xs[0], f), xs[1..], f)
  }

  /** One assignment `d[k] = v`, when the item produces one. */
  function Step<T, K, V>(m: map<K, V>, x: T, f: T -> Option<(K, V)>): map<K, V> {
    match f(x)
    case Some((k, v)) => m[k := v]
    case None => m
  }

  /** Item `i` of `xs` assigns key `k`. */
  ghost predicate AssignsKey<T, K, V>(xs: seq<T>, f: T -> Option<(K, V)>, i: int, k: K) {
    0 <= i < |xs| && f(xs[i]).Some? && f(xs[i]).value.0 == k
  }

  /** Item `i` is the last item of `xs` that assigns `k`. */
  ghost predicate LastAssigns<T, K, V>(xs: seq<T>, f: T -> Option<(K, V)>, i: int, k: K) {
    AssignsKey(xs, f, i, k) && forall j :: i < j < |xs| ==> !AssignsKey(xs, f, j, k)
  }

  /** A key is in the result exactly when it was there before or some item assigns it. */
  lemma {:induction false} AssignKeys<T, K, V>(m: map<K, V>, xs: seq<T>, f: T -> Option<(K, V)>, k: K)
    ensures k in Assign(m, xs, f) <==> k in m || exists i :: AssignsKey(xs, f, i, k)
    decreases |xs|
  {
    if |xs| > 0 {
      var m' := Step(m, xs[0], f);
      AssignKeys(m', xs[1..], f, k);
      assert k in m' <==> k in m || AssignsKey(xs, f, 0, k);
      assert (exists i :: AssignsKey(xs, f, i, k)) <==>
        AssignsKey(xs, f, 0, k) || exists i :: AssignsKey(xs[1..], f, i, k)
      by {
        if exists i :: AssignsKey(xs[1..], f, i, k) {
          var i :| AssignsKey(xs[1..], f, i, k);
          assert AssignsKey(xs, f, i + 1, k);
        }
        if exists i :: AssignsKey(xs, f, i, k) {
          var i :| AssignsKey(xs, f, i, k);
          if i > 0 {
            assert AssignsKey(xs[1..], f, i - 1, k);
          }
        }
      }
    }
  }

  /** A key no item assigns keeps its old value. */
  lemma {:induction false} AssignUntouched<T, K, V>(m: map<K, V>, xs: seq<T>, f: T -> Option<(K, V)>, k: K)
    requires k in m
    requires forall i :: !AssignsKey(xs, f, i, k)
    ensures k in Assign(m, xs, f) && Assign(m, xs, f)[k] == m[k]
    decreases |xs|
  {
    if |xs| > 0 {
      var m' := Step(m, xs[0], f);
      assert !AssignsKey(xs, f, 0, k);
      forall i ensures !AssignsKey(xs[1..], f, i, k) {
        assert !AssignsKey(xs, f, i + 1, k);
      }
      AssignUntouched(m', xs[1..], f, k);
    }
  }

  /** The last assignment to a key wins. */
  lemma {:induction false} AssignLastWins<T, K, V>(m: map<K, V>, xs: seq<T>, f: T -> Option<(K, V)>, i: int, k: K)
    requires LastAssigns(xs, f, i, k)
    ensures k in Assign(m, xs, f) && Assign(m, xs, f)[k] == f(xs[i]).value.1
    decreases |xs|
  {
    var m' := Step(m, xs[0], f);
    if i == 0 {
      forall j | 0 <= j ensures !AssignsKey(xs[1..], f, j, k) {
        assert !AssignsKey(xs, f, j + 1, k);
      }
      AssignUntouched(m', xs[1..], f, k);
    } else {
      forall j | i - 1 < j < |xs| - 1 ensures !AssignsKey(xs[1..], f, j, k) {
        assert !AssignsKey(xs, f, j + 1, k);
      }
      assert AssignsKey(xs[1..], f, i - 1, k);
      AssignLastWins(m', xs[1..], f, i - 1, k);
    }
  }

  /** Walking two lists one after the other is walking their concatenation. */
  lemma {:induction false} AssignAppend<T, K, V>(m: map<K, V>, xs: seq<T>, ys: seq<T>, f: T -> Option<(K, V)>)
    ensures Assign(m, xs + ys, f) == Assign(Assign(m, xs, f), ys, f)
    decreases |xs|
  {
    if |xs| > 0 {
      var m' := Step(m, xs[0], f);
      assert (xs + ys)[1..] == xs[1..] + ys;
      AssignAppend(m', xs[1..], ys, f);
    } else {
      assert xs + ys == ys;
    }
  }

  /** An item that assigns nothing can be dropped without changing the result. */
  lemma DropSilentItem<T, K, V>(m: map<K, V>, xs: seq<T>, f: T -> Option<(K, V)>, i: nat)
    requires i < |xs| && f(xs[i]).None?
    ensures Assign(m, xs[..i] + xs[i + 1..], f) == Assign(m, xs, f)
  {
    AssignAppend(m, xs[..i], xs[i + 1..], f);
    assert xs == xs[..i] + ([xs[i]] + xs[i + 1..]);
    AssignAppend(m, xs[..i], [xs[i]] + xs[i + 1..], f);
    var m1 := Assign(m, xs[..i], f);
    assert Assign(m1, [xs[i]] + xs[i + 1..], f) == Assign(m1, xs[i + 1..], f) by {
      assert ([xs[i]] + xs[i + 1..])[1..] == xs[i + 1..];
    }
  }
}
