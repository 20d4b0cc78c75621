/** The two shapes of `Array.prototype.reduce` that the dashboard uses:
    a running sum `(sum, x) => sum + f(x)` started at 0, and a running
    "latest record" `(latest, x) => !latest || key(x) > key(latest) ? x : latest`
    started at `null`. Both are left folds over the list in its order. */
module Folds {
  import opened Wrappers

  /** `s.reduce((sum, x) => sum + value(x), 0)`. */
  function Sum<T>(s: seq<T>, value: T -> int): (total: int)
    ensures s == [] ==> total == 0
    ensures |s| == 1 ==> total == value(s[0])
  {
    if |s| == 0 then 0 else Sum(s[..|s| - 1], value) + value(s[|s| - 1])
  }

  /** Summing a concatenation is summing the two parts. */
  lemma {:induction false} SumConcat<T>(a: seq<T>, b: seq<T>, value: T -> int)
    ensures Sum(a + b, value) == Sum(a, value) + Sum(b, value)
  {
    if |b| == 0 {
      assert a + b == a;
    } else {
      assert (a + b)[..|a + b| - 1] == a + b[..|b| - 1];
      SumConcat(a, b[..|b| - 1], value);
    }
  }

  /** The sum does not depend on the order of the list. */
  lemma {:induction false} SumPermutation<T>(a: seq<T>, b: seq<T>, value: T -> int)
    requires multiset(a) == multiset(b)
    ensures Sum(a, value) == Sum(b, value)
  {
    if |a| == 0 {
      assert |b| == |multiset(b)| == 0;
    } else {
      var n := |a| - 1;
      var x := a[n];
      assert a == a[..n] + [x];
      assert x in multiset(b);
      var j :| 0 <= j < |b| && b[j] == x;
      var rest := b[..j] + b[j + 1..];
      assert b == b[..j] + [x] + b[j + 1..];
      assert multiset(rest) == multiset(b[..j]) + multiset(b[j + 1..]);
      assert multiset(b) == multiset(b[..j]) + multiset{x} + multiset(b[j + 1..]);
      assert multiset(a) == multiset(a[..n]) + multiset{x};
      assert multiset(a[..n]) == multiset(a) - multiset{x};
      assert multiset(rest) == multiset(b) - multiset{x};
      SumPermutation(a[..n], rest, value);
      SumConcat(b[..j], [x], value);
      SumConcat(b[..j] + [x], b[j + 1..], value);
      SumConcat(b[..j], b[j + 1..], value);
    }
  }

  /** A sum of non-negative terms is non-negative. */
  lemma {:induction false} SumNonNegative<T>(s: seq<T>, value: T -> int)
    requires forall i :: 0 <= i < |s| ==> value(s[i]) >= 0
    ensures Sum(s, value) >= 0
  {
    if |s| > 0 {
      SumNonNegative(s[..|s| - 1], value);
    }
  }

  /** One step of the "latest" fold: the new record replaces the current one
      only when there is none yet or its key is strictly greater. */
  function Later<T>(latest: Option<T>, x: T, key: T -> int): (r: Option<T>)
    ensures r == Some(x) || r == latest
    ensures r.Some?
    ensures latest.Some? ==> key(r.value) >= key(latest.value)
    ensures latest.Some? && key(x) <= key(latest.value) ==> r == latest
    ensures latest.None? || key(x) > key(latest.value) ==> r == Some(x)
  {
    if latest.None? || key(x) > key(latest.value) then Some(x) else latest
  }

  /** `s.reduce(Later, null)`. */
  function Latest<T>(s: seq<T>, key: T -> int): (r: Option<T>)
    ensures r.None? <==> |s| == 0
    ensures r.Some? ==> r.value in s
  {
    if |s| == 0 then None else Later(Latest(s[..|s| - 1], key), s[|s| - 1], key)
  }

  /** Index i holds a greatest key, and every record before it has a
      strictly smaller key: i is the first position of the maximum. */
  ghost predicate IsFirstLatest<T>(s: seq<T>, key: T -> int, i: int)
  {
    && 0 <= i < |s|
    && (forall j :: 0 <= j < |s| ==> key(s[j]) <= key(s[i]))
    && (forall j :: 0 <= j < i ==> key(s[j]) < key(s[i]))
  }

  /** The fold yields nothing exactly on the empty list, and otherwise the
      record at the first position of the maximum key. */
  lemma {:induction false} LatestIsFirstLatest<T>(s: seq<T>, key: T -> int)
    ensures Latest(s, key).None? <==> |s| == 0
    ensures |s| > 0 ==> exists i :: IsFirstLatest(s, key, i) && Latest(s, key) == Some(s[i])
  {
    if |s| > 0 {
      var p := s[..|s| - 1];
      var x := s[|s| - 1];
      LatestIsFirstLatest(p, key);
      if |p| == 0 {
        assert IsFirstLatest(s, key, 0);
      } else {
        var i :| IsFirstLatest(p, key, i) && Latest(p, key) == Some(p[i]);
        assert forall j :: 0 <= j < |p| ==> s[j] == p[j];
        if key(x) > key(p[i]) {
          assert IsFirstLatest(s, key, |s| - 1);
        } else {
          assert IsFirstLatest(s, key, i);
        }
      }
    }
  }

  /** The reverse direction: whatever index is the first position of the
      maximum key, the fold selects the record stored there. */
  lemma LatestAtFirstLatest<T>(s: seq<T>, key: T -> int, i: int)
    requires IsFirstLatest(s, key, i)
    ensures Latest(s, key) == Some(s[i])
  {
    LatestIsFirstLatest(s, key);
    var k :| IsFirstLatest(s, key, k) && Latest(s, key) == Some(s[k]);
    assert k == i;
  }

  /** The selected record is an element of the list whose key is at least
      every element's key. */
  lemma LatestIsMaximal<T>(s: seq<T>, key: T -> int)
    ensures Latest(s, key).Some? ==> Latest(s, key).value in s
    ensures Latest(s, key).Some? ==> forall x :: x in s ==> key(x) <= key(Latest(s, key).value)
  {
    LatestIsFirstLatest(s, key);
  }
}
