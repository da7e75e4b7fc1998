/**
  `order by` and `limit`. SQL returns the rows of a query in an order that
  satisfies its `order by` clause and leaves the order among ties open, so a
  report's rows are specified as a sorted permutation of its groups. SortBy
  (insertion sort) computes one such permutation; nothing proved about a
  report depends on which one.
*/
module Sorting {

  ghost predicate TotalPreorder<T(!new)>(le: (T, T) -> bool) {
    && (forall a, b :: le(a, b) || le(b, a))
    && (forall a, b, c :: le(a, b) && le(b, c) ==> le(a, c))
  }

  ghost predicate Sorted<T(!new)>(xs: seq<T>, le: (T, T) -> bool) {
    forall i, j | 0 <= i < j < |xs| :: le(xs[i], xs[j])
  }

  /** In a sorted sequence, a row that may not precede another comes after it. */
  lemma SortedBefore<T(!new)>(xs: seq<T>, le: (T, T) -> bool, i: nat, j: nat)
    requires Sorted(xs, le) && i < |xs| && j < |xs| && i != j
    requires !le(xs[j], xs[i])
    ensures i < j
  {
  }

  /** An order on rows that compares one key of each row is a total preorder when the key order is. */
  lemma ByKeyPreorder<T(!new), K(!new)>(le: (T, T) -> bool, key: T -> K, keyLe: (K, K) -> bool)
    requires TotalPreorder(keyLe)
    requires forall x, y :: le(x, y) == keyLe(key(x), key(y))
    ensures TotalPreorder(le)
  {
  }

  function Insert<T(!new)>(x: T, xs: seq<T>, le: (T, T) -> bool): (r: seq<T>)
    ensures multiset(r) == multiset(xs) + multiset{x}
  {
    if xs == [] then [x]
    else if le(x, xs[0]) then [x] + xs
    else
      assert xs == [xs[0]] + xs[1..];
      [xs[0]] + Insert(x, xs[1..], le)
  }

  lemma {:induction false} InsertSorted<T(!new)>(x: T, xs: seq<T>, le: (T, T) -> bool)
    ensures TotalPreorder(le) && Sorted(xs, le) ==> Sorted(Insert(x, xs, le), le)
  {
    if TotalPreorder(le) && Sorted(xs, le) && xs != [] {
      var r := Insert(x, xs, le);
      if le(x, xs[0]) {
        assert forall j | 0 < j < |xs| :: le(xs[0], xs[j]);
      } else {
        var rest := Insert(x, xs[1..], le);
        InsertSorted(x, xs[1..], le);
        assert r == [xs[0]] + rest;
        forall j | 0 <= j < |rest|
          ensures le(xs[0], rest[j])
        {
          assert rest[j] in multiset(rest);
          if rest[j] != x {
            assert rest[j] in multiset(xs[1..]);
            var k :| 0 <= k < |xs[1..]| && xs[1..][k] == rest[j];
            assert le(xs[0], xs[k + 1]);
          }
        }
      }
    }
  }

  /** The rows of `xs`, rearranged so that `le` holds between every earlier and later row. */
  function SortBy<T(!new)>(xs: seq<T>, le: (T, T) -> bool): (r: seq<T>)
    ensures multiset(r) == multiset(xs)
    ensures |r| == |xs|
    ensures TotalPreorder(le) ==> Sorted(r, le)
  {
    if xs == [] then []
    else
      var rest := SortBy(xs[1..], le);
      InsertSorted(xs[0], rest, le);
      assert xs == [xs[0]] + xs[1..];
      Insert(xs[0], rest, le)
  }

  function Min(a: nat, b: nat): nat {
    if a < b then a else b
  }

  /**
    `order by … limit n`: at most `n` rows of `xs`, in order, and no row left
    out comes strictly before a row that was kept.
  */
  function TopN<T(!new)>(xs: seq<T>, le: (T, T) -> bool, n: nat): (r: seq<T>)
    ensures |r| == Min(|xs|, n)
    ensures multiset(r) <= multiset(xs)
    ensures TotalPreorder(le) ==> Sorted(r, le)
    ensures TotalPreorder(le) ==> forall x, y | x in multiset(xs) - multiset(r) && y in r :: le(y, x)
  {
    var s := SortBy(xs, le);
    var m := Min(|xs|, n);
    var r := s[..m];
    assert s == r + s[m..];
    assert multiset(xs) - multiset(r) == multiset(s[m..]);
    SortedSplit(s, m, le);
    r
  }

  lemma SortedSplit<T(!new)>(s: seq<T>, m: nat, le: (T, T) -> bool)
    requires m <= |s|
    ensures Sorted(s, le) ==> forall x, y | x in s[m..] && y in s[..m] :: le(y, x)
  {
    if Sorted(s, le) {
      forall x, y | x in s[m..] && y in s[..m]
        ensures le(y, x)
      {
        var j :| 0 <= j < |s[m..]| && s[m..][j] == x;
        var i :| 0 <= i < m && s[..m][i] == y;
        assert s[i] == y && s[m + j] == x;
      }
    }
  }

  /** The sum of `f` over the rows of `xs`. */
  function SumOf<T(!new)>(xs: seq<T>, f: T -> nat): nat {
    if xs == [] then 0 else f(xs[0]) + SumOf(xs[1..], f)
  }

  lemma {:induction false} SumOfConcat<T(!new)>(a: seq<T>, b: seq<T>, f: T -> nat)
    ensures SumOf(a + b, f) == SumOf(a, f) + SumOf(b, f)
  {
    if a == [] {
      assert a + b == b;
    } else {
      assert (a + b)[0] == a[0];
      assert (a + b)[1..] == a[1..] + b;
      SumOfConcat(a[1..], b, f);
    }
  }

  lemma SumOfRemove<T(!new)>(b: seq<T>, i: nat, f: T -> nat)
    requires i < |b|
    ensures SumOf(b, f) == f(b[i]) + SumOf(b[..i] + b[i + 1..], f)
  {
    var left, mid, right := b[..i], [b[i]], b[i + 1..];
    assert b == (left + mid) + right;
    SumOfConcat(left + mid, right, f);
    SumOfConcat(left, mid, f);
    SumOfConcat(left, right, f);
    assert SumOf(mid, f) == f(b[i]) + SumOf(mid[1..], f);
  }

  lemma MultisetRemove<T(!new)>(b: seq<T>, i: nat)
    requires i < |b|
    ensures multiset(b[..i] + b[i + 1..]) == multiset(b) - multiset{b[i]}
  {
    assert b == (b[..i] + [b[i]]) + b[i + 1..];
  }

  /** Removing the first row of `a` and its occurrence in a permutation `b` leaves permutations. */
  lemma PermutationUncons<T(!new)>(a: seq<T>, b: seq<T>) returns (i: nat)
    requires a != [] && multiset(a) == multiset(b)
    ensures i < |b| && b[i] == a[0]
    ensures multiset(a[1..]) == multiset(b[..i] + b[i + 1..])
  {
    assert a == [a[0]] + a[1..];
    assert multiset(a[1..]) == multiset(a) - multiset{a[0]};
    assert a[0] in multiset(b);
    i :| 0 <= i < |b| && b[i] == a[0];
    MultisetRemove(b, i);
  }

  /** A sum over rows does not depend on their order. */
  lemma {:induction false} SumOfPermutation<T(!new)>(a: seq<T>, b: seq<T>, f: T -> nat)
    requires multiset(a) == multiset(b)
    ensures SumOf(a, f) == SumOf(b, f)
  {
    if a == [] {
      assert |b| == |multiset(b)| == 0;
    } else {
      var i := PermutationUncons(a, b);
      SumOfPermutation(a[1..], b[..i] + b[i + 1..], f);
      SumOfRemove(b, i, f);
    }
  }
}
