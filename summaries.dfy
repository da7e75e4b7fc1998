/**
  Grouped reports that compute more than a count: `select key, aggregates …
  group by key` becomes one summary per group, built by a per-report function
  from the group's key and rows. The facts below survive `order by` (a
  permutation), `having` (a filter) and `limit` (a sub-multiset).
*/
module Summaries {
  import opened Relational
  import opened Sorting

  /** One summary per group, in the order GroupBy lists the groups; `f` is only ever given a non-empty group. */
  function Summarize<R(!new), K(==, !new), S(!new)>(rows: seq<R>, key: R -> K, f: (K, seq<R>) --> S): (u: seq<S>)
    requires forall k, g | g != [] :: f.requires(k, g)
    ensures |u| == |GroupBy(rows, key)|
    ensures forall i | 0 <= i < |u| :: u[i] == f(GroupBy(rows, key)[i].key, GroupBy(rows, key)[i].rows)
  {
    var gs := GroupBy(rows, key);
    seq(|gs|, i requires 0 <= i < |gs| => f(gs[i].key, gs[i].rows))
  }

  /**
    What every row of a grouped report is: the summary of the (non-empty)
    group of rows with its key, and no two rows share a key.
  */
  ghost predicate SummarizesGroups<R(!new), K(!new), S(!new)>(out: seq<S>, rows: seq<R>, key: R -> K,
                                                               f: (K, seq<R>) --> S, keyOf: S -> K)
    requires forall k, g | g != [] :: f.requires(k, g)
  {
    && (forall i | 0 <= i < |out| :: RowsWithKey(rows, key, keyOf(out[i])) != [])
    && (forall i | 0 <= i < |out| :: out[i] == f(keyOf(out[i]), RowsWithKey(rows, key, keyOf(out[i]))))
    && (forall i, j | 0 <= i < j < |out| :: keyOf(out[i]) != keyOf(out[j]))
  }

  /** Every key that occurs in the rows has a row of the report. */
  ghost predicate CoversKeys<R(!new), K(!new), S(!new)>(out: seq<S>, rows: seq<R>, key: R -> K, keyOf: S -> K) {
    forall r | r in rows :: exists i | 0 <= i < |out| :: keyOf(out[i]) == key(r)
  }

  /** The report row that covers a given row's key. */
  lemma CoveredKey<R(!new), K(!new), S(!new)>(out: seq<S>, rows: seq<R>, key: R -> K, keyOf: S -> K, r: R) returns (i: nat)
    requires CoversKeys(out, rows, key, keyOf) && r in rows
    ensures i < |out| && keyOf(out[i]) == key(r)
  {
    i :| 0 <= i < |out| && keyOf(out[i]) == key(r);
  }

  /** A key listed by one report over some rows is listed by every report that covers those rows' keys. */
  lemma ListedKeyCovered<R(!new), K(!new), S(!new), T(!new)>(out: seq<S>, rows: seq<R>, key: R -> K,
                                                             f: (K, seq<R>) --> S, keyOf: S -> K,
                                                             other: seq<T>, otherKey: T -> K, i: nat)
    requires forall k, g | g != [] :: f.requires(k, g)
    requires SummarizesGroups(out, rows, key, f, keyOf)
    requires CoversKeys(other, rows, key, otherKey)
    requires i < |out|
    ensures exists j | 0 <= j < |other| :: otherKey(other[j]) == keyOf(out[i])
  {
    var g := RowsWithKey(rows, key, keyOf(out[i]));
    assert g[0] in g;
  }

  /** Rows taken from the summaries, in any order and any number, keep SummarizesGroups. */
  lemma SummaryFacts<R(!new), K(!new), S(!new)>(rows: seq<R>, key: R -> K, f: (K, seq<R>) --> S, keyOf: S -> K, out: seq<S>)
    requires forall k, g | g != [] :: f.requires(k, g)
    requires forall k, g | g != [] :: keyOf(f(k, g)) == k
    requires multiset(out) <= multiset(Summarize(rows, key, f))
    ensures SummarizesGroups(out, rows, key, f, keyOf)
  {
    var gs := GroupBy(rows, key);
    var u := Summarize(rows, key, f);
    forall i | 0 <= i < |out|
      ensures RowsWithKey(rows, key, keyOf(out[i])) != []
      ensures out[i] == f(keyOf(out[i]), RowsWithKey(rows, key, keyOf(out[i])))
    {
      assert out[i] in multiset(u);
      var j :| 0 <= j < |u| && u[j] == out[i];
      assert keyOf(u[j]) == gs[j].key;
    }
    forall i, j | 0 <= i < j < |u|
      ensures keyOf(u[i]) != keyOf(u[j])
    {
      assert keyOf(u[i]) == gs[i].key && keyOf(u[j]) == gs[j].key;
    }
    SubKeysDistinct(u, out, keyOf);
  }

  /** The summary of the group a row belongs to. */
  lemma SummaryOfRow<R(!new), K(!new), S(!new)>(rows: seq<R>, key: R -> K, f: (K, seq<R>) --> S, r: R) returns (j: nat)
    requires forall k, g | g != [] :: f.requires(k, g)
    requires r in rows
    ensures j < |Summarize(rows, key, f)|
    ensures Summarize(rows, key, f)[j] == f(key(r), RowsWithKey(rows, key, key(r)))
  {
    var gs := GroupBy(rows, key);
    j :| 0 <= j < |gs| && gs[j].key == key(r);
  }

  /** When no summary was dropped, every key has its row. */
  lemma SummaryCoverage<R(!new), K(!new), S(!new)>(rows: seq<R>, key: R -> K, f: (K, seq<R>) --> S, keyOf: S -> K, out: seq<S>)
    requires forall k, g | g != [] :: f.requires(k, g)
    requires forall k, g | g != [] :: keyOf(f(k, g)) == k
    requires multiset(out) == multiset(Summarize(rows, key, f))
    ensures CoversKeys(out, rows, key, keyOf)
  {
    var gs := GroupBy(rows, key);
    var u := Summarize(rows, key, f);
    forall r | r in rows
      ensures exists i | 0 <= i < |out| :: keyOf(out[i]) == key(r)
    {
      var j :| 0 <= j < |gs| && gs[j].key == key(r);
      assert keyOf(u[j]) == key(r);
      assert u[j] in multiset(out);
      var i :| 0 <= i < |out| && out[i] == u[j];
    }
  }

  lemma {:induction false} SummarySizesAreGroupSizes<R(!new), K(!new), S(!new)>(u: seq<S>, gs: seq<Group<K, R>>, size: S -> nat)
    requires |u| == |gs|
    requires forall i | 0 <= i < |u| :: size(u[i]) == |gs[i].rows|
    ensures SumOf(u, size) == GroupSizes(gs)
  {
    if u != [] {
      SummarySizesAreGroupSizes(u[1..], gs[1..], size);
    }
  }

  /** A `count(*)` column of a report that drops no group adds up to the number of rows grouped. */
  lemma SummarySizes<R(!new), K(!new), S(!new)>(rows: seq<R>, key: R -> K, f: (K, seq<R>) --> S, size: S -> nat, out: seq<S>)
    requires forall k, g | g != [] :: f.requires(k, g)
    requires forall k, g | g != [] :: size(f(k, g)) == |g|
    requires multiset(out) == multiset(Summarize(rows, key, f))
    ensures SumOf(out, size) == |rows|
  {
    var gs := GroupBy(rows, key);
    var u := Summarize(rows, key, f);
    SummarySizesAreGroupSizes(u, gs, size);
    GroupByPartition(rows, key);
    SumOfPermutation(out, u, size);
  }

  lemma {:induction false} AtMostOnce<T(!new)>(xs: seq<T>)
    requires forall i, j | 0 <= i < j < |xs| :: xs[i] != xs[j]
    ensures forall v :: multiset(xs)[v] <= 1
  {
    if xs != [] {
      assert xs == [xs[0]] + xs[1..];
      AtMostOnce(xs[1..]);
      assert xs[0] !in xs[1..];
    }
  }

  /** Rows whose keys are pairwise different keep that property when reordered or cut short. */
  lemma SubKeysDistinct<T(!new), K(!new)>(xs: seq<T>, ys: seq<T>, key: T -> K)
    requires forall i, j | 0 <= i < j < |xs| :: key(xs[i]) != key(xs[j])
    requires multiset(ys) <= multiset(xs)
    ensures forall i, j | 0 <= i < j < |ys| :: key(ys[i]) != key(ys[j])
  {
    AtMostOnce(xs);
    forall i, j | 0 <= i < j < |ys|
      ensures key(ys[i]) != key(ys[j])
    {
      assert ys == ys[..j] + ys[j..];
      assert ys[i] in ys[..j] && ys[j] in ys[j..];
      assert multiset(ys) == multiset(ys[..j]) + multiset(ys[j..]);
      assert ys[i] != ys[j];
      assert ys[i] in multiset(xs) && ys[j] in multiset(xs);
      var p :| 0 <= p < |xs| && xs[p] == ys[i];
      var q :| 0 <= q < |xs| && xs[q] == ys[j];
      assert p != q;
    }
  }

  /** `having p`: the summaries that satisfy `p`, in order. */
  function Having<S(!new)>(u: seq<S>, p: S -> bool): (r: seq<S>)
    ensures multiset(r) <= multiset(u)
    ensures forall x :: x in r <==> x in u && p(x)
  {
    if u == [] then []
    else
      assert u == [u[0]] + u[1..];
      (if p(u[0]) then [u[0]] else []) + Having(u[1..], p)
  }

  /** A limit that leaves fewer rows than it allows has dropped nothing. */
  lemma LimitNotReached<T(!new)>(r: seq<T>, xs: seq<T>, n: nat)
    requires |r| == Min(|xs|, n) && multiset(r) <= multiset(xs)
    requires |r| < n
    ensures multiset(r) == multiset(xs)
  {
    assert |multiset(xs) - multiset(r)| == |multiset(xs)| - |multiset(r)| == 0;
  }

  /** A limit that leaves fewer rows than it allows keeps every row. */
  lemma LimitKeeps<T(!new)>(r: seq<T>, xs: seq<T>, n: nat, x: T)
    requires |r| == Min(|xs|, n) && multiset(r) <= multiset(xs)
    requires |r| < n && x in xs
    ensures x in r
  {
    LimitNotReached(r, xs, n);
    assert x in multiset(xs);
  }

  /** A limited report that came back short lists every key. */
  lemma LimitCoverage<R(!new), K(!new), S(!new)>(rows: seq<R>, key: R -> K, f: (K, seq<R>) --> S, keyOf: S -> K,
                                                 out: seq<S>, n: nat)
    requires forall k, g | g != [] :: f.requires(k, g)
    requires forall k, g | g != [] :: keyOf(f(k, g)) == k
    requires |out| == Min(|Summarize(rows, key, f)|, n) && multiset(out) <= multiset(Summarize(rows, key, f))
    ensures |out| < n ==> CoversKeys(out, rows, key, keyOf)
  {
    if |out| < n {
      LimitNotReached(out, Summarize(rows, key, f), n);
      SummaryCoverage(rows, key, f, keyOf, out);
    }
  }

  /** A report with one row per key of `ks`, where `ks` repeats no key, has as many rows as `ks`. */
  lemma OneRowPerKey<S(!new), K(!new)>(out: seq<S>, keyOf: S -> K, ks: seq<K>)
    requires forall i, j | 0 <= i < j < |out| :: keyOf(out[i]) != keyOf(out[j])
    requires NoDup(ks)
    requires forall i | 0 <= i < |out| :: keyOf(out[i]) in ks
    requires forall k | k in ks :: exists i | 0 <= i < |out| :: keyOf(out[i]) == k
    ensures |out| == |ks|
  {
    var m := seq(|out|, i requires 0 <= i < |out| => keyOf(out[i]));
    assert Elems(m) == Elems(ks) by {
      forall k | k in Elems(ks)
        ensures k in Elems(m)
      {
        var i :| 0 <= i < |out| && keyOf(out[i]) == k;
        assert m[i] == k;
      }
    }
    NoDupCard(m);
    NoDupCard(ks);
  }
}
