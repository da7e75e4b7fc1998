/**
  What every grouped report shares: one row per group, and the facts about
  the unsorted groups that survive `order by` (a permutation) and `limit`
  (a sub-multiset).
*/
module Reporting {
  import opened Relational
  import opened Sorting
  import opened Summaries

  datatype KeyCount<K> = KeyCount(key: K, count: nat)

  function CountOf<K>(kc: KeyCount<K>): nat {
    kc.count
  }

  function KeyOf<K>(kc: KeyCount<K>): K {
    kc.key
  }

  /** `select key, count(*) … group by key`, before any ordering. */
  function CountBy<R(!new), K(==, !new)>(rows: seq<R>, key: R -> K): (u: seq<KeyCount<K>>)
    ensures |u| == |GroupBy(rows, key)|
    ensures forall i | 0 <= i < |u| :: u[i] == KeyCount(GroupBy(rows, key)[i].key, |GroupBy(rows, key)[i].rows|)
  {
    var gs := GroupBy(rows, key);
    seq(|gs|, i requires 0 <= i < |gs| => KeyCount(gs[i].key, |gs[i].rows|))
  }

  lemma {:induction false} SumOfCounts<K(!new), R(!new)>(u: seq<KeyCount<K>>, gs: seq<Group<K, R>>)
    requires |u| == |gs|
    requires forall i | 0 <= i < |u| :: u[i].count == |gs[i].rows|
    ensures SumOf(u, CountOf) == GroupSizes(gs)
  {
    if u != [] {
      SumOfCounts(u[1..], gs[1..]);
    }
  }

  /**
    The facts a `count(*) … group by key` report states, whatever its order:
    one row per key that occurs and no other, each counting the rows with
    that key (so at least one), the counts adding up to the row count.
  */
  ghost predicate CountsRows<R(!new), K(!new)>(out: seq<KeyCount<K>>, rows: seq<R>, key: R -> K) {
    && (forall i | 0 <= i < |out| :: out[i].count == |RowsWithKey(rows, key, out[i].key)|)
    && (forall i | 0 <= i < |out| :: out[i].count >= 1)
    && (forall i, j | 0 <= i < j < |out| :: out[i].key != out[j].key)
    && (forall r | r in rows :: exists i | 0 <= i < |out| :: out[i].key == key(r))
    && (forall i | 0 <= i < |out| :: exists r | r in rows :: key(r) == out[i].key)
    && SumOf(out, CountOf) == |rows|
  }

  lemma CountByRowFacts<R(!new), K(!new)>(rows: seq<R>, key: R -> K, out: seq<KeyCount<K>>)
    requires multiset(out) == multiset(CountBy(rows, key))
    ensures forall i | 0 <= i < |out| :: out[i].count == |RowsWithKey(rows, key, out[i].key)|
    ensures forall i | 0 <= i < |out| :: out[i].count >= 1
    ensures forall i | 0 <= i < |out| :: exists r | r in rows :: key(r) == out[i].key
  {
    var gs := GroupBy(rows, key);
    var u := CountBy(rows, key);
    forall i | 0 <= i < |out|
      ensures out[i].count == |RowsWithKey(rows, key, out[i].key)| && out[i].count >= 1
      ensures exists r | r in rows :: key(r) == out[i].key
    {
      assert out[i] in multiset(u);
      var j :| 0 <= j < |u| && u[j] == out[i];
      assert gs[j].rows[0] in rows;
    }
  }

  lemma CountByCoverage<R(!new), K(!new)>(rows: seq<R>, key: R -> K, out: seq<KeyCount<K>>)
    requires multiset(out) == multiset(CountBy(rows, key))
    ensures forall r | r in rows :: exists i | 0 <= i < |out| :: out[i].key == key(r)
  {
    var gs := GroupBy(rows, key);
    var u := CountBy(rows, key);
    forall r | r in rows
      ensures exists i | 0 <= i < |out| :: out[i].key == key(r)
    {
      var j :| 0 <= j < |gs| && gs[j].key == key(r);
      assert u[j] in multiset(out);
      var i :| 0 <= i < |out| && out[i] == u[j];
    }
  }

  lemma CountBySum<R(!new), K(!new)>(rows: seq<R>, key: R -> K, out: seq<KeyCount<K>>)
    requires multiset(out) == multiset(CountBy(rows, key))
    ensures SumOf(out, CountOf) == |rows|
  {
    var gs := GroupBy(rows, key);
    var u := CountBy(rows, key);
    SumOfCounts(u, gs);
    GroupByPartition(rows, key);
    SumOfPermutation(out, u, CountOf);
  }

  /** Every ordering of the grouped counts has the facts of CountsRows. */
  lemma CountByFacts<R(!new), K(!new)>(rows: seq<R>, key: R -> K, out: seq<KeyCount<K>>)
    requires multiset(out) == multiset(CountBy(rows, key))
    ensures CountsRows(out, rows, key)
  {
    CountByRowFacts(rows, key, out);
    CountByCoverage(rows, key, out);
    CountBySum(rows, key, out);
    SubKeysDistinct(CountBy(rows, key), out, KeyOf);
  }

  function Keys<K>(out: seq<KeyCount<K>>): (ks: seq<K>)
    ensures |ks| == |out| && forall i | 0 <= i < |out| :: ks[i] == out[i].key
  {
    seq(|out|, i requires 0 <= i < |out| => out[i].key)
  }

  lemma CardMono<T>(a: set<T>, b: set<T>)
    requires a <= b
    ensures |a| <= |b|
  {
    assert b == a + (b - a);
  }

  /** A count report over rows whose keys come from a fixed set of labels has at most one row per label. */
  lemma AtMostOneRowPerLabel<R(!new), K(!new)>(out: seq<KeyCount<K>>, rows: seq<R>, key: R -> K, labels: set<K>)
    requires CountsRows(out, rows, key)
    requires forall r | r in rows :: key(r) in labels
    ensures |out| <= |labels|
  {
    var ks := Keys(out);
    forall k | k in Elems(ks)
      ensures k in labels
    {
      var i :| 0 <= i < |ks| && ks[i] == k;
      var r :| r in rows && key(r) == out[i].key;
    }
    NoDupCard(ks);
    CardMono(Elems(ks), labels);
  }
}
