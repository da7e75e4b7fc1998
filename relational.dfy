/**
  The relational operators the reports are written with: duplicate
  elimination (`count(distinct …)`), `group by`, inner and left joins.
  A table is a sequence of rows. SQL fixes no order on the rows of a join or
  of a group, and no report depends on one: every statement below is about
  which rows are present and how many.
*/
module Relational {
  import opened Wrappers

  ghost predicate NoDup<T(!new)>(xs: seq<T>) {
    forall i, j | 0 <= i < j < |xs| :: xs[i] != xs[j]
  }

  function Elems<T(!new)>(xs: seq<T>): set<T> {
    set x | x in xs
  }

  /** The distinct values of `xs`, each once, in order of first occurrence. */
  function Distinct<T(==, !new)>(xs: seq<T>): (r: seq<T>)
    ensures NoDup(r)
    ensures forall x :: x in r <==> x in xs
    ensures |r| <= |xs|
  {
    if xs == [] then []
    else
      var init := xs[..|xs| - 1];
      var rest := Distinct(init);
      assert xs == init + [xs[|xs| - 1]];
      if xs[|xs| - 1] in rest then rest else rest + [xs[|xs| - 1]]
  }

  lemma {:induction false} NoDupCard<T(!new)>(xs: seq<T>)
    requires NoDup(xs)
    ensures |Elems(xs)| == |xs|
  {
    if xs != [] {
      var init, last := xs[..|xs| - 1], xs[|xs| - 1];
      assert NoDup(init) by {
        forall i, j | 0 <= i < j < |init|
          ensures init[i] != init[j]
        {
          assert init[i] == xs[i] && init[j] == xs[j];
        }
      }
      NoDupCard(init);
      forall k | 0 <= k < |init|
        ensures init[k] != last
      {
        assert init[k] == xs[k];
      }
      assert last !in Elems(init);
      assert xs == init + [last];
      assert Elems(xs) == Elems(init) + {last};
    }
  }

  /** `count(distinct e)` over the non-null values `xs` of `e`: the number of different values. */
  function CountDistinct<T(==, !new)>(xs: seq<T>): (n: nat)
    ensures n == |Elems(xs)|
    ensures n <= |xs|
    ensures xs != [] ==> n >= 1
  {
    var d := Distinct(xs);
    NoDupCard(d);
    assert Elems(d) == Elems(xs);
    |d|
  }

  /** The non-null values of a nullable column. */
  function Present<T(!new)>(os: seq<Option<T>>): (vs: seq<T>)
    ensures |vs| <= |os|
    ensures forall v :: v in vs <==> Some(v) in os
  {
    if os == [] then []
    else (if os[0].Some? then [os[0].value] else []) + Present(os[1..])
  }

  /** The number of nulls in a nullable column. */
  function Nulls<T(!new)>(os: seq<Option<T>>): (n: nat)
    ensures n + |Present(os)| == |os|
  {
    if os == [] then 0 else (if os[0].None? then 1 else 0) + Nulls(os[1..])
  }

  lemma {:induction false} NullsConcat<T(!new)>(a: seq<Option<T>>, b: seq<Option<T>>)
    ensures Nulls(a + b) == Nulls(a) + Nulls(b)
  {
    if a == [] {
      assert a + b == b;
    } else {
      assert (a + b)[0] == a[0];
      assert (a + b)[1..] == a[1..] + b;
      NullsConcat(a[1..], b);
    }
  }

  /** The right-hand column of a sequence of pairs. */
  function Seconds<L(!new), R(!new)>(ps: seq<(L, R)>): (rs: seq<R>)
    ensures |rs| == |ps|
    ensures forall i | 0 <= i < |ps| :: rs[i] == ps[i].1
  {
    Project(ps, Second)
  }

  function Second<L, R>(p: (L, R)): R {
    p.1
  }

  /** A column computed from every row, in row order (a `select` list over one table). */
  function Project<T(!new), U(!new)>(xs: seq<T>, f: T -> U): (ys: seq<U>)
    ensures |ys| == |xs|
    ensures forall i | 0 <= i < |xs| :: ys[i] == f(xs[i])
  {
    seq(|xs|, i requires 0 <= i < |xs| => f(xs[i]))
  }

  // ---------------------------------------------------------------------
  // group by

  /** The rows of `rows` whose grouping key is `k`, in their original order. */
  function RowsWithKey<R(!new), K(==, !new)>(rows: seq<R>, key: R -> K, k: K): (out: seq<R>)
    ensures |out| <= |rows|
    ensures forall r :: r in out <==> r in rows && key(r) == k
  {
    if rows == [] then []
    else (if key(rows[0]) == k then [rows[0]] else []) + RowsWithKey(rows[1..], key, k)
  }

  lemma {:induction false} RowsWithKeyConcat<R(!new), K(!new)>(a: seq<R>, b: seq<R>, key: R -> K, k: K)
    ensures RowsWithKey(a + b, key, k) == RowsWithKey(a, key, k) + RowsWithKey(b, key, k)
  {
    if a == [] {
      assert a + b == b;
    } else {
      assert (a + b)[0] == a[0];
      assert (a + b)[1..] == a[1..] + b;
      RowsWithKeyConcat(a[1..], b, key, k);
    }
  }

  lemma {:induction false} RowsWithKeyAll<R(!new), K(!new)>(rows: seq<R>, key: R -> K, k: K)
    requires forall r | r in rows :: key(r) == k
    ensures RowsWithKey(rows, key, k) == rows
  {
    if rows != [] {
      RowsWithKeyAll(rows[1..], key, k);
    }
  }

  lemma {:induction false} RowsWithKeyNone<R(!new), K(!new)>(rows: seq<R>, key: R -> K, k: K)
    requires forall r | r in rows :: key(r) != k
    ensures RowsWithKey(rows, key, k) == []
  {
    if rows != [] {
      RowsWithKeyNone(rows[1..], key, k);
    }
  }

  datatype Group<K, R> = Group(key: K, rows: seq<R>)

  /**
    `group by key`: one group per key value that occurs, each holding exactly
    the rows with that key. A group is never empty, and no key has two groups.
  */
  function GroupBy<R(!new), K(==, !new)>(rows: seq<R>, key: R -> K): (gs: seq<Group<K, R>>)
    ensures forall i, j | 0 <= i < j < |gs| :: gs[i].key != gs[j].key
    ensures forall i | 0 <= i < |gs| :: gs[i].rows == RowsWithKey(rows, key, gs[i].key)
    ensures forall i | 0 <= i < |gs| :: gs[i].rows != []
    ensures forall r | r in rows :: exists i | 0 <= i < |gs| :: gs[i].key == key(r)
    ensures |gs| == |Distinct(Project(rows, key))|
    ensures forall i | 0 <= i < |gs| :: gs[i].key == Distinct(Project(rows, key))[i]
  {
    var ks := Distinct(Project(rows, key));
    var gs := seq(|ks|, i requires 0 <= i < |ks| => Group(ks[i], RowsWithKey(rows, key, ks[i])));
    GroupsOfKeys(rows, key, ks, gs);
    gs
  }

  /** The groups formed over the distinct keys of `rows`. */
  lemma GroupsOfKeys<R(!new), K(!new)>(rows: seq<R>, key: R -> K, ks: seq<K>, gs: seq<Group<K, R>>)
    requires NoDup(ks) && forall k :: k in ks <==> k in Project(rows, key)
    requires |gs| == |ks| && forall i | 0 <= i < |gs| :: gs[i] == Group(ks[i], RowsWithKey(rows, key, ks[i]))
    ensures forall i, j | 0 <= i < j < |gs| :: gs[i].key != gs[j].key
    ensures forall i | 0 <= i < |gs| :: gs[i].rows != []
    ensures forall r | r in rows :: exists i | 0 <= i < |gs| :: gs[i].key == key(r)
  {
    KeysNonEmpty(rows, key, ks);
    KeysCoverRows(rows, key, ks);
    forall r | r in rows
      ensures exists i | 0 <= i < |gs| :: gs[i].key == key(r)
    {
      var i :| 0 <= i < |ks| && ks[i] == key(r);
      assert gs[i].key == key(r);
    }
  }

  /** Every key that occurs has at least one row. */
  lemma KeysNonEmpty<R(!new), K(!new)>(rows: seq<R>, key: R -> K, ks: seq<K>)
    requires forall k :: k in ks <==> k in Project(rows, key)
    ensures forall i | 0 <= i < |ks| :: RowsWithKey(rows, key, ks[i]) != []
  {
    forall i | 0 <= i < |ks|
      ensures RowsWithKey(rows, key, ks[i]) != []
    {
      assert ks[i] in Project(rows, key);
      var j :| 0 <= j < |rows| && Project(rows, key)[j] == ks[i];
      assert rows[j] in RowsWithKey(rows, key, ks[i]);
    }
  }

  /** Every row's key occurs among the keys. */
  lemma KeysCoverRows<R(!new), K(!new)>(rows: seq<R>, key: R -> K, ks: seq<K>)
    requires forall k :: k in ks <==> k in Project(rows, key)
    ensures forall r | r in rows :: key(r) in ks
  {
    forall r | r in rows
      ensures key(r) in ks
    {
      var j :| 0 <= j < |rows| && rows[j] == r;
      assert Project(rows, key)[j] == key(r);
    }
  }

  /** Total number of rows over all groups. */
  function GroupSizes<K(!new), R(!new)>(gs: seq<Group<K, R>>): nat {
    if gs == [] then 0 else |gs[0].rows| + GroupSizes(gs[1..])
  }

  /** Total size of the groups `ks` would form over `rows`. */
  function SizeSum<R(!new), K(==, !new)>(rows: seq<R>, key: R -> K, ks: seq<K>): nat {
    if ks == [] then 0 else |RowsWithKey(rows, key, ks[0])| + SizeSum(rows, key, ks[1..])
  }

  /** How many times `x` occurs in `xs`. */
  function Occurrences<T(==, !new)>(xs: seq<T>, x: T): nat {
    if xs == [] then 0 else (if xs[0] == x then 1 else 0) + Occurrences(xs[1..], x)
  }

  lemma {:induction false} OccurrencesOnce<T(!new)>(xs: seq<T>, x: T)
    requires NoDup(xs) && x in xs
    ensures Occurrences(xs, x) == 1
  {
    if xs[0] == x {
      OccurrencesNone(xs[1..], x);
    } else {
      OccurrencesOnce(xs[1..], x);
    }
  }

  lemma {:induction false} OccurrencesNone<T(!new)>(xs: seq<T>, x: T)
    requires x !in xs
    ensures Occurrences(xs, x) == 0
  {
    if xs != [] {
      OccurrencesNone(xs[1..], x);
    }
  }

  lemma {:induction false} SizeSumCons<R(!new), K(!new)>(r: R, rest: seq<R>, key: R -> K, ks: seq<K>)
    ensures SizeSum([r] + rest, key, ks) == SizeSum(rest, key, ks) + Occurrences(ks, key(r))
  {
    if ks != [] {
      assert ([r] + rest)[1..] == rest;
      SizeSumCons(r, rest, key, ks[1..]);
    }
  }

  /** Groups over distinct keys that cover every row's key partition the rows. */
  lemma {:induction false} SizeSumPartition<R(!new), K(!new)>(rows: seq<R>, key: R -> K, ks: seq<K>)
    requires NoDup(ks)
    requires forall r | r in rows :: key(r) in ks
    ensures SizeSum(rows, key, ks) == |rows|
  {
    if rows == [] {
      SizeSumEmpty(key, ks);
    } else {
      assert rows == [rows[0]] + rows[1..];
      SizeSumCons(rows[0], rows[1..], key, ks);
      OccurrencesOnce(ks, key(rows[0]));
      SizeSumPartition(rows[1..], key, ks);
    }
  }

  lemma {:induction false} SizeSumEmpty<R(!new), K(!new)>(key: R -> K, ks: seq<K>)
    ensures SizeSum([], key, ks) == 0
  {
    if ks != [] {
      SizeSumEmpty(key, ks[1..]);
    }
  }

  lemma {:induction false} GroupSizesIsSizeSum<R(!new), K(!new)>(gs: seq<Group<K, R>>, rows: seq<R>, key: R -> K, ks: seq<K>)
    requires |gs| == |ks|
    requires forall i | 0 <= i < |gs| :: gs[i].rows == RowsWithKey(rows, key, ks[i])
    ensures GroupSizes(gs) == SizeSum(rows, key, ks)
  {
    if gs != [] {
      GroupSizesIsSizeSum(gs[1..], rows, key, ks[1..]);
    }
  }

  /** `group by` loses no row and counts none twice: the group sizes add up to the row count. */
  lemma GroupByPartition<R(!new), K(!new)>(rows: seq<R>, key: R -> K)
    ensures GroupSizes(GroupBy(rows, key)) == |rows|
  {
    var gs := GroupBy(rows, key);
    var ks := Distinct(Project(rows, key));
    GroupSizesIsSizeSum(gs, rows, key, ks);
    forall r | r in rows
      ensures key(r) in ks
    {
      var j :| 0 <= j < |rows| && rows[j] == r;
      assert Project(rows, key)[j] == key(r);
    }
    SizeSumPartition(rows, key, ks);
  }

  // ---------------------------------------------------------------------
  // joins

  /** The rows of `rs` that `l` joins with, in their original order. */
  function Matches<L(!new), R(!new)>(l: L, rs: seq<R>, on: (L, R) -> bool): (ms: seq<R>)
    ensures |ms| <= |rs|
    ensures forall r :: r in ms <==> r in rs && on(l, r)
  {
    if rs == [] then [] else (if on(l, rs[0]) then [rs[0]] else []) + Matches(l, rs[1..], on)
  }

  /** A left row that satisfies the join condition with no right row has no matches. */
  lemma {:induction false} MatchesNone<L(!new), R(!new)>(l: L, rs: seq<R>, on: (L, R) -> bool)
    requires forall r | r in rs :: !on(l, r)
    ensures Matches(l, rs, on) == []
  {
    if rs != [] {
      assert forall r | r in rs[1..] :: r in rs;
      MatchesNone(l, rs[1..], on);
    }
  }

  /** A left row that no two right rows both satisfy the condition with has at most one match. */
  lemma {:induction false} MatchesAtMostOne<L(!new), R(!new)>(l: L, rs: seq<R>, on: (L, R) -> bool)
    requires forall i, j | 0 <= i < j < |rs| :: !(on(l, rs[i]) && on(l, rs[j]))
    ensures |Matches(l, rs, on)| <= 1
  {
    if rs != [] {
      var tail := rs[1..];
      assert forall i, j | 0 <= i < j < |tail| :: tail[i] == rs[i + 1] && tail[j] == rs[j + 1];
      MatchesAtMostOne(l, tail, on);
      if on(l, rs[0]) {
        forall r | r in tail
          ensures !on(l, r)
        {
          var k :| 0 <= k < |tail| && tail[k] == r;
          assert rs[k + 1] == r;
        }
        MatchesNone(l, tail, on);
      }
    }
  }

  /** A left row that no two right rows with the same key can both match: at most one match. */
  lemma KeyedMatchesAtMostOne<L(!new), R(!new), K(!new)>(l: L, rs: seq<R>, on: (L, R) -> bool, id: R -> K)
    requires forall i, j | 0 <= i < j < |rs| :: id(rs[i]) != id(rs[j])
    requires forall r, r' | on(l, r) && on(l, r') :: id(r) == id(r')
    ensures |Matches(l, rs, on)| <= 1
  {
    MatchesAtMostOne(l, rs, on);
  }

  /** The rows one left row contributes to `ls left join rs`. */
  function LeftJoinOne<L(!new), R(!new)>(l: L, rs: seq<R>, on: (L, R) -> bool): (out: seq<(L, Option<R>)>)
    ensures out != []
    ensures forall p | p in out :: p.0 == l
    ensures forall p | p in out :: p.1 == None <==> Matches(l, rs, on) == []
    ensures forall r :: (l, Some(r)) in out <==> r in rs && on(l, r)
    ensures Matches(l, rs, on) == [] ==> out == [(l, None)]
    ensures Matches(l, rs, on) != [] ==> |out| == |Matches(l, rs, on)|
  {
    var ms := Matches(l, rs, on);
    if ms == [] then [(l, None)]
    else
      var out := seq(|ms|, i requires 0 <= i < |ms| => (l, Some(ms[i])));
      assert forall r | r in ms :: (l, Some(r)) in out by {
        forall r | r in ms ensures (l, Some(r)) in out {
          var i :| 0 <= i < |ms| && ms[i] == r;
          assert out[i] == (l, Some(r));
        }
      }
      out
  }

  /**
    `ls left join rs on on(l, r)`: every matching pair, and for a left row
    that matches nothing one row whose right-hand side is null.
  */
  function LeftJoin<L(!new), R(!new)>(ls: seq<L>, rs: seq<R>, on: (L, R) -> bool): (out: seq<(L, Option<R>)>)
    ensures |out| >= |ls|
    ensures forall p | p in out :: p.0 in ls
    ensures forall p | p in out :: p.1 == None <==> Matches(p.0, rs, on) == []
    ensures forall l, r :: (l, Some(r)) in out <==> l in ls && r in rs && on(l, r)
    ensures forall l | l in ls && Matches(l, rs, on) == [] :: (l, None) in out
  {
    if ls == [] then []
    else
      var head := LeftJoinOne(ls[0], rs, on);
      var tail := LeftJoin(ls[1..], rs, on);
      LeftJoinCons(ls, rs, on, head, tail);
      head + tail
  }

  /** The left join of a non-empty `ls` is its first row's join rows followed by those of the others. */
  lemma LeftJoinCons<L(!new), R(!new)>(ls: seq<L>, rs: seq<R>, on: (L, R) -> bool,
                                       head: seq<(L, Option<R>)>, tail: seq<(L, Option<R>)>)
    requires ls != []
    requires head != [] && forall p | p in head :: p.0 == ls[0]
    requires forall p | p in head :: p.1 == None <==> Matches(ls[0], rs, on) == []
    requires forall r :: (ls[0], Some(r)) in head <==> r in rs && on(ls[0], r)
    requires Matches(ls[0], rs, on) == [] ==> head == [(ls[0], None)]
    requires |tail| >= |ls| - 1
    requires forall p | p in tail :: p.0 in ls[1..]
    requires forall p | p in tail :: p.1 == None <==> Matches(p.0, rs, on) == []
    requires forall l, r :: (l, Some(r)) in tail <==> l in ls[1..] && r in rs && on(l, r)
    requires forall l | l in ls[1..] && Matches(l, rs, on) == [] :: (l, None) in tail
    ensures |head + tail| >= |ls|
    ensures forall p | p in head + tail :: p.0 in ls
    ensures forall p | p in head + tail :: p.1 == None <==> Matches(p.0, rs, on) == []
    ensures forall l, r :: (l, Some(r)) in head + tail <==> l in ls && r in rs && on(l, r)
    ensures forall l | l in ls && Matches(l, rs, on) == [] :: (l, None) in head + tail
  {
    assert forall p :: p in head + tail <==> p in head || p in tail;
    assert forall l :: l in ls <==> l == ls[0] || l in ls[1..];
  }

  /** What a row of a left join is: a left row, with either a right row it joins or null when it joins none. */
  lemma LeftJoinRow<L(!new), R(!new)>(ls: seq<L>, rs: seq<R>, on: (L, R) -> bool, p: (L, Option<R>))
    requires p in LeftJoin(ls, rs, on)
    ensures p.0 in ls
    ensures p.1.Some? ==> p.1.value in rs && on(p.0, p.1.value)
    ensures p.1.None? <==> Matches(p.0, rs, on) == []
  {
    if p.1.Some? {
      assert p == (p.0, Some(p.1.value));
    }
  }

  /** A left join keeps every left row. */
  lemma LeftJoinKeepsLeft<L(!new), R(!new)>(ls: seq<L>, rs: seq<R>, on: (L, R) -> bool, l: L)
    requires l in ls
    ensures exists o :: (l, o) in LeftJoin(ls, rs, on)
  {
    var ms := Matches(l, rs, on);
    if ms == [] {
      assert (l, None) in LeftJoin(ls, rs, on);
    } else {
      assert ms[0] in ms;
      assert (l, Some(ms[0])) in LeftJoin(ls, rs, on);
    }
  }

  /** The number of matching pairs: for each left row in turn, the number of right rows it joins. */
  function JoinSize<L(!new), R(!new)>(ls: seq<L>, rs: seq<R>, on: (L, R) -> bool): nat {
    if ls == [] then 0 else |Matches(ls[0], rs, on)| + JoinSize(ls[1..], rs, on)
  }

  /** The number of left rows that join no right row. */
  function Unjoined<L(!new), R(!new)>(ls: seq<L>, rs: seq<R>, on: (L, R) -> bool): nat {
    if ls == [] then 0 else (if Matches(ls[0], rs, on) == [] then 1 else 0) + Unjoined(ls[1..], rs, on)
  }

  /**
    `ls join rs on on(l, r)`: every matching pair, each left row once per
    right row it joins; a left row that matches nothing is dropped.
  */
  function InnerJoin<L(!new), R(!new)>(ls: seq<L>, rs: seq<R>, on: (L, R) -> bool): (out: seq<(L, R)>)
    ensures forall l, r :: (l, r) in out <==> l in ls && r in rs && on(l, r)
    ensures |out| == JoinSize(ls, rs, on)
  {
    if ls == [] then []
    else
      var ms := Matches(ls[0], rs, on);
      var head := seq(|ms|, i requires 0 <= i < |ms| => (ls[0], ms[i]));
      assert forall r | r in ms :: (ls[0], r) in head by {
        forall r | r in ms ensures (ls[0], r) in head {
          var i :| 0 <= i < |ms| && ms[i] == r;
          assert head[i] == (ls[0], r);
        }
      }
      head + InnerJoin(ls[1..], rs, on)
  }

  /** Joining on a key of the right row: the rows a left row joins are the right rows with its key. */
  lemma {:induction false} MatchesOnKey<L(!new), R(!new), K(!new)>(l: L, rs: seq<R>, on: (L, R) -> bool, key: R -> K, k: K)
    requires forall r :: on(l, r) == (key(r) == k)
    ensures Matches(l, rs, on) == RowsWithKey(rs, key, k)
  {
    if rs != [] {
      MatchesOnKey(l, rs[1..], on, key, k);
    }
  }

  /** The column one left row contributes: one value per right row it joins, or one null when it joins none. */
  lemma LeftJoinOneColumn<L(!new), R(!new)>(l: L, rs: seq<R>, on: (L, R) -> bool)
    ensures |Present(Seconds(LeftJoinOne(l, rs, on)))| == |Matches(l, rs, on)|
    ensures Nulls(Seconds(LeftJoinOne(l, rs, on))) == if Matches(l, rs, on) == [] then 1 else 0
  {
    var head := LeftJoinOne(l, rs, on);
    if Matches(l, rs, on) == [] {
      assert Seconds(head) == [None];
    } else {
      forall o: Option<R> | o in Seconds(head)
        ensures o.Some?
      {
        var i :| 0 <= i < |head| && Seconds(head)[i] == o;
        assert head[i] in head;
      }
      NoNulls(Seconds(head));
    }
  }

  /**
    A left join holds one right row per matching pair and one null per left
    row that joins nothing, and no other row.
  */
  lemma {:induction false} LeftJoinSize<L(!new), R(!new)>(ls: seq<L>, rs: seq<R>, on: (L, R) -> bool)
    ensures |Present(Seconds(LeftJoin(ls, rs, on)))| == JoinSize(ls, rs, on)
    ensures Nulls(Seconds(LeftJoin(ls, rs, on))) == Unjoined(ls, rs, on)
    ensures |LeftJoin(ls, rs, on)| == JoinSize(ls, rs, on) + Unjoined(ls, rs, on)
  {
    if ls != [] {
      var head := LeftJoinOne(ls[0], rs, on);
      var tail := LeftJoin(ls[1..], rs, on);
      assert LeftJoin(ls, rs, on) == head + tail;
      LeftJoinSize(ls[1..], rs, on);
      LeftJoinOneColumn(ls[0], rs, on);
      SecondsConcat(head, tail);
      NullsConcat(Seconds(head), Seconds(tail));
    }
  }

  /**
    Grouping a left join by its whole left row: the group of `k` holds one
    right row per row `k` joins, once for each time `k` occurs on the left.
  */
  lemma {:induction false} LeftJoinGroupPresent<L(!new), R(!new)>(ls: seq<L>, rs: seq<R>, on: (L, R) -> bool,
                                                                  pkey: ((L, Option<R>)) -> L, k: L)
    requires forall l, o :: pkey((l, o)) == l
    ensures |Present(Seconds(RowsWithKey(LeftJoin(ls, rs, on), pkey, k)))| == Occurrences(ls, k) * |Matches(k, rs, on)|
  {
    if ls != [] {
      var head := LeftJoinOne(ls[0], rs, on);
      var tail := LeftJoin(ls[1..], rs, on);
      assert LeftJoin(ls, rs, on) == head + tail;
      RowsWithKeyConcat(head, tail, pkey, k);
      LeftJoinGroupPresent(ls[1..], rs, on, pkey, k);
      var hk := RowsWithKey(head, pkey, k);
      var tk := RowsWithKey(tail, pkey, k);
      SecondsConcat(hk, tk);
      PresentConcatSize(Seconds(hk), Seconds(tk));
      LeftJoinOneGroupPresent(ls[0], rs, on, pkey, k);
      OccurrencesTimes(ls, k, |Matches(k, rs, on)|);
    }
  }

  lemma OccurrencesTimes<T(!new)>(xs: seq<T>, x: T, m: nat)
    requires xs != []
    ensures Occurrences(xs, x) * m == (if xs[0] == x then m else 0) + Occurrences(xs[1..], x) * m
  {
    var c := Occurrences(xs[1..], x);
    if xs[0] == x {
      assert Occurrences(xs, x) == 1 + c;
      MulSucc(c, m);
    } else {
      assert Occurrences(xs, x) == c;
    }
  }

  lemma MulSucc(c: nat, m: nat)
    ensures (1 + c) * m == m + c * m
  {
  }

  /**
    Joining on a key of the right row, with distinct left rows: the
    left-join group of a left row holds exactly the right rows with its key.
  */
  lemma KeyedGroupPresent<L(!new), R(!new), K(!new)>(ls: seq<L>, rs: seq<R>, on: (L, R) -> bool,
                                                     pkey: ((L, Option<R>)) -> L, k: L, key: R -> K, kv: K)
    requires forall l, o :: pkey((l, o)) == l
    requires NoDup(ls) && k in ls
    requires forall r :: on(k, r) == (key(r) == kv)
    ensures |Present(Seconds(RowsWithKey(LeftJoin(ls, rs, on), pkey, k)))| == |RowsWithKey(rs, key, kv)|
  {
    LeftJoinGroupPresent(ls, rs, on, pkey, k);
    OccurrencesOnce(ls, k);
    MatchesOnKey(k, rs, on, key, kv);
  }

  /** The right rows one left row contributes to the left-join group of `k`. */
  lemma LeftJoinOneGroupPresent<L(!new), R(!new)>(l: L, rs: seq<R>, on: (L, R) -> bool,
                                                  pkey: ((L, Option<R>)) -> L, k: L)
    requires forall l, o :: pkey((l, o)) == l
    ensures |Present(Seconds(RowsWithKey(LeftJoinOne(l, rs, on), pkey, k)))| == if l == k then |Matches(k, rs, on)| else 0
  {
    var head := LeftJoinOne(l, rs, on);
    if l == k {
      forall p | p in head
        ensures pkey(p) == k
      {
        assert p == (p.0, p.1);
      }
      RowsWithKeyAll(head, pkey, k);
      LeftJoinOneColumn(k, rs, on);
    } else {
      forall p | p in head
        ensures pkey(p) != k
      {
        assert p == (p.0, p.1);
      }
      RowsWithKeyNone(head, pkey, k);
      assert Seconds(RowsWithKey(head, pkey, k)) == [];
    }
  }

  lemma PresentConcatSize<T(!new)>(a: seq<Option<T>>, b: seq<Option<T>>)
    ensures |Present(a + b)| == |Present(a)| + |Present(b)|
  {
    NullsConcat(a, b);
  }

  /** The join condition read with its sides swapped. */
  function Flipped<L, R>(on: (L, R) -> bool): (R, L) -> bool {
    (r, l) => on(l, r)
  }

  lemma {:induction false} JoinSizeNoRight<L(!new), R(!new)>(ls: seq<L>, on: (L, R) -> bool)
    ensures JoinSize(ls, [], on) == 0
  {
    if ls != [] {
      JoinSizeNoRight(ls[1..], on);
    }
  }

  /** Taking the first right row out of the count removes the left rows it joins. */
  lemma {:induction false} JoinSizeConsRight<L(!new), R(!new)>(ls: seq<L>, rs: seq<R>, on: (L, R) -> bool)
    requires rs != []
    ensures JoinSize(ls, rs, on) == |Matches(rs[0], ls, Flipped(on))| + JoinSize(ls, rs[1..], on)
  {
    if ls != [] {
      JoinSizeConsRight(ls[1..], rs, on);
      assert Flipped(on)(rs[0], ls[0]) == on(ls[0], rs[0]);
    }
  }

  /** Counting the matching pairs left row by left row or right row by right row gives the same number. */
  lemma {:induction false} JoinSizeSwap<L(!new), R(!new)>(ls: seq<L>, rs: seq<R>, on: (L, R) -> bool)
    ensures JoinSize(ls, rs, on) == JoinSize(rs, ls, Flipped(on))
  {
    if rs == [] {
      JoinSizeNoRight(ls, on);
    } else {
      JoinSizeSwap(ls, rs[1..], on);
      JoinSizeConsRight(ls, rs, on);
    }
  }

  /** When each left row joins exactly one right row or none, the count is the number that join one. */
  lemma {:induction false} JoinSizeOfSingles<L(!new), R(!new)>(ls: seq<L>, rs: seq<R>, on: (L, R) -> bool, joined: L -> bool)
    requires forall l | l in ls :: |Matches(l, rs, on)| == if joined(l) then 1 else 0
    ensures JoinSize(ls, rs, on) == |RowsWithKey(ls, joined, true)|
  {
    if ls != [] {
      assert forall l | l in ls[1..] :: l in ls;
      JoinSizeOfSingles(ls[1..], rs, on, joined);
    }
  }

  /**
    Joining on a key of the left rows that is unique among them: the inner
    join has exactly one row per right row that joins some left row.
  */
  lemma InnerJoinSizeByRight<L(!new), R(!new), K(!new)>(ls: seq<L>, rs: seq<R>, on: (L, R) -> bool, id: L -> K,
                                                       joined: R -> bool)
    requires forall i, j | 0 <= i < j < |ls| :: id(ls[i]) != id(ls[j])
    requires forall l, l', r | on(l, r) && on(l', r) :: id(l) == id(l')
    requires forall r :: joined(r) <==> exists l | l in ls :: on(l, r)
    ensures |InnerJoin(ls, rs, on)| == |RowsWithKey(rs, joined, true)|
  {
    JoinSizeSwap(ls, rs, on);
    forall r | r in rs
      ensures |Matches(r, ls, Flipped(on))| == if joined(r) then 1 else 0
    {
      KeyedMatchesAtMostOne(r, ls, Flipped(on), id);
      if joined(r) {
        var l :| l in ls && on(l, r);
        assert l in Matches(r, ls, Flipped(on));
      } else {
        MatchesNone(r, ls, Flipped(on));
      }
    }
    JoinSizeOfSingles(rs, ls, Flipped(on), joined);
  }

  /** When every left row matches at most one right row, the left join is one row per left row, in order. */
  lemma {:induction false} LeftJoinOneToOne<L(!new), R(!new)>(ls: seq<L>, rs: seq<R>, on: (L, R) -> bool)
    requires forall l | l in ls :: |Matches(l, rs, on)| <= 1
    ensures |LeftJoin(ls, rs, on)| == |ls|
    ensures forall i | 0 <= i < |ls| :: LeftJoin(ls, rs, on)[i].0 == ls[i]
  {
    if ls != [] {
      var head, tail := LeftJoinOne(ls[0], rs, on), LeftJoin(ls[1..], rs, on);
      LeftJoinOneToOne(ls[1..], rs, on);
      assert |head| == 1 && head[0] in head;
      OneRowThenRest(ls, head, tail);
    }
  }

  /** One row for the first left row followed by one row per other left row is one row per left row. */
  lemma OneRowThenRest<L(!new), R(!new)>(ls: seq<L>, head: seq<(L, R)>, tail: seq<(L, R)>)
    requires ls != [] && |head| == 1 && head[0].0 == ls[0]
    requires |tail| == |ls| - 1 && forall i | 0 <= i < |tail| :: tail[i].0 == ls[1..][i]
    ensures |head + tail| == |ls|
    ensures forall i | 0 <= i < |ls| :: (head + tail)[i].0 == ls[i]
  {
    forall i | 0 <= i < |ls|
      ensures (head + tail)[i].0 == ls[i]
    {
      if i > 0 {
        assert (head + tail)[i] == tail[i - 1];
      }
    }
  }

  /** Left rows with key `k` that no right row joins. */
  function Unmatched<L(!new), R(!new), K(==, !new)>(ls: seq<L>, rs: seq<R>, on: (L, R) -> bool, key: L -> K, k: K): (n: nat)
    ensures n <= |RowsWithKey(ls, key, k)|
  {
    if ls == [] then 0
    else (if key(ls[0]) == k && Matches(ls[0], rs, on) == [] then 1 else 0) + Unmatched(ls[1..], rs, on, key, k)
  }

  /**
    In a left join grouped by a key of the left row, a group holds one null
    right-hand side for each of its left rows that joins nothing, and no other.
  */
  lemma {:induction false} LeftJoinGroupNulls<L(!new), R(!new), K(!new)>(ls: seq<L>, rs: seq<R>, on: (L, R) -> bool,
                                                       lkey: L -> K, pkey: ((L, Option<R>)) -> K, k: K)
    requires forall l, o :: pkey((l, o)) == lkey(l)
    ensures Nulls(Seconds(RowsWithKey(LeftJoin(ls, rs, on), pkey, k))) == Unmatched(ls, rs, on, lkey, k)
  {
    if ls != [] {
      var head := LeftJoinOne(ls[0], rs, on);
      var tail := LeftJoin(ls[1..], rs, on);
      assert LeftJoin(ls, rs, on) == head + tail;
      RowsWithKeyConcat(head, tail, pkey, k);
      LeftJoinGroupNulls(ls[1..], rs, on, lkey, pkey, k);
      var hk := RowsWithKey(head, pkey, k);
      var tk := RowsWithKey(tail, pkey, k);
      SecondsConcat(hk, tk);
      NullsConcat(Seconds(hk), Seconds(tk));
      LeftJoinOneNulls(ls[0], rs, on, lkey, pkey, k);
    }
  }

  /**
    Grouping joined rows by a key of the pair and then their right-hand
    sides by a key of their own selects the same rows as grouping by both
    keys at once.
  */
  lemma {:induction false} NestedGroupCount<L(!new), R(!new), A(!new), B(!new)>(rows: seq<(L, R)>, ka: ((L, R)) -> A, kb: R -> B,
                                                                        kab: ((L, R)) -> (A, B), a: A, b: B)
    requires forall p :: kab(p) == (ka(p), kb(p.1))
    ensures |RowsWithKey(Seconds(RowsWithKey(rows, ka, a)), kb, b)| == |RowsWithKey(rows, kab, (a, b))|
  {
    if rows != [] {
      var head := if ka(rows[0]) == a then [rows[0]] else [];
      var tail := RowsWithKey(rows[1..], ka, a);
      SecondsConcat(head, tail);
      RowsWithKeyConcat(Seconds(head), Seconds(tail), kb, b);
      NestedGroupCount(rows[1..], ka, kb, kab, a, b);
    }
  }

  lemma SecondsConcat<L(!new), R(!new)>(a: seq<(L, R)>, b: seq<(L, R)>)
    ensures Seconds(a + b) == Seconds(a) + Seconds(b)
  {
  }

  /** The nulls one left row contributes to the group with key `k`. */
  lemma {:induction false} LeftJoinOneNulls<L(!new), R(!new), K(!new)>(l: L, rs: seq<R>, on: (L, R) -> bool,
                                                     lkey: L -> K, pkey: ((L, Option<R>)) -> K, k: K)
    requires forall l, o :: pkey((l, o)) == lkey(l)
    ensures Nulls(Seconds(RowsWithKey(LeftJoinOne(l, rs, on), pkey, k)))
         == if lkey(l) == k && Matches(l, rs, on) == [] then 1 else 0
  {
    var head := LeftJoinOne(l, rs, on);
    if lkey(l) == k {
      RowsWithKeyAll(head, pkey, k);
      if Matches(l, rs, on) == [] {
        assert head == [(l, None)];
        assert Seconds(head) == [None];
      } else {
        forall o: Option<R> | o in Seconds(head)
          ensures o.Some?
        {
          var i :| 0 <= i < |head| && Seconds(head)[i] == o;
          assert head[i] in head;
        }
        NoNulls(Seconds(head));
      }
    } else {
      forall p | p in head
        ensures pkey(p) != k
      {
        assert p == (p.0, p.1);
      }
      RowsWithKeyNone(head, pkey, k);
      assert Seconds(RowsWithKey(head, pkey, k)) == [];
    }
  }

  lemma {:induction false} NoNulls<T(!new)>(os: seq<Option<T>>)
    requires forall o | o in os :: o.Some?
    ensures Nulls(os) == 0
  {
    if os != [] {
      NoNulls(os[1..]);
    }
  }

  /** A left-join group whose left rows all join nothing is all nulls, one row per left row. */
  lemma {:induction false} LeftJoinGroupUnmatched<L(!new), R(!new), K(!new)>(ls: seq<L>, rs: seq<R>, on: (L, R) -> bool,
                                                          lkey: L -> K, pkey: ((L, Option<R>)) -> K, k: K)
    requires forall l, o :: pkey((l, o)) == lkey(l)
    requires forall l | l in ls && lkey(l) == k :: Matches(l, rs, on) == []
    ensures forall o | o in Seconds(RowsWithKey(LeftJoin(ls, rs, on), pkey, k)) :: o == None
    ensures |RowsWithKey(LeftJoin(ls, rs, on), pkey, k)| == |RowsWithKey(ls, lkey, k)|
  {
    var g := RowsWithKey(LeftJoin(ls, rs, on), pkey, k);
    forall o | o in Seconds(g)
      ensures o == None
    {
      var i :| 0 <= i < |g| && Seconds(g)[i] == o;
      assert g[i] in LeftJoin(ls, rs, on);
    }
    AllNulls(Seconds(g));
    LeftJoinGroupNulls(ls, rs, on, lkey, pkey, k);
    UnmatchedAll(ls, rs, on, lkey, k);
  }

  lemma {:induction false} AllNulls<T(!new)>(os: seq<Option<T>>)
    requires forall o | o in os :: o == None
    ensures Nulls(os) == |os|
  {
    if os != [] {
      assert forall o | o in os[1..] :: o in os;
      AllNulls(os[1..]);
    }
  }

  lemma {:induction false} UnmatchedNone<L(!new), R(!new), K(!new)>(ls: seq<L>, rs: seq<R>, on: (L, R) -> bool, key: L -> K, k: K)
    requires forall l | l in ls && key(l) == k :: Matches(l, rs, on) != []
    ensures Unmatched(ls, rs, on, key, k) == 0
  {
    if ls != [] {
      UnmatchedNone(ls[1..], rs, on, key, k);
    }
  }

  function Id<T>(x: T): T {
    x
  }

  /**
    Grouping a left join by its whole left row: a group that holds an
    actual right row belongs to a left row that matches, and then it holds
    no null.
  */
  lemma LeftJoinSelfGroupNoNulls<L(!new), R(!new)>(ls: seq<L>, rs: seq<R>, on: (L, R) -> bool, pkey: ((L, Option<R>)) -> L, k: L)
    requires forall l, o :: pkey((l, o)) == l
    requires Present(Seconds(RowsWithKey(LeftJoin(ls, rs, on), pkey, k))) != []
    ensures Nulls(Seconds(RowsWithKey(LeftJoin(ls, rs, on), pkey, k))) == 0
  {
    SelfGroupMatches(ls, rs, on, pkey, k);
    LeftJoinGroupNulls(ls, rs, on, Id, pkey, k);
    UnmatchedNone(ls, rs, on, Id, k);
  }

  /** A left row whose left-join group holds an actual right row matches that row. */
  lemma SelfGroupMatches<L(!new), R(!new)>(ls: seq<L>, rs: seq<R>, on: (L, R) -> bool, pkey: ((L, Option<R>)) -> L, k: L)
    requires forall l, o :: pkey((l, o)) == l
    requires Present(Seconds(RowsWithKey(LeftJoin(ls, rs, on), pkey, k))) != []
    ensures Matches(k, rs, on) != []
  {
    var g := RowsWithKey(LeftJoin(ls, rs, on), pkey, k);
    var j := PresentIndex(Seconds(g));
    var p := g[j];
    assert p in LeftJoin(ls, rs, on) && pkey(p) == k;
    assert p == (p.0, p.1);
    LeftJoinRow(ls, rs, on, p);
  }

  /** The right-hand value of a pair with one is a non-null value of the right-hand column. */
  lemma SecondPresent<L(!new), R(!new)>(ps: seq<(L, Option<R>)>, p: (L, Option<R>))
    requires p in ps && p.1.Some?
    ensures p.1.value in Present(Seconds(ps))
  {
    var j :| 0 <= j < |ps| && ps[j] == p;
    assert Seconds(ps)[j] == p.1;
  }

  /** The position of a non-null value in a column that has one. */
  lemma PresentIndex<T(!new)>(os: seq<Option<T>>) returns (j: nat)
    requires Present(os) != []
    ensures j < |os| && os[j].Some?
  {
    assert Present(os)[0] in Present(os);
    j :| 0 <= j < |os| && os[j] == Some(Present(os)[0]);
  }

  /** The left-hand column of a sequence of pairs. */
  function Firsts<L(!new), R(!new)>(ps: seq<(L, R)>): (ls: seq<L>)
    ensures |ls| == |ps|
    ensures forall i | 0 <= i < |ps| :: ls[i] == ps[i].0
  {
    Project(ps, First)
  }

  function First<L, R>(p: (L, R)): L {
    p.0
  }

  lemma {:induction false} UnmatchedAll<L(!new), R(!new), K(!new)>(ls: seq<L>, rs: seq<R>, on: (L, R) -> bool, key: L -> K, k: K)
    requires forall l | l in ls && key(l) == k :: Matches(l, rs, on) == []
    ensures Unmatched(ls, rs, on, key, k) == |RowsWithKey(ls, key, k)|
  {
    if ls != [] {
      UnmatchedAll(ls[1..], rs, on, key, k);
    }
  }
}
