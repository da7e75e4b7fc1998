/**
  The aggregates the reports compute over a group: the counts of its action
  column and the success percentage derived from them.
*/
module Measures {
  import opened Wrappers
  import opened Relational
  import opened Schema

  /**
    The counts over a group's action column: `count(*)`, `count(a.id_action)`
    and `count(*) filter (where a.resultat = …)` for the three outcomes. A null
    action (the row a left join adds for a dimension row that has no action)
    counts towards `count(*)` only, since `null = 'succes'` is not true.
  */
  datatype Tally = Tally(rows: nat, actions: nat, succes: nat, mitiges: nat, echecs: nat)

  function TallyOf(col: seq<Option<Action>>): (t: Tally)
    ensures t.rows == |col|
    ensures t.actions == |Present(col)|
    ensures t.rows == t.actions + Nulls(col)
    ensures t.succes + t.mitiges + t.echecs <= t.actions
  {
    if col == [] then Tally(0, 0, 0, 0, 0)
    else
      var t := TallyOf(col[1..]);
      match col[0]
      case None => t.(rows := t.rows + 1)
      case Some(a) =>
        Tally(t.rows + 1, t.actions + 1,
              t.succes + (if a.outcome == Succes then 1 else 0),
              t.mitiges + (if a.outcome == Mitigue then 1 else 0),
              t.echecs + (if a.outcome == Echec then 1 else 0))
  }

  /** When every action in the column has one of the three outcomes, the outcome counts add up to `count(a.id_action)`. */
  lemma {:induction false} TallyComplete(col: seq<Option<Action>>)
    requires forall a | Some(a) in col :: ValidOutcome(a.outcome)
    ensures TallyOf(col).succes + TallyOf(col).mitiges + TallyOf(col).echecs == TallyOf(col).actions
  {
    if col != [] {
      assert forall a | Some(a) in col[1..] :: Some(a) in col;
      TallyComplete(col[1..]);
    }
  }

  /** A column of nulls (a group of action-less dimension rows) counts no action and no outcome. */
  lemma TallyAllNull(col: seq<Option<Action>>)
    requires forall o | o in col :: o == None
    ensures TallyOf(col).actions == 0
    ensures TallyOf(col).succes == 0 && TallyOf(col).mitiges == 0 && TallyOf(col).echecs == 0
  {
    AllNulls(col);
  }

  /** The actions of a joined group come from `actions`, so with valid outcomes the three outcome counts add up to `count(a.id_action)`. */
  lemma JoinedTallyComplete<L(!new)>(db: Db, g: seq<(L, Option<Action>)>)
    requires OutcomesValid(db)
    requires forall p | p in g && p.1.Some? :: p.1.value in db.actions
    ensures TallyOf(Seconds(g)).succes + TallyOf(Seconds(g)).mitiges + TallyOf(Seconds(g)).echecs == TallyOf(Seconds(g)).actions
  {
    forall a | Some(a) in Seconds(g)
      ensures ValidOutcome(a.outcome)
    {
      var i :| 0 <= i < |g| && Seconds(g)[i] == Some(a);
      assert g[i] in g;
    }
    TallyComplete(Seconds(g));
  }

  /** Over a column without nulls (a query on `actions` or an inner join) `count(*)` and `count(a.id_action)` agree. */
  lemma TallyNoNulls(xs: seq<Action>)
    ensures TallyOf(AllPresent(xs)).actions == TallyOf(AllPresent(xs)).rows == |xs|
  {
    NoNulls(AllPresent(xs));
  }

  /**
    Over a column with no null, such as `actions` itself or an inner join,
    `count(*) filter (where a.resultat = o)` is the number of actions whose
    outcome is `o`, and `count(*)` and `count(a.id_action)` both count every action.
  */
  lemma {:induction false} OutcomeCounts(xs: seq<Action>)
    ensures TallyOf(AllPresent(xs)).actions == TallyOf(AllPresent(xs)).rows == |xs|
    ensures TallyOf(AllPresent(xs)).succes == |RowsWithKey(xs, OutcomeOf, Succes)|
    ensures TallyOf(AllPresent(xs)).mitiges == |RowsWithKey(xs, OutcomeOf, Mitigue)|
    ensures TallyOf(AllPresent(xs)).echecs == |RowsWithKey(xs, OutcomeOf, Echec)|
  {
    TallyNoNulls(xs);
    if xs != [] {
      assert AllPresent(xs)[1..] == AllPresent(xs[1..]);
      assert AllPresent(xs)[0] == Some(xs[0]);
      OutcomeCounts(xs[1..]);
    }
  }

  /** With valid outcomes, the three outcome counts of a column of actions add up to its length. */
  lemma ActionsComplete(xs: seq<Action>)
    requires forall a | a in xs :: ValidOutcome(a.outcome)
    ensures TallyOf(AllPresent(xs)).succes + TallyOf(AllPresent(xs)).mitiges + TallyOf(AllPresent(xs)).echecs == |xs|
  {
    var col := AllPresent(xs);
    forall a: Action | Some(a) in col
      ensures ValidOutcome(a.outcome)
    {
      var j :| 0 <= j < |col| && col[j] == Some(a);
    }
    TallyComplete(col);
    TallyNoNulls(xs);
  }

  /** The same for the action side of an inner-join group, whose actions come from `actions`. */
  lemma JoinedActionsComplete<L(!new)>(db: Db, g: seq<(L, Action)>)
    requires OutcomesValid(db)
    requires forall p | p in g :: p.1 in db.actions
    ensures var t := TallyOf(AllPresent(Seconds(g)));
      t.succes + t.mitiges + t.echecs == |g|
  {
    forall a | a in Seconds(g)
      ensures ValidOutcome(a.outcome)
    {
      var j :| 0 <= j < |g| && Seconds(g)[j] == a;
      assert g[j] in g;
    }
    ActionsComplete(Seconds(g));
  }

  /**
    `round(100.0 * s / t, d)` for counts `s` and `t > 0`, in units of
    1/scale percent (scale 10 for one decimal place, 100 for two). PostgreSQL
    rounds a numeric half away from zero, which for a quotient that is not
    negative means half up: the result is the integer nearest to
    100 * scale * s / t, the upper one on a tie.
  */
  function Percent(s: nat, t: nat, scale: nat): (r: int)
    requires t > 0
    ensures t * (2 * r - 1) <= 200 * scale * s < t * (2 * r + 1)
    ensures r >= 0
    ensures s <= t ==> r <= 100 * scale
  {
    var r := (200 * scale * s + t) / (2 * t);
    QuotientRounds(s, t, scale, r);
    r
  }

  lemma QuotientRounds(s: nat, t: nat, scale: nat, r: int)
    requires t > 0 && r == (200 * scale * s + t) / (2 * t)
    ensures t * (2 * r - 1) <= 200 * scale * s < t * (2 * r + 1)
    ensures r >= 0
    ensures s <= t ==> r <= 100 * scale
  {
    var n := 200 * scale * s + t;
    assert 2 * t * r <= n < 2 * t * r + 2 * t;
    assert t * (2 * r - 1) == 2 * t * r - t;
    assert t * (2 * r + 1) == 2 * t * r + t;
    if s <= t {
      assert t * (2 * r - 1) <= t * (200 * scale) by {
        assert 200 * scale * s <= 200 * scale * t;
      }
      ProductLe(t, 2 * r - 1, 200 * scale);
    }
  }

  lemma ProductLe(t: int, a: int, b: int)
    requires t > 0 && t * a <= t * b
    ensures a <= b
  {
    assert t * b - t * a == t * (b - a);
  }

  lemma MulLe(k: nat, a: nat, b: nat)
    requires a <= b
    ensures k * a <= k * b
  {
    assert k * b - k * a == k * (b - a);
  }

  lemma ProductLt(t: int, a: int, b: int)
    requires t > 0 && t * a < t * b
    ensures a < b
  {
    assert t * b - t * a == t * (b - a);
  }

  /** Percent is the only integer with the round-half-up property: any `r` that has it is the function's result. */
  lemma PercentIsRoundHalfUp(s: nat, t: nat, scale: nat, r: int)
    requires t > 0
    requires t * (2 * r - 1) <= 200 * scale * s < t * (2 * r + 1)
    ensures r == Percent(s, t, scale)
  {
    var p := Percent(s, t, scale);
    ProductLt(t, 2 * r - 1, 2 * p + 1);
    ProductLt(t, 2 * p - 1, 2 * r + 1);
  }

  /** No successes give 0.0 and all successes give 100.0. */
  lemma PercentEnds(t: nat, scale: nat)
    requires t > 0
    ensures Percent(0, t, scale) == 0
    ensures Percent(t, t, scale) == 100 * scale
  {
    PercentIsRoundHalfUp(0, t, scale, 0);
    assert t * (2 * (100 * scale) - 1) == 200 * scale * t - t;
    assert t * (2 * (100 * scale) + 1) == 200 * scale * t + t;
    PercentIsRoundHalfUp(t, t, scale, 100 * scale);
  }

  /** Over the same total, more successes never give a lower rate. */
  lemma PercentMonotone(s: nat, s': nat, t: nat, scale: nat)
    requires t > 0 && s <= s'
    ensures Percent(s, t, scale) <= Percent(s', t, scale)
  {
    var p, p' := Percent(s, t, scale), Percent(s', t, scale);
    var x, x' := 200 * scale * s, 200 * scale * s';
    assert x <= x' by {
      MulLe(200 * scale, s, s');
    }
    assert t * (2 * p - 1) <= x && x' < t * (2 * p' + 1);
    ProductLt(t, 2 * p - 1, 2 * p' + 1);
  }

  /** Two successes in three actions round to 66.7 percent; one in eight (12.5) rounds up to 13 at no decimal. */
  lemma PercentExamples()
    ensures Percent(2, 3, 10) == 667
    ensures Percent(1, 8, 1) == 13
    ensures Percent(1, 3, 100) == 3333
  {
  }

  /** `round(100.0 * s / nullif(t, 0), d)`: null exactly when `t` is 0, never a division error. */
  function GuardedPercent(s: nat, t: nat, scale: nat): (r: Option<int>)
    ensures r.None? <==> t == 0
    ensures t > 0 ==> r == Some(Percent(s, t, scale))
  {
    if t == 0 then None else Some(Percent(s, t, scale))
  }
}
