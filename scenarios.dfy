/**
  The per-scenario reports: the dilemmas and their difficulty, one row per
  scenario from `scenarios s left join actions a on s.id_scenario =
  a.id_scenario`, so a scenario never faced still has its row.
*/
module ScenarioReports {
  import opened Wrappers
  import opened Relational
  import opened Sorting
  import opened Schema
  import opened Measures
  import opened Summaries

  /** The rows of `scenarios s left join actions a on s.id_scenario = a.id_scenario`. */
  function ScenarioActions(db: Db): seq<(Scenario, Option<Action>)> {
    LeftJoin(db.scenarios, db.actions, ScenarioFaced)
  }

  /** Grouping by `s.id_scenario, s.description, s.priorite_loi` is grouping by the whole scenario row. */
  function ScenarioOfRow(p: (Scenario, Option<Action>)): Scenario {
    p.0
  }

  /** The actions in one scenario's group are actions of that scenario. */
  lemma ScenarioGroupRows(db: Db, s: Scenario)
    ensures forall p | p in RowsWithKey(ScenarioActions(db), ScenarioOfRow, s) && p.1.Some? ::
      p.1.value in db.actions && p.1.value.scenario == s.id
  {
    forall p | p in RowsWithKey(ScenarioActions(db), ScenarioOfRow, s) && p.1.Some?
      ensures p.1.value in db.actions && p.1.value.scenario == s.id
    {
      LeftJoinRow(db.scenarios, db.actions, ScenarioFaced, p);
    }
  }

  /** `order by s.priorite_loi, s.id_scenario` */
  predicate LawThenId(a: Scenario, b: Scenario) {
    a.lawPriority < b.lawPriority || (a.lawPriority == b.lawPriority && a.id <= b.id)
  }

  lemma LawThenIdPreorder()
    ensures TotalPreorder(LawThenId)
  {
  }

  // ---------------------------------------------------------------------
  // /api/ethical-dilemmas

  /**
    A scenario's row (id_scenario, description and loi are its fields):
    `times_faced` is `count(a.id_action)`, the outcome counts, and the rate
    over `nullif(count(*), 0)`.
  */
  datatype Dilemma = Dilemma(scenario: Scenario, timesFaced: nat, succes: nat, mitiges: nat, echecs: nat,
                             successRate: Option<int>)

  function DilemmaOf(s: Scenario, g: seq<(Scenario, Option<Action>)>): Dilemma
    requires g != []
  {
    var t := TallyOf(Seconds(g));
    Dilemma(s, t.actions, t.succes, t.mitiges, t.echecs, GuardedPercent(t.succes, t.rows, 10))
  }

  function ScenarioOfDilemma(d: Dilemma): Scenario {
    d.scenario
  }

  predicate ByDilemmaLawThenId(x: Dilemma, y: Dilemma) {
    LawThenId(x.scenario, y.scenario)
  }

  lemma ByDilemmaLawThenIdPreorder()
    ensures TotalPreorder(ByDilemmaLawThenId)
  {
    LawThenIdPreorder();
    ByKeyPreorder(ByDilemmaLawThenId, ScenarioOfDilemma, LawThenId);
  }

  /** `/api/ethical-dilemmas`: one row per scenario, by priorite_loi, then id_scenario. */
  function EthicalDilemmas(db: Db): (out: seq<Dilemma>)
    ensures Sorted(out, ByDilemmaLawThenId)
    ensures SummarizesGroups(out, ScenarioActions(db), ScenarioOfRow, DilemmaOf, ScenarioOfDilemma)
    ensures CoversKeys(out, ScenarioActions(db), ScenarioOfRow, ScenarioOfDilemma)
  {
    var u := Summarize(ScenarioActions(db), ScenarioOfRow, DilemmaOf);
    var out := SortBy(u, ByDilemmaLawThenId);
    ByDilemmaLawThenIdPreorder();
    SummaryFacts(ScenarioActions(db), ScenarioOfRow, DilemmaOf, ScenarioOfDilemma, out);
    SummaryCoverage(ScenarioActions(db), ScenarioOfRow, DilemmaOf, ScenarioOfDilemma, out);
    out
  }

  /** Every scenario has its row, faced or not. */
  lemma EthicalDilemmasListsScenario(db: Db, s: Scenario)
    requires s in db.scenarios
    ensures exists i | 0 <= i < |EthicalDilemmas(db)| :: EthicalDilemmas(db)[i].scenario == s
  {
    LeftJoinKeepsLeft(db.scenarios, db.actions, ScenarioFaced, s);
    var o :| (s, o) in ScenarioActions(db);
    var out := EthicalDilemmas(db);
    var i := CoveredKey(out, ScenarioActions(db), ScenarioOfRow, ScenarioOfDilemma, (s, o));
    assert out[i].scenario == s;
  }

  /** Every row is a scenario of the table. */
  lemma EthicalDilemmasOnlyScenarios(db: Db, i: nat)
    requires i < |EthicalDilemmas(db)|
    ensures EthicalDilemmas(db)[i].scenario in db.scenarios
  {
    var g := RowsWithKey(ScenarioActions(db), ScenarioOfRow, EthicalDilemmas(db)[i].scenario);
    assert g[0] in g;
    LeftJoinRow(db.scenarios, db.actions, ScenarioFaced, g[0]);
  }

  /** With `id_scenario` a primary key, there are exactly as many rows as scenarios. */
  lemma EthicalDilemmasOneRowPerScenario(db: Db)
    requires PrimaryKeys(db)
    ensures |EthicalDilemmas(db)| == |db.scenarios|
  {
    DilemmaKeys(db);
    ScenarioRowsDistinct(db);
    OneRowPerKey(EthicalDilemmas(db), ScenarioOfDilemma, db.scenarios);
  }

  /** The rows' scenarios are distinct scenarios of the table, and every scenario is among them. */
  lemma DilemmaKeys(db: Db)
    ensures forall i, j | 0 <= i < j < |EthicalDilemmas(db)| ::
      ScenarioOfDilemma(EthicalDilemmas(db)[i]) != ScenarioOfDilemma(EthicalDilemmas(db)[j])
    ensures forall i | 0 <= i < |EthicalDilemmas(db)| :: ScenarioOfDilemma(EthicalDilemmas(db)[i]) in db.scenarios
    ensures forall s | s in db.scenarios :: exists i | 0 <= i < |EthicalDilemmas(db)| :: ScenarioOfDilemma(EthicalDilemmas(db)[i]) == s
  {
    var out := EthicalDilemmas(db);
    forall i | 0 <= i < |out|
      ensures ScenarioOfDilemma(out[i]) in db.scenarios
    {
      EthicalDilemmasOnlyScenarios(db, i);
    }
    forall s | s in db.scenarios
      ensures exists i | 0 <= i < |out| :: ScenarioOfDilemma(out[i]) == s
    {
      EthicalDilemmasListsScenario(db, s);
      var i :| 0 <= i < |out| && out[i].scenario == s;
      assert ScenarioOfDilemma(out[i]) == s;
    }
  }

  /**
    `times_faced` is `count(a.id_action)` over the scenario's group: with
    `id_scenario` a primary key, the number of actions whose `id_scenario`
    is the scenario's.
  */
  lemma DilemmaTimesFacedCount(db: Db, i: nat)
    requires PrimaryKeys(db)
    requires i < |EthicalDilemmas(db)|
    ensures EthicalDilemmas(db)[i].timesFaced
         == |RowsWithKey(db.actions, ActionScenario, EthicalDilemmas(db)[i].scenario.id)|
  {
    var out := EthicalDilemmas(db);
    var s := out[i].scenario;
    assert ScenarioOfDilemma(out[i]) == s;
    EthicalDilemmasOnlyScenarios(db, i);
    ScenarioRowsDistinct(db);
    KeyedGroupPresent(db.scenarios, db.actions, ScenarioFaced, ScenarioOfRow, s, ActionScenario, s.id);
  }

  lemma ScenarioRowsDistinct(db: Db)
    requires PrimaryKeys(db)
    ensures NoDup(db.scenarios)
  {
    forall i, j | 0 <= i < j < |db.scenarios|
      ensures db.scenarios[i] != db.scenarios[j]
    {
      assert db.scenarios[i].id != db.scenarios[j].id;
    }
  }

  lemma IdleDilemma(s: Scenario, g: seq<(Scenario, Option<Action>)>)
    requires g != [] && TallyOf(Seconds(g)).actions == 0
    ensures var row := DilemmaOf(s, g);
      row.successRate == Some(0) && row.succes == 0 && row.mitiges == 0 && row.echecs == 0
  {
    PercentEnds(|g|, 10);
  }

  /** The rate facts of one scenario's summary. */
  lemma DilemmaRate(db: Db, s: Scenario)
    requires RowsWithKey(ScenarioActions(db), ScenarioOfRow, s) != []
    ensures var row := DilemmaOf(s, RowsWithKey(ScenarioActions(db), ScenarioOfRow, s));
      && row.successRate.Some?
      && (row.timesFaced == 0 ==> row.successRate == Some(0) && row.succes == 0 && row.mitiges == 0 && row.echecs == 0)
      && (row.timesFaced > 0 ==> row.successRate == Some(Percent(row.succes, row.timesFaced, 10)))
  {
    var g := RowsWithKey(ScenarioActions(db), ScenarioOfRow, s);
    if TallyOf(Seconds(g)).actions == 0 {
      IdleDilemma(s, g);
    } else {
      LeftJoinSelfGroupNoNulls(db.scenarios, db.actions, ScenarioFaced, ScenarioOfRow, s);
      PlayedDilemma(s, g);
    }
  }

  /** A group without nulls counts one action per row, so the rate is over its actions. */
  lemma PlayedDilemma(s: Scenario, g: seq<(Scenario, Option<Action>)>)
    requires g != [] && Nulls(Seconds(g)) == 0
    ensures var row := DilemmaOf(s, g);
      row.successRate == Some(Percent(row.succes, row.timesFaced, 10))
  {
  }

  /**
    The `nullif` never applies: a scenario never faced has `times_faced` 0
    and rate 0.0, not null; a faced scenario's rate is its successes over
    the times it was faced.
  */
  lemma EthicalDilemmasRate(db: Db, i: nat)
    requires i < |EthicalDilemmas(db)|
    ensures var row := EthicalDilemmas(db)[i];
      && row.successRate.Some?
      && (row.timesFaced == 0 ==> row.successRate == Some(0) && row.succes == 0 && row.mitiges == 0 && row.echecs == 0)
      && (row.timesFaced > 0 ==> row.successRate == Some(Percent(row.succes, row.timesFaced, 10)))
  {
    DilemmaRate(db, EthicalDilemmas(db)[i].scenario);
  }

  /** With valid outcomes, `succes + mitiges + echecs = times_faced`. */
  lemma EthicalDilemmasCounts(db: Db, i: nat)
    requires OutcomesValid(db)
    requires i < |EthicalDilemmas(db)|
    ensures var row := EthicalDilemmas(db)[i];
      row.succes + row.mitiges + row.echecs == row.timesFaced
  {
    var s := EthicalDilemmas(db)[i].scenario;
    ScenarioGroupRows(db, s);
    JoinedTallyComplete(db, RowsWithKey(ScenarioActions(db), ScenarioOfRow, s));
  }

  /** A scenario's group counts an action exactly when some action names the scenario's id. */
  lemma ScenarioGroupFaced(db: Db, s: Scenario)
    requires s in db.scenarios
    ensures TallyOf(Seconds(RowsWithKey(ScenarioActions(db), ScenarioOfRow, s))).actions == 0
        <==> forall a | a in db.actions :: a.scenario != s.id
  {
    var g := RowsWithKey(ScenarioActions(db), ScenarioOfRow, s);
    forall a | a in db.actions && a.scenario == s.id
      ensures |Present(Seconds(g))| > 0
    {
      assert (s, Some(a)) in g;
      SecondPresent(g, (s, Some(a)));
    }
    if |Present(Seconds(g))| != 0 {
      ScenarioGroupRows(db, s);
      var j := PresentIndex(Seconds(g));
      assert g[j] in g;
    }
  }

  /** `times_faced` is 0 exactly when no action names the scenario's id. */
  lemma EthicalDilemmasTimesFaced(db: Db, i: nat)
    requires i < |EthicalDilemmas(db)|
    ensures EthicalDilemmas(db)[i].timesFaced == 0
        <==> forall a | a in db.actions :: a.scenario != EthicalDilemmas(db)[i].scenario.id
  {
    EthicalDilemmasOnlyScenarios(db, i);
    ScenarioGroupFaced(db, EthicalDilemmas(db)[i].scenario);
  }

  // ---------------------------------------------------------------------
  // /api/scenario-difficulty

  /**
    The same grouping and order as the dilemmas, with fewer columns:
    description and loi (fields of the scenario), `total_actions` (which is
    `count(a.id_action)`), `succes` and the rate.
  */
  datatype Difficulty = Difficulty(scenario: Scenario, totalActions: nat, succes: nat, successRate: Option<int>)

  function DifficultyOf(d: Dilemma): Difficulty {
    Difficulty(d.scenario, d.timesFaced, d.succes, d.successRate)
  }

  /** `/api/scenario-difficulty`: the dilemma rows with only the difficulty columns, in the same order. */
  function ScenarioDifficulty(db: Db): (out: seq<Difficulty>)
    ensures |out| == |EthicalDilemmas(db)|
    ensures forall i | 0 <= i < |out| :: out[i] == DifficultyOf(EthicalDilemmas(db)[i])
  {
    Project(EthicalDilemmas(db), DifficultyOf)
  }

  /**
    The difficulty rows are ordered by priorite_loi, then id_scenario; an
    unplayed scenario shows 0 actions and rate 0.0.
  */
  lemma ScenarioDifficultyFacts(db: Db)
    ensures var out := ScenarioDifficulty(db);
      && (forall i, j | 0 <= i < j < |out| :: LawThenId(out[i].scenario, out[j].scenario))
      && (forall i | 0 <= i < |out| :: out[i].successRate.Some?)
      && (forall i | 0 <= i < |out| && out[i].totalActions == 0 :: out[i].successRate == Some(0))
      && (forall i | 0 <= i < |out| && out[i].totalActions > 0 ::
            out[i].successRate == Some(Percent(out[i].succes, out[i].totalActions, 10)))
  {
    var out := ScenarioDifficulty(db);
    var ds := EthicalDilemmas(db);
    forall i, j | 0 <= i < j < |out|
      ensures LawThenId(out[i].scenario, out[j].scenario)
    {
      assert ByDilemmaLawThenId(ds[i], ds[j]);
    }
    forall i | 0 <= i < |out|
      ensures out[i].successRate.Some?
      ensures out[i].totalActions == 0 ==> out[i].successRate == Some(0)
      ensures out[i].totalActions > 0 ==> out[i].successRate == Some(Percent(out[i].succes, out[i].totalActions, 10))
    {
      EthicalDilemmasRate(db, i);
    }
  }
}
