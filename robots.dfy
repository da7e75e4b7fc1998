/**
  The per-robot reports: performance per model, each robot's
  specialisation, and the ethical maturity of the robots that acted. All
  three start from `robots r left join actions a on r.id_robot = a.id_robot`,
  so a robot without actions still contributes one row with a null action.
*/
module RobotReports {
  import opened Wrappers
  import opened Relational
  import opened Sorting
  import opened Orderings
  import opened Schema
  import opened Measures
  import opened Summaries

  /** The rows of `robots r left join actions a on r.id_robot = a.id_robot`. */
  function RobotActions(db: Db): seq<(Robot, Option<Action>)> {
    LeftJoin(db.robots, db.actions, RobotActs)
  }

  /** A joined row's action, when it has one, is an action of its robot. */
  lemma RobotActionsRow(db: Db, p: (Robot, Option<Action>))
    requires p in RobotActions(db)
    ensures p.0 in db.robots
    ensures p.1.Some? ==> p.1.value in db.actions && p.1.value.robot == p.0.id
    ensures p.1.None? <==> forall a | a in db.actions :: a.robot != p.0.id
  {
    if p.1.Some? {
      assert p == (p.0, Some(p.1.value));
      assert p.1.value in Matches(p.0, db.actions, RobotActs);
    }
  }

  lemma NoMatches(r: Robot, actions: seq<Action>)
    requires forall a | a in actions :: a.robot != r.id
    ensures Matches(r, actions, RobotActs) == []
  {
    if Matches(r, actions, RobotActs) != [] {
      assert Matches(r, actions, RobotActs)[0] in Matches(r, actions, RobotActs);
    }
  }

  /** Every robot has a joined row: the left join drops no robot. */
  lemma RobotActionsKeepsRobots(db: Db, r: Robot)
    requires r in db.robots
    ensures exists o :: (r, o) in RobotActions(db)
  {
    LeftJoinKeepsLeft(db.robots, db.actions, RobotActs, r);
  }

  // ---------------------------------------------------------------------
  // /api/performance-by-model

  function RobotModel(r: Robot): string {
    r.model
  }

  function ModelOfRow(p: (Robot, Option<Action>)): string {
    p.0.model
  }

  datatype ModelPerformance = ModelPerformance(model: string, totalActions: nat, succes: nat, mitiges: nat,
                                               echecs: nat, successRate: int)

  /**
    One model's row: `count(*)` (which also counts the null row of each of
    its robots that never acted), the outcome counts and
    `round(100.0 * succes / count(*), 1)`, which needs no guard since a group
    is never empty.
  */
  function ModelPerformanceOf(model: string, g: seq<(Robot, Option<Action>)>): ModelPerformance
    requires g != []
  {
    var t := TallyOf(Seconds(g));
    ModelPerformance(model, t.rows, t.succes, t.mitiges, t.echecs, Percent(t.succes, t.rows, 10))
  }

  function ModelOfPerformance(m: ModelPerformance): string {
    m.model
  }

  predicate ByModelRateDesc(x: ModelPerformance, y: ModelPerformance) {
    Descending(x.successRate, y.successRate)
  }

  lemma ByModelRateDescPreorder()
    ensures TotalPreorder(ByModelRateDesc)
  {
  }

  /**
    `/api/performance-by-model`: one row per modele, each summarising the
    joined rows of that model's robots, highest success rate first. The rate
    is never null, so `nulls last` has nothing to place.
  */
  function PerformanceByModel(db: Db): (out: seq<ModelPerformance>)
    ensures Sorted(out, ByModelRateDesc)
    ensures SummarizesGroups(out, RobotActions(db), ModelOfRow, ModelPerformanceOf, ModelOfPerformance)
    ensures CoversKeys(out, RobotActions(db), ModelOfRow, ModelOfPerformance)
  {
    var u := Summarize(RobotActions(db), ModelOfRow, ModelPerformanceOf);
    var out := SortBy(u, ByModelRateDesc);
    ByModelRateDescPreorder();
    SummaryFacts(RobotActions(db), ModelOfRow, ModelPerformanceOf, ModelOfPerformance, out);
    SummaryCoverage(RobotActions(db), ModelOfRow, ModelPerformanceOf, ModelOfPerformance, out);
    out
  }

  /** Every robot's model has a row. */
  lemma PerformanceByModelListsModel(db: Db, r: Robot)
    requires r in db.robots
    ensures exists i | 0 <= i < |PerformanceByModel(db)| :: PerformanceByModel(db)[i].model == r.model
  {
    RobotActionsKeepsRobots(db, r);
    var o :| (r, o) in RobotActions(db);
    var out := PerformanceByModel(db);
    var i := CoveredKey(out, RobotActions(db), ModelOfRow, ModelOfPerformance, (r, o));
    assert out[i].model == r.model;
  }

  /** Every row is the model of some robot (and SummarizesGroups says no model has two rows). */
  lemma PerformanceByModelOnlyModels(db: Db, i: nat)
    requires i < |PerformanceByModel(db)|
    ensures exists r | r in db.robots :: r.model == PerformanceByModel(db)[i].model
  {
    var g := RowsWithKey(RobotActions(db), ModelOfRow, PerformanceByModel(db)[i].model);
    assert g[0] in g;
    RobotActionsRow(db, g[0]);
  }

  /** The joined rows of one model's group come from the join, so their actions are actions. */
  lemma ModelGroupRows(db: Db, m: string)
    ensures forall p | p in RowsWithKey(RobotActions(db), ModelOfRow, m) && p.1.Some? :: p.1.value in db.actions
  {
    forall p | p in RowsWithKey(RobotActions(db), ModelOfRow, m) && p.1.Some?
      ensures p.1.value in db.actions
    {
      RobotActionsRow(db, p);
    }
  }

  /**
    `total_actions` is `count(*)` over a left join: with valid outcomes it is
    the model's actions plus one for each of its robots that never acted.
  */
  lemma PerformanceByModelTotal(db: Db, i: nat)
    requires OutcomesValid(db)
    requires i < |PerformanceByModel(db)|
    ensures var row := PerformanceByModel(db)[i];
      row.totalActions == row.succes + row.mitiges + row.echecs
                          + Unmatched(db.robots, db.actions, RobotActs, RobotModel, row.model)
  {
    var row := PerformanceByModel(db)[i];
    var g := RowsWithKey(RobotActions(db), ModelOfRow, row.model);
    ModelGroupRows(db, row.model);
    JoinedTallyComplete(db, g);
    LeftJoinGroupNulls(db.robots, db.actions, RobotActs, RobotModel, ModelOfRow, row.model);
  }

  /**
    A model none of whose robots acted still gets a row: `total_actions`
    is its number of robots, no outcome is counted, and the rate is 0.0, not
    null.
  */
  lemma PerformanceByModelIdle(db: Db, i: nat)
    requires i < |PerformanceByModel(db)|
    requires forall r, a | r in db.robots && a in db.actions && r.model == PerformanceByModel(db)[i].model :: a.robot != r.id
    ensures var row := PerformanceByModel(db)[i];
      && row.totalActions == |RowsWithKey(db.robots, RobotModel, row.model)|
      && row.succes == 0 && row.mitiges == 0 && row.echecs == 0
      && row.successRate == 0
  {
    var row := PerformanceByModel(db)[i];
    var m := row.model;
    forall r | r in db.robots && RobotModel(r) == m
      ensures Matches(r, db.actions, RobotActs) == []
    {
      NoMatches(r, db.actions);
    }
    LeftJoinGroupUnmatched(db.robots, db.actions, RobotActs, RobotModel, ModelOfRow, m);
    var g := RowsWithKey(RobotActions(db), ModelOfRow, m);
    TallyAllNull(Seconds(g));
    PercentEnds(|g|, 10);
  }

  // ---------------------------------------------------------------------
  // /api/robot-specialization and /api/robot-specialization-detailed

  /** Grouping by `r.id_robot, r.nom_robot, r.modele, r.etat` is grouping by the whole robot row. */
  function RobotOfRow(p: (Robot, Option<Action>)): Robot {
    p.0
  }

  datatype RobotProfile = RobotProfile(robot: Robot, scenarios: nat, actions: nat, succes: nat, mitiges: nat,
                                       echecs: nat, successRate: Option<int>)

  /**
    One robot's row: `count(distinct a.id_scenario)` and `count(a.id_action)`
    over its non-null actions, the outcome counts, and the rate over
    `nullif(count(*), 0)`.
  */
  function RobotProfileOf(robot: Robot, g: seq<(Robot, Option<Action>)>): RobotProfile
    requires g != []
  {
    var col := Seconds(g);
    var t := TallyOf(col);
    RobotProfile(robot, CountDistinct(ScenarioIds(Present(col))), t.actions, t.succes, t.mitiges, t.echecs,
                 GuardedPercent(t.succes, t.rows, 10))
  }

  function RobotOfProfile(p: RobotProfile): Robot {
    p.robot
  }

  function ProfileRate(p: RobotProfile): Option<int> {
    p.successRate
  }

  predicate ByProfileRateDesc(x: RobotProfile, y: RobotProfile) {
    DescNullsLast(x.successRate, y.successRate)
  }

  lemma ByProfileRateDescPreorder()
    ensures TotalPreorder(ByProfileRateDesc)
  {
    NullableOrdersPreorder();
    ByKeyPreorder(ByProfileRateDesc, ProfileRate, DescNullsLast);
  }

  /** Every robot's row, before ordering and limit. */
  function RobotProfiles(db: Db): seq<RobotProfile> {
    Summarize(RobotActions(db), RobotOfRow, RobotProfileOf)
  }

  /**
    `/api/robot-specialization`: the 15 robots with the highest success
    rate, highest first (a null rate would come last). No robot left out
    has a higher rate than one listed, and when fewer than 15 rows come back
    every robot is listed.
  */
  function RobotSpecialization(db: Db): (out: seq<RobotProfile>)
    ensures |out| == Min(|RobotProfiles(db)|, 15)
    ensures Sorted(out, ByProfileRateDesc)
    ensures SummarizesGroups(out, RobotActions(db), RobotOfRow, RobotProfileOf, RobotOfProfile)
    ensures forall x, y | x in multiset(RobotProfiles(db)) - multiset(out) && y in out :: ByProfileRateDesc(y, x)
    ensures |out| < 15 ==> CoversKeys(out, RobotActions(db), RobotOfRow, RobotOfProfile)
  {
    var u := RobotProfiles(db);
    var out := TopN(u, ByProfileRateDesc, 15);
    ByProfileRateDescPreorder();
    SummaryFacts(RobotActions(db), RobotOfRow, RobotProfileOf, RobotOfProfile, out);
    LimitCoverage(RobotActions(db), RobotOfRow, RobotProfileOf, RobotOfProfile, out, 15);
    out
  }

  /** `/api/robot-specialization-detailed` runs the very same query. */
  function RobotSpecializationDetailed(db: Db): (out: seq<RobotProfile>)
    ensures out == RobotSpecialization(db)
  {
    RobotSpecialization(db)
  }

  /** With fewer than 15 robots, every robot is listed, including those that never acted. */
  lemma RobotSpecializationListsRobot(db: Db, r: Robot)
    requires r in db.robots
    requires |RobotSpecialization(db)| < 15
    ensures exists i | 0 <= i < |RobotSpecialization(db)| :: RobotSpecialization(db)[i].robot == r
  {
    RobotActionsKeepsRobots(db, r);
    var o :| (r, o) in RobotActions(db);
    var out := RobotSpecialization(db);
    var i := CoveredKey(out, RobotActions(db), RobotOfRow, RobotOfProfile, (r, o));
    assert out[i].robot == r;
  }

  /** The actions in one robot's group are that robot's actions. */
  lemma RobotGroupRows(db: Db, r: Robot)
    ensures forall p | p in RowsWithKey(RobotActions(db), RobotOfRow, r) && p.1.Some? ::
      p.1.value in db.actions && p.1.value.robot == r.id
  {
    forall p | p in RowsWithKey(RobotActions(db), RobotOfRow, r) && p.1.Some?
      ensures p.1.value in db.actions && p.1.value.robot == r.id
    {
      RobotActionsRow(db, p);
    }
  }

  /** A robot that acted has no null row in its group: `count(*)` equals `count(a.id_action)`. */
  lemma ActiveRobotGroup(db: Db, r: Robot)
    requires TallyOf(Seconds(RowsWithKey(RobotActions(db), RobotOfRow, r))).actions > 0
    ensures TallyOf(Seconds(RowsWithKey(RobotActions(db), RobotOfRow, r))).rows
         == TallyOf(Seconds(RowsWithKey(RobotActions(db), RobotOfRow, r))).actions
  {
    LeftJoinSelfGroupNoNulls(db.robots, db.actions, RobotActs, RobotOfRow, r);
  }

  /** The rate facts of one robot's summary, whatever report shows it. */
  lemma RobotProfileRate(db: Db, r: Robot)
    requires RowsWithKey(RobotActions(db), RobotOfRow, r) != []
    ensures var row := RobotProfileOf(r, RowsWithKey(RobotActions(db), RobotOfRow, r));
      && row.successRate.Some?
      && (row.actions == 0 ==> row.successRate == Some(0) && row.scenarios == 0
                               && row.succes == 0 && row.mitiges == 0 && row.echecs == 0)
      && (row.actions > 0 ==> row.successRate == Some(Percent(row.succes, row.actions, 10)))
  {
    var g := RowsWithKey(RobotActions(db), RobotOfRow, r);
    if TallyOf(Seconds(g)).actions == 0 {
      IdleProfile(r, g);
    } else {
      ActiveRobotGroup(db, r);
      ActiveProfile(r, g);
    }
  }

  /**
    A robot's `count(a.id_action)`: with `id_robot` a primary key, the
    number of actions whose `id_robot` is the robot's.
  */
  lemma RobotProfileActions(db: Db, r: Robot)
    requires PrimaryKeys(db)
    requires r in db.robots
    ensures var g := RowsWithKey(RobotActions(db), RobotOfRow, r);
      g != [] && RobotProfileOf(r, g).actions == |RowsWithKey(db.actions, ActionRobot, r.id)|
  {
    RobotActionsKeepsRobots(db, r);
    var o :| (r, o) in RobotActions(db);
    assert (r, o) in RowsWithKey(RobotActions(db), RobotOfRow, r);
    RobotRowsDistinct(db);
    KeyedGroupPresent(db.robots, db.actions, RobotActs, RobotOfRow, r, ActionRobot, r.id);
  }

  lemma RobotRowsDistinct(db: Db)
    requires PrimaryKeys(db)
    ensures NoDup(db.robots)
  {
    forall i, j | 0 <= i < j < |db.robots|
      ensures db.robots[i] != db.robots[j]
    {
      assert db.robots[i].id != db.robots[j].id;
    }
  }

  lemma IdleProfile(r: Robot, g: seq<(Robot, Option<Action>)>)
    requires g != [] && TallyOf(Seconds(g)).actions == 0
    ensures var row := RobotProfileOf(r, g);
      && row.successRate == Some(0) && row.scenarios == 0
      && row.succes == 0 && row.mitiges == 0 && row.echecs == 0
  {
    PercentEnds(|g|, 10);
    assert Present(Seconds(g)) == [];
  }

  lemma ActiveProfile(r: Robot, g: seq<(Robot, Option<Action>)>)
    requires g != [] && TallyOf(Seconds(g)).actions == TallyOf(Seconds(g)).rows
    ensures var row := RobotProfileOf(r, g);
      row.successRate == Some(Percent(row.succes, row.actions, 10))
  {
  }

  /**
    The `nullif` never applies: every rate is defined. A robot that never
    acted shows 0 actions, 0 scenarios and rate 0.0; otherwise the rate is
    its successes over its actions.
  */
  lemma RobotSpecializationRate(db: Db, i: nat)
    requires i < |RobotSpecialization(db)|
    ensures var row := RobotSpecialization(db)[i];
      && row.successRate.Some?
      && (row.actions == 0 ==> row.successRate == Some(0) && row.scenarios == 0
                               && row.succes == 0 && row.mitiges == 0 && row.echecs == 0)
      && (row.actions > 0 ==> row.successRate == Some(Percent(row.succes, row.actions, 10)))
  {
    RobotProfileRate(db, RobotSpecialization(db)[i].robot);
  }

  /** With valid outcomes the outcome counts add up to the robot's actions, and it cannot have faced more scenarios than actions. */
  lemma RobotSpecializationCounts(db: Db, i: nat)
    requires OutcomesValid(db)
    requires i < |RobotSpecialization(db)|
    ensures var row := RobotSpecialization(db)[i];
      row.succes + row.mitiges + row.echecs == row.actions && row.scenarios <= row.actions
  {
    var row := RobotSpecialization(db)[i];
    var g := RowsWithKey(RobotActions(db), RobotOfRow, row.robot);
    RobotGroupRows(db, row.robot);
    JoinedTallyComplete(db, g);
  }

  // ---------------------------------------------------------------------
  // /api/robot-ethical-maturity

  /** `a.id_scenario = s.id_scenario`; a null action joins no scenario. */
  predicate ActionInScenario(p: (Robot, Option<Action>), s: Scenario) {
    p.1.Some? && p.1.value.scenario == s.id
  }

  /** The rows of `robots r left join actions a … left join scenarios s on a.id_scenario = s.id_scenario`. */
  function RobotActionScenarios(db: Db): seq<((Robot, Option<Action>), Option<Scenario>)> {
    LeftJoin(RobotActions(db), db.scenarios, ActionInScenario)
  }

  /** The grouping key `r.id_robot, r.nom_robot, r.modele`. */
  function IdentityOf(r: Robot): (int, string, string) {
    (r.id, r.name, r.model)
  }

  function IdentityOfRow(q: ((Robot, Option<Action>), Option<Scenario>)): (int, string, string) {
    IdentityOf(q.0.0)
  }

  /** The action column `a.*` of the doubly joined rows. */
  function ActionsOf(g: seq<((Robot, Option<Action>), Option<Scenario>)>): (col: seq<Option<Action>>)
    ensures |col| == |g|
    ensures forall i | 0 <= i < |g| :: col[i] == g[i].0.1
  {
    Project(g, ActionOfRow)
  }

  function ActionOfRow(p: ((Robot, Option<Action>), Option<Scenario>)): Option<Action> {
    p.0.1
  }

  /**
    A robot's row: its identity (nom_robot and modele are its second and
    third parts), `count(distinct a.id_scenario)`, the rate over
    `nullif(count(*), 0)`, `count(distinct s.priorite_loi)` over the
    scenarios found, and `count(a.id_action)`, which the `having` clause
    tests.
  */
  datatype RobotMaturity = RobotMaturity(identity: (int, string, string), scenarios: nat, successRate: Option<int>,
                                         laws: nat, actions: nat)

  function RobotMaturityOf(identity: (int, string, string), g: seq<((Robot, Option<Action>), Option<Scenario>)>): RobotMaturity
    requires g != []
  {
    var col := ActionsOf(g);
    var t := TallyOf(col);
    RobotMaturity(identity, CountDistinct(ScenarioIds(Present(col))), GuardedPercent(t.succes, t.rows, 10),
                  CountDistinct(PrioritiesOf(Present(Seconds(g)))), t.actions)
  }

  function IdentityOfMaturity(m: RobotMaturity): (int, string, string) {
    m.identity
  }

  function MaturityRate(m: RobotMaturity): Option<int> {
    m.successRate
  }

  /** `having count(a.id_action) > 0` */
  predicate HasActions(m: RobotMaturity) {
    m.actions > 0
  }

  predicate ByMaturityRateDesc(x: RobotMaturity, y: RobotMaturity) {
    DescNullsLast(x.successRate, y.successRate)
  }

  lemma ByMaturityRateDescPreorder()
    ensures TotalPreorder(ByMaturityRateDesc)
  {
    NullableOrdersPreorder();
    ByKeyPreorder(ByMaturityRateDesc, MaturityRate, DescNullsLast);
  }

  /** The robots' rows that pass the `having` clause, before ordering and limit. */
  function MaturityCandidates(db: Db): seq<RobotMaturity> {
    Having(Summarize(RobotActionScenarios(db), IdentityOfRow, RobotMaturityOf), HasActions)
  }

  /** Each robot's row has a defined rate, since its group is never empty. */
  lemma MaturityRatesDefined(rows: seq<((Robot, Option<Action>), Option<Scenario>)>)
    ensures forall x | x in Summarize(rows, IdentityOfRow, RobotMaturityOf) :: x.successRate.Some?
  {
    var u := Summarize(rows, IdentityOfRow, RobotMaturityOf);
    forall x | x in u
      ensures x.successRate.Some?
    {
      var j :| 0 <= j < |u| && u[j] == x;
    }
  }

  lemma MaturityRowsActive(rows: seq<((Robot, Option<Action>), Option<Scenario>)>, out: seq<RobotMaturity>)
    requires multiset(out) <= multiset(Having(Summarize(rows, IdentityOfRow, RobotMaturityOf), HasActions))
    ensures forall i | 0 <= i < |out| :: out[i].actions > 0 && out[i].successRate.Some?
  {
    var cands := Having(Summarize(rows, IdentityOfRow, RobotMaturityOf), HasActions);
    MaturityRatesDefined(rows);
    forall i | 0 <= i < |out|
      ensures out[i].actions > 0 && out[i].successRate.Some?
    {
      var x := out[i];
      assert x in multiset(out);
      assert x in multiset(cands);
      assert x in cands;
      assert x in Summarize(rows, IdentityOfRow, RobotMaturityOf) && HasActions(x);
    }
  }

  /**
    `/api/robot-ethical-maturity`: at most 10 robots, all of which acted,
    highest success rate first; every rate is defined, and no robot left
    out that acted has a higher rate than one listed.
  */
  function RobotEthicalMaturity(db: Db): (out: seq<RobotMaturity>)
    ensures |out| == Min(|MaturityCandidates(db)|, 10)
    ensures multiset(out) <= multiset(MaturityCandidates(db))
    ensures Sorted(out, ByMaturityRateDesc)
    ensures SummarizesGroups(out, RobotActionScenarios(db), IdentityOfRow, RobotMaturityOf, IdentityOfMaturity)
    ensures forall i | 0 <= i < |out| :: out[i].actions > 0 && out[i].successRate.Some?
    ensures forall x, y | x in multiset(MaturityCandidates(db)) - multiset(out) && y in out :: ByMaturityRateDesc(y, x)
  {
    var cands := MaturityCandidates(db);
    var out := TopN(cands, ByMaturityRateDesc, 10);
    ByMaturityRateDescPreorder();
    SummaryFacts(RobotActionScenarios(db), IdentityOfRow, RobotMaturityOf, IdentityOfMaturity, out);
    MaturityRowsActive(RobotActionScenarios(db), out);
    out
  }

  /** The row of a robot that acted is a candidate: its group holds that action. */
  lemma ActiveRobotCandidate(db: Db, q: ((Robot, Option<Action>), Option<Scenario>))
    requires q in RobotActionScenarios(db) && q.0.1.Some?
    ensures exists c | c in MaturityCandidates(db) :: c.identity == IdentityOfRow(q)
  {
    var rows := RobotActionScenarios(db);
    var g := RowsWithKey(rows, IdentityOfRow, IdentityOfRow(q));
    assert q in g;
    var k :| 0 <= k < |g| && g[k] == q;
    assert ActionsOf(g)[k] == Some(q.0.1.value);
    assert q.0.1.value in Present(ActionsOf(g));
    var u := Summarize(rows, IdentityOfRow, RobotMaturityOf);
    var j := SummaryOfRow(rows, IdentityOfRow, RobotMaturityOf, q);
    assert HasActions(u[j]) && u[j].identity == IdentityOfRow(q);
  }


  /** A robot's action keeps its row through the scenario join. */
  lemma ActiveRobotJoined(db: Db, r: Robot, a: Action)
    requires r in db.robots && a in db.actions && a.robot == r.id
    ensures exists o :: ((r, Some(a)), o) in RobotActionScenarios(db)
  {
    assert (r, Some(a)) in RobotActions(db);
    LeftJoinKeepsLeft(RobotActions(db), db.scenarios, ActionInScenario, (r, Some(a)));
  }

  /** With fewer than 10 rows, every robot that acted is listed. */
  lemma RobotEthicalMaturityListsActiveRobot(db: Db, r: Robot, a: Action)
    requires r in db.robots && a in db.actions && a.robot == r.id
    requires |RobotEthicalMaturity(db)| < 10
    ensures exists i | 0 <= i < |RobotEthicalMaturity(db)| :: RobotEthicalMaturity(db)[i].identity == IdentityOf(r)
  {
    ActiveRobotJoined(db, r, a);
    var o :| ((r, Some(a)), o) in RobotActionScenarios(db);
    ActiveRobotCandidate(db, ((r, Some(a)), o));
    var c :| c in MaturityCandidates(db) && c.identity == IdentityOfRow(((r, Some(a)), o));
    MaturityListsCandidate(db, c);
    var out := RobotEthicalMaturity(db);
    var i :| 0 <= i < |out| && out[i] == c;
  }

  /** A short maturity report keeps every candidate. */
  lemma MaturityListsCandidate(db: Db, c: RobotMaturity)
    requires c in MaturityCandidates(db) && |RobotEthicalMaturity(db)| < 10
    ensures c in RobotEthicalMaturity(db)
  {
    LimitKeeps(RobotEthicalMaturity(db), MaturityCandidates(db), 10, c);
  }
}
