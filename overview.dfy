/**
  The dashboard's overview: the global counters and the timeline of the 50
  most recent actions with the names of the robot, the human and the
  scenario involved.
*/
module OverviewReports {
  import opened Wrappers
  import opened Relational
  import opened Sorting
  import opened Orderings
  import opened Schema
  import opened Measures
  import opened Summaries
  import opened Distributions

  // ---------------------------------------------------------------------
  // /api/global-stats

  /** The robot states the counters look for. */
  const Actif: string := "actif"
  const HorsService: string := "hors_service"
  const EnPanne: string := "en_panne"

  function StateOf(r: Robot): string {
    r.state
  }

  datatype Stats = Stats(totalActions: nat, totalRobots: nat, activeRobots: nat, inactiveRobots: nat,
                         brokenRobots: nat, totalHumans: nat, totalScenarios: nat, totalSucces: nat,
                         totalMitiges: nat, totalEchecs: nat, successRate: Option<int>)

  /**
    `/api/global-stats`: one row of scalar sub-queries (a select without
    `from` always yields exactly one row). The rate is a percentage with two
    decimals, null when there is no action instead of a division by zero.
  */
  function GlobalStats(db: Db): (s: Stats)
    ensures s.successRate.None? <==> s.totalActions == 0
    ensures s.totalActions > 0 ==> s.successRate == Some(Percent(s.totalSucces, s.totalActions, 100))
    ensures s.successRate.Some? ==> 0 <= s.successRate.value <= 10000
    ensures s.totalSucces + s.totalMitiges + s.totalEchecs <= s.totalActions
    ensures s.activeRobots + s.inactiveRobots + s.brokenRobots <= s.totalRobots
  {
    var succes := |RowsWithKey(db.actions, OutcomeOf, Succes)|;
    StatesAtMostAll(db.actions, OutcomeOf, Succes, Mitigue, Echec);
    StatesAtMostAll(db.robots, StateOf, Actif, HorsService, EnPanne);
    Stats(|db.actions|, |db.robots|,
          |RowsWithKey(db.robots, StateOf, Actif)|,
          |RowsWithKey(db.robots, StateOf, HorsService)|,
          |RowsWithKey(db.robots, StateOf, EnPanne)|,
          |db.humans|, |db.scenarios|,
          succes,
          |RowsWithKey(db.actions, OutcomeOf, Mitigue)|,
          |RowsWithKey(db.actions, OutcomeOf, Echec)|,
          GuardedPercent(succes, |db.actions|, 100))
  }

  /**
    Rows counted under three different values of a column are different
    rows: together they are at most all the rows, and exactly all of them
    when the column holds no other value.
  */
  lemma {:induction false} StatesAtMostAll<R(!new)>(rows: seq<R>, key: R -> string, a: string, b: string, c: string)
    requires a != b && b != c && a != c
    ensures |RowsWithKey(rows, key, a)| + |RowsWithKey(rows, key, b)| + |RowsWithKey(rows, key, c)| <= |rows|
    ensures (forall r | r in rows :: key(r) in {a, b, c}) ==>
      |RowsWithKey(rows, key, a)| + |RowsWithKey(rows, key, b)| + |RowsWithKey(rows, key, c)| == |rows|
  {
    if rows != [] {
      var r, rest := rows[0], rows[1..];
      assert |RowsWithKey(rows, key, a)| == (if key(r) == a then 1 else 0) + |RowsWithKey(rest, key, a)|;
      assert |RowsWithKey(rows, key, b)| == (if key(r) == b then 1 else 0) + |RowsWithKey(rest, key, b)|;
      assert |RowsWithKey(rows, key, c)| == (if key(r) == c then 1 else 0) + |RowsWithKey(rest, key, c)|;
      assert forall x | x in rest :: x in rows;
      StatesAtMostAll(rest, key, a, b, c);
    }
  }

  /**
    With only the three outcome labels recorded, the outcome counters add
    up to the actions, and the rate, when there are actions, is the share of
    successes rounded to two decimals.
  */
  lemma GlobalStatsComplete(db: Db)
    requires OutcomesValid(db)
    ensures var s := GlobalStats(db);
      && s.totalSucces + s.totalMitiges + s.totalEchecs == s.totalActions
      && (s.totalActions > 0 ==> s.successRate == Some(Percent(s.totalSucces, s.totalActions, 100)))
  {
    StatesAtMostAll(db.actions, OutcomeOf, Succes, Mitigue, Echec);
  }

  /** The outcome counters are the counts `/api/actions-results` reports for the same labels. */
  lemma GlobalStatsMatchesResults(db: Db, i: nat)
    requires i < |ActionsResults(db)|
    ensures ActionsResults(db)[i].key == Succes ==> ActionsResults(db)[i].count == GlobalStats(db).totalSucces
    ensures ActionsResults(db)[i].key == Mitigue ==> ActionsResults(db)[i].count == GlobalStats(db).totalMitiges
    ensures ActionsResults(db)[i].key == Echec ==> ActionsResults(db)[i].count == GlobalStats(db).totalEchecs
  {
  }

  /** The success counter is the aggregate `count(*) filter (where resultat = 'succes')` over all actions. */
  lemma GlobalStatsMatchesTally(db: Db)
    ensures var t := TallyOf(AllPresent(db.actions));
      && GlobalStats(db).totalActions == t.rows
      && GlobalStats(db).totalSucces == t.succes
      && GlobalStats(db).totalMitiges == t.mitiges
      && GlobalStats(db).totalEchecs == t.echecs
  {
    OutcomeCounts(db.actions);
  }

  // ---------------------------------------------------------------------
  // /api/timeline

  /** `a.id_robot = r.id_robot`, with the action on the left. */
  predicate ByRobot(a: Action, r: Robot) {
    RobotActs(r, a)
  }

  /** `a.id_humain = h.id_humain` on the rows joined so far. */
  predicate WithHuman(p: (Action, Option<Robot>), h: Human) {
    HumanInvolved(h, p.0)
  }

  /** `a.id_scenario = s.id_scenario` on the rows joined so far. */
  predicate InScenario(p: ((Action, Option<Robot>), Option<Human>), s: Scenario) {
    ScenarioFaced(s, p.0.0)
  }

  type TimelineRow = (((Action, Option<Robot>), Option<Human>), Option<Scenario>)

  function ActionRobots(db: Db): seq<(Action, Option<Robot>)> {
    LeftJoin(db.actions, db.robots, ByRobot)
  }

  function ActionRobotHumans(db: Db): seq<((Action, Option<Robot>), Option<Human>)> {
    LeftJoin(ActionRobots(db), db.humans, WithHuman)
  }

  /** `actions a left join robots r … left join humains h … left join scenarios s …` */
  function TimelineRows(db: Db): seq<TimelineRow> {
    LeftJoin(ActionRobotHumans(db), db.scenarios, InScenario)
  }

  datatype TimelineEntry = TimelineEntry(timestamp: int, action: string, outcome: string, robotName: Option<string>,
                                         humanName: Option<string>, description: Option<string>)

  /** The selected columns of one joined row; a column of a table that joined nothing is null. */
  function EntryOf(x: TimelineRow): TimelineEntry {
    var a := x.0.0.0;
    TimelineEntry(a.timestamp, a.kind, a.outcome,
                  if x.0.0.1.Some? then Some(x.0.0.1.value.name) else None,
                  if x.0.1.Some? then Some(x.0.1.value.name) else None,
                  if x.1.Some? then Some(x.1.value.description) else None)
  }

  function Entries(db: Db): (es: seq<TimelineEntry>)
    ensures |es| == |TimelineRows(db)|
    ensures forall k | 0 <= k < |es| :: es[k] == EntryOf(TimelineRows(db)[k])
  {
    Project(TimelineRows(db), EntryOf)
  }

  predicate ByTimestampDesc(x: TimelineEntry, y: TimelineEntry) {
    Descending(x.timestamp, y.timestamp)
  }

  lemma ByTimestampDescPreorder()
    ensures TotalPreorder(ByTimestampDesc)
  {
  }

  /**
    `/api/timeline`: the 50 most recent joined rows, newest first; no row
    left out is newer than a row kept.
  */
  function Timeline(db: Db): (out: seq<TimelineEntry>)
    ensures |out| == Min(|Entries(db)|, 50)
    ensures multiset(out) <= multiset(Entries(db))
    ensures Sorted(out, ByTimestampDesc)
    ensures forall x, y | x in multiset(Entries(db)) - multiset(out) && y in out :: ByTimestampDesc(y, x)
  {
    ByTimestampDescPreorder();
    TopN(Entries(db), ByTimestampDesc, 50)
  }

  /** An entry the limit dropped is no newer than any entry kept. */
  lemma TimelineNewest(db: Db, x: TimelineEntry, y: TimelineEntry)
    requires x in multiset(Entries(db)) - multiset(Timeline(db)) && y in Timeline(db)
    ensures y.timestamp >= x.timestamp
  {
    assert ByTimestampDesc(y, x);
  }

  /**
    What an entry says about an action: its own columns, and each name is
    that of a row joined on the action's key, null exactly when no such row
    exists.
  */
  ghost predicate Describes(db: Db, e: TimelineEntry, a: Action) {
    && e.timestamp == a.timestamp && e.action == a.kind && e.outcome == a.outcome
    && (e.robotName.None? <==> forall r | r in db.robots :: r.id != a.robot)
    && (e.robotName.Some? ==> exists r | r in db.robots :: r.id == a.robot && r.name == e.robotName.value)
    && (e.humanName.None? <==> forall h | h in db.humans :: h.id != a.human)
    && (e.humanName.Some? ==> exists h | h in db.humans :: h.id == a.human && h.name == e.humanName.value)
    && (e.description.None? <==> forall s | s in db.scenarios :: s.id != a.scenario)
    && (e.description.Some? ==> exists s | s in db.scenarios :: s.id == a.scenario && s.description == e.description.value)
  }

  lemma ActionRobotsRow(db: Db, p: (Action, Option<Robot>))
    requires p in ActionRobots(db)
    ensures p.0 in db.actions
    ensures p.1.None? <==> forall r | r in db.robots :: r.id != p.0.robot
    ensures p.1.Some? ==> p.1.value in db.robots && p.1.value.id == p.0.robot
  {
    LeftJoinRow(db.actions, db.robots, ByRobot, p);
    if forall r | r in db.robots :: r.id != p.0.robot {
      MatchesNone(p.0, db.robots, ByRobot);
    }
  }

  lemma ActionRobotHumansRow(db: Db, q: ((Action, Option<Robot>), Option<Human>))
    requires q in ActionRobotHumans(db)
    ensures q.0 in ActionRobots(db)
    ensures q.1.None? <==> forall h | h in db.humans :: h.id != q.0.0.human
    ensures q.1.Some? ==> q.1.value in db.humans && q.1.value.id == q.0.0.human
  {
    LeftJoinRow(ActionRobots(db), db.humans, WithHuman, q);
    if forall h | h in db.humans :: h.id != q.0.0.human {
      MatchesNone(q.0, db.humans, WithHuman);
    }
  }

  lemma TimelineRowsRow(db: Db, x: TimelineRow)
    requires x in TimelineRows(db)
    ensures x.0 in ActionRobotHumans(db)
    ensures x.1.None? <==> forall s | s in db.scenarios :: s.id != x.0.0.0.scenario
    ensures x.1.Some? ==> x.1.value in db.scenarios && x.1.value.id == x.0.0.0.scenario
  {
    LeftJoinRow(ActionRobotHumans(db), db.scenarios, InScenario, x);
    if forall s | s in db.scenarios :: s.id != x.0.0.0.scenario {
      MatchesNone(x.0, db.scenarios, InScenario);
    }
  }

  /** Every joined row describes one action. */
  lemma EntryDescribes(db: Db, x: TimelineRow)
    requires x in TimelineRows(db)
    ensures x.0.0.0 in db.actions && Describes(db, EntryOf(x), x.0.0.0)
  {
    TimelineRowsRow(db, x);
    ActionRobotHumansRow(db, x.0);
    ActionRobotsRow(db, x.0.0);
  }

  /** Every timeline entry describes an action: its robot, human and scenario names come from the joined rows. */
  lemma TimelineEntryDescribes(db: Db, i: nat)
    requires i < |Timeline(db)|
    ensures exists a | a in db.actions :: Describes(db, Timeline(db)[i], a)
  {
    var e := Timeline(db)[i];
    assert e in multiset(Timeline(db));
    assert e in multiset(Entries(db));
    var k :| 0 <= k < |Entries(db)| && Entries(db)[k] == e;
    var x := TimelineRows(db)[k];
    EntryDescribes(db, x);
  }

  /** Every action has a joined row: the left joins drop no action. */
  lemma ActionHasRow(db: Db, a: Action)
    requires a in db.actions
    ensures exists x | x in TimelineRows(db) :: x.0.0.0 == a
  {
    LeftJoinKeepsLeft(db.actions, db.robots, ByRobot, a);
    var o1 :| (a, o1) in ActionRobots(db);
    LeftJoinKeepsLeft(ActionRobots(db), db.humans, WithHuman, (a, o1));
    var o2 :| ((a, o1), o2) in ActionRobotHumans(db);
    LeftJoinKeepsLeft(ActionRobotHumans(db), db.scenarios, InScenario, ((a, o1), o2));
    var o3 :| (((a, o1), o2), o3) in TimelineRows(db);
  }

  lemma EntryListed(db: Db, x: TimelineRow)
    requires x in TimelineRows(db)
    ensures EntryOf(x) in Entries(db)
  {
    var k :| 0 <= k < |TimelineRows(db)| && TimelineRows(db)[k] == x;
    assert Entries(db)[k] == EntryOf(x);
  }

  lemma TimelineKeepsEntry(db: Db, e: TimelineEntry)
    requires e in Entries(db)
    requires |Timeline(db)| < 50
    ensures e in Timeline(db)
  {
    LimitKeeps(Timeline(db), Entries(db), 50, e);
  }

  /** A timeline shorter than 50 entries shows every action, with an entry that describes it. */
  lemma TimelineListsAction(db: Db, a: Action)
    requires a in db.actions
    requires |Timeline(db)| < 50
    ensures exists i | 0 <= i < |Timeline(db)| :: Describes(db, Timeline(db)[i], a)
  {
    ActionHasRow(db, a);
    var x :| x in TimelineRows(db) && x.0.0.0 == a;
    EntryDescribes(db, x);
    EntryListed(db, x);
    TimelineKeepsEntry(db, EntryOf(x));
    var i :| 0 <= i < |Timeline(db)| && Timeline(db)[i] == EntryOf(x);
  }

  /**
    With primary keys every action joins at most one robot, human and
    scenario, so there is exactly one joined row per action and the
    timeline holds min(number of actions, 50) entries.
  */
  lemma TimelineLength(db: Db)
    requires PrimaryKeys(db)
    ensures |TimelineRows(db)| == |db.actions|
    ensures |Timeline(db)| == Min(|db.actions|, 50)
  {
    forall a | a in db.actions
      ensures |Matches(a, db.robots, ByRobot)| <= 1
    {
      KeyedMatchesAtMostOne(a, db.robots, ByRobot, RobotId);
    }
    LeftJoinOneToOne(db.actions, db.robots, ByRobot);
    forall p | p in ActionRobots(db)
      ensures |Matches(p, db.humans, WithHuman)| <= 1
    {
      KeyedMatchesAtMostOne(p, db.humans, WithHuman, HumanId);
    }
    LeftJoinOneToOne(ActionRobots(db), db.humans, WithHuman);
    forall q | q in ActionRobotHumans(db)
      ensures |Matches(q, db.scenarios, InScenario)| <= 1
    {
      KeyedMatchesAtMostOne(q, db.scenarios, InScenario, ScenarioId);
    }
    LeftJoinOneToOne(ActionRobotHumans(db), db.scenarios, InScenario);
  }
}
