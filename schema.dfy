/**
  The four tables of the colony database. `etat`, `vulnerabilite` and
  `resultat` stay text: the queries compare them with string literals, and
  the database admits any other value.
*/
module Schema {
  import opened Wrappers
  import opened Relational

  /** robots(id_robot, nom_robot, modele, etat) */
  datatype Robot = Robot(id: int, name: string, model: string, state: string)

  /** humains(id_humain, nom, vulnerabilite, localisation) */
  datatype Human = Human(id: int, name: string, vulnerability: string, location: string)

  /** scenarios(id_scenario, description, priorite_loi) */
  datatype Scenario = Scenario(id: int, description: string, lawPriority: int)

  /**
    actions(id_action, id_robot, id_humain, id_scenario, action, timestamp, resultat);
    a timestamp is a number that orders like the instants it stands for.
  */
  datatype Action = Action(id: int, robot: int, human: int, scenario: int,
                           kind: string, timestamp: int, outcome: string)

  datatype Db = Db(robots: seq<Robot>, humans: seq<Human>, scenarios: seq<Scenario>, actions: seq<Action>)

  /** The outcome labels the reports count. */
  const Succes: string := "succes"
  const Mitigue: string := "mitigue"
  const Echec: string := "echec"

  predicate ValidOutcome(o: string) {
    o == Succes || o == Mitigue || o == Echec
  }

  function OutcomeOf(a: Action): string {
    a.outcome
  }

  /** Every recorded outcome is one of the three labels the reports count. */
  ghost predicate OutcomesValid(db: Db) {
    forall a | a in db.actions :: ValidOutcome(a.outcome)
  }

  /** Each table's identifier column is a primary key. */
  ghost predicate PrimaryKeys(db: Db) {
    && (forall i, j | 0 <= i < j < |db.robots| :: db.robots[i].id != db.robots[j].id)
    && (forall i, j | 0 <= i < j < |db.humans| :: db.humans[i].id != db.humans[j].id)
    && (forall i, j | 0 <= i < j < |db.scenarios| :: db.scenarios[i].id != db.scenarios[j].id)
    && (forall i, j | 0 <= i < j < |db.actions| :: db.actions[i].id != db.actions[j].id)
  }

  // Join conditions, written with the dimension table on the left.

  /** `r.id_robot = a.id_robot` */
  predicate RobotActs(r: Robot, a: Action) {
    a.robot == r.id
  }

  /** `h.id_humain = a.id_humain` */
  predicate HumanInvolved(h: Human, a: Action) {
    a.human == h.id
  }

  /** `s.id_scenario = a.id_scenario` */
  predicate ScenarioFaced(s: Scenario, a: Action) {
    a.scenario == s.id
  }

  function RobotId(r: Robot): int {
    r.id
  }

  function HumanId(h: Human): int {
    h.id
  }

  function ScenarioId(s: Scenario): int {
    s.id
  }

  /** The `id_robot` of an action. */
  function ActionRobot(a: Action): int {
    a.robot
  }

  /** The `id_scenario` of an action. */
  function ActionScenario(a: Action): int {
    a.scenario
  }

  /** The action's `id_humain` names a human of the table, so an inner join with `humains` keeps it. */
  function HumanKnown(db: Db): Action -> bool {
    a => exists h | h in db.humans :: HumanInvolved(h, a)
  }

  /** The action's `id_scenario` names a scenario of the table, so an inner join with `scenarios` keeps it. */
  function ScenarioKnown(db: Db): Action -> bool {
    a => exists s | s in db.scenarios :: ScenarioFaced(s, a)
  }

  /** An action column in which every row is present, for queries over `actions` or an inner join. */
  function AllPresent<T(!new)>(xs: seq<T>): (os: seq<Option<T>>)
    ensures |os| == |xs|
    ensures forall i | 0 <= i < |xs| :: os[i] == Some(xs[i])
  {
    Project(xs, NonNull)
  }

  function NonNull<T>(x: T): Option<T> {
    Some(x)
  }

  /** The `id_scenario` column of some actions. */
  function ScenarioIds(xs: seq<Action>): (ids: seq<int>)
    ensures |ids| == |xs|
    ensures forall i | 0 <= i < |xs| :: ids[i] == xs[i].scenario
  {
    Project(xs, ActionScenario)
  }

  /** The `id_scenario` column of some scenarios. */
  function IdsOf(xs: seq<Scenario>): (ids: seq<int>)
    ensures |ids| == |xs|
    ensures forall i | 0 <= i < |xs| :: ids[i] == xs[i].id
  {
    Project(xs, ScenarioId)
  }

  /** The `priorite_loi` column of some scenarios. */
  function PrioritiesOf(xs: seq<Scenario>): (ps: seq<int>)
    ensures |ps| == |xs|
    ensures forall i | 0 <= i < |xs| :: ps[i] == xs[i].lawPriority
  {
    Project(xs, LawOf)
  }

  /** The `priorite_loi` of a scenario. */
  function LawOf(s: Scenario): int {
    s.lawPriority
  }
}
