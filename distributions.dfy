/**
  The count-only distributions: how many robots per model and state, actions
  per outcome, humans per vulnerability level and per sector, and joined
  (human, action) rows per vulnerability level and outcome.
*/
module Distributions {
  import opened Relational
  import opened Sorting
  import opened Orderings
  import opened Schema
  import opened Reporting

  function ModelAndState(r: Robot): (string, string) {
    (r.model, r.state)
  }

  predicate ByTextPair(x: KeyCount<(string, string)>, y: KeyCount<(string, string)>) {
    TextPairLe(x.key, y.key)
  }

  /** `/api/robots-status`: robots per (modele, etat), ordered by modele, then etat. */
  function RobotsStatus(db: Db): (out: seq<KeyCount<(string, string)>>)
    ensures Sorted(out, ByTextPair)
    ensures CountsRows(out, db.robots, ModelAndState)
  {
    var out := SortBy(CountBy(db.robots, ModelAndState), ByTextPair);
    TextPairLePreorder();
    ByKeyPreorder(ByTextPair, KeyOf, TextPairLe);
    CountByFacts(db.robots, ModelAndState, out);
    out
  }

  /** Since no two rows share a (modele, etat) pair, the rows are strictly ascending. */
  lemma RobotsStatusStrictlyAscending(db: Db)
    ensures var out := RobotsStatus(db);
      forall i, j | 0 <= i < j < |out| ::
        TextPairLe(out[i].key, out[j].key) && !TextPairLe(out[j].key, out[i].key)
  {
    var out := RobotsStatus(db);
    forall i, j | 0 <= i < j < |out|
      ensures !TextPairLe(out[j].key, out[i].key)
    {
      TextPairLeStrict(out[i].key, out[j].key);
    }
  }

  predicate ByText(x: KeyCount<string>, y: KeyCount<string>) {
    TextLe(x.key, y.key)
  }

  /** `/api/actions-results`: actions per resultat, ordered by resultat. */
  function ActionsResults(db: Db): (out: seq<KeyCount<string>>)
    ensures Sorted(out, ByText)
    ensures CountsRows(out, db.actions, OutcomeOf)
  {
    var out := SortBy(CountBy(db.actions, OutcomeOf), ByText);
    TextLePreorder();
    ByKeyPreorder(ByText, KeyOf, TextLe);
    CountByFacts(db.actions, OutcomeOf, out);
    out
  }

  /** With only the three outcome labels recorded, there are at most three rows. */
  lemma ActionsResultsAtMostThree(db: Db)
    requires OutcomesValid(db)
    ensures |ActionsResults(db)| <= 3
  {
    var labels: set<string> := {Succes, Mitigue, Echec};
    assert forall r | r in db.actions :: OutcomeOf(r) in labels;
    AtMostOneRowPerLabel(ActionsResults(db), db.actions, OutcomeOf, labels);
  }

  function VulnerabilityOf(h: Human): string {
    h.vulnerability
  }

  predicate ByVulnerability(x: KeyCount<string>, y: KeyCount<string>) {
    VulnerabilityLe(x.key, y.key)
  }

  lemma VulnerabilityLePreorder()
    ensures TotalPreorder(VulnerabilityLe)
  {
    NullableOrdersPreorder();
    ByKeyPreorder(VulnerabilityLe, VulnerabilityRank, AscNullsLast);
  }

  /**
    `/api/humains-vulnerability`: humans per vulnerability level, in the
    fixed order faible, moyenne, elevee; any other label has a null rank
    and comes after them.
  */
  function HumansVulnerability(db: Db): (out: seq<KeyCount<string>>)
    ensures Sorted(out, ByVulnerability)
    ensures CountsRows(out, db.humans, VulnerabilityOf)
  {
    var out := SortBy(CountBy(db.humans, VulnerabilityOf), ByVulnerability);
    VulnerabilityLePreorder();
    ByKeyPreorder(ByVulnerability, KeyOf, VulnerabilityLe);
    CountByFacts(db.humans, VulnerabilityOf, out);
    out
  }

  /**
    When all three levels occur they come exactly in the order faible,
    moyenne, elevee, although alphabetically elevee comes first.
  */
  lemma HumansVulnerabilityOrder(db: Db, i: nat, j: nat)
    requires i < |HumansVulnerability(db)| && j < |HumansVulnerability(db)|
    requires HumansVulnerability(db)[i].key == "faible"
    requires HumansVulnerability(db)[j].key in {"moyenne", "elevee"}
    ensures i < j
  {
    VulnerabilityOrder("");
    SortedBefore(HumansVulnerability(db), ByVulnerability, i, j);
  }

  function LocationOf(h: Human): string {
    h.location
  }

  predicate ByCountDesc(x: KeyCount<string>, y: KeyCount<string>) {
    Descending(x.count, y.count)
  }

  lemma ByCountDescPreorder()
    ensures TotalPreorder(ByCountDesc)
  {
  }

  /** `/api/sectors-distribution`: humans per localisation (as secteur), largest count first. */
  function SectorsDistribution(db: Db): (out: seq<KeyCount<string>>)
    ensures Sorted(out, ByCountDesc)
    ensures CountsRows(out, db.humans, LocationOf)
  {
    var out := SortBy(CountBy(db.humans, LocationOf), ByCountDesc);
    ByCountDescPreorder();
    CountByFacts(db.humans, LocationOf, out);
    out
  }

  /** The rows of `humains h join actions a on h.id_humain = a.id_humain`. */
  function HumanActions(db: Db): seq<(Human, Action)> {
    InnerJoin(db.humans, db.actions, HumanInvolved)
  }

  /**
    With `id_humain` a primary key, the join has exactly one row per action
    whose human exists, so one per action when every action's human exists.
  */
  lemma HumanActionsCount(db: Db)
    requires PrimaryKeys(db)
    ensures |HumanActions(db)| == |RowsWithKey(db.actions, HumanKnown(db), true)|
    ensures (forall a | a in db.actions :: HumanKnown(db)(a)) ==> |HumanActions(db)| == |db.actions|
  {
    InnerJoinSizeByRight(db.humans, db.actions, HumanInvolved, HumanId, HumanKnown(db));
    if forall a | a in db.actions :: HumanKnown(db)(a) {
      RowsWithKeyAll(db.actions, HumanKnown(db), true);
    }
  }

  function VulnerabilityAndOutcome(p: (Human, Action)): (string, string) {
    (p.0.vulnerability, p.1.outcome)
  }

  /**
    `/api/vulnerability-vs-outcomes`: joined (human, action) rows per
    (vulnerabilite, resultat), ordered alphabetically by both (this query
    does not use the faible/moyenne/elevee rank). An action whose human is
    missing is not counted.
  */
  function VulnerabilityVsOutcomes(db: Db): (out: seq<KeyCount<(string, string)>>)
    ensures Sorted(out, ByTextPair)
    ensures CountsRows(out, HumanActions(db), VulnerabilityAndOutcome)
  {
    var out := SortBy(CountBy(HumanActions(db), VulnerabilityAndOutcome), ByTextPair);
    TextPairLePreorder();
    ByKeyPreorder(ByTextPair, KeyOf, TextPairLe);
    CountByFacts(HumanActions(db), VulnerabilityAndOutcome, out);
    out
  }
}
