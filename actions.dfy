/**
  The reports over the actions alone or over `humains h join actions a on
  h.id_humain = a.id_humain`: success per sector, per vulnerability level
  and per kind of action. Every group is a group of actions, so `count(*)`
  is never 0 and the unguarded division in `taux_reussite` never fails.
*/
module ActionReports {
  import opened Wrappers
  import opened Relational
  import opened Sorting
  import opened Orderings
  import opened Schema
  import opened Measures
  import opened Summaries
  import opened Distributions

  function SectorOfPair(p: (Human, Action)): string {
    p.0.location
  }

  function VulnerabilityOfPair(p: (Human, Action)): string {
    p.0.vulnerability
  }

  /** The actions of a joined group are actions. */
  lemma HumanGroupActions(db: Db, key: ((Human, Action)) -> string, k: string)
    ensures forall p | p in RowsWithKey(HumanActions(db), key, k) :: p.1 in db.actions
  {
  }

  /**
    What a group of joined rows tallies: `count(*)` is its size, each
    outcome count the number of its actions with that outcome, and with
    valid outcomes these add up to `count(*)`.
  */
  lemma JoinedGroupTally<L(!new)>(db: Db, g: seq<(L, Action)>)
    requires forall p | p in g :: p.1 in db.actions
    ensures var t := TallyOf(AllPresent(Seconds(g)));
      && t.rows == |g|
      && t.succes == |RowsWithKey(Seconds(g), OutcomeOf, Succes)|
      && t.mitiges == |RowsWithKey(Seconds(g), OutcomeOf, Mitigue)|
      && t.echecs == |RowsWithKey(Seconds(g), OutcomeOf, Echec)|
      && (OutcomesValid(db) ==> t.succes + t.mitiges + t.echecs == t.rows)
  {
    OutcomeCounts(Seconds(g));
    if OutcomesValid(db) {
      JoinedActionsComplete(db, g);
    }
  }

  // ---------------------------------------------------------------------
  // /api/sector-risk-analysis

  datatype SectorRisk = SectorRisk(sector: string, actions: nat, succes: nat, echecs: nat, successRate: int)

  /** One sector's row: `count(*)`, the successes, the failures and the unguarded rate. */
  function SectorRiskOf(sector: string, g: seq<(Human, Action)>): SectorRisk
    requires g != []
  {
    var t := TallyOf(AllPresent(Seconds(g)));
    TallyNoNulls(Seconds(g));
    SectorRisk(sector, t.rows, t.succes, t.echecs, Percent(t.succes, t.rows, 10))
  }

  function SectorOfRisk(x: SectorRisk): string {
    x.sector
  }

  function ActionsOfRisk(x: SectorRisk): nat {
    x.actions
  }

  predicate ByRiskRateDesc(x: SectorRisk, y: SectorRisk) {
    Descending(x.successRate, y.successRate)
  }

  lemma ByRiskRateDescPreorder()
    ensures TotalPreorder(ByRiskRateDesc)
  {
  }

  /** `/api/sector-risk-analysis`: one row per localisation with an action, highest rate first. */
  function SectorRiskAnalysis(db: Db): (out: seq<SectorRisk>)
    ensures Sorted(out, ByRiskRateDesc)
    ensures SummarizesGroups(out, HumanActions(db), SectorOfPair, SectorRiskOf, SectorOfRisk)
    ensures CoversKeys(out, HumanActions(db), SectorOfPair, SectorOfRisk)
  {
    var u := Summarize(HumanActions(db), SectorOfPair, SectorRiskOf);
    var out := SortBy(u, ByRiskRateDesc);
    ByRiskRateDescPreorder();
    SummaryFacts(HumanActions(db), SectorOfPair, SectorRiskOf, SectorOfRisk, out);
    SummaryCoverage(HumanActions(db), SectorOfPair, SectorRiskOf, SectorOfRisk, out);
    out
  }

  /**
    A sector's row counts its joined actions (at least one), its successes
    and its failures among them, and the rate is at most 100.0.
  */
  lemma SectorRiskAnalysisCounts(db: Db, i: nat)
    requires i < |SectorRiskAnalysis(db)|
    ensures var row := SectorRiskAnalysis(db)[i];
      var g := Seconds(RowsWithKey(HumanActions(db), SectorOfPair, row.sector));
      && row.actions == |g| >= 1
      && row.succes == |RowsWithKey(g, OutcomeOf, Succes)|
      && row.echecs == |RowsWithKey(g, OutcomeOf, Echec)|
      && 0 <= row.successRate <= 1000
  {
    var sector := SectorRiskAnalysis(db)[i].sector;
    HumanGroupActions(db, SectorOfPair, sector);
    JoinedGroupTally(db, RowsWithKey(HumanActions(db), SectorOfPair, sector));
  }

  /** Every joined action belongs to exactly one sector: the counts add up to the joined rows. */
  lemma SectorRiskAnalysisTotal(db: Db)
    ensures SumOf(SectorRiskAnalysis(db), ActionsOfRisk) == |HumanActions(db)|
    ensures PrimaryKeys(db) ==> SumOf(SectorRiskAnalysis(db), ActionsOfRisk) == |RowsWithKey(db.actions, HumanKnown(db), true)|
  {
    forall sector, g | g != []
      ensures ActionsOfRisk(SectorRiskOf(sector, g)) == |g|
    {
      TallyNoNulls(Seconds(g));
    }
    SummarySizes(HumanActions(db), SectorOfPair, SectorRiskOf, ActionsOfRisk, SectorRiskAnalysis(db));
    if PrimaryKeys(db) {
      HumanActionsCount(db);
    }
  }

  // ---------------------------------------------------------------------
  // /api/vulnerability-impact

  datatype VulnerabilityImpactRow = VulnerabilityImpactRow(vulnerability: string, total: nat, succes: nat,
                                                           mitiges: nat, echecs: nat, successRate: int)

  /** One vulnerability level's row: `count(*)`, the three outcome counts and the unguarded rate. */
  function VulnerabilityImpactOf(v: string, g: seq<(Human, Action)>): VulnerabilityImpactRow
    requires g != []
  {
    var t := TallyOf(AllPresent(Seconds(g)));
    TallyNoNulls(Seconds(g));
    VulnerabilityImpactRow(v, t.rows, t.succes, t.mitiges, t.echecs, Percent(t.succes, t.rows, 10))
  }

  function VulnerabilityOfImpact(x: VulnerabilityImpactRow): string {
    x.vulnerability
  }

  function TotalOfImpact(x: VulnerabilityImpactRow): nat {
    x.total
  }

  predicate ByImpactVulnerability(x: VulnerabilityImpactRow, y: VulnerabilityImpactRow) {
    VulnerabilityLe(x.vulnerability, y.vulnerability)
  }

  lemma ByImpactVulnerabilityPreorder()
    ensures TotalPreorder(ByImpactVulnerability)
  {
    VulnerabilityLePreorder();
    ByKeyPreorder(ByImpactVulnerability, VulnerabilityOfImpact, VulnerabilityLe);
  }

  /** `/api/vulnerability-impact`: one row per vulnerabilite with an action, faible, moyenne, elevee, then others. */
  function VulnerabilityImpact(db: Db): (out: seq<VulnerabilityImpactRow>)
    ensures Sorted(out, ByImpactVulnerability)
    ensures SummarizesGroups(out, HumanActions(db), VulnerabilityOfPair, VulnerabilityImpactOf, VulnerabilityOfImpact)
    ensures CoversKeys(out, HumanActions(db), VulnerabilityOfPair, VulnerabilityOfImpact)
  {
    var u := Summarize(HumanActions(db), VulnerabilityOfPair, VulnerabilityImpactOf);
    var out := SortBy(u, ByImpactVulnerability);
    ByImpactVulnerabilityPreorder();
    SummaryFacts(HumanActions(db), VulnerabilityOfPair, VulnerabilityImpactOf, VulnerabilityOfImpact, out);
    SummaryCoverage(HumanActions(db), VulnerabilityOfPair, VulnerabilityImpactOf, VulnerabilityOfImpact, out);
    out
  }

  /** A level's row counts its joined actions (at least one); with valid outcomes the three counts add up to it. */
  lemma VulnerabilityImpactCounts(db: Db, i: nat)
    requires i < |VulnerabilityImpact(db)|
    ensures var row := VulnerabilityImpact(db)[i];
      && row.total == |RowsWithKey(HumanActions(db), VulnerabilityOfPair, row.vulnerability)| >= 1
      && (OutcomesValid(db) ==> row.succes + row.mitiges + row.echecs == row.total)
      && 0 <= row.successRate <= 1000
  {
    var v := VulnerabilityImpact(db)[i].vulnerability;
    HumanGroupActions(db, VulnerabilityOfPair, v);
    JoinedGroupTally(db, RowsWithKey(HumanActions(db), VulnerabilityOfPair, v));
  }

  /** Every joined action has exactly one vulnerability level: the totals add up to the joined rows. */
  lemma VulnerabilityImpactTotal(db: Db)
    ensures SumOf(VulnerabilityImpact(db), TotalOfImpact) == |HumanActions(db)|
    ensures PrimaryKeys(db) ==> SumOf(VulnerabilityImpact(db), TotalOfImpact) == |RowsWithKey(db.actions, HumanKnown(db), true)|
  {
    forall v, g | g != []
      ensures TotalOfImpact(VulnerabilityImpactOf(v, g)) == |g|
    {
      TallyNoNulls(Seconds(g));
    }
    SummarySizes(HumanActions(db), VulnerabilityOfPair, VulnerabilityImpactOf, TotalOfImpact, VulnerabilityImpact(db));
    if PrimaryKeys(db) {
      HumanActionsCount(db);
    }
  }

  /** The faible row comes before the moyenne and elevee rows. */
  lemma VulnerabilityImpactOrder(db: Db, i: nat, j: nat)
    requires i < |VulnerabilityImpact(db)| && j < |VulnerabilityImpact(db)|
    requires VulnerabilityImpact(db)[i].vulnerability == "faible"
    requires VulnerabilityImpact(db)[j].vulnerability in {"moyenne", "elevee"}
    ensures i < j
  {
    VulnerabilityOrder("");
    SortedBefore(VulnerabilityImpact(db), ByImpactVulnerability, i, j);
  }

  /**
    The success count of a level is the count of the (level, succes) row of
    `/api/vulnerability-vs-outcomes`: both count the same joined rows.
  */
  lemma VulnerabilityImpactMatchesOutcomes(db: Db, i: nat, j: nat)
    requires i < |VulnerabilityImpact(db)| && j < |VulnerabilityVsOutcomes(db)|
    requires VulnerabilityVsOutcomes(db)[j].key.0 == VulnerabilityImpact(db)[i].vulnerability
    ensures VulnerabilityVsOutcomes(db)[j].key.1 == Succes ==>
      VulnerabilityVsOutcomes(db)[j].count == VulnerabilityImpact(db)[i].succes
    ensures VulnerabilityVsOutcomes(db)[j].key.1 == Mitigue ==>
      VulnerabilityVsOutcomes(db)[j].count == VulnerabilityImpact(db)[i].mitiges
    ensures VulnerabilityVsOutcomes(db)[j].key.1 == Echec ==>
      VulnerabilityVsOutcomes(db)[j].count == VulnerabilityImpact(db)[i].echecs
  {
    var v := VulnerabilityImpact(db)[i].vulnerability;
    var o := VulnerabilityVsOutcomes(db)[j].key.1;
    HumanGroupActions(db, VulnerabilityOfPair, v);
    JoinedGroupTally(db, RowsWithKey(HumanActions(db), VulnerabilityOfPair, v));
    NestedGroupCount(HumanActions(db), VulnerabilityOfPair, OutcomeOf, VulnerabilityAndOutcome, v, o);
  }

  // ---------------------------------------------------------------------
  // /api/sector-ethical-analysis

  datatype SectorEthics = SectorEthics(sector: string, scenarios: nat, totalActions: nat, succes: nat, mitiges: nat,
                                       echecs: nat, successRate: int)

  /** One sector's row: `count(distinct a.id_scenario)`, `count(a.id_action)`, the outcome counts and the rate. */
  function SectorEthicsOf(sector: string, g: seq<(Human, Action)>): SectorEthics
    requires g != []
  {
    var t := TallyOf(AllPresent(Seconds(g)));
    TallyNoNulls(Seconds(g));
    SectorEthics(sector, CountDistinct(ScenarioIds(Seconds(g))), t.actions, t.succes, t.mitiges, t.echecs,
                 Percent(t.succes, t.rows, 10))
  }

  function SectorOfEthics(x: SectorEthics): string {
    x.sector
  }

  predicate ByEthicsRateDesc(x: SectorEthics, y: SectorEthics) {
    Descending(x.successRate, y.successRate)
  }

  lemma ByEthicsRateDescPreorder()
    ensures TotalPreorder(ByEthicsRateDesc)
  {
  }

  /** `/api/sector-ethical-analysis`: one row per localisation with an action, highest rate first. */
  function SectorEthicalAnalysis(db: Db): (out: seq<SectorEthics>)
    ensures Sorted(out, ByEthicsRateDesc)
    ensures SummarizesGroups(out, HumanActions(db), SectorOfPair, SectorEthicsOf, SectorOfEthics)
    ensures CoversKeys(out, HumanActions(db), SectorOfPair, SectorOfEthics)
  {
    var u := Summarize(HumanActions(db), SectorOfPair, SectorEthicsOf);
    var out := SortBy(u, ByEthicsRateDesc);
    ByEthicsRateDescPreorder();
    SummaryFacts(HumanActions(db), SectorOfPair, SectorEthicsOf, SectorOfEthics, out);
    SummaryCoverage(HumanActions(db), SectorOfPair, SectorEthicsOf, SectorOfEthics, out);
    out
  }

  lemma SectorEthicsScenarios(sector: string, g: seq<(Human, Action)>)
    requires g != []
    ensures 1 <= SectorEthicsOf(sector, g).scenarios <= SectorEthicsOf(sector, g).totalActions
  {
    TallyNoNulls(Seconds(g));
  }

  /** A sector faces at least one scenario and never more scenarios than it has actions. */
  lemma SectorEthicalAnalysisScenarios(db: Db, i: nat)
    requires i < |SectorEthicalAnalysis(db)|
    ensures 1 <= SectorEthicalAnalysis(db)[i].scenarios <= SectorEthicalAnalysis(db)[i].totalActions
  {
    var sector := SectorEthicalAnalysis(db)[i].sector;
    SectorEthicsScenarios(sector, RowsWithKey(HumanActions(db), SectorOfPair, sector));
  }

  /** With valid outcomes a sector's three outcome counts add up to its actions. */
  lemma SectorEthicalAnalysisCounts(db: Db, i: nat)
    requires OutcomesValid(db)
    requires i < |SectorEthicalAnalysis(db)|
    ensures var row := SectorEthicalAnalysis(db)[i];
      row.succes + row.mitiges + row.echecs == row.totalActions
  {
    var sector := SectorEthicalAnalysis(db)[i].sector;
    HumanGroupActions(db, SectorOfPair, sector);
    JoinedGroupTally(db, RowsWithKey(HumanActions(db), SectorOfPair, sector));
  }

  /** The two sector reports group the same rows: for one sector they agree on every shared column. */
  lemma SectorReportsAgree(db: Db, i: nat, j: nat)
    requires i < |SectorRiskAnalysis(db)| && j < |SectorEthicalAnalysis(db)|
    requires SectorRiskAnalysis(db)[i].sector == SectorEthicalAnalysis(db)[j].sector
    ensures SectorRiskAnalysis(db)[i].actions == SectorEthicalAnalysis(db)[j].totalActions
    ensures SectorRiskAnalysis(db)[i].succes == SectorEthicalAnalysis(db)[j].succes
    ensures SectorRiskAnalysis(db)[i].echecs == SectorEthicalAnalysis(db)[j].echecs
    ensures SectorRiskAnalysis(db)[i].successRate == SectorEthicalAnalysis(db)[j].successRate
  {
    TallyNoNulls(Seconds(RowsWithKey(HumanActions(db), SectorOfPair, SectorRiskAnalysis(db)[i].sector)));
  }

  /** Both sector reports list the same sectors. */
  lemma SectorReportsSameSectors(db: Db, i: nat)
    requires i < |SectorRiskAnalysis(db)|
    ensures exists j | 0 <= j < |SectorEthicalAnalysis(db)| ::
      SectorEthicalAnalysis(db)[j].sector == SectorRiskAnalysis(db)[i].sector
  {
    ListedKeyCovered(SectorRiskAnalysis(db), HumanActions(db), SectorOfPair, SectorRiskOf, SectorOfRisk,
                     SectorEthicalAnalysis(db), SectorOfEthics, i);
  }

  // ---------------------------------------------------------------------
  // /api/action-categories

  function KindOf(a: Action): string {
    a.kind
  }

  datatype ActionCategory = ActionCategory(category: string, total: nat, succes: nat, mitiges: nat, echecs: nat,
                                           successRate: int)

  /** One kind of action's row: `count(*)`, the three outcome counts and the unguarded rate. */
  function ActionCategoryOf(kind: string, g: seq<Action>): ActionCategory
    requires g != []
  {
    var t := TallyOf(AllPresent(g));
    TallyNoNulls(g);
    ActionCategory(kind, t.rows, t.succes, t.mitiges, t.echecs, Percent(t.succes, t.rows, 10))
  }

  function CategoryOf(x: ActionCategory): string {
    x.category
  }

  function TotalOfCategory(x: ActionCategory): nat {
    x.total
  }

  predicate ByCategoryRateDesc(x: ActionCategory, y: ActionCategory) {
    Descending(x.successRate, y.successRate)
  }

  lemma ByCategoryRateDescPreorder()
    ensures TotalPreorder(ByCategoryRateDesc)
  {
  }

  /** `/api/action-categories`: one row per kind of action, highest rate first. */
  function ActionCategories(db: Db): (out: seq<ActionCategory>)
    ensures Sorted(out, ByCategoryRateDesc)
    ensures SummarizesGroups(out, db.actions, KindOf, ActionCategoryOf, CategoryOf)
    ensures CoversKeys(out, db.actions, KindOf, CategoryOf)
  {
    var u := Summarize(db.actions, KindOf, ActionCategoryOf);
    var out := SortBy(u, ByCategoryRateDesc);
    ByCategoryRateDescPreorder();
    SummaryFacts(db.actions, KindOf, ActionCategoryOf, CategoryOf, out);
    SummaryCoverage(db.actions, KindOf, ActionCategoryOf, CategoryOf, out);
    out
  }

  /**
    A kind's row counts its actions (at least one) and, for each outcome, its
    actions with that outcome; with valid outcomes these add up to the total.
  */
  lemma ActionCategoriesCounts(db: Db, i: nat)
    requires i < |ActionCategories(db)|
    ensures var row := ActionCategories(db)[i];
      var g := RowsWithKey(db.actions, KindOf, row.category);
      && row.total == |g| >= 1
      && row.succes == |RowsWithKey(g, OutcomeOf, Succes)|
      && row.mitiges == |RowsWithKey(g, OutcomeOf, Mitigue)|
      && row.echecs == |RowsWithKey(g, OutcomeOf, Echec)|
      && (OutcomesValid(db) ==> row.succes + row.mitiges + row.echecs == row.total)
      && 0 <= row.successRate <= 1000
  {
    var g := RowsWithKey(db.actions, KindOf, ActionCategories(db)[i].category);
    OutcomeCounts(g);
    if OutcomesValid(db) {
      ActionsComplete(g);
    }
  }

  /** Every action has exactly one kind: the totals add up to the number of actions. */
  lemma ActionCategoriesTotal(db: Db)
    ensures SumOf(ActionCategories(db), TotalOfCategory) == |db.actions|
  {
    forall kind, g | g != []
      ensures TotalOfCategory(ActionCategoryOf(kind, g)) == |g|
    {
      TallyNoNulls(g);
    }
    SummarySizes(db.actions, KindOf, ActionCategoryOf, TotalOfCategory, ActionCategories(db));
  }
}
