/**
  The reports per law, that is per `priorite_loi`: the scenarios of each
  law, the complexity of each law over a left join, and three reports over
  `scenarios s join actions a on s.id_scenario = a.id_scenario`, where a
  scenario never faced contributes nothing.
*/
module LawReports {
  import opened Wrappers
  import opened Relational
  import opened Sorting
  import opened Schema
  import opened Measures
  import opened Summaries
  import opened ScenarioReports

  /**
    `case when priorite_loi = 1 then … when 2 then … when 3 then … end`:
    the label for laws 1, 2 and 3, and null for any other priority.
  */
  function CaseLabel(law: int, one: string, two: string, three: string): (name: Option<string>)
    ensures name.Some? <==> law in {1, 2, 3}
    ensures name == Some(one) <== law == 1
    ensures name == Some(two) <== law == 2
    ensures name == Some(three) <== law == 3
  {
    if law == 1 then Some(one)
    else if law == 2 then Some(two)
    else if law == 3 then Some(three)
    else None
  }

  // ---------------------------------------------------------------------
  // /api/scenarios-by-priority

  function Length(s: string): nat {
    |s|
  }

  /**
    `string_agg(parts, sep)` over a non-empty group: the parts with `sep`
    between consecutive ones, so its length is theirs plus one separator per
    gap, and it starts with the first part.
  */
  function StringAgg(parts: seq<string>, sep: string): (r: string)
    requires parts != []
    ensures |r| == SumOf(parts, Length) + |sep| * (|parts| - 1)
    ensures parts[0] <= r
  {
    if |parts| == 1 then parts[0] else parts[0] + sep + StringAgg(parts[1..], sep)
  }

  function Descriptions(xs: seq<Scenario>): (ds: seq<string>)
    ensures |ds| == |xs|
    ensures forall i | 0 <= i < |xs| :: ds[i] == xs[i].description
  {
    Project(xs, DescriptionOf)
  }

  function DescriptionOf(s: Scenario): string {
    s.description
  }

  /** `order by s.id_scenario` inside the aggregate. */
  predicate ById(a: Scenario, b: Scenario) {
    a.id <= b.id
  }

  lemma ByIdPreorder()
    ensures TotalPreorder(ById)
  {
  }

  const Separator: string := " | "

  datatype PriorityGroup = PriorityGroup(law: int, title: Option<string>, count: nat, descriptions: string)

  /** One law's row: its label, `count(*)` and the descriptions in ascending id, joined by " | ". */
  function PriorityGroupOf(law: int, g: seq<Scenario>): PriorityGroup
    requires g != []
  {
    PriorityGroup(law, CaseLabel(law, "Loi 1: Protéger Vie Humaine", "Loi 2: Obéir aux Ordres", "Loi 3: Auto-Préservation"),
                  |g|, StringAgg(Descriptions(SortBy(g, ById)), Separator))
  }

  function LawOfPriorityGroup(p: PriorityGroup): int {
    p.law
  }

  function CountOfPriorityGroup(p: PriorityGroup): nat {
    p.count
  }

  predicate ByPriorityGroupLaw(x: PriorityGroup, y: PriorityGroup) {
    x.law <= y.law
  }

  lemma ByPriorityGroupLawPreorder()
    ensures TotalPreorder(ByPriorityGroupLaw)
  {
  }

  /** `/api/scenarios-by-priority`: one row per priorite_loi that occurs, ascending. */
  function ScenariosByPriority(db: Db): (out: seq<PriorityGroup>)
    ensures Sorted(out, ByPriorityGroupLaw)
    ensures SummarizesGroups(out, db.scenarios, LawOf, PriorityGroupOf, LawOfPriorityGroup)
    ensures CoversKeys(out, db.scenarios, LawOf, LawOfPriorityGroup)
  {
    var u := Summarize(db.scenarios, LawOf, PriorityGroupOf);
    var out := SortBy(u, ByPriorityGroupLaw);
    ByPriorityGroupLawPreorder();
    SummaryFacts(db.scenarios, LawOf, PriorityGroupOf, LawOfPriorityGroup, out);
    SummaryCoverage(db.scenarios, LawOf, PriorityGroupOf, LawOfPriorityGroup, out);
    out
  }

  /** The priorities come strictly ascending, and the counts, each at least 1, add up to the number of scenarios. */
  lemma ScenariosByPriorityCounts(db: Db)
    ensures var out := ScenariosByPriority(db);
      && (forall i, j | 0 <= i < j < |out| :: out[i].law < out[j].law)
      && (forall i | 0 <= i < |out| :: out[i].count >= 1)
      && SumOf(out, CountOfPriorityGroup) == |db.scenarios|
  {
    var out := ScenariosByPriority(db);
    forall i, j | 0 <= i < j < |out|
      ensures out[i].law < out[j].law
    {
      assert ByPriorityGroupLaw(out[i], out[j]);
      assert LawOfPriorityGroup(out[i]) != LawOfPriorityGroup(out[j]);
    }
    SummarySizes(db.scenarios, LawOf, PriorityGroupOf, CountOfPriorityGroup, out);
  }

  /** A group's `scenarios_list` joins the descriptions of its scenarios, in ascending id. */
  lemma PriorityGroupList(law: int, g: seq<Scenario>)
    requires g != []
    ensures exists ordered: seq<Scenario> ::
      && ordered != []
      && multiset(ordered) == multiset(g)
      && Sorted(ordered, ById)
      && PriorityGroupOf(law, g).descriptions == StringAgg(Descriptions(ordered), Separator)
  {
    ByIdPreorder();
    var ordered := SortBy(g, ById);
    assert |ordered| == |g| > 0;
  }

  /**
    A law's `scenarios_list` joins the descriptions of exactly that law's
    scenarios, in ascending id; its label is null unless the law is 1, 2 or 3.
  */
  lemma ScenariosByPriorityList(db: Db, i: nat)
    requires i < |ScenariosByPriority(db)|
    ensures var row := ScenariosByPriority(db)[i];
      && (row.title.Some? <==> row.law in {1, 2, 3})
      && exists ordered: seq<Scenario> ::
           && ordered != []
           && multiset(ordered) == multiset(RowsWithKey(db.scenarios, LawOf, row.law))
           && Sorted(ordered, ById)
           && row.descriptions == StringAgg(Descriptions(ordered), Separator)
  {
    var row := ScenariosByPriority(db)[i];
    PriorityGroupList(row.law, RowsWithKey(db.scenarios, LawOf, row.law));
  }

  // ---------------------------------------------------------------------
  // /api/ethical-complexity

  const ComplexityOne: string := "Loi 1: Protéger Vie"
  const ComplexityTwo: string := "Loi 2: Obéir Ordres"
  const ComplexityThree: string := "Loi 3: Auto-Préservation"

  function LawOfScenarioRow(p: (Scenario, Option<Action>)): int {
    p.0.lawPriority
  }

  /**
    One law's row over the left join: its label, `count(distinct
    s.id_scenario)` and `count(a.id_action)`.
  */
  datatype LawComplexity = LawComplexity(law: int, title: Option<string>, scenarioCount: nat, totalAttempts: nat)

  function LawComplexityOf(law: int, g: seq<(Scenario, Option<Action>)>): LawComplexity
    requires g != []
  {
    LawComplexity(law, CaseLabel(law, ComplexityOne, ComplexityTwo, ComplexityThree),
                  CountDistinct(IdsOf(Firsts(g))), TallyOf(Seconds(g)).actions)
  }

  function LawOfComplexity(c: LawComplexity): int {
    c.law
  }

  predicate ByComplexityLaw(x: LawComplexity, y: LawComplexity) {
    x.law <= y.law
  }

  lemma ByComplexityLawPreorder()
    ensures TotalPreorder(ByComplexityLaw)
  {
  }

  /** `/api/ethical-complexity`: one row per priorite_loi of the scenarios, ascending. */
  function EthicalComplexity(db: Db): (out: seq<LawComplexity>)
    ensures Sorted(out, ByComplexityLaw)
    ensures SummarizesGroups(out, ScenarioActions(db), LawOfScenarioRow, LawComplexityOf, LawOfComplexity)
    ensures CoversKeys(out, ScenarioActions(db), LawOfScenarioRow, LawOfComplexity)
  {
    var u := Summarize(ScenarioActions(db), LawOfScenarioRow, LawComplexityOf);
    var out := SortBy(u, ByComplexityLaw);
    ByComplexityLawPreorder();
    SummaryFacts(ScenarioActions(db), LawOfScenarioRow, LawComplexityOf, LawOfComplexity, out);
    SummaryCoverage(ScenarioActions(db), LawOfScenarioRow, LawComplexityOf, LawOfComplexity, out);
    out
  }

  /**
    The set of scenario ids in a law's left-join group is the set of ids of
    that law's scenarios, whether they were faced or not.
  */
  lemma ComplexityGroupScenarios(db: Db, law: int)
    ensures Elems(IdsOf(Firsts(RowsWithKey(ScenarioActions(db), LawOfScenarioRow, law))))
         == Elems(IdsOf(RowsWithKey(db.scenarios, LawOf, law)))
  {
    ComplexityGroupIdsOfLaw(db, law);
    LawIdsInComplexityGroup(db, law);
  }

  /** Every scenario id of a law's left-join group is the id of a scenario of that law. */
  lemma ComplexityGroupIdsOfLaw(db: Db, law: int)
    ensures forall id | id in Elems(IdsOf(Firsts(RowsWithKey(ScenarioActions(db), LawOfScenarioRow, law)))) ::
      id in Elems(IdsOf(RowsWithKey(db.scenarios, LawOf, law)))
  {
    var g := RowsWithKey(ScenarioActions(db), LawOfScenarioRow, law);
    var ss := RowsWithKey(db.scenarios, LawOf, law);
    forall id | id in Elems(IdsOf(Firsts(g)))
      ensures id in Elems(IdsOf(ss))
    {
      var j :| 0 <= j < |g| && IdsOf(Firsts(g))[j] == id;
      assert g[j] in g;
      LeftJoinRow(db.scenarios, db.actions, ScenarioFaced, g[j]);
      assert g[j].0 in ss;
      var k :| 0 <= k < |ss| && ss[k] == g[j].0;
      assert IdsOf(ss)[k] == id;
    }
  }

  /** Every scenario of a law has its id in that law's left-join group. */
  lemma LawIdsInComplexityGroup(db: Db, law: int)
    ensures forall id | id in Elems(IdsOf(RowsWithKey(db.scenarios, LawOf, law))) ::
      id in Elems(IdsOf(Firsts(RowsWithKey(ScenarioActions(db), LawOfScenarioRow, law))))
  {
    var g := RowsWithKey(ScenarioActions(db), LawOfScenarioRow, law);
    var ss := RowsWithKey(db.scenarios, LawOf, law);
    forall id | id in Elems(IdsOf(ss))
      ensures id in Elems(IdsOf(Firsts(g)))
    {
      var k :| 0 <= k < |ss| && IdsOf(ss)[k] == id;
      assert ss[k] in ss;
      LeftJoinKeepsLeft(db.scenarios, db.actions, ScenarioFaced, ss[k]);
      var o :| (ss[k], o) in ScenarioActions(db);
      assert (ss[k], o) in g;
      var j :| 0 <= j < |g| && g[j] == (ss[k], o);
      assert IdsOf(Firsts(g))[j] == id;
    }
  }

  /**
    The left join neither adds nor loses scenarios: `scenario_count` is the
    number of different scenario ids of that law, at least 1.
  */
  lemma EthicalComplexityScenarioCount(db: Db, i: nat)
    requires i < |EthicalComplexity(db)|
    ensures var row := EthicalComplexity(db)[i];
      row.scenarioCount == CountDistinct(IdsOf(RowsWithKey(db.scenarios, LawOf, row.law))) >= 1
  {
    var row := EthicalComplexity(db)[i];
    var g := RowsWithKey(ScenarioActions(db), LawOfScenarioRow, row.law);
    ComplexityGroupScenarios(db, row.law);
    assert |Firsts(g)| > 0;
  }

  /** A law none of whose scenarios was faced has only nulls on the action side of its group. */
  lemma ComplexityGroupUnplayed(db: Db, law: int)
    requires forall s, a | s in db.scenarios && a in db.actions && s.lawPriority == law :: a.scenario != s.id
    ensures TallyOf(Seconds(RowsWithKey(ScenarioActions(db), LawOfScenarioRow, law))).actions == 0
  {
    forall s | s in db.scenarios && LawOf(s) == law
      ensures Matches(s, db.actions, ScenarioFaced) == []
    {
      MatchesNone(s, db.actions, ScenarioFaced);
    }
    LeftJoinGroupUnmatched(db.scenarios, db.actions, ScenarioFaced, LawOf, LawOfScenarioRow, law);
    TallyAllNull(Seconds(RowsWithKey(ScenarioActions(db), LawOfScenarioRow, law)));
  }

  /** A law none of whose scenarios was faced still has its row, with 0 attempts. */
  lemma EthicalComplexityUnplayed(db: Db, i: nat)
    requires i < |EthicalComplexity(db)|
    requires forall s, a | s in db.scenarios && a in db.actions && s.lawPriority == EthicalComplexity(db)[i].law ::
      a.scenario != s.id
    ensures EthicalComplexity(db)[i].totalAttempts == 0
  {
    ComplexityGroupUnplayed(db, EthicalComplexity(db)[i].law);
  }

  // ---------------------------------------------------------------------
  // /api/dilemma-success-by-law, /api/law-conflict-analysis,
  // /api/time-execution-patterns

  /** The rows of `scenarios s join actions a on s.id_scenario = a.id_scenario`. */
  function FacedScenarios(db: Db): seq<(Scenario, Action)> {
    InnerJoin(db.scenarios, db.actions, ScenarioFaced)
  }

  /**
    With `id_scenario` a primary key, the join has exactly one row per
    action whose scenario exists, so one per action when every action's
    scenario exists.
  */
  lemma FacedScenariosCount(db: Db)
    requires PrimaryKeys(db)
    ensures |FacedScenarios(db)| == |RowsWithKey(db.actions, ScenarioKnown(db), true)|
    ensures (forall a | a in db.actions :: ScenarioKnown(db)(a)) ==> |FacedScenarios(db)| == |db.actions|
  {
    InnerJoinSizeByRight(db.scenarios, db.actions, ScenarioFaced, ScenarioId, ScenarioKnown(db));
    if forall a | a in db.actions :: ScenarioKnown(db)(a) {
      RowsWithKeyAll(db.actions, ScenarioKnown(db), true);
    }
  }

  function LawOfPair(p: (Scenario, Action)): int {
    p.0.lawPriority
  }

  /** A law's inner-join group holds at least one action of a scenario of that law. */
  lemma FacedGroupWitness(db: Db, law: int)
    requires RowsWithKey(FacedScenarios(db), LawOfPair, law) != []
    ensures exists s, a | s in db.scenarios && a in db.actions :: s.lawPriority == law && a.scenario == s.id
  {
    var g := RowsWithKey(FacedScenarios(db), LawOfPair, law);
    assert g[0] in g;
    assert g[0] == (g[0].0, g[0].1);
  }

  /** One law's row: its label, `count(*)`, the outcome counts and the unguarded rate over `count(*)`. */
  datatype LawSuccess = LawSuccess(law: int, title: Option<string>, totalActions: nat, succes: nat, mitiges: nat,
                                   echecs: nat, successRate: int)

  function LawSuccessOf(law: int, g: seq<(Scenario, Action)>): LawSuccess
    requires g != []
  {
    var t := TallyOf(AllPresent(Seconds(g)));
    TallyNoNulls(Seconds(g));
    LawSuccess(law, CaseLabel(law, ComplexityOne, ComplexityTwo, ComplexityThree),
               t.rows, t.succes, t.mitiges, t.echecs, Percent(t.succes, t.rows, 10))
  }

  function LawOfSuccess(x: LawSuccess): int {
    x.law
  }

  function TotalOfSuccess(x: LawSuccess): nat {
    x.totalActions
  }

  predicate BySuccessLaw(x: LawSuccess, y: LawSuccess) {
    x.law <= y.law
  }

  lemma BySuccessLawPreorder()
    ensures TotalPreorder(BySuccessLaw)
  {
  }

  /** `/api/dilemma-success-by-law`: one row per law with a faced scenario, ascending. */
  function DilemmaSuccessByLaw(db: Db): (out: seq<LawSuccess>)
    ensures Sorted(out, BySuccessLaw)
    ensures SummarizesGroups(out, FacedScenarios(db), LawOfPair, LawSuccessOf, LawOfSuccess)
    ensures CoversKeys(out, FacedScenarios(db), LawOfPair, LawOfSuccess)
  {
    var u := Summarize(FacedScenarios(db), LawOfPair, LawSuccessOf);
    var out := SortBy(u, BySuccessLaw);
    BySuccessLawPreorder();
    SummaryFacts(FacedScenarios(db), LawOfPair, LawSuccessOf, LawOfSuccess, out);
    SummaryCoverage(FacedScenarios(db), LawOfPair, LawSuccessOf, LawOfSuccess, out);
    out
  }

  /** The actions of a law's inner-join group are actions. */
  lemma FacedGroupActions(db: Db, law: int)
    ensures forall p | p in RowsWithKey(FacedScenarios(db), LawOfPair, law) :: p.1 in db.actions
  {
  }

  /** A group of joined actions with valid outcomes: the outcome counts add up, and the rate is at most 100.0. */
  lemma LawSuccessCounts(db: Db, law: int, g: seq<(Scenario, Action)>)
    requires OutcomesValid(db)
    requires g != [] && forall p | p in g :: p.1 in db.actions
    ensures var row := LawSuccessOf(law, g);
      && row.totalActions == |g| >= 1
      && row.succes + row.mitiges + row.echecs == row.totalActions
      && 0 <= row.successRate <= 1000
  {
    var col := AllPresent(Seconds(g));
    forall a: Action | Some(a) in col
      ensures ValidOutcome(a.outcome)
    {
      var j :| 0 <= j < |col| && col[j] == Some(a);
      assert g[j] in g;
    }
    TallyComplete(col);
    TallyNoNulls(Seconds(g));
  }

  /**
    Every row counts at least one action, so the unguarded division never
    fails; with valid outcomes `succes + mitiges + echecs = total_actions`
    and the rate is at most 100.0.
  */
  lemma DilemmaSuccessByLawCounts(db: Db, i: nat)
    requires OutcomesValid(db)
    requires i < |DilemmaSuccessByLaw(db)|
    ensures var row := DilemmaSuccessByLaw(db)[i];
      && row.totalActions >= 1
      && row.succes + row.mitiges + row.echecs == row.totalActions
      && 0 <= row.successRate <= 1000
  {
    var law := DilemmaSuccessByLaw(db)[i].law;
    FacedGroupActions(db, law);
    LawSuccessCounts(db, law, RowsWithKey(FacedScenarios(db), LawOfPair, law));
  }

  /** The totals add up to the number of joined rows: the inner join's rows are split among the laws. */
  lemma DilemmaSuccessByLawTotals(db: Db)
    ensures SumOf(DilemmaSuccessByLaw(db), TotalOfSuccess) == |FacedScenarios(db)|
    ensures PrimaryKeys(db) ==> SumOf(DilemmaSuccessByLaw(db), TotalOfSuccess) == |RowsWithKey(db.actions, ScenarioKnown(db), true)|
  {
    forall law, g | g != []
      ensures TotalOfSuccess(LawSuccessOf(law, g)) == |g|
    {
      TallyNoNulls(Seconds(g));
    }
    SummarySizes(FacedScenarios(db), LawOfPair, LawSuccessOf, TotalOfSuccess, DilemmaSuccessByLaw(db));
    if PrimaryKeys(db) {
      FacedScenariosCount(db);
    }
  }

  /** Only laws with a faced scenario appear. */
  lemma DilemmaSuccessByLawOnlyFaced(db: Db, i: nat)
    requires i < |DilemmaSuccessByLaw(db)|
    ensures exists s, a | s in db.scenarios && a in db.actions ::
      s.lawPriority == DilemmaSuccessByLaw(db)[i].law && a.scenario == s.id
  {
    FacedGroupWitness(db, DilemmaSuccessByLaw(db)[i].law);
  }

  const ConflictOne: string := "Loi 1 (Protéger Vie)"
  const ConflictTwo: string := "Loi 2 (Obéir Ordres)"
  const ConflictThree: string := "Loi 3 (Auto-Préservation)"

  /**
    One law's row: its label, `count(distinct s.id_scenario)`, `count(*)`
    and the unguarded rate. The law itself is not selected but orders the
    rows, so it is kept.
  */
  datatype LawConflict = LawConflict(law: int, title: Option<string>, dilemmas: nat, linkedActions: nat,
                                     resolutionRate: int)

  function LawConflictOf(law: int, g: seq<(Scenario, Action)>): LawConflict
    requires g != []
  {
    var t := TallyOf(AllPresent(Seconds(g)));
    TallyNoNulls(Seconds(g));
    LawConflict(law, CaseLabel(law, ConflictOne, ConflictTwo, ConflictThree),
                CountDistinct(IdsOf(Firsts(g))), t.rows, Percent(t.succes, t.rows, 10))
  }

  function LawOfConflict(x: LawConflict): int {
    x.law
  }

  predicate ByConflictLaw(x: LawConflict, y: LawConflict) {
    x.law <= y.law
  }

  lemma ByConflictLawPreorder()
    ensures TotalPreorder(ByConflictLaw)
  {
  }

  /** `/api/law-conflict-analysis`: one row per law with a faced scenario, ascending. */
  function LawConflictAnalysis(db: Db): (out: seq<LawConflict>)
    ensures Sorted(out, ByConflictLaw)
    ensures SummarizesGroups(out, FacedScenarios(db), LawOfPair, LawConflictOf, LawOfConflict)
    ensures CoversKeys(out, FacedScenarios(db), LawOfPair, LawOfConflict)
  {
    var u := Summarize(FacedScenarios(db), LawOfPair, LawConflictOf);
    var out := SortBy(u, ByConflictLaw);
    ByConflictLawPreorder();
    SummaryFacts(FacedScenarios(db), LawOfPair, LawConflictOf, LawOfConflict, out);
    SummaryCoverage(FacedScenarios(db), LawOfPair, LawConflictOf, LawOfConflict, out);
    out
  }

  /** A law counts at least one dilemma and never more dilemmas than linked actions. */
  lemma LawConflictAnalysisCounts(db: Db, i: nat)
    requires i < |LawConflictAnalysis(db)|
    ensures 1 <= LawConflictAnalysis(db)[i].dilemmas <= LawConflictAnalysis(db)[i].linkedActions
  {
  }

  /** The conflict and the success reports agree on each law's action count and rate. */
  lemma LawReportsAgree(db: Db, i: nat, j: nat)
    requires i < |DilemmaSuccessByLaw(db)| && j < |LawConflictAnalysis(db)|
    requires DilemmaSuccessByLaw(db)[i].law == LawConflictAnalysis(db)[j].law
    ensures DilemmaSuccessByLaw(db)[i].totalActions == LawConflictAnalysis(db)[j].linkedActions
    ensures DilemmaSuccessByLaw(db)[i].successRate == LawConflictAnalysis(db)[j].resolutionRate
  {
  }

  const DecisionOne: string := "Urgence (Protéger Vie)"
  const DecisionTwo: string := "Protocole (Obéir)"
  const DecisionThree: string := "Sécurité (Auto-Préserv.)"

  /** One law's row: its label (`categorie_decision`) and `count(*)` (`decisions`). */
  datatype DecisionPattern = DecisionPattern(law: int, category: Option<string>, decisions: nat)

  function DecisionPatternOf(law: int, g: seq<(Scenario, Action)>): DecisionPattern
    requires g != []
  {
    DecisionPattern(law, CaseLabel(law, DecisionOne, DecisionTwo, DecisionThree), |g|)
  }

  function LawOfPattern(x: DecisionPattern): int {
    x.law
  }

  function DecisionsOf(x: DecisionPattern): nat {
    x.decisions
  }

  predicate ByPatternLaw(x: DecisionPattern, y: DecisionPattern) {
    x.law <= y.law
  }

  lemma ByPatternLawPreorder()
    ensures TotalPreorder(ByPatternLaw)
  {
  }

  /** `/api/time-execution-patterns`: decisions per law with a faced scenario, ascending. */
  function TimeExecutionPatterns(db: Db): (out: seq<DecisionPattern>)
    ensures Sorted(out, ByPatternLaw)
    ensures SummarizesGroups(out, FacedScenarios(db), LawOfPair, DecisionPatternOf, LawOfPattern)
    ensures CoversKeys(out, FacedScenarios(db), LawOfPair, LawOfPattern)
  {
    var u := Summarize(FacedScenarios(db), LawOfPair, DecisionPatternOf);
    var out := SortBy(u, ByPatternLaw);
    ByPatternLawPreorder();
    SummaryFacts(FacedScenarios(db), LawOfPair, DecisionPatternOf, LawOfPattern, out);
    SummaryCoverage(FacedScenarios(db), LawOfPair, DecisionPatternOf, LawOfPattern, out);
    out
  }

  /** Every joined row is one decision of exactly one law: the decisions add up to the joined rows. */
  lemma TimeExecutionPatternsTotal(db: Db)
    ensures SumOf(TimeExecutionPatterns(db), DecisionsOf) == |FacedScenarios(db)|
    ensures PrimaryKeys(db) ==> SumOf(TimeExecutionPatterns(db), DecisionsOf) == |RowsWithKey(db.actions, ScenarioKnown(db), true)|
  {
    SummarySizes(FacedScenarios(db), LawOfPair, DecisionPatternOf, DecisionsOf, TimeExecutionPatterns(db));
    if PrimaryKeys(db) {
      FacedScenariosCount(db);
    }
  }

  /** A law's decisions are the success report's total actions for that law. */
  lemma TimeExecutionPatternsAgree(db: Db, i: nat, j: nat)
    requires i < |TimeExecutionPatterns(db)| && j < |DilemmaSuccessByLaw(db)|
    requires TimeExecutionPatterns(db)[i].law == DilemmaSuccessByLaw(db)[j].law
    ensures TimeExecutionPatterns(db)[i].decisions == DilemmaSuccessByLaw(db)[j].totalActions
  {
    TallyNoNulls(Seconds(RowsWithKey(FacedScenarios(db), LawOfPair, TimeExecutionPatterns(db)[i].law)));
  }
}
