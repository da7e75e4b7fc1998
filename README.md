# Robot colony dashboard reports in Dafny

The colony dashboard is a Flask application backed by PostgreSQL. It
serves 22 JSON reports over four tables:

- `robots(id_robot, nom_robot, modele, etat)`
- `humains(id_humain, nom, vulnerabilite, localisation)`
- `scenarios(id_scenario, description, priorite_loi)`
- `actions(id_action, id_robot, id_humain, id_scenario, action, timestamp, resultat)`

Each report is a single SQL query. This project models what each query
returns, as a pure function of the four tables (`Schema.Db`). It then
proves what the reports promise: one row per group, the counts and how
they add up, when a rate can be null, the order of the rows, and what a
`limit` keeps.

The model is built in layers:

- **`Relational`** is a small relational engine on sequences.
  - `RowsWithKey` is a `where key = k` filter.
  - `GroupBy` is `group by`.
  - `LeftJoin` pairs each dimension row with an `Option` of an action: an
    unmatched row gets one null right-hand side. `InnerJoin` drops unmatched
    rows. `JoinSize` counts the matching pairs, and the lemmas about it tie
    the size of a join to the number of actions it joins.
  - `CountDistinct`, `Present` and `Nulls` give the counting primitives.
- **`Sorting`** models `order by` as a permutation that is sorted by a total
  preorder (`SortBy`), and `order by … limit n` as its first `n` rows (`TopN`).
  SQL fixes no order among ties, and neither does the model.
- **`Orderings`** holds the row orders the queries use:
  - text in code-point order;
  - ascending and descending numbers;
  - `desc nulls last` and `asc nulls last` on nullable rates;
  - the `faible` < `moyenne` < `elevee` rank of the vulnerability `case`.
- **`Measures`** holds the aggregates.
  - `TallyOf` computes `count(*)`, `count(a.id_action)` and the three
    `count(*) filter (where a.resultat = …)` over a group's action column.
  - `Percent` is `round(100.0 * s / t, d)` as an exact integer in tenths or
    hundredths of a percent, rounded half up.
  - `GuardedPercent` is the `nullif(t, 0)` variant.
- **`Summaries`** and **`Reporting`** say what a grouped report is. Every row
  is the summary of the non-empty group that has its key, no two rows share
  a key, and every key that occurs has a row. They also show that `order by`,
  `having` and `limit` keep these facts.
- **`Distributions`, `OverviewReports`, `RobotReports`, `ScenarioReports`,
  `LawReports` and `ActionReports`** hold one function per report, with the
  lemmas about it.

## Model

| member | source | states |
|---|---|---|
| Relational.GroupBy | app.py:63 | `group by`: one group per key value that occurs, holding exactly the rows with that key; no group is empty and no key has two groups |
| Relational.LeftJoin | app.py:156-157 | `left join`: every matching pair, plus one row with a null action for each left row that matches nothing; no left row is lost |
| Relational.LeftJoinKeepsLeft | app.py:156-157 | every left row appears in the left join |
| Relational.LeftJoinRow | app.py:156-157 | a left-join row is a left row with either a row it joins or null, and null exactly when it joins none |
| Relational.InnerJoin | app.py:220-221 | `join`: exactly the matching pairs, each left row once per right row it joins (`JoinSize`) |
| Relational.InnerJoinSizeByRight | app.py:291-292 | joining on a key that is unique among the left rows gives exactly one row per right row that joins some left row |
| Relational.LeftJoinSize | app.py:156-157 | a left join has one non-null right-hand side per matching pair and one null per left row that joins nothing, and no other row |
| Relational.LeftJoinGroupPresent | app.py:196-203 | grouped by its left row, a left join's group holds one non-null action per row that left row joins, once per occurrence of that left row |
| Relational.KeyedGroupPresent | app.py:196-203 | joining distinct left rows on a key of the right row, a left row's group holds exactly the right rows with its key |
| Relational.CountDistinct | app.py:239 | `count(distinct …)` is the number of different values: at most the number of rows, at least 1 when there is a row |
| Relational.LeftJoinGroupNulls | app.py:156-158 | a left-join group grouped by a key of the left row holds one null action per left row that joins nothing |
| Relational.LeftJoinOneToOne | app.py:133-135 | when each left row matches at most one right row, the left join has one row per left row, in order |
| Relational.NestedGroupCount | app.py:222 | grouping by one key and then filtering the actions by outcome counts the same rows as grouping by both keys |
| Sorting.SortBy | app.py:64 | `order by`: a permutation of the rows, sorted by any total preorder |
| Sorting.TopN | app.py:136-137 | `order by … limit n`: min(rows, n) rows taken from the input, sorted, and no row left out comes before a kept row |
| Summaries.Having | app.py:501 | `having p`: the summaries that satisfy `p`, and no others |
| Summaries.SummarySizes | app.py:272 | in a report that drops no group, a `count(*)` column adds up to the number of rows grouped |
| Summaries.LimitCoverage | app.py:250 | a limited report that came back shorter than its limit lists every key |
| Orderings.TextLePreorder | app.py:64 | text order is a total preorder |
| Orderings.NullableOrdersPreorder | app.py:159 | `desc nulls last` and `asc nulls last` are total preorders |
| Orderings.VulnerabilityRank | app.py:94-98 | the rank is defined exactly for `faible`, `moyenne` and `elevee` |
| Orderings.VulnerabilityOrder | app.py:94-98 | `faible` < `moyenne` < `elevee` and every other label comes after them, although alphabetically `elevee` comes first |
| Measures.TallyOf | app.py:150-155 | `count(*)` counts every row and `count(a.id_action)` only non-null actions; rows = actions + nulls; the outcome counts never exceed the actions |
| Measures.TallyComplete | app.py:152-154 | when every outcome is one of the three labels, the outcome counts add up to the actions |
| Measures.OutcomeCounts | app.py:152-154 | over a column with no null, each `count(*) filter (where resultat = o)` is the number of actions with outcome `o` |
| Measures.TallyAllNull | app.py:156-157 | a group of null actions counts no action and no outcome |
| Measures.Percent | app.py:155 | the rate is the unique integer `r` with `t(2r-1) <= 200·scale·s < t(2r+1)` (round half up), non-negative, and at most 100 % when `s <= t` |
| Measures.PercentIsRoundHalfUp | app.py:155 | any integer with the rounding property equals `Percent` |
| Measures.PercentEnds | app.py:155 | no success gives 0.0 and all successes give 100.0 |
| Measures.PercentMonotone | app.py:155 | for the same total, more successes never give a lower rate |
| Measures.GuardedPercent | app.py:48-49 | `round(100.0 * s / nullif(t, 0), d)` is null exactly when `t` is 0, and otherwise the rate |
| OverviewReports.GlobalStats | app.py:37-49 | the global rate is null exactly when there is no action, and otherwise the share of successes in hundredths of a percent, rounded half up, between 0 and 100.00; the three outcome counters never exceed `total_actions`; the active, out-of-service and broken robots never exceed `total_robots` |
| OverviewReports.StatesAtMostAll | app.py:40-42 | rows counted under three different values are different rows, and they are all the rows when the column has no other value |
| OverviewReports.GlobalStatsComplete | app.py:45-49 | with valid outcomes the counters add up to `total_actions`, and the rate is the two-decimal share of successes |
| OverviewReports.GlobalStatsMatchesResults | app.py:45-47 | each outcome counter equals the count `/api/actions-results` reports for that label |
| OverviewReports.GlobalStatsMatchesTally | app.py:37-46 | the counters are the group aggregates over all actions |
| OverviewReports.Timeline | app.py:125-137 | at most 50 entries, newest first, taken from the joined rows; every entry left out is ordered after every entry kept |
| OverviewReports.TimelineNewest | app.py:136-137 | no entry left out by `limit 50` is newer than an entry kept |
| OverviewReports.TimelineEntryDescribes | app.py:125-135 | every entry shows an action's timestamp, kind and outcome. Each name is that of the robot, human or scenario with the action's key, and null exactly when there is none |
| OverviewReports.TimelineListsAction | app.py:132-137 | the left joins drop no action: a timeline shorter than 50 entries describes every action |
| OverviewReports.TimelineLength | app.py:132-137 | with primary keys there is one joined row per action, so the timeline has min(actions, 50) entries |
| Distributions.RobotsStatus | app.py:60-65 | robots counted per (modele, etat), one row per pair that occurs, counts adding up to the robots, in text order |
| Distributions.RobotsStatusStrictlyAscending | app.py:63-64 | no two rows share a pair, so the rows are strictly ascending |
| Distributions.ActionsResults | app.py:75-80 | actions counted per resultat, one row per label that occurs, counts adding up to the actions, in text order |
| Distributions.ActionsResultsAtMostThree | app.py:76-78 | with valid outcomes there are at most three rows |
| Distributions.HumansVulnerability | app.py:90-99 | humans counted per vulnerabilite, in the faible/moyenne/elevee rank order, with unknown labels last |
| Distributions.HumansVulnerabilityOrder | app.py:94-98 | the faible row precedes the moyenne and elevee rows |
| Distributions.SectorsDistribution | app.py:109-114 | humans counted per localisation, largest count first |
| Distributions.VulnerabilityVsOutcomes | app.py:215-224 | joined (human, action) rows counted per (vulnerabilite, resultat), in text order; actions with no human are not counted |
| Distributions.HumanActionsCount | app.py:220-221 | with primary keys, `humains join actions` has one row per action whose human exists, so one per action when every action's human exists |
| RobotReports.RobotActionsRow | app.py:156-157 | a robot row of the left join carries an action of that robot, or null exactly when the robot has none |
| RobotReports.RobotActionsKeepsRobots | app.py:156-157 | the left join keeps every robot |
| RobotReports.PerformanceByModel | app.py:148-160 | one row per modele, each the summary of that model's joined rows, by rate descending; every model of a robot has a row |
| RobotReports.PerformanceByModelListsModel | app.py:156-158 | every robot's model is listed |
| RobotReports.PerformanceByModelOnlyModels | app.py:156-158 | only models of robots are listed |
| RobotReports.PerformanceByModelTotal | app.py:151-154 | `total_actions = count(*)` is the outcome counts plus one null row per action-less robot of that model |
| RobotReports.PerformanceByModelIdle | app.py:151-155 | a model whose robots never acted reports its robot count as `total_actions`, no outcome, and rate 0.0 |
| RobotReports.RobotSpecialization | app.py:234-251 | the 15 robots with the highest rate, highest first (nulls last); none left out has a higher rate; with fewer than 15 rows every robot is listed |
| RobotReports.RobotSpecializationDetailed | app.py:352-369 | runs the same query as `/api/robot-specialization`, so it returns the same rows |
| RobotReports.RobotSpecializationListsRobot | app.py:246-250 | with fewer than 15 rows every robot is listed, including those that never acted |
| RobotReports.RobotProfileActions | app.py:240-246 | with primary keys, a robot's `actions_totales` is the number of actions whose `id_robot` is the robot's |
| RobotReports.RobotProfileRate | app.py:241-245 | a robot's rate is never null: 0.0 with zero counts when it never acted, the rounded share of successes otherwise |
| RobotReports.IdleProfile | app.py:239-245 | an action-less robot has no scenario, no outcome and rate 0.0 |
| RobotReports.ActiveProfile | app.py:244-245 | for a robot that acted, `count(*)` is its action count, so the rate is over its actions |
| RobotReports.RobotSpecializationRate | app.py:244-249 | every listed rate is defined; 0.0 for robots without actions |
| RobotReports.RobotSpecializationCounts | app.py:239-243 | with valid outcomes the three counts add up to `actions_totales`, and there are no more scenarios than actions |
| RobotReports.RobotEthicalMaturity | app.py:489-504 | at most 10 robots that acted, by rate descending, each with a defined rate; none left out has a higher rate |
| RobotReports.MaturityRowsActive | app.py:501 | every row that survives `having` and `limit` has actions and a defined rate |
| RobotReports.RobotEthicalMaturityListsActiveRobot | app.py:497-503 | with fewer than 10 rows, every robot that acted is listed |
| RobotReports.ActiveRobotCandidate | app.py:501 | a robot with a joined action passes the `having` clause |
| ScenarioReports.EthicalDilemmas | app.py:191-205 | one row per scenario summarising its joined rows, ordered by priorite_loi then id_scenario; every scenario is listed |
| ScenarioReports.EthicalDilemmasListsScenario | app.py:201-203 | the left join keeps every scenario, including unplayed ones |
| ScenarioReports.EthicalDilemmasOnlyScenarios | app.py:201-203 | only scenarios are listed |
| ScenarioReports.EthicalDilemmasOneRowPerScenario | app.py:201-203 | with primary keys there is exactly one row per scenario |
| ScenarioReports.DilemmaRate | app.py:200 | the guarded rate is never null: 0.0 for an unplayed scenario, the rounded share of successes otherwise |
| ScenarioReports.EthicalDilemmasRate | app.py:200 | every listed rate is defined |
| ScenarioReports.EthicalDilemmasCounts | app.py:196-199 | with valid outcomes the three counts add up to `times_faced` |
| ScenarioReports.ScenarioGroupFaced | app.py:196 | `count(a.id_action)` is 0 exactly when no action names the scenario |
| ScenarioReports.EthicalDilemmasTimesFaced | app.py:196 | `times_faced` is 0 exactly when no action names the scenario |
| ScenarioReports.DilemmaTimesFacedCount | app.py:196-203 | with primary keys, `times_faced` is the number of actions whose `id_scenario` is the scenario's |
| ScenarioReports.ScenarioDifficulty | app.py:170-181 | the same groups and order as the dilemmas, with `total_actions`, `succes` and the rate |
| ScenarioReports.ScenarioDifficultyFacts | app.py:174-180 | rows by priorite_loi then id_scenario; the rate is always defined, 0.0 when the scenario has no action |
| LawReports.CaseLabel | app.py:264-268 | a `case` on priorite_loi gives a label exactly for 1, 2 and 3, and null otherwise |
| LawReports.StringAgg | app.py:270 | `string_agg` with a separator is as long as its parts plus one separator per gap, and starts with the first part |
| LawReports.ScenariosByPriority | app.py:261-274 | one row per priorite_loi, ascending, each the summary of that law's scenarios |
| LawReports.ScenariosByPriorityCounts | app.py:269-273 | the laws are strictly ascending, and the counts, each at least 1, add up to the scenarios |
| LawReports.ScenariosByPriorityList | app.py:264-270 | the label is defined exactly for laws 1-3; `scenarios_list` joins exactly that law's descriptions, in ascending id |
| LawReports.EthicalComplexity | app.py:327-341 | one row per priorite_loi of the scenarios, ascending, over the left join |
| LawReports.ComplexityGroupScenarios | app.py:335-339 | the scenarios of a law's left-join group are exactly the scenarios of that law |
| LawReports.EthicalComplexityScenarioCount | app.py:335 | `scenario_count` is the number of different scenario ids of that law, at least 1 |
| LawReports.EthicalComplexityUnplayed | app.py:336-338 | a law whose scenarios were never faced still has its row, with 0 attempts |
| LawReports.DilemmaSuccessByLaw | app.py:380-398 | one row per law with a faced scenario, ascending |
| LawReports.DilemmaSuccessByLawCounts | app.py:388-393 | every row counts at least one action, so the division never fails; with valid outcomes the counts add up; the rate is at most 100.0 |
| LawReports.DilemmaSuccessByLawTotals | app.py:388-396 | the totals add up to the rows of the inner join, which with primary keys are the actions whose scenario exists |
| LawReports.DilemmaSuccessByLawOnlyFaced | app.py:394-396 | only laws with a scenario that some action names are listed |
| LawReports.LawConflictAnalysis | app.py:463-478 | one row per law with a faced scenario, ascending |
| LawReports.LawConflictAnalysisCounts | app.py:470-471 | a law counts at least one dilemma, and never more dilemmas than linked actions |
| LawReports.LawReportsAgree | app.py:469-473 | for the same law, the conflict report's `actions_liees` and rate are the success report's total and rate |
| LawReports.TimeExecutionPatterns | app.py:515-528 | decisions per law with a faced scenario, ascending |
| LawReports.TimeExecutionPatternsTotal | app.py:523-526 | the decisions add up to the rows of the inner join, which with primary keys are the actions whose scenario exists |
| LawReports.FacedScenariosCount | app.py:394-395 | with primary keys, `scenarios join actions` has one row per action whose scenario exists, so one per action when every action's scenario exists |
| LawReports.TimeExecutionPatternsAgree | app.py:523 | a law's decisions equal the success report's total for that law |
| ActionReports.SectorRiskAnalysis | app.py:284-295 | one row per localisation with an action, by rate descending |
| ActionReports.SectorRiskAnalysisCounts | app.py:287-290 | a sector counts its joined actions (at least one) and its successes and failures among them; the rate is at most 100.0 |
| ActionReports.SectorRiskAnalysisTotal | app.py:287-293 | the action counts add up to the joined rows, which with primary keys are the actions whose human exists |
| ActionReports.VulnerabilityImpact | app.py:409-427 | one row per vulnerabilite with an action, in the faible/moyenne/elevee rank order |
| ActionReports.VulnerabilityImpactCounts | app.py:412-417 | a level counts its joined actions (at least one); with valid outcomes the three counts add up; the rate is at most 100.0 |
| ActionReports.VulnerabilityImpactTotal | app.py:412-420 | the totals add up to the joined rows, which with primary keys are the actions whose human exists |
| ActionReports.VulnerabilityImpactOrder | app.py:421-426 | the faible row precedes the moyenne and elevee rows |
| ActionReports.VulnerabilityImpactMatchesOutcomes | app.py:413-415 | a level's outcome counts are the counts of `/api/vulnerability-vs-outcomes` for that level and outcome |
| ActionReports.SectorEthicalAnalysis | app.py:438-452 | one row per localisation with an action, by rate descending |
| ActionReports.SectorEthicalAnalysisScenarios | app.py:441-442 | a sector faces at least one scenario, and never more scenarios than it has actions |
| ActionReports.SectorEthicalAnalysisCounts | app.py:442-445 | with valid outcomes the three counts add up to `total_actions` |
| ActionReports.SectorReportsAgree | app.py:287-290 | for the same sector, the two sector reports agree on actions, successes, failures and rate |
| ActionReports.SectorReportsSameSectors | app.py:291-293 | both sector reports list the same sectors |
| ActionReports.ActionCategories | app.py:305-316 | one row per kind of action, by rate descending |
| ActionReports.ActionCategoriesCounts | app.py:308-312 | a kind counts its actions (at least one) and, per outcome, its actions with that outcome; with valid outcomes these add up; the rate is at most 100.0 |
| ActionReports.ActionCategoriesTotal | app.py:308-314 | the totals add up to the actions |

## Left out

- Database and HTTP plumbing is not modelled. This covers the connection, cursors, `jsonify`, `dict_from_row`, the routes and `app.run` (app.py:10-29, 51-54, 533-535). A report is the value its query returns.
- The empty-object fallback of `/api/global-stats` (app.py:54) cannot happen. A select without `from` always yields one row, so `GlobalStats` returns a `Stats` record.
- The browser scripts under `static/` are not part of this model. They are presentation code.
- The seeding scripts `fill_db.py` and `fill_db_enhanced.py` are not part of this model. Neither is `test_setup.py`, a connection check.
- Measures.Percent: floating point is not modelled, and the model rounds the exact quotient once, to an integer in tenths or hundredths of a percent, half up. PostgreSQL rounds twice. It divides `100.0 * s` by `t` in `numeric`, rounding the quotient to at least 16 decimal places (the scale `select_div_scale` picks for a quotient of at most 100). Then `round(…, d)` rounds half away from zero, which for these non-negative values is half up. The two agree whenever `t < 10^(16-d)`: an exact quotient that is not on a rounding boundary lies at least `1/(2t·10^d)` from it, more than the first rounding can move it. So the model can differ only for a group of at least 10^14 rows (two decimals) or 10^15 rows (one decimal).
- Text is ordered by code point. The locale collation of the server is not modelled.
- Column values are never null, apart from the right-hand sides that a join leaves null. A null `modele`, `localisation`, `priorite_loi` or `resultat` is not modelled.
- The timestamp is an integer that orders like the instants it stands for.
- Some rows carry more than the query selects, because the extra columns fix their order or their group:
  - the dilemma and difficulty rows carry the whole scenario;
  - the robot profile rows carry the whole robot;
  - the maturity rows carry the robot's identity and `count(a.id_action)`;
  - the law-conflict rows carry `priorite_loi`.
- RobotReports.RobotSpecializationDetailed: the handler at app.py:352-369 repeats the query of app.py:234-251 word for word, so the model defines it as that report.
- The order among rows that tie on the `order by` key is left unspecified, as in SQL. The lemmas hold for every tie order.
