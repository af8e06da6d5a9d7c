# Listing-scoring engine of the meta performance dashboard

A Dafny model of the logic that turns monthly listing extracts into a
ranked watch list. It covers the merge and metric stage of the
preparation script (`scripts/2_data_prepar.py`) and the dashboard's
enrichment of the watch list (`app/streamlit_app.py`). That enrichment
is repeated, with the same rules, in the older top-level
`streamlit_app.py`.

The pipeline, module by module:

- `Merge` (merge.dfy): left joins of the performance extract with the price,
  location and optional minimum-price extracts on `listing`, including
  pandas' `_x`/`_y` suffixes. It also drops suffixed execution-date columns
  and projects onto the fixed output column order.
- `Metrics` (metrics.dfy): achievement ratio with its zero-target guard, the
  five criticality groups (`crítico`, `atenção`, `berlinda`, `ok`,
  `meta_subestimada`), lost revenue and shortfall to target, and the
  selection of the "berlinda" watch list.
- `Watchlist` (watchlist.dfy): the dashboard's per-row chain against a
  reference date:
  - available days, days needed, revenue potentials;
  - the five operational statuses and the raw priority score;
  - the cohort rank normalisation (descending, min ties), cent rounding and
    the four priority bands.
- `LegacyScoring` (legacy_scoring.dfy): the preparation script's own, older
  scoring of the watch list:
  - the status is decided on the rounded ratio, with no days-needed gate;
  - below-target and above-target rows get separate raw scores;
  - each side gets an ascending average percent-rank and its own label set.

  It is modelled as written and related to the dashboard's rules by lemmas.
- `Snapshots` (snapshots.dfy): run-date file names, the newest-first
  snapshot list, the derivation of the watch-list file name by `str.replace`,
  and the percent-to-ratio fix-up applied on load.
- `Numeric`, `Calendar`, `Strings`, `Sequences`: exact-real stand-ins for
  `np.ceil` and `round(2)`, a Gregorian calendar for `MonthEnd(0)` and day
  differences, Python's string predicates, and the order-keeping row filter
  behind pandas' boolean-mask selection.

Money and rates are exact reals. Day counts are integers. A nullable cell
is an `Option`, where `None` stands for NaN.

## Model

| member | source | states |
|---|---|---|
| Numeric.Ceil | app/streamlit_app.py:354-356 | `np.ceil` gives the least integer not below its argument |
| Numeric.CeilDivIsLeastCover | app/streamlit_app.py:349-356 | for a positive shortfall and price, the ceiling of their quotient is at least 1; that many days at the price cover the shortfall, one day fewer does not |
| Numeric.Round2 | scripts/2_data_prepar.py:184 | `round(2)` lands on the cent grid, within half a cent of the input |
| Numeric.Round2Monotone | scripts/2_data_prepar.py:184 | rounding to cents never reverses the order of two values |
| Numeric.Round2Fixed | app/streamlit_app.py:409 | a value already on the cent grid is unchanged by rounding |
| Numeric.Round2Between | scripts/2_data_prepar.py:184 | a value between two cent-grid bounds stays between them after rounding |
| Calendar.DaysInMonth | app/streamlit_app.py:308 | a month has 28 to 31 days; February has 29 exactly in leap years |
| Calendar.NextDayIsOneLater | app/streamlit_app.py:323 | the day ordinal behind a timestamp difference has no gaps, across month and year ends |
| Calendar.YearLength | app/streamlit_app.py:323 | consecutive year starts are 365 or 366 days apart, by the Gregorian leap rule |
| Calendar.MonthEnd | app/streamlit_app.py:308 | `MonthEnd(0)` stays in the date's month, never moves backwards, and its next day is in another month |
| Calendar.DaysLeftInMonth | app/streamlit_app.py:318-323 | the days to month end are never negative, are zero exactly on the month end, and equal the difference of day-of-month numbers |
| Metrics.AchievementRatio | scripts/2_data_prepar.py:145-148 | a missing or non-positive target gives 0; otherwise ratio times target equals revenue; NaN arises exactly for a missing revenue under a positive target |
| Metrics.RatioZeroIff | scripts/2_data_prepar.py:145-148 | the ratio is 0 iff there is no usable target or the revenue is 0 |
| Metrics.ClassifyValue | scripts/2_data_prepar.py:169-179 | each group is characterised by its ratio interval, closed above, at 0.5, 0.8, 1.1 and 2.0 |
| Metrics.Classify | scripts/2_data_prepar.py:169-181 | a NaN ratio falls through every comparison into `meta_subestimada` |
| Metrics.ClassifyMonotone | scripts/2_data_prepar.py:169-179 | a higher ratio never lands in a lower group |
| Metrics.ClassifyBoundaries | scripts/2_data_prepar.py:169-179 | the boundary ratios 0.5, 0.8, 1.1 and 2.0 belong to the lower group |
| Metrics.ClassifyBeforeRounding | scripts/2_data_prepar.py:181-184 | the group is taken before rounding: a ratio of 0.801 is in the watch list, although its rounded value 0.80 would not be |
| Metrics.FinancialImpact | scripts/2_data_prepar.py:155-164 | revenue plus shortfall equals the target after null-to-zero coercion; lost revenue is never negative for non-negative inputs and is zero when either factor is missing |
| Metrics.Derive | scripts/2_data_prepar.py:145-184 | the group comes from the exact ratio; the stored ratio is on the cent grid and NaN exactly when the exact one is; revenue plus shortfall equals the target |
| Metrics.BerlindaRowFacts | scripts/2_data_prepar.py:145-184 | every watch-list row has a positive target, a revenue in (80%, 110%] of it, and a stored ratio in [0.80, 1.10] |
| Metrics.DeriveAll | scripts/2_data_prepar.py:145-148 | the metric stage maps row by row, one output per input |
| Metrics.FilterBerlinda | scripts/2_data_prepar.py:233 | the watch list holds exactly the rows of group `berlinda`, each as often as in the input, in input order |
| Sequences.Filter | scripts/2_data_prepar.py:233 | a boolean-mask selection keeps exactly the passing elements, each as often as it occurs, in their order |
| Sequences.FilterHead | scripts/2_data_prepar.py:277 | the first passing element heads the selection |
| Metrics.BerlindaIsRatioWindow | scripts/2_data_prepar.py:169-184 | a listing is on the watch list iff its exact ratio is defined and in (0.8, 1.1] |
| Watchlist.AvailableDays | app/streamlit_app.py:317-325 | no days on a month end; otherwise the extract's count clipped by the days left in the month; a missing count gives 0 |
| Watchlist.ShippedReferenceIsMonthEnd | app/streamlit_app.py:307-320 | the fixed reference date 2024-09-30 is a month end, so every row gets 0 available days |
| Watchlist.DaysNeeded | app/streamlit_app.py:331-356 | days needed are never negative and are positive exactly when days, shortfall and price all are; they are then the least cover of the shortfall |
| Watchlist.ProjectPotentials | app/streamlit_app.py:332-346 | potentials equal the revenue without days; with days, the maximum adds days times price and the realistic adds the occupancy share of that |
| Watchlist.RealisticWithinMax | app/streamlit_app.py:332-346 | with an occupancy rate in [0, 1], revenue ≤ realistic potential ≤ maximum potential |
| Watchlist.DefineStatus | app/streamlit_app.py:359-373 | each of the five statuses is characterised by its own condition; the two "Acima" statuses are exactly the rows with revenue at or above target |
| Watchlist.Closeness | app/streamlit_app.py:390-391 | proximity to target lies in [0.01, 1] and is 1 exactly at a ratio of 1 |
| Watchlist.RawScore | app/streamlit_app.py:378-394 | the score is 0 without days, for unreachable or no-need below-target rows, and when the target division faults; a scoreable below-target score times target, days and days needed is the shortfall times the revenue still to gain; above target it is closeness times days times price |
| Watchlist.EnrichRow | app/streamlit_app.py:328-396 | the chain keeps the row and its days, revenue plus shortfall equals the target, and the status is "Acima" iff revenue reaches the target |
| Watchlist.RankedIffActionable | app/streamlit_app.py:359-396 | with a positive target and price, a row scores above 0 iff its status is viable, needs effort, or is above target at risk |
| Watchlist.BelowScorePositive | app/streamlit_app.py:378-390 | a below-target row with a positive target, a shortfall, days needed that fit in the days left and a revenue still to gain scores above 0 |
| Watchlist.NeedsEffortScenario | app/streamlit_app.py:349-373 | at 9000 of 10000 with 5 days at 300 and occupancy 0.5: 4 days needed, realistic potential 9750, status "precisa esforço" |
| Watchlist.NormalisedInRange | app/streamlit_app.py:399-407 | every normalised score lies in [0, 100] |
| Watchlist.NormalisedStrictlyDecreasing | app/streamlit_app.py:401-405 | with several valid rows, a strictly higher raw score gets a strictly lower normalised score (descending rank) |
| Watchlist.NormalisedTiesExact | app/streamlit_app.py:401-405 | among valid rows, equal normalised scores mean equal raw scores, and conversely (min ties) |
| Watchlist.TopAndSingleton | app/streamlit_app.py:399-407 | the highest raw score normalises to 0 when several rows are valid, and a lone valid row gets 100 |
| Watchlist.Normalise | app/streamlit_app.py:399-407 | the two-pass computation equals the closed form: 0 for invalid rows, 100 for a lone valid row, else the share of other valid rows scoring strictly higher, times 100 |
| Watchlist.Band | app/streamlit_app.py:412-420 | each band is characterised by its score interval, closed below, at 80, 50 and 20 |
| Watchlist.BandMonotone | app/streamlit_app.py:412-420 | a higher score never gets a lower band |
| Watchlist.EnrichCohort | app/streamlit_app.py:307-421 | each output is its row's chain; its normalised score is the cent-rounded closed form, within [0, 100]; its band follows that score |
| Watchlist.MonthEndCohort | app/streamlit_app.py:317-421 | on a month-end reference no row has days; every row is "inviável" or "sem ação", scores 0, and falls in the lowest band |
| Watchlist.SingleValidRowIsCritical | app/streamlit_app.py:406-420 | a lone valid row scores 100 and is "Crítico" |
| LegacyScoring.LegacyDaysNeeded | scripts/2_data_prepar.py:279-282 | gated only on a positive price: the least cover for a positive shortfall, never positive for a surplus, 0 without a price |
| LegacyScoring.DaysNeededAgree | scripts/2_data_prepar.py:279-282 | with days left and a positive shortfall, both revisions compute the same days needed |
| LegacyScoring.DaysNeededNegativeAboveTarget | scripts/2_data_prepar.py:279-282 | a 400 surplus at a 300 price needs -1 days here and 0 on the dashboard |
| LegacyScoring.LegacyPotentials | scripts/2_data_prepar.py:244-252 | the projection is applied to every row: maximum adds days times price, realistic adds the occupancy share |
| LegacyScoring.PotentialsAgree | scripts/2_data_prepar.py:244-252 | for a non-negative day count the ungated projection equals the dashboard's |
| LegacyScoring.LegacyStatus | scripts/2_data_prepar.py:254-261 | "Acima" is decided on the ratio at 1.0; every status is characterised by its own condition, with no days-needed test |
| LegacyScoring.DashboardViableImpliesLegacyViable | scripts/2_data_prepar.py:254-261 | a row the dashboard calls viable is viable here too |
| LegacyScoring.ViableAgreesForRatesUpToOne | scripts/2_data_prepar.py:254-261 | with occupancy at most 1 and the same inputs, both revisions call exactly the same below-target rows viable |
| LegacyScoring.RoundedRatioSidesDiffer | scripts/2_data_prepar.py:254-256 | a row at 99.6% of target is below target for the dashboard but above it here, because its rounded ratio is 1.00 |
| LegacyScoring.ReplaceZero | scripts/2_data_prepar.py:293-295 | `replace(0, 1)` never yields 0 and changes nothing else |
| LegacyScoring.LegacyBelowScore | scripts/2_data_prepar.py:291-296 | the below-target score times the target and the zero-replaced days and days needed is the shortfall times the potential gain; it is never negative for non-negative inputs and is 0 without days or gain |
| LegacyScoring.BelowScoresAgree | scripts/2_data_prepar.py:291-296 | where the dashboard scores a below-target row (days left, days needed fit), the script's raw score equals the dashboard's |
| LegacyScoring.LegacyAboveScore | scripts/2_data_prepar.py:301 | the risk score times (ratio − 0.99) is the day count; it is at most 100 per remaining day, never negative, and positive with days left |
| LegacyScoring.AboveScoreFallsAsRatioRises | scripts/2_data_prepar.py:301 | with days left, a higher ratio gives a strictly lower risk score |
| LegacyScoring.PercentRankInRange | scripts/2_data_prepar.py:297 | an average percent-rank lies in (0, 100] |
| LegacyScoring.PercentRankStrictlyIncreasing | scripts/2_data_prepar.py:297 | a strictly larger raw score gets a strictly larger percent-rank (ascending) |
| LegacyScoring.PercentRanks | scripts/2_data_prepar.py:297 | each row's rank is exactly the average percent-rank of its raw score among all the raw scores; ranks lie in (0, 100], strictly increase with the raw score, and tie exactly on equal raw scores |
| LegacyScoring.RiskBandOf | scripts/2_data_prepar.py:311-315 | the risk labels use the same thresholds as the priority bands |
| LegacyScoring.Dated | scripts/2_data_prepar.py:268-272 | dropping undated rows keeps exactly the dated ones, each as often as in the input, in input order |
| LegacyScoring.FirstDatedRow | scripts/2_data_prepar.py:268-277 | the reference date comes from the first dated row in input order |
| LegacyScoring.StageRow | scripts/2_data_prepar.py:277-283 | a row's available days use the same rule as the dashboard, against the stage's reference date |
| LegacyScoring.StageAll | scripts/2_data_prepar.py:277-283 | every dated row is staged against the one reference date |
| LegacyScoring.Below | scripts/2_data_prepar.py:286 | the below side holds only input rows whose rounded ratio is under 1.0, and no more rows than the input |
| LegacyScoring.Above | scripts/2_data_prepar.py:287 | the above side holds only input rows whose rounded ratio is at least 1.0, and no more rows than the input |
| LegacyScoring.SidesAreFilters | scripts/2_data_prepar.py:286-287 | each side is the boolean-mask selection of its rows: it keeps exactly the rows on its side of 1.0, each as often as in the input, in input order |
| LegacyScoring.SplitIsPartition | scripts/2_data_prepar.py:286-287 | the two sides together hold every row exactly as often as the input |
| LegacyScoring.RankBelow | scripts/2_data_prepar.py:290-319 | below-target rows keep their order; each row's raw score is its shortfall score and its rank is exactly the percent-rank of that score among the side's raw scores; priority bands follow the rank; a larger raw score ranks strictly higher, equal scores tie |
| LegacyScoring.RankAbove | scripts/2_data_prepar.py:300-323 | above-target rows keep their order; each row's raw score is its risk score and its rank is exactly the percent-rank of that score among the side's raw scores; risk labels follow the rank; ranks are monotone and tie on equal scores |
| LegacyScoring.RankRows | scripts/2_data_prepar.py:326 | the recombined list is the below rows in order followed by the above rows in order; each side is ranked on its own, with ranks in (0, 100] that follow the raw score and tie on equal scores |
| LegacyScoring.RankStaged | scripts/2_data_prepar.py:286-326 | the output is the below side's rows in input order followed by the above side's rows in input order (a multiset of the staged rows); each row carries its side's raw score and label, its status, and the exact percent-rank of its raw score among its own side; within a side a higher raw score ranks strictly higher and equal scores tie |
| LegacyScoring.ScoreStage | scripts/2_data_prepar.py:264-326 | no dated row gives an empty list; otherwise the dated rows staged against the first dated row's date are ranked as by RankStaged: below side then above side, each in input order, each row with its side's raw score, label, status and exact percent-rank within its side |
| LegacyScoring.OutputSidesAreMasks | scripts/2_data_prepar.py:286-326 | masking the recombined list by side gives back exactly the input's below-target and above-target selections, in order |
| Snapshots.Digits | scripts/2_data_prepar.py:342 | zero-padded fixed-width decimal fields |
| Snapshots.DateText | scripts/2_data_prepar.py:342 | `%Y-%m-%d` is ten characters with dashes at positions 4 and 7 |
| Snapshots.RunDate | scripts/2_data_prepar.py:340-345 | the first row's date names the run, today's date does when the table is empty, and a missing first date stops the run |
| Snapshots.OutputNames | scripts/2_data_prepar.py:349-357 | the enriched file is always named after the run date; the watch-list file exists exactly when it has rows |
| Snapshots.ReplaceAll | app/streamlit_app.py:74 | `str.replace` leaves a text without the pattern unchanged, puts the replacement where the text started with the pattern, and keeps the length when pattern and replacement are equally long |
| Snapshots.EnrichedName | scripts/2_data_prepar.py:349 | the enriched snapshot's name passes the dashboard's snapshot filter and carries the run date's text right after the prefix |
| Snapshots.BerlindaName | scripts/2_data_prepar.py:356 | the watch-list name has its own prefix, the `.csv` suffix and the run date's text, and is never taken for a snapshot |
| Snapshots.ReplaceAllUntouched | app/streamlit_app.py:74 | `str.replace` leaves a text alone when it never contains the pattern's first character |
| Snapshots.BerlindaNameFromEnriched | app/streamlit_app.py:74 | replacing the prefix of a snapshot name gives exactly the watch-list name the preparation script wrote for that date |
| Snapshots.LexLeTotal | app/streamlit_app.py:56-59 | Python string order is total |
| Snapshots.LexLeTransitive | app/streamlit_app.py:56-59 | Python string order is transitive |
| Snapshots.LexLeAntisymmetric | app/streamlit_app.py:56-59 | Python string order is antisymmetric |
| Snapshots.Insert | app/streamlit_app.py:56-59 | inserting into a descending list keeps it descending and adds exactly the new name |
| Snapshots.SortDescending | app/streamlit_app.py:56-59 | `sorted(reverse=True)` is descending and a permutation of its input |
| Snapshots.KeepSnapshots | app/streamlit_app.py:57 | keeps exactly the names with the snapshot prefix and `.csv` suffix, as often as listed |
| Snapshots.SnapshotFiles | app/streamlit_app.py:55-59 | the options are exactly the snapshot names, each as often as listed, in descending order |
| Snapshots.DefaultIsNewest | app/streamlit_app.py:67-71 | the default option, index 0, is not below any other option |
| Snapshots.DigitsOrder | scripts/2_data_prepar.py:342 | zero-padded fields of equal width compare as text exactly as the numbers compare |
| Snapshots.DateTextOrder | scripts/2_data_prepar.py:342 | `%Y-%m-%d` text compares exactly as the dates do |
| Snapshots.EnrichedNamesFollowDates | scripts/2_data_prepar.py:349 | snapshot names compare exactly as their run dates do, so the newest run is listed first |
| Snapshots.MaxOf | app/streamlit_app.py:22 | `max()` skips NaN: it is NaN only for an all-NaN column, otherwise a present value that bounds every present value |
| Snapshots.DivideBy100 | app/streamlit_app.py:23 | dividing by 100 keeps the nulls and scales every present value |
| Snapshots.FixUpRatios | app/streamlit_app.py:22-23 | the column is divided by 100 iff it is present and its maximum exceeds 5, and otherwise passes through |
| Snapshots.FixUpBringsBelowFive | app/streamlit_app.py:22-23 | after the fix-up no value exceeds 5, unless the file held a value above 500 |
| Snapshots.FixUpRatiosUnguarded | streamlit_app.py:14-15 | the older dashboard fails exactly when the ratio column is missing, and otherwise agrees with the guarded fix-up |
| Merge.Renamed | scripts/2_data_prepar.py:50-61 | a name without a mapping entry is unchanged; otherwise it becomes its mapped name |
| Merge.RenameWith | scripts/2_data_prepar.py:50-61 | renaming changes only column names, each by the mapping, and keeps every cell |
| Merge.KeySurvivesMetaRename | scripts/2_data_prepar.py:50-61 | the performance extract keeps its `listing` key through the rename |
| Merge.Matches | scripts/2_data_prepar.py:81 | the join partners of a key are exactly the right rows carrying it, each as often as it occurs, in the right table's order |
| Merge.AtMostOneMatch | scripts/2_data_prepar.py:81 | with unique right keys a left row has at most one partner |
| Merge.PartsAreMatches | scripts/2_data_prepar.py:81 | a left row is extended by its partners minus their key cell, in right-table order, or by one run of missing cells when it has none |
| Merge.MatchIsAPart | scripts/2_data_prepar.py:81 | every right row carrying a left row's key contributes its cells to that row's extensions |
| Merge.UniqueMatchPart | scripts/2_data_prepar.py:81 | with unique right keys, the one right row carrying the key, minus that cell, is the only extension |
| Merge.NoMatchPart | scripts/2_data_prepar.py:81 | a key no right row carries gets exactly one run of missing cells |
| Merge.JoinOne | scripts/2_data_prepar.py:81 | a left row yields one output row per extension, each the left row followed by that extension |
| Merge.JoinRows | scripts/2_data_prepar.py:81 | left row i's block of output rows starts at its offset, after the blocks of the earlier rows, and holds the row followed by each of its extensions in order |
| Merge.JoinedColumns | scripts/2_data_prepar.py:81 | the output names are the left names, with `_x` on clashes, then the right names without the key, with `_y` on clashes; `listing` keeps its left position |
| Merge.LeftJoin | scripts/2_data_prepar.py:81 | the columns are the joined names; left row i becomes the block at its offset: the row followed by each extension of its key, blocks in left order |
| Merge.JoinRowsComeFromLeft | scripts/2_data_prepar.py:81 | every output row is a left row followed by one of that row's extensions |
| Merge.JoinKeepsLeftRows | scripts/2_data_prepar.py:81 | every left row starts some output row; with unique right keys the row count is unchanged and output row i starts with left row i |
| Merge.JoinFindsMatch | scripts/2_data_prepar.py:81 | with unique right keys, output row i is left row i followed by the cells of the right row carrying its key, minus that cell |
| Merge.JoinWithoutMatch | scripts/2_data_prepar.py:81 | a left row whose key no right row carries gets exactly one output row, padded with missing cells |
| Merge.KeepColumns | scripts/2_data_prepar.py:97-98 | the kept columns are exactly the flagged ones, in their order, each with its cells in every row |
| Merge.DropWhere | scripts/2_data_prepar.py:97-98 | the names left are exactly those not doomed, and the first column of each keeps the cells of the first column of that name before |
| Merge.DropDuplicateDates | scripts/2_data_prepar.py:96-98 | afterwards the only column mentioning `data_da_execucao` is that exact name, every other name survives, and surviving names keep their cells |
| Merge.Present | scripts/2_data_prepar.py:137 | the filtered list holds exactly the listed names that are present, in list order |
| Merge.PresentDependsOnListedOnly | scripts/2_data_prepar.py:137 | the filtered list depends only on which listed names are present |
| Merge.Project | scripts/2_data_prepar.py:137-138 | the output columns are the fixed list filtered to present names, in list order, each with the cells of the first column of that name |
| Merge.CleanMinPrice | scripts/2_data_prepar.py:33-34 | the minimum-price extract loses its execution-date column and nothing else; the other names keep their cells |
| Merge.JoinMinPrice | scripts/2_data_prepar.py:86-94 | an absent or empty extract leaves the table unchanged; otherwise the result is the minimum-price merge with the cleaned extract |
| Merge.MergeMinPrice | scripts/2_data_prepar.py:88-90 | the rows are the left join's rows; the names are the join's names with `n_dates_special_price` renamed to `dias_pmin`, which appears whenever only the extract had that count |
| Merge.SpecialPriceRenamed | scripts/2_data_prepar.py:88-90 | a special-price count only the right side has survives the join unsuffixed and is renamed to `dias_pmin` |
| Merge.MinPriceKeepsRows | scripts/2_data_prepar.py:86-94 | every row starts some output row; with unique keys in the cleaned extract, row i starts output row i and the count is unchanged |
| Merge.JoinAll | scripts/2_data_prepar.py:50-94 | the renamed performance extract joined with prices, then location, then the minimum-price merge; `listing` keeps its position and no column is lost |
| Merge.JoinAllKeepsRows | scripts/2_data_prepar.py:81-94 | every performance row starts some row of the joined table, which has at least as many rows |
| Merge.JoinAllKeepsOrder | scripts/2_data_prepar.py:81-94 | with unique keys on every right side, the joined table has one row per performance row and row i starts with performance row i |
| Merge.Finish | scripts/2_data_prepar.py:96-138 | the output columns are the listed names left after dropping duplicate dates, in list order, each with the cells of the first column of that name; the row count is unchanged; `listing` is kept |
| Merge.FinishColumns | scripts/2_data_prepar.py:96-138 | a name is output iff it is listed, present, and not a suffixed execution date; the only output name mentioning the execution date is that exact name |
| Merge.MergeAll | scripts/2_data_prepar.py:81-138 | the joined extracts, cleaned and projected: listed names left after the drop, in list order, each reading the joined table's first column of that name; one output row per joined row |
| Merge.MergeColumns | scripts/2_data_prepar.py:96-138 | only listed names come out, and no suffixed execution date |
| Merge.MergeKeepsListings | scripts/2_data_prepar.py:81-138 | no performance row is lost; with unique keys on every right side, output row i carries performance row i's listing |

## Left out

- Reading and writing CSV files, BigQuery extraction, the Streamlit user
  interface, the KPI widgets, charts and filters, and all printing (including
  the debug block at scripts/2_data_prepar.py:191-225) are outside the model.
  File names are modelled, not files.
- Dates arrive already parsed as `Date` values. `pd.to_datetime` on text is
  not modelled. Neither is a missing `data_da_execucao` column at
  scripts/2_data_prepar.py:342, which is a lookup error in the source.
- Numeric.Round2: works on exact reals. The binary-double representation
  errors of pandas' `round(2)` are not modelled.
- Watchlist.RawScore: the `except` branch is modelled as the division by a
  zero target, scored 0. The row-wise `apply` hands the function Python
  floats, for which that division raises, so this is most likely what the
  dashboard does. Should numpy scalars reach it instead, the score would be
  infinite or NaN there.
- Watchlist.WatchRow: revenue, target, price and occupancy are always
  present, and NaN propagation through the dashboard's arithmetic is not
  modelled. The preparation script fills nulls only in `dias_bloqueados`,
  `media_preco_ocupado`, `faturamento_mes` and `meta`
  (scripts/2_data_prepar.py:155-158). The available-day price and the
  occupancy rate can still be missing: the price extract averages the price
  over available nights only, so it is null for a listing with none.
- Watchlist.AvailableDays: the raw day count is already an integer. The
  truncating `astype(int)` of a fractional count is not modelled.
- LegacyScoring.ScoreStage: requires every watch-list row to have a defined
  ratio and a positive target. Metrics.BerlindaRowFacts proves this for
  every row the metric stage puts on the watch list.
- LegacyScoring.ScoreStage: a missing available-day price or occupancy rate
  is taken as 0 here, so such a row gets a finite score and a rank in
  (0, 100]. In the script the ungated potentials
  (scripts/2_data_prepar.py:244-252) become NaN for that row. Its raw score
  and percent-rank are then NaN too, it is left out of the rank
  denominator, and it falls in the band "Baixa".
- Merge.LeftJoin: names produced by suffixing or renaming that collide with
  existing names are not modelled. Neither are pandas' dtype rules for keys.
  A column selection takes the first column of a given name.
- Merge.Finish: the interaction of the fixed column list with the dropped
  date columns is stated through DropDuplicateDates' result, not spelled out
  name by name for the joined table's raw columns.
- Merge.MergeAll: requires `listing` in every extract. pandas raises a
  lookup error otherwise, which is not modelled as a result value.
- The early exit when a main extract is missing, and the fallback of the
  minimum-price extract to an empty table on a read error, are I/O. The
  model takes the minimum-price extract as an optional table instead.
